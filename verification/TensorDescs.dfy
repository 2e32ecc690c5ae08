/** Element counts of tensors: an exact product or zero, and the checks that build on it. */
module TensorDescs {

  const INT64_MAX := 0x7FFF_FFFF_FFFF_FFFF
  const INT32_MAX := 0x7FFF_FFFF
  const UINT64_MAX := 0xFFFF_FFFF_FFFF_FFFF
  const MIN_DIM := 1
  const MAX_DIM := 8
  const MAX_SHAPE_SIZE := 256 * 1024 * 1024 * 1024

  function Product(dims: seq<int>): int
  {
    if dims == [] then 1 else Product(dims[..|dims| - 1]) * dims[|dims| - 1]
  }

  predicate ValidDims(dims: seq<int>)
  {
    forall i :: 0 <= i < |dims| ==> 0 < dims[i] <= INT32_MAX
  }

  /** The product if every dim is a positive int32 and the product fits int64, zero otherwise. */
  function Count(dims: seq<int>): int
  {
    if ValidDims(dims) && Product(dims) <= INT64_MAX then Product(dims) else 0
  }

  lemma {:induction false} ProductPositive(dims: seq<int>)
    requires ValidDims(dims)
    ensures Product(dims) >= 1
  {
    if dims != [] {
      ProductPositive(dims[..|dims| - 1]);
      PositiveTimes(Product(dims[..|dims| - 1]), dims[|dims| - 1]);
    }
  }

  lemma PositiveTimes(a: int, b: int)
    requires a >= 1 && b >= 1
    ensures a * b >= a >= 1
  {
  }

  /** A product only grows with further dims. */
  lemma {:induction false} ProductGrows(dims: seq<int>, i: nat)
    requires ValidDims(dims) && i <= |dims|
    ensures Product(dims[..i]) <= Product(dims)
  {
    if i < |dims| {
      var front := dims[..|dims| - 1];
      ProductGrows(front, i);
      assert front[..i] == dims[..i];
      ProductPositive(front);
      PositiveTimes(Product(front), dims[|dims| - 1]);
    } else {
      assert dims[..i] == dims;
    }
  }

  /** The overflow test by division. */
  lemma DivisionTest(max: nat, count: nat, v: nat)
    requires count >= 1
    ensures max / count < v <==> max < count * v
  {
    var q, r := max / count, max % count;
    assert max == count * q + r && 0 <= r < count;
    if q < v {
      Distribute(count, v, q + 1);
      assert count * (q + 1) == count * q + count;
    } else {
      Distribute(count, q, v);
    }
  }

  lemma Distribute(c: nat, a: int, b: int)
    requires a >= b
    ensures c * a >= c * b
  {
  }

  /** CalNumel: the exact count of the dims in the range, although no intermediate product leaves int64. */
  method CalNumel(value: seq<int>, start: nat, end: nat) returns (elementCount: int)
    requires start <= end <= |value|
    ensures elementCount == Count(value[start..end]) && 0 <= elementCount <= INT64_MAX
  {
    hide Product;
    elementCount := 1;
    ghost var dims := value[start..end];
    ProductOfNone(dims);
    var idx := start;
    while idx < end
      invariant start <= idx <= end && ValidDims(dims[..idx - start])
      invariant elementCount == Product(dims[..idx - start]) && 1 <= elementCount <= INT64_MAX
    {
      var tmpVal := value[idx];
      assert tmpVal == dims[idx - start];
      if tmpVal <= 0 || tmpVal > INT32_MAX {
        return 0;
      }
      assert ValidDims(dims[..idx - start + 1]);
      ProductStep(dims, idx - start);
      DivisionTest(INT64_MAX, elementCount, tmpVal);
      if INT64_MAX / elementCount < tmpVal {
        if ValidDims(dims) {
          ProductGrows(dims, idx - start + 1);
        }
        return 0;
      }
      PositiveTimes(elementCount, tmpVal);
      elementCount := elementCount * tmpVal;
      idx := idx + 1;
    }
    assert dims[..|dims|] == dims;
  }

  lemma ProductOfNone(dims: seq<int>)
    ensures Product(dims[..0]) == 1
  {
  }

  lemma ProductStep(dims: seq<int>, i: nat)
    requires i < |dims|
    ensures Product(dims[..i + 1]) == Product(dims[..i]) * dims[i]
  {
    assert dims[..i + 1][..i] == dims[..i];
  }

  /** TensorDesc::Numel: no dims is no elements. */
  function ElementCount(dims: seq<int>): int
  {
    if dims == [] then 0 else Count(dims)
  }

  class TensorDesc {
    var dims: seq<int>

    constructor (dims: seq<int>)
      ensures this.dims == dims
    {
      this.dims := dims;
    }

    method Numel() returns (n: int)
      ensures n == ElementCount(dims) && 0 <= n <= INT64_MAX
    {
      if |dims| == 0 {
        return 0;
      }
      if |dims| == 1 && dims[0] == 0 {
        return 0;
      }
      n := CalNumel(dims, 0, |dims|);
      assert dims[0..|dims|] == dims;
    }

    /**
     View takes the new dims exactly when they count as many elements. Empty new dims count as one element
     there, but as none afterwards: only they can change the element count, and only of a one-element tensor.
     */
    method View(newDims: seq<int>)
      modifies this
      ensures dims == if Count(newDims) != 0 && Count(newDims) == ElementCount(old(dims)) then newDims else old(dims)
      ensures ElementCount(dims) == ElementCount(old(dims)) <==> !(newDims == [] && ElementCount(old(dims)) == 1)
    {
      var elementCount := CalNumel(newDims, 0, |newDims|);
      assert newDims[0..|newDims|] == newDims;
      if elementCount == 0 {
        return;
      }
      var oldElementCount := Numel();
      if elementCount != oldElementCount {
        return;
      }
      dims := newDims;
    }
  }

  /** CheckInTensor accepts one to eight dims, some elements, and a true size of at most 256 gigabytes. */
  method CheckInTensor(desc: TensorDesc, elementSize: nat) returns (ok: bool)
    requires elementSize <= UINT64_MAX
    ensures ok == (1 <= |desc.dims| <= 8 && (forall i :: 0 <= i < |desc.dims| ==> 1 <= desc.dims[i] <= 0x7FFF_FFFF)
                   && elementSize != 0 && elementSize * Product(desc.dims) <= 0x40_0000_0000)
  {
    ok := false;
    if MIN_DIM <= |desc.dims| <= MAX_DIM {
      var elementCount := desc.Numel();
      if elementCount != 0 && elementSize != 0 {
        SizeTest(desc.dims, elementSize, elementCount);
        var tensorSize := Wrapped(elementSize * elementCount);
        ok := elementCount <= UINT64_MAX / elementSize && tensorSize <= MAX_SHAPE_SIZE;
      } else {
        NoSize(desc.dims, elementSize);
      }
    }
  }

  /** What a size_t keeps of a product. */
  function Wrapped(v: int): int
  {
    v % (UINT64_MAX + 1)
  }

  lemma SizeTest(dims: seq<int>, elementSize: nat, elementCount: nat)
    requires elementSize > 0 && dims != [] && elementCount == Count(dims) != 0
    ensures ValidDims(dims) && elementCount == Product(dims)
    ensures elementCount <= UINT64_MAX / elementSize && Wrapped(elementSize * elementCount) <= MAX_SHAPE_SIZE
       <==> elementSize * elementCount <= MAX_SHAPE_SIZE
  {
    DivisionTest(UINT64_MAX, elementSize, elementCount);
    if elementSize * elementCount <= UINT64_MAX {
      WrapsNot(elementSize * elementCount);
    }
  }

  lemma WrapsNot(v: nat)
    requires v <= UINT64_MAX
    ensures Wrapped(v) == v
  {
  }

  lemma NoSize(dims: seq<int>, elementSize: nat)
    requires dims != [] && (Count(dims) == 0 || elementSize == 0)
    ensures !(ValidDims(dims) && elementSize != 0 && elementSize * Product(dims) <= MAX_SHAPE_SIZE)
  {
    if ValidDims(dims) && elementSize != 0 {
      ProductPositive(dims);
      Distribute(Product(dims), elementSize, 1);
    }
  }
}
