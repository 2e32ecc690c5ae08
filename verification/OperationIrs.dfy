/**
 OperationIr: the lists of tensor descriptions are expanded in place, from the back, by a list of lengths.
 The result is characterised for all lengths; it is the intended expansion exactly when the zeros come first.
 */
module OperationIrs {

  const SVECTOR_CAPACITY := 48

  datatype TensorInfoIr = TensorInfoIr(supportedDtypes: seq<int>, supportedFormats: seq<int>, isOptional: bool)

  const BLANK := TensorInfoIr([], [], false)

  datatype ExtendResult = Done | Rejected | CapacityExceeded

  // ----------------------------------------------------------- specification

  predicate NonNegative(lens: seq<int>)
  {
    forall i :: 0 <= i < |lens| ==> lens[i] >= 0
  }

  function Repeat(ir: TensorInfoIr, n: nat): (r: seq<TensorInfoIr>)
    ensures |r| == n && forall k :: 0 <= k < n ==> r[k] == ir
  {
    seq(n, _ => ir)
  }

  /** The intended list: every entry as often as its length says, a plain entry (length zero) once. */
  function Expansion(irs: seq<TensorInfoIr>, lens: seq<int>): seq<TensorInfoIr>
    requires |irs| == |lens| && NonNegative(lens)
  {
    if irs == [] then []
    else
      var n := |irs| - 1;
      Expansion(irs[..n], lens[..n]) + Repeat(irs[n], if lens[n] == 0 then 1 else lens[n])
  }

  /** Only the entries with a positive length, repeated. */
  function Lists(irs: seq<TensorInfoIr>, lens: seq<int>): seq<TensorInfoIr>
    requires |irs| == |lens| && NonNegative(lens)
  {
    if irs == [] then []
    else
      var n := |irs| - 1;
      Lists(irs[..n], lens[..n]) + Repeat(irs[n], lens[n])
  }

  function CountZeros(lens: seq<int>): (r: nat)
    ensures r <= |lens|
  {
    if lens == [] then 0
    else CountZeros(lens[..|lens| - 1]) + if lens[|lens| - 1] == 0 then 1 else 0
  }

  /** What the backward loop leaves: as many original entries as there are zeros, then the lists. */
  function Extended(irs: seq<TensorInfoIr>, lens: seq<int>): seq<TensorInfoIr>
    requires |irs| == |lens| && NonNegative(lens)
  {
    irs[..CountZeros(lens)] + Lists(irs, lens)
  }

  function TotalLen(lens: seq<int>): nat
    requires NonNegative(lens)
  {
    if lens == [] then 0
    else TotalLen(lens[..|lens| - 1]) + if lens[|lens| - 1] == 0 then 1 else lens[|lens| - 1]
  }

  lemma {:induction false} ListsLength(irs: seq<TensorInfoIr>, lens: seq<int>)
    requires |irs| == |lens| && NonNegative(lens)
    ensures CountZeros(lens) + |Lists(irs, lens)| == TotalLen(lens) >= |irs|
  {
    if irs != [] {
      ListsLength(irs[..|irs| - 1], lens[..|lens| - 1]);
    }
  }

  /** No plain entry comes after a list. */
  predicate ZerosFirst(lens: seq<int>)
  {
    forall i, j :: 0 <= i < j < |lens| && lens[j] == 0 ==> lens[i] == 0
  }

  predicate AllDifferent(irs: seq<TensorInfoIr>)
  {
    forall i, j :: 0 <= i < j < |irs| ==> irs[i] != irs[j]
  }

  /** All zeros: nothing is repeated. */
  lemma {:induction false} OnlyZeros(irs: seq<TensorInfoIr>, lens: seq<int>)
    requires |irs| == |lens| && (forall i :: 0 <= i < |lens| ==> lens[i] == 0)
    ensures CountZeros(lens) == |lens| && Lists(irs, lens) == [] && Expansion(irs, lens) == irs
  {
    if irs != [] {
      var n := |irs| - 1;
      OnlyZeros(irs[..n], lens[..n]);
      assert irs == irs[..n] + [irs[n]];
      assert Repeat(irs[n], 1) == [irs[n]];
    }
  }

  /** Some list: the last element of the lists is an entry of its own. */
  lemma {:induction false} LastOfLists(irs: seq<TensorInfoIr>, lens: seq<int>)
    requires |irs| == |lens| && NonNegative(lens) && exists i :: 0 <= i < |lens| && lens[i] > 0
    ensures Lists(irs, lens) != [] && Lists(irs, lens)[|Lists(irs, lens)| - 1] in irs
  {
    var n := |irs| - 1;
    if lens[n] == 0 {
      var i :| 0 <= i < |lens| && lens[i] > 0;
      assert lens[..n][i] > 0;
      LastOfLists(irs[..n], lens[..n]);
    }
  }

  lemma FrontZeros(lens: seq<int>)
    requires lens != [] && lens[|lens| - 1] != 0
    ensures ZerosFirst(lens) <==> ZerosFirst(lens[..|lens| - 1])
  {
    var front := lens[..|lens| - 1];
    if ZerosFirst(front) {
      forall i, j | 0 <= i < j < |lens| && lens[j] == 0
        ensures lens[i] == 0
      {
        assert front[i] == lens[i] && front[j] == lens[j];
      }
    }
  }

  lemma SameTail(a: seq<TensorInfoIr>, b: seq<TensorInfoIr>, t: seq<TensorInfoIr>)
    ensures a + t == b + t <==> a == b
  {
    if a + t == b + t {
      assert a == (a + t)[..|a + t| - |t|] && b == (b + t)[..|b + t| - |t|];
    }
  }

  /** Lengths with the zeros first give the intended list; for different entries, only those do. */
  lemma {:induction false} ExtendedIsExpansion(irs: seq<TensorInfoIr>, lens: seq<int>)
    requires |irs| == |lens| && NonNegative(lens)
    ensures ZerosFirst(lens) ==> Extended(irs, lens) == Expansion(irs, lens)
    ensures AllDifferent(irs) && Extended(irs, lens) == Expansion(irs, lens) ==> ZerosFirst(lens)
  {
    if irs != [] {
      var n := |irs| - 1;
      var front := irs[..n];
      if lens[n] > 0 {
        ExtendedIsExpansion(front, lens[..n]);
        FrontZeros(lens);
        assert front[..CountZeros(lens)] == irs[..CountZeros(lens)];
        assert Extended(irs, lens) == Extended(front, lens[..n]) + Repeat(irs[n], lens[n]);
        SameTail(Extended(front, lens[..n]), Expansion(front, lens[..n]), Repeat(irs[n], lens[n]));
      } else if forall i :: 0 <= i < n ==> lens[i] == 0 {
        OnlyZeros(irs, lens);
        assert irs[..|irs|] == irs;
      } else {
        MisplacedZero(irs, lens);
      }
    }
  }

  /** A plain entry behind a list is lost: the result ends with an entry of that list. */
  lemma MisplacedZero(irs: seq<TensorInfoIr>, lens: seq<int>)
    requires |irs| == |lens| > 0 && NonNegative(lens) && lens[|lens| - 1] == 0
    requires exists i :: 0 <= i < |lens| - 1 && lens[i] != 0
    ensures !ZerosFirst(lens) && (AllDifferent(irs) ==> Extended(irs, lens) != Expansion(irs, lens))
  {
    var n := |irs| - 1;
    var i :| 0 <= i < n && lens[i] != 0;
    assert lens[..n][i] > 0;
    LastOfLists(irs[..n], lens[..n]);
    var x, e := Extended(irs, lens), Expansion(irs, lens);
    assert Lists(irs, lens) == Lists(irs[..n], lens[..n]) + Repeat(irs[n], 0) == Lists(irs[..n], lens[..n]);
    assert x[|x| - 1] in irs[..n] && e[|e| - 1] == irs[n];
    var k :| 0 <= k < n && irs[..n][k] == x[|x| - 1];
    assert irs[k] == x[|x| - 1];
  }

  // ------------------------------------------------------------- the methods

  function Resized(irs: seq<TensorInfoIr>, n: nat): (r: seq<TensorInfoIr>)
    ensures |r| == n
  {
    seq(n, i requires 0 <= i < n => if i < |irs| then irs[i] else BLANK)
  }

  /** The two checks in front: no negative length, and the new size. */
  method SumLens(lens: seq<int>) returns (ok: bool, totalLen: nat)
    ensures ok == NonNegative(lens)
    ensures ok ==> totalLen == TotalLen(lens)
  {
    totalLen := 0;
    for i := 0 to |lens|
      invariant NonNegative(lens[..i]) && totalLen == TotalLen(lens[..i])
    {
      if lens[i] < 0 {
        return false, 0;
      }
      assert lens[..i + 1][..i] == lens[..i];
      totalLen := totalLen + if lens[i] == 0 then 1 else lens[i];
    }
    assert lens[..|lens|] == lens;
    ok := true;
  }

  /** The entries from i on are expanded, from startId on; in front of it r still holds what it held. */
  ghost predicate Expanded(irs: seq<TensorInfoIr>, lens: seq<int>, r: seq<TensorInfoIr>, i: nat, startId: int)
    requires |irs| == |lens| && NonNegative(lens)
  {
    && i <= |irs| && |r| == TotalLen(lens) && 0 <= startId <= |r|
    && startId == CountZeros(lens) + |Lists(irs[..i], lens[..i])|
    && r[..startId] == Resized(irs, |r|)[..startId]
    && Lists(irs[..i], lens[..i]) + r[startId..] == Lists(irs, lens)
  }

  lemma ExpandedStart(irs: seq<TensorInfoIr>, lens: seq<int>)
    requires |irs| == |lens| && NonNegative(lens)
    ensures Expanded(irs, lens, Resized(irs, TotalLen(lens)), |irs|, TotalLen(lens))
  {
    ListsLength(irs, lens);
    assert irs[..|irs|] == irs && lens[..|lens|] == lens;
  }

  lemma {:induction false} ZerosGrow(lens: seq<int>, i: nat)
    requires i <= |lens|
    ensures CountZeros(lens[..i]) <= CountZeros(lens)
  {
    if i < |lens| {
      ZerosGrow(lens[..|lens| - 1], i);
      assert lens[..|lens| - 1][..i] == lens[..i];
    } else {
      assert lens[..i] == lens;
    }
  }

  /** Entry i has not been overwritten when its turn comes. */
  lemma StillThere(irs: seq<TensorInfoIr>, lens: seq<int>, r: seq<TensorInfoIr>, i: nat, startId: int)
    requires |irs| == |lens| && NonNegative(lens) && Expanded(irs, lens, r, i + 1, startId)
    ensures i <= startId - lens[i] && (lens[i] > 0 ==> i < startId && r[i] == irs[i])
  {
    assert irs[..i + 1][..i] == irs[..i] && lens[..i + 1][..i] == lens[..i];
    ListsLength(irs[..i], lens[..i]);
    ZerosGrow(lens, i);
    if lens[i] > 0 {
      assert r[i] == r[..startId][i] == Resized(irs, |r|)[i];
    }
  }

  lemma ExpandedStep(irs: seq<TensorInfoIr>, lens: seq<int>, r: seq<TensorInfoIr>, i: nat, startId: int,
                     now: seq<TensorInfoIr>)
    requires |irs| == |lens| && NonNegative(lens) && Expanded(irs, lens, r, i + 1, startId) && startId - lens[i] >= 0
    requires now == r[..startId - lens[i]] + Repeat(irs[i], lens[i]) + r[startId..]
    ensures Expanded(irs, lens, now, i, startId - lens[i])
  {
    hide TotalLen, Resized, CountZeros;
    var from := startId - lens[i];
    var front := Lists(irs[..i], lens[..i]);
    assert irs[..i + 1][..i] == irs[..i] && lens[..i + 1][..i] == lens[..i];
    assert Lists(irs[..i + 1], lens[..i + 1]) == front + Repeat(irs[i], lens[i]);
    assert now[from..] == Repeat(irs[i], lens[i]) + r[startId..];
    assert now[..from] == r[..startId][..from];
    assert front + now[from..] == front + Repeat(irs[i], lens[i]) + r[startId..];
  }

  lemma ExpandedEnd(irs: seq<TensorInfoIr>, lens: seq<int>, r: seq<TensorInfoIr>, startId: int)
    requires |irs| == |lens| && NonNegative(lens) && Expanded(irs, lens, r, 0, startId)
    ensures r == Extended(irs, lens)
  {
    assert Lists(irs[..0], lens[..0]) == [];
    ListsLength(irs, lens);
    assert r == r[..startId] + r[startId..];
    assert Resized(irs, |r|)[..startId] == irs[..startId];
  }

  /**
   The loop from the back. When entry i is copied, everything written so far is behind it, so it is
   still the original entry; its copies end where the copies of the next entry begin.
   */
  method ExtendFromBack(irs: seq<TensorInfoIr>, lens: seq<int>) returns (r: seq<TensorInfoIr>)
    requires |irs| == |lens| && NonNegative(lens)
    ensures r == Extended(irs, lens)
  {
    hide Expanded, Extended, Resized;
    var startId := TotalLen(lens);
    r := Resized(irs, startId);
    ExpandedStart(irs, lens);
    var i := |irs|;
    while i > 0
      invariant 0 <= i <= |irs| && 0 <= startId <= |r|
      invariant Expanded(irs, lens, r, i, startId)
    {
      i := i - 1;
      StillThere(irs, lens, r, i, startId);
      ghost var was, end := r, startId;
      startId := startId - lens[i];
      r := CopyEntry(r, i, startId, lens[i], irs[i]);
      ExpandedStep(irs, lens, was, i, end, r);
    }
    ExpandedEnd(irs, lens, r, startId);
  }

  /** The inner loop: copies of entry i, which sits at or in front of the first copy. */
  method CopyEntry(irs: seq<TensorInfoIr>, i: nat, startId: nat, len: nat, ghost entry: TensorInfoIr)
    returns (r: seq<TensorInfoIr>)
    requires i <= startId && startId + len <= |irs| && (len > 0 ==> irs[i] == entry)
    ensures r == irs[..startId] + Repeat(entry, len) + irs[startId + len..]
  {
    r := irs;
    for j := startId to startId + len
      invariant |r| == |irs| && (len > 0 ==> r[i] == entry)
      invariant r == irs[..startId] + Repeat(entry, j - startId) + irs[j..]
    {
      r := r[j := r[i]];
    }
  }

  class OperationIr {
    var inTensorInfoIrs: seq<TensorInfoIr>
    var outTensorInfoIrs: seq<TensorInfoIr>

    constructor (ins: seq<TensorInfoIr>, outs: seq<TensorInfoIr>)
      ensures inTensorInfoIrs == ins && outTensorInfoIrs == outs
    {
      inTensorInfoIrs, outTensorInfoIrs := ins, outs;
    }

    method ExtendInTensorIrByInputlens(lens: seq<int>) returns (r: ExtendResult)
      requires |lens| == |inTensorInfoIrs|
      modifies this`inTensorInfoIrs
      ensures r == Outcome(lens)
      ensures r == CapacityExceeded <==> (forall i :: 0 <= i < |lens| ==> lens[i] >= 0) && TotalLen(lens) > 48
      ensures inTensorInfoIrs == if r.Done? then Extended(old(inTensorInfoIrs), lens) else old(inTensorInfoIrs)
    {
      var ok, totalLen := SumLens(lens);
      if !ok {
        return Rejected;
      }
      if totalLen > SVECTOR_CAPACITY {
        return CapacityExceeded;
      }
      inTensorInfoIrs := ExtendFromBack(inTensorInfoIrs, lens);
      r := Done;
    }

    method ExtendOutTensorIrByOutputlens(lens: seq<int>) returns (r: ExtendResult)
      requires |lens| == |outTensorInfoIrs|
      modifies this`outTensorInfoIrs
      ensures r == Outcome(lens)
      ensures r == CapacityExceeded <==> (forall i :: 0 <= i < |lens| ==> lens[i] >= 0) && TotalLen(lens) > 48
      ensures outTensorInfoIrs == if r.Done? then Extended(old(outTensorInfoIrs), lens) else old(outTensorInfoIrs)
    {
      var ok, totalLen := SumLens(lens);
      if !ok {
        return Rejected;
      }
      if totalLen > SVECTOR_CAPACITY {
        return CapacityExceeded;
      }
      outTensorInfoIrs := ExtendFromBack(outTensorInfoIrs, lens);
      r := Done;
    }
  }

  /** A negative length is refused; a total beyond the capacity makes resize throw. */
  function Outcome(lens: seq<int>): ExtendResult
  {
    if !NonNegative(lens) then Rejected
    else if TotalLen(lens) > SVECTOR_CAPACITY then CapacityExceeded
    else Done
  }
}
