/** The comparison operators of Fp16T, and narrowing as a monotone map under them. */
module Fp16Compare {
  import opened Binary16
  import opened Fp16Narrow

  /** FP16_IS_ZERO. */
  predicate IsZero(h: Half) { h % 0x8000 == 0 }

  /** operator==. */
  predicate Equal(a: Half, b: Half) { if IsZero(a) && IsZero(b) then true else a == b }

  /** operator!=, written out on its own in the class. */
  predicate NotEqual(a: Half, b: Half) { if IsZero(a) && IsZero(b) then false else a != b }

  /** operator>. */
  predicate Greater(a: Half, b: Half)
  {
    var s1, s2, e1, e2 := SignOf(a), SignOf(b), ExpField(a), ExpField(b);
    var m1, m2 := Significand(a), Significand(b);
    if s1 == 0 && s2 > 0 then !(IsZero(a) && IsZero(b))
    else if s1 == 0 && s2 == 0 then e1 > e2 || (e1 == e2 && m1 > m2)
    else if s1 > 0 && s2 > 0 then e1 < e2 || (e1 == e2 && m1 < m2)
    else false
  }

  /** operator>=, operator< and operator<=, each by the operators above. */
  predicate GreaterEqual(a: Half, b: Half) { Greater(a, b) || Equal(a, b) }

  predicate Less(a: Half, b: Half) { !GreaterEqual(a, b) }

  predicate LessEqual(a: Half, b: Half) { !Greater(a, b) }

  /** The field-by-field comparison is the comparison of the 15 low bits. */
  lemma FieldOrder(a: Half, b: Half)
    ensures ExpField(a) > ExpField(b) || (ExpField(a) == ExpField(b) && Significand(a) > Significand(b))
            <==> a % 0x8000 > b % 0x8000
  {
    LowBits(a);
    LowBits(b);
  }

  /**
   The operators compare the values the words stand for, with both zeros equal, for every pair
   of words (exponent field 31 read as an ordinary exponent).
   */
  lemma ComparisonsAreValueComparisons(a: Half, b: Half)
    ensures Greater(a, b) <==> Val(a) > Val(b)
    ensures Equal(a, b) <==> Val(a) == Val(b)
    ensures NotEqual(a, b) <==> Val(a) != Val(b)
    ensures GreaterEqual(a, b) <==> Val(a) >= Val(b)
    ensures Less(a, b) <==> Val(a) < Val(b)
    ensures LessEqual(a, b) <==> Val(a) <= Val(b)
  {
    FieldOrder(a, b);
    FieldOrder(b, a);
    ValueOrder(a, b);
    ValueOrder(b, a);
    SameWord(a, b);
    hide Mag, Val, ExpField, Significand;
  }

  /** Values order as the low bits do, with the sign deciding first and both zeros equal. */
  lemma ValueOrder(a: Half, b: Half)
    ensures Val(a) > Val(b)
            <==> if SignOf(a) == 0 then (if SignOf(b) == 0 then a % 0x8000 > b % 0x8000 else !(IsZero(a) && IsZero(b)))
                 else SignOf(b) == 1 && a % 0x8000 < b % 0x8000
  {
    hide Mag;
    MagStrictlyMonotone(a, b);
    MagStrictlyMonotone(b, a);
    MagStrictlyMonotone(a, 0);
    MagStrictlyMonotone(b, 0);
    MagOfZero();
  }

  lemma SameWord(a: Half, b: Half)
    ensures a == b <==> SignOf(a) == SignOf(b) && a % 0x8000 == b % 0x8000
  {
    LowBits(a);
    LowBits(b);
  }

  /** Narrowing a float never reverses an order, under the class's own operators. */
  lemma NarrowFloatMonotone(x: Float, y: Float)
    requires FloatVal(x) <= FloatVal(y)
    ensures LessEqual(NarrowFloat(x), NarrowFloat(y))
    ensures FloatVal(x) == FloatVal(y) ==> Equal(NarrowFloat(x), NarrowFloat(y))
  {
    hide NearestEven, Narrow, FloatVal, FloatScale;
    var a, b := NarrowFloat(x), NarrowFloat(y);
    NarrowFloatNearest(x);
    NarrowFloatNearest(y);
    ScalesPositive();
    NearestEvenMonotone(a, b, FloatVal(x), FloatVal(y), FloatScale());
    if FloatVal(x) == FloatVal(y) {
      NearestEvenUnique(a, b, FloatVal(x), FloatScale());
    }
    ComparisonsAreValueComparisons(a, b);
  }

  lemma NarrowDoubleMonotone(x: Double, y: Double)
    requires DoubleVal(x) <= DoubleVal(y)
    ensures LessEqual(NarrowDouble(x), NarrowDouble(y))
    ensures DoubleVal(x) == DoubleVal(y) ==> Equal(NarrowDouble(x), NarrowDouble(y))
  {
    hide NearestEven, Narrow, DoubleVal, DoubleScale;
    var a, b := NarrowDouble(x), NarrowDouble(y);
    NarrowDoubleNearest(x);
    NarrowDoubleNearest(y);
    ScalesPositive();
    NearestEvenMonotone(a, b, DoubleVal(x), DoubleVal(y), DoubleScale());
    if DoubleVal(x) == DoubleVal(y) {
      NearestEvenUnique(a, b, DoubleVal(x), DoubleScale());
    }
    ComparisonsAreValueComparisons(a, b);
  }
}
