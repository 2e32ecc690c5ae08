/** Fp16Mul: the product of two halves is the nearest-even half of the exact product. */
module Fp16Mul {
  import opened Powers
  import opened Binary16
  import opened Words

  /** The exact product, in units of 2^-48, seen through the extracted fields. */
  lemma ProductOfFields(v1: Half, v2: Half, m: nat)
    requires m == Significand(v1) * Significand(v2)
    ensures Abs(Val(v1) * Val(v2)) == Shl(m, Exponent(v1) + Exponent(v2) - 2)
    ensures m < 0x40_0000
  {
    hide Significand, Exponent, Pow2, Val, Abs, Shl;
    MulMonotone(Significand(v1), 0x7FF, Significand(v2));
    AbsOfVal(v1);
    AbsOfVal(v2);
    ScaledProduct(Val(v1), Significand(v1), Exponent(v1) - 1, Val(v2), Significand(v2), Exponent(v2) - 1);
  }

  lemma ScaledProduct(x: int, m1: nat, a: nat, y: int, m2: nat, b: nat)
    requires Abs(x) == m1 * Pow2(a) && Abs(y) == m2 * Pow2(b)
    ensures Abs(x * y) == Shl(m1 * m2, a + b)
  {
    hide Pow2, Shl, Abs;
    AbsOfProduct(x, y);
    Pow2Add(a, b);
    Interchange(m1, Pow2(a), m2, Pow2(b));
    ShlIsScale(m1 * m2, a + b);
  }

  lemma AbsOfVal(v: Half)
    ensures Abs(Val(v)) == Significand(v) * Pow2(Exponent(v) - 1)
  {
  }

  lemma AbsOfProduct(x: int, y: int)
    ensures Abs(x * y) == Abs(x) * Abs(y)
  {
  }

  lemma Interchange(a: nat, p: nat, b: nat, q: nat)
    ensures a * p * (b * q) == a * b * (p * q)
  {
    assert a * p * (b * q) == a * (p * (b * q));
    assert p * (b * q) == b * (p * q);
    assert a * (b * (p * q)) == a * b * (p * q);
  }

  /** A 22-bit product stays at or above 2^11 for fewer than 11 right shifts. */
  lemma FewShifts(m0: nat, k: nat)
    requires m0 < 0x40_0000 && Slide(m0, k).0 >= 0x800
    ensures k < 11
  {
    SlideQuotient(m0, k);
    assert Shl(0x800, 11) == 0x40_0000;
    ShrBelow(m0, 0x800, 11);
    if k >= 11 {
      ShrAntitone(m0, 11, k);
    }
  }

  /** The aligned form the rounding theorem asks for, after k shifts that end at exponent e >= 1. */
  lemma ProductAligned(n: nat, m0: nat, k: nat, e: nat)
    requires k <= 32 && 1 <= e && k <= e + 23 && Shl(m0, e + 23 - k) == n
    requires Slide(m0, k).0 < 0x800 && (e == 1 || Slide(m0, k).0 >= 0x400)
    ensures Aligned(n, Pow2(24), e, Slide(m0, k).0, Slide(m0, k).1, TWO32)
  {
    var (m, t) := Slide(m0, k);
    SlideExact(m0, k);
    Pow2Of32();
    ShlIsScale(m, 32);
    ShlShl(m0, e + 23 - k, 32);
    ShlShl(m0, 32 - k, e - 1 + 24);
    AlignedByShifts(n, 24, e, Fixed(m, t), m, t, 32);
  }

  method Fp16Mul(v1: Half, v2: Half) returns (ret: Half)
    ensures NearestEven(ret, Val(v1) * Val(v2), Pow2(24))
    ensures SignOf(ret) == (SignOf(v1) + SignOf(v2)) % 2
  {
    hide NearestEven, Encode, Rounded, Aligned, Shl, Val, Abs, Significand, Exponent;
    var s1, e1, m1 := SignOf(v1), Exponent(v1), Significand(v1);
    var s2, e2, m2 := SignOf(v2), Exponent(v2), Significand(v2);
    var sVal := (s1 + s2) % 2;
    ghost var x := Val(v1) * Val(v2);
    ProductOfFields(v1, v2, m1 * m2);
    ProductSign(v1, v2);
    var eVal, mulM, mTrct := NormalizeProduct(e1 as int + e2 as int - 15 - 10, m1 * m2, Abs(x));
    EncodeIsNearestEven(sVal, x, Pow2(24), eVal, mulM, mTrct, TWO32);
    ret := RoundProduct(sVal, eVal, mulM, mTrct);
  }

  /** The two loops of Fp16Mul: bring the product to 11 bits, keeping the bits shifted out. */
  method NormalizeProduct(eIn: int, mIn: nat, ghost n: nat) returns (eVal: int, mulM: nat, mTrct: nat)
    requires eIn >= -23 && mIn < 0x40_0000 && Shl(mIn, eIn + 23) == n
    ensures eVal >= 1 && Aligned(n, Pow2(24), eVal, mulM, mTrct, TWO32)
  {
    var mMin, mMax := HIDE_BIT, 2 * HIDE_BIT;
    eVal, mulM, mTrct := eIn, mIn, 0;
    while mulM < mMin && eVal > 1
      invariant mulM < 0x40_0000 && eVal >= -23
      invariant Shl(mulM, eVal + 23) == n
      decreases eVal
    {
      ShlDouble(mulM, eVal + 22);
      mulM := mulM * 2;
      eVal := eVal - 1;
    }
    ghost var m0, eStart, k: nat := mulM, eVal, 0;
    while mulM >= mMax || eVal < 1
      invariant k <= 24 && eVal == eStart + k
      invariant mulM >= mMin || eVal <= 1
      invariant (mulM, mTrct) == Slide(m0, k)
      decreases mulM + if eVal < 1 then 1 - eVal else 0
    {
      if mulM >= mMax {
        FewShifts(m0, k);
      }
      mTrct := mTrct / 2;
      mTrct := mTrct + TWO31 * (mulM % 2);
      mulM := mulM / 2;
      eVal := eVal + 1;
      k := k + 1;
    }
    ProductAligned(n, m0, k, eVal);
  }

  /** The tail of Fp16Mul: round by the register, renormalise a carry, saturate and pack. */
  method RoundProduct(sVal: nat, eIn: int, mIn: nat, mTrct: nat) returns (ret: Half)
    requires sVal <= 1 && eIn >= 1 && mIn < 0x800 && (eIn == 1 || mIn >= 0x400) && mTrct < TWO32
    ensures ret == Encode(sVal, eIn, Rounded(mIn, mTrct, TWO32))
  {
    var mMin, mMax := HIDE_BIT, 2 * HIDE_BIT;
    var eVal, mulM := eIn, mIn;
    var bLastBit, bTrctHigh, bTrctLeft := mulM % 2 > 0, mTrct / TWO31 > 0, mTrct % TWO31 > 0;
    RegisterFlags(mulM, mTrct);
    mulM := ManRoundToNearest(bLastBit, bTrctHigh, bTrctLeft, mulM);
    ghost var q := mulM;
    while mulM >= mMax || eVal < 0
      invariant eVal >= 1 && mulM <= mMax && (eVal == 1 || mulM >= mMin)
      invariant (eVal - 1) * 0x400 + mulM == (eIn - 1) * 0x400 + q
      decreases mulM
    {
      mulM := mulM / 2;
      eVal := eVal + 1;
    }
    if eVal == 1 && mulM < HIDE_BIT {
      eVal := 0;
    }
    NormalizeAndPack(sVal, eVal, mulM, q, eIn);
    var (e, m) := Fp16Normalize(eVal, mulM);
    ret := Pack(sVal, e, m);
  }

  lemma ProductSign(v1: Half, v2: Half)
    ensures SignAgrees((SignOf(v1) + SignOf(v2)) % 2, Val(v1) * Val(v2))
  {
  }
}
