/**
 Narrowing from binary32 and binary64, widening back, and the comparison operators.
 Both narrowing operators are instances of one argument over the fraction length and bias.
 */
module Fp16Narrow {
  import opened Powers
  import opened Binary16
  import opened Words

  /**
   A wide IEEE format: fraction length, bias, and the exponent thresholds the narrowing
   operator compares with. Valid ties each threshold constant to the bias.
   */
  datatype Format = Format(manLen: nat, bias: nat, overflow: nat, underflow: nat, denormal: nat, half: nat)
  {
    predicate Valid()
    {
      && manLen >= 13 && bias >= 127
      && overflow == bias + 16 && underflow == bias - 15 && denormal == bias - 24 && half == bias - 25
    }

    /** The smallest subnormals of the format per unit of 2^-24, as a power of two. */
    function ScaleExp(): nat
      requires Valid()
    {
      manLen + bias - 25
    }
  }

  const FP32 := Format(23, 127, 0x8F, 0x70, 0x67, 0x66)
  const FP64 := Format(52, 1023, 0x40F, 0x3F0, 0x3E7, 0x3E6)

  /** The magnitude of a wide number from its exponent field and fraction. */
  function WideMag(F: Format, ex: nat, frac: nat): nat
  {
    if ex == 0 then frac else Shl(Pow2(F.manLen) + frac, ex - 1)
  }

  lemma SignedMagnitude(s: nat, m: nat)
    requires s <= 1
    ensures SignAgrees(s, Signify(s, m)) && Abs(Signify(s, m)) == m
  {
  }

  /**
   IsRoundOne: the masks 4 and 2 shifted left by trctLen - 2 select the bits trctLen and
   trctLen - 1, and the last mask all the bits below.
   */
  predicate IsRoundOne(manValue: nat, trctLen: nat)
    requires trctLen >= 2
  {
    var shiftOut := trctLen - 2;
    var lastBit, trctHigh, trctLeft :=
      Shr(manValue, shiftOut + 2) % 2 > 0, Shr(manValue, shiftOut + 1) % 2 > 0, Low(manValue, shiftOut + 1) > 0;
    (trctLeft || lastBit) && trctHigh
  }

  /** IsRoundOne is roundTiesToEven on the truncated bits. */
  lemma IsRoundOneMeaning(m: nat, t: nat)
    requires t >= 2
    ensures IsRoundOne(m, t) <==> RoundsUp(Shr(m, t), Low(m, t), Pow2(t))
  {
    LowTopBit(m, t);
    assert Shr(m, t - 2 + 2) == Shr(m, t) && Shr(m, t - 2 + 1) == Shr(m, t - 1);
    HalfOrMore(Shr(m, t), Shr(m, t - 1) % 2, Low(m, t - 1), Pow2(t - 1));
  }

  lemma LowTopBit(m: nat, t: nat)
    requires t >= 1
    ensures Low(m, t) == Low(m, t - 1) + (if Shr(m, t - 1) % 2 == 0 then 0 else Pow2(t - 1))
    ensures Low(m, t - 1) < Pow2(t - 1)
  {
    ShrLow(m, t - 1);
    if Shr(m, t - 1) % 2 == 0 {
      ShlIsScale(0, t - 1);
    } else {
      ShlOne(t - 1);
    }
  }

  lemma HalfOrMore(q: nat, high: nat, low: nat, B: nat)
    requires high < 2 && low < B
    ensures (low > 0 || q % 2 > 0) && high > 0 <==> RoundsUp(q, low + (if high == 0 then 0 else B), 2 * B)
  {
  }

  // ------------------------------------------------------ the rounding cases

  /** Exponents of the normal range: eleven significant bits are kept and t = manLen - 10 dropped. */
  lemma RegularNearest(F: Format, s: nat, ex: nat, frac: nat)
    requires F.Valid() && s <= 1 && F.bias - 15 < ex && frac < Pow2(F.manLen)
    ensures var t := F.manLen - 10;
            && Shr(frac, t) < 0x400
            && NearestEven(Encode(s, ex - (F.bias - 15), 0x400 + Shr(frac, t) + if IsRoundOne(frac, t) then 1 else 0),
                           Signify(s, WideMag(F, ex, frac)), Pow2(F.ScaleExp()))
  {
    hide NearestEven, Encode, Shl, Shr, Low, Pow2, IsRoundOne, Aligned;
    var t, e, w := F.manLen - 10, ex - (F.bias - 15), Pow2(F.manLen) + frac;
    var q, r := Shr(frac, t), Low(frac, t);
    SplitFraction(F.manLen, frac);
    ShlShl(w, ex - 1, t);
    ShlShl(w, e - 1, F.ScaleExp());
    AlignedByShifts(WideMag(F, ex, frac), F.ScaleExp(), e, w, 0x400 + q, r, t);
    IsRoundOneMeaning(frac, t);
    SignedMagnitude(s, WideMag(F, ex, frac));
    assert Rounded(0x400 + q, r, Pow2(t)) == 0x400 + q + if IsRoundOne(frac, t) then 1 else 0;
    hide Rounded, RoundsUp, Signify, SignAgrees;
    EncodeIsNearestEven(s, Signify(s, WideMag(F, ex, frac)), Pow2(F.ScaleExp()), e, 0x400 + q, r, Pow2(t));
  }

  /** With the hidden bit the fraction is eleven kept bits and the dropped ones. */
  lemma SplitFraction(manLen: nat, frac: nat)
    requires manLen >= 10 && frac < Pow2(manLen)
    ensures var t := manLen - 10;
            && Shr(frac, t) < 0x400 && Low(frac, t) < Pow2(t)
            && Pow2(manLen) + frac == Shl(0x400 + Shr(frac, t), t) + Low(frac, t)
  {
    var t := manLen - 10;
    ShrLow(frac, t);
    HiddenBit(10, t);
    ShrBelow(frac, 0x400, t);
    ShlAdd(0x400, Shr(frac, t), t);
  }

  lemma HiddenBit(a: nat, t: nat)
    ensures Pow2(a + t) == Shl(Pow2(a), t)
    ensures Pow2(10) == 0x400
  {
    ShlOne(a);
    ShlShl(1, a, t);
    ShlOne(a + t);
  }

  /** Exponents of the subnormal range that still reach the register. */
  lemma SubnormalNearest(F: Format, s: nat, ex: nat, frac: nat)
    requires F.Valid() && s <= 1 && F.bias - 24 <= ex <= F.bias - 15 && frac < Pow2(F.manLen)
    ensures var mTmp := Shl(Pow2(F.manLen) + frac, ex - (F.bias - 24));
            && Shr(mTmp, F.manLen) < 0x400
            && NearestEven(Encode(s, 1, Shr(mTmp, F.manLen) + if IsRoundOne(mTmp, F.manLen) then 1 else 0),
                           Signify(s, WideMag(F, ex, frac)), Pow2(F.ScaleExp()))
  {
    hide NearestEven, Encode, Shl, Shr, Low, Pow2, IsRoundOne, Aligned;
    var w, k := Pow2(F.manLen) + frac, ex - (F.bias - 24);
    var mTmp := Shl(w, k);
    var q, r := Shr(mTmp, F.manLen), Low(mTmp, F.manLen);
    SubnormalQuotient(w, k, F.manLen);
    ShrLow(mTmp, F.manLen);
    ShlShl(w, ex - 1, F.manLen);
    ShlShl(w, k, F.ScaleExp());
    AlignedByShifts(WideMag(F, ex, frac), F.ScaleExp(), 1, mTmp, q, r, F.manLen);
    IsRoundOneMeaning(mTmp, F.manLen);
    SignedMagnitude(s, WideMag(F, ex, frac));
    EncodeIsNearestEven(s, Signify(s, WideMag(F, ex, frac)), Pow2(F.ScaleExp()), 1, q, r, Pow2(F.manLen));
  }

  lemma SubnormalQuotient(w: nat, k: nat, manLen: nat)
    requires k <= 9 && w < 2 * Pow2(manLen)
    ensures Shr(Shl(w, k), manLen) < 0x400
  {
    ShlOne(manLen);
    ShlShl(1, 1, manLen);
    ShlShl(1, manLen, 1);
    assert Shl(1, 1) == 2 && Shl(Shl(1, manLen), 1) == 2 * Shl(1, manLen);
    ShlMonotone(w, Shl(2, manLen), k);
    ShlShl(2, manLen, k);
    ShlShl(2, k, manLen);
    ShlIsScale(2, k);
    Pow2Monotone(k, 9);
    assert Pow2(9) == 0x200;
    ShlMonotone(0x400, Shl(2, k), manLen);
    ShrBelow(Shl(w, k), 0x400, manLen);
  }

  /** Below the smallest subnormal: more than half of it rounds up to it, the rest to zero. */
  lemma TinyNearest(F: Format, s: nat, ex: nat, frac: nat)
    requires F.Valid() && s <= 1 && ex <= F.bias - 25 && frac < Pow2(F.manLen)
    ensures NearestEven(Encode(s, 1, if ex == F.bias - 25 && frac > 0 then 1 else 0),
                        Signify(s, WideMag(F, ex, frac)), Pow2(F.ScaleExp()))
  {
    hide NearestEven, Encode, Shl, Pow2, Aligned, WideMag;
    var n := WideMag(F, ex, frac);
    TinyMagnitude(F, ex, frac);
    ShlIsScale(0, F.ScaleExp());
    AlignedByShifts(n, F.ScaleExp(), 1, n, 0, n, F.ScaleExp());
    SignedMagnitude(s, n);
    EncodeIsNearestEven(s, Signify(s, n), Pow2(F.ScaleExp()), 1, 0, n, Pow2(F.ScaleExp()));
  }

  lemma TinyMagnitude(F: Format, ex: nat, frac: nat)
    requires F.Valid() && ex <= F.bias - 25 && frac < Pow2(F.manLen)
    ensures var n, d := WideMag(F, ex, frac), Pow2(F.ScaleExp());
            n < d && (2 * n > d <==> ex == F.bias - 25 && frac > 0)
  {
    hide Shl, Pow2;
    var M, k := Pow2(F.manLen), F.bias - 26;
    // half of the smallest subnormal is the hidden bit at exponent bias - 25
    HiddenBit(F.manLen, k);
    Pow2Step(F.ScaleExp());
    ShlMonotone(M + frac, 2 * M, k);
    ShlMonotone(M, M + frac, k);
    ShlAdd(M, M, k);
    if ex == 0 {
      Pow2Monotone(F.manLen, F.manLen + k);
    } else if ex < F.bias - 25 {
      ShlBelowHalf(M + frac, M, ex - 1, k);
    }
  }

  /** A word below 2M shifted less than k is below M shifted k. */
  lemma ShlBelowHalf(w: nat, M: nat, a: nat, k: nat)
    requires w < 2 * M && a < k
    ensures Shl(w, a) < Shl(M, k)
  {
    ShlMonotone(w, 2 * M, a);
    ShlDouble(M, a);
    ShlShl(M, a + 1, k - a - 1);
    ShlGrows(Shl(M, a + 1), k - a - 1);
  }

  lemma {:induction false} ShlGrows(w: nat, k: nat)
    ensures w <= Shl(w, k)
  {
    if k > 0 {
      ShlGrows(w, k - 1);
    }
  }

  /** Overflow: an exponent past the range saturates. */
  lemma OverflowNearest(F: Format, s: nat, ex: nat, frac: nat)
    requires F.Valid() && s <= 1 && ex > F.bias + 16 && frac < Pow2(F.manLen)
    ensures NearestEven(s * 0x8000 + MAX_BITS, Signify(s, WideMag(F, ex, frac)), Pow2(F.ScaleExp()))
  {
    RegularNearest(F, s, ex, frac);
  }

  /** The packing of the regular branch, with its carry into the exponent. */
  lemma RegularPack(s: nat, e: int, m: nat)
    requires s <= 1 && 1 <= e <= 31 && m <= 0x400
    ensures var e1 := if m / HIDE_BIT % 2 != 0 then e + 1 else e;
            var (e2, m2) := Fp16Normalize(e1, m);
            0 <= e2 < 31 && Pack(s, e2, m2) == Encode(s, e, 0x400 + m)
  {
  }

  // ------------------------------------------------- the narrowing operators

  /** The body operator=(const float &) and operator=(const double &) share, with the format's constants. */
  function Narrow(F: Format, sVal: nat, eF: nat, mF: nat): (h: Half)
    requires F.Valid() && sVal <= 1
  {
    var mLenDelta := F.manLen - 10;
    var (eVal, mVal) :=
      if eF > F.overflow then (MAX_EXP - 1, 0x3FF)
      else if eF <= F.underflow then
        if eF >= F.denormal then
          var mTmp := Shl(Pow2(F.manLen) + mF, eF - F.denormal);
          (0, Shr(mTmp, F.manLen) % TWO16 + if IsRoundOne(mTmp, F.manLen) then 1 else 0)
        else if eF == F.half && mF > 0 then (0, 1)
        else (0, 0)
      else
        var mVal := Shr(mF, mLenDelta) % TWO16 + if IsRoundOne(mF, mLenDelta) then 1 else 0;
        (if mVal / HIDE_BIT % 2 != 0 then eF - F.underflow + 1 else eF - F.underflow, mVal);
    var (e, m) := Fp16Normalize(eVal, mVal);
    Pack(sVal, e, m)
  }

  ghost predicate NarrowsWell(F: Format, s: nat, ex: nat, frac: nat)
    requires F.Valid() && s <= 1
  {
    && NearestEven(Narrow(F, s, ex, frac), Signify(s, WideMag(F, ex, frac)), Pow2(F.ScaleExp()))
    && SignOf(Narrow(F, s, ex, frac)) == s
  }

  lemma NarrowRegular(F: Format, s: nat, ex: nat, frac: nat)
    requires F.Valid() && s <= 1 && F.underflow < ex <= F.overflow && Shr(frac, F.manLen - 10) < 0x400
    ensures var t := F.manLen - 10;
            Narrow(F, s, ex, frac)
            == Encode(s, ex - F.underflow, 0x400 + Shr(frac, t) + if IsRoundOne(frac, t) then 1 else 0)
  {
    hide Shr, Shl, Low, IsRoundOne, Pow2, Encode, Pack, Fp16Normalize;
    RegularPack(s, ex - F.underflow, Shr(frac, F.manLen - 10) + if IsRoundOne(frac, F.manLen - 10) then 1 else 0);
  }

  lemma NarrowSubnormal(F: Format, s: nat, ex: nat, frac: nat)
    requires F.Valid() && s <= 1 && F.denormal <= ex <= F.underflow
    requires Shr(Shl(Pow2(F.manLen) + frac, ex - F.denormal), F.manLen) < 0x400
    ensures var mTmp := Shl(Pow2(F.manLen) + frac, ex - F.denormal);
            Narrow(F, s, ex, frac) == Encode(s, 1, Shr(mTmp, F.manLen) + if IsRoundOne(mTmp, F.manLen) then 1 else 0)
  {
  }

  lemma NarrowOutside(F: Format, s: nat, ex: nat, frac: nat)
    requires F.Valid() && s <= 1
    ensures ex > F.overflow ==> Narrow(F, s, ex, frac) == s * 0x8000 + MAX_BITS
    ensures ex < F.denormal ==> Narrow(F, s, ex, frac) == Encode(s, 1, if ex == F.half && frac > 0 then 1 else 0)
  {
  }

  /** Narrowing is rounding to nearest even with saturation, in every range of the exponent. */
  lemma NarrowNearest(F: Format, s: nat, ex: nat, frac: nat)
    requires F.Valid() && s <= 1 && frac < Pow2(F.manLen)
    ensures NarrowsWell(F, s, ex, frac)
  {
    hide NearestEven;
    if ex > F.overflow {
      NarrowOutside(F, s, ex, frac);
      OverflowNearest(F, s, ex, frac);
    } else if ex > F.underflow {
      SplitFraction(F.manLen, frac);
      NarrowRegular(F, s, ex, frac);
      RegularNearest(F, s, ex, frac);
    } else if ex >= F.denormal {
      SubnormalQuotient(Pow2(F.manLen) + frac, ex - F.denormal, F.manLen);
      NarrowSubnormal(F, s, ex, frac);
      SubnormalNearest(F, s, ex, frac);
    } else {
      NarrowOutside(F, s, ex, frac);
      TinyNearest(F, s, ex, frac);
    }
  }

  // ------------------------------------------------------------ wide words

  const TWO23 := 0x80_0000
  const TWO52 := 0x10_0000_0000_0000
  const TWO63 := 0x8000_0000_0000_0000
  const TWO64 := 0x1_0000_0000_0000_0000

  lemma HiddenBits()
    ensures Pow2(23) == TWO23 && Pow2(52) == TWO52
  {
    assert Pow2(11) == 0x800 && Pow2(12) == 0x1000 && Pow2(6) == 0x40;
    hide Pow2;
    Pow2Add(11, 12);
    Pow2Add(23, 23);
    Pow2Add(46, 6);
  }

  type Float = f: nat | f < TWO32

  function FloatSign(f: Float): nat { f / TWO31 }
  function FloatExp(f: Float): nat { f / TWO23 % 0x100 }
  function FloatFrac(f: Float): nat { f % TWO23 }

  /**
   The value of a binary32 word (section 3.4 of IEEE 754-2008: bias 127, 23 fraction bits) in units of 2^-149.
   Exponent field 255 is read as an ordinary one.
   */
  function FloatVal(f: Float): int
  {
    var field, frac := f / 0x80_0000 % 0x100, f % 0x80_0000;
    var m := if field == 0 then frac else (0x80_0000 + frac) * Pow2(field - 1);
    if f < 0x8000_0000 then m else -m
  }

  /** Units of 2^-149 per unit of 2^-24. */
  function FloatScale(): nat { Pow2(125) }

  type Double = f: nat | f < TWO64

  function DoubleSign(f: Double): nat { f / TWO63 }
  function DoubleExp(f: Double): nat { f / TWO52 % 0x800 }
  function DoubleFrac(f: Double): nat { f % TWO52 }

  /**
   The value of a binary64 word (bias 1023, 52 fraction bits) in units of 2^-1074.
   Exponent field 2047 is read as an ordinary one.
   */
  function DoubleVal(f: Double): int
  {
    var field, frac := f / 0x10_0000_0000_0000 % 0x800, f % 0x10_0000_0000_0000;
    var m := if field == 0 then frac else (0x10_0000_0000_0000 + frac) * Pow2(field - 1);
    if f < 0x8000_0000_0000_0000 then m else -m
  }

  /** Units of 2^-1074 per unit of 2^-24. */
  function DoubleScale(): nat { Pow2(1050) }

  /** The two formats, as the operators take them apart, have these values. */
  lemma FloatIs(f: Float)
    ensures FloatVal(f) == Signify(FloatSign(f), WideMag(FP32, FloatExp(f), FloatFrac(f)))
    ensures FloatScale() == Pow2(FP32.ScaleExp())
  {
    hide Pow2, Shl;
    HiddenBits();
    if FloatExp(f) > 0 {
      ShlIsScale(TWO23 + FloatFrac(f), FloatExp(f) - 1);
    }
  }

  lemma DoubleIs(f: Double)
    ensures DoubleVal(f) == Signify(DoubleSign(f), WideMag(FP64, DoubleExp(f), DoubleFrac(f)))
    ensures DoubleScale() == Pow2(FP64.ScaleExp())
  {
    hide Pow2, Shl;
    HiddenBits();
    if DoubleExp(f) > 0 {
      ShlIsScale(TWO52 + DoubleFrac(f), DoubleExp(f) - 1);
    }
  }

  /** Fp16T::operator=(const float &). */
  function NarrowFloat(f: Float): Half { Narrow(FP32, FloatSign(f), FloatExp(f), FloatFrac(f)) }

  /** Fp16T::operator=(const double &). */
  function NarrowDouble(f: Double): Half { Narrow(FP64, DoubleSign(f), DoubleExp(f), DoubleFrac(f)) }

  lemma NarrowFloatNearest(f: Float)
    ensures NearestEven(NarrowFloat(f), FloatVal(f), FloatScale())
    ensures SignOf(NarrowFloat(f)) == FloatSign(f)
  {
    hide NearestEven, Narrow, FloatVal, FloatScale;
    HiddenBits();
    FloatIs(f);
    NarrowNearest(FP32, FloatSign(f), FloatExp(f), FloatFrac(f));
  }

  lemma NarrowDoubleNearest(f: Double)
    ensures NearestEven(NarrowDouble(f), DoubleVal(f), DoubleScale())
    ensures SignOf(NarrowDouble(f)) == DoubleSign(f)
  {
    hide NearestEven, Narrow, DoubleVal, DoubleScale;
    HiddenBits();
    DoubleIs(f);
    NarrowNearest(FP64, DoubleSign(f), DoubleExp(f), DoubleFrac(f));
  }

  // -------------------------------------------------------------- widening

  /** The wide exponent field and fraction of a normalised half significand have its scaled value. */
  lemma WidenExact(F: Format, sig: nat, e: nat, man: nat, exp: int)
    requires F.Valid() && 1 <= e <= 31 && exp >= -9 && 0x400 <= man < 0x800
    requires Shl(man, exp + 9) == Shl(sig, e + 9)
    ensures var frac := Shl(man % 0x400, F.manLen - 10);
            && frac < Pow2(F.manLen)
            && WideMag(F, exp - 15 + F.bias, frac) == sig * Pow2(e - 1) * Pow2(F.ScaleExp())
  {
    hide Pow2, Shl;
    var t, c := F.manLen - 10, F.manLen + F.bias - 35;
    WidenFraction(F.manLen, man);
    ShlShl(man, t, exp - 15 + F.bias - 1);
    ShlShl(man, exp + 9, c);
    ShlShl(sig, e + 9, c);
    ShlShl(sig, e - 1, F.ScaleExp());
    ShlTwice(sig, e - 1, F.ScaleExp());
  }

  lemma WidenFraction(manLen: nat, man: nat)
    requires manLen >= 10 && 0x400 <= man < 0x800
    ensures var t := manLen - 10;
            Shl(man % 0x400, t) < Pow2(manLen) && Pow2(manLen) + Shl(man % 0x400, t) == Shl(man, t)
  {
    var t := manLen - 10;
    HiddenBit(10, t);
    ShlAdd(0x400, man % 0x400, t);
    ShlMonotone(man % 0x400, 0x400, t);
  }

  lemma ShlTwice(w: nat, a: nat, b: nat)
    ensures Shl(Shl(w, a), b) == w * Pow2(a) * Pow2(b)
  {
    ShlIsScale(w, a);
    ShlIsScale(Shl(w, a), b);
  }

  /** The loop both widening functions share: shift a subnormal significand up to the hidden bit. */
  method NormalizeHalf(man: nat, exp: int) returns (hfMan: nat, hfExp: int)
    requires man < 0x800 && 1 <= exp <= 31
    ensures hfMan == 0 <==> man == 0
    ensures man != 0 ==> 0x400 <= hfMan < 0x800 && -9 <= hfExp <= 31 && Shl(hfMan, hfExp + 9) == Shl(man, exp + 9)
  {
    hfMan, hfExp := man, exp;
    while hfMan != 0 && hfMan / HIDE_BIT % 2 == 0
      invariant hfMan < 0x800 && hfExp <= exp && (hfMan == 0 <==> man == 0)
      invariant hfMan != 0 ==> hfExp >= -9 && hfMan >= Pow2(exp - hfExp) && Shl(hfMan, hfExp + 9) == Shl(man, exp + 9)
      decreases 0x800 - hfMan
    {
      SmallSignificand(hfMan, exp - hfExp);
      StepUp(hfMan, hfExp + 9);
      hfMan := hfMan * 2;
      hfExp := hfExp - 1;
    }
  }

  lemma SmallSignificand(m: nat, k: nat)
    requires Pow2(k) <= m < 0x400
    ensures k < 10
  {
    if k >= 10 {
      Pow2Monotone(10, k);
    }
  }

  lemma StepUp(m: nat, e: nat)
    requires e >= 1
    ensures Shl(2 * m, e - 1) == Shl(m, e)
  {
    ShlShl(m, 1, e - 1);
    assert Shl(m, 1) == 2 * m;
  }

  /** Widening any half to the format: sign, exponent field and fraction of exactly the same value. */
  method Widen(F: Format, h: Half) returns (eVal: nat, mVal: nat)
    requires F.Valid()
    ensures mVal < Pow2(F.manLen) && eVal <= F.bias + 16
    ensures WideMag(F, eVal, mVal) == Mag(h) * Pow2(F.ScaleExp())
  {
    var hfMan, hfExp := NormalizeHalf(Significand(h), Exponent(h));
    eVal, mVal := 0, 0;
    if hfMan != 0 {
      eVal := hfExp - 15 + F.bias;
      mVal := Shl(hfMan % 0x400, F.manLen - 10);
      WidenExact(F, Significand(h), Exponent(h), hfMan, hfExp);
    }
  }

  /** Fp16ToFloat: the binary32 word holds exactly the same value. */
  method Fp16ToFloat(fpValue: Half) returns (f: Float)
    ensures FloatVal(f) == Val(fpValue) * FloatScale() && FloatSign(f) == SignOf(fpValue)
    ensures Finite(fpValue) ==> NarrowFloat(f) == fpValue
  {
    hide Pow2, WideMag, Val, Mag, FloatVal, FloatScale;
    HiddenBits();
    var eVal, mVal := Widen(FP32, fpValue);
    f := SignOf(fpValue) * TWO31 + eVal * TWO23 + mVal;
    FloatFields(f, SignOf(fpValue), eVal, mVal);
    FloatIs(f);
    SignedProduct(fpValue, FloatScale());
    if Finite(fpValue) {
      NarrowFloatExact(f, fpValue);
    }
  }

  lemma FloatFields(f: Float, s: nat, e: nat, m: nat)
    requires s <= 1 && e < 0x100 && m < TWO23 && f == s * TWO31 + e * TWO23 + m
    ensures FloatSign(f) == s && FloatExp(f) == e && FloatFrac(f) == m
  {
  }

  /** Fp16ToDouble: the binary64 word holds exactly the same value. */
  method Fp16ToDouble(fpValue: Half) returns (f: Double)
    ensures DoubleVal(f) == Val(fpValue) * DoubleScale() && DoubleSign(f) == SignOf(fpValue)
    ensures Finite(fpValue) ==> NarrowDouble(f) == fpValue
  {
    hide Pow2, WideMag, Val, Mag, DoubleVal, DoubleScale;
    HiddenBits();
    var eVal, mVal := Widen(FP64, fpValue);
    f := SignOf(fpValue) * TWO63 + eVal * TWO52 + mVal;
    DoubleFields(f, SignOf(fpValue), eVal, mVal);
    DoubleIs(f);
    SignedProduct(fpValue, DoubleScale());
    if Finite(fpValue) {
      NarrowDoubleExact(f, fpValue);
    }
  }

  lemma DoubleFields(f: Double, s: nat, e: nat, m: nat)
    requires s <= 1 && e < 0x800 && m < TWO52 && f == s * TWO63 + e * TWO52 + m
    ensures DoubleSign(f) == s && DoubleExp(f) == e && DoubleFrac(f) == m
  {
  }

  /** Whatever float word widening gives, narrowing it returns the same half, sign of zero included. */
  lemma NarrowFloatExact(f: Float, h: Half)
    requires Finite(h) && FloatVal(f) == Val(h) * FloatScale() && FloatSign(f) == SignOf(h)
    ensures NarrowFloat(f) == h
  {
    hide NearestEven, FloatVal, FloatScale;
    ScalesPositive();
    NarrowFloatNearest(f);
    ExactIsNearest(NarrowFloat(f), h, FloatScale());
  }

  lemma NarrowDoubleExact(f: Double, h: Half)
    requires Finite(h) && DoubleVal(f) == Val(h) * DoubleScale() && DoubleSign(f) == SignOf(h)
    ensures NarrowDouble(f) == h
  {
    hide NearestEven, DoubleVal, DoubleScale;
    ScalesPositive();
    NarrowDoubleNearest(f);
    ExactIsNearest(NarrowDouble(f), h, DoubleScale());
  }

  lemma ScalesPositive()
    ensures FloatScale() > 0 && DoubleScale() > 0
  {
    hide Pow2;
  }

  /**
   One: the words 0x3F800000 and 0x3FF0000000000000 are 2^24 units of 2^-24, and so is the half 0x3C00 that
   they narrow to.
   */
  lemma OneNarrowsToOne()
    ensures FloatVal(0x3F80_0000) == Pow2(24) * FloatScale()
    ensures DoubleVal(0x3FF0_0000_0000_0000) == Pow2(24) * DoubleScale()
    ensures Val(0x3C00) == Pow2(24)
    ensures NarrowFloat(0x3F80_0000) == 0x3C00 && NarrowDouble(0x3FF0_0000_0000_0000) == 0x3C00
  {
    hide Pow2, Narrow;
    HiddenBits();
    Pow2Add(23, 126);
    Pow2Add(24, 125);
    Pow2Add(52, 1022);
    Pow2Add(24, 1050);
    Pow2Add(10, 14);
    HiddenBit(0, 0);
    NarrowFloatExact(0x3F80_0000, 0x3C00);
    NarrowDoubleExact(0x3FF0_0000_0000_0000, 0x3C00);
  }
}
