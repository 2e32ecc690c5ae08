/** Conversion of 32-bit and 16-bit integers to half. */
module Fp16Int {
  import opened Powers
  import opened Binary16
  import opened Words

  /** GetManBitLength: the number of significant bits. */
  method GetManBitLength(manVal: nat) returns (len: nat)
    ensures manVal < Pow2(len) && (len > 0 ==> Pow2(len - 1) <= manVal) && (manVal == 0 ==> len == 0)
  {
    var m := manVal;
    len := 0;
    while m != 0
      invariant m == Shr(manVal, len)
      invariant len > 0 ==> Shr(manVal, len - 1) > 0
    {
      m := m / 2;
      len := len + 1;
    }
    ShrZero(manVal, len);
    if len > 0 {
      ShrPositive(manVal, len - 1);
    }
  }

  lemma ShrZero(w: nat, k: nat)
    requires Shr(w, k) == 0
    ensures w < Pow2(k)
  {
    ShrLow(w, k);
    ShlIsScale(0, k);
  }

  lemma ShrPositive(w: nat, k: nat)
    requires Shr(w, k) > 0
    ensures w >= Pow2(k)
  {
    ShrLow(w, k);
    ShlOne(k);
    ShlMonotone(Shr(w, k), 1, k);
  }

  /** The exact value v, in units of 2^-24. */
  function Units(v: int): int { v * 0x100_0000 }

  /** The mask loop builds eTmp ones. */
  method TruncationMask(eTmp: nat) returns (mask: nat)
    requires 1 <= eTmp <= 31
    ensures mask == Pow2(eTmp) - 1
  {
    mask := 1;
    var i := 1;
    while i < eTmp
      invariant 1 <= i <= eTmp && mask == Pow2(i) - 1
    {
      Pow2Monotone(i + 1, 31);
      Pow2Of32();
      assert Pow2(32) == 2 * Pow2(31);
      mask := (mask * 2 + 1) % TWO32;
      i := i + 1;
    }
  }

  /** Masking with k ones keeps the k low bits. */
  lemma MaskIsLow(w: nat, k: nat)
    ensures w % Pow2(k) == Low(w, k)
  {
    ShrLow(w, k);
    ShlIsScale(Shr(w, k), k);
    DivModUnique(w, Pow2(k), Shr(w, k), Low(w, k));
  }

  /** A number of len >= 11 bits shifted right to 11 bits. */
  lemma ElevenBits(v: nat, len: nat)
    requires len >= 11 && Pow2(len - 1) <= v < Pow2(len)
    ensures 0x400 <= Shr(v, len - 11) < 0x800
  {
    hide Shr, Shl, Pow2;
    var t := len - 11;
    Pow2Of10();
    ShlPow(10, t);
    ShlPow(11, t);
    ShrBelow(v, 0x800, t);
    ShrAtLeast(v, 0x400, t);
  }

  lemma Pow2Of10()
    ensures Pow2(10) == 0x400 && Pow2(11) == 0x800
  {
  }

  lemma ShlPow(a: nat, t: nat)
    ensures Pow2(a + t) == Shl(Pow2(a), t)
  {
    Pow2Add(a, t);
    ShlIsScale(Pow2(a), t);
  }

  lemma ShrAtLeast(w: nat, b: nat, k: nat)
    requires w >= Shl(b, k)
    ensures Shr(w, k) >= b
  {
    hide Shl, Shr, Low;
    ShrLow(w, k);
    if Shr(w, k) < b {
      ShlMonotone(Shr(w, k) + 1, b, k);
      ShlMonotone(b, Shr(w, k) + 1, k);
      ShlAdd(Shr(w, k), 1, k);
      ShlOne(k);
    }
  }

  /** The significand and register after truncation stand for exactly v, at exponent 25 + t. */
  lemma IntegerAligned(v: nat, t: nat)
    requires t <= 31 && 0x400 <= Shr(v, t) < 0x800
    ensures Shl(Low(v, t), 32 - t) < TWO32
    ensures Aligned(Units(v), 1, 25 + t, Shr(v, t), Shl(Low(v, t), 32 - t), TWO32)
  {
    hide Shl, Shr, Low, Pow2;
    var q, r := Shr(v, t), Low(v, t);
    ShrLow(v, t);
    Pow2Of32();
    ShlPow(t, 32 - t);
    ShlMonotone(r, Pow2(t), 32 - t);
    ShlShl(q, t, 32 - t);
    ShlAdd(Shl(q, t), r, 32 - t);
    IntegerScale(v, t, Shl(v, 32 - t));
    AlignedByShifts(Units(v), 0, 25 + t, Shl(v, 32 - t), q, Shl(r, 32 - t), 32);
    Pow2Of0();
  }

  lemma Pow2Of0()
    ensures Pow2(0) == 1
  {
  }

  lemma IntegerScale(v: nat, t: nat, w: nat)
    requires t <= 32 && w == Shl(v, 32 - t)
    ensures Shl(Units(v), 32) == Shl(w, 24 + t)
  {
    hide Shl, Pow2;
    Pow2Add(12, 12);
    Pow2Of12();
    ShlIsScale(v, 24);
    ShlShl(v, 24, 32);
    ShlShl(v, 32 - t, 24 + t);
  }

  lemma Pow2Of12()
    ensures Pow2(12) == 0x1000
  {
  }

  /**
   More than eleven bits (GetExpValueformInt16 and the same code in the other operators):
   truncate to eleven bits, round by the register, renormalise a carry.
   */
  method TruncateAndRound(v: nat, len: nat) returns (eVal: nat, mTmp: nat)
    requires 12 <= len <= 32 && Pow2(len - 1) <= v < Pow2(len)
    ensures 0x400 <= mTmp < 0x800 && eVal >= 26
    ensures eVal >= MAX_EXP <==> v >= 65520
    ensures eVal == len + 14 || (eVal == len + 15 && mTmp == 0x400)
    ensures forall s | s <= 1 ::
              NearestEven(Encode(s, eVal, mTmp), Signify(s, Units(v)), 1)
  {
    hide NearestEven, Shl, Shr, Low, Pow2, Aligned, Encode;
    var eTmp := len - 11;
    var trctMask := TruncationMask(eTmp);
    MaskIsLow(v, eTmp);
    ElevenBits(v, len);
    IntegerAligned(v, eTmp);
    var mTrct := Shl(v % (trctMask + 1), 32 - eTmp) % TWO32;
    eVal, mTmp := 15 + 10, v;
    ShrStart(v);
    for i := 0 to eTmp
      invariant mTmp == Shr(v, i) && eVal == 25 + i
    {
      ShrStep(v, i);
      mTmp := mTmp / 2;
      eVal := eVal + 1;
    }
    var bLastBit, bTrctHigh, bTrctLeft := mTmp % 2 > 0, mTrct / TWO31 > 0, mTrct % TWO31 > 0;
    RegisterFlags(mTmp, mTrct);
    ghost var q0, e0 := mTmp, eVal;
    ShrStart(mTmp);
    mTmp := ManRoundToNearest(bLastBit, bTrctHigh, bTrctLeft, mTmp);
    ghost var q := mTmp;
    while mTmp >= 2 * HIDE_BIT || (eVal as int) < 0
      invariant 0x400 <= mTmp <= 0x800 && eVal >= e0
      invariant (eVal - 1) * 0x400 + mTmp == (e0 - 1) * 0x400 + q
      decreases mTmp
    {
      mTmp := mTmp / 2;
      eVal := eVal + 1;
    }
    OverflowThreshold(v, len, q);
    forall s | s <= 1
      ensures NearestEven(Encode(s, eVal, mTmp), Signify(s, Units(v)), 1)
    {
      SignedUnits(s, v);
      EncodeIsNearestEven(s, Signify(s, Units(v)), 1, e0, q0, mTrct, TWO32);
      SameEncoding(s, e0, q, eVal, mTmp);
    }
  }

  /** The rounded exponent leaves the range exactly from 65520 on, halfway past 65504. */
  lemma OverflowThreshold(v: nat, len: nat, q: nat)
    requires 12 <= len <= 32 && Pow2(len - 1) <= v < Pow2(len)
    requires 0x400 <= Shr(v, len - 11) < 0x800
    requires q == Rounded(Shr(v, len - 11), Shl(Low(v, len - 11), 32 - (len - 11)), TWO32)
    ensures (len + 13) * 0x400 + q >= 31 * 0x400 <==> v >= 65520
  {
    hide Shr, Shl, Low, Pow2;
    Pow2Of12();
    Pow2Add(12, 4);
    Pow2Of4And5();
    if len < 16 {
      Pow2Monotone(len, 15);
      Pow2Step(16);
    } else if len > 16 {
      Pow2Monotone(16, len - 1);
    } else {
      ShrLow(v, 5);
      ShlIsScale(Shr(v, 5), 5);
      ShlIsScale(Low(v, 5), 27);
      Pow2Add(27, 5);
      Pow2Of32();
      assert v == 32 * Shr(v, 5) + Low(v, 5);
    }
  }

  lemma Pow2Of4And5()
    ensures Pow2(4) == 16 && Pow2(5) == 32
  {
  }

  lemma SameEncoding(s: nat, e: nat, q: nat, e': nat, q': nat)
    requires s <= 1 && e >= 1 && e' >= 1 && (e - 1) * 0x400 + q == (e' - 1) * 0x400 + q'
    ensures Encode(s, e, q) == Encode(s, e', q')
  {
  }

  lemma ShrStart(v: nat)
    ensures Shr(v, 0) == v
  {
  }

  lemma ShrStep(v: nat, i: nat)
    ensures Shr(v, i + 1) == Shr(v, i) / 2
  {
  }

  lemma SignedUnits(s: nat, v: nat)
    requires s <= 1
    ensures Abs(Signify(s, Units(v))) == Units(v) && SignAgrees(s, Signify(s, Units(v)))
  {
  }

  /** At most eleven bits: the integer is shifted up and is exact. */
  method ShiftUp(v: nat, len: nat) returns (eVal: int, mTmp: nat)
    requires len <= 11 && v < Pow2(len) && (len > 0 ==> Pow2(len - 1) <= v) && (v == 0 ==> len == 0)
    ensures v == 0 ==> eVal == 14 && mTmp == 0
    ensures v > 0 ==> 0x400 <= mTmp < 0x800 && 15 <= eVal <= 25
    ensures v > 0 ==> forall s | s <= 1 :: NearestEven(Encode(s, eVal, mTmp), Signify(s, Units(v)), 1)
  {
    eVal := 15;
    mTmp := Shl(v, 11 - len);
    eVal := eVal + (len - 1);
    if v == 0 {
      ShlIsScale(0, 11 - len);
    } else {
      UpToEleven(v, len);
      forall s | s <= 1
        ensures NearestEven(Encode(s, eVal, mTmp), Signify(s, Units(v)), 1)
      {
        ExactInteger(s, v, len);
      }
    }
  }

  lemma UpToEleven(v: nat, len: nat)
    requires 1 <= len <= 11 && Pow2(len - 1) <= v < Pow2(len)
    ensures 0x400 <= Shl(v, 11 - len) < 0x800
  {
    hide Shl, Pow2;
    Pow2Of10();
    ShlPow(len - 1, 11 - len);
    ShlPow(len, 11 - len);
    ShlMonotone(v, Pow2(len), 11 - len);
    ShlMonotone(v, Pow2(len - 1), 11 - len);
  }

  lemma ExactInteger(s: nat, v: nat, len: nat)
    requires s <= 1 && 1 <= len <= 11 && Pow2(len - 1) <= v < Pow2(len)
    ensures NearestEven(Encode(s, 14 + len, Shl(v, 11 - len)), Signify(s, Units(v)), 1)
  {
    hide NearestEven, Shl, Pow2, Encode, Aligned;
    var q := Shl(v, 11 - len);
    UpToEleven(v, len);
    ShlShl(v, 11 - len, 32);
    ShlShl(v, 43 - len, 13 + len);
    ShlShl(v, 32, 24);
    IntegerScale(v, 0, Shl(v, 32));
    Pow2Of32();
    AlignedByShifts(Units(v), 0, 14 + len, Shl(q, 32), q, 0, 32);
    Pow2Of0();
    SignedUnits(s, v);
    RoundedExact(q);
    EncodeIsNearestEven(s, Signify(s, Units(v)), 1, 14 + len, q, 0, TWO32);
  }

  lemma RoundedExact(q: nat)
    ensures Rounded(q, 0, TWO32) == q
  {
  }

  /** Fp16T::operator=(const uint32_t &). */
  method FromUInt32(uiVal: nat) returns (val: Half)
    requires uiVal < TWO32
    ensures NearestEven(val, Units(uiVal), 1) && SignOf(val) == 0
  {
    hide NearestEven, Shl, Pow2;
    if uiVal == 0 {
      ZeroIsNearest();
      val := 0;
    } else {
      var len := GetManBitLength(uiVal);
      LengthBound(uiVal, len, 32);
      var eVal: int, mTmp := 0, 0;
      if len > 11 {
        eVal, mTmp := TruncateAndRound(uiVal, len);
        assert NearestEven(Encode(0, eVal, mTmp), Signify(0, Units(uiVal)), 1);
        PackSaturated(0, eVal, mTmp);
        if eVal >= MAX_EXP {
          mTmp := 0x3FF;
          eVal := MAX_EXP - 1;
        }
      } else {
        eVal, mTmp := ShiftUp(uiVal, len);
        assert NearestEven(Encode(0, eVal, mTmp), Signify(0, Units(uiVal)), 1);
        PackSaturated(0, eVal, mTmp);
      }
      val := Pack(0, eVal, mTmp);
    }
  }

  lemma PackSaturated(s: nat, e: nat, m: nat)
    requires s <= 1 && e >= 1 && 0x400 <= m < 0x800
    ensures e < MAX_EXP ==> Pack(s, e, m) == Encode(s, e, m)
    ensures e >= MAX_EXP ==> Pack(s, MAX_EXP - 1, 0x3FF) == Encode(s, e, m)
  {
  }

  lemma ZeroIsNearest()
    ensures NearestEven(0, 0, 1) && SignOf(0) == 0
  {
    MagOfZero();
    SignedProduct(0, 1);
    forall g: Half | Finite(g)
      ensures CloserOrEven(0, g, 0, 1)
    {
    }
  }

  lemma LengthBound(v: nat, len: nat, k: nat)
    requires v < Pow2(k) || (k == 32 && v < TWO32)
    requires len > 0 ==> Pow2(len - 1) <= v
    ensures len <= k
  {
    Pow2Of32();
    if len > k {
      Pow2Monotone(k, len - 1);
    }
  }

  /**
   Fp16T::operator=(const int32_t &). Negating the minimum wraps to itself; masking the sign bit
   away then leaves 0 with bit length 0, which is packed at exponent 14: the result is -0.5.
   */
  method FromInt32(iVal: int) returns (val: Half)
    requires -TWO31 <= iVal < TWO31
    ensures NearestEven(val, Units(iVal), 1) <==> iVal != -TWO31
    ensures iVal == -TWO31 ==> val == 0xB800 && Val(val) == -0x80_0000
    ensures SignOf(val) == if iVal < 0 then 1 else 0
  {
    hide NearestEven, Shl, Pow2, Encode, Val;
    Int32Fields(iVal);
    if iVal == 0 {
      ZeroIsNearest();
      val := 0;
    } else {
      var uiVal := iVal % TWO32;
      var sVal := uiVal / TWO31;
      if sVal != 0 {
        uiVal := (0 - iVal) % TWO32;
      }
      var mTmp := uiVal % TWO31;
      var len := GetManBitLength(mTmp);
      LengthBound(mTmp, len, 32);
      ghost var v := mTmp;
      var eVal: int := 0;
      if len > 11 {
        eVal, mTmp := TruncateAndRound(mTmp, len);
        assert NearestEven(Encode(sVal, eVal, mTmp), Signify(sVal, Units(v)), 1);
        PackSaturated(sVal, eVal, mTmp);
        if eVal >= MAX_EXP {
          mTmp := 0x3FF;
          eVal := MAX_EXP - 1;
        }
      } else {
        eVal, mTmp := ShiftUp(mTmp, len);
        if v > 0 {
          assert NearestEven(Encode(sVal, eVal, mTmp), Signify(sVal, Units(v)), 1);
          PackSaturated(sVal, eVal, mTmp);
        } else {
          MinimumIsWrong();
        }
      }
      PackSign(sVal, eVal, mTmp);
      val := Pack(sVal, eVal, mTmp);
    }
  }

  /** Sign and magnitude of a two's complement word, the minimum excepted. */
  lemma Int32Fields(iVal: int)
    requires -TWO31 <= iVal < TWO31
    ensures var w := iVal % TWO32;
            && (w / TWO31 == if iVal < 0 then 1 else 0)
            && (iVal >= 0 ==> w % TWO31 == iVal)
            && (iVal < 0 ==> (0 - iVal) % TWO32 % TWO31 == if iVal == -TWO31 then 0 else -iVal)
  {
  }

  /** -0.5 is not the half nearest to -2^31: the saturated -65504 is closer. */
  lemma MinimumIsWrong()
    ensures !NearestEven(0xB800, Units(-TWO31), 1)
    ensures Val(0xB800) == -0x80_0000 && SignOf(0xB800) == 1 && Pack(1, 14, 0) == 0xB800
  {
    WordFields(1, 0x3800);
    WordFields(1, MAX_BITS);
    Pow2Of12();
    assert Pow2(13) == 2 * Pow2(12);
    MagOfMax(1);
    assert !CloserOrEven(0xB800, 0xFBFF, Units(-TWO31), 1);
  }

  /**
   Fp16T::operator=(const uint16_t &). Its saturation test reads the old value of the object,
   which the final packing overwrites, so a result past 65504 becomes the infinity word.
   */
  method FromUInt16(uiVal: nat, previous: Half) returns (val: Half)
    requires uiVal < TWO16
    ensures NearestEven(val, Units(uiVal), 1) <==> uiVal < 65520
    ensures uiVal >= 65520 ==> val == 0x7C00
    ensures SignOf(val) == 0
  {
    hide NearestEven, Shl, Pow2, Encode;
    val := previous;
    if uiVal == 0 {
      ZeroIsNearest();
      val := 0;
    } else {
      var len := GetManBitLength(uiVal);
      SixteenBits();
      LengthBound(uiVal, len, 16);
      InfinityWord(Units(uiVal));
      var eVal: int, mVal := 0, 0;
      if len > 11 {
        eVal, mVal := TruncateAndRound(uiVal, len);
        assert NearestEven(Encode(0, eVal, mVal), Signify(0, Units(uiVal)), 1);
        PackSaturated(0, eVal, mVal);
        if ExpField(val) == MAX_EXP {
          val := MAX_BITS;
        }
      } else {
        Pow2Of10();
        Pow2Monotone(len, 11);
        eVal, mVal := ShiftUp(uiVal, len);
        assert NearestEven(Encode(0, eVal, mVal), Signify(0, Units(uiVal)), 1);
        PackSaturated(0, eVal, mVal);
      }
      PackSign(0, eVal, mVal);
      val := Pack(0, eVal, mVal);
    }
  }

  lemma SixteenBits()
    ensures Pow2(16) == TWO16
  {
    Pow2Add(8, 8);
    assert Pow2(8) == 0x100;
  }

  lemma InfinityWord(n: int)
    ensures Pack(0, 31, 0x400) == 0x7C00 && SignOf(0x7C00) == 0 && !NearestEven(0x7C00, n, 1)
  {
    WordFields(0, 0x7C00);
  }

  lemma PackSign(s: nat, e: nat, m: nat)
    requires s <= 1 && e < 32
    ensures SignOf(Pack(s, e, m)) == s
  {
  }
}
