/** Fp16Add and Fp16Sub: the sum of two halves is the nearest-even half of the exact sum. */
module Fp16Add {
  import opened Powers
  import opened Binary16
  import opened Words

  // ------------------------------------------------ two's complement words

  /** The integer a 32-bit two's complement word stands for. */
  function Signed(w: nat): int { if w < TWO31 then w else w as int - TWO32 }

  /** The 32-bit word of an integer. */
  function Word(x: int): nat { x % TWO32 }

  /** ReverseMan: complement and add one. */
  function ReverseMan(negative: bool, w: nat): (r: nat)
    requires w < TWO32
    ensures r < TWO32
    ensures w != TWO31 ==> Signed(r) == if negative then -Signed(w) else Signed(w)
  {
    if negative then (TWO32 - 1 - w + 1) % TWO32 else w
  }

  lemma FloorHalf(x: int, p: nat)
    requires p > 0
    ensures x / p / 2 == x / (2 * p)
  {
    var q, r := x / p, x % p;
    assert x == q * p + r;
    var h, b := q / 2, q % 2;
    assert q * p == h * (2 * p) + b * p by {
      assert q == 2 * h + b;
    }
    assert b == 0 || b == 1;
    assert b * p + r < 2 * p;
    DivModUnique(x, 2 * p, h, b * p + r);
  }

  /** The sign-extending shift: it divides the signed value, rounding towards minus infinity. */
  method RightShift(manVal: nat, shift: nat) returns (r: nat)
    requires manVal < TWO32
    ensures r < TWO32 && Signed(r) == Signed(manVal) / Pow2(shift)
  {
    r := manVal;
    for i := 0 to shift
      invariant r < TWO32 && Signed(r) == Signed(manVal) / Pow2(i)
    {
      FloorHalf(Signed(manVal), Pow2(i));
      var mask := if r >= TWO31 then TWO31 else 0;
      r := mask + r / 2;
    }
  }

  lemma WordAdd(w1: nat, w2: nat)
    requires w1 < TWO32 && w2 < TWO32
    ensures (w1 + w2) % TWO32 == Word(Signed(w1) + Signed(w2))
  {
  }

  /** The exponent-aligned sum of two signed significands, the smaller one floored. */
  function FlooredSum(e1: nat, a1: int, e2: nat, a2: int): int
  {
    if e1 >= e2 then a1 + a2 / Pow2(e1 - e2) else a1 / Pow2(e2 - e1) + a2
  }

  method GetManSum(e1: nat, m1: nat, e2: nat, m2: nat) returns (sum: nat)
    requires m1 < TWO32 && m2 < TWO32
    ensures sum == Word(FlooredSum(e1, Signed(m1), e2, Signed(m2)))
  {
    hide Word, Signed;
    if e1 != e2 {
      if e1 > e2 {
        var mTmp := RightShift(m2, e1 - e2);
        WordAdd(m1, mTmp);
        sum := (m1 + mTmp) % TWO32;
      } else {
        var mTmp := RightShift(m1, e2 - e1);
        WordAdd(mTmp, m2);
        sum := (mTmp + m2) % TWO32;
      }
    } else {
      WordAdd(m1, m2);
      sum := (m1 + m2) % TWO32;
    }
  }

  // ------------------------------------------------------- the exact sum

  /** The exact sum of two signed significands, in units of the smaller exponent. */
  function ExactSum(e1: nat, a1: int, e2: nat, a2: int): int
  {
    if e1 >= e2 then a1 * Pow2(e1 - e2) + a2 else a1 + a2 * Pow2(e2 - e1)
  }

  function Lower(e1: nat, e2: nat): nat { if e1 >= e2 then e2 else e1 }

  function Upper(e1: nat, e2: nat): nat { if e1 >= e2 then e1 else e2 }

  lemma SumOfFields(v1: Half, v2: Half)
    ensures var e1, e2 := Exponent(v1), Exponent(v2);
            Val(v1) + Val(v2)
            == ExactSum(e1, Signify(SignOf(v1), Significand(v1)), e2, Signify(SignOf(v2), Significand(v2)))
               * Pow2(Lower(e1, e2) - 1)
  {
    var e1, e2 := Exponent(v1), Exponent(v2);
    var a1, a2 := Signify(SignOf(v1), Significand(v1)), Signify(SignOf(v2), Significand(v2));
    SignedValue(v1);
    SignedValue(v2);
    if e1 >= e2 {
      Pow2Add(e1 - e2, e2 - 1);
      Distribute(a1, Pow2(e1 - e2), a2, Pow2(e2 - 1));
    } else {
      Pow2Add(e2 - e1, e1 - 1);
      Distribute(a2, Pow2(e2 - e1), a1, Pow2(e1 - 1));
    }
  }

  lemma SignedValue(v: Half)
    ensures Val(v) == Signify(SignOf(v), Significand(v)) * Pow2(Exponent(v) - 1)
  {
  }

  lemma Distribute(a: int, p: int, b: int, q: int)
    ensures (a * p + b) * q == a * (p * q) + b * q
  {
    assert a * p * q == a * (p * q);
  }

  /** The floored sum is the exact sum floored, so it has the exact sum's sign. */
  lemma FlooredIsFloor(e1: nat, a1: int, e2: nat, a2: int)
    ensures var p := Pow2(Upper(e1, e2) - Lower(e1, e2));
            FlooredSum(e1, a1, e2, a2) == ExactSum(e1, a1, e2, a2) / p
    ensures FlooredSum(e1, a1, e2, a2) < 0 <==> ExactSum(e1, a1, e2, a2) < 0
  {
    var p := Pow2(Upper(e1, e2) - Lower(e1, e2));
    if e1 >= e2 {
      AddMultiple(a1, a2, p);
    } else {
      AddMultiple(a2, a1, p);
    }
  }

  lemma AddMultiple(a: int, b: int, p: nat)
    requires p > 0
    ensures (a * p + b) / p == a + b / p
    ensures (a * p + b) % p == b % p
    ensures a + b / p < 0 <==> a * p + b < 0
  {
    var q, r := b / p, b % p;
    assert b == q * p + r;
    assert (a + q) * p == a * p + q * p;
    DivModUnique(a * p + b, p, a + q, r);
    if a + q < 0 {
      MulMonotone(a + q, -1, p);
    } else {
      MulMonotone(0, a + q, p);
    }
  }

  /**
   Massive cancellation: when the signs differ and the floored sum is 0, the exact sum is 0
   or the exponents differ by one and exactly one unit of the smaller exponent is left.
   */
  lemma Cancellation(e1: nat, a1: int, e2: nat, a2: int)
    requires e1 >= 1 && e2 >= 1 && Abs(a1) < 0x800 && Abs(a2) < 0x800
    requires (e1 > 1 ==> Abs(a1) >= 0x400) && (e2 > 1 ==> Abs(a2) >= 0x400)
    requires FlooredSum(e1, a1, e2, a2) == 0
    ensures var x := ExactSum(e1, a1, e2, a2);
            x == 0 || (x == 1 && Upper(e1, e2) - Lower(e1, e2) == 1)
  {
    FlooredIsFloor(e1, a1, e2, a2);
    if e1 >= e2 {
      CancellationOrdered(e1 - e2, a1, a2);
    } else {
      CancellationOrdered(e2 - e1, a2, a1);
    }
  }

  lemma CancellationOrdered(k: nat, a: int, b: int)
    requires Abs(b) < 0x800 && (k > 0 ==> Abs(a) >= 0x400)
    requires (a * Pow2(k) + b) / Pow2(k) == 0
    ensures var x := a * Pow2(k) + b; x == 0 || (x == 1 && k == 1)
  {
    var p, x := Pow2(k), a * Pow2(k) + b;
    assert 0 <= x < p;
    if k > 0 {
      if k > 1 {
        Pow2Monotone(2, k);
      }
      assert p == 2 * Pow2(k - 1);
      if a <= -0x400 {
        MulMonotone(a, -0x400, p);
      } else {
        MulMonotone(0x400, a, p);
      }
    }
  }

  // ------------------------------------------------------ the three stages

  /**
   Aligning: the larger significand plus the floored smaller one, and the bits shifted out of
   the smaller one left-adjusted in the 32-bit register, together are the exact sum.
   */
  method AlignSum(e1: nat, m1: nat, e2: nat, m2: nat) returns (mVal: nat, mTrct: nat)
    requires m1 < TWO32 && m2 < TWO32 && 1 <= e1 <= 31 && 1 <= e2 <= 31
    requires 0 <= FlooredSum(e1, Signed(m1), e2, Signed(m2)) < TWO16
    ensures mVal < TWO16 && mTrct < TWO32 && mTrct % 2 == 0
    ensures mVal == FlooredSum(e1, Signed(m1), e2, Signed(m2))
    ensures Fixed(mVal, mTrct) * Pow2(Upper(e1, e2) - Lower(e1, e2))
            == ExactSum(e1, Signed(m1), e2, Signed(m2)) * TWO32
  {
    mTrct := 0;
    var w1, w2 := m1, m2;
    if e1 > e2 {
      var eTmp := e1 - e2;
      mTrct := m2 * Pow2(32 - eTmp) % TWO32;
      w2 := RightShift(m2, eTmp);
      RegisterOf(Signed(m1), m2, eTmp);
    } else if e1 < e2 {
      var eTmp := e2 - e1;
      mTrct := m1 * Pow2(32 - eTmp) % TWO32;
      w1 := RightShift(m1, eTmp);
      RegisterOf(Signed(m2), m1, eTmp);
    }
    WordAdd(w1, w2);
    WordSmall(FlooredSum(e1, Signed(m1), e2, Signed(m2)));
    mVal := (w1 + w2) % TWO32 % TWO16;
  }

  lemma WordSmall(x: int)
    requires 0 <= x < TWO16
    ensures Word(x) % TWO16 == x
  {
  }

  /** The register holds exactly the low bits the arithmetic shift drops, also for a negative word. */
  lemma RegisterOf(a: int, w: nat, k: nat)
    requires w < TWO32 && 1 <= k <= 31 && 0 <= a + Signed(w) / Pow2(k)
    ensures var t := w * Pow2(32 - k) % TWO32;
            && t < TWO32 && t % 2 == 0
            && Fixed(a + Signed(w) / Pow2(k), t) * Pow2(k) == (a * Pow2(k) + Signed(w)) * TWO32
  {
    RegisterBits(w, k);
    Pow2Of32();
    Pow2Add(k, 32 - k);
    Recombine(a, Signed(w), Pow2(k), Pow2(32 - k));
  }

  lemma RegisterBits(w: nat, k: nat)
    requires w < TWO32 && 1 <= k <= 31
    ensures var t := w * Pow2(32 - k) % TWO32;
            t == Signed(w) % Pow2(k) * Pow2(32 - k) && t < TWO32 && t % 2 == 0
  {
    var p, c := Pow2(k), Pow2(32 - k);
    Pow2Of32();
    Pow2Add(k, 32 - k);
    LowBitsShifted(w, p, c);
    SignedResidue(w, p, c);
    EvenFactor(w % p, Pow2(32 - k - 1));
    MulStrict(w % p, p, c);
  }

  lemma SignedResidue(w: nat, p: nat, c: int)
    requires p > 0 && p * c == TWO32
    ensures w % p == Signed(w) % p
  {
    AddMultiple(-c, w, p);
    assert -c * p == -TWO32;
  }

  lemma EvenFactor(r: nat, c: nat)
    ensures r * (2 * c) % 2 == 0
  {
    assert r * (2 * c) == 2 * (r * c);
  }

  lemma Recombine(a: int, b: int, p: nat, c: nat)
    requires p > 0 && p * c == TWO32 && 0 <= a + b / p
    ensures Fixed(a + b / p, b % p * c) * p == (a * p + b) * TWO32
  {
    var q, r := b / p, b % p;
    MulSwap3(a + q, TWO32, p);
    assert r * c * p == r * TWO32 by {
      MulSwap3(r, c, p);
      assert r * p * c == r * (p * c);
    }
    assert (a + q) * p == a * p + q * p;
    assert (a + q) * p + r == a * p + b;
  }

  lemma MulSwap3(a: int, b: int, c: int)
    ensures a * b * c == a * c * b
  {
  }

  lemma LowBitsShifted(w: nat, p: nat, c: nat)
    requires p > 0 && c > 0
    ensures w * c % (p * c) == w % p * c
  {
    var q, r := w / p, w % p;
    assert w * c == q * (p * c) + r * c by {
      assert w == q * p + r;
      assert (q * p + r) * c == q * p * c + r * c;
      assert q * p * c == q * (p * c);
    }
    MulStrict(r, p, c);
    DivModUnique(w * c, p * c, q, r * c);
  }

  lemma ExactSumNegated(e1: nat, a1: int, e2: nat, a2: int)
    ensures ExactSum(e1, -a1, e2, -a2) == -ExactSum(e1, a1, e2, a2)
  {
  }

  lemma FlooredBound(e1: nat, a1: int, e2: nat, a2: int)
    requires Abs(a1) < 0x800 && Abs(a2) < 0x800
    ensures Abs(FlooredSum(e1, a1, e2, a2)) < 0x1000
  {
    if e1 >= e2 {
      QuotientBound(a2, Pow2(e1 - e2));
    } else {
      QuotientBound(a1, Pow2(e2 - e1));
    }
  }

  lemma QuotientBound(a: int, p: nat)
    requires Abs(a) < 0x800 && p > 0
    ensures -0x800 <= a / p < 0x800
  {
    var q := a / p;
    assert a == q * p + a % p;
    if q >= 0x800 {
      MulMonotone(0x800, q, p);
    } else if q < -0x800 {
      MulMonotone(q, -0x801, p);
    }
  }

  /** The sign bit and the zero test of the 16-bit sum word. */
  lemma SumWord(x: int)
    requires Abs(x) < 0x1000
    ensures (x < 0 <==> Word(x) % TWO16 / 0x8000 == 1) && Word(x) % TWO16 / 0x8000 <= 1
    ensures x == 0 <==> Word(x) % TWO16 == 0
  {
    if x < 0 {
      assert Word(x) == TWO32 + x;
      assert Word(x) % TWO16 == TWO16 + x;
    } else {
      assert Word(x) % TWO16 == x;
    }
  }

  /** The first stage: find the sign of the sum and flip both significands when it is negative. */
  method SignOfSum(s1: nat, e1: nat, man1: nat, s2: nat, e2: nat, man2: nat)
      returns (sVal: nat, sum: nat, m1: nat, m2: nat)
    requires s1 <= 1 && s2 <= 1 && man1 < 0x800 && man2 < 0x800
    ensures sVal <= 1 && m1 < TWO32 && m2 < TWO32
    ensures Signed(m1) == Signify(sVal, Signify(s1, man1)) && Signed(m2) == Signify(sVal, Signify(s2, man2))
    ensures 0 <= FlooredSum(e1, Signed(m1), e2, Signed(m2)) < 0x1000
    ensures 0 <= ExactSum(e1, Signed(m1), e2, Signed(m2))
    ensures s1 == s2 ==> sVal == s1
    ensures s1 != s2 ==> (sVal == 1 <==> ExactSum(e1, Signify(s1, man1), e2, Signify(s2, man2)) < 0)
    ensures sum == 0 ==> FlooredSum(e1, Signed(m1), e2, Signed(m2)) == 0
  {
    m1, m2 := man1, man2;
    ghost var a1, a2 := Signify(s1, man1), Signify(s2, man2);
    if s1 != s2 {
      m1 := ReverseMan(s1 > 0, m1);
      m2 := ReverseMan(s2 > 0, m2);
      sum := GetManSum(e1, m1, e2, m2);
      sum := sum % TWO16;
      FlooredBound(e1, a1, e2, a2);
      SumWord(FlooredSum(e1, a1, e2, a2));
      FlooredIsFloor(e1, a1, e2, a2);
      sVal := sum / 0x8000;
      m1 := ReverseMan(sVal > 0, m1);
      m2 := ReverseMan(sVal > 0, m2);
      ExactSumNegated(e1, a1, e2, a2);
    } else {
      sum := GetManSum(e1, m1, e2, m2);
      sum := sum % TWO16;
      FlooredBound(e1, man1, e2, man2);
      SumWord(FlooredSum(e1, man1, e2, man2));
      sVal := s1;
    }
    FlooredBound(e1, Signed(m1), e2, Signed(m2));
    FlooredIsFloor(e1, Signed(m1), e2, Signed(m2));
  }

  function Scale(shiftOut: nat): nat { if shiftOut == 0 then 1 else 8 }

  /** The second stage: the two normalising loops. j tells whether the right shift was taken. */
  method NormalizeSum(shiftOut: nat, eIn: int, mIn: nat, tIn: nat)
      returns (eVal: int, mVal: nat, mTrct: nat, ghost k: nat, ghost j: nat)
    requires shiftOut == 0 || shiftOut == 3
    requires 1 <= eIn <= 31 && tIn < TWO32
    requires shiftOut == 0 ==> mIn < 0x1000 && tIn % 2 == 0
    requires shiftOut == 3 ==> mIn < 0x2000 && mIn % 4 == 0 && tIn == 0
    ensures eVal >= 0 && eVal + k == eIn + j && mTrct < TWO32
    ensures mVal < 0x800 * Scale(shiftOut) && (mVal >= 0x400 * Scale(shiftOut) || eVal == 0)
    ensures (if j == 0 then 1 else 2) * Fixed(mVal, mTrct) == Shl(Fixed(mIn, tIn), k)
    ensures j == 0 || (j == 1 && k == 0)
    ensures shiftOut == 3 && eVal >= 1 ==> mTrct == 0 && mVal % 8 == 0
  {
    hide Fixed;
    eVal, mVal, mTrct, k, j := eIn, mIn, tIn, 0, 0;
    var mMin := HIDE_BIT * Scale(shiftOut);
    var mMax := 2 * mMin;
    while mVal < mMin && eVal > 0
      invariant eVal >= 0 && eVal + k == eIn && mTrct < TWO32
      invariant Fixed(mVal, mTrct) == Shl(Fixed(mIn, tIn), k)
      invariant shiftOut == 0 ==> mVal < 0x1000
      invariant mVal >= mMax ==> k == 0 && mTrct % 2 == 0 && shiftOut == 0
      invariant shiftOut == 3 ==> mTrct == 0 && mVal % 4 == 0 && (mVal % 8 == 0 || mVal < mMin)
      decreases eVal
    {
      ShiftInDoubles(mVal, mTrct);
      mVal := mVal * 2;
      mVal := mVal + mTrct / TWO31;
      mTrct := mTrct * 2 % TWO32;
      eVal := eVal - 1;
      k := k + 1;
    }
    while mVal >= mMax
      invariant eVal >= 0 && eVal + k == eIn + j && mTrct < TWO32
      invariant j == 0 || (j == 1 && k == 0 && eVal >= 1 && 0x400 <= mVal < mMax && shiftOut == 0)
      invariant (if j == 0 then 1 else 2) * Fixed(mVal, mTrct) == Shl(Fixed(mIn, tIn), k)
      invariant shiftOut == 0 ==> mVal < 0x1000
      invariant mVal >= mMax ==> k == 0 && j == 0 && mTrct % 2 == 0 && shiftOut == 0
      invariant mVal >= mMin || eVal == 0
      invariant shiftOut == 3 ==> mTrct == 0 && mVal % 4 == 0 && (mVal % 8 == 0 || mVal < mMin)
      decreases mVal
    {
      ShiftOutHalves(mVal, mTrct);
      mTrct := mTrct / 2;
      mTrct := mTrct + TWO31 * (mVal % 2);
      mVal := mVal / 2;
      eVal := eVal + 1;
      j := j + 1;
    }
  }

  /** The third stage: round, renormalise, halve a subnormal, saturate and pack. */
  method RoundSum(sVal: nat, shiftOut: nat, eIn: nat, mIn: nat, mTrct: nat) returns (ret: Half)
    requires sVal <= 1 && (shiftOut == 0 || shiftOut == 3) && mTrct < TWO32
    requires mIn < 0x800 * Scale(shiftOut) && (mIn >= 0x400 * Scale(shiftOut) || eIn == 0)
    requires shiftOut == 3 ==> mTrct == 0 && mIn % 8 == 0
    requires eIn == 0 ==> mTrct == 0 && mIn % (2 * Scale(shiftOut)) == 0
    ensures eIn >= 1 ==> ret == Encode(sVal, eIn, Rounded(mIn / Scale(shiftOut), mTrct, TWO32))
    ensures eIn == 0 ==> ret == Encode(sVal, 1, mIn / Scale(shiftOut) / 2)
  {
    var mMin := HIDE_BIT * Scale(shiftOut);
    var mMax := 2 * mMin;
    var isLastBit, isTrctHigh, isTrctLeft := mIn % 2 > 0, mTrct / TWO31 > 0, mTrct % TWO31 > 0;
    RegisterFlags(mIn, mTrct);
    SmallShifts(mIn);
    var eVal, mVal := eIn, ManRoundToNearest(isLastBit, isTrctHigh, isTrctLeft, mIn, shiftOut);
    ghost var q := mVal;
    while mVal >= mMax
      invariant eVal >= eIn && (eIn == 0 ==> eVal == 0 && mVal == q)
      invariant eIn >= 1 ==> 0x400 <= mVal <= 0x800
      invariant eIn >= 1 ==> (eVal - 1) * 0x400 + mVal == (eIn - 1) * 0x400 + q
      decreases mVal
    {
      mVal := mVal / 2;
      eVal := eVal + 1;
    }
    if eVal == 0 && mVal <= mMax {
      mVal := mVal / 2;
    }
    if eIn == 0 {
      NormalizeAndPack(sVal, 0, mVal, mVal, 1);
    } else {
      NormalizeAndPack(sVal, eVal, mVal, q, eIn);
    }
    var (e, m) := Fp16Normalize(eVal, mVal);
    ret := Pack(sVal, e, m);
  }

  /** The register pair after the second stage is still the exact magnitude, scaled by 2^c. */
  lemma StillExact(f0: nat, f: nat, x: nat, c: nat, e0: nat, k: nat, j: nat, e: nat)
    requires Shl(f0, e0) == Shl(x, c) && e + k == e0 + j
    requires (if j == 0 then 1 else 2) * f == Shl(f0, k)
    requires j == 0 || (j == 1 && k == 0)
    ensures Shl(f, e) == Shl(x, c)
  {
    if j == 0 {
      ShlShl(f0, k, e);
    } else {
      ShlDouble(f, e0);
    }
  }

  /** A subnormal sum needs no rounding: the significand at exponent 0 is exactly twice the magnitude. */
  lemma SubnormalExact(m: nat, t: nat, x: nat, shiftOut: nat)
    requires t < TWO32 && Fixed(m, t) == Shl(x, 33 + shiftOut) && (shiftOut == 0 || shiftOut == 3)
    ensures t == 0 && m == 2 * Scale(shiftOut) * x
  {
    hide Shl, Pow2;
    ShlShl(x, 1 + shiftOut, 32);
    ShlIsScale(Shl(x, 1 + shiftOut), 32);
    Pow2Of32();
    SmallShifts(x);
    assert Fixed(m, t) == Fixed(Shl(x, 1 + shiftOut), 0);
  }

  lemma NormalAligned(x: nat, shiftOut: nat, e: nat, m: nat, t: nat)
    requires shiftOut == 0 || (shiftOut == 3 && t == 0 && m % 8 == 0)
    requires e >= 1 && t < TWO32 && 0x400 * Scale(shiftOut) <= m < 0x800 * Scale(shiftOut)
    requires Shl(Fixed(m, t), e) == Shl(x, 33 + shiftOut)
    ensures Aligned(x, 1, e, m / Scale(shiftOut), t, TWO32)
  {
    var w := Fixed(m / Scale(shiftOut), t);
    SmallShifts(w);
    assert Fixed(m, t) == Shl(w, shiftOut);
    ShlShl(w, shiftOut, e);
    ShlShl(w, e - 1, 1 + shiftOut);
    ShlShl(x, 32, 1 + shiftOut);
    ShlCancel(Shl(w, e - 1), Shl(x, 32), 1 + shiftOut);
    Pow2Of32();
    ShlIsScale(m / Scale(shiftOut), 32);
    AlignedByShifts(x, 0, e, w, m / Scale(shiftOut), t, 32);
  }

  /** The aligned register in terms of the exact sum's magnitude, scaled in the cancellation path. */
  lemma AlignedSum(f: nat, z: nat, shiftOut: nat, lo: nat, hi: nat)
    requires 1 <= lo <= hi && (shiftOut == 0 || shiftOut == 3)
    requires f * Pow2(hi - lo) == z * Scale(shiftOut) * TWO32
    ensures Shl(f, hi) == Shl(z * Pow2(lo - 1), 33 + shiftOut)
  {
    hide Pow2;
    Pow2Of32();
    ShlIsScale(f, hi - lo);
    ShlIsScale(z * Scale(shiftOut), 32);
    SmallShifts(z);
    assert z * Scale(shiftOut) == Shl(z, shiftOut);
    ShlIsScale(z, lo - 1);
    ShlShl(f, hi - lo, lo);
    ShlShl(z, shiftOut, 32);
    ShlShl(z, shiftOut + 32, lo);
    ShlShl(z, lo - 1, 33 + shiftOut);
  }

  lemma ExactSumScaled(e1: nat, a1: int, e2: nat, a2: int)
    ensures ExactSum(e1, 8 * a1, e2, 8 * a2) == 8 * ExactSum(e1, a1, e2, a2)
  {
  }

  /** After massive cancellation the scaled sum is 0 or, one exponent apart, the single scaled unit 4. */
  lemma CancelledStart(e1: nat, a1: int, e2: nat, a2: int)
    requires FlooredSum(e1, a1, e2, a2) == 0
    requires ExactSum(e1, a1, e2, a2) == 0
             || (ExactSum(e1, a1, e2, a2) == 1 && Upper(e1, e2) - Lower(e1, e2) == 1)
    ensures FlooredSum(e1, 8 * a1, e2, 8 * a2) == 0 || FlooredSum(e1, 8 * a1, e2, 8 * a2) == 4
    ensures ExactSum(e1, 8 * a1, e2, 8 * a2) % Pow2(Upper(e1, e2) - Lower(e1, e2)) == 0
  {
    hide FlooredSum, ExactSum, Pow2;
    var x, p := ExactSum(e1, a1, e2, a2), Pow2(Upper(e1, e2) - Lower(e1, e2));
    ExactSumScaled(e1, a1, e2, a2);
    FlooredIsFloor(e1, 8 * a1, e2, 8 * a2);
    if x == 0 {
      DivModUnique(0, p, 0, 0);
    } else {
      PowerOfOne();
      assert p == 2;
    }
  }

  lemma PowerOfOne()
    ensures Pow2(1) == 2
  {
  }

  /** When the exact sum is a multiple of the alignment, the register is empty. */
  lemma EmptyRegister(m: nat, t: nat, p: nat, x: int)
    requires p > 0 && t < TWO32 && x % p == 0 && m == x / p && Fixed(m, t) * p == x * TWO32
    ensures t == 0
  {
    assert x == m * p;
    assert (m * TWO32 + t) * p == m * p * TWO32 + t * p;
    MulSwap3(m, p, TWO32);
    MulCancel(t, 0, p);
  }

  /** Rounding the normalised register gives the nearest-even half of the signed exact sum x. */
  method FinishSum(sVal: nat, shiftOut: nat, eVal: nat, mVal: nat, mTrct: nat, ghost x: int) returns (ret: Half)
    requires SignAgrees(sVal, x) && (shiftOut == 0 || shiftOut == 3) && mTrct < TWO32
    requires mVal < 0x800 * Scale(shiftOut) && (mVal >= 0x400 * Scale(shiftOut) || eVal == 0)
    requires shiftOut == 3 && eVal >= 1 ==> mTrct == 0 && mVal % 8 == 0
    requires Shl(Fixed(mVal, mTrct), eVal) == Shl(Abs(x), 33 + shiftOut)
    ensures NearestEven(ret, x, 1) && SignOf(ret) == sVal
  {
    hide NearestEven, Encode, Rounded, Shl, Aligned;
    if eVal == 0 {
      ShlZero(Fixed(mVal, mTrct));
      SubnormalSum(sVal, shiftOut, mVal, mTrct, x);
      ret := RoundSum(sVal, shiftOut, eVal, mVal, mTrct);
    } else {
      NormalAligned(Abs(x), shiftOut, eVal, mVal, mTrct);
      EncodeIsNearestEven(sVal, x, 1, eVal, mVal / Scale(shiftOut), mTrct, TWO32);
      ret := RoundSum(sVal, shiftOut, eVal, mVal, mTrct);
    }
  }

  lemma ShlZero(w: nat)
    ensures Shl(w, 0) == w
  {
  }

  lemma SubnormalSum(sVal: nat, shiftOut: nat, m: nat, t: nat, x: int)
    requires SignAgrees(sVal, x) && (shiftOut == 0 || shiftOut == 3) && t < TWO32 && m < 0x800 * Scale(shiftOut)
    requires Fixed(m, t) == Shl(Abs(x), 33 + shiftOut)
    ensures t == 0 && m % (2 * Scale(shiftOut)) == 0
    ensures NearestEven(Encode(sVal, 1, m / Scale(shiftOut) / 2), x, 1)
  {
    hide NearestEven, Encode;
    SubnormalExact(m, t, Abs(x), shiftOut);
    var y := Abs(x);
    assert m / Scale(shiftOut) / 2 == y && y < 0x400;
    assert Rounded(y, 0, 1) == y;
    assert y * 1 == (y * 1 + 0) * (Pow2(0) * 1);
    EncodeIsNearestEven(sVal, x, 1, 1, y, 0, 1);
  }

  /** Multiplying both significands by 8 in two's complement words. */
  lemma ScaledWord(w: nat)
    requires w < TWO32 && Abs(Signed(w)) < 0x800
    ensures w * 8 % TWO32 < TWO32 && Signed(w * 8 % TWO32) == 8 * Signed(w)
  {
  }

  /** After the first stage the exact sum of the words is the magnitude of the sum of the halves. */
  lemma MagnitudeOfSum(v1: Half, v2: Half, sVal: nat, b1: int, b2: int)
    requires sVal <= 1
    requires b1 == Signify(sVal, Signify(SignOf(v1), Significand(v1)))
    requires b2 == Signify(sVal, Signify(SignOf(v2), Significand(v2)))
    requires 0 <= ExactSum(Exponent(v1), b1, Exponent(v2), b2)
    ensures var x, lo := Val(v1) + Val(v2), Lower(Exponent(v1), Exponent(v2));
            && Abs(x) == ExactSum(Exponent(v1), b1, Exponent(v2), b2) * Pow2(lo - 1)
            && SignAgrees(sVal, x)
  {
    var e1, e2, p := Exponent(v1), Exponent(v2), Pow2(Lower(Exponent(v1), Exponent(v2)) - 1);
    SumOfFields(v1, v2);
    ExactSumNegated(e1, b1, e2, b2);
    SignedScale(sVal, ExactSum(e1, b1, e2, b2), p);
  }

  lemma SignedScale(s: nat, z: nat, p: nat)
    requires s <= 1 && p > 0
    ensures Abs(Signify(s, z) * p) == z * p && SignAgrees(s, Signify(s, z) * p)
  {
    var y: int := z;
    assert -y * p == -(y * p);
  }

  lemma NegativeSum(v1: Half, v2: Half)
    ensures Val(v1) + Val(v2) < 0
            <==> ExactSum(Exponent(v1), Signify(SignOf(v1), Significand(v1)),
                          Exponent(v2), Signify(SignOf(v2), Significand(v2))) < 0
  {
    SumOfFields(v1, v2);
    var a1, a2 := Signify(SignOf(v1), Significand(v1)), Signify(SignOf(v2), Significand(v2));
    var z := ExactSum(Exponent(v1), a1, Exponent(v2), a2);
    var p := Pow2(Lower(Exponent(v1), Exponent(v2)) - 1);
    if z < 0 {
      MulMonotone(z, -1, p);
    } else {
      MulMonotone(0, z, p);
    }
  }

  /** The words after the first stage, scaled by 8 in the cancellation path. */
  lemma ScaledSum(e1: nat, m1: nat, e2: nat, m2: nat)
    requires m1 < TWO32 && m2 < TWO32 && Abs(Signed(m1)) < 0x800 && Abs(Signed(m2)) < 0x800
    requires e1 >= 1 && e2 >= 1
    requires (e1 > 1 ==> Abs(Signed(m1)) >= 0x400) && (e2 > 1 ==> Abs(Signed(m2)) >= 0x400)
    requires FlooredSum(e1, Signed(m1), e2, Signed(m2)) == 0
    ensures var w1, w2, p := m1 * 8 % TWO32, m2 * 8 % TWO32, Pow2(Upper(e1, e2) - Lower(e1, e2));
            && w1 < TWO32 && w2 < TWO32
            && (FlooredSum(e1, Signed(w1), e2, Signed(w2)) == 0 || FlooredSum(e1, Signed(w1), e2, Signed(w2)) == 4)
            && ExactSum(e1, Signed(w1), e2, Signed(w2)) == 8 * ExactSum(e1, Signed(m1), e2, Signed(m2))
            && ExactSum(e1, Signed(w1), e2, Signed(w2)) % p == 0
  {
    ScaledWord(m1);
    ScaledWord(m2);
    Cancellation(e1, Signed(m1), e2, Signed(m2));
    CancelledStart(e1, Signed(m1), e2, Signed(m2));
    ExactSumScaled(e1, Signed(m1), e2, Signed(m2));
  }

  method Fp16Add(v1: Half, v2: Half) returns (ret: Half)
    ensures NearestEven(ret, Val(v1) + Val(v2), 1)
    ensures SignOf(ret) == if Val(v1) + Val(v2) == 0 then (if SignOf(v1) == SignOf(v2) then SignOf(v1) else 0)
                           else if Val(v1) + Val(v2) < 0 then 1 else 0
  {
    var s1, e1, man1 := SignOf(v1), Exponent(v1), Significand(v1);
    var s2, e2, man2 := SignOf(v2), Exponent(v2), Significand(v2);
    var sVal, sum, m1, m2 := SignOfSum(s1, e1, man1, s2, e2, man2);
    ghost var x, z := Val(v1) + Val(v2), ExactSum(e1, Signed(m1), e2, Signed(m2));
    MagnitudeOfSum(v1, v2, sVal, Signed(m1), Signed(m2));
    NegativeSum(v1, v2);
    var shiftOut := 0;
    if sum == 0 {
      ScaledSum(e1, m1, e2, m2);
      shiftOut := 3;
      m1 := m1 * 8 % TWO32;
      m2 := m2 * 8 % TWO32;
    }
    var mVal, mTrct := AlignSum(e1, m1, e2, m2);
    ghost var f0 := Fixed(mVal, mTrct);
    FlooredIsFloor(e1, Signed(m1), e2, Signed(m2));
    if sum == 0 {
      EmptyRegister(mVal, mTrct, Pow2(Upper(e1, e2) - Lower(e1, e2)), ExactSum(e1, Signed(m1), e2, Signed(m2)));
    }
    var eVal: int := if e1 >= e2 then e1 else e2;
    AlignedSum(f0, z, shiftOut, Lower(e1, e2), Upper(e1, e2));
    ghost var k, j;
    eVal, mVal, mTrct, k, j := NormalizeSum(shiftOut, eVal, mVal, mTrct);
    StillExact(f0, Fixed(mVal, mTrct), Abs(x), 33 + shiftOut, Upper(e1, e2), k, j, eVal);
    ret := FinishSum(sVal, shiftOut, eVal, mVal, mTrct, x);
  }

  /** Flipping the sign bit, as Fp16Sub does with two masks, negates the value. */
  function Negated(v: Half): (r: Half)
  {
    (1 - SignOf(v)) * 0x8000 + v % 0x8000
  }

  lemma NegatedValue(v: Half)
    ensures Val(Negated(v)) == -Val(v) && SignOf(Negated(v)) == 1 - SignOf(v)
  {
    LowBits(v);
    LowBits(Negated(v));
  }

  method Fp16Sub(v1: Half, v2: Half) returns (ret: Half)
    ensures NearestEven(ret, Val(v1) - Val(v2), 1)
    ensures SignOf(ret) == if Val(v1) == Val(v2) then (if SignOf(v1) != SignOf(v2) then SignOf(v1) else 0)
                           else if Val(v1) < Val(v2) then 1 else 0
  {
    NegatedValue(v2);
    ret := Fp16Add(v1, Negated(v2));
  }
}
