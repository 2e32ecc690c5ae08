/** Machine words as naturals, and the shift-and-sticky register shared by the Fp16T operations. */
module Words {
  import opened Powers
  import opened Binary16

  const TWO16 := 0x1_0000
  const TWO31 := 0x8000_0000
  const TWO32 := 0x1_0000_0000

  lemma Pow2Of32()
    ensures Pow2(32) == TWO32
  {
    Pow2Add(8, 8);
    Pow2Add(16, 16);
    assert Pow2(8) == 0x100;
  }

  // ------------------------------------------------------------- shifts

  /** w << k, on unbounded words. */
  function Shl(w: nat, k: nat): nat { if k == 0 then w else 2 * Shl(w, k - 1) }

  /** w >> k. */
  function Shr(w: nat, k: nat): nat { if k == 0 then w else Shr(w, k - 1) / 2 }

  /** The k low bits of w, which w >> k drops. */
  function Low(w: nat, k: nat): nat { if k == 0 then 0 else Low(w, k - 1) + Shl(Shr(w, k - 1) % 2, k - 1) }

  lemma {:induction false} ShlIsScale(w: nat, k: nat)
    ensures Shl(w, k) == w * Pow2(k)
  {
    if k > 0 {
      ShlIsScale(w, k - 1);
      MulSwap(w, 2, Pow2(k - 1));
    }
  }

  lemma {:induction false} ShlShl(w: nat, a: nat, b: nat)
    ensures Shl(Shl(w, a), b) == Shl(w, a + b)
  {
    if b > 0 {
      ShlShl(w, a, b - 1);
    }
  }

  lemma {:induction false} ShlAdd(a: nat, b: nat, k: nat)
    ensures Shl(a + b, k) == Shl(a, k) + Shl(b, k)
  {
    if k > 0 {
      ShlAdd(a, b, k - 1);
    }
  }

  lemma {:induction false} ShlMonotone(a: nat, b: nat, k: nat)
    ensures a < b <==> Shl(a, k) < Shl(b, k)
  {
    if k > 0 {
      ShlMonotone(a, b, k - 1);
    }
  }

  lemma ShlCancel(a: nat, b: nat, k: nat)
    requires Shl(a, k) == Shl(b, k)
    ensures a == b
  {
    ShlMonotone(a, b, k);
    ShlMonotone(b, a, k);
  }

  /** Doubling a word is one shift. */
  lemma ShlDouble(w: nat, k: nat)
    ensures Shl(2 * w, k) == Shl(w, k + 1)
  {
    ShlShl(w, 1, k);
    assert Shl(w, 1) == 2 * w;
  }

  lemma SmallShifts(w: nat)
    ensures Shl(w, 1) == 2 * w && Shl(w, 3) == 8 * w && Shl(w, 4) == 16 * w && Shr(w, 3) == w / 8
  {
    assert Shl(w, 2) == 2 * Shl(w, 1) && Shl(w, 3) == 2 * Shl(w, 2) && Shl(w, 4) == 2 * Shl(w, 3);
    assert Shr(w, 1) == w / 2 && Shr(w, 2) == Shr(w, 1) / 2 && Shr(w, 3) == Shr(w, 2) / 2;
  }

  lemma {:induction false} ShlOne(k: nat)
    ensures Shl(1, k) == Pow2(k)
  {
    if k > 0 {
      ShlOne(k - 1);
    }
  }

  /** The quotient bits and the dropped bits recombine to the word. */
  lemma {:induction false} ShrLow(w: nat, k: nat)
    ensures w == Shl(Shr(w, k), k) + Low(w, k) && Low(w, k) < Pow2(k)
  {
    if k > 0 {
      ShrLow(w, k - 1);
      var q := Shr(w, k - 1);
      ShlAdd(2 * (q / 2), q % 2, k - 1);
      ShlShl(q / 2, 1, k - 1);
      assert Shl(q / 2, 1) == 2 * (q / 2);
      assert Shl(q % 2, k - 1) <= Pow2(k - 1) by {
        ShlOne(k - 1);
        ShlMonotone(1, q % 2, k - 1);
      }
    }
  }

  /** A word below b << k has a quotient below b. */
  lemma ShrBelow(w: nat, b: nat, k: nat)
    requires w < Shl(b, k)
    ensures Shr(w, k) < b
  {
    ShrLow(w, k);
    ShlMonotone(Shr(w, k), b, k);
  }

  lemma {:induction false} ShrAntitone(w: nat, a: nat, b: nat)
    requires a <= b
    ensures Shr(w, b) <= Shr(w, a)
    decreases b
  {
    if a < b {
      ShrAntitone(w, a, b - 1);
    }
  }

  /** Alignment when every scale is a power of two: an equation between shifts. */
  lemma AlignedByShifts(n: nat, dk: nat, e: nat, w: nat, q0: nat, r: nat, rk: nat)
    requires w == Shl(q0, rk) + r && r < Pow2(rk)
    requires e >= 1 && q0 < 0x800 && (e == 1 || q0 >= 0x400)
    requires Shl(n, rk) == Shl(w, e - 1 + dk)
    ensures Aligned(n, Pow2(dk), e, q0, r, Pow2(rk))
  {
    ShlIsScale(q0, rk);
    ShlIsScale(n, rk);
    ShlIsScale(w, e - 1 + dk);
    Pow2Add(e - 1, dk);
  }

  // ------------------------------------------------- the sticky register

  /** One right shift of significand m through the 32-bit register t: the bit leaving m enters t. */
  function ShiftOut(m: nat, t: nat): (nat, nat)
  {
    (m / 2, t / 2 + TWO31 * (m % 2))
  }

  /** The fixed-point number m.t the pair stands for, in units of 2^-32. */
  function Fixed(m: nat, t: nat): nat { m * TWO32 + t }

  /** As long as the register's last bit is 0, shifting right halves the number exactly. */
  lemma ShiftOutHalves(m: nat, t: nat)
    requires t < TWO32 && t % 2 == 0
    ensures var (m', t') := ShiftOut(m, t); t' < TWO32 && 2 * Fixed(m', t') == Fixed(m, t)
  {
  }

  /** One left shift, the register's top bit entering the significand, doubles the number. */
  lemma ShiftInDoubles(m: nat, t: nat)
    requires t < TWO32
    ensures t / TWO31 <= 1 && t * 2 % TWO32 < TWO32
    ensures Fixed(m * 2 + t / TWO31, t * 2 % TWO32) == 2 * Fixed(m, t)
  {
  }

  /** The pair after k right shifts of an integer m0 with a clear register. */
  function Slide(m0: nat, k: nat): (nat, nat)
  {
    if k == 0 then (m0, 0) else ShiftOut(Slide(m0, k - 1).0, Slide(m0, k - 1).1)
  }

  /** The 32-bit register loses no bit in the first 32 shifts. */
  lemma {:induction false} SlideExact(m0: nat, k: nat)
    requires k <= 32
    ensures Slide(m0, k).1 < TWO32
    ensures Fixed(Slide(m0, k).0, Slide(m0, k).1) == Shl(m0, 32 - k)
  {
    if k == 0 {
      Pow2Of32();
      ShlIsScale(m0, 32);
    } else {
      SlideExact(m0, k - 1);
      var (m, t) := Slide(m0, k - 1);
      assert Fixed(m, t) == 2 * Shl(m0, 32 - k);
      ShlEven(m, t, Shl(m0, 32 - k));
      ShiftOutHalves(m, t);
    }
  }

  lemma ShlEven(m: nat, t: nat, x: nat)
    requires t < TWO32 && Fixed(m, t) == 2 * x
    ensures t % 2 == 0
  {
  }

  lemma {:induction false} SlideQuotient(m0: nat, k: nat)
    ensures Slide(m0, k).0 == Shr(m0, k)
  {
    if k > 0 {
      SlideQuotient(m0, k - 1);
    }
  }

  lemma MulSwap(a: nat, b: nat, c: nat)
    ensures a * b * c == a * c * b
  {
  }

  /** The three flags the code rounds by decide exactly RoundsUp on the register. */
  predicate RoundFlags(bit0: bool, bit1: bool, bitLeft: bool) { bit1 && (bitLeft || bit0) }

  predicate RegisterRoundsUp(m: nat, t: nat)
  {
    RoundFlags(m % 2 > 0, t / TWO31 > 0, t % TWO31 > 0)
  }

  lemma RegisterFlags(m: nat, t: nat)
    requires t < TWO32
    ensures RegisterRoundsUp(m, t) <==> RoundsUp(m, t, TWO32)
  {
  }

  /** ManRoundToNearest without a shift. */
  function ManRoundToNearest(bit0: bool, bit1: bool, bitLeft: bool, manVal: nat, shift: nat := 0): nat
  {
    Shr(manVal, shift) + if RoundFlags(bit0, bit1, bitLeft) then 1 else 0
  }

  /** Fp16Normalize: saturate an exponent that is too large, renormalise a subnormal carry. */
  function Fp16Normalize(exp: int, manVal: nat): (r: (int, nat))
    ensures exp >= 0 ==> 0 <= r.0 < MAX_EXP
  {
    if exp >= MAX_EXP then (MAX_EXP - 1, 0x3FF)
    else if exp == 0 && manVal == HIDE_BIT then (1, 0)
    else (exp, manVal)
  }

  /** Normalising and packing a rounded significand is Encode, in every range. */
  lemma NormalizeAndPack(s: nat, e: int, m: nat, q: nat, e0: nat)
    requires s <= 1 && e >= 0 && e0 >= 1
    requires e == 0 ==> m <= HIDE_BIT && (e0 - 1) * 0x400 + q == m
    requires e >= 1 ==> HIDE_BIT <= m < 0x800 && (e0 - 1) * 0x400 + q == (e - 1) * 0x400 + m
    ensures var (e', m') := Fp16Normalize(e, m);
            0 <= e' < 31 && Pack(s, e', m') == Encode(s, e0, q)
  {
  }
}
