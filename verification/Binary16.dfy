/**
 The binary16 format (section 3.4 of IEEE 754-2008) and roundTiesToEven (section 4.3.1),
 restricted to finite halves, as a specification that mentions no algorithm.

 Every finite half is an integer multiple of 2^-24, so values are written as integers
 in that unit. An exact real result is a rational n / d in the same unit.
 */
module Binary16 {
  import opened Powers

  /** The 16-bit word of an Fp16T. */
  type Half = h: nat | h < 0x10000

  const MAX_EXP := 31
  const HIDE_BIT := 0x400
  const MAX_BITS := 0x7BFF
  /** 65504 in units of 2^-24. */
  const MAX_MAG := 0x7FF * 0x2000_0000

  function SignOf(h: Half): nat { h / 0x8000 }
  function ExpField(h: Half): nat { h / 0x400 % 0x20 }
  function Fraction(h: Half): nat { h % 0x400 }

  predicate Finite(h: Half) { ExpField(h) != MAX_EXP }

  /** The FP16_EXTRAC_MAN macro: the fraction with the hidden bit of a normal number. */
  function Significand(h: Half): (m: nat)
    ensures m < 0x800
  {
    Fraction(h) + if ExpField(h) > 0 then HIDE_BIT else 0
  }

  /** The exponent ExtractFP16 returns: a subnormal counts as exponent 1. */
  function Exponent(h: Half): (e: nat)
    ensures 1 <= e <= 31
  {
    if ExpField(h) == 0 then 1 else ExpField(h)
  }

  function Mag(h: Half): nat {
    Significand(h) * Pow2(Exponent(h) - 1)
  }

  function Val(h: Half): int {
    var m: int := Mag(h);
    if SignOf(h) == 1 then -m else m
  }

  /** A magnitude with a sign bit. */
  function Signify(s: nat, m: int): int { if s == 1 then -m else m }

  function Abs(x: int): nat { if x < 0 then -x else x }

  function Distance(h: Half, n: int, d: nat): nat { Abs(Val(h) * d - n) }

  /**
   h is the finite half nearest to n / d; among equally near halves of different value
   it is the one whose last significand bit is 0. Since 65504 is the largest finite half,
   a result beyond it is nearest to 65504: this is rounding with saturation.
   */
  ghost predicate NearestEven(h: Half, n: int, d: nat)
  {
    && Finite(h)
    && forall g: Half :: Finite(g) ==> CloserOrEven(h, g, n, d)
  }

  predicate CloserOrEven(h: Half, g: Half, n: int, d: nat)
  {
    && Distance(h, n, d) <= Distance(g, n, d)
    && (Distance(h, n, d) == Distance(g, n, d) && Val(h) != Val(g) ==> h % 2 == 0)
  }

  /** The FP16_CONSTRUCTOR macro for a sign bit, a 5-bit exponent field and any significand. */
  function Pack(s: nat, e: nat, m: nat): (h: Half)
    requires s <= 1 && e < 32
  {
    s * 0x8000 + e * 0x400 + m % 0x400
  }

  /**
   The word of significand q at exponent e >= 1: consecutive words are consecutive halves,
   so a carry out of the significand (q == 0x800) needs no case of its own.
   */
  function Encode(s: nat, e: nat, q: nat): (h: Half)
    requires s <= 1 && e >= 1
    ensures Finite(h) && SignOf(h) == s
  {
    var bits := (e - 1) * 0x400 + q;
    s * 0x8000 + if bits <= MAX_BITS then bits else MAX_BITS
  }

  lemma EvenPlus(x: int, q: int)
    ensures (2 * x + q) % 2 == q % 2
  {
  }

  lemma EncodeFields(s: nat, e: nat, q: nat)
    requires s <= 1 && e >= 1 && (e - 1) * 0x400 + q <= MAX_BITS
    requires q <= 0x800 && (e == 1 || q >= 0x400)
    ensures Mag(Encode(s, e, q)) == q * Pow2(e - 1)
    ensures Encode(s, e, q) % 2 == q % 2
  {
    hide Pow2, SignOf, ExpField, Fraction;
    var h, k := Encode(s, e, q), (e - 1) * 0x400 + q;
    WordFields(s, k);
    EvenPlus((e - 1) * 0x200, q);
    Pow2Step(e);
    if q < 0x400 {
      DivModUnique(k, 0x400, 0, q);
      assert Exponent(h) == e && Significand(h) == q;
    } else if q < 0x800 {
      DivModUnique(k, 0x400, e, q - 0x400);
      assert Exponent(h) == e && Significand(h) == q;
    } else {
      DivModUnique(k, 0x400, e + 1, 0);
      assert Exponent(h) == e + 1 && Significand(h) == 0x400;
    }
  }

  /** The fields of a word put together from a sign bit and 15 further bits. */
  lemma WordFields(s: nat, k: nat)
    requires s <= 1 && k < 0x8000
    ensures var h: Half := s * 0x8000 + k;
            && SignOf(h) == s && h % 0x8000 == k && h % 2 == k % 2
            && ExpField(h) == k / 0x400 && Fraction(h) == k % 0x400
  {
  }

  lemma Pow2Of29()
    ensures Pow2(29) == 0x2000_0000
  {
    Pow2Add(10, 10);
    Pow2Add(20, 9);
    assert Pow2(10) == 0x400 && Pow2(9) == 0x200;
  }

  lemma MagBound(h: Half)
    requires Finite(h)
    ensures Mag(h) <= MAX_MAG
  {
    Pow2Of29();
    Pow2Monotone(Exponent(h) - 1, 29);
    MulMonotone(Significand(h), 0x7FF, Pow2(Exponent(h) - 1));
    assert 0x7FF * Pow2(Exponent(h) - 1) <= MAX_MAG;
  }

  // ---------------------------------------------------------------- rounding

  /** Whether a remainder r out of R rounds the quotient q0 up under roundTiesToEven. */
  predicate RoundsUp(q0: nat, r: nat, R: nat)
  {
    2 * r > R || (2 * r == R && q0 % 2 == 1)
  }

  function Rounded(q0: nat, r: nat, R: nat): nat {
    q0 + if RoundsUp(q0, r, R) then 1 else 0
  }

  lemma SumTimes(a: int, b: int, R: nat)
    ensures (a + b) * R == a * R + b * R
  {
  }

  /** No integer is nearer to q0 + r / R than Rounded, and it is even in a tie. */
  lemma RoundedIsNearest(q0: nat, r: nat, R: nat, k: int)
    requires r < R
    ensures Abs(Rounded(q0, r, R) * R - (q0 * R + r)) <= Abs(k * R - (q0 * R + r))
    ensures Abs(Rounded(q0, r, R) * R - (q0 * R + r)) == Abs(k * R - (q0 * R + r)) && k != Rounded(q0, r, R)
            ==> Rounded(q0, r, R) % 2 == 0
  {
    var j := k - q0;
    var jR, qR := j * R, q0 * R;
    SumTimes(q0, j, R);
    SumTimes(q0, 1, R);
    if j <= -1 {
      MulMonotone(j, -1, R);
    } else if j >= 2 {
      MulMonotone(2, j, R);
    } else {
      assert jR == 0 || jR == R;
    }
  }

  /**
   The shape every operation's rounding ends in: the exact magnitude n / d equals
   (q0 + r / R) * 2^(e-1), with q0 normalised at exponent e or e == 1.
   */
  ghost predicate Aligned(n: nat, d: nat, e: nat, q0: nat, r: nat, R: nat)
  {
    && e >= 1 && d > 0 && r < R && q0 < 0x800
    && (e == 1 || q0 >= 0x400)
    && n * R == (q0 * R + r) * (Pow2(e - 1) * d)
  }

  lemma AbsScale(x: int, y: int, k: nat)
    requires k > 0
    ensures Abs(x * k) == Abs(x) * k
    ensures Abs(x * k) <= Abs(y * k) <==> Abs(x) <= Abs(y)
    ensures Abs(x * k) == Abs(y * k) <==> Abs(x) == Abs(y)
  {
    assert Abs(x * k) == Abs(x) * k && Abs(y * k) == Abs(y) * k;
    MulCancel(Abs(x), Abs(y), k);
  }

  /** Comparing two distances is the same after multiplying them by R > 0. */
  lemma ScaledDistance(a: nat, n: nat, d: nat, W: nat, P: nat, R: nat)
    requires n * R == W * (P * d)
    ensures (a * d - n) * R == (a * R - W * P) * d
  {
    assert a * d * R == a * R * d;
    assert W * (P * d) == W * P * d;
  }

  /** A magnitude with a larger or equal exponent is a multiple of the unit in the last place. */
  lemma NearCoarse(e: nat, q0: nat, r: nat, R: nat, mg: nat, eg: nat)
    requires 1 <= e <= eg && r < R
    ensures var P, a, q, W := Pow2(e - 1), mg * Pow2(eg - 1), Rounded(q0, r, R), q0 * R + r;
            && Abs(q * P * R - W * P) <= Abs(a * R - W * P)
            && (Abs(q * P * R - W * P) == Abs(a * R - W * P) && a != q * P ==> q % 2 == 0)
  {
    hide Rounded, Pow2;
    var P, q, W := Pow2(e - 1), Rounded(q0, r, R), q0 * R + r;
    var k := mg * Pow2(eg - e);
    Pow2Add(e - 1, eg - e);
    Regroup(mg, P, Pow2(eg - e));
    RoundedIsNearest(q0, r, R, k);
    Factor(k, R, W, P);
    Factor(q, R, W, P);
    AbsScale(q * R - W, k * R - W, P);
  }

  lemma Regroup(a: nat, b: nat, c: nat)
    ensures a * (b * c) == a * c * b
  {
  }

  lemma Factor(k: nat, R: nat, W: nat, P: nat)
    ensures k * P * R - W * P == (k * R - W) * P
  {
    assert k * P * R == k * R * P;
  }

  /** A magnitude with a smaller exponent lies strictly below every normalised one. */
  lemma NearFine(e: nat, q0: nat, r: nat, R: nat, mg: nat, eg: nat)
    requires 1 <= eg < e && r < R && 0x400 <= q0 && mg < 0x800
    ensures var P, a, q, W := Pow2(e - 1), mg * Pow2(eg - 1), Rounded(q0, r, R), q0 * R + r;
            Abs(q * P * R - W * P) < Abs(a * R - W * P)
  {
    hide Rounded, Pow2;
    var P, a, q, W := Pow2(e - 1), mg * Pow2(eg - 1), Rounded(q0, r, R), q0 * R + r;
    Pow2StrictlyMonotone(eg - 1, e - 1);
    FineBelow(mg, Pow2(eg - 1), q0, P);
    FineDistance(a, q0, r, R, P);
    RoundedIsNearest(q0, r, R, q0);
    Factor(q, R, W, P);
    AbsScale(q * R - W, r, P);
  }

  lemma FineBelow(mg: nat, Q: nat, q0: nat, P: nat)
    requires mg < 0x800 && 0x400 <= q0 && 0 < 2 * Q <= P
    ensures mg * Q < q0 * P
  {
    MulStrict(mg, 0x800, Q);
    MulMonotone(0x400, q0, P);
  }

  lemma FineDistance(a: nat, q0: nat, r: nat, R: nat, P: nat)
    requires a < q0 * P && R > 0
    ensures r * P < Abs(a * R - (q0 * R + r) * P)
  {
    MulStrict(a, q0 * P, R);
    Factor(q0, R, q0 * R + r, P);
    assert (q0 * R - (q0 * R + r)) * P == -(r * P) by {
      var x: int := r;
      assert q0 * R - (q0 * R + r) == -x;
    }
  }

  /** Nearest among magnitudes, when the rounded magnitude is representable. */
  lemma NearMagnitude(n: nat, d: nat, e: nat, q0: nat, r: nat, R: nat, g: Half)
    requires Aligned(n, d, e, q0, r, R) && Finite(g)
    ensures var q := Rounded(q0, r, R);
            && Abs(q * Pow2(e - 1) * d - n) <= Abs(Mag(g) * d - n)
            && (Abs(q * Pow2(e - 1) * d - n) == Abs(Mag(g) * d - n) && Mag(g) != q * Pow2(e - 1) ==> q % 2 == 0)
  {
    hide Rounded, Pow2;
    var q, P, W := Rounded(q0, r, R), Pow2(e - 1), q0 * R + r;
    var h := q * P;
    ScaledDistance(h, n, d, W, P, R);
    ScaledDistance(Mag(g), n, d, W, P, R);
    var x, y := h * R - W * P, Mag(g) * R - W * P;
    assert Abs(x) <= Abs(y) && (Abs(x) == Abs(y) && Mag(g) != h ==> q % 2 == 0) by {
      if Exponent(g) >= e {
        NearCoarse(e, q0, r, R, Significand(g), Exponent(g));
      } else {
        NearFine(e, q0, r, R, Significand(g), Exponent(g));
      }
    }
    AbsScale(x, y, d);
    AbsScale(h * d - n, Mag(g) * d - n, R);
  }

  /** Past the largest finite half the exact magnitude is at least 65504. */
  lemma SaturatedIsLarge(n: nat, d: nat, e: nat, q0: nat, r: nat, R: nat)
    requires Aligned(n, d, e, q0, r, R)
    requires (e - 1) * 0x400 + Rounded(q0, r, R) > MAX_BITS
    ensures n >= MAX_MAG * d
  {
    var P := Pow2(e - 1);
    Pow2Of29();
    assert q0 * P >= MAX_MAG by {
      if e >= 31 {
        Pow2Monotone(30, e - 1);
        assert Pow2(30) == 2 * Pow2(29);
        MulMonotone(0x400, q0, P);
      } else {
        assert e == 30 && q0 == 0x7FF;
      }
    }
    assert n * R >= q0 * P * d * R by {
      assert (q0 * R + r) * (P * d) == q0 * P * d * R + r * (P * d);
    }
    MulCancel(q0 * P * d, n, R);
    MulMonotone(MAX_MAG, q0 * P, d);
  }

  /** Encoding the rounded significand, with saturation, is nearest among magnitudes. */
  lemma EncodeNearMagnitude(s: nat, n: nat, d: nat, e: nat, q0: nat, r: nat, R: nat, g: Half)
    requires s <= 1 && Aligned(n, d, e, q0, r, R) && Finite(g)
    ensures var h := Encode(s, e, Rounded(q0, r, R));
            && Abs(Mag(h) * d - n) <= Abs(Mag(g) * d - n)
            && (Abs(Mag(h) * d - n) == Abs(Mag(g) * d - n) && Mag(g) != Mag(h) ==> h % 2 == 0)
  {
    hide Rounded, Pow2;
    var q := Rounded(q0, r, R);
    var h := Encode(s, e, q);
    RoundedBound(q0, r, R);
    if (e - 1) * 0x400 + q <= MAX_BITS {
      EncodeFields(s, e, q);
      NearMagnitude(n, d, e, q0, r, R, g);
    } else {
      SaturatedIsLarge(n, d, e, q0, r, R);
      MagOfMax(s);
      MagBound(g);
      LargeIsNearest(Mag(g), MAX_MAG, n, d);
    }
  }

  lemma MagOfMax(s: nat)
    requires s <= 1
    ensures Mag(s * 0x8000 + MAX_BITS) == MAX_MAG
  {
    Pow2Of29();
    WordFields(s, MAX_BITS);
  }

  lemma RoundedBound(q0: nat, r: nat, R: nat)
    ensures q0 <= Rounded(q0, r, R) <= q0 + 1
  {
  }

  lemma LargeIsNearest(a: nat, b: nat, n: nat, d: nat)
    requires a <= b && n >= b * d && d > 0
    ensures Abs(b * d - n) <= Abs(a * d - n)
    ensures Abs(b * d - n) == Abs(a * d - n) ==> a == b
  {
    MulCancel(a, b, d);
    MulMonotone(a, b, d);
  }

  lemma SignedProduct(h: Half, d: nat)
    ensures Val(h) * d == if SignOf(h) == 1 then 0 - Mag(h) * d else Mag(h) * d
  {
  }

  /** When x has the sign of n, it is as near to n as its magnitude a is to that of n. */
  lemma SignedDistances(s: nat, a: nat, x: int, t: nat, b: nat, y: int, n: int)
    requires SignAgrees(s, n) && (n == 0 ==> a == 0) && x == Signify(s, a) && y == Signify(t, b)
    requires Abs(a - Abs(n)) <= Abs(b - Abs(n))
    ensures Abs(x - n) <= Abs(y - n)
    ensures Abs(x - n) == Abs(y - n) && x != y ==> Abs(a - Abs(n)) == Abs(b - Abs(n)) && a != b
  {
  }

  /** A half whose sign agrees with n is nearest as soon as its magnitude is. */
  lemma SignedFromMagnitude(h: Half, g: Half, n: int, d: nat)
    requires d > 0 && SignAgrees(SignOf(h), n)
    requires n == 0 ==> Mag(h) == 0
    requires Abs(Mag(h) * d - Abs(n)) <= Abs(Mag(g) * d - Abs(n))
    requires Abs(Mag(h) * d - Abs(n)) == Abs(Mag(g) * d - Abs(n)) && Mag(g) != Mag(h) ==> h % 2 == 0
    ensures CloserOrEven(h, g, n, d)
  {
    hide Mag, Val, SignOf, Abs;
    SignedProduct(h, d);
    SignedProduct(g, d);
    SignedDistances(SignOf(h), Mag(h) * d, Val(h) * d, SignOf(g), Mag(g) * d, Val(g) * d, n);
    MulCancel(Val(h), Val(g), d);
  }

  /** The sign bit s suits the exact value n; zero takes either sign. */
  predicate SignAgrees(s: nat, n: int)
  {
    s <= 1 && (n > 0 ==> s == 0) && (n < 0 ==> s == 1)
  }

  lemma MagOfZero()
    ensures Mag(0) == 0 && Finite(0)
  {
    WordFields(0, 0);
    assert Significand(0) == 0;
  }

  lemma AlignedScale(n: nat, d: nat, e: nat, q0: nat, r: nat, R: nat)
    requires Aligned(n, d, e, q0, r, R)
    ensures d > 0
  {
  }

  /**
   The theorem every operation rests on: rounding an aligned magnitude to nearest even
   and encoding it gives the nearest-even half of the signed exact value.
   */
  lemma EncodeIsNearestEven(s: nat, n: int, d: nat, e: nat, q0: nat, r: nat, R: nat)
    requires e >= 1 && SignAgrees(s, n)
    requires Aligned(Abs(n), d, e, q0, r, R)
    ensures NearestEven(Encode(s, e, Rounded(q0, r, R)), n, d)
  {
    hide Aligned, Rounded, Mag, CloserOrEven;
    var h := Encode(s, e, Rounded(q0, r, R));
    AlignedScale(Abs(n), d, e, q0, r, R);
    if n == 0 {
      EncodeNearMagnitude(s, 0, d, e, q0, r, R, 0);
      MagOfZero();
      MulCancel(Mag(h), 0, d);
    }
    forall g: Half | Finite(g)
      ensures CloserOrEven(h, g, n, d)
    {
      EncodeNearMagnitude(s, Abs(n), d, e, q0, r, R, g);
      SignedFromMagnitude(h, g, n, d);
    }
  }

  // -------------------------------------------- uniqueness and monotonicity

  /** The low 15 bits of a word order its magnitude. */
  lemma MagStrictlyMonotone(a: Half, b: Half)
    ensures a % 0x8000 < b % 0x8000 <==> Mag(a) < Mag(b)
    ensures a % 0x8000 == b % 0x8000 <==> Mag(a) == Mag(b)
  {
    LowBits(a);
    LowBits(b);
    if a % 0x8000 < b % 0x8000 {
      MagLess(a, b);
    } else if b % 0x8000 < a % 0x8000 {
      MagLess(b, a);
    }
  }

  /** The 15 bits below the sign are the exponent field and the fraction. */
  lemma LowBits(h: Half)
    ensures h == SignOf(h) * 0x8000 + h % 0x8000
    ensures h % 0x8000 == ExpField(h) * 0x400 + Fraction(h)
    ensures ExpField(h) == h % 0x8000 / 0x400 && Fraction(h) == h % 0x8000 % 0x400
  {
  }

  lemma MagLess(a: Half, b: Half)
    requires a % 0x8000 < b % 0x8000
    ensures Mag(a) < Mag(b)
  {
    LowBits(a);
    LowBits(b);
    var ea, eb, ma, mb := Exponent(a), Exponent(b), Significand(a), Significand(b);
    if ea == eb {
      MulStrict(ma, mb, Pow2(ea - 1));
    } else {
      assert ea < eb && mb >= 0x400;
      Pow2StrictlyMonotone(ea - 1, eb - 1);
      MulStrict(ma, 0x800, Pow2(ea - 1));
      MulMonotone(0x400, mb, Pow2(eb - 1));
    }
  }

  /** Two finite halves with even words and different values have a half strictly between them. */
  lemma EvenNeighbour(a: Half, b: Half) returns (m: Half)
    requires Finite(a) && Finite(b) && Val(a) < Val(b) && a % 2 == 0 && b % 2 == 0
    ensures Finite(m) && Val(a) < Val(m) < Val(b)
  {
    MagStrictlyMonotone(a, b);
    MagOfZero();
    hide Mag, Finite;
    if Val(a) >= 0 {
      m := Between(a, b);
    } else if Val(b) <= 0 {
      m := Between(b, a);
      m := 0x8000 + m;
    } else {
      m := 0;
    }
  }

  /** The word after an even one is below the next larger even one. */
  lemma Between(a: Half, b: Half) returns (m: Half)
    requires Finite(a) && Finite(b) && Mag(a) < Mag(b) && a % 2 == 0 && b % 2 == 0
    ensures m < 0x7C00 && Finite(m) && Finite(0x8000 + m)
    ensures Mag(a) < Mag(m) < Mag(b) && Mag(0x8000 + m) == Mag(m)
    ensures SignOf(m) == 0 && SignOf(0x8000 + m) == 1
  {
    hide Mag, Finite;
    MagStrictlyMonotone(a, b);
    FiniteBits(b);
    LowBitParity(a);
    LowBitParity(b);
    m := a % 0x8000 + 1;
    WithSign(m);
    assert m % 0x8000 == m < b % 0x8000;
    MagStrictlyMonotone(a, m);
    MagStrictlyMonotone(m, b);
  }

  lemma LowBitParity(h: Half)
    ensures h % 0x8000 % 2 == h % 2
  {
  }

  lemma FiniteBits(h: Half)
    ensures Finite(h) <==> h % 0x8000 < 0x7C00
  {
    LowBits(h);
  }

  /** Setting the sign bit changes the sign only. */
  lemma WithSign(k: Half)
    requires k < 0x7C00
    ensures Finite(k) && Finite(0x8000 + k)
    ensures SignOf(k) == 0 && SignOf(0x8000 + k) == 1 && Mag(0x8000 + k) == Mag(k)
  {
    hide Mag;
    WordFields(0, k);
    WordFields(1, k);
    MagStrictlyMonotone(k, 0x8000 + k);
  }

  /** Rounding to nearest even is monotone: it never reverses the order of two exact values. */
  lemma NearestEvenMonotone(a: Half, b: Half, n: int, k: int, d: nat)
    requires d > 0 && n <= k && NearestEven(a, n, d) && NearestEven(b, k, d)
    ensures Val(a) <= Val(b)
  {
    assert CloserOrEven(a, b, n, d) && CloserOrEven(b, a, k, d);
    if Val(b) < Val(a) {
      MulStrict(Val(b), Val(a), d);
      assert n == k && Distance(a, n, d) == Distance(b, n, d);
      var m := EvenNeighbour(b, a);
      assert CloserOrEven(a, m, n, d);
      MulStrict(Val(b), Val(m), d);
      MulStrict(Val(m), Val(a), d);
    }
  }

  /** The specification determines the value of the result. */
  lemma NearestEvenUnique(a: Half, b: Half, n: int, d: nat)
    requires d > 0 && NearestEven(a, n, d) && NearestEven(b, n, d)
    ensures Val(a) == Val(b)
    ensures SignOf(a) == SignOf(b) ==> a == b
  {
    NearestEvenMonotone(a, b, n, n, d);
    NearestEvenMonotone(b, a, n, n, d);
    MagStrictlyMonotone(a, b);
  }

  /** A half rounds to itself. */
  lemma ExactIsNearest(a: Half, h: Half, d: nat)
    requires d > 0 && Finite(h) && NearestEven(a, Val(h) * d, d)
    ensures Val(a) == Val(h)
    ensures SignOf(a) == SignOf(h) ==> a == h
  {
    assert CloserOrEven(a, h, Val(h) * d, d);
    assert (Val(a) - Val(h)) * d == 0;
    MulCancel(Val(a), Val(h), d);
    MagStrictlyMonotone(a, h);
  }
}
