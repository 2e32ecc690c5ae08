/** Powers of two and the division facts that shift registers rest on. */
module Powers {

  function Pow2(n: nat): (p: nat)
    ensures p > 0
  {
    if n == 0 then 1 else 2 * Pow2(n - 1)
  }

  lemma Pow2Step(n: nat)
    requires n >= 1
    ensures Pow2(n) == 2 * Pow2(n - 1)
  {
  }

  lemma {:induction false} Pow2Add(a: nat, b: nat)
    ensures Pow2(a + b) == Pow2(a) * Pow2(b)
  {
    if a == 0 {
    } else {
      Pow2Add(a - 1, b);
      assert Pow2(a - 1 + b) == Pow2(a - 1) * Pow2(b);
      assert Pow2(a + b) == 2 * Pow2(a + b - 1);
    }
  }

  lemma {:induction false} Pow2Monotone(a: nat, b: nat)
    requires a <= b
    ensures Pow2(a) <= Pow2(b)
    decreases b
  {
    if a < b {
      Pow2Monotone(a, b - 1);
    }
  }

  lemma Pow2StrictlyMonotone(a: nat, b: nat)
    requires a < b
    ensures 2 * Pow2(a) <= Pow2(b)
  {
    Pow2Monotone(a + 1, b);
  }

  /** The quotient and remainder of x by d are the only pair that recombines to x. */
  lemma DivModUnique(x: int, d: nat, q: int, r: int)
    requires d > 0 && x == q * d + r && 0 <= r < d
    ensures x / d == q && x % d == r
  {
    var q', r' := x / d, x % d;
    assert x == q' * d + r';
    assert (q - q') * d == r' - r;
    if q > q' {
      MulMonotone(1, q - q', d);
    } else if q < q' {
      MulMonotone(q - q', -1, d);
    }
  }

  lemma MulMonotone(a: int, b: int, k: nat)
    requires a <= b
    ensures a * k <= b * k
  {
  }

  lemma MulStrict(a: int, b: int, k: nat)
    requires a < b && k > 0
    ensures a * k < b * k
  {
  }

  /** A positive common factor cancels. */
  lemma MulCancel(a: int, b: int, k: nat)
    requires k > 0
    ensures a * k <= b * k <==> a <= b
    ensures a * k == b * k <==> a == b
  {
    if a < b {
      MulStrict(a, b, k);
    } else if b < a {
      MulStrict(b, a, k);
    }
  }

  /** A product, as a recurrence: i steps of n. */
  function Times(i: nat, n: nat): nat
  {
    if i == 0 then 0 else Times(i - 1, n) + n
  }

  lemma {:induction false} TimesIs(i: nat, n: nat)
    ensures Times(i, n) == i * n
  {
    if i > 0 {
      TimesIs(i - 1, n);
      OneLessTimes(i, n);
    }
  }

  lemma OneLessTimes(i: int, n: int)
    ensures (i - 1) * n + n == i * n
  {
  }

  lemma {:induction false} TimesMonotone(i: nat, j: nat, n: nat)
    requires i <= j
    ensures Times(i, n) <= Times(j, n)
  {
    if i < j {
      TimesMonotone(i, j - 1, n);
    }
  }

  /** Rounding a quotient up. */
  lemma CeilDiv(a: nat, b: nat)
    requires b > 0
    ensures var q := (a + b - 1) / b; q >= 0 && a <= Times(q, b) < a + b
  {
    var x := a + b - 1;
    var q, m := x / b, x % b;
    assert x == b * q + m && 0 <= m < b;
    if q < 0 {
      MulMonotone(q, -1, b);
    }
    TimesIs(q, b);
    assert q * b == b * q;
  }
}
