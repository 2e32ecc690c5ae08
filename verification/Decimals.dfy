/** Decimal numbers as std::to_string prints them and strtoull reads them. */
module Decimals {
  import opened Powers

  const ULLONG_MAX := 0xFFFF_FFFF_FFFF_FFFF

  function Digit(d: nat): (c: char)
    requires d < 10
  {
    "0123456789"[d]
  }

  predicate IsDigit(c: char) { '0' <= c <= '9' }

  function DigitValue(c: char): (d: nat)
    requires IsDigit(c)
    ensures d < 10 && Digit(d) == c
  {
    c as int - '0' as int
  }

  /** std::to_string. */
  function ToString(n: nat): (s: string)
    ensures |s| > 0 && forall i :: 0 <= i < |s| ==> IsDigit(s[i])
  {
    if n < 10 then [Digit(n)] else ToString(n / 10) + [Digit(n % 10)]
  }

  predicate IsSpace(c: char) { c in {' ', '\t', '\n', '\U{000B}', '\U{000C}', '\r'} }

  function SkipSpace(s: string): string
  {
    if s != [] && IsSpace(s[0]) then SkipSpace(s[1..]) else s
  }

  /** The digits at the front of s, read behind those that gave acc. */
  function ReadDigits(s: string, acc: nat): nat
  {
    if s == [] || !IsDigit(s[0]) then acc else ReadDigits(s[1..], 10 * acc + DigitValue(s[0]))
  }

  function Clamp(v: nat): nat
  {
    if v > ULLONG_MAX then ULLONG_MAX else v
  }

  /** strtoull with base 10: white space, a sign, digits; too large a number gives the largest one. */
  function Strtoull(s: string): (v: nat)
    ensures v <= ULLONG_MAX
  {
    var t := SkipSpace(s);
    if t != [] && t[0] == '-' then
      var v := ReadDigits(t[1..], 0);
      if v > ULLONG_MAX then ULLONG_MAX else if v == 0 then 0 else ULLONG_MAX + 1 - v
    else if t != [] && t[0] == '+' then Clamp(ReadDigits(t[1..], 0))
    else Clamp(ReadDigits(t, 0))
  }

  lemma {:induction false} ReadDigitsAppend(s: string, acc: nat, c: char)
    requires IsDigit(c) && forall i :: 0 <= i < |s| ==> IsDigit(s[i])
    ensures ReadDigits(s + [c], acc) == 10 * ReadDigits(s, acc) + DigitValue(c)
    decreases s
  {
    if s == [] {
      assert s + [c] == [c] && [c][1..] == [];
    } else {
      assert (s + [c])[1..] == s[1..] + [c];
      ReadDigitsAppend(s[1..], 10 * acc + DigitValue(s[0]), c);
    }
  }

  lemma {:induction false} ReadPrinted(n: nat)
    ensures ReadDigits(ToString(n), 0) == n
  {
    if n < 10 {
      assert ToString(n)[1..] == [];
    } else {
      ReadPrinted(n / 10);
      ReadDigitsAppend(ToString(n / 10), 0, Digit(n % 10));
    }
  }

  /** Reading a printed number gives it back. */
  lemma StrtoullOfPrinted(n: nat)
    requires n <= ULLONG_MAX
    ensures Strtoull(ToString(n)) == n
  {
    ReadPrinted(n);
    assert IsDigit(ToString(n)[0]);
  }

  lemma {:induction false} ReadDigitsStops(s: string, acc: nat, c: char, t: string)
    requires !IsDigit(c) && forall i :: 0 <= i < |s| ==> IsDigit(s[i])
    ensures ReadDigits(s + [c] + t, acc) == ReadDigits(s, acc)
    decreases s
  {
    if s != [] {
      assert (s + [c] + t)[1..] == s[1..] + [c] + t;
      ReadDigitsStops(s[1..], 10 * acc + DigitValue(s[0]), c, t);
    }
  }

  /** Reading stops at the first character that is no digit. */
  lemma StrtoullStops(n: nat, c: char, t: string)
    requires n <= ULLONG_MAX && !IsDigit(c)
    ensures Strtoull(ToString(n) + [c] + t) == n
  {
    var text := ToString(n) + [c] + t;
    assert IsDigit(text[0]) by {
      assert text[0] == ToString(n)[0];
    }
    ReadPrinted(n);
    ReadDigitsStops(ToString(n), 0, c, t);
  }

  /** The digits are those of the number to the base ten, from the right. */
  lemma {:induction false} DigitsOfPrinted(n: nat, k: nat)
    requires k < |ToString(n)|
    ensures Power10(k) > 0 && ToString(n)[|ToString(n)| - 1 - k] as int == '0' as int + n / Power10(k) % 10
    ensures k == |ToString(n)| - 1 && k > 0 ==> ToString(n)[0] != '0'
    decreases k
  {
    if n >= 10 {
      if k > 0 {
        DigitsOfPrinted(n / 10, k - 1);
        DivTwice(n, Power10(k - 1));
        LeadingDigit(n / 10);
      }
    }
  }

  function Power10(k: nat): (p: nat)
    ensures p > 0
  {
    if k == 0 then 1 else 10 * Power10(k - 1)
  }

  lemma DivTwice(n: nat, p: nat)
    requires p > 0
    ensures n / 10 / p == n / (10 * p)
  {
    var q, r := n / 10 / p, n / 10 % p;
    assert n / 10 == q * p + r;
    assert n == 10 * (n / 10) + n % 10;
    var rest := 10 * r + n % 10;
    assert n == q * (10 * p) + rest && 0 <= rest < 10 * p;
    DivModUnique(n, 10 * p, q, rest);
  }

  lemma {:induction false} LeadingDigit(n: nat)
    ensures n > 0 ==> ToString(n)[0] != '0'
  {
    if n >= 10 {
      LeadingDigit(n / 10);
    }
  }
}
