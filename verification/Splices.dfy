/** Overwriting part of a sequence: what the copies of this project do to their buffers. */
module Splices {

  /** b with the bytes from off on replaced by s. */
  function Splice<T>(b: seq<T>, off: nat, s: seq<T>): (r: seq<T>)
    requires off + |s| <= |b|
    ensures |r| == |b|
  {
    b[..off] + s + b[off + |s|..]
  }

  /** A slice that a splice does not touch. */
  lemma SpliceApart<T>(b: seq<T>, off: nat, s: seq<T>, lo: nat, hi: nat)
    requires off + |s| <= |b| && lo <= hi <= |b|
    requires hi <= off || off + |s| <= lo
    ensures Splice(b, off, s)[lo..hi] == b[lo..hi]
  {
    var r := Splice(b, off, s);
    forall i | lo <= i < hi
      ensures r[i] == b[i]
    {
      if i < off {
        assert r[i] == r[..off][i];
      } else {
        assert r[i] == r[off + |s|..][i - off - |s|];
      }
    }
  }

  /** Part of the bytes a splice wrote. */
  lemma SpliceInside<T>(b: seq<T>, off: nat, s: seq<T>, lo: nat, hi: nat)
    requires off + |s| <= |b| && lo <= hi <= |s|
    ensures Splice(b, off, s)[off + lo..off + hi] == s[lo..hi]
  {
    assert Splice(b, off, s)[off + lo..off + hi] == Splice(b, off, s)[off..off + |s|][lo..hi];
  }

  lemma SpliceAll<T>(b: seq<T>, s: seq<T>)
    requires |b| == |s|
    ensures Splice(b, 0, s) == s
  {
    assert Splice(b, 0, s)[0..|s|] == Splice(b, 0, s);
  }

  lemma SubSlice<T>(s: seq<T>, lo: nat, hi: nat, a: nat, b: nat)
    requires lo <= hi <= |s| && a <= b <= hi - lo
    ensures s[lo..hi][a..b] == s[lo + a..lo + b]
  {
    var part, x, y := s[lo..hi], s[lo..hi][a..b], s[lo + a..lo + b];
    forall k | 0 <= k < b - a
      ensures x[k] == y[k]
    {
      assert x[k] == part[a + k] && part[a + k] == s[lo + a + k];
    }
  }

  /** Two splices, the second right behind the first. */
  lemma SpliceAppend<T>(b: seq<T>, off: nat, s: seq<T>, t: seq<T>)
    requires off + |s| + |t| <= |b|
    ensures Splice(Splice(b, off, s), off + |s|, t) == Splice(b, off, s + t)
  {
    var r := Splice(b, off, s);
    assert r[..off + |s|] == b[..off] + s;
    assert r[off + |s| + |t|..] == b[off + |s| + |t|..];
  }

  /** Splices that do not overlap commute. */
  lemma SpliceCommute<T>(b: seq<T>, off: nat, s: seq<T>, at: nat, t: seq<T>)
    requires off + |s| <= at && at + |t| <= |b|
    ensures Splice(Splice(b, off, s), at, t) == Splice(Splice(b, at, t), off, s)
  {
    assert Splice(b, off, s)[..at] == b[..off] + s + b[off + |s|..at];
    assert Splice(b, off, s)[at + |t|..] == b[at + |t|..];
    assert Splice(b, at, t)[..off] == b[..off];
    assert Splice(b, at, t)[off + |s|..] == b[off + |s|..at] + t + b[at + |t|..];
  }

  lemma SpliceNothing<T>(s: seq<T>, at: nat)
    requires at <= |s|
    ensures Splice(s, at, []) == s
  {
  }

  lemma SpliceOne<T>(s: seq<T>, at: nat, v: T)
    requires at < |s|
    ensures s[at := v] == Splice(s, at, [v])
  {
  }

  lemma SplicePrefix<T>(b: seq<T>, s: seq<T>)
    requires |s| <= |b|
    ensures Splice(b, 0, s) == s + b[|s|..]
  {
  }

  lemma SpliceTail<T>(b: seq<T>, s: seq<T>)
    requires |s| <= |b|
    ensures Splice(b, 0, s)[|s|..] == b[|s|..]
  {
  }

  lemma SliceOfConcat<T>(a: seq<T>, m: seq<T>, c: seq<T>)
    ensures (a + m + c)[|a|..|a| + |m|] == m
  {
  }

  lemma SplitThree<T>(s: seq<T>, lo: nat, hi: nat)
    requires lo <= hi <= |s|
    ensures s == s[..lo] + s[lo..hi] + s[hi..]
  {
  }
}
