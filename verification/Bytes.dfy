/** Byte buffers: little-endian words, memcpy_s, and the 8-byte slots of an argument array. */
module Bytes {
  import opened Splices

  type Byte = b: int | 0 <= b < 256

  const TWO64 := 0x1_0000_0000_0000_0000

  /** 256^n. */
  function Limit(n: nat): (r: nat)
    ensures r > 0
  {
    if n == 0 then 1 else 256 * Limit(n - 1)
  }

  lemma LimitValues()
    ensures Limit(4) == 0x1_0000_0000 && Limit(8) == TWO64
  {
    assert Limit(2) == 256 * Limit(1) && Limit(3) == 256 * Limit(2) && Limit(4) == 256 * Limit(3);
    assert Limit(5) == 256 * Limit(4) && Limit(6) == 256 * Limit(5);
    assert Limit(7) == 256 * Limit(6) && Limit(8) == 256 * Limit(7);
  }

  /** The n little-endian bytes of w. */
  function ToBytes(w: nat, n: nat): (s: seq<Byte>)
    ensures |s| == n
  {
    if n == 0 then [] else [w % 256] + ToBytes(w / 256, n - 1)
  }

  function FromBytes(s: seq<Byte>): nat
  {
    if s == [] then 0 else s[0] + 256 * FromBytes(s[1..])
  }

  lemma {:induction false} FromToBytes(w: nat, n: nat)
    requires w < Limit(n)
    ensures FromBytes(ToBytes(w, n)) == w
  {
    if n > 0 {
      FromToBytes(w / 256, n - 1);
      assert ToBytes(w, n)[1..] == ToBytes(w / 256, n - 1);
    }
  }

  lemma {:induction false} FromBytesBound(s: seq<Byte>)
    ensures FromBytes(s) < Limit(|s|)
  {
    if s != [] {
      FromBytesBound(s[1..]);
    }
  }

  function Zeros(n: nat): (s: seq<Byte>)
    ensures |s| == n && forall i :: 0 <= i < n ==> s[i] == 0
  {
    seq(n, _ => 0)
  }

  lemma {:induction false} FromZeros(n: nat)
    ensures FromBytes(Zeros(n)) == 0
  {
    if n > 0 {
      FromZeros(n - 1);
      assert Zeros(n)[1..] == Zeros(n - 1);
    }
  }

  /** Copying bytes into a buffer. */
  method Store(dst: array<Byte>, off: nat, src: seq<Byte>)
    requires off + |src| <= dst.Length
    modifies dst
    ensures dst[..] == Splice(old(dst[..]), off, src)
  {
    for i := 0 to |src|
      invariant dst[..off] == old(dst[..off])
      invariant dst[off..off + i] == src[..i]
      invariant dst[off + i..] == old(dst[off + i..])
    {
      dst[off + i] := src[i];
      assert dst[off..off + i + 1] == dst[off..off + i] + [src[i]];
    }
    assert dst[..] == dst[..off] + dst[off..off + |src|] + dst[off + |src|..];
  }

  /** memcpy_s: a source longer than destMax fails and clears the destination (annex K of C11). */
  method MemcpyS(dst: array<Byte>, off: nat, destMax: nat, src: seq<Byte>) returns (ok: bool)
    requires off + destMax <= dst.Length
    modifies dst
    ensures ok == (|src| <= destMax)
    ensures dst[..] == Splice(old(dst[..]), off, if ok then src else Zeros(destMax))
  {
    ok := |src| <= destMax;
    if ok {
      Store(dst, off, src);
    } else {
      Store(dst, off, Zeros(destMax));
    }
  }

  // ---------------------------------------------------- pointer-size slots

  /** The first n 8-byte words of a buffer, as the void* slots of an argument array. */
  function Slots(b: seq<Byte>, n: nat): (r: seq<nat>)
    requires 8 * n <= |b|
    ensures |r| == n
  {
    seq(n, i requires 0 <= i < n => FromBytes(b[8 * i..8 * i + 8]))
  }

  /** The slots of a run of words are the words. */
  lemma SlotsOfWords(words: seq<nat>)
    requires forall i :: 0 <= i < |words| ==> words[i] < TWO64
    ensures Slots(WordBytes(words), |words|) == words
  {
    hide WordBytes, FromBytes;
    forall i | 0 <= i < |words|
      ensures Slots(WordBytes(words), |words|)[i] == words[i]
    {
      SlotOfWord(words, i);
    }
  }

  lemma SlotOfWord(words: seq<nat>, i: nat)
    requires i < |words| && words[i] < TWO64
    ensures FromBytes(WordBytes(words)[8 * i..8 * i + 8]) == words[i]
  {
    hide WordBytes, ToBytes, FromBytes, Limit;
    LimitValues();
    WordBytesSlice(words, i, i + 1);
    assert words[i..i + 1] == [words[i]];
    assert 8 * (i + 1) == 8 * i + 8;
    WordBytesOne(words[i]);
    FromToBytes(words[i], 8);
  }

  lemma WordBytesOne(w: nat)
    ensures WordBytes([w]) == ToBytes(w, 8)
  {
    assert [w][..0] == [];
  }

  /** Writing one slot changes that slot only. */
  lemma SlotsOfSplice(b: seq<Byte>, n: nat, idx: nat, w: nat)
    requires 8 * n <= |b| && idx < n && w < TWO64
    ensures Slots(Splice(b, 8 * idx, ToBytes(w, 8)), n) == Slots(b, n)[idx := w]
  {
    var s := ToBytes(w, 8);
    var r := Splice(b, 8 * idx, s);
    LimitValues();
    FromToBytes(w, 8);
    forall i | 0 <= i < n
      ensures Slots(r, n)[i] == Slots(b, n)[idx := w][i]
    {
      if i != idx {
        SpliceApart(b, 8 * idx, s, 8 * i, 8 * i + 8);
      }
    }
  }

  /** Clearing the slot area makes every slot null. */
  lemma SlotsOfZeros(b: seq<Byte>, n: nat)
    requires 8 * n <= |b|
    ensures Slots(Splice(b, 0, Zeros(8 * n)), n) == seq(n, _ => 0)
  {
    var r := Splice(b, 0, Zeros(8 * n));
    FromZeros(8);
    forall i | 0 <= i < n
      ensures Slots(r, n)[i] == 0
    {
      SpliceInside(b, 0, Zeros(8 * n), 8 * i, 8 * i + 8);
      assert r[8 * i..8 * i + 8] == Zeros(8);
    }
  }

  /** The bytes of a run of 64-bit words. */
  function WordBytes(words: seq<nat>): (r: seq<Byte>)
    ensures |r| == 8 * |words|
  {
    if words == [] then [] else WordBytes(words[..|words| - 1]) + ToBytes(words[|words| - 1], 8)
  }

  lemma {:induction false} WordBytesAppend(a: seq<nat>, b: seq<nat>)
    ensures WordBytes(a + b) == WordBytes(a) + WordBytes(b)
  {
    hide ToBytes;
    if b == [] {
      assert a + b == a;
    } else {
      WordBytesAppend(a, b[..|b| - 1]);
      assert (a + b)[..|a + b| - 1] == a + b[..|b| - 1];
    }
  }

  /** The bytes of a middle part are the middle part of the bytes. */
  lemma WordBytesMiddle(words: seq<nat>, a: seq<nat>, m: seq<nat>, c: seq<nat>, lo: nat, hi: nat)
    requires words == a + m + c && lo == 8 * |a| && hi == lo + 8 * |m|
    ensures hi <= 8 * |words| && WordBytes(words)[lo..hi] == WordBytes(m)
  {
    hide WordBytes;
    WordBytesAppend(a + m, c);
    WordBytesAppend(a, m);
    SliceOfConcat(WordBytes(a), WordBytes(m), WordBytes(c));
  }

  lemma WordBytesSlice(words: seq<nat>, lo: nat, hi: nat)
    requires lo <= hi <= |words|
    ensures WordBytes(words)[8 * lo..8 * hi] == WordBytes(words[lo..hi])
  {
    hide WordBytes;
    SplitThree(words, lo, hi);
    WordBytesMiddle(words, words[..lo], words[lo..hi], words[hi..], 8 * lo, 8 * hi);
  }

  lemma {:induction false} ToFromBytes(s: seq<Byte>)
    ensures ToBytes(FromBytes(s), |s|) == s
  {
    if s != [] {
      ToFromBytes(s[1..]);
      assert FromBytes(s) % 256 == s[0] && FromBytes(s) / 256 == FromBytes(s[1..]);
    }
  }

  /** A buffer of whole words is determined by its slots. */
  lemma {:induction false} SlotsDetermineBytes(b: seq<Byte>, n: nat)
    requires 8 * n <= |b|
    ensures b[..8 * n] == WordBytes(Slots(b, n))
  {
    hide ToBytes, FromBytes;
    if n > 0 {
      SlotsDetermineBytes(b, n - 1);
      var s := b[8 * (n - 1)..8 * n];
      assert Slots(b, n)[..n - 1] == Slots(b, n - 1) && Slots(b, n)[n - 1] == FromBytes(s);
      ToFromBytes(s);
      assert b[..8 * n] == b[..8 * (n - 1)] + s;
    }
  }

  method WriteSlot(dst: array<Byte>, n: nat, idx: nat, w: nat)
    requires 8 * n <= dst.Length && idx < n && w < TWO64
    modifies dst
    ensures Slots(dst[..], n) == Slots(old(dst[..]), n)[idx := w]
    ensures dst[8 * n..] == old(dst[8 * n..])
  {
    ghost var b := dst[..];
    Store(dst, 8 * idx, ToBytes(w, 8));
    SlotsOfSplice(b, n, idx, w);
    SpliceApart(b, 8 * idx, ToBytes(w, 8), 8 * n, dst.Length);
  }

  method ReadSlot(src: array<Byte>, n: nat, idx: nat) returns (w: nat)
    requires 8 * n <= src.Length && idx < n
    ensures w == Slots(src[..], n)[idx]
  {
    w := FromBytes(src[8 * idx..8 * idx + 8]);
    assert src[8 * idx..8 * idx + 8] == src[..][8 * idx..8 * idx + 8];
  }

  /** A fresh buffer holding a copy of the given bytes, as new followed by memcpy_s makes it. */
  method Duplicate(src: seq<Byte>) returns (dst: array<Byte>)
    ensures fresh(dst) && dst[..] == src
  {
    dst := new Byte[|src|](_ => 0);
    ghost var b := dst[..];
    var ok := MemcpyS(dst, 0, |src|, src);
    SpliceAll(b, src);
  }
}
