/**
 The kernel binary: a 128-byte header of 32-bit words, length-prefixed kernel names and compile info,
 and the code. The packer follows scripts/build_util.py, the parser BinHandle::Init.
 */
module KernelBinary {
  import opened Bytes
  import opened Splices
  import opened Options

  const TWO32 := 0x1_0000_0000
  const HEADER_LENGTH := 128
  const ALIGN_BYTES := 4

  // ----------------------------------------------------------------- packing

  /** aligned_string: padded with at least one NUL to a multiple of four characters. */
  function AlignedWidth(n: nat): (w: nat)
    ensures n < w <= n + ALIGN_BYTES && w % ALIGN_BYTES == 0
  {
    (n / ALIGN_BYTES + 1) * ALIGN_BYTES
  }

  function AlignedString(s: string): (r: string)
    ensures |r| == AlignedWidth(|s|) && s <= r && forall i :: |s| <= i < |r| ==> r[i] == '\0'
  {
    s + seq(AlignedWidth(|s|) - |s|, _ => '\0')
  }

  /** The bytes of one character in UTF-8. */
  function Utf8(c: char): (r: seq<Byte>)
    ensures 1 <= |r| <= 4 && (|r| == 1 <==> c as int < 128)
  {
    var x := c as int;
    if x < 0x80 then [x]
    else if x < 0x800 then [0xC0 + x / 0x40, 0x80 + x % 0x40]
    else if x < 0x1_0000 then [0xE0 + x / 0x1000, 0x80 + x / 0x40 % 0x40, 0x80 + x % 0x40]
    else [0xF0 + x / 0x4_0000, 0x80 + x / 0x1000 % 0x40, 0x80 + x / 0x40 % 0x40, 0x80 + x % 0x40]
  }

  function Encode(s: string): seq<Byte>
  {
    if s == [] then [] else Utf8(s[0]) + Encode(s[1..])
  }

  predicate Ascii(s: string)
  {
    forall i :: 0 <= i < |s| ==> s[i] as int < 128
  }

  /** The packer records the number of characters; that is the number of bytes just for ASCII. */
  lemma {:induction false} CharactersAreBytes(s: string)
    ensures |Encode(s)| >= |s| && (|Encode(s)| == |s| <==> Ascii(s))
  {
    if s != [] {
      CharactersAreBytes(s[1..]);
      if Ascii(s[1..]) && s[0] as int < 128 {
        forall i | 0 <= i < |s|
          ensures s[i] as int < 128
        {
          if i > 0 {
            assert s[i] == s[1..][i - 1];
          }
        }
      }
    }
  }

  lemma {:induction false} EncodeAscii(s: string, i: nat)
    requires Ascii(s) && i < |s|
    ensures |Encode(s)| == |s| && Encode(s)[i] == s[i] as int
  {
    CharactersAreBytes(s);
    if i > 0 {
      EncodeAscii(s[1..], i - 1);
    }
  }

  /** struct.pack('I', v), which raises for a value that does not fit. */
  predicate Packs(v: int) { 0 <= v < TWO32 }

  function U32(v: nat): (r: seq<Byte>)
    requires Packs(v)
    ensures |r| == 4
  {
    ToBytes(v, 4)
  }

  /** The fields of the kernel's json file. The ratios are None for the value "tilingKey". */
  datatype Description = Description(
    compileInfo: string, opParaSize: int, coreType: string, magic: string, kernelNames: seq<string>,
    intercoreSync: int, ratios: Option<seq<int>>)

  function CoreTypeCode(coreType: string): nat
  {
    if coreType == "VectorCore" then 2 else if coreType == "MIX" then 4 else 0
  }

  function MagicCode(magic: string): Option<nat>
  {
    if magic == "RT_DEV_BINARY_MAGIC_ELF" then Some(0x43554245)
    else if magic == "RT_DEV_BINARY_MAGIC_ELF_AIVEC" then Some(0x41415246)
    else if magic == "RT_DEV_BINARY_MAGIC_ELF_AICUBE" then Some(0x41494343)
    else None
  }

  function TaskRation(ratios: Option<seq<int>>): int
    requires ratios.Some? ==> |ratios.value| == 2
  {
    if ratios.None? then 0 else ratios.value[0] * 0x1_0000 + ratios.value[1]
  }

  /** A length-prefixed text. The recorded length counts characters. */
  function TextBlock(s: string): seq<Byte>
    requires Packs(AlignedWidth(|s|))
  {
    U32(AlignedWidth(|s|)) + Encode(AlignedString(s))
  }

  predicate AllPack(names: seq<string>)
  {
    forall i :: 0 <= i < |names| ==> Packs(AlignedWidth(|names[i]|))
  }

  function NameBlocks(names: seq<string>): seq<Byte>
    requires AllPack(names)
  {
    if names == [] then [] else TextBlock(names[0]) + NameBlocks(names[1..])
  }

  /** The space that the packer reserves for the names, in characters. */
  function NamesSpace(names: seq<string>): nat
  {
    if names == [] then 0 else ALIGN_BYTES + AlignedWidth(|names[0]|) + NamesSpace(names[1..])
  }

  function CompileInfoOffset(d: Description): nat { NamesSpace(d.kernelNames) }

  function BinOffset(d: Description): nat { NamesSpace(d.kernelNames) + ALIGN_BYTES + AlignedWidth(|d.compileInfo|) }

  /** Every value fits its 32-bit word, and the checks of get_header_from_file pass. */
  predicate Packable(d: Description, code: seq<Byte>)
  {
    && MagicCode(d.magic).Some? && d.kernelNames != [] && (d.ratios.Some? ==> |d.ratios.value| == 2)
    && Packs(d.opParaSize) && Packs(|d.kernelNames|) && Packs(d.intercoreSync) && Packs(TaskRation(d.ratios))
    && Packs(BinOffset(d)) && AllPack(d.kernelNames) && Packs(AlignedWidth(|d.compileInfo|)) && Packs(|code|)
  }

  /** The words in front: version, magic, sizes and counts, the three offsets, sync and ratios. */
  function HeaderWords(d: Description): (r: seq<nat>)
    requires Packable(d, [])
    ensures |r| == 10 && forall k :: 0 <= k < |r| ==> Packs(r[k])
  {
    [0, MagicCode(d.magic).value, d.opParaSize, CoreTypeCode(d.coreType), |d.kernelNames|,
     0, CompileInfoOffset(d), BinOffset(d), d.intercoreSync, TaskRation(d.ratios)]
  }

  function PackWords(words: seq<nat>): (r: seq<Byte>)
    requires forall k :: 0 <= k < |words| ==> Packs(words[k])
    ensures |r| == 4 * |words|
  {
    if words == [] then [] else U32(words[0]) + PackWords(words[1..])
  }

  function FixedHeader(d: Description): (r: seq<Byte>)
    requires Packable(d, [])
    ensures |r| == HEADER_LENGTH
  {
    PackWords(HeaderWords(d)) + Zeros(HEADER_LENGTH - ALIGN_BYTES - 40) + U32(0)
  }

  /** The bytes of the array that write_to_cpp emits. */
  function Packed(d: Description, code: seq<Byte>): seq<Byte>
    requires Packable(d, code)
  {
    FixedHeader(d) + NameBlocks(d.kernelNames) + TextBlock(d.compileInfo) + (U32(|code|) + code)
  }

  // -------------------------------------------------- what the header says

  /** The four bytes of word k, least significant first. */
  predicate WordIs(b: seq<Byte>, k: nat, v: int)
  {
    && 4 * k + 4 <= |b|
    && var w: seq<int> := [b[4 * k], b[4 * k + 1], b[4 * k + 2], b[4 * k + 3]];
       w[0] + 0x100 * w[1] + 0x1_0000 * w[2] + 0x100_0000 * w[3] == v
  }

  /** The ten words in front, field by field, and nulls up to the names. */
  predicate HeaderSays(b: seq<Byte>, d: Description)
  {
    && |b| >= 128 && WordIs(b, 0, 0)
    && (d.magic == "RT_DEV_BINARY_MAGIC_ELF" ==> WordIs(b, 1, 0x43554245))
    && (d.magic == "RT_DEV_BINARY_MAGIC_ELF_AIVEC" ==> WordIs(b, 1, 0x41415246))
    && (d.magic == "RT_DEV_BINARY_MAGIC_ELF_AICUBE" ==> WordIs(b, 1, 0x41494343))
    && WordIs(b, 2, d.opParaSize)
    && WordIs(b, 3, if d.coreType == "VectorCore" then 2 else if d.coreType == "MIX" then 4 else 0)
    && WordIs(b, 4, |d.kernelNames|) && WordIs(b, 5, 0)
    && WordIs(b, 6, NamesSpace(d.kernelNames))
    && WordIs(b, 7, NamesSpace(d.kernelNames) + 4 + AlignedWidth(|d.compileInfo|))
    && WordIs(b, 8, d.intercoreSync)
    && WordIs(b, 9, match d.ratios case None => 0
                                   case Some(r) => if |r| == 2 then r[0] * 0x1_0000 + r[1] else -1)
    && (forall i :: 40 <= i < 128 ==> b[i] == 0)
    && d.kernelNames != [] && WordIs(b, 32, AlignedWidth(|d.kernelNames[0]|))
  }

  /** The three magic strings, and no other. */
  predicate KnownMagic(magic: string)
  {
    || magic == "RT_DEV_BINARY_MAGIC_ELF" || magic == "RT_DEV_BINARY_MAGIC_ELF_AIVEC"
    || magic == "RT_DEV_BINARY_MAGIC_ELF_AICUBE"
  }

  lemma WordOfBytes(v: nat)
    requires Packs(v)
    ensures WordIs(U32(v), 0, v)
  {
    var b := U32(v);
    LimitValues();
    FromToBytes(v, 4);
    assert b[1..][1..] == b[2..] && b[2..][1..] == b[3..] && b[3..][1..] == [];
    assert FromBytes(b[3..]) == b[3] as int && FromBytes(b[2..]) == b[2] as int + 256 * FromBytes(b[3..]);
    assert FromBytes(b[1..]) == b[1] as int + 256 * FromBytes(b[2..]);
    assert FromBytes(b) == b[0] as int + 256 * FromBytes(b[1..]);
  }

  lemma WordInside(b: seq<Byte>, k: nat, v: nat)
    requires Packs(v) && 4 * k + 4 <= |b| && b[4 * k..4 * k + 4] == U32(v)
    ensures WordIs(b, k, v)
  {
    hide U32;
    WordOfBytes(v);
    var w := b[4 * k..4 * k + 4];
    assert w[0] == b[4 * k] && w[1] == b[4 * k + 1] && w[2] == b[4 * k + 2] && w[3] == b[4 * k + 3];
  }

  lemma FixedHeaderSays(d: Description, rest: seq<Byte>)
    requires Packable(d, []) && |rest| >= 4 && rest[..4] == U32(AlignedWidth(|d.kernelNames[0]|))
    ensures HeaderSays(FixedHeader(d) + rest, d) && KnownMagic(d.magic)
  {
    hide PackWords, U32, WordIs, HeaderWords, AlignedWidth;
    var b, words := FixedHeader(d) + rest, HeaderWords(d);
    forall k | 0 <= k < 10
      ensures WordIs(b, k, words[k])
    {
      PackWordsAt(words, k);
      assert b[..40] == PackWords(words);
      SubSlice(b, 0, 40, 4 * k, 4 * k + 4);
      assert b[..40] == b[0..40];
      WordInside(b, k, words[k]);
    }
    WordsAre(d);
    assert WordIs(b, 0, words[0]) && WordIs(b, 1, words[1]) && WordIs(b, 2, words[2]) && WordIs(b, 3, words[3]);
    assert WordIs(b, 4, words[4]) && WordIs(b, 5, words[5]) && WordIs(b, 6, words[6]) && WordIs(b, 7, words[7]);
    assert WordIs(b, 8, words[8]) && WordIs(b, 9, words[9]);
    NullsBehind(d, rest);
    assert b[128..132] == rest[..4];
    WordInside(b, 32, AlignedWidth(|d.kernelNames[0]|));
  }

  lemma WordsAre(d: Description)
    requires Packable(d, [])
    ensures var w := HeaderWords(d);
            && w[0] == 0 && w[1] == MagicCode(d.magic).value && w[2] == d.opParaSize
            && w[3] == CoreTypeCode(d.coreType) && w[4] == |d.kernelNames| && w[5] == 0
            && w[6] == NamesSpace(d.kernelNames)
            && w[7] == NamesSpace(d.kernelNames) + 4 + AlignedWidth(|d.compileInfo|)
            && w[8] == d.intercoreSync && w[9] == TaskRation(d.ratios)
  {
  }

  lemma NullsBehind(d: Description, rest: seq<Byte>)
    requires Packable(d, [])
    ensures forall i :: 40 <= i < 128 ==> (FixedHeader(d) + rest)[i] == 0
  {
    hide PackWords, HeaderWords;
    assert U32(0) == Zeros(4) by { NullWord(); }
    var words := PackWords(HeaderWords(d));
    forall i | 40 <= i < 128
      ensures FixedHeader(d)[i] == 0
    {
      assert FixedHeader(d) == words + Zeros(84) + Zeros(4);
    }
  }

  lemma FirstSize(d: Description, rest: seq<Byte>)
    requires Packable(d, [])
    ensures |NameBlocks(d.kernelNames)| >= 4
    ensures (NameBlocks(d.kernelNames) + rest)[..4] == U32(AlignedWidth(|d.kernelNames[0]|))
  {
    hide U32, Encode, AlignedString, AlignedWidth;
  }

  lemma NullWord()
    ensures U32(0) == Zeros(4)
  {
    assert ToBytes(0, 4) == [0] + ([0] + ([0] + ([0] + [])));
  }

  // ----------------------------------------------------------------- parsing

  datatype MetaInfo = MetaInfo(
    version: nat, magic: nat, tilingSize: nat, coreType: nat, intercoreSync: nat, cubeRatio: nat, vectorRatio: nat,
    kernelList: seq<seq<Byte>>, compileInfo: seq<Byte>, code: seq<Byte>)

  function U32At(b: seq<Byte>, pos: nat): (v: nat)
    requires pos + 4 <= |b|
  {
    FromBytes(b[pos..pos + 4])
  }

  /** A C string starting at pos; None when no NUL follows in the buffer. */
  function CString(b: seq<Byte>, pos: nat): (r: Option<seq<Byte>>)
    requires pos <= |b|
    decreases |b| - pos
  {
    if pos == |b| then None
    else if b[pos] == 0 then Some([])
    else
      var rest := CString(b, pos + 1);
      if rest.None? then None else Some([b[pos]] + rest.value)
  }

  /** What the parser sees of an array: its length is registered as a uint32_t. */
  function Registered(b: seq<Byte>): (r: seq<Byte>)
    ensures r <= b && (|b| < TWO32 ==> r == b)
  {
    b[..|b| % TWO32]
  }

  /** The names read one after the other, up to the first that fails a length check. */
  function NamesRead(b: seq<Byte>, start: nat, num: nat): (r: seq<seq<Byte>>)
    ensures |r| <= num
    decreases num
  {
    if num == 0 || start + 4 > |b| || start + 4 + U32At(b, start) > |b| then []
    else
      var str := CString(b, start + 4);
      if str.None? || |str.value| >= U32At(b, start) then []
      else [str.value] + NamesRead(b, start + 4 + U32At(b, start), num - 1)
  }

  function ParseNames(b: seq<Byte>, start: nat, num: nat): Option<seq<seq<Byte>>>
  {
    if |NamesRead(b, start, num)| == num then Some(NamesRead(b, start, num)) else None
  }

  /** The parse steps of BinHandle::Init, up to the registration of the code, on a handle that holds some names. */
  function ParseOnto(b: seq<Byte>, held: seq<seq<Byte>>): Option<MetaInfo>
  {
    if |b| <= HEADER_LENGTH then None
    else
      var names := ParseNames(b, HEADER_LENGTH + U32At(b, 20), U32At(b, 16));
      var infoStart := HEADER_LENGTH + U32At(b, 24);
      var binStart := HEADER_LENGTH + U32At(b, 28);
      if names.None? || infoStart + 4 > |b| then None
      else
        var info := CString(b, infoStart + 4);
        if info.None? || |info.value| >= U32At(b, infoStart) then None
        else if binStart + 4 > |b| || binStart + 4 + U32At(b, binStart) != |b| then None
        else if held + names.value == [] || U32At(b, 4) == 0 then None
        else Some(MetaInfo(U32At(b, 0), U32At(b, 4), U32At(b, 8), U32At(b, 12), U32At(b, 32),
                           U32At(b, 36) / 0x1_0000, U32At(b, 36) % 0x1_0000,
                           held + names.value, info.value, b[binStart + 4..]))
  }

  /** The same on a fresh handle. */
  function Parse(b: seq<Byte>): Option<MetaInfo>
  {
    ParseOnto(b, [])
  }

  // -------------------------------------------------------------- round trip

  lemma U32OfPacked(b: seq<Byte>, pos: nat, v: nat)
    requires Packs(v) && pos + 4 <= |b| && b[pos..pos + 4] == U32(v)
    ensures U32At(b, pos) == v
  {
    LimitValues();
    FromToBytes(v, 4);
  }

  lemma {:induction false} PackWordsAt(words: seq<nat>, k: nat)
    requires k < |words| && forall j :: 0 <= j < |words| ==> Packs(words[j])
    ensures PackWords(words)[4 * k..4 * k + 4] == U32(words[k])
  {
    var all, tail := PackWords(words), PackWords(words[1..]);
    if k > 0 {
      PackWordsAt(words[1..], k - 1);
      assert all[4..] == tail;
      SubSlice(all, 4, |all|, 4 * k - 4, 4 * k);
      assert all[4..] == all[4..|all|];
    }
  }

  /** The words of the header are where the parser reads them. */
  lemma HeaderAt(d: Description, rest: seq<Byte>, k: nat)
    requires Packable(d, []) && k < 10
    ensures U32At(FixedHeader(d) + rest, 4 * k) == HeaderWords(d)[k]
  {
    hide PackWords, Zeros, U32, HeaderWords;
    var words, b := HeaderWords(d), FixedHeader(d) + rest;
    PackWordsAt(words, k);
    assert b[..40] == PackWords(words);
    SubSlice(b, 0, 40, 4 * k, 4 * k + 4);
    assert b[..40] == b[0..40];
    U32OfPacked(b, 4 * k, words[k]);
  }

  /** The characters before the first NUL. */
  function Cut(s: string): (r: string)
    ensures r <= s && '\0' !in r && (|r| < |s| ==> s[|r|] == '\0')
  {
    if s == [] || s[0] == '\0' then []
    else
      var rest := Cut(s[1..]);
      assert s == [s[0]] + s[1..];
      [s[0]] + rest
  }

  lemma CutWhole(s: string)
    ensures Cut(s) == s <==> '\0' !in s
  {
    var c := Cut(s);
    if |c| < |s| {
      assert s[|c|] == '\0';
    } else {
      assert c == s;
    }
  }

  lemma {:induction false} CStringIs(b: seq<Byte>, pos: nat, t: seq<Byte>)
    requires pos + |t| < |b| && b[pos..pos + |t|] == t && b[pos + |t|] == 0 && 0 !in t
    ensures CString(b, pos) == Some(t)
    decreases t
  {
    if t != [] {
      assert b[pos] == t[0] && t[0] in t && t == [t[0]] + t[1..];
      assert b[pos + 1..pos + 1 + |t[1..]|] == t[1..];
      CStringIs(b, pos + 1, t[1..]);
    }
  }

  lemma AsciiParts(s: string)
    requires Ascii(s)
    ensures Ascii(AlignedString(s)) && Ascii(Cut(s))
  {
    forall i | 0 <= i < AlignedWidth(|s|)
      ensures AlignedString(s)[i] as int < 128
    {
      if i < |s| {
        assert AlignedString(s)[i] == s[i];
      }
    }
    forall i | 0 <= i < |Cut(s)|
      ensures Cut(s)[i] as int < 128
    {
      assert Cut(s)[i] == s[i];
    }
  }

  /** A text takes the space its length word announces just when it is ASCII, and more otherwise. */
  lemma BlockSpace(s: string)
    requires Packs(AlignedWidth(|s|))
    ensures |TextBlock(s)| >= ALIGN_BYTES + AlignedWidth(|s|)
    ensures |TextBlock(s)| == ALIGN_BYTES + AlignedWidth(|s|) <==> Ascii(s)
  {
    hide Encode;
    var a := AlignedString(s);
    CharactersAreBytes(a);
    if Ascii(s) {
      AsciiParts(s);
    } else {
      var i :| 0 <= i < |s| && s[i] as int >= 128;
      assert a[i] == s[i];
    }
  }

  lemma BlockSize(s: string)
    requires Ascii(s) && Packs(AlignedWidth(|s|))
    ensures |TextBlock(s)| == ALIGN_BYTES + AlignedWidth(|s|)
  {
    BlockSpace(s);
  }

  /** The padded bytes of a text begin with its cut, which a NUL follows. */
  lemma PaddedText(s: string)
    requires Ascii(s)
    ensures var e, t := Encode(AlignedString(s)), Encode(Cut(s));
            && |e| == AlignedWidth(|s|) && |t| < |e| && e[..|t|] == t && e[|t|] == 0 && 0 !in t
  {
    AsciiParts(s);
    var a, c := AlignedString(s), Cut(s);
    CharactersAreBytes(a);
    CharactersAreBytes(c);
    forall i | 0 <= i < |c|
      ensures Encode(a)[i] == Encode(c)[i] != 0
    {
      EncodeAscii(a, i);
      EncodeAscii(c, i);
      assert a[i] == s[i] == c[i];
      assert c[i] in c;
    }
    EncodeAscii(a, |c|);
    assert |c| < |s| ==> a[|c|] == s[|c|];
  }

  /** A packed text read back: its recorded size, and the text up to its first NUL. */
  lemma TextAt(b: seq<Byte>, pos: nat, s: string)
    requires Ascii(s) && Packs(AlignedWidth(|s|))
    requires pos + |TextBlock(s)| <= |b| && b[pos..pos + |TextBlock(s)|] == TextBlock(s)
    ensures pos + 4 + AlignedWidth(|s|) <= |b| && U32At(b, pos) == AlignedWidth(|s|)
    ensures CString(b, pos + 4) == Some(Encode(Cut(s))) && |Encode(Cut(s))| < AlignedWidth(|s|)
  {
    hide AlignedString, Cut, U32, Encode, CString, FromBytes;
    var block, e, t := TextBlock(s), Encode(AlignedString(s)), Encode(Cut(s));
    BlockSize(s);
    PaddedText(s);
    assert block[..4] == U32(AlignedWidth(|s|)) && block[4..] == e;
    SubSlice(b, pos, pos + |block|, 0, 4);
    assert block[0..4] == block[..4];
    U32OfPacked(b, pos, AlignedWidth(|s|));
    SubSlice(b, pos, pos + |block|, 4, 4 + |t|);
    assert block[4..4 + |t|] == e[..|t|];
    assert b[pos..pos + |block|][4 + |t|] == e[|t|];
    CStringIs(b, pos + 4, t);
  }

  function Cuts(names: seq<string>): (r: seq<seq<Byte>>)
    ensures |r| == |names|
  {
    seq(|names|, i requires 0 <= i < |names| => Encode(Cut(names[i])))
  }

  predicate AllAscii(names: seq<string>)
  {
    forall i :: 0 <= i < |names| ==> Ascii(names[i])
  }

  /** One name block in front. */
  lemma FirstName(b: seq<Byte>, pos: nat, s: string, rest: seq<Byte>)
    requires Ascii(s) && Packs(AlignedWidth(|s|))
    requires pos + |TextBlock(s) + rest| <= |b| && b[pos..pos + |TextBlock(s) + rest|] == TextBlock(s) + rest
    ensures |TextBlock(s)| == ALIGN_BYTES + AlignedWidth(|s|)
    ensures pos + 4 + AlignedWidth(|s|) <= |b| && U32At(b, pos) == AlignedWidth(|s|)
    ensures CString(b, pos + 4) == Some(Encode(Cut(s))) && |Encode(Cut(s))| < AlignedWidth(|s|)
    ensures b[pos + |TextBlock(s)|..pos + |TextBlock(s)| + |rest|] == rest
  {
    hide TextBlock, CString, Encode, Cut, AlignedWidth, U32At;
    var first := TextBlock(s);
    BlockSize(s);
    assert b[pos..pos + |first|] == first by {
      SubSlice(b, pos, pos + |first + rest|, 0, |first|);
      assert (first + rest)[0..|first|] == first;
    }
    TextAt(b, pos, s);
    assert b[pos + |first|..pos + |first| + |rest|] == rest by {
      SubSlice(b, pos, pos + |first + rest|, |first|, |first| + |rest|);
      assert (first + rest)[|first|..|first| + |rest|] == rest;
    }
  }

  lemma {:induction false} NamesAt(b: seq<Byte>, pos: nat, names: seq<string>)
    requires AllAscii(names) && AllPack(names)
    requires pos + |NameBlocks(names)| <= |b| && b[pos..pos + |NameBlocks(names)|] == NameBlocks(names)
    ensures |NameBlocks(names)| == NamesSpace(names)
    ensures NamesRead(b, pos, |names|) == Cuts(names) && ParseNames(b, pos, |names|) == Some(Cuts(names))
    decreases names
  {
    hide TextBlock, CString, Encode, Cut, AlignedWidth, U32At;
    if names != [] {
      var s, tail := names[0], names[1..];
      FirstName(b, pos, s, NameBlocks(tail));
      NamesAt(b, pos + |TextBlock(s)|, tail);
      assert Cuts(names) == [Encode(Cut(s))] + Cuts(tail);
    }
  }

  /** What the parser makes of a packed kernel. */
  function Recovered(d: Description, code: seq<Byte>): MetaInfo
    requires Packable(d, code)
  {
    MetaInfo(0, MagicCode(d.magic).value, d.opParaSize, CoreTypeCode(d.coreType), d.intercoreSync,
             TaskRation(d.ratios) / 0x1_0000, TaskRation(d.ratios) % 0x1_0000,
             Cuts(d.kernelNames), Encode(Cut(d.compileInfo)), code)
  }

  lemma PackableHeader(d: Description, code: seq<Byte>)
    requires Packable(d, code)
    ensures Packable(d, [])
  {
  }

  /** The three parts behind the header, where the offsets of the header say. */
  lemma PartsAt(d: Description, code: seq<Byte>)
    requires Packable(d, code) && AllAscii(d.kernelNames) && Ascii(d.compileInfo)
    ensures var b, names, info := Packed(d, code), NameBlocks(d.kernelNames), TextBlock(d.compileInfo);
            var infoAt, binAt := HEADER_LENGTH + CompileInfoOffset(d), HEADER_LENGTH + BinOffset(d);
            && HEADER_LENGTH + |names| <= |b| && b[HEADER_LENGTH..HEADER_LENGTH + |names|] == names
            && infoAt + |info| <= |b| && b[infoAt..infoAt + |info|] == info
            && binAt + 4 + |code| == |b| && b[binAt..binAt + 4] == U32(|code|) && b[binAt + 4..] == code
  {
    hide FixedHeader, TextBlock, NameBlocks, U32, AlignedWidth, ParseNames;
    var h, n, t, c := FixedHeader(d), NameBlocks(d.kernelNames), TextBlock(d.compileInfo), U32(|code|) + code;
    var b := Packed(d, code);
    NamesSize(d.kernelNames);
    BlockSize(d.compileInfo);
    SliceOfConcat(h, n, t + c);
    assert b == h + n + (t + c);
    SliceOfConcat(h + n, t, c);
    SliceOfConcat(h + n + t, U32(|code|), code);
    assert b == h + n + t + U32(|code|) + code;
  }

  /** The names take the reserved space just when all are ASCII, and more otherwise. */
  lemma {:induction false} NamesSize(names: seq<string>)
    requires AllPack(names)
    ensures |NameBlocks(names)| >= NamesSpace(names)
    ensures |NameBlocks(names)| == NamesSpace(names) <==> AllAscii(names)
  {
    hide TextBlock, AlignedWidth, Ascii;
    if names != [] {
      BlockSpace(names[0]);
      NamesSize(names[1..]);
      assert AllAscii(names) <==> Ascii(names[0]) && AllAscii(names[1..]) by {
        FirstAscii(names);
      }
    }
  }

  lemma FirstAscii(names: seq<string>)
    requires names != []
    ensures AllAscii(names) <==> Ascii(names[0]) && AllAscii(names[1..])
  {
    hide Ascii;
    forall i | 0 <= i < |names| && AllAscii(names[1..]) && Ascii(names[0])
      ensures Ascii(names[i])
    {
      assert i > 0 ==> names[i] == names[1..][i - 1];
    }
  }

  /** The parser accepts every packed kernel with ASCII texts, and this is what it reads. */
  lemma ParsePacked(d: Description, code: seq<Byte>)
    requires Packable(d, code) && AllAscii(d.kernelNames) && Ascii(d.compileInfo)
    ensures Parse(Packed(d, code)) == Some(Recovered(d, code))
    ensures |Packed(d, code)| < TWO32 ==> Parse(Registered(Packed(d, code))) == Some(Recovered(d, code))
  {
    hide FixedHeader, TextBlock, NameBlocks, AlignedWidth, ParseNames, CString, Encode, Cut, Cuts, U32At, U32, Ascii;
    var b := Packed(d, code);
    var rest := NameBlocks(d.kernelNames) + TextBlock(d.compileInfo) + (U32(|code|) + code);
    PackableHeader(d, code);
    assert b == FixedHeader(d) + rest;
    forall k | 0 <= k < 10
      ensures U32At(b, 4 * k) == HeaderWords(d)[k]
    {
      HeaderAt(d, rest, k);
    }
    HeaderValues(d, b);
    PartsAt(d, code);
    NamesAt(b, HEADER_LENGTH, d.kernelNames);
    TextAt(b, HEADER_LENGTH + CompileInfoOffset(d), d.compileInfo);
    U32OfPacked(b, HEADER_LENGTH + BinOffset(d), |code|);
    assert [] + Cuts(d.kernelNames) == Cuts(d.kernelNames);
  }

  lemma HeaderValues(d: Description, b: seq<Byte>)
    requires Packable(d, []) && |b| >= HEADER_LENGTH
    requires forall k :: 0 <= k < 10 ==> U32At(b, 4 * k) == HeaderWords(d)[k]
    ensures U32At(b, 0) == 0 && U32At(b, 4) == MagicCode(d.magic).value && U32At(b, 8) == d.opParaSize
    ensures U32At(b, 12) == CoreTypeCode(d.coreType) && U32At(b, 16) == |d.kernelNames| && U32At(b, 20) == 0
    ensures U32At(b, 24) == CompileInfoOffset(d) && U32At(b, 28) == BinOffset(d)
    ensures U32At(b, 32) == d.intercoreSync && U32At(b, 36) == TaskRation(d.ratios)
  {
    hide U32At;
    assert U32At(b, 4 * 0) == HeaderWords(d)[0] && U32At(b, 4 * 1) == HeaderWords(d)[1];
    assert U32At(b, 4 * 2) == HeaderWords(d)[2] && U32At(b, 4 * 3) == HeaderWords(d)[3];
    assert U32At(b, 4 * 4) == HeaderWords(d)[4] && U32At(b, 4 * 5) == HeaderWords(d)[5];
    assert U32At(b, 4 * 6) == HeaderWords(d)[6] && U32At(b, 4 * 7) == HeaderWords(d)[7];
    assert U32At(b, 4 * 8) == HeaderWords(d)[8] && U32At(b, 4 * 9) == HeaderWords(d)[9];
  }

  predicate NoNul(s: string) { '\0' !in s }

  /** The parsed meta data is what the description says: the texts whole, and the two ratios. */
  predicate Faithful(m: MetaInfo, d: Description)
  {
    && |m.kernelList| == |d.kernelNames|
    && (forall i :: 0 <= i < |d.kernelNames| ==> m.kernelList[i] == Encode(d.kernelNames[i]))
    && m.compileInfo == Encode(d.compileInfo)
    && (d.ratios.Some? ==>
          |d.ratios.value| == 2 && m.cubeRatio == d.ratios.value[0] && m.vectorRatio == d.ratios.value[1])
    && (d.ratios.None? ==> m.cubeRatio == 0 && m.vectorRatio == 0)
  }

  lemma CutEncoded(s: string)
    requires Ascii(s)
    ensures Encode(Cut(s)) == Encode(s) <==> NoNul(s)
  {
    hide Encode;
    AsciiParts(s);
    CharactersAreBytes(s);
    CharactersAreBytes(Cut(s));
    CutWhole(s);
    if |Cut(s)| == |s| {
      assert Cut(s) == s;
    }
  }

  lemma RatioParts(cube: int, vector: int)
    requires Packs(cube * 0x1_0000 + vector)
    ensures (cube * 0x1_0000 + vector) / 0x1_0000 == cube && (cube * 0x1_0000 + vector) % 0x1_0000 == vector
            <==> 0 <= vector < 0x1_0000
  {
  }

  /** The whole length of a packed kernel, and the offset the header gives for its code. */
  lemma PackedLength(d: Description, code: seq<Byte>)
    requires Packable(d, code)
    ensures var b := Packed(d, code);
            && |b| > HEADER_LENGTH && U32At(b, 28) == BinOffset(d)
            && |b| >= HEADER_LENGTH + BinOffset(d) + 4 + |code|
            && (|b| == HEADER_LENGTH + BinOffset(d) + 4 + |code|
                <==> AllAscii(d.kernelNames) && Ascii(d.compileInfo))
  {
    hide FixedHeader, TextBlock, NameBlocks, AlignedWidth, U32At, U32, Ascii, AllAscii, HeaderWords;
    var rest := NameBlocks(d.kernelNames) + TextBlock(d.compileInfo) + (U32(|code|) + code);
    PackableHeader(d, code);
    assert Packed(d, code) == FixedHeader(d) + rest;
    HeaderAt(d, rest, 7);
    SeventhWord(d);
    NamesSize(d.kernelNames);
    BlockSpace(d.compileInfo);
  }

  lemma SeventhWord(d: Description)
    requires Packable(d, [])
    ensures HeaderWords(d)[7] == BinOffset(d)
  {
  }

  /** The code that is parsed reaches from the offset in the header to the registered end. */
  lemma ParsedCode(b: seq<Byte>)
    requires Parse(Registered(b)).Some?
    ensures |b| > HEADER_LENGTH && HEADER_LENGTH + U32At(b, 28) + 4 + |Parse(Registered(b)).value.code| == |b| % TWO32
  {
    hide ParseNames, CString, FromBytes;
    var r := Registered(b);
    assert r[28..32] == b[28..32];
  }

  /** The length that the offsets in the header stand for. */
  function StatedLength(d: Description, code: seq<Byte>): nat
  {
    HEADER_LENGTH + BinOffset(d) + 4 + |code|
  }

  /** The parser, on the registered array, gets the code. */
  predicate CodeComesBack(d: Description, code: seq<Byte>)
    requires Packable(d, code)
  {
    var r := Parse(Registered(Packed(d, code)));
    r.Some? && r.value.code == code
  }

  /** All texts are ASCII, and the array is short enough for its length to be registered. */
  predicate AsciiAndShort(d: Description, code: seq<Byte>)
    requires Packable(d, code)
  {
    AllAscii(d.kernelNames) && Ascii(d.compileInfo) && |Packed(d, code)| < TWO32
  }

  /**
   The round trip: the code comes back exactly when all texts are ASCII and the array has less than 2^32 bytes.
   Then the scalars come back too, and the texts and ratios exactly when no text contains a NUL and the second
   ratio fits 16 bits. Texts that take 2^32 bytes more than stated, or a multiple, are apart: see ByAccident.
   */
  lemma PackThenParse(d: Description, code: seq<Byte>)
    requires Packable(d, code)
    ensures CodeComesBack(d, code) ==> |Packed(d, code)| % TWO32 == StatedLength(d, code)
    ensures |Packed(d, code)| == StatedLength(d, code) || (|Packed(d, code)| - StatedLength(d, code)) % TWO32 != 0 ==>
              (CodeComesBack(d, code) <==> AsciiAndShort(d, code))
    ensures AsciiAndShort(d, code) ==>
              CodeComesBack(d, code) &&
              var m := Parse(Registered(Packed(d, code))).value;
              && m.version == 0 && m.tilingSize == d.opParaSize && m.intercoreSync == d.intercoreSync
              && m.coreType == (if d.coreType == "VectorCore" then 2 else if d.coreType == "MIX" then 4 else 0)
              && m.magic == (if d.magic == "RT_DEV_BINARY_MAGIC_ELF" then 0x43554245
                             else if d.magic == "RT_DEV_BINARY_MAGIC_ELF_AIVEC" then 0x41415246 else 0x41494343)
              && (Faithful(m, d) <==>
                    && (forall i :: 0 <= i < |d.kernelNames| ==> NoNul(d.kernelNames[i])) && NoNul(d.compileInfo)
                    && (d.ratios.Some? ==> 0 <= d.ratios.value[1] < 0x1_0000))
  {
    hide Parse, Packed, Encode, Cut, NoNul, AllPack, Ascii, AllAscii, Registered, CodeComesBack, StatedLength;
    if CodeComesBack(d, code) {
      CodeLength(d, code);
      SurplusWraps(|Packed(d, code)|, StatedLength(d, code));
    }
    if AsciiAndShort(d, code) {
      ParsePacked(d, code);
      WholeComesBack(d, code);
      FaithfulRecovered(d, code);
    }
  }

  lemma CodeLength(d: Description, code: seq<Byte>)
    requires Packable(d, code) && CodeComesBack(d, code)
    ensures |Packed(d, code)| % TWO32 == StatedLength(d, code)
    ensures |Packed(d, code)| == StatedLength(d, code) ==> AsciiAndShort(d, code)
  {
    hide Parse, Packed, Ascii, AllAscii, U32At, Registered, BinOffset;
    PackedLength(d, code);
    ParsedCode(Packed(d, code));
  }

  lemma WholeComesBack(d: Description, code: seq<Byte>)
    requires Packable(d, code) && Parse(Registered(Packed(d, code))) == Some(Recovered(d, code))
    ensures CodeComesBack(d, code)
  {
    hide Parse, Packed, Registered;
  }

  lemma SurplusWraps(length: nat, stated: nat)
    requires length % TWO32 == stated
    ensures (length - stated) % TWO32 == 0 && stated < TWO32
  {
  }

  lemma FaithfulRecovered(d: Description, code: seq<Byte>)
    requires Packable(d, code) && AllAscii(d.kernelNames) && Ascii(d.compileInfo)
    ensures Faithful(Recovered(d, code), d) <==>
              && (forall i :: 0 <= i < |d.kernelNames| ==> NoNul(d.kernelNames[i])) && NoNul(d.compileInfo)
              && (d.ratios.Some? ==> 0 <= d.ratios.value[1] < 0x1_0000)
  {
    hide Encode, Cut, NoNul, AllPack, Ascii;
    CutEncoded(d.compileInfo);
    forall i | 0 <= i < |d.kernelNames|
      ensures Encode(Cut(d.kernelNames[i])) == Encode(d.kernelNames[i]) <==> NoNul(d.kernelNames[i])
    {
      CutEncoded(d.kernelNames[i]);
    }
    if d.ratios.Some? {
      RatioParts(d.ratios.value[0], d.ratios.value[1]);
    }
  }

  // ------------------------------------------------------------ by accident

  lemma {:induction false} EncodeAppend(a: string, b: string)
    ensures Encode(a + b) == Encode(a) + Encode(b)
  {
    hide Utf8;
    if a == [] {
      assert a + b == b;
    } else {
      assert (a + b)[1..] == a[1..] + b;
      EncodeAppend(a[1..], b);
    }
  }

  function Copies(c: char, n: nat): (s: string)
    ensures |s| == n && forall i :: 0 <= i < n ==> s[i] == c
  {
    seq(n, _ => c)
  }

  lemma {:induction false} EncodeCopies(c: char, n: nat)
    requires 0x800 <= c as int < 0x1_0000
    ensures |Encode(Copies(c, n))| == 3 * n
  {
    hide Encode;
    if n == 0 {
      EncodeEmpty();
      assert Copies(c, n) == [];
    } else {
      assert Copies(c, n) == [c] + Copies(c, n - 1);
      EncodeAppend([c], Copies(c, n - 1));
      EncodeOne(c);
      EncodeCopies(c, n - 1);
    }
  }

  lemma EncodeEmpty()
    ensures Encode([]) == []
  {
  }

  lemma EncodeOne(c: char)
    ensures Encode([c]) == Utf8(c)
  {
    assert [c][1..] == [];
  }

  lemma EncodeNuls(n: nat)
    ensures Encode(Copies('\0', n)) == Zeros(n)
  {
    hide Encode;
    var s := Copies('\0', n);
    CharactersAreBytes(s);
    forall i | 0 <= i < n
      ensures Encode(s)[i] == 0
    {
      EncodeAscii(s, i);
    }
  }

  const WIDE := 0x8000_0000
  const FRONT := 715827888

  /** A name that takes exactly 2^32 bytes more than it has characters. */
  function OddName(): (s: string)
    ensures |s| == WIDE + 16
  {
    Copies('\0', 4) + Copies('\U{0800}', FRONT) + "\U{0001}" + Copies('\0', 11) + Copies('\U{0800}', WIDE - FRONT)
  }

  function OddKernel(): Description
  {
    Description("", 0, "", "RT_DEV_BINARY_MAGIC_ELF", [OddName()], 0, None)
  }

  /** Its bytes: null where the parser looks for the name, and a text and a size where it looks for those. */
  lemma OddBytes()
    ensures AlignedWidth(|OddName()|) == WIDE + 20
    ensures var x := Encode(AlignedString(OddName()));
            && |x| == 3 * WIDE + 20 && x[..4] == Zeros(4)
            && x[WIDE + 20..WIDE + 32] == [1] + Zeros(11)
  {
    hide Encode, Zeros, Copies, Utf8;
    var a, e := Copies('\U{0800}', FRONT), Copies('\U{0800}', WIDE - FRONT);
    var n4, n11 := Copies('\0', 4), Copies('\0', 11);
    assert AlignedString(OddName()) == OddName() + n4 by { PaddingOfOddName(); }
    EncodeAppend(OddName(), n4);
    EncodeAppend(n4 + a + "\U{0001}" + n11, e);
    EncodeAppend(n4 + a + "\U{0001}", n11);
    EncodeAppend(n4 + a, "\U{0001}");
    EncodeAppend(n4, a);
    EncodeNuls(4);
    EncodeNuls(11);
    EncodeCopies('\U{0800}', FRONT);
    EncodeCopies('\U{0800}', WIDE - FRONT);
    EncodeOne('\U{0001}');
    assert Utf8('\U{0001}') == [1] by { OneByte(); }
    FiveParts(Encode(n4), Encode(a), [1], Encode(n11), Encode(e) + Encode(n4));
  }

  lemma OneByte()
    ensures Utf8('\U{0001}') == [1]
  {
  }

  lemma FiveParts(a: seq<Byte>, b: seq<Byte>, c: seq<Byte>, d: seq<Byte>, e: seq<Byte>)
    ensures var x := a + b + c + d + e;
            x[..|a|] == a && x[|a| + |b|..|a| + |b| + |c| + |d|] == c + d
  {
    var x := a + b + c + d + e;
    assert x == (a + b) + (c + d) + e;
  }

  lemma PaddingOfOddName()
    ensures AlignedString(OddName()) == OddName() + Copies('\0', 4) && AlignedWidth(|OddName()|) == WIDE + 20
  {
    hide OddName, Copies;
    assert AlignedWidth(WIDE + 16) == WIDE + 20;
    var pad := AlignedString(OddName())[|OddName()|..];
    assert pad == Copies('\0', 4) by { NulsOnly(pad, 4); }
    assert AlignedString(OddName()) == OddName() + pad;
  }

  lemma NulsOnly(s: string, n: nat)
    requires |s| == n && forall i :: 0 <= i < n ==> s[i] == '\0'
    ensures s == Copies('\0', n)
  {
  }

  /** What the parser meets in the registered part of that kernel. */
  predicate OddLayout(r: seq<Byte>)
  {
    && |r| == WIDE + 164
    && U32At(r, 4) != 0 && U32At(r, 16) == 1 && U32At(r, 20) == 0
    && U32At(r, 24) == WIDE + 24 && U32At(r, 28) == WIDE + 32
    && U32At(r, 128) == WIDE + 20 && r[132] == 0 && r[WIDE + 152..WIDE + 164] == [1] + Zeros(11)
  }

  lemma OddLayoutParses(r: seq<Byte>)
    requires OddLayout(r)
    ensures Parse(r).Some? && Parse(r).value.code == []
  {
    hide U32At;
    assert CString(r, 132) == Some([]);
    assert NamesRead(r, 128, 1) == [[]] by { OneName(r); }
    assert U32At(r, WIDE + 152) == 1 && r[WIDE + 156] == 0 && U32At(r, WIDE + 160) == 0 by { OddTail(r); }
    assert CString(r, WIDE + 156) == Some([]);
  }

  lemma OneName(r: seq<Byte>)
    requires |r| == WIDE + 164 && U32At(r, 128) == WIDE + 20 && CString(r, 132) == Some([])
    ensures NamesRead(r, 128, 1) == [[]]
  {
    hide U32At, CString;
    assert NamesRead(r, 128 + 4 + U32At(r, 128), 0) == [];
  }

  lemma OddTail(r: seq<Byte>)
    requires |r| == WIDE + 164 && r[WIDE + 152..WIDE + 164] == [1] + Zeros(11)
    ensures U32At(r, WIDE + 152) == 1 && r[WIDE + 156] == 0 && U32At(r, WIDE + 160) == 0
  {
    var t := r[WIDE + 152..WIDE + 164];
    assert r[WIDE + 156] == t[4];
    assert r[WIDE + 152..WIDE + 156] == t[..4] == [1, 0, 0, 0];
    assert r[WIDE + 160..WIDE + 164] == t[8..] == [0, 0, 0, 0];
    FourBytes();
  }

  lemma FourBytes()
    ensures FromBytes([1, 0, 0, 0]) == 1 && FromBytes([0, 0, 0, 0]) == 0
  {
    assert [1, 0, 0, 0][1..] == [0, 0, 0] && [0, 0, 0, 0][1..] == [0, 0, 0];
    assert [0, 0, 0][1..] == [0, 0] && [0, 0][1..] == [0] && [0][1..] == [];
  }

  lemma OddPackable()
    ensures Packable(OddKernel(), []) && !Ascii(OddName())
    ensures NamesSpace(OddKernel().kernelNames) == WIDE + 24 && BinOffset(OddKernel()) == WIDE + 32
  {
    hide Copies;
    PaddingOfOddName();
    assert OddName()[4] == '\U{0800}' by { FifthCharacter(); }
    assert OddKernel().kernelNames[1..] == [];
  }

  lemma FifthCharacter()
    ensures OddName()[4] == '\U{0800}'
  {
    assert OddName()[4] == Copies('\U{0800}', FRONT)[0];
  }

  lemma OddRegistered()
    requires Packable(OddKernel(), [])
    ensures |Packed(OddKernel(), [])| >= TWO32 && OddLayout(Registered(Packed(OddKernel(), [])))
  {
    hide FixedHeader, Encode, AlignedString, OddName, U32, Zeros, FromBytes, AlignedWidth;
    var d, x := OddKernel(), Encode(AlignedString(OddName()));
    OddBytes();
    OddPackable();
    var text := U32(WIDE + 20) + x;
    assert NameBlocks(d.kernelNames) == text by { OneBlockOnly(OddName()); }
    var rest := text + TextBlock("") + (U32(0) + []);
    var b := Packed(d, []);
    assert b == FixedHeader(d) + rest;
    EmptyBlock();
    assert |b| == 3 * WIDE + 164;
    var r := Registered(b);
    assert r == b[..WIDE + 164];
    forall k | 0 <= k < 10
      ensures U32At(r, 4 * k) == HeaderWords(d)[k]
    {
      HeaderAt(d, rest, k);
      assert r[4 * k..4 * k + 4] == b[4 * k..4 * k + 4];
    }
    HeaderValues(d, r);
    assert r[128..132] == U32(WIDE + 20) by { TextSlices(FixedHeader(d), U32(WIDE + 20), x, rest, r); }
    assert r[132..] == x[..WIDE + 32] by { TextSlices(FixedHeader(d), U32(WIDE + 20), x, rest, r); }
    U32OfPacked(r, 128, WIDE + 20);
    assert r[132] == r[132..][0] == x[0] == x[..4][0] == Zeros(4)[0];
    FirstZero();
    SubSlice(r, 132, |r|, WIDE + 20, WIDE + 32);
    assert r[132..|r|] == r[132..];
    SubSlice(x, 0, WIDE + 32, WIDE + 20, WIDE + 32);
    assert x[0..WIDE + 32] == x[..WIDE + 32];
  }

  lemma FirstZero()
    ensures Zeros(4)[0] == 0
  {
  }

  lemma TextSlices(h: seq<Byte>, u: seq<Byte>, x: seq<Byte>, rest: seq<Byte>, r: seq<Byte>)
    requires |h| == 128 && |u| == 4 && |x| == 3 * WIDE + 20 && |r| == WIDE + 164 && u + x <= rest && r <= h + rest
    ensures r[128..132] == u && r[132..] == x[..WIDE + 32]
  {
    var b := h + rest;
    assert r == b[..WIDE + 164];
    assert b[128..132] == rest[..4] == u;
    assert b[132..WIDE + 164] == rest[4..WIDE + 36] == x[..WIDE + 32];
  }

  lemma OneBlockOnly(s: string)
    requires Packs(AlignedWidth(|s|))
    ensures NameBlocks([s]) == U32(AlignedWidth(|s|)) + Encode(AlignedString(s))
  {
    hide U32, Encode, AlignedString, AlignedWidth;
    assert [s][1..] == [];
    assert NameBlocks([s]) == TextBlock(s) + [];
  }

  lemma EmptyBlock()
    ensures |TextBlock("")| == 8
  {
    BlockSpace("");
  }

  /** A packed kernel of more than 2^32 bytes whose name is not ASCII and whose code comes back all the same. */
  lemma ByAccident()
    ensures Packable(OddKernel(), []) && !Ascii(OddName()) && |Packed(OddKernel(), [])| >= TWO32
    ensures CodeComesBack(OddKernel(), [])
  {
    hide Packed, Parse, OddName, Registered, OddLayout;
    OddPackable();
    OddRegistered();
    OddLayoutParses(Registered(Packed(OddKernel(), [])));
  }

  // --------------------------------------------------------------- the packer

  lemma AlignedNames(names: seq<string>, i: nat)
    requires i < |names|
    ensures NamesSpace(names[i..]) == ALIGN_BYTES + AlignedWidth(|names[i]|) + NamesSpace(names[i + 1..])
    ensures AllPack(names) ==>
              NameBlocks(names[i..]) == TextBlock(names[i]) + NameBlocks(names[i + 1..])
  {
    assert names[i..][1..] == names[i + 1..];
  }

  /** The offset that the names take up, counted over the padded names. */
  method CountNames(names: seq<string>) returns (kernelList: seq<string>, offset: nat)
    ensures offset == NamesSpace(names)
    ensures |kernelList| == |names| && forall i :: 0 <= i < |names| ==> kernelList[i] == AlignedString(names[i])
  {
    kernelList, offset := [], 0;
    for i := 0 to |names|
      invariant |kernelList| == i && forall k :: 0 <= k < i ==> kernelList[k] == AlignedString(names[k])
    {
      kernelList := kernelList + [AlignedString(names[i])];
    }
    assert names[0..] == names;
    for i := 0 to |names|
      invariant offset + NamesSpace(names[i..]) == NamesSpace(names)
    {
      AlignedNames(names, i);
      offset := offset + ALIGN_BYTES + |kernelList[i]|;
    }
  }

  /** The loop that appends the names. */
  method AppendNames(header: seq<Byte>, names: seq<string>, kernelList: seq<string>) returns (r: seq<Byte>)
    requires AllPack(names)
    requires |kernelList| == |names| && forall i :: 0 <= i < |names| ==> kernelList[i] == AlignedString(names[i])
    ensures r == header + NameBlocks(names)
  {
    hide AlignedString, AlignedWidth, Encode, U32;
    r := header;
    assert names[0..] == names;
    for i := 0 to |names|
      invariant r + NameBlocks(names[i..]) == header + NameBlocks(names)
    {
      AlignedNames(names, i);
      r := r + (U32(|kernelList[i]|) + Encode(kernelList[i]));
    }
  }

  /**
   get_header_from_file, on the fields of the file; None for a file that is not there, is not json or lacks a key.
   The result None stands for the result False and for an exception.
   */
  method GetHeader(file: Option<Description>) returns (header: Option<seq<Byte>>)
    ensures header == match file
                      case None => None
                      case Some(d) =>
                        if Packable(d, [])
                        then Some(FixedHeader(d) + NameBlocks(d.kernelNames) + TextBlock(d.compileInfo)) else None
  {
    if file.None? {
      return None;
    }
    var d := file.value;
    hide NameBlocks, Encode, U32, AlignedString, AlignedWidth, PackWords;
    var compileInfo := AlignedString(d.compileInfo);
    var magic := MagicCode(d.magic);
    var kernelList, offset := CountNames(d.kernelNames);
    if magic.None? || |kernelList| == 0 || (d.ratios.Some? && |d.ratios.value| != 2) {
      return None;
    }
    var compileInfoOffset := offset;
    offset := offset + (ALIGN_BYTES + |compileInfo|);
    var taskRation := TaskRation(d.ratios);
    var lengthsFit := Packs(|compileInfo|);
    for i := 0 to |kernelList|
      invariant lengthsFit <==> Packs(|compileInfo|) && forall k :: 0 <= k < i ==> Packs(|kernelList[k]|)
    {
      lengthsFit := lengthsFit && Packs(|kernelList[i]|);
    }
    SpaceCovers(d.kernelNames);
    if !lengthsFit || !Packs(d.opParaSize) || !Packs(|kernelList|) || !Packs(d.intercoreSync) || !Packs(taskRation)
       || !Packs(offset) {
      return None;
    }
    var bytes := PackWords([0, magic.value, d.opParaSize, CoreTypeCode(d.coreType), |kernelList|,
                            0, compileInfoOffset, offset, d.intercoreSync, taskRation]);
    bytes := bytes + Zeros(HEADER_LENGTH - ALIGN_BYTES - |bytes|) + U32(0);
    assert bytes == FixedHeader(d);
    bytes := AppendNames(bytes, d.kernelNames, kernelList);
    header := Some(bytes + (U32(|compileInfo|) + Encode(compileInfo)));
  }

  lemma {:induction false} SpaceCovers(names: seq<string>)
    ensures forall i :: 0 <= i < |names| ==> AlignedWidth(|names[i]|) <= NamesSpace(names)
  {
    hide AlignedWidth;
    if names != [] {
      SpaceCovers(names[1..]);
      forall i | 0 <= i < |names|
        ensures AlignedWidth(|names[i]|) <= NamesSpace(names)
      {
        assert i > 0 ==> names[i] == names[1..][i - 1];
      }
    }
  }

  /** The bytes that write_to_cpp emits behind a header. */
  method AppendCode(header: seq<Byte>, code: seq<Byte>) returns (data: Option<seq<Byte>>)
    ensures data == if Packs(|code|) then Some(header + (U32(|code|) + code)) else None
  {
    if !Packs(|code|) {
      return None;
    }
    data := Some(header + U32(|code|) + code);
    assert header + U32(|code|) + code == header + (U32(|code|) + code);
  }

  /** The whole packer: it succeeds just when every word fits, and then emits the packed kernel. */
  method PackKernel(file: Option<Description>, code: seq<Byte>) returns (data: Option<seq<Byte>>)
    ensures data == if file.Some? && Packable(file.value, code) then Some(Packed(file.value, code)) else None
    ensures data.Some? ==> KnownMagic(file.value.magic) && HeaderSays(data.value, file.value)
    ensures file.Some? && !KnownMagic(file.value.magic) ==> data == None
  {
    hide FixedHeader, NameBlocks, TextBlock, U32, HeaderSays;
    var header := GetHeader(file);
    if header.None? {
      return None;
    }
    data := AppendCode(header.value, code);
    if data.Some? {
      var d := file.value;
      var rest := TextBlock(d.compileInfo) + (U32(|code|) + code);
      FirstSize(d, rest);
      FixedHeaderSays(d, NameBlocks(d.kernelNames) + rest);
      assert data.value == FixedHeader(d) + (NameBlocks(d.kernelNames) + rest);
    }
  }

  // --------------------------------------------------------------- the parser

  lemma CStringStep(b: seq<Byte>, pos: nat, n: nat)
    requires pos + n <= |b| && (forall i :: pos <= i < pos + n ==> b[i] != 0)
    ensures pos + n == |b| ==> CString(b, pos) == None
    ensures pos + n < |b| && b[pos + n] == 0 ==> CString(b, pos) == Some(b[pos..pos + n])
    decreases n
  {
    if n > 0 {
      CStringStep(b, pos + 1, n - 1);
      assert pos + n < |b| ==> b[pos..pos + n] == [b[pos]] + b[pos + 1..pos + n];
    }
  }

  /** Construction of a std::string from a pointer; running off the buffer is the result None. */
  method ReadString(b: seq<Byte>, pos: nat) returns (r: Option<seq<Byte>>)
    requires pos <= |b|
    ensures r == CString(b, pos)
  {
    hide CString;
    var n := 0;
    while pos + n < |b| && b[pos + n] != 0
      invariant pos + n <= |b| && forall i :: pos <= i < pos + n ==> b[i] != 0
    {
      n := n + 1;
    }
    CStringStep(b, pos, n);
    r := if pos + n < |b| then Some(b[pos..pos + n]) else None;
  }

  class BinHandle {
    var metaInfo: MetaInfo
    var codeLoadSuccess: bool

    constructor ()
      ensures !codeLoadSuccess && metaInfo.kernelList == []
    {
      metaInfo := MetaInfo(0, 0, 0, 0, 0, 0, 0, [], [], []);
      codeLoadSuccess := false;
    }

    /**
     Init, for an array of bytes and the length that is registered for it. Names are added to those the handle has,
     also by an Init that fails. Whether the runtime registers the code is a parameter.
     */
    method Init(binary: Option<seq<Byte>>, registers: bool) returns (ok: bool)
      modifies this
      ensures ok == codeLoadSuccess
                 == (binary.Some? && ParseOnto(Registered(binary.value), old(metaInfo.kernelList)).Some? && registers)
      ensures ok ==> metaInfo == ParseOnto(Registered(binary.value), old(metaInfo.kernelList)).value
      ensures metaInfo.kernelList == old(metaInfo.kernelList) + NamesAdded(binary)
    {
      hide U32At, CString, NamesRead, Registered;
      codeLoadSuccess, ok := false, false;
      assert metaInfo.kernelList + [] == metaInfo.kernelList;
      if binary.None? || |Registered(binary.value)| <= HEADER_LENGTH {
        return;
      }
      var b := Registered(binary.value);
      metaInfo := metaInfo.(version := U32At(b, 0), magic := U32At(b, 4), tilingSize := U32At(b, 8),
                            coreType := U32At(b, 12), intercoreSync := U32At(b, 32),
                            cubeRatio := U32At(b, 36) / 0x1_0000, vectorRatio := U32At(b, 36) % 0x1_0000);
      var names := ReadNames(b, HEADER_LENGTH + U32At(b, 20), U32At(b, 16));
      metaInfo := metaInfo.(kernelList := metaInfo.kernelList + names);
      if |names| < U32At(b, 16) {
        return;
      }
      var compileInfoStart := HEADER_LENGTH + U32At(b, 24);
      if compileInfoStart + 4 > |b| {
        return;
      }
      var compileInfo := ReadString(b, compileInfoStart + 4);
      if compileInfo.None? || |compileInfo.value| >= U32At(b, compileInfoStart) {
        return;
      }
      metaInfo := metaInfo.(compileInfo := compileInfo.value);
      var kernelBinStart := HEADER_LENGTH + U32At(b, 28);
      if kernelBinStart + 4 > |b| || kernelBinStart + 4 + U32At(b, kernelBinStart) != |b| {
        return;
      }
      metaInfo := metaInfo.(code := b[kernelBinStart + 4..]);
      if metaInfo.kernelList == [] || metaInfo.magic == 0 || !registers {
        return;
      }
      codeLoadSuccess, ok := true, true;
    }
  }

  /** The names that an Init adds, whether it succeeds or not. */
  function NamesAdded(binary: Option<seq<Byte>>): seq<seq<Byte>>
  {
    if binary.None? || |Registered(binary.value)| <= HEADER_LENGTH then []
    else
      var b := Registered(binary.value);
      NamesRead(b, HEADER_LENGTH + U32At(b, 20), U32At(b, 16))
  }

  lemma NamesReadStep(b: seq<Byte>, start: nat, num: nat)
    requires num > 0
    ensures NamesRead(b, start, num)
         == if start + 4 > |b| || start + 4 + U32At(b, start) > |b| then []
            else
              var str := CString(b, start + 4);
              if str.None? || |str.value| >= U32At(b, start) then []
              else [str.value] + NamesRead(b, start + 4 + U32At(b, start), num - 1)
  {
    hide CString, U32At;
  }

  /** The loop that advances the cursor over the names, up to the first failing check. */
  method ReadNames(b: seq<Byte>, start: nat, num: nat) returns (list: seq<seq<Byte>>)
    ensures list == NamesRead(b, start, num)
  {
    hide CString, U32At, NamesRead;
    var kernelNameStart: nat, count: nat := start, 0;
    list := [];
    while count < num
      invariant count <= num
      invariant NamesRead(b, start, num) == list + NamesRead(b, kernelNameStart, num - count)
    {
      NamesReadStep(b, kernelNameStart, num - count);
      if kernelNameStart + 4 > |b| {
        return;
      }
      var kernelNameSize := U32At(b, kernelNameStart);
      if kernelNameStart + 4 + kernelNameSize > |b| {
        return;
      }
      var str := ReadString(b, kernelNameStart + 4);
      if str.None? || |str.value| >= kernelNameSize {
        return;
      }
      list := list + [str.value];
      kernelNameStart := kernelNameStart + 4 + kernelNameSize;
      count := count + 1;
    }
  }
}
