/**
 Tensor lists: the descriptor block that a list argument points to. A block is a run of 64-bit words:
 the byte offset of its pointers, then rank and index and the dims of every tensor, then the pointers.
 */
module TensorList {
  import opened Bytes
  import opened Splices
  import opened SlotFill
  import opened KernelInfos

  const TWO32 := 0x1_0000_0000

  /** A dimension is an int64, stored through a uint64 pointer. */
  predicate Int64(d: int) { -0x8000_0000_0000_0000 <= d < 0x8000_0000_0000_0000 }

  function DimWord(d: int): nat
    requires Int64(d)
  {
    if d >= 0 then d else d + TWO64
  }

  function WordDim(w: nat): int
  {
    if w < 0x8000_0000_0000_0000 then w else w - TWO64
  }

  predicate Storable(t: Tensor)
  {
    t.data < TWO64 && |t.dims| < TWO32 && forall i :: 0 <= i < |t.dims| ==> Int64(t.dims[i])
  }

  predicate AllStorable(g: seq<Tensor>)
  {
    |g| < TWO32 && forall i :: 0 <= i < |g| ==> Storable(g[i])
  }

  function DimWords(dims: seq<int>): (r: seq<nat>)
    requires forall i :: 0 <= i < |dims| ==> Int64(dims[i])
    ensures |r| == |dims|
  {
    seq(|dims|, i requires 0 <= i < |dims| => DimWord(dims[i]))
  }

  function WordDims(words: seq<nat>): (r: seq<int>)
    ensures |r| == |words|
  {
    seq(|words|, i requires 0 <= i < |words| => WordDim(words[i]))
  }

  lemma WordDimsInverse(dims: seq<int>)
    requires forall i :: 0 <= i < |dims| ==> Int64(dims[i])
    ensures WordDims(DimWords(dims)) == dims
  {
    forall i | 0 <= i < |dims|
      ensures WordDims(DimWords(dims))[i] == dims[i]
    {
      assert Int64(dims[i]);
    }
  }

  /** Two 32-bit stores into one word: the rank, and the tensor's index in its list. */
  function HeaderWord(rank: nat, index: nat): nat
  {
    rank + TWO32 * index
  }

  function Headers(g: seq<Tensor>): seq<nat>
    requires AllStorable(g)
  {
    if g == [] then []
    else
      var last := g[|g| - 1];
      Headers(g[..|g| - 1]) + ([HeaderWord(|last.dims|, |g| - 1)] + DimWords(last.dims))
  }

  function DataOffset(g: seq<Tensor>): nat
    requires AllStorable(g)
  {
    1 + |Headers(g)|
  }

  function Block(g: seq<Tensor>): seq<nat>
    requires AllStorable(g)
  {
    [DataOffset(g) * 8] + Headers(g) + Data(g)
  }

  /** The headers of the first tensors come first. */
  lemma {:induction false} HeadersPrefix(g: seq<Tensor>, j: nat)
    requires AllStorable(g) && j < |g|
    ensures Headers(g[..j]) + ([HeaderWord(|g[j].dims|, j)] + DimWords(g[j].dims)) <= Headers(g)
    decreases g
  {
    var front := g[..|g| - 1];
    if j < |g| - 1 {
      HeadersPrefix(front, j);
      assert front[..j] == g[..j];
      assert Headers(front) <= Headers(g);
    }
  }

  // ---------------------------------------------------------------- decode

  /** Reads the descriptors from pos up to the pointers, following the offset in the first word. */
  function DecodeFrom(words: seq<nat>, pos: nat): seq<Tensor>
    requires words != []
    decreases |words| - pos
  {
    var dataOffset := words[0] / 8;
    if pos >= dataOffset || pos >= |words| then []
    else
      var rank, index := words[pos] % TWO32, words[pos] / TWO32;
      if pos + 1 + rank > dataOffset || dataOffset + index >= |words| then []
      else
        [Tensor(WordDims(words[pos + 1..pos + 1 + rank]), words[dataOffset + index])]
        + DecodeFrom(words, pos + 1 + rank)
  }

  lemma HeaderSplit(rank: nat, index: nat)
    requires rank < TWO32
    ensures HeaderWord(rank, index) % TWO32 == rank && HeaderWord(rank, index) / TWO32 == index
  {
  }

  /** Decoding one descriptor. */
  lemma DecodeStep(words: seq<nat>, d: nat, pos: nat, t: Tensor, index: nat)
    requires Storable(t) && d + index < |words| && words[0] == 8 * d && pos + 1 + |t.dims| <= d
    requires words[pos] == HeaderWord(|t.dims|, index) && words[d + index] == t.data
    requires words[pos + 1..pos + 1 + |t.dims|] == DimWords(t.dims)
    ensures DecodeFrom(words, pos) == [t] + DecodeFrom(words, pos + 1 + |t.dims|)
  {
    hide DimWords, WordDims, HeaderWord;
    HeaderSplit(|t.dims|, index);
    WordDimsInverse(t.dims);
  }

  lemma DecodeEnd(g: seq<Tensor>)
    requires AllStorable(g)
    ensures DecodeFrom(Block(g), DataOffset(g)) == []
  {
  }

  lemma {:induction false} DecodeTail(g: seq<Tensor>, j: nat)
    requires AllStorable(g) && j <= |g|
    ensures DecodeFrom(Block(g), 1 + |Headers(g[..j])|) == g[j..]
    decreases |g| - j
  {
    hide DecodeFrom, Block, Headers, DimWords, HeaderWord, Storable, Data;
    if j == |g| {
      DecodeEnd(g);
      assert g[..j] == g;
    } else {
      BlockWords(g, j);
      HeadersStep(g, j);
      DecodeStep(Block(g), DataOffset(g), 1 + |Headers(g[..j])|, g[j], j);
      DecodeTail(g, j + 1);
      assert g[j..] == [g[j]] + g[j + 1..];
    }
  }

  lemma HeadersNone()
    ensures Headers([]) == []
  {
  }

  lemma HeadersStep(g: seq<Tensor>, j: nat)
    requires AllStorable(g) && j < |g|
    ensures |Headers(g[..j + 1])| == |Headers(g[..j])| + 1 + |g[j].dims|
    ensures Headers(g[..j + 1]) == Headers(g[..j]) + ([HeaderWord(|g[j].dims|, j)] + DimWords(g[j].dims))
  {
    assert g[..j + 1][..j] == g[..j];
  }

  /** Where the words of tensor j are. */
  lemma BlockWords(g: seq<Tensor>, j: nat)
    requires AllStorable(g) && j < |g|
    ensures var words, pos := Block(g), 1 + |Headers(g[..j])|;
            && pos + 1 + |g[j].dims| <= DataOffset(g) && |words| == DataOffset(g) + |g|
            && words[0] == 8 * DataOffset(g)
            && words[pos] == HeaderWord(|g[j].dims|, j)
            && words[pos + 1..pos + 1 + |g[j].dims|] == DimWords(g[j].dims)
            && words[DataOffset(g) + j] == g[j].data
  {
    hide Headers;
    HeadersPrefix(g, j);
    var part := Headers(g[..j]) + ([HeaderWord(|g[j].dims|, j)] + DimWords(g[j].dims));
    assert Block(g)[1..1 + |part|] == Headers(g)[..|part|] == part;
    var at := |Headers(g[..j])|;
    assert Block(g)[1 + at] == part[at];
    assert part[at + 1..] == DimWords(g[j].dims);
    assert Block(g)[1 + at + 1..1 + |part|] == Block(g)[1..1 + |part|][at + 1..];
  }

  /** Reading a block back gives every listed tensor's dims and data pointer. */
  lemma DecodeBlock(g: seq<Tensor>)
    requires AllStorable(g)
    ensures DecodeFrom(Block(g), 1) == g
  {
    DecodeTail(g, 0);
    assert g[..0] == [] && g[0..] == g;
  }

  // ------------------------------------------------------ building the lists

  /** The blocks of all lists among the lengths, one after the other. */
  function ListWords(tensors: seq<Tensor>, lens: seq<int>, id: nat): seq<nat>
    requires AllStorable(tensors) && id + Flat(lens) <= |tensors|
  {
    if lens == [] then []
    else (if lens[0] > 0 then Block(tensors[id..id + lens[0]]) else [])
         + ListWords(tensors, lens[1..], id + Width(lens[0]))
  }

  /** What is recorded for them: argument index and size in bytes. */
  function ListInfos(tensors: seq<Tensor>, lens: seq<int>, id: nat, argIdx: nat): seq<ConstTensor>
    requires AllStorable(tensors) && id + Flat(lens) <= |tensors|
  {
    if lens == [] then []
    else (if lens[0] > 0 then [ConstTensor(argIdx, 8 * |Block(tensors[id..id + lens[0]])|)] else [])
         + ListInfos(tensors, lens[1..], id + Width(lens[0]), argIdx + 1)
  }

  /** The recorded sizes add up to the bytes written. */
  lemma {:induction false} InfosMatchWords(tensors: seq<Tensor>, lens: seq<int>, id: nat, argIdx: nat)
    requires AllStorable(tensors) && id + Flat(lens) <= |tensors|
    ensures SumSizes(ListInfos(tensors, lens, id, argIdx)) == 8 * |ListWords(tensors, lens, id)|
    decreases lens
  {
    hide Block, SumSizes;
    assert SumSizes([]) == 0 by { SumSizesNone(); }
    if lens != [] {
      InfosMatchWords(tensors, lens[1..], id + Width(lens[0]), argIdx + 1);
      var rest := ListInfos(tensors, lens[1..], id + Width(lens[0]), argIdx + 1);
      if lens[0] > 0 {
        var c := ConstTensor(argIdx, 8 * |Block(tensors[id..id + lens[0]])|);
        SumSizesAppend([c], rest);
        SumSizesOne(c);
      } else {
        assert [] + rest == rest;
      }
    }
  }

  lemma SumSizesNone()
    ensures SumSizes([]) == 0
  {
  }

  lemma SumSizesOne(c: ConstTensor)
    ensures SumSizes([c]) == c.size
  {
    assert [c][..0] == [];
  }

  /** Words written into the 8-byte slots of a buffer. */
  method WriteWords(buf: array<Byte>, n: nat, at: nat, dims: seq<int>)
    requires 8 * n <= buf.Length && at + |dims| <= n
    requires forall i :: 0 <= i < |dims| ==> Int64(dims[i])
    modifies buf
    ensures Slots(buf[..], n) == Splice<nat>(old(Slots(buf[..], n)), at, DimWords(dims))
  {
    hide Slots, Splice;
    ghost var s, words := Slots(buf[..], n), DimWords(dims);
    SpliceNothing<nat>(s, at);
    assert words[..0] == [];
    for j := 0 to |dims|
      invariant Slots(buf[..], n) == Splice<nat>(s, at, words[..j])
    {
      WriteSlot(buf, n, at + j, DimWord(dims[j]));
      SpliceOne<nat>(Splice<nat>(s, at, words[..j]), at + j, words[j]);
      SpliceAppend<nat>(s, at, words[..j], [words[j]]);
      assert words[..j + 1] == words[..j] + [words[j]];
    }
    assert words[..|dims|] == words;
  }

  /** The block once the first j tensors are in: its first word, j headers from the front, j pointers. */
  function PartBlock(s: seq<nat>, base: nat, g: seq<Tensor>, j: nat): (r: seq<nat>)
    requires AllStorable(g) && j <= |g| && base + |Block(g)| <= |s|
    ensures |r| == |s|
  {
    PartFits(g, j);
    Splice<nat>(Splice<nat>(s, base, [DataOffset(g) * 8] + Headers(g[..j])), base + DataOffset(g), Data(g)[..j])
  }

  lemma PartFits(g: seq<Tensor>, j: nat)
    requires AllStorable(g) && j <= |g|
    ensures |Headers(g[..j])| <= |Headers(g)| && |Block(g)| == DataOffset(g) + |g|
  {
    if j < |g| {
      HeadersPrefix(g, j);
    } else {
      assert g[..j] == g;
    }
  }

  lemma PartStep(s: seq<nat>, base: nat, g: seq<Tensor>, j: nat)
    requires AllStorable(g) && j < |g| && base + |Block(g)| <= |s|
    ensures var at, words := base + 1 + |Headers(g[..j])|, [HeaderWord(|g[j].dims|, j)] + DimWords(g[j].dims);
            && at + |words| <= base + DataOffset(g)
            && PartBlock(s, base, g, j + 1)
            == Splice<nat>(Splice<nat>(PartBlock(s, base, g, j), at, words), base + DataOffset(g) + j, [g[j].data])
  {
    hide Splice, Headers, DimWords;
    var d := base + DataOffset(g);
    var h: seq<nat>, p: seq<nat> := [DataOffset(g) * 8] + Headers(g[..j]), Data(g)[..j];
    var words: seq<nat> := [HeaderWord(|g[j].dims|, j)] + DimWords(g[j].dims);
    PartFits(g, j);
    PartFits(g, j + 1);
    HeadersStep(g, j);
    var inner := Splice<nat>(s, base, h);
    SpliceCommute<nat>(inner, base + |h|, words, d, p);
    SpliceAppend<nat>(s, base, h, words);
    assert h + words == [DataOffset(g) * 8] + Headers(g[..j + 1]);
    SpliceAppend<nat>(Splice<nat>(s, base, h + words), d, p, [g[j].data]);
    assert p + [g[j].data] == Data(g)[..j + 1];
  }

  lemma PartEnd(s: seq<nat>, base: nat, g: seq<Tensor>)
    requires AllStorable(g) && base + |Block(g)| <= |s|
    ensures PartBlock(s, base, g, |g|) == Splice<nat>(s, base, Block(g))
  {
    hide Splice, Headers;
    assert g[..|g|] == g && Data(g)[..|g|] == Data(g);
    SpliceAppend<nat>(s, base, [DataOffset(g) * 8] + Headers(g), Data(g));
  }

  /** Rank, index and dims of one tensor at one place, its data pointer at another. */
  method WriteDescriptor(buf: array<Byte>, n: nat, at: nat, pointerAt: nat, t: Tensor, index: nat)
    requires 8 * n <= buf.Length && Storable(t) && index < TWO32
    requires at + 1 + |t.dims| <= pointerAt < n
    modifies buf
    ensures Slots(buf[..], n)
         == Splice<nat>(Splice<nat>(old(Slots(buf[..], n)), at, [HeaderWord(|t.dims|, index)] + DimWords(t.dims)),
                        pointerAt, [t.data])
  {
    hide Slots, Splice, DimWords;
    ghost var s := Slots(buf[..], n);
    ghost var h: nat := HeaderWord(|t.dims|, index);
    WriteSlot(buf, n, at, |t.dims| + TWO32 * index);
    SpliceOne<nat>(s, at, h);
    WriteWords(buf, n, at + 1, t.dims);
    SpliceAppend<nat>(s, at, [h], DimWords(t.dims));
    ghost var u := Slots(buf[..], n);
    WriteSlot(buf, n, pointerAt, t.data);
    SpliceOne<nat>(u, pointerAt, t.data);
  }

  /** One list: headers and dims from the front, pointers from dataOffset on. */
  method WriteBlock(buf: array<Byte>, n: nat, base: nat, g: seq<Tensor>)
    requires 8 * n <= buf.Length && AllStorable(g) && g != [] && base + |Block(g)| <= n
    requires DataOffset(g) * 8 < TWO64
    modifies buf
    ensures Slots(buf[..], n) == Splice<nat>(old(Slots(buf[..], n)), base, Block(g))
  {
    hide Slots, Splice, Headers, PartBlock, DimWords;
    ghost var s := Slots(buf[..], n);
    var sigleSize := BlockLength(g);
    HeadersNone();
    assert g[..0] == [] && g[..|g|] == g;
    var dataOffset := sigleSize - |g|;
    var curOffset := 1;
    assert dataOffset == DataOffset(g);
    WriteSlot(buf, n, base, dataOffset * 8);
    PartStart(s, base, g);
    for i := 0 to |g|
      invariant curOffset == 1 + |Headers(g[..i])|
      invariant Slots(buf[..], n) == PartBlock(s, base, g, i)
    {
      PartStep(s, base, g, i);
      PartFits(g, i);
      HeadersStep(g, i);
      WriteDescriptor(buf, n, base + curOffset, base + dataOffset + i, g[i], i);
      curOffset := curOffset + 1 + |g[i].dims|;
    }
    PartEnd(s, base, g);
  }

  lemma PartStart(s: seq<nat>, base: nat, g: seq<Tensor>)
    requires AllStorable(g) && g != [] && base + |Block(g)| <= |s|
    ensures PartBlock(s, base, g, 0) == s[base := DataOffset(g) * 8]
  {
    hide Splice;
    assert g[..0] == [] && Data(g)[..0] == [];
    PartFits(g, 0);
    SpliceOne<nat>(s, base, DataOffset(g) * 8);
    HeadersNone();
    assert [DataOffset(g) * 8] + [] == [DataOffset(g) * 8];
    SpliceNothing<nat>(Splice<nat>(s, base, [DataOffset(g) * 8]), base + DataOffset(g));
  }

  // -------------------------------------------------------- all the lists

  /** Having turned s into t, the words before pos are done; todo is still to come. */
  ghost predicate Written(s: seq<nat>, t: seq<nat>, start: nat, pos: nat, all: seq<nat>, todo: seq<nat>)
  {
    && start <= pos <= |s| && start + |all| <= |s| && pos + |todo| == start + |all|
    && todo == all[pos - start..]
    && t == Splice<nat>(s, start, all[..pos - start])
  }

  lemma WrittenStart(s: seq<nat>, start: nat, all: seq<nat>)
    requires start + |all| <= |s|
    ensures Written(s, s, start, start, all, all)
  {
    assert all[..0] == [] && all[0..] == all;
    SpliceNothing(s, start);
  }

  lemma WrittenStep(s: seq<nat>, t: seq<nat>, start: nat, pos: nat, all: seq<nat>, block: seq<nat>, todo: seq<nat>)
    requires Written(s, t, start, pos, all, block + todo)
    ensures pos + |block| <= |t| == |s|
    ensures Written(s, Splice<nat>(t, pos, block), start, pos + |block|, all, todo)
  {
    hide Splice;
    var done := all[..pos - start];
    assert all == done + (block + todo);
    assert all[..pos + |block| - start] == done + block;
    SpliceAppend<nat>(s, start, done, block);
  }

  lemma WrittenEnd(s: seq<nat>, t: seq<nat>, start: nat, pos: nat, all: seq<nat>)
    requires Written(s, t, start, pos, all, [])
    ensures pos == start + |all| && t == Splice<nat>(s, start, all)
  {
    assert all[..|all|] == all;
  }

  /**
   BuildTensorList: every entry that is a list gets its block, right behind the previous one, and is
   recorded under its argument index. An entry for a plain tensor only moves the tensor number on.
   */
  method BuildTensorList(buf: array<Byte>, n: nat, start: nat, lens: seq<int>, tensors: seq<Tensor>, idxOffset: nat)
    returns (useSize: nat, infos: seq<ConstTensor>)
    requires 8 * n <= buf.Length && AllStorable(tensors) && Flat(lens) <= |tensors|
    requires start + |ListWords(tensors, lens, 0)| <= n && 8 * n < TWO64
    modifies buf
    ensures Slots(buf[..], n) == Splice<nat>(old(Slots(buf[..], n)), start, ListWords(tensors, lens, 0))
    ensures useSize == 8 * |ListWords(tensors, lens, 0)|
    ensures infos == ListInfos(tensors, lens, 0, idxOffset)
  {
    hide Slots, Splice, Written, Block, ListWords, ListInfos, Flat;
    ghost var s, all := Slots(buf[..], n), ListWords(tensors, lens, 0);
    var tensorId: nat, base: nat := 0, start;
    infos := [];
    WrittenStart(s, start, all);
    assert lens[0..] == lens;
    for i := 0 to |lens|
      invariant tensorId + Flat(lens[i..]) <= |tensors|
      invariant Written(s, Slots(buf[..], n), start, base, all, ListWords(tensors, lens[i..], tensorId))
      invariant infos + ListInfos(tensors, lens[i..], tensorId, i + idxOffset) == ListInfos(tensors, lens, 0, idxOffset)
    {
      var len := lens[i];
      ListStep(tensors, lens, i, tensorId, i + idxOffset);
      assert len <= 0 ==>
          ListWords(tensors, lens[i..], tensorId) == ListWords(tensors, lens[i + 1..], tensorId + Width(len));
      if len > 0 {
        var g := tensors[tensorId..tensorId + len];
        ghost var t := Slots(buf[..], n);
        WrittenStep(s, t, start, base, all, Block(g), ListWords(tensors, lens[i + 1..], tensorId + len));
        BlockShape(g);
        WriteBlock(buf, n, base, g);
        var sigleSize := BlockLength(g);
        base := base + sigleSize;
        infos := infos + [ConstTensor(i + idxOffset, sigleSize * 8)];
        tensorId := tensorId + len;
      } else if len == 0 {
        tensorId := tensorId + 1;
      }
    }
    ListDone(tensors, lens[|lens|..], tensorId, |lens| + idxOffset);
    WrittenEnd(s, Slots(buf[..], n), start, base, all);
    useSize := (base - start) * 8;
  }

  lemma BlockShape(g: seq<Tensor>)
    requires AllStorable(g)
    ensures |Block(g)| == DataOffset(g) + |g| && Block(g) != []
  {
  }

  /** The first loop over a list: one word, and rank, dims and pointer for every tensor. */
  method BlockLength(g: seq<Tensor>) returns (sigleSize: nat)
    requires AllStorable(g)
    ensures sigleSize == |Block(g)|
  {
    hide Headers;
    HeadersNone();
    assert g[..0] == [];
    sigleSize := |g| + 1;
    for i := 0 to |g|
      invariant sigleSize == |g| + 1 + |Headers(g[..i])|
    {
      HeadersStep(g, i);
      sigleSize := sigleSize + |g[i].dims| + 1;
    }
    assert g[..|g|] == g;
  }

  lemma ListStep(tensors: seq<Tensor>, lens: seq<int>, i: nat, id: nat, argIdx: nat)
    requires AllStorable(tensors) && i < |lens| && id + Flat(lens[i..]) <= |tensors|
    ensures id + Width(lens[i]) + Flat(lens[i + 1..]) <= |tensors|
    ensures ListWords(tensors, lens[i..], id)
         == (if lens[i] > 0 then Block(tensors[id..id + lens[i]]) else [])
          + ListWords(tensors, lens[i + 1..], id + Width(lens[i]))
    ensures ListInfos(tensors, lens[i..], id, argIdx)
         == (if lens[i] > 0 then [ConstTensor(argIdx, 8 * |Block(tensors[id..id + lens[i]])|)] else [])
          + ListInfos(tensors, lens[i + 1..], id + Width(lens[i]), argIdx + 1)
  {
    hide Block;
    assert lens[i..][1..] == lens[i + 1..];
  }

  lemma ListDone(tensors: seq<Tensor>, lens: seq<int>, id: nat, argIdx: nat)
    requires AllStorable(tensors) && lens == [] && id + Flat(lens) <= |tensors|
    ensures ListWords(tensors, lens, id) == [] && ListInfos(tensors, lens, id, argIdx) == []
  {
  }

  // ------------------------------------------------------- finding a list again

  lemma {:induction false} FlatSplit(a: seq<int>, b: seq<int>)
    ensures Flat(a + b) == Flat(a) + Flat(b)
  {
    if a == [] {
      assert a + b == b;
    } else {
      assert (a + b)[1..] == a[1..] + b;
      FlatSplit(a[1..], b);
    }
  }

  lemma FlatNone()
    ensures Flat([]) == 0
  {
  }

  lemma FlatStep(lens: seq<int>)
    requires lens != []
    ensures Flat(lens) == Width(lens[0]) + Flat(lens[1..])
  {
  }

  lemma {:induction false} ListSplit(tensors: seq<Tensor>, a: seq<int>, b: seq<int>, id: nat, argIdx: nat)
    requires AllStorable(tensors) && id + Flat(a + b) <= |tensors|
    ensures Flat(a + b) == Flat(a) + Flat(b)
    ensures ListWords(tensors, a + b, id) == ListWords(tensors, a, id) + ListWords(tensors, b, id + Flat(a))
    ensures ListInfos(tensors, a + b, id, argIdx)
         == ListInfos(tensors, a, id, argIdx) + ListInfos(tensors, b, id + Flat(a), argIdx + |a|)
    decreases a
  {
    hide Block, ListWords, ListInfos, Flat, AllStorable;
    FlatSplit(a, b);
    if a == [] {
      FlatNone();
      ListDone(tensors, a, id, argIdx);
      assert a + b == b;
    } else {
      var c := a + b;
      assert c[1..] == a[1..] + b && c[0..] == c && a[0..] == a;
      ListStep(tensors, c, 0, id, argIdx);
      FlatStep(a);
      ListStep(tensors, a, 0, id, argIdx);
      ListSplit(tensors, a[1..], b, id + Width(a[0]), argIdx + 1);
    }
  }

  /** The tensors of the list at entry q. */
  function Group(tensors: seq<Tensor>, lens: seq<int>, q: nat): seq<Tensor>
    requires Flat(lens) <= |tensors| && q < |lens| && lens[q] > 0
  {
    GroupFits(lens, q);
    tensors[Flat(lens[..q])..Flat(lens[..q]) + lens[q]]
  }

  lemma GroupFits(lens: seq<int>, q: nat)
    requires q < |lens|
    ensures Flat(lens[..q]) + Width(lens[q]) + Flat(lens[q + 1..]) == Flat(lens)
  {
    assert lens == lens[..q] + ([lens[q]] + lens[q + 1..]);
    FlatSplit(lens[..q], [lens[q]] + lens[q + 1..]);
    FlatSplit([lens[q]], lens[q + 1..]);
  }

  /** The block of entry q lies behind the blocks of the entries before it, and is recorded with its index and size. */
  lemma ListAt(tensors: seq<Tensor>, lens: seq<int>, argIdx: nat, q: nat)
    requires AllStorable(tensors) && Flat(lens) <= |tensors| && q < |lens| && lens[q] > 0
    ensures Flat(lens[..q]) <= |tensors| && AllStorable(Group(tensors, lens, q))
    ensures var g, words := Group(tensors, lens, q), ListWords(tensors, lens, 0);
            var infos := ListInfos(tensors, lens, 0, argIdx);
            var off, m := |ListWords(tensors, lens[..q], 0)|, |ListInfos(tensors, lens[..q], 0, argIdx)|;
            && off + |Block(g)| <= |words| && words[off..off + |Block(g)|] == Block(g)
            && m < |infos| && infos[m] == ConstTensor(argIdx + q, 8 * |Block(g)|)
            && SumSizes(infos[..m]) == 8 * off
  {
    hide Block, Flat, ListWords, ListInfos, SumSizes;
    GroupFits(lens, q);
    assert lens == lens[..q] + lens[q..];
    ListSplit(tensors, lens[..q], lens[q..], 0, argIdx);
    ListStep(tensors, lens, q, Flat(lens[..q]), argIdx + q);
    InfosMatchWords(tensors, lens[..q], 0, argIdx);
    var infos := ListInfos(tensors, lens, 0, argIdx);
    var front := ListInfos(tensors, lens[..q], 0, argIdx);
    assert infos[..|front|] == front;
  }

  lemma {:induction false} HeadersFit(g: seq<Tensor>)
    requires AllStorable(g)
    ensures forall k :: 0 <= k < |Headers(g)| ==> Headers(g)[k] < TWO64
  {
    if g != [] {
      var last := g[|g| - 1];
      HeadersFit(g[..|g| - 1]);
      assert Storable(last);
    }
  }

  /** Every word of a block fits 64 bits. */
  lemma BlockFits(g: seq<Tensor>)
    requires AllStorable(g) && 8 * |Block(g)| < TWO64
    ensures forall k :: 0 <= k < |Block(g)| ==> Block(g)[k] < TWO64
  {
    HeadersFit(g);
    forall k | 0 <= k < |g|
      ensures Data(g)[k] < TWO64
    {
      assert Storable(g[k]);
    }
  }

  /** A block read back from bytes gives every listed tensor's dims and data pointer. */
  lemma DecodeBytes(g: seq<Tensor>, b: seq<Byte>, at: nat)
    requires AllStorable(g) && 8 * |Block(g)| < TWO64 && at + 8 * |Block(g)| <= |b|
    requires b[at..at + 8 * |Block(g)|] == WordBytes(Block(g))
    ensures DecodeFrom(Slots(b[at..at + 8 * |Block(g)|], |Block(g)|), 1) == g
  {
    hide Slots, WordBytes, Block, DecodeFrom;
    BlockFits(g);
    SlotsOfWords(Block(g));
    BlockShape(g);
    DecodeBlock(g);
  }
}
