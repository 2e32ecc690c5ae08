/**
 The unpad device kernel: whole aligned rows are copied over each other so that what remains is the
 concatenation of the valid parts, followed by zeros. Device copies are plain sequential copies here.
 */
module Unpad {
  import opened Powers
  import opened Splices

  const ELE_PER_BLK := 8
  const MAX_BATCH_NUM := 64

  function AlignUp(n: nat): (r: nat)
    ensures n <= r < n + 8 && r % 8 == 0 && (n <= 64 ==> r <= 64)
  {
    (n + ELE_PER_BLK - 1) / ELE_PER_BLK * ELE_PER_BLK
  }

  function Repeat(n: nat, v: int): (r: seq<int>)
    ensures |r| == n && forall i :: 0 <= i < n ==> r[i] == v
  {
    seq(n, _ => v)
  }

  // ----------------------------------------------------------- specification

  /** Where row i starts in the output: behind the valid parts of the rows before it. */
  function Start(seqLen: seq<nat>, i: nat): nat
    requires i <= |seqLen|
  {
    if i == 0 then 0 else Start(seqLen, i - 1) + seqLen[i - 1]
  }

  function Total(seqLen: seq<nat>): nat { Start(seqLen, |seqLen|) }

  lemma {:induction false} StartMonotone(seqLen: seq<nat>, i: nat, j: nat)
    requires i <= j <= |seqLen|
    ensures Start(seqLen, i) <= Start(seqLen, j)
  {
    if i < j {
      StartMonotone(seqLen, i, j - 1);
    }
  }

  /** What the host passes in: sequence lengths within a row, and the running sums of the padding. */
  predicate Shaped(pad: nat, seqLen: seq<nat>, cum: seq<int>)
  {
    && 1 <= |seqLen| <= MAX_BATCH_NUM && |seqLen| <= |cum|
    && (forall i :: 0 <= i < |seqLen| ==> seqLen[i] <= pad)
    && forall i :: 0 <= i < |seqLen| ==> cum[i] == Padding(pad, seqLen, i + 1)
  }

  /** The padding in the first i rows. */
  function Padding(pad: nat, seqLen: seq<nat>, i: nat): int
    requires i <= |seqLen|
  {
    Times(i, pad) - Start(seqLen, i)
  }

  /** Rows of one width, as many as there are lengths, each at least as long as its valid part. */
  predicate Rows(rows: seq<seq<int>>, width: nat, seqLen: seq<nat>)
  {
    |rows| == |seqLen| && forall i :: 0 <= i < |rows| ==> |rows[i]| == width && seqLen[i] <= width
  }

  /** The valid parts of the first i rows, one after the other. */
  function Valid(rows: seq<seq<int>>, width: nat, seqLen: seq<nat>, i: nat): (r: seq<int>)
    requires Rows(rows, width, seqLen) && i <= |seqLen|
    ensures |r| == Start(seqLen, i)
  {
    if i == 0 then [] else Valid(rows, width, seqLen, i - 1) + rows[i - 1][..seqLen[i - 1]]
  }

  /** The output after i rows: each written whole at its start, and, when clear is set, zeros behind all valid parts. */
  function Overwritten(out: seq<int>, rows: seq<seq<int>>, width: nat, seqLen: seq<nat>, clear: bool, i: nat)
    : (r: seq<int>)
    requires Rows(rows, width, seqLen) && i <= |seqLen| && Total(seqLen) + width <= |out|
    ensures |r| == |out|
  {
    if i == 0 then out
    else
      StartMonotone(seqLen, i - 1, |seqLen|);
      var r := Splice(Overwritten(out, rows, width, seqLen, clear, i - 1), Start(seqLen, i - 1), rows[i - 1]);
      if clear then Splice(r, Total(seqLen), Repeat(width, 0)) else r
  }

  /** Later rows leave exactly the valid parts of the earlier ones, and stay within one row of the total. */
  lemma {:induction false} OverwrittenKeeps(out: seq<int>, rows: seq<seq<int>>, width: nat, seqLen: seq<nat>,
                                            clear: bool, i: nat)
    requires Rows(rows, width, seqLen) && i <= |seqLen| && Total(seqLen) + width <= |out|
    ensures Start(seqLen, i) <= Total(seqLen)
    ensures Overwritten(out, rows, width, seqLen, clear, i)[..Start(seqLen, i)] == Valid(rows, width, seqLen, i)
    ensures Overwritten(out, rows, width, seqLen, clear, i)[Total(seqLen) + width..] == out[Total(seqLen) + width..]
  {
    hide Overwritten, Total, Valid, Splice, Repeat;
    StartMonotone(seqLen, i, |seqLen|);
    TotalIs(seqLen);
    if i == 0 {
      NothingOverwritten(out, rows, width, seqLen, clear);
    } else {
      OverwrittenKeeps(out, rows, width, seqLen, clear, i - 1);
      OverwrittenStep(out, rows, width, seqLen, clear, i);
      ValidStep(rows, width, seqLen, i);
      var was, at, row := Overwritten(out, rows, width, seqLen, clear, i - 1), Start(seqLen, i - 1), rows[i - 1];
      RowOver(was, at, row, seqLen[i - 1], Total(seqLen) + width);
      ZerosOver(Splice(was, at, row), Total(seqLen), Repeat(width, 0), Start(seqLen, i));
    }
  }

  lemma TotalIs(seqLen: seq<nat>)
    ensures Total(seqLen) == Start(seqLen, |seqLen|)
  {
  }

  lemma NothingOverwritten(out: seq<int>, rows: seq<seq<int>>, width: nat, seqLen: seq<nat>, clear: bool)
    requires Rows(rows, width, seqLen) && Total(seqLen) + width <= |out|
    ensures Overwritten(out, rows, width, seqLen, clear, 0) == out
    ensures Valid(rows, width, seqLen, 0) == []
  {
  }

  lemma OverwrittenStep(out: seq<int>, rows: seq<seq<int>>, width: nat, seqLen: seq<nat>, clear: bool, i: nat)
    requires Rows(rows, width, seqLen) && 0 < i <= |seqLen| && Total(seqLen) + width <= |out|
    ensures Start(seqLen, i - 1) <= Total(seqLen)
    ensures Overwritten(out, rows, width, seqLen, clear, i)
         == var r := Splice(Overwritten(out, rows, width, seqLen, clear, i - 1), Start(seqLen, i - 1), rows[i - 1]);
            if clear then Splice(r, Total(seqLen), Repeat(width, 0)) else r
  {
    StartMonotone(seqLen, i - 1, |seqLen|);
  }

  lemma ValidStep(rows: seq<seq<int>>, width: nat, seqLen: seq<nat>, i: nat)
    requires Rows(rows, width, seqLen) && 0 < i <= |seqLen|
    ensures Valid(rows, width, seqLen, i) == Valid(rows, width, seqLen, i - 1) + rows[i - 1][..seqLen[i - 1]]
  {
  }

  /** One row written at the end of a prefix. */
  lemma RowOver(was: seq<int>, at: nat, row: seq<int>, len: nat, end: nat)
    requires len <= |row| && at + |row| <= end <= |was|
    ensures Splice(was, at, row)[..at + len] == was[..at] + row[..len]
    ensures Splice(was, at, row)[end..] == was[end..]
  {
  }

  lemma ZerosOver(was: seq<int>, at: nat, zeros: seq<int>, len: nat)
    requires len <= at && at + |zeros| <= |was|
    ensures Splice(was, at, zeros)[..len] == was[..len]
    ensures Splice(was, at, zeros)[at + |zeros|..] == was[at + |zeros|..]
  {
  }

  /** What the output should be: all valid parts, zeros for one row, and what was there behind. */
  function Result(out: seq<int>, rows: seq<seq<int>>, width: nat, seqLen: seq<nat>): seq<int>
    requires Rows(rows, width, seqLen) && Total(seqLen) + width <= |out|
  {
    Valid(rows, width, seqLen, |seqLen|) + Repeat(width, 0) + out[Total(seqLen) + width..]
  }

  /** The overlapping copies, once zeros are written behind the total, come out at the result. */
  lemma Finished(out: seq<int>, rows: seq<seq<int>>, width: nat, seqLen: seq<nat>, clear: bool)
    requires Rows(rows, width, seqLen) && Total(seqLen) + width <= |out|
    ensures Splice(Overwritten(out, rows, width, seqLen, clear, |seqLen|), Total(seqLen), Repeat(width, 0))
         == Result(out, rows, width, seqLen)
  {
    hide Overwritten, Repeat, Valid;
    OverwrittenKeeps(out, rows, width, seqLen, clear, |seqLen|);
  }

  /** Where row progress goes: at what is left of the rows before it once their padding is taken out. */
  function Target(pad: nat, progress: nat, cumOffsets: seq<int>): int
    requires progress <= |cumOffsets|
  {
    if progress == 0 then 0 else Times(progress, pad) - cumOffsets[progress - 1]
  }

  // ----------------------------------------------------------- device copies

  method DataCopy(dst: array<int>, dstOff: nat, src: array<int>, srcOff: nat, n: nat)
    requires dst != src && dstOff + n <= dst.Length && srcOff + n <= src.Length
    modifies dst
    ensures dst[..] == Splice(old(dst[..]), dstOff, src[srcOff..srcOff + n])
  {
    for i := 0 to n
      invariant dst[..dstOff] == old(dst[..dstOff])
      invariant dst[dstOff..dstOff + i] == src[srcOff..srcOff + i]
      invariant dst[dstOff + i..] == old(dst[dstOff + i..])
    {
      ghost var was := dst[..];
      dst[dstOff + i] := src[srcOff + i];
      assert dst[..] == was[dstOff + i := src[srcOff + i]];
      assert dst[dstOff..dstOff + i + 1] == dst[dstOff..dstOff + i] + [src[srcOff + i]];
      assert src[srcOff..srcOff + i + 1] == src[srcOff..srcOff + i] + [src[srcOff + i]];
    }
    assert dst[..] == dst[..dstOff] + dst[dstOff..dstOff + n] + dst[dstOff + n..];
  }

  /** Duplicate over a whole local buffer, and the loop that clears one. */
  method Duplicate(dst: array<int>, v: int)
    modifies dst
    ensures dst[..] == Repeat(dst.Length, v)
  {
    for i := 0 to dst.Length
      invariant forall k :: 0 <= k < i ==> dst[k] == v
    {
      dst[i] := v;
    }
  }

  /** A copy that fills a local buffer. */
  method Load(dst: array<int>, src: array<int>, srcOff: nat)
    requires dst != src && srcOff + dst.Length <= src.Length
    modifies dst
    ensures dst[..] == src[srcOff..srcOff + dst.Length]
  {
    ghost var was := dst[..];
    DataCopy(dst, 0, src, srcOff, dst.Length);
    SpliceAll(was, src[srcOff..srcOff + dst.Length]);
  }

  // --------------------------------------------------------------- the kernel

  class KernelUnpad {
    const inputIdsGm: array<int>
    const cumOffsetsNowGm: array<int>
    const seqLenGm: array<int>
    const xRemovePaddingGm: array<int>
    const cumOffsetOutGm: array<int>
    const paddingOffsetGm: array<int>
    const padLength: nat
    const batch: nat
    const padLengthAlign: nat
    const batchAlign: nat

    constructor (inputIds: array<int>, cumOffsetsNow: array<int>, seqLen: array<int>, xRemovePadding: array<int>,
                 cumOffsetsOut: array<int>, paddingOffset: array<int>, padLength: nat, batch: nat)
      ensures inputIdsGm == inputIds && cumOffsetsNowGm == cumOffsetsNow && seqLenGm == seqLen
      ensures xRemovePaddingGm == xRemovePadding && cumOffsetOutGm == cumOffsetsOut && paddingOffsetGm == paddingOffset
      ensures this.padLength == padLength && this.batch == batch
      ensures padLengthAlign == AlignUp(padLength) && batchAlign == AlignUp(batch)
    {
      inputIdsGm, cumOffsetsNowGm, seqLenGm := inputIds, cumOffsetsNow, seqLen;
      xRemovePaddingGm, cumOffsetOutGm, paddingOffsetGm := xRemovePadding, cumOffsetsOut, paddingOffset;
      this.padLength, this.batch := padLength, batch;
      padLengthAlign, batchAlign := AlignUp(padLength), AlignUp(batch);
    }

    /** CopyIn and ComputeRemovePadding: a whole aligned row, by way of a queue. */
    method CopyIn(progress: nat, inputIdsLocal: array<int>, xRemovePaddingLocal: array<int>)
      requires inputIdsLocal != inputIdsGm && xRemovePaddingLocal != inputIdsLocal
      requires inputIdsLocal.Length == xRemovePaddingLocal.Length == padLengthAlign
      requires Times(progress, padLength) + padLengthAlign <= inputIdsGm.Length
      requires xRemovePaddingLocal != inputIdsGm
      modifies inputIdsLocal, xRemovePaddingLocal
      ensures xRemovePaddingLocal[..]
           == inputIdsGm[..][Times(progress, padLength)..Times(progress, padLength) + padLengthAlign]
    {
      hide Times;
      var at := progress * padLength;
      TimesIs(progress, padLength);
      Load(inputIdsLocal, inputIdsGm, at);
      Load(xRemovePaddingLocal, inputIdsLocal, 0);
      assert inputIdsGm[at..at + padLengthAlign] == inputIdsGm[..][at..at + padLengthAlign];
    }

    /** CopyOnce: the offsets and lengths, always MAX_BATCH_NUM of them. */
    method CopyOnce(seqLenLocal: array<int>, cumOffsetsBuffer: array<int>)
      requires seqLenLocal != cumOffsetsBuffer && seqLenLocal.Length == cumOffsetsBuffer.Length == MAX_BATCH_NUM
      requires seqLenLocal != seqLenGm && cumOffsetsBuffer != cumOffsetsNowGm && seqLenLocal != cumOffsetsNowGm
      requires cumOffsetsBuffer != seqLenGm
      requires seqLenGm.Length >= MAX_BATCH_NUM && cumOffsetsNowGm.Length >= MAX_BATCH_NUM
      modifies seqLenLocal, cumOffsetsBuffer
      ensures seqLenLocal[..] == seqLenGm[..MAX_BATCH_NUM]
      ensures cumOffsetsBuffer[..] == cumOffsetsNowGm[..MAX_BATCH_NUM]
    {
      Load(seqLenLocal, seqLenGm, 0);
      Load(cumOffsetsBuffer, cumOffsetsNowGm, 0);
    }

    /** ComputeOnce: the padding in front of this row for all its elements, and the shifted offsets. */
    method ComputeOnce(progress: nat, cumOffsetsBuffer: array<int>, broadCast: array<int>,
                       cumOffsetOutLocal: array<int>)
      requires progress < batch <= MAX_BATCH_NUM == cumOffsetsBuffer.Length == cumOffsetOutLocal.Length
      requires cumOffsetsBuffer != broadCast && cumOffsetsBuffer != cumOffsetOutLocal && broadCast != cumOffsetOutLocal
      modifies broadCast, cumOffsetOutLocal
      ensures broadCast[..] == Repeat(broadCast.Length, if progress == 0 then 0 else cumOffsetsBuffer[progress - 1])
      ensures cumOffsetOutLocal[..batch] == [0] + cumOffsetsBuffer[..batch - 1]
    {
      if progress == 0 {
        Duplicate(broadCast, 0);
      } else {
        Duplicate(broadCast, cumOffsetsBuffer[progress - 1]);
      }
      cumOffsetOutLocal[0] := 0;
      for x := 1 to batch
        invariant cumOffsetOutLocal[0] == 0
        invariant forall k :: 1 <= k < x ==> cumOffsetOutLocal[k] == cumOffsetsBuffer[k - 1]
        invariant broadCast[..] == Repeat(broadCast.Length, if progress == 0 then 0 else cumOffsetsBuffer[progress - 1])
      {
        cumOffsetOutLocal[x] := cumOffsetsBuffer[x - 1];
      }
    }

    /** CopyOut: the row at its target, then zeros behind all rows. */
    method CopyOut(progress: nat, cumOffsetsBuffer: array<int>, xRemovePaddingLocal: array<int>,
                   ghost at: nat, ghost end: nat, ghost row: seq<int>)
      requires progress < batch <= cumOffsetsBuffer.Length && xRemovePaddingLocal.Length == padLengthAlign
      requires xRemovePaddingGm != xRemovePaddingLocal && xRemovePaddingGm != cumOffsetsBuffer
      requires xRemovePaddingLocal != cumOffsetsBuffer && xRemovePaddingLocal[..] == row
      requires at == Target(padLength, progress, cumOffsetsBuffer[..])
               && end == Target(padLength, batch, cumOffsetsBuffer[..])
      requires at + padLengthAlign <= xRemovePaddingGm.Length && end + padLengthAlign <= xRemovePaddingGm.Length
      modifies xRemovePaddingGm, xRemovePaddingLocal
      ensures |row| == padLengthAlign
      ensures xRemovePaddingGm[..]
           == Splice<int>(Splice<int>(old(xRemovePaddingGm[..]), at, row), end, Repeat(padLengthAlign, 0))
    {
      hide Splice, Repeat, Times;
      TimesIs(batch, padLength);
      TimesIs(progress, padLength);
      assert xRemovePaddingLocal[0..padLengthAlign] == row;
      if progress == 0 {
        DataCopy(xRemovePaddingGm, 0, xRemovePaddingLocal, 0, padLengthAlign);
      } else {
        DataCopy(xRemovePaddingGm, progress * padLength - cumOffsetsBuffer[progress - 1], xRemovePaddingLocal, 0,
                 padLengthAlign);
      }
      Duplicate(xRemovePaddingLocal, 0);
      assert xRemovePaddingLocal[0..padLengthAlign] == xRemovePaddingLocal[..];
      DataCopy(xRemovePaddingGm, batch * padLength - cumOffsetsBuffer[batch - 1], xRemovePaddingLocal, 0,
               padLengthAlign);
    }

    /** CopyOutOnce: the row's padding values at an offset computed from the first length, and the shifted offsets. */
    method CopyOutOnce(progress: nat, seqLenZero: int, cumOffsetsBuffer: array<int>, cumOffsetOutLocal: array<int>,
                       broadCast: array<int>, ghost at: nat, ghost values: seq<int>)
      requires progress < batch <= cumOffsetsBuffer.Length && broadCast.Length == padLengthAlign
      requires cumOffsetsBuffer[0] == padLength - seqLenZero && broadCast[..] == values
      requires at == Target(padLength, progress, cumOffsetsBuffer[..]) && at + padLengthAlign <= paddingOffsetGm.Length
      requires batchAlign <= cumOffsetOutGm.Length && batch <= batchAlign <= cumOffsetOutLocal.Length
      requires paddingOffsetGm != broadCast && paddingOffsetGm != cumOffsetsBuffer
               && paddingOffsetGm != cumOffsetOutLocal
      requires cumOffsetOutGm != cumOffsetOutLocal && cumOffsetOutGm != cumOffsetsBuffer && cumOffsetOutGm != broadCast
      requires paddingOffsetGm != cumOffsetOutGm
      modifies paddingOffsetGm, cumOffsetOutGm
      ensures |values| == padLengthAlign && paddingOffsetGm[..] == Splice<int>(old(paddingOffsetGm[..]), at, values)
      ensures cumOffsetOutGm[..batch] == cumOffsetOutLocal[..batch]
      ensures cumOffsetOutGm[batchAlign..] == old(cumOffsetOutGm[batchAlign..])
    {
      hide Splice, Times;
      TimesIs(progress, padLength);
      assert broadCast[0..padLengthAlign] == values;
      if progress == 0 {
        DataCopy(paddingOffsetGm, 0, broadCast, 0, padLengthAlign);
      } else {
        OneRowLess(progress, padLength);
        DataCopy(paddingOffsetGm,
                 seqLenZero + (progress - 1) * padLength - cumOffsetsBuffer[progress - 1] + cumOffsetsBuffer[0],
                 broadCast, 0, padLengthAlign);
      }
      ShiftedOut(cumOffsetOutGm[..], cumOffsetOutLocal[0..batchAlign], batch);
      DataCopy(cumOffsetOutGm, 0, cumOffsetOutLocal, 0, batchAlign);
    }

    /** ClearStep: zeros behind all rows, in both outputs. */
    method ClearStep(cumOffsetsBuffer: array<int>, ghost end: nat)
      requires 0 < batch <= cumOffsetsBuffer.Length && end == Target(padLength, batch, cumOffsetsBuffer[..])
      requires end + padLengthAlign <= xRemovePaddingGm.Length && end + padLengthAlign <= paddingOffsetGm.Length
      requires paddingOffsetGm != xRemovePaddingGm
      requires cumOffsetsBuffer != paddingOffsetGm && cumOffsetsBuffer != xRemovePaddingGm
      modifies paddingOffsetGm, xRemovePaddingGm
      ensures xRemovePaddingGm[..] == Splice<int>(old(xRemovePaddingGm[..]), end, Repeat(padLengthAlign, 0))
      ensures paddingOffsetGm[..] == Splice<int>(old(paddingOffsetGm[..]), end, Repeat(padLengthAlign, 0))
    {
      hide Splice, Repeat, Times;
      TimesIs(batch, padLength);
      var xRemovePaddingLocal, broadCast := new int[padLengthAlign], new int[padLengthAlign];
      Duplicate(xRemovePaddingLocal, 0);
      Duplicate(broadCast, 0);
      assert broadCast[0..padLengthAlign] == broadCast[..];
      assert xRemovePaddingLocal[0..padLengthAlign] == xRemovePaddingLocal[..];
      DataCopy(paddingOffsetGm, batch * padLength - cumOffsetsBuffer[batch - 1], broadCast, 0, padLengthAlign);
      DataCopy(xRemovePaddingGm, batch * padLength - cumOffsetsBuffer[batch - 1], xRemovePaddingLocal, 0,
               padLengthAlign);
    }

    /** The outputs are buffers of their own, and all buffers have the room that whole aligned copies take. */
    ghost predicate Ready(seqLen: seq<nat>)
      reads cumOffsetsNowGm, seqLenGm
    {
      && padLengthAlign == AlignUp(padLength) && batchAlign == AlignUp(batch) && |seqLen| == batch
      && xRemovePaddingGm != paddingOffsetGm && xRemovePaddingGm != cumOffsetOutGm && paddingOffsetGm != cumOffsetOutGm
      && inputIdsGm !in {xRemovePaddingGm, paddingOffsetGm, cumOffsetOutGm}
      && cumOffsetsNowGm !in {xRemovePaddingGm, paddingOffsetGm, cumOffsetOutGm}
      && seqLenGm !in {xRemovePaddingGm, paddingOffsetGm, cumOffsetOutGm}
      && cumOffsetsNowGm.Length >= MAX_BATCH_NUM && seqLenGm.Length >= MAX_BATCH_NUM
      && Shaped(padLength, seqLen, cumOffsetsNowGm[..MAX_BATCH_NUM]) && seqLenGm[0] == seqLen[0]
      && Times(batch - 1, padLength) + padLengthAlign <= inputIdsGm.Length
      && Total(seqLen) + padLengthAlign <= xRemovePaddingGm.Length
      && Total(seqLen) + padLengthAlign <= paddingOffsetGm.Length
      && batchAlign <= cumOffsetOutGm.Length
    }

    /** The local copy of the offsets is loaded. */
    predicate Loaded(cumOffsetsBuffer: array<int>)
      reads cumOffsetsBuffer, cumOffsetsNowGm
    {
      && cumOffsetsBuffer.Length == MAX_BATCH_NUM <= cumOffsetsNowGm.Length
      && cumOffsetsBuffer[..] == cumOffsetsNowGm[..MAX_BATCH_NUM]
    }

    /** cum_offsets_out holds the offsets shifted by one, and behind the aligned batch what it held before. */
    predicate OffsetsOut(behind: seq<int>)
      reads cumOffsetOutGm, cumOffsetsNowGm
    {
      && 0 < batch <= batchAlign <= cumOffsetOutGm.Length && batch <= cumOffsetsNowGm.Length
      && cumOffsetOutGm[..batch] == [0] + cumOffsetsNowGm[..batch - 1] && cumOffsetOutGm[batchAlign..] == behind
    }

    /** One round of the loop in Process. */
    method ProcessRow(i: nat, cumOffsetsBuffer: array<int>, ghost seqLen: seq<nat>, ghost row: seq<int>,
                      ghost values: seq<int>, ghost behind: seq<int>, ghost x1: seq<int>, ghost p1: seq<int>)
      requires Ready(seqLen) && i < batch && behind == cumOffsetOutGm[batchAlign..]
      requires Times(i, padLength) + padLengthAlign <= inputIdsGm.Length
      requires row == inputIdsGm[..][Times(i, padLength)..Times(i, padLength) + padLengthAlign]
      requires values == Repeat(padLengthAlign, Padding(padLength, seqLen, i)) && Start(seqLen, i) <= Total(seqLen)
      requires cumOffsetsBuffer.Length == MAX_BATCH_NUM && cumOffsetsBuffer !in {cumOffsetsNowGm, seqLenGm, inputIdsGm}
      requires cumOffsetsBuffer !in {xRemovePaddingGm, paddingOffsetGm, cumOffsetOutGm}
      requires x1 == Splice<int>(Splice<int>(xRemovePaddingGm[..], Start(seqLen, i), row), Total(seqLen),
                                 Repeat(padLengthAlign, 0))
      requires p1 == Splice<int>(paddingOffsetGm[..], Start(seqLen, i), values)
      modifies cumOffsetsBuffer, xRemovePaddingGm, paddingOffsetGm, cumOffsetOutGm
      ensures Loaded(cumOffsetsBuffer)
      ensures xRemovePaddingGm[..] == x1 && paddingOffsetGm[..] == p1
      ensures OffsetsOut(behind)
    {
      hide Splice, Repeat, Shaped, Start, Total, Padding, Times, Target;
      var inputIdsLocal, xRemovePaddingLocal := new int[padLengthAlign], new int[padLengthAlign];
      var seqLenLocal, cumOffsetOutLocal := new int[MAX_BATCH_NUM], new int[MAX_BATCH_NUM];
      var broadCast := new int[padLengthAlign];
      ghost var cums := cumOffsetsNowGm[..MAX_BATCH_NUM];
      TargetsAre(padLength, seqLen, cums, i);
      TargetsAre(padLength, seqLen, cums, batch);
      ghost var at, end := Start(seqLen, i), Total(seqLen);
      CopyIn(i, inputIdsLocal, xRemovePaddingLocal);
      CopyOnce(seqLenLocal, cumOffsetsBuffer);
      assert cumOffsetsBuffer[..] == cums;
      ComputeOnce(i, cumOffsetsBuffer, broadCast, cumOffsetOutLocal);
      CopyOut(i, cumOffsetsBuffer, xRemovePaddingLocal, at, end, row);
      CopyOutOnce(i, seqLenLocal[0], cumOffsetsBuffer, cumOffsetOutLocal, broadCast, at, values);
    }

    /** The rows of both outputs have one width, and the buffers have room for them. */
    predicate Fits(seqLen: seq<nat>)
      reads inputIdsGm
    {
      && |seqLen| == batch > 0 && Times(batch - 1, padLength) + padLengthAlign <= inputIdsGm.Length
      && Rows(RowsOf(inputIdsGm[..], padLength, padLengthAlign, batch), padLengthAlign, seqLen)
      && Rows(PaddingRows(padLength, padLengthAlign, seqLen), padLengthAlign, seqLen)
      && Total(seqLen) + padLengthAlign <= xRemovePaddingGm.Length
      && Total(seqLen) + padLengthAlign <= paddingOffsetGm.Length
    }

    /** The first i rows of both outputs are written. */
    ghost predicate Progressed(i: nat, seqLen: seq<nat>, input: seq<int>, x0: seq<int>, p0: seq<int>,
                               xs: seq<seq<int>>, ps: seq<seq<int>>)
      reads xRemovePaddingGm, paddingOffsetGm
    {
      && i <= |seqLen| == batch && 0 < batch && Times(batch - 1, padLength) + padLengthAlign <= |input|
      && xs == RowsOf(input, padLength, padLengthAlign, batch) && Rows(xs, padLengthAlign, seqLen)
      && ps == PaddingRows(padLength, padLengthAlign, seqLen) && Rows(ps, padLengthAlign, seqLen)
      && Total(seqLen) + padLengthAlign <= |x0| && Total(seqLen) + padLengthAlign <= |p0|
      && xRemovePaddingGm[..] == Overwritten(x0, xs, padLengthAlign, seqLen, true, i)
      && paddingOffsetGm[..] == Overwritten(p0, ps, padLengthAlign, seqLen, false, i)
    }

    /** One round, as a step of the specification. */
    method ProcessRound(i: nat, cumOffsetsBuffer: array<int>, ghost seqLen: seq<nat>, ghost input: seq<int>,
                        ghost x0: seq<int>, ghost p0: seq<int>, ghost xs: seq<seq<int>>, ghost ps: seq<seq<int>>,
                        ghost behind: seq<int>)
      requires Ready(seqLen) && i < batch && input == inputIdsGm[..] && behind == cumOffsetOutGm[batchAlign..]
      requires Progressed(i, seqLen, input, x0, p0, xs, ps)
      requires cumOffsetsBuffer.Length == MAX_BATCH_NUM && cumOffsetsBuffer !in {cumOffsetsNowGm, seqLenGm, inputIdsGm}
      requires cumOffsetsBuffer !in {xRemovePaddingGm, paddingOffsetGm, cumOffsetOutGm}
      modifies cumOffsetsBuffer, xRemovePaddingGm, paddingOffsetGm, cumOffsetOutGm
      ensures Loaded(cumOffsetsBuffer) && Progressed(i + 1, seqLen, input, x0, p0, xs, ps) && OffsetsOut(behind)
    {
      hide Splice, Repeat, Shaped, Start, Total, Padding, Times, Overwritten, Valid, Rows, RowsOf, PaddingRows;
      hide Ready, Loaded, OffsetsOut, AlignUp;
      ghost var x1 := Overwritten(x0, xs, padLengthAlign, seqLen, true, i + 1);
      ghost var p1 := Overwritten(p0, ps, padLengthAlign, seqLen, false, i + 1);
      RoundIs(input, padLength, padLengthAlign, seqLen, i, x0, p0, xRemovePaddingGm[..], paddingOffsetGm[..], xs, ps);
      ProcessRow(i, cumOffsetsBuffer, seqLen, xs[i], ps[i], behind, x1, p1);
    }

    /** The loop of Process. */
    method ProcessRows(cumOffsetsBuffer: array<int>, ghost seqLen: seq<nat>, ghost input: seq<int>, ghost x0: seq<int>,
                       ghost p0: seq<int>, ghost xs: seq<seq<int>>, ghost ps: seq<seq<int>>, ghost behind: seq<int>)
      requires Ready(seqLen) && input == inputIdsGm[..] && behind == cumOffsetOutGm[batchAlign..]
      requires Progressed(0, seqLen, input, x0, p0, xs, ps)
      requires cumOffsetsBuffer.Length == MAX_BATCH_NUM && cumOffsetsBuffer !in {cumOffsetsNowGm, seqLenGm, inputIdsGm}
      requires cumOffsetsBuffer !in {xRemovePaddingGm, paddingOffsetGm, cumOffsetOutGm}
      modifies cumOffsetsBuffer, xRemovePaddingGm, paddingOffsetGm, cumOffsetOutGm
      ensures Loaded(cumOffsetsBuffer) && Progressed(batch, seqLen, input, x0, p0, xs, ps) && OffsetsOut(behind)
    {
      assert batch > 0 && batchAlign <= cumOffsetOutGm.Length;
      assert inputIdsGm != xRemovePaddingGm && inputIdsGm != paddingOffsetGm && inputIdsGm != cumOffsetOutGm;
      assert cumOffsetsNowGm !in {xRemovePaddingGm, paddingOffsetGm, cumOffsetOutGm};
      assert seqLenGm !in {xRemovePaddingGm, paddingOffsetGm, cumOffsetOutGm};
      hide Ready, Progressed;
      for i := 0 to batch
        invariant Progressed(i, seqLen, input, x0, p0, xs, ps)
        invariant i > 0 ==> Loaded(cumOffsetsBuffer) && OffsetsOut(behind)
        invariant cumOffsetOutGm[batchAlign..] == behind && input == inputIdsGm[..]
      {
        ProcessRound(i, cumOffsetsBuffer, seqLen, input, x0, p0, xs, ps, behind);
      }
    }

    /**
     Process: x_remove_padding becomes the valid parts of all rows, one after the other, then zeros;
     padding_offset the padding in front of each of those elements; cum_offsets_out the offsets shifted by one.
     Beyond one aligned row behind the valid parts both outputs are as they were.
     */
    method Process(ghost seqLen: seq<nat>)
      requires Ready(seqLen)
      modifies xRemovePaddingGm, paddingOffsetGm, cumOffsetOutGm
      ensures Fits(seqLen)
      ensures xRemovePaddingGm[..]
           == Result(old(xRemovePaddingGm[..]), RowsOf(inputIdsGm[..], padLength, padLengthAlign, batch),
                     padLengthAlign, seqLen)
      ensures paddingOffsetGm[..]
           == Result(old(paddingOffsetGm[..]), PaddingRows(padLength, padLengthAlign, seqLen), padLengthAlign, seqLen)
      ensures OffsetsOut(old(cumOffsetOutGm[batchAlign..]))
    {
      assert |seqLen| == batch && xRemovePaddingGm != paddingOffsetGm && cumOffsetsNowGm.Length >= MAX_BATCH_NUM;
      assert Total(seqLen) + padLengthAlign <= xRemovePaddingGm.Length
             && Total(seqLen) + padLengthAlign <= paddingOffsetGm.Length;
      assert Shaped(padLength, seqLen, cumOffsetsNowGm[..MAX_BATCH_NUM]) && padLengthAlign >= padLength;
      assert 1 <= batch <= MAX_BATCH_NUM && Times(batch - 1, padLength) + padLengthAlign <= inputIdsGm.Length;
      hide Splice, Repeat, Shaped, Start, Total, Times, Target, Overwritten, Valid, Rows, RowsOf, PaddingRows, Ready;
      hide Result, OffsetsOut;
      ghost var x0, p0, behind := xRemovePaddingGm[..], paddingOffsetGm[..], cumOffsetOutGm[batchAlign..];
      ghost var input := inputIdsGm[..];
      ghost var xs := RowsOf(input, padLength, padLengthAlign, batch);
      ghost var ps := PaddingRows(padLength, padLengthAlign, seqLen);
      RowsShape(inputIdsGm[..], padLength, padLengthAlign, seqLen, cumOffsetsNowGm[..MAX_BATCH_NUM]);
      TargetsAre(padLength, seqLen, cumOffsetsNowGm[..MAX_BATCH_NUM], batch);
      NothingOverwritten(x0, xs, padLengthAlign, seqLen, true);
      NothingOverwritten(p0, ps, padLengthAlign, seqLen, false);
      Finished(x0, xs, padLengthAlign, seqLen, true);
      Finished(p0, ps, padLengthAlign, seqLen, false);
      var cumOffsetsBuffer := new int[MAX_BATCH_NUM];
      ProcessRows(cumOffsetsBuffer, seqLen, input, x0, p0, xs, ps, behind);
      assert cumOffsetsBuffer[..] == cumOffsetsNowGm[..MAX_BATCH_NUM];
      ClearStep(cumOffsetsBuffer, Total(seqLen));
    }
  }

  /** The whole aligned rows of the input. */
  function RowsOf(input: seq<int>, pad: nat, width: nat, batch: nat): (r: seq<seq<int>>)
    requires batch > 0 && Times(batch - 1, pad) + width <= |input|
    ensures |r| == batch
  {
    seq(batch, i requires 0 <= i < batch =>
      RowFits(i, batch, pad);
      input[Times(i, pad)..Times(i, pad) + width])
  }

  /** The rows of padding values: for all elements of row i, the padding in the rows before it. */
  function PaddingRows(pad: nat, width: nat, seqLen: seq<nat>): (r: seq<seq<int>>)
    ensures |r| == |seqLen|
  {
    seq(|seqLen|, i requires 0 <= i < |seqLen| => Repeat(width, Padding(pad, seqLen, i)))
  }

  lemma RowsShape(input: seq<int>, pad: nat, width: nat, seqLen: seq<nat>, cum: seq<int>)
    requires Shaped(pad, seqLen, cum) && width >= pad && Times(|seqLen| - 1, pad) + width <= |input|
    ensures Rows(RowsOf(input, pad, width, |seqLen|), width, seqLen)
            && Rows(PaddingRows(pad, width, seqLen), width, seqLen)
  {
    hide Times, Start;
    forall i | 0 <= i < |seqLen|
      ensures |RowsOf(input, pad, width, |seqLen|)[i]| == width
    {
      RowFits(i, |seqLen|, pad);
    }
  }

  lemma RowAt(input: seq<int>, pad: nat, width: nat, seqLen: seq<nat>, i: nat)
    requires i < |seqLen| && Times(|seqLen| - 1, pad) + width <= |input|
    ensures Times(i, pad) + width <= |input|
    ensures RowsOf(input, pad, width, |seqLen|)[i] == input[Times(i, pad)..Times(i, pad) + width]
    ensures PaddingRows(pad, width, seqLen)[i] == Repeat(width, Padding(pad, seqLen, i))
  {
    hide Times, Padding;
    RowFits(i, |seqLen|, pad);
  }

  /** The row that holds position q of the valid parts. */
  lemma {:induction false} RowOfPosition(seqLen: seq<nat>, i: nat, q: nat) returns (r: nat)
    requires i <= |seqLen| && q < Start(seqLen, i)
    ensures r < i && Start(seqLen, r) <= q < Start(seqLen, r) + seqLen[r]
  {
    if q < Start(seqLen, i - 1) {
      r := RowOfPosition(seqLen, i - 1, q);
    } else {
      r := i - 1;
    }
  }

  /** Element k of row r is at the start of its row plus k. */
  lemma {:induction false} ValidAt(rows: seq<seq<int>>, width: nat, seqLen: seq<nat>, i: nat, r: nat, k: nat)
    requires Rows(rows, width, seqLen) && r < i <= |seqLen| && k < seqLen[r]
    ensures Start(seqLen, r) + k < Start(seqLen, i)
    ensures Valid(rows, width, seqLen, i)[Start(seqLen, r) + k] == rows[r][k]
  {
    if r < i - 1 {
      ValidAt(rows, width, seqLen, i - 1, r, k);
    }
  }

  /**
   The two outputs fit together: the element at position q of the unpadded ids is the element of the
   padded ids at q plus the padding recorded for q.
   */
  lemma PaddingOffsetsPointBack(input: seq<int>, pad: nat, width: nat, seqLen: seq<nat>, cum: seq<int>, q: nat)
    requires Shaped(pad, seqLen, cum) && width >= pad && Times(|seqLen| - 1, pad) + width <= |input|
    requires q < Total(seqLen)
    ensures Rows(RowsOf(input, pad, width, |seqLen|), width, seqLen)
            && Rows(PaddingRows(pad, width, seqLen), width, seqLen)
    ensures var n := |seqLen|;
            var x := Valid(RowsOf(input, pad, width, n), width, seqLen, n);
            var offset := Valid(PaddingRows(pad, width, seqLen), width, seqLen, n);
            0 <= q + offset[q] < |input| && x[q] == input[q + offset[q]]
  {
    hide Valid, Rows, RowsOf, PaddingRows, Repeat, Start, Times, Shaped;
    var n := |seqLen|;
    TotalIs(seqLen);
    LengthsFit(pad, seqLen, cum);
    RowsShape(input, pad, width, seqLen, cum);
    var r := RowOfPosition(seqLen, n, q);
    var k := q - Start(seqLen, r);
    ValidAt(RowsOf(input, pad, width, n), width, seqLen, n, r, k);
    ValidAt(PaddingRows(pad, width, seqLen), width, seqLen, n, r, k);
    RowAt(input, pad, width, seqLen, r);
    RepeatAt(width, Padding(pad, seqLen, r), k);
  }

  lemma LengthsFit(pad: nat, seqLen: seq<nat>, cum: seq<int>)
    requires Shaped(pad, seqLen, cum)
    ensures |seqLen| > 0 && forall i :: 0 <= i < |seqLen| ==> seqLen[i] <= pad
  {
  }

  lemma RepeatAt(n: nat, v: int, k: nat)
    requires k < n
    ensures Repeat(n, v)[k] == v
  {
  }

  /** What one round does to both outputs, on values. */
  lemma RoundIs(input: seq<int>, pad: nat, width: nat, seqLen: seq<nat>, i: nat, x0: seq<int>, p0: seq<int>,
                x: seq<int>, p: seq<int>, xs: seq<seq<int>>, ps: seq<seq<int>>)
    requires i < |seqLen| && Times(|seqLen| - 1, pad) + width <= |input|
    requires xs == RowsOf(input, pad, width, |seqLen|) && Rows(xs, width, seqLen)
    requires ps == PaddingRows(pad, width, seqLen) && Rows(ps, width, seqLen)
    requires Total(seqLen) + width <= |x0| && Total(seqLen) + width <= |p0|
    requires x == Overwritten(x0, xs, width, seqLen, true, i) && p == Overwritten(p0, ps, width, seqLen, false, i)
    ensures Times(i, pad) + width <= |input| && |xs| == |ps| == |seqLen| && |xs[i]| == |ps[i]| == width
    ensures xs[i] == input[Times(i, pad)..Times(i, pad) + width] && ps[i] == Repeat(width, Padding(pad, seqLen, i))
    ensures Start(seqLen, i) <= Total(seqLen)
    ensures Overwritten(x0, xs, width, seqLen, true, i + 1)
         == Splice<int>(Splice<int>(x, Start(seqLen, i), xs[i]), Total(seqLen), Repeat(width, 0))
    ensures Overwritten(p0, ps, width, seqLen, false, i + 1) == Splice<int>(p, Start(seqLen, i), ps[i])
  {
    hide Splice, Repeat, Start, Total, Padding, Times, Overwritten, RowsOf, PaddingRows;
    OverwrittenStep(x0, xs, width, seqLen, true, i + 1);
    OverwrittenStep(p0, ps, width, seqLen, false, i + 1);
    RowAt(input, pad, width, seqLen, i);
  }

  /** The computed offsets are the starts of the rows. */
  lemma TargetsAre(pad: nat, seqLen: seq<nat>, cum: seq<int>, i: nat)
    requires Shaped(pad, seqLen, cum) && i <= |seqLen|
    ensures 0 < |seqLen| <= MAX_BATCH_NUM && |seqLen| <= |cum|
    ensures Target(pad, i, cum) == Start(seqLen, i) <= Total(seqLen)
    ensures i == |seqLen| ==> Target(pad, i, cum) == Total(seqLen)
    ensures i > 0 ==> cum[i - 1] == Padding(pad, seqLen, i)
    ensures i == 0 ==> Padding(pad, seqLen, i) == 0
    ensures cum[0] == pad - seqLen[0]
  {
    StartMonotone(seqLen, i, |seqLen|);
    assert cum[0] == Padding(pad, seqLen, 1) && Start(seqLen, 1) == Start(seqLen, 0) + seqLen[0];
    assert Times(1, pad) == Times(0, pad) + pad;
  }

  lemma {:induction false} RowFits(i: nat, batch: nat, pad: nat)
    requires i < batch
    ensures Times(i, pad) <= Times(batch - 1, pad)
  {
    if i < batch - 1 {
      RowFits(i, batch - 1, pad);
    }
  }

  lemma ShiftedOut(was: seq<int>, shifted: seq<int>, n: nat)
    requires n <= |shifted| <= |was|
    ensures Splice(was, 0, shifted)[..n] == shifted[..n] && Splice(was, 0, shifted)[|shifted|..] == was[|shifted|..]
  {
  }

  lemma OneRowLess(n: nat, pad: nat)
    requires n > 0
    ensures (n - 1) * pad + pad == n * pad
  {
  }
}
