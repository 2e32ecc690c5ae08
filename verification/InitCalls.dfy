/**
 What a run of InitImpl's calls leaves in a KernelInfo, told from the arguments of the calls: the last ones that
 were taken, in force until the launch.
 */
module InitCalls {
  import opened Bytes
  import opened Splices
  import opened KernelInfos

  /** A used size is taken when it is within the buffer. */
  predicate TakesUsed(op: Op, size: nat)
  {
    op.SetTilingUsedSize? && op.used <= size
  }

  /** An offset is taken when it is strictly inside the buffer. */
  predicate TakesOffset(op: Op, size: nat)
  {
    op.SetConstTensorOffset? && 0 < op.offset < size
  }

  predicate TakesBlockDim(op: Op)
  {
    op.SetBlockDim? && op.dim < 65536
  }

  /** offset is that of the last call that was taken, and the length of the buffer when none was. */
  ghost predicate OffsetInForce(ops: seq<Op>, size: nat, offset: nat)
  {
    if forall k :: 0 <= k < |ops| ==> !TakesOffset(ops[k], size) then offset == size
    else
      exists j :: 0 <= j < |ops| && TakesOffset(ops[j], size) && ops[j].offset == offset
                  && forall k :: j < k < |ops| ==> !TakesOffset(ops[k], size)
  }

  /** used is base, cut by the offsets taken from call number from on. */
  ghost predicate CutByOffsets(ops: seq<Op>, size: nat, from: nat, base: nat, used: nat)
  {
    && used <= base && (forall k :: from <= k < |ops| && TakesOffset(ops[k], size) ==> used <= ops[k].offset)
    && (used == base || exists k :: from <= k < |ops| && TakesOffset(ops[k], size) && used == ops[k].offset)
  }

  /** used is the last used size that was taken, or the length of the buffer, cut by the offsets taken after that. */
  ghost predicate UsedInForce(ops: seq<Op>, size: nat, used: nat)
  {
    if forall k :: 0 <= k < |ops| ==> !TakesUsed(ops[k], size) then CutByOffsets(ops, size, 0, size, used)
    else
      exists j :: 0 <= j < |ops| && TakesUsed(ops[j], size) && CutByOffsets(ops, size, j + 1, ops[j].used, used)
                  && forall k :: j < k < |ops| ==> !TakesUsed(ops[k], size)
  }

  ghost predicate BlockDimInForce(ops: seq<Op>, dim: nat)
  {
    if forall k :: 0 <= k < |ops| ==> !TakesBlockDim(ops[k]) then dim == 0
    else
      exists j :: 0 <= j < |ops| && TakesBlockDim(ops[j]) && ops[j].dim == dim
                  && forall k :: j < k < |ops| ==> !TakesBlockDim(ops[k])
  }

  ghost predicate TilingIdInForce(ops: seq<Op>, id: nat)
  {
    if forall k :: 0 <= k < |ops| ==> !ops[k].SetTilingId? then id == 0
    else
      exists j :: 0 <= j < |ops| && ops[j].SetTilingId? && ops[j].id == id
                  && forall k :: j < k < |ops| ==> !ops[k].SetTilingId?
  }

  ghost predicate HwsyncInForce(ops: seq<Op>, idx: int)
  {
    if forall k :: 0 <= k < |ops| ==> !ops[k].SetHwsyncIdx? then idx == -1
    else
      exists j :: 0 <= j < |ops| && ops[j].SetHwsyncIdx? && ops[j].idx == idx
                  && forall k :: j < k < |ops| ==> !ops[k].SetHwsyncIdx?
  }

  /** The workspace sizes that the calls ask for, in order. */
  function WorkspaceSizes(ops: seq<Op>): seq<nat>
  {
    if ops == [] then []
    else
      var op := ops[|ops| - 1];
      WorkspaceSizes(ops[..|ops| - 1]) + if op.AddScratch? then [op.size] else []
  }

  /** The memset requests of the calls, in order. */
  function MemsetRequests(ops: seq<Op>): seq<MemsetInfo>
  {
    if ops == [] then []
    else
      var op := ops[|ops| - 1];
      MemsetRequests(ops[..|ops| - 1])
      + if op.SetMemset? then [MemsetInfo(op.memsetIdx, op.memsetSize)] else []
  }

  // --------------------------------------------------- one call more

  lemma OffsetNext(ops: seq<Op>, c: Op, size: nat, offset: nat)
    requires OffsetInForce(ops, size, offset)
    ensures OffsetInForce(ops + [c], size, if TakesOffset(c, size) then c.offset else offset)
  {
    var all := ops + [c];
    assert forall k :: 0 <= k < |ops| ==> all[k] == ops[k];
    assert all[|ops|] == c;
    if !TakesOffset(c, size) && exists k :: 0 <= k < |ops| && TakesOffset(ops[k], size) {
      var j :| 0 <= j < |ops| && TakesOffset(ops[j], size) && ops[j].offset == offset
               && forall k :: j < k < |ops| ==> !TakesOffset(ops[k], size);
      assert TakesOffset(all[j], size);
    }
  }

  lemma CutNext(ops: seq<Op>, c: Op, size: nat, from: nat, base: nat, used: nat)
    requires CutByOffsets(ops, size, from, base, used) && from <= |ops|
    ensures CutByOffsets(ops + [c], size, from, base,
                         if TakesOffset(c, size) && c.offset < used then c.offset else used)
  {
    var all := ops + [c];
    assert forall k :: 0 <= k < |ops| ==> all[k] == ops[k];
    assert all[|ops|] == c;
    if used != base {
      var k :| from <= k < |ops| && TakesOffset(ops[k], size) && used == ops[k].offset;
      assert TakesOffset(all[k], size);
    }
  }

  lemma UsedNext(ops: seq<Op>, c: Op, size: nat, used: nat)
    requires UsedInForce(ops, size, used)
    ensures UsedInForce(ops + [c], size,
                        if TakesUsed(c, size) then c.used
                        else if TakesOffset(c, size) && c.offset < used then c.offset else used)
  {
    hide CutByOffsets;
    var all := ops + [c];
    assert forall k :: 0 <= k < |ops| ==> all[k] == ops[k];
    assert all[|ops|] == c;
    if TakesUsed(c, size) {
      assert CutByOffsets(all, size, |all|, c.used, c.used) by { NothingCut(all, size, c.used); }
    } else if exists k :: 0 <= k < |ops| && TakesUsed(ops[k], size) {
      var j :| 0 <= j < |ops| && TakesUsed(ops[j], size) && CutByOffsets(ops, size, j + 1, ops[j].used, used)
               && forall k :: j < k < |ops| ==> !TakesUsed(ops[k], size);
      CutNext(ops, c, size, j + 1, ops[j].used, used);
      assert TakesUsed(all[j], size);
    } else {
      CutNext(ops, c, size, 0, size, used);
    }
  }

  lemma NothingCut(ops: seq<Op>, size: nat, used: nat)
    ensures CutByOffsets(ops, size, |ops|, used, used)
  {
  }

  lemma BlockDimNext(ops: seq<Op>, c: Op, dim: nat)
    requires BlockDimInForce(ops, dim)
    ensures BlockDimInForce(ops + [c], if TakesBlockDim(c) then c.dim else dim)
  {
    var all := ops + [c];
    assert forall k :: 0 <= k < |ops| ==> all[k] == ops[k];
    assert all[|ops|] == c;
    if !TakesBlockDim(c) && exists k :: 0 <= k < |ops| && TakesBlockDim(ops[k]) {
      var j :| 0 <= j < |ops| && TakesBlockDim(ops[j]) && ops[j].dim == dim
               && forall k :: j < k < |ops| ==> !TakesBlockDim(ops[k]);
      assert TakesBlockDim(all[j]);
    }
  }

  lemma TilingIdNext(ops: seq<Op>, c: Op, id: nat)
    requires TilingIdInForce(ops, id)
    ensures TilingIdInForce(ops + [c], if c.SetTilingId? then c.id else id)
  {
    var all := ops + [c];
    assert forall k :: 0 <= k < |ops| ==> all[k] == ops[k];
    assert all[|ops|] == c;
    if !c.SetTilingId? && exists k :: 0 <= k < |ops| && ops[k].SetTilingId? {
      var j :| 0 <= j < |ops| && ops[j].SetTilingId? && ops[j].id == id
               && forall k :: j < k < |ops| ==> !ops[k].SetTilingId?;
      assert all[j].SetTilingId?;
    }
  }

  lemma HwsyncNext(ops: seq<Op>, c: Op, idx: int)
    requires HwsyncInForce(ops, idx)
    ensures HwsyncInForce(ops + [c], if c.SetHwsyncIdx? then c.idx else idx)
  {
    var all := ops + [c];
    assert forall k :: 0 <= k < |ops| ==> all[k] == ops[k];
    assert all[|ops|] == c;
    if !c.SetHwsyncIdx? && exists k :: 0 <= k < |ops| && ops[k].SetHwsyncIdx? {
      var j :| 0 <= j < |ops| && ops[j].SetHwsyncIdx? && ops[j].idx == idx
               && forall k :: j < k < |ops| ==> !ops[k].SetHwsyncIdx?;
      assert all[j].SetHwsyncIdx?;
    }
  }

  // ------------------------------------------------------------ whole runs

  /** A state that a run starts from: everything reset. */
  predicate Fresh(i: Info)
  {
    i.tiling.blockDim == 0 && i.tiling.tilingId == 0 && i.hwsync == -1 && i.scratch == [] && i.memset == []
  }

  /** Block number, tiling id and sync index are the last ones taken; workspaces and memsets are those asked for. */
  lemma {:induction false} NumbersOfRun(i: Info, ops: seq<Op>)
    requires Sized(i) && Fresh(i) && KernelCalls(ops)
    ensures var j := Run(i, ops);
            && BlockDimInForce(ops, j.tiling.blockDim) && TilingIdInForce(ops, j.tiling.tilingId)
            && HwsyncInForce(ops, j.hwsync)
            && (RunsThrough(i, ops) ==> j.scratch == WorkspaceSizes(ops) && j.memset == MemsetRequests(ops))
  {
    hide Step, BlockDimInForce, TilingIdInForce, HwsyncInForce, Overflows;
    if ops == [] {
      NumbersOfNone();
    } else {
      var front, c := ops[..|ops| - 1], ops[|ops| - 1];
      assert ops == front + [c] && KernelCall(c);
      assert forall k :: 0 <= k < |front| ==> front[k] == ops[k];
      NumbersOfRun(i, front);
      var was := Run(i, front);
      NumbersOfStep(was, c);
      BlockDimNext(front, c, was.tiling.blockDim);
      TilingIdNext(front, c, was.tiling.tilingId);
      HwsyncNext(front, c, was.hwsync);
      if RunsThrough(i, ops) {
        FullVectors(was, c);
      }
    }
  }

  lemma NumbersOfNone()
    ensures BlockDimInForce([], 0) && TilingIdInForce([], 0) && HwsyncInForce([], -1)
  {
  }

  lemma NumbersOfStep(i: Info, c: Op)
    requires Sized(i) && KernelCall(c)
    ensures var j := Step(i, c);
            && j.tiling.blockDim == (if TakesBlockDim(c) then c.dim else i.tiling.blockDim)
            && j.tiling.tilingId == (if c.SetTilingId? then c.id else i.tiling.tilingId)
            && j.hwsync == (if c.SetHwsyncIdx? then c.idx else i.hwsync)
  {
  }

  lemma FullVectors(i: Info, c: Op)
    requires Sized(i) && KernelCall(c) && !Overflows(i, c)
    ensures Step(i, c).scratch == i.scratch + if c.AddScratch? then [c.size] else []
    ensures Step(i, c).memset == i.memset + if c.SetMemset? then [MemsetInfo(c.memsetIdx, c.memsetSize)] else []
  {
  }

  /** A host buffer of size bytes, as it is allocated. */
  predicate Allocated(i: Info, size: nat)
  {
    && TilingInvariant(i) && i.host.Some? && |i.host.value| == size
    && i.tiling.hostSize == i.tiling.used == i.tiling.constOffset == size
  }

  /** Used size and constant offset over a run, from the calls' own arguments. */
  lemma {:induction false} SizesOfRun(i: Info, ops: seq<Op>, size: nat)
    requires Allocated(i, size) && KernelCalls(ops)
    ensures var j := Run(i, ops);
            && j.tiling.hostSize == size && j.host.Some? && |j.host.value| == size
            && UsedInForce(ops, size, j.tiling.used) && OffsetInForce(ops, size, j.tiling.constOffset)
  {
    hide Step, UsedInForce, OffsetInForce;
    if ops == [] {
      SizesOfNone(size);
    } else {
      var front, c := ops[..|ops| - 1], ops[|ops| - 1];
      assert ops == front + [c] && KernelCall(c);
      assert forall k :: 0 <= k < |front| ==> front[k] == ops[k];
      SizesOfRun(i, front, size);
      RunKeepsTilingInvariant(i, front);
      var was := Run(i, front);
      SizesOfStep(was, c, size);
      UsedNext(front, c, size, was.tiling.used);
      OffsetNext(front, c, size, was.tiling.constOffset);
    }
  }

  lemma SizesOfNone(size: nat)
    ensures UsedInForce([], size, size) && OffsetInForce([], size, size)
  {
  }

  lemma SizesOfStep(i: Info, c: Op, size: nat)
    requires TilingInvariant(i) && i.host.Some? && |i.host.value| == size && i.tiling.hostSize == size && KernelCall(c)
    ensures var j := Step(i, c);
            && j.tiling.hostSize == size && j.host.Some? && |j.host.value| == size
            && j.tiling.constOffset == (if TakesOffset(c, size) then c.offset else i.tiling.constOffset)
            && j.tiling.used == (if TakesUsed(c, size) then c.used
                                 else if TakesOffset(c, size) && c.offset < i.tiling.used then c.offset
                                 else i.tiling.used)
  {
  }

  // ---------------------------------------------------------- stored bytes

  /**
   Call number k leaves the len bytes at pos alone: it stores elsewhere, and constants are added behind an
   offset that is not below them.
   */
  ghost predicate LeavesAlone(ops: seq<Op>, k: nat, size: nat, pos: nat, len: nat)
    requires k < |ops|
  {
    match ops[k]
    case WriteTiling(p, bytes) => p + |bytes| > size || p + |bytes| <= pos || pos + len <= p
    case AddConstTensorData(_, _) => forall offset :: OffsetInForce(ops[..k], size, offset) ==> pos + len <= offset
    case _ => true
  }

  /** What a call stores, and none after it overwrites, is in the host buffer. */
  lemma {:induction false} StoredStays(i: Info, ops: seq<Op>, size: nat, at: nat)
    requires Allocated(i, size) && KernelCalls(ops) && at < |ops| && ops[at].WriteTiling?
    requires ops[at].pos + |ops[at].bytes| <= size
    requires forall k :: at < k < |ops| ==> LeavesAlone(ops, k, size, ops[at].pos, |ops[at].bytes|)
    ensures var j, pos, bytes := Run(i, ops), ops[at].pos, ops[at].bytes;
            j.host.Some? && pos + |bytes| <= |j.host.value| && j.host.value[pos..pos + |bytes|] == bytes
  {
    hide Step, OffsetInForce, LeavesAlone;
    var front, c := ops[..|ops| - 1], ops[|ops| - 1];
    assert ops == front + [c] && KernelCall(c);
    assert forall k :: 0 <= k < |front| ==> front[k] == ops[k];
    SizesOfRun(i, front, size);
    RunKeepsTilingInvariant(i, front);
    var was, pos, bytes := Run(i, front), ops[at].pos, ops[at].bytes;
    if at == |ops| - 1 {
      StoreStep(was, pos, bytes, size);
    } else {
      forall k | at < k < |front|
        ensures LeavesAlone(front, k, size, front[at].pos, |front[at].bytes|)
      {
        assert LeavesAlone(ops, k, size, pos, |bytes|);
        SamePast(ops, front, k, size, pos, |bytes|);
      }
      StoredStays(i, front, size, at);
      assert LeavesAlone(ops, |front|, size, pos, |bytes|);
      KeptStep(was, ops, size, pos, bytes);
    }
  }

  lemma SamePast(ops: seq<Op>, front: seq<Op>, k: nat, size: nat, pos: nat, len: nat)
    requires k < |front| < |ops| && front == ops[..|front|] && LeavesAlone(ops, k, size, pos, len)
    ensures LeavesAlone(front, k, size, pos, len)
  {
    hide OffsetInForce;
    assert ops[..k] == front[..k] && ops[k] == front[k];
  }

  lemma StoreStep(i: Info, pos: nat, bytes: seq<Byte>, size: nat)
    requires TilingInvariant(i) && i.host.Some? && |i.host.value| == size && i.tiling.hostSize == size
    requires pos + |bytes| <= size
    ensures var j := Step(i, Op.WriteTiling(pos, bytes));
            j.host.Some? && |j.host.value| == size && j.host.value[pos..pos + |bytes|] == bytes
  {
  }

  lemma KeptStep(i: Info, ops: seq<Op>, size: nat, pos: nat, bytes: seq<Byte>)
    requires ops != [] && KernelCall(ops[|ops| - 1]) && TilingInvariant(i) && i.host.Some? && |i.host.value| == size
    requires i.tiling.hostSize == size && OffsetInForce(ops[..|ops| - 1], size, i.tiling.constOffset)
    requires pos + |bytes| <= size && i.host.value[pos..pos + |bytes|] == bytes
    requires LeavesAlone(ops, |ops| - 1, size, pos, |bytes|)
    ensures var j := Step(i, ops[|ops| - 1]);
            j.host.Some? && |j.host.value| == size && j.host.value[pos..pos + |bytes|] == bytes
  {
    hide OffsetInForce, Splice;
    var h := i.host.value;
    match ops[|ops| - 1] {
      case WriteTiling(p, other) =>
        if p + |other| <= size {
          SpliceApart(h, p, other, pos, pos + |bytes|);
        }
      case AddConstTensorData(argIdx, data) =>
        var off := NextConst(i);
        if off < size {
          if |data| > size - off {
            SpliceApart(h, off, Zeros(size - off), pos, pos + |bytes|);
          } else {
            SpliceApart(h, off, data, pos, pos + |bytes|);
          }
        }
      case _ =>
    }
  }

  /** Every recorded constant was added by a call of its own, in order. */
  lemma {:induction false} RecordedByCall(i: Info, ops: seq<Op>, k: nat) returns (at: nat)
    requires Sized(i) && k < |Recorded(i, ops)|
    ensures at < |ops| && ops[at] == Op.AddConstTensorData(Recorded(i, ops)[k].argIdx, Recorded(i, ops)[k].data)
  {
    hide Step, Adds;
    var front := ops[..|ops| - 1];
    if k < |Recorded(i, front)| {
      at := RecordedByCall(i, front, k);
    } else {
      at := |ops| - 1;
      AddsIsACall(Run(i, front), ops[at]);
    }
  }

  lemma AddsIsACall(i: Info, op: Op)
    ensures Adds(i, op) ==> op.AddConstTensorData?
  {
  }
}
