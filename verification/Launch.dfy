/**
 From Init to launch: what KernelBase::Init puts into the argument buffer is found where the parameters
 of KernelParamBuilder point, and the slots in front of it are filled exactly.
 */
module Launch {
  import opened Bytes
  import opened Splices
  import opened Options
  import opened SlotFill
  import opened KernelInfos
  import opened TensorList
  import opened KernelBases
  import opened KernelParams
  import opened InitCalls

  // -------------------------------------------------------- bytes in place

  /** A buffer whose slot area was written, and nothing else, since Init laid it out. */
  predicate SameBehindSlots(b: seq<Byte>, laid: seq<Byte>, n: nat)
  {
    |b| == |laid| && 8 * n <= |b| && b[8 * n..] == laid[8 * n..]
  }

  lemma LayoutParts(base: nat, used: seq<Byte>, consts: seq<Byte>, list: seq<Byte>)
    ensures var l := Layout(base, used, consts, list);
            && l[base..base + |used|] == used
            && l[base + Align(|used|)..base + Align(|used|) + |consts|] == consts
            && l[base + Align(|used|) + |consts|..] == list
  {
    hide Align, Blocks;
    var pad := Zeros(Align(|used|) - |used|);
    var l := Layout(base, used, consts, list);
    assert l == (Zeros(base) + used + pad + consts) + list;
    assert l == (Zeros(base) + used + pad) + (consts + list);
    assert l == (Zeros(base) + used) + (pad + consts + list);
  }

  lemma SliceBehind(b: seq<Byte>, laid: seq<Byte>, n: nat, lo: nat, hi: nat)
    requires SameBehindSlots(b, laid, n) && 8 * n <= lo <= hi <= |b|
    ensures b[lo..hi] == laid[lo..hi]
  {
    SubSlice(b, 8 * n, |b|, lo - 8 * n, hi - 8 * n);
    SubSlice(laid, 8 * n, |b|, lo - 8 * n, hi - 8 * n);
    assert b[8 * n..] == b[8 * n..|b|] && laid[8 * n..] == laid[8 * n..|b|];
  }

  /** A 16-bit field holds a value exactly when it fits. */
  lemma SmallMod(x: nat)
    ensures x % TWO16 == x <==> x < TWO16
  {
  }

  /** The tiling data follows the slots; the 16-bit tilingDataOffset says so exactly when that is below 65536. */
  lemma TilingInPlace(j: Info, n: nat, b: seq<Byte>)
    requires TilingInvariant(j) && j.host.Some? && n > 0
    requires SameBehindSlots(b, ArgsBytes(j, n), n)
    ensures 8 * n + j.tiling.used <= |b| && b[8 * n..8 * n + j.tiling.used] == j.host.value[..j.tiling.used]
    ensures 8 * n % TWO16 == 8 * n <==> 8 * n < TWO16
  {
    hide Align, Blocks, Layout;
    var t, laid := j.tiling, ArgsBytes(j, n);
    var list := if j.list.bytes.Some? then j.list.bytes.value else [];
    LayoutParts(8 * n, j.host.value[..t.used], j.host.value[t.constOffset..t.hostSize], list);
    SliceBehind(b, laid, n, 8 * n, 8 * n + t.used);
    SmallMod(8 * n);
  }

  /** The place that the builder records for the k-th constant or list. */
  function DataOffset16(j: Info, n: nat, k: nat): nat
    requires k < |j.consts|
  {
    HostInputs(j.consts, Align(j.tiling.used) + 8 * n)[k].dataOffset
  }

  /** Where the constant area starts in the argument buffer. */
  function ConstArea(j: Info, n: nat): nat { 8 * n + Align(j.tiling.used) }

  /** Where the k-th constant starts: behind those recorded before it. */
  function ConstPlace(j: Info, n: nat, k: nat): nat
    requires k < |j.consts|
  {
    ConstArea(j, n) + SumSizes(j.consts[..k])
  }

  /** The recorded offset is that place cut to 16 bits, and so the place itself exactly below 65536. */
  lemma DataOffsetExact(j: Info, n: nat, k: nat)
    requires k < |j.consts|
    ensures DataOffset16(j, n, k) == ConstPlace(j, n, k) % TWO16
    ensures DataOffset16(j, n, k) == ConstPlace(j, n, k) <==> ConstPlace(j, n, k) < TWO16
  {
    hide Align, SumSizes;
    SmallMod(ConstPlace(j, n, k));
  }

  /** The constant area is copied as a whole. */
  lemma ConstAreaInPlace(j: Info, n: nat, b: seq<Byte>, start: nat, len: nat)
    requires TilingInvariant(j) && j.host.Some? && SameBehindSlots(b, ArgsBytes(j, n), n)
    requires start + len <= j.tiling.hostSize - j.tiling.constOffset
    ensures ConstArea(j, n) + j.tiling.hostSize - j.tiling.constOffset <= |b|
    ensures b[ConstArea(j, n) + start..ConstArea(j, n) + start + len]
         == j.host.value[j.tiling.constOffset + start..j.tiling.constOffset + start + len]
  {
    hide Align, Blocks, Layout, ArgsBytes;
    var t, laid, at := j.tiling, ArgsBytes(j, n), ConstArea(j, n);
    var area := j.host.value[t.constOffset..t.hostSize];
    AreaLaid(j, n);
    SliceBehind(b, laid, n, at + start, at + start + len);
    SubSlice(laid, at, at + |area|, start, start + len);
    SubSlice(j.host.value, t.constOffset, t.hostSize, start, start + len);
  }

  lemma AreaLaid(j: Info, n: nat)
    requires TilingInvariant(j) && j.host.Some?
    ensures var t, laid := j.tiling, ArgsBytes(j, n);
            && ConstArea(j, n) + t.hostSize - t.constOffset <= |laid|
            && laid[ConstArea(j, n)..ConstArea(j, n) + t.hostSize - t.constOffset]
               == j.host.value[t.constOffset..t.hostSize]
  {
    hide Align, Blocks, Layout;
    var t := j.tiling;
    LayoutParts(8 * n, j.host.value[..t.used], j.host.value[t.constOffset..t.hostSize],
                if j.list.bytes.Some? then j.list.bytes.value else []);
  }

  /** A constant that the host buffer holds is found, unchanged, at its place. */
  lemma ConstInPlace(j: Info, log: seq<Placed>, n: nat, b: seq<Byte>, k: nat)
    requires TilingInvariant(j) && j.host.Some? && |log| <= |j.consts|
    requires Holds(j.(consts := j.consts[..|log|]), log) && k < |log|
    requires SameBehindSlots(b, ArgsBytes(j, n), n)
    ensures var place, len := ConstPlace(j, n, k), |log[k].data|;
            && ConstArea(j, n) <= place
            && place + len <= ConstArea(j, n) + j.tiling.hostSize - j.tiling.constOffset <= |b|
            && b[place..place + len] == log[k].data
  {
    hide Align, Blocks, Layout, ArgsBytes, SumSizes;
    assert HoldsAt(j.(consts := j.consts[..|log|]), log, k);
    assert j.consts[..|log|][..k] == j.consts[..k];
    ConstAreaInPlace(j, n, b, SumSizes(j.consts[..k]), |log[k].data|);
  }

  /** Constants do not overlap: each ends, padding included, before the next one begins. */
  lemma ConstsApart(j: Info, n: nat, k: nat, m: nat)
    requires k < m < |j.consts|
    ensures ConstPlace(j, n, k) + j.consts[k].size <= ConstPlace(j, n, m)
  {
    hide Align, Blocks, SumSizes;
    var s := j.consts;
    SumSizesStep(s[..m], k);
    assert s[..m][..k + 1] == s[..k + 1] && s[..m][..k] == s[..k];
  }

  // ------------------------------------------------------ from Init to launch

  lemma {:induction false} RunSplit(i: Info, before: seq<Op>, after: seq<Op>)
    requires Sized(i)
    ensures Run(i, before + after) == Run(Run(i, before), after)
  {
    hide Step;
    if after == [] {
      assert before + after == before;
    } else {
      RunSplit(i, before, after[..|after| - 1]);
      assert (before + after)[..|before + after| - 1] == before + after[..|after| - 1];
    }
  }

  /**
   A launch with tiling on. The calls before fix the constant offset and record no constant; the calls
   after leave the constant area in place.
   */
  predicate TilingLaunch(i: Info, p: LaunchParam, tilingSize: nat, before: seq<Op>, after: seq<Op>)
  {
    && Sized(i) && ListsFit(p) && i.withTiling && Allocates(i, tilingSize) && KernelCalls(before) && KernelCalls(after)
    && Run(Prepared(i, p, tilingSize), before).consts == []
    && AllKeepConstArea(after, Run(Prepared(i, p, tilingSize), before).tiling.constOffset)
  }

  /** The constants that the launch records. */
  function LaunchConsts(i: Info, p: LaunchParam, tilingSize: nat, before: seq<Op>, after: seq<Op>): seq<Placed>
    requires TilingLaunch(i, p, tilingSize, before, after)
  {
    Recorded(Run(Prepared(i, p, tilingSize), before), after)
  }

  lemma AllCalls(before: seq<Op>, after: seq<Op>)
    requires KernelCalls(before) && KernelCalls(after)
    ensures KernelCalls(before + after)
  {
  }

  /** Before the argument buffer is built, every recorded constant is in the host buffer. */
  lemma LaunchHolds(i: Info, p: LaunchParam, tilingSize: nat, before: seq<Op>, after: seq<Op>)
    requires TilingLaunch(i, p, tilingSize, before, after)
    ensures KernelCalls(before + after)
    ensures var j, log := BeforeArgs(i, p, tilingSize, before + after), LaunchConsts(i, p, tilingSize, before, after);
            && j.withTiling && TilingInvariant(j) && j.host.Some? && |log| <= |j.consts|
            && Holds(j.(consts := j.consts[..|log|]), log) && ArgsNum(j, p) > 0
            && j.consts == j.consts[..|log|] + if j.withTensorlist then AllInfos(p) else []
  {
    hide Step, Prepared, ListBytes, AllInfos, HoldsAt, SumSizes, Align, Blocks, ListsFit, Recorded;
    AllCalls(before, after);
    var prep := Prepared(i, p, tilingSize);
    var mid := Run(prep, before);
    var end := Run(mid, after);
    PreparedFacts(i, p, tilingSize);
    RunKeepsTilingInvariant(prep, before);
    RunKeepsHost(prep, before);
    RunSplit(prep, before, after);
    RunHolds(mid, after, []);
    var log := Recorded(mid, after);
    assert [] + log == log;
    BeforeArgsFacts(i, p, tilingSize, before + after);
    var j := Listed(end, p);
    assert j.consts[..|log|] == end.consts;
    forall k | 0 <= k < |log|
      ensures HoldsAt(j.(consts := end.consts), log, k)
    {
      assert HoldsAt(end, log, k);
      HoldsAtSame(end, j.(consts := end.consts), log, k);
    }
  }

  lemma HoldsAtSame(i: Info, j: Info, log: seq<Placed>, k: nat)
    requires i.consts == j.consts && i.tiling == j.tiling && i.host == j.host
    requires |i.consts| == |log| && k < |log| && i.host.Some? && HoldsAt(i, log, k)
    ensures HoldsAt(j, log, k)
  {
    hide SumSizes;
  }

  /**
   End to end. After Init, in whatever way the slots are set afterwards and however often, the tiling
   data and every constant tensor are in the buffer at their places, apart and in bounds; and the builder's
   16-bit offsets are those places exactly as long as they are below 65536.
   */
  lemma LaunchBufferIsRight(i: Info, p: LaunchParam, tilingSize: nat, before: seq<Op>, after: seq<Op>, b: seq<Byte>,
                            k: nat)
    requires TilingLaunch(i, p, tilingSize, before, after) && k < |LaunchConsts(i, p, tilingSize, before, after)|
    requires KernelCalls(before + after)
    requires var f := Built(i, p, tilingSize, before + after);
             ArgsNum(f, p) > 0 && SameBehindSlots(b, f.args.bytes.value, ArgsNum(f, p))
    ensures var f, log := Built(i, p, tilingSize, before + after), LaunchConsts(i, p, tilingSize, before, after);
            var n, used := ArgsNum(f, p), f.tiling.used;
            && k < |f.consts| && f.host.Some? && used <= |f.host.value|
            && var place := ConstPlace(f, n, k);
               && 8 * n + used <= place && place + |log[k].data| <= |b|
               && b[8 * n..8 * n + used] == f.host.value[..used]
               && b[place..place + |log[k].data|] == log[k].data
               && (8 * n % TWO16 == 8 * n <==> 8 * n < TWO16)
               && (DataOffset16(f, n, k) == place <==> place < TWO16)
  {
    hide Step, Prepared, Align, Blocks, ListsFit, Recorded, Holds, Layout, ArgsBytes, HostInputs, BeforeArgs;
    var ops := before + after;
    LaunchHolds(i, p, tilingSize, before, after);
    var j, f := BeforeArgs(i, p, tilingSize, ops), Built(i, p, tilingSize, ops);
    var n := ArgsNum(j, p);
    assert ArgsNum(f, p) == n;
    TilingInPlace(j, n, b);
    ConstInPlace(j, LaunchConsts(i, p, tilingSize, before, after), n, b, k);
    DataOffsetExact(f, n, k);
    assert ConstArea(j, n) >= 8 * n + j.tiling.used;
  }

  /** A constant at launch has the argument index and the data of the call that added it. */
  lemma ConstFromCall(i: Info, p: LaunchParam, tilingSize: nat, before: seq<Op>, after: seq<Op>, k: nat)
    returns (at: nat)
    requires TilingLaunch(i, p, tilingSize, before, after) && k < |LaunchConsts(i, p, tilingSize, before, after)|
    requires KernelCalls(before + after)
    ensures var f, c := Built(i, p, tilingSize, before + after), LaunchConsts(i, p, tilingSize, before, after)[k];
            && k < |f.consts| && at < |after| && after[at] == Op.AddConstTensorData(f.consts[k].argIdx, c.data)
  {
    hide Step, Prepared, ListsFit, Recorded, ArgsBytes, BeforeArgs;
    var log := LaunchConsts(i, p, tilingSize, before, after);
    LaunchHolds(i, p, tilingSize, before, after);
    var j := BeforeArgs(i, p, tilingSize, before + after);
    assert HoldsAt(j.(consts := j.consts[..|log|]), log, k);
    at := RecordedByCall(Run(Prepared(i, p, tilingSize), before), after, k);
  }

  /** KernelBase::Run up to the launch: the argument count again, and the builder. */
  method BuildParams(info: KernelInfo, builder: KernelParamBuilder, p: LaunchParam, a: Addresses, ghost n: nat)
    returns (ok: bool)
    requires info.args != null && 8 * n <= info.argsSize <= info.args.Length
    requires n == ArgsNum(info.View(), p) && n > 0 && Buildable(RequestIn(info), p, a, n)
    modifies builder, info.args
    ensures ok == Builds(RequestIn(info), a, n)
    ensures info.args[8 * n..] == old(info.args[8 * n..])
    ensures ok ==> Slots(info.args[..], n) == FinalSlots(RequestIn(info), p, a, n)
    ensures ok && info.launchWithTiling ==> builder.Described(info.constTensorInfo, info.tilingExt.used, n)
    ensures ok ==> builder.tilingId == info.tilingExt.tilingId && builder.blockDim == info.tilingExt.blockDim
  {
    hide Slots, FinalSlots, Buildable, Builds, HostInputs, Align, Blocks, Contents, ArgsNum;
    var argsNum := GetKernelArgsNum(info, p);
    ok := builder.Init(p, a, argsNum, info);
  }

  lemma BuiltSize(i: Info, p: LaunchParam, tilingSize: nat, ops: seq<Op>)
    requires Sized(i) && ListsFit(p) && KernelCalls(ops) && Allocates(i, tilingSize)
    ensures var f := Built(i, p, tilingSize, ops);
            && f.args.bytes.Some? && f.args.size == |f.args.bytes.value| && ArgsNum(f, p) > 0
            && 8 * ArgsNum(f, p) <= |f.args.bytes.value| && f.withTiling == i.withTiling
  {
    hide Step, Prepared, Listed, Align, Blocks, ListsFit, Layout, TilingInvariant;
    BeforeArgsFacts(i, p, tilingSize, ops);
    var j := BeforeArgs(i, p, tilingSize, ops);
    assert |ArgsBytes(j, ArgsNum(j, p))| >= 8 * ArgsNum(j, p);
  }

  /**
   Init, then the builder, twice: it succeeds exactly when Init and the builder do, and the second build, too,
   leaves everything behind the slots as Init laid it out, which is what LaunchBufferIsRight and ListInPlace ask for.
   */
  method InitThenBuildTwice(info: KernelInfo, builder: KernelParamBuilder, p: LaunchParam, tilingSize: nat,
                            supported: bool, ops: seq<Op>, implOk: bool, a: Addresses, ghost i: Info)
    returns (ok: bool)
    requires info.Valid() && i == info.View() && ListsFit(p) && KernelCalls(ops) && Allocates(i, tilingSize)
    requires info.tensorListAddr != null ==> info.launchWithTensorlist
    requires var f := Built(i, p, tilingSize, ops); ArgsNum(f, p) > 0 && Buildable(RequestOf(f), p, a, ArgsNum(f, p))
    modifies info, info.hostTilingAddr, builder
    ensures var f := Built(i, p, tilingSize, ops);
            ok == (InitSucceeds(i, p, tilingSize, supported, ops, implOk) && Builds(RequestOf(f), a, ArgsNum(f, p)))
    ensures var f := Built(i, p, tilingSize, ops);
            ok ==> info.args != null && 8 * ArgsNum(f, p) <= info.args.Length
                   && SameBehindSlots(info.args[..], f.args.bytes.value, ArgsNum(f, p))
                   && Slots(info.args[..], ArgsNum(f, p)) == FinalSlots(RequestOf(f), p, a, ArgsNum(f, p))
                   && (i.withTiling ==> builder.Described(f.consts, f.tiling.used, ArgsNum(f, p)))
    ensures ok ==> BlockDimInForce(ops, builder.blockDim) && TilingIdInForce(ops, builder.tilingId)
    ensures var f := Built(i, p, tilingSize, ops);
            ok && i.withTiling ==>
              && builder.hasTiling && TellsTilingSlot(builder.tilingAddrOffset, builder.tilingDataOffset, ArgsNum(f, p))
              && |builder.hostInfo| == |f.consts|
              && forall k :: 0 <= k < |f.consts| ==> TellsConst(builder.hostInfo[k], f, ArgsNum(f, p), k)
    ensures var f := Built(i, p, tilingSize, ops); var n := ArgsNum(f, p);
            ok && PresetsFit(RequestOf(f), a, n) ==>
              forall k :: 0 <= k < |f.consts| ==>
                && f.consts[k].argIdx < n
                && Slots(info.args[..], n)[f.consts[k].argIdx]
                   == if i.withTiling then a.hostInfo + 4 * k else a.tilingDevice + ConstStart(f, k)
  {
    hide Slots, FinalSlots, Buildable, HostInputs, Align, Blocks, ArgsNum, Built, Sized, InitSucceeds, ListsFit, Builds;
    hide BlockDimInForce, TilingIdInForce, TellsConst, TellsTilingSlot, PresetsFit, ConstStart;
    ghost var f := Built(i, p, tilingSize, ops);
    BuiltSize(i, p, tilingSize, ops);
    ok := Init(info, p, tilingSize, supported, ops, implOk);
    if ok {
      ghost var n: nat := ArgsNum(f, p);
      assert info.args[..] == f.args.bytes.value && info.argsSize == info.args.Length;
      ok := BuildParams(info, builder, p, a, n);
      ArgsNumKept(info.View(), f, p);
      if ok {
        ok := BuildParams(info, builder, p, a, n);
      }
      assert info.args[..][8 * n..] == info.args[8 * n..] == f.args.bytes.value[8 * n..];
      LaunchNumbers(i, p, tilingSize, ops);
      if ok && i.withTiling {
        RecordsTell(builder, f, n);
      }
      if ok && PresetsFit(RequestOf(f), a, n) {
        BuildableParts(RequestOf(f), p, a, n);
        forall k | 0 <= k < |f.consts|
          ensures f.consts[k].argIdx < n
          ensures FinalSlots(RequestOf(f), p, a, n)[f.consts[k].argIdx]
               == if i.withTiling then a.hostInfo + 4 * k else a.tilingDevice + ConstStart(f, k)
        {
          ConstSlot(f, p, a, n, k);
        }
      }
    }
  }

  lemma BuildableParts(r: Request, p: LaunchParam, a: Addresses, n: nat)
    requires Buildable(r, p, a, n)
    ensures n > 0 && IndexesBelow(r.consts, n) && (r.withTensorlist ==> LensFit(p))
  {
  }

  /** The record of a constant: the byte offset of its argument's slot and the place of its data, while 16 bits do. */
  predicate TellsConst(h: HostInput, j: Info, n: nat, k: nat)
    requires k < |j.consts|
  {
    && h.addrOffset == 8 * j.consts[k].argIdx % 0x1_0000
    && (h.addrOffset == 8 * j.consts[k].argIdx <==> 8 * j.consts[k].argIdx < 0x1_0000)
    && (h.dataOffset == ConstPlace(j, n, k) <==> ConstPlace(j, n, k) < 0x1_0000)
  }

  /** The last slot is the tiling's, and its data follows the slots. */
  predicate TellsTilingSlot(addrOffset: nat, dataOffset: nat, n: int)
  {
    && (addrOffset == 8 * (n - 1) <==> 8 * (n - 1) < 0x1_0000) && (dataOffset == 8 * n <==> 8 * n < 0x1_0000)
  }

  lemma RecordsTell(builder: KernelParamBuilder, j: Info, n: nat)
    requires n > 0 && builder.Described(j.consts, j.tiling.used, n)
    ensures |builder.hostInfo| == |j.consts|
    ensures TellsTilingSlot(builder.tilingAddrOffset, builder.tilingDataOffset, n)
    ensures forall k :: 0 <= k < |j.consts| ==> TellsConst(builder.hostInfo[k], j, n, k)
  {
    hide SumSizes, Align;
    SmallMod(8 * n);
    SmallMod(8 * (n - 1));
    forall k | 0 <= k < |j.consts|
      ensures TellsConst(builder.hostInfo[k], j, n, k)
    {
      SmallMod(8 * j.consts[k].argIdx);
      DataOffsetExact(j, n, k);
    }
  }

  /**
   The slot of a constant's argument: with tiling on the address of the constant's record, with tiling off its
   place in the tiling buffer on the device.
   */
  lemma ConstSlot(j: Info, p: LaunchParam, a: Addresses, n: nat, k: nat)
    requires k < |j.consts| && PresetsFit(RequestOf(j), a, n) && (j.withTensorlist ==> LensFit(p))
    requires IndexesBelow(j.consts, n)
    ensures j.consts[k].argIdx < n
    ensures FinalSlots(RequestOf(j), p, a, n)[j.consts[k].argIdx]
         == if j.withTiling then a.hostInfo + 4 * k else a.tilingDevice + ConstStart(j, k)
  {
    hide AllOperands, Fill, Preset, LensFit, SumSizes, PresetSlots;
    var r := RequestOf(j);
    var idxs, addrs, nulls: seq<nat> := PresetIdxs(r), PresetAddrs(r, a), seq(n, _ => 0);
    PresetsInOne(r, a, n);
    var at := if r.hwsync < 0 then k else k + 1;
    assert idxs[at] == j.consts[k].argIdx && addrs[at] == ConstAddrs(r, a)[k];
    forall i | 0 <= i < |idxs|
      ensures idxs[i] < n && addrs[i] != 0
    {
      if r.hwsync >= 0 && i > 0 {
        assert addrs[i] == ConstAddrs(r, a)[i - 1];
      }
    }
    PresetHolds(nulls, idxs, addrs);
    var slots := PresetSlots(r, a, n);
    assert slots[idxs[at]] == addrs[at] != 0;
    FillAt(slots, AllOperands(r, p, a), idxs[at]);
    assert idxs[at] < n - 1;
  }

  /** Block number, tiling id and sizes at launch are those of the last calls that were taken. */
  lemma LaunchNumbers(i: Info, p: LaunchParam, tilingSize: nat, ops: seq<Op>)
    requires Sized(i) && ListsFit(p) && KernelCalls(ops) && Allocates(i, tilingSize)
    ensures var f := Built(i, p, tilingSize, ops);
            && BlockDimInForce(ops, f.tiling.blockDim) && TilingIdInForce(ops, f.tiling.tilingId)
            && HwsyncInForce(ops, f.hwsync)
            && (RunsThrough(Prepared(i, p, tilingSize), ops) ==>
                  f.scratch == WorkspaceSizes(ops) && f.memset == MemsetRequests(ops))
            && (i.withTiling ==>
                  && f.host.Some? && |f.host.value| == tilingSize
                  && UsedInForce(ops, tilingSize, f.tiling.used)
                  && OffsetInForce(ops, tilingSize, f.tiling.constOffset))
  {
    hide Step, Prepared, Align, Blocks, Layout, ListBytes, AllInfos, ListsFit, ArgsBytes, TilingInvariant;
    hide BlockDimInForce, TilingIdInForce, HwsyncInForce, UsedInForce, OffsetInForce, RunsThrough;
    var prep := Prepared(i, p, tilingSize);
    PreparedFacts(i, p, tilingSize);
    NumbersOfRun(prep, ops);
    if i.withTiling {
      SizesOfRun(prep, ops, tilingSize);
    }
  }

  /**
   What a kernel stores through its tiling buffer and leaves alone afterwards, inside the used size in force,
   is in the argument buffer behind the slots, in whatever way the slots are set and however often.
   */
  lemma StoredIsLaunched(i: Info, p: LaunchParam, tilingSize: nat, ops: seq<Op>, b: seq<Byte>, at: nat)
    requires Sized(i) && ListsFit(p) && KernelCalls(ops) && Allocates(i, tilingSize) && i.withTiling
    requires var f := Built(i, p, tilingSize, ops);
             ArgsNum(f, p) > 0 && SameBehindSlots(b, f.args.bytes.value, ArgsNum(f, p))
    requires at < |ops| && ops[at].WriteTiling? && ops[at].pos + |ops[at].bytes| <= tilingSize
    requires forall k :: at < k < |ops| ==> LeavesAlone(ops, k, tilingSize, ops[at].pos, |ops[at].bytes|)
    requires forall used :: UsedInForce(ops, tilingSize, used) ==> ops[at].pos + |ops[at].bytes| <= used
    ensures var start := 8 * ArgsNum(Built(i, p, tilingSize, ops), p) + ops[at].pos;
            start + |ops[at].bytes| <= |b| && b[start..start + |ops[at].bytes|] == ops[at].bytes
  {
    hide Step, Prepared, ListsFit, ArgsBytes, LeavesAlone, UsedInForce, Built, BeforeArgs, OffsetInForce, ArgsNum;
    var prep, pos, bytes := Prepared(i, p, tilingSize), ops[at].pos, ops[at].bytes;
    PreparedFacts(i, p, tilingSize);
    SizesOfRun(prep, ops, tilingSize);
    StoredStays(prep, ops, tilingSize, at);
    BuiltParts(i, p, tilingSize, ops);
    var j := BeforeArgs(i, p, tilingSize, ops);
    PartOfTiling(j, ArgsNum(j, p), b, pos, pos + |bytes|);
  }

  /** What the argument buffer is made of. */
  lemma BuiltParts(i: Info, p: LaunchParam, tilingSize: nat, ops: seq<Op>)
    requires Sized(i) && ListsFit(p) && KernelCalls(ops) && Allocates(i, tilingSize) && i.withTiling
    ensures var j, f := BeforeArgs(i, p, tilingSize, ops), Built(i, p, tilingSize, ops);
            var run := Run(Prepared(i, p, tilingSize), ops);
            && TilingInvariant(j) && j.host.Some? && j.host == run.host && j.tiling == run.tiling
            && ArgsNum(f, p) == ArgsNum(j, p) > 0 && f.args.bytes == Some(ArgsBytes(j, ArgsNum(j, p)))
  {
    hide Step, Prepared, Align, Blocks, ListsFit, Layout, ListBytes, AllInfos, ArgsBytes;
    BeforeArgsFacts(i, p, tilingSize, ops);
  }

  /** Any part of the tiling data is at its place behind the slots. */
  lemma PartOfTiling(j: Info, n: nat, b: seq<Byte>, lo: nat, hi: nat)
    requires TilingInvariant(j) && j.host.Some? && n > 0 && lo <= hi <= j.tiling.used
    requires SameBehindSlots(b, ArgsBytes(j, n), n)
    ensures 8 * n + hi <= |b| && b[8 * n + lo..8 * n + hi] == j.host.value[lo..hi]
  {
    hide ArgsBytes;
    TilingInPlace(j, n, b);
    SubSlice(b, 8 * n, 8 * n + j.tiling.used, lo, hi);
    SubSlice(j.host.value, 0, j.tiling.used, lo, hi);
    assert j.host.value[0..j.tiling.used] == j.host.value[..j.tiling.used];
  }

  lemma ArgsNumKept(i: Info, j: Info, p: LaunchParam)
    requires i == j.(args := i.args)
    ensures ArgsNum(i, p) == ArgsNum(j, p) && RequestOf(i) == RequestOf(j)
  {
  }

  // --------------------------------------------------------- slots, exactly

  /** The indices that are set before the operands: hardware sync, then the constants and lists. */
  function PresetIdxs(r: Request): seq<nat>
  {
    (if r.hwsync < 0 then [] else [r.hwsync as nat]) + ArgIdxs(r.consts)
  }

  /** Distinct preset indices below the tiling slot, and addresses that are not null. */
  predicate PresetsFit(r: Request, a: Addresses, n: nat)
  {
    && n > 0 && Distinct(PresetIdxs(r)) && (forall j :: 0 <= j < |PresetIdxs(r)| ==> PresetIdxs(r)[j] < n - 1)
    && (r.hwsync >= 0 ==> a.c2cCtrl.Some? && a.c2cCtrl.value != 0)
    && forall j :: 0 <= j < |r.consts| ==> ConstAddrs(r, a)[j] != 0
  }

  function PresetAddrs(r: Request, a: Addresses): (s: seq<nat>)
    requires r.hwsync >= 0 ==> a.c2cCtrl.Some?
    ensures |s| == |PresetIdxs(r)|
  {
    (if r.hwsync < 0 then [] else [a.c2cCtrl.value]) + ConstAddrs(r, a)
  }

  lemma PresetsInOne(r: Request, a: Addresses, n: nat)
    requires PresetsFit(r, a, n)
    ensures IndexesBelow(r.consts, n)
    ensures PresetSlots(r, a, n) == Preset(seq(n, _ => 0), PresetIdxs(r), PresetAddrs(r, a))
  {
    hide ConstAddrs;
    var idxs, addrs := PresetIdxs(r), PresetAddrs(r, a);
    forall k | 0 <= k < |r.consts|
      ensures r.consts[k].argIdx < n
    {
      assert idxs[if r.hwsync < 0 then k else k + 1] == r.consts[k].argIdx;
    }
    if r.hwsync < 0 {
      assert idxs == ArgIdxs(r.consts) && addrs == ConstAddrs(r, a);
    } else {
      assert idxs[0] == r.hwsync && addrs[0] == a.c2cCtrl.value;
      assert idxs[1..] == ArgIdxs(r.consts) && addrs[1..] == ConstAddrs(r, a);
    }
  }

  /** GetKernelArgsNum, from what the builder reads. */
  function ArgsNumOf(r: Request, p: LaunchParam): int
  {
    ArgsNum(BLANK.(consts := r.consts, scratch := r.scratch, hwsync := r.hwsync), p)
  }

  lemma {:induction false} PlainAndLists(lens: seq<int>)
    requires NonNegative(lens)
    ensures Plain(lens) + CountLists(lens) == |lens|
  {
    if lens != [] {
      PlainAndLists(lens[1..]);
    }
  }

  lemma {:induction false} PlainOfZeros(n: nat)
    ensures Plain(seq(n, _ => 0)) == n
  {
    if n > 0 {
      var z: seq<int> := seq(n, _ => 0);
      assert z[1..] == seq(n - 1, _ => 0);
      PlainOfZeros(n - 1);
    }
  }

  lemma PlainInForce(tensors: seq<Tensor>, lens: seq<int>)
    requires NonNegative(lens)
    ensures Plain(Lens(tensors, lens)) + CountLists(lens) == |Lens(tensors, lens)|
  {
    if lens == [] {
      PlainOfZeros(|tensors|);
    } else {
      PlainAndLists(lens);
    }
  }

  /** With or without lists, the operands are as many as the arguments that are neither preset nor the tiling. */
  lemma OperandsCounted(r: Request, p: LaunchParam, a: Addresses)
    requires NonNegative(p.inputLens) && NonNegative(p.outputLens) && LensFit(p)
    requires !r.withTensorlist ==> !HasLens(p)
    ensures |AllOperands(r, p, a)| + |PresetIdxs(r)| + 1 == ArgsNumOf(r, p)
  {
    hide Lens, ListOperands, Operands;
    PlainInForce(p.inTensors, p.inputLens);
    PlainInForce(p.outTensors, p.outputLens);
    PlainSplit(Lens(p.inTensors, p.inputLens), Lens(p.outTensors, p.outputLens));
    OperandCount(p, a.scratch, r.scratch);
    if !r.withTensorlist {
      NoLensSameOperands(p, a.scratch, r.scratch);
    }
  }

  /**
   The count of GetKernelArgsNum is exact: every slot but the last is either preset or holds the operand
   of its rank, and the last one is left for the tiling, whose address it gets when tiling is off. With lists
   it also leaves the slot the loops need.
   */
  lemma SlotsComeOutExactly(r: Request, p: LaunchParam, a: Addresses, k: nat)
    requires NonNegative(p.inputLens) && NonNegative(p.outputLens) && LensFit(p)
    requires !r.withTensorlist ==> !HasLens(p)
    requires ArgsNumOf(r, p) >= 0 && PresetsFit(r, a, ArgsNumOf(r, p)) && k < ArgsNumOf(r, p)
    ensures var n, values := ArgsNumOf(r, p), AllOperands(r, p, a);
            && IndexesBelow(r.consts, n)
            && Free(PresetSlots(r, a, n)) == |values| + 1
            && FinalSlots(r, p, a, n)[n - 1] == (if r.withTiling then 0 else a.tilingDevice)
            && (k in PresetIdxs(r) ==> FinalSlots(r, p, a, n)[k] == PresetSlots(r, a, n)[k] != 0)
            && (k !in PresetIdxs(r) && k < n - 1 ==>
                  && Rank(PresetSlots(r, a, n), k) < |values|
                  && FinalSlots(r, p, a, n)[k] == values[Rank(PresetSlots(r, a, n), k)])
  {
    hide AllOperands, PresetSlots, Preset, Fill, Rank, Free, ConstAddrs, AllLens, LensFit, CountLists;
    var n, idxs, addrs := ArgsNumOf(r, p), PresetIdxs(r), PresetAddrs(r, a);
    OperandsCounted(r, p, a);
    PresetsInOne(r, a, n);
    forall j | 0 <= j < |idxs|
      ensures idxs[j] < n - 1 && addrs[j] != 0
    {
      if r.hwsync >= 0 && j > 0 {
        assert addrs[j] == ConstAddrs(r, a)[j - 1];
      }
    }
    FillingIsABijection(n, idxs, addrs, AllOperands(r, p, a), k);
    PresetsOccupy(n, idxs, addrs, k);
  }

  // ---------------------------------------------------------- tensor lists

  /** Output lists are numbered from |inputLens|, which is where the outputs start unless it is 0. */
  predicate OutputsNumberedRight(p: LaunchParam)
  {
    |p.inputLens| == |Lens(p.inTensors, p.inputLens)| || CountLists(p.outputLens) == 0
  }

  /** The argument indices of the lists among the lengths. */
  function ListIdxs(lens: seq<int>, argIdx: nat): seq<nat>
  {
    if lens == [] then []
    else (if lens[0] > 0 then [argIdx] else []) + ListIdxs(lens[1..], argIdx + 1)
  }

  lemma {:induction false} ListIdxsAre(tensors: seq<Tensor>, lens: seq<int>, id: nat, argIdx: nat)
    requires AllStorable(tensors) && id + Flat(lens) <= |tensors|
    ensures ArgIdxs(ListInfos(tensors, lens, id, argIdx)) == ListIdxs(lens, argIdx)
    decreases lens
  {
    hide Block;
    if lens != [] {
      ListIdxsAre(tensors, lens[1..], id + Width(lens[0]), argIdx + 1);
      var rest := ListInfos(tensors, lens[1..], id + Width(lens[0]), argIdx + 1);
      if lens[0] > 0 {
        var head := ConstTensor(argIdx, 8 * |Block(tensors[id..id + lens[0]])|);
        assert ArgIdxs([head] + rest) == [argIdx] + ArgIdxs(rest);
      } else {
        assert [] + rest == rest;
      }
    }
  }

  lemma ListIdxsMember(lens: seq<int>, argIdx: nat, k: nat)
    requires lens != []
    ensures k in ListIdxs(lens, argIdx) <==> (lens[0] > 0 && k == argIdx) || k in ListIdxs(lens[1..], argIdx + 1)
  {
    var first, rest := if lens[0] > 0 then [argIdx] else [], ListIdxs(lens[1..], argIdx + 1);
    assert ListIdxs(lens, argIdx) == first + rest;
  }

  /** Entry i of the lengths belongs to a list. */
  predicate PositiveAt(lens: seq<int>, i: int)
  {
    0 <= i < |lens| && lens[i] > 0
  }

  lemma PositiveStep(lens: seq<int>, i: int)
    requires lens != []
    ensures PositiveAt(lens, i) <==> (lens[0] > 0 && i == 0) || PositiveAt(lens[1..], i - 1)
  {
    assert 0 < i < |lens| ==> lens[i] == lens[1..][i - 1];
  }

  lemma {:induction false} ListIdxsHold(lens: seq<int>, argIdx: nat, k: nat)
    ensures k in ListIdxs(lens, argIdx) <==> PositiveAt(lens, k - argIdx)
    decreases lens
  {
    if lens != [] {
      hide ListIdxs, PositiveAt;
      ListIdxsHold(lens[1..], argIdx + 1, k);
      ListIdxsMember(lens, argIdx, k);
      PositiveStep(lens, k - argIdx);
    }
  }

  lemma {:induction false} ListIdxsDistinct(lens: seq<int>, argIdx: nat)
    ensures Distinct(ListIdxs(lens, argIdx))
    decreases lens
  {
    if lens != [] {
      var rest := ListIdxs(lens[1..], argIdx + 1);
      ListIdxsDistinct(lens[1..], argIdx + 1);
      ListIdxsHold(lens[1..], argIdx + 1, argIdx);
      if lens[0] > 0 {
        assert ListIdxs(lens, argIdx) == [argIdx] + rest;
        forall j, k | 0 <= j < k < |rest| + 1
          ensures ([argIdx] + rest)[j] != ([argIdx] + rest)[k]
        {
          if j == 0 {
            assert rest[k - 1] in rest;
          }
        }
      } else {
        assert ListIdxs(lens, argIdx) == rest;
      }
    }
  }

  /** A launch with tensor lists, and no hardware sync or constants of its own. */
  predicate ListLaunch(r: Request, p: LaunchParam, a: Addresses)
  {
    && ListsFit(p) && r.withTiling && r.withTensorlist && r.hwsync < 0 && r.consts == AllInfos(p)
    && forall j :: 0 <= j < |r.consts| ==> ConstAddrs(r, a)[j] != 0
  }

  lemma FlatInForce(tensors: seq<Tensor>, lens: seq<int>)
    requires Flat(lens) <= |tensors|
    ensures Flat(Lens(tensors, lens)) <= |tensors|
  {
    if lens == [] {
      FlatOfZeros(|tensors|);
    }
  }

  /** Argument k is a list, as the code numbers arguments. */
  predicate NumberedList(p: LaunchParam, k: nat)
  {
    || (k < |p.inputLens| && p.inputLens[k] > 0)
    || (|p.inputLens| <= k < |p.inputLens| + |p.outputLens| && p.outputLens[k - |p.inputLens|] > 0)
  }

  lemma ArgIdxsAppend(a: seq<ConstTensor>, b: seq<ConstTensor>)
    ensures ArgIdxs(a + b) == ArgIdxs(a) + ArgIdxs(b)
  {
  }

  lemma ListArgIdxs(p: LaunchParam)
    requires ListsFit(p)
    ensures ArgIdxs(AllInfos(p)) == ListIdxs(p.inputLens, 0) + ListIdxs(p.outputLens, |p.inputLens|)
  {
    hide ListInfos, ListIdxs, ArgIdxs;
    ListIdxsAre(p.inTensors, p.inputLens, 0, 0);
    ListIdxsAre(p.outTensors, p.outputLens, 0, |p.inputLens|);
    ArgIdxsAppend(ListInfos(p.inTensors, p.inputLens, 0, 0), ListInfos(p.outTensors, p.outputLens, 0, |p.inputLens|));
  }

  lemma ListArgIdxsHold(p: LaunchParam, k: nat)
    requires ListsFit(p)
    ensures k in ArgIdxs(AllInfos(p)) <==> NumberedList(p, k)
  {
    hide ListIdxs, AllInfos, ArgIdxs, ListsFit;
    ListArgIdxs(p);
    ListIdxsHold(p.inputLens, 0, k);
    ListIdxsHold(p.outputLens, |p.inputLens|, k);
  }

  lemma ListArgIdxsDistinct(p: LaunchParam)
    requires ListsFit(p)
    ensures Distinct(ArgIdxs(AllInfos(p)))
  {
    hide ListIdxs, AllInfos, ArgIdxs, ListsFit;
    ListArgIdxs(p);
    var ins, outs := ListIdxs(p.inputLens, 0), ListIdxs(p.outputLens, |p.inputLens|);
    ListIdxsDistinct(p.inputLens, 0);
    ListIdxsDistinct(p.outputLens, |p.inputLens|);
    forall j, k | 0 <= j < k < |ins + outs|
      ensures (ins + outs)[j] != (ins + outs)[k]
    {
      if j < |ins| <= k {
        assert ins[j] in ins && outs[k - |ins|] in outs;
        ListIdxsHold(p.inputLens, 0, ins[j]);
        ListIdxsHold(p.outputLens, |p.inputLens|, outs[k - |ins|]);
      }
    }
  }

  lemma {:induction false} NoListsNoLens(lens: seq<int>, k: nat)
    requires CountLists(lens) == 0 && k < |lens|
    ensures lens[k] <= 0
  {
    if k > 0 {
      NoListsNoLens(lens[1..], k - 1);
    }
  }

  lemma {:induction false} FirstList(lens: seq<int>) returns (q: nat)
    requires CountLists(lens) > 0
    ensures q < |lens| && lens[q] > 0 && forall k :: 0 <= k < q ==> lens[k] <= 0
  {
    if lens[0] > 0 {
      q := 0;
    } else {
      q := FirstList(lens[1..]);
      q := q + 1;
      forall k | 0 <= k < q
        ensures lens[k] <= 0
      {
        assert k > 0 ==> lens[k] == lens[1..][k - 1];
      }
    }
  }

  lemma ListPresets(r: Request, p: LaunchParam, a: Addresses, k: nat)
    requires ListLaunch(r, p, a) && k < ArgsNumOf(r, p)
    ensures PresetsFit(r, a, ArgsNumOf(r, p)) && IndexesBelow(r.consts, ArgsNumOf(r, p))
    ensures PresetSlots(r, a, ArgsNumOf(r, p))[k] != 0 <==> NumberedList(p, k)
  {
    hide AllInfos, ConstAddrs, Preset, ListsFit, PresetSlots, CountLists;
    var n, idxs := ArgsNumOf(r, p), ArgIdxs(AllInfos(p));
    ListArgsNum(r, p, a);
    ListArgIdxsDistinct(p);
    assert PresetIdxs(r) == idxs;
    assert PresetAddrs(r, a) == ConstAddrs(r, a);
    forall j | 0 <= j < |idxs|
      ensures idxs[j] < n - 1
    {
      assert idxs[j] in idxs;
      ListArgIdxsHold(p, idxs[j]);
    }
    PresetsInOne(r, a, n);
    PresetsOccupy(n, idxs, ConstAddrs(r, a), k);
    ListArgIdxsHold(p, k);
  }

  lemma ListArgsNum(r: Request, p: LaunchParam, a: Addresses)
    requires ListLaunch(r, p, a)
    ensures ArgsNumOf(r, p) == |AllLens(p)| + |r.scratch| + 1
    ensures |AllLens(p)| >= |p.inputLens| + |p.outputLens|
  {
    hide AllInfos, ConstAddrs, ListsFit;
    AllInfosCount(p);
  }

  /** Rightly numbered, the lists are those of the lengths in force. */
  lemma NumberedRight(p: LaunchParam, k: nat)
    requires ListsFit(p) && OutputsNumberedRight(p)
    ensures NumberedList(p, k) <==> k < |AllLens(p)| && AllLens(p)[k] != 0
  {
    hide AllWords, AllStorable, Flat, CountLists;
    var start := |Lens(p.inTensors, p.inputLens)|;
    if CountLists(p.outputLens) == 0 {
      if |p.inputLens| <= k < |p.inputLens| + |p.outputLens| {
        NoListsNoLens(p.outputLens, k - |p.inputLens|);
      }
      if start <= k < start + |p.outputLens| {
        NoListsNoLens(p.outputLens, k - start);
      }
    }
  }

  /** The lists take exactly their own slots if and only if their outputs are numbered from where the outputs start. */
  lemma ListsTakeTheirOwnSlots(r: Request, p: LaunchParam, a: Addresses)
    requires ListLaunch(r, p, a)
    ensures ArgsNumOf(r, p) > |AllLens(p)| && IndexesBelow(r.consts, ArgsNumOf(r, p))
    ensures OnlyListsTaken(PresetSlots(r, a, ArgsNumOf(r, p)), AllLens(p)) <==> OutputsNumberedRight(p)
  {
    hide AllInfos, PresetSlots, CountLists, ConstAddrs, ListsFit, NumberedList, AllLens, ArgsNumOf;
    ListArgsNum(r, p, a);
    var n, lens := ArgsNumOf(r, p), AllLens(p);
    ListPresets(r, p, a, n - 1);
    var slots := PresetSlots(r, a, n);
    if OutputsNumberedRight(p) {
      forall k | 0 <= k < n
        ensures slots[k] != 0 <==> k < |lens| && lens[k] != 0
      {
        ListPresets(r, p, a, k);
        NumberedRight(p, k);
      }
    } else {
      var q := MisplacedList(p);
      ListPresets(r, p, a, q);
      assert slots[q] != 0;
    }
  }

  /** Wrongly numbered, the first output list takes the slot of a plain argument. */
  lemma MisplacedList(p: LaunchParam) returns (q: nat)
    requires ListsFit(p) && !OutputsNumberedRight(p)
    ensures NumberedList(p, q) && q < |AllLens(p)| && AllLens(p)[q] == 0
  {
    hide AllWords, AllStorable, Flat, CountLists;
    q := FirstList(p.outputLens);
    var start := |p.inTensors|;
    assert p.inputLens == [] && q >= start ==> p.outputLens[q - start] <= 0;
  }

  /**
   With tensor lists, every plain tensor is at its own argument index, each list slot holds its
   placeholder, the workspaces follow, and the tiling slot is left.
   */
  lemma ListArgumentsInPlace(r: Request, p: LaunchParam, a: Addresses, k: nat)
    requires ListLaunch(r, p, a) && OutputsNumberedRight(p) && k < ArgsNumOf(r, p)
    ensures LensFit(p) && IndexesBelow(r.consts, ArgsNumOf(r, p))
    ensures FinalSlots(r, p, a, ArgsNumOf(r, p))[k]
         == if k < |AllLens(p)| then
              if AllLens(p)[k] == 0 then LogicalOperand(p, k) else PresetSlots(r, a, ArgsNumOf(r, p))[k]
            else if k - |AllLens(p)| < |r.scratch| then a.scratch + Sum(r.scratch[..k - |AllLens(p)|])
            else 0
  {
    hide AllInfos, PresetSlots, ConstAddrs, AllLens, ListOperands, Fill, LogicalOperand;
    FlatInForce(p.inTensors, p.inputLens);
    FlatInForce(p.outTensors, p.outputLens);
    ListPresets(r, p, a, k);
    ListsTakeTheirOwnSlots(r, p, a);
    ListsKeepLogicalIndex(PresetSlots(r, a, ArgsNumOf(r, p)), p, a.scratch, r.scratch, k);
  }

  /** Entry q of the input or output lengths is a list. */
  predicate IsList(p: LaunchParam, input: bool, q: nat)
  {
    if input then q < |p.inputLens| && p.inputLens[q] > 0 else q < |p.outputLens| && p.outputLens[q] > 0
  }

  function GroupOf(p: LaunchParam, input: bool, q: nat): seq<Tensor>
    requires ListsFit(p) && IsList(p, input, q)
  {
    if input then Group(p.inTensors, p.inputLens, q) else Group(p.outTensors, p.outputLens, q)
  }

  /** Its number among all lists. */
  function ListNumber(p: LaunchParam, input: bool, q: nat): nat
    requires IsList(p, input, q)
  {
    if input then CountLists(p.inputLens[..q]) else CountLists(p.inputLens) + CountLists(p.outputLens[..q])
  }

  /** Input and output blocks are adjacent, and each is recorded with its argument index and its size. */
  lemma ListRecorded(p: LaunchParam, input: bool, q: nat) returns (off: nat)
    requires ListsFit(p) && IsList(p, input, q)
    ensures AllStorable(GroupOf(p, input, q))
    ensures var g, m := GroupOf(p, input, q), ListNumber(p, input, q);
            && off + |Block(g)| <= |AllWords(p)| && AllWords(p)[off..off + |Block(g)|] == Block(g)
            && m < |AllInfos(p)| && SumSizes(AllInfos(p)[..m]) == 8 * off
            && AllInfos(p)[m] == ConstTensor(if input then q else |p.inputLens| + q, 8 * |Block(g)|)
  {
    hide Block, Group, ListWords, ListInfos, CountLists, SumSizes, Flat, NonNegative;
    var infos, words := ListInfos(p.inTensors, p.inputLens, 0, 0), ListWords(p.inTensors, p.inputLens, 0);
    if input {
      ListAt(p.inTensors, p.inputLens, 0, q);
      FrontCount(p.inTensors, p.inputLens, q, 0);
      off := |ListWords(p.inTensors, p.inputLens[..q], 0)|;
      assert AllInfos(p)[..ListNumber(p, input, q)] == infos[..ListNumber(p, input, q)];
    } else {
      ListAt(p.outTensors, p.outputLens, |p.inputLens|, q);
      FrontCount(p.outTensors, p.outputLens, q, |p.inputLens|);
      InfosCount(p.inTensors, p.inputLens, 0, 0);
      InfosMatchWords(p.inTensors, p.inputLens, 0, 0);
      var m := CountLists(p.outputLens[..q]);
      var outs := ListInfos(p.outTensors, p.outputLens, 0, |p.inputLens|);
      off := |words| + |ListWords(p.outTensors, p.outputLens[..q], 0)|;
      assert AllInfos(p)[..ListNumber(p, input, q)] == infos + outs[..m];
      SumSizesAppend(infos, outs[..m]);
    }
  }

  lemma FrontCount(tensors: seq<Tensor>, lens: seq<int>, q: nat, argIdx: nat)
    requires AllStorable(tensors) && Flat(lens) <= |tensors| && q < |lens|
    ensures Flat(lens[..q]) <= |tensors| && |ListInfos(tensors, lens[..q], 0, argIdx)| == CountLists(lens[..q])
  {
    GroupFits(lens, q);
    InfosCount(tensors, lens[..q], 0, argIdx);
  }

  /** Where a list's block starts in the argument buffer: behind the constant area. */
  function ListPlace(j: Info, p: LaunchParam, n: nat, m: nat): int
    requires ListsFit(p) && m < |AllInfos(p)|
  {
    ConstArea(j, n) + (j.tiling.hostSize - j.tiling.constOffset) + SumSizes(AllInfos(p)[..m])
  }

  lemma ListBytesSlice(p: LaunchParam, lo: nat, hi: nat)
    requires ListsFit(p) && lo <= hi <= |AllWords(p)|
    ensures 8 * hi <= |ListBytes(p)| && ListBytes(p)[8 * lo..8 * hi] == WordBytes(AllWords(p)[lo..hi])
  {
    hide WordBytes, AllWords, PadWords, AllStorable, Flat, NonNegative;
    var words := AllWords(p) + seq(PadWords(|AllWords(p)|), _ => 0);
    WordBytesSlice(words, lo, hi);
    assert words[lo..hi] == AllWords(p)[lo..hi];
  }

  /** A number cut to 16 bits is another one only if that fits and they differ by a multiple of 65536. */
  lemma WrapShift(x: nat, y: int)
    ensures x % TWO16 == y <==> 0 <= y < TWO16 && (x - y) % TWO16 == 0
  {
    if x % TWO16 == y {
      assert x - y == TWO16 * (x / TWO16);
    }
    if 0 <= y < TWO16 && (x - y) % TWO16 == 0 {
      var d := (x - y) / TWO16;
      assert x == TWO16 * d + y;
    }
  }

  /**
   The offset recorded for a list is where its block lies if and only if that is below 65536 and the recorded
   constants fill the constant area exactly, up to multiples of 65536.
   */
  lemma ListOffsetExact(run: Info, p: LaunchParam, n: nat, m: nat)
    requires ListsFit(p) && m < |AllInfos(p)| && run.withTensorlist
    requires TilingInvariant(run)
    ensures |run.consts| + m < |Listed(run, p).consts|
    ensures DataOffset16(Listed(run, p), n, |run.consts| + m) == ListPlace(run, p, n, m)
            <==> && ListPlace(run, p, n, m) < TWO16
                 && (SumSizes(run.consts) - (run.tiling.hostSize - run.tiling.constOffset)) % TWO16 == 0
  {
    hide AllInfos, Align, ListsFit, SumSizes, DataOffset16, ListBytes, ConstPlace, Listed, ListPlace;
    PlacesOfList(run, p, n, m);
    DataOffsetExact(Listed(run, p), n, |run.consts| + m);
    WrapShift(ConstPlace(Listed(run, p), n, |run.consts| + m), ListPlace(run, p, n, m));
  }

  /** Where the offsets put a list, and where it is. */
  lemma PlacesOfList(run: Info, p: LaunchParam, n: nat, m: nat)
    requires ListsFit(p) && m < |AllInfos(p)| && run.withTensorlist && TilingInvariant(run)
    ensures |run.consts| + m < |Listed(run, p).consts| && ListPlace(run, p, n, m) >= 0
    ensures ConstPlace(Listed(run, p), n, |run.consts| + m) - ListPlace(run, p, n, m)
         == SumSizes(run.consts) - (run.tiling.hostSize - run.tiling.constOffset)
  {
    hide AllInfos, Align, ListsFit, SumSizes, ListBytes;
    ConstsBeforeLists(run, p, m);
    assert ConstArea(Listed(run, p), n) == ConstArea(run, n);
  }

  /**
   The block of a list is behind the constant area, and reading it there gives the tensors of the list,
   whether or not the recorded offset says so (ListOffsetExact).
   */
  lemma ListInPlace(run: Info, p: LaunchParam, n: nat, b: seq<Byte>, input: bool, q: nat)
    requires ListsFit(p) && IsList(p, input, q) && run.withTensorlist
    requires TilingInvariant(run) && TilingInvariant(Listed(run, p)) && run.host.Some?
    requires SameBehindSlots(b, ArgsBytes(Listed(run, p), n), n)
    ensures var m := ListNumber(p, input, q);
            && m < |AllInfos(p)| && |run.consts| + m < |Listed(run, p).consts|
            && AllStorable(GroupOf(p, input, q))
            && 0 <= ListPlace(run, p, n, m) <= ListPlace(run, p, n, m) + AllInfos(p)[m].size <= |b|
            && AllInfos(p)[m].size == 8 * |Block(GroupOf(p, input, q))|
            && DecodeFrom(Slots(b[ListPlace(run, p, n, m)..ListPlace(run, p, n, m) + AllInfos(p)[m].size],
                                |Block(GroupOf(p, input, q))|), 1) == GroupOf(p, input, q)
            && (DataOffset16(Listed(run, p), n, |run.consts| + m) == ListPlace(run, p, n, m)
                <==> && ListPlace(run, p, n, m) < TWO16
                     && (SumSizes(run.consts) - (run.tiling.hostSize - run.tiling.constOffset)) % TWO16 == 0)
  {
    hide Block, GroupOf, ListBytes, AllInfos, AllWords, WordBytes, Slots, DecodeFrom, Align, Blocks, Layout, ListsFit;
    hide Zeros, SumSizes, DataOffset16;
    var j, g, m := Listed(run, p), GroupOf(p, input, q), ListNumber(p, input, q);
    var off := ListRecorded(p, input, q);
    ListBytesSlice(p, off, off + |Block(g)|);
    var area := j.host.value[j.tiling.constOffset..j.tiling.hostSize];
    var start := ConstArea(j, n) + |area|;
    LayoutParts(8 * n, j.host.value[..j.tiling.used], area, ListBytes(p));
    ListBytesInPlace(j, n, b, ListBytes(p), start, 8 * off, 8 * |Block(g)|);
    ListsFitWords(p);
    DecodeBytes(g, b, start + 8 * off);
    ListOffsetExact(run, p, n, m);
  }

  const POINT := Tensor([], 1)

  /** One input list of one tensor, in a launch that sets a constant offset and adds no constant. */
  const ONE_LIST := LaunchParam([POINT], [], [1], [])

  lemma OneListFits()
    ensures ListsFit(ONE_LIST) && |AllInfos(ONE_LIST)| == 1
  {
    OneBlock();
    assert AllStorable([POINT]) && [1][1..] == [] && [POINT][0..1] == [POINT];
    assert ListWords([POINT], [1], 0) == Block([POINT]) + ListWords([POINT], [], 1);
    assert ListWords([], [], 0) == [];
    AllInfosCount(ONE_LIST);
    assert CountLists([1]) == 1 + CountLists([]);
  }

  lemma OneBlock()
    ensures AllStorable([POINT]) && |Block([POINT])| == 3
  {
    assert [POINT][..0] == [];
    assert Headers([POINT]) == Headers([]) + ([HeaderWord(0, 0)] + DimWords([]));
  }

  /** There the recorded offset is not where the block lies. */
  lemma ListOffsetWrong(n: nat)
    ensures ListsFit(ONE_LIST)
    ensures var run := Run(Prepared(BLANK, ONE_LIST, 64), [Op.SetConstTensorOffset(32)]);
            && |AllInfos(ONE_LIST)| == 1 && |run.consts| == 0 && |Listed(run, ONE_LIST).consts| > 0
            && DataOffset16(Listed(run, ONE_LIST), n, 0) != ListPlace(run, ONE_LIST, n, 0)
  {
    hide Prepared, AllInfos, DataOffset16, ListsFit, Listed;
    OneListFits();
    var prep := Prepared(BLANK, ONE_LIST, 64);
    PreparedFacts(BLANK, ONE_LIST, 64);
    RunOne(prep, Op.SetConstTensorOffset(32));
    var run := Run(prep, [Op.SetConstTensorOffset(32)]);
    ListOffsetExact(run, ONE_LIST, n, 0);
  }

  lemma RunOne(i: Info, op: Op)
    requires Sized(i)
    ensures Run(i, [op]) == Step(i, op)
  {
    assert [op][..0] == [];
    assert Run(i, []) == i;
  }

  /** One plain input and one output list: the list's placeholder goes into the input's slot. */
  lemma ListInAPlainSlot()
    ensures var p := LaunchParam([POINT], [POINT], [], [1]);
            && ListsFit(p) && !OutputsNumberedRight(p)
            && NumberedList(p, 0) && !NumberedList(p, 1) && AllLens(p) == [0, 1]
  {
    OneBlock();
    var p := LaunchParam([POINT], [POINT], [], [1]);
    assert AllStorable([POINT]) && [1][1..] == [] && [POINT][0..1] == [POINT];
    assert ListWords([POINT], [1], 0) == Block([POINT]) + ListWords([POINT], [], 1);
    assert ListWords([POINT], [], 0) == [];
    assert CountLists([1]) == 1 + CountLists([]);
    assert Lens([POINT], []) == [0];
  }

  lemma ListsFitWords(p: LaunchParam)
    requires ListsFit(p)
    ensures 8 * |AllWords(p)| < TWO64
  {
  }

  lemma ListBytesInPlace(j: Info, n: nat, b: seq<Byte>, list: seq<Byte>, start: nat, lo: nat, len: nat)
    requires TilingInvariant(j) && j.host.Some? && j.list.bytes == Some(list) && lo + len <= |list|
    requires SameBehindSlots(b, ArgsBytes(j, n), n)
    requires start == ConstArea(j, n) + j.tiling.hostSize - j.tiling.constOffset
    ensures start + lo + len <= |b| && b[start + lo..start + lo + len] == list[lo..lo + len]
  {
    hide Align, Blocks, Layout;
    var t, laid := j.tiling, ArgsBytes(j, n);
    LayoutParts(8 * n, j.host.value[..t.used], j.host.value[t.constOffset..t.hostSize], list);
    SliceBehind(b, laid, n, start + lo, start + lo + len);
    SubSlice(laid, start, |laid|, lo, lo + len);
    assert laid[start..] == laid[start..|laid|];
  }

  lemma ConstsBeforeLists(run: Info, p: LaunchParam, m: nat)
    requires ListsFit(p) && m < |AllInfos(p)| && run.withTensorlist
    ensures SumSizes(Listed(run, p).consts[..|run.consts| + m]) == SumSizes(run.consts) + SumSizes(AllInfos(p)[..m])
    ensures SumSizes(Listed(run, p).consts[..|run.consts| + m]) <= SumSizes(Listed(run, p).consts)
  {
    hide AllInfos, ListBytes, ListsFit, SumSizes;
    SumOfFront(run.consts, AllInfos(p), m);
  }

  lemma SumOfFront(a: seq<ConstTensor>, b: seq<ConstTensor>, m: nat)
    requires m <= |b|
    ensures SumSizes((a + b)[..|a| + m]) == SumSizes(a) + SumSizes(b[..m]) <= SumSizes(a + b)
  {
    hide SumSizes;
    var front := a + b[..m];
    assert (a + b)[..|a| + m] == front;
    SumSizesAppend(a, b[..m]);
    SumSizesAppend(front, b[m..]);
    assert a + b == front + b[m..];
  }
}
