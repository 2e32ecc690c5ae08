/**
 KernelBase::Init: builds the argument buffer of a launch - null argument slots, the aligned tiling
 data, the constant tensors, and the tensor-list blocks.
 */
module KernelBases {
  import opened Bytes
  import opened Splices
  import opened Options
  import opened SlotFill
  import opened KernelInfos
  import opened TensorList

  /** The number of 64-byte blocks that hold len bytes. */
  function Blocks(len: nat): (r: nat)
    ensures len <= 64 * r < len + 64
  {
    (len + 63) / 64
  }

  /** GetTensorAlignedSize. */
  function Align(len: nat): (r: nat)
    ensures r == 64 * Blocks(len)
  {
    if len == 0 then 0 else (len + 63) / 64 * 64
  }

  /** The words that pad n words to 64 bytes. */
  function PadWords(n: nat): (r: nat)
    ensures 8 * (n + r) == Align(8 * n)
  {
    8 * Blocks(8 * n) - n
  }

  predicate NonNegative(lens: seq<int>)
  {
    forall i :: 0 <= i < |lens| ==> lens[i] >= 0
  }

  /** What the tensor-list code takes for granted about a launch parameter. */
  predicate ListsFit(p: LaunchParam)
  {
    && AllStorable(p.inTensors) && AllStorable(p.outTensors)
    && NonNegative(p.inputLens) && NonNegative(p.outputLens)
    && Flat(p.inputLens) <= |p.inTensors| && Flat(p.outputLens) <= |p.outTensors|
    && 8 * |AllWords(p)| + 64 <= TWO64
  }

  function AllWords(p: LaunchParam): seq<nat>
    requires AllStorable(p.inTensors) && AllStorable(p.outTensors)
    requires Flat(p.inputLens) <= |p.inTensors| && Flat(p.outputLens) <= |p.outTensors|
  {
    ListWords(p.inTensors, p.inputLens, 0) + ListWords(p.outTensors, p.outputLens, 0)
  }

  /** Input lists are recorded under their own index; output lists are numbered on from |inputLens|. */
  function AllInfos(p: LaunchParam): seq<ConstTensor>
    requires ListsFit(p)
  {
    ListInfos(p.inTensors, p.inputLens, 0, 0) + ListInfos(p.outTensors, p.outputLens, 0, |p.inputLens|)
  }

  /** The tensor-list buffer, padded to 64 bytes. */
  function ListBytes(p: LaunchParam): (r: seq<Byte>)
    requires ListsFit(p)
    ensures |r| == Align(8 * |AllWords(p)|)
  {
    WordBytes(AllWords(p) + seq(PadWords(|AllWords(p)|), _ => 0))
  }

  /** GetTensorListSize for one of the two lists of lengths, in words. */
  method CountListWords(tensors: seq<Tensor>, lens: seq<int>) returns (total: nat)
    requires AllStorable(tensors) && NonNegative(lens) && Flat(lens) <= |tensors|
    ensures total == |ListWords(tensors, lens, 0)|
  {
    hide Block, ListWords, Flat;
    total := 0;
    var tensorId: nat := 0;
    assert lens[0..] == lens;
    for i := 0 to |lens|
      invariant tensorId + Flat(lens[i..]) <= |tensors|
      invariant total + |ListWords(tensors, lens[i..], tensorId)| == |ListWords(tensors, lens, 0)|
    {
      var len := lens[i];
      ListStep(tensors, lens, i, tensorId, 0);
      if len > 0 {
        var sigleSize := BlockLength(tensors[tensorId..tensorId + len]);
        total := total + sigleSize;
        tensorId := tensorId + len;
      } else {
        tensorId := tensorId + 1;
      }
    }
    ListDone(tensors, lens[|lens|..], tensorId, 0);
  }

  method GetTensorListSize(p: LaunchParam) returns (size: nat)
    requires ListsFit(p)
    ensures size == 8 * |AllWords(p)|
  {
    hide ListWords;
    var ins := CountListWords(p.inTensors, p.inputLens);
    var outs := CountListWords(p.outTensors, p.outputLens);
    size := (ins + outs) * 8;
  }

  /** The two BuildTensorList calls fill the zeroed buffer with the blocks of all lists. */
  method BuildTensorLists(buf: array<Byte>, p: LaunchParam) returns (infos: seq<ConstTensor>)
    requires ListsFit(p) && buf.Length == Align(8 * |AllWords(p)|) && buf[..] == Zeros(buf.Length)
    modifies buf
    ensures buf[..] == ListBytes(p) && infos == AllInfos(p)
  {
    hide Slots, Splice, ListWords, ListInfos, WordBytes, Blocks, Align, PadWords;
    var n := buf.Length / 8;
    assert n == |AllWords(p)| + PadWords(|AllWords(p)|);
    ghost var words, blank: seq<nat> := AllWords(p), seq(n, _ => 0);
    ghost var first := ListWords(p.inTensors, p.inputLens, 0);
    ZeroSlots(n);
    var useSize, ins := BuildTensorList(buf, n, 0, p.inputLens, p.inTensors, 0);
    var useMore, outs := BuildTensorList(buf, n, useSize / 8, p.outputLens, p.outTensors, |p.inputLens|);
    infos := ins + outs;
    SpliceAppend<nat>(blank, 0, first, ListWords(p.outTensors, p.outputLens, 0));
    SplicePrefix(blank, words);
    assert words + blank[|words|..] == words + seq(n - |words|, _ => 0);
    SlotsDetermineBytes(buf[..], n);
    assert buf[..][..8 * n] == buf[..];
  }

  lemma ZeroSlots(n: nat)
    ensures Slots(Zeros(8 * n), n) == seq(n, _ => 0)
  {
    SlotsOfZeros(Zeros(8 * n), n);
    SpliceAll(Zeros(8 * n), Zeros(8 * n));
  }

  // ------------------------------------------------------------------ Init

  predicate HasLens(p: LaunchParam)
  {
    p.inputLens != [] || p.outputLens != []
  }

  /** The state that InitImpl starts from. */
  function Prepared(i: Info, p: LaunchParam, tilingSize: nat): (j: Info)
    requires Sized(i) && ListsFit(p)
    ensures Sized(j)
  {
    var j := Step(i, Op.Reset);
    var k := if j.withTiling then Step(j, Op.AllocTilingHost(tilingSize)) else j;
    var l := if HasLens(p) && !k.withTensorlist then k.(withTensorlist := true, inited := false) else k;
    if l.withTensorlist then l.(list := Buffer(Some(Zeros(Align(8 * |AllWords(p)|))), Align(8 * |AllWords(p)|))) else l
  }

  /** The state after InitTensorList. */
  function Listed(i: Info, p: LaunchParam): Info
    requires ListsFit(p)
  {
    if i.withTensorlist then
      i.(list := Buffer(Some(ListBytes(p)), |ListBytes(p)|), consts := i.consts + AllInfos(p))
    else i
  }

  function CountLists(lens: seq<int>): nat
  {
    if lens == [] then 0 else (if lens[0] > 0 then 1 else 0) + CountLists(lens[1..])
  }

  /** GetKernelArgsNum: inputs, outputs, constants that are not lists, workspaces, hwsync, and the tiling. */
  function ArgsNum(i: Info, p: LaunchParam): int
  {
    |Lens(p.inTensors, p.inputLens)| + |Lens(p.outTensors, p.outputLens)|
    + (|i.consts| - CountLists(p.inputLens) - CountLists(p.outputLens))
    + |i.scratch| + (if i.hwsync < 0 then 0 else 1) + 1
  }

  /** Null slots, the tiling data padded to 64 bytes, the constant area, the tensor lists. */
  function Layout(base: nat, used: seq<Byte>, consts: seq<Byte>, list: seq<Byte>): (r: seq<Byte>)
    ensures |r| == base + Align(|used|) + |consts| + |list|
  {
    Zeros(base) + used + Zeros(Align(|used|) - |used|) + consts + list
  }

  /** The argument buffer, as Init leaves it. */
  function ArgsBytes(i: Info, n: nat): seq<Byte>
    requires i.withTiling ==> TilingInvariant(i) && i.host.Some?
  {
    if !i.withTiling then Zeros(8 * n)
    else Layout(8 * n, i.host.value[..i.tiling.used], i.host.value[i.tiling.constOffset..i.tiling.hostSize],
                if i.list.bytes.Some? then i.list.bytes.value else [])
  }

  method GetTensorListNum(lens: seq<int>) returns (num: nat)
    ensures num == CountLists(lens)
  {
    num := 0;
    assert lens[0..] == lens;
    for i := 0 to |lens|
      invariant num + CountLists(lens[i..]) == CountLists(lens)
    {
      assert lens[i..][1..] == lens[i + 1..];
      if lens[i] > 0 {
        num := num + 1;
      }
    }
  }

  method GetKernelArgsNum(info: KernelInfo, p: LaunchParam) returns (n: int)
    ensures n == ArgsNum(info.View(), p)
  {
    hide CountLists, Contents;
    var inputNum := if |p.inputLens| > 0 then |p.inputLens| else |p.inTensors|;
    var outputNum := if |p.outputLens| > 0 then |p.outputLens| else |p.outTensors|;
    var ins := GetTensorListNum(p.inputLens);
    var outs := GetTensorListNum(p.outputLens);
    var constInputNum := |info.constTensorInfo| - ins - outs;
    var hwsyncNum := if info.hwsyncIdx < 0 then 0 else 1;
    n := inputNum + outputNum + constInputNum + |info.scratchSizes| + hwsyncNum + 1;
  }

  /** The copies at the end of Init put their parts side by side. */
  lemma AssembleArgs(blank: seq<Byte>, a: nat, u: seq<Byte>, cOff: nat, c: seq<Byte>, lOff: nat, l: seq<Byte>)
    requires cOff == a + Align(|u|) && lOff == cOff + |c| && blank == Zeros(lOff + |l|)
    ensures Splice<Byte>(Splice<Byte>(Splice<Byte>(blank, a, u), cOff, c), lOff, l) == Layout(a, u, c, l)
  {
    hide Align, Blocks;
    var pad := Zeros(Align(|u|) - |u|);
    var one := Splice<Byte>(blank, a, u);
    assert one == Zeros(a) + u + Zeros(lOff + |l| - a - |u|);
    var two := Splice<Byte>(one, cOff, c);
    assert one[..cOff] == Zeros(a) + u + pad;
    assert two == Zeros(a) + u + pad + c + Zeros(|l|);
    assert two[..lOff] == Zeros(a) + u + pad + c;
  }

  /** The copies into the argument buffer. */
  method CopyParts(args: array<Byte>, base: nat, used: seq<Byte>, consts: seq<Byte>, list: seq<Byte>)
    requires args.Length == base + Align(|used|) + |consts| + |list| && args[..] == Zeros(args.Length)
    modifies args
    ensures args[..] == Layout(base, used, consts, list)
  {
    hide Splice, Align, Zeros, Blocks, Layout;
    var constOffset := base + Align(|used|);
    var listOffset := constOffset + |consts|;
    AssembleArgs(args[..], base, used, constOffset, consts, listOffset, list);
    var ok := MemcpyS(args, base, args.Length - base, used);
    SpliceNothing<Byte>(args[..], constOffset);
    if |consts| > 0 {
      ok := MemcpyS(args, constOffset, args.Length - constOffset, consts);
    }
    SpliceNothing<Byte>(args[..], listOffset);
    if |list| > 0 {
      ok := MemcpyS(args, listOffset, args.Length - listOffset, list);
    }
  }

  /** The zeroed buffer for the tensor lists is there. */
  predicate ListReady(info: KernelInfo, p: LaunchParam)
    requires ListsFit(p)
    reads info, info.tensorListAddr
  {
    && info.tensorListAddr != null && info.tensorListSize == info.tensorListAddr.Length
    && info.tensorListAddr[..] == Zeros(Align(8 * |AllWords(p)|))
  }

  lemma NoLensNoWords(p: LaunchParam)
    requires ListsFit(p) && !HasLens(p)
    ensures Align(8 * |AllWords(p)|) == 0
  {
  }

  /** The lines of Init before InitImpl. */
  method Prepare(info: KernelInfo, p: LaunchParam, tilingSize: nat) returns (ok: bool, tensorListSize: nat)
    requires info.Valid() && ListsFit(p)
    requires info.tensorListAddr != null ==> info.launchWithTensorlist
    modifies info
    ensures info.Valid() && info.launchWithTiling == old(info.launchWithTiling)
    ensures ok == (info.launchWithTiling ==> 0 < tilingSize <= MAX_TILING_SIZE)
    ensures ok ==> info.View() == Prepared(old(info.View()), p, tilingSize)
    ensures ok ==> tensorListSize == if info.tensorListAddr == null then 0 else info.tensorListAddr.Length
    ensures ok && info.launchWithTensorlist ==> ListReady(info, p)
    ensures fresh(info.hostTilingAddr) || info.hostTilingAddr == null || info.hostTilingAddr == old(info.hostTilingAddr)
    ensures info.tensorListAddr == null || fresh(info.tensorListAddr)
  {
    hide Sized, Contents, AllWords, Align, Blocks, AllStorable, Flat, NonNegative;
    ok, tensorListSize := true, 0;
    info.Reset();
    if info.launchWithTiling {
      ok := info.AllocTilingHost(tilingSize);
      if !ok {
        return;
      }
    }
    if |p.inputLens| > 0 || |p.outputLens| > 0 {
      info.SetLaunchWithTensorlist(true);
    }
    var size := GetTensorListSize(p);
    tensorListSize := Align(size);
    if !HasLens(p) {
      NoLensNoWords(p);
    }
    if info.launchWithTensorlist {
      var given := info.AllocTensorListHost(tensorListSize);
    }
  }

  /** Whether every list can be recorded; push_back throws once the vector is full. */
  predicate RoomForLists(i: Info, p: LaunchParam)
    requires ListsFit(p)
  {
    |i.consts| + |AllInfos(p)| <= MINI_CAPACITY
  }

  /** InitTensorList. The exception of a full vector is the result false. */
  method InitTensorList(info: KernelInfo, p: LaunchParam) returns (recorded: bool)
    requires info.Valid() && ListsFit(p) && (HasLens(p) ==> info.launchWithTensorlist)
    requires info.launchWithTensorlist ==> ListReady(info, p)
    modifies info`constTensorInfo, info.tensorListAddr
    ensures recorded == (info.launchWithTensorlist ==> RoomForLists(old(info.View()), p))
    ensures info.Valid()
    ensures recorded ==> info.View() == Listed(old(info.View()), p)
  {
    hide Sized, AllWords, Align, Blocks, ListBytes, AllInfos, Contents, Zeros;
    recorded := true;
    if info.launchWithTensorlist {
      ghost var i := info.View();
      var infos := BuildTensorLists(info.tensorListAddr, p);
      ListKept(info, i, p);
      if |info.constTensorInfo| + |infos| > MINI_CAPACITY {
        return false;
      }
      assert i.consts + infos[..0] == i.consts;
      for k := 0 to |infos|
        invariant info.Valid() && |info.constTensorInfo| == |i.consts| + k
        invariant info.View() == i.(list := Buffer(Some(ListBytes(p)), |ListBytes(p)|), consts := i.consts + infos[..k])
      {
        assert i.consts + infos[..k + 1] == i.consts + infos[..k] + [infos[k]];
        info.AddTensorListInfo(infos[k].argIdx, infos[k].size);
      }
      assert infos[..|infos|] == infos;
    }
  }

  /** The bytes changed in place; the recorded size still fits. */
  lemma ListKept(info: KernelInfo, i: Info, p: LaunchParam)
    requires ListsFit(p) && info.tensorListAddr != null && info.tensorListAddr[..] == ListBytes(p)
    requires info.tensorListSize == info.tensorListAddr.Length
    requires info.View().(list := i.list) == i && Sized(i)
    ensures info.View() == i.(list := Buffer(Some(ListBytes(p)), |ListBytes(p)|))
    ensures Sized(info.View())
  {
    hide ListBytes;
  }

  /** The end of Init: the argument buffer is allocated, and with tiling on its parts are copied in. */
  method FillArgs(info: KernelInfo, n: nat, tensorListSize: nat) returns (ok: bool)
    requires info.Valid() && n > 0
    requires info.launchWithTiling ==> TilingInvariant(info.View()) && info.View().host.Some?
    requires tensorListSize == if info.tensorListAddr == null then 0 else info.tensorListAddr.Length
    modifies info`args, info`argsSize, info`initFlag
    ensures ok == (|ArgsBytes(old(info.View()), n)| <= MAX_ARGS_SIZE)
    ensures ok ==> info.Valid() && fresh(info.args)
    ensures ok ==> var b := ArgsBytes(old(info.View()), n);
                   info.View() == old(info.View()).(args := Buffer(Some(b), |b|), inited := true)
  {
    hide Layout, Align, Blocks, Zeros;
    ghost var i := info.View();
    var baseSize := n * 8;
    if !info.launchWithTiling {
      ok := info.InitArgs(baseSize);
      return;
    }
    var used := info.hostTilingAddr[..info.tilingExt.used];
    var consts := info.hostTilingAddr[info.tilingExt.constOffset..info.tilingExt.hostSize];
    var list := if info.tensorListAddr == null then [] else info.tensorListAddr[..];
    assert ArgsBytes(i, n) == Layout(baseSize, used, consts, list);
    var argsSize := baseSize + Align(info.tilingExt.used) + |consts| + tensorListSize;
    ok := info.InitArgs(argsSize);
    if ok {
      CopyParts(info.args, baseSize, used, consts, list);
    }
  }

  // ------------------------------------------------------- Init as a whole

  /** The host buffer can be allocated, when one is needed. */
  predicate Allocates(i: Info, tilingSize: nat)
  {
    i.withTiling ==> 0 < tilingSize <= MAX_TILING_SIZE
  }

  /** The state before the argument buffer is built. */
  function BeforeArgs(i: Info, p: LaunchParam, tilingSize: nat, ops: seq<Op>): Info
    requires Sized(i) && ListsFit(p)
  {
    Listed(Run(Prepared(i, p, tilingSize), ops), p)
  }

  lemma {:induction false} RunKeepsHost(i: Info, ops: seq<Op>)
    requires Sized(i) && KernelCalls(ops)
    ensures var j := Run(i, ops);
            && j.withTiling == i.withTiling && j.withTensorlist == i.withTensorlist && j.list == i.list
            && j.args == i.args && (j.host.Some? <==> i.host.Some?)
  {
    hide Step;
    if ops != [] {
      var front := ops[..|ops| - 1];
      assert KernelCall(ops[|ops| - 1]);
      assert forall k :: 0 <= k < |front| ==> front[k] == ops[k];
      RunKeepsHost(i, front);
      StepKeepsHost(Run(i, front), ops[|ops| - 1]);
    }
  }

  lemma StepKeepsHost(i: Info, op: Op)
    requires Sized(i) && KernelCall(op)
    ensures var j := Step(i, op);
            && j.withTiling == i.withTiling && j.withTensorlist == i.withTensorlist && j.list == i.list
            && j.args == i.args && (j.host.Some? <==> i.host.Some?)
  {
  }

  lemma PreparedFacts(i: Info, p: LaunchParam, tilingSize: nat)
    requires Sized(i) && ListsFit(p) && Allocates(i, tilingSize)
    ensures var j := Prepared(i, p, tilingSize);
            && j.withTiling == i.withTiling && (HasLens(p) ==> j.withTensorlist)
            && j.consts == [] && j.scratch == [] && j.memset == [] && j.hwsync == -1
            && j.tiling.blockDim == 0 && j.tiling.tilingId == 0
            && (i.withTiling ==>
                  TilingInvariant(j) && j.host == Some(Zeros(tilingSize)) && j.tiling.hostSize == tilingSize
                  && j.tiling.used == tilingSize && j.tiling.constOffset == tilingSize)
  {
    hide AllWords, Align, Blocks, Zeros, AllStorable, Flat, NonNegative;
  }

  lemma BeforeArgsFacts(i: Info, p: LaunchParam, tilingSize: nat, ops: seq<Op>)
    requires Sized(i) && ListsFit(p) && Allocates(i, tilingSize) && KernelCalls(ops)
    ensures var j := BeforeArgs(i, p, tilingSize, ops);
            && j.withTiling == i.withTiling && (i.withTiling ==> TilingInvariant(j) && j.host.Some?)
            && ArgsNum(j, p) > 0
  {
    hide Step, Align, Blocks, AllWords, ListWords, Prepared, ListBytes, AllInfos;
    var prep := Prepared(i, p, tilingSize);
    PreparedFacts(i, p, tilingSize);
    RunKeepsHost(prep, ops);
    var run := Run(prep, ops);
    if i.withTiling {
      RunKeepsTilingInvariant(prep, ops);
    }
    AllInfosCount(p);
    CountNothing(p);
  }

  lemma {:induction false} InfosCount(tensors: seq<Tensor>, lens: seq<int>, id: nat, argIdx: nat)
    requires AllStorable(tensors) && id + Flat(lens) <= |tensors|
    ensures |ListInfos(tensors, lens, id, argIdx)| == CountLists(lens)
    decreases lens
  {
    hide Block;
    if lens != [] {
      InfosCount(tensors, lens[1..], id + Width(lens[0]), argIdx + 1);
    }
  }

  lemma AllInfosCount(p: LaunchParam)
    requires ListsFit(p)
    ensures |AllInfos(p)| == CountLists(p.inputLens) + CountLists(p.outputLens)
  {
    InfosCount(p.inTensors, p.inputLens, 0, 0);
    InfosCount(p.outTensors, p.outputLens, 0, |p.inputLens|);
  }

  lemma CountNothing(p: LaunchParam)
    ensures !HasLens(p) ==> CountLists(p.inputLens) + CountLists(p.outputLens) == 0
  {
  }

  /** Everything up to the argument buffer succeeds. */
  predicate GetsToArgs(i: Info, p: LaunchParam, tilingSize: nat, supported: bool, ops: seq<Op>, implOk: bool)
    requires Sized(i) && ListsFit(p) && KernelCalls(ops)
  {
    && supported && implOk && Allocates(i, tilingSize) && RunsThrough(Prepared(i, p, tilingSize), ops)
    && (Run(Prepared(i, p, tilingSize), ops).withTensorlist ==> RoomForLists(Run(Prepared(i, p, tilingSize), ops), p))
  }

  /** The state after a successful Init. */
  function Built(i: Info, p: LaunchParam, tilingSize: nat, ops: seq<Op>): Info
    requires Sized(i) && ListsFit(p) && KernelCalls(ops) && Allocates(i, tilingSize)
  {
    BeforeArgsFacts(i, p, tilingSize, ops);
    var j := BeforeArgs(i, p, tilingSize, ops);
    var b := ArgsBytes(j, ArgsNum(j, p));
    j.(args := Buffer(Some(b), |b|), inited := true)
  }

  /** Exactly when Init succeeds. */
  predicate InitSucceeds(i: Info, p: LaunchParam, tilingSize: nat, supported: bool, ops: seq<Op>, implOk: bool)
    requires Sized(i) && ListsFit(p) && KernelCalls(ops)
  {
    GetsToArgs(i, p, tilingSize, supported, ops, implOk) && Built(i, p, tilingSize, ops).args.size <= MAX_ARGS_SIZE
  }

  /** Init up to and including InitTensorList. */
  method InitParts(info: KernelInfo, p: LaunchParam, tilingSize: nat, supported: bool, ops: seq<Op>, implOk: bool)
    returns (ok: bool, tensorListSize: nat)
    requires info.Valid() && ListsFit(p) && KernelCalls(ops)
    requires info.tensorListAddr != null ==> info.launchWithTensorlist
    modifies info, info.hostTilingAddr
    ensures ok == GetsToArgs(old(info.View()), p, tilingSize, supported, ops, implOk)
    ensures ok ==> info.Valid() && info.View() == BeforeArgs(old(info.View()), p, tilingSize, ops)
    ensures ok ==> tensorListSize == if info.tensorListAddr == null then 0 else info.tensorListAddr.Length
  {
    hide Sized, Contents, AllWords, Align, Blocks, ListBytes, AllInfos, Prepared, Listed, Step, AllStorable, Flat;
    hide NonNegative;
    ghost var i := info.View();
    ok, tensorListSize := supported, 0;
    if ok {
      ok, tensorListSize := Prepare(info, p, tilingSize);
      if ok {
        PreparedFacts(i, p, tilingSize);
        ok := info.PerformAll(ops);
        RunKeepsHost(Prepared(i, p, tilingSize), ops);
        ok := ok && implOk;
        if ok {
          ok := InitTensorList(info, p);
        }
      }
    }
  }

  /**
   Init, for a kernel whose input checks answer supported and whose InitImpl makes the calls ops and
   answers implOk. With a full vector the original throws out of Init, which is the result false as well,
   whether that happens in InitImpl or later.
   */
  method Init(info: KernelInfo, p: LaunchParam, tilingSize: nat, supported: bool, ops: seq<Op>, implOk: bool)
    returns (ok: bool)
    requires info.Valid() && ListsFit(p) && KernelCalls(ops)
    requires info.tensorListAddr != null ==> info.launchWithTensorlist
    modifies info, info.hostTilingAddr
    ensures ok == InitSucceeds(old(info.View()), p, tilingSize, supported, ops, implOk)
    ensures ok ==> info.Valid() && info.View() == Built(old(info.View()), p, tilingSize, ops)
    ensures ok ==> info.args != null && fresh(info.args)
  {
    hide Sized, Contents, BeforeArgs, ArgsBytes, ArgsNum, TilingInvariant, AllStorable, Flat, NonNegative, AllWords;
    ghost var i := info.View();
    var tensorListSize;
    ok, tensorListSize := InitParts(info, p, tilingSize, supported, ops, implOk);
    if ok {
      BeforeArgsFacts(i, p, tilingSize, ops);
      var n := GetKernelArgsNum(info, p);
      ok := FillArgs(info, n, tensorListSize);
    }
  }
}
