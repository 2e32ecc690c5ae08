/**
 KernelParamBuilder: turns a prepared argument buffer into launch parameters. Slots that are known
 first - hardware sync, constant tensors - are set, the operands fill the null slots that are left,
 and the 16-bit offsets tell the runtime where tiling and constant data lie in the same buffer.
 */
module KernelParams {
  import opened Bytes
  import opened Splices
  import opened Options
  import opened SlotFill
  import opened KernelInfos
  import opened KernelBases

  /** RtHostInputInfoT: two uint16 fields. */
  datatype HostInput = HostInput(addrOffset: nat, dataOffset: nat)

  const HOST_INPUT_SIZE := 4
  const TWO16 := 0x1_0000

  /** Addresses that come from the runtime and the allocator. */
  datatype Addresses = Addresses(tilingDevice: nat, scratch: nat, c2cCtrl: Option<nat>, hostInfo: nat)

  function ArgIdxs(consts: seq<ConstTensor>): (r: seq<nat>)
    ensures |r| == |consts|
  {
    seq(|consts|, k requires 0 <= k < |consts| => consts[k].argIdx)
  }

  /** With tiling on, the k-th placeholder is the address of the k-th host-input record. */
  function Placeholders(consts: seq<ConstTensor>, addr: nat): (r: seq<nat>)
    ensures |r| == |consts|
  {
    seq(|consts|, k requires 0 <= k < |consts| => addr + HOST_INPUT_SIZE * k)
  }

  /** With tiling off, the constants lie behind each other in device memory. */
  function DeviceAddrs(consts: seq<ConstTensor>, addr: nat): (r: seq<nat>)
    ensures |r| == |consts|
  {
    seq(|consts|, k requires 0 <= k < |consts| => addr + SumSizes(consts[..k]))
  }

  function HostInputs(consts: seq<ConstTensor>, offset: nat): (r: seq<HostInput>)
    ensures |r| == |consts|
  {
    seq(|consts|, k requires 0 <= k < |consts| =>
      HostInput(8 * consts[k].argIdx % TWO16, (offset + SumSizes(consts[..k])) % TWO16))
  }

  predicate IndexesBelow(consts: seq<ConstTensor>, n: nat)
  {
    forall k :: 0 <= k < |consts| ==> consts[k].argIdx < n
  }

  lemma {:induction false} PresetSnoc(slots: seq<nat>, idxs: seq<nat>, addrs: seq<nat>, idx: nat, addr: nat)
    requires |idxs| == |addrs| && (forall j :: 0 <= j < |idxs| ==> idxs[j] < |slots|) && idx < |slots|
    ensures Preset(slots, idxs + [idx], addrs + [addr]) == Preset(slots, idxs, addrs)[idx := addr]
    decreases idxs
  {
    if idxs != [] {
      assert (idxs + [idx])[1..] == idxs[1..] + [idx] && (addrs + [addr])[1..] == addrs[1..] + [addr];
      PresetSnoc(slots[idxs[0] := addrs[0]], idxs[1..], addrs[1..], idx, addr);
    }
  }

  /** The hardware-sync address at its index, when there is one. */
  function WithHwsync(slots: seq<nat>, hwsyncIdx: int, c2cCtrl: Option<nat>): (r: seq<nat>)
    ensures |r| == |slots|
  {
    if 0 <= hwsyncIdx < |slots| && c2cCtrl.Some? then slots[hwsyncIdx := c2cCtrl.value] else slots
  }

  // ------------------------------------------------------- setting the slots

  method UpdateHwsyncArgs(args: array<Byte>, n: nat, hwsyncIdx: int, c2cCtrl: Option<nat>) returns (ok: bool)
    requires 8 * n <= args.Length && (c2cCtrl.Some? ==> c2cCtrl.value < TWO64)
    modifies args
    ensures args[8 * n..] == old(args[8 * n..]) && ok == (0 <= hwsyncIdx < n ==> c2cCtrl.Some?)
    ensures ok ==> Slots(args[..], n) == WithHwsync(old(Slots(args[..], n)), hwsyncIdx, c2cCtrl)
  {
    ok := true;
    if 0 <= hwsyncIdx < n {
      if c2cCtrl.None? {
        return false;
      }
      WriteSlot(args, n, hwsyncIdx, c2cCtrl.value);
    }
  }

  /** The overload for tiling on. */
  method UpdateConstTensorArgs(args: array<Byte>, n: nat, infoAddr: nat, constTensorOffset: nat,
                               consts: seq<ConstTensor>)
    returns (info: seq<HostInput>)
    requires 8 * n <= args.Length && IndexesBelow(consts, n) && infoAddr + HOST_INPUT_SIZE * |consts| < TWO64
    modifies args
    ensures args[8 * n..] == old(args[8 * n..])
    ensures Slots(args[..], n) == Preset(old(Slots(args[..], n)), ArgIdxs(consts), Placeholders(consts, infoAddr))
    ensures info == HostInputs(consts, constTensorOffset)
    ensures forall k :: 0 <= k < |consts| ==>
              && info[k].addrOffset == 8 * consts[k].argIdx % 0x1_0000
              && info[k].dataOffset == (constTensorOffset + SumSizes(consts[..k])) % 0x1_0000
  {
    hide Slots, Preset, SumSizes;
    ghost var s, idxs, addrs := Slots(args[..], n), ArgIdxs(consts), Placeholders(consts, infoAddr);
    PresetNone(s);
    SumSizesNone(consts);
    assert idxs[..0] == [] && addrs[..0] == [];
    var offset := constTensorOffset;
    info := [];
    for i := 0 to |consts|
      invariant args[8 * n..] == old(args[8 * n..])
      invariant Slots(args[..], n) == Preset(s, idxs[..i], addrs[..i])
      invariant offset == constTensorOffset + SumSizes(consts[..i])
      invariant info == HostInputs(consts, constTensorOffset)[..i]
    {
      PresetSnoc(s, idxs[..i], addrs[..i], idxs[i], addrs[i]);
      SumSizesStep(consts, i);
      assert idxs[..i + 1] == idxs[..i] + [idxs[i]] && addrs[..i + 1] == addrs[..i] + [addrs[i]];
      WriteSlot(args, n, consts[i].argIdx, infoAddr + HOST_INPUT_SIZE * i);
      info := info + [HostInput(8 * consts[i].argIdx % TWO16, offset % TWO16)];
      offset := offset + consts[i].size;
    }
    assert idxs[..|consts|] == idxs && addrs[..|consts|] == addrs;
  }

  /** The overload for tiling off. */
  method UpdateConstTensorArgsOnDevice(args: array<Byte>, n: nat, addr: nat, constTensorOffset: nat,
                                       consts: seq<ConstTensor>)
    requires 8 * n <= args.Length && IndexesBelow(consts, n) && addr + constTensorOffset + SumSizes(consts) < TWO64
    modifies args
    ensures args[8 * n..] == old(args[8 * n..])
    ensures Slots(args[..], n)
         == Preset(old(Slots(args[..], n)), ArgIdxs(consts), DeviceAddrs(consts, addr + constTensorOffset))
  {
    hide Slots, Preset, SumSizes;
    ghost var s, idxs, addrs := Slots(args[..], n), ArgIdxs(consts), DeviceAddrs(consts, addr + constTensorOffset);
    PresetNone(s);
    SumSizesNone(consts);
    assert idxs[..0] == [] && addrs[..0] == [];
    var offset := constTensorOffset;
    for i := 0 to |consts|
      invariant args[8 * n..] == old(args[8 * n..])
      invariant Slots(args[..], n) == Preset(s, idxs[..i], addrs[..i])
      invariant offset == constTensorOffset + SumSizes(consts[..i])
    {
      PresetSnoc(s, idxs[..i], addrs[..i], idxs[i], addrs[i]);
      SumSizesStep(consts, i);
      assert idxs[..i + 1] == idxs[..i] + [idxs[i]] && addrs[..i + 1] == addrs[..i] + [addrs[i]];
      WriteSlot(args, n, consts[i].argIdx, addr + offset);
      offset := offset + consts[i].size;
    }
    assert idxs[..|consts|] == idxs && addrs[..|consts|] == addrs;
  }

  lemma PresetNone(slots: seq<nat>)
    ensures Preset(slots, [], []) == slots
  {
  }

  lemma SumSizesNone(consts: seq<ConstTensor>)
    ensures SumSizes(consts[..0]) == 0
  {
  }

  lemma SumSizesStep(consts: seq<ConstTensor>, i: nat)
    requires i < |consts|
    ensures SumSizes(consts[..i + 1]) == SumSizes(consts[..i]) + consts[i].size <= SumSizes(consts)
  {
    assert consts[..i + 1][..i] == consts[..i];
    SumSizesAppend(consts[..i + 1], consts[i + 1..]);
    assert consts == consts[..i + 1] + consts[i + 1..];
  }

  // ------------------------------------------------------------ the builder

  /** What the builder reads from the KernelInfo, the argument buffer apart. */
  datatype Request = Request(withTiling: bool, withTensorlist: bool, hwsync: int, tiling: Tiling,
                             consts: seq<ConstTensor>, scratch: seq<nat>)

  function RequestOf(i: Info): Request
  {
    Request(i.withTiling, i.withTensorlist, i.hwsync, i.tiling, i.consts, i.scratch)
  }

  function RequestIn(info: KernelInfo): (r: Request)
    reads info, info.args, info.hostTilingAddr, info.tensorListAddr
    ensures r == RequestOf(info.View())
  {
    Request(info.launchWithTiling, info.launchWithTensorlist, info.hwsyncIdx, info.tilingExt,
            info.constTensorInfo, info.scratchSizes)
  }

  /** The addresses that the constant tensors' slots get. */
  function ConstAddrs(r: Request, a: Addresses): (s: seq<nat>)
    ensures |s| == |r.consts|
  {
    if r.withTiling then Placeholders(r.consts, a.hostInfo)
    else DeviceAddrs(r.consts, a.tilingDevice + r.tiling.constOffset)
  }

  /** The slots before inputs, outputs and workspaces are filled in. */
  function PresetSlots(r: Request, a: Addresses, n: nat): (s: seq<nat>)
    requires IndexesBelow(r.consts, n)
    ensures |s| == n
  {
    Preset(WithHwsync(seq(n, _ => 0), r.hwsync, a.c2cCtrl), ArgIdxs(r.consts), ConstAddrs(r, a))
  }

  function AllOperands(r: Request, p: LaunchParam, a: Addresses): seq<nat>
    requires r.withTensorlist ==> LensFit(p)
  {
    if r.withTensorlist then ListOperands(p, a.scratch, r.scratch) else Operands(p, a.scratch, r.scratch)
  }

  /** All n slots, when the builder is done. */
  function FinalSlots(r: Request, p: LaunchParam, a: Addresses, n: nat): seq<nat>
    requires n > 0 && IndexesBelow(r.consts, n) && (r.withTensorlist ==> LensFit(p))
  {
    var filled := Fill(PresetSlots(r, a, n), AllOperands(r, p, a));
    if r.withTiling then filled else filled[n - 1 := a.tilingDevice]
  }

  /** What the loops take for granted: indices below n, addresses that fit, and with lists a slot to spare. */
  predicate Buildable(r: Request, p: LaunchParam, a: Addresses, n: nat)
  {
    && n > 0 && IndexesBelow(r.consts, n)
    && Pointers(Data(p.inTensors)) && Pointers(Data(p.outTensors)) && a.scratch + Sum(r.scratch) < TWO64
    && (a.c2cCtrl.Some? ==> a.c2cCtrl.value < TWO64) && a.tilingDevice < TWO64
    && (if r.withTiling then a.hostInfo + HOST_INPUT_SIZE * |r.consts| < TWO64
        else a.tilingDevice + r.tiling.constOffset + SumSizes(r.consts) < TWO64)
    && (r.withTensorlist ==>
          LensFit(p) && Free(PresetSlots(r, a, n)) > |ListOperands(p, a.scratch, r.scratch)|)
  }

  const MAX_CONST_TENSORS := 1024

  /** Exactly when the slots can be built. */
  predicate Builds(r: Request, a: Addresses, n: nat)
  {
    && (0 <= r.hwsync < n ==> a.c2cCtrl.Some?)
    && (r.withTiling ==> |r.consts| < MAX_CONST_TENSORS && n > 1)
  }

  /** Clearing the slot area, then the preset slots. */
  method SetPresets(args: array<Byte>, n: nat, r: Request, p: LaunchParam, a: Addresses)
    returns (ok: bool, hostInfo: seq<HostInput>)
    requires 8 * n <= args.Length && Buildable(r, p, a, n)
    modifies args
    ensures args[8 * n..] == old(args[8 * n..])
    ensures ok == ((0 <= r.hwsync < n ==> a.c2cCtrl.Some?) && (r.withTiling ==> |r.consts| < MAX_CONST_TENSORS))
    ensures ok ==> Slots(args[..], n) == PresetSlots(r, a, n)
    ensures ok && r.withTiling ==> hostInfo == HostInputs(r.consts, Align(r.tiling.used) + 8 * n)
  {
    hide Slots, Preset, SumSizes, Align, Blocks, Zeros, Splice, HostInputs, Free, LensFit, Sum;
    hostInfo := [];
    Store(args, 0, Zeros(8 * n));
    assert args[8 * n..] == old(args[8 * n..]) by { SpliceTail(old(args[..]), Zeros(8 * n)); }
    SlotsOfZeros(old(args[..]), n);
    ok := UpdateHwsyncArgs(args, n, r.hwsync, a.c2cCtrl);
    if ok && r.withTiling {
      if |r.consts| > 0 {
        ok := |r.consts| < MAX_CONST_TENSORS;
        if ok {
          hostInfo := UpdateConstTensorArgs(args, n, a.hostInfo, Align(r.tiling.used) + n * 8, r.consts);
        }
      } else {
        PresetNone(Slots(args[..], n));
        assert ArgIdxs(r.consts) == [] && Placeholders(r.consts, a.hostInfo) == [];
        NoHostInputs(Align(r.tiling.used) + 8 * n);
      }
    } else if ok {
      UpdateConstTensorArgsOnDevice(args, n, a.tilingDevice, r.tiling.constOffset, r.consts);
    }
  }

  lemma NoHostInputs(offset: nat)
    ensures HostInputs([], offset) == []
  {
  }

  /** Inputs, outputs and workspaces, with or without tensor lists. */
  method FillOperands(args: array<Byte>, n: nat, r: Request, p: LaunchParam, a: Addresses)
    requires 8 * n <= args.Length && Buildable(r, p, a, n) && Slots(args[..], n) == PresetSlots(r, a, n)
    modifies args
    ensures args[8 * n..] == old(args[8 * n..])
    ensures Slots(args[..], n) == Fill(PresetSlots(r, a, n), AllOperands(r, p, a))
  {
    hide Slots, Fill, Free, ListOperands, Operands, LensFit, PresetSlots;
    if r.withTensorlist {
      UpdateArgsWithTensorList(args, n, p, r.scratch, a.scratch);
    } else {
      UpdateInOutWkspArgs(args, n, p, r.scratch, a.scratch);
    }
  }

  /** Hardware sync, constants, inputs, outputs, workspaces, and with tiling off the tiling address. */
  method BuildSlots(args: array<Byte>, n: nat, r: Request, p: LaunchParam, a: Addresses)
    returns (ok: bool, hostInfo: seq<HostInput>)
    requires 8 * n <= args.Length && Buildable(r, p, a, n)
    modifies args
    ensures args[8 * n..] == old(args[8 * n..]) && ok == Builds(r, a, n)
    ensures ok ==> Slots(args[..], n) == FinalSlots(r, p, a, n)
    ensures ok && r.withTiling ==> hostInfo == HostInputs(r.consts, Align(r.tiling.used) + 8 * n)
  {
    hide Slots, Fill, PresetSlots, AllOperands, Align, HostInputs, Free, LensFit;
    ok, hostInfo := SetPresets(args, n, r, p, a);
    if ok {
      FillOperands(args, n, r, p, a);
      if r.withTiling {
        ok := n > 1;
      } else {
        WriteSlot(args, n, n - 1, a.tilingDevice);
      }
    }
  }

  class KernelParamBuilder {
    var hostInfo: seq<HostInput>
    var hasTiling: bool
    var tilingAddrOffset: nat
    var tilingDataOffset: nat
    var tilingId: nat
    var blockDim: nat
    var argsSize: nat

    constructor ()
      ensures hostInfo == [] && !hasTiling
    {
      hostInfo, hasTiling, tilingAddrOffset, tilingDataOffset := [], false, 0, 0;
      tilingId, blockDim, argsSize := 0, 0, 0;
    }

    /** With tiling on: where the constants' slots and data are, and where the tiling's are. */
    predicate Described(consts: seq<ConstTensor>, used: nat, n: nat)
      reads this
    {
      && hostInfo == HostInputs(consts, Align(used) + 8 * n)
      && hasTiling && tilingAddrOffset == 8 * (n - 1) % TWO16 && tilingDataOffset == 8 * n % TWO16
    }

    /**
     The builder: in an argument buffer that Init left, the slots get their addresses, everything
     behind them is untouched, and the offsets point into it.
     */
    method Init(p: LaunchParam, a: Addresses, n: nat, info: KernelInfo) returns (ok: bool)
      requires info.args != null ==> info.argsSize <= info.args.Length
      requires Buildable(RequestIn(info), p, a, n)
      modifies this, info.args
      ensures ok == (info.args != null && 8 * n <= info.argsSize && Builds(RequestIn(info), a, n))
      ensures info.args != null && 8 * n <= info.args.Length ==> info.args[8 * n..] == old(info.args[8 * n..])
      ensures ok ==> Slots(info.args[..], n) == FinalSlots(RequestIn(info), p, a, n)
      ensures ok && info.launchWithTiling ==> Described(info.constTensorInfo, info.tilingExt.used, n)
      ensures ok ==> tilingId == info.tilingExt.tilingId && blockDim == info.tilingExt.blockDim
      ensures ok ==> argsSize == info.argsSize
    {
      hide Slots, FinalSlots, Buildable, Builds, HostInputs, Align, LensFit;
      ok := info.args != null && n * 8 <= info.argsSize;
      if ok {
        var r := RequestIn(info);
        ok, hostInfo := BuildSlots(info.args, n, r, p, a);
        if r.withTiling {
          hasTiling := true;
          tilingAddrOffset := (n - 1) * 8 % TWO16;
          tilingDataOffset := n * 8 % TWO16;
        }
      }
      tilingId, blockDim, argsSize := info.tilingExt.tilingId, info.tilingExt.blockDim, info.argsSize;
    }
  }
}
