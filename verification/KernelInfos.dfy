/**
 KernelInfo: the host tiling buffer that a kernel's initialisation fills with tiling data and
 constant tensors, and the argument buffer of the launch. The class refines Step on Info values;
 what holds over whole runs is proved about Run.
 */
module KernelInfos {
  import opened Bytes
  import opened Splices
  import opened Options

  const MAX_TILING_SIZE := 1024 * 1024
  const MAX_ARGS_SIZE := 1024 * 1024
  const MAX_BLOCK_DIM := 65536
  /** The capacity of a MiniVector; push_back throws beyond it. */
  const MINI_CAPACITY := 8

  datatype ConstTensor = ConstTensor(argIdx: nat, size: nat)

  /** A tensor to be cleared before the kernel runs. */
  datatype MemsetInfo = MemsetInfo(argIdx: nat, size: nat)

  datatype AddResult = Added | Rejected | CapacityExceeded

  /** TilingExtInfo, without the host buffer it points to. */
  datatype Tiling = Tiling(blockDim: nat, tilingId: nat, constOffset: nat, used: nat, hostSize: nat)

  const NO_TILING := Tiling(0, 0, 0, 0, 0)

  /** A buffer and the size recorded for it; the class keeps the two separately. */
  datatype Buffer = Buffer(bytes: Option<seq<Byte>>, size: nat)
  {
    predicate Fits() { size <= (if bytes.None? then 0 else |bytes.value|) }
  }

  const NO_BUFFER := Buffer(None, 0)

  /** The state of a KernelInfo. */
  datatype Info = Info(
    withTiling: bool,
    withTensorlist: bool,
    inited: bool,
    hwsync: int,
    args: Buffer,
    tiling: Tiling,
    host: Option<seq<Byte>>,
    list: Buffer,
    consts: seq<ConstTensor>,
    scratch: seq<nat>,
    memset: seq<MemsetInfo>)

  /** A default-constructed KernelInfo. */
  const BLANK := Info(true, false, false, -1, NO_BUFFER, NO_TILING, None, NO_BUFFER, [], [], [])

  /** The calls a kernel makes while it prepares a launch. WriteTiling is a store through GetTilingHostAddr. */
  datatype Op =
    | Reset
    | AllocTilingHost(len: nat)
    | SetTilingUsedSize(used: nat)
    | SetConstTensorOffset(offset: nat)
    | AddConstTensorData(argIdx: nat, data: seq<Byte>)
    | WriteTiling(pos: nat, bytes: seq<Byte>)
    | SetHwsyncIdx(idx: int)
    | SetBlockDim(dim: nat)
    | SetTilingId(id: nat)
    | AddScratch(size: nat)
    | SetMemset(memsetIdx: nat, memsetSize: nat)
    | InitArgs(argsLen: nat)

  /** The calls that are left to a kernel's InitImpl. */
  predicate KernelCall(op: Op)
  {
    !op.Reset? && !op.InitArgs? && !op.AllocTilingHost?
  }

  predicate KernelCalls(ops: seq<Op>)
  {
    forall k :: 0 <= k < |ops| ==> KernelCall(ops[k])
  }

  function SumSizes(s: seq<ConstTensor>): nat
  {
    if s == [] then 0 else SumSizes(s[..|s| - 1]) + s[|s| - 1].size
  }

  lemma {:induction false} SumSizesAppend(s: seq<ConstTensor>, t: seq<ConstTensor>)
    ensures SumSizes(s + t) == SumSizes(s) + SumSizes(t)
  {
    if t == [] {
      assert s + t == s;
    } else {
      SumSizesAppend(s, t[..|t| - 1]);
      assert (s + t)[..|s + t| - 1] == s + t[..|t| - 1];
    }
  }

  /** GetConstTensorSize: the bytes rounded up to 64, and 64 more. */
  function ConstTensorSize(bytes: nat): (r: nat)
    ensures r % 64 == 0 && bytes + 64 <= r < bytes + 128
  {
    (bytes + 63) / 64 * 64 + 64
  }

  /** Whether SetConstTensorOffset, and AddConstTensorData at its offset, pass their checks. */
  function NextConst(i: Info): nat { i.tiling.constOffset + SumSizes(i.consts) }

  function AddConstResult(i: Info, data: seq<Byte>): AddResult
  {
    if NextConst(i) >= i.tiling.hostSize || |data| > i.tiling.hostSize - NextConst(i) then Rejected
    else if |i.consts| == MINI_CAPACITY then CapacityExceeded
    else Added
  }

  /** The memory-safety side of the state: recorded sizes do not exceed the buffers. */
  predicate Sized(i: Info)
  {
    i.args.Fits() && i.list.Fits() && Buffer(i.host, i.tiling.hostSize).Fits()
  }

  function AfterResetTiling(i: Info): Info
  {
    if i.withTiling && i.host.Some? then i.(host := None, tiling := NO_TILING)
    else i.(tiling := i.tiling.(blockDim := 0, tilingId := 0))
  }

  function AfterResetList(i: Info): Info
  {
    if i.withTensorlist && i.list.bytes.Some? then i.(list := NO_BUFFER) else i
  }

  function AfterReset(i: Info): Info
  {
    AfterResetList(AfterResetTiling(i.(hwsync := -1, inited := false, args := NO_BUFFER)))
      .(consts := [], scratch := [], memset := [])
  }

  function AfterAddConst(i: Info, argIdx: nat, data: seq<Byte>): Info
    requires Sized(i)
  {
    var off := NextConst(i);
    if off >= i.tiling.hostSize then i
    else if |data| > i.tiling.hostSize - off then
      i.(host := Some(Splice(i.host.value, off, Zeros(i.tiling.hostSize - off))))
    else
      var j := i.(host := Some(Splice(i.host.value, off, data)));
      if |i.consts| == MINI_CAPACITY then j
      else j.(consts := i.consts + [ConstTensor(argIdx, ConstTensorSize(|data|))])
  }

  /** The effect of one call. A call that fails its check, or throws, leaves the recorded state as shown. */
  function Step(i: Info, op: Op): (j: Info)
    requires Sized(i)
    ensures Sized(j) && j.withTiling == i.withTiling && j.withTensorlist == i.withTensorlist
  {
    match op
    case Reset => AfterReset(i)
    case AllocTilingHost(len) =>
      if i.withTiling && 0 < len <= MAX_TILING_SIZE && i.host.None? then
        i.(host := Some(Zeros(len)), tiling := i.tiling.(hostSize := len, used := len, constOffset := len))
      else i
    case SetTilingUsedSize(used) =>
      if used <= i.tiling.hostSize then i.(tiling := i.tiling.(used := used)) else i
    case SetConstTensorOffset(offset) =>
      if 0 < offset < i.tiling.hostSize then
        i.(tiling := i.tiling.(constOffset := offset, used := if i.tiling.used > offset then offset else i.tiling.used))
      else i
    case AddConstTensorData(argIdx, data) => AfterAddConst(i, argIdx, data)
    case WriteTiling(pos, bytes) =>
      if pos + |bytes| <= i.tiling.hostSize then
        if i.host.None? then i else i.(host := Some(Splice(i.host.value, pos, bytes)))
      else i
    case SetHwsyncIdx(idx) => i.(hwsync := idx)
    case SetBlockDim(dim) => if dim < MAX_BLOCK_DIM then i.(tiling := i.tiling.(blockDim := dim)) else i
    case SetTilingId(id) => i.(tiling := i.tiling.(tilingId := id))
    case AddScratch(size) => if |i.scratch| < MINI_CAPACITY then i.(scratch := i.scratch + [size]) else i
    case SetMemset(idx, size) =>
      if |i.memset| < MINI_CAPACITY then i.(memset := i.memset + [MemsetInfo(idx, size)]) else i
    case InitArgs(len) =>
      if 0 < len <= MAX_ARGS_SIZE then i.(args := Buffer(Some(Zeros(len)), len), inited := true) else i
  }

  function Run(i: Info, ops: seq<Op>): (j: Info)
    requires Sized(i)
    ensures Sized(j)
  {
    if ops == [] then i else Step(Run(i, ops[..|ops| - 1]), ops[|ops| - 1])
  }

  /** Whether a call throws: a push_back on a full vector. What it did before that stays. */
  predicate Overflows(i: Info, op: Op)
  {
    match op
    case AddConstTensorData(_, data) => AddConstResult(i, data) == CapacityExceeded
    case AddScratch(_) => |i.scratch| >= MINI_CAPACITY
    case SetMemset(_, _) => |i.memset| >= MINI_CAPACITY
    case _ => false
  }

  /** No call of a run throws. */
  predicate RunsThrough(i: Info, ops: seq<Op>)
    requires Sized(i)
  {
    ops == [] || (RunsThrough(i, ops[..|ops| - 1]) && !Overflows(Run(i, ops[..|ops| - 1]), ops[|ops| - 1]))
  }

  lemma {:induction false} RunsThroughFront(i: Info, ops: seq<Op>, k: nat)
    requires Sized(i) && k <= |ops| && RunsThrough(i, ops)
    ensures RunsThrough(i, ops[..k])
  {
    if k < |ops| {
      RunsThroughFront(i, ops[..|ops| - 1], k);
      assert ops[..|ops| - 1][..k] == ops[..k];
    } else {
      assert ops[..k] == ops;
    }
  }

  // ---------------------------------------------------------- whole runs

  /** In tiling-on use, the used size and the constant offset stay inside the host buffer. */
  predicate TilingInvariant(i: Info)
  {
    && i.withTiling && Sized(i)
    && (i.host.Some? ==> i.tiling.hostSize == |i.host.value|)
    && i.tiling.used <= i.tiling.hostSize && i.tiling.constOffset <= i.tiling.hostSize
  }

  lemma ResetIs(i: Info)
    requires Sized(i)
    ensures Step(i, Op.Reset)
         == AfterResetList(AfterResetTiling(i.(hwsync := -1, inited := false).(args := NO_BUFFER))).(consts := [])
              .(scratch := []).(memset := [])
  {
  }

  lemma {:induction false} RunKeepsTilingInvariant(i: Info, ops: seq<Op>)
    requires TilingInvariant(i)
    ensures TilingInvariant(Run(i, ops))
  {
    hide Step;
    if ops != [] {
      RunKeepsTilingInvariant(i, ops[..|ops| - 1]);
      StepKeepsTilingInvariant(Run(i, ops[..|ops| - 1]), ops[|ops| - 1]);
    }
  }

  lemma StepKeepsTilingInvariant(i: Info, op: Op)
    requires TilingInvariant(i)
    ensures TilingInvariant(Step(i, op))
  {
  }

  /** Calls after which the constant area keeps its place and its recorded bytes. */
  predicate KeepsConstArea(op: Op, constOffset: nat)
  {
    match op
    case Reset => false
    case SetConstTensorOffset(_) => false
    case WriteTiling(pos, bytes) => pos + |bytes| <= constOffset
    case _ => true
  }

  predicate AllKeepConstArea(ops: seq<Op>, constOffset: nat)
  {
    forall k :: 0 <= k < |ops| ==> KeepsConstArea(ops[k], constOffset)
  }

  /** A constant tensor that was recorded: its argument index and the bytes it was given. */
  datatype Placed = Placed(argIdx: nat, data: seq<Byte>)

  /** The constant tensors a run records, in order. */
  function Recorded(i: Info, ops: seq<Op>): seq<Placed>
    requires Sized(i)
  {
    if ops == [] then []
    else
      var op, j := ops[|ops| - 1], Run(i, ops[..|ops| - 1]);
      Recorded(i, ops[..|ops| - 1])
      + if Adds(j, op) then [Placed(op.argIdx, op.data)] else []
  }

  /** Where the k-th recorded constant starts in the host buffer. */
  function ConstStart(i: Info, k: nat): nat
    requires k <= |i.consts|
  {
    i.tiling.constOffset + SumSizes(i.consts[..k])
  }

  /** Every recorded constant has its index, its padded size, and its bytes at its own place. */
  ghost predicate Holds(i: Info, log: seq<Placed>)
  {
    && |i.consts| == |log| && i.host.Some? && i.tiling.hostSize <= |i.host.value|
    && forall k :: 0 <= k < |log| ==> HoldsAt(i, log, k)
  }

  predicate HoldsAt(i: Info, log: seq<Placed>, k: nat)
    requires |i.consts| == |log| && k < |log| && i.host.Some?
  {
    var start := ConstStart(i, k);
    && i.consts[k] == ConstTensor(log[k].argIdx, ConstTensorSize(|log[k].data|))
    && start + |log[k].data| <= i.tiling.hostSize <= |i.host.value|
    && i.host.value[start..start + |log[k].data|] == log[k].data
  }

  /** The k-th constant ends, padding included, before everything that is recorded after it. */
  lemma ConstEnds(i: Info, k: nat)
    requires k < |i.consts|
    ensures ConstStart(i, k) + i.consts[k].size <= NextConst(i)
  {
    var s := i.consts;
    assert s[..k + 1][..k] == s[..k];
    SumSizesAppend(s[..k + 1], s[k + 1..]);
    assert s == s[..k + 1] + s[k + 1..];
  }

  lemma PaddedSize(n: nat)
    ensures ConstTensorSize(n) >= n + 64 && ConstTensorSize(n) % 64 == 0 && ConstTensorSize(n) < n + 128
  {
  }

  lemma ConstStartPrefix(i: Info, j: Info, k: nat)
    requires k <= |i.consts| <= |j.consts| && j.consts[..|i.consts|] == i.consts
             && i.tiling.constOffset == j.tiling.constOffset
    ensures ConstStart(i, k) == ConstStart(j, k)
  {
    assert j.consts[..k] == i.consts[..k];
  }

  predicate Adds(i: Info, op: Op) { op.AddConstTensorData? && AddConstResult(i, op.data) == Added }

  /** What a call that keeps the constant area does to the bookkeeping. */
  lemma StepShape(i: Info, op: Op)
    requires TilingInvariant(i) && i.host.Some? && KeepsConstArea(op, i.tiling.constOffset)
    ensures var j := Step(i, op);
            && j.tiling.constOffset == i.tiling.constOffset && j.tiling.hostSize == i.tiling.hostSize
            && j.host.Some? && |j.host.value| == |i.host.value|
            && j.consts == i.consts + if Adds(i, op) then [ConstTensor(op.argIdx, ConstTensorSize(|op.data|))] else []
  {
  }

  lemma KeptAt(i: Info, op: Op, log: seq<Placed>, log': seq<Placed>, k: nat)
    requires TilingInvariant(i) && Holds(i, log) && KeepsConstArea(op, i.tiling.constOffset)
    requires k < |log| <= |log'| == |Step(i, op).consts| && log'[k] == log[k] && Step(i, op).host.Some?
    ensures HoldsAt(Step(i, op), log', k)
  {
    var start, end := ConstStart(i, k), ConstStart(i, k) + |log[k].data|;
    assert HoldsAt(i, log, k);
    StepShape(i, op);
    ConstEnds(i, k);
    PaddedSize(|log[k].data|);
    KeepsBytes(i, op, start, end);
    hide Step;
    ConstStartPrefix(i, Step(i, op), k);
  }

  lemma NewAt(i: Info, op: Op, log: seq<Placed>)
    requires TilingInvariant(i) && Holds(i, log) && Adds(i, op)
    requires |Step(i, op).consts| == |log| + 1 && Step(i, op).host.Some?
    ensures HoldsAt(Step(i, op), log + [Placed(op.argIdx, op.data)], |log|)
  {
    var j := Step(i, op);
    assert j.consts == i.consts + [ConstTensor(op.argIdx, ConstTensorSize(|op.data|))];
    assert j.consts[..|log|] == i.consts;
    assert j.host.value == Splice(i.host.value, NextConst(i), op.data);
  }

  /** One call that keeps the constant area keeps everything recorded, and records what it adds. */
  lemma StepHolds(i: Info, op: Op, log: seq<Placed>)
    requires TilingInvariant(i) && Holds(i, log) && KeepsConstArea(op, i.tiling.constOffset)
    ensures Step(i, op).tiling.constOffset == i.tiling.constOffset && Step(i, op).tiling.hostSize == i.tiling.hostSize
    ensures Holds(Step(i, op), if Adds(i, op) then log + [Placed(op.argIdx, op.data)] else log)
  {
    hide Step, HoldsAt;
    var j := Step(i, op);
    var log' := if Adds(i, op) then log + [Placed(op.argIdx, op.data)] else log;
    StepShape(i, op);
    forall k | 0 <= k < |log'|
      ensures HoldsAt(j, log', k)
    {
      if k < |log| {
        KeptAt(i, op, log, log', k);
      } else {
        NewAt(i, op, log);
      }
    }
  }

  /** Bytes between the constant offset and the next free constant byte survive the call. */
  lemma KeepsBytes(i: Info, op: Op, lo: nat, hi: nat)
    requires TilingInvariant(i) && i.host.Some? && KeepsConstArea(op, i.tiling.constOffset)
    requires i.tiling.constOffset <= lo <= hi <= NextConst(i) && hi <= i.tiling.hostSize
    ensures Step(i, op).host.Some? && |Step(i, op).host.value| == |i.host.value|
    ensures Step(i, op).host.value[lo..hi] == i.host.value[lo..hi]
  {
    var b := i.host.value;
    if op.WriteTiling? && op.pos + |op.bytes| <= i.tiling.hostSize {
      SpliceApart(b, op.pos, op.bytes, lo, hi);
    } else if op.AddConstTensorData? && NextConst(i) < i.tiling.hostSize {
      var off := NextConst(i);
      if |op.data| > i.tiling.hostSize - off {
        SpliceApart(b, off, Zeros(i.tiling.hostSize - off), lo, hi);
      } else {
        SpliceApart(b, off, op.data, lo, hi);
      }
    }
  }

  /**
   Over a whole run that leaves the constant area in place, every constant ever recorded is still
   at its own place with its own bytes, whatever was added, rejected or written in between.
   */
  lemma {:induction false} RunHolds(i: Info, ops: seq<Op>, log: seq<Placed>)
    requires TilingInvariant(i) && Holds(i, log) && AllKeepConstArea(ops, i.tiling.constOffset)
    ensures Holds(Run(i, ops), log + Recorded(i, ops))
    ensures Run(i, ops).tiling.constOffset == i.tiling.constOffset && Run(i, ops).tiling.hostSize == i.tiling.hostSize
  {
    if ops == [] {
      assert log + [] == log;
    } else {
      var front, op := ops[..|ops| - 1], ops[|ops| - 1];
      assert AllKeepConstArea(front, i.tiling.constOffset);
      RunHolds(i, front, log);
      RunKeepsTilingInvariant(i, front);
      assert KeepsConstArea(op, i.tiling.constOffset);
      StepHolds(Run(i, front), op, log + Recorded(i, front));
      assert log + Recorded(i, ops)
          == if Adds(Run(i, front), op)
             then log + Recorded(i, front) + [Placed(op.argIdx, op.data)]
             else log + Recorded(i, front);
    }
  }

  // -------------------------------------------------------------- the class

  function Contents(a: array?<Byte>): Option<seq<Byte>>
    reads a
  {
    if a == null then None else Some(a[..])
  }

  function AfterSetTilingHostAddr(i: Info, addr: seq<Byte>, len: nat): Info
  {
    if i.withTiling then i
    else i.(host := Some(addr), tiling := i.tiling.(hostSize := len, used := len, constOffset := len))
  }

  /** Copying an initialised source onto an object without a host buffer: everything but the tensor-list state. */
  function CopyOf(i: Info, other: Info): Info
  {
    other.(withTensorlist := i.withTensorlist, list := i.list)
  }

  /** With tiling off: the caller's tiling buffer is shared, and the argument buffer is new and null. */
  function CopyOffOf(i: Info, other: Info): Info
  {
    CopyOf(i, other).(args := Buffer(Some(Zeros(other.args.size)), other.args.size),
                      host := if other.host.Some? then other.host else i.host)
  }

  lemma ContentsNull(a: array?<Byte>)
    ensures Contents(a) == None <==> a == null
  {
  }

  lemma NewContents(a: array<Byte>)
    requires forall k :: 0 <= k < a.Length ==> a[k] == 0
    ensures Contents(a) == Some(Zeros(a.Length))
  {
    assert a[..] == Zeros(a.Length);
  }

  lemma CopySized(i: Info, other: Info)
    requires Sized(i) && Sized(other)
    ensures Sized(CopyOf(i, other)) && Sized(CopyOffOf(i, other))
  {
  }

  /** A state after Init: the argument buffer exists, and with tiling on the tiling buffer, within the limits. */
  predicate Initialised(i: Info)
  {
    && i.inited && i.args.bytes.Some? && i.args.size == |i.args.bytes.value| && 0 < i.args.size <= MAX_ARGS_SIZE
    && (i.withTiling ==> TilingInvariant(i) && i.host.Some? && 0 < i.tiling.hostSize <= MAX_TILING_SIZE)
  }

  class KernelInfo {
    var args: array?<Byte>
    var argsSize: nat
    var initFlag: bool
    var launchWithTiling: bool
    var launchWithTensorlist: bool
    var hwsyncIdx: int
    var tilingExt: Tiling
    var hostTilingAddr: array?<Byte>
    var tensorListAddr: array?<Byte>
    var tensorListSize: nat
    var constTensorInfo: seq<ConstTensor>
    var scratchSizes: seq<nat>
    var memsetInfo: seq<MemsetInfo>

    function View(): Info
      reads this, args, hostTilingAddr, tensorListAddr
    {
      Info(launchWithTiling, launchWithTensorlist, initFlag, hwsyncIdx, Buffer(Contents(args), argsSize),
           tilingExt, Contents(hostTilingAddr), Buffer(Contents(tensorListAddr), tensorListSize),
           constTensorInfo, scratchSizes, memsetInfo)
    }

    /** The recorded sizes fit the buffers, and the three buffers are different objects. */
    ghost predicate Valid()
      reads this, args, hostTilingAddr, tensorListAddr
    {
      && Sized(View())
      && (args != null ==> args != hostTilingAddr && args != tensorListAddr)
      && (hostTilingAddr != null ==> hostTilingAddr != tensorListAddr)
    }

    constructor ()
      ensures Valid() && View() == BLANK
    {
      args, argsSize, initFlag, launchWithTiling, launchWithTensorlist, hwsyncIdx := null, 0, false, true, false, -1;
      tilingExt, hostTilingAddr := NO_TILING, null;
      tensorListAddr, tensorListSize := null, 0;
      constTensorInfo, scratchSizes, memsetInfo := [], [], [];
    }

    method Reset()
      requires Valid()
      modifies this
      ensures Valid() && View() == Step(old(View()), Op.Reset)
      ensures hostTilingAddr == (if launchWithTiling then null else old(hostTilingAddr))
      ensures tensorListAddr == (if launchWithTensorlist then null else old(tensorListAddr))
    {
      hide AfterResetTiling, AfterResetList, Step, Contents;
      ResetIs(View());
      ghost var i := View();
      hwsyncIdx, initFlag := -1, false;
      assert View() == i.(hwsync := -1, inited := false);
      ResetArgs();
      ResetTilingInfo();
      ResetConstTensorInfo();
      ResetScratchSizes();
      ResetMemsetInfo();
    }

    method ResetArgs()
      requires Valid()
      modifies this`args, this`argsSize
      ensures Valid() && View() == old(View()).(args := NO_BUFFER)
    {
      args, argsSize := null, 0;
    }

    method ResetTilingInfo()
      requires Valid()
      modifies this`hostTilingAddr, this`tilingExt
      ensures Valid() && View() == AfterResetTiling(old(View()))
      ensures hostTilingAddr == (if launchWithTiling then null else old(hostTilingAddr))
    {
      if launchWithTiling && hostTilingAddr != null {
        hostTilingAddr := null;
        tilingExt := tilingExt.(hostSize := 0, constOffset := 0, used := 0);
      }
      tilingExt := tilingExt.(blockDim := 0, tilingId := 0);
    }

    method ResetConstTensorInfo()
      requires Valid()
      modifies this`tensorListAddr, this`tensorListSize, this`constTensorInfo
      ensures Valid() && View() == AfterResetList(old(View())).(consts := [])
      ensures tensorListAddr == (if launchWithTensorlist then null else old(tensorListAddr))
    {
      hide AfterResetList;
      ResetTensorListExtInfo();
      ghost var i := View();
      constTensorInfo := [];
      assert View() == i.(consts := []);
    }

    method ResetScratchSizes()
      requires Valid()
      modifies this`scratchSizes
      ensures Valid() && View() == old(View()).(scratch := [])
    {
      hide Contents;
      scratchSizes := [];
    }

    method ResetMemsetInfo()
      requires Valid()
      modifies this`memsetInfo
      ensures Valid() && View() == old(View()).(memset := [])
    {
      hide Contents;
      memsetInfo := [];
    }

    method ResetTensorListExtInfo()
      requires Valid()
      modifies this`tensorListAddr, this`tensorListSize
      ensures Valid() && View() == AfterResetList(old(View()))
      ensures tensorListAddr == (if launchWithTensorlist then null else old(tensorListAddr))
    {
      if launchWithTensorlist && tensorListAddr != null {
        tensorListAddr, tensorListSize := null, 0;
      }
    }

    method InitArgs(len: nat) returns (ok: bool)
      requires Valid()
      modifies this`args, this`argsSize, this`initFlag
      ensures Valid() && View() == Step(old(View()), Op.InitArgs(len)) && ok == (0 < len <= 0x10_0000)
      ensures ok ==> fresh(args) && argsSize == args.Length == len && forall k :: 0 <= k < len ==> args[k] == 0
    {
      ok := 0 < len <= MAX_ARGS_SIZE;
      if ok {
        args := new Byte[len](_ => 0);
        assert args[..] == Zeros(len);
        argsSize := len;
        initFlag := true;
      }
    }

    method AllocTilingHost(len: nat) returns (ok: bool)
      requires Valid()
      modifies this`hostTilingAddr, this`tilingExt
      ensures Valid() && View() == Step(old(View()), Op.AllocTilingHost(len))
      ensures ok == (old(launchWithTiling) && 0 < len <= 0x10_0000 && old(hostTilingAddr) == null)
      ensures ok ==> tilingExt == old(tilingExt).(hostSize := len, used := len, constOffset := len)
      ensures if ok then fresh(hostTilingAddr) else hostTilingAddr == old(hostTilingAddr)
    {
      ok := launchWithTiling && 0 < len <= MAX_TILING_SIZE && hostTilingAddr == null;
      if ok {
        hostTilingAddr := new Byte[len](_ => 0);
        assert hostTilingAddr[..] == Zeros(len);
        tilingExt := tilingExt.(hostSize := len, used := len, constOffset := len);
      }
    }

    method SetTilingHostAddr(addr: array<Byte>, len: nat)
      requires Valid() && len <= addr.Length && addr != args && addr != tensorListAddr
      modifies this
      ensures Valid() && View() == AfterSetTilingHostAddr(old(View()), addr[..], len)
      ensures old(launchWithTiling) ==> View() == old(View())
      ensures !old(launchWithTiling) ==>
                hostTilingAddr == addr && tilingExt.hostSize == tilingExt.used == tilingExt.constOffset == len
    {
      if !launchWithTiling {
        hostTilingAddr := addr;
        tilingExt := tilingExt.(hostSize := len, used := len, constOffset := len);
      }
    }

    method SetTilingUsedSize(used: nat)
      requires Valid()
      modifies this`tilingExt
      ensures Valid() && View() == Step(old(View()), Op.SetTilingUsedSize(used))
    {
      if used <= tilingExt.hostSize {
        tilingExt := tilingExt.(used := used);
      }
    }

    method SetConstTensorOffset(offset: nat)
      requires Valid()
      modifies this`tilingExt
      ensures Valid() && View() == Step(old(View()), Op.SetConstTensorOffset(offset))
    {
      if 0 < offset < tilingExt.hostSize {
        tilingExt := tilingExt.(constOffset := offset);
        if tilingExt.used > offset {
          tilingExt := tilingExt.(used := offset);
        }
      }
    }

    /** Where the next constant tensor would start: the offset, plus every recorded size. */
    method NextConstOffset() returns (offset: nat)
      ensures offset == NextConst(View())
    {
      offset := tilingExt.constOffset;
      for k := 0 to |constTensorInfo|
        invariant offset == tilingExt.constOffset + SumSizes(constTensorInfo[..k])
      {
        assert constTensorInfo[..k + 1][..k] == constTensorInfo[..k];
        offset := offset + constTensorInfo[k].size;
      }
      assert constTensorInfo[..|constTensorInfo|] == constTensorInfo;
    }

    /** The bytes are those of the element type the tensor is converted to. */
    method AddConstTensorData(argIdx: nat, data: seq<Byte>) returns (r: AddResult)
      requires Valid()
      modifies this`constTensorInfo, hostTilingAddr
      ensures Valid() && View() == Step(old(View()), Op.AddConstTensorData(argIdx, data))
      ensures r == AddConstResult(old(View()), data)
      ensures r == CapacityExceeded ==> |old(constTensorInfo)| == 8
    {
      hide SumSizes;
      var offset := NextConstOffset();
      if offset >= tilingExt.hostSize {
        return Rejected;
      }
      var len := ConstTensorSize(|data|);
      var ok := MemcpyS(hostTilingAddr, offset, tilingExt.hostSize - offset, data);
      if !ok {
        return Rejected;
      }
      if |constTensorInfo| == MINI_CAPACITY {
        return CapacityExceeded;
      }
      constTensorInfo := constTensorInfo + [ConstTensor(argIdx, len)];
      r := Added;
    }

    /** A kernel's own stores through GetTilingHostAddr. */
    method WriteTiling(pos: nat, bytes: seq<Byte>)
      requires Valid()
      modifies hostTilingAddr
      ensures Valid() && View() == Step(old(View()), Op.WriteTiling(pos, bytes))
    {
      if pos + |bytes| <= tilingExt.hostSize && hostTilingAddr != null {
        Store(hostTilingAddr, pos, bytes);
      }
    }

    method SetHwsyncIdx(idx: int)
      requires Valid()
      modifies this`hwsyncIdx
      ensures Valid() && View() == Step(old(View()), Op.SetHwsyncIdx(idx))
    {
      hwsyncIdx := idx;
    }

    method SetBlockDim(dim: nat)
      requires Valid()
      modifies this`tilingExt
      ensures Valid() && View() == Step(old(View()), Op.SetBlockDim(dim))
    {
      if dim < MAX_BLOCK_DIM {
        tilingExt := tilingExt.(blockDim := dim);
      }
    }

    method SetTilingId(id: nat)
      requires Valid()
      modifies this`tilingExt
      ensures Valid() && View() == Step(old(View()), Op.SetTilingId(id))
    {
      tilingExt := tilingExt.(tilingId := id);
    }

    /** push_back on the vector that GetScratchSizes hands out; at capacity it throws, which is the result false. */
    method AddScratch(size: nat) returns (ok: bool)
      requires Valid()
      modifies this`scratchSizes
      ensures Valid() && View() == Step(old(View()), Op.AddScratch(size))
      ensures ok == !Overflows(old(View()), Op.AddScratch(size)) == (|old(scratchSizes)| < 8)
    {
      ok := |scratchSizes| < MINI_CAPACITY;
      if ok {
        scratchSizes := scratchSizes + [size];
      }
    }

    method SetMemsetInfo(argIdx: nat, size: nat) returns (ok: bool)
      requires Valid()
      modifies this`memsetInfo
      ensures Valid() && View() == Step(old(View()), Op.SetMemset(argIdx, size))
      ensures ok == !Overflows(old(View()), Op.SetMemset(argIdx, size)) == (|old(memsetInfo)| < 8)
    {
      ok := |memsetInfo| < MINI_CAPACITY;
      if ok {
        memsetInfo := memsetInfo + [MemsetInfo(argIdx, size)];
      }
    }

    /** One call of a kernel's InitImpl, and whether it returns; a store outside the tiling buffer is not one. */
    method Perform(op: Op) returns (ok: bool)
      requires Valid() && KernelCall(op)
      modifies this`tilingExt, this`constTensorInfo, this`hwsyncIdx, this`scratchSizes, this`memsetInfo, hostTilingAddr
      ensures Valid() && View() == Step(old(View()), op) && ok == !Overflows(old(View()), op)
    {
      hide Step, Contents, Sized, AddConstResult;
      ok := true;
      match op {
        case SetTilingUsedSize(used) => SetTilingUsedSize(used);
        case SetConstTensorOffset(offset) => SetConstTensorOffset(offset);
        case AddConstTensorData(argIdx, data) =>
          var r := AddConstTensorData(argIdx, data);
          ok := r != CapacityExceeded;
        case WriteTiling(pos, bytes) => WriteTiling(pos, bytes);
        case SetHwsyncIdx(idx) => SetHwsyncIdx(idx);
        case SetBlockDim(dim) => SetBlockDim(dim);
        case SetTilingId(id) => SetTilingId(id);
        case AddScratch(size) => ok := AddScratch(size);
        case SetMemset(argIdx, size) => ok := SetMemsetInfo(argIdx, size);
      }
    }

    /** InitImpl, as the calls it makes; one that throws ends it. */
    method PerformAll(ops: seq<Op>) returns (ok: bool)
      requires Valid() && KernelCalls(ops)
      modifies this`tilingExt, this`constTensorInfo, this`hwsyncIdx, this`scratchSizes, this`memsetInfo, hostTilingAddr
      ensures Valid() && ok == RunsThrough(old(View()), ops)
      ensures ok ==> View() == Run(old(View()), ops)
    {
      hide Step, Contents, Sized, Overflows;
      ghost var i := View();
      for k := 0 to |ops|
        invariant Valid() && View() == Run(i, ops[..k]) && RunsThrough(i, ops[..k])
      {
        assert ops[..k + 1][..k] == ops[..k];
        ok := Perform(ops[k]);
        if !ok {
          if RunsThrough(i, ops) {
            RunsThroughFront(i, ops, k + 1);
          }
          return;
        }
      }
      assert ops[..|ops|] == ops;
      ok := true;
    }

    method SetLaunchWithTiling(flag: bool)
      requires Valid()
      modifies this
      ensures Valid()
      ensures View() == if old(launchWithTiling) == flag then old(View())
                        else AfterResetTiling(old(View())).(inited := false, withTiling := flag)
    {
      if launchWithTiling == flag {
        return;
      }
      ResetTilingInfo();
      initFlag := false;
      launchWithTiling := flag;
    }

    method SetLaunchWithTensorlist(flag: bool)
      requires Valid()
      modifies this`tensorListAddr, this`tensorListSize, this`initFlag, this`launchWithTensorlist
      ensures Valid()
      ensures View() == if old(launchWithTensorlist) == flag then old(View())
                        else AfterResetList(old(View())).(inited := false, withTensorlist := flag)
      ensures flag ==> tensorListAddr == old(tensorListAddr)
    {
      if launchWithTensorlist == flag {
        return;
      }
      ResetTensorListExtInfo();
      initFlag := false;
      launchWithTensorlist := flag;
    }

    method AllocTensorListHost(len: nat) returns (ok: bool)
      requires Valid()
      modifies this`tensorListAddr, this`tensorListSize
      ensures Valid() && ok == (old(tensorListAddr) == null)
      ensures View() == if ok then old(View()).(list := Buffer(Some(Zeros(len)), len)) else old(View())
      ensures if ok then fresh(tensorListAddr) else tensorListAddr == old(tensorListAddr)
      ensures ok ==> tensorListAddr != null && tensorListAddr[..] == Zeros(len) && tensorListSize == len
    {
      ok := tensorListAddr == null;
      if ok {
        tensorListAddr := new Byte[len](_ => 0);
        assert tensorListAddr[..] == Zeros(len);
        tensorListSize := len;
      }
    }

    /** The allocations and copies in the middle of Copy. */
    method CopyBuffers(other: KernelInfo)
      requires other != this && Initialised(other.View()) && other.launchWithTiling
      requires tilingExt.hostSize == other.tilingExt.hostSize && argsSize == other.argsSize
      modifies this`hostTilingAddr, this`args, this`initFlag
      ensures hostTilingAddr != null && fresh(hostTilingAddr) && args != null && fresh(args) && args != hostTilingAddr
      ensures View() == old(View()).(host := other.View().host, inited := true,
                                     args := Buffer(other.View().args.bytes, argsSize))
      ensures other.View() == old(other.View())
    {
      assert other.hostTilingAddr[..other.tilingExt.hostSize] == other.hostTilingAddr[..];
      assert other.args[..other.argsSize] == other.args[..];
      hostTilingAddr := Duplicate(other.hostTilingAddr[..tilingExt.hostSize]);
      args := Duplicate(other.args[..argsSize]);
      initFlag := true;
    }

    /** The value fields at the end of Copy. */
    method CopyFields(other: KernelInfo)
      requires other != this
      modifies this`hwsyncIdx, this`tilingExt, this`constTensorInfo, this`scratchSizes, this`memsetInfo
      ensures View() == old(View()).(hwsync := other.hwsyncIdx, tiling := other.tilingExt,
                                     consts := other.constTensorInfo, scratch := other.scratchSizes,
                                     memset := other.memsetInfo)
      ensures other.View() == old(other.View())
    {
      hide Contents;
      hwsyncIdx, tilingExt := other.hwsyncIdx, other.tilingExt;
      constTensorInfo, scratchSizes, memsetInfo := other.constTensorInfo, other.scratchSizes, other.memsetInfo;
    }

    /** AddTensorListInfo, within the capacity of the vector. */
    method AddTensorListInfo(argIdx: nat, len: nat)
      requires Valid() && |constTensorInfo| < MINI_CAPACITY
      modifies this`constTensorInfo
      ensures Valid() && View() == old(View()).(consts := old(constTensorInfo) + [ConstTensor(argIdx, len)])
    {
      hide Contents;
      constTensorInfo := constTensorInfo + [ConstTensor(argIdx, len)];
    }

    /** Copy of an initialised source with tiling off. */
    method CopyOff(other: KernelInfo)
      requires Valid() && !launchWithTiling && other != this && other.Valid() && Initialised(other.View())
      requires !other.launchWithTiling && (other.hostTilingAddr != null ==> other.hostTilingAddr != tensorListAddr)
      modifies this
      ensures other.View() == old(other.View())
      ensures Valid() && View() == CopyOffOf(old(View()), other.View()) && fresh(args)
      ensures hostTilingAddr == if other.hostTilingAddr != null then other.hostTilingAddr else old(hostTilingAddr)
    {
      hide Contents, Sized, Step, AfterSetTilingHostAddr;
      ghost var source, target := other.View(), View();
      if other.hostTilingAddr != null {
        hostTilingAddr := other.hostTilingAddr;
      }
      NewArgs(other.argsSize);
      CopyFields(other);
      CopySized(target, source);
      ContentsNull(other.hostTilingAddr);
    }

    /** InitArgs of a length within the limits. */
    method NewArgs(len: nat)
      modifies this`args, this`argsSize, this`initFlag
      ensures View() == old(View()).(args := Buffer(Some(Zeros(len)), len), inited := true)
      ensures args != null && fresh(args)
    {
      args := new Byte[len](_ => 0);
      argsSize, initFlag := len, true;
      NewContents(args);
    }

    /** Copy, once the source is known to be initialised. */
    method CopyInitialised(other: KernelInfo)
      requires other.launchWithTiling
      requires Valid() && launchWithTiling && other != this && other.Valid() && Initialised(other.View())
      modifies this
      ensures other.View() == old(other.View())
      ensures old(hostTilingAddr) == null ==>
                && Valid() && View() == CopyOf(old(View()), other.View())
                && fresh(hostTilingAddr) && fresh(args)
      ensures old(hostTilingAddr) != null ==>
                View() == old(View()).(tiling := old(tilingExt).(hostSize := other.tilingExt.hostSize),
                                       args := Buffer(old(View()).args.bytes, other.argsSize))
    {
      hide Contents, Sized;
      ghost var source, target := other.View(), View();
      tilingExt := tilingExt.(hostSize := other.tilingExt.hostSize);
      argsSize := other.argsSize;
      if hostTilingAddr != null {
        // AllocTilingHost reports that the tiling is already allocated
        return;
      }
      CopyBuffers(other);
      CopyFields(other);
      CopySized(target, source);
    }

    /**
     Copy. On a fresh object an initialised tiling-on source is copied whole, into buffers of its own.
     On an object that already holds a host buffer the allocation is refused after the sizes were
     overwritten, so the recorded sizes are the source's and the buffers are still the old ones.
     With tiling off the source's tiling buffer is shared, and its arguments are not copied.
     */
    method Copy(other: KernelInfo)
      requires Valid() && other.Valid() && other != this
      requires other.initFlag ==> Initialised(other.View())
      requires !other.launchWithTiling && other.hostTilingAddr != null ==> other.hostTilingAddr != tensorListAddr
      modifies this
      ensures other.View() == old(other.View())
      ensures !other.initFlag ==> View() == old(View()).(withTiling := other.launchWithTiling, inited := false)
      ensures other.initFlag && other.launchWithTiling && old(hostTilingAddr) == null ==>
                && Valid() && View() == CopyOf(old(View()), other.View())
                && fresh(hostTilingAddr) && fresh(args)
      ensures other.initFlag && other.launchWithTiling && old(hostTilingAddr) == null ==>
                View().(withTensorlist := other.launchWithTensorlist, list := other.View().list) == other.View()
      ensures other.initFlag && other.launchWithTiling && old(hostTilingAddr) != null ==>
                View() == old(View()).(withTiling := true,
                                       tiling := old(tilingExt).(hostSize := other.tilingExt.hostSize),
                                       args := Buffer(old(View()).args.bytes, other.argsSize))
      ensures other.initFlag && !other.launchWithTiling ==>
                && Valid() && View() == CopyOffOf(old(View()), other.View()) && fresh(args)
                && hostTilingAddr == if other.hostTilingAddr != null then other.hostTilingAddr else old(hostTilingAddr)
    {
      launchWithTiling := other.launchWithTiling;
      if !other.initFlag {
        initFlag := false;
        return;
      }
      if launchWithTiling {
        CopyInitialised(other);
      } else {
        CopyOff(other);
      }
    }
  }
}
