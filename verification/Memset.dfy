/**
 Memset: the host splits each tensor over the vector cores, and every core clears its share by copying
 from one shared zero buffer. Together the cores clear exactly the requested bytes, rounded up to a block.
 */
module Memset {
  import opened Powers
  import opened Splices
  import opened Bytes

  const MEMSET_MAX_TENSOR_NUM := 8
  const BLOCK_BYTES := 32
  const BLOCK_BYTES_ONCE := 256
  const TILING_LEN := 32
  const TWO32 := 0x1_0000_0000

  function RoundBlock(n: nat): (r: nat)
    ensures n <= r < n + 32 && r % 32 == 0
  {
    (n + BLOCK_BYTES - 1) / BLOCK_BYTES * BLOCK_BYTES
  }

  /** What the tiling holds for one tensor, and how many cores it needs. */
  datatype Plan = Plan(size: nat, sizeBlock: nat, sizeLoop: nat, cores: nat)

  /** What a uint32_t keeps of a value. */
  function U32(v: nat): (r: nat)
    ensures r < TWO32 && (v < TWO32 ==> r == v)
  {
    v % TWO32
  }

  function Min(a: int, b: int): int { if a < b then a else b }

  function Max(a: nat, b: nat): nat { if a < b then b else a }

  function PlanFor(bytes: nat, coreNum: nat, maxUbSize: nat): Plan
    requires coreNum > 0
  {
    var size := RoundBlock(bytes);
    if size < BLOCK_BYTES_ONCE * coreNum then Plan(size, size, size, 1)
    else
      CeilDiv(size, coreNum);
      var sizeBlock := (size + coreNum - 1) / coreNum;
      assert Times(0, coreNum) == 0;
      assert sizeBlock > 0;
      var aligned := RoundBlock(sizeBlock);
      CeilDiv(size, aligned);
      Plan(size, aligned, Min(maxUbSize, aligned), (size + aligned - 1) / aligned)
  }

  lemma {:induction false} TimesSum(i: nat, a: nat, b: nat)
    ensures Times(i, a + b) == Times(i, a) + Times(i, b)
  {
    if i > 0 {
      TimesSum(i - 1, a, b);
    }
  }

  lemma {:induction false} TimesFactor(i: nat, a: nat, b: nat)
    requires a <= b
    ensures Times(i, a) <= Times(i, b)
  {
    if i > 0 {
      TimesFactor(i - 1, a, b);
    }
  }

  lemma {:induction false} TimesAligned(i: nat, n: nat)
    requires WholeBlocks(n)
    ensures WholeBlocks(Times(i, n))
  {
    if i > 0 {
      TimesAligned(i - 1, n);
      OneLess(i, n);
      AddAligned(Times(i - 1, n), n);
    }
  }

  lemma AddAligned(a: nat, b: nat)
    requires WholeBlocks(a) && WholeBlocks(b)
    ensures WholeBlocks(a + b)
  {
  }

  /** The plan of a tensor: its shares cover it, need at most all cores, and are whole blocks. */
  lemma PlanCovers(bytes: nat, coreNum: nat, maxUbSize: nat)
    requires coreNum > 0 && maxUbSize > 0 && maxUbSize % BLOCK_BYTES == 0
    ensures var p := PlanFor(bytes, coreNum, maxUbSize);
            && bytes <= p.size < bytes + BLOCK_BYTES && p.size <= Times(p.cores, p.sizeBlock)
            && 1 <= p.cores <= coreNum
            && p.sizeLoop <= p.sizeBlock && (p.sizeLoop == 0 ==> p.size == 0 && p.sizeBlock == 0)
            && p.size % BLOCK_BYTES == 0 && p.sizeBlock % BLOCK_BYTES == 0 && p.sizeLoop % BLOCK_BYTES == 0
            && (p.size < 256 * coreNum ==> p.cores == 1 && p.sizeLoop == p.sizeBlock == p.size)
            && (p.size >= 256 * coreNum ==>
                  p.sizeLoop <= maxUbSize && (p.sizeLoop == maxUbSize || p.sizeLoop == p.sizeBlock))
  {
    hide Times;
    var p, size := PlanFor(bytes, coreNum, maxUbSize), RoundBlock(bytes);
    if size < BLOCK_BYTES_ONCE * coreNum {
      OneTimes(size);
    } else {
      LargePlan(size, coreNum);
    }
  }

  lemma OneTimes(n: nat)
    ensures Times(1, n) == n && Times(0, n) == 0
  {
    assert Times(1, n) == Times(0, n) + n;
  }

  lemma LargePlan(size: nat, coreNum: nat)
    requires coreNum > 0 && size >= BLOCK_BYTES_ONCE * coreNum
    ensures var sizeBlock := (size + coreNum - 1) / coreNum;
            && sizeBlock > 0
            && var aligned := RoundBlock(sizeBlock);
               var cores := (size + aligned - 1) / aligned;
               && size <= Times(cores, aligned) && 1 <= cores <= coreNum
               && Times(coreNum, aligned) < size + BLOCK_BYTES * coreNum
  {
    hide Times, RoundBlock;
    var sizeBlock := (size + coreNum - 1) / coreNum;
    CeilDiv(size, coreNum);
    OneTimes(coreNum);
    var aligned := RoundBlock(sizeBlock);
    CeilDiv(size, aligned);
    var cores := (size + aligned - 1) / aligned;
    OneTimes(aligned);
    TimesSwap(coreNum, sizeBlock);
    TimesFactor(coreNum, sizeBlock, aligned);
    TimesFactor(coreNum, aligned, sizeBlock + (BLOCK_BYTES - 1));
    TimesSum(coreNum, sizeBlock, BLOCK_BYTES - 1);
    TimesSwap(coreNum, BLOCK_BYTES - 1);
    ThirtyOneTimes(coreNum);
    if cores > coreNum {
      TimesMonotone(coreNum, cores - 1, aligned);
      OneLess(cores, aligned);
    }
  }

  lemma {:induction false} TimesSwap(a: nat, b: nat)
    ensures Times(a, b) == Times(b, a)
  {
    TimesIs(a, b);
    TimesIs(b, a);
  }

  lemma ThirtyOneTimes(n: nat)
    ensures Times(BLOCK_BYTES - 1, n) == 31 * n
  {
    TimesIs(BLOCK_BYTES - 1, n);
  }

  lemma OneLess(i: nat, n: nat)
    requires i > 0
    ensures Times(i, n) == Times(i - 1, n) + n
  {
  }

  // -------------------------------------------------------------------- host

  function MaxOf(s: seq<nat>): (r: nat)
    ensures forall i :: 0 <= i < |s| ==> s[i] <= r
    ensures s != [] ==> r in s
    ensures s == [] ==> r == 0
  {
    if s == [] then 0
    else
      var front := MaxOf(s[..|s| - 1]);
      assert s == s[..|s| - 1] + [s[|s| - 1]];
      Max(front, s[|s| - 1])
  }

  function Cores(sizes: seq<nat>, coreNum: nat, maxUbSize: nat): (r: seq<nat>)
    requires coreNum > 0
    ensures |r| == |sizes|
  {
    seq(|sizes|, i requires 0 <= i < |sizes| => PlanFor(sizes[i], coreNum, maxUbSize).cores)
  }

  function Loops(sizes: seq<nat>, coreNum: nat, maxUbSize: nat): (r: seq<nat>)
    requires coreNum > 0
    ensures |r| == |sizes|
  {
    seq(|sizes|, i requires 0 <= i < |sizes| => Words(PlanFor(sizes[i], coreNum, maxUbSize)).sizeLoop)
  }

  /** What the 32-bit words of the tiling keep of a plan. */
  function Words(p: Plan): (w: Plan)
    ensures w.size < TWO32 && w.sizeBlock < TWO32 && w.sizeLoop < TWO32
    ensures p.size < TWO32 && p.sizeBlock < TWO32 && p.sizeLoop < TWO32 ==> w == p
  {
    p.(size := U32(p.size), sizeBlock := U32(p.sizeBlock), sizeLoop := U32(p.sizeLoop))
  }

  /** The 32 words of the tiling hold the plan of tensor i. */
  predicate Planned(tiling: seq<nat>, i: nat, p: Plan)
  {
    && i < MEMSET_MAX_TENSOR_NUM && |tiling| == TILING_LEN
    && tiling[i] == p.size && tiling[8 + i] == p.sizeBlock && tiling[16 + i] == p.sizeLoop
  }

  predicate AllPlanned(tiling: seq<nat>, n: nat, sizes: seq<nat>, coreNum: nat, maxUbSize: nat)
    requires n <= |sizes| && coreNum > 0
  {
    forall i :: 0 <= i < n ==> Planned(tiling, i, Words(PlanFor(sizes[i], coreNum, maxUbSize)))
  }

  lemma NonePlanned(tiling: seq<nat>, sizes: seq<nat>, coreNum: nat, maxUbSize: nat)
    requires coreNum > 0
    ensures AllPlanned(tiling, 0, sizes, coreNum, maxUbSize)
  {
  }

  /** Writing the last word, or the words of tensor n, keeps the plans of the first n tensors. */
  lemma PlannedKept(was: seq<nat>, now: seq<nat>, n: nat, sizes: seq<nat>, coreNum: nat, maxUbSize: nat)
    requires n <= |sizes| <= MEMSET_MAX_TENSOR_NUM && coreNum > 0 && |was| == |now| == TILING_LEN
    requires AllPlanned(was, n, sizes, coreNum, maxUbSize)
    requires forall k :: 0 <= k < 24 && k % 8 != n ==> now[k] == was[k]
    ensures AllPlanned(now, n, sizes, coreNum, maxUbSize)
  {
    hide PlanFor, Words;
    forall k | 0 <= k < n
      ensures Planned(now, k, Words(PlanFor(sizes[k], coreNum, maxUbSize)))
    {
      assert Planned(was, k, Words(PlanFor(sizes[k], coreNum, maxUbSize)));
    }
  }

  lemma PlannedStep(tiling: seq<nat>, n: nat, sizes: seq<nat>, coreNum: nat, maxUbSize: nat)
    requires n < |sizes| && coreNum > 0
    requires AllPlanned(tiling, n, sizes, coreNum, maxUbSize)
    requires Planned(tiling, n, Words(PlanFor(sizes[n], coreNum, maxUbSize)))
    ensures AllPlanned(tiling, n + 1, sizes, coreNum, maxUbSize)
  {
    hide Planned, PlanFor, Words;
  }

  /** MemsetTiling: fills the tiling of every tensor and returns the number of cores to launch. */
  method MemsetTiling(sizes: seq<nat>, coreNum: nat, maxUbSize: nat, tiling: array<nat>) returns (blockDim: nat)
    requires tiling.Length == TILING_LEN && |sizes| <= MEMSET_MAX_TENSOR_NUM
    requires maxUbSize > 0 && maxUbSize % BLOCK_BYTES == 0
    modifies tiling
    ensures coreNum == 0 || sizes == [] ==> blockDim == 0
    ensures coreNum > 0 ==>
              && AllPlanned(tiling[..], |sizes|, sizes, coreNum, maxUbSize)
              && blockDim == MaxOf(Cores(sizes, coreNum, maxUbSize)) <= coreNum
              && tiling[24] == MaxOf(Loops(sizes, coreNum, maxUbSize))
  {
    hide Times, PlanFor, MaxOf, U32, AllPlanned, Words;
    blockDim := 0;
    var maxUb := 0;
    if coreNum > 0 {
      ghost var cores, loops := Cores(sizes, coreNum, maxUbSize), Loops(sizes, coreNum, maxUbSize);
      MaxOfNone(cores);
      MaxOfNone(loops);
      NonePlanned(tiling[..], sizes, coreNum, maxUbSize);
      for i := 0 to |sizes|
        invariant blockDim == MaxOf(cores[..i]) <= coreNum && maxUb == MaxOf(loops[..i])
        invariant AllPlanned(tiling[..], i, sizes, coreNum, maxUbSize)
      {
        PlanCovers(sizes[i], coreNum, maxUbSize);
        MaxOfNext(cores, i);
        MaxOfNext(loops, i);
        ghost var was := tiling[..];
        var usedCore := TileOne(sizes[i], coreNum, maxUbSize, tiling, i);
        PlannedKept(was, tiling[..], i, sizes, coreNum, maxUbSize);
        PlannedStep(tiling[..], i, sizes, coreNum, maxUbSize);
        blockDim := Max(blockDim, usedCore);
        maxUb := Max(maxUb, tiling[16 + i]);
      }
      assert cores[..|sizes|] == cores && loops[..|sizes|] == loops;
      ghost var was := tiling[..];
      tiling[24] := maxUb;
      PlannedKept(was, tiling[..], |sizes|, sizes, coreNum, maxUbSize);
    }
  }

  lemma MaxOfNone(s: seq<nat>)
    ensures MaxOf(s[..0]) == 0
  {
  }

  lemma MaxOfNext(s: seq<nat>, i: nat)
    requires i < |s|
    ensures MaxOf(s[..i + 1]) == Max(MaxOf(s[..i]), s[i])
  {
    assert s[..i + 1][..i] == s[..i];
  }

  /** One round of the loop over tensors: the single-core branch, or an aligned share for every core. */
  method TileOne(bytes: nat, coreNum: nat, maxUbSize: nat, tiling: array<nat>, i: nat) returns (usedCore: nat)
    requires tiling.Length == TILING_LEN && i < MEMSET_MAX_TENSOR_NUM && coreNum > 0 && maxUbSize > 0
    requires maxUbSize % BLOCK_BYTES == 0
    modifies tiling
    ensures usedCore == PlanFor(bytes, coreNum, maxUbSize).cores
    ensures Planned(tiling[..], i, Words(PlanFor(bytes, coreNum, maxUbSize)))
    ensures forall k :: 0 <= k < TILING_LEN && k != i && k != 8 + i && k != 16 + i ==> tiling[k] == old(tiling[k])
  {
    hide Times, PlanFor, RoundBlock, U32;
    PlanIs(bytes, coreNum, maxUbSize);
    var size := RoundBlock(bytes);
    tiling[i] := U32(size);
    if size < BLOCK_BYTES_ONCE * coreNum {
      tiling[8 + i] := U32(size);
      tiling[16 + i] := U32(size);
      usedCore := 1;
    } else {
      LargePlan(size, coreNum);
      var sizeBlock := (size + coreNum - 1) / coreNum;
      var sizeBlockAligned := RoundBlock(sizeBlock);
      usedCore := (size + sizeBlockAligned - 1) / sizeBlockAligned;
      tiling[8 + i] := U32(sizeBlockAligned);
      tiling[16 + i] := U32(Min(maxUbSize, sizeBlockAligned));
    }
  }

  /** The two branches of the plan. */
  lemma PlanIs(bytes: nat, coreNum: nat, maxUbSize: nat)
    requires coreNum > 0
    ensures var p, size := PlanFor(bytes, coreNum, maxUbSize), RoundBlock(bytes);
            && p.size == size
            && (size < BLOCK_BYTES_ONCE * coreNum ==> p == Plan(size, size, size, 1))
            && (size >= BLOCK_BYTES_ONCE * coreNum ==>
                  && p.sizeBlock > 0 && (size + coreNum - 1) / coreNum >= 0
                  && p.sizeBlock == RoundBlock((size + coreNum - 1) / coreNum)
                  && p.sizeLoop == Min(maxUbSize, p.sizeBlock) && p.cores == (size + p.sizeBlock - 1) / p.sizeBlock)
  {
    hide Times, RoundBlock;
    if RoundBlock(bytes) >= BLOCK_BYTES_ONCE * coreNum {
      LargePlan(RoundBlock(bytes), coreNum);
    }
  }

  // ------------------------------------------------------------------ device

  /** A whole number of blocks. */
  predicate WholeBlocks(n: nat) { n % BLOCK_BYTES == 0 }

  /** The guard of the device loop, with its 32-bit sum. */
  predicate Guard(w: Plan, base: nat, i: nat)
  {
    i < w.sizeBlock && U32(base + i) < w.size
  }

  /** The 32-bit loop variable after k rounds. */
  function IndexAfter(w: Plan, k: nat): nat
  {
    U32(Times(k, w.sizeLoop))
  }

  /** The loop of a core whose share starts at base ends. */
  ghost predicate CoreEnds(w: Plan, base: nat)
  {
    exists k: nat :: !Guard(w, base, IndexAfter(w, k))
  }

  function Base(w: Plan, blockIdx: nat): nat
  {
    U32(Times(blockIdx, w.sizeBlock))
  }

  /** The loops of all cores end. */
  ghost predicate LaunchEnds(w: Plan, blockDim: nat)
  {
    forall b :: 0 <= b < blockDim ==> CoreEnds(w, Base(w, b))
  }

  /** Where copy k goes. Base and loop variable are added to a pointer here, and their sum is not cut to 32 bits. */
  function CopyPlace(w: Plan, base: nat, k: nat): nat
  {
    base + IndexAfter(w, k)
  }

  /** The guard lets the first k copies be made. */
  ghost predicate Guarded(w: Plan, base: nat, k: nat)
  {
    forall j :: 0 <= j < k ==> Guard(w, base, IndexAfter(w, j))
  }

  /** Every copy of a core goes where its guard looked, which is below the size. */
  ghost predicate CoreStays(w: Plan, base: nat)
  {
    forall k: nat :: Guarded(w, base, k + 1) ==> CopyPlace(w, base, k) < TWO32
  }

  ghost predicate LaunchStays(w: Plan, blockDim: nat)
  {
    forall b :: 0 <= b < blockDim ==> CoreStays(w, Base(w, b))
  }

  /** The first k copies do. */
  ghost predicate Stayed(w: Plan, base: nat, k: nat)
  {
    forall j :: 0 <= j < k ==> CopyPlace(w, base, j) < TWO32
  }

  lemma WrapTwice(a: nat, b: nat)
    ensures U32(a + U32(b)) == U32(a + b)
  {
    var q := b / TWO32;
    assert b == q * TWO32 + U32(b);
    WrapMultiple(a + U32(b), q);
  }

  lemma WrapMultiple(a: nat, q: nat)
    ensures U32(a + q * TWO32) == U32(a)
  {
    var d := a / TWO32;
    assert a == d * TWO32 + U32(a);
    DivModUnique(a + q * TWO32, TWO32, d + q, U32(a));
  }

  /** Wrapping keeps whole blocks. */
  lemma WrapAligned(a: nat)
    requires WholeBlocks(a)
    ensures WholeBlocks(U32(a))
  {
    var q := a / TWO32;
    assert a == q * TWO32 + U32(a);
    assert U32(a) == 32 * (a / 32 - q * 0x800_0000);
  }

  /** A buffer in which nothing from size on has changed, and below it bytes have at most become zero. */
  predicate OnlyZeroed(was: seq<Byte>, now: seq<Byte>, size: nat)
  {
    && |now| == |was| && size <= |was|
    && (forall k :: 0 <= k < size ==> now[k] == was[k] || now[k] == 0)
    && forall k :: size <= k < |was| ==> now[k] == was[k]
  }

  predicate ZeroIn(b: seq<Byte>, lo: nat, hi: nat)
  {
    forall k :: lo <= k < hi && k < |b| ==> b[k] == 0
  }

  lemma ZeroedTwice(was: seq<Byte>, mid: seq<Byte>, now: seq<Byte>, size: nat)
    requires OnlyZeroed(was, mid, size) && OnlyZeroed(mid, now, size)
    ensures OnlyZeroed(was, now, size)
  {
  }

  lemma StaysZero(mid: seq<Byte>, now: seq<Byte>, size: nat, lo: nat, hi: nat)
    requires OnlyZeroed(mid, now, size) && ZeroIn(mid, lo, hi)
    ensures ZeroIn(now, lo, hi)
  {
  }

  lemma ZeroJoins(b: seq<Byte>, lo: nat, mid: nat, hi: nat)
    requires ZeroIn(b, lo, mid) && ZeroIn(b, mid, hi)
    ensures ZeroIn(b, lo, hi)
  {
  }

  lemma NothingZeroed(was: seq<Byte>, size: nat, lo: nat, hi: nat)
    requires size <= |was|
    ensures OnlyZeroed(was, was, size) && (hi <= lo ==> ZeroIn(was, lo, hi))
  {
  }

  /** One copy of zeros. */
  lemma CopyZeroes(was: seq<Byte>, at: nat, n: nat, size: nat)
    requires at + n <= size <= |was|
    ensures var now := Splice<Byte>(was, at, Zeros(n)); OnlyZeroed(was, now, size) && ZeroIn(now, at, at + n)
  {
  }

  lemma WholeHalfWords(n: nat)
    requires WholeBlocks(n)
    ensures n / 2 * 2 == n
  {
    var k := n / BLOCK_BYTES;
    assert n == BLOCK_BYTES * k;
    HalfOf(n, 16 * k);
  }

  lemma HalfOf(n: nat, m: nat)
    requires n == 2 * m
    ensures n / 2 == m
  {
  }

  lemma SubAligned(a: nat, b: nat)
    requires WholeBlocks(a) && WholeBlocks(b) && b <= a
    ensures WholeBlocks(a - b)
  {
  }

  /** The words of a tensor's plan are whole blocks. */
  predicate WholeWords(w: Plan)
  {
    w.size < TWO32 && WholeBlocks(w.size) && WholeBlocks(w.sizeBlock) && WholeBlocks(w.sizeLoop)
  }

  /** Where a core's share starts. */
  method ShareStart(sizeBlock: nat, blockIdx: nat) returns (base: nat)
    ensures base == U32(Times(blockIdx, sizeBlock))
  {
    TimesIs(blockIdx, sizeBlock);
    base := U32(sizeBlock * blockIdx);
  }

  /** Room for the copies of a core: the tensor, or memory up to where a copy that leaves it ends. */
  ghost predicate HasRoom(length: nat, w: Plan, stays: bool)
  {
    w.size <= length && (stays || TWO32 + w.size <= length)
  }

  /**
   CleanTensor on one core, on the memory from the tensor on, when its loop ends. It clears its share of the
   tensor, and only clears. Nothing from the size on changes when all its copies stay; otherwise the byte
   at stray, behind the size, has become zero. Every copy comes out of the zero buffer.
   */
  method CleanTensor(tiling: array<nat>, idx: nat, blockIdx: nat, tensor: array<Byte>, zeros: array<Byte>,
                     ghost w: Plan)
    returns (ghost stray: nat)
    requires tiling.Length == TILING_LEN && Planned(tiling[..], idx, w) && WholeWords(w)
    requires CoreEnds(w, Base(w, blockIdx)) && w.sizeLoop <= zeros.Length
    requires HasRoom(tensor.Length, w, CoreStays(w, Base(w, blockIdx)))
    requires tensor != zeros && zeros[..] == Zeros(zeros.Length)
    modifies tensor
    ensures OnlyZeroed(old(tensor[..]), tensor[..], tensor.Length)
    ensures ZeroIn(tensor[..], Base(w, blockIdx), Min(w.size, Base(w, blockIdx) + w.sizeBlock))
    ensures CoreStays(w, Base(w, blockIdx)) ==> OnlyZeroed(old(tensor[..]), tensor[..], w.size)
    ensures !CoreStays(w, Base(w, blockIdx)) ==> TWO32 <= stray < tensor.Length && tensor[stray] == 0
  {
    hide Times, Splice, Zeros, OnlyZeroed, ZeroIn, U32, WholeBlocks, IndexAfter, Min, SoFar, Guarded, CoreStays;
    hide CopyPlace;
    var size, sizeBlock, sizeLoop := tiling[idx], tiling[8 + idx], tiling[16 + idx];
    var base := ShareStart(sizeBlock, blockIdx);
    BaseAligned(w, blockIdx);
    ghost var last: nat :| !Guard(w, base, IndexAfter(w, last));
    ghost var was, k := tensor[..], 0;
    stray := 0;
    FirstIndex(w);
    NothingSoFar(was, w, base);
    var i: nat := 0;
    while i < sizeBlock && U32(base + i) < size
      invariant k <= last && i == IndexAfter(w, k) && Guarded(w, base, k)
      invariant SoFar(was, tensor[..], w, base, k, stray)
      decreases last - k
    {
      GuardedNext(w, base, k);
      StepsNotNull(w, base, k, last);
      NextIndex(w, base, k);
      CopyFits(w, base, k, tensor.Length);
      CopySoFar(was, tensor[..], w, base, k, stray);
      ClearOnce(tensor, zeros, base + i, size, sizeLoop);
      stray := if base + i < TWO32 then stray else base + i;
      i := U32(i + sizeLoop);
      k := k + 1;
    }
    ShareDone(was, tensor[..], w, base, k, stray);
  }

  /** What k copies have done. */
  ghost predicate SoFar(was: seq<Byte>, now: seq<Byte>, w: Plan, base: nat, k: nat, stray: nat)
  {
    && OnlyZeroed(was, now, |was|) && ZeroIn(now, base, Min(base + Times(k, w.sizeLoop), w.size))
    && (Stayed(w, base, k) ==> OnlyZeroed(was, now, w.size))
    && (!Stayed(w, base, k) ==> TWO32 <= stray < |now| && now[stray] == 0)
  }

  lemma NothingSoFar(was: seq<Byte>, w: Plan, base: nat)
    requires w.size <= |was|
    ensures SoFar(was, was, w, base, 0, 0) && Guarded(w, base, 0)
  {
  }

  lemma GuardedNext(w: Plan, base: nat, k: nat)
    requires Guarded(w, base, k) && Guard(w, base, IndexAfter(w, k))
    ensures Guarded(w, base, k + 1)
  {
  }

  /** A loop that ends makes progress. */
  lemma StepsNotNull(w: Plan, base: nat, k: nat, last: nat)
    requires Guard(w, base, IndexAfter(w, k)) && !Guard(w, base, IndexAfter(w, last))
    ensures w.sizeLoop > 0
  {
    hide Times;
    if w.sizeLoop == 0 {
      TimesIs(k, 0);
      TimesIs(last, 0);
    }
  }

  /** The length of copy k, by the guard's 32-bit sum. */
  function CopyLength(w: Plan, base: nat, k: nat): int
  {
    Min(w.size - U32(CopyPlace(w, base, k)), w.sizeLoop)
  }

  /** A copy that stays is inside the size; one that does not is behind it. */
  lemma CopyFits(w: Plan, base: nat, k: nat, length: nat)
    requires Guarded(w, base, k + 1) && base < TWO32 && HasRoom(length, w, CoreStays(w, base))
    ensures CopyPlace(w, base, k) == base + IndexAfter(w, k)
    ensures CopyLength(w, base, k) >= 0 && CopyPlace(w, base, k) + CopyLength(w, base, k) <= length
  {
    hide Times;
    assert Guard(w, base, IndexAfter(w, k));
    var q := CopyPlace(w, base, k);
    assert IndexAfter(w, k) < TWO32;
    if q < TWO32 {
      SmallWord(q);
    } else {
      WrapOnce(q);
    }
  }

  lemma WrapOnce(q: nat)
    requires TWO32 <= q < 2 * TWO32
    ensures U32(q) == q - TWO32
  {
  }

  /** One copy more. */
  lemma CopySoFar(was: seq<Byte>, mid: seq<Byte>, w: Plan, base: nat, k: nat, stray: nat)
    requires SoFar(was, mid, w, base, k, stray) && Guarded(w, base, k + 1) && base < TWO32
    requires WholeWords(w) && WholeBlocks(base) && w.sizeLoop > 0
    requires w.size <= |was| && HasRoom(|was|, w, CoreStays(w, base))
    ensures var q, n := CopyPlace(w, base, k), CopyLength(w, base, k);
            && 0 < n && q + n <= |mid|
            && SoFar(was, Splice<Byte>(mid, q, Zeros(n)), w, base, k + 1, if q < TWO32 then stray else q)
  {
    hide Times, OnlyZeroed, ZeroIn, Splice, Zeros, U32, WholeBlocks, IndexAfter, CoreStays, CopyPlace, CopyLength;
    assert |mid| == |was| by { SameLength(was, mid, |was|); }
    CopyFits(w, base, k, |mid|);
    NextIndex(w, base, k);
    var q, n := CopyPlace(w, base, k), CopyLength(w, base, k);
    assert Guard(w, base, IndexAfter(w, k)) by { LastGuard(w, base, k); }
    assert 0 < n == Min(w.size - U32(q), w.sizeLoop) by { LengthIs(w, base, k); }
    var now := Splice<Byte>(mid, q, Zeros(n));
    StayedNext(w, base, k);
    CopyZeroes(mid, q, n, |mid|);
    ZeroedTwice(was, mid, now, |was|);
    var t := Times(k, w.sizeLoop);
    StaysZero(mid, now, |mid|, base, Min(base + t, w.size));
    if base + t < w.size {
      SmallWord(t);
      IndexIs(w, k);
      SmallWord(q);
      ZeroJoins(now, base, base + t, base + t + n);
    }
    if q < TWO32 {
      SmallWord(q);
      CopyZeroes(mid, q, n, w.size);
      if Stayed(w, base, k) {
        ZeroedTwice(was, mid, now, w.size);
      } else {
        OneStaysZero(mid, now, stray);
      }
    } else {
      FirstOfZeros(now, q, n);
    }
  }

  lemma LastGuard(w: Plan, base: nat, k: nat)
    requires Guarded(w, base, k + 1)
    ensures Guard(w, base, IndexAfter(w, k))
  {
  }

  lemma LengthIs(w: Plan, base: nat, k: nat)
    requires Guard(w, base, IndexAfter(w, k)) && w.sizeLoop > 0
    ensures 0 < CopyLength(w, base, k) == Min(w.size - U32(CopyPlace(w, base, k)), w.sizeLoop)
  {
  }

  lemma IndexIs(w: Plan, k: nat)
    ensures IndexAfter(w, k) == U32(Times(k, w.sizeLoop))
  {
  }

  lemma StayedNext(w: Plan, base: nat, k: nat)
    ensures Stayed(w, base, k + 1) <==> Stayed(w, base, k) && CopyPlace(w, base, k) < TWO32
    ensures CopyPlace(w, base, k) == base + IndexAfter(w, k)
  {
  }

  lemma SameLength(was: seq<Byte>, now: seq<Byte>, size: nat)
    requires OnlyZeroed(was, now, size)
    ensures |was| == |now|
  {
  }

  lemma OneStaysZero(mid: seq<Byte>, now: seq<Byte>, stray: nat)
    requires OnlyZeroed(mid, now, |mid|) && stray < |mid| && mid[stray] == 0
    ensures stray < |now| && now[stray] == 0
  {
  }

  lemma FirstOfZeros(now: seq<Byte>, q: nat, n: nat)
    requires ZeroIn(now, q, q + n) && 0 < n && q + n <= |now|
    ensures now[q] == 0
  {
  }

  lemma BaseAligned(w: Plan, blockIdx: nat)
    requires WholeWords(w)
    ensures WholeBlocks(Base(w, blockIdx))
  {
    hide Times, U32, WholeBlocks;
    TimesAligned(blockIdx, w.sizeBlock);
    WrapAligned(Times(blockIdx, w.sizeBlock));
  }

  lemma FirstIndex(w: Plan)
    ensures IndexAfter(w, 0) == 0 && Times(0, w.sizeLoop) == 0
  {
  }

  /** One step of the loop variable, and where it points. */
  lemma NextIndex(w: Plan, base: nat, k: nat)
    requires WholeWords(w) && WholeBlocks(base)
    ensures U32(IndexAfter(w, k) + w.sizeLoop) == IndexAfter(w, k + 1)
    ensures U32(base + IndexAfter(w, k)) == U32(base + Times(k, w.sizeLoop))
    ensures WholeBlocks(U32(base + IndexAfter(w, k))) && Times(k + 1, w.sizeLoop) == Times(k, w.sizeLoop) + w.sizeLoop
  {
    hide Times, U32, WholeBlocks;
    var t := Times(k, w.sizeLoop);
    OneLess(k + 1, w.sizeLoop);
    WrapTwice(w.sizeLoop, t);
    WrapTwice(base, t);
    TimesAligned(k, w.sizeLoop);
    AddAligned(base, t);
    WrapAligned(base + t);
  }

  /** Behind the loop the share is clear, and the copies made are all there are. */
  lemma ShareDone(was: seq<Byte>, now: seq<Byte>, w: Plan, base: nat, k: nat, stray: nat)
    requires WholeWords(w) && WholeBlocks(base) && Guarded(w, base, k) && !Guard(w, base, IndexAfter(w, k))
    requires SoFar(was, now, w, base, k, stray)
    ensures ZeroIn(now, base, Min(w.size, base + w.sizeBlock)) && OnlyZeroed(was, now, |was|)
    ensures CoreStays(w, base) ==> OnlyZeroed(was, now, w.size)
    ensures !CoreStays(w, base) ==> TWO32 <= stray < |now| && now[stray] == 0
  {
    hide Times, U32, ZeroIn, OnlyZeroed, WholeBlocks;
    var t := Times(k, w.sizeLoop);
    WrapTwice(base, t);
    WrapBelow(t);
    WrapBelow(base + t);
    ZeroPart(now, base, Min(base + t, w.size), Min(w.size, base + w.sizeBlock));
    AllCopies(w, base, k);
  }

  lemma AllCopies(w: Plan, base: nat, k: nat)
    requires Guarded(w, base, k) && !Guard(w, base, IndexAfter(w, k))
    ensures CoreStays(w, base) <==> Stayed(w, base, k)
  {
    hide IndexAfter, Guard, CopyPlace;
    if CoreStays(w, base) {
      forall j | 0 <= j < k
        ensures CopyPlace(w, base, j) < TWO32
      {
        assert Guarded(w, base, j + 1);
      }
    } else {
      var j: nat :| Guarded(w, base, j + 1) && CopyPlace(w, base, j) >= TWO32;
      assert j < k;
    }
  }

  lemma ZeroPart(b: seq<Byte>, lo: nat, hi: nat, part: nat)
    requires ZeroIn(b, lo, hi) && part <= hi
    ensures ZeroIn(b, lo, part)
  {
  }

  lemma WrapBelow(t: nat)
    ensures U32(t) <= t
  {
  }

  /** The body of the loop: one copy of at most sizeLoop bytes, at most as many as are left by the 32-bit sum. */
  method ClearOnce(tensor: array<Byte>, zeros: array<Byte>, place: nat, size: nat, sizeLoop: nat)
    requires U32(place) < size && sizeLoop <= zeros.Length
    requires place + Min(size - U32(place), sizeLoop) <= tensor.Length
    requires WholeBlocks(U32(place)) && WholeBlocks(size) && WholeBlocks(sizeLoop)
    requires tensor != zeros && zeros[..] == Zeros(zeros.Length)
    modifies tensor
    ensures tensor[..] == Splice<Byte>(old(tensor[..]), place, Zeros(Min(size - U32(place), sizeLoop)))
  {
    hide Splice, Zeros, WholeBlocks;
    var leftCount := size - U32(place);
    var handleCount := if leftCount < sizeLoop then leftCount else sizeLoop;
    SubAligned(size, U32(place));
    WholeHalfWords(handleCount);
    CopyZeros(tensor, place, zeros, handleCount / 2);
  }

  /** DataCopy of 16-bit elements from the zero buffer. */
  method CopyZeros(dst: array<Byte>, off: nat, zeros: array<Byte>, count: nat)
    requires dst != zeros && zeros[..] == Zeros(zeros.Length)
    requires 2 * count <= zeros.Length && off + 2 * count <= dst.Length
    modifies dst
    ensures dst[..] == Splice<Byte>(old(dst[..]), off, Zeros(2 * count))
  {
    assert zeros[..2 * count] == zeros[..][..2 * count] == Zeros(2 * count);
    Store(dst, off, zeros[..2 * count]);
  }

  /**
   All cores of a launch on one tensor, one after the other, on the memory from the tensor on, when their loops
   end. The shares that cover the size are cleared. If all copies stay, nothing else changes; and if the
   memory behind the size has no zeros, then nothing there changes only if all copies stay.
   */
  method CleanOnAllCores(tiling: array<nat>, idx: nat, blockDim: nat, tensor: array<Byte>, zeros: array<Byte>,
                         ghost w: Plan)
    requires tiling.Length == TILING_LEN && Planned(tiling[..], idx, w) && WholeWords(w)
    requires LaunchEnds(w, blockDim) && w.sizeLoop <= zeros.Length
    requires HasRoom(tensor.Length, w, LaunchStays(w, blockDim))
    requires tensor != zeros && zeros[..] == Zeros(zeros.Length)
    modifies tensor
    ensures w.size <= Times(blockDim, w.sizeBlock) ==> tensor[..w.size] == Zeros(w.size)
    ensures LaunchStays(w, blockDim) ==> tensor[w.size..] == old(tensor[w.size..])
    ensures 0 !in old(tensor[w.size..]) ==> (tensor[w.size..] == old(tensor[w.size..]) <==> LaunchStays(w, blockDim))
  {
    hide OnlyZeroed, ZeroIn, Times, WholeBlocks, Zeros, Splice, CoreEnds, U32, Planned, CoreStays, Cleaned;
    ghost var was, stray := tensor[..], 0;
    NothingCleaned(was, w);
    for blockIdx := 0 to blockDim
      invariant Cleaned(was, tensor[..], w, blockIdx, stray)
    {
      ghost var mid := tensor[..];
      ghost var next := CleanTensor(tiling, idx, blockIdx, tensor, zeros, w);
      CleanedNext(was, mid, tensor[..], w, blockIdx, stray, next);
      stray := if CoreStays(w, Base(w, blockIdx)) then stray else next;
    }
    AllCleaned(was, tensor[..], w, blockDim, stray);
    assert tensor[w.size..] == tensor[..][w.size..] && tensor[..w.size] == tensor[..][..w.size];
  }

  /** What the first n cores have done. */
  ghost predicate Cleaned(was: seq<Byte>, now: seq<Byte>, w: Plan, n: nat, stray: nat)
  {
    && OnlyZeroed(was, now, |was|) && ZeroIn(now, 0, Min(Times(n, w.sizeBlock), w.size))
    && (LaunchStays(w, n) ==> OnlyZeroed(was, now, w.size))
    && (!LaunchStays(w, n) ==> TWO32 <= stray < |now| && now[stray] == 0)
  }

  lemma NothingCleaned(was: seq<Byte>, w: Plan)
    requires w.size <= |was|
    ensures Cleaned(was, was, w, 0, 0)
  {
  }

  lemma CleanedNext(was: seq<Byte>, mid: seq<Byte>, now: seq<Byte>, w: Plan, b: nat, stray: nat, next: nat)
    requires Cleaned(was, mid, w, b, stray) && OnlyZeroed(mid, now, |mid|) && w.size < TWO32
    requires ZeroIn(now, Base(w, b), Min(w.size, Base(w, b) + w.sizeBlock))
    requires CoreStays(w, Base(w, b)) ==> OnlyZeroed(mid, now, w.size)
    requires !CoreStays(w, Base(w, b)) ==> TWO32 <= next < |now| && now[next] == 0
    ensures Cleaned(was, now, w, b + 1, if CoreStays(w, Base(w, b)) then stray else next)
  {
    hide OnlyZeroed, ZeroIn, Times, U32, CoreStays;
    var at := Times(b, w.sizeBlock);
    SameLength(was, mid, |was|);
    SameLength(mid, now, |mid|);
    ZeroedTwice(was, mid, now, |was|);
    StaysZero(mid, now, |mid|, 0, Min(at, w.size));
    OneLess(b + 1, w.sizeBlock);
    if at < w.size {
      SmallWord(at);
      ZeroJoins(now, 0, at, Min(w.size, at + w.sizeBlock));
    }
    LaunchStaysNext(w, b);
    if LaunchStays(w, b + 1) {
      ZeroedTwice(was, mid, now, w.size);
    } else if CoreStays(w, Base(w, b)) {
      OneStaysZero(mid, now, stray);
    }
  }

  lemma LaunchStaysNext(w: Plan, b: nat)
    ensures LaunchStays(w, b + 1) <==> LaunchStays(w, b) && CoreStays(w, Base(w, b))
  {
    hide CoreStays, Base;
  }

  lemma AllCleaned(was: seq<Byte>, now: seq<Byte>, w: Plan, n: nat, stray: nat)
    requires Cleaned(was, now, w, n, stray) && w.size <= |was| && w.size < TWO32
    ensures |now| == |was|
    ensures w.size <= Times(n, w.sizeBlock) ==> now[..w.size] == Zeros(w.size)
    ensures LaunchStays(w, n) ==> now[w.size..] == was[w.size..]
    ensures 0 !in was[w.size..] && !LaunchStays(w, n) ==> now[w.size..] != was[w.size..]
  {
    hide LaunchStays, Times;
    if !LaunchStays(w, n) {
      assert now[w.size..][stray - w.size] == 0;
    }
  }

  // -------------------------------------------------- when the loops end

  /** The exponent of the largest power of two that divides n. */
  function Twos(n: nat): (e: nat)
    requires n > 0
  {
    if n % 2 == 1 then 0 else 1 + Twos(n / 2)
  }

  lemma DoubleProduct(a: nat, b: nat)
    ensures 2 * a * b == 2 * (a * b)
  {
  }

  lemma {:induction false} TwosDivide(n: nat) returns (odd: nat)
    requires n > 0
    ensures n == Pow2(Twos(n)) * odd && odd % 2 == 1
  {
    if n % 2 == 1 {
      odd := n;
    } else {
      odd := TwosDivide(n / 2);
      DoubleProduct(Pow2(Twos(n / 2)), odd);
    }
  }

  /** Some multiple of an odd number is one below a multiple of 2^e. */
  lemma {:induction false} OneBelow(odd: nat, e: nat) returns (k: nat, q: nat)
    requires odd % 2 == 1
    ensures k * odd == q * Pow2(e) + Pow2(e) - 1
  {
    if e == 0 {
      k, q := 1, odd;
    } else {
      var k', q' := OneBelow(odd, e - 1);
      var P := Pow2(e - 1);
      if q' % 2 == 1 {
        k, q := k', q' / 2;
        Regroup(q', q, P, 1);
      } else {
        k, q := k' + P, (q' + odd) / 2;
        SumTimesOdd(k', P, odd);
        Regroup(q' + odd, q, P, 1);
        OddSum(q', odd, P);
      }
    }
  }

  lemma OddSum(a: nat, b: nat, P: nat)
    ensures (a + b) * P == a * P + P * b
  {
  }

  lemma SumTimesOdd(a: nat, P: nat, odd: nat)
    ensures (a + P) * odd == a * odd + P * odd
  {
  }

  lemma Regroup(a: nat, q: nat, P: nat, r: nat)
    requires a == 2 * q + r
    ensures a * P == q * (2 * P) + r * P
  {
  }

  lemma Pow2Of32()
    ensures Pow2(32) == TWO32
  {
    assert Pow2(8) == 0x100;
    hide Pow2;
    Pow2Add(8, 8);
    Pow2Add(16, 16);
  }

  lemma LargePower(e: nat, odd: nat)
    requires e >= 32 && odd >= 1
    ensures Pow2(e) * odd >= TWO32
  {
    hide Pow2;
    Pow2Of32();
    Pow2Monotone(32, e);
    MulMonotone(1, odd, Pow2(e));
  }

  /** The power of two in a 32-bit word divides 2^32. */
  lemma TwosFit(n: nat)
    requires 0 < n < TWO32
    ensures Twos(n) < 32 && TWO32 == Pow2(Twos(n)) * Pow2(32 - Twos(n))
  {
    hide Pow2, Twos;
    var odd := TwosDivide(n);
    Pow2Of32();
    if Twos(n) >= 32 {
      LargePower(Twos(n), odd);
      assert false;
    }
    Pow2Add(Twos(n), 32 - Twos(n));
  }

  /** The largest value that the loop variable takes with steps of sizeLoop. */
  function Highest(sizeLoop: nat): int
    requires sizeLoop > 0
  {
    TWO32 - Pow2(Twos(sizeLoop))
  }

  /** It is reached, ... */
  lemma HighestReached(sizeLoop: nat) returns (k: nat)
    requires 0 < sizeLoop < TWO32
    ensures U32(Times(k, sizeLoop)) == Highest(sizeLoop)
  {
    hide Pow2, Twos, U32, Times;
    var g := Pow2(Twos(sizeLoop));
    var odd := TwosDivide(sizeLoop);
    TwosFit(sizeLoop);
    var M := Pow2(32 - Twos(sizeLoop));
    var q;
    k, q := OneBelow(odd, 32 - Twos(sizeLoop));
    TimesIs(k, sizeLoop);
    Scaled(k, odd, g, q, M, sizeLoop);
    MulMonotone(1, M, g);
    WrapMultiple(TWO32 - g, q);
    SmallWord(TWO32 - g);
  }

  lemma SmallWord(v: nat)
    requires v < TWO32
    ensures U32(v) == v
  {
  }

  lemma Scaled(k: nat, odd: nat, g: nat, q: nat, M: nat, n: nat)
    requires k * odd == q * M + M - 1 && n == g * odd && g * M == TWO32
    ensures k * n == TWO32 - g + q * TWO32
  {
    calc {
      k * n;
      k * (g * odd);
      g * (k * odd);
      g * (q * M + M - 1);
      q * (g * M) + g * M - g;
    }
  }

  /** ... and never passed. */
  lemma NeverPassed(sizeLoop: nat, k: nat)
    requires 0 < sizeLoop < TWO32
    ensures U32(Times(k, sizeLoop)) <= Highest(sizeLoop)
  {
    hide Pow2, Twos, Times, U32;
    var g := Pow2(Twos(sizeLoop));
    var odd := TwosDivide(sizeLoop);
    TwosFit(sizeLoop);
    var M := Pow2(32 - Twos(sizeLoop));
    TimesIs(k, sizeLoop);
    var t := k * sizeLoop;
    var q, v := t / TWO32, U32(t);
    WrapParts(t);
    MultipleOf(k, odd, g, q, M, sizeLoop, v);
    MultipleBelow(g, k * odd - q * M, M);
  }

  lemma WrapParts(t: nat)
    ensures t == t / TWO32 * TWO32 + U32(t)
  {
  }

  /** A multiple of g below g * M is at most g * M - g. */
  lemma MultipleBelow(g: nat, d: int, M: nat)
    requires g > 0 && g * d < g * M
    ensures g * d <= g * M - g
  {
    if d >= M {
      MulMonotone(M, d, g);
      assert false;
    }
    MulMonotone(d, M - 1, g);
  }

  lemma MultipleOf(k: nat, odd: nat, g: nat, q: nat, M: nat, n: nat, v: nat)
    requires n == g * odd && g * M == TWO32 && k * n == q * TWO32 + v
    ensures v == g * (k * odd - q * M)
  {
    calc {
      v;
      k * (g * odd) - q * (g * M);
      g * (k * odd) - g * (q * M);
      g * (k * odd - q * M);
    }
  }

  /** What a caller can check: two cores, one copy, or a size that the loop variable can reach. */
  predicate InReach(bytes: nat, coreNum: nat, maxUbSize: nat)
    requires coreNum > 0 && maxUbSize > 0 && maxUbSize % BLOCK_BYTES == 0
  {
    PlanCovers(bytes, coreNum, maxUbSize);
    var p := PlanFor(bytes, coreNum, maxUbSize);
    coreNum >= 2 || p.size < BLOCK_BYTES_ONCE || p.sizeLoop == p.size || p.size <= Highest(p.sizeLoop)
  }

  /** A share that leaves room for one more copy below 2^32 is passed, wherever it starts. */
  lemma EndsWithRoom(w: Plan, base: nat)
    requires w.sizeLoop == 0 ==> w.sizeBlock == 0
    requires w.sizeBlock + w.sizeLoop <= TWO32
    ensures CoreEnds(w, base)
  {
    hide Times, U32;
    var k := 0;
    if w.sizeBlock == 0 {
      assert !Guard(w, base, IndexAfter(w, 0));
    } else {
      CeilDiv(w.sizeBlock, w.sizeLoop);
      var k := (w.sizeBlock + w.sizeLoop - 1) / w.sizeLoop;
      SmallWord(Times(k, w.sizeLoop));
      assert !Guard(w, base, IndexAfter(w, k));
    }
  }

  /** With two cores no share is above 2^31. */
  lemma HalfShares(size: nat, coreNum: nat)
    requires coreNum >= 2 && size < TWO32 && size >= BLOCK_BYTES_ONCE * coreNum
    ensures (size + coreNum - 1) / coreNum >= 0 && RoundBlock((size + coreNum - 1) / coreNum) <= 0x8000_0000
  {
    hide Times;
    CeilDiv(size, coreNum);
    var q := (size + coreNum - 1) / coreNum;
    if q > 0x8000_0000 {
      OneLess(q, coreNum);
      TimesSwap(q - 1, coreNum);
      TimesMonotone(2, coreNum, q - 1);
      OneLess(2, q - 1);
      OneTimes(q - 1);
      assert false;
    }
  }

  /**
   For every size below 2^32 and every number of cores launched: all loops end if and only if the size is
   in reach.
   */
  lemma LaunchEndsExactly(bytes: nat, coreNum: nat, maxUbSize: nat, blockDim: nat)
    requires 1 <= blockDim <= coreNum && maxUbSize > 0 && maxUbSize % BLOCK_BYTES == 0
    requires RoundBlock(bytes) < TWO32
    ensures LaunchEnds(Words(PlanFor(bytes, coreNum, maxUbSize)), blockDim) <==> InReach(bytes, coreNum, maxUbSize)
  {
    hide Times, PlanFor, RoundBlock, U32, CoreEnds, Words, Highest, Base;
    var p := PlanFor(bytes, coreNum, maxUbSize);
    PlanWords(bytes, coreNum, maxUbSize);
    PlanIs(bytes, coreNum, maxUbSize);
    if p.size < BLOCK_BYTES_ONCE * coreNum || p.sizeLoop == p.size {
      EndsInOneRound(p, blockDim);
    } else if coreNum >= 2 {
      HalfShares(p.size, coreNum);
      forall b | 0 <= b < blockDim
        ensures CoreEnds(p, Base(p, b))
      {
        EndsWithRoom(p, Base(p, b));
      }
    } else {
      WholeShare(bytes, maxUbSize);
      OneCore(p);
    }
  }

  /** The plan fits the words when the size does. */
  lemma PlanWords(bytes: nat, coreNum: nat, maxUbSize: nat)
    requires coreNum > 0 && maxUbSize > 0 && maxUbSize % BLOCK_BYTES == 0 && RoundBlock(bytes) < TWO32
    ensures var p := PlanFor(bytes, coreNum, maxUbSize);
            Words(p) == p && p.sizeBlock <= p.size && p.sizeLoop <= p.sizeBlock && WholeWords(p)
  {
    hide Times, RoundBlock, U32, Words;
    PlanCovers(bytes, coreNum, maxUbSize);
    PlanIs(bytes, coreNum, maxUbSize);
    var size := RoundBlock(bytes);
    if size >= BLOCK_BYTES_ONCE * coreNum {
      ShareBelow(size, coreNum);
    }
  }

  lemma ShareBelow(size: nat, coreNum: nat)
    requires coreNum > 0 && size >= BLOCK_BYTES_ONCE * coreNum && size % BLOCK_BYTES == 0
    ensures (size + coreNum - 1) / coreNum >= 0 && RoundBlock((size + coreNum - 1) / coreNum) <= size
  {
    hide Times, RoundBlock;
    CeilDiv(size, coreNum);
    var q := (size + coreNum - 1) / coreNum;
    if q > size {
      OneLess(q, coreNum);
      TimesSwap(q - 1, coreNum);
      TimesMonotone(1, coreNum, q - 1);
      OneTimes(q - 1);
      assert false;
    }
    RoundsBelow(q, size);
  }

  lemma RoundsBelow(n: nat, size: nat)
    requires n <= size && size % BLOCK_BYTES == 0
    ensures RoundBlock(n) <= size
  {
  }

  lemma EndsInOneRound(p: Plan, blockDim: nat)
    requires p.sizeLoop == p.size < TWO32 && p.sizeBlock <= p.size
    ensures LaunchEnds(p, blockDim)
  {
    hide Times, U32;
    OneTimes(p.sizeLoop);
    SmallWord(p.sizeLoop);
    forall b | 0 <= b < blockDim
      ensures CoreEnds(p, Base(p, b))
    {
      assert !Guard(p, Base(p, b), IndexAfter(p, 1));
    }
  }

  /** One core has the whole size for its share. */
  lemma WholeShare(bytes: nat, maxUbSize: nat)
    requires RoundBlock(bytes) >= BLOCK_BYTES_ONCE && maxUbSize > 0
    ensures var p := PlanFor(bytes, 1, maxUbSize); p.sizeBlock == p.size && p.sizeLoop == Min(maxUbSize, p.size) > 0
  {
    hide Times;
    PlanIs(bytes, 1, maxUbSize);
    RoundedTwice(bytes);
  }

  lemma RoundedTwice(bytes: nat)
    ensures RoundBlock(RoundBlock(bytes)) == RoundBlock(bytes)
  {
  }

  lemma OneCore(p: Plan)
    requires 0 < p.sizeLoop < TWO32 && p.sizeBlock == p.size < TWO32
    ensures LaunchEnds(p, 1) <==> p.size <= Highest(p.sizeLoop)
  {
    hide Times, U32, Highest;
    assert Base(p, 0) == 0 by {
      OneTimes(p.sizeBlock);
      SmallWord(0);
    }
    if p.size <= Highest(p.sizeLoop) {
      var k := HighestReached(p.sizeLoop);
      assert !Guard(p, 0, IndexAfter(p, k));
      forall b | 0 <= b < 1
        ensures CoreEnds(p, Base(p, b))
      {
        assert b == 0;
      }
    } else {
      forall k: nat
        ensures Guard(p, 0, IndexAfter(p, k))
      {
        NeverPassed(p.sizeLoop, k);
        SmallWord(IndexAfter(p, k));
      }
      assert !CoreEnds(p, Base(p, 0));
    }
  }

  /** One core, a size one block below 2^32 and a 64-byte zero buffer: the loop never ends. */
  lemma OutOfReach()
    ensures RoundBlock(TWO32 - BLOCK_BYTES) == TWO32 - BLOCK_BYTES && !InReach(TWO32 - BLOCK_BYTES, 1, 64)
  {
    WholeShare(TWO32 - BLOCK_BYTES, 64);
    assert Twos(64) == 6 && Pow2(6) == 64;
  }

  // ------------------------------------------- when the copies stay inside

  /** The least multiple of step that is not below d. */
  function Reaches(d: int, step: nat): (m: nat)
    requires step > 0
    ensures d <= m && (d > 0 ==> m < d + step)
  {
    if d <= 0 then 0 else CeilDiv(d, step); Times((d + step - 1) / step, step)
  }

  lemma ReachesLeast(d: int, step: nat, k: nat)
    requires step > 0 && Times(k, step) >= d
    ensures Reaches(d, step) <= Times(k, step)
  {
    hide Times;
    if d > 0 {
      CeilDiv(d, step);
      var q := (d + step - 1) / step;
      if k < q {
        TimesMonotone(k, q - 1, step);
        OneLess(q, step);
        assert false;
      }
      TimesMonotone(q, k, step);
    }
  }

  lemma ReachesIsTimes(d: int, step: nat) returns (k: nat)
    requires step > 0
    ensures Reaches(d, step) == Times(k, step)
  {
    hide Times;
    if d <= 0 {
      k := 0;
      OneTimes(step);
    } else {
      CeilDiv(d, step);
      k := (d + step - 1) / step;
    }
  }

  /** The last share starts below the size. */
  function LastShare(p: Plan): nat
    requires p.cores > 0
  {
    Times(p.cores - 1, p.sizeBlock)
  }

  /**
   What a caller can check: the last core's loop variable passes its share, or the size before 2^32.
   */
  predicate Contained(bytes: nat, coreNum: nat, maxUbSize: nat)
    requires coreNum > 0 && maxUbSize > 0 && maxUbSize % BLOCK_BYTES == 0
  {
    PlanCovers(bytes, coreNum, maxUbSize);
    var p := PlanFor(bytes, coreNum, maxUbSize);
    p.sizeLoop == 0
    || Reaches(p.size - LastShare(p), p.sizeLoop) >= p.sizeBlock
    || LastShare(p) + Reaches(p.size - LastShare(p), p.sizeLoop) < TWO32
  }

  /** It is enough that the shares together do not pass 2^32. */
  lemma SharesBelowLimit(bytes: nat, coreNum: nat, maxUbSize: nat)
    requires coreNum > 0 && maxUbSize > 0 && maxUbSize % BLOCK_BYTES == 0
    requires var p := PlanFor(bytes, coreNum, maxUbSize); Times(p.cores, p.sizeBlock) <= TWO32
    ensures Contained(bytes, coreNum, maxUbSize)
  {
    hide Times, PlanFor, Reaches;
    PlanCovers(bytes, coreNum, maxUbSize);
    var p := PlanFor(bytes, coreNum, maxUbSize);
    OneLess(p.cores, p.sizeBlock);
  }

  /** Three cores and 64-byte copies: the launch ends, and core 2 makes a copy at 2^32, behind the size. */
  lemma CopyBehind()
    ensures var p := PlanFor(TWO32 - BLOCK_BYTES, 3, 64);
            && p == Plan(TWO32 - BLOCK_BYTES, 1431655776, 64, 3)
            && InReach(TWO32 - BLOCK_BYTES, 3, 64) && !Contained(TWO32 - BLOCK_BYTES, 3, 64)
            && LastShare(p) + Reaches(p.size - LastShare(p), 64) == TWO32
  {
    hide Times, PlanFor, Reaches;
    PlanIs(TWO32 - BLOCK_BYTES, 3, 64);
    TimesIs(2, 1431655776);
    ReachesExample();
  }

  lemma ReachesExample()
    ensures Reaches(1431655712, 64) == 1431655744
  {
    hide Times;
    TimesIs(22369621, 64);
  }

  /** While the share leaves room for one more step, the loop variable does not wrap. */
  lemma {:induction false} IndexExact(w: Plan, base: nat, k: nat)
    requires w.sizeBlock + w.sizeLoop <= TWO32 && Guarded(w, base, k)
    ensures IndexAfter(w, k) == Times(k, w.sizeLoop) <= w.sizeBlock + w.sizeLoop
  {
    hide Times, U32;
    if k == 0 {
      OneTimes(w.sizeLoop);
      SmallWord(0);
    } else {
      assert Guarded(w, base, k - 1);
      IndexExact(w, base, k - 1);
      assert Guard(w, base, IndexAfter(w, k - 1));
      OneLess(k, w.sizeLoop);
      SmallWord(Times(k, w.sizeLoop));
    }
  }

  lemma StaysWithRoom(w: Plan, base: nat)
    requires base + w.sizeBlock <= TWO32
    ensures CoreStays(w, base)
  {
    hide U32, IndexAfter;
    forall k: nat | Guarded(w, base, k + 1)
      ensures CopyPlace(w, base, k) < TWO32
    {
      assert Guard(w, base, IndexAfter(w, k));
    }
  }

  /** A core whose share starts behind the size makes no copy. */
  lemma StaysBehind(w: Plan, base: nat)
    requires w.size <= base < TWO32
    ensures CoreStays(w, base)
  {
    hide Times, IndexAfter;
    FirstIndex(w);
    SmallWord(base);
    forall k: nat
      ensures Guarded(w, base, k + 1) ==> CopyPlace(w, base, k) < TWO32
    {
      assert !Guard(w, base, IndexAfter(w, 0));
    }
  }

  /** One copy is made at most, at the start of the share. */
  lemma StaysInOneRound(w: Plan, base: nat)
    requires w.sizeBlock <= w.sizeLoop < TWO32 && base < TWO32
    ensures CoreStays(w, base)
  {
    hide Times, U32;
    OneTimes(w.sizeLoop);
    SmallWord(w.sizeLoop);
    SmallWord(0);
    forall k: nat
      ensures Guarded(w, base, k + 1) ==> CopyPlace(w, base, k) < TWO32
    {
      assert !Guard(w, base, IndexAfter(w, 1));
    }
  }

  /** The core that reaches the size. */
  lemma LastCore(w: Plan, base: nat)
    requires base < w.size < TWO32 && w.sizeLoop > 0 && w.sizeBlock + w.sizeLoop <= TWO32
    ensures var m := Reaches(w.size - base, w.sizeLoop);
            CoreStays(w, base) <==> m >= w.sizeBlock || base + m < TWO32
  {
    hide Times, U32, Reaches;
    var m := Reaches(w.size - base, w.sizeLoop);
    var last := ReachesIsTimes(w.size - base, w.sizeLoop);
    if m >= w.sizeBlock || base + m < TWO32 {
      forall k: nat | Guarded(w, base, k + 1)
        ensures CopyPlace(w, base, k) < TWO32
      {
        NotPastLast(w, base, last, k);
      }
    } else {
      GuardedToLast(w, base, last);
    }
  }

  lemma NotPastLast(w: Plan, base: nat, last: nat, k: nat)
    requires base < w.size < TWO32 && w.sizeLoop > 0 && w.sizeBlock + w.sizeLoop <= TWO32
    requires Times(last, w.sizeLoop) == Reaches(w.size - base, w.sizeLoop)
    requires Times(last, w.sizeLoop) >= w.sizeBlock || base + Times(last, w.sizeLoop) < TWO32
    requires Guarded(w, base, k + 1)
    ensures CopyPlace(w, base, k) < TWO32
  {
    hide Times, U32, Reaches, IndexAfter;
    assert Guarded(w, base, k);
    IndexExact(w, base, k);
    if k < last {
      TimesMonotone(k, last - 1, w.sizeLoop);
      OneLess(last, w.sizeLoop);
    } else {
      assert Guarded(w, base, last + 1);
      NotAtLast(w, base, last);
    }
  }

  lemma NotAtLast(w: Plan, base: nat, last: nat)
    requires base < w.size < TWO32 && w.sizeLoop > 0 && w.sizeBlock + w.sizeLoop <= TWO32
    requires base + Times(last, w.sizeLoop) >= w.size
    requires Times(last, w.sizeLoop) >= w.sizeBlock || base + Times(last, w.sizeLoop) < TWO32
    ensures !Guarded(w, base, last + 1)
  {
    hide Times, U32, IndexAfter;
    if Guarded(w, base, last) {
      IndexExact(w, base, last);
      if base + Times(last, w.sizeLoop) < TWO32 {
        SmallWord(base + Times(last, w.sizeLoop));
      }
      assert !Guard(w, base, IndexAfter(w, last));
    }
  }

  lemma GuardedToLast(w: Plan, base: nat, last: nat)
    requires base < w.size < TWO32 && w.sizeLoop > 0 && w.sizeBlock + w.sizeLoop <= TWO32
    requires Times(last, w.sizeLoop) == Reaches(w.size - base, w.sizeLoop)
    requires Times(last, w.sizeLoop) < w.sizeBlock && base + Times(last, w.sizeLoop) >= TWO32
    ensures !CoreStays(w, base)
  {
    hide Times, U32, Reaches;
    forall j | 0 <= j < last + 1
      ensures IndexAfter(w, j) == Times(j, w.sizeLoop) && Guard(w, base, IndexAfter(w, j))
    {
      TimesMonotone(j, last, w.sizeLoop);
      SmallWord(Times(j, w.sizeLoop));
      if j < last {
        TimesMonotone(j, last - 1, w.sizeLoop);
        OneLess(last, w.sizeLoop);
        SmallWord(base + Times(j, w.sizeLoop));
      } else {
        WrapOnce(base + Times(last, w.sizeLoop));
      }
    }
    assert Guarded(w, base, last + 1) && CopyPlace(w, base, last) >= TWO32;
  }

  /**
   For every size below 2^32, and for a launch with at least the cores that the size needs: every copy stays
   inside the size if and only if the size is contained.
   */
  lemma LaunchStaysExactly(bytes: nat, coreNum: nat, maxUbSize: nat, blockDim: nat)
    requires coreNum > 0 && maxUbSize > 0 && maxUbSize % BLOCK_BYTES == 0 && RoundBlock(bytes) < TWO32
    requires PlanFor(bytes, coreNum, maxUbSize).cores <= blockDim <= coreNum
    ensures LaunchStays(Words(PlanFor(bytes, coreNum, maxUbSize)), blockDim) <==> Contained(bytes, coreNum, maxUbSize)
  {
    hide Times, PlanFor, RoundBlock, U32, CoreStays, Words, Reaches, Base;
    var p := PlanFor(bytes, coreNum, maxUbSize);
    PlanCovers(bytes, coreNum, maxUbSize);
    PlanWords(bytes, coreNum, maxUbSize);
    PlanIs(bytes, coreNum, maxUbSize);
    if p.size < BLOCK_BYTES_ONCE * coreNum || p.sizeLoop == p.size {
      OneCopyStays(p, blockDim);
      if p.size < BLOCK_BYTES_ONCE * coreNum {
        OneTimes(p.sizeBlock);
      } else {
        LastBelow(p);
      }
      OneCopyContained(p);
    } else if coreNum >= 2 {
      HalfShares(p.size, coreNum);
      LargePlan(p.size, coreNum);
      LastBelow(p);
      LargeStays(p, coreNum, blockDim);
    } else {
      WholeShare(bytes, maxUbSize);
      OneCoreStays(p);
    }
  }

  lemma OneCopyStays(p: Plan, blockDim: nat)
    requires p.sizeBlock <= p.sizeLoop < TWO32
    ensures LaunchStays(p, blockDim)
  {
    hide CoreStays, U32;
    forall b | 0 <= b < blockDim
      ensures CoreStays(p, Base(p, b))
    {
      StaysInOneRound(p, Base(p, b));
    }
  }

  lemma OneCopyContained(p: Plan)
    requires p.sizeBlock <= p.sizeLoop && p.cores > 0
    requires p.sizeLoop > 0 ==> LastShare(p) < p.size
    ensures p.sizeLoop > 0 ==> Reaches(p.size - LastShare(p), p.sizeLoop) >= p.sizeBlock
  {
    hide Times, Reaches;
    if p.sizeLoop > 0 {
      var k := ReachesIsTimes(p.size - LastShare(p), p.sizeLoop);
      OneTimes(p.sizeLoop);
      if k == 0 {
        assert false;
      }
      TimesMonotone(1, k, p.sizeLoop);
    }
  }

  lemma LastBelow(p: Plan)
    requires p.sizeBlock > 0 && p.cores == (p.size + p.sizeBlock - 1) / p.sizeBlock && p.cores > 0
    ensures LastShare(p) < p.size <= Times(p.cores, p.sizeBlock)
  {
    hide Times;
    CeilDiv(p.size, p.sizeBlock);
    OneLess(p.cores, p.sizeBlock);
  }

  lemma OneCoreStays(p: Plan)
    requires p.sizeBlock == p.size < TWO32 && p.cores == 1 && p.sizeLoop > 0
    ensures LaunchStays(p, 1) && LastShare(p) == 0
  {
    hide CoreStays, U32, Times;
    OneTimes(p.sizeBlock);
    SmallWord(0);
    StaysWithRoom(p, 0);
    forall b | 0 <= b < 1
      ensures CoreStays(p, Base(p, b))
    {
      assert b == 0;
    }
  }

  /** The plan of a large tensor: the last share starts below the size, and all shares hardly pass it. */
  lemma LargeStays(p: Plan, coreNum: nat, blockDim: nat)
    requires 1 <= p.cores <= blockDim <= coreNum && BLOCK_BYTES_ONCE * coreNum <= p.size < TWO32
    requires 0 < p.sizeLoop <= p.sizeBlock <= 0x8000_0000
    requires LastShare(p) < p.size <= Times(p.cores, p.sizeBlock)
    requires Times(coreNum, p.sizeBlock) < p.size + BLOCK_BYTES * coreNum
    ensures var m := Reaches(p.size - LastShare(p), p.sizeLoop);
            LaunchStays(p, blockDim) <==> m >= p.sizeBlock || LastShare(p) + m < TWO32
  {
    hide Times, U32, CoreStays, Reaches;
    var last := p.cores - 1;
    SmallWord(LastShare(p));
    LastCore(p, LastShare(p));
    assert Base(p, last) == LastShare(p);
    forall b | 0 <= b < blockDim && b != last
      ensures CoreStays(p, Base(p, b))
    {
      OtherCore(p, coreNum, b);
    }
    assert LaunchStays(p, blockDim) <==> CoreStays(p, Base(p, last));
  }

  lemma OtherCore(p: Plan, coreNum: nat, b: nat)
    requires 1 <= p.cores <= coreNum && b < coreNum && b != p.cores - 1
    requires BLOCK_BYTES_ONCE * coreNum <= p.size < TWO32 && p.sizeBlock <= 0x8000_0000
    requires LastShare(p) < p.size <= Times(p.cores, p.sizeBlock)
    requires Times(coreNum, p.sizeBlock) < p.size + BLOCK_BYTES * coreNum
    ensures CoreStays(p, Base(p, b))
  {
    hide Times, U32, CoreStays;
    var at := Times(b, p.sizeBlock);
    OneLess(b + 1, p.sizeBlock);
    if b < p.cores - 1 {
      TimesMonotone(b + 1, p.cores - 1, p.sizeBlock);
      SmallWord(at);
      StaysWithRoom(p, at);
    } else {
      TimesMonotone(p.cores, b, p.sizeBlock);
      TimesMonotone(b + 1, coreNum, p.sizeBlock);
      if at < TWO32 {
        SmallWord(at);
        StaysBehind(p, at);
      } else {
        WrapOnce(at);
        StaysWithRoom(p, at - TWO32);
      }
    }
  }

  // ---------------------------------------------------------- the whole launch

  lemma FrontZeroed(was: seq<Byte>, now: seq<Byte>, size: nat)
    requires size <= |was| == |now| && now[..size] == Zeros(size) && now[size..] == was[size..]
    ensures now == Splice<Byte>(was, 0, Zeros(size))
  {
    assert now == now[..size] + now[size..];
  }

  lemma ZeroArray(s: seq<Byte>)
    requires forall k :: 0 <= k < |s| ==> s[k] == 0
    ensures s == Zeros(|s|)
  {
  }

  /** The tensors of a launch are objects of their own, and large enough. */
  predicate Separate(tensors: seq<array<Byte>>, sizes: seq<nat>)
  {
    && |tensors| == |sizes|
    && (forall i, j :: 0 <= i < j < |tensors| ==> tensors[i] != tensors[j])
    && forall i :: 0 <= i < |tensors| ==> RoundBlock(sizes[i]) <= tensors[i].Length
  }

  /**
   From request to effect, for a launch on up to eight tensors with sizes of their own that are all in reach
   and contained: at most coreNum cores run, and together they clear exactly the requested bytes, rounded up to 32.
   */
  method RunMemset(sizes: seq<nat>, coreNum: nat, maxUbSize: nat, tensors: seq<array<Byte>>) returns (blockDim: nat)
    requires 0 < |sizes| <= MEMSET_MAX_TENSOR_NUM && coreNum > 0 && maxUbSize > 0 && maxUbSize % BLOCK_BYTES == 0
    requires forall i :: 0 <= i < |sizes| ==> RoundBlock(sizes[i]) < TWO32 && InReach(sizes[i], coreNum, maxUbSize)
    requires forall i :: 0 <= i < |sizes| ==> Contained(sizes[i], coreNum, maxUbSize)
    requires Separate(tensors, sizes)
    modifies tensors
    ensures 1 <= blockDim <= coreNum
    ensures forall i :: 0 <= i < |tensors| ==>
              tensors[i][..] == Splice<Byte>(old(tensors[i][..]), 0, Zeros(RoundBlock(sizes[i])))
  {
    hide Times, PlanFor, MaxOf, Zeros, Splice, InReach, LaunchEnds, Words, Contained, LaunchStays;
    ghost var cores, loops := Cores(sizes, coreNum, maxUbSize), Loops(sizes, coreNum, maxUbSize);
    var tiling := new nat[TILING_LEN](_ => 0);
    blockDim := MemsetTiling(sizes, coreNum, maxUbSize, tiling);
    var zeros := new Byte[tiling[24]](_ => 0);
    assert zeros[..] == Zeros(zeros.Length) by { ZeroArray(zeros[..]); }
    PlanCovers(sizes[0], coreNum, maxUbSize);
    assert cores[0] <= blockDim;
    ghost var words := tiling[..];
    for idx := 0 to |sizes|
      invariant tiling[..] == words && zeros[..] == Zeros(zeros.Length)
      invariant forall i :: 0 <= i < idx ==>
                  tensors[i][..] == Splice<Byte>(old(tensors[i][..]), 0, Zeros(RoundBlock(sizes[i])))
      invariant forall i :: idx <= i < |tensors| ==> tensors[i][..] == old(tensors[i][..])
    {
      assert cores[idx] <= blockDim && loops[idx] <= zeros.Length;
      ClearTensor(tiling, idx, sizes[idx], coreNum, maxUbSize, blockDim, tensors[idx], zeros);
    }
  }

  /** One tensor of the launch. */
  method ClearTensor(tiling: array<nat>, idx: nat, ghost bytes: nat, ghost coreNum: nat, ghost maxUbSize: nat,
                     blockDim: nat, tensor: array<Byte>, zeros: array<Byte>)
    requires coreNum > 0 && maxUbSize > 0 && maxUbSize % BLOCK_BYTES == 0 && RoundBlock(bytes) < TWO32
    requires InReach(bytes, coreNum, maxUbSize) && Contained(bytes, coreNum, maxUbSize)
    requires tiling.Length == TILING_LEN && Planned(tiling[..], idx, Words(PlanFor(bytes, coreNum, maxUbSize)))
    requires PlanFor(bytes, coreNum, maxUbSize).cores <= blockDim <= coreNum && RoundBlock(bytes) <= tensor.Length
    requires Words(PlanFor(bytes, coreNum, maxUbSize)).sizeLoop <= zeros.Length
    requires tensor != zeros && zeros[..] == Zeros(zeros.Length)
    modifies tensor
    ensures tensor[..] == Splice<Byte>(old(tensor[..]), 0, Zeros(RoundBlock(bytes)))
  {
    hide Times, PlanFor, Zeros, Splice, InReach, LaunchEnds, Words, Contained, LaunchStays, RoundBlock, Planned;
    ghost var p, was := PlanFor(bytes, coreNum, maxUbSize), tensor[..];
    PlanCovers(bytes, coreNum, maxUbSize);
    PlanWords(bytes, coreNum, maxUbSize);
    PlanIs(bytes, coreNum, maxUbSize);
    LaunchEndsExactly(bytes, coreNum, maxUbSize, blockDim);
    LaunchStaysExactly(bytes, coreNum, maxUbSize, blockDim);
    TimesMonotone(p.cores, blockDim, p.sizeBlock);
    CleanOnAllCores(tiling, idx, blockDim, tensor, zeros, p);
    assert tensor[..][..p.size] == tensor[..p.size] && tensor[..][p.size..] == tensor[p.size..];
    assert was[p.size..] == old(tensor[p.size..]);
    FrontZeroed(was, tensor[..], p.size);
  }
}
