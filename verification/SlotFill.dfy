/**
 The argument slots of a launch: operands are written, in order, into the slots that earlier steps
 left null. Fill is the specification of the loops; Rank says which operand a null slot receives.
 */
module SlotFill {
  import opened Bytes

  datatype Tensor = Tensor(dims: seq<int>, data: nat)

  datatype LaunchParam = LaunchParam(
    inTensors: seq<Tensor>, outTensors: seq<Tensor>, inputLens: seq<int>, outputLens: seq<int>)

  // --------------------------------------------------------- specification

  /** The slots after the values were written into the null ones, first to last. */
  function Fill(slots: seq<nat>, values: seq<nat>): (r: seq<nat>)
    ensures |r| == |slots|
  {
    if slots == [] || values == [] then slots
    else if slots[0] != 0 then [slots[0]] + Fill(slots[1..], values)
    else [values[0]] + Fill(slots[1..], values[1..])
  }

  /** The number of null slots. */
  function Free(slots: seq<nat>): nat
  {
    if slots == [] then 0 else (if slots[0] == 0 then 1 else 0) + Free(slots[1..])
  }

  /** The number of null slots before slot k. */
  function Rank(slots: seq<nat>, k: nat): nat
    requires k <= |slots|
  {
    Free(slots[..k])
  }

  lemma {:induction false} FreeSplit(a: seq<nat>, b: seq<nat>)
    ensures Free(a + b) == Free(a) + Free(b)
  {
    if a == [] {
      assert a + b == b;
    } else {
      assert (a + b)[1..] == a[1..] + b;
      FreeSplit(a[1..], b);
    }
  }

  lemma RankStep(slots: seq<nat>, k: nat)
    requires k < |slots|
    ensures Rank(slots, k + 1) == Rank(slots, k) + if slots[k] == 0 then 1 else 0
  {
    assert slots[..k + 1] == slots[..k] + [slots[k]];
    FreeSplit(slots[..k], [slots[k]]);
  }

  lemma {:induction false} RankMonotone(slots: seq<nat>, j: nat, k: nat)
    requires j <= k <= |slots|
    ensures Rank(slots, j) <= Rank(slots, k)
  {
    if j < k {
      RankMonotone(slots, j, k - 1);
      RankStep(slots, k - 1);
    }
  }

  /** Different null slots receive different operands, in slot order. */
  lemma RankStrict(slots: seq<nat>, j: nat, k: nat)
    requires j < k < |slots| && slots[j] == 0
    ensures Rank(slots, j) < Rank(slots, k)
  {
    RankStep(slots, j);
    RankMonotone(slots, j + 1, k);
  }

  /** Every operand that fits has a null slot of its own. */
  lemma {:induction false} RankOnto(slots: seq<nat>, m: nat)
    requires m < Free(slots)
    ensures exists k: nat :: k < |slots| && slots[k] == 0 && Rank(slots, k) == m
  {
    var last := |slots| - 1;
    RankStep(slots, last);
    assert slots[..last + 1] == slots;
    if slots[last] == 0 && Rank(slots, last) == m {
      return;
    }
    RankOnto(slots[..last], m);
    var k: nat :| k < last && slots[..last][k] == 0 && Rank(slots[..last], k) == m;
    assert slots[..last][..k] == slots[..k];
    assert slots[k] == 0 && Rank(slots, k) == m;
  }

  /** What each slot holds afterwards. */
  lemma {:induction false} FillAt(slots: seq<nat>, values: seq<nat>, k: nat)
    requires k < |slots|
    ensures Fill(slots, values)[k]
         == if slots[k] == 0 && Rank(slots, k) < |values| then values[Rank(slots, k)] else slots[k]
  {
    if values != [] && k > 0 {
      var tail := slots[1..];
      assert slots[..k][1..] == tail[..k - 1];
      if slots[0] != 0 {
        FillAt(tail, values, k - 1);
      } else {
        FillAt(tail, values[1..], k - 1);
      }
    }
  }

  /** A slot that is set from null to something else is one null slot fewer. */
  lemma FreeUpdate(slots: seq<nat>, k: nat, v: nat)
    requires k < |slots| && slots[k] == 0 && v != 0
    ensures Free(slots[k := v]) == Free(slots) - 1
  {
    assert slots == slots[..k] + ([slots[k]] + slots[k + 1..]);
    assert slots[k := v] == slots[..k] + ([v] + slots[k + 1..]);
    FreeSplit(slots[..k], [slots[k]] + slots[k + 1..]);
    FreeSplit(slots[..k], [v] + slots[k + 1..]);
  }

  lemma {:induction false} FreeOfNulls(n: nat)
    ensures Free(seq(n, _ => 0)) == n
  {
    if n > 0 {
      var s: seq<nat> := seq(n, _ => 0);
      assert s[1..] == seq(n - 1, _ => 0);
      FreeOfNulls(n - 1);
    }
  }

  function Sum(s: seq<nat>): nat
  {
    if s == [] then 0 else s[0] + Sum(s[1..])
  }

  function Data(tensors: seq<Tensor>): seq<nat>
  {
    seq(|tensors|, i requires 0 <= i < |tensors| => tensors[i].data)
  }

  /** The addresses of consecutive workspaces from addr on. */
  function WorkspaceAddrs(addr: nat, sizes: seq<nat>): (r: seq<nat>)
    ensures |r| == |sizes|
    decreases sizes
  {
    if sizes == [] then [] else [addr] + WorkspaceAddrs(addr + sizes[0], sizes[1..])
  }

  /** Workspace j starts at the running sum, and ends where workspace j + 1 starts. */
  lemma {:induction false} WorkspaceAt(addr: nat, sizes: seq<nat>, j: nat)
    requires j < |sizes|
    ensures WorkspaceAddrs(addr, sizes)[j] == addr + Sum(sizes[..j])
    ensures WorkspaceAddrs(addr, sizes)[j] + sizes[j] == addr + Sum(sizes[..j + 1]) <= addr + Sum(sizes)
    decreases sizes
  {
    if j > 0 {
      WorkspaceAt(addr + sizes[0], sizes[1..], j - 1);
      assert sizes[..j][1..] == sizes[1..][..j - 1];
    } else {
      assert sizes[..1][1..] == [];
    }
    assert sizes[..j + 1][1..] == sizes[1..][..j];
  }

  /** No two workspaces overlap. */
  lemma WorkspacesDisjoint(addr: nat, sizes: seq<nat>, j: nat, k: nat)
    requires j < k < |sizes|
    ensures WorkspaceAddrs(addr, sizes)[j] + sizes[j] <= WorkspaceAddrs(addr, sizes)[k]
  {
    WorkspaceAt(addr, sizes, j);
    WorkspaceAt(addr, sizes, k);
    WorkspaceAt(addr, sizes[..k], j);
    assert sizes[..k][..j + 1] == sizes[..j + 1];
  }

  /** The tensors' addresses that a list of lengths leaves as plain arguments. */
  function PlainData(tensors: seq<Tensor>, lens: seq<int>, id: nat): seq<nat>
    requires id + Flat(lens) <= |tensors|
  {
    if lens == [] then []
    else if lens[0] == 0 then [tensors[id].data] + PlainData(tensors, lens[1..], id + 1)
    else PlainData(tensors, lens[1..], id + Width(lens[0]))
  }

  /** How many tensors one entry of the lengths stands for. */
  function Width(len: int): nat
  {
    if len > 0 then len else if len == 0 then 1 else 0
  }

  function Flat(lens: seq<int>): nat
  {
    if lens == [] then 0 else Width(lens[0]) + Flat(lens[1..])
  }

  /** The lengths that are in force: with none given, every tensor is a plain argument. */
  function Lens(tensors: seq<Tensor>, lens: seq<int>): seq<int>
  {
    if |lens| > 0 then lens else seq(|tensors|, _ => 0)
  }

  lemma {:induction false} FlatOfZeros(n: nat)
    ensures Flat(seq(n, _ => 0)) == n
  {
    if n > 0 {
      var z: seq<int> := seq(n, _ => 0);
      assert z[1..] == seq(n - 1, _ => 0);
      FlatOfZeros(n - 1);
    }
  }

  lemma {:induction false} PlainDataOfZeros(tensors: seq<Tensor>, id: nat)
    requires id <= |tensors|
    ensures Flat(seq(|tensors| - id, _ => 0)) == |tensors| - id
    ensures PlainData(tensors, seq(|tensors| - id, _ => 0), id) == Data(tensors)[id..]
    decreases |tensors| - id
  {
    FlatOfZeros(|tensors| - id);
    if id < |tensors| {
      var z: seq<int> := seq(|tensors| - id, _ => 0);
      assert z[1..] == seq(|tensors| - (id + 1), _ => 0);
      PlainDataOfZeros(tensors, id + 1);
    }
  }

  /** What the inputs, outputs and workspaces of a launch put into the null slots. */
  function Operands(p: LaunchParam, addr: nat, sizes: seq<nat>): seq<nat>
  {
    Data(p.inTensors) + Data(p.outTensors) + WorkspaceAddrs(addr, sizes)
  }

  /** The tensors that the lengths stand for exist; SVector::at throws otherwise. */
  predicate LensFit(p: LaunchParam)
  {
    Flat(Lens(p.inTensors, p.inputLens)) <= |p.inTensors| && Flat(Lens(p.outTensors, p.outputLens)) <= |p.outTensors|
  }

  /** The same with tensor lists: a listed entry takes no null slot. */
  function ListOperands(p: LaunchParam, addr: nat, sizes: seq<nat>): seq<nat>
    requires LensFit(p)
  {
    PlainData(p.inTensors, Lens(p.inTensors, p.inputLens), 0)
    + PlainData(p.outTensors, Lens(p.outTensors, p.outputLens), 0)
    + WorkspaceAddrs(addr, sizes)
  }

  /** Without lengths the two ways to fill the slots agree. */
  lemma NoLensSameOperands(p: LaunchParam, addr: nat, sizes: seq<nat>)
    requires p.inputLens == [] && p.outputLens == []
    ensures LensFit(p) && ListOperands(p, addr, sizes) == Operands(p, addr, sizes)
  {
    PlainDataOfZeros(p.inTensors, 0);
    PlainDataOfZeros(p.outTensors, 0);
  }

  // --------------------------------------------------------------- methods

  predicate Pointers(values: seq<nat>)
  {
    forall i :: 0 <= i < |values| ==> values[i] < TWO64
  }

  /** Having turned s into t, the slots before idx are done; todo is still to be filled in from idx on. */
  ghost predicate Progress(s: seq<nat>, t: seq<nat>, from: nat, idx: nat, all: seq<nat>, todo: seq<nat>)
  {
    && from <= idx <= |s| == |t|
    && t[..from] == s[..from] && t[idx..] == s[idx..]
    && Fill(s[from..], all) == t[from..idx] + Fill(s[idx..], todo)
  }

  lemma FillStep(slots: seq<nat>, values: seq<nat>)
    requires slots != [] && (slots[0] == 0 ==> values != [])
    ensures Fill(slots, values)
         == if slots[0] != 0 then [slots[0]] + Fill(slots[1..], values) else [values[0]] + Fill(slots[1..], values[1..])
  {
    assert values == [] ==> slots == [slots[0]] + slots[1..];
  }

  lemma ProgressStart(s: seq<nat>, from: nat, all: seq<nat>)
    requires from <= |s|
    ensures Progress(s, s, from, from, all, all)
  {
  }

  lemma ProgressSkip(s: seq<nat>, t: seq<nat>, from: nat, idx: nat, all: seq<nat>, todo: seq<nat>)
    requires Progress(s, t, from, idx, all, todo) && idx < |t| && t[idx] != 0
    ensures Progress(s, t, from, idx + 1, all, todo)
  {
    hide Fill;
    var r := s[idx..];
    assert r == t[idx..] && r[0] == t[idx];
    FillStep(r, todo);
    assert r[1..] == s[idx + 1..] && r[1..] == t[idx + 1..];
    assert t[from..idx + 1] == t[from..idx] + [t[idx]];
  }

  lemma ProgressWrite(s: seq<nat>, t: seq<nat>, from: nat, idx: nat, all: seq<nat>, todo: seq<nat>)
    requires Progress(s, t, from, idx, all, todo) && idx < |t| && t[idx] == 0 && todo != []
    ensures Progress(s, t[idx := todo[0]], from, idx + 1, all, todo[1..])
  {
    hide Fill;
    var t', r := t[idx := todo[0]], s[idx..];
    assert r == t[idx..] && r[0] == t[idx];
    FillStep(r, todo);
    assert r[1..] == s[idx + 1..] && r[1..] == t'[idx + 1..];
    assert t'[from..idx + 1] == t[from..idx] + [todo[0]];
  }

  /** When the loop stops, either at the last slot or for want of values, only rest is left. */
  lemma ProgressEnd(s: seq<nat>, t: seq<nat>, from: nat, idx: nat, all: seq<nat>, todo: seq<nat>, rest: seq<nat>)
    requires Progress(s, t, from, idx, all, todo) && (idx == |s| || todo == rest)
    ensures Progress(s, t, from, idx, all, rest)
  {
  }

  /** Two loops after each other. */
  lemma ProgressTrans(s: seq<nat>, t: seq<nat>, u: seq<nat>, mid: nat, idx: nat, all: seq<nat>, more: seq<nat>,
                      rest: seq<nat>)
    requires Progress(s, t, 0, mid, all, more) && Progress(t, u, mid, idx, more, rest)
    ensures Progress(s, u, 0, idx, all, rest)
  {
    assert u[..idx] == u[..mid] + u[mid..idx];
    assert t[..mid] == u[..mid];
    assert s[idx..] == s[mid..][idx - mid..] == t[mid..][idx - mid..] == t[idx..];
  }

  lemma ProgressAll(s: seq<nat>, t: seq<nat>, idx: nat, all: seq<nat>)
    requires Progress(s, t, 0, idx, all, [])
    ensures t == Fill(s, all)
  {
    assert s[0..] == s;
    assert t == t[0..idx] + t[idx..];
  }

  /** One of the loops over tensors: fills slots from idx on; rest is what later loops will fill in. */
  method FillTensors(args: array<Byte>, n: nat, from: nat, tensors: seq<Tensor>, ghost rest: seq<nat>)
    returns (idx: nat)
    requires 8 * n <= args.Length && from <= n && Pointers(Data(tensors))
    modifies args
    ensures args[8 * n..] == old(args[8 * n..])
    ensures Progress(old(Slots(args[..], n)), Slots(args[..], n), from, idx, Data(tensors) + rest, rest) && idx <= n
  {
    hide Progress, Slots;
    ghost var s, values := Slots(args[..], n), Data(tensors);
    var i := 0;
    idx := from;
    ProgressStart(s, from, values + rest);
    while i < |tensors| && idx < n
      invariant i <= |tensors| && idx <= n
      invariant args[8 * n..] == old(args[8 * n..])
      invariant Progress(s, Slots(args[..], n), from, idx, values + rest, values[i..] + rest)
    {
      ghost var t, todo := Slots(args[..], n), values[i..] + rest;
      var slot := ReadSlot(args, n, idx);
      if slot != 0 {
        ProgressSkip(s, t, from, idx, values + rest, todo);
      } else {
        ProgressWrite(s, t, from, idx, values + rest, todo);
        assert todo[1..] == values[i + 1..] + rest && todo[0] == values[i];
        WriteSlot(args, n, idx, tensors[i].data);
        i := i + 1;
      }
      idx := idx + 1;
    }
    assert i == |tensors| ==> values[i..] + rest == rest;
    ProgressEnd(s, Slots(args[..], n), from, idx, values + rest, values[i..] + rest, rest);
  }

  /** The loop over workspaces. */
  method FillWorkspaces(args: array<Byte>, n: nat, from: nat, sizes: seq<nat>, addr: nat) returns (idx: nat)
    requires 8 * n <= args.Length && from <= n && addr + Sum(sizes) < TWO64
    modifies args
    ensures args[8 * n..] == old(args[8 * n..])
    ensures Progress(old(Slots(args[..], n)), Slots(args[..], n), from, idx, WorkspaceAddrs(addr, sizes), [])
  {
    hide Progress, Slots;
    ghost var s, values := Slots(args[..], n), WorkspaceAddrs(addr, sizes);
    var i, offset := 0, 0;
    idx := from;
    ProgressStart(s, from, values);
    while i < |sizes| && idx < n
      invariant i <= |sizes| && idx <= n
      invariant args[8 * n..] == old(args[8 * n..])
      invariant offset == Sum(sizes[..i])
      invariant Progress(s, Slots(args[..], n), from, idx, values, values[i..])
    {
      ghost var t, todo := Slots(args[..], n), values[i..];
      var slot := ReadSlot(args, n, idx);
      if slot != 0 {
        ProgressSkip(s, t, from, idx, values, todo);
      } else {
        ProgressWrite(s, t, from, idx, values, todo);
        assert todo[1..] == values[i + 1..] && todo[0] == values[i];
        WorkspaceAt(addr, sizes, i);
        WriteSlot(args, n, idx, addr + offset);
        offset := offset + sizes[i];
        i := i + 1;
      }
      idx := idx + 1;
    }
    assert i == |sizes| ==> values[i..] == [];
    ProgressEnd(s, Slots(args[..], n), from, idx, values, values[i..], []);
  }

  method UpdateInOutWkspArgs(args: array<Byte>, n: nat, p: LaunchParam, sizes: seq<nat>, addr: nat)
    requires 8 * n <= args.Length
    requires Pointers(Data(p.inTensors)) && Pointers(Data(p.outTensors)) && addr + Sum(sizes) < TWO64
    modifies args
    ensures args[8 * n..] == old(args[8 * n..])
    ensures Slots(args[..], n) == Fill(old(Slots(args[..], n)), Operands(p, addr, sizes))
  {
    hide Progress, Slots, Fill;
    ghost var s, ws := Slots(args[..], n), WorkspaceAddrs(addr, sizes);
    ghost var ins, outs, all := Data(p.inTensors), Data(p.outTensors), Operands(p, addr, sizes);
    assert all == ins + (outs + ws);
    var mid := FillTensors(args, n, 0, p.inTensors, outs + ws);
    ghost var t := Slots(args[..], n);
    var idx := FillTensors(args, n, mid, p.outTensors, ws);
    ghost var u := Slots(args[..], n);
    ProgressTrans(s, t, u, mid, idx, all, outs + ws, ws);
    var end := FillWorkspaces(args, n, idx, sizes, addr);
    ghost var v := Slots(args[..], n);
    ProgressTrans(s, u, v, idx, end, all, ws, []);
    ProgressAll(s, v, end, all);
  }

  lemma FreeTail(t: seq<nat>, idx: nat)
    requires idx < |t|
    ensures Free(t[idx..]) == (if t[idx] == 0 then 1 else 0) + Free(t[idx + 1..])
  {
    assert t[idx..][1..] == t[idx + 1..];
  }

  lemma PlainDataStep(tensors: seq<Tensor>, lens: seq<int>, i: nat, id: nat)
    requires i < |lens| && id + Flat(lens[i..]) <= |tensors|
    ensures id + Width(lens[i]) + Flat(lens[i + 1..]) <= |tensors|
    ensures PlainData(tensors, lens[i..], id)
         == (if lens[i] == 0 then [tensors[id].data] else []) + PlainData(tensors, lens[i + 1..], id + Width(lens[i]))
  {
    assert lens[i..][1..] == lens[i + 1..];
  }

  /**
   One of the loops of UpdateArgsWithTensorList, which does not compare argsIdx with argsNum: it stays
   inside because a null slot is left over. A slot that is not null moves argsIdx only; a listed entry moves i only.
   */
  method PlaceTensors(args: array<Byte>, n: nat, from: nat, tensors: seq<Tensor>, lens: seq<int>, ghost rest: seq<nat>)
    returns (argsIdx: nat)
    requires 8 * n <= args.Length && from <= n && Pointers(Data(tensors))
    requires Flat(Lens(tensors, lens)) <= |tensors|
    requires Free(Slots(args[..], n)[from..]) > |PlainData(tensors, Lens(tensors, lens), 0)| + |rest|
    modifies args
    ensures args[8 * n..] == old(args[8 * n..])
    ensures Progress(old(Slots(args[..], n)), Slots(args[..], n), from, argsIdx,
                     PlainData(tensors, Lens(tensors, lens), 0) + rest, rest)
    ensures argsIdx <= n && Free(Slots(args[..], n)[argsIdx..]) > |rest|
  {
    hide Progress, Slots, Free, PlainData, Lens, Flat;
    ghost var s, force := Slots(args[..], n), Lens(tensors, lens);
    ghost var all := PlainData(tensors, force, 0) + rest;
    var num := if |lens| > 0 then |lens| else |tensors|;
    var i, tensorId := 0, 0;
    argsIdx := from;
    ProgressStart(s, from, all);
    LensAt(tensors, lens);
    assert force[0..] == force;
    while i < num
      invariant i <= num == |force| && argsIdx <= n
      invariant args[8 * n..] == old(args[8 * n..])
      invariant tensorId + Flat(force[i..]) <= |tensors|
      invariant Progress(s, Slots(args[..], n), from, argsIdx, all, PlainData(tensors, force[i..], tensorId) + rest)
      invariant Free(Slots(args[..], n)[argsIdx..]) > |PlainData(tensors, force[i..], tensorId)| + |rest|
      decreases n - argsIdx + num - i
    {
      ghost var t, todo := Slots(args[..], n), PlainData(tensors, force[i..], tensorId) + rest;
      SomeSlotLeft(t, argsIdx);
      FreeTail(t, argsIdx);
      var slot := ReadSlot(args, n, argsIdx);
      if slot != 0 {
        ProgressSkip(s, t, from, argsIdx, all, todo);
        argsIdx := argsIdx + 1;
        continue;
      }
      var len := if |lens| > 0 then lens[i] else 0;
      assert len == force[i];
      PlainDataStep(tensors, force, i, tensorId);
      if len > 0 {
        tensorId := tensorId + len;
      } else if len == 0 {
        ProgressWrite(s, t, from, argsIdx, all, todo);
        assert todo[1..] == PlainData(tensors, force[i + 1..], tensorId + 1) + rest;
        assert Data(tensors)[tensorId] == tensors[tensorId].data;
        WriteSlot(args, n, argsIdx, tensors[tensorId].data);
        assert Slots(args[..], n)[argsIdx + 1..] == t[argsIdx + 1..];
        tensorId := tensorId + 1;
        argsIdx := argsIdx + 1;
      }
      assert len != 0 ==> todo == PlainData(tensors, force[i + 1..], tensorId) + rest;
      i := i + 1;
    }
    PlainDataDone(tensors, force[i..], tensorId);
    ProgressEnd(s, Slots(args[..], n), from, argsIdx, all, PlainData(tensors, force[i..], tensorId) + rest, rest);
  }

  lemma LensAt(tensors: seq<Tensor>, lens: seq<int>)
    ensures |Lens(tensors, lens)| == if |lens| > 0 then |lens| else |tensors|
    ensures forall i :: 0 <= i < |Lens(tensors, lens)| ==> Lens(tensors, lens)[i] == if |lens| > 0 then lens[i] else 0
  {
  }

  lemma SomeSlotLeft(t: seq<nat>, idx: nat)
    requires idx <= |t| && Free(t[idx..]) > 0
    ensures idx < |t|
  {
  }

  lemma PlainDataDone(tensors: seq<Tensor>, lens: seq<int>, id: nat)
    requires lens == [] && id + Flat(lens) <= |tensors|
    ensures PlainData(tensors, lens, id) == []
  {
  }

  method UpdateArgsWithTensorList(args: array<Byte>, n: nat, p: LaunchParam, sizes: seq<nat>, addr: nat)
    requires 8 * n <= args.Length && LensFit(p)
    requires Pointers(Data(p.inTensors)) && Pointers(Data(p.outTensors)) && addr + Sum(sizes) < TWO64
    requires Free(Slots(args[..], n)) > |ListOperands(p, addr, sizes)|
    modifies args
    ensures args[8 * n..] == old(args[8 * n..])
    ensures Slots(args[..], n) == Fill(old(Slots(args[..], n)), ListOperands(p, addr, sizes))
  {
    hide Progress, Slots, Fill, PlainData, Lens, Free;
    ghost var s, ws := Slots(args[..], n), WorkspaceAddrs(addr, sizes);
    ghost var all := ListOperands(p, addr, sizes);
    ghost var ins := PlainData(p.inTensors, Lens(p.inTensors, p.inputLens), 0);
    ghost var outs := PlainData(p.outTensors, Lens(p.outTensors, p.outputLens), 0);
    assert all == ins + (outs + ws) && s[0..] == s;
    var mid := PlaceTensors(args, n, 0, p.inTensors, p.inputLens, outs + ws);
    ghost var t := Slots(args[..], n);
    var idx := PlaceTensors(args, n, mid, p.outTensors, p.outputLens, ws);
    ghost var u := Slots(args[..], n);
    ProgressTrans(s, t, u, mid, idx, all, outs + ws, ws);
    var end := FillWorkspaces(args, n, idx, sizes, addr);
    ghost var v := Slots(args[..], n);
    ProgressTrans(s, u, v, idx, end, all, ws, []);
    ProgressAll(s, v, end, all);
  }

  // ------------------------------------------------------- where things go

  /** The number of plain arguments in a list of lengths. */
  function Plain(lens: seq<int>): nat
  {
    if lens == [] then 0 else (if lens[0] == 0 then 1 else 0) + Plain(lens[1..])
  }

  lemma {:induction false} PlainDataAt(tensors: seq<Tensor>, lens: seq<int>, id: nat, k: nat)
    requires id + Flat(lens) <= |tensors| && k < |lens|
    ensures |PlainData(tensors, lens, id)| == Plain(lens)
    ensures id + Flat(lens[..k]) + Width(lens[k]) <= |tensors|
    ensures lens[k] == 0 ==> Plain(lens[..k]) < Plain(lens)
    ensures lens[k] == 0 ==> PlainData(tensors, lens, id)[Plain(lens[..k])] == tensors[id + Flat(lens[..k])].data
  {
    if k > 0 {
      PlainDataAt(tensors, lens[1..], id + Width(lens[0]), k - 1);
      assert lens[..k][1..] == lens[1..][..k - 1];
    } else if |lens| > 1 {
      PlainDataAt(tensors, lens[1..], id + Width(lens[0]), 0);
    }
  }

  lemma {:induction false} PlainSplit(a: seq<int>, b: seq<int>)
    ensures Plain(a + b) == Plain(a) + Plain(b)
  {
    if a == [] {
      assert a + b == b;
    } else {
      assert (a + b)[1..] == a[1..] + b;
      PlainSplit(a[1..], b);
    }
  }

  /** Exactly the slots of the listed entries are taken. */
  predicate OnlyListsTaken(slots: seq<nat>, lens: seq<int>)
  {
    |lens| <= |slots| && forall k :: 0 <= k < |slots| ==> (slots[k] != 0 <==> k < |lens| && lens[k] != 0)
  }

  lemma {:induction false} RankIsPlain(slots: seq<nat>, lens: seq<int>)
    requires OnlyListsTaken(slots, lens) && |slots| == |lens|
    ensures Free(slots) == Plain(lens)
  {
    if lens != [] {
      assert (slots[0] != 0) <==> lens[0] != 0;
      forall k | 0 <= k < |slots[1..]|
        ensures slots[1..][k] != 0 <==> lens[1..][k] != 0
      {
        assert slots[k + 1] != 0 <==> lens[k + 1] != 0;
      }
      RankIsPlain(slots[1..], lens[1..]);
    }
  }

  lemma RankInLens(slots: seq<nat>, lens: seq<int>, k: nat)
    requires OnlyListsTaken(slots, lens) && k <= |slots|
    ensures Rank(slots, k) == if k <= |lens| then Plain(lens[..k]) else Plain(lens) + k - |lens|
  {
    if k <= |lens| {
      assert OnlyListsTaken(slots[..k], lens[..k]);
      RankIsPlain(slots[..k], lens[..k]);
    } else {
      RankInLens(slots, lens, k - 1);
      RankStep(slots, k - 1);
      assert lens[..|lens|] == lens;
    }
  }

  /** The lengths of all inputs, then all outputs: entry k belongs to the kernel's argument k. */
  function AllLens(p: LaunchParam): seq<int>
  {
    Lens(p.inTensors, p.inputLens) + Lens(p.outTensors, p.outputLens)
  }

  /** The address that belongs at argument k, which is not a list. */
  function LogicalOperand(p: LaunchParam, k: nat): nat
    requires LensFit(p) && k < |AllLens(p)| && AllLens(p)[k] == 0
  {
    var ins, outs := Lens(p.inTensors, p.inputLens), Lens(p.outTensors, p.outputLens);
    if k < |ins| then
      PlainDataAt(p.inTensors, ins, 0, k);
      p.inTensors[Flat(ins[..k])].data
    else
      PlainDataAt(p.outTensors, outs, 0, k - |ins|);
      p.outTensors[Flat(outs[..k - |ins|])].data
  }

  lemma PlainCount(tensors: seq<Tensor>, lens: seq<int>)
    requires Flat(lens) <= |tensors|
    ensures |PlainData(tensors, lens, 0)| == Plain(lens)
  {
    if lens != [] {
      PlainDataAt(tensors, lens, 0, 0);
    }
  }

  /** The operand that argument k receives, by counting the plain arguments before it. */
  lemma OperandOfArgument(p: LaunchParam, addr: nat, sizes: seq<nat>, k: nat)
    requires LensFit(p) && k < |AllLens(p)| && AllLens(p)[k] == 0
    ensures Plain(AllLens(p)[..k]) < |ListOperands(p, addr, sizes)|
    ensures ListOperands(p, addr, sizes)[Plain(AllLens(p)[..k])] == LogicalOperand(p, k)
  {
    hide Lens, Plain, PlainData, WorkspaceAddrs, Flat;
    var ins, outs := Lens(p.inTensors, p.inputLens), Lens(p.outTensors, p.outputLens);
    PlainCount(p.inTensors, ins);
    PlainCount(p.outTensors, outs);
    if k < |ins| {
      assert AllLens(p)[..k] == ins[..k];
      PlainDataAt(p.inTensors, ins, 0, k);
    } else {
      var j := k - |ins|;
      assert AllLens(p)[..k] == ins + outs[..j];
      PlainSplit(ins, outs[..j]);
      PlainDataAt(p.outTensors, outs, 0, j);
    }
  }

  lemma OperandCount(p: LaunchParam, addr: nat, sizes: seq<nat>)
    requires LensFit(p)
    ensures |ListOperands(p, addr, sizes)| == Plain(AllLens(p)) + |sizes|
  {
    PlainSplit(Lens(p.inTensors, p.inputLens), Lens(p.outTensors, p.outputLens));
    PlainCount(p.inTensors, Lens(p.inTensors, p.inputLens));
    PlainCount(p.outTensors, Lens(p.outTensors, p.outputLens));
  }

  lemma WorkspaceOperand(p: LaunchParam, addr: nat, sizes: seq<nat>, j: nat)
    requires LensFit(p) && j < |sizes|
    ensures Plain(AllLens(p)) + j < |ListOperands(p, addr, sizes)|
    ensures ListOperands(p, addr, sizes)[Plain(AllLens(p)) + j] == WorkspaceAddrs(addr, sizes)[j]
  {
    OperandCount(p, addr, sizes);
  }

  /** With only the lists' slots taken, every argument lands at its own index, and the workspaces follow. */
  lemma ListsKeepLogicalIndex(slots: seq<nat>, p: LaunchParam, addr: nat, sizes: seq<nat>, k: nat)
    requires LensFit(p) && OnlyListsTaken(slots, AllLens(p)) && k < |slots|
    ensures Fill(slots, ListOperands(p, addr, sizes))[k]
         == if k < |AllLens(p)| then (if AllLens(p)[k] == 0 then LogicalOperand(p, k) else slots[k])
            else if k - |AllLens(p)| < |sizes| then addr + Sum(sizes[..k - |AllLens(p)|])
            else 0
  {
    hide LogicalOperand, AllLens, Plain, Fill, Rank;
    var lens, values := AllLens(p), ListOperands(p, addr, sizes);
    FillAt(slots, values, k);
    RankInLens(slots, lens, k);
    OperandCount(p, addr, sizes);
    if k < |lens| {
      if lens[k] == 0 {
        OperandOfArgument(p, addr, sizes, k);
      }
    } else if k - |lens| < |sizes| {
      assert lens[..|lens|] == lens;
      WorkspaceAt(addr, sizes, k - |lens|);
      WorkspaceOperand(p, addr, sizes, k - |lens|);
    }
  }

  // ----------------------------------------------------------- preset slots

  /** Slots written before the operands: constant tensors, and the hardware-sync address. */
  function Preset(slots: seq<nat>, idxs: seq<nat>, addrs: seq<nat>): (r: seq<nat>)
    requires |idxs| == |addrs| && forall j :: 0 <= j < |idxs| ==> idxs[j] < |slots|
    ensures |r| == |slots|
    decreases idxs
  {
    if idxs == [] then slots
    else Preset(slots[idxs[0] := addrs[0]], idxs[1..], addrs[1..])
  }

  predicate Distinct(s: seq<nat>)
  {
    forall j, k :: 0 <= j < k < |s| ==> s[j] != s[k]
  }

  lemma {:induction false} PresetAt(slots: seq<nat>, idxs: seq<nat>, addrs: seq<nat>, k: nat)
    requires |idxs| == |addrs| && (forall j :: 0 <= j < |idxs| ==> idxs[j] < |slots|)
    requires k < |slots| && k !in idxs
    ensures Preset(slots, idxs, addrs)[k] == slots[k]
    decreases idxs
  {
    if idxs != [] {
      PresetAt(slots[idxs[0] := addrs[0]], idxs[1..], addrs[1..], k);
    }
  }

  /** Each preset slot keeps its address, and the number of null slots drops by the number of presets. */
  lemma {:induction false} PresetHolds(slots: seq<nat>, idxs: seq<nat>, addrs: seq<nat>)
    requires |idxs| == |addrs| && Distinct(idxs)
    requires forall j :: 0 <= j < |idxs| ==> idxs[j] < |slots| && slots[idxs[j]] == 0 && addrs[j] != 0
    ensures forall j :: 0 <= j < |idxs| ==> Preset(slots, idxs, addrs)[idxs[j]] == addrs[j]
    ensures Free(Preset(slots, idxs, addrs)) == Free(slots) - |idxs|
    decreases idxs
  {
    if idxs != [] {
      var s1 := slots[idxs[0] := addrs[0]];
      FreeUpdate(slots, idxs[0], addrs[0]);
      PresetHolds(s1, idxs[1..], addrs[1..]);
      PresetAt(s1, idxs[1..], addrs[1..], idxs[0]);
      forall j | 0 <= j < |idxs|
        ensures Preset(slots, idxs, addrs)[idxs[j]] == addrs[j]
      {
        if j > 0 {
          assert idxs[1..][j - 1] == idxs[j] && addrs[1..][j - 1] == addrs[j];
        }
      }
    }
  }

  /** After the presets, the null slots are exactly the others. */
  lemma PresetsOccupy(n: nat, idxs: seq<nat>, addrs: seq<nat>, k: nat)
    requires |idxs| == |addrs| && Distinct(idxs)
    requires forall j :: 0 <= j < |idxs| ==> idxs[j] < n && addrs[j] != 0
    requires k < n
    ensures Preset(seq(n, _ => 0), idxs, addrs)[k] != 0 <==> k in idxs
    ensures Free(Preset(seq(n, _ => 0), idxs, addrs)) == n - |idxs|
  {
    var nulls: seq<nat> := seq(n, _ => 0);
    FreeOfNulls(n);
    PresetHolds(nulls, idxs, addrs);
    if k in idxs {
      var j :| 0 <= j < |idxs| && idxs[j] == k;
      assert Preset(nulls, idxs, addrs)[idxs[j]] == addrs[j];
    } else {
      PresetAt(nulls, idxs, addrs, k);
    }
  }

  /** Filling with one operand fewer than there are null slots, the last of which is the last slot. */
  lemma FillAllButLast(slots: seq<nat>, values: seq<nat>, k: nat)
    requires Free(slots) == |values| + 1 && k < |slots| && slots[|slots| - 1] == 0
    ensures Fill(slots, values)[|slots| - 1] == 0
    ensures slots[k] != 0 ==> Fill(slots, values)[k] == slots[k]
    ensures slots[k] == 0 && k < |slots| - 1 ==>
              Rank(slots, k) < |values| && Fill(slots, values)[k] == values[Rank(slots, k)]
  {
    hide Fill, Rank, Free;
    var last := |slots| - 1;
    FillAt(slots, values, k);
    FillAt(slots, values, last);
    RankOfLast(slots);
    if slots[k] == 0 && k < last {
      RankStrict(slots, k, last);
    }
  }

  lemma RankOfLast(slots: seq<nat>)
    requires slots != []
    ensures Free(slots) == Rank(slots, |slots| - 1) + if slots[|slots| - 1] == 0 then 1 else 0
  {
    RankStep(slots, |slots| - 1);
    assert slots[..|slots|] == slots;
  }

  /**
   With the argument count exact, filling is a bijection: the presets stay, slot n - 1 is left null, and
   every other slot holds the operand whose number is its rank.
   */
  lemma FillingIsABijection(n: nat, idxs: seq<nat>, addrs: seq<nat>, values: seq<nat>, k: nat)
    requires |idxs| == |addrs| && Distinct(idxs) && n == |idxs| + |values| + 1
    requires forall j :: 0 <= j < |idxs| ==> idxs[j] < n - 1 && addrs[j] != 0
    requires k < n
    ensures var slots := Preset(seq(n, _ => 0), idxs, addrs);
            && Fill(slots, values)[n - 1] == 0
            && (k in idxs ==> Fill(slots, values)[k] == slots[k] != 0)
            && (k !in idxs && k < n - 1 ==>
                  Rank(slots, k) < |values| && Fill(slots, values)[k] == values[Rank(slots, k)])
  {
    hide Fill, Rank, Free, Preset;
    PresetsOccupy(n, idxs, addrs, n - 1);
    PresetsOccupy(n, idxs, addrs, k);
    FillAllButLast(Preset(seq(n, _ => 0), idxs, addrs), values, k);
  }
}
