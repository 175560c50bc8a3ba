/** Blocks on which the scheduler of ReorderMemAccess.cpp exchanges clashing instructions, and what comes of it. */
module ClashingBlocks {
  import opened Words
  import opened Bytes
  import opened Ir
  import opened Scheduling
  import opened Reordering
  import opened Clashes

  // ---- a load passes a store ----

  /** A dependency stays in order; what waits for nothing may not be left behind by a change to another region. */
  lemma EarlyPart(insts: seq<Value>, order: seq<nat>, k: nat, i: nat)
    requires IsSchedule(insts, order) && ChangesOnlyIfForced(insts, order) && k < |order| && order[k] < |insts|
    requires i < |insts| && i !in order[..k] && forall j :: 0 <= j < i && j !in order[..k] ==> !Edge(insts, j, i)
    ensures Forced(insts, order[..k], GetBlockType(insts[order[k]]))
    ensures var t := GetBlockType(insts[order[k]]);
            t in {Heap, Stack} && t != LastRegion(insts, order[..k]) ==> GetBlockType(insts[i]) == t
  {
    hide GetBlockType, LastRegion, IsSchedule, CheckDom;
  }

  const PointerLoad := LoadInst(0, GlobalVar("g"), 8)
  const SevenStore := StoreInst(1, Constant(7), PointerLoad, 1)
  const StackLoad := LoadInst(3, AllocaInst(2), 1)

  /** A store through a pointer kept in a global variable, then a load from the stack. */
  const StoreBlock := [PointerLoad, SevenStore, StackLoad]

  lemma StoreBlockKinds()
    ensures GetBlockType(PointerLoad) == GetBlockType(SevenStore) == Heap && GetBlockType(StackLoad) == Stack
    ensures Edge(StoreBlock, 0, 1) && !Edge(StoreBlock, 0, 2) && !Edge(StoreBlock, 1, 2)
    ensures Clash(SevenStore, StackLoad)
  {
  }

  /** The store is a heap instruction for the blocking, but an access of unknown region for the dependencies. */
  lemma StoreIsPassed(order: seq<nat>)
    requires IsSchedule(StoreBlock, order) && ChangesOnlyIfForced(StoreBlock, order)
    ensures order == [2, 0, 1]
  {
    StoreBlockKinds();
    ScheduleLength(StoreBlock, order);
    hide Edge, GetBlockType;
    if order[0] == 0 {
      EarlyPart(StoreBlock, order, 0, 2);
    }
    assert 0 in order && 1 in order && 2 in order;
  }

  // ---- running the two orders ----

  /** states are what the instructions of vs go through one after the other. */
  ghost predicate GoesThrough(m: Meaning, vs: seq<Value>, states: seq<State>) {
    && |states| == |vs| + 1 && AllInsts(vs)
    && forall i :: 0 <= i < |vs| ==> Step(m, vs[i], states[i]) == Some(states[i + 1])
  }

  lemma {:induction false} RunThrough(m: Meaning, vs: seq<Value>, states: seq<State>)
    requires GoesThrough(m, vs, states)
    ensures Run(m, vs, states[0]) == Some(states[|vs|])
    ensures (forall i :: 0 <= i < |vs| ==> RightlyClassified(m, vs[i], Inputs(m, states[i].regs, vs[i]), states[i].world)) ==>
              ClassifiedRun(m, vs, states[0])
  {
    hide Step, RightlyClassified, Inputs;
    if vs != [] {
      assert GoesThrough(m, vs[1..], states[1..]);
      RunThrough(m, vs[1..], states[1..]);
    }
  }

  /** A load of width n that finds the n low bytes of x. */
  lemma LoadFinds(m: Meaning, v: Value, s: State, addr: Word, x: Word)
    requires v.LoadInst? && v.width in {1, 8} && (v.width == 1 ==> x < 256)
    requires ValueOf(m, s.regs, v.ptr) == addr
    requires Accessible(s.world.mem, addr, v.width) && ReadBytes(s.world.mem, addr, v.width) == LowBytes(v.width, x)
    ensures Inputs(m, s.regs, v) == [addr]
    ensures Step(m, v, s) == Some(State(s.regs[v.id := x], s.world))
  {
    assert Pow256(8) == W64 by {
      assert Pow256(4) == 0x1_0000_0000;
      Pow256Add(4, 4);
    }
    assert Pow256(1) == 256;
    LoadOfStore(v.width, x);
    DivModUnique(x, Pow256(v.width), 0, x);
    DivModUnique(x, W64, 0, x);
    hide Pow256, Number, LowBytes, ReadBytes;
  }

  /** What a finished run leaves in a register. */
  function ResultOf(id: nat, r: Option<State>): Option<Word> {
    if r.Some? && id in r.value.regs then Some(r.value.regs[id]) else None
  }

  /** The back end puts the eight bytes of the global at 10232; the stack objects of main lie below, from 10224 on. */
  const StoreMeaning := Meaning(
    (v: Value) => if v.Constant? then v.word else 10232,
    (_, _) => None,
    (_, _, _) => None,
    (_, _) => None,
    i => 10224 <= i < 10232)

  /** The global points to the stack object at 10224, which holds x. */
  function PointedState(x: Byte): State {
    State(map[2 := 10224], World(Placed(10232, LowBytes(8, 10224))[10224 := x], map[], 10224, []))
  }

  lemma OneByte(x: Byte)
    ensures LowBytes(1, x) == [x]
  {
  }

  lemma PlacedBytes(addr: nat, bs: seq<Byte>, at: nat, x: Byte)
    requires at < addr
    ensures var mem := Placed(addr, bs)[at := x];
            && Accessible(mem, addr, |bs|) && ReadBytes(mem, addr, |bs|) == bs
            && Accessible(mem, at, 1) && ReadBytes(mem, at, 1) == [x]
            && forall y: Byte :: WriteBytes(mem, at, [y]) == Placed(addr, bs)[at := y]
  {
    hide Placed;
    var mem := Placed(addr, bs)[at := x];
    assert ReadBytes(mem, addr, |bs|) == bs;
    forall y: Byte
      ensures WriteBytes(mem, at, [y]) == Placed(addr, bs)[at := y]
    {
      assert forall i :: i in mem <==> i in Placed(addr, bs)[at := y];
    }
  }

  lemma PointedBytes(x: Byte)
    ensures Accessible(PointedState(x).world.mem, 10232, 8) && ReadBytes(PointedState(x).world.mem, 10232, 8) == LowBytes(8, 10224)
    ensures Accessible(PointedState(x).world.mem, 10224, 1) && ReadBytes(PointedState(x).world.mem, 10224, 1) == [x] == LowBytes(1, x)
    ensures PointedState(x).world.(mem := WriteBytes(PointedState(x).world.mem, 10224, [7])) == PointedState(7).world
  {
    hide LowBytes, Placed;
    OneByte(x);
    PlacedBytes(10232, LowBytes(8, 10224), 10224, x);
    hide ReadBytes, WriteBytes;
  }

  lemma StoreSeven(s: State)
    requires 0 in s.regs && s.regs[0] == 10224 && s.world == PointedState(0).world
    ensures Step(StoreMeaning, SevenStore, s) == Some(State(s.regs, PointedState(7).world))
  {
    hide PointedState, WriteBytes, Placed;
    PointedBytes(0);
    assert LowBytes(1, 7) == [7];
    hide LowBytes;
  }

  /** In the block's own order the load finds 7. */
  lemma StoreBlockRuns()
    ensures AllInsts(StoreBlock) && ClassifiedRun(StoreMeaning, StoreBlock, PointedState(0))
    ensures ResultOf(3, Run(StoreMeaning, StoreBlock, PointedState(0))) == Some(7)
  {
    hide Step, Run, ClassifiedRun, Placed, LowBytes, ReadBytes, WriteBytes;
    var m, s := StoreMeaning, PointedState(0);
    PointedBytes(0);
    PointedBytes(7);
    LoadFinds(m, PointerLoad, s, 10232, 10224);
    var s1 := State(s.regs[0 := 10224], s.world);
    StoreSeven(s1);
    var s2 := State(s1.regs, PointedState(7).world);
    LoadFinds(m, StackLoad, s2, 10224, 7);
    hide PointedState, ValueOf;
    var s3 := State(s2.regs[3 := 7], s2.world);
    RunThrough(m, StoreBlock, [s, s1, s2, s3]);
  }

  /** In the scheduled order it finds what was there before. */
  lemma ScheduledStoreRuns()
    ensures AllInsts([StackLoad, PointerLoad, SevenStore])
    ensures ResultOf(3, Run(StoreMeaning, [StackLoad, PointerLoad, SevenStore], PointedState(0))) == Some(0)
  {
    hide Step, Run, Placed, LowBytes, ReadBytes, WriteBytes;
    var m, s := StoreMeaning, PointedState(0);
    PointedBytes(0);
    LoadFinds(m, StackLoad, s, 10224, 0);
    var s1 := State(s.regs[3 := 0], s.world);
    LoadFinds(m, PointerLoad, s1, 10232, 10224);
    var s2 := State(s1.regs[0 := 10224], s.world);
    StoreSeven(s2);
    hide PointedState, ValueOf;
    var s3 := State(s2.regs, PointedState(7).world);
    RunThrough(m, [StackLoad, PointerLoad, SevenStore], [s, s1, s2, s3]);
  }

  lemma StoreBlockWellFormed()
    ensures WellFormed(StoreBlock, 0)
  {
    assert Operands(PointerLoad) == [GlobalVar("g")];
    assert Operands(SevenStore) == [Constant(7), PointerLoad];
    assert Operands(StackLoad) == [AllocaInst(2)];
    hide Operands;
  }

  /** The pass is not sound for clashing instructions: on this rightly classified block every order the scheduler can
      return makes the load read the byte before the store instead of after it. */
  lemma UnclassifiedStoreIsPassed(order: seq<nat>)
    requires IsSchedule(StoreBlock, order) && ChangesOnlyIfForced(StoreBlock, order)
    ensures order == [2, 0, 1] && !KeepsClashes(StoreBlock, order)
    ensures WellFormed(StoreBlock, 0) && AllInsts(Pick(StoreBlock, order))
    ensures ClassifiedRun(StoreMeaning, StoreBlock, PointedState(0))
    ensures ResultOf(3, Run(StoreMeaning, StoreBlock, PointedState(0))) == Some(7)
    ensures ResultOf(3, Run(StoreMeaning, Pick(StoreBlock, order), PointedState(0))) == Some(0)
  {
    hide Run, ClassifiedRun, Clash, PointedState, IsSchedule, ChangesOnlyIfForced;
    StoreIsPassed(order);
    StoreBlockWellFormed();
    StoreBlockKinds();
    StoreBlockRuns();
    ScheduledStoreRuns();
    assert Pick(StoreBlock, order) == [StackLoad, PointerLoad, SevenStore];
    assert Clash(StoreBlock[order[2]], StoreBlock[order[0]]);
  }

  // ---- a free passes a load of the block it frees ----

  const IndexLoad := LoadInst(0, GlobalVar("g"), 8)
  const SlotAddress := GepInst(1, AllocaInst(9), [IndexLoad])
  const SlotLoad := LoadInst(2, SlotAddress, 8)
  const BlockLoad := LoadInst(3, SlotLoad, 1)
  const FreeBlock := CallInst(4, "free", [OtherInst(10, 0, [])])

  /** A pointer is read from an indexed slot on the stack and used, and then its block is freed. */
  const FreeingBlock := [IndexLoad, SlotAddress, SlotLoad, BlockLoad, FreeBlock]

  lemma FreeingBlockKinds()
    ensures GetBlockType(IndexLoad) == GetBlockType(FreeBlock) == Heap
    ensures GetBlockType(SlotAddress) == GetBlockType(SlotLoad) == GetBlockType(BlockLoad) == Stack
    ensures Edge(FreeingBlock, 0, 1) && Edge(FreeingBlock, 1, 2) && Edge(FreeingBlock, 2, 3)
    ensures forall j: nat :: !Edge(FreeingBlock, j, 4)
    ensures Clash(BlockLoad, FreeBlock)
  {
    FreeIsUnordered(IndexLoad);
    FreeIsUnordered(SlotAddress);
    FreeIsUnordered(SlotLoad);
    FreeIsUnordered(BlockLoad);
    hide CheckDom;
    assert CheckDom(IndexLoad, SlotAddress) && CheckDom(SlotAddress, SlotLoad) && CheckDom(SlotLoad, BlockLoad) by {
      OperandsFirst(IndexLoad, SlotAddress);
      OperandsFirst(SlotAddress, SlotLoad);
      OperandsFirst(SlotLoad, BlockLoad);
    }
  }

  lemma OperandsFirst(a: Value, b: Value)
    requires a in Operands(b)
    ensures CheckDom(a, b)
  {
  }

  /** A malloc or free is ordered with its operands and users only. */
  lemma AllocationEdges(a: Value, b: Value)
    requires IsAllocation(a) || IsAllocation(b)
    ensures CheckDom(a, b) <==> a in Operands(b)
  {
  }

  lemma FreeIsUnordered(a: Value)
    requires a != OtherInst(10, 0, [])
    ensures !CheckDom(a, FreeBlock)
  {
    AllocationEdges(a, FreeBlock);
  }

  lemma PositionOf(insts: seq<Value>, order: seq<nat>, i: nat) returns (p: nat)
    requires IsSchedule(insts, order) && i < |insts|
    ensures p < |order| && order[p] == i
  {
    hide Edge;
    assert i in order;
    p :| p < |order| && order[p] == i;
  }

  lemma PositionAfter(insts: seq<Value>, order: seq<nat>, i: nat, p: nat, j: nat) returns (q: nat)
    requires IsSchedule(insts, order) && p < |order| && order[p] == i && j < |insts| && j != i && Edge(insts, i, j)
    ensures p < q < |order| && order[q] == j
  {
    q := PositionOf(insts, order, j);
    hide Edge;
  }

  lemma Positions(insts: seq<Value>, order: seq<nat>, i: nat, j: nat) returns (p: nat, q: nat)
    requires IsSchedule(insts, order) && i < j < |insts| && Edge(insts, i, j)
    ensures p < q < |order| && order[p] == i && order[q] == j
  {
    hide Edge, IsSchedule;
    p := PositionOf(insts, order, i);
    q := PositionAfter(insts, order, i, p, j);
  }

  lemma FirstRegion(insts: seq<Value>, i: nat)
    requires i < |insts| && GetBlockType(insts[i]) in {Heap, Stack}
    ensures LastRegion(insts, [i]) == GetBlockType(insts[i])
  {
    hide GetBlockType;
  }

  lemma FreeIsEarly(order: seq<nat>)
    requires IsSchedule(FreeingBlock, order) && ChangesOnlyIfForced(FreeingBlock, order)
    ensures order == [0, 4, 1, 2, 3] || order == [4, 0, 1, 2, 3]
  {
    hide Edge, GetBlockType, IsSchedule, ChangesOnlyIfForced;
    FreeingBlockKinds();
    ScheduleLength(FreeingBlock, order);
    var p0, p1 := Positions(FreeingBlock, order, 0, 1);
    var p2 := PositionAfter(FreeingBlock, order, 1, p1, 2);
    var p3 := PositionAfter(FreeingBlock, order, 2, p2, 3);
    var p4 := PositionOf(FreeingBlock, order, 4);
    if p1 < p4 {
      assert p0 == 0 && p1 == 1;
      assert order[..1] == [0];
      EarlyPart(FreeingBlock, order, 1, 4);
      FirstRegion(FreeingBlock, 0);
    }
  }

  /** The global at 10232 is an index; the stack object at 10224 holds the pointer. */
  const FreeingMeaning := Meaning(
    (v: Value) => if v.Constant? then v.word else 10232,
    (_, ws: seq<Word>) => if |ws| == 2 then Some(Wrap((ws[0] as int) + (ws[1] as int))) else None,
    (_, _, _) => None,
    (_, _) => None,
    i => 10224 <= i < 10232)

  /** The index is 0, the slot points to the block at 20480, which is freed or still there. */
  function SlotBytes(freed: bool): Bytemap {
    var mem := Placed(10232, LowBytes(8, 0)) + Placed(10224, LowBytes(8, 20480));
    if freed then mem else mem + Untouched(20480)
  }

  function SlotWorld(freed: bool): World {
    World(SlotBytes(freed), if freed then map[] else map[20480 := 8], 10224, [])
  }

  lemma BytesAt(mem: Bytemap, addr: nat, bs: seq<Byte>)
    requires forall i :: addr <= i < addr + |bs| ==> i in mem && mem[i] == bs[i - addr]
    ensures Accessible(mem, addr, |bs|) && ReadBytes(mem, addr, |bs|) == bs
  {
  }

  lemma SlotContents(freed: bool)
    ensures forall i :: i in SlotBytes(freed) <==> 10224 <= i < 10240 || (!freed && 20480 <= i < 20488)
    ensures forall i :: 10232 <= i < 10240 ==> SlotBytes(freed)[i] == LowBytes(8, 0)[i - 10232]
    ensures forall i :: 10224 <= i < 10232 ==> SlotBytes(freed)[i] == LowBytes(8, 20480)[i - 10224]
    ensures !freed ==> SlotBytes(freed)[20480] == 0
  {
    hide Placed, Untouched, LowBytes;
  }

  lemma SlotReads(freed: bool)
    ensures Accessible(SlotBytes(freed), 10232, 8) && ReadBytes(SlotBytes(freed), 10232, 8) == LowBytes(8, 0)
    ensures Accessible(SlotBytes(freed), 10224, 8) && ReadBytes(SlotBytes(freed), 10224, 8) == LowBytes(8, 20480)
  {
    hide SlotBytes, LowBytes, ReadBytes, Accessible;
    SlotContents(freed);
    BytesAt(SlotBytes(freed), 10232, LowBytes(8, 0));
    BytesAt(SlotBytes(freed), 10224, LowBytes(8, 20480));
  }

  lemma BlockReads()
    ensures Accessible(SlotBytes(false), 20480, 1) && ReadBytes(SlotBytes(false), 20480, 1) == LowBytes(1, 0)
    ensures !Accessible(SlotBytes(true), 20480, 1)
  {
    OneByte(0);
    hide SlotBytes, LowBytes, ReadBytes, Accessible;
    SlotContents(false);
    BytesAt(SlotBytes(false), 20480, [0]);
    SlotContents(true);
    NotAccessible(SlotBytes(true), 20480);
  }

  lemma SlotFreed()
    ensures Without(SlotBytes(false), 20480, 8) == SlotBytes(true)
  {
    hide Placed, Untouched, LowBytes;
  }

  lemma NotAccessible(mem: Bytemap, addr: nat)
    requires addr !in mem
    ensures !Accessible(mem, addr, 1)
  {
    assert addr <= addr < addr + 1;
  }

  lemma SlotAddressStep(s: State)
    requires 9 in s.regs && s.regs[9] == 10224 && 0 in s.regs && s.regs[0] == 0
    ensures Step(FreeingMeaning, SlotAddress, s) == Some(State(s.regs[1 := 10224], s.world))
  {
    var m := FreeingMeaning;
    assert Operands(SlotAddress) == [AllocaInst(9), IndexLoad];
    assert Inputs(m, s.regs, SlotAddress) == [10224, 0];
    DivModUnique(10224, W64, 0, 10224);
  }

  lemma FreeStep(s: State)
    requires 10 in s.regs && s.regs[10] == 20480 && s.world == SlotWorld(false)
    ensures Step(FreeingMeaning, FreeBlock, s) == Some(State(s.regs, SlotWorld(true)))
  {
    SlotFreed();
    hide Without, SlotBytes;
    assert Operands(FreeBlock) == [OtherInst(10, 0, [])];
    assert Inputs(FreeingMeaning, s.regs, FreeBlock) == [20480];
    var blocks: map<nat, nat> := map[20480 := 8];
    assert blocks - {20480} == map[];
  }

  lemma FreeingRegions(w: World)
    requires w == SlotWorld(false)
    ensures RightlyClassified(FreeingMeaning, IndexLoad, [10232], w) && RightlyClassified(FreeingMeaning, SlotLoad, [10224], w)
    ensures forall ws: seq<Word> :: |ws| == 1 ==> RightlyClassified(FreeingMeaning, BlockLoad, ws, w) && RightlyClassified(FreeingMeaning, FreeBlock, ws, w)
    ensures forall ws: seq<Word> :: |ws| == 2 ==> RightlyClassified(FreeingMeaning, SlotAddress, ws, w)
  {
    hide SlotBytes;
    assert GetOpTypeReorder(SlotAddress) == Stack;
  }

  lemma IndexStep(s: State, freed: bool)
    requires s.world == SlotWorld(freed)
    ensures Inputs(FreeingMeaning, s.regs, IndexLoad) == [10232]
    ensures Step(FreeingMeaning, IndexLoad, s) == Some(State(s.regs[0 := 0], s.world))
  {
    hide Step, SlotBytes, LowBytes, ReadBytes, Accessible;
    SlotReads(freed);
    LoadFinds(FreeingMeaning, IndexLoad, s, 10232, 0);
  }

  lemma SlotStep(s: State, freed: bool)
    requires s.world == SlotWorld(freed) && 1 in s.regs && s.regs[1] == 10224
    ensures Inputs(FreeingMeaning, s.regs, SlotLoad) == [10224]
    ensures Step(FreeingMeaning, SlotLoad, s) == Some(State(s.regs[2 := 20480], s.world))
  {
    hide Step, SlotBytes, LowBytes, ReadBytes, Accessible;
    SlotReads(freed);
    LoadFinds(FreeingMeaning, SlotLoad, s, 10224, 20480);
  }

  lemma BlockStep(s: State, freed: bool)
    requires s.world == SlotWorld(freed) && 2 in s.regs && s.regs[2] == 20480
    ensures Step(FreeingMeaning, BlockLoad, s) == if freed then None else Some(State(s.regs[3 := 0], s.world))
  {
    BlockReads();
    hide SlotBytes, LowBytes, ReadBytes, Accessible, Number;
    if freed {
      assert Inputs(FreeingMeaning, s.regs, BlockLoad) == [20480];
    } else {
      hide Step;
      LoadFinds(FreeingMeaning, BlockLoad, s, 20480, 0);
    }
  }

  /** The state before the block; the register 10 holds the pointer that is freed. */
  const SlotState := State(map[9 := 10224, 10 := 20480], SlotWorld(false))

  /** The block's own order: the load reads the block, and then it is freed. */
  lemma FreeingBlockRuns()
    ensures AllInsts(FreeingBlock) && Run(FreeingMeaning, FreeingBlock, SlotState).Some?
    ensures ClassifiedRun(FreeingMeaning, FreeingBlock, SlotState)
  {
    hide Step, Run, ClassifiedRun, RightlyClassified, SlotBytes, Inputs;
    var m, s := FreeingMeaning, SlotState;
    IndexStep(s, false);
    var s1 := s.(regs := s.regs[0 := 0]);
    SlotAddressStep(s1);
    var s2 := s.(regs := s1.regs[1 := 10224]);
    SlotStep(s2, false);
    var s3 := s.(regs := s2.regs[2 := 20480]);
    BlockStep(s3, false);
    var s4 := s.(regs := s3.regs[3 := 0]);
    FreeStep(s4);
    var s5 := State(s4.regs, SlotWorld(true));
    RunThrough(m, FreeingBlock, [s, s1, s2, s3, s4, s5]);
    FreeingRegions(s.world);
    InputLengths(m, [s, s1, s2, s3, s4, s5]);
  }

  lemma InputLengths(m: Meaning, states: seq<State>)
    ensures forall i :: 0 <= i < |states| ==>
              && |Inputs(m, states[i].regs, SlotAddress)| == 2
              && |Inputs(m, states[i].regs, BlockLoad)| == 1 && |Inputs(m, states[i].regs, FreeBlock)| == 1
  {
    assert |Operands(SlotAddress)| == 2;
  }

  lemma RunFirst(m: Meaning, v: Value, vs: seq<Value>, s: State)
    requires IsInst(v) && AllInsts(vs)
    ensures AllInsts([v] + vs)
    ensures Run(m, [v] + vs, s) == if Step(m, v, s).None? then None else Run(m, vs, Step(m, v, s).value)
  {
    hide Step;
    assert ([v] + vs)[1..] == vs;
  }

  /** After the free the rest of the block cannot run. */
  lemma RestFails(s: State)
    requires s.world == SlotWorld(true) && 9 in s.regs && s.regs[9] == 10224 && 0 in s.regs && s.regs[0] == 0
    ensures AllInsts([SlotAddress, SlotLoad, BlockLoad])
    ensures Run(FreeingMeaning, [SlotAddress, SlotLoad, BlockLoad], s).None?
  {
    hide Step, Run, SlotWorld;
    var m := FreeingMeaning;
    SlotAddressStep(s);
    var s1 := s.(regs := s.regs[1 := 10224]);
    SlotStep(s1, true);
    var s2 := s.(regs := s1.regs[2 := 20480]);
    BlockStep(s2, true);
    RunFirst(m, BlockLoad, [], s2);
    RunFirst(m, SlotLoad, [BlockLoad], s1);
    RunFirst(m, SlotAddress, [SlotLoad, BlockLoad], s);
    assert [BlockLoad] + [] == [BlockLoad] && [SlotLoad] + [BlockLoad] == [SlotLoad, BlockLoad];
    assert [SlotAddress] + [SlotLoad, BlockLoad] == [SlotAddress, SlotLoad, BlockLoad];
  }

  lemma FreedSecond()
    ensures AllInsts([IndexLoad, FreeBlock] + [SlotAddress, SlotLoad, BlockLoad])
    ensures Run(FreeingMeaning, [IndexLoad, FreeBlock] + [SlotAddress, SlotLoad, BlockLoad], SlotState).None?
  {
    hide Step, Run, SlotWorld;
    var rest, s := [SlotAddress, SlotLoad, BlockLoad], SlotState;
    IndexStep(s, false);
    var s1 := s.(regs := s.regs[0 := 0]);
    FreeStep(s1);
    var s2 := State(s1.regs, SlotWorld(true));
    RestFails(s2);
    RunFirst(FreeingMeaning, FreeBlock, rest, s1);
    RunFirst(FreeingMeaning, IndexLoad, [FreeBlock] + rest, s);
    assert [IndexLoad] + ([FreeBlock] + rest) == [IndexLoad, FreeBlock] + rest;
  }

  lemma FreedFirst()
    ensures AllInsts([FreeBlock, IndexLoad] + [SlotAddress, SlotLoad, BlockLoad])
    ensures Run(FreeingMeaning, [FreeBlock, IndexLoad] + [SlotAddress, SlotLoad, BlockLoad], SlotState).None?
  {
    hide Step, Run, SlotWorld;
    var rest, s := [SlotAddress, SlotLoad, BlockLoad], SlotState;
    FreeStep(s);
    var s1 := State(s.regs, SlotWorld(true));
    IndexStep(s1, true);
    var s2 := s1.(regs := s1.regs[0 := 0]);
    RestFails(s2);
    RunFirst(FreeingMeaning, IndexLoad, rest, s1);
    RunFirst(FreeingMeaning, FreeBlock, [IndexLoad] + rest, s);
    assert [FreeBlock] + ([IndexLoad] + rest) == [FreeBlock, IndexLoad] + rest;
  }

  lemma FreeingBlockWellFormed()
    ensures WellFormed(FreeingBlock, 0)
  {
    assert Operands(IndexLoad) == [GlobalVar("g")];
    assert Operands(SlotAddress) == [AllocaInst(9), IndexLoad];
    assert Operands(SlotLoad) == [SlotAddress] && Operands(BlockLoad) == [SlotLoad];
    assert Operands(FreeBlock) == [OtherInst(10, 0, [])];
    hide Operands;
  }

  lemma PickFive(insts: seq<Value>, order: seq<nat>)
    requires |order| == 5 && forall i :: i in order ==> i < |insts|
    ensures forall k :: 0 <= k < 5 ==> order[k] in order
    ensures Pick(insts, order) == [insts[order[0]], insts[order[1]]] + [insts[order[2]], insts[order[3]], insts[order[4]]]
  {
  }

  lemma Exchanged(insts: seq<Value>, order: seq<nat>, a: nat, b: nat)
    requires a < b < |order| && order[b] < order[a] < |insts| && Clash(insts[order[b]], insts[order[a]])
    ensures !KeepsClashes(insts, order)
  {
    hide Clash;
  }

  /** The pass does not order a free with the accesses of its block: in every order the scheduler can return the load
      comes after the free and fails. */
  lemma FreeIsMovedUp(order: seq<nat>)
    requires IsSchedule(FreeingBlock, order) && ChangesOnlyIfForced(FreeingBlock, order)
    ensures !KeepsClashes(FreeingBlock, order)
    ensures WellFormed(FreeingBlock, 0) && AllInsts(Pick(FreeingBlock, order))
    ensures ClassifiedRun(FreeingMeaning, FreeingBlock, SlotState)
    ensures Run(FreeingMeaning, FreeingBlock, SlotState).Some? && Run(FreeingMeaning, Pick(FreeingBlock, order), SlotState).None?
  {
    hide Run, ClassifiedRun, Clash, IsSchedule, ChangesOnlyIfForced, KeepsClashes, Pick, Edge, GetBlockType, SlotWorld, Step;
    FreeIsEarly(order);
    FreeingBlockWellFormed();
    FreeingBlockKinds();
    FreeingBlockRuns();
    PickFive(FreeingBlock, order);
    if order[0] == 0 {
      FreedSecond();
      Exchanged(FreeingBlock, order, 1, 4);
    } else {
      FreedFirst();
      Exchanged(FreeingBlock, order, 0, 4);
    }
  }
}
