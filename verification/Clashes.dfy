/** Where the scheduler's dependency test of ReorderMemAccess.cpp falls short: the pairs it should have ordered are
    exactly the clashing ones, and it does exchange such pairs. */
module Clashes {
  import opened Words
  import opened Bytes
  import opened Ir
  import opened Scheduling
  import opened Reordering

  // ---- every clashing pair fails to commute in some rightly classified state ----

  /** The widths of the machine's accesses, and as many arguments as the allocation functions take. */
  predicate WellMade(v: Value) {
    && (IsAccess(v) ==> v.width in {1, 2, 4, 8})
    && (IsMallocCall(v) || IsFreeCall(v) ==> |v.args| == 1)
    && (IsAllocaByteCall(v) ==> v.args != [])
  }

  /** Different operands stand for different registers. */
  predicate DistinctRegisters(vs: seq<Value>) {
    forall u, v :: u in vs && v in vs && u != v && IsInst(u) && IsInst(v) ==> u.id != v.id
  }

  /** Two stores write different values, and not just the two pointers they write through. */
  predicate StoresDiffer(a: Value, b: Value) {
    a.StoreInst? && b.StoreInst? ==>
      && a.val != b.val && !(a.val in [a.ptr, b.ptr] && b.val in [a.ptr, b.ptr])
      && DistinctRegisters(Operands(a) + Operands(b))
  }

  /** Instructions that clash meet at an address of the stack if one is a stack access, at a block of the heap otherwise. */
  predicate MeetOnStack(a: Value, b: Value) { GetAccessTypeReorder(a) == Stack || GetAccessTypeReorder(b) == Stack }

  function Meeting(a: Value, b: Value): Word { if MeetOnStack(a, b) then 8 else 20488 }

  const ELSEWHERE := 0x100_0000_0000

  /** Every operand is addr except odd, which is w. A block goes to addr unless one is there. Other calls tell whether
      there is a block at addr and whether the stack pointer has moved. */
  function MeetingMeaning(onStack: bool, addr: Word, odd: Value, w: Word): Meaning {
    Meaning(
      v => if v == odd then w else addr,
      (_, _) => None,
      (_, _, world: World) => Some(CallResult(if addr in world.blocks then 1 else if world.sp == 0 then 2 else 3, world)),
      (blocks, _) => Some(if addr in blocks then ELSEWHERE else addr),
      _ => onStack)
  }

  /** A memory of just these bytes. */
  function Placed(addr: nat, bs: seq<Byte>): (mem: Bytemap)
    ensures forall i :: i in mem <==> addr <= i < addr + |bs|
    ensures forall i :: i in mem ==> mem[i] == bs[i - addr]
  {
    if bs == [] then map[] else Placed(addr, bs[..|bs| - 1])[addr + |bs| - 1 := bs[|bs| - 1]]
  }

  function Untouched(addr: nat): (mem: Bytemap)
    ensures forall i :: i in mem <==> addr <= i < addr + 8
    ensures forall i :: i in mem ==> mem[i] == 0
  {
    Placed(addr, [0, 0, 0, 0, 0, 0, 0, 0])
  }

  /** With or without a block of eight bytes at addr. */
  function MeetingWorld(addr: Word, block: bool): World {
    if block then World(Untouched(addr), map[addr := 8], 0, []) else World(map[], map[], 0, [])
  }

  /** There is a block unless malloc is to make one. */
  predicate HasBlock(a: Value, b: Value) { IsFreeCall(a) || IsFreeCall(b) || (IsAccess(a) && IsAccess(b)) }

  function InstIds(vs: seq<Value>): set<nat> { set v | v in vs && IsInst(v) :: v.id }

  function MeetingRegs(addr: Word, odd: Value, w: Word, operands: seq<Value>): map<nat, Word> {
    map i | i in InstIds(operands) :: if IsInst(odd) && odd.id == i then w else addr
  }

  lemma OperandWords(onStack: bool, addr: Word, odd: Value, w: Word, operands: seq<Value>, vs: seq<Value>)
    requires w == addr || (DistinctRegisters(operands) && odd in operands)
    requires forall v :: v in vs ==> v in operands
    ensures ValuesOf(MeetingMeaning(onStack, addr, odd, w), MeetingRegs(addr, odd, w, operands), vs) ==
            seq(|vs|, i requires 0 <= i < |vs| => if vs[i] == odd then w else addr)
  {
    var m, regs := MeetingMeaning(onStack, addr, odd, w), MeetingRegs(addr, odd, w, operands);
    forall i | 0 <= i < |vs|
      ensures ValueOf(m, regs, vs[i]) == if vs[i] == odd then w else addr
    {
      assert vs[i] in operands;
      assert IsInst(vs[i]) ==> vs[i].id in InstIds(operands);
    }
  }

  /** One order stops, or both end with another result or another world. */
  ghost predicate DifferentEffects(ab: Option<(Effect, Effect)>, ba: Option<(Effect, Effect)>) {
    || ab.Some? != ba.Some?
    || (ab.Some? && ba.Some? &&
        (ab.value.1.world != ba.value.1.world || OtherResult(ab.value.0, ba.value.1) || OtherResult(ab.value.1, ba.value.0)))
  }

  predicate OtherResult(e: Effect, e': Effect) { e.result.Some? && e'.result.Some? && e.result != e'.result }

  ghost predicate Differ(m: Meaning, a: Value, wa: seq<Word>, b: Value, wb: seq<Word>, w: World)
    requires |wa| == |Operands(a)| && |wb| == |Operands(b)|
  {
    DifferentEffects(BothEffects(m, a, wa, b, wb, w), BothEffects(m, b, wb, a, wa, w))
  }

  lemma DifferSwapped(m: Meaning, a: Value, wa: seq<Word>, b: Value, wb: seq<Word>, w: World)
    requires |wa| == |Operands(a)| && |wb| == |Operands(b)| && Differ(m, b, wb, a, wa, w)
    ensures Differ(m, a, wa, b, wb, w)
  {
    hide BothEffects, Operands;
  }

  lemma NumberOfSmall(bs: seq<Byte>)
    requires |bs| <= 8
    ensures Wrap(Number(bs)) == Number(bs)
  {
    assert Pow256(8) == W64 by {
      assert Pow256(4) == 0x1_0000_0000;
      Pow256Add(4, 4);
    }
    Pow256Add(|bs|, 8 - |bs|);
    MulMonotone(1, Pow256(8 - |bs|), Pow256(|bs|));
    DivModUnique(Number(bs), W64, 0, Number(bs));
  }

  lemma {:induction false} NumberOfZeros(bs: seq<Byte>)
    requires forall i :: 0 <= i < |bs| ==> bs[i] == 0
    ensures Number(bs) == 0
  {
    if bs != [] {
      NumberOfZeros(bs[1..]);
    }
  }

  lemma LowByteFirst(n: nat, v: nat)
    requires n > 0
    ensures LowBytes(n, v)[0] == v % 256
  {
  }

  /** The words the operands of a touching instruction stand for where it meets the other one. */
  ghost predicate MeetingWords(m: Meaning, v: Value, ws: seq<Word>, addr: Word) {
    && |ws| == |Operands(v)| && addr in {8, 20488} && WellMade(v)
    && (v.LoadInst? ==> ws == [addr])
    && (v.StoreInst? ==> ws[0] in {addr, addr + 1} && ws[1] == addr)
    && (v.CallInst? ==> forall i :: 0 <= i < |ws| ==> ws[i] == addr)
    && (IsAccess(v) ==> InRegion(m, GetAccessTypeReorder(v), addr, v.width))
    && (IsMallocCall(v) || IsFreeCall(v) ==> forall i :: !m.stackByte(i))
  }

  /** Loading finds zero in the fresh memory, something else once the first byte has changed. */
  lemma LoadSees(m: Meaning, v: Value, addr: Word, w: World)
    requires v.LoadInst? && MeetingWords(m, v, [addr], addr) && forall i :: addr <= i < addr + 8 ==> i in w.mem
    ensures CheckedEffect(m, v, [addr], w) == Some(Effect(Some(Number(ReadBytes(w.mem, addr, v.width))), w))
    ensures w.mem[addr] != 0 ==> Number(ReadBytes(w.mem, addr, v.width)) > 0
    ensures w.mem == Untouched(addr) ==> Number(ReadBytes(w.mem, addr, v.width)) == 0
  {
    var bs := ReadBytes(w.mem, addr, v.width);
    NumberOfSmall(bs);
    if w.mem == Untouched(addr) {
      NumberOfZeros(bs);
    }
    hide Wrap, GetAccessTypeReorder, InRegion;
  }

  lemma StoreChanges(m: Meaning, v: Value, x: Word, addr: Word, w: World)
    requires v.StoreInst? && MeetingWords(m, v, [x, addr], addr) && forall i :: addr <= i < addr + 8 ==> i in w.mem
    ensures var mem' := WriteBytes(w.mem, addr, LowBytes(v.width, x));
            && CheckedEffect(m, v, [x, addr], w) == Some(Effect(None, w.(mem := mem')))
            && (forall i :: i in mem' <==> i in w.mem) && mem'[addr] == x % 256
  {
    LowByteFirst(v.width, x);
    hide LowBytes, GetAccessTypeReorder, InRegion;
  }

  /** An access completes exactly when its bytes are there. */
  lemma AccessCompletes(m: Meaning, v: Value, ws: seq<Word>, addr: Word, w: World)
    requires IsAccess(v) && MeetingWords(m, v, ws, addr)
    ensures (forall i :: addr <= i < addr + 8 ==> i in w.mem) ==> CheckedEffect(m, v, ws, w).Some?
    ensures addr !in w.mem ==> CheckedEffect(m, v, ws, w).None?
    ensures CheckedEffect(m, v, ws, w).Some? ==> CheckedEffect(m, v, ws, w).value.world.blocks == w.blocks
  {
    hide CheckedEffect;
    AccessEffect(m, v, ws, w);
    assert addr <= addr < addr + v.width;
    hide GetAccessTypeReorder, InRegion, ReadBytes, WriteBytes, LowBytes;
  }

  lemma MallocMeets(addr: Word, odd: Value, w: Word, v: Value, ws: seq<Word>, world: World)
    requires IsMallocCall(v) && MeetingWords(MeetingMeaning(false, addr, odd, w), v, ws, addr)
    ensures var p := if addr in world.blocks then ELSEWHERE else addr;
            CheckedEffect(MeetingMeaning(false, addr, odd, w), v, ws, world) ==
            Some(Effect(Some(p), world.(mem := WithZeros(world.mem, p, addr), blocks := world.blocks[p := addr])))
  {
    hide CheckedEffect, WithZeros;
    MallocChecked(MeetingMeaning(false, addr, odd, w), v, ws, world);
    assert ws == [addr];
  }

  lemma FreeMeets(addr: Word, odd: Value, w: Word, v: Value, ws: seq<Word>, world: World)
    requires IsFreeCall(v) && MeetingWords(MeetingMeaning(false, addr, odd, w), v, ws, addr) && addr in world.blocks
    ensures CheckedEffect(MeetingMeaning(false, addr, odd, w), v, ws, world) ==
            Some(Effect(None, world.(mem := Without(world.mem, addr, world.blocks[addr]), blocks := world.blocks - {addr})))
  {
    hide CheckedEffect, Without;
    FreeChecked(MeetingMeaning(false, addr, odd, w), v, ws, world);
    assert ws == [addr];
  }

  lemma AllocaMeets(m: Meaning, addr: Word, v: Value, ws: seq<Word>, world: World)
    requires IsAllocaByteCall(v) && MeetingWords(m, v, ws, addr)
    ensures var sp := Wrap((world.sp as int) - (addr as int));
            CheckedEffect(m, v, ws, world) == Some(Effect(Some(sp), world.(sp := sp)))
  {
    hide CheckedEffect;
    AllocaChecked(m, v, ws, world);
  }

  predicate OrdinaryCall(v: Value) { v.CallInst? && !IsAllocation(v) }

  lemma CallMeets(onStack: bool, addr: Word, odd: Value, w: Word, v: Value, ws: seq<Word>, world: World)
    requires OrdinaryCall(v) && |ws| == |Operands(v)|
    ensures CheckedEffect(MeetingMeaning(onStack, addr, odd, w), v, ws, world) ==
            Some(Effect(Some(if addr in world.blocks then 1 else if world.sp == 0 then 2 else 3), world))
  {
    hide Operands, InRegion;
  }

  /** malloc beside a malloc, a call or an access. */
  lemma MallocDiffers(addr: Word, odd: Value, w: Word, a: Value, wa: seq<Word>, b: Value, wb: seq<Word>)
    requires IsMallocCall(a) && (IsMallocCall(b) || OrdinaryCall(b) || IsAccess(b))
    requires var m := MeetingMeaning(false, addr, odd, w); MeetingWords(m, a, wa, addr) && MeetingWords(m, b, wb, addr)
    ensures Differ(MeetingMeaning(false, addr, odd, w), a, wa, b, wb, MeetingWorld(addr, false))
  {
    hide CheckedEffect, MeetingMeaning, MeetingWords, WithZeros, GetAccessTypeReorder, Operands, WellMade;
    var m, world := MeetingMeaning(false, addr, odd, w), MeetingWorld(addr, false);
    MeetingBounds(m, a, wa, addr);
    MeetingBounds(m, b, wb, addr);
    MallocMeets(addr, odd, w, a, wa, world);
    var after := CheckedEffect(m, a, wa, world).value.world;
    if IsMallocCall(b) {
      MallocMeets(addr, odd, w, b, wb, world);
      var after' := CheckedEffect(m, b, wb, world).value.world;
      MallocMeets(addr, odd, w, b, wb, after);
      MallocMeets(addr, odd, w, a, wa, after');
    } else if OrdinaryCall(b) {
      CallMeets(false, addr, odd, w, b, wb, world);
      CallMeets(false, addr, odd, w, b, wb, after);
      MallocMeets(addr, odd, w, a, wa, CheckedEffect(m, b, wb, world).value.world);
    } else {
      ZerosAdded(world.mem, addr);
      AccessCompletes(m, b, wb, addr, world);
      AccessCompletes(m, b, wb, addr, after);
    }
  }

  lemma MeetingBounds(m: Meaning, v: Value, ws: seq<Word>, addr: Word)
    requires MeetingWords(m, v, ws, addr)
    ensures |ws| == |Operands(v)| && addr in {8, 20488}
  {
    hide WellMade, InRegion, Operands, GetAccessTypeReorder;
  }

  lemma ZerosAdded(mem: Bytemap, addr: nat)
    requires addr >= 8
    ensures forall i :: addr <= i < addr + 8 ==> i in WithZeros(mem, addr, addr)
  {
  }

  /** free beside a malloc, a call or an access. */
  lemma FreeDiffers(addr: Word, odd: Value, w: Word, a: Value, wa: seq<Word>, b: Value, wb: seq<Word>)
    requires IsFreeCall(a) && (IsMallocCall(b) || OrdinaryCall(b) || IsAccess(b))
    requires var m := MeetingMeaning(false, addr, odd, w); MeetingWords(m, a, wa, addr) && MeetingWords(m, b, wb, addr)
    ensures Differ(MeetingMeaning(false, addr, odd, w), a, wa, b, wb, MeetingWorld(addr, true))
  {
    hide CheckedEffect, MeetingMeaning, MeetingWords, WithZeros, Without, GetAccessTypeReorder, Operands, WellMade, Untouched;
    var m, world := MeetingMeaning(false, addr, odd, w), MeetingWorld(addr, true);
    MeetingBounds(m, a, wa, addr);
    MeetingBounds(m, b, wb, addr);
    FreeMeets(addr, odd, w, a, wa, world);
    var after := CheckedEffect(m, a, wa, world).value.world;
    if IsMallocCall(b) {
      MallocMeets(addr, odd, w, b, wb, world);
      MallocMeets(addr, odd, w, b, wb, after);
      FreeMeets(addr, odd, w, a, wa, CheckedEffect(m, b, wb, world).value.world);
    } else if OrdinaryCall(b) {
      CallMeets(false, addr, odd, w, b, wb, world);
      CallMeets(false, addr, odd, w, b, wb, after);
      FreeMeets(addr, odd, w, a, wa, CheckedEffect(m, b, wb, world).value.world);
    } else {
      BlockGone(world.mem, addr);
      AccessCompletes(m, b, wb, addr, world);
      AccessCompletes(m, b, wb, addr, after);
      FreeMeets(addr, odd, w, a, wa, CheckedEffect(m, b, wb, world).value.world);
    }
  }

  lemma BlockGone(mem: Bytemap, addr: nat)
    ensures addr !in Without(mem, addr, 8)
  {
  }

  /** alloca_bytes beside itself or a call. */
  lemma AllocaDiffers(onStack: bool, addr: Word, odd: Value, w: Word, a: Value, wa: seq<Word>, b: Value, wb: seq<Word>)
    requires IsAllocaByteCall(a) && (IsAllocaByteCall(b) || OrdinaryCall(b))
    requires var m := MeetingMeaning(onStack, addr, odd, w); MeetingWords(m, a, wa, addr) && MeetingWords(m, b, wb, addr)
    ensures Differ(MeetingMeaning(onStack, addr, odd, w), a, wa, b, wb, MeetingWorld(addr, false))
  {
    hide CheckedEffect, MeetingMeaning, MeetingWords, GetAccessTypeReorder, Operands, WellMade, Wrap;
    var m, world := MeetingMeaning(onStack, addr, odd, w), MeetingWorld(addr, false);
    MeetingBounds(m, a, wa, addr);
    MeetingBounds(m, b, wb, addr);
    AllocaMeets(m, addr, a, wa, world);
    var after := CheckedEffect(m, a, wa, world).value.world;
    Lowered(addr);
    if IsAllocaByteCall(b) {
      AllocaMeets(m, addr, b, wb, world);
      AllocaMeets(m, addr, b, wb, after);
      AllocaMeets(m, addr, a, wa, CheckedEffect(m, b, wb, world).value.world);
    } else {
      CallMeets(onStack, addr, odd, w, b, wb, world);
      CallMeets(onStack, addr, odd, w, b, wb, after);
      AllocaMeets(m, addr, a, wa, CheckedEffect(m, b, wb, world).value.world);
    }
  }

  /** Lowering the stack pointer 0 once and twice. */
  lemma Lowered(addr: Word)
    requires addr in {8, 20488}
    ensures Wrap(0 - (addr as int)) == W64 - addr && Wrap(W64 - addr - addr) == W64 - addr - addr
  {
    DivModUnique(0 - addr, W64, -1, W64 - addr);
    DivModUnique(W64 - addr - addr, W64, 0, W64 - addr - addr);
  }

  lemma LoadStoreDiffers(m: Meaning, addr: Word, a: Value, wa: seq<Word>, b: Value, wb: seq<Word>)
    requires a.LoadInst? && b.StoreInst? && MeetingWords(m, a, wa, addr) && MeetingWords(m, b, wb, addr)
    ensures Differ(m, a, wa, b, wb, MeetingWorld(addr, true))
  {
    hide Untouched, ReadBytes, GetAccessTypeReorder, LowBytes, WriteBytes, EffectOf, CheckedEffect, InRegion;
    var world := MeetingWorld(addr, true);
    assert wb == [wb[0], addr];
    StoreChanges(m, b, wb[0], addr, world);
    LoadSees(m, a, addr, world);
    LoadSees(m, a, addr, world.(mem := WriteBytes(world.mem, addr, LowBytes(b.width, wb[0]))));
  }

  lemma StoresDifferEffects(m: Meaning, addr: Word, a: Value, wa: seq<Word>, b: Value, wb: seq<Word>)
    requires a.StoreInst? && b.StoreInst? && MeetingWords(m, a, wa, addr) && MeetingWords(m, b, wb, addr) && wa[0] != wb[0]
    ensures Differ(m, a, wa, b, wb, MeetingWorld(addr, true))
  {
    hide Untouched, GetAccessTypeReorder, LowBytes, WriteBytes, EffectOf, CheckedEffect, InRegion;
    var world := MeetingWorld(addr, true);
    assert wa == [wa[0], addr] && wb == [wb[0], addr];
    StoreChanges(m, a, wa[0], addr, world);
    StoreChanges(m, b, wb[0], addr, world);
    StoreChanges(m, b, wb[0], addr, world.(mem := WriteBytes(world.mem, addr, LowBytes(a.width, wa[0]))));
    StoreChanges(m, a, wa[0], addr, world.(mem := WriteBytes(world.mem, addr, LowBytes(b.width, wb[0]))));
  }

  /** Where two clashing instructions meet, their accesses are in the regions they are classified with. */
  lemma MeetingIsClassified(a: Value, b: Value, v: Value, odd: Value, w: Word)
    requires Clash(a, b) && (v == a || v == b)
    ensures var m := MeetingMeaning(MeetOnStack(a, b), Meeting(a, b), odd, w);
            && (IsAccess(v) ==> InRegion(m, GetAccessTypeReorder(v), Meeting(a, b), v.width))
            && (IsMallocCall(v) || IsFreeCall(v) ==> !MeetOnStack(a, b))
  {
    hide GetOpTypeReorder;
  }

  /** The operands' words where a and b meet. */
  lemma MeetingInputs(a: Value, b: Value, odd: Value, w: Word, v: Value)
    requires Clash(a, b) && (v == a || v == b) && WellMade(v)
    requires w == Meeting(a, b) || (w == Meeting(a, b) + 1 && DistinctRegisters(Operands(a) + Operands(b)) && odd in Operands(a) + Operands(b))
    requires w != Meeting(a, b) ==> v.StoreInst? && v.ptr != odd
    ensures var addr := Meeting(a, b);
            var m := MeetingMeaning(MeetOnStack(a, b), addr, odd, w);
            var ws := Inputs(m, MeetingRegs(addr, odd, w, Operands(a) + Operands(b)), v);
            MeetingWords(m, v, ws, addr) && (v.StoreInst? ==> ws[0] == if v.val == odd then w else addr)
  {
    var addr := Meeting(a, b);
    OperandWords(MeetOnStack(a, b), addr, odd, w, Operands(a) + Operands(b), Operands(v));
    MeetingIsClassified(a, b, v, odd, w);
    hide Clash, GetAccessTypeReorder, MeetingRegs, DistinctRegisters, MeetOnStack, InRegion;
  }

  lemma ClashTouches(a: Value, b: Value)
    requires Clash(a, b)
    ensures Touches(a) && Touches(b) && !(a.LoadInst? && b.LoadInst?)
  {
    hide GetAccessTypeReorder;
  }

  /** Which pairs clash. */
  lemma ClashKinds(a: Value, b: Value)
    requires Clash(a, b) && !(IsAccess(a) && IsAccess(b))
    ensures !MeetOnStack(a, b) || IsAllocaByteCall(a) || IsAllocaByteCall(b)
    ensures || (IsMallocCall(a) && (IsMallocCall(b) || OrdinaryCall(b) || IsAccess(b)))
            || (IsMallocCall(b) && (OrdinaryCall(a) || IsAccess(a)))
            || (IsFreeCall(a) && (IsMallocCall(b) || OrdinaryCall(b) || IsAccess(b)))
            || (IsFreeCall(b) && (IsMallocCall(a) || OrdinaryCall(a) || IsAccess(a)))
            || (IsAllocaByteCall(a) && (IsAllocaByteCall(b) || OrdinaryCall(b)))
            || (IsAllocaByteCall(b) && OrdinaryCall(a))
  {
    hide GetOpTypeReorder;
  }

  lemma DifferentStates(m: Meaning, a: Value, b: Value, s: State)
    requires Independent(a, b)
    requires Differ(m, a, Inputs(m, s.regs, a), b, Inputs(m, s.regs, b), s.world)
    ensures TwoSteps(m, a, b, s) != TwoSteps(m, b, a, s)
  {
    hide TwoSteps, BothEffects, Operands;
    TwoStepsEffects(m, a, b, s);
    TwoStepsEffects(m, b, a, s);
    var e := BothEffects(m, a, Inputs(m, s.regs, a), b, Inputs(m, s.regs, b), s.world);
    var r, r' := TwoSteps(m, a, b, s), TwoSteps(m, b, a, s);
    if r.Some? && r'.Some? {
      assert e.value.0.result.Some? ==> r.value.regs[a.id] == e.value.0.result.value;
      assert e.value.1.result.Some? ==> r.value.regs[b.id] == e.value.1.result.value;
    }
  }

  /** Two accesses that clash. */
  lemma AccessesDiffer(m: Meaning, addr: Word, a: Value, wa: seq<Word>, b: Value, wb: seq<Word>)
    requires IsAccess(a) && IsAccess(b) && !(a.LoadInst? && b.LoadInst?)
    requires MeetingWords(m, a, wa, addr) && MeetingWords(m, b, wb, addr)
    requires a.StoreInst? && b.StoreInst? ==> wa[0] != wb[0]
    ensures Differ(m, a, wa, b, wb, MeetingWorld(addr, true))
  {
    hide MeetingWords, Differ, MeetingWorld;
    MeetingBounds(m, a, wa, addr);
    MeetingBounds(m, b, wb, addr);
    if a.LoadInst? {
      LoadStoreDiffers(m, addr, a, wa, b, wb);
    } else if b.LoadInst? {
      LoadStoreDiffers(m, addr, b, wb, a, wa);
      DifferSwapped(m, a, wa, b, wb, MeetingWorld(addr, true));
    } else {
      StoresDifferEffects(m, addr, a, wa, b, wb);
    }
  }

  /** A clashing pair that is not two accesses. */
  lemma CallsDiffer(addr: Word, odd: Value, w: Word, a: Value, wa: seq<Word>, b: Value, wb: seq<Word>)
    requires Clash(a, b) && !(IsAccess(a) && IsAccess(b))
    requires var m := MeetingMeaning(MeetOnStack(a, b), addr, odd, w); MeetingWords(m, a, wa, addr) && MeetingWords(m, b, wb, addr)
    ensures Differ(MeetingMeaning(MeetOnStack(a, b), addr, odd, w), a, wa, b, wb, MeetingWorld(addr, HasBlock(a, b)))
  {
    ClashKinds(a, b);
    hide Clash, MeetingWords, Differ, MeetingWorld, MeetingMeaning, MeetOnStack;
    var onStack := MeetOnStack(a, b);
    var m, world := MeetingMeaning(onStack, addr, odd, w), MeetingWorld(addr, HasBlock(a, b));
    MeetingBounds(m, a, wa, addr);
    MeetingBounds(m, b, wb, addr);
    if IsFreeCall(a) {
      FreeDiffers(addr, odd, w, a, wa, b, wb);
    } else if IsFreeCall(b) {
      FreeDiffers(addr, odd, w, b, wb, a, wa);
      DifferSwapped(m, a, wa, b, wb, world);
    } else if IsMallocCall(a) {
      MallocDiffers(addr, odd, w, a, wa, b, wb);
    } else if IsMallocCall(b) {
      MallocDiffers(addr, odd, w, b, wb, a, wa);
      DifferSwapped(m, a, wa, b, wb, world);
    } else if IsAllocaByteCall(a) {
      AllocaDiffers(onStack, addr, odd, w, a, wa, b, wb);
    } else {
      AllocaDiffers(onStack, addr, odd, w, b, wb, a, wa);
      DifferSwapped(m, a, wa, b, wb, world);
    }
  }

  /** The operand that is given a value of its own: a stored value that is not a pointer of the two stores. */
  function OddOperand(a: Value, b: Value): Value
    requires a.StoreInst? && b.StoreInst?
  {
    if b.val in [a.ptr, b.ptr] then a.val else b.val
  }

  /** For a clashing pair there are a meaning and a state in which the two orders do not end the same. */
  lemma ClashDiffers(a: Value, b: Value) returns (m: Meaning, s: State)
    requires Clash(a, b) && Independent(a, b) && WellMade(a) && WellMade(b) && StoresDiffer(a, b)
    ensures TwoSteps(m, a, b, s) != TwoSteps(m, b, a, s)
  {
    hide Clash, Independent, WellMade, DistinctRegisters, Inputs, MeetingMeaning, Differ, TwoSteps, MeetingWorld, MeetingRegs, MeetOnStack;
    ClashTouches(a, b);
    var addr := Meeting(a, b);
    var odd, w := a, addr;
    if a.StoreInst? && b.StoreInst? {
      odd, w := OddOperand(a, b), addr + 1;
    }
    var operands := Operands(a) + Operands(b);
    m := MeetingMeaning(MeetOnStack(a, b), addr, odd, w);
    s := State(MeetingRegs(addr, odd, w, operands), MeetingWorld(addr, HasBlock(a, b)));
    MeetingInputs(a, b, odd, w, a);
    MeetingInputs(a, b, odd, w, b);
    var wa, wb := Inputs(m, s.regs, a), Inputs(m, s.regs, b);
    hide Operands, MeetingWords;
    if IsAccess(a) && IsAccess(b) {
      AccessesDiffer(m, addr, a, wa, b, wb);
    } else {
      CallsDiffer(addr, odd, w, a, wa, b, wb);
    }
    DifferentStates(m, a, b, s);
  }

  /** Two instructions the pass leaves unordered may always be exchanged if and only if they do not clash. */
  lemma CommuteIff(a: Value, b: Value)
    requires !CheckDom(a, b) && Independent(a, b) && WellMade(a) && WellMade(b) && StoresDiffer(a, b)
    ensures (forall m, s :: TwoSteps(m, a, b, s) == TwoSteps(m, b, a, s)) <==> !Clash(a, b)
  {
    hide CheckDom, Clash, WellMade, StoresDiffer, TwoSteps;
    if Clash(a, b) {
      var m, s := ClashDiffers(a, b);
    } else {
      forall m, s
        ensures TwoSteps(m, a, b, s) == TwoSteps(m, b, a, s)
      {
        StepsCommute(m, a, b, s);
      }
    }
  }
}
