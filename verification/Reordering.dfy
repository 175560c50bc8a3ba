/** Reordering a block as ReorderMemAccess.cpp schedules it keeps its registers, memory and call trace. */
module Reordering {
  import opened Words
  import opened Bytes
  import opened Ir
  import opened Scheduling

  /** The bytes addr .. addr + n are where a classification says: all of stack objects, or none of them. */
  predicate InRegion(m: Meaning, t: AllocType, addr: nat, n: nat) {
    match t
    case Stack => forall i :: addr <= i < addr + n ==> m.stackByte(i)
    case Heap => forall i :: addr <= i < addr + n ==> !m.stackByte(i)
    case _ => true
  }

  /** An access touches the region it is classified with; malloc and free deal in blocks without bytes of stack objects. */
  predicate RightlyClassified(m: Meaning, v: Value, ws: seq<Word>, w: World)
    requires |ws| == |Operands(v)|
  {
    && (IsAccess(v) ==> InRegion(m, GetAccessTypeReorder(v), AddressOf(v, ws), v.width))
    && (IsMallocCall(v) && MallocPlace(m, ws, w.blocks).Some? ==> InRegion(m, Heap, MallocPlace(m, ws, w.blocks).value, ws[0]))
    && (IsFreeCall(v) && |ws| == 1 && ws[0] in w.blocks ==> InRegion(m, Heap, ws[0], w.blocks[ws[0]]))
  }

  /** Every access of the run is rightly classified. */
  predicate ClassifiedRun(m: Meaning, vs: seq<Value>, s: State)
    requires AllInsts(vs)
  {
    vs == [] ||
    (RightlyClassified(m, vs[0], Inputs(m, s.regs, vs[0]), s.world) &&
     (Step(m, vs[0], s).Some? ==> ClassifiedRun(m, vs[1..], Step(m, vs[0], s).value)))
  }

  /** A step that also stops at an access outside the region it is classified with. */
  function CheckedStep(m: Meaning, v: Value, s: State): Option<State>
    requires IsInst(v)
  {
    if RightlyClassified(m, v, Inputs(m, s.regs, v), s.world) then Step(m, v, s) else None
  }

  function CheckedRun(m: Meaning, vs: seq<Value>, s: State): Option<State>
    requires AllInsts(vs)
  {
    if vs == [] then Some(s)
    else match CheckedStep(m, vs[0], s)
      case None => None
      case Some(s') => CheckedRun(m, vs[1..], s')
  }

  lemma {:induction false} CheckedIsRun(m: Meaning, vs: seq<Value>, s: State)
    requires AllInsts(vs)
    ensures ClassifiedRun(m, vs, s) ==> CheckedRun(m, vs, s) == Run(m, vs, s)
    ensures CheckedRun(m, vs, s).Some? ==> ClassifiedRun(m, vs, s) && Run(m, vs, s) == CheckedRun(m, vs, s)
  {
    hide RightlyClassified, Step;
    if vs != [] && Step(m, vs[0], s).Some? {
      CheckedIsRun(m, vs[1..], Step(m, vs[0], s).value);
    }
  }

  // ---- two independent instructions commute ----

  predicate Touches(v: Value) { IsAccess(v) || v.CallInst? }

  /** An allocation call a and an instruction b that do not depend on each other: two frees; alloca_bytes beside anything
      but itself and other calls; malloc or free beside a stack access. */
  predicate Compatible(a: Value, b: Value) {
    || (IsFreeCall(a) && IsFreeCall(b))
    || (IsAllocaByteCall(a) && (IsAccess(b) || IsMallocCall(b) || IsFreeCall(b)))
    || ((IsMallocCall(a) || IsFreeCall(a)) && IsAccess(b) && GetAccessTypeReorder(b) == Stack)
  }

  /** a stands before b, the pass does not order them, and they need not commute: an unclassified access in front of a
      classified one, or an allocation call beside what may depend on it. Two loads never clash. */
  predicate Clash(a: Value, b: Value) {
    && Touches(a) && Touches(b) && a !in Operands(b) && !(a.LoadInst? && b.LoadInst?)
    && (if IsAllocation(a) || IsAllocation(b) then !Compatible(a, b) && !Compatible(b, a)
        else GetAccessTypeReorder(a) == Unknown && GetAccessTypeReorder(b) in {Stack, Heap})
  }

  /** Neither instruction reads the other's result. */
  predicate Independent(a: Value, b: Value) {
    && IsInst(a) && IsInst(b) && a.id != b.id
    && (forall o :: o in Operands(b) && IsInst(o) ==> o.id != a.id)
    && (forall o :: o in Operands(a) && IsInst(o) ==> o.id != b.id)
  }

  lemma InputsKept(m: Meaning, regs: map<nat, Word>, v: Value, id: nat, result: Option<Word>)
    requires forall o :: o in Operands(v) && IsInst(o) ==> o.id != id
    ensures Inputs(m, SetResult(regs, id, result), v) == Inputs(m, regs, v)
  {
    var vs := Operands(v);
    forall i | 0 <= i < |vs|
      ensures ValueOf(m, SetResult(regs, id, result), vs[i]) == ValueOf(m, regs, vs[i])
    {
      assert vs[i] in vs;
    }
  }

  function CheckedEffect(m: Meaning, v: Value, ws: seq<Word>, w: World): Option<Effect>
    requires |ws| == |Operands(v)|
  {
    if RightlyClassified(m, v, ws, w) then EffectOf(m, v, ws, w) else None
  }

  /** The effects of first a, then b. */
  function BothEffects(m: Meaning, a: Value, wa: seq<Word>, b: Value, wb: seq<Word>, w: World): Option<(Effect, Effect)>
    requires |wa| == |Operands(a)| && |wb| == |Operands(b)|
  {
    match CheckedEffect(m, a, wa, w)
    case None => None
    case Some(ea) =>
      match CheckedEffect(m, b, wb, ea.world)
      case None => None
      case Some(eb) => Some((ea, eb))
  }

  /** Both orders give the same results and the same world, or both stop. */
  ghost predicate SameEffects(ab: Option<(Effect, Effect)>, ba: Option<(Effect, Effect)>) {
    && ab.Some? == ba.Some?
    && (ab.Some? ==> ab.value.0.result == ba.value.1.result && ab.value.1.result == ba.value.0.result)
    && (ab.Some? ==> ab.value.1.world == ba.value.1.world)
  }

  ghost predicate Commute(m: Meaning, a: Value, wa: seq<Word>, b: Value, wb: seq<Word>, w: World)
    requires |wa| == |Operands(a)| && |wb| == |Operands(b)|
  {
    SameEffects(BothEffects(m, a, wa, b, wb, w), BothEffects(m, b, wb, a, wa, w))
  }

  lemma PureEffect(m: Meaning, a: Value, wa: seq<Word>, w: World)
    requires |wa| == |Operands(a)| && !Touches(a)
    ensures CheckedEffect(m, a, wa, w) == if m.pure(a, wa).None? then None else Some(Effect(Some(m.pure(a, wa).value), w))
  {
  }

  lemma PureEffects(m: Meaning, a: Value, wa: seq<Word>, b: Value, wb: seq<Word>, w: World)
    requires |wa| == |Operands(a)| && |wb| == |Operands(b)| && !Touches(a)
    ensures Commute(m, a, wa, b, wb, w)
  {
    PureEffect(m, a, wa, w);
    var eb := CheckedEffect(m, b, wb, w);
    if eb.Some? {
      PureEffect(m, a, wa, eb.value.world);
    }
    hide CheckedEffect, Operands;
  }

  /** The bytes a .. a + n and b .. b + k have no byte in common. */
  predicate Apart(a: nat, n: nat, b: nat, k: nat) { n == 0 || k == 0 || a + n <= b || b + k <= a }

  /** Bytes of stack objects and other bytes are apart. */
  lemma RegionsApart(m: Meaning, a: nat, n: nat, b: nat, k: nat)
    requires InRegion(m, Stack, a, n) && InRegion(m, Heap, b, k)
    ensures Apart(a, n, b, k)
  {
    var x := if a < b then b else a;
    assert (a <= x < a + n ==> m.stackByte(x)) && (b <= x < b + k ==> !m.stackByte(x));
  }

  lemma WrittenElsewhere(mem: Bytemap, addr: nat, bs: seq<Byte>, a: nat, n: nat)
    requires Apart(a, n, addr, |bs|)
    ensures Accessible(WriteBytes(mem, addr, bs), a, n) <==> Accessible(mem, a, n)
    ensures Accessible(mem, a, n) ==> ReadBytes(WriteBytes(mem, addr, bs), a, n) == ReadBytes(mem, a, n)
  {
    assert forall i :: i in WriteBytes(mem, addr, bs) <==> i in mem;
  }

  lemma WritesCommute(mem: Bytemap, addr: nat, bs: seq<Byte>, addr': nat, bs': seq<Byte>)
    requires Apart(addr, |bs|, addr', |bs'|)
    ensures WriteBytes(WriteBytes(mem, addr, bs), addr', bs') == WriteBytes(WriteBytes(mem, addr', bs'), addr, bs)
  {
  }

  lemma AccessEffect(m: Meaning, v: Value, ws: seq<Word>, w: World)
    requires IsAccess(v) && |ws| == |Operands(v)|
    ensures CheckedEffect(m, v, ws, w) ==
            if !InRegion(m, GetAccessTypeReorder(v), AddressOf(v, ws), v.width) || !Accessible(w.mem, AddressOf(v, ws), v.width) then None
            else if v.LoadInst? then Some(Effect(Some(Wrap(Number(ReadBytes(w.mem, AddressOf(v, ws), v.width)))), w))
            else Some(Effect(None, w.(mem := WriteBytes(w.mem, AddressOf(v, ws), LowBytes(v.width, ws[0])))))
  {
    hide InRegion, GetAccessTypeReorder, Accessible, ReadBytes, WriteBytes, LowBytes;
  }

  lemma DisjointAccesses(m: Meaning, a: Value, wa: seq<Word>, b: Value, wb: seq<Word>, w: World)
    requires IsAccess(a) && IsAccess(b) && |wa| == |Operands(a)| && |wb| == |Operands(b)|
    requires Apart(AddressOf(a, wa), a.width, AddressOf(b, wb), b.width)
    ensures Commute(m, a, wa, b, wb, w)
  {
    hide InRegion, GetAccessTypeReorder, Accessible, WriteBytes, ReadBytes, LowBytes, CheckedEffect;
    var pa, pb := AddressOf(a, wa), AddressOf(b, wb);
    AccessEffect(m, a, wa, w);
    AccessEffect(m, b, wb, w);
    if a.StoreInst? {
      WrittenElsewhere(w.mem, pa, LowBytes(a.width, wa[0]), pb, b.width);
      AccessEffect(m, b, wb, w.(mem := WriteBytes(w.mem, pa, LowBytes(a.width, wa[0]))));
    }
    if b.StoreInst? {
      WrittenElsewhere(w.mem, pb, LowBytes(b.width, wb[0]), pa, a.width);
      AccessEffect(m, a, wa, w.(mem := WriteBytes(w.mem, pb, LowBytes(b.width, wb[0]))));
    }
    if a.StoreInst? && b.StoreInst? {
      WritesCommute(w.mem, pa, LowBytes(a.width, wa[0]), pb, LowBytes(b.width, wb[0]));
    }
    hide AddressOf, Operands;
  }

  /** Unordered instructions that do not clash: one touches nothing, both load, they access the two different regions, or
      one is an allocation call the other does not depend on. */
  lemma UnorderedKinds(a: Value, b: Value)
    requires !CheckDom(a, b)
    ensures Clash(a, b) <==>
            Touches(a) && Touches(b) && !(a.LoadInst? && b.LoadInst?) && !Compatible(a, b) && !Compatible(b, a) &&
            !(IsAccess(a) && IsAccess(b) && {GetAccessTypeReorder(a), GetAccessTypeReorder(b)} == {Stack, Heap})
  {
    if IsAccess(a) {
      PointerType(a.ptr);
    }
    if IsAccess(b) {
      PointerType(b.ptr);
    }
    hide GetOpTypeReorder;
  }

  lemma LoadsCommute(m: Meaning, a: Value, wa: seq<Word>, b: Value, wb: seq<Word>, w: World)
    requires a.LoadInst? && b.LoadInst? && |wa| == |Operands(a)| && |wb| == |Operands(b)|
    ensures Commute(m, a, wa, b, wb, w)
  {
    hide CheckedEffect, InRegion, Accessible, ReadBytes, Wrap, GetAccessTypeReorder;
    AccessEffect(m, a, wa, w);
    AccessEffect(m, b, wb, w);
  }

  // ---- allocation calls ----

  lemma FreeChecked(m: Meaning, v: Value, ws: seq<Word>, w: World)
    requires IsFreeCall(v) && |ws| == |Operands(v)|
    ensures CheckedEffect(m, v, ws, w) ==
            if |ws| != 1 || ws[0] !in w.blocks || !InRegion(m, Heap, ws[0], w.blocks[ws[0]]) then None
            else Some(Effect(None, w.(mem := Without(w.mem, ws[0], w.blocks[ws[0]]), blocks := w.blocks - {ws[0]})))
  {
    hide InRegion, Without;
  }

  lemma MallocChecked(m: Meaning, v: Value, ws: seq<Word>, w: World)
    requires IsMallocCall(v) && |ws| == |Operands(v)|
    ensures var p := MallocPlace(m, ws, w.blocks);
            CheckedEffect(m, v, ws, w) ==
            if p.None? || !InRegion(m, Heap, p.value, ws[0]) then None
            else Some(Effect(p, w.(mem := WithZeros(w.mem, p.value, ws[0]), blocks := w.blocks[p.value := ws[0]])))
  {
    hide InRegion, WithZeros, MallocPlace;
    if MallocPlace(m, ws, w.blocks).Some? {
      PlacedSize(m, ws, w.blocks);
    }
  }

  lemma PlacedSize(m: Meaning, ws: seq<Word>, blocks: map<nat, nat>)
    requires MallocPlace(m, ws, blocks).Some?
    ensures |ws| == 1
  {
  }

  lemma AllocaChecked(m: Meaning, v: Value, ws: seq<Word>, w: World)
    requires IsAllocaByteCall(v) && |ws| == |Operands(v)|
    ensures CheckedEffect(m, v, ws, w) == AllocaBytesEffect(ws, w)
  {
    hide InRegion, AllocaBytesEffect;
  }

  lemma FreesCommute(m: Meaning, a: Value, wa: seq<Word>, b: Value, wb: seq<Word>, w: World)
    requires IsFreeCall(a) && IsFreeCall(b) && |wa| == |Operands(a)| && |wb| == |Operands(b)|
    ensures Commute(m, a, wa, b, wb, w)
  {
    hide CheckedEffect, InRegion, Operands, Without;
    FreeChecked(m, a, wa, w);
    FreeChecked(m, b, wb, w);
    var ea, eb := CheckedEffect(m, a, wa, w), CheckedEffect(m, b, wb, w);
    if ea.Some? {
      FreeChecked(m, b, wb, ea.value.world);
    }
    if eb.Some? {
      FreeChecked(m, a, wa, eb.value.world);
    }
    if ea.Some? && eb.Some? && wa[0] != wb[0] {
      WithoutCommutes(w.mem, wa[0], w.blocks[wa[0]], wb[0], w.blocks[wb[0]]);
      assert w.blocks - {wa[0]} - {wb[0]} == w.blocks - {wb[0]} - {wa[0]};
    }
  }

  lemma WithoutCommutes(mem: Bytemap, a: nat, n: nat, b: nat, k: nat)
    ensures Without(Without(mem, a, n), b, k) == Without(Without(mem, b, k), a, n)
  {
  }

  /** Everything but other calls and itself ignores and keeps the stack pointer. */
  lemma IgnoresStackPointer(m: Meaning, v: Value, ws: seq<Word>, w: World, sp: Word)
    requires |ws| == |Operands(v)| && (IsAccess(v) || IsMallocCall(v) || IsFreeCall(v))
    ensures var e := CheckedEffect(m, v, ws, w);
            CheckedEffect(m, v, ws, w.(sp := sp)) ==
            if e.None? then None else Some(e.value.(world := e.value.world.(sp := sp)))
    ensures CheckedEffect(m, v, ws, w).Some? ==> CheckedEffect(m, v, ws, w).value.world.sp == w.sp
  {
    hide CheckedEffect, InRegion, GetAccessTypeReorder, Accessible, ReadBytes, WriteBytes, WithZeros, Without, MallocPlace, LowBytes;
    if IsAccess(v) {
      AccessEffect(m, v, ws, w);
      AccessEffect(m, v, ws, w.(sp := sp));
    } else if IsMallocCall(v) {
      MallocChecked(m, v, ws, w);
      MallocChecked(m, v, ws, w.(sp := sp));
    } else {
      FreeChecked(m, v, ws, w);
      FreeChecked(m, v, ws, w.(sp := sp));
    }
  }

  lemma AllocaCommutes(m: Meaning, a: Value, wa: seq<Word>, b: Value, wb: seq<Word>, w: World)
    requires IsAllocaByteCall(a) && (IsAccess(b) || IsMallocCall(b) || IsFreeCall(b))
    requires |wa| == |Operands(a)| && |wb| == |Operands(b)|
    ensures Commute(m, a, wa, b, wb, w)
  {
    hide CheckedEffect, Operands, Wrap;
    AllocaChecked(m, a, wa, w);
    if wa != [] {
      IgnoresStackPointer(m, b, wb, w, Wrap((w.sp as int) - (wa[0] as int)));
    }
    var eb := CheckedEffect(m, b, wb, w);
    if eb.Some? {
      AllocaChecked(m, a, wa, eb.value.world);
    }
  }

  /** A stack access does not see a block come or go. */
  lemma BlockElsewhere(m: Meaning, v: Value, ws: seq<Word>, w: World, w': World, added: bool, addr: nat, n: nat)
    requires IsAccess(v) && |ws| == |Operands(v)| && Apart(AddressOf(v, ws), v.width, addr, n)
    requires w' == w.(mem := Remapped(w.mem, added, addr, n), blocks := w'.blocks)
    ensures var e, e' := CheckedEffect(m, v, ws, w), CheckedEffect(m, v, ws, w');
            && e.Some? == e'.Some?
            && (e.Some? ==> e.value.result == e'.value.result && e.value.world.blocks == w.blocks)
            && (e.Some? ==> e'.value.world == e.value.world.(mem := Remapped(e.value.world.mem, added, addr, n), blocks := w'.blocks))
  {
    hide CheckedEffect, InRegion, GetAccessTypeReorder, Accessible, ReadBytes, WriteBytes, Remapped, LowBytes;
    AccessEffect(m, v, ws, w);
    AccessEffect(m, v, ws, w');
    BytesElsewhere(w.mem, added, addr, n, AddressOf(v, ws), v.width);
    if v.StoreInst? {
      WriteElsewhere(w.mem, added, addr, n, AddressOf(v, ws), LowBytes(v.width, ws[0]));
    }
  }

  /** The memory with a block added or taken away. */
  function Remapped(mem: Bytemap, added: bool, addr: nat, n: nat): Bytemap {
    if added then WithZeros(mem, addr, n) else Without(mem, addr, n)
  }

  lemma BytesElsewhere(mem: Bytemap, added: bool, addr: nat, n: nat, a: nat, k: nat)
    requires Apart(a, k, addr, n)
    ensures var mem' := Remapped(mem, added, addr, n);
            && (Accessible(mem', a, k) <==> Accessible(mem, a, k))
            && (Accessible(mem, a, k) ==> ReadBytes(mem', a, k) == ReadBytes(mem, a, k))
  {
    var mem' := Remapped(mem, added, addr, n);
    assert forall i :: a <= i < a + k ==> (i in mem' <==> i in mem) && (i in mem ==> mem'[i] == mem[i]);
  }

  lemma WriteElsewhere(mem: Bytemap, added: bool, addr: nat, n: nat, a: nat, bs: seq<Byte>)
    requires Apart(a, |bs|, addr, n)
    ensures WriteBytes(Remapped(mem, added, addr, n), a, bs) == Remapped(WriteBytes(mem, a, bs), added, addr, n)
  {
  }

  lemma StackAccessBesideMalloc(m: Meaning, a: Value, wa: seq<Word>, b: Value, wb: seq<Word>, w: World)
    requires IsMallocCall(a) && IsAccess(b) && GetAccessTypeReorder(b) == Stack
    requires |wa| == |Operands(a)| && |wb| == |Operands(b)|
    ensures Commute(m, a, wa, b, wb, w)
  {
    hide CheckedEffect, InRegion, GetAccessTypeReorder, WithZeros, Without, MallocPlace, Operands;
    MallocChecked(m, a, wa, w);
    if MallocPlace(m, wa, w.blocks).Some? {
      PlacedSize(m, wa, w.blocks);
    }
    StackAccess(m, b, wb, w);
    var ea, eb := CheckedEffect(m, a, wa, w), CheckedEffect(m, b, wb, w);
    if ea.Some? {
      StackAccess(m, b, wb, ea.value.world);
      if InRegion(m, Stack, AddressOf(b, wb), b.width) {
        RegionsApart(m, AddressOf(b, wb), b.width, ea.value.result.value, wa[0]);
        BlockElsewhere(m, b, wb, w, ea.value.world, true, ea.value.result.value, wa[0]);
      }
    }
    if eb.Some? {
      MallocChecked(m, a, wa, eb.value.world);
    }
  }

  /** A stack access that completes is in its region, and leaves the blocks alone. */
  lemma StackAccess(m: Meaning, v: Value, ws: seq<Word>, w: World)
    requires IsAccess(v) && |ws| == |Operands(v)| && GetAccessTypeReorder(v) == Stack
    ensures !InRegion(m, Stack, AddressOf(v, ws), v.width) ==> CheckedEffect(m, v, ws, w).None?
    ensures CheckedEffect(m, v, ws, w).Some? ==> CheckedEffect(m, v, ws, w).value.world.blocks == w.blocks
  {
    hide CheckedEffect;
    AccessEffect(m, v, ws, w);
    hide InRegion, Accessible, ReadBytes, WriteBytes, LowBytes;
  }

  lemma StackAccessBesideFree(m: Meaning, a: Value, wa: seq<Word>, b: Value, wb: seq<Word>, w: World)
    requires IsFreeCall(a) && IsAccess(b) && GetAccessTypeReorder(b) == Stack
    requires |wa| == |Operands(a)| && |wb| == |Operands(b)|
    ensures Commute(m, a, wa, b, wb, w)
  {
    hide CheckedEffect, InRegion, GetAccessTypeReorder, WithZeros, Without, Operands;
    FreeChecked(m, a, wa, w);
    StackAccess(m, b, wb, w);
    var ea, eb := CheckedEffect(m, a, wa, w), CheckedEffect(m, b, wb, w);
    if ea.Some? {
      StackAccess(m, b, wb, ea.value.world);
      if InRegion(m, Stack, AddressOf(b, wb), b.width) {
        RegionsApart(m, AddressOf(b, wb), b.width, wa[0], w.blocks[wa[0]]);
        BlockElsewhere(m, b, wb, w, ea.value.world, false, wa[0], w.blocks[wa[0]]);
      }
    }
    if eb.Some? {
      FreeChecked(m, a, wa, eb.value.world);
    }
  }

  lemma CompatibleCommute(m: Meaning, a: Value, wa: seq<Word>, b: Value, wb: seq<Word>, w: World)
    requires Compatible(a, b) && |wa| == |Operands(a)| && |wb| == |Operands(b)|
    ensures Commute(m, a, wa, b, wb, w)
  {
    hide Commute, GetAccessTypeReorder, Operands;
    if IsAllocaByteCall(a) {
      AllocaCommutes(m, a, wa, b, wb, w);
    } else if IsMallocCall(a) {
      StackAccessBesideMalloc(m, a, wa, b, wb, w);
    } else if IsFreeCall(b) {
      FreesCommute(m, a, wa, b, wb, w);
    } else {
      StackAccessBesideFree(m, a, wa, b, wb, w);
    }
  }

  lemma CommuteSwapped(m: Meaning, a: Value, wa: seq<Word>, b: Value, wb: seq<Word>, w: World)
    requires |wa| == |Operands(a)| && |wb| == |Operands(b)| && Commute(m, b, wb, a, wa, w)
    ensures Commute(m, a, wa, b, wb, w)
  {
    hide BothEffects, Operands;
  }

  lemma TwoRegions(m: Meaning, a: Value, wa: seq<Word>, b: Value, wb: seq<Word>, w: World)
    requires IsAccess(a) && IsAccess(b) && |wa| == |Operands(a)| && |wb| == |Operands(b)|
    requires GetAccessTypeReorder(a) == Stack && GetAccessTypeReorder(b) == Heap
    ensures Commute(m, a, wa, b, wb, w)
  {
    hide CheckedEffect, InRegion, GetAccessTypeReorder, Accessible, ReadBytes, WriteBytes, LowBytes, Operands;
    var pa, pb := AddressOf(a, wa), AddressOf(b, wb);
    if InRegion(m, Stack, pa, a.width) && InRegion(m, Heap, pb, b.width) {
      RegionsApart(m, pa, a.width, pb, b.width);
      DisjointAccesses(m, a, wa, b, wb, w);
    } else {
      forall w'
        ensures CheckedEffect(m, a, wa, w').None? || CheckedEffect(m, b, wb, w').None?
      {
        AccessEffect(m, a, wa, w');
        AccessEffect(m, b, wb, w');
      }
      OutsideStays(m, a, wa);
      OutsideStays(m, b, wb);
    }
  }

  /** An access outside its region stops in every world. */
  lemma OutsideStays(m: Meaning, v: Value, ws: seq<Word>)
    requires IsAccess(v) && |ws| == |Operands(v)|
    ensures !InRegion(m, GetAccessTypeReorder(v), AddressOf(v, ws), v.width) ==> forall w :: CheckedEffect(m, v, ws, w).None?
  {
    hide InRegion, EffectOf, GetAccessTypeReorder;
  }

  lemma EffectsCommute(m: Meaning, a: Value, wa: seq<Word>, b: Value, wb: seq<Word>, w: World)
    requires |wa| == |Operands(a)| && |wb| == |Operands(b)|
    requires !CheckDom(a, b) && !Clash(a, b)
    ensures Commute(m, a, wa, b, wb, w)
  {
    UnorderedKinds(a, b);
    hide CheckDom, Clash, Compatible, Commute, GetAccessTypeReorder, Operands;
    if !Touches(a) {
      PureEffects(m, a, wa, b, wb, w);
    } else if !Touches(b) {
      PureEffects(m, b, wb, a, wa, w);
      CommuteSwapped(m, a, wa, b, wb, w);
    } else if a.LoadInst? && b.LoadInst? {
      LoadsCommute(m, a, wa, b, wb, w);
    } else if Compatible(a, b) {
      CompatibleCommute(m, a, wa, b, wb, w);
    } else if Compatible(b, a) {
      CompatibleCommute(m, b, wb, a, wa, w);
      CommuteSwapped(m, a, wa, b, wb, w);
    } else if GetAccessTypeReorder(a) == Stack {
      assert GetAccessTypeReorder(b) in {Stack, Heap};
      TwoRegions(m, a, wa, b, wb, w);
    } else {
      assert GetAccessTypeReorder(b) in {Stack, Heap} && GetAccessTypeReorder(a) in {Stack, Heap};
      TwoRegions(m, b, wb, a, wa, w);
      CommuteSwapped(m, a, wa, b, wb, w);
    }
  }

  function TwoSteps(m: Meaning, a: Value, b: Value, s: State): Option<State>
    requires IsInst(a) && IsInst(b)
  {
    match CheckedStep(m, a, s)
    case None => None
    case Some(s') => CheckedStep(m, b, s')
  }

  lemma TwoStepsEffects(m: Meaning, a: Value, b: Value, s: State)
    requires IsInst(a) && IsInst(b) && forall o :: o in Operands(b) && IsInst(o) ==> o.id != a.id
    ensures var e := BothEffects(m, a, Inputs(m, s.regs, a), b, Inputs(m, s.regs, b), s.world);
            TwoSteps(m, a, b, s) ==
            if e.None? then None
            else Some(State(SetResult(SetResult(s.regs, a.id, e.value.0.result), b.id, e.value.1.result), e.value.1.world))
  {
    hide EffectOf, RightlyClassified;
    var ea := CheckedEffect(m, a, Inputs(m, s.regs, a), s.world);
    if ea.Some? {
      InputsKept(m, s.regs, b, a.id, ea.value.result);
    }
    hide Inputs;
  }

  lemma ResultsCommute(regs: map<nat, Word>, a: nat, b: nat)
    requires a != b
    ensures forall ra, rb :: SetResult(SetResult(regs, a, ra), b, rb) == SetResult(SetResult(regs, b, rb), a, ra)
  {
  }

  lemma StepsCommute(m: Meaning, a: Value, b: Value, s: State)
    requires !CheckDom(a, b) && !Clash(a, b) && Independent(a, b)
    ensures TwoSteps(m, a, b, s) == TwoSteps(m, b, a, s)
  {
    EffectsCommute(m, a, Inputs(m, s.regs, a), b, Inputs(m, s.regs, b), s.world);
    TwoStepsEffects(m, a, b, s);
    TwoStepsEffects(m, b, a, s);
    hide TwoSteps, BothEffects, CheckDom, Clash, Inputs, Operands;
    ResultsCommute(s.regs, a.id, b.id);
    hide SetResult;
  }

  // ---- moving one instruction to the front, then all of them ----

  /** Instruction k moves to the front of vs past instructions it does not depend on. */
  lemma {:induction false} MoveToFront(m: Meaning, vs: seq<Value>, k: nat, s: State)
    requires AllInsts(vs) && k < |vs|
    requires forall i :: 0 <= i < k ==> !CheckDom(vs[i], vs[k]) && !Clash(vs[i], vs[k]) && Independent(vs[i], vs[k])
    ensures CheckedRun(m, vs, s) == CheckedRun(m, [vs[k]] + (vs[..k] + vs[k + 1..]), s)
  {
    hide CheckedStep, Clash, Independent, CheckDom;
    if k == 0 {
      assert [vs[0]] + (vs[..0] + vs[1..]) == vs;
    } else {
      var rest := vs[1..];
      var tail := rest[..k - 1] + rest[k..];
      assert tail == vs[1..k] + vs[k + 1..];
      assert rest[k - 1] == vs[k];
      FirstTwo(m, vs[k], vs[0], tail, s);
      FirstTwo(m, vs[0], vs[k], tail, s);
      StepsCommute(m, vs[0], vs[k], s);
      assert [vs[k]] + (vs[..k] + vs[k + 1..]) == [vs[k], vs[0]] + tail;
      if CheckedStep(m, vs[0], s).Some? {
        MoveToFront(m, rest, k - 1, CheckedStep(m, vs[0], s).value);
        assert [vs[0], vs[k]] + tail == [vs[0]] + ([vs[k]] + tail);
      }
      FirstOne(m, vs[0], rest, s);
      FirstOne(m, vs[0], [vs[k]] + tail, s);
    }
  }

  lemma FirstOne(m: Meaning, a: Value, vs: seq<Value>, s: State)
    requires IsInst(a) && AllInsts(vs)
    ensures AllInsts([a] + vs)
    ensures CheckedRun(m, [a] + vs, s) ==
            if CheckedStep(m, a, s).None? then None else CheckedRun(m, vs, CheckedStep(m, a, s).value)
  {
    assert ([a] + vs)[1..] == vs;
  }

  lemma FirstTwo(m: Meaning, a: Value, b: Value, vs: seq<Value>, s: State)
    requires IsInst(a) && IsInst(b) && AllInsts(vs)
    ensures AllInsts([a, b] + vs)
    ensures CheckedRun(m, [a, b] + vs, s) ==
            if TwoSteps(m, a, b, s).None? then None else CheckedRun(m, vs, TwoSteps(m, a, b, s).value)
  {
    hide CheckedStep;
    assert ([a, b] + vs)[1..] == [b] + vs;
    assert ([b] + vs)[1..] == vs;
  }

  /** The instructions a block's schedule may permute: from p on, each defined before it is used. */
  ghost predicate WellFormed(insts: seq<Value>, p: nat) {
    && AllInsts(insts)
    && (forall i, k :: p <= i < k < |insts| ==> insts[i].id != insts[k].id)
    && (forall i, k, o :: p <= i < k < |insts| && o in Operands(insts[i]) && IsInst(o) ==> o.id != insts[k].id)
    && (forall i, k, o :: p <= i < k < |insts| && o in Operands(insts[k]) && IsInst(o) && o.id == insts[i].id ==> o == insts[i])
  }

  lemma IndependentPair(insts: seq<Value>, p: nat, i: nat, k: nat)
    requires WellFormed(insts, p) && p <= i < k < |insts| && !CheckDom(insts[i], insts[k])
    ensures Independent(insts[i], insts[k])
  {
    hide GetAccessTypeReorder;
    var a, b := insts[i], insts[k];
    forall o | o in Operands(b) && IsInst(o)
      ensures o.id != a.id
    {
    }
  }

  /** No two instructions that clash are exchanged. */
  ghost predicate KeepsClashes(insts: seq<Value>, order: seq<nat>) {
    forall a, b :: 0 <= a < b < |order| && order[b] < order[a] < |insts| ==> !Clash(insts[order[b]], insts[order[a]])
  }

  /** rem lists what is left in the original order, order what is left in the scheduled order. */
  ghost predicate Left(insts: seq<Value>, p: nat, rem: seq<nat>, order: seq<nat>) {
    && Increasing(rem) && Distinct(order) && KeepsEdges(insts, order) && KeepsClashes(insts, order)
    && (forall i :: i in rem ==> p <= i < |insts|)
    && (forall i :: i in order <==> i in rem)
  }

  lemma LeftRest(insts: seq<Value>, p: nat, rem: seq<nat>, order: seq<nat>, k: nat)
    requires Left(insts, p, rem, order) && order != [] && k < |rem| && rem[k] == order[0]
    ensures Left(insts, p, rem[..k] + rem[k + 1..], order[1..])
  {
    hide Edge, Clash;
    var rem', order' := rem[..k] + rem[k + 1..], order[1..];
    assert forall a :: 0 <= a < |rem'| ==> rem'[a] == rem[if a < k then a else a + 1];
    assert forall a :: 0 <= a < |order'| ==> order'[a] == order[a + 1];
    assert forall a, b :: 0 <= a < b < |rem'| ==> rem'[a] < rem'[b];
    forall i
      ensures i in rem' <==> i in rem && i != rem[k]
    {
      if i in rem && i != rem[k] {
        var a :| 0 <= a < |rem| && rem[a] == i;
        assert rem'[if a < k then a else a - 1] == i;
      }
    }
    forall i
      ensures i in order' <==> i in order && i != order[0]
    {
      if i in order && i != order[0] {
        var a :| 0 <= a < |order| && order[a] == i;
        assert order'[a - 1] == i;
      }
      if i in order' {
        var a :| 0 <= a < |order'| && order'[a] == i;
        assert order[a + 1] != order[0];
      }
    }
  }

  lemma FrontReady(insts: seq<Value>, p: nat, rem: seq<nat>, order: seq<nat>, k: nat, i: nat)
    requires WellFormed(insts, p) && Left(insts, p, rem, order) && order != [] && i < k < |rem| && rem[k] == order[0]
    ensures p <= rem[i] < |insts| && p <= rem[k] < |insts|
    ensures !CheckDom(insts[rem[i]], insts[rem[k]]) && !Clash(insts[rem[i]], insts[rem[k]]) && Independent(insts[rem[i]], insts[rem[k]])
  {
    hide CheckDom, Clash;
    assert rem[i] in rem && rem[k] in rem && rem[i] < rem[k];
    var b :| 0 <= b < |order| && order[b] == rem[i];
    assert b > 0 && !Edge(insts, order[b], order[0]);
    IndependentPair(insts, p, rem[i], rem[k]);
  }

  lemma PickInsts(insts: seq<Value>, p: nat, rem: seq<nat>)
    requires WellFormed(insts, p) && forall i :: i in rem ==> p <= i < |insts|
    ensures AllInsts(Pick(insts, rem))
  {
  }

  lemma PickWithout(insts: seq<Value>, rem: seq<nat>, k: nat, rest: seq<nat>)
    requires k < |rem| && rest == rem[..k] + rem[k + 1..]
    requires (forall i :: i in rem ==> i < |insts|) && forall i :: i in rest ==> i < |insts|
    ensures Pick(insts, rem)[..k] + Pick(insts, rem)[k + 1..] == Pick(insts, rest)
  {
  }

  /** The instruction scheduled first can be moved to the front of the ones left. */
  lemma FrontMoves(m: Meaning, insts: seq<Value>, p: nat, rem: seq<nat>, order: seq<nat>, k: nat, s: State)
    requires WellFormed(insts, p) && Left(insts, p, rem, order) && order != [] && k < |rem| && rem[k] == order[0]
    ensures AllInsts(Pick(insts, rem)) && AllInsts(Pick(insts, rem[..k] + rem[k + 1..])) && order[0] < |insts| && IsInst(insts[order[0]])
    ensures CheckedRun(m, Pick(insts, rem), s) == CheckedRun(m, [insts[order[0]]] + Pick(insts, rem[..k] + rem[k + 1..]), s)
  {
    LeftRest(insts, p, rem, order, k);
    PickInsts(insts, p, rem);
    PickInsts(insts, p, rem[..k] + rem[k + 1..]);
    hide CheckedRun, CheckDom, Clash, Independent, WellFormed, Left;
    var vs := Pick(insts, rem);
    forall i | 0 <= i < k
      ensures !CheckDom(vs[i], vs[k]) && !Clash(vs[i], vs[k]) && Independent(vs[i], vs[k])
    {
      FrontReady(insts, p, rem, order, k, i);
    }
    MoveToFront(m, vs, k, s);
    PickWithout(insts, rem, k, rem[..k] + rem[k + 1..]);
  }

  lemma PickFirst(insts: seq<Value>, p: nat, order: seq<nat>)
    requires WellFormed(insts, p) && order != [] && forall i :: i in order ==> p <= i < |insts|
    ensures order[0] < |insts| && IsInst(insts[order[0]])
    ensures AllInsts(Pick(insts, order)) && AllInsts(Pick(insts, order[1..]))
    ensures Pick(insts, order) == [insts[order[0]]] + Pick(insts, order[1..])
  {
    PickInsts(insts, p, order);
    PickInsts(insts, p, order[1..]);
    hide WellFormed;
    assert order[0] in order;
  }

  lemma HeadIsIn(rem: seq<nat>)
    ensures rem != [] ==> rem[0] in rem
  {
  }

  lemma NothingLeft(insts: seq<Value>, p: nat, rem: seq<nat>)
    requires Left(insts, p, rem, [])
    ensures rem == []
  {
    HeadIsIn(rem);
  }

  lemma {:induction false} OrderSound(m: Meaning, insts: seq<Value>, p: nat, rem: seq<nat>, order: seq<nat>, s: State)
    requires WellFormed(insts, p) && Left(insts, p, rem, order)
    ensures AllInsts(Pick(insts, rem)) && AllInsts(Pick(insts, order))
    ensures CheckedRun(m, Pick(insts, order), s) == CheckedRun(m, Pick(insts, rem), s)
    decreases |order|
  {
    hide CheckedStep, WellFormed, Clash, CheckDom, Independent;
    if order == [] {
      NothingLeft(insts, p, rem);
    } else {
      assert order[0] in order;
      var k :| 0 <= k < |rem| && rem[k] == order[0];
      FrontMoves(m, insts, p, rem, order, k, s);
      LeftRest(insts, p, rem, order, k);
      PickFirst(insts, p, order);
      var v := insts[order[0]];
      var rem', order' := rem[..k] + rem[k + 1..], order[1..];
      FirstOne(m, v, Pick(insts, rem'), s);
      FirstOne(m, v, Pick(insts, order'), s);
      hide Left, CheckedRun;
      if CheckedStep(m, v, s).Some? {
        OrderSound(m, insts, p, rem', order', CheckedStep(m, v, s).value);
      }
    }
  }

  function UpFrom(p: nat, n: nat): (r: seq<nat>)
    requires p <= n
    ensures |r| == n - p && forall i :: 0 <= i < n - p ==> r[i] == p + i
  {
    seq(n - p, i requires 0 <= i < n - p => p + i)
  }

  lemma ScheduleLeft(insts: seq<Value>, p: nat, order: seq<nat>)
    requires IsSchedule(insts, order) && StartsInOrder(order, p) && p <= |insts| && KeepsClashes(insts, order)
    ensures Left(insts, p, UpFrom(p, |insts|), order[p..])
  {
    hide Edge, Clash;
    var rem, rest := UpFrom(p, |insts|), order[p..];
    assert forall a :: 0 <= a < |rest| ==> rest[a] == order[a + p];
    forall i: nat | i < p
      ensures i in order[..p]
    {
      assert order[..p][i] == i;
    }
    forall i
      ensures i in rest <==> p <= i < |insts|
    {
      if i in rest {
        var a :| 0 <= a < |rest| && rest[a] == i;
        assert order[a + p] in order && i !in order[..p];
      }
      if p <= i < |insts| {
        assert i in order;
        var a :| 0 <= a < |order| && order[a] == i;
        assert rest[a - p] == i;
      }
    }
    forall i
      ensures i in rem <==> p <= i < |insts|
    {
      if p <= i < |insts| {
        assert rem[i - p] == i;
      }
    }
    assert KeepsEdges(insts, rest) && KeepsClashes(insts, rest) by {
      forall a, b | 0 <= a < b < |rest|
        ensures !Edge(insts, rest[b], rest[a])
        ensures rest[b] < rest[a] < |insts| ==> !Clash(insts[rest[b]], insts[rest[a]])
      {
        assert rest[a] == order[a + p] && rest[b] == order[b + p];
      }
    }
  }

  lemma PickParts(insts: seq<Value>, order: seq<nat>, p: nat)
    requires p <= |insts| && p <= |order| && forall i :: i in order ==> i < |insts|
    requires StartsInOrder(order, p)
    ensures Pick(insts, order)[..p] == insts[..p]
    ensures (forall i :: i in order[p..] ==> i < |insts|) && Pick(insts, order)[p..] == Pick(insts, order[p..])
    ensures Pick(insts, UpFrom(p, |insts|)) == insts[p..]
  {
    assert forall i :: i in order[p..] ==> i in order;
    assert forall a :: 0 <= a < |order[p..]| ==> Pick(insts, order)[p..][a] == Pick(insts, order[p..])[a];
  }

  /** For every meaning of calls and pure operations and every state at the end of the phis, a scheduled block that
      exchanges no clashing instructions ends with the registers, memory and trace of the original one. Where the
      original one traps, the scheduled one traps or leaves the regions of the classification. */
  lemma ReorderKeepsRun(m: Meaning, insts: seq<Value>, order: seq<nat>, p: nat, s: State)
    requires p <= Leading(insts) && WellFormed(insts, p)
    requires IsSchedule(insts, order) && StartsInOrder(order, Leading(insts)) && KeepsClashes(insts, order)
    requires ClassifiedRun(m, insts[p..], s)
    ensures Pick(insts, order)[..p] == insts[..p]
    ensures AllInsts(Pick(insts, order)[p..])
    ensures Run(m, insts[p..], s).Some? || ClassifiedRun(m, Pick(insts, order)[p..], s) ==>
              && ClassifiedRun(m, Pick(insts, order)[p..], s)
              && Run(m, Pick(insts, order)[p..], s) == Run(m, insts[p..], s)
  {
    hide ClassifiedRun, CheckedRun, Run, WellFormed, Edge, CheckDom, Clash, Leading, KeepsClashes;
    ScheduleLeft(insts, p, order);
    OrderSound(m, insts, p, UpFrom(p, |insts|), order[p..], s);
    PickParts(insts, order, p);
    hide Left;
    CheckedIsRun(m, insts[p..], s);
    CheckedIsRun(m, Pick(insts, order)[p..], s);
  }

  /** A chain of dependencies leads from instruction i to instruction k. */
  ghost predicate DependsOn(insts: seq<Value>, i: nat, k: nat)
    decreases k - i
  {
    i < k && (Edge(insts, i, k) || exists j :: i < j < k && Edge(insts, i, j) && DependsOn(insts, j, k))
  }

  /** What can be checked before the pass: whatever stands in front of an instruction it clashes with leads to it. */
  ghost predicate ClashesLinked(insts: seq<Value>) {
    forall i, k :: 0 <= i < k < |insts| && Clash(insts[i], insts[k]) ==> DependsOn(insts, i, k)
  }

  lemma {:induction false} ChainKept(insts: seq<Value>, order: seq<nat>, p: nat, q: nat)
    requires IsSchedule(insts, order) && p < |order| && q < |order| && order[p] < order[q] && DependsOn(insts, order[p], order[q])
    ensures p < q
    decreases order[q] - order[p]
  {
    hide CheckDom;
    assert order[q] in order;
    if !Edge(insts, order[p], order[q]) {
      var j :| order[p] < j < order[q] && Edge(insts, order[p], j) && DependsOn(insts, j, order[q]);
      assert j in order;
      var r :| 0 <= r < |order| && order[r] == j;
      ChainKept(insts, order, r, q);
    }
  }

  lemma LinkedKeeps(insts: seq<Value>, order: seq<nat>)
    requires IsSchedule(insts, order) && ClashesLinked(insts)
    ensures KeepsClashes(insts, order)
  {
    hide Clash, Edge;
    forall a, b | 0 <= a < b < |order| && order[b] < order[a] < |insts|
      ensures !Clash(insts[order[b]], insts[order[a]])
    {
      if Clash(insts[order[b]], insts[order[a]]) {
        ChainKept(insts, order, b, a);
      }
    }
  }
}
