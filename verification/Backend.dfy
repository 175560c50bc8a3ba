/** DepromoteRegisters of src/core/Backend.cpp: SSA blocks become load/store/op sequences over sixteen registers. */
module Backend {
  import opened Words
  import opened Programs
  import opened RegisterAllocation
  import opened Simulation
  import opened Tracking
  import opened UseQueues
  import opened AllocationFacts
  import opened BlockState
  import opened BlockExit

  class DepromoteRegisters {
    const f: Func
    const finalUses: FinalUses
    const ra: RegisterAllocator
    var adventMap: map<nat, seq<nat>>
    var sourceToEmitMap: map<nat, TOperand>
    var currentBlock: nat
    var code: seq<TInst>  // emitted for the current block

    ghost var g: Shadow

    ghost function C(): Info
      reads this`currentBlock
    {
      Info(f, finalUses, currentBlock)
    }

    ghost function Blk(): Block
      requires currentBlock < |f.blocks|
      reads this`currentBlock
    {
      f.blocks[currentBlock]
    }

    /** The current view, with am for the allocations. */
    ghost function V(am: map<nat, Allocation>): View
      reads this
    {
      View(C(), code, sourceToEmitMap, am, adventMap, g)
    }

    ghost predicate Inv()
      reads this, ra
    {
      ra.Valid() && ra.tempRegisters == {} && Good(V(ra.active))
    }

    /** Only operands already fetched are protected. */
    ghost predicate BusyCovers()
      reads this, ra
    {
      Covers(g.busy, ra.active, ra.currentUser)
    }

    ghost predicate FewBusy()
      reads this, ra
    {
      ra.currentUser.Some? ==> |g.busy| <= 2 && BusyCovers()
    }

    ghost predicate PinsHeld()
      reads this, ra
    {
      PinnedBy(g.pins, ra.active, ra.currentUser, Roomy(C()))
    }

    constructor (f: Func, finalUses: FinalUses)
      ensures this.f == f && this.finalUses == finalUses
      ensures fresh(ra) && ra.Valid() && ra.tempRegisters == {} && ra.active == map[] && ra.currentUser == None
    {
      this.f, this.finalUses := f, finalUses;
      ra := new RegisterAllocator();
      adventMap, sourceToEmitMap, currentBlock, code := map[], map[], 0, [];
    }

    // ---- register allocation actions ----

    method ReportUse(source: nat, user: Option<nat>, pop: bool)
      requires ra.Valid() && ra.tempRegisters == {} && source in ra.active
      requires pop ==> Advents(adventMap, source) != []
      modifies this`adventMap, ra`activeSet, ra`active
      ensures ra.Valid()
      ensures adventMap == if pop then old(adventMap)[source := Advents(old(adventMap), source)[1..]] else old(adventMap)
      ensures ra.active == old(ra.active)[source := old(ra.active)[source].(lastUser := user, nextAdvent := FrontAdvent(adventMap, source))]
    {
      hide RegisterAllocator.Valid;
      var nextAdvent := NO_MORE_ADVENT;
      if pop {
        adventMap := adventMap[source := adventMap[source][1..]];
      }
      if Advents(adventMap, source) != [] {
        nextAdvent := Advents(adventMap, source)[0];
      }
      ra.Update(source, user, nextAdvent);
    }

    /** Emits the spill of an allocation that has just left the allocator, if it is still needed. */
    method Evict(alloc: Allocation)
      requires alloc.source !in ra.active && Good(V(ra.active[alloc.source := alloc]))
      modifies this`code
      ensures Good(V(ra.active))
      ensures code == old(code) + SpillCode(C(), adventMap, alloc)
    {
      hide Good;
      var victim := alloc.source;
      GoodEvict(V(ra.active[victim := alloc]), victim);
      PutRemove(ra.active, victim, alloc);
      if victim in f.parent && f.parent[victim] == currentBlock
         && (Advents(adventMap, victim) != [] || alloc.lastUser.None?
             || !InFinalUses(finalUses, f.parent[alloc.lastUser.value], victim)) {
        code := code + [StoreSlot(sourceToEmitMap[victim], victim)];
      } else {
        assert code == code + [];
      }
    }

    /** Makes room: one register is freed and its value spilled if need be. */
    method EvictOne() returns (ghost evicted: nat)
      requires Inv() && FewBusy() && ra.freeRegisters == [] && !Roomy(C())
      modifies this`code, ra
      ensures Inv() && ra.freeRegisters != [] && ra.currentUser == old(ra.currentUser)
      ensures Kept(old(ra.active), ra.active, ra.currentUser, false) && Submap(ra.active, old(ra.active))
      ensures currentBlock < |f.blocks| && MadeRoom(old(V(ra.active)), ra.currentUser, evicted, ra.active, code)
    {
      hide Good, Kept, Submap, RegisterAllocator.Valid, Farthest, FarthestUse;
      SomeVictim(ra, if ra.currentUser.Some? then g.busy else {});
      var victim := ra.Evict(0);
      var alloc := victim.value;
      evicted := alloc.source;
      FarthestIsUse(old(V(ra.active)), ra.currentUser, evicted);
      KeptRemove(old(ra.active), alloc.source, ra.currentUser);
      assert ra.active[alloc.source := alloc] == old(ra.active);
      Evict(alloc);
    }

    /** A free register, or that of the value used farthest away. */
    method RequestRegister(i: nat) returns (regId: nat, ghost evicted: Option<nat>)
      requires Inv() && i !in ra.active && FewBusy() && OccursIn(f, i, currentBlock)
      modifies this`code, this`adventMap, ra
      ensures ra.Valid() && ra.tempRegisters == {} && ra.currentUser == old(ra.currentUser) && adventMap == old(adventMap)
      ensures i in ra.active && ra.active[i] == Allocation(i, None, regId, FrontAdvent(adventMap, i))
      ensures Good(V(ra.active - {i})) && NotHeld(V(ra.active - {i}).Abs(), regId)
      ensures Kept(old(ra.active), ra.active - {i}, ra.currentUser, Roomy(C())) && Submap(ra.active - {i}, old(ra.active))
      ensures IsRegister(regId) && currentBlock < |f.blocks| && (evicted.None? <==> old(ra.freeRegisters) != [])
      ensures evicted.None? ==> ra.active - {i} == old(ra.active) && code == old(code)
      ensures evicted.Some? ==> MadeRoom(old(V(ra.active)), ra.currentUser, evicted.value, ra.active - {i}, code)
    {
      hide Good, Kept, RegisterAllocator.Valid, MadeRoom;
      GoodBounds(V(ra.active));
      evicted := None;
      RoomLeft(V(ra.active), ra, i);
      KeptRefl(ra.active, ra.currentUser, Roomy(C()));
      ghost var room := ra.active;
      regId := ra.Request(i);
      if regId == 0 {
        ghost var v := EvictOne();
        evicted := Some(v);
        room := ra.active;
        regId := ra.Request(i);
      }
      ReportUse(i, None, false);
      PutRemove(room, i, ra.active[i]);
      FreshRegister(ra, i);
      assert ra.active == room[i := ra.active[i]];
    }

    /** Brings a value whose slot is right into a register. */
    method Fill(i: nat) returns (regId: nat)
      requires Inv() && FewBusy() && PinsHeld() && i !in ra.active
      requires (i in g.defined || IsOuter(C(), i)) && OccursIn(f, i, currentBlock)
      requires Advents(adventMap, i) != []
      modifies this`code, this`adventMap, this`sourceToEmitMap, ra
      ensures Inv() && PinsHeld() && adventMap == old(adventMap) && ra.currentUser == old(ra.currentUser)
      ensures i in ra.active && regId == ra.active[i].regId
      ensures Submap(ra.active - {i}, old(ra.active))
      ensures old(ra.freeRegisters) != [] ==> code == old(code) + [LoadSlot(regId, i)] && ra.active - {i} == old(ra.active)
    {
      hide Good, RegisterAllocator.Valid, Kept, Submap, PinnedBy, MadeRoom;
      ghost var evicted;
      regId, evicted := RequestRegister(i);
      ghost var room := ra.active - {i};
      PinsKept(g.pins, old(ra.active), room, ra.currentUser, Roomy(C()), regId);
      PinsPut(g.pins, room, ra.currentUser, Roomy(C()), i, ra.active[i]);
      RemovePut(ra.active, i);
      GoodFill(V(room), i, ra.active[i]);
      code := code + [LoadSlot(regId, i)];
      sourceToEmitMap := sourceToEmitMap[i := Reg(regId)];
    }

    method GetRegister(i: nat) returns (regId: nat)
      requires Inv() && FewBusy() && PinsHeld()
      requires (i in g.defined || IsOuter(C(), i)) && OccursIn(f, i, currentBlock)
      requires Advents(adventMap, i) != []
      modifies this`code, this`adventMap, this`sourceToEmitMap, ra
      ensures Inv() && PinsHeld() && adventMap == old(adventMap) && ra.currentUser == old(ra.currentUser)
      ensures i in ra.active && regId == ra.active[i].regId
      ensures Submap(ra.active - {i}, old(ra.active))
      ensures old(i in ra.active) ==> code == old(code) && ra.active == old(ra.active)
      ensures old(i !in ra.active && ra.freeRegisters != []) ==> code == old(code) + [LoadSlot(regId, i)] && ra.active - {i} == old(ra.active)
    {
      hide Good, RegisterAllocator.Valid, Submap, PinnedBy;
      SubmapRemove(ra.active, i);
      regId := ra.Get(i);
      if regId == 0 {
        regId := Fill(i);
      }
    }

    /** Records that u uses v, which is in a register; yields the operand that names it. */
    method UseHeld(v: nat, u: nat) returns (to: TOperand)
      requires Inv() && v in ra.active && g.pending[v] > 0 && IsLocal(C(), u)
      requires PinsHeld() && (ra.currentUser.Some? ==> ra.currentUser == Some(u))
      modifies this`adventMap, this`g, ra`activeSet, ra`active
      ensures Inv() && SameButMeta(ra.active, old(ra.active), v)
      ensures to.Reg? && g == Use(old(g), v, to.r, u)
      ensures to.r in old(g.pins) ==> old(g.pins)[to.r] == v
      ensures ra.currentUser.Some? || Roomy(C()) ==> PinsHeld()
    {
      hide Good, RegisterAllocator.Valid, PinnedBy, SameButMeta;
      ghost var w := V(ra.active);
      PendingAdvents(w, v);
      PinnedOwner(g.pins, ra, Roomy(C()), v);
      to := sourceToEmitMap[v];
      ReportUse(v, Some(u), true);
      PinsUse(g.pins, w.active, ra.currentUser, Roomy(C()), v, ra.active[v]);
      g := Use(g, v, to.r, u);
      PutSame(w.active, v, ra.active[v]);
      GoodUse(w, v, u, V(ra.active));
    }

    /** The emitted operand for o, used by instruction u: an instruction's value is fetched into a register. */
    method TranslateSrcOperandToTgt(o: Operand, u: nat) returns (to: TOperand)
      requires Inv() && IsLocal(C(), u) && (ra.currentUser.Some? ==> ra.currentUser == Some(u))
      requires o.Val? ==> FewBusy() && PinsHeld() && g.pending[o.id] > 0 && Available(C(), g.defined, o)
      modifies this`code, this`adventMap, this`sourceToEmitMap, this`g, ra
      ensures Inv() && ra.currentUser == old(ra.currentUser)
      ensures o.Val? ==> to.Reg? && g == Use(old(g), o.id, to.r, u) && (to.r in old(g.pins) ==> old(g.pins)[to.r] == o.id)
      ensures !o.Val? ==> g == old(g) && ra.active == old(ra.active)
      ensures Matches(V(ra.active).Abs(), o, to)
      ensures (ra.currentUser.Some? || Roomy(C())) && old(PinsHeld()) ==> PinsHeld()
      ensures old(BusyCovers()) ==> BusyCovers()
    {
      hide Good, RegisterAllocator.Valid, Submap, PinnedBy, Covers, SameButMeta;
      match o
      case Arg(n) => to := TArg(n);
      case Const(w) => to := Imm(w);
      case Val(v) =>
        PendingAdvents(V(ra.active), v);
        var regId := GetRegister(v);
        ghost var am := ra.active;
        to := UseHeld(v, u);
        BusyUse(old(ra.active), am, ra.active, v, ra.currentUser, old(g.busy));
    }

    method VisitPHINode(i: nat)
      requires Inv() && ra.currentUser == None && i < |Blk().phis| && IdsOk(f, currentBlock)
      requires AtPhi(V(ra.active), i)
      modifies this`code, this`adventMap, this`sourceToEmitMap, this`g, ra
      ensures Inv() && ra.currentUser == None
      ensures AtPhi(V(ra.active), i + 1)
    {
      hide Good, RegisterAllocator.Valid, Kept, Submap;
      var p := f.blocks[currentBlock].phis[i].id;
      NextPhi(V(ra.active), i);
      PhiOccurs(f, currentBlock, i);
      var regId, evicted := RequestRegister(p);
      ghost var room := V(ra.active - {p});
      RemovePut(ra.active, p);
      GoodLoadPhi(room, i, ra.active[p]);
      code := code + [LoadTemp(regId, p)];
      sourceToEmitMap := sourceToEmitMap[p := Reg(regId)];
      g := g.(defined := g.defined + {p});
    }

    /** Fetches the operands of i in order. */
    method TranslateOperands(i: Inst) returns (tos: seq<TOperand>)
      requires Inv() && IsLocal(C(), i.id) && Fetching(V(ra.active), ra.currentUser, i, [])
      requires ra.currentUser.Some? ==> ra.currentUser == Some(i.id)
      modifies this`code, this`adventMap, this`sourceToEmitMap, this`g, ra
      ensures Inv() && ra.currentUser == old(ra.currentUser)
      ensures |tos| == |i.args| && Fetching(V(ra.active), ra.currentUser, i, tos) && SamePlace(g, old(g), i.id)
    {
      hide Good, RegisterAllocator.Valid, Fetching, PinnedBy, Covers, IsOuter, Matches, SamePlace;
      tos := [];
      SamePlaceRefl(g, i.id);
      for j := 0 to |i.args|
        invariant Inv() && ra.currentUser == old(ra.currentUser)
        invariant |tos| == j && Fetching(V(ra.active), ra.currentUser, i, tos)
        invariant SamePlace(g, old(g), i.id)
      {
        ghost var w := V(ra.active);
        FetchReady(w, ra.currentUser, i, tos);
        var to := TranslateSrcOperandToTgt(i.args[j], i.id);
        FetchStep(w, V(ra.active), ra.currentUser, i, tos, to);
        SamePlaceStep(g, w.g, old(g), i.id, i.args[j], to);
        tos := tos + [to];
      }
    }

    /** Fetches all operands of i; stores, binary operations, comparisons and selects protect them meanwhile. */
    method TranslateProtected(k: nat, i: Inst) returns (tos: seq<TOperand>)
      requires Inv() && ra.currentUser == None && k < |Blk().insts| && i == Blk().insts[k] && BlockOk(f, currentBlock)
      requires AtInst(V(ra.active)) && g.pos == k
      modifies this`code, this`adventMap, this`sourceToEmitMap, this`g, ra
      ensures Inv() && ra.currentUser == None
      ensures |tos| == |i.args| && MatchesAll(V(ra.active).Abs(), i.args, tos) && g.pending == multiset{}
      ensures SamePlace(g, old(g), i.id)
    {
      hide Good, RegisterAllocator.Valid, Fetching, Covers, AtInst, IsOuter, BlockOk, UsesAt, MatchesAll, Available;
      InstFacts(V(ra.active));
      if IsBracketed(i.op) {
        ghost var w0 := V(ra.active);
        FreshUserBusyless(w0, i.id);
        ra.ReportUser(Some(i.id));
        g := g.(busy := {});
        GoodBusy(w0, V(ra.active));
      }
      FetchStart(V(ra.active), ra.currentUser, i);
      tos := TranslateOperands(i);
      FetchEnd(V(ra.active), ra.currentUser, i, tos);
      ra.ReportUser(None);
    }

    /** The visitors of all instructions but phis and terminators: operands, destination register, emitted code. */
    method VisitInst(k: nat)
      requires Inv() && ra.currentUser == None && k < |Blk().insts| && BlockOk(f, currentBlock)
      requires AtInst(V(ra.active)) && g.pos == k
      modifies this`code, this`adventMap, this`sourceToEmitMap, this`g, ra
      ensures Inv() && ra.currentUser == None
      ensures g.pos == k + 1 && AtInst(V(ra.active))
    {
      hide Good, RegisterAllocator.Valid, AtInst, IsOuter, BlockOk, UsesAt, MatchesAll, Available, InstOk;
      ghost var w0 := V(ra.active);
      GoodBounds(w0);
      InstFacts(w0);
      var i := f.blocks[currentBlock].insts[k];
      var tos := TranslateProtected(k, i);
      EmitResult(k, i, tos);
      NextAtInst(w0, i, V(ra.active));
    }

    /** Requests the destination register, if the instruction has one, and emits the operation. */
    method EmitResult(k: nat, i: Inst, tos: seq<TOperand>)
      requires Inv() && ra.currentUser == None && k < |Blk().insts| && i == Blk().insts[k] && g.pos == k
      requires InstOk(i) && IsLocal(C(), i.id) && i.id !in g.defined
      requires |tos| == |i.args| && MatchesAll(V(ra.active).Abs(), i.args, tos)
      requires (forall p :: p in g.temps ==> g.temps[p] != Val(i.id)) && g.pending == multiset{}
      modifies this`code, this`adventMap, this`sourceToEmitMap, this`g, ra
      ensures Inv() && ra.currentUser == None && g == NextInst(old(V(ra.active)), i)
    {
      hide Good, RegisterAllocator.Valid, Kept, Submap, MatchesAll, EmitOp, UsesAt;
      GoodBounds(V(ra.active));
      var dst := 0;
      ghost var w := V(ra.active);
      if i.named {
        NotActive(w, i.id);
        ResultOccurs(f, currentBlock, k);
        ghost var evicted;
        dst, evicted := RequestRegister(i.id);
        MatchesActive(w.Abs(), V(ra.active - {i.id}).Abs(), i.args, tos);
        w := V(ra.active - {i.id});
        RemovePut(ra.active, i.id);
        sourceToEmitMap := sourceToEmitMap[i.id := Reg(dst)];
      }
      code := code + EmitOp(i, tos, dst);
      g := NextInst(w, i);
      GoodOp(w, i, tos, Allocation(i.id, None, dst, FrontAdvent(adventMap, i.id)), V(ra.active));
    }

    method ClearRA()
      requires Inv() && ra.currentUser == None
      modifies this`code, ra
      ensures Inv() && ra.currentUser == None && ra.active == map[]
    {
      hide Good, RegisterAllocator.Valid;
      while true
        invariant Inv() && ra.currentUser == None
        decreases ra.active
      {
        ghost var am := ra.active;
        var victim := ra.Evict(0);
        if victim.None? {
          break;
        }
        assert ra.active[victim.value.source := victim.value] == am;
        Evict(victim.value);
      }
    }

    /** Stores the operands of the phis of successor d into their phi slots. */
    method ProcessPHIsInSuccessor(d: nat, u: nat, ghost stored: set<nat>, ghost rest: seq<nat>)
      requires Inv() && ra.currentUser == None && WellFormed(f) && IsLocal(C(), u)
      requires d in Successors(Blk().term) && d < |f.blocks|
      requires Leaving(V(ra.active), stored, PhiUses(f.blocks[d].phis, currentBlock) + rest)
      modifies this`code, this`adventMap, this`sourceToEmitMap, this`g, ra
      ensures Inv() && ra.currentUser == None
      ensures Leaving(V(ra.active), stored + {d}, rest)
    {
      hide Good, RegisterAllocator.Valid, WellFormed, Leaving, PhiStored, Available, PhiUses, Matches, Successors;
      var phis := f.blocks[d].phis;
      assert phis[0..] == phis;
      for j := 0 to |phis|
        invariant Inv() && ra.currentUser == None
        invariant Leaving(V(ra.active), stored, PhiUses(phis[j..], currentBlock) + rest)
        invariant FirstStored(C(), g.temps, d, j)
      {
        StorePhiOperand(d, j, u, stored, rest);
      }
      assert phis[|phis|..] == [];
      LeavingEdge(V(ra.active), d, stored, rest);
    }

    /** A single operand that no visitor protects. */
    method TranslateAlone(o: Operand, u: nat) returns (to: TOperand)
      requires Inv() && ra.currentUser == None && IsLocal(C(), u)
      requires g.pins == map[] && Available(C(), g.defined, o) && (o.Val? ==> g.pending[o.id] > 0)
      modifies this`code, this`adventMap, this`sourceToEmitMap, this`g, ra
      ensures Inv() && ra.currentUser == None && SamePlace(g, old(g), u)
      ensures Matches(V(ra.active).Abs(), o, to)
      ensures g.pending == old(g.pending) - if o.Val? then multiset{o.id} else multiset{}
    {
      hide Good, RegisterAllocator.Valid, IsOuter, PinnedBy;
      PinsEmpty(ra.active, None, Roomy(C()));
      to := TranslateSrcOperandToTgt(o, u);
    }

    method StorePhiOperand(d: nat, j: nat, u: nat, ghost stored: set<nat>, ghost rest: seq<nat>)
      requires Inv() && ra.currentUser == None && WellFormed(f) && IsLocal(C(), u)
      requires d in Successors(Blk().term) && d < |f.blocks| && j < |f.blocks[d].phis|
      requires Leaving(V(ra.active), stored, PhiUses(f.blocks[d].phis[j..], currentBlock) + rest)
      requires FirstStored(C(), g.temps, d, j)
      modifies this`code, this`adventMap, this`sourceToEmitMap, this`g, ra
      ensures Inv() && ra.currentUser == None
      ensures Leaving(V(ra.active), stored, PhiUses(f.blocks[d].phis[j + 1..], currentBlock) + rest)
      ensures FirstStored(C(), g.temps, d, j + 1)
    {
      hide Good, RegisterAllocator.Valid, WellFormed, Leaving, FirstStored, PhiUses, Matches, Available, Successors, SamePlace, IsLocal, Incoming;
      ghost var w := V(ra.active);
      GoodBounds(w);
      PhiFacts(w, d, j, stored, rest);
      var phi := f.blocks[d].phis[j];
      var o := Incoming(phi.incoming, currentBlock).value;
      var to := TranslateAlone(o, u);
      ghost var fetched := g;
      GoodStorePhi(V(ra.active), phi.id, o, to);
      code := code + [StoreTemp(to, phi.id)];
      g := g.(temps := g.temps[phi.id := o], pins := map[]);
      StorePhi(w, d, j, stored, PhiUses(f.blocks[d].phis[j..], currentBlock) + rest, fetched, u, o, V(ra.active),
               PhiUses(f.blocks[d].phis[j + 1..], currentBlock) + rest);
    }

    /** Stores the phi operands of every edge out of the block. */
    method ProcessEdges(ds: seq<nat>, u: nat, ghost last: seq<nat>)
      requires Inv() && ra.currentUser == None && WellFormed(f) && currentBlock < |f.blocks| && IsLocal(C(), u)
      requires ds == Successors(Blk().term) && forall d :: d in ds ==> d < |f.blocks|
      requires Leaving(V(ra.active), {}, EdgeUses(f, currentBlock, ds) + last)
      modifies this`code, this`adventMap, this`sourceToEmitMap, this`g, ra
      ensures Inv() && ra.currentUser == None
      ensures Leaving(V(ra.active), Firsts(ds, |ds|), EdgeUses(f, currentBlock, ds[|ds|..]) + last)
    {
      hide Good, RegisterAllocator.Valid, WellFormed, EdgeUses, PhiUses, Leaving, Firsts, Successors;
      assert ds[0..] == ds;
      FirstsNone(ds);
      for n := 0 to |ds|
        invariant Inv() && ra.currentUser == None
        invariant Leaving(V(ra.active), Firsts(ds, n), EdgeUses(f, currentBlock, ds[n..]) + last)
      {
        assert ds[n] in ds;
        EdgeUsesStep(f, currentBlock, ds, n);
        ghost var rest := EdgeUses(f, currentBlock, ds[n + 1..]) + last;
        assert EdgeUses(f, currentBlock, ds[n..]) + last == PhiUses(f.blocks[ds[n]].phis, currentBlock) + rest;
        ProcessPHIsInSuccessor(ds[n], u, Firsts(ds, n), rest);
        FirstsStep(ds, n);
      }
    }

    /** Emits the phi operands of all successors, fetches the condition and empties the registers. */
    method VisitTerminator() returns (tt: TTerm)
      requires Inv() && ra.currentUser == None && WellFormed(f) && currentBlock < |f.blocks|
      requires AtInst(V(ra.active)) && g.pos == |Blk().insts|
      modifies this`code, this`adventMap, this`sourceToEmitMap, this`g, ra
      ensures Inv() && ra.currentUser == None
      ensures g.pos == |Blk().insts| && g.defined == DefinedSet(Blk(), g.pos)
      ensures TermMatches(V(ra.active).Abs(), Blk().term, tt)
      ensures !Blk().term.Ret? ==> ra.active == map[] && forall d :: d in Successors(Blk().term) ==> EdgeStored(C(), g.temps, d)
    {
      hide Good, RegisterAllocator.Valid, WellFormed, EdgeStored, EdgeUses, DefinedSet, AtInst, Available, Leaving, Firsts, TermMatches, Successors;
      var blk := f.blocks[currentBlock];
      var ds := Successors(blk.term);
      ghost var last := Vals(TermOperands(blk.term));
      TermFacts(f, finalUses, currentBlock);
      LeavingStart(V(ra.active));
      ProcessEdges(ds, blk.termId, last);
      LastUses(V(ra.active), ds, last);
      tt := EmitTerminator();
    }

    /** The condition or return value; a block that continues then empties its registers. */
    method TranslateLast(o: Operand, u: nat, clear: bool) returns (to: TOperand)
      requires Inv() && ra.currentUser == None && IsLocal(C(), u)
      requires g.pins == map[] && g.pending == multiset(Vals([o])) && Available(C(), g.defined, o)
      modifies this`code, this`adventMap, this`sourceToEmitMap, this`g, ra
      ensures Inv() && ra.currentUser == None && SamePlace(g, old(g), u)
      ensures Matches(V(ra.active).Abs(), o, to) && (clear ==> ra.active == map[])
    {
      hide Good, RegisterAllocator.Valid, Available;
      ValsStep([o], 0);
      assert [o][0..] == [o];
      to := TranslateAlone(o, u);
      if clear {
        ClearRA();
      }
    }

    method EmitTerminator() returns (tt: TTerm)
      requires Inv() && ra.currentUser == None && currentBlock < |f.blocks| && IsLocal(C(), Blk().termId)
      requires g.pins == map[] && g.pending == multiset(Vals(TermOperands(Blk().term)))
      requires forall j :: 0 <= j < |TermOperands(Blk().term)| ==> Available(C(), g.defined, TermOperands(Blk().term)[j])
      modifies this`code, this`adventMap, this`sourceToEmitMap, this`g, ra
      ensures Inv() && ra.currentUser == None && SamePlace(g, old(g), Blk().termId)
      ensures TermMatches(V(ra.active).Abs(), Blk().term, tt)
      ensures !Blk().term.Ret? ==> ra.active == map[]
    {
      hide Good, RegisterAllocator.Valid, Available, Vals, Matches;
      var term, u := f.blocks[currentBlock].term, f.blocks[currentBlock].termId;
      assert !term.Br? ==> Available(C(), g.defined, TermOperands(term)[0]);
      match term
      case Ret(o) =>
        var to := TranslateLast(o, u, false);
        tt := TRet(to);
      case Br(d) =>
        ClearRA();
        tt := TBr(d);
      case CondBr(c, yes, no) =>
        var to := TranslateLast(c, u, true);
        tt := TCondBr(to, yes, no);
      case Switch(c, dflt, cases) =>
        var to := TranslateLast(c, u, true);
        tt := TSwitch(to, dflt, cases);
    }

    /** The use queues of visitBasicBlock: every use pushes its timestep. */
    method BuildAdventMap(b: nat) returns (m: map<nat, seq<nat>>)
      requires b < |f.blocks|
      ensures forall v: nat {:trigger Advents(m, v)} :: Advents(m, v) == Times(f, b, v, 0)
    {
      hide UsesAt;
      m := map[];
      var blk := f.blocks[b];
      for k := 0 to |blk.insts| + 1
        invariant forall v: nat {:trigger Advents(m, v)} :: Advents(m, v) + Times(f, b, v, k) == Times(f, b, v, 0)
      {
        m := PushUses(b, k, m);
      }
    }

    method PushUses(b: nat, k: nat, m0: map<nat, seq<nat>>) returns (m: map<nat, seq<nat>>)
      requires b < |f.blocks| && k <= |f.blocks[b].insts|
      requires forall v: nat {:trigger Advents(m0, v)} :: Advents(m0, v) + Times(f, b, v, k) == Times(f, b, v, 0)
      ensures forall v: nat {:trigger Advents(m, v)} :: Advents(m, v) + Times(f, b, v, k + 1) == Times(f, b, v, 0)
    {
      hide Times, UsesAt;
      var timestep := |f.blocks[b].phis| + k;
      var uses := UsesAt(f, b, k);
      m := m0;
      TimesStep(f, b, k, m, uses);
      assert uses[0..] == uses;
      for j := 0 to |uses|
        invariant PushedTo(f, b, k, m, uses[j..])
      {
        var m' := m[uses[j] := Advents(m, uses[j]) + [timestep]];
        PushOne(f, b, k, m, uses, j, m');
        m := m';
      }
      assert uses[|uses|..] == [];
      PushEnd(f, b, k, m);
    }

    /** visitBasicBlock: a fresh view for block b. */
    method VisitBasicBlock(b: nat)
      requires b < |f.blocks| && IdsOk(f, b)
      requires ra.Valid() && ra.tempRegisters == {} && ra.active == map[] && ra.currentUser == None
      modifies this`code, this`adventMap, this`sourceToEmitMap, this`g, this`currentBlock
      ensures Inv() && ra.currentUser == None && currentBlock == b && AtPhi(V(ra.active), 0)
    {
      hide RegisterAllocator.Valid, UsesAt, IdsOk;
      adventMap := BuildAdventMap(b);
      sourceToEmitMap := map[];
      currentBlock := b;
      code := [];
      g := Shadow({}, PhiTemps(f.blocks[b].phis), map[], {}, 0, multiset(UsesAt(f, b, 0)), {});
      GoodStart(V(ra.active));
    }

    method DepromoteBlock(b: nat) returns (tb: TBlock)
      requires WellFormed(f) && SoundFinalUses(f, finalUses) && b < |f.blocks|
      requires ra.Valid() && ra.tempRegisters == {} && ra.active == map[] && ra.currentUser == None
      modifies this, ra
      ensures BlockCorrect(f, b, tb) && MachineBlock(tb)
      ensures ra.Valid() && ra.tempRegisters == {} && ra.currentUser == None
      ensures b < |f.blocks| - 1 ==> ra.active == map[]
    {
      hide Good, RegisterAllocator.Valid, WellFormed, SoundFinalUses, AtPhi, AtInst, BlockOk, IdsOk, EdgeStored, TermMatches, BlockCorrect, MachineBlock, DefinedSet, Successors;
      BlockIds(f, b);
      ReturnIsLast(f, b);
      VisitBasicBlock(b);
      var blk := f.blocks[b];
      for i := 0 to |blk.phis|
        invariant Inv() && ra.currentUser == None && currentBlock == b && AtPhi(V(ra.active), i)
      {
        VisitPHINode(i);
      }
      PhisDone(V(ra.active));
      for k := 0 to |blk.insts|
        invariant Inv() && ra.currentUser == None && currentBlock == b && AtInst(V(ra.active)) && g.pos == k
      {
        VisitInst(k);
      }
      var tt := VisitTerminator();
      BlockDone(V(ra.active), tt);
      tb := TBlock(code, tt);
    }
  }
}
