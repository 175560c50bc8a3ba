/** What is known of the translator between two of its actions, and how each action keeps it. */
module BlockState {
  import opened Words
  import opened Programs
  import opened RegisterAllocation
  import opened Simulation
  import opened Tracking
  import opened UseQueues
  import opened AllocationFacts

  // ---- everything that is known between two actions of the translator ----

  /** Ghost bookkeeping: the values of this block defined so far, what the phi slots hold, the registers holding
      operands of the next emitted instruction, the operands fetched for the protected user, the number of source
      instructions emitted, the operands of the next one not fetched yet, and the instructions that fetched operands. */
  datatype Shadow = Shadow(
    defined: set<nat>, temps: map<nat, Operand>, pins: map<nat, nat>, busy: set<nat>, pos: nat, pending: multiset<nat>, users: set<nat>)

  datatype View = View(
    c: Info, code: seq<TInst>, ste: map<nat, TOperand>, active: map<nat, Allocation>, advents: map<nat, seq<nat>>, g: Shadow)
  {
    function Abs(): Abs { Simulation.Abs.Abs(active, advents, g.defined, g.temps, g.pins) }
  }

  ghost predicate Good(w: View) {
    && w.c.b < |w.c.f.blocks| && w.g.pos <= |w.c.Blk().insts|
    && Static(w.c, w.Abs())
    && Tracks(w.c, w.g.pos, w.code, w.Abs())
    && AdventsOk(w.c.f, w.c.b, w.advents, w.g.pos, w.g.pending)
    && (forall v :: v in w.active ==> v in w.ste && w.ste[v] == Reg(w.active[v].regId))
    && (forall v :: v in w.active ==> w.active[v].nextAdvent == FrontAdvent(w.advents, v))
    && (forall v :: v in w.active && w.active[v].lastUser.Some? ==> w.active[v].lastUser.value in w.g.users)
    && (forall v :: v in w.active ==> OccursIn(w.c.f, v, w.c.b))
    && MachineCode(w.code) && RegistersOk(w.active, w.g.pins)
  }

  ghost predicate RegistersOk(active: map<nat, Allocation>, pins: map<nat, nat>) {
    && (forall v :: v in active ==> IsRegister(active[v].regId))
    && (forall r :: r in pins ==> IsRegister(r))
  }

  lemma RegistersPut(active: map<nat, Allocation>, pins: map<nat, nat>, v: nat, al: Allocation)
    requires RegistersOk(active, pins) && IsRegister(al.regId)
    ensures RegistersOk(active[v := al], pins) && RegistersOk(active[v := al], map[]) && RegistersOk(active, map[])
    ensures RegistersOk(active[v := al], pins[al.regId := v])
  {
  }

  lemma HeldRegister(active: map<nat, Allocation>, pins: map<nat, nat>, v: nat)
    requires RegistersOk(active, pins) && v in active
    ensures IsRegister(active[v].regId) && RegistersOk(active - {v}, pins)
  {
  }

  lemma MatchedAreMachine(a: Abs, os: seq<Operand>, tos: seq<TOperand>)
    requires MatchesAll(a, os, tos) && RegistersOk(a.active, a.pins)
    ensures forall k :: 0 <= k < |tos| ==> MachineOperand(tos[k])
  {
    forall k | 0 <= k < |tos|
      ensures MachineOperand(tos[k])
    {
      assert Matches(a, os[k], tos[k]);
    }
  }

  /** The next use of v is by instruction j: it is pending, or j is the first one after the present instruction to use it. */
  ghost predicate NextUse(w: View, v: nat, j: nat)
    requires w.c.b < |w.c.f.blocks|
  {
    if w.g.pending[v] > 0 then j == w.g.pos else FirstUse(w.c.f, w.c.b, v, w.g.pos + 1, j)
  }

  lemma FirstUseInBlock(f: Func, b: nat, v: nat, k: nat)
    requires b < |f.blocks|
    ensures forall j: nat :: FirstUse(f, b, v, k, j) ==> j <= |f.blocks[b].insts|
  {
    hide UsesAt;
  }

  /** The key of an active value is the time of its next use, NO_MORE_ADVENT if there is none. */
  lemma KeyIsNextUse(w: View, v: nat)
    requires Good(w) && v in w.active
    ensures w.c.b < |w.c.f.blocks|
    ensures forall j: nat :: NextUse(w, v, j) ==> w.active[v].nextAdvent == |w.c.Blk().phis| + j && j <= |w.c.Blk().insts|
    ensures (forall j: nat :: !NextUse(w, v, j)) ==> w.active[v].nextAdvent == NO_MORE_ADVENT
  {
    hide Tracks, Static, OccursIn, UsesAt, Times, AdventsOk, FirstUse;
    GoodBounds(w);
    QueueFront(w.c.f, w.c.b, w.advents, w.g.pos, w.g.pending, v);
    TimesFront(w.c.f, w.c.b, v, w.g.pos + 1);
    FirstUseInBlock(w.c.f, w.c.b, v, w.g.pos + 1);
    if w.g.pending[v] > 0 {
      assert NextUse(w, v, w.g.pos);
    } else if Times(w.c.f, w.c.b, v, w.g.pos + 1) != [] {
      var j: nat :| FirstUse(w.c.f, w.c.b, v, w.g.pos + 1, j);
      assert NextUse(w, v, j);
    }
  }

  lemma QueueEmptyIff(w: View, v: nat)
    requires Good(w)
    ensures w.c.b < |w.c.f.blocks| && (Advents(w.advents, v) == [] <==> forall j: nat :: !NextUse(w, v, j))
  {
    hide Tracks, Static, OccursIn, UsesAt, Times, AdventsOk, FirstUse;
    GoodBounds(w);
    QueueFront(w.c.f, w.c.b, w.advents, w.g.pos, w.g.pending, v);
    TimesFront(w.c.f, w.c.b, v, w.g.pos + 1);
    if w.g.pending[v] > 0 {
      assert NextUse(w, v, w.g.pos);
    } else if Times(w.c.f, w.c.b, v, w.g.pos + 1) != [] {
      var j: nat :| FirstUse(w.c.f, w.c.b, v, w.g.pos + 1, j);
      assert NextUse(w, v, j);
    }
  }

  /** v may be evicted for user, and no other value that may be is used later: whenever v is used again, so are they, no later. */
  ghost predicate FarthestUse(w: View, user: Option<nat>, v: nat)
    requires w.c.b < |w.c.f.blocks|
  {
    && v in w.active && (user.Some? ==> w.active[v].lastUser != user)
    && (|w.c.Blk().phis| + |w.c.Blk().insts| < NO_MORE_ADVENT ==>
          forall u, j: nat :: u in w.active && !(user.Some? && w.active[u].lastUser == user) && NextUse(w, v, j) ==>
            exists i: nat :: i <= j && NextUse(w, u, i))
  }

  lemma FarthestIsUse(w: View, user: Option<nat>, v: nat)
    requires Good(w) && v in w.active && (user.Some? ==> w.active[v].lastUser != user)
    requires Farthest(w.active, user, w.active[v])
    ensures w.c.b < |w.c.f.blocks| && FarthestUse(w, user, v)
  {
    hide Good, NextUse;
    KeyIsNextUse(w, v);
    forall u, j: nat | u in w.active && !(user.Some? && w.active[u].lastUser == user) && NextUse(w, v, j) && |w.c.Blk().phis| + |w.c.Blk().insts| < NO_MORE_ADVENT
      ensures exists i: nat :: i <= j && NextUse(w, u, i)
    {
      KeyIsNextUse(w, u);
    }
  }

  /** From w to w': v, the value used farthest away, has lost its register and been spilled if need be. */
  ghost predicate MadeRoom(w: View, user: Option<nat>, v: nat, active': map<nat, Allocation>, code': seq<TInst>)
    requires w.c.b < |w.c.f.blocks|
  {
    FarthestUse(w, user, v) && active' == w.active - {v} && code' == w.code + SpillCode(w.c, w.advents, w.active[v])
  }

  ghost predicate Roomy(c: Info) { FewValues(c.f, c.b) }

  lemma GoodBounds(w: View)
    requires Good(w)
    ensures w.c.b < |w.c.f.blocks| && w.g.pos <= |w.c.Blk().insts|
  {}

  lemma PendingAdvents(w: View, v: nat)
    requires Good(w) && w.g.pending[v] > 0
    ensures v in w.advents && Advents(w.advents, v) != []
    ensures v in w.active ==> v in w.ste && w.ste[v] == Reg(w.active[v].regId)
  {
    hide Tracks, AdventsOk, Static;
    AdventsPop(w.c.f, w.c.b, w.advents, w.g.pos, w.g.pending, v);
  }

  lemma SpillIsMachine(w: View, v: nat)
    requires v in w.active && IsRegister(w.active[v].regId)
    ensures MachineCode(SpillCode(w.c, w.advents, w.active[v]))
  {
    hide MustSpill;
  }

  lemma GoodEvict(w: View, v: nat)
    requires Good(w) && v in w.active
    ensures Good(w.(active := w.active - {v}, code := w.code + SpillCode(w.c, w.advents, w.active[v])))
    ensures v in w.ste && w.ste[v] == Reg(w.active[v].regId) && w.active[v].source == v
    ensures w.active[v].lastUser.Some? ==> w.active[v].lastUser.value in w.c.f.parent
  {
    hide Tracks, AdventsOk, OccursIn, MachineCode, RegistersOk;
    HeldRegister(w.active, w.g.pins, v);
    SpillIsMachine(w, v);
    MachineConcat(w.code, SpillCode(w.c, w.advents, w.active[v]));
    TracksEvict(w.c, w.g.pos, w.code, w.Abs(), v);
  }

  lemma OneIsMachine(i: TInst)
    requires MachineInst(i)
    ensures MachineCode([i])
  {
  }

  lemma GoodFill(w: View, i: nat, al: Allocation)
    requires Good(w) && i !in w.active && NotHeld(w.Abs(), al.regId) && al.regId !in w.g.pins && IsRegister(al.regId)
    requires al == Allocation(i, None, al.regId, FrontAdvent(w.advents, i))
    requires (i in w.g.defined || IsOuter(w.c, i)) && OccursIn(w.c.f, i, w.c.b)
    requires Advents(w.advents, i) != []
    ensures Good(w.(active := w.active[i := al], code := w.code + [LoadSlot(al.regId, i)], ste := w.ste[i := Reg(al.regId)]))
  {
    hide Tracks, AdventsOk, IsOuter, NotHeld, OccursIn, MachineCode, RegistersOk;
    RegistersPut(w.active, w.g.pins, i, al);
    OneIsMachine(LoadSlot(al.regId, i));
    MachineConcat(w.code, [LoadSlot(al.regId, i)]);
    TracksFill(w.c, w.g.pos, w.code, w.Abs(), i, al);
  }

  /** v, which is in register r, is used by u. */
  function Use(g: Shadow, v: nat, r: nat, u: nat): Shadow {
    g.(pins := g.pins[r := v], pending := g.pending - multiset{v}, users := g.users + {u}, busy := g.busy + {v})
  }

  /** After a use the queue moves on and the register is pinned. */
  lemma GoodUse(w: View, v: nat, u: nat, w': View)
    requires Good(w) && v in w.active && w.g.pending[v] > 0 && IsLocal(w.c, u)
    requires w'.c == w.c && w'.code == w.code && w'.ste == w.ste && w'.g == Use(w.g, v, w.active[v].regId, u)
    requires w'.advents == w.advents[v := Advents(w.advents, v)[1..]]
    requires w'.active == w.active[v := w.active[v].(lastUser := Some(u), nextAdvent := FrontAdvent(w'.advents, v))]
    ensures Good(w')
  {
    hide Tracks, AdventsOk, IsOuter, OccursIn, MachineCode, RegistersOk;
    HeldRegister(w.active, w.g.pins, v);
    RegistersPut(w.active, w.g.pins, v, w'.active[v]);
    AdventsPop(w.c.f, w.c.b, w.advents, w.g.pos, w.g.pending, v);
    TracksRelax(w.c, w.g.pos, w.code, w.Abs(), w'.Abs());
  }

  // ---- positions inside a block ----

  /** The values defined by the phis and the first k instructions. */
  function DefinedSet(blk: Block, k: nat): set<nat>
    requires k <= |blk.insts|
  {
    PhiIds(blk.phis) + set j | 0 <= j < k && blk.insts[j].named :: blk.insts[j].id
  }

  /** The first i phis are loaded. */
  ghost predicate AtPhi(w: View, i: nat) {
    && w.c.b < |w.c.f.blocks| && i <= |w.c.Blk().phis|
    && w.g.pos == 0 && w.g.defined == PhiIds(w.c.Blk().phis[..i]) && w.g.temps == PhiTemps(w.c.Blk().phis)
    && w.g.pins == map[] && w.g.users == {} && w.g.pending == multiset(UsesAt(w.c.f, w.c.b, 0))
  }

  /** Instruction pos comes next. */
  ghost predicate AtInst(w: View) {
    && w.c.b < |w.c.f.blocks| && w.g.pos <= |w.c.Blk().insts|
    && w.g.defined == DefinedSet(w.c.Blk(), w.g.pos) && w.g.temps == PhiTemps(w.c.Blk().phis)
    && w.g.pins == map[] && w.g.pending == multiset(UsesAt(w.c.f, w.c.b, w.g.pos))
    && forall u :: u in w.g.users ==> exists j :: 0 <= j < w.g.pos && w.c.Blk().insts[j].id == u
  }

  lemma NotActive(w: View, v: nat)
    requires Good(w) && IsLocal(w.c, v) && v !in w.g.defined
    ensures v !in w.active
  {
    hide Tracks, AdventsOk;
  }

  lemma NextPhi(w: View, i: nat)
    requires Good(w) && AtPhi(w, i) && i < |w.c.Blk().phis| && IdsOk(w.c.f, w.c.b)
    ensures var p := w.c.Blk().phis[i].id;
            && IsLocal(w.c, p) && p !in w.active
            && PhiIds(w.c.Blk().phis[..i + 1]) == w.g.defined + {p}
            && p in w.g.temps && w.g.temps[p] == Val(p)
  {
    hide Tracks, AdventsOk, UsesAt;
    var phis := w.c.Blk().phis;
    var p := phis[i].id;
    assert p in PhiIds(phis);
    assert phis[..i + 1] == phis[..i] + [phis[i]];
    assert forall j :: 0 <= j < i ==> phis[..i][j] == phis[j];
    NotActive(w, p);
    assert PhiIds(phis[..i + 1]) == PhiIds(phis[..i]) + {p} by {
      assert forall j :: 0 <= j <= i ==> phis[..i + 1][j] == phis[j];
      forall q | q in PhiIds(phis[..i]) + {p}
        ensures q in PhiIds(phis[..i + 1])
      {
        if q == p {
          assert phis[..i + 1][i].id == q;
        } else {
          var j :| 0 <= j < i && phis[..i][j].id == q;
          assert phis[..i + 1][j].id == q;
        }
      }
    }
  }

  /** Where registers suffice, one is free for a value that is in none. */
  lemma RoomLeft(w: View, ra: RegisterAllocator, i: nat)
    requires ra.Valid() && ra.tempRegisters == {} && w.active == ra.active && Good(w)
    requires i !in ra.active && OccursIn(w.c.f, i, w.c.b)
    ensures Roomy(w.c) ==> ra.freeRegisters != []
  {
    hide Good, OccursIn, RegisterAllocator.Valid;
    ActiveOccurs(w);
    if Roomy(w.c) {
      var vs :| HoldsValues(w.c.f, w.c.b, vs) && |vs| <= 16;
      SomeFree(ra, vs - {i});
    }
  }

  lemma ActiveOccurs(w: View)
    requires Good(w)
    ensures forall v :: v in w.active ==> OccursIn(w.c.f, v, w.c.b)
  {
    hide Tracks, AdventsOk, Static, OccursIn;
  }

  lemma PhiOccurs(f: Func, b: nat, i: nat)
    requires b < |f.blocks| && i < |f.blocks[b].phis|
    ensures OccursIn(f, f.blocks[b].phis[i].id, b)
  {
    hide UsesDirectly, FeedsPhi;
  }

  lemma ResultOccurs(f: Func, b: nat, k: nat)
    requires b < |f.blocks| && k < |f.blocks[b].insts| && f.blocks[b].insts[k].named
    ensures OccursIn(f, f.blocks[b].insts[k].id, b)
  {
    hide UsesDirectly, FeedsPhi;
  }

  lemma GoodLoadPhi(w: View, i: nat, al: Allocation)
    requires Good(w) && w.g.pos == 0 && i < |w.c.Blk().phis|
    requires var p := w.c.Blk().phis[i].id;
             && IsLocal(w.c, p) && p !in w.active && p in w.g.temps && w.g.temps[p] == Val(p)
             && al == Allocation(p, None, al.regId, FrontAdvent(w.advents, p)) && IsRegister(al.regId)
    requires NotHeld(w.Abs(), al.regId) && w.g.pins == map[]
    ensures var p := w.c.Blk().phis[i].id;
            Good(w.(active := w.active[p := al], code := w.code + [LoadTemp(al.regId, p)], ste := w.ste[p := Reg(al.regId)],
                    g := w.g.(defined := w.g.defined + {p})))
  {
    hide Tracks, AdventsOk, OccursIn, MachineCode, RegistersOk;
    RegistersPut(w.active, w.g.pins, w.c.Blk().phis[i].id, al);
    OneIsMachine(LoadTemp(al.regId, w.c.Blk().phis[i].id));
    MachineConcat(w.code, [LoadTemp(al.regId, w.c.Blk().phis[i].id)]);
    TracksLoadPhi(w.c, w.code, w.Abs(), i, al);
    PhiOccurs(w.c.f, w.c.b, i);
  }

  lemma MatchesActive(a: Abs, a': Abs, os: seq<Operand>, tos: seq<TOperand>)
    requires MatchesAll(a, os, tos) && a'.pins == a.pins
    ensures MatchesAll(a', os, tos)
  {
    assert forall i :: 0 <= i < |os| ==> Matches(a, os[i], tos[i]);
  }

  lemma MatchesMore(a: Abs, a': Abs, os: seq<Operand>, tos: seq<TOperand>, j: nat, to: TOperand)
    requires j < |os| && MatchesAll(a, os[..j], tos) && Matches(a', os[j], to)
    requires forall r :: r in a.pins ==> r in a'.pins && a'.pins[r] == a.pins[r]
    ensures MatchesAll(a', os[..j + 1], tos + [to])
  {
    assert forall i :: 0 <= i < j ==> Matches(a, os[..j][i], tos[i]);
  }

  /** Operands ..|tos| of i are fetched: they match, stay pinned while the visitor protects them,
      and the others are pending. */
  ghost predicate Fetching(w: View, user: Option<nat>, i: Inst, tos: seq<TOperand>) {
    && InstOk(i) && OperandsSafe(w.c.f, w.c.b, i) && |tos| <= |i.args| && (IsBracketed(i.op) <==> user.Some?)
    && MatchesAll(w.Abs(), i.args[..|tos|], tos)
    && w.g.pending == multiset(Vals(i.args[|tos|..]))
    && (forall k :: |tos| <= k < |i.args| ==> Available(w.c, w.g.defined, i.args[k]))
    && (IsBracketed(i.op) || Roomy(w.c) ==> PinnedBy(w.g.pins, w.active, user, Roomy(w.c)))
    && (IsBracketed(i.op) ==> Covers(w.g.busy, w.active, user) && |w.g.busy| <= |tos|)
    && (!IsBracketed(i.op) && (forall k :: 0 <= k < |tos| ==> !i.args[k].Val?) ==> w.g.pins == map[])
  }

  lemma FetchStart(w: View, user: Option<nat>, i: Inst)
    requires InstOk(i) && OperandsSafe(w.c.f, w.c.b, i) && w.g.pins == map[] && w.g.pending == multiset(Vals(i.args)) && (IsBracketed(i.op) <==> user.Some?)
    requires forall j :: 0 <= j < |i.args| ==> Available(w.c, w.g.defined, i.args[j])
    requires IsBracketed(i.op) ==> w.g.busy == {} && Covers({}, w.active, user)
    ensures Fetching(w, user, i, [])
  {
    hide OperandsSafe, Roomy;
    assert i.args[..0] == [] && i.args[0..] == i.args;
  }

  /** What fetching the next operand needs. */
  lemma FetchReady(w: View, user: Option<nat>, i: Inst, tos: seq<TOperand>)
    requires Fetching(w, user, i, tos) && |tos| < |i.args|
    ensures var o := i.args[|tos|];
            o.Val? ==>
              && (user.Some? ==> |w.g.busy| <= 2 && Covers(w.g.busy, w.active, user))
              && PinnedBy(w.g.pins, w.active, user, Roomy(w.c)) && w.g.pending[o.id] > 0 && Available(w.c, w.g.defined, o)
  {
    hide Covers, FewValues;
    ValsStep(i.args, |tos|);
    assert Available(w.c, w.g.defined, i.args[|tos|]);
  }

  lemma FetchStep(w: View, w': View, user: Option<nat>, i: Inst, tos: seq<TOperand>, to: TOperand)
    requires Fetching(w, user, i, tos) && |tos| < |i.args| && w'.c == w.c
    requires var o := i.args[|tos|];
             && Matches(w'.Abs(), o, to)
             && (if o.Val? then to.Reg? && w'.g == Use(w.g, o.id, to.r, i.id) && (to.r in w.g.pins ==> w.g.pins[to.r] == o.id)
                 else w'.g == w.g)
    requires (user.Some? || Roomy(w.c)) && PinnedBy(w.g.pins, w.active, user, Roomy(w.c)) ==>
               PinnedBy(w'.g.pins, w'.active, user, Roomy(w.c))
    requires Covers(w.g.busy, w.active, user) ==> Covers(w'.g.busy, w'.active, user)
    ensures Fetching(w', user, i, tos + [to])
  {
    hide Covers, PinnedBy, Available, Matches, MatchesAll, Vals, Roomy, OperandsSafe;
    var j := |tos|;
    ValsStep(i.args, j);
    MatchesMore(w.Abs(), w'.Abs(), i.args, tos, j, to);
  }

  lemma FetchEnd(w: View, user: Option<nat>, i: Inst, tos: seq<TOperand>)
    requires Fetching(w, user, i, tos) && |tos| == |i.args|
    ensures MatchesAll(w.Abs(), i.args, tos) && w.g.pending == multiset{} && ArityOk(i.op, |i.args|)
  {
    hide Covers, PinnedBy, IsOuter, Roomy, OperandsSafe;
    assert i.args[..|tos|] == i.args && i.args[|tos|..] == [];
  }

  /** Fetching operands for u moves nothing else. */
  ghost predicate SamePlace(g: Shadow, g0: Shadow, u: nat) {
    g.defined == g0.defined && g.temps == g0.temps && g.pos == g0.pos && g.users <= g0.users + {u}
  }

  lemma SamePlaceRefl(g: Shadow, u: nat)
    ensures SamePlace(g, g, u)
  {}

  lemma SamePlaceStep(g: Shadow, g1: Shadow, g0: Shadow, u: nat, o: Operand, to: TOperand)
    requires SamePlace(g1, g0, u)
    requires if o.Val? then to.Reg? && g == Use(g1, o.id, to.r, u) else g == g1
    ensures SamePlace(g, g0, u)
  {}

  /** An operand of a well-formed program is defined in this block or comes from another one. */
  ghost predicate Available(c: Info, defined: set<nat>, o: Operand) {
    o.Val? ==> (o.id in defined || IsOuter(c, o.id)) && OccursIn(c.f, o.id, c.b)
  }

  lemma UsedIsAvailable(c: Info, k: nat, o: Operand)
    requires c.b < |c.f.blocks| && k <= |c.Blk().insts| && OperandOk(c.f, c.b, k, o)
    requires o.Val? ==> OccursIn(c.f, o.id, c.b)
    ensures Available(c, DefinedSet(c.Blk(), k), o)
  {
    if o.Val? && c.f.parent[o.id] == c.b {
      assert DefinedBefore(c.Blk(), o.id, k);
    }
  }

  lemma InstFacts(w: View)
    requires AtInst(w) && w.g.pos < |w.c.Blk().insts| && BlockOk(w.c.f, w.c.b)
    ensures var i := w.c.Blk().insts[w.g.pos];
            && InstOk(i) && OperandsSafe(w.c.f, w.c.b, i) && IsLocal(w.c, i.id) && i.id !in w.g.defined && i.id !in w.g.users
            && (forall p :: p in w.g.temps ==> w.g.temps[p] != Val(i.id))
            && w.g.pins == map[] && w.g.pending == multiset(Vals(i.args))
            && forall j :: 0 <= j < |i.args| ==> Available(w.c, w.g.defined, i.args[j])
  {
    var blk, k := w.c.Blk(), w.g.pos;
    var i := blk.insts[k];
    forall j | 0 <= j < |i.args|
      ensures Available(w.c, w.g.defined, i.args[j])
    {
      if i.args[j].Val? {
        assert UsesDirectly(blk, i.args[j].id);
      }
      assert OperandOk(w.c.f, w.c.b, k, i.args[j]);
      UsedIsAvailable(w.c, k, i.args[j]);
    }
  }

  function NextInst(w: View, i: Inst): Shadow
    requires w.c.b < |w.c.f.blocks| && w.g.pos < |w.c.Blk().insts|
  {
    w.g.(pos := w.g.pos + 1, pending := multiset(UsesAt(w.c.f, w.c.b, w.g.pos + 1)), pins := map[],
         defined := w.g.defined + if i.named then {i.id} else {})
  }

  lemma NoPins(active: map<nat, Allocation>, pins: map<nat, nat>)
    requires RegistersOk(active, pins)
    ensures RegistersOk(active, map[])
  {
  }

  lemma OpShape(a: Abs, i: Inst, tos: seq<TOperand>)
    requires InstOk(i) && MatchesAll(a, i.args, tos)
    ensures |tos| == |i.args| && ArityOk(i.op, |i.args|)
  {
  }

  lemma GoodOp(w: View, i: Inst, tos: seq<TOperand>, al: Allocation, w': View)
    requires Good(w) && w.g.pos < |w.c.Blk().insts| && i == w.c.Blk().insts[w.g.pos]
    requires InstOk(i) && IsLocal(w.c, i.id) && i.id !in w.g.defined && MatchesAll(w.Abs(), i.args, tos)
    requires (forall p :: p in w.g.temps ==> w.g.temps[p] != Val(i.id)) && w.g.pending == multiset{}
    requires al == Allocation(i.id, None, al.regId, FrontAdvent(w.advents, i.id)) && (i.named ==> NotHeld(w.Abs(), al.regId) && IsRegister(al.regId))
    requires w'.c == w.c && w'.code == w.code + EmitOp(i, tos, al.regId) && w'.advents == w.advents && w'.g == NextInst(w, i)
    requires w'.active == (if i.named then w.active[i.id := al] else w.active)
    requires w'.ste == (if i.named then w.ste[i.id := Reg(al.regId)] else w.ste)
    ensures Good(w')
  {
    hide Tracks, AdventsOk, EmitOp, Static, InstOk, MatchesAll, UsesAt, NotHeld, OccursIn, MachineCode;
    hide RegistersOk;
    OpShape(w.Abs(), i, tos);
    if i.named {
      RegistersPut(w.active, w.g.pins, i.id, al);
    }
    NoPins(w.active, w.g.pins);
    MatchedAreMachine(w.Abs(), i.args, tos);
    EmitOpIsMachine(i, tos, al.regId);
    MachineConcat(w.code, EmitOp(i, tos, al.regId));
    TracksOp(w.c, w.g.pos, w.code, w.Abs(), tos, al);
    AdventsAdvance(w.c.f, w.c.b, w.advents, w.g.pos);
    assert w'.Abs() == AfterOp(w.Abs(), i, al);
    if i.named {
      ResultOccurs(w.c.f, w.c.b, w.g.pos);
    }
    StaticAfterOp(w.c, w.Abs(), i, al);
  }

  lemma StaticAfterOp(c: Info, a: Abs, i: Inst, al: Allocation)
    requires Static(c, a) && IsLocal(c, i.id) && al.source == i.id && al.lastUser == None
    ensures Static(c, AfterOp(a, i, al))
  {}

  lemma NextAtInst(w: View, i: Inst, w': View)
    requires AtInst(w) && w.g.pos < |w.c.Blk().insts| && i == w.c.Blk().insts[w.g.pos]
    requires w'.c == w.c && w'.g.pos == w.g.pos + 1 && w'.g.temps == w.g.temps && w'.g.pins == map[]
    requires w'.g.defined == w.g.defined + if i.named then {i.id} else {}
    requires w'.g.pending == multiset(UsesAt(w.c.f, w.c.b, w.g.pos + 1)) && w'.g.users <= w.g.users + {i.id}
    ensures AtInst(w')
  {
    hide UsesAt;
    var blk, k := w.c.Blk(), w.g.pos;
    assert w'.g.defined == DefinedSet(blk, k + 1) by {
      if i.named {
        assert i.id in DefinedSet(blk, k + 1);
      }
    }
  }

  lemma GoodBusy(w: View, w': View)
    requires Good(w) && w' == w.(g := w.g.(busy := {}))
    ensures Good(w')
  {
    hide Tracks, AdventsOk, Static;
    assert w'.Abs() == w.Abs();
  }

  lemma FreshUserBusyless(w: View, u: nat)
    requires Good(w) && u !in w.g.users
    ensures Covers({}, w.active, Some(u))
  {
    hide Tracks, AdventsOk, Static;
  }
}
