/** Leaving a block: phi operands on its edges, the terminator, and the correctness of the whole block. */
module BlockExit {
  import opened Words
  import opened Programs
  import opened Simulation
  import opened Tracking
  import opened UseQueues
  import opened BlockState

  // ---- leaving the block ----

  /** Phi j of block d will find its operand of edge c.b -> d in its phi slot. */
  ghost predicate PhiStored(c: Info, temps: map<nat, Operand>, d: nat, j: nat) {
    && d < |c.f.blocks| && j < |c.f.blocks[d].phis|
    && var phi := c.f.blocks[d].phis[j];
       phi.id in temps && Incoming(phi.incoming, c.b) == Some(temps[phi.id])
  }

  /** So will the first j phis of block d. */
  ghost predicate FirstStored(c: Info, temps: map<nat, Operand>, d: nat, j: nat) {
    forall i :: 0 <= i < j ==> PhiStored(c, temps, d, i)
  }

  ghost predicate EdgeStored(c: Info, temps: map<nat, Operand>, d: nat) {
    d < |c.f.blocks| && forall j :: 0 <= j < |c.f.blocks[d].phis| ==> PhiStored(c, temps, d, j)
  }

  /** All instructions are emitted, the phi operands of edges `stored` are in place, `pend` lists the uses left. */
  ghost predicate Leaving(w: View, stored: set<nat>, pend: seq<nat>) {
    && w.c.b < |w.c.f.blocks| && w.g.pos == |w.c.Blk().insts|
    && w.g.defined == DefinedSet(w.c.Blk(), w.g.pos) && w.g.pins == map[] && w.g.pending == multiset(pend)
    && forall d :: d in stored ==> EdgeStored(w.c, w.g.temps, d)
  }

  lemma LeavingStart(w: View)
    requires AtInst(w) && w.g.pos == |w.c.Blk().insts|
    ensures Leaving(w, {}, EdgeUses(w.c.f, w.c.b, Successors(w.c.Blk().term)) + Vals(TermOperands(w.c.Blk().term)))
  {
    hide EdgeUses, Vals;
  }

  lemma {:induction false} IncomingIn(incoming: seq<(nat, Operand)>, b: nat)
    requires Incoming(incoming, b).Some?
    ensures exists j :: 0 <= j < |incoming| && incoming[j] == (b, Incoming(incoming, b).value)
  {
    if incoming[0].0 == b {
      assert incoming[0] == (b, incoming[0].1);
    } else {
      IncomingIn(incoming[1..], b);
      var j :| 0 <= j < |incoming[1..]| && incoming[1..][j] == (b, Incoming(incoming[1..], b).value);
      assert incoming[j + 1] == incoming[1..][j];
    }
  }

  lemma PhiFacts(w: View, d: nat, j: nat, stored: set<nat>, rest: seq<nat>)
    requires WellFormed(w.c.f) && w.c.b < |w.c.f.blocks| && d in Successors(w.c.Blk().term)
    requires d < |w.c.f.blocks| && j < |w.c.f.blocks[d].phis|
    requires Leaving(w, stored, PhiUses(w.c.f.blocks[d].phis[j..], w.c.b) + rest)
    ensures var phi := w.c.f.blocks[d].phis[j];
            && Incoming(phi.incoming, w.c.b).Some?
            && var o := Incoming(phi.incoming, w.c.b).value;
               && Available(w.c, w.g.defined, o) && w.g.pins == map[]
               && w.g.pending == (if o.Val? then multiset{o.id} else multiset{})
                                 + multiset(PhiUses(w.c.f.blocks[d].phis[j + 1..], w.c.b) + rest)
  {
    var phis := w.c.f.blocks[d].phis;
    assert BlockOk(w.c.f, w.c.b);
    assert EdgeOk(w.c.f, w.c.b, d);
    var o := Incoming(phis[j].incoming, w.c.b).value;
    IncomingIn(phis[j].incoming, w.c.b);
    var n :| 0 <= n < |phis[j].incoming| && phis[j].incoming[n] == (w.c.b, o);
    if o.Val? {
      assert FeedsPhi(w.c.f.blocks[d], w.c.b, o.id);
    }
    UsedIsAvailable(w.c, |w.c.Blk().insts|, o);
    assert phis[j..][0] == phis[j] && phis[j..][1..] == phis[j + 1..];
    assert Vals([o]) == if o.Val? then [o.id] else [];
  }

  /** A phi belongs to one block and one place in it. */
  lemma PhiUnique(f: Func, d: nat, j: nat, d': nat, j': nat)
    requires d < |f.blocks| && d' < |f.blocks| && IdsOk(f, d) && IdsOk(f, d')
    requires j < |f.blocks[d].phis| && j' < |f.blocks[d'].phis| && f.blocks[d].phis[j].id == f.blocks[d'].phis[j'].id
    ensures d == d' && j == j'
  {}

  lemma StoreKeeps(c: Info, temps: map<nat, Operand>, d: nat, j: nat, d': nat, j': nat)
    requires WellFormed(c.f) && PhiStored(c, temps, d', j')
    requires d < |c.f.blocks| && j < |c.f.blocks[d].phis| && Incoming(c.f.blocks[d].phis[j].incoming, c.b).Some?
    ensures var phi := c.f.blocks[d].phis[j];
            PhiStored(c, temps[phi.id := Incoming(phi.incoming, c.b).value], d', j')
  {
    assert BlockOk(c.f, d) && BlockOk(c.f, d');
    if c.f.blocks[d].phis[j].id == c.f.blocks[d'].phis[j'].id {
      PhiUnique(c.f, d, j, d', j');
    }
  }

  lemma StorePhi(w: View, d: nat, j: nat, stored: set<nat>, pend0: seq<nat>, g: Shadow, u: nat, o: Operand, w': View, pend: seq<nat>)
    requires WellFormed(w.c.f) && d < |w.c.f.blocks| && j < |w.c.f.blocks[d].phis|
    requires Leaving(w, stored, pend0) && FirstStored(w.c, w.g.temps, d, j) && SamePlace(g, w.g, u)
    requires Incoming(w.c.f.blocks[d].phis[j].incoming, w.c.b) == Some(o)
    requires w'.c == w.c && w'.g == g.(temps := g.temps[w.c.f.blocks[d].phis[j].id := o], pins := map[])
    requires g.pending == multiset(pend)
    ensures Leaving(w', stored, pend) && FirstStored(w.c, w'.g.temps, d, j + 1)
  {
    hide WellFormed, DefinedSet;
    forall d' | d' in stored
      ensures EdgeStored(w.c, w'.g.temps, d')
    {
      assert EdgeStored(w.c, w.g.temps, d');
      forall i | 0 <= i < |w.c.f.blocks[d'].phis|
        ensures PhiStored(w.c, w'.g.temps, d', i)
      {
        StoreKeeps(w.c, w.g.temps, d, j, d', i);
      }
    }
    forall i | 0 <= i < j
      ensures PhiStored(w.c, w'.g.temps, d, i)
    {
      StoreKeeps(w.c, w.g.temps, d, j, d, i);
    }
  }

  lemma LeavingEdge(w: View, d: nat, stored: set<nat>, rest: seq<nat>)
    requires d < |w.c.f.blocks| && Leaving(w, stored, PhiUses([], w.c.b) + rest)
    requires FirstStored(w.c, w.g.temps, d, |w.c.f.blocks[d].phis|)
    ensures Leaving(w, stored + {d}, rest)
  {
    hide DefinedSet, PhiStored;
    assert [] + rest == rest;
  }

  lemma GoodStorePhi(w: View, p: nat, o: Operand, to: TOperand)
    requires Good(w) && Matches(w.Abs(), o, to)
    ensures Good(w.(code := w.code + [StoreTemp(to, p)], g := w.g.(temps := w.g.temps[p := o], pins := map[])))
  {
    hide Tracks, AdventsOk, Static, MachineCode;
    OneIsMachine(StoreTemp(to, p));
    MachineConcat(w.code, [StoreTemp(to, p)]);
    var a := w.Abs().(temps := w.g.temps[p := o]);
    TracksStorePhi(w.c, w.g.pos, w.code, w.Abs(), p, o, to);
    TracksRelax(w.c, w.g.pos, w.code + [StoreTemp(to, p)], a, a.(pins := map[]));
    StaticPins(w.c, w.Abs(), a.(pins := map[]));
  }

  lemma StaticPins(c: Info, a: Abs, a': Abs)
    requires Static(c, a) && a'.active == a.active && a'.defined == a.defined
    ensures Static(c, a')
  {}

  /** The emitted terminator makes the same choice. */
  ghost predicate TermMatches(a: Abs, term: Terminator, tt: TTerm) {
    match term
    case Br(d) => tt == TBr(d)
    case CondBr(c, y, n) => tt.TCondBr? && Matches(a, c, tt.cond) && tt.yes == y && tt.no == n
    case Switch(c, d, cases) => tt.TSwitch? && Matches(a, c, tt.cond) && tt.dflt == d && tt.cases == cases
    case Ret(o) => tt.TRet? && Matches(a, o, tt.val)
  }

  // ---- one block is correct ----

  /** The emitted block ends like the source block: same events, same result, same successor, and the slots are right there. */
  ghost predicate StepMatches(f: Func, r: Run<Outcome<SState>>, tr: Run<Outcome<TState>>) {
    match r
    case Done(Jump(d, s)) => tr.Done? && tr.v.Jump? && tr.v.dest == d && Boundary(f, d, s, tr.v.state)
    case Done(Return(v, h)) => tr == Done(Return(v, h))
    case Trapped(h) => tr == Trapped(h)
    case Stuck => true
  }

  ghost predicate BlockCorrect(f: Func, b: nat, tb: TBlock)
    requires b < |f.blocks|
  {
    forall x: Ctx, s0: SState, t0: TState :: Boundary(f, b, s0, t0) ==> StepMatches(f, StepBlock(x, f, b, s0), TStepBlock(x, tb, t0))
  }

  /** Phi phi was assigned its operand's value in env0. */
  ghost predicate PhiAssigned(x: Ctx, phi: Phi, from: nat, env0: map<nat, Word>, env: map<nat, Word>) {
    phi.id in env && Incoming(phi.incoming, from).Some? && Eval(x, env0, Incoming(phi.incoming, from).value) == Some(env[phi.id])
  }

  lemma PhiIdsStep(phis: seq<Phi>, n: nat)
    requires |phis| == n + 1
    ensures PhiIds(phis) == PhiIds(phis[..n]) + {phis[n].id}
  {
    assert forall i :: 0 <= i < n ==> phis[..n][i] == phis[i];
    forall v | v in PhiIds(phis[..n])
      ensures v in PhiIds(phis)
    {
      var i :| 0 <= i < n && phis[..n][i].id == v;
      assert phis[i].id == v;
    }
  }

  lemma {:induction false} AssignPhisLookup(x: Ctx, phis: seq<Phi>, from: nat, env0: map<nat, Word>, env: map<nat, Word>)
    requires AssignPhis(x, phis, from, env0) == Some(env)
    requires forall i, j :: 0 <= i < j < |phis| ==> phis[i].id != phis[j].id
    ensures forall v :: v in env && v !in PhiIds(phis) ==> v in env0 && env[v] == env0[v]
    ensures forall i :: 0 <= i < |phis| ==> PhiAssigned(x, phis[i], from, env0, env)
  {
    hide Incoming, Eval, PhiIds;
    if phis != [] {
      var n := |phis| - 1;
      var last := phis[n];
      var env1 := AssignPhis(x, phis[..n], from, env0).value;
      AssignPhisLookup(x, phis[..n], from, env0, env1);
      assert env == env1[last.id := Eval(x, env0, Incoming(last.incoming, from).value).value];
      forall i | 0 <= i < |phis|
        ensures PhiAssigned(x, phis[i], from, env0, env)
      {
        if i < n {
          assert PhiAssigned(x, phis[..n][i], from, env0, env1);
        }
      }
      PhiIdsStep(phis, n);
    }
  }

  /** Every escaping value is in its slot once the block has been left. */
  lemma SlotsOnExit(w: View, x: Ctx, s: SState, t: TState, v: nat)
    requires w.c.b < |w.c.f.blocks| && SoundFinalUses(w.c.f, w.c.finalUses) && !w.c.Blk().term.Ret?
    requires Sim(w.c, x, w.Abs(), s, t) && w.active == map[] && w.g.defined == DefinedSet(w.c.Blk(), |w.c.Blk().insts|)
    requires v in s.env && Escapes(w.c.f, v)
    ensures Lookup(t.slots, v) == s.env[v]
  {
    if !IsOuter(w.c, v) {
      assert Defines(w.c.Blk(), v);
      assert v in w.g.defined;
      assert !InFinalUses(w.c.finalUses, w.c.b, v);
    }
  }

  lemma EnterBlock(w: View, x: Ctx, s: SState, t: TState, d: nat, env: map<nat, Word>)
    requires w.c.b < |w.c.f.blocks| && SoundFinalUses(w.c.f, w.c.finalUses) && !w.c.Blk().term.Ret?
    requires Sim(w.c, x, w.Abs(), s, t) && w.active == map[] && w.g.defined == DefinedSet(w.c.Blk(), |w.c.Blk().insts|)
    requires EdgeStored(w.c, w.g.temps, d) && IdsOk(w.c.f, d)
    requires AssignPhis(x, w.c.f.blocks[d].phis, w.c.b, s.env) == Some(env)
    ensures Boundary(w.c.f, d, SState(env, s.history), t)
  {
    hide Escapes, DefinedSet;
    var phis := w.c.f.blocks[d].phis;
    AssignPhisLookup(x, phis, w.c.b, s.env, env);
    forall v | v in env && Escapes(w.c.f, v) && v !in PhiIds(phis)
      ensures Lookup(t.slots, v) == env[v]
    {
      SlotsOnExit(w, x, s, t, v);
    }
    forall i | 0 <= i < |phis|
      ensures Lookup(t.temps, phis[i].id) == env[phis[i].id]
    {
      assert PhiStored(w.c, w.g.temps, d, i);
      assert PhiAssigned(x, phis[i], w.c.b, s.env, env);
    }
  }

  lemma LeaveCorrect(w: View, x: Ctx, s: SState, t: TState, tt: TTerm)
    requires WellFormed(w.c.f) && w.c.b < |w.c.f.blocks| && SoundFinalUses(w.c.f, w.c.finalUses)
    requires Sim(w.c, x, w.Abs(), s, t) && w.g.defined == DefinedSet(w.c.Blk(), |w.c.Blk().insts|)
    requires TermMatches(w.Abs(), w.c.Blk().term, tt)
    requires !w.c.Blk().term.Ret? ==>
               w.active == map[] && forall d :: d in Successors(w.c.Blk().term) ==> EdgeStored(w.c, w.g.temps, d)
    ensures StepMatches(w.c.f, Leave(x, w.c.f, w.c.b, s), Done(TLeave(x, tt, t)))
  {
    hide DefinedSet, Sim, SoundFinalUses, EdgeStored, Matches, Boundary, WellFormed;
    var term := w.c.Blk().term;
    if term.Ret? {
      SimHistory(w.c, x, w.Abs(), s, t);
      MatchEval(w.c, x, w.Abs(), s, t, term.val, tt.val);
    } else if ChooseDest(x, s.env, term).Some? {
      var d := ChooseDest(x, s.env, term).value;
      match term {
        case Br(_) =>
        case CondBr(c, _, _) => MatchEval(w.c, x, w.Abs(), s, t, c, tt.cond);
        case Switch(c, dflt, cases) =>
          MatchEval(w.c, x, w.Abs(), s, t, c, tt.cond);
          SwitchDestIn(Eval(x, s.env, c).value, dflt, cases);
      }
      assert d in Successors(term);
      if d < |w.c.f.blocks| && AssignPhis(x, w.c.f.blocks[d].phis, w.c.b, s.env).Some? {
        BlockIds(w.c.f, d);
        EnterBlock(w, x, s, t, d, AssignPhis(x, w.c.f.blocks[d].phis, w.c.b, s.env).value);
      }
    }
  }

  lemma SimHistory(c: Info, x: Ctx, a: Abs, s: SState, t: TState)
    requires c.b < |c.f.blocks| && Sim(c, x, a, s, t)
    ensures t.history == s.history
  {}

  lemma BlockIds(f: Func, d: nat)
    requires WellFormed(f) && d < |f.blocks|
    ensures IdsOk(f, d) && BlockOk(f, d)
  {
    assert BlockOk(f, d);
  }

  lemma TermIsMachine(a: Abs, term: Terminator, tt: TTerm)
    requires TermMatches(a, term, tt) && RegistersOk(a.active, a.pins)
    ensures MachineTerm(tt)
  {
  }

  /** Only instructions of the machine, on its sixteen registers. */
  predicate MachineBlock(tb: TBlock) { MachineCode(tb.code) && MachineTerm(tb.term) }

  lemma BlockIsMachine(w: View, tt: TTerm)
    requires Good(w) && TermMatches(w.Abs(), w.c.Blk().term, tt)
    ensures MachineBlock(TBlock(w.code, tt))
  {
    hide MachineCode, OccursIn, UsesAt, Tracks, Static, AdventsOk, RegistersOk, TermMatches, MachineTerm;
    TermIsMachine(w.Abs(), w.c.Blk().term, tt);
  }

  lemma BlockDone(w: View, tt: TTerm)
    requires Good(w) && WellFormed(w.c.f) && SoundFinalUses(w.c.f, w.c.finalUses)
    requires w.g.pos == |w.c.Blk().insts| && w.g.defined == DefinedSet(w.c.Blk(), w.g.pos)
    requires TermMatches(w.Abs(), w.c.Blk().term, tt)
    requires !w.c.Blk().term.Ret? ==>
               w.active == map[] && forall d :: d in Successors(w.c.Blk().term) ==> EdgeStored(w.c, w.g.temps, d)
    ensures BlockCorrect(w.c.f, w.c.b, TBlock(w.code, tt)) && MachineBlock(TBlock(w.code, tt))
  {
    hide Good, MachineBlock, BlockCorrect, TermMatches, DefinedSet, WellFormed, SoundFinalUses, EdgeStored;
    GoodBounds(w);
    BlockIsMachine(w, tt);
    BlockIsCorrect(w, tt);
  }

  lemma BlockIsCorrect(w: View, tt: TTerm)
    requires Good(w) && WellFormed(w.c.f) && SoundFinalUses(w.c.f, w.c.finalUses)
    requires w.g.pos == |w.c.Blk().insts| && w.g.defined == DefinedSet(w.c.Blk(), w.g.pos)
    requires TermMatches(w.Abs(), w.c.Blk().term, tt)
    requires !w.c.Blk().term.Ret? ==>
               w.active == map[] && forall d :: d in Successors(w.c.Blk().term) ==> EdgeStored(w.c, w.g.temps, d)
    ensures BlockCorrect(w.c.f, w.c.b, TBlock(w.code, tt))
  {
    hide MachineCode, OccursIn, UsesAt, RegistersOk, DefinedSet, Sim, SoundFinalUses, EdgeStored, TermMatches, Boundary, WellFormed, Static, AdventsOk, Leave, TLeave;
    var f, b, tb := w.c.f, w.c.b, TBlock(w.code, tt);
    var insts := w.c.Blk().insts;
    assert insts[..w.g.pos] == insts;
    forall x: Ctx, s0: SState, t0: TState | Boundary(f, b, s0, t0)
      ensures StepMatches(f, StepBlock(x, f, b, s0), TStepBlock(x, tb, t0))
    {
      assert TracksAt(w.c, w.g.pos, w.code, w.Abs(), x, s0, t0);
      var r := ExecInsts(x, insts, s0);
      if r.Done? {
        LeaveCorrect(w, x, r.v, TExec(x, w.code, t0).v, tt);
      }
    }
  }

  lemma TermFacts(f: Func, fu: FinalUses, b: nat)
    requires WellFormed(f) && b < |f.blocks|
    ensures var c := Info(f, fu, b);
            && IsLocal(c, c.Blk().termId)
            && (forall d :: d in Successors(c.Blk().term) ==> d < |f.blocks|)
            && forall j :: 0 <= j < |TermOperands(c.Blk().term)| ==>
                 Available(c, DefinedSet(c.Blk(), |c.Blk().insts|), TermOperands(c.Blk().term)[j])
  {
    var c := Info(f, fu, b);
    assert BlockOk(f, b);
    forall d | d in Successors(c.Blk().term)
      ensures d < |f.blocks|
    {
      assert EdgeOk(f, b, d);
    }
    var os := TermOperands(c.Blk().term);
    forall j | 0 <= j < |os|
      ensures Available(c, DefinedSet(c.Blk(), |c.Blk().insts|), os[j])
    {
      assert OperandOk(f, b, |c.Blk().insts|, os[j]);
      if os[j].Val? {
        assert UsesDirectly(c.Blk(), os[j].id);
      }
      UsedIsAvailable(c, |c.Blk().insts|, os[j]);
    }
  }

  /** The first n successors. */
  function Firsts(ds: seq<nat>, n: nat): set<nat>
    requires n <= |ds|
  {
    set d | d in ds[..n]
  }

  lemma FirstsNone(ds: seq<nat>)
    ensures Firsts(ds, 0) == {}
  {}

  lemma FirstsStep(ds: seq<nat>, n: nat)
    requires n < |ds|
    ensures Firsts(ds, n + 1) == Firsts(ds, n) + {ds[n]}
  {
    assert ds[..n + 1] == ds[..n] + [ds[n]];
  }

  lemma LastUses(w: View, ds: seq<nat>, last: seq<nat>)
    requires Leaving(w, Firsts(ds, |ds|), EdgeUses(w.c.f, w.c.b, ds[|ds|..]) + last)
    ensures w.g.pins == map[] && w.g.pending == multiset(last) && w.g.pos == |w.c.Blk().insts|
    ensures w.g.defined == DefinedSet(w.c.Blk(), w.g.pos)
    ensures forall d :: d in ds ==> EdgeStored(w.c, w.g.temps, d)
  {
    hide DefinedSet, EdgeStored;
    assert ds[..|ds|] == ds && ds[|ds|..] == [];
    assert [] + last == last;
  }

  lemma GoodStart(w: View)
    requires w.c.b < |w.c.f.blocks| && IdsOk(w.c.f, w.c.b)
    requires w.code == [] && w.active == map[]
    requires w.g == Shadow({}, PhiTemps(w.c.Blk().phis), map[], {}, 0, multiset(UsesAt(w.c.f, w.c.b, 0)), {})
    requires forall v: nat {:trigger Advents(w.advents, v)} :: Advents(w.advents, v) == Times(w.c.f, w.c.b, v, 0)
    ensures Good(w) && AtPhi(w, 0)
  {
    hide UsesAt, Tracks;
    TracksEntry(w.c, w.Abs());
    assert w.c.Blk().phis[..0] == [];
  }

  lemma PhisDone(w: View)
    requires w.c.b < |w.c.f.blocks| && AtPhi(w, |w.c.Blk().phis|)
    ensures AtInst(w) && w.g.pos == 0
  {
    hide UsesAt;
    assert w.c.Blk().phis[..|w.c.Blk().phis|] == w.c.Blk().phis;
  }

  lemma ReturnIsLast(f: Func, b: nat)
    requires WellFormed(f) && b < |f.blocks|
    ensures b < |f.blocks| - 1 ==> !f.blocks[b].term.Ret?
  {
    assert BlockOk(f, b);
  }
}
