/** What the code emitted so far for one block has computed, for every state the block may be entered in. */
module Tracking {
  import opened Programs
  import opened RegisterAllocation
  import opened Simulation

  function PhiIds(phis: seq<Phi>): set<nat> { set i | 0 <= i < |phis| :: phis[i].id }

  function PhiTemps(phis: seq<Phi>): map<nat, Operand> { map v | v in PhiIds(phis) :: Val(v) }

  /** On entry to block b: every value some other block needs is in its slot, and every phi of b has its
      value in its phi slot. */
  ghost predicate Boundary(f: Func, b: nat, s: SState, t: TState) {
    && b < |f.blocks|
    && t.history == s.history
    && (forall v :: v in s.env && Escapes(f, v) && v !in PhiIds(f.blocks[b].phis) ==> Lookup(t.slots, v) == s.env[v])
    && (forall i :: 0 <= i < |f.blocks[b].phis| ==>
          f.blocks[b].phis[i].id in s.env && Lookup(t.temps, f.blocks[b].phis[i].id) == s.env[f.blocks[b].phis[i].id])
  }

  ghost predicate TracksAt(c: Info, k: nat, code: seq<TInst>, a: Abs, x: Ctx, s0: SState, t0: TState)
    requires c.b < |c.f.blocks| && k <= |c.Blk().insts|
  {
    match ExecInsts(x, c.Blk().insts[..k], s0)
    case Done(s) => TExec(x, code, t0).Done? && Sim(c, x, a, s, TExec(x, code, t0).v)
    case Trapped(h) => TExec(x, code, t0) == Trapped(h)
    case Stuck => true
  }

  /** After the first k instructions of the block and the emitted code, the relation holds. */
  ghost predicate Tracks(c: Info, k: nat, code: seq<TInst>, a: Abs)
    requires c.b < |c.f.blocks| && k <= |c.Blk().insts|
  {
    forall x: Ctx, s0: SState, t0: TState :: Boundary(c.f, c.b, s0, t0) ==> TracksAt(c, k, code, a, x, s0, t0)
  }

  lemma TExecAppend(x: Ctx, code: seq<TInst>, i: TInst, t: TState)
    ensures TExec(x, code + [i], t) ==
            match TExec(x, code, t) { case Done(t') => TExecInst(x, i, t') case Trapped(h) => Trapped(h) case Stuck => Stuck }
  {
    assert (code + [i])[..|code|] == code;
  }

  lemma {:induction false} TExecConcat(x: Ctx, code: seq<TInst>, more: seq<TInst>, t: TState)
    ensures TExec(x, code + more, t) ==
            match TExec(x, code, t) { case Done(t') => TExec(x, more, t') case Trapped(h) => Trapped(h) case Stuck => Stuck }
  {
    if more == [] {
      assert code + more == code;
    } else {
      var n := |more| - 1;
      TExecConcat(x, code, more[..n], t);
      assert code + more == (code + more[..n]) + [more[n]];
      TExecAppend(x, code + more[..n], more[n], t);
    }
  }

  function SpillCode(c: Info, advents: map<nat, seq<nat>>, al: Allocation): seq<TInst> {
    if MustSpill(c, advents, al) then [StoreSlot(Reg(al.regId), al.source)] else []
  }

  lemma TracksEvict(c: Info, k: nat, code: seq<TInst>, a: Abs, v: nat)
    requires c.b < |c.f.blocks| && k <= |c.Blk().insts|
    requires Static(c, a) && Tracks(c, k, code, a) && v in a.active
    ensures Tracks(c, k, code + SpillCode(c, a.advents, a.active[v]), a.(active := a.active - {v}))
  {
    hide Sim, Boundary, MustSpill, IsOuter;
    var al := a.active[v];
    var i := StoreSlot(Reg(al.regId), v);
    var a' := a.(active := a.active - {v});
    var code' := code + SpillCode(c, a.advents, al);
    forall x: Ctx, s0: SState, t0: TState | Boundary(c.f, c.b, s0, t0)
      ensures TracksAt(c, k, code', a', x, s0, t0)
    {
      assert TracksAt(c, k, code, a, x, s0, t0);
      TExecAppend(x, code, i, t0);
      assert code + [] == code;
      var r := ExecInsts(x, c.Blk().insts[..k], s0);
      if r.Done? {
        SimEvict(c, x, a, v, r.v, TExec(x, code, t0).v);
      }
    }
  }

  lemma TracksFill(c: Info, k: nat, code: seq<TInst>, a: Abs, v: nat, al: Allocation)
    requires c.b < |c.f.blocks| && k <= |c.Blk().insts|
    requires Static(c, a) && Tracks(c, k, code, a)
    requires v !in a.active && NotHeld(a, al.regId) && al.regId !in a.pins
    requires IsOuter(c, v) || (v in a.defined && Needed(c, a.advents, v))
    ensures Tracks(c, k, code + [LoadSlot(al.regId, v)], a.(active := a.active[v := al]))
  {
    hide Sim, Static, Boundary, IsOuter, Needed, NotHeld;
    var a' := a.(active := a.active[v := al]);
    var code' := code + [LoadSlot(al.regId, v)];
    forall x: Ctx, s0: SState, t0: TState | Boundary(c.f, c.b, s0, t0)
      ensures TracksAt(c, k, code', a', x, s0, t0)
    {
      assert TracksAt(c, k, code, a, x, s0, t0);
      TExecAppend(x, code, LoadSlot(al.regId, v), t0);
      var r := ExecInsts(x, c.Blk().insts[..k], s0);
      if r.Done? {
        SimFill(c, x, a, v, al, r.v, TExec(x, code, t0).v);
      }
    }
  }

  lemma TracksRelax(c: Info, k: nat, code: seq<TInst>, a: Abs, a': Abs)
    requires c.b < |c.f.blocks| && k <= |c.Blk().insts| && Tracks(c, k, code, a)
    requires a'.active.Keys == a.active.Keys && a'.defined == a.defined
    requires forall v :: v in a'.active ==> a'.active[v].regId == a.active[v].regId
    requires forall v :: v in a.defined && v !in a.active && Needed(c, a'.advents, v) ==> Needed(c, a.advents, v)
    requires forall r :: r in a'.pins ==>
               || (r in a.pins && a'.pins[r] == a.pins[r])
               || (a'.pins[r] in a.active && a.active[a'.pins[r]].regId == r)
    requires forall p :: p in a'.temps ==> p in a.temps && a'.temps[p] == a.temps[p]
    ensures Tracks(c, k, code, a')
  {
    hide Sim, Boundary;
    forall x: Ctx, s0: SState, t0: TState | Boundary(c.f, c.b, s0, t0)
      ensures TracksAt(c, k, code, a', x, s0, t0)
    {
      assert TracksAt(c, k, code, a, x, s0, t0);
      var r := ExecInsts(x, c.Blk().insts[..k], s0);
      if r.Done? {
        SimRelax(c, x, a, a', r.v, TExec(x, code, t0).v);
      }
    }
  }

  lemma TracksLoadPhi(c: Info, code: seq<TInst>, a: Abs, i: nat, al: Allocation)
    requires c.b < |c.f.blocks| && i < |c.Blk().phis| && Tracks(c, 0, code, a)
    requires NotHeld(a, al.regId) && a.pins == map[]
    requires var p := c.Blk().phis[i].id; p in a.temps && a.temps[p] == Val(p)
    ensures var p := c.Blk().phis[i].id;
            Tracks(c, 0, code + [LoadTemp(al.regId, p)], a.(active := a.active[p := al], defined := a.defined + {p}))
  {
    hide Sim, Boundary, NotHeld;
    var p := c.Blk().phis[i].id;
    var a' := a.(active := a.active[p := al], defined := a.defined + {p});
    var code' := code + [LoadTemp(al.regId, p)];
    forall x: Ctx, s0: SState, t0: TState | Boundary(c.f, c.b, s0, t0)
      ensures TracksAt(c, 0, code', a', x, s0, t0)
    {
      assert TracksAt(c, 0, code, a, x, s0, t0);
      TExecAppend(x, code, LoadTemp(al.regId, p), t0);
      SimLoadPhi(c, x, a, i, al, s0, TExec(x, code, t0).v);
    }
  }

  lemma TracksStorePhi(c: Info, k: nat, code: seq<TInst>, a: Abs, p: nat, o: Operand, to: TOperand)
    requires c.b < |c.f.blocks| && k <= |c.Blk().insts| && Tracks(c, k, code, a) && Matches(a, o, to)
    ensures Tracks(c, k, code + [StoreTemp(to, p)], a.(temps := a.temps[p := o]))
  {
    hide Sim, Boundary, Matches;
    var a' := a.(temps := a.temps[p := o]);
    var code' := code + [StoreTemp(to, p)];
    forall x: Ctx, s0: SState, t0: TState | Boundary(c.f, c.b, s0, t0)
      ensures TracksAt(c, k, code', a', x, s0, t0)
    {
      assert TracksAt(c, k, code, a, x, s0, t0);
      TExecAppend(x, code, StoreTemp(to, p), t0);
      var r := ExecInsts(x, c.Blk().insts[..k], s0);
      if r.Done? {
        SimStorePhi(c, x, a, p, o, to, r.v, TExec(x, code, t0).v);
      }
    }
  }

  function AfterOp(a: Abs, i: Inst, al: Allocation): Abs {
    if i.named then a.(active := a.active[i.id := al], defined := a.defined + {i.id}, pins := map[]) else a.(pins := map[])
  }

  lemma TracksOp(c: Info, k: nat, code: seq<TInst>, a: Abs, tos: seq<TOperand>, al: Allocation)
    requires c.b < |c.f.blocks| && k < |c.Blk().insts| && Static(c, a) && Tracks(c, k, code, a)
    requires var i := c.Blk().insts[k];
             && InstOk(i) && MatchesAll(a, i.args, tos)
             && IsLocal(c, i.id) && i.id !in a.defined && (i.named ==> NotHeld(a, al.regId))
             && forall p :: p in a.temps ==> a.temps[p] != Val(i.id)
    ensures var i := c.Blk().insts[k];
            Tracks(c, k + 1, code + EmitOp(i, tos, al.regId), AfterOp(a, i, al))
  {
    hide Sim, Static, Boundary, Matches, EmitOp, NotHeld;
    var i := c.Blk().insts[k];
    assert c.Blk().insts[..k + 1][..k] == c.Blk().insts[..k];
    var a', k' := AfterOp(a, i, al), k + 1;
    var code' := code + EmitOp(i, tos, al.regId);
    forall x: Ctx, s0: SState, t0: TState | Boundary(c.f, c.b, s0, t0)
      ensures TracksAt(c, k', code', a', x, s0, t0)
    {
      assert TracksAt(c, k, code, a, x, s0, t0);
      TExecConcat(x, code, EmitOp(i, tos, al.regId), t0);
      var r := ExecInsts(x, c.Blk().insts[..k], s0);
      if r.Done? {
        SimOp(c, x, a, i, tos, al, r.v, TExec(x, code, t0).v);
      }
    }
  }

  lemma TracksEntry(c: Info, a: Abs)
    requires c.b < |c.f.blocks| && IdsOk(c.f, c.b)
    requires a.active == map[] && a.defined == {} && a.pins == map[] && a.temps == PhiTemps(c.Blk().phis)
    ensures Tracks(c, 0, [], a)
  {
    forall x: Ctx, s0: SState, t0: TState | Boundary(c.f, c.b, s0, t0)
      ensures TracksAt(c, 0, [], a, x, s0, t0)
    {
      assert c.Blk().insts[..0] == [];
      assert forall v :: v in PhiIds(c.Blk().phis) ==> IsLocal(c, v);
    }
  }
}
