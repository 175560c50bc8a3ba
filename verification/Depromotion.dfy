/** Whole functions: every block is translated, and every run of the emitted program follows the SSA program. */
module Depromotion {
  import opened Words
  import opened Programs
  import opened RegisterAllocation
  import opened Simulation
  import opened Tracking
  import opened BlockState
  import opened BlockExit
  import opened Backend
  import UseQueues
  import FinalUseAnalysis

  /** From an empty history, in every environment and after any number of blocks: the same events and calls,
      the same errors, the same returned value, the same current block, whatever the registers and slots held. */
  ghost predicate Refines(f: Func, p: seq<TBlock>) {
    forall x: Ctx, n: nat, t: TState :: t.history == [] ==>
      StepMatches(f, RunSource(x, f, n, 0, SState(map[], [])), RunTarget(x, p, n, 0, t))
  }

  ghost predicate AllCorrect(f: Func, p: seq<TBlock>) {
    |p| == |f.blocks| && forall b :: 0 <= b < |p| ==> BlockCorrect(f, b, p[b])
  }

  lemma {:induction false} RunsAgree(x: Ctx, f: Func, p: seq<TBlock>, n: nat, b: nat, s: SState, t: TState)
    requires AllCorrect(f, p) && Boundary(f, b, s, t)
    ensures StepMatches(f, RunSource(x, f, n, b, s), RunTarget(x, p, n, b, t))
    decreases n
  {
    hide Boundary, StepBlock, TStepBlock;
    if n > 0 {
      BoundaryInRange(f, b, s, t);
      assert BlockCorrect(f, b, p[b]);
      var r := StepBlock(x, f, b, s);
      if r.Done? && r.v.Jump? {
        RunsAgree(x, f, p, n - 1, r.v.dest, r.v.state, TStepBlock(x, p[b], t).v.state);
      }
    }
  }

  lemma BoundaryInRange(f: Func, b: nat, s: SState, t: TState)
    requires Boundary(f, b, s, t)
    ensures b < |f.blocks|
  {}

  /** Whenever operands have been fetched, each one that is an instruction sits in the register that names it. */
  lemma OperandsInRegisters(w: View, os: seq<Operand>, tos: seq<TOperand>, x: Ctx, s0: SState, t0: TState, s: SState)
    requires Good(w) && MatchesAll(w.Abs(), os, tos) && Boundary(w.c.f, w.c.b, s0, t0)
    requires ExecInsts(x, w.c.Blk().insts[..w.g.pos], s0) == Done(s)
    ensures TExec(x, w.code, t0).Done?
    ensures forall i :: 0 <= i < |os| && os[i].Val? && os[i].id in s.env ==>
              tos[i].Reg? && Lookup(TExec(x, w.code, t0).v.regs, tos[i].r) == s.env[os[i].id]
  {
    assert TracksAt(w.c, w.g.pos, w.code, w.Abs(), x, s0, t0);
    forall i | 0 <= i < |os| && os[i].Val? && os[i].id in s.env
      ensures tos[i].Reg? && Lookup(TExec(x, w.code, t0).v.regs, tos[i].r) == s.env[os[i].id]
    {
      assert Matches(w.Abs(), os[i], tos[i]);
    }
  }

  /** Giving up a register stores its value exactly when the value is defined in this block and is used again here, or
      has not been used yet, or may be needed elsewhere: by a block other than this one, or by one that does not return. */
  lemma SpillIff(w: View, v: nat)
    requires Good(w) && v in w.active
    requires forall b, u :: InFinalUses(w.c.finalUses, b, u) <==> FinalUseAnalysis.IsFinalUse(w.c.f, u, b)
    ensures w.c.b < |w.c.f.blocks|
    ensures SpillCode(w.c, w.advents, w.active[v]) ==
            if IsLocal(w.c, v) && ((exists j: nat :: NextUse(w, v, j)) || w.active[v].lastUser.None? || !FinalUseAnalysis.IsFinalUse(w.c.f, v, w.c.b))
            then [StoreSlot(Reg(w.active[v].regId), v)] else []
  {
    hide Tracks, UseQueues.AdventsOk, NextUse, FinalUseAnalysis.IsFinalUse, InFinalUses, OccursIn, MachineCode, RegistersOk, IsOuter;
    QueueEmptyIff(w, v);
  }

  /** A value that occurs in one block only, has been used and has no use left is given up without a store. */
  lemma DeadIsNotSpilled(w: View, v: nat)
    requires Good(w) && v in w.active && w.active[v].lastUser.Some?
    requires forall b, u :: InFinalUses(w.c.finalUses, b, u) <==> FinalUseAnalysis.IsFinalUse(w.c.f, u, b)
    requires w.c.b < |w.c.f.blocks| && forall j: nat :: !NextUse(w, v, j)
    requires forall b :: OccursIn(w.c.f, v, b) ==> b == w.c.b
    ensures SpillCode(w.c, w.advents, w.active[v]) == []
  {
    SpillIff(w, v);
    ActiveOccurs(w);
    hide Good, SpillCode, NextUse, OccursIn;
  }

  method Depromote(f: Func) returns (p: seq<TBlock>)
    requires WellFormed(f)
    ensures AllCorrect(f, p) && Refines(f, p)
    ensures forall b :: 0 <= b < |p| ==> MachineBlock(p[b])
  {
    hide MachineBlock, BlockCorrect, WellFormed, RegisterAllocator.Valid, SoundFinalUses, FinalUseAnalysis.IsFinalUse;
    var finals := FinalUseAnalysis.Visit(f);
    FinalUseAnalysis.FinalUsesAreSound(f, finals);
    var d := new DepromoteRegisters(f, finals);
    p := [];
    for b := 0 to |f.blocks|
      invariant |p| == b && forall k :: 0 <= k < b ==> BlockCorrect(f, k, p[k]) && MachineBlock(p[k])
      invariant d.f == f && d.finalUses == finals && fresh(d) && fresh(d.ra)
      invariant d.ra.Valid() && d.ra.tempRegisters == {} && d.ra.currentUser == None
      invariant b < |f.blocks| ==> d.ra.active == map[]
    {
      var tb := d.DepromoteBlock(b);
      p := p + [tb];
    }
    AllRunsAgree(f, p);
  }

  lemma AllRunsAgree(f: Func, p: seq<TBlock>)
    requires WellFormed(f) && AllCorrect(f, p)
    ensures Refines(f, p)
  {
    hide AllCorrect;
    forall x: Ctx, n: nat, t: TState | t.history == []
      ensures StepMatches(f, RunSource(x, f, n, 0, SState(map[], [])), RunTarget(x, p, n, 0, t))
    {
      RunsAgree(x, f, p, n, 0, SState(map[], []), t);
    }
  }
}
