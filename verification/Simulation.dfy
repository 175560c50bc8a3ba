/** The relation between a running SSA block and the register code emitted for it so far. */
module Simulation {
  import opened Words
  import opened Interp
  import opened Casts
  import opened Programs
  import opened RegisterAllocation

  type FinalUses = map<nat, set<nat>>

  predicate InFinalUses(fu: FinalUses, b: nat, v: nat) { b in fu && v in fu[b] }

  /** No value that another block still needs is listed as finally used in a block that continues. */
  ghost predicate SoundFinalUses(f: Func, fu: FinalUses) {
    forall b, v :: (0 <= b < |f.blocks| && InFinalUses(fu, b, v) && !f.blocks[b].term.Ret? && v in f.parent && f.parent[v] == b)
                   ==> !Escapes(f, v)
  }

  /** What is fixed while one block is translated. */
  datatype Info = Info(f: Func, finalUses: FinalUses, b: nat) {
    function Blk(): Block
      requires b < |f.blocks|
    {
      f.blocks[b]
    }
  }

  /** The translator's view: allocations by source, pending uses, values of this block defined so far,
      the operand each phi slot holds, and the values pinned in registers for the next instruction. */
  datatype Abs = Abs(
    active: map<nat, Allocation>,
    advents: map<nat, seq<nat>>,
    defined: set<nat>,
    temps: map<nat, Operand>,
    pins: map<nat, nat>)

  function Advents(m: map<nat, seq<nat>>, v: nat): seq<nat> { if v in m then m[v] else [] }

  function FrontAdvent(m: map<nat, seq<nat>>, v: nat): nat {
    if Advents(m, v) == [] then NO_MORE_ADVENT else Advents(m, v)[0]
  }

  predicate IsLocal(c: Info, v: nat) { v in c.f.parent && c.f.parent[v] == c.b }

  ghost predicate IsOuter(c: Info, v: nat) { v in c.f.parent && c.f.parent[v] != c.b && Escapes(c.f, v) }

  /** The slot of a value of this block must be right once it has left its register. */
  predicate Needed(c: Info, advents: map<nat, seq<nat>>, v: nat) {
    Advents(advents, v) != [] || !InFinalUses(c.finalUses, c.b, v)
  }

  predicate MustSpill(c: Info, advents: map<nat, seq<nat>>, a: Allocation) {
    IsLocal(c, a.source) &&
    (Advents(advents, a.source) != [] || a.lastUser.None?
     || a.lastUser.value !in c.f.parent || !InFinalUses(c.finalUses, c.f.parent[a.lastUser.value], a.source))
  }

  ghost predicate Static(c: Info, a: Abs) {
    && (forall v :: v in a.active ==> a.active[v].source == v && (v in a.defined || IsOuter(c, v)))
    && (forall v :: v in a.active && a.active[v].lastUser.Some? ==> IsLocal(c, a.active[v].lastUser.value))
    && (forall v :: v in a.defined ==> IsLocal(c, v))
  }

  ghost predicate Sim(c: Info, x: Ctx, a: Abs, s: SState, t: TState)
    requires c.b < |c.f.blocks|
  {
    && t.history == s.history
    && (forall v :: v in a.active && v in s.env ==> Lookup(t.regs, a.active[v].regId) == s.env[v])
    && (forall v :: v in s.env && IsOuter(c, v) ==> Lookup(t.slots, v) == s.env[v])
    && (forall v :: v in a.defined ==> v in s.env)
    && (forall v :: v in a.defined && v !in a.active && Needed(c, a.advents, v) ==> Lookup(t.slots, v) == s.env[v])
    && (forall r :: r in a.pins && a.pins[r] in s.env ==> Lookup(t.regs, r) == s.env[a.pins[r]])
    && (forall p :: p in a.temps && Eval(x, s.env, a.temps[p]).Some? ==> Lookup(t.temps, p) == Eval(x, s.env, a.temps[p]).value)
    && (forall i :: 0 <= i < |c.Blk().phis| ==> c.Blk().phis[i].id in s.env)
  }

  ghost predicate NotHeld(a: Abs, r: nat) { forall v :: v in a.active ==> a.active[v].regId != r }

  // ---- steps that touch no source state ----

  lemma SimEvict(c: Info, x: Ctx, a: Abs, v: nat, s: SState, t: TState)
    requires c.b < |c.f.blocks| && Static(c, a) && Sim(c, x, a, s, t) && v in a.active
    ensures var t' := if MustSpill(c, a.advents, a.active[v])
                      then t.(slots := t.slots[v := Lookup(t.regs, a.active[v].regId)]) else t;
            Sim(c, x, a.(active := a.active - {v}), s, t')
  {
    hide Escapes;
  }

  lemma SimFill(c: Info, x: Ctx, a: Abs, v: nat, al: Allocation, s: SState, t: TState)
    requires c.b < |c.f.blocks| && Static(c, a) && Sim(c, x, a, s, t)
    requires v !in a.active && NotHeld(a, al.regId) && al.regId !in a.pins
    requires IsOuter(c, v) || (v in a.defined && Needed(c, a.advents, v))
    ensures Sim(c, x, a.(active := a.active[v := al]), s, t.(regs := t.regs[al.regId := Lookup(t.slots, v)]))
  {
    hide Escapes;
  }

  /** Bookkeeping: registers stay, fewer values are needed. */
  lemma SimRelax(c: Info, x: Ctx, a: Abs, a': Abs, s: SState, t: TState)
    requires c.b < |c.f.blocks| && Sim(c, x, a, s, t)
    requires a'.active.Keys == a.active.Keys && a'.defined == a.defined
    requires forall v :: v in a'.active ==> a'.active[v].regId == a.active[v].regId
    requires forall v :: v in a.defined && v !in a.active && Needed(c, a'.advents, v) ==> Needed(c, a.advents, v)
    requires forall r :: r in a'.pins ==>
               || (r in a.pins && a'.pins[r] == a.pins[r])
               || (a'.pins[r] in a.active && a.active[a'.pins[r]].regId == r)
    requires forall p :: p in a'.temps ==> p in a.temps && a'.temps[p] == a.temps[p]
    ensures Sim(c, x, a', s, t)
  {
    hide Escapes;
  }

  /** A phi of the block is loaded from its phi slot. */
  lemma SimLoadPhi(c: Info, x: Ctx, a: Abs, i: nat, al: Allocation, s: SState, t: TState)
    requires c.b < |c.f.blocks| && Sim(c, x, a, s, t) && i < |c.Blk().phis|
    requires NotHeld(a, al.regId) && a.pins == map[]
    requires var p := c.Blk().phis[i].id; p in a.temps && a.temps[p] == Val(p)
    ensures var p := c.Blk().phis[i].id;
            Sim(c, x, a.(active := a.active[p := al], defined := a.defined + {p}), s,
                t.(regs := t.regs[al.regId := Lookup(t.temps, p)]))
  {
    hide Escapes;
    var p := c.Blk().phis[i].id;
    assert Eval(x, s.env, a.temps[p]) == Some(s.env[p]);
  }

  // ---- operands ----

  /** The emitted operand names the source operand: an instruction's value through its pinned register. */
  ghost predicate Matches(a: Abs, o: Operand, to: TOperand) {
    match o
    case Const(w) => to == Imm(w)
    case Arg(n) => to == TArg(n)
    case Val(v) => to.Reg? && to.r in a.pins && a.pins[to.r] == v
  }

  lemma MatchEval(c: Info, x: Ctx, a: Abs, s: SState, t: TState, o: Operand, to: TOperand)
    requires c.b < |c.f.blocks| && Sim(c, x, a, s, t) && Matches(a, o, to)
    ensures Eval(x, s.env, o).Some? ==> TEval(x, t.regs, to) == Eval(x, s.env, o).value
  {}

  ghost predicate MatchesAll(a: Abs, os: seq<Operand>, tos: seq<TOperand>) {
    |os| == |tos| && forall i :: 0 <= i < |os| ==> Matches(a, os[i], tos[i])
  }

  lemma {:induction false} MatchEvalAll(c: Info, x: Ctx, a: Abs, s: SState, t: TState, os: seq<Operand>, tos: seq<TOperand>)
    requires c.b < |c.f.blocks| && Sim(c, x, a, s, t) && MatchesAll(a, os, tos)
    ensures EvalAll(x, s.env, os).Some? ==> TEvalAll(x, t.regs, tos) == EvalAll(x, s.env, os).value
  {
    if os != [] {
      MatchEvalAll(c, x, a, s, t, os[..|os| - 1], tos[..|tos| - 1]);
      MatchEval(c, x, a, s, t, os[|os| - 1], tos[|tos| - 1]);
    }
  }

  lemma SimStorePhi(c: Info, x: Ctx, a: Abs, p: nat, o: Operand, to: TOperand, s: SState, t: TState)
    requires c.b < |c.f.blocks| && Sim(c, x, a, s, t) && Matches(a, o, to)
    ensures Sim(c, x, a.(temps := a.temps[p := o]), s, t.(temps := t.temps[p := TEval(x, t.regs, to)]))
  {
    hide Escapes;
    MatchEval(c, x, a, s, t, o, to);
  }

  // ---- instructions ----

  function EmitOp(i: Inst, tos: seq<TOperand>, dst: nat): seq<TInst>
    requires |tos| == |i.args| && ArityOk(i.op, |i.args|)
  {
    match i.op
    case SExt(bw) =>
      if bw < 64 then
        Pow2Of64();
        Pow2Monotone(64 - bw, 64);
        [TOp(Some(dst), Bop(Mul, Size64), [tos[0], Imm(Pow2(64 - bw))]),
         TOp(Some(dst), Bop(Ashr, Size64), [Reg(dst), Imm(64 - bw)])]
      else
        [TOp(Some(dst), Bop(Mul, Size64), [tos[0], Imm(1)])]
    case Trunc(w) =>
      TruncIsURem(w, 0);
      [TOp(Some(dst), Bop(Urem, Size64), [tos[0], Imm(Pow2(w))])]
    case Copy => [TOp(Some(dst), Bop(Mul, Size64), [tos[0], Imm(1)])]
    case _ => [TOp(if i.named then Some(dst) else None, i.op, tos)]
  }

  /** The emitted instructions compute what the source instruction does, in register dst. */
  ghost predicate OpMatches(x: Ctx, i: Inst, vals: seq<Word>, dst: nat, code: seq<TInst>, t: TState) {
    match Perform(x, i.op, vals, t.history)
    case Done(r) =>
      (match TExec(x, code, t)
       case Done(t') =>
         && t'.slots == t.slots && t'.temps == t.temps && t'.history == r.1
         && (if i.named then Lookup(t'.regs, dst) == r.0 else t'.regs == t.regs)
         && forall q :: q != dst ==> Lookup(t'.regs, q) == Lookup(t.regs, q)
       case _ => false)
    case Trapped(h) => TExec(x, code, t) == Trapped(h)
    case Stuck => true
  }

  lemma TExecOne(x: Ctx, i: TInst, t: TState)
    ensures TExec(x, [i], t) == TExecInst(x, i, t)
  {
    assert [i][..0] == [];
    assert TExec(x, [], t) == Done(t);
  }

  lemma TExecTwo(x: Ctx, i: TInst, j: TInst, t: TState)
    ensures TExec(x, [i, j], t) ==
            match TExecInst(x, i, t) { case Done(t') => TExecInst(x, j, t') case Trapped(h) => Trapped(h) case Stuck => Stuck }
  {
    assert [i, j][..1] == [i];
    TExecOne(x, i, t);
  }

  lemma TEvalOne(x: Ctx, regs: map<nat, Word>, o: TOperand)
    ensures TEvalAll(x, regs, [o]) == [TEval(x, regs, o)]
  {
    assert [o][..0] == [];
    assert TEvalAll(x, regs, []) == [];
  }

  lemma TEvalTwo(x: Ctx, regs: map<nat, Word>, o: TOperand, p: TOperand)
    ensures TEvalAll(x, regs, [o, p]) == [TEval(x, regs, o), TEval(x, regs, p)]
  {
    assert [o, p][..1] == [o];
    TEvalOne(x, regs, o);
  }

  predicate IsUnary(op: Op) { op.SExt? || op.Trunc? || op.Copy? }

  // ---- the machine's instructions ----

  predicate MachineOperand(o: TOperand) { o.Reg? ==> IsRegister(o.r) }

  /** An instruction the machine has, on its sixteen registers: no casts. */
  predicate MachineInst(i: TInst) {
    match i
    case TOp(dst, op, args) =>
      (dst.Some? ==> IsRegister(dst.value)) && !IsUnary(op) && forall k :: 0 <= k < |args| ==> MachineOperand(args[k])
    case LoadSlot(r, _) => IsRegister(r)
    case StoreSlot(o, _) => MachineOperand(o)
    case LoadTemp(r, _) => IsRegister(r)
    case StoreTemp(o, _) => MachineOperand(o)
  }

  predicate MachineCode(code: seq<TInst>) { forall k :: 0 <= k < |code| ==> MachineInst(code[k]) }

  predicate MachineTerm(tt: TTerm) {
    match tt
    case TBr(_) => true
    case TCondBr(c, _, _) => MachineOperand(c)
    case TSwitch(c, _, _) => MachineOperand(c)
    case TRet(o) => MachineOperand(o)
  }

  lemma MachineConcat(code: seq<TInst>, more: seq<TInst>)
    requires MachineCode(code) && MachineCode(more)
    ensures MachineCode(code + more)
  {
    hide MachineInst;
  }

  lemma EmitOpIsMachine(i: Inst, tos: seq<TOperand>, dst: nat)
    requires |tos| == |i.args| && InstOk(i) && (i.named ==> IsRegister(dst))
    requires forall k :: 0 <= k < |tos| ==> MachineOperand(tos[k])
    ensures MachineCode(EmitOp(i, tos, dst))
  {
    hide Pow2;
  }

  lemma DirectCorrect(x: Ctx, i: Inst, tos: seq<TOperand>, dst: nat, t: TState)
    requires |tos| == |i.args| && !IsUnary(i.op)
    ensures OpMatches(x, i, TEvalAll(x, t.regs, tos), dst, [TOp(if i.named then Some(dst) else None, i.op, tos)], t)
  {
    hide Perform;
    TExecOne(x, TOp(if i.named then Some(dst) else None, i.op, tos), t);
  }

  lemma UnaryCorrect(x: Ctx, i: Inst, tos: seq<TOperand>, dst: nat, t: TState)
    requires |tos| == |i.args| == 1 && ArityOk(i.op, 1) && IsUnary(i.op) && i.named
    ensures OpMatches(x, i, TEvalAll(x, t.regs, tos), dst, EmitOp(i, tos, dst), t)
  {
    hide Perform, TExec, EmitOp;
    assert tos == [tos[0]];
    TEvalOne(x, t.regs, tos[0]);
    UnaryRuns(x, i, tos, dst, t);
    PerformUnary(x, i.op, TEval(x, t.regs, tos[0]), t.history);
  }

  lemma PerformUnary(x: Ctx, op: Op, w: Word, h: seq<Event>)
    requires ArityOk(op, 1) && IsUnary(op)
    ensures Perform(x, op, [w], h) == Done((UnaryResult(op, w), h))
  {}

  lemma EmitOpCorrect(x: Ctx, i: Inst, tos: seq<TOperand>, dst: nat, t: TState)
    requires |tos| == |i.args| && InstOk(i)
    ensures OpMatches(x, i, TEvalAll(x, t.regs, tos), dst, EmitOp(i, tos, dst), t)
  {
    hide Perform, TExec, OpMatches;
    if IsUnary(i.op) {
      UnaryCorrect(x, i, tos, dst, t);
    } else {
      DirectCorrect(x, i, tos, dst, t);
    }
  }

  /** One full-width operation with an immediate on the right. */
  lemma BopStep(x: Ctx, kind: BopKind, o: TOperand, w: Word, dst: nat, t: TState, r: Word)
    requires Compute(kind, Size64, TEval(x, t.regs, o), w) == Some(r)
    ensures TExecInst(x, TOp(Some(dst), Bop(kind, Size64), [o, Imm(w)]), t) == Done(t.(regs := t.regs[dst := r]))
  {
    hide Interp.Compute;
    TEvalTwo(x, t.regs, o, Imm(w));
  }

  lemma SExtStep(x: Ctx, bw: nat, o: TOperand, dst: nat, t: TState) returns (m: Word)
    requires 1 <= bw < 64
    ensures Pow2(64 - bw) < W64
    ensures TExec(x, [TOp(Some(dst), Bop(Mul, Size64), [o, Imm(Pow2(64 - bw))]),
                      TOp(Some(dst), Bop(Ashr, Size64), [Reg(dst), Imm(64 - bw)])], t)
            == Done(t.(regs := t.regs[dst := m][dst := SignExtend(bw, TEval(x, t.regs, o))]))
  {
    hide Interp.RawResult, TExecInst;
    var w := TEval(x, t.regs, o);
    SExtCodeExtends(bw, w);
    Pow2Of64();
    Pow2Monotone(64 - bw, 64);
    m := Compute(Mul, Size64, w, Pow2(64 - bw)).value;
    BopStep(x, Mul, o, Pow2(64 - bw), dst, t, m);
    var t1 := t.(regs := t.regs[dst := m]);
    BopStep(x, Ashr, Reg(dst), 64 - bw, dst, t1, SignExtend(bw, w));
    TExecTwo(x, TOp(Some(dst), Bop(Mul, Size64), [o, Imm(Pow2(64 - bw))]),
             TOp(Some(dst), Bop(Ashr, Size64), [Reg(dst), Imm(64 - bw)]), t);
  }

  function UnaryResult(op: Op, w: Word): Word
    requires ArityOk(op, 1) && IsUnary(op)
  {
    match op
    case SExt(bw) => SignExtend(bw, w)
    case Trunc(width) => Truncate(width, w)
    case _ => w
  }

  /** After `code` only register dst differs, and it holds w. */
  ghost predicate OnlySets(x: Ctx, code: seq<TInst>, t: TState, dst: nat, w: Word) {
    var r := TExec(x, code, t);
    && r.Done? && r.v.slots == t.slots && r.v.temps == t.temps && r.v.history == t.history
    && Lookup(r.v.regs, dst) == w
    && forall q :: q != dst ==> Lookup(r.v.regs, q) == Lookup(t.regs, q)
  }

  lemma TruncRuns(x: Ctx, width: nat, o: TOperand, dst: nat, t: TState)
    requires width < 64
    ensures Pow2(width) < W64
    ensures OnlySets(x, [TOp(Some(dst), Bop(Urem, Size64), [o, Imm(Pow2(width))])], t, dst, Truncate(width, TEval(x, t.regs, o)))
  {
    hide Interp.Compute;
    var w := TEval(x, t.regs, o);
    TruncIsURem(width, w);
    BopStep(x, Urem, o, Pow2(width), dst, t, Truncate(width, w));
    TExecOne(x, TOp(Some(dst), Bop(Urem, Size64), [o, Imm(Pow2(width))]), t);
  }

  lemma CopyRuns(x: Ctx, o: TOperand, dst: nat, t: TState)
    ensures OnlySets(x, [TOp(Some(dst), Bop(Mul, Size64), [o, Imm(1)])], t, dst, TEval(x, t.regs, o))
  {
    hide Interp.Compute;
    var w := TEval(x, t.regs, o);
    CopyIsIdentity(w);
    BopStep(x, Mul, o, 1, dst, t, w);
    TExecOne(x, TOp(Some(dst), Bop(Mul, Size64), [o, Imm(1)]), t);
  }

  lemma UnaryRuns(x: Ctx, i: Inst, tos: seq<TOperand>, dst: nat, t: TState)
    requires |tos| == |i.args| == 1 && ArityOk(i.op, 1) && IsUnary(i.op)
    ensures OnlySets(x, EmitOp(i, tos, dst), t, dst, UnaryResult(i.op, TEval(x, t.regs, tos[0])))
  {
    hide Interp.Compute, TExec, TExecInst;
    if i.op.Trunc? {
      TruncRuns(x, i.op.width, tos[0], dst, t);
    } else if i.op.SExt? && i.op.bw < 64 {
      var m := SExtStep(x, i.op.bw, tos[0], dst, t);
    } else {
      CopyRuns(x, tos[0], dst, t);
      WholeWord(TEval(x, t.regs, tos[0]));
    }
  }

  lemma SimOp(c: Info, x: Ctx, a: Abs, i: Inst, tos: seq<TOperand>, al: Allocation, s: SState, t: TState)
    requires c.b < |c.f.blocks| && Static(c, a) && Sim(c, x, a, s, t)
    requires InstOk(i) && MatchesAll(a, i.args, tos)
    requires IsLocal(c, i.id) && i.id !in a.defined && (i.named ==> NotHeld(a, al.regId))
    requires forall p :: p in a.temps ==> a.temps[p] != Val(i.id)
    ensures match ExecInst(x, i, s)
            case Done(s') =>
              var r := TExec(x, EmitOp(i, tos, al.regId), t);
              r.Done? && Sim(c, x, if i.named then a.(active := a.active[i.id := al], defined := a.defined + {i.id}, pins := map[])
                                   else a.(pins := map[]), s', r.v)
            case Trapped(h) => TExec(x, EmitOp(i, tos, al.regId), t) == Trapped(h)
            case Stuck => true
  {
    hide Perform, TExec, EmitOp, Static;
    MatchEvalAll(c, x, a, s, t, i.args, tos);
    EmitOpCorrect(x, i, tos, al.regId, t);
    if ExecInst(x, i, s).Done? {
      var s', r := ExecInst(x, i, s).v, TExec(x, EmitOp(i, tos, al.regId), t);
      SimAfterOp(c, x, a, i, al, s, t, s', r.v);
    }
  }

  lemma SimAfterOp(c: Info, x: Ctx, a: Abs, i: Inst, al: Allocation, s: SState, t: TState, s': SState, t': TState)
    requires c.b < |c.f.blocks| && Static(c, a) && Sim(c, x, a, s, t)
    requires IsLocal(c, i.id) && i.id !in a.defined && (i.named ==> NotHeld(a, al.regId))
    requires forall p :: p in a.temps ==> a.temps[p] != Val(i.id)
    requires t'.slots == t.slots && t'.temps == t.temps && t'.history == s'.history
    requires if i.named then s'.env == s.env[i.id := Lookup(t'.regs, al.regId)] else s'.env == s.env && t'.regs == t.regs
    requires forall q :: q != al.regId ==> Lookup(t'.regs, q) == Lookup(t.regs, q)
    ensures Sim(c, x, if i.named then a.(active := a.active[i.id := al], defined := a.defined + {i.id}, pins := map[])
                      else a.(pins := map[]), s', t')
  {
    hide Escapes, Needed;
    if i.named {
      SimDefine(c, x, a, i.id, al, s, t, s', t');
    }
  }

  /** A new value v, whose register al.regId held none. */
  lemma SimDefine(c: Info, x: Ctx, a: Abs, v: nat, al: Allocation, s: SState, t: TState, s': SState, t': TState)
    requires c.b < |c.f.blocks| && Static(c, a) && Sim(c, x, a, s, t)
    requires IsLocal(c, v) && v !in a.defined && NotHeld(a, al.regId)
    requires forall p :: p in a.temps ==> a.temps[p] != Val(v)
    requires t'.slots == t.slots && t'.temps == t.temps && t'.history == s'.history
    requires s'.env == s.env[v := Lookup(t'.regs, al.regId)]
    requires forall q :: q != al.regId ==> Lookup(t'.regs, q) == Lookup(t.regs, q)
    ensures Sim(c, x, a.(active := a.active[v := al], defined := a.defined + {v}, pins := map[]), s', t')
  {
    hide Escapes, Needed;
    forall p | p in a.temps
      ensures Eval(x, s'.env, a.temps[p]) == Eval(x, s.env, a.temps[p])
    {
      assert a.temps[p] != Val(v);
    }
    hide Eval, Lookup;
  }
}
