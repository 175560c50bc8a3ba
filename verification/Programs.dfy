/** The SSA input of the back end and the register code it emits, with their meaning.
    Values are 64-bit register contents. Memory, called functions and I/O are one deterministic
    environment that answers the history of events so far, or refuses (a runtime error). */
module Programs {
  import opened Words
  import opened Interp

  datatype Event =
    | LoadEvent(size: nat, addr: Word)
    | StoreEvent(size: nat, addr: Word, val: Word)
    | CallEvent(fn: nat, args: seq<Word>)

  /** `frame` gives the address of each stack object, `arg` the function's arguments. */
  datatype Ctx = Ctx(answer: seq<Event> -> Option<Word>, frame: nat -> Word, arg: nat -> Word)

  /** Stuck: the source reads a value that has no definition on this path. */
  datatype Run<+T> = Done(v: T) | Trapped(history: seq<Event>) | Stuck

  datatype Op =
    | Bop(kind: BopKind, size: Size)
    | Select
    | LoadMem(bytes: nat)
    | StoreMem(bytes: nat)
    | CallFn(fn: nat)
    | FrameAddr(object: nat)
    | SExt(bw: nat)
    | Trunc(width: nat)
    | Copy  // zext, and the casts between integers and pointers

  predicate ArityOk(op: Op, n: nat) {
    match op
    case Bop(_, _) => n == 2
    case Select => n == 3
    case StoreMem(_) => n == 2
    case FrameAddr(_) => n == 0
    case CallFn(_) => true
    case SExt(bw) => n == 1 && 1 <= bw <= 64
    case Trunc(w) => n == 1 && w < 64
    case _ => n == 1
  }

  function Respond(x: Ctx, h: seq<Event>): Run<(Word, seq<Event>)> {
    match x.answer(h)
    case None => Trapped(h)
    case Some(w) => Done((w, h))
  }

  function Perform(x: Ctx, op: Op, vals: seq<Word>, h: seq<Event>): Run<(Word, seq<Event>)> {
    if !ArityOk(op, |vals|) then Stuck
    else
      match op
      case Bop(kind, size) =>
        (match Compute(kind, size, vals[0], vals[1])
         case None => Trapped(h)
         case Some(w) => Done((w, h)))
      case Select => Done((if vals[0] != 0 then vals[1] else vals[2], h))
      case LoadMem(n) => Respond(x, h + [LoadEvent(n, vals[0])])
      case StoreMem(n) => Respond(x, h + [StoreEvent(n, vals[1], vals[0])])
      case CallFn(fn) => Respond(x, h + [CallEvent(fn, vals)])
      case FrameAddr(o) => Done((x.frame(o), h))
      case SExt(bw) => Done((SignExtend(bw, vals[0]), h))
      case Trunc(w) => Done((Truncate(w, vals[0]), h))
      case Copy => Done((vals[0], h))
  }

  // ---- source programs ----

  datatype Operand = Val(id: nat) | Const(w: Word) | Arg(n: nat)

  /** `named` instructions define the value `id`. */
  datatype Inst = Inst(id: nat, op: Op, args: seq<Operand>, named: bool)

  datatype Phi = Phi(id: nat, incoming: seq<(nat, Operand)>)

  datatype Terminator =
    | Br(dest: nat)
    | CondBr(cond: Operand, yes: nat, no: nat)
    | Switch(cond: Operand, dflt: nat, cases: seq<(Word, nat)>)
    | Ret(val: Operand)

  datatype Block = Block(phis: seq<Phi>, insts: seq<Inst>, term: Terminator, termId: nat)

  /** `parent` is the block of every instruction, terminators included. */
  datatype Func = Func(blocks: seq<Block>, parent: map<nat, nat>)

  datatype SState = SState(env: map<nat, Word>, history: seq<Event>)

  function Eval(x: Ctx, env: map<nat, Word>, o: Operand): Option<Word> {
    match o
    case Val(v) => if v in env then Some(env[v]) else None
    case Const(w) => Some(w)
    case Arg(n) => Some(x.arg(n))
  }

  function EvalAll(x: Ctx, env: map<nat, Word>, args: seq<Operand>): Option<seq<Word>> {
    if args == [] then Some([])
    else
      match (EvalAll(x, env, args[..|args| - 1]), Eval(x, env, args[|args| - 1]))
      case (Some(ws), Some(w)) => Some(ws + [w])
      case _ => None
  }

  function ExecInst(x: Ctx, i: Inst, s: SState): Run<SState> {
    match EvalAll(x, s.env, i.args)
    case None => Stuck
    case Some(vals) =>
      match Perform(x, i.op, vals, s.history)
      case Done(r) => Done(SState(if i.named then s.env[i.id := r.0] else s.env, r.1))
      case Trapped(h) => Trapped(h)
      case Stuck => Stuck
  }

  function ExecInsts(x: Ctx, insts: seq<Inst>, s: SState): Run<SState> {
    if insts == [] then Done(s)
    else
      match ExecInsts(x, insts[..|insts| - 1], s)
      case Done(s') => ExecInst(x, insts[|insts| - 1], s')
      case Trapped(h) => Trapped(h)
      case Stuck => Stuck
  }

  function SwitchDest(w: Word, dflt: nat, cases: seq<(Word, nat)>): nat {
    if cases == [] then dflt
    else if cases[0].0 == w then cases[0].1
    else SwitchDest(w, dflt, cases[1..])
  }

  function CaseDests(cases: seq<(Word, nat)>): seq<nat> {
    if cases == [] then [] else [cases[0].1] + CaseDests(cases[1..])
  }

  function Successors(term: Terminator): seq<nat> {
    match term
    case Br(d) => [d]
    case CondBr(_, y, n) => [y, n]
    case Switch(_, d, cases) => [d] + CaseDests(cases)
    case Ret(_) => []
  }

  lemma {:induction false} SwitchDestIn(w: Word, dflt: nat, cases: seq<(Word, nat)>)
    ensures SwitchDest(w, dflt, cases) == dflt || SwitchDest(w, dflt, cases) in CaseDests(cases)
  {
    if cases != [] && cases[0].0 != w {
      SwitchDestIn(w, dflt, cases[1..]);
    }
  }

  function Incoming(incoming: seq<(nat, Operand)>, from: nat): Option<Operand> {
    if incoming == [] then None
    else if incoming[0].0 == from then Some(incoming[0].1)
    else Incoming(incoming[1..], from)
  }

  /** All phis at once: every operand is read in the environment `env0` of the edge's source. */
  function AssignPhis(x: Ctx, phis: seq<Phi>, from: nat, env0: map<nat, Word>): Option<map<nat, Word>> {
    if phis == [] then Some(env0)
    else
      var phi := phis[|phis| - 1];
      match (AssignPhis(x, phis[..|phis| - 1], from, env0), Incoming(phi.incoming, from))
      case (Some(env), Some(o)) =>
        (match Eval(x, env0, o)
         case Some(w) => Some(env[phi.id := w])
         case None => None)
      case _ => None
  }

  datatype Outcome<+S> = Jump(dest: nat, state: S) | Return(val: Word, history: seq<Event>)

  function ChooseDest(x: Ctx, env: map<nat, Word>, term: Terminator): Option<nat>
    requires !term.Ret?
  {
    match term
    case Br(d) => Some(d)
    case CondBr(c, y, n) =>
      (match Eval(x, env, c)
       case None => None
       case Some(w) => Some(if w != 0 then y else n))
    case Switch(c, d, cases) =>
      match Eval(x, env, c)
      case None => None
      case Some(w) => Some(SwitchDest(w, d, cases))
  }

  function Leave(x: Ctx, f: Func, b: nat, s: SState): Run<Outcome<SState>>
    requires b < |f.blocks|
  {
    var term := f.blocks[b].term;
    if term.Ret? then
      match Eval(x, s.env, term.val)
      case None => Stuck
      case Some(w) => Done(Return(w, s.history))
    else
      match ChooseDest(x, s.env, term)
      case None => Stuck
      case Some(d) =>
        if d >= |f.blocks| then Stuck
        else
          match AssignPhis(x, f.blocks[d].phis, b, s.env)
          case None => Stuck
          case Some(env) => Done(Jump(d, SState(env, s.history)))
  }

  /** One block: its instructions, its terminator and the phis of the block it enters. */
  function StepBlock(x: Ctx, f: Func, b: nat, s: SState): Run<Outcome<SState>>
    requires b < |f.blocks|
  {
    match ExecInsts(x, f.blocks[b].insts, s)
    case Done(s') => Leave(x, f, b, s')
    case Trapped(h) => Trapped(h)
    case Stuck => Stuck
  }

  function RunSource(x: Ctx, f: Func, n: nat, b: nat, s: SState): Run<Outcome<SState>>
    decreases n
  {
    if n == 0 then Done(Jump(b, s))
    else if b >= |f.blocks| then Stuck
    else
      match StepBlock(x, f, b, s)
      case Done(Jump(d, s')) => RunSource(x, f, n - 1, d, s')
      case r => r
  }

  // ---- emitted programs: sixteen registers, a spill slot and a phi slot per value ----

  datatype TOperand = Reg(r: nat) | Imm(w: Word) | TArg(n: nat)

  datatype TInst =
    | TOp(dst: Option<nat>, op: Op, args: seq<TOperand>)
    | LoadSlot(reg: nat, slot: nat)
    | StoreSlot(src: TOperand, slot: nat)
    | LoadTemp(reg: nat, slot: nat)
    | StoreTemp(src: TOperand, slot: nat)

  datatype TTerm =
    | TBr(dest: nat)
    | TCondBr(cond: TOperand, yes: nat, no: nat)
    | TSwitch(cond: TOperand, dflt: nat, cases: seq<(Word, nat)>)
    | TRet(val: TOperand)

  datatype TBlock = TBlock(code: seq<TInst>, term: TTerm)

  datatype TState = TState(regs: map<nat, Word>, slots: map<nat, Word>, temps: map<nat, Word>, history: seq<Event>)

  function Lookup(m: map<nat, Word>, k: nat): Word { if k in m then m[k] else 0 }

  function TEval(x: Ctx, regs: map<nat, Word>, o: TOperand): Word {
    match o
    case Reg(r) => Lookup(regs, r)
    case Imm(w) => w
    case TArg(n) => x.arg(n)
  }

  function TEvalAll(x: Ctx, regs: map<nat, Word>, args: seq<TOperand>): (r: seq<Word>)
    ensures |r| == |args|
  {
    if args == [] then []
    else TEvalAll(x, regs, args[..|args| - 1]) + [TEval(x, regs, args[|args| - 1])]
  }

  function TExecInst(x: Ctx, i: TInst, t: TState): Run<TState> {
    match i
    case TOp(dst, op, args) =>
      (match Perform(x, op, TEvalAll(x, t.regs, args), t.history)
       case Done(r) => Done(t.(regs := if dst.Some? then t.regs[dst.value := r.0] else t.regs, history := r.1))
       case Trapped(h) => Trapped(h)
       case Stuck => Stuck)
    case LoadSlot(r, v) => Done(t.(regs := t.regs[r := Lookup(t.slots, v)]))
    case StoreSlot(o, v) => Done(t.(slots := t.slots[v := TEval(x, t.regs, o)]))
    case LoadTemp(r, v) => Done(t.(regs := t.regs[r := Lookup(t.temps, v)]))
    case StoreTemp(o, v) => Done(t.(temps := t.temps[v := TEval(x, t.regs, o)]))
  }

  function TExec(x: Ctx, code: seq<TInst>, t: TState): Run<TState> {
    if code == [] then Done(t)
    else
      match TExec(x, code[..|code| - 1], t)
      case Done(t') => TExecInst(x, code[|code| - 1], t')
      case Trapped(h) => Trapped(h)
      case Stuck => Stuck
  }

  function TLeave(x: Ctx, term: TTerm, t: TState): Outcome<TState> {
    match term
    case TBr(d) => Jump(d, t)
    case TCondBr(c, y, n) => Jump(if TEval(x, t.regs, c) != 0 then y else n, t)
    case TSwitch(c, d, cases) => Jump(SwitchDest(TEval(x, t.regs, c), d, cases), t)
    case TRet(o) => Return(TEval(x, t.regs, o), t.history)
  }

  function TStepBlock(x: Ctx, tb: TBlock, t: TState): Run<Outcome<TState>> {
    match TExec(x, tb.code, t)
    case Done(t') => Done(TLeave(x, tb.term, t'))
    case Trapped(h) => Trapped(h)
    case Stuck => Stuck
  }

  function RunTarget(x: Ctx, p: seq<TBlock>, n: nat, b: nat, t: TState): Run<Outcome<TState>>
    decreases n
  {
    if n == 0 then Done(Jump(b, t))
    else if b >= |p| then Stuck
    else
      match TStepBlock(x, p[b], t)
      case Done(Jump(d, t')) => RunTarget(x, p, n - 1, d, t')
      case r => r
  }

  // ---- where values are defined and used ----

  ghost predicate Defines(blk: Block, v: nat) {
    || (exists i :: 0 <= i < |blk.phis| && blk.phis[i].id == v)
    || (exists i :: 0 <= i < |blk.insts| && blk.insts[i].named && blk.insts[i].id == v)
  }

  function TermOperands(term: Terminator): seq<Operand> {
    match term
    case Br(_) => []
    case CondBr(c, _, _) => [c]
    case Switch(c, _, _) => [c]
    case Ret(o) => [o]
  }

  /** Used in block blk by an instruction other than a phi. */
  ghost predicate UsesDirectly(blk: Block, v: nat) {
    || (exists i :: 0 <= i < |blk.insts| && Val(v) in blk.insts[i].args)
    || Val(v) in TermOperands(blk.term)
  }

  ghost predicate FeedsPhi(blk: Block, from: nat, v: nat) {
    exists i, j :: 0 <= i < |blk.phis| && 0 <= j < |blk.phis[i].incoming| && blk.phis[i].incoming[j] == (from, Val(v))
  }

  /** v occurs in block b: defined there, used there, or read on an edge out of b. */
  ghost predicate OccursIn(f: Func, v: nat, b: nat) {
    || (b < |f.blocks| && (Defines(f.blocks[b], v) || UsesDirectly(f.blocks[b], v)))
    || (exists d :: 0 <= d < |f.blocks| && FeedsPhi(f.blocks[d], b, v))
  }

  ghost predicate HasDefinition(f: Func, v: nat) {
    v in f.parent && f.parent[v] < |f.blocks| && Defines(f.blocks[f.parent[v]], v)
  }

  /** v is needed by a block other than the one that defines it. */
  ghost predicate Escapes(f: Func, v: nat) {
    HasDefinition(f, v) && exists b :: b != f.parent[v] && OccursIn(f, v, b)
  }

  // ---- the programs the back end accepts ----

  ghost predicate DefinedBefore(blk: Block, v: nat, k: nat)
    requires k <= |blk.insts|
  {
    || (exists i :: 0 <= i < |blk.phis| && blk.phis[i].id == v)
    || (exists i :: 0 <= i < k && blk.insts[i].named && blk.insts[i].id == v)
  }

  /** A value of the same block is used only after its definition. */
  ghost predicate OperandOk(f: Func, b: nat, k: nat, o: Operand)
    requires b < |f.blocks| && k <= |f.blocks[b].insts|
  {
    o.Val? ==> HasDefinition(f, o.id) && (f.parent[o.id] == b ==> DefinedBefore(f.blocks[b], o.id, k))
  }

  predicate IsBracketed(op: Op) { op.Bop? || op.Select? || op.StoreMem? }

  ghost predicate HoldsValues(f: Func, b: nat, vs: set<nat>) { forall v :: OccursIn(f, v, b) ==> v in vs }

  /** No more values occur in block b than there are registers, so nothing is evicted before its end. */
  ghost predicate FewValues(f: Func, b: nat) { exists vs: set<nat> :: HoldsValues(f, b, vs) && |vs| <= 16 }

  /** The visitor protects the operands, or nothing is ever evicted, or there is only one to fetch. */
  ghost predicate OperandsSafe(f: Func, b: nat, i: Inst) {
    IsBracketed(i.op) || FewValues(f, b) || forall j, k :: 0 <= j < k < |i.args| ==> !(i.args[j].Val? && i.args[k].Val?)
  }

  ghost predicate InstOk(i: Inst) {
    && ArityOk(i.op, |i.args|)
    && (i.op.StoreMem? ==> !i.named)
    && (!i.op.StoreMem? && !i.op.CallFn? ==> i.named)
  }

  ghost predicate IdsOk(f: Func, b: nat)
    requires b < |f.blocks|
  {
    var blk := f.blocks[b];
    && (forall i :: 0 <= i < |blk.phis| ==> blk.phis[i].id in f.parent && f.parent[blk.phis[i].id] == b)
    && (forall i :: 0 <= i < |blk.insts| ==> blk.insts[i].id in f.parent && f.parent[blk.insts[i].id] == b)
    && blk.termId in f.parent && f.parent[blk.termId] == b
    && (forall i, j :: 0 <= i < j < |blk.phis| ==> blk.phis[i].id != blk.phis[j].id)
    && (forall i, j :: 0 <= i < j < |blk.insts| ==> blk.insts[i].id != blk.insts[j].id)
    && (forall i, j :: 0 <= i < |blk.phis| && 0 <= j < |blk.insts| ==> blk.phis[i].id != blk.insts[j].id)
    && (forall i :: 0 <= i < |blk.phis| ==> blk.phis[i].id != blk.termId)
    && (forall i :: 0 <= i < |blk.insts| ==> blk.insts[i].id != blk.termId)
  }

  ghost predicate EdgeOk(f: Func, b: nat, d: nat)
    requires b < |f.blocks|
  {
    && d < |f.blocks|
    && forall i :: 0 <= i < |f.blocks[d].phis| ==>
         var o := Incoming(f.blocks[d].phis[i].incoming, b);
         o.Some? && OperandOk(f, b, |f.blocks[b].insts|, o.value)
  }

  ghost predicate BlockOk(f: Func, b: nat)
    requires b < |f.blocks|
  {
    var blk := f.blocks[b];
    && IdsOk(f, b)
    && (forall k :: 0 <= k < |blk.insts| ==>
          InstOk(blk.insts[k]) && OperandsSafe(f, b, blk.insts[k]) && forall j :: 0 <= j < |blk.insts[k].args| ==> OperandOk(f, b, k, blk.insts[k].args[j]))
    && (forall j :: 0 <= j < |TermOperands(blk.term)| ==> OperandOk(f, b, |blk.insts|, TermOperands(blk.term)[j]))
    && (forall d :: d in Successors(blk.term) ==> EdgeOk(f, b, d))
    && (blk.term.Ret? ==> b == |f.blocks| - 1)
  }

  ghost predicate WellFormed(f: Func) {
    && |f.blocks| > 0 && f.blocks[0].phis == []
    && forall b :: 0 <= b < |f.blocks| ==> BlockOk(f, b)
  }
}
