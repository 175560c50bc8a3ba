/** Integer types of source values: what a sign extension to fewer than 64 bits should leave, and when the emitted code does. */
module TypedValues {
  import opened Words
  import opened Interp
  import opened Casts
  import opened Programs
  import opened BlockExit
  import opened Depromotion

  /** The width of each instruction's type. */
  type Widths = nat -> nat

  /** A value of a type is zero-extended into its register. */
  function Typed(width: nat, w: Word): Word { if width < 64 then Truncate(width, w) else w }

  /** In the typed meaning a sign extension fills the result's type and nothing above it. */
  function TypedInst(x: Ctx, ty: Widths, i: Inst, s: SState): Run<SState> {
    match ExecInst(x, i, s)
    case Done(s') =>
      if i.op.SExt? && i.named && i.id in s'.env then Done(s'.(env := s'.env[i.id := Typed(ty(i.id), s'.env[i.id])])) else Done(s')
    case Trapped(h) => Trapped(h)
    case Stuck => Stuck
  }

  function TypedInsts(x: Ctx, ty: Widths, insts: seq<Inst>, s: SState): Run<SState> {
    if insts == [] then Done(s)
    else
      match TypedInsts(x, ty, insts[..|insts| - 1], s)
      case Done(s') => TypedInst(x, ty, insts[|insts| - 1], s')
      case Trapped(h) => Trapped(h)
      case Stuck => Stuck
  }

  function TypedStep(x: Ctx, f: Func, ty: Widths, b: nat, s: SState): Run<Outcome<SState>>
    requires b < |f.blocks|
  {
    match TypedInsts(x, ty, f.blocks[b].insts, s)
    case Done(s') => Leave(x, f, b, s')
    case Trapped(h) => Trapped(h)
    case Stuck => Stuck
  }

  function TypedRun(x: Ctx, f: Func, ty: Widths, n: nat, b: nat, s: SState): Run<Outcome<SState>>
    decreases n
  {
    if n == 0 then Done(Jump(b, s))
    else if b >= |f.blocks| then Stuck
    else
      match TypedStep(x, f, ty, b, s)
      case Done(Jump(d, s')) => TypedRun(x, f, ty, n - 1, d, s')
      case r => r
  }

  // ---- sign extensions that fit ----

  /** A sign extension goes to all 64 bits or extends a clear sign bit. */
  ghost predicate Fits(x: Ctx, ty: Widths, i: Inst, s: SState) {
    i.op.SExt? && i.named && ArityOk(i.op, |i.args|) && Eval(x, s.env, i.args[0]).Some? ==>
      ty(i.id) >= 64 || Truncate(i.op.bw, Eval(x, s.env, i.args[0]).value) < Pow2(i.op.bw - 1)
  }

  ghost predicate FitsInsts(x: Ctx, ty: Widths, insts: seq<Inst>, s: SState) {
    insts == [] ||
    (FitsInsts(x, ty, insts[..|insts| - 1], s) &&
     (TypedInsts(x, ty, insts[..|insts| - 1], s).Done? ==>
        Fits(x, ty, insts[|insts| - 1], TypedInsts(x, ty, insts[..|insts| - 1], s).v)))
  }

  /** Every sign extension met in the first n blocks fits. */
  ghost predicate FitsRun(x: Ctx, f: Func, ty: Widths, n: nat, b: nat, s: SState)
    decreases n
  {
    n == 0 || b >= |f.blocks| ||
    (FitsInsts(x, ty, f.blocks[b].insts, s) &&
     (TypedStep(x, f, ty, b, s).Done? && TypedStep(x, f, ty, b, s).v.Jump? ==>
        FitsRun(x, f, ty, n - 1, TypedStep(x, f, ty, b, s).v.dest, TypedStep(x, f, ty, b, s).v.state)))
  }

  /** The result of every sign extension is wider than its operand. */
  predicate Widens(ty: Widths, i: Inst) { i.op.SExt? ==> i.op.bw < ty(i.id) }

  ghost predicate WellTyped(f: Func, ty: Widths) {
    forall b, k :: 0 <= b < |f.blocks| && 0 <= k < |f.blocks[b].insts| ==> Widens(ty, f.blocks[b].insts[k])
  }

  lemma TypedKeepsIff(bw: nat, width: nat, w: Word)
    requires 1 <= bw <= 64 && bw < width
    ensures Typed(width, SignExtend(bw, w)) == SignExtend(bw, w) <==> width >= 64 || Truncate(bw, w) < Pow2(bw - 1)
  {
    hide Truncate, SignExtend, Pow2;
    if width < 64 {
      SExtCanonicalIff(bw, width, w);
      TruncatedFits(width, SignExtend(bw, w));
    }
  }

  lemma TruncatedFits(width: nat, w: Word)
    requires width <= 64
    ensures Truncate(width, w) == w <==> w < Pow2(width)
  {
    if w < Pow2(width) {
      DivModUnique(w, Pow2(width), 0, w);
    }
  }

  /** The two meanings of an instruction that completes agree if and only if its sign extension fits. */
  lemma FitsIff(x: Ctx, ty: Widths, i: Inst, s: SState)
    requires Widens(ty, i) && ExecInst(x, i, s).Done?
    ensures TypedInst(x, ty, i, s) == ExecInst(x, i, s) <==> Fits(x, ty, i, s)
  {
    hide ExecInst, Truncate, SignExtend, Pow2, Typed, Eval;
    if i.op.SExt? && i.named {
      SExtResult(x, i, s);
      TypedKeepsIff(i.op.bw, ty(i.id), Eval(x, s.env, i.args[0]).value);
      SameEntry(ExecInst(x, i, s).v.env, i.id, Typed(ty(i.id), ExecInst(x, i, s).v.env[i.id]));
    }
  }

  lemma SameEntry(env: map<nat, Word>, k: nat, w: Word)
    requires k in env
    ensures env[k := w] == env <==> w == env[k]
  {
    assert env[k := w][k] == w;
  }

  lemma SExtResult(x: Ctx, i: Inst, s: SState)
    requires i.op.SExt? && i.named && ExecInst(x, i, s).Done?
    ensures ArityOk(i.op, |i.args|) && Eval(x, s.env, i.args[0]).Some?
    ensures ExecInst(x, i, s) == Done(SState(s.env[i.id := SignExtend(i.op.bw, Eval(x, s.env, i.args[0]).value)], s.history))
  {
    hide Eval, SignExtend;
    var vals := EvalAll(x, s.env, i.args);
    assert vals.Some? && ArityOk(i.op, |vals.value|);
    OneOperand(x, s.env, i.args);
  }

  lemma OneOperand(x: Ctx, env: map<nat, Word>, args: seq<Operand>)
    requires EvalAll(x, env, args).Some? && |EvalAll(x, env, args).value| == 1
    ensures |args| == 1 && Eval(x, env, args[0]) == Some(EvalAll(x, env, args).value[0])
  {
    hide Eval;
    if args != [] {
      EvalAllLength(x, env, args[..|args| - 1]);
    }
  }

  lemma {:induction false} EvalAllLength(x: Ctx, env: map<nat, Word>, args: seq<Operand>)
    requires EvalAll(x, env, args).Some?
    ensures |EvalAll(x, env, args).value| == |args|
  {
    hide Eval;
    if args != [] {
      EvalAllLength(x, env, args[..|args| - 1]);
    }
  }

  // ---- whole runs ----

  lemma {:induction false} TypedInstsAgree(x: Ctx, ty: Widths, insts: seq<Inst>, s: SState)
    requires FitsInsts(x, ty, insts, s) && forall k :: 0 <= k < |insts| ==> Widens(ty, insts[k])
    ensures TypedInsts(x, ty, insts, s) == ExecInsts(x, insts, s)
  {
    hide ExecInst, Fits, TypedInst, Widens;
    if insts != [] {
      TypedInstsAgree(x, ty, insts[..|insts| - 1], s);
      var r := ExecInsts(x, insts[..|insts| - 1], s);
      if r.Done? {
        var i := insts[|insts| - 1];
        if ExecInst(x, i, r.v).Done? {
          FitsIff(x, ty, i, r.v);
        } else {
          UndoneAgrees(x, ty, i, r.v);
        }
      }
    }
  }

  lemma UndoneAgrees(x: Ctx, ty: Widths, i: Inst, s: SState)
    requires !ExecInst(x, i, s).Done?
    ensures TypedInst(x, ty, i, s) == ExecInst(x, i, s)
  {
    hide ExecInst;
  }

  lemma {:induction false} TypedRunAgrees(x: Ctx, f: Func, ty: Widths, n: nat, b: nat, s: SState)
    requires WellTyped(f, ty) && FitsRun(x, f, ty, n, b, s)
    ensures TypedRun(x, f, ty, n, b, s) == RunSource(x, f, n, b, s)
    decreases n
  {
    hide FitsInsts, Leave, Widens, ExecInsts, TypedInsts;
    if n > 0 && b < |f.blocks| {
      TypedInstsAgree(x, ty, f.blocks[b].insts, s);
      var r := TypedStep(x, f, ty, b, s);
      if r.Done? && r.v.Jump? {
        TypedRunAgrees(x, f, ty, n - 1, r.v.dest, r.v.state);
      }
    }
  }

  /** Runs whose sign extensions all fit: the emitted program computes what the typed source program does. */
  lemma TypedRefines(x: Ctx, f: Func, ty: Widths, p: seq<TBlock>, n: nat, t: TState)
    requires Refines(f, p) && WellTyped(f, ty) && t.history == []
    requires FitsRun(x, f, ty, n, 0, SState(map[], []))
    ensures StepMatches(f, TypedRun(x, f, ty, n, 0, SState(map[], [])), RunTarget(x, p, n, 0, t))
  {
    TypedRunAgrees(x, f, ty, n, 0, SState(map[], []));
    hide StepMatches, FitsRun, TypedRun, RunSource, RunTarget, WellTyped;
  }

  // ---- a sign extension that does not fit ----

  /** `return sext i8 arg0 to i32` */
  const NarrowSExt := Inst(0, SExt(8), [Arg(0)], true)
  const NarrowFunc := Func([Block([], [NarrowSExt], Ret(Val(0)), 1)], map[0 := 0, 1 := 0])

  function AllI32(id: nat): nat { 32 }

  lemma NarrowIsAccepted()
    ensures WellFormed(NarrowFunc) && WellTyped(NarrowFunc, AllI32)
  {
    assert BlockOk(NarrowFunc, 0) by {
      assert HasDefinition(NarrowFunc, 0) by {
        assert NarrowFunc.blocks[0].insts[0].named;
      }
      assert DefinedBefore(NarrowFunc.blocks[0], 0, 1);
    }
  }

  lemma NarrowWords()
    ensures SignExtend(8, 0xFF) == 0xFFFF_FFFF_FFFF_FFFF && Typed(32, 0xFFFF_FFFF_FFFF_FFFF) == 0xFFFF_FFFF
  {
    assert Pow2(4) == 16 && Pow2(7) == 128;
    Pow2Add(4, 4);
    Pow2Add(8, 8);
    Pow2Add(16, 16);
    hide Pow2, SignExtend;
    SignOfCanonical(8, 0xFF);
    DivModUnique(0xFFFF_FFFF_FFFF_FFFF, 0x1_0000_0000, 0xFFFF_FFFF, 0xFFFF_FFFF);
  }

  lemma OneArgument(x: Ctx, env: map<nat, Word>, o: Operand, w: Word)
    requires Eval(x, env, o) == Some(w)
    ensures EvalAll(x, env, [o]) == Some([w])
  {
    hide Eval;
    assert [o][..0] == [];
    var none: seq<Word> := [];
    assert none + [w] == [w];
  }

  lemma NarrowInst(x: Ctx)
    requires x.arg(0) == 0xFF
    ensures ExecInst(x, NarrowSExt, SState(map[], [])) == Done(SState(map[0 := 0xFFFF_FFFF_FFFF_FFFF], []))
    ensures TypedInst(x, AllI32, NarrowSExt, SState(map[], [])) == Done(SState(map[0 := 0xFFFF_FFFF], []))
  {
    hide SignExtend, Typed;
    NarrowWords();
    OneArgument(x, map[], Arg(0), 0xFF);
    hide EvalAll, Eval, Compute;
    var env: map<nat, Word> := map[0 := 0xFFFF_FFFF_FFFF_FFFF];
    assert env[0 := 0xFFFF_FFFF] == map[0 := 0xFFFF_FFFF];
  }

  lemma NarrowSource(x: Ctx)
    requires x.arg(0) == 0xFF
    ensures RunSource(x, NarrowFunc, 1, 0, SState(map[], [])) == Done(Return(0xFFFF_FFFF_FFFF_FFFF, []))
    ensures TypedRun(x, NarrowFunc, AllI32, 1, 0, SState(map[], [])) == Done(Return(0xFFFF_FFFF, []))
  {
    hide ExecInst, TypedInst;
    NarrowInst(x);
    OneInst(x, AllI32, NarrowSExt, SState(map[], []));
    hide ExecInsts, TypedInsts;
  }

  lemma OneInst(x: Ctx, ty: Widths, i: Inst, s: SState)
    ensures ExecInsts(x, [i], s) == ExecInst(x, i, s) && TypedInsts(x, ty, [i], s) == TypedInst(x, ty, i, s)
  {
    hide ExecInst, TypedInst;
    assert [i][..0] == [];
  }

  /** Extending the byte 0xFF to 32 bits: whatever registers and slots hold, the emitted program returns 64 ones instead of 32. */
  lemma NarrowSExtDiffers(x: Ctx, p: seq<TBlock>, t: TState)
    requires Refines(NarrowFunc, p) && x.arg(0) == 0xFF && t.history == []
    ensures WellFormed(NarrowFunc) && WellTyped(NarrowFunc, AllI32)
    ensures TypedRun(x, NarrowFunc, AllI32, 1, 0, SState(map[], [])) == Done(Return(0xFFFF_FFFF, []))
    ensures RunTarget(x, p, 1, 0, t) == Done(Return(0xFFFF_FFFF_FFFF_FFFF, []))
  {
    NarrowIsAccepted();
    NarrowSource(x);
    hide RunSource, RunTarget, TypedRun, WellFormed, WellTyped;
    assert StepMatches(NarrowFunc, RunSource(x, NarrowFunc, 1, 0, SState(map[], [])), RunTarget(x, p, 1, 0, t));
  }
}
