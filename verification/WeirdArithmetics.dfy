/** Strength reduction towards the cheap operations of the machine (WeirdArithmetic.cpp). */
module WeirdArithmetics {
  import opened Words
  import opened Interp

  datatype Operand = Const(word: Word) | Reg(reg: nat)

  datatype Inst =
    | Bop(id: nat, kind: BopKind, size: Size, lhs: Operand, rhs: Operand)
    | OtherInst(id: nat)

  /** The instruction defining each register of the function. */
  type Defs = map<nat, Inst>

  type Env = map<nat, Word>

  // ---- matching ----

  /** The shift amount M when the operand is defined by `shl ?, M`. */
  function ShiftedBy(defs: Defs, x: Operand): Option<Word> {
    if x.Reg? && x.reg in defs && defs[x.reg].Bop? && defs[x.reg].kind == Shl && defs[x.reg].rhs.Const?
    then Some(defs[x.reg].rhs.word) else None
  }

  /** The mask with the low bits an operand cannot have filled in. */
  function FilledMask(defs: Defs, x: Operand, n: Word): Word {
    match ShiftedBy(defs, x)
    case None => n
    case Some(m) => if m < 64 then (Pow2Of64(); Pow2Monotone(m, 64); BitwiseWord(BitOr, n, Pow2(m) - 1)) else n
  }

  function IsLowMask(n: Word): bool { Bitwise(BitAnd, n, Wrap(n + 1)) == 0 }

  /** A constant of the type: only the low bits of the word are kept. */
  function TypedConst(size: Size, x: int): Operand { Const(Truncate(BitWidth(size), Wrap(x))) }

  function MaskRule(defs: Defs, i: Inst, x: Operand, n: Word): Option<Inst>
    requires i.Bop?
  {
    var filled := FilledMask(defs, x, n);
    if IsLowMask(filled) then Some(Bop(i.id, Urem, i.size, x, TypedConst(i.size, filled + 1))) else None
  }

  /** The cheaper instruction, if a rule applies. */
  function NewInst(defs: Defs, i: Inst): Option<Inst> {
    if i.OtherInst? then None
    else if i.kind == Sub && i.lhs == Const(0) then Some(Bop(i.id, Mul, i.size, i.rhs, TypedConst(i.size, -1)))
    else if i.kind == And && i.rhs.Const? then MaskRule(defs, i, i.lhs, i.rhs.word)
    else if i.kind == And && i.lhs.Const? then MaskRule(defs, i, i.rhs, i.lhs.word)
    else if i.kind == Shl && i.rhs.Const? then Some(Bop(i.id, Mul, i.size, i.lhs, TypedConst(i.size, Pow2(i.rhs.word % 64))))
    else if i.kind == Lshr && i.rhs.Const? then Some(Bop(i.id, Udiv, i.size, i.lhs, TypedConst(i.size, Pow2(i.rhs.word % 64))))
    else if i.kind == And && i.size == Size1 then Some(Bop(i.id, Mul, i.size, i.lhs, i.rhs))
    else None
  }

  function Rewrite(defs: Defs, i: Inst): Inst {
    match NewInst(defs, i)
    case None => i
    case Some(n) => n
  }

  /** The block with the instructions whose index is below n rewritten. */
  function RewriteUpTo(defs: Defs, insts: seq<Inst>, n: nat): (r: seq<Inst>)
    requires n <= |insts|
    ensures |r| == |insts|
    ensures forall k :: 0 <= k < |insts| ==> r[k] == if k < n then Rewrite(defs, insts[k]) else insts[k]
  {
    seq(|insts|, k requires 0 <= k < |insts| => if k < n then Rewrite(defs, insts[k]) else insts[k])
  }

  /** A block with every rule applied. */
  function RewriteAll(defs: Defs, insts: seq<Inst>): seq<Inst> { RewriteUpTo(defs, insts, |insts|) }

  /** First the rewrites are collected, then each instruction is replaced in place. */
  method RunPass(defs: Defs, block: array<Inst>)
    modifies block
    ensures block[..] == RewriteAll(defs, old(block[..]))
    ensures forall k :: 0 <= k < block.Length ==> !IsExpensive(defs, block[k])
  {
    hide NewInst, IsExpensive;
    var worklist: seq<(nat, Inst)> := [];
    for i := 0 to block.Length
      invariant block[..] == old(block[..])
      invariant forall w :: w in worklist <==> w.0 < i && NewInst(defs, block[w.0]) == Some(w.1)
      invariant forall a, b :: 0 <= a < b < |worklist| ==> worklist[a].0 < worklist[b].0
    {
      var n := NewInst(defs, block[i]);
      if n.Some? {
        assert forall w :: w in worklist + [(i, n.value)] <==> w in worklist || w == (i, n.value);
        assert forall a :: 0 <= a < |worklist| ==> worklist[a] in worklist;
        worklist := worklist + [(i, n.value)];
      }
    }
    ghost var insts := block[..];
    for t := 0 to |worklist|
      invariant forall k :: 0 <= k < block.Length ==>
                  block[k] == if exists a :: 0 <= a < t && worklist[a].0 == k then Rewrite(defs, insts[k]) else insts[k]
    {
      assert worklist[t] in worklist;
      block[worklist[t].0] := worklist[t].1;
    }
    forall k | 0 <= k < block.Length
      ensures block[k] == Rewrite(defs, insts[k])
    {
      if NewInst(defs, insts[k]).Some? {
        var w := (k, NewInst(defs, insts[k]).value);
        assert w in worklist;
        var a :| 0 <= a < |worklist| && worklist[a] == w;
        assert worklist[a].0 == k;
      }
    }
    NoneIsLeftAnywhere(defs, insts);
    assert block[..] == RewriteAll(defs, insts);
  }

  lemma NoneIsLeftAnywhere(defs: Defs, insts: seq<Inst>)
    ensures forall k :: 0 <= k < |insts| ==> !IsExpensive(defs, RewriteAll(defs, insts)[k])
  {
    hide IsExpensive, NewInst, Rewrite;
    forall k | 0 <= k < |insts|
      ensures !IsExpensive(defs, RewriteAll(defs, insts)[k])
    {
      NoneIsLeft(defs, insts[k]);
    }
  }

  // ---- what is left after the pass ----

  /** A constant mask of low bits, or one that becomes that with the m bits filled in that are zero in y, defined by
      `shl ?, m`. */
  ghost predicate IsMask(defs: Defs, y: Operand, x: Operand) {
    x.Const? && exists k: nat ::
      || x.word + 1 == Pow2(k)
      || (y.Reg? && y.reg in defs && defs[y.reg].Bop? && defs[y.reg].kind == Shl && defs[y.reg].rhs.Const? &&
          defs[y.reg].rhs.word < 64 && Bitwise(BitOr, x.word, Pow2(defs[y.reg].rhs.word) - 1) + 1 == Pow2(k))
  }

  /** An instruction a rule is meant for: 0 - x, a shift by a constant, `and` with a constant mask of low bits, one-bit
      `and` of two registers. */
  ghost predicate IsExpensive(defs: Defs, i: Inst) {
    i.Bop? &&
    (|| (i.kind == Sub && i.lhs == Const(0))
     || ((i.kind == Shl || i.kind == Lshr) && i.rhs.Const?)
     || (i.kind == And && (IsMask(defs, i.lhs, i.rhs) || (i.rhs.Reg? && IsMask(defs, i.rhs, i.lhs))))
     || (i.kind == And && i.size == Size1 && i.lhs.Reg? && i.rhs.Reg?))
  }

  lemma WrappedMaskTest(n: Word)
    requires exists k: nat :: n + 1 == Pow2(k)
    ensures IsLowMask(n)
  {
    if n + 1 < W64 {
      LowMaskTest(n);
      DivModUnique(n + 1, W64, 0, n + 1);
    } else {
      ZeroIsUnit(BitAnd, n);
      DivModUnique(W64, W64, 1, 0);
    }
  }

  /** Filling in the low bits of a mask of low bits gives another one. */
  lemma FilledStaysMask(defs: Defs, x: Operand, n: Word)
    requires IsMask(defs, x, Const(n))
    ensures IsLowMask(FilledMask(defs, x, n))
  {
    hide IsLowMask, Bitwise;
    var m := ShiftedBy(defs, x);
    if m.Some? && m.value < 64 && (exists k: nat :: n + 1 == Pow2(k)) {
      var k: nat :| n + 1 == Pow2(k);
      OrLowMasks(k, m.value);
      assert FilledMask(defs, x, n) + 1 == Pow2(if k < m.value then m.value else k);
    }
    WrappedMaskTest(FilledMask(defs, x, n));
  }

  /** Every expensive instruction is rewritten, and none is left or made. */
  lemma NoneIsLeft(defs: Defs, i: Inst)
    ensures IsExpensive(defs, i) ==> NewInst(defs, i).Some?
    ensures !IsExpensive(defs, Rewrite(defs, i))
  {
    hide FilledMask, IsLowMask, TypedConst, Pow2;
    if i.Bop? && i.kind == And {
      if IsMask(defs, i.lhs, i.rhs) {
        FilledStaysMask(defs, i.lhs, i.rhs.word);
      } else if i.rhs.Reg? && IsMask(defs, i.rhs, i.lhs) {
        FilledStaysMask(defs, i.rhs, i.lhs.word);
      }
    }
  }

  // ---- values ----

  function OperandValue(env: Env, x: Operand): Word {
    match x
    case Const(w) => w
    case Reg(r) => if r in env then env[r] else 0
  }

  /** What the interpreter computes for an instruction; other gives the results of everything but binary operations. */
  function Value(other: (nat, Env) -> Option<Word>, i: Inst, env: Env): Option<Word> {
    match i
    case OtherInst(id) => other(id, env)
    case Bop(_, kind, size, lhs, rhs) => Compute(kind, size, OperandValue(env, lhs), OperandValue(env, rhs))
  }

  /** Constants are values of the type, and shift amounts are below the width. */
  predicate WellTyped(i: Inst) {
    i.Bop? ==>
      && (i.lhs.Const? ==> i.lhs.word < Pow2(BitWidth(i.size)))
      && (i.rhs.Const? ==> i.rhs.word < Pow2(BitWidth(i.size)))
      && (i.kind == Shl || i.kind == Lshr ==> (i.rhs.Const? ==> i.rhs.word < BitWidth(i.size)))
  }

  /** Operands have the type of the instruction, and shifts among their definitions are well typed. */
  predicate OperandTyped(defs: Defs, i: Inst, x: Operand)
    requires i.Bop?
  {
    x.Reg? && x.reg in defs && defs[x.reg].Bop? ==> defs[x.reg].size == i.size && WellTyped(defs[x.reg])
  }

  predicate InstOk(defs: Defs, i: Inst) {
    WellTyped(i) && (i.Bop? && i.kind == And ==> OperandTyped(defs, i, i.lhs) && OperandTyped(defs, i, i.rhs))
  }

  /** Registers defined by `shl ?, m` hold multiples of 2^m. */
  ghost predicate ShiftsKnown(defs: Defs, env: Env) {
    forall r :: r in env && ShiftedBy(defs, Reg(r)).Some? ==> env[r] % Pow2(ShiftedBy(defs, Reg(r)).value) == 0
  }

  /** The rewrite divides by zero: the filled mask has every bit of the type. */
  predicate MasksEverything(defs: Defs, i: Inst) {
    && i.Bop? && i.kind == And
    && (if i.rhs.Const? then FilledMask(defs, i.lhs, i.rhs.word) == Pow2(BitWidth(i.size)) - 1
        else i.lhs.Const? && FilledMask(defs, i.rhs, i.lhs.word) == Pow2(BitWidth(i.size)) - 1)
  }

  // ---- one rule at a time ----

  lemma ConstValue(size: Size, y: nat)
    requires y < Pow2(BitWidth(size))
    ensures y < W64 && TypedConst(size, y) == Const(y)
  {
    Pow2Of64();
    Pow2Monotone(BitWidth(size), 64);
    TruncateWrap(BitWidth(size), y);
    DivModUnique(y, Pow2(BitWidth(size)), 0, y);
  }

  lemma NegatedProduct(t: int, p: int)
    requires p > 0
    ensures (t * (p - 1)) % p == (0 - t) % p
  {
    assert t * (p - 1) == t * p + (0 - t);
    ModShift(0 - t, p, t);
  }

  /** The constant -1 of the type. */
  lemma MinusOne(size: Size)
    ensures TypedConst(size, -1).Const? && TypedConst(size, -1).word == Pow2(BitWidth(size)) - 1
  {
    var p := Pow2(BitWidth(size));
    TruncateWrap(BitWidth(size), -1);
    DivModUnique(-1, p, -1, p - 1);
  }

  lemma NegatedSub(size: Size, x: Word)
    ensures Compute(Sub, size, 0, x) == GetResult(size, Some(Wrap(0 - (Truncate(BitWidth(size), x) as int))))
  {
    TruncateSmall(BitWidth(size), 0);
    UnsignedCompute(Sub, size, 0, x);
  }

  lemma NegatedMul(size: Size, x: Word)
    ensures TypedConst(size, -1).Const?
    ensures Compute(Mul, size, x, TypedConst(size, -1).word) == GetResult(size, Some(Wrap(Truncate(BitWidth(size), x) * (Pow2(BitWidth(size)) - 1))))
  {
    var c := TypedConst(size, -1).word;
    MinusOne(size);
    TruncateSmall(BitWidth(size), c);
    UnsignedCompute(Mul, size, x, c);
  }

  lemma NegateRule(size: Size, x: Word)
    ensures TypedConst(size, -1).Const?
    ensures Compute(Sub, size, 0, x) == Compute(Mul, size, x, TypedConst(size, -1).word)
  {
    hide Truncate, TypedConst, Pow2, Wrap, Compute, BitWidth;
    var w := BitWidth(size);
    var t: int := Truncate(w, x);
    NegatedSub(size, x);
    NegatedMul(size, x);
    NegatedProduct(t, Pow2(w));
    TruncateWrap(w, -t);
    TruncateWrap(w, t * (Pow2(w) - 1));
  }

  /** A power of two below the width is a constant of the type. */
  lemma PowerConst(size: Size, n: nat)
    requires n < BitWidth(size)
    ensures Pow2(n) < Pow2(BitWidth(size)) <= W64
    ensures TypedConst(size, Pow2(n)).Const? && TypedConst(size, Pow2(n)).word == Pow2(n)
    ensures Truncate(BitWidth(size), Pow2(n)) == Pow2(n)
  {
    var w := BitWidth(size);
    Pow2Of64();
    Pow2Monotone(n, w);
    Pow2Monotone(w, 64);
    ConstValue(size, Pow2(n));
    TruncateSmall(w, Pow2(n));
  }

  lemma ShiftOperands(size: Size, x: Word, n: Word)
    requires n < BitWidth(size)
    ensures Compute(Shl, size, x, n) == GetResult(size, Some(Wrap(Truncate(BitWidth(size), x) * Pow2(n))))
    ensures Compute(Lshr, size, x, n) == GetResult(size, Some(Wrap(Truncate(BitWidth(size), x) / Pow2(n))))
  {
    hide Pow2, Truncate, Wrap, GetResult;
    DivModUnique(n, BitWidth(size), 0, n);
  }

  lemma ShiftRule(size: Size, x: Word, n: Word)
    requires n < BitWidth(size)
    ensures Pow2(n) < W64
    ensures Compute(Shl, size, x, n) == Compute(Mul, size, x, Pow2(n))
    ensures Compute(Lshr, size, x, n) == Compute(Udiv, size, x, Pow2(n))
  {
    PowerConst(size, n);
    ShiftOperands(size, x, n);
    FactorOperands(size, x, Pow2(n));
    hide Pow2, Truncate, Wrap, GetResult, Compute;
  }

  lemma OneBitRule(x: Word, y: Word)
    ensures Compute(And, Size1, x, y) == Compute(Mul, Size1, x, y)
  {
    UnsignedCompute(And, Size1, x, y);
    UnsignedCompute(Mul, Size1, x, y);
    hide Compute;
    var t, u := Truncate(1, x), Truncate(1, y);
    assert Pow2(1) == 2;
    hide Truncate;
    assert t in {0, 1} && u in {0, 1};
    assert Bitwise(BitAnd, 0, 0) == 0 && Bitwise(BitAnd, 0, 1) == 0 && Bitwise(BitAnd, 1, 0) == 0 && Bitwise(BitAnd, 1, 1) == 1;
  }

  lemma RawLowMask(t: Word, k: nat)
    requires Pow2(k) <= W64
    ensures Low(t, k) < W64 && RawResult(And, t, Pow2(k) - 1) == Some(Low(t, k))
  {
    AndLowMask(t, k);
    hide Pow2, Bitwise;
  }

  lemma MaskOperands(size: Size, x: Word, k: nat)
    requires k < BitWidth(size)
    ensures Pow2(k) < W64 && Low(Truncate(BitWidth(size), x), k) < W64
    ensures Compute(And, size, x, Pow2(k) - 1) == GetResult(size, Some(Low(Truncate(BitWidth(size), x), k)))
  {
    hide Truncate, Pow2, Bitwise, Compute, GetResult, RawResult, Low;
    PowerConst(size, k);
    TruncateSmall(BitWidth(size), Pow2(k) - 1);
    UnsignedCompute(And, size, x, Pow2(k) - 1);
    RawLowMask(Truncate(BitWidth(size), x), k);
  }

  /** Masking with 2^k - 1, for a mask below the width, is the remainder by 2^k. */
  lemma LowMaskRule(size: Size, x: Word, k: nat)
    requires k < BitWidth(size)
    ensures Pow2(k) < W64
    ensures Compute(And, size, x, Pow2(k) - 1) == Compute(Urem, size, x, Pow2(k))
  {
    PowerConst(size, k);
    FactorOperands(size, x, Pow2(k));
    MaskOperands(size, x, k);
    hide Compute;
    var t := Truncate(BitWidth(size), x);
    RemainderIsWord(t, Pow2(k));
    hide Truncate, Pow2, Wrap, GetResult;
  }

  lemma RemainderIsWord(t: Word, p: nat)
    requires 0 < p < W64
    ensures Wrap(t % p) == t % p
  {
    DivModUnique(t % p, W64, 0, t % p);
  }

  /** Filling in mask bits below the shift amount changes nothing for a multiple of 2^m. */
  lemma FilledBits(w: nat, x: Word, n: nat, m: nat)
    requires m < w <= 64 && x % Pow2(m) == 0 && n < Pow2(w)
    ensures Bitwise(BitOr, n, Pow2(m) - 1) < Pow2(w)
    ensures Bitwise(BitAnd, Truncate(w, x), Bitwise(BitOr, n, Pow2(m) - 1)) == Bitwise(BitAnd, Truncate(w, x), n)
  {
    Pow2Monotone(m, w);
    BitwiseBound(BitOr, n, Pow2(m) - 1, w);
    ModMod(x, m, w);
    hide Bitwise;
    AndFilledMask(Truncate(w, x), n, m);
  }

  lemma FillRule(size: Size, x: Word, n: Word, m: Word, filled: Word)
    requires m < BitWidth(size) && x % Pow2(m) == 0 && n < Pow2(BitWidth(size))
    requires filled == Bitwise(BitOr, n, Pow2(m) - 1)
    ensures filled < Pow2(BitWidth(size))
    ensures Compute(And, size, x, n) == Compute(And, size, x, filled)
  {
    hide Truncate, Pow2, Bitwise, Compute, BitWidth;
    var w := BitWidth(size);
    FilledBits(w, x, n, m);
    TruncateSmall(w, n);
    TruncateSmall(w, filled);
    UnsignedCompute(And, size, x, n);
    UnsignedCompute(And, size, x, filled);
  }

  lemma MaskExponent(n: Word) returns (k: nat)
    requires IsLowMask(n)
    ensures n + 1 == Pow2(k)
  {
    if n + 1 == W64 {
      Pow2Of64();
      k := 64;
    } else {
      DivModUnique(n + 1, W64, 0, n + 1);
      LowMaskTest(n);
      k :| n + 1 == Pow2(k);
    }
  }

  /** The mask test accepts 2^k - 1 for k up to the width; only k equal to the width makes the divisor zero. */
  lemma LowMaskWidth(size: Size, n: Word) returns (k: nat)
    requires n < Pow2(BitWidth(size)) && IsLowMask(n)
    ensures k <= BitWidth(size) && n + 1 == Pow2(k)
    ensures TypedConst(size, n + 1).Const? && TypedConst(size, n + 1).word == if k == BitWidth(size) then 0 else Pow2(k)
  {
    k := MaskExponent(n);
    hide IsLowMask;
    var w := BitWidth(size);
    Pow2StrictlyMonotone(k, w);
    if k < w {
      PowerConst(size, k);
    } else {
      TruncateWrap(w, n + 1);
      DivModUnique(n + 1, Pow2(w), 1, 0);
    }
  }

  lemma Pow2StrictlyMonotone(a: nat, b: nat)
    ensures Pow2(a) <= Pow2(b) <==> a <= b
    ensures Pow2(a) == Pow2(b) <==> a == b
  {
    if a <= b {
      Pow2Monotone(a, b);
    } else {
      Pow2Monotone(b, a);
    }
  }

  lemma RemainderByZero(size: Size, x: Word)
    ensures Compute(Urem, size, x, 0) == None
  {
    TruncateSmall(BitWidth(size), 0);
  }

  // ---- one instruction ----

  lemma AndSwapped(size: Size, x: Word, y: Word)
    ensures Compute(And, size, x, y) == Compute(And, size, y, x)
  {
    UnsignedCompute(And, size, x, y);
    UnsignedCompute(And, size, y, x);
    AndCommutes(Truncate(BitWidth(size), x), Truncate(BitWidth(size), y));
    hide Compute, Truncate, Bitwise;
  }

  lemma MaskNotFull(size: Size, n: Word, k: nat)
    requires n + 1 == Pow2(k)
    ensures n == Pow2(BitWidth(size)) - 1 <==> k == BitWidth(size)
  {
    Pow2StrictlyMonotone(k, BitWidth(size));
  }

  lemma FilledMaskKeeps(defs: Defs, i: Inst, x: Operand, n: Word, env: Env)
    requires i.Bop? && n < Pow2(BitWidth(i.size)) && OperandTyped(defs, i, x) && ShiftsKnown(defs, env)
    ensures FilledMask(defs, x, n) < Pow2(BitWidth(i.size))
    ensures Compute(And, i.size, OperandValue(env, x), FilledMask(defs, x, n)) == Compute(And, i.size, OperandValue(env, x), n)
  {
    hide Compute, Bitwise, Pow2;
    var m := ShiftedBy(defs, x);
    if m.Some? {
      if x.reg !in env {
        Pow2PositiveRemainder(m.value);
      }
      FillRule(i.size, OperandValue(env, x), n, m.value, FilledMask(defs, x, n));
    }
  }

  lemma Pow2PositiveRemainder(m: nat)
    ensures 0 % Pow2(m) == 0
  {
    DivModUnique(0, Pow2(m), 0, 0);
  }

  lemma MaskValue(size: Size, v: Word, filled: Word)
    requires filled < Pow2(BitWidth(size)) && IsLowMask(filled)
    ensures TypedConst(size, filled + 1).Const?
    ensures Compute(Urem, size, v, TypedConst(size, filled + 1).word) ==
            if filled == Pow2(BitWidth(size)) - 1 then None else Compute(And, size, v, filled)
  {
    var k := LowMaskWidth(size, filled);
    MaskNotFull(size, filled, k);
    hide Compute, IsLowMask, Pow2, TypedConst;
    if k < BitWidth(size) {
      LowMaskRule(size, v, k);
    } else {
      RemainderByZero(size, v);
    }
  }

  /** The mask rule keeps the value exactly when the filled mask is not all ones; otherwise it divides by zero. */
  lemma MaskRuleIff(defs: Defs, i: Inst, x: Operand, n: Word, env: Env)
    requires i.Bop? && n < Pow2(BitWidth(i.size)) && OperandTyped(defs, i, x) && ShiftsKnown(defs, env)
    requires MaskRule(defs, i, x, n).Some?
    ensures var r := MaskRule(defs, i, x, n).value;
            && r.Bop? && r.rhs.Const?
            && Compute(r.kind, r.size, OperandValue(env, r.lhs), r.rhs.word) ==
               if FilledMask(defs, x, n) == Pow2(BitWidth(i.size)) - 1 then None else Compute(And, i.size, OperandValue(env, x), n)
  {
    hide Compute, FilledMask, IsLowMask, OperandTyped, ShiftsKnown, Pow2, TypedConst, BitWidth;
    FilledMaskKeeps(defs, i, x, n, env);
    MaskValue(i.size, OperandValue(env, x), FilledMask(defs, x, n));
  }

  lemma MaskInst(other: (nat, Env) -> Option<Word>, defs: Defs, i: Inst, env: Env)
    requires InstOk(defs, i) && ShiftsKnown(defs, env) && i.Bop? && i.kind == And && (i.lhs.Const? || i.rhs.Const?)
    ensures MasksEverything(defs, i) ==> NewInst(defs, i).Some? ==> Value(other, Rewrite(defs, i), env) == None
    ensures !MasksEverything(defs, i) ==> Value(other, Rewrite(defs, i), env) == Value(other, i, env)
  {
    hide Compute, FilledMask, IsLowMask, OperandTyped, ShiftsKnown, Pow2, Truncate;
    if i.rhs.Const? {
      if MaskRule(defs, i, i.lhs, i.rhs.word).Some? {
        MaskRuleIff(defs, i, i.lhs, i.rhs.word, env);
      }
    } else {
      if MaskRule(defs, i, i.rhs, i.lhs.word).Some? {
        MaskRuleIff(defs, i, i.rhs, i.lhs.word, env);
      }
      AndSwapped(i.size, OperandValue(env, i.rhs), i.lhs.word);
    }
  }

  lemma FullMaskRewritten(size: Size)
    ensures Pow2(BitWidth(size)) <= W64 && IsLowMask(Pow2(BitWidth(size)) - 1)
  {
    var p := Pow2(BitWidth(size));
    Pow2Of64();
    Pow2Monotone(BitWidth(size), 64);
    if p < W64 {
      LowMaskTest(p - 1);
      DivModUnique(p, W64, 0, p);
    } else {
      ZeroIsUnit(BitAnd, W64 - 1);
      DivModUnique(W64, W64, 1, 0);
    }
  }

  /** A rewritten instruction computes what the original did if and only if its filled mask does not have every bit. */
  lemma RewriteKeepsValueIff(other: (nat, Env) -> Option<Word>, defs: Defs, i: Inst, env: Env)
    requires InstOk(defs, i) && ShiftsKnown(defs, env)
    ensures !MasksEverything(defs, i) ==> Value(other, Rewrite(defs, i), env) == Value(other, i, env)
    ensures MasksEverything(defs, i) ==> Value(other, Rewrite(defs, i), env) == None && Value(other, i, env).Some?
  {
    hide Compute, FilledMask, OperandTyped, ShiftsKnown, Pow2, Truncate, MaskRule;
    if i.Bop? && i.kind == And && (i.lhs.Const? || i.rhs.Const?) {
      MaskInst(other, defs, i, env);
      FullMaskRewritten(i.size);
      MaskAlways(defs, i);
      AndIsTotal(i.size, OperandValue(env, i.lhs), OperandValue(env, i.rhs));
    } else if i.Bop? {
      OtherRules(other, defs, i, env);
    }
  }

  lemma MaskAlways(defs: Defs, i: Inst)
    requires MasksEverything(defs, i) ==> Pow2(BitWidth(i.size)) <= W64 && IsLowMask(Pow2(BitWidth(i.size)) - 1)
    ensures MasksEverything(defs, i) ==> NewInst(defs, i).Some?
  {
    hide FilledMask, IsLowMask, Pow2, BitWidth, Truncate;
  }

  lemma AndIsTotal(size: Size, x: Word, y: Word)
    ensures Compute(And, size, x, y).Some?
  {
    UnsignedCompute(And, size, x, y);
  }

  lemma OtherRules(other: (nat, Env) -> Option<Word>, defs: Defs, i: Inst, env: Env)
    requires InstOk(defs, i) && i.Bop? && !(i.kind == And && (i.lhs.Const? || i.rhs.Const?))
    ensures Value(other, Rewrite(defs, i), env) == Value(other, i, env)
  {
    hide Compute, Pow2, Truncate, OperandTyped;
    if i.kind == Sub && i.lhs == Const(0) {
      NegateRule(i.size, OperandValue(env, i.rhs));
    } else if (i.kind == Shl || i.kind == Lshr) && i.rhs.Const? {
      PowerConst(i.size, i.rhs.word);
      ShiftRule(i.size, OperandValue(env, i.lhs), i.rhs.word);
      DivModUnique(i.rhs.word, 64, 0, i.rhs.word);
    } else if i.kind == And && i.size == Size1 {
      OneBitRule(OperandValue(env, i.lhs), OperandValue(env, i.rhs));
    }
  }

  // ---- a whole block ----

  function RunBlock(other: (nat, Env) -> Option<Word>, insts: seq<Inst>, env: Env): Option<Env> {
    if insts == [] then Some(env)
    else match Value(other, insts[0], env)
      case None => None
      case Some(v) => RunBlock(other, insts[1..], env[insts[0].id := v])
  }

  /** The block's instructions are the definitions of their registers, and well typed. */
  predicate DefsOk(defs: Defs, insts: seq<Inst>) {
    forall k :: 0 <= k < |insts| ==> insts[k].id in defs && defs[insts[k].id] == insts[k] && InstOk(defs, insts[k])
  }

  lemma ShiftMultiple(size: Size, x: Word, n: Word)
    requires n < BitWidth(size)
    ensures Compute(Shl, size, x, n).Some? && Compute(Shl, size, x, n).value % Pow2(n) == 0
  {
    var t := Truncate(BitWidth(size), x);
    ShiftOperands(size, x, n);
    TruncateWrap(BitWidth(size), t * Pow2(n));
    ModMod(t * Pow2(n), n, BitWidth(size));
    DivModUnique(t * Pow2(n), Pow2(n), t, 0);
    hide Compute, Truncate, Pow2, Wrap;
  }

  lemma ShiftsStayKnown(other: (nat, Env) -> Option<Word>, defs: Defs, i: Inst, env: Env)
    requires InstOk(defs, i) && ShiftsKnown(defs, env) && i.id in defs && defs[i.id] == i && Value(other, i, env).Some?
    ensures ShiftsKnown(defs, env[i.id := Value(other, i, env).value])
  {
    if i.Bop? && i.kind == Shl && i.rhs.Const? {
      ShiftMultiple(i.size, OperandValue(env, i.lhs), i.rhs.word);
    }
    hide Compute, Pow2, OperandTyped;
  }

  lemma RewriteKeepsId(defs: Defs, i: Inst)
    ensures Rewrite(defs, i).id == i.id
  {
    hide FilledMask, IsLowMask, TypedConst;
  }

  lemma RewriteAllFirst(defs: Defs, insts: seq<Inst>)
    requires insts != []
    ensures RewriteAll(defs, insts) == [Rewrite(defs, insts[0])] + RewriteAll(defs, insts[1..])
  {
    hide Rewrite;
  }

  /** Some rewritten mask has every bit of its type. */
  predicate SomeFullMask(defs: Defs, insts: seq<Inst>) {
    insts != [] && (MasksEverything(defs, insts[0]) || SomeFullMask(defs, insts[1..]))
  }

  /** Running the rewritten block gives every register the value the original gives it, and it traps where the original
      traps, unless some mask has every bit: then the rewritten block traps in any case. */
  lemma {:induction false} RewrittenRunIff(other: (nat, Env) -> Option<Word>, defs: Defs, insts: seq<Inst>, env: Env)
    requires DefsOk(defs, insts) && ShiftsKnown(defs, env)
    ensures RunBlock(other, RewriteAll(defs, insts), env) == RunBlock(other, insts, env) <==>
            !SomeFullMask(defs, insts) || RunBlock(other, insts, env).None?
    ensures SomeFullMask(defs, insts) ==> RunBlock(other, RewriteAll(defs, insts), env) == None
  {
    hide ShiftsKnown, MasksEverything, InstOk, Value, Rewrite, RewriteAll;
    if insts != [] {
      RewriteAllFirst(defs, insts);
      RewriteKeepsId(defs, insts[0]);
      RewriteKeepsValueIff(other, defs, insts[0], env);
      assert RewriteAll(defs, insts)[1..] == RewriteAll(defs, insts[1..]);
      if Value(other, insts[0], env).Some? {
        ShiftsStayKnown(other, defs, insts[0], env);
        RewrittenRunIff(other, defs, insts[1..], env[insts[0].id := Value(other, insts[0], env).value]);
      }
    } else {
      NothingRewritten(defs);
    }
  }

  lemma NothingRewritten(defs: Defs)
    ensures RewriteAll(defs, []) == []
  {
  }

  // ---- a mask with every bit ----

  const ShiftByFour := Bop(1, Shl, Size8, Reg(0), Const(4))
  const HighNibble := Bop(2, And, Size8, Reg(1), Const(0xF0))

  lemma NibbleFilled()
    ensures Bitwise(BitOr, 0xF0, 0xF) == 0xFF
  {
    assert Bitwise(BitOr, 0xF, 0) == 0xF;
    assert Bitwise(BitOr, 0x1E, 1) == 0x1F;
    assert Bitwise(BitOr, 0x3C, 3) == 0x3F;
    assert Bitwise(BitOr, 0x78, 7) == 0x7F;
  }

  lemma HighNibbleMasksEverything(defs: Defs)
    requires defs == map[1 := ShiftByFour, 2 := HighNibble]
    ensures MasksEverything(defs, HighNibble) && InstOk(defs, ShiftByFour) && InstOk(defs, HighNibble)
  {
    NibbleFilled();
    hide Bitwise;
    assert Pow2(4) == 16 && Pow2(8) == 256 by {
      assert Pow2(2) == 4;
      Pow2Add(2, 2);
      Pow2Add(4, 4);
    }
  }

  /** `x << 4` and then `& 0xF0` on bytes: the original block runs for every x, the rewritten one divides by zero. */
  lemma FullMaskTraps(other: (nat, Env) -> Option<Word>, x: Word)
    ensures var defs, insts, env := map[1 := ShiftByFour, 2 := HighNibble], [ShiftByFour, HighNibble], map[0 := x];
            && DefsOk(defs, insts) && ShiftsKnown(defs, env)
            && RunBlock(other, insts, env).Some? && RunBlock(other, RewriteAll(defs, insts), env).None?
  {
    hide Compute, InstOk, MasksEverything, RewriteAll;
    var defs, insts, env := map[1 := ShiftByFour, 2 := HighNibble], [ShiftByFour, HighNibble], map[0 := x];
    HighNibbleMasksEverything(defs);
    ShiftMultiple(Size8, x, 4);
    var v := Compute(Shl, Size8, x, 4).value;
    AndIsTotal(Size8, v, 0xF0);
    assert insts[1..] == [HighNibble] && [HighNibble][1..] == [];
    assert RunBlock(other, [HighNibble], env[1 := v]).Some?;
    RewrittenRunIff(other, defs, insts, env);
  }

  // ---- cost ----

  function StaticCost(insts: seq<Inst>): nat {
    if insts == [] then 0 else StaticCost(insts[1..]) + if insts[0].Bop? then CostOf(insts[0].kind) else 0
  }

  function RewrittenCount(defs: Defs, insts: seq<Inst>): nat {
    if insts == [] then 0 else RewrittenCount(defs, insts[1..]) + if NewInst(defs, insts[0]).Some? then 1 else 0
  }

  /** Every rewritten instruction is cheaper by at least 500 units (0.2). */
  lemma {:induction false} RewriteIsCheaper(defs: Defs, insts: seq<Inst>)
    ensures StaticCost(RewriteAll(defs, insts)) + 500 * RewrittenCount(defs, insts) <= StaticCost(insts)
  {
    hide FilledMask, IsLowMask, TypedConst;
    if insts != [] {
      RewriteIsCheaper(defs, insts[1..]);
      assert RewriteAll(defs, insts)[1..] == RewriteAll(defs, insts[1..]);
    }
  }
}
