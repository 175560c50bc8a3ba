/** Packing several narrow arguments into one: the caller's and the callee's code (PackRegisters.cpp). */
module Packing {
  import opened Words
  import opened Interp

  /** Straight-line code whose instructions name earlier results by position. */
  datatype Inst =
    | ZExt(arg: nat)
    | MulNUW(x: nat, multiplier: nat)
    | XorInst(x: nat, y: nat)
    | UDivInst(x: nat, divisor: nat)
    | URemInst(x: nat, divisor: nat)

  /** The result of one instruction at the pack's width; None is a trap or a broken no-unsigned-wrap promise. */
  function Result(size: Size, args: seq<Word>, i: Inst, vals: seq<Word>): Option<Word> {
    match i
    case ZExt(a) => if a < |args| then Some(args[a]) else None
    case MulNUW(x, c) =>
      if x < |vals| && c < W64 && vals[x] * c < Pow2(BitWidth(size)) then Compute(Mul, size, vals[x], c) else None
    case XorInst(x, y) => if x < |vals| && y < |vals| then Compute(Xor, size, vals[x], vals[y]) else None
    case UDivInst(x, c) => if x < |vals| && c < W64 then Compute(Udiv, size, vals[x], c) else None
    case URemInst(x, c) => if x < |vals| && c < W64 then Compute(Urem, size, vals[x], c) else None
  }

  /** The results of all instructions, after the given first values. */
  function Exec(size: Size, args: seq<Word>, code: seq<Inst>, first: seq<Word>): Option<seq<Word>> {
    if code == [] then Some(first)
    else
      var last := |code| - 1;
      match Exec(size, args, code[..last], first)
      case None => None
      case Some(vals) =>
        match Result(size, args, code[last], vals)
        case None => None
        case Some(v) => Some(vals + [v])
  }

  // ---- the caller ----

  function ZExts(n: nat): (code: seq<Inst>)
    ensures |code| == n
  {
    if n == 0 then [] else ZExts(n - 1) + [ZExt(n - 1)]
  }

  /** The code after arguments j and above have been merged; every instruction works on the last result. */
  function CallerCode(ws: seq<nat>, j: nat): (code: seq<Inst>)
    requires j <= |ws|
    ensures |ws| <= |code|
    decreases |ws| - j
  {
    if j == |ws| then ZExts(|ws|)
    else
      var code := CallerCode(ws, j + 1);
      var merged := if j + 1 < |ws| then code + [XorInst(|code| - 1, j)] else code;
      if j > 0 then merged + [MulNUW(|merged| - 1, Pow2(ws[j - 1]))] else merged
  }

  /** Zero-extends every argument, then merges them from the last to the first. */
  method PackFromCaller(ws: seq<nat>) returns (code: seq<Inst>)
    requires ws != []
    ensures code == CallerCode(ws, 0)
  {
    code := [];
    for a := 0 to |ws|
      invariant code == ZExts(a)
    {
      code := code + [ZExt(a)];
    }
    var j: nat := |ws|;
    while j > 0
      invariant j <= |ws| && code == CallerCode(ws, j)
    {
      j := j - 1;
      if j + 1 < |ws| {
        code := code + [XorInst(|code| - 1, j)];
      }
      if j > 0 {
        code := code + [MulNUW(|code| - 1, Pow2(ws[j - 1]))];
      }
    }
  }

  // ---- the callee ----

  datatype CalleeState = CalleeState(code: seq<Inst>, rem: nat, toBeTrunc: seq<nat>)

  /** The callee's code for the first j arguments: the position of what remains and of each extended argument.
      Position 0 is the packed argument. */
  function CalleeCode(ws: seq<nat>, j: nat): (s: CalleeState)
    requires j <= |ws|
    ensures |s.toBeTrunc| == j
  {
    if j == 0 then CalleeState([], 0, [])
    else
      var s := CalleeCode(ws, j - 1);
      var code := if j > 1 then s.code + [UDivInst(s.rem, Pow2(ws[j - 2]))] else s.code;
      var rem := if j > 1 then |code| else 0;
      if j < |ws| then CalleeState(code + [URemInst(rem, Pow2(ws[j - 1]))], rem, s.toBeTrunc + [|code| + 1])
      else CalleeState(code, rem, s.toBeTrunc + [rem])
  }

  method PackFromCallee(ws: seq<nat>) returns (code: seq<Inst>, toBeTrunc: seq<nat>)
    ensures code == CalleeCode(ws, |ws|).code && toBeTrunc == CalleeCode(ws, |ws|).toBeTrunc
  {
    code, toBeTrunc := [], [];
    var beforeRem: nat, beforeDivisor: nat := 0, 1;
    for j := 0 to |ws|
      invariant CalleeCode(ws, j) == CalleeState(code, beforeRem, toBeTrunc)
      invariant j > 0 ==> beforeDivisor == Pow2(ws[j - 1])
    {
      if j != 0 {
        code := code + [UDivInst(beforeRem, beforeDivisor)];
        beforeRem := |code|;
      }
      if j + 1 != |ws| {
        beforeDivisor := Pow2(ws[j]);
        code := code + [URemInst(beforeRem, beforeDivisor)];
        toBeTrunc := toBeTrunc + [|code|];
      } else {
        beforeDivisor := Pow2(ws[j]);
        toBeTrunc := toBeTrunc + [beforeRem];
      }
    }
  }

  // ---- what the packed word is ----

  function SumFrom(ws: seq<nat>, j: nat): nat
    requires j <= |ws|
    decreases |ws| - j
  {
    if j == |ws| then 0 else ws[j] + SumFrom(ws, j + 1)
  }

  /** Arguments j and above as digits of a mixed-radix number, argument j least significant. */
  function Mixed(ws: seq<nat>, args: seq<Word>, j: nat): nat
    requires |args| == |ws| && j <= |ws|
    decreases |ws| - j
  {
    if j == |ws| then 0 else args[j] + Mixed(ws, args, j + 1) * Pow2(ws[j])
  }

  predicate Fits(ws: seq<nat>, args: seq<Word>) {
    |args| == |ws| && forall k :: 0 <= k < |ws| ==> args[k] < Pow2(ws[k])
  }

  lemma DigitBound(a: nat, m: nat, p: nat, q: nat)
    requires a < p && m < q
    ensures a + m * p < p * q
  {
    MulMonotone(m + 1, q, p);
    assert (m + 1) * p == m * p + p;
    assert q * p == p * q;
  }

  lemma {:induction false} MixedBound(ws: seq<nat>, args: seq<Word>, j: nat)
    requires Fits(ws, args) && j <= |ws|
    ensures Mixed(ws, args, j) < Pow2(SumFrom(ws, j))
    decreases |ws| - j
  {
    if j < |ws| {
      MixedBound(ws, args, j + 1);
      Pow2Add(ws[j], SumFrom(ws, j + 1));
      DigitBound(args[j], Mixed(ws, args, j + 1), Pow2(ws[j]), Pow2(SumFrom(ws, j + 1)));
      hide Pow2;
    }
  }

  /** Splitting off the least significant digit. */
  lemma MixedSplit(ws: seq<nat>, args: seq<Word>, j: nat)
    requires Fits(ws, args) && j < |ws|
    ensures Mixed(ws, args, j) / Pow2(ws[j]) == Mixed(ws, args, j + 1)
    ensures Mixed(ws, args, j) % Pow2(ws[j]) == args[j]
  {
    hide Pow2;
    DivModUnique(Mixed(ws, args, j), Pow2(ws[j]), Mixed(ws, args, j + 1), args[j]);
  }

  /** The bits of argument k start where those of the arguments before it end; argument 0 is lowest. */
  lemma {:induction false} ArgumentBits(ws: seq<nat>, args: seq<Word>, j: nat, k: nat)
    requires Fits(ws, args) && j <= k < |ws|
    ensures SumFrom(ws, k) <= SumFrom(ws, j)
    ensures (Mixed(ws, args, j) / Pow2(SumFrom(ws, j) - SumFrom(ws, k))) % Pow2(ws[k]) == args[k]
    decreases k - j
  {
    hide Pow2;
    MixedSplit(ws, args, j);
    if j == k {
      Pow2Zero();
    } else {
      ArgumentBits(ws, args, j + 1, k);
      var rest := SumFrom(ws, j + 1) - SumFrom(ws, k);
      DivByPowers(Mixed(ws, args, j), ws[j], rest);
    }
  }

  lemma Pow2Zero()
    ensures Pow2(0) == 1
  {
  }

  lemma DivByPowers(x: nat, a: nat, b: nat)
    ensures x / Pow2(a + b) == (x / Pow2(a)) / Pow2(b)
  {
    hide Pow2;
    Pow2Add(a, b);
    var q, r := x / Pow2(a), x % Pow2(a);
    assert x == q * Pow2(a) + r;
    var q', r' := q / Pow2(b), q % Pow2(b);
    assert q == q' * Pow2(b) + r';
    assert (q' * Pow2(b) + r') * Pow2(a) == q' * (Pow2(a) * Pow2(b)) + r' * Pow2(a);
    MulMonotone(r' + 1, Pow2(b), Pow2(a));
    MulMonotone(0, r', Pow2(a));
    assert (r' + 1) * Pow2(a) == r' * Pow2(a) + Pow2(a);
    assert Pow2(b) * Pow2(a) == Pow2(a) * Pow2(b);
    DivModUnique(x, Pow2(a) * Pow2(b), q', r' * Pow2(a) + r);
  }

  lemma {:induction false} SumSuffix(ws: seq<nat>, i: nat, j: nat)
    requires i <= j <= |ws|
    ensures SumFrom(ws, j) <= SumFrom(ws, i)
    decreases j - i
  {
    if i < j {
      SumSuffix(ws, i + 1, j);
    }
  }

  // ---- exact operations at the pack's width ----

  lemma SmallWord(size: Size, x: nat)
    requires x < Pow2(BitWidth(size))
    ensures x < W64 && Truncate(BitWidth(size), x) == x && Wrap(x) == x && GetResult(size, Some(x)) == Some(x)
  {
    Pow2Of64();
    Pow2Monotone(BitWidth(size), 64);
    TruncateSmall(BitWidth(size), x);
    DivModUnique(x, W64, 0, x);
  }

  lemma ExactFactor(size: Size, x: nat, p: nat)
    requires x < Pow2(BitWidth(size)) && 0 < p < Pow2(BitWidth(size))
    ensures x < W64 && p < W64
    ensures x * p < Pow2(BitWidth(size)) ==> x * p < W64 && Compute(Mul, size, x, p) == Some(x * p)
    ensures 0 <= x / p <= x && Compute(Udiv, size, x, p) == Some(x / p)
    ensures 0 <= x % p <= x && Compute(Urem, size, x, p) == Some(x % p)
  {
    hide Compute, Truncate, Pow2, Wrap, GetResult;
    SmallWord(size, x);
    SmallWord(size, p);
    FactorOperands(size, x, p);
    DivPositive(x, p);
    RemainderBelow(x, p);
    SmallWord(size, x / p);
    SmallWord(size, x % p);
    if x * p < Pow2(BitWidth(size)) {
      MulMonotone(0, x, p);
      SmallWord(size, x * p);
    }
  }

  lemma RemainderBelow(x: nat, p: nat)
    requires 0 < p
    ensures 0 <= x % p <= x
  {
    DivPositive(x, p);
    MulMonotone(0, x / p, p);
  }

  /** Exclusive-or with a narrower number under a multiple of its radix is addition. */
  lemma ExactXor(size: Size, m: nat, k: nat, a: nat)
    requires a < Pow2(k) && a + m * Pow2(k) < Pow2(BitWidth(size))
    ensures m * Pow2(k) < W64 && a < W64 && a + m * Pow2(k) < W64
    ensures Compute(Xor, size, m * Pow2(k), a) == Some(a + m * Pow2(k))
  {
    hide Compute, Truncate, Pow2, Wrap, GetResult, Bitwise;
    MulMonotone(0, m, Pow2(k));
    SmallWord(size, m * Pow2(k));
    SmallWord(size, a);
    SmallWord(size, a + m * Pow2(k));
    UnsignedCompute(Xor, size, m * Pow2(k), a);
    XorDisjoint(m, a, k);
    assert BitwiseWord(BitXor, m * Pow2(k), a) == a + m * Pow2(k);
  }

  // ---- running the code ----

  lemma ExecAppend(size: Size, args: seq<Word>, code: seq<Inst>, i: Inst, first: seq<Word>)
    ensures Exec(size, args, code + [i], first) ==
            (match Exec(size, args, code, first)
             case None => None
             case Some(vals) => match Result(size, args, i, vals) case None => None case Some(v) => Some(vals + [v]))
  {
    hide Result;
    assert (code + [i])[..|code|] == code;
  }

  lemma {:induction false} ZExtsRun(size: Size, args: seq<Word>, n: nat)
    requires n <= |args|
    ensures |ZExts(n)| == n && Exec(size, args, ZExts(n), []) == Some(args[..n])
  {
    hide Compute, Pow2;
    if n > 0 {
      ZExtsRun(size, args, n - 1);
      ExecAppend(size, args, ZExts(n - 1), ZExt(n - 1), []);
      assert args[..n - 1] + [args[n - 1]] == args[..n];
    }
  }

  /** What packing asks of a window of arguments. */
  predicate Packable(size: Size, ws: seq<nat>, args: seq<Word>) {
    ws != [] && Fits(ws, args) && SumFrom(ws, 0) <= BitWidth(size) && forall k :: 0 <= k < |ws| ==> ws[k] > 0
  }

  /** The values after merging from j on: the zero extensions come first, the merged number last. */
  ghost predicate CallerAt(size: Size, ws: seq<nat>, args: seq<Word>, j: nat, code: seq<Inst>, last: int) {
    && code != [] && |args| == |ws| <= |code|
    && Exec(size, args, code, []).Some?
    && var vals := Exec(size, args, code, []).value;
       |vals| == |code| && vals[..|ws|] == args && vals[|code| - 1] == last
  }

  lemma MergeXor(size: Size, ws: seq<nat>, args: seq<Word>, j: nat, code: seq<Inst>)
    requires Packable(size, ws, args) && j + 1 < |ws|
    requires CallerAt(size, ws, args, j + 1, code, Mixed(ws, args, j + 1) * Pow2(ws[j]))
    ensures CallerAt(size, ws, args, j, code + [XorInst(|code| - 1, j)], Mixed(ws, args, j))
  {
    hide Compute, Pow2;
    MixedBound(ws, args, j);
    SumSuffix(ws, 0, j);
    Pow2Monotone(SumFrom(ws, j), BitWidth(size));
    ExactXor(size, Mixed(ws, args, j + 1), ws[j], args[j]);
    ExecAppend(size, args, code, XorInst(|code| - 1, j), []);
    var vals := Exec(size, args, code, []).value;
    assert vals[j] == vals[..|ws|][j];
  }

  lemma MergeMul(size: Size, ws: seq<nat>, args: seq<Word>, j: nat, code: seq<Inst>)
    requires Packable(size, ws, args) && 0 < j < |ws|
    requires CallerAt(size, ws, args, j, code, Mixed(ws, args, j))
    ensures CallerAt(size, ws, args, j, code + [MulNUW(|code| - 1, Pow2(ws[j - 1]))], Mixed(ws, args, j) * Pow2(ws[j - 1]))
  {
    hide Compute, Pow2;
    MixedBound(ws, args, j - 1);
    MixedBound(ws, args, j);
    SumSuffix(ws, 0, j - 1);
    Pow2Monotone(SumFrom(ws, j), BitWidth(size));
    Pow2Monotone(SumFrom(ws, j - 1), BitWidth(size));
    WidthBelow(size, ws, args, j - 1);
    ExactFactor(size, Mixed(ws, args, j), Pow2(ws[j - 1]));
    ExecAppend(size, args, code, MulNUW(|code| - 1, Pow2(ws[j - 1])), []);
  }

  /** Every argument but the last leaves room above it, so its radix is a constant of the pack's type. */
  lemma WidthBelow(size: Size, ws: seq<nat>, args: seq<Word>, k: nat)
    requires Packable(size, ws, args) && k + 1 < |ws|
    ensures 0 < Pow2(ws[k]) < Pow2(BitWidth(size))
  {
    SumSuffix(ws, 0, k);
    assert SumFrom(ws, k) == ws[k] + (ws[k + 1] + SumFrom(ws, k + 2));
    Pow2Monotone(ws[k], BitWidth(size));
  }

  /** What the code computes from j on, before it reaches argument j - 1. */
  function Merged(ws: seq<nat>, args: seq<Word>, j: nat): nat
    requires |args| == |ws| && j < |ws|
  {
    if j > 0 then Mixed(ws, args, j) * Pow2(ws[j - 1]) else Mixed(ws, args, 0)
  }

  lemma {:induction false} CallerRuns(size: Size, ws: seq<nat>, args: seq<Word>, j: nat)
    requires Packable(size, ws, args) && j < |ws|
    ensures CallerAt(size, ws, args, j, CallerCode(ws, j), Merged(ws, args, j))
    decreases |ws| - j
  {
    hide Exec, Pow2, Mixed, CallerAt;
    var code := CallerCode(ws, j + 1);
    var merged := if j + 1 < |ws| then code + [XorInst(|code| - 1, j)] else code;
    if j + 1 < |ws| {
      CallerRuns(size, ws, args, j + 1);
      MergeXor(size, ws, args, j, code);
    } else {
      CallerStarts(size, ws, args);
    }
    assert CallerAt(size, ws, args, j, merged, Mixed(ws, args, j));
    if j > 0 {
      MergeMul(size, ws, args, j, merged);
    }
  }

  lemma CallerStarts(size: Size, ws: seq<nat>, args: seq<Word>)
    requires Packable(size, ws, args)
    ensures CallerAt(size, ws, args, |ws| - 1, CallerCode(ws, |ws|), Mixed(ws, args, |ws| - 1))
  {
    hide Exec, Pow2;
    ZExtsRun(size, args, |ws|);
    assert args[..|ws|] == args;
    LastIsMixed(ws, args);
  }

  lemma LastIsMixed(ws: seq<nat>, args: seq<Word>)
    requires |args| == |ws| > 0
    ensures Mixed(ws, args, |ws| - 1) == args[|ws| - 1]
  {
    assert Mixed(ws, args, |ws|) == 0;
  }

  /** After j arguments: what remains is the number formed by the others, and the arguments so far are recovered. */
  ghost predicate CalleeAt(size: Size, ws: seq<nat>, args: seq<Word>, j: nat, s: CalleeState, packed: Word) {
    && 0 < j <= |ws| == |args| && |s.toBeTrunc| == j
    && Exec(size, [], s.code, [packed]).Some?
    && var vals := Exec(size, [], s.code, [packed]).value;
       && |vals| == |s.code| + 1 && s.rem < |vals| && vals[s.rem] == Mixed(ws, args, j - 1)
       && forall k :: 0 <= k < j ==> s.toBeTrunc[k] < |vals| && vals[s.toBeTrunc[k]] == args[k]
  }

  lemma CalleeDiv(size: Size, ws: seq<nat>, args: seq<Word>, j: nat, s: CalleeState, packed: Word)
    requires Packable(size, ws, args) && 0 < j < |ws| && CalleeAt(size, ws, args, j, s, packed)
    ensures var code := s.code + [UDivInst(s.rem, Pow2(ws[j - 1]))];
            && Exec(size, [], code, [packed]).Some?
            && var vals := Exec(size, [], code, [packed]).value;
               && |vals| == |code| + 1 && vals[|code|] == Mixed(ws, args, j)
               && forall k :: 0 <= k < j ==> s.toBeTrunc[k] < |vals| && vals[s.toBeTrunc[k]] == args[k]
  {
    hide Compute, Pow2;
    MixedBound(ws, args, j - 1);
    SumSuffix(ws, 0, j - 1);
    Pow2Monotone(SumFrom(ws, j - 1), BitWidth(size));
    WidthBelow(size, ws, args, j - 1);
    ExactFactor(size, Mixed(ws, args, j - 1), Pow2(ws[j - 1]));
    MixedSplit(ws, args, j - 1);
    ExecAppend(size, [], s.code, UDivInst(s.rem, Pow2(ws[j - 1])), [packed]);
  }

  /** The remainder after the divisions is the next argument, or the last one itself. */
  lemma CalleeRem(size: Size, ws: seq<nat>, args: seq<Word>, j: nat, code: seq<Inst>, rem: nat, vals: seq<Word>, packed: Word)
    requires Packable(size, ws, args) && j + 1 < |ws|
    requires Exec(size, [], code, [packed]) == Some(vals) && |vals| == |code| + 1 && rem < |vals| && vals[rem] == Mixed(ws, args, j)
    ensures Exec(size, [], code + [URemInst(rem, Pow2(ws[j]))], [packed]) == Some(vals + [args[j]])
  {
    hide Compute, Pow2;
    MixedBound(ws, args, j);
    SumSuffix(ws, 0, j);
    Pow2Monotone(SumFrom(ws, j), BitWidth(size));
    WidthBelow(size, ws, args, j);
    ExactFactor(size, Mixed(ws, args, j), Pow2(ws[j]));
    MixedSplit(ws, args, j);
    ExecAppend(size, [], code, URemInst(rem, Pow2(ws[j])), [packed]);
  }

  /** One more argument is recovered: through a remainder, or, the last one, as what remains. */
  lemma CalleeFinish(size: Size, ws: seq<nat>, args: seq<Word>, j: nat, code: seq<Inst>, rem: nat, found: seq<nat>, packed: Word)
    requires Packable(size, ws, args) && j < |ws| && |found| == j
    requires Exec(size, [], code, [packed]).Some? && |Exec(size, [], code, [packed]).value| == |code| + 1
    requires rem <= |code| && Exec(size, [], code, [packed]).value[rem] == Mixed(ws, args, j)
    requires forall k :: 0 <= k < j ==> found[k] <= |code| && Exec(size, [], code, [packed]).value[found[k]] == args[k]
    ensures j + 1 < |ws| ==> CalleeAt(size, ws, args, j + 1, CalleeState(code + [URemInst(rem, Pow2(ws[j]))], rem, found + [|code| + 1]), packed)
    ensures j + 1 == |ws| ==> CalleeAt(size, ws, args, j + 1, CalleeState(code, rem, found + [rem]), packed)
  {
    hide Pow2, Result, Packable;
    PackableLength(size, ws, args);
    if j + 1 < |ws| {
      CalleeRem(size, ws, args, j, code, rem, Exec(size, [], code, [packed]).value, packed);
    } else {
      LastIsMixed(ws, args);
    }
    hide Exec;
  }

  lemma PackableLength(size: Size, ws: seq<nat>, args: seq<Word>)
    requires Packable(size, ws, args)
    ensures |args| == |ws|
  {
  }

  lemma NothingRun(size: Size, packed: Word)
    ensures Exec(size, [], [], [packed]) == Some([packed])
  {
  }

  lemma {:induction false} CalleeRuns(size: Size, ws: seq<nat>, args: seq<Word>, j: nat, packed: Word)
    requires Packable(size, ws, args) && 0 < j <= |ws| && packed == Mixed(ws, args, 0)
    ensures CalleeAt(size, ws, args, j, CalleeCode(ws, j), packed)
  {
    hide Pow2, Packable, Exec;
    var s := CalleeCode(ws, j - 1);
    var code := if j > 1 then s.code + [UDivInst(s.rem, Pow2(ws[j - 2]))] else s.code;
    if j > 1 {
      CalleeRuns(size, ws, args, j - 1, packed);
      CalleeDiv(size, ws, args, j - 1, s, packed);
    } else {
      NothingRun(size, packed);
    }
    hide Mixed;
    CalleeFinish(size, ws, args, j - 1, code, if j > 1 then |code| else 0, s.toBeTrunc, packed);
  }

  /** For every window that fits the pack, the callee recovers each argument from what the caller passes; no
      multiplication overflows and nothing traps. */
  lemma PackingRoundTrip(size: Size, ws: seq<nat>, args: seq<Word>)
    requires Packable(size, ws, args)
    ensures var caller := Exec(size, args, CallerCode(ws, 0), []);
            && caller.Some? && caller.value != []
            && var packed := caller.value[|caller.value| - 1];
               var callee := Exec(size, [], CalleeCode(ws, |ws|).code, [packed]);
               && packed == Mixed(ws, args, 0)
               && callee.Some?
               && forall k :: 0 <= k < |ws| ==>
                    var at := CalleeCode(ws, |ws|).toBeTrunc[k];
                    at < |callee.value| && ws[k] <= 64 && Truncate(ws[k], callee.value[at]) == args[k]
  {
    hide Exec, Pow2, Truncate;
    CallerRuns(size, ws, args, 0);
    CalleeRuns(size, ws, args, |ws|, Mixed(ws, args, 0));
    forall k | 0 <= k < |ws|
      ensures ws[k] <= 64 && Truncate(ws[k], args[k]) == args[k]
    {
      SumSuffix(ws, 0, k);
      TruncateSmall(ws[k], args[k]);
    }
  }
}
