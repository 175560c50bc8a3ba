/** Integer casts: the instruction sequences Backend.cpp emits for sext, zext and trunc. */
module Casts {
  import opened Words
  import opened Interp

  /** r = mul x, 2^(64-bw) ; r = ashr r, 64-bw  (for bw == 64: r = mul x, 1). */
  function SExtCode(bw: nat, x: Word): Option<Word>
    requires 1 <= bw <= 64
  {
    if bw < 64 then
      Pow2Of64();
      Pow2Monotone(64 - bw, 64);
      match Compute(Mul, Size64, x, Pow2(64 - bw))
      case None => None
      case Some(m) => Compute(Ashr, Size64, m, 64 - bw)
    else
      Compute(Mul, Size64, x, 1)
  }

  /** The lowering used by the unoptimised backend: s = and x, 2^(bw-1); s = sub 0, s; r = or s, x. */
  function OldSExtCode(bw: nat, x: Word): Option<Word>
    requires 1 <= bw <= 64
  {
    Pow2Of64();
    Pow2Monotone(bw - 1, 64);
    match Compute(And, Size64, x, Pow2(bw - 1))
    case None => None
    case Some(s) => OldSExtRest(s, x)
  }

  function OldSExtRest(s: Word, x: Word): Option<Word> {
    match Compute(Sub, Size64, 0, s)
    case None => None
    case Some(n) => Compute(Or, Size64, n, x)
  }

  lemma WholeWord(x: Word)
    ensures Truncate(64, x) == x && SignExtend(64, x) == x
    ensures Wrap(x) == x && Wrap(AsSigned(x)) == x
  {
    Pow2Of64();
    DivModUnique(x, W64, 0, x);
    if x >= 0x8000_0000_0000_0000 {
      DivModUnique(x - W64, W64, -1, x);
    }
  }

  lemma WholeOperands(kind: BopKind, a: Word, b: Word)
    ensures GetOp1(kind, Size64, a) == a
    ensures !IsShiftOp(kind) || b < 64 ==> GetOp2(kind, Size64, b) == b
  {
    WholeWord(a);
    WholeWord(b);
    if b < 64 {
      DivModUnique(b, 64, 0, b);
    }
  }

  lemma WholeResult(r: Option<Word>)
    ensures GetResult(Size64, r) == r
  {
    if r.Some? {
      WholeWord(r.value);
    }
  }

  /** A full-width operation is its raw result. */
  lemma Compute64(kind: BopKind, a: Word, b: Word)
    requires !IsShiftOp(kind) || b < 64
    ensures Compute(kind, Size64, a, b) == RawResult(kind, a, b)
  {
    WholeOperands(kind, a, b);
    WholeResult(RawResult(kind, a, b));
  }

  lemma CopyIsIdentity(x: Word)
    ensures Compute(Mul, Size64, x, 1) == Some(x)
  {
    Compute64(Mul, x, 1);
    WholeWord(x);
  }

  /** `urem x, 2^w` keeps exactly the low w bits, as `and x, 2^w - 1` does. */
  lemma TruncIsURem(w: nat, x: Word)
    requires w < 64
    ensures Pow2(w) < W64
    ensures Compute(Urem, Size64, x, Pow2(w)) == Some(Truncate(w, x))
    ensures Compute(And, Size64, x, Pow2(w) - 1) == Some(Truncate(w, x))
  {
    hide Compute;
    Pow2Of64();
    Pow2Monotone(w, 64);
    Compute64(Urem, x, Pow2(w));
    Compute64(And, x, Pow2(w) - 1);
    hide Pow2, Bitwise;
    WholeWord(Truncate(w, x));
    AndLowMask(x, w);
  }

  // ---- arithmetic behind the lowering: x holds a bw-bit field of 2h values, shifted up by the factor p ----

  lemma ScaledRemainder(x: int, m: int, p: int)
    requires m > 0 && p > 0
    ensures m * p > 0 && (x * p) % (m * p) == (x % m) * p
  {
    var q, t := x / m, x % m;
    MulMonotone(1, m, p);
    MulMonotone(t + 1, m, p);
    assert (t + 1) * p == t * p + p;
    assert x * p == q * (m * p) + t * p by {
      assert x == q * m + t;
      assert (q * m + t) * p == (q * m) * p + t * p;
      assert (q * m) * p == q * (m * p);
    }
    DivModUnique(x * p, m * p, q, t * p);
  }

  lemma ScaledSign(t: int, h: int, p: int)
    requires 0 <= t < 2 * h && p > 0 && h * p == 0x8000_0000_0000_0000
    ensures 0 <= t * p < W64
    ensures AsSigned(t * p) / p == if t < h then t else t - 2 * h
  {
    MulMonotone(t + 1, 2 * h, p);
    MulMonotone(t + 1, h, p);
    MulMonotone(h, t, p);
    assert (t + 1) * p == t * p + p;
    assert (2 * h) * p == 2 * (h * p);
    assert (t - 2 * h) * p == t * p - (2 * h) * p;
    DivModUnique(t * p, p, t, 0);
    DivModUnique(t * p - W64, p, t - 2 * h, 0);
  }

  /** For every register content the emitted pair is two's-complement sign extension of the low bw bits. */
  lemma SExtCodeExtends(bw: nat, x: Word)
    requires 1 <= bw <= 64
    ensures SExtCode(bw, x) == Some(SignExtend(bw, x))
  {
    if bw == 64 {
      CopyIsIdentity(x);
      WholeWord(x);
    } else {
      assert Pow2(1) == 2;
      hide Interp.Compute, Pow2;
      Pow2Of64();
      Pow2Monotone(64 - bw, 64);
      Pow2Add(bw, 64 - bw);
      Pow2Add(bw - 1, 64 - bw);
      Pow2Add(1, 63);
      var p, t := Pow2(64 - bw), Truncate(bw, x);
      ScaledRemainder(x, Pow2(bw), p);
      ScaledSign(t, Pow2(bw - 1), p);
      Compute64(Mul, x, p);
      Compute64(Ashr, t * p, 64 - bw);
    }
  }

  /** Isolating bit k of a (k+1)-bit number. */
  lemma TopBit(k: nat, x: nat)
    requires x < 2 * Pow2(k)
    ensures Bitwise(BitAnd, x, Pow2(k)) == if x < Pow2(k) then 0 else Pow2(k)
  {
    var p := Pow2(k);
    BitwiseSplit(BitAnd, x, p, k);
    HighLowOf(1, 0, k);
    HighLowOf(if x < p then 0 else 1, if x < p then x else x - p, k);
    ZeroIsUnit(BitAnd, Low(x, k));
    ZeroIsUnit(BitAnd, 1);
    assert Bitwise(BitAnd, 1, 1) == 1;
  }

  lemma OrOne(q: nat)
    requires q % 2 == 1
    ensures Bitwise(BitOr, q, 1) == q
  {
    BitwiseStep(BitOr, q, 1);
    ZeroIsUnit(BitOr, q / 2);
  }

  /** Or-ing odd high bits onto a number whose bit k is set. */
  lemma SignBitsFilled(k: nat, q: nat, low: nat)
    requires low < Pow2(k) && q % 2 == 1
    ensures q * Pow2(k) >= 0
    ensures Bitwise(BitOr, q * Pow2(k), Pow2(k) + low) == q * Pow2(k) + low
  {
    hide Pow2, Bitwise;
    HighLowOf(q, 0, k);
    HighLowOf(1, low, k);
    BitwiseSplit(BitOr, q * Pow2(k), Pow2(k) + low, k);
    ZeroIsUnit(BitOr, low);
    OrOne(q);
  }

  lemma WrapNegative(n: nat)
    requires n < W64
    ensures Wrap(0 - n) == if n == 0 then 0 else W64 - n
  {
    var x: int := 0 - n;
    DivModUnique(x, W64, if n == 0 then 0 else -1, if n == 0 then 0 else W64 - n);
  }

  lemma OldAndStep(k: nat, x: Word)
    requires k < 64 && x < 2 * Pow2(k)
    ensures Pow2(k) < W64
    ensures Compute(And, Size64, x, Pow2(k)) == Some(if x < Pow2(k) then 0 else Pow2(k))
  {
    Pow2Of64();
    Pow2Monotone(k, 64);
    Compute64(And, x, Pow2(k));
    TopBit(k, x);
  }

  lemma OneLess(n: nat, h: nat, p: nat, w: nat) returns (q: nat)
    requires n == 2 * h && h > 0 && p * n == w
    ensures q % 2 == 1 && q * p == w - p && 2 * p <= w
  {
    MulMonotone(1, h, p);
    assert p * n == 2 * (h * p);
    q := n - 1;
    assert (n - 1) * p == n * p - p;
  }

  lemma AllOnesAbove(k: nat) returns (q: nat)
    requires k < 64
    ensures q % 2 == 1 && q * Pow2(k) == W64 - Pow2(k) && 2 * Pow2(k) <= W64
  {
    assert Pow2(64 - k) == 2 * Pow2(63 - k);
    hide Pow2;
    Pow2Of64();
    Pow2Add(k, 64 - k);
    q := OneLess(Pow2(64 - k), Pow2(63 - k), Pow2(k), W64);
  }

  lemma OrFillsSign(k: nat, x: nat)
    requires k < 64 && Pow2(k) <= x < 2 * Pow2(k)
    ensures 2 * Pow2(k) <= W64
    ensures Bitwise(BitOr, W64 - Pow2(k), x) == W64 - 2 * Pow2(k) + x
  {
    var q := AllOnesAbove(k);
    SignBitsFilled(k, q, x - Pow2(k));
  }

  lemma OldOrStep(k: nat, x: Word)
    requires k < 64 && Pow2(k) <= x < 2 * Pow2(k)
    ensures 0 < Pow2(k) && 2 * Pow2(k) <= W64
    ensures Compute(Or, Size64, W64 - Pow2(k), x) == Some(W64 - 2 * Pow2(k) + x)
  {
    hide Bitwise, Pow2, Compute;
    OrFillsSign(k, x);
    var high: Word := W64 - Pow2(k);
    Compute64(Or, high, x);
  }

  lemma SubFromZero(s: Word)
    ensures Compute(Sub, Size64, 0, s) == Some(if s == 0 then 0 else W64 - s)
  {
    Compute64(Sub, 0, s);
    WrapNegative(s);
  }

  lemma OrWithZero(x: Word)
    ensures Compute(Or, Size64, 0, x) == Some(x)
  {
    Compute64(Or, 0, x);
    ZeroIsUnit(BitOr, x);
  }

  lemma SignOfCanonical(bw: nat, x: Word)
    requires 1 <= bw <= 64 && x < Pow2(bw)
    ensures Pow2(bw) <= W64
    ensures SignExtend(bw, x) == if x < Pow2(bw - 1) then x else W64 - Pow2(bw) + x
  {
    Pow2Of64();
    Pow2Monotone(bw, 64);
    DivModUnique(x, Pow2(bw), 0, x);
    WholeWord(x);
    if x >= Pow2(bw - 1) {
      WrapNegative(Pow2(bw) - x);
    }
  }

  /** On zero-extended inputs the older and/sub/or lowering agrees. */
  lemma OldSExtAgrees(bw: nat, x: Word)
    requires 1 <= bw <= 64 && x < Pow2(bw)
    ensures OldSExtCode(bw, x) == SExtCode(bw, x)
  {
    hide Bitwise, Interp.Compute, SExtCode, SignExtend, OldSExtRest;
    assert Pow2(bw) == 2 * Pow2(bw - 1);
    hide Pow2;
    SExtCodeExtends(bw, x);
    SignOfCanonical(bw, x);
    OldAndStep(bw - 1, x);
    OldRestStep(bw - 1, x);
  }

  lemma OldRestStep(k: nat, x: Word)
    requires k < 64 && x < 2 * Pow2(k)
    ensures 2 * Pow2(k) <= W64
    ensures x < Pow2(k) ==> OldSExtRest(0, x) == Some(x)
    ensures x >= Pow2(k) ==> OldSExtRest(Pow2(k), x) == Some(W64 - 2 * Pow2(k) + x)
  {
    hide Interp.Compute;
    var q := AllOnesAbove(k);
    if x < Pow2(k) {
      SubFromZero(0);
      OrWithZero(x);
    } else {
      SubFromZero(Pow2(k));
      OldOrStep(k, x);
    }
  }

  /** The sign extension is itself a zero-extended w-bit value exactly when w is 64 or the sign bit is clear. */
  lemma SExtCanonicalIff(bw: nat, w: nat, x: Word)
    requires 1 <= bw < w <= 64
    ensures SignExtend(bw, x) < Pow2(w) <==> (w == 64 || Truncate(bw, x) < Pow2(bw - 1))
  {
    Pow2Of64();
    Pow2Monotone(bw, w);
    Pow2Monotone(w, 64);
    var t := Truncate(bw, x);
    if t < Pow2(bw - 1) {
      DivModUnique(t, W64, 0, t);
    } else {
      WrapNegative(Pow2(bw) - t);
    }
  }
}
