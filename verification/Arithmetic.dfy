/** What the interpreter's binary operations mean, by width (StmtBop::compute of interpreter/src/stmt.cpp). */
module Arithmetic {
  import opened Words
  import opened Interp

  // ---- signed operands ----

  lemma SignedRange(w: nat, x: Word)
    requires 1 <= w <= 64
    ensures -0x8000_0000_0000_0000 <= SignedValue(w, x) < 0x8000_0000_0000_0000
    ensures -(Pow2(w - 1) as int) <= SignedValue(w, x) < Pow2(w - 1)
  {
    Pow2Of64();
    Pow2Monotone(w - 1, 63);
    assert Pow2(64) == 2 * Pow2(63);
    assert Pow2(w) == 2 * Pow2(w - 1);
    hide Pow2;
  }

  /** An operand prepared for a signed operation reads back as its signed value. */
  lemma SignedOperand(w: nat, x: Word)
    requires 1 <= w <= 64
    ensures AsSigned(SignExtend(w, x)) == SignedValue(w, x)
  {
    SignedRange(w, x);
    var v := SignedValue(w, x);
    hide SignedValue, Pow2;
    if v >= 0 {
      DivModUnique(v, W64, 0, v);
    } else {
      DivModUnique(v, W64, -1, v + W64);
    }
  }

  lemma FlagKept(size: Size, b: bool)
    ensures GetResult(size, Some(Flag(b))) == Some(Flag(b))
  {
    Pow2Monotone(1, BitWidth(size));
    assert Pow2(1) == 2;
    TruncateSmall(BitWidth(size), Flag(b));
  }

  /** A signed operation works on the signed values of its operands. */
  lemma SignedOperands(kind: BopKind, size: Size, x: Word, y: Word)
    requires IsSignedOp(kind) && !IsShiftOp(kind)
    ensures AsSigned(GetOp1(kind, size, x)) == SignedValue(BitWidth(size), x)
    ensures AsSigned(GetOp2(kind, size, y)) == SignedValue(BitWidth(size), y)
  {
    SignedOperand(BitWidth(size), x);
    SignedOperand(BitWidth(size), y);
  }

  /** Comparisons of the low bits as unsigned numbers. */
  lemma UnsignedComparisons(size: Size, x: Word, y: Word)
    ensures var a, b := Truncate(BitWidth(size), x), Truncate(BitWidth(size), y);
            && Compute(Eq, size, x, y) == Some(if a == b then 1 else 0)
            && Compute(Ne, size, x, y) == Some(if a == b then 0 else 1)
            && Compute(Ult, size, x, y) == Some(if a < b then 1 else 0)
            && Compute(Ule, size, x, y) == Some(if b < a then 0 else 1)
            && Compute(Ugt, size, x, y) == Some(if b < a then 1 else 0)
            && Compute(Uge, size, x, y) == Some(if a < b then 0 else 1)
  {
    hide Truncate, GetResult, Compute, BitWidth;
    FlagKept(size, true);
    FlagKept(size, false);
    UnsignedCompute(Eq, size, x, y);
    UnsignedCompute(Ne, size, x, y);
    UnsignedCompute(Ult, size, x, y);
    UnsignedCompute(Ule, size, x, y);
    UnsignedCompute(Ugt, size, x, y);
    UnsignedCompute(Uge, size, x, y);
  }

  /** Comparisons of the low bits as two's-complement numbers. */
  lemma SignedComparisons(size: Size, x: Word, y: Word)
    ensures var a, b := SignedValue(BitWidth(size), x), SignedValue(BitWidth(size), y);
            && Compute(Slt, size, x, y) == Some(if a < b then 1 else 0)
            && Compute(Sle, size, x, y) == Some(if b < a then 0 else 1)
            && Compute(Sgt, size, x, y) == Some(if b < a then 1 else 0)
            && Compute(Sge, size, x, y) == Some(if a < b then 0 else 1)
  {
    hide Truncate, GetResult, BitWidth, SignedValue, GetOp1, GetOp2, AsSigned;
    FlagKept(size, true);
    FlagKept(size, false);
    SignedOperands(Slt, size, x, y);
    SignedOperands(Sle, size, x, y);
    SignedOperands(Sgt, size, x, y);
    SignedOperands(Sge, size, x, y);
  }

  // ---- sums, differences, products ----

  lemma DivMod(x: int, p: int) returns (q: int, r: int)
    requires p != 0
    ensures q == x / p && r == x % p && x == q * p + r && 0 <= r < if p < 0 then -p else p
  {
    q, r := x / p, x % p;
  }

  lemma Distribute(q: int, r: int, p: int)
    ensures (q + r) * p == q * p + r * p && (q - r) * p == q * p - r * p && (-q) * p == -(q * p)
  {
  }

  lemma ModSum(x: int, y: int, p: int)
    requires p > 0
    ensures (x % p + y % p) % p == (x + y) % p
  {
    var q, a := DivMod(x, p);
    var r, b := DivMod(y, p);
    Distribute(q, r, p);
    ModShift(a + b, p, q + r);
  }

  lemma ModDifference(x: int, y: int, p: int)
    requires p > 0
    ensures (x % p - y % p) % p == (x - y) % p
  {
    var q, a := DivMod(x, p);
    var r, b := DivMod(y, p);
    Distribute(q, r, p);
    ModShift(a - b, p, q - r);
  }

  lemma ModProduct(x: int, y: int, p: int)
    requires p > 0
    ensures ((x % p) * (y % p)) % p == (x * y) % p
  {
    var q, r, a, b := x / p, y / p, x % p, y % p;
    assert x == q * p + a && y == r * p + b;
    var k := -(q * y) - a * r;
    assert x * y == (q * p + a) * y;
    assert (q * p + a) * y == (q * p) * y + a * y;
    assert (q * p) * y == (q * y) * p;
    assert a * y == a * (r * p) + a * b by {
      assert a * (r * p + b) == a * (r * p) + a * b;
    }
    assert a * (r * p) == (a * r) * p;
    assert a * b == x * y + k * p by {
      assert k * p == -((q * y) * p) - (a * r) * p;
    }
    ModShift(x * y, p, k);
  }

  /** Sums, differences and products are taken modulo 2^w. */
  lemma SumsAndProducts(size: Size, x: Word, y: Word)
    ensures var p := Pow2(BitWidth(size));
            && Compute(Add, size, x, y) == Some((x + y) % p)
            && Compute(Sub, size, x, y) == Some(((x as int) - (y as int)) % p)
            && Compute(Mul, size, x, y) == Some((x * y) % p)
  {
    hide Truncate, Pow2, Compute, BitWidth, GetResult;
    var w := BitWidth(size);
    ModSum(x, y, Pow2(w));
    ModDifference(x, y, Pow2(w));
    ModProduct(x, y, Pow2(w));
    TruncateIs(w, x);
    TruncateIs(w, y);
    UnsignedCompute(Add, size, x, y);
    UnsignedCompute(Sub, size, x, y);
    UnsignedCompute(Mul, size, x, y);
    ResultIs(size, Truncate(w, x) + Truncate(w, y));
    ResultIs(size, (Truncate(w, x) as int) - (Truncate(w, y) as int));
    ResultIs(size, Truncate(w, x) * Truncate(w, y));
  }

  lemma TruncateIs(w: nat, x: Word)
    requires w <= 64
    ensures Truncate(w, x) == x % Pow2(w)
  {
    hide Pow2;
  }

  // ---- quotients and remainders ----

  /** q and r are quotient and remainder of a by b, truncated towards zero: the remainder has the sign of a. */
  predicate TruncatesTo(a: int, b: int, q: int, r: int) {
    && a == q * b + r
    && (if b < 0 then -b else b) > (if r < 0 then -r else r)
    && (if a >= 0 then r >= 0 else r <= 0)
  }

  lemma TruncatedDivision(a: int, b: int)
    requires b != 0
    ensures TruncatesTo(a, b, TruncatedDiv(a, b), a - TruncatedDiv(a, b) * b)
  {
    if a >= 0 {
      var q, r := DivMod(a, b);
      QuotientOf(a, b, q, r);
    } else {
      var q, r := DivMod(-a, b);
      Distribute(q, q, b);
      QuotientOf(a, b, -q, -r);
    }
  }

  lemma QuotientOf(a: int, b: int, q: int, r: int)
    requires a == q * b + r && (if b < 0 then -b else b) > (if r < 0 then -r else r)
    requires if a >= 0 then r >= 0 else r <= 0
    ensures TruncatesTo(a, b, q, a - q * b)
  {
    assert a - q * b == r;
  }

  lemma EuclideanDivision(a: nat, b: nat)
    requires b != 0
    ensures TruncatesTo(a, b, a / b, a % b)
  {
    var q, r := DivMod(a, b);
  }

  /** Unsigned division of the low bits; a division by zero traps. */
  lemma UnsignedDivision(size: Size, x: Word, y: Word) returns (q: int, r: int)
    ensures Truncate(BitWidth(size), y) == 0 ==> Compute(Udiv, size, x, y) == None && Compute(Urem, size, x, y) == None
    ensures Truncate(BitWidth(size), y) != 0 ==>
              && TruncatesTo(Truncate(BitWidth(size), x), Truncate(BitWidth(size), y), q, r)
              && Compute(Udiv, size, x, y) == Some(q % Pow2(BitWidth(size)))
              && Compute(Urem, size, x, y) == Some(r % Pow2(BitWidth(size)))
  {
    hide Truncate, Pow2, Compute, GetResult, BitWidth;
    var w := BitWidth(size);
    var a, b := Truncate(w, x), Truncate(w, y);
    UnsignedCompute(Udiv, size, x, y);
    UnsignedCompute(Urem, size, x, y);
    q, r := 0, 0;
    if b != 0 {
      q, r := a / b, a % b;
      EuclideanDivision(a, b);
    }
    hide TruncatesTo;
    ResultIs(size, q);
    ResultIs(size, r);
    ResultNone(size);
  }

  lemma ResultIs(size: Size, v: int)
    ensures GetResult(size, Some(Wrap(v))) == Some(v % Pow2(BitWidth(size)))
  {
    TruncateWrap(BitWidth(size), v);
    hide Truncate, Pow2, Wrap;
  }

  lemma ResultNone(size: Size)
    ensures GetResult(size, None) == None
  {
  }

  /** Signed division of the low bits read as two's-complement numbers. */
  lemma SignedDivision(size: Size, x: Word, y: Word) returns (q: int, r: int)
    ensures SignedValue(BitWidth(size), y) == 0 ==> Compute(Sdiv, size, x, y) == None && Compute(Srem, size, x, y) == None
    ensures SignedValue(BitWidth(size), y) != 0 ==>
              && TruncatesTo(SignedValue(BitWidth(size), x), SignedValue(BitWidth(size), y), q, r)
              && Compute(Sdiv, size, x, y) == Some(q % Pow2(BitWidth(size)))
              && Compute(Srem, size, x, y) == Some(r % Pow2(BitWidth(size)))
  {
    var w := BitWidth(size);
    var a, b := SignedValue(w, x), SignedValue(w, y);
    SignedOperand(w, x);
    SignedOperand(w, y);
    assert SignExtend(w, y) == 0 <==> b == 0;
    hide Truncate, SignedValue, SignExtend, Pow2;
    q, r := 0, 0;
    if b != 0 {
      TruncatedDivision(a, b);
      q := TruncatedDiv(a, b);
      r := a - q * b;
      TruncateWrap(w, q);
      TruncateWrap(w, r);
    }
  }

  // ---- shifts ----

  /** Shifts by the amount modulo the width: left and logical right on the low bits, arithmetic right on the signed value. */
  lemma Shifts(size: Size, x: Word, y: Word)
    ensures var w := BitWidth(size);
            var p := Pow2(y % w);
            && Compute(Shl, size, x, y) == Some((Truncate(w, x) * p) % Pow2(w))
            && Compute(Lshr, size, x, y) == Some(Truncate(w, x) / p)
            && Compute(Ashr, size, x, y) == Some((SignedValue(w, x) / p) % Pow2(w))
  {
    hide Truncate, SignedValue, SignExtend, Pow2, Wrap, GetResult, BitWidth, AsSigned;
    var w := BitWidth(size);
    var p := Pow2(y % w);
    SignedOperand(w, x);
    ResultIs(size, Truncate(w, x) * p);
    ResultIs(size, Truncate(w, x) / p);
    ResultIs(size, SignedValue(w, x) / p);
    QuotientSmall(Truncate(w, x), p, Pow2(w));
  }

  lemma QuotientSmall(a: nat, p: nat, m: nat)
    requires p > 0 && a < m
    ensures 0 <= a / p < m && (a / p) % m == a / p
  {
    DivPositive(a, p);
    MulMonotone(1, p, a / p);
    assert a == (a / p) * p + a % p;
    DivModUnique(a / p, m, 0, a / p);
  }

  // ---- bits ----

  /** Bit k of a number. */
  function BitAt(a: nat, k: nat): int { (a / Pow2(k)) % 2 }

  /** The operators work bit by bit. */
  lemma {:induction false} BitByBit(op: Bitop, a: nat, b: nat, k: nat)
    ensures BitAt(Bitwise(op, a, b), k) == 1 <==>
            match op
            case BitAnd => BitAt(a, k) == 1 && BitAt(b, k) == 1
            case BitOr => BitAt(a, k) == 1 || BitAt(b, k) == 1
            case BitXor => BitAt(a, k) != BitAt(b, k)
    decreases k
  {
    BitwiseStep(op, a, b);
    if k > 0 {
      HalfSplit(a, k - 1);
      HalfSplit(b, k - 1);
      HalfSplit(Bitwise(op, a, b), k - 1);
      BitByBit(op, a / 2, b / 2, k - 1);
      var r := Bitwise(op, a / 2, b / 2);
      assert Bitwise(op, a, b) / 2 == r;
    }
    hide Bitwise;
  }

  /** Bitwise operations on the low bits. */
  lemma BitwiseOperations(size: Size, x: Word, y: Word)
    ensures var a, b := Truncate(BitWidth(size), x), Truncate(BitWidth(size), y);
            && Compute(And, size, x, y) == Some(Bitwise(BitAnd, a, b))
            && Compute(Or, size, x, y) == Some(Bitwise(BitOr, a, b))
            && Compute(Xor, size, x, y) == Some(Bitwise(BitXor, a, b))
  {
    hide Truncate, Bitwise, Pow2, Compute, BitWidth;
    UnsignedCompute(And, size, x, y);
    UnsignedCompute(Or, size, x, y);
    UnsignedCompute(Xor, size, x, y);
    BitwiseKept(BitAnd, size, x, y);
    BitwiseKept(BitOr, size, x, y);
    BitwiseKept(BitXor, size, x, y);
  }

  lemma BitwiseKept(op: Bitop, size: Size, x: Word, y: Word)
    ensures var a, b := Truncate(BitWidth(size), x), Truncate(BitWidth(size), y);
            GetResult(size, Some(BitwiseWord(op, a, b))) == Some(Bitwise(op, a, b))
  {
    hide Bitwise, Pow2;
    var w := BitWidth(size);
    var a, b := Truncate(w, x), Truncate(w, y);
    BitwiseBound(op, a, b, w);
    TruncateSmall(w, BitwiseWord(op, a, b));
    hide Truncate;
  }
}
