/** The interpreter's binary operations (stmt.cpp, size.cpp) and the cost table (opcode.h). */
module Interp {
  import opened Words

  datatype Size = Size1 | Size8 | Size16 | Size32 | Size64

  function BitWidth(size: Size): (w: nat)
    ensures 1 <= w <= 64
  {
    match size
    case Size1 => 1
    case Size8 => 8
    case Size16 => 16
    case Size32 => 32
    case Size64 => 64
  }

  datatype BopKind =
    | Udiv | Sdiv | Urem | Srem | Mul
    | Shl | Lshr | Ashr | And | Or | Xor | Add | Sub
    | Eq | Ne | Ugt | Uge | Ult | Ule | Sgt | Sge | Slt | Sle

  // Costs in units of PER_BYTE = 0.0004.
  const RESET_COST := 5000
  const STACK_COST := 5000
  const HEAP_COST := 10000
  const MALLOC_COST := 2500
  const FREE_COST := 2500
  const MULDIV_COST := 1500
  const LOGICAL_COST := 2000
  const ADDSUB_COST := 3000
  const COMP_COST := 2500

  function CostOf(kind: BopKind): nat {
    match kind
    case Udiv | Sdiv | Urem | Srem | Mul => MULDIV_COST
    case Shl | Lshr | Ashr | And | Or | Xor => LOGICAL_COST
    case Add | Sub => ADDSUB_COST
    case _ => COMP_COST
  }

  predicate IsSignedOp(kind: BopKind) {
    kind in {Ashr, Sdiv, Srem, Sgt, Sge, Slt, Sle}
  }

  predicate IsShiftOp(kind: BopKind) {
    kind in {Shl, Lshr, Ashr}
  }

  /** The low `bw` bits of x. */
  function Truncate(bw: nat, x: Word): (r: Word)
    requires bw <= 64
    ensures r < Pow2(bw)
  {
    Pow2Of64();
    Pow2Monotone(bw, 64);
    DivPositive(x, Pow2(bw));
    x % Pow2(bw)
  }

  /** The low `bw` bits of x read as a two's-complement number. */
  function SignedValue(bw: nat, x: Word): int
    requires 1 <= bw <= 64
  {
    if Truncate(bw, x) < Pow2(bw - 1) then Truncate(bw, x) else Truncate(bw, x) - Pow2(bw)
  }

  /** Two's-complement extension of the low `bw` bits of x to a whole word. */
  function SignExtend(bw: nat, x: Word): Word
    requires 1 <= bw <= 64
  {
    Wrap(SignedValue(bw, x))
  }

  function GetOp1(kind: BopKind, size: Size, val: Word): Word {
    if IsSignedOp(kind) then SignExtend(BitWidth(size), val) else Truncate(BitWidth(size), val)
  }

  function GetOp2(kind: BopKind, size: Size, val: Word): Word {
    if IsShiftOp(kind) then val % BitWidth(size) else GetOp1(kind, size, val)
  }

  function AsSigned(x: Word): int { if x < 0x8000_0000_0000_0000 then x else x - W64 }

  /** Signed division truncates towards zero. */
  function TruncatedDiv(a: int, b: int): int
    requires b != 0
  {
    if a >= 0 then a / b else -((-a) / b)
  }

  function Flag(b: bool): Word { if b then 1 else 0 }

  function BitwiseWord(op: Bitop, a: Word, b: Word): Word {
    Pow2Of64();
    BitwiseBound(op, a, b, 64);
    Bitwise(op, a, b)
  }

  /** The 64-bit result on prepared operands; None is a division by zero. */
  function RawResult(kind: BopKind, a: Word, b: Word): Option<Word> {
    match kind
    case Udiv => if b == 0 then None else Some(Wrap(a / b))
    case Sdiv => if b == 0 then None else Some(Wrap(TruncatedDiv(AsSigned(a), AsSigned(b))))
    case Urem => if b == 0 then None else Some(Wrap(a % b))
    case Srem =>
      if b == 0 then None
      else Some(Wrap(AsSigned(a) - TruncatedDiv(AsSigned(a), AsSigned(b)) * AsSigned(b)))
    case Mul => Some(Wrap(a * b))
    case Shl => Some(Wrap(a * Pow2(b)))
    case Lshr => Some(Wrap(a / Pow2(b)))
    case Ashr => Some(Wrap(AsSigned(a) / Pow2(b)))
    case And => Some(BitwiseWord(BitAnd, a, b))
    case Or => Some(BitwiseWord(BitOr, a, b))
    case Xor => Some(BitwiseWord(BitXor, a, b))
    case Add => Some(Wrap(a + b))
    case Sub => Some(Wrap(a - b))
    case Eq => Some(Flag(a == b))
    case Ne => Some(Flag(a != b))
    case Ugt => Some(Flag(a > b))
    case Uge => Some(Flag(a >= b))
    case Ult => Some(Flag(a < b))
    case Ule => Some(Flag(a <= b))
    case Sgt => Some(Flag(AsSigned(a) > AsSigned(b)))
    case Sge => Some(Flag(AsSigned(a) >= AsSigned(b)))
    case Slt => Some(Flag(AsSigned(a) < AsSigned(b)))
    case Sle => Some(Flag(AsSigned(a) <= AsSigned(b)))
  }

  function GetResult(size: Size, r: Option<Word>): Option<Word> {
    match r
    case None => None
    case Some(x) => Some(Truncate(BitWidth(size), x))
  }

  function Compute(kind: BopKind, size: Size, val1: Word, val2: Word): Option<Word> {
    GetResult(size, RawResult(kind, GetOp1(kind, size, val1), GetOp2(kind, size, val2)))
  }

  /** Wrapping to a word first does not change the low bits. */
  lemma TruncateWrap(w: nat, y: int)
    requires w <= 64
    ensures Truncate(w, Wrap(y)) == y % Pow2(w)
  {
    Pow2Of64();
    ModMod(y, w, 64);
  }

  lemma TruncateSmall(w: nat, y: Word)
    requires w <= 64 && y < Pow2(w)
    ensures Truncate(w, y) == y
  {
    DivModUnique(y, Pow2(w), 0, y);
  }

  /** An unsigned operation works on the low bits of its operands. */
  lemma UnsignedCompute(kind: BopKind, size: Size, x: Word, y: Word)
    requires !IsSignedOp(kind) && !IsShiftOp(kind)
    ensures Compute(kind, size, x, y) == GetResult(size, RawResult(kind, Truncate(BitWidth(size), x), Truncate(BitWidth(size), y)))
  {
  }

  lemma FactorOperands(size: Size, x: Word, p: Word)
    requires 0 < p && Truncate(BitWidth(size), p) == p
    ensures Compute(Mul, size, x, p) == GetResult(size, Some(Wrap(Truncate(BitWidth(size), x) * p)))
    ensures Compute(Udiv, size, x, p) == GetResult(size, Some(Wrap(Truncate(BitWidth(size), x) / p)))
    ensures Compute(Urem, size, x, p) == GetResult(size, Some(Wrap(Truncate(BitWidth(size), x) % p)))
  {
    hide Pow2, Truncate, Wrap, GetResult;
  }
}
