/** 64-bit machine words, powers of two and bitwise operators on natural numbers. */
module Words {

  datatype Option<+T> = None | Some(value: T)

  const W64: int := 0x1_0000_0000_0000_0000

  type Word = x: int | 0 <= x < 0x1_0000_0000_0000_0000

  function Pow2(n: nat): (p: nat)
    ensures p > 0
  {
    if n == 0 then 1 else 2 * Pow2(n - 1)
  }

  lemma MulAssociative(x: int, y: int, z: int)
    ensures (x * y) * z == x * (y * z)
  {}

  lemma {:induction false} Pow2Add(a: nat, b: nat)
    ensures Pow2(a + b) == Pow2(a) * Pow2(b)
  {
    if a > 0 {
      Pow2Add(a - 1, b);
      MulAssociative(2, Pow2(a - 1), Pow2(b));
    }
  }

  lemma Pow2Monotone(a: nat, b: nat)
    requires a <= b
    ensures Pow2(a) <= Pow2(b)
    ensures a < b ==> 2 * Pow2(a) <= Pow2(b)
  {
    Pow2Add(a, b - a);
    if a < b {
      Pow2Add(a + 1, b - a - 1);
    }
  }

  lemma Pow2Of64()
    ensures Pow2(64) == W64
  {
    assert Pow2(8) == 0x100;
    Pow2Add(8, 8);
    assert Pow2(16) == 0x1_0000;
    Pow2Add(16, 16);
    assert Pow2(32) == 0x1_0000_0000;
    Pow2Add(32, 32);
  }

  /** Reduces any integer to the word the hardware would hold. */
  function Wrap(x: int): Word { x % 0x1_0000_0000_0000_0000 }

  // ---- Euclidean division by a power of two ----

  lemma MulMonotone(a: int, b: int, m: int)
    requires 0 <= m
    ensures a <= b ==> a * m <= b * m
  {
    if a <= b {
      assert (b - a) * m >= 0;
      assert (b - a) * m == b * m - a * m;
    }
  }

  lemma DivModUnique(x: int, m: int, q: int, r: int)
    requires 0 < m && x == q * m + r && 0 <= r < m
    ensures x / m == q && x % m == r
  {
    var d := q - x / m;
    assert d * m == x % m - r by {
      assert x == (x / m) * m + x % m;
      assert (q - x / m) * m == q * m - (x / m) * m;
    }
    MulMonotone(1, d, m);
    MulMonotone(d, -1, m);
  }

  lemma DivPositive(x: nat, m: nat)
    requires m > 0
    ensures 0 <= x / m <= x
    ensures x == (x / m) * m + x % m
  {
    var q := x / m;
    assert x == q * m + x % m;
    MulMonotone(q, -1, m);
    MulMonotone(0, q, m - 1);
    assert q * (m - 1) == q * m - q;
  }

  /** A multiple of m added on the left does not change the remainder. */
  lemma ModShift(x: int, m: int, k: int)
    requires m > 0
    ensures (k * m + x) % m == x % m
  {
    DivModUnique(k * m + x, m, k + x / m, x % m);
  }

  /** Halving once and splitting k bits lower is splitting k + 1 bits. */
  lemma HalfSplit(x: nat, k: nat)
    ensures x / Pow2(k + 1) == (x / 2) / Pow2(k)
    ensures x % Pow2(k + 1) == 2 * ((x / 2) % Pow2(k)) + x % 2
  {
    var h, p := x / 2, Pow2(k);
    assert h == (h / p) * p + h % p;
    assert x == (h / p) * (2 * p) + (2 * (h % p) + x % 2) by {
      assert x == 2 * h + x % 2;
      assert 2 * ((h / p) * p) == (h / p) * (2 * p);
    }
    DivModUnique(x, Pow2(k + 1), h / p, 2 * (h % p) + x % 2);
  }

  /** Reducing modulo a larger power of two first changes nothing. */
  lemma ModMod(x: int, a: nat, b: nat)
    requires a <= b
    ensures (x % Pow2(b)) % Pow2(a) == x % Pow2(a)
  {
    Pow2Add(a, b - a);
    ModOfMultiple(x, Pow2(a), Pow2(b - a));
  }

  lemma ModOfMultiple(x: int, m: int, c: int)
    requires m > 0 && c > 0
    ensures m * c > 0
    ensures (x % (m * c)) % m == x % m
  {
    MulMonotone(1, c, m);
    assert c * m == m * c;
    var q, r := x / (m * c), x % (m * c);
    assert x == q * (m * c) + r;
    assert q * (m * c) == (q * c) * m;
    ModShift(r, m, q * c);
  }

  // ---- bitwise operators ----

  datatype Bitop = BitAnd | BitOr | BitXor

  function OneBit(op: Bitop, a: nat, b: nat): (r: nat)
    requires a < 2 && b < 2
    ensures r < 2
  {
    match op
    case BitAnd => if a == 1 && b == 1 then 1 else 0
    case BitOr => if a == 1 || b == 1 then 1 else 0
    case BitXor => if a != b then 1 else 0
  }

  function Bitwise(op: Bitop, a: nat, b: nat): nat
    decreases a + b
  {
    if a == 0 && b == 0 then 0
    else OneBit(op, a % 2, b % 2) + 2 * Bitwise(op, a / 2, b / 2)
  }

  lemma BitwiseStep(op: Bitop, a: nat, b: nat)
    ensures Bitwise(op, a, b) == OneBit(op, a % 2, b % 2) + 2 * Bitwise(op, a / 2, b / 2)
  {}

  function High(a: nat, k: nat): nat
  {
    DivPositive(a, Pow2(k));
    a / Pow2(k)
  }

  function Low(a: nat, k: nat): nat { a % Pow2(k) }

  lemma HighLowOf(q: nat, r: nat, k: nat)
    requires r < Pow2(k)
    ensures q * Pow2(k) + r >= 0
    ensures High(q * Pow2(k) + r, k) == q && Low(q * Pow2(k) + r, k) == r
  {
    DivModUnique(q * Pow2(k) + r, Pow2(k), q, r);
  }

  lemma HighLowStep(a: nat, k: nat)
    requires k > 0
    ensures High(a, k) == High(a / 2, k - 1)
    ensures Low(a, k) / 2 == Low(a / 2, k - 1) && Low(a, k) % 2 == a % 2
  {
    HalfSplit(a, k - 1);
    DivModUnique(Low(a, k), 2, Low(a / 2, k - 1), a % 2);
  }

  /** A bitwise operator works separately on the bits above and below any position. */
  lemma {:induction false} BitwiseSplit(op: Bitop, a: nat, b: nat, k: nat)
    ensures Bitwise(op, a, b) ==
            Bitwise(op, High(a, k), High(b, k)) * Pow2(k) + Bitwise(op, Low(a, k), Low(b, k))
    ensures Bitwise(op, Low(a, k), Low(b, k)) < Pow2(k)
  {
    if k == 0 {
      assert High(a, 0) == a && High(b, 0) == b;
    } else {
      HighLowStep(a, k);
      HighLowStep(b, k);
      BitwiseSplit(op, a / 2, b / 2, k - 1);
      BitwiseStep(op, Low(a, k), Low(b, k));
      BitwiseStep(op, a, b);
      DoubleProduct(Bitwise(op, High(a, k), High(b, k)), Pow2(k - 1));
    }
  }

  lemma DoubleProduct(x: int, y: int)
    ensures 2 * (x * y) == x * (2 * y)
  {}

  lemma BitwiseBound(op: Bitop, a: nat, b: nat, k: nat)
    requires a < Pow2(k) && b < Pow2(k)
    ensures Bitwise(op, a, b) < Pow2(k)
  {
    BitwiseSplit(op, a, b, k);
    DivModUnique(a, Pow2(k), 0, a);
    DivModUnique(b, Pow2(k), 0, b);
  }

  /** Bits that do not overlap: exclusive-or is addition. */
  lemma XorDisjoint(hi: nat, lo: nat, k: nat)
    requires lo < Pow2(k)
    ensures Bitwise(BitXor, hi * Pow2(k), lo) == hi * Pow2(k) + lo
  {
    BitwiseSplit(BitXor, hi * Pow2(k), lo, k);
    DivModUnique(hi * Pow2(k), Pow2(k), hi, 0);
    DivModUnique(lo, Pow2(k), 0, lo);
    ZeroIsUnit(BitXor, hi);
    ZeroIsUnit(BitXor, lo);
  }

  lemma {:induction false} ZeroIsUnit(op: Bitop, a: nat)
    ensures Bitwise(op, a, 0) == if op == BitAnd then 0 else a
    ensures Bitwise(op, 0, a) == if op == BitAnd then 0 else a
  {
    if a > 0 {
      ZeroIsUnit(op, a / 2);
    }
  }

  /** A mask of k ones keeps exactly the low k bits. */
  lemma {:induction false} AndLowMask(x: nat, k: nat)
    ensures Bitwise(BitAnd, x, Pow2(k) - 1) == x % Pow2(k)
  {
    if k == 0 {
      ZeroIsUnit(BitAnd, x);
    } else {
      AndLowMask(x / 2, k - 1);
      AndOddMask(x, Pow2(k - 1));
    }
  }

  lemma AndOddMask(x: nat, p: nat)
    requires p > 0 && Bitwise(BitAnd, x / 2, p - 1) == (x / 2) % p
    ensures Bitwise(BitAnd, x, 2 * p - 1) == x % (2 * p)
  {
    hide Bitwise;
    BitwiseStep(BitAnd, x, 2 * p - 1);
    HalfMod(x, p);
  }

  lemma HalfMod(x: nat, p: nat)
    requires p > 0
    ensures x % (2 * p) == 2 * ((x / 2) % p) + x % 2
  {
    var h, q, r := x / 2, (x / 2) / p, (x / 2) % p;
    assert h == q * p + r;
    assert 2 * (q * p) == q * (2 * p);
    DivModUnique(x, 2 * p, q, 2 * r + x % 2);
  }

  /** Filling the low k mask bits does not matter to an operand whose low k bits are zero. */
  lemma AndFilledMask(x: nat, n: nat, k: nat)
    requires x % Pow2(k) == 0
    ensures Bitwise(BitAnd, x, Bitwise(BitOr, n, Pow2(k) - 1)) == Bitwise(BitAnd, x, n)
  {
    hide Pow2, Bitwise;
    var p := Pow2(k);
    BitwiseSplit(BitOr, n, p - 1, k);
    DivModUnique(p - 1, p, 0, p - 1);
    DivPositive(n, p);
    ZeroIsUnit(BitOr, n / p);
    var m := Bitwise(BitOr, n, p - 1);
    DivModUnique(m, p, n / p, Bitwise(BitOr, n % p, p - 1));
    BitwiseSplit(BitAnd, x, m, k);
    BitwiseSplit(BitAnd, x, n, k);
    ZeroIsUnit(BitAnd, m % p);
    ZeroIsUnit(BitAnd, n % p);
  }

  lemma {:induction false} AndSelf(a: nat)
    ensures Bitwise(BitAnd, a, a) == a
  {
    if a > 0 {
      AndSelf(a / 2);
    }
  }

  /** The test `(n & (n + 1)) == 0` accepts exactly the masks 2^k - 1. */
  lemma {:induction false} LowMaskTest(n: nat)
    ensures Bitwise(BitAnd, n, n + 1) == 0 <==> exists k: nat :: n + 1 == Pow2(k)
  {
    if Bitwise(BitAnd, n, n + 1) == 0 {
      var k := MaskWidth(n);
    }
    if k: nat :| n + 1 == Pow2(k) {
      AndLowMask(n + 1, k);
      assert Bitwise(BitAnd, n + 1, n) == 0 by {
        DivModUnique(n + 1, Pow2(k), 1, 0);
      }
      AndCommutes(n, n + 1);
    }
  }

  lemma OrOddMasks(p: nat, q: nat)
    requires p > 0 && q > 0
    ensures Bitwise(BitOr, 2 * p - 1, 2 * q - 1) == 2 * Bitwise(BitOr, p - 1, q - 1) + 1
  {
    hide Bitwise;
    BitwiseStep(BitOr, 2 * p - 1, 2 * q - 1);
    assert (2 * p - 1) / 2 == p - 1 && (2 * q - 1) / 2 == q - 1;
  }

  /** Two low masks together are the longer one. */
  lemma {:induction false} OrLowMasks(k: nat, m: nat)
    ensures Bitwise(BitOr, Pow2(k) - 1, Pow2(m) - 1) == (if k < m then Pow2(m) else Pow2(k)) - 1
  {
    hide Bitwise;
    if k == 0 || m == 0 {
      ZeroIsUnit(BitOr, Pow2(k) - 1);
      ZeroIsUnit(BitOr, Pow2(m) - 1);
    } else {
      OrLowMasks(k - 1, m - 1);
      OrOddMasks(Pow2(k - 1), Pow2(m - 1));
    }
  }

  lemma {:induction false} AndCommutes(a: nat, b: nat)
    ensures Bitwise(BitAnd, a, b) == Bitwise(BitAnd, b, a)
    decreases a + b
  {
    if a + b > 0 {
      AndCommutes(a / 2, b / 2);
    }
  }

  lemma {:induction false} MaskWidth(n: nat) returns (k: nat)
    requires Bitwise(BitAnd, n, n + 1) == 0
    ensures n + 1 == Pow2(k)
  {
    if n % 2 == 0 {
      AndSelf(n / 2);
      assert (n + 1) / 2 == n / 2;
      assert Bitwise(BitAnd, n, n + 1) == OneBit(BitAnd, n % 2, (n + 1) % 2) + 2 * Bitwise(BitAnd, n / 2, (n + 1) / 2);
      k := 0;
    } else {
      assert (n + 1) / 2 == n / 2 + 1;
      assert Bitwise(BitAnd, n, n + 1) == OneBit(BitAnd, n % 2, (n + 1) % 2) + 2 * Bitwise(BitAnd, n / 2, n / 2 + 1);
      k := MaskWidth(n / 2);
      k := k + 1;
    }
  }
}
