/** Little-endian byte strings (load_little_endian and store_little_endian of memory.cpp). */
module Bytes {
  import opened Words

  type Byte = x: int | 0 <= x < 256

  function Pow256(n: nat): (p: nat)
    ensures p > 0
  {
    if n == 0 then 1 else 256 * Pow256(n - 1)
  }

  lemma {:induction false} Pow256Add(a: nat, b: nat)
    ensures Pow256(a + b) == Pow256(a) * Pow256(b)
  {
    if a > 0 {
      Pow256Add(a - 1, b);
      MulAssociative(256, Pow256(a - 1), Pow256(b));
    }
  }

  /** The number a byte string denotes, least significant byte first. */
  function Number(bs: seq<Byte>): (v: nat)
    ensures v < Pow256(|bs|)
  {
    if bs == [] then 0 else bs[0] + 256 * Number(bs[1..])
  }

  /** The n low bytes of v. */
  function LowBytes(n: nat, v: nat): (bs: seq<Byte>)
    ensures |bs| == n
  {
    if n == 0 then [] else [v % 256] + LowBytes(n - 1, v / 256)
  }

  method LoadLittleEndian(bs: seq<Byte>) returns (sum: nat)
    ensures sum == Number(bs)
  {
    sum := 0;
    var p := |bs|;
    for i := 0 to |bs|
      invariant p == |bs| - i && sum == Number(bs[p..])
    {
      sum := sum * 256;
      p := p - 1;
      assert bs[p..] == [bs[p]] + bs[p + 1..];
      sum := sum + bs[p];
    }
  }

  method StoreLittleEndian(size: nat, val: nat) returns (bs: seq<Byte>)
    ensures bs == LowBytes(size, val)
  {
    bs := [];
    var v := val;
    for i := 0 to size
      invariant bs + LowBytes(size - i, v) == LowBytes(size, val)
    {
      bs := bs + [v % 256];
      v := v / 256;
    }
  }

  lemma SplitByte(v: nat, p: nat)
    requires p > 0
    ensures v % (256 * p) == 256 * ((v / 256) % p) + v % 256
  {
    var q, r := (v / 256) / p, (v / 256) % p;
    assert v / 256 == q * p + r;
    assert 256 * (q * p) == q * (256 * p);
    DivModUnique(v, 256 * p, q, 256 * r + v % 256);
  }

  /** What a store leaves is what a load of the same width reads back. */
  lemma {:induction false} LoadOfStore(n: nat, v: nat)
    ensures Number(LowBytes(n, v)) == v % Pow256(n)
  {
    if n > 0 {
      LoadOfStore(n - 1, v / 256);
      SplitByte(v, Pow256(n - 1));
    }
  }

  /** The number formed by m bytes of v, leaving out the k least significant ones. */
  function Part(v: nat, k: nat, m: nat): int { (v / Pow256(k)) % Pow256(m) }

  /** A narrower load k bytes in reads the matching bytes of the stored value. */
  lemma {:induction false} NarrowLoad(n: nat, v: nat, k: nat, m: nat)
    requires k + m <= n
    ensures Number(LowBytes(n, v)[k..k + m]) == Part(v, k, m)
  {
    DivPositive(v, Pow256(k));
    SomeLowBytes(n, v, k, m);
    LoadOfStore(m, v / Pow256(k));
    hide Pow256, LowBytes, Number;
  }

  lemma {:induction false} SomeLowBytes(n: nat, v: nat, k: nat, m: nat)
    requires k + m <= n
    ensures v / Pow256(k) >= 0
    ensures LowBytes(n, v)[k..k + m] == LowBytes(m, v / Pow256(k))
  {
    DivPositive(v, Pow256(k));
    if k > 0 {
      SomeLowBytes(n - 1, v / 256, k - 1, m);
      DivTwice(v, 256, Pow256(k - 1));
      hide Number;
      assert Pow256(k) == 256 * Pow256(k - 1);
      assert LowBytes(n, v) == [v % 256] + LowBytes(n - 1, v / 256);
      hide Pow256, LowBytes;
      assert LowBytes(n, v)[k..k + m] == LowBytes(n - 1, v / 256)[k - 1..k - 1 + m];
    } else {
      LowBytesPrefix(n, v, m);
      assert v / Pow256(0) == v;
    }
  }

  lemma DivTwice(v: nat, a: nat, b: nat)
    requires a > 0 && b > 0
    ensures a * b > 0 && v / (a * b) == (v / a) / b
  {
    MulMonotone(1, a, b);
    DivPositive(v, a);
    var h := v / a;
    var q, r := h / b, h % b;
    assert h == q * b + r;
    assert v == h * a + v % a;
    assert (q * b + r) * a == q * (a * b) + r * a;
    MulMonotone(r + 1, b, a);
    MulMonotone(0, r, a);
    assert (r + 1) * a == r * a + a;
    assert b * a == a * b;
    DivModUnique(v, a * b, q, r * a + v % a);
  }

  lemma {:induction false} LowBytesPrefix(n: nat, v: nat, m: nat)
    requires m <= n
    ensures LowBytes(n, v)[..m] == LowBytes(m, v)
  {
    if m > 0 {
      LowBytesPrefix(n - 1, v / 256, m - 1);
      assert LowBytes(n, v)[..m] == [v % 256] + LowBytes(n - 1, v / 256)[..m - 1];
    }
  }
}
