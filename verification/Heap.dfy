/** The heap of the interpreter's Memory: ordered allocated blocks and ordered free blocks. */
module Heap {
  import opened Bytes

  const STACK_MAX := 10240
  const HEAP_MIN := 20480
  const HEAP_MAX := 0xFFFF_FFFF_FFFF_FFF8

  datatype Block = Block(lo: nat, hi: nat)
  datatype Alloc = Alloc(lo: nat, hi: nat, data: seq<Byte>)

  ghost predicate InFree(freed: seq<Block>, x: int) { exists i :: 0 <= i < |freed| && freed[i].lo <= x < freed[i].hi }

  ghost predicate InAlloc(alloced: seq<Alloc>, x: int) { exists i :: 0 <= i < |alloced| && alloced[i].lo <= x < alloced[i].hi }

  ghost predicate InRange(lo: nat, hi: nat) { HEAP_MIN <= lo <= hi <= HEAP_MAX && lo % 8 == 0 && hi % 8 == 0 }

  /** Free blocks are ordered and never touch. A block may be empty: an exact fit leaves one behind. */
  ghost predicate FreedOk(freed: seq<Block>) {
    && (forall i :: 0 <= i < |freed| ==> InRange(freed[i].lo, freed[i].hi))
    && (forall i, j :: 0 <= i < j < |freed| ==> freed[i].hi < freed[j].lo)
  }

  ghost predicate AllocedOk(alloced: seq<Alloc>) {
    && (forall i :: 0 <= i < |alloced| ==>
          InRange(alloced[i].lo, alloced[i].hi) && alloced[i].lo < alloced[i].hi && |alloced[i].data| == alloced[i].hi - alloced[i].lo)
    && (forall i, j :: 0 <= i < j < |alloced| ==> alloced[i].hi <= alloced[j].lo)
  }

  ghost predicate Apart(b: Block, a: Alloc) { b.hi <= a.lo || a.hi <= b.lo }

  /** Allocated and free blocks partition the heap. */
  ghost predicate HeapOk(freed: seq<Block>, alloced: seq<Alloc>) {
    && FreedOk(freed) && AllocedOk(alloced)
    && (forall i, j :: 0 <= i < |freed| && 0 <= j < |alloced| ==> Apart(freed[i], alloced[j]))
    && (forall x :: HEAP_MIN <= x < HEAP_MAX ==> InFree(freed, x) || InAlloc(alloced, x))
  }

  function Total(alloced: seq<Alloc>): int {
    if alloced == [] then 0 else Total(alloced[1..]) + (alloced[0].hi - alloced[0].lo)
  }

  lemma {:induction false} TotalSplit(a: seq<Alloc>, b: seq<Alloc>)
    ensures Total(a + b) == Total(a) + Total(b)
  {
    if a == [] {
      assert a + b == b;
    } else {
      TotalSplit(a[1..], b);
      assert (a + b)[1..] == a[1..] + b;
    }
  }

  lemma TotalInsert(alloced: seq<Alloc>, k: nat, a: Alloc)
    requires k <= |alloced|
    ensures Total(alloced[..k] + [a] + alloced[k..]) == Total(alloced) + (a.hi - a.lo)
  {
    assert alloced == alloced[..k] + alloced[k..];
    TotalSplit(alloced[..k], alloced[k..]);
    TotalSplit(alloced[..k] + [a], alloced[k..]);
    TotalSplit(alloced[..k], [a]);
  }

  lemma TotalRemove(alloced: seq<Alloc>, k: nat)
    requires k < |alloced|
    ensures Total(alloced[..k] + alloced[k + 1..]) == Total(alloced) - (alloced[k].hi - alloced[k].lo)
  {
    var rest := alloced[..k] + alloced[k + 1..];
    TotalInsert(rest, k, alloced[k]);
    assert rest[..k] == alloced[..k] && rest[k..] == alloced[k + 1..];
    hide Total;
    assert alloced[..k] + [alloced[k]] + alloced[k + 1..] == alloced;
  }

  /** The allocated blocks fit in the heap, so the size counter cannot overflow. */
  lemma {:induction false} TotalBound(alloced: seq<Alloc>, lo: nat)
    requires AllocedOk(alloced) && HEAP_MIN <= lo <= HEAP_MAX && (alloced != [] ==> lo <= alloced[0].lo)
    ensures 0 <= Total(alloced) <= HEAP_MAX - lo
  {
    if alloced != [] {
      TotalBound(alloced[1..], alloced[0].hi);
    }
  }

  // ---- runs of unallocated bytes ----

  /** [a, a + size) lies in the heap and holds no allocated byte. */
  ghost predicate IsRun(alloced: seq<Alloc>, a: nat, size: nat) {
    HEAP_MIN <= a && a + size <= HEAP_MAX && forall x :: a <= x < a + size ==> !InAlloc(alloced, x)
  }

  /** Because free blocks never touch, a run lies inside one of them. */
  lemma RunInOneBlock(freed: seq<Block>, alloced: seq<Alloc>, a: nat, size: nat) returns (i: nat)
    requires HeapOk(freed, alloced) && size > 0 && IsRun(alloced, a, size)
    ensures i < |freed| && freed[i].lo <= a && a + size <= freed[i].hi
  {
    assert !InAlloc(alloced, a);
    assert InFree(freed, a);
    i :| 0 <= i < |freed| && freed[i].lo <= a < freed[i].hi;
    var e := freed[i].hi;
    assert !InFree(freed, e);
    assert a + size <= e || InAlloc(alloced, e);
  }

  lemma BlockIsRun(freed: seq<Block>, alloced: seq<Alloc>, i: nat, size: nat)
    requires HeapOk(freed, alloced) && i < |freed| && size <= freed[i].hi - freed[i].lo
    ensures IsRun(alloced, freed[i].lo, size)
  {
    assert forall j :: 0 <= j < |alloced| ==> Apart(freed[i], alloced[j]);
    forall x | freed[i].lo <= x < freed[i].lo + size
      ensures !InAlloc(alloced, x)
    {
    }
  }

  /** With nothing allocated the free list is the single initial block again. */
  lemma EmptyHeapIsWhole(freed: seq<Block>)
    requires HeapOk(freed, [])
    ensures freed == [Block(HEAP_MIN, HEAP_MAX)]
  {
    assert IsRun([], HEAP_MIN, HEAP_MAX - HEAP_MIN);
    var i := RunInOneBlock(freed, [], HEAP_MIN, HEAP_MAX - HEAP_MIN);
    var last := |freed| - 1;
    assert InRange(freed[i].lo, freed[i].hi) && InRange(freed[0].lo, freed[0].hi) && InRange(freed[last].lo, freed[last].hi);
    assert i == 0 && i == last;
  }

  // ---- malloc: the front of free block i is taken ----

  /** Position at which a block starting at lo enters the ordered list. */
  function InsertAt(alloced: seq<Alloc>, lo: nat): (k: nat)
    ensures k <= |alloced|
    ensures forall j :: 0 <= j < k ==> alloced[j].lo < lo
    ensures k < |alloced| ==> lo <= alloced[k].lo
  {
    if alloced == [] || lo <= alloced[0].lo then 0 else 1 + InsertAt(alloced[1..], lo)
  }

  function Insert(alloced: seq<Alloc>, a: Alloc): seq<Alloc> {
    var k := InsertAt(alloced, a.lo);
    alloced[..k] + [a] + alloced[k..]
  }

  lemma InsertItems(alloced: seq<Alloc>, a: Alloc)
    ensures |Insert(alloced, a)| == |alloced| + 1 && Insert(alloced, a)[InsertAt(alloced, a.lo)] == a
    ensures forall j :: 0 <= j < InsertAt(alloced, a.lo) ==> Insert(alloced, a)[j] == alloced[j]
    ensures forall j :: InsertAt(alloced, a.lo) < j <= |alloced| ==> Insert(alloced, a)[j] == alloced[j - 1]
  {
    hide InsertAt;
  }

  lemma InsertMembers(alloced: seq<Alloc>, a: Alloc)
    ensures forall j :: 0 <= j < |Insert(alloced, a)| ==> Insert(alloced, a)[j] == a || Insert(alloced, a)[j] in alloced
    ensures forall x :: InAlloc(Insert(alloced, a), x) <==> a.lo <= x < a.hi || InAlloc(alloced, x)
  {
    InsertItems(alloced, a);
    hide Insert, InsertAt;
    var k := InsertAt(alloced, a.lo);
    var r := Insert(alloced, a);
    forall x
      ensures InAlloc(r, x) <==> a.lo <= x < a.hi || InAlloc(alloced, x)
    {
      if j :| 0 <= j < |alloced| && alloced[j].lo <= x < alloced[j].hi {
        assert r[if j < k then j else j + 1] == alloced[j];
      }
      if j :| 0 <= j < |r| && r[j].lo <= x < r[j].hi {
        assert j != k ==> alloced[if j < k then j else j - 1] == r[j];
      }
    }
  }

  lemma InsertOk(alloced: seq<Alloc>, a: Alloc)
    requires AllocedOk(alloced) && InRange(a.lo, a.hi) && a.lo < a.hi && |a.data| == a.hi - a.lo
    requires forall j :: 0 <= j < |alloced| ==> a.hi <= alloced[j].lo || alloced[j].hi <= a.lo
    ensures AllocedOk(Insert(alloced, a))
  {
    hide Insert, InsertAt, InRange;
    InsertItems(alloced, a);
    var k, r := InsertAt(alloced, a.lo), Insert(alloced, a);
    forall j | 0 <= j < |alloced|
      ensures if j < k then alloced[j].hi <= a.lo else a.hi <= alloced[j].lo
    {
      assert j > k ==> alloced[k].hi <= alloced[j].lo;
    }
    assert forall j :: 0 <= j < |r| ==> r[j] == if j < k then alloced[j] else if j == k then a else alloced[j - 1];
  }

  lemma TakeFree(freed: seq<Block>, alloced: seq<Alloc>, i: nat, size: nat, a: Alloc)
    requires HeapOk(freed, alloced) && i < |freed| && 0 < size <= freed[i].hi - freed[i].lo && size % 8 == 0
    requires a.lo == freed[i].lo && a.hi == freed[i].lo + size && |a.data| == size
    ensures HeapOk(freed[i := Block(freed[i].lo + size, freed[i].hi)], Insert(alloced, a))
  {
    var freed' := freed[i := Block(freed[i].lo + size, freed[i].hi)];
    var alloced' := Insert(alloced, a);
    assert forall j :: 0 <= j < |alloced| ==> Apart(freed[i], alloced[j]);
    InsertOk(alloced, a);
    InsertMembers(alloced, a);
    hide Insert;
    forall k, j | 0 <= k < |freed'| && 0 <= j < |alloced'|
      ensures Apart(freed'[k], alloced'[j])
    {
      if alloced'[j] != a {
        var m :| 0 <= m < |alloced| && alloced[m] == alloced'[j];
        assert Apart(freed[k], alloced[m]);
      }
    }
    forall x | HEAP_MIN <= x < HEAP_MAX
      ensures InFree(freed', x) || InAlloc(alloced', x)
    {
      if InFree(freed, x) && !(a.lo <= x < a.hi) {
        var k :| 0 <= k < |freed| && freed[k].lo <= x < freed[k].hi;
        assert freed'[k].lo <= x < freed'[k].hi;
      }
    }
  }

  // ---- free: a block is given back and coalesced on both sides ----

  predicate LessBlock(b: Block, c: Block) { b.lo < c.lo || (b.lo == c.lo && b.hi < c.hi) }

  /** std::set::lower_bound. */
  function LowerBound(freed: seq<Block>, key: Block): (k: nat)
    ensures k <= |freed|
    ensures forall j :: 0 <= j < k ==> LessBlock(freed[j], key)
    ensures k < |freed| ==> !LessBlock(freed[k], key)
  {
    if freed == [] || !LessBlock(freed[0], key) then 0 else 1 + LowerBound(freed[1..], key)
  }

  /** Free blocks before the insertion point end at or below b, the others start at or above its end. */
  lemma FreedAround(freed: seq<Block>, alloced: seq<Alloc>, k: nat, b: Block)
    requires HeapOk(freed, alloced) && k < |alloced| && b == Block(alloced[k].lo, alloced[k].hi)
    ensures forall j :: 0 <= j < LowerBound(freed, b) ==> freed[j].hi <= b.lo
    ensures forall j :: LowerBound(freed, b) <= j < |freed| ==> b.hi <= freed[j].lo
  {
    var n := LowerBound(freed, b);
    forall j | 0 <= j < |freed|
      ensures if j < n then freed[j].hi <= b.lo else b.hi <= freed[j].lo
    {
      assert Apart(freed[j], alloced[k]);
      if j > n {
        assert freed[n].hi < freed[j].lo;
      }
    }
  }

  /** freed with the blocks p..q replaced by the one block m. */
  function Splice(freed: seq<Block>, p: nat, q: nat, m: Block): seq<Block>
    requires p <= q <= |freed|
  {
    freed[..p] + [m] + freed[q..]
  }

  lemma SpliceItems(freed: seq<Block>, p: nat, q: nat, m: Block)
    requires p <= q <= |freed|
    ensures |Splice(freed, p, q, m)| == p + 1 + |freed| - q && Splice(freed, p, q, m)[p] == m
    ensures forall j :: 0 <= j < p ==> Splice(freed, p, q, m)[j] == freed[j]
    ensures forall j :: p < j < |Splice(freed, p, q, m)| ==> Splice(freed, p, q, m)[j] == freed[j - p - 1 + q]
  {
  }

  /** The free list after b has been merged with its neighbours. */
  function Coalesce(freed: seq<Block>, b: Block): seq<Block> {
    var n := LowerBound(freed, b);
    var left := n > 0 && freed[n - 1].hi == b.lo;
    var right := n < |freed| && freed[n].lo == b.hi;
    Splice(freed, if left then n - 1 else n, if right then n + 1 else n,
      Block(if left then freed[n - 1].lo else b.lo, if right then freed[n].hi else b.hi))
  }

  /** m is exactly b together with the free blocks p..q it replaces, and touches neither of its new neighbours. */
  ghost predicate Merges(freed: seq<Block>, b: Block, p: nat, q: nat, m: Block) {
    && p <= q <= |freed|
    && m.lo <= b.lo && b.hi <= m.hi && InRange(m.lo, m.hi)
    && (p > 0 ==> freed[p - 1].hi < m.lo) && (q < |freed| ==> m.hi < freed[q].lo)
    && (forall j :: p <= j < q ==> m.lo <= freed[j].lo && freed[j].hi <= m.hi)
    && (forall x :: m.lo <= x < m.hi && !(b.lo <= x < b.hi) ==> InFree(freed, x))
  }

  lemma InRangeOrdered(lo: nat, hi: nat)
    requires InRange(lo, hi)
    ensures lo <= hi
  {
  }

  lemma InRangeEnds(lo: nat, hi: nat, lo': nat, hi': nat)
    requires InRange(lo, hi) && InRange(lo', hi') && lo <= hi'
    ensures InRange(lo, hi')
  {
  }

  /** Free block n and its neighbours are ordered. */
  lemma NearBlocks(freed: seq<Block>, n: nat)
    requires FreedOk(freed) && n <= |freed|
    ensures n > 0 ==> InRange(freed[n - 1].lo, freed[n - 1].hi) && freed[n - 1].lo <= freed[n - 1].hi
    ensures n < |freed| ==> InRange(freed[n].lo, freed[n].hi) && freed[n].lo <= freed[n].hi
    ensures 0 < n < |freed| ==> freed[n - 1].hi < freed[n].lo
    ensures n > 1 ==> freed[n - 2].hi < freed[n - 1].lo
    ensures n + 1 < |freed| ==> freed[n].hi < freed[n + 1].lo
  {
  }

  lemma MergedBytes(freed: seq<Block>, n: nat, b: Block, left: bool, right: bool)
    requires left ==> 0 < n <= |freed| && freed[n - 1].hi == b.lo
    requires right ==> n < |freed| && freed[n].lo == b.hi
    ensures forall x :: (if left then freed[n - 1].lo else b.lo) <= x < (if right then freed[n].hi else b.hi) && !(b.lo <= x < b.hi) ==>
                          InFree(freed, x)
  {
    forall x | (if left then freed[n - 1].lo else b.lo) <= x < (if right then freed[n].hi else b.hi) && !(b.lo <= x < b.hi)
      ensures InFree(freed, x)
    {
      var j := if x < b.lo then n - 1 else n;
      assert freed[j].lo <= x < freed[j].hi;
    }
  }

  /** Merging b with the neighbours it touches, seen only at the insertion point n. */
  lemma MergesAt(freed: seq<Block>, n: nat, b: Block, left: bool, right: bool, m: Block)
    requires FreedOk(freed) && n <= |freed| && InRange(b.lo, b.hi)
    requires n > 0 ==> freed[n - 1].hi <= b.lo
    requires n < |freed| ==> b.hi <= freed[n].lo
    requires left == (n > 0 && freed[n - 1].hi == b.lo)
    requires right == (n < |freed| && freed[n].lo == b.hi)
    requires m == Block(if left then freed[n - 1].lo else b.lo, if right then freed[n].hi else b.hi)
    ensures Merges(freed, b, if left then n - 1 else n, if right then n + 1 else n, m)
  {
    hide InRange, FreedOk, InFree;
    NearBlocks(freed, n);
    InRangeOrdered(b.lo, b.hi);
    MergedBytes(freed, n, b, left, right);
    var l, r := if left then freed[n - 1] else b, if right then freed[n] else b;
    InRangeEnds(l.lo, l.hi, r.lo, r.hi);
  }

  lemma CoalesceMerges(freed: seq<Block>, alloced: seq<Alloc>, k: nat, b: Block) returns (p: nat, q: nat, m: Block)
    requires HeapOk(freed, alloced) && k < |alloced| && b == Block(alloced[k].lo, alloced[k].hi)
    ensures Merges(freed, b, p, q, m) && Coalesce(freed, b) == Splice(freed, p, q, m)
  {
    FreedAround(freed, alloced, k, b);
    hide Splice, InRange;
    var n := LowerBound(freed, b);
    var left := n > 0 && freed[n - 1].hi == b.lo;
    var right := n < |freed| && freed[n].lo == b.hi;
    p, q := if left then n - 1 else n, if right then n + 1 else n;
    m := Block(if left then freed[n - 1].lo else b.lo, if right then freed[n].hi else b.hi);
    MergesAt(freed, n, b, left, right, m);
    hide Merges;
  }

  lemma SpliceAround(freed: seq<Block>, b: Block, p: nat, q: nat, m: Block)
    requires FreedOk(freed) && Merges(freed, b, p, q, m)
    ensures m.lo <= m.hi
    ensures forall j :: 0 <= j < p ==> freed[j].hi < m.lo
    ensures forall j :: q <= j < |freed| ==> m.hi < freed[j].lo
  {
    hide InRange, InFree;
    InRangeOrdered(m.lo, m.hi);
    forall j | 0 <= j < p
      ensures freed[j].hi < m.lo
    {
      assert j < p - 1 ==> freed[j].hi < freed[p - 1].lo;
      InRangeOrdered(freed[p - 1].lo, freed[p - 1].hi);
    }
    forall j | q <= j < |freed|
      ensures m.hi < freed[j].lo
    {
      assert j > q ==> freed[q].hi < freed[j].lo;
      InRangeOrdered(freed[q].lo, freed[q].hi);
    }
  }

  lemma SpliceFreedOk(freed: seq<Block>, b: Block, p: nat, q: nat, m: Block)
    requires FreedOk(freed) && Merges(freed, b, p, q, m)
    ensures FreedOk(Splice(freed, p, q, m))
  {
    hide InRange;
    SpliceAround(freed, b, p, q, m);
    SpliceItems(freed, p, q, m);
    assert InRange(m.lo, m.hi);
    hide Merges, Splice;
    var r := Splice(freed, p, q, m);
    forall i, j | 0 <= i < j < |r|
      ensures r[i].hi < r[j].lo
    {
      var i', j' := if i < p then i else i - p - 1 + q, if j < p then j else j - p - 1 + q;
      assert i != p && j != p ==> freed[i'].hi < freed[j'].lo;
    }
  }

  lemma SpliceInFree(freed: seq<Block>, b: Block, p: nat, q: nat, m: Block, x: int)
    requires Merges(freed, b, p, q, m)
    ensures InFree(Splice(freed, p, q, m), x) <==> b.lo <= x < b.hi || InFree(freed, x)
  {
    var r := Splice(freed, p, q, m);
    assert r[p] == m;
    if j :| 0 <= j < |freed| && freed[j].lo <= x < freed[j].hi {
      assert j < p ==> r[j] == freed[j];
      assert j >= q ==> r[j - q + p + 1] == freed[j];
    }
    if j :| 0 <= j < |r| && r[j].lo <= x < r[j].hi {
      assert j < p ==> freed[j] == r[j];
      assert j > p ==> freed[j - p - 1 + q] == r[j];
    }
  }

  lemma RemoveAlloc(alloced: seq<Alloc>, k: nat)
    requires AllocedOk(alloced) && k < |alloced|
    ensures AllocedOk(alloced[..k] + alloced[k + 1..])
    ensures forall x :: InAlloc(alloced[..k] + alloced[k + 1..], x) <==> InAlloc(alloced, x) && !(alloced[k].lo <= x < alloced[k].hi)
  {
    var r := alloced[..k] + alloced[k + 1..];
    assert forall j :: 0 <= j < |r| ==> r[j] == if j < k then alloced[j] else alloced[j + 1];
    assert AllocedOk(r);
    hide InRange;
    forall x
      ensures InAlloc(r, x) <==> InAlloc(alloced, x) && !(alloced[k].lo <= x < alloced[k].hi)
    {
      if j :| 0 <= j < |alloced| && alloced[j].lo <= x < alloced[j].hi {
        if j != k {
          assert r[if j < k then j else j - 1] == alloced[j];
        }
      }
    }
  }

  lemma MergedApart(freed: seq<Block>, alloced: seq<Alloc>, k: nat, p: nat, q: nat, m: Block, j: nat)
    requires HeapOk(freed, alloced) && k < |alloced| && j < |alloced| && j != k
    requires Merges(freed, Block(alloced[k].lo, alloced[k].hi), p, q, m)
    ensures Apart(m, alloced[j])
  {
    var a := alloced[j];
    var x := if m.lo < a.lo then a.lo else m.lo;
    assert forall t :: 0 <= t < |freed| ==> Apart(freed[t], a);
    assert a.lo < a.hi && (a.hi <= alloced[k].lo || alloced[k].hi <= a.lo);
    assert a.lo <= x < a.hi ==> !InFree(freed, x);
  }

  /** Freeing block k and coalescing keeps the partition. */
  lemma GiveBack(freed: seq<Block>, alloced: seq<Alloc>, k: nat)
    requires HeapOk(freed, alloced) && k < |alloced|
    ensures HeapOk(Coalesce(freed, Block(alloced[k].lo, alloced[k].hi)), alloced[..k] + alloced[k + 1..])
  {
    hide Coalesce;
    var b := Block(alloced[k].lo, alloced[k].hi);
    var p, q, m := CoalesceMerges(freed, alloced, k, b);
    var freed', alloced' := Splice(freed, p, q, m), alloced[..k] + alloced[k + 1..];
    SpliceFreedOk(freed, b, p, q, m);
    RemoveAlloc(alloced, k);
    forall i, j | 0 <= i < |freed'| && 0 <= j < |alloced'|
      ensures Apart(freed'[i], alloced'[j])
    {
      var t := if j < k then j else j + 1;
      assert alloced'[j] == alloced[t];
      MergedApart(freed, alloced, k, p, q, m, t);
      assert freed'[i] == if i < p then freed[i] else if i == p then m else freed[i - p - 1 + q];
    }
    forall x | HEAP_MIN <= x < HEAP_MAX
      ensures InFree(freed', x) || InAlloc(alloced', x)
    {
      SpliceInFree(freed, b, p, q, m, x);
    }
  }
}
