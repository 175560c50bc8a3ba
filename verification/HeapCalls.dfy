/** The interpreter's malloc and free as functions of the heap state, and whole runs of calls. */
module HeapCalls {
  import opened Words
  import opened Interp
  import opened Heap

  datatype MemoryError = NotAligned | NotAllocated | OutsideRegions | ZeroSize | NotMultipleOf8 | OutOfMemory | BadFree

  datatype Outcome = Done(cost: nat, value: nat) | Failed(error: MemoryError)

  datatype HeapState = HeapState(freed: seq<Block>, alloced: seq<Alloc>, allocedSize: int, maxAllocedSize: int)

  const InitialHeap := HeapState([Block(HEAP_MIN, HEAP_MAX)], [], 0, 0)

  ghost predicate StateOk(h: HeapState) {
    HeapOk(h.freed, h.alloced) && h.allocedSize == Total(h.alloced) && h.allocedSize <= h.maxAllocedSize
  }

  lemma InitialOk()
    ensures StateOk(InitialHeap)
  {
    assert |InitialHeap.freed| == 1;
    forall x | HEAP_MIN <= x < HEAP_MAX
      ensures InFree(InitialHeap.freed, x)
    {
      assert InitialHeap.freed[0].lo <= x < InitialHeap.freed[0].hi;
    }
  }

  // ---- malloc ----

  /** Index of the first free block of at least size bytes. */
  function FirstFit(freed: seq<Block>, size: nat): (i: nat)
    ensures i <= |freed|
    ensures forall j :: 0 <= j < i ==> freed[j].hi - freed[j].lo < size
    ensures i < |freed| ==> size <= freed[i].hi - freed[i].lo
  {
    if freed == [] || size <= freed[0].hi - freed[0].lo then 0 else 1 + FirstFit(freed[1..], size)
  }

  lemma FirstFitIs(freed: seq<Block>, size: nat, i: nat)
    requires i <= |freed| && forall j :: 0 <= j < i ==> freed[j].hi - freed[j].lo < size
    requires i < |freed| ==> size <= freed[i].hi - freed[i].lo
    ensures FirstFit(freed, size) == i
  {
    hide FirstFit;
  }

  function MallocOutcome(h: HeapState, size: Word): Outcome {
    if size == 0 then Failed(ZeroSize)
    else if size % 8 != 0 then Failed(NotMultipleOf8)
    else
      var i := FirstFit(h.freed, size);
      if i == |h.freed| then Failed(OutOfMemory) else Done(MALLOC_COST, h.freed[i].lo)
  }

  /** The zero-filled block malloc hands out. */
  function NewBlock(lo: nat, size: nat): Alloc { Alloc(lo, lo + size, seq(size, _ => 0)) }

  function Malloc(h: HeapState, size: Word): HeapState {
    if MallocOutcome(h, size).Failed? then h
    else
      var i := FirstFit(h.freed, size);
      var b := h.freed[i];
      var total := h.allocedSize + size;
      HeapState(h.freed[i := Block(b.lo + size, b.hi)], Insert(h.alloced, NewBlock(b.lo, size)), total,
        if h.maxAllocedSize < total then total else h.maxAllocedSize)
  }

  lemma MallocOk(h: HeapState, size: Word)
    requires StateOk(h)
    ensures StateOk(Malloc(h, size))
  {
    hide FirstFit, HeapOk, Total, InsertAt;
    if MallocOutcome(h, size).Done? {
      var i := FirstFit(h.freed, size);
      var a := NewBlock(h.freed[i].lo, size);
      assert a.lo == h.freed[i].lo && a.hi == a.lo + size && |a.data| == size;
      hide NewBlock;
      TakeFree(h.freed, h.alloced, i, size, a);
      TotalInsert(h.alloced, InsertAt(h.alloced, a.lo), a);
    }
  }

  /** First fit succeeds exactly when a long enough run of unallocated bytes exists, and takes the lowest one. */
  lemma MallocFirstFit(h: HeapState, size: Word)
    requires StateOk(h) && size > 0 && size % 8 == 0
    ensures MallocOutcome(h, size).Done? <==> exists a: nat :: IsRun(h.alloced, a, size)
    ensures MallocOutcome(h, size).Done? ==> IsRun(h.alloced, MallocOutcome(h, size).value, size)
    ensures MallocOutcome(h, size).Done? ==> forall a: nat :: IsRun(h.alloced, a, size) ==> MallocOutcome(h, size).value <= a
  {
    var i := FirstFit(h.freed, size);
    hide FirstFit;
    if i < |h.freed| {
      BlockIsRun(h.freed, h.alloced, i, size);
    }
    forall a: nat | IsRun(h.alloced, a, size)
      ensures i < |h.freed| && h.freed[i].lo <= a
    {
      var j := RunInOneBlock(h.freed, h.alloced, a, size);
      assert i <= j;
      assert i < j ==> h.freed[i].hi < h.freed[j].lo;
      assert InRange(h.freed[i].lo, h.freed[i].hi);
    }
  }

  /** What malloc does is determined by the allocated bytes alone, not by how the free blocks came about. */
  lemma MallocSeesBlocks(h: HeapState, h': HeapState, size: Word)
    requires StateOk(h) && StateOk(h') && forall x :: InAlloc(h.alloced, x) <==> InAlloc(h'.alloced, x)
    ensures MallocOutcome(h, size) == MallocOutcome(h', size)
  {
    if size > 0 && size % 8 == 0 {
      MallocFirstFit(h, size);
      MallocFirstFit(h', size);
      hide StateOk;
      assert forall a: nat :: IsRun(h.alloced, a, size) <==> IsRun(h'.alloced, a, size);
    }
  }

  // ---- free ----

  ghost predicate StartsBlock(alloced: seq<Alloc>, addr: nat) { exists k :: 0 <= k < |alloced| && alloced[k].lo == addr }

  /** The position of the block starting at addr, or |alloced|. */
  function StartsAt(alloced: seq<Alloc>, addr: nat): (k: nat)
    ensures k <= |alloced| && (k < |alloced| ==> alloced[k].lo == addr)
  {
    var k := InsertAt(alloced, addr);
    if k < |alloced| && alloced[k].lo == addr then k else |alloced|
  }

  lemma StartsAtIs(alloced: seq<Alloc>, addr: nat, k: nat)
    requires AllocedOk(alloced) && k < |alloced| && alloced[k].lo == addr
    ensures StartsAt(alloced, addr) == k
  {
    var n := InsertAt(alloced, addr);
    hide InsertAt;
  }

  function FreeOutcome(h: HeapState, addr: Word): Outcome {
    if StartsAt(h.alloced, addr) < |h.alloced| then Done(FREE_COST, 0) else Failed(BadFree)
  }

  function Free(h: HeapState, addr: Word): HeapState {
    var k := StartsAt(h.alloced, addr);
    if k == |h.alloced| then h
    else
      var a := h.alloced[k];
      HeapState(Coalesce(h.freed, Block(a.lo, a.hi)), h.alloced[..k] + h.alloced[k + 1..],
        h.allocedSize - (a.hi - a.lo), h.maxAllocedSize)
  }

  lemma FreeOk(h: HeapState, addr: Word)
    requires StateOk(h)
    ensures StateOk(Free(h, addr))
  {
    var k := StartsAt(h.alloced, addr);
    hide StartsAt;
    if k < |h.alloced| {
      GiveBack(h.freed, h.alloced, k);
      TotalRemove(h.alloced, k);
      assert h.alloced[k].lo < h.alloced[k].hi;
    }
  }

  /** free fails exactly when no allocated block starts at addr. */
  lemma FreeSucceedsIff(h: HeapState, addr: Word)
    requires StateOk(h)
    ensures FreeOutcome(h, addr).Done? <==> StartsBlock(h.alloced, addr)
  {
    if k :| 0 <= k < |h.alloced| && h.alloced[k].lo == addr {
      StartsAtIs(h.alloced, addr, k);
    }
  }

  lemma RemoveInserted(alloced: seq<Alloc>, a: Alloc)
    requires AllocedOk(Insert(alloced, a))
    ensures StartsAt(Insert(alloced, a), a.lo) == InsertAt(alloced, a.lo) < |Insert(alloced, a)|
    ensures var k, r := InsertAt(alloced, a.lo), Insert(alloced, a); r[..k] + r[k + 1..] == alloced
  {
    InsertItems(alloced, a);
    var k, r := InsertAt(alloced, a.lo), Insert(alloced, a);
    StartsAtIs(r, a.lo, k);
    hide InsertAt, StartsAt, Insert;
    assert r[..k] + r[k + 1..] == alloced;
  }

  /** Freeing the block a malloc has just returned gives back the allocated blocks as they were. */
  lemma FreeUndoesMalloc(h: HeapState, size: Word)
    requires StateOk(h) && MallocOutcome(h, size).Done?
    ensures MallocOutcome(h, size).value < W64
    ensures Free(Malloc(h, size), MallocOutcome(h, size).value).alloced == h.alloced
  {
    var i := FirstFit(h.freed, size);
    assert InRange(h.freed[i].lo, h.freed[i].hi);
    MallocOk(h, size);
    RemoveInserted(h.alloced, NewBlock(h.freed[i].lo, size));
    hide StateOk, HeapOk, AllocedOk, FreedOk, FirstFit, StartsAt, InsertAt, Insert, Coalesce;
  }

  // ---- runs ----

  datatype HeapCall = MallocCall(size: Word) | FreeCall(addr: Word)

  function Call(h: HeapState, c: HeapCall): HeapState {
    match c
    case MallocCall(size) => Malloc(h, size)
    case FreeCall(addr) => Free(h, addr)
  }

  function Run(h: HeapState, calls: seq<HeapCall>): HeapState {
    if calls == [] then h else Call(Run(h, calls[..|calls| - 1]), calls[|calls| - 1])
  }

  /** p is the largest total size allocated after some prefix of the calls. */
  ghost predicate IsPeak(h: HeapState, calls: seq<HeapCall>, p: int) {
    && (exists n :: 0 <= n <= |calls| && p == Total(Run(h, calls[..n]).alloced))
    && (forall n :: 0 <= n <= |calls| ==> Total(Run(h, calls[..n]).alloced) <= p)
  }

  lemma CallOk(h: HeapState, c: HeapCall)
    requires StateOk(h)
    ensures StateOk(Call(h, c))
    ensures Call(h, c).maxAllocedSize == if h.maxAllocedSize < Total(Call(h, c).alloced) then Total(Call(h, c).alloced) else h.maxAllocedSize
  {
    match c
    case MallocCall(size) => MallocOk(h, size);
    case FreeCall(addr) => FreeOk(h, addr);
  }

  lemma PeakStep(h: HeapState, calls: seq<HeapCall>, c: HeapCall, p: int)
    requires IsPeak(h, calls, p)
    ensures var t := Total(Run(h, calls + [c]).alloced); IsPeak(h, calls + [c], if p < t then t else p)
  {
    hide Run, Total;
    assert calls[..|calls|] == calls && (calls + [c])[..|calls| + 1] == calls + [c];
    assert forall m :: 0 <= m <= |calls| ==> (calls + [c])[..m] == calls[..m];
  }

  /** After any calls: the blocks partition the heap, the size counter is their total and the maximum is its running maximum. */
  lemma {:induction false} RunOk(calls: seq<HeapCall>)
    ensures StateOk(Run(InitialHeap, calls))
    ensures IsPeak(InitialHeap, calls, Run(InitialHeap, calls).maxAllocedSize)
    ensures 0 <= Run(InitialHeap, calls).allocedSize <= HEAP_MAX - HEAP_MIN
  {
    hide Call, StateOk;
    if calls == [] {
      InitialOk();
      assert calls[..0] == [];
    } else {
      var n := |calls| - 1;
      RunOk(calls[..n]);
      CallOk(Run(InitialHeap, calls[..n]), calls[n]);
      PeakStep(InitialHeap, calls[..n], calls[n], Run(InitialHeap, calls[..n]).maxAllocedSize);
      assert calls[..n] + [calls[n]] == calls;
    }
    CounterBound(Run(InitialHeap, calls));
  }

  /** The size counter never leaves the range of a 64-bit word. */
  lemma CounterBound(h: HeapState)
    requires StateOk(h)
    ensures 0 <= h.allocedSize <= HEAP_MAX - HEAP_MIN
  {
    TotalBound(h.alloced, HEAP_MIN);
  }

  /** Whenever everything has been given back, in whatever order, the heap is the single initial free block again. */
  lemma AllGivenBack(calls: seq<HeapCall>)
    requires Run(InitialHeap, calls).alloced == []
    ensures Run(InitialHeap, calls).freed == [Block(HEAP_MIN, HEAP_MAX)]
    ensures Run(InitialHeap, calls).allocedSize == 0
  {
    RunOk(calls);
    EmptyHeapIsWhole(Run(InitialHeap, calls).freed);
  }

  function FreeCalls(addrs: seq<Word>): seq<HeapCall> { seq(|addrs|, i requires 0 <= i < |addrs| => FreeCall(addrs[i])) }

  /** addrs lists the starts of the allocated blocks, each once. */
  ghost predicate ListsBlocks(alloced: seq<Alloc>, addrs: seq<Word>) {
    && |addrs| == |alloced|
    && (forall i, j :: 0 <= i < j < |addrs| ==> addrs[i] != addrs[j])
    && (forall i :: 0 <= i < |addrs| ==> StartsBlock(alloced, addrs[i]))
  }

  /** Run from the front: the first call, then the rest. */
  lemma {:induction false} RunFront(h: HeapState, calls: seq<HeapCall>)
    requires calls != []
    ensures Run(h, calls) == Run(Call(h, calls[0]), calls[1..])
  {
    hide Call;
    if |calls| > 1 {
      RunFront(h, calls[..|calls| - 1]);
      assert calls[1..][..|calls| - 2] == calls[..|calls| - 1][1..];
    } else {
      assert calls[..0] == [];
    }
  }

  lemma {:induction false} RunConcat(h: HeapState, a: seq<HeapCall>, b: seq<HeapCall>)
    ensures Run(h, a + b) == Run(Run(h, a), b)
  {
    hide Call;
    if b == [] {
      assert a + b == a;
    } else {
      RunConcat(h, a, b[..|b| - 1]);
      assert (a + b)[..|a + b| - 1] == a + b[..|b| - 1];
    }
  }

  lemma ListedWithout(alloced: seq<Alloc>, addrs: seq<Word>, k: nat)
    requires addrs != [] && ListsBlocks(alloced, addrs) && k < |alloced| && alloced[k].lo == addrs[0]
    ensures ListsBlocks(alloced[..k] + alloced[k + 1..], addrs[1..])
  {
    var r, rest := alloced[..k] + alloced[k + 1..], addrs[1..];
    forall i | 0 <= i < |rest|
      ensures StartsBlock(r, rest[i])
    {
      assert rest[i] == addrs[i + 1] && StartsBlock(alloced, addrs[i + 1]);
      var j :| 0 <= j < |alloced| && alloced[j].lo == addrs[i + 1];
      assert addrs[0] != addrs[i + 1];
      var j' := if j < k then j else j - 1;
      assert r[j'] == alloced[j];
    }
    forall i, j | 0 <= i < j < |rest|
      ensures rest[i] != rest[j]
    {
      assert rest[i] == addrs[i + 1] && rest[j] == addrs[j + 1];
    }
  }

  lemma RestListed(h: HeapState, addrs: seq<Word>)
    requires StateOk(h) && addrs != [] && ListsBlocks(h.alloced, addrs)
    ensures ListsBlocks(Free(h, addrs[0]).alloced, addrs[1..])
  {
    assert StartsBlock(h.alloced, addrs[0]);
    var k :| 0 <= k < |h.alloced| && h.alloced[k].lo == addrs[0];
    StartsAtIs(h.alloced, addrs[0], k);
    ListedWithout(h.alloced, addrs, k);
    hide StartsAt, ListsBlocks, StateOk;
  }

  lemma {:induction false} FreeListedBlocks(h: HeapState, addrs: seq<Word>)
    requires StateOk(h) && ListsBlocks(h.alloced, addrs)
    ensures Run(h, FreeCalls(addrs)).alloced == []
    decreases addrs
  {
    hide Free, StateOk;
    if addrs != [] {
      RestListed(h, addrs);
      FreeOk(h, addrs[0]);
      FreeListedBlocks(Free(h, addrs[0]), addrs[1..]);
      RunFront(h, FreeCalls(addrs));
      assert FreeCalls(addrs)[1..] == FreeCalls(addrs[1..]);
    }
  }

  /** After any run, freeing the live blocks in any order restores the single initial free block. */
  lemma FreeEverything(calls: seq<HeapCall>, addrs: seq<Word>)
    requires ListsBlocks(Run(InitialHeap, calls).alloced, addrs)
    ensures Run(InitialHeap, calls + FreeCalls(addrs)).alloced == []
    ensures Run(InitialHeap, calls + FreeCalls(addrs)).freed == [Block(HEAP_MIN, HEAP_MAX)]
  {
    RunOk(calls);
    FreeListedBlocks(Run(InitialHeap, calls), addrs);
    RunConcat(InitialHeap, calls, FreeCalls(addrs));
    AllGivenBack(calls + FreeCalls(addrs));
  }
}
