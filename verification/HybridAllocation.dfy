/** Guarded stack allocation of main's mallocs and guarded frees (MemUseOptimization.cpp). */
module HybridAllocation {
  import opened Words
  import opened Interp
  import opened Heap
  import opened HeapCalls
  import C = Casts

  const STACK_DANGEROUS_REGION := 5120
  const STACK_BOUNDARY := 10240
  const HALF := 0x8000_0000_0000_0000

  // ---- which calls are converted ----

  datatype Inst = MallocInst | FreeInst | OtherInst

  datatype BasicBlock = BasicBlock(inLoop: bool, insts: seq<Inst>)

  datatype Function = Function(isMain: bool, blocks: seq<BasicBlock>)

  /** The place of a call: block and position in main. */
  datatype Site = Site(block: nat, at: nat)

  predicate HasFree(b: BasicBlock) { FreeInst in b.insts }

  /** A free the pass cannot guard: in another function, or in a loop of main. */
  ghost predicate UnguardedFree(f: Function) {
    exists b :: b in f.blocks && (!f.isMain || b.inLoop) && HasFree(b)
  }

  ghost predicate AllSites(f: Function, kind: Inst, to: nat, sites: seq<Site>) {
    forall s: Site :: s in sites <==>
      s.block < |f.blocks| && s.block < to && !f.blocks[s.block].inLoop && s.at < |f.blocks[s.block].insts| && f.blocks[s.block].insts[s.at] == kind
  }

  method CollectBlock(b: BasicBlock, n: nat, kind: Inst) returns (sites: seq<Site>)
    ensures forall s: Site :: s in sites <==> s.block == n && s.at < |b.insts| && b.insts[s.at] == kind
  {
    sites := [];
    for i := 0 to |b.insts|
      invariant forall s: Site :: s in sites <==> s.block == n && s.at < i && b.insts[s.at] == kind
    {
      if b.insts[i] == kind {
        sites := sites + [Site(n, i)];
      }
    }
  }

  /** Walks one function; gives up at a free it cannot guard. */
  method CollectFunction(f: Function) returns (ok: bool, mallocs: seq<Site>, frees: seq<Site>)
    ensures ok <==> !UnguardedFree(f)
    ensures ok && f.isMain ==> AllSites(f, MallocInst, |f.blocks|, mallocs) && AllSites(f, FreeInst, |f.blocks|, frees)
    ensures ok && !f.isMain ==> mallocs == [] && frees == []
  {
    mallocs, frees := [], [];
    for n := 0 to |f.blocks|
      invariant forall k :: 0 <= k < n ==> !((!f.isMain || f.blocks[k].inLoop) && HasFree(f.blocks[k]))
      invariant f.isMain ==> AllSites(f, MallocInst, n, mallocs) && AllSites(f, FreeInst, n, frees)
      invariant !f.isMain ==> mallocs == [] && frees == []
    {
      var b := f.blocks[n];
      if !f.isMain || b.inLoop {
        if HasFree(b) {
          assert b in f.blocks;
          return false, [], [];
        }
      } else {
        var ms := CollectBlock(b, n, MallocInst);
        var fs := CollectBlock(b, n, FreeInst);
        mallocs, frees := mallocs + ms, frees + fs;
      }
    }
    ok := true;
  }

  /** A malloc outside loops. */
  ghost predicate HasCandidate(f: Function) { exists b :: b in f.blocks && !b.inLoop && MallocInst in b.insts }

  lemma CandidateSites(f: Function, sites: seq<Site>)
    requires AllSites(f, MallocInst, |f.blocks|, sites)
    ensures sites != [] <==> HasCandidate(f)
  {
    if sites != [] {
      assert sites[0] in sites;
      assert f.blocks[sites[0].block] in f.blocks;
    }
    if b :| b in f.blocks && !b.inLoop && MallocInst in b.insts {
      var n :| 0 <= n < |f.blocks| && f.blocks[n] == b;
      var i :| 0 <= i < |b.insts| && b.insts[i] == MallocInst;
      assert Site(n, i) in sites;
    }
  }

  /** The calls to convert, or nothing at all if some free could not be guarded or there is no malloc to convert. */
  method CollectModule(fs: seq<Function>, main: nat) returns (convert: bool, mallocs: seq<Site>, frees: seq<Site>)
    requires main < |fs| && forall k :: 0 <= k < |fs| ==> (fs[k].isMain <==> k == main)
    ensures convert <==> (forall f :: f in fs ==> !UnguardedFree(f)) && HasCandidate(fs[main])
    ensures convert ==> mallocs != [] && AllSites(fs[main], MallocInst, |fs[main].blocks|, mallocs)
    ensures convert ==> AllSites(fs[main], FreeInst, |fs[main].blocks|, frees)
    ensures !convert ==> mallocs == [] && frees == []
  {
    mallocs, frees := [], [];
    for k := 0 to |fs|
      invariant forall i :: 0 <= i < k ==> !UnguardedFree(fs[i])
      invariant k > main ==> AllSites(fs[main], MallocInst, |fs[main].blocks|, mallocs) && AllSites(fs[main], FreeInst, |fs[main].blocks|, frees)
    {
      var ok, ms, frs := CollectFunction(fs[k]);
      if !ok {
        assert fs[k] in fs;
        return false, [], [];
      }
      if fs[k].isMain {
        mallocs, frees := ms, frs;
      }
      hide UnguardedFree, AllSites;
    }
    CandidateSites(fs[main], mallocs);
    convert := mallocs != [];
    if !convert {
      frees := [];
    }
  }

  // ---- the emitted guards, as the interpreter evaluates them ----

  /** sub sp, size; icmp sge .., 5120 */
  function StackGuard(sp: Word, size: Word): bool {
    match Compute(Sub, Size64, sp, size)
    case None => false
    case Some(d) => Compute(Sge, Size64, d, STACK_DANGEROUS_REGION) == Some(1)
  }

  /** icmp sge ptr, 10240 */
  function HeapGuard(ptr: Word): bool { Compute(Sge, Size64, ptr, STACK_BOUNDARY) == Some(1) }

  /** Sizes so large that the subtraction wraps around to a positive number. */
  predicate WrapsAround(sp: Word, size: Word) { sp + HALF < size <= sp + W64 - STACK_DANGEROUS_REGION }

  /** The guard admits exactly the sizes that leave 5120 bytes, and those for which the subtraction wraps around. */
  lemma StackGuardIff(sp: Word, size: Word)
    requires sp <= STACK_BOUNDARY
    ensures StackGuard(sp, size) <==> size + 5120 <= sp || WrapsAround(sp, size)
  {
    hide Compute, Wrap;
    C.Compute64(Sub, sp, size);
    WrapDifference(sp, size);
    var d := Wrap((sp as int) - (size as int));
    C.Compute64(Sge, d, STACK_DANGEROUS_REGION);
  }

  lemma WrapDifference(a: Word, b: Word)
    ensures Wrap((a as int) - (b as int)) == if b <= a then a - b else (a as int) - (b as int) + W64
  {
    var d: int := (a as int) - (b as int);
    DivModUnique(d, W64, if b <= a then 0 else -1, if b <= a then d else d + W64);
  }

  /** The free guard is a signed comparison: it misses the upper half of the address space. */
  lemma HeapGuardIff(ptr: Word)
    ensures HeapGuard(ptr) <==> 10240 <= ptr < HALF
  {
    C.Compute64(Sge, ptr, STACK_BOUNDARY);
    hide Compute;
  }

  // ---- runs of the converted program ----

  /** A block the program has been given and not yet freed. */
  datatype Live = Live(addr: nat, size: nat, onHeap: bool)

  datatype Hybrid = Hybrid(sp: Word, heap: HeapState, live: seq<Live>)

  datatype Op = Request(size: Word, converted: bool) | Release(addr: Word)

  function AllocStep(h: Hybrid, size: Word, converted: bool): Option<Hybrid> {
    if converted && StackGuard(h.sp, size) then
      var sp := Wrap(h.sp - size);
      Some(Hybrid(sp, h.heap, h.live + [Live(sp, size, false)]))
    else match MallocOutcome(h.heap, size)
      case Failed(_) => None
      case Done(_, addr) => Some(Hybrid(h.sp, Malloc(h.heap, size), h.live + [Live(addr, size, true)]))
  }

  function LiveAt(live: seq<Live>, addr: nat): (k: nat)
    ensures k <= |live| && (k < |live| ==> live[k].addr == addr)
    ensures forall i :: 0 <= i < k ==> live[i].addr != addr
  {
    if live == [] || live[0].addr == addr then 0 else 1 + LiveAt(live[1..], addr)
  }

  function Forget(live: seq<Live>, addr: nat): seq<Live> {
    var k := LiveAt(live, addr);
    if k == |live| then live else live[..k] + live[k + 1..]
  }

  function ReleaseStep(h: Hybrid, addr: Word): Option<Hybrid> {
    if HeapGuard(addr) then
      if FreeOutcome(h.heap, addr).Failed? then None
      else Some(Hybrid(h.sp, Free(h.heap, addr), Forget(h.live, addr)))
    else Some(Hybrid(h.sp, h.heap, Forget(h.live, addr)))
  }

  function OpStep(h: Hybrid, op: Op): Option<Hybrid> {
    match op
    case Request(size, converted) => AllocStep(h, size, converted)
    case Release(addr) => ReleaseStep(h, addr)
  }

  /** What the source program may do: sizes the interpreter accepts that do not wrap around in a guard, and frees of
      live blocks only. */
  predicate ValidOp(h: Hybrid, op: Op) {
    match op
    case Request(size, converted) => 0 < size && size % 8 == 0 && !(converted && WrapsAround(h.sp, size))
    case Release(addr) => LiveAt(h.live, addr) < |h.live|
  }

  ghost predicate Separate(a: Live, b: Live) { a.addr + a.size <= b.addr || b.addr + b.size <= a.addr }

  ghost predicate IsBlock(alloced: seq<Heap.Alloc>, addr: nat, size: nat) {
    exists k :: 0 <= k < |alloced| && alloced[k].lo == addr && alloced[k].hi == addr + size
  }

  /** Where a live block may be. */
  ghost predicate Placed(h: Hybrid, top: nat, l: Live) {
    && l.size > 0
    && (if l.onHeap then IsBlock(h.heap.alloced, l.addr, l.size)
        else h.sp <= l.addr && STACK_DANGEROUS_REGION <= l.addr && l.addr + l.size <= top)
  }

  ghost predicate HybridOk(h: Hybrid, top: nat) {
    && StateOk(h.heap) && h.sp <= top <= STACK_BOUNDARY && (h.sp == top || STACK_DANGEROUS_REGION <= h.sp)
    && (forall i :: 0 <= i < |h.live| ==> Placed(h, top, h.live[i]))
    && (forall i, j :: 0 <= i < j < |h.live| ==> Separate(h.live[i], h.live[j]))
  }

  lemma BlockRange(alloced: seq<Heap.Alloc>, addr: nat, size: nat)
    requires AllocedOk(alloced) && IsBlock(alloced, addr, size)
    ensures HEAP_MIN <= addr && addr + size <= HEAP_MAX
  {
    var k :| 0 <= k < |alloced| && alloced[k].lo == addr && alloced[k].hi == addr + size;
    assert InRange(alloced[k].lo, alloced[k].hi);
  }

  /** A block carved out below everything live on the stack. */
  lemma StackAllocOk(h: Hybrid, top: nat, size: Word)
    requires HybridOk(h, top) && 0 < size && size + STACK_DANGEROUS_REGION <= h.sp
    ensures HybridOk(Hybrid(h.sp - size, h.heap, h.live + [Live(h.sp - size, size, false)]), top)
  {
    var new' := Live(h.sp - size, size, false);
    forall i | 0 <= i < |h.live|
      ensures Separate(h.live[i], new')
    {
      assert Placed(h, top, h.live[i]);
      if h.live[i].onHeap {
        BlockRange(h.heap.alloced, h.live[i].addr, h.live[i].size);
      }
    }
    var h' := Hybrid(h.sp - size, h.heap, h.live + [new']);
    forall i | 0 <= i < |h'.live|
      ensures Placed(h', top, h'.live[i])
    {
      assert i < |h.live| ==> Placed(h, top, h.live[i]);
    }
    hide StateOk, Separate, Placed;
  }

  lemma InsertedBlocks(alloced: seq<Heap.Alloc>, a: Heap.Alloc, addr: nat, size: nat)
    requires IsBlock(alloced, addr, size)
    ensures IsBlock(Insert(alloced, a), addr, size)
  {
    InsertItems(alloced, a);
    var n := InsertAt(alloced, a.lo);
    hide Insert, InsertAt;
    var k :| 0 <= k < |alloced| && alloced[k].lo == addr && alloced[k].hi == addr + size;
    var k' := if k < n then k else k + 1;
    assert Insert(alloced, a)[k'] == alloced[k];
  }

  lemma InsertedSelf(alloced: seq<Heap.Alloc>, a: Heap.Alloc)
    requires a.lo <= a.hi
    ensures IsBlock(Insert(alloced, a), a.lo, a.hi - a.lo)
  {
    InsertItems(alloced, a);
    hide Insert, InsertAt;
    assert Insert(alloced, a)[InsertAt(alloced, a.lo)] == a;
  }

  /** A run of unallocated bytes misses every allocated block. */
  lemma RunMisses(alloced: seq<Heap.Alloc>, lo: nat, size: nat, addr: nat, size': nat)
    requires IsRun(alloced, lo, size) && IsBlock(alloced, addr, size') && size > 0 && size' > 0
    ensures addr + size' <= lo || lo + size <= addr
  {
    var k :| 0 <= k < |alloced| && alloced[k].lo == addr && alloced[k].hi == addr + size';
    var x := if addr < lo then lo else addr;
    assert addr <= x < addr + size' ==> InAlloc(alloced, x);
  }

  lemma HeapAllocOk(h: Hybrid, top: nat, size: Word)
    requires HybridOk(h, top) && size > 0 && MallocOutcome(h.heap, size).Done?
    ensures HybridOk(Hybrid(h.sp, Malloc(h.heap, size), h.live + [Live(MallocOutcome(h.heap, size).value, size, true)]), top)
  {
    var lo := MallocOutcome(h.heap, size).value;
    var new' := Live(lo, size, true);
    var h' := Hybrid(h.sp, Malloc(h.heap, size), h.live + [new']);
    MallocOk(h.heap, size);
    MallocFirstFit(h.heap, size);
    assert h'.heap.alloced == Insert(h.heap.alloced, NewBlock(lo, size));
    InsertedSelf(h.heap.alloced, NewBlock(lo, size));
    hide Malloc, MallocOutcome, Insert, StateOk, IsRun;
    forall i | 0 <= i < |h.live|
      ensures Separate(h.live[i], new') && Placed(h', top, h.live[i])
    {
      var l := h.live[i];
      assert Placed(h, top, l);
      if l.onHeap {
        RunMisses(h.heap.alloced, lo, size, l.addr, l.size);
        InsertedBlocks(h.heap.alloced, NewBlock(lo, size), l.addr, l.size);
      } else {
        RunStart(h.heap.alloced, lo, size);
      }
    }
    hide Separate, IsBlock;
  }

  lemma RunStart(alloced: seq<Heap.Alloc>, lo: nat, size: nat)
    requires IsRun(alloced, lo, size)
    ensures HEAP_MIN <= lo
  {
  }

  /** A wrapped size moves the stack pointer up, and the block reaches beyond the stack. */
  lemma WrappedBlock(h: Hybrid, top: nat, size: Word)
    requires HybridOk(h, top) && WrapsAround(h.sp, size)
    ensures Wrap(h.sp - size) == h.sp - size + W64 > h.sp
    ensures AllocStep(h, size, true).Some? ==> !HybridOk(AllocStep(h, size, true).value, top)
  {
    hide StackGuard, StateOk, Malloc, MallocOutcome;
    StackGuardIff(h.sp, size);
    DivModUnique(h.sp - size, W64, -1, h.sp - size + W64);
    var h' := AllocStep(h, size, true).value;
    hide HybridOk, Wrap;
    if HybridOk(h', top) {
      LivePlaced(h', top, |h.live|);
    }
  }

  lemma LivePlaced(h: Hybrid, top: nat, i: nat)
    requires HybridOk(h, top) && i < |h.live|
    ensures Placed(h, top, h.live[i]) && top <= STACK_BOUNDARY
  {
    hide Placed, StateOk, Separate;
  }

  /** An allocation keeps live blocks apart and the stack's reserve if and only if no guard meets a size that wraps. */
  lemma AllocKeepsIff(h: Hybrid, top: nat, size: Word, converted: bool)
    requires HybridOk(h, top) && 0 < size && AllocStep(h, size, converted).Some?
    ensures HybridOk(AllocStep(h, size, converted).value, top) <==> !(converted && WrapsAround(h.sp, size))
  {
    hide Malloc, MallocOutcome, StateOk, Placed, Separate, StackGuard;
    StackGuardIff(h.sp, size);
    if converted && WrapsAround(h.sp, size) {
      WrappedBlock(h, top, size);
    } else if converted && StackGuard(h.sp, size) {
      StackAllocOk(h, top, size);
      DivModUnique(h.sp - size, W64, 0, h.sp - size);
    } else {
      HeapAllocOk(h, top, size);
    }
  }

  lemma TooLargeForHeap(size: Word)
    requires size > HEAP_MAX - HEAP_MIN
    ensures MallocOutcome(InitialHeap, size).Failed?
  {
    FirstFitIs(InitialHeap.freed, size, 1);
    hide FirstFit;
  }

  lemma StartsKept(h: Hybrid)
    requires StartsOk(h, STACK_BOUNDARY)
    ensures HybridOk(h, STACK_BOUNDARY)
  {
    InitialOk();
    hide StateOk;
  }

  /** A size that wraps: malloc refuses it, but the guard admits it and the stack pointer ends above the stack. */
  lemma WrappedSizeIsAdmitted(h: Hybrid)
    requires StartsOk(h, STACK_BOUNDARY)
    ensures AllocStep(h, W64 - 8, false) == None
    ensures AllocStep(h, W64 - 8, true) == Some(Hybrid(STACK_BOUNDARY + 8, h.heap, [Live(STACK_BOUNDARY + 8, W64 - 8, false)]))
    ensures HybridOk(h, STACK_BOUNDARY) && !HybridOk(AllocStep(h, W64 - 8, true).value, STACK_BOUNDARY)
  {
    hide StackGuard, Malloc, MallocOutcome, StateOk, HybridOk, Wrap;
    TooLargeForHeap(W64 - 8);
    StartsKept(h);
    StackGuardIff(h.sp, W64 - 8);
    WrappedBlock(h, STACK_BOUNDARY, W64 - 8);
    var l := Live(STACK_BOUNDARY + 8, W64 - 8, false);
    assert h.live + [l] == [l];
  }

  /** Where a request goes: a guarded one that leaves 5120 bytes goes to the stack right below the stack pointer, and,
      unless it wraps around, any other one to the lowest run of unallocated heap bytes, or fails if there is none. */
  lemma AllocGoes(h: Hybrid, top: nat, size: Word, converted: bool)
    requires HybridOk(h, top) && 0 < size && size % 8 == 0 && !(converted && WrapsAround(h.sp, size))
    ensures var r := AllocStep(h, size, converted);
            if converted && size + STACK_DANGEROUS_REGION <= h.sp
            then r == Some(Hybrid(h.sp - size, h.heap, h.live + [Live(h.sp - size, size, false)]))
            else (r.Some? <==> exists a: nat :: IsRun(h.heap.alloced, a, size))
    ensures var r := AllocStep(h, size, converted);
            r.Some? && !(converted && size + STACK_DANGEROUS_REGION <= h.sp) ==>
              && r.value.sp == h.sp && |r.value.live| == |h.live| + 1 && r.value.live[..|h.live|] == h.live
              && var l := r.value.live[|h.live|];
              && l.size == size && l.onHeap && IsRun(h.heap.alloced, l.addr, size)
              && forall a: nat :: IsRun(h.heap.alloced, a, size) ==> l.addr <= a
  {
    hide Malloc, MallocOutcome, Placed, Separate, StackGuard, IsRun, Wrap;
    HeapOfHybrid(h, top);
    StackGuardIff(h.sp, size);
    MallocFirstFit(h.heap, size);
    if converted && StackGuard(h.sp, size) {
      WrapDifference(h.sp, size);
    }
    hide StateOk;
  }

  lemma ForgetItems(live: seq<Live>, addr: nat)
    ensures forall i :: 0 <= i < |Forget(live, addr)| ==> Forget(live, addr)[i] in live
    ensures (forall i, j :: 0 <= i < j < |live| ==> Separate(live[i], live[j])) ==>
            forall i, j :: 0 <= i < j < |Forget(live, addr)| ==> Separate(Forget(live, addr)[i], Forget(live, addr)[j])
  {
    var k, r := LiveAt(live, addr), Forget(live, addr);
    hide LiveAt, Separate;
    assert k < |live| ==> forall i :: 0 <= i < |r| ==> r[i] == live[if i < k then i else i + 1];
  }

  /** Blocks that do not start at the freed address stay. */
  lemma FreedBlocks(h: HeapState, addr: Word, addr': nat, size: nat)
    requires StateOk(h) && addr' != addr && IsBlock(h.alloced, addr', size)
    ensures IsBlock(Free(h, addr).alloced, addr', size)
  {
    hide StateOk, Coalesce;
    var n := StartsAt(h.alloced, addr);
    var k :| 0 <= k < |h.alloced| && h.alloced[k].lo == addr' && h.alloced[k].hi == addr' + size;
    if n < |h.alloced| {
      var r := h.alloced[..n] + h.alloced[n + 1..];
      assert r[if k < n then k else k - 1] == h.alloced[k];
    }
  }

  /** The guard frees exactly the blocks the heap allocator returned, below 2^63; a free of a live block never fails. */
  lemma ReleaseSucceeds(h: Hybrid, top: nat, addr: Word)
    requires HybridOk(h, top) && LiveAt(h.live, addr) < |h.live|
    ensures HeapGuard(addr) <==> h.live[LiveAt(h.live, addr)].onHeap && addr < HALF
    ensures HeapGuard(addr) ==> FreeOutcome(h.heap, addr).Done?
    ensures ReleaseStep(h, addr).Some?
  {
    var k := LiveAt(h.live, addr);
    var l := h.live[k];
    hide LiveAt, HeapGuard;
    HeapGuardIff(addr);
    assert Placed(h, top, l);
    FreeSucceedsIff(h.heap, addr);
    if l.onHeap {
      BlockRange(h.heap.alloced, l.addr, l.size);
    }
    hide StateOk, FreeOutcome, Free;
  }

  /** What a release does: the first entry of that address is forgotten, and the allocated heap is without the block if the
      guard holds, unchanged otherwise. */
  lemma ReleaseGoes(h: Hybrid, top: nat, addr: Word)
    requires HybridOk(h, top) && LiveAt(h.live, addr) < |h.live|
    ensures var k := LiveAt(h.live, addr);
            var r := ReleaseStep(h, addr);
            && r.Some? && r.value.sp == h.sp && r.value.live == h.live[..k] + h.live[k + 1..]
            && (if h.live[k].onHeap && addr < HALF
                then forall x :: InAlloc(r.value.heap.alloced, x) <==>
                       InAlloc(h.heap.alloced, x) && !(addr <= x < addr + h.live[k].size)
                else r.value.heap == h.heap)
  {
    hide Separate, HeapGuard, FreeOutcome, Free, StateOk, LiveAt;
    ReleaseSucceeds(h, top, addr);
    var k := LiveAt(h.live, addr);
    assert Placed(h, top, h.live[k]);
    HeapOfHybrid(h, top);
    if h.live[k].onHeap {
      FreedBytes(h.heap, addr, h.live[k].size);
    }
  }

  /** A release fails exactly if the guard holds and no allocated block starts at the address. */
  lemma ReleaseFailsIff(h: Hybrid, top: nat, addr: Word)
    requires HybridOk(h, top)
    ensures ReleaseStep(h, addr).None? <==> 10240 <= addr < HALF && !StartsBlock(h.heap.alloced, addr)
  {
    HeapGuardIff(addr);
    HeapOfHybrid(h, top);
    FreeSucceedsIff(h.heap, addr);
    hide HeapGuard, FreeOutcome, Free, StateOk;
  }

  lemma FreedBytes(h: HeapState, addr: Word, size: nat)
    requires StateOk(h) && IsBlock(h.alloced, addr, size)
    ensures forall x :: InAlloc(Free(h, addr).alloced, x) <==> InAlloc(h.alloced, x) && !(addr <= x < addr + size)
  {
    var k :| 0 <= k < |h.alloced| && h.alloced[k].lo == addr && h.alloced[k].hi == addr + size;
    StartsAtIs(h.alloced, addr, k);
    RemoveAlloc(h.alloced, k);
    hide StartsAt, Coalesce, InAlloc, StateOk;
  }

  /** Live blocks are apart and not empty, so only one starts at an address. */
  lemma OthersElsewhere(live: seq<Live>, addr: nat, i: nat)
    requires forall a, b :: 0 <= a < b < |live| ==> Separate(live[a], live[b])
    requires forall a :: 0 <= a < |live| ==> live[a].size > 0
    requires i < |Forget(live, addr)|
    ensures Forget(live, addr)[i].addr != addr
  {
    var k := LiveAt(live, addr);
    if k < |live| {
      var j := if i < k then i else i + 1;
      assert Forget(live, addr)[i] == live[j];
      hide LiveAt;
      assert if j < k then Separate(live[j], live[k]) else Separate(live[k], live[j]);
    } else {
      assert Forget(live, addr) == live;
    }
  }

  lemma ReleaseKeeps(h: Hybrid, top: nat, addr: Word)
    requires HybridOk(h, top) && ReleaseStep(h, addr).Some?
    ensures HybridOk(ReleaseStep(h, addr).value, top)
  {
    hide Separate, HeapGuard, FreeOutcome;
    var h' := ReleaseStep(h, addr).value;
    ForgetItems(h.live, addr);
    FreeOk(h.heap, addr);
    assert h'.live == Forget(h.live, addr) && h'.sp == h.sp;
    hide Forget, StateOk;
    forall i | 0 <= i < |h'.live|
      ensures Placed(h', top, h'.live[i])
    {
      assert h'.live[i] in h.live;
      var j :| 0 <= j < |h.live| && h.live[j] == h'.live[i];
      assert Placed(h, top, h.live[j]);
      assert forall a :: 0 <= a < |h.live| ==> Placed(h, top, h.live[a]);
      OthersElsewhere(h.live, addr, i);
      if h'.live[i].onHeap && h'.heap != h.heap {
        FreedBlocks(h.heap, addr, h'.live[i].addr, h'.live[i].size);
      }
    }
    hide Placed;
  }

  function HybridRun(h: Hybrid, ops: seq<Op>): Option<Hybrid> {
    if ops == [] then Some(h)
    else match HybridRun(h, ops[..|ops| - 1])
      case None => None
      case Some(h') => OpStep(h', ops[|ops| - 1])
  }

  /** Every operation is one the source program may do where it is done. */
  ghost predicate ValidRun(h: Hybrid, ops: seq<Op>) {
    ops == [] ||
    (ValidRun(h, ops[..|ops| - 1]) &&
     (HybridRun(h, ops[..|ops| - 1]).Some? ==> ValidOp(HybridRun(h, ops[..|ops| - 1]).value, ops[|ops| - 1])))
  }

  /** main starts with nothing allocated and its stack pointer below the stack's end. */
  ghost predicate StartsOk(h: Hybrid, top: nat) {
    h.sp == top <= STACK_BOUNDARY && h.heap == InitialHeap && h.live == []
  }

  /** Over every valid run: live blocks are disjoint, the stack pointer keeps its reserve, and no free fails. */
  lemma {:induction false} HybridRunOk(h: Hybrid, top: nat, ops: seq<Op>)
    requires StartsOk(h, top) && ValidRun(h, ops)
    ensures HybridRun(h, ops).Some? ==> HybridOk(HybridRun(h, ops).value, top)
    ensures ops != [] && ops[|ops| - 1].Release? && HybridRun(h, ops[..|ops| - 1]).Some? ==> HybridRun(h, ops).Some?
  {
    hide AllocStep, ReleaseStep, StateOk, LiveAt, Separate, Placed;
    if ops == [] {
      InitialOk();
    } else {
      var before := HybridRun(h, ops[..|ops| - 1]);
      HybridRunOk(h, top, ops[..|ops| - 1]);
      if before.Some? {
        match ops[|ops| - 1]
        case Request(size, converted) =>
          if AllocStep(before.value, size, converted).Some? {
            AllocKeepsIff(before.value, top, size, converted);
          }
        case Release(addr) =>
          ReleaseSucceeds(before.value, top, addr);
          ReleaseKeeps(before.value, top, addr);
      }
    }
  }

  // ---- runs that ask for less than 2^63 bytes ----

  function Requested(ops: seq<Op>): nat {
    if ops == [] then 0
    else Requested(ops[..|ops| - 1]) + if ops[|ops| - 1].Request? then ops[|ops| - 1].size else 0
  }

  ghost predicate EndsBelow(alloced: seq<Heap.Alloc>, limit: nat) { forall k :: 0 <= k < |alloced| ==> alloced[k].hi <= limit }

  /** First fit goes no higher than the blocks already there. */
  lemma MallocStaysLow(h: HeapState, size: Word, limit: nat)
    requires StateOk(h) && EndsBelow(h.alloced, limit) && HEAP_MIN <= limit
    ensures EndsBelow(Malloc(h, size).alloced, limit + size)
  {
    if MallocOutcome(h, size).Done? {
      MallocFirstFit(h, size);
      var lo := MallocOutcome(h, size).value;
      if limit + size <= HEAP_MAX {
        assert IsRun(h.alloced, limit, size);
      }
      InsertItems(h.alloced, NewBlock(lo, size));
      var r := Insert(h.alloced, NewBlock(lo, size));
      var n := InsertAt(h.alloced, lo);
      hide StateOk, MallocOutcome, Insert, InsertAt, NewBlock;
      assert Malloc(h, size).alloced == r;
      assert forall k :: 0 <= k < |r| ==> r[k] == if k < n then h.alloced[k] else if k == n then NewBlock(lo, size) else h.alloced[k - 1];
      assert NewBlock(lo, size).hi == lo + size by {
        NewBlockEnd(lo, size);
      }
    }
  }

  lemma NewBlockEnd(lo: nat, size: nat)
    ensures NewBlock(lo, size).lo == lo && NewBlock(lo, size).hi == lo + size
  {
  }

  lemma FreeStaysLow(h: HeapState, addr: Word, limit: nat)
    requires EndsBelow(h.alloced, limit)
    ensures EndsBelow(Free(h, addr).alloced, limit)
  {
    hide Coalesce;
  }

  lemma {:induction false} RunStaysLow(h: Hybrid, top: nat, ops: seq<Op>)
    requires StartsOk(h, top) && ValidRun(h, ops) && HybridRun(h, ops).Some?
    ensures EndsBelow(HybridRun(h, ops).value.heap.alloced, HEAP_MIN + Requested(ops))
  {
    hide Malloc, MallocOutcome, Free, FreeOutcome, StackGuard, HeapGuard, HybridOk, StateOk, EndsBelow, Forget, ValidOp, Wrap;
    if ops != [] {
      var before := HybridRun(h, ops[..|ops| - 1]).value;
      var limit := HEAP_MIN + Requested(ops[..|ops| - 1]);
      RunStaysLow(h, top, ops[..|ops| - 1]);
      HybridRunOk(h, top, ops[..|ops| - 1]);
      HeapOfHybrid(before, top);
      match ops[|ops| - 1]
      case Request(size, _) =>
        MallocStaysLow(before.heap, size, limit);
        Higher(before.heap.alloced, limit, limit + size);
      case Release(addr) =>
        FreeStaysLow(before.heap, addr, limit);
    } else {
      NothingAlloced(h.heap.alloced, HEAP_MIN);
    }
  }

  lemma HeapOfHybrid(h: Hybrid, top: nat)
    requires HybridOk(h, top)
    ensures StateOk(h.heap)
  {
    hide StateOk;
  }

  lemma Higher(alloced: seq<Heap.Alloc>, limit: nat, limit': nat)
    requires EndsBelow(alloced, limit) && limit <= limit'
    ensures EndsBelow(alloced, limit')
  {
  }

  lemma NothingAlloced(alloced: seq<Heap.Alloc>, limit: nat)
    requires alloced == []
    ensures EndsBelow(alloced, limit)
  {
  }

  /** As long as the requests of a run do not add up to 2^63 - 20480 bytes, the free guard is right for every live block. */
  lemma ModestRunsRelease(h: Hybrid, top: nat, ops: seq<Op>, addr: Word)
    requires StartsOk(h, top) && ValidRun(h, ops) && HybridRun(h, ops).Some?
    requires Requested(ops) <= HALF - HEAP_MIN
    requires var live := HybridRun(h, ops).value.live; LiveAt(live, addr) < |live|
    ensures var live := HybridRun(h, ops).value.live; HeapGuard(addr) <==> live[LiveAt(live, addr)].onHeap
  {
    hide HybridRun, ValidRun, HeapGuard, StateOk, LiveAt, Separate, ReleaseStep, FreeOutcome;
    var end := HybridRun(h, ops).value;
    HybridRunOk(h, top, ops);
    RunStaysLow(h, top, ops);
    ReleaseSucceeds(end, top, addr);
    var l := end.live[LiveAt(end.live, addr)];
    assert Placed(end, top, l);
    if l.onHeap {
      var k :| 0 <= k < |end.heap.alloced| && end.heap.alloced[k].lo == l.addr && end.heap.alloced[k].hi == l.addr + l.size;
    }
  }

  /** The signed test really misses heap blocks: a valid run whose free of a heap block gives nothing back. */
  lemma HighBlockIsKept(h: Hybrid)
    requires StartsOk(h, STACK_BOUNDARY)
    ensures var ops := [Request(HALF - 8, false), Request(8, false)];
            var end := HybridRun(h, ops);
            && ValidRun(h, ops) && end.Some? && |end.value.live| == 2
            && end.value.live[1].onHeap && end.value.live[1].addr == HEAP_MIN + HALF - 8
            && ReleaseStep(end.value, HEAP_MIN + HALF - 8).Some?
            && ReleaseStep(end.value, HEAP_MIN + HALF - 8).value.heap == end.value.heap
  {
    var h1 := AllocStep(h, HALF - 8, false);
    FirstFitIs(InitialHeap.freed, HALF - 8, 0);
    assert h1.Some? && h1.value.heap.freed == [Block(HEAP_MIN + HALF - 8, HEAP_MAX)] && h1.value.live == [Live(HEAP_MIN, HALF - 8, true)];
    FirstFitIs(h1.value.heap.freed, 8, 0);
    var h2 := AllocStep(h1.value, 8, false);
    assert h2.Some? && h2.value.live == h1.value.live + [Live(HEAP_MIN + HALF - 8, 8, true)];
    HeapGuardIff(HEAP_MIN + HALF - 8);
    hide AllocStep, HeapGuard, Malloc, MallocOutcome;
    var a, b := Request(HALF - 8, false), Request(8, false);
    assert [a, b][..1] == [a] && [a][..0] == [];
    assert HybridRun(h, []) == Some(h);
    assert HybridRun(h, [a]) == h1;
    assert HybridRun(h, [a, b]) == h2;
    assert ValidRun(h, []) && ValidRun(h, [a]);
  }
}
