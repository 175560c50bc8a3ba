/** The interpreter's memory (interpreter/src/memory.cpp): stack bytes, a first-fit heap and a head position that prices accesses. */
module MemoryMachine {
  import opened Words
  import opened Interp
  import opened Bytes
  import opened Heap
  import opened HeapCalls

  const NOWHERE := 0xFFFF_FFFF_FFFF_FFFF // (uint64_t)-1, the head before the first access or reset

  predicate AccessSize(n: nat) { n in {1, 2, 4, 8} }

  predicate IsStack(n: nat, addr: nat) { addr + n <= STACK_MAX }

  predicate IsHeap(n: nat, addr: nat) { HEAP_MIN <= addr && addr + n <= HEAP_MAX }

  function Distance(a: nat, b: nat): nat { if a > b then a - b else b - a }

  /** The price of moving the head to addr. */
  function AccessCost(head: nat, base: nat, addr: nat): nat {
    if head == NOWHERE then 0 else base + Distance(addr, head)
  }

  // ---- looking a heap byte up ----

  /** The last block starting at or below addr, provided it reaches beyond addr. */
  function FindBlock(alloced: seq<Alloc>, addr: nat): Option<nat> {
    var k := InsertAt(alloced, addr + 1);
    if k == 0 || alloced[k - 1].hi <= addr then None else Some(k - 1)
  }

  lemma FindBlockFinds(alloced: seq<Alloc>, addr: nat)
    requires AllocedOk(alloced)
    ensures FindBlock(alloced, addr).Some? <==> InAlloc(alloced, addr)
    ensures FindBlock(alloced, addr).Some? ==>
              var k := FindBlock(alloced, addr).value; k < |alloced| && alloced[k].lo <= addr < alloced[k].hi
  {
    hide InRange;
    var k := InsertAt(alloced, addr + 1);
    if j :| 0 <= j < |alloced| && alloced[j].lo <= addr < alloced[j].hi {
      assert j < k;
    }
    assert k > 0 ==> alloced[k - 1].lo < addr + 1;
  }

  /** Blocks do not overlap, so the block holding addr is the one found. */
  lemma FindBlockIs(alloced: seq<Alloc>, addr: nat, k: nat)
    requires AllocedOk(alloced) && k < |alloced| && alloced[k].lo <= addr < alloced[k].hi
    ensures FindBlock(alloced, addr) == Some(k)
  {
    FindBlockFinds(alloced, addr);
    assert InAlloc(alloced, addr);
    hide FindBlock;
    var j := FindBlock(alloced, addr).value;
  }

  ghost function HeapByte(alloced: seq<Alloc>, x: nat): Option<Byte>
    requires AllocedOk(alloced)
  {
    FindBlockFinds(alloced, x);
    match FindBlock(alloced, x)
    case None => None
    case Some(k) => Some(alloced[k].data[x - alloced[k].lo])
  }

  lemma HeapByteIs(alloced: seq<Alloc>, x: nat, k: nat)
    requires AllocedOk(alloced) && k < |alloced| && alloced[k].lo <= x < alloced[k].hi
    ensures HeapByte(alloced, x) == Some(alloced[k].data[x - alloced[k].lo])
  {
    FindBlockIs(alloced, x, k);
  }

  lemma HeapByteNone(alloced: seq<Alloc>, x: nat)
    requires AllocedOk(alloced)
    ensures HeapByte(alloced, x).Some? <==> InAlloc(alloced, x)
  {
    FindBlockFinds(alloced, x);
  }

  /** Two heaps whose blocks around x agree hold the same byte at x. */
  lemma SameByte(alloced: seq<Alloc>, alloced': seq<Alloc>, x: nat)
    requires AllocedOk(alloced) && AllocedOk(alloced') && InAlloc(alloced, x) == InAlloc(alloced', x)
    requires forall k :: 0 <= k < |alloced| && alloced[k].lo <= x < alloced[k].hi ==> alloced[k] in alloced'
    ensures HeapByte(alloced', x) == HeapByte(alloced, x)
  {
    HeapByteNone(alloced, x);
    HeapByteNone(alloced', x);
    hide HeapByte, AllocedOk;
    if InAlloc(alloced, x) {
      var k :| 0 <= k < |alloced| && alloced[k].lo <= x < alloced[k].hi;
      var j :| 0 <= j < |alloced'| && alloced'[j] == alloced[k];
      HeapByteIs(alloced, x, k);
      HeapByteIs(alloced', x, j);
    }
  }

  lemma InsertByte(alloced: seq<Alloc>, a: Alloc, x: nat)
    requires AllocedOk(alloced) && AllocedOk(Insert(alloced, a)) && |a.data| == a.hi - a.lo
    ensures HeapByte(Insert(alloced, a), x) == if a.lo <= x < a.hi then Some(a.data[x - a.lo]) else HeapByte(alloced, x)
  {
    InsertMembers(alloced, a);
    InsertItems(alloced, a);
    var r, n := Insert(alloced, a), InsertAt(alloced, a.lo);
    hide Insert, InsertAt, HeapByte, AllocedOk;
    if a.lo <= x < a.hi {
      HeapByteIs(r, x, n);
    } else {
      forall k | 0 <= k < |alloced|
        ensures alloced[k] in r
      {
        assert r[if k < n then k else k + 1] == alloced[k];
      }
      SameByte(alloced, r, x);
    }
  }

  lemma RemoveByte(alloced: seq<Alloc>, n: nat, x: nat)
    requires AllocedOk(alloced) && n < |alloced| && AllocedOk(alloced[..n] + alloced[n + 1..])
    ensures HeapByte(alloced[..n] + alloced[n + 1..], x) == if alloced[n].lo <= x < alloced[n].hi then None else HeapByte(alloced, x)
  {
    RemoveAlloc(alloced, n);
    var r := alloced[..n] + alloced[n + 1..];
    HeapByteNone(r, x);
    hide HeapByte, AllocedOk;
    if !(alloced[n].lo <= x < alloced[n].hi) {
      forall k | 0 <= k < |alloced| && k != n
        ensures alloced[k] in r
      {
        assert r[if k < n then k else k - 1] == alloced[k];
      }
      SameByte(alloced, r, x);
    }
  }

  // ---- bytes of one block ----

  /** data with bs written at offset at. */
  function Overwrite(data: seq<Byte>, at: nat, bs: seq<Byte>): (r: seq<Byte>)
    requires at + |bs| <= |data|
    ensures |r| == |data|
    ensures forall i :: 0 <= i < |data| ==> r[i] == if at <= i < at + |bs| then bs[i - at] else data[i]
  {
    data[..at] + bs + data[at + |bs|..]
  }

  /** The heap after bs is written at addr inside block k. */
  function WriteBlock(alloced: seq<Alloc>, k: nat, addr: nat, bs: seq<Byte>): seq<Alloc>
    requires k < |alloced| && alloced[k].lo <= addr && addr - alloced[k].lo + |bs| <= |alloced[k].data|
  {
    var a := alloced[k];
    alloced[k := Alloc(a.lo, a.hi, Overwrite(a.data, addr - a.lo, bs))]
  }

  lemma WriteBlockOk(alloced: seq<Alloc>, k: nat, addr: nat, bs: seq<Byte>)
    requires AllocedOk(alloced) && k < |alloced| && alloced[k].lo <= addr && addr + |bs| <= alloced[k].hi
    ensures AllocedOk(WriteBlock(alloced, k, addr, bs)) && |WriteBlock(alloced, k, addr, bs)| == |alloced|
    ensures forall j :: 0 <= j < |alloced| ==> WriteBlock(alloced, k, addr, bs)[j].lo == alloced[j].lo && WriteBlock(alloced, k, addr, bs)[j].hi == alloced[j].hi
    ensures forall j :: 0 <= j < |alloced| && j != k ==> WriteBlock(alloced, k, addr, bs)[j] == alloced[j]
    ensures forall x :: InAlloc(WriteBlock(alloced, k, addr, bs), x) <==> InAlloc(alloced, x)
  {
    hide InRange;
    var r := WriteBlock(alloced, k, addr, bs);
    assert forall j :: 0 <= j < |alloced| ==> r[j].lo == alloced[j].lo && r[j].hi == alloced[j].hi;
  }

  lemma WriteBlockByte(alloced: seq<Alloc>, k: nat, addr: nat, bs: seq<Byte>, x: nat)
    requires AllocedOk(alloced) && k < |alloced| && alloced[k].lo <= addr && addr + |bs| <= alloced[k].hi
    ensures AllocedOk(WriteBlock(alloced, k, addr, bs))
    ensures HeapByte(WriteBlock(alloced, k, addr, bs), x)
         == if addr <= x < addr + |bs| then Some(bs[x - addr]) else HeapByte(alloced, x)
  {
    hide HeapByte;
    WriteBlockOk(alloced, k, addr, bs);
    var r := WriteBlock(alloced, k, addr, bs);
    if alloced[k].lo <= x < alloced[k].hi {
      hide InAlloc, InRange;
      HeapByteIs(alloced, x, k);
      HeapByteIs(r, x, k);
    } else {
      hide AllocedOk, WriteBlock;
      SameByte(alloced, r, x);
    }
  }

  lemma WriteBlockHeap(freed: seq<Block>, alloced: seq<Alloc>, k: nat, addr: nat, bs: seq<Byte>)
    requires HeapOk(freed, alloced) && k < |alloced| && alloced[k].lo <= addr && addr + |bs| <= alloced[k].hi
    ensures HeapOk(freed, WriteBlock(alloced, k, addr, bs))
    ensures Total(WriteBlock(alloced, k, addr, bs)) == Total(alloced)
  {
    WriteBlockOk(alloced, k, addr, bs);
    var r := WriteBlock(alloced, k, addr, bs);
    SameTotal(alloced, r);
    hide WriteBlock, InAlloc, AllocedOk, FreedOk, InFree, Total;
    forall i, j | 0 <= i < |freed| && 0 <= j < |r|
      ensures Apart(freed[i], r[j])
    {
      assert Apart(freed[i], alloced[j]);
    }
  }

  lemma {:induction false} SameTotal(a: seq<Alloc>, b: seq<Alloc>)
    requires |a| == |b| && forall j :: 0 <= j < |a| ==> a[j].lo == b[j].lo && a[j].hi == b[j].hi
    ensures Total(a) == Total(b)
  {
    if a != [] {
      SameTotal(a[1..], b[1..]);
    }
  }

  lemma AlignedEnd(n: nat, addr: nat, hi: nat)
    requires AccessSize(n) && addr % n == 0 && hi % 8 == 0 && addr < hi
    ensures addr + n <= hi
  {
    if n == 1 {
    } else if n == 2 {
    } else if n == 4 {
    } else {
      assert n == 8;
    }
  }

  /** An aligned access whose first byte lies in a block lies in it wholly: blocks start and end at multiples of 8. */
  lemma AlignedInside(alloced: seq<Alloc>, n: nat, addr: nat)
    requires AllocedOk(alloced) && AccessSize(n) && addr % n == 0 && InAlloc(alloced, addr)
    ensures FindBlock(alloced, addr).Some?
    ensures var k := FindBlock(alloced, addr).value; k < |alloced| && alloced[k].lo <= addr && addr + n <= alloced[k].hi
  {
    FindBlockFinds(alloced, addr);
    var k := FindBlock(alloced, addr).value;
    hide FindBlock;
    assert InRange(alloced[k].lo, alloced[k].hi);
    AlignedEnd(n, addr, alloced[k].hi);
  }

  // ---- the bytes a program can touch ----

  /** The byte at x of a memory with these stack bytes and allocated blocks, if the program may touch it. */
  ghost function ByteOf(stack: seq<Byte>, alloced: seq<Alloc>, x: nat): Option<Byte>
    requires AllocedOk(alloced)
  {
    if x < |stack| then Some(stack[x]) else HeapByte(alloced, x)
  }

  /** The bytes bs lie at addr and may all be touched. */
  ghost predicate Holds(stack: seq<Byte>, alloced: seq<Alloc>, addr: nat, bs: seq<Byte>)
    requires AllocedOk(alloced)
  {
    forall i :: 0 <= i < |bs| ==> ByteOf(stack, alloced, addr + i) == Some(bs[i])
  }

  /** The second memory is the first with bs written at addr. */
  ghost predicate Written(stack: seq<Byte>, alloced: seq<Alloc>, stack': seq<Byte>, alloced': seq<Alloc>, addr: nat, bs: seq<Byte>)
    requires AllocedOk(alloced) && AllocedOk(alloced')
  {
    forall x: nat :: ByteOf(stack', alloced', x) == if addr <= x < addr + |bs| then Some(bs[x - addr]) else ByteOf(stack, alloced, x)
  }

  lemma HeapHolds(stack: seq<Byte>, alloced: seq<Alloc>, k: nat, addr: nat, n: nat)
    requires AllocedOk(alloced) && k < |alloced| && |stack| <= alloced[k].lo <= addr && addr + n <= alloced[k].hi
    ensures var ofs := addr - alloced[k].lo; Holds(stack, alloced, addr, alloced[k].data[ofs..ofs + n])
  {
    hide HeapByte;
    var ofs := addr - alloced[k].lo;
    var bs := alloced[k].data[ofs..ofs + n];
    forall i | 0 <= i < |bs|
      ensures ByteOf(stack, alloced, addr + i) == Some(bs[i])
    {
      HeapByteIs(alloced, addr + i, k);
    }
  }

  lemma StackHolds(stack: seq<Byte>, alloced: seq<Alloc>, addr: nat, n: nat)
    requires AllocedOk(alloced) && addr + n <= |stack|
    ensures Holds(stack, alloced, addr, stack[addr..addr + n])
  {
  }

  lemma HeapWritten(stack: seq<Byte>, alloced: seq<Alloc>, k: nat, addr: nat, bs: seq<Byte>)
    requires AllocedOk(alloced) && k < |alloced| && |stack| <= alloced[k].lo <= addr && addr + |bs| <= alloced[k].hi
    ensures AllocedOk(WriteBlock(alloced, k, addr, bs))
    ensures Written(stack, alloced, stack, WriteBlock(alloced, k, addr, bs), addr, bs)
  {
    WriteBlockOk(alloced, k, addr, bs);
    forall x: nat
      ensures ByteOf(stack, WriteBlock(alloced, k, addr, bs), x) ==
              if addr <= x < addr + |bs| then Some(bs[x - addr]) else ByteOf(stack, alloced, x)
    {
      WriteBlockByte(alloced, k, addr, bs, x);
      hide WriteBlock, HeapByte;
    }
  }

  lemma LoadedPart(stack: seq<Byte>, alloced: seq<Alloc>, stack': seq<Byte>, alloced': seq<Alloc>,
                   addr: nat, bs: seq<Byte>, k: nat, loaded: seq<Byte>)
    requires AllocedOk(alloced) && AllocedOk(alloced') && Written(stack, alloced, stack', alloced', addr, bs)
    requires k + |loaded| <= |bs| && Holds(stack', alloced', addr + k, loaded)
    ensures loaded == bs[k..k + |loaded|]
  {
    hide ByteOf, AllocedOk;
    forall i | 0 <= i < |loaded|
      ensures loaded[i] == bs[k..k + |loaded|][i]
    {
      assert ByteOf(stack', alloced', addr + k + i) == Some(loaded[i]);
    }
  }

  /** A load of the stored bytes, or of any part of them, returns the matching bytes of the stored value. */
  lemma LoadAfterStore(stack: seq<Byte>, alloced: seq<Alloc>, stack': seq<Byte>, alloced': seq<Alloc>,
                       addr: nat, n: nat, val: nat, k: nat, loaded: seq<Byte>)
    requires AllocedOk(alloced) && AllocedOk(alloced') && Written(stack, alloced, stack', alloced', addr, LowBytes(n, val))
    requires k + |loaded| <= n && Holds(stack', alloced', addr + k, loaded)
    ensures Number(loaded) == Part(val, k, |loaded|)
  {
    hide AllocedOk, ByteOf, Written, Holds;
    LoadedPart(stack, alloced, stack', alloced', addr, LowBytes(n, val), k, loaded);
    NarrowLoad(n, val, k, |loaded|);
    hide LowBytes, Number, Part;
  }

  /** A load of bytes the store did not cover finds what it found before. */
  lemma LoadElsewhere(stack: seq<Byte>, alloced: seq<Alloc>, stack': seq<Byte>, alloced': seq<Alloc>,
                      addr: nat, bs: seq<Byte>, a: nat, loaded: seq<Byte>)
    requires AllocedOk(alloced) && AllocedOk(alloced') && Written(stack, alloced, stack', alloced', addr, bs)
    requires a + |loaded| <= addr || addr + |bs| <= a
    ensures Holds(stack', alloced', a, loaded) <==> Holds(stack, alloced, a, loaded)
  {
    hide ByteOf;
    forall i | 0 <= i < |loaded|
      ensures ByteOf(stack', alloced', a + i) == Some(loaded[i]) <==> ByteOf(stack, alloced, a + i) == Some(loaded[i])
    {
    }
  }

  /** malloc makes its block readable as zeros and changes no other byte; free makes its block unreadable. */
  lemma MallocBytes(stack: seq<Byte>, h: HeapState, size: Word)
    requires |stack| <= HEAP_MIN && StateOk(h) && MallocOutcome(h, size).Done?
    ensures StateOk(Malloc(h, size))
    ensures var lo := MallocOutcome(h, size).value;
            Written(stack, h.alloced, stack, Malloc(h, size).alloced, lo, seq(size, _ => 0))
  {
    MallocOk(h, size);
    var a := NewBlock(MallocOutcome(h, size).value, size);
    assert InRange(h.freed[FirstFit(h.freed, size)].lo, h.freed[FirstFit(h.freed, size)].hi);
    assert Malloc(h, size).alloced == Insert(h.alloced, a);
    hide Malloc, MallocOutcome, Insert, HeapByte, HeapOk, FirstFit;
    forall x: nat
      ensures ByteOf(stack, Insert(h.alloced, a), x) == if a.lo <= x < a.hi then Some(0) else ByteOf(stack, h.alloced, x)
    {
      InsertByte(h.alloced, a, x);
    }
  }

  lemma FreeBytes(stack: seq<Byte>, h: HeapState, addr: Word, k: nat, x: nat)
    requires |stack| <= HEAP_MIN && StateOk(h) && k < |h.alloced| && h.alloced[k].lo == addr
    ensures StateOk(Free(h, addr))
    ensures ByteOf(stack, Free(h, addr).alloced, x) == if addr <= x < h.alloced[k].hi then None else ByteOf(stack, h.alloced, x)
  {
    FreeOk(h, addr);
    StartsAtIs(h.alloced, addr, k);
    assert InRange(h.alloced[k].lo, h.alloced[k].hi);
    assert Free(h, addr).alloced == h.alloced[..k] + h.alloced[k + 1..];
    hide Free, StartsAt, HeapByte;
    RemoveByte(h.alloced, k, x);
  }

  /** How an access of n bytes at addr ends, and what it costs. */
  ghost function Access(head: nat, alloced: seq<Alloc>, n: nat, addr: nat): Outcome
    requires AccessSize(n)
  {
    if addr % n != 0 then Failed(NotAligned)
    else if IsStack(n, addr) then Done(AccessCost(head, STACK_COST, addr), 0)
    else if !IsHeap(n, addr) then Failed(OutsideRegions)
    else if !InAlloc(alloced, addr) then Failed(NotAllocated)
    else Done(AccessCost(head, HEAP_COST, addr), 0)
  }

  /** The machine has all the bytes addr .. addr + n. */
  ghost predicate HasBytes(stack: seq<Byte>, alloced: seq<Alloc>, addr: nat, n: nat)
    requires AllocedOk(alloced)
  {
    forall x :: addr <= x < addr + n ==> ByteOf(stack, alloced, x).Some?
  }

  /** An access below the stack's end stays below it, and one below the heap's end too: both are multiples of 8. */
  lemma AlignedEnds(n: nat, addr: nat)
    requires AccessSize(n) && addr % n == 0
    ensures IsStack(n, addr) <==> addr < STACK_MAX
    ensures IsHeap(n, addr) <==> HEAP_MIN <= addr < HEAP_MAX
  {
    if addr < STACK_MAX {
      AlignedEnd(n, addr, STACK_MAX);
    }
    if addr < HEAP_MAX {
      AlignedEnd(n, addr, HEAP_MAX);
    }
  }

  lemma StackHas(stack: seq<Byte>, alloced: seq<Alloc>, addr: nat, n: nat)
    requires AllocedOk(alloced) && addr + n <= |stack|
    ensures HasBytes(stack, alloced, addr, n)
  {
    hide HeapByte;
  }

  /** Past the stack the machine has the bytes of an aligned access exactly when the first one is allocated. */
  lemma HeapHas(stack: seq<Byte>, alloced: seq<Alloc>, addr: nat, n: nat)
    requires AllocedOk(alloced) && AccessSize(n) && addr % n == 0 && |stack| <= addr
    ensures HasBytes(stack, alloced, addr, n) <==> InAlloc(alloced, addr)
  {
    HeapByteNone(alloced, addr);
    if InAlloc(alloced, addr) {
      AlignedInside(alloced, n, addr);
      var k := FindBlock(alloced, addr).value;
      hide FindBlock, HeapByte, AllocedOk;
      forall x | addr <= x < addr + n
        ensures ByteOf(stack, alloced, x).Some?
      {
        HeapByteNone(alloced, x);
        assert alloced[k].lo <= x < alloced[k].hi;
      }
    } else {
      hide HeapByte;
      assert ByteOf(stack, alloced, addr).None?;
    }
  }

  lemma AllocInHeap(alloced: seq<Alloc>, addr: nat)
    requires AllocedOk(alloced) && InAlloc(alloced, addr)
    ensures HEAP_MIN <= addr < HEAP_MAX
  {
    var k :| 0 <= k < |alloced| && alloced[k].lo <= addr < alloced[k].hi;
    assert InRange(alloced[k].lo, alloced[k].hi);
  }

  /** An access completes if and only if it is aligned and the machine has all its bytes; which error it meets otherwise. */
  lemma AccessIff(stack: seq<Byte>, head: nat, alloced: seq<Alloc>, n: nat, addr: nat)
    requires |stack| == STACK_MAX && AllocedOk(alloced) && AccessSize(n)
    ensures Access(head, alloced, n, addr).Done? <==> addr % n == 0 && HasBytes(stack, alloced, addr, n)
    ensures Access(head, alloced, n, addr) == Failed(NotAligned) <==> addr % n != 0
    ensures Access(head, alloced, n, addr) == Failed(OutsideRegions) <==>
            addr % n == 0 && (STACK_MAX <= addr < HEAP_MIN || HEAP_MAX <= addr)
    ensures Access(head, alloced, n, addr) == Failed(NotAllocated) <==>
            addr % n == 0 && HEAP_MIN <= addr < HEAP_MAX && !HasBytes(stack, alloced, addr, n)
  {
    hide AllocedOk, ByteOf, InAlloc, HasBytes, IsStack, IsHeap;
    if addr % n == 0 {
      AlignedEnds(n, addr);
      if addr < STACK_MAX {
        AlignedEnd(n, addr, STACK_MAX);
        StackHas(stack, alloced, addr, n);
      } else {
        HeapHas(stack, alloced, addr, n);
        if InAlloc(alloced, addr) {
          AllocInHeap(alloced, addr);
        }
      }
    }
  }

  /** The price by address: the base price of the region and one unit per byte the head moves, nothing for a head nowhere. */
  lemma AccessPrice(head: nat, alloced: seq<Alloc>, n: nat, addr: nat)
    requires AccessSize(n) && Access(head, alloced, n, addr).Done?
    ensures var cost := Access(head, alloced, n, addr).cost;
            if head == NOWHERE then cost == 0
            else cost == (if addr < STACK_MAX then STACK_COST else HEAP_COST) + if head <= addr then addr - head else head - addr
  {
    hide InAlloc;
    AlignedEnds(n, addr);
  }

  /** A load of these bytes at this cost. */
  function Loaded(cost: nat, bs: seq<Byte>): Outcome { Done(cost, Number(bs)) }

  // ---- the machine ----

  class Memory {
    var head: nat
    const stack: array<Byte>
    var alloced: seq<Alloc>
    var freed: seq<Block>
    var allocedSize: int
    var maxAllocedSize: int

    ghost function Heap(): HeapState
      reads this
    {
      HeapState(freed, alloced, allocedSize, maxAllocedSize)
    }

    ghost predicate Valid()
      reads this
    {
      stack.Length == STACK_MAX && StateOk(Heap())
    }

    constructor ()
      ensures Valid() && fresh(stack)
      ensures head == NOWHERE && Heap() == InitialHeap
      ensures forall i :: 0 <= i < STACK_MAX ==> stack[i] == 0
    {
      InitialOk();
      head := NOWHERE;
      stack := new Byte[STACK_MAX](_ => 0);
      alloced := [];
      freed := [Block(HEAP_MIN, HEAP_MAX)];
      allocedSize, maxAllocedSize := 0, 0;
    }

    method LoadHeap(n: nat, addr: nat) returns (r: Option<nat>, ghost bs: seq<Byte>)
      requires Valid() && AccessSize(n) && addr % n == 0
      ensures r.Some? <==> InAlloc(alloced, addr)
      ensures r.Some? ==> |bs| == n && r.value == Number(bs) && Holds(stack[..], alloced, addr, bs)
    {
      bs := [];
      FindBlockFinds(alloced, addr);
      var k := FindBlock(alloced, addr);
      if k.None? {
        return None, [];
      }
      AlignedInside(alloced, n, addr);
      hide FindBlock;
      assert InRange(alloced[k.value].lo, alloced[k.value].hi);
      var ofs := addr - alloced[k.value].lo;
      HeapHolds(stack[..], alloced, k.value, addr, n);
      bs := alloced[k.value].data[ofs..ofs + n];
      var sum := LoadLittleEndian(alloced[k.value].data[ofs..ofs + n]);
      r := Some(sum);
    }

    method LoadStack(n: nat, addr: nat) returns (sum: nat, ghost bs: seq<Byte>)
      requires Valid() && IsStack(n, addr)
      ensures |bs| == n && sum == Number(bs) && Holds(stack[..], alloced, addr, bs)
    {
      StackHolds(stack[..], alloced, addr, n);
      bs := stack[..][addr..addr + n];
      sum := LoadLittleEndian(stack[..][addr..addr + n]);
    }

    /** The n bytes at addr, least significant first; the head moves there. */
    method ExecLoad(n: nat, addr: Word) returns (r: Outcome, ghost bs: seq<Byte>)
      requires Valid() && AccessSize(n) && addr + n != W64
      modifies `head
      ensures Valid() && r.Done? == old(Access(head, alloced, n, addr)).Done?
      ensures r.Done? <==> addr % n == 0 && HasBytes(stack[..], alloced, addr, n)
      ensures r.Failed? ==> r == old(Access(head, alloced, n, addr)) && head == old(head)
      ensures r.Done? ==> |bs| == n && Holds(stack[..], alloced, addr, bs) && r == Loaded(old(Access(head, alloced, n, addr)).cost, bs) && head == addr
    {
      bs := [];
      AccessIff(stack[..], head, alloced, n, addr);
      if addr % n != 0 {
        return Failed(NotAligned), [];
      }
      if IsStack(n, addr) {
        var sum;
        sum, bs := LoadStack(n, addr);
        r := Done(AccessCost(head, STACK_COST, addr), sum);
        head := addr;
      } else if IsHeap(n, addr) {
        var sum;
        sum, bs := LoadHeap(n, addr);
        if sum.None? {
          return Failed(NotAllocated), [];
        }
        r := Done(AccessCost(head, HEAP_COST, addr), sum.value);
        head := addr;
      } else {
        return Failed(OutsideRegions), [];
      }
    }

    method StoreStack(n: nat, addr: nat, val: nat)
      requires Valid() && IsStack(n, addr)
      modifies stack
      ensures Valid() && Written(old(stack[..]), alloced, stack[..], alloced, addr, LowBytes(n, val))
    {
      var bs := StoreLittleEndian(n, val);
      forall i | 0 <= i < n {
        stack[addr + i] := bs[i];
      }
      assert forall x :: 0 <= x < STACK_MAX ==> stack[..][x] == if addr <= x < addr + n then bs[x - addr] else old(stack[..])[x];
    }

    method StoreHeap(n: nat, addr: nat, val: nat) returns (ok: bool)
      requires Valid() && AccessSize(n) && addr % n == 0
      modifies `alloced
      ensures Valid() && ok == InAlloc(old(alloced), addr)
      ensures !ok ==> alloced == old(alloced)
      ensures ok ==> Written(stack[..], old(alloced), stack[..], alloced, addr, LowBytes(n, val))
    {
      FindBlockFinds(alloced, addr);
      var k := FindBlock(alloced, addr);
      if k.None? {
        return false;
      }
      AlignedInside(alloced, n, addr);
      hide FindBlock;
      var bs := StoreLittleEndian(n, val);
      assert InRange(alloced[k.value].lo, alloced[k.value].hi);
      HeapWritten(stack[..], alloced, k.value, addr, bs);
      WriteBlockHeap(freed, alloced, k.value, addr, bs);
      hide WriteBlock, Total, HeapOk, Written;
      alloced := WriteBlock(alloced, k.value, addr, bs);
      ok := true;
    }

    /** The n low bytes of val go to addr and no other byte changes; the head moves there. */
    method ExecStore(n: nat, addr: Word, val: Word) returns (r: Outcome)
      requires Valid() && AccessSize(n) && addr + n != W64
      modifies `head, `alloced, stack
      ensures Valid() && r == old(Access(head, alloced, n, addr))
      ensures r.Done? <==> addr % n == 0 && old(HasBytes(stack[..], alloced, addr, n))
      ensures r.Failed? ==> head == old(head) && alloced == old(alloced) && stack[..] == old(stack[..])
      ensures r.Done? ==> head == addr && Written(old(stack[..]), old(alloced), stack[..], alloced, addr, LowBytes(n, val))
    {
      AccessIff(stack[..], head, alloced, n, addr);
      if addr % n != 0 {
        return Failed(NotAligned);
      }
      if IsStack(n, addr) {
        StoreStack(n, addr, val);
        r := Done(AccessCost(head, STACK_COST, addr), 0);
        head := addr;
      } else if IsHeap(n, addr) {
        var ok := StoreHeap(n, addr, val);
        if !ok {
          return Failed(NotAllocated);
        }
        r := Done(AccessCost(head, HEAP_COST, addr), 0);
        head := addr;
      } else {
        return Failed(OutsideRegions);
      }
    }

    method FindFit(size: nat) returns (i: nat)
      ensures i == FirstFit(freed, size)
    {
      i := 0;
      while i < |freed|
        invariant i <= |freed|
        invariant forall j :: 0 <= j < i ==> freed[j].hi - freed[j].lo < size
      {
        if size <= freed[i].hi - freed[i].lo {
          break;
        }
        i := i + 1;
      }
      FirstFitIs(freed, size, i);
    }

    method ExecMalloc(size: Word) returns (r: Outcome)
      requires Valid()
      modifies `freed, `alloced, `allocedSize, `maxAllocedSize
      ensures Valid() && r == MallocOutcome(old(Heap()), size) && Heap() == Malloc(old(Heap()), size)
    {
      MallocOk(Heap(), size);
      if size == 0 {
        return Failed(ZeroSize);
      }
      if size % 8 != 0 {
        return Failed(NotMultipleOf8);
      }
      var i := FindFit(size);
      hide StateOk, FirstFit, Insert;
      if i == |freed| {
        return Failed(OutOfMemory);
      }
      var block := freed[i];
      freed := freed[i := Block(block.lo + size, block.hi)];
      alloced := Insert(alloced, NewBlock(block.lo, size));
      allocedSize := allocedSize + size;
      if maxAllocedSize < allocedSize {
        maxAllocedSize := allocedSize;
      }
      r := Done(MALLOC_COST, block.lo);
    }

    method ExecFree(addr: Word) returns (r: Outcome)
      requires Valid()
      modifies `freed, `alloced, `allocedSize
      ensures Valid() && r == FreeOutcome(old(Heap()), addr) && Heap() == Free(old(Heap()), addr)
    {
      hide StateOk, Coalesce;
      FreeOk(Heap(), addr);
      var k := StartsAt(alloced, addr);
      if k == |alloced| {
        return Failed(BadFree);
      }
      var block := Block(alloced[k].lo, alloced[k].hi);
      alloced := alloced[..k] + alloced[k + 1..];
      ReturnBlock(block);
      allocedSize := allocedSize - (block.hi - block.lo);
      r := Done(FREE_COST, 0);
    }

    /** Merges block with the free neighbours it touches, found by one ordered lookup. */
    method ReturnBlock(block: Block)
      modifies `freed
      ensures freed == Coalesce(old(freed), block)
    {
      var b := block;
      var next := LowerBound(freed, b);
      if next > 0 {
        var prev := freed[next - 1];
        if prev.hi == b.lo {
          b := Block(prev.lo, b.hi);
          freed := freed[..next - 1] + freed[next..];
          next := next - 1;
        }
      }
      if next < |freed| {
        if freed[next].lo == b.hi {
          b := Block(b.lo, freed[next].hi);
          freed := freed[..next] + freed[next + 1..];
        }
      }
      freed := freed[..next] + [b] + freed[next..];
    }

    method ExecResetStack() returns (cost: nat)
      requires Valid()
      modifies `head
      ensures Valid() && head == STACK_MAX && cost == RESET_COST
    {
      head := STACK_MAX;
      cost := RESET_COST;
    }

    method ExecResetHeap() returns (cost: nat)
      requires Valid()
      modifies `head
      ensures Valid() && head == HEAP_MIN && cost == RESET_COST
    {
      head := HEAP_MIN;
      cost := RESET_COST;
    }
  }
}
