/** Head resets inserted by ResetPointer.cpp, priced by the interpreter's head movement. */
module ResetPointers {
  import opened Words
  import opened Interp
  import opened Ir
  import M = MemoryMachine
  import H = Heap

  /** The region a pointer value points into. */
  function GetOpType(v: Value): AllocType {
    match v
    case IntToPtrExpr(address) => if address >= 20480 then Heap else Stack
    case CallInst(_, _, _) => if IsMallocCall(v) then Heap else if IsAllocaByteCall(v) then Stack else Unknown
    case AllocaInst(_) => Stack
    case BitCastInst(_, from) => GetOpType(from)
    case GepInst(_, base, _) => GetOpType(base)
    case BinaryInst(_, _, lhs, rhs) => if GetOpType(lhs) != Unknown then GetOpType(lhs) else GetOpType(rhs)
    case _ => Unknown
  }

  function GetAccessType(v: Value): AllocType {
    match v
    case CallInst(_, _, _) => if IsAllocation(v) then NoEffect else Call
    case LoadInst(_, ptr, _) => GetOpType(ptr)
    case StoreInst(_, _, ptr, _) => GetOpType(ptr)
    case _ => NoEffect
  }

  lemma {:induction false} DerivedRegion(v: Value, o: Value)
    requires DerivedFrom(v, o)
    ensures GetOpType(v) == GetOpType(o)
  {
    if v != o {
      if v.BitCastInst? {
        DerivedRegion(v.from, o);
      } else {
        DerivedRegion(v.base, o);
      }
    }
  }

  /** The object an access's pointer is derived from decides its region: a stack object the stack, a result of malloc the
      heap, a constant address the region it lies in. A call is a call unless it allocates. */
  lemma ObjectDecides(a: Value, o: Value)
    requires IsAccess(a) && DerivedFrom(a.ptr, o)
    ensures IsStackObject(o) ==> GetAccessType(a) == Stack
    ensures IsMallocCall(o) ==> GetAccessType(a) == Heap
    ensures o.IntToPtrExpr? ==> GetAccessType(a) == if H.HEAP_MIN <= o.address then Heap else Stack
    ensures o.LoadInst? || o.PhiInst? || o.OtherInst? || o.GlobalVar? ==> GetAccessType(a) == Unknown
  {
    DerivedRegion(a.ptr, o);
  }

  function InstRoot(v: Value): Value {
    match v
    case BitCastInst(_, from) => InstRoot(from)
    case GepInst(_, base, _) => InstRoot(base)
    case _ => v
  }

  /** The region the pass knows of a pointer that is no sum. */
  lemma {:induction false} KnownIff(v: Value)
    requires !InstRoot(v).BinaryInst?
    ensures var o := InstRoot(v);
            && (GetOpType(v) == Stack <==> IsStackObject(o) || (o.IntToPtrExpr? && o.address < H.HEAP_MIN))
            && (GetOpType(v) == Heap <==> IsMallocCall(o) || (o.IntToPtrExpr? && H.HEAP_MIN <= o.address))
  {
    match v
    case BitCastInst(_, from) => KnownIff(from);
    case GepInst(_, base, _) => KnownIff(base);
    case _ =>
  }

  /** Accesses have the region of their pointer, calls may go anywhere unless they allocate, nothing else has an effect. */
  lemma EffectIff(v: Value)
    ensures GetAccessType(v) == NoEffect <==>
            !IsAccess(v) && (v.CallInst? ==> v.callee == "malloc" || v.callee == "free" || v.callee == "__alloca_bytes__")
    ensures GetAccessType(v) == Call <==>
            v.CallInst? && v.callee != "malloc" && v.callee != "free" && v.callee != "__alloca_bytes__"
    ensures IsAccess(v) ==> GetAccessType(v) == GetOpType(v.ptr)
  {
    if IsAccess(v) {
      PointerType(v.ptr);
    }
    hide GetOpType;
  }

  /** A sum of an address and an offset has the region of the operand that has one, of the left one if both have. */
  lemma SumRegion(v: Value, b: Value, o: Value)
    requires DerivedFrom(v, b) && b.BinaryInst? && (IsStackObject(o) || IsMallocCall(o))
    requires DerivedFrom(b.lhs, o) || (GetOpType(b.lhs) == Unknown && DerivedFrom(b.rhs, o))
    ensures GetOpType(v) == if IsStackObject(o) then Stack else Heap
  {
    DerivedRegion(v, b);
    DerivedRegion(if DerivedFrom(b.lhs, o) then b.lhs else b.rhs, o);
  }

  // ---- the pass ----

  /** An instruction of the block, by position, or an inserted reset. */
  datatype Item = Original(at: nat) | ResetStack | ResetHeap

  /** The state of the pass after an instruction. */
  function Next(state: AllocType, v: Value): AllocType {
    match GetAccessType(v)
    case NoEffect => state
    case Call => Unknown
    case t => t
  }

  function StateAt(block: seq<Value>, n: nat): AllocType
    requires n <= |block|
  {
    if n == 0 then Unknown else Next(StateAt(block, n - 1), block[n - 1])
  }

  /** The reset wanted in front of an instruction. */
  function Wanted(state: AllocType, v: Value): Option<Item> {
    if GetAccessType(v) == Stack && state == Heap then Some(ResetStack)
    else if GetAccessType(v) == Heap && state == Stack then Some(ResetHeap)
    else None
  }

  function Front(w: Option<Item>): (r: seq<Item>)
    ensures |r| == if w.Some? then 1 else 0
  {
    if w.Some? then [w.value] else []
  }

  /** The first n instructions with their resets. */
  function WithResets(block: seq<Value>, n: nat): seq<Item>
    requires n <= |block|
  {
    if n == 0 then [] else WithResets(block, n - 1) + (Front(Wanted(StateAt(block, n - 1), block[n - 1])) + [Original(n - 1)])
  }

  function Chunk(i: nat, s: seq<nat>, h: seq<nat>): seq<Item> {
    (if i in s then [ResetStack] else []) + (if i in h then [ResetHeap] else []) + [Original(i)]
  }

  /** The first n instructions with resets in front of those listed. */
  function Marked(n: nat, s: seq<nat>, h: seq<nat>): seq<Item> {
    if n == 0 then [] else Marked(n - 1, s, h) + Chunk(n - 1, s, h)
  }

  function InsertBefore(items: seq<Item>, k: nat, r: Item): seq<Item> {
    if items == [] then []
    else
      var last := |items| - 1;
      if items[last] == Original(k) then items[..last] + [r, Original(k)]
      else InsertBefore(items[..last], k, r) + [items[last]]
  }

  lemma {:induction false} InsertMany(items: seq<Item>, rest: seq<Item>, k: nat, r: Item)
    requires Original(k) !in rest
    ensures InsertBefore(items + rest, k, r) == InsertBefore(items, k, r) + rest
  {
    if rest == [] {
      assert items + rest == items;
      assert InsertBefore(items, k, r) + rest == InsertBefore(items, k, r);
    } else {
      var last := |rest| - 1;
      InsertMany(items, rest[..last], k, r);
      assert (items + rest)[..|items + rest| - 1] == items + rest[..last];
      assert rest[last] in rest;
    }
  }

  lemma InsertAtEnd(items: seq<Item>, k: nat, r: Item)
    ensures InsertBefore(items + [Original(k)], k, r) == items + [r, Original(k)]
  {
    assert (items + [Original(k)])[..|items|] == items;
  }

  lemma MarkedNext(n: nat, s: seq<nat>, h: seq<nat>)
    ensures Marked(n + 1, s, h) == Marked(n, s, h) + Chunk(n, s, h)
    ensures forall k :: k != n ==> Original(k) !in Chunk(n, s, h)
  {
  }

  ghost predicate SameElsewhere(s: seq<nat>, h: seq<nat>, s': seq<nat>, h': seq<nat>, k: nat) {
    forall i :: i != k ==> (i in s <==> i in s') && (i in h <==> i in h')
  }

  lemma ChunkElsewhere(i: nat, s: seq<nat>, h: seq<nat>, s': seq<nat>, h': seq<nat>, k: nat)
    requires SameElsewhere(s, h, s', h', k) && i != k
    ensures Chunk(i, s, h) == Chunk(i, s', h')
  {
  }

  lemma {:induction false} MarkedBelow(n: nat, s: seq<nat>, h: seq<nat>, s': seq<nat>, h': seq<nat>, k: nat)
    requires SameElsewhere(s, h, s', h', k) && n <= k
    ensures Marked(n, s, h) == Marked(n, s', h')
  {
    if n > 0 {
      MarkedBelow(n - 1, s, h, s', h', k);
      ChunkElsewhere(n - 1, s, h, s', h', k);
      hide Chunk;
    }
  }

  lemma {:induction false} InsertOne(n: nat, s: seq<nat>, h: seq<nat>, s': seq<nat>, h': seq<nat>, k: nat, r: Item)
    requires SameElsewhere(s, h, s', h', k)
    requires k < n && Chunk(k, s, h) == [Original(k)] && Chunk(k, s', h') == [r, Original(k)]
    ensures InsertBefore(Marked(n, s, h), k, r) == Marked(n, s', h')
  {
    hide SameElsewhere, InsertBefore;
    MarkedNext(n - 1, s, h);
    MarkedNext(n - 1, s', h');
    assert k != n - 1 ==> Original(k) !in Chunk(n - 1, s, h);
    hide Marked, Chunk;
    if k == n - 1 {
      MarkedBelow(n - 1, s, h, s', h', k);
      InsertAtEnd(Marked(n - 1, s, h), k, r);
    } else {
      InsertOne(n - 1, s, h, s', h', k, r);
      InsertMany(Marked(n - 1, s, h), Chunk(n - 1, s, h), k, r);
      ChunkElsewhere(n - 1, s, h, s', h', k);
    }
  }

  predicate Wants(block: seq<Value>, i: nat, r: Item)
    requires i < |block|
  {
    Wanted(StateAt(block, i), block[i]) == Some(r)
  }

  /** s and h list the instructions that want a reset. */
  ghost predicate ListsWanted(block: seq<Value>, n: nat, s: seq<nat>, h: seq<nat>) {
    && n <= |block| && Increasing(s) && Increasing(h)
    && (forall i :: i in s <==> 0 <= i < n && Wants(block, i, ResetStack))
    && (forall i :: i in h <==> 0 <= i < n && Wants(block, i, ResetHeap))
  }

  lemma AppendListed(s: seq<nat>, i: nat)
    requires Increasing(s) && forall k :: k in s ==> k < i
    ensures Increasing(s + [i]) && forall k :: k in s + [i] <==> k in s || k == i
  {
    assert forall a :: 0 <= a < |s| ==> s[a] in s;
  }

  lemma ListOne(block: seq<Value>, i: nat, s: seq<nat>, h: seq<nat>)
    requires ListsWanted(block, i, s, h) && i < |block|
    ensures var w := Wanted(StateAt(block, i), block[i]);
            ListsWanted(block, i + 1, if w == Some(ResetStack) then s + [i] else s, if w == Some(ResetHeap) then h + [i] else h)
  {
    AppendListed(s, i);
    AppendListed(h, i);
    hide Increasing, StateAt, Wanted;
  }

  method VisitOne(v: Value, i: nat, state: AllocType, s: seq<nat>, h: seq<nat>) returns (state': AllocType, s': seq<nat>, h': seq<nat>)
    ensures state' == Next(state, v)
    ensures s' == if Wanted(state, v) == Some(ResetStack) then s + [i] else s
    ensures h' == if Wanted(state, v) == Some(ResetHeap) then h + [i] else h
  {
    hide GetAccessType;
    state', s', h' := state, s, h;
    var cur := GetAccessType(v);
    if cur == NoEffect {
    } else if cur == Call || cur == Unknown {
      state' := Unknown;
    } else if cur == Stack {
      if state == Heap {
        s' := s + [i];
      }
      state' := Stack;
    } else {
      if state == Stack {
        h' := h + [i];
      }
      state' := Heap;
    }
  }

  lemma ListsEntering(block: seq<Value>, s: seq<nat>, h: seq<nat>)
    requires ListsWanted(block, |block|, s, h)
    ensures forall i :: i in s <==> 0 <= i < |block| && Enters(block, i, ResetStack)
    ensures forall i :: i in h <==> 0 <= i < |block| && Enters(block, i, ResetHeap)
  {
    hide Enters, Wanted, StateAt, Increasing;
    forall i | 0 <= i < |block|
      ensures Wants(block, i, ResetStack) <==> Enters(block, i, ResetStack)
      ensures Wants(block, i, ResetHeap) <==> Enters(block, i, ResetHeap)
    {
      WantedEnters(block, i, ResetStack);
      WantedEnters(block, i, ResetHeap);
    }
  }

  method CollectResets(block: seq<Value>) returns (s: seq<nat>, h: seq<nat>)
    ensures ListsWanted(block, |block|, s, h)
    ensures forall i :: i in s <==> 0 <= i < |block| && Enters(block, i, ResetStack)
    ensures forall i :: i in h <==> 0 <= i < |block| && Enters(block, i, ResetHeap)
  {
    hide Wanted, Next;
    s, h := [], [];
    var state := Unknown;
    assert ListsWanted(block, 0, s, h);
    hide ListsWanted;
    for i := 0 to |block|
      invariant state == StateAt(block, i) && ListsWanted(block, i, s, h)
    {
      ListOne(block, i, s, h);
      state, s, h := VisitOne(block[i], i, state, s, h);
    }
    ListsEntering(block, s, h);
  }

  /** The unchanged block. */
  function Plain(n: nat): seq<Item> {
    if n == 0 then [] else Plain(n - 1) + [Original(n - 1)]
  }

  lemma {:induction false} NoMarks(n: nat)
    ensures Marked(n, [], []) == Plain(n)
  {
    if n > 0 {
      NoMarks(n - 1);
    }
  }

  lemma WantedChunk(block: seq<Value>, i: nat, s: seq<nat>, h: seq<nat>)
    requires ListsWanted(block, |block|, s, h) && i < |block|
    ensures Chunk(i, s, h) == Front(Wanted(StateAt(block, i), block[i])) + [Original(i)]
  {
    hide StateAt;
  }

  lemma {:induction false} MarkedIsWithResets(block: seq<Value>, n: nat, s: seq<nat>, h: seq<nat>)
    requires ListsWanted(block, |block|, s, h) && n <= |block|
    ensures Marked(n, s, h) == WithResets(block, n)
  {
    hide ListsWanted, StateAt, Wanted, Chunk, Front;
    if n > 0 {
      MarkedNext(n - 1, s, h);
      WantedChunk(block, n - 1, s, h);
      assert WithResets(block, n) == WithResets(block, n - 1) + (Front(Wanted(StateAt(block, n - 1), block[n - 1])) + [Original(n - 1)]);
      hide Marked, WithResets;
      MarkedIsWithResets(block, n - 1, s, h);
    }
  }

  method PlainBlock(block: seq<Value>) returns (items: seq<Item>)
    ensures items == Plain(|block|)
  {
    items := [];
    for i := 0 to |block|
      invariant items == Plain(i)
    {
      items := items + [Original(i)];
    }
  }

  /** Inserts a reset in front of every listed instruction, one after the other. */
  method InsertResets(items: seq<Item>, ghost n: nat, ghost s: seq<nat>, ghost h: seq<nat>, add: seq<nat>, r: Item) returns (r': seq<Item>)
    requires items == Marked(n, s, h) && Increasing(add) && (r == ResetStack || r == ResetHeap)
    requires forall k :: k in add ==> k < n && k !in s && k !in h
    ensures r' == if r == ResetStack then Marked(n, s + add, h) else Marked(n, s, h + add)
  {
    r' := items;
    assert s + add[..0] == s && h + add[..0] == h;
    for t := 0 to |add|
      invariant r' == if r == ResetStack then Marked(n, s + add[..t], h) else Marked(n, s, h + add[..t])
    {
      assert add[t] in add && add[t] !in add[..t] && add[..t + 1] == add[..t] + [add[t]];
      if r == ResetStack {
        InsertOne(n, s + add[..t], h, s + add[..t + 1], h, add[t], r);
      } else {
        InsertOne(n, s, h + add[..t], s, h + add[..t + 1], add[t], r);
      }
      hide Marked, InsertBefore;
      r' := InsertBefore(r', add[t], r);
    }
    assert add[..|add|] == add;
  }

  /** The pass on one block. */
  method ResetPointer(block: seq<Value>) returns (items: seq<Item>)
    ensures items == WithResets(block, |block|) && ResetsRight(block, |block|, items)
  {
    ResetsAreRight(block, |block|);
    hide ResetsRight, Enters;
    var s, h := CollectResets(block);
    MarkedIsWithResets(block, |block|, s, h);
    NoMarks(|block|);
    items := PlainBlock(block);
    hide Marked, WithResets, StateAt;
    items := InsertResets(items, |block|, [], [], s, ResetStack);
    assert [] + s == s && [] + h == h;
    items := InsertResets(items, |block|, s, [], h, ResetHeap);
  }

  // ---- where the resets are, by positions ----

  /** The last instruction before k that has an effect accesses region t. */
  ghost predicate ComesFrom(block: seq<Value>, k: nat, t: AllocType)
    requires k <= |block|
  {
    exists i :: 0 <= i < k && GetAccessType(block[i]) == t && forall j :: i < j < k ==> GetAccessType(block[j]) == NoEffect
  }

  /** Instruction k accesses the region r resets the head to, coming from the other one. */
  ghost predicate Enters(block: seq<Value>, k: nat, r: Item)
    requires k < |block|
  {
    || (r == ResetStack && GetAccessType(block[k]) == Stack && ComesFrom(block, k, Heap))
    || (r == ResetHeap && GetAccessType(block[k]) == Heap && ComesFrom(block, k, Stack))
  }

  lemma {:induction false} StateIsOrigin(block: seq<Value>, k: nat, t: AllocType)
    requires k <= |block| && t in {Stack, Heap}
    ensures StateAt(block, k) == t <==> ComesFrom(block, k, t)
  {
    hide GetAccessType;
    if k > 0 {
      StateIsOrigin(block, k - 1, t);
      if ComesFrom(block, k - 1, t) && GetAccessType(block[k - 1]) == NoEffect {
        var i :| 0 <= i < k - 1 && GetAccessType(block[i]) == t && forall j :: i < j < k - 1 ==> GetAccessType(block[j]) == NoEffect;
        assert forall j :: i < j < k ==> GetAccessType(block[j]) == NoEffect;
      }
    }
  }

  lemma WantedEnters(block: seq<Value>, k: nat, r: Item)
    requires k < |block|
    ensures Wanted(StateAt(block, k), block[k]) == Some(r) <==> Enters(block, k, r)
  {
    hide GetAccessType, StateAt, ComesFrom;
    StateIsOrigin(block, k, Stack);
    StateIsOrigin(block, k, Heap);
  }

  function Originals(items: seq<Item>): seq<Item> {
    if items == [] then []
    else Originals(items[..|items| - 1]) + if items[|items| - 1].Original? then [items[|items| - 1]] else []
  }

  /** The first n instructions in their order; a reset directly in front of each that enters its region; no other reset. */
  ghost predicate ResetsRight(block: seq<Value>, n: nat, items: seq<Item>) {
    && n <= |block| && Originals(items) == Plain(n)
    && (forall p :: 0 <= p < |items| && items[p].Original? ==> items[p].at < n)
    && (forall p :: 0 <= p < |items| && !items[p].Original? ==>
          p + 1 < |items| && items[p + 1].Original? && Enters(block, items[p + 1].at, items[p]))
    && (forall p, r :: 0 <= p < |items| && items[p].Original? && Enters(block, items[p].at, r) ==> p > 0 && items[p - 1] == r)
  }

  lemma OriginalsAppend(items: seq<Item>, w: Option<Item>, k: nat)
    requires w.Some? ==> !w.value.Original?
    ensures Originals(items + (Front(w) + [Original(k)])) == Originals(items) + [Original(k)]
  {
    var all := items + (Front(w) + [Original(k)]);
    assert all[..|all| - 1] == items + Front(w);
    if w.Some? {
      assert (items + Front(w))[..|items|] == items;
    } else {
      assert items + Front(w) == items;
    }
  }

  lemma {:induction false} ResetsAreRight(block: seq<Value>, n: nat)
    requires n <= |block|
    ensures ResetsRight(block, n, WithResets(block, n))
  {
    hide GetAccessType, StateAt, Enters, Originals;
    if n > 0 {
      var items := WithResets(block, n - 1);
      ResetsAreRight(block, n - 1);
      var w := Wanted(StateAt(block, n - 1), block[n - 1]);
      forall r
        ensures w == Some(r) <==> Enters(block, n - 1, r)
      {
        WantedEnters(block, n - 1, r);
      }
      OriginalsAppend(items, w, n - 1);
      ResetsStep(block, n, items, w);
    } else {
      NoOriginals();
    }
  }

  lemma NoOriginals()
    ensures Originals([]) == []
  {
  }

  lemma ResetsStep(block: seq<Value>, n: nat, items: seq<Item>, w: Option<Item>)
    requires 0 < n <= |block| && ResetsRight(block, n - 1, items) && (w.Some? ==> !w.value.Original?)
    requires forall r :: w == Some(r) <==> Enters(block, n - 1, r)
    requires Originals(items + (Front(w) + [Original(n - 1)])) == Plain(n)
    ensures ResetsRight(block, n, items + (Front(w) + [Original(n - 1)]))
  {
    hide Enters, Originals, Plain;
    var all := items + (Front(w) + [Original(n - 1)]);
    assert forall p :: 0 <= p < |items| ==> all[p] == items[p];
    assert all[|all| - 1] == Original(n - 1);
    if w.Some? {
      assert all[|items|] == w.value && |all| == |items| + 2;
    } else {
      assert |all| == |items| + 1;
    }
    forall p | 0 <= p < |all| && !all[p].Original?
      ensures p + 1 < |all| && all[p + 1].Original? && Enters(block, all[p + 1].at, all[p])
    {
      assert p < |items| ==> !items[p].Original?;
      assert p + 1 < |items| ==> all[p + 1] == items[p + 1];
    }
    forall p, r | 0 <= p < |all| && all[p].Original? && Enters(block, all[p].at, r)
      ensures p > 0 && all[p - 1] == r
    {
      if p < |items| {
        assert items[p].Original? && Enters(block, items[p].at, r);
        assert items[p - 1] == r;
      } else {
        assert p == |all| - 1 && w == Some(r);
      }
    }
  }

  // ---- priced runs ----

  /** What instructions other than loads and stores cost; a call also leaves the head anywhere. */
  datatype Prices = Prices(
    other: (Value, seq<Word>) -> nat,
    call: (Value, seq<Word>, World, nat) -> (nat, nat))

  datatype Priced = Priced(state: State, head: nat, cost: nat)

  function BaseCost(n: nat, addr: nat): nat { if M.IsStack(n, addr) then STACK_COST else HEAP_COST }

  function StepPriced(m: Meaning, pr: Prices, v: Value, c: Priced): Option<Priced>
    requires IsInst(v)
  {
    match Step(m, v, c.state)
    case None => None
    case Some(state) =>
      var ws := Inputs(m, c.state.regs, v);
      if IsAccess(v) then
        var addr := AddressOf(v, ws);
        if M.IsStack(v.width, addr) || M.IsHeap(v.width, addr) then
          Some(Priced(state, addr, c.cost + M.AccessCost(c.head, BaseCost(v.width, addr), addr)))
        else None
      else if v.CallInst? && !IsAllocation(v) then
        var (head, cost) := pr.call(v, ws, c.state.world, c.head);
        Some(Priced(state, head, c.cost + cost))
      else Some(Priced(state, c.head, c.cost + pr.other(v, ws)))
  }

  /** Accesses are priced as the interpreter's memory prices them, and leave the head where it does. */
  lemma PricedAsMachine(m: Meaning, pr: Prices, v: Value, c: Priced, alloced: seq<H.Alloc>)
    requires IsInst(v) && IsAccess(v) && M.AccessSize(v.width) && Step(m, v, c.state).Some?
    requires M.Access(c.head, alloced, v.width, AddressOf(v, Inputs(m, c.state.regs, v))).Done?
    ensures var addr := AddressOf(v, Inputs(m, c.state.regs, v));
            StepPriced(m, pr, v, c) ==
            Some(Priced(Step(m, v, c.state).value, addr, c.cost + M.Access(c.head, alloced, v.width, addr).cost))
  {
    hide Step, Inputs, H.InAlloc;
  }

  function StepItem(m: Meaning, pr: Prices, block: seq<Value>, item: Item, c: Priced): Option<Priced>
    requires AllInsts(block)
  {
    match item
    case ResetStack => Some(Priced(c.state, H.STACK_MAX, c.cost + RESET_COST))
    case ResetHeap => Some(Priced(c.state, H.HEAP_MIN, c.cost + RESET_COST))
    case Original(i) => if i < |block| then StepPriced(m, pr, block[i], c) else None
  }

  function RunItems(m: Meaning, pr: Prices, block: seq<Value>, items: seq<Item>, c: Priced): Option<Priced>
    requires AllInsts(block)
  {
    if items == [] then Some(c)
    else match RunItems(m, pr, block, items[..|items| - 1], c)
      case None => None
      case Some(d) => StepItem(m, pr, block, items[|items| - 1], d)
  }

  predicate RightlyClassified(v: Value, ws: seq<Word>)
    requires |ws| == |Operands(v)|
  {
    IsAccess(v) ==>
      && (GetAccessType(v) == Stack ==> M.IsStack(v.width, AddressOf(v, ws)))
      && (GetAccessType(v) == Heap ==> M.IsHeap(v.width, AddressOf(v, ws)))
  }

  /** Every access of the unchanged block's run touches the region it is classified with, and at least one byte. */
  ghost predicate ClassifiedRun(m: Meaning, pr: Prices, block: seq<Value>, c: Priced)
    requires AllInsts(block)
  {
    forall i :: 0 <= i < |block| && RunItems(m, pr, block, Plain(i), c).Some? ==>
      && RightlyClassified(block[i], Inputs(m, RunItems(m, pr, block, Plain(i), c).value.state.regs, block[i]))
      && (IsAccess(block[i]) ==> block[i].width > 0)
  }

  function ResetCount(items: seq<Item>): nat {
    if items == [] then 0 else ResetCount(items[..|items| - 1]) + if items[|items| - 1].Original? then 0 else 1
  }

  /** The pass's state names the region the interpreter's head is in. */
  predicate HeadIn(state: AllocType, head: nat) {
    && (state == Stack ==> head < H.STACK_MAX)
    && (state == Heap ==> H.HEAP_MIN <= head < H.HEAP_MAX)
  }

  const SAVING := 5240

  /** Going to the other region: reset and access together are cheaper by at least SAVING. */
  lemma ResetSaves(state: AllocType, head: nat, n: nat, addr: nat)
    requires HeadIn(state, head) && n > 0
    ensures state == Heap && M.IsStack(n, addr) ==>
              RESET_COST + M.AccessCost(H.STACK_MAX, STACK_COST, addr) + SAVING <= M.AccessCost(head, STACK_COST, addr)
    ensures state == Stack && M.IsHeap(n, addr) ==>
              RESET_COST + M.AccessCost(H.HEAP_MIN, HEAP_COST, addr) + SAVING <= M.AccessCost(head, HEAP_COST, addr)
  {
  }

  /** The saving cannot be promised to be larger. */
  lemma SavingIsTight()
    ensures M.AccessCost(H.HEAP_MIN, STACK_COST, 0) == RESET_COST + M.AccessCost(H.STACK_MAX, STACK_COST, 0) + SAVING
  {
  }

  lemma Appended(m: Meaning, pr: Prices, block: seq<Value>, items: seq<Item>, item: Item, c: Priced)
    requires AllInsts(block)
    ensures RunItems(m, pr, block, items + [item], c) ==
            (match RunItems(m, pr, block, items, c)
             case None => None
             case Some(d) => StepItem(m, pr, block, item, d))
    ensures ResetCount(items + [item]) == ResetCount(items) + if item.Original? then 0 else 1
  {
    assert (items + [item])[..|items|] == items;
  }

  lemma {:induction false} PointerType(v: Value)
    ensures GetOpType(v) == Stack || GetOpType(v) == Heap || GetOpType(v) == Unknown
  {
    match v
    case BitCastInst(_, from) => PointerType(from);
    case GepInst(_, base, _) => PointerType(base);
    case BinaryInst(_, _, lhs, rhs) => PointerType(lhs); PointerType(rhs);
    case _ =>
  }

  /** The second machine agrees with the first but has paid less: at least SAVING for each of k resets. */
  ghost predicate Cheaper(plain: Priced, reset: Priced, k: nat) {
    reset.state == plain.state && reset.head == plain.head && reset.cost + SAVING * k <= plain.cost
  }

  /** The machine after the reset wanted in front of v. */
  function AfterWanted(state: AllocType, v: Value, d: Priced): Priced {
    if Wanted(state, v) == Some(ResetStack) then Priced(d.state, H.STACK_MAX, d.cost + RESET_COST)
    else if Wanted(state, v) == Some(ResetHeap) then Priced(d.state, H.HEAP_MIN, d.cost + RESET_COST)
    else d
  }

  /** One instruction, with or without a reset in front of it. */
  lemma StepWithReset(m: Meaning, pr: Prices, v: Value, state: AllocType, c: Priced, d: Priced, k: nat)
    requires IsInst(v) && HeadIn(state, c.head) && Cheaper(c, d, k)
    requires RightlyClassified(v, Inputs(m, c.state.regs, v)) && (IsAccess(v) ==> v.width > 0)
    requires StepPriced(m, pr, v, c).Some?
    ensures HeadIn(Next(state, v), StepPriced(m, pr, v, c).value.head)
    ensures var r := StepPriced(m, pr, v, AfterWanted(state, v, d));
            r.Some? && Cheaper(StepPriced(m, pr, v, c).value, r.value, k + |Front(Wanted(state, v))|)
  {
    hide Step;
    if IsAccess(v) {
      ResetSaves(state, c.head, v.width, AddressOf(v, Inputs(m, c.state.regs, v)));
      PointerType(v.ptr);
    }
    hide Inputs, GetOpType;
  }

  lemma WithResetsStep(m: Meaning, pr: Prices, block: seq<Value>, n: nat, c: Priced)
    requires AllInsts(block) && 0 < n <= |block| && RunItems(m, pr, block, WithResets(block, n - 1), c).Some?
    ensures var d, state := RunItems(m, pr, block, WithResets(block, n - 1), c).value, StateAt(block, n - 1);
            RunItems(m, pr, block, WithResets(block, n), c) == StepPriced(m, pr, block[n - 1], AfterWanted(state, block[n - 1], d))
    ensures ResetCount(WithResets(block, n)) == ResetCount(WithResets(block, n - 1)) + |Front(Wanted(StateAt(block, n - 1), block[n - 1]))|
  {
    hide StepPriced, GetAccessType, StateAt, ResetCount, RunItems;
    var items, wanted := WithResets(block, n - 1), Front(Wanted(StateAt(block, n - 1), block[n - 1]));
    assert WithResets(block, n) == items + wanted + [Original(n - 1)];
    hide WithResets;
    if wanted == [] {
      assert items + wanted == items;
    } else {
      assert wanted == [wanted[0]];
      Appended(m, pr, block, items, wanted[0], c);
    }
    Appended(m, pr, block, items + wanted, Original(n - 1), c);
  }

  lemma PlainStep(m: Meaning, pr: Prices, block: seq<Value>, n: nat, c: Priced)
    requires AllInsts(block) && 0 < n <= |block| && RunItems(m, pr, block, Plain(n), c).Some?
    ensures RunItems(m, pr, block, Plain(n - 1), c).Some?
    ensures RunItems(m, pr, block, Plain(n), c) == StepPriced(m, pr, block[n - 1], RunItems(m, pr, block, Plain(n - 1), c).value)
  {
    hide RunItems, StepPriced;
    Appended(m, pr, block, Plain(n - 1), Original(n - 1), c);
  }

  /** The resets change no register, no memory and no call, and each makes the block cheaper by at least 5240 units. */
  lemma {:induction false} ResetsPay(m: Meaning, pr: Prices, block: seq<Value>, n: nat, c: Priced)
    requires AllInsts(block) && n <= |block| && ClassifiedRun(m, pr, block, c)
    requires RunItems(m, pr, block, Plain(n), c).Some?
    ensures RunItems(m, pr, block, WithResets(block, n), c).Some?
    ensures Cheaper(RunItems(m, pr, block, Plain(n), c).value, RunItems(m, pr, block, WithResets(block, n), c).value, ResetCount(WithResets(block, n)))
    ensures HeadIn(StateAt(block, n), RunItems(m, pr, block, Plain(n), c).value.head)
  {
    hide StepPriced, StepItem, Inputs, Next, GetAccessType, RightlyClassified, HeadIn, AfterWanted, Wanted, ClassifiedRun;
    hide RunItems, ResetCount, WithResets, Plain, Cheaper;
    if n > 0 {
      PlainStep(m, pr, block, n, c);
      ResetsPay(m, pr, block, n - 1, c);
      WithResetsStep(m, pr, block, n, c);
      ClassifiedAt(m, pr, block, n - 1, c);
      var plain, reset := RunItems(m, pr, block, Plain(n - 1), c).value, RunItems(m, pr, block, WithResets(block, n - 1), c).value;
      StepWithReset(m, pr, block[n - 1], StateAt(block, n - 1), plain, reset, ResetCount(WithResets(block, n - 1)));
    } else {
      NothingRun(m, pr, block, c);
    }
  }

  lemma NothingRun(m: Meaning, pr: Prices, block: seq<Value>, c: Priced)
    requires AllInsts(block)
    ensures Plain(0) == WithResets(block, 0) == [] && RunItems(m, pr, block, [], c) == Some(c)
    ensures Cheaper(c, c, ResetCount([])) && HeadIn(StateAt(block, 0), c.head)
  {
    hide GetAccessType;
  }

  lemma ClassifiedAt(m: Meaning, pr: Prices, block: seq<Value>, i: nat, c: Priced)
    requires AllInsts(block) && i < |block| && ClassifiedRun(m, pr, block, c) && RunItems(m, pr, block, Plain(i), c).Some?
    ensures RightlyClassified(block[i], Inputs(m, RunItems(m, pr, block, Plain(i), c).value.state.regs, block[i]))
    ensures IsAccess(block[i]) ==> block[i].width > 0
  {
    hide RunItems, Plain, RightlyClassified, Inputs;
  }
}
