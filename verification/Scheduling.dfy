/** Dependency order and the instruction scheduler of ReorderMemAccess.cpp. */
module Scheduling {
  import opened Ir

  /** The memory region an instruction is blocked with. */
  function GetBlockType(v: Value): AllocType {
    match v
    case CallInst(_, _, _) =>
      if IsMallocCall(v) then Heap
      else if IsFreeCall(v) then Heap
      else if IsAllocaByteCall(v) then Stack
      else Call
    case AllocaInst(_) => Stack
    case BitCastInst(_, from) => GetBlockType(from)
    case GepInst(_, base, _) => GetBlockType(base)
    case LoadInst(_, ptr, _) => GetBlockType(ptr)
    case StoreInst(_, _, ptr, _) => GetBlockType(ptr)
    case GlobalVar(_) => Heap
    case BitCastExpr(from) => GetBlockType(from)
    case _ => Unknown
  }

  /** The memory region a pointer value points into. */
  function GetOpTypeReorder(v: Value): AllocType {
    match v
    case CallInst(_, _, _) =>
      if IsMallocCall(v) then Heap
      else if IsFreeCall(v) then Heap
      else if IsAllocaByteCall(v) then Stack
      else Unknown
    case AllocaInst(_) => Stack
    case BitCastInst(_, from) => GetOpTypeReorder(from)
    case GepInst(_, base, _) => GetOpTypeReorder(base)
    case BitCastExpr(from) => GetOpTypeReorder(from)
    case GlobalVar(_) => Heap
    case BinaryInst(_, _, lhs, rhs) =>
      if GetOpTypeReorder(lhs) != Unknown then GetOpTypeReorder(lhs) else GetOpTypeReorder(rhs)
    case _ => Unknown
  }

  /** The memory region an instruction accesses. */
  function GetAccessTypeReorder(v: Value): AllocType {
    match v
    case CallInst(_, _, _) => if IsAllocation(v) then NoEffect else Call
    case LoadInst(_, ptr, _) => GetOpTypeReorder(ptr)
    case StoreInst(_, _, ptr, _) => GetOpTypeReorder(ptr)
    case _ => NoEffect
  }

  /** Must instruction i stay in front of instruction j? */
  predicate CheckDom(i: Value, j: Value) {
    var itype, jtype := GetAccessTypeReorder(i), GetAccessTypeReorder(j);
    if i in Operands(j) then true
    else if itype == NoEffect || jtype == NoEffect then false
    else if itype == Call || jtype == Call then true
    else if itype == jtype && itype != Unknown then true
    else jtype == Unknown
  }

  // ---- what decides the regions ----

  lemma {:induction false} PointerType(v: Value)
    ensures GetOpTypeReorder(v) == Stack || GetOpTypeReorder(v) == Heap || GetOpTypeReorder(v) == Unknown
  {
    match v
    case BitCastInst(_, from) => PointerType(from);
    case GepInst(_, base, _) => PointerType(base);
    case BitCastExpr(from) => PointerType(from);
    case BinaryInst(_, _, lhs, rhs) => PointerType(lhs); PointerType(rhs);
    case _ =>
  }

  lemma {:induction false} GlobalRegion(v: Value)
    requires IsGlobalPointer(v)
    ensures GetBlockType(v) == Heap && GetOpTypeReorder(v) == Heap
  {
    if v.BitCastExpr? {
      GlobalRegion(v.from);
    }
  }

  /** Casts and address arithmetic keep the region of the object a pointer is derived from. */
  lemma {:induction false} DerivedRegion(v: Value, o: Value)
    requires DerivedFrom(v, o)
    ensures GetBlockType(v) == GetBlockType(o) && GetOpTypeReorder(v) == GetOpTypeReorder(o)
  {
    if v != o {
      if v.BitCastInst? {
        DerivedRegion(v.from, o);
      } else {
        DerivedRegion(v.base, o);
      }
    }
  }

  /** The object an access's pointer is derived from decides its region, for the blocking and for the dependencies:
      a stack object the stack, a result of malloc or a global the heap. */
  lemma ObjectDecides(a: Value, o: Value)
    requires IsAccess(a) && DerivedFrom(a.ptr, o)
    ensures IsStackObject(o) ==> GetBlockType(a.ptr) == GetBlockType(a) == GetAccessTypeReorder(a) == Stack
    ensures IsMallocCall(o) || IsGlobalPointer(o) ==> GetBlockType(a.ptr) == GetBlockType(a) == GetAccessTypeReorder(a) == Heap
  {
    DerivedRegion(a.ptr, o);
    if IsGlobalPointer(o) {
      GlobalRegion(o);
    }
  }

  /** Looking through loads and stores too. */
  function DeepRoot(v: Value): Value {
    match v
    case BitCastInst(_, from) => DeepRoot(from)
    case GepInst(_, base, _) => DeepRoot(base)
    case BitCastExpr(from) => DeepRoot(from)
    case LoadInst(_, ptr, _) => DeepRoot(ptr)
    case StoreInst(_, _, ptr, _) => DeepRoot(ptr)
    case _ => v
  }

  predicate IsHeapObject(o: Value) { IsMallocCall(o) || IsFreeCall(o) || o.GlobalVar? }

  /** Blocked with the stack is what goes back to a stack object, with the heap what goes back to malloc, free or a global,
      through casts, address arithmetic, loads and stores; nothing else is ever blocked. */
  lemma {:induction false} BlockedIff(v: Value)
    ensures GetBlockType(v) == Stack <==> IsStackObject(DeepRoot(v))
    ensures GetBlockType(v) == Heap <==> IsHeapObject(DeepRoot(v))
  {
    match v
    case BitCastInst(_, from) => BlockedIff(from);
    case GepInst(_, base, _) => BlockedIff(base);
    case BitCastExpr(from) => BlockedIff(from);
    case LoadInst(_, ptr, _) => BlockedIff(ptr);
    case StoreInst(_, _, ptr, _) => BlockedIff(ptr);
    case _ =>
  }

  /** The region the dependency test knows of a pointer that is no sum: that of the object it is derived from. */
  lemma {:induction false} KnownIff(v: Value)
    requires !Root(v).BinaryInst?
    ensures GetOpTypeReorder(v) == Stack <==> IsStackObject(Root(v))
    ensures GetOpTypeReorder(v) == Heap <==> IsHeapObject(Root(v))
  {
    match v
    case BitCastInst(_, from) => KnownIff(from);
    case GepInst(_, base, _) => KnownIff(base);
    case BitCastExpr(from) => KnownIff(from);
    case _ =>
  }

  /** A sum of an address and an offset has the region of the operand that has one, of the left one if both have. */
  lemma SumRegion(v: Value, b: Value, o: Value)
    requires DerivedFrom(v, b) && b.BinaryInst?
    requires IsStackObject(o) || IsMallocCall(o) || IsGlobalPointer(o)
    requires DerivedFrom(b.lhs, o) || (GetOpTypeReorder(b.lhs) == Unknown && DerivedFrom(b.rhs, o))
    ensures GetOpTypeReorder(v) == if IsStackObject(o) then Stack else Heap
    ensures GetBlockType(v) == Unknown
  {
    DerivedRegion(v, b);
    DerivedRegion(if DerivedFrom(b.lhs, o) then b.lhs else b.rhs, o);
    if IsGlobalPointer(o) {
      GlobalRegion(o);
    }
  }

  /** No sum on the way to the object the pointer is derived from. */
  predicate NoSum(v: Value) {
    && !v.BinaryInst?
    && (v.BitCastInst? || v.BitCastExpr? ==> NoSum(v.from))
    && (v.GepInst? ==> NoSum(v.base))
  }

  lemma {:induction false} PointerRegions(v: Value)
    requires NoSum(v) && GetOpTypeReorder(v) in {Stack, Heap}
    ensures GetBlockType(v) == GetOpTypeReorder(v)
  {
    match v
    case BitCastInst(_, from) => PointerRegions(from);
    case GepInst(_, base, _) => PointerRegions(base);
    case BitCastExpr(from) => PointerRegions(from);
    case _ =>
  }

  /** Where the dependencies know the region of an access through no sum, the blocking knows the same region. */
  lemma RegionsAgree(a: Value)
    requires IsAccess(a) && NoSum(a.ptr) && GetAccessTypeReorder(a) in {Stack, Heap}
    ensures GetBlockType(a) == GetAccessTypeReorder(a)
  {
    PointerRegions(a.ptr);
  }

  /** An access, or a call other than to an allocation function. */
  predicate HasEffect(v: Value) { IsAccess(v) || (v.CallInst? && !IsAllocation(v)) }

  /** What must stay in front: an operand; and of two instructions with effects, one that is a call, or any two accesses
      of the same known region, or any access in front of one of unknown region. */
  lemma OrderedIff(i: Value, j: Value)
    ensures CheckDom(i, j) <==>
            || i in Operands(j)
            || (HasEffect(i) && HasEffect(j) &&
                (i.CallInst? || j.CallInst? || GetOpTypeReorder(j.ptr) == Unknown || GetOpTypeReorder(i.ptr) == GetOpTypeReorder(j.ptr)))
  {
    if IsAccess(i) {
      PointerType(i.ptr);
    }
    if IsAccess(j) {
      PointerType(j.ptr);
    }
    hide GetOpTypeReorder;
  }

  predicate Edge(insts: seq<Value>, i: nat, j: nat) { i < j < |insts| && CheckDom(insts[i], insts[j]) }

  // ---- the dependency table ----

  /** The instructions before `to` that must stay behind instruction i, in order. */
  function Dominated(insts: seq<Value>, i: nat, to: nat): (js: seq<nat>)
    ensures forall j :: j in js <==> i < j < to && Edge(insts, i, j)
    ensures forall a, b :: 0 <= a < b < |js| ==> js[a] < js[b]
  {
    if to == 0 then []
    else
      var js := Dominated(insts, i, to - 1);
      assert forall a :: 0 <= a < |js| ==> js[a] in js;
      if Edge(insts, i, to - 1) then js + [to - 1] else js
  }

  /** The instructions that must still be emitted before j, counting only those before `to`. */
  function Waiting(insts: seq<Value>, used: seq<bool>, j: nat, to: nat): set<nat> {
    set i: nat | i < |used| && i < to && !used[i] && Edge(insts, i, j)
  }

  lemma WaitingGrows(insts: seq<Value>, used: seq<bool>, j: nat, i: nat)
    requires i < |used| == |insts| && !used[i]
    ensures |Waiting(insts, used, j, i + 1)| == |Waiting(insts, used, j, i)| + if Edge(insts, i, j) then 1 else 0
  {
    var w := Waiting(insts, used, j, i);
    assert Waiting(insts, used, j, i + 1) == if Edge(insts, i, j) then w + {i} else w;
  }

  lemma WaitingShrinks(insts: seq<Value>, used: seq<bool>, i: nat, j: nat)
    requires i < |used| == |insts| && !used[i]
    ensures |Waiting(insts, used[i := true], j, |insts|)| == |Waiting(insts, used, j, |insts|)| - if Edge(insts, i, j) then 1 else 0
  {
    var w := Waiting(insts, used, j, |insts|);
    assert Waiting(insts, used[i := true], j, |insts|) == w - {i};
    assert i in w <==> Edge(insts, i, j);
  }

  ghost predicate CountsOk(insts: seq<Value>, used: seq<bool>, cnt: seq<int>) {
    |cnt| == |used| == |insts| && forall j :: 0 <= j < |insts| ==> cnt[j] == |Waiting(insts, used, j, |insts|)|
  }

  ghost predicate RowsOk(insts: seq<Value>, dom: seq<seq<nat>>, rows: nat) {
    |dom| == |insts| && forall i :: 0 <= i < rows && i < |insts| ==> dom[i] == Dominated(insts, i, |insts|)
  }

  lemma RowStep(insts: seq<Value>, i: nat)
    requires i < |insts|
    ensures forall j :: 0 <= j < |insts| ==>
              |Waiting(insts, seq(|insts|, _ => false), j, i + 1)| == |Waiting(insts, seq(|insts|, _ => false), j, i)| + if Edge(insts, i, j) then 1 else 0
  {
    forall j | 0 <= j < |insts|
      ensures |Waiting(insts, seq(|insts|, _ => false), j, i + 1)| == |Waiting(insts, seq(|insts|, _ => false), j, i)| + if Edge(insts, i, j) then 1 else 0
    {
      WaitingGrows(insts, seq(|insts|, _ => false), j, i);
    }
  }

  lemma {:induction false} NothingEarlier(insts: seq<Value>, i: nat, to: nat)
    requires to <= i + 1
    ensures Dominated(insts, i, to) == []
  {
    if to > 0 {
      NothingEarlier(insts, i, to - 1);
    }
  }

  lemma DominatedNext(insts: seq<Value>, i: nat, to: nat)
    ensures Dominated(insts, i, to + 1) == if Edge(insts, i, to) then Dominated(insts, i, to) + [to] else Dominated(insts, i, to)
  {
    hide Edge;
  }

  lemma EdgeIsDominance(insts: seq<Value>, i: nat, j: nat)
    requires i < j < |insts|
    ensures Edge(insts, i, j) == CheckDom(insts[i], insts[j])
  {
    hide CheckDom;
  }

  lemma EdgeFollows(insts: seq<Value>, i: nat)
    ensures forall j :: 0 <= j < |insts| && Edge(insts, i, j) ==> i < j
  {
    hide CheckDom;
  }

  /** Row i of the table: what must stay behind instruction i. */
  method CheckRow(insts: seq<Value>, i: nat, cnt: seq<int>) returns (row: seq<nat>, cnt': seq<int>)
    requires i < |insts| == |cnt|
    ensures row == Dominated(insts, i, |insts|)
    ensures |cnt'| == |cnt| && forall j :: 0 <= j < |cnt| ==> cnt'[j] == cnt[j] + if Edge(insts, i, j) then 1 else 0
  {
    hide CheckDom, Dominated, Edge;
    NothingEarlier(insts, i, i + 1);
    EdgeFollows(insts, i);
    row, cnt' := [], cnt;
    for j := i + 1 to |insts|
      invariant row == Dominated(insts, i, j) && |cnt'| == |cnt|
      invariant forall k :: 0 <= k < j ==> cnt'[k] == cnt[k] + if Edge(insts, i, k) then 1 else 0
      invariant forall k :: j <= k < |cnt| ==> cnt'[k] == cnt[k]
    {
      DominatedNext(insts, i, j);
      EdgeIsDominance(insts, i, j);
      if CheckDom(insts[i], insts[j]) {
        row := row + [j];
        cnt' := cnt'[j := cnt'[j] + 1];
      }
    }
  }

  lemma NothingWaiting(insts: seq<Value>, used: seq<bool>)
    ensures forall j :: 0 <= j < |insts| ==> |Waiting(insts, used, j, 0)| == 0
  {
    assert forall j :: 0 <= j < |insts| ==> Waiting(insts, used, j, 0) == {};
  }

  method CheckDominance(insts: seq<Value>) returns (dom: seq<seq<nat>>, cnt: seq<int>)
    ensures RowsOk(insts, dom, |insts|) && CountsOk(insts, seq(|insts|, _ => false), cnt)
  {
    var n := |insts|;
    ghost var none := seq(n, _ => false);
    NothingWaiting(insts, none);
    hide Waiting, Dominated, Edge, CheckDom;
    dom := seq(n, _ => []);
    cnt := seq(n, _ => 0);
    for i := 0 to n
      invariant |cnt| == n && RowsOk(insts, dom, i)
      invariant forall j :: 0 <= j < n ==> cnt[j] == |Waiting(insts, none, j, i)|
    {
      var row;
      row, cnt := CheckRow(insts, i, cnt);
      RowStep(insts, i);
      dom := dom[i := row];
    }
  }

  // ---- schedules ----

  /** No instruction is emitted before one that must stay in front of it. */
  ghost predicate KeepsEdges(insts: seq<Value>, order: seq<nat>) {
    forall a, b :: 0 <= a < b < |order| ==> !Edge(insts, order[b], order[a])
  }

  ghost predicate Distinct(order: seq<nat>) { forall a, b :: 0 <= a < b < |order| ==> order[a] != order[b] }

  /** order lists every instruction exactly once and keeps every dependency. */
  ghost predicate IsSchedule(insts: seq<Value>, order: seq<nat>) {
    && Distinct(order) && KeepsEdges(insts, order)
    && forall i :: i in order <==> 0 <= i < |insts|
  }

  function Pick(insts: seq<Value>, order: seq<nat>): (r: seq<Value>)
    requires forall i :: i in order ==> i < |insts|
    ensures |r| == |order| && forall k :: 0 <= k < |order| ==> order[k] in order && r[k] == insts[order[k]]
  {
    seq(|order|, k requires 0 <= k < |order| => assert order[k] in order; insts[order[k]])
  }

  /** How many leading instructions the first round, which blocks heap instructions, does not block. */
  function Leading(insts: seq<Value>): (p: nat)
    ensures p <= |insts| && forall i :: 0 <= i < p ==> GetBlockType(insts[i]) != Heap
  {
    if insts == [] || GetBlockType(insts[0]) == Heap then 0 else 1 + Leading(insts[1..])
  }

  ghost predicate StartsInOrder(order: seq<nat>, p: nat) { p <= |order| && forall k :: 0 <= k < p ==> order[k] == k }

  function Unused(used: seq<bool>): (n: nat)
    ensures n == 0 <==> forall i :: 0 <= i < |used| ==> used[i]
  {
    if used == [] then 0 else Unused(used[1..]) + if used[0] then 0 else 1
  }

  lemma {:induction false} UnusedSet(used: seq<bool>, i: nat)
    requires i < |used| && !used[i]
    ensures Unused(used[i := true]) == Unused(used) - 1
  {
    if i == 0 {
      assert used[0 := true][1..] == used[1..];
    } else {
      UnusedSet(used[1..], i - 1);
      assert used[i := true][1..] == used[1..][i - 1 := true];
    }
  }

  lemma {:induction false} UnusedAll(n: nat)
    ensures Unused(seq(n, _ => false)) == n
  {
    if n > 0 {
      UnusedAll(n - 1);
      assert seq(n, _ => false)[1..] == seq(n - 1, _ => false);
    }
  }

  function Least(used: seq<bool>): (k: nat)
    ensures k <= |used| && forall i :: 0 <= i < k ==> used[i]
    ensures k < |used| ==> !used[k]
  {
    if used == [] || !used[0] then 0 else 1 + Least(used[1..])
  }

  /** The scheduler's variables; order lists the instructions emitted so far. */
  datatype Sched = Sched(used: seq<bool>, cnt: seq<int>, lft: int, order: seq<nat>)

  ghost predicate Progress(insts: seq<Value>, q: Sched) {
    && CountsOk(insts, q.used, q.cnt) && q.lft == Unused(q.used)
    && Distinct(q.order) && KeepsEdges(insts, q.order)
    && (forall i :: i in q.order <==> 0 <= i < |insts| && q.used[i])
    && (forall i: nat, j: nat :: Edge(insts, i, j) && q.used[j] ==> q.used[i])
  }

  /** Nothing is waited for exactly when every instruction that must come first is out. */
  lemma ZeroCount(insts: seq<Value>, used: seq<bool>, cnt: seq<int>, j: nat)
    requires CountsOk(insts, used, cnt) && j < |insts|
    ensures cnt[j] == 0 <==> forall i :: 0 <= i < j && Edge(insts, i, j) ==> used[i]
  {
    var w := Waiting(insts, used, j, |insts|);
    if i :| 0 <= i < j && Edge(insts, i, j) && !used[i] {
      assert i in w;
    }
    if w != {} {
      var i :| i in w;
      assert Edge(insts, i, j);
    }
  }

  lemma Emit(insts: seq<Value>, q: Sched, i: nat, cnt': seq<int>)
    requires Progress(insts, q) && i < |insts| && !q.used[i] && q.cnt[i] == 0
    requires |cnt'| == |q.cnt| && forall j :: 0 <= j < |cnt'| ==> cnt'[j] == q.cnt[j] - if Edge(insts, i, j) then 1 else 0
    ensures Progress(insts, Sched(q.used[i := true], cnt', q.lft - 1, q.order + [i]))
  {
    UnusedSet(q.used, i);
    ZeroCount(insts, q.used, q.cnt, i);
    forall j | 0 <= j < |insts|
      ensures cnt'[j] == |Waiting(insts, q.used[i := true], j, |insts|)|
    {
      WaitingShrinks(insts, q.used, i, j);
    }
    hide Unused, Waiting;
    assert forall k :: k in q.order + [i] <==> k in q.order || k == i;
    EmitOrder(insts, q.used, q.order, i);
  }

  lemma EmitOrder(insts: seq<Value>, used: seq<bool>, order: seq<nat>, i: nat)
    requires |used| == |insts| && i < |insts| && !used[i] && Distinct(order) && KeepsEdges(insts, order)
    requires forall k :: k in order <==> 0 <= k < |insts| && used[k]
    requires forall k: nat, j: nat :: Edge(insts, k, j) && used[j] ==> used[k]
    ensures Distinct(order + [i]) && KeepsEdges(insts, order + [i])
  {
    hide Edge;
    var o := order + [i];
    forall a, b | 0 <= a < b < |o|
      ensures o[a] != o[b] && !Edge(insts, o[b], o[a])
    {
      assert o[a] == order[a] && order[a] in order;
    }
  }

  /** The least unused instruction waits for nothing. */
  lemma LeastIsReady(insts: seq<Value>, used: seq<bool>, cnt: seq<int>)
    requires CountsOk(insts, used, cnt)
    ensures Least(used) < |insts| ==> cnt[Least(used)] == 0
  {
    if Least(used) < |insts| {
      ZeroCount(insts, used, cnt, Least(used));
    }
  }

  /** No instruction before `to` can be emitted while `block` is blocked. */
  ghost predicate Stalled(insts: seq<Value>, q: Sched, block: AllocType, to: nat)
    requires |q.used| == |q.cnt| == |insts|
  {
    forall i :: 0 <= i < to && i < |insts| && !q.used[i] && GetBlockType(insts[i]) != block ==> q.cnt[i] != 0
  }

  /** 1 when the least unused instruction is the blocked kind, so that this round may emit nothing. */
  function BlockedRank(insts: seq<Value>, used: seq<bool>, block: AllocType): nat {
    var k := Least(used);
    if k < |insts| && GetBlockType(insts[k]) == block then 1 else 0
  }

  /** The leading instructions are out in order, or the first round has just reached instruction i without passing one over. */
  ghost predicate LeadingOut(insts: seq<Value>, q: Sched, block: AllocType, i: nat) {
    StartsInOrder(q.order, Leading(insts)) || (|q.order| == i <= Leading(insts) && StartsInOrder(q.order, i) && block == Heap)
  }

  // ---- changes of region ----

  function OtherRegion(t: AllocType): AllocType { if t == Heap then Stack else Heap }

  /** The region of the last heap or stack instruction in order; at first the stack, because heap instructions are blocked first. */
  ghost function LastRegion(insts: seq<Value>, order: seq<nat>): AllocType {
    if order == [] then Stack
    else
      var i := order[|order| - 1];
      if i < |insts| && GetBlockType(insts[i]) in {Heap, Stack} then GetBlockType(insts[i])
      else LastRegion(insts, order[..|order| - 1])
  }

  /** With the instructions in order emitted, every other one outside region t still waits for something. */
  ghost predicate OnlyRegionReady(insts: seq<Value>, order: seq<nat>, t: AllocType) {
    forall i: nat :: i < |insts| && i !in order && GetBlockType(insts[i]) != t ==> exists j: nat :: j !in order && Edge(insts, j, i)
  }

  /** A change to region t is forced: nothing else could have been emitted. */
  ghost predicate Forced(insts: seq<Value>, order: seq<nat>, t: AllocType) {
    t in {Heap, Stack} && t != LastRegion(insts, order) ==> OnlyRegionReady(insts, order, t)
  }

  /** The schedule changes from one region to the other only when every instruction left outside the other one must wait. */
  ghost predicate ChangesOnlyIfForced(insts: seq<Value>, order: seq<nat>) {
    forall k :: 0 <= k < |order| && order[k] < |insts| ==> Forced(insts, order[..k], GetBlockType(insts[order[k]]))
  }

  /** While one region is blocked, either the other one was emitted last or nothing outside the other one is ready. */
  ghost predicate InPhase(insts: seq<Value>, order: seq<nat>, block: AllocType) {
    && block in {Heap, Stack} && ChangesOnlyIfForced(insts, order)
    && (LastRegion(insts, order) == OtherRegion(block) || OnlyRegionReady(insts, order, OtherRegion(block)))
  }

  /** Whatever stands before the k-th emitted instruction and is not out waits for something, or is of the region that is
      blocked: the one not entered last. */
  ghost predicate SkipsOnlyHeldBack(insts: seq<Value>, order: seq<nat>, k: nat)
    requires k < |order|
  {
    forall j: nat :: j < order[k] && j < |insts| && j !in order[..k] ==>
      || GetBlockType(insts[j]) == OtherRegion(LastRegion(insts, order[..k + 1]))
      || exists i: nat :: i !in order[..k] && Edge(insts, i, j)
  }

  /** Always the first instruction that may be emitted is. */
  ghost predicate FirstReady(insts: seq<Value>, order: seq<nat>) {
    forall k :: 0 <= k < |order| ==> SkipsOnlyHeldBack(insts, order, k)
  }

  lemma EmitFirstReady(insts: seq<Value>, q: Sched, block: AllocType, i: nat)
    requires Progress(insts, q) && InPhase(insts, q.order, block) && FirstReady(insts, q.order)
    requires i < |insts| && !q.used[i] && q.cnt[i] == 0 && GetBlockType(insts[i]) != block && Stalled(insts, q, block, i)
    ensures FirstReady(insts, q.order + [i])
  {
    hide GetBlockType, CheckDom;
    var o := q.order + [i];
    EmittedRegion(insts, q, block, i);
    assert o[..|q.order|] == q.order && o[..|q.order| + 1] == o;
    forall j: nat | j < i && j !in q.order
      ensures GetBlockType(insts[j]) == block || exists i: nat :: i !in q.order && Edge(insts, i, j)
    {
      ZeroCount(insts, q.used, q.cnt, j);
    }
    forall k | 0 <= k < |o|
      ensures SkipsOnlyHeldBack(insts, o, k)
    {
      if k < |q.order| {
        assert o[..k] == q.order[..k] && o[..k + 1] == q.order[..k + 1] && SkipsOnlyHeldBack(insts, q.order, k);
      }
    }
  }

  /** After an emission the region entered last is the one not blocked. */
  lemma EmittedRegion(insts: seq<Value>, q: Sched, block: AllocType, i: nat)
    requires Progress(insts, q) && InPhase(insts, q.order, block)
    requires i < |insts| && !q.used[i] && q.cnt[i] == 0 && GetBlockType(insts[i]) != block
    ensures OtherRegion(LastRegion(insts, q.order + [i])) == block
  {
    hide GetBlockType;
    ZeroCount(insts, q.used, q.cnt, i);
    hide Edge, CountsOk, KeepsEdges;
    assert (q.order + [i])[..|q.order|] == q.order;
    assert GetBlockType(insts[i]) != OtherRegion(block) ==> !OnlyRegionReady(insts, q.order, OtherRegion(block));
  }

  /** Emitting i makes nothing before it ready. */
  lemma StillStalled(insts: seq<Value>, q: Sched, block: AllocType, i: nat, q': Sched)
    requires |q.used| == |q.cnt| == |insts| == |q'.cnt| && i < |insts| && Stalled(insts, q, block, i) && q'.used == q.used[i := true]
    requires forall j :: 0 <= j < |q.cnt| ==> q'.cnt[j] == q.cnt[j] - if Edge(insts, i, j) then 1 else 0
    ensures Stalled(insts, q', block, i + 1)
  {
    hide CheckDom, GetBlockType;
  }

  lemma PhaseEmit(insts: seq<Value>, q: Sched, block: AllocType, i: nat)
    requires Progress(insts, q) && InPhase(insts, q.order, block)
    requires i < |insts| && !q.used[i] && q.cnt[i] == 0 && GetBlockType(insts[i]) != block
    ensures InPhase(insts, q.order + [i], block)
  {
    hide GetBlockType;
    ZeroCount(insts, q.used, q.cnt, i);
    hide Edge, CountsOk, KeepsEdges;
    var t, o := GetBlockType(insts[i]), q.order + [i];
    assert o[..|q.order|] == q.order;
    assert t != OtherRegion(block) ==> !OnlyRegionReady(insts, q.order, OtherRegion(block));
    forall k | 0 <= k < |o| && o[k] < |insts|
      ensures Forced(insts, o[..k], GetBlockType(insts[o[k]]))
    {
      if k < |q.order| {
        assert o[..k] == q.order[..k] && o[k] == q.order[k];
      }
    }
  }

  lemma PhaseEnds(insts: seq<Value>, q: Sched, block: AllocType)
    requires Progress(insts, q) && InPhase(insts, q.order, block) && |q.used| == |q.cnt| == |insts|
    requires Stalled(insts, q, block, |insts|)
    ensures InPhase(insts, q.order, OtherRegion(block))
  {
    hide GetBlockType;
    forall i: nat | i < |insts| && i !in q.order && GetBlockType(insts[i]) != block
      ensures exists j: nat :: j !in q.order && Edge(insts, j, i)
    {
      ZeroCount(insts, q.used, q.cnt, i);
    }
  }

  method Release(insts: seq<Value>, row: seq<nat>, cnt: seq<int>, ghost i: nat) returns (cnt': seq<int>)
    requires i < |insts| == |cnt| && row == Dominated(insts, i, |insts|)
    ensures |cnt'| == |cnt| && forall j :: 0 <= j < |cnt| ==> cnt'[j] == cnt[j] - if Edge(insts, i, j) then 1 else 0
  {
    EdgeFollows(insts, i);
    hide Dominated, Edge, CheckDom;
    cnt' := cnt;
    for t := 0 to |row|
      invariant |cnt'| == |cnt|
      invariant forall j :: 0 <= j < |cnt| ==> cnt'[j] == cnt[j] - if j in row[..t] then 1 else 0
    {
      assert row[t] in row && row[t] !in row[..t];
      assert row[..t + 1] == row[..t] + [row[t]];
      cnt' := cnt'[row[t] := cnt'[row[t]] - 1];
    }
    assert row[..|row|] == row;
  }

  /** In the first round a leading instruction is never passed over. */
  lemma NotPassedOver(insts: seq<Value>, q: Sched, block: AllocType, i: nat)
    requires Progress(insts, q) && i < |insts| && LeadingOut(insts, q, block, i)
    requires q.used[i] || GetBlockType(insts[i]) == block || q.cnt[i] != 0
    ensures LeadingOut(insts, q, block, i + 1)
  {
    if i < Leading(insts) && |q.order| == i && StartsInOrder(q.order, i) && block == Heap {
      hide Leading;
      assert i !in q.order;
      ZeroCount(insts, q.used, q.cnt, i);
      forall k | 0 <= k < i
        ensures q.used[k]
      {
        assert q.order[k] in q.order;
      }
      assert false;
    }
  }

  lemma LeadingEmitted(insts: seq<Value>, q: Sched, block: AllocType, i: nat, q': Sched)
    requires i < |insts| && LeadingOut(insts, q, block, i) && q'.order == q.order + [i]
    ensures LeadingOut(insts, q', block, i + 1)
  {
    hide Leading;
  }

  lemma Lengths(insts: seq<Value>, q: Sched)
    requires Progress(insts, q)
    ensures |q.used| == |q.cnt| == |insts|
  {
  }

  lemma Emitted(insts: seq<Value>, q: Sched, block: AllocType, i: nat, q': Sched)
    requires Progress(insts, q) && LeadingOut(insts, q, block, i) && InPhase(insts, q.order, block)
    requires FirstReady(insts, q.order) && |q.used| == |q.cnt| == |insts| && Stalled(insts, q, block, i)
    requires i < |insts| && !q.used[i] && GetBlockType(insts[i]) != block && q.cnt[i] == 0
    requires |q'.cnt| == |q.cnt| && forall j :: 0 <= j < |q.cnt| ==> q'.cnt[j] == q.cnt[j] - if Edge(insts, i, j) then 1 else 0
    requires q' == Sched(q.used[i := true], q'.cnt, q.lft - 1, q.order + [i])
    ensures Progress(insts, q') && LeadingOut(insts, q', block, i + 1) && InPhase(insts, q'.order, block)
    ensures FirstReady(insts, q'.order) && Stalled(insts, q', block, i + 1)
  {
    hide Stalled, FirstReady, Progress, InPhase, LeadingOut, GetBlockType, Edge;
    Emit(insts, q, i, q'.cnt);
    PhaseEmit(insts, q, block, i);
    EmitFirstReady(insts, q, block, i);
    StillStalled(insts, q, block, i, q');
    LeadingEmitted(insts, q, block, i, q');
  }

  /** Emits instruction i if nothing holds it back. */
  method TryEmit(insts: seq<Value>, dom: seq<seq<nat>>, q: Sched, block: AllocType, i: nat) returns (q': Sched, pushed: bool)
    requires RowsOk(insts, dom, |insts|) && Progress(insts, q) && i < |insts|
    requires LeadingOut(insts, q, block, i) && InPhase(insts, q.order, block)
    requires FirstReady(insts, q.order) && |q.used| == |q.cnt| == |insts| && Stalled(insts, q, block, i)
    ensures Progress(insts, q') && LeadingOut(insts, q', block, i + 1) && InPhase(insts, q'.order, block)
    ensures FirstReady(insts, q'.order) && |q'.used| == |q'.cnt| == |insts| && Stalled(insts, q', block, i + 1)
    ensures if pushed then q'.lft < q.lft else q' == q && (q.used[i] || GetBlockType(insts[i]) == block || q.cnt[i] != 0)
  {
    hide FirstReady, Progress, InPhase, LeadingOut, GetBlockType, Edge;
    q', pushed := q, false;
    if !q.used[i] && GetBlockType(insts[i]) != block && q.cnt[i] == 0 {
      hide Stalled;
      var cnt := Release(insts, dom[i], q.cnt, i);
      q', pushed := Sched(q.used[i := true], cnt, q.lft - 1, q.order + [i]), true;
      Emitted(insts, q, block, i, q');
    } else {
      NotPassedOver(insts, q, block, i);
    }
  }

  /** One pass over the block: every unblocked instruction that waits for nothing is emitted. */
  method Pass(insts: seq<Value>, dom: seq<seq<nat>>, q: Sched, block: AllocType) returns (q': Sched, flag: bool)
    requires RowsOk(insts, dom, |insts|) && Progress(insts, q)
    requires LeadingOut(insts, q, block, 0) && InPhase(insts, q.order, block) && FirstReady(insts, q.order)
    ensures Progress(insts, q') && LeadingOut(insts, q', block, |insts|) && InPhase(insts, q'.order, block)
    ensures FirstReady(insts, q'.order)
    ensures if flag then q'.lft < q.lft else q' == q && Stalled(insts, q', block, |insts|)
  {
    hide Progress, LeadingOut, InPhase, FirstReady, RowsOk, GetBlockType, CheckDom;
    Lengths(insts, q);
    flag, q' := false, q;
    for i := 0 to |insts|
      invariant Progress(insts, q') && LeadingOut(insts, q', block, i) && InPhase(insts, q'.order, block)
      invariant FirstReady(insts, q'.order) && |q'.used| == |q'.cnt| == |insts| && Stalled(insts, q', block, i)
      invariant if flag then q'.lft < q.lft else q' == q
    {
      var pushed;
      q', pushed := TryEmit(insts, dom, q', block, i);
      flag := flag || pushed;
    }
  }

  lemma AllLeadingOut(insts: seq<Value>, q: Sched, block: AllocType)
    requires LeadingOut(insts, q, block, |insts|)
    ensures StartsInOrder(q.order, Leading(insts))
  {
  }

  /** The scheduling loop: alternately blocks heap and stack instructions until every instruction is out. */
  method Schedule(insts: seq<Value>) returns (order: seq<nat>)
    ensures IsSchedule(insts, order) && StartsInOrder(order, Leading(insts))
    ensures ChangesOnlyIfForced(insts, order) && FirstReady(insts, order)
  {
    var dom, cnt := CheckDominance(insts);
    var q := Sched(seq(|insts|, _ => false), cnt, |insts|, []);
    UnusedAll(|insts|);
    assert Progress(insts, q);
    var block := Heap;
    while q.lft > 0
      invariant Progress(insts, q) && (block == Stack || block == Heap)
      invariant LeadingOut(insts, q, block, 0) && InPhase(insts, q.order, block) && FirstReady(insts, q.order)
      decreases q.lft, BlockedRank(insts, q.used, block)
    {
      ghost var q0 := q;
      var flag := true;
      while flag
        invariant Progress(insts, q) && LeadingOut(insts, q, block, 0) && InPhase(insts, q.order, block)
        invariant FirstReady(insts, q.order)
        invariant q == q0 || q.lft < q0.lft
        invariant !flag ==> Stalled(insts, q, block, |insts|) && StartsInOrder(q.order, Leading(insts))
        decreases q.lft, flag
      {
        hide Progress, Stalled, Leading, InPhase, FirstReady;
        q, flag := Pass(insts, dom, q, block);
        AllLeadingOut(insts, q, block);
      }
      LeastIsReady(insts, q.used, q.cnt);
      PhaseEnds(insts, q, block);
      hide Leading, StartsInOrder, InPhase, FirstReady;
      block := OtherRegion(block);
    }
    order := q.order;
  }

  /** Leading phis are never blocked, so they stay in front in their order. */
  lemma {:induction false} PhisLead(insts: seq<Value>, p: nat)
    requires p <= |insts| && forall i :: 0 <= i < p ==> insts[i].PhiInst?
    ensures p <= Leading(insts)
  {
    if p > 0 {
      PhisLead(insts[1..], p - 1);
    }
  }

  lemma PickAppend(insts: seq<Value>, a: seq<nat>, b: seq<nat>)
    requires forall i :: i in a + b ==> i < |insts|
    ensures (forall i :: i in a ==> i < |insts|) && (forall i :: i in b ==> i < |insts|)
    ensures Pick(insts, a + b) == Pick(insts, a) + Pick(insts, b)
  {
    assert forall i :: i in a || i in b ==> i in a + b;
  }

  lemma PickMoved(insts: seq<Value>, a: seq<nat>, n: nat, b: seq<nat>)
    requires forall i :: i in a + [n] + b ==> i < |insts|
    ensures (forall i :: i in a + b ==> i < |insts|) && n < |insts|
    ensures multiset(Pick(insts, a + [n] + b)) == multiset(Pick(insts, a + b)) + multiset{insts[n]}
  {
    assert n in a + [n] + b;
    PickAppend(insts, a + [n], b);
    PickAppend(insts, a, [n]);
    PickAppend(insts, a, b);
    assert Pick(insts, [n]) == [insts[n]];
  }

  lemma PickPrefix(insts: seq<Value>, n: nat, a: seq<nat>)
    requires n <= |insts| && forall i :: i in a ==> i < n
    ensures Pick(insts, a) == Pick(insts[..n], a)
  {}

  /** Without the last instruction, what is left lists the others once. */
  lemma DropLast(order: seq<nat>, n: nat, k: nat)
    requires Distinct(order) && k < |order| && order[k] == n && forall i :: i in order <==> 0 <= i <= n
    ensures var rest := order[..k] + order[k + 1..]; Distinct(rest) && forall i :: i in rest <==> 0 <= i < n
  {
    var rest := order[..k] + order[k + 1..];
    assert order == order[..k] + [n] + order[k + 1..];
    assert forall i :: i in order <==> i in rest || i == n;
    assert forall a :: 0 <= a < |rest| ==> rest[a] == if a < k then order[a] else order[a + 1];
  }

  /** Picking every instruction once gives the same instructions. */
  lemma {:induction false} PickAll(insts: seq<Value>, order: seq<nat>)
    requires Distinct(order) && forall i :: i in order <==> 0 <= i < |insts|
    ensures multiset(Pick(insts, order)) == multiset(insts)
  {
    hide Distinct;
    assert order != [] ==> order[0] in order;
    if insts != [] {
      var n := |insts| - 1;
      assert n in order;
      var k :| 0 <= k < |order| && order[k] == n;
      var a, b := order[..k], order[k + 1..];
      hide Pick;
      DropLast(order, n, k);
      PickAll(insts[..n], a + b);
      PickPrefix(insts, n, a + b);
      assert order == a + [n] + b;
      PickMoved(insts, a, n, b);
      assert insts == insts[..n] + [insts[n]];
    }
  }

  lemma ScheduleLength(insts: seq<Value>, order: seq<nat>)
    requires IsSchedule(insts, order)
    ensures |order| == |insts| && forall k :: 0 <= k < |order| ==> order[k] in order && order[k] < |insts|
  {
    PickAll(insts, order);
    assert |multiset(Pick(insts, order))| == |multiset(insts)|;
  }

  // ---- there is only one such schedule ----

  /** Everything the scheduled instruction depends on is out before it. */
  lemma NotWaiting(insts: seq<Value>, order: seq<nat>, k: nat)
    requires IsSchedule(insts, order) && k < |order|
    ensures order[k] < |insts| && order[k] !in order[..k]
    ensures forall i: nat :: i !in order[..k] ==> !Edge(insts, i, order[k])
  {
    hide CheckDom;
    assert order[k] in order;
    assert forall b :: 0 <= b < k ==> order[b] in order[..k];
    forall i: nat | i !in order[..k] && i < |insts|
      ensures !Edge(insts, i, order[k])
    {
      assert i in order;
      var b :| 0 <= b < |order| && order[b] == i;
    }
  }

  lemma AddedRegion(insts: seq<Value>, order: seq<nat>, i: nat)
    requires i < |insts|
    ensures LastRegion(insts, order + [i]) ==
            if GetBlockType(insts[i]) in {Heap, Stack} then GetBlockType(insts[i]) else LastRegion(insts, order)
  {
    hide GetBlockType;
    assert (order + [i])[..|order|] == order;
  }

  lemma {:induction false} RegionIsHeapOrStack(insts: seq<Value>, order: seq<nat>)
    ensures LastRegion(insts, order) in {Heap, Stack}
  {
    hide GetBlockType;
    if order != [] {
      RegionIsHeapOrStack(insts, order[..|order| - 1]);
    }
  }

  lemma ForcedAt(insts: seq<Value>, order: seq<nat>, k: nat)
    requires ChangesOnlyIfForced(insts, order) && k < |order| && order[k] < |insts|
    ensures Forced(insts, order[..k], GetBlockType(insts[order[k]]))
  {
  }

  lemma SkipsAt(insts: seq<Value>, order: seq<nat>, k: nat)
    requires FirstReady(insts, order) && k < |order|
    ensures SkipsOnlyHeldBack(insts, order, k)
  {
  }

  /** Two schedules with the same beginning cannot go on with i in one and with the later j in the other. */
  lemma SameNext(insts: seq<Value>, o1: seq<nat>, o2: seq<nat>, k: nat)
    requires IsSchedule(insts, o1) && ChangesOnlyIfForced(insts, o1)
    requires IsSchedule(insts, o2) && ChangesOnlyIfForced(insts, o2) && FirstReady(insts, o2)
    requires k < |o1| && k < |o2| && o1[..k] == o2[..k]
    ensures o1[k] >= o2[k]
  {
    NotWaiting(insts, o1, k);
    NotWaiting(insts, o2, k);
    hide GetBlockType, IsSchedule, LastRegion, Edge, FirstReady, ChangesOnlyIfForced;
    ForcedAt(insts, o1, k);
    ForcedAt(insts, o2, k);
    SkipsAt(insts, o2, k);
    var p, i, j := o1[..k], o1[k], o2[k];
    assert o2[..k + 1] == p + [j];
    AddedRegion(insts, p, j);
    RegionIsHeapOrStack(insts, p);
  }

  /** The contract of the scheduler leaves no choice: any two orders that meet it are the same. */
  lemma OnlyOneSchedule(insts: seq<Value>, o1: seq<nat>, o2: seq<nat>)
    requires IsSchedule(insts, o1) && ChangesOnlyIfForced(insts, o1) && FirstReady(insts, o1)
    requires IsSchedule(insts, o2) && ChangesOnlyIfForced(insts, o2) && FirstReady(insts, o2)
    ensures o1 == o2
  {
    hide IsSchedule, ChangesOnlyIfForced, FirstReady;
    ScheduleLength(insts, o1);
    ScheduleLength(insts, o2);
    SamePrefix(insts, o1, o2, |insts|);
    assert o1[..|insts|] == o1 && o2[..|insts|] == o2;
  }

  lemma {:induction false} SamePrefix(insts: seq<Value>, o1: seq<nat>, o2: seq<nat>, k: nat)
    requires IsSchedule(insts, o1) && ChangesOnlyIfForced(insts, o1) && FirstReady(insts, o1)
    requires IsSchedule(insts, o2) && ChangesOnlyIfForced(insts, o2) && FirstReady(insts, o2)
    requires k <= |o1| && k <= |o2|
    ensures o1[..k] == o2[..k]
  {
    hide IsSchedule, ChangesOnlyIfForced, FirstReady;
    if k > 0 {
      SamePrefix(insts, o1, o2, k - 1);
      SameNext(insts, o1, o2, k - 1);
      SameNext(insts, o2, o1, k - 1);
      assert o1[..k] == o1[..k - 1] + [o1[k - 1]] && o2[..k] == o2[..k - 1] + [o2[k - 1]];
    }
  }

  /** The whole pass on one block: the last instruction stays last. */
  method ReorderBlock(block: seq<Value>) returns (newBlock: seq<Value>, ghost order: seq<nat>)
    requires block != []
    ensures var insts := block[..|block| - 1];
            && IsSchedule(insts, order) && StartsInOrder(order, Leading(insts)) && ChangesOnlyIfForced(insts, order)
            && FirstReady(insts, order)
            && newBlock == Pick(insts, order) + [block[|block| - 1]]
    ensures multiset(newBlock) == multiset(block) && newBlock[|newBlock| - 1] == block[|block| - 1]
  {
    var insts := block[..|block| - 1];
    order := [];
    var o := Schedule(insts);
    order := o;
    newBlock := Pick(insts, o) + [block[|block| - 1]];
    PickAll(insts, o);
    assert block == insts + [block[|block| - 1]];
  }
}
