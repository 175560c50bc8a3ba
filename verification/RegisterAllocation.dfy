/** The block-level register allocator of src/core/RegisterAllocator.cpp. Instructions are numbered. */
module RegisterAllocation {
  import opened Words

  const MIN_REG := 1
  const MAX_REG := 16
  const NO_MORE_ADVENT: nat := 0xFFFF_FFFF

  datatype Allocation = Allocation(source: nat, lastUser: Option<nat>, regId: nat, nextAdvent: nat)

  predicate IsRegister(r: nat) { MIN_REG <= r <= MAX_REG }

  // ---- std::make_heap and std::pop_heap with the comparator on NextAdvent ----

  function Parent(j: nat): nat
    requires j > 0
  {
    (j - 1) / 2
  }

  ghost predicate Dominated(s: seq<Allocation>, j: nat)
    requires 0 < j < |s|
  {
    s[Parent(j)].nextAdvent >= s[j].nextAdvent
  }

  /** Every parent at or above index `lo` dominates its children inside s[..hi]. */
  ghost predicate HeapOrdered(s: seq<Allocation>, lo: int, hi: nat)
    requires hi <= |s|
  {
    forall j {:trigger Dominated(s, j)} :: 0 < j < hi && lo <= Parent(j) ==> Dominated(s, j)
  }

  lemma {:induction false} RootIsMax(s: seq<Allocation>, hi: nat, j: nat)
    requires hi <= |s| && j < hi && HeapOrdered(s, 0, hi)
    ensures s[0].nextAdvent >= s[j].nextAdvent
  {
    if j > 0 {
      assert Dominated(s, j);
      RootIsMax(s, hi, Parent(j));
    }
  }

  /** Like HeapOrdered, except that index i may be smaller than its children. */
  ghost predicate OrderedExcept(s: seq<Allocation>, lo: nat, hi: nat, i: nat)
    requires hi <= |s|
  {
    forall j {:trigger Dominated(s, j)} :: 0 < j < hi && lo <= Parent(j) != i ==> Dominated(s, j)
  }

  method SiftDown(s: seq<Allocation>, start: nat, hi: nat) returns (r: seq<Allocation>)
    requires start < hi <= |s| && HeapOrdered(s, start + 1, hi)
    ensures |r| == |s| && multiset(r) == multiset(s) && r[hi..] == s[hi..]
    ensures HeapOrdered(r, start, hi)
  {
    r := s;
    var i := start;
    while 2 * i + 1 < hi
      invariant start <= i < hi && |r| == |s|
      invariant multiset(r) == multiset(s) && r[hi..] == s[hi..]
      invariant OrderedExcept(r, start, hi, i)
      invariant start < i ==> start <= Parent(i)
      invariant start < i && 2 * i + 1 < hi ==> r[Parent(i)].nextAdvent >= r[2 * i + 1].nextAdvent
      invariant start < i && 2 * i + 2 < hi ==> r[Parent(i)].nextAdvent >= r[2 * i + 2].nextAdvent
    {
      var child := 2 * i + 1;
      if child + 1 < hi && r[child].nextAdvent < r[child + 1].nextAdvent {
        child := child + 1;
      }
      if r[i].nextAdvent >= r[child].nextAdvent {
        SettledOrdered(r, start, hi, i);
        return;
      }
      ghost var before := r;
      r := r[i := r[child]][child := r[i]];
      SwapPermutes(before, r, hi, i, child);
      SwapOrdered(before, r, start, hi, i, child);
      i := child;
    }
    SettledOrdered(r, start, hi, i);
  }

  lemma SettledOrdered(s: seq<Allocation>, start: nat, hi: nat, i: nat)
    requires start <= i < hi <= |s| && OrderedExcept(s, start, hi, i)
    requires 2 * i + 1 < hi ==> s[i].nextAdvent >= s[2 * i + 1].nextAdvent
    requires 2 * i + 2 < hi ==> s[i].nextAdvent >= s[2 * i + 2].nextAdvent
    ensures HeapOrdered(s, start, hi)
  {
    forall j: nat | 0 < j < hi && start <= Parent(j)
      ensures Dominated(s, j)
    {
      assert Parent(j) == i ==> j == 2 * i + 1 || j == 2 * i + 2;
    }
  }

  lemma SwapPermutes(s: seq<Allocation>, r: seq<Allocation>, hi: nat, i: nat, j: nat)
    requires i < j < hi <= |s| && r == s[i := s[j]][j := s[i]]
    ensures |r| == |s| && multiset(r) == multiset(s) && r[hi..] == s[hi..]
  {}

  lemma SwapOrdered(s: seq<Allocation>, r: seq<Allocation>, start: nat, hi: nat, i: nat, child: nat)
    requires start <= i < child < hi <= |s| && Parent(child) == i
    requires OrderedExcept(s, start, hi, i) && s[child].nextAdvent > s[i].nextAdvent
    requires start < i ==> start <= Parent(i) && s[Parent(i)].nextAdvent >= s[child].nextAdvent
    requires 2 * i + 1 < hi ==> s[child].nextAdvent >= s[2 * i + 1].nextAdvent
    requires 2 * i + 2 < hi ==> s[child].nextAdvent >= s[2 * i + 2].nextAdvent
    requires r == s[i := s[child]][child := s[i]]
    ensures OrderedExcept(r, start, hi, child)
    ensures 2 * child + 1 < hi ==> r[i].nextAdvent >= r[2 * child + 1].nextAdvent
    ensures 2 * child + 2 < hi ==> r[i].nextAdvent >= r[2 * child + 2].nextAdvent
  {
    forall j: nat | 0 < j < hi && start <= Parent(j) != child
      ensures Dominated(r, j)
    {
      if Parent(j) != i && j != i {
        assert Dominated(s, j);
      }
    }
    if 2 * child + 1 < hi {
      assert Dominated(s, 2 * child + 1);
    }
    if 2 * child + 2 < hi {
      assert Dominated(s, 2 * child + 2);
    }
  }

  method MakeHeap(s: seq<Allocation>) returns (r: seq<Allocation>)
    ensures |r| == |s| && multiset(r) == multiset(s)
    ensures HeapOrdered(r, 0, |r|)
  {
    r := s;
    var i := |s| / 2;
    while i > 0
      invariant 0 <= i <= |s| / 2 && |r| == |s| && multiset(r) == multiset(s)
      invariant HeapOrdered(r, i, |r|)
    {
      i := i - 1;
      r := SiftDown(r, i, |r|);
    }
  }

  /** Moves the root of s[..hi] to index hi - 1 and restores the heap in front of it. */
  method PopHeap(s: seq<Allocation>, hi: nat) returns (r: seq<Allocation>)
    requires 0 < hi <= |s| && HeapOrdered(s, 0, hi)
    ensures |r| == |s| && multiset(r) == multiset(s)
    ensures r[hi - 1] == s[0] && r[hi..] == s[hi..]
    ensures HeapOrdered(r, 0, hi - 1)
  {
    r := s[0 := s[hi - 1]][hi - 1 := s[0]];
    assert r[hi..] == s[hi..];
    assert forall j {:trigger Dominated(r, j)} :: 0 < j < hi - 1 && 1 <= Parent(j) ==> Dominated(s, j);
    if hi - 1 > 0 {
      ghost var before := r;
      r := SiftDown(r, 0, hi - 1);
      assert r[hi - 1] == r[hi - 1..][0] == before[hi - 1..][0];
      assert r[hi..] == r[hi - 1..][1..] == before[hi - 1..][1..];
    }
  }

  function Reverse(s: seq<nat>): seq<nat> {
    if s == [] then [] else [s[|s| - 1]] + Reverse(s[..|s| - 1])
  }

  /** s without the elements equal to x, in order. */
  function Without(s: seq<nat>, x: nat): seq<nat> {
    if s == [] then []
    else Without(s[..|s| - 1], x) + if s[|s| - 1] == x then [] else [s[|s| - 1]]
  }

  lemma {:induction false} WithoutAbsent(s: seq<nat>, x: nat)
    requires x !in s
    ensures Without(s, x) == s
  {
    if s != [] {
      WithoutAbsent(s[..|s| - 1], x);
    }
  }

  /** Taking one id out of a stack of distinct ids keeps the order of all others. */
  lemma {:induction false} WithoutOne(s: seq<nat>, i: nat)
    requires i < |s| && forall j :: 0 <= j < |s| && j != i ==> s[j] != s[i]
    ensures Without(s, s[i]) == s[..i] + s[i + 1..]
  {
    var last := |s| - 1;
    if i == last {
      WithoutAbsent(s[..last], s[i]);
    } else {
      WithoutOne(s[..last], i);
      assert s[..last][..i] + s[..last][i + 1..] + [s[last]] == s[..i] + s[i + 1..];
    }
  }

  /** Unloads the stack onto a second one, keeping regId aside, and loads it back. */
  method Extract(stack: seq<nat>, regId: nat) returns (found: nat, rest: seq<nat>)
    ensures found == if regId in stack then regId else 0
    ensures rest == Without(stack, regId)
  {
    found, rest := 0, stack;
    var temp: seq<nat> := [];
    while rest != []
      invariant rest <= stack
      invariant Without(stack, regId) == Without(rest, regId) + Reverse(temp)
      invariant found == if regId in stack[|rest|..] then regId else 0
      decreases |rest|
    {
      var top := rest[|rest| - 1];
      assert stack[|rest| - 1..] == [top] + stack[|rest|..];
      if top == regId {
        found := regId;
      } else {
        assert (temp + [top])[..|temp|] == temp;
        temp := temp + [top];
      }
      rest := rest[..|rest| - 1];
    }
    assert stack[0..] == stack;
    while temp != []
      invariant Without(stack, regId) == rest + Reverse(temp)
      decreases |temp|
    {
      rest := rest + [temp[|temp| - 1]];
      temp := temp[..|temp| - 1];
    }
  }

  class RegisterAllocator {
    var freeRegisters: seq<nat>  // a stack, its top is the last element
    var tempRegisters: set<nat>
    var activeSet: seq<Allocation>  // a max-heap on nextAdvent
    var currentUser: Option<nat>

    ghost var active: map<nat, Allocation>  // activeSet by source
    ghost var holder: map<nat, nat>  // the source each allocated register holds

    ghost predicate Valid()
      reads this
    {
      && HeapOrdered(activeSet, 0, |activeSet|)
      && Represents(activeSet, active)
      && Partition(freeRegisters, tempRegisters, active, holder)
    }

    /** A register may be taken from some allocation: one that the current user does not need. */
    ghost predicate CanEvict()
      reads this
    {
      currentUser.Some? ==> exists v :: v in active && active[v].lastUser != currentUser
    }

    constructor ()
      ensures Valid() && active == map[] && tempRegisters == {} && currentUser == None
      ensures |freeRegisters| == MAX_REG && forall k :: 0 <= k < MAX_REG ==> freeRegisters[k] == MAX_REG - k
    {
      var regs: seq<nat> := [];
      var i := MAX_REG;
      while i >= MIN_REG
        invariant MIN_REG - 1 <= i <= MAX_REG && |regs| == MAX_REG - i
        invariant forall k :: 0 <= k < |regs| ==> regs[k] == MAX_REG - k
      {
        regs := regs + [i];
        i := i - 1;
      }
      assert forall r :: IsRegister(r) ==> regs[MAX_REG - r] == r;
      freeRegisters, tempRegisters, activeSet, currentUser := regs, {}, [], None;
      active, holder := map[], map[];
    }

    method AllocateNewRegister() returns (regId: nat)
      requires Valid()
      modifies this`freeRegisters
      ensures regId == 0 <==> old(freeRegisters) == []
      ensures regId == 0 ==> freeRegisters == old(freeRegisters)
      ensures regId != 0 ==> old(freeRegisters) == freeRegisters + [regId]
    {
      if freeRegisters == [] {
        return 0;
      }
      assert IsRegister(freeRegisters[|freeRegisters| - 1]);
      regId := freeRegisters[|freeRegisters| - 1];
      freeRegisters := freeRegisters[..|freeRegisters| - 1];
    }

    /** The register that holds `source`, zero if none does. */
    method Get(source: nat) returns (regId: nat)
      requires Valid()
      ensures regId == if source in active then active[source].regId else 0
      ensures regId == 0 <==> source !in active
    {
      Listed(activeSet, active);
      for i := 0 to |activeSet|
        invariant forall k :: 0 <= k < i ==> activeSet[k].source != source
      {
        if activeSet[i].source == source {
          return activeSet[i].regId;
        }
      }
      return 0;
    }

    method Request(source: nat) returns (regId: nat)
      requires Valid() && source !in active
      modifies this
      ensures Valid() && tempRegisters == old(tempRegisters) && currentUser == old(currentUser)
      ensures regId == 0 <==> old(freeRegisters) == []
      ensures regId == 0 ==> active == old(active) && freeRegisters == old(freeRegisters)
      ensures regId != 0 ==> old(freeRegisters) == freeRegisters + [regId] && IsRegister(regId)
      ensures regId != 0 ==> active == old(active)[source := Allocation(source, None, regId, 0)]
    {
      hide HeapOrdered, Partition, Represents;
      regId := AllocateNewRegister();
      if regId != 0 {
        var alloc := Allocation(source, None, regId, 0);
        AppendOrdered(activeSet, alloc);
        AppendRepresents(activeSet, active, alloc);
        TakePartition(freeRegisters, tempRegisters, active, holder, regId, alloc);
        activeSet := activeSet + [alloc];  // key 0, so the heap stays ordered
        active := active[source := alloc];
        holder := holder[regId := source];
      }
    }

    /** Records a use of `source`; the heap is rebuilt. */
    method Update(source: nat, user: Option<nat>, nextAdvent: nat)
      requires Valid() && source in active
      modifies this`activeSet, this`active
      ensures Valid()
      ensures active == old(active)[source := old(active)[source].(lastUser := user, nextAdvent := nextAdvent)]
    {
      ghost var a := active[source];
      Listed(activeSet, active);
      var i := 0;
      while activeSet[i].source != source
        invariant 0 <= i < |activeSet| && a in activeSet[i..]
        decreases |activeSet| - i
      {
        assert a in activeSet[i + 1..];
        i := i + 1;
      }
      assert activeSet[i] == a;
      ghost var before := activeSet;
      var updated := activeSet[i].(lastUser := user, nextAdvent := nextAdvent);
      activeSet := MakeHeap(activeSet[i := updated]);
      active := active[source := updated];
      ReplaceRepresents(before, old(active), i, updated, activeSet);
    }

    /** Index of the allocation to evict. For regId 0 the allocations of the current user are popped to the back first. */
    method GetVictim(regId: nat) returns (victim: nat)
      requires Valid() && activeSet != []
      requires if regId != 0 then regId in holder else CanEvict()
      modifies this`activeSet
      ensures multiset(activeSet) == old(multiset(activeSet)) && |activeSet| == old(|activeSet|)
      ensures victim < |activeSet|
      ensures regId != 0 ==> activeSet[victim].regId == regId
      ensures regId == 0 && currentUser.Some? ==> activeSet[victim].lastUser != currentUser
      ensures regId == 0 ==> Farthest(active, currentUser, activeSet[victim])
      ensures regId == 0 && currentUser.None? ==> victim == 0 && activeSet == old(activeSet)
    {
      hide Dominated, Partition;
      Listed(activeSet, active);
      if regId != 0 {
        HolderIsActive(freeRegisters, tempRegisters, active, holder, regId);
        ghost var v := holder[regId];
        victim := 0;
        while activeSet[victim].regId != regId
          invariant 0 <= victim < |activeSet| && active[v] in activeSet[victim..]
          decreases |activeSet| - victim
        {
          assert active[v] in activeSet[victim + 1..];
          victim := victim + 1;
        }
      } else {
        var heapEnd := |activeSet|;
        ghost var spare: nat;
        if currentUser.Some? {
          spare :| spare in active && active[spare].lastUser != currentUser;
        }
        while currentUser.Some? && activeSet[0].lastUser == currentUser
          invariant 0 < heapEnd <= |activeSet| == old(|activeSet|)
          invariant currentUser.None? ==> heapEnd == |activeSet| && activeSet == old(activeSet)
          invariant multiset(activeSet) == old(multiset(activeSet))
          invariant HeapOrdered(activeSet, 0, heapEnd)
          invariant forall k :: heapEnd <= k < |activeSet| ==> activeSet[k].lastUser == currentUser
          invariant currentUser.Some? ==> active[spare] in activeSet
          decreases heapEnd
        {
          ghost var before := activeSet;
          activeSet := PopHeap(activeSet, heapEnd);
          assert forall k :: heapEnd <= k < |activeSet| ==> activeSet[k] == before[k] by {
            assert forall k :: heapEnd <= k < |activeSet| ==>
                     activeSet[k] == activeSet[heapEnd..][k - heapEnd] && before[k] == before[heapEnd..][k - heapEnd];
          }
          heapEnd := heapEnd - 1;
          assert active[spare] in multiset(before);
          assert active[spare] in multiset(activeSet);
        }
        victim := 0;
        forall k | 0 <= k < heapEnd
          ensures activeSet[0].nextAdvent >= activeSet[k].nextAdvent
        {
          RootIsMax(activeSet, heapEnd, k);
        }
        Listed(activeSet, active);
        forall v | v in active && !(currentUser.Some? && active[v].lastUser == currentUser)
          ensures activeSet[0].nextAdvent >= active[v].nextAdvent
        {
          var k :| 0 <= k < |activeSet| && activeSet[k] == active[v];
        }
      }
    }

    /** Frees one register. With regId 0 the victim is the one whose next use is farthest
        among those the current user does not need. */
    method Evict(regId: nat) returns (victim: Option<Allocation>)
      requires Valid()
      requires active != map[] ==> if regId != 0 then regId !in tempRegisters && regId in holder else CanEvict()
      modifies this
      ensures Valid() && tempRegisters == old(tempRegisters) && currentUser == old(currentUser)
      ensures victim.None? <==> old(active) == map[]
      ensures victim.None? ==> active == map[] && freeRegisters == old(freeRegisters)
      ensures victim.Some? ==>
                var a := victim.value;
                && a.source in old(active) && old(active)[a.source] == a
                && active == old(active) - {a.source}
                && freeRegisters == old(freeRegisters) + [a.regId]
                && (regId != 0 ==> a.regId == regId)
                && (regId == 0 && currentUser.Some? ==> a.lastUser != currentUser)
                && (regId == 0 ==> Farthest(old(active), currentUser, a))
                && (regId == 0 && currentUser.None? ==> old(activeSet) != [] && a == old(activeSet)[0])
    {
      hide HeapOrdered, Partition, Farthest;
      Listed(activeSet, active);
      if |activeSet| == 0 {
        return None;
      }
      assert activeSet[0].source in active;
      var i := GetVictim(regId);
      var a := activeSet[i];
      Listed(activeSet, active);
      ghost var before := activeSet;
      activeSet := MakeHeap(activeSet[..i] + activeSet[i + 1..]);
      RemoveRepresents(before, active, i, activeSet);
      ReleasePartition(freeRegisters, tempRegisters, active, holder, a.source);
      active := active - {a.source};
      holder := holder - {a.regId};
      freeRegisters := freeRegisters + [a.regId];
      victim := Some(a);
    }

    /** Request a register that maps to no instruction. */
    method RequestAnyTempRegister() returns (regId: nat)
      requires Valid()
      modifies this`freeRegisters, this`tempRegisters
      ensures Valid()
      ensures regId == 0 <==> old(freeRegisters) == []
      ensures regId != 0 ==> old(freeRegisters) == freeRegisters + [regId]
      ensures tempRegisters == old(tempRegisters) + if regId != 0 then {regId} else {}
    {
      regId := AllocateNewRegister();
      if regId != 0 {
        PopFree(freeRegisters, regId);
        tempRegisters := tempRegisters + {regId};
      }
    }

    /** Request the very register regId; zero when it is not free. */
    method RequestTempRegister(regId: nat) returns (found: nat)
      requires Valid() && regId !in tempRegisters && regId != 0
      modifies this`freeRegisters, this`tempRegisters
      ensures Valid()
      ensures found == if regId in old(freeRegisters) then regId else 0
      ensures freeRegisters == Without(old(freeRegisters), regId)
      ensures found == 0 ==> freeRegisters == old(freeRegisters)
      ensures tempRegisters == old(tempRegisters) + if found != 0 then {found} else {}
    {
      ghost var all := freeRegisters;
      found, freeRegisters := Extract(freeRegisters, regId);
      if found != 0 {
        ghost var i :| 0 <= i < |all| && all[i] == regId;
        WithoutOne(all, i);
        ExtractFree(all, i);
        tempRegisters := tempRegisters + {found};
      } else {
        WithoutAbsent(all, regId);
      }
    }

    method GiveUpTempRegister(regId: nat)
      requires Valid() && regId in tempRegisters
      modifies this`freeRegisters, this`tempRegisters
      ensures Valid() && freeRegisters == old(freeRegisters) + [regId] && tempRegisters == old(tempRegisters) - {regId}
    {
      tempRegisters := tempRegisters - {regId};
      PopFree(freeRegisters, regId);
      freeRegisters := freeRegisters + [regId];
    }

    method ReportUser(user: Option<nat>)
      requires Valid()
      modifies this`currentUser
      ensures Valid() && currentUser == user
    {
      currentUser := user;
    }
  }

  /** The back end's request for a register of its own: when none (or not the wanted one) is free, the matching
      eviction makes it so, and the second request succeeds. The evicted allocation is returned for spilling. */
  method TakeTempRegister(ra: RegisterAllocator, target: nat) returns (regId: nat, victim: Option<Allocation>)
    requires ra.Valid() && target !in ra.tempRegisters
    requires if target == 0 then ra.freeRegisters != [] || (ra.active != map[] && ra.CanEvict()) else IsRegister(target)
    modifies ra
    ensures ra.Valid() && regId != 0 && (target != 0 ==> regId == target)
    ensures ra.tempRegisters == old(ra.tempRegisters) + {regId}
    ensures ra.active == if victim.Some? then old(ra.active) - {victim.value.source} else old(ra.active)
    ensures victim.Some? ==> old(if target == 0 then ra.freeRegisters == [] else target in ra.holder)
  {
    hide HeapOrdered, Represents, Partition, Without, Farthest;
    MustBeHeld(ra, target);
    victim := None;
    if target == 0 {
      regId := ra.RequestAnyTempRegister();
    } else {
      regId := ra.RequestTempRegister(target);
    }
    if regId == 0 {
      victim := ra.Evict(target);
      PopFree(old(ra.freeRegisters), victim.value.regId);
      if target == 0 {
        regId := ra.RequestAnyTempRegister();
      } else {
        regId := ra.RequestTempRegister(target);
      }
    }
  }

  lemma MustBeHeld(ra: RegisterAllocator, target: nat)
    requires ra.Valid()
    ensures IsRegister(target) && target !in ra.freeRegisters && target !in ra.tempRegisters ==>
              target in ra.holder && ra.active != map[]
    ensures !IsRegister(0) && forall v :: v in ra.active ==> IsRegister(ra.active[v].regId)
  {
    if target in ra.holder {
      assert ra.holder[target] in ra.active;
    }
    assert forall v :: v in ra.active ==> ra.active[v].regId in ra.holder;
  }

  // ---- the vector ActiveSet against its abstract map ----

  /** s lists the allocations of m, each exactly once. */
  ghost predicate Represents(s: seq<Allocation>, m: map<nat, Allocation>) {
    && (forall v :: v in m ==> m[v].source == v)
    && (forall x: Allocation {:trigger multiset(s)[x]} ::
          multiset(s)[x] == if x.source in m && m[x.source] == x then 1 else 0)
  }

  /** Making room for operand b of a call, which protects nothing: its operand v, already fetched, loses its register
      to b if and only if it is the root of the active heap. It is if it is next used last of all, and is not if
      something else is next used later. */
  method FetchUnprotected(ra: RegisterAllocator, v: nat, b: nat) returns (regId: nat)
    requires ra.Valid() && ra.currentUser == None && ra.freeRegisters == [] && ra.active != map[]
    requires v in ra.active && b !in ra.active
    modifies ra
    ensures ra.Valid() && b in ra.active && ra.active[b].regId == regId
    ensures regId == old(ra.active[v].regId) <==> old(ra.activeSet != [] && ra.activeSet[0].source == v)
    ensures v in ra.active <==> regId != old(ra.active[v].regId)
    ensures old(forall u :: u in ra.active && u != v ==> ra.active[u].nextAdvent < ra.active[v].nextAdvent) ==>
              regId == old(ra.active[v].regId)
    ensures old(exists u :: u in ra.active && ra.active[u].nextAdvent > ra.active[v].nextAdvent) ==>
              regId != old(ra.active[v].regId)
  {
    hide HeapOrdered, Represents, RegisterAllocator.Valid;
    var victim := ra.Evict(0);
    ghost var free := ra.freeRegisters;
    regId := ra.Request(b);
    assert free[0] == victim.value.regId && free[|free| - 1] == regId;
    DistinctHolders(ra, v, b);
  }

  /** Sixteen values take the registers; a call fetches the last one, which nothing uses afterwards, and then another
      operand: both operands are in the same register. */
  method OperandOverwritten() returns (first: nat, second: nat)
    ensures first == second && IsRegister(first)
  {
    hide HeapOrdered, Represents, RegisterAllocator.Valid, Farthest;
    var ra := new RegisterAllocator();
    for k := 0 to 16
      invariant fresh(ra) && ra.Valid() && ra.currentUser == None && |ra.freeRegisters| == 16 - k
      invariant forall v :: v in ra.active <==> 0 <= v < k
      invariant forall v :: v in ra.active ==> ra.active[v].nextAdvent == v + 1
    {
      var r := ra.Request(k);
      ra.Update(k, None, k + 1);
    }
    assert 15 in ra.active && 16 !in ra.active;
    first := ra.Get(15);
    ra.Update(15, Some(100), NO_MORE_ADVENT);
    assert 15 in ra.active && ra.active != map[];
    second := FetchUnprotected(ra, 15, 16);
    MustBeHeld(ra, 0);
  }

  lemma DistinctHolders(ra: RegisterAllocator, v: nat, b: nat)
    requires ra.Valid() && b in ra.active && v != b
    ensures v in ra.active ==> ra.active[v].regId != ra.active[b].regId
  {
  }

  /** No allocation that the user leaves alone has a later next use than a. */
  ghost predicate Farthest(active: map<nat, Allocation>, user: Option<nat>, a: Allocation) {
    forall v :: v in active && !(user.Some? && active[v].lastUser == user) ==> a.nextAdvent >= active[v].nextAdvent
  }

  /** Every register is free, temporary or held by exactly one allocation. */
  ghost predicate Partition(free: seq<nat>, temp: set<nat>, active: map<nat, Allocation>, holder: map<nat, nat>) {
    && (forall i, j :: 0 <= i < j < |free| ==> free[i] != free[j])
    && (forall r :: IsRegister(r) <==> r in free || r in temp || r in holder)
    && (forall r :: r in temp ==> r !in free && r !in holder)
    && (forall r :: r in holder ==> r !in free)
    && (forall r :: r in holder ==> holder[r] in active && active[holder[r]].regId == r)
    && (forall v :: v in active ==> active[v].regId in holder && holder[active[v].regId] == v)
  }

  lemma HolderIsActive(free: seq<nat>, temp: set<nat>, active: map<nat, Allocation>, holder: map<nat, nat>, r: nat)
    requires Partition(free, temp, active, holder) && r in holder
    ensures holder[r] in active && active[holder[r]].regId == r
  {}

  lemma TakePartition(free: seq<nat>, temp: set<nat>, active: map<nat, Allocation>, holder: map<nat, nat>, r: nat, a: Allocation)
    requires Partition(free + [r], temp, active, holder) && a.regId == r && a.source !in active
    ensures Partition(free, temp, active[a.source := a], holder[r := a.source]) && IsRegister(r)
  {
    PopFree(free, r);
    assert forall i :: 0 <= i < |free| ==> free[i] == (free + [r])[i];
  }

  lemma AppendOrdered(s: seq<Allocation>, a: Allocation)
    requires HeapOrdered(s, 0, |s|) && a.nextAdvent == 0
    ensures HeapOrdered(s + [a], 0, |s + [a]|)
  {
    assert forall j {:trigger Dominated(s + [a], j)} :: 0 < j < |s| ==> Dominated(s, j);
  }

  lemma PopFree(free: seq<nat>, top: nat)
    ensures (free + [top])[|free|] == top && (free + [top])[..|free|] == free
    ensures forall r :: r in free + [top] <==> r == top || r in free
  {}

  lemma ExtractFree(free: seq<nat>, i: nat)
    requires i < |free| && forall j, k :: 0 <= j < k < |free| ==> free[j] != free[k]
    ensures var rest := free[..i] + free[i + 1..];
            && (forall r :: r in free <==> r == free[i] || r in rest)
            && free[i] !in rest
            && (forall j, k :: 0 <= j < k < |rest| ==> rest[j] != rest[k])
  {
    var rest := free[..i] + free[i + 1..];
    assert free == free[..i] + [free[i]] + free[i + 1..];
  }

  lemma ReleasePartition(free: seq<nat>, temp: set<nat>, active: map<nat, Allocation>, holder: map<nat, nat>, v: nat)
    requires Partition(free, temp, active, holder) && v in active
    ensures Partition(free + [active[v].regId], temp, active - {v}, holder - {active[v].regId})
  {
    PopFree(free, active[v].regId);
  }

  lemma AppendRepresents(s: seq<Allocation>, m: map<nat, Allocation>, a: Allocation)
    requires Represents(s, m) && a.source !in m
    ensures Represents(s + [a], m[a.source := a])
  {}

  lemma ReplaceRepresents(s: seq<Allocation>, m: map<nat, Allocation>, i: nat, a: Allocation, s': seq<Allocation>)
    requires Represents(s, m) && i < |s| && a.source == s[i].source
    requires multiset(s') == multiset(s[i := a])
    ensures Represents(s', m[a.source := a])
  {
    assert multiset(s)[s[i]] == 1 by {
      assert s[i] in multiset(s);
    }
  }

  lemma RemoveRepresents(s: seq<Allocation>, m: map<nat, Allocation>, i: nat, s': seq<Allocation>)
    requires Represents(s, m) && i < |s|
    requires multiset(s') == multiset(s[..i] + s[i + 1..])
    ensures Represents(s', m - {s[i].source})
  {
    assert s == s[..i] + [s[i]] + s[i + 1..];
    assert multiset(s) == multiset(s[..i] + s[i + 1..]) + multiset{s[i]};
    assert multiset(s)[s[i]] == 1 by {
      assert s[i] in multiset(s);
    }
    assert forall x :: multiset(s)[x] == multiset(s')[x] + if x == s[i] then 1 else 0;
  }

  lemma Listed(s: seq<Allocation>, m: map<nat, Allocation>)
    requires Represents(s, m)
    ensures forall v :: v in m ==> m[v] in s
    ensures forall i :: 0 <= i < |s| ==> s[i].source in m && m[s[i].source] == s[i]
  {
    forall v | v in m
      ensures m[v] in s
    {
      assert multiset(s)[m[v]] == 1;
    }
    forall i | 0 <= i < |s|
      ensures s[i].source in m && m[s[i].source] == s[i]
    {
      assert s[i] in multiset(s);
    }
  }

  /** Fewer than sixteen values are active, so a register is free. */
  lemma SomeFree(ra: RegisterAllocator, vs: set<nat>)
    requires ra.Valid() && ra.tempRegisters == {} && |vs| < 16 && forall v :: v in ra.active ==> v in vs
    ensures ra.freeRegisters != []
  {
    if ra.freeRegisters == [] {
      assert forall r :: 1 <= r <= 16 ==> IsRegister(r);
      HolderCount(ra.active, ra.holder, vs, 16);
    }
  }

  /** The first k registers are held by k different values. */
  lemma {:induction false} HolderCount(active: map<nat, Allocation>, holder: map<nat, nat>, vs: set<nat>, k: nat)
    requires forall r :: r in holder ==> holder[r] in active && active[holder[r]].regId == r
    requires forall r :: 1 <= r <= k ==> r in holder && holder[r] in vs
    ensures k <= |vs|
  {
    if k > 0 {
      HolderCount(active, holder, vs - {holder[k]}, k - 1);
    }
  }

  /** Sixteen registers and at most two allocations of the current user: something else can be evicted. */
  lemma SomeVictim(ra: RegisterAllocator, busy: set<nat>)
    requires ra.Valid() && ra.freeRegisters == [] && ra.tempRegisters == {}
    requires |busy| <= 2
    requires forall v :: v in ra.active && ra.currentUser.Some? && ra.active[v].lastUser == ra.currentUser ==> v in busy
    ensures ra.active != map[] && ra.CanEvict()
  {
    assert IsRegister(1) && IsRegister(2) && IsRegister(3);
    var v1, v2, v3 := ra.holder[1], ra.holder[2], ra.holder[3];
    assert v1 !in busy || v2 !in busy || v3 !in busy by {
      assert |busy - {v1} - {v2} - {v3}| >= |busy| - 3;
    }
  }
}
