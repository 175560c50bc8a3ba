/** Allocations, pinned registers and protected operands across single allocator actions. */
module AllocationFacts {
  import opened Words
  import opened RegisterAllocation

  /** Allocations of `user` are neither evicted nor moved, and where registers suffice none is. */
  ghost predicate Kept(am: map<nat, Allocation>, am': map<nat, Allocation>, user: Option<nat>, roomy: bool) {
    && (user.Some? ==> forall v :: v in am && am[v].lastUser == user ==>
                         v in am' && am'[v].regId == am[v].regId && am'[v].lastUser == user)
    && (roomy ==> forall v :: v in am ==> v in am' && am'[v] == am[v])
  }

  /** Nothing new and nothing changed. */
  ghost predicate Submap(am': map<nat, Allocation>, am: map<nat, Allocation>) {
    forall v :: v in am' ==> v in am && am'[v] == am[v]
  }

  lemma KeptRemove(am: map<nat, Allocation>, v: nat, user: Option<nat>)
    requires v in am && (user.Some? ==> am[v].lastUser != user)
    ensures Kept(am, am - {v}, user, false) && Submap(am - {v}, am)
  {}

  lemma KeptRefl(am: map<nat, Allocation>, user: Option<nat>, roomy: bool)
    ensures Kept(am, am, user, roomy)
  {}

  lemma PutRemove(am: map<nat, Allocation>, i: nat, al: Allocation)
    requires i !in am
    ensures am[i := al] - {i} == am
  {}

  lemma FreshRegister(ra: RegisterAllocator, i: nat)
    requires ra.Valid() && i in ra.active
    ensures forall v :: v in ra.active && v != i ==> ra.active[v].regId != ra.active[i].regId
    ensures IsRegister(ra.active[i].regId)
  {}

  lemma RemovePut(am: map<nat, Allocation>, i: nat)
    requires i in am
    ensures (am - {i})[i := am[i]] == am
  {}

  lemma SubmapRemove(am: map<nat, Allocation>, i: nat)
    ensures Submap(am - {i}, am)
  {}

  /** Pinned registers belong to allocations the current user protects, or that stay because registers suffice. */
  ghost predicate PinnedBy(pins: map<nat, nat>, am: map<nat, Allocation>, user: Option<nat>, roomy: bool) {
    pins == map[] ||
    ((user.Some? || roomy) &&
     forall r :: r in pins ==> pins[r] in am && am[pins[r]].regId == r && (user.Some? ==> am[pins[r]].lastUser == user))
  }

  lemma PinsEmpty(am: map<nat, Allocation>, user: Option<nat>, roomy: bool)
    ensures PinnedBy(map[], am, user, roomy)
  {}

  /** The pinned registers survive, so a fresh one is none of them. */
  lemma PinsKept(pins: map<nat, nat>, am: map<nat, Allocation>, am': map<nat, Allocation>, user: Option<nat>, roomy: bool, regId: nat)
    requires PinnedBy(pins, am, user, roomy) && Kept(am, am', user, roomy)
    requires forall v :: v in am' ==> am'[v].regId != regId
    ensures PinnedBy(pins, am', user, roomy) && regId !in pins
  {}

  lemma PinsPut(pins: map<nat, nat>, am: map<nat, Allocation>, user: Option<nat>, roomy: bool, i: nat, al: Allocation)
    requires PinnedBy(pins, am, user, roomy) && i !in am
    ensures PinnedBy(pins, am[i := al], user, roomy)
  {}

  /** The value just fetched is pinned too. */
  lemma PinsUse(pins: map<nat, nat>, am: map<nat, Allocation>, user: Option<nat>, roomy: bool, v: nat, al: Allocation)
    requires PinnedBy(pins, am, user, roomy) && v in am && al.regId == am[v].regId && (user.Some? ==> al.lastUser == user)
    ensures user.Some? || roomy ==> PinnedBy(pins[al.regId := v], am[v := al], user, roomy)
  {}

  /** A register pinned already is pinned for its present holder. */
  lemma PinnedOwner(pins: map<nat, nat>, ra: RegisterAllocator, roomy: bool, v: nat)
    requires ra.Valid() && PinnedBy(pins, ra.active, ra.currentUser, roomy) && v in ra.active
    ensures ra.active[v].regId in pins ==> pins[ra.active[v].regId] == v
  {}

  ghost predicate Covers(busy: set<nat>, am: map<nat, Allocation>, user: Option<nat>) {
    user.Some? ==> forall v :: v in am && am[v].lastUser == user ==> v in busy
  }

  /** Only the entry of v may differ. */
  ghost predicate SameButMeta(am': map<nat, Allocation>, am: map<nat, Allocation>, v: nat) {
    am'.Keys == am.Keys && am' - {v} == am - {v}
  }

  lemma PutSame(am: map<nat, Allocation>, v: nat, al: Allocation)
    requires v in am
    ensures SameButMeta(am[v := al], am, v)
  {}

  lemma BusyUse(am0: map<nat, Allocation>, am1: map<nat, Allocation>, am2: map<nat, Allocation>, v: nat, user: Option<nat>, busy: set<nat>)
    requires Submap(am1 - {v}, am0) && v in am1 && SameButMeta(am2, am1, v)
    ensures Covers(busy, am0, user) ==> Covers(busy + {v}, am2, user)
  {
    forall w | w in am2 && w != v
      ensures w in am0 && am0[w] == am2[w]
    {
      assert w in am2 - {v};
      assert (am2 - {v})[w] == am2[w];
    }
  }
}
