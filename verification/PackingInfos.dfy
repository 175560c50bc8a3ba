/** The greedy choice of which arguments to pack together (the ArgumentPackingInfo constructor of PackRegisters.cpp). */
module PackingInfos {
  import opened Words
  import opened Interp
  import P = Packing

  const PACK_MAX_SIZE := 64
  const PACK_VALID_COUNT := 3

  /** An argument: its bit width and its number in the original function. */
  datatype Arg = Arg(width: nat, number: nat)

  function Sum(args: seq<Arg>): nat {
    if args == [] then 0 else Sum(args[..|args| - 1]) + args[|args| - 1].width
  }

  ghost predicate Sorted(args: seq<Arg>) { forall i, j :: 0 <= i < j < |args| ==> args[i].width <= args[j].width }

  ghost predicate Widths(args: seq<Arg>) { forall i :: 0 <= i < |args| ==> 1 <= args[i].width <= PACK_MAX_SIZE }

  /** The narrowest of the four integer types that holds the bits. */
  function PackBits(size: nat): nat {
    if size <= 8 then 8 else if size <= 16 then 16 else if size <= 32 then 32 else 64
  }

  /** Of the types 8, 16, 32 and 64 the narrowest that holds the bits. */
  ghost predicate Narrowest(t: nat, bits: nat) {
    IsPackType(t) && bits <= t && forall u :: IsPackType(u) && bits <= u ==> t <= u
  }

  predicate IsPackType(t: nat) { t in {8, 16, 32, 64} }

  lemma PackBitsNarrowest(bits: nat)
    requires bits <= PACK_MAX_SIZE
    ensures Narrowest(PackBits(bits), bits)
  {
  }

  /** What one argument of the new function carries. */
  datatype Slot = Single(arg: Arg) | Pack(args: seq<Arg>)

  function Carried(s: Slot): seq<Arg> { if s.Single? then [s.arg] else s.args }

  function SlotBits(s: Slot): nat { if s.Single? then s.arg.width else PackBits(Sum(s.args)) }

  /** All arguments, in the order of the slots carrying them. */
  function AllCarried(slots: seq<Slot>): seq<Arg> {
    if slots == [] then [] else AllCarried(slots[..|slots| - 1]) + Carried(slots[|slots| - 1])
  }

  /** A pack is worth its code and fits 64 bits. */
  predicate GoodPack(s: Slot) { s.Pack? ==> PACK_VALID_COUNT <= |s.args| && Sum(s.args) <= PACK_MAX_SIZE }

  /** Packs come first; what follows is left single. */
  ghost predicate PacksFirst(slots: seq<Slot>) {
    forall a, b :: 0 <= a < b < |slots| && slots[b].Pack? ==> slots[a].Pack?
  }

  /** Slot a, if a pack, could not take the argument after it as well. */
  ghost predicate CannotGrow(args: seq<Arg>, slots: seq<Slot>, a: nat)
    requires a < |slots|
  {
    slots[a].Pack? ==>
      var end := |AllCarried(slots[..a + 1])|;
      end < |args| ==> Sum(slots[a].args) + args[end].width > PACK_MAX_SIZE
  }

  ghost predicate Greedy(args: seq<Arg>, slots: seq<Slot>) {
    forall a :: 0 <= a < |slots| ==> CannotGrow(args, slots, a)
  }

  /** Argument a, if left single, starts no three arguments that fit a pack. */
  ghost predicate CannotStart(args: seq<Arg>, slots: seq<Slot>, a: nat)
    requires a < |slots|
  {
    slots[a].Single? ==> TooWide(args, |AllCarried(slots[..a])|)
  }

  ghost predicate Exhaustive(args: seq<Arg>, slots: seq<Slot>) {
    forall a :: 0 <= a < |slots| ==> CannotStart(args, slots, a)
  }

  ghost predicate GoodPacks(slots: seq<Slot>) { forall a :: 0 <= a < |slots| ==> GoodPack(slots[a]) }

  /** The slots filled so far carry the first arguments, and packing stops for good once three arguments do not fit. */
  ghost predicate Filled(args: seq<Arg>, slots: seq<Slot>, from: nat) {
    && from <= |args| && AllCarried(slots) == args[..from]
    && GoodPacks(slots) && PacksFirst(slots) && Greedy(args, slots) && Exhaustive(args, slots)
    && ((forall a :: 0 <= a < |slots| ==> slots[a].Pack?) || TooWide(args, from))
  }

  /** The window from..now of arguments and its total width; it is empty when now is from - 1. */
  ghost predicate Window(args: seq<Arg>, from: int, now: int, size: int) {
    0 <= now && 0 <= from <= now + 1 <= |args| && size == Sum(args[from..now + 1]) <= PACK_MAX_SIZE
  }

  lemma GreedyKept(args: seq<Arg>, slots: seq<Slot>, s: Slot)
    requires Greedy(args, slots)
    requires s.Pack? ==>
      var end := |AllCarried(slots)| + |s.args|;
      end < |args| ==> Sum(s.args) + args[end].width > PACK_MAX_SIZE
    ensures Greedy(args, slots + [s])
  {
    LastCannotGrow(args, slots, s);
    hide CannotGrow;
    var r := slots + [s];
    forall a | 0 <= a < |r|
      ensures CannotGrow(args, r, a)
    {
      if a < |slots| {
        SamePrefix(args, slots, s, a);
      }
    }
  }

  lemma LastCannotGrow(args: seq<Arg>, slots: seq<Slot>, s: Slot)
    requires s.Pack? ==>
      var end := |AllCarried(slots)| + |s.args|;
      end < |args| ==> Sum(s.args) + args[end].width > PACK_MAX_SIZE
    ensures CannotGrow(args, slots + [s], |slots|)
  {
    AppendSlot(slots, s);
    hide AllCarried, Sum;
    assert (slots + [s])[..|slots| + 1] == slots + [s];
  }

  lemma SamePrefix(args: seq<Arg>, slots: seq<Slot>, s: Slot, a: nat)
    requires a < |slots|
    ensures CannotGrow(args, slots + [s], a) <==> CannotGrow(args, slots, a)
  {
    hide AllCarried, Sum;
    assert (slots + [s])[..a + 1] == slots[..a + 1];
  }

  lemma ExhaustiveKept(args: seq<Arg>, slots: seq<Slot>, s: Slot)
    requires Exhaustive(args, slots) && (s.Single? ==> TooWide(args, |AllCarried(slots)|))
    ensures Exhaustive(args, slots + [s])
  {
    hide AllCarried, TooWide;
    var r := slots + [s];
    assert r[..|slots|] == slots;
    forall a | 0 <= a < |r|
      ensures CannotStart(args, r, a)
    {
      if a < |slots| {
        assert r[..a] == slots[..a] && CannotStart(args, slots, a);
      }
    }
  }

  /** A full window becomes one pack. */
  lemma FillPack(args: seq<Arg>, slots: seq<Slot>, from: nat, to: nat)
    requires Widths(args) && Filled(args, slots, from) && from + PACK_VALID_COUNT <= to <= |args|
    requires Sum(args[from..to]) <= PACK_MAX_SIZE
    requires to < |args| ==> Sum(args[from..to]) + args[to].width > PACK_MAX_SIZE
    ensures Filled(args, slots + [Pack(args[from..to])], to)
  {
    hide AllCarried, Sum, Greedy, Exhaustive;
    var s := Pack(args[from..to]);
    WindowCount(args, from, to);
    AppendSlot(slots, s);
    GreedyKept(args, slots, s);
    ExhaustiveKept(args, slots, s);
    assert args[..from] + args[from..to] == args[..to];
  }

  /** An argument that starts no full window stays single. */
  lemma FillSingle(args: seq<Arg>, slots: seq<Slot>, from: nat)
    requires Sorted(args) && Filled(args, slots, from) && from < |args| && TooWide(args, from)
    ensures Filled(args, slots + [Single(args[from])], from + 1)
  {
    hide AllCarried, Sum, Greedy, Exhaustive;
    var s := Single(args[from]);
    AppendSlot(slots, s);
    GreedyKept(args, slots, s);
    ExhaustiveKept(args, slots, s);
    StaysTooWide(args, from);
    hide TooWide;
    assert args[..from] + [args[from]] == args[..from + 1];
  }

  lemma SumNext(args: seq<Arg>, lo: nat, hi: nat)
    requires lo <= hi < |args|
    ensures Sum(args[lo..hi + 1]) == Sum(args[lo..hi]) + args[hi].width
  {
    assert args[lo..hi + 1][..hi - lo] == args[lo..hi];
  }

  lemma {:induction false} SumFirst(args: seq<Arg>, lo: nat, hi: nat)
    requires lo < hi <= |args|
    ensures Sum(args[lo..hi]) == args[lo].width + Sum(args[lo + 1..hi])
  {
    SumNext(args, lo, hi - 1);
    if lo + 1 == hi {
      assert args[lo..lo] == [] && args[lo + 1..hi] == [];
    } else {
      SumFirst(args, lo, hi - 1);
      SumNext(args, lo + 1, hi - 1);
    }
  }

  lemma AppendSlot(slots: seq<Slot>, s: Slot)
    ensures AllCarried(slots + [s]) == AllCarried(slots) + Carried(s)
  {
    assert (slots + [s])[..|slots|] == slots;
  }

  /** Three arguments starting at lo do not fit one pack. */
  predicate TooWide(args: seq<Arg>, lo: nat) {
    lo + 2 < |args| ==> args[lo].width + args[lo + 1].width + args[lo + 2].width > PACK_MAX_SIZE
  }

  /** Sorted widths: if three do not fit here, the next three do not fit either. */
  lemma StaysTooWide(args: seq<Arg>, lo: nat)
    requires Sorted(args) && TooWide(args, lo)
    ensures TooWide(args, lo + 1)
  {
  }

  /** A window that cannot grow has fewer than three arguments exactly when the first three do not fit. */
  lemma WindowCount(args: seq<Arg>, lo: nat, hi: nat)
    requires Widths(args) && lo < hi <= |args| && Sum(args[lo..hi]) <= PACK_MAX_SIZE
    requires hi < |args| ==> Sum(args[lo..hi]) + args[hi].width > PACK_MAX_SIZE
    ensures hi - lo < PACK_VALID_COUNT <==> TooWide(args, lo)
  {
    if lo + 2 < |args| {
      FirstThree(args, lo);
      if hi <= lo + 2 {
        SumNext(args, lo, hi);
        SumPrefix(args, lo, hi + 1, lo + 3);
      } else {
        SumPrefix(args, lo, lo + 3, hi);
      }
    }
  }

  lemma FirstThree(args: seq<Arg>, lo: nat)
    requires lo + 2 < |args|
    ensures Sum(args[lo..lo + 3]) == args[lo].width + args[lo + 1].width + args[lo + 2].width
  {
    SumNext(args, lo, lo + 2);
    SumNext(args, lo, lo + 1);
    SumNext(args, lo, lo);
    assert args[lo..lo] == [];
  }

  lemma {:induction false} SumPrefix(args: seq<Arg>, lo: nat, mid: nat, hi: nat)
    requires lo <= mid <= hi <= |args|
    ensures Sum(args[lo..mid]) <= Sum(args[lo..hi])
  {
    if mid < hi {
      SumNext(args, lo, hi - 1);
      SumPrefix(args, lo, mid, hi - 1);
    }
  }

  lemma FirstWindow(args: seq<Arg>)
    requires args != [] && Widths(args)
    ensures Window(args, 0, 0, args[0].width)
  {
    SumNext(args, 0, 0);
    assert args[0..0] == [];
  }

  lemma NothingFilled(args: seq<Arg>)
    ensures Filled(args, [], 0)
  {
  }

  lemma EmptyWindow(args: seq<Arg>, from: nat)
    requires from <= |args|
    ensures Sum(args[from..from]) == 0
  {
  }

  lemma AllFilled(args: seq<Arg>, slots: seq<Slot>)
    requires Filled(args, slots, |args|)
    ensures AllCarried(slots) == args && GoodPacks(slots) && PacksFirst(slots) && Greedy(args, slots) && Exhaustive(args, slots)
  {
    hide AllCarried, GoodPacks, PacksFirst, Greedy, Exhaustive;
    assert args[..|args|] == args;
  }

  /** The argument a single slot carries, by its position among all arguments. */
  lemma {:induction false} SinglePlace(slots: seq<Slot>, a: nat, b: nat)
    requires a <= b <= |slots|
    ensures |AllCarried(slots[..a])| <= |AllCarried(slots[..b])|
    ensures AllCarried(slots[..b])[..|AllCarried(slots[..a])|] == AllCarried(slots[..a])
    ensures a < b && slots[a].Single? ==>
              |AllCarried(slots[..a])| < |AllCarried(slots[..b])| && AllCarried(slots[..b])[|AllCarried(slots[..a])|] == slots[a].arg
    decreases b
  {
    hide Sum;
    if a < b {
      SinglePlace(slots, a, b - 1);
      assert slots[..b] == slots[..b - 1] + [slots[b - 1]];
      AppendSlot(slots[..b - 1], slots[b - 1]);
    } else {
      assert slots[..b] == slots[..a];
    }
  }

  /** Nothing more could be packed: no three of the arguments left single fit together. */
  lemma NoThreeFit(args: seq<Arg>, slots: seq<Slot>, a: nat, b: nat, c: nat)
    requires Sorted(args) && AllCarried(slots) == args && Exhaustive(args, slots)
    requires a < b < c < |slots| && slots[a].Single? && slots[b].Single? && slots[c].Single?
    ensures slots[a].arg.width + slots[b].arg.width + slots[c].arg.width > PACK_MAX_SIZE
  {
    hide AllCarried, Sorted, TooWide;
    var i := SingleAt(args, slots, a);
    var j := SingleAt(args, slots, b);
    var k := SingleAt(args, slots, c);
    SinglePlace(slots, a, b);
    SinglePlace(slots, b, c);
    assert CannotStart(args, slots, a);
    WiderThree(args, i, j, k);
  }

  lemma SingleAt(args: seq<Arg>, slots: seq<Slot>, a: nat) returns (i: nat)
    requires AllCarried(slots) == args && a < |slots| && slots[a].Single?
    ensures i == |AllCarried(slots[..a])| < |args| && args[i] == slots[a].arg
  {
    hide AllCarried;
    assert slots[..|slots|] == slots;
    SinglePlace(slots, a, |slots|);
    i := |AllCarried(slots[..a])|;
  }

  lemma WiderThree(args: seq<Arg>, i: nat, j: nat, k: nat)
    requires Sorted(args) && i < j < k < |args| && TooWide(args, i)
    ensures args[i].width + args[j].width + args[k].width > PACK_MAX_SIZE
  {
  }

  class ArgumentPackingInfo {
    var argTy: seq<nat>
    var notPack: map<nat, Arg>
    var willPack: map<nat, seq<Arg>>
    var packedArgCount: nat

    /** What new argument p carries. */
    function SlotAt(p: nat): Slot
      requires p in notPack || p in willPack
      reads this
    {
      if p in notPack then Single(notPack[p]) else Pack(willPack[p])
    }

    /** Every new argument is either a single one or a pack, and nothing else is recorded. */
    ghost predicate Complete(n: nat)
      reads this
    {
      && |argTy| == n
      && (forall p :: 0 <= p < n && (p in notPack || p in willPack) ==> argTy[p] == SlotBits(SlotAt(p)))
      && (forall p :: p in notPack ==> 0 <= p < n && p !in willPack)
      && (forall p :: p in willPack ==> 0 <= p < n)
      && (forall p :: 0 <= p < n ==> p in notPack || p in willPack)
    }

    ghost function Slots(n: nat): (s: seq<Slot>)
      requires Complete(n)
      reads this
      ensures |s| == n && forall p :: 0 <= p < n ==> s[p] == SlotAt(p)
    {
      seq(n, p requires 0 <= p < n && Complete(n) reads this => SlotAt(p))
    }

    /** args are the arguments in the order std::sort leaves them. */
    constructor (args: seq<Arg>)
      requires Sorted(args) && Widths(args)
      ensures Complete(packedArgCount) && AllCarried(Slots(packedArgCount)) == args
      ensures GoodPacks(Slots(packedArgCount)) && PacksFirst(Slots(packedArgCount)) && Greedy(args, Slots(packedArgCount))
      ensures Exhaustive(args, Slots(packedArgCount)) && NarrowTypes()
    {
      argTy, notPack, willPack, packedArgCount := [], map[], map[], 0;
      new;
      if args == [] {
        return;
      }
      var packedSize, packedFrom, packedNow: int := args[0].width, 0, 0;
      ghost var slots: seq<Slot> := [];
      FirstWindow(args);
      NothingFilled(args);
      hide Filled, Window, Sorted, Widths;
      while packedFrom < |args|
        invariant 0 <= packedFrom <= |args|
        invariant Window(args, packedFrom, packedNow, packedSize) && Complete(packedArgCount)
        invariant Filled(args, Slots(packedArgCount), packedFrom)
        decreases |args| - packedFrom
      {
        packedNow, packedSize := Grow(args, packedFrom, packedNow, packedSize);
        packedFrom, packedSize := PackWindow(args, packedFrom, packedNow, packedSize);
      }
      AllFilled(args, Slots(packedArgCount));
      TypesAreNarrow(packedArgCount);
    }

    /** The type of a pack is the narrowest that holds it, that of a single argument its own. */
    ghost predicate NarrowTypes()
      requires Complete(packedArgCount)
      reads this
    {
      forall p :: 0 <= p < packedArgCount ==>
        if p in notPack then argTy[p] == notPack[p].width else Narrowest(argTy[p], Sum(willPack[p]))
    }

    lemma TypesAreNarrow(n: nat)
      requires Complete(n) && n == packedArgCount && GoodPacks(Slots(n))
      ensures NarrowTypes()
    {
      hide Sum, Narrowest, PackBits;
      forall p | 0 <= p < n && p !in notPack
        ensures Narrowest(argTy[p], Sum(willPack[p]))
      {
        assert GoodPack(Slots(n)[p]) && Slots(n)[p] == SlotAt(p) == Pack(willPack[p]);
        PackBitsNarrowest(Sum(willPack[p]));
      }
    }

    /** Turns a full-grown window into a pack, or leaves its first argument single. */
    method PackWindow(args: seq<Arg>, from: nat, now: int, size: int) returns (from': nat, size': int)
      requires Sorted(args) && Widths(args) && Complete(packedArgCount) && Filled(args, Slots(packedArgCount), from)
      requires Window(args, from, now, size) && from <= now
      requires now + 1 < |args| ==> size + args[now + 1].width > PACK_MAX_SIZE
      modifies this
      ensures Complete(packedArgCount) && Filled(args, Slots(packedArgCount), from')
      ensures from < from' <= |args| && Window(args, from', now, size')
    {
      hide Filled, Sorted, TooWide, Sum;
      ghost var slots := Slots(packedArgCount);
      WindowCount(args, from, now + 1);
      if now + 1 - from >= PACK_VALID_COUNT {
        FillPack(args, slots, from, now + 1);
        Put(slots, Pack(args[from..now + 1]));
        from', size' := now + 1, 0;
        EmptyWindow(args, from');
      } else {
        FillSingle(args, slots, from);
        SumFirst(args, from, now + 1);
        Put(slots, Single(args[from]));
        from', size' := from + 1, size - args[from].width;
      }
    }

    /** Takes in as many more arguments as fit. */
    static method Grow(args: seq<Arg>, from: int, now: int, size: int) returns (now': int, size': int)
      requires Widths(args) && Window(args, from, now, size) && 0 <= from < |args|
      ensures Window(args, from, now', size') && from <= now'
      ensures now' + 1 < |args| ==> size' + args[now' + 1].width > PACK_MAX_SIZE
    {
      now', size' := now, size;
      if now < from {
        EmptyWindow(args, from);
      }
      while now' + 1 < |args| && size' + args[now' + 1].width <= PACK_MAX_SIZE
        invariant Window(args, from, now', size') && (now' < from ==> size' == 0)
        decreases |args| - now'
      {
        SumNext(args, from, now' + 1);
        hide Sum;
        now' := now' + 1;
        size' := size' + args[now'].width;
      }
    }

    /** Appends a new argument. */
    method Put(ghost slots: seq<Slot>, s: Slot)
      requires Complete(packedArgCount) && slots == Slots(packedArgCount)
      modifies this
      ensures packedArgCount == old(packedArgCount) + 1
      ensures Complete(packedArgCount) && Slots(packedArgCount) == slots + [s]
    {
      if s.Pack? {
        willPack := willPack[packedArgCount := s.args];
        argTy := argTy + [PackBits(Sum(s.args))];
      } else {
        notPack := notPack[packedArgCount := s.arg];
        argTy := argTy + [s.arg.width];
      }
      packedArgCount := packedArgCount + 1;
    }
  }

  // ---- packs and the code that packs them ----

  function WidthsOf(args: seq<Arg>): (ws: seq<nat>)
    ensures |ws| == |args| && forall k :: 0 <= k < |args| ==> ws[k] == args[k].width
  {
    seq(|args|, k requires 0 <= k < |args| => args[k].width)
  }

  function PackType(bits: nat): (size: Size)
    ensures bits <= PACK_MAX_SIZE ==> bits <= BitWidth(size) == PackBits(bits)
  {
    if bits <= 8 then Size8 else if bits <= 16 then Size16 else if bits <= 32 then Size32 else Size64
  }

  lemma {:induction false} SumsAgree(args: seq<Arg>, j: nat)
    requires j <= |args|
    ensures P.SumFrom(WidthsOf(args), j) == Sum(args[j..|args|])
    decreases |args| - j
  {
    hide WidthsOf;
    if j < |args| {
      SumsAgree(args, j + 1);
      SumFirst(args, j, |args|);
    } else {
      assert args[j..|args|] == [];
    }
  }

  /** Whatever values the arguments of a chosen pack have, the packing code carries them over unchanged. */
  lemma ChosenPackFits(args: seq<Arg>, values: seq<Word>)
    requires GoodPack(Pack(args)) && Widths(args) && P.Fits(WidthsOf(args), values)
    ensures P.Packable(PackType(Sum(args)), WidthsOf(args), values)
  {
    SumsAgree(args, 0);
    assert args[0..|args|] == args;
  }
}
