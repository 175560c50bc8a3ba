/** RAHelper of src/core/Backend.cpp: which values are finally used in which block. */
module FinalUseAnalysis {
  import opened Programs
  import opened Simulation

  type Table = map<nat, set<nat>>

  function Add(m: Table, k: nat, x: nat): Table { m[k := (if k in m then m[k] else {}) + {x}] }

  /** m holds exactly the pairs of p. */
  ghost predicate Holds(m: Table, p: set<(nat, nat)>) {
    forall k: nat, x: nat {:trigger (k, x) in p} :: (k, x) in p <==> k in m && x in m[k]
  }

  lemma AddHolds(m: Table, p: set<(nat, nat)>, k: nat, x: nat)
    requires Holds(m, p)
    ensures Holds(Add(m, k, x), p + {(k, x)})
  {}

  // ---- the pairs (value, block) and (block, value) of the program text ----

  function OperandPairs(os: seq<Operand>, n: nat, b: nat): set<(nat, nat)>
    requires n <= |os|
  {
    set i | 0 <= i < n && os[i].Val? :: (os[i].id, b)
  }

  function IncomingPairs(phi: Phi, n: nat): set<(nat, nat)>
    requires n <= |phi.incoming|
  {
    set i | 0 <= i < n && phi.incoming[i].1.Val? :: (phi.incoming[i].1.id, phi.incoming[i].0)
  }

  function PhiPairs(phis: seq<Phi>, n: nat, b: nat): set<(nat, nat)>
    requires n <= |phis|
  {
    if n == 0 then {}
    else PhiPairs(phis, n - 1, b) + {(phis[n - 1].id, b)} + IncomingPairs(phis[n - 1], |phis[n - 1].incoming|)
  }

  function InstPairs(insts: seq<Inst>, n: nat, b: nat): set<(nat, nat)>
    requires n <= |insts|
  {
    if n == 0 then {}
    else InstPairs(insts, n - 1, b) + (if insts[n - 1].named then {(insts[n - 1].id, b)} else {})
         + OperandPairs(insts[n - 1].args, |insts[n - 1].args|, b)
  }

  function UsePairs(insts: seq<Inst>, n: nat, b: nat): set<(nat, nat)>
    requires n <= |insts|
  {
    if n == 0 then {} else UsePairs(insts, n - 1, b) + OperandPairs(insts[n - 1].args, |insts[n - 1].args|, b)
  }

  function TermPairs(blk: Block, b: nat): set<(nat, nat)> {
    OperandPairs(TermOperands(blk.term), |TermOperands(blk.term)|, b)
  }

  function BlockPairs(blk: Block, b: nat): set<(nat, nat)> {
    PhiPairs(blk.phis, |blk.phis|, b) + (InstPairs(blk.insts, |blk.insts|, b) + TermPairs(blk, b))
  }

  function AdventPairs(f: Func, n: nat): set<(nat, nat)>
    requires n <= |f.blocks|
  {
    if n == 0 then {} else AdventPairs(f, n - 1) + BlockPairs(f.blocks[n - 1], n - 1)
  }

  function Swap(p: set<(nat, nat)>): set<(nat, nat)> { set q | q in p :: (q.1, q.0) }

  function ReturnPairs(f: Func, n: nat): set<(nat, nat)>
    requires n <= |f.blocks|
  {
    if n == 0 then {}
    else
      var blk := f.blocks[n - 1];
      ReturnPairs(f, n - 1) + if blk.term.Ret? then UsePairs(blk.insts, |blk.insts|, n - 1) + TermPairs(blk, n - 1) else {}
  }

  // ---- what the pairs mean ----

  lemma {:induction false} PhiPairsMeaning(phis: seq<Phi>, n: nat, b: nat, v: nat, c: nat)
    requires n <= |phis|
    ensures (v, c) in PhiPairs(phis, n, b) <==>
              || (c == b && exists i :: 0 <= i < n && phis[i].id == v)
              || (exists i, j :: 0 <= i < n && 0 <= j < |phis[i].incoming| && phis[i].incoming[j] == (c, Val(v)))
  {
    if n > 0 {
      PhiPairsMeaning(phis, n - 1, b, v, c);
      if (v, c) in IncomingPairs(phis[n - 1], |phis[n - 1].incoming|) {
        var j :| 0 <= j < |phis[n - 1].incoming| && phis[n - 1].incoming[j].1.Val?
                 && (phis[n - 1].incoming[j].1.id, phis[n - 1].incoming[j].0) == (v, c);
        assert phis[n - 1].incoming[j] == (c, Val(v));
      }
      if i, j :| 0 <= i < n && 0 <= j < |phis[i].incoming| && phis[i].incoming[j] == (c, Val(v)) {
        if i == n - 1 {
          assert phis[i].incoming[j].1.Val? && (phis[i].incoming[j].1.id, phis[i].incoming[j].0) == (v, c);
        }
      }
    }
  }

  lemma {:induction false} InstPairsMeaning(insts: seq<Inst>, n: nat, b: nat, v: nat, c: nat)
    requires n <= |insts|
    ensures (v, c) in InstPairs(insts, n, b) <==>
              c == b && ((exists i :: 0 <= i < n && insts[i].named && insts[i].id == v)
                         || (exists i :: 0 <= i < n && Val(v) in insts[i].args))
    ensures (v, c) in UsePairs(insts, n, b) <==> c == b && exists i :: 0 <= i < n && Val(v) in insts[i].args
  {
    if n > 0 {
      InstPairsMeaning(insts, n - 1, b, v, c);
      OperandPairsMeaning(insts[n - 1].args, b, v, c);
    }
  }

  lemma OperandPairsMeaning(os: seq<Operand>, b: nat, v: nat, c: nat)
    ensures (v, c) in OperandPairs(os, |os|, b) <==> c == b && Val(v) in os
  {
    if Val(v) in os && c == b {
      var i :| 0 <= i < |os| && os[i] == Val(v);
      assert os[i].Val? && (os[i].id, b) == (v, c);
    }
  }

  /** v occurs in block c as far as the first n blocks of the text tell. */
  ghost predicate OccursUpTo(f: Func, v: nat, c: nat, n: nat)
    requires n <= |f.blocks|
  {
    || (c < n && (Defines(f.blocks[c], v) || UsesDirectly(f.blocks[c], v)))
    || (exists d :: 0 <= d < n && FeedsPhi(f.blocks[d], c, v))
  }

  /** One block's phis, instructions and terminator. */
  lemma TextMeaning(blk: Block, b: nat, v: nat, c: nat)
    ensures (v, c) in BlockPairs(blk, b) <==>
              (c == b && (Defines(blk, v) || UsesDirectly(blk, v))) || FeedsPhi(blk, c, v)
  {
    hide PhiPairs, InstPairs, UsePairs, OperandPairs;
    PhiPairsMeaning(blk.phis, |blk.phis|, b, v, c);
    InstPairsMeaning(blk.insts, |blk.insts|, b, v, c);
    OperandPairsMeaning(TermOperands(blk.term), b, v, c);
  }

  lemma {:induction false} AdventPairsMeaning(f: Func, n: nat, v: nat, c: nat)
    requires n <= |f.blocks|
    ensures (v, c) in AdventPairs(f, n) <==> OccursUpTo(f, v, c, n)
  {
    if n > 0 {
      hide OccursUpTo, BlockPairs, Defines, UsesDirectly, FeedsPhi;
      var blk := f.blocks[n - 1];
      AdventPairsMeaning(f, n - 1, v, c);
      TextMeaning(blk, n - 1, v, c);
      BlockPairsMeaning(f, n - 1, v, c);
    }
  }

  lemma {:induction false} ReturnPairsMeaning(f: Func, n: nat, v: nat, c: nat)
    requires n <= |f.blocks|
    ensures (v, c) in ReturnPairs(f, n) <==> c < n && f.blocks[c].term.Ret? && UsesDirectly(f.blocks[c], v)
  {
    if n > 0 {
      hide InstPairs, UsePairs, OperandPairs;
      ReturnPairsMeaning(f, n - 1, v, c);
      var blk := f.blocks[n - 1];
      InstPairsMeaning(blk.insts, |blk.insts|, n - 1, v, c);
      OperandPairsMeaning(TermOperands(blk.term), n - 1, v, c);
    }
  }

  lemma BlockPairsMeaning(f: Func, b: nat, v: nat, c: nat)
    requires b < |f.blocks|
    ensures OccursUpTo(f, v, c, b + 1) <==>
              || OccursUpTo(f, v, c, b)
              || (c == b && (Defines(f.blocks[b], v) || UsesDirectly(f.blocks[b], v)))
              || FeedsPhi(f.blocks[b], c, v)
  {
    hide Defines, UsesDirectly, FeedsPhi;
  }

  // ---- the analysis ----

  /** v occurs in block b and nowhere else. */
  ghost predicate OnlyIn(f: Func, v: nat, b: nat) { OccursIn(f, v, b) && forall c :: OccursIn(f, v, c) ==> c == b }

  ghost predicate IsFinalUse(f: Func, v: nat, b: nat) {
    (b < |f.blocks| && f.blocks[b].term.Ret? && UsesDirectly(f.blocks[b], v)) || OnlyIn(f, v, b)
  }

  method NoteOperands(advents: Table, finals: Table, os: seq<Operand>, b: nat, inReturn: bool, ghost p: set<(nat, nat)>, ghost q: set<(nat, nat)>)
    returns (advents': Table, finals': Table)
    requires Holds(advents, p) && Holds(finals, Swap(q))
    ensures Holds(advents', p + OperandPairs(os, |os|, b))
    ensures Holds(finals', Swap(if inReturn then q + OperandPairs(os, |os|, b) else q))
  {
    hide Holds, Swap;
    advents', finals' := advents, finals;
    assert p + OperandPairs(os, 0, b) == p && q + OperandPairs(os, 0, b) == q;
    hide OperandPairs;
    for i := 0 to |os|
      invariant Holds(advents', p + OperandPairs(os, i, b))
      invariant Holds(finals', Swap(if inReturn then q + OperandPairs(os, i, b) else q))
    {
      OperandPairsStep(os, i, b);
      ghost var pair := if os[i].Val? then {(os[i].id, b)} else {};
      assert p + OperandPairs(os, i + 1, b) == p + OperandPairs(os, i, b) + pair;
      assert q + OperandPairs(os, i + 1, b) == q + OperandPairs(os, i, b) + pair;
      if os[i].Val? {
        AddHolds(advents', p + OperandPairs(os, i, b), os[i].id, b);
        advents' := Add(advents', os[i].id, b);
        if inReturn {
          AddHolds(finals', Swap(q + OperandPairs(os, i, b)), b, os[i].id);
          finals' := Add(finals', b, os[i].id);
          SwapAdd(q + OperandPairs(os, i, b), os[i].id, b);
        }
      } else {
        assert p + OperandPairs(os, i, b) + pair == p + OperandPairs(os, i, b);
        assert q + OperandPairs(os, i, b) + pair == q + OperandPairs(os, i, b);
      }
    }
  }

  lemma OperandPairsStep(os: seq<Operand>, i: nat, b: nat)
    requires i < |os|
    ensures OperandPairs(os, i + 1, b) == OperandPairs(os, i, b) + if os[i].Val? then {(os[i].id, b)} else {}
  {}

  lemma SwapAdd(q: set<(nat, nat)>, v: nat, b: nat)
    ensures Swap(q) + {(b, v)} == Swap(q + {(v, b)})
  {
    assert (v, b) in q + {(v, b)};
  }

  method NotePhis(advents: Table, phis: seq<Phi>, b: nat, ghost p: set<(nat, nat)>) returns (advents': Table)
    requires Holds(advents, p)
    ensures Holds(advents', p + PhiPairs(phis, |phis|, b))
  {
    hide Holds, IncomingPairs;
    advents' := advents;
    assert p + PhiPairs(phis, 0, b) == p;
    for i := 0 to |phis|
      invariant Holds(advents', p + PhiPairs(phis, i, b))
    {
      ghost var base := p + PhiPairs(phis, i, b);
      advents' := NotePhi(advents', phis[i], b, base);
      assert base + {(phis[i].id, b)} + IncomingPairs(phis[i], |phis[i].incoming|) == p + PhiPairs(phis, i + 1, b);
    }
  }

  method NotePhi(advents: Table, phi: Phi, b: nat, ghost p: set<(nat, nat)>) returns (advents': Table)
    requires Holds(advents, p)
    ensures Holds(advents', p + {(phi.id, b)} + IncomingPairs(phi, |phi.incoming|))
  {
    hide Holds;
    AddHolds(advents, p, phi.id, b);
    advents' := Add(advents, phi.id, b);
    ghost var base := p + {(phi.id, b)};
    assert base + IncomingPairs(phi, 0) == base;
    hide IncomingPairs;
    for j := 0 to |phi.incoming|
      invariant Holds(advents', base + IncomingPairs(phi, j))
    {
      var (from, o) := phi.incoming[j];
      IncomingPairsStep(phi, j);
      ghost var pair := if o.Val? then {(o.id, from)} else {};
      assert base + IncomingPairs(phi, j + 1) == base + IncomingPairs(phi, j) + pair;
      if o.Val? {
        AddHolds(advents', base + IncomingPairs(phi, j), o.id, from);
        advents' := Add(advents', o.id, from);
      } else {
        assert base + IncomingPairs(phi, j) + pair == base + IncomingPairs(phi, j);
      }
    }
  }

  lemma IncomingPairsStep(phi: Phi, j: nat)
    requires j < |phi.incoming|
    ensures IncomingPairs(phi, j + 1) ==
            IncomingPairs(phi, j) + if phi.incoming[j].1.Val? then {(phi.incoming[j].1.id, phi.incoming[j].0)} else {}
  {}

  method NoteInsts(advents: Table, finals: Table, insts: seq<Inst>, b: nat, inReturn: bool, ghost p: set<(nat, nat)>, ghost q: set<(nat, nat)>)
    returns (advents': Table, finals': Table)
    requires Holds(advents, p) && Holds(finals, Swap(q))
    ensures Holds(advents', p + InstPairs(insts, |insts|, b))
    ensures Holds(finals', Swap(if inReturn then q + UsePairs(insts, |insts|, b) else q))
  {
    hide Holds, Swap, OperandPairs;
    advents', finals' := advents, finals;
    assert p + InstPairs(insts, 0, b) == p && q + UsePairs(insts, 0, b) == q;
    for k := 0 to |insts|
      invariant Holds(advents', p + InstPairs(insts, k, b))
      invariant Holds(finals', Swap(if inReturn then q + UsePairs(insts, k, b) else q))
    {
      var i := insts[k];
      ghost var base := p + InstPairs(insts, k, b) + if i.named then {(i.id, b)} else {};
      if i.named {
        AddHolds(advents', p + InstPairs(insts, k, b), i.id, b);
        advents' := Add(advents', i.id, b);
      } else {
        assert base == p + InstPairs(insts, k, b);
      }
      ghost var uses := if inReturn then q + UsePairs(insts, k, b) else q;
      advents', finals' := NoteOperands(advents', finals', i.args, b, inReturn, base, uses);
      assert base + OperandPairs(i.args, |i.args|, b) == p + InstPairs(insts, k + 1, b);
      assert q + UsePairs(insts, k, b) + OperandPairs(i.args, |i.args|, b) == q + UsePairs(insts, k + 1, b);
    }
  }

  method NoteBlock(f: Func, n: nat, advents: Table, finals: Table) returns (advents': Table, finals': Table)
    requires n < |f.blocks| && Holds(advents, AdventPairs(f, n)) && Holds(finals, Swap(ReturnPairs(f, n)))
    ensures Holds(advents', AdventPairs(f, n + 1)) && Holds(finals', Swap(ReturnPairs(f, n + 1)))
  {
    hide Holds, Swap, PhiPairs, InstPairs, UsePairs, OperandPairs;
    var blk := f.blocks[n];
    ghost var p, q := AdventPairs(f, n), ReturnPairs(f, n);
    advents' := NotePhis(advents, blk.phis, n, p);
    p := p + PhiPairs(blk.phis, |blk.phis|, n);
    advents', finals' := NoteInsts(advents', finals, blk.insts, n, blk.term.Ret?, p, q);
    p := p + InstPairs(blk.insts, |blk.insts|, n);
    ghost var q1 := if blk.term.Ret? then q + UsePairs(blk.insts, |blk.insts|, n) else q;
    advents', finals' := NoteOperands(advents', finals', TermOperands(blk.term), n, blk.term.Ret?, p, q1);
    SetAssociative(AdventPairs(f, n), PhiPairs(blk.phis, |blk.phis|, n), InstPairs(blk.insts, |blk.insts|, n), TermPairs(blk, n));
    assert ReturnPairs(f, n + 1) ==
           q + if blk.term.Ret? then UsePairs(blk.insts, |blk.insts|, n) + TermPairs(blk, n) else {};
    if blk.term.Ret? {
      assert q1 + TermPairs(blk, n) == q + (UsePairs(blk.insts, |blk.insts|, n) + TermPairs(blk, n));
    } else {
      assert q + {} == q;
    }
  }

  lemma SetAssociative(a: set<(nat, nat)>, b: set<(nat, nat)>, c: set<(nat, nat)>, d: set<(nat, nat)>)
    ensures a + b + c + d == a + (b + (c + d))
  {}

  /** FinalUses: values used in a returning block, and values that occur in one block only. */
  method Visit(f: Func) returns (finals: FinalUses)
    ensures forall b, v :: InFinalUses(finals, b, v) <==> IsFinalUse(f, v, b)
  {
    hide IsFinalUse, InFinalUses;
    var advents: Table := map[];
    finals := map[];
    for n := 0 to |f.blocks|
      invariant Holds(advents, AdventPairs(f, n)) && Holds(finals, Swap(ReturnPairs(f, n)))
    {
      hide Holds, AdventPairs, ReturnPairs, Swap;
      advents, finals := NoteBlock(f, n, advents, finals);
    }
    finals := NoteSingles(f, advents, finals);
  }

  /** The values outside `rest` that occur in one block only have been added to finals0. */
  ghost predicate SinglesAdded(finals: Table, finals0: Table, advents: Table, rest: set<nat>) {
    forall b: nat, v: nat {:trigger InFinalUses(finals, b, v)} ::
      InFinalUses(finals, b, v) <==> InFinalUses(finals0, b, v) || (v in advents && v !in rest && advents[v] == {b})
  }

  lemma SinglesStep(finals: Table, finals0: Table, advents: Table, rest: set<nat>, v: nat, finals': Table)
    requires SinglesAdded(finals, finals0, advents, rest) && v in advents && v in rest
    requires if exists b :: advents[v] == {b} then (exists b :: advents[v] == {b} && finals' == Add(finals, b, v)) else finals' == finals
    ensures SinglesAdded(finals', finals0, advents, rest - {v})
  {
    forall b: nat, w: nat
      ensures InFinalUses(finals', b, w) <==>
                InFinalUses(finals0, b, w) || (w in advents && w !in rest - {v} && advents[w] == {b})
    {
      assert InFinalUses(finals, b, w) <==> InFinalUses(finals0, b, w) || (w in advents && w !in rest && advents[w] == {b});
      if w == v && advents[v] == {b} {
        var c :| advents[v] == {c} && finals' == Add(finals, c, v);
        assert c in {b};
      }
    }
  }

  method NoteSingles(f: Func, advents: Table, finals0: Table) returns (finals: Table)
    requires Holds(advents, AdventPairs(f, |f.blocks|)) && Holds(finals0, Swap(ReturnPairs(f, |f.blocks|)))
    ensures forall b, v :: InFinalUses(finals, b, v) <==> IsFinalUse(f, v, b)
  {
    hide Holds, IsFinalUse, AdventPairs, ReturnPairs, Swap;
    finals := finals0;
    var rest := advents.Keys;
    assert SinglesAdded(finals, finals0, advents, rest);
    while rest != {}
      invariant rest <= advents.Keys && SinglesAdded(finals, finals0, advents, rest)
      decreases rest
    {
      hide SinglesAdded, InFinalUses;
      var v :| v in rest;
      ghost var before := finals;
      if |advents[v]| == 1 {
        var b :| b in advents[v];
        Singleton(advents[v], b);
        finals := Add(finals, b, v);
      } else {
        NotSingleton(advents[v]);
      }
      SinglesStep(before, finals0, advents, rest, v, finals);
      rest := rest - {v};
    }
    forall b: nat, v: nat
      ensures InFinalUses(finals, b, v) <==> IsFinalUse(f, v, b)
    {
      SinglesMeaning(f, advents, finals0, b, v);
    }
  }

  lemma NotSingleton(s: set<nat>)
    requires |s| != 1
    ensures forall b :: s != {b}
  {
    assert forall b: nat :: |{b}| == 1;
  }

  lemma Singleton(s: set<nat>, b: nat)
    requires b in s && |s| == 1
    ensures s == {b}
  {
    assert |s - {b}| == 0;
    assert s == s - {b} + {b};
  }

  lemma SinglesMeaning(f: Func, advents: Table, finals0: Table, b: nat, v: nat)
    requires Holds(advents, AdventPairs(f, |f.blocks|)) && Holds(finals0, Swap(ReturnPairs(f, |f.blocks|)))
    ensures InFinalUses(finals0, b, v) || (v in advents && advents[v] == {b}) <==> IsFinalUse(f, v, b)
  {
    hide Defines, UsesDirectly, FeedsPhi;
    forall c: nat
      ensures (v, c) in AdventPairs(f, |f.blocks|) <==> OccursIn(f, v, c)
    {
      AdventPairsMeaning(f, |f.blocks|, v, c);
    }
    ReturnPairsMeaning(f, |f.blocks|, v, b);
    assert (v, b) in ReturnPairs(f, |f.blocks|) <==> (b, v) in Swap(ReturnPairs(f, |f.blocks|));
    assert forall c: nat :: v in advents && c in advents[v] <==> (v, c) in AdventPairs(f, |f.blocks|);
  }

  /** Skipping the spill of a finally used value is sound: in a block that continues, such a value escapes nowhere. */
  lemma FinalUsesAreSound(f: Func, finals: FinalUses)
    requires forall b, v :: InFinalUses(finals, b, v) <==> IsFinalUse(f, v, b)
    ensures SoundFinalUses(f, finals)
  {
    hide Defines, UsesDirectly, FeedsPhi, OccursIn;
  }
}
