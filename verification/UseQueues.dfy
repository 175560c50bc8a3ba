/** The uses of every value inside a block and the queues of their timesteps (visitBasicBlock). */
module UseQueues {
  import opened Programs
  import opened Simulation

  function Vals(os: seq<Operand>): seq<nat> {
    if os == [] then [] else (if os[0].Val? then [os[0].id] else []) + Vals(os[1..])
  }

  function IncomingOperand(phi: Phi, b: nat): seq<Operand> {
    match Incoming(phi.incoming, b)
    case None => []
    case Some(o) => [o]
  }

  function PhiUses(phis: seq<Phi>, b: nat): seq<nat> {
    if phis == [] then [] else Vals(IncomingOperand(phis[0], b)) + PhiUses(phis[1..], b)
  }

  function EdgeUses(f: Func, b: nat, ds: seq<nat>): seq<nat> {
    if ds == [] then []
    else (if ds[0] < |f.blocks| then PhiUses(f.blocks[ds[0]].phis, b) else []) + EdgeUses(f, b, ds[1..])
  }

  /** The k-th instruction after the phis; index |insts| is the terminator, which also uses the phi operands. */
  function UsesAt(f: Func, b: nat, k: nat): seq<nat>
    requires b < |f.blocks| && k <= |f.blocks[b].insts|
  {
    var blk := f.blocks[b];
    if k < |blk.insts| then Vals(blk.insts[k].args)
    else Vals(TermOperands(blk.term)) + EdgeUses(f, b, Successors(blk.term))
  }

  function Repeat(t: nat, n: nat): seq<nat> { if n == 0 then [] else [t] + Repeat(t, n - 1) }

  /** The timesteps at which v is used from instruction k on, one entry per use. */
  function Times(f: Func, b: nat, v: nat, k: nat): seq<nat>
    requires b < |f.blocks| && k <= |f.blocks[b].insts| + 1
    decreases |f.blocks[b].insts| + 1 - k
  {
    if k > |f.blocks[b].insts| then []
    else Repeat(|f.blocks[b].phis| + k, multiset(UsesAt(f, b, k))[v]) + Times(f, b, v, k + 1)
  }

  /** Of the instructions from k on, j is the first that uses v. */
  ghost predicate FirstUse(f: Func, b: nat, v: nat, k: nat, j: nat)
    requires b < |f.blocks|
  {
    k <= j <= |f.blocks[b].insts| && v in UsesAt(f, b, j) && forall i :: k <= i < j ==> v !in UsesAt(f, b, i)
  }

  lemma FirstUseLater(f: Func, b: nat, v: nat, k: nat, j: nat)
    requires b < |f.blocks| && k <= |f.blocks[b].insts| && v !in UsesAt(f, b, k)
    ensures FirstUse(f, b, v, k + 1, j) <==> FirstUse(f, b, v, k, j)
  {
    hide UsesAt;
  }

  lemma FirstUseNow(f: Func, b: nat, v: nat, k: nat, j: nat)
    requires b < |f.blocks| && k <= |f.blocks[b].insts| && v in UsesAt(f, b, k)
    ensures FirstUse(f, b, v, k, j) <==> j == k
  {
    hide UsesAt;
  }

  lemma {:induction false} TimesFront(f: Func, b: nat, v: nat, k: nat)
    requires b < |f.blocks| && k <= |f.blocks[b].insts| + 1
    ensures forall j: nat :: FirstUse(f, b, v, k, j) ==> Times(f, b, v, k) != [] && Times(f, b, v, k)[0] == |f.blocks[b].phis| + j
    ensures Times(f, b, v, k) != [] ==> exists j: nat :: FirstUse(f, b, v, k, j)
    decreases |f.blocks[b].insts| + 1 - k
  {
    hide UsesAt, FirstUse;
    if k > |f.blocks[b].insts| {
      NoFirstUse(f, b, v, k);
    } else if v in UsesAt(f, b, k) {
      forall j: nat
        ensures FirstUse(f, b, v, k, j) <==> j == k
      {
        FirstUseNow(f, b, v, k, j);
      }
      assert FirstUse(f, b, v, k, k);
    } else {
      TimesFront(f, b, v, k + 1);
      assert multiset(UsesAt(f, b, k))[v] == 0;
      assert Times(f, b, v, k) == Times(f, b, v, k + 1);
      forall j: nat
        ensures FirstUse(f, b, v, k + 1, j) <==> FirstUse(f, b, v, k, j)
      {
        FirstUseLater(f, b, v, k, j);
      }
      if Times(f, b, v, k) != [] {
        var j: nat :| FirstUse(f, b, v, k + 1, j);
        assert FirstUse(f, b, v, k, j);
      }
    }
  }

  lemma NoFirstUse(f: Func, b: nat, v: nat, k: nat)
    requires b < |f.blocks| && k > |f.blocks[b].insts|
    ensures forall j: nat :: !FirstUse(f, b, v, k, j)
  {
    hide UsesAt;
  }

  /** The queue of v lists its uses: those still pending at instruction k, then all later ones. */
  ghost predicate AdventsOk(f: Func, b: nat, m: map<nat, seq<nat>>, k: nat, pending: multiset<nat>)
    requires b < |f.blocks| && k <= |f.blocks[b].insts|
  {
    forall v: nat {:trigger Advents(m, v)} ::
      Advents(m, v) == Repeat(|f.blocks[b].phis| + k, pending[v]) + Times(f, b, v, k + 1)
  }

  /** What stands first in the queue of v. */
  lemma QueueFront(f: Func, b: nat, m: map<nat, seq<nat>>, k: nat, pending: multiset<nat>, v: nat)
    requires b < |f.blocks| && k <= |f.blocks[b].insts| && AdventsOk(f, b, m, k, pending)
    ensures pending[v] > 0 ==> Advents(m, v) != [] && Advents(m, v)[0] == |f.blocks[b].phis| + k
    ensures pending[v] == 0 ==> Advents(m, v) == Times(f, b, v, k + 1)
  {
    hide Times, UsesAt;
    var t := |f.blocks[b].phis| + k;
    assert Advents(m, v) == Repeat(t, pending[v]) + Times(f, b, v, k + 1);
    if pending[v] > 0 {
      assert Repeat(t, pending[v]) == [t] + Repeat(t, pending[v] - 1);
    }
  }

  lemma AdventsAdvance(f: Func, b: nat, m: map<nat, seq<nat>>, k: nat)
    requires b < |f.blocks| && k < |f.blocks[b].insts|
    requires AdventsOk(f, b, m, k, multiset{})
    ensures AdventsOk(f, b, m, k + 1, multiset(UsesAt(f, b, k + 1)))
  {
    hide UsesAt;
    forall v: nat
      ensures Advents(m, v) == Repeat(|f.blocks[b].phis| + k + 1, multiset(UsesAt(f, b, k + 1))[v]) + Times(f, b, v, k + 2)
    {
      assert Advents(m, v) == [] + Times(f, b, v, k + 1);
    }
  }

  lemma AdventsPop(f: Func, b: nat, m: map<nat, seq<nat>>, k: nat, pending: multiset<nat>, v: nat)
    requires b < |f.blocks| && k <= |f.blocks[b].insts| && AdventsOk(f, b, m, k, pending) && pending[v] > 0
    ensures v in m && m[v] != [] && Advents(m, v) == m[v]
    ensures AdventsOk(f, b, m[v := m[v][1..]], k, pending - multiset{v})
  {
    hide Times;
    var t := |f.blocks[b].phis| + k;
    assert Advents(m, v) == Repeat(t, pending[v]) + Times(f, b, v, k + 1);
    assert Repeat(t, pending[v]) == [t] + Repeat(t, pending[v] - 1);
    var m' := m[v := m[v][1..]];
    forall w: nat
      ensures Advents(m', w) == Repeat(t, (pending - multiset{v})[w]) + Times(f, b, w, k + 1)
    {
      if w != v {
        assert Advents(m', w) == Advents(m, w);
      }
    }
  }

  lemma ValsStep(os: seq<Operand>, j: nat)
    requires j < |os|
    ensures multiset(Vals(os[j..])) == (if os[j].Val? then multiset{os[j].id} else multiset{}) + multiset(Vals(os[j + 1..]))
  {
    assert os[j..][0] == os[j] && os[j..][1..] == os[j + 1..];
  }

  lemma {:induction false} EdgeUsesStep(f: Func, b: nat, ds: seq<nat>, n: nat)
    requires n < |ds| && ds[n] < |f.blocks|
    ensures EdgeUses(f, b, ds[n..]) == PhiUses(f.blocks[ds[n]].phis, b) + EdgeUses(f, b, ds[n + 1..])
  {
    assert ds[n..][0] == ds[n] && ds[n..][1..] == ds[n + 1..];
  }

  // ---- building the use queues ----

  /** The queues with the uses `todo` of instruction k still to be pushed. */
  ghost predicate PushedTo(f: Func, b: nat, k: nat, m: map<nat, seq<nat>>, todo: seq<nat>)
    requires b < |f.blocks| && k <= |f.blocks[b].insts|
  {
    forall v: nat {:trigger Advents(m, v)} ::
      Advents(m, v) + (Repeat(|f.blocks[b].phis| + k, multiset(todo)[v]) + Times(f, b, v, k + 1)) == Times(f, b, v, 0)
  }

  lemma TimesStep(f: Func, b: nat, k: nat, m: map<nat, seq<nat>>, uses: seq<nat>)
    requires b < |f.blocks| && k <= |f.blocks[b].insts| && uses == UsesAt(f, b, k)
    requires forall v: nat {:trigger Advents(m, v)} :: Advents(m, v) + Times(f, b, v, k) == Times(f, b, v, 0)
    ensures PushedTo(f, b, k, m, uses)
  {
    hide UsesAt;
  }

  lemma MoveFirst(a: seq<nat>, t: nat, b: seq<nat>)
    ensures (a + [t]) + b == a + ([t] + b)
  {
  }

  lemma PushOne(f: Func, b: nat, k: nat, m: map<nat, seq<nat>>, uses: seq<nat>, j: nat, m': map<nat, seq<nat>>)
    requires b < |f.blocks| && k <= |f.blocks[b].insts| && j < |uses| && PushedTo(f, b, k, m, uses[j..])
    requires m' == m[uses[j] := Advents(m, uses[j]) + [|f.blocks[b].phis| + k]]
    ensures PushedTo(f, b, k, m', uses[j + 1..])
  {
    hide Times;
    var t, u := |f.blocks[b].phis| + k, uses[j];
    assert uses[j..] == [u] + uses[j + 1..];
    forall v: nat
      ensures Advents(m', v) + (Repeat(t, multiset(uses[j + 1..])[v]) + Times(f, b, v, k + 1)) == Times(f, b, v, 0)
    {
      assert Advents(m, v) + (Repeat(t, multiset(uses[j..])[v]) + Times(f, b, v, k + 1)) == Times(f, b, v, 0);
      if v == u {
        var n := multiset(uses[j + 1..])[v];
        assert Repeat(t, n + 1) == [t] + Repeat(t, n);
        assert Advents(m', v) == Advents(m, v) + [t];
        MoveFirst(Advents(m, v), t, Repeat(t, n) + Times(f, b, v, k + 1));
        assert [t] + (Repeat(t, n) + Times(f, b, v, k + 1)) == Repeat(t, n + 1) + Times(f, b, v, k + 1);
      } else {
        assert Advents(m', v) == Advents(m, v);
      }
    }
  }

  lemma PushEnd(f: Func, b: nat, k: nat, m: map<nat, seq<nat>>)
    requires b < |f.blocks| && k <= |f.blocks[b].insts| && PushedTo(f, b, k, m, [])
    ensures forall v: nat {:trigger Advents(m, v)} :: Advents(m, v) + Times(f, b, v, k + 1) == Times(f, b, v, 0)
  {
    hide Times;
    forall v: nat
      ensures Advents(m, v) + Times(f, b, v, k + 1) == Times(f, b, v, 0)
    {
      assert Advents(m, v) + ([] + Times(f, b, v, k + 1)) == Times(f, b, v, 0);
    }
  }
}
