// Descriptor pools and transfer chains of the UHCI driver, boot-loader/modules/usb/uhci/uhci.c:
// the state and the steps that change it.

module UhciPool {
  import opened PoolOwners
  import opened UsbPackets
  import opened Wrappers

  const NUM_TD: nat := 1024
  const NUM_QH: nat := 256

  /** A link pointer: its T bit, or another descriptor. */
  datatype Link = Terminate | To(td: nat)

  /** The status word is written by driver and controller. */
  datatype Td = Td(used: bool, link: Link, desc: Desc, status: nat)

  /** An element pointer: its T bit and its address part, None for zero. */
  datatype Element = Element(terminate: bool, pointer: Option<nat>)

  datatype Qh = Qh(used: bool, element: Element, original: nat)

  // ---------------------------------------------------------------- who owns what

  /** The chains of the queue heads in flight, the chain under construction and its queue head,
      queue heads lost to failed constructions. */
  datatype Owners = Owners(place: seq<Place>, live: map<nat, seq<nat>>, open: seq<nat>, openQh: Option<nat>,
                           lostQhs: set<nat>)

  function LinkAt(c: seq<nat>, i: nat): Link
    requires i < |c|
  {
    if i + 1 < |c| then To(c[i + 1]) else Terminate
  }

  /** A descriptor is marked used exactly if somebody owns it, and links to its successor in the
      owner's chain. */
  ghost predicate TdOk(tds: seq<Td>, g: Owners, t: nat)
    requires t < |tds| && |g.place| == |tds|
  {
    && (tds[t].used <==> g.place[t] != Free)
    && match g.place[t]
       case Of(q, i) => q in g.live && i < |g.live[q]| && g.live[q][i] == t && tds[t].link == LinkAt(g.live[q], i)
       case Open(i) => i < |g.open| && g.open[i] == t && tds[t].link == LinkAt(g.open, i)
       case _ => true
  }

  ghost predicate QhOk(qhs: seq<Qh>, g: Owners, q: nat)
    requires q < |qhs|
  {
    && (qhs[q].used <==> q in g.live || g.openQh == Some(q) || q in g.lostQhs)
    && (q in g.live ==> g.live[q] != [] && qhs[q].original == g.live[q][0] && g.openQh != Some(q) && q !in g.lostQhs)
    && (g.openQh == Some(q) ==> q !in g.lostQhs)
  }

  /** The pool invariant. */
  ghost predicate Consistent(tds: seq<Td>, qhs: seq<Qh>, g: Owners) {
    && |g.place| == |tds| == NUM_TD && |qhs| == NUM_QH
    && (forall t: nat :: t < |tds| ==> TdOk(tds, g, t))
    && (forall q :: q in g.live ==> q < |qhs| && OwnsAll(g.place, g.live[q], q))
    && OpenAll(g.place, g.open)
    && (if g.openQh.Some? then g.openQh.value < |qhs| else g.open == [])
    && (forall q: nat :: q < |qhs| ==> QhOk(qhs, g, q))
  }

  /** Chains in flight are acyclic and pairwise disjoint. */
  lemma {:induction false} ChainsDisjoint(tds: seq<Td>, qhs: seq<Qh>, g: Owners, q: nat, i: nat, r: nat, j: nat)
    requires Consistent(tds, qhs, g)
    requires q in g.live && i < |g.live[q]| && r in g.live && j < |g.live[r]|
    ensures g.live[q][i] == g.live[r][j] <==> q == r && i == j
  {
    assert OwnsAll(g.place, g.live[q], q) && OwnsAll(g.place, g.live[r], r);
  }

  /** Following link pointers from a queue head's first descriptor. */
  ghost function Walk(tds: seq<Td>, t: nat, fuel: nat): seq<nat>
    decreases fuel
  {
    if t >= |tds| || fuel == 0 then []
    else if tds[t].link == Terminate then [t]
    else [t] + Walk(tds, tds[t].link.td, fuel - 1)
  }

  lemma {:induction false} WalkFrom(tds: seq<Td>, qhs: seq<Qh>, g: Owners, q: nat, i: nat)
    requires Consistent(tds, qhs, g) && q in g.live && i < |g.live[q]|
    ensures Walk(tds, g.live[q][i], |g.live[q]| - i) == g.live[q][i..]
    decreases |g.live[q]| - i
  {
    var c := g.live[q];
    var t := c[i];
    assert OwnsAll(g.place, c, q);
    assert TdOk(tds, g, t);
    if i + 1 < |c| {
      WalkFrom(tds, qhs, g, q, i + 1);
      assert [t] + c[i + 1..] == c[i..];
    }
  }

  /** The links found in memory from `original` on are exactly the queue head's chain. */
  lemma {:induction false} ChainIsWalk(tds: seq<Td>, qhs: seq<Qh>, g: Owners, q: nat)
    requires Consistent(tds, qhs, g) && q in g.live
    ensures q < |qhs| && Walk(tds, qhs[q].original, |g.live[q]|) == g.live[q]
  {
    assert QhOk(qhs, g, q);
    WalkFrom(tds, qhs, g, q, 0);
  }

  /** The chains in flight, with what is being built or was lost, cover exactly the descriptors
      marked used. */
  lemma {:induction false} ChainsCoverUsed(tds: seq<Td>, qhs: seq<Qh>, g: Owners, t: nat)
    requires Consistent(tds, qhs, g) && t < NUM_TD
    ensures tds[t].used <==> (exists q :: q in g.live && t in g.live[q]) || t in g.open || g.place[t] == Lost
  {
    assert TdOk(tds, g, t);
    match g.place[t]
    case Of(q, i) => assert q in g.live && g.live[q][i] == t;
    case Open(i) => assert g.open[i] == t;
    case _ =>
      forall q | q in g.live
        ensures t !in g.live[q]
      {
        assert OwnsAll(g.place, g.live[q], q);
      }
  }

  // ---------------------------------------------------------------- steps

  /** A queue head is taken for a new transfer. */
  ghost function Opened(g: Owners, q: nat): Owners {
    g.(openQh := Some(q))
  }

  lemma {:induction false} OpenKeeps(tds: seq<Td>, qhs: seq<Qh>, g: Owners, q: nat)
    requires Consistent(tds, qhs, g) && g.openQh == None && q < NUM_QH && !qhs[q].used
    ensures Consistent(tds, qhs[q := qhs[q].(used := true)], Opened(g, q))
  {
    assert QhOk(qhs, g, q);
    var qhs', g' := qhs[q := qhs[q].(used := true)], Opened(g, q);
    forall r: nat | r < NUM_QH
      ensures QhOk(qhs', g', r)
    {
      assert QhOk(qhs, g, r);
    }
    forall t: nat | t < NUM_TD
      ensures TdOk(tds, Opened(g, q), t)
    {
      assert TdOk(tds, g, t);
    }
  }

  /** A free descriptor goes to the end of the chain under construction. */
  function Appended(tds: seq<Td>, open: seq<nat>, t: nat, td: Td): (r: seq<Td>)
    requires t < |tds| && (open != [] ==> open[|open| - 1] < |tds|)
    ensures |r| == |tds|
  {
    var a := tds[t := td];
    if open == [] then a else a[open[|open| - 1] := a[open[|open| - 1]].(link := To(t))]
  }

  ghost function Grown(g: Owners, t: nat): Owners
    requires t < |g.place|
  {
    g.(place := g.place[t := Open(|g.open|)], open := g.open + [t])
  }

  lemma {:induction false} AppendTd(tds: seq<Td>, g: Owners, t: nat, td: Td, u: nat)
    requires |g.place| == |tds| && OpenAll(g.place, g.open) && t < |tds| && u < |tds|
    requires TdOk(tds, g, t) && TdOk(tds, g, u) && !tds[t].used && td.used && td.link == Terminate
    ensures TdOk(Appended(tds, g.open, t, td), Grown(g, t), u)
  {
  }

  lemma {:induction false} AppendKeeps(tds: seq<Td>, qhs: seq<Qh>, g: Owners, t: nat, td: Td)
    requires Consistent(tds, qhs, g) && g.openQh.Some?
    requires t < NUM_TD && !tds[t].used && td.used && td.link == Terminate
    ensures Consistent(Appended(tds, g.open, t, td), qhs, Grown(g, t))
  {
    assert TdOk(tds, g, t);
    var g' := Grown(g, t);
    forall u: nat | u < NUM_TD
      ensures TdOk(Appended(tds, g.open, t, td), g', u)
    {
      assert TdOk(tds, g, u);
      AppendTd(tds, g, t, td, u);
    }
    forall q | q in g.live
      ensures OwnsAll(g'.place, g.live[q], q)
    {
      assert OwnsAll(g.place, g.live[q], q);
    }
    forall q: nat | q < NUM_QH
      ensures QhOk(qhs, g', q)
    {
      assert QhOk(qhs, g, q);
    }
  }

  /** The finished chain is handed to its queue head. */
  ghost function Started(g: Owners): Owners
    requires g.openQh.Some?
  {
    var q := g.openQh.value;
    Owners(Mapped(g.place, (p: Place) => Handed(p, q)), g.live[q := g.open], [], None, g.lostQhs)
  }

  lemma {:induction false} StartKeeps(tds: seq<Td>, qhs: seq<Qh>, g: Owners, element: Element)
    requires Consistent(tds, qhs, g) && g.openQh.Some? && g.open != []
    ensures Consistent(tds, qhs[g.openQh.value := Qh(true, element, g.open[0])], Started(g))
  {
    var q, g' := g.openQh.value, Started(g);
    var qhs' := qhs[q := Qh(true, element, g.open[0])];
    assert QhOk(qhs, g, q);
    forall t: nat | t < NUM_TD
      ensures TdOk(tds, g', t)
    {
      assert TdOk(tds, g, t);
    }
    forall r | r in g'.live
      ensures r < NUM_QH && OwnsAll(g'.place, g'.live[r], r)
    {
      assert r != q ==> OwnsAll(g.place, g.live[r], r);
    }
    forall r: nat | r < NUM_QH
      ensures QhOk(qhs', g', r)
    {
      assert QhOk(qhs, g, r);
    }
  }

  /** A failed construction loses its queue head and the descriptors it got. */
  ghost function Abandoned(g: Owners): Owners
    requires g.openQh.Some?
  {
    Owners(Mapped(g.place, Forgotten), g.live, [], None,
           g.lostQhs + {g.openQh.value})
  }

  lemma {:induction false} AbandonKeeps(tds: seq<Td>, qhs: seq<Qh>, g: Owners)
    requires Consistent(tds, qhs, g) && g.openQh.Some?
    ensures Consistent(tds, qhs, Abandoned(g))
  {
    var g' := Abandoned(g);
    forall t: nat | t < NUM_TD
      ensures TdOk(tds, g', t)
    {
      assert TdOk(tds, g, t);
    }
    forall r | r in g'.live
      ensures r < NUM_QH && OwnsAll(g'.place, g'.live[r], r)
    {
      assert OwnsAll(g.place, g.live[r], r);
    }
    forall r: nat | r < NUM_QH
      ensures QhOk(qhs, g', r)
    {
      assert QhOk(qhs, g, r);
    }
  }

  /** A completed transfer gives its queue head and its chain back. */
  ghost function Finished(g: Owners, q: nat): Owners {
    g.(place := Mapped(g.place, (p: Place) => Freed(p, q)), live := g.live - {q})
  }

  /** Exactly the descriptors of one chain are no longer marked used, nothing else changes. */
  ghost predicate Released(tds: seq<Td>, tds': seq<Td>, chain: seq<nat>) {
    && |tds'| == |tds|
    && forall t: nat :: t < |tds| ==> tds'[t] == if t in chain then tds[t].(used := false) else tds[t]
  }

  /** The marks of a chain are cleared one by one. */
  ghost function Unmarked(tds: seq<Td>, chain: seq<nat>): (r: seq<Td>)
    requires forall i :: 0 <= i < |chain| ==> chain[i] < |tds|
    ensures Released(tds, r, chain)
  {
    if chain == [] then tds
    else
      var n := |chain| - 1;
      var a := Unmarked(tds, chain[..n]);
      assert forall t :: t in chain <==> t in chain[..n] || t == chain[n];
      a[chain[n] := a[chain[n]].(used := false)]
  }

  lemma {:induction false} OwnedBy(tds: seq<Td>, qhs: seq<Qh>, g: Owners, q: nat, t: nat)
    requires Consistent(tds, qhs, g) && q in g.live && t < NUM_TD
    ensures t in g.live[q] <==> g.place[t].Of? && g.place[t].owner == q
  {
    assert TdOk(tds, g, t) && OwnsAll(g.place, g.live[q], q);
    if g.place[t].Of? && g.place[t].owner == q {
      assert g.live[q][g.place[t].i] == t;
    }
  }

  lemma {:induction false} FinishKeeps(tds: seq<Td>, qhs: seq<Qh>, g: Owners, q: nat, tds': seq<Td>)
    requires Consistent(tds, qhs, g) && q in g.live && q < NUM_QH && Released(tds, tds', g.live[q])
    ensures Consistent(tds', qhs[q := qhs[q].(used := false)], Finished(g, q))
  {
    var g', qhs' := Finished(g, q), qhs[q := qhs[q].(used := false)];
    forall t: nat | t < NUM_TD
      ensures TdOk(tds', g', t)
    {
      OwnedBy(tds, qhs, g, q, t);
      assert TdOk(tds, g, t);
    }
    forall r | r in g'.live
      ensures r < NUM_QH && OwnsAll(g'.place, g'.live[r], r)
    {
      assert OwnsAll(g.place, g.live[r], r);
    }
    forall r: nat | r < NUM_QH
      ensures QhOk(qhs', g', r)
    {
      assert QhOk(qhs, g, r);
    }
  }

  /** The controller may write element pointers and status words, and nothing else. */
  ghost predicate HardwareStep(tds: seq<Td>, qhs: seq<Qh>, tds': seq<Td>, qhs': seq<Qh>) {
    && |tds'| == |tds| && (forall t: nat :: t < |tds| ==> tds'[t] == tds[t].(status := tds'[t].status))
    && |qhs'| == |qhs| && (forall q: nat :: q < |qhs| ==> qhs'[q] == qhs[q].(element := qhs'[q].element))
  }

  lemma {:induction false} HardwareKeeps(tds: seq<Td>, qhs: seq<Qh>, tds': seq<Td>, qhs': seq<Qh>, g: Owners)
    requires Consistent(tds, qhs, g) && HardwareStep(tds, qhs, tds', qhs')
    ensures Consistent(tds', qhs', g)
  {
    forall t: nat | t < NUM_TD
      ensures TdOk(tds', g, t)
    {
      assert TdOk(tds, g, t);
    }
    forall q: nat | q < NUM_QH
      ensures QhOk(qhs', g, q)
    {
      assert QhOk(qhs, g, q);
    }
  }

  // ---------------------------------------------------------------- runs

  datatype State = State(tds: seq<Td>, qhs: seq<Qh>, g: Owners)

  /** The steps of driver and controller. Between any two steps of a construction the controller
      may move. */
  datatype Action =
    | Take(q: nat)
    | Append(t: nat, td: Td)
    | Start(element: Element)
    | Abandon
    | Finish(qh: nat)
    | Controller(tds: seq<Td>, qhs: seq<Qh>)

  ghost predicate Sound(s: State) {
    Consistent(s.tds, s.qhs, s.g)
  }

  ghost predicate Enabled(s: State, a: Action)
    requires Sound(s)
  {
    match a
    case Take(q) => s.g.openQh == None && q < NUM_QH && !s.qhs[q].used
    case Append(t, td) => s.g.openQh.Some? && t < NUM_TD && !s.tds[t].used && td.used && td.link == Terminate
    case Start(_) => s.g.openQh.Some? && s.g.open != []
    case Abandon => s.g.openQh.Some?
    case Finish(q) => q in s.g.live
    case Controller(tds, qhs) => HardwareStep(s.tds, s.qhs, tds, qhs)
  }

  ghost function Apply(s: State, a: Action): State
    requires Sound(s) && Enabled(s, a)
  {
    match a
    case Take(q) => State(s.tds, s.qhs[q := s.qhs[q].(used := true)], Opened(s.g, q))
    case Append(t, td) =>
      assert s.g.open != [] ==> s.g.open[|s.g.open| - 1] < |s.tds|;
      State(Appended(s.tds, s.g.open, t, td), s.qhs, Grown(s.g, t))
    case Start(element) =>
      State(s.tds, s.qhs[s.g.openQh.value := Qh(true, element, s.g.open[0])], Started(s.g))
    case Abandon => State(s.tds, s.qhs, Abandoned(s.g))
    case Finish(q) =>
      assert OwnsAll(s.g.place, s.g.live[q], q);
      State(Unmarked(s.tds, s.g.live[q]), s.qhs[q := s.qhs[q].(used := false)], Finished(s.g, q))
    case Controller(tds, qhs) => State(tds, qhs, s.g)
  }

  /** The controller is not held back: it may write anything to status words and element pointers. */
  lemma {:induction false} ControllerIsFree(s: State, tds: seq<Td>, qhs: seq<Qh>)
    requires Sound(s) && |tds| == |s.tds| && |qhs| == |s.qhs|
    requires forall t :: 0 <= t < |tds| ==>
      tds[t].used == s.tds[t].used && tds[t].link == s.tds[t].link && tds[t].desc == s.tds[t].desc
    requires forall q :: 0 <= q < |qhs| ==> qhs[q].used == s.qhs[q].used && qhs[q].original == s.qhs[q].original
    ensures Enabled(s, Controller(tds, qhs)) && Apply(s, Controller(tds, qhs)) == State(tds, qhs, s.g)
  {
  }

  /** Every step keeps the pool invariant. */
  lemma {:induction false} StepKeeps(s: State, a: Action)
    requires Sound(s) && Enabled(s, a)
    ensures Sound(Apply(s, a))
  {
    match a
    case Take(q) => OpenKeeps(s.tds, s.qhs, s.g, q);
    case Append(t, td) => AppendKeeps(s.tds, s.qhs, s.g, t, td);
    case Start(element) => StartKeeps(s.tds, s.qhs, s.g, element);
    case Abandon => AbandonKeeps(s.tds, s.qhs, s.g);
    case Finish(q) =>
      assert OwnsAll(s.g.place, s.g.live[q], q);
      FinishKeeps(s.tds, s.qhs, s.g, q, Unmarked(s.tds, s.g.live[q]));
    case Controller(tds, qhs) => HardwareKeeps(s.tds, s.qhs, tds, qhs, s.g);
  }

  /** A run: each action is enabled where it happens. */
  ghost predicate Leads(s: State, run: seq<Action>, s': State)
    decreases |run|
  {
    if run == [] then s == s'
    else Sound(s) && Enabled(s, run[0]) && Leads(Apply(s, run[0]), run[1..], s')
  }

  /** The invariant over whole runs. */
  lemma {:induction false} RunKeeps(s: State, run: seq<Action>, s': State)
    requires Sound(s) && Leads(s, run, s')
    ensures Sound(s')
    decreases |run|
  {
    if run != [] {
      StepKeeps(s, run[0]);
      RunKeeps(Apply(s, run[0]), run[1..], s');
    }
  }

  /** A transfer in flight keeps its queue head and chain, and the chain what it asks for. */
  ghost predicate InFlight(s: State, q: nat, chain: seq<nat>, work: seq<Desc>) {
    && Sound(s) && q in s.g.live && s.g.live[q] == chain && |work| == |chain|
    && forall i :: 0 <= i < |chain| ==> chain[i] < NUM_TD && s.tds[chain[i]].desc == work[i]
  }

  lemma {:induction false} StepLeavesTransfer(s: State, a: Action, q: nat, chain: seq<nat>, work: seq<Desc>)
    requires InFlight(s, q, chain, work) && Enabled(s, a) && a != Finish(q)
    ensures InFlight(Apply(s, a), q, chain, work)
  {
    StepKeeps(s, a);
    var s' := Apply(s, a);
    assert OwnsAll(s.g.place, chain, q);
    assert QhOk(s.qhs, s.g, q);
    forall i | 0 <= i < |chain|
      ensures s'.tds[chain[i]].desc == work[i]
    {
      var t := chain[i];
      assert TdOk(s.tds, s.g, t);
      if a.Finish? {
        assert OwnsAll(s.g.place, s.g.live[a.qh], a.qh);
        OwnedBy(s.tds, s.qhs, s.g, a.qh, t);
      }
    }
  }

  /** However the pools are used meanwhile, a transfer that completes gives back exactly the
      queue head and the descriptors it took. */
  lemma {:induction false} GivesBackWhatItTook(s: State, run: seq<Action>, s': State, q: nat, chain: seq<nat>,
        work: seq<Desc>)
    requires InFlight(s, q, chain, work) && Leads(s, run, s') && Finish(q) !in run
    ensures InFlight(s', q, chain, work) && Enabled(s', Finish(q))
    ensures var after := Apply(s', Finish(q));
      && Sound(after) && q !in after.g.live && !after.qhs[q].used
      && Released(s'.tds, after.tds, chain)
      && forall r :: 0 <= r < NUM_QH && r != q ==> after.qhs[r] == s'.qhs[r]
    decreases |run|
  {
    if run == [] {
      StepKeeps(s, Finish(q));
      assert QhOk(s.qhs, s.g, q);
    } else {
      StepLeavesTransfer(s, run[0], q, chain, work);
      assert Finish(q) !in run[1..];
      GivesBackWhatItTook(Apply(s, run[0]), run[1..], s', q, chain, work);
    }
  }
}
