// The transfer-descriptor pool and the rings of the OHCI driver, boot-loader/modules/usb/ohci/ohci.c:
// the state and the steps that change it.

module OhciPool {
  import opened PoolOwners
  import opened UsbPackets
  import opened Wrappers

  const NUM_TD: nat := 512

  /** A transfer descriptor. The controller owns `next` and `work`; `original` is the driver's
      own, circular link. Pointers are descriptor numbers, None for zero. */
  datatype Td = Td(used: bool, original: Option<nat>, next: Option<nat>, work: Desc)

  /** An endpoint descriptor. The controller owns the head pointer and its halted bit. */
  datatype Ed = Ed(head: Option<nat>, halted: bool, tail: Option<nat>, skip: bool)

  // ---------------------------------------------------------------- who owns what

  datatype Owners = Owners(place: seq<Place>, live: map<nat, seq<nat>>, open: seq<nat>)

  /** The successor on a ring. */
  function Onwards(c: seq<nat>, i: nat): nat
    requires i < |c|
  {
    if i + 1 < |c| then c[i + 1] else c[0]
  }

  /** A descriptor is marked used exactly if it has an owner, and its driver-owned link leads to
      its successor on the owner's ring. */
  ghost predicate TdOk(tds: seq<Td>, g: Owners, t: nat)
    requires t < |tds| && |g.place| == |tds|
  {
    && (tds[t].used <==> g.place[t] != Free)
    && match g.place[t]
       case Of(e, i) =>
         e in g.live && i < |g.live[e]| && g.live[e][i] == t && tds[t].original == Some(Onwards(g.live[e], i))
       case Open(i) =>
         i < |g.open| && g.open[i] == t && (i + 1 < |g.open| ==> tds[t].original == Some(g.open[i + 1]))
       case _ => true
  }

  /** The tail pointer of an endpoint with a transfer in flight is the ring's last descriptor. */
  ghost predicate EdOk(eds: seq<Ed>, g: Owners, e: nat) {
    e in g.live ==> e < |eds| && |g.live[e]| >= 2 && eds[e].tail == Some(g.live[e][|g.live[e]| - 1])
  }

  /** The pool invariant. */
  ghost predicate Consistent(tds: seq<Td>, eds: seq<Ed>, g: Owners) {
    && |g.place| == |tds| == NUM_TD
    && (forall t: nat :: t < |tds| ==> TdOk(tds, g, t))
    && (forall e :: e in g.live ==> OwnsAll(g.place, g.live[e], e) && EdOk(eds, g, e))
    && OpenAll(g.place, g.open)
  }

  /** Rings in flight are pairwise disjoint and hold no descriptor twice. */
  lemma {:induction false} RingsDisjoint(tds: seq<Td>, eds: seq<Ed>, g: Owners, e: nat, i: nat, f: nat, j: nat)
    requires Consistent(tds, eds, g)
    requires e in g.live && i < |g.live[e]| && f in g.live && j < |g.live[f]|
    ensures g.live[e][i] == g.live[f][j] <==> e == f && i == j
  {
    assert OwnsAll(g.place, g.live[e], e) && OwnsAll(g.place, g.live[f], f);
  }

  /** Rings in flight, with what is being built or was lost, cover exactly the descriptors marked
      used. */
  lemma {:induction false} RingsCoverUsed(tds: seq<Td>, eds: seq<Ed>, g: Owners, t: nat)
    requires Consistent(tds, eds, g) && t < NUM_TD
    ensures tds[t].used <==> (exists e :: e in g.live && t in g.live[e]) || t in g.open || g.place[t] == Lost
  {
    assert TdOk(tds, g, t);
    match g.place[t]
    case Of(e, i) => assert e in g.live && g.live[e][i] == t;
    case Open(i) => assert g.open[i] == t;
    case _ =>
      forall e | e in g.live
        ensures t !in g.live[e]
      {
        assert OwnsAll(g.place, g.live[e], e);
      }
  }

  // ---------------------------------------------------------------- steps

  /** A free descriptor goes to the end of the ring under construction. */
  function Appended(tds: seq<Td>, open: seq<nat>, t: nat, td: Td): (r: seq<Td>)
    requires t < |tds| && (open != [] ==> open[|open| - 1] < |tds|)
    ensures |r| == |tds|
  {
    var a := tds[t := td];
    if open == [] then a
    else a[open[|open| - 1] := a[open[|open| - 1]].(original := Some(t), next := Some(t))]
  }

  ghost function Grown(g: Owners, t: nat): Owners
    requires t < |g.place|
  {
    g.(place := g.place[t := Open(|g.open|)], open := g.open + [t])
  }

  lemma {:induction false} AppendTd(tds: seq<Td>, g: Owners, t: nat, td: Td, u: nat)
    requires |g.place| == |tds| && OpenAll(g.place, g.open) && t < |tds| && u < |tds|
    requires TdOk(tds, g, t) && TdOk(tds, g, u) && !tds[t].used && td.used
    ensures TdOk(Appended(tds, g.open, t, td), Grown(g, t), u)
  {
  }

  lemma {:induction false} AppendKeeps(tds: seq<Td>, eds: seq<Ed>, g: Owners, t: nat, td: Td)
    requires Consistent(tds, eds, g) && t < NUM_TD && !tds[t].used && td.used
    ensures Consistent(Appended(tds, g.open, t, td), eds, Grown(g, t))
  {
    assert TdOk(tds, g, t);
    var g' := Grown(g, t);
    forall u: nat | u < NUM_TD
      ensures TdOk(Appended(tds, g.open, t, td), g', u)
    {
      assert TdOk(tds, g, u);
      AppendTd(tds, g, t, td, u);
    }
    forall e | e in g.live
      ensures OwnsAll(g'.place, g.live[e], e) && EdOk(eds, g', e)
    {
      assert OwnsAll(g.place, g.live[e], e) && EdOk(eds, g, e);
    }
  }

  /** The last descriptor is linked back to the first. */
  function Closed(tds: seq<Td>, open: seq<nat>): (r: seq<Td>)
    requires open != [] && open[|open| - 1] < |tds|
    ensures |r| == |tds|
  {
    var last := open[|open| - 1];
    tds[last := tds[last].(next := None, original := Some(open[0]))]
  }

  /** The finished ring is handed to endpoint e; a ring still hanging there is lost. */
  ghost function Started(g: Owners, e: nat): Owners {
    Owners(Mapped(g.place, (p: Place) => if p.Open? then Of(e, p.i) else if p.Of? && p.owner == e then Lost else p),
           g.live[e := g.open], [])
  }

  lemma {:induction false} StartKeeps(tds: seq<Td>, eds: seq<Ed>, g: Owners, e: nat, ed: Ed)
    requires Consistent(tds, eds, g) && |g.open| >= 2 && e < |eds| && ed.tail == Some(g.open[|g.open| - 1])
    ensures Consistent(Closed(tds, g.open), eds[e := ed], Started(g, e))
  {
    var g', tds', eds' := Started(g, e), Closed(tds, g.open), eds[e := ed];
    forall t: nat | t < NUM_TD
      ensures TdOk(tds', g', t)
    {
      StartTd(tds, g, e, t);
    }
    forall f | f in g'.live
      ensures OwnsAll(g'.place, g'.live[f], f) && EdOk(eds', g', f)
    {
      StartRing(tds, eds, g, e, ed, f);
    }
  }

  lemma {:induction false} StartTd(tds: seq<Td>, g: Owners, e: nat, t: nat)
    requires |g.place| == |tds| && t < |tds| && g.open != [] && g.open[|g.open| - 1] < |tds|
    requires (forall u: nat :: u < |tds| ==> TdOk(tds, g, u)) && OpenAll(g.place, g.open)
    ensures TdOk(Closed(tds, g.open), Started(g, e), t)
  {
    assert TdOk(tds, g, t);
  }

  lemma {:induction false} StartRing(tds: seq<Td>, eds: seq<Ed>, g: Owners, e: nat, ed: Ed, f: nat)
    requires Consistent(tds, eds, g) && |g.open| >= 2 && e < |eds| && ed.tail == Some(g.open[|g.open| - 1])
    requires f in Started(g, e).live
    ensures OwnsAll(Started(g, e).place, Started(g, e).live[f], f) && EdOk(eds[e := ed], Started(g, e), f)
  {
    if f != e {
      assert OwnsAll(g.place, g.live[f], f) && EdOk(eds, g, f);
    }
  }

  ghost function Abandoned(g: Owners): Owners {
    Owners(Mapped(g.place, Forgotten), g.live, [])
  }

  lemma {:induction false} AbandonKeeps(tds: seq<Td>, eds: seq<Ed>, g: Owners)
    requires Consistent(tds, eds, g)
    ensures Consistent(tds, eds, Abandoned(g))
  {
    var g' := Abandoned(g);
    forall t: nat | t < NUM_TD
      ensures TdOk(tds, g', t)
    {
      assert TdOk(tds, g, t);
    }
    forall e | e in g'.live
      ensures OwnsAll(g'.place, g'.live[e], e) && EdOk(eds, g', e)
    {
      assert OwnsAll(g.place, g.live[e], e) && EdOk(eds, g, e);
    }
  }

  ghost function Finished(g: Owners, e: nat): Owners {
    g.(place := Mapped(g.place, (p: Place) => Freed(p, e)), live := g.live - {e})
  }

  /** A descriptor after bl_memset. */
  const CLEARED := Td(false, None, None, Desc(Out, false, 0, 0, false, 0, 0))

  /** Exactly the descriptors of one ring were cleared. */
  ghost predicate Released(tds: seq<Td>, tds': seq<Td>, ring: seq<nat>) {
    && |tds'| == |tds|
    && forall t: nat :: t < |tds| ==> tds'[t] == if t in ring then CLEARED else tds[t]
  }

  /** Descriptors are cleared one by one. */
  ghost function Wiped(tds: seq<Td>, order: seq<nat>): (r: seq<Td>)
    requires forall i :: 0 <= i < |order| ==> order[i] < |tds|
    ensures Released(tds, r, order)
  {
    if order == [] then tds
    else
      var n := |order| - 1;
      var a := Wiped(tds, order[..n]);
      assert forall t :: t in order <==> t in order[..n] || t == order[n];
      a[order[n] := CLEARED]
  }

  lemma {:induction false} OwnedBy(tds: seq<Td>, eds: seq<Ed>, g: Owners, e: nat, t: nat)
    requires Consistent(tds, eds, g) && e in g.live && t < NUM_TD
    ensures t in g.live[e] <==> g.place[t].Of? && g.place[t].owner == e
  {
    assert TdOk(tds, g, t) && OwnsAll(g.place, g.live[e], e);
    if g.place[t].Of? && g.place[t].owner == e {
      assert g.live[e][g.place[t].i] == t;
    }
  }

  lemma {:induction false} FinishKeeps(tds: seq<Td>, eds: seq<Ed>, g: Owners, e: nat, tds': seq<Td>, ed: Ed)
    requires Consistent(tds, eds, g) && e in g.live && e < |eds| && Released(tds, tds', g.live[e])
    ensures Consistent(tds', eds[e := ed], Finished(g, e))
  {
    var g', eds' := Finished(g, e), eds[e := ed];
    forall t: nat | t < NUM_TD
      ensures TdOk(tds', g', t)
    {
      OwnedBy(tds, eds, g, e, t);
      assert TdOk(tds, g, t);
    }
    forall f | f in g'.live
      ensures OwnsAll(g'.place, g'.live[f], f) && EdOk(eds', g', f)
    {
      assert OwnsAll(g.place, g.live[f], f) && EdOk(eds, g, f);
    }
  }

  /** The controller may write the links and work of any descriptor and the head of any endpoint,
      not the driver's own fields. */
  ghost predicate HardwareStep(tds: seq<Td>, eds: seq<Ed>, tds': seq<Td>, eds': seq<Ed>) {
    && |tds'| == |tds|
    && (forall t: nat :: t < |tds| ==> tds'[t] == tds[t].(next := tds'[t].next, work := tds'[t].work))
    && |eds'| == |eds|
    && (forall e: nat :: e < |eds| ==> eds'[e] == eds[e].(head := eds'[e].head, halted := eds'[e].halted))
  }

  lemma {:induction false} HardwareKeeps(tds: seq<Td>, eds: seq<Ed>, tds': seq<Td>, eds': seq<Ed>, g: Owners)
    requires Consistent(tds, eds, g) && HardwareStep(tds, eds, tds', eds')
    ensures Consistent(tds', eds', g)
  {
    forall t: nat | t < NUM_TD
      ensures TdOk(tds', g, t)
    {
      assert TdOk(tds, g, t);
    }
    forall e | e in g.live
      ensures OwnsAll(g.place, g.live[e], e) && EdOk(eds', g, e)
    {
      assert OwnsAll(g.place, g.live[e], e) && EdOk(eds, g, e);
    }
  }

  // ---------------------------------------------------------------- runs

  datatype State = State(tds: seq<Td>, eds: seq<Ed>, g: Owners)

  datatype Action =
    | Append(t: nat, td: Td)
    | Start(ed: nat)
    | Abandon
    | Finish(ed: nat)
    | Controller(tds: seq<Td>, eds: seq<Ed>)

  ghost predicate Sound(s: State) {
    Consistent(s.tds, s.eds, s.g)
  }

  ghost predicate Enabled(s: State, a: Action)
    requires Sound(s)
  {
    match a
    case Append(t, td) => t < NUM_TD && !s.tds[t].used && td.used
    case Start(e) => |s.g.open| >= 2 && e < |s.eds|
    case Abandon => true
    case Finish(e) => e in s.g.live
    case Controller(tds, eds) => HardwareStep(s.tds, s.eds, tds, eds)
  }

  function Linked(open: seq<nat>): Ed
    requires open != []
  {
    Ed(Some(open[0]), false, Some(open[|open| - 1]), false)
  }

  ghost function Apply(s: State, a: Action): State
    requires Sound(s) && Enabled(s, a)
  {
    match a
    case Append(t, td) => State(Appended(s.tds, s.g.open, t, td), s.eds, Grown(s.g, t))
    case Start(e) => State(Closed(s.tds, s.g.open), s.eds[e := Linked(s.g.open)], Started(s.g, e))
    case Abandon => State(s.tds, s.eds, Abandoned(s.g))
    case Finish(e) =>
      assert OwnsAll(s.g.place, s.g.live[e], e) && EdOk(s.eds, s.g, e);
      State(Wiped(s.tds, FreeOrder(s.g.live[e])), s.eds[e := s.eds[e].(skip := true)], Finished(s.g, e))
    case Controller(tds, eds) => State(tds, eds, s.g)
  }

  /** A ring is freed from its tail on: last, first, second, ... */
  function FreeOrder(ring: seq<nat>): (r: seq<nat>)
    requires ring != []
    ensures |r| == |ring| && r[0] == ring[|ring| - 1] && forall i :: 0 < i < |ring| ==> r[i] == ring[i - 1]
  {
    [ring[|ring| - 1]] + ring[..|ring| - 1]
  }

  lemma {:induction false} FreeOrderIsRing(ring: seq<nat>)
    requires ring != []
    ensures forall t :: t in FreeOrder(ring) <==> t in ring
  {
    assert forall i :: 0 <= i < |ring| ==> ring[i] == FreeOrder(ring)[if i == |ring| - 1 then 0 else i + 1];
  }

  /** The controller is not held back: it may write anything to the links it follows, to what a descriptor
      asks for, and to head pointers and halted bits. */
  lemma {:induction false} ControllerIsFree(s: State, tds: seq<Td>, eds: seq<Ed>)
    requires Sound(s) && |tds| == |s.tds| && |eds| == |s.eds|
    requires forall t :: 0 <= t < |tds| ==> tds[t].used == s.tds[t].used && tds[t].original == s.tds[t].original
    requires forall e :: 0 <= e < |eds| ==> eds[e].tail == s.eds[e].tail && eds[e].skip == s.eds[e].skip
    ensures Enabled(s, Controller(tds, eds)) && Apply(s, Controller(tds, eds)) == State(tds, eds, s.g)
  {
  }

  /** Every step keeps the pool invariant. */
  lemma {:induction false} StepKeeps(s: State, a: Action)
    requires Sound(s) && Enabled(s, a)
    ensures Sound(Apply(s, a))
  {
    match a
    case Append(t, td) => AppendKeeps(s.tds, s.eds, s.g, t, td);
    case Start(e) => StartKeeps(s.tds, s.eds, s.g, e, Linked(s.g.open));
    case Abandon => AbandonKeeps(s.tds, s.eds, s.g);
    case Finish(e) =>
      assert OwnsAll(s.g.place, s.g.live[e], e) && EdOk(s.eds, s.g, e);
      FreeOrderIsRing(s.g.live[e]);
      FinishKeeps(s.tds, s.eds, s.g, e, Wiped(s.tds, FreeOrder(s.g.live[e])), s.eds[e].(skip := true));
    case Controller(tds, eds) => HardwareKeeps(s.tds, s.eds, tds, eds, s.g);
  }

  ghost predicate Leads(s: State, run: seq<Action>, s': State)
    decreases |run|
  {
    if run == [] then s == s'
    else Sound(s) && Enabled(s, run[0]) && Leads(Apply(s, run[0]), run[1..], s')
  }

  lemma {:induction false} RunKeeps(s: State, run: seq<Action>, s': State)
    requires Sound(s) && Leads(s, run, s')
    ensures Sound(s')
    decreases |run|
  {
    if run != [] {
      StepKeeps(s, run[0]);
      RunKeeps(Apply(s, run[0]), run[1..], s');
    }
  }

  /** A ring in flight on endpoint e. */
  ghost predicate InFlight(s: State, e: nat, ring: seq<nat>) {
    Sound(s) && e in s.g.live && s.g.live[e] == ring
  }

  /** However the pool and the rest of the controller are used meanwhile, a transfer that ends on
      its endpoint gives back exactly the ring it took. */
  lemma {:induction false} GivesBackWhatItTook(s: State, run: seq<Action>, s': State, e: nat, ring: seq<nat>)
    requires InFlight(s, e, ring) && Leads(s, run, s') && Finish(e) !in run && Start(e) !in run
    ensures InFlight(s', e, ring) && Enabled(s', Finish(e))
    ensures var after := Apply(s', Finish(e));
      Sound(after) && e !in after.g.live && Released(s'.tds, after.tds, ring)
    decreases |run|
  {
    if run == [] {
      StepKeeps(s, Finish(e));
      assert EdOk(s.eds, s.g, e);
      FreeOrderIsRing(ring);
    } else {
      StepKeeps(s, run[0]);
      assert Finish(e) !in run[1..] && Start(e) !in run[1..];
      GivesBackWhatItTook(Apply(s, run[0]), run[1..], s', e, ring);
    }
  }
}
