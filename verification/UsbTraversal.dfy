// The bounded traversal queue of boot-loader/core/bus/usb/usb-traversal.c and the breadth-first
// walk over the devices of a host controller in boot-loader/core/bus/usb/usb.c.

module UsbTraversal {
  import opened Wrappers

  /** A hub and its ports; a port may be empty. */
  datatype Hub = Hub(devices: seq<Device>)
  datatype Device = NoDevice | HubDevice(address: nat, hub: Hub) | OtherDevice(address: nat)

  const SLOTS: nat := 127

  // ---------------------------------------------------------------- the queue

  class Traversal {
    const hubs: array<Option<Hub>>
    var head: nat
    var tail: nat
    /** Every hub pushed so far, those popped first. */
    ghost var history: seq<Hub>

    ghost predicate Valid()
      reads this, hubs
    {
      && hubs.Length == SLOTS && head <= tail < SLOTS && |history| == tail
      && forall i :: 0 <= i < tail ==> hubs[i] == Some(history[i])
    }

    constructor ()
      ensures Valid() && head == 0 && history == [] && fresh(hubs)
    {
      head, tail, history := 0, 0, [];
      hubs := new Option<Hub>[SLOTS](_ => None);
    }

    predicate IsEmpty()
      reads this
    {
      head == tail
    }

    /** A push into a full queue is dropped without notice. */
    method Push(hub: Hub)
      requires Valid()
      modifies this`tail, this`history, hubs
      ensures Valid() && history == Pushed(old(history), hub)
    {
      if tail < SLOTS - 1 {
        hubs[tail] := Some(hub);
        tail := tail + 1;
        history := history + [hub];
      }
    }

    method Pop() returns (hub: Option<Hub>)
      requires Valid()
      modifies this`head
      ensures Valid()
      ensures if old(head) < tail then head == old(head) + 1 && hub == Some(history[old(head)])
              else head == old(head) && hub == None
    {
      if head < tail {
        hub := hubs[head];
        head := head + 1;
      } else {
        hub := None;
      }
    }
  }

  // ---------------------------------------------------------------- what hangs off a hub

  /** The devices attached at the ports from port i on. */
  function Attached(h: Hub, i: nat): seq<Device>
    requires i <= |h.devices|
    decreases |h.devices| - i
  {
    if i == |h.devices| then []
    else (if h.devices[i].NoDevice? then [] else [h.devices[i]]) + Attached(h, i + 1)
  }

  /** The hubs among them. */
  function SubHubs(h: Hub, i: nat): seq<Hub>
    requires i <= |h.devices|
    decreases |h.devices| - i
  {
    if i == |h.devices| then []
    else (if h.devices[i].HubDevice? then [h.devices[i].hub] else []) + SubHubs(h, i + 1)
  }

  /** Every hub below the ports of h from port i on, depth first. */
  function HubsBelow(h: Hub, i: nat): seq<Hub>
    requires i <= |h.devices|
    decreases h, |h.devices| - i
  {
    if i == |h.devices| then []
    else
      (match h.devices[i]
       case HubDevice(_, hub) => [hub] + HubsBelow(hub, 0)
       case _ => []) + HubsBelow(h, i + 1)
  }

  /** Every device below them, depth first. */
  function DevicesBelow(h: Hub, i: nat): seq<Device>
    requires i <= |h.devices|
    decreases h, |h.devices| - i
  {
    if i == |h.devices| then []
    else
      (match h.devices[i]
       case HubDevice(_, hub) => [h.devices[i]] + DevicesBelow(hub, 0)
       case OtherDevice(_) => [h.devices[i]]
       case NoDevice => []) + DevicesBelow(h, i + 1)
  }

  /** Every hub of a list of trees, depth first. */
  function Forest(q: seq<Hub>): seq<Hub> {
    if q == [] then [] else [q[0]] + HubsBelow(q[0], 0) + Forest(q[1..])
  }

  lemma {:induction false} ForestAppend(a: seq<Hub>, b: seq<Hub>)
    ensures Forest(a + b) == Forest(a) + Forest(b)
    decreases |a|
  {
    if a == [] {
      assert a + b == b;
    } else {
      ForestAppend(a[1..], b);
      assert (a + b)[1..] == a[1..] + b;
      Associative([a[0]] + HubsBelow(a[0], 0), Forest(a[1..]), Forest(b));
    }
  }

  lemma {:induction false} ForestOfSubHubs(h: Hub, i: nat)
    requires i <= |h.devices|
    ensures Forest(SubHubs(h, i)) == HubsBelow(h, i)
    decreases |h.devices| - i
  {
    if i < |h.devices| {
      ForestOfSubHubs(h, i + 1);
      if h.devices[i].HubDevice? {
        var hub := h.devices[i].hub;
        assert ([hub] + SubHubs(h, i + 1))[1..] == SubHubs(h, i + 1);
      } else {
        NoHubAt(h, i);
      }
    }
  }

  lemma {:induction false} NoHubAt(h: Hub, i: nat)
    requires i < |h.devices| && !h.devices[i].HubDevice?
    ensures SubHubs(h, i) == SubHubs(h, i + 1) && HubsBelow(h, i) == HubsBelow(h, i + 1)
  {
  }

  // ---------------------------------------------------------------- breadth-first order

  /** The next level of the forest. */
  function NextLevel(q: seq<Hub>): seq<Hub> {
    if q == [] then [] else SubHubs(q[0], 0) + NextLevel(q[1..])
  }

  lemma {:induction false} NextLevelSize(q: seq<Hub>)
    ensures |Forest(NextLevel(q))| + |q| == |Forest(q)|
  {
    if q != [] {
      NextLevelSize(q[1..]);
      ForestOfSubHubs(q[0], 0);
      ForestAppend(SubHubs(q[0], 0), NextLevel(q[1..]));
    }
  }

  /** One whole level after the other. */
  function LevelOrder(q: seq<Hub>): seq<Hub>
    decreases |Forest(q)|
  {
    NextLevelSize(q);
    if q == [] then [] else q + LevelOrder(NextLevel(q))
  }

  lemma {:induction false} StepSize(q: seq<Hub>)
    requires q != []
    ensures Forest(q[1..] + SubHubs(q[0], 0)) == Forest(q[1..]) + HubsBelow(q[0], 0)
    ensures |Forest(q[1..] + SubHubs(q[0], 0))| < |Forest(q)|
  {
    ForestOfSubHubs(q[0], 0);
    ForestAppend(q[1..], SubHubs(q[0], 0));
  }

  /** The order in which an unbounded queue holding q is emptied. */
  function QueueOrder(q: seq<Hub>): seq<Hub>
    decreases |Forest(q)|
  {
    if q == [] then []
    else
      StepSize(q);
      [q[0]] + QueueOrder(q[1..] + SubHubs(q[0], 0))
  }

  lemma {:induction false} QueueTakesLevel(a: seq<Hub>, b: seq<Hub>)
    ensures QueueOrder(a + b) == a + QueueOrder(b + NextLevel(a))
    decreases |a|
  {
    if a == [] {
      assert a + b == b && b + NextLevel(a) == b;
    } else {
      var subs := SubHubs(a[0], 0);
      Rotated(a, b, subs);
      QueueTakesLevel(a[1..], b + subs);
      assert b + subs + NextLevel(a[1..]) == b + NextLevel(a);
    }
  }

  lemma {:induction false} Rotated<T>(a: seq<T>, b: seq<T>, c: seq<T>)
    requires a != []
    ensures (a + b)[0] == a[0] && (a + b)[1..] + c == a[1..] + (b + c)
  {
  }

  /** Emptying a queue visits the forest level by level. */
  lemma {:induction false} QueueIsLevelOrder(q: seq<Hub>)
    ensures QueueOrder(q) == LevelOrder(q)
    decreases |Forest(q)|
  {
    if q != [] {
      NextLevelSize(q);
      QueueTakesLevel(q, []);
      assert q + [] == q && [] + NextLevel(q) == NextLevel(q);
      QueueIsLevelOrder(NextLevel(q));
    }
  }

  lemma {:induction false} QueueStartsWith(q: seq<Hub>)
    ensures |QueueOrder(q)| >= |q| && QueueOrder(q)[..|q|] == q
  {
    QueueTakesLevel(q, []);
    assert q + [] == q;
  }

  // ---------------------------------------------------------------- exactly once

  /** Some measure of a hub, added up. */
  ghost function Sum(q: seq<Hub>, f: Hub -> nat): nat {
    if q == [] then 0 else f(q[0]) + Sum(q[1..], f)
  }

  lemma {:induction false} SumAppend(a: seq<Hub>, b: seq<Hub>, f: Hub -> nat)
    ensures Sum(a + b, f) == Sum(a, f) + Sum(b, f)
    decreases |a|
  {
    if a == [] {
      assert a + b == b;
    } else {
      SumAppend(a[1..], b, f);
      assert (a + b)[1..] == a[1..] + b;
    }
  }

  /** Whatever is added up, breadth-first and depth-first order give the same total. */
  lemma {:induction false} QueueSum(q: seq<Hub>, f: Hub -> nat)
    ensures Sum(QueueOrder(q), f) == Sum(Forest(q), f)
    decreases |Forest(q)|
  {
    if q != [] {
      StepSize(q);
      var rest, below := Forest(q[1..]), HubsBelow(q[0], 0);
      QueueSum(q[1..] + SubHubs(q[0], 0), f);
      SumAppend(rest, below, f);
      SumAppend([q[0]], QueueOrder(q[1..] + SubHubs(q[0], 0)), f);
      SumAppend([q[0]] + below, rest, f);
      SumAppend([q[0]], below, f);
    }
  }

  ghost function Occurs<T>(s: seq<T>, x: T): nat {
    if s == [] then 0 else (if s[0] == x then 1 else 0) + Occurs(s[1..], x)
  }

  lemma {:induction false} OccursAppend<T>(a: seq<T>, b: seq<T>, x: T)
    ensures Occurs(a + b, x) == Occurs(a, x) + Occurs(b, x)
    decreases |a|
  {
    if a == [] {
      assert a + b == b;
    } else {
      OccursAppend(a[1..], b, x);
      assert (a + b)[1..] == a[1..] + b;
    }
  }

  lemma {:induction false} SumOfOnes(q: seq<Hub>, f: Hub -> nat)
    requires forall h :: f(h) == 1
    ensures Sum(q, f) == |q|
  {
    if q != [] {
      SumOfOnes(q[1..], f);
    }
  }

  lemma {:induction false} SumOfMatches(q: seq<Hub>, x: Hub, f: Hub -> nat)
    requires forall h :: f(h) == if h == x then 1 else 0
    ensures Sum(q, f) == Occurs(q, x)
  {
    if q != [] {
      SumOfMatches(q[1..], x, f);
    }
  }

  /** Every hub of the tree as often as it hangs there. */
  lemma {:induction false} VisitsEachHubOnce(root: Hub, x: Hub)
    ensures |LevelOrder([root])| == |Forest([root])|
    ensures Occurs(LevelOrder([root]), x) == Occurs(Forest([root]), x)
  {
    QueueIsLevelOrder([root]);
    var one: Hub -> nat, match_: Hub -> nat := h => 1, h => if h == x then 1 else 0;
    QueueSum([root], one);
    QueueSum([root], match_);
    SumOfOnes(LevelOrder([root]), one);
    SumOfOnes(Forest([root]), one);
    SumOfMatches(LevelOrder([root]), x, match_);
    SumOfMatches(Forest([root]), x, match_);
  }

  /** What a walk over some hubs dumps. */
  function Dumped(q: seq<Hub>): seq<Device> {
    if q == [] then [] else Attached(q[0], 0) + Dumped(q[1..])
  }

  lemma {:induction false} DumpedAppend(a: seq<Hub>, b: seq<Hub>)
    ensures Dumped(a + b) == Dumped(a) + Dumped(b)
    decreases |a|
  {
    if a == [] {
      assert a + b == b;
    } else {
      DumpedAppend(a[1..], b);
      assert (a + b)[1..] == a[1..] + b;
    }
  }

  lemma {:induction false} SumOfAttached(q: seq<Hub>, d: Device, f: Hub -> nat)
    requires forall h: Hub :: f(h) == Occurs(Attached(h, 0), d)
    ensures Sum(q, f) == Occurs(Dumped(q), d)
  {
    if q != [] {
      SumOfAttached(q[1..], d, f);
      OccursAppend(Attached(q[0], 0), Dumped(q[1..]), d);
    }
  }

  /** Depth first, the hubs below some ports have the devices below them attached, those at
      the ports themselves apart. */
  lemma {:induction false} DevicesOfHubs(h: Hub, i: nat, d: Device)
    requires i <= |h.devices|
    ensures Occurs(DevicesBelow(h, i), d) == Occurs(Attached(h, i), d) + Occurs(Dumped(HubsBelow(h, i)), d)
    decreases h, |h.devices| - i
  {
    if i < |h.devices| {
      DevicesOfHubs(h, i + 1, d);
      var here := h.devices[i];
      if here.HubDevice? {
        DevicesOfHubs(here.hub, 0, d);
        var below := HubsBelow(here.hub, 0);
        OccursAppend([here] + DevicesBelow(here.hub, 0), DevicesBelow(h, i + 1), d);
        OccursAppend([here], DevicesBelow(here.hub, 0), d);
        DumpedAppend([here.hub] + below, HubsBelow(h, i + 1));
        DumpedAppend([here.hub], below);
        OccursAppend(Dumped([here.hub] + below), Dumped(HubsBelow(h, i + 1)), d);
        OneDumped(here.hub);
        OccursAppend(Attached(here.hub, 0), Dumped(below), d);
      } else {
        NoHubAt(h, i);
        if here.OtherDevice? {
          OccursAppend([here], DevicesBelow(h, i + 1), d);
        } else {
          assert DevicesBelow(h, i) == DevicesBelow(h, i + 1);
        }
      }
      AttachedOccurs(h, i, d);
    }
  }

  lemma {:induction false} OneDumped(h: Hub)
    ensures Dumped([h]) == Attached(h, 0)
  {
    assert [h][1..] == [];
  }

  lemma {:induction false} AttachedOccurs(h: Hub, i: nat, d: Device)
    requires i < |h.devices|
    ensures Occurs(Attached(h, i), d) ==
            (if !h.devices[i].NoDevice? && h.devices[i] == d then 1 else 0) + Occurs(Attached(h, i + 1), d)
  {
    if h.devices[i].NoDevice? {
      assert Attached(h, i) == Attached(h, i + 1);
    } else {
      OccursAppend([h.devices[i]], Attached(h, i + 1), d);
    }
  }

  /** Dumping level by level dumps every attached device of the tree exactly once. */
  lemma {:induction false} DumpsEachDeviceOnce(root: Hub, d: Device)
    ensures Occurs(Dumped(LevelOrder([root])), d) == Occurs(DevicesBelow(root, 0), d)
  {
    var f: Hub -> nat := h => Occurs(Attached(h, 0), d);
    QueueIsLevelOrder([root]);
    QueueSum([root], f);
    SumOfAttached(LevelOrder([root]), d, f);
    SumOfAttached(Forest([root]), d, f);
    DevicesOfHubs(root, 0, d);
    assert Forest([root]) == [root] + HubsBelow(root, 0);
    DumpedAppend([root], HubsBelow(root, 0));
    OneDumped(root);
    OccursAppend(Attached(root, 0), Dumped(HubsBelow(root, 0)), d);
  }

  // ---------------------------------------------------------------- the walk

  /** Popped hubs, the queue, and hubs still to be pushed make up the whole order; once a push
      was dropped, what was pushed is only a beginning of it. */
  ghost predicate Progress(order: seq<Hub>, history: seq<Hub>, head: nat, pending: seq<Hub>)
    requires head <= |history|
  {
    || order == history[..head] + QueueOrder(history[head..] + pending)
    || (|history| == SLOTS - 1 && |history| < |order| && history == order[..|history|])
  }

  lemma {:induction false} ProgressPop(order: seq<Hub>, history: seq<Hub>, head: nat)
    requires head < |history| && Progress(order, history, head, [])
    ensures Progress(order, history, head + 1, SubHubs(history[head], 0))
  {
    var q := history[head..];
    assert q + [] == q && q[1..] == history[head + 1..];
    assert history[..head] + [q[0]] == history[..head + 1];
  }

  /** What a push leaves of the history. */
  ghost function Pushed(history: seq<Hub>, hub: Hub): seq<Hub> {
    if |history| < SLOTS - 1 then history + [hub] else history
  }

  lemma {:induction false} ProgressPush(order: seq<Hub>, history: seq<Hub>, head: nat, hub: Hub, pending: seq<Hub>)
    requires head <= |history| < SLOTS && Progress(order, history, head, [hub] + pending)
    ensures Progress(order, Pushed(history, hub), head, pending)
    ensures Pushed(history, hub)[..head] == history[..head]
  {
    if |history| == SLOTS - 1 {
      ProgressDrop(order, history, head, hub, pending);
    } else {
      assert (history + [hub])[..head] == history[..head];
      assert (history + [hub])[head..] + pending == history[head..] + ([hub] + pending);
    }
  }

  lemma {:induction false} ProgressDrop(order: seq<Hub>, history: seq<Hub>, head: nat, hub: Hub, pending: seq<Hub>)
    requires head <= |history| == SLOTS - 1 && Progress(order, history, head, [hub] + pending)
    ensures Progress(order, history, head, pending)
  {
    var q := history[head..] + ([hub] + pending);
    if order == history[..head] + QueueOrder(q) {
      QueueStartsWith(q);
      var n := |history|;
      assert order[..n] == history[..head] + QueueOrder(q)[..n - head];
      assert QueueOrder(q)[..n - head] == q[..n - head] == history[head..];
      assert history[..head] + history[head..] == history;
    }
  }

  /** The inner loop: everything attached to one hub is dumped, hubs are queued. */
  method DumpPorts(traversal: Traversal, hub: Hub, dumped: seq<Device>, ghost order: seq<Hub>)
    returns (r: seq<Device>)
    requires traversal.Valid() && Progress(order, traversal.history, traversal.head, SubHubs(hub, 0))
    modifies traversal, traversal.hubs
    ensures traversal.Valid() && traversal.head == old(traversal.head)
    ensures traversal.history[..traversal.head] == old(traversal.history[..traversal.head])
    ensures Progress(order, traversal.history, traversal.head, [])
    ensures r == dumped + Attached(hub, 0)
  {
    r := dumped;
    for i := 0 to |hub.devices|
      invariant traversal.Valid() && traversal.head == old(traversal.head)
      invariant traversal.history[..traversal.head] == old(traversal.history[..traversal.head])
      invariant Progress(order, traversal.history, traversal.head, SubHubs(hub, i))
      invariant r + Attached(hub, i) == dumped + Attached(hub, 0)
    {
      if !hub.devices[i].HubDevice? {
        NoHubAt(hub, i);
      }
      if !hub.devices[i].NoDevice? {
        r := r + [hub.devices[i]];
        if hub.devices[i].HubDevice? {
          ProgressPush(order, traversal.history, traversal.head, hub.devices[i].hub, SubHubs(hub, i + 1));
          traversal.Push(hub.devices[i].hub);
        }
      }
    }
  }

  /** The hubs the walk gets to before the queue is full. */
  function Visited(order: seq<Hub>): seq<Hub> {
    if |order| < SLOTS then order else order[..SLOTS - 1]
  }

  /** The hubs whose push is dropped, with what hangs off them. */
  function Dropped(order: seq<Hub>): seq<Hub> {
    if |order| < SLOTS then [] else order[SLOTS - 1..]
  }

  lemma {:induction false} DumpedOneMore(q: seq<Hub>, n: nat)
    requires n < |q|
    ensures Dumped(q[..n + 1]) == Dumped(q[..n]) + Attached(q[n], 0)
  {
    assert q[..n + 1] == q[..n] + [q[n]];
    DumpedAppend(q[..n], [q[n]]);
    OneDumped(q[n]);
  }

  lemma {:induction false} ProgressStart(root: Hub)
    ensures Progress(LevelOrder([root]), [root], 0, [])
  {
    QueueIsLevelOrder([root]);
    assert [root][0..] + [] == [root];
  }

  lemma {:induction false} ProgressEnd(order: seq<Hub>, history: seq<Hub>)
    requires |history| < SLOTS && Progress(order, history, |history|, [])
    ensures history[..|history|] == Visited(order)
  {
    assert history[|history|..] + [] == [] && history[..|history|] == history;
  }

  /** bl_usb_dump_host_controller_devices: dumps what hangs off the first 126 hubs of the tree
      in breadth-first order. */
  method DumpDevices(root: Hub) returns (dumped: seq<Device>)
    ensures dumped == Dumped(Visited(LevelOrder([root])))
  {
    ghost var order := LevelOrder([root]);
    ProgressStart(root);
    var traversal := new Traversal();
    traversal.Push(root);
    dumped := [];
    while !traversal.IsEmpty()
      invariant traversal.Valid() && fresh(traversal) && fresh(traversal.hubs)
      invariant Progress(order, traversal.history, traversal.head, [])
      invariant dumped == Dumped(traversal.history[..traversal.head])
      decreases SLOTS - traversal.head
    {
      ProgressPop(order, traversal.history, traversal.head);
      DumpedOneMore(traversal.history, traversal.head);
      var hub := traversal.Pop();
      dumped := DumpPorts(traversal, hub.value, dumped, order);
    }
    ProgressEnd(order, traversal.history);
  }

  /** The walk visits every hub of the tree if and only if there are at most 126. */
  lemma {:induction false} VisitsAllExactly(root: Hub)
    ensures Visited(LevelOrder([root])) == LevelOrder([root]) <==> |Forest([root])| < SLOTS
  {
    VisitsEachHubOnce(root, root);
  }

  lemma {:induction false} NothingDumped(q: seq<Hub>)
    ensures Dumped(q) == [] <==> forall k :: 0 <= k < |q| ==> Attached(q[k], 0) == []
  {
    if q != [] {
      NothingDumped(q[1..]);
      assert forall k :: 0 < k < |q| ==> q[k] == q[1..][k - 1];
      assert (forall k :: 0 <= k < |q| ==> Attached(q[k], 0) == []) <==>
        Attached(q[0], 0) == [] && forall k :: 0 <= k < |q[1..]| ==> Attached(q[1..][k], 0) == [];
    }
  }

  /** The dump lacks exactly what hangs off the hubs that were dropped. */
  lemma {:induction false} DumpLacks(root: Hub, d: Device)
    ensures var order := LevelOrder([root]);
      Occurs(DevicesBelow(root, 0), d) == Occurs(Dumped(Visited(order)), d) + Occurs(Dumped(Dropped(order)), d)
  {
    var order := LevelOrder([root]);
    DumpsEachDeviceOnce(root, d);
    assert order == Visited(order) + Dropped(order);
    DumpedAppend(Visited(order), Dropped(order));
    OccursAppend(Dumped(Visited(order)), Dumped(Dropped(order)), d);
  }

  /** A device is dumped as often as it hangs in the tree. */
  ghost predicate DumpedAsAttached(root: Hub, d: Device) {
    Occurs(Dumped(Visited(LevelOrder([root]))), d) == Occurs(DevicesBelow(root, 0), d)
  }

  /** Every device is dumped as often as it hangs in the tree if and only if the hubs beyond the
      126th have nothing attached. */
  lemma {:induction false} DumpedCompletelyExactly(root: Hub)
    ensures (forall d :: DumpedAsAttached(root, d)) <==>
            (forall k :: 0 <= k < |Dropped(LevelOrder([root]))| ==> Attached(Dropped(LevelOrder([root]))[k], 0) == [])
  {
    var dropped := Dropped(LevelOrder([root]));
    var rest := Dumped(dropped);
    NothingDumped(dropped);
    if rest == [] {
      forall d
        ensures DumpedAsAttached(root, d)
      {
        DumpLacks(root, d);
        assert Occurs(rest, d) == 0;
      }
    } else {
      DumpLacks(root, rest[0]);
      assert !DumpedAsAttached(root, rest[0]);
    }
  }

  /** In particular a tree of at most 126 hubs is dumped completely. */
  lemma {:induction false} SmallTreeDumpedCompletely(root: Hub, d: Device)
    requires |Forest([root])| < SLOTS
    ensures DumpedAsAttached(root, d)
  {
    VisitsAllExactly(root);
    DumpsEachDeviceOnce(root, d);
  }
}
