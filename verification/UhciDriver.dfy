// The transfer operations of the UHCI driver, boot-loader/modules/usb/uhci/uhci.c.

module UhciDriver {
  import opened UhciPool
  import opened PoolOwners
  import opened UsbPackets
  import opened Wrappers

  datatype Status = Success | ShouldCheckStatus | NotFinished

  /** The status bit of a descriptor still to be executed. */
  const ACTIVE: nat := 0x80_0000

  /** What the controller makes of the pools before the driver looks for the n-th time. */
  type Environment = (nat, seq<Td>, seq<Qh>) -> (seq<Td>, seq<Qh>)

  ghost predicate Obedient(env: Environment) {
    forall n, tds, qhs :: HardwareStep(tds, qhs, env(n, tds, qhs).0, env(n, tds, qhs).1)
  }

  class Uhci {
    const tds: array<Td>
    const qhs: array<Qh>
    ghost var g: Owners

    ghost function Now(): State
      reads this, tds, qhs
    {
      State(tds[..], qhs[..], g)
    }

    ghost predicate Valid()
      reads this, tds, qhs
    {
      Sound(Now())
    }

    /** Nothing is under construction. */
    ghost predicate Idle()
      reads this, tds, qhs
    {
      Valid() && g.openQh == None
    }

    /** bl_uhci_init_data_structures. The loop over the queue heads leaves out the last one,
        whose `used` is whatever the heap held. */
    constructor ()
      ensures Idle() && g.live == map[] && g.lostQhs <= {NUM_QH - 1}
      ensures fresh(tds) && fresh(qhs)
      ensures forall q :: 0 <= q < NUM_QH - 1 ==> qhs[q] == Qh(false, Element(true, None), qhs[q].original)
      ensures forall t :: 0 <= t < NUM_TD ==> !tds[t].used
    {
      tds := new Td[NUM_TD];
      qhs := new Qh[NUM_QH];
      new;
      for i := 0 to NUM_QH - 1
        invariant forall q :: 0 <= q < i ==> qhs[q] == Qh(false, Element(true, None), qhs[q].original)
      {
        qhs[i] := qhs[i].(element := Element(true, None), used := false);
      }
      for i := 0 to NUM_TD
        invariant forall q :: 0 <= q < NUM_QH - 1 ==> qhs[q] == Qh(false, Element(true, None), qhs[q].original)
        invariant forall t :: 0 <= t < i ==> !tds[t].used
      {
        tds[i] := tds[i].(used := false);
      }
      g := Owners(seq(NUM_TD, _ => Free), map[], [], None, if qhs[NUM_QH - 1].used then {NUM_QH - 1} else {});
      forall t: nat | t < NUM_TD
        ensures TdOk(tds[..], g, t)
      {
      }
    }

    /** bl_uhci_alloc_qh: the first queue head not in use. */
    method AllocQh() returns (r: Option<nat>)
      requires Idle()
      modifies this`g, qhs
      ensures Valid()
      ensures match r
        case None => Now() == old(Now()) && forall q :: 0 <= q < NUM_QH ==> qhs[q].used
        case Some(q) => Enabled(old(Now()), Take(q)) && Now() == Apply(old(Now()), Take(q))
    {
      for i := 0 to NUM_QH
        invariant Now() == old(Now()) && forall q :: 0 <= q < i ==> qhs[q].used
      {
        if !qhs[i].used {
          StepKeeps(Now(), Take(i));
          qhs[i] := qhs[i].(used := true);
          g := Opened(g, i);
          assert qhs[..] == old(qhs[..])[i := old(qhs[..])[i].(used := true)];
          return Some(i);
        }
      }
      r := None;
    }

    /** bl_uhci_alloc_td: the first transfer descriptor not in use. */
    method AllocTd() returns (r: Option<nat>)
      requires tds.Length == NUM_TD
      modifies tds
      ensures match r
        case None => tds[..] == old(tds[..]) && forall t :: 0 <= t < NUM_TD ==> tds[t].used
        case Some(t) =>
          && t < NUM_TD && !old(tds[t]).used
          && tds[..] == old(tds[..])[t := old(tds[t]).(used := true)]
    {
      for i := 0 to NUM_TD
        invariant tds[..] == old(tds[..]) && forall t :: 0 <= t < i ==> tds[t].used
      {
        if !tds[i].used {
          tds[i] := tds[i].(used := true);
          return Some(i);
        }
      }
      r := None;
    }

    /** bl_uhci_init_td; the status word starts out active. */
    method InitTd(desc: Desc) returns (r: Option<nat>)
      requires tds.Length == NUM_TD
      modifies tds
      ensures match r
        case None => tds[..] == old(tds[..])
        case Some(t) =>
          && t < NUM_TD && !old(tds[t]).used && tds[t] == Td(true, Terminate, desc, ACTIVE)
          && tds[..] == old(tds[..])[t := tds[t]]
    {
      r := AllocTd();
      if r.Some? {
        tds[r.value] := tds[r.value].(link := Terminate, status := ACTIVE, desc := desc);
      }
    }

    /** A new descriptor behind the previous one of the chain under construction. */
    method AppendTd(desc: Desc, prev: Option<nat>) returns (r: Option<nat>)
      requires Valid() && g.openQh.Some?
      requires prev == if g.open == [] then None else Some(g.open[|g.open| - 1])
      modifies this`g, tds
      ensures Valid()
      ensures match r
        case None => Now() == old(Now())
        case Some(t) =>
          && t < NUM_TD && Enabled(old(Now()), Append(t, Td(true, Terminate, desc, ACTIVE)))
          && Now() == Apply(old(Now()), Append(t, Td(true, Terminate, desc, ACTIVE)))
    {
      ghost var s := Now();
      r := InitTd(desc);
      if r.Some? {
        var t := r.value;
        ghost var a := Append(t, Td(true, Terminate, desc, ACTIVE));
        StepKeeps(s, a);
        if prev.Some? {
          tds[prev.value] := tds[prev.value].(link := To(t));
        }
        g := Grown(g, t);
        assert tds[..] == Appended(s.tds, s.g.open, t, a.td);
      }
    }

    /** A construction that failed: nobody will free what it took. */
    ghost method GiveUp()
      requires Valid() && g.openQh.Some?
      modifies this`g
      ensures Idle() && Now() == Apply(old(Now()), Abandon)
    {
      StepKeeps(Now(), Abandon);
      g := Abandoned(g);
    }

    /** The chain goes to its queue head. */
    method StartTransfer(q: nat, head: nat)
      requires Valid() && g.openQh == Some(q) && g.open != [] && head == g.open[0]
      modifies this`g, qhs
      ensures Idle() && Now() == Apply(old(Now()), Start(Element(false, Some(head))))
    {
      ghost var s := Now();
      StepKeeps(s, Start(Element(false, Some(head))));
      assert QhOk(qhs[..], g, q);
      qhs[q] := qhs[q].(element := Element(false, Some(head)), original := head);
      g := Started(g);
      assert qhs[..] == s.qhs[q := Qh(true, Element(false, Some(head)), head)];
    }

    /** The chain under construction holds this work and ends with this descriptor. */
    ghost predicate Queued(s0: State, q: nat, work: seq<Desc>, last: Option<nat>)
      reads this, tds, qhs
    {
      && Building(s0, Now(), q, work)
      && last == if g.open == [] then None else Some(g.open[|g.open| - 1])
    }

    /** One more packet; without a free descriptor the whole construction fails. */
    method QueuePacket(desc: Desc, prev: Option<nat>, ghost s0: State, ghost q: nat, ghost work: seq<Desc>)
      returns (td: Option<nat>)
      requires Queued(s0, q, work, prev)
      modifies this`g, tds
      ensures td == None ==> Idle() && g.live == s0.g.live
      ensures td != None ==> Queued(s0, q, work + [desc], td) && g.open == old(g.open) + [td.value]
    {
      ghost var s := Now();
      td := AppendTd(desc, prev);
      if td == None {
        GiveUp();
      } else {
        BuildMore(s0, s, q, work, td.value, Td(true, Terminate, desc, ACTIVE));
      }
    }

    /** One round of a data loop: the packet for what lies at `at`, the rest is still to come. */
    method QueueData(d: Desc, at: nat, left: nat, size: nat, prev: Option<nat>, ghost s0: State, ghost q: nat,
                     ghost done: seq<Desc>, ghost total: seq<Desc>, ghost after: bool)
      returns (td: Option<nat>, next: Desc, at1: nat, left1: int, ghost done1: seq<Desc>)
      requires left > 0 && size > 0 && Queued(s0, q, done, prev) && OnCourse(d, at, left, size, done, total, after)
      modifies this`g, tds
      ensures td == None ==> Idle() && g.live == s0.g.live
      ensures td != None ==> Queued(s0, q, done1, td) && done1 != [] && g.open == old(g.open) + [td.value]
      ensures left1 == left - size && OnCourse(next, at1, left1, size, done1, total, after)
    {
      NextOnCourse(d, at, left, size, done, total, after);
      var packet := d.(size := Min(left, size), buffer := at);
      td := QueuePacket(packet, prev, s0, q, done);
      next, at1, left1 := d.(toggle := !d.toggle), at + size, left - size;
      done1 := done + [packet];
    }

    /** The data stage of a control transfer. */
    method ControlData(d: Desc, data: nat, length: nat, size: nat, setup: nat, ghost s0: State, ghost q: nat,
                       ghost work: seq<Desc>) returns (td: Option<nat>)
      requires size > 0 && Queued(s0, q, work, Some(setup)) && work != [] && d.toggle
      modifies this`g, tds
      ensures td == None ==> Idle() && g.live == s0.g.live
      ensures td != None ==> Queued(s0, q, work + DataPackets(d, data, length, size), td)
      ensures td != None ==> g.open != [] && g.open[0] == old(g.open)[0]
    {
      var next, at: nat, left: int := d, data, length;
      td := Some(setup);
      ghost var done, total := work, work + DataPackets(d, data, length, size);
      ghost var after := ToggleAfter(d.toggle, length, size);
      while left > 0
        invariant td != None && Queued(s0, q, done, td) && done != [] && g.open[0] == old(g.open)[0]
        invariant OnCourse(next, at, left, size, done, total, after)
        decreases left
      {
        td, next, at, left, done := QueueData(next, at, left, size, td, s0, q, done, total, after);
        if td == None {
          return;
        }
      }
      CourseEnds(next, at, left, size, done, total, after);
    }

    /** bl_uhci_control_transfer up to the start of the transfer. */
    method ControlSubmit(d: Desc, setup: nat, dataPid: Pid, data: nat, length: nat, packetSize: nat)
      returns (r: Option<nat>)
      requires Idle()
      modifies this`g, tds, qhs
      ensures Idle()
      ensures match r
        case None => g.live == old(g.live)
        case Some(q) => Submitted(old(Now()), Now(), q, ControlPackets(d, setup, dataPid, data, length, packetSize))
    {
      ghost var s0 := Now();
      var size := if packetSize == 0 then 8 else packetSize;
      r := AllocQh();
      if r == None {
        return;
      }
      var q := r.value;
      BuildStart(s0, q);
      var first := d.(pid := Setup, toggle := false, size := 8, buffer := setup);
      var head := QueuePacket(first, None, s0, q, []);
      if head == None {
        return None;
      }
      var stage := d.(pid := dataPid, toggle := true);
      var td := ControlData(stage, data, length, size, head.value, s0, q, [first]);
      if td == None {
        return None;
      }
      var last := d.(pid := StatusPid(dataPid), toggle := true, size := 0, buffer := 0);
      ghost var work := [first] + DataPackets(stage, data, length, size);
      td := QueuePacket(last, td, s0, q, work);
      if td == None {
        return None;
      }
      BuildDone(s0, Now(), q, work + [last], Element(false, head));
      StartTransfer(q, head.value);
    }

    /** The data packets of a bulk or interrupt transfer. */
    method BulkData(d: Desc, data: nat, length: nat, size: nat, ghost s0: State, ghost q: nat)
      returns (head: Option<nat>, toggle: bool)
      requires size > 0 && length > 0 && Queued(s0, q, [], None)
      modifies this`g, tds
      ensures head == None ==> Idle() && g.live == s0.g.live
      ensures head != None ==> g.open != [] && head == Some(g.open[0]) && toggle == ToggleAfter(d.toggle, length, size)
      ensures head != None ==> Building(s0, Now(), q, DataPackets(d, data, length, size))
    {
      var next, at: nat, left: int := d, data, length;
      var td: Option<nat> := None;
      head := None;
      ghost var done: seq<Desc>, total := [], DataPackets(d, data, length, size);
      ghost var after := ToggleAfter(d.toggle, length, size);
      while left > 0
        invariant Queued(s0, q, done, td) && head == (if g.open == [] then None else Some(g.open[0]))
        invariant left <= 0 ==> done != []
        invariant OnCourse(next, at, left, size, done, total, after)
        decreases left
      {
        td, next, at, left, done := QueueData(next, at, left, size, td, s0, q, done, total, after);
        if td == None {
          return None, d.toggle;
        }
        if head == None {
          head := td;
        }
      }
      toggle := next.toggle;
      CourseEnds(next, at, left, size, done, total, after);
    }

    /** bl_uhci_bulk_interrupt_transfers; its callers filter out empty transfers. The endpoint's
        toggle moves on only when the transfer is started. */
    method BulkInterruptSubmit(d: Desc, data: nat, length: nat, packetSize: nat)
      returns (r: Option<nat>, toggle: bool)
      requires Idle() && length > 0 && packetSize > 0
      modifies this`g, tds, qhs
      ensures Idle()
      ensures match r
        case None => g.live == old(g.live) && toggle == d.toggle
        case Some(q) =>
          && Submitted(old(Now()), Now(), q, DataPackets(d, data, length, packetSize))
          && toggle == ToggleAfter(d.toggle, length, packetSize)
    {
      ghost var s0 := Now();
      r := AllocQh();
      if r == None {
        return None, d.toggle;
      }
      var q := r.value;
      BuildStart(s0, q);
      var head;
      head, toggle := BulkData(d, data, length, packetSize, s0, q);
      if head == None {
        return None, d.toggle;
      }
      BuildDone(s0, Now(), q, DataPackets(d, data, length, packetSize), Element(false, head));
      StartTransfer(q, head.value);
    }

    /** bl_uhci_free_td_list: follows the links and clears the marks. */
    method FreeTdList(head: nat, ghost chain: seq<nat>)
      requires chain != [] && chain[0] == head && Linked(tds[..], chain)
      modifies tds
      ensures tds[..] == Unmarked(old(tds[..]), chain)
    {
      var td := head;
      ghost var i: nat := 0;
      while true
        invariant i < |chain| && td == chain[i] < tds.Length && Linked(tds[..], chain)
        invariant tds[..] == Unmarked(old(tds[..]), chain[..i])
        decreases |chain| - i
      {
        assert chain[..i + 1][..i] == chain[..i];
        ghost var before := tds[..];
        tds[td] := tds[td].(used := false);
        assert tds[..] == before[td := before[td].(used := false)];
        if tds[td].link == Terminate {
          break;
        }
        td := tds[td].link.td;
        i := i + 1;
      }
      assert chain[..i + 1] == chain;
    }

    /** bl_uhci_transfer_finished, for a transfer in flight. */
    method TransferFinished(q: nat) returns (status: Status)
      requires Idle() && q in g.live
      modifies this`g, tds, qhs
      ensures Idle()
      ensures status == if !old(qhs[..])[q].element.terminate then NotFinished
                        else if old(qhs[..])[q].element.pointer != None then ShouldCheckStatus else Success
      ensures Now() == if status == Success then Apply(old(Now()), Finish(q)) else old(Now())
    {
      assert QhOk(qhs[..], g, q);
      if qhs[q].element.terminate {
        if qhs[q].element.pointer != None {
          return ShouldCheckStatus;
        }
        ghost var s := Now();
        StepKeeps(s, Finish(q));
        InFlightLinked(s, q);
        FreeTdList(qhs[q].original, g.live[q]);
        qhs[q] := qhs[q].(used := false);
        g := Finished(g, q);
        assert qhs[..] == s.qhs[q := s.qhs[q].(used := false)];
        return Success;
      }
      status := NotFinished;
    }

    /** The controller moves. */
    method Wait(env: Environment, n: nat)
      requires Valid() && Obedient(env)
      modifies tds, qhs
      ensures Valid()
      ensures var r := env(n, old(tds[..]), old(qhs[..]));
        Enabled(old(Now()), Controller(r.0, r.1)) && Now() == Apply(old(Now()), Controller(r.0, r.1))
    {
      ghost var s := Now();
      var r := env(n, tds[..], qhs[..]);
      StepKeeps(s, Controller(r.0, r.1));
      for i := 0 to tds.Length
        invariant forall t :: 0 <= t < i ==> tds[t] == r.0[t]
      {
        tds[i] := r.0[i];
      }
      for i := 0 to qhs.Length
        invariant forall t :: 0 <= t < tds.Length ==> tds[t] == r.0[t]
        invariant forall q :: 0 <= q < i ==> qhs[q] == r.1[q]
      {
        qhs[i] := r.1[i];
      }
      assert tds[..] == r.0 && qhs[..] == r.1;
    }

    /** The polling loop of bl_uhci_check_transfer_timeout; false stands for every outcome that
        leaves the transfer in flight, whatever status is then made of it. */
    method WaitForTransfer(q: nat, timeout: nat, env: Environment) returns (finished: bool)
      requires Idle() && q in g.live && timeout > 0 && Obedient(env)
      modifies this`g, tds, qhs
      ensures Idle() && SameMarks(old(Now()), Now(), if finished then old(g.live)[q] else [], q, finished)
      ensures g.live == if finished then old(g.live) - {q} else old(g.live)
    {
      var left := timeout;
      while true
        invariant Idle() && q in g.live && 0 < left
        invariant g == old(g) && SameMarks(old(Now()), Now(), [], q, false)
        decreases left
      {
        left := left - 1;
        if left == 0 {
          break;
        }
        ghost var s := Now();
        var status := TransferFinished(q);
        if status == Success {
          MarksAfterFinish(old(Now()), s, q);
          return true;
        } else if status == ShouldCheckStatus {
          break;
        }
        Wait(env, left);
      }
      finished := false;
    }

    /** bl_uhci_control_transfer. None: a pool ran out. A transfer that finishes leaves both pools
        marked as they were before it. */
    method ControlTransfer(d: Desc, setup: nat, dataPid: Pid, data: nat, length: nat, packetSize: nat, env: Environment)
      returns (finished: Option<bool>)
      requires Idle() && Obedient(env)
      modifies this`g, tds, qhs
      ensures Idle()
      ensures finished == None ==> g.live == old(g.live)
      ensures finished == Some(true) ==> g.live == old(g.live)
      ensures finished == Some(true) ==> SameMarks(old(Now()), Now(), [], 0, false)
      ensures finished == Some(false) ==>
        exists q :: q in g.live && q !in old(g.live) && g.live == old(g.live)[q := g.live[q]]
    {
      ghost var s0 := Now();
      var q := ControlSubmit(d, setup, dataPid, data, length, packetSize);
      if q == None {
        return None;
      }
      ghost var s := Now();
      var done := WaitForTransfer(q.value, 100, env);
      if done {
        MarksRestored(s0, s, Now(), q.value, ControlPackets(d, setup, dataPid, data, length, packetSize));
      }
      finished := Some(done);
    }
  }

  ghost predicate Linked(tds: seq<Td>, chain: seq<nat>) {
    forall i :: 0 <= i < |chain| ==> chain[i] < |tds| && tds[chain[i]].link == LinkAt(chain, i)
  }

  lemma {:induction false} InFlightLinked(s: State, q: nat)
    requires Sound(s) && q in s.g.live
    ensures Linked(s.tds, s.g.live[q])
  {
    var chain := s.g.live[q];
    assert OwnsAll(s.g.place, chain, q);
    forall i | 0 <= i < |chain|
      ensures chain[i] < |s.tds| && s.tds[chain[i]].link == LinkAt(chain, i)
    {
      assert TdOk(s.tds, s.g, chain[i]);
    }
  }

  /** The marks of two states agree, but for a chain and a queue head given back in between. */
  ghost predicate SameMarks(s: State, s': State, chain: seq<nat>, q: nat, given: bool) {
    && |s.tds| == |s'.tds| && |s.qhs| == |s'.qhs|
    && (forall t: nat :: t < |s.tds| ==> s'.tds[t].used == (s.tds[t].used && t !in chain))
    && (forall r: nat :: r < |s.qhs| ==> s'.qhs[r].used == (s.qhs[r].used && !(given && r == q)))
  }

  lemma {:induction false} MarksAfterFinish(s0: State, s: State, q: nat)
    requires Sound(s) && q in s.g.live && SameMarks(s0, s, [], q, false)
    ensures SameMarks(s0, Apply(s, Finish(q)), s.g.live[q], q, true)
  {
    assert OwnsAll(s.g.place, s.g.live[q], q);
  }

  lemma {:induction false} MarksRestored(s0: State, s: State, s': State, q: nat, work: seq<Desc>)
    requires Submitted(s0, s, q, work) && SameMarks(s, s', s.g.live[q], q, true)
    ensures SameMarks(s0, s', [], 0, false)
    ensures s.g.live - {q} == s0.g.live
  {
  }

  /** Descriptors outside the chain are as before, those of the chain were free before. */
  ghost predicate TookOnly(tds0: seq<Td>, tds: seq<Td>, chain: seq<nat>) {
    && |tds| == |tds0|
    && forall t: nat :: t < |tds0| ==> if t in chain then !tds0[t].used else tds[t] == tds0[t]
  }

  /** A construction for queue head q that began in state s0 and has queued some work. */
  ghost predicate Building(s0: State, s: State, q: nat, work: seq<Desc>) {
    && Sound(s0) && Sound(s) && s.g.openQh == Some(q) && q !in s0.g.live && q < NUM_QH && !s0.qhs[q].used
    && s.g.live == s0.g.live && s.qhs == s0.qhs[q := s0.qhs[q].(used := true)]
    && TookOnly(s0.tds, s.tds, s.g.open) && |s.g.open| == |work|
    && forall i :: 0 <= i < |work| ==> s.g.open[i] < NUM_TD && s.tds[s.g.open[i]].desc == work[i]
  }

  lemma {:induction false} BuildStart(s: State, q: nat)
    requires Sound(s) && Enabled(s, Take(q))
    ensures Building(s, Apply(s, Take(q)), q, [])
  {
    StepKeeps(s, Take(q));
    assert QhOk(s.qhs, s.g, q);
  }

  lemma {:induction false} BuildMore(s0: State, s: State, q: nat, work: seq<Desc>, t: nat, td: Td)
    requires Building(s0, s, q, work) && Enabled(s, Append(t, td))
    ensures Building(s0, Apply(s, Append(t, td)), q, work + [td.desc])
  {
    StepKeeps(s, Append(t, td));
    assert OpenAll(s.g.place, s.g.open);
    assert forall i :: 0 <= i < |s.g.open| ==> TdOk(s.tds, s.g, s.g.open[i]);
  }

  /** A transfer was started: one more chain in flight, over descriptors and a queue head that
      were free, holding the wanted work; its queue head points at the first descriptor. */
  ghost predicate Submitted(s0: State, s: State, q: nat, work: seq<Desc>) {
    && Sound(s0) && q < NUM_QH && !s0.qhs[q].used && q !in s0.g.live && q in s.g.live
    && InFlight(s, q, s.g.live[q], work)
    && s.g.live == s0.g.live[q := s.g.live[q]]
    && TookOnly(s0.tds, s.tds, s.g.live[q])
    && s.g.live[q] != [] && s.qhs == s0.qhs[q := Qh(true, Element(false, Some(s.g.live[q][0])), s.g.live[q][0])]
  }

  lemma {:induction false} BuildDone(s0: State, s: State, q: nat, work: seq<Desc>, element: Element)
    requires Building(s0, s, q, work) && work != [] && element == Element(false, Some(s.g.open[0]))
    ensures Enabled(s, Start(element)) && Submitted(s0, Apply(s, Start(element)), q, work)
  {
    StepKeeps(s, Start(element));
    assert s0.qhs[q := s0.qhs[q].(used := true)][q := Qh(true, element, s.g.open[0])] ==
           s0.qhs[q := Qh(true, element, s.g.open[0])];
  }
}
