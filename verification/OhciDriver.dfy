// The transfer operations of the OHCI driver, boot-loader/modules/usb/ohci/ohci.c.

module OhciDriver {
  import opened OhciPool
  import opened PoolOwners
  import opened UsbPackets
  import opened Wrappers

  datatype Status = Success | ShouldCheckStatus | NotFinished

  /** What the controller makes of the pools before the driver looks for the n-th time. */
  type Environment = (nat, seq<Td>, seq<Ed>) -> (seq<Td>, seq<Ed>)

  ghost predicate Obedient(env: Environment) {
    forall n, tds, eds :: HardwareStep(tds, eds, env(n, tds, eds).0, env(n, tds, eds).1)
  }

  // ---------------------------------------------------------------- what transfers ask for

  function StatusPacket(d: Desc, dataPid: Pid): Desc {
    d.(pid := StatusPid(dataPid), toggle := true, size := 0, buffer := 0)
  }

  /** SETUP, the data packets or a STATUS packet of its own when there is no data, and the STATUS
      packet the tail pointer rests on. */
  function ControlWork(d: Desc, setup: nat, dataPid: Pid, data: nat, length: nat, packetSize: nat): seq<Desc> {
    [d.(pid := Setup, toggle := false, size := 8, buffer := setup)] +
    (if length == 0 then [StatusPacket(d, dataPid)]
     else DataPackets(d.(pid := dataPid, toggle := true), data, length, ControlSize(packetSize))) +
    [StatusPacket(d, dataPid)]
  }

  /** The data packets and the packet the tail pointer rests on, in the other direction. */
  function BulkWork(d: Desc, data: nat, length: nat, packetSize: nat): seq<Desc>
    requires packetSize > 0
  {
    DataPackets(d, data, length, packetSize) +
    [d.(pid := StatusPid(d.pid), toggle := NextToggle(d.toggle, length, packetSize), size := 0, buffer := 0)]
  }

  /** The toggle the endpoint is left with. */
  function NextToggle(toggle: bool, length: nat, packetSize: nat): bool
    requires packetSize > 0
  {
    !ToggleAfter(toggle, length, packetSize)
  }

  /** What a control transfer puts on the ring: eight bytes of the setup data with toggle 0; the data stage,
      or without data an empty STATUS packet; and an empty STATUS packet, which the controller stops
      before. STATUS packets carry toggle 1 and go the other way than the data. */
  lemma {:induction false} ControlWorkIsRight(d: Desc, setup: nat, dataPid: Pid, data: nat, length: nat,
        packetSize: nat)
    ensures var p := ControlWork(d, setup, dataPid, data, length, packetSize);
      var status := Desc(if dataPid == Out then In else Out, d.lowSpeed, d.address, d.endpoint, true, 0, 0);
      && |p| >= 3
      && p[0] == Desc(Setup, d.lowSpeed, d.address, d.endpoint, false, 8, setup)
      && (length == 0 ==> |p| == 3 && p[1] == status)
      && (length > 0 ==> DataStage(p[1..|p| - 1], d, dataPid, data, length, packetSize))
      && p[|p| - 1] == status
      && Alternate(p[..|p| - 1], false)
  {
    var p := ControlWork(d, setup, dataPid, data, length, packetSize);
    if length > 0 {
      DataStageIsRight(d, dataPid, data, length, packetSize);
      var stage := DataPackets(d.(pid := dataPid, toggle := true), data, length, ControlSize(packetSize));
      assert p[1..|p| - 1] == stage;
      assert p[..|p| - 1] == [p[0]] + stage;
    }
  }

  /** What a bulk transfer puts on the ring: packets that tile the buffer and go where d goes, with
      alternating toggles, and an empty packet the other way with the toggle of the last of them. */
  lemma {:induction false} BulkWorkIsRight(d: Desc, data: nat, length: nat, packetSize: nat)
    requires length > 0 && packetSize > 0
    ensures var p := BulkWork(d, data, length, packetSize);
      var n := |p| - 1;
      && n >= 1
      && Tiles(p[..n], data, length, packetSize) && Alternate(p[..n], d.toggle) && SameTarget(p[..n], d)
      && p[n] == Desc(if d.pid == Out then In else Out, d.lowSpeed, d.address, d.endpoint, p[n - 1].toggle, 0, 0)
  {
    var stage := DataPackets(d, data, length, packetSize);
    PacketsAreRight(d, data, length, packetSize);
    PacketsSameTarget(d, data, length, packetSize);
    ToggleGoesOn(d, data, length, packetSize);
    assert BulkWork(d, data, length, packetSize)[..|stage|] == stage;
  }

  /** Because the packet under the tail pointer flips the toggle too, the first packet of the next
      transfer always carries the toggle of the last data packet of this one. */
  lemma {:induction false} BulkToggleRepeats(d: Desc, data: nat, length: nat, next: nat, nextLength: nat,
        packetSize: nat)
    requires packetSize > 0 && length > 0 && nextLength > 0
    ensures var p := DataPackets(d, data, length, packetSize);
      var q := DataPackets(d.(toggle := NextToggle(d.toggle, length, packetSize)), next, nextLength, packetSize);
      p != [] && q != [] && q[0].toggle == p[|p| - 1].toggle
  {
    ToggleGoesOn(d, data, length, packetSize);
    PacketsAreRight(d.(toggle := NextToggle(d.toggle, length, packetSize)), next, nextLength, packetSize);
    PacketsAreRight(d, data, length, packetSize);
  }

  // ---------------------------------------------------------------- rings

  /** The driver-owned links lead round a ring, starting anywhere. */
  ghost predicate Round(tds: seq<Td>, order: seq<nat>) {
    && order != []
    && (forall i :: 0 <= i < |order| ==> order[i] < |tds| && tds[order[i]].original == Some(Onwards(order, i)))
    && (forall i, j :: 0 <= i < j < |order| ==> order[i] != order[j])
  }

  /** Whatever the controller wrote meanwhile, the ring can be walked from its tail. */
  lemma {:induction false} RingFromTail(s: State, e: nat)
    requires Sound(s) && e in s.g.live
    ensures s.g.live[e] != [] && Round(s.tds, FreeOrder(s.g.live[e]))
  {
    var ring := s.g.live[e];
    assert OwnsAll(s.g.place, ring, e) && EdOk(s.eds, s.g, e);
    var order := FreeOrder(ring);
    forall i | 0 <= i < |order|
      ensures order[i] < |s.tds| && s.tds[order[i]].original == Some(Onwards(order, i))
    {
      assert TdOk(s.tds, s.g, order[i]);
    }
    forall i, j | 0 <= i < j < |order|
      ensures order[i] != order[j]
    {
      assert s.g.place[order[i]] != s.g.place[order[j]];
    }
  }

  /** What freeing a ring whose head pointer has reached its tail starts from and leaves. */
  lemma {:induction false} EndOfRing(s: State, e: nat)
    requires Sound(s) && e in s.g.live && e < |s.eds| && s.eds[e].head == s.eds[e].tail
    ensures s.g.live[e] != [] && s.eds[e].head == Some(FreeOrder(s.g.live[e])[0])
    ensures Round(s.tds, FreeOrder(s.g.live[e])) && Sound(Apply(s, Finish(e)))
    ensures Apply(s, Finish(e)) == State(Wiped(s.tds, FreeOrder(s.g.live[e])),
                                         s.eds[e := s.eds[e].(skip := true)], Finished(s.g, e))
  {
    FinishEnds(s, e);
    RingFromTail(s, e);
    assert EdOk(s.eds, s.g, e);
  }

  lemma {:induction false} FinishEnds(s: State, e: nat)
    requires Sound(s) && e in s.g.live && e < |s.eds| && s.eds[e].head == s.eds[e].tail
    ensures s.g.live[e] != [] && Enabled(s, Finish(e)) && Sound(Apply(s, Finish(e)))
    ensures Apply(s, Finish(e)) == State(Wiped(s.tds, FreeOrder(s.g.live[e])),
                                         s.eds[e := s.eds[e].(skip := true)], Finished(s.g, e))
  {
    assert EdOk(s.eds, s.g, e);
    StepKeeps(s, Finish(e));
  }

  /** Descriptors outside the ring are as before, those of the ring were free before. */
  ghost predicate TookOnly(tds0: seq<Td>, tds: seq<Td>, ring: seq<nat>) {
    && |tds| == |tds0|
    && forall t: nat :: t < |tds0| ==> if t in ring then !tds0[t].used else tds[t] == tds0[t]
  }

  /** A construction that began in state s0 and has queued some work. */
  ghost predicate Building(s0: State, s: State, work: seq<Desc>) {
    && Sound(s0) && Sound(s) && s.g.live == s0.g.live && s.eds == s0.eds
    && TookOnly(s0.tds, s.tds, s.g.open) && |s.g.open| == |work|
    && forall i :: 0 <= i < |work| ==> s.g.open[i] < NUM_TD && s.tds[s.g.open[i]].work == work[i]
  }

  lemma {:induction false} BuildMore(s0: State, s: State, work: seq<Desc>, t: nat, td: Td)
    requires Building(s0, s, work) && Enabled(s, Append(t, td))
    ensures Building(s0, Apply(s, Append(t, td)), work + [td.work])
  {
    StepKeeps(s, Append(t, td));
    assert OpenAll(s.g.place, s.g.open);
    assert forall i :: 0 <= i < |s.g.open| ==> TdOk(s.tds, s.g, s.g.open[i]);
  }

  /** A transfer was linked to endpoint e: a ring over descriptors that were free, holding the
      wanted work, with the endpoint's pointers at its ends and the endpoint neither halted nor skipped. */
  ghost predicate Submitted(s0: State, s: State, e: nat, work: seq<Desc>) {
    && Sound(s0) && Sound(s) && e < |s0.eds| && e in s.g.live && |s.g.live[e]| == |work| >= 2
    && s.g.live == s0.g.live[e := s.g.live[e]]
    && TookOnly(s0.tds, s.tds, s.g.live[e])
    && s.eds == s0.eds[e := Ed(Some(s.g.live[e][0]), false, Some(s.g.live[e][|work| - 1]), false)]
    && forall i :: 0 <= i < |work| ==> s.g.live[e][i] < NUM_TD && s.tds[s.g.live[e][i]].work == work[i]
  }

  lemma {:induction false} BuildDone(s0: State, s: State, e: nat, work: seq<Desc>)
    requires Building(s0, s, work) && |work| >= 2 && e < |s0.eds|
    ensures Enabled(s, Start(e)) && Submitted(s0, Apply(s, Start(e)), e, work)
  {
    StepKeeps(s, Start(e));
  }

  // ---------------------------------------------------------------- the driver

  class Ohci {
    const tds: array<Td>
    const eds: array<Ed>
    ghost var g: Owners

    ghost function Now(): State
      reads this, tds, eds
    {
      State(tds[..], eds[..], g)
    }

    ghost predicate Valid()
      reads this, tds, eds
    {
      Sound(Now())
    }

    /** Nothing is under construction. */
    ghost predicate Idle()
      reads this, tds, eds
    {
      Valid() && g.open == []
    }

    /** The pools as bl_ohci_init_data_structures leaves them. */
    constructor (eds: array<Ed>)
      ensures Idle() && g.live == map[] && this.eds == eds && fresh(tds)
      ensures forall t :: 0 <= t < NUM_TD ==> tds[t] == CLEARED
    {
      tds := new Td[NUM_TD];
      this.eds := eds;
      new;
      for i := 0 to NUM_TD
        invariant forall t :: 0 <= t < i ==> tds[t] == CLEARED
      {
        tds[i] := CLEARED;
      }
      g := Owners(seq(NUM_TD, _ => Free), map[], []);
      forall t: nat | t < NUM_TD
        ensures TdOk(tds[..], g, t)
      {
      }
    }

    /** bl_ohci_alloc_general_td and bl_ohci_init_general_td; the driver-owned link keeps what
        the memory held. */
    method InitTd(work: Desc) returns (r: Option<nat>)
      requires tds.Length == NUM_TD
      modifies tds
      ensures match r
        case None => tds[..] == old(tds[..]) && forall t :: 0 <= t < NUM_TD ==> tds[t].used
        case Some(t) =>
          && t < NUM_TD && !old(tds[t]).used && tds[t] == Td(true, old(tds[t]).original, None, work)
          && tds[..] == old(tds[..])[t := tds[t]]
    {
      for i := 0 to NUM_TD
        invariant tds[..] == old(tds[..]) && forall t :: 0 <= t < i ==> tds[t].used
      {
        if !tds[i].used {
          tds[i] := tds[i].(used := true, next := None, work := work);
          return Some(i);
        }
      }
      r := None;
    }

    /** The ring under construction holds this work and ends with this descriptor. */
    ghost predicate Queued(s0: State, work: seq<Desc>, last: Option<nat>)
      reads this, tds, eds
    {
      && Building(s0, Now(), work)
      && last == if g.open == [] then None else Some(g.open[|g.open| - 1])
    }

    /** One more descriptor behind the previous one; without a free one the construction fails
        and what it took is lost. */
    method QueuePacket(work: Desc, prev: Option<nat>, ghost s0: State, ghost done: seq<Desc>)
      returns (td: Option<nat>)
      requires Queued(s0, done, prev)
      modifies this`g, tds
      ensures td == None ==> Idle() && g.live == s0.g.live && eds[..] == s0.eds
      ensures td != None ==> Queued(s0, done + [work], td) && g.open == old(g.open) + [td.value]
    {
      ghost var s := Now();
      td := InitTd(work);
      if td == None {
        StepKeeps(s, Abandon);
        g := Abandoned(g);
      } else {
        var t := td.value;
        ghost var a := Append(t, tds[t]);
        StepKeeps(s, a);
        if prev.Some? {
          tds[prev.value] := tds[prev.value].(original := td, next := td);
        }
        g := Grown(g, t);
        assert tds[..] == Appended(s.tds, s.g.open, t, a.td);
        BuildMore(s0, s, done, t, a.td);
      }
    }

    /** The first descriptor of the ring under construction. */
    ghost predicate Headed(head: Option<nat>)
      reads this
    {
      head == if g.open == [] then None else Some(g.open[0])
    }

    /** One round of a data loop. */
    method QueueRound(d: Desc, at: nat, left: nat, size: nat, prev: Option<nat>, head0: Option<nat>,
                      ghost s0: State, ghost done: seq<Desc>, ghost total: seq<Desc>, ghost after: bool)
      returns (td: Option<nat>, head: Option<nat>, next: Desc, at1: nat, left1: int, ghost done1: seq<Desc>)
      requires left > 0 && size > 0 && Queued(s0, done, prev) && OnCourse(d, at, left, size, done, total, after)
      requires Headed(head0)
      modifies this`g, tds
      ensures td == None ==> Idle() && g.live == s0.g.live && eds[..] == s0.eds
      ensures td != None ==> Queued(s0, done1, td) && Headed(head) && head != None
      ensures left1 == left - size && OnCourse(next, at1, left1, size, done1, total, after)
    {
      NextOnCourse(d, at, left, size, done, total, after);
      var packet := d.(size := Min(left, size), buffer := at);
      td := QueuePacket(packet, prev, s0, done);
      next, at1, left1 := d.(toggle := !d.toggle), at + size, left - size;
      head := if head0 == None then td else head0;
      done1 := done + [packet];
    }

    /** The packets of a data stage behind the previous descriptor, if there is one. */
    method QueueData(d: Desc, data: nat, length: nat, size: nat, prev: Option<nat>, head0: Option<nat>,
                     ghost s0: State, ghost work: seq<Desc>)
      returns (td: Option<nat>, head: Option<nat>, toggle: bool)
      requires size > 0 && length > 0 && Queued(s0, work, prev) && Headed(head0)
      modifies this`g, tds
      ensures td == None ==> Idle() && g.live == s0.g.live && eds[..] == s0.eds
      ensures td != None ==> Queued(s0, work + DataPackets(d, data, length, size), td)
      ensures td != None ==> toggle == ToggleAfter(d.toggle, length, size) && head != None && Headed(head)
    {
      var next, at: nat, left: int := d, data, length;
      td, head := prev, head0;
      ghost var done, total := work, work + DataPackets(d, data, length, size);
      ghost var after := ToggleAfter(d.toggle, length, size);
      while left > 0
        invariant Queued(s0, done, td) && Headed(head) && (left <= 0 ==> td != None && head != None)
        invariant OnCourse(next, at, left, size, done, total, after)
        decreases left
      {
        td, head, next, at, left, done := QueueRound(next, at, left, size, td, head, s0, done, total, after);
        if td == None {
          return None, head, d.toggle;
        }
      }
      toggle := next.toggle;
      CourseEnds(next, at, left, size, done, total, after);
    }

    /** Closes the ring and links it to the endpoint. */
    method LinkTransfer(e: nat, head: nat, last: nat, ghost s0: State, ghost work: seq<Desc>)
      requires Queued(s0, work, Some(last)) && |work| >= 2 && g.open != [] && head == g.open[0] && e < eds.Length
      modifies this`g, tds, eds
      ensures Idle() && Submitted(s0, Now(), e, work)
    {
      ghost var s := Now();
      StepKeeps(s, Start(e));
      BuildDone(s0, s, e, work);
      assert OpenAll(g.place, g.open);
      tds[last] := tds[last].(next := None, original := Some(head));
      eds[e] := Ed(Some(head), false, Some(last), false);
      g := Started(g, e);
      assert tds[..] == Closed(s.tds, s.g.open) && eds[..] == s.eds[e := Linked(s.g.open)];
    }

    /** bl_ohci_control_transfer up to the start of the transfer, on the endpoint descriptor the
        driver picked. */
    method ControlSubmit(e: nat, d: Desc, setup: nat, dataPid: Pid, data: nat, length: nat, packetSize: nat)
      returns (ok: bool)
      requires Idle() && e < eds.Length
      modifies this`g, tds, eds
      ensures Idle()
      ensures if ok then Submitted(old(Now()), Now(), e, ControlWork(d, setup, dataPid, data, length, packetSize))
              else g.live == old(g.live) && eds[..] == old(eds[..])
    {
      ghost var s0 := Now();
      var size := if packetSize == 0 then 8 else packetSize;
      var first := d.(pid := Setup, toggle := false, size := 8, buffer := setup);
      var head := QueuePacket(first, None, s0, []);
      if head == None {
        return false;
      }
      var td;
      ghost var stage: seq<Desc>;
      if length == 0 {
        stage := [StatusPacket(d, dataPid)];
        td := QueuePacket(StatusPacket(d, dataPid), head, s0, [first]);
      } else {
        stage := DataPackets(d.(pid := dataPid, toggle := true), data, length, size);
        var h, t;
        td, h, t := QueueData(d.(pid := dataPid, toggle := true), data, length, size, head, head, s0, [first]);
        head := h;
      }
      if td == None {
        return false;
      }
      td := QueuePacket(StatusPacket(d, dataPid), td, s0, [first] + stage);
      if td == None {
        return false;
      }
      LinkTransfer(e, head.value, td.value, s0, [first] + stage + [StatusPacket(d, dataPid)]);
      ok := true;
    }

    /** bl_ohci_bulk_interrupt_prepare; its callers filter out empty transfers. */
    method BulkPrepare(e: nat, d: Desc, data: nat, length: nat, packetSize: nat) returns (ok: bool, toggle: bool)
      requires Idle() && e < eds.Length && length > 0 && packetSize > 0
      modifies this`g, tds, eds
      ensures Idle()
      ensures if ok then Submitted(old(Now()), Now(), e, BulkWork(d, data, length, packetSize)) &&
                         toggle == NextToggle(d.toggle, length, packetSize)
              else g.live == old(g.live) && eds[..] == old(eds[..]) && toggle == d.toggle
    {
      ghost var s0 := Now();
      var td, head, t := QueueData(d, data, length, packetSize, None, None, s0, []);
      if td == None {
        return false, d.toggle;
      }
      var last := d.(pid := StatusPid(d.pid), toggle := !t, size := 0, buffer := 0);
      assert [] + DataPackets(d, data, length, packetSize) == DataPackets(d, data, length, packetSize);
      td := QueuePacket(last, td, s0, DataPackets(d, data, length, packetSize));
      if td == None {
        return false, d.toggle;
      }
      LinkTransfer(e, head.value, td.value, s0, BulkWork(d, data, length, packetSize));
      ok, toggle := true, !t;
    }

    /** bl_ohci_free_td_list: visits every descriptor of the ring once, from the given one on. */
    method FreeTdList(head: nat, ghost order: seq<nat>)
      requires Round(tds[..], order) && order[0] == head
      modifies tds
      ensures tds[..] == Wiped(old(tds[..]), order)
    {
      var td := head;
      ghost var i: nat := 0;
      while true
        invariant i < |order| && td == order[i] < tds.Length == |old(tds[..])|
        invariant tds[..] == Wiped(old(tds[..]), order[..i])
        decreases |order| - i
      {
        assert order[..i + 1][..i] == order[..i];
        ghost var before := tds[..];
        assert before[td] == old(tds[..])[td];
        var next := tds[td].original;
        tds[td] := CLEARED;
        assert tds[..] == before[td := CLEARED];
        td := next.value;
        if td == head {
          break;
        }
        i := i + 1;
      }
      assert order[..i + 1] == order;
    }

    /** The end of a transfer whose head pointer has reached the tail. */
    method EndTransfer(e: nat)
      requires Idle() && e in g.live && e < eds.Length && eds[e].head == eds[e].tail
      modifies this`g, tds, eds
      ensures Idle() && Now() == Apply(old(Now()), Finish(e))
    {
      ghost var s := Now();
      EndOfRing(s, e);
      ghost var order := FreeOrder(g.live[e]);
      eds[e] := eds[e].(skip := true);
      FreeTdList(eds[e].head.value, order);
      g := Finished(g, e);
      assert eds[..] == s.eds[e := s.eds[e].(skip := true)];
    }

    /** bl_ohci_transfer_finished, for a transfer in flight. */
    method TransferFinished(e: nat) returns (status: Status)
      requires Idle() && e in g.live
      modifies this`g, tds, eds
      ensures Idle() && e < eds.Length
      ensures status == if old(eds[..])[e].halted then ShouldCheckStatus
                        else if old(eds[..])[e].head == old(eds[..])[e].tail then Success else NotFinished
      ensures Now() == if status == Success then Apply(old(Now()), Finish(e)) else old(Now())
    {
      assert EdOk(eds[..], g, e);
      if eds[e].halted {
        return ShouldCheckStatus;
      }
      if eds[e].head == eds[e].tail {
        EndTransfer(e);
        return Success;
      }
      status := NotFinished;
    }

    /** The controller moves. */
    method Wait(env: Environment, n: nat)
      requires Valid() && Obedient(env)
      modifies tds, eds
      ensures Valid()
      ensures var r := env(n, old(tds[..]), old(eds[..]));
        Enabled(old(Now()), Controller(r.0, r.1)) && Now() == Apply(old(Now()), Controller(r.0, r.1))
    {
      ghost var s := Now();
      var r := env(n, tds[..], eds[..]);
      StepKeeps(s, Controller(r.0, r.1));
      for i := 0 to tds.Length
        invariant forall t :: 0 <= t < i ==> tds[t] == r.0[t]
      {
        tds[i] := r.0[i];
      }
      for i := 0 to eds.Length
        invariant forall t :: 0 <= t < tds.Length ==> tds[t] == r.0[t]
        invariant forall q :: 0 <= q < i ==> eds[q] == r.1[q]
      {
        eds[i] := r.1[i];
      }
      assert tds[..] == r.0 && eds[..] == r.1;
    }

    /** The polling loop of bl_ohci_check_transfer_timeout; false stands for every outcome that
        leaves the transfer in flight, whatever status is then made of it. */
    method WaitForTransfer(e: nat, timeout: nat, env: Environment) returns (finished: bool)
      requires Idle() && e in g.live && timeout > 0 && Obedient(env)
      modifies this`g, tds, eds
      ensures Idle() && SameMarks(old(Now()), Now(), if finished then old(g.live)[e] else [])
      ensures g.live == if finished then old(g.live) - {e} else old(g.live)
    {
      var left := timeout;
      while true
        invariant Idle() && e in g.live && 0 < left
        invariant g == old(g) && SameMarks(old(Now()), Now(), [])
        decreases left
      {
        left := left - 1;
        if left == 0 {
          break;
        }
        ghost var s := Now();
        var status := TransferFinished(e);
        if status == Success {
          MarksAfterFinish(old(Now()), s, e);
          return true;
        } else if status == ShouldCheckStatus {
          break;
        }
        Wait(env, left);
      }
      finished := false;
    }

    /** bl_ohci_control_transfer: if it finishes, the pool's used set is what it was before,
        whatever the controller did meanwhile. A ring the endpoint still held is not freed. */
    method ControlTransfer(e: nat, d: Desc, setup: nat, dataPid: Pid, data: nat, length: nat, packetSize: nat,
                           env: Environment)
      returns (finished: Option<bool>)
      requires Idle() && e < eds.Length && Obedient(env)
      modifies this`g, tds, eds
      ensures Idle()
      ensures finished == None ==> g.live == old(g.live)
      ensures finished == Some(true) ==> g.live == old(g.live) - {e} && SameMarks(old(Now()), Now(), [])
      ensures finished == Some(false) ==> e in g.live && g.live == old(g.live)[e := g.live[e]]
    {
      ghost var s0 := Now();
      var ok := ControlSubmit(e, d, setup, dataPid, data, length, packetSize);
      if !ok {
        return None;
      }
      ghost var s := Now();
      var done := WaitForTransfer(e, 100, env);
      if done {
        MarksRestored(s0, s, Now(), e, ControlWork(d, setup, dataPid, data, length, packetSize));
      }
      finished := Some(done);
    }
  }

  /** The marks of two states agree, but for a ring given back in between. */
  ghost predicate SameMarks(s: State, s': State, ring: seq<nat>) {
    && |s.tds| == |s'.tds|
    && (forall t: nat :: t < |s.tds| ==> s'.tds[t].used == (s.tds[t].used && t !in ring))
  }

  lemma {:induction false} MarksAfterFinish(s0: State, s: State, e: nat)
    requires Sound(s) && e in s.g.live && SameMarks(s0, s, [])
    ensures SameMarks(s0, Apply(s, Finish(e)), s.g.live[e])
  {
    assert OwnsAll(s.g.place, s.g.live[e], e) && EdOk(s.eds, s.g, e);
    FreeOrderIsRing(s.g.live[e]);
  }

  lemma {:induction false} MarksRestored(s0: State, s: State, s': State, e: nat, work: seq<Desc>)
    requires Submitted(s0, s, e, work) && SameMarks(s, s', s.g.live[e])
    ensures SameMarks(s0, s', []) && s.g.live - {e} == s0.g.live - {e}
  {
    forall t: nat | t < NUM_TD && t in s.g.live[e]
      ensures s.tds[t].used
    {
      OwnedBy(s.tds, s.eds, s.g, e, t);
      assert TdOk(s.tds, s.g, t);
    }
  }
}
