// How the USB drivers cut a transfer into packets, boot-loader/modules/usb/uhci/uhci.c and
// boot-loader/modules/usb/ohci/ohci.c.

module UsbPackets {
  import opened Wrappers

  datatype Pid = Setup | In | Out

  /** What a transfer descriptor asks the controller to do. */
  datatype Desc = Desc(pid: Pid, lowSpeed: bool, address: nat, endpoint: nat, toggle: bool, size: nat, buffer: nat)

  /** The data packets of a transfer; `d` holds what they have in common, its toggle is the
      first packet's. */
  function DataPackets(d: Desc, data: nat, length: nat, packetSize: nat): (r: seq<Desc>)
    requires packetSize > 0
    decreases length
  {
    if length == 0 then []
    else
      [d.(size := Min(length, packetSize), buffer := data)] +
      DataPackets(d.(toggle := !d.toggle), data + packetSize,
                  if length <= packetSize then 0 else length - packetSize, packetSize)
  }

  /** Toggle of the packet behind the last one. */
  function ToggleAfter(toggle: bool, length: nat, packetSize: nat): bool
    requires packetSize > 0
    decreases length
  {
    if length == 0 then toggle
    else ToggleAfter(!toggle, if length <= packetSize then 0 else length - packetSize, packetSize)
  }

  /** Packets tile [data, data + length): the first starts at data, each starts where the one
      before ends, the last ends at data + length; all but the last are of full size. */
  ghost predicate Tiles(p: seq<Desc>, data: nat, length: nat, packetSize: nat) {
    if p == [] then length == 0
    else
      && p[0].buffer == data && p[|p| - 1].buffer + p[|p| - 1].size == data + length
      && (forall i :: 0 < i < |p| ==> p[i].buffer == p[i - 1].buffer + p[i - 1].size)
      && (forall i :: 0 <= i < |p| - 1 ==> p[i].size == packetSize)
      && 0 < p[|p| - 1].size <= packetSize
  }

  /** Toggles strictly alternate, starting with the given one. */
  ghost predicate Alternate(p: seq<Desc>, toggle: bool) {
    && (p != [] ==> p[0].toggle == toggle)
    && (forall i :: 0 < i < |p| ==> p[i].toggle == !p[i - 1].toggle)
  }

  /** Packets only differ in toggle, size and buffer. */
  ghost predicate SameTarget(p: seq<Desc>, d: Desc) {
    forall i :: 0 <= i < |p| ==> p[i] == d.(toggle := p[i].toggle, size := p[i].size, buffer := p[i].buffer)
  }

  lemma {:induction false} TilesPrepend(x: Desc, rest: seq<Desc>, data: nat, left: nat, packetSize: nat)
    requires x.buffer == data && 0 < x.size <= packetSize && Tiles(rest, data + packetSize, left, packetSize)
    requires rest != [] ==> x.size == packetSize
    ensures Tiles([x] + rest, data, x.size + left, packetSize)
  {
    var p := [x] + rest;
    assert forall i :: 0 < i < |p| ==> p[i] == rest[i - 1];
  }

  lemma {:induction false} AlternatePrepend(x: Desc, rest: seq<Desc>)
    requires Alternate(rest, !x.toggle)
    ensures Alternate([x] + rest, x.toggle)
  {
    var p := [x] + rest;
    assert forall i :: 0 < i < |p| ==> p[i] == rest[i - 1];
  }

  /** Every data transfer: no gap, no overlap, nothing beyond the end; alternating toggles. */
  lemma {:induction false} PacketsAreRight(d: Desc, data: nat, length: nat, packetSize: nat)
    requires packetSize > 0
    ensures Tiles(DataPackets(d, data, length, packetSize), data, length, packetSize)
    ensures Alternate(DataPackets(d, data, length, packetSize), d.toggle)
    decreases length
  {
    if length > 0 {
      var left := if length <= packetSize then 0 else length - packetSize;
      var d', x := d.(toggle := !d.toggle), d.(size := Min(length, packetSize), buffer := data);
      PacketsAreRight(d', data + packetSize, left, packetSize);
      var rest := DataPackets(d', data + packetSize, left, packetSize);
      assert DataPackets(d, data, length, packetSize) == [x] + rest;
      assert rest != [] ==> left > 0;
      TilesPrepend(x, rest, data, left, packetSize);
      AlternatePrepend(x, rest);
    }
  }

  /** And all go where the transfer goes. */
  lemma {:induction false} PacketsSameTarget(d: Desc, data: nat, length: nat, packetSize: nat)
    requires packetSize > 0
    ensures SameTarget(DataPackets(d, data, length, packetSize), d)
    decreases length
  {
    if length > 0 {
      PacketsSameTarget(d.(toggle := !d.toggle), data + packetSize,
                        if length <= packetSize then 0 else length - packetSize, packetSize);
    }
  }

  lemma {:induction false} ToggleGoesOn(d: Desc, data: nat, length: nat, packetSize: nat)
    requires packetSize > 0
    ensures var p := DataPackets(d, data, length, packetSize);
      ToggleAfter(d.toggle, length, packetSize) == if p == [] then d.toggle else !p[|p| - 1].toggle
    decreases length
  {
    if length > 0 {
      var left := if length <= packetSize then 0 else length - packetSize;
      var d' := d.(toggle := !d.toggle);
      ToggleGoesOn(d', data + packetSize, left, packetSize);
    }
  }

  // ---------------------------------------------------------------- loops that count down

  /** What is left of a length that was counted down, perhaps below zero. */
  function Left(n: int): nat {
    if n > 0 then n else 0
  }

  /** A data stage that has queued `done` and has `left` bytes at `at` to go will have queued
      `total` in the end and leave the toggle `after`. */
  ghost predicate OnCourse(d: Desc, at: nat, left: int, size: nat, done: seq<Desc>, total: seq<Desc>, after: bool)
    requires size > 0
  {
    total == done + DataPackets(d, at, Left(left), size) && after == ToggleAfter(d.toggle, Left(left), size)
  }

  lemma {:induction false} NextOnCourse(d: Desc, at: nat, left: nat, size: nat, done: seq<Desc>, total: seq<Desc>,
        after: bool)
    requires left > 0 && size > 0 && OnCourse(d, at, left, size, done, total, after)
    ensures OnCourse(d.(toggle := !d.toggle), at + size, left - size, size,
                     done + [d.(size := Min(left, size), buffer := at)], total, after)
  {
    NextPacket(d, d.toggle, at, left, size, done, total);
  }

  lemma {:induction false} CourseEnds(d: Desc, at: nat, left: int, size: nat, done: seq<Desc>, total: seq<Desc>,
        after: bool)
    requires left <= 0 && size > 0 && OnCourse(d, at, left, size, done, total, after)
    ensures done == total && d.toggle == after
  {
  }

  lemma {:induction false} NextPacket(d: Desc, toggle: bool, at: nat, left: nat, size: nat, done: seq<Desc>,
        total: seq<Desc>)
    requires left > 0 && size > 0 && total == done + DataPackets(d.(toggle := toggle), at, left, size)
    ensures var packet := d.(toggle := toggle, size := Min(left, size), buffer := at);
      total == (done + [packet]) + DataPackets(d.(toggle := !toggle), at + size, Left(left - size), size)
    ensures ToggleAfter(toggle, left, size) == ToggleAfter(!toggle, Left(left - size), size)
  {
    var packet := d.(toggle := toggle, size := Min(left, size), buffer := at);
    var rest := DataPackets(d.(toggle := !toggle), at + size, Left(left - size), size);
    FirstPacket(d.(toggle := toggle), at, left, size);
    Associative(done, [packet], rest);
  }

  lemma {:induction false} FirstPacket(d: Desc, at: nat, left: nat, size: nat)
    requires left > 0 && size > 0
    ensures DataPackets(d, at, left, size) ==
      [d.(size := Min(left, size), buffer := at)] +
      DataPackets(d.(toggle := !d.toggle), at + size, Left(left - size), size)
  {
  }

  // ---------------------------------------------------------------- control transfers

  /** A packet size of zero stands for eight bytes. */
  function ControlSize(packetSize: nat): (p: nat)
    ensures p > 0
  {
    if packetSize == 0 then 8 else packetSize
  }

  function StatusPid(data: Pid): Pid {
    if data == Out then In else Out
  }

  /** SETUP, the data packets, STATUS. `d` holds speed, address and endpoint 0. */
  function ControlPackets(d: Desc, setup: nat, dataPid: Pid, data: nat, length: nat, packetSize: nat): seq<Desc> {
    [d.(pid := Setup, toggle := false, size := 8, buffer := setup)] +
    DataPackets(d.(pid := dataPid, toggle := true), data, length, ControlSize(packetSize)) +
    [d.(pid := StatusPid(dataPid), toggle := true, size := 0, buffer := 0)]
  }

  /** The data stage of a control transfer: every packet goes where d goes, in the direction of the data;
      they tile the buffer, and toggles alternate, beginning with 1. */
  ghost predicate DataStage(p: seq<Desc>, d: Desc, dataPid: Pid, data: nat, length: nat, packetSize: nat) {
    && (forall i :: 0 <= i < |p| ==>
          && p[i].pid == dataPid && p[i].lowSpeed == d.lowSpeed
          && p[i].address == d.address && p[i].endpoint == d.endpoint)
    && Tiles(p, data, length, if packetSize == 0 then 8 else packetSize)
    && Alternate(p, true)
  }

  lemma {:induction false} DataStageIsRight(d: Desc, dataPid: Pid, data: nat, length: nat, packetSize: nat)
    ensures DataStage(DataPackets(d.(pid := dataPid, toggle := true), data, length, ControlSize(packetSize)),
                      d, dataPid, data, length, packetSize)
  {
    PacketsAreRight(d.(pid := dataPid, toggle := true), data, length, ControlSize(packetSize));
    PacketsSameTarget(d.(pid := dataPid, toggle := true), data, length, ControlSize(packetSize));
  }

  /** Sections 8.5.3 and 8.6 of USB 2.0: eight bytes of the setup data with toggle 0, the data stage, and
      an empty STATUS packet with toggle 1 that goes the other way. */
  lemma {:induction false} ControlPacketsAreRight(d: Desc, setup: nat, dataPid: Pid, data: nat, length: nat,
        packetSize: nat)
    ensures var p := ControlPackets(d, setup, dataPid, data, length, packetSize);
      && |p| >= 2
      && p[0] == Desc(Setup, d.lowSpeed, d.address, d.endpoint, false, 8, setup)
      && DataStage(p[1..|p| - 1], d, dataPid, data, length, packetSize)
      && p[|p| - 1] == Desc(if dataPid == Out then In else Out, d.lowSpeed, d.address, d.endpoint, true, 0, 0)
      && Alternate(p[..|p| - 1], false)
  {
    var p := ControlPackets(d, setup, dataPid, data, length, packetSize);
    DataStageIsRight(d, dataPid, data, length, packetSize);
    var stage := DataPackets(d.(pid := dataPid, toggle := true), data, length, ControlSize(packetSize));
    assert p[1..|p| - 1] == stage;
    assert p[..|p| - 1] == [p[0]] + stage;
  }

  // ---------------------------------------------------------------- one endpoint over time

  /** A bulk or interrupt transfer that was started. */
  datatype Transfer = Transfer(data: nat, length: nat)

  /** The endpoint's toggle after a run of transfers. */
  ghost function ToggleOver(toggle: bool, run: seq<Transfer>, packetSize: nat): bool
    requires packetSize > 0
  {
    if run == [] then toggle
    else ToggleAfter(ToggleOver(toggle, run[..|run| - 1], packetSize), run[|run| - 1].length, packetSize)
  }

  /** All packets the endpoint sees over a run of transfers. */
  ghost function PacketsOver(d: Desc, run: seq<Transfer>, packetSize: nat): seq<Desc>
    requires packetSize > 0
  {
    if run == [] then []
    else
      var t := run[|run| - 1];
      PacketsOver(d, run[..|run| - 1], packetSize) +
      DataPackets(d.(toggle := ToggleOver(d.toggle, run[..|run| - 1], packetSize)), t.data, t.length, packetSize)
  }

  lemma {:induction false} AlternateJoin(a: seq<Desc>, b: seq<Desc>, toggle: bool, mid: bool)
    requires Alternate(a, toggle) && Alternate(b, mid) && mid == if a == [] then toggle else !a[|a| - 1].toggle
    ensures Alternate(a + b, toggle)
  {
  }

  /** Over any run of transfers on one endpoint the toggles strictly alternate. */
  lemma {:induction false} TogglesAlternateOverRuns(d: Desc, run: seq<Transfer>, packetSize: nat)
    requires packetSize > 0
    ensures var p := PacketsOver(d, run, packetSize);
      Alternate(p, d.toggle) &&
      ToggleOver(d.toggle, run, packetSize) == if p == [] then d.toggle else !p[|p| - 1].toggle
  {
    if run != [] {
      var front, t := run[..|run| - 1], run[|run| - 1];
      var a, mid := PacketsOver(d, front, packetSize), ToggleOver(d.toggle, front, packetSize);
      TogglesAlternateOverRuns(d, front, packetSize);
      PacketsAreRight(d.(toggle := mid), t.data, t.length, packetSize);
      ToggleGoesOn(d.(toggle := mid), t.data, t.length, packetSize);
      AlternateJoin(a, DataPackets(d.(toggle := mid), t.data, t.length, packetSize), d.toggle, mid);
    }
  }
}
