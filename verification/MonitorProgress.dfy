// Which monitored BARs let every access go on: the frames that enabling closes
// against the addresses that the violation handler recognizes.
module MonitorProgress {
  import opened Wrappers
  import opened EptTree
  import opened MonitorProtocol
  import opened MonitorSafety
  import opened BarPages
  import opened Devices

  const FOUR_GIB := 0x1_0000_0000

  // Enabling closes no page outside the given frames.
  ghost predicate Within(events: seq<Event>, frames: seq<nat>) {
    forall i :: 0 <= i < |events| && events[i].Enable? ==>
      forall v <- events[i].visits :: v.ok ==> v.frame in frames
  }

  ghost predicate ByteMonitored(devices: seq<Device>, f: nat, offset: nat) {
    IsMonitored(devices, Low32(f * PAGE_SIZE + offset))
  }

  // Every byte of the frames is recognized.
  ghost predicate Recognized(devices: seq<Device>, frames: seq<nat>) {
    forall f, offset: nat :: f in frames && offset < PAGE_SIZE ==> ByteMonitored(devices, f, offset)
  }

  // After the event the access is permitted on retry, or RIP has moved past it.
  ghost predicate GoesOn(c: Config, s: Vcpu, e: Event)
    requires e.Violation?
  {
    PermittedNow(Next(c, s, e), Frame(e.pa), e.access) || Next(c, s, e).rip == s.rip + e.length
  }

  // In every run every violation goes on, allocation permitting.
  ghost predicate AlwaysGoesOn(c: Config, frames: seq<nat>) {
    forall states: seq<Vcpu>, events: seq<Event>, n: nat ::
      Run(c, states, events) && Within(events, frames) && n < |events| && events[n].Violation? && events[n].mapped
      ==> GoesOn(c, states[n], events[n])
  }

  // ---------------------------------------------------------------------
  // Runs
  // ---------------------------------------------------------------------

  lemma {:induction false} ClosedWithin(
      c: Config, states: seq<Vcpu>, events: seq<Event>, frames: seq<nat>, n: nat)
    requires Run(c, states, events) && Within(events, frames) && n <= |events|
    ensures forall f <- states[n].closed :: f in frames
  {
    if n > 0 {
      ClosedWithin(c, states, events, frames, n - 1);
      RunKeepsInv(c, states, events, n - 1);
      var s, e := states[n - 1], events[n - 1];
      assert Possible(s, e) && states[n] == Next(c, s, e);
      match e
      case Enable(visits) => ClosingKeepsInv(c.types, s, visits);
      case Disable(opens) => OpeningKeepsInv(c.types, s, opens);
      case _ =>
    }
  }

  lemma {:induction false} FrameOfByte(pa: nat)
    requires pa < ADDRESS_LIMIT
    ensures pa == Frame(pa) * PAGE_SIZE + pa % PAGE_SIZE
  {
  }

  lemma {:induction false} RunGoesOn(
      c: Config, states: seq<Vcpu>, events: seq<Event>, frames: seq<nat>, n: nat)
    requires Run(c, states, events) && Within(events, frames) && n < |events|
    requires Recognized(c.devices, frames) && events[n].Violation? && events[n].mapped
    ensures GoesOn(c, states[n], events[n])
  {
    var s, e := states[n], events[n];
    RunKeepsInv(c, states, events, n);
    assert Possible(s, e);
    if Frame(e.pa) in s.leaves {
      ClosedWithin(c, states, events, frames, n);
      DeniedIsClosed(c, s, e);
      FrameOfByte(e.pa);
      assert ByteMonitored(c.devices, Frame(e.pa), e.pa % PAGE_SIZE);
    }
    ViolationMakesProgress(c, s, e);
  }

  // A mapped page that denies an access is closed.
  lemma {:induction false} DeniedIsClosed(c: Config, s: Vcpu, e: Event)
    requires Inv(c.types, s) && Possible(s, e) && e.Violation? && Frame(e.pa) in s.leaves
    ensures Frame(e.pa) in s.closed
  {
  }

  // A byte that is not recognized: its page is enabled and closed, the access
  // is violated, and the handler leaves everything as it was.
  lemma {:induction false} FailingRun(c: Config, f: nat, offset: nat)
      returns (states: seq<Vcpu>, events: seq<Event>)
    requires f < FRAME_COUNT && offset < PAGE_SIZE && !ByteMonitored(c.devices, f, offset)
    ensures Run(c, states, events) && Within(events, [f]) && |events| == 2
    ensures f in states[1].closed && states[2] == states[1]
    ensures events[1] == Violation(f * PAGE_SIZE + offset, Read, 1, false, true)
    ensures !GoesOn(c, states[1], events[1])
  {
    var pa := f * PAGE_SIZE + offset;
    assert Frame(pa) == f;
    var visits := [Visit(f, true)];
    var s := Vcpu(map[], map[], None, false, 0, {});
    var closed := ClosePage(c.types, s, visits[0]);
    assert ClosePages(c.types, s, visits) == closed by {
      assert visits[..0] == [];
    }
    events := [Enable(visits), Violation(pa, Read, 1, false, true)];
    states := [s, closed, closed];
    assert Next(c, closed, events[1]) == closed;
    assert Possible(s, events[0]) && Possible(closed, events[1]);
    assert Run(c, states, events);
  }

  // Every violation of every run goes on if and only if every byte of the
  // frames that enabling may close is recognized.
  lemma {:induction false} ProgressExact(c: Config, frames: seq<nat>)
    requires forall f <- frames :: f < FRAME_COUNT
    ensures AlwaysGoesOn(c, frames) <==> Recognized(c.devices, frames)
  {
    if Recognized(c.devices, frames) {
      forall states: seq<Vcpu>, events: seq<Event>, n: nat |
        Run(c, states, events) && Within(events, frames) && n < |events| && events[n].Violation? && events[n].mapped
        ensures GoesOn(c, states[n], events[n])
      {
        RunGoesOn(c, states, events, frames, n);
      }
    } else {
      var f, offset: nat :| f in frames && offset < PAGE_SIZE && !ByteMonitored(c.devices, f, offset);
      var states, events := FailingRun(c, f, offset);
      assert Within(events, frames);
      assert events[1].Violation? && events[1].mapped;
    }
  }

  // ---------------------------------------------------------------------
  // Which BARs are recognized
  // ---------------------------------------------------------------------

  // Page aligned, and such that the BAR, its base cut to 32 bits, ends below
  // 4 GiB and fills its first page.
  ghost predicate WellPlaced(bar: Bar) {
    bar.address % PAGE_SIZE == 0 && bar.limit >= bar.address && Fits32(bar.address, bar.limit - bar.address)
  }

  ghost predicate AllWellPlaced(list: seq<PciDevice>)
    requires AllWellFormed(list)
  {
    forall i, j :: 0 <= i < |list| && 0 <= j < list[i].barCount && Usable(list[i].bars[j]) ==>
      WellPlaced(list[i].bars[j])
  }

  // The BAR that a frame of the list comes from.
  lemma {:induction false} BarOfFrame(d: PciDevice, n: nat, f: nat) returns (j: nat)
    requires n <= |d.bars| && f in DeviceFrames(d, n)
    ensures j < n && f in BarFrames(d.bars[j])
  {
    if f in BarFrames(d.bars[n - 1]) {
      j := n - 1;
    } else {
      j := BarOfFrame(d, n - 1, f);
    }
  }

  lemma {:induction false} DeviceOfFrame(list: seq<PciDevice>, n: nat, f: nat) returns (i: nat, j: nat)
    requires AllWellFormed(list) && n <= |list| && f in ListFrames(list, n)
    ensures i < n && j < list[i].barCount && f in BarFrames(list[i].bars[j])
  {
    if f in DeviceFrames(list[n - 1], list[n - 1].barCount) {
      i := n - 1;
      j := BarOfFrame(list[i], list[i].barCount, f);
    } else {
      i, j := DeviceOfFrame(list, n - 1, f);
    }
  }

  // The visited frames of a well-placed BAR consist of bytes of the BAR.
  lemma {:induction false} BarRecognized(bar: Bar, f: nat, offset: nat)
    requires Usable(bar) && WellPlaced(bar) && f in BarFrames(bar) && offset < PAGE_SIZE
    ensures f * PAGE_SIZE + offset < FOUR_GIB && InBar(bar, f * PAGE_SIZE + offset)
  {
    var size := bar.limit - bar.address;
    assert Low32(size) == size && Bar(bar.address, bar.address + size) == bar;
    hide Usable, Low32, VisitAddress, Frame, SpanPages;
    var k := RoundOfFrame(bar.address, size, f);
    RecognizedExact(bar.address, size);
    VisitOfRound(bar.address, size, k);
    assert ByteRecognized(bar.address, size, k, offset);
    InWellPlacedBar(bar, f * PAGE_SIZE + offset);
  }

  lemma {:induction false} RoundOfFrame(base: nat, size: nat, f: nat) returns (k: nat)
    requires f in VisitFrames(base, SpanPages(size))
    ensures k < SpanPages(size) && VisitFrames(base, SpanPages(size))[k] == f
  {
    var frames := VisitFrames(base, SpanPages(size));
    k :| 0 <= k < |frames| && frames[k] == f;
  }

  lemma InWellPlacedBar(bar: Bar, a: nat)
    requires WellPlaced(bar) && InBar(bar, a)
    ensures a < FOUR_GIB
  {
  }

  lemma {:induction false} VisitOfRound(base: nat, size: nat, k: nat)
    requires base % PAGE_SIZE == 0 && k < SpanPages(size)
    ensures VisitAddress(base, k) == VisitFrames(base, SpanPages(size))[k] * PAGE_SIZE
  {
    var i := if k == 0 then 0 else k - 1;
    assert Low32(base) % PAGE_SIZE == 0;
    assert VisitAddress(base, k) == Low32(Low32(base) + PAGE_SIZE * i);
    assert VisitAddress(base, k) % PAGE_SIZE == 0;
  }

  lemma {:induction false} ByteOfList(list: seq<PciDevice>, f: nat, offset: nat)
    requires AllWellFormed(list) && AllWellPlaced(list) && f in ListFrames(list, |list|) && offset < PAGE_SIZE
    ensures ByteMonitored(AsDevices(list), f, offset) && f < FOUR_GIB / PAGE_SIZE
  {
    hide ListFrames, BarFrames, WellPlaced, InBar;
    var devices := AsDevices(list);
    var i, j := DeviceOfFrame(list, |list|, f);
    UsableIfVisited(list[i].bars[j], f);
    BarRecognized(list[i].bars[j], f, offset);
    assert devices[i].bars[j] == list[i].bars[j];
    assert InDevice(devices[i], f * PAGE_SIZE + offset);
  }

  lemma UsableIfVisited(bar: Bar, f: nat)
    requires f in BarFrames(bar)
    ensures Usable(bar)
  {
  }

  // What enabling visits is recognized when every BAR is well placed.
  lemma {:induction false} ListRecognized(list: seq<PciDevice>)
    requires AllWellFormed(list) && AllWellPlaced(list)
    ensures Recognized(AsDevices(list), ListFrames(list, |list|))
    ensures forall f <- ListFrames(list, |list|) :: f < FOUR_GIB / PAGE_SIZE
  {
    hide ListFrames, AllWellPlaced, AsDevices, ByteMonitored;
    var devices, frames := AsDevices(list), ListFrames(list, |list|);
    forall f, offset: nat | f in frames && offset < PAGE_SIZE
      ensures ByteMonitored(devices, f, offset)
    {
      ByteOfList(list, f, offset);
    }
    forall f | f in frames
      ensures f < FOUR_GIB / PAGE_SIZE
    {
      ByteOfList(list, f, 0);
    }
  }

  // With every BAR page aligned, within 32 bits and at least a page long, every
  // violation of every run ends with the access permitted or RIP advanced.
  lemma {:induction false} MonitoringGoesOn(
      c: Config, list: seq<PciDevice>, states: seq<Vcpu>, events: seq<Event>, n: nat)
    requires AllWellFormed(list) && AllWellPlaced(list) && c.devices == AsDevices(list)
    requires Run(c, states, events) && Within(events, ListFrames(list, |list|)) && n < |events|
    requires events[n].Violation? && events[n].mapped
    ensures GoesOn(c, states[n], events[n])
  {
    ListRecognized(list);
    RunGoesOn(c, states, events, ListFrames(list, |list|), n);
  }

  // And no read or write of a closed page completes unless a callback of a
  // device that owns the address has run since the page was last closed.
  lemma {:induction false} ClosedAccessRanCallback(
      c: Config, list: seq<PciDevice>, states: seq<Vcpu>, events: seq<Event>, n: nat, f: nat, a: Access)
    returns (i: nat)
    requires AllWellFormed(list) && AllWellPlaced(list) && c.devices == AsDevices(list)
    requires forall d <- c.devices :: d.hasCallback
    requires Run(c, states, events) && Within(events, ListFrames(list, |list|)) && n < |events|
    requires events[n] == Complete(f, a) && a != Execute && f in states[n].closed
    ensures ReportedAt(c, states, events, i, n, f)
    ensures var ran := Callbacks(c.devices, events[i].pa, |c.devices|);
      ran != [] && forall d <- ran :: d < |c.devices| && InDevice(c.devices[d], events[i].pa)
  {
    i := ClosedAccessIsReported(c, states, events, n, f, a);
    ClosedWithin(c, states, events, ListFrames(list, |list|), n);
    ListRecognized(list);
    assert Possible(states[i], events[i]);
    FrameOfByte(events[i].pa);
    RecognizedRunsExact(c.devices, events[i].pa);
    CallbackRuns(c.devices, events[i].pa, |c.devices|);
  }

  // With a single BAR, page aligned wherever it is, all violations of all runs
  // go on if and only if the loops skip it, or it stays below 4 GiB when its
  // base is cut to 32 bits and fills its first page.
  lemma {:induction false} OneBarExact(c: Config, list: seq<PciDevice>)
    requires AllWellFormed(list) && |list| == 1 && list[0].barCount == 1 && c.devices == AsDevices(list)
    requires var bar := list[0].bars[0];
      Usable(bar) ==> PlacedBar(bar.address, bar.limit - bar.address)
    ensures var bar := list[0].bars[0];
      AlwaysGoesOn(c, ListFrames(list, 1)) <==> !Usable(bar) || Fits32(bar.address, bar.limit - bar.address)
  {
    OneBarFrames(list);
    if Usable(list[0].bars[0]) {
      OneBarRecognized(list);
    } else {
      assert Recognized(c.devices, []);
    }
    hide AlwaysGoesOn, Recognized;
    ProgressExact(c, ListFrames(list, 1));
  }

  lemma {:induction false} OneBarFrames(list: seq<PciDevice>)
    requires AllWellFormed(list) && |list| == 1 && list[0].barCount == 1
    ensures ListFrames(list, 1) == BarFrames(list[0].bars[0])
  {
    var d := list[0];
    assert DeviceFrames(d, 1) == DeviceFrames(d, 0) + BarFrames(d.bars[0]);
    assert ListFrames(list, 1) == ListFrames(list, 0) + DeviceFrames(d, 1);
  }

  lemma {:induction false} OneBarMonitored(list: seq<PciDevice>, a: nat)
    requires AllWellFormed(list) && |list| == 1 && list[0].barCount == 1
    ensures IsMonitored(AsDevices(list), a) <==> InBar(list[0].bars[0], a)
  {
    var devices := AsDevices(list);
    assert devices[0].bars == [list[0].bars[0]];
    if InBar(list[0].bars[0], a) {
      assert InBar(devices[0].bars[0], a);
      assert InDevice(devices[0], a);
    }
  }

  // A byte of a visited page is recognized as the device's exactly when it is
  // recognized as the BAR's.
  lemma {:induction false} OneBarByte(list: seq<PciDevice>, base: nat, size: nat, k: nat, offset: nat)
    requires AllWellFormed(list) && |list| == 1 && list[0].barCount == 1
    requires list[0].bars[0] == Bar(base, base + size) && PlacedBar(base, size)
    requires k < SpanPages(size) && offset < PAGE_SIZE
    ensures ByteMonitored(AsDevices(list), VisitFrames(base, SpanPages(size))[k], offset)
      <==> ByteRecognized(base, size, k, offset)
  {
    VisitOfRound(base, size, k);
    var a := VisitAddress(base, k) + offset;
    PageInside(base, k, offset);
    OneBarMonitored(list, a);
    hide VisitAddress, VisitFrames, SpanPages, IsMonitored, AsDevices;
    assert Low32(a) == a;
  }

  lemma {:induction false} PageInside(base: nat, k: nat, offset: nat)
    requires base % PAGE_SIZE == 0 && offset < PAGE_SIZE
    ensures VisitAddress(base, k) + offset < FOUR_GIB
  {
    var i := if k == 0 then 0 else k - 1;
    assert VisitAddress(base, k) == Low32(Low32(base) + PAGE_SIZE * i);
    assert VisitAddress(base, k) % PAGE_SIZE == 0;
  }

  lemma {:induction false} OneBarFrameRecognized(list: seq<PciDevice>, base: nat, size: nat, f: nat, offset: nat)
    requires AllWellFormed(list) && |list| == 1 && list[0].barCount == 1
    requires list[0].bars[0] == Bar(base, base + size) && PlacedBar(base, size)
    requires forall k: nat, o: nat :: k < SpanPages(size) && o < PAGE_SIZE ==> ByteRecognized(base, size, k, o)
    requires f in VisitFrames(base, SpanPages(size)) && offset < PAGE_SIZE
    ensures ByteMonitored(AsDevices(list), f, offset)
  {
    hide ByteRecognized, ByteMonitored, VisitFrames, SpanPages, AsDevices;
    var k := RoundOfFrame(base, size, f);
    OneBarByte(list, base, size, k, offset);
  }

  lemma {:induction false} OneBarRoundRecognized(list: seq<PciDevice>, base: nat, size: nat, k: nat, offset: nat)
    requires AllWellFormed(list) && |list| == 1 && list[0].barCount == 1
    requires list[0].bars[0] == Bar(base, base + size) && PlacedBar(base, size)
    requires Recognized(AsDevices(list), VisitFrames(base, SpanPages(size)))
    requires k < SpanPages(size) && offset < PAGE_SIZE
    ensures ByteRecognized(base, size, k, offset)
  {
    OneBarByte(list, base, size, k, offset);
    hide ByteRecognized, ByteMonitored, SpanPages, AsDevices, PlacedBar;
    var f := VisitFrames(base, SpanPages(size))[k];
    assert f in VisitFrames(base, SpanPages(size));
    assert ByteMonitored(AsDevices(list), f, offset);
  }

  lemma {:induction false} OneBarRecognized(list: seq<PciDevice>)
    requires AllWellFormed(list) && |list| == 1 && list[0].barCount == 1
    requires var bar := list[0].bars[0];
      Usable(bar) && PlacedBar(bar.address, bar.limit - bar.address)
    ensures var bar := list[0].bars[0];
      Recognized(AsDevices(list), ListFrames(list, 1)) <==> Fits32(bar.address, bar.limit - bar.address)
  {
    var bar := list[0].bars[0];
    var base, size := bar.address, bar.limit - bar.address;
    assert Low32(size) == size && Bar(base, base + size) == bar;
    OneBarFrames(list);
    RecognizedExact(base, size);
    hide VisitAddress, VisitFrames, SpanPages, Frame, ListFrames, ByteMonitored, ByteRecognized, AsDevices, PlacedBar;
    var frames := VisitFrames(base, SpanPages(size));
    if Recognized(AsDevices(list), frames) {
      forall k: nat, offset: nat | k < SpanPages(size) && offset < PAGE_SIZE
        ensures ByteRecognized(base, size, k, offset)
      {
        OneBarRoundRecognized(list, base, size, k, offset);
      }
    } else {
      var f, offset: nat :| f in frames && offset < PAGE_SIZE && !ByteMonitored(AsDevices(list), f, offset);
      if forall k: nat, o: nat :: k < SpanPages(size) && o < PAGE_SIZE ==> ByteRecognized(base, size, k, o) {
        OneBarFrameRecognized(list, base, size, f, offset);
      }
    }
  }

  // A BAR that ends at 4 GiB is closed, and none of its bytes is recognized:
  // a read of its page faults for ever.
  lemma {:induction false} BarAtFourGib(c: Config, list: seq<PciDevice>)
      returns (states: seq<Vcpu>, events: seq<Event>)
    requires AllWellFormed(list) && |list| == 1 && list[0].barCount == 1 && c.devices == AsDevices(list)
    requires list[0].bars[0] == Bar(0xFFFF_F000, FOUR_GIB)
    ensures Run(c, states, events) && Within(events, ListFrames(list, 1)) && |events| == 2
    ensures 0xF_FFFF in states[1].closed && states[2] == states[1]
    ensures events[1].Violation? && events[1].mapped && !GoesOn(c, states[1], events[1])
  {
    var bar := list[0].bars[0];
    var d := list[0];
    assert SpanPages(Low32(bar.limit - bar.address)) == 1;
    assert BarFrames(bar)[0] == 0xF_FFFF;
    assert DeviceFrames(d, 1) == DeviceFrames(d, 0) + BarFrames(bar);
    assert ListFrames(list, 1) == ListFrames(list, 0) + DeviceFrames(d, 1);
    assert forall a: nat :: !InBar(bar, a);
    assert !ByteMonitored(c.devices, 0xF_FFFF, 0);
    states, events := FailingRun(c, 0xF_FFFF, 0);
  }
}
