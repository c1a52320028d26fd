// The device monitor as a state machine, one machine for each processor
// (vmm.cpp, DevMon.cpp and the violation handler of ept.cpp).
//
// The monitor closes pages of device memory: it makes their EPT entries
// execute-only.  An access to a closed page exits to the monitor, which runs
// the device's callback, opens the page and sets the monitor trap flag (MTF);
// after one guest instruction the trap closes the page again.
module MonitorProtocol {
  import opened Wrappers
  import opened EptTree
  import opened EptLifetime
  import Mtrr

  const ADDRESS_LIMIT := 0x1_0000_0000_0000

  // A cast to ULONG.
  function Low32(x: nat): nat {
    x % 0x1_0000_0000
  }

  // ---------------------------------------------------------------------
  // Devices
  // ---------------------------------------------------------------------

  datatype Bar = Bar(address: nat, limit: nat)

  // The first BarCount BARs of a device and whether it has a callback.
  datatype Device = Device(bars: seq<Bar>, hasCallback: bool)

  predicate InBar(bar: Bar, address: nat) {
    Low32(bar.address) <= address <= Low32(bar.limit)
  }

  predicate InDevice(device: Device, address: nat) {
    exists j :: 0 <= j < |device.bars| && InBar(device.bars[j], address)
  }

  predicate IsMonitored(devices: seq<Device>, address: nat) {
    exists i :: 0 <= i < |devices| && InDevice(devices[i], address)
  }

  // The devices whose callback runs for an address, in order: here the address
  // is not cut to 32 bits.
  function Callbacks(devices: seq<Device>, pa: nat, n: nat): seq<nat>
    requires n <= |devices|
  {
    if n == 0 then []
    else if InDevice(devices[n - 1], pa) && devices[n - 1].hasCallback then Callbacks(devices, pa, n - 1) + [n - 1]
    else Callbacks(devices, pa, n - 1)
  }

  // What the callbacks decide: the answer of the last one that runs.
  function Decision(devices: seq<Device>, pa: nat, decide: nat -> bool): bool {
    var c := Callbacks(devices, pa, |devices|);
    if c == [] then false else decide(c[|c| - 1])
  }

  // The callbacks that run are exactly those of the devices that own the
  // address and have one.
  lemma {:induction false} CallbackRuns(devices: seq<Device>, pa: nat, n: nat)
    requires n <= |devices|
    ensures forall d <- Callbacks(devices, pa, n) :: d < n && InDevice(devices[d], pa) && devices[d].hasCallback
    ensures forall d: nat :: d < n && InDevice(devices[d], pa) && devices[d].hasCallback ==>
      d in Callbacks(devices, pa, n)
  {
    if n > 0 {
      CallbackRuns(devices, pa, n - 1);
    }
  }

  // The device has a callback and owns the address, which is not cut.
  predicate Answers(d: Device, pa: nat) {
    d.hasCallback && exists j :: 0 <= j < |d.bars| && Low32(d.bars[j].address) <= pa <= Low32(d.bars[j].limit)
  }

  // The last device in the list that does.
  ghost predicate LastAnswers(devices: seq<Device>, i: nat, pa: nat) {
    i < |devices| && Answers(devices[i], pa) && forall k :: i < k < |devices| ==> !Answers(devices[k], pa)
  }

  // The last device that owns the address and has a callback decides; when
  // there is none the access is let through.
  lemma {:induction false} DecisionExact(devices: seq<Device>, pa: nat, decide: nat -> bool)
    ensures forall i: nat :: LastAnswers(devices, i, pa) ==> Decision(devices, pa, decide) == decide(i)
    ensures (forall i :: 0 <= i < |devices| ==> !Answers(devices[i], pa)) ==> !Decision(devices, pa, decide)
  {
    var ran := Callbacks(devices, pa, |devices|);
    LastCallback(devices, pa, |devices|);
    CallbackRuns(devices, pa, |devices|);
    forall i | 0 <= i < |devices|
      ensures i in ran <==> Answers(devices[i], pa)
    {
      AnswersIs(devices[i], pa);
    }
    forall i: nat | LastAnswers(devices, i, pa)
      ensures ran != [] && ran[|ran| - 1] == i
    {
      assert i in ran;
    }
  }

  lemma {:induction false} AnswersIs(d: Device, pa: nat)
    ensures Answers(d, pa) <==> d.hasCallback && InDevice(d, pa)
  {
    if Answers(d, pa) {
      var j :| 0 <= j < |d.bars| && Low32(d.bars[j].address) <= pa <= Low32(d.bars[j].limit);
      assert InBar(d.bars[j], pa);
    }
  }

  lemma {:induction false} SomeOrNoneAnswers(devices: seq<Device>, pa: nat)
    ensures (exists i: nat :: LastAnswers(devices, i, pa))
      || forall i :: 0 <= i < |devices| ==> !Answers(devices[i], pa)
  {
    if i :| 0 <= i < |devices| && Answers(devices[i], pa) {
      var k := LastFrom(devices, i, pa);
    }
  }

  lemma {:induction false} LastFrom(devices: seq<Device>, i: nat, pa: nat) returns (k: nat)
    requires i < |devices| && Answers(devices[i], pa)
    ensures LastAnswers(devices, k, pa)
    decreases |devices| - i
  {
    k := i;
    if j :| i < j < |devices| && Answers(devices[j], pa) {
      k := LastFrom(devices, j, pa);
    }
  }

  // The callbacks run in the order of the list.
  lemma {:induction false} LastCallback(devices: seq<Device>, pa: nat, n: nat)
    requires n <= |devices|
    ensures var ran := Callbacks(devices, pa, n);
      ran != [] ==> ran[|ran| - 1] in ran && forall d <- ran :: d <= ran[|ran| - 1] < n
  {
    if n > 0 {
      LastCallback(devices, pa, n - 1);
    }
  }

  // When every device has a callback, a recognized access runs one if and only
  // if the address is below 4 GiB; above, it is recognized by its low half only.
  lemma {:induction false} RecognizedRunsExact(devices: seq<Device>, pa: nat)
    requires IsMonitored(devices, Low32(pa)) && forall d <- devices :: d.hasCallback
    ensures Callbacks(devices, pa, |devices|) != [] <==> pa < 0x1_0000_0000
  {
    var ran := Callbacks(devices, pa, |devices|);
    CallbackRuns(devices, pa, |devices|);
    assert ran == [] || ran[0] in ran;
    if pa < 0x1_0000_0000 {
      var i :| 0 <= i < |devices| && InDevice(devices[i], pa);
      assert i in ran;
    }
  }

  // Such an address: recognized, but no callback runs.
  lemma {:induction false} RecognizedWithoutCallback(device: Device, bar: Bar)
    requires device.bars == [bar] && device.hasCallback && bar.address <= bar.limit < 0x1_0000_0000
    ensures var pa := bar.address + 0x1_0000_0000;
      IsMonitored([device], Low32(pa)) && Callbacks([device], pa, 1) == []
  {
    var pa := bar.address + 0x1_0000_0000;
    assert InBar(device.bars[0], Low32(pa));
    assert InDevice([device][0], Low32(pa));
    assert !InDevice([device][0], pa);
  }

  // What does not change while the monitor runs: memory types and BARs.
  datatype Types = Types(mtrrs: seq<Mtrr.MtrrData>, defaultType: nat)

  datatype Config = Config(types: Types, devices: seq<Device>)

  function IdentityOf(t: Types, f: nat): Entry {
    Identity(t.mtrrs, t.defaultType, f)
  }

  // ---------------------------------------------------------------------
  // States and handlers
  // ---------------------------------------------------------------------

  // One processor.  `leaves` is its EPT mapping, `tlb` the translations that
  // the hardware has cached, `lastFault` the frame whose entry LastFaultEntry
  // points to.  `closed` records which frames are being monitored.
  datatype Vcpu = Vcpu(
    leaves: map<nat, Entry>, tlb: map<nat, Entry>, lastFault: Option<nat>, mtf: bool, rip: nat, closed: set<nat>)

  // The bits of the exit qualification: what the access needed and what the
  // entry allowed.
  datatype Qualification = Qualification(
    readAccess: bool, writeAccess: bool, readable: bool, writeable: bool, executable: bool)

  function Opened(e: Entry): Entry {
    e.(read := true, write := true, execute := true)
  }

  function Closed(e: Entry): Entry {
    e.(read := false, write := false, execute := true)
  }

  // UtilInveptGlobal.
  function Flush(s: Vcpu): Vcpu {
    s.(tlb := map[])
  }

  // VmmpHandleMmio on a mapped frame; `skip` is what the callback returned.
  function HandleMmio(s: Vcpu, f: nat, length: nat, skip: bool): Vcpu
    requires f in s.leaves
  {
    if skip then
      s.(rip := s.rip + length)
    else
      Flush(s).(leaves := s.leaves[f := Opened(s.leaves[f])], lastFault := Some(f), mtf := true)
  }

  // EptHandleEptViolation; `mapped` says whether the tables could be allocated.
  function HandleMiss(t: Types, s: Vcpu, q: Qualification, f: nat, mapped: bool): Vcpu {
    if q.readable || q.writeable || q.executable || f in s.leaves then
      s
    else
      Flush(s).(leaves := if mapped then s.leaves[f := IdentityOf(t, f)] else s.leaves)
  }

  // VmmpHandleEptViolation.
  function HandleViolation(
      c: Config, s: Vcpu, q: Qualification, pa: nat, length: nat, skip: bool, mapped: bool): Vcpu
  {
    if IsMonitored(c.devices, Low32(pa)) && Frame(pa) in s.leaves then
      HandleMmio(s, Frame(pa), length, skip)
    else
      HandleMiss(c.types, s, q, Frame(pa), mapped)
  }

  // VmmpHandleMonitorTrap.
  function HandleTrap(s: Vcpu): Vcpu
    requires s.lastFault.Some? && s.lastFault.value in s.leaves
  {
    var f := s.lastFault.value;
    Flush(s).(leaves := s.leaves[f := Closed(s.leaves[f])], lastFault := None, mtf := false)
  }

  // One page of InvalidateEptPages; `ok` is false when it could not be mapped.
  datatype Visit = Visit(frame: nat, ok: bool)

  function ClosePage(t: Types, s: Vcpu, v: Visit): Vcpu {
    if !v.ok then Flush(s)
    else
      var entry := if v.frame in s.leaves then s.leaves[v.frame] else IdentityOf(t, v.frame);
      Flush(s).(leaves := s.leaves[v.frame := Closed(entry)], closed := s.closed + {v.frame})
  }

  function ClosePages(t: Types, s: Vcpu, visits: seq<Visit>): Vcpu {
    if visits == [] then s
    else ClosePage(t, ClosePages(t, s, visits[..|visits| - 1]), visits[|visits| - 1])
  }

  // One page of ValidateEptPages.
  function OpenPage(s: Vcpu, f: nat): Vcpu {
    if f !in s.leaves then s
    else Flush(s).(leaves := s.leaves[f := Opened(s.leaves[f])], closed := s.closed - {f})
  }

  function OpenPages(s: Vcpu, frames: seq<nat>): Vcpu {
    if frames == [] then s
    else OpenPage(OpenPages(s, frames[..|frames| - 1]), frames[|frames| - 1])
  }

  // ---------------------------------------------------------------------
  // Guest and hardware
  // ---------------------------------------------------------------------

  datatype Access = Read | Write | Execute

  predicate Permits(e: Entry, a: Access) {
    match a
    case Read => e.read
    case Write => e.write
    case Execute => e.execute
  }

  datatype Event =
    | Cache(frame: nat)                      // the hardware caches a translation
    | Complete(frame: nat, access: Access)   // a guest access completes
    | Violation(pa: nat, access: Access, length: nat, skip: bool, mapped: bool)
    | Trap
    | Enable(visits: seq<Visit>)
    | Disable(frames: seq<nat>)

  // The qualification that the hardware reports for an access to a frame.
  function Qualify(s: Vcpu, f: nat, a: Access): Qualification {
    var e := if f in s.leaves then s.leaves[f] else ZERO_ENTRY;
    Qualification(a == Read, a == Write, e.read, e.write, e.execute)
  }

  // When an event can happen.  The hardware exits on an access that the entry
  // does not permit, and after one instruction when the MTF is set.  Two
  // conditions are assumptions about the guest: between arming and the trap
  // (MTF, section 25.5.2 of the Intel SDM, volume 3C) the instruction faults on
  // no second closed page and makes no hypercall.
  predicate Possible(s: Vcpu, e: Event) {
    match e
    case Cache(f) => f in s.leaves
    case Complete(f, a) =>
      if f in s.tlb then Permits(s.tlb[f], a) else f in s.leaves && Permits(s.leaves[f], a)
    case Violation(pa, a, length, skip, mapped) =>
      && pa < ADDRESS_LIMIT && length > 0
      && (Frame(pa) in s.leaves ==> !Permits(s.leaves[Frame(pa)], a))
      && (Frame(pa) in s.leaves ==> s.lastFault == None)
    case Trap => s.mtf
    case Enable(visits) =>
      && s.lastFault == None
      && (forall v <- visits :: v.frame < FRAME_COUNT)
    case Disable(frames) => s.lastFault == None
  }

  predicate Defined(s: Vcpu, e: Event) {
    e.Trap? ==> s.lastFault.Some? && s.lastFault.value in s.leaves
  }

  function Next(c: Config, s: Vcpu, e: Event): Vcpu
    requires Defined(s, e)
  {
    match e
    case Cache(f) => if f in s.leaves then s.(tlb := s.tlb[f := s.leaves[f]]) else s
    case Complete(f, a) => s
    case Violation(pa, a, length, skip, mapped) =>
      HandleViolation(c, s, Qualify(s, Frame(pa), a), pa, length, skip, mapped)
    case Trap => HandleTrap(s)
    case Enable(visits) => ClosePages(c.types, s, visits)
    case Disable(frames) => OpenPages(s, frames)
  }

  // ---------------------------------------------------------------------
  // The invariant
  // ---------------------------------------------------------------------

  // Each leaf maps its own frame with the type that the MTRRs give, and allows
  // everything, or only execution when the frame is closed and not the one
  // being stepped over.
  ghost predicate LeavesAsExpected(t: Types, s: Vcpu) {
    forall f <- s.leaves :: s.leaves[f] ==
      if f in s.closed && s.lastFault != Some(f) then Closed(IdentityOf(t, f)) else IdentityOf(t, f)
  }

  ghost predicate Inv(t: Types, s: Vcpu) {
    && (s.mtf <==> s.lastFault.Some?)
    && (s.lastFault.Some? ==> s.lastFault.value in s.closed)
    && s.closed <= s.leaves.Keys
    && LeavesAsExpected(t, s)
    && (forall f <- s.tlb :: f in s.leaves && s.tlb[f] == s.leaves[f])
  }

  // The monitor trap handler never meets a null LastFaultEntry.
  lemma TrapNeverNull(c: Config, s: Vcpu, e: Event)
    requires Inv(c.types, s) && Possible(s, e)
    ensures Defined(s, e)
  {
  }

  lemma {:induction false} ClosingKeepsInv(t: Types, s: Vcpu, visits: seq<Visit>)
    requires Inv(t, s) && s.lastFault == None
    ensures var s' := ClosePages(t, s, visits);
      && Inv(t, s') && s'.lastFault == None && s'.rip == s.rip
      && s.leaves.Keys <= s'.leaves.Keys && s.closed <= s'.closed
      && (forall f :: f in s'.closed <==> f in s.closed || Visit(f, true) in visits)
  {
    if visits != [] {
      var front, last := visits[..|visits| - 1], visits[|visits| - 1];
      assert visits == front + [last];
      ClosingKeepsInv(t, s, front);
    }
  }

  lemma {:induction false} OpeningKeepsInv(t: Types, s: Vcpu, frames: seq<nat>)
    requires Inv(t, s) && s.lastFault == None
    ensures var s' := OpenPages(s, frames);
      && Inv(t, s') && s'.lastFault == None && s'.rip == s.rip
      && s'.leaves.Keys == s.leaves.Keys
      && (forall f :: f in s'.closed <==> f in s.closed && f !in frames)
  {
    if frames != [] {
      var front, last := frames[..|frames| - 1], frames[|frames| - 1];
      assert frames == front + [last];
      OpeningKeepsInv(t, s, front);
    }
  }

  // Every step keeps the invariant, and no step unmaps a frame.
  lemma {:induction false} StepKeepsInv(c: Config, s: Vcpu, e: Event)
    requires Inv(c.types, s) && Possible(s, e)
    ensures Defined(s, e)
    ensures Inv(c.types, Next(c, s, e))
    ensures s.leaves.Keys <= Next(c, s, e).leaves.Keys
  {
    match e
    case Enable(visits) => ClosingKeepsInv(c.types, s, visits);
    case Disable(frames) => OpeningKeepsInv(c.types, s, frames);
    case _ =>
  }
}
