// The monitor's handlers on one processor, proved against the protocol.
module Monitor {
  import opened Wrappers
  import opened EptTree
  import opened PoolModel
  import opened Ept
  import opened EptLifetime
  import opened MonitorProtocol
  import MonitorSafety
  import opened BarPages
  import opened Devices
  import Mtrr

  class Processor {
    const ept: EptData

    // The runs of RAM that initialization mapped.
    const runs: seq<Run>

    // LastFaultEntry, the MTF control and the guest's instruction pointer.
    var lastFault: Option<Slot>
    var mtf: bool
    var rip: nat

    // The frame whose leaf lastFault points to, the translations that the
    // hardware has cached, and the frames being monitored.
    ghost var lastFrame: Option<nat>
    ghost var tlb: map<nat, Entry>
    ghost var closed: set<nat>

    ghost predicate Valid()
      reads this, ept, ept.pool, ept.pool.Repr, ept.preallocated
    {
      && ept.Valid() && this !in ept.pool.Repr
      && PagesHaveOneType(ept)
      && RamMapped(ept, runs)
      && (mtf <==> lastFault.Some?)
      && (lastFault.Some? <==> lastFrame.Some?)
      && (lastFrame.Some? ==>
            && lastFrame.value in ept.leaves
            && PositionOf(1, lastFrame.value) in ept.at
            && lastFault.value == LeafSlot(ept.at, lastFrame.value))
    }

    ghost function State(): Vcpu
      reads this, ept
    {
      Vcpu(ept.leaves, tlb, lastFrame, mtf, rip, closed)
    }

    ghost function TypesOf(): Types {
      Types(ept.mtrrs, ept.defaultType)
    }

    constructor (ept: EptData, runs: seq<Run>, rip: nat)
      requires ept.Valid() && PagesHaveOneType(ept) && RamMapped(ept, runs)
      ensures Valid() && this.ept == ept && this.runs == runs
      ensures State() == Vcpu(ept.leaves, map[], None, false, rip, {})
    {
      this.ept, this.runs, this.rip := ept, runs, rip;
      lastFault, mtf := None, false;
      lastFrame, tlb, closed := None, map[], {};
    }

    lemma NothingGrown()
      requires Valid()
      ensures Grown(ept.pool.Mem, ept.pool.Mem, ept.Owned(), ept.Owned())
    {
      ept.OwnedInMemory(true);
    }

    // UtilInveptGlobal.
    method InveptGlobal()
      modifies `tlb
      ensures tlb == map[]
    {
      tlb := map[];
    }

    // The hardware caches the translation of a mapped frame.
    ghost method CacheTranslation(f: nat)
      requires Valid()
      modifies `tlb
      ensures Valid()
      ensures var s := old(State()); State() == s.(tlb := if f in s.leaves then s.tlb[f := s.leaves[f]] else s.tlb)
    {
      hide Pool.Valid, EptData.Valid, PagesHaveOneType, RamMapped, PositionOf;
      if f in ept.leaves {
        tlb := tlb[f := ept.leaves[f]];
      }
    }

    // VmmpHandleMonitorTrap.
    method HandleMonitorTrap()
      requires Valid() && lastFault.Some?
      modifies this, ept`leaves, ept.pool.Repr
      ensures Valid() && fresh(ept.pool.Repr - old(ept.pool.Repr))
      ensures ept.pool.blocks == old(ept.pool.blocks)
      ensures Grown(old(ept.pool.Mem), ept.pool.Mem, old(ept.Owned()), ept.Owned())
      ensures State() == HandleTrap(old(State()))
    {
      hide Pool.Valid, EptData.Owned, Represents, StockValid, Grown, RamFrames, Physical, PagesHaveOneType, PositionOf;
      ept.SetAccess(lastFault.value, lastFrame.value, false, false, true);
      lastFault, lastFrame := None, None;
      InveptGlobal();
      mtf := false;
    }

    // The part of VmmpHandleMmio that lets the access through for one
    // instruction.
    method OpenAndArm(slot: Slot, ghost f: nat)
      requires Valid() && f in ept.leaves && PositionOf(1, f) in ept.at && slot == LeafSlot(ept.at, f)
      modifies this, ept`leaves, ept.pool.Repr
      ensures Valid() && fresh(ept.pool.Repr - old(ept.pool.Repr))
      ensures ept.pool.blocks == old(ept.pool.blocks)
      ensures Grown(old(ept.pool.Mem), ept.pool.Mem, old(ept.Owned()), ept.Owned())
      ensures State() == MonitorProtocol.HandleMmio(old(State()), f, 0, false)
    {
      hide Pool.Valid, EptData.Owned, Represents, StockValid, Grown, PositionOf, PagesHaveOneType, RamFrames, Physical;
      ept.SetAccess(slot, f, true, true, true);
      InveptGlobal();
      lastFault, lastFrame := Some(slot), Some(f);
      mtf := true;
    }

    // VmmpHandleMmio: false when the address is not monitored or not mapped.
    method HandleMmio(devices: seq<Device>, pa: nat, length: nat, decide: nat -> bool)
      returns (handled: bool, skip: bool)
      requires Valid()
      modifies this, ept`leaves, ept.pool.Repr
      ensures Valid() && fresh(ept.pool.Repr - old(ept.pool.Repr))
      ensures ept.pool.blocks == old(ept.pool.blocks)
      ensures Grown(old(ept.pool.Mem), ept.pool.Mem, old(ept.Owned()), ept.Owned())
      ensures handled <==> IsMonitored(devices, Low32(pa)) && Frame(pa) in old(ept.leaves)
      ensures handled ==> skip == Decision(devices, pa, decide)
      ensures State() ==
        if handled then MonitorProtocol.HandleMmio(old(State()), Frame(pa), length, skip) else old(State())
      ensures forall i: nat :: handled && LastAnswers(devices, i, pa) && decide(i) ==>
        rip == old(rip) + length && mtf == old(mtf) && lastFrame == old(lastFrame) && ept.leaves == old(ept.leaves)
      ensures handled && (forall i: nat :: LastAnswers(devices, i, pa) ==> !decide(i)) ==>
        var f, leaves := Frame(pa), old(ept.leaves);
        && rip == old(rip) && mtf && lastFrame == Some(f) && tlb == map[]
        && ept.leaves == leaves[f := Entry(true, true, true, leaves[f].memoryType, leaves[f].pfn)]
    {
      hide Pool.Valid, EptData.Owned, Represents, StockValid, Grown, IsMonitored, Decision, PositionOf,
        PagesHaveOneType, RamFrames, Physical, LastAnswers, Answers;
      NothingGrown();
      handled, skip := false, false;
      var monitored := IsMonitoredDevice(devices, Low32(pa));
      if !monitored {
        return;
      }
      var slot := ept.FindMapped(pa);
      if slot == None {
        return;
      }
      handled := true;
      SomeOrNoneAnswers(devices, pa);
      skip := ExecuteCallback(devices, pa, decide);
      if !skip {
        OpenAndArm(slot.value, Frame(pa));
      } else {
        rip := rip + length;
      }
    }

    // EptHandleEptViolation; `held` says whether its assertions held.
    method HandleMiss(q: Qualification, pa: nat) returns (mapped: bool, held: bool)
      requires Valid() && pa < ADDRESS_LIMIT
      modifies this, ept`count, ept`at, ept`leaves, ept.pool.Repr
      ensures Valid() && fresh(ept.pool.Repr - old(ept.pool.Repr))
      ensures ept.pool.blocks == old(ept.pool.blocks)
      ensures Grown(old(ept.pool.Mem), ept.pool.Mem, old(ept.Owned()), ept.Owned())
      ensures NoneWraps(runs) ==> held
      ensures State() == MonitorProtocol.HandleMiss(TypesOf(), old(State()), q, Frame(pa), mapped)
      ensures q.readable || q.writeable || q.executable || Frame(pa) in old(ept.leaves) ==> State() == old(State())
      ensures !(q.readable || q.writeable || q.executable || Frame(pa) in old(ept.leaves)) ==>
        && tlb == map[] && (mapped <==> Frame(pa) in ept.leaves)
        && (mapped ==> var memoryType := Mtrr.MemoryType(ept.mtrrs, ept.defaultType, pa) % 8;
              ept.leaves[Frame(pa)] == Entry(true, true, true, memoryType, Frame(pa)))
    {
      hide Pool.Valid, EptData.Owned, EptData.LeafFor, Identity, Represents, StockValid, Grown, Missing, PositionOf,
        PagesHaveOneType, RamFrames, Physical, Frame;
      NothingGrown();
      mapped, held := true, true;
      if q.readable || q.writeable || q.executable {
        return;
      }
      LeafIsIdentity(ept, pa);
      var missed;
      missed, mapped, held := MapOnDemand(ept, runs, pa);
      if !missed {
        return;
      }
      InveptGlobal();
    }

    // VmmpHandleEptViolation.
    method HandleEptViolation(
        devices: seq<Device>, q: Qualification, pa: nat, length: nat, decide: nat -> bool)
      returns (skip: bool, mapped: bool, held: bool)
      requires Valid() && pa < ADDRESS_LIMIT
      modifies this, ept`count, ept`at, ept`leaves, ept.pool.Repr
      ensures Valid() && fresh(ept.pool.Repr - old(ept.pool.Repr))
      ensures ept.pool.blocks == old(ept.pool.blocks)
      ensures Grown(old(ept.pool.Mem), ept.pool.Mem, old(ept.Owned()), ept.Owned())
      ensures NoneWraps(runs) ==> held
      ensures State() ==
        HandleViolation(Config(TypesOf(), devices), old(State()), q, pa, length, skip, mapped)
      ensures IsMonitored(devices, Low32(pa)) && Frame(pa) in old(ept.leaves) ==>
        skip == Decision(devices, pa, decide)
    {
      hide Valid, EptData.Owned, Grown, IsMonitored, Decision;
      mapped, held := true, true;
      var handled;
      handled, skip := HandleMmio(devices, pa, length, decide);
      if handled {
        return;
      }
      ghost var mem, owned := ept.pool.Mem, ept.Owned();
      mapped, held := HandleMiss(q, pa);
      GrownTwice(old(ept.pool.Mem), mem, ept.pool.Mem, old(ept.Owned()), owned, ept.Owned());
    }

    // The first half of a round of InvalidateEptPages: finds the page's entry,
    // mapping the page if needed.
    method FindOrMap(pa: nat) returns (slot: Option<Slot>, held: bool)
      requires Valid() && pa < ADDRESS_LIMIT
      modifies this, ept`count, ept`at, ept`leaves, ept.pool.Repr
      ensures Valid() && fresh(ept.pool.Repr - old(ept.pool.Repr))
      ensures ept.pool.blocks == old(ept.pool.blocks)
      ensures Grown(old(ept.pool.Mem), ept.pool.Mem, old(ept.Owned()), ept.Owned())
      ensures held
      ensures slot.Some? <==> Frame(pa) in ept.leaves
      ensures slot.Some? ==> PositionOf(1, Frame(pa)) in ept.at && slot.value == LeafSlot(ept.at, Frame(pa))
      ensures var s := old(State());
        State() ==
          if Frame(pa) in s.leaves then s
          else if slot == None then Flush(s)
          else Flush(s).(leaves := s.leaves[Frame(pa) := IdentityOf(TypesOf(), Frame(pa))])
    {
      hide Pool.Valid, EptData.Owned, EptData.LeafFor, Identity, Represents, StockValid, Grown, Missing, PositionOf,
        PagesHaveOneType, RamFrames, Physical;
      NothingGrown();
      held := true;
      slot := ept.FindMapped(pa);
      if slot.Some? {
        return;
      }
      LeafIsIdentity(ept, pa);
      slot, held := ept.MapGpaToHpa(pa);
      InveptGlobal();
    }

    // One round of InvalidateEptPages: maps the page if needed and closes it.
    method InvalidateEptPage(pa: nat) returns (ok: bool, held: bool)
      requires Valid() && pa < ADDRESS_LIMIT
      modifies this, ept`count, ept`at, ept`leaves, ept.pool.Repr
      ensures Valid() && fresh(ept.pool.Repr - old(ept.pool.Repr))
      ensures ept.pool.blocks == old(ept.pool.blocks)
      ensures Grown(old(ept.pool.Mem), ept.pool.Mem, old(ept.Owned()), ept.Owned())
      ensures held
      ensures ok || Frame(pa) !in old(ept.leaves)
      ensures State() == ClosePage(TypesOf(), old(State()), Visit(Frame(pa), ok))
    {
      hide Pool.Valid, EptData.Owned, Identity, Represents, StockValid, Grown, PositionOf, PagesHaveOneType, RamFrames,
        Physical;
      var slot;
      slot, held := FindOrMap(pa);
      ghost var mem, owned := ept.pool.Mem, ept.Owned();
      if slot == None {
        return false, held;
      }
      ept.SetAccess(slot.value, Frame(pa), false, false, true);
      GrownTwice(old(ept.pool.Mem), mem, ept.pool.Mem, old(ept.Owned()), owned, ept.Owned());
      InveptGlobal();
      closed := closed + {Frame(pa)};
      ok := true;
    }

    // InvalidateEptPages: stops at the first page that cannot be mapped.
    method InvalidateEptPages(base: nat, size: nat) returns (ghost visits: seq<Visit>, held: bool)
      requires Valid()
      modifies this, ept`count, ept`at, ept`leaves, ept.pool.Repr
      ensures Valid() && fresh(ept.pool.Repr - old(ept.pool.Repr))
      ensures ept.pool.blocks == old(ept.pool.blocks)
      ensures Grown(old(ept.pool.Mem), ept.pool.Mem, old(ept.Owned()), ept.Owned())
      ensures State() == ClosePages(TypesOf(), old(State()), visits)
      ensures VisitsOf(base, size, visits) && held
    {
      hide Valid, EptData.Owned, Grown, VisitAddress, Frame, ClosePage;
      NothingGrown();
      visits, held := [], true;
      var address := Low32(base);
      var k := 0;
      assert address == VisitAddress(base, 0) by { NextAddress(base, 0); }
      while k < SpanPages(size)
        invariant 0 <= k <= SpanPages(size) && address == VisitAddress(base, k)
        invariant Valid() && fresh(ept.pool.Repr - old(ept.pool.Repr))
        invariant ept.pool.blocks == old(ept.pool.blocks)
        invariant Grown(old(ept.pool.Mem), ept.pool.Mem, old(ept.Owned()), ept.Owned())
        invariant State() == ClosePages(TypesOf(), old(State()), visits)
        invariant |visits| == k && held
        invariant forall i :: 0 <= i < k ==> visits[i] == Visit(Frame(VisitAddress(base, i)), true)
      {
        ghost var mem, owned := ept.pool.Mem, ept.Owned();
        var ok, pageHeld := InvalidateEptPage(address);
        held := held && pageHeld;
        GrownTwice(old(ept.pool.Mem), mem, ept.pool.Mem, old(ept.Owned()), owned, ept.Owned());
        ClosePagesNext(TypesOf(), old(State()), visits, Visit(Frame(address), ok));
        visits := visits + [Visit(Frame(address), ok)];
        if !ok {
          return;
        }
        address := Low32(Low32(base) + PAGE_SIZE * k);
        NextAddress(base, k);
        k := k + 1;
      }
    }

    // ValidateEptPages: skips the pages that are not mapped.
    method ValidateEptPages(base: nat, size: nat)
      requires Valid()
      modifies this, ept`leaves, ept.pool.Repr
      ensures Valid() && fresh(ept.pool.Repr - old(ept.pool.Repr))
      ensures ept.pool.blocks == old(ept.pool.blocks)
      ensures Grown(old(ept.pool.Mem), ept.pool.Mem, old(ept.Owned()), ept.Owned())
      ensures State() == OpenPages(old(State()), VisitFrames(base, SpanPages(size)))
    {
      hide Valid, EptData.Owned, Grown, VisitAddress, Frame;
      NothingGrown();
      var address := Low32(base);
      var k := 0;
      NextAddress(base, 0);
      while k < SpanPages(size)
        invariant 0 <= k <= SpanPages(size) && address == VisitAddress(base, k)
        invariant Valid() && fresh(ept.pool.Repr - old(ept.pool.Repr))
        invariant ept.pool.blocks == old(ept.pool.blocks)
        invariant Grown(old(ept.pool.Mem), ept.pool.Mem, old(ept.Owned()), ept.Owned())
        invariant State() == OpenPages(old(State()), VisitFrames(base, k))
      {
        ghost var mem, owned := ept.pool.Mem, ept.Owned();
        ValidateEptPage(address);
        GrownTwice(old(ept.pool.Mem), mem, ept.pool.Mem, old(ept.Owned()), owned, ept.Owned());
        OpenPagesNext(old(State()), base, k);
        address := Low32(Low32(base) + PAGE_SIZE * k);
        NextAddress(base, k);
        k := k + 1;
      }
    }

    method ValidateEptPage(pa: nat)
      requires Valid()
      modifies this, ept`leaves, ept.pool.Repr
      ensures Valid() && fresh(ept.pool.Repr - old(ept.pool.Repr))
      ensures ept.pool.blocks == old(ept.pool.blocks)
      ensures Grown(old(ept.pool.Mem), ept.pool.Mem, old(ept.Owned()), ept.Owned())
      ensures State() == OpenPage(old(State()), Frame(pa))
    {
      hide Pool.Valid, EptData.Owned, Represents, StockValid, Grown, PagesHaveOneType, Frame, PositionOf, RamFrames,
        Physical;
      NothingGrown();
      var slot := ept.FindMapped(pa);
      if slot == None {
        return;
      }
      ept.SetAccess(slot.value, Frame(pa), true, true, true);
      InveptGlobal();
      closed := closed - {Frame(pa)};
    }

    // The body of DmEnableDeviceMonitor's inner loop.
    method EnableBar(devices: DeviceList, pci: PciSpace, i: nat, offset: nat, bar: nat)
      returns (ghost visits: seq<Visit>, held: bool)
      requires Valid() && AllWellFormed(devices.list) && devices !in ept.pool.Repr
      requires i < |devices.list| && bar < MAX_BAR_INDEX
      modifies this, devices, ept`count, ept`at, ept`leaves, ept.pool.Repr
      ensures Valid() && fresh(ept.pool.Repr - old(ept.pool.Repr)) && AllWellFormed(devices.list)
      ensures ept.pool.blocks == old(ept.pool.blocks)
      ensures Grown(old(ept.pool.Mem), ept.pool.Mem, old(ept.Owned()), ept.Owned())
      ensures var d := old(devices.list)[i];
        devices.list == old(devices.list)[i := WithBar(d, bar, FoundBar(pci, i, d, offset, bar))]
      ensures State() == ClosePages(TypesOf(), old(State()), visits)
      ensures VisitsAre(visits, BarFrames(devices.list[i].bars[bar])) && held
    {
      hide Valid, EptData.Owned, Grown, FoundBar, VisitAddress, Frame, SpanPages;
      NothingGrown();
      visits, held := [], true;
      devices.InitBarInfo(pci, i, offset, bar);
      var b := devices.list[i].bars[bar];
      if !Usable(b) {
        return;
      }
      visits, held := InvalidateEptPages(b.address, Low32(b.limit - b.address));
      VisitsAreBarFrames(b, visits);
    }

    // DmEnableDeviceMonitor for one device.
    method EnableDevice(devices: DeviceList, pci: PciSpace, i: nat) returns (ghost visits: seq<Visit>, held: bool)
      requires Valid() && AllWellFormed(devices.list) && devices !in ept.pool.Repr && i < |devices.list|
      modifies this, devices, ept`count, ept`at, ept`leaves, ept.pool.Repr
      ensures Valid() && fresh(ept.pool.Repr - old(ept.pool.Repr)) && AllWellFormed(devices.list)
      ensures ept.pool.blocks == old(ept.pool.blocks)
      ensures Grown(old(ept.pool.Mem), ept.pool.Mem, old(ept.Owned()), ept.Owned())
      ensures var d := old(devices.list)[i];
        devices.list == old(devices.list)[i := Discovered(pci, i, d, d.barCount)]
      ensures State() == ClosePages(TypesOf(), old(State()), visits)
      ensures VisitsAre(visits, DeviceFrames(devices.list[i], devices.list[i].barCount)) && held
    {
      hide Valid, EptData.Owned, Grown, FoundBar, BarFrames, ClosePages, VisitsAre;
      NothingGrown();
      ghost var list, d := devices.list, devices.list[i];
      visits, held := [], true;
      NoPages(TypesOf(), State());
      NoVisits();
      var bar, offset := 0, 0;
      while bar < devices.list[i].barCount
        invariant 0 <= bar <= d.barCount && offset == OffsetOf(d, bar)
        invariant Valid() && fresh(ept.pool.Repr - old(ept.pool.Repr)) && AllWellFormed(devices.list)
        invariant ept.pool.blocks == old(ept.pool.blocks)
        invariant Grown(old(ept.pool.Mem), ept.pool.Mem, old(ept.Owned()), ept.Owned())
        invariant devices.list == list[i := Discovered(pci, i, d, bar)]
        invariant State() == ClosePages(TypesOf(), old(State()), visits)
        invariant VisitsAre(visits, DeviceFrames(devices.list[i], bar)) && held
      {
        ghost var p := devices.list[i];
        DiscoveredNext(pci, i, d, bar);
        ghost var mem, owned := ept.pool.Mem, ept.Owned();
        ghost var more;
        var barHeld;
        more, barHeld := EnableBar(devices, pci, i, offset, bar);
        held := held && barHeld;
        GrownTwice(old(ept.pool.Mem), mem, ept.pool.Mem, old(ept.Owned()), owned, ept.Owned());
        DeviceFramesSame(p, devices.list[i], bar);
        ClosePagesConcat(TypesOf(), old(State()), visits, more);
        VisitsConcat(visits, DeviceFrames(devices.list[i], bar), more, BarFrames(devices.list[i].bars[bar]));
        visits := visits + more;
        if devices.list[i].wide[bar] {
          offset := offset + 1;
        }
        bar, offset := bar + 1, offset + 1;
      }
    }

    // DmEnableDeviceMonitor.
    method EnableDeviceMonitor(devices: DeviceList, pci: PciSpace) returns (ghost visits: seq<Visit>, held: bool)
      requires Valid() && AllWellFormed(devices.list) && devices !in ept.pool.Repr
      modifies this, devices, ept`count, ept`at, ept`leaves, ept.pool.Repr
      ensures Valid() && fresh(ept.pool.Repr - old(ept.pool.Repr)) && AllWellFormed(devices.list)
      ensures ept.pool.blocks == old(ept.pool.blocks)
      ensures Grown(old(ept.pool.Mem), ept.pool.Mem, old(ept.Owned()), ept.Owned())
      ensures devices.list == DiscoveredList(pci, old(devices.list), |old(devices.list)|)
      ensures State() == ClosePages(TypesOf(), old(State()), visits)
      ensures VisitsAre(visits, ListFrames(devices.list, |devices.list|)) && held
    {
      hide Valid, EptData.Owned, Grown, Discovered, DeviceFrames, ClosePages, VisitsAre;
      NothingGrown();
      ghost var list := devices.list;
      visits, held := [], true;
      NoPages(TypesOf(), State());
      NoVisits();
      assert DiscoveredList(pci, list, 0) == list;
      for i := 0 to |devices.list|
        invariant |devices.list| == |list| && AllWellFormed(devices.list)
        invariant Valid() && fresh(ept.pool.Repr - old(ept.pool.Repr))
        invariant ept.pool.blocks == old(ept.pool.blocks)
        invariant Grown(old(ept.pool.Mem), ept.pool.Mem, old(ept.Owned()), ept.Owned())
        invariant devices.list == DiscoveredList(pci, list, i)
        invariant State() == ClosePages(TypesOf(), old(State()), visits)
        invariant VisitsAre(visits, ListFrames(devices.list, i)) && held
      {
        DiscoveredListNext(pci, list, i);
        ghost var mem, owned := ept.pool.Mem, ept.Owned();
        ghost var more;
        var deviceHeld;
        more, deviceHeld := EnableDevice(devices, pci, i);
        held := held && deviceHeld;
        GrownTwice(old(ept.pool.Mem), mem, ept.pool.Mem, old(ept.Owned()), owned, ept.Owned());
        ClosePagesConcat(TypesOf(), old(State()), visits, more);
        VisitsConcat(visits, ListFrames(devices.list, i),
          more, DeviceFrames(devices.list[i], devices.list[i].barCount));
        visits := visits + more;
      }
    }

    // The body of DmDisableDeviceMonitor's inner loop.
    method DisableBar(devices: DeviceList, pci: PciSpace, i: nat, offset: nat, bar: nat)
      requires Valid() && AllWellFormed(devices.list) && devices !in ept.pool.Repr
      requires i < |devices.list| && bar < MAX_BAR_INDEX
      modifies this, devices, ept`leaves, ept.pool.Repr
      ensures Valid() && fresh(ept.pool.Repr - old(ept.pool.Repr)) && AllWellFormed(devices.list)
      ensures ept.pool.blocks == old(ept.pool.blocks)
      ensures Grown(old(ept.pool.Mem), ept.pool.Mem, old(ept.Owned()), ept.Owned())
      ensures var d := old(devices.list)[i];
        devices.list == old(devices.list)[i := WithBar(d, bar, FoundBar(pci, i, d, offset, bar))]
      ensures State() == OpenPages(old(State()), BarFrames(devices.list[i].bars[bar]))
    {
      hide Valid, EptData.Owned, Grown, FoundBar, VisitAddress, Frame, SpanPages;
      NothingGrown();
      devices.InitBarInfo(pci, i, offset, bar);
      var b := devices.list[i].bars[bar];
      if !Usable(b) {
        return;
      }
      ValidateEptPages(b.address, Low32(b.limit - b.address));
    }

    // DmDisableDeviceMonitor for one device.
    method DisableDevice(devices: DeviceList, pci: PciSpace, i: nat)
      requires Valid() && AllWellFormed(devices.list) && devices !in ept.pool.Repr && i < |devices.list|
      modifies this, devices, ept`leaves, ept.pool.Repr
      ensures Valid() && fresh(ept.pool.Repr - old(ept.pool.Repr)) && AllWellFormed(devices.list)
      ensures ept.pool.blocks == old(ept.pool.blocks)
      ensures Grown(old(ept.pool.Mem), ept.pool.Mem, old(ept.Owned()), ept.Owned())
      ensures var d := old(devices.list)[i];
        devices.list == old(devices.list)[i := Discovered(pci, i, d, d.barCount)]
      ensures State() == OpenPages(old(State()), DeviceFrames(devices.list[i], devices.list[i].barCount))
    {
      hide Valid, EptData.Owned, Grown, FoundBar, BarFrames, OpenPages;
      NothingGrown();
      ghost var list, d := devices.list, devices.list[i];
      NoPages(TypesOf(), State());
      var bar, offset := 0, 0;
      while bar < devices.list[i].barCount
        invariant 0 <= bar <= d.barCount && offset == OffsetOf(d, bar)
        invariant Valid() && fresh(ept.pool.Repr - old(ept.pool.Repr)) && AllWellFormed(devices.list)
        invariant ept.pool.blocks == old(ept.pool.blocks)
        invariant Grown(old(ept.pool.Mem), ept.pool.Mem, old(ept.Owned()), ept.Owned())
        invariant devices.list == list[i := Discovered(pci, i, d, bar)]
        invariant State() == OpenPages(old(State()), DeviceFrames(devices.list[i], bar))
      {
        ghost var p := devices.list[i];
        DiscoveredNext(pci, i, d, bar);
        ghost var mem, owned := ept.pool.Mem, ept.Owned();
        DisableBar(devices, pci, i, offset, bar);
        GrownTwice(old(ept.pool.Mem), mem, ept.pool.Mem, old(ept.Owned()), owned, ept.Owned());
        DeviceFramesSame(p, devices.list[i], bar);
        OpenPagesConcat(old(State()), DeviceFrames(p, bar), BarFrames(devices.list[i].bars[bar]));
        if devices.list[i].wide[bar] {
          offset := offset + 1;
        }
        bar, offset := bar + 1, offset + 1;
      }
    }

    // DmDisableDeviceMonitor.
    method DisableDeviceMonitor(devices: DeviceList, pci: PciSpace)
      requires Valid() && AllWellFormed(devices.list) && devices !in ept.pool.Repr
      modifies this, devices, ept`leaves, ept.pool.Repr
      ensures Valid() && fresh(ept.pool.Repr - old(ept.pool.Repr)) && AllWellFormed(devices.list)
      ensures ept.pool.blocks == old(ept.pool.blocks)
      ensures Grown(old(ept.pool.Mem), ept.pool.Mem, old(ept.Owned()), ept.Owned())
      ensures devices.list == DiscoveredList(pci, old(devices.list), |old(devices.list)|)
      ensures State() == OpenPages(old(State()), ListFrames(devices.list, |devices.list|))
    {
      hide Valid, EptData.Owned, Grown, Discovered, DeviceFrames, OpenPages;
      NothingGrown();
      ghost var list := devices.list;
      NoPages(TypesOf(), State());
      assert DiscoveredList(pci, list, 0) == list;
      for i := 0 to |devices.list|
        invariant |devices.list| == |list| && AllWellFormed(devices.list)
        invariant Valid() && fresh(ept.pool.Repr - old(ept.pool.Repr))
        invariant ept.pool.blocks == old(ept.pool.blocks)
        invariant Grown(old(ept.pool.Mem), ept.pool.Mem, old(ept.Owned()), ept.Owned())
        invariant devices.list == DiscoveredList(pci, list, i)
        invariant State() == OpenPages(old(State()), ListFrames(devices.list, i))
      {
        DiscoveredListNext(pci, list, i);
        ghost var done := ListFrames(devices.list, i);
        ghost var mem, owned := ept.pool.Mem, ept.Owned();
        DisableDevice(devices, pci, i);
        GrownTwice(old(ept.pool.Mem), mem, ept.pool.Mem, old(ept.Owned()), owned, ept.Owned());
        OpenPagesConcat(old(State()), done, DeviceFrames(devices.list[i], devices.list[i].barCount));
      }
    }
  }

  // With unchanged configuration space, enabling the monitor, any number of
  // fault and trap rounds and disabling it again give every leaf its original
  // entry: both calls visit the frames of the same list.
  lemma {:induction false} MonitoringRestores(
      c: Config, states: seq<Vcpu>, events: seq<Event>, pci: PciSpace, list: seq<PciDevice>, visits: seq<Visit>)
    requires AllWellFormed(list) && MonitorSafety.Run(c, states, events) && |events| > 1
    requires var found := DiscoveredList(pci, list, |list|);
      && events[0] == Enable(visits) && VisitsAre(visits, ListFrames(found, |list|))
      && events[|events| - 1] == Disable(ListFrames(DiscoveredList(pci, found, |list|), |list|))
    requires forall i :: 0 < i < |events| - 1 ==> !events[i].Enable? && !events[i].Disable?
    ensures var first, last := states[0], states[|events|];
      && last.closed == {}
      && (forall f <- first.leaves :: f in last.leaves && last.leaves[f] == first.leaves[f])
  {
    ListIsStable(pci, list);
    MonitorSafety.EnableRunDisable(c, states, events, visits, ListFrames(DiscoveredList(pci, list, |list|), |list|));
  }

  function FramesOf(visits: seq<Visit>): (frames: seq<nat>)
    ensures |frames| == |visits|
  {
    seq(|visits|, i requires 0 <= i < |visits| => visits[i].frame)
  }

  // The visits stay within the frames, and are all of them in order unless one
  // of the visited pages could not be mapped.
  ghost predicate VisitsAre(visits: seq<Visit>, frames: seq<nat>) {
    && (forall v <- visits :: v.frame in frames)
    && ((forall v <- visits :: v.ok) ==> FramesOf(visits) == frames)
  }

  lemma NoVisits()
    ensures VisitsAre([], [])
  {
  }

  lemma {:induction false} VisitsConcat(a: seq<Visit>, f: seq<nat>, b: seq<Visit>, g: seq<nat>)
    requires VisitsAre(a, f) && VisitsAre(b, g)
    ensures VisitsAre(a + b, f + g)
  {
    var c := a + b;
    if forall v <- c :: v.ok {
      assert forall v <- a :: v in c;
      assert forall v <- b :: v in c;
      assert FramesOf(c) == FramesOf(a) + FramesOf(b);
    }
  }

  lemma {:induction false} VisitsAreBarFrames(b: Bar, visits: seq<Visit>)
    requires Usable(b) && VisitsOf(b.address, Low32(b.limit - b.address), visits)
    ensures VisitsAre(visits, BarFrames(b))
  {
    var frames := BarFrames(b);
    forall i | 0 <= i < |visits|
      ensures visits[i].frame in frames
    {
      assert visits[i].frame == frames[i];
    }
    if |visits| < |frames| {
      assert !visits[|visits| - 1].ok;
    } else {
      assert FramesOf(visits) == frames;
    }
  }

  lemma NoPages(t: Types, s: Vcpu)
    ensures ClosePages(t, s, []) == s && OpenPages(s, []) == s
  {
  }

  lemma {:induction false} ClosePagesConcat(t: Types, s: Vcpu, a: seq<Visit>, b: seq<Visit>)
    ensures ClosePages(t, s, a + b) == ClosePages(t, ClosePages(t, s, a), b)
  {
    if b == [] {
      assert a + b == a;
    } else {
      var front, last := b[..|b| - 1], b[|b| - 1];
      ClosePagesConcat(t, s, a, front);
      assert a + b == (a + front) + [last];
      ClosePagesNext(t, s, a + front, last);
    }
  }

  lemma {:induction false} OpenPagesConcat(s: Vcpu, a: seq<nat>, b: seq<nat>)
    ensures OpenPages(s, a + b) == OpenPages(OpenPages(s, a), b)
  {
    if b == [] {
      assert a + b == a;
    } else {
      var front, last := b[..|b| - 1], b[|b| - 1];
      OpenPagesConcat(s, a, front);
      assert a + b == (a + front) + [last];
      assert ((a + front) + [last])[..|a + front|] == a + front;
    }
  }

  // The visits of one BAR: its frames in order, all mapped but perhaps the last.
  ghost predicate VisitsOf(base: nat, size: nat, visits: seq<Visit>) {
    && |visits| <= SpanPages(size)
    && (forall i :: 0 <= i < |visits| ==> visits[i].frame == Frame(VisitAddress(base, i)))
    && (forall i :: 0 <= i < |visits| - 1 ==> visits[i].ok)
    && (|visits| < SpanPages(size) ==> visits != [] && !visits[|visits| - 1].ok)
  }

  lemma NextAddress(base: nat, k: nat)
    ensures VisitAddress(base, 0) == Low32(base)
    ensures VisitAddress(base, k + 1) == Low32(Low32(base) + PAGE_SIZE * k)
  {
  }

  lemma {:induction false} ClosePagesNext(t: Types, s: Vcpu, visits: seq<Visit>, v: Visit)
    ensures ClosePages(t, s, visits + [v]) == ClosePage(t, ClosePages(t, s, visits), v)
  {
    assert (visits + [v])[..|visits|] == visits;
  }

  lemma {:induction false} OpenPagesNext(s: Vcpu, base: nat, k: nat)
    ensures OpenPages(s, VisitFrames(base, k + 1)) ==
      OpenPage(OpenPages(s, VisitFrames(base, k)), Frame(VisitAddress(base, k)))
  {
    assert VisitFrames(base, k + 1)[..k] == VisitFrames(base, k);
  }

  // DmIsMonitoredDevice.
  method IsMonitoredDevice(devices: seq<Device>, address: nat) returns (ret: bool)
    ensures ret <==> IsMonitored(devices, address)
  {
    ret := false;
    for i := 0 to |devices|
      invariant ret <==> exists k :: 0 <= k < i && InDevice(devices[k], address)
    {
      for j := 0 to |devices[i].bars|
        invariant ret <==> exists k :: 0 <= k < i && InDevice(devices[k], address)
        invariant forall l :: 0 <= l < j ==> !InBar(devices[i].bars[l], address)
      {
        if InBar(devices[i].bars[j], address) {
          ret := true;
          break;
        }
      }
    }
  }

  // DmExecuteCallback; `decide` gives the answer of each device's callback.
  method ExecuteCallback(devices: seq<Device>, pa: nat, decide: nat -> bool) returns (ret: bool)
    ensures ret == Decision(devices, pa, decide)
    ensures forall i: nat :: LastAnswers(devices, i, pa) ==> ret == decide(i)
    ensures (forall i :: 0 <= i < |devices| ==> !Answers(devices[i], pa)) ==> !ret
  {
    DecisionExact(devices, pa, decide);
    ret := false;
    for i := 0 to |devices|
      invariant ret == var c := Callbacks(devices, pa, i); if c == [] then false else decide(c[|c| - 1])
    {
      var j := 0;
      while j < |devices[i].bars|
        invariant 0 <= j <= |devices[i].bars|
        invariant forall l :: 0 <= l < j ==> !InBar(devices[i].bars[l], pa)
      {
        if InBar(devices[i].bars[j], pa) {
          if devices[i].hasCallback {
            ret := decide(i);
          }
          break;
        }
        j := j + 1;
      }
    }
  }

  ghost predicate RamMapped(ept: EptData, runs: seq<Run>)
    reads ept
  {
    Physical(runs) && RamFrames(runs, |runs|) <= ept.leaves.Keys
  }

  lemma {:induction false} LeafIsIdentity(ept: EptData, pa: nat)
    requires PagesHaveOneType(ept) && pa < ADDRESS_LIMIT
    ensures ept.LeafFor(pa) == Identity(ept.mtrrs, ept.defaultType, Frame(pa))
  {
    assert Frame(pa) == pa / 0x1000;
    Mtrr.MemoryTypeOfPage(ept.mtrrs, ept.defaultType, pa);
  }

  // MTRR ranges consist of whole pages, as initialization leaves them.
  ghost predicate PagesHaveOneType(ept: EptData) {
    forall e <- ept.mtrrs[..Mtrr.EnabledFrom(ept.mtrrs, 0)] :: Mtrr.WholePages(e)
  }

  ghost function LeafSlot(at: Placement, f: nat): Slot
    requires PositionOf(1, f) in at
  {
    Slot(at[PositionOf(1, f)], f % TABLE_LENGTH)
  }
}
