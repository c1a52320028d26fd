// The handlers at work, and the whole life of one processor's EPT data:
// initialization, any sequence of violations, traps and hypercalls, termination.
module MonitorLifetime {
  import opened Wrappers
  import opened EptTree
  import opened PoolModel
  import opened Ept
  import opened EptLifetime
  import opened MonitorProtocol
  import opened Devices
  import opened Monitor
  import opened MonitorSteps
  import MonitorProgress
  import MonitorSafety
  import Mtrr

  // The steps that do not exit to the monitor.
  ghost method DoAccess(p: Processor, pci: PciSpace, list: seq<PciDevice>, e: Step) returns (v: Event)
    requires p.Valid() && AllWellFormed(list) && (e.Cached? || e.Completed?)
    modifies p`tlb
    ensures p.Valid() && list == ListAfter(pci, list, e)
    ensures Follows(p.TypesOf(), pci, list, old(p.State()), e, v, p.State())
  {
    hide *;
    match e {
      case Cached(f) =>
        v := Cache(f);
        p.CacheTranslation(f);
      case Completed(f, a) =>
        v := Complete(f, a);
    }
    ForAccess(p.TypesOf(), pci, list, old(p.State()), e, v, p.State());
  }

  // VmmpHandleVmCall for the two calls of the device monitor.
  method HandleVmCall(p: Processor, devices: DeviceList, pci: PciSpace, e: Step) returns (ghost v: Event, held: bool)
    requires p.Valid() && AllWellFormed(devices.list) && devices !in p.ept.pool.Repr
    requires e.EnableCall? || e.DisableCall?
    modifies p, devices, p.ept`count, p.ept`at, p.ept`leaves, p.ept.pool.Repr
    ensures p.Valid() && AllWellFormed(devices.list)
    ensures fresh(p.ept.pool.Repr - old(p.ept.pool.Repr)) && p.ept.pool.blocks == old(p.ept.pool.blocks)
    ensures Grown(old(p.ept.pool.Mem), p.ept.pool.Mem, old(p.ept.Owned()), p.ept.Owned())
    ensures held
    ensures devices.list == ListAfter(pci, old(devices.list), e)
    ensures Follows(p.TypesOf(), pci, old(devices.list), old(p.State()), e, v, p.State())
  {
    hide *;
    ghost var list, s := devices.list, p.State();
    held := true;
    if e.EnableCall? {
      ghost var visits;
      visits, held := p.EnableDeviceMonitor(devices, pci);
      v := Enable(visits);
      ForEnable(p.TypesOf(), pci, list, s, visits);
    } else {
      p.DisableDeviceMonitor(devices, pci);
      v := Disable(ListFrames(devices.list, |devices.list|));
      ForDisable(p.TypesOf(), pci, list, s);
    }
  }

  // VmmpHandleEptViolation, and VmmpHandleMonitorTrap when the MTF is set.
  method HandleFault(p: Processor, pci: PciSpace, list: seq<PciDevice>, e: Step)
    returns (ghost v: Event, held: bool)
    requires p.Valid() && AllWellFormed(list)
    requires (e.EptViolation? && e.pa < ADDRESS_LIMIT) || e.MonitorTrap?
    modifies p, p.ept`count, p.ept`at, p.ept`leaves, p.ept.pool.Repr
    ensures p.Valid() && list == ListAfter(pci, list, e)
    ensures fresh(p.ept.pool.Repr - old(p.ept.pool.Repr)) && p.ept.pool.blocks == old(p.ept.pool.blocks)
    ensures Grown(old(p.ept.pool.Mem), p.ept.pool.Mem, old(p.ept.Owned()), p.ept.Owned())
    ensures NoneWraps(p.runs) ==> held
    ensures Follows(p.TypesOf(), pci, list, old(p.State()), e, v, p.State())
  {
    TrapHasEntry(p);
    hide *;
    ghost var s := p.State();
    p.NothingGrown();
    held := true;
    match e {
      case EptViolation(a, q, pa, length, decide) =>
        ghost var skip, mapped;
        skip, mapped, held := p.HandleEptViolation(AsDevices(list), q, pa, length, decide);
        v := Violation(pa, a, length, skip, mapped);
        ForViolation(p.TypesOf(), pci, list, s, e, skip, mapped);
      case MonitorTrap =>
        v := Trap;
        if p.mtf {
          p.HandleMonitorTrap();
        }
        ForTrap(p.TypesOf(), pci, list, s);
    }
  }

  method Handle(p: Processor, devices: DeviceList, pci: PciSpace, e: Step) returns (ghost v: Event, held: bool)
    requires p.Valid() && AllWellFormed(devices.list) && devices !in p.ept.pool.Repr
    requires e.EptViolation? ==> e.pa < ADDRESS_LIMIT
    modifies p, devices, p.ept`count, p.ept`at, p.ept`leaves, p.ept.pool.Repr
    ensures p.Valid() && AllWellFormed(devices.list)
    ensures fresh(p.ept.pool.Repr - old(p.ept.pool.Repr)) && p.ept.pool.blocks == old(p.ept.pool.blocks)
    ensures Grown(old(p.ept.pool.Mem), p.ept.pool.Mem, old(p.ept.Owned()), p.ept.Owned())
    ensures NoneWraps(p.runs) ==> held
    ensures devices.list == ListAfter(pci, old(devices.list), e)
    ensures Follows(p.TypesOf(), pci, old(devices.list), old(p.State()), e, v, p.State())
  {
    hide *;
    p.NothingGrown();
    held := true;
    if e.EnableCall? || e.DisableCall? {
      v, held := HandleVmCall(p, devices, pci, e);
    } else if e.EptViolation? || e.MonitorTrap? {
      v, held := HandleFault(p, pci, devices.list, e);
    } else {
      v := DoAccess(p, pci, devices.list, e);
    }
  }

  // Any sequence of steps.
  method HandleAll(p: Processor, devices: DeviceList, pci: PciSpace, steps: seq<Step>, ghost before: Memory)
    returns (ghost states: seq<Vcpu>, ghost events: seq<Event>, held: bool)
    requires p.Valid() && AllWellFormed(devices.list) && devices !in p.ept.pool.Repr
    requires Physical48(steps) && Holds(p.ept, before)
    modifies p, devices, p.ept`count, p.ept`at, p.ept`leaves, p.ept.pool.Repr
    ensures p.Valid() && AllWellFormed(devices.list) && Holds(p.ept, before)
    ensures fresh(p.ept.pool.Repr - old(p.ept.pool.Repr)) && p.ept.pool.blocks == old(p.ept.pool.blocks)
    ensures NoneWraps(p.runs) ==> held
    ensures devices.list == ListAt(pci, old(devices.list), steps, |steps|)
    ensures |states| == |steps| + 1 && |events| == |steps|
    ensures Trace(p.TypesOf(), pci, old(devices.list), steps, states, events)
    ensures states[0] == old(p.State()) && states[|steps|] == p.State()
  {
    hide Processor.Valid, Processor.State, EptData.Owned, Grown, Follows, ListAfter, NoneWraps;
    ghost var list := devices.list;
    states, events, held := [p.State()], [], true;
    for i := 0 to |steps|
      invariant p.Valid() && AllWellFormed(devices.list) && Holds(p.ept, before)
      invariant fresh(p.ept.pool.Repr - old(p.ept.pool.Repr)) && p.ept.pool.blocks == old(p.ept.pool.blocks)
      invariant NoneWraps(p.runs) ==> held
      invariant devices.list == ListAt(pci, list, steps, i)
      invariant Trace(p.TypesOf(), pci, list, steps, states, events) && |events| == i
      invariant states[0] == old(p.State()) && states[i] == p.State()
    {
      ghost var mem, owned := p.ept.pool.Mem, p.ept.Owned();
      ghost var v;
      var stepHeld;
      v, stepHeld := Handle(p, devices, pci, steps[i]);
      held := held && stepHeld;
      GrownTwice(before, mem, p.ept.pool.Mem, {}, owned, p.ept.Owned());
      TraceNext(p.TypesOf(), pci, list, steps, states, events, v, p.State());
      states, events := states + [p.State()], events + [v];
    }
  }

  // From initialization through any steps to termination, under any schedule of
  // allocation failures: the pool gets back exactly what it gave, the assertions
  // of ept.cpp hold, and while the steps are expected the real handlers keep the
  // protocol's invariant and are a run of it.
  method MonitoredLifetime(
      pool: Pool, mtrrs: seq<Mtrr.MtrrData>, defaultType: nat, runs: seq<Run>, apicPage: nat,
      devices: DeviceList, pci: PciSpace, rip: nat, steps: seq<Step>)
    returns (ghost states: seq<Vcpu>, ghost events: seq<Event>, held: bool)
    requires pool.Valid() && Physical(runs) && apicPage < FRAME_COUNT
    requires forall e <- mtrrs[..Mtrr.EnabledFrom(mtrrs, 0)] :: Mtrr.WholePages(e)
    requires AllWellFormed(devices.list) && devices !in pool.Repr && Physical48(steps)
    modifies pool, pool.Repr, devices
    ensures pool.Valid() && pool.Mem == old(pool.Mem) && pool.blocks == old(pool.blocks)
    ensures Disjoint(runs) && apicPage !in RamFrames(runs, |runs|) && NoneWraps(runs) ==> held
    ensures states == [] || Lived(Types(mtrrs, defaultType), pci, old(devices.list), runs, steps, states, events)
  {
    hide Pool.Valid, EptData.Owned, Represents, StockValid, Grown, RamFrames, Disjoint, IdentityMap, NoneWraps, Lived,
      Trace, Processor.Valid;
    states, events := [], [];
    ghost var before, list := pool.Mem, devices.list;
    var ept;
    ept, held := EptInitialization(pool, mtrrs, defaultType, runs, apicPage);
    if ept == null {
      return;
    }
    RamIsMapped(ept, runs, apicPage);
    var p := new Processor(ept, runs, rip);
    var stepsHeld;
    states, events, stepsHeld := HandleAll(p, devices, pci, steps, before);
    held := held && stepsHeld;
    HasLived(Types(mtrrs, defaultType), pci, list, runs, apicPage, steps, states, events);
    EptIsValid(p);
    GrownUndone(before, pool.Mem, ept.Owned());
    ept.Terminate();
  }

  // What the states and events of a whole life satisfy.
  ghost predicate Lived(
      t: Types, pci: PciSpace, list: seq<PciDevice>, runs: seq<Run>,
      steps: seq<Step>, states: seq<Vcpu>, events: seq<Event>)
    requires AllWellFormed(list)
  {
    && |states| == |steps| + 1 && |events| == |steps| && Trace(t, pci, list, steps, states, events)
    && RamFrames(runs, |runs|) <= states[0].leaves.Keys
    && (forall n {:trigger states[n]} ::
          0 <= n <= |steps| && (forall i :: 0 <= i < n ==> Expected(states[i], steps[i])) ==> Inv(t, states[n]))
    && (AllExpected(steps, states) ==> MonitorSafety.Run(Config(t, AsDevices(Found(pci, list))), states, events))
  }

  lemma {:induction false} HasLived(
      t: Types, pci: PciSpace, list: seq<PciDevice>, runs: seq<Run>, apicPage: nat,
      steps: seq<Step>, states: seq<Vcpu>, events: seq<Event>)
    requires AllWellFormed(list)
    requires |states| == |steps| + 1 && |events| == |steps| && Trace(t, pci, list, steps, states, events)
    requires states[0].leaves == IdentityMap(t.mtrrs, t.defaultType, RamFrames(runs, |runs|) + {apicPage})
    requires states[0] == Vcpu(states[0].leaves, map[], None, false, states[0].rip, {})
    ensures Lived(t, pci, list, runs, steps, states, events)
  {
    hide Trace, Found, AsDevices, Expected, RamFrames, MonitorSafety.Run;
    assert Inv(t, states[0]);
    forall n | 0 <= n <= |steps| && (forall i :: 0 <= i < n ==> Expected(states[i], steps[i]))
      ensures Inv(t, states[n])
    {
      TraceKeepsInv(t, pci, list, steps, states, events, n);
    }
    if AllExpected(steps, states) {
      TraceIsRun(t, pci, list, steps, states, events);
    }
  }

  // The theorems about runs are theorems about the handlers.  With well placed
  // BARs, every expected violation that could be mapped ends with the access
  // permitted or RIP advanced.
  lemma {:induction false} HandlersGoOn(
      t: Types, pci: PciSpace, list: seq<PciDevice>, runs: seq<Run>,
      steps: seq<Step>, states: seq<Vcpu>, events: seq<Event>, n: nat)
    requires AllWellFormed(list) && MonitorProgress.AllWellPlaced(Found(pci, list))
    requires Lived(t, pci, list, runs, steps, states, events) && AllExpected(steps, states)
    requires n < |steps| && steps[n].EptViolation? && events[n].Violation? && events[n].mapped
    ensures var s := states[n + 1];
      || MonitorSafety.PermittedNow(s, Frame(steps[n].pa), steps[n].access)
      || s.rip == states[n].rip + steps[n].length
  {
    var c := Config(t, AsDevices(Found(pci, list)));
    StepWasEvent(t, pci, list, steps, states, events, n);
    assert states[n + 1] == Next(c, states[n], events[n]);
    hide Follows, MonitorSafety.Run, MonitorSafety.PermittedNow, MonitorProgress.AllWellPlaced, MonitorProgress.Within,
      Trace, Found, ListFrames, Expected, Possible, Inv, Next;
    CallsWithin(t, pci, list, steps, states, events);
    MonitorProgress.MonitoringGoesOn(c, Found(pci, list), states, events, n);
  }

  lemma EptIsValid(p: Processor)
    requires p.Valid()
    ensures p.ept.Valid()
  {
  }

  lemma RamIsMapped(ept: EptData, runs: seq<Run>, apicPage: nat)
    requires IdentityMapped(ept, RamFrames(runs, |runs|) + {apicPage}) && Physical(runs)
    ensures RamMapped(ept, runs)
  {
  }

  lemma TrapHasEntry(p: Processor)
    requires p.Valid()
    ensures p.mtf ==> p.lastFault.Some? && Defined(p.State(), Trap)
  {
  }
}
