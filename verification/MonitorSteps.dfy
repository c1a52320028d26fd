// What happens on a processor, step by step, as events of the device monitor's
// protocol.
module MonitorSteps {
  import opened EptTree
  import opened MonitorProtocol
  import opened Devices
  import opened Monitor
  import MonitorProgress
  import MonitorSafety

  // What happens on the processor: the hardware caches a translation or lets an
  // access through, or an exit to the monitor.
  datatype Step =
    | Cached(frame: nat)
    | Completed(frame: nat, access: Access)
    | EptViolation(access: Access, q: Qualification, pa: nat, length: nat, decide: nat -> bool)
    | MonitorTrap
    | EnableCall
    | DisableCall

  ghost predicate Physical48(steps: seq<Step>) {
    forall i :: 0 <= i < |steps| && steps[i].EptViolation? ==> steps[i].pa < ADDRESS_LIMIT
  }

  // ---------------------------------------------------------------------
  // Steps as events of the protocol
  // ---------------------------------------------------------------------

  // A step that the protocol allows for; the hardware reports what the entry
  // denied.
  ghost predicate Expected(s: Vcpu, e: Step) {
    match e
    case Cached(f) => Possible(s, Cache(f))
    case Completed(f, a) => Possible(s, Complete(f, a))
    case EptViolation(a, q, pa, length, _) =>
      Possible(s, Violation(pa, a, length, false, false)) && q == Qualify(s, Frame(pa), a)
    case MonitorTrap => Possible(s, Trap)
    case EnableCall => Possible(s, Enable([]))
    case DisableCall => Possible(s, Disable([]))
  }

  // Both hypercalls look the BARs up again.
  ghost function ListAfter(pci: PciSpace, list: seq<PciDevice>, e: Step): (r: seq<PciDevice>)
    requires AllWellFormed(list)
    ensures |r| == |list| && AllWellFormed(r)
  {
    if e.EnableCall? || e.DisableCall? then DiscoveredList(pci, list, |list|) else list
  }

  // The event that a step was, in the state and with the devices it met.
  ghost predicate IsEvent(pci: PciSpace, list: seq<PciDevice>, s: Vcpu, e: Step, v: Event)
    requires AllWellFormed(list)
  {
    var found := ListAfter(pci, list, e);
    match e
    case Cached(f) => v == Cache(f)
    case Completed(f, a) => v == Complete(f, a)
    case EptViolation(a, _, pa, length, decide) =>
      && v.Violation? && v.pa == pa && v.access == a && v.length == length
      && (IsMonitored(AsDevices(list), Low32(pa)) && Frame(pa) in s.leaves ==>
            v.skip == Decision(AsDevices(list), pa, decide))
    case MonitorTrap => v == Trap
    case EnableCall => v.Enable? && VisitsAre(v.visits, ListFrames(found, |found|))
    case DisableCall => v == Disable(ListFrames(found, |found|))
  }

  // What the monitor makes of a state, expected or not.
  ghost predicate Outcome(c: Config, s: Vcpu, e: Step, v: Event, s': Vcpu) {
    match e
    case EptViolation(_, q, pa, length, _) =>
      v.Violation? && s' == HandleViolation(c, s, q, pa, length, v.skip, v.mapped)
    case MonitorTrap => if s.mtf then Defined(s, Trap) && s' == HandleTrap(s) else s' == s
    case _ => !v.Trap? && s' == Next(c, s, v)
  }

  ghost predicate Follows(t: Types, pci: PciSpace, list: seq<PciDevice>, s: Vcpu, e: Step, v: Event, s': Vcpu)
    requires AllWellFormed(list)
  {
    IsEvent(pci, list, s, e, v) && Outcome(Config(t, AsDevices(list)), s, e, v, s')
  }

  // An expected step is a step of the protocol.
  lemma {:induction false} ExpectedIsPossible(
      t: Types, pci: PciSpace, list: seq<PciDevice>, s: Vcpu, e: Step, v: Event, s': Vcpu)
    requires AllWellFormed(list) && Follows(t, pci, list, s, e, v, s') && Expected(s, e)
    ensures Possible(s, v) && Defined(s, v) && s' == Next(Config(t, AsDevices(list)), s, v)
  {
    hide VisitsAre, ListFrames, DiscoveredList, AsDevices, IsMonitored, Decision, HandleViolation, ClosePages,
      OpenPages, Frame, HandleTrap;
    if e.EnableCall? {
      VisitsBelow(v.visits, ListFrames(ListAfter(pci, list, e), |list|));
    }
  }

  lemma VisitsBelow(visits: seq<Visit>, frames: seq<nat>)
    requires VisitsAre(visits, frames) && forall f <- frames :: f < FRAME_COUNT
    ensures forall v <- visits :: v.frame < FRAME_COUNT
  {
  }

  lemma ForAccess(t: Types, pci: PciSpace, list: seq<PciDevice>, s: Vcpu, e: Step, v: Event, s': Vcpu)
    requires AllWellFormed(list)
    requires match e
      case Cached(f) => v == Cache(f) && s' == s.(tlb := if f in s.leaves then s.tlb[f := s.leaves[f]] else s.tlb)
      case Completed(f, a) => v == Complete(f, a) && s' == s
      case _ => false
    ensures ListAfter(pci, list, e) == list
    ensures Follows(t, pci, list, s, e, v, s')
  {
  }

  lemma ForViolation(t: Types, pci: PciSpace, list: seq<PciDevice>, s: Vcpu, e: Step, skip: bool, mapped: bool)
    requires AllWellFormed(list) && e.EptViolation?
    requires IsMonitored(AsDevices(list), Low32(e.pa)) && Frame(e.pa) in s.leaves ==>
      skip == Decision(AsDevices(list), e.pa, e.decide)
    ensures ListAfter(pci, list, e) == list
    ensures Follows(t, pci, list, s, e, Violation(e.pa, e.access, e.length, skip, mapped),
      HandleViolation(Config(t, AsDevices(list)), s, e.q, e.pa, e.length, skip, mapped))
  {
  }

  lemma ForTrap(t: Types, pci: PciSpace, list: seq<PciDevice>, s: Vcpu)
    requires AllWellFormed(list) && (s.mtf ==> Defined(s, Trap))
    ensures ListAfter(pci, list, MonitorTrap) == list
    ensures Follows(t, pci, list, s, MonitorTrap, Trap, if s.mtf then HandleTrap(s) else s)
  {
  }

  lemma ForEnable(t: Types, pci: PciSpace, list: seq<PciDevice>, s: Vcpu, visits: seq<Visit>)
    requires AllWellFormed(list) && VisitsAre(visits, ListFrames(DiscoveredList(pci, list, |list|), |list|))
    ensures ListAfter(pci, list, EnableCall) == DiscoveredList(pci, list, |list|)
    ensures Follows(t, pci, list, s, EnableCall, Enable(visits), ClosePages(t, s, visits))
  {
  }

  lemma ForDisable(t: Types, pci: PciSpace, list: seq<PciDevice>, s: Vcpu)
    requires AllWellFormed(list)
    ensures ListAfter(pci, list, DisableCall) == DiscoveredList(pci, list, |list|)
    ensures var frames := ListFrames(DiscoveredList(pci, list, |list|), |list|);
      Follows(t, pci, list, s, DisableCall, Disable(frames), OpenPages(s, frames))
  {
  }

  // ---------------------------------------------------------------------
  // Sequences of steps
  // ---------------------------------------------------------------------

  // The devices as they are after n steps.
  ghost function ListAt(pci: PciSpace, list: seq<PciDevice>, steps: seq<Step>, n: nat): (r: seq<PciDevice>)
    requires AllWellFormed(list) && n <= |steps|
    ensures |r| == |list| && AllWellFormed(r)
  {
    if n == 0 then list else ListAfter(pci, ListAt(pci, list, steps, n - 1), steps[n - 1])
  }

  // The states and events of the first steps.
  ghost predicate Trace(
      t: Types, pci: PciSpace, list: seq<PciDevice>, steps: seq<Step>, states: seq<Vcpu>, events: seq<Event>)
    requires AllWellFormed(list)
  {
    && |states| == |events| + 1 && |events| <= |steps|
    && (forall i {:trigger events[i]} :: 0 <= i < |events| ==>
          Follows(t, pci, ListAt(pci, list, steps, i), states[i], steps[i], events[i], states[i + 1]))
  }

  lemma {:induction false} TraceNext(
      t: Types, pci: PciSpace, list: seq<PciDevice>, steps: seq<Step>, states: seq<Vcpu>, events: seq<Event>,
      v: Event, s: Vcpu)
    requires AllWellFormed(list) && Trace(t, pci, list, steps, states, events) && |events| < |steps|
    requires var n := |events|; Follows(t, pci, ListAt(pci, list, steps, n), states[n], steps[n], v, s)
    ensures Trace(t, pci, list, steps, states + [s], events + [v])
  {
    hide Follows, ListAt;
  }

  ghost predicate AllExpected(steps: seq<Step>, states: seq<Vcpu>) {
    |states| == |steps| + 1 && forall i :: 0 <= i < |steps| ==> Expected(states[i], steps[i])
  }

  // The states keep the invariant as long as the steps are expected.
  lemma {:induction false} TraceKeepsInv(
      t: Types, pci: PciSpace, list: seq<PciDevice>, steps: seq<Step>, states: seq<Vcpu>, events: seq<Event>, n: nat)
    requires AllWellFormed(list) && Trace(t, pci, list, steps, states, events)
    requires Inv(t, states[0]) && n <= |events| && forall i :: 0 <= i < n ==> Expected(states[i], steps[i])
    ensures Inv(t, states[n])
  {
    hide Follows, ListAt, Inv, Expected, Next, Possible, AsDevices;
    if n > 0 {
      var now := ListAt(pci, list, steps, n - 1);
      TraceKeepsInv(t, pci, list, steps, states, events, n - 1);
      assert Follows(t, pci, now, states[n - 1], steps[n - 1], events[n - 1], states[n]);
      ExpectedIsPossible(t, pci, now, states[n - 1], steps[n - 1], events[n - 1], states[n]);
      StepKeepsInv(Config(t, AsDevices(now)), states[n - 1], events[n - 1]);
    }
  }

  // The BARs once they have been looked up; looking again changes nothing.
  ghost function Found(pci: PciSpace, list: seq<PciDevice>): (r: seq<PciDevice>)
    requires AllWellFormed(list)
    ensures |r| == |list| && AllWellFormed(r)
  {
    DiscoveredList(pci, list, |list|)
  }

  ghost predicate NoCalls(steps: seq<Step>, n: nat) {
    forall i :: 0 <= i < n && i < |steps| ==> !steps[i].EnableCall? && !steps[i].DisableCall?
  }

  // From the first hypercall on, the list is the one found.
  lemma {:induction false} ListIsFound(pci: PciSpace, list: seq<PciDevice>, steps: seq<Step>, n: nat)
    requires AllWellFormed(list) && n <= |steps|
    ensures ListAt(pci, list, steps, n) == Found(pci, list)
      || (NoCalls(steps, n) && ListAt(pci, list, steps, n) == list)
    ensures DiscoveredList(pci, ListAt(pci, list, steps, n), |list|) == Found(pci, list)
  {
    hide DiscoveredList;
    ListIsStable(pci, list);
    if n > 0 {
      ListIsFound(pci, list, steps, n - 1);
    }
  }

  // Before it, nothing is closed.
  lemma {:induction false} NothingClosed(
      t: Types, pci: PciSpace, list: seq<PciDevice>, steps: seq<Step>, states: seq<Vcpu>, events: seq<Event>, n: nat)
    requires AllWellFormed(list) && Trace(t, pci, list, steps, states, events)
    requires states[0].closed == {} && n <= |events| && NoCalls(steps, n)
    ensures states[n].closed == {}
  {
    hide ListAt, ListFrames, AsDevices, IsMonitored, Decision;
    if n > 0 {
      NothingClosed(t, pci, list, steps, states, events, n - 1);
      assert Follows(t, pci, ListAt(pci, list, steps, n - 1), states[n - 1], steps[n - 1], events[n - 1], states[n]);
    }
  }

  // So a violation that comes before is on an unmapped frame, and it does not
  // matter that the BARs are not known yet.
  lemma {:induction false} DevicesDoNotMatter(c: Config, d: Config, s: Vcpu, v: Event)
    requires Inv(c.types, s) && Possible(s, v) && Defined(s, v) && d.types == c.types
    requires s.closed == {} || !v.Violation?
    ensures Next(c, s, v) == Next(d, s, v)
  {
    hide IsMonitored, Frame, ClosePages, OpenPages;
  }

  // What one expected step of a trace was: a step of the protocol with the BARs
  // that were, or will be, found.
  lemma {:induction false} EventOfStep(
      t: Types, pci: PciSpace, list: seq<PciDevice>, steps: seq<Step>, states: seq<Vcpu>, events: seq<Event>, n: nat)
    requires AllWellFormed(list) && Trace(t, pci, list, steps, states, events) && n < |events|
    requires Inv(t, states[0]) && states[0].closed == {} && forall i :: 0 <= i <= n ==> Expected(states[i], steps[i])
    ensures Possible(states[n], events[n]) && Defined(states[n], events[n])
    ensures states[n + 1] == Next(Config(t, AsDevices(Found(pci, list))), states[n], events[n])
  {
    hide Follows, ListAt, Found, Inv, Expected, Next, DiscoveredList, AsDevices, Possible, Defined;
    var now, found := ListAt(pci, list, steps, n), Found(pci, list);
    assert Follows(t, pci, now, states[n], steps[n], events[n], states[n + 1]);
    ExpectedIsPossible(t, pci, now, states[n], steps[n], events[n], states[n + 1]);
    ListIsFound(pci, list, steps, n);
    if now != found {
      NothingClosed(t, pci, list, steps, states, events, n);
      TraceKeepsInv(t, pci, list, steps, states, events, n);
      DevicesDoNotMatter(Config(t, AsDevices(now)), Config(t, AsDevices(found)), states[n], events[n]);
    }
  }

  // Expected steps make a run of the protocol.
  lemma {:induction false} TraceIsRun(
      t: Types, pci: PciSpace, list: seq<PciDevice>, steps: seq<Step>, states: seq<Vcpu>, events: seq<Event>)
    requires AllWellFormed(list) && Trace(t, pci, list, steps, states, events) && |events| == |steps|
    requires AllExpected(steps, states)
    requires MonitorSafety.Initial(Config(t, AsDevices(Found(pci, list))), states[0])
    ensures MonitorSafety.Run(Config(t, AsDevices(Found(pci, list))), states, events)
  {
    var c := Config(t, AsDevices(Found(pci, list)));
    assert Inv(t, states[0]) && states[0].closed == {} && MonitorSafety.Initial(c, states[0]);
    hide Follows, ListAt, Expected, Next, Possible, AsDevices, Defined, Found, Inv, MonitorSafety.Initial;
    forall i | 0 <= i < |events|
      ensures Possible(states[i], events[i]) && Defined(states[i], events[i])
      ensures states[i + 1] == Next(c, states[i], events[i])
    {
      EventOfStep(t, pci, list, steps, states, events, i);
    }
  }

  lemma {:induction false} StepWasEvent(
      t: Types, pci: PciSpace, list: seq<PciDevice>, steps: seq<Step>, states: seq<Vcpu>, events: seq<Event>, n: nat)
    requires AllWellFormed(list) && Trace(t, pci, list, steps, states, events) && n < |events|
    ensures IsEvent(pci, ListAt(pci, list, steps, n), states[n], steps[n], events[n])
  {
    hide ListAt, IsEvent, Outcome;
    assert Follows(t, pci, ListAt(pci, list, steps, n), states[n], steps[n], events[n], states[n + 1]);
  }

  // The calls visit frames of the list only.
  lemma {:induction false} CallsWithin(
      t: Types, pci: PciSpace, list: seq<PciDevice>, steps: seq<Step>, states: seq<Vcpu>, events: seq<Event>)
    requires AllWellFormed(list) && Trace(t, pci, list, steps, states, events)
    ensures MonitorProgress.Within(events, ListFrames(Found(pci, list), |list|))
  {
    hide Follows, Found, DiscoveredList, ListFrames, ListAt;
    forall i | 0 <= i < |events| && events[i].Enable?
      ensures forall v <- events[i].visits :: v.frame in ListFrames(Found(pci, list), |list|)
    {
      StepWasEvent(t, pci, list, steps, states, events, i);
      ListIsFound(pci, list, steps, i);
    }
  }
}
