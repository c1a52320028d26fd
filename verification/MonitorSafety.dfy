// Properties of the device monitor over all its runs.
module MonitorSafety {
  import opened Wrappers
  import opened EptTree
  import opened MonitorProtocol
  import Mtrr

  // ---------------------------------------------------------------------
  // Runs
  // ---------------------------------------------------------------------

  // Before the monitor is enabled: every leaf maps its frame with full access.
  ghost predicate Initial(c: Config, s: Vcpu) {
    && !s.mtf && s.lastFault == None && s.closed == {} && s.tlb == map[]
    && (forall f <- s.leaves :: s.leaves[f] == IdentityOf(c.types, f))
  }

  ghost predicate Run(c: Config, states: seq<Vcpu>, events: seq<Event>) {
    && |states| == |events| + 1
    && Initial(c, states[0])
    && (forall i {:trigger events[i]} :: 0 <= i < |events| ==>
          && Possible(states[i], events[i]) && Defined(states[i], events[i])
          && states[i + 1] == Next(c, states[i], events[i]))
  }

  lemma {:induction false} RunKeepsInv(c: Config, states: seq<Vcpu>, events: seq<Event>, n: nat)
    requires Run(c, states, events) && n <= |events|
    ensures Inv(c.types, states[n])
  {
    if n > 0 {
      RunKeepsInv(c, states, events, n - 1);
      StepKeepsInv(c, states[n - 1], events[n - 1]);
    }
  }

  // In every reachable state each leaf maps its own frame, with the memory type
  // that the MTRRs give for it, and allows everything or only execution: the
  // latter exactly when the frame is closed and not the one being stepped over.
  lemma {:induction false} RunLeaves(c: Config, states: seq<Vcpu>, events: seq<Event>, n: nat, f: nat)
    requires Run(c, states, events) && n <= |events| && f in states[n].leaves
    ensures var s, e := states[n], states[n].leaves[f];
      && e.pfn == f
      && e.memoryType == Mtrr.MemoryType(c.types.mtrrs, c.types.defaultType, f * PAGE_SIZE) % 8
      && e.execute && e.read == e.write
      && (!e.read <==> f in s.closed && s.lastFault != Some(f))
  {
    RunKeepsInv(c, states, events, n);
  }

  // Mapped frames stay mapped, so RAM stays mapped.
  lemma {:induction false} RunKeepsMapped(c: Config, states: seq<Vcpu>, events: seq<Event>, m: nat, n: nat)
    requires Run(c, states, events) && m <= n <= |events|
    ensures states[m].leaves.Keys <= states[n].leaves.Keys
    decreases n
  {
    if m < n {
      RunKeepsMapped(c, states, events, m, n - 1);
      RunKeepsInv(c, states, events, n - 1);
      StepKeepsInv(c, states[n - 1], events[n - 1]);
    }
  }

  // The guest never sees a stale translation.
  lemma {:induction false} NoStaleTranslation(c: Config, states: seq<Vcpu>, events: seq<Event>, n: nat, f: nat)
    requires Run(c, states, events) && n <= |events| && f in states[n].tlb
    ensures f in states[n].leaves && states[n].tlb[f] == states[n].leaves[f]
  {
    RunKeepsInv(c, states, events, n);
  }

  // The MTF is set exactly while an entry waits to be closed again.
  lemma {:induction false} TrapFlagMeansPending(c: Config, states: seq<Vcpu>, events: seq<Event>, n: nat)
    requires Run(c, states, events) && n <= |events|
    ensures states[n].mtf <==> states[n].lastFault.Some?
    ensures forall f <- states[n].closed :: f in states[n].leaves
    ensures forall f <- states[n].closed :: states[n].lastFault != Some(f) ==>
      states[n].leaves[f] == Closed(IdentityOf(c.types, f))
  {
    RunKeepsInv(c, states, events, n);
  }

  // ---------------------------------------------------------------------
  // Every access to a closed page is reported
  // ---------------------------------------------------------------------

  // The event runs the callbacks for a mapped frame and lets the access through.
  ghost predicate Reports(c: Config, s: Vcpu, e: Event, f: nat) {
    e.Violation? && Frame(e.pa) == f && f in s.leaves && IsMonitored(c.devices, Low32(e.pa)) && !e.skip
  }

  // The event makes the entry of a frame execute-only.
  ghost predicate Closes(s: Vcpu, e: Event, f: nat) {
    || (e.Trap? && s.lastFault == Some(f))
    || (e.Enable? && Visit(f, true) in e.visits)
  }

  // Event i reported frame f, which has not been closed since.
  ghost predicate ReportedAt(c: Config, states: seq<Vcpu>, events: seq<Event>, i: nat, n: nat, f: nat)
    requires |states| == |events| + 1
  {
    && i < n <= |events| && Reports(c, states[i], events[i], f)
    && (forall k :: i < k < n ==> !Closes(states[k], events[k], f))
  }

  lemma {:induction false} PendingWasReported(
      c: Config, states: seq<Vcpu>, events: seq<Event>, n: nat, f: nat) returns (i: nat)
    requires Run(c, states, events) && n <= |events| && states[n].lastFault == Some(f)
    ensures ReportedAt(c, states, events, i, n, f)
  {
    var s, e := states[n - 1], events[n - 1];
    RunKeepsInv(c, states, events, n - 1);
    StepEffect(c, s, e);
    if Reports(c, s, e, f) {
      i := n - 1;
    } else {
      i := PendingWasReported(c, states, events, n - 1, f);
    }
  }

  // A frame is pending after a step because the step reported it, or because
  // it was pending before and the step did not close it.
  lemma {:induction false} StepEffect(c: Config, s: Vcpu, e: Event)
    requires Inv(c.types, s) && Possible(s, e) && Defined(s, e)
    requires Next(c, s, e).lastFault.Some?
    ensures var f := Next(c, s, e).lastFault.value;
      Reports(c, s, e, f) || (s.lastFault == Some(f) && !Closes(s, e, f))
  {
    if e.Enable? {
      ClosingKeepsInv(c.types, s, e.visits);
    } else if e.Disable? {
      OpeningKeepsInv(c.types, s, e.frames);
    }
  }

  // No read or write of a closed page completes unless its device's callbacks
  // have run since the page was last closed.
  lemma {:induction false} ClosedAccessIsReported(
      c: Config, states: seq<Vcpu>, events: seq<Event>, n: nat, f: nat, a: Access) returns (i: nat)
    requires Run(c, states, events) && n < |events|
    requires events[n] == Complete(f, a) && a != Execute && f in states[n].closed
    ensures ReportedAt(c, states, events, i, n, f)
  {
    RunKeepsInv(c, states, events, n);
    assert states[n].lastFault == Some(f);
    i := PendingWasReported(c, states, events, n, f);
  }

  // ---------------------------------------------------------------------
  // Progress
  // ---------------------------------------------------------------------

  predicate PermittedNow(s: Vcpu, f: nat, a: Access) {
    f in s.leaves && Permits(s.leaves[f], a)
  }

  // When allocation succeeds, handling a violation lets the access through on
  // retry or moves past the instruction -- if and only if the frame was not
  // mapped or the monitor recognizes the address.  An access to a closed page
  // outside the recognized ranges is left as it was and faults for ever.
  lemma ViolationMakesProgress(c: Config, s: Vcpu, e: Event)
    requires Inv(c.types, s) && Possible(s, e) && e.Violation? && e.mapped
    ensures var s' := Next(c, s, e);
      (PermittedNow(s', Frame(e.pa), e.access) || s'.rip == s.rip + e.length)
      <==> (Frame(e.pa) !in s.leaves || IsMonitored(c.devices, Low32(e.pa)))
    ensures Frame(e.pa) in s.leaves && !IsMonitored(c.devices, Low32(e.pa)) ==> Next(c, s, e) == s
  {
  }

  // ---------------------------------------------------------------------
  // Enable and disable
  // ---------------------------------------------------------------------

  // If the pages closed since a quiet state are all among those that disabling
  // visits, disabling makes every leaf what it was in that state.
  lemma {:induction false} DisableRestores(c: Config, before: Vcpu, s: Vcpu, frames: seq<nat>)
    requires Inv(c.types, before) && before.lastFault == None && before.closed == {}
    requires Inv(c.types, s) && s.lastFault == None && before.leaves.Keys <= s.leaves.Keys
    requires forall f <- s.closed :: f in frames
    ensures var after := OpenPages(s, frames);
      && after.closed == {}
      && (forall f <- before.leaves :: f in after.leaves && after.leaves[f] == before.leaves[f])
      && (forall f <- after.leaves :: after.leaves[f] == IdentityOf(c.types, f))
  {
    OpeningKeepsInv(c.types, s, frames);
  }

  // A run that enables once at the start and is disabled at the end, with any
  // number of fault and trap rounds in between, restores the mapping.
  lemma {:induction false} EnableRunDisable(
      c: Config, states: seq<Vcpu>, events: seq<Event>, visits: seq<Visit>, frames: seq<nat>)
    requires Run(c, states, events) && |events| > 1
    requires events[0] == Enable(visits) && events[|events| - 1] == Disable(frames)
    requires forall i :: 0 < i < |events| - 1 ==> !events[i].Enable? && !events[i].Disable?
    requires forall v <- visits :: v.ok ==> v.frame in frames
    ensures var first, last := states[0], states[|events|];
      && last.closed == {}
      && (forall f <- first.leaves :: f in last.leaves && last.leaves[f] == first.leaves[f])
  {
    var n := |events| - 1;
    RunKeepsInv(c, states, events, 0);
    RunKeepsInv(c, states, events, n);
    RunKeepsMapped(c, states, events, 0, n);
    ClosedSinceEnable(c, states, events, visits, n);
    DisableRestores(c, states[0], states[n], frames);
  }

  lemma {:induction false} ClosedSinceEnable(
      c: Config, states: seq<Vcpu>, events: seq<Event>, visits: seq<Visit>, n: nat)
    requires Run(c, states, events) && 1 <= n < |events| && events[0] == Enable(visits)
    requires forall i :: 0 < i < n ==> !events[i].Enable? && !events[i].Disable?
    ensures forall f <- states[n].closed :: Visit(f, true) in visits
  {
    if n == 1 {
      RunKeepsInv(c, states, events, 0);
      ClosingKeepsInv(c.types, states[0], visits);
    } else {
      ClosedSinceEnable(c, states, events, visits, n - 1);
      assert states[n] == Next(c, states[n - 1], events[n - 1]);
    }
  }

  // ---------------------------------------------------------------------
  // Outside the two assumptions
  // ---------------------------------------------------------------------

  // A violation on a closed page keeps the invariant if and only if the
  // callback skips the instruction or no other page is pending: there is one
  // LastFaultEntry, and overwriting it leaves the first page open for good.
  lemma {:induction false} SecondFault(c: Config, s: Vcpu, f: nat, length: nat, skip: bool)
    requires Inv(c.types, s) && f in s.closed
    ensures Inv(c.types, HandleMmio(s, f, length, skip)) <==>
      skip || s.lastFault == None || s.lastFault == Some(f)
  {
    var s' := HandleMmio(s, f, length, skip);
    if !skip && s.lastFault.Some? && s.lastFault != Some(f) {
      var g := s.lastFault.value;
      assert s'.leaves[g] == IdentityOf(c.types, g) != Closed(IdentityOf(c.types, g));
    }
  }

  // The entry of a frame allows everything, and no trap is to close it.
  ghost predicate LeftOpen(s: Vcpu, g: nat) {
    && g in s.leaves && s.leaves[g].read && s.leaves[g].write && s.leaves[g].execute
    && s.lastFault != Some(g)
  }

  lemma {:induction false} OpeningLeavesOpen(s: Vcpu, frames: seq<nat>, g: nat)
    requires LeftOpen(s, g)
    ensures LeftOpen(OpenPages(s, frames), g)
  {
    if frames != [] {
      OpeningLeavesOpen(s, frames[..|frames| - 1], g);
    }
  }

  lemma {:induction false} ClosingLeavesOpen(t: Types, s: Vcpu, visits: seq<Visit>, g: nat)
    requires LeftOpen(s, g) && Visit(g, true) !in visits
    ensures LeftOpen(ClosePages(t, s, visits), g)
  {
    if visits != [] {
      var front, last := visits[..|visits| - 1], visits[|visits| - 1];
      assert last in visits && last != Visit(g, true);
      ClosingLeavesOpen(t, s, front, g);
    }
  }

  lemma {:induction false} StepLeavesOpen(c: Config, s: Vcpu, e: Event, g: nat)
    requires LeftOpen(s, g) && Possible(s, e) && Defined(s, e)
    requires e.Enable? ==> Visit(g, true) !in e.visits
    ensures LeftOpen(Next(c, s, e), g)
  {
    match e
    case Enable(visits) => ClosingLeavesOpen(c.types, s, visits, g);
    case Disable(frames) => OpeningLeavesOpen(s, frames, g);
    case _ =>
  }

  // After a second fault the first page is open for good: until it is enabled
  // again, every access to it is permitted and none is reported.
  lemma {:induction false} SecondFaultLeavesOpen(
      c: Config, s: Vcpu, f: nat, g: nat, length: nat, states: seq<Vcpu>, events: seq<Event>, n: nat)
    requires Inv(c.types, s) && f in s.closed && s.lastFault == Some(g) && g != f
    requires |states| == |events| + 1 && n <= |events| && states[0] == HandleMmio(s, f, length, false)
    requires forall i {:trigger events[i]} :: 0 <= i < |events| ==>
      && Possible(states[i], events[i]) && Defined(states[i], events[i])
      && states[i + 1] == Next(c, states[i], events[i])
    requires forall i :: 0 <= i < |events| && events[i].Enable? ==> Visit(g, true) !in events[i].visits
    ensures LeftOpen(states[n], g)
    ensures n < |events| ==> !Reports(c, states[n], events[n], g)
  {
    if n > 0 {
      SecondFaultLeavesOpen(c, s, f, g, length, states, events, n - 1);
      StepLeavesOpen(c, states[n - 1], events[n - 1], g);
    }
  }

  lemma {:induction false} OpeningKeepsPending(s: Vcpu, frames: seq<nat>)
    ensures var s' := OpenPages(s, frames);
      s'.lastFault == s.lastFault && s'.mtf == s.mtf && s'.leaves.Keys == s.leaves.Keys
  {
    if frames != [] {
      OpeningKeepsPending(s, frames[..|frames| - 1]);
    }
  }

  // Disabling while a page is pending: the trap that is still to come closes
  // that page again.  With all closed pages opened, every leaf has its original
  // entry in the end if and only if no page was pending.
  lemma {:induction false} DisableWhilePending(c: Config, s: Vcpu, frames: seq<nat>)
    requires Inv(c.types, s) && forall f <- s.closed :: f in frames
    ensures s.lastFault.Some? ==> Defined(OpenPages(s, frames), Trap)
    ensures var last := if s.lastFault.Some? then HandleTrap(OpenPages(s, frames)) else OpenPages(s, frames);
      (forall f <- last.leaves :: last.leaves[f] == IdentityOf(c.types, f)) <==> s.lastFault == None
  {
    OpeningKeepsPending(s, frames);
    if s.lastFault == None {
      OpeningKeepsInv(c.types, s, frames);
    } else {
      var f := s.lastFault.value;
      var last := HandleTrap(OpenPages(s, frames));
      assert f in last.leaves && !last.leaves[f].read;
    }
  }
}
