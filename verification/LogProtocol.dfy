// The double-buffered log as a system of interleaved threads (log.cpp).
//
// A spin lock makes appending and swapping atomic; draining the old buffer is
// not, and runs under the resource only, while writers fill the other buffer.
module LogProtocol {
  import opened Wrappers
  import opened LogEntries

  // What the log file holds: messages that came through a buffer and messages
  // that a thread wrote itself.
  datatype Record = Buffered(text: seq<bv8>) | Direct(text: seq<bv8>)

  // The shared data: two buffers, the index of the active one, and the file.
  datatype Log = Log(buffers: seq<seq<Entry>>, head: nat, file: seq<Record>)

  ghost predicate WellFormed(log: Log) {
    && |log.buffers| == 2 && log.head < 2
    && (forall i :: 0 <= i < 2 ==> AllTexts(log.buffers[i]) && |Encode(log.buffers[i])| <= USABLE_SIZE)
  }

  // ---------------------------------------------------------------------
  // Atomic sections
  // ---------------------------------------------------------------------

  // Whether LogpBufferMessage has room; the NUL needs a byte as well.
  predicate Fits(list: seq<Entry>, text: seq<bv8>) {
    |Encode(list)| + |text| + 1 <= USABLE_SIZE
  }

  // LogpBufferMessage.
  function Append(log: Log, e: Entry): (r: Log)
    requires WellFormed(log) && IsText(e.text)
    ensures WellFormed(r)
  {
    var list := log.buffers[log.head];
    if Fits(list, e.text) then
      EncodeAppend(list, e);
      log.(buffers := log.buffers[log.head := list + [e]])
    else log
  }

  // The locked section of LogpFlushLogBuffer.
  function Swap(log: Log): (r: Log)
    requires WellFormed(log)
    ensures WellFormed(r)
  {
    log.(buffers := log.buffers[1 - log.head := []], head := 1 - log.head)
  }

  // One round of its loop.
  function WriteEntry(log: Log, b: nat, k: nat): Log
    requires WellFormed(log) && b < 2 && k < |log.buffers[b]|
  {
    log.(file := log.file + [Buffered(log.buffers[b][k].text)])
  }

  // The end of the loop.
  function Clear(log: Log, b: nat): (r: Log)
    requires WellFormed(log) && b < 2
    ensures WellFormed(r)
  {
    log.(buffers := log.buffers[b := []])
  }

  // LogpWriteMessageToFile.
  function WriteDirect(log: Log, text: seq<bv8>): Log {
    log.(file := log.file + [Direct(text)])
  }

  // ---------------------------------------------------------------------
  // Threads
  // ---------------------------------------------------------------------

  // Where a thread is in LogpFlushLogBuffer: waiting for the spin lock with the
  // resource held, at an entry of the buffer it took, or done.  `mark` counts
  // the messages accepted before its swap.
  datatype Phase =
    | Idle
    | Holding
    | Draining(buffer: nat, next: nat, mark: nat)
    | Flushed(mark: nat)

  datatype System = System(log: Log, owner: Option<nat>, phases: map<nat, Phase>, accepted: seq<seq<bv8>>)

  function PhaseOf(s: System, t: nat): Phase {
    if t in s.phases then s.phases[t] else Idle
  }

  datatype Event =
    | Buffer(thread: nat, entry: Entry)
    | Acquire(thread: nat)
    | SwapBuffers(thread: nat)
    | Drain(thread: nat)
    | Release(thread: nat)
    | WriteFile(thread: nat, text: seq<bv8>)
    | Leave(thread: nat)

  ghost predicate Possible(s: System, e: Event) {
    var p := PhaseOf(s, e.thread);
    && WellFormed(s.log)
    && match e
       case Buffer(t, entry) => p == Idle && IsText(entry.text)
       case Acquire(t) => p == Idle && s.owner == None
       case SwapBuffers(t) => p == Holding
       case Drain(t) => p.Draining? && p.buffer < 2 && p.next < |s.log.buffers[p.buffer]|
       case Release(t) => p.Draining? && p.buffer < 2 && p.next == |s.log.buffers[p.buffer]|
       case WriteFile(t, text) => p.Flushed?
       case Leave(t) => p.Flushed?
  }

  function Next(s: System, e: Event): System
    requires Possible(s, e)
  {
    var p := PhaseOf(s, e.thread);
    match e
    case Buffer(t, entry) =>
      if Fits(s.log.buffers[s.log.head], entry.text)
      then s.(log := Append(s.log, entry), accepted := s.accepted + [entry.text])
      else s
    case Acquire(t) =>
      s.(owner := Some(t), phases := s.phases[t := Holding])
    case SwapBuffers(t) =>
      s.(log := Swap(s.log), phases := s.phases[t := Draining(s.log.head, 0, |s.accepted|)])
    case Drain(t) =>
      s.(log := WriteEntry(s.log, p.buffer, p.next), phases := s.phases[t := p.(next := p.next + 1)])
    case Release(t) =>
      s.(log := Clear(s.log, p.buffer), owner := None, phases := s.phases[t := Flushed(p.mark)])
    case WriteFile(t, text) =>
      s.(log := WriteDirect(s.log, text), phases := s.phases[t := Idle])
    case Leave(t) =>
      s.(phases := s.phases[t := Idle])
  }

  // ---------------------------------------------------------------------
  // The invariant
  // ---------------------------------------------------------------------

  // The buffered messages of the file, in order.
  function BufferedOf(file: seq<Record>): seq<seq<bv8>> {
    if file == [] then []
    else
      var r := file[|file| - 1];
      BufferedOf(file[..|file| - 1]) + if r.Buffered? then [r.text] else []
  }

  function Texts(list: seq<Entry>): (r: seq<seq<bv8>>)
    ensures |r| == |list|
  {
    seq(|list|, i requires 0 <= i < |list| => list[i].text)
  }

  // What is left of the buffer being drained.
  function Undrained(s: System): seq<Entry> {
    if s.owner == None then []
    else
      var p := PhaseOf(s, s.owner.value);
      if p.Draining? && p.buffer < |s.log.buffers| && p.next <= |s.log.buffers[p.buffer]|
      then s.log.buffers[p.buffer][p.next..] else []
  }

  // One thread at most is between acquiring and releasing; it drains the
  // inactive buffer, which is empty otherwise.
  ghost predicate Exclusive(s: System)
    requires WellFormed(s.log)
  {
    && (forall t: nat :: PhaseOf(s, t).Holding? || PhaseOf(s, t).Draining? ==> s.owner == Some(t))
    && (s.owner.Some? ==> var p := PhaseOf(s, s.owner.value);
          && (p.Holding? || p.Draining?)
          && (p.Draining? ==> p.buffer == 1 - s.log.head && p.next <= |s.log.buffers[p.buffer]|))
    && ((s.owner == None || PhaseOf(s, s.owner.value).Holding?) ==> s.log.buffers[1 - s.log.head] == [])
  }

  // Nothing is lost, duplicated or reordered.
  ghost predicate Conserved(s: System)
    requires WellFormed(s.log)
  {
    BufferedOf(s.log.file) + Texts(Undrained(s)) + Texts(s.log.buffers[s.log.head]) == s.accepted
  }

  ghost predicate MarksReached(s: System) {
    && (forall t: nat :: PhaseOf(s, t).Flushed? ==> PhaseOf(s, t).mark <= |BufferedOf(s.log.file)|)
    && (s.owner.Some? ==> var p := PhaseOf(s, s.owner.value);
          p.Draining? ==> p.mark == |BufferedOf(s.log.file)| + |Undrained(s)|)
  }

  ghost predicate Inv(s: System) {
    WellFormed(s.log) && Exclusive(s) && Conserved(s) && MarksReached(s)
  }

  ghost predicate Initial(s: System) {
    s == System(Log([[], []], 0, []), None, map[], [])
  }

  lemma InitialInv(s: System)
    requires Initial(s)
    ensures Inv(s)
  {
  }

  lemma {:induction false} FileGrows(file: seq<Record>, r: Record)
    ensures BufferedOf(file + [r]) == BufferedOf(file) + if r.Buffered? then [r.text] else []
  {
    assert (file + [r])[..|file|] == file;
  }

  lemma OtherPhases(s: System, s': System, t: nat, p: Phase)
    requires s'.phases == s.phases[t := p]
    ensures forall u: nat :: PhaseOf(s', u) == if u == t then p else PhaseOf(s, u)
  {
  }

  lemma {:induction false} StepKeepsInv(s: System, e: Event)
    requires Inv(s) && Possible(s, e)
    ensures Inv(Next(s, e))
  {
    hide *;
    match e
    case Buffer(_, _) => BufferKeepsInv(s, e);
    case Acquire(_) => AcquireKeepsInv(s, e);
    case SwapBuffers(_) => SwapKeepsInv(s, e);
    case Drain(_) => DrainKeepsInv(s, e);
    case Release(_) => ReleaseKeepsInv(s, e);
    case WriteFile(_, _) => WriteKeepsInv(s, e);
    case Leave(_) => LeaveKeepsInv(s, e);
  }

  lemma {:induction false} BufferKeepsInv(s: System, e: Event)
    requires Inv(s) && Possible(s, e) && e.Buffer?
    ensures Inv(Next(s, e))
  {
    hide Encode, AllTexts, IsText, Fits, BufferedOf;
    var s' := Next(s, e);
    var list := s.log.buffers[s.log.head];
    if Fits(list, e.entry.text) {
      assert s'.log.buffers[s.log.head] == list + [e.entry];
      assert Texts(list + [e.entry]) == Texts(list) + [e.entry.text];
      assert forall u: nat :: PhaseOf(s', u) == PhaseOf(s, u);
      hide PhaseOf, Texts, WellFormed;
      assert Undrained(s') == Undrained(s);
    }
  }

  lemma {:induction false} AcquireKeepsInv(s: System, e: Event)
    requires Inv(s) && Possible(s, e) && e.Acquire?
    ensures Inv(Next(s, e))
  {
    OtherPhases(s, Next(s, e), e.thread, Holding);
    hide PhaseOf, Encode, AllTexts, BufferedOf, Texts;
    assert Undrained(Next(s, e)) == Undrained(s);
  }

  lemma {:induction false} SwapKeepsInv(s: System, e: Event)
    requires Inv(s) && Possible(s, e) && e.SwapBuffers?
    ensures Inv(Next(s, e))
  {
    var s' := Next(s, e);
    OtherPhases(s, s', e.thread, Draining(s.log.head, 0, |s.accepted|));
    hide PhaseOf, Encode, AllTexts, BufferedOf;
    assert Undrained(s') == s.log.buffers[s.log.head];
    assert Undrained(s) == [] && Texts([]) == [];
  }

  lemma {:induction false} TextsNext(list: seq<Entry>, k: nat)
    requires k < |list|
    ensures Texts(list[k..]) == [list[k].text] + Texts(list[k + 1..])
  {
    assert list[k..] == [list[k]] + list[k + 1..];
  }

  lemma {:induction false} DrainConserves(done: seq<seq<bv8>>, list: seq<Entry>, k: nat, active: seq<seq<bv8>>)
    requires k < |list|
    ensures done + Texts(list[k..]) + active == (done + [list[k].text]) + Texts(list[k + 1..]) + active
  {
    TextsNext(list, k);
  }

  lemma {:induction false} DrainKeepsInv(s: System, e: Event)
    requires Inv(s) && Possible(s, e) && e.Drain?
    ensures Inv(Next(s, e))
  {
    var s', p := Next(s, e), PhaseOf(s, e.thread);
    var list := s.log.buffers[p.buffer];
    OtherPhases(s, s', e.thread, p.(next := p.next + 1));
    FileGrows(s.log.file, Buffered(list[p.next].text));
    DrainConserves(BufferedOf(s.log.file), list, p.next, Texts(s.log.buffers[s.log.head]));
    DrainedRest(s, e);
    assert WellFormed(s'.log);
    hide PhaseOf, WellFormed, BufferedOf, Texts, Undrained;
    assert Conserved(s');
    hide Conserved;
    assert Exclusive(s') && MarksReached(s');
  }

  lemma {:induction false} DrainedRest(s: System, e: Event)
    requires Inv(s) && Possible(s, e) && e.Drain?
    ensures var p := PhaseOf(s, e.thread);
      var list := s.log.buffers[p.buffer];
      && p.next < |list| && s.owner == Some(e.thread)
      && Undrained(s) == list[p.next..] && Undrained(Next(s, e)) == list[p.next + 1..]
  {
    var p := PhaseOf(s, e.thread);
    OtherPhases(s, Next(s, e), e.thread, p.(next := p.next + 1));
    hide PhaseOf, BufferedOf, Texts, Encode, AllTexts, Conserved, MarksReached;
  }

  lemma {:induction false} ReleaseKeepsInv(s: System, e: Event)
    requires Inv(s) && Possible(s, e) && e.Release?
    ensures Inv(Next(s, e))
  {
    OtherPhases(s, Next(s, e), e.thread, Flushed(PhaseOf(s, e.thread).mark));
    hide PhaseOf, Encode, AllTexts, BufferedOf, Texts;
    assert Undrained(s) == [] == Undrained(Next(s, e));
  }

  lemma {:induction false} WriteKeepsInv(s: System, e: Event)
    requires Inv(s) && Possible(s, e) && e.WriteFile?
    ensures Inv(Next(s, e))
  {
    FileGrows(s.log.file, Direct(e.text));
    DoneKeepsInv(s, Next(s, e), e.thread);
  }

  lemma {:induction false} LeaveKeepsInv(s: System, e: Event)
    requires Inv(s) && Possible(s, e) && e.Leave?
    ensures Inv(Next(s, e))
  {
    DoneKeepsInv(s, Next(s, e), e.thread);
  }

  // A flushed thread returns, having written at most direct records.
  lemma {:induction false} DoneKeepsInv(s: System, s': System, t: nat)
    requires Inv(s) && PhaseOf(s, t).Flushed? && s'.phases == s.phases[t := Idle]
    requires s'.owner == s.owner && s'.accepted == s.accepted
    requires s'.log.buffers == s.log.buffers && s'.log.head == s.log.head
    requires BufferedOf(s'.log.file) == BufferedOf(s.log.file)
    ensures Inv(s')
  {
    OtherPhases(s, s', t, Idle);
    hide PhaseOf, Encode, AllTexts, BufferedOf, Texts;
    assert Undrained(s) == Undrained(s');
  }

  // ---------------------------------------------------------------------
  // Runs
  // ---------------------------------------------------------------------

  ghost predicate Run(states: seq<System>, events: seq<Event>) {
    && |states| == |events| + 1
    && Initial(states[0])
    && (forall i {:trigger events[i]} :: 0 <= i < |events| ==>
          Possible(states[i], events[i]) && states[i + 1] == Next(states[i], events[i]))
  }

  lemma RunStep(states: seq<System>, events: seq<Event>, n: nat)
    requires Run(states, events) && n < |events|
    ensures |states| == |events| + 1
    ensures Possible(states[n], events[n]) && states[n + 1] == Next(states[n], events[n])
  {
  }

  lemma {:induction false} RunKeepsInv(states: seq<System>, events: seq<Event>, n: nat)
    requires Run(states, events) && n <= |events|
    ensures Inv(states[n])
  {
    if n == 0 {
      InitialInv(states[0]);
    } else {
      RunKeepsInv(states, events, n - 1);
      StepKeepsInv(states[n - 1], events[n - 1]);
    }
  }

  // The buffered messages in the file, the rest of the buffer being drained and
  // the active buffer are the accepted messages, in order.
  lemma {:induction false} NothingLost(states: seq<System>, events: seq<Event>, n: nat)
    requires Run(states, events) && n <= |events|
    ensures var s := states[n];
      && s.log.head < |s.log.buffers|
      && BufferedOf(s.log.file) + Texts(Undrained(s)) + Texts(s.log.buffers[s.log.head]) == s.accepted
  {
    RunKeepsInv(states, events, n);
  }

  // No step of another thread touches the buffer that a thread is draining.
  lemma {:induction false} DrainedBufferIsPrivate(states: seq<System>, events: seq<Event>, n: nat, t: nat)
    requires Run(states, events) && n < |events|
    requires PhaseOf(states[n], t).Draining? && events[n].thread != t
    ensures var b := PhaseOf(states[n], t).buffer;
      && b < 2 && b != states[n].log.head
      && states[n + 1].log.buffers[b] == states[n].log.buffers[b] && states[n + 1].log.head != b
      && PhaseOf(states[n + 1], t) == PhaseOf(states[n], t)
  {
    RunKeepsInv(states, events, n);
    assert states[n + 1] == Next(states[n], events[n]);
  }

  lemma StepGrows(s: System, e: Event)
    requires Inv(s) && Possible(s, e)
    ensures s.accepted <= Next(s, e).accepted && s.log.file <= Next(s, e).log.file
  {
  }

  lemma {:induction false} AcceptedGrows(states: seq<System>, events: seq<Event>, m: nat, n: nat)
    requires Run(states, events) && m <= n <= |events|
    ensures states[m].accepted <= states[n].accepted
    decreases n
  {
    hide *;
    if m < n {
      AcceptedGrows(states, events, m, n - 1);
      RunKeepsInv(states, events, n - 1);
      RunStep(states, events, n - 1);
      StepGrows(states[n - 1], events[n - 1]);
    }
  }

  // ---------------------------------------------------------------------
  // Order
  // ---------------------------------------------------------------------

  // Thread t swaps at step m and not again before step n.
  ghost predicate LastSwap(events: seq<Event>, m: nat, n: nat, t: nat) {
    && m < n <= |events| && events[m] == SwapBuffers(t)
    && forall k :: m < k < n ==> events[k] != SwapBuffers(t)
  }

  lemma {:induction false} MarkOfSwap(states: seq<System>, events: seq<Event>, m: nat, n: nat, t: nat)
    requires Run(states, events) && LastSwap(events, m, n, t)
    ensures var p := PhaseOf(states[n], t);
      (p.Draining? || p.Flushed?) ==> p.mark == |states[m].accepted|
    decreases n
  {
    assert states[n] == Next(states[n - 1], events[n - 1]);
    if m + 1 < n {
      MarkOfSwap(states, events, m, n - 1, t);
    }
  }

  // When a thread writes directly, every message accepted before its own swap
  // is in the file already, in order, whoever drained it.
  lemma {:induction false} FlushedBeforeDirect(
      states: seq<System>, events: seq<Event>, m: nat, n: nat, t: nat, text: seq<bv8>)
    requires Run(states, events) && n < |events| && LastSwap(events, m, n, t)
    requires events[n] == WriteFile(t, text)
    ensures states[m].accepted <= BufferedOf(states[n].log.file)
    ensures states[n + 1].log.file == states[n].log.file + [Direct(text)]
  {
    MarkOfSwap(states, events, m, n, t);
    RunKeepsInv(states, events, n);
    AcceptedGrows(states, events, m, n);
    assert Possible(states[n], events[n]);
    var s := states[n];
    assert BufferedOf(s.log.file) <= s.accepted;
  }

  // A thread that buffers a message and later writes one directly finds the
  // first in the file before the second.
  lemma {:induction false} ProgramOrder(
      states: seq<System>, events: seq<Event>, m: nat, n: nat, t: nat, entry: Entry, text: seq<bv8>)
    requires Run(states, events) && m < n < |events|
    requires events[m] == Buffer(t, entry) && events[n] == WriteFile(t, text)
    requires Fits(states[m].log.buffers[states[m].log.head], entry.text)
    ensures var k, done := |states[m].accepted|, BufferedOf(states[n].log.file);
      k < |done| && done[k] == entry.text
    ensures states[n + 1].log.file == states[n].log.file + [Direct(text)]
  {
    SwapSince(states, events, m, n, t);
    RunKeepsInv(states, events, n);
    AcceptedGrows(states, events, m + 1, n);
    assert Possible(states[n], events[n]);
    assert states[m + 1] == Next(states[m], events[m]);
    var s := states[n];
    assert BufferedOf(s.log.file) <= s.accepted;
  }

  // After a message was accepted from an idle thread, a mark of that thread
  // counts it.
  lemma {:induction false} SwapSince(states: seq<System>, events: seq<Event>, m: nat, n: nat, t: nat)
    requires Run(states, events) && m < n <= |events| && events[m].Buffer? && events[m].thread == t
    requires Fits(states[m].log.buffers[states[m].log.head], events[m].entry.text)
    ensures var p := PhaseOf(states[n], t);
      (p.Draining? || p.Flushed?) ==> p.mark > |states[m].accepted|
    decreases n
  {
    assert states[n] == Next(states[n - 1], events[n - 1]);
    if m + 1 < n {
      SwapSince(states, events, m, n - 1, t);
      AcceptedGrows(states, events, m + 1, n - 1);
      assert states[m + 1] == Next(states[m], events[m]);
    }
  }
}
