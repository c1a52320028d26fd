// The log's buffers and the code that fills and drains them (log.cpp).
module LogBuffers {
  import opened LogEntries
  import opened LogProtocol

  const PASSIVE_LEVEL := 0
  const CLOCK_LEVEL := 13

  // The bytes that the records of a file take.
  function FileBytes(records: seq<Record>): seq<bv8> {
    if records == [] then [] else FileBytes(records[..|records| - 1]) + records[|records| - 1].text
  }

  // The string that a char array holds.
  function CString(b: seq<bv8>): seq<bv8> {
    b[..StrLen(b, 0)]
  }

  // What LogpDoDbgPrint prints: the closing CR and LF become one LF.
  function Printed(text: seq<bv8>): seq<bv8>
    requires |text| >= 2
  {
    text[..|text| - 2] + [0x0A]
  }

  // RtlStringCchCopyA: copies the string and its NUL, cut to `room` bytes.
  method CopyString(dest: array<bv8>, at: nat, room: nat, src: array<bv8>) returns (ok: bool)
    requires dest != src && at + room <= dest.Length
    requires StrLen(src[..], 0) < src.Length
    modifies dest
    ensures ok <==> StrLen(src[..], 0) < room
    ensures ok ==> dest[at..at + StrLen(src[..], 0)] == CString(src[..]) && dest[at + StrLen(src[..], 0)] == 0
    ensures !ok && room > 0 ==> dest[at..at + room - 1] == src[..room - 1] && dest[at + room - 1] == 0
    ensures dest[..at] == old(dest[..at]) && dest[at + room..] == old(dest[at + room..])
  {
    ghost var n := StrLen(src[..], 0);
    if room == 0 {
      return false;
    }
    var i := 0;
    while i < room && src[i] != 0
      invariant i <= n && i <= room
      invariant dest[at..at + i] == src[..i]
      invariant dest[..at] == old(dest[..at]) && dest[at + room..] == old(dest[at + room..])
    {
      dest[at + i] := src[i];
      i := i + 1;
    }
    ok := i < room;
    if !ok {
      i := i - 1;
    }
    dest[at + i] := 0;
  }

  // ---------------------------------------------------------------------
  // How the bytes follow the lists
  // ---------------------------------------------------------------------

  lemma HoldsAll(b: seq<bv8>, list: seq<Entry>)
    ensures HoldsFrom(b, list, 0) <==>
      && AllTexts(list) && |b| == BUFFER_SIZE && |Encode(list)| <= USABLE_SIZE
      && b[|Encode(list)|] == 0 && b[..|Encode(list)|] == Encode(list)
  {
  }

  // Bytes past the closing NUL do not matter.
  lemma {:induction false} HoldsPrefix(before: seq<bv8>, after: seq<bv8>, list: seq<Entry>)
    requires HoldsFrom(before, list, 0) && |after| == |before|
    requires after[..|Encode(list)|] == before[..|Encode(list)|] && after[|Encode(list)|] == 0
    ensures HoldsFrom(after, list, 0)
  {
    HoldsAll(before, list);
    HoldsAll(after, list);
  }

  lemma {:induction false} HoldsAppended(before: seq<bv8>, after: seq<bv8>, list: seq<Entry>, e: Entry)
    requires HoldsFrom(before, list, 0) && |after| == |before| && IsText(e.text) && Fits(list, e.text)
    requires var t := |Encode(list)|;
      && after[..t] == before[..t] && after[t..t + |e.text|] == Stored(e) && after[t + |e.text|] == 0
      && after[t + |e.text| + 1] == 0
    ensures HoldsFrom(after, list + [e], 0)
  {
    HoldsAll(before, list);
    EncodeAppend(list, e);
    HoldsAll(after, list + [e]);
    hide Encode, Stored, HoldsFrom;
    var t := |Encode(list)|;
    assert after[..t + |e.text| + 1] == after[..t] + after[t..t + |e.text|] + [after[t + |e.text|]];
  }

  // Nor do the bytes of entries that have been drained.
  lemma HoldsSuffix(before: seq<bv8>, after: seq<bv8>, list: seq<Entry>, k: nat)
    requires HoldsFrom(before, list, k) && |after| == |before|
    requires forall i :: |Encode(list[..k])| <= i < |after| ==> after[i] == before[i]
    ensures HoldsFrom(after, list, k)
  {
  }

  lemma HoldsEmpty(b: seq<bv8>)
    requires |b| == BUFFER_SIZE && b[0] == 0
    ensures HoldsFrom(b, [], 0) && Encode([]) == []
  {
  }

  lemma {:induction false} FileBytesAppend(records: seq<Record>, r: Record)
    ensures FileBytes(records + [r]) == FileBytes(records) + r.text
  {
    assert (records + [r])[..|records|] == records;
  }

  // ---------------------------------------------------------------------
  // The buffers
  // ---------------------------------------------------------------------

  class LogBufferInfo {
    const buffer1: array<bv8>
    const buffer2: array<bv8>

    // LogpIsDbgPrintNeeded.
    const printing: bool

    // log_buffer_head, and log_buffer_tail as an offset.
    var active: array<bv8>
    var tail: nat
    var maxUsage: nat

    // The bytes written to the file, and the strings printed.
    var file: seq<bv8>
    var console: seq<seq<bv8>>

    // What the bytes mean, and how many entries of the inactive buffer have
    // been drained.
    ghost var log: Log
    ghost var drained: nat

    function BufferAt(i: nat): array<bv8> {
      if i == 0 then buffer1 else buffer2
    }

    ghost predicate Valid()
      reads this, buffer1, buffer2
    {
      && buffer1 != buffer2 && WellFormed(log)
      && active == BufferAt(log.head) && tail == |Encode(log.buffers[log.head])|
      && HoldsFrom(active[..], log.buffers[log.head], 0)
      && HoldsFrom(BufferAt(1 - log.head)[..], log.buffers[1 - log.head], drained)
      && file == FileBytes(log.file)
    }

    // LogpInitializeBufferInfo.
    constructor (printing: bool)
      ensures Valid() && fresh(buffer1) && fresh(buffer2)
      ensures log == Log([[], []], 0, []) && drained == 0 && maxUsage == 0 && console == []
      ensures this.printing == printing
    {
      var b1 := new bv8[BUFFER_SIZE](i => if i == 0 || i == BUFFER_SIZE - 1 then 0 else 0xFF);
      var b2 := new bv8[BUFFER_SIZE](i => if i == 0 || i == BUFFER_SIZE - 1 then 0 else 0xFF);
      buffer1, buffer2, active, tail, maxUsage := b1, b2, b1, 0, 0;
      file, console, this.printing := [], [], printing;
      log, drained := Log([[], []], 0, []), 0;
      new;
      HoldsEmpty(b1[..]);
      HoldsEmpty(b2[..]);
    }

    // The copy that LogpBufferMessage makes at the tail.
    method CopyToTail(message: array<bv8>, ghost e: Entry) returns (ok: bool)
      requires Valid() && message != buffer1 && message != buffer2
      requires IsText(e.text) && StrLen(message[..], 0) < message.Length && CString(message[..]) == Stored(e)
      modifies active
      ensures active.Length == BUFFER_SIZE && tail <= USABLE_SIZE && StrLen(message[..], 0) == |e.text|
      ensures ok <==> Fits(log.buffers[log.head], e.text)
      ensures active[..tail] == old(active[..tail])
      ensures ok ==> active[tail..tail + |e.text|] == Stored(e) && active[tail + |e.text|] == 0
    {
      hide HoldsFrom, Encode, Stored, IsText, AllTexts, FileBytes, StrLen;
      StoredLength(e);
      TailBound(log, active[..]);
      ok := CopyString(active, tail, USABLE_SIZE - tail, message);
    }

    // LogpBufferMessage; `e` says what the message is.
    method BufferMessage(message: array<bv8>, ghost e: Entry) returns (ok: bool)
      requires Valid() && message != buffer1 && message != buffer2
      requires IsText(e.text) && StrLen(message[..], 0) < message.Length && CString(message[..]) == Stored(e)
      modifies `tail, `maxUsage, `log, active
      ensures Valid()
      ensures log == Append(old(log), e)
      ensures ok <==> Fits(old(log).buffers[old(log).head], e.text)
      ensures ok <==> old(tail) + |e.text| + 1 < BUFFER_SIZE
      ensures tail == if ok then old(tail) + |e.text| + 1 else old(tail)
      ensures maxUsage ==
        if !ok then BUFFER_SIZE
        else if tail > old(maxUsage) then tail else old(maxUsage)
    {
      hide HoldsFrom, Encode, Stored, IsText, AllTexts, FileBytes, StrLen;
      ghost var list, before := log.buffers[log.head], active[..];
      var used := tail;
      ok := CopyToTail(message, e);
      if ok {
        var length := StrLen(message[..], 0) + 1;
        tail := tail + length;
        used := used + length;
        if used > maxUsage {
          maxUsage := used;
        }
      } else {
        maxUsage := BUFFER_SIZE;
      }
      active[tail] := 0;
      if ok {
        EncodeAppend(list, e);
        HoldsAppended(before, active[..], list, e);
      } else {
        HoldsPrefix(before, active[..], list);
      }
      log := Append(log, e);
    }

    // The locked section of LogpFlushLogBuffer.
    method SwapBuffers() returns (taken: array<bv8>)
      requires Valid()
      modifies `active, `tail, `log, `drained, BufferAt(1 - log.head)
      ensures Valid() && drained == 0 && taken == old(active) == BufferAt(1 - log.head)
      ensures log == Swap(old(log))
    {
      hide HoldsFrom, Encode, AllTexts, FileBytes;
      TailBound(log, active[..]);
      InactiveBound(log, BufferAt(1 - log.head)[..], drained);
      taken := active;
      active := if taken == buffer1 then buffer2 else buffer1;
      active[0] := 0;
      tail := 0;
      HoldsEmpty(active[..]);
      log, drained := Swap(log), 0;
    }

    // LogpDoDbgPrint, on the string at an offset.
    method DoDbgPrint(message: array<bv8>, at: nat)
      requires at <= message.Length && 2 <= StrLen(message[..], at) < message.Length - at
      modifies `console, message
      ensures var n := old(StrLen(message[..], at));
        && (forall i :: 0 <= i < message.Length && !(at + n - 2 <= i < at + n) ==> message[i] == old(message[i]))
        && (printing ==> message[at + n - 2] == 0x0A && message[at + n - 1] == 0)
        && (!printing ==> message[..] == old(message[..]))
        && console == old(console) + if printing then [Printed(old(message[at..at + n]))] else []
    {
      if !printing {
        return;
      }
      ghost var before, n := message[..], StrLen(message[..], at);
      var locationOfCr := StrLen(message[..], at) - 2;
      message[at + locationOfCr] := 0x0A;
      message[at + locationOfCr + 1] := 0;
      StringAt(message[..], at, Printed(before[at..at + n]));
      console := console + [message[at..at + StrLen(message[..], at)]];
    }

    // The first half of a round of LogpFlushLogBuffer's loop: reads and clears
    // the printed bit of entry k, and writes the entry.
    method WriteOut(taken: array<bv8>, at: nat, ghost list: seq<Entry>, ghost k: nat)
      returns (length: nat, printed: bool)
      requires HoldsFrom(taken[..], list, k) && k < |list| && at == |Encode(list[..k])|
      modifies `file, taken
      ensures printed == list[k].printed && length == |list[k].text| >= 2
      ensures file == old(file) + list[k].text
      ensures HoldsFrom(taken[..], list, k + 1) && |Encode(list[..k + 1])| == at + length + 1
      ensures at + length < taken.Length && StrLen(taken[..], at) == length
      ensures taken[at..at + length] == list[k].text
    {
      hide HoldsFrom, Encode, Stored, IsText, AllTexts;
      ghost var before := taken[..];
      EntryToDrain(before, list, k);
      printed := taken[at] & PRINTED_BIT != 0;
      taken[at] := taken[at] & 0x7F;
      EntryCleared(before, taken[..], list, k);
      length := StrLen(taken[..], at);
      file := file + taken[at..at + length];
      assert forall i :: at + length < i < |before| ==> taken[..][i] == before[i];
      HoldsSuffix(before, taken[..], list, k + 1);
    }

    // A round of the loop: writes the entry at an offset of the taken buffer,
    // and prints it unless its bit says that it has been printed.
    method DrainEntry(taken: array<bv8>, at: nat) returns (length: nat)
      requires Valid() && taken == BufferAt(1 - log.head)
      requires drained < |log.buffers[1 - log.head]| && at == |Encode(log.buffers[1 - log.head][..drained])|
      modifies `file, `console, `log, `drained, taken
      ensures Valid() && drained == old(drained) + 1
      ensures log == WriteEntry(old(log), 1 - log.head, old(drained))
      ensures at + length + 1 == |Encode(log.buffers[1 - log.head][..drained])|
      ensures var e := log.buffers[1 - log.head][old(drained)];
        && |e.text| >= 2
        && console == old(console) + if printing && !e.printed then [e.text[..|e.text| - 2] + [0x0A]] else []
    {
      hide HoldsFrom, Encode, Stored, IsText, AllTexts, FileBytes, StrLen;
      ghost var list := log.buffers[1 - log.head];
      var printed;
      length, printed := WriteOut(taken, at, list, drained);
      ghost var before := taken[..];
      if !printed {
        DoDbgPrint(taken, at);
      }
      assert forall i :: at + length < i < |before| ==> taken[..][i] == before[i];
      HoldsSuffix(before, taken[..], list, drained + 1);
      FileBytesAppend(log.file, Buffered(list[drained].text));
      log := WriteEntry(log, 1 - log.head, drained);
      drained := drained + 1;
    }

    // Messages that other threads buffer meanwhile.
    method OtherWriters(entries: seq<Entry>)
      requires Valid() && AllTexts(entries)
      modifies `tail, `maxUsage, `log, active
      ensures Valid()
      ensures log == old(log).(buffers := old(log).buffers[log.head := Collected(old(log).buffers[log.head], entries)])
    {
      hide HoldsFrom, Encode, Stored, IsText, AllTexts, FileBytes, Fits;
      for i := 0 to |entries|
        invariant Valid() && active == old(active)
        invariant log ==
          old(log).(buffers := old(log).buffers[log.head := Collected(old(log).buffers[log.head], entries[..i])])
      {
        var message := NewMessage(entries, i);
        var ok := BufferMessage(message, entries[i]);
        CollectedNext(old(log).buffers[log.head], entries, i);
      }
      assert entries[..|entries|] == entries;
    }

    // The loop of LogpFlushLogBuffer; before each round other threads buffer
    // what `arrivals` says.
    method DrainAll(taken: array<bv8>, arrivals: nat -> seq<Entry>)
      requires Valid() && drained == 0 && taken == BufferAt(1 - log.head)
      requires forall k :: AllTexts(arrivals(k))
      modifies `tail, `maxUsage, `file, `console, `log, `drained, active, taken
      ensures Valid()
      ensures var list := old(log).buffers[1 - log.head];
        && log.head == old(log).head && drained == |list| && log.buffers[1 - log.head] == list
        && log.buffers[log.head] == Collected(old(log).buffers[log.head], Arrived(arrivals, |list|))
        && log.file == old(log).file + Records(list)
        && console == old(console) + AllPrints(printing, list)
    {
      hide HoldsFrom, Encode, IsText, AllTexts, FileBytes, Fits, Prints, Collected, Records, AllPrints, Arrived;
      ghost var was, list := log, log.buffers[1 - log.head];
      ghost var base := log.buffers[log.head];
      var at, k := 0, 0;
      FlushStart(base, arrivals, printing, list);
      EntryGuard(taken[..], list, 0);
      while taken[at] != 0
        invariant Valid() && k == drained <= |list| && active == old(active)
        invariant log.head == was.head && log.buffers[1 - log.head] == list
        invariant at == |Encode(list[..k])| < taken.Length && (taken[at] != 0 <==> k < |list|)
        invariant log.buffers[log.head] == Collected(base, Arrived(arrivals, k))
        invariant log.file == was.file + Records(list[..k])
        invariant console == old(console) + AllPrints(printing, list[..k])
        decreases |list| - k
      {
        OtherWriters(arrivals(k));
        var length := DrainEntry(taken, at);
        PrintsIs(printing, list[k]);
        EntryGuard(taken[..], list, k + 1);
        FlushRound(was.file, base, arrivals, printing, list, k);
        at, k := at + length + 1, k + 1;
      }
      assert list[..k] == list;
    }

    // LogpFlushLogBuffer.
    method FlushLogBuffer(arrivals: nat -> seq<Entry>)
      requires Valid() && forall k :: AllTexts(arrivals(k))
      modifies `active, `tail, `maxUsage, `file, `console, `log, `drained, buffer1, buffer2
      ensures Valid()
      ensures var list := old(log).buffers[old(log).head];
        && log.head == 1 - old(log).head && log.buffers[old(log).head] == []
        && log.buffers[log.head] == Collected([], Arrived(arrivals, |list|))
        && log.file == old(log).file + Records(list)
        && console == old(console) + AllPrints(printing, list)
      ensures var list := old(log).buffers[old(log).head];
        exists more, at :: console == old(console) + more && PrintsUnprinted(printing, list, more, at)
    {
      hide HoldsFrom, Encode, IsText, AllTexts, FileBytes, Fits, Collected, Records, AllPrints, Arrived,
        PrintsUnprinted;
      ghost var at := AllPrintsExact(printing, log.buffers[log.head]);
      var taken := SwapBuffers();
      DrainAll(taken, arrivals);
      InactiveBound(log, taken[..], drained);
      taken[0] := 0;
      HoldsEmpty(taken[..]);
      log, drained := Clear(log, 1 - log.head), 0;
    }

    // LogpWriteMessageToFile.
    method WriteMessageToFile(message: array<bv8>)
      requires Valid()
      modifies `file, `log
      ensures Valid() && log == WriteDirect(old(log), CString(message[..]))
    {
      hide HoldsFrom, Encode, AllTexts, FileBytes, StrLen, CString;
      file := file + CString(message[..]);
      FileBytesAppend(log.file, Direct(CString(message[..])));
      log := WriteDirect(log, CString(message[..]));
    }

    // The direct path of LogpPut.
    method PutToFile(message: array<bv8>, arrivals: nat -> seq<Entry>)
      requires Valid() && message != buffer1 && message != buffer2
      requires forall k :: AllTexts(arrivals(k))
      modifies `active, `tail, `maxUsage, `file, `console, `log, `drained, buffer1, buffer2
      ensures Valid()
      ensures var list := old(log).buffers[old(log).head];
        && log.head == 1 - old(log).head && log.buffers[old(log).head] == []
        && log.buffers[log.head] == Collected([], Arrived(arrivals, |list|))
        && log.file == old(log).file + Records(list) + [Direct(CString(message[..]))]
        && console == old(console) + AllPrints(printing, list)
    {
      hide HoldsFrom, Encode, AllTexts, FileBytes, StrLen, CString, Collected, Records, AllPrints, Arrived;
      FlushLogBuffer(arrivals);
      WriteMessageToFile(message);
    }

    // LogpSetPrintedBit on the caller's message, so that it is what the buffer
    // stores.
    method MarkMessage(message: array<bv8>, printed: bool)
      requires StrLen(message[..], 0) < message.Length && IsText(CString(message[..]))
      modifies message
      ensures StrLen(message[..], 0) < message.Length
      ensures CString(message[..]) == Stored(Entry(old(CString(message[..])), printed))
      ensures message[..][0 := message[0] & 0x7F] == old(message[..])
    {
      hide Stored, IsText, StrLen, CString;
      ghost var before := message[..];
      PrintedMessage(before, Entry(CString(before), printed));
      if printed {
        message[0] := message[0] | PRINTED_BIT;
      }
      assert message[..] == if printed then before[0 := before[0] | PRINTED_BIT] else before;
    }

    // The buffered path of LogpPut: the caller's message is as before after it.
    method PutToBuffer(message: array<bv8>, printed: bool) returns (ok: bool)
      requires Valid() && message != buffer1 && message != buffer2
      requires StrLen(message[..], 0) < message.Length && IsText(CString(message[..]))
      modifies `tail, `maxUsage, `log, active, message
      ensures Valid() && message[..] == old(message[..])
      ensures log == Append(old(log), Entry(CString(message[..]), printed))
      ensures ok <==> Fits(old(log).buffers[old(log).head], CString(message[..]))
    {
      hide HoldsFrom, Encode, AllTexts, FileBytes, Stored, IsText, StrLen, CString, Append, Fits;
      ghost var before, e := message[..], Entry(CString(message[..]), printed);
      MarkMessage(message, printed);
      ok := BufferMessage(message, e);
      message[0] := message[0] & 0x7F;
      assert message[..] == before;
    }

    // LogpPut.
    method Put(message: array<bv8>, safe: bool, irql: nat, activated: bool, apcsDisabled: bool,
        arrivals: nat -> seq<Entry>)
      returns (ok: bool)
      requires Valid() && message != buffer1 && message != buffer2
      requires StrLen(message[..], 0) < message.Length && IsText(CString(message[..]))
      requires forall k :: AllTexts(arrivals(k))
      modifies `active, `tail, `maxUsage, `file, `console, `log, `drained, buffer1, buffer2, message
      ensures Valid()
      ensures var text, list := old(CString(message[..])), old(log).buffers[old(log).head];
        var direct, prints := !safe && irql == PASSIVE_LEVEL && activated, !safe && irql < CLOCK_LEVEL;
        && (direct && !apcsDisabled ==>
              && log.file == old(log).file + Records(list) + [Direct(text)]
              && log.buffers[old(log).head] == [] && log.head == 1 - old(log).head
              && log.buffers[log.head] == Collected([], Arrived(arrivals, |list|)))
        && (direct && apcsDisabled ==> log == old(log))
        && (direct ==> ok)
        && (!direct ==> log == Append(old(log), Entry(text, prints)) && (ok <==> Fits(list, text)))
        && console == old(console) + (if direct && !apcsDisabled then AllPrints(printing, list) else [])
             + (if prints && printing then [Printed(text)] else [])
        && (!(prints && printing) ==> message[..] == old(message[..]))
    {
      hide HoldsFrom, Encode, AllTexts, FileBytes, IsText, Collected, Records, AllPrints, Arrived, StrLen, Append, Fits;
      ghost var text := CString(message[..]);
      TextLength(text);
      ok := true;
      if !safe && irql == PASSIVE_LEVEL && activated {
        if !apcsDisabled {
          PutToFile(message, arrivals);
        }
      } else {
        ok := PutToBuffer(message, !safe && irql < CLOCK_LEVEL);
      }
      if !safe && irql < CLOCK_LEVEL {
        DoDbgPrint(message, 0);
      }
    }

    // A message that LogpPut buffers, messages that other threads buffer next,
    // and a flush: whether LogpPut printed the message or the flush does, it is
    // on the console once.  `earlier` and `later` are what the flush prints of
    // the messages before and after it.
    method PutAndFlush(message: array<bv8>, safe: bool, irql: nat, activated: bool, between: seq<Entry>,
        arrivals: nat -> seq<Entry>)
      returns (ok: bool, ghost earlier: seq<seq<bv8>>, ghost later: seq<seq<bv8>>, ghost after: seq<Entry>)
      requires Valid() && message != buffer1 && message != buffer2
      requires StrLen(message[..], 0) < message.Length && IsText(CString(message[..]))
      requires AllTexts(between) && forall k :: AllTexts(arrivals(k))
      requires safe || irql != PASSIVE_LEVEL || !activated
      modifies `active, `tail, `maxUsage, `file, `console, `log, `drained, buffer1, buffer2, message
      ensures Valid() && forall e <- after :: e in between
      ensures exists at :: PrintsUnprinted(printing, old(log).buffers[old(log).head], earlier, at)
      ensures exists at :: PrintsUnprinted(printing, after, later, at)
      ensures var text, prints := old(CString(message[..])), !safe && irql < CLOCK_LEVEL;
        var once := if printing then [text[..|text| - 2] + [0x0A]] else [];
        var printed := (if prints then once else []) + earlier + (if prints then [] else once) + later;
        ok ==> console == old(console) + printed
    {
      hide HoldsFrom, Encode, AllTexts, FileBytes, IsText, Collected, Records, AllPrints, Arrived, StrLen, Fits,
        PrintsUnprinted, Prints;
      ghost var list, e := log.buffers[log.head], Entry(CString(message[..]), !safe && irql < CLOCK_LEVEL);
      TextLength(e.text);
      PrintsIs(printing, e);
      ok := Put(message, safe, irql, activated, false, arrivals);
      OtherWriters(between);
      ghost var before := if ok then list + [e] else list;
      after := CollectedMore(before, between);
      ghost var at := AllPrintsExact(printing, list);
      SomeTexts(after, between);
      at := AllPrintsExact(printing, after);
      earlier, later := AllPrints(printing, list), AllPrints(printing, after);
      PrintsConcat(printing, before, after);
      PrintsAppend(printing, list, e);
      FlushLogBuffer(arrivals);
    }
  }

  // The strings are those of the entries not printed before, in order, with LF
  // for the closing CR LF; nothing when printing is off.  `at` says which
  // entries they are.
  ghost predicate PrintsUnprinted(printing: bool, list: seq<Entry>, more: seq<seq<bv8>>, at: seq<nat>) {
    && |more| == |at|
    && (forall i, j :: 0 <= i < j < |at| ==> at[i] < at[j])
    && (forall k: nat :: k in at <==> printing && k < |list| && !list[k].printed)
    && (forall i :: 0 <= i < |at| ==>
          && at[i] < |list| && |list[at[i]].text| >= 2
          && more[i] == list[at[i]].text[..|list[at[i]].text| - 2] + [0x0A])
  }

  lemma {:induction false} AllPrintsExact(printing: bool, list: seq<Entry>) returns (at: seq<nat>)
    requires AllTexts(list)
    ensures PrintsUnprinted(printing, list, AllPrints(printing, list), at)
  {
    hide IsText, Prints, PrintsUnprinted;
    if list == [] {
      at := [];
      NothingPrinted(printing);
    } else {
      var front, e := list[..|list| - 1], list[|list| - 1];
      assert list == front + [e];
      at := AllPrintsExact(printing, front);
      TextLength(e.text);
      PrintsIs(printing, e);
      UnprintedNext(printing, front, AllPrints(printing, front), at, e);
      PrintsAppend(printing, front, e);
      assert AllPrints(printing, front) + [] == AllPrints(printing, front);
      at := if printing && !e.printed then at + [|front|] else at;
    }
  }

  lemma SomeTexts(a: seq<Entry>, b: seq<Entry>)
    requires AllTexts(b) && forall e <- a :: e in b
    ensures AllTexts(a)
  {
  }

  lemma NothingPrinted(printing: bool)
    ensures PrintsUnprinted(printing, [], AllPrints(printing, []), [])
  {
  }

  lemma {:induction false} UnprintedNext(
      printing: bool, list: seq<Entry>, more: seq<seq<bv8>>, at: seq<nat>, e: Entry)
    requires PrintsUnprinted(printing, list, more, at) && |e.text| >= 2
    ensures if printing && !e.printed
      then PrintsUnprinted(printing, list + [e], more + [e.text[..|e.text| - 2] + [0x0A]], at + [|list|])
      else PrintsUnprinted(printing, list + [e], more, at)
  {
    forall i | 0 <= i < |at|
      ensures at[i] < |list| && (list + [e])[at[i]] == list[at[i]]
    {
      assert at[i] in at;
    }
    forall k: nat
      ensures k in at + [|list|] <==> k in at || k == |list|
    {
    }
  }

  // What is buffered later goes behind what is there.
  lemma {:induction false} CollectedMore(list: seq<Entry>, more: seq<Entry>) returns (after: seq<Entry>)
    ensures Collected(list, more) == list + after && forall e <- after :: e in more
  {
    if more == [] {
      after := [];
    } else {
      var front, e := more[..|more| - 1], more[|more| - 1];
      after := CollectedMore(list, front);
      if Fits(list + after, e.text) {
        after := after + [e];
      }
    }
  }

  lemma {:induction false} PrintsAppend(printing: bool, list: seq<Entry>, e: Entry)
    ensures AllPrints(printing, list + [e]) == AllPrints(printing, list) + Prints(printing, e)
  {
    assert (list + [e])[..|list|] == list;
  }

  lemma {:induction false} PrintsConcat(printing: bool, a: seq<Entry>, b: seq<Entry>)
    ensures AllPrints(printing, a + b) == AllPrints(printing, a) + AllPrints(printing, b)
  {
    hide Prints;
    if b == [] {
      assert a + b == a;
    } else {
      PrintsConcat(printing, a, b[..|b| - 1]);
      assert (a + b)[..|a + b| - 1] == a + b[..|b| - 1];
    }
  }

  lemma PrintsIs(printing: bool, e: Entry)
    requires |e.text| >= 2
    ensures Prints(printing, e) == if printing && !e.printed then [e.text[..|e.text| - 2] + [0x0A]] else []
  {
  }

  lemma TextLength(t: seq<bv8>)
    requires IsText(t)
    ensures |t| >= 2
  {
  }

  // A message with its printed bit set is what the buffer stores; clearing the
  // bit gives the message back.
  lemma {:induction false} PrintedMessage(b: seq<bv8>, e: Entry)
    requires StrLen(b, 0) < |b| && IsText(e.text) && CString(b) == e.text
    ensures var m := if e.printed then b[0 := b[0] | PRINTED_BIT] else b;
      && StrLen(m, 0) < |m| && CString(m) == Stored(e) && m[0 := m[0] & 0x7F] == b
  {
    var m := if e.printed then b[0 := b[0] | PRINTED_BIT] else b;
    PrintedBitOfByte(b[0]);
    StoredRoundTrip(e);
    assert m[..|e.text|] == Stored(e);
    StringAt(m, 0, Stored(e));
  }

  lemma FlushStart(base: seq<Entry>, arrivals: nat -> seq<Entry>, printing: bool, list: seq<Entry>)
    ensures Collected(base, Arrived(arrivals, 0)) == base
    ensures Records(list[..0]) == [] && AllPrints(printing, list[..0]) == []
    ensures Encode(list[..0]) == []
  {
  }

  lemma {:induction false} EntryGuard(b: seq<bv8>, list: seq<Entry>, k: nat)
    requires k <= |list| && HoldsFrom(b, list, k)
    ensures |Encode(list[..k])| < |b| == BUFFER_SIZE && (b[|Encode(list[..k])|] != 0 <==> k < |list|)
  {
    if k < |list| {
      EntryInBuffer(b, list, k);
    } else {
      assert list[..k] == list;
    }
  }

  lemma {:induction false} ArrivedNext(base: seq<Entry>, arrivals: nat -> seq<Entry>, k: nat)
    ensures Collected(base, Arrived(arrivals, k + 1)) == Collected(Collected(base, Arrived(arrivals, k)), arrivals(k))
  {
    CollectedConcat(base, Arrived(arrivals, k), arrivals(k));
  }

  // What one round adds to the file, the console and the other buffer.
  lemma {:induction false} FlushRound(
      file: seq<Record>, base: seq<Entry>, arrivals: nat -> seq<Entry>, printing: bool, list: seq<Entry>, k: nat)
    requires k < |list|
    ensures Collected(base, Arrived(arrivals, k + 1)) == Collected(Collected(base, Arrived(arrivals, k)), arrivals(k))
    ensures file + Records(list[..k]) + [Buffered(list[k].text)] == file + Records(list[..k + 1])
    ensures AllPrints(printing, list[..k]) + Prints(printing, list[k]) == AllPrints(printing, list[..k + 1])
  {
    hide *;
    ArrivedNext(base, arrivals, k);
    RecordsNext(list, k);
    PrintsNext(printing, list, k);
  }

  lemma RecordsNext(list: seq<Entry>, k: nat)
    requires k < |list|
    ensures Records(list[..k + 1]) == Records(list[..k]) + [Buffered(list[k].text)]
  {
  }

  lemma {:induction false} PrintsNext(printing: bool, list: seq<Entry>, k: nat)
    requires k < |list|
    ensures AllPrints(printing, list[..k + 1]) == AllPrints(printing, list[..k]) + Prints(printing, list[k])
  {
    hide Prints;
    assert list[..k + 1][..k] == list[..k];
  }

  // A buffer's list after further messages, each taken if it fits.
  function Collected(list: seq<Entry>, more: seq<Entry>): seq<Entry> {
    if more == [] then list
    else
      var c, e := Collected(list, more[..|more| - 1]), more[|more| - 1];
      if Fits(c, e.text) then c + [e] else c
  }

  lemma {:induction false} CollectedNext(list: seq<Entry>, more: seq<Entry>, i: nat)
    requires i < |more|
    ensures var c := Collected(list, more[..i]);
      Collected(list, more[..i + 1]) == if Fits(c, more[i].text) then c + [more[i]] else c
  {
    assert more[..i + 1][..i] == more[..i];
  }

  lemma {:induction false} CollectedConcat(list: seq<Entry>, a: seq<Entry>, b: seq<Entry>)
    ensures Collected(list, a + b) == Collected(Collected(list, a), b)
  {
    if b == [] {
      assert a + b == a;
    } else {
      CollectedConcat(list, a, b[..|b| - 1]);
      assert (a + b)[..|a + b| - 1] == a + b[..|b| - 1];
    }
  }

  // The first n groups of arriving messages.
  function Arrived(arrivals: nat -> seq<Entry>, n: nat): seq<Entry> {
    if n == 0 then [] else Arrived(arrivals, n - 1) + arrivals(n - 1)
  }

  function Records(list: seq<Entry>): seq<Record> {
    seq(|list|, i requires 0 <= i < |list| => Buffered(list[i].text))
  }

  function AllPrints(printing: bool, list: seq<Entry>): seq<seq<bv8>> {
    if list == [] then [] else AllPrints(printing, list[..|list| - 1]) + Prints(printing, list[|list| - 1])
  }

  method NewMessage(entries: seq<Entry>, i: nat) returns (message: array<bv8>)
    requires AllTexts(entries) && i < |entries|
    ensures fresh(message) && IsText(entries[i].text)
    ensures StrLen(message[..], 0) < message.Length && CString(message[..]) == Stored(entries[i])
  {
    var s := Stored(entries[i]);
    StoredRoundTrip(entries[i]);
    message := new bv8[|s| + 1](k => if 0 <= k < |s| then s[k] else 0);
    assert message[..][0..0 + |s|] == s;
    StringAt(message[..], 0, s);
  }

  // What draining an entry prints.
  function Prints(printing: bool, e: Entry): seq<seq<bv8>> {
    if printing && !e.printed && |e.text| >= 2 then [Printed(e.text)] else []
  }

  lemma InactiveBound(log: Log, b: seq<bv8>, k: nat)
    requires WellFormed(log) && HoldsFrom(b, log.buffers[1 - log.head], k)
    ensures |b| == BUFFER_SIZE
  {
  }

  lemma {:induction false} EntryToDrain(b: seq<bv8>, list: seq<Entry>, k: nat)
    requires HoldsFrom(b, list, k) && k < |list|
    ensures var p := |Encode(list[..k])|; p < |b| && (b[p] & PRINTED_BIT != 0 <==> list[k].printed)
  {
    hide *;
    EntryInBuffer(b, list, k);
    TextInBuffer(b, list, k);
    StoredRoundTrip(list[k]);
    PrintedBitRead(b, |Encode(list[..k])|, Stored(list[k]), list[k]);
  }

  lemma {:induction false} PrintedBitRead(b: seq<bv8>, p: nat, s: seq<bv8>, e: Entry)
    requires s != [] && p + |s| <= |b| && b[p..p + |s|] == s && Parsed(s) == e
    ensures b[p] & PRINTED_BIT != 0 <==> e.printed
    ensures s[0 := b[p] & 0x7F] == e.text
  {
    assert b[p..p + |s|][0] == b[p];
  }

  // Clearing the printed bit leaves the original text.
  lemma {:induction false} EntryCleared(before: seq<bv8>, after: seq<bv8>, list: seq<Entry>, k: nat)
    requires HoldsFrom(before, list, k) && k < |list|
    requires var p := |Encode(list[..k])|; p < |before| && after == before[p := before[p] & 0x7F]
    ensures var p, n := |Encode(list[..k])|, |list[k].text|;
      && n >= 2 && p + n < |after| && StrLen(after, p) == n && after[p..p + n] == list[k].text
      && |Encode(list[..k + 1])| == p + n + 1
    ensures HoldsFrom(before, list, k + 1)
  {
    hide *;
    EntryInBuffer(before, list, k);
    TextInBuffer(before, list, k);
    StoredRoundTrip(list[k]);
    var p, s := |Encode(list[..k])|, Stored(list[k]);
    PrintedBitRead(before, p, s, list[k]);
    assert after[p..p + |s|] == before[p..p + |s|][0 := before[p] & 0x7F];
    TextHasNoZero(list[k].text);
    StringAt(after, p, list[k].text);
  }

  lemma TextHasNoZero(t: seq<bv8>)
    requires IsText(t)
    ensures forall i :: 0 <= i < |t| ==> t[i] != 0
  {
  }

  lemma {:induction false} StoredLength(e: Entry)
    requires IsText(e.text)
    ensures |Stored(e)| == |e.text|
  {
    StoredRoundTrip(e);
  }

  lemma TailBound(log: Log, b: seq<bv8>)
    requires WellFormed(log) && HoldsFrom(b, log.buffers[log.head], 0)
    ensures |Encode(log.buffers[log.head])| <= USABLE_SIZE && |b| == BUFFER_SIZE
  {
  }
}
