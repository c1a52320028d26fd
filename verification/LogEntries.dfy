// The contents of a log buffer as bytes (log.cpp): a run of non-empty
// NUL-terminated entries, closed by an empty one.
module LogEntries {
  const BUFFER_SIZE := 0x1_0000
  const USABLE_SIZE := BUFFER_SIZE - 1
  const PRINTED_BIT: bv8 := 0x80

  // A buffered message and whether it has been printed already.
  datatype Entry = Entry(text: seq<bv8>, printed: bool)

  // What LogpMakePrefix produces: no NUL, at least the closing CR and LF, and
  // a first byte whose top bit is free to serve as the printed bit.
  predicate IsText(t: seq<bv8>) {
    |t| >= 2 && t[0] & PRINTED_BIT == 0 && forall i :: 0 <= i < |t| ==> t[i] != 0
  }

  predicate AllTexts(list: seq<Entry>) {
    forall e <- list :: IsText(e.text)
  }

  // LogpSetPrintedBit.
  function SetPrintedBit(s: seq<bv8>, on: bool): (r: seq<bv8>)
    requires s != []
    ensures |r| == |s|
  {
    s[0 := if on then s[0] | PRINTED_BIT else s[0] & 0x7F]
  }

  // LogpIsPrinted.
  predicate IsPrinted(s: seq<bv8>)
    requires s != []
  {
    s[0] & PRINTED_BIT != 0
  }

  function Stored(e: Entry): seq<bv8> {
    if e.printed && e.text != [] then SetPrintedBit(e.text, true) else e.text
  }

  function Parsed(s: seq<bv8>): Entry
    requires s != []
  {
    Entry(SetPrintedBit(s, false), IsPrinted(s))
  }

  lemma PrintedBitOfByte(b: bv8)
    requires b & PRINTED_BIT == 0
    ensures b & 0x7F == b && (b | PRINTED_BIT) & 0x7F == b
    ensures (b | PRINTED_BIT) & PRINTED_BIT != 0 && b | PRINTED_BIT != 0
  {
  }

  // The printed bit never hides an entry's end and is read back exactly.
  lemma {:induction false} StoredRoundTrip(e: Entry)
    requires IsText(e.text)
    ensures |Stored(e)| == |e.text| >= 2 && Parsed(Stored(e)) == e
    ensures forall i :: 0 <= i < |e.text| ==> Stored(e)[i] != 0
  {
    PrintedBitOfByte(e.text[0]);
  }

  // LogpPut sets the bit around buffering and clears it again.
  lemma {:induction false} PrintedBitRestores(t: seq<bv8>, on: bool)
    requires IsText(t)
    ensures SetPrintedBit(SetPrintedBit(t, on), false) == t
    ensures SetPrintedBit(t, on) == Stored(Entry(t, on))
  {
    PrintedBitOfByte(t[0]);
  }

  // strlen of the string at offset i.
  function StrLen(b: seq<bv8>, i: nat): (n: nat)
    requires i <= |b|
    ensures i + n <= |b| && (i + n < |b| ==> b[i + n] == 0)
    ensures forall k :: i <= k < i + n ==> b[k] != 0
    decreases |b| - i
  {
    if i == |b| || b[i] == 0 then 0 else 1 + StrLen(b, i + 1)
  }

  function Encode(list: seq<Entry>): seq<bv8> {
    if list == [] then []
    else Encode(list[..|list| - 1]) + Stored(list[|list| - 1]) + [0]
  }

  // The walk of LogpFlushLogBuffer from offset i.
  function Decode(b: seq<bv8>, i: nat): seq<Entry>
    decreases |b| - i
  {
    if i >= |b| || b[i] == 0 then []
    else
      var n := StrLen(b, i);
      [Parsed(b[i..i + n])] + Decode(b, i + n + 1)
  }

  lemma {:induction false} EncodeAppend(list: seq<Entry>, e: Entry)
    ensures Encode(list + [e]) == Encode(list) + Stored(e) + [0]
    ensures |Encode(list + [e])| == |Encode(list)| + |e.text| + 1
  {
    assert (list + [e])[..|list|] == list;
  }

  lemma {:induction false} EncodePrefix(list: seq<Entry>, k: nat)
    requires k <= |list|
    ensures Encode(list[..k]) <= Encode(list)
  {
    if k < |list| {
      var front := list[..|list| - 1];
      EncodePrefix(front, k);
      assert front[..k] == list[..k];
    } else {
      assert list[..k] == list;
    }
  }

  // Where entry k of the list lies in its encoding.
  lemma {:induction false} EntryAt(list: seq<Entry>, k: nat)
    requires k < |list|
    ensures var p, s := |Encode(list[..k])|, Stored(list[k]);
      && |s| == |list[k].text|
      && |Encode(list[..k + 1])| == p + |s| + 1 <= |Encode(list)|
      && Encode(list)[p..p + |s|] == s && Encode(list)[p + |s|] == 0
  {
    EncodePrefix(list, k + 1);
    EncodeAppend(list[..k], list[k]);
    assert list[..k + 1] == list[..k] + [list[k]];
  }

  // The bytes at and after entry k of a buffer hold the rest of the list.
  ghost predicate HoldsFrom(b: seq<bv8>, list: seq<Entry>, k: nat) {
    && AllTexts(list) && k <= |list| && |b| == BUFFER_SIZE
    && |Encode(list)| <= USABLE_SIZE && b[|Encode(list)|] == 0
    && |Encode(list[..k])| <= |Encode(list)|
    && (forall i :: |Encode(list[..k])| <= i < |Encode(list)| ==> b[i] == Encode(list)[i])
  }

  lemma SliceSame(b: seq<bv8>, all: seq<bv8>, from: nat, to: nat)
    requires from <= to <= |all| && to <= |b| && forall i :: from <= i < to ==> b[i] == all[i]
    ensures b[from..to] == all[from..to]
  {
  }

  // Where the buffer still has the bytes of the encoding.
  lemma HeldBytes(b: seq<bv8>, list: seq<Entry>, k: nat)
    requires HoldsFrom(b, list, k)
    ensures k <= |list| && |Encode(list)| < |b| == BUFFER_SIZE && |Encode(list[..k])| <= |Encode(list)|
    ensures forall i :: |Encode(list[..k])| <= i < |Encode(list)| ==> b[i] == Encode(list)[i]
  {
  }

  lemma {:induction false} BytesOfEntry(b: seq<bv8>, list: seq<Entry>, k: nat)
    requires HoldsFrom(b, list, k) && k < |list|
    ensures var p, s := |Encode(list[..k])|, Stored(list[k]);
      && p + |s| < BUFFER_SIZE && b[p..p + |s|] == s && b[p + |s|] == 0
  {
    hide *;
    HeldBytes(b, list, k);
    EntryAt(list, k);
    var p, s := |Encode(list[..k])|, Stored(list[k]);
    SliceSame(b, Encode(list), p, p + |s|);
  }

  lemma {:induction false} HoldsNext(b: seq<bv8>, list: seq<Entry>, k: nat)
    requires HoldsFrom(b, list, k) && k < |list|
    ensures HoldsFrom(b, list, k + 1)
  {
    EntryAt(list, k);
    hide Encode, Stored, IsText;
  }

  // What the walk sees at entry k, and what remains after it.
  lemma {:induction false} EntryInBuffer(b: seq<bv8>, list: seq<Entry>, k: nat)
    requires HoldsFrom(b, list, k) && k < |list|
    ensures var p, s := |Encode(list[..k])|, Stored(list[k]);
      && s != [] && p + |s| < |b| && b[p] != 0 && StrLen(b, p) == |s| && b[p..p + |s|] == s
      && |Encode(list[..k + 1])| == p + |s| + 1
    ensures HoldsFrom(b, list, k + 1)
  {
    hide *;
    BytesOfEntry(b, list, k);
    HoldsNext(b, list, k);
    TextInBuffer(b, list, k);
    EntryAt(list, k);
    StringAt(b, |Encode(list[..k])|, Stored(list[k]));
  }

  lemma {:induction false} TextInBuffer(b: seq<bv8>, list: seq<Entry>, k: nat)
    requires HoldsFrom(b, list, k) && k < |list|
    ensures |b| == BUFFER_SIZE && IsText(list[k].text)
    ensures Stored(list[k]) != [] && forall i :: 0 <= i < |Stored(list[k])| ==> Stored(list[k])[i] != 0
  {
    StoredRoundTrip(list[k]);
  }

  lemma {:induction false} StringAt(b: seq<bv8>, p: nat, s: seq<bv8>)
    requires s != [] && p + |s| < |b| && b[p..p + |s|] == s && b[p + |s|] == 0
    requires forall i :: 0 <= i < |s| ==> s[i] != 0
    ensures b[p] != 0 && StrLen(b, p) == |s|
  {
    forall i | p <= i < p + |s|
      ensures b[i] != 0
    {
      assert b[p..p + |s|][i - p] == s[i - p];
    }
    StrLenIs(b, p, |s|);
  }

  lemma DecodeNext(b: seq<bv8>, i: nat, n: nat)
    requires i + n < |b| && b[i] != 0 && StrLen(b, i) == n
    ensures n > 0 && Decode(b, i) == [Parsed(b[i..i + n])] + Decode(b, i + n + 1)
  {
  }

  // Walking a buffer finds exactly the entries of the list, bits included.
  lemma {:induction false} DecodeExact(b: seq<bv8>, list: seq<Entry>, k: nat)
    requires k <= |list| && HoldsFrom(b, list, k)
    ensures Decode(b, |Encode(list[..k])|) == list[k..]
    decreases |list| - k
  {
    hide *;
    if k == |list| {
      assert list[..k] == list;
      DecodeAtEnd(b, list);
    } else {
      EntryInBuffer(b, list, k);
      TextInBuffer(b, list, k);
      DecodeExact(b, list, k + 1);
      StoredRoundTrip(list[k]);
      DecodeNext(b, |Encode(list[..k])|, |Stored(list[k])|);
      assert list[k..] == [list[k]] + list[k + 1..];
    }
  }

  lemma DecodeAtEnd(b: seq<bv8>, list: seq<Entry>)
    requires HoldsFrom(b, list, |list|)
    ensures Decode(b, |Encode(list)|) == []
  {
  }

  lemma {:induction false} StrLenIs(b: seq<bv8>, i: nat, n: nat)
    requires i + n < |b| && b[i + n] == 0
    requires forall k :: i <= k < i + n ==> b[k] != 0
    ensures StrLen(b, i) == n
    decreases n
  {
    if n > 0 {
      StrLenIs(b, i + 1, n - 1);
    }
  }
}
