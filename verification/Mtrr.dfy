// Memory types from the memory type range registers (MTRRs).
module Mtrr {

  const UNCACHEABLE := 0
  const WRITE_THROUGH := 4
  const WRITE_BACK := 6

  // MAXUCHAR: no MTRR has described the address yet.
  const UNDEFINED := 255

  // 11 fixed-range registers of 8 types each, and at most 255 variable ones.
  const FIXED_COUNT := 88
  const VARIABLE_MAX := 255
  const ENTRIES_SIZE := FIXED_COUNT + VARIABLE_MAX

  datatype MtrrData = MtrrData(enabled: bool, fixedMtrr: bool, memoryType: nat, rangeBase: nat, rangeEnd: nat)

  predicate Covers(e: MtrrData, pa: nat) {
    e.rangeBase <= pa <= e.rangeEnd
  }

  // ---------------------------------------------------------------------
  // What the scan computes
  // ---------------------------------------------------------------------

  // The entries in use: those before the first one that is not enabled.
  function EnabledFrom(entries: seq<MtrrData>, i: nat): (n: nat)
    requires i <= |entries|
    ensures i <= n <= |entries|
    ensures forall k :: i <= k < n ==> entries[k].enabled
    decreases |entries| - i
  {
    if i == |entries| || !entries[i].enabled then i else EnabledFrom(entries, i + 1)
  }

  // Those of the first n entries that cover the address, in order.
  function Covering(entries: seq<MtrrData>, n: nat, pa: nat): (c: seq<MtrrData>)
    requires n <= |entries|
    ensures forall e <- c :: e in entries[..n] && Covers(e, pa)
    ensures forall k :: 0 <= k < n && Covers(entries[k], pa) ==> entries[k] in c
  {
    if n == 0 then []
    else if Covers(entries[n - 1], pa) then Covering(entries, n - 1, pa) + [entries[n - 1]]
    else Covering(entries, n - 1, pa)
  }

  // An entry that ends the scan: a fixed range or an uncacheable one.
  predicate Decisive(e: MtrrData) {
    e.fixedMtrr || e.memoryType == UNCACHEABLE
  }

  predicate NoneDecisive(c: seq<MtrrData>) {
    forall e <- c :: !Decisive(e)
  }

  // The type of the first decisive entry if there is one, else of the last entry.
  function Resolve(c: seq<MtrrData>): nat {
    if c == [] then UNDEFINED
    else if NoneDecisive(c[..|c| - 1]) then c[|c| - 1].memoryType
    else Resolve(c[..|c| - 1])
  }

  lemma {:induction false} ResolveNext(c: seq<MtrrData>, e: MtrrData)
    ensures Resolve(c + [e]) == if NoneDecisive(c) then e.memoryType else Resolve(c)
    ensures NoneDecisive(c + [e]) <==> NoneDecisive(c) && !Decisive(e)
  {
    assert (c + [e])[..|c|] == c;
    assert forall x <- c :: x in c + [e];
  }

  function MemoryType(entries: seq<MtrrData>, defaultType: nat, pa: nat): nat {
    var t := Resolve(Covering(entries, EnabledFrom(entries, 0), pa));
    if t == UNDEFINED then defaultType else t
  }

  // EptpGetMemoryType.
  method GetMemoryType(entries: seq<MtrrData>, defaultType: nat, pa: nat) returns (t: nat)
    ensures t == MemoryType(entries, defaultType, pa)
  {
    t := UNDEFINED;
    ghost var end := EnabledFrom(entries, 0);
    ghost var done := false;
    var i := 0;
    while i < |entries|
      invariant 0 <= i <= |entries|
      invariant EnabledFrom(entries, i) == end
      invariant NoneDecisive(Covering(entries, i, pa))
      invariant t == Resolve(Covering(entries, i, pa))
    {
      var entry := entries[i];
      if !entry.enabled {
        break;
      }
      i := i + 1;
      if !(entry.rangeBase <= pa <= entry.rangeEnd) {
        continue;
      }
      ResolveNext(Covering(entries, i - 1, pa), entry);
      if entry.fixedMtrr || entry.memoryType == UNCACHEABLE {
        t := entry.memoryType;
        done := true;
        break;
      }
      if t == WRITE_THROUGH || entry.memoryType == WRITE_THROUGH {
        if t == WRITE_BACK {
          t := WRITE_THROUGH;
          continue;
        }
      }
      t := entry.memoryType;
    }
    assert t == Resolve(Covering(entries, end, pa)) by {
      if done {
        FirstDecisiveWins(entries, i, end, pa);
      } else {
        assert i == end;
      }
    }
    if t == UNDEFINED {
      t := defaultType;
    }
  }

  // Once a decisive entry has been met, later entries do not matter.
  lemma {:induction false} FirstDecisiveWins(entries: seq<MtrrData>, i: nat, n: nat, pa: nat)
    requires i <= n <= |entries|
    requires !NoneDecisive(Covering(entries, i, pa))
    ensures !NoneDecisive(Covering(entries, n, pa))
    ensures Resolve(Covering(entries, n, pa)) == Resolve(Covering(entries, i, pa))
    decreases n - i
  {
    hide Resolve, NoneDecisive;
    if i < n {
      FirstDecisiveWins(entries, i, n - 1, pa);
      ResolveNext(Covering(entries, n - 1, pa), entries[n - 1]);
    }
  }

  // ---------------------------------------------------------------------
  // Precedence
  // ---------------------------------------------------------------------

  // The layout that initialization produces among the first n entries: fixed
  // ranges come first, and no two fixed ranges overlap.
  ghost predicate FixedFirst(entries: seq<MtrrData>, n: nat)
    requires n <= |entries|
  {
    && (forall i, j :: 0 <= i < j < n && entries[j].fixedMtrr ==> entries[i].fixedMtrr)
    && (forall i, j, pa :: 0 <= i < j < n && entries[i].fixedMtrr && entries[j].fixedMtrr ==>
          !(Covers(entries[i], pa) && Covers(entries[j], pa)))
  }

  // A fixed range that covers the address decides its type.
  lemma {:induction false} FixedRangeWins(entries: seq<MtrrData>, n: nat, k: nat, pa: nat)
    requires k < n <= |entries| && FixedFirst(entries, n)
    requires entries[k].fixedMtrr && Covers(entries[k], pa)
    ensures Resolve(Covering(entries, n, pa)) == entries[k].memoryType
  {
    NothingBefore(entries, n, k, k, pa);
    assert Covering(entries, k + 1, pa) == [entries[k]];
    assert entries[k] in Covering(entries, k + 1, pa);
    FirstDecisiveWins(entries, k + 1, n, pa);
    ResolveNext([], entries[k]);
    assert [] + [entries[k]] == [entries[k]];
  }

  lemma {:induction false} NothingBefore(entries: seq<MtrrData>, n: nat, k: nat, i: nat, pa: nat)
    requires i <= k < n <= |entries| && FixedFirst(entries, n)
    requires entries[k].fixedMtrr && Covers(entries[k], pa)
    ensures Covering(entries, i, pa) == []
  {
    if i > 0 {
      NothingBefore(entries, n, k, i - 1, pa);
    }
  }

  // Without a covering fixed range, an uncacheable one decides.
  lemma {:induction false} UncacheableWins(c: seq<MtrrData>)
    requires forall e <- c :: !e.fixedMtrr
    requires exists e <- c :: e.memoryType == UNCACHEABLE
    ensures Resolve(c) == UNCACHEABLE
  {
    var front, last := c[..|c| - 1], c[|c| - 1];
    assert c == front + [last];
    ResolveNext(front, last);
    if !NoneDecisive(front) {
      UncacheableWins(front);
    }
  }

  // Otherwise the last covering entry decides.
  lemma {:induction false} LastWins(c: seq<MtrrData>)
    requires c != [] && NoneDecisive(c)
    ensures Resolve(c) == c[|c| - 1].memoryType
  {
    var front, last := c[..|c| - 1], c[|c| - 1];
    assert c == front + [last];
    ResolveNext(front, last);
  }

  // Section 11.11.4.1 (MTRR Precedences) of the Intel SDM, volume 3A, for
  // overlapping variable ranges; None where it leaves the type undefined.
  datatype Ruling = Ruled(memoryType: nat) | Undefined

  ghost function Precedence(c: seq<MtrrData>): Ruling
    requires c != []
  {
    if exists e <- c :: e.memoryType == UNCACHEABLE then Ruled(UNCACHEABLE)
    else if forall e <- c :: e.memoryType == c[0].memoryType then Ruled(c[0].memoryType)
    else if forall e <- c :: e.memoryType in {WRITE_THROUGH, WRITE_BACK} then Ruled(WRITE_THROUGH)
    else Undefined
  }

  // A write-through and a write-back range overlap.
  ghost predicate MixesThroughAndBack(c: seq<MtrrData>) {
    && (forall e <- c :: e.memoryType in {WRITE_THROUGH, WRITE_BACK})
    && (exists e <- c :: e.memoryType == WRITE_THROUGH)
    && (exists e <- c :: e.memoryType == WRITE_BACK)
  }

  // The scan follows the manual's ruling exactly when it is not the case that
  // WT and WB ranges overlap and the last of them is WB.
  lemma {:induction false} ScanFollowsPrecedence(c: seq<MtrrData>)
    requires c != [] && (forall e <- c :: !e.fixedMtrr) && Precedence(c).Ruled?
    ensures Resolve(c) == Precedence(c).memoryType <==>
      !(MixesThroughAndBack(c) && c[|c| - 1].memoryType == WRITE_BACK)
  {
    if exists e <- c :: e.memoryType == UNCACHEABLE {
      UncacheableWins(c);
    } else {
      LastWins(c);
      assert c[0] in c && c[|c| - 1] in c;
    }
  }

  // An overlap for which the source's stated rule (WT wins over WB) fails.
  lemma {:induction false} WriteBackAfterWriteThrough()
    ensures var through := MtrrData(true, false, WRITE_THROUGH, 0, 0xFFF);
      var back := MtrrData(true, false, WRITE_BACK, 0, 0xFFF);
      && MemoryType([through, back], UNCACHEABLE, 0) == WRITE_BACK
      && MemoryType([back, through], UNCACHEABLE, 0) == WRITE_THROUGH
      && Precedence([through, back]) == Ruled(WRITE_THROUGH)
  {
    var through := MtrrData(true, false, WRITE_THROUGH, 0, 0xFFF);
    var back := MtrrData(true, false, WRITE_BACK, 0, 0xFFF);
    TwoEntries(through, back);
    TwoEntries(back, through);
    LastWins([through, back]);
    LastWins([back, through]);
    assert through in [through, back] && back in [through, back];
  }

  lemma {:induction false} TwoEntries(a: MtrrData, b: MtrrData)
    requires a.enabled && b.enabled && Covers(a, 0) && Covers(b, 0)
    ensures EnabledFrom([a, b], 0) == 2 && Covering([a, b], 2, 0) == [a, b]
  {
    assert EnabledFrom([a, b], 2) == 2;
    assert EnabledFrom([a, b], 1) == 2;
    assert Covering([a, b], 1, 0) == [a];
  }

  // ---------------------------------------------------------------------
  // Page granularity
  // ---------------------------------------------------------------------

  // A range of whole 4 KiB pages.
  predicate WholePages(e: MtrrData) {
    e.rangeBase % 0x1000 == 0 && (e.rangeEnd + 1) % 0x1000 == 0
  }

  // All addresses of a page have one memory type, so a leaf entry made for any
  // address of a page has the type of the page.
  lemma {:induction false} MemoryTypeOfPage(entries: seq<MtrrData>, defaultType: nat, pa: nat)
    requires forall e <- entries[..EnabledFrom(entries, 0)] :: WholePages(e)
    ensures MemoryType(entries, defaultType, pa) == MemoryType(entries, defaultType, pa / 0x1000 * 0x1000)
  {
    CoveringOfPage(entries, EnabledFrom(entries, 0), pa);
  }

  lemma SamePage(e: MtrrData, pa: nat)
    requires WholePages(e)
    ensures Covers(e, pa) <==> Covers(e, pa / 0x1000 * 0x1000)
  {
  }

  lemma {:induction false} CoveringOfPage(entries: seq<MtrrData>, n: nat, pa: nat)
    requires n <= |entries| && forall e <- entries[..n] :: WholePages(e)
    ensures Covering(entries, n, pa) == Covering(entries, n, pa / 0x1000 * 0x1000)
  {
    if n > 0 {
      assert forall e <- entries[..n - 1] :: e in entries[..n];
      CoveringOfPage(entries, n - 1, pa);
      assert entries[..n][n - 1] == entries[n - 1];
      SamePage(entries[n - 1], pa);
    }
  }
}
