// Reading the MTRRs into the entry array (EptInitializeMtrrEntries).
module MtrrInitialization {
  import opened Mtrr
  import opened Bits

  // A variable-range pair: IA32_MTRR_PHYSMASKn and IA32_MTRR_PHYSBASEn, whose
  // mask and base fields hold bits 12 to 47 of an address.
  datatype VariableRange = VariableRange(valid: bool, physMask: nat, physBase: nat, memoryType: nat)

  // What the registers say.  A fixed-range register holds eight types.
  datatype Registers = Registers(
    fixedSupported: bool, fixedEnabled: bool, fixed: seq<seq<nat>>, variable: seq<VariableRange>)

  ghost predicate WellFormed(r: Registers) {
    && |r.fixed| == 11 && (forall m <- r.fixed :: |m| == 8)
    && |r.variable| <= VARIABLE_MAX
    && (forall v <- r.variable :: v.physMask < 0x10_0000_0000 && v.physBase < 0x10_0000_0000)
    && (forall v <- r.variable :: v.valid ==> v.physMask != 0)
  }

  predicate UsesFixed(r: Registers) {
    r.fixedSupported && r.fixedEnabled
  }

  // Range k of the 88 fixed ranges: 8 of 64 KiB, 16 of 16 KiB, 64 of 4 KiB.
  function FixedBase(k: nat): nat {
    if k < 8 then k * 0x1_0000
    else if k < 24 then 0x8_0000 + (k - 8) * 0x4000
    else 0xC_0000 + (k - 24) * 0x1000
  }

  function FixedEntry(base: nat, size: nat, memoryType: nat): MtrrData
    requires size > 0
  {
    MtrrData(true, true, memoryType, base, base + size - 1)
  }

  function FixedRange(r: Registers, k: nat): (e: MtrrData)
    requires WellFormed(r) && k < FIXED_COUNT
    ensures e.enabled && e.fixedMtrr
    ensures e.rangeBase == FixedBase(k) && e.rangeEnd == FixedBase(k + 1) - 1
  {
    FixedEntry(FixedBase(k), FixedBase(k + 1) - FixedBase(k), r.fixed[k / 8][k % 8])
  }

  function FixedEntries(r: Registers): (s: seq<MtrrData>)
    requires WellFormed(r)
    ensures |s| == FIXED_COUNT
  {
    seq(FIXED_COUNT, k requires 0 <= k < FIXED_COUNT => FixedRange(r, k))
  }

  function VariableEntry(v: VariableRange): MtrrData
    requires v.physMask != 0
  {
    var base := v.physBase * 0x1000;
    MtrrData(true, false, v.memoryType, base, base + Pow2(LowestBit(v.physMask * 0x1000)) - 1)
  }

  // The entries for the valid ones among the first n variable ranges.
  function VariableEntries(r: Registers, n: nat): (s: seq<MtrrData>)
    requires WellFormed(r) && n <= |r.variable|
    ensures |s| <= n
  {
    if n == 0 then []
    else if r.variable[n - 1].valid then VariableEntries(r, n - 1) + [VariableEntry(r.variable[n - 1])]
    else VariableEntries(r, n - 1)
  }

  function AllEntries(r: Registers): (s: seq<MtrrData>)
    requires WellFormed(r)
    ensures |s| <= ENTRIES_SIZE
  {
    (if UsesFixed(r) then FixedEntries(r) else []) + VariableEntries(r, |r.variable|)
  }

  // Register m of the fixed ones serves slots 8m to 8m + 7.
  function RegisterSize(m: nat): (size: nat)
    ensures size > 0
  {
    if m < 1 then 0x1_0000 else if m < 3 then 0x4000 else 0x1000
  }

  lemma {:induction false} RegisterSlot(r: Registers, m: nat, k: nat)
    requires WellFormed(r) && m < 11 && 8 * m <= k < 8 * m + 8
    ensures FixedEntries(r)[k] ==
      FixedEntry(FixedBase(8 * m) + (k - 8 * m) * RegisterSize(m), RegisterSize(m), r.fixed[m][k - 8 * m])
  {
    assert k / 8 == m && k % 8 == k - 8 * m;
    assert FixedBase(k + 1) - FixedBase(k) == RegisterSize(m);
    if m < 1 {
    } else if m < 3 {
      assert FixedBase(k) == FixedBase(8 * m) + (k - 8 * m) * 0x4000;
    } else {
      assert FixedBase(k) == FixedBase(8 * m) + (k - 8 * m) * 0x1000;
    }
  }

  // The eight entries of one register.
  ghost function RegisterEntries(first: nat, size: nat, types: seq<nat>): (s: seq<MtrrData>)
    requires size > 0 && |types| == 8
    ensures |s| == 8
  {
    seq(8, j requires 0 <= j < 8 => FixedEntry(first + j * size, size, types[j]))
  }

  lemma {:induction false} RegisterSlots(r: Registers, m: nat)
    requires WellFormed(r) && m < 11
    ensures FixedEntries(r)[8 * m..8 * m + 8] == RegisterEntries(FixedBase(8 * m), RegisterSize(m), r.fixed[m])
  {
    hide FixedEntries, FixedBase, RegisterSize;
    forall k | 8 * m <= k < 8 * m + 8
      ensures FixedEntries(r)[k] == RegisterEntries(FixedBase(8 * m), RegisterSize(m), r.fixed[m])[k - 8 * m]
    {
      RegisterSlot(r, m, k);
    }
  }

  // One register's eight ranges, stored from `index` on.
  method StoreFixedRegister(entries: array<MtrrData>, index: nat, first: nat, size: nat, types: seq<nat>)
    requires index + 8 <= entries.Length && size > 0 && |types| == 8
    modifies entries
    ensures entries[..index] == old(entries[..index])
    ensures entries[index..index + 8] == RegisterEntries(first, size, types)
    ensures forall k :: index + 8 <= k < entries.Length ==> entries[k] == old(entries[k])
  {
    var offset := 0;
    ghost var all := RegisterEntries(first, size, types);
    for j := 0 to 8
      invariant offset == j * size
      invariant forall k :: index <= k < index + j ==> entries[k] == all[k - index]
      invariant forall k :: 0 <= k < entries.Length && !(index <= k < index + j) ==> entries[k] == old(entries[k])
    {
      var base := first + offset;
      offset := offset + size;
      entries[index + j] := MtrrData(true, true, types[j], base, base + size - 1);
    }
  }

  // Storing register m behind the entries of the earlier ones.
  method StoreRegister(entries: array<MtrrData>, r: Registers, m: nat, first: nat, size: nat)
    requires WellFormed(r) && entries.Length == ENTRIES_SIZE && m < 11
    requires first == FixedBase(8 * m) && size == RegisterSize(m)
    requires entries[..8 * m] == FixedEntries(r)[..8 * m]
    modifies entries
    ensures entries[..8 * m + 8] == FixedEntries(r)[..8 * m + 8]
    ensures forall k :: 8 * m + 8 <= k < entries.Length ==> entries[k] == old(entries[k])
  {
    hide FixedEntries, FixedBase, RegisterSize, RegisterEntries;
    RegisterSlots(r, m);
    StoreFixedRegister(entries, 8 * m, first, size, r.fixed[m]);
    assert entries[..8 * m + 8] == entries[..8 * m] + entries[8 * m..8 * m + 8];
    assert FixedEntries(r)[..8 * m + 8] == FixedEntries(r)[..8 * m] + FixedEntries(r)[8 * m..8 * m + 8];
  }

  lemma RegisterBase(m: nat)
    requires m < 11
    ensures m == 0 ==> FixedBase(8 * m) == 0 && RegisterSize(m) == 0x1_0000
    ensures 1 <= m < 3 ==> FixedBase(8 * m) == 0x8_0000 + 0x2_0000 * (m - 1) && RegisterSize(m) == 0x4000
    ensures 3 <= m ==> FixedBase(8 * m) == 0xC_0000 + 0x8000 * (m - 3) && RegisterSize(m) == 0x1000
  {
  }

  // The three groups of fixed ranges fill the first 88 slots.
  method StoreFixedRanges(entries: array<MtrrData>, r: Registers) returns (index: nat)
    requires WellFormed(r) && entries.Length == ENTRIES_SIZE
    modifies entries
    ensures index == FIXED_COUNT && entries[..index] == FixedEntries(r)
    ensures forall k :: index <= k < entries.Length ==> entries[k] == old(entries[k])
  {
    hide FixedEntries, FixedBase, RegisterSize;
    RegisterBase(0);
    StoreRegister(entries, r, 0, 0x0, 0x1_0000);
    index := 8;
    var offset := 0;
    for m := 1 to 3
      invariant index == 8 * m && offset == 0x2_0000 * (m - 1)
      invariant entries[..index] == FixedEntries(r)[..index]
      invariant forall k :: index <= k < entries.Length ==> entries[k] == old(entries[k])
    {
      RegisterBase(m);
      StoreRegister(entries, r, m, 0x8_0000 + offset, 0x4000);
      offset := offset + 8 * 0x4000;
      index := index + 8;
    }
    offset := 0;
    for m := 3 to 11
      invariant index == 8 * m && offset == 0x8000 * (m - 3)
      invariant entries[..index] == FixedEntries(r)[..index]
      invariant forall k :: index <= k < entries.Length ==> entries[k] == old(entries[k])
    {
      RegisterBase(m);
      StoreRegister(entries, r, m, 0xC_0000 + offset, 0x1000);
      offset := offset + 8 * 0x1000;
      index := index + 8;
    }
  }

  // EptInitializeMtrrEntries.  The array is not cleared, so on a later call
  // whatever lies behind the new entries stays; on the first call that is unused.
  method InitializeMtrrEntries(entries: array<MtrrData>, r: Registers) returns (index: nat)
    requires WellFormed(r) && entries.Length == ENTRIES_SIZE
    modifies entries
    ensures index == |AllEntries(r)| && entries[..index] == AllEntries(r)
    ensures forall k :: index <= k < entries.Length ==> entries[k] == old(entries[k])
  {
    hide FixedEntries, Pow2, LowestBit;
    index := 0;
    if r.fixedSupported && r.fixedEnabled {
      index := StoreFixedRanges(entries, r);
    }
    ghost var fixedEntries := if UsesFixed(r) then FixedEntries(r) else [];
    for i := 0 to |r.variable|
      invariant index == |fixedEntries| + |VariableEntries(r, i)|
      invariant entries[..index] == fixedEntries + VariableEntries(r, i)
      invariant forall k :: index <= k < entries.Length ==> entries[k] == old(entries[k])
    {
      var range := r.variable[i];
      if !range.valid {
        continue;
      }
      var length := LowestBit(range.physMask * 0x1000);
      var base := range.physBase * 0x1000;
      var end := base + Pow2(length) - 1;
      entries[index] := MtrrData(true, false, range.memoryType, base, end);
      index := index + 1;
    }
  }

  // ---------------------------------------------------------------------
  // Fixed ranges
  // ---------------------------------------------------------------------

  // The fixed range that holds an address below 1 MiB.
  function FixedIndex(pa: nat): (k: nat)
    requires pa < 0x10_0000
    ensures k < FIXED_COUNT
  {
    if pa < 0x8_0000 then pa / 0x1_0000
    else if pa < 0xC_0000 then 8 + (pa - 0x8_0000) / 0x4000
    else 24 + (pa - 0xC_0000) / 0x1000
  }

  // The fixed ranges tile [0, 1 MiB): every address there is in exactly one,
  // and no other address is in any.
  lemma {:induction false} FixedRangesTile(r: Registers, k: nat, pa: nat)
    requires WellFormed(r) && k < FIXED_COUNT
    ensures Covers(FixedEntries(r)[k], pa) <==> pa < 0x10_0000 && k == FixedIndex(pa)
  {
    if k < 7 {
    } else if k < 23 {
    } else {
    }
  }

  // ---------------------------------------------------------------------
  // Variable ranges
  // ---------------------------------------------------------------------

  // The address lies in the range computed for a register: from its base on, as
  // many bytes as the lowest bit of its mask says.
  ghost predicate Matches(v: VariableRange, pa: nat) {
    && v.valid && v.physMask != 0
    && v.physBase * 0x1000 <= pa < v.physBase * 0x1000 + Pow2(LowestBit(v.physMask * 0x1000))
  }

  // Section 11.11.2.3 of the Intel SDM, volume 3A: a variable range holds an
  // address when it agrees with the base in the bits that the mask selects.
  // On a processor with w address bits the computed range holds exactly those
  // addresses if and only if the mask is contiguous up to bit w - 1 and the
  // base is aligned to the size of the range.
  lemma {:induction false} VariableRangeExact(v: VariableRange, w: nat)
    requires v.valid && v.physMask != 0
    requires v.physMask * 0x1000 < Pow2(w) && v.physBase * 0x1000 < Pow2(w)
    ensures var mask, base := v.physMask * 0x1000, v.physBase * 0x1000;
      var k := LowestBit(mask);
      (forall x: nat :: x < Pow2(w) ==> (Matches(v, x) <==> And(x, mask) == And(base, mask)))
      <==> k <= w && mask == ContiguousMask(w, k) && base % Pow2(k) == 0
  {
    var mask, base := v.physMask * 0x1000, v.physBase * 0x1000;
    var k := LowestBit(mask);
    LowestBitBelow(mask, w);
    ClearLowIsMod(base, k);
    if mask == ContiguousMask(w, k) && base % Pow2(k) == 0 {
      forall x: nat | x < Pow2(w)
        ensures base <= x <= base + Pow2(k) - 1 <==> And(x, mask) == And(base, mask)
      {
        RangeMatches(base, w, k, x);
      }
    } else {
      var x := Misplaced(base, mask, w);
    }
  }

  lemma {:induction false} RangeMatches(base: nat, w: nat, k: nat, x: nat)
    requires k <= w && x < Pow2(w) && base < Pow2(w) && ClearLow(base, k) == base
    ensures base <= x <= base + Pow2(k) - 1 <==> And(x, ContiguousMask(w, k)) == And(base, ContiguousMask(w, k))
  {
    AndContiguous(x, w, k);
    AndContiguous(base, w, k);
    ClearLowBounds(x, k);
    if base <= x < base + Pow2(k) {
      ClearLowUnique(x, base, k);
    }
  }

  // A matching address outside the range, when mask or base is irregular.
  lemma {:induction false} Misplaced(base: nat, mask: nat, w: nat) returns (x: nat)
    requires 0 < mask < Pow2(w) && base < Pow2(w) && LowestBit(mask) <= w
    requires mask != ContiguousMask(w, LowestBit(mask)) || base % Pow2(LowestBit(mask)) != 0
    ensures x < Pow2(w) && And(x, mask) == And(base, mask)
    ensures !(base <= x <= base + Pow2(LowestBit(mask)) - 1)
  {
    var k := LowestBit(mask);
    if base % Pow2(k) != 0 {
      x := ClearLow(base, k);
      ClearLowIsMod(base, k);
      ClearLowBounds(base, k);
      AndIgnoresLow(base, mask);
    } else {
      var j := Hole(mask, w);
      x := Flip(base, j);
      FlipDistance(base, j, w);
      AndIgnoresUnselected(base, mask, j);
      Pow2Monotonic(k, j);
    }
  }

  // ---------------------------------------------------------------------
  // The initialized array
  // ---------------------------------------------------------------------

  // The array after the first call: the entries read, then unused slots.
  ghost predicate Initialized(entries: seq<MtrrData>, r: Registers) {
    && WellFormed(r) && |entries| == ENTRIES_SIZE
    && entries[..|AllEntries(r)|] == AllEntries(r)
    && (forall k :: |AllEntries(r)| <= k < ENTRIES_SIZE ==> !entries[k].enabled)
  }

  // Slot k holds fixed range k, or one of the variable ranges.
  lemma {:induction false} InitializedEntry(entries: seq<MtrrData>, r: Registers, k: nat)
    requires Initialized(entries, r) && k < |AllEntries(r)|
    ensures entries[k].enabled && WholePages(entries[k])
    ensures UsesFixed(r) && k < FIXED_COUNT ==> entries[k] == FixedEntries(r)[k]
    ensures !(UsesFixed(r) && k < FIXED_COUNT) ==>
      !entries[k].fixedMtrr && entries[k] in VariableEntries(r, |r.variable|)
  {
    hide FixedEntries, VariableEntries, WellFormed;
    assert entries[k] == entries[..|AllEntries(r)|][k] == AllEntries(r)[k];
    if UsesFixed(r) && k < FIXED_COUNT {
      FixedEntryShape(r, k);
    } else {
      VariableEntriesAre(r, |r.variable|);
      assert entries[k] in VariableEntries(r, |r.variable|);
    }
  }

  lemma {:induction false} FixedEntryShape(r: Registers, k: nat)
    requires WellFormed(r) && k < FIXED_COUNT
    ensures var e := FixedEntries(r)[k]; e.enabled && e.fixedMtrr && WholePages(e)
  {
    hide FixedBase, FixedRange, WellFormed;
    FixedWholePages(k);
    assert FixedEntries(r)[k] == FixedRange(r, k);
  }

  lemma FixedWholePages(k: nat)
    requires k < FIXED_COUNT
    ensures FixedBase(k) % 0x1000 == 0 && FixedBase(k + 1) % 0x1000 == 0 && FixedBase(k) < FixedBase(k + 1)
  {
  }

  // The scan sees exactly the entries that were read, laid out as it expects.
  lemma {:induction false} InitializedLayout(entries: seq<MtrrData>, r: Registers)
    requires Initialized(entries, r)
    ensures EnabledFrom(entries, 0) == |AllEntries(r)|
    ensures FixedFirst(entries, |AllEntries(r)|)
    ensures forall e <- entries[..EnabledFrom(entries, 0)] :: WholePages(e)
  {
    hide FixedEntries, VariableEntries, WellFormed, FixedIndex;
    var n := |AllEntries(r)|;
    forall k | 0 <= k < n
      ensures entries[k].enabled && WholePages(entries[k])
      ensures entries[k].fixedMtrr ==> UsesFixed(r) && k < FIXED_COUNT
      ensures UsesFixed(r) && k < FIXED_COUNT ==> entries[k].fixedMtrr
    {
      InitializedEntry(entries, r, k);
      if UsesFixed(r) && k < FIXED_COUNT {
        FixedEntryShape(r, k);
      }
    }
    EnabledUpTo(entries, n, 0);
    forall i, j, pa | 0 <= i < j < n && entries[i].fixedMtrr && entries[j].fixedMtrr
      ensures !(Covers(entries[i], pa) && Covers(entries[j], pa))
    {
      InitializedEntry(entries, r, i);
      InitializedEntry(entries, r, j);
      FixedRangesTile(r, i, pa);
      FixedRangesTile(r, j, pa);
    }
  }

  lemma {:induction false} EnabledUpTo(entries: seq<MtrrData>, n: nat, i: nat)
    requires i <= n <= |entries| && (forall k :: 0 <= k < n ==> entries[k].enabled)
    requires n < |entries| ==> !entries[n].enabled
    ensures EnabledFrom(entries, i) == n
    decreases n - i
  {
    if i < n {
      EnabledUpTo(entries, n, i + 1);
    }
  }

  lemma {:induction false} VariableEntriesAre(r: Registers, n: nat)
    requires WellFormed(r) && n <= |r.variable|
    ensures forall e <- VariableEntries(r, n) :: e.enabled && !e.fixedMtrr && WholePages(e)
  {
    if n > 0 {
      VariableEntriesAre(r, n - 1);
      var v := r.variable[n - 1];
      if v.valid {
        VariableEntryIs(v);
      }
      hide VariableEntry, WholePages;
    }
  }

  lemma {:induction false} VariableEntryIs(v: VariableRange)
    requires v.physMask != 0
    ensures var e := VariableEntry(v); e.enabled && !e.fixedMtrr && WholePages(e)
  {
    PageMaskSize(v.physMask);
    WholePageRange(v.physBase, Pow2(LowestBit(v.physMask * 0x1000)));
  }

  lemma WholePageRange(base: nat, size: nat)
    requires size % 0x1000 == 0
    ensures (base * 0x1000) % 0x1000 == 0 && (base * 0x1000 + size - 1 + 1) % 0x1000 == 0
  {
  }

  // A mask of whole pages describes a range of whole pages.
  lemma {:induction false} PageMaskSize(mask: nat)
    requires mask > 0
    ensures Pow2(LowestBit(mask * 0x1000)) % 0x1000 == 0
  {
    PagePower();
    ShiftedLowestBit(mask, 12);
    Pow2Factor(LowestBit(mask), 12);
    hide Pow2, LowestBit;
    MultipleOfPage(Pow2(LowestBit(mask)));
  }

  lemma {:induction false} PagePower()
    ensures Pow2(12) == 0x1000
  {
    assert Pow2(4) == 16;
    assert Pow2(8) == 256;
  }

  lemma MultipleOfPage(x: nat)
    ensures (x * 0x1000) % 0x1000 == 0 && (0x1000 * x) % 0x1000 == 0
  {
  }

  lemma {:induction false} ShiftedLowestBit(m: nat, s: nat)
    requires m > 0
    ensures m * Pow2(s) > 0 && LowestBit(m * Pow2(s)) == s + LowestBit(m)
  {
    if s > 0 {
      ShiftedLowestBit(m, s - 1);
      MulDouble(m, Pow2(s - 1));
    } else {
      assert m * Pow2(0) == m;
    }
  }

  lemma {:induction false} Pow2Factor(k: nat, s: nat)
    ensures Pow2(k + s) == Pow2(k) * Pow2(s)
  {
    if s > 0 {
      Pow2Factor(k, s - 1);
    }
  }

  // Below 1 MiB the fixed range that holds the address gives the type, whatever
  // the variable ranges say.
  lemma {:induction false} FixedTypeBelowOneMegabyte(entries: seq<MtrrData>, r: Registers, defaultType: nat, pa: nat)
    requires Initialized(entries, r) && r.fixedSupported && r.fixedEnabled && pa < 0x10_0000
    ensures var k := FixedIndex(pa);
      var t := r.fixed[k / 8][k % 8];
      MemoryType(entries, defaultType, pa) == if t == UNDEFINED then defaultType else t
  {
    var k, n := FixedIndex(pa), |AllEntries(r)|;
    InitializedLayout(entries, r);
    InitializedEntry(entries, r, k);
    FixedRangesTile(r, k, pa);
    FixedRangeWins(entries, n, k, pa);
  }

  // What the entries of the first n registers say about an address, in terms of
  // the registers: which hold it, and the type of the last one that does.
  ghost predicate Describes(r: Registers, n: nat, pa: nat, c: seq<MtrrData>)
    requires n <= |r.variable|
  {
    && (forall e <- c :: !e.fixedMtrr)
    && (c == [] <==> forall i :: 0 <= i < n ==> !Matches(r.variable[i], pa))
    && (c != [] ==>
          exists i :: 0 <= i < n && LastMatch(r, n, i, pa) && r.variable[i].memoryType == c[|c| - 1].memoryType)
    && ((exists e <- c :: e.memoryType == UNCACHEABLE) <==> Uncached(r, n, pa))
  }

  ghost predicate LastMatch(r: Registers, n: nat, i: nat, pa: nat)
    requires n <= |r.variable|
  {
    && i < n && Matches(r.variable[i], pa)
    && (forall j :: i < j < n ==> !Matches(r.variable[j], pa))
  }

  // Some register that holds the address is uncacheable.
  ghost predicate Uncached(r: Registers, n: nat, pa: nat)
    requires n <= |r.variable|
  {
    exists i :: 0 <= i < n && Matches(r.variable[i], pa) && r.variable[i].memoryType == UNCACHEABLE
  }

  lemma {:induction false} CoveringSame(a: seq<MtrrData>, b: seq<MtrrData>, n: nat, pa: nat)
    requires n <= |a| && n <= |b| && a[..n] == b[..n]
    ensures Covering(a, n, pa) == Covering(b, n, pa)
  {
    if n > 0 {
      assert a[n - 1] == a[..n][n - 1] == b[..n][n - 1];
      assert a[..n - 1] == a[..n][..n - 1] == b[..n][..n - 1];
      CoveringSame(a, b, n - 1, pa);
    }
  }

  // Entries that do not cover the address might as well not be there.
  lemma {:induction false} CoveringBehind(a: seq<MtrrData>, b: seq<MtrrData>, n: nat, pa: nat)
    requires n <= |b| && forall e <- a :: !Covers(e, pa)
    ensures Covering(a + b, |a| + n, pa) == Covering(b, n, pa)
  {
    if n > 0 {
      CoveringBehind(a, b, n - 1, pa);
    } else {
      CoveringNone(a + b, |a|, pa);
    }
  }

  lemma {:induction false} CoveringNone(entries: seq<MtrrData>, n: nat, pa: nat)
    requires n <= |entries| && forall i :: 0 <= i < n ==> !Covers(entries[i], pa)
    ensures Covering(entries, n, pa) == []
  {
    if n > 0 {
      CoveringNone(entries, n - 1, pa);
    }
  }

  lemma MatchesEntry(v: VariableRange, pa: nat)
    requires v.valid && v.physMask != 0
    ensures var e := VariableEntry(v);
      (Covers(e, pa) <==> Matches(v, pa)) && e.memoryType == v.memoryType && !e.fixedMtrr
  {
  }

  lemma {:induction false} DescribesNext(r: Registers, n: nat, pa: nat, c: seq<MtrrData>, e: MtrrData)
    requires n < |r.variable| && Describes(r, n, pa, c)
    requires !e.fixedMtrr && e.memoryType == r.variable[n].memoryType
    ensures Matches(r.variable[n], pa) ==> Describes(r, n + 1, pa, c + [e])
    ensures !Matches(r.variable[n], pa) ==> Describes(r, n + 1, pa, c)
  {
    hide Matches;
    if Matches(r.variable[n], pa) {
      assert LastMatch(r, n + 1, n, pa);
      assert e in c + [e] && forall x <- c :: x in c + [e];
    } else if c != [] {
      var i :| 0 <= i < n && LastMatch(r, n, i, pa) && r.variable[i].memoryType == c[|c| - 1].memoryType;
      assert LastMatch(r, n + 1, i, pa);
    }
  }

  lemma VariableEntriesNext(r: Registers, n: nat)
    requires WellFormed(r) && n < |r.variable|
    ensures var v, front := r.variable[n], VariableEntries(r, n);
      if v.valid then v.physMask != 0 && VariableEntries(r, n + 1) == front + [VariableEntry(v)]
      else VariableEntries(r, n + 1) == front
  {
  }

  lemma {:induction false} CoveringAppend(entries: seq<MtrrData>, e: MtrrData, pa: nat)
    ensures var c := Covering(entries, |entries|, pa);
      Covering(entries + [e], |entries| + 1, pa) == if Covers(e, pa) then c + [e] else c
  {
    CoveringSame(entries + [e], entries, |entries|, pa);
  }

  lemma NothingDescribed(r: Registers, pa: nat)
    requires WellFormed(r)
    ensures Describes(r, 0, pa, Covering(VariableEntries(r, 0), 0, pa)) && |VariableEntries(r, 0)| == 0
  {
  }

  lemma InvalidMatchesNothing(v: VariableRange, pa: nat)
    requires !v.valid
    ensures !Matches(v, pa)
  {
  }

  lemma {:induction false} VariableEntriesDescribe(r: Registers, n: nat, pa: nat)
    requires WellFormed(r) && n <= |r.variable|
    ensures Describes(r, n, pa, Covering(VariableEntries(r, n), |VariableEntries(r, n)|, pa))
  {
    hide *;
    if n == 0 {
      NothingDescribed(r, pa);
    } else {
      var v, front := r.variable[n - 1], VariableEntries(r, n - 1);
      VariableEntriesDescribe(r, n - 1, pa);
      VariableEntriesNext(r, n - 1);
      var c := Covering(front, |front|, pa);
      if v.valid {
        MatchesEntry(v, pa);
        CoveringAppend(front, VariableEntry(v), pa);
        DescribesNext(r, n - 1, pa, c, VariableEntry(v));
      } else {
        InvalidMatchesNothing(v, pa);
        DescribesNext(r, n - 1, pa, c, MtrrData(true, false, v.memoryType, 0, 0));
      }
    }
  }

  lemma {:induction false} InitializedCovering(entries: seq<MtrrData>, r: Registers, pa: nat)
    requires Initialized(entries, r) && (!(r.fixedSupported && r.fixedEnabled) || pa >= 0x10_0000)
    ensures |AllEntries(r)| <= |entries|
    ensures Describes(r, |r.variable|, pa, Covering(entries, |AllEntries(r)|, pa))
  {
    hide Describes, FixedEntries, VariableEntries;
    var fixedEntries := if UsesFixed(r) then FixedEntries(r) else [];
    var variable := VariableEntries(r, |r.variable|);
    forall e <- fixedEntries
      ensures !Covers(e, pa)
    {
      var k :| 0 <= k < FIXED_COUNT && e == FixedEntries(r)[k];
      FixedRangesTile(r, k, pa);
    }
    VariableEntriesDescribe(r, |r.variable|, pa);
    CoveringBehind(fixedEntries, variable, |variable|, pa);
    CoveringSame(entries, AllEntries(r), |AllEntries(r)|, pa);
  }

  // Everywhere else the variable registers that hold the address decide:
  // uncacheable if one of them is, otherwise the type of the last one in
  // register order, and the default type when there is none.
  lemma {:induction false} VariableTypeExact(entries: seq<MtrrData>, r: Registers, defaultType: nat, pa: nat)
    requires Initialized(entries, r) && (!(r.fixedSupported && r.fixedEnabled) || pa >= 0x10_0000)
    ensures var t, n := MemoryType(entries, defaultType, pa), |r.variable|;
      if Uncached(r, n, pa) then t == UNCACHEABLE
      else if forall i :: 0 <= i < n ==> !Matches(r.variable[i], pa) then t == defaultType
      else exists i ::
        && 0 <= i < n && LastMatch(r, n, i, pa)
        && t == if r.variable[i].memoryType == UNDEFINED then defaultType else r.variable[i].memoryType
  {
    InitializedLayout(entries, r);
    InitializedCovering(entries, r, pa);
    hide Initialized, Covering, Matches, AllEntries, LastMatch;
    var c := Covering(entries, EnabledFrom(entries, 0), pa);
    if exists e <- c :: e.memoryType == UNCACHEABLE {
      UncacheableWins(c);
    } else if c != [] {
      LastWins(c);
    }
  }
}
