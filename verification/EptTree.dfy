// The four-level EPT radix tree, on values.
//
// Physical memory is a map from page frame number to the 512 entries of the
// table stored in that frame.  A tree is described by a placement map `at`,
// which gives for every position of the tree that holds a table the frame of
// that table.  A position is a level (4 = PML4 ... 1 = PT) and a prefix: the
// bits of the 36-bit frame number that select the path to the table.
module EptTree {
  import opened Wrappers

  // A PFN field is 36 bits wide; a table has 512 entries.
  const FRAME_COUNT := 0x10_0000_0000
  const TABLE_LENGTH := 512
  const PAGE_SIZE := 0x1000

  // The fields of EptCommonEntry; `all` is zero exactly for ZERO_ENTRY.
  datatype Entry = Entry(read: bool, write: bool, execute: bool, memoryType: nat, pfn: nat)

  const ZERO_ENTRY := Entry(false, false, false, 0, 0)

  type Table = t: seq<Entry> | |t| == TABLE_LENGTH witness seq(TABLE_LENGTH, _ => ZERO_ENTRY)

  function ZeroTable(): Table {
    seq(TABLE_LENGTH, _ => ZERO_ENTRY)
  }

  type Memory = map<nat, Table>

  datatype Position = Position(level: nat, prefix: nat)

  type Placement = map<Position, nat>

  // The address of an entry: the table's frame and the index in the table.
  datatype Slot = Slot(table: nat, index: nat)

  // ---------------------------------------------------------------------
  // Addresses
  // ---------------------------------------------------------------------

  // The 36 frame-number bits of an address; bits 48 and above are cut off.
  function Frame(pa: nat): (f: nat)
    ensures f < FRAME_COUNT
  {
    (pa / PAGE_SIZE) % FRAME_COUNT
  }

  // The four selectors: EptpAddressToPxeIndex, ...PpeIndex, ...PdeIndex, ...PteIndex.
  function Index(level: nat, pa: nat): (i: nat)
    requires 1 <= level <= 4
    ensures i < TABLE_LENGTH
  {
    match level
    case 4 => (pa / 0x80_0000_0000) % TABLE_LENGTH
    case 3 => (pa / 0x4000_0000) % TABLE_LENGTH
    case 2 => (pa / 0x20_0000) % TABLE_LENGTH
    case 1 => (pa / 0x1000) % TABLE_LENGTH
  }

  // The prefix of the level-`level` table on the path to frame f.
  function Prefix(level: nat, f: nat): nat {
    if level == 0 then f else Prefix(level - 1, f) / TABLE_LENGTH
  }

  function PositionOf(level: nat, f: nat): Position {
    Position(level, Prefix(level, f))
  }

  const ROOT := Position(4, 0)

  function Child(p: Position, i: nat): Position
    requires p.level > 0
  {
    Position(p.level - 1, p.prefix * TABLE_LENGTH + i)
  }

  function Parent(p: Position): Position {
    Position(p.level + 1, p.prefix / TABLE_LENGTH)
  }

  lemma {:induction false} PrefixValues(f: nat)
    ensures Prefix(0, f) == f
    ensures Prefix(1, f) == f / 0x200
    ensures Prefix(2, f) == f / 0x4_0000
    ensures Prefix(3, f) == f / 0x800_0000
    ensures Prefix(4, f) == f / 0x10_0000_0000
  {
    assert Prefix(1, f) == f / 512;
    assert Prefix(2, f) == f / 512 / 512;
    assert Prefix(3, f) == f / 512 / 512 / 512;
    assert Prefix(4, f) == f / 512 / 512 / 512 / 512;
  }

  // Each selector is the digit that extends the path prefix by one level, so
  // the four selectors walk exactly the path of the address' frame number.
  lemma {:induction false} IndexExtendsPrefix(level: nat, pa: nat)
    requires 1 <= level <= 4
    ensures Child(PositionOf(level, Frame(pa)), Index(level, pa)) == PositionOf(level - 1, Frame(pa))
    ensures PositionOf(4, Frame(pa)) == ROOT
  {
    PrefixValues(Frame(pa));
    IndexIsDigit(level, pa);
    assert Prefix(level, Frame(pa)) == Prefix(level - 1, Frame(pa)) / TABLE_LENGTH;
  }

  lemma {:induction false} IndexIsDigit(level: nat, pa: nat)
    requires 1 <= level <= 4
    ensures Index(level, pa) == Prefix(level - 1, Frame(pa)) % TABLE_LENGTH
  {
    PrefixValues(Frame(pa));
    match level
    case 4 => DigitAt(pa, 0x800_0000, 0x200);
    case 3 => DigitAt(pa, 0x4_0000, 0x4_0000);
    case 2 => DigitAt(pa, 0x200, 0x800_0000);
    case 1 =>
  }

  lemma {:induction false} DigitAt(pa: nat, low: nat, high: nat)
    requires (low, high) in {(0x800_0000, 0x200), (0x4_0000, 0x4_0000), (0x200, 0x800_0000)}
    ensures Frame(pa) / low % TABLE_LENGTH == pa / (PAGE_SIZE * low) % TABLE_LENGTH
  {
    DropHighBits(pa / PAGE_SIZE, low, high);
    ShiftTwice(pa, low);
  }

  lemma {:induction false} ShiftTwice(pa: nat, low: nat)
    requires low in {0x800_0000, 0x4_0000, 0x200}
    ensures pa / PAGE_SIZE / low == pa / (PAGE_SIZE * low)
  {
    var q, r := pa / PAGE_SIZE / low, pa / PAGE_SIZE % low;
    assert pa == (q * low + r) * PAGE_SIZE + pa % PAGE_SIZE;
  }

  // Cutting the address at 36 frame bits does not disturb the selector bits.
  lemma {:induction false} DropHighBits(f: nat, low: nat, high: nat)
    requires (low, high) in {(0x800_0000, 0x200), (0x4_0000, 0x4_0000), (0x200, 0x800_0000)}
    ensures (f % FRAME_COUNT) / low % TABLE_LENGTH == f / low % TABLE_LENGTH
  {
    var q, r := f / FRAME_COUNT, f % FRAME_COUNT;
    assert f == q * FRAME_COUNT + r;
    SplitQuotient(f, q, r, low, high);
    WholeTables(q, high, r / low);
  }

  lemma SplitQuotient(f: nat, q: nat, r: nat, low: nat, high: nat)
    requires (low, high) in {(0x800_0000, 0x200), (0x4_0000, 0x4_0000), (0x200, 0x800_0000)}
    requires f == q * FRAME_COUNT + r
    ensures f / low == q * high + r / low
  {
  }

  lemma WholeTables(q: nat, high: nat, d: nat)
    requires high in {0x200, 0x4_0000, 0x800_0000}
    ensures (q * high + d) % TABLE_LENGTH == d % TABLE_LENGTH
  {
    if high == 0x200 {
      assert (q * 0x200 + d) % 0x200 == d % 0x200;
    } else if high == 0x4_0000 {
      assert (q * 0x4_0000 + d) % 0x200 == d % 0x200;
    } else {
      assert (q * 0x800_0000 + d) % 0x200 == d % 0x200;
    }
  }

  // ---------------------------------------------------------------------
  // Well-formed trees
  // ---------------------------------------------------------------------

  // A pass-through entry that links the table in frame q.
  function Link(q: nat): Entry {
    Entry(true, true, true, 0, q)
  }

  // The entry that position p's table holds at index i when i is not a leaf level.
  function LinkOrZero(at: Placement, child: Position): Entry {
    if child in at then Link(at[child]) else ZERO_ENTRY
  }

  // Every position lies on a path from the root, and no two share a frame.
  ghost predicate Placed(at: Placement, root: nat) {
    && ROOT in at && at[ROOT] == root
    && (forall p <- at :: 1 <= p.level <= 4 && (p.level == 4 ==> p == ROOT))
    && (forall p <- at :: p.level < 4 ==> Parent(p) in at)
    && (forall p, q :: p in at && q in at && at[p] == at[q] ==> p == q)
    && (forall p <- at :: 0 < at[p] < FRAME_COUNT)
  }

  // The interior entries are exactly the links that the placement demands.
  ghost predicate Linked(mem: Memory, at: Placement) {
    && (forall p <- at :: at[p] in mem)
    && (forall p, i :: p in at && 1 < p.level && 0 <= i < TABLE_LENGTH ==>
          mem[at[p]][i] == LinkOrZero(at, Child(p, i)))
  }

  ghost predicate WellFormed(mem: Memory, at: Placement, root: nat) {
    Placed(at, root) && Linked(mem, at)
  }

  // The leaf entry of frame f; zero when there is no page table for f.
  ghost function Leaf(mem: Memory, at: Placement, f: nat): Entry
    requires Linked(mem, at)
  {
    var p := PositionOf(1, f);
    if p in at then mem[at[p]][f % TABLE_LENGTH] else ZERO_ENTRY
  }

  // ---------------------------------------------------------------------
  // Lookup
  // ---------------------------------------------------------------------

  // EptpGetEptPtEntry as a walk over memory: the slot of the leaf entry, or
  // None when an intermediate table is missing.
  function Walk(mem: Memory, table: nat, level: nat, pa: nat): Option<Slot>
    requires 1 <= level <= 4
    decreases level
  {
    if table == 0 || table !in mem then
      None
    else if level == 1 then
      Some(Slot(table, Index(1, pa)))
    else
      var entry := mem[table][Index(level, pa)];
      if entry == ZERO_ENTRY then None else Walk(mem, entry.pfn, level - 1, pa)
  }

  // The walk finds the leaf slot of the address' frame exactly when the tree
  // has a page table for it, and that slot holds the frame's leaf entry.
  lemma {:induction false} WalkFindsLeaf(mem: Memory, at: Placement, root: nat, level: nat, pa: nat)
    requires WellFormed(mem, at, root) && 1 <= level <= 4
    requires PositionOf(level, Frame(pa)) in at
    ensures var r := Walk(mem, at[PositionOf(level, Frame(pa))], level, pa);
      var leaf := PositionOf(1, Frame(pa));
      && (leaf in at ==> r == Some(Slot(at[leaf], Frame(pa) % TABLE_LENGTH)))
      && (leaf !in at ==> r == None)
    decreases level
  {
    var f := Frame(pa);
    var p := PositionOf(level, f);
    IndexIsDigit(level, pa);
    if level > 1 {
      IndexExtendsPrefix(level, pa);
      var child := Child(p, Index(level, pa));
      assert mem[at[p]][Index(level, pa)] == LinkOrZero(at, child);
      if child in at {
        WalkFindsLeaf(mem, at, root, level - 1, pa);
      } else {
        MissingBelow(at, root, f, level - 1, 1);
      }
    }
  }

  // A missing table has no tables below it on any path.
  lemma {:induction false} MissingBelow(at: Placement, root: nat, f: nat, high: nat, low: nat)
    requires Placed(at, root) && 1 <= low <= high <= 4
    requires PositionOf(high, f) !in at
    ensures PositionOf(low, f) !in at
    decreases high - low
  {
    if low < high {
      MissingBelow(at, root, f, high, low + 1);
      assert Parent(PositionOf(low, f)) == PositionOf(low + 1, f);
    }
  }

  // Distinct frames never share a leaf slot.
  lemma {:induction false} LeafSlotsAreDistinct(mem: Memory, at: Placement, root: nat, a: nat, b: nat)
    requires WellFormed(mem, at, root)
    requires Walk(mem, root, 4, a).Some? && Walk(mem, root, 4, a) == Walk(mem, root, 4, b)
    ensures Frame(a) == Frame(b)
  {
    IndexExtendsPrefix(4, a);
    IndexExtendsPrefix(4, b);
    WalkFindsLeaf(mem, at, root, 4, a);
    WalkFindsLeaf(mem, at, root, 4, b);
    PrefixValues(Frame(a));
    PrefixValues(Frame(b));
    var pa, pb := PositionOf(1, Frame(a)), PositionOf(1, Frame(b));
    assert at[pa] == at[pb];
    assert Frame(a) / 512 == Frame(b) / 512;
  }

  // ---------------------------------------------------------------------
  // Steps of construction
  // ---------------------------------------------------------------------

  function Store(mem: Memory, slot: Slot, entry: Entry): Memory
    requires slot.table in mem && slot.index < TABLE_LENGTH
  {
    mem[slot.table := mem[slot.table][slot.index := entry]]
  }

  // Linking a zeroed, unused table at a missing position keeps the tree well
  // formed and changes no leaf.
  lemma {:induction false} LinkTable(mem: Memory, at: Placement, root: nat, p: Position, i: nat, sub: nat)
    requires WellFormed(mem, at, root)
    requires p in at && 1 < p.level && i < TABLE_LENGTH && Child(p, i) !in at
    requires sub in mem && mem[sub] == ZeroTable() && sub !in at.Values && 0 < sub < FRAME_COUNT
    ensures WellFormed(Store(mem, Slot(at[p], i), Link(sub)), at[Child(p, i) := sub], root)
  {
    var mem' := Store(mem, Slot(at[p], i), Link(sub));
    var c := Child(p, i);
    var at' := at[c := sub];
    assert Parent(c) == p;
    assert forall q <- at :: at[q] in at.Values;
    NoChildOfMissing(at, root, c);
    forall q, j | q in at' && 1 < q.level && 0 <= j < TABLE_LENGTH
      ensures mem'[at'[q]][j] == LinkOrZero(at', Child(q, j))
    {
      if q != c {
        assert mem[at[q]][j] == LinkOrZero(at, Child(q, j));
        if Child(q, j) == c {
          assert Parent(Child(q, j)) == q;
        }
      }
    }
  }

  lemma {:induction false} NoChildOfMissing(at: Placement, root: nat, c: Position)
    requires Placed(at, root) && c !in at && 1 <= c.level < 4
    ensures forall j: nat | j < TABLE_LENGTH :: Child(c, j) !in at
  {
    forall j: nat | j < TABLE_LENGTH
      ensures Child(c, j) !in at
    {
      assert Parent(Child(c, j)) == c;
    }
  }

  lemma {:induction false} LinkKeepsLeaf(mem: Memory, at: Placement, root: nat, p: Position, i: nat, sub: nat, f: nat)
    requires WellFormed(mem, at, root)
    requires p in at && 1 < p.level && i < TABLE_LENGTH && Child(p, i) !in at
    requires sub in mem && mem[sub] == ZeroTable() && sub !in at.Values && 0 < sub < FRAME_COUNT
    ensures WellFormed(Store(mem, Slot(at[p], i), Link(sub)), at[Child(p, i) := sub], root)
    ensures Leaf(Store(mem, Slot(at[p], i), Link(sub)), at[Child(p, i) := sub], f) == Leaf(mem, at, f)
  {
    LinkTable(mem, at, root, p, i, sub);
    assert forall q <- at :: at[q] in at.Values;
  }

  // Storing a leaf entry keeps the tree well formed and changes that leaf only.
  lemma {:induction false} StoreLeaf(mem: Memory, at: Placement, root: nat, f: nat, entry: Entry)
    requires WellFormed(mem, at, root) && PositionOf(1, f) in at
    ensures var mem' := Store(mem, Slot(at[PositionOf(1, f)], f % TABLE_LENGTH), entry);
      && WellFormed(mem', at, root)
      && Leaf(mem', at, f) == entry
      && (forall g: nat :: g != f ==> Leaf(mem', at, g) == Leaf(mem, at, g))
  {
    var mem' := Store(mem, Slot(at[PositionOf(1, f)], f % TABLE_LENGTH), entry);
    forall g: nat | g != f
      ensures Linked(mem', at) && Leaf(mem', at, g) == Leaf(mem, at, g)
    {
      PrefixValues(f);
      PrefixValues(g);
    }
  }

  // ---------------------------------------------------------------------
  // The mapping that a tree stands for
  // ---------------------------------------------------------------------

  // The tree in memory maps exactly the frames of `leaves`, to those entries.
  ghost predicate Represents(mem: Memory, at: Placement, root: nat, leaves: map<nat, Entry>) {
    && WellFormed(mem, at, root)
    && (forall f: nat :: f in leaves <==> Leaf(mem, at, f) != ZERO_ENTRY)
    && (forall f <- leaves :: leaves[f] == Leaf(mem, at, f))
  }

  lemma EmptyTree(mem: Memory, root: nat)
    requires root in mem && mem[root] == ZeroTable() && 0 < root < FRAME_COUNT
    ensures Represents(mem, map[ROOT := root], root, map[])
  {
  }

  // A new page elsewhere, linking a zeroed page, and writing a leaf.
  lemma {:induction false} RepresentsGrown(
      mem: Memory, at: Placement, root: nat, leaves: map<nat, Entry>, p: nat, page: Table)
    requires Represents(mem, at, root, leaves) && p !in mem
    ensures Represents(mem[p := page], at, root, leaves) && p !in at.Values
  {
    assert forall f: nat :: Leaf(mem[p := page], at, f) == Leaf(mem, at, f);
  }

  lemma {:induction false} RepresentsLinked(
      mem: Memory, at: Placement, root: nat, leaves: map<nat, Entry>, p: Position, i: nat, sub: nat)
    requires Represents(mem, at, root, leaves)
    requires p in at && 1 < p.level && i < TABLE_LENGTH && Child(p, i) !in at
    requires SparePage(mem, at, sub)
    ensures Represents(Store(mem, Slot(at[p], i), Link(sub)), at[Child(p, i) := sub], root, leaves)
  {
    LinkTable(mem, at, root, p, i, sub);
    forall f: nat
      ensures Leaf(Store(mem, Slot(at[p], i), Link(sub)), at[Child(p, i) := sub], f) == Leaf(mem, at, f)
    {
      LinkKeepsLeaf(mem, at, root, p, i, sub, f);
    }
  }

  lemma {:induction false} RepresentsStored(
      mem: Memory, at: Placement, root: nat, leaves: map<nat, Entry>, f: nat, entry: Entry)
    requires Represents(mem, at, root, leaves) && PositionOf(1, f) in at && entry != ZERO_ENTRY
    ensures Represents(
      Store(mem, Slot(at[PositionOf(1, f)], f % TABLE_LENGTH), entry), at, root, leaves[f := entry])
  {
    StoreLeaf(mem, at, root, f, entry);
  }

  // A zeroed page that no position uses.
  ghost predicate SparePage(mem: Memory, at: Placement, p: nat) {
    p in mem && mem[p] == ZeroTable() && p !in at.Values && 0 < p < FRAME_COUNT
  }
}
