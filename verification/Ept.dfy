// Per-processor EPT data: tables built on demand from a preallocated stock and
// the pool, and taken down again (ept.cpp).
module Ept {
  import opened Wrappers
  import opened EptTree
  import opened EptTeardown
  import opened PoolModel
  import Mtrr

  const PREALLOCATED_COUNT := 50

  // The tables still missing below level `level` on the path to frame f.
  ghost function Missing(at: Placement, f: nat, level: nat): (n: nat)
    ensures n <= level
  {
    if level <= 1 then 0
    else Missing(at, f, level - 1) + (if PositionOf(level - 1, f) in at then 0 else 1)
  }

  lemma MissingNext(at: Placement, f: nat, level: nat)
    requires level > 0
    ensures Missing(at, f, level) ==
      if level == 1 then 0 else Missing(at, f, level - 1) + (if PositionOf(level - 1, f) in at then 0 else 1)
  {
  }

  lemma {:induction false} MissingAfterLink(at: Placement, f: nat, high: nat, sub: nat, level: nat)
    requires level <= high
    ensures Missing(at[PositionOf(high, f) := sub], f, level) == Missing(at, f, level)
  {
    if level > 1 {
      MissingAfterLink(at, f, high, sub, level - 1);
    }
  }

  lemma {:induction false} NothingMissing(at: Placement, root: nat, f: nat, level: nat)
    requires Placed(at, root) && 1 <= level <= 4 && PositionOf(1, f) in at
    ensures Missing(at, f, level) == 0
  {
    if level > 1 {
      NothingMissing(at, root, f, level - 1);
      if PositionOf(level - 1, f) !in at {
        MissingBelow(at, root, f, level - 1, 1);
        assert false;
      }
    }
  }

  class EptData {
    const pool: Pool
    const mtrrs: seq<Mtrr.MtrrData>
    const defaultType: nat
    const header: nat

    var pml4: nat
    var preallocated: array?<nat>
    var preallocatedBlock: nat
    var count: int

    // The shape of the tree and the mapping it stands for.
    ghost var at: Placement
    ghost var leaves: map<nat, Entry>

    // The entry that maps an address: the identity frame, pass-through access
    // and the memory type that the MTRRs give.  The type field has three bits.
    function LeafFor(pa: nat): Entry {
      Entry(true, true, true, Mtrr.MemoryType(mtrrs, defaultType, pa) % 8, Frame(pa))
    }

    ghost predicate TreeValid()
      reads this, pool, pool.Repr
    {
      pool.Valid() && this !in pool.Repr && Represents(pool.Mem, at, pml4, leaves)
    }

    ghost predicate Valid()
      reads this, pool, pool.Repr, preallocated
    {
      && TreeValid()
      && preallocated != null && preallocated !in pool.Repr
      && count >= 0 && StockValid(pool.Mem, at, preallocated[..], count)
    }

    // The preallocated pages not handed out yet.
    ghost function Stock(): set<nat>
      reads this, preallocated
    {
      if preallocated == null || count < 0 then {} else StockFrom(preallocated[..], count)
    }

    // Every page this structure has to free.
    ghost function Owned(): set<nat>
      reads this, preallocated
    {
      at.Values + Stock()
    }

    constructor (pool: Pool, mtrrs: seq<Mtrr.MtrrData>, defaultType: nat, header: nat, pml4: nat)
      requires pool.Valid() && pml4 in pool.Mem && pool.Mem[pml4] == ZeroTable()
      ensures this.pool == pool && this.mtrrs == mtrrs && this.defaultType == defaultType
      ensures this.header == header && this.pml4 == pml4
      ensures preallocated == null && count == 0 && at == map[ROOT := pml4] && leaves == map[]
      ensures TreeValid()
    {
      EmptyTree(pool.Mem, pml4);
      this.pool, this.mtrrs, this.defaultType := pool, mtrrs, defaultType;
      this.header, this.pml4 := header, pml4;
      preallocated, preallocatedBlock, count := null, 0, 0;
      at, leaves := map[ROOT := pml4], map[];
    }

    // EptpAllocateEptEntryFromPreAllocated: past the stock, ask the pool.
    method AllocateEptEntryFromPreallocated() returns (p: nat)
      requires Valid()
      modifies `count, pool.Repr
      ensures Valid() && fresh(pool.Repr - old(pool.Repr)) && pool.blocks == old(pool.blocks)
      ensures count == old(count) + 1
      ensures old(count) < PREALLOCATED_COUNT ==> p != 0
      ensures Allocated(pool.Mem, old(pool.Mem), at, p)
      ensures p !in Stock()
      ensures Stock() + Page(p) == old(Stock()) + (pool.Mem.Keys - old(pool.Mem.Keys))
    {
      hide Represents;
      count := count + 1;
      StockNext(pool.Mem, at, preallocated[..], count - 1);
      if count > PREALLOCATED_COUNT {
        p := pool.AllocatePage();
        if p != 0 {
          RepresentsGrown(old(pool.Mem), at, pml4, leaves, p, ZeroTable());
        }
        return;
      }
      p := preallocated[count - 1];
    }

    // EptpAllocateEptEntry: at demand time from the stock, before that from the pool.
    method AllocateEptEntry(demand: bool) returns (p: nat)
      requires Ready(demand)
      modifies `count, pool.Repr
      ensures Ready(demand) && fresh(pool.Repr - old(pool.Repr)) && pool.blocks == old(pool.blocks)
      ensures count == old(count) + (if demand then 1 else 0)
      ensures demand && old(count) < PREALLOCATED_COUNT ==> p != 0
      ensures Allocated(pool.Mem, old(pool.Mem), at, p)
      ensures p !in Stock()
      ensures Stock() + Page(p) == old(Stock()) + (pool.Mem.Keys - old(pool.Mem.Keys))
    {
      if demand {
        p := AllocateEptEntryFromPreallocated();
      } else {
        hide Represents;
        p := pool.AllocatePage();
        if p != 0 {
          RepresentsGrown(old(pool.Mem), at, pml4, leaves, p, ZeroTable());
        }
      }
    }

    // Valid, or the state before the stock exists.
    ghost predicate Ready(demand: bool)
      reads this, pool, pool.Repr, preallocated
    {
      if demand then Valid() else TreeValid() && preallocated == null
    }

    // EptpInitTableEntry: pass-through access; only a leaf gets a memory type.
    method InitTableEntry(slot: Slot, level: nat, pa: nat)
      requires pool.Valid() && slot.table in pool.Mem && slot.index < TABLE_LENGTH
      modifies pool.Repr
      ensures pool.Valid() && pool.Repr == old(pool.Repr) && pool.blocks == old(pool.blocks)
      ensures var entry := old(pool.Mem)[slot.table][slot.index];
        var memoryType := if level == 1 then Mtrr.MemoryType(mtrrs, defaultType, pa) % 8 else entry.memoryType;
        pool.Mem == Store(old(pool.Mem), slot, Entry(true, true, true, memoryType, Frame(pa)))
    {
      var entry := pool.Load(slot.table, slot.index);
      entry := entry.(read := true, write := true, execute := true, pfn := Frame(pa));
      if level == 1 {
        var memoryType := Mtrr.GetMemoryType(mtrrs, defaultType, pa);
        entry := entry.(memoryType := memoryType % 8);
      }
      pool.Write(slot, entry);
    }

    lemma OwnedInMemory(demand: bool)
      requires Ready(demand)
      ensures Owned() <= pool.Mem.Keys
    {
    }

    // Allocates a table and links it at entry i of the table at position p.
    method LinkSubtable(ghost p: Position, table: nat, level: nat, i: nat, demand: bool) returns (sub: nat)
      requires Ready(demand)
      requires p in at && at[p] == table && 1 < level == p.level && i < TABLE_LENGTH && Child(p, i) !in at
      modifies `count, `at, pool.Repr
      ensures Ready(demand) && fresh(pool.Repr - old(pool.Repr)) && pool.blocks == old(pool.blocks)
      ensures count == old(count) + (if demand then 1 else 0)
      ensures demand && old(count) < PREALLOCATED_COUNT ==> sub != 0
      ensures at == if sub == 0 then old(at) else old(at)[Child(p, i) := sub]
      ensures Grown(old(pool.Mem), pool.Mem, old(Owned()), Owned())
    {
      hide Pool.Valid, LeafFor, Represents, WellFormed, SparePage, Allocated, StockValid, StockFrom, Grown, Page;
      ghost var before, owned := pool.Mem, Owned();
      OwnedInMemory(demand);
      sub := AllocateEptEntry(demand);
      ghost var mem, placed := pool.Mem, at;
      AllocatedGrown(before, mem, at, pml4, leaves, owned, Stock(), sub);
      if sub == 0 {
        assert Owned() == at.Values + Stock() + Page(sub);
        return;
      }
      LinkEntry(mem, at, pml4, leaves, p, i, sub);
      InitTableEntry(Slot(table, i), level, sub * PAGE_SIZE);
      at := at[Child(p, i) := sub];
      RepresentsLinked(mem, placed, pml4, leaves, p, i, sub);
      LinkGrown(before, mem, placed, owned, Stock(), p, i, sub);
      if demand {
        StockAfterLink(mem, placed, preallocated[..], count, p, i, sub);
      }
    }

    // EptpInitTableEntry at level 1, where the entry maps the address' frame.
    method InitLeaf(slot: Slot, pa: nat, demand: bool)
      requires Ready(demand) && PositionOf(1, Frame(pa)) in at
      requires slot == Slot(at[PositionOf(1, Frame(pa))], Frame(pa) % TABLE_LENGTH)
      modifies `leaves, pool.Repr
      ensures Ready(demand) && pool.Repr == old(pool.Repr) && pool.blocks == old(pool.blocks)
      ensures leaves == old(leaves)[Frame(pa) := LeafFor(pa)]
      ensures Grown(old(pool.Mem), pool.Mem, old(Owned()), Owned())
    {
      hide Pool.Valid, Represents, StockValid, StockFrom, Frame;
      OwnedInMemory(demand);
      ghost var mem := pool.Mem;
      LeafTable(mem, at, pml4, leaves, Frame(pa));
      InitTableEntry(slot, 1, pa);
      RepresentsStored(mem, at, pml4, leaves, Frame(pa), LeafFor(pa));
      leaves := leaves[Frame(pa) := LeafFor(pa)];
      if demand {
        StockAfterStore(mem, at, preallocated[..], count, PositionOf(1, Frame(pa)), slot.index, LeafFor(pa));
      }
    }

    // EptpConstructTables.  The leaf entry is written even when it was in use;
    // the source only asserts, on a checked build, that it was zero.  `held`
    // says whether the assertion, if reached, held.
    method ConstructTables(table: nat, level: nat, pa: nat, demand: bool)
      returns (slot: Option<Slot>, held: bool)
      requires Ready(demand) && 1 <= level <= 4
      requires PositionOf(level, Frame(pa)) in at && at[PositionOf(level, Frame(pa))] == table
      modifies `count, `at, `leaves, pool.Repr
      ensures Ready(demand) && fresh(pool.Repr - old(pool.Repr)) && pool.blocks == old(pool.blocks)
      ensures slot.Some? ==> PositionOf(1, Frame(pa)) in at
      ensures slot.Some? ==> slot.value == Slot(at[PositionOf(1, Frame(pa))], Frame(pa) % TABLE_LENGTH)
      ensures leaves == if slot.Some? then old(leaves)[Frame(pa) := LeafFor(pa)] else old(leaves)
      ensures held <==> (slot.Some? ==> Frame(pa) !in old(leaves))
      ensures forall p <- old(at) :: p in at && at[p] == old(at)[p]
      ensures Grown(old(pool.Mem), pool.Mem, old(Owned()), Owned())
      ensures count - old(count) ==
        if demand then |at| - |old(at)| + (if slot.Some? then 0 else 1) else 0
      ensures demand && old(count) + Missing(old(at), Frame(pa), level) <= PREALLOCATED_COUNT ==> slot.Some?
      decreases level
    {
      hide Pool.Valid, LeafFor, Owned, Represents, WellFormed, Grown, StockValid, StockFrom, Missing, Index, Frame;
      ghost var f := Frame(pa);
      MissingNext(at, f, level);
      var index := Index(level, pa);
      OwnedInMemory(demand);
      PathEntry(pool.Mem, at, pml4, leaves, level, pa);
      var entry := pool.Load(table, index);
      if level == 1 {
        held := entry == ZERO_ENTRY;
        InitLeaf(Slot(table, index), pa, demand);
        assert at == old(at);
        return Some(Slot(table, index)), held;
      }
      if entry == ZERO_ENTRY {
        var sub := LinkSubtable(PositionOf(level, f), table, level, index, demand);
        if sub == 0 {
          return None, true;
        }
        MissingAfterLink(old(at), f, level - 1, sub, level - 1);
        OneMoreTable(old(at), PositionOf(level - 1, f), sub);
        PathEntry(pool.Mem, at, pml4, leaves, level, pa);
        entry := pool.Load(table, index);
      }
      ghost var mem, owned := pool.Mem, Owned();
      slot, held := ConstructTables(entry.pfn, level - 1, pa, demand);
      GrownTwice(old(pool.Mem), mem, pool.Mem, old(Owned()), owned, Owned());
    }

    // EptpMapGpaToHpa: maps the address' frame, or fails and changes no leaf.
    // The stock suffices for as long as the tables still missing fit into it.
    method MapGpaToHpa(pa: nat) returns (slot: Option<Slot>, held: bool)
      requires Valid()
      modifies `count, `at, `leaves, pool.Repr
      ensures Valid() && fresh(pool.Repr - old(pool.Repr)) && pool.blocks == old(pool.blocks)
      ensures slot.Some? ==> PositionOf(1, Frame(pa)) in at
      ensures slot.Some? ==> slot.value == Slot(at[PositionOf(1, Frame(pa))], Frame(pa) % TABLE_LENGTH)
      ensures leaves == if slot.Some? then old(leaves)[Frame(pa) := LeafFor(pa)] else old(leaves)
      ensures held <==> (slot.Some? ==> Frame(pa) !in old(leaves))
      ensures forall p <- old(at) :: p in at && at[p] == old(at)[p]
      ensures Grown(old(pool.Mem), pool.Mem, old(Owned()), Owned())
      ensures count == old(count) + |at| - |old(at)| + (if slot.Some? then 0 else 1)
      ensures old(count) + Missing(old(at), Frame(pa), 4) <= PREALLOCATED_COUNT ==> slot.Some?
    {
      IndexExtendsPrefix(4, pa);
      RootPlaced(pool.Mem, at, pml4, leaves);
      hide Pool.Valid, LeafFor, Represents, StockValid, StockFrom, Index, Frame;
      slot, held := ConstructTables(pml4, 4, pa, true);
    }

    // EptpGetEptPtEntry.
    function GetEptPtEntry(table: nat, level: nat, pa: nat): (slot: Option<Slot>)
      requires TreeValid() && 1 <= level <= 4
      requires PositionOf(level, Frame(pa)) in at && at[PositionOf(level, Frame(pa))] == table
      reads this, pool, pool.Repr
      ensures slot == Walk(pool.Mem, table, level, pa)
      decreases level
    {
      PathEntry(pool.Mem, at, pml4, leaves, level, pa);
      if table == 0 then
        None
      else if level == 1 then
        Some(Slot(table, Index(1, pa)))
      else
        var entry := pool.Load(table, Index(level, pa));
        if entry == ZERO_ENTRY then None else GetEptPtEntry(entry.pfn, level - 1, pa)
    }

    // EptGetEptPtEntry: the slot of the address' leaf, or None when a table is
    // missing.  The slot holds zero when the frame is not mapped.
    method Lookup(pa: nat) returns (slot: Option<Slot>)
      requires TreeValid()
      ensures slot.Some? <==> PositionOf(1, Frame(pa)) in at
      ensures slot.Some? ==> slot.value == Slot(at[PositionOf(1, Frame(pa))], Frame(pa) % TABLE_LENGTH)
      ensures slot.Some? ==> slot.value.table in pool.Mem
      ensures Frame(pa) in leaves <==>
        slot.Some? && pool.Mem[slot.value.table][slot.value.index] != ZERO_ENTRY
      ensures Frame(pa) in leaves ==> leaves[Frame(pa)] == pool.Mem[slot.value.table][slot.value.index]
    {
      IndexExtendsPrefix(4, pa);
      WalkFindsLeaf(pool.Mem, at, pml4, 4, pa);
      slot := GetEptPtEntry(pml4, 4, pa);
    }

    // The check on a looked-up entry that its callers make: neither null nor zero.
    method FindMapped(pa: nat) returns (slot: Option<Slot>)
      requires TreeValid()
      ensures slot.Some? <==> Frame(pa) in leaves
      ensures slot.Some? ==> PositionOf(1, Frame(pa)) in at
      ensures slot.Some? ==> slot.value == Slot(at[PositionOf(1, Frame(pa))], Frame(pa) % TABLE_LENGTH)
    {
      hide Pool.Valid, Represents, PositionOf, Frame;
      slot := Lookup(pa);
      if slot.Some? {
        InTable(pa);
        var entry := pool.Load(slot.value.table, slot.value.index);
        if entry == ZERO_ENTRY {
          slot := None;
        }
      }
    }

    lemma InTable(pa: nat)
      ensures Frame(pa) % TABLE_LENGTH < TABLE_LENGTH
    {
    }

    // Writes the access bits of the leaf entry of frame f.
    method SetAccess(slot: Slot, ghost f: nat, read: bool, write: bool, execute: bool)
      requires Valid() && f in leaves && (read || write || execute)
      requires PositionOf(1, f) in at && slot == Slot(at[PositionOf(1, f)], f % TABLE_LENGTH)
      modifies `leaves, pool.Repr
      ensures Valid() && pool.Repr == old(pool.Repr) && pool.blocks == old(pool.blocks)
      ensures leaves == old(leaves)[f := old(leaves)[f].(read := read, write := write, execute := execute)]
      ensures leaves.Keys == old(leaves).Keys
      ensures Grown(old(pool.Mem), pool.Mem, old(Owned()), Owned())
    {
      hide Pool.Valid, Represents, StockValid, StockFrom;
      OwnedInMemory(true);
      LeafTable(pool.Mem, at, pml4, leaves, f);
      var entry := pool.Load(slot.table, slot.index);
      entry := entry.(read := read, write := write, execute := execute);
      ghost var mem := pool.Mem;
      pool.Write(slot, entry);
      RepresentsStored(mem, at, pml4, leaves, f, entry);
      StockAfterStore(mem, at, preallocated[..], count, PositionOf(1, f), slot.index, entry);
      leaves := leaves[f := entry];
    }

    // EptpDestructTables: frees the tables at and below position p, each once.
    method DestructTables(table: nat, level: nat, ghost p: Position)
      requires pool.Valid() && 2 <= level <= 4
      requires Placed(at, pml4) && p in at && at[p] == table && p.level == level
      requires SubtreeLinked(pool.Mem, at, p)
      modifies pool
      ensures pool.Valid() && pool.Repr == old(pool.Repr) && pool.blocks == old(pool.blocks)
      ensures pool.Mem == old(pool.Mem) - Below(at, p)
      decreases level
    {
      hide Pool.Valid, Placed, SubtreeLinked, Below, BelowBranches;
      AllBranches(at, pml4, p);
      SubtreeInMemory(pool.Mem, at, p);
      ghost var mem := pool.Mem;
      for i := 0 to TABLE_LENGTH
        invariant pool.Valid() && pool.Repr == old(pool.Repr) && pool.blocks == old(pool.blocks)
        invariant pool.Mem == mem - BelowBranches(at, p, i)
      {
        BranchIntact(mem, at, pml4, p, i);
        NextBranch(at, pml4, p, i);
        var entry := pool.Load(table, i);
        if entry.pfn != 0 {
          if level > 2 {
            DestructTables(entry.pfn, level - 1, Child(p, i));
          } else {
            NothingBelowPageTable(at, pml4, Child(p, i));
            pool.FreePage(entry.pfn);
          }
        }
        assert mem - BelowBranches(at, p, i) - Below(at, Child(p, i)) == mem - BelowBranches(at, p, i + 1);
      }
      pool.FreePage(table);
    }

    // EptpFreeUnusedPreAllocatedEntries: frees the entries from `used` on, up to
    // the first that was never filled (index `filled`), and the array itself.
    static method FreeUnusedPreallocatedEntries(
        pool: Pool, preallocated: array<nat>, block: nat, used: nat, ghost filled: nat)
      requires pool.Valid() && block in pool.blocks && preallocated.Length == PREALLOCATED_COUNT
      requires used <= filled && FilledUpTo(pool.Mem, preallocated[..], used, filled)
      modifies pool
      ensures pool.Valid() && pool.Repr == old(pool.Repr) && pool.blocks == old(pool.blocks) - {block}
      ensures pool.Mem == old(pool.Mem) - PagesIn(preallocated[..], used, filled)
    {
      hide Pool.Valid;
      ghost var mem := pool.Mem;
      ghost var stock := preallocated[..];
      var i := used;
      while i < PREALLOCATED_COUNT
        invariant used <= i <= filled
        invariant pool.Valid() && pool.Repr == old(pool.Repr) && pool.blocks == old(pool.blocks)
        invariant pool.Mem == mem - PagesIn(stock, used, i)
      {
        if preallocated[i] == 0 {
          break;
        }
        assert stock[i] !in PagesIn(stock, used, i);
        pool.FreePage(preallocated[i]);
        assert PagesIn(stock, used, i + 1) == PagesIn(stock, used, i) + {stock[i]};
        i := i + 1;
      }
      assert PagesIn(stock, used, i) == PagesIn(stock, used, filled);
      pool.FreeBlock(block);
    }

    // EptTermination: every page and block of this structure, each once.
    method Terminate()
      requires Valid() && header in pool.blocks && preallocatedBlock in pool.blocks && header != preallocatedBlock
      modifies pool
      ensures pool.Valid() && pool.Repr == old(pool.Repr)
      ensures pool.Mem == old(pool.Mem) - Owned()
      ensures pool.blocks == old(pool.blocks) - {header, preallocatedBlock}
    {
      hide Pool.Valid, Represents, StockValid, StockFrom, PagesIn, FilledUpTo, SubtreeLinked;
      ghost var mem, filled := pool.Mem, if count < PREALLOCATED_COUNT then PREALLOCATED_COUNT else count;
      StockFilled(mem, at, preallocated[..], count, filled);
      FreeUnusedPreallocatedEntries(pool, preallocated, preallocatedBlock, count, filled);
      TreeIntact(mem, at, pml4, leaves, StockFrom(preallocated[..], count));
      DestructTables(pml4, 4, ROOT);
      pool.FreeBlock(header);
    }
  }

  ghost function PagesIn(stock: seq<nat>, from: nat, to: nat): set<nat> {
    set i | from <= i < to && i < |stock| :: stock[i]
  }

  // Entries from `used` to `filled` are distinct pages; behind them the array is zero.
  ghost predicate FilledUpTo(mem: Memory, stock: seq<nat>, used: nat, filled: nat) {
    && |stock| == PREALLOCATED_COUNT
    && (forall i :: used <= i < filled && i < |stock| ==> stock[i] in mem && stock[i] != 0)
    && (forall i, j :: used <= i < j < filled && j < |stock| ==> stock[i] != stock[j])
    && (filled < |stock| ==> stock[filled] == 0)
  }

  lemma StockFilled(mem: Memory, at: Placement, stock: seq<nat>, used: nat, filled: nat)
    requires StockValid(mem, at, stock, used)
    requires filled == if used < PREALLOCATED_COUNT then PREALLOCATED_COUNT else used
    ensures FilledUpTo(mem, stock, used, filled)
    ensures PagesIn(stock, used, filled) == StockFrom(stock, used)
    ensures StockFrom(stock, used) !! at.Values
  {
  }

  // With pages outside the tree freed, the tree is still there to be walked,
  // and walking it frees exactly its tables.
  lemma {:induction false} TreeIntact(mem: Memory, at: Placement, root: nat, leaves: map<nat, Entry>, freed: set<nat>)
    requires Represents(mem, at, root, leaves) && freed !! at.Values
    ensures Placed(at, root) && SubtreeLinked(mem - freed, at, ROOT)
    ensures mem - freed - Below(at, ROOT) == mem - (at.Values + freed)
  {
    AllBelowRoot(at, root);
    assert forall p <- at :: at[p] in at.Values;
  }

  // The entry that the walk for an address meets at a placed table.
  lemma {:induction false} PathEntry(
      mem: Memory, at: Placement, root: nat, leaves: map<nat, Entry>, level: nat, pa: nat)
    requires Represents(mem, at, root, leaves) && 1 <= level <= 4 && PositionOf(level, Frame(pa)) in at
    ensures var p := PositionOf(level, Frame(pa));
      && at[p] in mem
      && Index(level, pa) < TABLE_LENGTH
      && (level == 1 ==> Index(level, pa) == Frame(pa) % TABLE_LENGTH)
      && (level == 1 ==> (mem[at[p]][Index(level, pa)] != ZERO_ENTRY <==> Frame(pa) in leaves))
      && (level > 1 ==>
            && Child(p, Index(level, pa)) == PositionOf(level - 1, Frame(pa))
            && mem[at[p]][Index(level, pa)] == LinkOrZero(at, PositionOf(level - 1, Frame(pa)))
            && (PositionOf(level - 1, Frame(pa)) in at ==> Link(at[PositionOf(level - 1, Frame(pa))]) != ZERO_ENTRY))
  {
    IndexExtendsPrefix(level, pa);
    IndexIsDigit(level, pa);
    if level > 1 {
      assert mem[at[PositionOf(level, Frame(pa))]][Index(level, pa)]
          == LinkOrZero(at, Child(PositionOf(level, Frame(pa)), Index(level, pa)));
    }
  }

  lemma RootPlaced(mem: Memory, at: Placement, root: nat, leaves: map<nat, Entry>)
    requires Represents(mem, at, root, leaves)
    ensures ROOT in at && at[ROOT] == root
  {
  }

  lemma OneMoreTable(at: Placement, p: Position, sub: nat)
    requires p !in at
    ensures |at[p := sub]| == |at| + 1
  {
  }

  lemma GrownTwice(
      before: Memory, middle: Memory, mem: Memory, ownedBefore: set<nat>, ownedMiddle: set<nat>, owned: set<nat>)
    requires Grown(before, middle, ownedBefore, ownedMiddle) && Grown(middle, mem, ownedMiddle, owned)
    ensures Grown(before, mem, ownedBefore, owned)
  {
  }

  // Memory has only grown: new pages are owned, and pages that were there and
  // not owned are as before.
  ghost predicate Grown(before: Memory, mem: Memory, ownedBefore: set<nat>, owned: set<nat>) {
    && ownedBefore <= before.Keys <= mem.Keys
    && owned == ownedBefore + (mem.Keys - before.Keys)
    && (forall q <- before :: q !in ownedBefore ==> mem[q] == before[q])
  }

  lemma {:induction false} AllocatedGrown(
      before: Memory, mem: Memory, at: Placement, root: nat, leaves: map<nat, Entry>,
      owned: set<nat>, stock: set<nat>, p: nat)
    requires Represents(before, at, root, leaves) && at.Values <= owned <= before.Keys
    requires Allocated(mem, before, at, p)
    requires stock + Page(p) + at.Values == owned + (mem.Keys - before.Keys)
    ensures Grown(before, mem, owned, at.Values + stock + Page(p))
    ensures Represents(mem, at, root, leaves)
    ensures p != 0 ==> Page(p) == {p} && SparePage(mem, at, p)
    ensures p == 0 ==> Page(p) == {}
  {
  }

  lemma {:induction false} LinkEntry(
      mem: Memory, at: Placement, root: nat, leaves: map<nat, Entry>, p: Position, i: nat, sub: nat)
    requires Represents(mem, at, root, leaves)
    requires p in at && 1 < p.level && i < TABLE_LENGTH && Child(p, i) !in at && sub < FRAME_COUNT
    ensures at[p] in mem && mem[at[p]][i] == ZERO_ENTRY
    ensures Link(sub) == Entry(true, true, true, ZERO_ENTRY.memoryType, Frame(sub * PAGE_SIZE))
  {
    assert mem[at[p]][i] == LinkOrZero(at, Child(p, i));
  }

  lemma {:induction false} StockAfterLink(
      mem: Memory, at: Placement, stock: seq<nat>, used: nat, p: Position, i: nat, sub: nat)
    requires StockValid(mem, at, stock, used) && sub !in StockFrom(stock, used)
    requires p in at && at[p] in mem && p.level > 0 && i < TABLE_LENGTH && Child(p, i) !in at
    ensures StockValid(Store(mem, Slot(at[p], i), Link(sub)), at[Child(p, i) := sub], stock, used)
  {
    assert at[p] in at.Values;
  }

  lemma {:induction false} StockAfterStore(
      mem: Memory, at: Placement, stock: seq<nat>, used: nat, p: Position, i: nat, entry: Entry)
    requires StockValid(mem, at, stock, used) && p in at && at[p] in mem && i < TABLE_LENGTH
    ensures StockValid(Store(mem, Slot(at[p], i), entry), at, stock, used)
  {
    assert at[p] in at.Values;
  }

  lemma LeafTable(mem: Memory, at: Placement, root: nat, leaves: map<nat, Entry>, f: nat)
    requires Represents(mem, at, root, leaves) && PositionOf(1, f) in at
    ensures at[PositionOf(1, f)] in mem && at[PositionOf(1, f)] in at.Values
    ensures f in leaves ==> leaves[f] == mem[at[PositionOf(1, f)]][f % TABLE_LENGTH]
  {
  }

  lemma {:induction false} LinkGrown(
      before: Memory, mem: Memory, at: Placement, owned: set<nat>, stock: set<nat>, p: Position, i: nat, sub: nat)
    requires p in at && p.level > 0 && i < TABLE_LENGTH && Child(p, i) !in at && at[p] in mem && at.Values <= owned
    requires Grown(before, mem, owned, at.Values + stock + {sub})
    ensures Grown(before, Store(mem, Slot(at[p], i), Link(sub)), owned, at[Child(p, i) := sub].Values + stock)
  {
    var at' := at[Child(p, i) := sub];
    assert at[p] in at.Values;
    assert at'.Values == at.Values + {sub} by {
      assert forall q <- at :: q in at' && at'[q] == at[q];
      assert at'[Child(p, i)] == sub;
    }
  }

  ghost function Page(p: nat): set<nat> {
    if p == 0 then {} else {p}
  }

  // p is 0, or a zeroed page that the tree does not use and that was spare or
  // free before; memory is otherwise unchanged.
  ghost predicate Allocated(mem: Memory, before: Memory, at: Placement, p: nat) {
    && (p == 0 ==> mem == before)
    && (p != 0 ==> mem == before[p := ZeroTable()] && SparePage(mem, at, p))
  }

  ghost function StockFrom(stock: seq<nat>, used: nat): set<nat> {
    set i | used <= i < |stock| :: stock[i]
  }

  // The preallocated pages from `used` on are distinct, zeroed and not in the tree.
  ghost predicate StockValid(mem: Memory, at: Placement, stock: seq<nat>, used: nat) {
    && |stock| == PREALLOCATED_COUNT
    && (forall i :: used <= i < PREALLOCATED_COUNT ==> SparePage(mem, at, stock[i]))
    && (forall i, j :: used <= i < j < PREALLOCATED_COUNT ==> stock[i] != stock[j])
  }

  lemma {:induction false} StockNext(mem: Memory, at: Placement, stock: seq<nat>, used: nat)
    requires StockValid(mem, at, stock, used)
    ensures StockValid(mem, at, stock, used + 1)
    ensures used >= PREALLOCATED_COUNT ==> StockFrom(stock, used) == {}
    ensures used < PREALLOCATED_COUNT ==>
      stock[used] !in StockFrom(stock, used + 1) && StockFrom(stock, used) == StockFrom(stock, used + 1) + {stock[used]}
  {
  }
}
