// EPT data from EptInitialization through any run of demand mappings to
// EptTermination.
module EptLifetime {
  import opened Wrappers
  import opened EptTree
  import opened EptTeardown
  import opened PoolModel
  import opened Ept
  import Mtrr

  // A run of RAM pages, as the operating system reports it.
  datatype Run = Run(basePage: nat, pageCount: nat)

  // The frames of the first `pages` pages of a run.
  ghost function RunFrames(run: Run, pages: nat): (s: set<nat>)
    ensures forall f :: f in s <==> run.basePage <= f < run.basePage + pages
  {
    if pages == 0 then {} else RunFrames(run, pages - 1) + {run.basePage + pages - 1}
  }

  // The frames of the first n runs.
  ghost function RamFrames(runs: seq<Run>, n: nat): set<nat>
    requires n <= |runs|
  {
    if n == 0 then {} else RamFrames(runs, n - 1) + RunFrames(runs[n - 1], runs[n - 1].pageCount)
  }

  // Physical addresses have at most 48 bits.
  ghost predicate Physical(runs: seq<Run>) {
    forall r <- runs :: r.basePage + r.pageCount <= FRAME_COUNT
  }

  ghost predicate Disjoint(runs: seq<Run>) {
    forall i, j :: 0 <= i < j < |runs| ==>
      runs[i].basePage + runs[i].pageCount <= runs[j].basePage
      || runs[j].basePage + runs[j].pageCount <= runs[i].basePage
  }

  // The entry that maps a frame to itself with the type that the MTRRs give.
  function Identity(mtrrs: seq<Mtrr.MtrrData>, defaultType: nat, f: nat): Entry {
    Entry(true, true, true, Mtrr.MemoryType(mtrrs, defaultType, f * PAGE_SIZE) % 8, f)
  }

  ghost function IdentityMap(mtrrs: seq<Mtrr.MtrrData>, defaultType: nat, frames: set<nat>): map<nat, Entry> {
    map f | f in frames :: Identity(mtrrs, defaultType, f)
  }

  ghost predicate IdentityMapped(ept: EptData, frames: set<nat>)
    reads ept
  {
    ept.leaves == IdentityMap(ept.mtrrs, ept.defaultType, frames)
  }

  lemma OneMoreFrame(mtrrs: seq<Mtrr.MtrrData>, defaultType: nat, frames: set<nat>, f: nat)
    ensures IdentityMap(mtrrs, defaultType, frames)[f := Identity(mtrrs, defaultType, f)]
         == IdentityMap(mtrrs, defaultType, frames + {f})
  {
  }

  lemma LeafOfFrame(ept: EptData, f: nat)
    requires f < FRAME_COUNT
    ensures Frame(f * PAGE_SIZE) == f
    ensures ept.LeafFor(f * PAGE_SIZE) == Identity(ept.mtrrs, ept.defaultType, f)
  {
  }

  // When no two runs overlap, a page has not been mapped before its turn, so
  // the assertion that its entry is zero cannot fail.
  lemma {:induction false} RamVisitedOnce(runs: seq<Run>, i: nat, n: nat, j: nat)
    requires Disjoint(runs) && n <= i < |runs| && j < runs[i].pageCount
    ensures runs[i].basePage + j !in RamFrames(runs, n) + RunFrames(runs[i], j)
  {
    if n > 0 {
      RamVisitedOnce(runs, i, n - 1, j);
    }
  }

  // Memory is as it was before, plus the pages that the structure owns.
  ghost predicate Holds(ept: EptData, before: Memory)
    reads ept, ept.preallocated, ept.pool
  {
    Grown(before, ept.pool.Mem, {}, ept.Owned())
  }

  // Maps one page of RAM, or the APIC page, during initialization.
  method MapPage(ept: EptData, f: nat, ghost before: Memory) returns (ok: bool, held: bool)
    requires ept.Ready(false) && f < FRAME_COUNT && Holds(ept, before)
    modifies ept`count, ept`at, ept`leaves, ept.pool.Repr
    ensures ept.Ready(false) && fresh(ept.pool.Repr - old(ept.pool.Repr)) && ept.pool.blocks == old(ept.pool.blocks)
    ensures ept.count == old(ept.count) && Holds(ept, before)
    ensures ok ==> ept.leaves == old(ept.leaves)[f := Identity(ept.mtrrs, ept.defaultType, f)]
    ensures held <==> (ok ==> f !in old(ept.leaves))
  {
    LeafOfFrame(ept, f);
    IndexExtendsPrefix(4, f * PAGE_SIZE);
    ghost var mem, owned := ept.pool.Mem, ept.Owned();
    var slot;
    slot, held := ept.ConstructTables(ept.pml4, 4, f * PAGE_SIZE, false);
    GrownTwice(before, mem, ept.pool.Mem, {}, owned, ept.Owned());
    ok := slot.Some?;
  }

  // Maps all RAM, page by page, and stops at the first failure.  When no two
  // runs overlap, every leaf is still zero when its turn comes.
  method MapRam(ept: EptData, runs: seq<Run>, ghost before: Memory) returns (ok: bool, held: bool)
    requires ept.Ready(false) && Physical(runs) && Holds(ept, before) && IdentityMapped(ept, {})
    modifies ept`count, ept`at, ept`leaves, ept.pool.Repr
    ensures ept.Ready(false) && fresh(ept.pool.Repr - old(ept.pool.Repr)) && ept.pool.blocks == old(ept.pool.blocks)
    ensures ept.count == old(ept.count) && Holds(ept, before)
    ensures ok ==> IdentityMapped(ept, RamFrames(runs, |runs|))
    ensures Disjoint(runs) ==> held
  {
    hide Pool.Valid, Represents, Grown, IdentityMap, Disjoint;
    held := true;
    for i := 0 to |runs|
      invariant ept.Ready(false) && fresh(ept.pool.Repr - old(ept.pool.Repr))
      invariant ept.pool.blocks == old(ept.pool.blocks)
      invariant ept.count == old(ept.count) && Holds(ept, before)
      invariant IdentityMapped(ept, RamFrames(runs, i))
      invariant Disjoint(runs) ==> held
    {
      var runHeld;
      ok, runHeld := MapRun(ept, runs, i, before);
      held := held && runHeld;
      if !ok {
        return;
      }
    }
    ok := true;
  }

  method MapRun(ept: EptData, runs: seq<Run>, i: nat, ghost before: Memory) returns (ok: bool, held: bool)
    requires ept.Ready(false) && Physical(runs) && i < |runs|
    requires Holds(ept, before) && IdentityMapped(ept, RamFrames(runs, i))
    modifies ept`count, ept`at, ept`leaves, ept.pool.Repr
    ensures ept.Ready(false) && fresh(ept.pool.Repr - old(ept.pool.Repr)) && ept.pool.blocks == old(ept.pool.blocks)
    ensures ept.count == old(ept.count) && Holds(ept, before)
    ensures ok ==> IdentityMapped(ept, RamFrames(runs, i + 1))
    ensures Disjoint(runs) ==> held
  {
    hide Pool.Valid, Represents, Grown, IdentityMap, Disjoint;
    held := true;
    var run := runs[i];
    ghost var mapped := RamFrames(runs, i);
    assert mapped + RunFrames(run, 0) == mapped;
    for j := 0 to run.pageCount
      invariant ept.Ready(false) && fresh(ept.pool.Repr - old(ept.pool.Repr))
      invariant ept.pool.blocks == old(ept.pool.blocks)
      invariant ept.count == old(ept.count) && Holds(ept, before)
      invariant IdentityMapped(ept, mapped + RunFrames(run, j))
      invariant Disjoint(runs) ==> held
    {
      assert Disjoint(runs) ==> run.basePage + j !in ept.leaves by {
        if Disjoint(runs) {
          RamVisitedOnce(runs, i, i, j);
          NotYetMapped(ept, mapped + RunFrames(run, j), run.basePage + j);
        }
      }
      OneMoreFrame(ept.mtrrs, ept.defaultType, mapped + RunFrames(run, j), run.basePage + j);
      assert mapped + RunFrames(run, j + 1) == mapped + RunFrames(run, j) + {run.basePage + j};
      var pageHeld;
      ok, pageHeld := MapPage(ept, run.basePage + j, before);
      held := held && pageHeld;
      if !ok {
        return;
      }
    }
    ok := true;
  }

  lemma NotYetMapped(ept: EptData, frames: set<nat>, f: nat)
    requires IdentityMapped(ept, frames) && f !in frames
    ensures f !in ept.leaves
  {
  }

  // Undoes an initialization that failed after the root table was allocated.
  method Discard(ept: EptData, ghost before: Memory)
    requires ept.Ready(false) && Holds(ept, before) && ept.header in ept.pool.blocks
    modifies ept.pool
    ensures ept.pool.Valid() && ept.pool.Repr == old(ept.pool.Repr)
    ensures ept.pool.Mem == before && ept.pool.blocks == old(ept.pool.blocks) - {ept.header}
  {
    hide Pool.Valid, Represents, Placed, SubtreeLinked, Below, Grown;
    ghost var mem := ept.pool.Mem;
    assert ept.Owned() == ept.at.Values;
    TreeIntact(mem, ept.at, ept.pml4, ept.leaves, {});
    GrownUndone(before, mem, ept.at.Values);
    assert mem - {} == mem && ept.at.Values + {} == ept.at.Values;
    ept.DestructTables(ept.pml4, 4, ROOT);
    ept.pool.FreeBlock(ept.header);
  }

  lemma GrownUndone(before: Memory, mem: Memory, owned: set<nat>)
    requires Grown(before, mem, {}, owned)
    ensures mem - owned == before
  {
  }

  // EptInitialization: a ready structure that maps all RAM and the APIC page,
  // or null with every page and block given back.
  method EptInitialization(
      pool: Pool, mtrrs: seq<Mtrr.MtrrData>, defaultType: nat, runs: seq<Run>, apicPage: nat)
    returns (ept: EptData?, held: bool)
    requires pool.Valid() && Physical(runs) && apicPage < FRAME_COUNT
    modifies pool, pool.Repr
    ensures pool.Valid() && fresh(pool.Repr - old(pool.Repr))
    ensures Disjoint(runs) && apicPage !in RamFrames(runs, |runs|) ==> held
    ensures ept == null ==> pool.Mem == old(pool.Mem) && pool.blocks == old(pool.blocks)
    ensures ept != null ==>
      && fresh(ept) && ept.Valid() && ept.count == 0
      && ept.pool == pool && ept.mtrrs == mtrrs && ept.defaultType == defaultType
      && Holds(ept, old(pool.Mem))
      && IdentityMapped(ept, RamFrames(runs, |runs|) + {apicPage})
      && ept.leaves.Keys == RamFrames(runs, |runs|) + {apicPage}
      && (forall f <- ept.leaves ::
            ept.leaves[f] == Entry(true, true, true, Mtrr.MemoryType(mtrrs, defaultType, f * PAGE_SIZE) % 8, f))
      && ept.header !in old(pool.blocks) && ept.preallocatedBlock !in old(pool.blocks)
      && ept.header != ept.preallocatedBlock
      && pool.blocks == old(pool.blocks) + {ept.header, ept.preallocatedBlock}
  {
    hide Pool.Valid, Represents, Grown, IdentityMap, EptData.TreeValid, EptData.Owned, Disjoint, RamFrames;
    ghost var before := pool.Mem;
    ept, held := null, true;
    var header := pool.AllocateBlock();
    if header == None {
      return;
    }
    var pml4 := pool.AllocatePage();
    if pml4 == 0 {
      pool.FreeBlock(header.value);
      return;
    }
    var data := NewRoot(pool, mtrrs, defaultType, header.value, pml4, before);
    var ok;
    ok, held := MapAll(data, runs, apicPage, before);
    if !ok {
      return;
    }
    ok := Prepare(data, before);
    if ok {
      ept := data;
      LeavesAreIdentity(ept, RamFrames(runs, |runs|) + {apicPage});
    }
  }

  lemma LeavesAreIdentity(ept: EptData, frames: set<nat>)
    requires IdentityMapped(ept, frames)
    ensures ept.leaves.Keys == frames
    ensures forall f <- ept.leaves ::
      ept.leaves[f] == Entry(true, true, true, Mtrr.MemoryType(ept.mtrrs, ept.defaultType, f * PAGE_SIZE) % 8, f)
  {
  }

  // Maps RAM and the APIC page, or discards everything.
  method MapAll(ept: EptData, runs: seq<Run>, apicPage: nat, ghost before: Memory)
    returns (ok: bool, held: bool)
    requires ept.Ready(false) && Physical(runs) && apicPage < FRAME_COUNT && ept.header in ept.pool.blocks
    requires Holds(ept, before) && IdentityMapped(ept, {})
    modifies ept`count, ept`at, ept`leaves, ept.pool, ept.pool.Repr
    ensures ept.pool.Valid() && fresh(ept.pool.Repr - old(ept.pool.Repr)) && ept.count == old(ept.count)
    ensures !ok ==> ept.pool.Mem == before && ept.pool.blocks == old(ept.pool.blocks) - {ept.header}
    ensures ok ==> ept.Ready(false) && Holds(ept, before) && ept.pool.blocks == old(ept.pool.blocks)
    ensures ok ==> IdentityMapped(ept, RamFrames(runs, |runs|) + {apicPage})
    ensures Disjoint(runs) && apicPage !in RamFrames(runs, |runs|) ==> held
  {
    hide Pool.Valid, Represents, Grown, IdentityMap, Disjoint;
    ok, held := MapRam(ept, runs, before);
    if ok {
      assert apicPage !in RamFrames(runs, |runs|) ==> apicPage !in ept.leaves by {
        if apicPage !in RamFrames(runs, |runs|) {
          NotYetMapped(ept, RamFrames(runs, |runs|), apicPage);
        }
      }
      OneMoreFrame(ept.mtrrs, ept.defaultType, RamFrames(runs, |runs|), apicPage);
      var pageHeld;
      ok, pageHeld := MapPage(ept, apicPage, before);
      held := held && pageHeld;
    }
    if !ok {
      Discard(ept, before);
    }
  }

  // The structure with an empty tree.
  method NewRoot(
      pool: Pool, mtrrs: seq<Mtrr.MtrrData>, defaultType: nat, header: nat, pml4: nat, ghost before: Memory)
    returns (ept: EptData)
    requires pool.Valid() && pml4 !in before && 0 < pml4 && pool.Mem == before[pml4 := ZeroTable()]
    ensures fresh(ept) && ept.pool == pool && ept.mtrrs == mtrrs && ept.defaultType == defaultType
    ensures ept.header == header && ept.count == 0
    ensures ept.Ready(false) && Holds(ept, before) && IdentityMapped(ept, {})
  {
    ept := new EptData(pool, mtrrs, defaultType, header, pml4);
    RootHeld(before, pool.Mem, pml4);
    assert ept.Owned() == ept.at.Values;
  }

  lemma {:induction false} RootHeld(before: Memory, mem: Memory, root: nat)
    requires root !in before && mem == before[root := ZeroTable()]
    ensures Grown(before, mem, {}, map[ROOT := root].Values)
  {
    assert map[ROOT := root].Values == {root} by {
      assert map[ROOT := root][ROOT] == root;
    }
  }

  // Fills the stock of preallocated pages, or discards everything.
  method Prepare(ept: EptData, ghost before: Memory) returns (ok: bool)
    requires ept.Ready(false) && Holds(ept, before) && ept.header in ept.pool.blocks
    modifies ept, ept.pool, ept.pool.Repr
    ensures ept.pool.Valid() && fresh(ept.pool.Repr - old(ept.pool.Repr))
    ensures !ok ==> ept.pool.Mem == before && ept.pool.blocks == old(ept.pool.blocks) - {ept.header}
    ensures ok ==> ept.Valid() && Holds(ept, before) && ept.leaves == old(ept.leaves) && ept.count == 0
    ensures ok ==> ept.preallocatedBlock !in old(ept.pool.blocks)
    ensures ok ==> ept.pool.blocks == old(ept.pool.blocks) + {ept.preallocatedBlock}
  {
    hide Pool.Valid, Represents, Grown, StockValid, StockFrom, StockBuilt, PagesIn;
    var block := ept.pool.AllocateBlock();
    if block == None {
      Discard(ept, before);
      return false;
    }
    var stock := new nat[PREALLOCATED_COUNT](_ => 0);
    ghost var mem := ept.pool.Mem;
    assert ept.Owned() == ept.at.Values;
    var filled := FillStock(ept, stock);
    StockIsBuilt(mem, ept.pool.Mem, ept.at, stock[..], filled);
    if filled < PREALLOCATED_COUNT {
      EptData.FreeUnusedPreallocatedEntries(ept.pool, stock, block.value, 0, filled);
      Discard(ept, before);
      return false;
    }
    StockHeld(before, mem, ept.pool.Mem, ept.at, stock[..]);
    ept.preallocated, ept.preallocatedBlock, ept.count := stock, block.value, 0;
    ok := true;
  }

  // The first `filled` entries are new pages and memory is otherwise as in mem0.
  ghost predicate StockBuilt(mem0: Memory, mem: Memory, at: Placement, stock: seq<nat>, filled: nat) {
    && |stock| == PREALLOCATED_COUNT && filled <= PREALLOCATED_COUNT
    && (forall k :: 0 <= k < filled ==> SparePage(mem, at, stock[k]))
    && (forall k, l :: 0 <= k < l < filled ==> stock[k] != stock[l])
    && (forall k :: filled <= k < PREALLOCATED_COUNT ==> stock[k] == 0)
    && PagesIn(stock, 0, filled) !! mem0.Keys
    && mem.Keys == mem0.Keys + PagesIn(stock, 0, filled)
    && (forall q <- mem0 :: mem[q] == mem0[q])
  }

  method FillStock(ept: EptData, stock: array<nat>) returns (filled: nat)
    requires ept.Ready(false) && stock !in ept.pool.Repr && stock.Length == PREALLOCATED_COUNT
    requires forall k :: 0 <= k < stock.Length ==> stock[k] == 0
    modifies ept`count, ept.pool.Repr, stock
    ensures ept.Ready(false) && fresh(ept.pool.Repr - old(ept.pool.Repr)) && ept.pool.blocks == old(ept.pool.blocks)
    ensures stock !in ept.pool.Repr && filled <= PREALLOCATED_COUNT
    ensures StockBuilt(old(ept.pool.Mem), ept.pool.Mem, ept.at, stock[..], filled)
  {
    hide Pool.Valid, Represents, Allocated, StockBuilt, PagesIn;
    ghost var mem0 := ept.pool.Mem;
    filled := 0;
    NoStock(mem0, ept.at, stock[..]);
    while filled < PREALLOCATED_COUNT
      invariant filled <= PREALLOCATED_COUNT
      invariant ept.Ready(false) && fresh(ept.pool.Repr - old(ept.pool.Repr))
      invariant ept.pool.blocks == old(ept.pool.blocks)
      invariant stock !in ept.pool.Repr
      invariant StockBuilt(mem0, ept.pool.Mem, ept.at, stock[..], filled)
    {
      ghost var mem, entries := ept.pool.Mem, stock[..];
      var p := ept.AllocateEptEntry(false);
      MoreStock(mem0, mem, ept.pool.Mem, ept.at, entries, filled, p);
      if p == 0 {
        return;
      }
      stock[filled] := p;
      assert stock[..] == entries[filled := p];
      filled := filled + 1;
    }
  }

  lemma NoStock(mem0: Memory, at: Placement, stock: seq<nat>)
    requires |stock| == PREALLOCATED_COUNT && forall k :: 0 <= k < |stock| ==> stock[k] == 0
    ensures StockBuilt(mem0, mem0, at, stock, 0)
  {
  }

  lemma {:induction false} MoreStock(
      mem0: Memory, before: Memory, mem: Memory, at: Placement, stock: seq<nat>, filled: nat, p: nat)
    requires StockBuilt(mem0, before, at, stock, filled) && filled < PREALLOCATED_COUNT
    requires Allocated(mem, before, at, p) && Page(p) == mem.Keys - before.Keys
    ensures p == 0 ==> StockBuilt(mem0, mem, at, stock, filled)
    ensures p != 0 ==> StockBuilt(mem0, mem, at, stock[filled := p], filled + 1)
  {
    if p != 0 {
      assert p in Page(p);
      var stock' := stock[filled := p];
      assert PagesIn(stock', 0, filled + 1) == PagesIn(stock, 0, filled) + {p} by {
        assert stock'[filled] == p;
        assert forall k :: 0 <= k < filled ==> stock'[k] == stock[k];
      }
    }
  }

  lemma StockIsBuilt(mem0: Memory, mem: Memory, at: Placement, stock: seq<nat>, filled: nat)
    requires StockBuilt(mem0, mem, at, stock, filled)
    ensures FilledUpTo(mem, stock, 0, filled)
    ensures mem - PagesIn(stock, 0, filled) == mem0
    ensures filled == PREALLOCATED_COUNT ==> StockValid(mem, at, stock, 0)
  {
  }

  lemma {:induction false} StockHeld(before: Memory, mem0: Memory, mem: Memory, at: Placement, stock: seq<nat>)
    requires Grown(before, mem0, {}, at.Values) && StockBuilt(mem0, mem, at, stock, PREALLOCATED_COUNT)
    ensures Grown(before, mem, {}, at.Values + StockFrom(stock, 0))
  {
    assert PagesIn(stock, 0, PREALLOCATED_COUNT) == StockFrom(stock, 0);
  }

  // ---------------------------------------------------------------------
  // Demand mapping and whole runs
  // ---------------------------------------------------------------------

  // EptpIsDeviceMemory: the address lies in no run of RAM.
  // The end of a run is computed in 64 bits: for an empty run at page 0 it wraps
  // to the highest address, and then no address counts as device memory.
  method IsDeviceMemory(runs: seq<Run>, pa: nat) returns (device: bool)
    requires Physical(runs) && pa < 0x1_0000_0000_0000_0000
    ensures device <==> pa / PAGE_SIZE !in RamFrames(runs, |runs|) && forall r <- runs :: r != Run(0, 0)
  {
    var i := 0;
    while i < |runs|
      invariant 0 <= i <= |runs| && pa / PAGE_SIZE !in RamFrames(runs, i)
      invariant forall k :: 0 <= k < i ==> runs[k] != Run(0, 0)
    {
      var base := runs[i].basePage * PAGE_SIZE;
      var size := runs[i].pageCount * PAGE_SIZE;
      var end := if base + size == 0 then 0xFFFF_FFFF_FFFF_FFFF else base + size - 1;
      InRun(runs[i], pa);
      if base <= pa <= end {
        assert runs[i] in runs;
        RamGrows(runs, i + 1, |runs|);
        return false;
      }
      i := i + 1;
    }
    device := true;
  }

  ghost predicate NoneWraps(runs: seq<Run>) {
    forall r <- runs :: r != Run(0, 0)
  }

  lemma InRun(run: Run, pa: nat)
    ensures run.basePage * PAGE_SIZE <= pa <= run.basePage * PAGE_SIZE + run.pageCount * PAGE_SIZE - 1 <==>
      run.basePage <= pa / PAGE_SIZE < run.basePage + run.pageCount
    ensures run.basePage * PAGE_SIZE + run.pageCount * PAGE_SIZE == 0 <==> run == Run(0, 0)
  {
  }

  lemma {:induction false} RamGrows(runs: seq<Run>, m: nat, n: nat)
    requires m <= n <= |runs|
    ensures RamFrames(runs, m) <= RamFrames(runs, n)
    decreases n
  {
    if m < n {
      RamGrows(runs, m, n - 1);
    }
  }

  // The part of EptHandleEptViolation that maps a missing frame.  All RAM is
  // mapped, so the assertion that the address is device memory holds unless a
  // run wraps; the one that the leaf is zero always holds.
  method MapOnDemand(ept: EptData, runs: seq<Run>, pa: nat) returns (missed: bool, ok: bool, held: bool)
    requires ept.Valid() && Physical(runs) && pa / PAGE_SIZE < FRAME_COUNT
    requires RamFrames(runs, |runs|) <= ept.leaves.Keys
    modifies ept`count, ept`at, ept`leaves, ept.pool.Repr
    ensures ept.Valid() && fresh(ept.pool.Repr - old(ept.pool.Repr)) && ept.pool.blocks == old(ept.pool.blocks)
    ensures held <==> !missed || NoneWraps(runs)
    ensures missed <==> Frame(pa) !in old(ept.leaves)
    ensures ept.leaves == if missed && ok then old(ept.leaves)[Frame(pa) := ept.LeafFor(pa)] else old(ept.leaves)
    ensures var memoryType := Mtrr.MemoryType(ept.mtrrs, ept.defaultType, pa) % 8;
      missed && ok ==> ept.leaves[Frame(pa)] == Entry(true, true, true, memoryType, Frame(pa))
    ensures forall p <- old(ept.at) :: p in ept.at && ept.at[p] == old(ept.at)[p]
    ensures Grown(old(ept.pool.Mem), ept.pool.Mem, old(ept.Owned()), ept.Owned())
    ensures ept.count == old(ept.count) + |ept.at| - |old(ept.at)| + (if missed && !ok then 1 else 0)
    ensures old(ept.count) + 3 <= PREALLOCATED_COUNT ==> missed ==> ok
  {
    hide Pool.Valid, EptData.Owned, EptData.LeafFor, Represents, StockValid, Grown, RamFrames, Missing, Frame,
      PositionOf;
    FrameBelow(pa);
    ept.OwnedInMemory(true);
    GrownReflexive(ept.pool.Mem, ept.Owned());
    missed, ok, held := true, true, true;
    var slot := ept.FindMapped(pa);
    if slot.Some? {
      missed := false;
      return;
    }
    var device := IsDeviceMemory(runs, pa);
    MissingAtMostThree(ept.at, Frame(pa));
    slot, held := ept.MapGpaToHpa(pa);
    held := held && device;
    ok := slot.Some?;
    NewLeaf(ept, pa);
  }

  lemma NewLeaf(ept: EptData, pa: nat)
    ensures ept.LeafFor(pa) ==
      Entry(true, true, true, Mtrr.MemoryType(ept.mtrrs, ept.defaultType, pa) % 8, Frame(pa))
  {
  }

  lemma FrameBelow(pa: nat)
    requires pa / PAGE_SIZE < FRAME_COUNT
    ensures Frame(pa) == pa / PAGE_SIZE
  {
  }

  lemma GrownReflexive(mem: Memory, owned: set<nat>)
    requires owned <= mem.Keys
    ensures Grown(mem, mem, owned, owned)
  {
  }

  lemma {:induction false} MissingAtMostThree(at: Placement, f: nat)
    ensures Missing(at, f, 4) <= 3
  {
    assert Missing(at, f, 3) <= 2 by {
      assert Missing(at, f, 2) <= 1;
    }
  }

  // Any sequence of violations, of which `failed` could not be mapped: entries
  // that were there stay, new ones are those of faulting addresses, and the
  // count is that of the table allocations attempted.
  method MapFaults(ept: EptData, runs: seq<Run>, faults: seq<nat>, ghost before: Memory)
    returns (failed: nat, held: bool)
    requires ept.Valid() && Physical(runs) && Holds(ept, before)
    requires forall i :: 0 <= i < |faults| ==> faults[i] / PAGE_SIZE < FRAME_COUNT
    requires RamFrames(runs, |runs|) <= ept.leaves.Keys
    modifies ept`count, ept`at, ept`leaves, ept.pool.Repr
    ensures ept.Valid() && fresh(ept.pool.Repr - old(ept.pool.Repr)) && ept.pool.blocks == old(ept.pool.blocks)
    ensures Holds(ept, before) && (NoneWraps(runs) ==> held)
    ensures Extends(old(ept.leaves), ept.leaves, ept, faults)
    ensures ept.count == old(ept.count) + |ept.at| - |old(ept.at)| + failed
    ensures failed == 0 ==> forall i :: 0 <= i < |faults| ==> Frame(faults[i]) in ept.leaves
  {
    hide Pool.Valid, EptData.TreeValid, EptData.Owned, StockValid, Grown, RamFrames, EptData.LeafFor, Extends, Frame,
      NoneWraps;
    failed, held := 0, true;
    ExtendsItself(ept.leaves, ept, faults);
    for i := 0 to |faults|
      invariant ept.Valid() && fresh(ept.pool.Repr - old(ept.pool.Repr))
      invariant ept.pool.blocks == old(ept.pool.blocks)
      invariant Holds(ept, before) && (NoneWraps(runs) ==> held)
      invariant Extends(old(ept.leaves), ept.leaves, ept, faults)
      invariant ept.count == old(ept.count) + |ept.at| - |old(ept.at)| + failed
      invariant failed == 0 ==> forall j :: 0 <= j < i ==> Frame(faults[j]) in ept.leaves
    {
      ghost var mem, owned, leaves := ept.pool.Mem, ept.Owned(), ept.leaves;
      ExtendsKeys(old(ept.leaves), leaves, ept, faults);
      var missed, ok, faultHeld := MapOnDemand(ept, runs, faults[i]);
      ExtendsNext(old(ept.leaves), leaves, ept.leaves, ept, faults, i);
      GrownTwice(before, mem, ept.pool.Mem, {}, owned, ept.Owned());
      held := held && faultHeld;
      if missed && !ok {
        failed := failed + 1;
      }
    }
  }

  // The later mapping keeps the entries of the earlier one; its own are the
  // leaf entries of the given addresses.
  ghost predicate Extends(earlier: map<nat, Entry>, later: map<nat, Entry>, ept: EptData, faults: seq<nat>) {
    && (forall f <- earlier :: f in later && later[f] == earlier[f])
    && (forall f <- later :: f in earlier || exists pa <- faults :: f == Frame(pa) && later[f] == ept.LeafFor(pa))
  }

  lemma ExtendsItself(leaves: map<nat, Entry>, ept: EptData, faults: seq<nat>)
    ensures Extends(leaves, leaves, ept, faults)
  {
  }

  lemma ExtendsKeys(earlier: map<nat, Entry>, later: map<nat, Entry>, ept: EptData, faults: seq<nat>)
    requires Extends(earlier, later, ept, faults)
    ensures earlier.Keys <= later.Keys
  {
  }

  lemma {:induction false} ExtendsNext(
      earlier: map<nat, Entry>, middle: map<nat, Entry>, later: map<nat, Entry>, ept: EptData, faults: seq<nat>, i: nat)
    requires i < |faults| && Extends(earlier, middle, ept, faults)
    requires later == middle
      || (Frame(faults[i]) !in middle && later == middle[Frame(faults[i]) := ept.LeafFor(faults[i])])
    ensures Extends(earlier, later, ept, faults)
  {
    assert faults[i] in faults;
  }

  // From initialization through any demand mappings to termination, under any
  // schedule of allocation failures, the pool gets back exactly what it gave.
  method Lifetime(
      pool: Pool, mtrrs: seq<Mtrr.MtrrData>, defaultType: nat, runs: seq<Run>, apicPage: nat, faults: seq<nat>)
    requires pool.Valid() && Physical(runs) && apicPage < FRAME_COUNT
    requires forall i :: 0 <= i < |faults| ==> faults[i] / PAGE_SIZE < FRAME_COUNT
    modifies pool, pool.Repr
    ensures pool.Valid() && pool.Mem == old(pool.Mem) && pool.blocks == old(pool.blocks)
  {
    hide Pool.Valid, EptData.Owned, Represents, StockValid, Grown, RamFrames, Extends, Disjoint;
    ghost var before, blocks := pool.Mem, pool.blocks;
    var ept, held := EptInitialization(pool, mtrrs, defaultType, runs, apicPage);
    if ept == null {
      return;
    }
    var failed, faultsHeld := MapFaults(ept, runs, faults, before);
    GrownUndone(before, pool.Mem, ept.Owned());
    ept.Terminate();
  }
}
