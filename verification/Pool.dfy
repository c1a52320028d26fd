// The non-paged pool: page-sized blocks that hold EPT tables, addressed by the
// frame they sit in, and the smaller blocks of the driver's own structures.
// Whether an allocation succeeds, and which frame it returns, is the pool's
// choice, so every contract below holds for every schedule of failures.
// Freeing a block requires it to be allocated, so a proof that a method meets
// that requirement is a proof that it frees nothing twice.
module PoolModel {
  import opened Wrappers
  import opened EptTree

  class Pool {
    // The contents of memory, and the objects that hold it.
    ghost var Mem: Memory
    ghost var Repr: set<object>

    var frames: map<nat, array<Entry>>
    var blocks: set<nat>

    ghost predicate Valid()
      reads this, Repr
      ensures Valid() ==> this in Repr
    {
      && this in Repr
      && Mem.Keys == frames.Keys
      && (forall p <- frames :: frames[p] in Repr && frames[p].Length == TABLE_LENGTH)
      && (forall p <- frames :: Mem[p] == frames[p][..])
      && (forall p, q :: p in frames && q in frames && frames[p] == frames[q] ==> p == q)
      && (forall p <- frames :: 0 < p < FRAME_COUNT)
    }

    constructor ()
      ensures Valid() && fresh(Repr) && Mem == map[] && blocks == {}
    {
      frames := map[];
      blocks := {};
      Mem := map[];
      Repr := {this};
    }

    // A zeroed page in some unused frame other than frame 0, or 0 on failure.
    method AllocatePage() returns (p: nat)
      requires Valid()
      modifies Repr
      ensures Valid() && fresh(Repr - old(Repr)) && blocks == old(blocks)
      ensures p == 0 ==> Mem == old(Mem)
      ensures p != 0 ==> p !in old(Mem) && p < FRAME_COUNT && Mem == old(Mem)[p := ZeroTable()]
    {
      p := *;
      if p in frames || FRAME_COUNT <= p {
        p := 0;
      }
      if p != 0 {
        var page := new Entry[TABLE_LENGTH](_ => ZERO_ENTRY);
        frames := frames[p := page];
        Repr := Repr + {page};
        Mem := Mem[p := ZeroTable()];
        assert page[..] == ZeroTable();
      }
    }

    method FreePage(p: nat)
      requires Valid() && p in Mem
      modifies this
      ensures Valid() && Repr == old(Repr) && blocks == old(blocks)
      ensures Mem == old(Mem) - {p}
    {
      frames := frames - {p};
      Mem := Mem - {p};
    }

    // A block for a structure other than a table, or None on failure.
    method AllocateBlock() returns (b: Option<nat>)
      requires Valid()
      modifies this`blocks
      ensures Valid()
      ensures b == None ==> blocks == old(blocks)
      ensures b.Some? ==> b.value !in old(blocks) && blocks == old(blocks) + {b.value}
    {
      var address: nat := *;
      if address in blocks {
        b := None;
      } else {
        blocks := blocks + {address};
        b := Some(address);
      }
    }

    method FreeBlock(b: nat)
      requires Valid() && b in blocks
      modifies this`blocks
      ensures Valid() && blocks == old(blocks) - {b}
    {
      blocks := blocks - {b};
    }

    function Load(p: nat, i: nat): (e: Entry)
      requires Valid() && p in Mem && i < TABLE_LENGTH
      reads this, Repr
      ensures e == Mem[p][i]
    {
      frames[p][i]
    }

    method Write(slot: Slot, entry: Entry)
      requires Valid() && slot.table in Mem && slot.index < TABLE_LENGTH
      modifies Repr
      ensures Valid() && Repr == old(Repr) && blocks == old(blocks)
      ensures Mem == Store(old(Mem), slot, entry)
    {
      frames[slot.table][slot.index] := entry;
      Mem := Store(Mem, slot, entry);
    }
  }
}
