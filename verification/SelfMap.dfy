// The recursive page-table map (util.cpp): where the entries that translate an
// address are found in virtual memory.
//
// The shifts 39, 30, 21 and 12 and the masks of 9, 18, 27 and 36 bits belong to
// the PXE, PPE, PDE and PTE level; an entry has eight bytes.
module SelfMap {

  // The bases of the four levels of entries.
  datatype Bases = Bases(pxe: bv64, ppe: bv64, pde: bv64, pte: bv64)

  // The slot in which the top level refers to itself.
  function Index(pteBase: bv64): bv64 {
    (pteBase >> 39) & 0x1FF
  }

  function IndexAt30(pteBase: bv64): bv64 {
    Index(pteBase) << 30
  }

  function IndexAt21(pteBase: bv64): bv64 {
    Index(pteBase) << 21
  }

  function IndexAt12(pteBase: bv64): bv64 {
    Index(pteBase) << 12
  }

  function Or(x: bv64, y: bv64): bv64 {
    x | y
  }

  function Plus(x: bv64, y: bv64): bv64 {
    x + y
  }

  // UtilpInitializePageTableVariables, from a randomized PTE base.
  function Derive(pteBase: bv64): Bases {
    var pdeBase := Or(pteBase, IndexAt30(pteBase));
    var ppeBase := Or(pdeBase, IndexAt21(pteBase));
    var pxeBase := Or(ppeBase, IndexAt12(pteBase));
    Bases(pxeBase, ppeBase, pdeBase, pteBase)
  }

  // The fixed bases of earlier systems.
  function Fixed(): Bases {
    Bases(0xFFFF_F6FB_7DBE_D000, 0xFFFF_F6FB_7DA0_0000, 0xFFFF_F6FB_4000_0000, 0xFFFF_F680_0000_0000)
  }

  // The offset of an address's entry at each level.
  function PxeOffset(address: bv64): bv64 {
    ((address >> 39) & 0x1FF) << 3
  }

  function PpeOffset(address: bv64): bv64 {
    ((address >> 30) & 0x3_FFFF) << 3
  }

  function PdeOffset(address: bv64): bv64 {
    ((address >> 21) & 0x7FF_FFFF) << 3
  }

  function PteOffset(address: bv64): bv64 {
    ((address >> 12) & 0xF_FFFF_FFFF) << 3
  }

  function AddressToPxe(b: Bases, address: bv64): bv64 {
    Plus(b.pxe, PxeOffset(address))
  }

  function AddressToPpe(b: Bases, address: bv64): bv64 {
    Plus(b.ppe, PpeOffset(address))
  }

  function AddressToPde(b: Bases, address: bv64): bv64 {
    Plus(b.pde, PdeOffset(address))
  }

  function AddressToPte(b: Bases, address: bv64): bv64 {
    Plus(b.pte, PteOffset(address))
  }

  // Aligned to 512 GiB.
  predicate Aligned(pteBase: bv64) {
    pteBase & 0x7F_FFFF_FFFF == 0
  }

  lemma {:induction false} FixedAreDerived()
    ensures Aligned(Fixed().pte) && Derive(Fixed().pte) == Fixed()
  {
    assert Index(Fixed().pte) == 0x1ED;
  }

  // ---------------------------------------------------------------------
  // The arithmetic of bits
  // ---------------------------------------------------------------------

  lemma AddIsOr(x: bv64, y: bv64)
    requires x & y == 0
    ensures x + y == x | y
  {
  }

  lemma Separate(b: bv64, i: bv64, a: bv64)
    requires b & 0x7F_FFFF_FFFF == 0 && i == (b >> 39) & 0x1FF
    ensures b & (((a >> 12) & 0xF_FFFF_FFFF) << 3) == 0 && b & (((a >> 21) & 0x7FF_FFFF) << 3) == 0
    ensures b & (((a >> 30) & 0x3_FFFF) << 3) == 0 && b & (((a >> 39) & 0x1FF) << 3) == 0
    ensures b & (i << 30) == 0 && b & (i << 21) == 0 && b & (i << 12) == 0
    ensures (i << 30) & (((a >> 21) & 0x7FF_FFFF) << 3) == 0
    ensures (i << 30) & (((a >> 30) & 0x3_FFFF) << 3) == 0 && (i << 21) & (((a >> 30) & 0x3_FFFF) << 3) == 0
    ensures (i << 30) & (((a >> 39) & 0x1FF) << 3) == 0 && (i << 21) & (((a >> 39) & 0x1FF) << 3) == 0
    ensures (i << 12) & (((a >> 39) & 0x1FF) << 3) == 0
  {
  }

  predicate Disjoint(x: bv64, y: bv64) {
    x & y == 0
  }

  lemma {:induction false} PlusIsOr(x: bv64, y: bv64)
    requires Disjoint(x, y)
    ensures Plus(x, y) == Or(x, y)
  {
    AddIsOr(x, y);
  }

  lemma DisjointOr(x: bv64, y: bv64, z: bv64)
    requires Disjoint(x, y) && Disjoint(x, z) && Disjoint(y, z)
    ensures Disjoint(x, Or(y, z)) && Disjoint(Or(x, y), z)
  {
  }

  lemma OrAssociates(x: bv64, y: bv64, z: bv64)
    ensures Or(x, Or(y, z)) == Or(Or(x, y), z)
  {
  }

  lemma {:induction false} Regroup(x: bv64, y: bv64, z: bv64)
    requires Disjoint(x, y) && Disjoint(x, z) && Disjoint(y, z)
    ensures Plus(x, Or(y, z)) == Plus(Or(x, y), z)
  {
    hide *;
    DisjointOr(x, y, z);
    PlusIsOr(x, Or(y, z));
    PlusIsOr(Or(x, y), z);
    OrAssociates(x, y, z);
  }

  // The PTE lookup of an entry at `base` + `offset` adds the bits `index` to
  // the PTE base and shortens the offset.
  lemma {:induction false} StepUp(b: Bases, base: bv64, offset: bv64, index: bv64, shorter: bv64)
    requires Disjoint(base, offset)
    requires Disjoint(b.pte, index) && Disjoint(b.pte, shorter) && Disjoint(index, shorter)
    requires PteOffset(Or(base, offset)) == Or(index, shorter)
    ensures AddressToPte(b, Plus(base, offset)) == Plus(Or(b.pte, index), shorter)
  {
    hide Plus, Or, PteOffset, Disjoint;
    PlusIsOr(base, offset);
    Regroup(b.pte, index, shorter);
  }

  // ---------------------------------------------------------------------
  // The self-map
  // ---------------------------------------------------------------------

  lemma {:induction false} BaseSeparate(base: bv64, a: bv64)
    requires Aligned(base)
    ensures Disjoint(base, PteOffset(a)) && Disjoint(base, PdeOffset(a))
    ensures Disjoint(base, PpeOffset(a)) && Disjoint(base, PxeOffset(a))
    ensures Disjoint(base, IndexAt30(base)) && Disjoint(base, IndexAt21(base)) && Disjoint(base, IndexAt12(base))
  {
    Separate(base, Index(base), a);
  }

  lemma {:induction false} IndexSeparate(base: bv64, a: bv64)
    requires Aligned(base)
    ensures Disjoint(IndexAt30(base), PdeOffset(a)) && Disjoint(IndexAt30(base), PpeOffset(a))
    ensures Disjoint(IndexAt21(base), PpeOffset(a)) && Disjoint(IndexAt30(base), PxeOffset(a))
    ensures Disjoint(IndexAt21(base), PxeOffset(a)) && Disjoint(IndexAt12(base), PxeOffset(a))
  {
    Separate(base, Index(base), a);
  }

  lemma DisjointUnion(x: bv64, y: bv64, z: bv64)
    ensures Disjoint(x, z) && Disjoint(y, z) ==> Disjoint(Or(x, y), z)
    ensures Disjoint(z, x) && Disjoint(z, y) ==> Disjoint(z, Or(x, y))
  {
  }

  // The PTE lookup works on the bits of its argument one by one, turns the base
  // and each copy of the index into the next copy, and each offset into the
  // one of the next level.
  lemma OffsetOfOr(x: bv64, y: bv64)
    ensures PteOffset(Or(x, y)) == Or(PteOffset(x), PteOffset(y))
  {
  }

  lemma OffsetOfBase(base: bv64)
    requires Aligned(base)
    ensures PteOffset(base) == IndexAt30(base)
  {
  }

  lemma OffsetOfIndex(base: bv64)
    ensures PteOffset(IndexAt30(base)) == IndexAt21(base) && PteOffset(IndexAt21(base)) == IndexAt12(base)
  {
  }

  lemma ShiftTwice(a: bv64)
    ensures (((((a >> 12) & 0xF_FFFF_FFFF) << 3) >> 12) & 0xF_FFFF_FFFF) << 3 == ((a >> 21) & 0x7FF_FFFF) << 3
    ensures (((((a >> 21) & 0x7FF_FFFF) << 3) >> 12) & 0xF_FFFF_FFFF) << 3 == ((a >> 30) & 0x3_FFFF) << 3
    ensures (((((a >> 30) & 0x3_FFFF) << 3) >> 12) & 0xF_FFFF_FFFF) << 3 == ((a >> 39) & 0x1FF) << 3
  {
  }

  lemma {:induction false} OffsetOfPte(a: bv64)
    ensures PteOffset(PteOffset(a)) == PdeOffset(a)
  {
    ShiftTwice(a);
  }

  lemma {:induction false} OffsetOfPde(a: bv64)
    ensures PteOffset(PdeOffset(a)) == PpeOffset(a)
  {
    ShiftTwice(a);
  }

  lemma {:induction false} OffsetOfPpe(a: bv64)
    ensures PteOffset(PpeOffset(a)) == PxeOffset(a)
  {
    ShiftTwice(a);
  }

  lemma {:induction false} Shifts(base: bv64, a: bv64)
    requires Aligned(base)
    ensures var i30, i21, i12 := IndexAt30(base), IndexAt21(base), IndexAt12(base);
      && PteOffset(Or(base, PteOffset(a))) == Or(i30, PdeOffset(a))
      && PteOffset(Or(Or(base, i30), PdeOffset(a))) == Or(Or(i30, i21), PpeOffset(a))
      && PteOffset(Or(Or(Or(base, i30), i21), PpeOffset(a))) == Or(Or(Or(i30, i21), i12), PxeOffset(a))
  {
    hide *;
    var i30, i21 := IndexAt30(base), IndexAt21(base);
    OffsetOfBase(base);
    OffsetOfIndex(base);
    OffsetOfPte(a);
    OffsetOfPde(a);
    OffsetOfPpe(a);
    OffsetOfOr(base, PteOffset(a));
    OffsetOfOr(base, i30);
    OffsetOfOr(Or(base, i30), PdeOffset(a));
    OffsetOfOr(Or(base, i30), i21);
    OffsetOfOr(Or(Or(base, i30), i21), PpeOffset(a));
  }

  lemma {:induction false} PteOfPte(pteBase: bv64, a: bv64)
    requires Aligned(pteBase)
    ensures var b := Derive(pteBase); AddressToPte(b, AddressToPte(b, a)) == AddressToPde(b, a)
  {
    hide Aligned, Plus, Or, PteOffset, PdeOffset, Disjoint, IndexAt30, IndexAt21, IndexAt12;
    BaseSeparate(pteBase, a);
    IndexSeparate(pteBase, a);
    Shifts(pteBase, a);
    StepUp(Derive(pteBase), pteBase, PteOffset(a), IndexAt30(pteBase), PdeOffset(a));
  }

  lemma {:induction false} PteOfPde(pteBase: bv64, a: bv64)
    requires Aligned(pteBase)
    ensures var b := Derive(pteBase); AddressToPte(b, AddressToPde(b, a)) == AddressToPpe(b, a)
  {
    hide Aligned, Plus, Or, PteOffset, PdeOffset, PpeOffset, Disjoint, IndexAt30, IndexAt21, IndexAt12;
    var b, i30, i21 := Derive(pteBase), IndexAt30(pteBase), IndexAt21(pteBase);
    BaseSeparate(pteBase, a);
    IndexSeparate(pteBase, a);
    DisjointUnion(pteBase, i30, PdeOffset(a));
    DisjointUnion(i30, i21, pteBase);
    DisjointUnion(i30, i21, PpeOffset(a));
    Shifts(pteBase, a);
    StepUp(b, b.pde, PdeOffset(a), Or(i30, i21), PpeOffset(a));
    OrAssociates(pteBase, i30, i21);
  }

  lemma {:induction false} PteOfPpe(pteBase: bv64, a: bv64)
    requires Aligned(pteBase)
    ensures var b := Derive(pteBase); AddressToPte(b, AddressToPpe(b, a)) == AddressToPxe(b, a)
  {
    hide Aligned, Plus, Or, PteOffset, PpeOffset, PxeOffset, Disjoint, IndexAt30, IndexAt21, IndexAt12;
    var b, i30, i21, i12 := Derive(pteBase), IndexAt30(pteBase), IndexAt21(pteBase), IndexAt12(pteBase);
    BaseSeparate(pteBase, a);
    IndexSeparate(pteBase, a);
    DisjointUnion(pteBase, i30, PpeOffset(a));
    DisjointUnion(Or(pteBase, i30), i21, PpeOffset(a));
    DisjointUnion(i30, i21, pteBase);
    DisjointUnion(Or(i30, i21), i12, pteBase);
    DisjointUnion(i30, i21, PxeOffset(a));
    DisjointUnion(Or(i30, i21), i12, PxeOffset(a));
    Shifts(pteBase, a);
    StepUp(b, b.ppe, PpeOffset(a), Or(Or(i30, i21), i12), PxeOffset(a));
    OrAssociates(pteBase, Or(i30, i21), i12);
    OrAssociates(pteBase, i30, i21);
  }

  // So all four levels come from the PTE lookup alone.
  lemma {:induction false} LevelsAreIterated(pteBase: bv64, a: bv64)
    requires Aligned(pteBase)
    ensures var b := Derive(pteBase);
      var pte := AddressToPte(b, a);
      var pde := AddressToPte(b, pte);
      var ppe := AddressToPte(b, pde);
      pde == AddressToPde(b, a) && ppe == AddressToPpe(b, a) && AddressToPte(b, ppe) == AddressToPxe(b, a)
  {
    hide *;
    PteOfPte(pteBase, a);
    PteOfPde(pteBase, a);
    PteOfPpe(pteBase, a);
  }

  function Page(address: bv64): bv64 {
    (address >> 12) & 0xF_FFFF_FFFF
  }

  function Times8(x: bv64): bv64 {
    x << 3
  }

  function Over8(x: bv64): bv64 {
    x >> 3
  }

  function Low39(x: bv64): bv64 {
    x & 0x7F_FFFF_FFFF
  }

  lemma ShiftBack(x: bv64)
    requires x <= 0xF_FFFF_FFFF
    ensures (x << 3) >> 3 == x
  {
  }

  lemma {:induction false} OffsetOfPage(a: bv64)
    ensures PteOffset(a) == Times8(Page(a)) && Over8(Times8(Page(a))) == Page(a)
  {
    ShiftBack((a >> 12) & 0xF_FFFF_FFFF);
  }

  lemma LowOfEntry(base: bv64, a: bv64)
    requires Aligned(base)
    ensures Low39(Or(base, PteOffset(a))) == PteOffset(a)
  {
  }

  // Two addresses have the same PTE if and only if they agree on the 36 bits
  // of their page number.
  lemma {:induction false} PteExact(pteBase: bv64, a: bv64, c: bv64)
    requires Aligned(pteBase)
    ensures var b := Derive(pteBase); AddressToPte(b, a) == AddressToPte(b, c) <==> Page(a) == Page(c)
  {
    hide Aligned, Plus, PteOffset, Page, Times8, Over8, Low39, Or, Disjoint, IndexAt30, IndexAt21, IndexAt12;
    OffsetOfPage(a);
    OffsetOfPage(c);
    BaseSeparate(pteBase, a);
    BaseSeparate(pteBase, c);
    PlusIsOr(pteBase, PteOffset(a));
    PlusIsOr(pteBase, PteOffset(c));
    LowOfEntry(pteBase, a);
    LowOfEntry(pteBase, c);
  }
}
