// Virtualizing and devirtualizing the processors (vm.cpp).
module Lifecycle {
  import opened Wrappers

  // What an allocated block is for; nothing refers to a leaked one any more.
  datatype Role = Data | Ept | Stack | Vmcs | Vmxon
  datatype Part = Header | MsrBitmap | IoBitmaps
  datatype Owner = OfProcessor(index: nat, role: Role) | OfShared(part: Part) | Leaked

  // The VMX steps that VmpInitializeVm takes after its allocations.
  datatype Step = EnterVmxMode | InitializeVmcs | SetupVmcs | Launch

  // Which allocations and VMX steps of an operation succeed.
  datatype Schedule = Schedule(shared: Part -> bool, fields: (nat, Role) -> bool, vmx: (nat, Step) -> bool)

  // SharedProcessorData.
  datatype SharedData = SharedData(block: nat, msrBitmap: nat, ioBitmaps: nat, references: int) {
    function Field(p: Part): nat {
      match p
      case Header => block
      case MsrBitmap => msrBitmap
      case IoBitmaps => ioBitmaps
    }
  }

  // ProcessorData.
  datatype ProcessorData = ProcessorData(
    block: nat, ept: Option<nat>, stack: Option<nat>, vmcs: Option<nat>, vmxon: Option<nat>)
  {
    function Field(r: Role): Option<nat> {
      match r
      case Data => Some(block)
      case Ept => ept
      case Stack => stack
      case Vmcs => vmcs
      case Vmxon => vmxon
    }

    predicate Complete() {
      ept.Some? && stack.Some? && vmcs.Some? && vmxon.Some?
    }
  }

  // ---------------------------------------------------------------------
  // Who owns which block
  // ---------------------------------------------------------------------

  type Owners = map<nat, Owner>

  // The blocks marked as a record's own are exactly its fields.
  ghost predicate RecordOwned(owners: Owners, i: nat, d: ProcessorData) {
    && (forall r: Role :: d.Field(r).Some? ==>
          d.Field(r).value in owners && owners[d.Field(r).value] == OfProcessor(i, r))
    && (forall b :: b in owners && owners[b].OfProcessor? && owners[b].index == i ==>
          d.Field(owners[b].role) == Some(b))
  }

  ghost predicate SharedOwned(owners: Owners, shared: Option<SharedData>) {
    && (shared.Some? ==> forall p: Part ::
          shared.value.Field(p) in owners && owners[shared.value.Field(p)] == OfShared(p))
    && (forall b :: b in owners && owners[b].OfShared? ==>
          shared.Some? && shared.value.Field(owners[b].part) == b)
  }

  ghost predicate Ledger(owners: Owners, records: map<nat, ProcessorData>, shared: Option<SharedData>) {
    && (forall i :: i in records ==> RecordOwned(owners, i, records[i]))
    && (forall b :: b in owners && owners[b].OfProcessor? ==> owners[b].index in records)
    && SharedOwned(owners, shared)
  }

  // The blocks of a record, in the order VmpFreeProcessorData frees them.
  function Fields(d: ProcessorData): set<nat> {
    (if d.stack.Some? then {d.stack.value} else {}) + (if d.vmcs.Some? then {d.vmcs.value} else {})
    + (if d.vmxon.Some? then {d.vmxon.value} else {}) + (if d.ept.Some? then {d.ept.value} else {}) + {d.block}
  }

  function Parts(s: SharedData): set<nat> {
    {s.ioBitmaps, s.msrBitmap, s.block}
  }

  lemma AddShared(owners: Owners, s: SharedData)
    requires Ledger(owners, map[], None)
    requires Parts(s) !! owners.Keys && s.block != s.msrBitmap && s.block != s.ioBitmaps && s.msrBitmap != s.ioBitmaps
    ensures Ledger(
      owners[s.block := OfShared(Header)][s.msrBitmap := OfShared(MsrBitmap)][s.ioBitmaps := OfShared(IoBitmaps)],
      map[], Some(s))
  {
  }

  lemma {:induction false} RemoveShared(owners: Owners, s: SharedData)
    requires Ledger(owners, map[], Some(s))
    ensures Ledger(owners - Parts(s), map[], None) && Parts(s) <= owners.Keys
  {
    forall b | b in owners - Parts(s)
      ensures !owners[b].OfShared?
    {
    }
    assert s.Field(Header) in owners && s.Field(MsrBitmap) in owners && s.Field(IoBitmaps) in owners;
  }

  lemma {:induction false} AddField(
      owners: Owners, records: map<nat, ProcessorData>, shared: Option<SharedData>,
      i: nat, d: ProcessorData, r: Role, b: nat)
    requires Ledger(owners, records, shared) && i in records && b !in owners
    requires records[i].Field(r) == None && d.Field(r) == Some(b)
    requires forall q: Role :: q != r ==> d.Field(q) == records[i].Field(q)
    ensures Ledger(owners[b := OfProcessor(i, r)], records[i := d], shared)
  {
    var o, all := owners[b := OfProcessor(i, r)], records[i := d];
    forall j | j in all
      ensures RecordOwned(o, j, all[j])
    {
      assert RecordOwned(owners, j, records[j]);
    }
  }

  lemma {:induction false} AddRecord(
      owners: Owners, records: map<nat, ProcessorData>, shared: Option<SharedData>, i: nat, b: nat)
    requires Ledger(owners, records, shared) && i !in records && b !in owners
    ensures Ledger(
      owners[b := OfProcessor(i, Data)], records[i := ProcessorData(b, None, None, None, None)], shared)
  {
    var d := ProcessorData(b, None, None, None, None);
    var o, all := owners[b := OfProcessor(i, Data)], records[i := d];
    forall j | j in all
      ensures RecordOwned(o, j, all[j])
    {
      if j != i {
        assert RecordOwned(owners, j, records[j]);
      }
    }
  }

  lemma {:induction false} RemoveRecord(
      owners: Owners, records: map<nat, ProcessorData>, shared: Option<SharedData>, i: nat)
    requires Ledger(owners, records, shared) && i in records
    ensures Ledger(owners - Fields(records[i]), records - {i}, shared)
  {
    var o, all := owners - Fields(records[i]), records - {i};
    assert RecordOwned(owners, i, records[i]);
    forall b | b in Fields(records[i])
      ensures b in owners && owners[b].OfProcessor? && owners[b].index == i
    {
      FieldOwned(owners, i, records[i], b);
    }
    forall j | j in all
      ensures RecordOwned(o, j, all[j])
    {
      assert RecordOwned(owners, j, records[j]);
    }
    forall b | b in o && o[b].OfProcessor?
      ensures o[b].index in all
    {
      if o[b].index == i {
        assert records[i].Field(o[b].role) == Some(b);
        FieldIsIn(records[i], o[b].role);
      }
    }
  }

  lemma FieldIsIn(d: ProcessorData, r: Role)
    requires d.Field(r).Some?
    ensures d.Field(r).value in Fields(d)
  {
  }

  lemma {:induction false} FieldOwned(owners: Owners, i: nat, d: ProcessorData, b: nat)
    requires RecordOwned(owners, i, d) && b in Fields(d)
    ensures b in owners && owners[b].OfProcessor? && owners[b].index == i
  {
    assert d.Field(Data).Some?;
    assert d.ept.Some? ==> d.Field(Ept).Some?;
    assert d.stack.Some? ==> d.Field(Stack).Some?;
    assert d.vmcs.Some? ==> d.Field(Vmcs).Some?;
    assert d.vmxon.Some? ==> d.Field(Vmxon).Some?;
  }

  // Blocks that were lost.
  ghost function LeakedBlocks(owners: Owners): set<nat> {
    set b | b in owners && owners[b] == Leaked
  }

  ghost predicate Accounted(
      owners: Owners, records: map<nat, ProcessorData>, shared: Option<SharedData>, b: nat)
  {
    || (exists i :: i in records && b in Fields(records[i]))
    || (shared.Some? && b in Parts(shared.value))
    || b in LeakedBlocks(owners)
  }

  // What is allocated is exactly what the records, the shared data and earlier
  // leaks account for.
  lemma {:induction false} PoolExact(
      owners: Owners, records: map<nat, ProcessorData>, shared: Option<SharedData>, b: nat)
    requires Ledger(owners, records, shared)
    ensures b in owners <==> Accounted(owners, records, shared, b)
  {
    if b in owners && owners[b].OfProcessor? {
      var i := owners[b].index;
      assert RecordOwned(owners, i, records[i]);
      FieldIsIn(records[i], owners[b].role);
    }
    if i :| i in records && b in Fields(records[i]) {
      FieldOwned(owners, i, records[i], b);
    } else if shared.Some? && b in Parts(shared.value) {
      var s := shared.value;
      assert s.Field(Header) in owners && s.Field(MsrBitmap) in owners && s.Field(IoBitmaps) in owners;
    }
  }

  // ---------------------------------------------------------------------
  // Stopping every processor
  // ---------------------------------------------------------------------

  lemma BackOut(owners: Owners, b: nat, o: Owner)
    requires b !in owners
    ensures owners[b := o] - {b} == owners
  {
  }

  ghost predicate Below(s: set<nat>, n: nat) {
    forall i <- s :: i < n
  }

  // The set is {0, ..., n - 1}.
  ghost predicate IsInitial(s: set<nat>, n: nat) {
    forall i: nat :: i in s <==> i < n
  }

  // The first processor from i on that UtilForEachProcessor(VmpStopVm) cannot
  // switch to, or on which the hypercall fails.
  function FirstUnstoppable(live: set<nat>, resolves: nat -> bool, n: nat, i: nat): (k: nat)
    requires i <= n
    ensures i <= k <= n
    ensures forall j :: i <= j < k ==> j in live && resolves(j)
    ensures k < n ==> k !in live || !resolves(k)
    decreases n - i
  {
    if i == n || i !in live || !resolves(i) then i else FirstUnstoppable(live, resolves, n, i + 1)
  }

  function From(live: set<nat>, k: nat): set<nat> {
    set i | i in live && i >= k
  }

  // The loop stops there, and leaves the later processors virtualized.
  function Remaining(live: set<nat>, resolves: nat -> bool, n: nat): set<nat> {
    From(live, FirstUnstoppable(live, resolves, n, 0))
  }

  lemma FromNext(live: set<nat>, k: nat)
    ensures From(live, 0) == live && (k in From(live, k) <==> k in live)
    ensures k in live ==> From(live, k) - {k} == From(live, k + 1)
  {
  }

  // Every processor is devirtualized if and only if the virtualized ones are
  // an initial segment that can be switched to.
  lemma {:induction false} StopsAllExact(live: set<nat>, resolves: nat -> bool, n: nat)
    requires Below(live, n)
    ensures Remaining(live, resolves, n) == {} <==>
      exists k: nat :: IsInitial(live, k) && forall j: nat :: j < k ==> resolves(j)
  {
    var k := FirstUnstoppable(live, resolves, n, 0);
    if Remaining(live, resolves, n) == {} {
      forall i: nat
        ensures i in live <==> i < k
      {
        assert i !in Remaining(live, resolves, n);
      }
      assert IsInitial(live, k);
    }
    if m: nat :| IsInitial(live, m) && forall j: nat :: j < m ==> resolves(j) {
      assert k !in live || k == n;
      assert k >= m;
    }
  }

  // A processor stays virtualized if and only if it, or one before it, is not
  // virtualized or cannot be switched to.
  lemma {:induction false} RemainingExact(live: set<nat>, resolves: nat -> bool, n: nat, i: nat)
    requires Below(live, n) && i in live
    ensures i in Remaining(live, resolves, n) <==> exists j: nat :: j <= i && (j !in live || !resolves(j))
  {
    var k := FirstUnstoppable(live, resolves, n, 0);
    if k <= i {
      assert k !in live || !resolves(k);
    }
  }

  // After a failed hot-plug and a successful one, termination leaves a
  // processor virtualized.
  lemma {:induction false} HotplugGap()
    ensures Remaining({0, 2}, (i: nat) => true, 3) == {2}
  {
    var all := (i: nat) => true;
    assert FirstUnstoppable({0, 2}, all, 3, 1) == 1;
    assert FirstUnstoppable({0, 2}, all, 3, 0) == 1;
  }

  // ---------------------------------------------------------------------
  // Starting every processor
  // ---------------------------------------------------------------------

  predicate CreatesShared(plan: Schedule) {
    plan.shared(Header) && plan.shared(MsrBitmap) && plan.shared(IoBitmaps)
  }

  // Nothing fails on processor i.
  ghost predicate Starts(plan: Schedule, i: nat) {
    (forall r: Role :: plan.fields(i, r)) && (forall p: Step :: plan.vmx(i, p))
  }

  // The first processor from i on that is not virtualized.
  ghost function FirstFailure(plan: Schedule, resolves: nat -> bool, n: nat, i: nat): (k: nat)
    requires i <= n
    ensures i <= k <= n && forall j :: i <= j < k ==> resolves(j) && Starts(plan, j)
    ensures k < n ==> !resolves(k) || !Starts(plan, k)
    decreases n - i
  {
    if i == n || !resolves(i) || !Starts(plan, i) then i else FirstFailure(plan, resolves, n, i + 1)
  }

  // How many processors from i on get a record: the one that fails may still
  // have got its own.
  ghost function Recorded(plan: Schedule, resolves: nat -> bool, n: nat, i: nat): nat
    requires i <= n
    decreases n - i
  {
    if i == n || !resolves(i) || !plan.fields(i, Data) then 0
    else if !Starts(plan, i) then 1
    else 1 + Recorded(plan, resolves, n, i + 1)
  }

  // No record is ever made if and only if processor 0 cannot be switched to or
  // has no memory for its own.
  lemma {:induction false} LossExact(plan: Schedule, resolves: nat -> bool, n: nat)
    requires n > 0
    ensures Recorded(plan, resolves, n, 0) == 0 <==> !(resolves(0) && plan.fields(0, Data))
    ensures Recorded(plan, resolves, n, 0) == 0 ==> FirstFailure(plan, resolves, n, 0) == 0
  {
    assert Starts(plan, 0) ==> plan.fields(0, Data);
  }

  lemma {:induction false} StartsIs(plan: Schedule, i: nat)
    ensures Starts(plan, i) <==>
      && plan.fields(i, Data) && plan.fields(i, Ept) && plan.fields(i, Stack) && plan.fields(i, Vmcs)
      && plan.fields(i, Vmxon) && plan.vmx(i, EnterVmxMode) && plan.vmx(i, InitializeVmcs)
      && plan.vmx(i, SetupVmcs) && plan.vmx(i, Launch)
  {
    if plan.fields(i, Data) && plan.fields(i, Ept) && plan.fields(i, Stack) && plan.fields(i, Vmcs)
      && plan.fields(i, Vmxon)
    {
      forall r: Role
        ensures plan.fields(i, r)
      {
        match r case Data => case Ept => case Stack => case Vmcs => case Vmxon =>
      }
    }
    if plan.vmx(i, EnterVmxMode) && plan.vmx(i, InitializeVmcs) && plan.vmx(i, SetupVmcs) && plan.vmx(i, Launch) {
      forall p: Step
        ensures plan.vmx(i, p)
      {
        match p case EnterVmxMode => case InitializeVmcs => case SetupVmcs => case Launch =>
      }
    }
  }

  lemma {:induction false} StartNext(plan: Schedule, resolves: nat -> bool, n: nat, i: nat)
    requires i < n && resolves(i)
    ensures Starts(plan, i) ==>
      && FirstFailure(plan, resolves, n, i) == FirstFailure(plan, resolves, n, i + 1)
      && Recorded(plan, resolves, n, i) == 1 + Recorded(plan, resolves, n, i + 1) && plan.fields(i, Data)
    ensures !Starts(plan, i) ==>
      && FirstFailure(plan, resolves, n, i) == i
      && Recorded(plan, resolves, n, i) == if plan.fields(i, Data) then 1 else 0
  {
    assert Starts(plan, i) ==> plan.fields(i, Data);
  }

  lemma StartEnd(plan: Schedule, resolves: nat -> bool, n: nat, i: nat)
    requires i <= n && (i == n || !resolves(i))
    ensures FirstFailure(plan, resolves, n, i) == i && Recorded(plan, resolves, n, i) == 0
  {
  }

  // ---------------------------------------------------------------------
  // The code
  // ---------------------------------------------------------------------

  class Machine {
    // KeQueryActiveProcessorCountEx, and whether KeGetProcessorNumberFromIndex
    // succeeds for an index.
    var processors: nat
    const resolves: nat -> bool

    // The allocated blocks, the records of the processors that have one, and
    // the virtualized processors.
    var pool: set<nat>
    var records: map<nat, ProcessorData>
    var live: set<nat>
    var shared: Option<SharedData>

    // What the blocks are for, and how often shared data was created, freed
    // and lost.
    ghost var owners: Owners
    ghost var created: nat
    ghost var freed: nat
    ghost var lost: nat

    // How many records were ever made.
    ghost var recorded: nat

    ghost predicate Valid()
      reads this
    {
      && owners.Keys == pool && Ledger(owners, records, shared)
      && live <= records.Keys && Below(records.Keys, processors)
      && (forall i :: i in live ==> records[i].Complete())
      && (shared == None ==> records == map[])
      && (shared.Some? ==> shared.value.references == |records|)
      && created == freed + lost + if shared.Some? then 1 else 0
    }

    // Between operations every record belongs to a virtualized processor, and
    // the shared data to at least one.
    ghost predicate Settled()
      reads this
    {
      Valid() && live == records.Keys && (shared.Some? ==> live != {})
    }

    // ExAllocatePoolWithTag and its relatives.
    method Allocate(succeeds: bool, ghost owner: Owner) returns (b: Option<nat>)
      requires owners.Keys == pool && owner != Leaked
      modifies `pool, `owners
      ensures owners.Keys == pool && LeakedBlocks(owners) == old(LeakedBlocks(owners))
      ensures b.Some? <==> succeeds
      ensures b == None ==> owners == old(owners)
      ensures b.Some? ==> b.value !in old(owners) && owners == old(owners)[b.value := owner]
    {
      if !succeeds {
        return None;
      }
      SomeFree(pool);
      var address: nat :| address !in pool;
      pool := pool + {address};
      owners := owners[address := owner];
      b := Some(address);
    }

    // ExFreePoolWithTag and its relatives.
    method Free(b: nat)
      requires owners.Keys == pool && b in pool && owners[b] != Leaked
      modifies `pool, `owners
      ensures owners.Keys == pool && LeakedBlocks(owners) == old(LeakedBlocks(owners))
      ensures owners == old(owners) - {b}
    {
      pool := pool - {b};
      owners := owners - {b};
    }

    // VmpInitializeSharedData: all of it or nothing.
    method InitializeSharedData(plan: Schedule) returns (s: Option<SharedData>)
      requires owners.Keys == pool
      modifies `pool, `owners
      ensures owners.Keys == pool && LeakedBlocks(owners) == old(LeakedBlocks(owners))
      ensures s.Some? <==> plan.shared(Header) && plan.shared(MsrBitmap) && plan.shared(IoBitmaps)
      ensures s == None ==> owners == old(owners)
      ensures s.Some? ==> NewShared(old(owners), owners, s.value)
    {
      hide LeakedBlocks;
      ghost var before := owners;
      var block := Allocate(plan.shared(Header), OfShared(Header));
      if block == None {
        return None;
      }
      var msrBitmap := Allocate(plan.shared(MsrBitmap), OfShared(MsrBitmap));
      if msrBitmap == None {
        Free(block.value);
        BackOut(before, block.value, OfShared(Header));
        return None;
      }
      var ioBitmaps := Allocate(plan.shared(IoBitmaps), OfShared(IoBitmaps));
      if ioBitmaps == None {
        Free(msrBitmap.value);
        BackOut(before[block.value := OfShared(Header)], msrBitmap.value, OfShared(MsrBitmap));
        Free(block.value);
        BackOut(before, block.value, OfShared(Header));
        return None;
      }
      s := Some(SharedData(block.value, msrBitmap.value, ioBitmaps.value, 0));
    }

    // The release of the shared data at the end of VmpFreeSharedData.
    method FreeParts(s: SharedData)
      requires owners.Keys == pool && forall p: Part :: s.Field(p) in owners && owners[s.Field(p)] == OfShared(p)
      modifies `pool, `owners
      ensures owners.Keys == pool && LeakedBlocks(owners) == old(LeakedBlocks(owners))
      ensures owners == old(owners) - Parts(s)
    {
      hide LeakedBlocks;
      ghost var before := owners;
      PartsDiffer(owners, s);
      Free(s.ioBitmaps);
      Free(s.msrBitmap);
      Free(s.block);
      assert owners == before - Parts(s);
    }

    // VmpFreeSharedData.
    method FreeSharedData()
      requires owners.Keys == pool && shared.Some?
      requires forall p: Part :: shared.value.Field(p) in owners && owners[shared.value.Field(p)] == OfShared(p)
      modifies `pool, `owners, `shared, `freed
      ensures owners.Keys == pool && LeakedBlocks(owners) == old(LeakedBlocks(owners))
      ensures var s, n := old(shared.value), old(shared.value.references) - 1;
        if n == 0
        then shared == None && freed == old(freed) + 1 && owners == old(owners) - Parts(s)
        else shared == Some(s.(references := n)) && freed == old(freed) && owners == old(owners)
    {
      var s := shared.value;
      shared := Some(s.(references := s.references - 1));
      if shared.value.references != 0 {
        return;
      }
      FreeParts(s);
      shared, freed := None, freed + 1;
    }

    // The release of a record's own resources in VmpFreeProcessorData.
    method FreeFields(ghost i: nat, d: ProcessorData)
      requires owners.Keys == pool && RecordOwned(owners, i, d)
      modifies `pool, `owners
      ensures owners.Keys == pool && LeakedBlocks(owners) == old(LeakedBlocks(owners))
      ensures owners == HeaderLeft(old(owners), d)
    {
      ghost var before := owners;
      AllFieldsDiffer(owners, i, d);
      hide LeakedBlocks, RecordOwned;
      if d.stack.Some? {
        Free(d.stack.value);
      }
      assert owners == before - (if d.stack.Some? then {d.stack.value} else {});
      if d.vmcs.Some? {
        Free(d.vmcs.value);
      }
      if d.vmxon.Some? {
        Free(d.vmxon.value);
      }
      if d.ept.Some? {
        Free(d.ept.value);
      }
      assert owners == before - (Fields(d) - {d.block});
    }

    // What VmpFreeProcessorData frees.
    method FreeRecord(i: nat)
      requires owners.Keys == pool && shared.Some? && Ledger(owners, records, shared) && i in records
      requires shared.value.references == 1 ==> records - {i} == map[]
      modifies `pool, `owners, `shared, `freed
      ensures owners.Keys == pool && LeakedBlocks(owners) == old(LeakedBlocks(owners))
      ensures Ledger(owners, records - {i}, shared)
      ensures var s, n := old(shared.value), old(shared.value.references) - 1;
        if n == 0 then shared == None && freed == old(freed) + 1
        else shared == Some(s.(references := n)) && freed == old(freed)
    {
      hide LeakedBlocks, Ledger, RecordOwned, HeaderLeft, Fields, Parts;
      ghost var before, s := owners, shared.value;
      var d := records[i];
      RecordInLedger(owners, records, shared, i);
      FreeFields(i, d);
      SharedAfterFields(before, records, s, i);
      FreeSharedData();
      AfterShared(before, records, s, i);
      Free(d.block);
      FreedLedger(before, owners, records, s, i, shared == None);
    }

    // VmpFreeProcessorData, for processor i's record.
    method FreeProcessorData(i: nat)
      requires Valid() && i in records && i !in live
      modifies `pool, `owners, `shared, `freed, `records
      ensures Valid() && records == old(records) - {i} && LeakedBlocks(owners) == old(LeakedBlocks(owners))
      ensures if records == map[] then shared == None && freed == old(freed) + 1
        else freed == old(freed) && shared == Some(old(shared.value).(references := old(shared.value.references) - 1))
    {
      hide LeakedBlocks, Ledger, Below, ProcessorData.Complete;
      OneFewer(records, i);
      FreeRecord(i);
      records := records - {i};
    }

    // An allocation of VmpInitializeVm, stored in a field of the record.
    method AllocateField(i: nat, r: Role, succeeds: bool) returns (ok: bool)
      requires Valid() && i in records && i !in live && r != Data && records[i].Field(r) == None
      modifies `pool, `owners, `records
      ensures Valid() && LeakedBlocks(owners) == old(LeakedBlocks(owners))
      ensures i in records && records - {i} == old(records) - {i}
      ensures ok <==> succeeds
      ensures !ok ==> records == old(records)
      ensures ok ==>
        && records[i].Field(r).Some?
        && forall q: Role :: q != r ==> records[i].Field(q) == old(records)[i].Field(q)
    {
      hide LeakedBlocks, Ledger, Below;
      var b := Allocate(succeeds, OfProcessor(i, r));
      if b == None {
        return false;
      }
      AddField(old(owners), records, shared, i, With(records[i], r, b.value), r, b.value);
      SameKeys(records, i, With(records[i], r, b.value));
      records := records[i := With(records[i], r, b.value)];
      ok := true;
    }

    // The allocation of ProcessorData and its count.
    method AllocateRecord(i: nat, succeeds: bool) returns (ok: bool)
      requires Valid() && shared.Some? && i !in records && i < processors
      modifies `pool, `owners, `records, `shared, `recorded
      ensures Valid() && LeakedBlocks(owners) == old(LeakedBlocks(owners))
      ensures ok <==> succeeds
      ensures recorded == old(recorded) + if ok then 1 else 0
      ensures !ok ==> records == old(records) && shared == old(shared)
      ensures ok ==>
        && i in records && records - {i} == old(records)
        && shared == Some(old(shared.value).(references := old(shared.value.references) + 1))
        && forall r: Role :: r != Data ==> records[i].Field(r) == None
    {
      hide LeakedBlocks, Ledger, Below;
      var b := Allocate(succeeds, OfProcessor(i, Data));
      if b == None {
        return false;
      }
      var d := ProcessorData(b.value, None, None, None, None);
      AddRecord(old(owners), records, shared, i, b.value);
      var s := shared.value.(references := shared.value.references + 1);
      SameParts(owners, records[i := d], shared.value, s);
      OneMore(records, i, d);
      records, shared, ok := records[i := d], Some(s), true;
      recorded := recorded + 1;
    }

    // The other allocations of VmpInitializeVm: each is made if all before it
    // succeeded.
    method AllocateFields(i: nat, plan: Schedule) returns (ok: bool)
      requires Valid() && i in records && i !in live
      requires forall r: Role :: r != Data ==> records[i].Field(r) == None
      modifies `pool, `owners, `records
      ensures Valid() && LeakedBlocks(owners) == old(LeakedBlocks(owners))
      ensures i in records && records - {i} == old(records) - {i}
      ensures records[i].ept.Some? <==> plan.fields(i, Ept)
      ensures records[i].stack.Some? <==> records[i].ept.Some? && plan.fields(i, Stack)
      ensures records[i].vmcs.Some? <==> records[i].stack.Some? && plan.fields(i, Vmcs)
      ensures records[i].vmxon.Some? <==> records[i].vmcs.Some? && plan.fields(i, Vmxon)
      ensures ok <==> records[i].Complete()
    {
      hide LeakedBlocks, Ledger, Below;
      FieldsAre(records[i]);
      ok := AllocateField(i, Ept, plan.fields(i, Ept));
      FieldsAre(records[i]);
      if !ok {
        return;
      }
      ok := AllocateField(i, Stack, plan.fields(i, Stack));
      FieldsAre(records[i]);
      if !ok {
        return;
      }
      ok := AllocateField(i, Vmcs, plan.fields(i, Vmcs));
      FieldsAre(records[i]);
      if !ok {
        return;
      }
      ok := AllocateField(i, Vmxon, plan.fields(i, Vmxon));
      FieldsAre(records[i]);
    }

    // The rest of VmpInitializeVm: a failure frees the record.
    method EnterVm(i: nat, complete: bool, plan: Schedule) returns (ok: bool)
      requires Valid() && i in records && i !in live && (complete ==> records[i].Complete())
      modifies `pool, `owners, `records, `shared, `freed, `live
      ensures Valid() && LeakedBlocks(owners) == old(LeakedBlocks(owners))
      ensures ok <==>
        && complete && plan.vmx(i, EnterVmxMode) && plan.vmx(i, InitializeVmcs)
        && plan.vmx(i, SetupVmcs) && plan.vmx(i, Launch)
      ensures ok ==>
        live == old(live) + {i} && records == old(records) && shared == old(shared) && freed == old(freed)
      ensures !ok ==> live == old(live) && records == old(records) - {i}
      ensures !ok ==>
        if records == map[] then shared == None && freed == old(freed) + 1
        else freed == old(freed) && shared == Some(old(shared.value).(references := old(shared.value.references) - 1))
    {
      hide LeakedBlocks, Ledger, Below, ProcessorData.Complete;
      ok := complete && plan.vmx(i, EnterVmxMode) && plan.vmx(i, InitializeVmcs) && plan.vmx(i, SetupVmcs)
        && plan.vmx(i, Launch);
      if !ok {
        FreeProcessorData(i);
        return;
      }
      live := live + {i};
    }

    // VmpStartVm and VmpInitializeVm, with the allocations and VMX steps that
    // the plan lets succeed.
    method StartVm(i: nat, plan: Schedule) returns (ok: bool)
      requires Valid() && shared.Some? && i !in records && i < processors
      modifies `pool, `owners, `records, `shared, `freed, `live, `recorded
      ensures Valid() && LeakedBlocks(owners) == old(LeakedBlocks(owners))
      ensures ok <==> Starts(plan, i)
      ensures recorded == old(recorded) + if plan.fields(i, Data) then 1 else 0
      ensures ok ==>
        && live == old(live) + {i} && i in records && records - {i} == old(records)
        && freed == old(freed)
        && shared == Some(old(shared.value).(references := old(shared.value.references) + 1))
      ensures !ok ==> live == old(live) && records == old(records)
      ensures !ok && plan.fields(i, Data) && records == map[] ==> shared == None && freed == old(freed) + 1
      ensures !ok && !(plan.fields(i, Data) && records == map[]) ==> shared == old(shared) && freed == old(freed)
    {
      hide LeakedBlocks, Ledger, Below, Starts, ProcessorData.Complete;
      StartsIs(plan, i);
      NotLive(i);
      ok := AllocateRecord(i, plan.fields(i, Data));
      if !ok {
        return;
      }
      ok := AllocateFields(i, plan);
      CompleteIs(records[i]);
      hide Valid;
      ok := EnterVm(i, ok, plan);
    }

    lemma NotLive(i: nat)
      requires Valid() && i !in records
      ensures i !in live
    {
    }

    // VmpStopVm: the hypercall fails on a processor that is not virtualized.
    method StopVm(i: nat) returns (ok: bool)
      requires Valid()
      modifies `pool, `owners, `records, `shared, `freed, `live
      ensures Valid() && LeakedBlocks(owners) == old(LeakedBlocks(owners))
      ensures ok <==> i in old(live)
      ensures !ok ==> records == old(records) && live == old(live) && shared == old(shared) && freed == old(freed)
      ensures ok ==>
        && live == old(live) - {i} && records == old(records) - {i}
        && if records == map[] then shared == None && freed == old(freed) + 1
           else shared.Some? && freed == old(freed)
    {
      hide LeakedBlocks, Ledger, Below, ProcessorData.Complete;
      if i !in live {
        return false;
      }
      live := live - {i};
      FreeProcessorData(i);
      ok := true;
    }

    // UtilForEachProcessor(VmpStartVm): stops at the first failure.
    method StartAll(plan: Schedule) returns (ok: bool)
      requires Valid() && shared.Some? && records == map[] && live == {}
      modifies `pool, `owners, `records, `shared, `freed, `live, `recorded
      ensures Valid() && LeakedBlocks(owners) == old(LeakedBlocks(owners))
      ensures var k := FirstFailure(plan, resolves, processors, 0);
        && live == records.Keys && IsInitial(live, k) && (ok <==> k == processors)
        && recorded == old(recorded) + Recorded(plan, resolves, processors, 0)
        && (k > 0 ==> shared.Some? && freed == old(freed))
        && (k == 0 && Recorded(plan, resolves, processors, 0) > 0 ==> shared == None && freed == old(freed) + 1)
        && (k == 0 && Recorded(plan, resolves, processors, 0) == 0 ==> shared == old(shared) && freed == old(freed))
    {
      hide LeakedBlocks, Valid, Starts, FirstFailure, Recorded;
      ok := true;
      var i := 0;
      while i < processors
        invariant 0 <= i <= processors && ok && Valid() && LeakedBlocks(owners) == old(LeakedBlocks(owners))
        invariant live == records.Keys && IsInitial(live, i) && shared.Some? && freed == old(freed)
        invariant i == 0 ==> live == {} && shared == old(shared)
        invariant FirstFailure(plan, resolves, processors, 0) == FirstFailure(plan, resolves, processors, i)
        invariant Recorded(plan, resolves, processors, 0) == 0 ==> i == 0
        invariant recorded + Recorded(plan, resolves, processors, i)
               == old(recorded) + Recorded(plan, resolves, processors, 0)
      {
        if !resolves(i) {
          StartEnd(plan, resolves, processors, i);
          ok := false;
          return;
        }
        ghost var before := records;
        StartNext(plan, resolves, processors, i);
        assert i == 0 ==> before == map[];
        assert i > 0 ==> 0 in before;
        ok := StartVm(i, plan);
        if !ok {
          return;
        }
        assert records.Keys == before.Keys + {i} by {
          assert before.Keys == (records - {i}).Keys;
        }
        i := i + 1;
      }
      StartEnd(plan, resolves, processors, i);
    }

    // UtilForEachProcessor(VmpStopVm): stops at the first failure.
    method StopAll() returns (ok: bool)
      requires Settled()
      modifies `pool, `owners, `records, `shared, `freed, `live
      ensures Settled() && LeakedBlocks(owners) == old(LeakedBlocks(owners))
      ensures live == Remaining(old(live), resolves, processors)
      ensures ok <==> FirstUnstoppable(old(live), resolves, processors, 0) == processors
      ensures freed == old(freed) + if live == {} && old(live) != {} then 1 else 0
    {
      hide Valid, LeakedBlocks, From, FirstUnstoppable;
      ghost var before := live;
      ok := true;
      var i := 0;
      FromNext(before, 0);
      while i < processors
        invariant 0 <= i <= processors && Settled() && LeakedBlocks(owners) == old(LeakedBlocks(owners))
        invariant live == From(before, i) && ok
        invariant freed == old(freed) + if live == {} && before != {} then 1 else 0
        invariant FirstUnstoppable(before, resolves, processors, 0) == FirstUnstoppable(before, resolves, processors, i)
      {
        NextUnstoppable(before, resolves, processors, i);
        FromNext(before, i);
        if !resolves(i) {
          ok := false;
          return;
        }
        ok := StopVm(i);
        if !ok {
          return;
        }
        i := i + 1;
      }
      NextUnstoppable(before, resolves, processors, i);
    }

    // What a failed VmInitialization leaves behind: shared data that no
    // record counts is never freed.
    method Abandon()
      requires Valid() && records == map[]
      modifies `owners, `shared, `lost
      ensures Settled() && shared == None
      ensures lost == old(lost) + if old(shared).Some? then 1 else 0
      ensures LeakedBlocks(owners) ==
        old(LeakedBlocks(owners)) + if old(shared).Some? then Parts(old(shared.value)) else {}
    {
      hide Ledger;
      if shared.Some? {
        AbandonedLedger(owners, shared.value);
        owners := map b | b in owners :: if owners[b].OfShared? then Leaked else owners[b];
        shared, lost := None, lost + 1;
      }
    }

    // The shared data, stored when complete.
    method CreateShared(plan: Schedule) returns (ok: bool)
      requires Settled() && live == {}
      modifies `pool, `owners, `shared, `created
      ensures Valid() && LeakedBlocks(owners) == old(LeakedBlocks(owners))
      ensures ok <==> shared.Some?
      ensures ok <==> CreatesShared(plan)
      ensures ok ==> |LeakedBlocks(owners) + Parts(shared.value)| == |LeakedBlocks(owners)| + 3
      ensures if ok then created == old(created) + 1 else created == old(created) && owners == old(owners)
    {
      hide LeakedBlocks, Ledger;
      var data := InitializeSharedData(plan);
      ok := data.Some?;
      if ok {
        assert records == map[];
        AddShared(old(owners), data.value);
        SharedInLedger(owners, map[], data);
        ThreeMore(owners, data.value);
        shared, created := data, created + 1;
      }
    }

    // The failure path of VmInitialization: stops what was started.
    method Undo(ghost k: nat)
      requires Valid() && live == records.Keys
      requires k <= processors && IsInitial(live, k) && forall j: nat :: j < k ==> resolves(j)
      modifies `pool, `owners, `records, `shared, `freed, `lost, `live
      ensures Settled() && live == {}
      ensures old(live) != {} ==> freed == old(freed) + 1 && lost == old(lost)
      ensures old(live) == {} ==> freed == old(freed) && lost == old(lost) + if old(shared).Some? then 1 else 0
      ensures LeakedBlocks(owners) ==
        old(LeakedBlocks(owners)) + if old(live) == {} && old(shared).Some? then Parts(old(shared.value)) else {}
    {
      hide LeakedBlocks, Valid, IsInitial, Remaining;
      InitialStops(live, resolves, processors, k);
      if live == {} {
        assert records == map[];
        Abandon();
      }
      var stopped := StopAll();
    }

    // VmInitialization on processor `current`.  `vmx` says whether the features
    // are available, and `monitor` whether DmEnableMonitor succeeds.  All
    // processors are virtualized or none is.  On failure the shared data is
    // freed if processor 0 can be switched to and has memory for its record,
    // and lost if not.
    method Initialize(current: nat, vmx: bool, monitor: bool, plan: Schedule) returns (ok: bool)
      requires Settled() && processors > 0 && (current in live || live == {})
      modifies `pool, `owners, `records, `shared, `created, `freed, `lost, `live, `recorded
      ensures Settled()
      ensures ok <==>
        && old(live) == {} && vmx && CreatesShared(plan)
        && FirstFailure(plan, resolves, processors, 0) == processors && monitor
      ensures if ok then IsInitial(live, processors) else live == old(live)
      ensures created == old(created) + if old(live) == {} && vmx && CreatesShared(plan) then 1 else 0
      ensures ok || created == old(created) ==>
        freed == old(freed) && lost == old(lost) && LeakedBlocks(owners) == old(LeakedBlocks(owners))
      ensures !ok && created > old(created) ==>
        if resolves(0) && plan.fields(0, Data)
        then freed == old(freed) + 1 && lost == old(lost) && LeakedBlocks(owners) == old(LeakedBlocks(owners))
        else freed == old(freed) && lost == old(lost) + 1 && |LeakedBlocks(owners)| == |old(LeakedBlocks(owners))| + 3
    {
      hide LeakedBlocks, Valid, IsInitial, Starts, FirstFailure, Recorded, Parts, CreatesShared;
      ok := false;
      if current in live || !vmx {
        return;
      }
      ok := CreateShared(plan);
      if !ok {
        assert Settled() by { NothingLive(); }
        return;
      }
      NothingLive();
      LossExact(plan, resolves, processors);
      ok := StartAll(plan);
      ghost var k := FirstFailure(plan, resolves, processors, 0);
      InitialNotEmpty(live, k);
      if ok && monitor {
        return;
      }
      ok := false;
      Undo(k);
    }

    // Such an input: processor 0 cannot be switched to.  The header and both
    // bitmaps stay allocated for good.
    method LosesSharedData(current: nat, monitor: bool, plan: Schedule)
      requires Settled() && processors > 0 && live == {} && CreatesShared(plan) && !resolves(0)
      modifies `pool, `owners, `records, `shared, `created, `freed, `lost, `live, `recorded
      ensures shared == None && lost == old(lost) + 1 && freed == old(freed)
      ensures |LeakedBlocks(owners)| == |old(LeakedBlocks(owners))| + 3
    {
      var ok := Initialize(current, true, monitor, plan);
    }

    // VmTermination: whether all processors are devirtualized afterwards.
    method Terminate() returns (ok: bool)
      requires Settled()
      modifies `pool, `owners, `records, `shared, `freed, `live
      ensures Settled() && LeakedBlocks(owners) == old(LeakedBlocks(owners))
      ensures live == Remaining(old(live), resolves, processors) <= old(live)
      ensures forall i: nat :: i in old(live) ==>
        (i in live <==> exists j: nat :: j <= i && (j !in old(live) || !resolves(j)))
      ensures ok <==> FirstUnstoppable(old(live), resolves, processors, 0) == processors
      ensures live == {} <==> exists k: nat :: IsInitial(old(live), k) && forall j: nat :: j < k ==> resolves(j)
      ensures freed == old(freed) + if live == {} && old(live) != {} then 1 else 0
      ensures shared == None <==> live == {}
    {
      hide LeakedBlocks, Ledger, Remaining, IsInitial, ProcessorData.Complete;
      StopsAllExact(live, resolves, processors);
      forall i: nat | i in live
        ensures i in Remaining(live, resolves, processors) <==>
          exists j: nat :: j <= i && (j !in live || !resolves(j))
      {
        RemainingExact(live, resolves, processors, i);
      }
      RemainingWithin(live, resolves, processors);
      ok := StopAll();
    }

    // VmHotplugCallback for a processor that has just been added; `current` is
    // the processor that is asked for the shared data.
    method Hotplug(current: nat, plan: Schedule) returns (ok: bool)
      requires Settled()
      modifies `processors, `pool, `owners, `records, `shared, `freed, `live, `recorded
      ensures Settled() && LeakedBlocks(owners) == old(LeakedBlocks(owners))
      ensures processors == old(processors) + 1
      ensures live == old(live) + if ok then {old(processors)} else {}
      ensures ok <==> current in old(live) && Starts(plan, old(processors))
      ensures freed == old(freed)
    {
      hide LeakedBlocks, Ledger, ProcessorData.Complete, Starts;
      var i := processors;
      processors := processors + 1;
      if current !in live {
        return false;
      }
      hide Valid;
      ghost var before := records;
      ok := StartVm(i, plan);
      if ok {
        assert records.Keys == before.Keys + {i} by {
          assert before.Keys == (records - {i}).Keys;
        }
      }
    }

    lemma {:induction false} NothingLive()
      requires Valid() && live == records.Keys == {}
      ensures records == map[] && (shared == None ==> Settled())
    {
    }
  }

  lemma RemainingWithin(live: set<nat>, resolves: nat -> bool, n: nat)
    ensures Remaining(live, resolves, n) <= live
  {
  }

  lemma {:induction false} AbandonedLedger(owners: Owners, s: SharedData)
    requires Ledger(owners, map[], Some(s))
    ensures var after := map b | b in owners :: if owners[b].OfShared? then Leaked else owners[b];
      && Ledger(after, map[], None) && after.Keys == owners.Keys
      && LeakedBlocks(after) == LeakedBlocks(owners) + Parts(s)
  {
    assert s.Field(Header) in owners && s.Field(MsrBitmap) in owners && s.Field(IoBitmaps) in owners;
  }

  lemma {:induction false} InitialStops(live: set<nat>, resolves: nat -> bool, n: nat, k: nat)
    requires k <= n && IsInitial(live, k) && forall j: nat :: j < k ==> resolves(j)
    ensures Remaining(live, resolves, n) == {} && Remaining({}, resolves, n) == {}
  {
    assert Below(live, n);
    StopsAllExact(live, resolves, n);
  }

  lemma {:induction false} InitialNotEmpty(live: set<nat>, n: nat)
    requires IsInitial(live, n)
    ensures live == {} <==> n == 0
  {
    assert 0 in live <==> 0 < n;
  }

  lemma NextUnstoppable(live: set<nat>, resolves: nat -> bool, n: nat, i: nat)
    requires i <= n
    ensures FirstUnstoppable(live, resolves, n, i) ==
      if i == n || i !in live || !resolves(i) then i else FirstUnstoppable(live, resolves, n, i + 1)
  {
  }

  lemma {:induction false} SameKeys(records: map<nat, ProcessorData>, i: nat, d: ProcessorData)
    requires i in records
    ensures records[i := d].Keys == records.Keys && |records[i := d]| == |records|
    ensures records[i := d] - {i} == records - {i}
  {
    var changed := records[i := d];
    assert changed.Keys == records.Keys;
    assert |changed.Keys| == |changed| && |records.Keys| == |records|;
  }

  lemma {:induction false} OneMore(records: map<nat, ProcessorData>, i: nat, d: ProcessorData)
    requires i !in records
    ensures |records[i := d]| == |records| + 1 && records[i := d].Keys == records.Keys + {i}
    ensures records[i := d] - {i} == records
    ensures forall n :: Below(records.Keys, n) && i < n ==> Below(records[i := d].Keys, n)
  {
    var more := records[i := d];
    assert more.Keys == records.Keys + {i};
    assert |more.Keys| == |records.Keys| + 1;
  }

  // The ledger when all of a record but its own block has been freed.
  function HeaderLeft(owners: Owners, d: ProcessorData): Owners {
    owners - (Fields(d) - {d.block})
  }

  function With(d: ProcessorData, r: Role, b: nat): ProcessorData {
    match r
    case Data => d.(block := b)
    case Ept => d.(ept := Some(b))
    case Stack => d.(stack := Some(b))
    case Vmcs => d.(vmcs := Some(b))
    case Vmxon => d.(vmxon := Some(b))
  }

  lemma RecordInLedger(owners: Owners, records: map<nat, ProcessorData>, shared: Option<SharedData>, i: nat)
    requires Ledger(owners, records, shared) && i in records
    ensures RecordOwned(owners, i, records[i])
  {
  }

  lemma SharedInLedger(owners: Owners, records: map<nat, ProcessorData>, shared: Option<SharedData>)
    requires Ledger(owners, records, shared)
    ensures SharedOwned(owners, shared)
  {
  }

  // Freeing a record's fields leaves its header and the shared data.
  lemma {:induction false} SharedAfterFields(owners: Owners, records: map<nat, ProcessorData>, s: SharedData, i: nat)
    requires Ledger(owners, records, Some(s)) && i in records
    ensures var o := HeaderLeft(owners, records[i]);
      forall p: Part :: s.Field(p) in o && o[s.Field(p)] == OfShared(p)
  {
    var d := records[i];
    forall p: Part
      ensures s.Field(p) !in Fields(d)
    {
      if s.Field(p) in Fields(d) {
        FieldOwned(owners, i, d, s.Field(p));
      }
    }
  }

  lemma {:induction false} AfterShared(owners: Owners, records: map<nat, ProcessorData>, s: SharedData, i: nat)
    requires Ledger(owners, records, Some(s)) && i in records
    ensures var d := records[i];
      var o := HeaderLeft(owners, d);
      d.block in o && d.block in o - Parts(s) && o[d.block] != Leaked
  {
    var d := records[i];
    AllFieldsDiffer(owners, i, d);
    PartsDiffer(owners, s);
  }

  lemma {:induction false} OneFewer(records: map<nat, ProcessorData>, i: nat)
    requires i in records
    ensures |records - {i}| == |records| - 1 && (records - {i}).Keys == records.Keys - {i}
    ensures forall n :: Below(records.Keys, n) ==> Below((records - {i}).Keys, n)
    ensures |records| == 1 <==> records - {i} == map[]
  {
    var rest := records - {i};
    assert records.Keys == rest.Keys + {i};
    assert |records.Keys| == |rest.Keys| + 1;
  }

  lemma {:induction false} FreedLedger(
      before: Owners, after: Owners, records: map<nat, ProcessorData>, s: SharedData, i: nat, last: bool)
    requires Ledger(before, records, Some(s)) && i in records && (last ==> records - {i} == map[])
    requires var d := records[i];
      var o := HeaderLeft(before, d);
      after == (if last then o - Parts(s) else o) - {d.block}
    ensures Ledger(after, records - {i}, if last then None else Some(s.(references := s.references - 1)))
  {
    var d := records[i];
    RemoveRecord(before, records, Some(s), i);
    var o := before - Fields(d);
    if last {
      RemoveShared(o, s);
      assert after == o - Parts(s);
    } else {
      assert after == o;
      SameParts(o, records - {i}, s, s.(references := s.references - 1));
    }
  }

  // The count is not part of the ledger.
  lemma {:induction false} SameParts(owners: Owners, records: map<nat, ProcessorData>, s: SharedData, t: SharedData)
    requires Ledger(owners, records, Some(s)) && t == s.(references := t.references)
    ensures Ledger(owners, records, Some(t))
  {
    assert forall p: Part :: t.Field(p) == s.Field(p);
  }

  lemma {:induction false} SomeFree(pool: set<nat>)
    ensures exists b: nat :: b !in pool
  {
    var b := Above(pool);
    assert b !in pool;
  }

  lemma {:induction false} Above(pool: set<nat>) returns (b: nat)
    ensures forall p <- pool :: p < b
  {
    b := 0;
    if pool != {} {
      var p :| p in pool;
      var rest := pool - {p};
      b := Above(rest);
      b := if p < b then b else p + 1;
      assert forall q <- pool :: q == p || q in rest;
    }
  }

  lemma CompleteIs(d: ProcessorData)
    ensures d.Complete() <==> d.ept.Some? && d.stack.Some? && d.vmcs.Some? && d.vmxon.Some?
  {
  }

  lemma FieldsAre(d: ProcessorData)
    ensures d.Field(Ept) == d.ept && d.Field(Stack) == d.stack
    ensures d.Field(Vmcs) == d.vmcs && d.Field(Vmxon) == d.vmxon
  {
  }

  // The shared data's blocks, once lost, are three more lost ones.
  lemma {:induction false} ThreeMore(owners: Owners, s: SharedData)
    requires SharedOwned(owners, Some(s))
    ensures |LeakedBlocks(owners) + Parts(s)| == |LeakedBlocks(owners)| + 3
  {
    PartsDiffer(owners, s);
    var lost := LeakedBlocks(owners);
    assert s.block !in lost && s.msrBitmap !in lost && s.ioBitmaps !in lost;
    assert lost + Parts(s) == lost + {s.block} + {s.msrBitmap} + {s.ioBitmaps};
  }

  // The ledger entries that a complete SharedProcessorData makes.
  ghost predicate NewShared(before: Owners, after: Owners, s: SharedData) {
    && Parts(s) !! before.Keys && s.block != s.msrBitmap && s.block != s.ioBitmaps && s.msrBitmap != s.ioBitmaps
    && s.references == 0
    && after ==
       before[s.block := OfShared(Header)][s.msrBitmap := OfShared(MsrBitmap)][s.ioBitmaps := OfShared(IoBitmaps)]
  }

  lemma {:induction false} PartsDiffer(owners: Owners, s: SharedData)
    requires forall p: Part :: s.Field(p) in owners && owners[s.Field(p)] == OfShared(p)
    ensures s.block in owners && owners[s.block] == OfShared(Header)
    ensures s.msrBitmap in owners && owners[s.msrBitmap] == OfShared(MsrBitmap)
    ensures s.ioBitmaps in owners && owners[s.ioBitmaps] == OfShared(IoBitmaps)
  {
    assert s.Field(Header) == s.block && s.Field(MsrBitmap) == s.msrBitmap && s.Field(IoBitmaps) == s.ioBitmaps;
  }

  lemma {:induction false} AllFieldsDiffer(owners: Owners, i: nat, d: ProcessorData)
    requires RecordOwned(owners, i, d)
    ensures d.block in owners && owners[d.block] == OfProcessor(i, Data)
    ensures d.ept.Some? ==> d.ept.value in owners && owners[d.ept.value] == OfProcessor(i, Ept)
    ensures d.stack.Some? ==> d.stack.value in owners && owners[d.stack.value] == OfProcessor(i, Stack)
    ensures d.vmcs.Some? ==> d.vmcs.value in owners && owners[d.vmcs.value] == OfProcessor(i, Vmcs)
    ensures d.vmxon.Some? ==> d.vmxon.value in owners && owners[d.vmxon.value] == OfProcessor(i, Vmxon)
  {
    assert d.Field(Data) == Some(d.block) && d.Field(Ept) == d.ept && d.Field(Stack) == d.stack;
    assert d.Field(Vmcs) == d.vmcs && d.Field(Vmxon) == d.vmxon;
  }
}
