// The open-addressing cache of decoded instructions (Fuzzer.cpp).
module InstructionCache {

  const FUZZ_RECORD_LEN := 0xFFFF

  // ACCESSRECORD; a zero RIP marks an empty slot.
  datatype Access = Access(rip: nat, desRegId: nat)

  // How instructions are placed and decoded: the page frame of a RIP, and the
  // destination register that the disassembler finds.
  datatype Code = Code(pfn: nat -> nat, decode: nat -> nat)

  // The slot a RIP is looked up in first.
  function Home(c: Code, rip: nat): (h: nat)
    ensures h < FUZZ_RECORD_LEN
  {
    c.pfn(rip) % FUZZ_RECORD_LEN
  }

  // The k-th slot probed from h.
  function Probe(h: nat, k: nat): (i: nat)
    ensures i < FUZZ_RECORD_LEN
  {
    (h + k) % FUZZ_RECORD_LEN
  }

  ghost predicate Contains(t: seq<Access>, rip: nat) {
    exists i :: 0 <= i < |t| && t[i].rip == rip
  }

  // The cached RIPs.
  ghost function Cached(t: seq<Access>): set<nat> {
    set i | 0 <= i < |t| && t[i].rip != 0 :: t[i].rip
  }

  ghost predicate Full(t: seq<Access>) {
    forall i :: 0 <= i < |t| ==> t[i].rip != 0
  }

  // Each slot says what the decoder says, no RIP has two slots, and a RIP away
  // from its home found that slot taken -- which it still is.
  ghost predicate Inv(c: Code, t: seq<Access>) {
    && |t| == FUZZ_RECORD_LEN
    && (forall i :: 0 <= i < |t| && t[i].rip != 0 ==> t[i].desRegId == c.decode(t[i].rip))
    && (forall i, j :: 0 <= i < j < |t| && t[i].rip != 0 ==> t[i].rip != t[j].rip)
    && (forall i :: 0 <= i < |t| && t[i].rip != 0 ==> t[Home(c, t[i].rip)].rip != 0)
  }

  // The first empty slot from the k-th probe on; h again if there is none.
  function EmptyFrom(t: seq<Access>, h: nat, k: nat): (i: nat)
    requires |t| == FUZZ_RECORD_LEN && h < FUZZ_RECORD_LEN && k <= FUZZ_RECORD_LEN
    ensures i < FUZZ_RECORD_LEN
    decreases FUZZ_RECORD_LEN - k
  {
    if k == FUZZ_RECORD_LEN || t[Probe(h, k)].rip == 0 then Probe(h, k) else EmptyFrom(t, h, k + 1)
  }

  // The table after a lookup.
  ghost function Next(c: Code, t: seq<Access>, rip: nat): (r: seq<Access>)
    requires |t| == FUZZ_RECORD_LEN
    ensures |r| == |t|
  {
    if Contains(t, rip) then t
    else t[EmptyFrom(t, Home(c, rip), 0) := Access(rip, c.decode(rip))]
  }

  // A new RIP goes to slot i if the table has an empty slot, i is one, and every
  // slot from its page frame's on, modulo the length of the table, up to i is
  // taken; to its page frame's slot when the table is full.
  lemma {:induction false} StoredAt(c: Code, t: seq<Access>, rip: nat, i: nat)
    requires |t| == FUZZ_RECORD_LEN && !Contains(t, rip) && i < FUZZ_RECORD_LEN
    requires var first := c.pfn(rip) % FUZZ_RECORD_LEN;
      if Full(t) then i == first
      else
        && t[i].rip == 0
        && forall j :: 0 <= j < FUZZ_RECORD_LEN && Distance(first, j) < Distance(first, i) ==> t[j].rip != 0
    ensures Next(c, t, rip) == t[i := Access(rip, c.decode(rip))]
  {
    var h := Home(c, rip);
    if Full(t) {
      EmptyFromIs(t, h, 0);
    } else {
      FirstEmpty(t, h, i, 0);
    }
  }

  // How many slots j lies behind i, going round.
  function Distance(i: nat, j: nat): (d: nat)
    requires i < FUZZ_RECORD_LEN && j < FUZZ_RECORD_LEN
    ensures d < FUZZ_RECORD_LEN
  {
    if j >= i then j - i else j + FUZZ_RECORD_LEN - i
  }

  lemma DistanceOfProbe(h: nat, k: nat)
    requires h < FUZZ_RECORD_LEN && k < FUZZ_RECORD_LEN
    ensures Distance(h, Probe(h, k)) == k
    ensures forall i :: 0 <= i < FUZZ_RECORD_LEN && Distance(h, i) == k ==> Probe(h, k) == i
  {
  }

  lemma {:induction false} FirstEmpty(t: seq<Access>, h: nat, i: nat, k: nat)
    requires |t| == FUZZ_RECORD_LEN && h < FUZZ_RECORD_LEN && i < FUZZ_RECORD_LEN && t[i].rip == 0
    requires forall j :: 0 <= j < FUZZ_RECORD_LEN && Distance(h, j) < Distance(h, i) ==> t[j].rip != 0
    requires k <= Distance(h, i)
    ensures EmptyFrom(t, h, k) == i
    decreases FUZZ_RECORD_LEN - k
  {
    DistanceOfProbe(h, k);
    hide Probe, Distance;
    if k < Distance(h, i) {
      FirstEmpty(t, h, i, k + 1);
    }
  }

  // Probing reaches every slot.
  lemma {:induction false} ProbeReaches(h: nat, i: nat) returns (k: nat)
    requires h < FUZZ_RECORD_LEN && i < FUZZ_RECORD_LEN
    ensures k < FUZZ_RECORD_LEN && Probe(h, k) == i
  {
    k := if i >= h then i - h else i + FUZZ_RECORD_LEN - h;
  }

  lemma {:induction false} NotProbedNotContained(t: seq<Access>, h: nat, rip: nat)
    requires |t| == FUZZ_RECORD_LEN && h < FUZZ_RECORD_LEN
    requires forall k :: 0 <= k < FUZZ_RECORD_LEN ==> t[Probe(h, k)].rip != rip
    ensures !Contains(t, rip)
  {
    forall i | 0 <= i < |t|
      ensures t[i].rip != rip
    {
      var k := ProbeReaches(h, i);
      assert t[Probe(h, k)].rip != rip;
    }
  }

  // The chosen slot is empty unless the table is full; then it is the home.
  lemma {:induction false} EmptyFromIs(t: seq<Access>, h: nat, k: nat)
    requires |t| == FUZZ_RECORD_LEN && h < FUZZ_RECORD_LEN && k <= FUZZ_RECORD_LEN
    requires forall l :: 0 <= l < k ==> t[Probe(h, l)].rip != 0
    ensures var i := EmptyFrom(t, h, k);
      if t[i].rip == 0 then !Full(t) else Full(t) && i == h
    decreases FUZZ_RECORD_LEN - k
  {
    if k == FUZZ_RECORD_LEN {
      forall i | 0 <= i < |t|
        ensures t[i].rip != 0
      {
        var l := ProbeReaches(h, i);
        assert t[Probe(h, l)].rip != 0;
      }
    } else if t[Probe(h, k)].rip != 0 {
      EmptyFromIs(t, h, k + 1);
    }
  }

  // An empty home slot is where a new RIP goes, and no slot holds it.
  lemma {:induction false} EmptyHome(c: Code, t: seq<Access>, rip: nat)
    requires Inv(c, t) && rip != 0 && t[Home(c, rip)].rip == 0
    ensures !Contains(t, rip) && EmptyFrom(t, Home(c, rip), 0) == Home(c, rip)
  {
    hide Home;
    forall i | 0 <= i < |t|
      ensures t[i].rip != rip
    {
      assert t[i].rip != 0 ==> t[Home(c, t[i].rip)].rip != 0;
    }
    assert Probe(Home(c, rip), 0) == Home(c, rip);
  }

  lemma {:induction false} NextKeepsInv(c: Code, t: seq<Access>, rip: nat)
    requires Inv(c, t) && rip != 0
    ensures Inv(c, Next(c, t, rip)) && Contains(Next(c, t, rip), rip)
  {
    if !Contains(t, rip) {
      var h := Home(c, rip);
      EmptyFromIs(t, h, 0);
      var s := EmptyFrom(t, h, 0);
      var r := Next(c, t, rip);
      assert r[s].rip == rip;
      assert forall i :: 0 <= i < |t| ==> t[i].rip != rip;
      if t[h].rip == 0 {
        EmptyHome(c, t, rip);
      }
      assert r[h].rip != 0;
    }
  }

  // A miss adds the RIP; when the table is full it replaces the home slot.
  lemma {:induction false} NextCached(c: Code, t: seq<Access>, rip: nat)
    requires Inv(c, t) && rip != 0
    ensures var r := Next(c, t, rip);
      if Contains(t, rip) then r == t
      else if Full(t) then
        r == t[Home(c, rip) := Access(rip, c.decode(rip))]
        && Cached(r) == Cached(t) - {t[Home(c, rip)].rip} + {rip}
      else Cached(r) == Cached(t) + {rip}
  {
    if !Contains(t, rip) {
      var h := Home(c, rip);
      EmptyFromIs(t, h, 0);
      CachedUpdate(t, EmptyFrom(t, h, 0), Access(rip, c.decode(rip)));
      if Full(t) {
        assert forall j :: 0 <= j < |t| && j != h ==> t[j].rip != t[h].rip;
      }
    }
  }

  lemma {:induction false} CachedUpdate(t: seq<Access>, s: nat, a: Access)
    requires s < |t| && a.rip != 0 && a.rip !in Cached(t)
    requires forall i :: 0 <= i < |t| && i != s && t[s].rip != 0 ==> t[i].rip != t[s].rip
    ensures Cached(t[s := a]) == (if t[s].rip == 0 then Cached(t) else Cached(t) - {t[s].rip}) + {a.rip}
  {
    var r := t[s := a];
    forall x | x in Cached(t) && x != t[s].rip
      ensures x in Cached(r)
    {
      var i :| 0 <= i < |t| && t[i].rip == x;
      assert r[i].rip == x;
    }
    assert r[s].rip in Cached(r);
    forall x | x in Cached(r) && x != a.rip
      ensures x in Cached(t) && x != t[s].rip
    {
      var i :| 0 <= i < |r| && r[i].rip == x;
      assert t[i].rip == x && i != s;
    }
  }

  // ---------------------------------------------------------------------
  // Runs
  // ---------------------------------------------------------------------

  function EmptyTable(): (t: seq<Access>)
    ensures |t| == FUZZ_RECORD_LEN
  {
    seq(FUZZ_RECORD_LEN, i => Access(0, 0))
  }

  // The table after looking up a sequence of RIPs.
  ghost function After(c: Code, rips: seq<nat>): (t: seq<Access>)
    ensures |t| == FUZZ_RECORD_LEN
  {
    if rips == [] then EmptyTable() else Next(c, After(c, rips[..|rips| - 1]), rips[|rips| - 1])
  }

  function Distinct(rips: seq<nat>): set<nat> {
    set x | x in rips
  }

  // Occupied slots and cached RIPs are equally many.
  lemma {:induction false} CachedSize(t: seq<Access>)
    requires forall i, j :: 0 <= i < j < |t| && t[i].rip != 0 ==> t[i].rip != t[j].rip
    ensures |Cached(t)| <= |t| && (|Cached(t)| == |t| <==> Full(t))
  {
    if t != [] {
      var front, last := t[..|t| - 1], t[|t| - 1];
      CachedSize(front);
      assert Full(t) <==> Full(front) && last.rip != 0;
      assert Cached(t) == Cached(front) + if last.rip != 0 then {last.rip} else {} by {
        CachedFront(t);
      }
      assert last.rip !in Cached(front) || last.rip == 0;
    }
  }

  lemma {:induction false} CachedFront(t: seq<Access>)
    requires t != []
    ensures var front, last := t[..|t| - 1], t[|t| - 1];
      Cached(t) == Cached(front) + if last.rip != 0 then {last.rip} else {}
  {
    var front, last := t[..|t| - 1], t[|t| - 1];
    forall x | x in Cached(front)
      ensures x in Cached(t)
    {
      var i :| 0 <= i < |front| && front[i].rip == x;
      assert t[i].rip == x;
    }
    if last.rip != 0 {
      assert t[|t| - 1].rip in Cached(t);
    }
    forall x | x in Cached(t) && x != last.rip
      ensures x in Cached(front)
    {
      var i :| 0 <= i < |t| && t[i].rip == x;
      assert front[i].rip == x;
    }
  }

  lemma {:induction false} AfterKeepsInv(c: Code, rips: seq<nat>)
    requires 0 !in rips
    ensures Inv(c, After(c, rips))
  {
    if rips != [] {
      AfterKeepsInv(c, rips[..|rips| - 1]);
      NextKeepsInv(c, After(c, rips[..|rips| - 1]), rips[|rips| - 1]);
    }
  }

  // After any lookups, the cache holds exactly the RIPs seen while these are no
  // more than its slots, and is full from then on.
  lemma {:induction false} AfterExact(c: Code, rips: seq<nat>)
    requires 0 !in rips
    ensures var t := After(c, rips);
      && (|Distinct(rips)| <= FUZZ_RECORD_LEN ==> Cached(t) == Distinct(rips))
      && (Full(t) <==> |Distinct(rips)| >= FUZZ_RECORD_LEN)
  {
    if rips == [] {
      assert EmptyTable()[0].rip == 0;
      assert Distinct(rips) == {};
    } else {
      var front, rip := rips[..|rips| - 1], rips[|rips| - 1];
      AfterExact(c, front);
      AfterKeepsInv(c, front);
      AfterKeepsInv(c, rips);
      assert Distinct(rips) == Distinct(front) + {rip};
      NextExact(c, After(c, front), rip, Distinct(front));
    }
  }

  lemma {:induction false} NextExact(c: Code, t: seq<Access>, rip: nat, seen: set<nat>)
    requires Inv(c, t) && rip != 0
    requires |seen| <= FUZZ_RECORD_LEN ==> Cached(t) == seen
    requires Full(t) <==> |seen| >= FUZZ_RECORD_LEN
    ensures var r := Next(c, t, rip);
      && (|seen + {rip}| <= FUZZ_RECORD_LEN ==> Cached(r) == seen + {rip})
      && (Full(r) <==> |seen + {rip}| >= FUZZ_RECORD_LEN)
  {
    var r := Next(c, t, rip);
    NextKeepsInv(c, t, rip);
    NextCached(c, t, rip);
    CachedSize(t);
    CachedSize(r);
    ContainsCached(t, rip);
    SeenStep(seen, Cached(t), Cached(r), rip, Full(t), Full(r));
  }

  lemma {:induction false} SeenStep(
      seen: set<nat>, before: set<nat>, after: set<nat>, rip: nat, full: bool, fullAfter: bool)
    requires |seen| <= FUZZ_RECORD_LEN ==> before == seen
    requires full <==> |seen| >= FUZZ_RECORD_LEN
    requires |before| <= FUZZ_RECORD_LEN && (full <==> |before| == FUZZ_RECORD_LEN)
    requires |after| <= FUZZ_RECORD_LEN && (fullAfter <==> |after| == FUZZ_RECORD_LEN)
    requires rip in before ==> after == before
    requires !full ==> after == before + {rip}
    requires full ==> fullAfter
    ensures |seen + {rip}| <= FUZZ_RECORD_LEN ==> after == seen + {rip}
    ensures fullAfter <==> |seen + {rip}| >= FUZZ_RECORD_LEN
  {
    if rip in seen {
      assert seen + {rip} == seen;
    } else {
      assert |seen + {rip}| == |seen| + 1;
    }
  }

  lemma ContainsCached(t: seq<Access>, rip: nat)
    requires rip != 0
    ensures Contains(t, rip) <==> rip in Cached(t)
  {
  }

  // ---------------------------------------------------------------------
  // The code
  // ---------------------------------------------------------------------

  class Fuzzer {
    const code: Code
    const record: array<Access>

    ghost predicate Valid()
      reads record
    {
      record.Length == FUZZ_RECORD_LEN && Inv(code, record[..])
    }

    constructor (code: Code)
      ensures Valid() && fresh(record) && record[..] == EmptyTable() && this.code == code
    {
      this.code := code;
      record := new Access[FUZZ_RECORD_LEN](i => Access(0, 0));
    }

    // GetRegIndexByRip.
    method GetRegIndexByRip(rip: nat) returns (register: nat)
      requires Valid() && rip != 0
      modifies record
      ensures Valid() && register == code.decode(rip)
      ensures record[..] == Next(code, old(record[..]), rip)
    {
      hide Inv, Home, Probe;
      NextKeepsInv(code, record[..], rip);
      ghost var t, h := record[..], Home(code, rip);
      var index := code.pfn(rip) % FUZZ_RECORD_LEN;
      AtHome(code, t, rip, index);
      if record[index].rip == 0 {
        record[index] := Access(rip, code.decode(rip));
        return record[index].desRegId;
      } else if record[index].rip == rip {
        HitIsDecoded(code, t, index);
        return record[index].desRegId;
      }
      var count := 0;
      while record[index].rip != rip && count < FUZZ_RECORD_LEN
        invariant 0 <= count <= FUZZ_RECORD_LEN && index == Probe(h, count) && record[..] == t
        invariant forall k :: 0 <= k < count ==> t[Probe(h, k)].rip != rip
        decreases FUZZ_RECORD_LEN - count
      {
        index := (index + 1) % FUZZ_RECORD_LEN;
        ProbeNext(h, count);
        count := count + 1;
      }
      if count < FUZZ_RECORD_LEN {
        HitIsDecoded(code, t, index);
        return record[index].desRegId;
      }
      NotProbedNotContained(t, h, rip);
      index := code.pfn(rip) % FUZZ_RECORD_LEN;
      AtHome(code, t, rip, index);
      count := 0;
      while record[index].rip != 0 && count < FUZZ_RECORD_LEN
        invariant 0 <= count <= FUZZ_RECORD_LEN && index == Probe(h, count) && record[..] == t
        invariant EmptyFrom(t, h, 0) == EmptyFrom(t, h, count)
        decreases FUZZ_RECORD_LEN - count
      {
        index := (index + 1) % FUZZ_RECORD_LEN;
        ProbeNext(h, count);
        count := count + 1;
      }
      record[index] := Access(rip, code.decode(rip));
      register := record[index].desRegId;
    }
  }

  lemma AtHome(c: Code, t: seq<Access>, rip: nat, index: nat)
    requires Inv(c, t) && rip != 0 && index == c.pfn(rip) % FUZZ_RECORD_LEN
    ensures index < FUZZ_RECORD_LEN && index == Home(c, rip) == Probe(Home(c, rip), 0)
    ensures t[index].rip == 0 ==> !Contains(t, rip) && EmptyFrom(t, index, 0) == index
  {
  }

  lemma ProbeNext(h: nat, k: nat)
    requires h < FUZZ_RECORD_LEN
    ensures (Probe(h, k) + 1) % FUZZ_RECORD_LEN == Probe(h, k + 1)
  {
  }

  lemma HitIsDecoded(c: Code, t: seq<Access>, i: nat)
    requires Inv(c, t) && i < |t| && t[i].rip != 0
    ensures t[i].desRegId == c.decode(t[i].rip) && Contains(t, t[i].rip)
  {
  }
}
