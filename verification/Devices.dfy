// The list of monitored devices and the discovery of their BARs (DevMon.cpp).
module Devices {
  import opened Wrappers
  import opened EptTree
  import opened MonitorProtocol
  import opened BarPages

  const MAX_BAR_INDEX := 6

  // The configurable part of PCIMONITORCFG.  `wide` marks the 64-bit BARs.
  datatype PciDevice = PciDevice(barCount: nat, wide: seq<bool>, bars: seq<Bar>, hasCallback: bool)

  // What PCI configuration space says: the size and the address at a BAR offset
  // of a device, and how the device's callback joins two halves of an address.
  datatype PciSpace = PciSpace(size: (nat, nat) -> nat, address: (nat, nat) -> nat, join: (nat, nat, nat) -> nat)

  ghost predicate WellFormed(d: PciDevice) {
    |d.wide| == MAX_BAR_INDEX && |d.bars| == MAX_BAR_INDEX && d.barCount <= MAX_BAR_INDEX
  }

  ghost predicate AllWellFormed(list: seq<PciDevice>) {
    forall i :: 0 <= i < |list| ==> WellFormed(list[i])
  }

  // The BAR that DmInitBarInfo finds, or None when it leaves the old values.
  function FoundBar(pci: PciSpace, device: nat, d: PciDevice, offset: nat, bar: nat): Option<Bar>
    requires WellFormed(d) && bar < MAX_BAR_INDEX
  {
    if offset >= MAX_BAR_INDEX || pci.size(device, offset) == 0 then None
    else
      var lower := pci.address(device, offset);
      var address :=
        if d.wide[bar] && offset + 1 < MAX_BAR_INDEX
        then pci.join(device, lower, pci.address(device, offset + 1)) else lower;
      if address == 0 then None else Some(Bar(address, address + pci.size(device, offset)))
  }

  // The offset index at which BAR n of a device is looked up.
  function OffsetOf(d: PciDevice, n: nat): nat
    requires WellFormed(d) && n <= MAX_BAR_INDEX
  {
    if n == 0 then 0 else OffsetOf(d, n - 1) + (if d.wide[n - 1] then 2 else 1)
  }

  // The device after its first n BARs have been looked up.
  function Discovered(pci: PciSpace, device: nat, d: PciDevice, n: nat): (r: PciDevice)
    requires WellFormed(d) && n <= MAX_BAR_INDEX
    ensures WellFormed(r) && r.barCount == d.barCount && r.wide == d.wide && r.hasCallback == d.hasCallback
    ensures forall j :: n <= j < MAX_BAR_INDEX ==> r.bars[j] == d.bars[j]
  {
    if n == 0 then d
    else
      var p := Discovered(pci, device, d, n - 1);
      match FoundBar(pci, device, d, OffsetOf(d, n - 1), n - 1)
      case None => p
      case Some(bar) => p.(bars := p.bars[n - 1 := bar])
  }

  function DiscoveredList(pci: PciSpace, list: seq<PciDevice>, n: nat): (r: seq<PciDevice>)
    requires AllWellFormed(list) && n <= |list|
    ensures |r| == |list| && AllWellFormed(r)
  {
    seq(|list|, i requires 0 <= i < |list| =>
      if i < n then Discovered(pci, i, list[i], list[i].barCount) else list[i])
  }

  // While configuration space does not change, looking again changes nothing.
  lemma {:induction false} DiscoveryIsStable(pci: PciSpace, device: nat, d: PciDevice, m: nat, n: nat)
    requires WellFormed(d) && n <= m <= MAX_BAR_INDEX
    ensures Discovered(pci, device, Discovered(pci, device, d, m), n) == Discovered(pci, device, d, m)
  {
    if n > 0 {
      var e := Discovered(pci, device, d, m);
      DiscoveryIsStable(pci, device, d, m, n - 1);
      SameOffsets(d, e, n - 1);
      SameBar(pci, device, d, e, OffsetOf(d, n - 1), n - 1);
      BarAfterDiscovery(pci, device, d, m, n - 1);
      hide FoundBar, OffsetOf;
      var found := FoundBar(pci, device, e, OffsetOf(e, n - 1), n - 1);
      assert found.Some? ==> e.bars[n - 1 := found.value] == e.bars;
      assert Discovered(pci, device, e, n) ==
        match found case None => e case Some(bar) => e.(bars := e.bars[n - 1 := bar]);
    }
  }

  lemma SameBar(pci: PciSpace, device: nat, d: PciDevice, e: PciDevice, offset: nat, bar: nat)
    requires WellFormed(d) && WellFormed(e) && d.wide == e.wide && bar < MAX_BAR_INDEX
    ensures FoundBar(pci, device, d, offset, bar) == FoundBar(pci, device, e, offset, bar)
  {
  }

  lemma {:induction false} SameOffsets(d: PciDevice, e: PciDevice, n: nat)
    requires WellFormed(d) && WellFormed(e) && d.wide == e.wide && n <= MAX_BAR_INDEX
    ensures OffsetOf(d, n) == OffsetOf(e, n)
  {
    if n > 0 {
      SameOffsets(d, e, n - 1);
    }
  }

  // Discovery of one more BAR, as one call of DmInitBarInfo does it.
  function WithBar(d: PciDevice, bar: nat, found: Option<Bar>): (r: PciDevice)
    requires WellFormed(d) && bar < MAX_BAR_INDEX
    ensures WellFormed(r)
  {
    if found.Some? then d.(bars := d.bars[bar := found.value]) else d
  }

  lemma {:induction false} DiscoveredNext(pci: PciSpace, device: nat, d: PciDevice, n: nat)
    requires WellFormed(d) && n < MAX_BAR_INDEX
    ensures var p := Discovered(pci, device, d, n);
      Discovered(pci, device, d, n + 1) == WithBar(p, n, FoundBar(pci, device, p, OffsetOf(d, n), n))
  {
    SameBar(pci, device, d, Discovered(pci, device, d, n), OffsetOf(d, n), n);
  }

  lemma {:induction false} BarAfterDiscovery(pci: PciSpace, device: nat, d: PciDevice, m: nat, k: nat)
    requires WellFormed(d) && k < m <= MAX_BAR_INDEX
    ensures var found := FoundBar(pci, device, d, OffsetOf(d, k), k);
      found.Some? ==> Discovered(pci, device, d, m).bars[k] == found.value
    decreases m
  {
    if k < m - 1 {
      BarAfterDiscovery(pci, device, d, m - 1, k);
    }
  }

  // The 64-bit BARs among the first k.
  function WideBefore(d: PciDevice, k: nat): set<nat>
    requires WellFormed(d) && k <= MAX_BAR_INDEX
  {
    set j | 0 <= j < k && d.wide[j]
  }

  lemma {:induction false} OffsetCounts(d: PciDevice, k: nat)
    requires WellFormed(d) && k <= MAX_BAR_INDEX
    ensures OffsetOf(d, k) == k + |WideBefore(d, k)|
  {
    if k > 0 {
      OffsetCounts(d, k - 1);
      assert WideBefore(d, k) == WideBefore(d, k - 1) + if d.wide[k - 1] then {k - 1} else {};
    }
  }

  // BAR k of a device is looked up k offsets on, and one more for each 64-bit
  // BAR before it; a 64-bit one takes its upper half from the offset behind.
  // It keeps its old values if that offset does not exist or says nothing.
  lemma {:induction false} BarFound(pci: PciSpace, device: nat, d: PciDevice, n: nat, k: nat)
    requires WellFormed(d) && k < n <= MAX_BAR_INDEX
    ensures var offset := k + |WideBefore(d, k)|;
      var bar := Discovered(pci, device, d, n).bars[k];
      if offset >= MAX_BAR_INDEX || pci.size(device, offset) == 0 then bar == d.bars[k]
      else
        var lower := pci.address(device, offset);
        var address := if d.wide[k] && offset + 1 < MAX_BAR_INDEX
          then pci.join(device, lower, pci.address(device, offset + 1)) else lower;
        bar == if address == 0 then d.bars[k] else Bar(address, address + pci.size(device, offset))
    decreases n
  {
    if k < n - 1 {
      BarFound(pci, device, d, n - 1, k);
    } else {
      OffsetCounts(d, k);
    }
  }

  lemma {:induction false} ListIsStable(pci: PciSpace, list: seq<PciDevice>)
    requires AllWellFormed(list)
    ensures var found := DiscoveredList(pci, list, |list|);
      DiscoveredList(pci, found, |list|) == found
  {
    var found := DiscoveredList(pci, list, |list|);
    forall i | 0 <= i < |list|
      ensures DiscoveredList(pci, found, |list|)[i] == found[i]
    {
      DiscoveryIsStable(pci, i, list[i], list[i].barCount, list[i].barCount);
    }
  }

  // Whether the loops act on a BAR.
  predicate Usable(bar: Bar) {
    && bar.address != 0 && bar.limit != 0
    && bar.address / 0x1000_0000_0000 % 0x10_0000 != 0xF_FFFF
    && bar.limit >= bar.address
  }

  function BarFrames(bar: Bar): (s: seq<nat>)
    ensures forall f <- s :: f < FRAME_COUNT
  {
    if Usable(bar) then VisitFrames(bar.address, SpanPages(Low32(bar.limit - bar.address))) else []
  }

  function DeviceFrames(d: PciDevice, n: nat): (s: seq<nat>)
    requires n <= |d.bars|
    ensures forall f <- s :: f < FRAME_COUNT
  {
    if n == 0 then [] else DeviceFrames(d, n - 1) + BarFrames(d.bars[n - 1])
  }

  // All frames that enabling and disabling visit, in order.
  function ListFrames(list: seq<PciDevice>, n: nat): (s: seq<nat>)
    requires AllWellFormed(list) && n <= |list|
    ensures forall f <- s :: f < FRAME_COUNT
  {
    if n == 0 then [] else ListFrames(list, n - 1) + DeviceFrames(list[n - 1], list[n - 1].barCount)
  }

  // A BAR is visited at all if and only if it has an address, its limit lies
  // behind it within 4 GiB, and the top 20 bits of the address are not all ones.
  lemma {:induction false} BarVisitedExact(bar: Bar)
    ensures BarFrames(bar) != [] <==>
      && bar.address != 0 && bar.address <= bar.limit && (bar.limit - bar.address) % 0x1_0000_0000 != 0
      && bar.address / 0x1000_0000_0000 % 0x10_0000 != 0xF_FFFF
    ensures BarFrames(bar) != [] ==> BarFrames(bar) == VisitFrames(bar.address, |BarFrames(bar)|)
    ensures BarFrames(bar) != [] ==> var size := (bar.limit - bar.address) % 0x1_0000_0000;
      size <= PAGE_SIZE * |BarFrames(bar)| < size + PAGE_SIZE
  {
  }

  // A frame is in the list exactly when some BAR of some device brings it in.
  lemma {:induction false} ListFramesExact(list: seq<PciDevice>, f: nat)
    requires AllWellFormed(list)
    ensures f in ListFrames(list, |list|) <==>
      exists i, j :: 0 <= i < |list| && 0 <= j < list[i].barCount && f in BarFrames(list[i].bars[j])
  {
    FramesUpTo(list, |list|, f);
  }

  lemma {:induction false} FramesUpTo(list: seq<PciDevice>, n: nat, f: nat)
    requires AllWellFormed(list) && n <= |list|
    ensures f in ListFrames(list, n) <==>
      exists i, j :: 0 <= i < n && 0 <= j < list[i].barCount && f in BarFrames(list[i].bars[j])
  {
    hide BarFrames;
    if n > 0 {
      FramesUpTo(list, n - 1, f);
      FramesOfDevice(list[n - 1], list[n - 1].barCount, f);
    }
  }

  lemma {:induction false} FramesOfDevice(d: PciDevice, n: nat, f: nat)
    requires n <= |d.bars|
    ensures f in DeviceFrames(d, n) <==> exists j :: 0 <= j < n && f in BarFrames(d.bars[j])
  {
    hide BarFrames;
    if n > 0 {
      FramesOfDevice(d, n - 1, f);
    }
  }

  lemma {:induction false} DeviceFramesSame(d: PciDevice, e: PciDevice, n: nat)
    requires n <= |d.bars| && n <= |e.bars| && forall j :: 0 <= j < n ==> d.bars[j] == e.bars[j]
    ensures DeviceFrames(d, n) == DeviceFrames(e, n)
  {
    if n > 0 {
      DeviceFramesSame(d, e, n - 1);
    }
  }

  lemma {:induction false} ListFramesSame(list: seq<PciDevice>, other: seq<PciDevice>, n: nat)
    requires AllWellFormed(list) && AllWellFormed(other) && n <= |list| && n <= |other|
    requires forall i :: 0 <= i < n ==> list[i] == other[i]
    ensures ListFrames(list, n) == ListFrames(other, n)
  {
    if n > 0 {
      ListFramesSame(list, other, n - 1);
    }
  }

  lemma {:induction false} DiscoveredListNext(pci: PciSpace, list: seq<PciDevice>, n: nat)
    requires AllWellFormed(list) && n < |list|
    ensures DiscoveredList(pci, list, n)[n] == list[n]
    ensures DiscoveredList(pci, list, n)[n := Discovered(pci, n, list[n], list[n].barCount)]
         == DiscoveredList(pci, list, n + 1)
    ensures ListFrames(DiscoveredList(pci, list, n + 1), n) == ListFrames(DiscoveredList(pci, list, n), n)
  {
    ListFramesSame(DiscoveredList(pci, list, n + 1), DiscoveredList(pci, list, n), n);
  }

  // The devices as the protocol sees them.
  function AsDevices(list: seq<PciDevice>): seq<Device>
    requires AllWellFormed(list)
  {
    seq(|list|, i requires 0 <= i < |list| => Device(list[i].bars[..list[i].barCount], list[i].hasCallback))
  }

  // A device owns an address through the first barCount of its BARs, cut to 32
  // bits and their ends included; its callback runs if it has one.
  lemma {:induction false} OwnsExact(list: seq<PciDevice>, i: nat, a: nat)
    requires AllWellFormed(list) && i < |list|
    ensures |AsDevices(list)| == |list| && AsDevices(list)[i].hasCallback == list[i].hasCallback
    ensures InDevice(AsDevices(list)[i], a) <==>
      exists j ::
        && 0 <= j < list[i].barCount
        && list[i].bars[j].address % 0x1_0000_0000 <= a <= list[i].bars[j].limit % 0x1_0000_0000
  {
    var d := AsDevices(list)[i];
    forall j | 0 <= j < list[i].barCount
      ensures InBar(d.bars[j], a) <==>
        list[i].bars[j].address % 0x1_0000_0000 <= a <= list[i].bars[j].limit % 0x1_0000_0000
    {
    }
    assert InDevice(d, a) ==> exists j :: 0 <= j < |d.bars| && InBar(d.bars[j], a);
  }

  class DeviceList {
    var list: seq<PciDevice>

    // DmInitBarInfo: fills in the address and limit of one BAR.
    method InitBarInfo(pci: PciSpace, i: nat, offset: nat, bar: nat)
      requires AllWellFormed(list) && i < |list| && bar < MAX_BAR_INDEX
      modifies this
      ensures AllWellFormed(list)
      ensures list == old(list)[i := WithBar(old(list)[i], bar, FoundBar(pci, i, old(list)[i], offset, bar))]
    {
      if offset >= MAX_BAR_INDEX {
        return;
      }
      var size := pci.size(i, offset);
      if size == 0 {
        return;
      }
      var address := pci.address(i, offset);
      if list[i].wide[bar] && offset + 1 < MAX_BAR_INDEX {
        address := pci.join(i, address, pci.address(i, offset + 1));
      }
      if address == 0 {
        return;
      }
      list := list[i := list[i].(bars := list[i].bars[bar := Bar(address, address + size)])];
    }
  }
}
