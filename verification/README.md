# DeviceMon: verified models

DeviceMon is a VT-x hypervisor. It maps guest physical memory one to one through EPT tables,
makes the pages of chosen PCI BARs execute-only, and observes each access to them through EPT
violations and the monitor trap flag (MTF). This project models the parts of it that keep
state, and proves what each keeps over all its runs.

`dafny verify dfyconfig.toml` checks everything.

- **EPT tables** (`EptTree`, `EptTeardown`, `Pool`, `Ept`, `EptLifetime`). The four-level tree is kept
  in arrays that a pool hands out, and refines a map from frame number to entry. Allocation may
  fail at any call. A ghost map records which table serves which path of the tree.
- **Memory types** (`Mtrr`, `MtrrInitialization`, `Bits`). MTRR decoding and lookup, against the
  precedence rules and the address test of the Intel SDM.
- **The monitor** (`MonitorProtocol`, `MonitorSafety`, `BarPages`, `Devices`, `MonitorProgress`, `Monitor`,
  `MonitorSteps`, `MonitorLifetime`). The protocol is a state machine for one processor, with a cache of
  translations that only a flush empties. The class `Processor` holds the handlers and is proved
  against the machine step by step; `MonitorSteps` and `MonitorLifetime` make whole lives of the
  handlers runs of the machine.
- **The logger** (`LogEntries`, `LogProtocol`, `LogBuffers`). `LogProtocol` interleaves the atomic
  sections of any number of threads; `LogBuffers` does the same sections on the bytes of the two
  buffers.
- **Lifecycle** (`Lifecycle`). Virtualizing, devirtualizing and hot-plugging processors, with the
  ownership of every allocated block.
- **Small machines**: the instruction cache (`InstructionCache`), MOV DR emulation
  (`DebugRegisters`), the page-table self-map (`SelfMap`), the list of RAM runs (`PhysicalMemory`).

Nondeterminism of the surroundings is explicit: an allocation is a nondeterministic choice, or
succeeds as an arbitrary plan says where the outcome is stated in terms of it; a
callback's answer, PCI configuration space, the disassembler and the arrival of messages are
function parameters, and the hardware's caching of translations is an event of the machine.

## What the code does and its comments do not say

- The enable and disable loops advance the address after using it, so an n-page BAR has pages
  0, 0, 1, ..., n - 2 visited: the last page of a BAR of several pages is never closed
  (`BarPages.CoverageExact`).
- Addresses are cut to 32 bits. When the low half of a BAR's base plus its size reach 4 GiB, and it is
  the only BAR, some access to a closed page is not recognized and faults for ever
  (`BarPages.RecognizedExact`, `MonitorProgress.OneBarExact`, `MonitorProgress.BarAtFourGib`). For a BAR at or
  above 4 GiB other pages are closed in place of its own (`BarPages.OwnPagesExact`), and an address there
  may be recognized by its low half without any callback running (`MonitorProtocol.RecognizedRunsExact`,
  `MonitorProtocol.RecognizedWithoutCallback`).
- The end of an empty run at page 0 wraps to the highest address; then no address counts as device
  memory (`EptLifetime.IsDeviceMemory`).
- A second fault on another closed page before the trap leaves the first page open until it is
  enabled again (`MonitorSafety.SecondFault`, `MonitorSafety.SecondFaultLeavesOpen`), and a
  disable before the trap leaves a page closed (`MonitorSafety.DisableWhilePending`).
- WT followed by WB gives WB, against the comment in the scan (`Mtrr.ScanFollowsPrecedence`).
- Shared data is lost when initialization fails and processor 0 cannot be switched to or has no
  memory for its record (`Lifecycle.Machine.Initialize`, `Lifecycle.Machine.LosesSharedData`).
- Stopping all processors ends at the first that is not virtualized (`Lifecycle.HotplugGap`).
- A message that could go to the file is dropped, and reported as written, while APCs are
  disabled (`LogBuffers.LogBufferInfo.Put`).
- MOV from a debug register to RSP does not reach the guest (`DebugRegisters.ReadReachesGuest`).
- A full instruction cache replaces the record in the home slot.

## Model

| member | source | states |
|---|---|---|
| EptTree.IndexExtendsPrefix | DeviceMon/ept.cpp:615-640 | the four index helpers cut a 36-bit frame number into the digits that extend a path from the root one level at a time |
| EptTree.IndexIsDigit | DeviceMon/ept.cpp:615-640 | the 9-bit index of a level is the last digit of the path at that level |
| EptTree.WalkFindsLeaf | DeviceMon/ept.cpp:703-752 | the lookup walk finds the leaf slot of an address exactly when the tree has a page table for its frame, and that slot is the frame's own |
| EptTree.LeafSlotsAreDistinct | DeviceMon/ept.cpp:697-752 | two addresses whose lookups give the same slot are in the same frame: distinct frames never share a leaf |
| EptTree.LinkTable | DeviceMon/ept.cpp:504-545 | linking a zeroed unused table at a missing position keeps the tree well formed |
| EptTree.LinkKeepsLeaf | DeviceMon/ept.cpp:504-545 | linking a table changes the leaf of no frame |
| EptTree.StoreLeaf | DeviceMon/ept.cpp:546-555 | storing a leaf entry changes the leaf of its own frame only and keeps the tree well formed |
| EptTree.RepresentsLinked | DeviceMon/ept.cpp:504-545 | the tree still refines the same map from frames to entries after a table is linked |
| EptTree.RepresentsStored | DeviceMon/ept.cpp:546-555 | after a leaf is stored the tree refines the map updated at that frame |
| PoolModel.Pool.AllocatePage | DeviceMon/ept.cpp:588-599 | a table allocation fails with nothing changed or yields a zeroed frame that was not in use, under any schedule |
| PoolModel.Pool.FreePage | DeviceMon/ept.cpp:783-806 | a page is freed only while allocated, so never twice |
| Ept.EptData.AllocateEptEntryFromPreallocated | DeviceMon/ept.cpp:573-585 | counts every attempt, hands out each of the 50 stocked pages once, and past them asks the pool |
| Ept.EptData.AllocateEptEntry | DeviceMon/ept.cpp:563-570 | demand-time allocations come from the stock and are counted, initialization-time ones from the pool and are not |
| Ept.EptData.InitTableEntry | DeviceMon/ept.cpp:602-612 | gives full access and the address' frame; a leaf gets the memory type that the MTRRs give, cut to three bits, an interior entry keeps its own |
| Ept.EptData.LinkSubtable | DeviceMon/ept.cpp:504-545 | one missing level: a new table is linked, or nothing but the count changes |
| Ept.EptData.ConstructTables | DeviceMon/ept.cpp:496-560 | success maps the address' own frame and changes no other leaf; failure changes no leaf and leaves the tree well formed; the assertion at line 552 holds exactly when the leaf was unused; tables only get added; the count grows by the tables attempted; no failure while the missing tables fit the stock |
| Ept.EptData.MapGpaToHpa | DeviceMon/ept.cpp:162-169 | the same from the root at demand time |
| Ept.EptData.GetEptPtEntry | DeviceMon/ept.cpp:703-752 | the recursive lookup on the real tables is the walk |
| Ept.EptData.Lookup | DeviceMon/ept.cpp:697-701 | returns the slot that holds the map's entry for the frame; null or a zero entry means not mapped |
| Ept.EptData.FindMapped | DeviceMon/ept.cpp:661-665 | the check that callers of the lookup make: the entry is there exactly when the frame is mapped |
| Ept.EptData.DestructTables | DeviceMon/ept.cpp:783-806 | frees exactly the tables at and below a position, each once |
| Ept.EptData.FreeUnusedPreallocatedEntries | DeviceMon/ept.cpp:768-780 | frees exactly the stocked pages that were filled and not handed out, and the array |
| Ept.EptData.Terminate | DeviceMon/ept.cpp:755-765 | frees every table, every unused stocked page, the array and the header, each once, also when the count has passed 50 |
| EptTeardown.AncestorPlaced | DeviceMon/ept.cpp:783-806 | every table hangs below the root through placed tables |
| EptTeardown.AllBelowRoot | DeviceMon/ept.cpp:755-765 | all tables of the tree are below the root, so teardown reaches each |
| EptTeardown.NextBranch | DeviceMon/ept.cpp:783-806 | the subtrees of two entries share no table, so the loop frees none twice |
| EptTeardown.AllBranches | DeviceMon/ept.cpp:783-806 | the subtrees of the 512 entries and the table itself are the whole subtree |
| EptTeardown.BranchIntact | DeviceMon/ept.cpp:783-806 | freeing earlier branches leaves the tables of the next one readable and linked |
| EptLifetime.RamVisitedOnce | DeviceMon/ept.cpp:435-451 | with disjoint runs, no page of RAM has been mapped before its turn in the loop |
| EptLifetime.MapRun | DeviceMon/ept.cpp:435-451 | one run is mapped page by page; with disjoint runs the assertion at line 552 holds for each |
| EptLifetime.MapRam | DeviceMon/ept.cpp:435-451 | all runs are mapped to identity entries, or the loop stops at the first failure |
| EptLifetime.MapAll | DeviceMon/ept.cpp:435-461 | RAM and the APIC page are mapped, or every page and the header are given back |
| EptLifetime.FillStock | DeviceMon/ept.cpp:476-486 | stocks 50 zeroed pages, or says how many were filled |
| EptLifetime.Prepare | DeviceMon/ept.cpp:463-492 | the stock is complete, or every page and block is given back |
| EptLifetime.EptInitialization | DeviceMon/ept.cpp:408-493 | for every schedule of failures: well-formed data that maps exactly the frames of RAM and the APIC page, each to itself with full access and its memory type, or null with the pool as it was; with disjoint RAM and the APIC page outside it, the assertion at line 552 holds throughout |
| EptLifetime.IsDeviceMemory | DeviceMon/ept.cpp:680-693 | true exactly for addresses outside every RAM run, and for none when a run is empty at page 0: its end wraps in 64 bits |
| EptLifetime.MapOnDemand | DeviceMon/ept.cpp:643-675 | a violation on an unmapped frame maps it to itself, with full access and the memory type of the address; the assertion at line 552 holds, and the one at line 670 if and only if no run is empty at page 0; the count equals the table allocations attempted |
| EptLifetime.MapFaults | DeviceMon/ept.cpp:643-675 | over any sequence of violations old entries stay, new ones are those of faulting addresses, the count is that of table allocations attempted, and the assertions hold if no run is empty at page 0 |
| EptLifetime.Lifetime | DeviceMon/ept.cpp:408-806 | initialization, any demand mappings and termination give the pool back exactly what it gave, for every schedule of failures |
| Mtrr.EnabledFrom | DeviceMon/ept.cpp:356-360 | the scan ends at the first entry that is not enabled |
| Mtrr.GetMemoryType | DeviceMon/ept.cpp:350-405 | the early-exit loop computes the resolution of the covering entries |
| Mtrr.FirstDecisiveWins | DeviceMon/ept.cpp:367-379 | the first covering entry that is fixed or uncacheable decides |
| Mtrr.FixedRangeWins | DeviceMon/ept.cpp:367-371 | when the fixed entries come first and do not overlap, a covering fixed entry decides |
| Mtrr.UncacheableWins | DeviceMon/ept.cpp:373-378 | among variable entries UC decides wherever it stands |
| Mtrr.LastWins | DeviceMon/ept.cpp:380-397 | without fixed and UC entries the last covering entry decides |
| Mtrr.ScanFollowsPrecedence | DeviceMon/ept.cpp:350-405 | the scan agrees with section 11.11.4.1 of the Intel SDM, volume 3A, on every list of covering variable entries if and only if the last is WT whenever WT and WB mix |
| Mtrr.WriteBackAfterWriteThrough | DeviceMon/ept.cpp:380-391 | the input on which it does not: WT followed by WB gives WB |
| Mtrr.MemoryTypeOfPage | DeviceMon/ept.cpp:609-611 | with whole-page ranges, all addresses of a page have one memory type |
| MtrrInitialization.StoreFixedRegister | DeviceMon/ept.cpp:226-318 | stores the eight ranges of one fixed register in order |
| MtrrInitialization.StoreFixedRanges | DeviceMon/ept.cpp:226-318 | the three loops store the 88 fixed ranges and nothing else |
| MtrrInitialization.InitializeMtrrEntries | DeviceMon/ept.cpp:202-347 | the array holds the fixed ranges, if used, then the valid variable ranges; the index never passes its 343 slots |
| MtrrInitialization.FixedRangesTile | DeviceMon/ept.cpp:226-318 | the fixed ranges cover [0, 0x100000) with no gap and no overlap |
| MtrrInitialization.VariableRangeExact | DeviceMon/ept.cpp:320-347 | the computed range holds an address exactly when address AND mask equals base AND mask, if and only if the mask is contiguous and the base aligned to it (section 11.11.2.3 of the Intel SDM, volume 3A) |
| MtrrInitialization.InitializedLayout | DeviceMon/ept.cpp:202-347 | fixed entries come first, do not overlap, and every range consists of whole pages |
| MtrrInitialization.FixedTypeBelowOneMegabyte | DeviceMon/ept.cpp:202-405 | with fixed ranges in use, the type below 1 MiB is the one its fixed register gives |
| MtrrInitialization.VariableTypeExact | DeviceMon/ept.cpp:202-405 | elsewhere the variable registers that hold the address decide: UC if one of them has it, otherwise the type of the last one in register order, otherwise the default |
| PhysicalMemory.Build | DeviceMon/util.cpp:375-425 | the descriptor lists one run per range up to the terminating one and totals their pages; null when there is none or allocation fails |
| PhysicalMemory.TotalIsFrameCount | DeviceMon/util.cpp:385-393 | with disjoint runs the page total is the number of RAM frames |
| PhysicalMemory.RangeCoveredExact | DeviceMon/util.cpp:414-421 | a run covers every byte of its range if and only if rounding down the base does not cost the last page; the page count is the least that holds the bytes |
| SelfMap.FixedAreDerived | DeviceMon/util.cpp:272-275 | the derivation from the fixed PTE base gives the fixed bases of util_page_constants.h |
| SelfMap.PteOfPte | DeviceMon/util.cpp:602-617 | the PTE address of a PTE address is the PDE address, for every aligned base and every address |
| SelfMap.PteOfPde | DeviceMon/util.cpp:592-617 | the PTE address of a PDE address is the PPE address |
| SelfMap.PteOfPpe | DeviceMon/util.cpp:583-617 | the PTE address of a PPE address is the PXE address |
| SelfMap.LevelsAreIterated | DeviceMon/util.cpp:583-617 | all four levels come from iterating the PTE lookup: the derived bases agree with the recursive map |
| SelfMap.PteExact | DeviceMon/util.cpp:611-617 | two addresses have one PTE if and only if they agree in their 36-bit page number |
| Monitor.Processor.HandleMonitorTrap | DeviceMon/vmm.cpp:355-375 | closes the pending page again, clears LastFaultEntry and the MTF and flushes |
| Monitor.Processor.HandleMmio | DeviceMon/vmm.cpp:1277-1330 | a recognized, mapped address is left to the last callback of a device that owns the address: if it says false, or there is none, the page is open, pending and the MTF set with RIP as it was, if it says true RIP has moved and no leaf changed; otherwise nothing changed |
| Monitor.Processor.HandleEptViolation | DeviceMon/vmm.cpp:1333-1346 | the dispatch between the two handlers |
| MonitorProtocol.TrapNeverNull | DeviceMon/vmm.cpp:361-363 | in every state of the invariant a trap finds an entry that is not null and mapped |
| MonitorProtocol.StepKeepsInv | DeviceMon/vmm.cpp:355-375 | every step keeps: MTF set exactly when LastFaultEntry is not null, cached translations equal to leaves, leaves as expected |
| MonitorSafety.RunKeepsInv | DeviceMon/vmm.cpp:355-375 | the invariant holds in every reachable state |
| MonitorSafety.RunLeaves | DeviceMon/vmm.cpp:355-375 | in every reachable state each leaf maps its own frame with the memory type that the MTRRs give, and allows everything, or only execution exactly when the frame is closed and not pending |
| MonitorSafety.RunKeepsMapped | DeviceMon/vmm.cpp:1277-1346 | mapped frames stay mapped over every run |
| MonitorSafety.NoStaleTranslation | DeviceMon/vmm.cpp:1312-1321 | whenever the guest runs, a cached translation agrees with the current leaf (section 28.3.3.4 of the Intel SDM, volume 3C) |
| MonitorSafety.TrapFlagMeansPending | DeviceMon/vmm.cpp:355-375 | MTF is set exactly when a page is pending, and every other closed page is execute-only |
| MonitorSafety.PendingWasReported | DeviceMon/vmm.cpp:1303-1321 | a pending page was reported while mapped, through the callback dispatcher, and has not been closed since |
| MonitorSafety.StepEffect | DeviceMon/vmm.cpp:1277-1330 | a page becomes pending only by a step that reports it |
| MonitorSafety.ClosedAccessIsReported | DeviceMon/vmm.cpp:1277-1346 | no read or write of a closed page completes unless the callback dispatcher ran for it since the page was last closed |
| MonitorSafety.ViolationMakesProgress | DeviceMon/vmm.cpp:1277-1346 | one step: with allocation succeeding, a violation ends with the access permitted or RIP advanced, if and only if the frame was unmapped or the address is recognized |
| MonitorProgress.RunGoesOn | DeviceMon/vmm.cpp:1277-1346 | if the closed pages are recognized, every violation of a run ends with the access permitted or RIP advanced |
| MonitorProgress.FailingRun | DeviceMon/vmm.cpp:1277-1346 | for a byte that is not recognized, a run that closes its page and faults on it for ever |
| MonitorProgress.ProgressExact | DeviceMon/vmm.cpp:1277-1346 | every violation of every run goes on if and only if every byte of the pages that may be closed is recognized |
| MonitorProgress.MonitoringGoesOn | DeviceMon/vmm.cpp:1277-1346 | so with every BAR that the loops use page aligned, filling its first page and staying below 4 GiB with its base cut to 32 bits, every violation of every run of the monitored devices goes on, allocation permitting |
| MonitorProgress.OneBarExact | DeviceMon/vmm.cpp:1277-1346 | with one BAR, page aligned anywhere, all violations of all runs go on if and only if the loops skip it, or the low half of its base plus its size stay below 4 GiB and it fills its first page |
| MonitorProgress.BarAtFourGib | DeviceMon/vmm.cpp:1277-1346 | the run that fails: a BAR that ends at 4 GiB is enabled and closed, and a read of it leaves everything as it was |
| MonitorProgress.ClosedAccessRanCallback | DeviceMon/vmm.cpp:1277-1346 | no read or write of a closed page completes unless a callback of a device that owns the address ran since the page was last closed |
| MonitorSafety.SecondFaultLeavesOpen | DeviceMon/vmm.cpp:1320-1321 | after a second fault on another page, the first page permits every access in every later state and is reported by none, until it is enabled again |
| Monitor.Processor.OpenAndArm | DeviceMon/vmm.cpp:1312-1321 | the page is open and pending with MTF set, and the cached translations are gone |
| MonitorLifetime.HandleVmCall | DeviceMon/vmm.cpp:1246-1253 | both calls look the BARs up again and close, or open, the frames of the list; new tables are owned, and the assertion at line 552 of ept.cpp holds |
| MonitorLifetime.HandleFault | DeviceMon/vmm.cpp:1333-1346 | a violation, or a trap when the MTF is set, does what the protocol says with the skip that the callbacks decided; new tables are owned, and the assertions hold if no run is empty at page 0 |
| MonitorLifetime.Handle | DeviceMon/vmm.cpp:233-352 | whatever comes next, expected or not, has the outcome that the protocol gives it; new tables are owned, and the assertions hold if no run is empty at page 0 |
| MonitorSteps.ExpectedIsPossible | DeviceMon/vmm.cpp:233-352 | what the handlers make of a step that meets the two assumptions is an event of the protocol that is possible there, with the same result |
| MonitorSteps.TraceKeepsInv | DeviceMon/vmm.cpp:233-352 | over any sequence of steps, the states that the handlers reach keep the protocol's invariant as long as the steps meet the assumptions |
| MonitorSteps.EventOfStep | DeviceMon/vmm.cpp:233-352 | a step is one of the protocol with the BARs that the calls find, also before they are found: a violation then is on an unmapped frame |
| MonitorSteps.TraceIsRun | DeviceMon/vmm.cpp:233-352 | so the states of the handlers from the initial one are a run of the protocol |
| MonitorLifetime.HandleAll | DeviceMon/vmm.cpp:233-352 | any sequence of steps makes such a trace, keeps the pages that the EPT data owns accounted for, and the assertions hold |
| MonitorLifetime.HandlersGoOn | DeviceMon/vmm.cpp:1277-1346 | with well placed BARs, every violation over a whole life of the handlers that could be mapped ends with the access permitted or RIP advanced |
| MonitorSafety.SecondFault | DeviceMon/vmm.cpp:1320-1321 | a violation keeps the invariant if and only if it is skipped or no other page is pending |
| DebugRegisters.OutcomeTable | DeviceMon/vmm.cpp:826-963 | the outcome by its conditions in their order: #GP outside CPL 0, #UD for DR4 and DR5 under CR4.DE, #DB under DR7.GD with BD set and B0-3 and GD cleared, #GP for a DR6 or DR7 value above 32 bits, otherwise the access takes effect on the named register and nothing else |
| DebugRegisters.WrittenBits | DeviceMon/vmm.cpp:911-942 | a write to DR6 or DR7 gives the fixed bits their values and every other bit the one written |
| DebugRegisters.DetectBits | DeviceMon/vmm.cpp:866-888 | a general-detect #DB sets BD, clears B0-3 and GD, and changes no other bit |
| DebugRegisters.FixDr6Fixes | DeviceMon/vmm.cpp:920-933 | a value written to DR6 gets its fixed one and zero bits |
| DebugRegisters.FixDr7Fixes | DeviceMon/vmm.cpp:934-942 | a value written to DR7 gets its fixed bits and keeps GD |
| DebugRegisters.FaultOrEffect | DeviceMon/vmm.cpp:826-963 | an access injects one fault with RIP and registers unchanged, or takes effect and advances RIP: a write gives its register the value, with the fixed bits, and leaves the others; a trap flag adds a single-step #DB |
| DebugRegisters.DetectedOnce | DeviceMon/vmm.cpp:864-891 | after a general-detect #DB the retried access does not raise it again |
| DebugRegisters.AliasExact | DeviceMon/vmm.cpp:845-860 | DR4 and DR5 behave as DR6 and DR7 if and only if CR4.DE is clear or CPL faults first |
| DebugRegisters.ReadReachesGuest | DeviceMon/vmm.cpp:947-960 | a read gives the guest the register's value if and only if the target is not RSP (or holds it already) |
| DebugRegisters.WriteThenRead | DeviceMon/vmm.cpp:911-960 | reading back gives what was written, with the fixed bits; it faults if and only if the write set DR7.GD |
| DebugRegisters.HandledKeepsBits | DeviceMon/vmm.cpp:826-963 | each access keeps the fixed bits and the zero upper halves of DR6 and DR7 |
| DebugRegisters.RunKeepsBits | DeviceMon/vmm.cpp:826-963 | so does every sequence of accesses |
| DebugRegisters.Cpu.AdjustGuestInstructionPointer | DeviceMon/vmm.cpp:1445-1456 | RIP moves by the instruction length, in 64 bits, and a set TF injects #DB |
| DebugRegisters.Cpu.HandleVmExit | DeviceMon/vmm.cpp:199-209 | the handler between saving RSP and resuming |
| DebugRegisters.Cpu.HandleDrAccess | DeviceMon/vmm.cpp:826-963 | the nested branches do what the table of faults and effects says |
| Monitor.Processor.HandleMiss | DeviceMon/ept.cpp:643-675 | a miss maps the identity entry and flushes, its assertions hold if no run is empty at page 0, and new tables are owned; a mapped frame or a permission violation changes nothing |
| MonitorLifetime.MonitoredLifetime | DeviceMon/ept.cpp:408-806 | initialization, any violations, traps and enable and disable calls, and termination give the pool back exactly what it gave, for every schedule of failures; the states of the handlers keep the protocol's invariant and are a run of it while the steps meet the two assumptions; with disjoint non-wrapping RAM and the APIC page outside it, the assertions at lines 552 and 670 hold, in enable calls too |
| Monitor.Processor.InvalidateEptPage | DeviceMon/DevMon.cpp:310-321 | maps the page if needed, makes it execute-only and flushes; fails only on an unmapped page; the assertion at line 552 of ept.cpp holds, as it does through all of the enable call |
| Monitor.Processor.FindOrMap | DeviceMon/DevMon.cpp:310-316 | finds the page's entry or maps it, flushing; the assertion at line 552 of ept.cpp holds |
| Monitor.Processor.InvalidateEptPages | DeviceMon/DevMon.cpp:302-325 | closes the visited pages in order and stops at the first that cannot be mapped |
| Monitor.Processor.ValidateEptPage | DeviceMon/DevMon.cpp:333-349 | opens a mapped page and flushes; skips an unmapped one |
| Monitor.Processor.ValidateEptPages | DeviceMon/DevMon.cpp:327-351 | opens the visited pages, skipping those not mapped |
| Monitor.Processor.EnableBar | DeviceMon/DevMon.cpp:417-443 | one BAR of the enable loop: discovery, the range checks, and closing |
| Monitor.Processor.EnableDevice | DeviceMon/DevMon.cpp:416-444 | one device of the enable loop, with the offset moved twice for a 64-bit BAR |
| Monitor.Processor.EnableDeviceMonitor | DeviceMon/DevMon.cpp:411-447 | fills in all BARs, and visits exactly the frames of the list in order unless one could not be mapped |
| Monitor.Processor.DisableBar | DeviceMon/DevMon.cpp:456-484 | one BAR of the disable loop |
| Monitor.Processor.DisableDevice | DeviceMon/DevMon.cpp:454-484 | one device of the disable loop |
| Monitor.Processor.DisableDeviceMonitor | DeviceMon/DevMon.cpp:449-486 | fills in all BARs and opens exactly the frames of the list |
| Monitor.MonitoringRestores | DeviceMon/DevMon.cpp:411-486 | with unchanged configuration space, enable, any rounds of faults and traps, and disable give every leaf its original entry |
| Monitor.IsMonitoredDevice | DeviceMon/DevMon.cpp:489-508 | true exactly when the cut address lies in a BAR, end included |
| Monitor.ExecuteCallback | DeviceMon/DevMon.cpp:510-537 | returns what the last device in the list decides that has a callback and a BAR that holds the address, and false when there is none |
| MonitorProtocol.DecisionExact | DeviceMon/DevMon.cpp:510-537 | so does the protocol's decision |
| MonitorProtocol.CallbackRuns | DeviceMon/DevMon.cpp:510-537 | the callbacks that run are exactly those of the devices that own the address and have one |
| MonitorProtocol.RecognizedRunsExact | DeviceMon/DevMon.cpp:489-537 | a recognized address runs a callback, when every device has one, if and only if it is below 4 GiB |
| MonitorProtocol.RecognizedWithoutCallback | DeviceMon/DevMon.cpp:489-537 | an input above 4 GiB that is recognized by its low half and runs none |
| MonitorSteps.NothingClosed | DeviceMon/DevMon.cpp:302-325 | before the first hypercall nothing is closed |
| MonitorSteps.CallsWithin | DeviceMon/DevMon.cpp:411-486 | the hypercalls of any sequence of steps visit no frame outside the list that was found |
| MonitorProgress.ClosedWithin | DeviceMon/DevMon.cpp:302-325 | in every run, only pages that enabling visited are closed |
| MonitorProgress.BarRecognized | DeviceMon/DevMon.cpp:489-508 | every byte of the visited pages is in the BAR, end included, when the BAR is page aligned, fills its first page and stays below 4 GiB with its base cut to 32 bits |
| MonitorProgress.ListRecognized | DeviceMon/DevMon.cpp:411-508 | when every BAR is so placed, every byte of every page that enabling visits is recognized |
| MonitorProtocol.ClosingKeepsInv | DeviceMon/DevMon.cpp:302-325 | closing any pages keeps the invariant and closes exactly those that could be mapped |
| MonitorProtocol.OpeningKeepsInv | DeviceMon/DevMon.cpp:327-351 | opening any pages keeps the invariant and reopens exactly the mapped ones |
| MonitorSafety.DisableRestores | DeviceMon/DevMon.cpp:449-486 | if disable visits all closed pages, every leaf is again what it was |
| MonitorSafety.EnableRunDisable | DeviceMon/DevMon.cpp:411-486 | an enable, a run of faults and traps, and a disable that visits the same frames restore every leaf |
| MonitorSafety.ClosedSinceEnable | DeviceMon/DevMon.cpp:302-325 | what is closed during a run was closed by its enable |
| MonitorSafety.DisableWhilePending | DeviceMon/DevMon.cpp:449-486 | disabling restores every leaf if and only if no page is pending: the late trap closes it again |
| BarPages.SpanExact | DeviceMon/DevMon.cpp:302-308 | the loops make the fewest rounds whose pages hold so many bytes |
| Devices.BarFound | DeviceMon/DevMon.cpp:353-444 | BAR k of a device is read at offset k plus the number of 64-bit BARs before it; address and limit that result, and when the old ones stay |
| Devices.BarVisitedExact | DeviceMon/DevMon.cpp:425-443 | a BAR is visited if and only if its address is not zero, the top 20 bits of that are not all ones, and its limit is behind it and not by a multiple of 4 GiB; in how many rounds |
| Devices.ListFramesExact | DeviceMon/DevMon.cpp:411-447 | a frame is in the list if and only if one of the BARs of some device, up to its BAR count, brings it in |
| Devices.OwnsExact | DeviceMon/DevMon.cpp:489-537 | a device owns an address through the first BarCount of its BARs, ends included, and has its own callback |
| BarPages.VisitedFrame | DeviceMon/DevMon.cpp:305-323 | the loops visit page indices 0, 0, 1, ..., n - 2 of an n-page BAR, of whose frame numbers the low 20 bits are kept |
| BarPages.CoverageExact | DeviceMon/DevMon.cpp:302-351 | all pages of a page-aligned BAR are visited if and only if it has one page and starts below 4 GiB |
| BarPages.OwnPagesExact | DeviceMon/DevMon.cpp:305-306 | the first page visited is the BAR's own if and only if the BAR starts below 4 GiB |
| BarPages.RecognizedExact | DeviceMon/DevMon.cpp:489-508 | every byte of the visited pages of a page-aligned BAR is recognized if and only if the low half of its base plus its size stay below 4 GiB and it fills its first page |
| Devices.Discovered | DeviceMon/DevMon.cpp:353-409 | filling in BARs changes nothing else and leaves the later ones alone |
| Devices.DiscoveryIsStable | DeviceMon/DevMon.cpp:353-409 | while configuration space is unchanged, looking a device up again changes nothing |
| Devices.ListIsStable | DeviceMon/DevMon.cpp:411-486 | nor does it for the whole list, so enable and disable see the same BARs |
| Devices.DeviceList.InitBarInfo | DeviceMon/DevMon.cpp:353-409 | fills in one BAR, or leaves the old values when the offset, size or address is missing |
| LogEntries.StoredRoundTrip | DeviceMon/log.cpp:797-808 | a message with its printed bit is stored without a NUL and read back exactly, bit and text |
| LogEntries.PrintedBitRestores | DeviceMon/log.cpp:574-579 | setting the bit before buffering and clearing it after gives the message back |
| LogEntries.StrLen | DeviceMon/log.cpp:624-625 | the length to the first NUL from an offset |
| LogEntries.EncodeAppend | DeviceMon/log.cpp:683-691 | appending a message adds its bytes and one NUL at the tail |
| LogEntries.EntryInBuffer | DeviceMon/log.cpp:618-641 | what the walk reads at an entry, and what remains after it |
| LogEntries.DecodeExact | DeviceMon/log.cpp:618-641 | the walk over a buffer finds exactly the appended messages and printed flags |
| LogProtocol.Append | DeviceMon/log.cpp:669-708 | keeps both buffers runs of well-formed messages within the 65535 usable bytes |
| LogProtocol.Swap | DeviceMon/log.cpp:602-615 | so does switching to the other, emptied buffer |
| LogProtocol.StepKeepsInv | DeviceMon/log.cpp:594-646 | every step of every thread keeps exclusion of flushers and conservation of messages |
| LogProtocol.RunKeepsInv | DeviceMon/log.cpp:594-708 | the invariant holds in every reachable state of every interleaving |
| LogProtocol.NothingLost | DeviceMon/log.cpp:594-708 | the buffered messages in the file, the undrained rest and the active buffer are the accepted messages in order |
| LogProtocol.DrainedBufferIsPrivate | DeviceMon/log.cpp:602-642 | no step of another thread touches the buffer that a thread is draining |
| LogProtocol.MarkOfSwap | DeviceMon/log.cpp:608-615 | a flusher's mark is what had been accepted at its own swap |
| LogProtocol.FlushedBeforeDirect | DeviceMon/log.cpp:553-571 | when a thread writes directly, everything accepted before its swap is in the file already, in order, whoever drained it |
| LogProtocol.ProgramOrder | DeviceMon/log.cpp:553-588 | a message that a thread buffered and one it later writes directly are in the file in that order |
| LogBuffers.CopyString | DeviceMon/log.cpp:686-688 | the bounded copy: success exactly when the string and its NUL fit, otherwise the cut string |
| LogBuffers.LogBufferInfo.constructor | DeviceMon/log.cpp:199-232 | both buffers hold no message |
| LogBuffers.LogBufferInfo.BufferMessage | DeviceMon/log.cpp:669-708 | appends to the active buffer if it, its NUL and the closing NUL fit the 64 KiB, leaves its messages and the other buffer alone if not, and keeps the greatest usage |
| LogBuffers.LogBufferInfo.SwapBuffers | DeviceMon/log.cpp:602-615 | refines the atomic swap on the real bytes |
| LogBuffers.LogBufferInfo.DoDbgPrint | DeviceMon/log.cpp:711-719 | prints the message with LF for CR LF and changes its last two bytes only |
| LogBuffers.LogBufferInfo.WriteOut | DeviceMon/log.cpp:619-627 | reads and clears the printed bit and writes the original text |
| LogBuffers.LogBufferInfo.DrainEntry | DeviceMon/log.cpp:618-641 | one round writes the next message, and prints it, LF for CR LF, exactly when it was not printed before and printing is on |
| LogBuffers.LogBufferInfo.DrainAll | DeviceMon/log.cpp:618-641 | the loop writes exactly the taken messages in order whatever other threads buffer meanwhile |
| LogBuffers.LogBufferInfo.FlushLogBuffer | DeviceMon/log.cpp:594-646 | the taken messages go to the file in order, late arrivals stay buffered, the old buffer ends empty, and the console gets exactly the messages not printed before, in order, LF for CR LF |
| LogBuffers.LogBufferInfo.WriteMessageToFile | DeviceMon/log.cpp:649-666 | the message itself goes to the file |
| LogBuffers.LogBufferInfo.PutToFile | DeviceMon/log.cpp:567-571 | flush, then the message |
| LogBuffers.LogBufferInfo.MarkMessage | DeviceMon/log.cpp:574-576 | the marked message is what the buffer stores, and clearing the bit restores it |
| LogBuffers.LogBufferInfo.PutToBuffer | DeviceMon/log.cpp:573-580 | buffers with the printed bit and leaves the caller's message as it was |
| LogBuffers.LogBufferInfo.Put | DeviceMon/log.cpp:553-588 | which path a message takes, what each does to buffers, file and console, and that it is printed once at most here |
| LogBuffers.AllPrintsExact | DeviceMon/log.cpp:618-641 | what a drain prints: the entries without the printed bit in order, LF for CR LF, and nothing when printing is off |
| LogBuffers.LogBufferInfo.PutAndFlush | DeviceMon/log.cpp:553-646 | a buffered message that a later flush drains is on the console exactly once, whether the thread or the flush prints it, among the messages before and after it |
| LogBuffers.CollectedConcat | DeviceMon/log.cpp:669-708 | messages arriving in two groups are taken as if in one |
| Lifecycle.PoolExact | DeviceMon/vm.cpp:982-1032 | the allocated blocks are exactly the fields of the records, the shared data and earlier leaks |
| Lifecycle.RemoveRecord | DeviceMon/vm.cpp:982-1004 | freeing a record's fields leaves everything else owned as before |
| Lifecycle.RemoveShared | DeviceMon/vm.cpp:1019-1031 | freeing the shared data leaves everything else owned as before |
| Lifecycle.AddField | DeviceMon/vm.cpp:387-421 | storing an allocation in a record's field keeps the ownership exact |
| Lifecycle.FirstUnstoppable | DeviceMon/vm.cpp:143-147 | where the stopping loop ends |
| Lifecycle.StopsAllExact | DeviceMon/vm.cpp:958-979 | every processor is devirtualized if and only if the virtualized ones are an initial segment that can be switched to |
| Lifecycle.RemainingExact | DeviceMon/vm.cpp:143-147 | a processor stays virtualized if and only if it or one before it is not virtualized or cannot be switched to |
| Lifecycle.HotplugGap | DeviceMon/vm.cpp:958-979 | an instance that fails: a virtualized processor behind one that is not stays virtualized |
| Lifecycle.Machine.InitializeSharedData | DeviceMon/vm.cpp:244-273 | all three allocations or none |
| Lifecycle.Machine.FreeSharedData | DeviceMon/vm.cpp:1007-1032 | decrements the count, and frees the shared data exactly on its return to zero |
| Lifecycle.Machine.FreeFields | DeviceMon/vm.cpp:982-1000 | frees each allocated field once |
| Lifecycle.Machine.FreeProcessorData | DeviceMon/vm.cpp:982-1004 | removes one record with all its blocks; the shared data goes with the last |
| Lifecycle.Machine.AllocateRecord | DeviceMon/vm.cpp:376-384 | the reference count goes up with the record, or nothing changes |
| Lifecycle.Machine.AllocateFields | DeviceMon/vm.cpp:386-421 | each field is allocated exactly when it and all before it succeed |
| Lifecycle.Machine.EnterVm | DeviceMon/vm.cpp:496-516 | a VMX step that fails frees the record; otherwise the processor is virtualized |
| Lifecycle.Machine.StartVm | DeviceMon/vm.cpp:365-517 | succeeds exactly when nothing fails on the processor; a failure at any point leaves records, processors and, if anything else holds it, the shared data as they were |
| Lifecycle.FirstFailure | DeviceMon/vm.cpp:437-468 | where the starting loop ends |
| Lifecycle.LossExact | DeviceMon/vm.cpp:376-384 | no processor ever gets a record if and only if processor 0 cannot be switched to or has no memory for its own |
| Lifecycle.Machine.StopVm | DeviceMon/vm.cpp:958-979 | fails on a processor that is not virtualized; otherwise removes it and its record |
| Lifecycle.Machine.Undo | DeviceMon/vm.cpp:163-174 | after a failed start every processor is devirtualized; shared data that was never counted is lost |
| Lifecycle.Machine.Initialize | DeviceMon/vm.cpp:143-176 | all processors are virtualized exactly when nothing fails, or the set is as before; on failure the shared data is freed if processor 0 can be switched to and has memory for its record, and otherwise its three blocks are lost |
| Lifecycle.Machine.LosesSharedData | DeviceMon/vm.cpp:143-176 | the input that loses it: processor 0 cannot be switched to |
| Lifecycle.Machine.Terminate | DeviceMon/vm.cpp:958-972 | exactly those processors remain virtualized that are at or behind the first that cannot be stopped; exactly when none does; the shared data goes with the last |
| Lifecycle.Machine.Hotplug | DeviceMon/vm.cpp:1050-1081 | adds the new processor and its record exactly when the asked processor is virtualized and nothing fails, or changes nothing but the processor count |
| Lifecycle.Machine.StartAll | DeviceMon/util.cpp:437-468 | the virtualized processors are those before the first failure, and all of them exactly on success; how many records were made |
| Lifecycle.Machine.StopAll | DeviceMon/util.cpp:437-468 | stops at the first failure, which it reports exactly when some processor could not be stopped: the later ones stay virtualized |
| InstructionCache.EmptyFromIs | DeviceMon/Fuzzer.cpp:363-369 | probing finds an empty slot unless the table is full, and then ends at the home slot |
| InstructionCache.NotProbedNotContained | DeviceMon/Fuzzer.cpp:350-354 | a full round of probes without a hit means that no slot holds the RIP |
| InstructionCache.EmptyHome | DeviceMon/Fuzzer.cpp:332-341 | an empty home slot means that the RIP is nowhere |
| InstructionCache.StoredAt | DeviceMon/Fuzzer.cpp:361-379 | a new RIP goes to the first empty slot from its page frame's on, modulo the length, and to that slot itself when none is empty |
| InstructionCache.NextKeepsInv | DeviceMon/Fuzzer.cpp:322-382 | a lookup keeps: no RIP in two slots, every record as decoded, no record behind an empty home |
| InstructionCache.NextCached | DeviceMon/Fuzzer.cpp:361-379 | a hit changes nothing, a miss adds the RIP, and in a full table replaces the home slot |
| InstructionCache.CachedSize | DeviceMon/Fuzzer.cpp:322-382 | occupied slots and cached RIPs are equally many |
| InstructionCache.AfterKeepsInv | DeviceMon/Fuzzer.cpp:322-382 | the invariant holds after every sequence of lookups |
| InstructionCache.AfterExact | DeviceMon/Fuzzer.cpp:322-382 | the cache holds exactly the RIPs seen while these fit, and is full exactly when as many as its slots have been seen |
| InstructionCache.Fuzzer.GetRegIndexByRip | DeviceMon/Fuzzer.cpp:322-382 | returns what the decoder would return and leaves the specified table; both probe loops end |

## Left out

- The preallocated-entry counter is an unbounded integer; its 32-bit wrap after 2^31 demand-time allocations is not modelled.
- x86 and PAE paths of every file: the model is the 64-bit build.
- Tables at frame 0, physical addresses above 48 bits, and the translation between a table's frame and its virtual address.
- VMCS setup, VMLAUNCH, VMXOFF, feature detection and the assembly stubs: whether they succeed is part of the plan in `Lifecycle`.
- `EptInitialization` is one block of a processor's record in `Lifecycle`; `EptLifetime` shows that it gives everything back on failure and that termination frees it.
- The monitor assumes, as conditions of its events, that an instruction faults on one closed page at most before the trap and makes no hypercall in between; `MonitorSafety.SecondFault` and `MonitorSafety.DisableWhilePending` say exactly what happens otherwise.
- Other processors: each has its own EPT data, and the monitor machine is that of one processor; the races of several on the shared device list and on the instruction cache are not modelled.
- The dispatch of the other hypercalls, and the logging and performance counters in the handlers.
- The bodies of the device callbacks, PCI configuration access and BAR sizing (Spi.cpp, Me.cpp, Usb.cpp, network.cpp): their results are parameters.
- A second call of `EptInitializeMtrrEntries`, which does not clear the array, and a valid variable range with mask zero, on which the bit scan has no result.
- The EPT pointer and its memory type.
- Lifecycle.Machine: processor records and the shared data are values in its fields, so the pointers from records to the shared data are not modelled; every record counts as holding the one that exists.
- DebugRegisters.Cpu: its registers are one value that the handlers reassign; the physical DR0-3 and DR6 and the VMCS fields are not told apart.
- A log without a file (`LogpIsLogFileEnabled`), which prints only. Failing file writes in the logger: a message whose write fails is dropped by the source. Opening, re-opening and closing the log file, and the flush thread's sleep.
- Formatting of log messages: messages are non-empty strings without NUL that end in two further bytes (CR LF) and start with a byte below 0x80, as the formatter produces.
- LogBuffers.LogBufferInfo.FlushLogBuffer: writers interleave between the rounds of the loop; interleaving with other flushers is covered by `LogProtocol` only.
- InstructionCache.Fuzzer.GetRegIndexByRip: a zero RIP, which the table cannot tell from an empty slot, and a RIP whose physical page changes between lookups.
- The hot-plug callback switches to processor 0 with an empty affinity mask; the model lets it run on any processor.
- Lifecycle.Machine.Initialize: a second initialization on a processor that is not virtualized while others are, as on resume (DeviceMon/power_callback.cpp:107) after a termination that left a gap. The code creates a second block of shared data, starts the processors before the first virtualized one, fails there, since its VMXON is refused (DeviceMon/vmm.cpp:1196-1207), and stops processors from 0 on; records that refer to different shared data are not modelled.
- GDT, IDT, LDT, TR, CR, MSR, CPUID and I/O port emulation, exception reflection, and driver loading: pass-through handlers with one branch each.
- `UtilpIsCanonicalFormAddress` passes its bounds in the wrong order, so it has no property worth stating.
