# Megapage memory management and its RDMA pair, in Dafny

A Dafny 4.11 model of the hard parts of this repository: the patched memory-management files
`memory.c` and `vmscan.c` of Linux, and the run of the RDMA server and client. `dafny verify
dfyconfig.toml` checks all of it.

One module per file, each on its own subject:

- `Arith`, `Words` and `Walk`: unsigned words, where 0 as an end means the top, and the geometry of a page table
  of any depth. The number of levels, the spans and the word are parameters.
- `FreePgtables`: free_pgtables down to free_pte_range, with the floor and ceiling arithmetic in words.
- `CowRefinement`: copy-on-write of private anonymous memory as a machine whose steps are cut where the
  page-table lock is dropped, and the machine that copies all memory in one step at fork; the first
  refines the second.
- `MmuGather`, `ZapRange`, `UnmapMapping`: the chained batches, the unmap walk over them, and its
  callers that clip it to a VMA or to a hole in a file.
- `CopyRange`: copy_one_pte, the restartable copy loop, and the walk above it.
- `FaultRaces`: anonymous, write-protection, swap-in, read, copy-on-write and shared faults of one
  address space beside each other, with references, page locks, charges and RSS.
- `RemapPfn`, `FaultAround`: remap_pfn_range with vm_normal_page, and the window of do_fault_around.
- `ShrinkPageList`, `RemoveMapping`, `ShrinkLruvec`, `ShrinkSlab`, `Unevictable`, `LruLists`: page
  reclaim.
- `RdmaRun`: the two threads, the two completion handlers and the send queue.

Code that works in place is a class whose fields it updates, with its loops; what runs beside other code
is a state machine over its steps, with lemmas about every run. Where the code reads something that
others may change at any time, or calls code outside these files, the model leaves the answer open and
the contracts hold for every answer. Where that would leave open whether anything is ever done, what a
look may find and what it is bound to find (`doubts` and `certain` in `ShrinkPageList`), or whether an
allocation may fail (`scarce`), is a parameter, and the contracts say what follows.

Places where the code does less than one might think, each with its exact condition for all inputs and
an input that shows it:

- unmap_mapping_range rounds the length of a hole without the offset of its begin; for a begin that is
  not page-aligned the last page is reached if and only if the partial pages fit into one
  (`UnmapMapping.UnalignedHole`, `UnmapMapping.LastByteMissed`).
- remap_pfn_range passes untrack_pfn the frame less the page number of the address after a failure: the
  right frame if and only if the address lies in the first page (`RemapPfn.UntrackedFrame`,
  `RemapPfn.WrongFrame`).
- do_shrink_slab loses deferred work if and only if the sum of what it takes and its delta does not fit
  a signed word; its test for a negative total_scan does not notice a sum that has wrapped around to a
  positive one (`ShrinkSlab.ConservedExactly`, `ShrinkSlab.Conserved`, `ShrinkSlab.WorkIsLost`).
- shrink_lruvec's loop does not watch the active anonymous list, whose budget is left over if and only
  if it lasts for more sweeps than those of the other lists, or than were made before enough was
  reclaimed (`ShrinkLruvec.Shrinker.Shrink`, `ShrinkLruvec.OnlyActiveAnon`).
- The comment above do_fault_around says that its window is naturally aligned; the window leaves the
  block of fault_around_bytes that holds the fault if and only if the VMA starts inside the block and
  neither the VMA nor the page table ends with it (`FaultAround.LeavesBlock`,
  `FaultAround.BlockIsLeft`).

And two that do no harm:

- The test against the end of the VMA in the skip loop of do_fault_around never decides
  (`FaultAround.DoFaultAround`).
- In the RDMA run later waits fall through because `state` still holds an older, larger value: both
  buffers already hold the same bytes (`RdmaRun.RunIsSafe`).

## Model

| member | source | states |
|---|---|---|
| Words.AddrEndMeaning | SharedPageExperiment/kernelFiles/memory.c:469-534 | with word arithmetic and the comparison on "- 1", p?d_addr_end is the smaller of the end of the entry's block and the end of the range, where the word 0 means the top |
| Walk.EntryBounds | SharedPageExperiment/kernelFiles/memory.c:1293-1377 | each step of a walk ends page-aligned, strictly further, inside the range and inside the entry's own block |
| FreePgtables.MayFreeIffFreeable | SharedPageExperiment/kernelFiles/memory.c:485-500 | the floor test, the masked ceiling test and the "end - 1 > ceiling - 1" test, with wrap-around and 0 as top, decide exactly whether the table's whole aligned span lies in [floor, ceiling) |
| FreePgtables.TrimKeeps | SharedPageExperiment/kernelFiles/memory.c:565-585 | cutting the range to whole table blocks at floor and ceiling drops no table that may go |
| FreePgtables.TrimWords | SharedPageExperiment/kernelFiles/memory.c:565-585 | the wrapping additions, masks and "- 1" comparisons of free_pgd_range compute the cut of that range in plain numbers |
| FreePgtables.ReturnsEarlyIfEmpty | SharedPageExperiment/kernelFiles/memory.c:565-585 | one of the three early returns of free_pgd_range is taken exactly if the range that is left is empty |
| FreePgtables.PageTables.Free | SharedPageExperiment/kernelFiles/memory.c:459-466 | a table is handed to the gather only once and only after everything inside it |
| FreePgtables.PageTables.FreeRange | SharedPageExperiment/kernelFiles/memory.c:459-534 | below one entry exactly the tables whose span lies in [floor, ceiling) go, the entry's own table included |
| FreePgtables.PageTables.FreeChildren | SharedPageExperiment/kernelFiles/memory.c:477-484 | the loop over the entries of a table misses no due table and visits each block once |
| FreePgtables.PageTables.FreePgdRange | SharedPageExperiment/kernelFiles/memory.c:539-595 | afterwards a table is left if and only if its span does not lie in [floor, ceiling), whatever wraps |
| FreePgtables.GroupIsCovered | SharedPageExperiment/kernelFiles/memory.c:597-630 | gathering VMAs less than a PMD apart, with a wrapping sum, leaves no table straddling two calls |
| FreePgtables.PageTables.FreePgtables | SharedPageExperiment/kernelFiles/memory.c:597-630 | over any sorted VMA list, a table goes if and only if its whole aligned span lies in [floor, ceiling); each goes once, inner ones first |
| CowRefinement.LazyRefinesEager | SharedPageExperiment/kernelFiles/memory.c:2393-2464 | for every run of loads, stores, fault steps, forks and unmaps, what each load returns equals a model in which the end of a fork copies all memory in one step |
| CowRefinement.ForkCopies | SharedPageExperiment/kernelFiles/memory.c:914-994 | if the parent does not store while its fork runs, then at its end the child sees in every page what the parent saw when it began, and so does the parent, under any interleaving |
| CowRefinement.ForkIsWhole | SharedPageExperiment/kernelFiles/memory.c:914-994 | when a fork ends the child sees what the parent sees then, in every page, even if the parent has stored meanwhile |
| CowRefinement.ReuseIsSafe | SharedPageExperiment/kernelFiles/memory.c:2440-2455 | if the mapcount is 1 while the entry maps the page, no other entry maps it, so making it writable is safe |
| CowRefinement.NoReturn | SharedPageExperiment/kernelFiles/memory.c:2205-2262 | while a copy is under way, the remembered read-only entry does not come back after it has changed, so the recheck suffices |
| CowRefinement.InvNext | SharedPageExperiment/kernelFiles/memory.c:2101-2291 | every step keeps: mapcount is the entries plus the rmaps still to be dropped, a writable entry is the only one of its page, allocated pages are unseen, copies are faithful, the zero page is zero |
| CowRefinement.FaultResolves | SharedPageExperiment/kernelFiles/memory.c:2101-2291 | after a fault that wins, the load or store that it was taken for can go on |
| CowRefinement.FaultWins | SharedPageExperiment/kernelFiles/memory.c:2101-2291 | from every state a write fault at a missing or read-only page can win by its own steps alone, at most a page's bytes and three of them, after which the store is possible; it needs one free page |
| CowRefinement.ForkCanEnd | SharedPageExperiment/kernelFiles/memory.c:914-994 | from every state a fork can end: one copy step for each page that is left, and then its end is possible |
| CowRefinement.CopyProgress | SharedPageExperiment/kernelFiles/memory.c:2191-2262 | a copy under way comes nearer to its end with each byte it copies and is set back by no other step |
| CowRefinement.InitiallyAgree | SharedPageExperiment/kernelFiles/memory.c:2800-2889 | the two machines agree before any memory is used |
| MmuGather.Gather.NextBatch | SharedPageExperiment/kernelFiles/memory.c:251-277 | a leftover batch is taken before a new one is linked; at the limit or without memory nothing changes |
| MmuGather.Gather.RemoveTlbEntry | SharedPageExperiment/kernelFiles/memory.c:1213-1214 | the range to flush grows to cover the address, and only as far as needed |
| MmuGather.Gather.RemovePage | SharedPageExperiment/kernelFiles/memory.c:360-376 | the page is appended to what waits; the result is the room left, so 0 asks for a flush |
| MmuGather.Gather.FlushTlbOnly | SharedPageExperiment/kernelFiles/memory.c:304-315 | afterwards no translation of a waiting page is cached, none outside the range was flushed, and the range starts afresh |
| MmuGather.NothingMissed | SharedPageExperiment/kernelFiles/memory.c:317-326 | because batches before the active one are full and those after it empty, stopping at the first empty batch drops everything |
| MmuGather.Gather.Flush | SharedPageExperiment/kernelFiles/memory.c:328-332 | flush before free: no dropped page has a cached translation |
| MmuGather.Gather.FreeBatchPages | SharedPageExperiment/kernelFiles/memory.c:344-351 | every linked batch page is given back, the local batch stays |
| MmuGather.Gather.Finish | SharedPageExperiment/kernelFiles/memory.c:338-352 | at the end nothing waits, nothing dropped is cached, and all batch pages are back |
| ZapRange.Mm.ZapEntry | SharedPageExperiment/kernelFiles/memory.c:1197-1265 | one entry: cleared or kept by the details, with exactly its counters, slot and reference; its page is marked dirty, and a flush forced, exactly if it goes, is of a file and dirty, or for the flush if the batch is full; a present entry that goes is inside the range to flush, even without a page |
| ZapRange.Mm.ZapPass | SharedPageExperiment/kernelFiles/memory.c:1190-1268 | one pass under the lock does a non-empty prefix, each entry once, and forces a flush exactly if a batch was full or it cleared a dirty entry of a file page |
| ZapRange.Mm.ZapPteRange | SharedPageExperiment/kernelFiles/memory.c:1181-1291 | passes, flushes and "goto again" together equal one flat loop over [addr, end) |
| ZapRange.Mm.ZapLevel | SharedPageExperiment/kernelFiles/memory.c:1293-1377 | the walk over any number of levels equals the flat loop: every entry inside once, none outside; the counters fall by the number of entries of each kind, each slot is given up and each page dropped once for each of its entries, and exactly the pages of dirty file entries are marked dirty |
| ZapRange.TornDownIs | SharedPageExperiment/kernelFiles/memory.c:1197-1265 | the running sums are the numbers of cleared entries of each kind, their slots, their references in address order, and the dirty file pages |
| UnmapMapping.UnmapSingleVma | SharedPageExperiment/kernelFiles/memory.c:1380-1421 | only the part of the range inside the VMA is unmapped |
| UnmapMapping.ZapPageRangeSingle | SharedPageExperiment/kernelFiles/memory.c:1488-1502 | on return every reference of a cleared entry has been dropped, in address order, and no translation of it is cached; counters, slots and dirty pages are those of the entries cleared |
| UnmapMapping.HoleIndices | SharedPageExperiment/kernelFiles/memory.c:2516-2535 | for page-aligned holebegin, an index is unmapped exactly if the page meets the hole; length 0 and index overflow mean to the end of the file |
| UnmapMapping.UnalignedHole | SharedPageExperiment/kernelFiles/memory.c:2516-2535 | for any holebegin, the last index is the page of the hole's last byte if and only if the two partial pages fit into one or the index overflows |
| UnmapMapping.LastByteMissed | SharedPageExperiment/kernelFiles/memory.c:2516-2535 | a page's length from byte 1 on: page 1 has a byte of the hole and is not unmapped |
| UnmapMapping.RangeShowsHole | SharedPageExperiment/kernelFiles/memory.c:2473-2497 | the byte range clipped to the VMA holds exactly the addresses whose file page lies in the hole |
| UnmapMapping.UnmapOne | SharedPageExperiment/kernelFiles/memory.c:2466-2497 | one VMA's part of the hole is cut out of its address space |
| UnmapMapping.UnmapMappingRange | SharedPageExperiment/kernelFiles/memory.c:2516-2543 | over all VMAs of the file an entry goes exactly if its address shows the hole and either even_cows is set or the entry maps a page of this file; for a page-aligned begin, exactly if its page has a byte of the hole |
| UnmapMapping.CopiesStay | SharedPageExperiment/kernelFiles/memory.c:1205-1245 | with even_cows 0 private copies and swap entries stay, since their page belongs to no file |
| CopyRange.Fork.SwapDuplicate | SharedPageExperiment/kernelFiles/memory.c:926-929 | either the slot counts exactly one use more, within its limit, or it is full and nothing changed |
| CopyRange.Fork.AddSwapCountContinuation | SharedPageExperiment/kernelFiles/memory.c:1049-1053 | it succeeds exactly if the slot has room for one more use afterwards |
| CopyRange.Fork.CopyPresent | SharedPageExperiment/kernelFiles/memory.c:967-994 | a present entry: write protection in both if copy-on-write, clean if shared, old; one reference and one mapping if there is a page, and one on the counter for anonymous or for file pages as its page is |
| CopyRange.Fork.CopyAbsent | SharedPageExperiment/kernelFiles/memory.c:923-961 | swap and migration entries: use count or nothing, counter by kind, writable migration entries made read-only in both; a full slot changes nothing |
| CopyRange.Fork.CopyOnePte | SharedPageExperiment/kernelFiles/memory.c:914-994 | parent and child entry, references and the one counter of its kind are exactly those of this entry, or the full slot is returned and nothing changed |
| CopyRange.Fork.CopyPass | SharedPageExperiment/kernelFiles/memory.c:1007-1046 | a pass ends at the end, when others wait, or at a full slot; never without progress, never early if nobody waits, and after at most 32 entries if somebody always does |
| CopyRange.Fork.CopyPteRange | SharedPageExperiment/kernelFiles/memory.c:996-1057 | restarts after a break or a swap-count continuation neither skip nor repeat an entry, and come to an end, short of the range exactly if a continuation failed |
| CopyRange.Fork.CopyLevel | SharedPageExperiment/kernelFiles/memory.c:1059-1112 | the walk over any number of levels equals the flat copy of a prefix, of the whole range unless memory ran out |
| CopyRange.Fork.CopyPageRange | SharedPageExperiment/kernelFiles/memory.c:1114-1179 | mappings that a fault will fill are skipped; otherwise the child's counters grow by the number of anonymous, file and swap entries below where the copy stops, each page gets a reference and a mapping and each slot a use for every entry of it, and the entries on both sides are as for one entry; it stops short exactly if it fails, and only for want of memory |
| CopyRange.CountedIsTotal | SharedPageExperiment/kernelFiles/memory.c:914-994 | the running sums are the numbers of entries of each kind, and of the entries of each frame and slot |
| FaultRaces.InvNext | SharedPageExperiment/kernelFiles/memory.c:3409-3468 | in every interleaving of any number of faults, reclaim and zapping: each page's count is its entries, holders, cache slots and outside references; RSS is the entries by kind; charges are pending plus committed; page locks have the owners that believe so |
| FaultRaces.InitiallyInOrder | SharedPageExperiment/kernelFiles/memory.c:3409-3468 | this holds before anything is mapped, referenced or charged |
| FaultRaces.NothingLeaks | SharedPageExperiment/kernelFiles/memory.c:2168-2291 | when no fault is left, every reference, lock and charge that a winner or loser took is gone unless an entry accounts for it |
| FaultRaces.OneWinner | SharedPageExperiment/kernelFiles/memory.c:2203-2262 | of faults that saw the same value, at most one replaces it, unless somebody put the value back in between |
| FaultRaces.RecheckGuards | SharedPageExperiment/kernelFiles/memory.c:2203-2206 | a fault changes only its own entry and only while it still is what the fault has seen |
| FaultRaces.UpgradesOnly | SharedPageExperiment/kernelFiles/memory.c:2101-2160 | a write-protection fault that keeps the page only makes its entry writable; page_mkwrite may also map the page |
| FaultRaces.StoresStayAlways | SharedPageExperiment/kernelFiles/memory.c:2393-2464 | in every run an entry that is writable and not anonymous lies in a shared mapping of a file, and no fault is about to make another: stores to private mappings never reach the page cache |
| FaultRaces.ProtectionMeaning | SharedPageExperiment/kernelFiles/memory.c:2393-2464 | a write to the zero page, to a page of a file in a private mapping or to an anonymous page that may not be reused leads to a copy, with the entry unchanged; only a reusable anonymous page and a page of a shared mapping become writable in place |
| FaultRaces.AwakeMeaning | SharedPageExperiment/kernelFiles/memory.c:2423-2464 | after the sleep on the page lock, an entry that has changed is left alone; otherwise the page is reused if that is allowed, and copied if not |
| FaultRaces.PlaceMeaning | SharedPageExperiment/kernelFiles/memory.c:2200-2291 | under the lock an entry is replaced exactly if it is what the fault has seen, by its fresh page or copy, the swapped-in page, or the page of the file, writable only for a write |
| FaultRaces.StepsFall | SharedPageExperiment/kernelFiles/memory.c:3409-3468 | each step of a fault brings it nearer to its end, whatever the others do: ten at most |
| FaultRaces.NotStuck | SharedPageExperiment/kernelFiles/memory.c:3409-3468 | a fault that is not over can always take a step, unless it waits for a page lock that is held |
| FaultRaces.DoKeeps | SharedPageExperiment/kernelFiles/memory.c:2168-2291 | the uniform argument: a step whose references, counters, charges and lock match what it leaves behind keeps the invariant |
| FaultRaces.PlaceAnonFits | SharedPageExperiment/kernelFiles/memory.c:2858-2889 | do_anonymous_page under the lock: install with counter and commit, or cancel and release |
| FaultRaces.ProtectionFits | SharedPageExperiment/kernelFiles/memory.c:2393-2464 | do_wp_page: reuse, copy, sleep on the page lock, or the shared path, each with its reference |
| FaultRaces.PlaceCopyFits | SharedPageExperiment/kernelFiles/memory.c:2200-2291 | wp_page_copy: file to anonymous, the entry's reference on the old page dropped, or charge and copy given back |
| FaultRaces.PlaceSwapFits | SharedPageExperiment/kernelFiles/memory.c:2650-2758 | do_swap_page under the lock: counters move from swap to anonymous, lookup's reference becomes the entry's, a write goes on to do_wp_page; losers give back charge, lock and reference |
| FaultRaces.PlaceFileFits | SharedPageExperiment/kernelFiles/memory.c:3076-3243 | do_read_fault, do_cow_fault and do_shared_fault install or release the file page, its lock, the copy and its charge |
| RemapPfn.Mapper.RemapPteRange | SharedPageExperiment/kernelFiles/memory.c:1730-1749 | the entries of one table get consecutive frames |
| RemapPfn.Mapper.RemapLevel | SharedPageExperiment/kernelFiles/memory.c:1751-1790 | over any number of levels address a gets frame pfn + ((a - addr) >> PAGE_SHIFT) modulo the word, for a prefix, for all unless memory ran out |
| RemapPfn.Mapper.RemapPfnRange | SharedPageExperiment/kernelFiles/memory.c:1802-1857 | a copy-on-write VMA must be remapped whole and then has vm_pgoff == pfn; address a gets frame pfn + (a - addr) / PAGE_SIZE modulo the word, for the whole range on success; it fails only for that, for a refused range or for want of memory |
| RemapPfn.NormalPageMeaning | SharedPageExperiment/kernelFiles/memory.c:818-866 | an entry has a page exactly if, in a mixed mapping, its frame is valid, and otherwise if the frame is in range, not the zero frame and, in a frame mapping, a copy and not the linear one |
| RemapPfn.UntrackedFrame | SharedPageExperiment/kernelFiles/memory.c:1838-1853 | after a failure the frame passed to untrack_pfn is the tracked one if and only if the address lies in the first page |
| RemapPfn.WrongFrame | SharedPageExperiment/kernelFiles/memory.c:1838-1853 | an input for which untrack_pfn gets another frame |
| RemapPfn.RemapThenLook | SharedPageExperiment/kernelFiles/memory.c:818-866 | after a remap no entry has a page, and a copy is found exactly if it is not the linear, zero or an out-of-range frame |
| FaultAround.Setting.Set | SharedPageExperiment/kernelFiles/memory.c:2984-2993 | the setting stays a power of two from one page to PTRS_PER_PTE pages, the largest not above the value; larger values are refused |
| FaultAround.OpeningFits | SharedPageExperiment/kernelFiles/memory.c:3033-3058 | the window starts at the fault's block or at the VMA, holds the faulting page, keeps entry, address and file page in step, and ends with the page table, the VMA or after fault_around_bytes, whatever comes first |
| FaultAround.LeavesBlock | SharedPageExperiment/kernelFiles/memory.c:3029-3056 | the window leaves the block of fault_around_bytes that holds the fault if and only if the VMA starts inside the block, and neither the VMA nor the page table ends with it |
| FaultAround.BlockIsLeft | SharedPageExperiment/kernelFiles/memory.c:3029-3056 | such a window: a fault in the first page of a VMA that starts in the middle of a 16-page block |
| FaultAround.DoFaultAround | SharedPageExperiment/kernelFiles/memory.c:3033-3074 | skipping keeps address, entry and file page in step and stops at the first empty entry; nothing is passed on exactly if the window is full |
| ShrinkPageList.Reclaimer.CountDirty | SharedPageExperiment/kernelFiles/vmscan.c:1014-1035 | a page counts once as dirty, as unqueued or as congested, each under its own condition; unqueued dirty and congested pages stay at most as many as dirty ones |
| ShrinkPageList.Reclaimer.OnWriteback | SharedPageExperiment/kernelFiles/vmscan.c:1076-1113 | cases 1 and 2 keep the page locked and count it; case 3 unlocks it, waits and tries again |
| ShrinkPageList.Reclaimer.OnDirty | SharedPageExperiment/kernelFiles/vmscan.c:1161-1239 | the page ends locked or unlocked as its label says, also across a write that completed at once; it goes on to be freed only written and not under writeback; a file page is written only by kswapd in a dirty zone, and none by force or if it may be freed only clean; otherwise a reason that the circumstances bear out is recorded and decides the label |
| ShrinkPageList.Reclaimer.TryToFree | SharedPageExperiment/kernelFiles/vmscan.c:1241-1296 | freed and left pages are unlocked and lose the isolation's reference, kept ones lose neither; a page is kept only for buffers that could not be released, for having no mapping, or for users found by __remove_mapping, and is freed here exactly if that was the last reference |
| ShrinkPageList.Reclaimer.Judge | SharedPageExperiment/kernelFiles/vmscan.c:1111-1296 | a page that is freed or left was unreferenced unless forced, passed every later test or was unmapped, swapped or written for it, and is not under writeback; any other has the recorded reason that decides its label |
| ShrinkPageList.Reclaimer.Turn | SharedPageExperiment/kernelFiles/vmscan.c:982-1324 | one turn settles one page, or ends its writeback and leaves it at the tail; the pair (pages under writeback, list length) decreases; the page is scanned at most twice, and at least once if it goes |
| ShrinkPageList.Reclaimer.ShrinkPageList | SharedPageExperiment/kernelFiles/vmscan.c:958-1339 | every page is in exactly one of freed, returned and left; a page comes back only for a reason that some look at it may find and the circumstances bear out, so one that nothing speaks against, or that is only dirty and may be written, goes; a page of which every look finds it busy, not evictable, in use or dirty does not go, the dirty one unless written; a returned page is activated exactly for use, lack of swap, a failed unmap, write or release; the result is freed plus left and at most what was scanned; nothing returned is locked and everything returned is referenced; counters stay ordered; the loop ends |
| RemoveMapping.InvNext | SharedPageExperiment/kernelFiles/vmscan.c:687-770 | with references frozen first, every step keeps: a write not yet on disk is marked dirty or about to be, and a frozen page has no users |
| RemoveMapping.NoLostWrite | SharedPageExperiment/kernelFiles/vmscan.c:687-770 | in every interleaving a detached page equals its backing store, is clean and has no other holder |
| RemoveMapping.FailureRestores | SharedPageExperiment/kernelFiles/vmscan.c:722-728 | a failed attempt leaves the references of isolation, cache and users |
| RemoveMapping.GoesIfUnusedAndClean | SharedPageExperiment/kernelFiles/vmscan.c:687-770 | an undisturbed attempt detaches the page exactly if no user holds it and it is not dirty, and otherwise changes nothing |
| RemoveMapping.FrozenIsClosed | SharedPageExperiment/kernelFiles/vmscan.c:699-728 | once the references are frozen no other step is possible before the dirty test |
| RemoveMapping.OtherOrderLoses | SharedPageExperiment/kernelFiles/vmscan.c:699-720 | with the dirty test first there is a run that loses a write |
| ShrinkLruvec.BudgetBound | SharedPageExperiment/kernelFiles/vmscan.c:2230-2254 | no budget exceeds its list, and a forced one of a non-empty list is not 0 unless fractional |
| ShrinkLruvec.SharesFit | SharedPageExperiment/kernelFiles/vmscan.c:2219-2248 | the anonymous and file shares of one scan amount never add up to more than it |
| ShrinkLruvec.PressureFollows | SharedPageExperiment/kernelFiles/vmscan.c:2203-2215 | a type that is scanned more or rotated less is pressed at least as hard |
| ShrinkLruvec.Lruvec.GetScanCount | SharedPageExperiment/kernelFiles/vmscan.c:2068-2267 | each budget by type of list: the size shifted by the priority, by force at least min(size, 32), times ap / (ap + fp + 1) for anonymous and fp / (ap + fp + 1) for file lists where both are weighed, and 0 for a type left out; which of these it is, from swap, swappiness, priority, page cache and the inactive file list; the averages halved past a quarter; forced only if nothing was found, and then, unless fractional, something is found whenever an included list is non-empty |
| ShrinkLruvec.ShiftHalves | SharedPageExperiment/kernelFiles/vmscan.c:2227 | the shift by the priority halves the size that many times |
| ShrinkLruvec.Shrinker.Sweep | SharedPageExperiment/kernelFiles/vmscan.c:2310-2319 | each list is asked for up to SWAP_CLUSTER_MAX pages, exactly what its budget loses, and all that is reclaimed is added up |
| ShrinkLruvec.Shrinker.Recalculate | SharedPageExperiment/kernelFiles/vmscan.c:2359-2369 | a list of the larger type is cut to its share less what was asked already, never raised, without underflow |
| ShrinkLruvec.Shrinker.Rebalance | SharedPageExperiment/kernelFiles/vmscan.c:2331-2369 | the smaller type stops, the larger is cut by the percentage left of the smaller, which is below 100; no budget grows |
| ShrinkLruvec.Shrinker.Shrink | SharedPageExperiment/kernelFiles/vmscan.c:2300-2372 | the loop ends, rebalances at most once and never at DEF_PRIORITY direct reclaim, at the first sweep by which enough is reclaimed and only if both types have something left, and fails to only if enough never was; it makes as many sweeps as the budgets of the three watched lists last, unless enough is reclaimed and one type is empty; the active anonymous list has something left exactly if its budget lasts for more |
| ShrinkLruvec.OnlyActiveAnon | SharedPageExperiment/kernelFiles/vmscan.c:2300-2301 | a budget of the active anonymous list alone is left whole |
| ShrinkLruvec.RequestsEnd | SharedPageExperiment/kernelFiles/vmscan.c:2355-2369 | after the rebalance the requests to a list of the larger type are at most max(already asked, targets * (100 - percentage) / 100), with equality if and only if the list is drained, where percentage is what was left of the smaller type, whose lists are asked for nothing more |
| ShrinkLruvec.Run | SharedPageExperiment/kernelFiles/vmscan.c:2272-2385 | the targets are the budgets of get_scan_count; no list is asked for more than its target, nor its size, and the watched lists for exactly that as long as too little is reclaimed |
| ShrinkSlab.ScanLoop | SharedPageExperiment/kernelFiles/vmscan.c:411-430 | for every positive batch the loop ends, having scanned whole batches or all it was given; a round begins only while a batch or all objects are left, and unless it is stopped the loop ends only when neither is |
| ShrinkSlab.Conserved | SharedPageExperiment/kernelFiles/vmscan.c:358-436 | taken plus delta equals scanned plus put back, up to the counter's width, if and only if total_scan did not become negative |
| ShrinkSlab.ConservedExactly | SharedPageExperiment/kernelFiles/vmscan.c:358-436 | taken plus delta equals scanned plus put back if and only if the sum fits the counter |
| ShrinkSlab.WorkIsLost | SharedPageExperiment/kernelFiles/vmscan.c:358-436 | inputs that lose work: one with a negative total_scan, one whose sum wraps around past it |
| ShrinkSlab.Shrinker.DoShrinkSlab | SharedPageExperiment/kernelFiles/vmscan.c:336-453 | one undisturbed call aims at deferred work plus delta, at most half of what is there if delta is below a quarter of it and otherwise at most twice, and comes within a batch of that aim unless stopped; it conserves the work if and only if the sum fits the counter |
| ShrinkSlab.InvNext | SharedPageExperiment/kernelFiles/vmscan.c:358-446 | for concurrent calls: the counter plus all credit in flight is initial plus deltas minus scanned, and no call exceeds twice its freeable objects |
| ShrinkSlab.WorkConserved | SharedPageExperiment/kernelFiles/vmscan.c:358-446 | when all calls are done no deferred work is lost or made up, up to the width of the counter, and none at all if and only if the balance fits it |
| Unevictable.WatchedNext | SharedPageExperiment/kernelFiles/vmscan.c:801-862 | an evictable page on the unevictable list always has a thread that will look at it again |
| Unevictable.NeverStranded | SharedPageExperiment/kernelFiles/vmscan.c:801-862 | for any mix of putters, lockers and unlockers, when all are done an evictable page is on the evictable list |
| Unevictable.Rescued | SharedPageExperiment/kernelFiles/vmscan.c:801-862 | if nobody marks the page again and every mark is cleared by its owner, the page ends on the evictable list |
| Unevictable.RunEnds | SharedPageExperiment/kernelFiles/vmscan.c:801-862 | no run goes on for ever, however often the page is isolated again, and one that cannot go on has all threads done |
| Unevictable.NoRetestStrands | SharedPageExperiment/kernelFiles/vmscan.c:838-852 | without the second look there is a run that strands the page |
| Unevictable.CheckFirstStrands | SharedPageExperiment/kernelFiles/vmscan.c:3937-3978 | an unlocker that checks before clearing the mark strands the page even alone |
| LruLists.Zone.IsolateLruPages | SharedPageExperiment/kernelFiles/vmscan.c:1463-1504 | the list splits into kept and taken, nothing lost or doubled, as the answers to the looks decide; it ends exactly when so many were looked at, enough is taken or the list is empty; the amount overshoots by less than the page taken last |
| LruLists.EachOnce | SharedPageExperiment/kernelFiles/vmscan.c:1470-1500 | each page is looked at before any is looked at again: the rest stays at the tail, busy pages go to the head, and both they and the taken ones keep their order |
| LruLists.Zone.WhereFound | SharedPageExperiment/kernelFiles/vmscan.c:1592-1645 | at all times each list holds exactly the pages whose flags name it |
| LruLists.RotatedParts | SharedPageExperiment/kernelFiles/vmscan.c:1620-1625 | what counts as rotated is the size of the pages that do: with the others it makes up the list |
| LruLists.Zone.Isolate | SharedPageExperiment/kernelFiles/vmscan.c:1695-1699 | NR_LRU falls and NR_ISOLATED rises by what was taken |
| LruLists.Zone.PutBack | SharedPageExperiment/kernelFiles/vmscan.c:1613-1638 | the page is back on its list, or, if that was its last reference, off it again with flags and counter undone, and freed |
| LruLists.Zone.PutbackLruPage | SharedPageExperiment/kernelFiles/vmscan.c:801-862 | the page ends on the unevictable list exactly if it is not evictable, otherwise on the list its flags name, or is freed if ours was the last reference |
| LruLists.Zone.PutbackInactivePages | SharedPageExperiment/kernelFiles/vmscan.c:1592-1645 | of the pages of the list exactly those whose last reference was ours are freed and lose their active flag, the others end on LRU lists, the unevictable ones flagged so; active ones that are put back count as rotated by their size and type; the counters match the lists |
| LruLists.Zone.Reclaim | SharedPageExperiment/kernelFiles/vmscan.c:1714-1717 | what does not come back is gone: every page that nothing speaks against, and none that is bound to be kept; what was activated comes back and may have been in use; the result counts what is gone |
| LruLists.Zone.ShrinkInactiveList | SharedPageExperiment/kernelFiles/vmscan.c:1664-1741 | pages are taken until so many were looked at, enough is taken or the list is empty; every page taken is on an LRU list again, or gone because shrink_page_list or the last reference said so, as every page does that nothing speaks against; the isolated counter is back, each NR_LRU matches its list; scanned and rotated grow by exactly the pages taken and the active ones put back |
| LruLists.Zone.MoveActivePagesToLru | SharedPageExperiment/kernelFiles/vmscan.c:1827-1866 | every page ends on the list given, or is freed exactly if ours was the last reference; the counters match |
| LruLists.Zone.Sort | SharedPageExperiment/kernelFiles/vmscan.c:1902-1942 | each held page goes back if unevictable, to the active heap if referenced, executable and of a file, and otherwise deactivated to the other heap; rotated is the size of the referenced ones |
| LruLists.Zone.ShrinkActiveList | SharedPageExperiment/kernelFiles/vmscan.c:1868-1966 | pages are taken until so many were looked at, enough is taken or the list is empty; every page taken is on an LRU list again or freed because ours was the last reference; exactly the evictable ones that are not referenced, executable and of a file lose the active flag; the isolated counter is back, each NR_LRU matches its list; scanned and rotated grow by the pages taken and the referenced ones |
| RdmaRun.FillStartBuf | client/megaVM_client.c:640-651 | the buffer holds the prefix, the codes 65 to 122 over and over, and a final 0 |
| RdmaRun.InvNext | server/megaVM_server.c:639-721 | every step keeps: which requests are posted and in what order, that state is the last completion's, that both buffers hold the text after the first read, and what the client may conclude |
| RdmaRun.RunIsSafe | server/megaVM_server.c:639-721 | at most 21 requests are outstanding against a depth of 64, every read and write covers exactly what was advertised, and the client's buffer is unchanged byte for byte although waits fall through on stale states |
| RdmaRun.LeavesBehindGoAhead | client/megaVM_client.c:653-663 | the client leaves its wait only after the server has posted ten reads and ten writes by turns and then the go-ahead; what is left of them in the queue has moved all its bytes, so nothing touches the client's buffer any more |
| RdmaRun.NotStuck | server/megaVM_server.c:661-719 | unless all is done some step is possible: a wait below its threshold has a request that will raise the state |
| RdmaRun.RunEnds | server/megaVM_server.c:702-721 | every run is finite, and one that cannot go on has finished on both sides with ten reads and ten writes by turns and then the go-ahead posted and done, and the client's text in both buffers |

## Left out

- Transparent huge pages, hugetlb, KSM, NUMA faults, userfaultfd, memory cgroup internals and uprobes; pages are base pages (LRU lists count sizes), charges are a counter.
- Barriers below sequential consistency, cache maintenance, tracing and event counters.
- FreePgtables.PageTables.FreePgtables: asks that every table inside [floor, ceiling) overlaps a VMA of the list, which is what "no other user of this space" means to its callers (a stray table below one that goes would go unfreed with it); unlink_anon_vmas and unlink_file_vma are not part of this model.
- CowRefinement.LazyRefinesEager: has no swap and no cached translations; a translation counts as gone when its entry changes, as after ptep_clear_flush or the flush at the end of dup_mmap. mmap_sem keeps fork apart from faults of the same process; that the copy of a fork goes through every page before it ends, which is a guard here, is what CopyRange proves of the walk.
- MmuGather.Gather.RemovePage: a batch is a sequence with a limit, not an array; gathered table pages (tlb_remove_table) are not part of this model.
- ZapRange.Mm.ZapEntry: mark_page_accessed and the young bit, soft-dirty bits and bad-entry reports are not modelled; nobody else changes the entries between two passes.
- CopyRange.Fork.CopyPteRange: nobody else changes the parent's entries while the locks are dropped; how far a continuation raises a slot's limit is left open; soft-dirty bits and mmu notifiers are not modelled.
- UnmapMapping.UnmapMappingRange: the interval tree is a sequence of VMAs; i_mmap locking is not modelled, and holebegin + holelen does not overflow loff_t.
- unmap_vmas and zap_page_range: plain loops over unmap_single_vma.
- FaultRaces.InvNext: does not keep mapcounts or page contents, which CowRefinement does; whether reuse_swap_page says yes is left open; a DAX handler that fills the copy itself, and uncounted frames of VM_PFNMAP and VM_MIXEDMAP, are not modelled.
- RemapPfn.Mapper.RemapPfnRange: page tables are not tracked, only whether their allocation may fail.
- ShrinkPageList.Reclaimer.ShrinkPageList: nobody else starts writeback on a page of the list, which holds the measure together; otherwise a page could be re-queued for ever.
- LruLists.Zone.ShrinkInactiveList: other threads' changes to the lists while the lock is dropped are not modelled; a page in a pagevec counts as on its list; throttling and zone flags are left out.
- ShrinkLruvec.Shrinker.Shrink: counts are not bounded by a word, so percentage * targets cannot overflow; the balancing of the anonymous lists and throttle_vm_writeout at the end are left out.
- ShrinkSlab.Shrinker.DoShrinkSlab: delta is any unsigned 64-bit value, since do_div's divisor width is not in these files; freeable is below a quarter of the word.
- RdmaRun.RunEnds: disconnects, errors and signals are excluded, although the server disconnects right after posting the go-ahead; connection set-up, statistics and the keys are left out.
- Logging added by the repository (addInArray, pageContentStore and their copies), `pteStore.c`, `pteExp.c`, `forkCall.c`, `heap copy/`: append logs and demo programs that would only add easy members.
- kswapd's sleeping, watermarks, throttling and congestion waits: they rest on the scheduler and on code that is not part of this model.
- The commented-out ping/pong loops, module set-up and tear-down, queue-pair and memory-region set-up.
