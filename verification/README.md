# avisor: a verified model of its stateful core

avisor is a small hypervisor for AArch64. This project models the parts of it that keep state in
loops, linked lists, tables and shared words, and proves what they are for. Everything is checked by
`dafny verify dfyconfig.toml`.

| files | part of the hypervisor |
|---|---|
| `Blocks`, `PageTable`, `Descriptors`, `TableMemory`, `Ranges`, `Expansion`, `Mapping`, `Scanning`, `Reservation`, `Seams`, `Unmapping`, `Accounts`, `AddressSpace`, `StrayWalk`, `SearchEnds` | stage-2 page tables: allocation of address ranges, mapping, expansion of superpages, unmapping |
| `Bmq`, `RunQueues` | the vCPU scheduler of one VM: ten linked FIFO chains and a bitmap |
| `Bfs` | the VM scheduler: a doubly linked list with virtual deadlines |
| `SchedRun`, `Bypass`, `SliceAsserts`, `Rounds`, `Overtaking` | all CPUs scheduling and ticking together, as runs of steps |
| `Barrier`, `TicketLock` | the CPU barrier and the ticket lock, one shared-memory step at a time |
| `Bitmap`, `PageSearch`, `PagePool` | word-at-a-time bitmap searches and the physical page allocator |
| `Smmuv2`, `Smmuv3` | merging of stream match entries; the command ring with wrap bits |
| `Options` | values that may be missing |
| `Vgic` | interrupts moving between software state, list registers and spill lists (GICv2) |

**How it is built.** What the source updates in place is a class or an array here, and each method is
proved against a value: page tables in memory against a tree and the tree against the meaning of
every address; linked chains against sequences; registers against unbounded counters. What CPUs do
to each other is a state machine whose steps are the single loads, stores and critical sections of
the source, and the results are about every run of it. Bit fields are modelled as the fields or the
bits they consist of; shifts and masks on powers of two are `Rem`, `Quot` and `Down` of `Blocks`.

**Meaning of a page table.** A tree of tables gives each address a state: mapped to a physical
address, reserved, or free, and the entry it ends at gives the attributes. An address counts modulo the size of the address space, because the
root index is masked. The descriptor is a parameter; `Descriptors` shows that the one the build uses
is covered.

**Where the code and its own comments or intentions differ**, the code is what is modelled, and the
exact condition under which it does what is intended is proved:

* `mem_unmap` goes up one level only after the end of a table. If a mapping more than one level
  higher starts there, the walk takes mapped memory for a table. `Unmap` finishes exactly when this
  does not happen in the range (`ClimbsByOne`). `StrayTree` is a tree on which it does; it needs a
  root table that is handed in with superpages, and the only caller of `as_init` hands in none. From
  a new address space on, `AllocMap`, `MemMap` and `Unmap` keep everything mapped page by page
  (`PageLeaves`), and then `Unmap` never goes astray from a page boundary.
* From inside a page, `mem_unmap` takes the page for a block that is only partly covered; expanding
  it does nothing and the walk goes on to a level that there is not. So it never finishes, although
  `mem_map` rounds such an address down.
* Expanding a superpage resets the attributes of all its parts to the default of the address space,
  also of those outside the range that is mapped or unmapped (`AttrsKept`). Entries of pages keep
  theirs.
* When no page is left for a table, the source stops with an error or goes on with a null pointer.
  The exact need is the number of tables missing over the range (`Missing`): where `MemMap`, or
  `AllocMap` at a given place, can do it at all, it runs out if and only if there are fewer pages.
  A range that `AllocMap` has found stays reserved then.
* `mem_alloc_vpage` without an address starts over when its 64-bit address wraps to 0. The only way
  out of a search that finds nothing is the test, at the head of the outer loop, for n pages below
  the last address; that loop is entered exactly at the seams of the tree, where a table begins or
  the level changes. So the search spins for ever, with the lock held, if and only if there is room
  for n pages at every seam (`RoomAtSeams`): always for one page, never for more pages than the
  address space has, and in a tree looked at on one level exactly when they fit into one table.
  `FullRoot` and `FillThenSearch` spin.
* The same search keeps counting across the end of the address space, and can return a range whose
  upper pages lie outside. `AllocAnywhere` states that it does so only when no free range lies
  inside; `OnlyAcrossTheEnd` is a tree for which it has to.
* With an address, the same test refuses a free range whose pages lie too near the last 64-bit
  address, wherever the search comes to another table inside it: `RoomAtStops`, `RefusesFreeRange`.
* `mem_inflate_pt` steps from an unaligned address and can miss the last block. `MemMap` finishes
  exactly when it does not (`StepsReachEnd`), and `MapAcrossTables` is a call, as `rq.c` line 84 can
  make it, that does not finish. Reservation makes the last block a table beforehand, so `AllocMap`
  is not affected.
* `cpu_sync_and_clear_msgs` increments and reads the counter separately. A CPU that reads after
  another has already arrived at the closing barrier waits for a round it takes no part in, and is
  stuck for good; `WhoPollsForOwnRound`, `ReleasedExactlyWhen` and `LateReadDeadlocks`, after which
  no step is possible.
* The two slice assertions of the schedulers fail in some run of a system exactly when it has at
  least as many VMs as CPUs and the ticks of a vCPU slice do not divide those of a VM slice:
  `AssertsFailExactlyWhen`. With fewer VMs than CPUs the CPUs that look for a VM never come to the
  barrier of the ticks, so no tick ever ends: `FewerVmsStop`.
* A CPU that gives a VM up reads the clock before it takes the lock of the list, and CPU 0 can tick in
  between. A VM that is due can then be overtaken by one that was not ahead of it, exactly when a
  tick is not shorter than the distance of deadlines: `BypassExactlyWhen`. With the constants of the
  source it is shorter: `SourceTickIsShort`.
* A vCPU with a static priority more than five levels better than another's level starves it:
  `PickedUnlessConfined`. With the default priorities this cannot happen.
* `pp_alloc` compares an unsigned result with `< 0`, so its second pass never runs and a failed
  search is used as a bit number. `PpAlloc` returns `SearchFails` at that point and says nothing of
  what the source does then.
* An aligned request finds an aligned run whenever there is one exactly if it is for one or two
  pages: `AlignedSearchExactlyWhen`. For more, a retry can pass a usable run, and does so exactly
  when the run it starts from lies more than half its length past an aligned place. Even in an
  entirely free tail it succeeds only if the odd part of the number of pages divides the distance of
  the starting point from an aligned one (`FreeTailExactlyWhen`); `OneThenThree` fails that way.
* The comment on stream match entries says devices are never merged with each other; the group bit
  of an entry is never cleared, so an entry that once held a group lets them:
  `DeviceRefusedExactlyWhen`, and `GroupFlagOutlivesGroup` for how it comes about. What streams map
  to is right all the same.
* A boost of a vCPU at the lower limit of its adjustment takes the other branch of `prio_manage` and
  lowers its priority; everywhere else it raises it: `BoostExactlyWhen`.
* Eviction compares priorities without their three low bits. What is evicted is less urgent than the
  newcomer all the same; that it is the least urgent fails exactly for priorities that differ in
  those bits only: `LeastUrgentExactlyWhen`.

## Model

| member | source | states |
|---|---|---|
| AddressSpaces.AddressSpace.AllocMap | src/core/mmu.c:313-336 | on success the range was free and exactly it changes: its first pages stand for the physical pages in order with the attributes asked for, the rest is reserved, every other address stands for what it did before, and what was mapped by pages elsewhere keeps its entry; the mapping never goes astray; with an address given, that address exactly if it is free and every stop of the search has room; without one, the first place that fits, none being overlooked; everything mapped page by page stays so; every page taken from the allocator became a table, so NoPages means all of them did, and with an address given it means there were fewer than tables missing over the range, while success takes exactly as many; without one, fewer than are missing before the end of any free place; a range found then stays reserved |
| AddressSpaces.AddressSpace.MapThenUnmap | src/core/mmu.c:313-403 | mapping a free range and unmapping it gives back what every address stood for, if and only if the allocator has a page for each table missing over the range, and takes exactly as many |
| AddressSpaces.MapInNewSpace | src/core/mmu.c:164-182 | the first mapping of a new address space succeeds if and only if there is a page for each table missing: one for each level below the root for one page, and always with as many for each page |
| AddressSpaces.AddressSpace.AllocVpage | src/core/mmu.c:184-276 | reserves exactly n pages that were free, first fit, changing no mapping, no attributes and no other reservation, in entries of levels that can be blocks; otherwise no address changes its meaning; at a given place it fails exactly when the range is not free or a stop in it is too near the last 64-bit address; a search without a place that finds nothing goes on for ever if and only if every seam of the tree has room for n pages before that address, and its next round is like the last; tables are made only over the place asked for, or before the end of every free place, and NoPages means that fewer pages were left than tables are missing there |
| AddressSpaces.AddressSpace.FindRun | src/core/mmu.c:202-256 | the two nested loops terminate with a free run of whole entries, the first there is, or with one of the two ways of not finding any |
| AddressSpaces.AddressSpace.AllocAt | src/core/mmu.c:184-276 | with an address, returns that address if and only if the whole range was free and every stop of the search in it has room for as many pages again before the last 64-bit address, inside the address space or beyond it; further than twice the range from that address, if and only if it was free; it runs out of pages only with fewer than tables are missing over the range |
| AddressSpaces.AddressSpace.AllocAnywhere | src/core/mmu.c:184-276 | without an address, finds a range if and only if there is a free one anywhere; the range lies inside the address space if and only if a free one does; when there is none, it returns INVALID_VA or spins exactly as some seam is too near the last address or none is; it runs out of pages only with fewer than tables are missing before the end of any free place |
| AddressSpaces.AddressSpace.ScanEntry | src/core/mmu.c:225-254 | one turn of the scan: an occupied entry restarts the count or fails, a free one is counted whole or split, a table is entered, and only at a seam |
| AddressSpaces.AddressSpace.SplitFree | src/core/mmu.c:237-247 | a free entry that cannot be counted whole becomes a table, which keeps what the scan knows |
| AddressSpaces.AddressSpace.ScanTable | src/core/mmu.c:219-255 | the scan of one table keeps what is known of all addresses passed, and leaves the table at the next seam |
| AddressSpaces.AddressSpace.ReserveRange | src/core/mmu.c:258-271 | marks exactly the entries that tile the run found, and with them exactly its pages |
| AddressSpaces.AddressSpace.MemMap | src/core/mmu.c:278-311 | maps the pages in order, with the attributes asked for, and nothing else; with as many pages as addresses it finishes exactly when the steps of the inflation come to the last block at every level, and otherwise a walk takes an entry for a table that is none; everything mapped page by page stays so; a page entry outside the range is kept, attributes included; in the first case it runs out of pages if and only if there are fewer than tables missing over the range, and all of them have become tables then |
| AddressSpaces.AddressSpace.MapPages | src/core/mmu.c:300-305 | the loop over pages writes page k of the physical range at page k, with the attributes asked for, up to the first page that no table reaches |
| AddressSpaces.AddressSpace.MapPage | src/core/mmu.c:300-305 | one turn of that loop: it writes the page, attributes included, exactly when tables reach down to it |
| AddressSpaces.AddressSpace.InflatePt | src/core/mmu.c:146-161 | no address changes its meaning; every entry over the range becomes a table, down to pages, unless the steps miss a last block, which then stays a leaf; tables are made over the range only, for one page each |
| AddressSpaces.AddressSpace.ExpandPte | src/core/mmu.c:73-144 | a block entry becomes a table without changing what any address of the block stands for, mapped, reserved or free; mapped parts get the default attributes, every other entry is kept; without a page nothing changes |
| AddressSpaces.AddressSpace.CopyEntry | src/core/mmu.c:124-137 | entry n of the new table takes over the n-th part of the block, with the default attributes of the address space |
| AddressSpaces.AddressSpace.AllocPt | src/core/mmu.c:17-39 | hangs a table of entries that keep the software bits of the entry above; takes exactly the first page there is, for exactly that table; without one it fails and changes nothing |
| AddressSpaces.AddressSpace.Unmap | src/core/mmu.c:338-403 | on a mapped range removes exactly those mappings when it finishes, and exactly those before the place where it stops otherwise; from a page boundary it finishes or goes astray exactly as the one-level climb is enough everywhere in the range or not; from inside a page it never finishes; it never goes astray from a page boundary where everything is mapped page by page, and that stays so; other mappings keep their attributes unless they are expanded; it makes tables only over the first and the last address of the range, at most two for each level below the root, and runs out of pages only with fewer than are missing there; the walk terminates |
| AddressSpaces.AddressSpace.UnmapTable | src/core/mmu.c:360-393 | the inner loop over one table, with expansion of a superpage that is only partly covered |
| AddressSpaces.AddressSpace.ExpandCovered | src/core/mmu.c:365-371 | an entry that sticks out of the range is expanded, over one of its ends, and the walk goes on below it |
| AddressSpaces.AddressSpace.ClearEntry | src/core/mmu.c:380-388 | clearing one entry frees exactly its block and steps to the next entry or up |
| AddressSpaces.AddressSpace.GetPte | src/arch/aarch64/arch_page_table.c:66-92 | the pointer walk ends at the entry of the address at the level asked for |
| AddressSpaces.AddressSpace.TryGetPte | src/arch/aarch64/arch_page_table.c:66-92 | the walk that mem_unmap starts succeeds if and only if every entry above is a table |
| AddressSpaces.AddressSpace.constructor | src/core/mmu.c:164-182 | a new address space is well formed, everything in it is free, and what is mapped is mapped page by page |
| Accounts.TooFew | src/core/mmu.c:17-29 | with no page left and an address still without its table, there were fewer pages than tables missing |
| Accounts.ExactlyMissing | src/core/mmu.c:146-161 | once every page of a range has its table, exactly the tables that were missing have been made |
| Accounts.MissingBound | src/core/mmu.c:146-161 | no more tables can be missing than one for each address and each level below the root |
| Accounts.NewSpaceMissing | src/core/mmu.c:164-182 | in a new address space a page misses one for each of those levels |
| Accounts.SearchNeeds | src/core/mmu.c:202-256 | a search makes no more tables than are missing before the end of any free place, and none that is not missing in the address space |
| Accounts.ScanSeeks | src/core/mmu.c:219-254 | the scan never goes beyond the end of a free place |
| Accounts.MissingInSpace | src/core/inc/page_table.h:38-41 | a table missing anywhere is missing over a page of the address space |
| Accounts.GrownForBlock | src/core/mmu.c:73-144 | an entry that is expanded for one address is expanded for every other of its block |
| Unmapping.PartlyAtEnd | src/core/mmu.c:365-371 | an entry that sticks out of the range holds its first address or its last |
| Mapping.MapOutcome | src/core/mmu.c:278-311 | inflation and the loop over the pages together: what every address stands for and with what attributes |
| Expansion.EndCopying | src/core/mmu.c:124-137 | all parts taken over, or nothing to take over: every meaning as before, and the default attributes on the parts |
| Unmapping.ClimbIff | src/core/mmu.c:391-393 | going up one level is enough exactly when the mapping that starts at the boundary lies at most one level above the one that ends there |
| Unmapping.UnmapClear | src/core/mmu.c:365-388 | removing one entry keeps the invariant of the walk |
| Unmapping.UnmapExpand | src/core/mmu.c:368-371 | expanding a partly covered superpage keeps the invariant of the walk |
| Unmapping.MapsInOrder | src/core/mmu.c:300-305 | byte d of the range stands for byte d of the physical pages |
| Unmapping.MappedPages | src/core/mmu.c:313-403 | a range mapped by mem_alloc_map is one that mem_unmap can undo |
| Unmapping.PageLeavesClimb | src/core/mmu.c:391-393 | one level up is always enough where everything is mapped page by page |
| Unmapping.DescendExpand | src/core/mmu.c:365-371 | from inside a page the walk expands what it finds and goes on to the next level, past the last |
| StrayWalk.StrayTree | src/core/mmu.c:391-393 | every four-level geometry has a tree and a mapped range (a page followed by a level-1 superpage) on which the one-level climb is not enough |
| StrayWalk.StepsMissSecondPage | src/core/mmu.c:152-158 | in every geometry two pages across the end of a last-level table of an empty tree are a range whose last block the steps miss |
| StrayWalk.MapAcrossTables | src/core/mmu.c:146-311 | mapping them in a new address space does not finish: it goes astray, or runs out of fewer pages than two for each level below the root |
| Seams.Fails | src/core/mmu.c:211-217 | the scan comes to the last 64-bit address without a run if and only if every seam has room |
| Seams.SurveyStep | src/core/mmu.c:225-254 | between two seams the search stays in one table: counting or skipping an entry comes to none |
| Seams.HopelessFits | src/core/mmu.c:234-247 | where no run is free, whatever is free is taken whole: it is never too large for what is still wanted |
| Seams.SplitTile | src/core/mmu.c:237-247 | in a search at a given place, a block that is split is one that cannot be taken whole at any address of the range |
| Seams.HadRoom | src/core/mmu.c:211-217 | a search at a given place that comes to its end has passed the test at every stop |
| Seams.WrapsAgain | src/core/mmu.c:211-256 | after one round nothing is left to be split, so the next round goes through the same seams |
| Seams.TooManyPages | src/core/mmu.c:212-217 | a search for more pages than the address space has always ends |
| Seams.OnePageHasRoom | src/core/mmu.c:212-217 | a search for one page that finds none never ends |
| Seams.UniformSeams | src/core/mmu.c:212-217 | where everything is looked at on one level, a search that finds nothing never ends if and only if the pages fit into one table of that level |
| SearchEnds.FullRoot | src/core/mmu.c:202-256 | with a full root table no run is free, and the search never ends for any number of pages up to the size of the address space |
| SearchEnds.FillThenSearch | src/core/mmu.c:202-256 | a new address space that has been filled, asked for one more page, spins |
| SearchEnds.OnlyAcrossTheEnd | src/core/mmu.c:211-256 | a tree in which the only free run goes across the end of the address space |
| SearchEnds.SecondPageStops | src/core/mmu.c:211-217 | a free range at the last 64-bit addresses in whose second page the search comes to another table, too near the end |
| SearchEnds.RefusesFreeRange | src/core/mmu.c:202-276 | a new address space refuses that range, given a page for each page of it and each level below the root |
| Reservation.RunStepsReachEnd | src/core/mmu.c:146-161 | a range reserved by mem_alloc_vpage is one that the unaligned steps of mem_inflate_pt cover to the last block |
| Reservation.ReserveStep | src/core/mmu.c:262-270 | marking one more entry reserves exactly its block |
| Reservation.BlockedAnywhere | src/core/mmu.c:211-256 | a search that finds nothing below the size of the address space proves that no run exists at any address |
| Scanning.ScanTake | src/core/mmu.c:233-236 | counting a block whole keeps the run free, aligned and tiled by entries |
| Scanning.ScanSkip | src/core/mmu.c:225-232 | an occupied block rules out every run that starts before its end |
| Scanning.ScanSplit | src/core/mmu.c:237-247 | splitting a free entry keeps what the scan knows |
| Mapping.InflateStep | src/core/mmu.c:152-159 | one step of the inflation keeps every meaning and makes one more block a table |
| Mapping.StepsPassBy | src/core/mmu.c:155-158 | a loop whose steps do not come to the last block never enters it |
| Mapping.ProgressLevel | src/core/mmu.c:152-160 | the loop over one level makes every block of it a table, or from then on the last block stays a leaf |
| Mapping.MapKeepsPageLeaves | src/core/mmu.c:300-305 | mapping pages keeps everything mapped page by page |
| Mapping.MapStep | src/core/mmu.c:300-305 | one more page mapped, all else as before |
| Expansion.CopyStep | src/core/mmu.c:124-137 | one more part of an expanded block means what it did |
| Expansion.PartMeaning | src/core/mmu.c:124-137 | the part of a superpage that an entry takes over maps each address to the same physical address |
| PageTable.SameEntry | src/core/inc/page_table.h:38-41 | two addresses use the same entry of the same table if and only if they lie in the same block |
| PageTable.PutLeafState | src/arch/aarch64/inc/arch_page_table.h:146-156 | rewriting a leaf entry changes the meaning of exactly its block |
| PageTable.SplitState | src/core/mmu.c:29-36 | hanging an empty table below an entry leaves other blocks alone |
| PageTable.LeafUnique | src/arch/aarch64/arch_page_table.c:66-92 | a walk has one end |
| PageTable.AddrMask | src/arch/aarch64/inc/arch_page_table.h:146-164 | the address field holds any page address below 2^48 and drops the rest |
| TableMemory.SplitWired | src/core/mmu.c:30-36 | memory with a page linked and filled represents the tree with a table more |
| TableMemory.PutWired | src/arch/aarch64/inc/arch_page_table.h:146-148 | a store through an entry pointer represents the rewritten tree |
| Descriptors.SoundGeometry | src/core/inc/page_table.h:22-41 | a descriptor whose index fields join gives tables whose entries cover exactly what the table covers |
| Descriptors.Armv8IsSound | src/arch/aarch64/arch_page_table.c:25-41 | the four-level descriptor of the build is such a descriptor |
| Descriptors.Armv8Sizes | src/arch/aarch64/arch_page_table.c:25-41 | its entries cover 512 GB, 1 GB, 2 MB and a page, of 48 address bits |
| Descriptors.OnePageTables | src/core/mmu.c:17-30 | its tables fill one page each, on every level |
| Descriptors.PointerParts | src/core/inc/page_table.h:30-36 | masking an entry address by the size of an aligned table gives the number of the entry, and clearing those bits gives the table |
| Descriptors.EmptyTreeIsFree | src/core/mmu.c:174-178 | a zeroed root is a well-formed tree in which every address is free |
| Bmq.ScheduledKeepsPlaces | src/core/sched.c:303-328 | bmq_scheduler loses no vCPU, invents none and puts none in two places |
| Bmq.ScheduledIsBest | src/core/sched.c:254-280 | the vCPU picked heads its chain and nothing queued has a better priority |
| Bmq.RunKeepsPlaces | src/core/sched.c:235-328 | in every run of picks and starts each vCPU is in exactly one place, in the chain of its own priority or running |
| Bmq.PickedAfterPotential | src/core/sched.c:254-328 | starvation bound: a queued vCPU is picked at exactly call number potential + 1 and at none before |
| Bmq.PotentialFalls | src/core/sched.c:254-328 | every call that picks another vCPU lowers the potential by exactly one |
| Bmq.DefaultsAllSink | src/core/sched.c:281-291 | with the default static priority the bound applies at every level, and no vCPU is confined |
| Bmq.NobodyStarves | src/core/sched.c:281-328 | in every state of every run of picks and starts that begins with default priorities, no vCPU is confined and each queued one is picked, at the call its potential tells |
| Bmq.WaitInRun | src/core/sched.c:235-328 | while a vCPU is not picked in such a run, it keeps its level, every call uses up exactly one turn, and every start adds exactly one for each level between the default and its own |
| Bmq.StartPotential | src/core/sched.c:514-519 | a vCPU that is started comes before one that waits below the default level, once for each level between |
| SchedRun.NoVcpuStarves | src/core/sched.c:281-328 | in every reachable state of the system all static priorities are the default, no vCPU is confined, and each queued one is picked, at the call its potential tells |
| Bmq.PickedUnlessConfined | src/core/sched.c:281-328 | a queued vCPU is picked at some call if and only if no other vCPU is confined, by its static priority, to better levels |
| Bmq.ConfinedStarves | src/core/sched.c:281-328 | while such a vCPU exists the one below is never picked |
| Bmq.NoBoostsKept | src/core/sched.c:281-291 | without boosts every vCPU sits at its static priority plus its adjustment, at most five and capped at the lowest level |
| RunQueues.VCpuNode.PrioManage | src/core/sched.c:281-291 | the adjustment stays within -5 to 5 and the priority in step with it, among the ten levels; a boost lowers the vCPU exactly at the lower limit |
| Bmq.AdjustmentRange | src/core/sched.c:281-291 | after any sequence of boosts and used-up slices a vCPU is within five of its static priority, kept among the ten levels |
| Bmq.BoostExactlyWhen | src/core/sched.c:281-291 | after any such history a boost raises the vCPU if and only if its adjustment is not at the lower limit, where it is lowered instead |
| RunQueues.RunQueueNode.VTaskInsert | src/core/sched.c:235-252 | links the node at the end of the chain of its priority; bitmap and counter stay exact; no node of another VM changes |
| RunQueues.RunQueueNode.VTaskLookup | src/core/sched.c:254-279 | takes the front of the first non-empty chain, or nothing exactly if all are empty; bitmap and counter stay exact |
| RunQueues.RunQueueNode.BmqScheduler | src/core/sched.c:303-328 | the linked chains represent the scheduled queue, the picked vCPU has a full slice, no node of another VM changes |
| RunQueues.RunQueueNode.StartVcpu | src/core/sched.c:514-519 | a started vCPU has static priority and priority 5, no adjustment, and is the last of that chain; nothing else changes |
| RunQueues.RunQueueNode.constructor | src/core/sched.c:135-158 | a new node represents the empty queue, its counter at the number of CPUs |
| RunQueues.ThreadsInsert | src/core/sched.c:240-250 | heads and next pointers thread exactly the chains after an insertion |
| RunQueues.ThreadsPop | src/core/sched.c:261-271 | and after a removal |
| Bfs.RunQueue.RqInsert | src/core/sched.c:160-171 | links a node in front, the list stays well formed in both directions |
| Bfs.RunQueue.RqRemove | src/core/sched.c:174-180 | unlinks exactly that node, the others keep their order |
| Bfs.RunQueue.PTaskLookup | src/core/sched.c:106-127 | takes out the first of the earliest deadlines among the nodes with ready vCPUs, or nothing exactly if none has any |
| Bfs.RunQueue.GiveUp | src/core/sched.c:190-199 | a node given up gets a deadline one difference after the clock and goes to the front of the list |
| Bfs.RunQueue.Take | src/core/sched.c:201-210 | the node taken is the earliest; it has a full slice |
| Bfs.RunQueue.BfsScheduler | src/core/sched.c:189-213 | without interference the VM taken is the earliest of all, the one given up included |
| Bfs.DeadlineDiffGrows | src/core/sched.c:94-133 | a worse priority means a strictly later deadline, never less than one interval ahead |
| Bfs.Ratios | src/core/sched.c:94-99 | the ten ratios, from 128 to 295 |
| SchedRun.EveryVmHasOnePlace | src/core/sched.c:106-213 | in every reachable state a VM is linked once or held by one CPU, never both and never by two |
| SchedRun.EveryVcpuHasOnePlace | src/core/sched.c:235-328 | over the whole system a vCPU belongs to one VM and is in one place there |
| SchedRun.LookingFinds | src/core/sched.c:201-205 | with at least as many VMs as CPUs a CPU that looks finds a VM in every reachable state |
| SchedRun.FewerVmsSpin | src/core/sched.c:201-205 | with fewer VMs than CPUs some CPU comes to look into an empty list |
| SchedRun.StepExclusive | src/core/sched.c:160-213 | every step keeps the one-place invariant and the count of VMs listed and held |
| SchedRun.StepSound | src/core/sched.c:303-347 | every step keeps all queues well formed and apart |
| SchedRun.StepBarred | src/core/sched.c:368-387 | a CPU is at the barrier exactly during its tick and polls for the end of its own round |
| SchedRun.StepClocked | src/core/sched.c:190-197 | the deadline computed for a VM that is not linked yet is late by one tick at most |
| SchedRun.InitialInvariant | src/core/vm.c:144-164 | the state after VM creation meets the invariants |
| Bypass.BoundedBypass | src/core/sched.c:106-127 | with a tick shorter than every distance of deadlines, once the clock has reached the deadline of a waiting VM, every VM taken before it is one that was ahead of it then, fewer than the number of VMs are, and then it is taken |
| Bypass.LinkAhead | src/core/sched.c:190-199 | a VM linked with a deadline after the clock does not come to be ahead of one that is due, nor does any other |
| Bypass.SourceTickIsShort | src/arch/aarch64/timer.c:61-72 | a tick of one second is shorter than every distance of deadlines that prio_deadline_diff gives |
| Bypass.LinkedLater | src/core/sched.c:194-197 | with such a tick the deadline lies after the clock when the VM is linked, however late that is |
| Overtaking.BypassExactlyWhen | src/core/sched.c:189-213 | with deadlines at least d after the clock, a VM that is due can be overtaken by one that was not ahead of it, in some run of some system, if and only if a tick is not shorter than d |
| Overtaking.NeverOvertaken | src/core/sched.c:189-213 | in no run of a system with a shorter tick is a waiting VM that is due overtaken |
| Overtaking.SomebodyOvertakes | src/core/sched.c:189-213 | with a longer one, in a run of three VMs on two CPUs, a VM is linked with the clock of the tick before, in front of one that has become due |
| Bypass.TakenWhenFirst | src/core/sched.c:111-116 | a waiting VM is taken exactly when nothing is ahead of it |
| Bypass.InsertingBehind | src/core/sched.c:160-171 | a VM inserted with a later deadline is not ahead, although it is linked in front |
| Rounds.AssertsFailExactlyWhen | src/core/sched.c:189-213 | in every system some run fails one of the two slice assertions if and only if there are at least as many VMs as CPUs and the ticks of a vCPU slice do not divide the ticks of a VM slice |
| Rounds.ComesToFire | src/core/sched.c:303-306 | when they do not divide, the CPUs, ticking in rounds, come to the failing assertion from any state in which all look for a VM |
| Rounds.LastTick | src/core/sched.c:368-411 | round after round, all CPUs come from the guest to the last tick of the VM slice |
| Rounds.FewerVmsStop | src/core/sched.c:201-205 | with fewer VMs than CPUs no tick ever ends, and neither assertion fails |
| Rounds.TickNeedsAll | src/core/sched.c:387 | a first tick ends only when every CPU holds a VM |
| SliceAsserts.NestedIntervals | src/core/sched.c:368-411 | with TIMER_WAIT dividing the vCPU interval and that dividing the VM interval they never fail |
| SliceAsserts.StepTimed | src/core/sched.c:303-351 | every step keeps the slices of a held VM and its vCPU in step |
| SliceAsserts.NeverFires | src/core/sched.c:303-351 | so when they divide, no reachable state fails an assertion |
| Barrier.NobodyLeavesEarly | src/core/inc/cpu.h:75-100 | no CPU leaves its k-th barrier before every CPU has made its k-th arrival; arrivals differ by at most one |
| Barrier.BarrierReleases | src/core/inc/cpu.h:75-83 | in runs of cpu_sync_barrier a waiting CPU can leave if and only if everybody has arrived |
| Barrier.ReleasedExactlyWhen | src/core/inc/cpu.h:75-100 | with the separate read, a waiting CPU can leave if and only if it polls for its own round and everybody has arrived |
| Barrier.WhoPollsForOwnRound | src/core/inc/cpu.h:79-91 | the atomic form always polls for its own round, the separate read does so if and only if nobody is a round ahead |
| Barrier.BothFormsAgree | src/core/inc/cpu.h:80-91 | for a count within a round the quotient form and ALIGN give the same threshold |
| Barrier.NextEndIsForever | src/core/inc/cpu.h:89-95 | a CPU that polls for the next round never leaves |
| Barrier.LateReadDeadlocks | src/core/inc/cpu.h:85-100 | two CPUs in cpu_sync_and_clear_msgs reach a state in which no step is possible any more |
| TicketLock.MutualExclusion | src/lib/inc/spinlock.h:23-60 | at most one CPU is inside in every reachable state |
| TicketLock.ServedInOrder | src/lib/inc/spinlock.h:29-43 | the CPUs enter in the order in which their tickets were stored, through every wrap-around |
| TicketLock.NoIncrementLost | src/lib/inc/spinlock.h:31-56 | both words always are the number of tickets and of unlocks in 32 bits |
| TicketLock.FirstHolderMoves | src/lib/inc/spinlock.h:36-43 | as long as a ticket is out, its first holder is inside, and can go on to the end of its unlock, or is waiting, and then its next poll lets it in, whatever the counts are |
| TicketLock.EveryTicketCanBeServed | src/lib/inc/spinlock.h:36-60 | every run can go on to where a ticket that is out has been served, after all before it, in the order taken |
| TicketLock.EveryCpuCanEnter | src/lib/inc/spinlock.h:23-60 | every run can go on to where a given CPU is inside, wherever it stands |
| TicketLock.PollIsTurn | src/lib/inc/spinlock.h:38-40 | a CPU reads its own ticket from `next` exactly when it is its turn |
| Bitmap.FindConsec | src/lib/bitmap.c:55-82 | the least place at or after the start from which n bits equal the one asked for lie below the size, or the not-found value exactly if there is none |
| Bitmap.CountConsecutive | src/lib/bitmap.c:21-53 | only equal bits are counted, and the count is short of n only at the size or at a bit that differs |
| Bitmap.FindNth | src/lib/bitmap.c:3-19 | the place where the number of matching bits reaches nth, or the not-found value exactly if it never does |
| Bitmap.SetConsecutive | src/lib/bitmap.c:84-103 | exactly the bits of the range are set in addition |
| Bitmap.ClearConsecutive | src/lib/inc/bitmap.h:37-40 | exactly the bits of the range are cleared |
| Bitmap.Set | src/lib/inc/bitmap.h:23-25 | one bit set, no other changed |
| Bitmap.Clear | src/lib/inc/bitmap.h:27-29 | one bit cleared, no other changed |
| Bitmap.MaskedWord | src/lib/bitmap.c:35-39 | the masked comparison of a word is the comparison of its bits one by one |
| Bitmap.WholeWord | src/lib/bitmap.c:41-45 | and so is the comparison with all ones or all zeros |
| PagePools.PagePool.PpAlloc | src/core/mem.c:61-124 | pages handed out were all free and overlap no earlier allocation, exactly their bits change, the counter stays the number of clear bits, an aligned request gets an aligned page number, and none starts before the end of the last one; without alignment, and for one or two pages with it, pages are found if and only if there are usable ones from the starting point on, and the first, so whenever there are at or after last + n - 1; at the end of the last one itself when that is usable and aligned or a multiple of n; for more with alignment, in an entirely free tail, if and only if the odd part of the number divides the excess of the starting point |
| PagePools.PagePool.FindPages | src/core/mem.c:86-119 | the retries of an aligned request terminate, each starting strictly further on |
| PagePools.OneThenThree | src/core/mem.c:61-124 | a new pool that has handed out one page finds three aligned ones exactly if its second page is aligned, and else fails with all but one page free |
| PageSearch.SearchFinds | src/core/mem.c:86-119 | what the search settles on is free, not before the starting point, and aligned if that was asked for |
| PageSearch.PlainSearch | src/core/mem.c:86-119 | without alignment it succeeds if and only if a run exists at or after the starting point, and takes the first |
| PageSearch.SmallAlignedSearch | src/core/mem.c:98-104 | with alignment and for one or two pages as well |
| PageSearch.AlignedSearchExactlyWhen | src/core/mem.c:86-119 | an aligned search finds an aligned run whenever there is one, in every bitmap and from every starting point, if and only if it is for one or two pages |
| PageSearch.OneHoleIsMissed | src/core/mem.c:98-104 | for every larger number a bitmap in which it misses the only one |
| PageSearch.RetryPassesAligned | src/core/mem.c:104 | a retry passes the next aligned place if and only if the run found is more than half its length past the last one |
| PageSearch.FreeTailExactlyWhen | src/core/mem.c:86-119 | with all pages free from the starting point on and enough of them, an aligned search succeeds if and only if the odd part of the number of pages divides the excess of that point |
| Smmuv2.Smmu.Add | src/arch/aarch64/iommu.c:47-69 | after a successful add the entries are disjoint, every new stream maps to the context, every mapped stream keeps its context, no other stream is mapped; the entries that overlap the new one go and it takes the first free place; a refusal means a conflict |
| Smmuv2.Smmu.CompatibleSmeExists | src/arch/aarch64/smmuv2.c:269-309 | a conflict is reported exactly when there is one; nothing is removed when the new entry is included; otherwise only entries it includes for the same context are removed, as before a conflict |
| Smmuv2.Smmu.AllocSme | src/arch/aarch64/smmuv2.c:243-253 | the first free entry |
| Smmuv2.Smmu.Write | src/arch/aarch64/smmuv2.c:311-344 | one entry written; the group bit is set and never cleared |
| Smmuv2.OverlapsIsShared | src/arch/aarch64/smmuv2.c:279-281 | the overlap test holds if and only if some stream matches both entries |
| Smmuv2.IncludesIsSubset | src/arch/aarch64/smmuv2.c:278-284 | the inclusion test holds if and only if the streams of one are streams of the other |
| Smmuv2.ConflictMeaning | src/arch/aarch64/smmuv2.c:281-303 | a conflict is an entry that shares a stream with the new one although neither is a group, or for another context, or while each of the two has a stream the other has not |
| Smmuv2.MaskOrder | src/arch/aarch64/smmuv2.c:294 | comparing nested masks as numbers tells which entry is larger |
| Smmuv2.MergeKeepsMaps | src/arch/aarch64/smmuv2.c:287-299 | replacing included entries by the new one keeps every mapping and disjointness |
| Smmuv2.OneContext | src/arch/aarch64/smmuv2.c:269-309 | in a disjoint table a stream has one context |
| Smmuv2.DeviceRefusedExactlyWhen | src/arch/aarch64/smmuv2.c:282-285 | a device that meets an entry of the same mask and context is refused if and only if that entry never held a group; it has the same streams then |
| Smmuv2.GroupFlagOutlivesGroup | src/arch/aarch64/iommu.c:47-69 | adding two groups, one that covers both and a device leaves the device in an entry with a stale group flag, next to which another device is let in |
| Smmuv3.WrapBitsTell | src/arch/aarch64/smmuv3.c:167-176 | the ring looks empty exactly when the counters are equal and full exactly when they are the size apart |
| Smmuv3.IncrementStands | src/arch/aarch64/smmuv3.c:416-422 | incrementing the register increments the unbounded counter, for every shift below 31 |
| Smmuv3.CmdQueue.Push | src/arch/aarch64/smmuv3.c:523-524 | the command joins the end of the queue and no pending entry is overwritten |
| Smmuv3.CmdQueue.InsertCmd | src/arch/aarch64/smmuv3.c:517-524 | a command is inserted, once, if and only if the ring had room or one of the readings makes room; with room from the start the register is not read |
| Smmuv3.CmdQueue.QueueSyncCons | src/arch/aarch64/smmuv3.c:403-405 | reading the register removes exactly the commands the device has taken, oldest first |
| Smmuv3.CmdQueue.QueueFull | src/arch/aarch64/smmuv3.c:391-395 | full exactly when the queue holds as many commands as the ring has entries |
| Smmuv3.CmdQueue.QueueEmpty | src/arch/aarch64/smmuv3.c:397-401 | empty exactly when nothing is pending |
| Smmuv3.CmdQueue.QueueWrite | src/arch/aarch64/smmuv3.c:424-430 | copies the words of the command and touches nothing else |
| Vgic.MoveIsLossless | src/arch/aarch64/vgic.c:163-280 | into a list register and back keeps state, pending sources and active source, if and only if none of the three stated exceptions applies |
| Vgic.Vcpu.WriteAndRemove | src/arch/aarch64/vgic.c:163-280 | the same on the objects |
| Vgic.Vcpu.WriteLr | src/arch/aarch64/vgic.c:163-239 | the register has the number, state and priority of the interrupt; a hardware interrupt is marked and has its own physical number; else the hypervisor is called at the end of every shared one, of no private one, and of an SGI exactly if a source is left; the source moved is the highest; other registers are untouched, and a shared interrupt that was in the register is told that it is not |
| Vgic.Vcpu.Compose | src/arch/aarch64/vgic.c:182-232 | the register value just so, one pending source of an SGI moving into it |
| Vgic.RegisterContents | src/arch/aarch64/vgic.c:182-236 | what a register says of any interrupt there is room for, and what is left of it in memory |
| Vgic.Vcpu.Displace | src/arch/aarch64/vgic.c:165-180 | a shared interrupt that was in the register and still believes so is told that it is not, and given up unless it is active |
| Vgic.Vcpu.RemoveLr | src/arch/aarch64/vgic.c:241-280 | the register is cleared, its state is back in the interrupt, its source among the pending ones or as the active one, and the maintenance interrupts that lead to a refill are enabled |
| Vgic.Vcpu.AddLr | src/arch/aarch64/vgic.c:311-390 | the first free register is used; else the least urgent of its class makes room, only if the interrupt in it is strictly less urgent than the newcomer by its own priority and number; else the newcomer is spilled; whenever something is spilled a refill is asked for |
| Vgic.ChooseVictim | src/arch/aarch64/vgic.c:339-376 | least urgent among the pending registers if more than one is pending, else among the active ones, and only if less urgent than the newcomer |
| Vgic.LeastUrgentExactlyWhen | src/arch/aarch64/vgic.c:339-376 | by their own priorities: the victim is the least urgent of its class if and only if no other differs from it only in the three low bits and is larger; a less urgent one is passed over only if it is less than eight apart from the newcomer |
| Vgic.CoarseChoice | src/arch/aarch64/vgic.c:339-376 | of priorities 0xff and 0xf8 the more urgent can be evicted |
| Vgic.EvictedIsLessUrgent | src/arch/aarch64/vgic.c:343-376 | what is evicted is strictly less urgent than the newcomer by its own priority and number |
| Vgic.RegisterKey | src/arch/aarch64/vgic.c:184-192 | a register compares like the interrupt written into it, up to the three low priority bits, which is all that is lost |
| Vgic.Vcpu.SpillLr | src/arch/aarch64/vgic.c:298-309 | the evicted interrupt is back in software state and at the end of its spill list, a refill is asked for, and the interrupt is free for any vCPU exactly if it is shared and not active |
| Vgic.Vcpu.HighestPrioSpilled | src/arch/aarch64/vgic.c:976-1007 | the most urgent flagged entry of both lists, and nothing exactly if no entry is flagged |

## Left out

- Entry pointers are pairs of a table and an entry's number; `PointerParts` is what the masking of
  addresses comes to for aligned tables.
- Locks in the page-table and list code: the methods model what happens while the lock is held. TLB
  maintenance, fences and cache barriers have no counterpart.
- AddressSpaces.AddressSpace.AllocPt: pages for tables come from the parameter `pool`, one for each table, as `OnePageTables`
  shows for the build; what the source does after it has found the pool empty is not modelled.
- AddressSpaces.AddressSpace.MemMap: the physical pages are given; the case in which the source allocates them itself is the
  same call with the pages of `PpAlloc`.
- AddressSpaces.AddressSpace.Unmap: for ranges inside the address space that are fully mapped, without freeing physical pages
  (`mem_free_ppages` takes the same lock twice and does not restore the counter). The source also
  steps over holes, by whole blocks and without climbing at the end of a table; `rq_detach` can pass
  such a range, and it is not modelled.
- AddressSpaces.AddressSpace.AllocAt: for more pages than the address space has, the condition on ranges near the last 64-bit
  address is not given.
- AddressSpaces.AddressSpace.AllocVpage: a request for so many pages that their number of bytes passes 64 bits is not wrapped.
- The sleeping vCPU of the I/O path and its wake-up: the source inserts it without checking whether
  it still runs, so placement is not kept over runs that use it.
- The round-robin schedulers, which are switched off, and `mem_translate`.
- Node pools of the scheduler are finite; StartVcpu is given a node that is nowhere in the queue and
  the steps of SchedRun an unused slot.
- RunQueues.RunQueueNode.BmqScheduler: the loop that searches again while nothing is queued is modelled for queues that hold
  something, as in every reachable state of SchedRun.
- Bfs.RunQueue.BfsScheduler: one CPU without interference; SchedRun has the two critical sections as separate
  steps.
- SchedRun: that CPU 0 advances the clock and that it arrives at the barrier is one step. Whatever
  others do in between they can do after it, with the same clock and the same round.
- Barrier: the counter is unbounded and `ready` is set before the first arrival.
- TicketLock: memory order is sequential; fewer than 2^32 CPUs contend.
- Bitmap: the size is a multiple of 32 and one more word can be read, which the source reads when a
  run ends at the size.
- PagePools.PagePool.PpAlloc: addition to bit numbers does not wrap; freeing pages and the reservation of the bitmap's
  own pages are not modelled.
- Smmuv2.Smmu.Add: the context bank is given and allocated; running out of entries is the result NoEntry. Valid
  bits that hardware keeps for merged-away entries are not modelled.
- Smmuv3.CmdQueue.InsertCmd: the device's register readings are given, and the wait for the device after an
  insertion is QueueSyncCons repeated. Replacing a faulty command by a sync is not modelled.
- Vgic.Vcpu.AddLr: which registers are empty is given as the hardware reports it.
- The GICv3 build, messages between CPUs about interrupts, distributor and redistributor registers,
  and the refill loop around HighestPrioSpilled.
- printk: its number formatting would add a self-contained digit loop and nothing that other parts
  rely on.
- Snapshots, hypercall dispatch, VM construction, drivers, configuration and assembly.
