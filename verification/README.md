# Address spaces, FIFOs, event queues and memory of a small i386 kernel, in Dafny

This project models the algorithmic parts of the kernel in Dafny and proves what they keep and what they promise. The
kernel's linked lists, rings, bitmaps and tables are modelled twice: as values with functions that specify each
operation, and as classes whose methods follow the source's loops on nodes, fields and arrays and are proved to compute
those functions. The theorems about whole runs are about the functions.

| files | part of the kernel |
|---|---|
| `Segments`, `BestFit`, `FixedCreate`, `CompleteOverlap`, `RunsOff`, `Coalesce`, `Expand` | the list of regions that tiles user space, as a value |
| `Links`, `Runs` | the same with what each region's sharing pointer is good for, and whole runs |
| `RegionList`, `UserMemory` | the same on linked nodes, with page mappings, frames and sharing pointers |
| `Sharing` | the rings of regions that share frames |
| `Fork`, `ForkWalks`, `ForkRegions` | the region part of fork |
| `RingBuffer`, `FifoProtocol`, `Senders` | the kernel FIFO: ring arithmetic, interleavings under its locks, access lists |
| `Kqueue`, `KqueueKernel` | event queues, blocking and waking |
| `Scheduling`, `Scheduler` | the round-robin scheduler |
| `SlabLists`, `Slab` | the slab allocator |
| `PageBitmap`, `PhysicalMemory` | the bitmap of physical pages |
| `PageTables`, `Paging` | two-level page tables and the kernel's windows on them |
| `Common` | what several of them share |

Verify with `dafny verify dfyconfig.toml`.

Where the code does not do what its comments say, the code is modelled as written, a lemma gives a concrete case, and
another says exactly when the promise is kept:

- create_region does not delete a completely overlapped region as its comment says but leaves it FREE in the list and
  steps over the next node (`CompleteOverlap`); `RunsOff.RunsOffIffOdd` says when that leaves the list,
  `Runs.LegalExactly` when it breaks the tiling, and `Fork.ForkReproduces` what it does to fork.
- create_region does not set sharedmem_next in the upper part of a split, and delete_region follows that pointer in any
  region, FREE ones included (`ForkWalks.GapStrays`); `Links.CreateEndsExactly`, `Runs.LegalExactly`,
  `Runs.GentleExactly` and `ForkWalks.ForkCompletes` say exactly when creates, runs and fork complete all the same.
- clone_region does not test whether its create found room; without it the source's ring is broken
  (`Sharing.CloneGoodIffRoom`, `UserMemory.CloneRegion`, `UserMemory.Window`).
- kfifo_read_fifo computes the complement of the stored amount (`RingBuffer.ReaderTestRight`,
  `FifoProtocol.DeliveredIsPrefix`).
- kfifo_read_fifo walks its events by `next`, that is along a queue, and not by `hook_next`
  (`Kqueue.ReadClearsHooksExactly`); a run of ten calls leaves a process asleep next to its data
  (`Kqueue.AsleepReached`).
- kqueue_poll with a limit of 0 still reports one event (`Kqueue.PollWithinLimit`).
- A page that becomes wholly free at the head of the partial list wedges the next allocation, and a page on the full
  list is never used again (`SlabLists.WedgedExactly`, `SlabLists.FullForever`).
- map_user_region_to_physical does not clear the frame of a new page table and never closes a window
  (`PageTables.MapPageOthers`, `PageTables.ReachesGood`).

## Model

| member | source | states |
|---|---|---|
| Segments.InitialTiles | sys/i386/context.c:28-107 | The regions create_address_space lists hold every address of 0x40000000..0xC0000000 once and nothing else, FREE below 0xB0000000 and the stack from there on, with no two FREE regions side by side. |
| BestFit.SmallestIsBest | sys/i386/context.c:200-217 | The search of create_region ends with a FREE region of sufficient length than which none listed is smaller, and finds none only if none is long enough. |
| BestFit.CreateIffRoom | sys/i386/context.c:200-224 | Best-fit create succeeds exactly if some listed FREE region is at least that long, whatever the list looks like. |
| BestFit.CreateCarvesFree | sys/i386/context.c:200-268 | Best-fit create fails exactly when no FREE region is long enough; otherwise the new region is the top of a smallest sufficient one, every other address keeps all that lookup told about it, and tiling and coalescing survive. |
| FixedCreate.TrimPieces | sys/i386/context.c:235-256 | Trim left, trim right, split in three and no overlap: what a region keeps is exactly its addresses outside the target, with its own attributes, page-aligned. |
| FixedCreate.VisitNext | sys/i386/context.c:245-256 | The upper part of a split, which the loop visits next, is left alone, so the scan goes on as if it had been stepped over. |
| FixedCreate.ScanClears | sys/i386/context.c:228-257 | Without complete overlaps the loop leaves nothing in the target and every address outside it as it was. |
| FixedCreate.CreateOverridesProper | sys/i386/context.c:224-268 | Interval override on any disjoint list, tiling or not (fork starts from one that is not); a coalesced list stays coalesced. |
| FixedCreate.CreateOverrides | sys/i386/context.c:184-268 | Fixed-address create is interval override: lookup returns the new region for exactly the addresses of the target, every other address keeps type, attributes and parameter, and the tiling survives, and the coalescing if there was any, for every target in which no listed region lies wholly. |
| FixedCreate.CreateKeepsNonEmpty | sys/i386/context.c:235-256 | Trimming never empties a region. |
| CompleteOverlap.ScanKeepsOutside | sys/i386/context.c:228-257 | Every loop that completes, complete overlaps included, keeps the type of every address outside the target, and attributes and parameter of each that is not FREE. |
| CompleteOverlap.CreateShadows | sys/i386/context.c:228-268 | Lookup sees an interval override after every fixed create that completes, whatever it overlaps: the first region holding a target address is the new one, and outside the target lookup tells the old type, with attributes and parameter where it is not FREE. |
| CompleteOverlap.LeftoverBreaks | sys/i386/context.c:231-234 | With no FREE space bordering the target, a non-empty region wholly inside it is still listed afterwards, under the new one: two regions overlap. |
| CompleteOverlap.TilesIffNoneInside | sys/i386/context.c:231-234 | A fixed create completes and keeps the tiling if and only if no region lies wholly inside the target, for targets bordered by no FREE space and holding no empty region. |
| CompleteOverlap.ReplaceLeavesPage | sys/i386/context.c:231-234 | Concrete case: replacing one page leaves it in the list, FREE, against the comment at lines 186-191. |
| CompleteOverlap.ReplaceBreaksTiling | sys/i386/context.c:231-234 | The concrete case above turns a tiling into a list that is none. |
| CompleteOverlap.ReplaceRunsOff | sys/i386/context.c:231-234 | Concrete case: with the replaced page listed last the loop steps past the end of the list. |
| RunsOff.DeleteKeepsTail | sys/i386/context.c:231-234 | With nothing FREE ahead in the target, the merges of a deletion leave the rest of the list as it is, so the loop goes on two regions further. |
| RunsOff.RunsOffIffOdd | sys/i386/context.c:228-234 | A fixed create over live regions, bordered by no FREE space, steps past the end of the list if and only if the number of wholly covered regions at the end of the list is odd. |
| Coalesce.LeftFollows | sys/i386/context.c:300-301 | The region looked up one byte below the deleted one ends where that one starts. |
| Coalesce.RightFollows | sys/i386/context.c:309-310 | The FREE region looked up one byte past the end of the merged one starts where that one ends, in spite of the probe's + 1. |
| Coalesce.DeleteFrees | sys/i386/context.c:299-318 | delete_region makes exactly the deleted interval FREE and changes the type of no other address, through both merges and both unlinks. |
| Coalesce.DeleteKeepsUsed | sys/i386/context.c:299-318 | Addresses that are not FREE afterwards keep type, attributes and parameter. |
| Coalesce.DeleteCoalesces | sys/i386/context.c:299-318 | No two non-empty FREE regions touch after a deletion if none did before. |
| Coalesce.DeleteKeepsTiling | sys/i386/context.c:299-318 | Deletion keeps the tiling and the coalescing. |
| Links.DeleteStrays | sys/i386/context.c:294-318 | When all listed pointers lead home, a deletion leaves one that does not exactly if the region was on a ring and merged into no earlier FREE region: it stays listed, FREE, still pointing into the ring it was taken off. |
| Links.CreateStrays | sys/i386/context.c:228-268 | A fixed create that covers no region leaves a pointer that does not lead home exactly if it splits a region: the upper part's is never set. |
| Links.CreateRefines | sys/i386/context.c:228-268 | Following the walks of its deletions, a fixed create stops earlier or gives the same list. |
| Links.DeleteKeepsTail | sys/i386/context.c:231-234 | The merges of a covered region leave the pointers of the regions still ahead of the loop as they are. |
| Links.VisitsIffEven | sys/i386/context.c:228-234 | The loop, which skips a region after each deletion, gets to a region exactly if an even number of covered regions stands immediately before it. |
| Links.CreateEndsExactly | sys/i386/context.c:228-298 | A fixed create over live regions, bordered by no FREE space, completes exactly if the number of wholly covered regions at the end of the list is even and every region it gets to and deletes finds its way home, where it gets to a region exactly if an even number of covered ones stands immediately before it. |
| Runs.ApplyKeepsTiling | sys/i386/context.c:109-322 | Best-fit create, fixed create and clone always complete; a deletion completes exactly if the walk from the region's sharedmem_next comes home, and upward expansion exactly if the pages it needs are FREE. Whatever completes keeps tiling and coalescing. |
| Runs.ApplyTells | sys/i386/context.c:109-357 | What lookup tells after each operation that completes: a best-fit create or clone with room turns FREE addresses of the length asked for into the new region, without room it changes nothing; a fixed create is interval override; a deletion frees the region's addresses alone; an expansion hands the pages behind the region to it. |
| Runs.ReachableTiling | sys/i386/context.c:28-322 | After every run of those operations from create_address_space that completes, with whatever clones and deletions elsewhere do to the sharing pointers, each user address lies in exactly one region, the one lookup returns, no other address in any, and no two FREE regions touch. |
| Runs.LegalNeverRunsOff | sys/i386/context.c:228-257 | In such a run a fixed create that covers no region wholly completes: it stays on the list and follows no pointer. |
| Runs.LegalExactly | sys/i386/context.c:228-298 | After such a run, a fixed create over live regions bordered by nothing FREE completes exactly when an even number of wholly covered regions ends the list and no region it gets to and deletes has a pointer that strays, and keeps the tiling exactly when it covers no region. |
| Runs.GentleExactly | sys/i386/context.c:109-357 | While every pointer leads home, an operation leaves it so exactly if it splits no region, deletes none that is on a ring and stays listed on its own, and links none to a stray pointer. |
| Runs.DeletesComplete | sys/i386/context.c:273-322 | After a run of such operations from create_address_space the deletion of any listed region completes. |
| Runs.WindowInvisible | sys/common/kfifo.c:189-212 | A best-fit clone followed by its deletion restores every address's type and all that was known about addresses in use, also when the clone fits exactly and leaves an empty FREE region. |
| Expand.UpwardGrows | sys/i386/context.c:109-160 | expand_region upwards succeeds exactly if every address of the pages it needs behind the region is FREE; then those pages join the region, every other address is as it was, and the tiling survives, and the coalescing if there was any. |
| Expand.FreePagesFree | sys/i386/context.c:121-126 | Probing the first address of each page decides for the whole page. |
| Fork.CleanIffNoneInside | sys/common/process.c:211-239 | When fork reaches a region, the create there meets a complete overlap exactly if the region lies below the default stack area and both its neighbouring addresses have been copied already, however the child's list came about. |
| Fork.ChildShape | sys/common/process.c:202-250 | What fork lists: the copied regions newest first, then the FREE pieces in ascending order with gaps between them, each still free or copied over as a whole, the last one still free. |
| Fork.AllButFreeCopied | sys/common/process.c:213-239 | Of a parent of anonymous, core, library and stack regions and FREE space fork re-creates each region that is not FREE. |
| Fork.ForkReproduces | sys/common/process.c:202-250 | For every parent whose regions are FREE or non-empty anonymous, core, library or stack memory: fork's creates stay on the child's list exactly if each region that meets a complete overlap still has FREE space above it; and whenever they do, the child says about every address in use what the parent says, and the two type maps are equal exactly if the parent has no FREE address in the default stack area. |
| Fork.ProperIffClean | sys/common/process.c:211-239 | The child's regions are pairwise disjoint exactly as long as no create has met a complete overlap; well-formed, non-empty and coalesced they always are. |
| ForkWalks.ForkCompletes | sys/common/process.c:202-250 | With the walks that fork's creates make: fork completes, whatever the unset pointers hold, exactly if each region that meets a complete overlap is the first that does, has no FREE space below it and some above, so that what its create deletes is the original FREE region; the child then says about every address in use what the parent says. |
| ForkWalks.GapStrays | sys/common/process.c:211-239 | Concrete parent: four pages listed out of order, whose copying stays on the list but deletes the upper part of a split, whose pointer was never set. |
| Sharing.ReturnsHome | sys/i386/context.c:294-298 | Following sharedmem_next from a live region comes back to it within as many steps as there are live regions. |
| Sharing.ClonedRings | sys/i386/context.c:349-350 | clone_region keeps the sharing pointers a union of disjoint cycles when it finds room. |
| Sharing.DeletedRings | sys/i386/context.c:294-298 | delete_region's bypass keeps the sharing pointers a union of disjoint cycles. |
| Sharing.CloneDeleteRestores | sys/i386/context.c:294-298 | Deleting a fresh clone gives back the rings as they were. |
| Sharing.CloneGoodIffRoom | sys/i386/context.c:347-350 | The rings and all that is known about frames survive a clone if and only if the destination has room: without it the source's pointer is cleared. |
| Sharing.UnlinkedWalk | sys/i386/context.c:294-298 | After a clone without room, the walk of delete_region from any other region of the source's ring comes to the cleared pointer before it comes home. |
| Sharing.StrayWalk | sys/i386/context.c:294-298 | A walk that starts at an unset pointer into a live ring never comes to the region whose pointer it is. |
| Sharing.DeletedStrays | sys/i386/context.c:294-298 | After its deletion a shared region's own pointer is such a one: the walk of a second deletion does not come home. |
| Sharing.AloneIffUnshared | sys/i386/context.c:286-288 | delete_region's test is right: a region points to itself exactly when no other live region maps one of its frames. |
| Sharing.RunBalances | sys/i386/context.c:286-298 | Over every run of creates, clones that find room and deletions each frame's allocations equal its releases plus one while it is held. |
| Sharing.FramesReleasedOnce | sys/i386/context.c:265-350 | Over every run of creates, clones that find room and deletions a frame is released once per allocation, by the deletion of its last sharer, and the pointers stay disjoint cycles. |
| Sharing.TrimLeaves | sys/i386/context.c:235-241 | A fixed create that trims a live region keeps the rings; the frames held stay those mapped exactly if the region gave up no frame or shares its frames, and sharers keep mapping the same frames exactly if it gave up none or shares with nobody. |
| Sharing.SplitLeaves | sys/i386/context.c:242-256 | One that splits a live region keeps the rings exactly if the sharedmem_next it leaves unset happens to point at the new region; the frames held stay those mapped under the same condition as for a trim. |
| RegionList.AddressSpace.constructor | sys/i386/context.c:28-107 | The two sentinels, the FREE region and the default stack linked in that order. |
| RegionList.AddressSpace.Determine | sys/i386/context.c:171-182 | The walk returns the first listed region holding the address, null if there is none. |
| RegionList.AddressSpace.FindSmallest | sys/i386/context.c:200-217 | The walk returns the node that the specification of best fit names. |
| RegionList.AddressSpace.CreateBestFit | sys/i386/context.c:200-268 | Carves the found node in place, lists the new one first; the list spells out the specification's result. |
| RegionList.AddressSpace.TrimNode | sys/i386/context.c:235-256 | Trims or splits one node in place as the specification says, linking a split's upper part after it. |
| RegionList.AddressSpace.VisitInside | sys/i386/context.c:230-234 | Follows the pointer of a completely overlapped node, deletes it and goes on from the node after the next one; null exactly when the walk does not come home or that is past the last sentinel. |
| RegionList.AddressSpace.ScanList | sys/i386/context.c:228-257 | The loop on the nodes, all four cases, gives the specified list and leaves the specified pointers, and terminates. |
| RegionList.AddressSpace.CreateFixed | sys/i386/context.c:224-268 | create_region at an address on any page-aligned list, disjoint or not: nodes, order, fields and pointers as specified, the new node first, pointing to itself; null exactly when the loop runs off the list or deletes a region whose walk does not come home. |
| RegionList.AddressSpace.Unlink | sys/i386/context.c:302-306 | The predecessor walk terminates and takes exactly that node off the list; an unlinked node still leads on. |
| RegionList.AddressSpace.MergeLeft | sys/i386/context.c:299-308 | The merge with the earlier region on the nodes. |
| RegionList.AddressSpace.MergeRight | sys/i386/context.c:309-316 | The merge with the later region on the nodes. |
| RegionList.AddressSpace.MergeAndFree | sys/i386/context.c:299-318 | Both merges and the change of type give the specified list, and the node after the deleted one leads where the specification of the scan says. |
| RegionList.AddressSpace.TakePages | sys/i386/context.c:118-134 | The loop of expand_region takes page after page off FREE regions, stopping where the kernel stops. |
| RegionList.AddressSpace.ExpandUpward | sys/i386/context.c:109-160 | The list after expand_region upwards is the specified one. |
| UserMemory.ReleasePages | sys/i386/context.c:276-291 | Unmaps every page of the region and releases its frames exactly if the region points to itself. |
| UserMemory.PagesAre | sys/i386/context.c:277-291 | The pages of a region are the addresses a multiple of 4096 behind its start and before its end, its frames what those map. |
| UserMemory.UnlinkRing | sys/i386/context.c:293-298 | The walk to the ring predecessor terminates and bypasses the region. |
| UserMemory.LiveComesHome | sys/i386/context.c:294-298 | From a live region the walk of delete_region comes home within as many steps as there are live regions, and the link recorded for it says so. |
| UserMemory.DeleteRegion | sys/i386/context.c:273-322 | List, rings, page mappings and frame counts after delete_region. |
| UserMemory.CopyPages | sys/i386/context.c:351-355 | Page k of the clone maps what page k of the source maps; no other page changes. |
| UserMemory.JoinRing | sys/i386/context.c:349-350 | The clone takes over the source's pointer and the source points to the clone, which inserts it into the ring; with no clone the same step clears the source's pointer, and the ring is one no more. |
| UserMemory.CloneRegion | sys/i386/context.c:345-357 | List, ring and mappings after clone_region. It makes a region exactly if the destination has a FREE region of that length; if not, the source's pointer is cleared and the live regions form no rings any more. |
| UserMemory.Window | sys/common/kfifo.c:189-212 | The temporary region of a FIFO write: exactly if the writer has a FREE region of the FIFO's length, type map, sharing rings and held frames are as before, the window's pages are unmapped, and every other page of the writer maps what it mapped. If not, the list is as it was, but the FIFO region's pointer is cleared and its ring broken. |
| ForkRegions.CopyOne | sys/common/process.c:213-246 | One round of fork's switch gives the specified child, or stops where the create runs off the list or follows a stray pointer; a stack region copied becomes the child's stack. |
| ForkRegions.CopyRegions | sys/common/process.c:202-250 | The loop over the parent's regions completes exactly if every create that meets a complete overlap covers the original FREE node and leaves something FREE above; then the child's lookup tells about every address in use what the parent's tells, and the parent is left alone. |
| RingBuffer.RoomExact | sys/common/kfifo.c:157-161 | In C's int arithmetic the writer's room is size - 1 less the bytes stored, for every size up to 2^31. |
| RingBuffer.ZeroSizeUnbounded | sys/common/kfifo.c:152-166 | For size 0 neither of the writer's tests refuses any write. |
| RingBuffer.ReaderComplement | sys/common/kfifo.c:283-286 | The reader takes size less the bytes stored for the bytes stored (0 if there are none): the two differences are complements modulo size. |
| RingBuffer.ReaderTestWrong | sys/common/kfifo.c:283-291 | Concrete cases: a read of 4095 bytes passes with one stored, a read of 2 is refused with 4095 stored. |
| RingBuffer.ReaderTestRight | sys/common/kfifo.c:283-291 | The reader's test agrees with 'that many bytes are stored' exactly if the ring is empty or the length does not fall between the stored amount and its complement. |
| RingBuffer.WriteAppends | sys/common/kfifo.c:200-217 | What the two-branch copy leaves, read from end on, is the old queue followed by the buffer. |
| RingBuffer.ReadRemoves | sys/common/kfifo.c:306-316 | Stepping end takes the oldest bytes off the queue. |
| RingBuffer.Fifo.constructor | sys/common/kfifo.c:49-107 | The ring is the requested size rounded up to pages and the region mapped for it is large enough. |
| RingBuffer.Fifo.CopyWrapped | sys/common/kfifo.c:200-210 | The copy writes byte d into the cell d ahead of start, wrapping, inside the mapped pages. |
| RingBuffer.Fifo.Write | sys/common/kfifo.c:152-217 | A write succeeds exactly if the process may send and the bytes and those stored are at most size - 1; otherwise it answers that the buffer is too large for the ring exactly if it is, that the ring is full exactly if the bytes would fit an empty one only, and that permission is missing exactly if they fit. An accepted write appends exactly its bytes, a refused one changes nothing, and the indices stay below size. |
| RingBuffer.Fifo.Read | sys/common/kfifo.c:272-316 | A read succeeds exactly if the process may receive and the length is at most the complement of the stored amount; an accepted read within the stored amount takes exactly the oldest bytes in order, one beyond it makes the ring claim size bytes more. |
| FifoProtocol.MutualExclusion | sys/common/kfifo.c:131-335 | In every interleaving of readers and writers over exchange locks at most one holds the FIFO's lock and at most one the list lock. |
| FifoProtocol.CopyBegins | sys/common/kfifo.c:152-291 | A step begins a copy exactly if the thread holds the FIFO's lock, its process is on the access list, and the bytes fit (writer) or are at most the complement of the stored amount (reader). |
| FifoProtocol.NextQueue | sys/common/kfifo.c:146-316 | Every step keeps: bytes accepted are those delivered followed by those in the ring, also in the middle of copies. |
| FifoProtocol.OverReadOverruns | sys/common/kfifo.c:283-316 | Publishing a read of more than is stored delivers more bytes than were accepted. |
| FifoProtocol.DeliveredIsPrefix | sys/common/kfifo.c:131-335 | In every interleaving the bytes delivered are throughout a prefix of those accepted if and only if no accepted read asks for more than is stored. |
| FifoProtocol.WriteCompletes | sys/common/kfifo.c:129-233 | A write that no other thread disturbs comes to its end with both locks free; the bytes join the queue exactly if the process may send and they fit, and otherwise nothing has changed. |
| FifoProtocol.ReadCompletes | sys/common/kfifo.c:251-335 | So does a read; it takes as many bytes as asked for exactly if the process may receive and they are at most the complement of the stored amount, the oldest ones if as many are stored. |
| FifoProtocol.LockedReturns | sys/common/kfifo.c:131-150 | A call that finds either lock taken returns within three steps and leaves everything as it was. |
| Senders.SpliceKeepsSenders | sys/common/kfifo.c:396-405 | The splice adds the new pid and loses no sender exactly if every entry between the first and the last of the old pid is of one of the two pids or has its like outside. |
| Senders.SpliceReady | sys/common/kfifo.c:396-405 | On a list with equal pids adjacent, adjacency is kept and the senders are the old ones plus the new pid exactly if the old one was listed, also when the same pair is spliced again. |
| Senders.ForksKeepSenders | sys/common/process.c:209-250 | Over every run of forks, each calling once a region, no sender is lost and exactly the children of senders join. |
| Senders.UpdateSenders | sys/common/kfifo.c:393-405 | The walk terminates and leaves an acyclic list holding the specified pids. |
| Kqueue.TriggerAllEvents | sys/common/kfifo.c:221-230 | A FIFO write triggers exactly the readable events hooked to the FIFO. |
| Kqueue.TriggerAllWakes | sys/common/kqueue.c:161-175 | A FIFO write wakes exactly the processes waiting on the queue of one of the events it triggers. |
| Kqueue.NobodySleepsThrough | sys/common/kqueue.c:101-250 | After every run from boot a waiting process owns the queue it waits on and no event of that queue is triggered. |
| Kqueue.TriggeredWaitsForData | sys/common/kfifo.c:221-329 | After every run from boot an event that is triggered is a readable one, on the list of the FIFO it names. |
| Kqueue.WriteWakes | sys/common/kfifo.c:221-230 | In every reachable state a write leaves each readable hooked event triggered and the owner of its queue not waiting on it. |
| Kqueue.BlocksExactly | sys/common/kqueue.c:182-218 | kqueue_block fails exactly if there is no such queue or it is another's; otherwise the process waits on the queue exactly if none of its events is triggered, and nothing else changes. |
| Kqueue.AddsExactly | sys/common/kqueue.c:101-159 | kqueue_event fails in the same cases; otherwise the queue has one new event, at its front and at that of the FIFO it names, triggered exactly if it waits for data and that FIFO stores bytes; no other event changes. |
| Kqueue.ReadWalkIs | sys/common/kfifo.c:318-329 | The walk by next visits all of the queue's list from the first hook on, and nothing if there is no hook. |
| Kqueue.ReadClearsHooksExactly | sys/common/kfifo.c:318-329 | A read that empties the FIFO clears exactly its hooked readable events if and only if the triggered readable events along the first hook's own queue are those hooked to the FIFO, since the walk steps by next. |
| Kqueue.WatcherGood | sys/common/kfifo.c:318-329 | Concrete case: two FIFOs watched through one queue, in a state that keeps the invariant. |
| Kqueue.WatcherReached | sys/common/kfifo.c:318-329 | Eight calls from boot lead to that state. |
| Kqueue.WatcherRead | sys/common/kfifo.c:318-329 | In that state emptying one FIFO clears the event of the other too. |
| Kqueue.ReadingOneFifoHidesAnother | sys/common/kfifo.c:318-329 | The other FIFO still stores bytes, and its reader goes to sleep all the same. |
| Kqueue.AsleepReached | sys/common/kfifo.c:318-329 | Two more calls, a read of the one FIFO and a block, leave a process asleep whose other FIFO stores bytes. |
| Kqueue.SignalsKeptExactly | sys/common/kfifo.c:221-329 | That every readable event hooked to a FIFO with data is triggered is kept by every call but a poll that reports an event still due and a read that empties one FIFO and walks over an event due to another; by those it is not. |
| Kqueue.PollIsReported | sys/common/kqueue.c:236-248 | What a poll reports, by the state before it: the first limit triggered events, or with limit 0 the newest event if triggered. |
| Kqueue.WaitersFindNothing | sys/common/kqueue.c:182-218 | After a run without those calls a waiting process has nothing to read: every FIFO hooked to a readable event of its queue is empty. |
| Kqueue.PollReports | sys/common/kqueue.c:236-248 | kqueue_poll with a limit of at least 1 reports the first min(limit, triggered) triggered events in list order. |
| Kqueue.PollClears | sys/common/kqueue.c:236-248 | It clears exactly the events it reports and leaves every other one as it was. |
| Kqueue.PollWithinLimit | sys/common/kqueue.c:236-248 | It writes past the limit if and only if the limit is 0 and the newest event is triggered. |
| Kqueue.PollZero | sys/common/kqueue.c:244-246 | With a limit of 0 the first event, if triggered, is reported all the same. |
| KqueueKernel.Kernel.CreateKqueue | sys/common/kqueue.c:58-84 | The pushed node's id was no queue's before and now names an empty queue of the caller; every other queue, event and FIFO is found as before, and no waiter is lost. |
| KqueueKernel.Kernel.FindQueue | sys/common/kqueue.c:119-124 | The search every call starts with ends at the node of that id, null exactly if there is none. |
| KqueueKernel.Kernel.KqueueEvent | sys/common/kqueue.c:101-159 | No such queue or not the caller's: nothing changes. Otherwise one new node on both lists, triggered exactly if it is a readable event of a FIFO that stores bytes, and no other event changes; no waiter is lost, and every event that has data to read is still triggered if all were. |
| KqueueKernel.Kernel.AddHook | sys/common/kfifo.c:527-559 | The node enters the list of its FIFO, found by walking the FIFOs, and no other list; it becomes triggered exactly if it is a readable event and that FIFO stores bytes, and no other event changes; if every event that has data to read was triggered, that stays so. |
| KqueueKernel.Kernel.TriggerEvent | sys/common/kqueue.c:161-175 | Afterwards the event is triggered and the owner of its queue does not wait on that queue, and a process that waits on another still waits rightly. |
| KqueueKernel.Kernel.TriggerHooks | sys/common/kfifo.c:221-230 | The walk by hook_next ends and visits exactly the FIFO's hooks in order, triggering the readable ones. |
| KqueueKernel.Kernel.FifoWritten | sys/common/kfifo.c:221-230 | The end of a write, the walk included, on nodes: exactly the readable hooks become triggered and exactly the processes waiting on a queue of one of them run again; no waiter is lost, and every event that has data to read is triggered if all were before. |
| KqueueKernel.Kernel.UntriggerNexts | sys/common/kfifo.c:318-329 | The walk by next from the first hook ends and visits exactly that event and those behind it on the list of that event's queue, which is what the specification of the read names. |
| KqueueKernel.Kernel.FifoRead | sys/common/kfifo.c:318-329 | The end of a read, the walk by next included: if the FIFO is empty the readable events from the first hook to the end of that event's queue are cleared, and nothing else changes; no waiter is lost by it. |
| KqueueKernel.Kernel.BlockProcess | sys/common/kqueue.c:182-218 | No such queue or not the caller's: nothing changes. With an event of the queue triggered nothing changes either; with none the process waits on the queue and that is the only change, after which it will be woken. |
| KqueueKernel.Kernel.PollQueue | sys/common/kqueue.c:220-250 | Error cases, and the walk with its early exit copies out flag and name of the first triggered events up to the limit, in list order, and clears exactly those. |
| KqueueKernel.Kernel.OpenFifo | sys/common/kfifo.c:97-102 | A new FIFO, empty and with no hooks, enters the list. |
| Scheduling.FirstAfterNearest | sys/common/process.c:151-167 | The choice is the RUNNING process fewest steps ahead in cyclic list order, the current one counting last. |
| Scheduling.HaltsOnlyWhenIdle | sys/common/process.c:151-167 | schedule halts exactly when no process is RUNNING; otherwise one lap decides. |
| Scheduling.ChosenRuns | sys/common/process.c:151-167 | What it chooses is RUNNING, also after halts. |
| Scheduling.WakesNearest | sys/common/process.c:151-167 | After the first interrupt that leaves a process running, schedule takes the process that called it if that one runs, and the nearest one ahead otherwise; while none runs it halts again. |
| Scheduling.Fair | sys/common/process.c:140-171 | A process that is RUNNING at each of n successive calls over n processes is chosen by one of them. |
| Scheduling.FramesRoundTrip | sys/common/process.c:144-168 | Over every run, nested calls included, the frame given to a process is the one saved when it was last switched out, or its first one. |
| Scheduler.Processes.CreateProcess | sys/common/process.c:88-120 | Appends a RUNNING process with the next pid. |
| Scheduler.Processes.GetProcess | sys/common/process.c:122-136 | Finds the process of that pid, null if there is none. |
| Scheduler.Processes.Lap | sys/common/process.c:151-167 | One lap over the links finds the specified process. |
| Scheduler.Processes.Schedule | sys/common/process.c:140-171 | The loop with its halts makes the specified choice, saves and gives frames, and does nothing under kernel_reenter. |
| Scheduler.Processes.Step | sys/common/process.c:140-171 | schedule on the list is a step of the machine of frames that `Scheduling.FramesRoundTrip` is about: the frame is saved for the process that called and the one chosen gets the frame kept for it; a nested call changes nothing. |
| SlabLists.AllocateSafe | sys/common/slab.c:79-141 | allocate_from_slab hands out an object nobody holds and changes no other one's standing; it fails exactly when the head of the partial list is wholly free. |
| SlabLists.AllocatesFirst | sys/common/slab.c:79-111 | The object comes from the head of the partial list, failing that of the empty list, failing that from the new page, and is the first of that page's chain. |
| SlabLists.TakeFacts | sys/common/slab.c:106-141 | Taking an object leaves the lists alone, and the page it came from is then one object short of wholly free, while heading the partial list, exactly if the slab was wedged. |
| SlabLists.DeallocateSafe | sys/common/slab.c:156-177 | Returning a live object frees exactly that one and keeps lists, chains and counts. |
| SlabLists.ReusesLast | sys/common/slab.c:106-164 | If its page is the one allocated from next, the object just returned is handed out again. |
| SlabLists.SlabSafe | sys/common/slab.c:68-178 | After every run from create_slab num_objects is the number of live objects, every chain holds distinct indices of its page, and the next allocation is safe or wedged. |
| SlabLists.DeallocateWedges | sys/common/slab.c:167-177 | Returning an object wedges the slab exactly when it was the only live one of the page heading the partial list. |
| SlabLists.WedgedExactly | sys/common/slab.c:113-177 | After a run the next allocation succeeds if and only if no call of the run returned the only live object of the page then heading the partial list. |
| SlabLists.AllocateFreeAllocate | sys/common/slab.c:113-177 | Concrete run: allocate one object of a fresh slab, return it, and the next allocation is wedged. |
| SlabLists.FullForever | sys/common/slab.c:167-177 | A page that was full once stays on the full list whatever is returned to it, and is never allocated from again. |
| SlabLists.AddressRecovered | sys/common/slab.c:106-160 | An object lies in its page behind the header, and masking and dividing its address give back page and index. |
| SlabLists.ObjectsDisjoint | sys/common/slab.c:106-107 | Two objects share no byte. |
| SlabLists.HeaderKept | sys/common/slab.c:48-53 | No object shares a byte with the three words of its page's header, and a page holds as many objects as fit behind them. |
| Slab.Sbuf.constructor | sys/common/slab.c:85-98 | The loop threads a new page's objects into the chain 0, 1, ... ending in -1. |
| Slab.Sbuf.Pop | sys/common/slab.c:106-110 | Taking an object reads the next index out of it; the chain loses its head. |
| Slab.Sbuf.Push | sys/common/slab.c:162-164 | Returning an object stores the old head in it; the chain gains a head. |
| Slab.SlabEntry.constructor | sys/common/slab.c:42-59 | A slab of one wholly free page. |
| Slab.SlabEntry.MoveToPartial | sys/common/slab.c:127-141 | Unless the page heads the empty list, the walk's first step decides: null read, end, or an endless loop. |
| Slab.SlabEntry.Allocate | sys/common/slab.c:68-145 | On the linked pages allocation does what the lists specify, without touching what is stored in objects; wedged, it reads null, loops, or links the head page to itself. |
| Slab.SlabEntry.FindBefore | sys/common/slab.c:168-172 | The walk finds the page before sb on the partial list, null if sb heads it or is not on it. |
| Slab.SlabEntry.Deallocate | sys/common/slab.c:156-178 | On the linked pages deallocation by address does what the lists specify and writes into no other object. |
| Slab.SlabEntry.Store | sys/common/slab.c:156-164 | An owner writing over a live object disturbs no chain. |
| PageBitmap.SetChanges | sys/i386/physical_memory.c:125-126 | Setting bit page % 32 of word page / 32 changes the status of that page alone. |
| PageBitmap.ClearChanges | sys/i386/physical_memory.c:127-129 | Clearing it changes the status of that page alone. |
| PageBitmap.OnlyFullWord | sys/i386/physical_memory.c:87-99 | A word with all 32 bits set is 0xFFFFFFFF, so a word that passed the scan has a clear bit for the offset loop. |
| PageBitmap.RunConserves | sys/i386/physical_memory.c:79-114 | Over every run in which only held pages are returned, no page is given out while held, free and held pages together stay the same, and free_pages stays the number of free ones. |
| PageBitmap.CountKept | sys/i386/physical_memory.c:111-114 | Returning a page keeps the count right exactly if the page was not free. |
| PageBitmap.ReturnUndoes | sys/i386/physical_memory.c:111-114 | Returning the page just allocated undoes the allocation. |
| PhysicalMemory.MemoryDomain.PagesScanned | sys/i386/physical_memory.c:83-91 | Every page of the domain is looked at, and the lowest free page lies in the domain exactly if one of the domain's is free: the rest of the last word scanned counts as pages too. |
| PhysicalMemory.MemoryDomain.FindWord | sys/i386/physical_memory.c:83-91 | The scan stops at the first word that is not full; every page before it is in use. |
| PhysicalMemory.MemoryDomain.FindOffset | sys/i386/physical_memory.c:96-99 | The offset loop stops at the lowest clear bit. |
| PhysicalMemory.MemoryDomain.AllocatePage | sys/i386/physical_memory.c:79-103 | Returns the lowest free page and sets that bit only; 0 if none is counted free; loops if one is counted but none is there. |
| PhysicalMemory.MemoryDomain.SetPageStatus | sys/i386/physical_memory.c:116-131 | Status 1 marks the page used, anything else free. |
| PhysicalMemory.MemoryDomain.DeallocatePage | sys/i386/physical_memory.c:111-114 | Frees the page and counts it. |
| PageTables.MapPageMaps | sys/i386/paging.c:217-234 | One turn of the loop makes the page translate to the frame of the address, gives a missing table a frame of its own, and opens one window for good. |
| PageTables.MapPageOthers | sys/i386/paging.c:225-231 | It changes no other page's translation, except that the pages of a new table translate as the words left in its uncleared frame say. |
| PageTables.MapPageCosts | sys/i386/paging.c:217-234 | One turn of the loop goes through exactly if a window is left and, where the page's table is missing, a frame; it uses up those and makes no other table. |
| PageTables.MapPageOpens | sys/i386/paging.c:225-230 | The page's directory and table entries are present, writable and open to user code, and no other page loses that. |
| PageTables.WindowServes | sys/i386/paging.c:128-158 | The entry of a window maps its frame for the kernel to write and is marked used. |
| PageTables.OthersKept | sys/i386/paging.c:208-236 | Mapping a region keeps the translation of every page outside it whose table existed. |
| PageTables.GivenMapped | sys/i386/paging.c:208-236 | With an address given, page i of the region translates to the frame i pages on. |
| PageTables.NthIsSum | sys/i386/paging.c:215-233 | The address i pages on is address + i * 4096 in 32-bit arithmetic. |
| PageTables.FreshMapped | sys/i386/paging.c:221-223 | With no address given, each page of the region translates to a frame that was free and no longer is. |
| PageTables.FreshDistinct | sys/i386/paging.c:221-223 | No two of those pages translate to the same frame. |
| PageTables.RegionReached | sys/i386/paging.c:208-236 | After n turns of the loop: the given address's pages, or as many different frames that were free, all open to user code if the tables there were; every page outside whose table existed as before, and n windows used up. |
| PageTables.ReachesGood | sys/i386/paging.c:229-230 | Tables stay distinct and in use, and n pages use up n kernel windows, none of which is closed. |
| PageTables.LookupAnswers | sys/i386/paging.c:253-262 | A lookup comes to an answer exactly if the directory has no entry there or a window can be opened. |
| PageTables.LookupAgrees | sys/i386/paging.c:253-262 | A lookup leaves everything as it was, the kernel's window table included, and agrees with translation on every mapped page; on an unmapped one it answers 0 unless the table's word holds an address without being present. |
| PageTables.MappedLooksUp | sys/i386/paging.c:208-262 | Looking up a page of a region mapped to an address gives that address's page. |
| Paging.Pager.FindUnused | sys/i386/paging.c:112-126 | The search ends at the first entry not marked used. |
| Paging.Pager.OpenWindow | sys/i386/paging.c:149-159 | A window on a page-aligned address takes the first unused entry and changes no other. |
| Paging.Pager.UserAddressToPhysical | sys/i386/paging.c:253-262 | Answers as specified, exactly if the directory has no entry there or a window can be opened, and restores the window table. |
| Paging.Pager.MapPage | sys/i386/paging.c:217-234 | One turn of the loop through directory, window and table gives the specified tables. |
| Paging.Pager.MapRegion | sys/i386/paging.c:208-236 | It goes through exactly if there are as many windows left as pages and enough free frames for the tables that are missing and, with no address given, for the pages. Then the pages of the region translate to the frames of consecutive addresses, or to different frames that were free; every page outside whose table existed translates as before, and one window a page stays open. An unaligned start does nothing. |

## Left out

- CompleteOverlap.TilesIffNoneInside: is for targets bordered by no FREE address; beside FREE space the list order decides whether a merge absorbs what the loop skips, and only `ScanKeepsOutside` and `CreateShadows` are proved. `RunsOff.RunsOffIffOdd` is for the same targets, holding no FREE region; fork's targets, which do hold FREE regions, are settled in `Fork`.
- RegionList.AddressSpace.CreateFixed: of what delete_region does to a completely overlapped region it models the list, and whether the walk comes home; it does not model the unmapping, the release of frames and the change to the pointer of the ring's other members, which `UserMemory.DeleteRegion` models for a deletion of its own. `RegionList.AddressSpace.VisitInside` and `RegionList.AddressSpace.ScanList` leave out the same.
- Fork.ForkReproduces: says when the creates stay on the list; when fork completes is in `ForkWalks`. Both are for parents without IPC, KERNEL or empty live regions; the cloning of IPC regions is covered by `UserMemory.CloneRegion`, but not inside the fork loop.
- ForkRegions.CopyRegions: does not copy page contents and leaves the child's page tables to `Paging`.
- UserMemory.Window: is proved for the region list, the rings, the mappings and the frames; the copy through a null region, when there is no room, is not modelled; the byte protocol of `FifoProtocol` takes the copy through the window as writing the ring.
- ForkRegions.CopyOne: has no case for IPC regions, as `Fork.ForkReproduces`.
- ForkWalks.ForkCompletes: is for the same parents as `Fork.ForkReproduces`.
- Links.CreateEndsExactly: is for targets that border and hold no FREE space, as `RunsOff.RunsOffIffOdd` is.
- Runs.ReachableTiling: runs are of fixed creates in which no listed region lies wholly inside the target, between walls the only ones that keep the tiling, by `LegalExactly`; fork's runs of others are in `Fork`.
- Expand.UpwardGrows: the page mappings expand_region adds are not modelled; the downward half, which probes pages inside the region itself, is not either.
- PhysicalMemory.MemoryDomain.DeallocatePage: takes a page number; sys/i386/context.c:287 passes an address.
- Paging.Pager.MapRegion: ends with a refusal when no frame or no window is left, and only then; the code would go on with frame 0 or beyond the window table.
- PageTables.GivenMapped: data frames are taken not to be page tables, so writes to mapped pages change no translation.
- Sharing.FramesReleasedOnce: runs, like those of `Sharing.RunBalances`, are of creates that cut no live region and clones that find room; `TrimLeaves`, `SplitLeaves` and `CloneGoodIffRoom` say what others leave.
- UserMemory.CloneRegion: what the page loop maps through a null clone is not modelled, nor the clone of a region that is on no ring. kfifo_create_fifo too goes on with a null region when there is no room.
- Paging.Pager.UserAddressToPhysical: answers none when no window is left; the code writes past the window table.
- RingBuffer.Fifo.constructor: sizes from 1 to 0x70000000; `ZeroSizeUnbounded` shows what a size of 0 does.
- Kqueue.NobodySleepsThrough: one call is one step; sleeping and waking inside schedule is the scheduler's part. Processes do not exit.
- KqueueKernel.Kernel.KqueueEvent: only the FIFO filter; for the other one the code calls a hook that was never set. Processes are found by pid in a map; the walk that finds them is `Scheduler.Processes.GetProcess`.
- Slab.SlabEntry.Allocate: pages of at least two objects, and one caller at a time, since the slab's lock excludes nobody.
- Scheduler.Processes.Schedule: an interrupt taken while halted is a new status for each process; nested calls return at once, as the code does.
- The 32-bit wrap of addresses past the end of user space, of pids, FIFO and queue numbers and of event counters.
- A probe by delete_region outside every region returns null; it is taken as finding no FREE neighbour.
- The sharedmem_next of a split's upper part, which the code does not set, is taken to lead nowhere, and following it ends the run; should the memory happen to hold the region's own address, the walk would end at once. `Sharing.SplitLeaves` takes it as arbitrary. The parameter of the first regions, which it does not set either, is taken as 0.
- The last `next` of an access list, which kfifo_create_fifo does not write, is taken as null.
- kfifo_close_fifo, execve_elf, device_interface.c, system call dispatch and the user-space servers.
- Boot, descriptor tables, interrupts, ports, the TLB and control registers, and initialize_memory: the bitmap starts from a given state.
- map_user_address, which writes a page table through its physical address.
- More than one memory domain.
