# A verified model of a paged storage engine

The storage engine keeps relations in slotted pages, segments in partitions, and all pages behind a write-back buffer
pool. This project models its layers in Dafny and proves what they are relied on for.

| file | what it models |
|---|---|
| PageTypes.dfy | page size, page identifiers, little-endian integers |
| CacheModel.dfy, PoolModel.dfy, BufferControlBlock.dfy, BufferManager.dfy | the buffer manager on linked control blocks, its state as values, and the page cache that state stands for |
| BufferRuns.dfy | whole runs of the buffer manager, with held pages, against a plain page map and its disk |
| LockProtocol.dfy | the lock of one control block under all interleavings of many threads |
| ThreadQueue.dfy | the job queue of the thread pool, with condition variable and shutdown, under all interleavings |
| BitMap.dfy, Fsip.dfy, Partition.dfy | the page allocator: bitmap, free space indicator page (FSIP), partition with growth |
| SlottedPage.dfy, FsmPage.dfy, Occupancy.dfy | slotted pages and the free space map (FSM), byte by byte, and the arithmetic that ties them |
| SegmentFsm.dfy, SegmentFsmSp.dfy | inserting, reading, scanning and deleting tuples in a segment |
| SegmentIndex.dfy | storing and loading a segment's page lists |
| SegmentTuple.dfy, Catalogue.dfy | the catalogue of segments in memory and in the master segment |
| Durability.dfy | shutdown and boot: lists, tuples and catalogue through index pages, buffer manager and disk |
| JulianDay.dfy | Julian day numbers of calendar dates |

How the layers meet. `BufferRuns` shows that the buffer manager behaves like a map from page identifiers to pages, so
the segment modules work on such a map. `Partitions` shows which allocations hand out pages that are not in use; a
segment draws its pages from a set of unallocated pages. `Durability` takes a segment and the catalogue through the
real buffer manager to the disk and back.

## Main results

* Any sequence of fix, create, read, write, unfix, single-page flush, flush and reset calls, with any pages held in
  between and any eviction choices, has the outputs, the pages, the locks and the disk of a run of a plain page map
  (`BufferRuns.Run`). It follows that a read yields the last write, the disk has only bytes that the page itself once
  had, a page that stays cached is not written back unasked, and a reset takes such a page back to its last flush.
* In every reachable state of the pool the free list and the hash chains are acyclic, disjoint and hold every block,
  each cached page is in the bucket of its hash once, frames are shared by no two pages, and a spare block exists from
  five frames on.
* A block's recorded mode always tells which lock is held, so unlock releases the right one, and eviction never takes
  a block somebody holds. The fix count is, in every reachable state, the number of holders plus the number of pending
  upgrades that released their lock since the last exclusive lock: exactly these are safe from eviction
  (`LockProtocol.CountIs`, `LockProtocol.EvictableIff`); a run in which another upgrade loses its page is given.
* No wake-up of the job queue is lost, jobs leave in order and run at most once, an idle worker that is awake starts a
  waiting job within two steps of its own, and after invalidation no waiting job is started and every worker exits.
* The FSIP counters and hint describe its bitmap exactly, through byte-wise and word-wise updates and growth; after
  format a partition hands out every data page once, lowest first. Over all runs of allocations and returns it is
  given exactly when an allocation hands out a page in use (`Partitions.HandedOut`, `Partitions.PendingSince`).
* The four-bit occupancy of a page is conservative for all bulk inserts and for single tuples of 1 to 4064 bytes but
  for 32 sizes, so these are never rejected. When a single insert is rejected is given exactly, for every segment and
  in terms of the tuple sizes on the page (`SegmentFsmSps.SinglesRejected`).
* Tuples stay readable under their identifiers until deleted, a scan finds exactly the live ones in order, a bulk
  insert ends and puts the tuples on the pages that the map picks for them. No operation on a segment changes a tuple of
  another one (`SegmentFsmSps.OtherSegment`).
* A segment survives store and load exactly up to 1016 data pages; catalogue maps and master records agree after every
  creation and deletion, and both maps survive a shutdown and boot through the disk exactly if every
  record is on a data page that the index pages have room for (`Durability.ShutdownAndBoot`).
* Date conversion is a bijection with consecutive numbers for consecutive days, within 32-bit arithmetic.

## Where the code does not do what it seems to

Each of these is proved, with the exact condition under which the code is right.

* `freePage` leaves the hint of a full FSIP at 0, so the state stays right only for the first page
  (`Fsips.Fsip.FreePage`), and the next allocation hands out page 1, which is in use: a page is handed out twice
  without having been given back exactly in this way (`Partitions.TwiceMeansFreed`, `Partitions.FreeThenAlloc`;
  `Partitions.DoubleAllocation` is a partition of six pages that does it).
* `reservePage` spoils the counter of a page that is taken (`Fsips.Fsip.ReservePage`).
* `PartitionBase::freePage` reads the FSIP of a page at a stride that lacks the FSIP itself: the right one only in the
  first extent, and no FSIP at all except in every 32513th extent (`Partitions.StrideFault`).
* `format` writes no FSIP for a last extent of one page, which allocation would read (`Partitions.UnwrittenFsip`).
* The new size of a growing file is a 32-bit product of pages and page size. Growth succeeds exactly while the file
  stays below 2^20 pages; from there on the file is cut down instead, most pages are lost, and the allocation fails
  (`Partitions.Partition.AllocPageOrGrow`; `Partitions.ShrinkingGrowth` loses all but 24353 of 1040416 pages).
* Byte offsets are such products as well: pages have places of their own exactly in files of up to 2^20 pages
  (`Partitions.OwnPlaces`), and format overwrites a data page exactly in partitions of more than 1072930
  (`Partitions.FormatSpares`).
* Successful growth beyond an extent counts the new FSIP as a managed page, so a page behind the end of the file
  becomes allocatable, unless it fills the next extent exactly; growth beyond that leaves the FSIP after it unwritten
  (`Partitions.Partition.AllocPageOrGrow`).
* The initialisation of an FSM page skips its first eight bytes, so a new segment is in order only if they were 0
  (`SegmentFsms.SegmentFSM.constructor`).
* Index pages are added when the number of data pages reaches the size of the index pages in bytes, four times too
  late: in every segment the code builds, the index pages have room exactly up to 1016 data pages
  (`SegmentIndexes.IndexRoom`), and a segment of 1017 comes back without its last page (`SegmentIndexes.FirstLoss`).
* A single insert whose record would be the second or third on its page, all of which fill their occupancy buckets,
  is accepted by the map and rejected by the page (`SegmentFsmSps.SinglesRejected`); 2168 and then 1896 bytes in an
  empty segment do it (`SegmentFsmSps.SecondRejected`).
* `loadSegmentUnbuffered` keeps the terminating 0 among the FSM pages, unlike `loadSegment`
  (`SegmentIndexes.SegmentPages.LoadSegmentUnbuffered`); `storeSegment` leaves a 0 among the index pages.
* A bulk insert with a tuple that fits no page asks for empty bins for ever (`SegmentFsmSps.SegmentFSM_SP.NextBin`).
* The initial free list of blocks starts with a self-link that the next step overwrites, so it is a list only for two
  or more blocks (`BufferManagers.BufferManager.LinkFreeBCBs`).

## Model

| member | source | states |
|---|---|---|
| CacheModel.Cache.EvictOk | src/buffer/buf_mngr.cc:426-438 | evicting a page changes no page of the page map and leaves its frame to nobody |
| CacheModel.Cache.ClaimStands | src/buffer/buf_mngr.cc:263-276 | bringing a page into a free frame changes no other page |
| CacheModel.Cache.WriteFrames | src/buffer/buf_mngr.cc:222-227 | writing a cached page keeps the frames of all pages apart |
| CacheModel.Cache.DropStands | src/buffer/buf_mngr.cc:357-394 | dropping a page falls back to its disk bytes and touches no other page |
| CacheModel.Cache.AllFlushed | src/buffer/buf_mngr.cc:211-220 | once every cached page is on disk the disk alone is the page map |
| CacheModel.Cache.Partition | src/buffer/buf_mngr.cc:13-46 | free frames and frames in use partition the frame numbers |
| BufferControlBlocks.BCB.TryLock | src/buffer/buf_cntrl_block.hh:83-92 | succeeds exactly if the mutex is free, and then records one exclusive fix |
| BufferControlBlocks.BCB.LockShared | src/buffer/buf_cntrl_block.hh:94-99 | one more reader, mode shared, fix count equal to the readers |
| BufferControlBlocks.BCB.Unlock | src/buffer/buf_cntrl_block.cc:36-59 | releases the kind of lock that is held and keeps mode, fix count and mutex in agreement |
| BufferControlBlocks.HomedUnlink | src/buffer/buf_mngr.cc:432-457 | unlinking a block keeps every other block in exactly one list |
| PoolModel.Pool.TakeInv | src/buffer/buf_mngr.cc:229-255 | linking a free block into the bucket of a page keeps the lists, the hash placement and the block count exactly if the page was not cached |
| PoolModel.Pool.DiscardInv | src/buffer/buf_mngr.cc:432-436 | moving a block from its chain to the free list keeps them too |
| PoolModel.Pool.BringLocated | src/buffer/buf_mngr.cc:256-276 | once the located block has its frame and bytes, the cache stands for the page map again |
| PoolModel.Pool.ResetHeld | src/buffer/buf_mngr.cc:357-394 | reset frees frame and block of its page only, the push stays in bounds, and pages held by others stay held |
| PoolModel.Pool.SpareBlock | src/buffer/buf_mngr.cc:122 | with more blocks than frames a free block exists whenever no page is being located |
| PoolModel.Pool.FairDraws | src/buffer/buf_mngr.cc:396-471 | with fewer held pages than frames, draws that cover all buckets reach a victim |
| PoolModel.InitialInv | src/buffer/buf_mngr.cc:113-126 | the pool starts with all blocks and frames free and the invariant in force |
| BufferManagers.BufferManager.SpareBlocks | src/buffer/buf_mngr.cc:122 | six blocks for five frames leave one over exactly from five frames on |
| BufferManagers.BufferManager.PopFreeBCB | src/buffer/buf_mngr.hh:222-235 | takes the first block off the free list, or none |
| BufferManagers.BufferManager.InsertToFreeBCBs | src/buffer/buf_mngr.hh:237-244 | puts a block first on the free list |
| BufferManagers.BufferManager.Relink | src/buffer/buf_mngr.cc:432-457 | the fields of all blocks and heads afterwards: the block is out of its chain and first on the free list |
| BufferManagers.BufferManager.Flush | src/buffer/buf_mngr.cc:196-209 | writes the frame of a modified page to disk, and nothing otherwise |
| BufferManagers.BufferManager.FindUnfixed | src/buffer/buf_mngr.cc:423-468 | the first unfixed block of a bucket, with all before it fixed, or none exactly if it has none |
| BufferManagers.BufferManager.GetFrame | src/buffer/buf_mngr.cc:396-473 | yields the last free frame if there is one, else that of the first unfixed block of the first drawn bucket that has one, flushed if dirty, never the block being loaded |
| BufferManagers.BufferManager.LinkFreeBCB | src/buffer/buf_mngr.cc:233-255 | the first free block becomes the locked first block of the page's bucket |
| BufferManagers.BufferManager.LocatePage | src/buffer/buf_mngr.cc:229-261 | never runs out of blocks, leaves an unlocked block with a frame of its own for the page; evicts nothing if a frame was free, else one page, which is written back |
| BufferManagers.BufferManager.Fix | src/buffer/buf_mngr.cc:128-172 | the block returned holds the page with its current bytes under the requested lock; no page changes and held pages stay; a cached page costs nothing, another a free frame, or else the eviction of one page, which is written back |
| BufferManagers.BufferManager.EmptyFix | src/buffer/buf_mngr.cc:174-184 | a page that is not cached gets an exclusively locked frame with a fresh header behind the bytes the frame had; no other page changes; at most one page is evicted, as in Fix |
| BufferManagers.BufferManager.InitNewPage | src/buffer/buf_mngr.cc:348-355 | the last 16 bytes become the basic header |
| BufferManagers.BufferManager.Unfix | src/buffer/buf_mngr.cc:187-193 | gives up one hold on its page and nothing else |
| BufferManagers.BufferManager.GetAllValidBCBs | src/buffer/buf_hash_table.cc:26-39 | collects the block of every cached page, and only such blocks |
| BufferManagers.BufferManager.FlushAll | src/buffer/buf_mngr.cc:211-220 | afterwards disk and page map are equal, and the cached pages are the same |
| BufferManagers.BufferManager.ResetBCB | src/buffer/buf_mngr.cc:357-394 | the given page, cached or not, falls back to its disk bytes or is gone if it has none; nothing else changes |
| BufferManagers.BufferManager.LinkFreeBCBs | src/buffer/buf_mngr.cc:69-76 | the links form one chain over all blocks despite the first self-link, unless there is a single block |
| BufferManagers.BufferManager.Init | src/buffer/buf_mngr.cc:113-126 | a new manager stands for exactly the pages on disk |
| BufferRuns.Untouched | src/buffer/buf_mngr.cc:128-276 | a page keeps its bytes over any run that does not write, create or drop it |
| BufferRuns.ReadYieldsLastWrite | src/buffer/buf_mngr.cc:128-276 | a read returns the last write to the page, whatever was unfixed, evicted, flushed and fixed again in between |
| BufferRuns.NoInventedBytes | src/buffer/buf_mngr.cc:196-220 | at any time the disk bytes of a page are those from the start or some the page had during the run |
| BufferRuns.DiskKept | src/buffer/buf_mngr.cc:424-462 | a page that stays cached is not written to disk unless it is flushed |
| BufferRuns.DropRestoresFlushed | src/buffer/buf_mngr.cc:357-394 | reset takes a page that stayed cached back to its last flush, whatever was written since |
| BufferRuns.Run | src/buffer/buf_mngr.cc:128-473 | every run of client calls, with pages held in between and fair random choices, has the outputs, pages, locks and disk of a run of the plain page map |
| BufferRuns.GoesThrough | src/buffer/buf_mngr.cc:128-394 | which calls of a run go through: in terms of who holds the page, whether it is cached, and how many pages are held |
| BufferRuns.CreateWriteRead | src/buffer/buf_mngr.cc:128-193 | in any world with a frame to be had, a page that is created, written and given back is there when it is fixed again |
| BufferRuns.ReadTogether | src/buffer/buf_mngr.cc:128-193 | two clients read a page together, and it cannot be dropped before both have given it back |
| BufferRuns.Start | src/buffer/buf_mngr.cc:113-126 | a new manager serves the pages on disk, with nothing held or cached |
| BufferRuns.Restart | src/buffer/buf_mngr.cc:211-220 | after a flush a new manager on the same disk serves the same pages, whatever was held |
| LockProtocol.Always | src/buffer/buf_cntrl_block.cc:36-93 | the invariant of mode, fix count, readers, writer and pending upgrades holds in every interleaving |
| LockProtocol.UnlockReleasesOwn | src/buffer/buf_cntrl_block.cc:36-59 | unlock releases exactly the lock its caller holds, and the fix count does not wrap |
| LockProtocol.Exclusion | src/buffer/buf_cntrl_block.hh:76-110 | a writer is alone with mode exclusive and fix count 1; with readers the mode is shared |
| LockProtocol.QuiescentIsUnfixed | src/buffer/buf_cntrl_block.cc:36-59 | when everybody has left, the block is unlocked and unfixed |
| LockProtocol.EnabledIff | src/buffer/buf_cntrl_block.hh:76-110 | exactly when each call goes through: a shared lock while there is no writer, an exclusive one while nobody holds the mutex, a try fails otherwise, a holder can always unlock |
| LockProtocol.Holders | src/buffer/buf_cntrl_block.cc:36-93 | who reads, writes and waits for an upgrade after each call |
| LockProtocol.TwoReaders | src/buffer/buf_cntrl_block.hh:94-99 | a run in which two threads read together |
| LockProtocol.SequentialView | src/buffer/buf_cntrl_block.hh:76-110 | without pending upgrades the steps are those of the block's methods, and locks are granted as these say |
| LockProtocol.EvictionSparesHolders | src/buffer/buf_mngr.cc:424-445 | a block that passes the eviction test is held by nobody, at the test and when locked |
| LockProtocol.GuardedSince | src/buffer/buf_cntrl_block.cc:76-83 | a thread is guarded exactly if it released its lock for an upgrade and nobody has locked exclusively since |
| LockProtocol.CountIs | src/buffer/buf_cntrl_block.cc:36-93 | in every interleaving the fix count is the number of holders plus the number of guarded upgrades |
| LockProtocol.EvictableIff | src/buffer/buf_mngr.cc:424-445 | the fix count is read as 0 exactly when nobody holds the lock and no upgrade is guarded |
| LockProtocol.UpgradeGuarded | src/buffer/buf_cntrl_block.cc:76-83 | a pending upgrade keeps its block until somebody locks exclusively |
| LockProtocol.UpgradeCanLoseItsPage | src/buffer/buf_cntrl_block.cc:76-83 | a run in which a block is evicted between the two halves of an upgrade |
| ThreadQueues.Always | src/threading/queue.hh:58-83 | the invariant of queue, workers and shutdown holds in every interleaving |
| ThreadQueues.Fifo | src/threading/queue.hh:58-83 | what was popped is a prefix of what was pushed, the queue is the rest |
| ThreadQueues.NoLostWakeup | src/threading/queue.hh:58-83 | while somebody sleeps, every waiting job has a notified worker; a waiting job never finds all asleep |
| ThreadQueues.WaitPopTakes | src/threading/queue.hh:58-72 | a worker in waitPop takes the first job of a valid queue, sleeps exactly if there is none, and gives up exactly if the queue is invalid |
| ThreadQueues.RunsSubmitted | src/threading/queue.hh:58-83 | in every interleaving the k-th job to run is the k-th that was submitted |
| ThreadQueues.LoopStep | src/threading/pool.hh:167-176 | a worker leaves its loop exactly if the pool is done |
| ThreadQueues.PushStep | src/threading/queue.hh:78-83 | a submitted job is last in the queue and wakes one sleeper exactly if there is one |
| ThreadQueues.CommandStep | src/threading/queue.hh:41-51 | what tryPop, the done flag and invalidate change, and nothing else |
| ThreadQueues.EnabledIff | src/threading/queue.hh:58-83 | exactly when each step can be taken |
| ThreadQueues.StartsSoon | src/threading/pool.hh:167-176 | while jobs wait and the pool runs, a worker that is awake and idle starts one within two steps of its own, whatever the others do |
| ThreadQueues.Drain | src/threading/pool.hh:167-194 | after invalidation nobody sleeps, no job starts, and a worker takes at most two more steps |
| ThreadQueues.NotStuck | src/threading/pool.hh:167-176 | after invalidation a worker can always take its next step until it has exited |
| BitMaps.WordBit | src/interpreter/interpreter_fsip.cc:67-70 | bit k of a little-endian word is bit 32 j + k of the bytes |
| BitMaps.WithWordBit | src/interpreter/interpreter_fsip.cc:32-54 | overwriting a word changes exactly its 32 bits |
| BitMaps.BitOrder | src/interpreter/interpreter_fsip.cc:90-95 | bit 0 of a byte is its least significant one |
| BitMaps.IdxLowestBitSet | src/infra/bit_intrinsics.hh:77-84 | the lowest bit set in a word |
| Fsips.ByteAndWordAgree | src/interpreter/interpreter_fsip.cc:90-115 | marking a page through its byte and through its word gives the same set of free pages |
| Fsips.Fsip.InitNewFSIP | src/interpreter/interpreter_fsip.cc:23-60 | exactly the first pages are free, counter and hint are right |
| Fsips.Fsip.GetNextFreePage | src/interpreter/interpreter_fsip.cc:62-79 | the lowest free position from the word of the hint on, 0 if there is none |
| Fsips.Fsip.GetNewPage | src/interpreter/interpreter_fsip.cc:81-101 | hands out the page of the hint, and fails exactly if the counter is 0; searches the next hint; keeps a right header right |
| Fsips.Fsip.ReservePage | src/interpreter/interpreter_fsip.cc:103-118 | takes the given page; the counter is lowered and the hint searched anew, so the header stays right exactly if the page was free |
| Fsips.Fsip.FreePage | src/interpreter/interpreter_fsip.cc:120-135 | frees the given page, whatever the header says; a right header stays right exactly if the page was taken and another is free or it is the first |
| Fsips.Fsip.Grow | src/interpreter/interpreter_fsip.cc:151-226 | exactly the next pages become free, added pages and rest make up the request, nothing wraps |
| Fsips.Fsip.FreeFrom | src/interpreter/interpreter_fsip.cc:178-206 | a partial byte, whole bytes and a partial byte clear exactly the bits asked for |
| Fsips.TakenValid | src/interpreter/interpreter_fsip.cc:97-100 | counter and hint are right after a position is taken exactly if it was free |
| Fsips.Account.TakenUsable | src/interpreter/interpreter_fsip.cc:81-101 | whatever returns have done to the header, an allocation takes a position in use exactly if the hint was off, and the hint is right afterwards |
| Fsips.Account.GivenUsable | src/interpreter/interpreter_fsip.cc:120-135 | when a return leaves the hint off, and when counter and hint stay right |
| Partitions.Partition.AllocPage | src/partition/partition_base.cc:52-111 | first fit over all FSIPs, the first of which follows its hint; or PartitionFull with the last FSIP; the loop ends; FSIPs that are right stay so, and at most one place of the file changes |
| Partitions.OwnPlaces | src/partition/partition_base.cc:158-176 | no two pages share a byte offset exactly in files of up to 2^20 pages |
| Partitions.FsipLayout | src/partition/partition_base.cc:203-206 | an FSIP has a bit for a page in every byte up to its 32-byte header, and a file has 2^20 places |
| Partitions.Partition.Format | src/partition/partition_base.cc:178-201 | writes a fresh FSIP for every extent of at least two pages, to its place in the file, and no other place |
| Partitions.FormatSpares | src/partition/partition_base.cc:168-195 | format overwrites the place of a data page exactly in partitions of more than 1072930 pages |
| Partitions.FreshIsFormatted | src/partition/partition_base.cc:178-201 | the free pages after format are exactly the pages that are not FSIPs, in files of up to 2^20 pages |
| Partitions.UnwrittenFsip | src/partition/partition_base.cc:187-195 | format leaves an FSIP unwritten exactly if the last extent is a single page |
| Partitions.DataPagesSize | src/partition/partition_base.cc:178-206 | FSIPs and managed pages add up to the partition |
| Partitions.RunResults | src/partition/partition_base.cc:52-111 | allocations succeed exactly while free pages are left, with distinct ascending pages |
| Partitions.ChainedAlloc | src/partition/partition_base.cc:52-111 | while all headers are right, allocation takes the lowest free page of the partition and fails exactly if there is none |
| Partitions.HandedOut | src/partition/partition_base.cc:52-156 | over all runs of allocations and returns, an allocation hands out a page in use exactly if the first hint is off, and then it is page 1 |
| Partitions.PendingSince | src/partition/partition_base.cc:52-156 | the first hint is off exactly if another page than the first was given back to the full first extent and nothing was allocated, nor page 1 given back, since |
| Partitions.TwiceMeansFreed | src/partition/partition_base.cc:52-156 | between two allocations of a page it was given back, or else it is page 1 and another page was given back to the full first extent, with no allocation since |
| Partitions.Serve | src/partition/partition_base.cc:52-156 | any sequence of allocations and returns on a partition is such a run |
| Partitions.AllocMany | src/partition/partition_base.cc:52-111 | repeated allocation on right headers is a run of lowest-page allocations |
| Partitions.FreeThenAlloc | src/partition/partition_base.cc:52-156 | a return followed by an allocation yields a page that was not in use exactly if the page is page 1 or another one of its extent was free |
| Partitions.DoubleAllocation | src/partition/partition_base.cc:52-156 | a formatted partition of six pages hands out page 1 twice although only page 5 was given back |
| Partitions.AllocAfterFormat | src/partition/partition_base.cc:52-206 | after format exactly size less FSIPs allocations succeed, inside the partition and on no FSIP |
| Partitions.Partition.FreePage | src/partition/partition_base.cc:145-156 | the page becomes free in whatever state the first FSIP is; right headers stay right exactly if the page was in use and is page 1 or another of the extent is free |
| Partitions.StrideFault | src/partition/partition_base.cc:149 | the page read for the FSIP is the right one exactly in the first extent, and an FSIP at all exactly in extents whose number is a multiple of 32513 |
| Partitions.Partition.AllocPageOrGrow | src/partition/partition_file.cc:31-69 | allocation from a full file succeeds exactly if the grown file stays below 2^20 pages, and else the file is cut down; after growth by up to 65535, when the FSIPs are complete and when they describe the file, exactly; data pages stay |
| Partitions.Partition.Extend | src/partition/partition_file.cc:42-62 | the new size modulo 2^20; the pages that growth makes available and when all FSIPs are written and right, or what is left of a file that was cut down |
| Partitions.ShrinkingGrowth | src/partition/partition_file.cc:45-47 | a formatted partition of 32 extents, allocated in full, that should grow by one more is cut down to 24353 pages, and allocation fails |
| SlottedPages.NoOverlap | src/interpreter/interpreter_sp.cc:43-63 | records, slots and header never overlap |
| SlottedPages.PageLayout | src/infra/header_structs.hh:46-56 | where the header fields and slots are on the page |
| SlottedPages.AddedTouches | src/interpreter/interpreter_sp.cc:43-63 | adding a record writes its slot and three header fields, and no other byte |
| SlottedPages.AddedWrites | src/interpreter/interpreter_sp.cc:50-61 | the bytes of the new slot and of the header fields |
| SlottedPages.FreshWrites | src/interpreter/interpreter_sp.cc:27-41 | the bytes of the fields of an empty page |
| SlottedPages.FreshTouches | src/interpreter/interpreter_sp.cc:27-41 | initialising a page writes its first four bytes and the header fields, and no other byte |
| SlottedPages.AddedGood | src/interpreter/interpreter_sp.cc:43-63 | a new record lies behind the others, which stay as they are, and the space accounts are exact |
| SlottedPages.InsertedGood | src/interpreter/interpreter_sp.cc:43-63 | a record that was added and written reads back, all others are unchanged |
| SlottedPages.DeletedGood | src/interpreter/interpreter_sp.cc:66-70 | soft deletion hides one record and changes nothing else |
| SlottedPages.FreshGood | src/interpreter/interpreter_sp.cc:27-41 | an initialised page is empty with all its space free |
| SlottedPages.SlottedPage.InitNewPage | src/interpreter/interpreter_sp.cc:27-41 | writes exactly the fields of an empty page |
| SlottedPages.SlottedPage.AddNewRecord | src/interpreter/interpreter_sp.cc:43-63 | succeeds exactly if aligned record and slot fit, otherwise leaves the page alone |
| SlottedPages.SlottedPage.DeleteRecordSoft | src/interpreter/interpreter_sp.cc:66-70 | clears the status of one slot |
| SlottedPages.SlottedPage.GetRecord | src/interpreter/interpreter_sp.cc:72-87 | the place of a record, exactly if it exists and is not deleted |
| FsmPages.OwnNibble | src/interpreter/interpreter_fsm.cc:76-104 | a status change alters its own nibble only |
| FsmPages.MapLayout | src/interpreter/interpreter_fsm.cc:76-104 | the even page of a byte has its low half, and the nibbles reach to the 24-byte header |
| FsmPages.FirstFitAligned | src/interpreter/interpreter_fsm.cc:44-74 | first fit finds a known page or exactly the next one, and nothing is recorded beyond |
| FsmPages.FsmPage.InitNewFSM | src/interpreter/interpreter_fsm.cc:25-42 | clears all nibbles but those of the first word, which keep what the frame held, and writes the header bytes |
| FsmPages.FsmPage.GetFreePage | src/interpreter/interpreter_fsm.cc:44-74 | first fit with raised occupancy, else one more page, else none and no change |
| FsmPages.FsmPage.ChangePageStatus | src/interpreter/interpreter_fsm.cc:76-90 | replaces one nibble |
| FsmPages.FsmPage.GetPageStatus | src/interpreter/interpreter_fsm.cc:92-104 | reads one nibble |
| Occupancies.SingleCovered | src/segment/segment_fsm_sp.cc:81-88 | a single insert is covered by the buckets it is charged exactly for sizes of 1 to 4064 bytes whose aligned size does not fill 5, 6, 7 or 8 buckets |
| Occupancies.BulkStatus | src/interpreter/interpreter_fsm.cc:107-117 | a bulk insert gets a page exactly up to 4065 bytes and is covered by its buckets |
| Occupancies.CoveredFits | src/interpreter/interpreter_fsm.cc:56-60 | covered requests that the map accepts fit the page together |
| Occupancies.SinglesOverflow | src/segment/segment_fsm_sp.cc:81-88 | accepted single inserts overflow a page exactly if they are two or three that fill their buckets |
| Occupancies.OverflowExamples | src/segment/segment_fsm_sp.cc:81-88 | 8 + 7 and 5 + 5 + 5 buckets overflow, and empty tuples are charged nothing |
| SegmentFsms.SegmentFSM.constructor | src/segment/segment_fsm.cc:3-28 | a new segment is empty and sound, and in order exactly if the skipped first bytes of its FSM frame are 0; no page but the FSM page is written |
| SegmentFsms.SegmentFSM.GetFreePage | src/segment/segment_fsm.cc:51-164 | the first page with enough buckets left, or a new page exactly if it is the next one; no change when refused; one index page for every 4064 data pages and one more |
| SegmentFsms.SegmentFSM.AddPage | src/segment/segment_fsm.cc:94-103 | one more data page, and one more index page exactly when the code's test says so |
| SegmentFsmSps.SegmentFSM_SP.InsertTuple | src/segment/segment_fsm_sp.hh:124-175 | one new tuple that reads back, all others unchanged; on the page that the map picks, with the next number there; no page but that one and the FSM page is written; rejected exactly if it fits no page or not the page that the map picks; never rejected for a safe size on a sound segment |
| SegmentFsmSps.SinglesRejected | src/segment/segment_fsm_sp.hh:124-175 | on a segment filled by single inserts, an insert is rejected exactly if the record would be the second or third of the picked page and all fill their buckets |
| SegmentFsmSps.SinglesKept | src/segment/segment_fsm_sp.hh:124-175 | single inserts, accepted or rejected, keep a segment of that kind, with the sizes on each page known |
| SegmentFsmSps.SecondRejected | src/segment/segment_fsm_sp.hh:124-175 | on an empty segment 2168 bytes are accepted and 1896 bytes after them rejected |
| SegmentFsmSps.SegmentFSM_SP.NextBin | src/segment/segment_fsm_sp.hh:221-240 | the longest run of tuples that fits a page; empty exactly if the first tuple fits none |
| SegmentFsmSps.SegmentFSM_SP.InsertTuplesSub | src/segment/segment_fsm_sp.hh:188-296 | ends, never fails on a sound segment, and keeps it sound; up to 4065 bytes go to the page that the map picks for the total, which is charged just that, more go there bin by bin, and a failure stops where a bin does not fit; no page but those of the identifiers, new ones and the FSM page is written |
| SegmentFsmSps.OneCut | src/segment/segment_fsm_sp.hh:221-240 | the bins are determined by the sizes of the tuples alone |
| SegmentFsmSps.OtherSegment | src/segment/segment_fsm_sp.hh:124-296 | an operation on a segment changes no tuple of any other segment of the partition, which stays in order |
| SegmentFsmSps.SegmentFSM_SP.DeleteRecord | src/segment/segment_manager.hh:185-229 | one record is gone, all others and every other page stay, and its space is not given back |
| SegmentFsmSps.SegmentFSM_SP.InsertTuples | src/segment/segment_fsm_sp.hh:178-185 | all tuples read back under the identifiers returned, all others unchanged |
| SegmentFsmSps.SegmentFSM_SP.GetTuple | src/segment/segment_fsm_sp.hh:299-321 | the record under an identifier, or the exception exactly if there is none |
| SegmentFsmSps.SegmentFSM_SP.GetTuples | src/segment/segment_fsm_sp.hh:323-375 | the records in the order asked for, or the exception exactly if one is missing |
| SegmentFsmSps.SegmentFSM_SP.Scan | src/segment/segment_fsm_sp.cc:150-167 | exactly the live identifiers, each once, in the order of pages and records |
| SegmentFsmSps.RoomThere | src/segment/segment_fsm_sp.hh:157-167 | on a sound segment the chosen page has room for the request, so the exception cannot be reached |
| SegmentFsmSps.SoundKept | src/segment/segment_fsm.cc:86-117 | a covered insert keeps every page's occupancy conservative |
| SegmentFsmSps.StoredGained | src/segment/segment_fsm_sp.hh:124-175 | writing the chosen page back adds exactly the new tuples |
| SegmentFsmSps.InsertedMore | src/segment/segment_fsm_sp.hh:221-240 | two insertions after each other are one insertion of both lists |
| SegmentFsmSps.InsertedStays | src/segment/segment_fsm_sp.hh:124-175 | an inserted tuple reads back after any later inserts, failed bulk inserts and deletions of others |
| SegmentIndexes.SegmentPages.StoreSegment | src/segment/segment_fsm.cc:242-281 | every index page holds, byte by byte, its share of up to 1016 page numbers and the header; its other bytes and other pages are unchanged |
| SegmentIndexes.IndexLayout | src/segment/segment_fsm.cc:250 | 1016 numbers of four bytes reach exactly to the 32-byte header of an index page |
| SegmentIndexes.SegmentPages.LoadSegment | src/segment/segment_fsm.cc:196-240 | both chain walks end, and all lists are those stored, the data pages exactly if there was room |
| SegmentIndexes.SegmentPages.LoadSegmentUnbuffered | src/segment/segment_fsm_sp.cc:100-136 | the same from disk, with a 0 left behind the FSM pages |
| SegmentIndexes.SegmentPages.StoreAndReload | src/segment/segment_fsm.cc:196-281 | store followed by load gives the same lists exactly while the index pages have room |
| SegmentIndexes.WithHeaderIs | src/segment/segment_fsm.cc:270-275 | the header fields read back and do not touch the page numbers |
| SegmentIndexes.IndexRoom | src/segment/segment_fsm.cc:99-103 | the index pages of a segment the code builds have room for its data pages exactly up to 1016 of them |
| SegmentIndexes.StoreAndOpen | src/segment/segment_fsm.cc:196-281 | such a segment survives store and load exactly up to 1016 data pages |
| SegmentIndexes.FirstLoss | src/segment/segment_fsm.cc:94-103 | a new segment grown to 1017 pages has one index page and comes back without its last page |
| SegmentTuples.RoundTrip | src/infra/segment_t.cc:81-118 | an entry reads back, whatever follows it, exactly if its name has no NUL |
| SegmentTuples.EncodeLayout | src/infra/segment_t.cc:81-98 | the place of each field in the bytes of an entry |
| SegmentTuples.ToDisk | src/infra/segment_t.cc:81-98 | writes exactly the encoded bytes at the given place |
| SegmentTuples.ToMemory | src/infra/segment_t.cc:105-118 | reads the entry that the bytes encode |
| Catalogues.SegmentManager.CreateNewSegmentFSM_SP | src/segment/segment_manager.cc:71-85 | refused for a known name; otherwise both maps gain the entry and all stays consistent exactly if it was stored |
| Catalogues.SegmentManager.CreateMasterSegments | src/segment/segment_manager.cc:244-262 | installation leaves a consistent catalogue with exactly the two master segments |
| Catalogues.SegmentManager.CreateSegmentSub | src/segment/segment_manager.cc:87-95 | the record in the master segment and the maps agree exactly if the insert went through |
| Catalogues.SegmentManager.DeleteTuplePhysically | src/segment/segment_manager.hh:185-229 | deletes the first live record with the given ID and no other, or tells that there is none; no other page is written |
| Catalogues.SegmentManager.DeleteSegment | src/segment/segment_manager.cc:110-128 | removes one entry from both maps and its record, all stays consistent |
| Catalogues.SegmentManager.DeleteSegments | src/segment/segment_manager.cc:143-153 | removes exactly the entries of a partition |
| Catalogues.SegmentManager.Load | src/segment/segment_manager.cc:41-56 | later entries replace earlier ones, the counter is one above the largest ID |
| Catalogues.LoadRebuilds | src/segment/segment_manager.cc:41-56 | loading the entries of a catalogue in any order rebuilds both maps |
| Catalogues.SegmentManager.Boot | src/main/db_instance_manager.hh:99-131 | a manager booted from a master segment has exactly the entries whose records are there and a counter one above their largest ID, and is consistent exactly if the segment is in order and its own entry is among them |
| Catalogues.AllSurvive | src/main/db_instance_manager.hh:99-131 | all entries come back exactly if all records do |
| Durability.PutIndex | src/segment/segment_fsm.cc:255-279 | writing the index pages through fix, write and unfix overwrites exactly these pages |
| Durability.Reopen | src/segment/segment_fsm_sp.cc:100-136 | a segment stored through the buffer manager, flushed and loaded by a new one has its data pages exactly if there were at most 1016, and then is in order; no other page changes |
| Durability.ReopenedAt | src/segment/segment_fsm_sp.cc:100-136 | the tuples of a reopened segment are those on the pages that came back, unchanged |
| Durability.ShutdownAndBoot | src/main/db_instance_manager.hh:99-131 | after shutdown and boot through the disk the catalogue has both its maps exactly if every record is on a data page the index pages have room for, as with at most 1016 pages |
| JulianDays.RoundTrip | src/cli/datejd.cc:100-157 | date to number to date is the identity for every valid date from year 1 on |
| JulianDays.RoundTripBack | src/cli/datejd.cc:100-157 | number to date to number is the identity and the date is valid, from 1721426 on |
| JulianDays.NextDayAddsOne | src/cli/datejd.cc:100-127 | the next day of the calendar has the next number |
| JulianDays.KnownDays | src/cli/datejd.cc:100-127 | the numbers of three known days, which with the row above fix all others |
| JulianDays.Februaries | src/cli/datejd.cc:100-127 | the leap years of the calendar |
| JulianDays.StrictlyIncreasing | src/cli/datejd.cc:100-127 | later dates have larger numbers |
| JulianDays.Ymd2Jd | src/cli/datejd.cc:123-126 | no 32-bit intermediate overflows up to February 1465073 |
| JulianDays.EarlyIsLast | src/cli/datejd.cc:123-126 | the first product of the formula fits 32 bits exactly up to that month |
| JulianDays.Jd2Ymd | src/cli/datejd.cc:129-157 | a valid date with the given number, with no 32-bit overflow up to 536802342 |

## Left out

* Threads in the buffer manager: it is modelled sequentially. The wait for a frame index that another thread is about
  to set, bucket mutexes and the unsynchronised bucket read of the eviction loop have no sequential meaning; the lock
  of one block and the job queue are modelled with all interleavings instead.
- BufferManagers.BufferManager.GetFrame: the random bucket numbers are a parameter, and it is assumed that they reach a bucket with an unfixed block; if no page can be evicted the code loops for ever.
- BufferManagers.BufferManager.Fix: requires a page that is on disk or cached, and a lock that is granted at once, since a sequential caller would wait for ever otherwise.
- BufferManagers.BufferManager.EmptyFix: requires a page that is not cached; for a cached one the code chains the page a second time.
- BufferManagers.BufferManager.ResetBCB: requires that nobody holds the page, for which the code would wait; its lock and unlock of the freed block then cancel out and are left out.
- BufferManagers.BufferManager.Init: five frames or more and fewer than 2^64 - 1; below five there is no spare block. 1.2 times the frames is modelled as 6/5 in integers.
- LockProtocol.Always: upgrades from no lock to shared or exclusive take the same mutex and set the same fields as the plain lock calls and are not separate events.
- ThreadQueues.Always: clear and empty of the queue are not used by the pool and not modelled; jobs are opaque and each returns.
- Partitions.Partition.FreePage: pages of the first extent only, since for the others the code reads and overwrites a data page as an FSIP (StrideFault).
- Partitions.Partition.AllocPageOrGrow: starts from FSIPs that describe the file, with no pages behind its end; growth after a return has set the first hint off is not modelled. A place of the file that was never written reads as zeros.
- Partitions.Partition.Format: partitions of fewer than 2^32 less two extents.
- Partitions.AllocAfterFormat: partitions of up to 2^20 pages, whose pages have places of their own in the file; larger ones are not described by their FSIPs.
- Partitions.Serve: a return of a page that is free already, or outside the first extent, is left out of the run.
- BufferRuns.Run: a call that would wait for ever is left out of the run: a lock that is not granted, a frame when all are held, a reset of a held page. Creating a page that is cached is left out too (see EmptyFix). Page numbers are below 2^20: further pages would share bytes on disk with these (Partitions.OwnPlaces).
- Durability.Reopen: what the FSIPs say of unallocated pages is taken over; the 0 left behind the FSM pages is dropped, though the code would ask page 0 for space once the FSM page is full.
- Fsips.Fsip.Grow: full pages and growth by eight or more, as its only caller asserts.
- SegmentFsms.SegmentFSM.GetFreePage: segments whose pages fit the first FSM page (8144 pages); for a second one the code does not record the occupancy of the page it hands out.
- SegmentFsmSps.SegmentFSM_SP.InsertTuples: tuples that fit a page each, since otherwise the code does not end, and less than 4 GiB in all, since the total is passed on as a 32-bit number.
- SegmentFsmSps.SegmentFSM_SP.InsertTuple: the partition is assumed to have pages left; running out of them is the subject of Partitions.
- SegmentIndexes.SegmentPages.StoreSegment: called once per object, since the 0 it leaves behind would be taken for an index page.
- SegmentIndexes.SegmentPages.LoadSegmentUnbuffered: reads from a page map; that it is the disk after a flush is shown in Durability.
- Catalogues.SegmentManager.DeleteSegment: freeing the pages of the deleted segment and the table of loaded segment objects are left out; the master segment itself is not deleted.
- Catalogues.SegmentManager.CreateNewSegmentFSM_SP: IDs below 65535, so that the counter does not wrap; createNewSegmentFSM, which checks no name, is left out.
- JulianDays.Jd2Ymd: numbers from 1721426 (1 January of year 1) on; the leap year and weekday helpers are left out.
* Cached block pointers in segments and the shared locks a scan does not release: page access is modelled as fix and unfix.
* File descriptors, I/O errors, raw devices, tracing, the command line and the other tuple types.
