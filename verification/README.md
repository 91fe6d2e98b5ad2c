# Verified models of jsix

jsix is an x64 kernel with a UEFI boot loader.  This project models its memory managers, its
scheduler and locks, its log ring, its hash table and the bit stream of its vendored zstd decoder
in Dafny, and proves what each keeps over every run.

Code that updates state in place is a class whose methods keep an invariant; pure code is
functions and lemmas; protocols are step functions with theorems about every schedule.  Memory
that the code reads and writes through pointers is a byte sequence, words are 64 bits wide, and
failed kernel assertions and raised boot errors are results.

| file | subject |
|---|---|
| `Common.dfy`, `Bits.dfy`, `Memory.dfy`, `Words.dfy` | shared definitions, powers of two, alignment, little-endian bytes, bits of words |
| `Hash.dfy`, `NodeTable.dfy`, `NodeGrow.dfy`, `NodeMap.dfy` | the Robin Hood hash table, its growth in place and the kernel's hash |
| `NodePlace.dfy`, `NodeCanon.dfy` | what an insertion leaves in each slot, and what of a table its keys determine |
| `FreeList.dfy`, `HeapModel.dfy`, `HeapBook.dfy`, `HeapPolicy.dfy`, `HeapAllocator.dfy`, `HeapClient.dfy`, `HeapExample.dfy` | the kernel heap, on that hash table |
| `PageTables.dfy`, `Pager.dfy`, `VirtualAddress.dfy` | boot page tables |
| `BitStream.dfy` | the zstd bit stream |
| `LogRing.dfy`, `LogReader.dfy` | the kernel log and the runs of a reader |
| `RunQueues.dfy`, `Scheduler.dfy`, `SchedulerRuns.dfy`, `SchedulerPolicy.dfy` | the scheduler, what its runs determine, and its policy in numbers |
| `SpinLock.dfy`, `StealLocks.dfy` | the queue spinlock and the work-stealing lock protocol |
| `Frames.dfy`, `MemoryMap.dfy`, `FrameBlocks.dfy` | physical frames and their set-up at boot |
| `VmSpace.dfy` | address-space areas |
| `Capabilities.dfy`, `CapExample.dfy` | the capability table, on that hash table |

Results that hold only under a condition are stated with that condition, exactly:

- Erasing from the hash table removes nothing but its key if and only if the run of displaced nodes
  after the erased slot does not go on past the end of the table for two or more
  (`NodeMap.NodeMap.Erase`, `NodeMap.EraseExample`): the slot counter is not wrapped at
  `src/libraries/util/include/util/node_map.h:208`, and the nodes after that are moved out of the
  table.  Told by the home of the key: it tears if and only if all slots from there to the end and the
  first two hold displaced nodes, and the key has not itself been displaced past the end
  (`NodeCanon.TearsExactly`).  The first part depends on the keys and the capacity alone, the second
  also on the order in which keys with the same home came (`NodeCanon.TearsByKeys`,
  `NodeCanon.OrderMatters`).
- The heap works as long as no free does this to its block map.  The books of the heap are its end,
  its free lists and its block map with every slot of the table; each call takes the books to exactly
  one state, and whether a free tears the map is told by the books before it, for a moving resize by
  those that its own allocation makes of them (`Heap.HeapAllocator.Free`,
  `Heap.HeapAllocator.Reallocate`).  So the operations alone determine a run and where it stops
  (`HeapClient.Run`, `HeapClient.RunsAgree`).  `HeapExample.FreeExample` is a run of eight allocations
  and two frees that ends in such a free.
- The references of the capability table follow its capabilities if and only if no erasure tears the
  table and no derivation finds another object in its base's slot: the slot is found before the
  insertion, which may move the base (`Capabilities.KeepsReferences`,
  `Capabilities.RunKeepsReferences`).  In a table that need not grow the slot names another object
  if and only if the insertion's walk gets there with a node in hand that is not the derivative, the
  base is the first node of its home, and the node in hand, the first of the home before, names
  another object (`Capabilities.NamedExactly`, `Capabilities.NamedInPlace`,
  `NodePlace.PlaceExactly`).  `CapExample.DeriveExample` creates thirty-three handles and derives
  from the seventeenth.
- Freeing or marking frames is right if and only if the run ends within the first 4096 frames of
  its block (`Frames.FreeExactlyWhen`, `Frames.UseExactlyWhen`, `Frames.FreeGoesAstray`), and the
  end-of-block assertion also fires for a run that ends exactly at the end of a full block.
- A frame request marks what it returns if and only if it returns fewer than 64 frames
  (`Frames.FrameAllocator.Allocate`, `Frames.WholeWord`).
- Over a run of requests and returns every frame stays free or held exactly once in every state if and
  only if no request is served with a whole word of 64 frames and every run given back ends within the
  first 4096 frames of its block (`Frames.RunConserves`, `Frames.FrameAllocator.Serve`).
- Giving back what was just allocated restores the allocator if and only if nothing was allocated or the
  run ends within the first 4096 frames of its block (`Frames.FrameAllocator.AllocateAndFree`).
- The blocks built at boot satisfy the frame allocator's invariant if and only if no free range
  leaves a partial block of more than 4032 frames (`FrameBlocks.HandoverSound`).
- The log finds its newest entry if and only if fewer than 2^42 entries were ever written
  (`LogRing.NewestFound`).  A reader that passes back the id it got is given the next live entry under
  its own id at every call of a run if and only if each of those ids is below 2^42
  (`LogReader.RunRight`, `LogReader.RunReads`).
- Closing a bit stream reports success if and only if the stream ends before the last eight bytes
  of the buffer (`BitStream.CStream.Close`).
- Adding an area with the exact flag keeps the areas ordered and disjoint if and only if the end of
  the request does not wrap around, or some area ends past its base and starts before its wrapped end
  (`AddressSpace.VmSpace.Add`, `AddressSpace.ExactExample`); without the flag, if and only if there is
  a least free base that, plus the size, stays below 2^64 (`AddressSpace.WrapExample`).

## Model

| member | source | states |
|---|---|---|
| HeapClient.Run | src/kernel/heap_allocator.cpp:54-145 | over every run of allocate, write, reallocate and free each operation is served exactly when it is legal in the state it meets, and then takes the private buffers and the books of the heap, its end, free lists, blocks and every slot of its table, to the one next state: no operation changes a byte of another buffer and contents survive a resize; the run stops at the first free that moves an entry out of the block map, told by the books before it, and only there |
| HeapClient.Execute | src/kernel/heap_allocator.cpp:54-145 | one client operation: whether it is served, whether its free tears the block map, both told by the state before, and the next state of the private buffers and the books |
| HeapClient.RunsAgree | src/kernel/heap_allocator.cpp:54-145 | two runs of the same operations from the same state go through the same books, with buffers at the same places and of the same lengths, serve the same operations and tear at the same one |
| HeapPolicy.ObtainedChosen | src/kernel/heap_allocator.cpp:77-84 | which block a request takes and what becomes of every list and block, told by the lists and the end before: the first of its list, or the first of the least larger order cut down, or a block after the fillers at the end |
| HeapPolicy.SplitCuts | src/kernel/heap_allocator.cpp:227-246 | splitting takes the first block of the least larger order with one, and each order on the way gets the upper half in front |
| HeapPolicy.FilledParts | src/kernel/heap_allocator.cpp:188-201 | growth adds a free block of exactly the orders in which rounding the end up makes a difference, at the rounded end |
| HeapPolicy.FreedReclaims | src/kernel/heap_allocator.cpp:87-186 | a freed block is joined with its buddies up to the first order in which the buddy is not free with that order; exactly those buddies leave their lists, and the result is the first of its own |
| Heap.HeapAllocator.constructor | src/kernel/heap_allocator.cpp:44-52 | the empty heap satisfies the heap invariant; its books are empty |
| Heap.HeapAllocator.Allocate | src/kernel/heap_allocator.cpp:54-85 | null exactly for length 0 or above 4 MiB; otherwise a new live block of sufficient size, all other live bytes kept: the head of the free list of the order, with no other list changed; if that list is empty, the head of the least larger order with a free block, every order on the way down getting the upper half in front; if there is none, the end of the heap rounded up to the order, with a free block for each order in which rounding up makes a difference |
| Heap.HeapAllocator.Free | src/kernel/heap_allocator.cpp:87-118 | moves another entry out of the block map exactly when erasing the keys of the buddies to be merged does, told by the books before; otherwise exactly the given block stops being live, the bytes of the others are kept, the allocated-size counter stays the sum of the live sizes, and the block is joined with its buddy for as long as that was free and of the same order, the buddies leaving their lists and the result heading its own |
| Heap.HeapAllocator.Reallocate | src/kernel/heap_allocator.cpp:120-145 | in place when the block already has room, otherwise a new block with the old contents and the old block freed, which tears the block map exactly when it does so in the books that the allocation makes of those before; above 4 MiB the contents go to address zero and the block is freed all the same |
| Heap.HeapAllocator.Obtain | src/kernel/heap_allocator.cpp:77-84 | a block of the order from its free list, from the least larger order that has one, or from the end of the heap, in this order, told by the lists before, with the exact lists and blocks after |
| Heap.HeapAllocator.PopFree | src/kernel/heap_allocator.cpp:147-158 | the head of the free list of an order, detached; null exactly when the list is empty; the head never has a predecessor |
| Heap.HeapAllocator.MergeBlock | src/kernel/heap_allocator.cpp:160-186 | tears the block map exactly when one of the merges does; otherwise the result has no free buddy of its own order, the tiling and lists agree again, live bytes kept, and the books are those of all the merges |
| Heap.HeapAllocator.Absorb | src/kernel/heap_allocator.cpp:172-183 | one merge: buddy unlinked, its key erased from the hash table, and unless that tears it the doubled block covers the old one |
| Heap.HeapAllocator.Forget | src/kernel/heap_allocator.cpp:181 | erasing a key from the block map: every slot and the count of the table after it, and that the map loses exactly the key unless the erasure tears it |
| Heap.HeapAllocator.Record | src/kernel/heap_allocator.cpp:214-217 | an assignment through the map: the entry is changed in place or inserted, and nothing else changes; every slot and the count of the table after it |
| Heap.HeapAllocator.NewBlock | src/kernel/heap_allocator.cpp:188-208 | the loop ends with the end rounded up to the order; the fillers are registered free blocks; the new block is aligned and becomes live; the exact books after |
| Heap.HeapAllocator.RegisterFreeBlock | src/kernel/heap_allocator.cpp:210-225 | the block becomes the first of its order's list and its map entry says free |
| Heap.HeapAllocator.SplitOff | src/kernel/heap_allocator.cpp:227-246 | succeeds exactly when a larger free block exists, and then halves the least one down to the order while live blocks and bytes stay; the exact books after |
| Heap.HeapAllocator.Halve | src/kernel/heap_allocator.cpp:236-244 | a detached block becomes its lower half and the upper half a registered free block |
| Heap.HeapAllocator.Remove | src/kernel/heap_allocator.cpp:23-27 | the in-band links around a node are joined, in memory, and nothing else changes |
| Heap.HeapAllocator.Clear | src/kernel/heap_allocator.cpp:17-21 | the three header fields are stored at bytes 0, 8 and 16 and only header bytes change |
| Heap.HeapAllocator.NoOverlap | src/kernel/heap_allocator.cpp:54-85 | in every valid state two live blocks do not overlap, lie inside the heap and are aligned to their size |
| HeapExample.FreeExample | src/kernel/heap_allocator.cpp:87-186 | eight allocations and the free of two buddies among them end in a torn block map |
| HeapModel.TiledCovers | src/kernel/heap_allocator.cpp:188-208 | every address of the heap lies in some block of the map |
| HeapModel.MergeTiles | src/kernel/heap_allocator.cpp:172-183 | joining aligned buddies keeps the exact tiling |
| HeapModel.SplitTiles | src/kernel/heap_allocator.cpp:236-244 | halving a block keeps the exact tiling |
| HeapModel.ExtendTiles | src/kernel/heap_allocator.cpp:196-207 | adding an aligned block at the end keeps the exact tiling |
| HeapModel.HeadersSpare | src/kernel/heap_allocator.cpp:15-39 | writes to headers of free blocks touch no byte of a live block |
| HeapModel.BuddyInHeap | src/kernel/heap_allocator.cpp:29-32 | the buddy address of a block below the largest order is in the heap and aligned |
| HeapModel.KeyFinds | src/kernel/heap_allocator.h:54-57 | looking up the shifted 32-bit offset finds exactly the block at that address |
| HeapModel.AddressOrderFacts | src/kernel/heap_allocator.h:62-65 | the order of an address is its capped alignment; adding a block of that order raises it and never passes the next multiple |
| HeapModel.OrderForFits | src/kernel/heap_allocator.cpp:59-71 | the chosen order is the least that fits, and is within bounds exactly up to 4 MiB |
| HeapModel.TotalSizeRemove | src/kernel/heap_allocator.cpp:83-116 | the sum of live sizes drops by the size of the block removed, whichever order it is summed in |
| FreeList.UnlinkKeepsList | src/kernel/heap_allocator.cpp:23-27 | removing a node leaves a well-formed doubly linked list of the others in order |
| FreeList.PushKeepsList | src/kernel/heap_allocator.cpp:210-225 | pushing a node leaves a well-formed doubly linked list with it in front |
| Bits.Log2IsCeiling | src/libraries/util/include/util/util.h:19-23 | log2 is the least exponent whose power of two is at least the argument |
| Bits.CtzRises | src/kernel/heap_allocator.cpp:194-201 | adding the lowest set bit raises the number of trailing zeros |
| NodeMap.NodeMap.constructor | src/libraries/util/include/util/node_map.h:63-70 | an empty table means the empty map |
| NodeMap.NodeMap.Lookup | src/libraries/util/include/util/node_map.h:249-268 | finds a key exactly when it is in the map, at its slot |
| NodeMap.NodeMap.Insert | src/libraries/util/include/util/node_map.h:138-172 | whether or not the table grows first, the loop ends, the map gains exactly the key, the displacement order is kept, the reported slot holds the key, and every slot is as the insertion leaves it |
| NodeMap.NodeMap.Settle | src/libraries/util/include/util/node_map.h:141-172 | the insertion loop places the node and each node it displaces |
| NodeMap.NodeMap.Grow | src/libraries/util/include/util/node_map.h:212-247 | the two passes over the old slots, node by node, give the grown table |
| NodeMap.NodeMap.Reinsert | src/libraries/util/include/util/node_map.h:229-242 | a node inserted again from the slot it is in, which holds each node on its way in turn |
| NodeGrow.GrownFacts | src/libraries/util/include/util/node_map.h:212-247 | growing keeps every key with its value and restores the displacement order |
| NodeGrow.MoveUpKeeps | src/libraries/util/include/util/node_map.h:229-242 | after the first pass every node whose new home lies ahead is in order among the new slots and those that wrapped around, and the others have not moved |
| NodeGrow.OpenAhead | src/libraries/util/include/util/node_map.h:148-171 | a node that is inserted again meets an open slot before it comes around to its own |
| NodeGrow.CloseGapsKeeps | src/libraries/util/include/util/node_map.h:244-246 | the second pass closes every gap and loses nothing |
| NodeMap.InsertedFacts | src/libraries/util/include/util/node_map.h:138-172 | inserting keeps the table sound and adds exactly the key, across growth |
| NodeMap.GrowsAtNineTenths | src/libraries/util/include/util/node_map.h:138-139 | an insertion grows the table exactly when it would hold more than nine nodes to ten slots, to twice its slots and sixteen at least |
| NodeMap.RemovedFacts | src/libraries/util/include/util/node_map.h:174-210 | removing keeps the table sound; the map loses exactly the key if and only if the removal does not tear it |
| NodeMap.NodeMap.Slot | src/libraries/util/include/util/node_map.h:114-122 | find or insert: the map is unchanged or gains exactly the key |
| NodeMap.NodeMap.Fixup | src/libraries/util/include/util/node_map.h:196-210 | displaced nodes move back one slot each up to the end of the table, and past it out of the table |
| NodeMap.NodeMap.Erase | src/libraries/util/include/util/node_map.h:174-210 | the key goes and nothing is added or changed; nothing else goes exactly when the run of displaced nodes after its slot does not overrun the end |
| NodeTable.Chain | src/libraries/util/include/util/node_map.h:249-268 | every slot between a key's home and its place is full and displaced at least as far, which is why the early exit of the search is sound |
| NodeTable.PutKeeps | src/libraries/util/include/util/node_map.h:148-167 | placing the carried node in an open or less displaced slot keeps the displacement order |
| NodeTable.GapShifts | src/libraries/util/include/util/node_map.h:196-210 | one backward move shifts the gap by one slot and leaves only the next node in question |
| NodeTable.PlaceFacts | src/libraries/util/include/util/node_map.h:141-172 | the insertion loop adds exactly its key and keeps the displacement order |
| NodeTable.ErasedFacts | src/libraries/util/include/util/node_map.h:174-210 | the deletion loop keeps the displacement order always, and the other keys if and only if it does not overrun |
| NodeMap.SkeletonRemoved | src/libraries/util/include/util/node_map.h:174-210 | what a removal does to the keys, and whether it tears, does not depend on the values |
| Hash.HomeOf | src/libraries/util/include/util/hash.h:62-68 | the slot of a key in a table of up to 512 slots is the low bits of its mixed word |
| Bits.AndMask | src/libraries/util/include/util/node_map.h:189 | masking with a power of two less one is the remainder by it |
| NodeMap.EraseExample | src/libraries/util/include/util/node_map.h:174-210 | keys 9, 19 and 22 inserted into four slots: erasing the first loses the last |
| NodePlace.PlaceExactly | src/libraries/util/include/util/node_map.h:141-172 | what an insertion leaves in each slot, told by the table before: a slot changes exactly when the walk from the new node's home gets to it and it is open, or holds the first node of a home past the new node's; what moves in is the new node or the first node of the home before |
| NodePlace.CarryArrives | src/libraries/util/include/util/node_map.h:148-171 | the insertion loop gets to every slot of its walk with that node in hand and the slots ahead as they were |
| NodeCanon.SameHomes | src/libraries/util/include/util/node_map.h:138-247 | two tables with the same keys and capacity have the same slots open and in every other slot a node with the same home, whatever the order in which keys came and went |
| NodeCanon.TearsExactly | src/libraries/util/include/util/node_map.h:174-210 | a removal tears the table if and only if every slot from the key's home to the end and the first two hold displaced nodes and the key is not itself displaced past the end |
| NodeCanon.TearsByKeys | src/libraries/util/include/util/node_map.h:174-210 | two tables with the same keys and capacity agree on the first of these, and a removal tears both or neither if the key is displaced past the end in both or neither |
| NodeCanon.OtherOrder | src/libraries/util/include/util/node_map.h:138-172 | where keys 9, 19 and 22 go in four slots when 19 comes first |
| NodeCanon.OrderMatters | src/libraries/util/include/util/node_map.h:174-210 | of two tables with these keys that differ in the order of arrival, removing key 9 tears one and not the other |
| Paging.Pager.MapPages | src/boot/paging.cpp:163-187 | a walk of the four levels takes exactly the mapped pages to consecutive frames; by the entries of all four levels each of them can be written exactly if that was asked for, executed exactly if that was, and not used from user mode, and the access to every other page is as before; an exhausted table cache raises, and enough cached pages rule that out |
| Paging.Pager.MapRange | src/boot/paging.cpp:163-187 | the loop over the entries: consecutive frames with the flags, every other translation as before, and when the table cache runs out |
| Paging.Pager.constructor | src/boot/paging.cpp:148-161 | the kernel tables are a tree without sharing that maps the linear region, and what the processor allows there |
| Paging.Pager.CreateKernelTables | src/boot/paging.cpp:225-250 | the linear region is mapped by 1 GiB pages to physical memory from zero, which the kernel can write and execute and user mode cannot use, write-through and global; nothing else is accessible |
| Paging.Pager.FillLinear | src/boot/paging.cpp:239-249 | the loop writes every huge-page entry of the linear region and no table is added |
| Paging.Pager.AddDirectories | src/boot/paging.cpp:228-237 | the upper half of the root table gets distinct empty directories |
| Paging.Pager.PopPages | src/boot/paging.cpp:213-223 | pages come off the cache in order, or the call raises and takes nothing |
| Paging.PageEntryIterator.constructor | src/boot/paging.cpp:84-94 | the indexes are the base-512 digits of the page number and the tables on the path exist, without changing any translation |
| Paging.PageEntryIterator.Increment | src/boot/paging.cpp:105-116 | the odometer steps to the next page number, tables on the new path exist, no translation changes, and at most one table per rolled-over level is used |
| Paging.PageEntryIterator.EnsureTable | src/boot/paging.cpp:124-141 | the table of a level is found or linked in fresh, with no translation changed; the entry that leads to it allows writing and execution and not user mode |
| Paging.PageEntryIterator.Assign | src/boot/paging.cpp:118-122 | writing the entry changes the translation of exactly the addresses below it |
| Paging.IndexAt | src/boot/paging.cpp:89-93 | the shift and mask of each level pick the digits of the page number |
| Paging.EntryDecodes | src/boot/paging.cpp:173-179 | an entry built by or-ing address and flags decodes, by the rules of section 4.5 of the Intel SDM volume 3A, to that frame and to the requested write and execute permissions |
| Paging.MappedAddress | src/boot/paging.cpp:177-186 | byte addresses in the mapped range lie in the physical range at the same offset, writable exactly if that was asked for, executable exactly if that was, never from user mode, by the entries of every level |
| PageTables.EntryEffect | src/boot/paging.cpp:118-122 | changing one leaf entry of the table tree changes walks through that entry only |
| PageTables.LinkEffect | src/boot/paging.cpp:134-138 | linking a zeroed table into an absent entry changes no walk and keeps the tree unshared |
| PageTables.FollowWalk | src/boot/paging.cpp:52-56 | the access rights of a page, from the entries of every level by section 4.6 of the Intel SDM volume 3A, are those of its last entry, except that tables deny user mode |
| VirtualAddress.Vaddress | src/boot/paging.cpp:96-103 | the assembled address is canonical and page-aligned and its page-table indexes are the given ones, then zeros |
| BitStream.RoundTrip | external/zstd/common/bitstream.h:178-431 | for every list of fields and every flush and reload schedule, if closing succeeds then decoding returns each field's value modulo two to its width, last in, first out, and the end test made after each read holds exactly when no bits are left |
| BitStream.Encode | external/zstd/common/bitstream.h:153-242 | the bytes written are the packed fields with the end mark on top; success exactly when they end before the last eight bytes |
| BitStream.Decode | external/zstd/common/bitstream.h:252-431 | reading the widths backwards returns every field's low bits; the end test before and after each read holds exactly when no bits are left |
| BitStream.CStream.AddBits | external/zstd/common/bitstream.h:178-187 | the low bits of the value are appended to the bits so far |
| BitStream.CStream.FlushBits | external/zstd/common/bitstream.h:219-228 | whole bytes move to the buffer and the register keeps the rest; no bit of the stream changes |
| BitStream.CStream.Close | external/zstd/common/bitstream.h:234-241 | the size and bytes of the closed stream, and zero exactly when it does not fit |
| BitStream.InitDStream | external/zstd/common/bitstream.h:252-298 | opens exactly the sources that end in a nonzero byte, with all bits below the mark unread; which error otherwise |
| BitStream.DStream.ReadBits | external/zstd/common/bitstream.h:360-365 | returns the highest unread bits and leaves the rest |
| BitStream.DStream.Reload | external/zstd/common/bitstream.h:399-425 | keeps the read position, moves back by the whole bytes consumed or to the start, refills to at least 57 unread bits or to all of them, and reports which: unfinished exactly when those bytes were there, completion exactly at the end |
| BitStream.DStream.EndOfStream | external/zstd/common/bitstream.h:428-431 | true exactly when no bit is unread |
| BitStream.Unpack | external/zstd/common/bitstream.h:360-365 | the bits of a field are found in the packed number at the sum of the widths before it |
| LogRing.Logger.Output | src/kernel/logger.cpp:51-80 | the ring holds the longest suffix of the old entries that leaves room, then the new entry; eviction ends |
| LogRing.Logger.GetEntry | src/kernel/logger.cpp:82-105 | waits exactly when nothing is newer; otherwise answers with the first entry above the one seen, and if it fits the copy decodes, bit field by bit field, to its id modulo 2^42, size, severity, area and message; the search stays inside the ring when there is one, and in an empty log takes the bytes at its start for an entry |
| LogRing.Logger.Append | src/kernel/logger.cpp:76-77 | the bytes extend the ring contents, across the end of the buffer |
| LogRing.Logger.OffsetIsRemainder | src/kernel/logger.h:93-97 | masking an offset is the remainder by the power-of-two size |
| LogRing.HeaderFields | src/libraries/j6/include/j6/types.h:54-61 | the 42, 11, 4 and 7 bit fields of a header word are id, size, severity and area |
| LogRing.DecodeEncode | src/libraries/j6/include/j6/types.h:54-61 | what is stored of an entry decodes, from its bytes alone, to its id modulo 2^42, size, severity, area and message |
| LogRing.Logger.OutputAndGet | src/kernel/logger.cpp:51-105 | a reader that has seen everything before gets what is logged next, with its id, severity, area and message, exactly while ids fit 42 bits |
| LogRing.KeptIsLongest | src/kernel/logger.cpp:65-69 | eviction keeps the longest suffix that fits |
| LogRing.NextIsLeast | src/kernel/logger.cpp:93-99 | the entry found has the least id above the one seen, and exists exactly when that is below the count |
| LogRing.NewestFound | src/kernel/logger.cpp:71-99 | the newest entry is found exactly while ids fit their 42 bits |
| LogReader.Follow | src/user/srv.logger/main.cpp:65-84 | the log server's loop beside any writers: it grows its buffer or takes the entry and passes its id back; the run stops only where the kernel's assertion fails, and while ids fit 42 bits every id up to the last one seen was got or had been evicted when the reader asked |
| LogReader.AskExactly | src/kernel/logger.cpp:93-99 | a call finds the live entry with the least id above the one seen, stored under that id, exactly when that id is below 2^42 |
| LogReader.RunRight | src/kernel/logger.cpp:82-105 | the answers of a run are all right if and only if every id to be given out is below 2^42 |
| LogReader.RunRises | src/kernel/logger.cpp:82-105 | over such a run the ids seen never fall, and each entry taken has a new and higher one |
| LogReader.RunReads | src/kernel/logger.cpp:51-105 | over such a run each id that the reader leaves behind was taken, or belonged to an entry evicted before the call that passed over it |
| LogReader.AskGrows | src/user/srv.logger/main.cpp:71-75 | a buffer that is too small becomes twice the size of the entry, and the next call takes it |
| Scheduling.Scheduler.constructor | src/kernel/scheduler.cpp:90-104 | once every CPU has started, each runs its own idle thread and the invariant holds |
| Scheduling.Scheduler.AddThread | src/kernel/scheduler.cpp:106-119 | the thread enters the blocked list of the next CPU in turn with one reference held |
| Scheduling.Scheduler.Prune | src/kernel/scheduler.cpp:121-159 | a blocked thread that has exited is released unless current; one that is ready, or whose timeout is set and has passed, is ready with its timeout cleared and joins the back of the list of its priority; any other stays blocked with its fields unchanged; those that stay and those that rise keep their order, nothing else moves and nothing current is released |
| Scheduling.Scheduler.PruneOne | src/kernel/scheduler.cpp:126-157 | one round of the pruning loop changes only its thread, which is released, made ready or left as its state and timeout say |
| Scheduling.Scheduler.PromoteOne | src/kernel/scheduler.cpp:165-187 | one pass over a list promotes its first stale thread |
| Scheduling.Scheduler.CheckPromotions | src/kernel/scheduler.cpp:161-191 | only stale threads move, one level up with a fresh slice; the lists after are those of taking the first stale thread of each list, from the most urgent on, to the back of the one above |
| Scheduling.Scheduler.BalanceLists | src/kernel/scheduler.cpp:193-210 | half the difference moves from the front of the longer list to the front of the shorter, in reverse order, and nothing else changes |
| Scheduling.Scheduler.StealFrom | src/kernel/scheduler.cpp:216-232 | the pass over one other CPU's lists lowers the imbalance by twice the number stolen, or finds none of them more than one longer |
| Scheduling.Scheduler.StealWork | src/kernel/scheduler.cpp:212-237 | threads only move from stealable lists of other CPUs to the same list here, and the lists after are those of balancing with each CPU in turn; twice the number stolen is taken off the sum of squared lengths; when none is stolen no list elsewhere is more than one longer |
| Scheduling.Scheduler.StealUntilSettled | src/kernel/scheduler.cpp:193-237 | with nothing else happening stealing ends within a number of rounds bounded by the imbalance, with all lists of a kind within one of each other; threads have moved only by steals of one CPU after the other, and each is on a list of the kind it was on |
| Scheduling.Scheduler.Requeue | src/kernel/scheduler.cpp:265-291 | the current thread is charged and goes to the back of the list of its state |
| Scheduling.Scheduler.Switch | src/kernel/scheduler.cpp:304-318 | the first thread of the list, which was ready there, becomes current, both threads are stamped, nothing else changes |
| Scheduling.Scheduler.Dispatch | src/kernel/scheduler.cpp:298-318 | some list is not empty, so the assertion never fires; the first thread of the most urgent one becomes current |
| Scheduling.Scheduler.Schedule | src/kernel/scheduler.cpp:239-328 | stealing, requeueing, pruning, promotion and dispatch in this order, with every thread in exactly one place that agrees with its fields after each; a thread leaves only by a release of its one reference, never while current; the thread chosen was ready in the list it is taken from and nothing left ready is more urgent |
| Scheduling.Scheduler.Run | src/kernel/scheduler.cpp:106-328 | over every sequence of additions, state changes and scheduler runs on any CPU, each state follows from the one before by its event, has every thread in exactly one place, and the threads added by accepted additions are in one place or released, never both |
| Scheduling.Scheduler.Handle | src/kernel/scheduler.cpp:106-328 | one event: an accepted addition, a state change or a scheduler run has exactly its effect, anything else none |
| Scheduling.RunConserves | src/kernel/scheduler.cpp:106-328 | in every state of a run the threads there at the start and added since are those in place and those released; a released thread is not held, was not current when released and never comes back |
| SchedulerRuns.EventUnique | src/kernel/scheduler.cpp:106-328 | an event takes a state to one next state: threads, lists with their order, current threads and time stamps |
| SchedulerRuns.RunUnique | src/kernel/scheduler.cpp:106-328 | the events alone determine every state of a run |
| SchedulerRuns.DispatchedWasReady | src/kernel/scheduler.cpp:121-328 | the thread that a scheduler run makes current was on a ready list before, or was the running thread and ready, or was running or blocked, had not exited, and is ready once its timeout is taken into account |
| SchedulerPolicy.TimerWakes | src/kernel/scheduler.cpp:121-318 | after a scheduler run a thread blocked on its CPU that has not exited and is ready, or whose timeout has passed, is ready, runs or waits on the list of its priority, and has no expired timeout |
| SchedulerPolicy.TimerSleeps | src/kernel/scheduler.cpp:121-318 | a blocked thread that is not ready and has no timeout or one ahead is as it was |
| SchedulerPolicy.Slices | src/kernel/scheduler.cpp:84-88 | time slices double from 500 microseconds at priority 0 to 64000 at priority 7 |
| SchedulerPolicy.ChargedExactly | src/kernel/scheduler.cpp:265-285 | a used-up slice costs a level, except at level 6 and for constant threads, and brings the slice of the level; what is left is topped up by a sixteenth of the slice |
| SchedulerPolicy.StaleExactly | src/kernel/scheduler.cpp:171-176 | a thread is stale exactly when it is not constant, at level 2 or below, and has not run for more than two slices of its level |
| SchedulerPolicy.PromotesFirst | src/kernel/scheduler.cpp:161-191 | when promotion is due the first stale thread of each list goes to the back of the list above with that level's slice, and every other ready thread stays as it is |
| SchedulerPolicy.StealsHalfTheExcess | src/kernel/scheduler.cpp:193-237 | stealing goes through the other CPUs in the order of their numbers and from the front of each list takes half of what it has more than the thief's list has by then |
| SchedulerPolicy.OntoReversed | src/kernel/scheduler.cpp:204-208 | stolen threads are put in front, the last one taken first |
| SchedulerPolicy.StealsTakeTurns | src/kernel/scheduler.cpp:257-263 | over a run the k-th steal is by the CPU k after the one whose turn it was at the start |
| SchedulerPolicy.EveryCpuSteals | src/kernel/scheduler.cpp:257-263 | in a run with as many steals as there are CPUs each CPU has stolen |
| Scheduling.ChargedFacts | src/kernel/scheduler.cpp:265-285 | a used-up slice costs one level down to the lowest below idle and only for threads that are not constant; the thread always has time to run |
| RunQueues.ShareFacts | src/kernel/scheduler.cpp:193-210 | one balancing leaves the lists within one and lowers the sum of squares by twice the number moved |
| RunQueues.MoveKeeps | src/kernel/scheduler.cpp:121-210 | moving a thread between lists keeps every thread in exactly one place |
| SpinLock.StepKeeps | src/libraries/util/spinlock.cpp:10-53 | every memory access of every CPU keeps the invariant of the queue lock |
| SpinLock.OneHolder | src/libraries/util/spinlock.cpp:21-53 | in every reachable state of every schedule at most one CPU holds the lock |
| SpinLock.FirstComeFirstServed | src/libraries/util/spinlock.cpp:27-37 | the lock is granted in the order of the exchanges; those still waiting are the last that came |
| SpinLock.WritesReachLiveWaiters | src/libraries/util/spinlock.cpp:28-53 | a write to another CPU's waiter always finds that CPU still inside acquire or release |
| SpinLock.SomeoneMoves | src/libraries/util/spinlock.cpp:21-53 | while anyone is in line someone in line can take a step |
| SpinLock.EveryoneIsServed | src/libraries/util/spinlock.cpp:21-53 | finitely many steps of those in line serve everyone who came |
| StealLocks.StepKeeps | src/kernel/scheduler.cpp:212-263 | every lock step of every CPU keeps lock ownership and the steal turn in agreement with where the CPUs are |
| StealLocks.OneStealer | src/kernel/scheduler.cpp:257-263 | in every reachable state at most one CPU is inside steal_work, the one whose turn it is |
| StealLocks.OneUser | src/kernel/scheduler.cpp:106-263 | in every reachable state each run queue is used by at most one CPU |
| StealLocks.NoWaitCycle | src/kernel/scheduler.cpp:212-263 | no reachable state has a cycle of CPUs waiting for each other's locks, of any length |
| StealLocks.EveryoneFinishes | src/kernel/scheduler.cpp:212-328 | finitely many steps of the CPUs inside calls bring every call to its end |
| Frames.FirstIsLowest | src/kernel/frame_allocator.cpp:42-52 | the three-level walk finds the lowest free frame of the block |
| Frames.EmptyTop | src/kernel/frame_allocator.cpp:39-40 | a block whose top word is zero has no free frame |
| Frames.TakeFirst | src/kernel/frame_allocator.cpp:42-74 | the run taken is the longest in its word up to the request, exactly those frames stop being free, and the summaries hold again |
| Frames.FrameAllocator.Allocate | src/kernel/frame_allocator.cpp:32-81 | the highest block with a free frame, its lowest free frame, the longest run of its word up to the request; marked used exactly when fewer than 64 frames are returned; none only when nothing is free |
| Frames.WholeWord | src/kernel/frame_allocator.cpp:54-62 | 64 frames are returned exactly when at least 64 are asked for and the first word with a free frame is all free |
| Frames.FrameAllocator.Free | src/kernel/frame_allocator.cpp:83-122 | other blocks are untouched; in the block of the run exactly the frames become free that have, in the first group of 4096, the index that a frame of the run has in its own group; so a run inside the first 4096 frames is freed exactly and the summaries hold, and beyond them frames in use are not freed; when the assertions fire |
| Frames.FrameAllocator.Use | src/kernel/frame_allocator.cpp:124-165 | the same for marking frames used |
| Frames.FrameAllocator.FreeIn | src/kernel/frame_allocator.cpp:100-119 | the three counters step through the frames of the run; the assertion fires exactly when the run ends at the end of a full block |
| Frames.FrameAllocator.UseIn | src/kernel/frame_allocator.cpp:140-163 | the same loop for marking frames used |
| Frames.FreeExactlyWhen | src/kernel/frame_allocator.cpp:100-119 | for a run of frames in use, free is right if and only if the run ends within the first 4096 frames |
| Frames.UseExactlyWhen | src/kernel/frame_allocator.cpp:140-163 | for a run of free frames, used is right if and only if the run ends within the first 4096 frames |
| Frames.FreeGoesAstray | src/kernel/frame_allocator.cpp:108-110 | freeing frame 4096 frees frame 0 and breaks the summaries |
| Frames.FrameAllocator.AllocateAndFree | src/kernel/frame_allocator.cpp:32-122 | freeing what was just allocated restores every word of every block if and only if nothing was allocated or the run ends within the first 4096 frames |
| Frames.FrameAllocator.Serve | src/kernel/frame_allocator.cpp:32-122 | every run of requests and returns, up to and including the first return of a run that ends past the first 4096 frames of its block: each request takes the next run, each return has the effect of free, and each frame that was free is free or held exactly once in every state if and only if no request was served with a whole word and no return was late |
| Frames.RunConserves | src/kernel/frame_allocator.cpp:32-122 | over every run of requests and returns each frame free at the start is free or held exactly once in every state, and no other is either, if and only if no request is served with a whole word and every run given back ends within the first 4096 frames of its block |
| Frames.StepConserves | src/kernel/frame_allocator.cpp:32-122 | the same for one request or return |
| Frames.FreedLands | src/kernel/frame_allocator.cpp:100-119 | free makes free exactly the frames of the first group that have the index of a frame of the run in its own group |
| Frames.UsedLands | src/kernel/frame_allocator.cpp:140-163 | used takes exactly those frames |
| Frames.WholeExactly | src/kernel/frame_allocator.cpp:42-62 | a request returns 64 frames exactly when it asks for as many and the lowest free frame of the highest block with one begins a word that is all free |
| Frames.LateReturnLoses | src/kernel/frame_allocator.cpp:100-119 | giving back a run that ends past the first 4096 frames of its block leaves frames neither free nor held |
| Frames.WholeWordHeldTwice | src/kernel/frame_allocator.cpp:54-63 | handing out a run that is not marked used leaves frames both free and held |
| Frames.SameBlock | src/kernel/frame_allocator.cpp:56-74 | a block is determined by its free frames |
| Words.RunLengthBits | src/kernel/frame_allocator.cpp:54-57 | the bit scan of the complement is the length of the run of set bits |
| Words.ClearRunBits | src/kernel/frame_allocator.cpp:61-63 | the mask clears exactly the bits of the run, for fewer than 64 |
| MemoryMap.BuildKernelMap | src/boot/memory_map.cpp:109-201 | fails exactly on a memory type that is none of the fifteen named ones; otherwise a page is in the kernel map exactly when a descriptor of a kept type has it: free for loader, boot-services and conventional memory, and runtime, ACPI, MMIO or persistent for those types, while reserved, unusable, ACPI NVS and PAL memory is dropped; pages are in order with their attributes, no two neighbours could be merged, and the map fits |
| MemoryMap.TranslateIs | src/boot/memory_map.cpp:129-166 | which kernel type each named UEFI memory type gets, and which are dropped |
| MemoryMap.MeaningDescribed | src/boot/memory_map.cpp:122-190 | a page is in the map's meaning exactly when a descriptor of a type that is kept has it |
| MemoryMap.MergedSeparate | src/boot/memory_map.cpp:178-190 | merging keeps entries of separate firmware ranges separate |
| MemoryMap.MergedStep | src/boot/memory_map.cpp:99-107 | extending an entry that can be merged adds exactly the pages of the descriptor, with 64-bit addresses |
| FrameBlocks.BuildFrameBlocks | src/boot/memory_map.cpp:206-278 | as many blocks as counted, covering exactly the free pages once and in order, every bitmap with exactly its first count bits set, the summaries right exactly for full blocks and at most 4032 frames, and the word after the bitmaps written exactly when the last block fills whole words |
| FrameBlocks.CountPass | src/boot/memory_map.cpp:211-220 | the numbers of blocks and of bitmap bytes of the free entries |
| FrameBlocks.FillPass | src/boot/memory_map.cpp:228-263 | the second pass fills exactly the counted blocks |
| FrameBlocks.BitmapPass | src/boot/memory_map.cpp:265-275 | consecutive bitmaps, each exact in the end although a block may first clear the next one's first word |
| FrameBlocks.AllBlockCount | src/boot/memory_map.cpp:203-263 | the second pass makes as many blocks as the first counted |
| FrameBlocks.AllWordCount | src/boot/memory_map.cpp:203-275 | the bitmaps of those blocks take as many words as the first pass counted |
| FrameBlocks.BlocksCoverFreePages | src/boot/memory_map.cpp:228-263 | the blocks hold exactly the free pages, each once and in order |
| FrameBlocks.BlockFlags | src/boot/memory_map.cpp:238 | every block has the attributes of the free entry it is made of |
| FrameBlocks.BitmapIsExact | src/boot/memory_map.cpp:269-272 | a frame's bit is set exactly when the frame is below the count |
| FrameBlocks.TailSummary | src/boot/memory_map.cpp:247-260 | the summary words of a partial block are right if and only if it has at most 4032 frames |
| FrameBlocks.FullSummary | src/boot/memory_map.cpp:242-246 | the summary words of a full block are right |
| FrameBlocks.HandoverSound | src/boot/memory_map.cpp:206-278 | for ranges that are aligned and apart, the blocks satisfy the frame allocator's invariant if and only if no range leaves a partial block of more than 4032 frames |
| FrameBlocks.Boot | src/boot/main.cpp:141-142 | from separate firmware ranges to the frame blocks: the kernel map keeps their meaning, a frame is handed over exactly when a descriptor of loader, boot-services or conventional memory has it, and the frame allocator's invariant holds if and only if no free range leaves a partial block of more than 4032 frames |
| AddressSpace.VmSpace.Add | src/kernel/vm_space.cpp:84-111 | every exact request is placed there, or at 16 MiB for base zero, or refused with nothing changed, as no area or some area is in its way, and the order holds exactly when its end does not wrap or it is refused; others go to the least free base from there on that fits, and the order holds exactly when there is one below the top |
| AddressSpace.VmSpace.Get | src/kernel/vm_space.cpp:157-168 | the one area that contains the address, or none |
| AddressSpace.VmSpace.Remove | src/kernel/vm_space.cpp:121-132 | the first area of the object is taken out and the rest stay in order |
| AddressSpace.SortedIndex | src/libraries/util/include/util/vector.h:158-171 | the binary search finds the place after every area with a base no greater |
| AddressSpace.InsertKeeps | src/kernel/vm_space.cpp:107 | inserting a free range at that place keeps the areas sorted and disjoint |
| AddressSpace.InsertBreaks | src/kernel/vm_space.cpp:107 | inserting a taken or wrapping range anywhere breaks them |
| AddressSpace.WrapExample | src/kernel/vm_space.cpp:98-104 | a request whose end wraps around lands on an existing area |
| AddressSpace.ExactExample | src/kernel/vm_space.cpp:98-107 | an exact request that wraps around is placed in an empty space past its top |
| AddressSpace.BlockedTaken | src/kernel/vm_space.cpp:93-102 | for a request that does not wrap, being refused and overlapping an area are the same |
| Capabilities.CapTable.Create | src/kernel/capabilities.cpp:18-38 | a handle never used before with the given rights, with a reference on the object, and no other capability changed |
| Capabilities.CapTable.Derive | src/kernel/capabilities.cpp:40-66 | invalid exactly for a dead base; otherwise a new handle on the same object that has a right exactly when it is asked for and the base has it; the object retained is the one named in the base's slot after the insertion, and the references stay right exactly when, by the table before, that is the base's |
| Capabilities.CapTable.Retain | src/kernel/capabilities.cpp:75-86 | one more holder of a live capability |
| Capabilities.CapTable.Release | src/kernel/capabilities.cpp:88-102 | one holder fewer; the last one removes the capability and its reference, and the references stay right exactly when the removal does not tear the table |
| Capabilities.CapTable.Run | src/kernel/capabilities.cpp:18-102 | over every run each operation does what it means, one new handle comes from each creation and accepted derivation and none is ever reused, and the references held on an object are throughout as many as the live capabilities naming it exactly when no operation is disturbed |
| Capabilities.CapTable.constructor | src/kernel/capabilities.cpp:13-16 | an empty table of 128 slots, with no references |
| Capabilities.StepFacts | src/kernel/capabilities.cpp:18-102 | what each operation does to the live capabilities, the references and the record of what was ever made |
| Capabilities.KeepsReferences | src/kernel/capabilities.cpp:18-102 | the references stay right over an operation if and only if, by the table before it, derivation finds its base's object in the slot and removal does not tear the table |
| Capabilities.NamedExactly | src/kernel/capabilities.cpp:49-63 | after the insertion the base's old slot names the base's object if and only if, by the table before, the slot does not change, or the derivative lands there, or the first node of the home before, which moves in, names the same object; after growth, if what is left there does |
| Capabilities.RunKeepsReferences | src/kernel/capabilities.cpp:18-102 | the same for every state of every run |
| Capabilities.RunHandles | src/kernel/capabilities.cpp:8-11 | handles given out over a run are fresh and nothing made is forgotten |
| CapExample.DeriveExample | src/kernel/capabilities.cpp:40-66 | thirty-three handles are created on their own objects, all but three dropped; deriving from the last of these leaves the references wrong |
| Capabilities.RightsShrink | src/kernel/capabilities.cpp:49-60 | a capability has no right that one of its ancestors lacks, and names the same object |

## Left out

- Task switching, timers, interrupts, APIC, CR3 and TLB work, SMP start-up and other register effects.
- UEFI calls, console, video, file loading and the retry around the UEFI memory map call.
- Clocks, the remaining time slice and thread state changes made elsewhere are parameters or environment steps.
- The window between releasing the run-queue lock and switching threads, and the lock dropped while waiting for a log entry, are part of one atomic step.
- The hash table's iterators; keys are never the id of an open slot, and capacities are powers of two.
- NodeMap.NodeMap.Insert: requires a key that is not in the table, as its callers guarantee.
- NodeMap.NodeMap.Fixup: memory past the end of the table is not modelled; what is moved there is lost, as growth clears it.
- Capabilities.CapTable.Derive: what the memory of an emptied slot still names, after the table has grown, is a parameter; objects are never null.
- Linked lists of threads and the vector of areas are sequences; the element-by-element shift of a vector insertion is not modelled.
- The debug mode of the heap.
- Heap.HeapAllocator.Allocate: requires room below the region's size, which the kernel never checks, a start aligned to the largest block and a region that 32-bit block offsets can reach.
- Heap.HeapAllocator.Free: requires null or a live pointer; foreign and dead pointers, which the kernel only partly asserts against, are excluded.  Nothing is said of the heap after a free that has torn its block map.
- Heap.HeapAllocator.Reallocate: memory at address zero is ordinary memory below the heap.
- Paging.Pager.MapPages: requires that no large page is on the path and that the range ends below the top of the address space; the copy of the firmware's mappings into the lower half runs after all mapping calls and is not modelled.
- BitStream.CStream.AddBits: requires fewer bits than the register has room for, as the format's callers guarantee; the unchecked fast variants and 32-bit registers are not modelled.
- LogRing.Logger.Output: takes the formatted message; formatting is not modelled, and the 64-bit counters do not wrap.
- LogRing.Logger.GetEntry: waiting is a result, not a step.
- Scheduling.Scheduler.CheckPromotions: the list iterator follows a moved node into its new list, where it is last, so one pass over a list promotes at most one thread.
- Scheduling.Scheduler.AddThread: requires a thread the scheduler has not seen before, as threads are added once when created.
- Idle threads' cpu fields are never set by the kernel and are left unset; idle threads are always ready and constant at idle priority.
- SpinLock.StepKeeps: memory is sequentially consistent, and every plain access is one step.
- StealLocks.StepKeeps: each lock is plain mutual exclusion; the queue lock is modelled on its own.
- Frames.FrameAllocator.Allocate: a shift by 64 is taken modulo 64, as the processor does.
- Frames.FrameAllocator.Free: requires that a run that starts in a block ends in it.
- Frames.FrameAllocator.Serve: nothing is said of requests and returns after a return of a run that ends past the first 4096 frames of its block, which may leave the summaries wrong.
- FrameBlocks.Boot: requires firmware ranges that are page-aligned, not empty, apart and short of the top of the address space.
- FrameBlocks.BuildFrameBlocks: writes past the second-level words of a block go to its bitmap pointer, which is set afterwards; page counts do not wrap.
- Address-space resizing, copying and page faults; area sizes are fixed and not zero.
- AddressSpace.VmSpace.Add: requires a size above zero.
- Capabilities.CapTable.Create: the handle counter does not wrap.
- IPC messages, syscalls, device management, the user-space libraries, build scripts and the rest of zstd.
