# Verified model of the mikroKernel memory core

This project models the memory core of the mikroKernel and proves what it promises: the red-black tree
of virtual memory areas (VMAs), the four-level page tables, the kernel mapping layer that keeps the two
in step, the direct map, the buddy and slab allocators of physical memory, and the ticket spinlock.
`dafny verify dfyconfig.toml` checks all of it.

## What is proved, in short

* **Red-black tree.** `rb_insert` and `rb_delete` are pointer code over heap nodes with parent links. They are
  proved against trees as values: after every call the links are consistent, the keys are in global order, the
  tree is red-black, and exactly the given node was added or removed; a duplicate or an absent key changes
  nothing. The delete fix-up never follows a NULL sibling and rotates at most three times. The height is at most
  2 log2(n + 1). `rb_validate` accepts exactly the red-black trees with right parent links that are *locally*
  ordered; a family of trees shows that this is less than a search tree.
* **Page tables.** `map_pages`, `unmap_pages` and the one-page functions are proved against the hardware walk.
  The cached walk is exact, tables always form a tree, unmapping leaves no empty and no shared table, and tidy
  tables are determined by what they translate. Mapping succeeds iff there is a frame for every missing table.
  From that: mapping and unmapping restores every entry and every free frame. Unmapping and huge mapping are
  also proved against functions of the whole state, so that range operations and sequences of one-page
  operations end in the identical state, in any valid tables, panics included, whatever the rule by which the
  pool hands out frames.
* **Mapping layer.** Over every run of `kmap_*` and `kunmap_*` requests for separate ranges and whole VMAs, from
  the empty address space and with a pool that hands out only free frames, an address translates iff some VMA
  contains it, and then to that VMA's frame plus the offset; the run panics iff at some point the mapped ranges
  need more tables than there are frames, and when the last VMA is gone every table frame is free again. For
  single requests the exact condition is proved: mapping keeps the law iff the range overlaps no VMA and ends
  below 2^64, where its `vma_end` wraps to 0, or a VMA at the same address already promises what is mapped;
  unmapping keeps it iff the request covers the VMA at its address and touches no other.
* **Direct map.** Carving the e820 entries maps `DIRECT_MAP_START + p` to `p` for exactly the pages that lie
  wholly inside a usable entry, by 2 MiB pages wherever one fits, writable and not executable, so switching the
  offset on leaves every stored physical link valid. `directmap_p2v` passes kernel pointers through; it is right
  for exactly the physical addresses below 2^47 - 2 MiB, not up to 2^48 as its comment says.
* **Buddy allocator.** Free and live blocks always tile the region, size-aligned, on well-linked lists.
  `buddy_kalloc` keeps the meaning of the pair bitmap in exactly two cases. `buddy_kfree` frees exactly the
  block's pages and makes no right bit wrong if each bit that it meets set belongs to a free buddy; it coalesces
  fully if all bits are right. Coalesced free sets are a function of the live blocks, so mixed runs whose
  requests keep the bitmap return to the same free set. For one-page requests, the only ones that `mmu.c` makes,
  the allocator is a pool of free pages: always for requests, and for pages given back over every run whose
  requests keep the bitmap. Two reachable states show what goes wrong after a split over several orders, one of
  them by one-page requests alone.
* **Slab allocator.** Geometry for every object size up to the buddy limit, and whole runs: a request is refused
  iff every object of the cache's slabs is in hand and the buddy allocator has no block, a slab is added exactly
  when it has one instead, every slab is on the ring that its use count dictates, and live objects, of one cache
  or of several on the same buddy allocator, overlap neither each other nor a descriptor.
* **Ticket lock.** Over every interleaving: mutual exclusion, first come first served, progress, interrupts
  disabled from `cli` on, restored RFLAGS, and `cpu_id` naming the holder; mutual exclusion holds iff there are
  at most 2^16 CPUs.

## How the model is built

The pointer code is imperative: `Node`, `RbTree`, `Mmu`, `KernelVm`, `Buddy` and `Cache` are classes whose methods
update fields step by step, with ghost fields for the abstract value (a tree shape, the position of each
table, the list contents, the live blocks). Loops of the source are loops here. Pure code (`mmu.h` macros,
`vma_cmp`, geometry formulas) is functions.

| files | part |
|---|---|
| `RbShape`, `RbLinks`, `RbTree`, `RbWalk`, `Vm` | the tree: values, link maps, pointer code, recursive walks, VMA lookups |
| `Pte`, `PageTable`, `Rights`, `Mmu`, `TidyTables` | entries, the walk and the table tree, access rights, `mmu.c`, uniqueness and round trips |
| `VmaMap`, `Kernel`, `KernelRuns`, `DirectMap`, `BootMap` | agreement of VMAs and tables, `paging.c`, whole runs, the direct map, the boot map |
| `BuddyBlocks`, `BuddyLists`, `BuddyPairs`, `BuddyInit`, `Buddy`, `BuddyRuns`, `BuddyPages` | block arithmetic, free lists, the bitmap, `__init_buddy`, the allocator, runs, runs of one-page requests |
| `SlabGeometry`, `SlabRings`, `SlabState`, `Slab`, `SlabRuns` | layout of slabs, the three rings, slab contents, the cache, runs |
| `TicketLock` | the lock as a transition system |
| `Common`, `Words` | powers of two, division, sequences without repeats; the bitwise operators |

Conventions. A kernel `PANIC` halts; it is the result `ok == false`, always with the exact condition in terms of
the state before the call, be it wrong arguments or too few frames. The pool of table frames chooses by an arbitrary
rule, a function of the free frames and of the number of earlier requests, so every sequence of choices is covered.
Masks and shifts are arithmetic, tied to the bitwise operators of `Words` by `Pte.EntryMasks` and `Pte.IndexMasks`;
`|` of a frame address and flags is `+` (`Pte.JoinIsOr`, and on 64-bit words `Pte.JoinIsBitwiseOr`); `^` with the block
size is `+` or `-`, justified by `Buddy.XorSetsClearBit` and `Buddy.XorClearsSetBit`. `directmap_p2v` is the identity on
references. Buddy addresses are page numbers; slab addresses are bytes. Statements about virtual addresses are for the
canonical ones, whose bits 47 to 63 are equal (`VmaMap.CanonicalExact`).

## Model

| member | source | states |
|---|---|---|
| RbTree.RbTree.RotateLeft | src/mikroKernellib/rb_tree.c:35-56 | At any position of a well-linked tree the left rotation rewrites exactly that subtree to the rotated one, parent links included |
| RbTree.RbTree.RotateRight | src/mikroKernellib/rb_tree.c:58-80 | The mirror image |
| RbTree.RbTree.FindExact | src/mikroKernellib/rb_tree.c:82-97 | Finds the node with the key's start and its position, NULL iff no node has it |
| RbTree.RbTree.Minimum | src/mikroKernellib/rb_tree.c:99-104 | The leftmost node of a subtree and its position: nothing precedes it there |
| RbTree.RbTree.Splice | src/mikroKernellib/rb_tree.c:106-118 | Transplanting puts the replacement subtree at the node's position, for a NULL replacement too, and consistently links it |
| RbTree.RbTree.InsertFixup | src/mikroKernellib/rb_tree.c:120-171 | From a tree whose only defect is one red-red edge at x it restores a red-black tree with the same in-order sequence, and terminates |
| RbTree.RbTree.Insert | src/mikroKernellib/rb_tree.c:173-224 | Keeps links, red-black balance and global order, adds exactly the node; NULL and no change iff the start is already there |
| RbTree.RbTree.DeleteFixLeft | src/mikroKernellib/rb_tree.c:229-263 | One round with x on the left: the sibling exists, and the deficit is repaired or moves up one level; the in-order sequence is kept |
| RbTree.RbTree.DeleteFixRight | src/mikroKernellib/rb_tree.c:264-298 | The same with x on the right |
| RbTree.RbTree.DeleteFixup | src/mikroKernellib/rb_tree.c:226-302 | Repairs a tree one black short at x, x possibly NULL; the counter that every rotation increments grows by at most three; the side test by pointer comparison picks the deficient side |
| RbTree.RbTree.Unlink | src/mikroKernellib/rb_tree.c:313-349 | The three cases of removal leave a well-linked sorted tree without the node, balanced or one black short at the returned position |
| RbTree.RbTree.Delete | src/mikroKernellib/rb_tree.c:304-360 | Keeps links, red-black balance and global order, removes exactly the node with the key's start; false and no change iff there is none |
| RbShape.HeightBound | src/mikroKernellib/rb_tree.c:120-224 | 2^height <= (n + 1)^2 for every red-black tree of n nodes |
| RbShape.DepthWithinHeight | src/mikroKernellib/rb_tree.c:82-97 | No position of a tree lies deeper than its height |
| RbShape.SearchBound | src/mikroKernellib/rb_tree.c:82-97 | A search, which goes down one level per round, takes at most 2 log2(n + 1) rounds in a red-black tree |
| RbShape.InorderPlug | src/mikroKernellib/rb_tree.c:362-375 | The traversal of a tree around a position is what lies before it, inside it and after it |
| RbShape.RedBlackPlug | src/mikroKernellib/rb_tree.c:226-302 | A tree is red-black iff the subtree is balanced and the path above accepts its black height and root colour |
| RbWalk.Traverse | src/mikroKernellib/rb_tree.c:362-375 | The callback sees exactly the in-order sequence |
| RbWalk.ValidateHelper | include/rb_tree.h:39-82 | On any binary tree, whatever its parent links: accepts a subtree iff it is balanced, locally ordered, its parent links are right and its black count matches the paths seen before |
| RbWalk.Validate | include/rb_tree.h:84-98 | Accepts a tree iff it is red-black, every node is ordered against its children, every child points back to its parent and the root has none |
| RbWalk.ValidateTree | include/rb_tree.h:84-98 | On well-linked trees it accepts iff the tree is red-black and locally ordered, hence everything that insert and delete leave behind |
| RbWalk.SortedIsLocal | include/rb_tree.h:65-77 | Every search tree passes the order test, so validation accepts what insert and delete leave behind |
| RbWalk.LocalIsNotSorted | include/rb_tree.h:65-77 | A family of trees that validation accepts although their in-order sequence is not sorted |
| Vm.FindVma | src/mikroKernellib/vm.c:51-66 | The unique VMA that contains the address, NULL iff none does |
| Vm.Successor | src/mikroKernellib/vm.c:14-30 | The first VMA in traversal order that starts above the address, NULL iff there is none |
| Vm.Predecessor | src/mikroKernellib/vm.c:32-49 | The last VMA in traversal order that starts below the address, NULL iff there is none |
| Pte.JoinParts | include/mmu.h:81-98 | Masks recover frame and flags of an entry built from both |
| Pte.JoinIsBitwiseOr | include/mmu.h:95-98 | On 64-bit words the bitwise or of a frame and flags is their sum, and the mask takes them apart |
| Pte.EntryMasks | include/mmu.h:81-98 | Present, huge, frame and flags of an entry are what the masks 1, 0x80, 0x000FFFFFFFFFF000 and its complement take out of it, for every entry |
| Pte.JoinIsOr | include/mmu.h:95-98 | An entry is the bitwise or of its frame and its flags |
| Pte.IndexMasks | include/mmu.h:101-105 | The four table indices are the shifts and masks of the macros, for every address |
| PageTable.WalkFollowsTab | include/mmu.h:101-105 | The hardware walk over memory equals reading the table tree by position, for every page |
| PageTable.AddTable | src/mikroKernellib/mmu.c:162-180 | Linking a zeroed frame keeps the tables a tree |
| PageTable.SetLeaf | src/mikroKernellib/mmu.c:183-183 | Writing a leaf entry keeps the tables a tree |
| Rights.RightsOfLeaf | src/mikroKernellib/mmu.c:162-183 | With the rights of all entries on the way combined, a page is writable or executable exactly if its own entry says so, and never accessible from user mode, because no table entry has the user bit |
| Mmu.FramesExact | src/mikroKernellib/mmu.c:285-285 | The frames of a range start at paddr with its low 12 bits cleared, are aligned and consecutive, and are compared modulo 2^64 |
| Mmu.HugeFramesExact | src/mikroKernellib/mmu.c:187-188 | The same for 2 MiB frames |
| Mmu.Mmu.MapSmallPages | src/mikroKernellib/mmu.c:283-348 | Succeeds iff there is a free frame for every table of the range that is missing. Then the cached walk is exact: page i of the range translates to paddr plus i pages with the flags, every other page as before, and exactly the missing tables were added. On success and on failure the tables are a tree without shared frames and frames are conserved |
| Mmu.Mmu.MapHugePages | src/mikroKernellib/mmu.c:234-281 | The same for 2 MiB pages; the state left, on success and on failure, is that of the sequence of one-page steps |
| Mmu.Mmu.MapOneHugePage | src/mikroKernellib/mmu.c:151-184 | Panics without any change if the flags do not say huge; otherwise succeeds iff its missing directories fit into the free frames, and then exactly its 512 pages translate by the new entry |
| Mmu.Mmu.MapHugePage | src/mikroKernellib/mmu.c:246-277 | One round of the huge loop: succeeds iff its missing directories fit into the free frames; then its 512 pages translate by the new entry, all others as before. The whole state left is given as a function of the state before, whatever was cached |
| Mmu.EnoughFrames | src/mikroKernellib/mmu.c:229-349 | Every frame that left the pool is one missing table |
| Mmu.TooFewFrames | src/mikroKernellib/mmu.c:229-349 | An empty pool with a table still missing means that the frames could not suffice |
| Mmu.Mmu.IsEmpty | src/mikroKernellib/mmu.c:22-31 | True iff all 512 entries are zero |
| Mmu.Mmu.UnmapPage | src/mikroKernellib/mmu.c:92-149 | Panics iff the page is huge or maps another frame; else only this page stops translating, emptied tables are freed, tidiness is kept. The whole state left is given as a function of the state before |
| Mmu.Mmu.UnmapSmallPages | src/mikroKernellib/mmu.c:413-475 | Panics iff some page of the range is huge or maps another frame than paddr plus i pages in 64-bit arithmetic; else exactly the range stops translating, no reachable table but the root is empty if none was before, frames are conserved; the state left is that of the sequence of one-page steps |
| Mmu.Mmu.UnmapSmallRound | src/mikroKernellib/mmu.c:419-474 | One round of that loop, with its own walk and nested emptiness checks, ends in the state that unmap_page ends in |
| Mmu.Mmu.UnmapHugePage | src/mikroKernellib/mmu.c:186-227 | Panics iff a page table hangs below the slot or it maps another frame; else exactly its 512 pages stop translating. The whole state left is given as a function of the state before |
| Mmu.Mmu.UnmapHugePages | src/mikroKernellib/mmu.c:356-411 | The same for a range, with the exact panic condition; the state left is that of the sequence of one-page steps |
| Mmu.Mmu.UnmapHugeRound | src/mikroKernellib/mmu.c:362-409 | One round of that loop, with its own walk and nested emptiness checks, ends in the state that unmap_huge_page ends in |
| Mmu.Mmu.PruneUp | src/mikroKernellib/mmu.c:132-148 | Freeing emptied tables upwards changes no translation, stops at the first table that is not empty, and leaves no empty table behind |
| TidyTables.Inhabited | src/mikroKernellib/mmu.c:132-148 | In tidy tables every table but the root leads to a mapped page |
| TidyTables.TidyUnique | src/mikroKernellib/mmu.c:229-476 | Two tidy states inside a common one that translate alike are equal, entry by entry and frame by frame |
| TidyTables.OnlyTheRoot | src/mikroKernellib/mmu.c:351-476 | Tidy tables that map nothing consist of the root alone |
| TidyTables.MapThenUnmap | src/mikroKernellib/mmu.c:283-475 | Mapping an empty 4 KiB range and unmapping it restores every entry, every table position and the exact set of free frames; it fails iff the frames do not suffice for the missing tables |
| TidyTables.MapThenUnmapHuge | src/mikroKernellib/mmu.c:234-411 | The same for 2 MiB ranges |
| TidyTables.UnmapOneByOne | src/mikroKernellib/mmu.c:92-475 | From any valid tables unmap_pages, with its own loop body, panics exactly when a sequence of unmap_page calls does, and leaves the identical state: tables, entries, free frames |
| TidyTables.UnmapHugeOneByOne | src/mikroKernellib/mmu.c:186-411 | The same for unmap_huge_page |
| TidyTables.MapHugeOneByOne | src/mikroKernellib/mmu.c:151-281 | From any valid tables and for every rule of handing out frames, the cached huge walk and repeated map_huge_page calls panic in the same cases and leave the identical state: tables, entries, free frames |
| VmaMap.AgreeInserted | src/mikroKernellib/paging.c:117-146 | Adding a VMA and changing the translation on its range only keeps the two in agreement |
| VmaMap.AgreeRestated | src/mikroKernellib/paging.c:117-146 | Mapping a range without a new VMA keeps agreement iff the VMAs promise already what is mapped |
| VmaMap.OkInsertedIff | src/mikroKernellib/paging.c:49-53 | A VMA entering the tree leaves proper disjoint VMAs iff it is a proper one apart from the others |
| VmaMap.AgreeRemoved | src/mikroKernellib/paging.c:148-161 | Removing a VMA and erasing the pages of any request keeps them in agreement iff the request covers that VMA and touches no other |
| VmaMap.TranslatesByVma | src/mikroKernellib/paging.c:87-161 | In agreement, an address translates iff a VMA contains it, to the VMA's frame plus the offset |
| Kernel.KernelVm.InsertVma | src/mikroKernellib/paging.c:49-53 | A VMA enters the tree unless another one starts at its address; balance and order of starts are kept, and the VMAs stay proper and disjoint iff the new one is proper and apart from the others |
| Kernel.KernelVm.RemoveVma | src/mikroKernellib/paging.c:55-57 | Exactly that VMA leaves the tree |
| Kernel.KernelVm.KmapSmall | src/mikroKernellib/paging.c:130-146 | Succeeds iff the frames suffice for the missing tables; then exactly the range is mapped. If a VMA starts at the address the tree stays as it is, and agreement is kept iff the VMAs promise already what is mapped; otherwise one VMA is added, and agreement is kept iff the range overlaps no VMA and ends below 2^64. A range that ends at 2^64 is mapped but its VMA contains nothing |
| Kernel.KernelVm.KmapHuge | src/mikroKernellib/paging.c:87-146 | The same for huge requests and for kmap_huge_page |
| Kernel.LastPageIsLost | src/mikroKernellib/paging.c:117-161 | kmap_pages of the last page of the address space: the page translates, and the lookup that kunmap_pages starts with returns NULL |
| Kernel.KernelVm.KunmapSmall | src/mikroKernellib/paging.c:148-161 | Any request: outside every VMA nothing happens; otherwise exactly the VMA at the address goes, it panics iff some page of the range is huge or maps another frame than the request says, and else exactly the range stops translating. Agreement is then kept iff the request covers that VMA and touches no other |
| Kernel.KernelVm.KunmapHuge | src/mikroKernellib/paging.c:103-161 | The same for huge VMAs and for kunmap_huge_page |
| KernelRuns.Execute | src/mikroKernellib/paging.c:87-161 | One request changes the set of mapped ranges as the abstract model says; it panics iff the tables of the new set of ranges exceed the frames |
| KernelRuns.Run | src/mikroKernellib/paging.c:87-161 | Any run of allowed requests refines the abstract model of a set of ranges; it panics iff at some point the ranges need more tables than there are frames |
| KernelRuns.RunFromBoot | src/mikroKernellib/paging.c:87-161 | The same from the empty address space; when no range is left every frame is free again and the tree is empty |
| KernelRuns.TablesAreFootprint | src/mikroKernellib/paging.c:87-161 | In agreement the tables in use are exactly those that the mapped ranges need |
| KernelRuns.TranslationIsTheModel | src/mikroKernellib/paging.c:87-161 | After any run an address translates iff a range of the model holds it, to that range's frame plus the offset |
| KernelRuns.LeafIsTheModel | src/mikroKernellib/paging.c:87-161 | After any run the walk finds for every address of a range the range's own entry, moved on by whole pages: frame, flags and page size |
| DirectMap.CarveExact | src/mikroKernellib/paging.c:207-265 | Head, huge and tail pieces hold exactly the pages wholly inside the entry, each at its own physical address |
| DirectMap.CarveLeaf | src/mikroKernellib/paging.c:221-257 | By base and size alone: every 2 MiB page wholly inside the entry is mapped by one huge leaf, every other page inside it by a 4 KiB leaf, with the flags written out |
| DirectMap.DirectFootprint | src/mikroKernellib/paging.c:207-265 | The tables that the direct map needs, by base and size of the usable entries |
| DirectMap.MapEntry | src/mikroKernellib/paging.c:214-263 | Mapping one entry adds exactly its pieces, and succeeds iff there is a frame for every table that is missing, counted by base and size of the entry |
| DirectMap.MapDirectMapping | src/mikroKernellib/paging.c:207-265 | All usable entries are mapped, on top of what was mapped before; it succeeds iff there is a frame for every table that is missing, counted by bases and sizes. Every page wholly inside a usable entry then has exactly its leaf: frame, page size and flags |
| DirectMap.DirectMapLeaf | src/mikroKernellib/paging.c:231-257 | The same leaf, whatever else is mapped beside the direct map |
| DirectMap.DirectLeafBits | include/mmu.h:108-109 | Such a leaf has bits 0, 1, 8 and 63 set, bit 7 iff it is huge, and no other flag |
| DirectMap.DirectMapRights | include/mmu.h:108-109 | Through the direct map the kernel can write memory but not execute it, and user mode cannot reach it |
| DirectMap.DirectMapExact | src/mikroKernellib/paging.c:207-265 | DIRECT_MAP_START + a translates to a if a page wholly inside a usable entry holds it, and to nothing otherwise |
| DirectMap.SwitchKeepsMemory | src/mikroKernellib/paging.c:354-362 | With the direct map in place, whatever else is mapped by then, a stored physical link reaches the same memory before and after the switch, and translating twice changes nothing |
| DirectMap.P2vExact | include/mmu.h:160-166 | Every pointer into the kernel half is returned as it is, whatever the offset; with offset 0 every pointer is; after the switch a pointer is moved into the direct map iff it is below 0x7FFFFFE00000, and translating twice is translating once iff it is below that or in the kernel half |
| DirectMap.P2vWraps | include/mmu.h:151-155 | An address below 2^48, which the comment calls physical, that is wrapped around instead of translated |
| BootMap.MapBootMemory | src/mikroKernellib/paging.c:267-270 | Succeeds iff there are frames for its PDPT and page directory as far as these are missing; then the low 16 MiB are mapped to themselves by 2 MiB pages that the kernel can write and execute |
| BootMap.BootFromNothing | src/mikroKernellib/paging.c:267-270 | From the empty address space it takes two frames, and an address translates iff it is below 16 MiB, to itself |
| BootMap.UnmapBootMemory | src/mikroKernellib/paging.c:273-275 | Exactly that mapping goes |
| BuddyInit.FindOrder | src/mikroKernellib/phys_kmalloc.c:131-140 | The largest order that fits and divides the address |
| BuddyInit.CountOrders | src/mikroKernellib/phys_kmalloc.c:123-146 | The counts are those of the greedy sequence of orders |
| BuddyInit.GreedyDescends | src/mikroKernellib/phys_kmalloc.c:127-146 | From an aligned base the greedy orders never increase, strictly decrease below the top and sum to the size |
| BuddyInit.LayOut | src/mikroKernellib/phys_kmalloc.c:148-171 | Laying the counted blocks out from large to small places exactly the greedy blocks, on well-linked lists in order of address, and they tile the region |
| BuddyInit.WholeInit | src/mikroKernellib/phys_kmalloc.c:105-146 | A region of whole 4 MiB starts out as blocks of 1024 pages |
| Buddy.OrderOffsets | src/mikroKernellib/phys_kmalloc.c:182-190 | The precomputed offsets are the bits of all lower orders |
| BuddyBlocks.PosInjective | src/mikroKernellib/phys_kmalloc.c:198-206 | No two pairs inside the region, of any orders, share a bit |
| BuddyBlocks.PosInside | src/mikroKernellib/phys_kmalloc.c:173-206 | Every bit touched for a block inside the region is one of the first page-count bits |
| Buddy.Buddy.constructor | src/mikroKernellib/phys_kmalloc.c:105-193 | After initialisation the greedy blocks are free, on lists in order of address, coalesced, and tile the region; in a region of whole 4 MiB blocks the zeroed bitmap is right |
| Buddy.Buddy.Toggle | src/mikroKernellib/phys_kmalloc.c:195-212 | Flips exactly the pair's bit and returns it |
| BuddyBlocks.OrderOf | src/mikroKernellib/phys_kmalloc.c:216-217 | The least order whose block holds the size |
| BuddyBlocks.OrderLoopEnds | src/mikroKernellib/phys_kmalloc.c:216-217 | In 64-bit arithmetic that loop finds an order before its shift leaves the word iff the size is at most 2^63 |
| Buddy.Buddy.FirstList | src/mikroKernellib/phys_kmalloc.c:222-227 | The first non-empty list from an order on |
| Buddy.Buddy.Carve | src/mikroKernellib/phys_kmalloc.c:228-256 | Popping and splitting puts exactly the upper halves on the lists and keeps the tiling |
| Buddy.Buddy.Kalloc | src/mikroKernellib/phys_kmalloc.c:214-264 | NULL iff no free block is large enough; else a fresh tight block, the head of the smallest sufficient list, whose upper halves go to the heads of the lists below; every other list stays; tiling, links and coalescing kept; the bitmap stays right iff a free block of the order exists or a top block is split once |
| BuddyPairs.CarveAgreesIff | src/mikroKernellib/phys_kmalloc.c:238-259 | The single toggle keeps every pair bit right iff idx equals order, or idx is the top order and order is one below |
| BuddyPairs.FlipAgrees | src/mikroKernellib/phys_kmalloc.c:282-312 | One block entering or leaving the free set together with one toggle keeps every pair bit right |
| BuddyPairs.FlipKeeps | src/mikroKernellib/phys_kmalloc.c:282-312 | Whatever the other bits say, the same change makes no right bit wrong |
| BuddyPairs.RightBitsSuffice | src/mikroKernellib/phys_kmalloc.c:282-312 | With all bits right, every bit that freeing a live block meets set belongs to a free buddy |
| Buddy.Buddy.CoalesceUp | src/mikroKernellib/phys_kmalloc.c:282-312 | If each bit that it meets set belongs to a free buddy, the loop merges up to the first clear bit or the top, toggles exactly the bits on its way, takes exactly the merged buddies off their lists, and makes no right bit wrong |
| Buddy.Buddy.Unlink | src/mikroKernellib/phys_kmalloc.c:294-304 | Takes a block out of the middle of its list and keeps all lists well linked |
| Buddy.Buddy.Kfree | src/mikroKernellib/phys_kmalloc.c:266-324 | If each bit that it meets set belongs to a free buddy: exactly the block's pages become free, the block merged up to the first clear bit heads its list, the other lists lose at most the buddies and keep their order, exactly the bits on the way are toggled, at the top order the block's own, and no right bit turns wrong. If the bits above the block are right, the merged block's buddy is not free or it is of top order. NULL or size 0 changes nothing |
| Buddy.XorSetsClearBit | src/mikroKernellib/phys_kmalloc.c:290-292 | On 64-bit words `^` with a clear bit adds it |
| Buddy.XorClearsSetBit | src/mikroKernellib/phys_kmalloc.c:290-292 | On 64-bit words `^` with a set bit subtracts it |
| BuddyPairs.CoalescedUnique | src/mikroKernellib/phys_kmalloc.c:282-312 | Two coalesced free sets for the same live blocks are equal |
| BuddyRuns.AllocateAll | src/mikroKernellib/phys_kmalloc.c:214-264 | Over any run each request is answered from the free blocks at that moment: NULL iff none is large enough, else cut from the smallest sufficient one. The blocks handed out are aligned, tight, inside the region, pairwise disjoint and disjoint from what was live, and with the free blocks tile the region |
| BuddyRuns.AllocThenFree | src/mikroKernellib/phys_kmalloc.c:214-324 | Freeing undoes allocating for every request that is served without a split or with one split of a top block: free set, live set and bitmap meaning are restored |
| BuddyRuns.RunDirect | src/mikroKernellib/phys_kmalloc.c:214-324 | Any run of such requests mixed with releases: a request is refused iff it is empty, not of this kind, or no free block is large enough, a release frees exactly the chunk's pages, and what is held is the replay of the answers. Tiling, bitmap and full coalescing are kept; once everything is released the free set is as before |
| BuddyRuns.StaleBit | src/mikroKernellib/phys_kmalloc.c:238-259 | After two requests on a fresh 4 MiB region the bit that the next free consults says that a buddy is free which a live block covers |
| BuddyPages.AllocPage | src/mikroKernellib/phys_kmalloc.c:214-264 | A request for one page, in any state: NULL iff no page is free, else exactly the page returned leaves the set of free pages |
| BuddyPages.FreePage | src/mikroKernellib/phys_kmalloc.c:266-324 | Giving a page back adds exactly it to the free pages, if each bit that is met set belongs to a free buddy |
| BuddyPages.RunPages | src/mikroKernellib/phys_kmalloc.c:214-324 | Over every run of one-page requests that are served directly, and of pages given back, the allocator is a pool: a request takes some free page or fails iff there is none, a page given back is free again, no page in hand is free |
| BuddyPages.StalePages | src/mikroKernellib/phys_kmalloc.c:238-312 | Six one-page calls on a fresh 4 MiB region after which freeing one page would merge it with pages of which one is live |
| SlabGeometry.AlignUpLeast | src/mikroKernellib/kmath.c:4-4 | Without overflow align_up gives the least multiple that is large enough |
| SlabGeometry.AlignUp32Exact | src/mikroKernellib/kmath.c:4-4 | In 32-bit arithmetic align_up rounds up iff x + y - 1 does not overflow |
| SlabGeometry.BuddyOrder | src/mikroKernellib/kmath.c:28-34 | The least order with enough pages |
| SlabGeometry.Klog2 | src/mikroKernellib/kmath.c:9-14 | The position of the highest set bit, 0 for 0 |
| SlabGeometry.RoundUpLeast | src/mikroKernellib/kmath.c:16-26 | For 0 < x <= 2^31 the least power of two that is at least x |
| SlabGeometry.SizeToIndex | src/mikroKernellib/phys_kmalloc.c:413-421 | For sizes 1 to 2048 the least of the eight classes that holds the size; for any 64-bit size a cache index comes out iff the low 32 bits, at least 16 for small sizes, lie in 9 to 2048 |
| SlabGeometry.LowestBit | src/mikroKernellib/phys_kmalloc.c:356-361 | `size & -size` by the low four bits of the size |
| SlabGeometry.CacheGeometry | src/mikroKernellib/phys_kmalloc.c:332-395 | Fails iff the size is 0; at least 8 objects fit, the order is the least sufficient one and no further object would fit; the buddy allocator has such blocks iff 8 size + 56 is at most 4 MiB |
| SlabGeometry.FirstRounded | src/mikroKernellib/phys_kmalloc.c:332-338 | The first object starts at the descriptor size rounded up to the alignment |
| SlabGeometry.ObjectRow | src/mikroKernellib/phys_kmalloc.c:448-457 | The first object starts where the 40 bytes of the descriptor, rounded up, end, and each next one right behind |
| SlabGeometry.ObjectInside | src/mikroKernellib/phys_kmalloc.c:448-457 | Every object lies inside the slab and behind the descriptor |
| SlabGeometry.ObjectsApart | src/mikroKernellib/phys_kmalloc.c:454-457 | Different objects do not overlap |
| SlabGeometry.LinksApartIff | src/mikroKernellib/phys_kmalloc.c:454-466 | The links in free objects overlap no other object iff objects have at least 8 bytes |
| SlabGeometry.ObjectAligned | src/mikroKernellib/phys_kmalloc.c:332-361 | Every object is aligned to the object alignment |
| SlabGeometry.MaskRecovers | src/mikroKernellib/phys_kmalloc.c:556-559 | Masking any address inside a slab recovers the slab |
| Slab.NewSlab | src/mikroKernellib/phys_kmalloc.c:440-443 | A buddy block is aligned to its own size, so it can be a slab |
| Slab.Cache.constructor | src/mikroKernellib/phys_kmalloc.c:642-653 | A new cache has three empty rings |
| Slab.Cache.Grow | src/mikroKernellib/phys_kmalloc.c:437-480 | Succeeds iff the buddy has a block of the order; adds one slab with every object free at the front of the free ring, cut from the smallest sufficient buddy block, else changes nothing |
| Slab.Cache.Move | src/mikroKernellib/phys_kmalloc.c:525-534 | Takes a slab out of its ring and puts it behind another sentinel; the other slabs keep their order, all three rings stay well linked |
| Slab.Cache.Kalloc | src/mikroKernellib/phys_kmalloc.c:485-552 | The head of the free list of the first partial slab, or if there is none of the first free slab, or else the first object of a new slab; it was not live; the slab moves to the front of the ring of its new count; NULL iff there is no partial or free slab and no buddy block; a slab is added iff there is no partial or free one but a buddy block; all invariants kept |
| Slab.Cache.Kfree | src/mikroKernellib/phys_kmalloc.c:554-596 | Exactly that object stops being live and heads its slab's free list; the slab moves to the front of the ring of its new count iff that is another one; all invariants kept |
| SlabState.AllocStep | src/mikroKernellib/phys_kmalloc.c:513-521 | Popping the free list takes an idle object of that slab, never NULL for a slab that is not full, and leaves all slabs consistent |
| SlabState.FreeStep | src/mikroKernellib/phys_kmalloc.c:556-594 | The masked address names a slab in use, and pushing the object leaves all slabs consistent |
| SlabState.LiveApart | src/mikroKernellib/phys_kmalloc.c:437-596 | Live objects overlap neither each other nor any descriptor, and are aligned |
| SlabRuns.FullIff | src/mikroKernellib/phys_kmalloc.c:489-510 | The partial and the free ring are both empty iff as many objects are live as the slabs have |
| SlabRuns.Run | src/mikroKernellib/phys_kmalloc.c:485-596 | Over every run from any state: what is in hand is the replay of the answers; a request is refused iff every object of the slabs is in hand and no buddy block is large enough, and a slab is cut from the buddy allocator exactly when every object is in hand and one is. The rings hold exactly the slabs with none, some and all of their objects live, live objects do not overlap |
| SlabRuns.CachesApart | src/mikroKernellib/phys_kmalloc.c:437-596 | Live objects of caches that share the buddy allocator overlap neither each other nor each other's descriptors |
| SlabRuns.RunMany | src/mikroKernellib/phys_kmalloc.c:423-596 | The same over every run of requests to any number of caches on one buddy allocator: each is answered from its own slabs and the common blocks at that moment, and the objects in hand of all caches do not overlap |
| TicketLock.RunKeepsInv | src/mikroKernellib/spinlocks.asm:10-58 | Every schedule of at most 2^16 CPUs keeps outstanding tickets consecutive modulo 2^16, one per waiting CPU |
| TicketLock.AtMostOneHolder | src/mikroKernellib/spinlocks.asm:10-58 | At most one CPU is past the spin loop and before the serving increment |
| TicketLock.ServedInTicketOrder | src/mikroKernellib/spinlocks.asm:21-29 | The winners so far followed by those still spinning are the CPUs in the order in which they drew |
| TicketLock.OldestCanMove | src/mikroKernellib/spinlocks.asm:22-29 | While tickets are outstanding the oldest holder's next step makes progress |
| TicketLock.LeavesAlone | src/mikroKernellib/spinlocks.asm:10-49 | From every reachable state a CPU that no older ticket precedes gets through acquire and release by at most nine steps of its own |
| TicketLock.InterruptsOff | src/mikroKernellib/spinlocks.asm:14-40 | Over every schedule, from cli until acquire has returned a CPU's RFLAGS are those it called acquire with, bit 9 cleared |
| TicketLock.CpuIdNamesHolder | src/mikroKernellib/spinlocks.asm:31-44 | cpu_id is the low byte of the holder's APIC ID while a CPU has the lock, and 0xFFFFFFFF while none has |
| TicketLock.FlagsRestored | src/mikroKernellib/spinlocks.asm:14-49 | A CPU that has left release has the RFLAGS with which it last called acquire, as the schedule says, whatever it did to them in between |
| TicketLock.TooManyCpus | src/mikroKernellib/spinlocks.asm:20-29 | With more CPUs than ticket numbers two can be inside at once |
| TicketLock.SafeIffTicketsSuffice | include/spinlocks.h:5-10 | Mutual exclusion over every schedule holds iff there are at most 2^16 CPUs |

## Left out

- `map_page` and `kmap_page` for 4 KiB pages: the function returns unconditionally at mmu.c line 46, so its body is unreachable; a count of one in `map_pages` covers it.
- The choice of the region in `__init_buddy` (phys_kmalloc.c lines 49 to 118): the model starts from the aligned base and the page count.
- Buddy.Buddy.Kfree: calls that meet a set bit whose buddy is not free, as they can after a split over several orders (`BuddyRuns.StaleBit`, `BuddyPages.StalePages`); the C code then takes a block off a list that it is not on, and what memory holds afterwards is not modelled.
- Buddy.Buddy.CoalesceUp: the same calls as for Buddy.Buddy.Kfree.
- Buddy.Buddy.Kalloc: sizes above 2^63, on which the order loop of the C code does not end (`BuddyBlocks.OrderLoopEnds`), are refused like other large sizes; bitmap positions are not truncated to 32 bits.
- SlabGeometry.CacheGeometry: sizes whose slab would exceed 1 GiB, where `int total_bytes` and the 32-bit sizes overflow.
- Slab.Cache.constructor: objects of fewer than 8 bytes, whose free-list links overlap the next object (`SlabGeometry.LinksApartIff`); the error returns of `kmem_cache_create_sl` keep the lock held and are not modelled.
- The unreachable NULL branch of `kmem_cache_kalloc` (lines 517 to 520): the model proves that the free list of the chosen slab is not empty.
- Kernel.KernelVm.KmapSmall: unaligned, empty or non-present requests, ranges past 2^64 or across the non-canonical hole, and 4 KiB requests inside a 2 MiB page, where `map_pages` takes the mapped memory for a page table.
- Kernel.KernelVm.KmapHuge: the same, and 2 MiB requests over a page table, whose frames the C code then loses.
- Kernel.KernelVm.KunmapSmall: counts of more pages than the address space has.
- Kernel.KernelVm.KunmapHuge: the same.
- KernelRuns.Execute: requests that break the law by the exact conditions of the mapping layer are not part of a run, nor is mapping again what is already promised.
- KernelRuns.Run: the same requests. VMA structs are fresh objects instead of slab objects.
- KernelRuns.RunFromBoot: the same requests. Table frames come from a pool that hands out only free frames; `BuddyPages.RunPages` shows that the buddy allocator is such a pool as long as its one-page requests are served directly, and `BuddyPages.StalePages` that it need not be one otherwise.
- DirectMap.MapDirectMapping: entries must lie below DIRECT_MAP_SIZE; `include/mmu.h` gives a DIRECT_MAP_END that is 4 TiB lower than DIRECT_MAP_START + DIRECT_MAP_SIZE, and the code checks neither.
- TicketLock: one step is one instruction that touches shared memory or RFLAGS; memory ordering beyond that and the APIC ID lookup are not modelled. The project's prose calls the lock an xchg lock; the code is a ticket lock, and the code is followed.
- Concurrency of everything but the lock: each operation is one atomic step, also where the C code looks up or grows outside its lock.
- invlpg, CR3 loads, TLB contents: hardware effects.
- virt_kmalloc.c, mapped_phys_kmalloc.c, vm_mmap, page faults, tasks, per-CPU data, boot code, interrupts, graphics, strings, rb_print_tree: unfinished, input/output, or easy members.
