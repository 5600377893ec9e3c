# A model of the Sharix kernel's data structures and memory management

This project models, in Dafny, the parts of the kernel that carry real invariants, and proves
them. `dafny verify dfyconfig.toml` checks all of it.

- `rb_shape.dfy`, `rb_tree.dfy`: the intrusive red-black tree of `kern/libs/rb_tree.c`. Nodes are
  heap objects with their four fields; the tree they form is a ghost value, and a zipper says where
  in it a pointer stands. Rotations, both fix-up loops, deletion by moving nodes (with nil's
  borrowed parent and the root cached before the loop), iteration and search are proved against
  that value. Search needs at most 2 * log2(n + 1) comparisons.
- `list.dfy`: the circular lists of `libs/list.h`, as rings of pointers.
- `buddy_blocks.dfy`, `buddy_lists.dfy`, `buddy_pmm.dfy`: the page allocator. How often the blocks on the lists cover
  each page is counted, which makes splitting, trimming, decomposition and merging equations; the
  outcome is exact conservation of the free set in every reachable state. What each operation does
  to the lists is a relation between the lists before and after, proved to determine the latter.
- `slab_layout.dfy`, `slab.dfy`, `counting.dfy`: the slab allocator on top of it, with free chains
  threaded through the bufctl arrays, page links, and off-slab descriptors that are objects of other
  caches. `SlabAllocator.Ready` is the invariant between calls of kmalloc and kfree; every call
  keeps it, so its consequences hold over whole runs.
- `mmu.dfy`, `page_tables.dfy`, `pmm.dfy`, `pgdir_items.dfy`: two-level page tables in memory as
  section 4.3 of the Intel SDM, volume 3A, reads them, with the cached translations of section
  4.10. They behave like a flat map from linear pages to frames and permissions.
- `vma_list.dfy`, `vmm.dfy`: the list of memory areas with its one-entry cache, and page faults.
- `print_num.dfy`, `printfmt.dfy`, `strtol.dfy`, `format_laws.dfy`: formatted printing into a bounded
  buffer, 64-bit division, reading numbers back, and what whole escape sequences print.
- `stab_search.dfy`: the binary search among stab entries of one type.
- `arith.dfy`, `options.dfy`: shared definitions.

Page p of physical memory is the number p; an address is page * 4096 + offset, counted from
KERNBASE for kernel objects. A `uint32_t` is a number below 2^32, with wrap-around where the code
can reach it. Allocations that the code does not check are made explicit: the methods of `pmm.dfy`
and `vmm.dfy` return a flag that is false where the code would go on with the page at NULL.

Where the code and its own words disagree, the model follows the code:

- `rb_tree_successor` says it is called by `rb_node_prev`; it is called by `rb_node_next` and
  `rb_delete`.
- `kern/mm/buddy_pmm.c:5` promises lists of order 0 to 10, but `buddy_init` leaves the last one
  uninitialised. The model starts from eleven empty lists.
- `printnum` documents bases from 1; base 1 would never end. The model has bases 2 to 16.
- The flag `-` is documented as padding on the right. For numbers the code pads on the left, with
  the character `-`, which reads as a sign (`DashExample`).
- Where not even the control area fits, the loop of `cache_estimate` counts past 0, and reports
  2^32 - 6 objects of size 0 (`ZeroEstimate`). `init_kmem_cache` accepts no such estimate.
- `stab_binsearch` documents an empty region where no entry contains the address. It returns one
  only where there is no entry of the type at all (`SearchFindsBelow`, `SearchFindsNone`), and an
  entry of value addr + 1 next to an exact match is taken for it (`NextValueExample`, `SearchExact`).

## Model

| member | source | states |
|---|---|---|
| RbTree.Tree.constructor | kern/libs/rb_tree.c:28-55 | a new tree is a valid red-black tree without nodes, with its two sentinels linked as the comments require |
| RbTree.Tree.RotatePointers | kern/libs/rb_tree.c:77-97 | what a rotation does to each pointer field of the nodes involved, in both mirror images, whether or not the middle subtree is nil |
| RbTree.Tree.Rotate | kern/libs/rb_tree.c:77-97 | a rotation anywhere in the heap tree turns the represented tree into the rotated one and leaves the rest of the tree alone |
| RbShape.RotatedInorder | kern/libs/rb_tree.c:65-97 | rotating keeps the in-order sequence |
| RbShape.RotatedNodes | kern/libs/rb_tree.c:65-97 | rotating keeps the set of node objects, each occurring once |
| RbTree.Tree.FindSlot | kern/libs/rb_tree.c:114-118 | the descent goes left exactly where the node met is greater than the new one, and ends at a free place |
| RbTree.Tree.InsertBinary | kern/libs/rb_tree.c:109-132 | the new node hangs as a red leaf where that descent ends, and nothing else changes |
| RbShape.DescentSeparates | kern/libs/rb_tree.c:114-125 | with a consistent comparison everything before the free place is at most as great as the new node and everything behind it is greater, so equal keys stay in insertion order |
| RbShape.SortedInsert | kern/libs/rb_tree.c:109-126 | the in-order sequence stays sorted |
| RbShape.PlacedOk | kern/libs/rb_tree.c:109-132 | hanging a red leaf at the end of the descent inserts it at its place in the in-order sequence and breaks at most the rule between it and its parent |
| RbTree.Tree.InsertRecolour | kern/libs/rb_tree.c:138-144 | the case of a red uncle, on the heap |
| RbTree.Tree.InsertUnbend | kern/libs/rb_tree.c:146-149 | the rotation that moves an inner grandchild outwards, on the heap |
| RbTree.Tree.InsertLift | kern/libs/rb_tree.c:150-152 | the recolouring and rotation that end the loop, on the heap |
| RbShape.RecolouredOk | kern/libs/rb_tree.c:138-144 | after recolouring the only violation left is two steps further up; order and nodes are the same |
| RbShape.UnbentOk | kern/libs/rb_tree.c:146-149 | unbending keeps the violation where it was, with the red node now outside |
| RbShape.LiftedOk | kern/libs/rb_tree.c:150-152 | after lifting no violation is left below, and black heights agree |
| RbTree.Tree.InsertSub | kern/libs/rb_tree.c:136-154 | one round of the fix-up keeps the loop invariant and climbs toward the root, or ends the loop |
| RbTree.Tree.InsertFixup | kern/libs/rb_tree.c:156-164 | the loop terminates and leaves a valid red-black tree with the same in-order sequence |
| RbTree.Tree.Insert | kern/libs/rb_tree.c:128-167 | every invariant of a red-black tree holds again, and the new in-order sequence is the old one with the node at the place that follows all elements not greater |
| RbTree.Tree.DeleteRedSibling | kern/libs/rb_tree.c:247-253 | the case of a red sibling, on the heap |
| RbTree.Tree.DeleteNearNephew | kern/libs/rb_tree.c:259-264 | the case of a red near nephew alone, on the heap |
| RbTree.Tree.DeleteFarNephew | kern/libs/rb_tree.c:265-268 | the case of a red far nephew, on the heap, although x may be nil with a borrowed parent |
| RbShape.RedSiblingOk | kern/libs/rb_tree.c:248-253 | after the first case the deficient subtree has a black sibling, and order and nodes are the same |
| RbShape.BlackNephewsOk | kern/libs/rb_tree.c:254-257 | after the second case the deficiency is one step further up |
| RbShape.NearNephewOk | kern/libs/rb_tree.c:259-264 | after the third case the far nephew is red |
| RbShape.FarNephewOk | kern/libs/rb_tree.c:265-269 | after the fourth case the deficiency is gone |
| RbTree.Tree.DeleteSub | kern/libs/rb_tree.c:245-271 | one round of the delete fix-up keeps the loop invariant, with root still the value read before the loop |
| RbTree.Tree.DeleteFinish | kern/libs/rb_tree.c:281 | blackening x at the end is right in each way the loop can end, also when the cached root is no longer the root |
| RbTree.Tree.DeleteFixup | kern/libs/rb_tree.c:241-284 | from a tree that lacks one black node below the focus, the loop terminates in a valid red-black tree with the same in-order sequence |
| RbTree.Tree.SpliceOut | kern/libs/rb_tree.c:295-305 | a node without one of its children gives its place to the other one; nil takes a parent pointer where that child is nil |
| RbTree.Tree.ReplacePointers | kern/libs/rb_tree.c:309-318 | what copying *z over *y and redirecting the three pointers to z does to every field |
| RbTree.Tree.Replace | kern/libs/rb_tree.c:309-318 | the spliced-out node takes the place, the links and the colour of the deleted one in the tree; nil's parent follows when the child of y was nil |
| RbShape.SpliceInorder | kern/libs/rb_tree.c:295-305 | splicing takes just that node out of the in-order sequence |
| RbShape.TransplantInorder | kern/libs/rb_tree.c:295-318 | moving the successor into the place of a node takes just that node out of the in-order sequence |
| RbTree.Tree.DeleteSparse | kern/libs/rb_tree.c:290-322 | deleting a node that lacks a child |
| RbTree.Tree.DeleteFull | kern/libs/rb_tree.c:290-322 | deleting a node with two children |
| RbTree.Tree.Delete | kern/libs/rb_tree.c:290-322 | every invariant holds again, root->right is still nil, and exactly that node object has left the in-order sequence; all others keep identity and order |
| RbShape.WithoutSorted | kern/libs/rb_tree.c:290-322 | deletion keeps a sorted sequence sorted |
| RbTree.Tree.Successor | kern/libs/rb_tree.c:174-194 | the in-order successor of a node in the tree, by descent or by climbing, nil at the end |
| RbTree.Tree.Predecessor | kern/libs/rb_tree.c:200-220 | the in-order predecessor, nil at the start |
| RbTree.Tree.NodeNext | kern/libs/rb_tree.c:346-350 | the next element of the in-order sequence, or NULL |
| RbTree.Tree.NodePrev | kern/libs/rb_tree.c:336-340 | the previous element of the in-order sequence, or NULL |
| RbShape.FollowEnumerates | kern/libs/rb_tree.c:332-350 | following next from the leftmost node visits every node exactly once, in order, and ends; prev leads back along the same nodes |
| RbTree.Tree.Search | kern/libs/rb_tree.c:227-235 | with a comparison consistent with the order a node is returned exactly if an equal one exists, it is the highest such node, and the number s of comparisons obeys 2^s <= (n+1)^2 |
| RbShape.LogarithmicHeight | kern/libs/rb_tree.c:227-235 | the height h of a red-black tree of n nodes obeys 2^h <= (n+1)^2 |
| RbShape.HeightBound | kern/libs/rb_tree.c:227-235 | height is at most twice the black height, and black height bounds the number of nodes from below |
| RbTree.Tree.NodeInvariants | kern/libs/rb_tree.c:373-392 | what validity means at one node: children point back, no red node has a red child, the real root is black and hangs below the dummy |
| RbTree.Tree.CheckTree | kern/libs/rb_tree.c:373-392 | check_tree returns one more than the black height; in a balanced tree that is the number of black nodes on every way down |
| RbShape.SameBlacks | kern/libs/rb_tree.c:373-392 | all ways from the root of a balanced tree to the same subtree meet black nodes that, with those below, make the black height |
| Lists.ListInit | libs/list.h:22-25 | an entry becomes an empty ring |
| Lists.ListAddAfter | libs/list.h:40-46 | the node is inserted behind the given entry of any ring |
| Lists.ListAdd | libs/list.h:27-30 | the same |
| Lists.ListAddBefore | libs/list.h:32-38 | the node is inserted in front of the given entry |
| Lists.ListDel | libs/list.h:48-52 | exactly that entry leaves the ring; its own pointers stay |
| Lists.ListDelInit | libs/list.h:54-58 | it leaves the ring and becomes an empty one |
| Lists.ListEmpty | libs/list.h:60-63 | true exactly for an empty ring |
| Lists.ListNext | libs/list.h:65-68 | the next entry, the head coming after the last |
| Lists.ListPrev | libs/list.h:70-73 | the previous entry, the head coming before the first |
| Lists.InsertRemove | libs/list.h:27-58 | adding and deleting undo each other |
| BuddyPmm.Buddy.constructor | kern/mm/buddy_pmm.c:5-18 | eleven empty lists: a sound allocator without pages |
| BuddyPmm.Buddy.AddFree | kern/mm/buddy_pmm.c:57-59 | a block put on its list is the first of it, and covers its pages once more; every list invariant holds |
| BuddyPmm.Buddy.DelFirst | kern/mm/buddy_pmm.c:48-51 | the first block of a list is taken off it, and covers its pages once less |
| BuddyPmm.Buddy.MergeStep | kern/mm/buddy_pmm.c:83-113 | merges exactly if the first block of the list touches the one that is freed, on either side; the new block starts where the lower one did and covers exactly the pages of both |
| BuddyPmm.Buddy.FreePagesSub | kern/mm/buddy_pmm.c:76-117 | freeing a block of 2^order pages adds exactly these pages; it takes in the first blocks of the lists from its order on, up to the first list where that is empty or does not touch it, or to order 10; other lists stay |
| BuddyPmm.Buddy.FreePagesIn | kern/mm/buddy_pmm.c:129-151 | any n below 2^11: adds exactly the n pages, as blocks of decreasing powers of two, each freed as before |
| BuddyPmm.Buddy.SplitFirst | kern/mm/buddy_pmm.c:47-61 | splitting a block keeps all its pages free but the 2^order that are returned; each upper half goes to its list |
| BuddyPmm.Buddy.AllocPagesSub | kern/mm/buddy_pmm.c:42-66 | fails exactly if all lists from order on are empty; otherwise takes exactly 2^order pages, from the first block of the first list that is not |
| BuddyPmm.Buddy.AllocPagesIn | kern/mm/buddy_pmm.c:118-127 | takes exactly n pages, of the least power of two that is enough, the tail being freed again |
| BuddyPmm.Buddy.InitMemmapIn | kern/mm/buddy_pmm.c:20-41 | adds exactly the n pages given, in blocks as great as possible |
| BuddyPmm.GetOrder | kern/mm/buddy_pmm.c:67-73 | the least order that is enough, or (size_t)-1 if none is |
| BuddyPmm.OrderAbove | kern/mm/buddy_pmm.c:135-139 | the least power of two above n |
| BuddyPmm.OrderBelow | kern/mm/buddy_pmm.c:141-144 | the greatest power of two not above n |
| BuddyPmm.Buddy.InitMemmap | kern/mm/buddy_pmm.c:20-41 | the pages given become free, in blocks as great as possible, and nothing else changes |
| BuddyPmm.Buddy.AllocPages | kern/mm/buddy_pmm.c:118-127 | on success the free set loses exactly the n consecutive pages returned, and the lists are those after taking the first block that will do and freeing its tail; failure changes nothing, and happens exactly if n is 0 or no list of sufficient order has a block |
| BuddyPmm.Buddy.FreePages | kern/mm/buddy_pmm.c:129-151 | the free set gains exactly the n pages returned, which are no longer handed out, and the lists are those after freeing them in decreasing powers of two |
| BuddyPmm.Buddy.PagesAccounted | kern/mm/buddy_pmm.c:20-41 | in every reachable state the sum of nr_free(i) * 2^i and the number of pages handed out make the number of pages ever given |
| BuddyPmm.Buddy.BlocksDisjoint | kern/mm/buddy_pmm.c:52-60 | blocks on the lists share no page, have the order of their list, and consist of free pages |
| BuddyPmm.Buddy.NoneFree | kern/mm/buddy_pmm.c:46-64 | no page is free exactly if all lists are empty |
| BuddyBlocks.SumCoverIs | kern/mm/buddy_pmm.c:8-9 | counting covered pages page by page or list by list gives the same |
| BuddyLists.GrownPages | kern/mm/buddy_pmm.c:76-117 | the pages of a merged block are those that were freed and those of the blocks it has taken in |
| BuddyLists.FreedOnce | kern/mm/buddy_pmm.c:76-117 | what the lists are after freeing a block is determined by that |
| BuddyLists.FreedAllPow2 | kern/mm/buddy_pmm.c:129-151 | freeing 2^order pages is freeing one block of that order |
| BuddyLists.FreedAllOnce | kern/mm/buddy_pmm.c:129-151 | the lists after freeing n pages are determined |
| BuddyLists.GivenOnce | kern/mm/buddy_pmm.c:20-41 | the lists after init_memmap are determined |
| BuddyLists.AllocatedOnce | kern/mm/buddy_pmm.c:118-127 | the page returned and the lists after an allocation are determined |
| BuddyLists.AllocFreeExample | kern/mm/buddy_pmm.c:153-159 | taking three pages of a single block of four and giving them back leaves that block |
| SlabLayout.EstimateStops | kern/mm/slab.c:163-166 | the loop of cache_estimate, which counts down modulo 2^32, stops exactly if some 32-bit number passes its test; one does if the alignment is at most the slab, and for objects of size 0 whatever the alignment |
| SlabLayout.SomeFits | kern/mm/slab.c:163-166 | some number of objects fits with its control area exactly if the alignment is at most the slab |
| SlabLayout.StopsAtGreatest | kern/mm/slab.c:163-166 | where the alignment is at most the slab the count does not wrap around, and stops at the greatest number that fits |
| SlabLayout.ZeroEstimate | kern/mm/slab.c:149-174 | what is reported for objects of size 0 where nothing fits: 2^32 - 6 objects, or the first guess if rounding up wraps around at once, and the whole slab as remainder, so the order is not accepted |
| SlabLayout.EstimateOnSlab | kern/mm/slab.c:163-166 | the number at which the count stops; where the alignment is at most the slab, the greatest that fits with its control area |
| SlabLayout.CacheEstimate | kern/mm/slab.c:149-174 | off the slab, and on it where the alignment is at most the slab, remainder, control area and objects make exactly the slab size, and there is no room for another object; otherwise the number at which the count stops, and a remainder modulo 2^32 |
| SlabLayout.EstimateUnique | kern/mm/slab.c:149-174 | number and remainder are determined by size, alignment and order |
| SlabLayout.CalculateSlabOrder | kern/mm/slab.c:176-206 | the least order with a remainder of at most one eighth, or none if no order up to 10 has one |
| SlabLayout.GetOrder | kern/mm/slab.c:208-218 | the least order from 5 to 17 that is enough, or (size_t)-1 exactly above 2^17 bytes |
| SlabLayout.InitKmemCache | kern/mm/slab.c:220-246 | for every size and every alignment but 0: each estimate stops; if some order is acceptable, the layout chosen (on the slab, off it, or moved into the leftover) fits, with at most one eighth unused; the size becomes 0 if rounding it up wraps around |
| SlabLayout.SlabInit | kern/mm/slab.c:106-115 | the layouts of the 13 caches |
| SlabLayout.TableFits | kern/mm/slab.c:106-115 | each of these layouts fits; an off-slab control area fits into an object of the cache meant for it, which is itself on-slab |
| SlabAlloc.AllocOne | kern/mm/slab.c:330-342 | the first object of the chain is taken; the slab moves to the full list exactly if the chain is then empty |
| SlabAlloc.FreeOne | kern/mm/slab.c:401-420 | the object becomes the first of the chain; the slab leaves its list if it is now unused, and moves to the front of slabs_notfull if it was full |
| SlabAlloc.ListDelOrder | kern/mm/slab.c:401-420 | list_del leaves the other slabs of the list in order |
| SlabAlloc.InitChain | kern/mm/slab.c:309-314 | all objects are on the chain, in order |
| SlabAlloc.WalkIsChain | kern/mm/slab.c:335 | the links of the bufctl array lead from free along the chain to BUFCTL_END |
| SlabAlloc.AllFree | kern/mm/slab.c:401-420 | a slab with no object in use has all of them on its chain |
| SlabAlloc.SlabAllocator.constructor | kern/mm/slab.c:106-115 | after slab_init all invariants hold |
| SlabAlloc.SlabAllocator.TakeObject | kern/mm/slab.c:344-359 | the first free object of the first slab of slabs_notfull; it was not in use, and all invariants hold with it in use |
| SlabAlloc.SlabAllocator.MapPages | kern/mm/slab.c:299-307 | writing the page links of a new slab disturbs no other slab |
| SlabAlloc.SlabAllocator.GetPages | kern/mm/slab.c:291-292 | the pages obtained belong to no slab |
| SlabAlloc.SlabAllocator.SlabMgmt | kern/mm/slab.c:255-271 | a slab_t in the slab itself or an object of another cache, with all invariants, even though that allocation may make slabs of its own |
| SlabAlloc.SlabAllocator.Grow | kern/mm/slab.c:289-328 | either the cache has a slab with free objects, or nothing has changed, the pages being free again; the latter exactly if there was no block of pages, or the slab_t needed a slab of its own and no other page was free |
| SlabAlloc.SlabAllocator.CacheAlloc | kern/mm/slab.c:344-368 | an object of that cache that was not in use; if there is a free one, the first of the first slab of slabs_notfull, without a new slab; or nothing has changed, exactly if there was no free object and no room for a slab, as for Grow |
| SlabAlloc.SlabAllocator.FindObj | kern/mm/slab.c:428-441 | the slab and the number of an object in use, recovered from its address by the page links and an exact division |
| SlabAlloc.SlabAllocator.Release | kern/mm/slab.c:401-420 | giving an object back keeps all invariants; a slab without objects in use is a slab no more |
| SlabAlloc.SlabAllocator.Destroy | kern/mm/slab.c:382-399 | all pages of the slab are free again, and its off-slab slab_t is given back, which may destroy another slab |
| SlabAlloc.SlabAllocator.CacheFree | kern/mm/slab.c:428-441 | the object is no longer in use; pages of every slab that went are free; no other page changed hands |
| SlabAlloc.SlabAllocator.Kmalloc | kern/mm/slab.c:370-378 | an address not in use, recorded with its size, of an object of at least that size, which is 32 or less than twice the size: from the smallest of the caches that will do, and of these the next free one if there is one; otherwise NULL, with nothing changed, exactly above 2^17 bytes or if that cache has no free object and no room for a slab |
| SlabAlloc.SlabAllocator.Kfree | kern/mm/slab.c:443-447 | exactly that object is gone; every slab left has an object in use, and the pages of the others are free |
| SlabAlloc.SlabAllocator.ObjectsDisjoint | kern/mm/slab.c:370-447 | objects in use, handed out or slab_t, do not overlap |
| SlabAlloc.SlabAllocator.ObjectInside | kern/mm/slab.c:255-271 | an object in use lies in pages that are handed out, behind the control area, and is as big as asked for or as its slab_t needs |
| SlabAlloc.SlabAllocator.SlabsApart | kern/mm/slab.c:289-328 | slabs share no page, and none of their pages is free |
| SlabAlloc.SlabAllocator.SlabState | kern/mm/slab.c:330-342 | in every reachable slab the chain from free visits num - inuse distinct indices, those of the objects not in use, and ends in BUFCTL_END; the slab is on slabs_full exactly if inuse is num, else on slabs_notfull |
| SlabAlloc.SlabAllocator.InUseCounts | kern/mm/slab.c:330-342 | inuse is between 1 and num, and is the number of objects of the slab that are in use |
| SlabAlloc.SlabAllocator.NothingKept | kern/mm/slab.c:382-420 | whenever all objects have been given back there is no slab any more, and no page is handed out to one |
| SlabAlloc.SlabAllocator.SlabAllocated | kern/mm/slab.c:117-141 | slab_allocated returns the sum of the sizes of all objects in use, off-slab slab_t's included |
| SlabAlloc.SlabAllocator.UsedOfCount | kern/mm/slab.c:117-141 | the objects in use of a cache are as many as the inuse fields of its slabs add up to |
| Mmu.AddressSplit | kern/mm/mmu.h:140-151 | PDX, PTX and PG_OFF take apart what PGADDR puts together, and the other way round |
| Mmu.PteAddr | kern/mm/mmu.h:145-146 | the page part of an entry |
| Mmu.MakeEntry | kern/mm/pmm.c:242-275 | page << 12 | PTE_P | perm is present, leads to that page, and has the permissions of perm |
| Mmu.OrBit | kern/mm/mmu.h:151-161 | an OR has the bits of both |
| Mmu.AndBit | kern/mm/mmu.h:140-148 | an AND has the bits common to both |
| PageTables.WalkBits | kern/mm/mmu.h:151-161 | the walk of the processor in bits and numbers, which the tables are written for |
| PageTables.NewTable | kern/mm/pmm.c:237-243 | a new, zeroed table in a page not handed out before changes no translation; tables stay unshared |
| PageTables.SetEntry | kern/mm/pmm.c:259-275 | writing a table entry changes the translation of its page and of no other |
| PageTables.WindowWrite | kern/mm/pmm.c:190 | why pages seen through the self-map are left out there: writing such an entry changes other translations |
| PageTables.VptReaches | kern/mm/pmm.c:23-24 | with the directory entry of VPT leading to the directory itself, &vpt[PPN(la)] reaches the table entry of la exactly if its directory entry is present |
| PageTables.VpdReaches | kern/mm/pmm.c:23-24 | and &vpd[j] reaches directory entry j |
| Pmm.Machine.InitPgdir | kern/mm/pmm.c:181-190 | a directory that maps nothing and leads back to itself |
| Pmm.Machine.GetPte | kern/mm/pmm.c:234-245 | the table entry of la; no translation changes, and of the pages handed out before only the directory |
| Pmm.Machine.GetPage | kern/mm/pmm.c:246-252 | the page la is mapped to, if it is mapped |
| Pmm.Machine.PageRemovePte | kern/mm/pmm.c:254-261 | la is unmapped, no other translation changes, and no stale translation stays cached |
| Pmm.Machine.PageRemove | kern/mm/pmm.c:262-267 | the same, with a table set up on the way if there was none |
| Pmm.Machine.PageInsert | kern/mm/pmm.c:268-278 | la is mapped to the page with these permissions, no other translation changes, and no stale translation stays cached |
| Pmm.Machine.TlbInvalidate | kern/mm/pmm.c:279-284 | drops the translation of la if the directory is in use |
| Pmm.Machine.Touch | kern/mm/pmm.c:268-284 | the processor may cache any translation at any time without making the cache stale |
| Pmm.Machine.MapPhysicalMemory | kern/mm/pmm.c:151-162 | exactly the pages that hold a byte from la to la + size are mapped, one by one, in the linear address space that goes round; where the 32-bit sum leaves no room for rounding, the pages of that many bytes fewer; cached translations stay right exactly if none of these pages was cached with another one |
| Pmm.SpanIsRun | kern/mm/pmm.c:153 | the number of rounds that line 153 computes is the number of these pages |
| Pmm.WholePages | kern/mm/pmm.c:153 | from the start of a page on, a size above n - 1 pages and up to n takes n pages |
| Pmm.FrameBuffer | kern/mm/pmm.c:207 | a frame buffer of 800 * 600 * 2 bytes takes 235 pages |
| Pmm.MapCoherence | kern/mm/pmm.c:151-162 | that condition, which is needed because nothing is invalidated |
| Pmm.StaleExample | kern/mm/pmm.c:151-162 | an input for which it fails |
| Pmm.KernelMap | kern/mm/pmm.c:192-193 | after the mapping of KERNBASE, VADDR(pa) reaches pa for all of KMEMSIZE, and does not touch the self-map |
| PgdirItems.GetPgtableItems | kern/mm/pmm.c:381-403 | the first run of present entries with equal user bits, as long as can be; 0 exactly if there is none |
| PgdirItems.UserBitsAre | kern/mm/mmu.h:155-168 | the user bits are the present, write and user bits |
| PgdirItems.PrintPgdir | kern/mm/pmm.c:405-413 | the lines printed for a table cover its present entries, each once, in maximal runs |
| VmaList.Vma.constructor | kern/mm/vmm.c:9-21 | an area with its link |
| VmaList.Mm.constructor | kern/mm/vmm.c:89-101 | an address space without areas |
| VmaList.Mm.FindVma | kern/mm/vmm.c:30-63 | the area in the cache if it contains the address, else the first that ends after it; the same as without the cache if the list is clean in the sense of RunsExact, so also if areas do not overlap |
| VmaList.FrontExact | kern/mm/vmm.c:37-60 | with a given area in the cache no answer differs from that of the list exactly if no area before it reaches past its start, or it is empty |
| VmaList.RunsExact | kern/mm/vmm.c:30-86 | no run of find_vma and insert_vma_struct that ends with a given list leaves a cached area that changes an answer, exactly if no area that can have come into the cache starts before the end of one before it |
| VmaList.RunReachable | kern/mm/vmm.c:30-86 | in every such run the list is sorted, and the cached area ends behind all that start where it does and come before it |
| VmaList.RunToReaches | kern/mm/vmm.c:30-86 | every such state is reached by a run |
| VmaList.OverlapExample | kern/mm/vmm.c:30-86 | a run with two areas in which the cache changes an answer |
| VmaList.Mm.InsertVma | kern/mm/vmm.c:65-86 | the area goes behind all that start no later; the list stays sorted, and map_count is its length |
| VmaList.TidyStays | kern/mm/vmm.c:65-86 | a list without overlaps stays one exactly if the new area overlaps none of the others |
| VmaList.Mm.Destroy | kern/mm/vmm.c:103-113 | every area is freed once, in the order of the list |
| Vmm.Check | kern/mm/vmm.c:182-204 | which accesses to which areas are permitted, in bits of the error code and of the flags: a write needs VM_WRITE, a read VM_READ or VM_EXEC and a page that is not present |
| Vmm.PermittedBits | kern/mm/vmm.c:188-204 | the masks of the switch test these bits |
| Vmm.MapFault | kern/mm/vmm.c:213-232 | the page of the address is mapped to the page it had or to one that was free, with these permissions; no other translation changes |
| Vmm.DoPgfault | kern/mm/vmm.c:177-235 | 0: the page is mapped for user code, writable exactly if the area is, all other translations are as before and none is stale; -1 exactly if there is no area or the bits of the access and the area do not fit, and then nothing has changed |
| PrintNum.DoDiv | libs/x86.h:6-19 | exact division of 64 by 32 bits; the inner divl never overflows |
| PrintNum.SprintBuf.Putch | libs/printfmt.c:285-296 | every character counts, and is stored while there is room |
| PrintNum.SprintBuf.PrintNum | libs/printfmt.c:27-52 | prints the digits, padded on the left to the width; the length is the greater of width and number of digits |
| PrintNum.NumText | libs/printfmt.c:27-52 | the length of that text |
| PrintFmt.ReadEscape | libs/printfmt.c:131-181 | the flags, width, precision and length of an escape sequence, and the arguments its stars take |
| PrintFmt.StrNLen | libs/string.c:33-40 | the length of a string, but at most len |
| PrintFmt.PutText | libs/printfmt.c:203-223 | at most precision characters, padded on the left, or with blanks on the right for '-' |
| PrintFmt.Convert | libs/printfmt.c:183-266 | each conversion puts what Render says, which the rows of FormatLaws read off whole formats |
| PrintFmt.Rewind | libs/printfmt.c:269-273 | the rewinding loop ends just behind the % of the unknown escape sequence |
| PrintFmt.VPrintFmt | libs/printfmt.c:116-276 | terminates for every format, and puts what the format means for these arguments |
| PrintFmt.VSnprintf | libs/printfmt.c:328-339 | returns the full length, stores exactly the first min(length, size - 1) characters and a NUL, and touches nothing else; -E_INVAL for no buffer or size 0 |
| PrintFmt.PlainText | libs/printfmt.c:124-129 | characters other than % stand for themselves |
| PrintFmt.UnknownIsLiteral | libs/printfmt.c:268-273 | an unknown escape sequence is printed literally |
| PrintFmt.ErrorFormats | libs/printfmt.c:188-200 | what the nested calls of printfmt for %e print |
| StrTol.Strtol | libs/string.c:203-259 | the number that the string starts with and where it ends, without leaving the range of a long if the number fits |
| StrTol.RoundTrip | libs/string.c:203-259 | strtol reads back every number that printnum prints in base 8, 10 or 16, padded with zeros or blanks, to its last character; padded with '-', exactly if nothing is padded, or it is -0 |
| StrTol.SignedRoundTrip | libs/printfmt.c:225-233 | for each padding that %d can have: what it prints is read back exactly if nothing is padded, or zeros are, or blanks and the number is not negative, or it is -0 |
| StrTol.DashExample | libs/printfmt.c:138-142 | %-2d prints 5 as -5, which is read as minus five |
| StrTol.ReadsDigits | libs/string.c:232-253 | digits after zeros read as the number they are the digits of |
| StrTol.DigitValues | libs/string.c:232-247 | digits stand for 0 to 9 and letters, small or capital, for 10 to 35; nothing else is a digit |
| StrTol.BlankReads | libs/string.c:208-211 | blanks and tabs before a number are skipped |
| StrTol.SignReads | libs/string.c:213-219 | one sign may follow, and - negates |
| FormatLaws.PrefixedReads | libs/string.c:221-230 | 0x before digits in base 16 is read in base 16 and 0; in base 0, 0 announces base 8, and other digits are decimal |
| FormatLaws.ParseSequence | libs/printfmt.c:131-181 | a sequence of a padding flag, a width, l's and a conversion is read as that |
| FormatLaws.UnsignedPrints | libs/printfmt.c:236-261 | %x prints in base 16, %u in base 10 and %o in base 8, for every padding flag, width and length |
| FormatLaws.UnsignedReads | libs/printfmt.c:236-261 | strtol reads these texts back in base 16, 10 and 8 |
| FormatLaws.SignedReads | libs/printfmt.c:225-233 | the exact condition on which strtol reads back what %d prints, for every flag, width and length |
| FormatLaws.PointerReads | libs/printfmt.c:248-255 | %p prints 0x and base 16, which strtol reads in base 16 and in base 0 |
| FormatLaws.StringPrints | libs/printfmt.c:203-223 | %s prints the string, or (null), in at least as many characters as the width, padded as the flag says |
| FormatLaws.ShortenedPrints | libs/printfmt.c:164-177 | with a precision it prints at most so many characters |
| FormatLaws.StarsPrint | libs/printfmt.c:160-177 | stars take width and precision from the arguments |
| FormatLaws.CharactersPrint | libs/printfmt.c:169-188 | # shows unprintable characters as question marks; %c prints a character and %% a percent sign |
| FormatLaws.ErrorsPrint | libs/printfmt.c:17-25 | %e prints the name of each error, whichever its sign, or its number |
| FormatLaws.SequenceIsLiteral | libs/printfmt.c:268-273 | a sequence with any other conversion prints itself |
| StabSearch.StabBinsearch | kern/debug/kdebug.c:66-110 | terminates for every table, region and address, and computes Search |
| StabSearch.RoundShrinks | kern/debug/kdebug.c:71-98 | every round shrinks the region, or turns an exact match at its left end into an inexact one |
| StabSearch.SearchFinds | kern/debug/kdebug.c:25-65 | with increasing values, an entry at most addr, and none of value addr + 1 next to an exact match: left is the last entry at most addr, right is just before the next one or the end of the region |
| StabSearch.SearchExact | kern/debug/kdebug.c:83-97 | for every exact match: left is right, and right is just before the next entry or the end of the region, exactly if addr + 1 is a 32-bit number and no entry with that value is left in the region when the match is met, or that entry has the greatest value there is and comes directly behind the match |
| StabSearch.NextValueExample | kern/debug/kdebug.c:91-97 | an entry of value addr + 1 after an exact match is found instead |
| StabSearch.SearchFindsBelow | kern/debug/kdebug.c:100-109 | where all entries are above addr the region before the first is returned, not an empty one |
| StabSearch.SearchFindsNone | kern/debug/kdebug.c:100-102 | without an entry of the type the region is empty |

## Left out

- Boot code, drivers, interrupt entry, scheduling and user interface: no invariant of the kind treated here.
- Interrupt masking around slab operations: each operation is one atomic step.
- The flags of struct Page: the tests of PG_slab do nothing.
- buddy_init: see above; the check functions and print routines are left out as well.
- BuddyPmm.Buddy.FreePages: neither alignment of blocks nor complete coalescing is claimed, because the code ensures neither; n must be below 2^11, as the loop of buddy_free_pages needs.
- SlabLayout.CacheEstimate: orders above 10, and on-slab objects of 2^32 - 4 bytes or more, where the divisor overflows; init_kmem_cache asks for neither.
- The lists of slabs: sequences of slabs, in the order of the lists, instead of rings of pointers, which list.dfy treats. list_del is removal from whichever list the slab is on.
- The page links of slab pages: SET_PAGE_CACHE and SET_PAGE_SLAB share their words with the links of the buddy lists. The model keeps them apart; it proves that pages of slabs are on no buddy list.
- The contents of objects: the slab_t and bufctl of a slab are objects of the model, at an address that is proved to be clear of all others.
- SlabAlloc.SlabAllocator.SlabAllocated: the sum does not wrap around, being bounded by the memory there is.
- rb_tree_create: the ways out when kmalloc fails. rb_tree_destroy and the accessors rb_node_root, rb_node_left and rb_node_right are one field access each.
- The comparison functions of the tree are functions of the two nodes, not of memory that changes meanwhile.
- Pmm.Machine.PageInsert: pages in the window of the self-map, as for PageRemove; only the directory in use is followed for cached translations, since the kernel has one; large pages and paging-structure caches do not occur.
- Pmm.Machine.MapPhysicalMemory: ranges that meet the window of the self-map; the temporary sharing of a table between two directory entries in kern/mm/pmm.c:196, which ends before the functions above are used again.
- Pmm.Machine.PageRemove: pages in the window of the self-map, whose table entries are directory entries: what WindowWrite proves of them is that other translations change.
- Vmm.MapFault: addresses in that window, as areas of user memory never lie there.
- Vmm.DoPgfault: permitted accesses to addresses in that window.
- VmaList.Mm.Destroy: what kfree does with the areas is the business of slab.dfy.
- PrintFmt.VPrintFmt: arguments are typed; a missing or unfit one, the least 64-bit number for %d and the least 32-bit one for %e are undefined in C and end the model. Widths and precisions in a format stay below 2^31.
- StrTol.Strtol: numbers outside the range of a long, where the code overflows.
