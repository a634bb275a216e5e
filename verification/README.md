# Verified models of emulator core algorithms

Dafny models of the hardest parts of an Android system emulator based on QEMU, and proofs about them. `dafny verify dfyconfig.toml` checks everything.

| file | what it models |
|---|---|
| `KvmSlots.dfy` | the fixed table of KVM memory slots and the splitter that overrides a range |
| `RamMigration.dfy`, `RamRestore.dfy`, `RamFlat.dfy`, `RamDevice.dfy` | live migration of guest RAM: saver, loaders of both versions, and their imperative forms |
| `RedBlack.dfy`, `RbMemory.dfy`, `RbInsert.dfy`, `RbRemove.dfy` | red-black trees with parent pointers |
| `Splay.dfy` | top-down splay trees |
| `Chains.dfy`, `TbCache.dfy`, `TbExec.dfy` | the translation-block cache: hash chains, page lists, circular jump lists, jump caches, lookup, chaining |
| `CodeBitmap.dfy` | self-modifying code: code bitmaps, the invalidating walk and the fast path |
| `Tlb.dfy` | the software TLB, large pages, and dirty and code tracking over the block cache |
| `JumpCache.dfy` | agreement of jump caches, chained jumps and TLB with the guest's page tables |
| `FreshCode.dfy` | self-modifying code end to end: only current translations are run |
| `Aio.dfy`, `AioRuns.dfy` | the thread-pool AIO protocol, as a state machine over its critical sections, and its runs |
| `VmState.dfy`, `VmCompat.dfy`, `VmStateIo.dfy` | versioned device state: recursive save and load with subsections, wire format, older versions |
| `QemuFile.dfy` | buffered writer and reader |
| `ByteIo.dfy`, `Multiwrite.dfy`, `Completion.dfy` | byte access on sectors, merging of writes, completion of a batch |
| `Timers.dfy` | sorted timer lists |
| `RamBlocks.dfy` | the RAM block allocator and its lookup hint |
| `SearchTrees.dfy`, `Machine.dfy`, `Bytes.dfy`, `Sets.dfy` | shared definitions |

Linked structures are modelled as maps from pointers to nodes or to one field, so that pointer writes, null pointers, tag bits and sharing are explicit; pointer 0 is null. Ghost fields say what the pointers mean (a tree, a list, a ring), and every method keeps them in agreement. Operations that change state are methods of classes; what they compute is stated through functions and predicates on values, about which the lemmas are proved.

Parameters stand for what the model cannot see: guest writes and the rate limit of a save, the answers of stream backends and their short reads, drivers that merge across gaps, what timer callbacks do, the guest's page tables, the size of translated blocks and whether the block table is full.

## Where the code does not do what it seems to

- On KVM versions that cannot join slots, `kvm_set_phys_mem` registers a slot that leads the new range again as it was, whatever memory the caller asked for. `KvmSlots.KvmState.SetPhysMem` gives the exact condition under which the range is still overridden, `KvmSlots.SparedWrong` an input for which it is not.
- `kvm_set_phys_mem` computes the ends of ranges in 64 bits, so a range that ends at 2^64 ends at 0 for it. `KvmSlots.KvmState.SetPhysMem` proves that such a call either aborts, or removes memory where there was none, or leaves the RAM unmapped; `KvmSlots.EndWraps` is an input that returns with a page unmapped.
- `multiwrite_merge` drops the end of a request that reaches past a later one it is merged with. `Multiwrite.MergeExact` and `Multiwrite.MergeExactAll` give the exact conditions under which nothing is lost, `Multiwrite.TailLost` an input that loses data.
- `tlb_reset_dirty_range_all` rounds the start of a range down but passes the length on unchanged. `Tlb.ResetSound` gives the exact condition under which all pages of the range are reached; page-aligned starts meet it, `Tlb.UnalignedReset` is an input that does not and the table it leaves.
- `tlb_set_dirty` lets stores through in all modes. `Tlb.Memory.SetDirty` gives the exact condition under which no store to a clean page is let through, `Tlb.TwoModes` a table for which it fails and what it turns into.
- The not-dirty handlers for two and four bytes invalidate code for one byte only. `CodeBitmap.WideStore` gives the exact condition under which that is enough, `CodeBitmap.WideStoreMisses` an input for which it is not. `Tlb.Memory.NotDirtyWrite` is the byte handler.
- `vmstate_subsection_load` tells subsections from other data by looking at the bytes that follow. `VmState.RoundTripIff` gives the exact condition at the end of a description, `VmState.StructNeedsCare` an input for which a structure among the fields makes loading fail.
- A timer armed with a negative deadline goes before those already armed for time 0. `Timers.ArmingOrder` says exactly when timers with equal deadlines stand in arming order, `Timers.Overtaken` is an input for which they do not.
- The comment on `bdrv_aio_multiwrite` says that in the error case some requests may have been submitted. The code returns -1 only if none was; later failures are reported through the callbacks. The model follows the code.
- The comment on `tb_add_jump` says its test is only needed for thread safety. In the model, without threads, the test also keeps a jump that is already chained from being put on a second list.
- `SPLAY_REMOVE` returns the element it was given, not the node it took out of the tree.

## Model

| member | source | states |
|---|---|---|
| KvmSlots.KvmState.AllocSlot | GemDroid_QEMU/kvm-all.c:73-87 | the first slot that is empty and not one of the private slots 8 to 11; failure exactly when none is left |
| KvmSlots.KvmState.LookupOverlapping | GemDroid_QEMU/kvm-all.c:108-144 | a slot overlapping the range with the lowest start of all that do, or -1 exactly when none does |
| KvmSlots.KvmState.Register | GemDroid_QEMU/kvm-all.c:814-826 | adds exactly one mapping and uses one free slot; aborts exactly when none is free or KVM refuses the slot |
| KvmSlots.KvmState.Unregister | GemDroid_QEMU/kvm-all.c:729-738 | removes exactly one mapping and frees its slot |
| KvmSlots.KvmState.Split | GemDroid_QEMU/kvm-all.c:729-803 | takes one overlapping slot apart: what sticks out on either side stays mapped as before, the overlap goes, no other overlapping slot changes; it aborts exactly when the slot sticks out on both sides and no slot is free. For a range that ends at 2^64 the sum wraps: it aborts or leaves a slot that reaches from address 0 into the range |
| KvmSlots.KvmState.Keep | GemDroid_QEMU/kvm-all.c:748-762 | a slot registered again may move in the table; the slots in use and the number of free ones stay the same |
| KvmSlots.KvmState.ClearRange | GemDroid_QEMU/kvm-all.c:715-804 | the loop ends, also when the workaround for older KVM versions moves the start of the range on over the slots that lead it and when the end of the range wraps; below 2^64 nothing outside what is left of the range changes and inside it nothing is mapped any more, or one slot already maps all of it as asked |
| KvmSlots.KvmState.SetPhysMem | GemDroid_QEMU/kvm-all.c:691-826 | slots stay pairwise disjoint; the range is memory exactly if the low 12 bits of the RAM offset are below 16, and the offset registered is the one given without bit 3. For ranges below 2^64 the slot map becomes the old one overridden on the range, removed there for non-memory, except for the slots spared by the workaround, at most two more slots are used, and two free ones are enough. A call that returns has overridden the whole range if and only if it removes memory, or the range ends below 2^64 and the workaround is off or the spared slots already held the right memory. Unaligned ranges change nothing and are accepted only for non-memory over no slot. Memory that one slot already holds with the same displacement changes nothing |
| KvmSlots.KeptRightMeans | GemDroid_QEMU/kvm-all.c:740-768 | the spared slots, a chain found from the start of the range, hold the offsets asked for exactly when the map is right on all spared addresses |
| KvmSlots.OverrideSpared | GemDroid_QEMU/kvm-all.c:740-768 | overriding the rest of the range overrides the whole range if and only if the spared slots were right |
| KvmSlots.SparedWrong | GemDroid_QEMU/kvm-all.c:748-768 | two pages put over one page of other memory: every table the call can end with still maps the first page as before, so the range is not overridden |
| KvmSlots.EndWraps | GemDroid_QEMU/kvm-all.c:721-723 | a range that ends at 2^64 passes for a part of a slot that holds only half of it, and the call leaves the other half unmapped |
| KvmSlots.TopUnmapped | GemDroid_QEMU/kvm-all.c:814-826 | whatever the table, a range of RAM that ends at 2^64 is not in place |
| KvmSlots.RefusedMeans | GemDroid_QEMU/kvm-all.c:146-159 | KVM takes a slot exactly when it ends below 2^64 and nothing is mapped where it goes |
| RamDevice.IsDupPage | GemDroid_QEMU/arch_init.c:98-111 | true exactly for pages of one repeated byte |
| RamDevice.Saver.FindDirty | GemDroid_QEMU/arch_init.c:123-173 | the scan that starts at the cursor and wraps finds what the scan function finds |
| RamDevice.Saver.SendPage | GemDroid_QEMU/arch_init.c:129-161 | clears one dirty bit, moves the cursor, and writes the record of that page |
| RamDevice.Saver.SaveBlock | GemDroid_QEMU/arch_init.c:116-179 | refines RamMigration.SaveBlock; 0 is returned exactly when nothing was written |
| RamDevice.Saver.MarkAllDirty | GemDroid_QEMU/arch_init.c:280-290 | every page of every block is dirty afterwards |
| RamDevice.Saver.WriteAnnounce | GemDroid_QEMU/arch_init.c:295-301 | writes the total size and the name and size of every block |
| RamDevice.Saver.SendSome | GemDroid_QEMU/arch_init.c:307-315 | refines the rate-limited loop for any number of records let through |
| RamDevice.Saver.SendRest | GemDroid_QEMU/arch_init.c:327-335 | refines the last stage; it ends because every turn clears a dirty bit |
| RamDevice.Saver.SaveLive | GemDroid_QEMU/arch_init.c:256-342 | refines all three stages of a save |
| RamDevice.Saver.Write | GemDroid_QEMU/exec.c:1450-1465 | the page holds the data afterwards and is marked dirty; nothing else changes |
| RamDevice.Loader.Check | GemDroid_QEMU/arch_init.c:394-425 | accepts an announcement exactly when names and sizes match, ending exactly at the total |
| RamDevice.Loader.Read | GemDroid_QEMU/arch_init.c:384-458 | one record, or a failure that leaves the memory alone |
| RamDevice.Loader.ReadFlat | GemDroid_QEMU/arch_init.c:384-458 | one record of version 4, which finds its page by RAM address, or a failure that leaves the memory alone; RamFlat.FlatYields says what a stream of them yields |
| RamDevice.Loader.RamLoad | GemDroid_QEMU/arch_init.c:374-462 | loads records up to the end mark, with names and block list in version 3 and without in version 4; rejects versions below 3 and above 4 |
| RamMigration.ScanResult | GemDroid_QEMU/arch_init.c:123-173 | a found page is dirty; if none is found no page ahead of the cursor is |
| RamMigration.ScanAllEmpty | GemDroid_QEMU/arch_init.c:116-179 | the scan comes up empty if and only if no page is dirty |
| RamMigration.SaveBlockWf | GemDroid_QEMU/arch_init.c:116-179 | writes nothing if and only if all pages are clean; otherwise the dirty set shrinks |
| RamMigration.SortBlocksResult | GemDroid_QEMU/arch_init.c:223-254 | the sorted block list is ordered by offset and a permutation of the old one |
| RamMigration.SortKeepsWf | GemDroid_QEMU/arch_init.c:235-254 | sorting keeps the blocks well formed and the same |
| RamMigration.BeginWf | GemDroid_QEMU/arch_init.c:273-290 | after the first stage has begun the remembered block is never null, whatever the cursor was |
| RamMigration.SaveSomeWf | GemDroid_QEMU/arch_init.c:307-315 | the loop keeps blocks, memory and the cursor invariant |
| RamMigration.SaveRestWf | GemDroid_QEMU/arch_init.c:327-335 | after the last stage no page is dirty |
| RamMigration.StageProgress | GemDroid_QEMU/arch_init.c:256-342 | how many pages are still to be sent after each stage: all but n of the RAM after the first, n fewer than before after a middle one, none after the last |
| RamRestore.CheckBlocksOf | GemDroid_QEMU/arch_init.c:394-425 | an announced list is accepted, and exactly it is read, if the destination has every block at its size; with an unknown name or another size it is refused |
| RamRestore.ReadAnnounce | GemDroid_QEMU/arch_init.c:384-425 | the announcement record changes nothing at the destination, and fails exactly if a block is missing there or has another size |
| RamRestore.HostBlockOf | GemDroid_QEMU/arch_init.c:344-372 | the block the loader remembers is the one the saver left out of the record |
| RamRestore.ReadRecordOf | GemDroid_QEMU/arch_init.c:426-455 | reading back a page record, repeated byte or full page, stores exactly the source page |
| RamRestore.ReplaySaveBlock | GemDroid_QEMU/arch_init.c:116-179 | each page stays dirty or equal to its value after replaying the stream so far, and only the page sent changes at the destination |
| RamRestore.ReplaySaveRest | GemDroid_QEMU/arch_init.c:327-335 | the same over the last loop |
| RamRestore.ReplaySaveLive | GemDroid_QEMU/arch_init.c:256-462 | each stage's stream loads completely and keeps source and destination in step; only pages that were sent change at the destination; after the last one memories are equal |
| RamRestore.GuestWriteKeeps | GemDroid_QEMU/exec.c:1450-1465 | guest writes between stages keep source and destination in step |
| RamRestore.RunKeepsSynced | GemDroid_QEMU/arch_init.c:256-462 | over every interleaving of guest writes and saves the loader succeeds, each page is dirty or equal, the source holds what the guest stored last, and blocks that the source does not have are untouched |
| RamRestore.MigrationCorrect | GemDroid_QEMU/arch_init.c:256-462 | first stage, any guest writes and middle stages, last stage: the migration succeeds if and only if the destination has the source's blocks at their sizes, and then every page at the destination is what the guest stored there last, or what it was at the start |
| RamFlat.LoadFlatIs | GemDroid_QEMU/arch_init.c:384-458 | a version-4 stream is loaded exactly when it parses and every page in it has a place in RAM; then its pages are put in their places in stream order |
| RamFlat.FlatYields | GemDroid_QEMU/arch_init.c:426-455 | the memory that a version-4 stream yields: the same blocks and sizes, at every place the page of the last record for it, and the old page where there is none |
| RamFlat.ParseBack | GemDroid_QEMU/arch_init.c:384-458 | for any pages at any RAM addresses, repeats included, there is a version-4 stream that holds just them: encoding them and parsing gives them back |
| RamFlat.FlatAlike | GemDroid_QEMU/arch_init.c:426-455 | a record that is not a block list is read alike in both versions if it holds no page, or goes on with the last block and that block lies at the same page numbers in RAM |
| RbMemory.Head.Rotate | GemDroid_QEMU/sys-tree.h:346-384 | a rotation, in either direction, on nodes with parent links: the tree in memory is the rotated tree and all links agree |
| RedBlack.RotateInOrder | GemDroid_QEMU/sys-tree.h:346-384 | a rotation keeps the in-order sequence |
| RbInsert.InsertColor | GemDroid_QEMU/sys-tree.h:411-453 | repairs a red node under a red parent: root black, no red-red, equal black counts, same order |
| RbInsert.Insert | GemDroid_QEMU/sys-tree.h:600-629 | search order, colours, black counts and parent links are kept; the tree gains exactly the element, or the equal one already there is returned and nothing changes |
| RbRemove.RemoveColor | GemDroid_QEMU/sys-tree.h:455-531 | repairs a path one black node short: all red-black conditions hold again, same order |
| RbRemove.Successor | GemDroid_QEMU/sys-tree.h:543-546 | finds the first node in order of the right subtree, whose left pointer is null |
| RbRemove.Splice | GemDroid_QEMU/sys-tree.h:584-593 | bypasses a node with at most one child |
| RbRemove.Substitute | GemDroid_QEMU/sys-tree.h:562-573 | puts the successor in the place of the removed node, in all links |
| RbRemove.RemoveShallow | GemDroid_QEMU/sys-tree.h:536-598 | the case of a missing child keeps the order of the rest and all conditions |
| RbRemove.RemoveDeep | GemDroid_QEMU/sys-tree.h:542-598 | the case of two children keeps the order of the rest and all conditions |
| RbRemove.Remove | GemDroid_QEMU/sys-tree.h:533-598 | the tree loses exactly the element and all conditions hold |
| RedBlack.HeightBound | GemDroid_QEMU/sys-tree.h:57-65 | height is at most twice the black height, and the black height logarithmic in the size |
| RedBlack.HeightLogarithmic | GemDroid_QEMU/sys-tree.h:65 | height is at most 2 lg(n+1), stated as 2^height <= (n+1)^2 |
| Splay.Head.Rotate | GemDroid_QEMU/sys-tree.h:92-102 | keeps the order and the search state while splaying |
| Splay.Head.CutOff | GemDroid_QEMU/sys-tree.h:104-114 | moves one subtree to a side tree; what is left is smaller |
| Splay.Head.SplayTo | GemDroid_QEMU/sys-tree.h:213-246 | ends, keeps the in-order sequence, and brings the key or an in-order neighbour to the root; the way to every node on the search path is halved, but for two steps |
| Splay.ClosestFinds | GemDroid_QEMU/sys-tree.h:213-246 | if the key is in the tree, it is at the root after splaying |
| Splay.ClosestMissing | GemDroid_QEMU/sys-tree.h:213-246 | if another key is at the root, the key is not in the tree |
| Splay.Head.Insert | GemDroid_QEMU/sys-tree.h:167-190 | set insertion, with the equal element returned if there is one |
| Splay.Head.Remove | GemDroid_QEMU/sys-tree.h:192-211 | set deletion of the element with that key; the pointer passed in is returned, not the stored node |
| Splay.AssembledOrder | GemDroid_QEMU/sys-tree.h:116-121 | assembling the side trees gives back the sequence |
| TbCache.TbContext.HashRemove | GemDroid_QEMU/translate-all.c:815-827 | the block's chain without it, all other chains as before |
| TbCache.TbContext.PageRemove | GemDroid_QEMU/translate-all.c:829-844 | the first reference to the block leaves the page's list, whichever of its two it is |
| TbCache.TbContext.JmpRemove | GemDroid_QEMU/translate-all.c:846-873 | an outgoing jump leaves the circular list it is on, also when it leads to its own block |
| TbCache.TbContext.Drain | GemDroid_QEMU/translate-all.c:923-936 | every jump on the block's list is reset and unlinked, the list is the block alone |
| TbCache.TbContext.UnlistPages | GemDroid_QEMU/translate-all.c:896-906 | both pages' lists lose exactly the block, also when both are the same page, and lose their bitmaps |
| TbCache.TbContext.ClearCaches | GemDroid_QEMU/translate-all.c:910-917 | the CPUs' jump caches lose exactly the block |
| TbCache.TbContext.CutJumps | GemDroid_QEMU/translate-all.c:919-936 | the block is on no other block's list, exactly the jumps chained to it are reset, all other circular lists keep their order |
| TbCache.TbContext.Withdraw | GemDroid_QEMU/translate-all.c:891-917 | hash chain, page lists and jump caches together |
| TbCache.TbContext.Invalidate | GemDroid_QEMU/translate-all.c:883-939 | the block is in no chain, page list or jump cache and on no jump list; every jump of another block that led to it is reset; all other memberships are unchanged and every invariant holds |
| TbCache.Detach | GemDroid_QEMU/translate-all.c:846-873 | taking one jump off its target's circular list keeps every other list |
| TbCache.Attach | GemDroid_QEMU/include/exec/exec-all.h:313-325 | chaining a jump keeps every circular list |
| TbCache.Cut | GemDroid_QEMU/translate-all.c:923-936 | draining one list keeps all others |
| TbExec.AddJump | GemDroid_QEMU/include/exec/exec-all.h:313-325 | chains an unchained jump at the front of its target's list, leaves a chained one alone |
| TbExec.AllocPage | GemDroid_QEMU/translate-all.c:1291-1344 | the reference heads its page's list, the bitmap goes, the page is watched if it had no code |
| TbExec.Link | GemDroid_QEMU/translate-all.c:1351-1390 | a new block is in exactly its chain, its pages' lists and its own circular list |
| TbExec.Flush | GemDroid_QEMU/translate-all.c:743-772 | no block is left in any structure |
| TbExec.GenCode | GemDroid_QEMU/translate-all.c:997-1034 | the new block, in a flushed cache when the table is full, with the flag set that says so |
| TbExec.Walk | GemDroid_QEMU/cpu-exec.c:157-177 | finds the first block on the chain that fits, or the last link |
| TbExec.Decided | GemDroid_QEMU/cpu-exec.c:157-181 | the chain walk finds a block if and only if some live block fits |
| TbExec.MoveToFront | GemDroid_QEMU/cpu-exec.c:184-188 | the found block heads its chain, the others keep their order |
| TbExec.Promote | GemDroid_QEMU/cpu-exec.c:183-188 | with the link re-read after translation, in all cases the chains stay exact |
| TbExec.FindSlow | GemDroid_QEMU/cpu-exec.c:140-194 | returns a live block that fits, an old one if there is one and else a new one, and moves it to the head of its hash chain; the new one has the given size, and a second page, the one behind, exactly if its code runs on to it; fills one jump-cache entry; keeps every invariant, the sizes that invalidation relies on among them |
| TbExec.FindFast | GemDroid_QEMU/cpu-exec.c:196-214 | the block has the right key; a hit in the jump cache changes nothing; it is also at the right place if the jump cache agrees with the translation, which JumpCache.Agreed says and JumpCache.FindFast proves |
| TbExec.NextBlock | GemDroid_QEMU/cpu-exec.c:593-632 | the previous exit is chained only while its block still exists, and if nothing was flushed an open one is chained to the block found; every chained jump leads to a live block; the sizes that invalidation relies on are kept |
| CodeBitmap.SetBits | GemDroid_QEMU/translate-all.c:941-966 | sets exactly the bits of the range, over masked and whole bytes |
| CodeBitmap.BuildBitmap | GemDroid_QEMU/translate-all.c:968-995 | the bitmap marks exactly the bytes covered by the page's blocks |
| CodeBitmap.OverlapHits | GemDroid_QEMU/translate-all.c:1098-1107 | on the page of the store the overlap test finds exactly the blocks with a byte in the range |
| CodeBitmap.WalkPage | GemDroid_QEMU/translate-all.c:1093-1155 | removes exactly the blocks whose references overlap, reading the list while it changes |
| CodeBitmap.Count | GemDroid_QEMU/translate-all.c:1082-1087 | a page without a bitmap gets one at a store by a CPU once ten stores, by CPUs or devices, have been counted; until then only its counter changes |
| CodeBitmap.InvalidateRange | GemDroid_QEMU/translate-all.c:1060-1166 | removes exactly the live blocks with a byte in the range on this page; a page with no code left keeps no bitmap, and is unwatched exactly if a CPU stores to it |
| CodeBitmap.InvalidateSpan | GemDroid_QEMU/translate-all.c:1043-1051 | over several pages, removes exactly the live blocks with a byte in the range |
| CodeBitmap.LowMask | GemDroid_QEMU/translate-all.c:1200-1203 | the fast test sees exactly the bits of an aligned store of 1, 2, 4 or 8 bytes |
| CodeBitmap.InvalidateFast | GemDroid_QEMU/translate-all.c:1180-1208 | leaves the same live blocks as the range walk, with or without a bitmap |
| CodeBitmap.WideStore | GemDroid_QEMU/exec.c:1467-1499 | the two- and four-byte handlers pass length 1: all overwritten blocks go if and only if no live block's code begins inside the store after its first byte |
| CodeBitmap.WideStoreMisses | GemDroid_QEMU/exec.c:1484-1499 | an input for which a block survives a four-byte store over it |
| Tlb.IndexSpread | GemDroid_QEMU/cputlb.c:111 | the 256 pages of a megabyte have TLB entries of their own |
| Tlb.Memory.Flush | GemDroid_QEMU/cputlb.c:50-74 | all entries of the CPU are empty, its jump cache too, and no large page is remembered |
| Tlb.Memory.FlushPage | GemDroid_QEMU/cputlb.c:88-117 | no entry of the CPU in any mode is left whose page, large or small, contains the address; outside the region of large pages only entries for that page go; the jump cache loses the entries blocks on the page can be in; nothing else is lost without a full flush |
| Tlb.Memory.FlushJumps | GemDroid_QEMU/translate-all.c:1562-1575 | exactly the entries for the page and for the page before it are cleared |
| Tlb.Widen | GemDroid_QEMU/cputlb.c:211-213 | the widening loop ends with a mask both addresses agree under |
| Tlb.Extend | GemDroid_QEMU/cputlb.c:197-216 | the one region covers the old large pages and the new one |
| Tlb.Memory.AddLargePage | GemDroid_QEMU/cputlb.c:197-216 | the region covers every large page installed since the last full flush |
| Tlb.InRegion | GemDroid_QEMU/cputlb.c:97-104 | an address in any remembered large page passes the region test |
| Tlb.Memory.SetPage | GemDroid_QEMU/cputlb.c:221-320 | writes one entry, which leads to the host memory of the page; stores go untrapped exactly to RAM with all dirty bits set and no watchpoint, and are trapped for tracking exactly to clean RAM; loads go straight to memory exactly if the page is not I/O and has no watchpoint |
| Tlb.Memory.SetDirty | GemDroid_QEMU/cputlb.c:183-193 | stores to the virtual page go untrapped again in all modes; the tracking invariant holds afterwards if and only if no mode maps it to a page that is clean |
| Tlb.TwoModes | GemDroid_QEMU/cputlb.c:183-193 | a TLB that can be, with an entry at every place, in which two modes map one virtual page to different RAM pages: every store to a clean page traps before tlb_set_dirty and one no longer does after it |
| Tlb.Memory.ResetTable | GemDroid_QEMU/cputlb.c:154-172 | every CPU's entries for the host range trap |
| Tlb.ResetKeeps | GemDroid_QEMU/exec.c:526-549 | clearing bits of a range leaves no untrapped store to a clean page if and only if no entry is missed; none is when the length rounds up to the pages touched |
| Tlb.ResetSound | GemDroid_QEMU/exec.c:526-549 | that holds for every table a memory with the given CPUs can have if and only if the length alone rounds up to as many pages as the range touches, as it does for aligned starts |
| Tlb.ResetMisses | GemDroid_QEMU/exec.c:526-549 | otherwise an entry for the last page stays untrapped while the page is clean |
| Tlb.UnalignedReset | GemDroid_QEMU/exec.c:526-549 | two bytes from address 4095 on: some table that a memory can have is left with an untrapped store to the clean page 1 |
| Tlb.Memory.ResetDirty | GemDroid_QEMU/exec.c:539-549 | clears exactly the bits of the pages touched; the tracking invariant holds afterwards if and only if no entry is missed, as for aligned starts |
| Tlb.Memory.ProtectCode | GemDroid_QEMU/cputlb.c:121-125 | stores to the page trap from now on |
| Tlb.Memory.LinkBlock | GemDroid_QEMU/translate-all.c:1351-1390 | linking a block protects each page that had no code, so the invariants of cache and TLB hold together |
| Tlb.Memory.NotDirtyWrite | GemDroid_QEMU/exec.c:1450-1465 | a trapped byte store removes exactly the blocks holding the byte, sets the display and migration bits, and untraps the page only when no bit is clear; the tracking invariant holds afterwards if and only if the page is still clean or no mode maps the virtual page to another clean page |
| Tlb.Memory.InvalidateAndSetDirty | GemDroid_QEMU/exec.c:1887-1897 | a device store removes exactly the blocks it hits and sets both bits |
| Tlb.StoreSafe | GemDroid_QEMU/cputlb.c:306-320 | in every state an untrapped store goes to a page with all dirty bits set and no translated code |
| JumpCache.SlotOnPage | GemDroid_QEMU/include/exec/exec-all.h:210-223 | all addresses of a page have their jump-cache entries among the 64 that a flush of the page clears |
| JumpCache.SlotSpread | GemDroid_QEMU/include/exec/exec-all.h:210-223 | addresses in one run of 64 bytes of a page never share a jump-cache entry |
| JumpCache.Start | GemDroid_QEMU/cputlb.c:50-74 | empty caches agree with any page tables |
| JumpCache.Flush | GemDroid_QEMU/cputlb.c:50-74 | after a full flush the jump caches and code entries of all CPUs agree with their page tables, however the flushed CPU's have changed, and chained jumps still stay in their page |
| JumpCache.FlushPage | GemDroid_QEMU/cputlb.c:88-117 | the same after a page flush, when the page tables have changed only within the mapping, large or small, that the address is in |
| JumpCache.MapMore | GemDroid_QEMU/cputlb.c:88-117 | mapping what was not mapped needs no flush |
| JumpCache.SetPage | GemDroid_QEMU/cputlb.c:221-320 | a new code entry that is what the page tables say keeps agreement |
| JumpCache.PageAddrCode | GemDroid_QEMU/cputlb.c:325-346 | through the TLB, filled on a miss and left alone on a hit, the RAM page that the page tables give |
| JumpCache.FindSlow | GemDroid_QEMU/cpu-exec.c:140-194 | the block found or made has its code where the address leads now, a new one has the given size and a second page exactly if it runs on to it, all jump caches and the TLB still agree with the page tables, and pages with new code trap stores |
| JumpCache.FindFast | GemDroid_QEMU/cpu-exec.c:196-214 | the same through the jump cache, which is looked up by virtual address alone and left alone on a hit |
| JumpCache.NextBlock | GemDroid_QEMU/cpu-exec.c:592-632 | one turn of the execution loop keeps the agreement of caches, code entries and chained jumps: the next block is where the address leads now, and the jump chained to it leads to the code of its own page; an open exit is chained to that very block when nothing was flushed |
| JumpCache.JumpsLead | GemDroid_QEMU/target-arm/translate.c:3510-3523 | however many chained jumps are taken from a block whose code is where its address leads now, without looking at any table, every block they come to is live and its code is where its own address leads now |
| JumpCache.NotDirtyWrite | GemDroid_QEMU/exec.c:1450-1465 | a trapped store keeps agreement, that of chained jumps included |
| JumpCache.DeviceStore | GemDroid_QEMU/exec.c:1887-1897 | so does a store by a device |
| FreshCode.StoreByte | GemDroid_QEMU/exec.c:1450-1465 | a byte stored by the guest, trapped or not, leaves every live block a translation of what its pages hold |
| FreshCode.DeviceStore | GemDroid_QEMU/exec.c:1887-1897 | so does a store by a device |
| FreshCode.NextBlock | GemDroid_QEMU/cpu-exec.c:592-632 | the block about to run was translated from exactly the bytes that its address leads to now, by the page tables and the memory as they are now |
| FreshCode.ChainsRunCurrent | GemDroid_QEMU/target-arm/translate.c:3510-3523 | and so was every block that any number of chained jumps leads to from there |
| Aio.SubmitKeeps | GemDroid_QEMU/posix-aio-compat.c:384-394 | submission keeps the invariant, spawning a worker when none is idle |
| Aio.CheckKeeps | GemDroid_QEMU/posix-aio-compat.c:322-334 | a worker's look at the list, taking a request, waiting or leaving, keeps it |
| Aio.FinishKeeps | GemDroid_QEMU/posix-aio-compat.c:353-356 | so does finishing a request |
| Aio.CancelKeeps | GemDroid_QEMU/posix-aio-compat.c:537-561 | so does cancelling one, queued, running or finished |
| Aio.SpinKeeps | GemDroid_QEMU/posix-aio-compat.c:553-560 | so does the wait for a running one |
| Aio.ProcessKeeps | GemDroid_QEMU/posix-aio-compat.c:434-467 | so does completing one |
| AioRuns.ProcessCalls | GemDroid_QEMU/posix-aio-compat.c:434-467 | a request of the context that has ended leaves the list and is called back, unless it was cancelled: 0 for a full transfer, -EINVAL for a short one, the error for a failed one; any other request is left alone |
| Aio.StepKeeps | GemDroid_QEMU/posix-aio-compat.c:304-561 | every step keeps: queued means outstanding and not taken, taken and unfinished means served by exactly one worker, counters count, no request lost |
| AioRuns.RunKeeps | GemDroid_QEMU/posix-aio-compat.c:304-561 | the same over every schedule |
| AioRuns.TruthTold | GemDroid_QEMU/posix-aio-compat.c:304-471 | over all schedules, by the steps alone: for every callback there are a submission, a later report by a worker that was serving the request, and a later processing in the context of the submission; the callback is told 0 if the report is the size submitted, -EINVAL if it is another non-negative number, and the report if it is negative |
| AioRuns.Fifo | GemDroid_QEMU/posix-aio-compat.c:326-334 | over all schedules requests wait and are taken in the order of submission; the list of outstanding ones has the newest first |
| AioRuns.Threads | GemDroid_QEMU/posix-aio-compat.c:384-394 | a thread is made exactly when none is idle and there are fewer than 64, and leaves exactly when it has timed out with nothing to do |
| AioRuns.CancelNow | GemDroid_QEMU/posix-aio-compat.c:537-561 | a request that waits or has ended is cancelled at once; for one being served the main thread waits |
| AioRuns.NeverAfterCancel | GemDroid_QEMU/posix-aio-compat.c:537-561 | over all schedules a request that was cancelled is never called back |
| AioRuns.NoneStuck | GemDroid_QEMU/posix-aio-compat.c:304-561 | from every reachable state, whatever results the workers come to, there is a way on without new submissions or cancellations after which every request has been called back, cancelled or reported as cancelled |
| AioRuns.WalkRuns | GemDroid_QEMU/posix-aio-compat.c:427-471 | the walk over the list is a run of the protocol: cancelled requests go, the first that has ended goes and is called back, with the list that the walk leaves |
| AioRuns.Protocol | GemDroid_QEMU/posix-aio-compat.c:304-561 | over all schedules: no callback twice or after cancel, a queued request is exactly an outstanding inactive one, 0 <= idle <= threads <= 64, a waiting request has a worker |
| Aio.Outstanding.Add | GemDroid_QEMU/posix-aio-compat.c:589-590 | the request heads the list |
| Aio.Outstanding.Remove | GemDroid_QEMU/posix-aio-compat.c:518-535 | the list without the request, or not found |
| Aio.Outstanding.FindDone | GemDroid_QEMU/posix-aio-compat.c:427-471 | the walk takes the cancelled requests of the context off the list up to the first finished one, takes that off too and returns it, and leaves all others in place |
| VmState.RoundTrip | GemDroid_QEMU/savevm.c:1888-2017 | loading what was saved restores every saved field through structures, arrays and subsections, reads exactly those bytes, and changes nothing else |
| VmState.RoundTripIff | GemDroid_QEMU/savevm.c:2250-2289 | with the inner structures clear, loading stops where saving did if and only if the following bytes are not a 5, a length above that of the name, and so many bytes that begin with the name |
| VmState.ClearByNames | GemDroid_QEMU/savevm.c:2250-2289 | names that extend the parent's and do not start each other keep subsections apart |
| VmState.SiblingsClear | GemDroid_QEMU/savevm.c:2253-2273 | no subsection, however deep, takes a sibling's header for its own |
| VmState.HeaderRead | GemDroid_QEMU/savevm.c:2259-2281 | a written header is read back as its subsection and version |
| VmState.ElemsLoaded | GemDroid_QEMU/savevm.c:1937-1952 | all elements of an array field come back |
| VmCompat.RoundTripRestores | GemDroid_QEMU/savevm.c:1888-2017 | said of cells: all n elements of a fixed array come back, as many of a variable one as its count says, all bytes of a buffer, its size scaled, all structures and all needed subsections; no other cell changes |
| VmCompat.Length | GemDroid_QEMU/savevm.c:1976-2014 | a field takes up its number of elements times the length of one |
| VmCompat.Layout | GemDroid_QEMU/savevm.c:1976-2014 | element i of a field stands at i times the length of one, most significant byte first for integers |
| VmCompat.LoadOlder | GemDroid_QEMU/savevm.c:1894-1913 | a load at an older version is a load with the description of that version, without the fields that came later; versions above the current one or below the oldest supported fail with -EINVAL |
| VmCompat.OlderRestores | GemDroid_QEMU/savevm.c:1894-1955 | what an older version of a device saved is restored by a newer one, and the fields that came later stay as they are |
| VmCompat.Ended | GemDroid_QEMU/savevm.c:1937-1952 | a stream that has ended gives zeros for integers and leaves buffers as they were |
| VmState.FieldsLoaded | GemDroid_QEMU/savevm.c:1908-1955 | all fields come back, with counts and sizes read from the object being loaded |
| VmState.SubsLoaded | GemDroid_QEMU/savevm.c:2250-2289 | all needed subsections come back, whatever follows |
| VmState.EarlierCount | GemDroid_QEMU/savevm.c:1923-1933 | a count or size in an earlier unconditional integer field is known when it is needed |
| VmState.StructNeedsCare | GemDroid_QEMU/savevm.c:1943-1945 | a well-formed description and a fitting object whose saved bytes do not load, because a structure among the fields takes what follows for a subsection |
| VmState.Load | GemDroid_QEMU/savevm.c:1888-1964 | errors are negative, and the rest of the stream is never longer |
| VmState.Consumes | GemDroid_QEMU/savevm.c:2250-2289 | an announced subsection makes the loader read on |
| VmStateIo.Stream.SaveState | GemDroid_QEMU/savevm.c:1966-2017 | the loops write exactly what the save function says |
| VmStateIo.Stream.SaveSubsections | GemDroid_QEMU/savevm.c:2291-2310 | likewise for subsections |
| VmStateIo.Stream.LoadState | GemDroid_QEMU/savevm.c:1888-1964 | the loops read exactly what the load function says, with its error |
| VmStateIo.Stream.LoadSubsections | GemDroid_QEMU/savevm.c:2250-2289 | likewise for subsections; the loop ends |
| ByteIo.Device.Pread | GemDroid_QEMU/block.c:975-1018 | succeeds exactly when every touched sector can be read, and returns exactly the bytes of the range; it fails exactly if a byte lies past the end or in a bad sector |
| ByteIo.Device.Pwrite | GemDroid_QEMU/block.c:1020-1067 | succeeds exactly when every touched sector can be accessed, and changes exactly the bytes of the range; after an error nothing outside it; it fails exactly if a byte lies past the end or in a bad sector |
| ByteIo.ReadAfterWrite | GemDroid_QEMU/block.c:975-1067 | a read after a write returns the written bytes, and others as before |
| Multiwrite.ConcatTakes | GemDroid_QEMU/block.c:2138-2141 | cutting a vector of buffers keeps exactly its first bytes |
| Multiwrite.JoinData | GemDroid_QEMU/block.c:2132-2156 | what a merged request writes: the first up to the second, zeros over a gap, the second |
| Multiwrite.JoinAt | GemDroid_QEMU/block.c:2132-2156 | byte by byte, the second request wins over the first and the first over the gap |
| Multiwrite.MergeInPlace | GemDroid_QEMU/block.c:2078-2168 | the compacted array holds exactly the merged requests |
| Multiwrite.MergesAll | GemDroid_QEMU/block.c:2099-2168 | whatever can be merged is: two outputs stay apart only because of a gap that the driver would not merge or because they would have more than 1024 buffers together; gaps are filled only where the driver asked; no request gets more than 1024 buffers if none had |
| Multiwrite.MergeKeeps | GemDroid_QEMU/block.c:2078-2168 | the merged requests leave the disk as the sorted originals do; only gaps the driver merged across are zeroed, and no original writes there |
| Multiwrite.MergeExact | GemDroid_QEMU/block.c:2078-2168 | without gap merging and with few buffers, the merged requests leave every disk the same if and only if every tail reaching past a later request is written again by a request after that one |
| Multiwrite.MergeExactAll | GemDroid_QEMU/block.c:2078-2168 | for every batch, however many buffers, and every driver that decides by place and size: the disk is the same for all disks and contents if and only if nothing was merged across a gap and every tail cut off by a merge that took place is written again |
| Multiwrite.Traced | GemDroid_QEMU/block.c:2110-2165 | where each byte of the merged requests comes from: the disk, a filled gap, or one of the requests |
| Multiwrite.SourcesExact | GemDroid_QEMU/block.c:2110-2165 | every byte comes from the last request that writes it, or the disk, if and only if that condition holds |
| Multiwrite.EndsInOrder | GemDroid_QEMU/block.c:2078-2168 | ends in non-decreasing order suffice |
| Multiwrite.TailLost | GemDroid_QEMU/block.c:2138-2141 | two writes whose merged form leaves some disk different: the tail of the long one is lost, also for a driver that never merges gaps |
| Completion.StepKeeps | GemDroid_QEMU/block.c:2063-2076 | no event finds the structure freed; the counter is what is in flight plus the dummy |
| Completion.CallbacksOnce | GemDroid_QEMU/block.c:2049-2257 | over every run the callbacks run at most once, exactly when the submit loop has ended and all parts are complete, with the first error; never after a failed first submission |
| Completion.CallbacksTold | GemDroid_QEMU/block.c:2049-2257 | by the events alone: a batch is refused exactly if its first submission fails; otherwise the callbacks are told the first negative result among the completions, a submission that failed counting as -EIO |
| Completion.NoDeadlock | GemDroid_QEMU/block.c:2184-2257 | a run that is not over can go on |
| Completion.RunEnds | GemDroid_QEMU/block.c:2049-2257 | a run of n requests has at most 2n + 1 events, and one that cannot go on has run the callbacks exactly once or was refused |
| QemuFile.Writer.Flush | GemDroid_QEMU/savevm.c:666-691 | everything pending goes out, or an error is recorded; the backend is called only if something is pending, and the error is its first negative answer |
| QemuFile.Writer.AddToIovec | GemDroid_QEMU/savevm.c:823-837 | one more piece is pending, joined to an adjacent one; a full vector is flushed |
| QemuFile.Writer.Append | GemDroid_QEMU/savevm.c:862-880 | sent plus pending stays equal to everything put, also across the flush that leaves the index nonzero |
| QemuFile.Writer.PutByte | GemDroid_QEMU/savevm.c:883-898 | one byte more is put, unless an error stands |
| QemuFile.Writer.PutBuffer | GemDroid_QEMU/savevm.c:854-881 | without an error all bytes are put |
| QemuFile.Writer.PutBufferAsync | GemDroid_QEMU/savevm.c:839-852 | likewise for memory handed over by reference |
| QemuFile.Writer.PutBe | GemDroid_QEMU/savevm.c:1041-1059 | integers go out most significant byte first |
| QemuFile.Writer.Sync | GemDroid_QEMU/savevm.c:666-691 | without an error the backend has everything put |
| QemuFile.Reader.FillBuffer | GemDroid_QEMU/savevm.c:755-778 | pending bytes keep their place in the stream; at least one byte comes while there are any and there is room; at the end of the stream the error becomes -EIO unless there is one |
| QemuFile.Reader.GetBuffer | GemDroid_QEMU/savevm.c:933-951 | the next bytes for any pattern of short reads; no error if they fit the buffer and are there |
| QemuFile.Reader.GetByte | GemDroid_QEMU/savevm.c:953-976 | the next byte, or zero past the end |
| QemuFile.Reader.GetBe | GemDroid_QEMU/savevm.c:1061-1085 | the value of the next bytes |
| QemuFile.IntegerBack | GemDroid_QEMU/savevm.c:1041-1085 | an integer put is the integer got |
| QemuFile.WriteAll | GemDroid_QEMU/savevm.c:666-898 | without an error the backend gets the encoding of all items |
| QemuFile.ReadAll | GemDroid_QEMU/savevm.c:907-1085 | a reader over that encoding gets the same items back at any pace |
| Timers.TimerList.Init | GemDroid_QEMU/qemu-timer.c:325-334 | a new timer is pending nowhere, and the list is as it was |
| Timers.TimerList.Del | GemDroid_QEMU/qemu-timer.c:341-357 | the list without the timer, which is marked as stopped |
| Timers.TimerList.Insert | GemDroid_QEMU/qemu-timer.c:359-378 | the timer stands behind all that are not later than the deadline asked for; a negative deadline is kept as 0 |
| Timers.TimerList.Mod | GemDroid_QEMU/qemu-timer.c:399-412 | the list stays sorted and duplicate free, a timer is on it exactly if its deadline is not negative, equal deadlines stand in the order of Timers.ArmingOrder; rearm exactly when it comes first |
| Timers.ArmingOrder | GemDroid_QEMU/qemu-timer.c:359-378 | in every list, a timer armed before another stands ahead of it if and only if its deadline is earlier, or the same and the other did not ask for a negative one |
| Timers.NegativeFirst | GemDroid_QEMU/qemu-timer.c:359-378 | a negative deadline always goes to the front |
| Timers.Overtaken | GemDroid_QEMU/qemu-timer.c:359-378 | with one timer pending at 0, two armed for -1 end up ahead of it in reverse order |
| Timers.TimerList.ModAnticipate | GemDroid_QEMU/qemu-timer.c:417-436 | the earlier of the two deadlines; a timer that is due no later is left where it is |
| Timers.TimerList.Deadline | GemDroid_QEMU/qemu-timer.c:211-239 | the time to the minimum over all pending deadlines, or -1 |
| Timers.TimerList.Run | GemDroid_QEMU/qemu-timer.c:458-496 | if from some callback on timers are armed only beyond the sampled time, the run ends with nothing due, having fired only due timers; if all callbacks do so, timers fire once, in the order of the list, and every timer due at the start has fired or was changed by an earlier callback |
| Timers.RunStep | GemDroid_QEMU/qemu-timer.c:472-491 | one firing keeps what the run has promised so far |
| RamBlocks.RamList.FindOffset | GemDroid_QEMU/exec.c:943-976 | the end of a block followed by the smallest sufficient gap; failure exactly when no block is followed by one |
| RamBlocks.RamList.Alloc | GemDroid_QEMU/exec.c:1056-1148 | blocks stay disjoint, in range and sorted by size; exactly the new block is added, at that place; its length is the size rounded up to pages |
| RamBlocks.RamList.Free | GemDroid_QEMU/exec.c:1177-1193 | exactly the block at that offset goes, with the hint |
| RamBlocks.RamList.Get | GemDroid_QEMU/exec.c:503-524 | with any hint, the unique block holding the address, or failure exactly when there is none |
| RamBlocks.FitsApart | GemDroid_QEMU/exec.c:943-976 | a block that fits a gap is clear of all others and in range |
| RamBlocks.HasIn | GemDroid_QEMU/exec.c:509-515 | the unsigned test is the range test |

## Left out

- KVM: slot numbers and flags, dirty logging. Of the errors of the kernel only one is modelled: a slot is refused if its end passes the last address or it meets another slot.
- KvmSlots.KvmState.SetPhysMem: requires that the range does not reach beyond 2^64.
- RAM migration: the repository has a loader for streams of version 4 but no saver; the bandwidth and downtime estimate, dirty-bitmap synchronisation with KVM. An offset beyond its block or a truncated stream fails in the model where the code has no check.
- Red-black and splay trees: minimum, maximum, next and the iteration macros, which only read.
- Translation blocks: `tb_free` and blocks that are not cached, the restart of a block that modifies itself on targets with precise self-modifying code, faults during code translation, flushes from inside helper functions, locks.
- CodeBitmap.InvalidateRange: requires that a block has between 1 and PAGE bytes of code and that its two pages, if it has two, are different physical pages.
- CodeBitmap.InvalidateFast: has the same requirement.
- TLB: the iotlb and I/O dispatch, victim selection, the dirty marking of mapped buffers and of stores that skip dirty marking.
- AIO: the signal that wakes the main loop, the work of a request, reuse of released request memory under the same name.
- VmState: objects are values, so fields that share memory and pointers into other objects are not captured; signed integers other than counts and sizes and the field kinds that compare instead of load; pre- and post-load hooks and old loaders; a look-ahead cut short by a short read.
- VmState.RoundTrip: presence, count and size of a field must follow from the fields before it, as VmState.EarlierCount shows for counts.
- QemuFile: descriptors, strings, structures, rate limits, and backends that write only part of what they are given. Data handed over by reference must not change before the next flush.
- Block layer: image formats, the sort before merging (any sorted order of the requests is covered), statistics, dirty bitmaps.
- Timers.TimerList.Run: requires that from some callback on timers are armed only beyond the sampled time; otherwise a run need not end.
- FreshCode.StoreByte: a store of one byte; for wider ones the handlers invalidate too little, and CodeBitmap.WideStore says when that is enough.
- FreshCode.NextBlock: requires that code which runs on to a second page is on two different pages of RAM, as CodeBitmap.InvalidateRange does.
- JumpCache.NextBlock: requires that the exit taken last may be chained: it goes to an address in the page of its block, as `gen_goto_tb` sees to, and its block's code is where its address leads. Code generation itself is not modelled.
- JumpCache.FindFast: requires that the code's pages are mapped to RAM or ROM; a fetch that faults is not modelled. The second page of a block is looked up after the block is found, not while it is sought.
- Timers: clocks and their notifiers, scaling, locks around the list.
- RAM blocks: how memory for a block is obtained, names, the growth of the dirty bitmaps.
- The rest of the emulator: device models, code generation, the user interface and the console.
