# Hyra kernel: verified models of its data structures and protocols

Dafny models of the parts of the Hyra kernel and its tools that carry the hardest invariants,
with proofs over every input, every run or every interleaving.

- **Heap allocator** (`sys/vm/tlsf.c`). Three layers. `TlsfMapping` has the size classes.
  `TlsfHeap`, `TlsfLists`, `TlsfOps`, `TlsfAligned`, `TlsfRealloc` and `TlsfPools` have the
  operations on heap values: a map from block addresses to blocks, 800 free lists, and pools.
  `TlsfExact` says what free and malloc do to the blocks, by their addresses alone.
  `TlsfMemory`, `TlsfControl` and `TlsfAllocator` have the allocator itself: a class whose
  methods write header words, list links, list heads and two levels of bitmaps, each proved
  to refine the operation on values and to leave the contents of every other block in use
  alone. `TlsfChecker` has the consistency checks, on any words. `TlsfRuns` puts operations together to runs, and `TlsfLimits` has what happens at the
  edge of `size_t`, with concrete heaps.
- **Red-black tree** (`sys/kern/subr_tree.c`) and the **mmap ledger** on it
  (`sys/vm/vm_map.c`). Nodes are heap objects with left, right, parent and colour fields. A
  ghost zipper (`RbShape.Ctx` and `RbShape.Tree`) says where in the tree a loop is working.
- **Physical frames** (`sys/vm/vm_physmem.c`): next-fit search with restart, and counters.
- **OMAR archives** (`tools/omar/omar.c`, `sys/fs/initramfs.c`): a writer and two readers.
- **Assembler back end and emulator** (`usr.bin/oasm/emit.c`, `usr.bin/oemu/cpu.c`).
- **CRC-32** (`sys/lib/crc32.c`), against the bit-by-bit definition of section 8 of RFC 1952.
- **Vnode cache** (`sys/kern/vfs_vcache.c`, `sys/kern/vfs_subr.c`) with lazy migration.
- **Path walking** (`sys/kern/vfs_lookup.c`).
- **Work queue** (`sys/kern/kern_work.c`, `sys/kern/kern_synch.c`) as interleaved steps, on a tail
  queue (`sys/include/sys/queue.h`) with its links as they are.

`dafny verify dfyconfig.toml` checks everything.

## Where the code does not do what is expected of it

Each of these has an exact condition, as a lemma, and a lemma at a concrete input.

- `tlsf_add_pool` accepts a first block of 2^32 bytes, for which there is no list:
  `TlsfPools.AddPoolTable`, with `TlsfPools.AddPoolLargest` for the input.
- `align_up` wraps around. A request for one of the last seven sizes gets the smallest block:
  `TlsfMapping.AdjustFacts` and `TlsfOps.MallocGood`, with `TlsfLimits.MallocWraps` for the
  input. `tlsf_realloc` to such a size trims the block: `TlsfLimits.ReallocWraps`.
- So does the sum in `tlsf_memalign` for an alignment of 2^63, the only one for which the result
  need be neither aligned nor large enough: `TlsfLimits.MemalignExact` and
  `TlsfLimits.MemalignHighest`, with `TlsfLimits.MemalignWraps` for the input.
- `tlsf_realloc` to a size that cannot be adjusted trims the block to nothing:
  `TlsfRealloc.ReallocTooLarge`, with `TlsfLimits.ReallocBreaks` for the input.
- `vm_alloc_frame` takes frame 0 for a failure and loses the frames it has just marked:
  `PhysMem.AllocateCount`, with `PhysMem.FrameZeroInput` for the input.
- The frame bitmap can be too short for the last frames: `PhysMem.BitmapCovers`, with
  `PhysMem.BitmapInput` for the input.
- The archiver does not pad empty regular files, so readers lose their way:
  `Omar.WalkExact` and `Omar.EmptyFileLost`, with `Omar.EmptyFileInput` for the input.
- The emulator takes a dividend whose lowest 16 bits are zero for zero: `Osmx64.DivideExact`,
  with `Osmx64.DivideInput` for the input.
- Components of a path are counted on 8 bits: `PathWalk.LimitExact`, with `PathWalk.DeepInput`
  for the input.
- `vfs_vref` takes any vnode, and one that is cached is then both referenced and cached:
  `Vcache.ReferenceExact`, with `Vcache.ReferenceInput` for the input.
- `workqueue_enq` takes an item that is still queued, and its links then no longer hold the queue:
  `Tailq.InsertExact` and `WorkQueue.RunExact`, with `WorkQueue.TwiceInput` for the input.

## Model

| member | source | states |
|---|---|---|
| TlsfMapping.AdjustFacts | sys/vm/tlsf.c:493-507 | an adjusted request is a multiple of 8 of at least 24 bytes; it is 0 exactly for empty requests and those from 2^32 - 7 to 2^64 - 8; it covers the request exactly if that is not one of the last seven sizes, which wrap around to 24 |
| TlsfMapping.MappingInRange | sys/vm/tlsf.c:514-532 | the class of a size is within the 25 by 32 table exactly if the size is below 2^32 |
| TlsfMapping.IndexAtLeast | sys/vm/tlsf.c:514-532 | a size is in class k or a later one exactly if it reaches the lower bound of class k |
| TlsfMapping.IndexMono | sys/vm/tlsf.c:514-532 | larger sizes are in later classes |
| TlsfMapping.GoodFit | sys/vm/tlsf.c:534-542 | every block of the classes searched for a request is at least as large as the request |
| TlsfMapping.SearchReaches | sys/vm/tlsf.c:534-542 | a block as large as the request (below 256 bytes), or 33/32 of it, is in a class searched |
| TlsfHeap.SplitPhys | sys/vm/tlsf.c:648-667 | after a split blocks still tile their pools without gap or overlap |
| TlsfHeap.AbsorbPhys | sys/vm/tlsf.c:670-677 | so they do after one block has swallowed the next |
| TlsfLists.AttachInv | sys/vm/tlsf.c:606-640 | putting a free block on its list keeps the invariant: physical tiling, each free block once in the list of its class, no two free neighbours |
| TlsfLists.DetachInv | sys/vm/tlsf.c:577-632 | taking one off keeps it, the block being in hand |
| TlsfLists.SplitInv | sys/vm/tlsf.c:648-667 | splitting a block in hand keeps it, both parts being in hand |
| TlsfLists.AbsorbInv | sys/vm/tlsf.c:670-677 | joining two blocks in hand keeps it |
| TlsfLists.SetFreeInv | sys/vm/tlsf.c:454-467 | marking a block in hand as free or used keeps it |
| TlsfOps.LocateFound | sys/vm/tlsf.c:754-782 | the block found is free, is at the head of the list of its class, and is large enough |
| TlsfOps.LocateFails | sys/vm/tlsf.c:754-782 | the search fails only if no free block is in a class searched |
| TlsfOps.PrepareUsedGood | sys/vm/tlsf.c:784-795 | trimming and taking into use ends with the invariant, and with a block that is large enough exactly if it was before |
| TlsfOps.MallocGood | sys/vm/tlsf.c:1116-1122 | malloc keeps the invariant and all blocks in use; a block handed out was free, and is large enough exactly if the request does not wrap around; a failure changes nothing |
| TlsfExact.MallocExact | sys/vm/tlsf.c:1116-1122 | the block handed out was free, is cut to the adjusted request exactly if it has 32 bytes more, what is cut off becomes one free block, and no other block changes |
| TlsfOps.MergePrevInv | sys/vm/tlsf.c:680-692 | afterwards the block below the one in hand is in use |
| TlsfOps.MergeNextInv | sys/vm/tlsf.c:695-708 | afterwards the block above is in use, and the size is the sum of both and a header |
| TlsfOps.FreeGood | sys/vm/tlsf.c:1181-1194 | free keeps the invariant and every other block in use |
| TlsfExact.FreeExact | sys/vm/tlsf.c:1181-1194 | a block freed is no longer in use: it, the block below if that is free, and the block above if that is free become one free block, and no other block changes but for a back pointer |
| TlsfOps.MallocSucceedsIff | sys/vm/tlsf.c:754-782 | malloc succeeds exactly if some free block is in a class searched for the adjusted request |
| TlsfOps.MallocSucceeds | sys/vm/tlsf.c:534-574 | in particular whenever a free block is as large as the adjusted request, or 33/32 of it from 256 bytes on |
| TlsfOps.MallocFree | sys/vm/tlsf.c:1116-1194 | free right after malloc restores blocks, lists and their order |
| TlsfAligned.GapFacts | sys/vm/tlsf.c:1153-1169 | the alignment gap is 0 or from 32 to the alignment plus 24, and leads to an aligned address |
| TlsfAligned.GapWraps | sys/vm/tlsf.c:1153-1169 | the gap computed with wrap-around at every step is the same, for every address and every alignment |
| TlsfAligned.AlignedSizeFacts | sys/vm/tlsf.c:1124-1146 | the size looked for has room for the largest gap and the request after it exactly below the alignment 2^63, where it wraps around to 24 |
| TlsfAligned.AlignedSizeExact | sys/vm/tlsf.c:1124-1146 | the size looked for is the least multiple of the alignment from the adjusted request plus the alignment plus 32 on, if that is below 2^32, and otherwise 0; up to the alignment 8 it is the adjusted request |
| TlsfAligned.TrimLeadingInv | sys/vm/tlsf.c:738-752 | cutting off a leading free block keeps the invariant and leaves the rest in hand |
| TlsfAligned.MemalignGood | sys/vm/tlsf.c:1124-1179 | memalign keeps the invariant and all blocks in use; below the alignment 2^63 the payload is aligned, and is large enough exactly if the request does not wrap around |
| TlsfAligned.MemalignSucceedsIff | sys/vm/tlsf.c:1124-1179 | memalign succeeds exactly if some free block is in a class searched for that size |
| TlsfAligned.MemalignSucceeds | sys/vm/tlsf.c:1124-1179 | in particular whenever a free block is that large, or 33/32 of it from 256 bytes on |
| TlsfAligned.MemalignCarves | sys/vm/tlsf.c:1148-1178 | the block handed out is carved from a free block of such a class: what is before the aligned address and what is beyond the request are free blocks |
| TlsfRealloc.TrimUsedGood | sys/vm/tlsf.c:724-736 | trimming a block in use keeps the invariant and all others |
| TlsfRealloc.ResizeGood | sys/vm/tlsf.c:1249-1261 | growing and shrinking in place keep the invariant and end with a block that is large enough |
| TlsfRealloc.ReallocGood | sys/vm/tlsf.c:1209-1265 | realloc keeps the invariant and every other block in use; the block is large enough exactly if a block of that size can exist; a failure changes nothing |
| TlsfRealloc.ReallocExact | sys/vm/tlsf.c:1209-1265 | realloc succeeds exactly if the block is large enough, or it is together with a free block above it, or some free block is in a class searched; in the first two cases the pointer stays and the size is exact, in the third the old block is no longer in use |
| TlsfRealloc.ReallocTooLarge | sys/vm/tlsf.c:1231-1260 | the heap survives exactly if the size is not one that adjusts to 0, or the block cannot be split |
| TlsfPools.AddPoolGood | sys/vm/tlsf.c:981-1028 | a pool over unused memory is added, or refused, with the invariant kept |
| TlsfPools.AddPoolAccepts | sys/vm/tlsf.c:987-1009 | exactly the pools at whole words and from 40 bytes to the largest size are accepted |
| TlsfPools.AddPoolExact | sys/vm/tlsf.c:981-1028 | a pool accepted becomes one free block of all its bytes but the two headers and a last block in use, and nothing else changes; a refusal changes nothing |
| TlsfPools.AddPoolTable | sys/vm/tlsf.c:987-1009 | of the sizes accepted only 2^32 has no list |
| TlsfPools.AddPoolLargest | sys/vm/tlsf.c:996 | that size is accepted |
| TlsfLimits.MallocWraps | sys/vm/tlsf.c:493-507 | on a heap of one free block, a request for 2^64 - 1 bytes gets 24 |
| TlsfLimits.MemalignHighest | sys/vm/tlsf.c:1124-1179 | with the alignment 2^63 the payload is aligned exactly if it was so before or the block reaches an aligned address, and is large enough exactly if the rest of the block is |
| TlsfLimits.MemalignExact | sys/vm/tlsf.c:1124-1179 | on every heap and for every size that does not wrap around the result is aligned and large enough, exactly if the alignment is not 2^63 |
| TlsfLimits.MemalignWraps | sys/vm/tlsf.c:1140-1146 | a heap on which memalign to 2^63 returns address 24 |
| TlsfLimits.ReallocWraps | sys/vm/tlsf.c:1209-1265 | to one of the last seven sizes realloc keeps the heap and trims the block to 24 bytes, if it can be split |
| TlsfLimits.ReallocBreaks | sys/vm/tlsf.c:1249-1261 | a heap that realloc to 2^32 bytes breaks |
| TlsfMemory.MarkHolds | sys/vm/tlsf.c:454-467 | the words written for a mark make memory hold the marked heap, and change no payload in use |
| TlsfMemory.SplitHolds | sys/vm/tlsf.c:648-667 | the same for a split, up to what the new block says about the one below |
| TlsfMemory.LinkHolds | sys/vm/tlsf.c:447-452 | the same for linking a block to the one below and setting its flag |
| TlsfMemory.AbsorbHolds | sys/vm/tlsf.c:670-677 | the same for swallowing a free block; the flag above is right already if the block itself is free |
| TlsfMemory.AttachHolds | sys/vm/tlsf.c:606-616 | the link words written keep all 800 doubly linked lists, with the block at the head of its own |
| TlsfMemory.DetachHolds | sys/vm/tlsf.c:577-584 | unlinking a block from anywhere in its list keeps all lists |
| TlsfMemory.PayloadWrites | sys/vm/tlsf.c:293-314 | writes of an owner to its payload, the word shared with the next header included, disturb nothing else |
| TlsfControl.SearchFirst | sys/vm/tlsf.c:544-574 | the two levels of bitmaps lead to the first list, from a class on, that is not empty |
| TlsfControl.InsertedOk | sys/vm/tlsf.c:618-624 | heads and bitmaps mark exactly the lists that are not empty after an insertion |
| TlsfControl.RemovedOk | sys/vm/tlsf.c:586-602 | and after a removal from anywhere in a list |
| TlsfControl.ControlUnique | sys/vm/tlsf.c:348-358 | heads and bitmaps are determined by the lists |
| TlsfAllocator.Allocator.constructor | sys/vm/tlsf.c:798-816 | the control structure starts as the empty heap |
| TlsfAllocator.Allocator.MarkAsFree | sys/vm/tlsf.c:454-460 | refines marking as free |
| TlsfAllocator.Allocator.MarkAsUsed | sys/vm/tlsf.c:462-467 | refines marking as used and keeps the payload |
| TlsfAllocator.Allocator.InsertBlock | sys/vm/tlsf.c:606-640 | refines putting a block on its list |
| TlsfAllocator.Allocator.RemoveFreeBlock | sys/vm/tlsf.c:577-603 | refines taking a block off its list |
| TlsfAllocator.Allocator.RemoveBlock | sys/vm/tlsf.c:627-632 | the same, by the size in the header |
| TlsfAllocator.Allocator.SplitBlock | sys/vm/tlsf.c:648-667 | refines splitting, and keeps the payload of the first part |
| TlsfAllocator.Allocator.AbsorbBlock | sys/vm/tlsf.c:670-677 | refines swallowing the next block, and keeps the payload |
| TlsfAllocator.Allocator.MergeBelow | sys/vm/tlsf.c:680-692 | refines joining with a free block below, found by flag and back pointer |
| TlsfAllocator.Allocator.MergeAbove | sys/vm/tlsf.c:695-708 | refines joining with a free block above |
| TlsfAllocator.Allocator.TrimFreeBlock | sys/vm/tlsf.c:711-721 | refines trimming a free block |
| TlsfAllocator.Allocator.TrimUsedBlock | sys/vm/tlsf.c:724-736 | refines trimming a block in use, and keeps the payload up to the new size |
| TlsfAllocator.Allocator.TrimLeadingBlock | sys/vm/tlsf.c:738-752 | refines cutting off a leading free block |
| TlsfAllocator.Allocator.LocateFree | sys/vm/tlsf.c:754-782 | finds by the bitmaps the block that the lists determine, and takes it off its list |
| TlsfAllocator.Allocator.PrepareUsedBlock | sys/vm/tlsf.c:784-795 | refines taking a block into use |
| TlsfAllocator.Allocator.Malloc | sys/vm/tlsf.c:1116-1122 | refines malloc, which succeeds exactly if a free block is in a class searched, and cuts that block exactly; the contents of all blocks in use are kept; the block is large enough exactly if the request does not wrap around; a failure changes nothing at all |
| TlsfAllocator.Allocator.Free | sys/vm/tlsf.c:1181-1194 | refines free; the block is no longer in use and is one free block with its free neighbours; the contents of all other blocks in use are kept; freeing 0 changes nothing |
| TlsfAllocator.Allocator.PlaceBlock | sys/vm/tlsf.c:1151-1178 | refines cutting and taking into use at an aligned address |
| TlsfAllocator.Allocator.Memalign | sys/vm/tlsf.c:1124-1179 | refines memalign, which succeeds exactly if a free block is in a class searched for the size with room for the gap; the result is aligned below the alignment 2^63, and all contents are kept |
| TlsfAllocator.CopyWords | sys/vm/tlsf.c:1244-1245 | copies exactly the words asked for |
| TlsfAllocator.Allocator.CopyPayload | sys/vm/tlsf.c:1244-1245 | the copy between two payloads disturbs nothing else |
| TlsfAllocator.Allocator.NeedsMove | sys/vm/tlsf.c:1226-1239 | the header words decide whether a block must move |
| TlsfAllocator.Allocator.Move | sys/vm/tlsf.c:1239-1248 | a block moves exactly if a free block is in a class searched; it has the old contents, and the old block is no longer in use; a failure changes nothing |
| TlsfAllocator.Allocator.GrowBlock | sys/vm/tlsf.c:1251-1256 | growing into the next block keeps the payload |
| TlsfAllocator.Allocator.ResizeBlock | sys/vm/tlsf.c:1249-1261 | resizing in place keeps the payload up to the smaller of both sizes |
| TlsfAllocator.Allocator.ReallocBlock | sys/vm/tlsf.c:1224-1262 | the same for a block in use and a size other than 0, which moves exactly if it cannot be resized in place |
| TlsfAllocator.Allocator.Realloc | sys/vm/tlsf.c:1209-1265 | refines realloc, with the exact conditions for success, for staying in place and for moving: contents up to the smaller of both sizes survive on every path, or 24 bytes of them if the request wraps around; other blocks keep theirs, a failure changes nothing; to size 0 it frees |
| TlsfAllocator.Allocator.AddPool | sys/vm/tlsf.c:981-1028 | refines adding a pool; refusals return 0 and change nothing |
| TlsfChecker.CheckBlock | sys/vm/tlsf.c:878-890 | on any words, finds nothing exactly if flags, neighbours, size and class of a listed block are as they should be |
| TlsfChecker.CheckList | sys/vm/tlsf.c:857-890 | on any words with a list to walk along, finds nothing exactly if both bitmaps and every block of the list are sound |
| TlsfChecker.Check | sys/vm/tlsf.c:845-895 | on any words, returns 0 exactly if all 800 lists are sound |
| TlsfChecker.CheckPool | sys/vm/tlsf.c:828-939 | on any words, returns 0 exactly if each block says of the one below what that says of itself, and walks along all of them |
| TlsfAllocator.Allocator.Check | sys/vm/tlsf.c:845-895 | tlsf_check returns 0 in every valid state |
| TlsfAllocator.Allocator.CheckPool | sys/vm/tlsf.c:905-939 | tlsf_check_pool returns 0, and its walk meets exactly the blocks of the pool, in order |
| TlsfRuns.StepGood | sys/vm/tlsf.c:981-1265 | every operation keeps the invariant and every block in use that it is not about |
| TlsfRuns.RunGood | sys/vm/tlsf.c:981-1265 | so does every run |
| TlsfRuns.PayloadsApart | sys/vm/tlsf.c:293-314 | payloads of blocks in use never overlap |
| TlsfRuns.Perform | sys/vm/tlsf.c:981-1265 | the allocator refines each operation |
| TlsfRuns.Replay | sys/vm/tlsf.c:845-895 | after each operation of any run, writes of owners included, tlsf_check returns 0, and blocks the run is not about keep their contents |
| TlsfRuns.TakeAndGive | sys/vm/tlsf.c:1116-1194 | malloc and then free restore blocks, lists, list heads and both levels of bitmaps, and keep all contents |
| RedBlackTree.RbTree.RotateLeft | sys/kern/subr_tree.c:97-129 | the pointer writes turn the tree at the focus into its left rotation, parent links included |
| RedBlackTree.RbTree.RotateRight | sys/kern/subr_tree.c:131-163 | the same to the right |
| RbFixup.GrandparentBlack | sys/kern/subr_tree.c:165-215 | a red parent has a black grandparent, so none is missing |
| RbFixup.UncleRed | sys/kern/subr_tree.c:165-215 | recolouring below a red uncle moves the conflict up by two, with the order of elements kept |
| RbFixup.UncleBlack | sys/kern/subr_tree.c:165-215 | rotating below a black uncle ends the conflict |
| RedBlackTree.RbTree.InsertFixLeft | sys/kern/subr_tree.c:171-192 | one round of the loop keeps the loop invariant and the elements, and gets closer to the root |
| RedBlackTree.RbTree.InsertFixRight | sys/kern/subr_tree.c:193-211 | the same on the mirrored side |
| RedBlackTree.RbTree.InsertColor | sys/kern/subr_tree.c:165-215 | the loop ends with a red-black tree of the same elements in the same order |
| RedBlackTree.RbTree.Insert | sys/kern/subr_tree.c:400-438 | a new element goes to its sorted place in a valid tree; with an equal key the existing node is returned and nothing changes |
| RbFixup.SiblingExists | sys/kern/subr_tree.c:217-305 | there always is a sibling, and a red one has two children, so no null sibling is dereferenced |
| RbFixup.RedSibling | sys/kern/subr_tree.c:217-305 | after the rotation of a red sibling the sibling is black |
| RbFixup.BlackChildren | sys/kern/subr_tree.c:217-305 | recolouring a black sibling with black children moves the shortage up by one |
| RbFixup.Turned | sys/kern/subr_tree.c:217-305 | a red inner nephew is turned into a red outer one |
| RbFixup.RedOuterChild | sys/kern/subr_tree.c:217-305 | a red outer nephew ends the shortage |
| RedBlackTree.RbTree.RemoveFixLeft | sys/kern/subr_tree.c:225-261 | one round of the loop keeps the loop invariant and the elements, and makes progress |
| RedBlackTree.RbTree.RemoveFixRight | sys/kern/subr_tree.c:262-300 | the same on the mirrored side |
| RedBlackTree.RbTree.RemoveColor | sys/kern/subr_tree.c:217-305 | the loop ends with a red-black tree of the same elements in the same order |
| RedBlackTree.RbTree.MoveSuccessor | sys/kern/subr_tree.c:317-366 | the successor is spliced out and takes the place of the node to remove |
| RedBlackTree.RbTree.Extract | sys/kern/subr_tree.c:307-381 | what is left has every element but one, and lacks at most one black node at a known place |
| RedBlackTree.RbTree.Remove | sys/kern/subr_tree.c:307-398 | exactly the given element leaves the sorted sequence, and the tree is valid |
| RedBlackTree.RbTree.Find | sys/kern/subr_tree.c:440-460 | decides whether an element with the key is present |
| RedBlackTree.RbTree.NFind | sys/kern/subr_tree.c:462-484 | the first element not below the key |
| RedBlackTree.RbTree.Next | sys/kern/subr_tree.c:486-508 | the next element of the sequence |
| RedBlackTree.RbTree.Prev | sys/kern/subr_tree.c:510-532 | the previous element of the sequence |
| RedBlackTree.RbTree.Min | sys/kern/subr_tree.c:542-554 | the first element |
| RedBlackTree.RbTree.Max | sys/kern/subr_tree.c:556-568 | the last element |
| RedBlackTree.RbTree.Ascending | sys/kern/subr_tree.c:486-554 | iterating from the minimum visits every element once in order |
| RedBlackTree.RbTree.Descending | sys/kern/subr_tree.c:510-568 | iterating from the maximum visits every element once in reverse order |
| RbBalance.HeightBound | sys/kern/subr_tree.c:97-305 | two to the height of a red-black tree is at most the square of the number of elements plus one |
| RedBlackTree.RbTree.HeightIsLogarithmic | sys/kern/subr_tree.c:97-438 | so the height of a valid tree is at most 2 lg (n + 1) |
| MmapLedger.EntryCompareIsOrder | sys/vm/vm_map.c:455-459 | the comparison is a total order |
| MmapLedger.Ledger.Add | sys/vm/vm_map.c:66-80 | an entry is added to the table and to the bytes; empty entries are refused, and an occupied address fails the assertion |
| MmapLedger.Ledger.Remove | sys/vm/vm_map.c:88-96 | an entry leaves the table, and the bytes |
| MmapLedger.Ledger.Unmap | sys/vm/vm_map.c:315-359 | the entry at the page of the address is removed, or the call is refused |
| MmapLedger.Replay | sys/vm/vm_map.c:66-96 | any run stops exactly at the first failed assertion; until then the table is what it should be, and the byte count is the sum of its sizes |
| PhysMem.FrameAllocator.Search | sys/vm/vm_physmem.c:151-173 | the loop finds the first free run from the last index on |
| PhysMem.FrameAllocator.TryAlloc | sys/vm/vm_physmem.c:151-185 | exactly the frames of that run are marked |
| PhysMem.AllocateOk | sys/vm/vm_physmem.c:187-206 | unless frame 0 is taken an allocation fails exactly if no run of that length is free anywhere, and otherwise marks a run that was free: the first from the last index on, or the first of all if there is none from there on |
| PhysMem.AllocateCount | sys/vm/vm_physmem.c:187-206 | the counters stay right exactly if frame 0 is not taken |
| PhysMem.FrameZeroInput | sys/vm/vm_physmem.c:187-206 | with one free frame, frame 0, an allocation fails and the frame is gone |
| PhysMem.FrameAllocator.AllocFrame | sys/vm/vm_physmem.c:187-206 | refines the allocation, with the counters |
| PhysMem.FrameAllocator.FreeFrame | sys/vm/vm_physmem.c:208-222 | exactly count frames are freed, from the first page boundary at or above the base |
| PhysMem.PopulatedAt | sys/vm/vm_physmem.c:62-87 | a frame is free at first exactly if a usable region has it |
| PhysMem.PopulatedClear | sys/vm/vm_physmem.c:62-87 | the number of free frames is that of the usable pages |
| PhysMem.FrameAllocator.Populate | sys/vm/vm_physmem.c:62-87 | refines the population, and the counters add up |
| PhysMem.TakeBitmap | sys/vm/vm_physmem.c:93-117 | the bitmap is carved from the first usable region with room |
| PhysMem.BitmapCovers | sys/vm/vm_physmem.c:139-140 | the bitmap has a bit for every frame exactly unless an incomplete last byte follows whole pages |
| PhysMem.BitmapInput | sys/vm/vm_physmem.c:139-140 | for 32769 frames there are 32768 bits |
| PhysMem.FrameAllocator.constructor | sys/vm/vm_physmem.c:123-144 | after initialisation bitmap and counters agree with the memory map |
| PhysRuns.Replay | sys/vm/vm_physmem.c:151-222 | over any run allocations held never overlap, bitmap and counters are exact, and a failure means that no such run is free |
| Omar.SkipMatches | tools/omar/omar.c:202-243 | an entry fills as many bytes as readers skip exactly if it is not an empty regular file |
| Omar.Writer.FilePush | tools/omar/omar.c:150-247 | appends exactly the bytes of an entry; an empty regular file is reported as failed |
| Omar.Writer.PushEnd | tools/omar/omar.c:178-200 | appends the end marker |
| Omar.Writer.Create | tools/omar/omar.c:253-289 | the image is the entries in order and the end marker |
| Omar.ImageLaid | sys/fs/initramfs.c:117-157 | each header of such an image is where the one before leads, up to the end marker |
| Omar.WalkMeetsAll | sys/fs/initramfs.c:117-157 | the walk along such an image meets exactly the headers of the entries, and ends at the end marker |
| Omar.WalkExact | tools/omar/omar.c:202-243 | the walk along a written image meets exactly the headers of what was archived, and the end marker, if and only if no regular file is empty |
| Omar.EmptyFileLost | sys/fs/initramfs.c:117-157 | with an empty regular file last, a lookup reads beyond the image exactly for names that were not archived |
| Omar.EmptyFileInput | tools/omar/omar.c:222-226 | an archive of one empty file, and a lookup that reads beyond it |
| Omar.MarkerAlone | sys/fs/initramfs.c:117-120 | an image that is only the five bytes of the end marker has no file |
| Omar.GetFile | sys/fs/initramfs.c:106-160 | on any image, the first header of the walk with the name, or the error its end means |
| Omar.Finds | sys/fs/initramfs.c:106-160 | on a written image exactly the names archived are found, each with its mode, length and bytes |
| Omar.Extract | tools/omar/omar.c:354-395 | on any image, what the headers of the walk give, and what ends it |
| Omar.ExtractsAll | tools/omar/omar.c:354-395 | on a written image exactly the entries are unpacked, in order, up to the end marker |
| Omar.Read | sys/fs/initramfs.c:218-246 | copies the part of the file from the offset on that fits the request |
| Omar.RoundTrip | tools/omar/omar.c:150-247 | written and read back, lookups and extraction see exactly what was archived |
| Osmx64.DivideExact | usr.bin/oemu/cpu.c:247-268 | a division gives the quotient exactly if the lowest 16 bits of the dividend are not all zero, or it makes no difference |
| Osmx64.DivideInput | usr.bin/oemu/cpu.c:247-268 | 65536 divided by 2 stays 65536 |
| InstructionLaws.AddSubLaw | usr.bin/oemu/cpu.c:128-166 | addition and subtraction undo each other for every register and value, and differ from those of numbers exactly at the end of the range |
| InstructionLaws.IncDecLaw | usr.bin/oemu/cpu.c:84-120 | so do increment and decrement |
| InstructionLaws.MovLaw | usr.bin/oemu/cpu.c:64-76 | a move is an addition to zero; instructions without effect on registers keep them |
| InstructionLaws.MulLaw | usr.bin/oemu/cpu.c:174-189 | multiplication is repeated addition |
| InstructionLaws.LogicLaw | usr.bin/oemu/cpu.c:190-239 | each bit of and, or and xor is that of its two bits |
| InstructionLaws.XorLaw | usr.bin/oemu/cpu.c:224-239 | xor with the same value twice restores the register |
| InstructionLaws.ShiftLaw | usr.bin/oemu/cpu.c:303-323 | a shift to the left and back drops exactly the high bits, one to the right and back exactly the low bits |
| InstructionLaws.MaskLaw | usr.bin/oemu/cpu.c:325-391 | with the value 1 the lowest 8, 16, 32 or 64 bits are set and the others are kept; with any other value nothing changes |
| Assembler.Emitter.EncodePlain | usr.bin/oasm/emit.c:248-258 | one word for an instruction without operands |
| Assembler.Emitter.EncodeReg | usr.bin/oasm/emit.c:132-170 | one word for an instruction with a register, or the encoder gives up |
| Assembler.Emitter.EncodeRegImm | usr.bin/oasm/emit.c:180-238 | one word for an instruction with a register and a value, or the encoder gives up |
| Assembler.Emitter.Process | usr.bin/oasm/emit.c:510-564 | the output is that of the encoders up to where one gives up |
| Assembler.EmitsWords | usr.bin/oasm/emit.c:510-564 | the tokens of a well-formed program become one word per instruction, in order |
| Assembler.Assemble | usr.bin/oasm/emit.c:80-564 | assembling a program gives exactly its words |
| Emulator.Fetch | usr.bin/oemu/cpu.c:450-451 | what is fetched is the instruction assembled there |
| Emulator.Cpu.Execute | usr.bin/oemu/cpu.c:453-500 | the dispatch on an opcode does to the register what the instruction means |
| Emulator.Cpu.MaskReg | usr.bin/oemu/cpu.c:325-391 | the mask is set for the value 1, and any other value changes nothing |
| Emulator.Cpu.Cycle | usr.bin/oemu/cpu.c:450-519 | one round is the meaning of one instruction, and stops exactly at the halt |
| Emulator.Cpu.Kick | usr.bin/oemu/cpu.c:443-523 | a program without branches up to its first halt stops there, with the registers that the meaning of the instructions so far gives, and register 0 is zero at every fetch |
| Emulator.Run | usr.bin/oemu/cpu.c:443-523 | the same from its tokens, through the assembler |
| Crc32.EntryParts | sys/lib/crc32.c:32-76 | the entries for single bits determine the whole table |
| Crc32.TableOk | sys/lib/crc32.c:32-76 | each of the 256 entries is its index stepped by eight bits |
| Crc32.RoundOk | sys/lib/crc32.c:84-86 | one round of the loop is eight bits of the division |
| Crc32.Crc | sys/lib/crc32.c:78-89 | the table-driven loop computes the bit-by-bit check value of every byte string |
| Crc32.Residue | sys/lib/crc32.c:78-89 | data followed by its own check value, low byte first, always has the check value 2144DF1C |
| Crc32.KnownValues | sys/lib/crc32.c:78-89 | the digits 1 to 9 have the check value CBF43926, and the empty string has 0 |
| CrcAlgebra.WindowDiffers | sys/lib/crc32.c:78-89 | for a linear, injective step, strings that differ in a short window lead to different words |
| Crc32.DetectsWindow | sys/lib/crc32.c:78-89 | strings of equal length that differ only within four neighbouring bytes have different check values |
| Vcache.VnodeTable.PullVnode | sys/kern/vfs_vcache.c:73-87 | the head of a queue is taken, if any |
| Vcache.VnodeTable.AddVnode | sys/kern/vfs_vcache.c:93-123 | a vnode goes to the tail; from a full cache the old tail is evicted |
| Vcache.VnodeTable.EnterCache | sys/kern/vfs_vcache.c:179-213 | a vnode goes to the cache of the mode |
| Vcache.VnodeTable.RecycleVnode | sys/kern/vfs_vcache.c:219-289 | a vnode is taken from a leftover cache first |
| Vcache.VnodeTable.AllocVnode | sys/kern/vfs_subr.c:39-58 | a vnode handed out is the head of the leftover cache, or else of the own one, or else newly allocated; exactly that head leaves its queue; it had no references, has one, and is in no cache; the invariant is kept and leftover caches only shrink |
| Vcache.VnodeTable.ReleaseVnode | sys/kern/vfs_subr.c:109-141 | the count is one less; exactly a vnode without references that is reclaimed and has a cache to go to becomes the last of it, after those before, and from a full cache exactly the old tail is gone; otherwise nothing else changes; the invariant is kept and leftover caches only shrink |
| Vcache.VnodeTable.Reference | sys/include/sys/vnode.h:64 | a reference is added; the invariant is kept exactly if the vnode is in no cache, as one with references always is |
| Vcache.VnodeTable.Migrate | sys/kern/vfs_vcache.c:137-172 | only the mode changes, and only to one that exists |
| Vcache.AllocInv | sys/kern/vfs_subr.c:39-58 | no vnode is both referenced and cached or cached twice, and size fields are right and at most 64, after an allocation |
| Vcache.ReleaseInv | sys/kern/vfs_subr.c:109-141 | and after a release |
| Vcache.ReleaseExact | sys/kern/vfs_subr.c:109-141 | the queues and counts after a release, case by case |
| Vcache.AllocExact | sys/kern/vfs_subr.c:39-58 | the queues and counts after an allocation, case by case |
| Vcache.ReferenceExact | sys/include/sys/vnode.h:64 | a reference count other than zero keeps the invariant exactly for a vnode in no cache |
| Vcache.ReferenceInput | sys/include/sys/vnode.h:64 | a state of one cached vnode that a reference breaks |
| Vcache.AllocShrinks | sys/kern/vfs_vcache.c:219-289 | an allocation adds to no cache of the kind that is not in use |
| Vcache.ReleaseShrinks | sys/kern/vfs_vcache.c:179-213 | neither does a release |
| Vcache.Drains | sys/kern/vfs_vcache.c:228-281 | while a leftover cache has entries allocations use up its head, and an empty one is given up |
| Vcache.Replay | sys/kern/vfs_vcache.c:73-289 | any run by any processes keeps the invariant; without change of mode leftover caches only shrink |
| PathWalk.ComponentsProper | sys/kern/vfs_lookup.c:48-119 | components are neither empty nor have they slashes |
| PathWalk.PathComponents | sys/kern/vfs_lookup.c:48-119 | names that are neither empty nor have slashes are the components of the path they make, in order |
| PathWalk.Leading | sys/kern/vfs_lookup.c:76-78 | leading slashes do not matter |
| PathWalk.Trailing | sys/kern/vfs_lookup.c:68-74 | a trailing slash does not matter |
| PathWalk.Repeated | sys/kern/vfs_lookup.c:84-93 | repeated slashes do not matter |
| PathWalk.FnameAt | sys/kern/vfs_lookup.c:48-119 | the component of that index, or none past the end |
| PathWalk.NumCnp | sys/kern/vfs_lookup.c:128-153 | the number of components of an absolute path, on 8 bits |
| PathWalk.MpSearch | sys/kern/vfs_lookup.c:162-193 | the result is where the way ends that starts at the root and looks up the second component, the third and so on, up to the last or the one before it, with the count taken on 8 bits; there is none exactly if there is no such way |
| PathWalk.WalkReaches | sys/kern/vfs_lookup.c:175-192 | the left fold of lookups ends at a vnode exactly if a sequence of vnodes leads there, each the lookup of the next component |
| PathWalk.LimitExact | sys/kern/vfs_lookup.c:162-178 | the limit is the end of the path exactly below 256 components, and one less exactly up to 256 |
| PathWalk.DeepInput | sys/kern/vfs_lookup.c:162-178 | of a path of 256 components none is looked up |
| Tailq.HoldsNoDup | sys/include/sys/queue.h:119-125 | no links hold a queue with an element twice |
| Tailq.HoldsUnique | sys/include/sys/queue.h:61-83 | links hold at most one sequence of elements |
| Tailq.InsertExact | sys/include/sys/queue.h:119-125 | an insertion at the tail does what it should exactly if the element is not in the queue yet |
| Tailq.RemoveHolds | sys/include/sys/queue.h:146-156 | a removal takes out the element, wherever it is |
| WorkQueue.RunLocked | sys/kern/kern_synch.c:153-167 | mutual exclusion holds under every schedule, whatever is enqueued |
| WorkQueue.StepInv | sys/kern/kern_work.c:76-102 | an atomic step of any thread keeps mutual exclusion, the links of the queue, and the counts at the place where the mutex is held, exactly if it does not insert an item that is still queued |
| WorkQueue.RunInv | sys/kern/kern_work.c:169-203 | so does every schedule in which no step does that |
| WorkQueue.RunExact | sys/kern/kern_work.c:169-203 | the links hold what was accepted and not removed at every point of a run exactly if no step inserts an item that is still queued |
| WorkQueue.Safe | sys/kern/kern_synch.c:153-167 | under every schedule at most one thread holds the mutex; unless an item is enqueued while still queued, items are executed in the order accepted, each once, the worker never panics, and the count stays within bounds and, while the mutex is free, equals the queue length |
| WorkQueue.TwiceInput | sys/kern/kern_work.c:76-102 | two producers enqueue one item: it is executed three times, the count goes below zero, and the worker panics |
| WorkQueue.Grows | sys/kern/kern_work.c:76-102 | nothing accepted or executed is taken back |

## Left out

- `tlsf_remove_pool`, the printing walker, the debug self-check of `ffs` and `fls`, and their variants for other compilers: they would only add easy members.
- Bitmaps of the allocator are sets of bit positions, and a header word is its value and two flags; the masks and shifts of C on them are not modelled.
- 64-bit wrap-around of addresses of blocks and frames and of the ledger's byte count is not modelled. Sizes and alignments of the heap allocator do wrap around where the code adds them up.
- TlsfPools.AddPoolGood: requires that a pool accepted has a first block below 2^32 bytes, because the code would write beyond its table of lists otherwise; `TlsfPools.AddPoolTable` has the condition.
- TlsfAllocator.Allocator.AddPool: the same.
- TlsfRealloc.ReallocGood: requires that the heap survives, by the condition that `TlsfRealloc.ReallocTooLarge` proves exact.
- TlsfAllocator.Allocator.Realloc: the same.
- TlsfAllocator.Allocator.ReallocBlock: the same.
- PhysRuns.Replay: requires that frame 0 is not free at first; `PhysMem.AllocateCount` has what happens otherwise.
- PhysMem.FrameAllocator.constructor: requires a bitmap long enough, by the condition of `PhysMem.BitmapCovers`, and a usable region with room for it; otherwise the code writes beyond the bitmap, or through a null pointer.
- Augmentation callbacks, poison values and trivial accessors of the tree; its elements have integer keys, and any comparison that is an order on them.
- Failures of `dynalloc` inside path walking and the work queue, and freeing of names and entries.
- The page table side of `mmap` and `munmap`, and every caller's locking other than the mutex of the work queue.
- Frames are bits of an array of booleans; packing them into bytes, and clearing the frames handed out, is not modelled.
- Reading directories and files for the archiver, and what the extractor does to the file system, beyond the sequence of its actions. The revision check of the extractor only prints.
- Assembler.Emitter.EncodeRegImm: gives up where an operand of a mask instruction is missing; there the source reads through a null pointer.
- Branches in the emulator: `cpu_br` is followed by the common increment of the instruction pointer, so meaning is only stated for programs without branches before their first halt. Division by a zero value and shifts by 64 or more are undefined in C and excluded.
- Labels, the lexer and the parser of the assembler.
- The cache of a process that has not been set up has an empty queue; the queue head of fresh memory is not modelled.
- `namei` itself, with its passes over the mount list, and lookups with side effects.
- Work functions that touch their own queue: the mutex is not recursive, so they would wait for themselves. The number of elements that tail queues count for themselves is not read there, and not modelled. The queues of the vnode cache are sequences, not links.
- Progress: no fairness of the scheduler or of the mutex is assumed, and none is proved.
- Device drivers, buses, scheduler, sockets, other file systems, system calls, loaders, cryptography, consoles and user programs.
