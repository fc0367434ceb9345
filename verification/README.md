# Verified models of fzkernel's algorithmic cores

Dafny 4.11 models of six parts of the fzboot kernel, with proofs. Each part follows its source file by
file: code that updates memory in place is a class with methods, and the properties are lemmas about the
specification or clauses of the methods.

- **Red-black tree** (`Common`, `Cells`, `RbShape`, `RbColor`, `RbFix`, `RbAlgebra`, `RbTree`, `RbRuns`). Nodes are
  cells of one memory, linked by addresses, with a shared black sentinel whose parent link is scratch space. A tree is
  described by its in-order sequence and by facts about one node and its neighbours at a time; `RbAlgebra`
  connects this with the algebraic trees of textbooks.
- **Kernel heap** (`AllocHeader`, `HeapLayout`, `Pages`, `KernelHeap`, `HeapMeaning`, `HeapPages`, `HeapRuns`,
  `HeapLaws`, `HeapFrames`). Boundary tags over the same memory, free blocks in two such trees. A clear allocated
  bit means a free block, but not the other way round, and a block for which no pages could be had stays lost. The
  cells of the model overlap in real memory; `HeapMeaning` proves that the cells the allocator relies on share no
  byte, and that nothing else matters, and what the calls promise about client data is said byte by byte.
  `HeapPages` follows the pages that the heap maps: all that clients hold is backed by physical frames.
  `HeapFrames` says which frames these are over whole runs, and `HeapLaws` what freeing undoes.
- **Buddy allocator** (`Arith`, `Links`, `BuddyMath`, `BuddyPool`, `Buddy`, `BuddyRuns`). Memory is bytes; free lists
  are threaded through the first eight bytes of the free blocks, buddies found by exclusive or on absolute
  addresses, shifts computed on bytes.
- **Checksums** (`Folds`, `CrcTables`, `Crc`, `CrcLaws`, `Superblock`). CRC32C and CRC-32 by table against their
  bit-serial definition, the words by which a receiver recognises them, and the ext4 superblock checksum on top.
- **Task switching** (`SchedulerSpec`, `SchedulerHistory`, `Scheduler`). A state machine over timer ticks, task
  creation and flag changes; which locks are free and which task the strategy names are inputs.
  `SchedulerHistory` gives every part of the state as a function of the events alone.
- **PCI enumeration** (`PciSpec`, `PciForest`, `Pci`, `PciMachines`). Recursive traversal of bridges against brute
  force.

The three memory modules end with whole runs (`RbRuns`, `HeapRuns`, `BuddyRuns`) in the form of `Traces`: for every
sequence of operations there is a trace of states from the fresh one to the last, each sound and each following
from the one before by the operation and its answer, and what clients hold at each point is computed from the
operations and the answers alone.

`dafny verify dfyconfig.toml` checks the whole project.

## Where the code does less than it says

- `kalloc_layout` ignores the alignment of a request: `HeapRuns.FirstAllocation` shows that it is met exactly up
  to 16.
- `kfree` leaves the allocated bit of the block set, and the next free goes by that bit when it looks to the right:
  two neighbours become one block when the left one is freed first (`HeapLaws.LeftThenRight`) and stay two when the
  right one is (`HeapLaws.RightThenLeft`). `HeapLaws.RunUndoesSplit` gives the exact condition under which a free
  undoes the request before it.
- The pages mapped for a request may reach the last page of the heap, which holds the sentinels and has a frame
  already: `HeapFrames.FirstRequest` gives the exact condition for the first request, `HeapFrames.PageKept` for any.
- The flag that forbids preempting a process is documented to apply to all its threads. Every task names the
  kernel as its process, so the flag of another process is not looked at: `SchedulerSpec.GroupFlagIgnored` gives
  a run, `SchedulerSpec.GroupFlag` the exact condition.
- With several PCI host controllers the traversal starts at bus 1 and stops at the first missing function of
  the host. `PciMachines.HostMissed` gives a machine and what both enumerations return on it; `Pci.Compare` gives the
  exact condition, for one host and for several: every bus with a visible function is below exactly one bus at
  which the traversal starts. `PciSpec.SeveralHosts` shows that it fails whenever there are several hosts and no
  bridge leads back to bus 0.
- A buddy pool whose base is not aligned to its size has wrong buddies: `BuddyMath.BaseMustBeAligned`, and
  `BuddyMath.UnalignedPage` for a pool of two pages at address 0x1000.
- The comment on the superblock checksum says that the checksum field is set to zero; the code leaves it out,
  and so does the model.

## Model

| member | source | states |
|---|---|---|
| `RbTree.RbTree.constructor` | src/mem/vmalloc/rbtree.rs:151-177 | a valid one-node tree over the given root and sentinel cells; every other cell is untouched |
| `RbTree.RbTree.LeftRotate` | src/mem/vmalloc/rbtree.rs:357-377 | the cells become exactly those of the textbook left rotation, whatever the colours and the rest of memory |
| `RbTree.RbTree.RightRotate` | src/mem/vmalloc/rbtree.rs:379-399 | the same for the right rotation |
| `RbShape.RotLeftShape` | src/mem/vmalloc/rbtree.rs:357-377 | a left rotation keeps parent and child links in agreement and the in-order sequence unchanged |
| `RbShape.RotRightShape` | src/mem/vmalloc/rbtree.rs:379-399 | the same for the right rotation |
| `RbTree.RbTree.FindSlot` | src/mem/vmalloc/rbtree.rs:215-229 | the walk visits exactly the nodes a search for the new size visits and ends below a node whose link on its side is free; that place in the in-order sequence has no larger key before it and only larger keys after it |
| `RbTree.RbTree.AttachLeaf` | src/mem/vmalloc/rbtree.rs:231-243 | the red leaf stands in the in-order sequence at that place; at most the link to its parent breaks the colour rule |
| `RbShape.AttachShape` | src/mem/vmalloc/rbtree.rs:231-243 | attaching a leaf keeps all links in agreement and inserts one element in the in-order sequence |
| `RbTree.RbTree.InsertPush` | src/mem/vmalloc/rbtree.rs:262-284 | with a red uncle the violation moves two levels up, black heights and order kept |
| `RbTree.RbTree.InsertRotateLeft` | src/mem/vmalloc/rbtree.rs:286-308 | with a black uncle on the right one or two rotations end with a tree that has no violation |
| `RbTree.RbTree.InsertRotateRight` | src/mem/vmalloc/rbtree.rs:337-351 | the mirror image |
| `RbTree.RbTree.FixInsert` | src/mem/vmalloc/rbtree.rs:250-355 | the loop ends, by the depth of the violation, with all red-black rules restored and the in-order sequence unchanged |
| `RbTree.RbTree.InsertNode` | src/mem/vmalloc/rbtree.rs:215-248 | for every valid tree and new node: the tree is valid again, the in-order sequence has the node inserted before the first larger key, count grows by one, no key or foreign cell changes; the descent visits at most 2 * log2(count + 1) nodes |
| `RbTree.RbTree.SubtreeMin` | src/mem/vmalloc/rbtree.rs:601-607 | the first node of the subtree in order, and the walk along left links to it |
| `RbTree.RbTree.SwapNodes` | src/mem/vmalloc/rbtree.rs:609-619 | the replacement hangs where the node hung; exactly the parent links this touches change, the sentinel's included |
| `RbShape.SpliceShape` | src/mem/vmalloc/rbtree.rs:405-410 | taking out a node with at most one child keeps the links in agreement and removes exactly its element from the order |
| `RbFix.MoveUpIsSpliceRename` | src/mem/vmalloc/rbtree.rs:411-432 | relinking the successor in place of a node with two children is removing the successor from its place and giving it the node's links and colour |
| `RbTree.RbTree.Unlink` | src/mem/vmalloc/rbtree.rs:401-432 | after the relinking the tree is valid, or exactly one black is missing at the returned place |
| `RbTree.RbTree.FixRemoveLeft` | src/mem/vmalloc/rbtree.rs:450-526 | one round on the left side: the missing black is repaired or moves one level up |
| `RbTree.RbTree.FixRemoveRight` | src/mem/vmalloc/rbtree.rs:528-592 | the mirror image |
| `RbTree.RbTree.FixRemove` | src/mem/vmalloc/rbtree.rs:443-599 | the loop ends with the missing black repaired: all red-black rules hold again, order unchanged |
| `RbTree.RbTree.RemoveNode` | src/mem/vmalloc/rbtree.rs:401-441 | for every valid tree and node in it: the tree is valid again, exactly that node leaves the in-order sequence, count falls by one, every other node keeps its address and key; the walk to the successor visits at most 2 * log2(count + 1) nodes |
| `RbAlgebra.RbIsTextbook` | src/mem/vmalloc/rbtree.rs:250-355 | the links of a valid tree describe an algebraic tree with a black root, no red node with a red child, equal black heights, ordered keys and the same in-order sequence |
| `RbAlgebra.HeightBound` | src/mem/vmalloc/rbtree.rs:188-206 | two to the height of a valid tree is at most the square of its size plus one |
| `RbAlgebra.WalkBound` | src/mem/vmalloc/rbtree.rs:188-229 | no walk down a valid tree of n nodes, from any node and along any links, visits more than 2 * log2(n + 1) nodes |
| `RbTree.RbTree.SearchBestFit` | src/mem/vmalloc/rbtree.rs:179-210 | a node with the least key that is at least the request, or none iff there is no such node (a key of all ones is never found); the walk is the search path of the request, down to an exact match or the end, and at most 2 * log2(count + 1) nodes long |
| `RbTree.RbTree.FindBestNodeFit` | src/mem/vmalloc/rbtree.rs:179-213 | such a node is removed and nothing else, or the tree is unchanged |
| `RbRuns.InsertWithSize` | src/mem/vmalloc/rbtree.rs:215-248 | gives a node that is in no tree a size and inserts it after all nodes that are not larger; the other nodes keep their sizes |
| `RbRuns.Run` | src/mem/vmalloc/rbtree.rs:151-441 | for every sequence of insertions, removals and best-fit searches: each operation answers with the node that went in or out, chosen as promised, and changes the in-order sequence by exactly that node; every tree on the way is balanced and sorted with no walk over 2 * log2(n + 1); at the end it holds exactly the nodes the operations put in and did not take out, with their sizes, and count is their number |
| `AllocHeader.PackUnpack` | src/mem/vmalloc/kheap.rs:44-125 | size and flags determine the header word |
| `AllocHeader.UnpackPack` | src/mem/vmalloc/kheap.rs:78-81 | a size and flags survive being packed in a word iff the size has no low bits |
| `AllocHeader.WordLayout` | src/mem/vmalloc/kheap.rs:44-125 | which bit of the word is which flag |
| `AllocHeader.NumberOfWord` | src/mem/vmalloc/kheap.rs:70-81 | every 64-bit number is the number whose binary digits are the bits of its word |
| `AllocHeader.HeaderStored` | src/mem/vmalloc/kheap.rs:44-125 | a header, its size as a number, can be read back from its word iff the size is a multiple of 16 |
| `AllocHeader.AllocHeader.Allocate` | src/mem/vmalloc/kheap.rs:50-52 | sets the allocated field and no other |
| `AllocHeader.AllocHeader.Free` | src/mem/vmalloc/kheap.rs:54-56 | clears the allocated field and no other |
| `AllocHeader.AllocHeader.SetMapped` | src/mem/vmalloc/kheap.rs:62-68 | sets the mapped field and no other |
| `AllocHeader.AllocHeader.SetLeftAllocated` | src/mem/vmalloc/kheap.rs:87-93 | sets the left-allocated field and no other |
| `AllocHeader.AllocHeader.SetColor` | src/mem/vmalloc/kheap.rs:107-116 | sets the colour and no other field |
| `AllocHeader.AllocHeader.SetSize` | src/mem/vmalloc/kheap.rs:78-81 | for every size: the size read back is the one stored and all flags are kept iff it is a multiple of 16 |
| `KernelHeap.KernelHeapAllocator.constructor` | src/mem/vmalloc/kheap.rs:143-193 | a fresh heap is valid: one unmapped block of the heap size less half a page fills it, tagged at both ends, and the dummy root and both sentinels, marked as taken, lie at fixed places beyond it |
| `KernelHeap.AllocSize` | src/mem/vmalloc/kheap.rs:200-212 | a multiple of 16 that is at least the request and 64, and no larger than needed |
| `KernelHeap.PageRound` | src/mem/vmalloc/kheap.rs:217-222 | the least multiple of the page size that is at least the argument |
| `KernelHeap.KernelHeapAllocator.InitNodeHeader` | src/mem/vmalloc/kheap.rs:441-444 | sets size and left-allocated bit of one header, for sizes a header word has room for |
| `KernelHeap.KernelHeapAllocator.InitFreeNode` | src/mem/vmalloc/kheap.rs:418-434 | both trees stay valid, the block is in the chosen one, and apart from the nodes of the trees only bytes of the block and the tag of its right neighbour change |
| `KernelHeap.KernelHeapAllocator.TakeFit` | src/mem/vmalloc/kheap.rs:214-230 | a smallest sufficient block leaves its tree and nothing else changes, or the tree has no such block and nothing changes |
| `KernelHeap.KernelHeapAllocator.SplitAlloc` | src/mem/vmalloc/kheap.rs:336-369 | the block, or its front if at least 128 bytes are left over, becomes outstanding; the rest is a free mapped block; all clients keep their data. Every header field is as promised: the rest keeps its allocated bit and is marked mapped, the front keeps its mapped bit, headers elsewhere do not change |
| `KernelHeap.KernelHeapAllocator.SplitAllocAndMap` | src/mem/vmalloc/kheap.rs:272-331 | the same for an unmapped block, whose rest is marked unmapped; page i after the one it starts in has the i-th frame of the answer, for every i up to the whole pages of the request, and every other page keeps its frame; without frames the block is lost and null returned |
| `KernelHeap.KernelHeapAllocator.KallocLayout` | src/mem/vmalloc/kheap.rs:199-236 | null iff the request is empty, or no mapped block and no unmapped block with room for whole pages is large enough, or frames are missing for the latter; otherwise the best fitting block is handed out with at least the requested size, and every header field is as promised; every other outstanding block keeps its size, and no byte of its payload changes; pages are mapped exactly for blocks of the unmapped tree, in the order of the frames |
| `KernelHeap.KernelHeapAllocator.MergeScanNeighbors` | src/mem/vmalloc/kheap.rs:371-398 | the neighbours whose tags show them free are in the mapped tree, are the adjacent blocks, and the size is that of all together |
| `KernelHeap.KernelHeapAllocator.Merge` | src/mem/vmalloc/kheap.rs:401-413 | exactly the neighbours found leave the mapped tree; headers keep their fields and clients every byte of their payloads |
| `KernelHeap.KernelHeapAllocator.InsertMerged` | src/mem/vmalloc/kheap.rs:415-434 | the header and tags of the merged block are written and it is in the mapped tree; apart from the nodes of the trees only bytes of the block and the tag of its right neighbour change |
| `KernelHeap.KernelHeapAllocator.Kfree` | src/mem/vmalloc/kheap.rs:242-256 | null is ignored; an outstanding block becomes one free mapped block together with the neighbours whose tags show them free, at most one on each side; it keeps the allocated and mapped bits of its first part, and its right neighbour is told that its left is free; every other outstanding block keeps its size, and no byte of its payload changes |
| `HeapLayout.AllocWhole` | src/mem/vmalloc/kheap.rs:322-331 | the boundary tags stay sound when a whole block is handed out |
| `HeapLayout.AllocCarve` | src/mem/vmalloc/kheap.rs:345-360 | the boundary tags stay sound when the front of a block is handed out and the rest freed |
| `HeapLayout.Release` | src/mem/vmalloc/kheap.rs:401-434 | the boundary tags stay sound when adjacent blocks become one free block |
| `HeapLayout.Leak` | src/mem/vmalloc/kheap.rs:288-291 | so they do when the last block is dropped for want of pages |
| `HeapMeaning.Tiling` | src/mem/vmalloc/kheap.rs:446-454 | the blocks reached from heap start by the right-neighbour step are all the blocks, in address order, and fill the heap exactly up to its fixed end |
| `HeapMeaning.PayloadsDisjoint` | src/mem/vmalloc/kheap.rs:199-236 | an outstanding payload has the requested size, is 16-aligned, and shares no byte with any other block |
| `HeapMeaning.UnmappedIsLast` | src/mem/vmalloc/kheap.rs:391-395 | at most one block is unmapped or lost, and it is the last one |
| `HeapMeaning.TagsSound` | src/mem/vmalloc/kheap.rs:371-398 | a clear left-allocated bit means the left neighbour is in the mapped tree and the footer gives its address; an unallocated mapped right tag means that block is in the mapped tree |
| `HeapMeaning.RolesApart` | src/mem/vmalloc/kheap.rs:436-467 | block tags, tree nodes, footers (of blocks in hand too), the tag at the fence, dummy root and sentinels never share a byte |
| `HeapMeaning.RoleAway` | src/mem/vmalloc/kheap.rs:469-475 | none of them shares a byte with an outstanding payload |
| `HeapMeaning.ClientWriteKeepsRoles` | src/mem/vmalloc/kheap.rs:469-475 | whatever a client writes in its payload, all of them keep their meaning |
| `HeapMeaning.FreeMemoryKeepsRoles` | src/mem/vmalloc/kheap.rs:418-434 | so they do whatever happens to the inside of a block that is not outstanding, between its node and its footer |
| `HeapMeaning.LayoutRestsOnRoles` | src/mem/vmalloc/kheap.rs:371-398 | the layout invariant depends on nothing else in memory, also with blocks in hand |
| `HeapRuns.HeapRestsOnRoles` | src/mem/vmalloc/kheap.rs:436-467 | the validity of trees and tags depends on nothing else in memory |
| `HeapRuns.OneTreeEach` | src/mem/vmalloc/kheap.rs:418-434 | a block that is neither outstanding nor lost is a node of exactly one tree, any other of none |
| `HeapRuns.HeadersStored` | src/mem/vmalloc/kheap.rs:44-125 | the header of every block of a valid heap can be read back from its word |
| `HeapRuns.ClientWrite` | src/mem/vmalloc/kheap.rs:469-475 | any store by a client, cut to its payload, changes exactly those fields and leaves the heap valid |
| `HeapRuns.Scribble` | src/mem/vmalloc/kheap.rs:418-434 | a change of any cell, cut to the inside of the free block it lies in, leaves the heap valid |
| `HeapRuns.Run` | src/mem/vmalloc/kheap.rs:143-256 | for every sequence of requests, frees, client writes and changes of free memory on a fresh heap: each request is served or refused as promised and maps its pages, each free merges as promised, each write changes its bytes only; in every state on the way the blocks fill the heap exactly and live allocations are disjoint, 16-aligned, inside it and backed by frames; what is live is what was handed out and not given back |
| `HeapPages.RequestBacked` | src/mem/vmalloc/kheap.rs:272-300 | a request keeps: every outstanding or mapped block has a frame for each of its bytes, and the unmapped block one for its start |
| `HeapPages.FreeBacked` | src/mem/vmalloc/kheap.rs:242-256 | so does a free |
| `HeapPages.FrontPages` | src/mem/vmalloc/kheap.rs:280-300 | the pages mapped for a block back all its bytes and the start of the next block, if the start of the block had a page |
| `Pages.MapPagesIs` | src/mem/vmalloc/kheap.rs:293-300 | mapping n pages gives each page of the range the frame at the same distance and leaves every other page as it was |
| `Pages.OwnFramesKept` | src/mem/vmalloc/kheap.rs:288-300 | if no two pages share a frame and the new frames are not in use, no two pages share a frame afterwards |
| `HeapFrames.RunOwnFrames` | src/mem/vmalloc/kheap.rs:288-300 | in every state of every run: if no answer of the frame allocator was in use, no two pages share a frame |
| `HeapFrames.ClientsOwnMemory` | src/mem/vmalloc/kheap.rs:199-236 | then two bytes that clients hold, of one allocation or of two, have the same physical address only if they are the same byte |
| `HeapFrames.RunPhysical` | src/mem/vmalloc/kheap.rs:272-300 | from any point of any run to any later one, the bytes of an allocation that is not given back stay at the same physical addresses |
| `HeapFrames.PageKept` | src/mem/vmalloc/kheap.rs:280-300 | a page keeps its frame through a request iff it is not among those mapped for it |
| `HeapFrames.FirstRequest` | src/mem/vmalloc/kheap.rs:272-300 | for every first request on the kernel's own heap: its address, the frame of each page mapped, and that the last page of the heap keeps its frame iff the pages mapped end before it |
| `HeapRuns.InitKernelHeap` | src/mem/vmalloc/mod.rs:27-56 | the first and the last page of the kernel's heap get their frames and are enough for it to start with |
| `HeapRuns.DataKept` | src/mem/vmalloc/kheap.rs:199-256 | from any point of any such run to any later one, no byte of an allocation changes as long as its client neither gives it back nor writes to it |
| `HeapRuns.FirstAllocation` | src/mem/vmalloc/kheap.rs:199-204 | the first allocation of every heap is 16 bytes past its start and honours an alignment iff that is at most 16 |
| `HeapLaws.FreeAtOnce` | src/mem/vmalloc/kheap.rs:336-398 | where the free block ends when a block from the mapped tree is given back at once: at the old end if the allocated bit at the place of the rest was clear, at the rest if it was set; a block handed out whole is merged with a right neighbour that shows free |
| `HeapLaws.FreeUndoesSplit` | src/mem/vmalloc/kheap.rs:336-434 | after that all blocks have the places and sizes from before the request iff that bit was clear |
| `HeapLaws.RunUndoesSplit` | src/mem/vmalloc/kheap.rs:199-256 | the same for any request in any run that the next operation gives back |
| `HeapLaws.UnmappedAtOnce` | src/mem/vmalloc/kheap.rs:272-331 | a part of the unmapped block that is given back at once stays a mapped block of its own |
| `HeapLaws.LeftThenRight` | src/mem/vmalloc/kheap.rs:391-395 | two outstanding neighbours freed one after the other, the left one first, become one block |
| `HeapLaws.RightThenLeft` | src/mem/vmalloc/kheap.rs:382-388 | the right one first, they stay two |
| `BuddyMath.XorPow` | src/mem/bmalloc/heap.rs:361-380 | exclusive or with a power of two on an address flips one bit |
| `BuddyMath.BuddyHalves` | src/mem/bmalloc/heap.rs:361-380 | a block and its buddy are the two halves of the aligned block of twice the size that starts at the lower one |
| `BuddyMath.BaseMustBeAligned` | src/mem/bmalloc/heap.rs:361-380 | splitting a pool finds the upper half at every level iff its base address is aligned to its size |
| `BuddyMath.UnalignedBase` | src/mem/bmalloc/heap.rs:361-380 | a pool whose base is the size of its smallest block finds the other half of its first two blocks at address 0 |
| `Buddy.Log2` | src/mem/bmalloc/heap.rs:401-410 | the number of bits of the argument |
| `Buddy.BitsBound` | src/mem/bmalloc/heap.rs:401-410 | which is one more than the logarithm rounded down |
| `Buddy.CeilLogLeast` | src/mem/bmalloc/heap.rs:255-256 | the exponent of the least power of two that is not smaller |
| `Buddy.BuddyAllocator.AllocationLevel` | src/mem/bmalloc/heap.rs:236-259 | the least level whose blocks have the size and the alignment of the request |
| `Buddy.LevelUnique` | src/mem/bmalloc/heap.rs:206-207 | only one level is the least, so freeing finds the level of the allocation |
| `Buddy.BuddyAllocator.LevelSizeIs` | src/mem/bmalloc/heap.rs:263-265 | block sizes are the powers of two from the smallest to the whole pool |
| `Buddy.BuddyAllocator.FindBuddyIs` | src/mem/bmalloc/heap.rs:361-380 | the byte-wide shift, which wraps around at level 0, yields the other half at every level below the top, and no buddy at the top |
| `Buddy.BuddyAllocator.constructor` | src/mem/bmalloc/heap.rs:114-183 | a valid pool of one free block |
| `Buddy.BuddyAllocator.FreeBlk` | src/mem/bmalloc/heap.rs:321-328 | the block is free and first on its list, with the rest of that list behind it and all other lists as they were; exactly its first eight bytes are written |
| `Buddy.BuddyAllocator.PopBlkWithLevel` | src/mem/bmalloc/heap.rs:297-315 | the first free block on the list of the level is taken, or there is none; the link of a block of the top level is not read |
| `Buddy.Locate` | src/mem/bmalloc/heap.rs:274-289 | the walk along a list finds a block with its predecessor iff the block is on the list |
| `Buddy.BuddyAllocator.RemoveBlk` | src/mem/bmalloc/heap.rs:271-290 | true iff the block was free at that level, and then exactly it is taken off; the only bytes that may change are the link of one free block |
| `Buddy.BuddyAllocator.SplitBlk` | src/mem/bmalloc/heap.rs:334-347 | the block shrinks to the new level, every other outstanding block and its contents stay |
| `Buddy.BuddyAllocator.Allocate` | src/mem/bmalloc/heap.rs:185-204 | null iff no aligned region of the needed level is entirely free; otherwise such a region is handed out, at the start of the first listed free block of the least sufficient level that has one; no other block becomes or stops being outstanding, and no byte of an outstanding block changes |
| `Buddy.BuddyAllocator.MergeRound` | src/mem/bmalloc/heap.rs:212-219 | the block in hand grows by its buddy iff that one is free at the level; no client notices |
| `Buddy.BuddyAllocator.Deallocate` | src/mem/bmalloc/heap.rs:206-228 | the block, and no other, stops being outstanding; all invariants hold again and no byte of the other outstanding blocks changes |
| `BuddyPool.BlocksApart` | src/mem/bmalloc/heap.rs:185-228 | free and outstanding blocks of all levels are pairwise disjoint |
| `Links.LinkSet` | src/mem/bmalloc/heap.rs:50-71 | an address stored as eight bytes, the lowest first, can be read back |
| `BuddyPool.LinkInside` | src/mem/bmalloc/heap.rs:50-57 | the eight bytes of a list link belong to the block that holds it and to no other |
| `BuddyPool.SplitOk` | src/mem/bmalloc/heap.rs:334-347 | cutting a block keeps the partition of the pool in aligned blocks and leaves no two free buddies of one level |
| `BuddyPool.MergeOk` | src/mem/bmalloc/heap.rs:212-219 | so does joining two buddies |
| `BuddyPool.SetFreeOk` | src/mem/bmalloc/heap.rs:221-225 | so does freeing a block whose buddy is not free |
| `BuddyPool.ClientsDeterminePool` | src/mem/bmalloc/heap.rs:206-228 | two pools with the same outstanding blocks have the same free blocks |
| `BuddyPool.FreeRegionInBlock` | src/mem/bmalloc/heap.rs:185-204 | an aligned free region is never split over several free blocks |
| `BuddyPool.FreeRegionIffBlock` | src/mem/bmalloc/heap.rs:185-204 | there is a free region of a level iff there is a free block of that level or a higher one |
| `BuddyPool.HigherRegionsKept` | src/mem/bmalloc/heap.rs:187-200 | a free region of a level stays free through a request if there was a free block of a lower level that is large enough |
| `BuddyPool.AllFreeIsFresh` | src/mem/bmalloc/heap.rs:206-228 | when nothing is outstanding the pool is one free block of the top level |
| `BuddyRuns.ClientWrite` | src/mem/bmalloc/heap.rs:50-57 | a store of a byte in an outstanding block leaves lists and pool valid |
| `BuddyRuns.Run` | src/mem/bmalloc/heap.rs:185-228 | for every sequence of allocations, frees and writes on a fresh pool: each allocation is null iff no aligned region of its level is free and else such a region at the start of a smallest sufficient free block, each free gives back that block and no other, clients keep their data; in every state on the way live allocations have their size and alignment, lie in the pool and are disjoint; what is live is what was handed out and not given back, and if that is nothing the pool is one top-level free block |
| `BuddyRuns.LiveDeterminesPool` | src/mem/bmalloc/heap.rs:185-228 | after any two runs that leave clients with the same allocations the pools have the same free blocks |
| `BuddyRuns.FreeUndoesAlloc` | src/mem/bmalloc/heap.rs:185-228 | giving an allocation back restores all free blocks |
| `BuddyRuns.DataKept` | src/mem/bmalloc/heap.rs:185-228 | from any point of any such run to any later one, no byte of an allocation changes as long as its client neither gives it back nor writes to it |
| `Crc.Crc32cTableOk` | src/fs/ext4/mod.rs:326-583 | every entry is what eight steps of the bit-serial register make of its index |
| `Crc.Crc32TableOk` | src/fs/partitions/gpt.rs:373-407 | the same for the other polynomial |
| `Crc.StepsLinear` | src/fs/ext4/mod.rs:585-595 | the bit-serial register is linear over exclusive or |
| `Crc.LookUp` | src/fs/ext4/mod.rs:588-592 | one look-up and shift is eight bit-serial steps, for every register and byte |
| `Crc.Crc32c` | src/fs/ext4/mod.rs:585-595 | for every byte string the bit-serial reflected CRC of polynomial 0x82F63B78, not inverted; 0xFFFFFFFF for the empty one |
| `Crc.Crc32` | src/fs/partitions/gpt.rs:409-417 | for every byte string the bit-serial reflected CRC of polynomial 0xEDB88320, every bit inverted; 0 for the empty one |
| `Crc.BitByBit` | src/fs/ext4/mod.rs:585-595 | taking in a message byte by byte is taking in its bits one by one, the lowest of each byte first |
| `Crc.AtOnce` | src/fs/ext4/mod.rs:585-595 | up to 32 bits one after the other are one word put in the register at once |
| `Crc.WordsSeparate` | src/fs/ext4/mod.rs:585-595 | no two different words of one length up to 32 bits take the register from one value to the same value |
| `Crc.BurstDetected` | src/fs/ext4/mod.rs:585-595 | two byte strings of one length that differ only inside 32 consecutive bits, wherever these start, have different CRCs |
| `Crc.FourBytesDetected` | src/fs/ext4/mod.rs:585-595 | in particular, when they differ only inside four consecutive bytes |
| `Crc.Crc32BurstDetected` | src/fs/partitions/gpt.rs:409-417 | the same for the inverted CRC |
| `CrcLaws.Crc32Residue` | src/fs/partitions/gpt.rs:409-417 | a byte string followed by a word, lowest byte first, has the CRC 0x2144DF1C iff the word is the CRC of the byte string |
| `CrcLaws.Crc32cResidue` | src/fs/ext4/mod.rs:585-595 | the same without inversion, with 0 |
| `CrcLaws.BytesAtOnce` | src/fs/ext4/mod.rs:585-595 | up to four bytes are one word put in the register at once |
| `CrcLaws.FirstBytesInverted` | src/fs/ext4/mod.rs:585-595 | the CRC of at least four bytes is that of the string with its first 32 bits inverted, from a register of 0 |
| `Superblock.Ext4Superblock.ComputeChksum` | src/fs/ext4/sb.rs:1137-1148 | the CRC of all bytes before the checksum field |
| `Superblock.Ext4Superblock.ValidateChksum` | src/fs/ext4/sb.rs:1067-1082 | true iff the checksum field holds that CRC |
| `Superblock.Ext4Superblock.UpdateChksum` | src/fs/ext4/sb.rs:1088-1090 | afterwards it does; no other field changes |
| `Superblock.UpdateThenChange` | src/fs/ext4/sb.rs:1067-1090 | after an update the superblock validates, and after any change of the fields inside 32 consecutive bits it validates iff the change changed nothing |
| `Scheduler.Kernel.constructor` | src/fzboot/process/mod.rs:26-71 | the state once the kernel process, its thread and the first task exist |
| `Scheduler.Kernel.TimerIrqEntry` | src/fzboot/scheduler/mod.rs:41-73 | the new state and the resumed frame are those of the tick specification, in every combination of taken locks, flags and missing entries |
| `Scheduler.Kernel.IrqScheduleNextTask` | src/fzboot/scheduler/mod.rs:114-179 | nothing happens without a next task or with the current one; an unknown next task is a panic; otherwise the current task waits with the interrupted context, and the next one is resumed and runs, or stays uninitialised the first time |
| `Scheduler.Kernel.InitKernelTask` | src/fzboot/scheduler/task.rs:94-121 | a new uninitialised task of the kernel process under the next free id |
| `Scheduler.Kernel.SpawnThread` | src/fzboot/process/thread.rs:108-140 | a registered thread of the process with its task, or a panic if there is no such process |
| `Scheduler.Kernel.SpawnProcess` | src/fzboot/process/mod.rs:122-157 | a registered process under the next free id; without a page for its page table nothing is registered, but the id is used up |
| `SchedulerSpec.TickKeepsInv` | src/fzboot/scheduler/mod.rs:114-161 | a tick keeps: at most the current task is running, the current process and thread are those it names, and every task's thread is registered |
| `SchedulerSpec.RunInv` | src/fzboot/scheduler/mod.rs:41-161 | this holds after every sequence of ticks, creations and flag changes |
| `SchedulerHistory.RunIsHistory` | src/fzboot/scheduler/mod.rs:41-179 | after every sequence of events the kernel panicked iff a tick gave the processor to a task or a creation named a process that was never created; otherwise every task, thread, process, flag, current id, next id and the failure counter is what the events say |
| `SchedulerHistory.StatesKept` | src/fzboot/scheduler/mod.rs:131-147 | after every such sequence a task that was never switched out is uninitialised with the entry it was created with, and any other one is running if it is the current one and waiting if not |
| `SchedulerHistory.ResumesWhereLeft` | src/fzboot/scheduler/mod.rs:141-161 | a tick that switches tasks resumes exactly the context at which the task was last switched out, or else the one it was created with |
| `SchedulerHistory.TickReads` | src/fzboot/scheduler/mod.rs:41-73 | a tick takes the processor iff all locks are free, neither the kernel nor the current thread forbids it as last set, and another task is named |
| `SchedulerHistory.FlagKept` | src/fzboot/process/thread.rs:108-140 | a thread keeps the flag it was created with until an event changes it |
| `SchedulerHistory.NeverLeft` | src/fzboot/process/thread.rs:108-140 | while it forbids preemption no tick leaves the thread: the same frame, task and tables go on |
| `SchedulerSpec.NoPreemptHonoured` | src/fzboot/scheduler/mod.rs:44-63 | after every such sequence no tick leaves a task whose thread, or whose process as the task names it, must not be preempted |
| `SchedulerSpec.GroupFlag` | src/fzboot/scheduler/task.rs:103-110 | the flag of the process that lists the current thread is honoured iff that process is the kernel, or the kernel or the thread has the flag too |
| `SchedulerSpec.GroupFlagIgnored` | src/fzboot/process/thread.rs:146-158 | the main thread of a process with the flag is preempted |
| `Scheduler.RunThenTick` | src/fzboot/scheduler/mod.rs:41-179 | the handler, after any sequence of events from the start, panics, resumes the interrupted frame, or resumes the next task where it was left, as the events alone say, and so is the state it leaves |
| `Pci.Enumeration.DeviceCheck` | src/drivers/pci/mod.rs:1263-1281 | appends the visible functions of one device |
| `Pci.Enumeration.EnumerateAll` | src/drivers/pci/mod.rs:1251-1260 | lists the visible functions of all buses |
| `PciSpec.BusesOnce` | src/drivers/pci/mod.rs:1251-1281 | brute force lists exactly the visible functions, each once |
| `Pci.Enumeration.FunctionSecbusCheck` | src/drivers/pci/mod.rs:1211-1230 | appends what is behind a bridge and then the function; ends on every acyclic topology |
| `Pci.Enumeration.BusScan` | src/drivers/pci/mod.rs:1233-1246 | appends all that the traversal finds at or below a bus |
| `Pci.Enumeration.ScanHosts` | src/drivers/pci/mod.rs:1198-1204 | appends the scans of buses 1, 2, ... up to the first missing function of the host |
| `Pci.Enumeration.EnumerateTraversal` | src/drivers/pci/mod.rs:1189-1208 | with a single host the scan of bus 0; with several hosts exactly the scans of the buses of the functions from 1 up to the first missing one |
| `PciSpec.ScanTimes` | src/drivers/pci/mod.rs:1211-1246 | the scan of a bus lists exactly the visible functions at or below it, each once, if each bus is behind at most one bridge |
| `PciSpec.OneBridgeTowards` | src/drivers/pci/mod.rs:1211-1230 | two bridges on one bus never lead to the same bus |
| `PciForest.AcyclicExists` | src/drivers/pci/mod.rs:1211-1246 | the ranks by which the traversal ends exist iff no way down bridges leads back to its start |
| `PciForest.ForestExists` | src/drivers/pci/mod.rs:1211-1246 | a topology exists iff, besides, no bus is behind two bridges |
| `PciSpec.TraversalTimes` | src/drivers/pci/mod.rs:1189-1246 | the traversal lists a visible function once iff it is below exactly one bus at which the traversal starts, and an invisible one never |
| `PciSpec.TraversalComplete` | src/drivers/pci/mod.rs:1189-1281 | for every topology in which each bus is behind at most one bridge: the traversal lists what brute force lists, up to order, iff every bus with a visible function is below exactly one of its starting points |
| `PciSpec.SingleHost` | src/drivers/pci/mod.rs:1193-1195 | with a single host that is: every populated bus is reachable from bus 0 |
| `PciSpec.SeveralHosts` | src/drivers/pci/mod.rs:1196-1205 | with several hosts and no bridge back to bus 0 the traversal is never complete |
| `Pci.Compare` | src/drivers/pci/mod.rs:1189-1281 | what both enumerations return, and that the two lists are permutations of each other iff every bus with a visible function is below exactly one starting point |
| `PciMachines.HostMissed` | src/drivers/pci/mod.rs:1196-1205 | on a machine with one visible function, a multifunction host, the traversal returns nothing and brute force returns that function |
| `PciMachines.BridgeFollowed` | src/drivers/pci/mod.rs:1211-1281 | the two lists, in order, for every machine with a host, a bridge of class 06/04 and header type 1 in any slot, and behind it a device of one or two functions on any bus |

## Left out

- KernelHeap.KernelHeapAllocator.constructor: asks for a heap size that is a multiple of 16, since `AllocHeader.SetSize` stores no other, and for an unmapped tag just past the last block, which the kernel gets from zeroed memory.
- KernelHeap.KernelHeapAllocator.Kfree: does not promise that all free neighbours are merged, because allocated bits of free blocks may be stale (`HeapLaws.RightThenLeft`).
- KernelHeap.KernelHeapAllocator.SplitAllocAndMap: takes the answer of `alloc_page` as an input, and stands for `map_physical_memory` by the pages it is asked for; the page tables are not part of this model, and the memory of the model does not move when a page that has a frame gets another (`HeapFrames.PageKept` says when that happens).
- Superblock.Ext4Superblock.ValidateChksum: does not log an error.
- The order of fields in memory: that the checksum is the last field of the superblock and the header the first part of a tree node are assumptions, since neither structure is declared with a fixed layout.
- Scheduler.Kernel.TimerIrqEntry: interrupt flags, end-of-interrupt and the assembly of the context switch are not modelled; the frame to resume is the result.
- Scheduler.Kernel.SpawnProcess: takes a flag that says whether a page can be had; the page table itself is not modelled.
- Buddy.BuddyAllocator.constructor: asks for a pool size that is a power of two, since `resize` and the split pools it makes of other sizes are not modelled, and for a base aligned to that size, because otherwise halves are not buddies (`BuddyMath.BaseMustBeAligned`).
- `perform_task_switch`: the voluntary switch changes only the current task id and is not modelled.
- The round-robin strategy and task queue: any task, or none, may be named next.
- `PCIDevice::load`, base address registers and drivers: a device is identified by bus, device and function.
- ext4 extents, bitmaps and block reads, partition parsing, timestamps, device registers, graphics and boot structures: not modelled.
- Bytes shared by overlapping cells inside a single step of the kernel heap: cells are written as if they were apart, which `HeapMeaning.RolesApart` justifies for every state in which the layout invariant holds, also with blocks in hand. That a call leaves client bytes alone is stated as: no field that has a byte in an outstanding payload changes.
- 64-bit wrap-around of addresses: the model keeps all addresses below 2^64 by its preconditions.
