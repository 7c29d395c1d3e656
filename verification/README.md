# Multiplix: a Dafny model of its memory, process and file code

Multiplix is a small kernel written in D. This project models the parts of it that carry heavy
state and proves what they keep over whole runs. Most components are a `…Spec` module
with the abstract state and the laws about it, and a module with a class whose fields and loops
follow the source, each method proved against the specification.

| files | what they model |
|---|---|
| `Seqs` | sequences without repetition, removal, options |
| `Bits` | powers of two, `log2ceil`, `pow2ceil`, masks, the 32-bit shift of `order_size` |
| `BuddyTree`, `BuddySpec`, `Buddy` | the buddy allocator: free lists threaded through the free blocks |
| `SlabSpec`, `Slab` | the slab layer on top of that same buddy allocator |
| `KrSpec`, `KrArena`, `Kr` | the circular address-ordered free list of the K&R allocator |
| `HashTable`, `Hashmap` | open addressing with deletion by re-insertion |
| `CowSpec`, `Cow` | fork, write fault, user store and teardown over shared page frames |
| `PageSpec`, `PageTable` | the RISC-V three-level page table, its lookup and its iterator |
| `ForkTable` | the loop of fork over two real page tables, tied to the tables of `CowSpec` |
| `SchedSpec`, `SchedInv`, `Sched` | intrusive queues, fork, wait, exit, usleep, timer, scheduler |
| `BcacheSpec`, `BcacheRun`, `Bcache` | the buffer cache and its runs |
| `Layout`, `FsSpec`, `Fs` | bytes on disk, block bitmap, block maps, inode read, write, truncate |
| `Mkfs` | the image builder, read back by the kernel code of `Fs` |
| `CrcTable`, `Crc` | table-driven CRC-32 |
| `ListSpec`, `ListSort` | the in-place list mergesort, remove and undo, reverse |

`dafny verify dfyconfig.toml` checks everything.

## The main results

- **Buddy allocator.** After any run of allocations and frees, the listed free blocks and the
  handed-out blocks tile the heap (`BuddySpec.RunTiles`). A block given has the least power of two
  that is no smaller than the request, the alignment and the smallest block; null is returned exactly
  when no aligned wholly free run of that many bytes exists (`Allocate`); allocating and then
  freeing restores every list in its order (`AllocThenFree`); freeing everything leaves one block
  (`AllFreed`). The class keeps the links inside the free blocks and equals the specification.
- **Slab layer.** Whatever is requested, the memory given shares no byte with any in use, and all
  that was in use stays so, at its address (`Slab.Request`); giving one back leaves the others
  (`Slab.Return`). Each free reaches the layer and the order that served the allocation. A request
  fails exactly when its class has no partly free page and the heap no free page, or, above 2048
  bytes, no free run of the least size that serves it.
- **K&R.** The free list stays circular, ordered and gapped; units obtained equal free plus
  handed-out units; the search ends, also after new memory merged into its predecessor; freeing
  what was just allocated restores the list.
- **Hash map.** Every operation sequence answers as a finite map does, whatever allocations fail, and
  no operation fails whose allocation does not.
- **Copy-on-write.** Sharing cannot be told from copying into a child that may execute all it has: in
  every interleaving of fork, failed fork, fault, store, load, instruction fetch, map, spawn and
  teardown each process has the memory it would have then, reads its bytes, and is killed by the same
  instructions
  (`Cow.RunSimulates`, `CowSpec.KillsIff`, `Cow.RunIsolates`); what it can execute changes only when
  it is made, mapped a page or taken down (`Cow.RunExecutes`). `ForkTable.ShareAll` proves the loop
  of fork over real page tables, which rewrites the table it iterates over, to do what that machine
  says, from tables that `map` builds and again on the child (`Load`, `ForkOfFork`).
- **Page table.** Lookups equal Sv39 translation if and only if the address is canonical and the
  leaf found is legal; what is mapped is where the hardware goes (`MapTranslates`); all leaves stay
  legal if and only if what is mapped is; mapping changes one region; the iterator yields each page
  once, in order.
- **Scheduler.** In every reachable state each process is in the one place its state names, no
  wake-up is lost, a timer takes the core away, and a runnable process with d to go has run by the
  d-th timer (`SchedInv.RunsByTimer`). A sleeper does not run before a timer, nor one that waits
  before a child exits, and one that exited never.
- **Buffer cache.** Clean valid buffers equal the disk, no block has two holders, and after any run a
  miss takes the unreferenced buffer released longest ago (`BcacheRun.LeastRecent`).
- **File system.** Contents refine flat byte sequences; a bitmap bit is set if and only if one
  inode slot owns the block; finished `mkfs` images, root size rounded up and bitmap written, read
  back exactly what was appended to every inode, and the kernel's allocator starts on them at the
  first block the builder left (`Mkfs.BuildAndMount`).
- **CRC-32.** The table loop is the bit-serial definition; bursts within four bytes are detected; a
  message followed by its checksum has a fixed checksum (`Crc.Residue`).
- **Mergesort.** The result is the same nodes, stably sorted, null-terminated.

## Where the code and its names or comments disagree

- `log2ceil` (lib/core/math.d:11-15) is the floor of the logarithm. `Bits.LogIsCeiling`: it is the
  ceiling if and only if the argument is a power of two, which is all the allocators pass; 3 is the
  first argument on which it falls short (`Bits.LogOfThree`).
- `pow2ceil` (lib/core/math.d:17-22) doubles a 64-bit word: its loop ends if and only if the argument
  is at most 2^63 (`Bits.Pow2CeilEnds`); on 2^63 + 1 it never does (`Bits.Pow2CeilSpins`).
- `order_size` (src/plix/alloc/buddy.d:52-54) shifts a 32-bit one and widens it: it is the size of
  the order if and only if that is below 2^31 (`Bits.ShiftExact`). On a heap of 2^31 bytes the first
  split would put the upper half outside the heap (`Bits.ShiftTooFar`).
- `make_block` (src/plix/alloc/block.d:133-138) means to end the chain with a null, and does so for
  slots of 8 bytes only. For every other size the null goes inside the last slot, behind its link
  (`SlabSpec.NullPlace`), and that link leads past the last slot to a word that is never written, where
  the chain ends (`Slab.CutChainEnd`). The count of slots stops the page before it gets there
  (`SlabSpec.FreshPage`, `SlabSpec.CutCount`).
- Sv39 faults on a superpage whose page number is not aligned; the software lookup does not look
  (`PageTable.MisalignedDiffers` gets there with one `map_giga`; `PageSpec.LookupIsTranslation` is
  the exact condition on a lookup, `PageTable.RemapLegal` the one on a mapping).
- The K&R allocator adds a header to the request in 64-bit words (src/plix/alloc/kr.d:45): the units
  hold the request if and only if that sum does not wrap; when it does, one unit with no room for any
  byte is served (`Kr.UnitsEnough`).
- Copy-on-write gives a forked page back its write permission whether or not it was writable before
  (src/plix/trap.d:56-64). Fork leaves alone what stores do if and only if each user page is readable
  when writable and writable, now or after a repair, when readable (`CowSpec.ForkStores`);
  a store to a read-only page kills before a fork and goes through after it (`CowSpec.ReadOnlyTold`).
  The kernel maps user pages readable and writable only (src/plix/elf.d:101, src/plix/proc.d:136).
  The child's pages are all executable, though the parent's stack is not: the child executes what its
  parent does if and only if all the parent's user pages are executable (`CowSpec.ForkExecutes`).
- The root directory size that `mkfs` rounds up (tools/mkfs/mkfs.c:163-168) can exceed the blocks it
  allocated: `Mkfs.RoundedWhole` says it does so exactly when the size was a multiple of the block
  size, and `Mkfs.ShortRoot` builds the image of a directory of 64 entries where it happens.
- The rehash in `resize` starts the new table with the old length and counts every entry again
  (lib/core/hashmap.d:81-91); `Hashmap.Hashmap.Resize` proves no nested resize happens.

## What callers owe

- Buddy heap: a power of two with at least 8 bytes for each smallest block and a page-aligned start
  (src/kernel/main.d:33); addresses are offsets into it. The operations need it to be at most 2^30
  bytes and requests at most 2^63, by the two conditions above. Callers free what they were given,
  with the size they asked for.
- K&R: addresses count header units; `base` neither lies in the arena nor touches it.
- Copy-on-write: the frame that a fault copies into is mapped by nobody; user pages are mapped
  readable and writable.
- Page table: a table page obtained is not in use; a mapping that takes effect at a superpage has
  one of read, write, execute (otherwise the entry would read as a link to a table). Entries start
  zero. A four-kilobyte `map` under a superpage rewrites the superpage, so its effect is stated at
  the level it really has. While a table is iterated over only the permissions of pages already
  yielded change, as fork does.
- Scheduler: one core; each queue operation, and each system call up to its yield, is one step;
  process identities are never reused; counts are unbounded.
- Buffer cache: a client changes only buffers it holds and writes a change back before its last
  release; a buffer is free or holds the block when `bget` is called (otherwise the source stops).
- File system: the file-system layer never writes buffers back, so a released buffer is taken to
  keep its contents; an inode is locked before use; an image is smaller than 2^30 blocks.
- `mkfs`: `ialloc` has an inode left and `iappend` has room, which the source does not check.
- Mergesort: a comparison that is a total preorder on fixed keys, a null-terminated acyclic list of
  at least one and fewer than 2^31 nodes. (The comment at coremark/core_list_join.c:585 allows for the
  empty list, but `tail->next` is written through null before that line.)
- Whether memory is granted is a parameter of each hash map operation and arbitrary in `mappg`; the
  hash function is arbitrary.

## Model

| member | source | states |
|---|---|---|
| Bits.Log2 | lib/core/math.d:11-15 | The result is the greatest n with 2^n at most x (0 for 0) |
| Bits.LogOfPow2 | lib/core/math.d:11-15 | On a power of two the loop finds its exponent |
| Bits.LogIsCeiling | lib/core/math.d:11-15 | What the loop finds is the ceiling of the logarithm if and only if the argument is a power of two |
| Bits.LogOfThree | lib/core/math.d:11-15 | On 3 it finds 1, one less than the ceiling |
| Bits.Pow2CeilEnds | lib/core/math.d:17-22 | In a 64-bit word the loop ends if and only if the argument is at most 2^63 |
| Bits.Pow2CeilSpins | lib/core/math.d:17-22 | On 2^63 + 1 the word never gets there and stays at zero after 64 turns |
| Bits.ShiftExact | src/plix/alloc/buddy.d:52-54 | The 32-bit shift, sign-extended, is the power of two if and only if the count is below 31 |
| Bits.ShiftTooFar | src/plix/alloc/buddy.d:92-99 | At 31 half of it lies past the block that is split |
| Bits.Pow2Ceil | lib/core/math.d:17-22 | The loop ends for arguments up to 2^63 with the least power of two at least x |
| Bits.CeilLogLeast | lib/core/math.d:17-22 | A power of two is at least x exactly from the ceiling exponent on |
| Buddy.BuddyAlloc.constructor | src/plix/alloc/buddy.d:17-23 | The initial heap is one free block of the highest order, and the smallest block times 2^(N-1) is the heap; heaps of at most 2^30 bytes are ready for use |
| Buddy.BuddyAlloc.OrderSizeIs | src/plix/alloc/buddy.d:52-54 | On such heaps the 32-bit shift gives every order its size |
| Buddy.BuddyAlloc.AllocationSize | src/plix/alloc/buddy.d:25-41 | The size is a power of two, no smaller than the request, the alignment and the smallest block, and the least such; false exactly when it exceeds the heap |
| Buddy.BuddyAlloc.SizeLogLeast | src/plix/alloc/buddy.d:25-41 | The exponent that orders are counted from is that of the least such power of two |
| Buddy.AnswerBytes | src/plix/alloc/buddy.d:125-143 | At the order of that size an allocation is null exactly when no aligned free run of so many bytes is left, else one new block of so many bytes, the first of the lowest list that has one |
| Buddy.LowestIs | src/plix/alloc/buddy.d:131-140 | No list below the one served from has a block large enough |
| Buddy.BuddyAlloc.AllocationOrder | src/plix/alloc/buddy.d:43-50 | The order is the rounded exponent less that of the smallest block; false exactly when there is no such order |
| Buddy.BuddyAlloc.FreeListPop | src/plix/alloc/buddy.d:56-69 | Returns and unlinks the first block of the list, also in the highest order whose link word is never written; null exactly on an empty list |
| Buddy.BuddyAlloc.FreeListInsert | src/plix/alloc/buddy.d:71-75 | The block becomes the first of its list; the links in all other free blocks still spell their lists |
| Buddy.BuddyAlloc.FreeListRemove | src/plix/alloc/buddy.d:77-90 | Finds the block if and only if it is listed, and takes out that one block only, keeping the order of the rest |
| Buddy.BuddyAlloc.SplitFreeBlock | src/plix/alloc/buddy.d:92-102 | Cutting a held block down lists every upper half and keeps the low block held |
| Buddy.BuddyAlloc.Allocate | src/plix/alloc/buddy.d:125-143 | Null exactly when no aligned, wholly free run of the least size that serves the request is left, and then nothing changes; else one block of that size is handed out that was free, the first of the lowest list that has one; lists are those of the specification |
| Buddy.BuddyAlloc.AllocateAt | src/plix/alloc/buddy.d:131-140 | One turn of the search: nothing if the order has no block, else what the specification of the whole allocation says, and a block not handed out before |
| Buddy.BuddyAlloc.Dealloc | src/plix/alloc/buddy.d:149-166 | The held block merges with its buddy as long as that is free, then is listed; the assertion on the order cannot fail |
| Buddy.BuddyAlloc.AllocBytes | src/plix/alloc/buddy.d:116-123 | As allocate, 4096-aligned for requests of a page or more and 16-aligned below, null exactly when no such run is left |
| Buddy.BuddyAlloc.FreeBytes | src/plix/alloc/buddy.d:145-147 | Freeing with the size asked for finds the order of the allocation |
| Buddy.BuddyAlloc.UserStore | src/plix/alloc/buddy.d:7-9 | A caller storing anywhere in a block it holds disturbs no free list |
| BuddySpec.RepTiles | src/plix/alloc/buddy.d:56-102 | In every consistent heap free and handed-out blocks are disjoint, aligned to their size, cover every byte, each free one listed once, and their sizes sum to the heap |
| BuddySpec.RunTiles | src/plix/alloc/buddy.d:125-166 | After any run of allocations and frees from the initial heap the blocks tile it and no two buddies are both free |
| BuddySpec.AllocRep | src/plix/alloc/buddy.d:125-143 | An allocation keeps the heap consistent, no two buddies both free, and gives a block not held before |
| BuddySpec.DeallocRep | src/plix/alloc/buddy.d:149-166 | A free keeps the heap consistent, no two buddies both free |
| BuddySpec.AllocFailsIff | src/plix/alloc/buddy.d:125-143 | Allocation returns null if and only if no aligned, wholly unallocated run of the rounded size exists |
| BuddySpec.AllocThenFree | src/plix/alloc/buddy.d:104-114 | Allocating and freeing at the same order restores the heap, every free list in its order |
| BuddySpec.AllFreed | src/plix/alloc/buddy.d:149-166 | A consistent heap with nothing handed out is the initial heap |
| Slab.BlockAlloc.constructor | src/plix/alloc/block.d:15-18 | The layer starts with no pages over any consistent buddy allocator |
| Slab.BlockAlloc.TakeSlot | src/plix/alloc/block.d:32-40 | Gives the first slot of the chain; the head moves on and the count goes up |
| Slab.BlockAlloc.MoveToFull | src/plix/alloc/block.d:65-72 | The head of the partial list becomes the head of the full list |
| Slab.BlockAlloc.AllocInto | src/plix/alloc/block.d:63-74 | A page with a chain gives a slot that was not out, and is moved exactly when it became full |
| Slab.BlockAlloc.CutPage | src/plix/alloc/block.d:133-138 | The loop links every slot but the last to the next and writes only inside the page; the chain ends in a null for slots of 8 bytes, else in a word past the last slot that is never written |
| Slab.BlockAlloc.GetLarge | src/plix/alloc/block.d:53-57 | Null if and only if the buddy heap has no free run; otherwise a page-aligned block that was not handed out |
| Slab.BlockAlloc.MakeBlock | src/plix/alloc/block.d:121-141 | Null if and only if no page is free; otherwise a page new to the layer with its header and chain |
| Slab.BlockAlloc.NewPage | src/plix/alloc/block.d:81-90 | A new page heads the partial list of its class, no slot is out because of it, and every page keeps its class |
| Slab.BlockAlloc.AllocSlot | src/plix/alloc/block.d:59-91 | Null if and only if the class has no partly free page and no page is free; otherwise exactly one more slot is out, of the right class; every page keeps its class and so every slot its address |
| Slab.BlockAlloc.Alloc | src/plix/alloc/block.d:47-91 | Null if and only if there is no space; large requests get one new buddy block, small ones one new slot; nothing else changes hands, and every page keeps its class and so every slot its address |
| Slab.BlockAlloc.Free | src/plix/alloc/block.d:93-119 | Exactly the block or slot given up is no longer out; it goes to the layer that served it, with the header found by rounding down |
| Slab.BlockAlloc.FreeSlot | src/plix/alloc/block.d:105-118 | The page found by rounding down takes the slot back in front of its chain; no other slot changes hands |
| Slab.BlockAlloc.FreeLarge | src/plix/alloc/block.d:98-103 | The buddy allocator frees the block it handed out, although given the unrounded size |
| Slab.BlockAlloc.UserStore | src/plix/alloc/block.d:20-23 | A caller storing anywhere in its slot leaves the slab chains and the buddy lists intact |
| SlabSpec.PageTake | src/plix/alloc/block.d:32-40 | Taking keeps a page right: the first total less allocated entries of the chain are distinct, in bounds and not out |
| SlabSpec.PageGive | src/plix/alloc/block.d:115-118 | Giving back puts the slot in front of the chain and keeps the page right |
| SlabSpec.FreshPage | src/plix/alloc/block.d:121-141 | A page as `make_block` cuts it has every slot on its chain, whatever follows the last one |
| SlabSpec.CutCount | src/plix/alloc/block.d:126-138 | The loop makes one link past the last slot for every slot size but 8 |
| SlabSpec.NullPlace | src/plix/alloc/block.d:138 | The null goes into the last slot, to its first word if and only if slots have 8 bytes, and never past the last slot |
| Slab.CutChainEnd | src/plix/alloc/block.d:133-138 | The last slot's link is null for slots of 8 bytes and otherwise leads to a word that cutting leaves as it was |
| SlabSpec.SlotInside | src/plix/alloc/block.d:105-106 | A slot lies in its page after the header, is never page aligned, and rounding it down gives the page |
| SlabSpec.SlotsApart | src/plix/alloc/block.d:126-138 | Different slots share no byte, in one page or in two |
| SlabSpec.SameOrder | src/plix/alloc/block.d:98-103 | Freeing with the unrounded size finds the buddy order the rounded size was served at |
| SlabSpec.ClassLeast | src/plix/alloc/block.d:47-61 | The class is the least whose slots hold the request, from 8 bytes on; requests above 2048 bytes go to the buddy layer |
| SlabSpec.GivenOk | src/plix/alloc/block.d:115-118 | A free keeps every page and list of the layer right |
| SlabSpec.AddedOk | src/plix/alloc/block.d:86-88 | A new page keeps every page and list of the layer right |
| Slab.OutApart | src/plix/alloc/block.d:47-91 | No two slots that are out overlap |
| Slab.BlockAlloc.LargeApart | src/plix/alloc/block.d:53-57 | A large block shares no byte with a slot that is out, nor with its page |
| Slab.BlockAlloc.LargesApart | src/plix/alloc/block.d:53-57 | No two large blocks overlap |
| Slab.BlockAlloc.UserStoreLarge | src/plix/alloc/block.d:53-57 | A caller storing anywhere in its large block leaves the slab chains and the buddy lists intact |
| Slab.BlockAlloc.Routed | src/plix/alloc/block.d:98-106 | An address in use is page aligned if and only if the buddy layer served it; a slot rounds down to its page |
| Slab.BlockAlloc.InUseApart | src/plix/alloc/block.d:47-119 | Memory in use by two holders shares no byte and has two addresses, whichever layer served each |
| Slab.Request | src/plix/alloc/block.d:47-91 | Null exactly when the class has no partly free page and the heap no free page, or above 2048 bytes no free run of the least size; what is given shares no byte with anything in use, and all that was in use still is, at its address |
| Slab.BlockAlloc.NoSpaceIs | src/plix/alloc/block.d:47-91 | When a request fails, in bytes of the heap |
| Slab.SameLeast | src/plix/alloc/block.d:47-57 | A large request and the size it is rounded to have the same least block |
| Slab.Return | src/plix/alloc/block.d:93-119 | Giving memory back leaves everything else in use |
| Slab.TwoRequests | src/plix/alloc/block.d:47-119 | Two requests of any sizes are apart, the first can be given back after the second, and the second and all before them stay in use |
| Slab.StoreOk | src/plix/alloc/block.d:47-91 | A store into a slot that is out keeps every chain |
| Kr.KrAlloc.constructor | src/plix/alloc/kr.d:16-19 | Starts with no free list and nothing handed out |
| Kr.UnitsEnough | src/plix/alloc/kr.d:44-45 | The units hold the request, with none too many, if and only if request and header do not wrap 64 bits; else one unit without room is taken |
| Kr.KrAlloc.FreeInternal | src/plix/alloc/kr.d:77-98 | The search for the place ends and the pointers and sizes become those of the list with the block in it, merged on both sides |
| Kr.KrAlloc.Morecore | src/plix/alloc/kr.d:31-42 | Null exactly when the heap start reached its end; otherwise the new units are freed into the list and the search resumes at or next to the grown block |
| Kr.KrAlloc.Refill | src/plix/alloc/kr.d:64-66 | At the wrap-around null if and only if no memory is left; else the search goes on behind the block that new memory joined |
| Kr.KrAlloc.Begin | src/plix/alloc/kr.d:48-51 | The first call makes the ring of `base` alone; later calls change nothing |
| Kr.KrAlloc.Take | src/plix/alloc/kr.d:53-62 | The tail of the block is handed out, or the block is unlinked when it fits exactly |
| Kr.KrAlloc.HandOut | src/plix/alloc/kr.d:52-62 | The fit found, old or grown, leaves the arena consistent |
| Kr.KrAlloc.Alloc | src/plix/alloc/kr.d:44-68 | The first block after `freep` that has the units the source computes in 64 bits is served from its end, and the next search starts behind the block before it; if none, new memory handed out whole; null if and only if none and no memory is left. It ends, also after a merge |
| Kr.KrAlloc.Free | src/plix/alloc/kr.d:70-75 | Exactly the block freed goes back to the list, and the next search starts behind the block before it; null changes nothing |
| KrSpec.FreedRing | src/plix/alloc/kr.d:77-98 | Freeing keeps the ring ordered by address with no two free blocks touching |
| KrSpec.SpliceIsFreed | src/plix/alloc/kr.d:85-96 | The two joins at the place found give the pointers and sizes of the merged list, in all four cases |
| KrSpec.UnitsCount | src/plix/alloc/kr.d:5-9 | Disjoint blocks cover as many units as their sizes add up to |
| KrArena.StopsAtPlace | src/plix/alloc/kr.d:80-84 | The loop condition holds at a node if and only if the block belongs right after it, at the ends of the arena too |
| KrArena.Conservation | src/plix/alloc/kr.d:31-68 | Free units and handed-out units add up to the units obtained |
| KrArena.FreeUndoesAlloc | src/plix/alloc/kr.d:53-98 | Freeing what was just carved from any block restores the list |
| KrArena.UsedApart | src/plix/alloc/kr.d:77-98 | A handed-out block lies in the arena and shares no unit with a free one |
| KrArena.FreeArena | src/plix/alloc/kr.d:77-98 | A free keeps every unit in exactly one block |
| KrArena.CarveArena | src/plix/alloc/kr.d:53-62 | An allocation keeps every unit in exactly one block |
| KrArena.GrowArena | src/plix/alloc/kr.d:21-28 | New memory handed out whole keeps every unit in exactly one block |
| KrArena.TopRestored | src/plix/alloc/kr.d:31-62 | Carving the request off the block that new memory grew restores the old list |
| KrArena.TopNext | src/plix/alloc/kr.d:40-41 | After new memory merged, the search is at the grown block or one step before it |
| Hashmap.HomeByMask | lib/core/hashmap.d:55-56 | Masking a hash is its remainder by the capacity |
| Hashmap.NextByMask | lib/core/hashmap.d:140 | Masking the next index is wrapping at the capacity |
| Hashmap.Hashmap.Alloc | lib/core/hashmap.d:30-40 | A new table is the empty map with the least power of two slots that is at least the capacity asked for; it fails exactly when the allocation does |
| Hashmap.Hashmap.Get | lib/core/hashmap.d:54-72 | Found if and only if the key is in the map, with its value; the probe ends |
| Hashmap.Hashmap.Resize | lib/core/hashmap.d:74-98 | Fails exactly when the allocation does; the map and the length are unchanged either way; no nested resize happens although every entry is counted on top of the old length |
| Hashmap.Hashmap.Put | lib/core/hashmap.d:100-128 | Binds the key and nothing else; fails, changing nothing, exactly when the table is half full and the allocation fails |
| Hashmap.Hashmap.RmIdx | lib/core/hashmap.d:130-133 | Clearing a filled slot takes its key, and nothing else, out of the map the entries represent |
| Hashmap.Hashmap.Locate | lib/core/hashmap.d:136-141 | The masked probe ends at the key's slot or at a gap |
| Hashmap.Hashmap.Reinsert | lib/core/hashmap.d:152-155 | Re-inserting an entry of the run never resizes, keeps the map and moves the run on |
| Hashmap.Hashmap.Delete | lib/core/hashmap.d:147-157 | Clearing and re-inserting the rest of the run removes exactly the key and leaves every key reachable, across the wrap-around |
| Hashmap.Hashmap.Remove | lib/core/hashmap.d:135-164 | The key is out of the map even when the shrink fails, and no other key is touched; the table is halved exactly when the key was there, at most an eighth is used afterwards, and memory is granted |
| Hashmap.Hashmap.Clear | lib/core/hashmap.d:166-169 | The empty map in the same table |
| Hashmap.Hashmap.Perform | lib/core/hashmap.d:20-170 | Each operation answers and changes the table as it would a finite map, and fails only when its allocation does |
| Hashmap.Hashmap.Replay | lib/core/hashmap.d:20-170 | Every sequence of operations answers as a finite map does, whatever allocations fail; no operation fails whose allocation does not |
| HashTable.StopsHit | lib/core/hashmap.d:58-72 | Where a probe stops is filled if and only if the key is bound, and then holds its value |
| HashTable.PutTable | lib/core/hashmap.d:111-127 | Writing where the probe stops binds the key and keeps every key reachable |
| HashTable.StartRehash | lib/core/hashmap.d:147-149 | After clearing a slot only keys in the run behind it may have lost their path |
| HashTable.RehashStep | lib/core/hashmap.d:151-157 | Re-inserting one entry repairs its path and breaks none |
| HashTable.PutBack | lib/core/hashmap.d:151-157 | Re-inserting one entry leaves the represented map as it was |
| HashTable.EndDeletion | lib/core/hashmap.d:151-157 | At the first gap every key is reachable again |
| HashTable.CopyStep | lib/core/hashmap.d:86-91 | The entries copied so far represent a map that never has the next key |
| HashTable.HasRoom | lib/core/hashmap.d:101-106 | A table with more slots than keys has a gap, so probes end |
| CowSpec.ForkCopies | src/plix/proc.d:94-103 | The child starts with the parent's bytes, nobody else's view changes, counts stay at least the entries and a writable entry stays the only one |
| CowSpec.FailedForkInv | src/plix/proc.d:98-102 | A fork that fails part way changes no view and keeps the invariant, though entries were made copy-on-write and counts were raised |
| CowSpec.RepairKeeps | src/plix/trap.d:56-97 | The fault makes the page writable, changes no view and keeps the invariant, whether it takes the page over or copies it |
| CowSpec.StoreIsolated | src/plix/trap.d:54-97 | A store through a writable entry changes that byte of that process and no other view |
| CowSpec.DropKeeps | src/plix/proc.d:149-163 | Teardown removes one process and changes no other view |
| CowSpec.MappedIsCounted | src/plix/proc.d:153-161 | A page some user entry maps has a count of at least one, so teardown frees no page |
| CowSpec.MapFreshInv | src/plix/vm.d:65-73 | Mapping a new page keeps the invariant and adds its bytes to one view |
| CowSpec.AttemptIsolated | src/plix/trap.d:54-97 | A store, at once or after a repair, changes one byte of one process and leaves the page writable; one that kills changes nothing |
| CowSpec.KillsIff | src/plix/trap.d:46-97 | With entries as the loader and fork make them a store or load kills if and only if the page is not in the process's private memory; a load reads that memory's byte |
| CowSpec.ForkStores | src/plix/proc.d:98-99 | Fork changes no store's outcome in parent or others if and only if each user page of the parent is readable when writable, and writable or repairable when readable; the child stores as its parent did if and only if each is writable or repairable |
| CowSpec.ReadOnlyTold | src/plix/trap.d:56-64 | A store to a read-only user page kills before a fork and goes through after it, in parent and child |
| CowSpec.ForkExecutes | src/plix/proc.d:99 | The child executes what its parent does if and only if all user pages of the parent are executable |
| CowSpec.RepairPerms | src/plix/trap.d:60-83 | A repair sets write and clears copy-on-write on its entry, and changes no other permission of any entry |
| CowSpec.RepairExecs | src/plix/trap.d:60-83 | A repair changes for no page whether it can be executed |
| CowSpec.AttemptExecutes | src/plix/trap.d:54-97 | Nor does a store with its repair |
| CowSpec.RepairBalance | src/plix/trap.d:67-88 | Every page's count keeps its distance to the number of entries that map it over a repair |
| CowSpec.ForkBalance | src/plix/proc.d:94-103 | And over a fork |
| CowSpec.ForkExecs | src/plix/proc.d:94-103 | A fork makes every user page of the child executable and changes no other process |
| CowSpec.ForkForUser | src/plix/proc.d:94-103 | Fork keeps every user entry readable and writable or repairable |
| CowSpec.AttemptForUser | src/plix/trap.d:54-97 | So does a store with its repair |
| Cow.Kernel.Mappg | src/plix/vm.d:65-73 | Raises the count of the page if and only if the entry was made |
| Cow.Kernel.PageFault | src/plix/trap.d:40-97 | Kills if and only if the address is no user page or is not a write to a readable copy-on-write page; otherwise repairs that entry, which is writable then; no view and no page's execute permission changes |
| Cow.Kernel.MakeFromParent | src/plix/proc.d:89-117 | The loop over the parent's entries gives the forked state, or one of the failed ones, in which no view changed |
| Cow.Kernel.UserStore | src/plix/trap.d:54-97 | A store, faulting first if need be, leaves exactly the state of the copy-on-write machine: the byte written, the entry writable, or everything as it was; it kills if and only if the page is no user page or neither writable nor repairable |
| Cow.Kernel.Destroy | src/plix/proc.d:149-163 | The destructor finds no page with count zero and removes only that process |
| Cow.StepSimulates | src/plix/trap.d:40-97 | Every step keeps the invariant and the permissions of user entries, is the step of a machine in which each process has private memory and pages it can execute, and shows the process the same: done, the byte read, or killed |
| Cow.RunSimulates | src/plix/proc.d:89-117 | Every interleaving of steps, loads, instruction fetches and kills included, is a run of that machine of private memories in which all processes see the same |
| Cow.RunExecutes | src/plix/trap.d:40-97 | Over any run what a process can execute changes only by being made, mapped a page, or taken down |
| Cow.StepExecs | src/plix/trap.d:40-97 | Which pages can be executed changes by fork, map, spawn and teardown as the private machine says, and by no other step |
| Cow.RunIsolates | src/plix/trap.d:40-97 | Over any interleaving of other processes' steps a process sees the same bytes |
| PageSpec.RegionIsBlock | src/plix/arch/riscv64/vm.d:97-99 | Two addresses share the indices down to a level if and only if they lie in one block of that level's size, within 39 bits |
| PageSpec.OffsetParts | src/plix/arch/riscv64/vm.d:193-199 | The offset in a superpage is the lower indices and the page offset |
| PageSpec.Unshared | src/plix/arch/riscv64/vm.d:122-128 | Tables form a tree: no table has two links to it, none links to the root, and levels go down |
| PageSpec.StepAgrees | src/plix/arch/riscv64/vm.d:107-133 | From any table the walk of section 4.3.2 of the RISC-V Privileged Architecture gives the software's answer on legal leaves and a fault on all others |
| PageSpec.LookupIsTranslation | src/plix/vm.d:108-116 | Lookup and Sv39 translation agree if and only if nothing is found, or the address is canonical and the leaf legal |
| PageTable.Pagetable.constructor | src/plix/arch/riscv64/vm.d:101-102 | The zero table maps nothing and has no bare entry |
| PageTable.Pagetable.Walk | src/plix/arch/riscv64/vm.d:107-133 | Finds the entry of the address at the level asked for, or the covering superpage; null exactly at a missing table with no page to be had; tables made on the way change no lookup and leave no bare entry |
| PageTable.Pagetable.WalkOnly | src/plix/arch/riscv64/vm.d:135-137 | Walking with no allocator changes nothing and finds the entry, or the superpage above it, or null at a missing table |
| PageTable.Pagetable.SetPte | src/plix/arch/riscv64/vm.d:150-152 | Writes one entry of one table |
| PageTable.Pagetable.Map | src/plix/arch/riscv64/vm.d:145-154 | True remaps exactly the region of the effective level, with the address and permissions given; false means the allocator had no page and changes no lookup; all leaves stay legal if and only if the one mapped is, and valid entries stay leaves if and only if it can be read, written or executed |
| PageTable.Pagetable.MapGiga | src/plix/arch/riscv64/vm.d:159-164 | Remaps exactly one gigabyte region; all leaves stay legal if and only if it is readable when writable and aligned; valid entries stay leaves |
| PageTable.Pagetable.LookupVa | src/plix/vm.d:108-116 | The leaf entry found and the size of its level |
| PageTable.LinkFind | src/plix/arch/riscv64/vm.d:122-128 | Linking a new zero table changes no lookup |
| PageTable.LinkTree | src/plix/arch/riscv64/vm.d:122-128 | Linking a new zero table where an entry was invalid leaves the tables a tree |
| PageTable.WriteFind | src/plix/arch/riscv64/vm.d:150-152 | Writing an entry changes the lookups that reach it and no others |
| PageTable.WriteRemaps | src/plix/arch/riscv64/vm.d:145-154 | Writing the entry reached remaps exactly the addresses of its region |
| PageTable.SameTable | src/plix/arch/riscv64/vm.d:107-133 | Two walks that meet in a table had the same indices |
| PageTable.RemapLegal | src/plix/arch/riscv64/vm.d:145-154 | Where all leaves were legal they still are if and only if the leaf written is |
| PageTable.SameLegal | src/plix/arch/riscv64/vm.d:122-128 | A step that changes no lookup keeps every leaf legal |
| PageTable.HardwareAgrees | src/plix/vm.d:108-116 | For tables built by legal maps, translation is the software lookup at every canonical address |
| PageTable.MapTranslates | src/plix/arch/riscv64/vm.d:145-154 | After mapping an aligned page or superpage every canonical address of the region translates to the same offset in it, with the permissions given |
| PageTable.IllegalFaults | src/plix/vm.d:108-116 | At a canonical address with a leaf the hardware faults if and only if the leaf is not legal |
| PageTable.MisalignedDiffers | src/plix/arch/riscv64/vm.d:159-164 | One `map_giga` to an unaligned page on an empty table: lookup finds it and translation faults |
| PageTable.PtIter.constructor | src/plix/vm.d:124-126 | Starts at address zero |
| PageTable.PtIter.Advance | src/plix/vm.d:128-147 | Moves on by a page or a whole superpage and passes no page over |
| PageTable.PtIter.Next | src/plix/vm.d:149-162 | The next page at or after the position, or none below the limit; the loop ends |
| PageTable.PtIter.ForEach | src/plix/vm.d:164-171 | Over a table left alone yields every valid page below the limit exactly once, ascending |
| PageTable.StartNext | src/plix/vm.d:141 | The iterator always meets a superpage at its start |
| PageTable.NoPages | src/plix/vm.d:136-141 | No page is found inside a superpage |
| PageTable.PageIsLookup | src/plix/vm.d:108-147 | Without bare entries the pages that the iterator yields are those that lookup finds at the last level |
| PageTable.FoundReach | src/plix/arch/riscv64/vm.d:107-133 | A leaf found at the last level stands in a table that the walk reaches |
| PageTable.WriteNoBare | src/plix/arch/riscv64/vm.d:150-152 | Writing an entry leaves no bare one if and only if it is a leaf or links from an upper level |
| PageTable.LinkNoBare | src/plix/arch/riscv64/vm.d:122-128 | Linking a new zero table leaves no bare entry |
| ForkTable.RewritePage | src/plix/proc.d:98 | Rewriting the permissions of a yielded page changes that page's entry only |
| ForkTable.RewriteStart | src/plix/proc.d:98 | Rewriting a page's permissions leaves the iterator at the start of what comes next |
| ForkTable.FindsSpells | src/plix/vm.d:108-147 | In a table without bare entries what lookup finds is what the iterator goes over |
| ForkTable.YieldsAll | src/plix/vm.d:149-171 | Iterating over a table yields exactly the pages mapped in it, each once, ascending, with their entries |
| ForkTable.Mappg | src/plix/vm.d:65-76 | Mapping a page adds it to what lookup finds, over what was there, or changes nothing when there is no memory for a table |
| ForkTable.Load | src/plix/elf.d:80-110 | Pages mapped one after another into an empty table are what fork then iterates over |
| ForkTable.ShareOne | src/plix/proc.d:94-103 | One turn: the parent's entry is shared, the child maps the page or is unchanged, the iterator stays ready |
| ForkTable.ShareAll | src/plix/proc.d:94-103 | The whole loop, iterating over the table it rewrites, leaves the parent and child tables that the copy-on-write machine names, complete or as far as a failed allocation let it get, for lookup and for a further fork of either |
| ForkTable.ForkOfFork | src/plix/proc.d:89-103 | A forked process forks: the grandchild has the child's entries and the child keeps them |
| ForkTable.SharedAgain | src/plix/proc.d:98-99 | Sharing a child's entries again changes none of them and copies all |
| Sched.PushLinked | src/plix/schedule.d:13-23 | The links spell the queue with the process in front |
| Sched.RemoveLinked | src/plix/schedule.d:25-37 | The links spell the queue without the process, at either end or inside |
| Sched.PushLists | src/plix/schedule.d:13-23 | Although all queues share the link fields the other queues are untouched |
| Sched.RemoveLists | src/plix/schedule.d:25-37 | Taking a process out of its queue leaves the other queues untouched, although all share the link fields |
| Sched.Kernel.constructor | src/kernel/main.d:44-54 | The boot state: one process, in the run queue |
| Sched.Kernel.PushFront | src/plix/schedule.d:13-23 | The process is first in that queue; no other queue changes |
| Sched.Kernel.Remove | src/plix/schedule.d:25-37 | The process is in no queue; the order of the others stays |
| Sched.Kernel.PopBack | src/plix/schedule.d:39-46 | The last process of the queue, or null exactly when it is empty |
| Sched.Kernel.Wake | src/plix/schedule.d:55-60 | The process moves to the front of the run queue, runnable; its `wq` stays |
| Sched.Kernel.WakeAll | src/plix/schedule.d:48-53 | All sleepers move to the run queue before those in it, the front sleeper last to be in front, and the loop ends |
| Sched.Kernel.Stop | src/plix/proc.d:181-193 | The running process is in the queue its `wq` names, in the state given |
| Sched.Kernel.Schedule | src/plix/schedule.d:98-109 | Picks the last of the run queue, or waits exactly when it is empty |
| Sched.Kernel.SysFork | src/plix/syscall.d:113-124 | Child in front of the run queue and counted; or an error, with an identity spent only if the process was made and then dropped |
| Sched.Kernel.FindChild | src/plix/syscall.d:131-139 | The exited child that stands first in the queue, none before it, or none exactly when there is none |
| Sched.Kernel.SysWait | src/plix/syscall.d:126-144 | Error without children; else reaps the exited child that stands first and returns it; else gives up the core and waits, exactly when no child has exited |
| Sched.Kernel.SysExit | src/plix/syscall.d:146-156 | Wakes a parent that waits, gives up the core and joins the exit queue |
| Sched.Kernel.SysUsleep | src/plix/syscall.d:162-174 | One turn of the loop: done exactly when the time has passed, else the core is given up and the caller is in the ticks queue |
| Sched.Kernel.IrqTimer | src/plix/trap.d:19-32 | Wakes all sleepers; the running process gives up the core and is the last of all to be picked |
| SchedInv.BootInv | src/kernel/main.d:44-54 | The boot state satisfies the invariant |
| SchedInv.InvStep | src/plix/syscall.d:113-174 | Every enabled step keeps the invariant |
| SchedInv.InvWait | src/plix/syscall.d:126-144 | Wait keeps it in all its outcomes |
| SchedInv.InvExit | src/plix/syscall.d:146-156 | Exit keeps it |
| SchedInv.InvFork | src/plix/syscall.d:113-124 | Fork keeps it |
| SchedInv.InvTimer | src/plix/trap.d:19-32 | The timer keeps it |
| SchedInv.InvRun | src/plix/schedule.d:98-109 | Every run keeps it |
| SchedInv.ReachablePlaces | src/plix/proc.d:181-193 | In every reachable state each process runs or is in exactly one queue, once, the one its state and `wq` name, and `children` counts its unreaped children |
| SchedInv.NoLostWakeup | src/plix/syscall.d:141-154 | A process in the wait queue has no exited child waiting and at least one live child |
| SchedInv.WokenWaitReaps | src/plix/syscall.d:130-143 | A process woken from wait reaps one child and does not block again |
| SchedInv.SearchFinds | src/plix/syscall.d:131-139 | The search of the exit queue finds a child if and only if one has exited |
| SchedInv.AheadStep | src/plix/schedule.d:75-109 | Only picks bring a waiting process nearer, by one each, and nothing puts it back |
| SchedInv.PickedInTurn | src/plix/schedule.d:75-109 | A process with d processes to go is running right after the d-th pick |
| SchedInv.TimerYields | src/plix/trap.d:19-32 | After a timer the core is free, the process that ran is last of all that can run, all sleepers can, and there is somebody to pick |
| SchedInv.RunsByTimer | src/plix/schedule.d:75-109 | With a pick after each timer, a process with d to go has had the core when no more than d timers have gone by |
| SchedInv.AsleepTillTimer | src/plix/syscall.d:162-174 | A sleeper does not run before a timer |
| SchedInv.WaitsForChild | src/plix/syscall.d:126-144 | Who waits for a child does not run before one exits |
| SchedInv.ExitedForGood | src/plix/syscall.d:146-156 | An exited process stays in the exit queue until it is reaped and never runs again |
| SchedInv.ForkedIsLast | src/plix/syscall.d:113-124 | A forked child is runnable behind all others, and its parent keeps the core |
| SchedInv.FirstInQueue | src/plix/syscall.d:131-139 | The search gives a child with no other before it in the exit queue |
| Bcache.BufferCache.constructor | src/plix/fs/bcache.d:37-47 | A ring of all buffers, none valid or referenced |
| Bcache.BufferCache.FindBlock | src/plix/fs/bcache.d:50-55 | The buffer of the block, none exactly when no buffer has it |
| Bcache.BufferCache.FindFree | src/plix/fs/bcache.d:57-65 | The least recently released unreferenced buffer, none exactly when all are referenced |
| Bcache.BufferCache.Bget | src/plix/fs/bcache.d:49-68 | References the buffer of the block if there is one, else recycles the oldest unreferenced one |
| Bcache.BufferCache.Bread | src/plix/fs/bcache.d:70-77 | One reference more if the block had a buffer, else one, in the unreferenced buffer released longest ago; the data is what the disk holds unless a holder has an unwritten change; no other buffer and no place in the list changes |
| Bcache.BufferCache.Modify | src/plix/fs/bcache.d:79-81 | A client changing the data of a buffer it holds keeps the cache consistent |
| Bcache.BufferCache.Bwrite | src/plix/fs/bcache.d:79-81 | The disk holds the data of the buffer afterwards, and no other block changes |
| Bcache.BufferCache.Brelease | src/plix/fs/bcache.d:83-93 | One reference less; the last moves the buffer to the front, released after all others, whose order and times stay; otherwise nothing moves |
| Bcache.TwoReaders | src/plix/fs/bcache.d:70-93 | Two readers of one block have one buffer, both can release it, and its references are then as before them |
| Bcache.TwoBlocks | src/plix/fs/bcache.d:49-93 | With two free buffers, a block read and released is still cached after another one is |
| Bcache.BufferCache.Bpin | src/plix/fs/bcache.d:95-97 | One reference more |
| Bcache.BufferCache.Bunpin | src/plix/fs/bcache.d:99-101 | One reference less without moving the buffer |
| BcacheSpec.InsertRing | src/plix/fs/bcache.d:88-91 | Four assignments put a buffer in front of the ring |
| BcacheSpec.UnlinkRing | src/plix/fs/bcache.d:86-87 | Two assignments take it out of the ring |
| Bcache.MoveRing | src/plix/fs/bcache.d:86-91 | Together they leave a ring of the same buffers |
| BcacheSpec.OneHolder | src/plix/fs/bcache.d:49-68 | No block is held by two buffers that are valid or referenced |
| BcacheSpec.RecycledInv | src/plix/fs/bcache.d:57-64 | Recycling keeps the invariant: referenced buffers keep their identity and each block one holder |
| BcacheSpec.ReleasedInv | src/plix/fs/bcache.d:83-93 | Release keeps the list a permutation ordered by last release |
| BcacheRun.RunTimes | src/plix/fs/bcache.d:49-101 | In every run the time kept for a buffer is the place of its last release in the sequence of calls |
| BcacheRun.LeastRecent | src/plix/fs/bcache.d:57-64 | After any run a miss takes an unreferenced buffer before which no other unreferenced one was released, and the list runs from the last released to the first |
| BcacheRun.StepInv | src/plix/fs/bcache.d:49-101 | Every call keeps the invariant |
| BcacheSpec.FilledInv | src/plix/fs/bcache.d:72-75 | Reading from disk keeps clean valid buffers equal to the disk |
| Bcache.LastFree | src/plix/fs/bcache.d:57-58 | The last unreferenced buffer of the list is the least recently released one |
| Layout.WordAfter | src/plix/fs/file.d:251-256 | Writing one little-endian word of a block is read back and leaves the other words |
| Layout.BitAfter | src/plix/fs/fs.d:81-83 | Setting or clearing one bit leaves the others |
| Layout.BitWeight | src/plix/fs/fs.d:98-102 | Setting adds and clearing takes away the weight of the bit |
| Layout.BitBack | src/plix/fs/fs.d:82-102 | Setting a clear bit and clearing it again restores the byte |
| Layout.DinodeAfter | src/plix/fs/file.d:173-179 | Writing one inode of a block is read back and leaves the other inodes |
| FsSpec.BitOfAfter | src/plix/fs/fs.d:77-105 | Changing one block's bit changes no other block's |
| FsSpec.BitOfBack | src/plix/fs/fs.d:77-105 | Allocating and freeing a block restores the bitmap byte for byte |
| FsSpec.SetBitInv | src/plix/fs/fs.d:81-86 | A block whose bit was clear is data, owned by nobody, and may be handed out |
| FsSpec.ClearBitInv | src/plix/fs/fs.d:95-105 | A block in hand has its bit set, and clearing it keeps the bitmap exact |
| FsSpec.SetAddrInv | src/plix/fs/file.d:232-249 | Storing a block in an empty direct or indirect address makes that slot its one owner |
| FsSpec.SetEntryInv | src/plix/fs/file.d:251-256 | Storing a block in an empty entry of an indirect block makes that slot its one owner |
| FsSpec.EmptiedInv | src/plix/fs/file.d:264-285 | Emptying an inode leaves exactly its blocks in hand |
| FsSpec.DataBytes | src/plix/fs/file.d:327-330 | Overwriting a data block changes the bytes of that block of that file and of no other |
| Fs.FileSystem.Balloc | src/plix/fs/fs.d:77-93 | The lowest clear bit, its block zeroed and no file changed; 0 if and only if every bit is set |
| Fs.FileSystem.Bfree | src/plix/fs/fs.d:95-105 | Clears that one bit; the assertion that it was set cannot fail |
| Fs.FileSystem.Address | src/plix/fs/file.d:231-249 | A present address is returned and nothing changes; a missing one is allocated; 0 only when the disk is full |
| Fs.FileSystem.Bmap | src/plix/fs/file.d:227-262 | The block of the file's n-th position, directly or through the indirect block; allocation changes no byte of any file |
| Fs.FileSystem.Lock | src/plix/fs/file.d:188-204 | The inode in memory is the one on disk |
| Fs.FileSystem.Update | src/plix/fs/file.d:171-181 | The disk holds the inode; no contents and no bitmap bit change |
| Fs.FileSystem.Read | src/plix/fs/file.d:295-312 | As many bytes from the offset as were asked for or as there are up to the size, none beyond it or when the sum wraps; fewer only when a missing block meets a full disk; a read that meets no missing block changes nothing |
| Fs.FileSystem.Extend | src/plix/fs/file.d:333-336 | The size grows to the end of the write if that is larger, on disk too |
| Fs.FileSystem.Write | src/plix/fs/file.d:314-339 | -1 exactly beyond the end or the maximum, and then nothing changes; else r bytes are the source's, all other bytes of all files stay, the size grows as needed, and r is short only when the disk is full |
| Fs.FileSystem.Trunc | src/plix/fs/file.d:264-285 | The file has size 0 and no blocks, on disk too, and exactly the bits of its blocks are cleared; no other file changes |
| Fs.FileSystem.FreeIndirect | src/plix/fs/file.d:272-282 | Frees every block of the indirect block, then itself |
| Fs.AllocStep | src/plix/fs/fs.d:77-93 | Allocating keeps the invariant: a bit is set if and only if the block is metadata, owned by one slot or in hand |
| Fs.FreeStep | src/plix/fs/fs.d:95-105 | Freeing keeps it and finds the bit set |
| Fs.InodeWrite | src/plix/fs/file.d:171-181 | Writing an inode back changes no other inode, slot or byte |
| Fs.WriteChunk | src/plix/fs/file.d:323-331 | Each turn of the loop writes its piece of the source and nothing else, across the direct and indirect boundary |
| Fs.WrittenContents | src/plix/fs/file.d:314-339 | After a write the file is the old byte sequence overwritten at the offset, and every other file is the same sequence |
| Fs.WrittenWhole | src/plix/fs/file.d:314-339 | A write leaves no missing block below the size if there was none |
| Fs.SizeBound | src/plix/fs/file.d:318-320 | A file with no missing block is at most the maximum size |
| Fs.TruncDone | src/plix/fs/file.d:264-285 | When all keys are done exactly the file's bits are clear |
| Mkfs.SbGeometry | tools/mkfs/mkfs.c:92-103 | The layout is one the kernel accepts, with 46 metadata blocks |
| Mkfs.SuperRead | tools/mkfs/mkfs.c:96-115 | The kernel reads back the superblock, magic number included |
| Mkfs.Builder.constructor | tools/mkfs/mkfs.c:108-115 | The zeroed image with its superblock holds no file |
| Mkfs.FreshImage | tools/mkfs/mkfs.c:110-115 | The zeroed image is consistent, with every inode empty and only metadata used |
| Mkfs.Builder.Ialloc | tools/mkfs/mkfs.c:220-232 | The next inode becomes an empty file of that type and no other inode changes |
| Mkfs.Builder.Rinode | tools/mkfs/mkfs.c:198-209 | The inode last written |
| Mkfs.Builder.Winode | tools/mkfs/mkfs.c:184-196 | Writes that inode; no slot or byte of a file changes |
| Mkfs.Builder.BlockFor | tools/mkfs/mkfs.c:266-283 | The block of the position, taken from `freeblock` if missing, with the indirect block before its first entry; the counter goes up by exactly the blocks taken |
| Mkfs.Builder.AddrFor | tools/mkfs/mkfs.c:269-276 | The block in a direct address or the indirect one, taken from `freeblock` if missing |
| Mkfs.Builder.EntryFor | tools/mkfs/mkfs.c:277-282 | The block in an entry of the indirect block, taken and entered there if missing |
| Mkfs.Builder.Iappend | tools/mkfs/mkfs.c:252-294 | The file is its old bytes followed by the new, every other file is unchanged, and exactly the needed blocks are taken |
| Mkfs.Builder.EndAppend | tools/mkfs/mkfs.c:292-293 | The size written last makes the inode hold its old bytes followed by the new |
| Mkfs.AppendChunk | tools/mkfs/mkfs.c:265-291 | Each turn of the loop appends its piece |
| Mkfs.AppendDone | tools/mkfs/mkfs.c:292-293 | With the size written every file holds what was appended to it |
| Mkfs.BlockCount | tools/mkfs/mkfs.c:266-283 | A piece needs a block exactly at a block boundary, and two at the first indirect one |
| Mkfs.NextBlock | tools/mkfs/mkfs.c:268-283 | Blocks are missing exactly from the end of the file on |
| Mkfs.Builder.Balloc | tools/mkfs/mkfs.c:234-248 | On an image whose root size was rounded up, or any other, the bitmap makes the image consistent for the kernel and changes no file |
| Mkfs.BitmapWritten | tools/mkfs/mkfs.c:241-247 | A bitmap of the used blocks is exact: a bit is set if and only if the block is metadata or owned |
| Mkfs.FreeAbove | tools/mkfs/mkfs.c:234-248 | On the image a bit is set exactly below `freeblock` |
| Mkfs.Builder.KernelBalloc | src/plix/fs/fs.d:77-93 | On a finished image the kernel's allocator returns the first block the builder did not use, never metadata or a used block, and 0 exactly when there is none |
| Mkfs.Builder.ReadBack | src/plix/fs/file.d:295-312 | On a finished image kernel lock and read of n bytes return the first n bytes appended to any inode, the root included, and all of them when n is larger; the size is their number, rounded up for the root |
| Mkfs.BuildAndMount | tools/mkfs/mkfs.c:117-172 | A root directory and a file as `main` writes them: the kernel reads both back, the directory's size rounded up, and allocates the first block behind them |
| Mkfs.Build | tools/mkfs/mkfs.c:117-172 | The steps of `main` end in a consistent image with both files and exactly the blocks they need |
| Mkfs.Builder.Finish | tools/mkfs/mkfs.c:163-170 | Rounding the root's size and writing the bitmap finishes the image |
| Mkfs.Builder.ValidBuilt | tools/mkfs/mkfs.c:170 | An image with no size rounded up is one that can be finished too |
| Mkfs.SmallFile | tools/mkfs/mkfs.c:252-294 | No file of an image comes near the kernel's maximum, because its blocks would not fit |
| Mkfs.Builder.RoundSize | tools/mkfs/mkfs.c:163-168 | The size is rounded up past the next boundary and the image can be finished; all blocks of the rounded size are there if and only if the size was not a multiple of the block size |
| Mkfs.RoundedWhole | tools/mkfs/mkfs.c:163-168 | The same of any file that has exactly the blocks it needs |
| Mkfs.ShortRoot | tools/mkfs/mkfs.c:163-168 | A directory of 64 entries of 16 bytes ends up with 2048 bytes and one block |
| CrcTable.LookupRight | src/plix/crc.d:8-52 | Every table entry is eight steps of the reflected polynomial on its index |
| Crc.TableStep | src/plix/crc.d:59 | One table step is eight bit steps |
| Crc.RunIsSerial | src/plix/crc.d:58-59 | The loop is the bit-by-bit definition of section 8 of RFC 1952 on every buffer |
| Crc.Crc32Inc | src/plix/crc.d:54-61 | The loop computes the complemented register from the complemented start value |
| Crc.Crc32 | src/plix/crc.d:63-65 | The checksum of the whole buffer from zero |
| Crc.UpdateAppend | src/plix/crc.d:54-61 | The incremental form composes over concatenation |
| Crc.BurstDetected | src/boot/main.d:106-110 | Different payloads of one length that differ only within four consecutive bytes have different checksums |
| Crc.Residue | src/plix/crc.d:54-65 | Any message followed by its checksum, least significant byte first, has the checksum 0x2144df1c |
| Crc.RunInjective | src/plix/crc.d:58-59 | The register before any bytes follows from the register after them |
| Crc.RunWord | src/plix/crc.d:58-59 | Up to four bytes act as one word on the register |
| Crc.SerialWord | src/plix/crc.d:58-59 | Feeding the bits of a word one by one is adding it at once and shifting |
| ListSort.ListMemory.MergePair | coremark/core_list_join.c:532-577 | Two adjacent runs are linked into their stable merge after what is done already, and no other node is touched |
| ListSort.ListMemory.StepAlong | coremark/core_list_join.c:519-527 | Counts the nodes of the first run and finds the second, also at the end of the list |
| ListSort.ListMemory.PassOnce | coremark/core_list_join.c:509-583 | One pass merges all pairs of runs; at most one merge exactly when the list fits in two runs |
| ListSort.ListMemory.Mergesort | coremark/core_list_join.c:499-595 | Ends with a null-terminated list of the same nodes, sorted, equal keys in their old order; no other node changes |
| ListSort.ListMemory.Remove | coremark/core_list_join.c:376-389 | The next node is unlinked and returned, and the items of the list are those without the removed one |
| ListSort.ListMemory.UndoRemove | coremark/core_list_join.c:407-419 | Writes the two nodes only |
| ListSort.ListMemory.Reverse | coremark/core_list_join.c:464-476 | The list of the same nodes backwards |
| ListSort.UndoRestores | coremark/core_list_join.c:376-419 | Remove followed by undo restores every pointer and item |
| ListSort.RemoveKeeps | coremark/core_list_join.c:376-389 | Remove leaves a null-terminated list without that item |
| ListSort.MergedIsList | coremark/core_list_join.c:583 | Ending the last node makes the merged nodes a list |
| ListSort.ReverseStep | coremark/core_list_join.c:468-474 | Each turn moves one node from the rest to the front of the result |
| ListSpec.PassRuns | coremark/core_list_join.c:515-581 | A pass over sorted runs of w leaves stably sorted runs of 2w |
| ListSpec.PassElements | coremark/core_list_join.c:515-581 | A pass permutes the nodes |
| ListSpec.MergeSorted | coremark/core_list_join.c:533-577 | Merging two stably sorted neighbours is stably sorted |
| ListSpec.MergeElements | coremark/core_list_join.c:533-577 | Merging two lists has exactly the elements of both |
| ListSpec.OneRun | coremark/core_list_join.c:585-587 | A list that is one run is the sorted permutation of the original |

## Left out

- Device drivers, UART, mailbox, network, assembly, control registers, cache and TLB fences, linker
  scripts and flashing tools: hardware or I/O.
- The AArch64 page table: its `leaf` does not look at the valid bit at level zero
  (src/plix/arch/aarch64/vm.d:62-67), so the lookup law is about RISC-V.
- The buddy allocator's links, the slab headers and the slab links are separate memories. A caller's
  store is made in both link memories at once; the slab layer's own stores are not repeated in the
  memory of the buddy allocator, whose lists they cannot touch since they lie in blocks it gave out.
- Slab reuse of full pages: a page never returns to the partial list, so the model claims safety.
- K&R staying below `heap_end`: `sbrk` checks only where a request starts, and its sum is unbounded
  in the model.
- The body of the hash function: any function may be used in its place.
- Overflow of the 32-bit reference counts and child counts, and of the queue sizes.
- Cow.Kernel.PageFault: does not model the wait for memory in the fault handler, where the source
  decreases the count and then blocks; the page to copy into is a parameter. Its tables hold 4K
  entries only: superpages are kernel mappings without user permission, which the source kills for
  first.
- Cow.Kernel.Destroy: proves counts at least the number of entries and not equal to it, because the
  source never decrements a count at teardown; no frame is ever returned to the allocator.
- Cow.Kernel.MakeFromParent: leaves out file descriptors, the working directory and the trap frame.
- Kernel stores through user buffers, which bypass the page permissions.
- Buddy.BuddyAlloc.constructor: requires a heap whose length is a power of two, which `initialize`
  takes unchecked; the kernel passes one (src/kernel/main.d:33).
- ForkTable.ShareAll: the tables of the two processes are separate memories, and page counts are not
  part of it; `Cow.Kernel.MakeFromParent` has the counts, over finite maps.
- PageTable.Pagetable.Map: requires one of read, write, execute when the mapping takes effect at a
  superpage, because the entry the source would write otherwise reads as a link to a table.
- PageTable.Pagetable.MapGiga: requires one of read, write, execute, for the same reason.
- Mkfs.Builder.Ialloc: requires an inode left; the source goes on to numbers past the count in its
  superblock, and after eight of them past the inode blocks.
- Mkfs.Builder.Iappend: requires room for the blocks, because the source writes sectors past the
  image's end then, which its superblock does not count.
- `Pagetable.free`, `satp` and the address-space identifiers.
- Processes whose parent was reaped before them (the source keeps a dangling pointer), several
  cores, and interrupts inside `pop_back`.
- Bcache.BufferCache.Bget: requires a buffer to be had, where the source stops the kernel.
- Fs.FileSystem.Read: a block missing below the size is allocated in memory as the source does, and
  the inode on disk is not updated then.
- Fs.FileSystem.Write: durability across eviction is not claimed, since the source never writes
  buffers back.
- Directories (`link`, `lookup`, `namex`), the in-memory inode table (`iget`, `put`), open files,
  pipes and their reference counts.
- The bytes of the root directory past those appended to it, below its rounded size.
- Execute permission of a child: the machine of private memories that `Cow.RunSimulates` compares with
  makes all pages of a child executable, as the source does (`CowSpec.ForkExecutes`).
- ELF loading, coremark's matrix, state machine and printing, string formatting, `core_list_find`
  and `core_list_insert_new`.
