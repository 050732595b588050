# Verified model of the kernel and its firmware

This project models eleven pieces of a small RISC-V kernel and of the machine-mode
firmware below it, and proves what they are for. Code that changes things step by step
is modelled by classes and methods over heap nodes, arrays and memory maps, each proved
against a specification; the laws are lemmas about those specifications. Protocols
between harts, threads or devices are state machines in which every participant may
take its next step at any time.

| files | what they model |
|---|---|
| `RbTree`, `RbContents`, `RbInsert`, `RbDelete`, `RbRepaint`, `RbRuns`, `RbSurvive`, `RbAnswers`, `RbHeap` | the left-leaning red-black tree, `src/rbtree.c` |
| `Cpage` | the contiguous page allocator, `src/cpage.c` |
| `MmuEntry`, `MmuTables`, `Mmu`, `MmuFree` | Sv39 page tables on that allocator, `src/mmu.c` |
| `Hart`, `HartProgress` | starting and stopping harts, `sbi/src/hart.c` and the boot code in `sbi/src/main.c` |
| `Virtio`, `VirtioInput`, `RingBuffer` | the input queue, its interrupt drain, and the ring buffer that it fills |
| `FreeBlocks`, `Kmalloc`, `HeapRuns` | the kernel heap's free list, `src/kmalloc.c` |
| `PciBar` | placement of device windows, `src/pci.c` |
| `Digits`, `Printf`, `PrintParse`, `PrintSpec`, `PrintMeaning` | formatted output and integer parsing, `src/printf.c` and `src/strhelp.c` |
| `Lock`, `Barrier` | semaphore, spin lock and barrier, `src/lock.c` |
| `Arithmetic`, `Bits`, `Sequences`, `Words` | facts about products, remainders, bitwise or and reversal, and the 64-bit word |

## How the pieces are modelled

**Tree.** `RbTree` gives the C functions as functions over tree values that carry the
identity of each node; `RbHeap` has the in-place code on linked nodes, and every method
ends in exactly the tree that its function gives. `rb_remove_key_node` blackens the root
of every subtree that a deletion recurses into (`src/rbtree.c:226-235`), not only the
root of the whole tree as `rb_insert` does. A parameter `Mode` tells the two forms apart:
`AsWritten` is the code, `Intended` blackens only in `rb_delete`. What holds of a single
deletion is proved for both. Balance over whole runs is proved for `Intended`, and for
`AsWritten` up to an exact condition: a deletion keeps the tree valid if and only if its
descent meets no subtree that comes back red (`MeetsRed`). That is read off the colours of
the nodes that the descent prepares, without removing anything; for an absent key it means
that the tree has at most one key. A run as written is balanced and right throughout if and
only if no deletion in it meets red.

A run that meets red may still answer right, so crashes and answers have exact conditions of
their own, for ordered trees of any shape and in both forms. A deletion reads through a
missing child if and only if its descent comes to a node that it must prepare and that does
not have both children (`Reaches`). It removes its key and nothing else if and only if, besides,
the node that it unlinks has no other child (`Survives`); otherwise it faults or loses keys.
A run crashes, or answers some find other than a finite map would, if and only if one of its
deletions is of that kind. Two runs show that both happen.

**Pages and page tables.** The bookkeeping bytes are modelled bit by bit. `cpage_znalloc`
is modelled as written for every request; its inner loop advances `i` where `j` is meant
(`src/cpage.c:54`), so it is safe on all heaps exactly for requests of one or two pages,
which is what page tables use (one request for one page takes a pair of pages). The code
reserves no entry for the pages that the bookkeeping itself pushes past the end of the
heap, so the page tables assume that enough requests can still be answered by pages
inside the heap (`Supply`; a fresh heap has one for every two pages inside it). What a
sequence of mappings needs of it is the tables that are missing (`Needed`): one for every
2 MiB and one for every GiB that is touched and has none yet. `WellFormed` is what every
`mmu_map` keeps, whatever it grants; a table is `Sound`, fit for `mmu_free`, if besides no
leaf entry reads as a link. Shifts and
masks of table entries are divisions and remainders by powers of two; the permission word
of a caller may be any 64-bit word and is put in by a bitwise or, so that its higher bits
fall into the page number.

**Harts.** A step is one access to a lock, a status, a target or an interrupt bit, by any
of any number of harts. The boot code publishes a hart in two unlocked writes, and a
`hart_start` between them is answered with success while its hart wakes at address 0.
`Served` is where each call is served, its target or that 0; the wake-ups of every hart
follow it call by call, and they are the calls' targets if and only if the boot code did
not clear a target other than 0. `HartProgress` says what the calls achieve: whatever the
others do in between, the own turns of a hart take it through its procedure step by step.

**Input queue.** Indices are 16 bits wide and wrap; the state machine compares them with
unbounded counters that no step reads. The device completes buffers in the order in
which they were offered, and may write a buffer at any time before it lists it. The drain
loop runs in memory together with such a device, which takes a turn of any of its steps
between any two accesses of the driver.

**Kernel heap.** Memory is a map from addresses to 8-byte words and the list lives in it.
`FreeBlocks` says what freeing, coalescing and splitting do to an address-ordered list
of blocks, `Kmalloc` refines that in memory, and `HeapRuns` carries both through whole
runs, in which those who hold blocks write them in between. The search
of `kmalloc` stops at a block that is too small (`src/kmalloc.c:55`); it is modelled as
it stands, and the split step takes the block as a parameter instead.

**Windows.** A register keeps only the address bits above its size, so reading back ones
gives the size. Addresses are rounded down and not up. A device's windows are apart if and
only if what rounding takes from each register's address is made good by the 64 KiB gap and
by what it took from the register before (`RoundingFits`). With windows of at most 64 KiB
that always holds, and 64 KiB is the largest size of which that is true; some devices with
larger windows are placed well and some are not.

**Output.** The specification `Render` is the whole output whatever the buffer, and the
printing methods write through a sink that drops what does not fit. What a format means is
said in `PrintMeaning` from its place in the format to the characters: a format puts out
its pieces in order, text stands for itself, and each conversion puts out what its
character, flags, width, precision and length say (`IsNumber`, `InField`). Numbers are said
by reading the digits back, in the base and case of the conversion. What the parts of a
specification are is said by reading back what was written (`SpecReadsBack`), with
arguments behind `*`, and the prefix of `#`, which can cost digits of the number itself.
Casts for `h`, `hh` and `l` are as in the code. Plain `char` is unsigned, as on RISC-V.
`int` arithmetic in `atoi` wraps at 32 bits.

**Locks.** One step is one atomic instruction, or one node of the barrier's list. A process
may be registered with a barrier more than once; every registration has its own node.

## Model

| member | source | states |
|---|---|---|
| RbTree.StepsKeep | src/rbtree.c:28-63 | rotations and colour flips keep the items in order and the set of nodes |
| RbTree.BalanceKeeps | src/rbtree.c:127-140 | `rb_balance` keeps the items in order and the set of nodes |
| RbTree.MoveKeeps | src/rbtree.c:142-165 | moving a red link left or right, where it does not fault, keeps items and nodes |
| RbContents.FindIsLookup | src/rbtree.c:273-296 | on an ordered tree the search answers exactly as the finite map of its items |
| RbContents.InsertItems | src/rbtree.c:83-112 | insertion puts the pair at its place in the sorted items and changes no other |
| RbContents.InsertObjects | src/rbtree.c:83-112 | insertion links the new node exactly when the key was absent, and loses no node |
| RbContents.MapPut | src/rbtree.c:83-112 | a put into sorted items is an update of the map at one key |
| RbContents.MapWithout | src/rbtree.c:185-224 | taking a key out of items is removing it from the map |
| RbInsert.InsertShape | src/rbtree.c:83-112 | `insert_this` keeps equal black height and leaves a red-red pair at most at its root |
| RbInsert.InsertKeepsValid | src/rbtree.c:262-271 | `rb_insert` keeps order, left-leaning shape, no red-red chain and black height, and updates the map at one key |
| RbInsert.HeightIsLogarithmic | src/rbtree.c:273-296 | a valid tree with n keys and height h has 2^((h+1)/2) <= n + 1 |
| RbDelete.LeftEnterable | src/rbtree.c:193-197 | preparing a step to the left never reads a missing child, and the child is fit for the recursion |
| RbDelete.RightEnterable | src/rbtree.c:201-211 | the same for a step to the right |
| RbDelete.LeftRejoins | src/rbtree.c:197-223 | with a left subtree of the right height put back, `rb_balance` restores shape and height |
| RbDelete.RightRejoins | src/rbtree.c:216-223 | the same for the right subtree |
| RbDelete.RemoveMinShape | src/rbtree.c:167-183 | `remove_min` does not fault and keeps shape and black height |
| RbDelete.RemoveMinItems | src/rbtree.c:167-183 | `remove_min` takes away exactly the first item |
| RbDelete.RemoveMinObjects | src/rbtree.c:167-183 | `remove_min` frees exactly one node and keeps all others |
| RbDelete.RemoveItDone | src/rbtree.c:185-224 | in both forms a deletion that may be entered never faults, key present or absent |
| RbDelete.RemoveItShape | src/rbtree.c:185-224 | Intended: the subtree keeps its shape and black height |
| RbDelete.RemoveItItems | src/rbtree.c:185-224 | in both forms exactly the item with the key goes |
| RbDelete.RemoveItObjects | src/rbtree.c:185-224 | in both forms one node is freed if the key was there, none otherwise, and no other is lost |
| RbDelete.RootColourIsIrrelevant | src/rbtree.c:298-305 | `rb_delete` never makes the root red first, and need not: the result is the same up to the root's colour |
| RbDelete.DeleteIsMapDelete | src/rbtree.c:226-235 | both forms: one `rb_delete` on a valid tree does not fault, keeps the order, is map deletion, and frees exactly the node count that it should |
| RbDelete.DeleteKeepsValid | src/rbtree.c:298-305 | Intended: `rb_delete` keeps the tree valid |
| RbRepaint.SameUnlessRepainted | src/rbtree.c:226-235 | without an inner repaint of a red node the two forms agree |
| RbRepaint.RepaintUnbalances | src/rbtree.c:226-235 | AsWritten: blackening a red node below the root leaves unequal black heights for good |
| RbRepaint.StaysRedIsResult | src/rbtree.c:167-183 | `remove_min` leaves a red subtree if and only if the nodes that it prepares are red, or black between two red children |
| RbRepaint.EndsRedIsResult | src/rbtree.c:185-224 | AsWritten: the subtree that a call returns is red, or uneven from a repaint, if and only if the colours of its descent say so |
| RbRepaint.MeetsRedIsRepaint | src/rbtree.c:226-235 | AsWritten: a deletion repaints below the root if and only if it meets red |
| RbRepaint.AsWrittenKeepsValidIff | src/rbtree.c:226-235 | AsWritten: a deletion keeps the tree valid if and only if its descent meets no subtree that comes back red, which is told by the colours of the prepared nodes before anything is removed; then both forms do the same |
| RbRepaint.AsWrittenAbsentKeyIff | src/rbtree.c:226-235 | AsWritten: deleting an absent key keeps the tree valid if and only if it has at most one key |
| RbRuns.EveryRunIsCorrect | src/rbtree.c:262-305 | Intended: over every run of inserts, deletes and finds the tree is valid, answers as a finite map would, and every node is linked or freed once |
| RbRuns.AsWrittenRunIsCorrect | src/rbtree.c:262-305 | AsWritten: a run none of whose deletions meets red is correct, as in the intended form |
| RbRuns.AsWrittenRunIsCorrectIff | src/rbtree.c:262-305 | AsWritten: a run is balanced and answers right after every operation if and only if none of its deletions meets red |
| RbRuns.FirstDeleteIsMapDelete | src/rbtree.c:262-305 | AsWritten: after any run of inserts and finds, one deletion is map deletion |
| RbRuns.AsWrittenCanCrash | src/rbtree.c:226-235 | AsWritten: insert 1, 2, delete 0, 1 reads through a missing child |
| RbRuns.AsWrittenCanLoseAKey | src/rbtree.c:204-206 | AsWritten: after inserting 1, 2, 3, 4, 5, 0 and deleting 0 and 5, key 3 is found; deleting 4 loses it |
| RbSurvive.FaultsIff | src/rbtree.c:185-224 | on every tree and in both forms, a deletion reads through a missing child if and only if its descent comes to a node to prepare without both children |
| RbSurvive.SurvivesIff | src/rbtree.c:185-224 | on every ordered tree and in both forms, a deletion takes away exactly its key if it survives, and otherwise faults or loses items |
| RbSurvive.DeleteSurvivesIff | src/rbtree.c:298-305 | so for `rb_delete`: map deletion with every node accounted for, or a fault or a lost key |
| RbAnswers.CrashesIff | src/rbtree.c:262-305 | in both forms a run reads through a missing child if and only if some deletion in it does not find its children |
| RbAnswers.RunAgreesIff | src/rbtree.c:262-305 | in both forms a run is ordered, holds the map and has answered as the map after every operation, if and only if each of its deletions survives |
| RbAnswers.RunAnswersIff | src/rbtree.c:273-305 | in both forms every find at every point of a run is answered as by the finite map if and only if each of its deletions survives |
| RbHeap.Rebalance | src/rbtree.c:127-140 | on linked nodes, `rb_balance` ends in exactly the balanced tree, within the same nodes |
| RbHeap.MoveRedLeft | src/rbtree.c:142-153 | on linked nodes, ends in the tree that the function gives |
| RbHeap.MoveRedRight | src/rbtree.c:155-165 | on linked nodes, ends in the tree that the function gives |
| RbHeap.InsertAt | src/rbtree.c:83-112 | on linked nodes, `insert_this` ends in its tree, and the only new node is the one allocated |
| RbHeap.RemoveMinAt | src/rbtree.c:167-183 | on linked nodes, `remove_min` ends in its tree and frees its nodes |
| RbHeap.RemoveAt | src/rbtree.c:185-224 | on linked nodes, `remove_it` in either form ends in its tree and frees its nodes |
| RbHeap.MinAt | src/rbtree.c:114-125 | the loop ends at the leftmost node |
| RbHeap.RBTree.Insert | src/rbtree.c:262-271 | the valid linked tree stays valid and its map is updated at one key |
| RbHeap.RBTree.Find | src/rbtree.c:273-296 | answers the map, looking at exactly the nodes on the key's path, whose number is logarithmic in the number of keys |
| RbHeap.RBTree.Delete | src/rbtree.c:298-305 | removes the key from the map; frees one node or none, and exactly the freed ones are no longer linked; Intended: stays valid |
| Cpage.BitOperations | src/cpage.c:67-72 | setting and clearing the two bits of a page in its byte does what the masks are meant to |
| Cpage.LiveDeterminesBytes | src/cpage.c:13-25 | the live blocks determine every bookkeeping byte |
| Cpage.MarkKeepsInv | src/cpage.c:65-72 | a block of free pages is disjoint from every live block, and marking it keeps taken and last bits exact |
| Cpage.ClearKeepsInv | src/cpage.c:108-125 | clearing a live block takes it and nothing else out of the bookkeeping |
| Cpage.OwnEnd | src/cpage.c:111-125 | the first last bit from the start of a live block on is the end of that block |
| Cpage.ClaimIsFirstFit | src/cpage.c:40-83 | a request is turned down if and only if no two adjacent pages are free, and otherwise goes by the first such pair |
| Cpage.SmallRequestIsSafe | src/cpage.c:49-83 | a request for one or two pages is answered with free pages whatever the bytes are |
| Cpage.SafeIffAtMostTwo | src/cpage.c:49-83 | as written, requests for n pages are answered with free pages on every heap that requests and frees of one or two pages lead to, if and only if n is at most two |
| Cpage.ClaimsLivePage | src/cpage.c:54-77 | for every larger n there is a run of small requests and one free after which a request for n pages is given a page of a live block |
| Cpage.PageHeap.constructor | src/cpage.c:15-25 | no page is taken, no block is live |
| Cpage.PageHeap.Mark | src/cpage.c:65-72 | the loop sets the taken bits of the run and the last bit of its last page |
| Cpage.PageHeap.Znalloc | src/cpage.c:29-87 | returns null and changes nothing, or marks the claimed run, makes every page of it all zeros and changes no other page, or reports that the run leaves the bookkeeping; keeps the bookkeeping exact when the claim is safe |
| Cpage.PageHeap.ZeroPages | src/cpage.c:76 | each of the pages from the address on is all zeros, and every other page is as it was |
| Cpage.PageHeap.Free | src/cpage.c:89-126 | ignores addresses outside the heap, and otherwise clears exactly the block at the address, though the index is recovered with the unrounded bookkeeping size |
| Cpage.AllocateThenFree | src/cpage.c:29-126 | freeing the block just allocated restores every bookkeeping byte |
| Cpage.EveryRunKeepsInv | src/cpage.c:29-126 | over every run of requests for one or two pages and frees of live blocks, blocks stay disjoint and bits exact |
| Cpage.RunRestoresBytes | src/cpage.c:29-126 | a run that ends with the blocks it began with ends with the same bytes |
| Cpage.InHeapIff | src/cpage.c:74-76 | page i lies inside the heap if and only if i is below the page count less the pages of the bookkeeping |
| Cpage.FirstRequestCanLeaveHeap | src/cpage.c:74-76 | those entries are not reserved: in a heap of two pages the first request is given memory behind the end |
| MmuEntry.BranchRoundTrip | src/mmu.c:40-44 | the link stored for a table leads back to that table and reads as a valid branch |
| MmuEntry.LeafRoundTrip | src/mmu.c:50 | for every permission word: the entry is a leaf if and only if some of R, W, X is set, and gives back the 56-bit page, with the word's higher bits in its number |
| MmuEntry.LeafKeepsBits | src/mmu.c:50 | for every permission word: the low ten bits of the entry are the word's, with the valid bit set |
| MmuEntry.LeafAddressIs | src/mmu.c:115-126 | a leaf found at a level maps its page of 4 KiB, 2 MiB or 1 GiB, with the offset of the virtual address in it |
| MmuEntry.MappedBaseIff | src/mmu.c:50 | that is the page asked for if and only if every bit of the word from bit 10 on, in 44 bits, is set in the page number anyway; in particular for words of ten bits |
| MmuEntry.IndicesArePage | src/mmu.c:16-20 | the three indices agree if and only if the 39-bit pages do |
| MmuTables.WalkFindsLeaf | src/mmu.c:89-131 | in a tree of tables the walk ends at the one leaf of the address, or fails |
| MmuTables.WalkMeans | src/mmu.c:98-130 | on any memory: an entry without the valid bit gives -1, one with a permission its page's address at that level, any other leads to the table that its number names, or gives -1 at the last level |
| MmuTables.AddMidKeeps | src/mmu.c:37-42 | hanging a fresh cleared table below the root keeps the tree |
| MmuTables.AddLowKeeps | src/mmu.c:37-42 | the same one level down |
| MmuTables.AddMidTranslates | src/mmu.c:37-42 | hanging it there changes no translation |
| MmuTables.AddLowTranslates | src/mmu.c:37-42 | the same one level down |
| MmuTables.LeafChanged | src/mmu.c:51 | whatever entry is written at the place of a leaf, the tree stays well formed and exactly the addresses of that page have the entry |
| MmuTables.StoreLeafKeeps | src/mmu.c:50-51 | for every permission word, storing a leaf keeps the tree, maps exactly the addresses of its page if it grants anything, and unmaps them otherwise |
| MmuTables.SoundByLeaves | src/mmu.c:72-77 | no entry of the lowest level reads as a link to a further table if and only if that is so for the leaf of every address |
| MmuTables.OtherPagesAreIrrelevant | src/mmu.c:89-131 | memory that holds no table does not matter to translation |
| Mmu.NewTable | src/mmu.c:39 | a new table is cleared, aligned, a block of its own, and changes no translation |
| Mmu.FreshSupply | src/cpage.c:49-83 | a fresh heap answers one request for every two pages that lie inside it |
| Mmu.Step | src/mmu.c:32-45 | one turn of the level loop reaches the next table, making it if needed, and changes no translation |
| Mmu.Map | src/mmu.c:10-58 | for every permission word: the page of v translates to the page of p, with exactly the word's permission bits in its leaf, or to nothing without R, W, X; every other address has the entry that it had and translates as before; a tree of tables is left, its tables are kept, and only the missing ones were allocated |
| Mmu.TranslateAddress | src/mmu.c:89-131 | the loop computes the walk |
| Mmu.MapAll | src/mmu.c:10-58 | any calls of `mmu_map` leave, for every address, the entry of the last call on its page, with one free page for each table that is missing |
| Mmu.TranslatesAsLastRequest | src/mmu.c:89-131 | so every address translates as the last call on its page says, and as before if there is none |
| Mmu.SoundIffLastGrants | src/mmu.c:72-77 | from an empty table, no entry reads as a link to a further table if and only if the last call on each page grants something |
| Mmu.NeededAfter | src/mmu.c:32-45 | mapping an address leaves that many fewer tables missing for the addresses after it |
| Mmu.RangeNeedsFew | src/mmu.c:133-137 | a range of n pages needs at most n / 512 + n / 262144 + 4 tables |
| Mmu.MapMultiple | src/mmu.c:133-137 | from any two starts and for every permission word, as many pages as the rounded-up bytes translate to their counterparts, their leaves with exactly the word's permission bits, and every address outside them has the entry and the translation that it had, with one free page for each table that is missing |
| Mmu.BytesOfRange | src/mmu.c:133-137 | if the starts have the same offset and something is granted, every byte v + k of the mapped pages translates to p + k |
| Mmu.RangeIsWholeIff | src/mmu.c:133-137 | every byte asked for is in a mapped page if and only if the offset of the start still fits into the rounded-up pages, as it does from an aligned start |
| Mmu.BytesBehindRange | src/mmu.c:133-137 | from an unaligned start, bytes behind the last mapped page translate as before |
| MmuFree.EntryOfPlace | src/mmu.c:68-77 | the entries that `mmu_free` follows are exactly those that lead to a table below |
| MmuFree.FreeTable | src/mmu.c:61-86 | frees every table from here down exactly once, and no other block; no entry of the lowest tables among them is valid any more, and every other page is as it was |
| MmuFree.SweptTranslatesNothing | src/mmu.c:79-80 | such a table translates no address |
| MmuFree.MapAllThenFree | src/mmu.c:10-86 | a root, any calls of `mmu_map` of which the last on each page grants something, and `mmu_free` restore the bookkeeping bytes exactly; each table was freed once, and the table translates no address any more |
| MmuFree.TranslatesIffPermitted | src/mmu.c:100-113 | for every permission word a stored leaf translates if and only if some of R, W, X is set; otherwise the address fails |
| MmuFree.EntryWithoutPermissionIsLink | src/mmu.c:72-77 | an entry without permissions reads as a link to the data page, and only then |
| Hart.InitialHolds | sbi/src/main.c:41-64 | the state in which hart 0 runs and the others boot satisfies the invariant |
| Hart.StepKeepsInv | sbi/src/hart.c:22-83 | every step of every hart keeps the invariant about locks, statuses, interrupt bits and wake-ups |
| Hart.RunKeepsInv | sbi/src/hart.c:22-83 | so does every interleaving |
| Hart.MutualExclusion | sbi/src/hart.c:24-37 | in every interleaving at most one hart is inside the section of each lock |
| Hart.StartingIsPending | sbi/src/hart.c:31-37 | in every interleaving a STARTING hart whose lock is free has its interrupt pending |
| Hart.RunningIsStarted | sbi/src/hart.c:46-48 | in every interleaving a running hart is STARTED, so the return that keeps the lock is never taken, and an interrupt finds its hart STARTING |
| Hart.StatusMoves | sbi/src/hart.c:22-83 | a status moves only INVALID, STOPPED, STARTING, STARTED, STOPPED |
| Hart.WakesAreClaims | sbi/src/hart.c:66-83 | in every interleaving and for every hart wake-ups happen once per successful call, in order, where the call is served; these are the calls' targets if and only if the boot code did not clear a first target other than 0 before the hart woke up |
| Hart.EarlyStartWakesAtZero | sbi/src/main.c:51-52 | a run in which a call between the boot code's two writes succeeds and its hart wakes at address 0 |
| HartProgress.StopCall | sbi/src/hart.c:43-45 | a call of `hart_stop` takes the hart's own lock if it is free, and otherwise changes nothing |
| HartProgress.StopParks | sbi/src/hart.c:46-57 | in every interleaving the four turns of a hart in `hart_stop` end with it parked, its lock given back, and its status STOPPED, or STARTING if it was claimed meanwhile |
| HartProgress.StoppedStaysDown | sbi/src/hart.c:42-83 | in every interleaving a hart that has begun to stop runs nothing until it has woken up once more |
| HartProgress.HandlerWakes | sbi/src/hart.c:66-83 | in every interleaving the seven turns of a hart that took its interrupt wake it up once, STARTED, with all its successful calls served |
| HartProgress.StartCall | sbi/src/hart.c:24-38 | a call of `hart_start` takes the lock if it is free; if the hart is not STOPPED, its two further turns leave the state as it was before the call |
| HartProgress.StartClaims | sbi/src/hart.c:31-36 | in every interleaving the turns of a `hart_start` that finds its hart STOPPED make it STARTING with one more claim, and set its interrupt before the lock is given back |
| HartProgress.StartReturns | sbi/src/hart.c:37-38 | its last turn gives the lock back, with the hart STARTING and its interrupt set |
| RingBuffer.Ring.Push | src/ringbuff.c:31-50 | appends; when full, drops the oldest, drops the new value, or reports an error, as the policy says |
| RingBuffer.Ring.Pop | src/ringbuff.c:52-62 | takes the oldest value, or reports that there is none and changes nothing |
| RingBuffer.SlotByRemainder | src/ringbuff.c:45 | the remainder that the code computes is the slot of the i-th value |
| RingBuffer.RunIsFifo | src/ringbuff.c:31-62 | over every run, values that left followed by values held are exactly the accepted part of the pushed stream, in order; under overwrite all of it, and what was not popped was overwritten; under discard and error everything that left was popped |
| RingBuffer.RefusedIffFull | src/ringbuff.c:32-43 | a push in a run is refused if and only if the queue is full at that time and the policy does not overwrite |
| RingBuffer.Execute | src/ringbuff.c:31-62 | over every run the ring buffer holds what the log of the run holds, its pops return what the log says was popped, and with errors reported its answers are the log's |
| Virtio.WrapKeepsSlotIff | src/pci.c:86 | a wrapped index finds the right slot for ever if and only if the queue size divides 65536 |
| Virtio.StepKeepsInv | src/pci.c:85-92 | every step of driver and device keeps rings, indices and events in agreement |
| Virtio.SameIndexSameCounter | src/pci.c:85 | comparing wrapped indices tells exactly whether there is work |
| Virtio.RunKeepsInv | src/pci.c:83-95 | every interleaving keeps the invariant |
| Virtio.PushedAreCompleted | src/pci.c:85-92 | in every interleaving the k-th value pushed is the k-th event completed, and between iterations avail idx is devidx plus the queue size modulo 65536 |
| Virtio.UnreadIsNotOverwritten | src/pci.c:87-89 | in every interleaving no step overwrites an event that was completed and not read |
| Virtio.NoDescriptorTwice | src/pci.c:90-91 | in every interleaving the descriptors on offer or in use are different |
| Virtio.IndicesTellWork | src/pci.c:85 | in every interleaving driver and device see work exactly when there is some |
| Virtio.CountersCount | src/pci.c:85-92 | in every interleaving the counters, and the lengths of the lists of completed and pushed events, are the numbers of the actions that they stand for |
| Virtio.CompletedAreWritten | src/pci.c:87-89 | in every interleaving the k-th completed event is the last one that the device wrote into its k-th buffer |
| VirtioInput.InputDevice.Init | src/virtio_inp.c:74-84 | the loop offers one descriptor of 8 bytes with flag 2 (the device may write) per event buffer, which is the protocol's initial state and the one that the drain loop starts from |
| VirtioInput.InputDevice.Drain | src/pci.c:85-92 | from any state of the protocol, with a turn of any steps of the device before the loop and five in every iteration, the loop ends in a state that the protocol leads to, with nothing left to drain, and has pushed exactly the events completed by then and not drained before, each once, in order of completion |
| VirtioInput.InputDevice.TakeEvent | src/pci.c:86-89 | the event read in an iteration is the first one completed and not drained, whatever the device does meanwhile |
| VirtioInput.InputDevice.GiveEvent | src/pci.c:89-91 | the rest of the iteration pushes that event, offers one more buffer and drains one more, whatever the device does meanwhile |
| FreeBlocks.InsertOrdered | src/kmalloc.c:128-137 | inserting a block at its place keeps the address order |
| FreeBlocks.CoalesceWorks | src/kmalloc.c:145-159 | coalescing keeps the free bytes and their number and leaves no two neighbours that touch |
| FreeBlocks.CoalescedIsCanonical | src/kmalloc.c:145-159 | two coalesced lists that cover the same bytes are the same list |
| FreeBlocks.FreeAddsBlock | src/kmalloc.c:117-141 | freeing adds exactly the block's bytes to a coalesced list and keeps it coalesced |
| FreeBlocks.TakeTailCovers | src/kmalloc.c:98-106 | splitting takes exactly the tail's bytes from the list |
| FreeBlocks.TakeTailCoalesced | src/kmalloc.c:98-106 | the list stays coalesced and apart from the block cut off |
| FreeBlocks.SplitThenFree | src/kmalloc.c:98-141 | splitting a block off and freeing it gives back the same list |
| Kmalloc.OthersCannotBreakList | src/kmalloc.c:18-22 | writes to bytes that are neither free nor the head's leave the list intact |
| Kmalloc.AppendLinks | src/kmalloc.c:29-34 | the four writes link a node in, in both directions, at its place |
| Kmalloc.RemoveLinks | src/kmalloc.c:37-40 | the two writes unlink a node, in both directions |
| Kmalloc.MergeLinks | src/kmalloc.c:148-152 | adding the sizes and unlinking the next node leaves the list with the two blocks as one |
| Kmalloc.SplitPart | src/kmalloc.c:98-106 | writing the new header and shrinking the block keeps the list linked if and only if 16 bytes are not what remains, or the overwritten link already had the value written |
| Kmalloc.KernelHeap.constructor | src/kmalloc.c:176-178 | the empty list |
| Kmalloc.KernelHeap.NodeAppend | src/kmalloc.c:29-34 | the list with the block inserted, and no change outside it |
| Kmalloc.KernelHeap.NodeRemove | src/kmalloc.c:37-40 | the neighbours are linked to each other, and nothing else changes |
| Kmalloc.KernelHeap.CoalesceFreeList | src/kmalloc.c:145-159 | the loop in memory ends in the coalesced list and changes only free bytes |
| Kmalloc.KernelHeap.Free | src/kmalloc.c:117-141 | null and a zero size change nothing; otherwise the block is inserted and the list coalesced, and only free bytes change |
| Kmalloc.KernelHeap.Split | src/kmalloc.c:97-109 | cuts the bytes off the tail of a block that fits; the list stays well formed unless exactly 16 bytes remain, and then it is broken unless the overwritten link already had the value written |
| Kmalloc.KernelHeap.AllocateThenFree | src/kmalloc.c:97-141 | split, then free, in memory, gives back the same list |
| Kmalloc.KernelHeap.Search | src/kmalloc.c:53-62 | as written the search returns the head or the first block that is too small, never one that fits |
| Kmalloc.RequestSize | src/kmalloc.c:47 | in 64-bit arithmetic, the block asked for is aligned and leaves the caller what was asked for if and only if the sum does not wrap; then it has at least 32 bytes |
| HeapRuns.EveryRunConserves | src/kmalloc.c:97-141 | over every run of splits, stores by holders and frees, each byte is free or in exactly one held block, and when all is given back the list is the one at the start |
| HeapRuns.DoCut | src/kmalloc.c:97-109 | in memory, the split keeps the free list, the partition, every holder's size word and every held byte |
| HeapRuns.DoStore | src/kmalloc.c:18-22 | in memory, a holder's store into its own bytes keeps the list and the size words, and changes one word |
| HeapRuns.DoGiveBack | src/kmalloc.c:117-141 | in memory, the free keeps the list, the partition, the size words and every byte still held |
| HeapRuns.StoreLasts | src/kmalloc.c:18-22 | what a holder stored counts as its data until the bytes are stored to again or their block is given back |
| HeapRuns.Execute | src/kmalloc.c:97-141 | over every run the code in memory ends in the run's free list with the bytes shared out, whatever a holder stored last at an address is there as long as it holds the block, and the list is the one at the start when all is given back |
| PciBar.AndRoundsDown | src/pci.c:621 | `and` with a size mask rounds an address down to the size |
| PciBar.OnesReadBack | src/pci.c:610-613 | a register to which ones were written reads as its negated size |
| PciBar.Device.Write | src/pci.c:661-667 | the register keeps exactly the address bits above its size, and its flags |
| PciBar.Pci.SetBar | src/pci.c:655-674 | a 64-bit register is written in two halves, a 32-bit one in one, and no other register changes |
| PciBar.Pci.GetBar | src/pci.c:636-652 | the value of one register or of a pair |
| PciBar.Pci.AllocateBar | src/pci.c:607-633 | the window is at the free address rounded down, the free address moves past size and gap, the result is the number of registers used |
| PciBar.Pci.AllocateBars | src/pci.c:185-192 | every memory register of the device is placed, whatever the sizes as long as the addresses stay below 2^32, the second half of a pair is skipped, and the next device starts on the next megabyte |
| PciBar.WindowInMegabyte | src/pci.c:185-192 | every window of at most 64 KiB is aligned to its size and inside its device's megabyte from 0x40000000 on |
| PciBar.SmallBarsFit | src/pci.c:185-192 | windows of at most 64 KiB leave the free address inside the device's megabyte, and below 2^32 for up to 256 devices |
| PciBar.WindowsNeverOverlap | src/pci.c:607-633 | for up to 256 devices with windows of at most 64 KiB, all windows are aligned, inside 0x40000000-0x4fffffff, and pairwise disjoint, within and across devices |
| PciBar.WindowsApartIff | src/pci.c:607-633 | for any registers, sizes and free address, a device's windows are pairwise disjoint if and only if at each memory register rounding takes no more than the gap and what it took from the one before |
| PciBar.GapIsTheBound | src/pci.c:625 | windows of at most 2^k bytes are pairwise disjoint in every device, wherever it is placed, if and only if 2^k is at most 64 KiB |
| Digits.ValueOfDigits | src/printf.c:310-318 | the digits together stand for the value, in every base from 2 to 16 |
| Digits.DigitCount | src/printf.c:310-318 | a value has at most n digits if and only if it is below base^n |
| Digits.LoopIsExactIff | src/printf.c:310-318 | the 32-byte digit buffer loses nothing if and only if the value is below base^32 |
| Digits.LoopIsExact | src/printf.c:310-318 | the loop is exact for every 64-bit value in bases 8, 10 and 16, and for every 32-bit value in base 2 |
| Digits.DecimalCons | src/strhelp.c:20-24 | the sum over powers of ten from the right is the left-to-right value |
| Digits.Atoi | src/strhelp.c:3-27 | the right-to-left loop computes the wrapped value of the sign and the leading digits, on every string |
| Digits.AtoiUnsigned | src/printf.c:188-197 | the left-to-right loop computes the value of the leading digits modulo 2^32 and stops behind them |
| Digits.ParsersAgree | src/strhelp.c:3-27 | both parsers agree on every digit string modulo 2^32, and exactly below 2^31 |
| Digits.ParseUndoesPrint | src/strhelp.c:3-27 | `atoi` of sign and digits of an int above the minimum is that int |
| Printf.Sink.Out | src/printf.c:124-130 | a character goes to its place if it is below the limit; the text so far always grows by it |
| Printf.Sink.OutRev | src/printf.c:199-228 | spaces, reversed buffer, spaces, in the order the flags ask for |
| Printf.Sink.NtoaFormat | src/printf.c:231-296 | zeros, prefix, sign and padding of a number |
| Printf.DigitLoop | src/printf.c:310-318 | the loop leaves the digits, or the lowest 32 of them, in the buffer |
| Printf.Sink.OutString | src/printf.c:920-951 | puts out the string's text, of which StringMeans says what it is |
| Printf.Sink.OutChar | src/printf.c:895-918 | puts out the character's text, of which CharMeans says what it is |
| Printf.Sink.OutPiece | src/printf.c:649-984 | one turn of the loop puts out one literal character or one whole conversion, and moves on in format and arguments |
| Printf.Snprintf | src/printf.c:1014-1021 | for every count and buffer the same number is returned; the first count - 1 characters of the whole output and a NUL are stored, and nothing else changes; nothing at all for count 0 or a null buffer |
| PrintParse.ParseUndoesFormatIff | src/printf.c:231-296 | `atoi` undoes a "d" conversion with any flags, width, precision and length if and only if the number is an int and is 0, or no space is put in front, a minus still has room in the 32-byte buffer, and a plus or space does not |
| PrintParse.NumberIsNumeral | src/printf.c:199-296 | in every base a number without prefix is put out as a numeral of its value in that base and case, with exactly as many digits as value, precision and zero padding take up to 32, its sign in front while there is room, and spaces on the allowed side up to the width |
| PrintParse.NumberFillsWidth | src/printf.c:199-228 | unless zeros fill the field, a number takes its width or, if more, what it takes without one |
| PrintParse.PlainDecimal | src/printf.c:784-870 | "%d" puts out the sign and the digits, at most 11 characters |
| PrintParse.PrintThenParse | src/strhelp.c:3-27 | `snprintf` with "%d" followed by `atoi` returns the int |
| PrintParse.AtoiMeans | src/strhelp.c:3-27 | on every string: an int congruent modulo 2^32 to the signed number of the leading digits |
| PrintSpec.FlagsMean | src/printf.c:666-701 | flags are read in any order and number up to the first other character; each is set if and only if its character was read |
| PrintSpec.NumberReadsBack | src/printf.c:703-708 | a number written into a format is read back, whatever stands around it |
| PrintSpec.SpecReadsBack | src/printf.c:650-780 | reading undoes writing: behind any written flags, width, precision and length, the conversion is carried out with exactly these |
| PrintSpec.StarWidth | src/printf.c:709-722 | a `*` width prints as its argument's size written out, with left alignment if and only if it is negative |
| PrintSpec.StarPrecision | src/printf.c:733-738 | a `*` precision prints as its argument written out, or as 0 if it is negative |
| PrintSpec.HashMeans | src/printf.c:250-278 | with `#` the prefix of the base comes first, and the digits behind it stand for the value if and only if it has no more digits than are kept |
| PrintSpec.HashCanDropDigits | src/printf.c:253-260 | "%#4x" of 0xabcd prints 0xcd |
| PrintMeaning.RenderShift | src/printf.c:650-984 | what a format puts out from a place on does not depend on what comes before it |
| PrintMeaning.LiteralIsItself | src/printf.c:653-658 | text without % stands for itself, followed by the output of the rest |
| PrintMeaning.PlainText | src/printf.c:653-658 | a format without % puts out itself |
| PrintMeaning.PercentIsItself | src/printf.c:974-977 | two percent signs put out one |
| PrintMeaning.UnsignedPuts | src/printf.c:784-870 | u, x, X, o, b convert the argument modulo 2^8, 2^16, 2^32 or 2^64, as the length says, in base 10, 16, 16, 8 or 2, with capitals exactly for X, no sign, # except for u, and no zero padding with a precision |
| PrintMeaning.UnsignedMeans | src/printf.c:784-870 | without a prefix they put out a numeral of that value in that base, laid out as the flags, width and precision say, and go on behind the conversion with the next argument |
| PrintMeaning.SignedMeans | src/printf.c:784-870 | d, i: the same for the sign and size of the argument's signed value, the one congruent to it in the range of its length |
| PrintMeaning.PointerMeans | src/printf.c:953-972 | p: the 64 bits of the argument in base 16 with capitals, zero padded to 16 digits |
| PrintMeaning.StringMeans | src/printf.c:920-951 | s: the first characters, as many as length and precision allow, padded to the width on the side that - says |
| PrintMeaning.CharMeans | src/printf.c:895-918 | c: the low byte of the argument, padded likewise |
| PrintMeaning.DigitsAreWritten | src/printf.c:316 | digits are 0 to 9 and a to f or A to F |
| Semaphores.StepKeepsInv | src/lock.c:29-47 | every step keeps the word at the free permits less the pending compensations; an up adds a permit, a successful call takes one, and a call succeeds if and only if more permits are free than compensations pending |
| Semaphores.EveryRunConservesPermits | src/lock.c:29-47 | in every interleaving value plus pending compensations is the initial value plus the calls of `semaphore_up` minus the successful calls of `semaphore_trydown`, these never exceed what there is, and the value never falls below minus the number of threads |
| Semaphores.FreePermitMayBeMissed | src/lock.c:35-38 | a run in which a call fails although a permit is free |
| Mutexes.StepKeepsOneHolder | src/lock.c:7-26 | at most one holder, trying succeeds exactly when there is none, and after an unlock there is none and whoever tries next succeeds |
| Barriers.RegisteredState | src/lock.c:50-65 | registration makes the count the length of the list |
| Barriers.StepKeepsInv | src/lock.c:71-87 | every step keeps the count, one opener at most, and freed and remaining nodes in agreement; a call opens if and only if it brings the count to zero |
| Barriers.LastCallOpens | src/lock.c:71-87 | as many calls as registrations: when they are over exactly one has opened, exactly the registered processes run, and every registration's node is freed exactly once; with fewer calls nothing happens |
| Barriers.RunsEnd | src/lock.c:71-87 | every interleaving ends: a run has at most as many steps as its calls have together, and is stuck if and only if every call is over |
| Barriers.BarrierIsSafeIff | src/lock.c:77-86 | no interleaving frees a node twice if and only if there are no more calls than registrations, or none registered, whichever processes are registered and however often |

## Left out

- Scheduler, processes, ELF loading and user-memory copying: they do not reach the tree, the page tables or the heap in a way that meets those modules' own contracts.
- Block, GPU and entropy devices, file systems, consoles: device I/O, or repeats of the queue that is modelled.
- CSRs, MMIO registers other than base address registers, UART, PLIC, assembly: parameters or abstract state.
- Failure of an allocation inside `insert_this` and `mmu_map`: the code does not check for it in `mmu_map`, and the model assumes it away with `Supply`; new tree nodes always exist.
- Allocator of tree nodes: the code takes them from `cpage_znalloc` and gives them to `kfree`; the model only says which nodes are linked and which are freed.
- `rb_free`: a plain traversal.
- `key_compare` is taken to return -1, 0 or 1 for a total order on integers.
- The mutexes in `mmu_map`, `kmalloc` and `kfree`: their bodies are modelled as sequential.
- Mmu.MapMultiple: ranges that wrap around 64 bits or exceed the 39-bit space.
- MmuFree.MapAllThenFree: a last call on a page without R, W, X, because `mmu_free` would then take its data page for a table (EntryWithoutPermissionIsLink).
- Cpage.EveryRunKeepsInv: only requests for one or two pages, because larger ones can hand out pages in use (ClaimsLivePage); `virtio_input_init` and `ring_init` ask for more, and their memory is a parameter here.
- Cpage.PageHeap.Znalloc: where the claimed run leaves the bookkeeping, the code writes behind it; the model reports that and stops.
- The scratch argument and privilege mode of `hart_start`, and harts numbered 8 and up.
- Virtio: a device that completes out of order, and its used lengths, are not modelled; queue sizes are powers of two as VIRTIO 1.1, section 2.6, demands.
- VirtioInput.InputDevice.Drain: the device takes finitely many turns, or the loop need not end; its event buffers are at different addresses, as `virtio_input_init` lays them out.
- RingBuffer.Ring.Push: capacity is positive and within the buffer; with capacity 0 the code divides by zero.
- The refill loop of `kmalloc`: after the coalescing at line 95 it goes on with a node that may just have been absorbed.
- Kmalloc.KernelHeap.AllocateThenFree: a remainder of 16 bytes is excluded, because the list is then broken (SplitPart); so it is in the runs of HeapRuns.Execute.
- PciBar.WindowsNeverOverlap: windows over 64 KiB are left to the exact condition for one device (WindowsApartIff), because some of them overlap (GapIsTheBound); I/O registers, reserved register types and windows of 2 GiB and more are not modelled.
- Bridge windows, capability lists and bus numbers in `src/pci.c`.
- Floating-point conversions, and formats that end inside a conversion or lack an argument: `Render` is none for them.
- Digits.ParseUndoesPrint: the minimum int is excluded, because negating it is undefined in C.
- PrintParse.ParseUndoesFormatIff: the minimum int is excluded for the same reason.
- Strings of 2^32 characters and more in "%s"; the output functions other than the buffer.
- Semaphores.EveryRunConservesPermits: the total of permits stays below 2^31, where the 32-bit word would wrap.
- Barriers.LastCallOpens: the count is unbounded; fewer than 2^31 processes and calls are meant.
- Barrier registration while calls are under way: `barrier_add_process` is not atomic.
