# Verified models of the boot loader's allocator, device tree library, FAT reader and CRC

This project models four parts of the open Raspberry Pi firmware and proves what they are for:

* **TLSF** (`tlsf/`), the two-level segregated fit heap of `tlsf/tlsf.c`, on a 32-bit target. Memory is a map from word
  addresses to 32-bit words; `Tlsf.Pool` runs the code's own steps on it (the macros that extract and insert blocks, the merging
  in `free_ex`, the split in `malloc_ex`, the three paths of `realloc_ex`) and keeps a ghost heap of blocks and free lists beside
  it. `Valid()` says that the words in memory, the matrix of list heads and both levels of bitmaps are exactly that heap, and that
  the heap is well formed: blocks tile the area up to the sentinel, no two free blocks touch, every free block is on exactly the
  list its size names. Each entry point's new heap is given as a function of the old one. `Runs` proves theorems over whole runs of
  these functions, and `PoolRuns` derives its steps from the contracts of the entry points and runs whole client programs on a pool.
* **libfdt** (`libfdt/`), the flattened device tree of chapter 5 of the Devicetree Specification. `Trees` defines trees and their
  linear form, `Tokens` what bytes are which tokens, and `Blob.Denotes(s, t)` that the blob `s` stands for the tree `t`. Every reader is
  proved against the tree, every editing function against a tree edit, and the sequential writer against the items written.
  Functions that edit work in place on an `array<byte>`, with the moves and word writes of the C code.
* **FatFs** (`fatfs/`), on a disk of 512-byte sectors: the one-sector window and its write-back to every FAT copy, the FAT12/16/32
  entry codec through that window, cluster chains, the read/seek state machine of a file, the directory cursor, and the geometry that
  mounting accepts. A disk operation may fail at any time; a ghost counter of failures lets the contracts say that errors come from
  nowhere else.
* **CRC-32** (`common/Crc32.dfy`): the table-driven `rc_crc32` against reflected division one bit at a time (section 8 of RFC 1952), and
  what the code detects.

`common/` also holds the 32-bit words with C's bit operators (`Words`) and the byte strings (`Bytes`) that the models share.

Main results, hardest first:

1. Every state of every run of `malloc_ex`, `free_ex` and `realloc_ex` from `init_memory_pool` is well formed, live payloads never move or
   change unless named, `malloc_ex` fails exactly when no free block reaches the rounded request, a block granted or resized has the
   size asked for or 8 bytes more and gives all else back, an allocation followed by its release restores the heap exactly, and
   releasing everything in any order restores the new pool.
2. `fdt_setprop`, `fdt_delprop`, `fdt_set_name`, `fdt_add_subnode_namelen` and `fdt_del_node` turn a blob for `t` into a blob for exactly the edited
   tree, use exactly the bytes the edit needs, fail for lack of space exactly when those do not fit, and then keep the tree; the NOP forms agree
   with the moving ones. A list of edits after `fdt_open_into` succeeds exactly while the room the buffer leaves lasts.
3. Whatever mix of seeks and reads is made on a file, every read returns exactly the bytes of the file at the position the earlier calls left.
4. Writing any reservations and any tree with the sequential writer gives a blob that stands for both exactly when the buffer has the size they
   need. Otherwise the answer is NOSPACE, unless the first thing that does not fit is a new property name longer than all of the buffer
   before the strings, which the code's 32-bit test lets through.
5. `fdt_open_into` (moved, reordered, in place) and `fdt_pack` keep tree and reservations and leave the blocks in order, the one with all of
   the buffer behind them as room, the other with none.
6. `put_fat` followed by `get_fat` is the identity on the entry's bits and leaves every other entry; `create_chain` and `remove_chain` keep the FAT a
   disjoint union of chains and every sector outside the FATs as it was.
7. Which boot sectors are accepted, with at most 0x3FFFFF80 FAT entries and no sum wrapping, and where each part of the volume then is, byte
   by byte of the sector: laid out in order, each cluster in its own sectors, with an entry for each cluster inside the first FAT.
8. The table-driven CRC is the bit-by-bit one for every start value and byte string, continues across pieces, and detects every burst of up to
   four octets.

Where the code does less than one would expect, the model follows the code:

* The end sentinel of a pool lies inside the pool exactly if the pool size modulo 8 is below 4 (`NewPool.SentinelInside`); 3252 bytes is an
  accepted size for which it does not (`NewPool.SentinelPastPool`).
* `fdt_next_tag` makes no progress exactly on a property whose length field is 0xFFFFFFF4 (`Fdt.TagMovesOn`, `Fdt.TagStays`).
* Depth, ancestor and path queries start at offset 0, so they fail on a blob whose root is preceded by a NOP, although the blob is
  well formed (`FdtRo.NodeDepth`, `FdtRo.Supernode`, `FdtPath.PathOffset`, `FdtPath.GetPath`); `LeadingNop` has such a blob, on
  which the path "/" even gives the offset of the NOP.
* `fdt_create` accepts buffers of 40 to 47 bytes. Reservation entries are then refused, but the test for the room of a node wraps, so a node is
  accepted although it would start behind the buffer (`FdtSw.NewBlob`, `FdtSw.AcceptsPastEnd`). On any header the test accepts bytes that
  do not fit exactly when the blob ends before its strings could start and the wrapped difference is large enough (`FdtSw.AcceptsExactly`).
* The room test for a new property name wraps as well: `_fdt_find_add_string` accepts a name that does not fit exactly if it is, with
  its terminator and the strings already there, longer than the buffer (`FdtSw.NameAcceptsExactly`). The name is then copied to an address
  before the blob and over its header (`FdtSw.BeforeTheBlob`), so what happens next depends on the bytes of the name; the model ends at that
  copy and answers `OUTSIDE`. This cannot happen if all distinct names with their terminators are no longer than the buffer
  (`FdtSw.NamesStayInside`); a name of 200 bytes in a buffer of 100 is an example (`FdtSw.NameOverrunsBuffer`).
* Mounting accepts a FAT too small for its entries exactly from 0x3FFFFF81 entries on, where their bytes wrap (`FatGeometry.RoomExactly`); one sector
  of FAT passes for 0x40000000 entries (`FatGeometry.OneSectorFat`).
* On FAT32 volumes of more than 0x0FFFFFFF entries links to the highest clusters cannot be stored (`FatChain.NumbersFitExactly`,
  `FatChain.LinkLost`).
* `malloc_ex` starts its search inside the matrix exactly for requests of at most 0x3F000000 bytes and for those of at least 0xFC000041, whose
  rounding wraps so that the search is for a block of size 0 (`Requests.SlotExactly`).
* A path names its node back exactly if every node on the way is the first sibling its own name matches, unit addresses being optional
  (`Paths.PathRoundTrip`); the path of "a" next to "a@1" names the latter (`Paths.PathOfAnother`).
* `fdt_open_into` in place needs its old total size plus its packed size when it has to reorder the blocks (`FdtPack.OpenInto`).

## Model

| member | source | states |
|---|---|---|
| `Mapping.MsBitIsLog` | tlsf/tlsf.c:291-298 | ms_bit is the floor of the base-2 logarithm for every word, and -1 exactly on zero |
| `Mapping.LsBitIsLowest` | tlsf/tlsf.c:282-289 | ls_bit is the lowest set bit of every word, and -1 exactly on zero |
| `Words.SetBitBits` | tlsf/tlsf.c:300-303 | set_bit sets that bit of a word and no other |
| `Words.ClearBitBits` | tlsf/tlsf.c:305-308 | clear_bit clears that bit and no other |
| `Words.WordParts` | tlsf/tlsf.c:144-161 | size and both flags are read back from a size word, and setting or clearing a flag bit changes just that flag |
| `Mapping.InsertInRange` | tlsf/tlsf.c:330-340 | every block size below the limit has a slot of the matrix |
| `Mapping.SlotRange` | tlsf/tlsf.c:330-340 | four sizes a slot below 128, then a row of 32 slots for each power of two, each with its range of sizes |
| `Mapping.InsertMonotone` | tlsf/tlsf.c:330-340 | larger sizes are in later slots of the search order |
| `Mapping.SearchRounds` | tlsf/tlsf.c:310-328 | the slot of a search is that of the rounded size, which is the bottom of its slot, also when rounding carries into the next power of two |
| `Mapping.SearchIsExact` | tlsf/tlsf.c:310-340 | the request is rounded up by less than a 32nd (not at all below 128), and a block is in the slot searched for or a later one if and only if it is at least that large |
| `FreeLists.FindIsFirst` | tlsf/tlsf.c:343-359 | FIND_SUITABLE_BLOCK finds the head of the first non-empty list at or after the slot, and nothing exactly if all are empty |
| `FreeLists.UnlinkKeepsList` | tlsf/tlsf.c:376-390 | unlinking any member leaves the rest of the list doubly linked, in order |
| `FreeLists.LinkExtendsList` | tlsf/tlsf.c:392-401 | inserting puts the block at the head of a doubly linked list |
| `FreeLists.BitmapsAfterInsert` | tlsf/tlsf.c:398-400 | bitmap bits stay set exactly for non-empty lists and rows |
| `FreeLists.BitmapsAfterEmptied` | tlsf/tlsf.c:366-369 | emptying a list clears its row bit, and the level bit exactly with the row's last list |
| `FreeLists.BitmapsDetermined` | tlsf/tlsf.c:362-401 | both bitmaps are determined by which lists are empty |
| `Heap.TileSetFree` | tlsf/tlsf.c:771 | marking keeps the blocks tiling the area |
| `Heap.TileAbsorb` | tlsf/tlsf.c:778-789 | merging a block with the next keeps the tiling |
| `Heap.TileSplit` | tlsf/tlsf.c:738-748 | splitting keeps the tiling, both back links included |
| `Invariant.ExtractRep` | tlsf/tlsf.c:376-390 | after EXTRACT_BLOCK memory, matrix and bitmaps represent the lists without the block |
| `Invariant.InsertRep` | tlsf/tlsf.c:392-401 | after INSERT_BLOCK they represent the lists with the block in front |
| `Tlsf.Pool.ExtractHead` | tlsf/tlsf.c:362-373 | EXTRACT_BLOCK_HDR removes the head of its list from the represented lists |
| `Tlsf.Pool.ExtractBlock` | tlsf/tlsf.c:376-390 | EXTRACT_BLOCK removes any member |
| `Tlsf.Pool.InsertBlock` | tlsf/tlsf.c:392-401 | INSERT_BLOCK adds the block at the head |
| `Coalesce.MergePending` | tlsf/tlsf.c:778-789 | one merge in free_ex leaves a heap in which only the merged block is unlisted |
| `Coalesce.PublishInv` | tlsf/tlsf.c:790-795 | listing the merged block and telling its neighbour completes the invariant |
| `Frames.GrownKeeps` | tlsf/tlsf.c:778-789 | a merge changes no word of any live payload |
| `Carve.CarvedInv` | tlsf/tlsf.c:738-748 | the split in malloc_ex and realloc_ex restores the invariant from a block whose header is half written |
| `Carve.CarvedKeeps` | tlsf/tlsf.c:738-748 | the split keeps every live payload, of the block split its first r bytes |
| `Carve.SearchOutcome` | tlsf/tlsf.c:706-732 | the search of malloc_ex is sound and complete: NULL exactly if no free block reaches the rounded request |
| `Requests.SlotExactly` | tlsf/tlsf.c:706-713 | for every 32-bit request: the search starts in a slot of the matrix if and only if the request is at most 63 * 2^24, or at least 0xFC000041 and thus wraps to a search for size 0; the requests MallocEx is stated for are exactly the former |
| `Tlsf.Pool.MallocEx` | tlsf/tlsf.c:698-757 | fails exactly if no free block is large enough, changing nothing; else the first block of the first suitable list is taken, for the rounded request or 8 bytes more, and the rest listed; no live block or payload changes |
| `Fitting.GrantedFits` | tlsf/tlsf.c:698-757 | block by block and list by list: only the block taken changes, it has the rounded request or 8 bytes more with nothing left behind it, what is left is one free block in front of its list, every list else keeps its order |
| `Tlsf.Pool.UseLoose` | tlsf/tlsf.c:736-756 | the block handed out has the rounded size or 8 bytes more |
| `Tlsf.Pool.FreeEx` | tlsf/tlsf.c:760-796 | the block is freed, merged with free neighbours and listed; every other live block and payload is kept |
| `Fitting.FreedReleases` | tlsf/tlsf.c:760-796 | one free block takes the place of the block and its free neighbours, in front of its list; every other block and the order of every list stay |
| `Tlsf.Pool.MergeNext` | tlsf/tlsf.c:777-782 | merging with the free block after |
| `Tlsf.Pool.MergePrev` | tlsf/tlsf.c:783-789 | merging into the free block before |
| `Tlsf.Pool.Publish` | tlsf/tlsf.c:790-795 | the freed block enters the list of its class and the block after it learns of it |
| `Tlsf.Pool.ReallocEx` | tlsf/tlsf.c:800-883 | the four argument cases, and in each the exact heap and the first min(old, new) payload bytes; a block resized in place has the size asked for or 8 bytes more |
| `Tlsf.Pool.ReallocLive` | tlsf/realloc_ex.c:25-88 | a live block is resized in place whenever it can be, to the size asked for or 8 bytes more, else moved with its payload, else refused with nothing changed |
| `Tlsf.Pool.Shrink` | tlsf/tlsf.c:824-847 | shrinking in place keeps the first new-size bytes and gives the surplus back, joined with a free block after it |
| `Tlsf.Pool.Grow` | tlsf/tlsf.c:848-871 | growing into the free block after keeps all old bytes and gives the surplus back |
| `Fitting.ResizedFits` | tlsf/tlsf.c:824-871 | after resizing in place only the block and a free block after it have changed: the block has the size asked for or 8 bytes more with nothing left behind it, what is left is one free block in front of its list, every list else keeps its order |
| `Tlsf.Pool.Move` | tlsf/tlsf.c:873-882 | allocate, copy, free: the new block holds the old payload |
| `Tlsf.Pool.CopyPayload` | tlsf/tlsf.c:877-879 | the copy changes the destination payload only |
| `Tlsf.Pool.constructor` | tlsf/tlsf.c:429-448 | laying out an area and freeing its one block gives one free block between the area record and the sentinel |
| `Tlsf.InitMemoryPool` | tlsf/tlsf.c:462-501 | refuses exactly unaligned pools and those below 3244 bytes, else returns the size of the initial free block of a valid heap: the pool less the control structure, in whole units of 8 bytes, less 32 |
| `NewPool.InitialInv` | tlsf/tlsf.c:429-501 | the initial heap is well formed |
| `NewPool.FirstFree` | tlsf/tlsf.c:492 | freeing the single used block of a fresh area gives that heap |
| `NewPool.SentinelInside` | tlsf/tlsf.c:489-490 | the sentinel ends inside the pool if and only if the pool size modulo 8 is below 4 |
| `NewPool.SentinelPastPool` | tlsf/tlsf.c:462-501 | a pool of 3252 bytes is accepted and its sentinel lies past its end |
| `Runs.TileCovers` | tlsf/tlsf.c:191-201 | every address of the area lies in exactly one block |
| `Runs.LiveDisjoint` | tlsf/tlsf.c:698-796 | live payloads are disjoint and inside the area |
| `Runs.FreedInv` | tlsf/tlsf.c:760-796 | free_ex keeps the invariant and makes exactly its block unused |
| `Runs.GrantedInv` | tlsf/tlsf.c:698-757 | malloc_ex keeps the invariant and makes exactly its block used, of at least the size asked for |
| `Runs.ResizedInv` | tlsf/tlsf.c:824-871 | resizing in place keeps the invariant, leaves the size asked for or 8 bytes more, and resizes only its block |
| `Runs.MovedInv` | tlsf/tlsf.c:873-882 | moving a block keeps the invariant and every other live block, and makes one new block used |
| `Runs.StepKeepsInv` | tlsf/tlsf.c:698-883 | any call keeps the invariant and every live block it does not name |
| `Runs.RunsAreSafe` | tlsf/tlsf.c:462-883 | every state of every run from a new pool is well formed |
| `Runs.LiveUntilNamed` | tlsf/tlsf.c:698-883 | in any run a live block keeps its address and size until a call names it |
| `Runs.AllocateThenRelease` | tlsf/tlsf.c:698-796 | free_ex of what malloc_ex returned restores tiling and every free list in order |
| `Runs.IndexDetermined` | tlsf/tlsf.c:362-401 | heads and bitmaps are determined by the lists, so they are restored as well |
| `Runs.NothingLiveIsInitial` | tlsf/tlsf.c:760-796 | a heap with nothing live is the new pool again |
| `Runs.ReleaseAllRestores` | tlsf/tlsf.c:760-796 | releasing all live blocks in any order ends in the new pool |
| `PoolRuns.GrantStep` | tlsf/tlsf.c:698-757 | what malloc_ex promises is an allocation step of a run, and its block was not live before |
| `PoolRuns.ResizeStep` | tlsf/tlsf.c:800-883 | what realloc_ex promises for a live block is a resizing step of a run |
| `PoolRuns.Serve` | tlsf/tlsf.c:698-883 | one call of a client on a pool performs exactly the request it makes, and its pointers stay different live blocks |
| `PoolRuns.Replay` | tlsf/tlsf.c:462-883 | any program of calls on a new pool is a run whose requests are those of the calls in order, with the memory before and after each, and the client's table changes only in the entry a call names |
| `PoolRuns.PayloadUntilNamed` | tlsf/tlsf.c:698-883 | along such a run every word of a live payload stays what it was until a call names its block |
| `PoolRuns.AllocateRelease` | tlsf/tlsf.c:698-796 | on a pool, allocating and releasing restores heap, list heads and both levels of bitmaps, and keeps all payloads |
| `PoolRuns.ReleaseEach` | tlsf/tlsf.c:760-796 | on a pool, releasing every live block in any order gives the new pool |
| `Fdt.HeaderVerdict` | arm_chainloader/drivers/libfdt/fdt.c:58-75 | exactly the finished blobs readable as version 17 and the unfinished ones with a structure pass; each of the three errors has its exact headers |
| `Fdt.OffsetOkExact` | arm_chainloader/drivers/libfdt/fdt.c:77-92 | fdt_offset_ptr accepts exactly the ranges inside the structure region, whatever wraps |
| `Fdt.TagIsFirst` | arm_chainloader/drivers/libfdt/fdt.c:94-142 | at a token boundary fdt_next_tag reads the token that starts there and its padded length |
| `Fdt.TagMovesOn` | arm_chainloader/drivers/libfdt/fdt.c:94-142 | on any bytes the scan fails or moves forward, except exactly on a property header of length 0xFFFFFFF4 |
| `Fdt.TagStays` | arm_chainloader/drivers/libfdt/fdt.c:94-142 | twelve bytes on which it stays where it is |
| `Fdt.NextTag` | arm_chainloader/drivers/libfdt/fdt.c:94-142 | the method with the loop over the name computes the tag and next offset specified |
| `Fdt.CheckNodeOffset` | arm_chainloader/drivers/libfdt/fdt.c:144-151 | exactly the aligned offsets of BEGIN_NODE tags pass |
| `Fdt.CheckPropOffset` | arm_chainloader/drivers/libfdt/fdt.c:153-160 | exactly those of PROP tags pass |
| `Fdt.NextNode` | arm_chainloader/drivers/libfdt/fdt.c:162-200 | from any boundary, the next node and its depth, or how the scan ends, as seen in the items |
| `Walk.VisitsRoot` | arm_chainloader/drivers/libfdt/fdt.c:162-200 | repeated fdt_next_node from the root visits exactly the nodes of the tree in preorder, with their depths |
| `Walk.VisitsNode` | arm_chainloader/drivers/libfdt/fdt.c:162-200 | from a node at depth 0 exactly its subtree, ending just past its own end |
| `Walk.NextOfKid` | arm_chainloader/drivers/libfdt/fdt.c:213-228 | the next visit not below a child is its next sibling, if any |
| `FdtRo.FirstSubnode` | arm_chainloader/drivers/libfdt/fdt.c:202-211 | the first child, or NOTFOUND if there is none |
| `FdtRo.NextSubnode` | arm_chainloader/drivers/libfdt/fdt.c:213-228 | the next child in order, or NOTFOUND after the last |
| `Fdt.MatchIsString` | arm_chainloader/drivers/libfdt/fdt.c:230-240 | a match of the terminated name is a place where exactly that string starts, also inside a longer one |
| `Fdt.FindString` | arm_chainloader/drivers/libfdt/fdt.c:230-240 | the first match, or none |
| `Nodes.NodeOfOffset` | arm_chainloader/drivers/libfdt/fdt.c:144-151 | every offset the check accepts at a boundary is that of a node of the tree |
| `Nodes.NodeOffsetsUnique` | arm_chainloader/drivers/libfdt/fdt.c:144-151 | nodes and their offsets correspond one to one |
| `FdtPack.Move` | arm_chainloader/drivers/libfdt/fdt.c:242-251 | the blob is copied, overlapping or not, or there is no space |
| `Blob.DenotesOne` | arm_chainloader/drivers/libfdt/fdt.c:94-142 | a blob stands for at most one tree |
| `SampleBlob.SampleDenotes` | arm_chainloader/drivers/libfdt/fdt.h:57-109 | a blob written out in 126 bytes stands for its tree of two nodes and a property, and for its reservation |
| `Trees.FlattenInjective` | arm_chainloader/drivers/libfdt/fdt.c:94-142 | the item stream of a tree determines the tree |
| `FdtRo.NodeNameEq` | arm_chainloader/drivers/libfdt/fdt_ro.c:61-79 | true exactly for the full name, or the name up to its unit address if none was asked for |
| `FdtRo.StringEq` | arm_chainloader/drivers/libfdt/fdt_ro.c:86-92 | true exactly if the string at the offset is the name |
| `FdtPack.NumMemRsv` | arm_chainloader/drivers/libfdt/fdt_ro.c:128-135 | the number of reservations before the first of size 0 |
| `FdtRo.NextProp` | arm_chainloader/drivers/libfdt/fdt_ro.c:137-159 | the next property of the same node, or the error that tells why there is none |
| `FdtRo.SubnodeOffset` | arm_chainloader/drivers/libfdt/fdt_ro.c:161-178 | the first visited node at depth 1 whose name matches |
| `Lookup.ChildOfNode` | arm_chainloader/drivers/libfdt/fdt_ro.c:161-178 | that node is the first direct child whose name matches, and only direct children are found |
| `FdtPath.PathOffset` | arm_chainloader/drivers/libfdt/fdt_ro.c:186-229 | the node a path from the root names, or the error |
| `FdtRo.GetName` | arm_chainloader/drivers/libfdt/fdt_ro.c:236-254 | where the node's name is and how long it is |
| `FdtRo.GetProperty` | arm_chainloader/drivers/libfdt/fdt_ro.c:295-317 | offset and length of the property searched for, or the error |
| `Lookup.FindInNode` | arm_chainloader/drivers/libfdt/fdt_ro.c:295-317 | the search finds the first property of that name of this node, and never one of another node |
| `FdtPath.GetPath` | arm_chainloader/drivers/libfdt/fdt_ro.c:392-442 | the names from the root down, separated by slashes and terminated, exactly if they fit |
| `Paths.StackPush` | arm_chainloader/drivers/libfdt/fdt_ro.c:406-423 | the buffer holds the names of the ancestors as far as all fit, also after a name that does not |
| `Paths.PathRoundTrip` | arm_chainloader/drivers/libfdt/fdt_ro.c:186-229 | looking up the path of a node gives that node if and only if every node on the way is the first sibling its name matches |
| `Paths.PathOfAnother` | arm_chainloader/drivers/libfdt/fdt_ro.c:61-79 | with children "a@1" and "a" the path of the second names the first |
| `Paths.SlashesRepeat` | arm_chainloader/drivers/libfdt/fdt_ro.c:186-229 | repeated slashes, and slashes at the end, do not change what a path names |
| `FdtPath.PathAndBack` | arm_chainloader/drivers/libfdt/fdt_ro.c:392-442 | fdt_get_path and then fdt_path_offset on a blob give the offset started from if and only if every node on the way is the first of its siblings that its name matches; a path is got exactly if it fits and the root is at offset 0 |
| `Paths.DistinctAreFound` | arm_chainloader/drivers/libfdt/fdt_ro.c:61-79 | this holds when no sibling's name is another's, or another's before the unit address |
| `FdtRo.Supernode` | arm_chainloader/drivers/libfdt/fdt_ro.c:444-478 | the ancestor at the depth asked for, and the node's own depth |
| `Walk.AncestorIsLast` | arm_chainloader/drivers/libfdt/fdt_ro.c:444-478 | the last node seen at depth d in preorder is the ancestor at depth d |
| `FdtRo.NodeDepth` | arm_chainloader/drivers/libfdt/fdt_ro.c:480-489 | the number of ancestors, exactly if the root is at offset 0 |
| `LeadingNop.NoppedDenotes` | arm_chainloader/drivers/libfdt/fdt_ro.c:444-489 | a blob that stands for a tree whose root is at offset 4, behind a NOP |
| `LeadingNop.QueriesMiss` | arm_chainloader/drivers/libfdt/fdt_ro.c:186-229 | on it the root has no depth, no path names a node, and "/" names the NOP |
| `FdtRo.ParentOffset` | arm_chainloader/drivers/libfdt/fdt_ro.c:491-499 | the parent's offset, or NOTFOUND for the root |
| `FdtRw.RwCheckHeader` | arm_chainloader/drivers/libfdt/fdt_rw.c:70-90 | versions below 17 and misordered blocks are refused; otherwise the tree is unchanged |
| `FdtRw.Splice` | arm_chainloader/drivers/libfdt/fdt_rw.c:97-110 | bytes replaced and the tail moved, or an error exactly when out of range or out of room |
| `FdtRw.SpliceStruct` | arm_chainloader/drivers/libfdt/fdt_rw.c:125-137 | the structure block with the hole, sizes and offsets adjusted, all other blocks kept |
| `FdtRw.FindAddString` | arm_chainloader/drivers/libfdt/fdt_rw.c:152-172 | an existing string is found and nothing changes; otherwise it is appended, or there is no room |
| `FdtRw.GrownKeeps` | arm_chainloader/drivers/libfdt/fdt_rw.c:152-172 | appending a string changes no tree |
| `Edits.EditMeans` | arm_chainloader/drivers/libfdt/fdt_rw.c:125-137 | replacing whole tokens between two boundaries replaces exactly their items in the stream |
| `Edits.PatchMeans` | arm_chainloader/drivers/libfdt/fdt_wip.c:96-102 | the same for tokens overwritten in place, on any sound blob |
| `Trees.FlattenReplaced` | arm_chainloader/drivers/libfdt/fdt_rw.c:125-137 | replacing a node replaces exactly its own items |
| `Trees.FlattenRemoved` | arm_chainloader/drivers/libfdt/fdt_rw.c:378-390 | removing a node removes exactly its own items |
| `Trees.ReplacedElsewhere` | arm_chainloader/drivers/libfdt/fdt_rw.c:203-390 | an edit of one node leaves every node neither above nor below it |
| `FdtRw.ResizeProperty` | arm_chainloader/drivers/libfdt/fdt_rw.c:203-219 | the property has the new length and room for its value, the old bytes gone |
| `FdtRw.AddProperty` | arm_chainloader/drivers/libfdt/fdt_rw.c:221-247 | a new property right after the node's name, its string added if new |
| `FdtRw.SetName` | arm_chainloader/drivers/libfdt/fdt_rw.c:249-270 | the blob stands for the tree with that node renamed, or there is no room and the tree stays; in the header only sizes and offsets have moved, by the bytes used |
| `FdtRw.SetProp` | arm_chainloader/drivers/libfdt/fdt_rw.c:272-288 | the blob stands for the tree with the value set, a new property being the first; fails exactly if the bytes do not fit; the rest of the structure block stays, the total size too, and the strings grow by a new name only |
| `FdtRw.RoomLeft` | arm_chainloader/drivers/libfdt/fdt_rw.c:97-151 | after an edit the total size is as before and the room is less by exactly the bytes used, so further bytes fit if and only if they fitted before together with those |
| `FdtRw.NameAddedOnce` | arm_chainloader/drivers/libfdt/fdt_rw.c:153-172 | a name is added to the strings only if it is not there, and then is |
| `FdtRuns.EarlierStays` | arm_chainloader/drivers/libfdt/fdt_rw.c:97-137 | nodes before the place of an edit keep their offsets |
| `FdtRuns.Locate` | arm_chainloader/drivers/libfdt/fdt.c:202-211 | from a root at offset 0 the children lead to every node of the tree, or NOTFOUND |
| `FdtRuns.Replay` | arm_chainloader/drivers/libfdt/fdt_rw.c:249-371 | any list of edits on any nodes: each is made if and only if what it names exists and the bytes it needs are left by those before it; the blob stands for the tree with all of them made and has the room that is left |
| `FdtRuns.OpenAndEdit` | arm_chainloader/drivers/libfdt/fdt_rw.c:249-476 | the same after fdt_open_into, the room being what the buffer has beyond the strings of the blob |
| `TreeEdits.SetThenGet` | arm_chainloader/drivers/libfdt/fdt_rw.c:272-288 | that edit sets this property and no other |
| `FdtRw.DelProp` | arm_chainloader/drivers/libfdt/fdt_rw.c:317-330 | the tree without the property, whose bytes become room, or NOTFOUND and the tree stays |
| `TreeEdits.DeleteThenGet` | arm_chainloader/drivers/libfdt/fdt_rw.c:317-330 | all properties of other names stay, in order |
| `FdtRw.AddSubnode` | arm_chainloader/drivers/libfdt/fdt_rw.c:332-371 | the tree with an empty first child, whose offset is returned, using exactly its bytes; or EXISTS or NOSPACE and the tree stays |
| `FdtRw.DelNode` | arm_chainloader/drivers/libfdt/fdt_rw.c:378-390 | the tree without the node and everything below it, exactly the bytes from its tag to its end being taken out; deleting the root leaves no items |
| `FdtPack.PackBlocks` | arm_chainloader/drivers/libfdt/fdt_rw.c:392-412 | the three blocks end up in order, none clobbered by an earlier move, in another buffer or a safe place of the same |
| `FdtPack.StructSize` | arm_chainloader/drivers/libfdt/fdt_rw.c:433-441 | the structure size of a version 16 blob, found by scanning to END |
| `FdtPack.OpenInto` | arm_chainloader/drivers/libfdt/fdt_rw.c:414-476 | same tree, reservations, structure block and strings, blocks in order, total size the buffer's, and the room the rest of it: from the end of the strings, or of the blocks packed if they had to be reordered; or NOSPACE, exactly if the stated size is not there, and nothing written |
| `FdtPack.OpenedIsEditable` | arm_chainloader/drivers/libfdt/fdt_rw.c:70-83 | such a blob is accepted by every read-write function |
| `FdtPack.Pack` | arm_chainloader/drivers/libfdt/fdt_rw.c:478-490 | same tree, reservations, structure block and strings, blocks adjacent from byte 40 on, total size their sum |
| `Edits.RelocatedDenotes` | arm_chainloader/drivers/libfdt/fdt_rw.c:392-490 | a blob with the same blocks elsewhere stands for the same tree and reservations |
| `FdtWip.NopRegion` | arm_chainloader/drivers/libfdt/fdt_wip.c:96-102 | every word of the region becomes NOP, nothing else changes |
| `FdtWip.NopProperty` | arm_chainloader/drivers/libfdt/fdt_wip.c:104-116 | the same tree as after fdt_delprop, all bytes but those of the property being as they were |
| `FdtWip.NodeEndOffset` | arm_chainloader/drivers/libfdt/fdt_wip.c:118-126 | where the scan of the node ends |
| `FdtWip.EndOfNode` | arm_chainloader/drivers/libfdt/fdt_wip.c:118-126 | that is just past the matching END_NODE |
| `FdtWip.NopNode` | arm_chainloader/drivers/libfdt/fdt_wip.c:128-139 | the same tree as after fdt_del_node, for every node but the root, all bytes but those of the node being as they were |
| `FdtSw.Create` | arm_chainloader/drivers/libfdt/fdt_sw.c:88-108 | a new blob, or NOSPACE below 40 bytes |
| `FdtSw.NewBlob` | arm_chainloader/drivers/libfdt/fdt_sw.c:88-108 | the state of a blob being written, with nothing written yet, if and only if it has at least 48 bytes |
| `FdtSw.GrabSpace` | arm_chainloader/drivers/libfdt/fdt_sw.c:73-86 | on any header, room is taken exactly if the 32-bit test accepts; if the parts of the blob do not meet, exactly if the bytes fit |
| `FdtSw.AcceptsExactly` | arm_chainloader/drivers/libfdt/fdt_sw.c:73-86 | the test accepts bytes that do not fit exactly when the total size is below the structure offset plus the strings and the wrapped difference suffices |
| `FdtSw.AcceptsPastEnd` | arm_chainloader/drivers/libfdt/fdt_sw.c:73-108 | in a new blob of 40 to 47 bytes every node is accepted, and would start behind the buffer |
| `FdtSw.AddReservemapEntry` | arm_chainloader/drivers/libfdt/fdt_sw.c:142-163 | the entry continues the table; refused once nodes are begun, or exactly if the 32-bit test for its room fails |
| `FdtSw.FinishReservemap` | arm_chainloader/drivers/libfdt/fdt_sw.c:165-168 | the terminating entry |
| `FdtSw.BeginNode` | arm_chainloader/drivers/libfdt/fdt_sw.c:170-184 | one item more, its exact room taken; or NOSPACE exactly if it does not fit |
| `FdtSw.EndNode` | arm_chainloader/drivers/libfdt/fdt_sw.c:186-198 | one closing item more, or NOSPACE exactly if its 4 bytes do not fit |
| `FdtSw.FindAddString` | arm_chainloader/drivers/libfdt/fdt_sw.c:200-221 | the name's offset from the end of the strings; a known string is shared, a new one put in front exactly if it fits, and 0 returned if it does not, unless the test wraps |
| `FdtSw.NameAcceptsExactly` | arm_chainloader/drivers/libfdt/fdt_sw.c:211-215 | the 32-bit test accepts every name that fits, and one that does not fit exactly if it is longer than the blob before the strings |
| `FdtSw.BeforeTheBlob` | arm_chainloader/drivers/libfdt/fdt_sw.c:211-217 | the copy of such a name begins before the blob and covers its header |
| `FdtSw.ShiftGrown` | arm_chainloader/drivers/libfdt/fdt_sw.c:200-221 | strings put in front disturb no name counted from the end |
| `FdtSw.Property` | arm_chainloader/drivers/libfdt/fdt_sw.c:223-243 | one property more, with its name if new; or NOSPACE exactly if both do not fit and the test for the name does not wrap, at most the name being added |
| `FdtSw.Finish` | arm_chainloader/drivers/libfdt/fdt_sw.c:245-288 | END written, strings moved up, every name offset rewritten in place: the items written are the items read |
| `FdtSw.WriterRoundTrip` | arm_chainloader/drivers/libfdt/fdt_sw.c:170-288 | a finished blob whose items are those of a tree stands for that tree and the reservations before the terminator |
| `FdtSw.WriteTree` | arm_chainloader/drivers/libfdt/fdt_sw.c:88-288 | for all reservations and every tree the calls succeed if and only if the buffer has the size they need, which the blob then has, shared strings counted once, and the blob stands for both; NOSPACE otherwise, unless the first item without room is a name the test lets through |
| `FdtSw.NamePaidOnce` | arm_chainloader/drivers/libfdt/fdt_sw.c:200-243 | once a property of a name is written the next one of that name takes its own bytes only |
| `FdtSw.NamesStayInside` | arm_chainloader/drivers/libfdt/fdt_sw.c:200-243 | no name is let through if all distinct names with their terminators are together no longer than the buffer |
| `FdtSw.NameOverrunsBuffer` | arm_chainloader/drivers/libfdt/fdt_sw.c:200-221 | a name of 200 bytes, in a buffer of 100 in which the root is begun, is let through and would be copied to offset -101 |
| `FdtEmpty.CreateEmptyTree` | arm_chainloader/drivers/libfdt/fdt_empty_tree.c:58-83 | succeeds if and only if the buffer has 80 bytes, leaving an editable blob of the nameless root whose room is all but those 80 |
| `FatGeometry.PowerTest` | arm_chainloader/drivers/fatfs/ff.c:3035 | x & (x - 1) is zero exactly for powers of two |
| `FatGeometry.MountIsLaid` | arm_chainloader/drivers/fatfs/ff.c:3024-3071 | every accepted boot sector with at most 0x3FFFFF80 FAT entries gives FATs, root directory and clusters in order inside the volume, and a FAT with an entry for each cluster |
| `FatGeometry.MountReads` | arm_chainloader/drivers/fatfs/ff.c:3024-3071 | for every accepted boot sector: cluster size, number, size and place of the FATs, root directory, data area and number of clusters, by the bytes of its fields |
| `FatGeometry.MountExactly` | arm_chainloader/drivers/fatfs/ff.c:2874-3071 | of the sectors whose sums do not wrap, with at most 0x3FFFFF80 entries, exactly those are accepted whose fields are proper and whose FAT has an entry for each cluster |
| `FatGeometry.RoomExactly` | arm_chainloader/drivers/fatfs/ff.c:3024-3071 | every boot sector accepted with n entries has room for them in its FAT if and only if n is at most 0x3FFFFF80 |
| `FatGeometry.TooManyEntries` | arm_chainloader/drivers/fatfs/ff.c:3024-3071 | for every larger n the 512 bytes of a boot sector that is accepted with too small a FAT |
| `FatGeometry.TightestReads` | arm_chainloader/drivers/fatfs/ff.c:2874-2891 | those bytes are taken for a FAT boot sector, with the parameters intended |
| `FatGeometry.OneSectorFat` | arm_chainloader/drivers/fatfs/ff.c:3064-3071 | 0x40000000 entries are accepted with one sector of FAT |
| `FatGeometry.ClusterPlace` | arm_chainloader/drivers/fatfs/ff.c:954-963 | exactly the clusters 2 to n_fatent - 1 have sectors, csize of them, behind the FATs and inside the volume |
| `FatGeometry.ClustersApart` | arm_chainloader/drivers/fatfs/ff.c:954-963 | the sectors of two clusters are disjoint |
| `FatGeometry.EntryInFat` | arm_chainloader/drivers/fatfs/ff.c:972-1038 | every byte get_fat reads lies in the first FAT, for 12, 16 and 32 bits |
| `FatGeometry.MaskIsMod` | arm_chainloader/drivers/fatfs/ff.c:1479 | masking with csize - 1 is the remainder |
| `FatTable.StoreThenLoad` | arm_chainloader/drivers/fatfs/ff.c:972-1098 | after storing, an entry reads as the value in 12, 16 or 28 bits, every other entry as before, and FAT32 top nibbles survive |
| `FatTable.EntryBytes` | arm_chainloader/drivers/fatfs/ff.c:990-1012 | the entry by the bytes of the FAT it is in: four, two, or one and a half, the lowest first |
| `FatVolume.StoredRest` | arm_chainloader/drivers/fatfs/ff.c:1048-1098 | storing changes no sector outside the FAT, neither of the first two entries, and no top bits of FAT32 entries |
| `FatVolume.Volume.WriteCopies` | arm_chainloader/drivers/fatfs/ff.c:871-876 | the dirty FAT sector goes to every other copy |
| `FatVolume.Volume.SyncWindow` | arm_chainloader/drivers/fatfs/ff.c:855-880 | the window is written back, what a reader sees is unchanged, and without disk errors all FAT copies agree |
| `FatVolume.Volume.MoveWindow` | arm_chainloader/drivers/fatfs/ff.c:884-906 | the window holds the sector asked for, and no write is lost |
| `FatVolume.Volume.GetFat` | arm_chainloader/drivers/fatfs/ff.c:972-1038 | the cluster's entry; 1 for no cluster, 0xFFFFFFFF only after a disk error |
| `FatVolume.Volume.GetFat12` | arm_chainloader/drivers/fatfs/ff.c:990-997 | the 12 bits, also from two sectors |
| `FatVolume.Volume.PutFat` | arm_chainloader/drivers/fatfs/ff.c:1048-1098 | the FAT seen through the window with exactly that entry stored; on a disk error no other entry changed; no sector outside the FATs ever |
| `FatVolume.Volume.PutFat12` | arm_chainloader/drivers/fatfs/ff.c:1062-1074 | two half-byte updates in one or two sectors |
| `FatVolume.Volume.PutFat32` | arm_chainloader/drivers/fatfs/ff.c:1083-1094 | the four top bits of the old entry are kept |
| `FatSpans.MaskStart` | arm_chainloader/drivers/fatfs/ff.c:3967 | masking a file offset gives the start of its cluster |
| `FatFile.ContentOfRun` | arm_chainloader/drivers/fatfs/ff.c:3421-3442 | whole sectors read at once are the bytes of the file there |
| `FatFile.FileByte` | arm_chainloader/drivers/fatfs/ff.c:3375-3473 | byte i of a file: in which cluster of the chain, which sector from the start of the data area, and where in it |
| `FatFile.File.Read` | arm_chainloader/drivers/fatfs/ff.c:3375-3473 | the bytes from the file position on, as many as asked for or left; errors only from the disk |
| `FatFile.File.ReadPiece` | arm_chainloader/drivers/fatfs/ff.c:3396-3469 | one turn of its loop reads the next bytes, crossing into the next cluster where needed |
| `FatFile.File.Seek` | arm_chainloader/drivers/fatfs/ff.c:3880-4032 | to the offset, clipped to the size, with cluster and buffered sector as the invariant demands |
| `FatFile.File.FollowChain` | arm_chainloader/drivers/fatfs/ff.c:3983-3998 | the seek follows the chain to the cluster of its goal |
| `FatFile.File.Replay` | arm_chainloader/drivers/fatfs/ff.c:3375-4032 | in any mix of seeks and reads of any sizes every read gives the file's bytes at the position the calls before it left |
| `FatDir.Dir.Sdi` | arm_chainloader/drivers/fatfs/ff.c:1406-1446 | the cursor stands at the entry of that offset, in the static root or a cluster chain, if there is one; cluster 0 means the static root or, on FAT32, the root's chain |
| `FatDir.EntryInChain` | arm_chainloader/drivers/fatfs/ff.c:1429-1443 | in a chain the entry at an offset is in the cluster that many clusters on, and in the sector and place the rest of the offset tells |
| `FatDir.Dir.Next` | arm_chainloader/drivers/fatfs/ff.c:1455-1515 | the cursor stands at the next entry, exactly where dir_sdi would put it; the end of the table, a broken link and a disk error are told apart, the cursor staying |
| `FatDir.Dir.Advance` | arm_chainloader/drivers/fatfs/ff.c:1406-1515 | k steps from the start give the cursor of dir_sdi to entry k |
| `FatChain.FindFree` | arm_chainloader/drivers/fatfs/ff.c:1335-1346 | the search around the FAT finds the first free cluster after its start, stops at an entry that is no link before that, and reports none only if there is neither |
| `FatChain.CreateChain` | arm_chainloader/drivers/fatfs/ff.c:1294-1367 | the first free cluster after the one to stretch, or after the hint, becomes the new end of the chain, or 0 is returned and no cluster is free; a cluster already followed returns its successor; after a disk error at most the new cluster is marked and then the link to it changed; no sector outside the FATs changes and the copies stay equal |
| `FatChain.NumbersFitExactly` | arm_chainloader/drivers/fatfs/ff.c:1352-1354 | links to all clusters can be stored and told from the end mark if and only if there are at most as many entries as the mark |
| `FatChain.LinkLost` | arm_chainloader/drivers/fatfs/ff.c:1352-1354 | a FAT32 link to cluster 0x10000000 reads as a free entry |
| `FatChain.StretchKeepsChains` | arm_chainloader/drivers/fatfs/ff.c:1294-1367 | after stretching a chain the FAT is still a disjoint union of chains, that one longer by one formerly free cluster |
| `FatChain.StartKeepsChains` | arm_chainloader/drivers/fatfs/ff.c:1294-1367 | starting a chain makes one free cluster a chain of its own and leaves the others as they were |
| `FatChain.FreeChain` | arm_chainloader/drivers/fatfs/ff.c:1237-1270 | frees exactly the clusters of the tail, and ends on any FAT, also a cyclic one; no sector outside the FATs changes |
| `FatChain.UsedFreed` | arm_chainloader/drivers/fatfs/ff.c:1237-1270 | each turn leaves one cluster less in use |
| `FatChain.RemoveChain` | arm_chainloader/drivers/fatfs/ff.c:1212-1284 | the tail is free and the cluster before it ends the chain, nothing else changes, no sector outside the FATs either; after a disk error this holds of the first clusters of the tail, the next one being in doubt |
| `FatChain.PartitionTail` | arm_chainloader/drivers/fatfs/ff.c:1212-1284 | the rest of any chain of the FAT is such a tail |
| `FatChain.RemoveKeepsChains` | arm_chainloader/drivers/fatfs/ff.c:1212-1284 | after removing the rest of a chain the FAT is still a disjoint union of chains, that one cut short |
| `Crc32.Calculator.RcCrc32` | common/crc32.c:6-37 | for every start value and byte string the table-driven loop gives the CRC of bit-at-a-time division |
| `Crc32.KnownValues` | common/crc32.c:6-37 | the CRC of nothing is 0 and that of the letter "a" is 0xE8B7BE43 |
| `Crc32.Calculator.BuildTable` | common/crc32.c:15-29 | each entry is eight division steps of its index |
| `Crc32.TableStep` | common/crc32.c:35 | eight steps of the register need the table entry of its low octet only |
| `Crc32.FeedIsWord` | common/crc32.c:15-37 | up to 32 message bits can be added to the register before dividing |
| `Crc32.CrcComposes` | common/crc32.c:6-37 | the CRC of two pieces in turn is the CRC of the whole |
| `Crc32.BurstDetected` | common/crc32.c:6-37 | any change confined to four consecutive octets changes the CRC |

## Left out

TLSF:

- `add_new_area` (tlsf/tlsf.c:504-579): has no caller in this configuration, and joining areas overwrites the merged block's flag, so the invariant does not hold for it.
- The check for an already initialised pool (tlsf/tlsf.c:477-480), locks, statistics, `calloc_ex`, mmap and sbrk growth, and debug printing.
- MallocEx: requests of at most 0x3F000000 bytes. Larger ones index past the matrix in the code, but for those from 0xFC000041 on, which search for size 0 and would be granted no bytes (`SlotExactly`).
- ReallocEx: the same bound, and the pointer must be that of a live block, as the code's callers must ensure.
- InitMemoryPool: pools must have a size whose remainder by 8 is below 4, as `SentinelInside` shows to be necessary, be smaller than 2^30 bytes, the largest size with a class, and lie in the 32-bit address space.
- CopyPayload: copies words where memcpy copies bytes; sizes are multiples of 8.

libfdt:

- Blobs are below 2^31 bytes, property values and the names given to the writer below 2^31 - 16; names given to functions contain no NUL, as C strings cannot.
- Negative buffer sizes, which C compares as large unsigned numbers.
- FindAddString: what a copy before the blob overwrites; the model ends there, as it does in Property and WriteTree.
- GetPath: no node's name contains a slash, which the way back over a name relies on.
- PathAndBack: the same, no empty names below a nameless root, and a buffer below 2^31 bytes.
- Replay: no deletion of nodes, whose bytes depend on the NOPs inside; the root must be at offset 0, since the nodes are found from there.
- OpenAndEdit: the same.
- OpenInto: the buffer is the blob's own memory or none of it; partial overlap is not modelled. The boot_cpuid field is not claimed: in place it is read after blocks were moved.
- PackBlocks: the same restriction on overlap.
- `fdt_resize`, which does not keep a partly built structure block in another buffer; aliases in paths; memory reservation edits, `fdt_appendprop`, `fdt_setprop_inplace`, phandles, string lists, compatible lists and `fdt_strerror`: they repeat the same searches and splices.
- Malformed blobs beyond what `Fdt.TagMovesOn` and the error answers of `Fdt.NextTag` say.

FatFs:

- Read: the volume's window is clean, as always in the shipped read-only configuration, so dirty sectors are not merged into direct reads.
- Seek: the same; it never stretches the file.
- Next: the same; it never stretches the directory.
- MountIsLaid: sums of the parameter block must not wrap 32 bits.
- MountReads: the same; MountExactly asks it of all sectors, as well as a bound on the clusters.
- RoomExactly: up to 0xFEFFFFFF entries; beyond, the volume's own sectors are about to wrap.
- CreateChain: on FAT32 at most 0x0FFFFFFF entries, as `NumbersFitExactly` shows to be necessary.
- The counters free_clst and last_clst beyond their use as a hint: the code does not keep free_clst exact when every cluster is free.
- f_write and f_open, path lookup and names, exFAT, long names, fast seek, locking, formatting.

CRC:

- The race on first use of the table, which the source's own comment mentions; one caller at a time is modelled.

Everything else in the repository: register-level drivers, traps, printf, the mailbox monitor, host tools and headers, which have no abstract meaning to prove.
