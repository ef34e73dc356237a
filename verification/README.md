# HendOS in Dafny

A Dafny model of the parts of the HendOS kernel (and of its user-space `malloc`) whose correctness is hardest to see from
the C code, with proofs of what those parts promise. `dafny verify dfyconfig.toml` checks everything.

The model follows the form of the code. Where the C code updates memory step by step, there is a class with the same
fields, or an array, and each method is proved against a specification function of the old state; what the code is for is
then proved about that function as lemmas and as invariants over whole runs. Where the C code only computes, there is a
function.

| files | what they model |
|---|---|
| `Ext2Volume`, `Ext2Pointers`, `Ext2File` | the ext2 driver, bottom up: block bitmaps with their counts, the direct/single/double-indirect pointer map, files as byte sequences |
| `Ext2Dir`, `Ext2Directory` | directory blocks as records in a byte buffer; directories on a volume, whose blocks are reached through the pointer map and taken from the allocator |
| `PageTable`, `PageMap`, `PageRange` | four-level page tables as 512-entry frames (Intel SDM Vol. 3A, section 4.5), translation as a function, mapping one page, mapping a range |
| `PageFork`, `CowFault`, `CowSharing` | copying an address space for fork, resolving a write to a copy-on-write page, what parent and child see of each other's writes afterwards |
| `PhysPages`, `PageAllocator` | the two-size physical page allocator: its operations on values, and the same over bitmap words and array stacks |
| `KernelHeap`, `UserHeap` | the kernel's first-fit list and the user `malloc`, both over memory that holds the real headers |
| `Scheduler`, `WaitProtocol`, `ProcessKernel` | the scheduler ring, the fork/exit/waitpid hand-off as a state machine, and the same on linked process objects |
| `PidHash` | the chained pid table and its node free list |
| `Vfs` | the entry tree with its intrusive lists, path lookup and path printing |
| `Bresenham`, `EdgeSort` | integer line stepping; the hybrid quicksort and insertion sort of the vendored stb header |
| `Arith`, `Bits`, `Bytes` | arithmetic, bit and byte facts the others use |

## What the code needs

Several functions do what they are for only under a condition. Each condition is stated here as the theorem proved about it,
as a rule an if-and-only-if over all inputs:

- The first process has pid 0, and `process_exit` takes the waiter 0 for nobody. So a step keeps every wakeup exactly when
  it is no wait by process 0 for a running process and no second wait for the same one (`StepExact`, `OneWaiterExact`); a
  process whose wakeup is lost stays blocked over every run (`LostForever`). The kernel gets there by itself: the first
  process becomes `getty`, waits for its shell and never runs again (`BootRunIsRun`, `GettyNeverReturns`).
- `schedule_end` gives up a process exactly when another one can run; the test on line 64 of `src/kernel/scheduler.c`
  compares a truth value with a pointer and does not detect the last process (`EndNeedsAnother`).
- `krealloc` keeps its promise exactly when it does not take the last block of the heap to have two words more than it has
  (`Krealloc`, `InPlaceExact`); then it returns a block that is too small, and no reading of the heap makes it larger
  (`NoRoomToFind`). A split that leaves 8 bytes at the end of the heap writes a header across the end (`SliverBreaks`).
  `kfree` is correct exactly for blocks that are live: a second free ties the list into a ring (`FreeExact`).
- `add_entry` into an unused record with four bytes to spare adds exactly the entry when and only when nothing follows or
  the next record's inode already ends in the bytes 4, 0, 0 (`SlackFourExact`, `AddExact`); at the end of the block it
  writes three bytes past its buffer (`BehindTheBuffer`). Removing one name and adding a shorter one reaches this
  (`RemoveThenAdd`).
- `remove_entry` keeps `prev_entry` from an earlier block and adds the removed record's length to whatever number lies at
  that offset of the current block. It removes exactly the entry when and only when that does no harm (`MergeExact`,
  `RemoveExact`); in a directory of two blocks it can take the neighbour along (`RemoveTakesNeighbour`).
- A failing `add_entry` loses a block exactly when two blocks are free and the first double-indirect tables are missing:
  the block goes into a table of the inode that is then dropped (`Grow`).
- `pageTable_fork` never reports failure once it has a root. It has made a fork exactly when there are frames for all
  tables; otherwise the child's tables lead to address 0 (`Fork`, `ShortIsNoFork`, `OneFrameShort`).
- `pageTable_fork` marks only the child's leaves. A store by the parent changes a byte the child sees exactly when the page
  is writable, both read the byte and the child has not faulted on its page (`ParentStoreSeen`), although a copy-on-write
  scheme would need both sides marked. A store by the child is seen by the parent exactly in a writable page at
  physical address 0, which is not marked (`ChildStoreSeen`); its faults never are (`FaultUnseen`).
- A copy-on-write fault is invisible exactly when no other page reads a changed byte from the frame handed out
  (`FaultInvisible`), and always is with a page from the physical allocator (`ServedFault`).
- `pages_allocatePage` returns null for page 0 as well. The null address means that nothing is free exactly when page 0 was
  not handed out (`NullSmall`, `NullBlock`), and repeated allocation after boot comes to hand it out exactly when boot did
  not reserve block 0 (`NullAfterBoot`).
- `pages_free` of a 2 MiB page stacks its 4 KiB pages again; it is correct exactly when none of them is still stacked
  (`Free2Sound`), and otherwise one page is handed out twice (`EarlyFreeHandsOutTwice`). Allocating a block right
  after boot and freeing it already reaches that state (`EarlyFreeIsReachable`), and then the stack has room for the
  pages exactly when boot reserved something (`FirstFreeHasRoom`).
- The two page bitmaps share a word unless the number of 2 MiB pages is a multiple of 64 (`BitmapsApart`).
- `pageTable_addPage` succeeds exactly when there are as many frames as tables are missing (`AddPage`). Flags given to it
  are also set in table entries on the way; the walk survives exactly those flags that spare the page-size and address
  bits (`FlagsSparingTables`).
- `vfs_find_entry` finds an entry by its printed path exactly when every name on the way is proper and first in its
  directory (`RoundTrip`); a doubled slash is an empty name, not a separator (`DoubledSlash`).

Where the comments of the code and the code differ, the model follows the code: a comment in `pages_free` has 4 KiB
pages stacked again if they are not reserved, while the code has just cleared all their bits and stacks all 512.

## Model

| member | source | states |
|---|---|---|
| Ext2Volume.Geometry.Coordinates | src/drivers/ext2.c:1135-1136 | group and index of a block number are in range, and the number is the first data block plus the blocks of the groups before plus the index |
| Ext2Volume.Geometry.GroupRange | src/drivers/ext2.c:1093 | the groups are those that begin below the end of the volume; each is non-empty and at most full |
| Ext2Volume.Geometry.GroupEnd | src/drivers/ext2.c:1093 | each group ends where the next begins and the last one at the end of the volume |
| Ext2Volume.Geometry.ScanOrder | src/drivers/ext2.c:1076-1118 | scanning group by group and bit by bit meets block numbers in increasing order |
| Ext2Volume.BitmapByte | src/drivers/ext2.c:1096-1100 | index 8q + r of a group is bit r of byte q of its bitmap, least significant first |
| Ext2Volume.BitmapSet | src/drivers/ext2.c:1100 | setting a bit changes that bit and no other |
| Ext2Volume.BitmapClear | src/drivers/ext2.c:1155 | clearing a bit changes that bit and no other |
| Ext2Volume.FlipBit | src/drivers/ext2.c:1099-1108 | one flipped bitmap bit moves exactly one block into or out of the set of free blocks |
| Ext2Volume.Retally | src/drivers/ext2.c:1104-1113 | when one block joins or leaves the free set, adjusting its group's count by one makes every group count right again |
| Ext2Volume.FlipConsistently | src/drivers/ext2.c:1099-1115 | bit, group count and superblock count changed together keep bitmaps and all counts in agreement |
| Ext2Volume.FreeInvertsAllocate | src/drivers/ext2.c:1128-1174 | freeing the block just allocated restores every bitmap byte and every group descriptor |
| Ext2Volume.SuperblockIsSumOfGroups | src/drivers/ext2.c:1110-1113 | the superblock's free count is always the sum of the groups' counts |
| Ext2Volume.Volume.FirstClearBit | src/drivers/ext2.c:1095-1097 | the scan stops at the first clear bit, or finds every bit set |
| Ext2Volume.Volume.AllocateBlock | src/drivers/ext2.c:1073-1126 | hands out the lowest free block and takes it out of the free set; returns 0 only when nothing is free; no data block changes and all counts stay true |
| Ext2Volume.Volume.FreeBlock | src/drivers/ext2.c:1128-1174 | adds exactly the given block to the free set, refuses numbers off the volume, ignores a free block, keeps all counts true |
| Ext2Volume.Volume.WriteBlock | src/drivers/ext2.c:1062-1071 | replaces one block that is no bitmap; allocator state is unaffected |
| Ext2Volume.CallKept | src/drivers/ext2.c:1062-1174 | every call keeps bitmaps and counts in agreement; only a hand-out takes a block out of the free set and only a release puts one in |
| Ext2Volume.UsedUntilReleased | src/drivers/ext2.c:1073-1174 | over any run a block in use stays in use until it is released |
| Ext2Volume.NeverTwice | src/drivers/ext2.c:1073-1174 | over any run, between two hand-outs of the same block lies a call that releases it |
| Bytes.SplicedWords | src/drivers/ext2.c:1751-1753 | copying pointers into a table block changes exactly the entries copied over |
| Bytes.WordRoundTrip | src/drivers/ext2.c:1751-1753 | a 32-bit pointer survives storing as four bytes, the least significant first |
| Ext2Pointers.Slots | src/drivers/ext2.c:1638-1642 | first-level and second-level slot determine the logical index, and are in range exactly below the limit of the map |
| Ext2Pointers.WrapsOut | src/drivers/ext2.c:1638-1645 | an index below the double-indirect range wraps in 32 bits to a first-level slot that is out of range, so it reads nothing |
| Ext2Pointers.HangSingle | src/drivers/ext2.c:1680-1693 | hanging a zeroed single-indirect table changes no entry of the pointer map |
| Ext2Pointers.HangDouble | src/drivers/ext2.c:1711-1724 | hanging a zeroed double-indirect table changes no entry of the pointer map |
| Ext2Pointers.HangSecond | src/drivers/ext2.c:1731-1747 | hanging a zeroed second-level table changes no entry of the pointer map |
| Ext2Pointers.SingleUpdate | src/drivers/ext2.c:1695-1701 | copying pointers into the single-indirect table updates exactly their logical indices |
| Ext2Pointers.DoubleUpdate | src/drivers/ext2.c:1749-1753 | copying pointers into one second-level table updates exactly their logical indices |
| Ext2Pointers.MapDependsOnTables | src/drivers/ext2.c:1607-1660 | a write to any block that is none of an inode's tables leaves its pointer map unchanged |
| Ext2Pointers.MissingSteps | src/drivers/ext2.c:1667-1758 | the tables a pointer write needs are those its direct, single-indirect and double-indirect section need one after the other |
| Ext2Pointers.ReadBlockPointers | src/drivers/ext2.c:1607-1660 | returns what the map holds from the index on, and stops early only where there is no table slot or at the end of the first second-level table |
| Ext2Pointers.WriteBlockPointers | src/drivers/ext2.c:1662-1761 | returning n, it has updated exactly the n indices from the given one; n is the whole request exactly when that lies within the first second-level table it touches and as many blocks are free as tables are missing; just those tables are taken from the free set, and no other block changes |
| Ext2File.BlocksCover | src/drivers/ext2.c:1763-1766 | a byte lies at the offset of the block the two quotients give, and the number of blocks for a size covers every byte and not one block more |
| Ext2File.MissingSurvives | src/drivers/ext2.c:1780-1797 | taking data blocks does not change which pointer tables are missing |
| Ext2File.AllocateBlocks | src/drivers/ext2.c:1780-1794 | takes exactly so many distinct free blocks, or, when too few are free, gives all of them back |
| Ext2File.Extended | src/drivers/ext2.c:1768-1810 | allocating blocks and writing all their pointers extends the file by just those blocks and keeps every old block and byte |
| Ext2File.RolledBack | src/drivers/ext2.c:1797-1806 | after a partial pointer write, giving the blocks back leaves the file with its old blocks and bytes |
| Ext2File.EnsureBlocksAllocated | src/drivers/ext2.c:1768-1810 | the file grows to the required blocks exactly when one pointer write reaches that far and enough blocks are free for the data and the missing tables; otherwise it stays as it was, byte for byte |
| Ext2File.ChunkWritten | src/drivers/ext2.c:428-430 | overwriting part of a data block changes exactly those bytes of the file |
| Ext2File.WrittenContents | src/drivers/ext2.c:393-448 | bytes in place make the abstract file the old contents with the buffer laid over, and the block count follows the size |
| Ext2File.FileWrite | src/drivers/ext2.c:393-448 | contents become C[..pos] + buf + C[pos+count..]; a write that returns -1 changes no readable byte and not the position; it is accepted exactly when there is room |
| Ext2File.FileRead | src/drivers/ext2.c:344-391 | returns exactly the bytes from the position to the end of the request, of the file, or of the blocks that have a table slot, holes as zeros, and advances the position by as much |
| Ext2File.FileSeek | src/drivers/ext2.c:450-476 | moves to base plus offset exactly when that lies within the file; negative targets wrap and are refused |
| Ext2File.WriteSeekRead | src/drivers/ext2.c:344-476 | writing, seeking back and reading the same length returns the bytes written |
| Ext2File.OtherFileUntouched | src/drivers/ext2.c:393-448 | a step of one file leaves every disjoint file sound, disjoint and byte for byte the same |
| Ext2File.WriteAmongFiles | src/drivers/ext2.c:393-448 | among all files of a volume, a write changes the bytes of its own file only, and free blocks and file blocks together are conserved |
| Ext2File.BlocksConserved | src/drivers/ext2.c:1768-1810 | free blocks and the file's blocks make up the same set before and after |
| Ext2Dir.PutEntryMeaning | src/drivers/ext2.c:1423-1428 | a written record reads back as its entry and touches nothing before it or behind its name |
| Ext2Dir.AddAtEnd | src/drivers/ext2.c:1417-1435 | the tail of a block becomes one record: the block stays tiled and gains exactly the entry |
| Ext2Dir.AddAtUnused | src/drivers/ext2.c:1437-1463 | reusing an unused record with no or at least eight bytes to spare keeps the tiling and gains exactly the entry |
| Ext2Dir.AddBehindUsed | src/drivers/ext2.c:1464-1487 | splitting a used record keeps the tiling and its entry and gains exactly the new one |
| Ext2Dir.SlackFourExact | src/drivers/ext2.c:1450-1457 | with four bytes to spare the block stays tiled and gains exactly the entry when and only when nothing follows or the next inode's low three bytes already read 4 |
| Ext2Dir.BehindTheBuffer | src/drivers/ext2.c:1450-1457 | the header of the remainder stays in the buffer except for four bytes to spare at the block's end, where exactly three bytes behind it are overwritten |
| Ext2Dir.RemoveThenAdd | src/drivers/ext2.c:1450-1593 | from a real block: removing a first entry and adding a shorter name overwrites the inode of the entry behind |
| Ext2Dir.MergeRemoves | src/drivers/ext2.c:1579-1593 | merging a record into the one before it removes exactly its entry |
| Ext2Dir.ClearRemoves | src/drivers/ext2.c:1581-1593 | clearing the inode of a block's first record removes exactly its entry |
| Ext2Dir.HarmlessExact | src/drivers/ext2.c:1587-1588 | adding a number to the two bytes at any offset leaves the listing as it was exactly if they lie behind the records, in slack, in an unused record behind its header, or are a length that comes to skip unused records only |
| Ext2Dir.MergeExact | src/drivers/ext2.c:1545-1588 | merging a block's first record into any stale offset keeps the tiling and removes exactly the entry when and only when that does no harm |
| Ext2Dir.RemoveExact | src/drivers/ext2.c:1529-1605 | for every directory and name, the removal leaves a directory without exactly the first entry of the name when and only when the merge does no harm |
| Ext2Dir.RemoveTakesNeighbour | src/drivers/ext2.c:1545-1588 | from a real directory of two blocks: removing the second block's first entry removes the one behind it too |
| Ext2Dir.AddIsMapUpdate | src/drivers/ext2.c:1353-1527 | adding an absent name maps it to the new entry and changes the lookup of no other name |
| Ext2Dir.RemoveIsMapRemoval | src/drivers/ext2.c:1529-1605 | removing a name unmaps it and changes the lookup of no other name |
| Ext2Dir.SearchBlock | src/drivers/ext2.c:1323-1345 | finds the first record of a name in a block and the record before it, or shows there is none |
| Ext2Dir.AddInBlock | src/drivers/ext2.c:1412-1490 | succeeds exactly when some place of the block has room; then the block stays tiled and gains exactly the entry when and only when four bytes to spare do no harm |
| Ext2Dir.AddExact | src/drivers/ext2.c:1412-1490 | the same for the whole directory the block belongs to |
| Ext2Directory.DirBlockWritten | src/drivers/ext2.c:1433 | writing one data block replaces just that block of the directory |
| Ext2Directory.Grow | src/drivers/ext2.c:1492-1527 | one more block, filled and hung into the map, exactly when the map reaches it and enough blocks are free for it and its tables; failing, the directory is as it was and a block is lost exactly when two were free |
| Ext2Directory.AppendEntry | src/drivers/ext2.c:1492-1527 | the new block holds exactly the entry and the size follows |
| Ext2Directory.OtherFileAside | src/drivers/ext2.c:1353-1605 | a step of a directory leaves every disjoint file sound, disjoint and byte for byte the same |
| Ext2Directory.FindEntry | src/drivers/ext2.c:1285-1351 | returns the entry the directory maps the name to, if any |
| Ext2Directory.AddEntry | src/drivers/ext2.c:1353-1527 | succeeds exactly when some block has room or the directory can grow, and then has exactly the one entry more when and only when four bytes to spare do no harm |
| Ext2Directory.RemoveEntry | src/drivers/ext2.c:1529-1605 | succeeds exactly when the name is there, and then exactly its first entry is gone when and only when the merge does no harm |
| PageTable.IndicesLossless | src/memory/pageTable.c:29-38 | a canonical address can be rebuilt from its indices and offset |
| PageTable.SubtreeDependsOnTables | src/memory/pageTable.c:315-361 | translation depends on the tree's own tables only |
| PageTable.StoreOnPath | src/memory/pageTable.c:172-254 | storing one entry changes the translation of just the addresses that go through it, and exchanges just its subtree |
| PageMap.FlagsSparingTables | src/memory/pageTable.c:184-193 | an intermediate entry leads to its table exactly when the flags spare page-size and address bits |
| PageMap.LeafEntryBits | src/memory/pageTable.c:196-253 | the final entry is present, writable, points to the frame, is a large page exactly above level 1, and is copy-on-write exactly if the flags say so |
| PageMap.LeafEntryFlags | src/memory/pageTable.c:196-253 | outside the frame the final entry has exactly the bits of the flags, present and writable, and for large pages the size bit |
| PageMap.TableEntryBits | src/memory/pageTable.c:184 | a new table entry is present, leads to its table, and has outside the frame exactly the bits of the flags, present and writable |
| PageMap.TableAdded | src/memory/pageTable.c:174-188 | hanging a fresh zeroed table into an empty slot changes no translation and takes one frame |
| PageMap.TableFlagged | src/memory/pageTable.c:189-194 | adding flags to a table entry changes no translation |
| PageMap.EquivalentStore | src/memory/pageTable.c:172-250 | storing a word that means the same changes no translation |
| PageMap.StorePaths | src/memory/pageTable.c:172-254 | storing one entry changes, of all tables reachable for all addresses, just those below that entry |
| PageMap.StoreSlots | src/memory/pageTable.c:172-254 | after a store, every address meets the stored entry where its way goes through it and the old entries elsewhere |
| PageMap.WalkStep | src/memory/pageTable.c:172-194 | one level down adds the one missing table for all addresses with the same slots, and takes one frame for it |
| PageMap.WalkFlagStep | src/memory/pageTable.c:172-194 | one level down keeps for every address that present entries stay or gain the flags, that the entries passed have the flags, and that new tables hang from present, writable entries with the flags |
| PageMap.WayDone | src/memory/pageTable.c:196-253 | after the final store all entries on the way have the flags, and all others down to that level stayed as they were or gained them |
| PageMap.Machine.Descend | src/memory/pageTable.c:172-194 | one level down without changing any translation, or nothing changed because no frame was left |
| PageMap.Machine.MapPage | src/memory/pageTable.c:166-254 | the page translates to the requested frame, every other address as before, only own tables and fresh frames are written; every entry on the way is present with the flags, new tables hang from writable entries, other present entries stay or gain the flags; it succeeds exactly when as many frames are free as tables are missing, which it takes |
| PageRange.SlotsArePages | src/memory/pageTable.c:29-38 | two addresses go through the same entries exactly when they lie in the same page |
| PageRange.PageNoAdvances | src/memory/pageTable.c:166-170 | the i-th step of the range is the i-th page |
| PageRange.LacksAreNew | src/memory/pageTable.c:166-254 | what a page lacks when its turn comes is what neither the old tree nor an earlier page of the range provides |
| PageRange.FlaggedStep | src/memory/pageTable.c:166-254 | mapping the next page keeps the flags of the pages before it |
| PageRange.MappedLeaves | src/memory/pageTable.c:196-253 | the entry the walk returns at any address of a mapped range has exactly the caller's flags besides its frame, present, writable and the size bit |
| PageRange.AddPage | src/memory/pageTable.c:140-259 | each page of the range translates to its frame and size, every other address as before; outside the frame the entry the walk returns has exactly the flags, present, writable and the size bit, all entries on its way have the flags, new tables hang from writable entries, and the other present entries stay or gain the flags; it succeeds exactly when as many frames are free as tables are missing, counting each for the first page that needs it; failing, exactly a prefix of the range is mapped and the next page is unmapped |
| PageRange.FindEntry | src/memory/pageTable.c:315-361 | the lookup written out level by level is the translation of the tree |
| PageFork.CowMarkMeaning | src/memory/pageTable.c:78-89 | a writable leaf with a frame becomes read-only and copy-on-write, any other leaf stays equal; kind and frame are kept |
| PageFork.CowMarkShares | src/memory/pageTable.c:82-87 | parent and child entry agree in every bit besides the writable and the copy-on-write bit, which change together |
| PageFork.RelinkMeaning | src/memory/pageTable.c:90-101 | a copied table entry points to the new table and is present and of the kind of the old one |
| PageFork.RelinkKeepsLowBits | src/memory/pageTable.c:99-100 | outside its frame a copied table entry has the old entry's low twelve bits and nothing else |
| PageFork.AllCopied | src/memory/pageTable.c:65-102 | when every slot is copied, the new table is the root of a tree of fresh frames that translates every address to the copy of its page |
| PageFork.BitsCopied | src/memory/pageTable.c:65-102 | at every address the two leaves agree besides the sharing of a writable page, and the table entries on the way keep their low twelve bits |
| PageFork.CopyLevel | src/memory/pageTable.c:40-103 | with enough frames the recursive copy builds such a tree; with too few it uses them up and leaves a table that leads to address 0; either way it writes nothing but the new table, frames taken and, then, address 0 |
| PageFork.Fork | src/memory/pageTable.c:105-125 | the parent's tables and translation are untouched; the child shares no table frame and translates every address to the copy of its page, which agrees with the parent's entry in every bit but writable and copy-on-write, through table entries with the old low bits; all this exactly when there were enough frames |
| PageFork.ShortIsNoFork | src/memory/pageTable.c:91-101 | a child whose tables lead to address 0 is no fork |
| PageFork.OneFrameShort | src/memory/pageTable.c:40-125 | an address space with one table below its root, for which one free frame is too few and two are enough |
| CowFault.PageBytes | src/memory/pageTable.c:29-38 | the bytes of a mapped page are those of its frame, in order |
| CowFault.NoNewTables | src/arch/idt.c:171 | mapping a page that was mapped takes no frame for tables |
| CowFault.WriteFault | src/arch/idt.c:155-175 | the fault is taken exactly for writes to copy-on-write leaves; then the whole page maps writable to the page handed out, holding the old bytes, with the user bit on every entry of the way and no other flag than present, writable, user and size in the leaf; every other address translates as before |
| CowFault.ByteAfterFault | src/arch/idt.c:169-171 | which byte every address reads after the fault |
| CowFault.FaultInvisible | src/arch/idt.c:164-174 | no address reads a different byte exactly when no other page reads a changed byte from the frame handed out |
| CowSharing.HandedOutUnread | src/memory/paging.c:184-240 | a page the physical allocator hands out is read by no address space whose bytes are all live or reserved |
| CowSharing.ServedFault | src/arch/idt.c:164-174 | with a page from the allocator every address reads what it read, the old frame is unmodified, and the page is writable and unmarked |
| CowSharing.ForkShares | src/memory/pageTable.c:40-125 | right after a fork the child reads at every address the byte the parent reads |
| CowSharing.ParentStoreSeen | src/memory/pageTable.c:78-89 | a store by the parent changes a byte the child sees exactly when the page is writable, both read that byte and the child has not faulted on its page |
| CowSharing.ChildStoreSeen | src/memory/pageTable.c:82-86 | a store by the child changes a byte the parent sees exactly when it has not faulted on the page and that is a writable page at physical address 0 |
| CowSharing.OtherSees | src/arch/idt.c:169-171 | which byte every other process reads after a fault, whatever page was handed out |
| CowSharing.FaultUnseen | src/arch/idt.c:155-175 | a fault of the child changes no byte that it or the parent reads, and gives it a page of its own |
| CowSharing.ChildFault | src/arch/idt.c:155-175 | on the machine: a write fault of the child is served exactly for marked pages it has not faulted on, and afterwards it can write |
| CowSharing.RunKept | src/arch/idt.c:155-175 | over every run of stores and faults a page is shared until the child faults on it and its own from then on |
| CowSharing.ParentIsolated | src/memory/pageTable.c:78-89 | over every run the parent reads what it read, as long as it does not store itself and no page at address 0 is written |
| CowSharing.ChildIsolated | src/arch/idt.c:164-174 | over every run the child reads what it read in a page it has faulted on, as long as it does not store itself |
| PhysPages.GenerateSound | src/memory/paging.c:128-177 | after boot each 2 MiB bit agrees with its 512 small bits, both stacks hold the free pages once each, reserved pages are in neither |
| PhysPages.Alloc2Sound | src/memory/paging.c:186-216 | a block handed out was free, unreserved and in no live page; none is handed out exactly when every stacked block holds a page in use |
| PhysPages.Alloc4Sound | src/memory/paging.c:217-238 | a small page handed out was free and in no live or reserved block; none is handed out exactly when every page is in use |
| PhysPages.NullSmall | src/memory/paging.c:217-238 | the address is null exactly when every page is in use or page 0 was handed out, which a reserved block 0 never is |
| PhysPages.NullBlock | src/memory/paging.c:186-216 | the address is null exactly when every stacked block holds a page in use or block 0 was handed out, which a reserved one never is |
| PhysPages.NullAfterBoot | src/memory/paging.c:128-238 | repeated allocation from boot on hands out page 0, and block 0, exactly when boot did not reserve it |
| PhysPages.BlockHandoutsAreAllocations | src/memory/paging.c:186-216 | the sequence of blocks is what repeated allocation returns |
| PhysPages.Free4Sound | src/memory/paging.c:284-305 | frees exactly a live small page and does nothing for any other index |
| PhysPages.Free2Sound | src/memory/paging.c:251-283 | freeing a live block keeps the allocator sound exactly when none of its pages is still stacked |
| PhysPages.CallSound | src/memory/paging.c:184-306 | every call keeps the invariant and hands out only what is not live |
| PhysPages.RunSound | src/memory/paging.c:184-306 | every run keeps the invariant |
| PhysPages.NeverTwice | src/memory/paging.c:184-306 | between two hand-outs of the same page lies a call that frees it |
| PhysPages.LiveBytesApart | src/memory/paging.c:184-306 | no byte of memory belongs to two live pages, or to a live page and a reserved block |
| PhysPages.SmallGains | src/memory/paging.c:217-238 | the 4096 bytes at the address of a page handed out come into use: none of them was live or reserved, and no other byte changes |
| PhysPages.BlockGains | src/memory/paging.c:186-216 | the same for the 2 MiB of a block |
| PhysPages.SmallLoses | src/memory/paging.c:284-305 | freeing the address of a live page ends the use of the 4096 bytes from there on and of no other |
| PhysPages.BlockLoses | src/memory/paging.c:251-283 | the same for the 2 MiB of a block |
| PhysPages.HandoutsAreAllocations | src/memory/paging.c:217-238 | the hand-out sequence is what repeated allocation returns |
| PhysPages.StackedTwiceHandedOutTwice | src/memory/paging.c:217-238 | a page stacked twice comes out twice |
| PhysPages.EarlyFreeHandsOutTwice | src/memory/paging.c:274-282 | freeing a block whose pages are still stacked makes some page come out twice while live |
| PhysPages.EarlyFreeIsReachable | src/memory/paging.c:128-216 | boot and one block allocation already lead to such a block |
| PhysPages.DrainedHasRoom | src/memory/paging.c:270-282 | a live block none of whose pages is stacked can be freed without overflowing a stack |
| PhysPages.FirstFreeHasRoom | src/memory/paging.c:128-282 | the first block after boot can be freed without overflowing the stack exactly when boot reserved something |
| PageAllocator.SetWord | src/memory/paging.c:28-31 | the word update sets exactly one bit of the bitmap |
| PageAllocator.ClearWord | src/memory/paging.c:38-41 | the word update clears exactly one bit of the bitmap |
| PageAllocator.BitmapsApart | src/memory/paging.c:105-111 | the two bitmaps share no word exactly when the number of 2 MiB pages is a multiple of 64 |
| PageAllocator.AllSmallFree | src/memory/paging.c:139-146 | answers whether no small page of a block is in use |
| PageAllocator.StackBlocks | src/memory/paging.c:131-157 | marks every block that holds a used page and stacks the others in order |
| PageAllocator.StackSmall | src/memory/paging.c:160-176 | marks every page of a used block and stacks the others in order |
| PageAllocator.Allocator.constructor | src/memory/paging.c:92-120 | nothing marked, both stacks empty |
| PageAllocator.Allocator.ReserveSmall | src/memory/paging.c:62-83 | marks exactly the pages of the range |
| PageAllocator.Allocator.GenerateFreeStack | src/memory/paging.c:128-177 | over words and arrays, the same as on values |
| PageAllocator.Allocator.AllocateBlock | src/memory/paging.c:186-216 | over words and arrays, the same as on values; in a sound state the 2 MiB from the address returned were in no use and now are; the retry recursion ends |
| PageAllocator.Allocator.AllocateSmall | src/memory/paging.c:217-238 | over words and arrays, the same as on values; in a sound state the 4096 bytes from the address returned were in no use and now are; the retry recursion ends |
| PageAllocator.Allocator.FreeBlock | src/memory/paging.c:251-283 | over words and arrays, the same as on values, while the stacks have room; the 2 MiB from the address go out of use; a sound allocator stays sound exactly when none of the block's pages is still stacked |
| PageAllocator.Allocator.FreeSmall | src/memory/paging.c:284-305 | over words and arrays, the same as on values; the 4096 bytes from the address go out of use, and the stack never overflows |
| KernelHeap.BlocksPartition | src/memory/kmemory.c:31-159 | every word of the heap belongs to exactly one block, and no word outside it to any |
| KernelHeap.CarveSound | src/memory/kmemory.c:44-66 | splitting and unlinking a listed block keeps the heap tiled and the list sound, makes exactly that block live, and leaves live blocks' words alone, unless a sliver remains |
| KernelHeap.SliverBreaks | src/memory/kmemory.c:45-53 | a sliver at the end of the heap leaves memory that no reading makes a sound heap |
| KernelHeap.FreeSound | src/memory/kmemory.c:145-159 | freeing a live block keeps the heap sound, takes exactly it out of the live ones and touches no other live word |
| KernelHeap.FreeExact | src/memory/kmemory.c:145-159 | after a free some list makes the heap sound exactly when the block was live |
| KernelHeap.PayloadWrite | src/memory/kmemory.c:31-75 | writing inside a payload breaks no header and changes no other block |
| KernelHeap.PaddingMeaning | src/memory/kmemory.c:102-104 | the padded payload starts at a multiple of the alignment |
| KernelHeap.ServedBytes | src/memory/kmemory.c:33-72 | a served request leaves a live block with the bytes asked for behind the pointer |
| KernelHeap.NoneFits | src/memory/kmemory.c:40-74 | the search fails exactly when no listed block has the bytes asked for and 16 more |
| KernelHeap.NoneFitsAligned | src/memory/kmemory.c:92-138 | the aligned search fails exactly when every listed block is too small for request and alignment, or from its first aligned address on |
| KernelHeap.InPlaceExact | src/memory/kmemory.c:185-189 | keeping the block is right exactly if it is not the last one or has two words more |
| KernelHeap.NoRoomToFind | src/memory/kmemory.c:185-189 | no reading of the heap gives a misjudged last block the room it lacks |
| KernelHeap.Moved | src/memory/kmemory.c:191-197 | copy and free move the payload of any live block to the new one and leave every other live block alone, also when the last block's header counts two words more than it has |
| KernelHeap.Heap.constructor | src/memory/kmemory.c:19-24 | one free block covers the heap |
| KernelHeap.Heap.Kmalloc | src/memory/kmemory.c:31-75 | serves the first listed block that fits: a block that was free becomes live with at least the bytes asked for and fewer than 24 more; null exactly when no listed block has the bytes and a header, changing nothing |
| KernelHeap.Heap.KalignedAlloc | src/memory/kmemory.c:83-139 | the same at a multiple of the alignment, counting the bytes from there to the end of the block; null also for an alignment that is no power of two |
| KernelHeap.Heap.Kfree | src/memory/kmemory.c:145-159 | puts the block at the head of the list and changes only its `next` word |
| KernelHeap.Heap.Krealloc | src/memory/kmemory.c:167-200 | for every live block: the returned block has the bytes asked for and starts with the old payload, on failure nothing changed, every other live block keeps its words; this holds exactly if the last block is not misjudged by up to 16 bytes, and then nothing happens; null exactly for size 0 or when it has to allocate and nothing fits |
| Scheduler.NextIsFirst | src/kernel/scheduler.c:17-30 | one call picks the runnable process that has waited longest, which then waits longest |
| Scheduler.PicksFollowOrder | src/kernel/scheduler.c:17-30 | successive calls follow the ring order of the runnable processes |
| Scheduler.RoundRobin | src/kernel/scheduler.c:17-30 | with k runnable processes and fixed flags, k calls pick each of them exactly once |
| Scheduler.LinkedAdd | src/kernel/scheduler.c:49-53 | the four assignments keep next and last inverse on one cycle with the new process in it |
| Scheduler.LinkedRemove | src/kernel/scheduler.c:74-75 | the two assignments keep next and last inverse on one cycle without the process |
| WaitProtocol.EndNeedsAnother | src/kernel/scheduler.c:58-78 | the ending process is given up exactly when another can run |
| WaitProtocol.EndOrder | src/kernel/scheduler.c:58-78 | the end of a process turns the ring to the first runnable one behind it and keeps the order of the others |
| WaitProtocol.TickKept | src/arch/idt.c:265-277 | a tick keeps the ring and the names of waiters in order |
| WaitProtocol.ForkKept | src/kernel/process.c:181-203 | a fork keeps the ring and the names in order |
| WaitProtocol.ForkMeaning | src/kernel/process.c:181-203 | the child heads the ring with result 0, running, without a waiter and with its parent's status; the parent's result is the child's pid; nothing else of any process changes |
| WaitProtocol.ExitKept | src/kernel/process.c:312-343 | an exit that leaves another process to run keeps them: nobody is left named by the process that left |
| WaitProtocol.WaitKept | src/kernel/syscalls.c:707-733 | a wait for a process that still exists keeps them |
| WaitProtocol.WaitMeaning | src/kernel/syscalls.c:722-732 | a wait for a running process names the caller in it, blocks the caller, turns the ring to the next runnable process and changes nothing else |
| WaitProtocol.StepExact | src/kernel/process.c:181-343 | a legal step leaves every blocked process with a child that names it exactly when it is no wait by process 0 for a running process and no second wait for the same one |
| WaitProtocol.CarelessLoses | src/kernel/process.c:325-331 | any other wait leaves a process blocked that no exit will wake: the one that waited before, or process 0 |
| WaitProtocol.OneWaiterExact | src/kernel/syscalls.c:722-725 | waiting for a running process loses no wakeup exactly when nobody waited for it and the caller is not process 0 |
| WaitProtocol.ExitWakesWaiter | src/kernel/process.c:327-338 | the exit of an awaited child frees it and wakes exactly its waiter, with the child's pid |
| WaitProtocol.ExitLeavesZombie | src/kernel/process.c:339-342 | an exit nobody waits for leaves a zombie with its status, out of the ring |
| WaitProtocol.BootSound | src/kernel/process.c:27-30 | the state after boot, in which process 0 runs, has lost nothing |
| WaitProtocol.RunKept | src/kernel/process.c:181-343 | every run keeps the ring and the names in order, whatever its processes ask for |
| WaitProtocol.RunSound | src/kernel/process.c:181-343 | over every run without a careless wait no wakeup is lost |
| WaitProtocol.StepOfWaiter | src/kernel/process.c:312-343 | in one step a waiting process keeps waiting for the same child, is woken by that child's exit, or is lost to a careless wait for that child |
| WaitProtocol.NoLostWakeup | src/kernel/process.c:312-343 | over any run without a careless wait a waiting process waits on until its child exits, and that exit wakes it |
| WaitProtocol.LostForever | src/kernel/process.c:325-338 | over any run a lost process stays blocked |
| WaitProtocol.ZombieStays | src/kernel/process.c:339-342 | a zombie and its status stay |
| WaitProtocol.LateWaitReturns | src/kernel/syscalls.c:707-720 | a wait at any time after an unwaited exit returns at once with the pid |
| WaitProtocol.BootRunIsRun | processes/getty/src/getty.c:41-50 | a run from boot in which process 0 waits for its child: before, nothing was lost; after the child's exit it is a zombie and process 0 is lost |
| WaitProtocol.GettyNeverReturns | processes/getty/src/getty.c:41-50 | in every continuation of that run process 0 never runs again |
| ProcessKernel.LinkIn | src/kernel/scheduler.c:47-55 | on process objects: the ring with the new process behind the current one |
| ProcessKernel.LinkOut | src/kernel/scheduler.c:74-75 | on process objects: the ring without the process |
| ProcessKernel.Kernel.Launch | src/boot/elfLoader.c:83-122 | from zeroed globals, on objects: the state after boot, with process 0 alone in the ring |
| ProcessKernel.Kernel.BootObjects | src/kernel/process.c:27-30 | in that state the process object is current, runs, and has result 0 and no waiter |
| ProcessKernel.Kernel.NextProcess | src/kernel/scheduler.c:17-30 | the search ends and turns the ring to the first runnable process behind the head |
| ProcessKernel.Kernel.ScheduleEnd | src/kernel/scheduler.c:58-78 | the ring is turned and the process unlinked; the count follows |
| ProcessKernel.Kernel.Tick | src/arch/idt.c:265-277 | on objects, the tick step of the protocol |
| ProcessKernel.Kernel.Fork | src/kernel/process.c:181-203 | on objects, the fork step of the protocol: a fresh process object becomes current with result 0, the parent's result is its pid, every other process has the result it had |
| ProcessKernel.Kernel.Exit | src/kernel/process.c:312-343 | on objects, the exit step of the protocol |
| ProcessKernel.Kernel.Waitpid | src/kernel/syscalls.c:707-733 | on objects, the wait step of the protocol |
| PidHash.InsertSound | src/kernel/pidHashTable.c:150-162 | a free node put at the head of its chain stores the pid and changes no other |
| PidHash.DeleteSound | src/kernel/pidHashTable.c:205-219 | unlinking a node forgets its pid and no other, and the node joins the free list |
| PidHash.AppendFreeSound | src/kernel/pidHashTable.c:78-82 | a carved node joins the free list and changes no stored pid |
| PidHash.PidTable.constructor | src/kernel/pidHashTable.c:36-49 | the empty map |
| PidHash.PidTable.AllocNodesPage | src/kernel/pidHashTable.c:58-85 | a page adds its 170 nodes to the free list; chains and stored pids are unaffected |
| PidHash.PidTable.Insert | src/kernel/pidHashTable.c:132-165 | a map update that succeeds exactly for an absent pid when a node can be had; otherwise nothing is stored |
| PidHash.PidTable.Lookup | src/kernel/pidHashTable.c:173-188 | the stored process, or 0 |
| PidHash.PidTable.Delete | src/kernel/pidHashTable.c:196-225 | a map removal that succeeds exactly for a stored pid; no node is lost |
| UserHeap.MergeMeaning | std/src/stdlib.c:216-228 | coalescing keeps the blocks contiguous over the same stretch and leaves no two free neighbours |
| UserHeap.MergeKeepsLive | std/src/stdlib.c:216-228 | coalescing keeps exactly the live blocks |
| UserHeap.InOrder | std/src/stdlib.c:45-229 | list order is address order |
| UserHeap.AllFreeIsOne | std/src/stdlib.c:207-229 | once everything is freed, one free block covers the whole used heap |
| UserHeap.ReuseSound | std/src/stdlib.c:86-113 | reusing a free block, split or whole, makes exactly it live, with room, and keeps every live payload |
| UserHeap.FirstFreePlace | std/src/stdlib.c:58-70 | the block chosen is the first free one with the bytes asked for; the end of the heap is used exactly when there is none |
| UserHeap.AppendSound | std/src/stdlib.c:130-149 | a block added at the end keeps the list contiguous up to `heap_end` and every live payload |
| UserHeap.JoinStored | std/src/stdlib.c:219-223 | the two header writes of one coalescing step store the joined list and touch no live payload |
| UserHeap.Heap.FindFreeBlock | std/src/stdlib.c:58-70 | the first free block with room, or null |
| UserHeap.Heap.HeapFreeStart | std/src/stdlib.c:72-84 | the end of the used heap |
| UserHeap.Heap.Malloc | std/src/stdlib.c:100-152 | null exactly for size 0; otherwise a block with at least the bytes asked for and fewer than 28 more becomes live and no other changes: the first free one with the room, or a new one at the end; the heap grows by as few pages as possible, and only when nothing fits |
| UserHeap.Heap.CoalesceAll | std/src/stdlib.c:216-228 | the loop computes the merged list in memory and touches no live payload |
| UserHeap.Heap.Free | std/src/stdlib.c:207-229 | the block is marked free and the list merged; every other live payload is kept |
| UserHeap.Heap.Realloc | std/src/stdlib.c:154-189 | the returned block has at least the bytes asked for and starts with the old payload; a block with the room stays, else the new one is placed as by `malloc`; every other live block is as before |
| Vfs.RoundTrip | src/fs/vfs.c:407-527 | looking up an entry's printed path returns that entry, from any start, exactly when the entry is addressable |
| Vfs.SomePathMeansPrintedPath | src/fs/vfs.c:407-474 | if any absolute path finds an entry, its printed path does |
| Vfs.WalkInParts | src/fs/vfs.c:423-470 | a path cut behind a slash is looked up in two parts |
| Vfs.DoubledSlash | src/fs/vfs.c:426-458 | a doubled slash is looked up as an empty name and, without a child of that name, means the same as a single one exactly where both lead nowhere |
| Vfs.CreatedChild | src/fs/vfs.c:493-506 | a new entry is found under its name in its directory unless an older one bears it; all else as before |
| Vfs.CreateMeaning | src/fs/vfs.c:493-506 | creating an entry disturbs no path that was found, and says exactly when the new one can be found |
| Vfs.RingAdded | src/fs/vfs.c:283-289 | the four assignments put the node at the end of the directory's ring |
| Vfs.RingApart | src/fs/vfs.c:283-289 | the four assignments leave every other directory's ring as it was |
| Vfs.StrCat | src/kstd/kstring.c:179-189 | the text and its terminator go over the old terminator; all else is kept |
| Vfs.Entries.constructor | src/fs/vfs.c:333-352 | the root with `dev` below it |
| Vfs.Entries.CreateEntry | src/fs/vfs.c:493-506 | the tree gains the entry at the end of its directory |
| Vfs.Entries.FindChild | src/fs/vfs.c:264-276 | walking the ring finds the first child of the name, or none |
| Vfs.Entries.FindEntry | src/fs/vfs.c:407-474 | the cursor loop over `PATH` computes the lookup |
| Vfs.Entries.PrintPath | src/fs/vfs.c:514-527 | appends exactly the entry's path at the offset, and its terminator |
| Bresenham.StepKeepsClose | src/drivers/graphics.c:59-69 | one iteration always steps along the longer axis and keeps the deviation within half a pixel, without 32-bit overflow |
| Bresenham.EndReached | src/drivers/graphics.c:57 | a point of the line that has gone the whole longer axis is the end point |
| Bresenham.DrawLine | src/drivers/graphics.c:48-71 | ends at exactly (x2,y2) after max(dx,dy)+1 points, each the pixel nearest to the ideal line |
| EdgeSort.InsertionSort | include/fs/stb_truetype.h:3401-3419 | sorted, and a permutation |
| EdgeSort.MedianToFront | include/fs/stb_truetype.h:3427-3449 | the front element has another one not below it behind it, a sentinel for the upward scan |
| EdgeSort.Scan | include/fs/stb_truetype.h:3457-3462 | both unguarded scans stop inside the segment |
| EdgeSort.Partition | include/fs/stb_truetype.h:3451-3471 | the segment falls apart around the pivot into two shorter ones with at most one element between them |
| EdgeSort.SplitTogether | include/fs/stb_truetype.h:3472-3480 | a cut whose two sides are split is split altogether |
| EdgeSort.Quicksort | include/fs/stb_truetype.h:3421-3482 | the recursion ends; the segment is permuted, nothing outside it changes, and it is cut again and again until no piece is longer than 12 |
| EdgeSort.SortEdges | include/fs/stb_truetype.h:3484-3488 | sorted, and a permutation, for every array |

## Left out

Deliberately weaker than one might wish:

- CowFault.AllocateData: the free pages of the two sizes are two lists; `CowSharing` ties the page that is taken to the bitmap allocator, but the lists are not recomputed from its state.
- PageFork.Fork: when there are too few frames, the parent's tables must not include address 0, where the source then writes.

What the model does not have:

- Group descriptors and superblock are decoded values; their byte layout, the sector interface and `read_inode`/`write_inode` are not modelled. Sizes and counts are assumed to fit their 32-bit and 16-bit fields.
- Timestamps, inode allocation, `ext2_file_read2`, truncation, creating and deleting files and directories.
- A directory has no holes.
- In `read_block_pointers` and `write_block_pointers` the triple-indirect pointer is unused in the source and absent here.
- When no page can be had for a copy-on-write fault, the source copies to and maps physical page 0; the model does the same and claims nothing better.
- Data pages and page-table frames are kept in two memories, so that a store never hits a table; a fault takes no frame for tables (`NoNewTables`).
- `pageTable_addPage` with pages in a range past 2^48, or with a null table reference; `pageTable_addKernel` and `pageTable_set`.
- CR3 switches, including the one that `pid_hash_insert` does not undo for a duplicate pid.
- `pages_reservePage` for 2 MiB pages, and page sizes other than the two.
- 64-bit overflow of allocation requests and of heap addresses.
- `calloc` (a `malloc` followed by zeroing) and the byte layout inside the 24-byte header of the user heap beyond its three fields.
- The status pointer of `sys_waitpid`, the options argument, waits on a pid that was never assigned or has been given back: `process_cleanup` leaves the pid table naming the freed object, and the model tracks that with the set `reaped` instead.
- Signals, process groups and sessions, descriptor tables, `execvp`.
- Path lookup with directories still to be loaded, paths longer than the 4096-byte buffer, and `name_hash`, which the lookup does not use.
- Clipping in `GRAPHICS_SafeDrawPixel`; lines whose longer axis, times three, does not fit in 32 bits.
- Everything that talks to hardware, the user interface, floating-point code, the ELF loader and the user programs.
