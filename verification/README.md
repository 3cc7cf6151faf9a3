# nros, modelled and proved in Dafny

nros is a small x86 kernel in C. This project models the parts of it that keep hard invariants once the hardware is
taken away — the memory managers, the FAT12 file layer, the disk block cache, the page tables, the terminal — and
proves what those parts are for. `dafny verify dfyconfig.toml` checks all of it.

| file | what it is about |
|---|---|
| `Machine.dfy`, `Sequences.dfy` | constants of the machine; a few notions about sequences |
| `Links.dfy` | the circular lists of `include/list.h`, as next/prev arrays |
| `Dyadic.dfy`, `Words.dfy`, `BuddyState.dfy`, `Buddy.dfy`, `BuddyRuns.dfy` | the buddy page allocator: dyadic blocks, xor and masks on 32-bit words, the representation of a set of free pages, the operations on arrays in place, whole runs |
| `Areas.dfy`, `Kmalloc.dfy`, `KmallocFacts.dfy` | `kmalloc` and `kfree` on top of the buddy allocator; whole runs of them |
| `DiskBuffer.dfy` | the block cache, refining a flat disk |
| `FatTable.dfy`, `FatVolume.dfy`, `Fat12.dfy`, `FileRuns.dfy` | twelve-bit packing; chains, directory and what a volume means; the operations on the two buffers in place, over the block cache; whole runs of them, and starting again from the disk |
| `VmAreas.dfy` | the area list of a process |
| `PageTables.dfy`, `PageRuns.dfy`, `PageRights.dfy`, `PageFits.dfy`, `VmMapping.dfy` | page directories and tables in physical memory; what a run of page turns does to the translation, and when it is right; what the mapped pages may be used for and what they hold; when a run is right whatever frames are picked; `map_vm_area` in place |
| `Process.dfy` | list and page tables of a process joined by `do_vm_alloc` |
| `Terminal.dfy`, `Console.dfy`, `TerminalFacts.dfy`, `TerminalCells.dfy`, `Tty.dfy` | the meaning of a terminal; the interpreter that implements it in video memory; what byte streams do to it; what every control does to lines, columns and cells; the character rings |
| `StrLen.dfy`, `Display.dfy` | the word-at-a-time `strlen`; the scrolling kernel display and its numbers |

The pattern is the same throughout. What the kernel keeps in place — bitmaps, link fields, the `fat` and `root`
buffers, node lists, video memory — is a class whose methods follow the C functions. A function or predicate on values
says what that state means: the set of free pages, the map of names to bytes, the page translation, the terminal. Each
method is proved against that meaning, and the lemmas are about the meaning.

The main results:

* Free lists, bitmaps and counter of the buddy allocator are a function of the set of free pages. So a free undoes its
  allocation, and the order of frees does not matter. An allocation fails only when no aligned run is free. Over any
  run of requests, what is outstanding is what was granted and not freed yet, and no page is lost.
* A FAT12 volume means a map from names to byte strings. Create, remove, growth, writes and reads are the operations
  on that map, through shared bytes of packed entries, chains, the root buffer, the block cache and the disk. A run of
  such calls goes on exactly as long as each has the free clusters it needs; no cluster is lost or made on the way; what
  was written is what is read later; and after a sync the disk alone gives back every file. A call that needs a cluster
  syncs, and it is known of every call whether a restart finds what it did. A file that grows shows what the sectors it
  got held before.
* No two areas of the kmalloc heap overlap, and every byte of a node is on one of its lists but for the bytes lost on
  named paths. Over any run of calls the live blocks are those handed out and not freed yet, and they lie apart; a run
  ends exactly at a call that stops the machine or goes astray. A block taken and given back at once leaves the heap as
  it was exactly when it was cut off a larger area, or was the node's only free one, in a node that is not recycled.
* The block cache is invisible: getting a block gives its bytes on the disk, putting it makes the disk hold them.
* `map_vm_area`, for areas over any number of page tables, gives each page it goes over the old translation or a fresh
  frame of its own, by the word that it reads for the page. As long as no mapped page's frame is free, which a run keeps
  for user pages, every page gone over is then mapped and every translation from before kept exactly if each word that
  is read is present when its page was mapped, and only then. In the first table the word that is read is the page's
  own, so there this holds whatever is in memory; and there are conditions on memory at entry under which it holds
  whatever frames are picked for pages and for tables made on the way. The pages it maps are open to the process and hold
  zeros; the words of all other pages, and what they hold, stay.
* The terminal interpreter, with a cursor kept three times over, 32-bit parameters and block moves, does on every byte
  stream what the terminal does; and the terminal does what the control sequences spell, stated for each of them in cells.

Where the code does not do what it is for, the code is kept as it is, the exact condition is proved, and inputs that fail
are named:

* `kernel/mm_alloc.c:123-128` and `183-196` lose bytes (`Areas.TakenLosesNothing`, `Areas.GiveAccounts`;
  `Areas.TailDropped`, `Areas.AreaLost`), and `kernel/mm_alloc.c:193-194` writes through NULL
  (`Kmalloc.MallocNode.Insert`, `Kmalloc.Heap.Kfree`): always when a block that was cut off the first free area of its
  node is given back next (`Areas.TakenIsFirst`, `KmallocFacts.MallocThenFree`).
* `kernel/mm_alloc.c:82-84`: some sizes do not fit in the node chosen for them (`KmallocFacts.SizesServed`), and
  `kernel/mm.c:190` lets the one order pass that has no free list (`Buddy.PageAllocator.AllocPagesOrStop`,
  `Kmalloc.Heap.Kmalloc`).
* `kernel/fat12.c:234` stores -1 as a cluster when no entry is free (`Fat12.Volume.Create`, `FatVolume.FullDisk`), and
  `kernel/fat12.c:268` goes on with it as with any other (`Fat12.Volume.Resize`, `FatVolume.FullDiskTooShort`).
  `FileRuns.OnFullDisk` makes either call on such a disk.
* `kernel/fat12.c:466-477` create and remove in memory only (`FileRuns.NameAndBoot`), and `kernel/fat12.c:249-252`
  keeps the new size of a file in memory only when it grows within its last sector (`FileRuns.CallAndBoot`).
* `kernel/mm_vm.c:17` leaves out an area's last page (`PageRuns.AreaReachable`, `PageRuns.LastPageLeftOut`), and for the
  area [0, 0] goes over the whole address space (`PageRuns.WholeArea`).
* `kernel/mm_vm.c:41` reads a word of the wrong page once it is past the first table: exactly when that goes right is
  `PageRuns.RightIffAgrees`, in terms of the words that are read, and `PageRuns.RightIffAtEntry`, in terms of memory at
  entry, for areas whose tables are there; `PageFits.FitsIsRight` and `PageFits.ShortIsRight` give conditions at entry
  under which it goes right with tables made on the way; `PageRuns.MisreadGoesWrong` has a run for either way of going
  wrong.
* `kernel/mm_vm.c:62` misses the free space when only the last byte of the address space is taken
  (`VmAreas.AreaList.InsertFree`, `VmAreas.LastByteTaken`); `kernel/mm_vm.c:106` reads through NULL
  (`VmAreas.AreaList.DoVmAlloc`, `VmAreas.FirstAreaHit`); and a request past the last address spoils the list but in
  one case, as does a request of no bytes (`VmAreas.AreaList.DoVmAlloc`, `VmAreas.PastLastByte`,
  `VmAreas.NothingUnsorted`).
* `kernel/console.c:452-455` looks at the column instead of the byte (`TerminalFacts.Esc7Saves`,
  `TerminalFacts.Esc8Restores`, `TerminalFacts.ColumnDecides`, `TerminalFacts.EscapesFail`).
* `lib/libc/display.c:79-99` prints no number for the smallest int (`Display.IntReadsBack`).

## Model

| member | source | states |
|---|---|---|
| `Links.RingInsert` | include/list.h:18-31 | the four pointer writes insert one link into the ring, at the place meant, and keep every other link in its order |
| `Links.RingRemove` | include/list.h:48-58 | the pointer writes take exactly one link out of its ring |
| `Links.HoldsInsert` | include/list.h:18-31 | of several lists in one table of links, only the one inserted into changes |
| `Links.HoldsRemove` | include/list.h:48-58 | of several lists in one table of links, only the one removed from changes |
| `Links.LinkTable.InsertAfter` | include/list.h:18-31 | the walk from the head meets the new link right behind the given one |
| `Links.LinkTable.InsertBefore` | include/list.h:33-46 | the walk from the head meets the new link right before the given one |
| `Links.LinkTable.Remove` | include/list.h:48-58 | the walk meets all links but the removed one, which is left by itself |
| `Links.LinkTable.Empty` | include/list.h:84-87 | the test is true exactly for a list without links |
| `Words.BuddyByXor` | kernel/mm.c:114 | in 32-bit words, page_idx ^ -mask is page_idx with bit `order` the other way: the first page of the buddy |
| `Words.BlockByAnd` | kernel/mm.c:120-121 | in 32-bit words, page_idx & mask is page_idx without its bits below `order`: the first page of the merged block |
| `Dyadic.PagesInterval` | kernel/mm.c:84-125 | a block of order k is the 2^k pages from a multiple of 2^k on |
| `BuddyState.PairFits` | kernel/mm.c:207-215 | every bit index that a page in range can lead to lies inside the bytes reserved for its order |
| `BuddyState.FlipOnePair` | kernel/mm.c:71-81 | flipping a pair's bit changes no bit of any other pair of any order |
| `Buddy.PageAllocator.ChangeAndTestBit` | kernel/mm.c:71-81 | one pair's bit is flipped; the result says whether it was clear |
| `Buddy.PageAllocator.constructor` | kernel/mm.c:199-244 | freeing single pages upwards leaves the free pages as the maximal aligned blocks of [first free page, page count), with lists, bits and counter to match |
| `Buddy.PageAllocator.FreePages` | kernel/mm.c:84-125 | the block's pages join the free set, and lists, bits and counter are again those of the free set: all merges happened, and no other; the merged block is the first of its list, the buddies are off theirs, and the lists keep their order otherwise |
| `Buddy.PageAllocator.Expand` | kernel/mm.c:138-153 | the last part of the block is handed on, and exactly the rest of it goes back to the lists |
| `Buddy.PageAllocator.AllocPages` | kernel/mm.c:155-184 | NULL exactly if no aligned run of 2^order pages is free; else an aligned free run, from the first block of the smallest sufficient order, leaves the free set and nothing else does; that block leaves its list, and lists of other orders than those split into stay |
| `Buddy.PageAllocator.AllocPagesOrStop` | kernel/mm.c:186-197 | order 11, and no other, gets past the guard to a free list that does not exist; else a block is granted exactly if an aligned run is free, and otherwise the machine stops with nothing changed |
| `BuddyRuns.Determined` | kernel/mm.c:84-184 | two states with the same free pages have the same blocks on every list and the same bits |
| `BuddyRuns.AllocThenFree` | kernel/mm.c:84-184 | an allocation and the free of its block restore every list in its order, every bit and the counter |
| `BuddyRuns.BitMeansOneListed` | kernel/mm.c:99-121 | below the top order a pair's bit is 1 exactly when one of the two buddies is on the list of that order; never are both |
| `BuddyRuns.ListedDisjoint` | kernel/mm.c:84-184 | listed blocks of any orders share no page |
| `BuddyRuns.ListsWeighFree` | kernel/mm.c:97-175 | the sizes of all listed blocks add up to the number of free pages, which the counter holds |
| `BuddyRuns.OrderOfFreesIrrelevant` | kernel/mm.c:84-125 | what is free depends on what is outstanding only, not on the order of the frees |
| `BuddyRuns.Serve` | kernel/mm.c:84-184 | an allocation appends one block of its order, free before, to the outstanding ones, and nothing exactly if there is none; a free takes out the block it names; outstanding blocks stay aligned, in range, apart from each other and from the free pages, and no page is lost |
| `BuddyRuns.Replay` | kernel/mm.c:84-184 | the same of every request of every run, from the first to the last |
| `Areas.TakeSound` | kernel/mm_alloc.c:95-133 | cutting an area off the free list keeps both lists of a node disjoint, in bounds, aligned, address-ordered and coalesced |
| `Areas.TakeAccounts` | kernel/mm_alloc.c:95-133 | free and used bytes before are free and used bytes after, plus the loss |
| `Areas.TakenLosesNothing` | kernel/mm_alloc.c:110-128 | the loss is 0 exactly when a rest is cut off, or the area fits to the byte and is the last one |
| `Areas.TailDropped` | kernel/mm_alloc.c:123-128 | an exact fit on the first of two free areas drops the other one from the list |
| `Areas.GiveSound` | kernel/mm_alloc.c:164-196 | giving an area back keeps both lists sound and coalesced with both neighbours |
| `Areas.GiveAccounts` | kernel/mm_alloc.c:164-196 | all bytes of the area go back to the free list, except when it touches neither neighbour and is not the first |
| `Areas.TakeThenGive` | kernel/mm_alloc.c:110-196 | bytes taken off a free area and given back leave the free list as it was exactly when a rest was cut off, or the area was the only one and fitted to the byte |
| `Areas.TakenIsFirst` | kernel/mm_alloc.c:193-194 | given back next, a block lies before all free areas and touches the first one, where mb_last is NULL, exactly when it was cut off the first free area |
| `Areas.AreaLost` | kernel/mm_alloc.c:183-196 | an area given back between two used ones, behind the first free one, is on neither list |
| `Areas.WhollyFree` | kernel/mm_alloc.c:202-208 | a first free area of the node's whole size leaves nothing handed out and nothing lost |
| `Areas.FreshServes` | kernel/mm_alloc.c:136-141 | a new node serves a request exactly when it has the bytes for it; the older nodes serve what they served |
| `Kmalloc.MallocNode.Take` | kernel/mm_alloc.c:89-134 | first fit: the first area with enough bytes is taken, and none if there is none |
| `Kmalloc.MallocNode.Insert` | kernel/mm_alloc.c:174-196 | the area goes to its address-ordered place, merged with the neighbours it touches, or is lost; the write through the null mb_last happens exactly if the area is put first and touches the next one |
| `Kmalloc.Heap.AddNode` | kernel/mm_alloc.c:26-43 | a new node of the order asked for exactly when the page allocator has a run for it, and its pages leave the free set; order 11 goes astray in the page allocator |
| `Kmalloc.Heap.Kmalloc` | kernel/mm_alloc.c:76-144 | for every size: it goes astray exactly for 45056 to 49151 bytes; the machine stops for all larger ones, and for smaller ones exactly when no node serves and a new one could not be had or would be too small; else at most one node is added and the first node that serves serves, first fit; the order looked for is that of as many pages as the size has whole ones |
| `Kmalloc.Heap.Kfree` | kernel/mm_alloc.c:146-218 | exactly the area in front of the pointer is given back; a node that is then wholly free, and is not the first of the list, goes back to the page allocator; all other nodes stay; the write through NULL happens exactly if the area ends where the node's first free one starts |
| `KmallocFacts.NoOverlap` | kernel/mm_alloc.c:76-218 | two areas of the heap, free or handed out, never overlap, and none reaches into a node header |
| `KmallocFacts.AllocatedIsNew` | kernel/mm_alloc.c:76-144 | the block is 4-aligned, as large as asked for, was not live, and all live blocks stay live |
| `KmallocFacts.NewBlockApart` | kernel/mm_alloc.c:76-144 | the block overlaps no block that was live |
| `KmallocFacts.FreedTakesOne` | kernel/mm_alloc.c:146-218 | kfree ends the life of exactly one block |
| `KmallocFacts.SizesServed` | kernel/mm_alloc.c:82-84 | below 45056 bytes, a new node is large enough for the request that asked for it exactly for the sizes outside 4073..4095 and 8169..8191 |
| `KmallocFacts.LiveApart` | kernel/mm_alloc.c:76-218 | all live blocks lie apart, between 0xC0000010 and the end of the address space |
| `KmallocFacts.LiveInPages` | kernel/mm_alloc.c:26-43 | a live block lies behind the header of a node, at 0xC0000000 and 4096 times the node's page, in pages that are not free |
| `KmallocFacts.Replay` | kernel/mm_alloc.c:76-218 | in any run of calls, each kmalloc adds one aligned, large enough block apart from all live ones, served as Kmalloc says, and each kfree ends the life of the block in front of its pointer; the run ends early exactly at the first request of eleven pages, the first that no node can serve when a new one cannot be had or would be too small, or the first free of an address nobody was given |
| `KmallocFacts.MallocThenFree` | kernel/mm_alloc.c:76-218 | a block taken and given back at once leaves all nodes and free pages as they were exactly when TakeThenGive says so of its free list and its node is not a later one that is now wholly free; NULL is written through exactly when it was cut off the first free area; a node added for it stays |
| `DiskBuffer.BlockAfter` | kernel/disk_buffer.c:63-68 | four transfers of two sectors write one block, and no other block changes |
| `DiskBuffer.MovedMembers` | kernel/disk_buffer.c:89-91 | moving a node to the front loses none and doubles none |
| `DiskBuffer.DiskCache.FindNode` | kernel/disk_buffer.c:29-45 | finds the one node of the block, and NULL exactly if there is none |
| `DiskBuffer.DiskCache.Get` | kernel/disk_buffer.c:73-114 | a busy node of the block with its latest bytes: those of the disk unless someone holds it; the disk is not written |
| `DiskBuffer.DiskCache.Put` | kernel/disk_buffer.c:121-130 | the disk's block holds the node's bytes, and no other block changes |
| `DiskBuffer.DiskCache.Acquire` | kernel/disk_buffer.c:73-114 | a block nobody holds comes with its bytes on the disk |
| `DiskBuffer.DiskCache.Release` | kernel/disk_buffer.c:121-130 | the disk takes the held bytes; blocks still held keep theirs |
| `FatTable.SetOne` | kernel/fat12.c:197-206 | replacing entry i through its 16-bit word gives entry i the value and every other entry its old one, though neighbours share a byte |
| `FatTable.SetEntries` | kernel/fat12.c:182-210 | the unpacked table changes at entry i only |
| `FatTable.PackedEntries` | kernel/fat12.c:182-210 | every table of twelve-bit entries can be stored in the bytes, and is read back |
| `FatTable.EntryBytes` | kernel/fat12.c:186-194 | two entries share three bytes: the even one has the first byte and the low half of the second, the odd one the rest |
| `FatVolume.StrNCmpEqual` | kernel/fat12.c:224-226 | against a padded name without NUL, strncmp over eight bytes is 0 exactly for equal bytes |
| `FatVolume.NewSlotBytes` | kernel/fat12.c:231-236 | every byte of a new slot: the name, spaces up to eleven, what was there, the cluster at 26, the size 0 at 28 |
| `FatVolume.SlotReads` | kernel/fat12.c:212-240 | slot s is the 32 bytes at 32 * s: in use unless the first is 0, name in eight, first cluster in two at 26, size in four at 28, low bytes first |
| `FatVolume.ContentAt` | kernel/fat12.c:355-405 | byte i of a file is byte i % 512 of the sector of the chain's cluster number i / 512, where cluster 2 is sector 33 |
| `FatVolume.ChainUnique` | kernel/fat12.c:254-286 | a chain is determined by the table and its first cluster |
| `FatVolume.CreateAdds` | kernel/fat12.c:212-240 | with a free entry, create keeps all chains and adds one empty file |
| `FatVolume.CreateBreaks` | kernel/fat12.c:234 | without one, the volume has no assignment of chains any more |
| `FatVolume.FullDisk` | kernel/fat12.c:234 | a volume that one file fills is sound, has free slots and no free entry |
| `FatVolume.RemoveTakes` | kernel/fat12.c:290-329 | removal frees exactly the chain, keeps all others, and takes exactly that name off |
| `FatVolume.ClearedZeros` | kernel/fat12.c:305-322 | clearing a chain makes exactly its entries free, none of which was |
| `FatVolume.GrowFiles` | kernel/fat12.c:242-287 | growth keeps all other files and the bytes the file had |
| `FatVolume.GrowEnds` | kernel/fat12.c:268-276 | the -1 written for a missing cluster leaves an end mark: the chain so far stays a chain |
| `FatVolume.ShortBreaks` | kernel/fat12.c:249-281 | a chain that is too short for the size of its file leaves no assignment of chains |
| `FatVolume.FullDiskTooShort` | kernel/fat12.c:249-281 | on the volume that one file fills, one more sector for that file leaves no assignment of chains |
| `FatVolume.GrownShows` | kernel/fat12.c:242-287 | a file that has grown holds what the sectors of its new chain held before |
| `FatVolume.InfoDone` | kernel/fat12.c:156-173 | five blocks with the copies in them put the table and root on their sectors and change no other sector |
| `FatVolume.InfoRead` | kernel/fat12.c:127-155 | what is copied out of the five blocks is the table and root the disk holds |
| `FatVolume.InfoUnique` | kernel/fat12.c:117-180 | the disk determines the table and the root, so that reading after synchronizing gives both back |
| `FatVolume.PieceFits` | kernel/fat12.c:336-396 | the pieces that the start, middle and end cases copy follow one another in the buffer and stay in their sectors |
| `FatVolume.WriteFiles` | kernel/fat12.c:355-405 | writing inside one chain changes no other file, and no table or root sector |
| `FatVolume.TransferMeans` | kernel/fat12.c:355-405 | a finished transfer inside a file is a write of the buffer at the offset, or a read of the bytes there |
| `FatVolume.DiskDone` | kernel/fat12.c:242-287 | if an access needed a cluster, table and root of memory are on the disk after it; else their sectors stay; of the others only those of the file's chain change |
| `FatVolume.ReadBack` | kernel/fat12.c:332-406 | a write and then a read inside the written range returns the written bytes |
| `FatVolume.ReadInsideChangesNothing` | kernel/fat12.c:332-406 | a read inside the file changes no file |
| `Fat12.Volume.GetFreeEntry` | kernel/fat12.c:182-210 | the first unused entry of 2730 is marked as an end, or -1 exactly when there is none |
| `Fat12.Volume.FindName` | kernel/fat12.c:219-228 | the first slot with the padded name |
| `Fat12.Volume.Create` | kernel/fat12.c:212-240 | nothing changes for a name that is taken or a full root; else one empty file is added, in the first slot not in use, on the lowest free entry; the volume breaks exactly if there is no free entry for it |
| `Fat12.Volume.Remove` | kernel/fat12.c:290-329 | the map of files loses that name, if it has it; exactly the entries of the file's chain become free, and its slot is zeroed |
| `Fat12.Volume.CreateThenRemove` | kernel/fat12.c:466-477 | creating a file and removing it gives back the table and all files as they were |
| `Fat12.Volume.LastCluster` | kernel/fat12.c:254-286 | the walk ends at the last cluster of the chain |
| `Fat12.Volume.Extend` | kernel/fat12.c:264-281 | as many fresh, distinct clusters as needed at the end of the chain, the lowest ones in their order, or all there are; no other chain changes; with two or more too few, it goes on behind the table |
| `Fat12.Volume.Resize` | kernel/fat12.c:242-287 | size and chain grow together, so that the chain has size / 512 + 1 clusters, exactly if there are enough free entries; else no assignment of chains is left; all other slots stay |
| `Fat12.FileSystem.SyncInfo` | kernel/fat12.c:117-180 | table and root go to their sectors, and no other sector changes |
| `Fat12.FileSystem.ReadInfo` | kernel/fat12.c:117-180 | the buffers get the table and root the disk holds; the disk does not change |
| `Fat12.FileSystem.Mount` | kernel/fat12.c:482-487 | on a disk that holds a sound volume, the file system is sound and its files are the disk's |
| `Fat12.FileSystem.OneSector` | kernel/fat12.c:366-398 | one turn moves this sector's piece of the range, and nothing if it has none |
| `Fat12.FileSystem.Transfer` | kernel/fat12.c:355-405 | the walk ends, with the whole range moved between buffer and chain |
| `Fat12.FileSystem.ReadWrite` | kernel/fat12.c:332-406 | a write makes the file's bytes at the offset those of the buffer and leaves the rest of it and every other file; a read returns the bytes there, and inside the file does not write the disk; where the file grows it shows what its sectors held; with a new cluster table and root reach their sectors, without one these stay, and of the others only those of the chain change; it breaks the volume exactly if the range needs more clusters than are free |
| `FileRuns.FullMeans` | kernel/fat12.c:230-239 | the root is full exactly when there are 224 files |
| `FileRuns.Serve` | kernel/fat12.c:443-477 | one call does to the map of files what it asks for, and takes or gives back exactly the clusters this needs; it ruins the volume exactly if they are not free |
| `FileRuns.Replay` | kernel/fat12.c:443-477 | the same of every call of every run, up to the first that does not fit; since the last call that needed a cluster, the disk has table and root of memory up to the first call that is unsaved |
| `FileRuns.RoomOfRun` | kernel/fat12.c:443-477 | at any time of any run, free clusters and clusters of files add up to the same |
| `FileRuns.BytesStay` | kernel/fat12.c:443-477 | a file keeps its bytes while no call writes or removes it, whatever is done to others; reads only make it longer |
| `FileRuns.ReadsWhatWasWritten` | kernel/fat12.c:443-461 | a read returns what was written to its range, however many calls before, if no other call in between wrote or removed the file |
| `FileRuns.InfoKeepsFiles` | kernel/fat12.c:156-173 | rewriting the sectors of table and root leaves every file its bytes |
| `FileRuns.Boot` | kernel/fat12.c:482-487 | an empty cache and a new file system give what the disk means |
| `FileRuns.Restart` | kernel/fat12.c:482-487 | from a disk with table and root of memory, a second file system has the same files and free clusters |
| `FileRuns.SyncAndBoot` | kernel/fat12.c:117-180 | after a sync, a second file system on the same disk has the same files and free clusters |
| `FileRuns.NameAndBoot` | kernel/fat12.c:466-477 | after a create or remove without a sync, it has those of before |
| `FileRuns.CallAndBoot` | kernel/fat12.c:242-287 | after a call that needs a cluster, or any call on a disk in step, a second file system has the files of now exactly unless the call made or removed a file, or made one longer within its last sector; then it has the files of before the name was made or removed, or the file's new bytes up to its old size |
| `FileRuns.OnFullDisk` | kernel/fat12.c:182-287 | booted from a disk that one file fills, a create, or a write that needs one more sector, ruins the volume |
| `VmAreas.FirstGapLowest` | kernel/mm_vm.c:61-75 | the first gap of a sorted list is the lowest address with room |
| `VmAreas.SeesGap` | kernel/mm_vm.c:57-62 | with end = -1 the 32-bit test finds exactly the gaps, except in front of an area at the last byte |
| `VmAreas.AreaList.InsertFree` | kernel/mm_vm.c:55-76 | the list stays sorted exactly if there is room, the first area does not start at the last byte, and the request is for at least one byte; then the start is the lowest with room |
| `VmAreas.LastByteTaken` | kernel/mm_vm.c:62 | with only the last byte taken, one byte is not found |
| `VmAreas.AreaList.DoVmAlloc` | kernel/mm_vm.c:78-128 | the wanted place is taken exactly when it is free, otherwise the lowest free one; NULL is read exactly when the request runs into the first area from at or below its start; a request past the last address spoils the list unless it starts behind the first byte of an area and its wrapped end is not below the first area; one of no bytes spoils it, or takes the whole address space from an empty list |
| `VmAreas.NothingUnsorted` | kernel/mm_vm.c:83 | an area of no bytes spoils the order wherever it goes in |
| `VmAreas.PastLastByte` | kernel/mm_vm.c:88-96 | with the second page taken, a wish for two pages from the last one on spoils the list, though there is room |
| `VmAreas.FirstAreaHit` | kernel/mm_vm.c:99-106 | with the second page taken, a wish for the first two reads through NULL |
| `PageTables.AddTable` | kernel/mm_vm.c:30-34 | a cleared fresh page as a new table maps and unmaps no page |
| `PageTables.AddPage` | kernel/mm_vm.c:41-44 | an entry with a fresh page maps that page, and changes no other translation |
| `PageTables.EmptyDirectory` | kernel/mm_vm.c:130-136 | a cleared page is a directory without translations |
| `PageRuns.WholeArea` | kernel/mm_vm.c:16-24 | all pages of an area are gone over but for the last one; that one exactly if the area does not end on the first byte of a page, or lies in that page alone and the page does not start a span; for the area [0, 0] all pages there are |
| `PageRuns.TurnMeans` | kernel/mm_vm.c:30-44 | one turn keeps every translation but at most its page's, which gets a frame that was free; no other free page is used but for a table |
| `PageRuns.RunFills` | kernel/mm_vm.c:26-48 | a whole run: pages whose word was present, and all pages not gone over, keep their translation; the others get frames that were free, all different; no free page goes anywhere else but into new tables |
| `PageRuns.RightIffAgrees` | kernel/mm_vm.c:41 | when no mapped page's frame is free: all pages gone over are mapped and all old translations kept exactly if each word that was read says of its page what the translation said |
| `PageRuns.OneTableAgrees` | kernel/mm_vm.c:41 | for an area with one page table they do, whatever is in memory |
| `PageRuns.AgreesIffAtEntry` | kernel/mm_vm.c:41 | with the tables there, and the words in pages in use, they do exactly if at entry each word is present, or the own word of a page gone over before, if and only if its page is mapped |
| `PageRuns.RightIffAtEntry` | kernel/mm_vm.c:41 | so memory at entry decides whether the run is right |
| `PageRuns.MisreadGoesWrong` | kernel/mm_vm.c:41 | two runs over two pages in two tables: one leaves the second page unmapped, the other takes away its frame |
| `PageFits.FitsIsRight` | kernel/mm_vm.c:26-48 | a run is right, whatever frames are picked, if at entry the word behind each frame that a page's table can be in says of the page what is so, and no turn before can write it |
| `PageFits.ShortIsRight` | kernel/mm_vm.c:26-48 | for an area of at most 4 MiB no page's own word is read for another, so that the words at entry are enough |
| `PageFits.MissingTableFits` | kernel/mm_vm.c:30-41 | where the second table has to be made, they are right if the page behind every free one is not the directory and has no present word at the page's place |
| `PageRuns.AreaReachable` | kernel/mm_vm.c:12-49 | after a run that is right, all pages of the area are mapped exactly if the last one is gone over or was mapped before |
| `PageRuns.LastPageLeftOut` | kernel/mm_vm.c:17 | an area that ends on the first byte of the second page leaves it unmapped |
| `PageRuns.RunKeepsUser` | kernel/mm_vm.c:12-49 | no two user pages share a frame, and no frame of theirs is free or a table, after any number of turns |
| `PageRights.RunOpens` | kernel/mm_vm.c:30-45 | after a run, a page gone over and not seen has a table word with the flags 7, and the process may read and write it exactly if its directory word was absent or open before; a directory word made on the way has the flags 7; all other words of directory and tables that were there stay |
| `PageRights.NewPagesZero` | kernel/mm_vm.c:41-44 | after a run, a page gone over and not seen has a frame of zeros |
| `PageRights.RunSparesData` | kernel/mm_vm.c:26-48 | a page in use that is neither the directory nor one of its tables holds after a run what it held |
| `VmMapping.AddressSpace.AllocPageZero` | include/nros/mm.h:49-55 | a free page, cleared, leaves the free set; none exactly when no page is free |
| `VmMapping.AddressSpace.EnsureTable` | kernel/mm_vm.c:30-34 | a missing table becomes a cleared fresh page; one that is there stays |
| `VmMapping.AddressSpace.MapPage` | kernel/mm_vm.c:41-45 | by the word that is read, with the index not reduced: nothing changes if it is present, else the page gets a fresh frame, whatever it had; it reads past memory exactly if that word lies there |
| `VmMapping.AddressSpace.MapVmArea` | kernel/mm_vm.c:12-49 | for every area: a run of turns over all pages up to where WholeArea says, from the state before to the state after, so that RunFills, RunOpens and NewPagesZero say what it leaves; it stops only without free pages, or when the next word lies past the end of memory |
| `Process.AllocKeepsMapped` | kernel/mm_vm.c:78-128 | with one area more in the list, and its mapping right, all pages of all areas are mapped exactly if the new area's last page was gone over or mapped before |
| `Process.Process.VmAlloc` | kernel/mm_vm.c:78-128 | the area goes into the list as DoVmAlloc says, and its pages into the tables as MapVmArea says; when the words read agreed, all areas are mapped but for a last page left out |
| `PageTables.SetPageTable` | kernel/mm.c:29-43 | 1024 entries map the pages from the given address on, with the flags 7, and nothing else is written |
| `PageTables.MapAllMemory` | kernel/mm.c:49-69 | one table per 4 MiB of memory above the first, in consecutive frames and directory entries; nothing else is written |
| `PageTables.KernelWalk` | kernel/mm.c:49-69 | the walk of KVM_BASE + p yields p for every physical page from 4 MiB up |
| `PageTables.KernelOpens` | kernel/mm.c:49-69 | its directory word has the flags 7, and its table word is 4096 * p + 7 |
| `PageTables.KernelKeeps` | kernel/mm.c:49-69 | translations below the second kernel directory entry stay |
| `Terminal.LinesInSteps` | kernel/console.c:350-358 | inserting one line nr times inserts nr blank lines at the cursor, or as many as there is room for |
| `Terminal.LinesOutSteps` | kernel/console.c:370-378 | deleting one line nr times closes up nr lines at the cursor |
| `Terminal.CellsInSteps` | kernel/console.c:340-348 | inserting one cell nr times shifts the rest of the line by nr |
| `Terminal.CellsOutSteps` | kernel/console.c:360-368 | deleting one cell nr times closes up nr cells |
| `Console.Console.constructor` | kernel/console.c:564-601 | an empty state at the top left corner, with "*CGA" in the last four cells of the first row, in their old attributes |
| `Console.ScrolledUp` | kernel/console.c:119-131 | the block move and the fill take the first line of the region out and bring a blank one in at its end |
| `Console.ScrolledDown` | kernel/console.c:149-163 | the backward move and the fill bring a blank line in at the region's first line |
| `Console.Console.ScrUp` | kernel/console.c:71-132 | the same for the screen at hand; video memory behind the screen stays |
| `Console.Console.ScrDown` | kernel/console.c:134-164 | likewise |
| `Console.Console.LF` | kernel/console.c:166-174 | the cursor goes down a line, or the region scrolls; in cells, what FeedsLine says |
| `Console.Console.CsiJ` | kernel/console.c:201-228 | erases from the cursor, to the cursor, or all of the display |
| `Console.Console.CsiK` | kernel/console.c:230-259 | erases from the cursor, to the cursor, or all of the line |
| `Console.Console.CsiL` | kernel/console.c:350-358 | inserts blank lines in closed form |
| `Console.Console.CsiM` | kernel/console.c:370-378 | deletes lines in closed form |
| `Console.Console.CsiAt` | kernel/console.c:340-348 | inserts blank cells in closed form |
| `Console.Console.CsiP` | kernel/console.c:360-368 | deletes cells in closed form |
| `Console.Console.AfterEscape` | kernel/console.c:441-456 | the step after ESC does what the terminal does; what that is, the rows on ESC below say |
| `Console.Console.Put` | kernel/console.c:400-548 | one byte does to the screen, the cursor and the parser what it does to the terminal; x, y and pos agree, the scroll region is one, at most 16 parameters are kept, and video memory behind the screen stays |
| `Console.Console.ConWrite` | kernel/console.c:394-552 | the same for all bytes in the queue, in order; the queue is empty afterwards |
| `TerminalFacts.ReadNumber` | kernel/console.c:466-468 | decimal digits are read as the number they spell, modulo 2^32 |
| `TerminalFacts.CsiMeans` | kernel/console.c:457-547 | a control sequence with up to 16 parameters does what its final byte says, on exactly those parameters |
| `TerminalFacts.CursorPosition` | kernel/console.c:508-512 | ESC [ line ; column H puts the cursor there, counted from 1, or leaves it if there is no such place |
| `TerminalFacts.DownThenUp` | kernel/console.c:477-484 | a move down and the same move up cancel |
| `TerminalFacts.InsertThenDelete` | kernel/console.c:299-310 | inserting and deleting n lines leaves the screen but for its last n lines |
| `TerminalFacts.InsertThenDeleteChars` | kernel/console.c:285-325 | inserting and deleting n cells leaves the line but for its last n cells |
| `TerminalFacts.TextLands` | kernel/console.c:405-418 | printable text that fits on the line replaces the cells from the cursor on, in the current attribute |
| `TerminalFacts.StaysInRegion` | kernel/console.c:166-174 | without escape sequences, a cursor in the scroll region stays there and nothing outside of it changes |
| `TerminalFacts.ColumnDecides` | kernel/console.c:452-455 | ESC and any byte but [, E, M, D saves the cursor in column 55, restores it in column 56, and does nothing elsewhere |
| `TerminalFacts.Esc7Saves` | kernel/console.c:452-453 | ESC 7 saves exactly in column 55, or where saving changes nothing |
| `TerminalFacts.Esc8Restores` | kernel/console.c:454-455 | ESC 8 restores exactly in column 56, or where restoring changes nothing |
| `TerminalFacts.EscapesFail` | kernel/console.c:452-455 | in column 0 neither works, in column 55 ESC 8 saves, in column 56 ESC 7 restores |
| `TerminalCells.FeedsLine` | kernel/console.c:166-174 | LF, VT, FF and ESC D go down a line; in the last line of the region its lines move up one and the last becomes blank; nothing else changes |
| `TerminalCells.FeedsBack` | kernel/console.c:176-184 | ESC M goes up a line; in the first line of the region its lines move down one and the first becomes blank |
| `TerminalCells.NextLine` | kernel/console.c:446-447 | ESC E goes to the start of the next line, if there is one |
| `TerminalCells.Prints` | kernel/console.c:410-415 | a printable byte puts its cell under the cursor, with the attribute in the high byte, and moves on |
| `TerminalCells.Wraps` | kernel/console.c:405-409 | behind the last column it does what it does after CR and LF |
| `TerminalCells.MovesOrNothing` | kernel/console.c:420-428 | CR and BS move the cursor, DEL blanks the cell before it too; all other bytes do nothing |
| `TerminalCells.Tabs` | kernel/console.c:429-432 | HT goes to the next multiple of eight |
| `TerminalCells.TabWraps` | kernel/console.c:433-437 | behind the last column it does what LF does at column 8 |
| `TerminalCells.MovesUp` | kernel/console.c:479-482 | CSI n A goes up n lines, in 32-bit arithmetic, if there is such a line |
| `TerminalCells.MovesDown` | kernel/console.c:483-486 | CSI n B and e go down n lines |
| `TerminalCells.MovesRight` | kernel/console.c:487-490 | CSI n C and a go right n columns |
| `TerminalCells.MovesLeft` | kernel/console.c:491-494 | CSI n D goes left n columns |
| `TerminalCells.MovesDownToStart` | kernel/console.c:495-498 | CSI n E goes down n lines to the first column |
| `TerminalCells.MovesUpToStart` | kernel/console.c:499-502 | CSI n F goes up n lines to the first column |
| `TerminalCells.GoesToColumn` | kernel/console.c:475-478 | CSI n G, and the grave accent for G, go to column n of the line |
| `TerminalCells.GoesToLine` | kernel/console.c:503-506 | CSI n d goes to line n of the column |
| `TerminalCells.GoesToPlace` | kernel/console.c:507-511 | CSI n ; k H and f go to line n, column k |
| `TerminalCells.SavesCursor` | kernel/console.c:542-544 | CSI s saves the cursor's place |
| `TerminalCells.RestoresCursor` | kernel/console.c:545-547 | CSI u goes back to it |
| `TerminalCells.ErasesDisplay` | kernel/console.c:201-228 | CSI J blanks exactly the cells from the cursor on, before it, or all, for 0, 1 and 2 |
| `TerminalCells.ErasesLine` | kernel/console.c:230-259 | CSI K does so within the line |
| `TerminalCells.InsertsLines` | kernel/console.c:350-358 | CSI n L moves the lines from the cursor's on down by n, or as far as there is room, after blank ones |
| `TerminalCells.DeletesLines` | kernel/console.c:370-378 | CSI n M moves the lines below up by n, and blank ones follow |
| `TerminalCells.InsertsCells` | kernel/console.c:340-348 | CSI n @ moves the cells from the cursor's on right by n, after blank ones |
| `TerminalCells.DeletesCells` | kernel/console.c:360-368 | CSI n P moves the cells behind left by n, and blank ones follow |
| `TerminalCells.SetsAttribute` | kernel/console.c:261-273 | CSI n m: 0 and 27 give 0x07, 1 and 4 0x0f, 7 0x70; any other number changes nothing |
| `TerminalCells.SetsInOrder` | kernel/console.c:261-273 | CSI m with several parameters is CSI m with each of them in turn |
| `TerminalCells.SetsRegion` | kernel/console.c:533-541 | CSI n ; k r makes the lines n to k the scroll region, if there are such lines; 0 stands for the first and the last |
| `TerminalCells.WithoutParameters` | kernel/console.c:457-464 | a sequence without parameters is one with the parameter 0 |
| `TerminalCells.ZeroLeftOut` | kernel/console.c:457-469 | the parameter 0 may be left out, at any place |
| `TerminalCells.TooManyParameters` | kernel/console.c:464-470 | a semicolon behind the sixteenth parameter ends the sequence, and nothing is done |
| `TerminalCells.QuestionMark` | kernel/console.c:462-463 | a question mark before the parameters makes no difference |
| `TerminalCells.UnknownFinal` | kernel/console.c:473-548 | any other final byte does nothing |
| `Tty.TtyQueue.PutCh` | include/nros/tty.h:14-15 | appends a character; on a full ring everything is lost |
| `Tty.TtyQueue.GetCh` | include/nros/tty.h:12-13 | takes the oldest character; on an empty ring 1023 old ones come back |
| `Tty.TtyQueue.Chars` | include/nros/tty.h:11 | the number of characters in the ring |
| `Tty.TtyQueue.Left` | include/nros/tty.h:8 | the number of characters that still fit |
| `StrLen.SuspectMeans` | lib/libc/string.c:105-106 | a word is looked at more closely exactly if one of its bytes is zero, or 0x81 or more |
| `StrLen.Strlen` | lib/libc/string.c:94-116 | the distance to the first zero byte, for every alignment; no word past that byte is read |
| `Display.Scrolled` | lib/libc/display.c:53-55 | after n cells, so many whole lines are gone that between 24 and 25 lines are left on the screen |
| `Display.NewlineFillsLine` | lib/libc/display.c:41-46 | a newline ends on the end of a line, after at least one blank |
| `Display.Screen.PutChar` | lib/libc/display.c:35-58 | the screen up to the cursor is the end of the log of all cells ever written, from the first line that is not gone; the log grows by the cell 0x0700 + ch, for a newline by blanks to the end of the line, for a tab by eight blanks exactly if they end before the line does |
| `Display.Screen.Puts` | lib/libc/display.c:60-64 | text without controls is shown as it is, one cell for each character in the normal color |
| `Display.Screen.PutInt` | lib/libc/display.c:79-99 | the cells written are the number in decimal, with a sign if it is negative and no leading zeros, exactly for every int but the smallest |
| `Display.ReadsDecimal` | lib/libc/display.c:79-99 | a minus sign and the digits 1, 2, 0, 3 are -1203 |
| `Display.IntReadsBack` | lib/libc/display.c:79-99 | the text of the number is the number in decimal exactly for every int but the smallest |

## Left out

- Buddy.PageAllocator.AllocPages: orders below 11; AllocPagesOrStop is the call with its guard, for every order.
- Buddy.PageAllocator.AllocPagesOrStop: what the free list that does not exist makes of an order of 11 is not part of
  the model.
- Kmalloc.Heap.Kmalloc: the area lists are sequences, not headers in the memory they describe. A run of calls ends where
  the page allocator goes astray or the machine stops.
- Kmalloc.Heap.Kfree: memory below 1 GiB, so that the address of a node's end does not wrap. What a write through NULL
  hits is not modelled; the lists are right without it.
- DiskBuffer.DiskCache.Get: node buffers and bucket lists are sequences in fields, and memory for a new node is always
  to be had. What `flags` holds in a node fresh from kmalloc is a parameter. Two holders of one block only get a message
  in the source; the client methods want a block that nobody holds.
- Fat12.Volume.Create: names of up to 32 bytes; a longer one runs over into the slots behind.
- Fat12.Volume.Resize: sizes below 2^32 - 512, where rounding up to a sector wraps; what the write behind the table
  hits, and what the sync after it stores.
- Fat12.FileSystem.ReadWrite: offsets below 2^31, as they are ints, and ranges that end below 2^32 - 512, where rounding
  up to a sector wraps. Nothing is said of the bytes moved after the growth broke the volume.
- FileRuns.Serve: names and ranges as for Create and ReadWrite.
- FileRuns.Replay: the same in every call; a broken run ends there. Files are looked up by name for each call; that
  `offset += size` in `kernel/fat12.c:448` and `458` moves the parameter, and so never the file's position, is outside.
- FileRuns.Boot: the second file system starts when no call is under way; power lost between two sector writes is not
  modelled.
- PageRuns.AgreesIffAtEntry: for tables that are there, and words that lie in pages in use. A table that is made on the
  way lies in a page the allocator picks, and which words lie behind it is decided by that.
- PageRuns.RightIffAtEntry: the same; RightIffAgrees holds for all areas, and FitsIsRight gives one half for the others.
- PageFits.FitsIsRight: for an area of more than 4 MiB with several tables to make, it wants that no two free pages lie
  as far apart as their tables' places; with other free pages the order in which they are handed out decides.
- VmMapping.AddressSpace.MapVmArea: a word past the end of physical memory is not read; the model stops there.
- PageTables.MapAllMemory: table pages inside the first 4 MiB, and at most 1 GiB of memory; more does not fit in the
  directory.
- VmAreas.AreaList.DoVmAlloc: the area records' own memory, which comes from kmalloc.
- Process.Process.VmAlloc: for a request past the last address, or of no bytes, nothing is said of the pages of the
  areas, only of the run over them.
- Masks and shifts of table entries and bitmap bytes are written with `/`, `%` and `+`.
- Inodes: reference counts (`kernel/fat12.c:39-97`) are not kept as meant.
- `do_vm_free`, `vm_free_area`, `unmap_vm_area`: `kernel/mm_vm.c:222-225` never finds an area, and `kernel/mm_vm.c:209`
  reads after freeing.
- `memmove`: its destination is never set (`lib/libc/string.c:59`).
- Cursor registers, beeps and the EGA branches of the terminal: `con_init` sets up a CGA. The backward move leaves the
  processor's direction flag set (`kernel/console.c:149-163`); nothing here depends on it.
- `put_hex` and `printf`: the same as `put_int`, and easier.
- Scheduling, process creation, interrupts, system calls, boot code, keyboard, floppy commands: hardware, or nothing
  with an invariant.
