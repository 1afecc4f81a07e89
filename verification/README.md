# A model of the Nachos kernel

This project models the kernel under `Nachos Lab/codes` and proves what its parts promise:
the file system, the synchronization primitives, the machine simulator, and address
translation. `dafny verify dfyconfig.toml` checks all of it.

The build modelled for the file system is that of `Nachos Lab/codes/filesys/Makefile:12`
(`USE_INDIRECT`, `MULTI_LEVEL_DIR`): 128-byte sectors, 1024 of them, eight direct sectors a
file, index tables of 32 entries, directories of ten. Code that changes objects in place is
modelled by classes with the same fields, loops and branches; each method is proved against
a specification on values. The synchronization protocols are state machines whose steps any
thread may take next, so that what is safe there is safe under every scheduling policy. That
threads are not left asleep is another matter: the queues in which they sleep and their
priorities are put into the state, and it holds exactly when all priorities are equal, as in
round-robin mode.

## The files

**File system.** `BitMap.dfy` is the free map, words refining a set, with the theory of
allocation one number after another. `SectorDisk.dfy` is the disk and the little-endian
views of a buffer. `Chains.dfy` is the central idea: the sectors a file owns, data and index
tables alike, form one *chain* in the order in which the code allocates them, and each of the
seven branches of `ExpandFileSize` means the same thing, that the chain grows at its end by
the next allocations of the free map. `FileHeader.dfy` proves this of the code, branch by
branch, and `FileLife.dfy` derives the laws: all or nothing, the flat list of data sectors
keeps its prefix, what a file takes it gives back. `FileLayout.dfy` says what a disk image
means: each sector is free or belongs to one live file, and the map on the disk marks exactly
the sectors that are not free. `OpenFile.dfy` refines files to flat byte sequences.
`Directory.dfy` refines the entry table to a partial function from names to sectors.
`FileTree.dfy` is the tree of directories, and `FileSystem.dfy` proves that formatting,
`Create`, `RemoveDir` and writes, growing ones included, keep the whole disk consistent: the
map marks the union of what the files reached from the root and the three system files own,
and no two of them share a sector. `Valid()` of `FileSystem` is this invariant, and holds
after any run of the operations. `FileSystemLaws.dfy` adds that creating a file and removing
it again leaves every name and the free map as they were.

**Threads and synchronization.** `Kernel.dfy` is the ready list, semaphores, conditions, and
the thread operations in round-robin mode, one switch point to the next: every live thread is
in exactly one place, and no wake-up is lost, since for all of a positive value there are
live threads inside `P`, ready or running, that look at it next. `Barrier.dfy`,
`ReadersWriters.dfy` and `SynchList.dfy` are proved safe for every run of any number of
threads, with more runs than the code has: a thread that waits for a lock may look at it
again at any time. `BarrierQueue.dfy` and `ReadersWritersQueue.dfy` add the queues of the
semaphores and the priorities. Their runs are runs of the first machines, and with equal
priorities those inside are never all left asleep for a semaphore: one can go on. `BarrierStuck.dfy` and
`ReadersWritersStuck.dfy` construct, for any two different priorities, a run of the
priority scheduler that leaves threads asleep for a free lock for good.

**Machine.** `Multiplier.dfy` is the 64-bit multiplication, against MULT and MULTU of the
MIPS32 Architecture, Volume II, chapter 3. `List.dfy` is the linked list. `Interrupt.dfy` is
the event clock: its loop ends, handlers run in order of time, none early, and no event is
lost. `DiskTiming.dfy` is the timing of disk requests.

**Address translation.** `Machine.dfy` is the TLB as a cache of the page table under three
policies, and each address space as a flat memory of its own over every run of writes.
`Frames.dfy` is the frame map under demand paging.

## Where the code differs from what it says

- The free-space tests of `ExpandFileSize` (`Nachos Lab/codes/filesys/filehdr.cc:535`, `:577`,
  `:634`) are not tests for the sectors it takes. `FileLife.WhenTestsAreExact` says for which
  growths they are, over all numbers of clear sectors that the file leaves on the disk, and
  `FileLife.TestsMiss` gives one growth let through and one refused wrongly. The model keeps
  the tests as they are. When they let a growth through without room but with a sector for
  every index table, it succeeds and leaves a data sector of -1 (`FileLife.LetThrough`): the
  contract of `ExpandFileSize` says that the file is in order again if and only if there was
  room. Without a sector for every index table the code writes a table to sector -1, where
  the disk's own assertion stops it; `FileLife.TablesGetSectors` says exactly when.
- The range tests of `Allocate` (`Nachos Lab/codes/filesys/filehdr.cc:119`, `:128`, `:149`)
  compare with unsigned constants, so that a size of minus one sector or less, whose sector
  count is negative, reaches `ASSERT(FALSE)`. The model compares as the code does:
  `FileHeaders.BranchTaken` says that these sizes and no others end there, and
  `FileHeaders.NegativeSizeStops` gives one. Sizes from -127 to -1 take no sectors. `Create`
  passes on those from -127 to -2: `FileSystems.MakeFile` says that the header gets the
  negative length, and `FileSystems.OddFile` that the disk is not consistent with such a file.
- A file created under a name that ends in .DIR has the extension of a directory
  (`Nachos Lab/codes/filesys/filesys.cc:271`), and `RemoveDir` takes it for one. `MakeFile` says
  so, and `OddFile` that the disk is consistent only if it has the length of a directory.
- `WriteAt` grows a file by the whole of `numBytes` (`Nachos Lab/codes/filesys/openfile.cc:209`).
  `FileBytes.LengthRight` says that this is right exactly for writes within the file and at
  its end; `FileBytes.LengthWrong` is a write across the end. `WriteAt` keeps the code's length.
- In priority mode, the default of `Nachos Lab/codes/threads/system.cc:91`, `V` makes the
  first sleeper ready before it raises the value (`Nachos Lab/codes/threads/synch.cc:87-98`),
  and `ReadyToRun` yields to it at once when its priority number is the smaller
  (`Nachos Lab/codes/threads/scheduler.cc:98-104`). It finds the value at 0 and sleeps again, and
  the value is raised beside a sleeper whom nobody will wake. `BarrierStuck.TwoThreads` is this
  for a barrier of two. `BarrierStuck.StuckWhen` and `ReadersWritersStuck.StuckWhen` say that
  threads can be left asleep so if and only if two of them have different priorities.
- A failed `Create` or `RemoveDir` may rewrite the headers of directories on its path, with
  what was in them. "Unchanged" below means: the same directory tree, the same free map, and
  every file with the same header fields, sectors and contents.

## Model

| member | source | states |
|---|---|---|
| BitMaps.BitMap.constructor | Nachos Lab/codes/userprog/bitmap.cc:20-27 | a new map has no number marked, whatever its storage held |
| BitMaps.BitMap.Mark | Nachos Lab/codes/userprog/bitmap.cc:46-51 | the set of marked numbers gains this one, and no other changes |
| BitMaps.BitMap.Clear | Nachos Lab/codes/userprog/bitmap.cc:60-65 | the set of marked numbers loses this one, and no other changes |
| BitMaps.BitMap.Test | Nachos Lab/codes/userprog/bitmap.cc:74-83 | tells whether the number is in the set |
| BitMaps.BitMap.Find | Nachos Lab/codes/userprog/bitmap.cc:94-103 | takes the least clear number, and fails exactly when all are marked |
| BitMaps.BitMap.NumberClear | Nachos Lab/codes/userprog/bitmap.cc:111-119 | the size of the set of clear numbers |
| BitMaps.BitMap.Load | Nachos Lab/codes/userprog/bitmap.cc:148-152 | the map holds exactly the words read |
| BitMaps.MarkedMeans | Nachos Lab/codes/userprog/bitmap.cc:46-83 | number i is bit i % 32 of word i / 32 |
| WordBits.UpdateBit | Nachos Lab/codes/userprog/bitmap.cc:50-64 | setting or clearing one bit of a word decides that bit and leaves all others alone |
| WordBits.UpdateWeight | Nachos Lab/codes/userprog/bitmap.cc:50-64 | the two updates add or remove the weight of the bit, once |
| WordBits.TestBitMeans | Nachos Lab/codes/userprog/bitmap.cc:79-82 | bit k of a word has the weight 2^k |
| Allocation.AllocatedOnce | Nachos Lab/codes/userprog/bitmap.cc:94-103 | no number is handed out twice in a run of allocations |
| Allocation.ClearAfter | Nachos Lab/codes/userprog/bitmap.cc:94-119 | a run of allocations uses up one clear number each, until there are none |
| SectorDisks.TableOfSectorOf | Nachos Lab/codes/filesys/filehdr.cc:147 | an index table written to a sector is read back unchanged, -1 entries included |
| SectorDisks.WordsOfBytesOf | Nachos Lab/codes/userprog/bitmap.cc:148-165 | words written to a buffer are read back unchanged |
| SectorDisks.ByteWeights | Nachos Lab/codes/machine/translate.cc:121-123 | the bytes of a word in a buffer have the weights 1, 2^8, 2^16 and 2^24, in this order |
| SectorDisks.SectorDisk.WriteTable | Nachos Lab/codes/filesys/synchdisk.cc:106-113 | one sector changes, and read as a table it holds the table written |
| SectorDisks.SectorDisk.ReadTable | Nachos Lab/codes/filesys/synchdisk.cc:88-95 | the buffer holds the sector as a table |
| Chains.PositionOwned | Nachos Lab/codes/filesys/filehdr.cc:303-336 | data sector i has a position of the chain within the file, never that of an index table |
| Chains.PositionIncreases | Nachos Lab/codes/filesys/filehdr.cc:303-336 | data sectors come in order, no two at one position |
| Chains.PositionsCovered | Nachos Lab/codes/filesys/filehdr.cc:303-336 | every position that is no index table's is that of a data sector |
| Chains.LookUp | Nachos Lab/codes/filesys/filehdr.cc:303-336 | the index tables on the way to data sector i lead to its place in the chain |
| Chains.GrowTwice | Nachos Lab/codes/filesys/filehdr.cc:541-606 | growing a chain in two steps is growing it once: what the branches of several steps rest on |
| Chains.SectorsForMeans | Nachos Lab/codes/filesys/filehdr.cc:107 | a file has as many data sectors as hold its bytes, and no more |
| Chains.TotalMeans | Nachos Lab/codes/filesys/filehdr.cc:119-170 | with its index tables it has n sectors up to 8, n + 1 up to 40, and then n + 2 and one for every 32 begun |
| Chains.ExtendedSound | Nachos Lab/codes/filesys/filehdr.cc:480-673 | a grown chain has only real, distinct sectors if and only if every allocation succeeded, and then the new ones were all clear |
| Chains.SameTables | Nachos Lab/codes/filesys/filehdr.cc:303-336 | writes that spare a file's index tables spare its chain |
| HeaderLayout.HeaderRoundTrip | Nachos Lab/codes/filesys/filehdr.cc:274-291 | sizes, directory flag and table of sectors, written to the header's sector, are read back unchanged |
| HeaderLayout.HeaderFields | Nachos Lab/codes/filesys/filehdr.h:96-109 | where the fields lie in the sector |
| FileHeaders.FillTable | Nachos Lab/codes/filesys/filehdr.cc:483-486 | entries from..to are the next allocations in order, the others untouched |
| FileHeaders.BuildSecondLevel | Nachos Lab/codes/filesys/filehdr.cc:648-658 | each new second-level table and its entries are the next allocations in chain order; only these sectors are written |
| FileHeaders.FileHeader.GrowDirect | Nachos Lab/codes/filesys/filehdr.cc:481-487 | direct branch: the chain grows by the next allocations |
| FileHeaders.FileHeader.ZeroToOne | Nachos Lab/codes/filesys/filehdr.cc:503-516 | 0 to 1 levels: the chain grows by the next allocations, and only its index table is written |
| FileHeaders.FileHeader.FillOneLevel | Nachos Lab/codes/filesys/filehdr.cc:518-529 | 1 to 1 level: the same |
| FileHeaders.FileHeader.ZeroToTwo | Nachos Lab/codes/filesys/filehdr.cc:541-569 | 0 to 2 levels: the same |
| FileHeaders.FileHeader.OneToTwo | Nachos Lab/codes/filesys/filehdr.cc:583-605 | 1 to 2 levels: the same |
| FileHeaders.FileHeader.FillSecond | Nachos Lab/codes/filesys/filehdr.cc:620-631 | 2 to 2 levels within one second-level table: the same |
| FileHeaders.FileHeader.FillAndAddSecond | Nachos Lab/codes/filesys/filehdr.cc:632-660 | 2 to 2 levels with new second-level tables: the same |
| FileHeaders.FileHeader.TwoToTwo | Nachos Lab/codes/filesys/filehdr.cc:607-661 | 2 to 2 levels: succeeds when its test does, and otherwise changes neither map nor disk |
| FileHeaders.FileHeader.ExpandFileSize | Nachos Lab/codes/filesys/filehdr.cc:450-674 | exactly when it returns TRUE: no sector more is needed or the tests of the branch pass; FALSE changes nothing; TRUE appends the next allocations to the chain, writes only index tables, and the file is in order if and only if there was room, its new sectors clear before and marked after; the ASSERT(FALSE) branch is not reached |
| FileHeaders.FileHeader.Allocate | Nachos Lab/codes/filesys/filehdr.cc:103-197 | done if and only if the size is more than minus one sector and data sectors and index tables fit; all or nothing on map and disk; the chain is what was just allocated; the ASSERT(FALSE) branch is reached if and only if the size is minus one sector or less |
| FileHeaders.BranchTaken | Nachos Lab/codes/filesys/filehdr.cc:103-192 | past the clear-count test, the unsigned range tests leave for the ASSERT(FALSE) branch the sizes of minus one sector and less, and no others |
| FileHeaders.NegativeSizeStops | Nachos Lab/codes/filesys/filehdr.cc:107-192 | a size of -128 reaches the ASSERT(FALSE) branch, whatever the map |
| FileHeaders.SectorsOfSizeMeans | Nachos Lab/codes/filesys/filehdr.cc:107 | the number of sectors is rounded up for sizes from 0 on, and toward zero below |
| FileHeaders.GuardsMean | Nachos Lab/codes/filesys/filehdr.cc:471-638 | how many clear sectors each branch of ExpandFileSize asks for |
| FileHeaders.FileHeader.Deallocate | Nachos Lab/codes/filesys/filehdr.cc:206-265 | the map loses exactly the chain, and every tested sector is found marked |
| FileHeaders.FileHeader.ByteToSector | Nachos Lab/codes/filesys/filehdr.cc:303-336 | the entry of the flat list of data sectors, and of the chain, that holds the byte |
| FileHeaders.FileHeader.FetchFrom | Nachos Lab/codes/filesys/filehdr.cc:274-278 | the fields modelled are those in the sector |
| FileHeaders.FileHeader.WriteBack | Nachos Lab/codes/filesys/filehdr.cc:287-291 | one sector changes, and holds the fields modelled |
| FileLife.AllocateExactly | Nachos Lab/codes/filesys/filehdr.cc:103-197 | the number of clear sectors drops by n data sectors and 0, 1 or 2+ceil((n-40)/32) index tables, or not at all; which of the three outcomes it is, for every size |
| FileLife.TakenExactly | Nachos Lab/codes/filesys/filehdr.cc:103-197 | taking clear, distinct sectors lowers the clear count by their number |
| FileLife.FlatListGrows | Nachos Lab/codes/filesys/filehdr.cc:303-336 | a longer chain has the old flat list of data sectors as a prefix, all entries distinct, and the later ones among the sectors added |
| FileLife.ExpandList | Nachos Lab/codes/filesys/filehdr.cc:303-336 | after ExpandFileSize with room, ByteToSector(i*SectorSize) lists the old sectors first, and then sectors that were clear and are marked; on FALSE list, map and disk are unchanged |
| FileLife.WhenTestsAreExact | Nachos Lab/codes/filesys/filehdr.cc:494-638 | for all sizes, the free-space tests agree with the true need, over all numbers of clear sectors the file can leave on the disk, if and only if a condition on the two sizes holds |
| FileLife.TestsMiss | Nachos Lab/codes/filesys/filehdr.cc:577-638 | a growth let through without room though its index tables fit, and one refused with room |
| FileLife.LetThrough | Nachos Lab/codes/filesys/filehdr.cc:632-673 | the code lets the first of these through: it returns TRUE, the chain is not sound, and the last data sector is -1 |
| FileLife.TablesGetSectors | Nachos Lab/codes/filesys/filehdr.cc:510-659 | what ExpandFileSize requires of index tables holds if and only if none of them is given -1 |
| FileLife.LifeCycle | Nachos Lab/codes/filesys/filehdr.cc:103-265 | Allocate, any number of expansions with room, and Deallocate leave the map as it was |
| FileLayout.FileUntouched | Nachos Lab/codes/filesys/openfile.cc:191-261 | writes outside a file's sectors leave its header, chain and contents |
| FileLayout.TidyPut | Nachos Lab/codes/filesys/filesys.cc:252-286 | a file placed in free sectors and its own keeps every other file and the accounting of sectors |
| FileLayout.TidyTake | Nachos Lab/codes/filesys/filesys.cc:646-654 | a file taken away keeps the accounting of sectors |
| FileLayout.GrownContents | Nachos Lab/codes/filesys/openfile.cc:199-220 | growth moves no byte of a file |
| FileLayout.GrowthDone | Nachos Lab/codes/filesys/openfile.cc:199-220 | map, header and index tables written one after the other leave a disk in order, the file's old contents a prefix of the new |
| FileBytes.ReadBack | Nachos Lab/codes/filesys/openfile.cc:132-155 | what a write leaves behind is read back by a read of the same range |
| FileBytes.LengthRight | Nachos Lab/codes/filesys/openfile.cc:194-227 | growth by all of numBytes is right if and only if the write ends within the file or begins at its end; everything is written if and only if it does not begin past the end |
| FileBytes.LengthWrong | Nachos Lab/codes/filesys/openfile.cc:209 | a write across the end leaves the file too long |
| FileBytes.WrittenContents | Nachos Lab/codes/filesys/openfile.cc:229-251 | writing the sectors first..last from the buffer patches the flat bytes, for every alignment |
| FileBytes.PatchPrepared | Nachos Lab/codes/filesys/openfile.cc:235-246 | only sectors written in part need be read first |
| OpenFiles.OpenFile.constructor | Nachos Lab/codes/filesys/openfile.cc:32-43 | the handle has the header of its sector, and stands at 0 |
| OpenFiles.OpenFile.Close | Nachos Lab/codes/filesys/openfile.cc:50-60 | writing the header back changes no file |
| OpenFiles.OpenFile.ReadAt | Nachos Lab/codes/filesys/openfile.cc:157-189 | the bytes of the flat contents at the position, cut at the end of the file; the rest of the buffer and the file unchanged |
| FileBytes.Spans | Nachos Lab/codes/filesys/openfile.cc:171-173 | the sectors looked at are sectors of the file and hold the whole range |
| OpenFiles.OpenFile.Overwrite | Nachos Lab/codes/filesys/openfile.cc:222-261 | the flat contents patched at the position; only data sectors of this file written |
| OpenFiles.OpenFile.WriteAt | Nachos Lab/codes/filesys/openfile.cc:191-261 | the bytes are there and every old byte outside the range is; the length after; a write within the file keeps header and chain, one past its end leaves the disk in order with the added sectors clear before and marked after |
| OpenFiles.OpenFile.Seek | Nachos Lab/codes/filesys/openfile.cc:71-75 | the next transfer begins there |
| OpenFiles.OpenFile.Read | Nachos Lab/codes/filesys/openfile.cc:90-108 | reads at the seek position and moves it by the bytes read |
| OpenFiles.OpenFile.Write | Nachos Lab/codes/filesys/openfile.cc:110-129 | writes at the seek position and moves it by the bytes written |
| OpenFiles.OpenFile.FetchMap | Nachos Lab/codes/userprog/bitmap.cc:148-152 | the map in memory is the one in the file |
| OpenFiles.OpenFile.WriteMap | Nachos Lab/codes/userprog/bitmap.cc:161-165 | the map in the file becomes the one in memory, and every other file is unchanged |
| DirectoryEntries.KeyCopied | Nachos Lab/codes/filesys/directory.cc:90-143 | a name stored by strncpy compares equal by strncmp to the name it came from, whatever the field held |
| DirectoryEntries.KeyMeans | Nachos Lab/codes/filesys/directory.cc:90-97 | names are compared up to the first NUL and FileNameMaxLen characters at most |
| DirectoryEntries.EntryRoundTrip | Nachos Lab/codes/filesys/directory.cc:63-80 | an entry survives its encoding in the file |
| DirectoryEntries.EntryFields | Nachos Lab/codes/filesys/directory.h:32-38 | where the fields of an entry lie |
| DirectoryEntries.TableRoundTrip | Nachos Lab/codes/filesys/directory.cc:63-80 | a directory written to its file is read back unchanged |
| Directories.Directory.FetchFrom | Nachos Lab/codes/filesys/directory.cc:63-67 | the table is the one in the file |
| Directories.Directory.WriteBack | Nachos Lab/codes/filesys/directory.cc:76-80 | the file holds the table, and no other file changes |
| Directories.Directory.FindIndex | Nachos Lab/codes/filesys/directory.cc:90-97 | the first entry in use with that name, -1 if and only if there is none |
| Directories.Directory.Find | Nachos Lab/codes/filesys/directory.cc:108-116 | the sector the name stands for, or -1 |
| Directories.Directory.Add | Nachos Lab/codes/filesys/directory.cc:129-143 | succeeds if and only if the name is new and an entry is free; takes the first such entry, and then the name stands for the sector; names stay distinct |
| Directories.Directory.Remove | Nachos Lab/codes/filesys/directory.cc:153-162 | succeeds if and only if the name is there; only its entry changes |
| Directories.Directory.IsEmpty | Nachos Lab/codes/filesys/directory.cc:199-212 | no entry is in use |
| Directories.AddedLookup | Nachos Lab/codes/filesys/directory.cc:108-143 | after Add the name stands for the new sector and every other name for what it did |
| Directories.RemovedLookup | Nachos Lab/codes/filesys/directory.cc:108-162 | after Remove the name stands for nothing and every other name for what it did |
| FileTree.LiveIsReached | Nachos Lab/codes/filesys/filesys.cc:521-553 | in an ordered tree the live files are exactly those reached |
| FileTree.TreeAdd | Nachos Lab/codes/filesys/filesys.cc:246-286 | a new file under a new entry keeps the tree: one entry a file, every file reached |
| FileTree.TreeRemove | Nachos Lab/codes/filesys/filesys.cc:621-656 | an entry and its file, no occupied directory, go without cutting off any other |
| FileTree.ReachedLive | Nachos Lab/codes/filesys/filesys.cc:521-553 | following entries from the system files meets only live files, so that reading the disk alone reaches the same ones |
| FileTree.LiveIsOnDisk | Nachos Lab/codes/filesys/filesys.cc:521-553 | on a consistent disk the live files are exactly those reached by reading it |
| FileTree.MarksAreOwned | Nachos Lab/codes/filesys/filesys.cc:82-143 | on a consistent disk the map marks a sector if and only if a file reached by reading the disk owns it |
| FileTree.FilesAreDisjoint | Nachos Lab/codes/filesys/filesys.cc:82-143 | no two files reached by reading the disk share a sector |
| FileTree.ConsistentMeans | Nachos Lab/codes/filesys/filesys.cc:82-143 | consistency stated of the disk image alone: the map marks just what the reached files own, and these are pairwise disjoint |
| FileSystems.ExtensionMeans | Nachos Lab/codes/filesys/filehdr.cc:32-39 | the extension is what follows the last dot of a name |
| FileSystems.NoExtension | Nachos Lab/codes/filesys/filehdr.cc:32-39 | a name without a dot behind its first character has no extension |
| FileSystems.NameFitsMeans | Nachos Lab/codes/filesys/filesys.cc:268-271 | a directory may have any name, and another file any but those with the extension of a directory or a longer one than the header holds |
| FileSystems.MakeFile | Nachos Lab/codes/filesys/filesys.cc:256-273 | for every size and name: when the header is made, when not, and when the assertion is reached; from size 0 on the file is in order in free sectors, and below it has a negative length and no sectors; a directory if and only if its extension is DIR |
| FileSystems.OddFile | Nachos Lab/codes/filesys/filesys.cc:260-273 | no disk is consistent with a live file of negative length, or with the extension of a directory and another length |
| FileSystems.FindDirSector | Nachos Lab/codes/filesys/filesys.cc:521-553 | from the root each name leads to the next sector: the result is the last one when every name is found, and -1 when one is not; the disk unchanged |
| FileSystems.WalkMeans | Nachos Lab/codes/filesys/filesys.cc:521-553 | a walk of the tree ends where the names lead, and at -1 if and only if one of them is not found |
| FileSystems.PathOkMeans | Nachos Lab/codes/filesys/filesys.cc:521-553 | the paths modelled are those on which every name that is found is that of a directory |
| FileSystems.CreateIn | Nachos Lab/codes/filesys/filesys.cc:236-315 | succeeds if and only if the name is new, an entry is free and header, data and index sectors fit; failure leaves the disk image as it is |
| FileSystems.RemoveIn | Nachos Lab/codes/filesys/filesys.cc:601-664 | succeeds if and only if the name is there and is not an occupied directory |
| FileSystems.FormatHeaders | Nachos Lab/codes/filesys/filesys.cc:87-126 | three headers with disjoint sectors, the map in memory marking them |
| FileSystems.FormatFiles | Nachos Lab/codes/filesys/filesys.cc:128-143 | the first map and an empty root on the disk make it consistent |
| FileSystems.WroteBeyond | Nachos Lab/codes/filesys/openfile.cc:199-220 | growth keeps the tree, and the map gains the added sectors |
| FileSystems.FileSystem.constructor | Nachos Lab/codes/filesys/filesys.cc:82-143 | a formatted disk is consistent, its root directory empty |
| FileSystems.FileSystem.Create | Nachos Lab/codes/filesys/filesys.cc:205-316 | keeps the disk consistent; succeeds if and only if the name is new, an entry is free and header, data and index sectors of that size fit; on success a file of just that length, or an empty directory for -1, in sectors that were free and are marked, under the new name, all else the same; on failure tree, map and files unchanged |
| FileSystems.FileSystem.RemoveDir | Nachos Lab/codes/filesys/filesys.cc:581-664 | keeps the disk consistent; succeeds if and only if the path leads to a directory that has the name and it stands for no directory with entries; on success the sectors of the file are free and the name stands for nothing, all else the same; on failure tree, map and files unchanged |
| FileSystems.FileSystem.Write | Nachos Lab/codes/filesys/openfile.cc:191-261 | keeps the disk consistent and the tree the same, whether or not the file grows; the bytes are there, all other files are unchanged, and the map gains just the sectors the file has gained, which were clear: none for a write within it |
| FileSystems.ValidMeans | Nachos Lab/codes/filesys/filesys.cc:82-664 | after formatting and any run of Create, RemoveDir and writes the map on the disk accounts for the disk |
| FileSystemLaws.CreateThenRemove | Nachos Lab/codes/filesys/filesys.cc:205-664 | a file that was created can be removed, and then in every directory every name stands for what it did, and the free map is what it was |
| FileSystemLaws.WalkStill | Nachos Lab/codes/filesys/filesys.cc:521-553 | a path leads where it did when directories only gain names |
| FileSystemLaws.CreatedTree | Nachos Lab/codes/filesys/filesys.cc:252-286 | the tree after Create: one directory has gained a name, all others are the same |
| FileSystemLaws.RemovedTree | Nachos Lab/codes/filesys/filesys.cc:646-656 | the tree after RemoveDir: one directory has lost a name, all others are the same |
| Barriers.StepInv | Nachos Lab/codes/threads/synch.cc:328-348 | every step of every thread keeps the barrier's invariant |
| Barriers.StepCounts | Nachos Lab/codes/threads/synch.cc:328-348 | a call is entered when a thread comes in from outside and returned from when it goes back, and a round is counted when the last one arrives |
| Barriers.BarrierSafe | Nachos Lab/codes/threads/synch.cc:226-348 | in every run no thread returns from its k-th call before every participant has entered its k-th |
| Barriers.NoOvertaking | Nachos Lab/codes/threads/synch.cc:328-348 | in every run no thread is more than one call ahead |
| Barriers.LockIsHeld | Nachos Lab/codes/threads/synch.cc:153-293 | in every run the assertions that the caller holds the lock hold, and one thread at a time is past Acquire |
| BarrierQueues.Refines | Nachos Lab/codes/threads/synch.cc:64-98 | every run of the barrier with the sleep queue of its lock, under any priorities, is a run of the barrier without it |
| BarrierQueues.SafeWithQueue | Nachos Lab/codes/threads/synch.cc:226-348 | so in every such run no thread returns from its k-th call before every participant has entered its k-th |
| BarrierQueues.NextWakeful | Nachos Lab/codes/threads/synch.cc:64-98 | with equal priorities every step keeps: when the lock is free and threads sleep for it, another one is awake and about to look at it |
| BarrierQueues.NoDeadlock | Nachos Lab/codes/threads/synch.cc:328-348 | with equal priorities, in every state of every run, some thread inside the barrier that is awake goes on, its program counter or that of a thread it wakes changing, or all those inside sleep on the condition until others come, and there are others |
| BarrierStuck.ReleaseInVain | Nachos Lab/codes/threads/scheduler.cc:85-107 | a release by a thread with a greater number than the first sleeper leaves the value at 1 and the same threads asleep |
| BarrierStuck.Stuck | Nachos Lab/codes/threads/scheduler.cc:85-107 | for any two different priorities the priority scheduler has a run that puts every participant to sleep for good: those with smaller numbers than the greatest on the lock, which is free, the others on the condition |
| BarrierStuck.TwoThreads | Nachos Lab/codes/threads/synch.cc:328-348 | with priorities 0 and 1 the first thread ends up asleep on the free lock and the second on the condition |
| BarrierStuck.StuckWhen | Nachos Lab/codes/threads/scheduler.cc:85-107 | some run puts all participants to sleep for good if and only if two of them have different priorities, and then one that the scheduler follows does |
| ReadersWriters.StepInv | Nachos Lab/codes/filesys/synchdisk.cc:135-183 | every step of every thread keeps the invariant of all sectors |
| ReadersWriters.WriterExcludesAll | Nachos Lab/codes/filesys/synchdisk.cc:135-183 | in every run a writer of a sector excludes all readers and other writers of it |
| ReadersWriters.ReaderCountExact | Nachos Lab/codes/filesys/synchdisk.cc:135-166 | in every run readerCnt is the number of readers counted in, and a reader has the semaphore |
| ReadersWriters.LockIsHeld | Nachos Lab/codes/filesys/synchdisk.cc:135-166 | in every run the assertion that Release is called by the owner of the lock holds, and one thread at a time is past Acquire |
| ReadersWritersQueues.Refines | Nachos Lab/codes/threads/synch.cc:64-98 | every run with the sleep queues of the lock and of the sectors, under any priorities, is a run without them |
| ReadersWritersQueues.ExcludesWithQueues | Nachos Lab/codes/filesys/synchdisk.cc:135-183 | so in every such run a writer of a sector excludes all readers and other writers of it |
| ReadersWritersQueues.NextWakeful | Nachos Lab/codes/threads/synch.cc:64-98 | with equal priorities every step keeps: when a semaphore is free and threads sleep for it, another one is awake and about to look at it |
| ReadersWritersQueues.NoDeadlock | Nachos Lab/codes/filesys/synchdisk.cc:135-183 | with equal priorities, in every state of every run in which threads are inside the protocol, one of them that is awake goes on, its program counter changing, though a first reader sleeps with the one lock in hand |
| ReadersWritersStuck.Stuck | Nachos Lab/codes/threads/scheduler.cc:85-107 | for any two different priorities the priority scheduler has a run that leaves a reader asleep for the free lock while no other thread is inside |
| ReadersWritersStuck.ReadersShare | Nachos Lab/codes/filesys/synchdisk.cc:135-166 | two threads can read a sector at the same time |
| ReadersWritersStuck.StuckWhen | Nachos Lab/codes/threads/scheduler.cc:85-107 | some run leaves all the threads inside the protocol asleep if and only if two threads have different priorities, and then one that the scheduler follows does |
| SynchLists.StepInv | Nachos Lab/codes/threads/synchlist.cc:53-82 | every step of every thread keeps the list's invariant |
| SynchLists.NothingLost | Nachos Lab/codes/threads/synchlist.cc:53-82 | in every run the items appended are those removed followed by those on the list, in order |
| SynchLists.OneAtATime | Nachos Lab/codes/threads/synchlist.cc:53-82 | in every run one thread at a time is at the inner list, and owns the lock |
| SynchLists.AppendCall | Nachos Lab/codes/threads/synchlist.cc:53-61 | a whole call of Append puts the item at the end of the list and signals the first thread asleep |
| SynchLists.RemoveCall | Nachos Lab/codes/threads/synchlist.cc:70-82 | a whole call of Remove, or the rest of one after a signal, takes the first item |
| SynchLists.RemoveWaits | Nachos Lab/codes/threads/synchlist.cc:70-76 | on an empty list the thread sleeps, at the end of the queue |
| SynchLists.EnoughSignalled | Nachos Lab/codes/threads/synchlist.cc:58-77 | in every run, while threads sleep on the condition, there are no more items than threads signalled and yet to take one, awake or not, but for one whose signal is due |
| SynchLists.ItemIsNotNull | Nachos Lab/codes/threads/synchlist.cc:70-82 | in every run in which no NULL is appended, a thread about to remove finds the oldest item left, not NULL |
| Kernels.InOnePlace | Nachos Lab/codes/threads/scheduler.cc:85-180 | what placement means: a live thread is running, or once in the ready list, or once in the queue of one semaphore or condition |
| Kernels.NoLostWakeUp | Nachos Lab/codes/threads/synch.cc:64-98 | while threads sleep on a semaphore its value is no more than the number of live threads, ready or running, that have been woken inside P on it and on no other; if it is positive there is one |
| Kernels.TurnComes | Nachos Lab/codes/threads/scheduler.cc:115-161 | every switch brings a ready thread one place nearer to the processor, so that a woken thread comes to look at the value |
| Kernels.HandlersMean | Nachos Lab/codes/machine/interrupt.cc:212-228 | handlers raise the value of a semaphore by the number of their V's on it, and wake as many of its sleepers, first in first out |
| Kernels.DispatchMeans | Nachos Lab/codes/threads/thread.cc:385-400 | as few rounds of handlers run as it takes for a thread to be ready, and the first one ready runs |
| Kernels.Woken | Nachos Lab/codes/threads/synch.cc:93-95 | waking the first in a queue keeps every thread in one place |
| Kernels.Slept | Nachos Lab/codes/threads/synch.cc:69-72 | going to sleep on a queue keeps every thread in one place |
| Kernels.WakeKeeps | Nachos Lab/codes/threads/synch.cc:93-95 | taking the first thread off a queue keeps all that is true at switch points, and leaves the value less than the number woken |
| Kernels.TakeKeeps | Nachos Lab/codes/threads/synch.cc:69-75 | taking one of a positive value keeps all that is true at switch points |
| Kernels.SleepKeeps | Nachos Lab/codes/threads/synch.cc:69-72 | going to sleep inside P keeps all that is true at switch points |
| Kernels.Yielded | Nachos Lab/codes/threads/thread.cc:348-364 | handing over the processor keeps every thread in one place |
| Kernels.Kernel.P | Nachos Lab/codes/threads/synch.cc:64-78 | one pass of the loop, by a thread that is not inside P on another semaphore: it takes one of the value, or sleeps at the end of the queue and the first ready thread runs, the value, counts and queues of all semaphores said field by field; every thread in one place, no wake-up lost |
| Kernels.Kernel.V | Nachos Lab/codes/threads/synch.cc:87-98 | the value is greater by one, and the first in the queue, if any, is ready behind the others; the other semaphores unchanged; the same invariants |
| Kernels.TakenOnce | Nachos Lab/codes/threads/synch.cc:64-78 | of a semaphore of value 1 the first P is done and the next before a V is not |
| Kernels.Kernel.Wait | Nachos Lab/codes/threads/synch.cc:226-238 | gives the lock back, sleeps at the end of the condition's queue, and the next thread runs; the same invariants |
| Kernels.Kernel.Signal | Nachos Lab/codes/threads/synch.cc:254-269 | the first thread waiting, if any, is ready; the same invariants |
| Kernels.Kernel.Broadcast | Nachos Lab/codes/threads/synch.cc:277-293 | all threads waiting are ready, in order, and the queue is empty; the same invariants |
| Kernels.Kernel.ReadyToRun | Nachos Lab/codes/threads/scheduler.cc:85-95 | the thread is ready, at the end of the list |
| Kernels.Kernel.FindNextToRun | Nachos Lab/codes/threads/scheduler.cc:115-119 | takes the first ready thread, if any |
| Kernels.Kernel.Run | Nachos Lab/codes/threads/scheduler.cc:135-161 | the thread has the processor and is running |
| Kernels.Kernel.Dispatch | Nachos Lab/codes/threads/thread.cc:385-400 | the next ready thread runs, first in first out; while there is none, round after round of handlers; the whole state after, and the same invariants |
| Kernels.Kernel.Idle | Nachos Lab/codes/machine/interrupt.cc:212-228 | what the handlers of one round do to the semaphores |
| Kernels.Kernel.Yield | Nachos Lab/codes/threads/thread.cc:348-364 | the first ready thread runs and the caller goes to the end of the list; nothing happens if none is ready; the semaphores unchanged |
| Kernels.Kernel.Fork | Nachos Lab/codes/threads/thread.cc:261-273 | a new live thread, ready at the end of the list |
| Kernels.Kernel.Finish | Nachos Lab/codes/threads/thread.cc:317-328 | the caller is no longer live, and the next ready thread runs; the semaphores unchanged but for what handlers do while none is ready |
| Multiplier.Mult | Nachos Lab/codes/machine/mipssim.cc:652-709 | for all operands hi:lo is the exact product, two's complement when signed and unsigned otherwise |
| Multiplier.MultiplyBits | Nachos Lab/codes/machine/mipssim.cc:676-695 | the loop multiplies the operands' bits, though the shift of a smears its top bit |
| Multiplier.NextRound | Nachos Lab/codes/machine/mipssim.cc:680-695 | one round keeps the loop's meaning, and neither sum nor shift leaves 64 bits |
| Multiplier.SignedProduct | Nachos Lab/codes/machine/mipssim.cc:697-708 | the product of magnitudes, negated when the signs differ, is the signed product |
| Multiplier.AddDouble | Nachos Lab/codes/machine/mipssim.cc:682-685 | the wrapped sums with a carry add two double words |
| Multiplier.NegateDouble | Nachos Lab/codes/machine/mipssim.cc:699-705 | complement and increment negate a double word modulo 2^64 |
| ListSpec.InsertedSorted | Nachos Lab/codes/threads/list.cc:181-207 | a sorted list stays sorted and gains just the new entry |
| ListSpec.InsertedLast | Nachos Lab/codes/threads/list.cc:181-207 | the new entry comes after all with keys up to its own and before all greater ones, the others in their order |
| ListSpec.FirstIsLeast | Nachos Lab/codes/threads/list.cc:222-243 | what SortedRemove takes off a sorted list has a least key |
| ListSpec.WithoutSorted | Nachos Lab/codes/threads/list.cc:247-275 | removing an entry keeps the list sorted and loses just that entry |
| Lists.List.constructor | Nachos Lab/codes/threads/list.cc:43-47 | an empty list |
| Lists.List.IsEmpty | Nachos Lab/codes/threads/list.cc:157-164 | whether the sequence is empty |
| Lists.List.Append | Nachos Lab/codes/threads/list.cc:77-90 | the sequence with the item at its end |
| Lists.List.Prepend | Nachos Lab/codes/threads/list.cc:104-117 | the sequence with the item at its front |
| Lists.List.Remove | Nachos Lab/codes/threads/list.cc:127-131 | the first item, and the rest; NULL if there is none |
| Lists.List.SortedRemove | Nachos Lab/codes/threads/list.cc:222-243 | the first item with its key, and the rest; NULL if there is none |
| Lists.List.SortedInsert | Nachos Lab/codes/threads/list.cc:181-207 | the sequence with the item before the first greater key |
| Lists.List.RemoveItem | Nachos Lab/codes/threads/list.cc:247-275 | the sequence without the first occurrence of the item; its assertion holds for an item that is there |
| Interrupts.InOrderMeans | Nachos Lab/codes/machine/interrupt.cc:299-345 | what the clock's invariant means: handlers ran in order of the times they were due, none early |
| Interrupts.KeptMeans | Nachos Lab/codes/machine/interrupt.cc:273-345 | what keeping events means: those scheduled are those pending and those whose handlers ran, each as often |
| Interrupts.ScheduledMeans | Nachos Lab/codes/machine/interrupt.cc:273-284 | what a handler asks for is one event for each request, so many ticks from then on |
| Interrupts.NothingDue | Nachos Lab/codes/machine/interrupt.cc:299-322 | the number of due events of a sorted queue is 0 if and only if all are later |
| Interrupts.Interrupt.Schedule | Nachos Lab/codes/machine/interrupt.cc:273-284 | the event goes in its place by time, and no due event is added |
| Interrupts.Interrupt.CheckIfDue | Nachos Lab/codes/machine/interrupt.cc:299-345 | exactly when a handler runs, whose, and at what time; all that it asks for is scheduled, each event so many ticks from then on, and is pending besides what was pending behind the first event; otherwise the queue is as the code leaves it; no event is lost; total = idle + system + user ticks |
| Interrupts.Interrupt.FireDue | Nachos Lab/codes/machine/interrupt.cc:171-172 | the loop ends, since the number of due events falls, and nothing due is left |
| Interrupts.Interrupt.OneTick | Nachos Lab/codes/machine/interrupt.cc:152-175 | time goes on by one tick of the mode, everything due has fired at that time and scheduled what it asked for, no event is lost |
| Interrupts.Interrupt.Idle | Nachos Lab/codes/machine/interrupt.cc:212-240 | advances to the first event and runs its handler and all that are due then, which schedule what they ask for, or halts if and only if there is no event but the timer's |
| DiskTiming.SeekMeans | Nachos Lab/codes/machine/disk.cc:179-184 | no time on the same track, the same both ways, and SeekTime more for each track further |
| DiskTiming.LatencyMeans | Nachos Lab/codes/machine/disk.cc:179-253 | without the buffer a request is done when its sector has just passed the head, the first time it passes as a whole after the seek |
| DiskTiming.LatencyBounds | Nachos Lab/codes/machine/disk.cc:232-253 | every latency is between 500 and 31999, so that Schedule's assertion holds |
| DiskTiming.BufferedMeans | Nachos Lab/codes/machine/disk.cc:235-247 | the buffer test holds if and only if a read of the current track asks for a sector that has passed since the buffer was started |
| DiskTiming.Disk.UpdateLast | Nachos Lab/codes/machine/disk.cc:261-271 | the head is at the sector, and the buffer starts afresh after a seek, at a sector boundary |
| DiskTiming.Disk.Request | Nachos Lab/codes/machine/disk.cc:115-153 | when the request will be done, which without the buffer is the first time the sector passes as a whole after the seek, and where head and buffer are then |
| FlatMemory.LoadedStored | Nachos Lab/codes/machine/translate.cc:110-175 | what is written is read back, cut to its size: signed for one byte, unsigned for two |
| FlatMemory.LoadedMeans | Nachos Lab/codes/machine/translate.cc:110-126 | a byte is read with its sign, and of two bytes or halves the second has the greater weight |
| FlatMemory.PhysicalOnce | Nachos Lab/codes/machine/translate.cc:299-311 | with distinct frames two virtual bytes share a physical one only if they are the same byte of the same space |
| FlatMemory.WriteIsFlat | Nachos Lab/codes/machine/translate.cc:146-181 | an aligned write changes the bytes it names in its space and no other virtual byte of any space |
| FlatMemory.RunIsFlat | Nachos Lab/codes/machine/translate.cc:146-181 | after every run of writes by any spaces a virtual byte is that of the last write in its space to cover it |
| FlatMemory.ReadBackLater | Nachos Lab/codes/machine/translate.cc:93-181 | what is written at a virtual address is read back there, cut to its size, whatever is written elsewhere in any space in between |
| PageTables.WithinPage | Nachos Lab/codes/machine/translate.cc:212-225 | an aligned access does not cross a page |
| PageTables.AlignedMeans | Nachos Lab/codes/machine/translate.cc:213-216 | an access is aligned if and only if its address is a multiple of its size |
| Translation.Machine.SwitchTo | Nachos Lab/codes/userprog/addrspace.cc:322-347 | no entry of the old space is left, and the buffer caches the new table |
| Translation.Machine.Fifo | Nachos Lab/codes/userprog/exception.cc:28-56 | the page is in, the buffer still caches the table, and its valid entries stay an oldest-first prefix |
| Translation.Machine.Clock | Nachos Lab/codes/userprog/exception.cc:61-93 | ends within one turn; only used entries are passed over and lose their bits; the one evicted was free, not used, or had its second chance |
| Translation.Machine.NextInTurn | Nachos Lab/codes/userprog/exception.cc:187-189 | the entry at the index is replaced and the index moves on |
| Translation.Machine.MissHandler | Nachos Lab/codes/userprog/exception.cc:164-190 | after a miss the page is in: behind the others or in the first free entry, in the entry the hand finds, or in the next one, by the policy |
| Translation.Machine.Translate | Nachos Lab/codes/machine/translate.cc:198-314 | an address error if and only if the address is no multiple of the size, a page fault if and only if the page is not in the buffer, and otherwise what the page table says; only use and dirty bits of its entry change; the address is within memory and page |
| Translation.Machine.ReadMem | Nachos Lab/codes/machine/translate.cc:93-131 | the bytes at the translated address; succeeds for a page in the buffer if and only if the address is a multiple of the size and the frame exists |
| Translation.Machine.WriteMem | Nachos Lab/codes/machine/translate.cc:146-181 | the memory with the value at the translated address, unchanged on an exception; succeeds if and only if besides the page may be written |
| Translation.Machine.Access | Nachos Lab/codes/userprog/exception.cc:164-190 | an access retried after a miss does not miss, its result decided by the page table alone; under FIFO the buffer stays a queue |
| Translation.TouchedPages | Nachos Lab/codes/machine/translate.cc:307-309 | setting use and dirty bits leaves pages and their order |
| Frames.BitIsSet | Nachos Lab/codes/machine/machine.cc:243-289 | in balance, a frame's bit is set if and only if some valid page holds it |
| Frames.HeldOnce | Nachos Lab/codes/machine/machine.cc:243-289 | in balance, one and only one does |
| Frames.FrameMap.AllocateMem | Nachos Lab/codes/machine/machine.cc:243-258 | takes the least free frame; -1 if and only if there is none |
| Frames.FrameMap.FreeMem | Nachos Lab/codes/machine/machine.cc:274-288 | the frames of the space's valid pages are free, and no other changes |
| Frames.FrameMap.ReplacePage | Nachos Lab/codes/userprog/exception.cc:95-132 | the frame of a valid page, given up: one not modified, if there is one |
| Frames.FrameMap.PageFaultHandler | Nachos Lab/codes/userprog/exception.cc:135-162 | the page has the least frame that was free or, if none was, that of a page given up for it, one not modified if there is one; no other page changes |
| Frames.FaultKeepsBalance | Nachos Lab/codes/userprog/exception.cc:135-162 | a fault in one space keeps the balance of all |
| Frames.ExitKeepsBalance | Nachos Lab/codes/machine/machine.cc:274-288 | so does the end of a space |
| Frames.StartKeepsBalance | Nachos Lab/codes/userprog/addrspace.cc:105-125 | so does a new space, whose pages are not valid yet |
| Frames.EveryRunIsBalanced | Nachos Lab/codes/userprog/exception.cc:95-162 | in every run of faults, replacements, exits and new spaces a bit is set exactly when one valid page holds the frame |

## Left out

- FileHeaders.FileHeader.ExpandFileSize: requires that, if its tests pass, every new index table gets a sector; otherwise the code writes a table to sector -1, where the disk's own assertion stops it.
- HeaderLayout.HeaderRoundTrip: of the extension and time strings only the extension DIR is carried, as a flag.
- FileHeaders.FileHeader.FetchFrom: does not read the other extension and time strings, for the same reason.
- FileHeaders.FileHeader.WriteBack: does not write them.
- OpenFiles.OpenFile.ReadAt: requires that position + numBytes fits an int, since the sum is undefined in C otherwise, and a position that is not negative, below which the code copies from before its buffer.
- OpenFiles.OpenFile.Overwrite: requires the same.
- OpenFiles.OpenFile.WriteAt: requires the same, that the new length fits an int, and room for growth, where the code asserts that the expansion succeeds.
- OpenFiles.OpenFile.Read: requires the same of the seek position.
- OpenFiles.OpenFile.Write: requires the same of the seek position.
- FileSystems.FindDirSector: requires path prefixes that are directories; for another file the code reads its bytes, or memory never set, as entries.
- FileSystems.FileSystem.Create: requires sizes of -1 and up, since a smaller one stops at an assertion or leaves the disk inconsistent; a name that gets the extension of a directory only for a directory, for the same reason, and an extension that fits the strings of the header; and a parent directory that exists, which the code asserts; path prefixes as in FindDirSector.
- FileSystems.MakeFile: requires that the extension fits the strings of the header, beyond which the code writes over the table of sectors.
- FileSystemLaws.CreateThenRemove: requires the same as Create.
- FileSystems.FileSystem.RemoveDir: requires path prefixes as in FindDirSector.
- FileSystems.FileSystem.Write: one handle a file, since each handle caches the header and writes it back when closed; not on directories or the free map.
- Translation.Machine.MissHandler: requires a valid page in the table, which the code asserts; beyond the table the code reads past the end of an array.
- Frames.FrameMap.PageFaultHandler: requires that a space which faults when memory is full holds a valid page, without which ReplacePage returns -1 and the code addresses memory before its start.
- Kernels.Kernel.P: one pass of the loop a call, since another thread runs between two passes; a thread woken inside P may do nothing but the next pass, which the other operations require.
- Interrupts.Interrupt.OneTick: does not model the yield that a handler may ask for on return, which runs other threads.
- The TLB over a page table that page faults change (`USE_DISK`): the dirty bits are set in the TLB's copy alone and ReplacePage leaves TLB entries valid, so that the buffer need not agree with the table.
- File attributes: of the strings in a header only whether the extension is DIR is kept.
- Parsing of paths: a path is given as its components and a name.
- Visitor counts, `Remove` (which goes by them), `Open`, listings, pipes and the open-file table.
- The locking around Read and Write of an open file: the file operations are modelled as one thread at a time sees them, and the locks separately.
- SynchLists.EnoughSignalled: counts threads that have been signalled; in priority mode one of them may sleep for the free lock for good, as in BarrierStuck.
- The sleep queue of the lock of the synchronized list; what is proved there is safety alone.
- Priority mode for the placement of threads in Kernel.dfy, where V is one step. The protocols are proved safe with the switch point inside V, and BarrierQueue.dfy and ReadersWritersQueue.dfy have both modes.
- Changes of a thread's priority while it is inside a protocol: priorities are fixed for a run.
- BarrierQueues.NoDeadlock: says that some thread can go on, not that each one comes to its turn.
- ReadersWritersQueues.NoDeadlock: the same.
- DiskTiming.LatencyMeans: clock values are unbounded, so that this holds while the `int` of the code's clock does not overflow.
- DiskTiming.LatencyBounds: the same.
- DiskTiming.BufferedMeans: the same.
- DiskTiming.Disk.UpdateLast: the same.
- DiskTiming.Disk.Request: the same.
- Interrupts.Interrupt.Schedule: clock values are unbounded there too.
- Interrupt handlers are a script: of what each will schedule for the clock, and of the V's each does for the kernel.
- `ReadWriteLock` (threads/synch.cc:382-440) is the one-sector case of the sector locks and is not repeated.
- Contents of pages under demand paging, the virtual-memory files, and the inverted page table.
- Raising exceptions, instruction decoding, the other instructions, program loading, system calls, context switching in assembly.
- Host I/O, console, network, statistics, debugging output.
