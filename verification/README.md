# A verified model of a camera firmware's storage, trace and tool chain

This project models, in Dafny 4.11, the parts of the repository where a wrong step would go
unnoticed longest, and proves what they are for.

* **FatFs R0.12b** (`ff.c`), from the sector up: the write-back sector window (`FatFs`, `FatWindow`),
  the packed table entries (`FatEntries`, `FatVolume`), the cluster allocator (`FatChains`), the
  fast-seek link map (`LinkMap`), the allocation hints (`FsInfo`, `FatHints`), buffered reading, writing,
  seeking and syncing of a file (`FileData`, `FileSteps`, `FileGrowth`, `FileEntry`, `FatFile`), long file names in directories (`LfnEntries`, `LfnListing`, `LfnSearch`,
  `LfnDirectory`), the slots of a directory on the disk (`DirTable`), the wildcard matcher
  (`Wildcard`), and formatting and mounting (`FormatLayout`, `BootSector`, `Format`,
  `FreshVolume`, `MountedVolume`). A formatted drive is shown to be a volume with everything the file
  operations rely on, so the layers form one stack.
* **Application tracing**: the ring buffer of contiguous chunks (`RingBuffer`) and the two-block
  swap protocol built on it (`TraceMembufs`), with the host that reads the packets (`TraceHost`).
* **The BitScrambler assembler** (`BitStream`, `Bitscrambler`, `BitscramblerProgram`).
* **The command scheduler of idf.py** (`TaskOrder`, `TaskRepeats`), **the in-place command-line splitter**
  (`SplitArgv`), **the SD card checksums** (`PolyDivision`, `CrcTables`, `Crc`) and **the file
  transfer over the console**, whose two ends are in C and in Python (`HexTransfer`).

`Arith`, `Bytes` and `Options` hold what they share.

What the source changes step by step is a class or a method with loops here, proved against
functions on plain values; what those functions are good for is proved as lemmas. `FileSystem.Store`
is the disk as if every edit had been written at once, `FileSystem.Fat` the table on it as numbers,
`File.Contents` the bytes of a file, `Membufs.Stream` everything traced in order, `Directory.slots`
a directory as its 32-byte entries and `Listing` the objects in it, `Bitstream.Contents` the bits
added so far.

## Where the code does less than it seems to

Each of these is a lemma or an exact condition in a contract; the model follows the code.

* The cached free count goes wrong when the first chain is started on a volume all of whose
  clusters are free, and only then (`CreateKeepsCountIff`, `EmptyVolumeLosesCount`). The sector scan
  that recounts FAT16 and FAT32 also counts the two reserved entries if they are zero (`ScanIsExactIff`).
* Long names of 254 and 255 characters are stored but do not come back (`PickedPart`, `ReadBlock`);
  one of 255 characters is not even found again by its name (`RegisteredIsFound`).
* In a directory of 65536 entries whose last one holds an object, reading on gives that object again
  and again (`ReadDir`).
* With erase blocks of more than one sector a volume may be formatted that cannot be mounted:
  exactly when no whole cluster is left behind the aligned start of the data (`MountsIff`, `AlignedAway`).
* A boot sector is mounted without a check that its areas lie on the drive, that their sum does not wrap, or
  that FAT32 can number the clusters; on the drive, the volume is usable exactly if they add up
  (`AcceptedIsValidIff`, `WrappedIsMounted`).
* A trace packet of 32768 bytes or more uses the bit of its size that names the core, and the host cuts it
  (`HostReadsPacket`, `LongPacketIsCut`).
* In the ring buffer a request so large that a 32-bit sum wraps is not served as it should be
  (`ProduceIsRightIff`, `ConsumeIsRightIff`); the protocol on top never makes one. With blocks of
  64 KiB or more the size that is passed on in 16 bits would grant packets room they do not have (`SizeFitsIff`).
* On a FAT32 volume with a single reserved sector that asks for allocation hints, a sync writes them over
  the start of the table, where clusters 2 to 120 then look free (`HintsOnTheTable`).
* A flush empties the pending ring only if the ring does not hold data behind an empty block; every
  operation keeps it that way (`Flush`, `PerformAll`).
* A BitScrambler label behind the eighth instruction has number 8, which spills into the counter bit
  (`OpReadsBack`); the first LUT bit beyond the width is accepted and selects another input
  (`InputSelectsItsSource`); 8192 trailing bytes, the documented limit, do not fit the header (`InstsToBinary`).
* The user of idf.py is told that of a repeated command only the first one runs. With `flash build build`
  it is the last (`LastBuildRuns`). Exactly one runs; every pass whose front command names it turns the waiting
  ones round by one, and the first runs exactly if their number divides the number of these turns, which
  is 0 exactly if no command given before leads to it (`RepeatedCommand`). With one command that names it the
  first runs exactly in that case (`FirstRunsIffUnreached`); with several it may run in others (`FirstOfTwoRuns`).

## Model

| member | source | states |
|---|---|---|
| FatFs.FileSystem.SyncWindow | Seeed_Arduino_FS/src/fatfs/ff.c:868-892 | a dirty window is written back, to every copy of the table if it holds part of it, and the disk then equals the write-through view |
| FatFs.FileSystem.MoveWindow | Seeed_Arduino_FS/src/fatfs/ff.c:897-918 | the window shows the sector asked for as all edits so far have left it, and nothing of the write-through view changes |
| FatFs.FileSystem.SyncFs | Seeed_Arduino_FS/src/fatfs/ff.c:929-957 | after a sync the disk is the write-through view, with the sector behind the boot sector replaced by the FSINFO sector built from the hints exactly when that was due |
| FatFs.FileSystem.LoadHints | Seeed_Arduino_FS/src/fatfs/ff.c:3112-3133 | the hints of a mount are those of the FSINFO sector if its three signatures fit, else unknown |
| FatWindow.Serve | Seeed_Arduino_FS/src/fatfs/ff.c:867-957 | any move, edit or sync acts on the write-through view as it would without a cache |
| FatWindow.ServeAll | Seeed_Arduino_FS/src/fatfs/ff.c:867-957 | over any run every sector looked at is as all edits before left it; a run that ends with a sync leaves the disk in that state; equal copies of the table stay equal, if no hints are due for a sector of the table |
| FatWindow.RunKeepsMirror | Seeed_Arduino_FS/src/fatfs/ff.c:878-889 | all copies of the table stay equal over any run, if no hints are due for a sector of the table |
| FatWindow.HintsOnTheTable | Seeed_Arduino_FS/src/fatfs/ff.c:936-948 | writing the hints leaves the table alone exactly if it does not begin right behind the boot sector; there it makes clusters 2 to 120 look free |
| FatVolume.WriteThroughKeepsMirror | Seeed_Arduino_FS/src/fatfs/ff.c:880-887 | writing a sector of the table to all its copies keeps them equal |
| FsInfo.HintsRoundTrip | Seeed_Arduino_FS/src/fatfs/ff.c:936-951 | the allocation hints written at a sync are those the next mount reads |
| FsInfo.FieldsInPlace | Seeed_Arduino_FS/src/fatfs/ff.c:936-944 | signatures and hints lie, byte for byte, where the FSINFO sector has them |
| FatEntries.EncodeThenDecode | Seeed_Arduino_FS/src/fatfs/ff.c:986-1111 | a stored entry reads back cut to 12, 16 or 28 bits, also where FAT12 entries share a byte |
| FatEntries.EncodeKeepsOthers | Seeed_Arduino_FS/src/fatfs/ff.c:1062-1111 | storing one entry leaves the value of every other entry as it was |
| FatEntries.EncodeKeepsReserved | Seeed_Arduino_FS/src/fatfs/ff.c:1096-1106 | the top four bits of every FAT32 entry survive |
| FatFs.FileSystem.GetFat | Seeed_Arduino_FS/src/fatfs/ff.c:986-1051 | get_fat reads the entry of the table seen through the window, 1 for a number out of range; FAT12 entries may straddle two sectors |
| FatFs.FileSystem.PutFat | Seeed_Arduino_FS/src/fatfs/ff.c:1062-1111 | put_fat changes exactly one entry of the table, to the value cut to the entry's width, and refuses numbers out of range; reserved bits stay |
| FatChains.ChainIsAcyclic | Seeed_Arduino_FS/src/fatfs/ff.c:1231-1384 | a chain never comes back to a cluster it has passed |
| FatChains.WholeChainsDisjoint | Seeed_Arduino_FS/src/fatfs/ff.c:1231-1384 | in a sound table two different whole chains share no cluster |
| FatChains.NoSpaceMeansNoFreeCluster | Seeed_Arduino_FS/src/fatfs/ff.c:1352-1363 | create_chain returns 0 only if no entry of the whole table is free, for any starting point of the cyclic search |
| FatChains.AllocatesIffFree | Seeed_Arduino_FS/src/fatfs/ff.c:1352-1383 | on a sound table a new cluster is allocated exactly if a free one exists |
| FatChains.BrokenChainIsRefused | Seeed_Arduino_FS/src/fatfs/ff.c:1325-1329 | asked to stretch a cluster outside the volume or one that neither links on nor ends a chain, create_chain answers 1 and changes nothing |
| FatChains.LinkKeepsSound | Seeed_Arduino_FS/src/fatfs/ff.c:1366-1373 | claiming a free cluster and linking it keeps the table a set of disjoint end-marked chains |
| FatChains.FollowChain | Seeed_Arduino_FS/src/fatfs/ff.c:1326-1383 | stretching a chain at any of its clusters gives its next cluster, or appends one that was free, or reports a full volume |
| FatChains.StartChain | Seeed_Arduino_FS/src/fatfs/ff.c:1322-1325 | with cluster 0 a new chain of one free cluster is started, or the volume is full |
| FatChains.UnlinkChain | Seeed_Arduino_FS/src/fatfs/ff.c:1257-1289 | removing a chain frees exactly its clusters and adds their number to the free count, up to the number of clusters |
| FatChains.FreeingKeepsSound | Seeed_Arduino_FS/src/fatfs/ff.c:1256-1289 | freeing a whole chain keeps the table sound |
| FatChains.FreeingFrame | Seeed_Arduino_FS/src/fatfs/ff.c:1256-1289 | freeing a whole chain leaves every other chain as it was |
| FatChains.SplitKeepsSound | Seeed_Arduino_FS/src/fatfs/ff.c:1250-1254 | end-marking a cluster inside a chain keeps the table sound |
| FatChains.RemoveHead | Seeed_Arduino_FS/src/fatfs/ff.c:1232-1303 | remove_chain of a whole chain: exactly that chain is freed, all others stay |
| FatChains.RemoveTail | Seeed_Arduino_FS/src/fatfs/ff.c:1250-1303 | remove_chain behind a cluster: the chain ends there, its tail is freed, all others stay |
| FatChains.StepKeepsChains | Seeed_Arduino_FS/src/fatfs/ff.c:1231-1384 | every legal create_chain or remove_chain keeps the table sound, and every whole chain it names no cluster of stays whole and as it was |
| FatChains.RunKeepsChains | Seeed_Arduino_FS/src/fatfs/ff.c:1231-1384 | so does every legal run of them: the table stays sound, and whole chains that no step names a cluster of come through |
| FatChains.RemoveKeepsCount | Seeed_Arduino_FS/src/fatfs/ff.c:1266-1269 | remove_chain keeps an exact free count exact, on any table |
| FatChains.CreateKeepsCountIff | Seeed_Arduino_FS/src/fatfs/ff.c:1375-1379 | create_chain keeps an exact free count exact if and only if it does not start a chain on a volume whose clusters are all free |
| FatChains.EmptyVolumeLosesCount | Seeed_Arduino_FS/src/fatfs/ff.c:1377 | the volume on which the count goes wrong |
| FatChains.CreateTakesOne | Seeed_Arduino_FS/src/fatfs/ff.c:1366-1379 | a cluster claimed behind a chain was free: one less is free afterwards |
| FatChains.RunKeepsCount | Seeed_Arduino_FS/src/fatfs/ff.c:1266-1269 | over every run that starts no chain on an empty volume the free count stays the number of free entries |
| FatChains.ScanIsExactIff | Seeed_Arduino_FS/src/fatfs/ff.c:4364-4381 | the sector scan of f_getfree counts the free clusters exactly if and only if neither reserved entry is zero |
| FatFs.FileSystem.SearchFree | Seeed_Arduino_FS/src/fatfs/ff.c:1351-1364 | the search loop finds the next free or damaged entry in cyclic order |
| FatFs.FileSystem.CreateChain | Seeed_Arduino_FS/src/fatfs/ff.c:1312-1384 | create_chain on the disk is the allocator step on the table and the hints, and changes no data sector |
| FatFs.FileSystem.RemoveChain | Seeed_Arduino_FS/src/fatfs/ff.c:1232-1303 | remove_chain on the disk is the removal step on the table and the hints, and marks the hints as due whenever it changes the table; it ends on any table, cyclic ones included |
| FatFs.FileSystem.GetFree | Seeed_Arduino_FS/src/fatfs/ff.c:4328-4388 | f_getfree returns the cached count if it is in range, else what a count of the table gives, caches that and marks the hints as due |
| FatFs.FileSystem.CountEntries | Seeed_Arduino_FS/src/fatfs/ff.c:4337-4344 | the FAT12 loop counts the free clusters, up to a damaged entry |
| FatFs.FileSystem.ScanTable | Seeed_Arduino_FS/src/fatfs/ff.c:4364-4381 | the FAT16/32 scan counts the zero entries of the whole table, sector by sector |
| FatHints.Serve | Seeed_Arduino_FS/src/fatfs/ff.c:1266-1381 | on a volume with hints, after any allocation, removal, count or sync either the hints are marked as due or the FSINFO sector holds them |
| FatHints.ServeAll | Seeed_Arduino_FS/src/fatfs/ff.c:929-957 | so after any run of them; one that ends in a sync leaves the hints in the FSINFO sector of the disk |
| FatHints.SyncedAndRemounted | Seeed_Arduino_FS/src/fatfs/ff.c:3112-3133 | whatever run is made and synced, mounting the disk again restores the free count and the last cluster |
| LinkMap.LookupIsIndex | Seeed_Arduino_FS/src/fatfs/ff.c:1406-1414 | looking a cluster up in a link map is indexing the chain the map describes, 0 behind its end |
| LinkMap.PairsAreExpand | Seeed_Arduino_FS/src/fatfs/ff.c:3954-3971 | the pairs stored for the fragments describe exactly the chain they were taken from |
| LinkMap.NextFragment | Seeed_Arduino_FS/src/fatfs/ff.c:3957-3963 | a fragment is counted to its full length, the next one starts where the numbers jump |
| FatFile.File.ClmtClust | Seeed_Arduino_FS/src/fatfs/ff.c:1397-1415 | clmt_clust gives the cluster reached by walking the chain, for every offset the map reaches |
| FatFile.File.CreateLinkMap | Seeed_Arduino_FS/src/fatfs/ff.c:3949-3974 | a map built in a large enough table describes the chain, however fragmented; the size reported is what is needed; a chain that does not end is an error |
| FileData.FileSectorInjective | Seeed_Arduino_FS/src/fatfs/ff.c:968-976 | two places of a file never lie in the same sector |
| FileData.SpliceTwice | Seeed_Arduino_FS/src/fatfs/ff.c:3570-3571 | writing two pieces one behind the other is writing them joined |
| FileData.PartialWriteSplices | Seeed_Arduino_FS/src/fatfs/ff.c:3643-3651 | changing part of a file's sector splices exactly those bytes into the file |
| FileData.WriteRunSplices | Seeed_Arduino_FS/src/fatfs/ff.c:3607-3628 | a run of whole sectors written inside a cluster splices exactly those bytes into the file |
| FileData.ReadRunIsSlice | Seeed_Arduino_FS/src/fatfs/ff.c:3492-3510 | a run of sectors read inside a cluster is the slice of the file at that place |
| FileData.ReadPartIsSlice | Seeed_Arduino_FS/src/fatfs/ff.c:3525-3531 | part of a sector read is the slice of the file at that place |
| FileData.LongerChain | Seeed_Arduino_FS/src/fatfs/ff.c:3587-3593 | a cluster appended to the chain leaves the bytes before it as they were |
| FatFile.File.WriteCluster | Seeed_Arduino_FS/src/fatfs/ff.c:3573-3594 | at a cluster boundary the cluster of the file pointer is found or allocated; 0 only on a full volume or behind the link map |
| FatFile.File.Write | Seeed_Arduino_FS/src/fatfs/ff.c:3546-3658 | f_write splices exactly the bytes it reports into the file, through chain, disk and dirty buffer, fewer than asked for only when the volume is full or at 4 GiB, and marks the file as changed; what is not marked has its size, first cluster and clean buffer as before |
| FatFile.File.Read | Seeed_Arduino_FS/src/fatfs/ff.c:3446-3536 | f_read returns the slice of the file at the file pointer, clipped at its end; it fails only behind a link map, and the handle then keeps the error |
| FatFile.File.SeekNormal | Seeed_Arduino_FS/src/fatfs/ff.c:4000-4075 | a normal seek reaches its target or, growing a file on a full volume, the end of its chain, and changes no byte already there |
| FatFile.File.SeekFast | Seeed_Arduino_FS/src/fatfs/ff.c:3975-3995 | a fast seek reaches its target with the cluster the chain gives |
| FatFile.File.Seek | Seeed_Arduino_FS/src/fatfs/ff.c:3933-4078 | f_lseek keeps the bytes of the file, sets the pointer, lengthens the file only when it may be written, and then marks it as changed; what is not marked has its size, first cluster and clean buffer as before |
| FatFile.File.Serve | Seeed_Arduino_FS/src/fatfs/ff.c:3446-4078 | one write, read or seek is answered as a plain byte array with a position would, by the rights of the handle; a write or seek stops short only on a full volume, at 4 GiB or where the link map ends |
| FatFile.File.ServeAll | Seeed_Arduino_FS/src/fatfs/ff.c:3446-4078 | so is any sequence of them, with or without a link map; all other files stay as they are, a sound table stays sound, an exact free count exact if a cluster was in use, and without the mark of a change the directory entry says the size and first cluster and the buffer is clean |
| FatFile.File.Open | Seeed_Arduino_FS/src/fatfs/ff.c:3385-3407 | a file opened on its directory entry has the size, first cluster and bytes recorded there |
| FatFile.File.Sync | Seeed_Arduino_FS/src/fatfs/ff.c:3667-3735 | after f_sync the directory entry records size and first cluster, and the volume alone, without the buffer, holds the contents under them; every sector that is neither the file's nor the entry's stays |
| FatFile.File.ServeAllAndSync | Seeed_Arduino_FS/src/fatfs/ff.c:3446-3735 | after any run of requests and an f_sync the volume holds, under the recorded size and first cluster, exactly the bytes of the array the run makes |
| FatFile.Reopen | Seeed_Arduino_FS/src/fatfs/ff.c:3385-3407 | opening the synced file again by its entry gives the same contents |
| FileEntry.UpdatedReads | Seeed_Arduino_FS/src/fatfs/ff.c:3715-3727 | the entry f_sync stores has cluster and size at their offsets, the archive bit set, and name and other attributes as before |
| FileGrowth.GrowsTwice | Seeed_Arduino_FS/src/fatfs/ff.c:3570-3653 | what a file leaves alone in two steps it leaves alone in both |
| FileGrowth.OtherFileUntouched | Seeed_Arduino_FS/src/fatfs/ff.c:3446-4078 | chain and bytes of every other file come through unchanged |
| FileGrowth.GrowsKeepsSound | Seeed_Arduino_FS/src/fatfs/ff.c:3570-3594 | a file that grows keeps the table a set of disjoint, acyclic, end-marked chains |
| Wildcard.WildcardJoins | Seeed_Arduino_FS/src/fatfs/ff.c:2542-2549 | a block of wildcards, in any order, is its number of ? and whether it holds a * |
| Wildcard.PlainCharactersConsume | Seeed_Arduino_FS/src/fatfs/ff.c:2550-2556 | each plain character of a pattern needs one of the name: why stopping at the end of the name loses nothing |
| Wildcard.Attempt | Seeed_Arduino_FS/src/fatfs/ff.c:2540-2554 | one pass over the pattern finds a match at this place exactly if there is one; a last character of 0 rules out all later places |
| Wildcard.PatternMatching | Seeed_Arduino_FS/src/fatfs/ff.c:2522-2559 | the recursion ends and decides exactly the declared meaning of the pattern behind the skipped characters |
| Wildcard.Matches | Seeed_Arduino_FS/src/fatfs/ff.c:2522-2559 | pattern_matching(pat, nam, 0, 0) holds exactly if the upper-cased name matches |
| Wildcard.CaseDoesNotMatter | Seeed_Arduino_FS/src/fatfs/ff.c:2499-2518 | only the upper-cased characters decide |
| LfnEntries.PutLfn | Seeed_Arduino_FS/src/fatfs/ff.c:1708-1733 | an entry of a long name holds its 13 characters, one 0 and then filler, the checksum, and the mark if it is the last part |
| LfnEntries.PickLfn | Seeed_Arduino_FS/src/fatfs/ff.c:1670-1699 | the working buffer is filled in place as the pure reader does it, and entries that do not fit are refused |
| LfnEntries.PickedPart | Seeed_Arduino_FS/src/fatfs/ff.c:1679-1698 | reading a stored part back extends the name read so far by exactly that part, and fails exactly for the last part of names of 254 or 255 characters |
| LfnEntries.PickAgrees | Seeed_Arduino_FS/src/fatfs/ff.c:1679-1698 | what a part does to the buffer does not depend on what the buffer held before it |
| LfnEntries.SumSfn | Seeed_Arduino_FS/src/fatfs/ff.c:1805-1814 | the checksum loop computes the rotating sum of the eleven characters |
| LfnEntries.SumRotates | Seeed_Arduino_FS/src/fatfs/ff.c:1805-1814 | bit by bit, each character is added to the sum rotated right by one place, in eight bits |
| LfnListing.PartIsRead | Seeed_Arduino_FS/src/fatfs/ff.c:2123-2135 | dir_read in the middle of an object's entries takes the next part, or has given the long name up |
| LfnListing.ReadBlock | Seeed_Arduino_FS/src/fatfs/ff.c:2097-2150 | from any state before it, dir_read stops at the short entry of an object with exactly its long name, or without one if the name has 254 or 255 characters |
| LfnListing.ListingIgnoresTheBuffer | Seeed_Arduino_FS/src/fatfs/ff.c:2089-2155 | a listing does not depend on what the working buffer held before |
| LfnListing.ListingIsExact | Seeed_Arduino_FS/src/fatfs/ff.c:2120-2140 | the places listed are, in order, exactly the slots before the first never-used one whose first byte is none of 0x00, 0xE5 and 0x2E and whose attribute, cut to six bits, is none of 0x0F, 0x08 and 0x28 |
| LfnListing.ReadsFirstReported | Seeed_Arduino_FS/src/fatfs/ff.c:2104-2155 | dir_read from any slot and state stops at the first such slot, or there is none |
| LfnListing.InsertedIsOneItem | Seeed_Arduino_FS/src/fatfs/ff.c:2089-2155 | whatever is put into free slots and stops the reader at its last slot adds one item and changes no other |
| LfnListing.BlockIsOneItem | Seeed_Arduino_FS/src/fatfs/ff.c:2089-2155 | the entries of an object in free slots add one item to the listing of the directory and change no other |
| LfnSearch.CmpLfn | Seeed_Arduino_FS/src/fatfs/ff.c:1634-1662 | the comparison loop computes the pure comparison |
| LfnSearch.ComparedPart | Seeed_Arduino_FS/src/fatfs/ff.c:1643-1661 | a stored part compares equal exactly if its characters agree but for case and the name ends where it should; never for the end of 255 characters |
| LfnSearch.FindBlock | Seeed_Arduino_FS/src/fatfs/ff.c:2197-2231 | a search stops at an object exactly if the names agree but for case or the short names are the same |
| LfnSearch.ShortSearch | Seeed_Arduino_FS/src/fatfs/ff.c:2204-2225 | a search for a short name alone stops at the first slot in use that is not deleted, no label or part of a name, and has these 11 characters |
| LfnSearch.FoundIsObject | Seeed_Arduino_FS/src/fatfs/ff.c:2204-2225 | no search ever stops at a deleted slot, a label or a part of a name |
| LfnSearch.CreatedIsFound | Seeed_Arduino_FS/src/fatfs/ff.c:2166-2234 | storing an object changes the result of a search in one way only: it is found if it matches and nothing before it does |
| LfnDirectory.Directory.Next | Seeed_Arduino_FS/src/fatfs/ff.c:1476-1535 | dir_next goes one slot on, adds a blank cluster if asked to and there is one, or reports the end |
| DirTable.SlotTable.Next | Seeed_Arduino_FS/src/fatfs/ff.c:1476-1535 | the same step on the volume: through get_fat, create_chain and the cleared cluster it does to the 32-byte slots of the directory's sectors and to the number of free clusters just what the step on the sequence of slots does |
| DirTable.SlotTable.Stretch | Seeed_Arduino_FS/src/fatfs/ff.c:1508-1520 | a directory grows by one free cluster, cleared: its slots are the old ones and blank ones |
| DirTable.SlotTable.Put | Seeed_Arduino_FS/src/fatfs/ff.c:2323-2331 | an entry stored through the window changes the current slot and no other |
| DirTable.SlotTable.Get | Seeed_Arduino_FS/src/fatfs/ff.c:2100-2104 | the window shows the current slot |
| DirTable.SlotBehind | Seeed_Arduino_FS/src/fatfs/ff.c:1476-1535 | where the next entry is: in the same sector, the next one, or the first of the next cluster |
| DirTable.EntryStored | Seeed_Arduino_FS/src/fatfs/ff.c:2323-2331 | overwriting 32 bytes of a sector of a directory overwrites one slot |
| DirTable.ClusterAdded | Seeed_Arduino_FS/src/fatfs/ff.c:1514-1520 | a cleared cluster behind a directory is blank slots behind its slots |
| LfnDirectory.Directory.Alloc | Seeed_Arduino_FS/src/fatfs/ff.c:1546-1577 | dir_alloc finds the first run of free slots, growing the table if it may; it is refused only if there is none |
| LfnDirectory.Directory.WriteParts | Seeed_Arduino_FS/src/fatfs/ff.c:2306-2314 | the parts of a long name are stored last one first, and no other slot is touched |
| LfnDirectory.Directory.NumberedName | Seeed_Arduino_FS/src/fatfs/ff.c:2288-2298 | the numbered short name chosen is the first of 99 that no object has, deleted ones and labels not counted; if all are taken it is refused |
| LfnDirectory.Directory.Register | Seeed_Arduino_FS/src/fatfs/ff.c:2245-2336 | dir_register adds exactly one item to the listing, with the long name back whole up to 253 characters or with no long name if none was needed, or changes no item |
| LfnDirectory.Directory.Find | Seeed_Arduino_FS/src/fatfs/ff.c:2166-2234 | dir_find stops where the pure search does; a search for a short name alone at the first object that has it |
| LfnDirectory.Directory.Read | Seeed_Arduino_FS/src/fatfs/ff.c:2089-2155 | dir_read stops at the next object, no deleted slot, dot entry, label or part of a name, with the long name its entries give |
| LfnDirectory.Directory.ReadDir | Seeed_Arduino_FS/src/fatfs/ff.c:4206-4212 | f_readdir hands out the next slot that is an object by its first byte and attribute, and moves on, except behind the last slot of a directory of the greatest size, where it hands out the same object again |
| LfnDirectory.Directory.List | Seeed_Arduino_FS/src/fatfs/ff.c:4190-4217 | reading on until nothing comes gives the whole listing, exactly the objects in the order of their slots |
| LfnDirectory.Directory.Remove | Seeed_Arduino_FS/src/fatfs/ff.c:2348-2384 | dir_remove marks exactly the slots of the object deleted |
| LfnDirectory.RegisteredIsFound | Seeed_Arduino_FS/src/fatfs/ff.c:2245-2336 | a new object is found under its name in any case, unless the name has 255 characters and no fitting short name |
| LfnDirectory.RemovedShortIsUnlisted | Seeed_Arduino_FS/src/fatfs/ff.c:2348-2384 | the same for an object without a long name |
| LfnDirectory.ShortIsListed | Seeed_Arduino_FS/src/fatfs/ff.c:2323-2331 | a short entry alone is one item, without a long name unless the slot before belongs to one that lost its short entry |
| LfnDirectory.RemovedIsUnlisted | Seeed_Arduino_FS/src/fatfs/ff.c:2348-2384 | removing an object takes its item out of the listing and no other, and frees its slots |
| FormatLayout.RetryIsNearer | Seeed_Arduino_FS/src/fatfs/ff.c:5504-5530 | each retry of the format loop fixes the cluster size or goes over to FAT32: the loop ends |
| FormatLayout.SettledFits | Seeed_Arduino_FS/src/fatfs/ff.c:5461-5530 | every layout f_mkfs commits to adds up inside the volume, has a table large enough, an aligned data area and clusters in the range of its sub-type, in 32-bit arithmetic |
| FormatLayout.SettledHasClusters | Seeed_Arduino_FS/src/fatfs/ff.c:5502-5503 | with an erase block of one sector it has at least 16 clusters |
| FormatLayout.MountsIff | Seeed_Arduino_FS/src/fatfs/ff.c:3063-3110 | the mount code takes such a layout with the same sub-type, cluster count and areas if and only if it has a cluster |
| MountedVolume.MountsAsDescribed | Seeed_Arduino_FS/src/fatfs/ff.c:3063-3110 | a boot sector whose areas add up, with one table or two, mounts as exactly the volume its fields describe, if there is a cluster, a table with room, and the root directory its sub-type has; else not at all |
| MountedVolume.AcceptedIsValidIff | Seeed_Arduino_FS/src/fatfs/ff.c:3063-3110 | whatever boot sector is accepted, the volume has the geometry all file operations rely on (tables before the data, an entry for every cluster, the last cluster on the drive) exactly if its areas add up without wrapping and FAT32 can number its clusters |
| MountedVolume.WrappedIsMounted | Seeed_Arduino_FS/src/fatfs/ff.c:3071-3086 | a boot sector with two tables of 2^31 sectors, whose sum wraps, is accepted all the same |
| MountedVolume.MountedFromIff | Seeed_Arduino_FS/src/fatfs/ff.c:2996-3014 | a drive is mounted from its first sector or from the first partition that holds a volume, and from nothing else |
| MountedVolume.MountedIsValidIff | Seeed_Arduino_FS/src/fatfs/ff.c:2996-3110 | so a drive mounts as its boot sector describes it where that adds up, and as a valid volume exactly there |
| MountedVolume.Recognised | Seeed_Arduino_FS/src/fatfs/ff.c:2914-2935 | which sectors count as boot sectors, by the bytes in them |
| FormatLayout.JudgedBy | Seeed_Arduino_FS/src/fatfs/ff.c:5490-5530 | which cluster size or sub-type is tried next when a pass chose the size itself and the number of clusters does not fit |
| FormatLayout.DefaultLargeUnit | Seeed_Arduino_FS/src/fatfs/ff.c:5465-5469 | the cluster size FAT32 starts with grows with the volume, in powers of two up to 64 sectors |
| FormatLayout.AlignedAway | Seeed_Arduino_FS/src/fatfs/ff.c:5493-5503 | an erase block that pushes the data area to the end of the volume: a layout is committed to that cannot be mounted |
| FormatLayout.DefaultAlwaysFormats | Seeed_Arduino_FS/src/fatfs/ff.c:5461-5530 | left to choose by itself, without erase blocks, f_mkfs finds a layout for every volume of 128 sectors or more |
| BootSector.BuiltReads | Seeed_Arduino_FS/src/fatfs/ff.c:5536-5570 | a boot sector is recognised and its fields read back |
| BootSector.BuiltCarries | Seeed_Arduino_FS/src/fatfs/ff.c:5536-5570 | jump, names, media type, geometry, serial number and signatures of the boot sector are in their places |
| BootSector.AcceptedAlike | Seeed_Arduino_FS/src/fatfs/ff.c:3063-3119 | fields only FAT32 uses play no part in mounting FAT12 and FAT16 |
| Format.MbrPointsAt | Seeed_Arduino_FS/src/fatfs/ff.c:5635-5651 | the partition table is no boot sector itself and points at the volume |
| Format.MbrEntry | Seeed_Arduino_FS/src/fatfs/ff.c:5635-5651 | the one partition entry holds type, start and size, and the end cylinder modulo 1024 |
| Format.FormattedMounts | Seeed_Arduino_FS/src/fatfs/ff.c:2996-3153 | a formatted drive, with or without partition table, mounts as the volume that was laid out, if it has a cluster |
| Format.TryLayout | Seeed_Arduino_FS/src/fatfs/ff.c:5462-5489 | one pass of the retry loop, from the cluster size on |
| Format.PlaceLayout | Seeed_Arduino_FS/src/fatfs/ff.c:5490-5530 | the second half of a pass: alignment and the final checks |
| Format.ChooseLayout | Seeed_Arduino_FS/src/fatfs/ff.c:5461-5530 | the retry loop settles on what its last pass finds |
| Format.DecidedBy | Seeed_Arduino_FS/src/fatfs/ff.c:5248-5299 | which requests f_mkfs refuses, leaves to exFAT, or tries to lay out, and where and for which erase blocks it does |
| Format.TriedFirst | Seeed_Arduino_FS/src/fatfs/ff.c:5286-5297 | FAT16 is what is laid out first, if it is among what is asked for |
| Format.Drive.FindVolume | Seeed_Arduino_FS/src/fatfs/ff.c:2996-3153 | find_volume: which sector is taken as the boot sector, and what is made of it |
| Format.Drive.Clear | Seeed_Arduino_FS/src/fatfs/ff.c:5585-5611 | table and root directory are cleared whatever the size of the work buffer, and nothing else |
| FormatLayout.SettledAsAsked | Seeed_Arduino_FS/src/fatfs/ff.c:5461-5530 | the layout keeps the cluster size asked for, takes FAT32 only where the options allow it and keeps it if asked for |
| Format.Drive.Format | Seeed_Arduino_FS/src/fatfs/ff.c:5211-5658 | f_mkfs leaves a drive that mounts as laid out, backups included and no other sector changed, or leaves it alone; a cluster size and type asked for are kept; with default options and no erase blocks it is never refused for its layout |
| FreshVolume.GeometryIsValid | Seeed_Arduino_FS/src/fatfs/ff.c:3063-3110 | the mounted volume has the geometry all file operations rely on |
| FreshVolume.FreshTableIsSound | Seeed_Arduino_FS/src/fatfs/ff.c:5585-5603 | a fresh table is sound and all its clusters but the root directory's are free |
| FreshVolume.FirstEntries | Seeed_Arduino_FS/src/fatfs/ff.c:5585-5603 | the two entries that stand for no cluster hold the media type and an end mark |
| FreshVolume.FormattedIsFresh | Seeed_Arduino_FS/src/fatfs/ff.c:5572-5611 | a formatted drive is a sound volume with an empty root directory, on which a scan of the table counts right, and on FAT32 its hints are exact |
| FreshVolume.MountFresh | Seeed_Arduino_FS/src/fatfs/ff.c:3112-3133 | mounting it starts the file system with an exact free count |
| RingBuffer.QueueIsApart | esp-idf/components/app_trace/app_trace_util.c:89-155 | no byte of the storage is queued twice |
| RingBuffer.ProduceAppends | esp-idf/components/app_trace/app_trace_util.c:89-129 | a granted chunk lies in one piece behind everything queued and overlaps none of it; a refusal changes nothing |
| RingBuffer.ProduceIsRightIff | esp-idf/components/app_trace/app_trace_util.c:89-129 | with 32-bit sums a request is refused, or served inside the storage, exactly if the sum does not wrap or the branch taken does not form it |
| RingBuffer.GrantedIffRoom | esp-idf/components/app_trace/app_trace_util.c:89-129 | a request is granted exactly if a place for it, behind the writer or at the start, touches no queued byte and does not end on the reader, and then at such a place |
| RingBuffer.ConsumeIsRightIff | esp-idf/components/app_trace/app_trace_util.c:131-155 | consuming is refused, or served inside the storage, exactly if the 32-bit sum does not wrap |
| RingBuffer.ConsumeTakesOldest | esp-idf/components/app_trace/app_trace_util.c:131-155 | a chunk handed out is the oldest part of the queue and leaves the rest |
| RingBuffer.ReportedSizesAreGranted | esp-idf/components/app_trace/app_trace_util.c:157-184 | asking for the reported size to read, or a reported size to write that is not zero, always succeeds |
| RingBuffer.TwoReadsEmpty | esp-idf/components/app_trace/app_trace_util.c:131-168 | two reads of the reported size always empty the ring |
| RingBuffer.FullMeansFull | esp-idf/components/app_trace/app_trace_util.c:170-184 | a reported write size of zero means that all but one byte of the storage in use is queued |
| RingBuffer.RingBuf.Produce | esp-idf/components/app_trace/app_trace_util.c:89-129 | on the storage: the chunk becomes the end of the queue's contents, and what was queued keeps its bytes |
| RingBuffer.RingBuf.Consume | esp-idf/components/app_trace/app_trace_util.c:131-155 | on the storage: the chunk is the front of the queue's contents |
| TraceMembufs.SizeFitsIff | esp-idf/components/app_trace/app_trace_membufs_proto.c:222-253 | with the size passed in 16 bits wait4buf grants room in the block only where the packet fits, however full the block, exactly if the size is below 65536 |
| TraceMembufs.Membufs.constructor | esp-idf/components/app_trace/app_trace_membufs_proto.c:56-77 | the protocol starts with both blocks and rings empty |
| TraceMembufs.Membufs.DownWrite | esp-idf/components/app_trace/app_trace_membufs_proto.c:194-220 | host data goes into the ring in order, all of it unless the ring is full |
| TraceMembufs.Membufs.HostData | esp-idf/components/app_trace/app_trace_membufs_proto.c:98-114 | the data the host left in a block goes to the program as far as there is room, and its header is cleared so that it is not taken twice |
| TraceMembufs.Membufs.Pump | esp-idf/components/app_trace/app_trace_membufs_proto.c:116-134 | pending data moves into the block in order until one of the two is exhausted |
| TraceMembufs.Membufs.Swap | esp-idf/components/app_trace/app_trace_membufs_proto.c:80-140 | a swap hands the block to the host and loses nothing of the stream; a failed one changes nothing |
| TraceMembufs.Membufs.SwapWait | esp-idf/components/app_trace/app_trace_membufs_proto.c:142-153 | attempts are repeated until one succeeds or the time is up |
| TraceMembufs.Membufs.Wait4Buf | esp-idf/components/app_trace/app_trace_membufs_proto.c:222-259 | a packet that fits nowhere waits for a swap and is then placed behind everything traced; it is refused only if no swap succeeds or there is no room behind one either |
| TraceMembufs.Membufs.WritePacket | esp-idf/components/app_trace/app_trace_membufs_proto.c:261-348 | a traced packet comes last in the stream, whole, with both sizes in its header, or the stream is as before, and then the packet is too large, no swap succeeded or none made room |
| TraceMembufs.HostReadsPacket | esp-idf/components/app_trace/app_trace_membufs_proto.c:261-274 | a host that refuses packets whose two sizes differ gets the core and the payload of a packet back exactly if the payload is below 32768 bytes |
| TraceMembufs.LongPacketIsCut | esp-idf/components/app_trace/app_trace_membufs_proto.c:40-41 | of a longer one it gets the first part alone, as from core 1 |
| TraceMembufs.Membufs.Flush | esp-idf/components/app_trace/app_trace_membufs_proto.c:350-372 | a flush with size 0 ends and, if the swaps succeed, leaves block and ring empty |
| TraceMembufs.Membufs.DownGet | esp-idf/components/app_trace/app_trace_membufs_proto.c:155-186 | the program waits for data of the host, swapping blocks while there is none, and gets it in order, each byte once |
| TraceMembufs.Membufs.PerformAll | esp-idf/components/app_trace/app_trace_membufs_proto.c:80-372 | over every run of packets, swaps, flushes and reads: released, block and pending ring together are exactly the granted packets in order, and a host reads them as exactly the granted payloads with their cores |
| TraceMembufs.HostReadsTraced | esp-idf/components/app_trace/app_trace_membufs_proto.c:18-28 | the host reads what any run traced as the list of cores and payloads that were granted |
| TraceHost.ReadsOn | esp-idf/components/app_trace/app_trace_membufs_proto.c:18-28 | reading goes on behind a stream of whole packets as if it began there |
| BitStream.FieldReadsBack | esp-idf/tools/bsasm.py:786-797 | a field put into the stream reads back, cut to its width |
| BitStream.Bitstream.AddBits | esp-idf/tools/bsasm.py:786-797 | add_bits appends the bits of the value, lowest first, bit by bit and byte by byte |
| Bitscrambler.InputSelectsItsSource | esp-idf/tools/bsasm.py:335-420 | an accepted input selects what it names whenever the bits it asks for are set, with one exception: the LUT bit just behind the width selects another input |
| Bitscrambler.InputIsAccepted | esp-idf/tools/bsasm.py:335-420 | exactly which inputs are accepted, with and without relative addressing |
| Bitscrambler.ParseInputRange | esp-idf/tools/bsasm.py:462-513 | a range is accepted or refused by its two ends alone, and its inputs run from one to the other with the flags of both |
| Bitscrambler.RangeIsAllowed | esp-idf/tools/bsasm.py:462-489 | a range between two inputs of a kind is always accepted |
| Bitscrambler.RangeIsAllowedIff | esp-idf/tools/bsasm.py:462-489 | a range is accepted exactly between two inputs of a kind, or between the LUT output and one that can be selected beside it |
| Bitscrambler.RangeCoversItsSources | esp-idf/tools/bsasm.py:491-513 | every input of such a range is the one it stands for, with all the bits it needs |
| Bitscrambler.CompatibleMeansSatisfied | esp-idf/tools/bsasm.py:866-881 | if all pairs of inputs pass the check, the single rel_addr, ctrsel and lutsel emitted satisfy every input |
| Bitscrambler.IncompatibleMeansUnsatisfiable | esp-idf/tools/bsasm.py:424-439 | if any bits satisfy every input, all pairs pass the check |
| Bitscrambler.OpReadsBack | esp-idf/tools/bsasm.py:891-911 | an opcode reads back with all its fields if and only if its target is below 8 |
| Bitscrambler.InstReadsBack | esp-idf/tools/bsasm.py:857-922 | every mux selection, the opcode (adding 0 to counter A if none is given), the widths of both transfers and the three bits read back from an encoded instruction |
| Bitscrambler.UnusedLineIsLow | esp-idf/tools/bsasm.py:884-889 | a mux line the program does not name is fed the constant low |
| Bitscrambler.InstMeansItself | esp-idf/tools/bsasm.py:863-922 | each mux line of an encoded instruction is fed what the program names |
| Bitscrambler.EncodeMux | esp-idf/tools/bsasm.py:866-889 | the mux part is refused exactly if two inputs clash |
| Bitscrambler.EncodeInst | esp-idf/tools/bsasm.py:857-927 | an instruction is 257 bits padded to 36 bytes, refused exactly if two inputs clash |
| BitscramblerProgram.LabelPass | esp-idf/tools/bsasm.py:573-600 | a label gets the number of instructions before its last occurrence, and exactly the elements of meta-instructions are marked |
| BitscramblerProgram.InMetaIff | esp-idf/tools/bsasm.py:573-600 | an element belongs to a meta-instruction exactly if the first one joined to it does |
| BitscramblerProgram.InstructionPass | esp-idf/tools/bsasm.py:641-767 | elements are gathered into the instructions they belong to |
| BitscramblerProgram.LabelsAreIndexes | esp-idf/tools/bsasm.py:573-767 | a label's number is the place of the instruction completed next: the two passes count alike |
| BitscramblerProgram.PackLut | esp-idf/tools/bsasm.py:813-832 | the packed words hold every LUT entry in order, modulo its width, padded with zeros |
| BitscramblerProgram.EntryReadsBack | esp-idf/tools/bsasm.py:813-832 | an entry read out of the packed table is the one put in, modulo its width |
| BitscramblerProgram.TableReadsBack | esp-idf/tools/bsasm.py:813-832 | every entry of the table reads back modulo its width, zeros behind them |
| BitscramblerProgram.BinaryReadsBack | esp-idf/tools/bsasm.py:840-932 | version, revision, sizes and settings, every instruction and every LUT entry modulo its width read back from the bytes |
| BitscramblerProgram.InstsToBinary | esp-idf/tools/bsasm.py:808-932 | the binary is header, instructions and table in their places and reads back as the program; refused exactly for more than eight instructions, a header field over 16 bits, or clashing inputs |
| TaskOrder.MoveDependencies | esp-idf/tools/idf.py:609-629 | dependencies not yet queued come to the front, invoked with default options if they are nowhere; of repeated commands it is the last |
| TaskOrder.MoveOrderDependencies | esp-idf/tools/idf.py:632-635 | order dependencies that wait in the list come to the front |
| TaskOrder.Pass | esp-idf/tools/idf.py:603-643 | the front task is queued exactly if all its dependencies are and none of its order dependencies waits |
| TaskOrder.PassProgresses | esp-idf/tools/idf.py:602-643 | every pass keeps the order built so far and comes nearer to the end when there is no cycle |
| TaskOrder.OrderTasks | esp-idf/tools/idf.py:601-643 | the loop ends; exactly the commands needed are queued, each once, after all its dependencies and after the order dependencies the user gave |
| TaskRepeats.PassTurns | esp-idf/tools/idf.py:603-643 | a pass turns the waiting commands of a name round by one if its front command names it, queues the first of them, or leaves them alone |
| TaskRepeats.WhichRuns | esp-idf/tools/idf.py:602-643 | over any run: of the commands given under one name, which one is queued after so many turns |
| TaskRepeats.RepeatedCommand | esp-idf/tools/idf.py:563-565 | of a repeated command exactly one runs, the first exactly if the number of repetitions divides the number of turns, which is 0 exactly if no command given before the first leads to it |
| TaskRepeats.FirstRunsIffUnreached | esp-idf/tools/idf.py:563-565 | with more repetitions than commands that name it the first one runs exactly if no command given before it leads to it; with one such command it is otherwise the last |
| TaskRepeats.UnreachedNeverTurns | esp-idf/tools/idf.py:602-643 | a name no command given before leads to is never turned |
| TaskRepeats.NeverTurnedIsUnreached | esp-idf/tools/idf.py:602-643 | a name some command given before leads to is turned before it is queued |
| TaskRepeats.TurnersDiffer | esp-idf/tools/idf.py:602-643 | every command turns a name at most once |
| TaskRepeats.LastBuildRuns | esp-idf/tools/idf.py:563-565 | flash build build, pass by pass: the last build is queued, against the message |
| TaskRepeats.FirstOfTwoRuns | esp-idf/tools/idf.py:563-565 | with a second command in between that depends on it, too, the first one is queued after all |
| SplitArgv.Split | esp-idf/components/console/split_argv.c:33-112 | in place, the write pointer never overtakes the read pointer; the arguments returned are terminated strings equal to the pure splitting of the original line, NULL behind them, at most argv_size - 1 |
| SplitArgv.TakeCharacter | esp-idf/components/console/split_argv.c:44-101 | one character of the state machine on the line is one step of the pure splitter |
| SplitArgv.Feed | esp-idf/components/console/split_argv.c:51-94 | the five-state switch: next state, character put out, argument begun or ended |
| SplitArgv.PairContributes | esp-idf/components/console/split_argv.c:79-94 | inside an argument a backslash keeps the next character if it is a backslash, a quote or a space, and drops both otherwise; a quote inside a bare argument is kept |
| SplitArgv.LimitOnlyCuts | esp-idf/components/console/split_argv.c:44 | a smaller argv only cuts the list of arguments short |
| SplitArgv.PrintedSplitsBack | esp-idf/components/console/split_argv.c:33-112 | any list of arguments that fits, typed in quotes or bare with the special characters escaped, splits back to itself |
| PolyDivision.ChecksumIsLinear | Seeed_Arduino_FS/src/SD/sd_diskio_crc.c:52-103 | the remainder of a sum is the sum of the remainders |
| PolyDivision.BurstIsDetected | Seeed_Arduino_FS/src/SD/sd_diskio_crc.c:52-103 | messages that differ within as many places as the divisor has have different remainders |
| PolyDivision.AppendedGivesZero | Seeed_Arduino_FS/src/SD/sd_diskio_crc.c:52-103 | with the remainder appended the division leaves nothing |
| PolyDivision.NarrowByteStep | Seeed_Arduino_FS/src/SD/sd_diskio_crc.c:55-57 | the table step of CRC7 as a law of division |
| PolyDivision.WideByteStep | Seeed_Arduino_FS/src/SD/sd_diskio_crc.c:99-101 | the table step of CRC16 as a law of division |
| Crc.Table7Is | Seeed_Arduino_FS/src/SD/sd_diskio_crc.c:17-50 | every entry of the CRC7 table is the remainder of its index |
| Crc.Table16Is | Seeed_Arduino_FS/src/SD/sd_diskio_crc.c:61-94 | every entry of the CRC16 table is the remainder of its index |
| Crc.CRC7 | Seeed_Arduino_FS/src/SD/sd_diskio_crc.c:52-59 | the loop of CRC7 computes the checksum function |
| Crc.CRC16 | Seeed_Arduino_FS/src/SD/sd_diskio_crc.c:96-103 | the loop of CRC16 computes the checksum function |
| Crc.Crc7Of | Seeed_Arduino_FS/src/SD/sd_diskio_crc.c:52-59 | the table-driven CRC7 of a message is the remainder of its bits times x^7 by x^7 + x^3 + 1 |
| Crc.Crc16Of | Seeed_Arduino_FS/src/SD/sd_diskio_crc.c:96-103 | the table-driven CRC16 is the remainder of the bits times x^16 by x^16 + x^12 + x^5 + 1 |
| Crc.ChecksumsAreLinear | Seeed_Arduino_FS/src/SD/sd_diskio_crc.c:52-103 | both checksums are linear under exclusive or |
| Crc.AppendedCrc7GivesZero | Seeed_Arduino_FS/src/SD/sd_diskio_crc.c:52-59 | a message with its CRC7 shifted left by one behind it has CRC7 0 |
| Crc.AppendedCrc16GivesZero | Seeed_Arduino_FS/src/SD/sd_diskio_crc.c:96-103 | a message with its CRC16 behind it has CRC16 0 |
| Crc.BurstsAreDetected | Seeed_Arduino_FS/src/SD/sd_diskio_crc.c:52-103 | messages of the same length that differ in one burst of at most 7, or 16, bits have different CRC7, or CRC16 |
| HexTransfer.Send | main/main.c:302-323 | the device prints the status lines and the file in hexadecimal |
| HexTransfer.PiecePrinted | main/main.c:306-320 | it does so 1024 bytes at a time, with a line of progress every 64 KiB |
| HexTransfer.DecimalReads | main/main.c:298-322 | numbers are printed in decimal digits that read back, without a zero in front |
| HexTransfer.Receive | receive.py:16-28 | the host keeps the digits of the lines its filter lets through and decodes them |
| HexTransfer.LineEnds | receive.py:16-19 | a line ends at its first line break, or with the text |
| HexTransfer.DataKept | receive.py:18-23 | no line of data is dropped, and all of it is kept |
| HexTransfer.StatusLinesDropped | receive.py:18-20 | no status line contributes a digit |
| HexTransfer.TransferRoundTrip | receive.py:16-28 | whatever the file holds, the host gets exactly its bytes back |

## Left out

* exFAT, and what ffconf.h switches off: `_FS_LOCK`, `_FS_TINY`, `_FS_REENTRANT`, `_USE_TRIM`, `_USE_LABEL`, several partitions.
* Disk errors: every disk transfer succeeds, so the error returns that only they cause do not appear.
* `f_open` beyond its result, `f_close` beyond the `f_sync` it begins with, `f_truncate`, `f_rename`, `f_expand`, `f_forward` and the path functions: they would add members that combine the ones here. The contiguous search of `f_expand` does not reset its counter at the wrap-around, so no general claim is made for it.
* Several open handles on one file: one handle is open, other files are the chains it does not own.
* Fields of the short directory entry beyond name, attribute, case flags, first cluster, size and time of change, and the conversion between code page and Unicode; upper-casing is a given function that maps only 0 to 0.
- LfnDirectory.Directory.Alloc: works on the slots as a sequence and on a number of free clusters; `DirTable` shows that dir_next does the same to the sectors of a directory with a cluster chain, which the fixed root directory of FAT12 and FAT16 has not.
- LfnDirectory.Directory.NumberedName: which short name number n gives (`gen_numname`) is a parameter.
- LfnEntries.PutLfn: names hold neither 0 nor 0xFFFF, which the name parser never lets in with a single-byte code page.
- FatFile.File.Seek: the bytes a seek beyond the end of the file adds are whatever the clusters held, as in the code.
- FatFile.File.ServeAll: a link map that is set covers the whole file, which is not empty; for shorter maps there are the contracts of Write, Read and Seek.
- FatFile.File.Write: no entry of the table is 1, a value on which the code stops with FR_INT_ERR; a sound table holds none (`SoundHasNoOnes`).
- FatFile.File.Sync: the time stamp is a parameter; nothing is promised for a volume that keeps hints in the first sector of its table, where syncing damages the table (`HintsOnTheTable`).
- FatFile.File.ServeAllAndSync: as for Sync.
- FatFile.File.WriteCluster: no entry of the table is 1, as for Write.
- FatFile.File.Read: returns the bytes instead of filling the caller's buffer.
- FatFs.FileSystem.SyncFs: the flag values of `fsi_flag` are two booleans, and a volume that keeps no hints has bit 7 set in it.
- Format.Drive.Format: the volume serial number is a parameter, the work buffer counts in sectors, and the drive has fewer than 2^32 sectors; an exFAT choice is reported, not carried out.
- FreshVolume.FormattedIsFresh: a drive of 2^32 - 1 sectors, one more than the number the window uses for "none", is left out.
* Masks and shifts by powers of two in ff.c are written as division and remainder; cluster and sector sizes are the powers of two the mount code admits.
- TraceMembufs.Membufs.WritePacket: getting a chunk, filling it and putting it is one step, since the code itself marks a swap in between as unsolved; blocks are below 65536 bytes.
- TraceMembufs.HostReadsPacket: the host is the reader the comment on the header describes; the host's own program is not part of the repository.
- TraceMembufs.Membufs.Swap: whether a hardware swap succeeds and what the host left in the block are parameters; locks and timers are left out, a time-out is the end of the list of attempts.
- RingBuffer.RingBuf.Produce: the initialisation is in a header that is not part of this model; both offsets start at 0 and the whole storage is in use.
- Bitscrambler.InstMeansItself: the text of inputs and operations is parsed outside this model; inputs are named by what they mean.
- BitscramblerProgram.InstructionPass: gathers the elements of instructions and leaves their parsing out.
- TaskOrder.OrderTasks: ends for commands without a cycle among what may be needed; running the queue, option checks and aliases are left out.
- SplitArgv.Split: argv has room for at least one pointer, without which the code writes behind it.
- Crc.CRC7: bytes are unsigned, as they are on the platforms of the driver; with signed ones the index would be negative.
- HexTransfer.Send: the file can be opened and read, and the text of the percentage is a parameter without line breaks.
* The SD and camera drivers, the Arduino wrappers, `diskio.c`, the rest of idf.py and the download tools: hardware, input and output, or plumbing.
