# Verified model of the BeagleBone Black kernel's core

A Dafny model of the parts of this bare-metal ARM kernel and bootloader that hold state, loops or
recursion, with proofs about whole runs and about every input. `dafny verify dfyconfig.toml` checks
everything.

What is modelled, file by file:

- `Fat32Volume`, `Fat32File`, `Fat32Content`, `Fat32Path`, `Fat32Names`, `Fat32Directory`, `Fat32Open`
  (`os/fs/fat32.c`): the FAT32 read path. A disk is a function from sector number to an optional 512-byte
  sector, so any sector may be unreadable and the FAT may hold any bytes. What a file position yields (a
  byte, or the reason there is none) is a function of the disk, `fat32_read` is proved to deliver the
  longest run of positions that yield bytes, on every disk, and on an intact chain any sequence of reads and
  seeks is a cursor over the concatenated clusters.
- `Levenshtein` (`boot/bootloader.c`): the edit distance, shown to be the least number of single-character
  edits and a metric.
- `FrameAllocator`, `PageTables`, `KernelMemory` (`os/mmu/mmu.c`, `boot/bootloader.c`): the intrusive free
  list of frames over every run of allocations and frees, and the translation of every 32-bit address.
- `RingBuffers`, `Uart`, `NumberPrinter` (`common/circular_buffer.c`, `os/drivers/uart.c`): the rings, line
  reading while characters keep arriving, and the number printer.
- `Scheduler`, `ContextSwitch` (`os/scheduler/`, `os/interrupts/interrupt_handlers.S`): round robin over every
  run of yields, and what each process finds in its registers when it is resumed.
- `Motor` (`os/drivers/motor.c`), `IrqDispatch`, `Bits` (`qemu/os/interrupts/interrupt.c`): the H-bridge
  interlock at every single GPIO write, and the scan of pending interrupt words.
- `Words`, `Options`: fixed-width words with explicit wrap-around, and small result types.

Operations that change state in the sources are classes and methods here, each proved against a
specification function; the laws are lemmas about those functions.

Places where a property one would expect does not hold of the code, each with the exact condition under
which it does:

- A failing `fat32_read` leaves the offset unchanged, and a successful one returns the number of bytes it
  delivered. On every file, at every offset and for every size this holds exactly unless the clusters the walk
  meets from the offset on leave the volume inside the request, with everything before readable, or 2^31 bytes
  are requested and readable (`Fat32Content.HonestExactly`, `Fat32Content.LostCountExactly`). So with a chain
  inside the volume and long enough for the file it holds for sizes from 0 up, whatever data sectors fail
  (`Fat32Content.SoundChainHonest`). It fails for reads over readable clusters that cross the end of a chain that
  leaves the volume, be it the file's own or, further on, a foreign one (`Fat32Content.SegmentLoses`, with concrete
  volumes in `Fat32Content.ShortChainExample` and `Fat32Content.ForeignLossExample`).
- The bytes of a file come from its own chain exactly for the positions before the chain ends
  (`Fat32Content.ChainRange`). After an end marker bytes are delivered exactly on volumes so large that the marker is
  a cluster number, and from that cluster only (`Fat32Content.PastEndMarker`,
  `Fat32Content.PastEndMarkerExample`). An error code is followed like a cluster number, so further on bytes of
  another chain can be delivered with a positive count (`Fat32Content.ForeignBytesExample`).
- Two clusters never share a FAT entry exactly on volumes of at most 2^30 clusters
  (`Fat32Volume.FatEntriesDistinct`, `Fat32Volume.SharedEntryExample`).
- A directory lookup follows the directory's chain exactly at links below 256, because it reads one byte of a FAT
  entry (`Fat32Directory.DirectoryLinkExact`); it does not see the end of a chain
  (`Fat32Directory.EndMarkerMissed`), and it returns exactly if 257 clusters decide it
  (`Fat32Directory.LookUpSettles`, `Fat32Directory.EndlessExample`).
- The clusters the driver accepts stay inside the volume exactly when the volume is at least as large as its
  metadata, or the wrapped cluster count leaves no cluster at all (`Fat32Volume.GeometrySound`,
  `Fat32Volume.UndersizedExample`).
- A path without leading slash gives its components back exactly when it does not begin with a dot
  (`Fat32Path.ParseJoin`, `Fat32Path.DottedExample`).
- `uart_readline` stays inside the caller's array exactly if the size given is no more than its length, and not 0,
  or a newline comes early enough; the motor task gives 100 for 10 bytes (`Uart.LineFits`, `Uart.OverrunExample`).
- `print_number`'s 32-byte buffer suffices exactly for bases from 3 up, or in base 2 for numbers that are not
  negative (`NumberPrinter.FitsBuffer`, `NumberPrinter.BinaryExample`).
- A yield brings r0 and r1 back exchanged, so all of r0 to r12 survive exactly if r0 and r1 were equal
  (`ContextSwitch.ResumedRegisters`, `ContextSwitch.ExchangeExample`).
- Each switch leaves the scheduler's frame and one word more on the OS stack, so a run of yields passes the end of
  any stack (`ContextSwitch.OsStackExhausted`).
- The status word `process_create` sets does not survive its own clearing loop (`Scheduler.InitialWords`).
- The kernel window stays inside physical memory exactly while the kernel has at most 512 sections
  (`PageTables.KernelWindowInDram`).
- `motor_init` leaves the port showing the motor states exactly if both motors were stopped
  (`Motor.Driver.Init`).
- Frames reserved for the kernel are never handed out to clients that free only what they hold
  (`FrameAllocator.NeverHandsOutReserved`); a client that frees a frame it does not hold gets it next
  (`FrameAllocator.FreedIsHandedOutNext`).

Where a comment and the code differ the model follows the code: `os/drivers/motor.h` lines 19-22 give forward as
second pin high, `motors_start` drives the first.

Parameters stand for what the code cannot control: the disk, the characters that arrive between two pops of a
line read, the registers a process has when it yields, what the C code of the scheduler leaves in registers
and takes from the stack, what uninitialised memory holds, and the pending words of the interrupt controller.

## Model

| member | source | states |
|---|---|---|
| Levenshtein.Min3 | boot/bootloader.c:99-106 | the result is a lower bound of the three arguments and one of them |
| Levenshtein.FullRecurrence | boot/bootloader.c:118-131 | the shortcut for equal last characters agrees everywhere with always taking the three-way minimum |
| Levenshtein.LengthBounds | boot/bootloader.c:111-116 | the distance lies between the difference and the maximum of the two lengths |
| Levenshtein.Triangle | boot/bootloader.c:108-132 | the distance satisfies the triangle inequality for all prefixes of all strings |
| Levenshtein.LevenshteinIsMetric | boot/bootloader.c:108-132 | zero exactly for equal strings, symmetric, triangle inequality, length bounds |
| Levenshtein.PathCostsAtLeast | boot/bootloader.c:124-131 | no sequence of single-character insertions, deletions and substitutions at any positions is shorter than the distance |
| Levenshtein.CheapestPath | boot/bootloader.c:108-132 | some such sequence has exactly the length of the distance |
| Levenshtein.LevenshteinIsMinimalEditCost | boot/bootloader.c:108-132 | the distance is the minimum cost over all edit scripts |
| Fat32Volume.StoredLink | os/fs/fat32.c:519-567 | a stored little-endian FAT entry links by its low 28 bits; end-of-chain, bad and reserved values are told apart, the top four bits ignored |
| Fat32Volume.GetClusterAtIndex | os/fs/fat32.c:569-600 | the loop yields the link function applied index times, the corruption error exactly if an end marker is met before the last step, the parameter error exactly for start clusters up to 2 |
| Fat32Volume.WalkFrom | os/fs/fat32.c:582-596 | a walk that goes on after reaching any number fails exactly at an end marker and otherwise does what a walk from that number does, so an error code is followed like a cluster |
| Fat32Volume.ClusterSectorExact | os/fs/fat32.c:830-837 | on a sound 31-bit volume an accepted cluster's first sector is exact, without wrap-around, and all its sectors lie between the first data sector and the end of the volume |
| Fat32Volume.AcceptedExactly | os/fs/fat32.c:830-837 | on a sound 31-bit volume a cluster number is given a sector if and only if it is one of those the data region has room for, counted from 2; others get -13 |
| Fat32Volume.MountedVolume | os/fs/fat32.c:879-908 | what a mounted volume takes from the boot sector: root cluster, sectors per cluster, FATs behind the reserved sectors, data behind the FATs, the 16-bit sector count before the 32-bit one |
| Fat32Volume.GeometrySound | os/fs/fat32.c:879-908 | all accepted clusters lie inside the volume if and only if the volume covers its metadata or the cluster count wraps to nothing |
| Fat32Volume.UndersizedVolume | os/fs/fat32.c:904-906 | a volume smaller than its metadata accepts cluster 2 past its own end, except when the count wraps to nothing |
| Fat32Volume.UndersizedExample | os/fs/fat32.c:904-906 | a concrete volume with accepted clusters outside it |
| Fat32Volume.ClustersDisjoint | os/fs/fat32.c:830-837 | distinct accepted clusters share no sector |
| Fat32Volume.SamePlace | os/fs/fat32.c:529-535 | two cluster numbers have the same FAT entry if and only if they are equal modulo 2^30, because the multiplication by four wraps |
| Fat32Volume.FatCoversClusters | os/fs/fat32.c:529-535 | the entries of all accepted clusters lie in the first FAT if and only if it has room for every cluster number, for 2^30 entries, or there are no clusters |
| Fat32Volume.FirstFatBeforeData | os/fs/fat32.c:879-908 | the first FAT ends before the data region if and only if the volume has a FAT or FATs of no sectors |
| Fat32Volume.FatEntriesDistinct | os/fs/fat32.c:529-535 | no two accepted clusters share a FAT entry if and only if there are at most 2^30 clusters |
| Fat32Volume.SharedEntryExample | os/fs/fat32.c:530 | a volume with a FAT large enough for all its clusters on which clusters 2 and 2^30 + 2 share an entry |
| Fat32File.File.CopyFromSector | os/fs/fat32.c:332-336 | the copy loop moves exactly the requested bytes and leaves the rest of the buffer alone |
| Fat32File.File.ReadFromSector | os/fs/fat32.c:321-336 | one sector is read and what is wanted of it copied; nothing is written if it is unreadable |
| Fat32File.File.ReadFromCluster | os/fs/fat32.c:308-352 | the sector loop delivers the bytes of the cluster up to the request or the first unreadable sector; the exhausted-cluster break happens only with nothing left to read |
| Fat32File.ViewInCluster | os/fs/fat32.c:286-310 | every file position is reached by the walk to its cluster and its offset in it |
| Fat32File.File.LocateCluster | os/fs/fat32.c:286-310 | the cluster, first sector and offset of the current position, or the fault there; all positions of the cluster have that cluster as their home and the next cluster begins after them |
| Fat32File.File.ReadNextCluster | os/fs/fat32.c:279-355 | one round of the outer loop delivers correct bytes and either makes progress, recording the cluster of the last byte, or reports the fault at the position reached and records nothing |
| Fat32File.File.ReadBytes | os/fs/fat32.c:279-368 | the outer loop terminates having delivered all bytes asked for, or all bytes before the first fault |
| Fat32File.File.Read | os/fs/fat32.c:247-369 | on every disk: bytes delivered, offset and return value are those of the longest readable run of at most min(size, file_size - offset) positions; the rest of the buffer is untouched; current_cluster becomes the cluster of the last byte of the last cluster read without fault, else it stays |
| Fat32File.File.Seek | os/fs/fat32.c:473-487 | offsets up to the file size are accepted, others refused without effect |
| Fat32Content.ReadHonest | os/fs/fat32.c:290-325 | counts are honest and errors clean if and only if no position strictly inside the request, with everything before it readable, leads to a number outside the volume, and it is not the case that 2^31 bytes are requested and readable |
| Fat32Content.OnlySectorsFail | os/fs/fat32.c:286-325 | on a chain of clusters inside the volume nothing but a data sector can fail |
| Fat32Content.SoundChainHonest | os/fs/fat32.c:247-369 | with a chain inside the volume and long enough for the file, every call with size >= 0 returns an honest count or a clean error whatever data sectors fail; for negative sizes exactly unless 2^31 bytes are requested and readable |
| Fat32Content.SegmentLoses | os/fs/fat32.c:303-305 | for any clusters inside the volume that the walk meets one after the other from any index on, whatever chain they belong to, with a number outside the volume after them (end marker, bad or reserved entry, unreadable FAT sector, link out of range): a read that begins among them loses its count if and only if it crosses their end and everything before the end is readable |
| Fat32Content.LostCountExactly | os/fs/fat32.c:279-305 | on every file, wherever it starts, and at every offset: a count is lost if and only if the clusters the walk meets from the offset on leave the volume inside the request with everything before readable |
| Fat32Content.HonestExactly | os/fs/fat32.c:247-369 | on every file, at every offset and for every size: counts are honest and errors clean if and only if that does not happen and 2^31 bytes are not requested and readable |
| Fat32Content.LostCountOutcome | os/fs/fat32.c:303-305 | a read that loses its count delivers the bytes up to the end of the segment and moves the offset there, but returns the invalid-cluster error |
| Fat32Content.EndInVolumeHonest | os/fs/fat32.c:586-598 | on volumes so large that the end marker is an accepted cluster number, a chain it ends never loses a count |
| Fat32Content.SoundOrBroken | os/fs/fat32.c:569-600 | every file that starts in the volume has a chain inside the volume of any given length, or a shorter one after which the FAT gives the end marker or a number outside the volume |
| Fat32Content.ViewCodesNegative | os/fs/fat32.c:290-305 | every error code a read can pass on is negative, so it cannot be taken for a count |
| Fat32Content.FaultAtOnce | os/fs/fat32.c:290-325 | a read that meets a fault at its first position delivers nothing and returns -1 for a data sector, else the code of the walk or cluster |
| Fat32Content.LowStartRefused | os/fs/fat32.c:576-579 | files whose first cluster is at most 2 yield -4 at every position, and no others yield a walk error at their first |
| Fat32Content.SplitRead | os/fs/fat32.c:263-277 | reading a and then b bytes delivers what one read of a + b delivers and ends at the same offset, on any disk |
| Fat32Content.AnySplitDeliversTheSame | os/fs/fat32.c:247-369 | any way of cutting a read into pieces delivers the same bytes |
| Fat32Content.ViewIsChainData | os/fs/fat32.c:286-310 | on an intact chain position p yields byte p of the concatenated clusters |
| Fat32Content.IntactFileHolds | os/fs/fat32.c:272-277 | an intact, long enough chain is the file: its first file_size bytes |
| Fat32Content.IntactRead | os/fs/fat32.c:247-369 | a read of an intact file returns min(size, file_size - offset), exactly those bytes, and advances by as much |
| Fat32Content.DriverRefinesCursor | os/fs/fat32.c:473-487 | any sequence of reads and seeks returns what a cursor over one byte sequence returns |
| Fat32Content.IntactFileIsCursor | os/fs/fat32.c:247-369 | end to end: a handle on an intact chain is a cursor over the concatenated clusters |
| Fat32Content.ChainRange | os/fs/fat32.c:569-600 | exactly the positions before the end of a chain are answered from the chain; the next cluster is sought at whatever number the FAT gives there, end marker and error codes included, and what lies beyond is decided by the FAT entry of that number |
| Fat32Content.PastEndMarker | os/fs/fat32.c:586-598 | after an end marker a position yields a byte if and only if it lies in the first cluster past the chain, the volume accepts the marker as a cluster number, and the sector there is readable |
| Fat32Content.PastEndMarkerExample | os/fs/fat32.c:586-598 | a volume of 2^29 sectors on which a read past the end marker returns a positive count of bytes |
| Fat32Content.ForeignBytesExample | os/fs/fat32.c:555-567 | past a cluster marked bad a read returns the bytes of a cluster of another chain with a positive count |
| Fat32Content.ForeignLossExample | os/fs/fat32.c:303-305 | a read that begins past the end of its own chain delivers a foreign cluster, moves the offset and returns the error |
| Fat32Content.ShortChainExample | os/fs/fat32.c:586-595 | a concrete short chain: 512 bytes delivered, offset moved, error returned |
| Fat32Path.AddComponent | os/fs/fat32.c:710-721 | a piece is stored exactly if it is not empty, shorter than 64 and one of 16 slots is left |
| Fat32Path.ScanCharacter | os/fs/fat32.c:704-724 | one step of the scan keeps the pieces done so far equal to the split of the text before the current piece |
| Fat32Path.ParsePath | os/fs/fat32.c:690-726 | the scan equals: drop one leading dot, split at slashes, keep pieces of length 1 to 63, take the first 16 |
| Fat32Path.SplitAt | os/fs/fat32.c:704-724 | splitting distributes over a slash |
| Fat32Path.ParseJoin | os/fs/fat32.c:697-702 | parsing joined legal components returns them if and only if the path does not begin with a dot |
| Fat32Path.DotLost | os/fs/fat32.c:697-702 | a path that begins with a dot parses as if its first component had lost the dot, and the component is gone if it was only the dot |
| Fat32Path.DottedExample | os/fs/fat32.c:697-702 | ".config" parses as "config" |
| Fat32Path.FirstSixteen | os/fs/fat32.c:710-721 | of any number of slash-free components of 1 to 63 characters behind a slash the first 16 are returned |
| Fat32Path.ComponentLength | os/fs/fat32.c:710-721 | a single component is returned if and only if it has 1 to 63 characters |
| Fat32Path.ParseAbsolute | os/fs/fat32.c:690-726 | with a leading slash joined legal components always come back |
| Fat32Names.FormatName | os/fs/fat32.c:644-687 | the two loops store base and extension in upper case, cut and padded to 8 and 3 |
| Fat32Names.UpperLetters | os/fs/fat32.c:30-37 | each small letter becomes its own capital, written out; every other character stays |
| Fat32Names.SameIgnoringCase | os/fs/fat32.c:30-37 | two characters are stored alike if and only if they are equal or the two cases of one letter |
| Fat32Names.FormatInvertible | os/fs/fat32.c:644-687 | a legal 8.3 name can be read back from its stored form, up to letter case |
| Fat32Names.CapitalsComeBack | os/fs/fat32.c:644-687 | a legal name without small letters is displayed as itself |
| Fat32Names.KernelExample | os/fs/fat32.c:644-687 | "kernel.bin" is stored as "KERNEL  BIN" |
| Fat32Names.SameStoredName | os/fs/fat32.c:644-687 | two legal names are stored alike if and only if they are equal ignoring case |
| Fat32Directory.DecodeStored | os/fs/fat32.c:794-799 | first cluster and size are read back as the directory format stores them |
| Fat32Directory.ScanSector | os/fs/fat32.c:773-812 | the entry loop agrees with the lookup specification on the sixteen entries of a sector |
| Fat32Directory.ScanCluster | os/fs/fat32.c:763-813 | the sector loop agrees with one scan over the entries of the cluster, an unreadable sector included |
| Fat32Directory.FollowChain | os/fs/fat32.c:760-825 | the loop over clusters agrees with the lookup specification, the end-marker guard before the first cluster included |
| Fat32Directory.MarkerDirectory | os/fs/fat32.c:760-761 | a directory that begins at 0x0FFFFFFF has no entry |
| Fat32Directory.ReadDirEntry | os/fs/fat32.c:728-828 | every call that returns gives the answer of the lookup specification for the formatted name, on every disk and for every cluster number |
| Fat32Directory.DirectoryLinkExact | os/fs/fat32.c:602-642 | the directory walk takes the link the FAT holds if and only if that link is below 256, because only the first byte of an entry is read |
| Fat32Directory.EndMarkerMissed | os/fs/fat32.c:627-635 | the end of a directory chain is taken for one of the clusters 248 to 255 |
| Fat32Directory.LookUpSettles | os/fs/fat32.c:760-825 | a lookup is decided within 257 clusters or never returns |
| Fat32Directory.LookUpFollowsChain | os/fs/fat32.c:760-825 | on a directory chain of any length with links below 256 the lookup equals one scan over the concatenated clusters, provided that scan is decided |
| Fat32Directory.EndlessExample | os/fs/fat32.c:784-787 | a concrete volume on which no lookup in a directory returns |
| Fat32Directory.EntriesAreClusterData | os/fs/fat32.c:743-778 | the entries a lookup compares in a readable cluster are the cluster's own bytes, 32 at a time and in order |
| Fat32Directory.EntryMissing | os/fs/fat32.c:763-771 | in any accepted cluster an entry is missing if and only if its own sector cannot be read |
| Fat32Directory.RootDirectory | os/fs/fat32.c:741-746 | on a mounted volume the first lookup reads the boot sector's root cluster, at its place behind the FATs |
| Fat32Directory.ScanFindsEarliest | os/fs/fat32.c:773-812 | a scan finds an entry if and only if it is the earliest one whose first byte is neither 0 nor 0xE5 and whose eleven name bytes spell the name, all before it readable and no zero byte first |
| Fat32Directory.ScanFailsExactly | os/fs/fat32.c:763-812 | a scan without a match ends at an end mark, at an unreadable entry or undecided, each if and only if all entries before are passed over |
| Fat32Directory.NamesFindSameEntry | os/fs/fat32.c:755-825 | in any directory legal names equal ignoring case get the same answer, and names that find the same entry are equal ignoring case |
| Fat32Open.Open | os/fs/fat32.c:197-245 | every call that returns follows the parsed components from the root directory, with the error the source returns for each failure and every field of the handle on success; a path without components goes on through what memory holds from the component table on |
| Fat32Open.OpenedExactly | os/fs/fat32.c:212-244 | a handle is returned if and only if there are directories, the root first, in each of which one name is found by an entry that begins at the next, the last name by an entry without the directory bit; the handle has that entry's cluster and size, its directory as parent, offset 0 and the stored name |
| Fat32Open.OpenFailsExactly | os/fs/fat32.c:214-234 | is-a-directory, no-file and no-path are returned if and only if the descent ends at a directory, misses the last name, or misses an earlier one; the call never returns if and only if a lookup on the way does not |
| Fat32Open.AbsolutePathNames | os/fs/fat32.c:209-225 | an absolute path of legal components is looked up component by component |
| Fat32Open.StaleNames | os/fs/fat32.c:214-225 | without components the names are the 2^32 that memory holds from the component table on, the last one from in front of it |
| Fat32Open.HandleFoundInParent | os/fs/fat32.c:236-242 | the name in an opened handle, looked up again in the directory the handle records as parent, gives the entry the handle was made from, and that is not a directory |
| Fat32Open.OpenedFileIsCursor | os/fs/fat32.c:236-241 | from path to bytes: on a handle opened on an intact, long enough chain any sequence of reads and seeks is a cursor over the concatenated clusters, from offset 0 |
| Fat32Open.OpenIgnoresCase | os/fs/fat32.c:209-242 | two absolute paths of legal names that differ only in letter case give the same handle or the same error |
| FrameAllocator.Allocator.Init | os/mmu/mmu.c:377-394 | initialisation threads exactly the slots from mapped_sections to 511 without the boot page table, last first |
| FrameAllocator.Allocator.AllocFrame | os/mmu/mmu.c:396-405 | allocation pops the head of the free list, 0 if it is empty |
| FrameAllocator.Allocator.OnFreeList | os/mmu/mmu.c:423-433 | the double-free scan terminates and finds an address exactly if it is on the list |
| FrameAllocator.Allocator.FreeFrame | os/mmu/mmu.c:407-445 | a free is refused for unaligned, out-of-range or already free addresses with the matching message, else pushed; the list stays acyclic, each node the slot of its address |
| FrameAllocator.RunKeepsValid | os/mmu/mmu.c:396-445 | over every run the free list is free of duplicates and holds only frame addresses |
| FrameAllocator.NeverHandedOutTwice | os/mmu/mmu.c:396-445 | whatever clients free, no address is returned twice without a free of it in between |
| FrameAllocator.HandedOutWasFree | os/mmu/mmu.c:396-445 | an address handed out was free initially or was freed by a client |
| FrameAllocator.FreedIsHandedOutNext | os/mmu/mmu.c:435-442 | a frame freed without being held is the next one handed out |
| FrameAllocator.DisciplinedRun | os/mmu/mmu.c:396-445 | if clients free only what they hold, free and held frames always partition the managed ones, every free is accepted, and allocation fails if and only if all are held |
| FrameAllocator.InitialPartition | os/mmu/mmu.c:378-394 | after initialisation the free list is exactly the managed frames |
| FrameAllocator.ManagedExactly | os/mmu/mmu.c:381-388 | the managed frames are the megabytes from 0x80000000 plus the mapped ones up to 0xA0000000, without 0x90000000 |
| FrameAllocator.FreeExactly | os/mmu/mmu.c:407-442 | a free is accepted if and only if the address is a megabyte of physical memory not free already; refused ones change nothing |
| FrameAllocator.NeverHandsOutReserved | os/mmu/mmu.c:381-388 | disciplined clients never receive a kernel section or the boot page table, only megabytes of physical memory behind the mapped ones |
| PageTables.DescriptorDecodes | os/mmu/mmu.c:46-47 | a descriptor of an aligned base and attribute bits is a section with that base |
| PageTables.Mmu.Clear | os/mmu/mmu.c:16-24 | all 4096 entries become zero |
| PageTables.Mmu.MapSection | os/mmu/mmu.c:33-48 | unaligned addresses change nothing, else exactly one entry is written |
| PageTables.Mmu.MapRange | os/mmu/mmu.c:177-222 | a mapping loop writes exactly the entries of its range |
| PageTables.Mmu.MapSinglePages | os/mmu/mmu.c:159-175 | the single mappings write exactly their six entries |
| PageTables.Mmu.MapHardwarePages | os/mmu/mmu.c:154-222 | no mapping loop disturbs another: every identity section has its descriptor, the rest is untouched |
| PageTables.Mmu.Boot | boot/bootloader.c:227-239 | MMU_init and the kernel loop leave exactly the boot table |
| PageTables.Mmu.CopyTo | os/mmu/mmu.c:359-367 | the copied table equals the boot table |
| PageTables.BootTranslation | os/mmu/mmu.c:154-222 | every 32-bit address: itself in seven ranges given by address, va - 0x20000000 in the kernel window, a fault elsewhere |
| PageTables.BootAttributes | os/mmu/mmu.c:159-222 | the low twenty bits of every mapped entry, by address range |
| PageTables.KernelWindowInDram | boot/bootloader.c:230-239 | the kernel window maps into physical memory if and only if there are at most 512 kernel sections |
| KernelMemory.KernelWindowNeverHandedOut | boot/bootloader.c:230-254 | no frame the allocator hands out to disciplined clients lies under the kernel window |
| RingBuffers.PointerRing.Push | common/circular_buffer.c:53-64 | appends to a FIFO of capacity 512, refuses when full |
| RingBuffers.PointerRing.Pop | common/circular_buffer.c:66-77 | removes the oldest element, reports an empty ring |
| RingBuffers.CharRing.Push | common/circular_buffer.c:12-27 | the same on characters, the line count staying the number of newlines held |
| RingBuffers.CharRing.Pop | common/circular_buffer.c:29-44 | the same on characters, the line count staying the number of newlines held |
| Uart.HandleReceive | os/drivers/uart.c:369-389 | a received character is queued with carriage return turned into newline, or dropped when the ring is full |
| Uart.HandleBurst | os/drivers/uart.c:399-419 | a burst of interrupts queues the characters in order |
| Uart.HistoryConserved | common/circular_buffer.c:12-44 | over any interleaving of arrivals and pops, what was popped followed by what is held is what was accepted |
| Uart.HistoryTranslated | os/drivers/uart.c:374-383 | over any interleaving of arrivals and pops the queue accepts exactly the characters that find room: byte 10 where 10 or 13 arrived, never 13, all others as they came |
| Uart.BurstQueued | os/drivers/uart.c:374-383 | a burst that fits is queued whole behind what is queued, translated character by character; a full queue takes nothing |
| Uart.BurstLines | common/circular_buffer.c:12-27 | a burst that fits raises the line count by the number of bytes 10 and 13 in it |
| Uart.LinesAreTens | common/circular_buffer.c:12-44 | the line count is the number of bytes 10 in the queue |
| Uart.EnterEndsLine | os/drivers/uart.c:449-468 | after a burst that fits and ends with byte 13 a line is available and a read of size 2 or more returns at least one character |
| Uart.TypedLine | os/drivers/uart.c:374-468 | text typed on an empty queue and ended with byte 13 is the next line, ended by byte 10 |
| Uart.LineLengthExact | os/drivers/uart.c:454-468 | the line returned has no newline before its end and ends at a newline, the limit or the queue; with a newline queued not at the queue's end |
| Uart.LineFits | os/drivers/uart.c:454-469 | the line and its final zero stay inside an array if and only if the limit is below its length or a newline comes early enough |
| Uart.OverrunExample | os/scheduler/scheduler.c:81-90 | size 100 on an array of 10 bytes: any ten queued characters without a newline, with a line behind, run over the end |
| Uart.ArrivalsDoNotDisturb | os/drivers/uart.c:454-468 | whatever arrives during a read, the characters queued first are popped first |
| Uart.GetCharAfter | os/drivers/uart.c:423-435 | one pop after a burst of interrupts |
| Uart.StoreNext | os/drivers/uart.c:456-463 | with a line queued each round stores the next queued character; the empty-queue branch is never taken |
| Uart.DrainLine | os/drivers/uart.c:454-468 | the loop stores exactly the queue prefix up to the first newline or the limit, independent of arrivals |
| Uart.ReadLine | os/drivers/uart.c:437-471 | invalid index or no line: nothing happens and 0 is returned; else the line, zero-terminated, in the memory from the pointer on, nothing else written, and the queue left behind |
| NumberPrinter.StoreDigits | os/drivers/uart.c:499-504 | the conversion loop stores the digits least significant first |
| NumberPrinter.ReverseInPlace | os/drivers/uart.c:513-519 | the two-pointer loop leaves exactly the reversed characters |
| NumberPrinter.Puts | os/drivers/uart.c:332-338 | the characters up to the first zero are sent |
| NumberPrinter.PrintNumber | os/drivers/uart.c:473-522 | the output is the sign and reversed digits of the magnitude, never exceeding the buffer |
| NumberPrinter.LowDigitsValue | os/drivers/uart.c:499-519 | the reversed digits evaluate to the number and have no leading zero |
| NumberPrinter.FitsBuffer | os/drivers/uart.c:475-511 | the text fits 32 bytes if and only if the base is at least 3 or the number is not negative |
| NumberPrinter.BinaryExample | os/drivers/uart.c:475-511 | minus one in base two does not fit |
| NumberPrinter.PrintedRoundTrip | os/drivers/uart.c:473-522 | the output parses back to the number in signed decimal, to the number modulo 2^32 otherwise |
| NumberPrinter.SignedExample | os/drivers/uart.c:473-522 | -255 in signed decimal is "-255" |
| NumberPrinter.HexExample | os/drivers/uart.c:473-522 | 48879 in base 16 is "beef" |
| Scheduler.InitialWords | os/scheduler/scheduler.c:300-321 | the first words of a new process: r0 to r12 hold their own numbers, sp the stack top, lr 0, pc the entry; the clearing loop overruns the registers, so the status word ends as 15 and not as the System-mode value set before |
| Scheduler.Queues.Create | os/scheduler/scheduler.c:288-329 | the oldest free slot becomes NEW with its first context, status word and stack top, and is counted; nothing changes if there is no free slot |
| Scheduler.StacksDisjoint | os/scheduler/scheduler.c:320-321 | the 64 KiB below the stack pointers of two slots share no memory, and each lies inside its own record of the process table, between the leading words and the trailing ones |
| Scheduler.Queues.FillSlots | os/scheduler/scheduler.c:173-185 | all 32 slots are UNDEFINED and queued free in order |
| Scheduler.Queues.CreateListed | os/scheduler/scheduler.c:189-200 | the next slot is created and at the back of the list of processes |
| Scheduler.Queues.CreateReady | os/scheduler/scheduler.c:202-215 | an ordinary process is created, listed and at the back of the ready queue, and counted twice |
| Scheduler.Queues.Init | os/scheduler/scheduler.c:156-243 | idle in slot 0, slots 1, 2, 3 ready in order, all four listed with their first contexts, nothing running, seven processes counted |
| Scheduler.Queues.Requeue | os/scheduler/scheduler.c:261-267 | a running process other than idle becomes READY at the back of the queue, any other state of affairs is left alone |
| Scheduler.Queues.Run | os/scheduler/scheduler.c:254-277 | one dispatch on the rings equals the specification's dispatch |
| Scheduler.RoundRobin | os/scheduler/scheduler.c:254-280 | dispatch k runs process k mod n of the initial queue and the ready queue is the rest of the circle |
| Scheduler.NothingLost | os/scheduler/scheduler.c:261-267 | no push is refused, ready queue and running process are always a permutation of the initial queue, idle never runs |
| Scheduler.IdleRuns | os/scheduler/scheduler.c:269-274 | with an empty initial queue idle runs forever |
| Scheduler.ExactlyOneRunning | os/scheduler/scheduler.c:263-277 | after every dispatch of every run exactly the current process is RUNNING |
| Scheduler.StatesOfQueue | os/scheduler/scheduler.c:261-277 | after every dispatch of a newly created queue the chosen process is RUNNING, those that have run are READY, the others still NEW |
| Scheduler.NextTurn | os/scheduler/scheduler.c:254-280 | a process runs again after exactly n dispatches and not before |
| ContextSwitch.Machine.SaveContext | os/scheduler/scheduler_asm.S:149-202 | every register word of the current PCB is written, r0 and r1 exchanged, the stack balanced |
| ContextSwitch.Machine.PushContext | os/scheduler/scheduler_asm.S:64-108 | sp, lr and r12 down to r0 lie on the OS stack |
| ContextSwitch.Machine.PopRegisters | os/scheduler/scheduler_asm.S:117-129 | the pops bring r0 to r12 back in order |
| ContextSwitch.Machine.RestoreContext | os/scheduler/scheduler_asm.S:56-137 | all registers equal the current PCB's, and the cached OS stack pointer is one word lower |
| ContextSwitch.Machine.SvcEntry | os/interrupts/interrupt_handlers.S:123-149 | the trap saves exactly the registers the process had, leaving the Supervisor stack as it was |
| ContextSwitch.Machine.YieldTrap | os/interrupts/interrupt_handlers.S:123-153 | a yield is save, dispatch, restore, whatever the scheduler's C code does to registers |
| ContextSwitch.Machine.Start | os/scheduler/scheduler.c:254-280 | the first dispatch enters the chosen process with its PCB's registers |
| ContextSwitch.Machine.RunFor | os/interrupts/interrupt_handlers.S:123-153 | over a whole run of yields the machine is in the state the run specification gives, with the registers of the process resumed and the OS stack pointer of the run; no word more than 56 bytes below that pointer was pushed |
| ContextSwitch.RoomWhile | os/scheduler/scheduler_asm.S:64-108 | the lowest word pushed by a run stays above a limit if and only if frames, lost words and one restore fit between limit and initial stack pointer |
| ContextSwitch.OsStackLost | os/scheduler/scheduler_asm.S:132-135 | after k + 1 dispatches the cached OS stack pointer is the initial one less all scheduler frames and one word for each dispatch |
| ContextSwitch.OsStackExhausted | os/scheduler/scheduler_asm.S:132-135 | any fixed OS stack is passed once four bytes for each dispatch exceed it |
| ContextSwitch.PcbUndisturbed | os/scheduler/scheduler_asm.S:149-202 | a PCB changes only when its own process yields |
| ContextSwitch.ResumesWhereItYielded | os/scheduler/scheduler_asm.S:56-137 | over every run a resumed process finds what it left at its last yield, whatever ran in between |
| ContextSwitch.ResumedRegisters | os/scheduler/scheduler_asm.S:180-200 | r2 to r12 and sp survive, execution continues at lr, r0 and r1 come back exchanged |
| ContextSwitch.ExchangeExample | os/scheduler/scheduler_asm.S:196-200 | two different values in r0 and r1 come back exchanged |
| ContextSwitch.FairAndIsolated | os/scheduler/scheduler.c:254-280 | with n processes the one that yielded after dispatch k is resumed by dispatch k + n with exactly what it left |
| ContextSwitch.FirstTurn | os/scheduler/scheduler.c:276-280 | a process starts from the PCB it was created with |
| ContextSwitch.FromBoot | os/scheduler/scheduler.c:202-243 | from the state initialisation leaves, dispatch k runs slot 1 + k mod 3, first from its own entry point with its own stack top, later with exactly what it left at its last yield |
| ContextSwitch.FirstTurns | os/scheduler/scheduler.c:300-321 | the first three turns in numbers: own entry point, lr 0, r0 to r12 their own numbers, stack pointers 65648 bytes apart |
| ContextSwitch.BootAndRun | os/scheduler/scheduler.c:156-280 | the same of the machine itself, from scheduler_init through any number of yields, with pc, lr and sp of the first three turns in numbers |
| Motor.Driver.Init | os/drivers/motor.c:66-89 | the six pins go low; the port then shows the states if and only if both motors are stopped |
| Motor.Driver.StopAll | os/drivers/motor.c:22-29 | exactly the two enable pins are cleared |
| Motor.Driver.StartOne | os/drivers/motor.c:37-59 | direction pins first, enable last |
| Motor.DirectionPriority | os/drivers/motor.c:91-122 | each motor gets what is asked of it independently of the other: stop or its own turn bit, then backward, then forward, else what it did |
| Motor.DirectionDecides | os/drivers/motor.c:91-122 | a direction word decides both motors whatever they did before if and only if it says stop, forward or backward or turns both ways |
| Motor.Driver.SetDirection | os/drivers/motor.c:91-122 | the new states are those the direction word asks for |
| Motor.Driver.Ioctl | os/drivers/motor.c:139-156 | states, port and the sequence of GPIO writes of a command |
| Motor.StartSafe | os/drivers/motor.c:35-60 | setting up a disabled motor is safe at every write and touches only its pins |
| Motor.CommandSafe | os/drivers/motor.c:139-156 | a command keeps the interlock at every write and ends with the pins the image of the states |
| Motor.PinsAfterCommand | os/drivers/motor.c:10-15 | after a command bits 5, 4, 7 are high exactly if the left motor goes forward, goes backward, or moves; bits 2, 3, 6 likewise for the right one |
| Motor.CommandExamples | os/drivers/motor.c:91-122 | commands written out: 1 forward, 2 backward, 4 stop, 9 left turn, 17 right turn; other commands change nothing |
| Motor.RunSafe | os/drivers/motor.c:139-156 | over any run of commands an enabled motor has exactly one direction pin high at every single write |
| IrqDispatch.Controller.ScanWord | qemu/os/interrupts/interrupt.c:62-71 | the bit loop terminates and makes exactly the calls due for one word |
| IrqDispatch.Controller.HandleIrq | qemu/os/interrupts/interrupt.c:55-73 | the calls made are exactly the calls due |
| IrqDispatch.ScanRound | qemu/os/interrupts/interrupt.c:63-71 | one round makes the call of the lowest set bit and leaves the word with that bit cleared and one set bit fewer |
| IrqDispatch.DueCallsExact | qemu/os/interrupts/interrupt.c:60-72 | the calls due are the registered handlers of the set bits and no others, in strictly increasing interrupt number |
| Bits.ClearLowest | qemu/os/interrupts/interrupt.c:70 | x & (x - 1) clears exactly the lowest set bit |
| Bits.ClearLowestCounts | qemu/os/interrupts/interrupt.c:70 | x & (x - 1) has one set bit fewer |

## Left out

- Disks whose reads fail at one time and succeed at another: a sector is either readable or not.
- Mount (`fat32_mount`, boot sector validation, MBR search): the model starts at `initialize_fat32_fs` with the boot
  sector's fields. `fat32_readlabel` repeats the directory walk.
- Fat32Directory.ReadDirEntry: speaks of calls that return; `Fat32Directory.LookUpSettles` says which these are.
- Fat32Open.Open: speaks of calls that return; what uninitialised memory holds is a parameter.
- FrameAllocator.Allocator.Init: one initialisation from the empty list the kernel starts with; a second one is not
  modelled.
- PageTables.Mmu.Boot: at most 1536 kernel sections, beyond which the source's addresses wrap; the supersection
  attribute bit, caches, TLB and translation-base registers are not modelled.
- Program status registers (beyond the word `process_create` leaves), processor modes and interrupt-driven
  preemption in the context switch; names, priorities and segment fields of processes.
- ContextSwitch.Machine.RunFor: stack words and PCBs are separate maps. `ContextSwitch.RoomWhile` says up to which
  dispatch the pushes stay above a limit; what they overwrite after that, and with it isolation from there on, is not
  modelled.
- Pushes and pops of the rings are atomic.
- Handlers called by the interrupt dispatch do not change the vector table.
- Register access and hardware bring-up (`boot/ddr.c`, `boot/mmc.c`, timers, GPIO and UART set-up), `uart_vprintf`,
  `motor_read`, `motor_write` and the syscall stubs: easy members or volatile I/O.
