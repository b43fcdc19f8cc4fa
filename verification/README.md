# BlackHole OS: verified models of its stateful core

This project models five components of BlackHole OS in Dafny and proves what each is
for. Every component has two layers: a value-level description of its state with the
theorems about it, and the code as it runs (classes whose methods edit fields, arrays and
word memory in place), proved to do exactly what the description says.

* **FAT16 file system** (`Fat*.dfy`, `Bytes.dfy`). `FatVolume`, `FatDelete`, `FatWrite`
  and `FatRead` describe volumes: one table, 32-byte directory slots, clusters of bytes.
  `FatTheorems` shows that a well-formed volume is a map from 11-byte names to byte
  strings, over whole runs; `FatLeaks` says which calls leave clusters allocated to no
  file, and `FatCapacity` which writes stay on the disk. `FatFormat` puts all of it in
  numbers: which byte of which sector is which, and what a slot stores. `FatLayout` lays
  a volume on 512-byte sectors with mirrored tables, `FatDriver` is the driver over
  those sectors. `FatNames` and `FatListing` cover 8.3 names and the directory listing.
  The on-disk layout is that of Microsoft's "FAT: General Overview of On-Disk Format",
  version 1.03, sections "Boot Sector and BPB", "FAT Data Structure" and "FAT Directory
  Structure".
* **Heap** (`HeapModel`, `HeapTheorems`, `HeapDriver`). Block lists, their theorems, and
  the allocator following `next` addresses through word memory.
* **Scheduler** (`SchedulerModel`, `SchedulerTheorems`, `SchedulerDriver`). The ring of
  tasks, context preservation and fairness over runs, and the code: control blocks and
  stacks are heap payloads in the same word memory the allocator manages, and the switch
  is its sequence of pushes and pops.
* **Keyboard and line input** (`KeyRing`, `LineEditor`). The ring as a queue; the blocking
  read cut into single memory accesses with interrupts between them; the line editor, its
  independent reading from the right, and its echo.
* **Screen** (`ScreenModel`, `ScreenDriver`) and **number printing** (`Numbers`).

## What is taken from the caller

The code checks none of the following, so they appear as preconditions, and where a
property depends on one of them the theorem is an if-and-only-if.

* The boot sector: `sectors_per_cluster >= 1`, `num_fats >= 1`, a table of at least 2048
  entries, a data area that begins on the disk (`FatLayout.GeometryOk`).
* The allocator scans clusters 2 to 2047 whatever the disk holds. A write requires that
  the clusters it takes lie on the disk (`FatWrite.Fits`). On a well-formed volume writes
  of every size fit exactly when each scanned cluster number without sectors behind it is
  marked as taken (`FatCapacity.EveryWriteFitsIff`); writes and deletes keep that so, and
  then every sequence of calls runs to its end (`FatCapacity.EverySequenceRuns`). The image
  the build script makes stops at cluster 2000, although the comment at fs/fat16.c:60
  takes the limit as matching that disk: after a file of 1999 clusters the scan yields
  cluster 2001 (`FatCapacity.ImageOverruns`).
* `size + cluster_bytes - 1` may wrap; the wrap is modelled, and a successful write keeps
  the volume well formed exactly when it does not happen (`FatTheorems.WriteWellFormedIff`);
  it happens on the formatted image (`FatCapacity.ImageLosesFiles`).
* A name whose first byte is 0xE5 is written into a slot that reads as deleted. This is
  modelled; the round trip holds exactly for the other names, and a write under such a
  name does return 0 (`FatCapacity.MarkedNameIsLost`).
* A failed write has already deleted the old file and leaves the clusters it took
  allocated. The model does the same: a write loses no cluster exactly when it succeeds
  under a name that can be found again, or when nothing was free for it to take
  (`FatLeaks.WriteLeaksNothingIff`, and over runs `FatLeaks.RunLeaksNothingIff`).
* Allocation sizes above 0xFFFFFFFC round to 0; modelled, with the exact condition, and
  such a request succeeds whenever any block is free (`HeapTheorems.WrappedSizeSucceedsIff`).
* No scancode yields a carriage return (drivers/keyboard.c:12-44), so line input is taken
  to hold none.
* Thread creation writes through the results of two allocations without testing them;
  runs are those in which both succeed.
* A task that calls the scheduler has 28 bytes of stack left and a word-aligned ESP.

Where comments and code differ the code is followed: the 256-byte key ring holds 255 keys,
and `keyboard_readline` also returns, without Enter, when the buffer is full.

## Model

| member | source | states |
|---|---|---|
| FatDriver.Fat16.Init | fs/fat16.c:108-133 | -1 exactly when the sector size is not 512, and then nothing changes; otherwise each cached layout value is the little-endian number at its place in the boot sector, and a disk with equal table copies is ready for the other calls |
| FatDriver.Fat16.FatReadEntry | fs/fat16.c:33-41 | yields the volume's table entry for every cluster the table covers |
| FatDriver.Fat16.FatWriteEntry | fs/fat16.c:44-56 | changes that one entry in every copy of the table, and no other entry, slot, cluster or sector |
| FatDriver.Fat16.FatAllocCluster | fs/fat16.c:59-67 | the lowest free cluster of 2 to 2047, 0 exactly when there is none |
| FatDriver.Fat16.FreeChain | fs/fat16.c:299-305 | terminates on every table whose links stay inside it, by the set of nonzero entries, with the table of FreeWalk |
| FatDriver.Fat16.DeleteFile | fs/fat16.c:286-314 | on sectors, does to the represented volume exactly what Delete does, and leaves every sector outside tables, directory and clusters alone |
| FatDriver.Fat16.StoreData | fs/fat16.c:218-258 | links and fills the lowest free clusters, all that are needed or all there are, and says which |
| FatDriver.Fat16.WriteCluster | fs/fat16.c:244-257 | the cluster holds its piece of the data, zero padded; every other cluster is as it was |
| FatDriver.Fat16.WriteFile | fs/fat16.c:214-284 | on sectors, does to the represented volume exactly what Write does, on success and on both failures, and leaves every sector outside tables, directory and clusters alone |
| FatDriver.Fat16.ReadChain | fs/fat16.c:190-208 | terminates when the buffer holds the whole file and links stay on the disk, or when the walk ends on the disk; copies the walked bytes and touches nothing after them |
| FatDriver.Fat16.ReadFile | fs/fat16.c:176-212 | -1 if the scan finds no such name, else the number of bytes copied as a signed 32-bit integer; the buffer holds the bytes the walk reads and is unchanged from there on |
| FatDriver.Fat16.ListRoot | fs/fat16.c:135-174 | yields the listing's lines in slot order, stopping at the first 0x00 slot |
| FatDriver.BuildSlot | fs/fat16.c:270-274 | byte by byte: the name, 0x20, fourteen zeros, the first cluster and the size lowest byte first; the rest of the sector stays |
| FatLayout.DataLbaRange | fs/fat16.c:28-30 | every sector of every cluster below the limit lies in the data area and on the disk |
| FatLayout.DataLbaInjective | fs/fat16.c:28-30 | different clusters or sectors never share an LBA |
| FatLayout.FatLbaInjective | fs/fat16.c:49-50 | different copies or sectors of the table never share an LBA |
| FatLayout.ScanStaysOnDiskIff | fs/fat16.c:60-61 | the fixed scan range is backed by the disk exactly when the disk has that many data sectors |
| FatLayout.ShippedImageIsShort | build/build.ps1:302-316 | on the formatted 1 MB image cluster 2001 passes the scan and lies one sector past the end |
| FatLayout.RepresentsIffView | fs/fat16.c:120-129 | a disk with usable geometry and equal table copies holds exactly one volume |
| FatLayout.PutSlot | fs/fat16.c:308-309 | writing back a directory sector with one slot edited changes that slot and nothing else of the volume |
| FatLayout.PutData | fs/fat16.c:245-256 | writing one data sector changes that part of that cluster and nothing else of the volume |
| FatLayout.SameTableSameSectors | fs/fat16.c:44-56 | equal tables mean equal sectors in every copy, so restoring the table restores the copies byte for byte |
| FatFormat.TableOnDisk | fs/fat16.c:33-56 | entry c is the two bytes at 2 (c mod 256), low byte first, of sector c / 256 of every table copy |
| FatFormat.SlotOnDisk | fs/fat16.c:178-182 | slot i is the 32 bytes at 32 (i mod 16) of sector i / 16 after the tables |
| FatFormat.DataOnDisk | fs/fat16.c:28-30 | byte b of cluster c lies in sector (c - 2) spc + b / 512 after the directory, at b mod 512 |
| FatFormat.ClustersOnDisk | fs/fat16.c:28-30 | a volume has exactly the clusters with a table entry, a number below 0xFFF8 and all sectors on the disk |
| FatFormat.FileOfSlot | fs/fat16.c:189-197 | a file's length is the number in bytes 28 to 31 of its slot; its clusters start at the number in bytes 26 and 27 and follow the table to an entry below 2 or from 0xFFF8 on |
| FatFormat.FileByte | fs/fat16.c:195-207 | byte k of a file is byte k mod clusterBytes of its cluster number k / clusterBytes |
| FatFormat.FindScans | fs/fat16.c:178-187 | on every directory: the first slot of that name whose first byte is not 0xE5, before any first byte 0x00 |
| FatFormat.FindFreeScans | fs/fat16.c:260-268 | the first slot whose first byte is 0x00 or 0xE5 |
| FatFormat.DeletedSlot | fs/fat16.c:286-314 | a delete writes 0xE5 over that slot's first byte and changes no other byte of directory or data |
| FatFormat.WrittenSlot | fs/fat16.c:260-276 | a successful write fills the first usable slot, byte by byte as above, naming the lowest free cluster, and changes no other slot |
| FatFormat.WrittenData | fs/fat16.c:244-257 | every byte of the clusters a write takes is the data's, or 0 past its end |
| FatFormat.UntouchedData | fs/fat16.c:244-257 | no other cluster changes |
| FatFormat.ReadUsesSlot | fs/fat16.c:189-208 | a read uses the first cluster and length that bytes 26 to 31 spell, and returns the count as a signed 32-bit integer |
| FatFormat.WalkFollows | fs/fat16.c:195-207 | a walk takes its cluster's bytes and goes on at that cluster's entry; it stops below 2 and from 0xFFF8 on |
| FatVolume.ChainAcyclic | fs/fat16.c:195-207 | a terminated chain visits no cluster twice |
| FatVolume.FindMeaning | fs/fat16.c:293-297 | the scan finds the first live slot of that name, -1 exactly when a tidy directory has none |
| FatDelete.FreeWalkZeroesReachable | fs/fat16.c:299-305 | on every table, cyclic or cross-linked, the freeing walk zeroes exactly the clusters reachable from its start |
| FatDelete.FreeWalkZeroesChain | fs/fat16.c:299-305 | on a terminated chain the walk stays in the table and zeroes exactly that chain |
| FatDelete.LinksInTable | fs/fat16.c:299-305 | links that stay inside the table keep the walk inside it, whatever cycles there are |
| FatDelete.DeleteRefinesMap | fs/fat16.c:286-314 | on a well-formed volume a delete removes the name from the file map and nothing else, zeroes exactly its chain, keeps the volume well formed, and returns 0 exactly when the name was there |
| FatWrite.LinkIsChain | fs/fat16.c:233-239 | the linked clusters are a terminated chain in the order taken |
| FatWrite.LinkLeavesRest | fs/fat16.c:226-239 | after the n lowest free clusters are linked, the scan finds exactly the others |
| FatWrite.FilledReadsBack | fs/fat16.c:244-257 | the filled clusters, read in order and cut to the size, are the data |
| FatWrite.ClustersNeededCeil | fs/fat16.c:219-221 | without wrap the cluster count is the least that holds the size, and at least one |
| FatWrite.OffsetsDoNotWrap | fs/fat16.c:246-250 | no data offset the loop computes exceeds 32 bits, whatever the size |
| FatWrite.StoredKeepsFiles | fs/fat16.c:226-258 | allocation and data writes leave every live file's chain and bytes as they were |
| FatTheorems.WriteRefinesMap | fs/fat16.c:214-284 | a write, whatever it returns, keeps the volume well formed; on 0 the name maps to the data, on -1 it maps to nothing, every other name as before |
| FatTheorems.WriteSucceedsIff | fs/fat16.c:226-231 | 0 exactly when, with the old file gone, enough clusters of the scan range are free and the directory has a reusable slot |
| FatTheorems.WriteTakesLowestFree | fs/fat16.c:219-242 | a successful write takes exactly the k lowest free clusters, links them upwards, ends the chain, and changes no other entry |
| FatTheorems.WriteDeleteRestoresFat | fs/fat16.c:214-314 | writing a new name and deleting it restores the table exactly when the name does not begin with 0xE5 |
| FatTheorems.WriteWellFormedIff | fs/fat16.c:219-221 | a successful write leaves the volume well formed exactly when the size computation does not wrap |
| FatTheorems.WriteReadRoundTrip | fs/fat16.c:176-284 | after a write returned 0, a read with any buffer gives min(size, n), less 2^32 from 2^31 on, and that prefix of the data, exactly for names that do not begin with 0xE5 |
| FatTheorems.OtherReadsUnchanged | fs/fat16.c:214-314 | a write or delete of one name leaves every read of another name as it was |
| FatTheorems.WellFormedIsSafe | fs/fat16.c:195-207 | on a well-formed volume every delete walk stays in the table and every read stops, whatever the buffer |
| FatTheorems.RunRefinesMap | fs/fat16.c:214-314 | every run of writes and deletes keeps the volume well formed at every point and changes its files as the same run on a map |
| FatTheorems.RunIsolates | fs/fat16.c:214-314 | a name no call of a run mentions keeps its contents |
| FatTheorems.FormattedIsEmpty | fs/fat16.c:295 | a volume whose directory is all 0x00 is well formed and holds no files |
| FatLeaks.DeleteLeaksNothing | fs/fat16.c:286-314 | a delete leaves the set of allocated clusters that no file reaches as it was |
| FatLeaks.WriteLeaks | fs/fat16.c:214-284 | a write adds to that set nothing if it returned 0 and its name can be found again, and otherwise exactly the clusters it took; it reclaims none |
| FatLeaks.WriteLeaksNothingIff | fs/fat16.c:228-231 | that set is unchanged exactly when the write returned 0 under a name not beginning with 0xE5, or when no cluster was free once the old file was gone |
| FatLeaks.FullWriteLosesAll | fs/fat16.c:226-231 | a write that runs out of clusters takes and loses every free one; the next scan finds none |
| FatLeaks.RunLeaksNothingIff | fs/fat16.c:214-314 | over every run lost clusters only accumulate, and none has appeared exactly when every write met that condition |
| FatLeaks.LeakFreeRunReturnsAll | fs/fat16.c:214-314 | such a run that starts with none lost and ends without files has freed the whole table |
| FatCapacity.EveryWriteFitsIff | fs/fat16.c:59-67 | writes of every size stay on the disk exactly when each scanned cluster number past its end is marked as taken |
| FatCapacity.StepKeepsBacked | fs/fat16.c:214-314 | writes and deletes keep those numbers marked as taken |
| FatCapacity.EverySequenceRuns | fs/fat16.c:214-314 | on such a volume every sequence of writes and deletes can be carried out, and its files are those of the map run |
| FatCapacity.FreshDiskBackedIff | fs/fat16.c:60-61 | an all-free table is harmless exactly when the disk has sectors for the whole scan range |
| FatCapacity.FreshWrite | fs/fat16.c:218-231 | on a freshly formatted volume a write fits exactly when it needs no more clusters than the disk has, and then succeeds under any name |
| FatCapacity.FullDiskOverruns | fs/fat16.c:59-67 | on a freshly formatted disk that ends inside the scan range, once a file fills it the scan yields the first cluster past the end and no other write fits |
| FatCapacity.ImageHoldsVolume | build/build.ps1:291-338 | the bytes the build script writes are an empty volume |
| FatCapacity.ImageBoots | build/build.ps1:302-316 | the layout read from that boot sector is the one the model uses |
| FatCapacity.ImageOverruns | build/build.ps1:302-316 | on that image a file of 1999 clusters is written with result 0, and then the scan yields cluster 2001, past the end |
| FatCapacity.MarkedNameIsLost | fs/fat16.c:264-274 | under a name beginning with 0xE5 the write returns 0, every read returns -1, and a delete does not give the clusters back |
| FatCapacity.WrappedSizeIsLost | fs/fat16.c:219-221 | with a size that wraps the write returns 0 and the volume is no longer well formed |
| FatCapacity.ImageLosesFiles | build/build.ps1:302-316 | both happen on the formatted image, for a one-byte file and a file of 2^32 - 1 bytes |
| FatRead.WalkReadsFile | fs/fat16.c:189-208 | what a read walks over on a well-formed volume is that file's bytes |
| FatRead.ReadMeansFile | fs/fat16.c:176-212 | a read copies the first min(size, n) bytes of the file and returns their number, which is negative exactly from 2^31 on (less 2^32); without such a file it returns -1 and copies nothing |
| FatRead.ReadStopsIff | fs/fat16.c:195-207 | for links that stay on the disk, the loop stops exactly when the buffer holds the whole file or the walk ends; otherwise it goes round for ever |
| FatRead.StoppedLoopHasRead | fs/fat16.c:195-207 | where the loop has stopped, its byte count is the length of the walk |
| FatNames.ToFatName | fs/fat16.c:71-94 | fills the 11 bytes with the upper-cased, space-padded base and extension and nothing around them |
| FatNames.FatNameBytes | fs/fat16.c:71-94 | each of the 11 bytes: base up to eight characters or the first dot, extension of three only after a dot, 0x61 to 0x7A stored as 0x41 to 0x5A and all else unchanged, 0x20 elsewhere |
| FatNames.CaseIsIgnored | fs/fat16.c:77-90 | inputs that differ only in the case of ASCII letters name the same file |
| FatNames.HelloTxt | fs/fat16.c:69-70 | hello.txt becomes HELLO, three blanks, TXT |
| FatNames.NameMatch | fs/fat16.c:97-104 | true exactly when the converted input equals the stored name |
| FatNames.BuildText | fs/fat16.c:151-164 | the text and its NUL fit the 13-byte buffer |
| FatNames.ListTextBytes | fs/fat16.c:150-164 | base and extension without their padding, a 0x2E between them exactly when there is an extension |
| FatNames.SpaceFreeIsCanonical | fs/fat16.c:71-94 | every space-free input converts to a canonical name |
| FatNames.ListedNameRoundTrips | fs/fat16.c:150-164 | the listed text converts back to the same 11 bytes exactly when the name is canonical |
| FatListing.ListingIsExact | fs/fat16.c:144-167 | one line for each slot whose first byte is neither 0x00 nor 0xE5 and whose low four attribute bits are clear, in slot order, with the size its last four bytes spell |
| FatListing.ListingShowsFiles | fs/fat16.c:144-167 | when every live slot is shown and canonical, the lines are the files, each once, with its size, and each text leads back to its file |
| FatListing.WriteKeepsPlain | fs/fat16.c:270-274 | writing space-free names keeps the directory of that kind |
| Bytes.Memset | libc/string.c:9-15 | the n bytes become the value and no others change |
| Bytes.Memcpy | libc/string.c:17-24 | the n bytes become the source's and no others change |
| HeapDriver.Heap.constructor | kernel/memory.c:24-29 | three words are stored, 0xFFFF4, 1 and 0 from 0x100000 on: one free block |
| HeapDriver.Heap.MemoryAlloc | kernel/memory.c:31-59 | the linked headers afterwards describe the block list Alloc gives, with its pointer; no word of a live payload or outside the heap changes; size 0 yields null, and null means no word changed |
| HeapDriver.AllocExactly | kernel/memory.c:37-55 | the first free block that is large enough is split when 16 bytes more than the rounded size are there, the rest less a 12-byte header staying free, and otherwise taken whole; every other block stays |
| HeapDriver.Heap.MemoryFree | kernel/memory.c:61-78 | the linked headers afterwards describe the block list Free gives; no word of a remaining payload or outside the heap changes |
| HeapDriver.Heap.CoalescePass | kernel/memory.c:68-77 | on any tiled list, one pass merges every run of free neighbours |
| HeapDriver.HeadersInMemory | kernel/memory.c:15-29 | the headers in numbers: the first at 0x100000, size, 1 or 0, address of the next; each next one 12 bytes and the size further, the last ending at 0x200000 |
| HeapDriver.PayloadInMemory | kernel/memory.c:54 | 12 bytes before a live payload stands its size, 8 bytes before it the mark 0 |
| HeapDriver.PayloadWritesKeepRep | kernel/memory.c:15-20 | stores by the owner of a payload reach no block header |
| HeapTheorems.AllocKeepsHeap | kernel/memory.c:31-59 | the heap stays tiled, aligned and coalesced; exactly one live payload appears, of at least the rounded size and less than 16 bytes more, and none moves or changes size; size 0 yields null |
| HeapTheorems.FreeKeepsHeap | kernel/memory.c:61-78 | the heap stays tiled, aligned and coalesced; exactly the freed payload disappears |
| HeapTheorems.AllocLargeEnoughIff | kernel/memory.c:34-35 | the payload holds the requested size exactly when the rounding did not wrap |
| HeapTheorems.WrappedSizeSucceedsIff | kernel/memory.c:34-35 | a size whose rounding wraps is granted exactly when any block is free |
| HeapTheorems.WrappedSizeGetsNothing | kernel/memory.c:34-35 | on the initial heap a request for 0xFFFFFFFD bytes returns a pointer to none |
| HeapTheorems.FirstFitIsLowest | kernel/memory.c:37-55 | the lowest free block that is large enough, none exactly when every free block is too small |
| HeapTheorems.AllocFailsIffNoGap | kernel/memory.c:37-58 | a nonzero request fails exactly when no stretch of heap outside the live blocks holds one header plus the rounded size |
| HeapTheorems.AllocFreeRestores | kernel/memory.c:31-78 | allocating and at once freeing restores the block list exactly |
| HeapTheorems.RunIsSafe | kernel/memory.c:31-78 | in every state of every run live payloads are inside the heap, aligned, as large as requested, and disjoint together with their headers |
| HeapTheorems.RunReturnsToInitial | kernel/memory.c:61-78 | a run that has freed everything ends in the single initial block |
| HeapModel.LiveDisjoint | kernel/memory.c:41-52 | different live payloads do not overlap, headers included |
| HeapModel.CoalesceKeeps | kernel/memory.c:68-77 | the merging pass keeps the tiling and the live payloads and leaves no two neighbours free |
| SchedulerDriver.Scheduler.TaskingInit | kernel/task.c:37-59 | one task, the running one, linked to itself, with process ID 1, in a payload allocated for 24 bytes; other payloads and memory outside the heap are untouched |
| SchedulerDriver.Scheduler.TaskSwitch | kernel/task.c:61-100 | memory, registers and ring afterwards are those of the model's switch: the next task runs with its saved context, the old one is suspended with its own; the EIP field is stored, and no word changes but that one, the saved ESP and the old task's stack; with one task nothing happens |
| SchedulerDriver.Scheduler.CallSwitch | kernel/switch.S:6-33 | the registers and return address saved on the old stack and its ESP in its control block are exactly the caller's; the ones loaded are exactly those suspended on the new stack |
| SchedulerDriver.Scheduler.CreateKernelThread | kernel/task.c:102-140 | memory and ring afterwards are those of the model's creation: the new task is last in the ring, with 4096 bytes of live stack, its first frame in the top 20, and its control block and the link to it word by word; no other word of a live payload or outside the heap changes |
| SchedulerDriver.TaskInMemory | kernel/task.h:7-14 | every task of the ring word by word: ID, page directory and link in its control block, and for a suspended one the saved ESP with EDI, ESI, EBX, EBP and EIP upwards from it |
| SchedulerDriver.Scheduler.FindTail | kernel/task.c:132-136 | the walk ends at the last task of the ring |
| SchedulerDriver.Scheduler.RunOwnCode | kernel/task.c:110-115 | whatever a running task stores on its own stack, every suspended task's frame, every link and every block header stay intact |
| SchedulerModel.CreateKeepsLayout | kernel/task.c:106-112 | a new control block and stack are apart from all existing ones and from each other |
| SchedulerTheorems.RunKeepsLayout | kernel/task.c:61-140 | over every run control blocks and stacks stay pairwise disjoint, tasks are only appended, the running position stays on the ring |
| SchedulerTheorems.ContextPreserved | kernel/task.c:84-99 | a task that gets the processor back finds EBP, EBX, ESI, EDI, stack pointer and return address as it left them, whatever ran between |
| SchedulerTheorems.FirstTurn | kernel/task.c:117-123 | a fresh thread first runs at its entry point with those four registers zero, on the top of its own 4096 bytes of stack, usable down to 28 bytes above its start |
| SchedulerTheorems.StackIsLive | kernel/task.c:106-112 | over every run a thread's 4096 bytes of stack and its 24-byte control block each lie inside one live heap payload |
| SchedulerTheorems.RoundRobin | kernel/task.c:61-99 | between two consecutive turns of a task every other task present at the first runs exactly once, threads being created meanwhile or not |
| SchedulerTheorems.DistanceSoFar | kernel/task.c:84-136 | while a task waits, its distance from the processor is what it was plus the threads created ahead of it less the hand-overs |
| SchedulerTheorems.TaskIsReached | kernel/task.c:84-99 | in every run, as many hand-overs as a task's distance plus the threads created ahead of it reach it |
| KeyRing.KeyBuffer.Push | drivers/keyboard.c:50-56 | enqueues, or drops the key when 255 are waiting |
| KeyRing.KeyBuffer.Pop | drivers/keyboard.c:58-63 | dequeues the oldest key; with no 0 in the queue, which the handler never pushes, 0 is returned exactly when it is empty |
| KeyRing.KeyBuffer.IsEmpty | drivers/keyboard.c:65-67 | true exactly when no key waits |
| KeyRing.PushIsEnqueue | drivers/keyboard.c:50-56 | the index arithmetic is a queue of capacity 255 |
| KeyRing.StepRefinesQueue | drivers/keyboard.c:50-67 | with pushes between any two accesses of the reader, each step is one queue operation or none |
| KeyRing.EveryRunIsFifo | drivers/keyboard.c:114-119 | every interleaving is a run of a 255-place queue offered the same keys: they come out in order, once each, only those arriving when it is full are dropped, and no read returns 0 |
| KeyRing.ReadMakesProgress | drivers/keyboard.c:114-119 | with a key waiting, every run holding at least the reader's remaining accesses, at most eight, returns that key next, pushes in between delaying nothing |
| LineEditor.ReadLine | drivers/keyboard.c:125-148 | buffer, terminator, keys taken and echo are those of the reference editor; nothing at or past `max` is touched |
| LineEditor.LineIsKept | drivers/keyboard.c:127-146 | the line is what is left when each backspace cancels the nearest uncancelled character before it; it ends at the first newline or at max-1 held characters, whichever is first |
| LineEditor.KeptIsTyped | drivers/keyboard.c:135-144 | typing forwards and cancelling backwards agree on every key sequence |
| LineEditor.EchoShowsLineIff | drivers/keyboard.c:130-145 | for every cursor, key stream and line that fits the screen, the line stands where it was typed with the cursor after it exactly when each tab was typed one column short of a multiple of four; a closing newline keeps it standing |
| LineEditor.EchoStandsOrDrifts | drivers/keyboard.c:135-145 | otherwise the cursor has run past the line, for good |
| LineEditor.TabEchoDrifts | drivers/keyboard.c:135-145 | the smallest case: after a tab at the left edge one backspace empties the line and leaves the cursor three columns off |
| ScreenDriver.Vga.Scroll | drivers/vga.c:27-43 | in place: bytes 0 to 3839 are the old 160 to 3999, bytes 3840 to 3999 are 0x20 and the current colour |
| ScreenDriver.Vga.NewLine | drivers/vga.c:72-79 | the window shows the sheet after a line feed, one row further down when it was at the bottom |
| ScreenDriver.Vga.PutChar | drivers/vga.c:81-123 | the window shows the sheet after that character, for every character and every cursor |
| ScreenDriver.Vga.Print | drivers/vga.c:125-129 | for every string the 4000 bytes are the sheet's last 25 rows and the cursor is in range |
| ScreenDriver.Vga.Clear | drivers/vga.c:54-61 | all 4000 bytes are 0x20 and the current colour, cursor at the top left |
| ScreenDriver.Vga.constructor | drivers/vga.c:47-52 | the same in colour 0x0A |
| ScreenDriver.Vga.SetCursor | drivers/vga.c:67-70 | each coordinate that is on the screen is taken, the others are ignored |
| ScreenModel.WindowBytes | drivers/vga.c:18-20 | cell j of window row i is bytes 160 i + 2 j and the next, of the sheet's last 25 rows of 80 |
| ScreenModel.PutCells | drivers/vga.c:81-123 | for every character, each cell of the sheet afterwards: written, unchanged, or a space in the colour in an appended row |
| ScreenModel.PutCursor | drivers/vga.c:81-123 | for every character, where the cursor goes and whether a row is appended |
| ScreenModel.PrintTouchesOnly | drivers/vga.c:125-129 | for every string, a cell no character overwrites is unchanged, or a space in the colour in an appended row |
| ScreenModel.PrintLaysOut | drivers/vga.c:115-122 | plain text lands on consecutive cells from the cursor on, and no other cell of the sheet changes, whatever scrolls |
| ScreenModel.PrintKeepsHistory | drivers/vga.c:27-43 | rows that have left the window never change |
| ScreenModel.TypeManyIsFillRow | drivers/vga.c:100-112 | a tab's loop equals that many typed blanks, the line break included |
| Numbers.Reverse | libc/string.c:51-61 | reverses in place and touches nothing past the length |
| Numbers.UnsignedToText | libc/string.c:96-115 | the NUL-terminated numeral of the value, nothing after it touched |
| Numbers.IntegerToText | libc/string.c:64-93 | the same with a sign for negative decimals |
| Numbers.NumeralParses | libc/string.c:96-115 | the digits parse back to the value, with no leading zero |
| Numbers.ProperIsPrinted | libc/string.c:96-115 | every proper numeral is the one printed for its value |
| Numbers.DecimalFits | libc/string.c:96-115 | at most 10 decimal digits |
| Numbers.HexFits | libc/string.c:96-115 | at most 8 hexadecimal digits |
| Numbers.SignedRoundTrip | libc/string.c:64-93 | signed decimals read back, in at most 11 characters |

## Left out

- FatDriver.Fat16.WriteFile: requires that the clusters it takes lie on the disk; what a disk answers past its end is not modelled.
- FatDriver.Fat16.StoreData: requires the same of its clusters.
- FatDriver.Fat16.FreeChain: requires that its links stay inside the table; what lies past it (other copies, the directory) is not written through.
- FatDriver.Fat16.ListRoot: yields names and sizes instead of printed text, since `printf` does not support the format it is given; the message for an empty directory is left out with it.
- FatDriver.Fat16.FindEntry: one method stands for the identical directory scans of reading and deleting.
- FatDriver.Fat16.DeleteFile: requires that the freeing walk stays inside the table, which holds on every well-formed volume and on every table with in-table links.
- SchedulerDriver.Scheduler.TaskSwitch: the test for the magic EAX value is taken as never firing, so a resumed task continues after the inner call; ESP at the call is a parameter of the running task.
- SchedulerDriver.Scheduler.CreateKernelThread: requires that both allocations succeed, since the code writes through their results untested; the new control block's fields are stored together after both allocations, and the process ID counter is advanced after that.
- SchedulerTheorems.RoundRobin: counts calls of the switch, not timer ticks; end-of-interrupt handling is not part of this model.
- LineEditor.ReadLine: the key stream is a finite sequence; when it runs out the reader is reported as waiting.
- Numbers.IntegerToText: excludes -2^31 and negative values in bases other than 10, which the digit loop does not handle.
- The local sector buffers, the disk and word memory are an array, a sequence and a map; the disk's port protocol is not modelled.
- Allocator, file system and screen calls run without interruption; the code has no locks.
- `printf`, the shell, raw sector writes from the shell, scancode tables and the shift flag, GDT, IDT, PIC, PIT, paging, user mode and boot code: dispatch, fixed tables and register setup.
