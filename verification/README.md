# RainbowOS: the memory-level algorithms, modelled and proved in Dafny

RainbowOS boots from a FAT32 partition with a stage 1 loader that works on bare memory. This project
models the algorithms below its assembly and proves what they do:

- **The heap** (`HeapModel`, `HeapMemory`, `HeapAllocator`, `HeapRuns`, `HeapOrder`, `HeapNesting`,
  `HeapSupply`, `HeapSession`). 8-byte headers threaded through memory, first-fit allocation with
  splitting, forward-only merging on free. The headers are real bytes: a four-byte little-endian
  `_next`, then a byte whose lowest bit is `reserved`, as the i386 ABI lays `heapEntry` out. A `Heap`
  object works on a byte array; `HeapModel` is the list of (size, reserved) blocks it stands for.
- **The disk read path** (`DiskRead`, `BootMemory`, `Fat32Model`, `Fat32Driver`, `Stage1Loader`,
  `FatVolume`). Chunked int 13h reads through the bounce buffer at 0x70000, the FAT32 driver, and the
  boot sequence, all in the same byte array as the heap. The disk is a function from sector numbers to
  512 bytes, together with a predicate that says which BIOS calls fail. Every allocation of the boot
  path is in the model, so each way it can end is tied to the disk or to the heap: for a file that is
  there and readable, loading succeeds exactly when the sizes involved fit the region the heap is given.
  `FatVolume` describes a volume as the FAT32 format does, by sectors and bytes and without the
  driver's arithmetic, and proves what the driver delivers of it. `SmallVolume` is one such volume.
- **The terminal** (`Document`, `TextTerminal`, `NumberText`). The 80x25 framebuffer as a window onto
  an unbounded document, and `xtoa` printing into it.
- **Loading the kernel** (`Multiboot`, `Elf`, `ElfFile`) and the MADT walk (`Acpi`).

Memory is a flat `array<byte>`; pointers are numbers. `earlyPanic` is a distinguished result. 32-bit
arithmetic is written out where it can matter: the split test, sector numbers, buffer sizes, the
pointers and bounds of the Multiboot search, of the program header loop and of the MADT walk.

## What turned out not to hold

- `lib/earlyLib/memory.cpp:42` subtracts the wrong way round in unsigned arithmetic, so it splits for
  every leftover. An allocation keeps the heap a heap exactly when the leftover is 0 or at least 8
  bytes (`AllocKeepsHeapIff`); `SmallLeftoverTears` gives the failing runs. `Guard.AsWritten` is the
  code, `Guard.Intended` is the test its comment describes; everything else is proved for both. Where
  the boot path as a whole leaves 1 to 7 bytes, its last split tears the heap, too late to keep the
  file from loading (`LoadKernelFile`).
- `bootloader/stage1main.cpp:92-96` joins its two loop bounds with "or". The search ends on every
  memory exactly for files over 8184 bytes whose end, `ptr + size`, is below 2^32 (`EndsIffBounded`).
  For all others it goes round all of memory, so it never answers "none", and ends exactly if some
  address a multiple of 4 away holds a header (`EndlessIff`), which need not be in the file
  (`HeaderOutsideSmallFile`). With "and" it would look at nothing in a file whose end wraps
  (`IntendedSkipsWrappedFiles`). The driver does hand out such sizes (`SizeIsTakenOnTrust`). All this is
  for files that start below the last 8 KiB of the address space; see `HighFilesAreSkipped` for others.
- `lib/fs/fat32.cpp:248-262` reads one sector per cluster. On any disk the result begins with the file
  exactly when clusters are one sector or the file fits in one sector; otherwise the size returned
  exceeds the bytes ever written (`CopyIsFileIff`, `RootFileIsTheFile`).
- `lib/fs/fat32.cpp:121-122` takes some cluster numbers for end marks (`DirTestExactly`).
- Freeing merges forward only. `FreeInAnyOrder` says exactly which headers are left.

## Model

| member | source | states |
|---|---|---|
| StringC.Memmove | lib/stdlibC/string.c:50-61 | for every overlap the destination gets the source's old bytes; no other byte changes |
| StringC.Memcpy | lib/stdlibC/string.c:23-29 | copies ranges that do not overlap and nothing else |
| StringC.Memset | lib/stdlibC/string.c:31-36 | fills with the low byte of the value and nothing else |
| StringC.Strlen | lib/stdlibC/string.c:15-21 | the number of bytes before the terminator |
| StringC.Strcmp | lib/stdlibC/string.c:63-75 | zero exactly on equal C strings, otherwise the signed difference at the first mismatch |
| HeapModel.AsWrittenSplitsAnyLeftover | lib/earlyLib/memory.cpp:42 | in 32-bit unsigned arithmetic the test only says "not equal", but for leftovers from 2^32 - 12 on; the header fits iff the leftover is 0 or at least 8 |
| HeapModel.IntendedSplitsFrom | lib/earlyLib/memory.cpp:42-44 | the test its comment describes splits from a leftover of 13 bytes on, and the header always fits |
| HeapModel.AllocIsFirstFit | lib/earlyLib/memory.cpp:22-58 | the lowest-addressed free block that fits is the one handed out, cut down as the split test says |
| HeapModel.AllocNullIffNothingFits | lib/earlyLib/memory.cpp:25-36 | null exactly when no free block is large enough |
| HeapModel.AllocLive | lib/earlyLib/memory.cpp:40-56 | the block handed out was free, is now live and large enough; every other live block is where and what it was |
| HeapModel.AllocConserves | lib/earlyLib/memory.cpp:42-51 | headers plus data add up to the same total |
| HeapModel.CoalesceSwallowsFreePrefix | lib/earlyLib/memory.cpp:70-77 | merging takes in exactly the free blocks up to the next reserved one, their headers included |
| HeapModel.FreeFindsItsBlock | lib/earlyLib/memory.cpp:84-94 | freeing the data pointer of block i frees block i and grows it over the free run behind it |
| HeapModel.FreePanicsIffNoSuchBlock | lib/earlyLib/memory.cpp:87-96 | the panic comes exactly for addresses no entry has |
| HeapModel.FreeLive | lib/earlyLib/memory.cpp:60-68 | exactly the named block stops being live; the others keep place and size |
| HeapModel.FreeConserves | lib/earlyLib/memory.cpp:60-77 | headers plus data add up to the same total |
| HeapModel.LookupApart | include/earlyLib/memory.hpp:77-86 | the data of two blocks is at least a header apart |
| HeapMemory.EntryBytes | include/earlyLib/memory.hpp:41-86 | an entry is its successor's address in four bytes, lowest first, and a byte whose lowest bit is `reserved`: the chain says nothing else of it |
| HeapMemory.AllocMemChain | lib/earlyLib/memory.cpp:22-58 | what allocation writes turns the entries of one block list into those of the list after it |
| HeapMemory.AllocMemKeepsLiveData | lib/earlyLib/memory.cpp:42-54 | allocation writes to no byte of a live block's data |
| HeapMemory.TornIsNoHeap | lib/earlyLib/memory.cpp:42-51 | after a split that leaves 1 to 7 bytes, no list of blocks describes the memory |
| HeapMemory.TornEntries | lib/earlyLib/memory.cpp:47-50 | the overlapping entry points less than a header ahead, and getSize says almost 4 GiB |
| HeapMemory.AllocKeepsHeapIff | lib/earlyLib/memory.cpp:42 | an allocation keeps a well-formed chain iff the leftover is 0 or at least the header size |
| HeapAllocator.Heap.Initialize | lib/earlyLib/memory.cpp:130-139 | one free block between two headers; no byte of the rest of memory or of the block changes |
| HeapAllocator.Heap.Allocate | lib/earlyLib/memory.cpp:22-58 | the recursion over entries computes the model's outcome and writes what the model says |
| HeapAllocator.Heap.Defragment | lib/earlyLib/memory.cpp:70-77 | the recursion leaves the merged chain and touches one header |
| HeapAllocator.Heap.Kalloc | lib/earlyLib/memory.cpp:79-82 | refines the model's allocation; live data and all memory outside the heap unchanged, after a torn split too, when the memory is no heap any more |
| HeapAllocator.Heap.Kfree | lib/earlyLib/memory.cpp:84-97 | refines the model's free; only the freed header is written to; panic leaves everything as it was |
| HeapRuns.LiveAllocationsAreDisjoint | lib/earlyLib/memory.cpp:79-97 | after any run from a fresh heap, double and wrong frees included, the region is tiled and live allocations are inside it and disjoint |
| HeapRuns.StepAccounted | lib/earlyLib/memory.cpp:22-97 | every step keeps: the reserved blocks are exactly the allocations handed out and not released |
| HeapRuns.IntendedGuardNeverTears | lib/earlyLib/memory.cpp:42 | with the intended split test no run damages the chain |
| HeapSession.RunHeap | lib/earlyLib/memory.cpp:22-97 | any sequence of kalloc and kfree on the heap in memory goes as the model's run does, changes no byte outside the heap, and keeps place, size and every byte of each allocation it does not release |
| HeapRuns.SmallLeftoverTears | lib/earlyLib/memory.cpp:42 | for every leftover of 1 to 7 a first request that tears the heap as written, and what the intended test does instead |
| HeapOrder.NestedRunRestores | lib/earlyLib/memory.cpp:42-77 | well-bracketed allocations and frees, failed ones included, give back the state they started from |
| HeapNesting.ScriptIsRun | lib/earlyLib/memory.cpp:79-96 | that result, and where a tear or a panic ends the run, is where the run of the script's kalloc and kfree calls, one after the other, ends |
| HeapNesting.CallsAsk | lib/earlyLib/memory.cpp:79-82 | those calls ask for every size the script names, in order |
| HeapNesting.NestedCallsRestore | lib/earlyLib/memory.cpp:22-96 | so nested calls leave blocks and live allocations as they found them, unless the test as written has torn the heap |
| HeapNesting.NestedCallsLeaveFresh | lib/earlyLib/memory.cpp:130-139 | on a fresh heap that is: fresh again, nothing live |
| HeapOrder.PairRestoresIffNextReserved | lib/earlyLib/memory.cpp:42-77 | from any state, allocate then free is the identity iff the block behind the chosen one was reserved or it was the last |
| HeapOrder.FreeAdvances | lib/earlyLib/memory.cpp:60-77 | one free of a run that frees everything moves the closed form of the heap from one moment to the next |
| HeapOrder.FreeEverything | lib/earlyLib/memory.cpp:60-97 | after freeing every reserved block of any heap in any order, a header is left iff no lower-addressed block was freed later; their number is the number of prefix maxima |
| HeapOrder.FreeInAnyOrder | lib/earlyLib/memory.cpp:60-96 | so for blocks of any sizes and every order of freeing the reserved ones: none of the frees panics, and the headers left are those no lower block was freed after |
| HeapOrder.AscendingKeepsAll | lib/earlyLib/memory.cpp:66 | freeing a heap without a free tail by rising address keeps every header |
| HeapOrder.AscendingTakesInTail | lib/earlyLib/memory.cpp:66 | freeing n reserved blocks in front of a free tail by rising address keeps n headers: only the tail is merged |
| HeapOrder.FirstFreedLastKeepsOne | lib/earlyLib/memory.cpp:66 | freeing the first block last leaves one header |
| HeapSupply.SuppliedIff | lib/earlyLib/memory.cpp:22-58 | a run that only allocates, from a heap whose last block is the only free one, is served in full iff the requests and their headers fit that block: all of it used up or a header left over as written, any leftover as intended |
| HeapSupply.TearsLastIff | lib/earlyLib/memory.cpp:42-51 | as written, such a run gets everything and tears the heap with its last request iff requests and headers leave 1 to 7 bytes |
| HeapSupply.SupplyConcat | lib/earlyLib/memory.cpp:79-82 | a request list is served as its two parts in turn, stopping where the first one does |
| Document.PutProper | lib/io/BIOSVideoIO.cpp:35-82 | no character moves the cursor out of the window or of its row |
| Document.PutEffect | lib/io/BIOSVideoIO.cpp:35-82 | 20 to 126 are stored at 80*row + column and move the cursor, 10 ends a line unless it was just filled, every other character changes no cell and no cursor |
| Document.ScrolledOffIsForever | lib/io/BIOSVideoIO.cpp:84-94 | rows that have left the screen are never written again |
| Document.CursorAfterText | lib/io/BIOSVideoIO.cpp:37-77 | each finished line counts max(1, ceil(len/80)) rows, the last one len/80, the column is len%80; the full-line flag is set iff the last row was just filled |
| Document.LinesSplit | lib/io/BIOSVideoIO.cpp:37-53 | the lines the layout speaks of, joined by newlines, are the text |
| Document.TextOnClearedScreen | lib/io/BIOSVideoIO.cpp:35-82 | on a cleared screen the document is the padded lines of the text, then blanks, and the cursor is at its end |
| TextTerminal.Terminal.constructor | include/devices/BIOSVideoIO.hpp:52-53 | the document starts as what is on the screen, cursor at the top left |
| TextTerminal.TypedByte | lib/io/BIOSVideoIO.cpp:55-63 | a character that is typed is in memory at 0xB8000 + 160*row + 2*column, the colour behind it |
| TextTerminal.Terminal.SetCursor | lib/io/BIOSVideoIO.cpp:109-120 | moves the cursor within the window, or refuses and changes nothing |
| TextTerminal.Terminal.Clear | lib/io/BIOSVideoIO.cpp:17-28 | the window becomes blank; what has scrolled off, the cursor and all other memory stay |
| TextTerminal.Terminal.Scroll | lib/io/BIOSVideoIO.cpp:84-107 | appends blank rows to the document the screen is the last 25 rows of; refuses 25 or more |
| TextTerminal.Terminal.ScrollTwice | lib/io/BIOSVideoIO.cpp:84-107 | scrolling by a and then by b leaves screen and document as scrolling by a+b does |
| TextTerminal.Terminal.Putchar | lib/io/BIOSVideoIO.cpp:35-82 | the screen stays the window of the document, which takes one more character; memory outside the framebuffer is unchanged |
| TextTerminal.Terminal.WriteString | include/klib/io.hpp:53-60 | a string is its characters one after the other |
| TextTerminal.ClearAndWrite | kernel/kmain.cpp:38-51 | a new terminal, cleared and given any printable text: the screen is the last 25 rows of the text's padded lines and blanks, and row and column are those the lines' lengths give |
| NumberText.PrintThenParse | include/klib/cstdlib.hpp:38-52 | reading the text back, each character by its place in "0123456789ABCDEF", gives the number, for every base from 2 to 16 |
| NumberText.ParseThenPrint | include/klib/cstdlib.hpp:29-52 | the other way round: every numeral without leading zeros is what is printed of its value |
| NumberText.DigitsInHex | include/klib/cstdlib.hpp:43-50 | only '0' to '9' and 'A' to 'F' are written, and of these the first `base` |
| NumberText.NoLeadingZero | include/klib/cstdlib.hpp:29-52 | only zero prints with a leading zero |
| NumberText.FitsNumberBuffer | include/klib/cstdlib.hpp:18 | every 64-bit value fits the 65-byte buffer in every base, terminator included |
| NumberText.Xtoa | include/klib/cstdlib.hpp:20-74 | null for a bad base, otherwise exactly the digits and a terminator are written |
| NumberText.SwapAround | include/klib/cstdlib.hpp:63-69 | the swap loop is an exact reversal |
| NumberText.WriteNum | include/klib/io.hpp:74-78 | the document takes exactly the digits of the number |
| DiskRead.PacketRoundTrip | lib/earlyLib/diskRead16.cpp:27-35 | int 13h reads back from the packet its size 16, the bounce buffer, the sector and the count |
| DiskRead.PacketReads | lib/earlyLib/diskRead16.cpp:27-35 | any packet laid out as the BIOS defines it is read as it was written |
| DiskRead.PacketBytes | lib/earlyLib/diskRead16.cpp:27-35 | the packet filled in is the one for 7000:0000, the count and the sector |
| DiskRead.ReadChunk | lib/earlyLib/diskRead16.cpp:48-54 | every transfer fits the segment of the bounce buffer, and fills it with the sectors asked for |
| DiskRead.ChunksAreContiguous | lib/earlyLib/diskRead16.cpp:40-63 | the chunks meet without gap or overlap and sum to the request |
| DiskRead.DeliveredIsContiguous | lib/earlyLib/diskRead16.cpp:38-66 | unless the 32-bit sector counter wraps, the result is one contiguous read |
| DiskRead.ChunkSizes | lib/earlyLib/diskRead16.cpp:40-45 | every call but the last is for 127 sectors, the last one for the remainder, which may be 0 |
| DiskRead.ClearIff | include/bootloader/commonDefines.h:17-20 | what the read asks of its destination is that no byte of it is in the bounce buffer or the packet |
| DiskRead.DiskRead16 | lib/earlyLib/diskRead16.cpp:38-66 | succeeds iff every BIOS call does (an empty last one included), delivers the chunks, and changes only destination, bounce buffer and packet |
| BootMemory.PlaceHeap | bootloader/stage1main.cpp:248-249 | the heap ends where the bounce buffer starts |
| BootMemory.ReadIntoAllocation | bootloader/stage1main.cpp:248-249 | a read into a live allocation changes neither the chain nor any other live allocation |
| BootMemory.AllocationIsClear | include/bootloader/commonDefines.h:17-20 | no allocation overlaps the bounce buffer or the packet, so memmove's ranges never overlap |
| BootMemory.ReadInto | lib/earlyLib/diskRead16.cpp:57-62 | the same for the read as it runs |
| Fat32Model.DirTestExactly | lib/fs/fat32.cpp:120-125 | the end marks are the last eight 28-bit values; all of them pass readDir's test, and so do exactly 0xFFFFFF0 to 0xFFFFFF7 and the lower numbers whose low nibble is 8 or more |
| Fat32Model.EndMarksRepeat | lib/fs/fat32.cpp:199-205 | of a first cluster number the four highest bits do not matter to the test for an end mark |
| Fat32Model.OffsetsRepeat | lib/fs/fat32.cpp:260 | but they do to the index into the FAT: it is the number times 4, in 32 bits |
| Fat32Model.ClustersFollow | lib/fs/fat32.cpp:132-136 | whatever wraps, each cluster starts sectorsPerCluster sectors after the one before, in 32 bits |
| Fat32Model.SmallSectorsOverrun | lib/fs/fat32.cpp:127-143 | a boot record with sectors of less than 512 bytes makes readDir read past its buffer; with any other it lists the directory, unless that has no end |
| Fat32Model.WalkFindsChain | lib/fs/fat32.cpp:248-262 | a bounded walk succeeds iff there is a chain to an end mark of at most that length |
| Fat32Model.ChainVisitsDistinct | lib/fs/fat32.cpp:248-262 | a chain that ends visits no cluster twice and is no longer than the FAT, first clusters of more than 28 bits included |
| Fat32Model.WalkEndsIffBounded | lib/fs/fat32.cpp:248-262 | the walk ends iff it ends within as many steps as the FAT has entries |
| Fat32Model.NamesAreInjective | lib/fs/fat32.cpp:160-192 | space-padded ordinary entries that render alike have the same eleven name bytes |
| Fat32Model.FindsFirst | lib/fs/fat32.cpp:224-229 | the entry taken is the first whose rendered name is the query |
| Fat32Model.FoundEntryIsTheOnlyOne | lib/fs/fat32.cpp:224-229 | in a directory of distinct ordinary names it is the only one |
| Fat32Model.CopyFollowsChain | lib/fs/fat32.cpp:242-262 | the copy succeeds iff the chain ends, fits size/512+1 sectors, stays in the FAT and is readable; it is then the first sectors in chain order |
| Fat32Model.CopiedSector | lib/fs/fat32.cpp:250-254 | sector j of the buffer is the first sector of the j-th cluster |
| Fat32Model.CopyIsFileIff | lib/fs/fat32.cpp:242-262 | on every disk: the copy begins with the file iff clusters are one sector or the file fits in one, and otherwise it is shorter than the size reported |
| Fat32Model.BufferSizeIs | lib/fs/fat32.cpp:242-245 | the buffer holds the file and at most one sector more |
| Fat32Model.SizeIsTakenOnTrust | lib/fs/fat32.cpp:242-268 | an entry whose first cluster is an end mark is handed out with whatever size it claims; from 2^32 - 512 on the buffer's size wraps to 0 |
| Fat32Model.RootFileIsFirstSectors | lib/fs/fat32.cpp:211-271 | on a well-formed readable volume of any cluster size, getRootFile comes to the directory entry's size and the first sector of each cluster of the chain |
| Fat32Model.RootFileIsTheFile | lib/fs/fat32.cpp:211-271 | so with that size it delivers the file's bytes if clusters are one sector or the file fits in one, and fewer bytes than that size if not |
| Fat32Driver.Fat32.Fetch | lib/fs/fat32.cpp:33-45 | allocate-and-read yields a new live allocation with the sectors in it, every other allocation kept; out of memory or damaged only where the allocator says so |
| Fat32Driver.Fat32.Init | lib/fs/fat32.cpp:30-50 | mounts: boot record and FAT are live allocations with the disk's contents; every other outcome is the disk's or the allocator's doing |
| Fat32Driver.Fat32.ReadDir | lib/fs/fat32.cpp:116-158 | the directory's cluster in memory and the number of its entries, or exactly why not |
| Fat32Driver.Fat32.NameFromEntry | lib/fs/fat32.cpp:160-192 | the name of the entry, for an ordinary one in a new 13-byte allocation that begins with it, for a long-name entry without any |
| Fat32Driver.Fat32.FillName | lib/fs/fat32.cpp:171-191 | the name is written inside the 13 bytes of the buffer |
| Fat32Driver.Fat32.CopyFile | lib/fs/fat32.cpp:247-262 | the walk fills the buffer as the chain says and stays inside it |
| Fat32Driver.Fat32.GetRootFile | lib/fs/fat32.cpp:211-282 | found, not found, panic or wild access as the disk decides, out of memory or damaged as the allocator does with the requests made; a heap torn by the file's own buffer does not stop it; the FAT, the boot record and all earlier allocations are kept |
| Stage1Loader.LoadKernel | bootloader/stage1main.cpp:247-267 | from a fresh heap: succeeds iff the disk delivers the file and the heap hands out everything asked for, torn by the last split or not; then the file is in memory below the bounce buffer, and the heap is intact unless torn |
| Stage1Loader.BootNeedIs | lib/fs/fat32.cpp:33-245 | all the boot path asks for: boot record, FAT, directory cluster, two result structures, a name for each entry compared, the file's buffer, a header each |
| Stage1Loader.BootFits | bootloader/stage1main.cpp:248-249 | all that is handed out iff its total fits the region from the image to the bounce buffer; the last split tears the heap iff 1 to 7 bytes are left, as written |
| Stage1Loader.LoadKernelFile | bootloader/stage1main.cpp:247-267 | on a well-formed readable volume loading succeeds iff that total fits; it then reports the entry's size and leaves, between image and bounce buffer, the file's bytes (fewer of them for a file over one sector in larger clusters), and an intact heap unless 1 to 7 bytes were left |
| FatVolume.VolumeMounts | lib/fs/fat32.cpp:30-50 | a boot record laid out as the format has it is mounted with the numbers it holds, wherever the partition starts |
| FatVolume.LinkInMemory | lib/fs/fat32.cpp:40-45 | the entry of cluster c in memory is the one at byte 4*(c mod 128) of sector c/128 of the FAT on the disk |
| FatVolume.LinksAreAChain | lib/fs/fat32.cpp:194-208 | clusters whose links name one another, up to one of the last eight values, are a chain: no ordinary number ends it |
| FatVolume.ClusterInMemory | lib/fs/fat32.cpp:132-139 | what is read of cluster k + 2 are the sectors part + reserved + fats*sectorsPerFAT + sectorsPerCluster*k and on |
| FatVolume.EntryReads | lib/fs/fat32.cpp:160-192 | an entry laid out as the format has it goes by stem, dot and extension, a directory by its stem, a long-name entry by "LFN" |
| FatVolume.FilesAreCanonical | include/fs/fat32.hpp:209-249 | the entries of files laid out as the format has it are among those whose names determine them (`NamesAreInjective`) |
| FatVolume.DirectoryOnVolume | lib/fs/fat32.cpp:116-158 | a one-cluster directory on the volume is listed: its bytes, and as many entries as come before the zero byte |
| FatVolume.VolumeHoldsFile | lib/fs/fat32.cpp:211-271 | a volume that lists a file in its root directory, with linked clusters for its size, has all the driver's results ask for |
| FatVolume.ReadVolumeDir | lib/fs/fat32.cpp:116-158 | readDir, run on it, leaves the sectors of the directory's cluster in memory |
| FatVolume.LoadFromVolume | bootloader/stage1main.cpp:247-267 | the boot path, from a volume described sector by sector and byte by byte: succeeds iff a sum over its sizes fits, and then leaves the file's bytes in memory (of larger clusters the first sector each) |
| FatVolume.RowIsCopied | lib/fs/fat32.cpp:247-262 | for every n below 0xFFFFFEE: of clusters 2 to n + 1 linked in a row, the first sectors are copied, in order |
| FatVolume.CopyRow | lib/fs/fat32.cpp:247-262 | the same for the walk as it runs |
| SmallVolume.DiskHoldsFile | lib/fs/fat32.cpp:211-271 | a volume of eighteen sectors, two FATs and two sectors a cluster, anywhere on a disk, holds a file: what the end-to-end results ask for can be had |
| SmallVolume.LoadSmall | bootloader/stage1main.cpp:247-267 | on that disk, with the room it needs, the boot path puts the file's five bytes into memory under either split test |
| Elf.LoadSegment | bootloader/stage1main.cpp:201-213 | each byte of the segment is its file byte or, past the file part, zero; every other byte is unchanged |
| Elf.StepsIsCeiling | bootloader/stage1main.cpp:184-191 | for any positive e_phentsize the loop runs ceil(32*e_phnum/e_phentsize) times |
| Elf.LoopGoesOnIff | bootloader/stage1main.cpp:190-191 | the pointer comparison holds for exactly those entries |
| Elf.ImageIsDeclarative | bootloader/stage1main.cpp:199-213 | with disjoint segments every byte is its file byte, zero, or what it was |
| Elf.Load | bootloader/stage1main.cpp:180-223 | memory becomes the image of the entries before the first refused one, whatever follows that; 0 if one is refused, else the end of the last entry |
| ElfFile.SegmentReads | include/sys/elf.h:148-173 | a program header encoded as eight little-endian words in their order is read as it was written |
| ElfFile.HeaderReads | include/sys/elf.h:63-107 | the same for the file header |
| ElfFile.LoadFile | bootloader/stage1main.cpp:180-223 | of a file laid out as the format has it: each byte is that of the last segment over it, from the file up to p_filesz and zero up to p_memsz, or unchanged; null iff an entry is of type 2 or 3 |
| Multiboot.Search | bootloader/stage1main.cpp:86-106 | the loop's answer, an endless search included |
| Multiboot.HeaderIff | bootloader/stage1main.cpp:100-101 | any three words are a header iff the first is 0x1BADB002 and their 32-bit sum is zero |
| Multiboot.AnswersFirst | bootloader/stage1main.cpp:90-103 | a loop over the first n aligned offsets finds the first header there, or says there is none |
| Multiboot.LargeFilesAreSearched | include/sys/multiboot.h:167-175 | for files over 8184 bytes that end below 2^32: the first header at an offset of at most 8180 |
| Multiboot.HighFilesAreSkipped | bootloader/stage1main.cpp:91-96 | as written, a file that starts and ends in the last 8180 bytes of the address space is not searched at all: the bound of the window wraps |
| Multiboot.FirstMagicIsFound | bootloader/stage1main.cpp:86-106 | so such a file is given its first magic number, if flags and checksum after it make it a header, whatever the flags |
| Multiboot.LoneHeaderIsFound | bootloader/stage1main.cpp:86-106 | for every place in the window and every flags word there is a memory whose only header, there, is found |
| Multiboot.KernelHeaderIsFound | kernel/boot.S:8-20 | the kernel's own header, flags 3, is found |
| Multiboot.IntendedSearchesEveryFile | bootloader/stage1main.cpp:91-96 | with both bounds required, the same for every file that ends below 2^32, within the file |
| Multiboot.IntendedSkipsWrappedFiles | bootloader/stage1main.cpp:91-96 | with both bounds required, a file whose end wraps is not searched at all |
| Multiboot.UnboundedSearchesEverything | bootloader/stage1main.cpp:91-103 | as written, for files of at most 8184 bytes and files whose end wraps, on any memory: the first header met going round the address space, never "none", endless iff there is none at all |
| Multiboot.EndlessIff | bootloader/stage1main.cpp:91-103 | on any memory the search is endless iff the file is one of those and no pointer the loop takes is at a header |
| Multiboot.HeaderOutsideSmallFile | bootloader/stage1main.cpp:91-103 | for every file of at most 8180 bytes and every flags word, a memory whose header outside the file is the answer |
| Multiboot.EndsIffBounded | bootloader/stage1main.cpp:91-96 | as written, the search ends on every memory iff the file is over 8184 bytes and ends below 2^32 |
| Acpi.GetEntry | kernel/system/acpi.cpp:101-123 | null for other types, otherwise what the walk up to the 32-bit end of the table comes to, records of length zero included |
| Acpi.WalkFollowsRecords | kernel/system/acpi.cpp:110-119 | on any encoded list of records the walk finds the first I/O APIC record, or none |
| Acpi.GetFromTable | kernel/system/acpi.cpp:101-123 | on an encoded table, its length in the header at offset 4 and its records from byte 44 on, the answer is the first I/O APIC record or null |
| Acpi.FoundOnBoundary | kernel/system/acpi.cpp:112-118 | on any memory the walk goes over whole records, and its answer is what it finds where they end: a record of type 1, the limit, a length of zero, the end of memory or of the address space |

## Left out

- The assembly, mode switches and the BIOS itself: int 13h fills memory from the disk or reports an error, leaving memory alone.
- Interrupts, APIC, PIC, MSR, CPUID and the IDT: register accesses without an algorithm.
- `buildMultibootInfo`, memory detection, `getPartitionLBA`, `elf_check_file`, `findEntry`, the RSDP search: single branches or BIOS plumbing.
- `getInternalDirectoryList`, `realMode_terminal`, tracing output and the loader's progress messages: duplicates or display only.
- Heap.Initialize: a region of less than two headers, or one at address 0, is not modelled; the code would write its two headers over each other or lose the null pointer.
- Kalloc: the second result, which says that the new entry overlaps the next one, exists in the model only; the code goes on with a damaged heap, the driver's model stops with `Damaged` at its next request.
- Fat32: result structures are returned as values, though the allocations that hold them are made; a null from an unchecked `new` ends the run as `OutOfMemory`, an access outside a buffer as `Wild`; stage 1 ignores the result of `init`, the model does not.
- Init: error codes 1 and 2 cannot occur with `diskRead16`, which panics instead of returning false.
- Xtoa: negative values, whose digit loop does not produce digits, and buffers smaller than the text; the caller brings the buffer.
- Load: `e_phentsize` 0, with which the loop never ends, tables whose pointers run past 2^32, and segments placed over the file buffer or outside memory.
- LoadFile: tables that are empty or whose `e_phentsize` is not 32, the size the format gives; `Load` has them.
- GetEntry: what the walk does after its pointer has wrapped past the last address; the model stops there with `Wrapped`.
- ClearAndWrite: the text is in the colour the screen was cleared in; kmain sets another one for its first line.
- NameFromEntry: the returned name is the buffer's bytes; the static text for long-name entries has no address in the model.
- SetCursor: leaves the full-line flag as it is, as the code does, so the next newline may still be swallowed.
- Colours other than the attribute byte, and `setColor` outside the sixteen enumerators.
