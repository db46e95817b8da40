/** The stage 1 boot path: place the heap, mount the partition, fetch the kernel file. */
module Stage1Loader {
  import opened Bytes
  import opened StringC
  import opened HeapModel
  import opened HeapMemory
  import opened HeapAllocator
  import opened HeapSupply
  import opened DiskRead
  import opened BootMemory
  import opened Fat32Model
  import opened Fat32Driver

  /** Everything on the disk is in order for this file. */
  ghost predicate Delivers(d: Drive, part: nat, file: seq<byte>) {
    MountOf(d, part).Mounted? && RootFileOf(d, MountOf(d, part).volume, file).File?
  }

  /** Bytes of the one free block that PlaceHeap leaves between the image and the bounce buffer. */
  function HeapSpace(stop: nat): nat
    requires stop + 2 * HEADER <= BOUNCE
  {
    BOUNCE - stop - 2 * HEADER
  }

  /** What the allocator makes of all the requests of the boot path, from the heap as it is placed. */
  ghost function BootSupply(g: Guard, stop: nat, d: Drive, part: nat, file: seq<byte>): Supplies
    requires stop + 2 * HEADER <= BOUNCE
  {
    Supply(g, stop, [Block(HeapSpace(stop), false)], BootBefore(d, part, file) + BootLast(d, part, file))
  }

  /** And of those before the file's own buffer. */
  ghost function EarlySupply(g: Guard, stop: nat, d: Drive, part: nat, file: seq<byte>): Supplies
    requires stop + 2 * HEADER <= BOUNCE
  {
    Supply(g, stop, [Block(HeapSpace(stop), false)], BootBefore(d, part, file))
  }

  /** Loading succeeds exactly when the disk delivers the file and the heap hands out everything asked
      for; the last split may tear it, which torn says. */
  ghost predicate LoadsIff(g: Guard, stop: nat, d: Drive, part: nat, file: seq<byte>, s: Status, torn: bool)
    requires stop + 2 * HEADER <= BOUNCE
  {
    var supply, early := BootSupply(g, stop, d, part, file), EarlySupply(g, stop, d, part, file);
    && (s == Success <==> Delivers(d, part, file) && (supply.Supplied? || (early.Supplied? && supply.Tore?)))
    && (s == Success ==> (torn <==> supply.Tore?))
    && (s == Panic || s == Wild ==> !Delivers(d, part, file))
    && (s == OutOfMemory ==> supply == Short)
    && (s == Damaged ==> early == Tore && g == AsWritten)
  }

  /** Panic also stands for "Could not find KERNEL.BIN". Unless torn, the heap is intact. */
  method LoadKernel(mem: array<byte>, guard: Guard, drive: Drive, stop: nat, part: nat, file: seq<byte>)
      returns (s: Status, torn: bool, ptr: nat, size: nat, ghost v: Volume, ghost bytes: seq<byte>)
    requires DAP + DAP_SIZE <= stop && stop + 2 * HEADER <= BOUNCE && BOUNCE_END <= mem.Length <= WORD
    requires part < WORD && Terminated(file)
    modifies mem
    ensures LoadsIff(guard, stop, drive, part, CString(file), s, torn)
    ensures s == Success ==>
      && MountOf(drive, part) == Mounted(v)
      && RootFileOf(drive, v, CString(file)) == File(size, bytes)
      && Holds(mem[..], ptr, bytes)
      && stop + HEADER <= ptr && ptr + |bytes| <= BOUNCE && ptr + BufferSize(size) <= BOUNCE
    ensures s == Success && !torn ==> IsHeap(mem[..], stop, BOUNCE - HEADER)
  {
    var h := PlaceHeap(mem, guard, stop);
    var fat := new Fat32(h, drive);
    var found;
    s, torn, found, ptr, size, v, bytes := FetchFile(fat, stop, part, file);
    if s == Success {
      if found {
        FileIsClear(mem[..], h.heap, h.blocks, h.heapEnd, ptr, bytes, BufferSize(size));
        assert !torn ==> Chain(mem[..], stop, h.blocks, BOUNCE - HEADER);
      } else {
        s := Panic;
      }
    }
  }

  /** Mount, and ask for the file, on the heap as it was placed. */
  method FetchFile(fat: Fat32, ghost stop: nat, part: nat, file: seq<byte>)
      returns (s: Status, torn: bool, found: bool, ptr: nat, size: nat, ghost v: Volume, ghost bytes: seq<byte>)
    requires Stage1(fat.h) && part < WORD && Terminated(file) && stop + 2 * HEADER <= BOUNCE
    requires fat.h.heap == stop && fat.h.blocks == [Block(HeapSpace(stop), false)]
    modifies fat, fat.h`blocks, fat.h.mem
    ensures LoadsIff(fat.h.guard, stop, fat.drive, part, CString(file),
                     if s == Success && !found then Panic else s, torn)
    ensures s == Success && found ==>
      && MountOf(fat.drive, part) == Mounted(v)
      && RootFileOf(fat.drive, v, CString(file)) == File(size, bytes)
      && Placed(fat.h) && Owned(fat.h.heap, fat.h.mem[..], fat.h.blocks, ptr, bytes)
      && Lookup(fat.h.heap, fat.h.blocks, ptr).value.size >= BufferSize(size)
      && (!torn ==> fat.h.Valid())
  {
    torn, found, ptr, size, bytes := false, false, 0, 0, [];
    s := fat.Init(part);
    v := fat.volume;
    ghost var s1, b1 := s, fat.h.blocks;
    if s == Success {
      s, torn, found, ptr, size, bytes := fat.GetRootFile(file);
    }
    Conclude(fat.h.guard, stop, fat.drive, part, CString(file), v, s1, b1, s, torn, fat.h.blocks, found, size, bytes);
  }

  lemma FileIsClear(m: seq<byte>, a: nat, bs: seq<Block>, end: nat, ptr: nat, bytes: seq<byte>, n: nat)
    requires a + Total(bs) == end && DAP + DAP_SIZE <= a && end + HEADER == BOUNCE
    requires Owned(a, m, bs, ptr, bytes) && n <= Lookup(a, bs, ptr).value.size
    ensures Holds(m, ptr, bytes) && a + HEADER <= ptr && ptr + |bytes| <= BOUNCE && ptr + n <= BOUNCE
  {
    AllocationIsClear(a, bs, end, ptr, 0, |bytes|);
    AllocationIsClear(a, bs, end, ptr, 0, n);
  }

  /** What mounting and getRootFile came back with settles the outcome. */
  lemma Conclude(g: Guard, stop: nat, d: Drive, part: nat, file: seq<byte>, v: Volume, s1: Status, b1: seq<Block>,
                 s2: Status, torn: bool, b2: seq<Block>, found: bool, size: nat, bytes: seq<byte>)
    requires stop + 2 * HEADER <= BOUNCE
    requires Served(g, stop, [Block(HeapSpace(stop), false)], MountRequests(d, part), s1, b1)
    requires s1 == Success ==>
      && MountOf(d, part) == Mounted(v)
      && ServedFile(g, stop, b1, RootBefore(d, v, file), RootLast(d, v, file), s2, torn, b2)
      && Decided(RootFileOf(d, v, file), s2, found, size, bytes)
    requires s1 != Success ==>
      && s2 == s1 && !torn
      && (s1 == Panic ==> MountOf(d, part).MountFailed?) && (s1 == Wild ==> MountOf(d, part).MountWild?)
    ensures LoadsIff(g, stop, d, part, file, if s2 == Success && !found then Panic else s2, torn)
  {
    var b0 := [Block(HeapSpace(stop), false)];
    BootServed(g, stop, d, part, file, b0, s1, b1, s2, torn, b2);
    SupplyConcat(g, stop, b0, BootBefore(d, part, file), BootLast(d, part, file));
  }

  /** Mounting comes first, and getRootFile's requests only after it has succeeded. */
  lemma BootServed(g: Guard, a: nat, d: Drive, part: nat, file: seq<byte>,
                   b0: seq<Block>, s1: Status, b1: seq<Block>, s2: Status, torn: bool, b2: seq<Block>)
    requires Served(g, a, b0, MountRequests(d, part), s1, b1)
    requires if s1 == Success then
        && MountOf(d, part).Mounted?
        && var v := MountOf(d, part).volume;
           ServedFile(g, a, b1, RootBefore(d, v, file), RootLast(d, v, file), s2, torn, b2)
      else s2 == s1 && !torn
    ensures ServedFile(g, a, b0, BootBefore(d, part, file), BootLast(d, part, file), s2, torn, b2)
  {
    var before := match MountOf(d, part)
      case Mounted(v) => RootBefore(d, v, file)
      case _ => [];
    ServedAfter(g, a, b0, MountRequests(d, part), s1, b1, before, BootLast(d, part, file), s2, torn, b2);
  }

  // ---- how much memory the boot path needs ----

  /** Entries among the first k whose name is not static. */
  function Named(dir: seq<byte>, k: nat): nat
    requires ENTRY_SIZE * k <= |dir|
  {
    |NameRequests(dir, k)|
  }

  lemma {:induction false} NamesNeed(dir: seq<byte>, k: nat)
    requires ENTRY_SIZE * k <= |dir|
    ensures Needs(NameRequests(dir, k), (NAME_BUFFER + HEADER) * Named(dir, k))
  {
    if k > 0 {
      NamesNeed(dir, k - 1);
      var last := NameRequest(EntryAt(dir, k - 1));
      NeedOne(NAME_BUFFER);
      NeedBoth(NameRequests(dir, k - 1), last,
               (NAME_BUFFER + HEADER) * Named(dir, k - 1), (NAME_BUFFER + HEADER) * |last|);
    }
  }

  lemma SearchNeeds(dir: seq<byte>, n: nat, file: seq<byte>, i: nat, names: nat)
    requires ENTRY_SIZE * n <= |dir| && FindEntry(dir, n, file) == Some(i)
    requires Needs(NameRequests(dir, i + 1), names)
    ensures Needs(SearchRequests(dir, n, file), RESULT_SIZE + HEADER + names)
  {
    NeedOne(RESULT_SIZE);
    NeedBoth([RESULT_SIZE], NameRequests(dir, i + 1), RESULT_SIZE + HEADER, names);
  }

  lemma MountNeeds(d: Drive, part: nat)
    requires MountOf(d, part).Mounted? && MountOf(d, part).volume.geo.sectorsPerFat > 0
    ensures Needs(MountRequests(d, part),
      SECTOR_SIZE + HEADER + SECTOR_SIZE * MountOf(d, part).volume.geo.sectorsPerFat + HEADER)
  {
    var fat := SECTOR_SIZE * MountOf(d, part).volume.geo.sectorsPerFat;
    NeverMore(fat);
    NeedOne(SECTOR_SIZE);
    NeedOne(fat);
    NeedBoth([SECTOR_SIZE], [fat], SECTOR_SIZE + HEADER, fat + HEADER);
  }

  lemma NeverMore(x: nat)
    ensures x % WORD <= x
  {
  }

  lemma DirNeeds(v: Volume)
    requires v.geo.bytesPerSector == SECTOR_SIZE && v.geo.sectorsPerCluster >= 1
    ensures Needs(DirRequests(v), ClusterBytes(v.geo) + HEADER + RESULT_SIZE + HEADER)
  {
    NeedOne(ClusterBytes(v.geo));
    NeedOne(RESULT_SIZE);
    NeedBoth([ClusterBytes(v.geo)], [RESULT_SIZE], ClusterBytes(v.geo) + HEADER, RESULT_SIZE + HEADER);
  }

  lemma RootListed(d: Drive, v: Volume, file: seq<byte>, i: nat, cs: seq<nat>)
    requires HoldsFile(d, v, file, i, cs) && forall lba, n :: !d.fails(lba, n)
    ensures var dir := RootDirectory(d, v); var n := CountEntries(dir, 0).value;
      && ENTRY_SIZE * n <= |dir| && FindEntry(dir, n, file) == Some(i)
      && RootBefore(d, v, file) == DirRequests(v) + SearchRequests(dir, n, file)
      && RootLast(d, v, file) == [BufferSize(FileSize(EntryAt(dir, i)))]
  {
    RootIsListed(d, v, file, i, cs);
  }

  lemma BufferNotTiny(size: nat)
    requires size < WORD - SECTOR_SIZE
    ensures BufferSize(size) > 4
  {
    BufferSizeIs(size);
  }

  lemma RootNeeds(v: Volume, dir: seq<byte>, n: nat, file: seq<byte>, i: nat, names: nat)
    requires v.geo.bytesPerSector == SECTOR_SIZE && v.geo.sectorsPerCluster >= 1
    requires ENTRY_SIZE * n <= |dir| && FindEntry(dir, n, file) == Some(i)
    requires Needs(NameRequests(dir, i + 1), names)
    ensures Needs(DirRequests(v) + SearchRequests(dir, n, file),
      ClusterBytes(v.geo) + 2 * RESULT_SIZE + names + 3 * HEADER)
  {
    DirNeeds(v);
    SearchNeeds(dir, n, file, i, names);
    NeedBoth(DirRequests(v), SearchRequests(dir, n, file),
             ClusterBytes(v.geo) + HEADER + RESULT_SIZE + HEADER, RESULT_SIZE + HEADER + names);
  }

  /** Finding the file on a mounted volume: the directory's cluster, two result structures and a name
      for every entry up to the file's, each with its header. */
  function RootNeed(v: Volume, dir: seq<byte>, i: nat): nat
    requires ENTRY_SIZE * i + ENTRY_SIZE <= |dir|
  {
    ClusterBytes(v.geo) + 2 * RESULT_SIZE + (NAME_BUFFER + HEADER) * Named(dir, i + 1) + 3 * HEADER
  }

  /** Boot record and FAT come before that. */
  function EarlyNeed(v: Volume, dir: seq<byte>, i: nat): nat
    requires ENTRY_SIZE * i + ENTRY_SIZE <= |dir|
  {
    SECTOR_SIZE + HEADER + SECTOR_SIZE * v.geo.sectorsPerFat + HEADER + RootNeed(v, dir, i)
  }

  /** And the file's buffer after it: all it takes to load the file. */
  function BootNeed(v: Volume, dir: seq<byte>, i: nat): nat
    requires ENTRY_SIZE * i + ENTRY_SIZE <= |dir|
  {
    EarlyNeed(v, dir, i) + BufferSize(FileSize(EntryAt(dir, i))) + HEADER
  }

  lemma RootNeedSum(v: Volume, dir: seq<byte>, n: nat, file: seq<byte>, i: nat)
    requires v.geo.bytesPerSector == SECTOR_SIZE && v.geo.sectorsPerCluster >= 1
    requires ENTRY_SIZE * n <= |dir| && FindEntry(dir, n, file) == Some(i)
    ensures Needs(DirRequests(v) + SearchRequests(dir, n, file), RootNeed(v, dir, i))
  {
    NamesNeed(dir, i + 1);
    RootNeeds(v, dir, n, file, i, (NAME_BUFFER + HEADER) * Named(dir, i + 1));
  }

  lemma EarlyNeedIs(d: Drive, part: nat, file: seq<byte>, i: nat, cs: seq<nat>)
    requires MountOf(d, part).Mounted?
    requires HoldsFile(d, MountOf(d, part).volume, file, i, cs) && forall lba, n :: !d.fails(lba, n)
    ensures Needs(BootBefore(d, part, file),
      EarlyNeed(MountOf(d, part).volume, RootDirectory(d, MountOf(d, part).volume), i))
  {
    var v := MountOf(d, part).volume;
    var dir := RootDirectory(d, v);
    RootListed(d, v, file, i, cs);
    MountNeeds(d, part);
    RootNeedSum(v, dir, CountEntries(dir, 0).value, file, i);
    NeedBoth(MountRequests(d, part), RootBefore(d, v, file),
             SECTOR_SIZE + HEADER + SECTOR_SIZE * v.geo.sectorsPerFat + HEADER, RootNeed(v, dir, i));
  }

  lemma BootNeedIs(d: Drive, part: nat, file: seq<byte>, i: nat, cs: seq<nat>)
    requires MountOf(d, part).Mounted?
    requires HoldsFile(d, MountOf(d, part).volume, file, i, cs) && forall lba, n :: !d.fails(lba, n)
    ensures var v := MountOf(d, part).volume; var dir := RootDirectory(d, v);
      && BootLast(d, part, file) == [BufferSize(FileSize(EntryAt(dir, i)))]
      && NotTiny(BootBefore(d, part, file))
      && Needs(BootBefore(d, part, file) + BootLast(d, part, file), BootNeed(v, dir, i))
  {
    var v := MountOf(d, part).volume;
    var size := BufferSize(FileSize(EntryAt(RootDirectory(d, v), i)));
    RootListed(d, v, file, i, cs);
    BufferNotTiny(FileSize(EntryAt(RootDirectory(d, v), i)));
    EarlyNeedIs(d, part, file, i, cs);
    NeedOne(size);
    NeedBoth(BootBefore(d, part, file), [size], EarlyNeed(v, RootDirectory(d, v), i), size + HEADER);
  }

  /** From one free block: requests are all handed out, the last one perhaps torn, exactly when they
      and their headers are no more than the block and its header. */
  lemma HandedOutIff(g: Guard, a: nat, free: nat, reqs: seq<nat>, last: nat, need: nat)
    requires free < WORD - HEADER - 4 && Needs(reqs + [last], need)
    ensures var bs := [Block(free, false)]; var r := Supply(g, a, bs, reqs + [last]);
      && (r.Supplied? || TearsLast(g, a, bs, reqs, last) <==> need <= free + HEADER)
      && (TearsLast(g, a, bs, reqs, last) <==> g == AsWritten && free < need < free + HEADER)
  {
    assert [] + [Block(free, false)] == [Block(free, false)];
    SuppliedIff(g, a, [], free, reqs + [last]);
    if g == AsWritten { TearsLastIff(a, [], free, reqs, last); }
  }

  /** The boot path gets all it asks for exactly when that fits the one free block with its header. */
  lemma BootFits(g: Guard, stop: nat, d: Drive, part: nat, file: seq<byte>, i: nat, cs: seq<nat>)
    requires stop + 2 * HEADER <= BOUNCE && MountOf(d, part).Mounted?
    requires HoldsFile(d, MountOf(d, part).volume, file, i, cs) && forall lba, n :: !d.fails(lba, n)
    ensures var v := MountOf(d, part).volume; var need := BootNeed(v, RootDirectory(d, v), i);
      var supply, early := BootSupply(g, stop, d, part, file), EarlySupply(g, stop, d, part, file);
      && (supply.Supplied? || (early.Supplied? && supply.Tore?) <==> need <= HeapSpace(stop) + HEADER)
      && (early.Supplied? && supply.Tore? <==> g == AsWritten && HeapSpace(stop) < need < HeapSpace(stop) + HEADER)
  {
    var v := MountOf(d, part).volume;
    BootNeedIs(d, part, file, i, cs);
    HandedOutIff(g, stop, HeapSpace(stop), BootBefore(d, part, file), BootLast(d, part, file)[0],
                 BootNeed(v, RootDirectory(d, v), i));
  }

  // ---- the whole boot path ----

  /** Boot path, end to end, from a readable volume that holds the file. Whether loading succeeds is
      a matter of sizes alone: what the boot path asks for has to fit the region from the image to
      the bounce buffer. It then reports the size from the directory entry and leaves the file's bytes
      below the bounce buffer; but of a file over one sector, in clusters of several, too few of them.
      With 1 to 7 bytes to spare the split test as written has torn the heap by then. */
  method LoadKernelFile(mem: array<byte>, guard: Guard, drive: Drive, stop: nat, part: nat, file: seq<byte>,
                        ghost i: nat, ghost cs: seq<nat>)
      returns (s: Status, torn: bool, ptr: nat, size: nat)
    requires DAP + DAP_SIZE <= stop && stop + 2 * HEADER <= BOUNCE && BOUNCE_END <= mem.Length <= WORD
    requires part < WORD && Terminated(file)
    requires MountOf(drive, part).Mounted? && forall lba, n :: !drive.fails(lba, n)
    requires HoldsFile(drive, MountOf(drive, part).volume, CString(file), i, cs)
    modifies mem
    ensures var v := MountOf(drive, part).volume; var need := BootNeed(v, RootDirectory(drive, v), i);
      && (s == Success <==> need <= HeapSpace(stop) + HEADER)
      && (s == Success ==>
            (torn <==> guard == AsWritten && HeapSpace(stop) < need < HeapSpace(stop) + HEADER))
    ensures s == Success && !torn ==> IsHeap(mem[..], stop, BOUNCE - HEADER)
    ensures s == Success || s == OutOfMemory || (s == Damaged && guard == AsWritten)
    ensures s == Success ==>
      var v := MountOf(drive, part).volume;
      && size == FileSize(EntryAt(RootDirectory(drive, v), i))
      && stop + HEADER <= ptr && ptr + BufferSize(size) <= BOUNCE
      && Holds(mem[..], ptr, FirstSectors(drive, v, cs))
      && (v.geo.sectorsPerCluster == 1 || size <= SECTOR_SIZE ==>
            size <= |WholeClusters(drive, v, cs)| && Holds(mem[..], ptr, WholeClusters(drive, v, cs)[..size]))
      && (v.geo.sectorsPerCluster > 1 && size > SECTOR_SIZE ==> |FirstSectors(drive, v, cs)| < size)
  {
    ghost var vol := MountOf(drive, part).volume;
    ghost var v, bytes;
    RootFileIsFirstSectors(drive, vol, CString(file), i, cs);
    RootFileIsTheFile(drive, vol, CString(file), i, cs);
    BootFits(guard, stop, drive, part, CString(file), i, cs);
    s, torn, ptr, size, v, bytes := LoadKernel(mem, guard, drive, stop, part, file);
    if s == Success && size <= |bytes| {
      HoldsPrefix(mem[..], ptr, bytes, size);
    }
  }

  lemma HoldsPrefix(m: seq<byte>, ptr: nat, bytes: seq<byte>, size: nat)
    requires Holds(m, ptr, bytes) && size <= |bytes|
    ensures Holds(m, ptr, bytes[..size])
  {
    assert m[ptr..ptr + |bytes|][..size] == m[ptr..ptr + size];
  }
}
