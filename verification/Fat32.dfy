/** The FAT32 driver as it runs: every buffer comes from the heap, every sector over the bounce
    buffer, all in one memory. */
module Fat32Driver {
  import opened Bytes
  import opened StringC
  import opened HeapModel
  import opened HeapMemory
  import opened HeapAllocator
  import opened HeapSupply
  import opened DiskRead
  import opened BootMemory
  import opened Fat32Model

  /** Panic is earlyPanic. Wild is an access outside what was allocated, OutOfMemory a null from
      operator new, Damaged a torn heap with requests still to come: after each of them the run is over. */
  datatype Status = Success | OutOfMemory | Panic | Wild | Damaged

  /** What a status says about the requests behind it: memory runs out, or the heap is torn, only
      where the allocator does that to one of them, and success takes all of them from the heap. */
  ghost predicate Served(g: Guard, a: nat, bs: seq<Block>, reqs: seq<nat>, s: Status, after: seq<Block>) {
    && (s == Success ==> Supply(g, a, bs, reqs) == Supplied(after))
    && (s == OutOfMemory ==> Supply(g, a, bs, reqs) == Short)
    && (s == Damaged ==> Supply(g, a, bs, reqs) == Tore && g == AsWritten)
  }

  /** Two steps in a row; the second is not taken unless the first succeeds. */
  lemma ServedThen(g: Guard, a: nat, b0: seq<Block>, xs: seq<nat>, s1: Status, b1: seq<Block>,
                   ys: seq<nat>, s2: Status, b2: seq<Block>)
    requires Served(g, a, b0, xs, s1, b1)
    requires if s1 == Success then Served(g, a, b1, ys, s2, b2) else s2 == s1
    ensures Served(g, a, b0, xs + ys, s2, b2)
  {
    SupplyConcat(g, a, b0, xs, ys);
  }

  /** The same for an operation that ends with the buffer of a file. A torn split there comes too late
      to matter to the operation, which goes on; torn says that it happened. */
  ghost predicate ServedFile(g: Guard, a: nat, bs: seq<Block>, before: seq<nat>, last: seq<nat>,
                             s: Status, torn: bool, after: seq<Block>) {
    && (s == Success && !torn ==> Supply(g, a, bs, before + last) == Supplied(after))
    && (s == OutOfMemory ==> Supply(g, a, bs, before + last) == Short)
    && (s == Damaged ==> Supply(g, a, bs, before) == Tore && g == AsWritten)
    && (torn ==> Supply(g, a, bs, before).Supplied? && Supply(g, a, bs, before + last) == Tore && g == AsWritten)
  }

  /** Everything before the buffer, then the buffer if it came to that. */
  lemma ServedLast(g: Guard, a: nat, b0: seq<Block>, before: seq<nat>, s1: Status, b1: seq<Block>,
                   last: seq<nat>, s2: Status, torn: bool, b2: seq<Block>)
    requires Served(g, a, b0, before, s1, b1)
    requires torn ==> s2 != OutOfMemory
    requires if s1 == Success then s2 != Damaged && Served(g, a, b1, last, if torn then Damaged else s2, b2)
      else s2 == s1 && !torn
    ensures ServedFile(g, a, b0, before, last, s2, torn, b2)
  {
    SupplyConcat(g, a, b0, before, last);
  }

  /** What went before all that. */
  lemma ServedAfter(g: Guard, a: nat, b0: seq<Block>, xs: seq<nat>, s1: Status, b1: seq<Block>,
                    before: seq<nat>, last: seq<nat>, s2: Status, torn: bool, b2: seq<Block>)
    requires Served(g, a, b0, xs, s1, b1)
    requires if s1 == Success then ServedFile(g, a, b1, before, last, s2, torn, b2) else s2 == s1 && !torn
    ensures ServedFile(g, a, b0, xs + before, last, s2, torn, b2)
  {
    SupplyConcat(g, a, b0, xs, before);
    assert xs + before + last == xs + (before + last);
    SupplyConcat(g, a, b0, xs, before + last);
  }

  lemma OwnedBytes(a: nat, m: seq<byte>, bs: seq<Block>, p: nat, data: seq<byte>, off: nat, n: nat)
    requires Owned(a, m, bs, p, data) && off + n <= |data|
    ensures p + off + n <= |m| && m[p + off..p + off + n] == data[off..off + n]
  {
    SliceOfSlice(m, p, data, off, n);
  }

  /** The two reads of init decide what the volume is. */
  lemma MountSteps(d: Drive, part: nat, sectors: nat, reserved: nat)
    requires Readable(d, part, 1)
    requires sectors == Le32(Delivered(d, part, 1), 36) && reserved == Le16(Delivered(d, part, 1), 14)
    ensures var lba := (part + reserved) % WORD;
      MountOf(d, part) ==
        if !Readable(d, lba, sectors) then MountFailed
        else if FatBytes(sectors) < SECTOR_SIZE * sectors then MountWild
        else Mounted(Volume(part, DecodeGeometry(Delivered(d, part, 1)), Delivered(d, lba, sectors)))
  {
  }

  lemma CStringPrefix(r: seq<byte>, rest: seq<byte>)
    requires Terminated(r)
    ensures Terminated(r + rest) && CString(r + rest) == CString(r)
  {
    assert (r + rest)[0] == r[0];
    if r[0] != 0 {
      assert (r + rest)[1..] == r[1..] + rest;
      CStringPrefix(r[1..], rest);
    } else {
      assert 0 in r + rest;
    }
  }

  lemma HoldsAppend(m: seq<byte>, m': seq<byte>, p: nat, bytes: seq<byte>, at: nat, more: seq<byte>)
    requires at == p + |bytes| && Holds(m, p, bytes) && Same(m, m', p, at) && Holds(m', at, more)
    ensures Holds(m', p, bytes + more)
  {
    var all := bytes + more;
    forall k | 0 <= k < |all| ensures m'[p..p + |all|][k] == all[k] {
      if k < |bytes| {
        assert m'[p + k] == m[p + k] == m[p..p + |bytes|][k];
      } else {
        assert m'[p + k] == m'[p + |bytes|..p + |bytes| + |more|][k - |bytes|];
      }
    }
  }

  /** What is copied in all, once these bytes have been. */
  function CopiedAfter(bytes: seq<byte>, rest: Copied): Copied {
    match rest
    case Data(more) => Data(bytes + more)
    case other => other
  }

  lemma CopiedAfterNothing(rest: Copied)
    ensures CopiedAfter([], rest) == rest
  {
    if rest.Data? { assert [] + rest.bytes == rest.bytes; }
  }

  lemma CopiedAfterEnd(bytes: seq<byte>)
    ensures CopiedAfter(bytes, Data([])) == Data(bytes)
  {
    assert bytes + [] == bytes;
  }

  lemma CopiedStep(d: Drive, v: Volume, c: nat, room: nat, bytes: seq<byte>)
    requires !IsClusterEnd(c) && room > 0 && Readable(d, ClusterLba(v, c), 1) && InFat(v.fat, c)
    ensures CopiedAfter(bytes, CopyChain(d, v, c, room)) ==
      CopiedAfter(bytes + Delivered(d, ClusterLba(v, c), 1), CopyChain(d, v, FatEntry(v.fat, c), room - 1))
  {
    var rest := CopyChain(d, v, FatEntry(v.fat, c), room - 1);
    if rest.Data? {
      var one := Delivered(d, ClusterLba(v, c), 1);
      assert bytes + (one + rest.bytes) == bytes + one + rest.bytes;
    }
  }

  /** The verdict on a file, and what getRootFile comes back with. */
  ghost predicate Decided(r: Verdict, s: Status, found: bool, size: nat, bytes: seq<byte>) {
    && (s == Success ==> r == if found then File(size, bytes) else Absent)
    && (s == Panic ==> r == FileFailed)
    && (s == Wild ==> r == FileWild)
  }

  /** What the walk along the file's chain decides once its entry is found. */
  lemma ChainDecides(d: Drive, v: Volume, file: seq<byte>, dir: seq<byte>, n: nat, i: nat,
                     r: Copied, s: Status, bytes: seq<byte>)
    requires ENTRY_SIZE * n <= |dir| && i < n && FoundAt(dir, n, file, i)
    requires r == CopyChain(d, v, FirstCluster(EntryAt(dir, i)), BufferSize(FileSize(EntryAt(dir, i))) / SECTOR_SIZE)
    requires Walked(r, s, bytes)
    ensures Decided(FileIn(d, v, dir, n, file), s, true, FileSize(EntryAt(dir, i)), bytes)
  {
  }

  /** The same for the walk itself. */
  ghost predicate Walked(r: Copied, s: Status, bytes: seq<byte>) {
    && (s == Success ==> r == Data(bytes))
    && (s == Panic ==> r == Failed)
    && (s == Wild ==> r == Overrun)
  }

  lemma SourceByte(m: seq<byte>, src: nat, e: seq<byte>)
    requires Holds(m, src, e)
    ensures forall k :: src <= k < src + |e| ==> m[k] == e[k - src]
  {
    assert forall k :: src <= k < src + |e| ==> m[k] == m[src..src + |e|][k - src];
  }

  lemma NameFilled(m: seq<byte>, p: nat, n: nat, e: seq<byte>)
    requires |e| == ENTRY_SIZE && e[11] != ATTR_LFN && n == |Stem(e[..8])| && p + NAME_BUFFER <= |m|
    requires forall k :: p <= k < p + n ==> m[k] == e[k - p]
    requires if e[11] == ATTR_SUBDIRECTORY then m[p + n] == 0
      else m[p + n] == DOT && m[p + n + 1] == e[8] && m[p + n + 2] == e[9] && m[p + n + 3] == e[10] && m[p + n + 4] == 0
    ensures Holds(m, p, Rendered(e))
  {
    var stem, tail := Stem(e[..8]), NameTail(e);
    RenderedParts(e);
    assert m[p..p + n] == stem by {
      forall k | 0 <= k < n ensures m[p + k] == stem[k] {
        assert stem[k] == e[..8][k] == e[k];
      }
    }
    assert m[p + n..p + n + |tail|] == tail;
    HoldsAppend(m, m, p, stem, p + n, tail);
  }

  /** The 13 bytes of a name buffer: the name as it is rendered, then whatever was there. */
  ghost predicate NameText(e: seq<byte>, name: seq<byte>)
    requires |e| == ENTRY_SIZE
  {
    && |name| == NAME_BUFFER && name[..|Rendered(e)|] == Rendered(e)
    && Terminated(name) && CString(name) == CString(Rendered(e))
  }

  lemma NameInBuffer(m: seq<byte>, p: nat, e: seq<byte>)
    requires |e| == ENTRY_SIZE && p + NAME_BUFFER <= |m| && Holds(m, p, Rendered(e))
    ensures NameText(e, m[p..p + NAME_BUFFER])
  {
    var r, name := Rendered(e), m[p..p + NAME_BUFFER];
    assert name[..|r|] == m[p..p + |r|];
    assert name == r + name[|r|..];
    CStringPrefix(r, name[|r|..]);
  }

  /** What filling a name buffer keeps, and what it leaves. */
  lemma NameStored(m: seq<byte>, m': seq<byte>, a: nat, bs: seq<Block>, end: nat, p: nat,
                   dirPtr: nat, dir: seq<byte>, e: seq<byte>, name: seq<byte>)
    requires Chain(m, a, bs, end) && DAP + DAP_SIZE <= a && end + HEADER == BOUNCE
    requires Live(a, bs, p) && NAME_BUFFER <= Lookup(a, bs, p).value.size && p != dirPtr
    requires Owned(a, m, bs, dirPtr, dir) && OnlyReadTo(m, m', p, p + NAME_BUFFER)
    requires |e| == ENTRY_SIZE && Holds(m', p, Rendered(e))
    requires p + NAME_BUFFER <= |m'| && name == m'[p..p + NAME_BUFFER]
    ensures Chain(m', a, bs, end) && KeptExcept(a, m, bs, m', bs, p)
    ensures Owned(a, m', bs, dirPtr, dir) && Owned(a, m', bs, p, name) && NameText(e, name)
  {
    LinksTile(m, a, bs, end);
    ReadIntoAllocation(m, m', a, bs, end, p, 0, NAME_BUFFER);
    LookupInside(a, bs, p);
    OwnedKept(a, m, bs, m', bs, p, dirPtr, dir);
    NameInBuffer(m', p, e);
  }

  /** Two live allocations do not overlap. */
  lemma Separate(m: seq<byte>, a: nat, bs: seq<Block>, end: nat, p: nat, n: nat, q: nat, k: nat)
    requires Chain(m, a, bs, end) && Live(a, bs, p) && Live(a, bs, q) && p != q
    requires n <= Lookup(a, bs, p).value.size && k <= Lookup(a, bs, q).value.size
    ensures p + n <= q || q + k <= p
    ensures p + n <= |m| && q + k <= |m|
  {
    LinksTile(m, a, bs, end);
    LookupInside(a, bs, p);
    LookupInside(a, bs, q);
    if p < q { LookupApart(a, bs, p, q); } else { LookupApart(a, bs, q, p); }
  }

  class Fat32 {
    const h: Heap
    const drive: Drive
    var vbr: nat
    var fatPtr: nat
    var part: nat
    ghost var boot: seq<byte>
    ghost var volume: Volume

    constructor (h: Heap, drive: Drive)
      ensures this.h == h && this.drive == drive
    {
      this.h := h;
      this.drive := drive;
      vbr, fatPtr, part := 0, 0, 0;
      boot := [];
      volume := Volume(0, Geometry(0, 0, 0, 0, 0, 0), []);
    }

    /** The boot record and the FAT of the volume are the driver's allocations. */
    ghost predicate Held()
      reads this, h, h.mem
    {
      && Placed(h) && Consistent()
      && Owned(h.heap, h.mem[..], h.blocks, vbr, boot)
      && Owned(h.heap, h.mem[..], h.blocks, fatPtr, volume.fat)
    }

    /** And the heap they are in is intact. */
    ghost predicate Ready()
      reads this, h, h.mem
    {
      Held() && h.Valid()
    }

    /** The volume is what its boot record says. */
    ghost predicate Consistent()
      reads this
    {
      && part < WORD && volume.part == part && vbr != fatPtr
      && |boot| == SECTOR_SIZE && volume.geo == DecodeGeometry(boot)
      && |volume.fat| == SECTOR_SIZE * volume.geo.sectorsPerFat
    }

    /** What every operation keeps of the allocations that were live before it. */
    twostate predicate OthersKept()
      reads h, h.mem
    {
      KeptExcept(h.heap, old(h.mem[..]), old(h.blocks), h.mem[..], h.blocks, 0)
    }

    /** Allocate a buffer of size bytes and read into it, the pattern of init and readDir. */
    method Fetch(size: nat, lba: nat, sectors: nat) returns (s: Status, p: nat)
      requires Stage1(h) && lba < WORD
      modifies h`blocks, h.mem
      ensures s == Success ==>
        && Readable(drive, lba, sectors) && SECTOR_SIZE * sectors <= size
        && Owned(h.heap, h.mem[..], h.blocks, p, Delivered(drive, lba, sectors))
        && Lookup(h.heap, h.blocks, p).value.size >= size
        && !Live(h.heap, old(h.blocks), p)
      ensures Served(h.guard, h.heap, old(h.blocks), [size], s, h.blocks)
      ensures s == Panic ==> !Readable(drive, lba, sectors)
      ensures s == Wild ==> Readable(drive, lba, sectors) && size < SECTOR_SIZE * sectors
      ensures s != Damaged ==> Stage1(h) && OthersKept()
    {
      s, p := NewBuffer(size);
      if s != Success { return; }
      if size < SECTOR_SIZE * sectors {
        return if Readable(drive, lba, sectors) then Wild else Panic, p;
      }
      ghost var m1 := h.mem[..];
      var ok := ReadInto(h, drive, lba, p, 0, sectors);
      KeptTrans(h.heap, old(h.mem[..]), old(h.blocks), m1, h.blocks, h.mem[..], h.blocks, 0, p);
      s := if ok then Success else Panic;
    }

    method Init(partitionLBA: nat) returns (s: Status)
      requires Stage1(h) && partitionLBA < WORD
      modifies this, h`blocks, h.mem
      ensures s == Success ==> Ready() && part == partitionLBA && MountOf(drive, partitionLBA) == Mounted(volume)
      ensures Served(h.guard, h.heap, old(h.blocks), MountRequests(drive, partitionLBA), s, h.blocks)
      ensures s == Panic ==> MountOf(drive, partitionLBA).MountFailed?
      ensures s == Wild ==> MountOf(drive, partitionLBA).MountWild?
      ensures s != Damaged ==> Stage1(h) && OthersKept()
    {
      ghost var m0, b0 := h.mem[..], h.blocks;
      boot := Delivered(drive, partitionLBA, 1);
      s, vbr := Fetch(SECTOR_SIZE, partitionLBA, 1);
      ghost var s1, b1 := s, h.blocks;
      if s == Success {
        s := InitRest(partitionLBA, m0, b0);
      }
      ServedThen(h.guard, h.heap, b0, [SECTOR_SIZE], s1, b1, [FatBytes(Le32(boot, 36))], s, h.blocks);
    }

    /** With the boot record in memory: read the FAT, and note where everything is. */
    method InitRest(partitionLBA: nat, ghost m0: seq<byte>, ghost b0: seq<Block>) returns (s: Status)
      requires Stage1(h) && partitionLBA < WORD && Readable(drive, partitionLBA, 1)
      requires boot == Delivered(drive, partitionLBA, 1) && Owned(h.heap, h.mem[..], h.blocks, vbr, boot)
      requires KeptExcept(h.heap, m0, b0, h.mem[..], h.blocks, 0) && |m0| == h.mem.Length
      modifies this`fatPtr, this`part, this`volume, h`blocks, h.mem
      ensures s == Success ==> Ready() && part == partitionLBA && MountOf(drive, partitionLBA) == Mounted(volume)
      ensures Served(h.guard, h.heap, old(h.blocks), [FatBytes(Le32(boot, 36))], s, h.blocks)
      ensures s == Panic ==> MountOf(drive, partitionLBA).MountFailed?
      ensures s == Wild ==> MountOf(drive, partitionLBA).MountWild?
      ensures s != Damaged ==> Stage1(h) && KeptExcept(h.heap, m0, b0, h.mem[..], h.blocks, 0)
    {
      ghost var m1, b1 := h.mem[..], h.blocks;
      var sectors := ReadWord(vbr, 36, boot);
      var reserved := ReadHalf(vbr, 14, boot);
      var lba := (partitionLBA + reserved) % WORD;
      MountSteps(drive, partitionLBA, sectors, reserved);
      s := InitFat(lba, sectors);
      if s != Damaged { KeptTrans(h.heap, m0, b0, m1, b1, h.mem[..], h.blocks, 0, 0); }
      if s == Success {
        part := partitionLBA;
        volume := Volume(part, DecodeGeometry(boot), Delivered(drive, lba, sectors));
      }
    }

    /** The second half of init: sectorsPerFAT sectors' worth of uint32_t, as the size wraps. */
    method InitFat(lba: nat, sectors: nat) returns (s: Status)
      requires Stage1(h) && lba < WORD && Owned(h.heap, h.mem[..], h.blocks, vbr, boot)
      modifies this`fatPtr, h`blocks, h.mem
      ensures s == Success ==>
        && Readable(drive, lba, sectors) && SECTOR_SIZE * sectors <= FatBytes(sectors)
        && vbr != fatPtr
        && Owned(h.heap, h.mem[..], h.blocks, vbr, boot)
        && Owned(h.heap, h.mem[..], h.blocks, fatPtr, Delivered(drive, lba, sectors))
      ensures Served(h.guard, h.heap, old(h.blocks), [FatBytes(sectors)], s, h.blocks)
      ensures s == Panic ==> !Readable(drive, lba, sectors)
      ensures s == Wild ==> Readable(drive, lba, sectors) && FatBytes(sectors) < SECTOR_SIZE * sectors
      ensures s != Damaged ==> Stage1(h) && OthersKept()
    {
      s, fatPtr := Fetch(FatBytes(sectors), lba, sectors);
      if s == Success {
        OwnedKept(h.heap, old(h.mem[..]), old(h.blocks), h.mem[..], h.blocks, 0, vbr, boot);
      }
    }

    method ReadWord(p: nat, off: nat, ghost data: seq<byte>) returns (w: nat)
      requires Owned(h.heap, h.mem[..], h.blocks, p, data) && off + 4 <= |data|
      ensures w == Le32(data, off)
    {
      OwnedBytes(h.heap, h.mem[..], h.blocks, p, data, off, 4);
      w := Le32(h.mem[..], p + off);
      SliceLe32(h.mem[..], p + off, data, off);
    }

    method ReadHalf(p: nat, off: nat, ghost data: seq<byte>) returns (w: nat)
      requires Owned(h.heap, h.mem[..], h.blocks, p, data) && off + 2 <= |data|
      ensures w == Le16(data, off)
    {
      OwnedBytes(h.heap, h.mem[..], h.blocks, p, data, off, 2);
      w := Le16(h.mem[..], p + off);
      SliceLe16(h.mem[..], p + off, data, off);
    }

    method ReadByte(p: nat, off: nat, ghost data: seq<byte>) returns (w: nat)
      requires Owned(h.heap, h.mem[..], h.blocks, p, data) && off < |data|
      ensures w == data[off]
    {
      OwnedBytes(h.heap, h.mem[..], h.blocks, p, data, off, 1);
      w := h.mem[p + off];
      assert h.mem[..][p + off..p + off + 1][0] == data[off..off + 1][0];
    }

    /** The boot record's fields, read from memory as often as the code does. */
    method ReadGeometry() returns (g: Geometry)
      requires Held()
      ensures g == volume.geo
    {
      var bps := ReadHalf(vbr, 11, boot);
      var spc := ReadByte(vbr, 13, boot);
      var reserved := ReadHalf(vbr, 14, boot);
      var fats := ReadByte(vbr, 16, boot);
      var spf := ReadWord(vbr, 36, boot);
      var root := ReadWord(vbr, 44, boot);
      g := Geometry(bps, spc, reserved, fats, spf, root);
    }

    /** _FATptr[c], masked; None when it is outside the buffer. */
    method ReadFat(c: nat) returns (e: Option<nat>)
      requires Held()
      ensures e == if InFat(volume.fat, c) then Some(FatEntry(volume.fat, c)) else None
    {
      var g := ReadGeometry();
      if FatOffset(c) + 4 > SECTOR_SIZE * g.sectorsPerFat {
        return None;
      }
      var w := ReadWord(fatPtr, FatOffset(c), volume.fat);
      return Some(w % CLUSTER_BITS);
    }

    method LbaOf(c: nat) returns (lba: nat)
      requires Held()
      ensures lba == ClusterLba(volume, c)
    {
      var g := ReadGeometry();
      lba := LbaIn(g, part, c);
    }

    /** Nothing the driver holds on to moved or changed. */
    lemma StillHeld(m: seq<byte>, bs: seq<Block>, x: nat)
      requires Placed(h) && Consistent()
      requires Owned(h.heap, m, bs, vbr, boot) && Owned(h.heap, m, bs, fatPtr, volume.fat)
      requires KeptExcept(h.heap, m, bs, h.mem[..], h.blocks, x) && |m| == h.mem.Length
      requires x == 0 || !Live(h.heap, bs, x) || (x != vbr && x != fatPtr)
      ensures Held()
    {
      OwnedKept(h.heap, m, bs, h.mem[..], h.blocks, x, vbr, boot);
      OwnedKept(h.heap, m, bs, h.mem[..], h.blocks, x, fatPtr, volume.fat);
    }

    method ReadDir(cluster: nat) returns (s: Status, dirPtr: nat, numEntries: nat, ghost dir: seq<byte>)
      requires Ready()
      modifies h`blocks, h.mem
      ensures s == Success ==>
        && DirectoryOf(drive, volume, cluster) == Listing(dir, numEntries)
        && Owned(h.heap, h.mem[..], h.blocks, dirPtr, dir)
        && !Live(h.heap, old(h.blocks), dirPtr)
      ensures Served(h.guard, h.heap, old(h.blocks), DirRequests(volume), s, h.blocks)
      ensures s == Panic ==> DirectoryOf(drive, volume, cluster) == DirFailed
      ensures s == Wild ==> DirectoryOf(drive, volume, cluster) == DirWild
      ensures s != Damaged ==> Ready() && OthersKept()
    {
      dirPtr, numEntries, dir := 0, 0, [];
      s := CheckCluster(cluster);
      if s == Success {
        s, dirPtr, numEntries, dir := FetchDir(cluster);
      }
    }

    /** A directory of more than one cluster is refused before anything is allocated for it. */
    method CheckCluster(cluster: nat) returns (s: Status)
      requires Held()
      ensures s == Success || s == Panic || s == Wild
      ensures s == Success ==> InFat(volume.fat, cluster) && DirTestAccepts(FatEntry(volume.fat, cluster))
      ensures s == Panic ==> DirectoryOf(drive, volume, cluster) == DirFailed
      ensures s == Wild ==> DirectoryOf(drive, volume, cluster) == DirWild
    {
      var e := ReadFat(cluster);
      s := if e.None? then Wild else if DirTestAccepts(e.value) then Success else Panic;
    }

    method FetchDir(cluster: nat) returns (s: Status, dirPtr: nat, numEntries: nat, ghost dir: seq<byte>)
      requires Ready() && InFat(volume.fat, cluster) && DirTestAccepts(FatEntry(volume.fat, cluster))
      modifies h`blocks, h.mem
      ensures s == Success ==>
        && DirectoryOf(drive, volume, cluster) == Listing(dir, numEntries)
        && Owned(h.heap, h.mem[..], h.blocks, dirPtr, dir)
        && !Live(h.heap, old(h.blocks), dirPtr)
      ensures Served(h.guard, h.heap, old(h.blocks), DirRequests(volume), s, h.blocks)
      ensures s == Panic ==> DirectoryOf(drive, volume, cluster) == DirFailed
      ensures s == Wild ==> DirectoryOf(drive, volume, cluster) == DirWild
      ensures s != Damaged ==> Ready() && OthersKept()
    {
      var g := ReadGeometry();
      var lba := LbaOf(cluster);
      numEntries, dir := 0, Delivered(drive, lba, g.sectorsPerCluster);
      ghost var m0, b0 := h.mem[..], h.blocks;
      s, dirPtr := Fetch(ClusterBytes(g), lba, g.sectorsPerCluster);
      ghost var s1, b1 := s, h.blocks;
      if s != Damaged { StillHeld(m0, b0, 0); }
      if s == Success {
        s, numEntries := FinishDir(dirPtr, SECTOR_SIZE * g.sectorsPerCluster, dir, m0, b0);
      }
      DirServed(b0, s1, b1, s, h.blocks);
    }

    lemma DirServed(b0: seq<Block>, s1: Status, b1: seq<Block>, s2: Status, b2: seq<Block>)
      requires Served(h.guard, h.heap, b0, [ClusterBytes(volume.geo)], s1, b1)
      requires if s1 == Success then Served(h.guard, h.heap, b1, [RESULT_SIZE], s2, b2) else s2 == s1
      ensures Served(h.guard, h.heap, b0, DirRequests(volume), s2, b2)
    {
      ServedThen(h.guard, h.heap, b0, [ClusterBytes(volume.geo)], s1, b1, [RESULT_SIZE], s2, b2);
    }

    /** The root directory. */
    method ReadRoot() returns (s: Status, dirPtr: nat, numEntries: nat, ghost dir: seq<byte>)
      requires Ready()
      modifies h`blocks, h.mem
      ensures s == Success ==>
        && DirectoryOf(drive, volume, volume.geo.root) == Listing(dir, numEntries)
        && Owned(h.heap, h.mem[..], h.blocks, dirPtr, dir)
      ensures Served(h.guard, h.heap, old(h.blocks), DirRequests(volume), s, h.blocks)
      ensures s == Panic ==> DirectoryOf(drive, volume, volume.geo.root) == DirFailed
      ensures s == Wild ==> DirectoryOf(drive, volume, volume.geo.root) == DirWild
      ensures s != Damaged ==> Ready() && OthersKept()
    {
      var g := ReadGeometry();
      s, dirPtr, numEntries, dir := ReadDir(g.root);
    }

    /** With the directory in memory: count its entries, and allocate the readDirResult. */
    method FinishDir(dirPtr: nat, length: nat, ghost dir: seq<byte>, ghost m0: seq<byte>, ghost b0: seq<Block>)
        returns (s: Status, numEntries: nat)
      requires Ready() && Owned(h.heap, h.mem[..], h.blocks, dirPtr, dir) && length == |dir|
      requires KeptExcept(h.heap, m0, b0, h.mem[..], h.blocks, 0) && |m0| == h.mem.Length
      modifies h`blocks, h.mem
      ensures s == Success || s == OutOfMemory || s == Wild || s == Damaged
      ensures s == Success ==> CountEntries(dir, 0) == Some(numEntries)
      ensures s == Wild <==> CountEntries(dir, 0) == None
      ensures Served(h.guard, h.heap, old(h.blocks), [RESULT_SIZE], s, h.blocks)
      ensures s != Damaged ==>
        && Ready() && KeptExcept(h.heap, m0, b0, h.mem[..], h.blocks, 0)
        && Owned(h.heap, h.mem[..], h.blocks, dirPtr, dir)
    {
      ghost var m1, b1 := h.mem[..], h.blocks;
      var n := CountInMemory(dirPtr, length, dir);
      if n.None? { return Wild, 0; }
      numEntries := n.value;
      var q;
      s, q := AllocateMore(RESULT_SIZE, m0, b0);
      if s != Damaged { OwnedKept(h.heap, m1, b1, h.mem[..], h.blocks, 0, dirPtr, dir); }
    }

    /** operator new, whose null the callers below do not test for. Damaged or not, what it returns is
        a new allocation, and the others keep their data. */
    method NewBuffer(size: nat) returns (s: Status, p: nat)
      requires Stage1(h)
      modifies h`blocks, h.mem
      ensures s == Success || s == OutOfMemory || s == Damaged
      ensures s != OutOfMemory ==>
        && Live(h.heap, h.blocks, p) && !Live(h.heap, old(h.blocks), p)
        && Lookup(h.heap, h.blocks, p).value.size >= size
      ensures Served(h.guard, h.heap, old(h.blocks), [size], s, h.blocks)
      ensures Placed(h) && OthersKept() && (s != Damaged ==> h.Valid())
    {
      SupplyOne(h.guard, h.heap, h.blocks, size);
      var torn;
      p, torn := New(h, size);
      s := if torn then Damaged else if p == 0 then OutOfMemory else Success;
    }

    /** Entries are counted up to the first zero byte; None when the scan leaves the buffer. */
    method CountInMemory(dirPtr: nat, length: nat, ghost dir: seq<byte>) returns (n: Option<nat>)
      requires Owned(h.heap, h.mem[..], h.blocks, dirPtr, dir) && length == |dir|
      ensures n == CountEntries(dir, 0)
    {
      var i := 0;
      while true
        invariant 0 <= i && CountEntries(dir, 0) == CountEntries(dir, i)
        decreases length + ENTRY_SIZE - ENTRY_SIZE * i
      {
        if ENTRY_SIZE * i >= length { return None; }
        var b := ReadByte(dirPtr, ENTRY_SIZE * i, dir);
        if b == 0 { return Some(i); }
        i := i + 1;
      }
    }

    /** The fileName buffer for the entry at dirPtr + 32 * i; never more than its 13 bytes. */
    method NameFromEntry(dirPtr: nat, i: nat, ghost dir: seq<byte>)
        returns (s: Status, name: seq<byte>, ghost at: nat)
      requires Stage1(h) && Owned(h.heap, h.mem[..], h.blocks, dirPtr, dir)
      requires ENTRY_SIZE * i + ENTRY_SIZE <= |dir|
      modifies h`blocks, h.mem
      ensures s == Success || s == OutOfMemory || s == Damaged
      ensures s == Success ==> Terminated(name) && CString(name) == CString(Rendered(EntryAt(dir, i)))
      ensures s == Success && EntryAt(dir, i)[11] != ATTR_LFN ==>
        && !Live(h.heap, old(h.blocks), at) && Owned(h.heap, h.mem[..], h.blocks, at, name)
        && NameText(EntryAt(dir, i), name)
      ensures Served(h.guard, h.heap, old(h.blocks), NameRequest(EntryAt(dir, i)), s, h.blocks)
      ensures s != Damaged ==> Stage1(h) && OthersKept() && Owned(h.heap, h.mem[..], h.blocks, dirPtr, dir)
    {
      ghost var m0, b0, e := h.mem[..], h.blocks, EntryAt(dir, i);
      var attributes := ReadByte(dirPtr, ENTRY_SIZE * i + 11, dir);
      assert attributes == e[11];
      if attributes == ATTR_LFN {
        return Success, LFN_NAME, 0;
      }
      var p;
      s, p := NewBuffer(NAME_BUFFER);
      name, at := [], p;
      if s == Damaged { return; }
      OwnedKept(h.heap, m0, b0, h.mem[..], h.blocks, 0, dirPtr, dir);
      if s != Success { return; }
      ghost var m1, b1 := h.mem[..], h.blocks;
      name := StoreName(p, dirPtr, i, dir);
      KeptTrans(h.heap, m0, b0, m1, b1, h.mem[..], b1, 0, p);
    }

    /** The name of entry i of the directory, stored in the new allocation at p. */
    method StoreName(p: nat, dirPtr: nat, i: nat, ghost dir: seq<byte>) returns (name: seq<byte>)
      requires Stage1(h) && Owned(h.heap, h.mem[..], h.blocks, dirPtr, dir)
      requires Live(h.heap, h.blocks, p) && Lookup(h.heap, h.blocks, p).value.size >= NAME_BUFFER && p != dirPtr
      requires ENTRY_SIZE * i + ENTRY_SIZE <= |dir| && EntryAt(dir, i)[11] != ATTR_LFN
      modifies h.mem
      ensures Stage1(h) && KeptExcept(h.heap, old(h.mem[..]), h.blocks, h.mem[..], h.blocks, p)
      ensures OnlyReadTo(old(h.mem[..]), h.mem[..], p, p + NAME_BUFFER)
      ensures Owned(h.heap, h.mem[..], h.blocks, dirPtr, dir) && Owned(h.heap, h.mem[..], h.blocks, p, name)
      ensures NameText(EntryAt(dir, i), name)
    {
      ghost var m, bs, e := h.mem[..], h.blocks, EntryAt(dir, i);
      OwnedBytes(h.heap, m, bs, dirPtr, dir, ENTRY_SIZE * i, ENTRY_SIZE);
      Separate(m, h.heap, bs, h.heapEnd, p, NAME_BUFFER, dirPtr, |dir|);
      FillName(p, dirPtr + ENTRY_SIZE * i, e);
      name := h.mem[p..p + NAME_BUFFER];
      NameStored(m, h.mem[..], h.heap, bs, h.heapEnd, p, dirPtr, dir, e, name);
    }

    /** Fill the 13 bytes at p from the directory entry at src. */
    method FillName(p: nat, src: nat, ghost e: seq<byte>)
      requires |e| == ENTRY_SIZE && Holds(h.mem[..], src, e) && e[11] != ATTR_LFN
      requires p + NAME_BUFFER <= h.mem.Length && (p + NAME_BUFFER <= src || src + ENTRY_SIZE <= p)
      modifies h.mem
      ensures OnlyReadTo(old(h.mem[..]), h.mem[..], p, p + NAME_BUFFER)
      ensures Holds(h.mem[..], p, Rendered(e))
    {
      var mem := h.mem;
      SourceByte(mem[..], src, e);
      var n := CopyStem(p, src, e);
      var i := n;
      if mem[src + 11] != ATTR_SUBDIRECTORY {
        AppendExtension(p, n, src, e);
        i := n + 4;
      }
      mem[p + i] := 0;
      NameFilled(mem[..], p, n, e);
    }

    /** The dot and the three bytes of the extension. */
    method AppendExtension(p: nat, n: nat, src: nat, ghost e: seq<byte>)
      requires |e| == ENTRY_SIZE && src + ENTRY_SIZE <= h.mem.Length && p + NAME_BUFFER <= h.mem.Length && n <= 8
      requires forall k :: src <= k < src + ENTRY_SIZE ==> h.mem[k] == e[k - src]
      requires p + NAME_BUFFER <= src || src + ENTRY_SIZE <= p
      modifies h.mem
      ensures forall k :: 0 <= k < h.mem.Length && !(p + n <= k < p + n + 4) ==> h.mem[k] == old(h.mem[k])
      ensures h.mem[p + n] == DOT
      ensures h.mem[p + n + 1] == e[8] && h.mem[p + n + 2] == e[9] && h.mem[p + n + 3] == e[10]
    {
      var mem := h.mem;
      mem[p + n] := DOT;
      for j := 0 to 3
        invariant forall k :: 0 <= k < mem.Length && !(p + n <= k < p + n + 1 + j) ==> mem[k] == old(mem[k])
        invariant mem[p + n] == DOT
        invariant j > 0 ==> mem[p + n + 1] == e[8]
        invariant j > 1 ==> mem[p + n + 2] == e[9]
        invariant j > 2 ==> mem[p + n + 3] == e[10]
      {
        assert mem[src + 8 + j] == e[8 + j];
        mem[p + n + 1 + j] := mem[src + 8 + j];
      }
    }

    /** The first loop: up to eight bytes, stopping at a space. */
    method CopyStem(p: nat, src: nat, ghost e: seq<byte>) returns (i: nat)
      requires |e| == ENTRY_SIZE && Holds(h.mem[..], src, e)
      requires p + NAME_BUFFER <= h.mem.Length && (p + NAME_BUFFER <= src || src + ENTRY_SIZE <= p)
      modifies h.mem
      ensures i == |Stem(e[..8])|
      ensures forall k :: 0 <= k < h.mem.Length ==>
        h.mem[k] == if p <= k < p + i then e[k - p] else old(h.mem[k])
    {
      var mem := h.mem;
      SourceByte(mem[..], src, e);
      i := 0;
      while i < 8
        invariant i <= |Stem(e[..8])|
        invariant forall k :: 0 <= k < mem.Length ==> mem[k] == if p <= k < p + i then e[k - p] else old(mem[k])
      {
        var c := mem[src + i];
        if c == SPACE { break; }
        mem[p + i] := c;
        i := i + 1;
      }
    }

    /** One sector of every cluster from c on, into the room-sector buffer at p. */
    method CopyFile(first: nat, p: nat, room: nat) returns (s: Status, ghost bytes: seq<byte>)
      requires Held() && p != vbr && p != fatPtr
      requires Live(h.heap, h.blocks, p) && SECTOR_SIZE * room <= Lookup(h.heap, h.blocks, p).value.size
      modifies h.mem
      ensures Held() && (old(h.Valid()) ==> h.Valid())
      ensures KeptExcept(h.heap, old(h.mem[..]), h.blocks, h.mem[..], h.blocks, p)
      ensures Walked(CopyChain(drive, volume, first, room), s, bytes)
      ensures s == Success ==> Holds(h.mem[..], p, bytes)
      ensures s == Success || s == Panic || s == Wild
    {
      var c, j := first, 0;
      bytes := [];
      ghost var m0, want := h.mem[..], CopyChain(drive, volume, first, room);
      CopiedAfterNothing(want);
      AllocationIsClear(h.heap, h.blocks, h.heapEnd, p, 0, 0);
      while !IsClusterEnd(c)
        invariant 0 <= j <= room && |bytes| == SECTOR_SIZE * j
        invariant Held() && (old(h.Valid()) ==> h.Valid())
        invariant KeptExcept(h.heap, m0, h.blocks, h.mem[..], h.blocks, p)
        invariant Holds(h.mem[..], p, bytes)
        invariant want == CopiedAfter(bytes, CopyChain(drive, volume, c, room - j))
        decreases room - j
      {
        s, c, bytes := CopyTurn(c, p, j, room, bytes, m0);
        if s != Success { return; }
        j := j + 1;
      }
      CopiedAfterEnd(bytes);
      s := Success;
    }

    /** One turn of that loop, which began with memory m0, and what is left to do after it. */
    method CopyTurn(c: nat, p: nat, j: nat, room: nat, ghost bytes: seq<byte>, ghost m0: seq<byte>)
        returns (s: Status, next: nat, ghost all: seq<byte>)
      requires Held() && p != vbr && p != fatPtr && !IsClusterEnd(c) && j <= room
      requires Live(h.heap, h.blocks, p) && SECTOR_SIZE * room <= Lookup(h.heap, h.blocks, p).value.size
      requires Holds(h.mem[..], p, bytes) && |bytes| == SECTOR_SIZE * j
      requires KeptExcept(h.heap, m0, h.blocks, h.mem[..], h.blocks, p) && |m0| == h.mem.Length
      modifies h.mem
      ensures Held() && (old(h.Valid()) ==> h.Valid())
      ensures KeptExcept(h.heap, m0, h.blocks, h.mem[..], h.blocks, p)
      ensures s == Success || s == Panic || s == Wild
      ensures s == Panic ==> CopiedAfter(bytes, CopyChain(drive, volume, c, room - j)) == Failed
      ensures s == Wild ==> CopiedAfter(bytes, CopyChain(drive, volume, c, room - j)) == Overrun
      ensures s == Success ==>
        && j < room && |all| == |bytes| + SECTOR_SIZE && Holds(h.mem[..], p, all)
        && CopiedAfter(bytes, CopyChain(drive, volume, c, room - j))
             == CopiedAfter(all, CopyChain(drive, volume, next, room - j - 1))
    {
      ghost var m1 := h.mem[..];
      s, next := CopyCluster(c, p, j, room, bytes);
      KeptTrans(h.heap, m0, h.blocks, m1, h.blocks, h.mem[..], h.blocks, p, p);
      all := bytes + Delivered(drive, ClusterLba(volume, c), 1);
      if s == Success { CopiedStep(drive, volume, c, room - j, bytes); }
    }

    /** The work of a turn for cluster c: its first sector goes to place j of the buffer. */
    method CopyCluster(c: nat, p: nat, j: nat, room: nat, ghost bytes: seq<byte>) returns (s: Status, next: nat)
      requires Held() && p != vbr && p != fatPtr && !IsClusterEnd(c) && j <= room
      requires Live(h.heap, h.blocks, p) && SECTOR_SIZE * room <= Lookup(h.heap, h.blocks, p).value.size
      requires Holds(h.mem[..], p, bytes) && |bytes| == SECTOR_SIZE * j
      modifies h.mem
      ensures Held() && (old(h.Valid()) ==> h.Valid())
      ensures KeptExcept(h.heap, old(h.mem[..]), h.blocks, h.mem[..], h.blocks, p)
      ensures s == Success || s == Panic || s == Wild
      ensures s == Panic ==> CopyChain(drive, volume, c, room - j) == Failed
      ensures s == Wild ==> CopyChain(drive, volume, c, room - j) == Overrun
      ensures s == Success ==>
        && Readable(drive, ClusterLba(volume, c), 1) && j < room && InFat(volume.fat, c)
        && next == FatEntry(volume.fat, c)
        && Holds(h.mem[..], p, bytes + Delivered(drive, ClusterLba(volume, c), 1))
    {
      next := 0;
      var lba := LbaOf(c);
      if j == room {
        s := if Readable(drive, lba, 1) then Wild else Panic;
        return;
      }
      var ok := CopySector(lba, p, SECTOR_SIZE * j, bytes);
      if !ok { s := Panic; return; }
      var e := ReadFat(c);
      if e.None? { s := Wild; return; }
      s, next := Success, e.value;
    }

    /** One sector, to off bytes into the buffer at p, behind those already there. */
    method CopySector(lba: nat, p: nat, off: nat, ghost bytes: seq<byte>) returns (ok: bool)
      requires Held() && p != vbr && p != fatPtr && lba < WORD
      requires Live(h.heap, h.blocks, p) && off + SECTOR_SIZE <= Lookup(h.heap, h.blocks, p).value.size
      requires Holds(h.mem[..], p, bytes) && |bytes| == off
      modifies h.mem
      ensures Held() && (old(h.Valid()) ==> h.Valid())
      ensures KeptExcept(h.heap, old(h.mem[..]), h.blocks, h.mem[..], h.blocks, p)
      ensures ok == Readable(drive, lba, 1)
      ensures ok ==> Holds(h.mem[..], p, bytes + Delivered(drive, lba, 1))
    {
      ghost var m := h.mem[..];
      ok := ReadInto(h, drive, lba, p, off, 1);
      StillHeld(m, h.blocks, p);
      if ok {
        HoldsAppend(m, h.mem[..], p, bytes, p + off, Delivered(drive, lba, 1));
      }
    }

    /** The loop over the entries: the index of the first whose name compares equal, or n. */
    method FindInDirectory(dirPtr: nat, n: nat, ghost dir: seq<byte>, file: seq<byte>) returns (s: Status, i: nat)
      requires Ready() && Terminated(file)
      requires Owned(h.heap, h.mem[..], h.blocks, dirPtr, dir) && ENTRY_SIZE * n <= |dir|
      modifies h`blocks, h.mem
      ensures s == Success || s == OutOfMemory || s == Damaged
      ensures s == Success ==> i <= n && FoundAt(dir, n, CString(file), i)
      ensures Served(h.guard, h.heap, old(h.blocks), NameRequests(dir, Compared(dir, n, CString(file))), s, h.blocks)
      ensures s != Damaged ==> Ready() && OthersKept() && Owned(h.heap, h.mem[..], h.blocks, dirPtr, dir)
    {
      i := 0;
      ghost var m0, b0 := h.mem[..], h.blocks;
      while i < n
        invariant i <= n && Ready()
        invariant Owned(h.heap, h.mem[..], h.blocks, dirPtr, dir)
        invariant KeptExcept(h.heap, m0, b0, h.mem[..], h.blocks, 0)
        invariant SearchedTo(dir, n, CString(file), i)
        invariant Served(h.guard, h.heap, b0, NameRequests(dir, i), Success, h.blocks)
      {
        var same;
        s, same := SearchTurn(dirPtr, i, n, dir, file, m0, b0);
        if s != Success || same { return; }
        i := i + 1;
      }
      SearchStep(dir, n, CString(file), n);
      s := Success;
    }

    /** One turn of that loop, with what it means for the search as a whole. */
    method SearchTurn(dirPtr: nat, i: nat, ghost n: nat, ghost dir: seq<byte>, file: seq<byte>,
                      ghost m0: seq<byte>, ghost b0: seq<Block>)
        returns (s: Status, same: bool)
      requires Ready() && Terminated(file) && i < n && ENTRY_SIZE * n <= |dir|
      requires Owned(h.heap, h.mem[..], h.blocks, dirPtr, dir) && SearchedTo(dir, n, CString(file), i)
      requires KeptExcept(h.heap, m0, b0, h.mem[..], h.blocks, 0) && |m0| == h.mem.Length
      requires Served(h.guard, h.heap, b0, NameRequests(dir, i), Success, h.blocks)
      modifies h`blocks, h.mem
      ensures s == Success || s == OutOfMemory || s == Damaged
      ensures s == Success && !same ==>
        && SearchedTo(dir, n, CString(file), i + 1)
        && Served(h.guard, h.heap, b0, NameRequests(dir, i + 1), Success, h.blocks)
      ensures s != Success || same ==>
        && (s == Success ==> FoundAt(dir, n, CString(file), i))
        && Served(h.guard, h.heap, b0, NameRequests(dir, Compared(dir, n, CString(file))), s, h.blocks)
      ensures s != Damaged ==> Ready() && Owned(h.heap, h.mem[..], h.blocks, dirPtr, dir)
      ensures s != Damaged ==> KeptExcept(h.heap, m0, b0, h.mem[..], h.blocks, 0)
    {
      s, same := CompareEntry(dirPtr, i, n, dir, file, m0, b0);
      TurnServed(dir, n, CString(file), i, b0, s, same, h.blocks);
    }

    lemma TurnServed(dir: seq<byte>, n: nat, file: seq<byte>, i: nat,
                     b0: seq<Block>, s: Status, same: bool, b1: seq<Block>)
      requires i < n && ENTRY_SIZE * n <= |dir| && SearchedTo(dir, n, file, i)
      requires s == Success ==> same == MatchesAt(dir, n, file, i)
      requires Served(h.guard, h.heap, b0, NameRequests(dir, i + 1), s, b1)
      ensures s == Success && !same ==> SearchedTo(dir, n, file, i + 1)
      ensures s == Success && same ==> FoundAt(dir, n, file, i)
      ensures s != Success || same ==> Served(h.guard, h.heap, b0, NameRequests(dir, Compared(dir, n, file)), s, b1)
    {
      SearchStep(dir, n, file, i);
      if s != Success { StoppedEarly(dir, n, file, i, b0, s, b1); }
    }

    /** A search that stops at entry i for want of memory asked for no more than it would have. */
    lemma StoppedEarly(dir: seq<byte>, n: nat, file: seq<byte>, i: nat, b0: seq<Block>, s: Status, b1: seq<Block>)
      requires ENTRY_SIZE * n <= |dir| && i < Compared(dir, n, file) && s != Success
      requires Served(h.guard, h.heap, b0, NameRequests(dir, i + 1), s, b1)
      ensures Served(h.guard, h.heap, b0, NameRequests(dir, Compared(dir, n, file)), s, b1)
    {
      var rest := NameRequestsSplit(dir, i + 1, Compared(dir, n, file));
      ServedThen(h.guard, h.heap, b0, NameRequests(dir, i + 1), s, b1, rest, s, b1);
    }

    lemma NameServed(dir: seq<byte>, i: nat, b0: seq<Block>, b1: seq<Block>, s: Status, b2: seq<Block>)
      requires ENTRY_SIZE * i + ENTRY_SIZE <= |dir|
      requires Served(h.guard, h.heap, b0, NameRequests(dir, i), Success, b1)
      requires Served(h.guard, h.heap, b1, NameRequest(EntryAt(dir, i)), s, b2)
      ensures Served(h.guard, h.heap, b0, NameRequests(dir, i + 1), s, b2)
    {
      ServedThen(h.guard, h.heap, b0, NameRequests(dir, i), Success, b1, NameRequest(EntryAt(dir, i)), s, b2);
    }

    /** The comparison itself; the search began with memory m0 and blocks b0. */
    method CompareEntry(dirPtr: nat, i: nat, ghost n: nat, ghost dir: seq<byte>, file: seq<byte>,
                        ghost m0: seq<byte>, ghost b0: seq<Block>)
        returns (s: Status, same: bool)
      requires Ready() && Terminated(file) && i < n && ENTRY_SIZE * n <= |dir|
      requires Owned(h.heap, h.mem[..], h.blocks, dirPtr, dir)
      requires KeptExcept(h.heap, m0, b0, h.mem[..], h.blocks, 0) && |m0| == h.mem.Length
      requires Served(h.guard, h.heap, b0, NameRequests(dir, i), Success, h.blocks)
      modifies h`blocks, h.mem
      ensures s == Success || s == OutOfMemory || s == Damaged
      ensures s == Success ==> same == MatchesAt(dir, n, CString(file), i)
      ensures Served(h.guard, h.heap, b0, NameRequests(dir, i + 1), s, h.blocks)
      ensures s != Damaged ==> Ready() && Owned(h.heap, h.mem[..], h.blocks, dirPtr, dir)
      ensures s != Damaged ==> KeptExcept(h.heap, m0, b0, h.mem[..], h.blocks, 0)
    {
      ghost var m1, b1 := h.mem[..], h.blocks;
      var name;
      ghost var at;
      s, name, at := NameFromEntry(dirPtr, i, dir);
      same := false;
      NameServed(dir, i, b0, b1, s, h.blocks);
      if s != Damaged {
        StillHeld(m1, b1, 0);
        KeptTrans(h.heap, m0, b0, m1, b1, h.mem[..], h.blocks, 0, 0);
      }
      if s == Success {
        var r := Strcmp(name, file);
        same := r == 0;
      }
    }

    /** What the walk along an entry's chain comes to, in the buffer made for it. */
    ghost function ChainOf(e: seq<byte>): Copied
      requires |e| == ENTRY_SIZE
      reads this
    {
      CopyChain(drive, volume, FirstCluster(e), BufferSize(FileSize(e)) / SECTOR_SIZE)
    }

    /** What follows a match: a buffer for the file, and the walk along its chain. */
    method LoadEntry(dirPtr: nat, i: nat, ghost dir: seq<byte>, ghost m0: seq<byte>, ghost b0: seq<Block>)
        returns (s: Status, torn: bool, ptr: nat, size: nat, ghost bytes: seq<byte>)
      requires Ready() && Owned(h.heap, h.mem[..], h.blocks, dirPtr, dir)
      requires KeptExcept(h.heap, m0, b0, h.mem[..], h.blocks, 0) && |m0| == h.mem.Length
      requires ENTRY_SIZE * i + ENTRY_SIZE <= |dir|
      modifies h`blocks, h.mem
      ensures s != Damaged && (torn ==> s != OutOfMemory)
      ensures Held() && (!torn ==> h.Valid()) && KeptExcept(h.heap, m0, b0, h.mem[..], h.blocks, 0)
      ensures size == FileSize(EntryAt(dir, i))
      ensures Walked(ChainOf(EntryAt(dir, i)), s, bytes)
      ensures s == Success ==>
        && Owned(h.heap, h.mem[..], h.blocks, ptr, bytes) && !Live(h.heap, b0, ptr)
        && Lookup(h.heap, h.blocks, ptr).value.size >= BufferSize(size)
      ensures Served(h.guard, h.heap, old(h.blocks), [BufferSize(size)], if torn then Damaged else s, h.blocks)
    {
      bytes := [];
      var cluster;
      cluster, size := ReadEntry(dirPtr, i, dir);
      s, ptr := AllocateMore(BufferSize(size), m0, b0);
      torn := s == Damaged;
      if s != OutOfMemory {
        ghost var m1, b1 := h.mem[..], h.blocks;
        s, bytes := CopyFile(cluster, ptr, BufferSize(size) / SECTOR_SIZE);
        KeptTrans(h.heap, m0, b0, m1, b1, h.mem[..], b1, 0, ptr);
      }
    }

    /** operator new on a mounted volume, in an operation that began with memory m0 and blocks b0. */
    method AllocateMore(size: nat, ghost m0: seq<byte>, ghost b0: seq<Block>) returns (s: Status, p: nat)
      requires Ready()
      requires KeptExcept(h.heap, m0, b0, h.mem[..], h.blocks, 0) && |m0| == h.mem.Length
      modifies h`blocks, h.mem
      ensures s == Success || s == OutOfMemory || s == Damaged
      ensures Held() && OthersKept() && KeptExcept(h.heap, m0, b0, h.mem[..], h.blocks, 0)
      ensures s != Damaged ==> h.Valid()
      ensures s != OutOfMemory ==>
        && Live(h.heap, h.blocks, p) && !Live(h.heap, b0, p) && p != vbr && p != fatPtr
        && Lookup(h.heap, h.blocks, p).value.size >= size
      ensures Served(h.guard, h.heap, old(h.blocks), [size], s, h.blocks)
    {
      ghost var m1, b1 := h.mem[..], h.blocks;
      s, p := NewBuffer(size);
      StillHeld(m1, b1, 0);
      KeptTrans(h.heap, m0, b0, m1, b1, h.mem[..], h.blocks, 0, 0);
      if s != OutOfMemory { NewlyLive(h.heap, m0, b0, m1, b1, p); }
    }

    method ReadEntry(dirPtr: nat, i: nat, ghost dir: seq<byte>) returns (cluster: nat, size: nat)
      requires Owned(h.heap, h.mem[..], h.blocks, dirPtr, dir) && ENTRY_SIZE * i + ENTRY_SIZE <= |dir|
      ensures cluster == FirstCluster(EntryAt(dir, i)) && size == FileSize(EntryAt(dir, i))
    {
      var high := ReadHalf(dirPtr, ENTRY_SIZE * i + 20, dir);
      var low := ReadHalf(dirPtr, ENTRY_SIZE * i + 26, dir);
      size := ReadWord(dirPtr, ENTRY_SIZE * i + 28, dir);
      cluster := HALF * high + low;
      EntryFields(dir, i);
    }

    /** Success with found false is returnCode 1. */
    method GetRootFile(file: seq<byte>)
        returns (s: Status, torn: bool, found: bool, ptr: nat, size: nat, ghost bytes: seq<byte>)
      requires Ready() && Terminated(file)
      modifies h`blocks, h.mem
      ensures Decided(RootFileOf(drive, volume, CString(file)), s, found, size, bytes)
      ensures s == Success && found ==>
        && Owned(h.heap, h.mem[..], h.blocks, ptr, bytes) && !Live(h.heap, old(h.blocks), ptr)
        && Lookup(h.heap, h.blocks, ptr).value.size >= BufferSize(size)
      ensures ServedFile(h.guard, h.heap, old(h.blocks), RootBefore(drive, volume, CString(file)),
                         RootLast(drive, volume, CString(file)), s, torn, h.blocks)
      ensures s != Damaged ==> Held() && OthersKept() && (!torn ==> h.Valid())
    {
      ghost var b0, s1, b1, dir, n := h.blocks, Success, [], [], 0;
      s, torn, found, ptr, size, bytes, s1, b1, dir, n := SearchRoot(file);
      RootServed(CString(file), b0, s1, b1, dir, n, s, torn, h.blocks);
      RootDecided(CString(file), s1, dir, n, s, found, size, bytes);
    }

    /** Its body. The directory is read, leaving status s1 and blocks b1, before anything else is asked for. */
    method SearchRoot(file: seq<byte>)
        returns (s: Status, torn: bool, found: bool, ptr: nat, size: nat, ghost bytes: seq<byte>,
                 ghost s1: Status, ghost b1: seq<Block>, ghost dir: seq<byte>, ghost count: nat)
      requires Ready() && Terminated(file)
      modifies h`blocks, h.mem
      ensures s == Success && found ==>
        && Owned(h.heap, h.mem[..], h.blocks, ptr, bytes) && !Live(h.heap, old(h.blocks), ptr)
        && Lookup(h.heap, h.blocks, ptr).value.size >= BufferSize(size)
      ensures Served(h.guard, h.heap, old(h.blocks), DirRequests(volume), s1, b1)
      ensures s1 == Success ==>
        && DirectoryOf(drive, volume, volume.geo.root) == Listing(dir, count)
        && ServedFile(h.guard, h.heap, b1, SearchRequests(dir, count, CString(file)),
                      FileRequests(dir, count, CString(file)), s, torn, h.blocks)
        && Decided(FileIn(drive, volume, dir, count, CString(file)), s, found, size, bytes)
      ensures s1 != Success ==>
        && s == s1 && !torn
        && (s == Panic ==> DirectoryOf(drive, volume, volume.geo.root) == DirFailed)
        && (s == Wild ==> DirectoryOf(drive, volume, volume.geo.root) == DirWild)
      ensures s != Damaged ==> Held() && OthersKept() && (!torn ==> h.Valid())
    {
      torn, found, ptr, size, bytes := false, false, 0, 0, [];
      ghost var m0, b0 := h.mem[..], h.blocks;
      var dirPtr, n;
      s, dirPtr, n, dir := ReadRoot();
      s1, b1, count := s, h.blocks, n;
      if s == Success {
        s, torn, found, ptr, size, bytes := FindAndLoad(dirPtr, n, dir, file, m0, b0);
      }
    }

    lemma RootDecided(file: seq<byte>, s1: Status, dir: seq<byte>, n: nat,
                      s: Status, found: bool, size: nat, bytes: seq<byte>)
      requires s1 == Success ==>
        && DirectoryOf(drive, volume, volume.geo.root) == Listing(dir, n)
        && Decided(FileIn(drive, volume, dir, n, file), s, found, size, bytes)
      requires s1 != Success ==>
        && s == s1
        && (s == Panic ==> DirectoryOf(drive, volume, volume.geo.root) == DirFailed)
        && (s == Wild ==> DirectoryOf(drive, volume, volume.geo.root) == DirWild)
      ensures Decided(RootFileOf(drive, volume, file), s, found, size, bytes)
    {
    }

    lemma RootServed(file: seq<byte>, b0: seq<Block>, s1: Status, b1: seq<Block>, dir: seq<byte>, n: nat,
                     s2: Status, torn: bool, b2: seq<Block>)
      requires Served(h.guard, h.heap, b0, DirRequests(volume), s1, b1)
      requires s1 != Success ==> s2 == s1 && !torn
      requires s1 == Success ==>
        && DirectoryOf(drive, volume, volume.geo.root) == Listing(dir, n)
        && ServedFile(h.guard, h.heap, b1, SearchRequests(dir, n, file), FileRequests(dir, n, file), s2, torn, b2)
      ensures ServedFile(h.guard, h.heap, b0, RootBefore(drive, volume, file), RootLast(drive, volume, file),
                         s2, torn, b2)
    {
      var search := match DirectoryOf(drive, volume, volume.geo.root)
        case Listing(entries, k) => SearchRequests(entries, k, file)
        case _ => [];
      ServedAfter(h.guard, h.heap, b0, DirRequests(volume), s1, b1,
                  search, RootLast(drive, volume, file), s2, torn, b2);
    }

    /** Load entry i, which is the one looked for. */
    method LoadFound(dirPtr: nat, i: nat, ghost n: nat, ghost dir: seq<byte>, ghost file: seq<byte>,
                     ghost m0: seq<byte>, ghost b0: seq<Block>)
        returns (s: Status, torn: bool, ptr: nat, size: nat, ghost bytes: seq<byte>)
      requires Ready() && Owned(h.heap, h.mem[..], h.blocks, dirPtr, dir)
      requires KeptExcept(h.heap, m0, b0, h.mem[..], h.blocks, 0) && |m0| == h.mem.Length
      requires ENTRY_SIZE * n <= |dir| && i < n && FoundAt(dir, n, file, i)
      modifies h`blocks, h.mem
      ensures s != Damaged && (torn ==> s != OutOfMemory)
      ensures Held() && (!torn ==> h.Valid()) && KeptExcept(h.heap, m0, b0, h.mem[..], h.blocks, 0)
      ensures Decided(FileIn(drive, volume, dir, n, file), s, true, size, bytes)
      ensures s == Success ==>
        && Owned(h.heap, h.mem[..], h.blocks, ptr, bytes) && !Live(h.heap, b0, ptr)
        && Lookup(h.heap, h.blocks, ptr).value.size >= BufferSize(size)
      ensures Served(h.guard, h.heap, old(h.blocks), FileRequests(dir, n, file), if torn then Damaged else s, h.blocks)
    {
      ghost var r := ChainOf(EntryAt(dir, i));
      s, torn, ptr, size, bytes := LoadEntry(dirPtr, i, dir, m0, b0);
      ChainDecides(drive, volume, file, dir, n, i, r, s, bytes);
      OneBuffer(dir, n, file, i);
    }

    lemma OneBuffer(dir: seq<byte>, n: nat, file: seq<byte>, i: nat)
      requires ENTRY_SIZE * n <= |dir| && i < n && FoundAt(dir, n, file, i)
      ensures FileRequests(dir, n, file) == [BufferSize(FileSize(EntryAt(dir, i)))]
    {
    }

    /** Look the name up in a directory that is in memory, and load the file if it is there. */
    method FindAndLoad(dirPtr: nat, n: nat, ghost dir: seq<byte>, file: seq<byte>,
                       ghost m0: seq<byte>, ghost b0: seq<Block>)
        returns (s: Status, torn: bool, found: bool, ptr: nat, size: nat, ghost bytes: seq<byte>)
      requires Ready() && Terminated(file)
      requires Owned(h.heap, h.mem[..], h.blocks, dirPtr, dir) && ENTRY_SIZE * n <= |dir|
      requires KeptExcept(h.heap, m0, b0, h.mem[..], h.blocks, 0) && |m0| == h.mem.Length
      modifies h`blocks, h.mem
      ensures Decided(FileIn(drive, volume, dir, n, CString(file)), s, found, size, bytes)
      ensures s == Success && found ==>
        && Owned(h.heap, h.mem[..], h.blocks, ptr, bytes) && !Live(h.heap, b0, ptr)
        && Lookup(h.heap, h.blocks, ptr).value.size >= BufferSize(size)
      ensures ServedFile(h.guard, h.heap, old(h.blocks), SearchRequests(dir, n, CString(file)),
                         FileRequests(dir, n, CString(file)), s, torn, h.blocks)
      ensures s != Damaged ==>
        Held() && (!torn ==> h.Valid()) && KeptExcept(h.heap, m0, b0, h.mem[..], h.blocks, 0)
    {
      ghost var b1, f, s1, b2 := h.blocks, CString(file), Success, [];
      s, torn, found, ptr, size, bytes, s1, b2 := SearchAndLoad(dirPtr, n, dir, file, f, m0, b0);
      ServedLast(h.guard, h.heap, b1, SearchRequests(dir, n, f), s1, b2, FileRequests(dir, n, f), s, torn, h.blocks);
    }

    /** Its body. The search leaves status s1 and blocks b1. */
    method SearchAndLoad(dirPtr: nat, n: nat, ghost dir: seq<byte>, file: seq<byte>, ghost f: seq<byte>,
                         ghost m0: seq<byte>, ghost b0: seq<Block>)
        returns (s: Status, torn: bool, found: bool, ptr: nat, size: nat, ghost bytes: seq<byte>,
                 ghost s1: Status, ghost b1: seq<Block>)
      requires Ready() && Terminated(file) && f == CString(file)
      requires Owned(h.heap, h.mem[..], h.blocks, dirPtr, dir) && ENTRY_SIZE * n <= |dir|
      requires KeptExcept(h.heap, m0, b0, h.mem[..], h.blocks, 0) && |m0| == h.mem.Length
      modifies h`blocks, h.mem
      ensures Served(h.guard, h.heap, old(h.blocks), SearchRequests(dir, n, f), s1, b1)
      ensures s1 != Success ==> s == s1 && !torn && (s == OutOfMemory || s == Damaged)
      ensures s1 == Success ==>
        && s != Damaged && (torn ==> s != OutOfMemory)
        && Decided(FileIn(drive, volume, dir, n, f), s, found, size, bytes)
        && Served(h.guard, h.heap, b1, FileRequests(dir, n, f), if torn then Damaged else s, h.blocks)
      ensures s == Success && found ==>
        && Owned(h.heap, h.mem[..], h.blocks, ptr, bytes) && !Live(h.heap, b0, ptr)
        && Lookup(h.heap, h.blocks, ptr).value.size >= BufferSize(size)
      ensures s != Damaged ==>
        Held() && (!torn ==> h.Valid()) && KeptExcept(h.heap, m0, b0, h.mem[..], h.blocks, 0)
    {
      torn, found, ptr, size, bytes := false, false, 0, 0, [];
      var i;
      s, i := FindEntryIn(dirPtr, n, dir, file, m0, b0);
      s1, b1 := s, h.blocks;
      if s == Success {
        s, torn, found, ptr, size, bytes := LoadIfFound(dirPtr, i, n, dir, f, m0, b0);
      }
    }

    /** After the search. */
    method LoadIfFound(dirPtr: nat, i: nat, n: nat, ghost dir: seq<byte>, ghost file: seq<byte>,
                       ghost m0: seq<byte>, ghost b0: seq<Block>)
        returns (s: Status, torn: bool, found: bool, ptr: nat, size: nat, ghost bytes: seq<byte>)
      requires Ready() && Owned(h.heap, h.mem[..], h.blocks, dirPtr, dir)
      requires KeptExcept(h.heap, m0, b0, h.mem[..], h.blocks, 0) && |m0| == h.mem.Length
      requires ENTRY_SIZE * n <= |dir| && i <= n && FoundAt(dir, n, file, i)
      modifies h`blocks, h.mem
      ensures s != Damaged && (torn ==> s != OutOfMemory)
      ensures Held() && (!torn ==> h.Valid()) && KeptExcept(h.heap, m0, b0, h.mem[..], h.blocks, 0)
      ensures Decided(FileIn(drive, volume, dir, n, file), s, found, size, bytes)
      ensures s == Success && found ==>
        && Owned(h.heap, h.mem[..], h.blocks, ptr, bytes) && !Live(h.heap, b0, ptr)
        && Lookup(h.heap, h.blocks, ptr).value.size >= BufferSize(size)
      ensures Served(h.guard, h.heap, old(h.blocks), FileRequests(dir, n, file), if torn then Damaged else s, h.blocks)
    {
      if i < n {
        found := true;
        s, torn, ptr, size, bytes := LoadFound(dirPtr, i, n, dir, file, m0, b0);
      } else {
        s, torn, found, ptr, size, bytes := Success, false, false, 0, 0, [];
        NoBuffer(dir, n, file, h.blocks);
      }
    }

    lemma NoBuffer(dir: seq<byte>, n: nat, file: seq<byte>, bs: seq<Block>)
      requires ENTRY_SIZE * n <= |dir| && FoundAt(dir, n, file, n)
      ensures Served(h.guard, h.heap, bs, FileRequests(dir, n, file), Success, bs)
    {
      assert FileRequests(dir, n, file) == [];
    }

    /** The result structure is allocated before the entries are looked at. */
    method FindEntryIn(dirPtr: nat, n: nat, ghost dir: seq<byte>, file: seq<byte>,
                       ghost m0: seq<byte>, ghost b0: seq<Block>)
        returns (s: Status, i: nat)
      requires Ready() && Terminated(file)
      requires Owned(h.heap, h.mem[..], h.blocks, dirPtr, dir) && ENTRY_SIZE * n <= |dir|
      requires KeptExcept(h.heap, m0, b0, h.mem[..], h.blocks, 0) && |m0| == h.mem.Length
      modifies h`blocks, h.mem
      ensures s == Success || s == OutOfMemory || s == Damaged
      ensures s == Success ==> i <= n && FoundAt(dir, n, CString(file), i)
      ensures Served(h.guard, h.heap, old(h.blocks), SearchRequests(dir, n, CString(file)), s, h.blocks)
      ensures s != Damaged ==>
        && Ready() && KeptExcept(h.heap, m0, b0, h.mem[..], h.blocks, 0)
        && Owned(h.heap, h.mem[..], h.blocks, dirPtr, dir)
    {
      ghost var m1, b1, names := h.mem[..], h.blocks, NameRequests(dir, Compared(dir, n, CString(file)));
      var q;
      s, q := AllocateMore(RESULT_SIZE, m0, b0);
      ghost var m2, b2 := h.mem[..], h.blocks;
      i := 0;
      if s != Damaged { OwnedKept(h.heap, m1, b1, m2, b2, 0, dirPtr, dir); }
      if s != Success {
        ServedThen(h.guard, h.heap, b1, [RESULT_SIZE], s, b2, names, s, b2);
        return;
      }
      s, i := FindInDirectory(dirPtr, n, dir, file);
      ServedThen(h.guard, h.heap, b1, [RESULT_SIZE], Success, b2, names, s, h.blocks);
      if s != Damaged { KeptTrans(h.heap, m0, b0, m2, b2, h.mem[..], h.blocks, 0, 0); }
    }
  }

  lemma EntryFields(dir: seq<byte>, i: nat)
    requires ENTRY_SIZE * i + ENTRY_SIZE <= |dir|
    ensures var e := EntryAt(dir, i);
      && FirstCluster(e) == HALF * Le16(dir, ENTRY_SIZE * i + 20) + Le16(dir, ENTRY_SIZE * i + 26)
      && FileSize(e) == Le32(dir, ENTRY_SIZE * i + 28)
  {
  }
}
