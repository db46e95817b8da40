/** A FAT32 volume as its format lays it out on the disk, sector by sector and byte by byte, and what
    the driver makes of one. */
module FatVolume {
  import opened Bytes
  import opened StringC
  import opened HeapModel
  import opened HeapMemory
  import opened HeapAllocator
  import opened DiskRead
  import opened BootMemory
  import opened Fat32Model
  import opened Fat32Driver
  import opened Stage1Loader

  // ---- the format ----

  /** Where the parts of a volume are, in sectors: part is its first one. */
  datatype Layout = Layout(part: nat, reserved: nat, fats: nat, sectorsPerFat: nat, sectorsPerCluster: nat,
                           clusters: nat, root: nat)

  /** What is in them: the link of each cluster, and the sectors of each cluster. */
  datatype Content = Content(next: nat -> nat, data: (nat, nat) -> Sector)

  ghost predicate IsBootRecord(b: seq<byte>, l: Layout)
    requires |b| == 512
  {
    && b[11..13] == Enc16(512)
    && b[13] == l.sectorsPerCluster
    && b[14..16] == Enc16(l.reserved)
    && b[16] == l.fats
    && b[36..40] == Enc32(l.sectorsPerFat)
    && b[44..48] == Enc32(l.root)
  }

  predicate FieldsFit(l: Layout) {
    && l.reserved < 0x1_0000 && 1 <= l.fats < 256 && 1 <= l.sectorsPerCluster < 256
    && 1 <= l.sectorsPerFat < 0x80_0000 && l.root < 0x1000_0000
  }

  /** Every field fits its width, the FAT has room for all clusters, and all sectors can be numbered. */
  predicate Sound(l: Layout) {
    && FieldsFit(l)
    && 4 * (l.clusters + 2) <= 512 * l.sectorsPerFat && l.clusters <= 0xFFF_FFF5
    && 2 <= l.root < l.clusters + 2
    && l.part + l.reserved + l.fats * l.sectorsPerFat + l.sectorsPerCluster * l.clusters <= 0x1_0000_0000
  }

  /** The bytes of a cluster's FAT entry: its low 28 bits are the link. */
  function Link(d: Drive, l: Layout, c: nat): nat {
    Le32(d.sector(l.part + l.reserved + c / 128), 4 * (c % 128)) % 0x1000_0000
  }

  /** Sector s of cluster c. */
  function DataSector(l: Layout, c: nat, s: nat): nat
    requires 2 <= c
  {
    l.part + l.reserved + l.fats * l.sectorsPerFat + l.sectorsPerCluster * (c - 2) + s
  }

  /** The drive has a volume with this content. */
  ghost predicate HasVolume(d: Drive, l: Layout, x: Content) {
    && Sound(l) && IsBootRecord(d.sector(l.part), l)
    && (forall c :: 2 <= c < l.clusters + 2 ==> Link(d, l, c) == x.next(c))
    && (forall c, s :: 2 <= c < l.clusters + 2 && 0 <= s < l.sectorsPerCluster ==>
          d.sector(DataSector(l, c, s)) == x.data(c, s))
  }

  /** The clusters cs are linked one after the other, and the last one to an end mark. */
  ghost predicate Linked(l: Layout, x: Content, cs: seq<nat>) {
    forall j :: 0 <= j < |cs| ==> LinkedAt(l, x, cs, j)
  }

  ghost predicate LinkedAt(l: Layout, x: Content, cs: seq<nat>, j: nat)
    requires j < |cs|
  {
    && 2 <= cs[j] < l.clusters + 2
    && if j + 1 < |cs| then x.next(cs[j]) == cs[j + 1] else 0xFFF_FFF8 <= x.next(cs[j]) <= 0xFFF_FFFF
  }

  /** The first n sectors of a cluster. */
  function ClusterData(x: Content, c: nat, n: nat): (r: seq<byte>)
    ensures |r| == 512 * n
  {
    if n == 0 then [] else ClusterData(x, c, n - 1) + x.data(c, n - 1)
  }

  /** The first n sectors of each of the clusters. */
  function ChainData(x: Content, cs: seq<nat>, n: nat): (r: seq<byte>)
    ensures |r| == 512 * n * |cs|
    decreases cs
  {
    if cs == [] then [] else ClusterData(x, cs[0], n) + ChainData(x, cs[1..], n)
  }

  datatype Entry =
    | LongName
    | ShortName(stem: seq<byte>, ext: seq<byte>, attributes: byte, cluster: nat, size: nat)

  ghost predicate IsEntry(e: seq<byte>, x: Entry)
    requires |e| == 32
  {
    match x
    case LongName => e[0] != 0 && e[11] == 0x0F
    case ShortName(stem, ext, attributes, cluster, size) =>
      && 1 <= |stem| <= 8 && |ext| == 3 && attributes != 0x0F
      && 0 !in stem && 32 !in stem && 0 !in ext
      && cluster < 0x1_0000_0000 && size < 0x1_0000_0000
      && e[..8] == stem + seq(8 - |stem|, _ => 32)
      && e[8..11] == ext
      && e[11] == attributes
      && e[20..22] == Enc16(cluster / 0x1_0000)
      && e[26..28] == Enc16(cluster % 0x1_0000)
      && e[28..32] == Enc32(size)
  }

  /** The name an entry goes by: of a directory the stem, of a file stem, dot and extension. */
  function ShownName(x: Entry): seq<byte> {
    match x
    case LongName => [76, 70, 78]
    case ShortName(stem, ext, attributes, _, _) => if attributes == 0x10 then stem else stem + [46] + ext
  }

  /** These entries, and the zero byte that ends the directory. */
  ghost predicate IsDirectory(dir: seq<byte>, xs: seq<Entry>) {
    && 32 * |xs| < |dir| && dir[32 * |xs|] == 0
    && forall i :: 0 <= i < |xs| ==> IsEntry(dir[32 * i..32 * i + 32], xs[i])
  }

  /** Entry i is the first one with this name. */
  ghost predicate FirstNamed(xs: seq<Entry>, name: seq<byte>, i: nat) {
    i < |xs| && ShownName(xs[i]) == name && forall j :: 0 <= j < i ==> ShownName(xs[j]) != name
  }

  /** The root directory lists xs, the name is first that of entry i, and the clusters of that file
      are cs: as many as its size takes. */
  ghost predicate HasFile(l: Layout, x: Content, xs: seq<Entry>, name: seq<byte>, i: nat, cs: seq<nat>) {
    && Linked(l, x, [l.root]) && IsDirectory(ClusterData(x, l.root, l.sectorsPerCluster), xs)
    && FirstNamed(xs, name, i) && xs[i].ShortName?
    && cs != [] && cs[0] == xs[i].cluster && Linked(l, x, cs)
    && 512 * l.sectorsPerCluster * (|cs| - 1) < xs[i].size <= 512 * l.sectorsPerCluster * |cs|
    && xs[i].size < 0xFFFF_FE00
  }

  // ---- the volume, mounted ----

  /** What init makes of it. */
  function MountedAs(d: Drive, l: Layout): Volume {
    Volume(l.part, Geometry(512, l.sectorsPerCluster, l.reserved, l.fats, l.sectorsPerFat, l.root),
           Delivered(d, l.part + l.reserved, l.sectorsPerFat))
  }

  lemma BootRecordDecodes(b: seq<byte>, l: Layout)
    requires |b| == 512 && IsBootRecord(b, l) && FieldsFit(l)
    ensures DecodeGeometry(b) ==
      Geometry(512, l.sectorsPerCluster, l.reserved, l.fats, l.sectorsPerFat, l.root)
    ensures Le16(b, 14) == l.reserved && Le32(b, 36) == l.sectorsPerFat
  {
    Stored16(b, 11, 512);
    Stored16(b, 14, l.reserved);
    Stored32(b, 36, l.sectorsPerFat);
    Stored32(b, 44, l.root);
  }

  /** Sector numbers up to the end of the volume do not wrap. */
  lemma InOrder(l: Layout)
    requires Sound(l)
    ensures l.part + l.reserved + l.sectorsPerFat <= l.part + l.reserved + l.fats * l.sectorsPerFat < WORD
    ensures FatBytes(l.sectorsPerFat) == 512 * l.sectorsPerFat
  {
    MulMonotone(l.sectorsPerFat, 1, l.fats);
    MulMonotone(l.sectorsPerCluster, 1, l.clusters);
  }

  lemma VolumeMounts(d: Drive, l: Layout, x: Content)
    requires HasVolume(d, l, x) && forall lba, n :: !d.fails(lba, n)
    ensures MountOf(d, l.part) == Mounted(MountedAs(d, l))
  {
    InOrder(l);
    OneSector(d, l.part);
    BootRecordDecodes(d.sector(l.part), l);
    MountedFrom(d, l.part, l.sectorsPerFat, l.reserved);
  }

  lemma MountedFrom(d: Drive, part: nat, sectors: nat, reserved: nat)
    requires forall lba, n :: !d.fails(lba, n)
    requires sectors == Le32(Delivered(d, part, 1), 36) && reserved == Le16(Delivered(d, part, 1), 14)
    requires part + reserved < WORD && FatBytes(sectors) == 512 * sectors
    ensures MountOf(d, part) ==
      Mounted(Volume(part, DecodeGeometry(Delivered(d, part, 1)), Delivered(d, part + reserved, sectors)))
  {
    Unwrapped(part + reserved);
    MountSteps(d, part, sectors, reserved);
  }

  /** The FAT in memory has the links of the FAT on the disk. */
  lemma LinkInMemory(d: Drive, l: Layout, x: Content, c: nat)
    requires HasVolume(d, l, x) && 2 <= c < l.clusters + 2
    ensures InFat(MountedAs(d, l).fat, c) && FatEntry(MountedAs(d, l).fat, c) == x.next(c)
  {
    assert Link(d, l, c) == x.next(c);
    LinkRead(d, l, c);
  }

  lemma LinkRead(d: Drive, l: Layout, c: nat)
    requires Sound(l) && c < l.clusters + 2
    ensures InFat(MountedAs(d, l).fat, c) && FatEntry(MountedAs(d, l).fat, c) == Link(d, l, c)
  {
    InOrder(l);
    FatWord(d, l.part + l.reserved, l.sectorsPerFat, c);
  }

  /** An end mark on the disk is one for the driver. */
  lemma LastLink(d: Drive, l: Layout, x: Content, c: nat)
    requires HasVolume(d, l, x) && 2 <= c < l.clusters + 2 && x.next(c) >= 0xFFF_FFF8
    ensures InFat(MountedAs(d, l).fat, c)
    ensures var e := FatEntry(MountedAs(d, l).fat, c); IsClusterEnd(e) && DirTestAccepts(e)
  {
    LinkInMemory(d, l, x, c);
    EndMark(FatEntry(MountedAs(d, l).fat, c));
  }

  lemma EndMark(e: nat)
    requires 0xFFF_FFF8 <= e < 0x1000_0000
    ensures IsClusterEnd(e) && DirTestAccepts(e)
  {
    DirTestExactly(e);
  }

  lemma OrdinaryCluster(c: nat)
    requires c < 0xFFF_FFF8
    ensures !IsClusterEnd(c)
  {
    DirTestExactly(c);
  }

  lemma FatWord(d: Drive, first: nat, sectors: nat, c: nat)
    requires first + sectors < WORD && c < 0x1000_0000 && 4 * c < 512 * sectors
    ensures var fat := Delivered(d, first, sectors);
      InFat(fat, c) && FatEntry(fat, c) == Le32(d.sector(first + c / 128), 4 * (c % 128)) % 0x1000_0000
  {
    var fat, j := Delivered(d, first, sectors), c / 128;
    DeliveredIsContiguous(d, first, sectors);
    EntryInSector(sectors, c);
    ReadSectorsAt(d, first, sectors, j);
    WordInSector(fat, d.sector(first + j), 512 * j, 4 * (c % 128));
  }

  lemma EntryInSector(sectors: nat, c: nat)
    requires c < 0x1000_0000 && 4 * c < 512 * sectors
    ensures c / 128 < sectors && 4 * c == 512 * (c / 128) + 4 * (c % 128)
    ensures FatOffset(c) == 4 * c && 4 * c + 4 <= 512 * sectors
  {
  }

  lemma WordInSector(fat: seq<byte>, sector: seq<byte>, at: nat, off: nat)
    requires |sector| == 512 && off + 4 <= 512 && at + 512 <= |fat| && fat[at..at + 512] == sector
    ensures Le32(fat, at + off) == Le32(sector, off)
  {
    SliceOfSlice(fat, at, sector, off, 4);
    SliceLe32(fat, at + off, sector, off);
  }

  lemma {:induction false} LinksAreAChain(d: Drive, l: Layout, x: Content, cs: seq<nat>)
    requires HasVolume(d, l, x) && Linked(l, x, cs) && cs != []
    ensures IsClusterChain(MountedAs(d, l).fat, cs[0], cs)
  {
    var fat := MountedAs(d, l).fat;
    forall j | 0 <= j < |cs| 
      ensures 2 <= cs[j] < l.clusters + 2 && InFat(fat, cs[j]) && FatEntry(fat, cs[j]) == x.next(cs[j])
    {
      assert LinkedAt(l, x, cs, j);
      LinkInMemory(d, l, x, cs[j]);
    }
    forall j | 0 <= j < |cs| - 1 ensures FatEntry(fat, cs[j]) == cs[j + 1] {
      assert LinkedAt(l, x, cs, j);
    }
    assert LinkedAt(l, x, cs, |cs| - 1);
    LinksInFat(fat, cs, l.clusters);
  }

  /** A chain by its links: each cluster's entry is the next one, and the last one's an end mark. */
  lemma {:induction false} LinksInFat(fat: seq<byte>, cs: seq<nat>, clusters: nat)
    requires cs != [] && clusters <= 0xFFF_FFF5
    requires forall j :: 0 <= j < |cs| ==> 2 <= cs[j] < clusters + 2 && InFat(fat, cs[j])
    requires forall j :: 0 <= j < |cs| - 1 ==> FatEntry(fat, cs[j]) == cs[j + 1]
    requires FatEntry(fat, cs[|cs| - 1]) >= 0xFFF_FFF8
    ensures IsClusterChain(fat, cs[0], cs)
    decreases |cs|
  {
    OrdinaryCluster(cs[0]);
    if |cs| == 1 {
      EndMark(FatEntry(fat, cs[0]));
    } else {
      LinksInFat(fat, cs[1..], clusters);
    }
  }

  /** Cluster c starts where the layout says, and is all below the end of the volume. */
  lemma ClusterStarts(d: Drive, l: Layout, c: nat)
    requires Sound(l) && 2 <= c < l.clusters + 2
    ensures ClusterLba(MountedAs(d, l), c) == DataSector(l, c, 0)
    ensures DataSector(l, c, 0) + l.sectorsPerCluster <= 0x1_0000_0000
  {
    MulMonotone(l.sectorsPerCluster, c - 1, l.clusters);
    assert l.sectorsPerCluster * (c - 1) == l.sectorsPerCluster * (c - 2) + l.sectorsPerCluster;
  }

  lemma {:induction false} SectorsOfCluster(d: Drive, l: Layout, x: Content, c: nat, n: nat)
    requires HasVolume(d, l, x) && 2 <= c < l.clusters + 2 && n <= l.sectorsPerCluster
    ensures ReadSectors(d, DataSector(l, c, 0), n) == ClusterData(x, c, n)
  {
    if n > 0 {
      SectorsOfCluster(d, l, x, c, n - 1);
      assert DataSector(l, c, 0) + (n - 1) == DataSector(l, c, n - 1);
    }
  }

  /** A cluster read through the driver is the cluster of the volume. */
  lemma ClusterInMemory(d: Drive, l: Layout, x: Content, c: nat)
    requires HasVolume(d, l, x) && 2 <= c < l.clusters + 2
    ensures Delivered(d, ClusterLba(MountedAs(d, l), c), l.sectorsPerCluster)
      == ReadSectors(d, ClusterLba(MountedAs(d, l), c), l.sectorsPerCluster)
      == ClusterData(x, c, l.sectorsPerCluster)
    ensures d.sector(ClusterLba(MountedAs(d, l), c)) == x.data(c, 0)
  {
    ClusterStarts(d, l, c);
    SectorsOfCluster(d, l, x, c, l.sectorsPerCluster);
    DeliveredIsContiguous(d, DataSector(l, c, 0), l.sectorsPerCluster);
  }

  /** What is copied of a chain, and what there is. */
  lemma {:induction false} ChainInMemory(d: Drive, l: Layout, x: Content, cs: seq<nat>)
    requires HasVolume(d, l, x) && forall j :: 0 <= j < |cs| ==> 2 <= cs[j] < l.clusters + 2
    ensures FirstSectors(d, MountedAs(d, l), cs) == ChainData(x, cs, 1)
    ensures WholeClusters(d, MountedAs(d, l), cs) == ChainData(x, cs, l.sectorsPerCluster)
    decreases |cs|
  {
    if cs != [] {
      ClusterInMemory(d, l, x, cs[0]);
      OneOf(x, cs[0]);
      ChainInMemory(d, l, x, cs[1..]);
    }
  }

  lemma OneOf(x: Content, c: nat)
    ensures ClusterData(x, c, 1) == x.data(c, 0)
  {
    assert ClusterData(x, c, 0) == [];
  }

  // ---- the directory ----

  lemma {:induction false} StemEnds(name: seq<byte>, n: nat)
    requires n < |name| && name[n] == SPACE && SPACE !in name[..n]
    ensures Stem(name) == name[..n]
  {
    if n > 0 {
      assert name[1..][..n - 1] == name[..n][1..];
      assert name[0] == name[..n][0];
      StemEnds(name[1..], n - 1);
    }
  }

  lemma {:induction false} NoSpace(name: seq<byte>)
    requires SPACE !in name
    ensures Stem(name) == name
  {
    if name != [] {
      assert name == [name[0]] + name[1..];
      NoSpace(name[1..]);
    }
  }

  lemma PaddedStem(stem: seq<byte>, n: nat)
    requires SPACE !in stem
    ensures Stem(stem + seq(n, _ => SPACE)) == stem
  {
    var name := stem + seq(n, _ => SPACE);
    if n == 0 {
      assert name == stem;
      NoSpace(stem);
    } else {
      assert name[..|stem|] == stem && name[|stem|] == SPACE;
      StemEnds(name, |stem|);
    }
  }

  lemma EntryReads(e: seq<byte>, x: Entry)
    requires |e| == 32 && IsEntry(e, x)
    ensures e[0] != 0 && CString(Rendered(e)) == ShownName(x)
    ensures e[11] == ATTR_LFN <==> x.LongName?
  {
    match x
    case LongName => CStringOf([76, 70, 78]);
    case ShortName(stem, ext, attributes, _, _) =>
      PaddedStem(stem, 8 - |stem|);
      assert e[0] == e[..8][0] == stem[0];
      NameRenders(e, stem, ext);
      CStringOf(ShownName(x));
  }

  lemma NameRenders(e: seq<byte>, stem: seq<byte>, ext: seq<byte>)
    requires |e| == 32 && Stem(e[..8]) == stem && e[8..11] == ext && e[11] != ATTR_LFN
    ensures Rendered(e) == (if e[11] == 0x10 then stem else stem + [46] + ext) + [0]
  {
    if e[11] == 0x10 { RenderedParts(e); } else { DottedIsRendered(e); }
  }

  /** Every file's entry is one of those whose names cannot be confused. */
  lemma FilesAreCanonical(e: seq<byte>, x: Entry)
    requires |e| == 32 && IsEntry(e, x) && x.ShortName? && x.attributes != 0x10
    ensures CanonicalFile(e)
  {
    var name := e[..8];
    forall i | 0 <= i < 8 ensures e[i] == (if i < |x.stem| then x.stem[i] else SPACE) { assert e[i] == name[i]; }
    forall i | 8 <= i < 11 ensures e[i] != 0 { assert e[i] == e[8..11][i - 8]; }
  }

  lemma EntryNumbers(e: seq<byte>, x: Entry)
    requires |e| == 32 && IsEntry(e, x) && x.ShortName?
    ensures FirstCluster(e) == x.cluster && FileSize(e) == x.size
  {
    Stored16(e, 20, x.cluster / 0x1_0000);
    Stored16(e, 26, x.cluster % 0x1_0000);
    Stored32(e, 28, x.size);
  }

  lemma DirectoryReads(dir: seq<byte>, xs: seq<Entry>)
    requires IsDirectory(dir, xs)
    ensures CountEntries(dir, 0) == Some(|xs|)
  {
    forall i | 0 <= i < |xs| ensures dir[32 * i] != 0 {
      EntryReads(dir[32 * i..32 * i + 32], xs[i]);
    }
    CountIs(dir, |xs|);
  }

  lemma CountIs(dir: seq<byte>, n: nat)
    requires 32 * n < |dir| && dir[32 * n] == 0 && forall i :: 0 <= i < n ==> dir[32 * i] != 0
    ensures CountEntries(dir, 0) == Some(n)
  {
  }

  lemma NamesRead(dir: seq<byte>, xs: seq<Entry>, i: nat)
    requires IsDirectory(dir, xs) && i < |xs|
    ensures CString(Rendered(EntryAt(dir, i))) == ShownName(xs[i])
  {
    EntryReads(EntryAt(dir, i), xs[i]);
  }

  lemma NameFound(dir: seq<byte>, xs: seq<Entry>, name: seq<byte>, i: nat)
    requires IsDirectory(dir, xs) && FirstNamed(xs, name, i)
    ensures FindEntry(dir, |xs|, name) == Some(i)
  {
    FindsFirst(dir, |xs|, name);
    forall j | 0 <= j <= i ensures MatchesAt(dir, |xs|, name, j) <==> ShownName(xs[j]) == name {
      NamesRead(dir, xs, j);
    }
  }

  /** A directory of one cluster is read as it is on the volume. */
  lemma DirectoryOnVolume(d: Drive, l: Layout, x: Content, c: nat, xs: seq<Entry>)
    requires HasVolume(d, l, x) && forall lba, n :: !d.fails(lba, n)
    requires Linked(l, x, [c]) && IsDirectory(ClusterData(x, c, l.sectorsPerCluster), xs)
    ensures DirectoryOf(d, MountedAs(d, l), c) == Listing(ClusterData(x, c, l.sectorsPerCluster), |xs|)
  {
    assert LinkedAt(l, x, [c], 0);
    LastLink(d, l, x, c);
    ClusterInMemory(d, l, x, c);
    DirectoryReads(ClusterData(x, c, l.sectorsPerCluster), xs);
    ListedAs(d, MountedAs(d, l), c, ClusterData(x, c, l.sectorsPerCluster), |xs|);
  }

  lemma ListedAs(d: Drive, v: Volume, c: nat, dir: seq<byte>, n: nat)
    requires forall lba, k :: !d.fails(lba, k)
    requires InFat(v.fat, c) && DirTestAccepts(FatEntry(v.fat, c)) && v.geo.bytesPerSector == 512
    requires Delivered(d, ClusterLba(v, c), v.geo.sectorsPerCluster) == dir && CountEntries(dir, 0) == Some(n)
    ensures DirectoryOf(d, v, c) == Listing(dir, n)
  {
  }

  /** The conditions of the driver's results are met by a volume that has the file. */
  lemma VolumeHoldsFile(d: Drive, l: Layout, x: Content, xs: seq<Entry>, name: seq<byte>, i: nat, cs: seq<nat>)
    requires HasVolume(d, l, x) && HasFile(l, x, xs, name, i, cs)
    ensures HoldsFile(d, MountedAs(d, l), name, i, cs)
    ensures RootDirectory(d, MountedAs(d, l)) == ClusterData(x, l.root, l.sectorsPerCluster)
    ensures FileSize(EntryAt(RootDirectory(d, MountedAs(d, l)), i)) == xs[i].size
  {
    var dir := ClusterData(x, l.root, l.sectorsPerCluster);
    assert LinkedAt(l, x, [l.root], 0);
    LastLink(d, l, x, l.root);
    ClusterInMemory(d, l, x, l.root);
    DirectoryReads(dir, xs);
    NameFound(dir, xs, name, i);
    EntryNumbers(EntryAt(dir, i), xs[i]);
    LinksAreAChain(d, l, x, cs);
  }

  // ---- what loading takes ----

  /** Entries among the first k that have a name of their own. */
  function ShortNames(xs: seq<Entry>, k: nat): nat
    requires k <= |xs|
  {
    if k == 0 then 0 else ShortNames(xs, k - 1) + if xs[k - 1].ShortName? then 1 else 0
  }

  /** Boot record, FAT, the directory's cluster, two structures of 12 bytes, 13 bytes for each name
      looked at, the file's buffer; and 8 bytes for each of these. */
  function VolumeNeed(l: Layout, xs: seq<Entry>, i: nat): nat
    requires i < |xs| && xs[i].ShortName?
  {
    512 + 512 * l.sectorsPerFat + 512 * l.sectorsPerCluster + 2 * 12 + 512 * (xs[i].size / 512 + 1) + 6 * 8
      + 21 * ShortNames(xs, i + 1)
  }

  lemma {:induction false} NamesCounted(dir: seq<byte>, xs: seq<Entry>, k: nat)
    requires IsDirectory(dir, xs) && k <= |xs|
    ensures Named(dir, k) == ShortNames(xs, k)
  {
    if k > 0 {
      NamesCounted(dir, xs, k - 1);
      LongEntry(dir, xs, k - 1);
      NamedStep(dir, k - 1);
    }
  }

  lemma LongEntry(dir: seq<byte>, xs: seq<Entry>, k: nat)
    requires IsDirectory(dir, xs) && k < |xs|
    ensures EntryAt(dir, k)[11] == ATTR_LFN <==> xs[k].LongName?
  {
    EntryReads(EntryAt(dir, k), xs[k]);
  }

  lemma NamedStep(dir: seq<byte>, k: nat)
    requires 32 * k + 32 <= |dir|
    ensures Named(dir, k + 1) == Named(dir, k) + if EntryAt(dir, k)[11] == ATTR_LFN then 0 else 1
  {
  }

  lemma NeedOnVolume(d: Drive, l: Layout, dir: seq<byte>, xs: seq<Entry>, i: nat)
    requires IsDirectory(dir, xs) && i < |xs| && xs[i].ShortName? && xs[i].size < 0xFFFF_FE00
    requires FileSize(EntryAt(dir, i)) == xs[i].size
    ensures BootNeed(MountedAs(d, l), dir, i) == VolumeNeed(l, xs, i)
  {
    NamesCounted(dir, xs, i + 1);
    BufferSizeIs(xs[i].size);
  }

  /** All there is to know about it, in the driver's terms. */
  lemma VolumeLoads(d: Drive, l: Layout, x: Content, xs: seq<Entry>, name: seq<byte>, i: nat, cs: seq<nat>)
    requires HasVolume(d, l, x) && forall lba, n :: !d.fails(lba, n)
    requires HasFile(l, x, xs, name, i, cs)
    ensures var v := MountedAs(d, l);
      && l.part < WORD && MountOf(d, l.part) == Mounted(v) && HoldsFile(d, v, name, i, cs)
      && FileSize(EntryAt(RootDirectory(d, v), i)) == xs[i].size <= BufferSize(xs[i].size)
      && BootNeed(v, RootDirectory(d, v), i) == VolumeNeed(l, xs, i)
      && FirstSectors(d, v, cs) == ChainData(x, cs, 1)
      && WholeClusters(d, v, cs) == ChainData(x, cs, l.sectorsPerCluster)
  {
    InOrder(l);
    VolumeMounts(d, l, x);
    VolumeHoldsFile(d, l, x, xs, name, i, cs);
    forall j | 0 <= j < |cs| ensures 2 <= cs[j] < l.clusters + 2 { assert LinkedAt(l, x, cs, j); }
    ChainInMemory(d, l, x, cs);
    NeedOnVolume(d, l, RootDirectory(d, MountedAs(d, l)), xs, i);
    BufferSizeIs(xs[i].size);
  }

  // ---- the operations, on such a volume ----

  /** readDir, of a mounted driver, on any one-cluster directory. */
  method ReadVolumeDir(fat: Fat32, ghost l: Layout, ghost x: Content, c: nat, ghost xs: seq<Entry>)
      returns (s: Status, dirPtr: nat, numEntries: nat)
    requires fat.Ready() && fat.volume == MountedAs(fat.drive, l)
    requires HasVolume(fat.drive, l, x) && forall lba, n :: !fat.drive.fails(lba, n)
    requires Linked(l, x, [c]) && IsDirectory(ClusterData(x, c, l.sectorsPerCluster), xs)
    modifies fat.h`blocks, fat.h.mem
    ensures s == Success || s == OutOfMemory || s == Damaged
    ensures s == Success ==>
      && numEntries == |xs|
      && Owned(fat.h.heap, fat.h.mem[..], fat.h.blocks, dirPtr, ClusterData(x, c, l.sectorsPerCluster))
  {
    DirectoryOnVolume(fat.drive, l, x, c, xs);
    ghost var dir;
    s, dirPtr, numEntries, dir := fat.ReadDir(c);
  }

  /** The boot path, from a drive with a volume that has the file. */
  method LoadFromVolume(mem: array<byte>, guard: Guard, d: Drive, stop: nat, file: seq<byte>, part: nat,
                        ghost l: Layout, ghost x: Content, ghost xs: seq<Entry>, ghost i: nat, ghost cs: seq<nat>)
      returns (s: Status, torn: bool, ptr: nat, size: nat)
    requires 0x1010 <= stop && stop + 16 <= 0x70000 && 0x7FE00 <= mem.Length <= 0x1_0000_0000
    requires Terminated(file) && part == l.part
    requires HasVolume(d, l, x) && forall lba, n :: !d.fails(lba, n)
    requires HasFile(l, x, xs, CString(file), i, cs)
    modifies mem
    ensures s == Success <==> stop + 8 + VolumeNeed(l, xs, i) <= 0x70000
    ensures s == Success ==>
      (torn <==> guard == AsWritten && 0x70000 < stop + 16 + VolumeNeed(l, xs, i) < 0x70008)
    ensures s == Success && !torn ==> IsHeap(mem[..], stop, 0x70000 - 8)
    ensures s == Success ==>
      && size == xs[i].size && stop + 8 <= ptr && ptr + size <= 0x70000
      && Holds(mem[..], ptr, ChainData(x, cs, 1))
      && (l.sectorsPerCluster == 1 || size <= 512 ==>
            && size <= |ChainData(x, cs, l.sectorsPerCluster)|
            && Holds(mem[..], ptr, ChainData(x, cs, l.sectorsPerCluster)[..size]))
      && (l.sectorsPerCluster > 1 && size > 512 ==> |ChainData(x, cs, 1)| < size)
    ensures s == Success || s == OutOfMemory || (s == Damaged && guard == AsWritten)
  {
    VolumeLoads(d, l, x, xs, CString(file), i, cs);
    s, torn, ptr, size := LoadKernelFile(mem, guard, d, stop, part, file, i, cs);
  }

  // ---- clusters in a row ----

  function Row(n: nat): (cs: seq<nat>)
    ensures |cs| == n && forall j :: 0 <= j < n ==> cs[j] == 2 + j
  {
    seq(n, j requires 0 <= j < n => 2 + j)
  }

  ghost predicate InRow(l: Layout, x: Content, n: nat) {
    && 1 <= n <= l.clusters && n < 0xFFF_FFEE
    && (forall c :: 2 <= c <= n ==> x.next(c) == c + 1) && x.next(n + 1) == 0xFFF_FFFF
  }

  /** On a volume whose clusters from 2 to n + 1 are linked in a row, with an end mark in the last,
      the walk copies the first sector of each of them, in order. */
  lemma RowIsCopied(d: Drive, l: Layout, x: Content, n: nat)
    requires HasVolume(d, l, x) && forall lba, n :: !d.fails(lba, n)
    requires InRow(l, x, n)
    ensures CopyChain(d, MountedAs(d, l), 2, n) == Data(ChainData(x, Row(n), 1))
    ensures forall j :: 0 <= j < n ==> ChainData(x, Row(n), 1)[512 * j..512 * j + 512] == x.data(2 + j, 0)
  {
    var cs := Row(n);
    forall j | 0 <= j < n ensures LinkedAt(l, x, cs, j) {}
    LinksAreAChain(d, l, x, cs);
    ChainInMemory(d, l, x, cs);
    ChainIsCopied(d, MountedAs(d, l), 2, n, cs);
    forall j | 0 <= j < n ensures ChainData(x, cs, 1)[512 * j..512 * j + 512] == x.data(2 + j, 0) {
      CopiedSector(d, MountedAs(d, l), cs, j);
      ClusterInMemory(d, l, x, cs[j]);
    }
  }

  /** And so it runs. */
  method CopyRow(fat: Fat32, ghost l: Layout, ghost x: Content, n: nat, p: nat) returns (s: Status)
    requires fat.Ready() && fat.volume == MountedAs(fat.drive, l) && p != fat.vbr && p != fat.fatPtr
    requires HasVolume(fat.drive, l, x) && forall lba, n :: !fat.drive.fails(lba, n)
    requires InRow(l, x, n)
    requires Live(fat.h.heap, fat.h.blocks, p) && 512 * n <= Lookup(fat.h.heap, fat.h.blocks, p).value.size
    modifies fat.h.mem
    ensures s == Success && fat.Ready() && Holds(fat.h.mem[..], p, ChainData(x, Row(n), 1))
  {
    RowIsCopied(fat.drive, l, x, n);
    ghost var bytes;
    s, bytes := fat.CopyFile(2, p, n);
  }
}
