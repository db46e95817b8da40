/** A volume of eighteen sectors with one file, anywhere on a disk: everything the end-to-end results
    ask of a volume can be had at once. */
module SmallVolume {
  import opened Bytes
  import opened StringC
  import opened HeapModel
  import opened DiskRead
  import opened Fat32Model
  import opened Fat32Driver
  import opened FatVolume

  const FILE_NAME: seq<byte> := [75, 69, 82, 78, 69, 76, 46, 66, 73, 78]  // KERNEL.BIN
  const NEED := 2653   // bytes of heap it takes to load the file

  /** Two reserved sectors, two FATs of one sector, seven clusters of two, the root in cluster 2. */
  function Small(part: nat): Layout {
    Layout(part, 2, 2, 1, 2, 7, 2)
  }

  function Kernel(): Entry {
    ShortName([75, 69, 82, 78, 69, 76], [66, 73, 78], 0x20, 8, 5)
  }

  function BootByte(k: nat): byte {
    if k == 12 || k == 13 || k == 14 || k == 16 || k == 44 then 2 else if k == 36 then 1 else 0
  }

  /** Clusters 2 and 8 are both the last of their chains. */
  function FatByte(k: nat): byte {
    if k == 8 || k == 32 then 0xF8
    else if k == 9 || k == 10 || k == 33 || k == 34 then 0xFF
    else if k == 11 || k == 35 then 0x0F
    else 0
  }

  function RootByte(k: nat): byte {
    if k < 6 then FILE_NAME[k]
    else if k < 8 then 32
    else if k < 11 then FILE_NAME[k - 1]
    else if k == 11 then 0x20
    else if k == 26 then 8
    else if k == 28 then 5
    else 0
  }

  function Filled(f: nat -> byte): (s: Sector)
    ensures forall k :: 0 <= k < 512 ==> s[k] == f(k)
  {
    seq(512, k requires 0 <= k < 512 => f(k))
  }

  function Blank(): Sector { Filled(k => 0) }
  function Counting(): Sector { Filled(k => k % 256) }

  function SectorOf(part: nat, n: nat): Sector {
    if n == part then Filled(BootByte)
    else if n == part + 2 || n == part + 3 then Filled(FatByte)
    else if n == part + 4 then Filled(RootByte)
    else if n == part + 16 then Counting()
    else Blank()
  }

  function DataOf(c: nat, s: nat): Sector {
    if c == 2 && s == 0 then Filled(RootByte) else if c == 8 && s == 0 then Counting() else Blank()
  }

  function Disk(part: nat): Drive {
    Drive(n => SectorOf(part, n), (_, _) => false)
  }

  function Holding(): Content {
    Content(c => if c == 2 || c == 8 then 0xFFF_FFF8 else 0, (c, s) => DataOf(c, s))
  }

  lemma BootRecordIs(part: nat)
    ensures IsBootRecord(Filled(BootByte), Small(part))
  {
    var b: seq<byte> := Filled(BootByte);
    assert b[11..13] == [0, 2] && b[13] == 2 && b[14..16] == [2, 0] && b[16] == 2;
    assert b[36..40] == [1, 0, 0, 0] && b[44..48] == [2, 0, 0, 0];
  }

  lemma LinksAre(part: nat, c: nat)
    requires 2 <= c < 9
    ensures Link(Disk(part), Small(part), c) == Holding().next(c)
  {
    var fat: seq<byte> := Filled(FatByte);
    assert c / 128 == 0 && c % 128 == c;
    if c == 2 || c == 8 {
      assert Le32(fat, 4 * c) == 0xFFF_FFF8;
    } else {
      assert Le32(fat, 4 * c) == 0;
    }
  }

  lemma DataIs(part: nat, c: nat, s: nat)
    requires 2 <= c < 9 && s < 2
    ensures Disk(part).sector(DataSector(Small(part), c, s)) == Holding().data(c, s)
  {
    assert DataSector(Small(part), c, s) == part + 2 * c + s;
  }

  lemma DiskHasVolume(part: nat)
    requires part + 18 <= 0x1_0000_0000
    ensures HasVolume(Disk(part), Small(part), Holding())
    ensures forall lba, n :: !Disk(part).fails(lba, n)
  {
    BootRecordIs(part);
    forall c | 2 <= c < 9 ensures Link(Disk(part), Small(part), c) == Holding().next(c) { LinksAre(part, c); }
    forall c, s | 2 <= c < 9 && 0 <= s < 2
      ensures Disk(part).sector(DataSector(Small(part), c, s)) == Holding().data(c, s)
    {
      DataIs(part, c, s);
    }
  }

  lemma EntryIs(e: seq<byte>)
    requires |e| == 32 && forall k :: 0 <= k < 32 ==> e[k] == RootByte(k)
    ensures IsEntry(e, Kernel())
  {
    var stem: seq<byte> := [75, 69, 82, 78, 69, 76];
    assert e[..8] == stem + seq(8 - |stem|, _ => 32);
    assert e[8..11] == [66, 73, 78];
    assert e[20..22] == [0, 0] && e[26..28] == [8, 0] && e[28..32] == [5, 0, 0, 0];
  }

  lemma TwoSectors(x: Content, c: nat)
    ensures ClusterData(x, c, 2) == x.data(c, 0) + x.data(c, 1)
  {
    OneOf(x, c);
  }

  lemma RootLists()
    ensures IsDirectory(ClusterData(Holding(), 2, 2), [Kernel()])
  {
    var dir := ClusterData(Holding(), 2, 2);
    TwoSectors(Holding(), 2);
    var root: seq<byte> := Filled(RootByte);
    assert dir[..512] == root;
    assert dir[0..32] == root[0..32] && dir[32] == root[32];
    EntryIs(dir[0..32]);
  }

  /** Everything the boot path asks for, together. */
  lemma DiskHoldsFile(part: nat)
    requires part + 18 <= 0x1_0000_0000
    ensures HasVolume(Disk(part), Small(part), Holding()) && forall lba, n :: !Disk(part).fails(lba, n)
    ensures HasFile(Small(part), Holding(), [Kernel()], FILE_NAME, 0, [8])
    ensures VolumeNeed(Small(part), [Kernel()], 0) == NEED
    ensures ChainData(Holding(), [8], 2)[..5] == [0, 1, 2, 3, 4]
  {
    DiskHasVolume(part);
    RootLists();
    assert Kernel().stem + [46] + Kernel().ext == FILE_NAME;
    FileIs();
    assert ShortNames([Kernel()], 0) == 0;
  }

  lemma FileIs()
    ensures ChainData(Holding(), [8], 2)[..5] == [0, 1, 2, 3, 4]
  {
    TwoSectors(Holding(), 8);
    assert [8][1..] == [];
    assert ChainData(Holding(), [8], 2) == Counting() + Blank();
  }

  /** The boot path on this disk: the file's five bytes end up in memory, whichever way the split test
      goes and wherever the partition is. */
  method LoadSmall(mem: array<byte>, guard: Guard, part: nat, stop: nat) returns (ptr: nat, size: nat)
    requires part + 18 <= 0x1_0000_0000
    requires 0x1010 <= stop && stop + 8 + NEED <= 0x70000 && 0x7FE00 <= mem.Length <= 0x1_0000_0000
    modifies mem
    ensures size == 5 && stop + 8 <= ptr && ptr + size <= 0x70000
    ensures Holds(mem[..], ptr, [0, 1, 2, 3, 4])
  {
    var s, torn;
    DiskHoldsFile(part);
    CStringOf(FILE_NAME);
    s, torn, ptr, size := LoadFromVolume(mem, guard, Disk(part), stop, FILE_NAME + [0], part,
                                         Small(part), Holding(), [Kernel()], 0, [8]);
  }
}
