/** Reading the disk through int 13h: chunks of at most 127 sectors, by way of a bounce buffer. */
module DiskRead {
  import opened Bytes
  import opened StringC

  const SECTOR_SIZE := 512
  const MAX_SECTORS := 127
  const DAP := 0x1000       // disk address packet
  const DAP_SIZE := 16
  const BOUNCE := 0x70000   // read buffer below 1 MiB
  const BOUNCE_END := 0x7FE00   // BOUNCE + MAX_SECTORS * SECTOR_SIZE
  const SEGMENT := 0x1_0000 // what a real-mode transfer can reach from its segment base

  type Sector = s: seq<byte> | |s| == SECTOR_SIZE witness seq(SECTOR_SIZE, _ => 0)

  /** The disk as data, and which BIOS calls (first sector, count) report an error. */
  datatype Drive = Drive(sector: nat -> Sector, fails: (nat, nat) -> bool)

  function ReadSectors(d: Drive, lba: nat, n: nat): (r: seq<byte>)
    ensures |r| == SECTOR_SIZE * n
  {
    if n == 0 then [] else ReadSectors(d, lba, n - 1) + d.sector(lba + n - 1)
  }

  lemma {:induction false} ReadSectorsConcat(d: Drive, lba: nat, n: nat, k: nat)
    ensures ReadSectors(d, lba, n + k) == ReadSectors(d, lba, n) + ReadSectors(d, lba + n, k)
  {
    if k > 0 {
      ReadSectorsConcat(d, lba, n, k - 1);
    }
  }

  lemma {:induction false} ReadSectorsAt(d: Drive, lba: nat, n: nat, j: nat)
    requires j < n
    ensures SECTOR_SIZE * j + SECTOR_SIZE <= SECTOR_SIZE * n
    ensures ReadSectors(d, lba, n)[SECTOR_SIZE * j..SECTOR_SIZE * j + SECTOR_SIZE] == d.sector(lba + j)
  {
    var before: seq<byte>, last: seq<byte> := ReadSectors(d, lba, n - 1), d.sector(lba + n - 1);
    var at := SECTOR_SIZE * j;
    if j == n - 1 {
      assert (before + last)[at..at + SECTOR_SIZE] == last;
    } else {
      ReadSectorsAt(d, lba, n - 1, j);
      assert (before + last)[at..at + SECTOR_SIZE] == before[at..at + SECTOR_SIZE];
    }
  }

  // ---- the packet and the BIOS ----

  function Packet(lba: nat, sectors: nat): (p: seq<byte>)
    ensures |p| == DAP_SIZE
  {
    var offset := BOUNCE % 16;
    var segment := (BOUNCE - offset) / 16;
    [0x10, 0] + Enc16(sectors) + Enc32(segment * HALF + offset) + Enc32(lba) + Enc32(0)
  }

  /** What int 13h makes of the packet: where the data goes, from which sector, how many. */
  function PacketTarget(m: seq<byte>): nat
    requires DAP + DAP_SIZE <= |m|
  {
    16 * Le16(m, DAP + 6) + Le16(m, DAP + 4)
  }

  function PacketLba(m: seq<byte>): nat
    requires DAP + DAP_SIZE <= |m|
  {
    Le32(m, DAP + 8) + WORD * Le32(m, DAP + 12)
  }

  function PacketSectors(m: seq<byte>): nat
    requires DAP + DAP_SIZE <= |m|
  {
    Le16(m, DAP + 2)
  }

  /** A packet as the BIOS defines it: size, zero, count, offset and segment, 64-bit sector number. */
  function EncodePacket(count: nat, offset: nat, segment: nat, low: nat, high: nat): (p: seq<byte>)
    ensures |p| == 16
  {
    [16, 0] + Enc16(count) + Enc16(offset) + Enc16(segment) + Enc32(low) + Enc32(high)
  }

  /** Any such packet is read as it was written. */
  lemma PacketReads(m: seq<byte>, count: nat, offset: nat, segment: nat, low: nat, high: nat)
    requires 0x1010 <= |m| && m[0x1000..0x1010] == EncodePacket(count, offset, segment, low, high)
    requires count < HALF && offset < HALF && segment < HALF && low < WORD && high < WORD
    ensures PacketTarget(m) == 16 * segment + offset && Le16(m, DAP + 4) == offset
    ensures PacketLba(m) == low + 0x1_0000_0000 * high && PacketSectors(m) == count
    ensures m[0x1000] == 16 && m[0x1001] == 0
  {
    var p := EncodePacket(count, offset, segment, low, high);
    PacketParts(count, offset, segment, low, high);
    assert m[0x1000] == p[0] && m[0x1001] == p[1];
    SliceOfSlice(m, DAP, p, 2, 2);
    SliceOfSlice(m, DAP, p, 4, 2);
    SliceOfSlice(m, DAP, p, 6, 2);
    SliceOfSlice(m, DAP, p, 8, 4);
    SliceOfSlice(m, DAP, p, 12, 4);
    Stored16(m, DAP + 2, count);
    Stored16(m, DAP + 4, offset);
    Stored16(m, DAP + 6, segment);
    Stored32(m, DAP + 8, low);
    Stored32(m, DAP + 12, high);
  }

  lemma PacketParts(count: nat, offset: nat, segment: nat, low: nat, high: nat)
    ensures var p := EncodePacket(count, offset, segment, low, high);
      && p[0] == 16 && p[1] == 0 && p[2..4] == Enc16(count) && p[4..6] == Enc16(offset)
      && p[6..8] == Enc16(segment) && p[8..12] == Enc32(low) && p[12..16] == Enc32(high)
  {
  }

  /** The packet that is filled in: 7000:0000, and a sector number below 2^32. */
  lemma PacketBytes(lba: nat, sectors: nat)
    ensures Packet(lba, sectors) == EncodePacket(sectors, 0, 0x7000, lba, 0)
  {
    assert Enc32(0x7000_0000) == Enc16(0) + Enc16(0x7000);
  }

  lemma PacketRoundTrip(m: seq<byte>, lba: nat, sectors: nat)
    requires DAP + DAP_SIZE <= |m| && lba < WORD && sectors < HALF
    ensures var r := Blit(m, DAP, Packet(lba, sectors));
      && r[0x1000] == 16 && r[0x1001] == 0 && Le16(r, DAP + 4) == 0
      && PacketTarget(r) == 0x70000 && PacketLba(r) == lba && PacketSectors(r) == sectors
  {
    var p := Packet(lba, sectors);
    var r := Blit(m, DAP, p);
    assert r[DAP..DAP + DAP_SIZE] == p;
    PacketBytes(lba, sectors);
    PacketReads(r, sectors, 0, 0x7000, lba, 0);
  }

  method FillDap(mem: array<byte>, lba: nat, sectors: nat)
    requires DAP + DAP_SIZE <= mem.Length
    modifies mem
    ensures mem[..] == Blit(old(mem[..]), DAP, Packet(lba, sectors))
  {
    var p := Packet(lba, sectors);
    for i := 0 to DAP_SIZE
      invariant mem[..] == Blit(old(mem[..]), DAP, p[..i])
    {
      mem[DAP + i] := p[i];
    }
    assert p[..DAP_SIZE] == p;
  }

  /** The BIOS: a real-mode transfer must not run past its segment. */
  method Int13(mem: array<byte>, d: Drive) returns (carry: bool)
    requires DAP + DAP_SIZE <= mem.Length
    requires mem[DAP] == 16 && mem[DAP + 1] == 0
    requires Le16(mem[..], DAP + 4) + SECTOR_SIZE * PacketSectors(mem[..]) <= SEGMENT
    requires PacketTarget(mem[..]) + SECTOR_SIZE * PacketSectors(mem[..]) <= mem.Length
    modifies mem
    ensures carry == d.fails(PacketLba(old(mem[..])), PacketSectors(old(mem[..])))
    ensures !carry ==> mem[..] == Blit(old(mem[..]), PacketTarget(old(mem[..])),
      ReadSectors(d, PacketLba(old(mem[..])), PacketSectors(old(mem[..]))))
    ensures carry ==> mem[..] == old(mem[..])
  {
    var target, lba, n := PacketTarget(mem[..]), PacketLba(mem[..]), PacketSectors(mem[..]);
    carry := d.fails(lba, n);
    if !carry {
      var data := ReadSectors(d, lba, n);
      for i := 0 to |data|
        invariant mem[..] == Blit(old(mem[..]), target, data[..i])
      {
        mem[target + i] := data[i];
      }
      assert data[..|data|] == data;
    }
  }

  /** The memory has this data at this address. */
  ghost predicate Holds(m: seq<byte>, at: nat, data: seq<byte>) {
    at + |data| <= |m| && m[at..at + |data|] == data
  }

  // ---- the chunk loop ----

  /** First sector of chunk i: the counter is 32 bits wide. */
  function ChunkLba(lba: nat, i: nat): nat {
    (lba + MAX_SECTORS * i) % WORD
  }

  function ChunkSize(sectors: nat, i: nat): nat
    requires i <= sectors / MAX_SECTORS
  {
    if i == sectors / MAX_SECTORS then sectors - MAX_SECTORS * i else MAX_SECTORS
  }

  /** Every call but the last is for 127 sectors, the last one for what is left, which may be none. */
  lemma ChunkSizes(sectors: nat, i: nat)
    requires i <= sectors / 127
    ensures ChunkSize(sectors, i) == if i < sectors / 127 then 127 else sectors % 127
  {
  }

  /** The first n chunks, one after the other. */
  function Chunks(d: Drive, lba: nat, sectors: nat, n: nat): (r: seq<byte>)
    requires n <= sectors / MAX_SECTORS + 1
    ensures |r| == SECTOR_SIZE * if n <= sectors / MAX_SECTORS then MAX_SECTORS * n else sectors
  {
    if n == 0 then []
    else Chunks(d, lba, sectors, n - 1) + ReadSectors(d, ChunkLba(lba, n - 1), ChunkSize(sectors, n - 1))
  }

  function Delivered(d: Drive, lba: nat, sectors: nat): (r: seq<byte>)
    ensures |r| == SECTOR_SIZE * sectors
  {
    Chunks(d, lba, sectors, sectors / MAX_SECTORS + 1)
  }

  /** Every call the loop makes, the last one (which may ask for no sector at all) included. */
  predicate Readable(d: Drive, lba: nat, sectors: nat) {
    forall i :: 0 <= i <= sectors / MAX_SECTORS ==> !d.fails(ChunkLba(lba, i), ChunkSize(sectors, i))
  }

  lemma {:induction false} ChunksAreContiguous(d: Drive, lba: nat, sectors: nat, n: nat)
    requires n <= sectors / MAX_SECTORS + 1 && lba + sectors <= WORD && lba < WORD
    ensures Chunks(d, lba, sectors, n) == ReadSectors(d, lba, SectorsDone(sectors, n))
  {
    if n > 0 {
      ChunksAreContiguous(d, lba, sectors, n - 1);
      ChunkFollows(d, lba, sectors, n - 1, n);
      JoinSectors(d, lba, SectorsDone(sectors, n - 1), ChunkSize(sectors, n - 1), SectorsDone(sectors, n));
    }
  }

  lemma JoinSectors(d: Drive, lba: nat, n: nat, k: nat, total: nat)
    requires total == n + k
    ensures ReadSectors(d, lba, n) + ReadSectors(d, lba + n, k) == ReadSectors(d, lba, total)
  {
    ReadSectorsConcat(d, lba, n, k);
  }

  /** Sectors in the first n chunks. */
  function SectorsDone(sectors: nat, n: nat): (k: nat)
    requires n <= sectors / MAX_SECTORS + 1
    ensures k <= sectors
  {
    if n <= sectors / MAX_SECTORS then MAX_SECTORS * n else sectors
  }

  lemma ChunkFollows(d: Drive, lba: nat, sectors: nat, i: nat, n: nat)
    requires n == i + 1 && i <= sectors / MAX_SECTORS && lba + sectors <= WORD && lba < WORD
    ensures SectorsDone(sectors, i) + ChunkSize(sectors, i) == SectorsDone(sectors, n)
    ensures Chunks(d, lba, sectors, n) ==
      Chunks(d, lba, sectors, i) + ReadSectors(d, lba + SectorsDone(sectors, i), ChunkSize(sectors, i))
  {
    ChunkStarts(d, lba, sectors, i);
  }

  lemma ChunkStarts(d: Drive, lba: nat, sectors: nat, i: nat)
    requires i <= sectors / MAX_SECTORS && lba + sectors <= WORD
    ensures ReadSectors(d, ChunkLba(lba, i), ChunkSize(sectors, i))
      == ReadSectors(d, lba + SectorsDone(sectors, i), ChunkSize(sectors, i))
  {
    if ChunkSize(sectors, i) > 0 { NoWrap(lba, sectors, i); }
  }

  lemma NoWrap(lba: nat, sectors: nat, i: nat)
    requires i <= sectors / MAX_SECTORS && lba + sectors <= WORD && ChunkSize(sectors, i) > 0
    ensures ChunkLba(lba, i) == lba + SectorsDone(sectors, i)
  {
  }

  /** Unless the 32-bit sector counter wraps, the chunks are one contiguous read. */
  lemma DeliveredIsContiguous(d: Drive, lba: nat, sectors: nat)
    requires lba < WORD && lba + sectors <= WORD
    ensures Delivered(d, lba, sectors) == ReadSectors(d, lba, sectors)
  {
    ChunksAreContiguous(d, lba, sectors, sectors / MAX_SECTORS + 1);
  }

  lemma ReadOne(d: Drive, lba: nat)
    ensures ReadSectors(d, lba, 1) == d.sector(lba)
  {
    assert ReadSectors(d, lba, 0) == [];
  }

  /** The destination keeps clear of the bounce buffer and of the packet. */
  predicate Clear(lo: nat, hi: nat) {
    && (hi <= BOUNCE || BOUNCE_END <= lo)
    && (hi <= DAP || DAP + DAP_SIZE <= lo)
  }

  /** The bounce buffer and the packet. */
  predicate UsedByReads(k: nat) {
    0x70000 <= k < 0x7FE00 || 0x1000 <= k < 0x1010
  }

  lemma ClearIff(lo: nat, hi: nat)
    requires lo < hi
    ensures Clear(lo, hi) <==> forall k: nat :: lo <= k < hi ==> !UsedByReads(k)
  {
    if !(hi <= BOUNCE || BOUNCE_END <= lo) {
      assert UsedByReads(if lo < BOUNCE then BOUNCE else lo);
    }
    if !(hi <= DAP || DAP + DAP_SIZE <= lo) {
      assert UsedByReads(if lo < DAP then DAP else lo);
    }
  }

  /** Bytes a read into [lo, hi) may change. */
  ghost predicate OnlyReadTo(m: seq<byte>, m': seq<byte>, lo: nat, hi: nat) {
    |m'| == |m| && forall k :: 0 <= k < |m| && m'[k] != m[k] ==>
      lo <= k < hi || UsedByReads(k)
  }

  /** The first i chunks have been read without error and are where they belong. */
  ghost predicate ReadSoFar(m0: seq<byte>, m: seq<byte>, d: Drive, lba: nat, buffer: nat, sectors: nat, i: nat)
    requires i <= sectors / MAX_SECTORS + 1
  {
    && (forall j :: 0 <= j < i ==> !d.fails(ChunkLba(lba, j), ChunkSize(sectors, j)))
    && Holds(m, buffer, Chunks(d, lba, sectors, i))
    && OnlyReadTo(m0, m, buffer, buffer + SECTOR_SIZE * sectors)
  }

  /** One more chunk, or the end of it. */
  lemma OneMoreChunk(m0: seq<byte>, m: seq<byte>, m': seq<byte>, d: Drive, lba: nat, buffer: nat, sectors: nat, i: nat)
    requires i <= sectors / MAX_SECTORS && ReadSoFar(m0, m, d, lba, buffer, sectors, i)
    requires OnlyReadTo(m, m', buffer, buffer + SECTOR_SIZE * sectors)
    ensures OnlyReadTo(m0, m', buffer, buffer + SECTOR_SIZE * sectors)
    ensures d.fails(ChunkLba(lba, i), ChunkSize(sectors, i)) ==> !Readable(d, lba, sectors)
    ensures !d.fails(ChunkLba(lba, i), ChunkSize(sectors, i))
      && Holds(m', buffer, Chunks(d, lba, sectors, i) + ReadSectors(d, ChunkLba(lba, i), ChunkSize(sectors, i)))
      ==> ReadSoFar(m0, m', d, lba, buffer, sectors, i + 1)
  {
    OnlyReadToTrans(m0, m, m', buffer, buffer + SECTOR_SIZE * sectors);
  }

  lemma AllChunksRead(m0: seq<byte>, m: seq<byte>, d: Drive, lba: nat, buffer: nat, sectors: nat)
    requires ReadSoFar(m0, m, d, lba, buffer, sectors, sectors / MAX_SECTORS + 1)
    ensures Readable(d, lba, sectors) && Holds(m, buffer, Delivered(d, lba, sectors))
  {
  }

  /** Unless a call has failed, the loop is at chunk i. */
  ghost predicate ReadOrFailed(m0: seq<byte>, m: seq<byte>, d: Drive, lba: nat, buffer: nat, sectors: nat,
                               i: nat, ok: bool)
    requires i <= sectors / MAX_SECTORS + 1
  {
    if ok then ReadSoFar(m0, m, d, lba, buffer, sectors, i)
    else !Readable(d, lba, sectors) && OnlyReadTo(m0, m, buffer, buffer + SECTOR_SIZE * sectors)
  }

  /** What the read comes to. */
  ghost predicate ReadDone(m0: seq<byte>, m: seq<byte>, d: Drive, lba: nat, buffer: nat, sectors: nat, ok: bool) {
    && ok == Readable(d, lba, sectors)
    && (ok ==> Holds(m, buffer, Delivered(d, lba, sectors)))
    && OnlyReadTo(m0, m, buffer, buffer + SECTOR_SIZE * sectors)
  }

  lemma ReadEnds(m0: seq<byte>, m: seq<byte>, d: Drive, lba: nat, buffer: nat, sectors: nat, i: nat, ok: bool)
    requires i <= sectors / MAX_SECTORS + 1 && (ok ==> i == sectors / MAX_SECTORS + 1)
    requires ReadOrFailed(m0, m, d, lba, buffer, sectors, i, ok)
    ensures ReadDone(m0, m, d, lba, buffer, sectors, ok)
  {
    if ok { AllChunksRead(m0, m, d, lba, buffer, sectors); }
  }

  lemma ReadBegins(m: seq<byte>, d: Drive, lba: nat, buffer: nat, sectors: nat)
    requires buffer + SECTOR_SIZE * sectors <= |m|
    ensures ReadOrFailed(m, m, d, lba, buffer, sectors, 0, true)
  {
  }

  /** False stands for the panic. */
  method DiskRead16(mem: array<byte>, d: Drive, lba: nat, buffer: nat, sectors: nat) returns (ok: bool)
    requires BOUNCE_END <= mem.Length && lba < WORD
    requires buffer + SECTOR_SIZE * sectors <= mem.Length && buffer + SECTOR_SIZE * sectors < WORD
    requires Clear(buffer, buffer + SECTOR_SIZE * sectors)
    modifies mem
    ensures ReadDone(old(mem[..]), mem[..], d, lba, buffer, sectors, ok)
  {
    var iterations := sectors / MAX_SECTORS;
    var currentBuffer: nat, currentLba: nat := buffer, lba;
    var i := 0;
    ghost var m0 := mem[..];
    ReadBegins(m0, d, lba, buffer, sectors);
    ok := true;
    while ok && i <= iterations
      invariant 0 <= i <= iterations + 1
      invariant ok ==> AtChunk(lba, buffer, sectors, i, currentLba, currentBuffer)
      invariant ReadOrFailed(m0, mem[..], d, lba, buffer, sectors, i, ok)
      decreases iterations + 1 - i, ok
    {
      var currentSectors := if i == iterations then sectors - MAX_SECTORS * iterations else MAX_SECTORS;
      ok := ReadOneChunk(mem, d, lba, buffer, sectors, i, currentLba, currentBuffer, currentSectors, m0);
      if ok {
        NextChunk(lba, buffer, sectors, i, currentLba, currentBuffer);
        currentBuffer := (currentBuffer + MAX_SECTORS * SECTOR_SIZE) % WORD;
        currentLba := (currentLba + MAX_SECTORS) % WORD;
        i := i + 1;
      }
    }
    ReadEnds(m0, mem[..], d, lba, buffer, sectors, i, ok);
  }

  /** Chunk i, for the loop above. */
  method ReadOneChunk(mem: array<byte>, d: Drive, ghost lba: nat, ghost buffer: nat, ghost sectors: nat, ghost i: nat,
                      currentLba: nat, currentBuffer: nat, currentSectors: nat, ghost m0: seq<byte>)
      returns (ok: bool)
    requires BOUNCE_END <= mem.Length && lba < WORD
    requires buffer + SECTOR_SIZE * sectors <= mem.Length && buffer + SECTOR_SIZE * sectors < WORD
    requires Clear(buffer, buffer + SECTOR_SIZE * sectors) && i <= sectors / MAX_SECTORS
    requires AtChunk(lba, buffer, sectors, i, currentLba, currentBuffer) && currentSectors == ChunkSize(sectors, i)
    requires ReadOrFailed(m0, mem[..], d, lba, buffer, sectors, i, true)
    modifies mem
    ensures ReadOrFailed(m0, mem[..], d, lba, buffer, sectors, if ok then i + 1 else i, ok)
  {
    ghost var m1, done, end := mem[..], Chunks(d, lba, sectors, i), buffer + SECTOR_SIZE * sectors;
    ChunkFits(buffer, sectors, i);
    var failed := TransferChunk(mem, d, currentLba, currentBuffer, currentSectors, buffer, end, done);
    OneMoreChunk(m0, m1, mem[..], d, lba, buffer, sectors, i);
    ok := !failed;
  }

  /** The body of the loop: read into the bounce buffer, then move the data to where it belongs. */
  method TransferChunk(mem: array<byte>, d: Drive, lba: nat, at: nat, sectors: nat,
                       ghost buffer: nat, ghost end: nat, ghost done: seq<byte>) returns (failed: bool)
    requires BOUNCE_END <= mem.Length && lba < WORD && sectors <= MAX_SECTORS
    requires Clear(buffer, end) && at == buffer + |done| && at + SECTOR_SIZE * sectors <= end <= mem.Length
    requires Holds(mem[..], buffer, done)
    modifies mem
    ensures failed == d.fails(lba, sectors)
    ensures OnlyReadTo(old(mem[..]), mem[..], buffer, end)
    ensures !failed ==> Holds(mem[..], buffer, done + ReadSectors(d, lba, sectors))
  {
    failed := ReadChunk(mem, d, lba, sectors);
    if !failed {
      ghost var m2 := mem[..];
      Memmove(mem, at, BOUNCE, sectors * SECTOR_SIZE);
      ChunkStored(old(mem[..]), m2, mem[..], buffer, end, at, done, ReadSectors(d, lba, sectors));
    }
  }

  /** Where chunk i goes. */
  function BufferAt(buffer: nat, i: nat): nat {
    buffer + MAX_SECTORS * SECTOR_SIZE * i
  }

  lemma ChunkFits(buffer: nat, sectors: nat, i: nat)
    requires i <= sectors / MAX_SECTORS
    ensures ChunkSize(sectors, i) <= MAX_SECTORS
    ensures BufferAt(buffer, i) + SECTOR_SIZE * ChunkSize(sectors, i) <= buffer + SECTOR_SIZE * sectors
  {
  }

  /** The loop's variables are at chunk i; past the last one the buffer pointer may have wrapped. */
  ghost predicate AtChunk(lba: nat, buffer: nat, sectors: nat, i: nat, currentLba: nat, currentBuffer: nat) {
    currentLba == ChunkLba(lba, i) && (i <= sectors / MAX_SECTORS ==> currentBuffer == BufferAt(buffer, i))
  }

  /** The loop's own arithmetic, which wraps, goes from one chunk to the next. */
  lemma NextChunk(lba: nat, buffer: nat, sectors: nat, i: nat, currentLba: nat, currentBuffer: nat)
    requires AtChunk(lba, buffer, sectors, i, currentLba, currentBuffer)
    requires i <= sectors / MAX_SECTORS && buffer + SECTOR_SIZE * sectors < WORD
    ensures AtChunk(lba, buffer, sectors, i + 1,
                    (currentLba + MAX_SECTORS) % WORD, (currentBuffer + MAX_SECTORS * SECTOR_SIZE) % WORD)
  {
  }

  /** One packet and one BIOS call; every such transfer fits the segment of the bounce buffer. */
  method ReadChunk(mem: array<byte>, d: Drive, lba: nat, sectors: nat) returns (failed: bool)
    requires BOUNCE_END <= mem.Length && lba < WORD && sectors <= MAX_SECTORS
    modifies mem
    ensures failed == d.fails(lba, sectors)
    ensures OnlyReadTo(old(mem[..]), mem[..], BOUNCE, BOUNCE)
    ensures !failed ==> Holds(mem[..], BOUNCE, ReadSectors(d, lba, sectors))
  {
    FillDap(mem, lba, sectors);
    ghost var m1 := mem[..];
    PacketRoundTrip(old(mem[..]), lba, sectors);
    failed := Int13(mem, d);
    if !failed {
      var data := ReadSectors(d, lba, sectors);
      assert mem[..] == Blit(m1, BOUNCE, data);
    }
  }

  lemma ChunkStored(m1: seq<byte>, m2: seq<byte>, m3: seq<byte>, buffer: nat, end: nat, at: nat,
                    done: seq<byte>, data: seq<byte>)
    requires BOUNCE_END <= |m1| && OnlyReadTo(m1, m2, BOUNCE, BOUNCE) && Clear(buffer, end)
    requires at == buffer + |done| && at + |data| <= end <= |m1| && |data| <= BOUNCE_END - BOUNCE
    requires Holds(m1, buffer, done) && Holds(m2, BOUNCE, data)
    requires m3 == Blit(m2, at, m2[BOUNCE..BOUNCE + |data|])
    ensures Holds(m3, buffer, done + data)
    ensures OnlyReadTo(m1, m3, buffer, end)
  {
    forall k | buffer <= k < at + |data| ensures m3[k] == (done + data)[k - buffer] {
      if k < at { assert m2[k] == m1[k] == m1[buffer..buffer + |done|][k - buffer]; }
    }
  }

  lemma OnlyReadToTrans(m0: seq<byte>, m1: seq<byte>, m2: seq<byte>, lo: nat, hi: nat)
    requires OnlyReadTo(m0, m1, lo, hi) && OnlyReadTo(m1, m2, lo, hi)
    ensures OnlyReadTo(m0, m2, lo, hi)
  {
  }
}
