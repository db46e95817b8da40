/** Loading an ELF32 executable from a file buffer into flat memory. */
module Elf {
  import opened Bytes
  import opened StringC

  const PHDR_SIZE := 32   // sizeof(elf32_Phdr), the stride of e_phnum in "ph + e_phnum"
  const PT_LOAD := 1
  const PT_DYNAMIC := 2
  const PT_INTERP := 3

  datatype Phdr = Phdr(ptype: nat, offset: nat, paddr: nat, filesz: nat, memsz: nat)

  function PhdrAt(m: seq<byte>, ph: nat): Phdr
    requires ph + PHDR_SIZE <= |m|
  {
    Phdr(Le32(m, ph), Le32(m, ph + 4), Le32(m, ph + 12), Le32(m, ph + 16), Le32(m, ph + 20))
  }

  /** The fields of the file header the loader uses. */
  datatype Ehdr = Ehdr(phoff: nat, phentsize: nat, phnum: nat)

  function EhdrAt(m: seq<byte>, at: nat): Ehdr
    requires at + 52 <= |m|
  {
    Ehdr(Le32(m, at + 28), Le16(m, at + 42), Le16(m, at + 44))
  }

  /** elf_check_prog_header */
  predicate Supported(p: Phdr) {
    p.ptype != PT_DYNAMIC && p.ptype != PT_INTERP
  }

  predicate Loaded(p: Phdr) {
    p.ptype == PT_LOAD && p.memsz != 0
  }

  /** Bytes written from paddr on: file bytes, then zeros if memory asks for more. */
  function Extent(p: Phdr): nat {
    if !Loaded(p) then 0 else if p.memsz > p.filesz then p.memsz else p.filesz
  }

  predicate Covers(p: Phdr, a: nat) {
    p.paddr <= a < p.paddr + Extent(p)
  }

  /** Entries d bytes apart that start in the first t bytes. */
  function Strides(t: nat, d: nat): nat
    requires d > 0
    decreases t
  {
    if t == 0 then 0 else 1 + Strides(if t > d then t - d else 0, d)
  }

  /** Number of times the loop body runs: entries are e_phentsize apart, but the end of the table
      is e_phnum * 32 bytes from its start. */
  function Steps(e: Ehdr): nat
    requires e.phentsize > 0
  {
    Strides(PHDR_SIZE * e.phnum, e.phentsize)
  }

  /** k entries further on. */
  function Advanced(base: nat, d: nat, k: nat): (a: nat)
    ensures a >= base
  {
    if k == 0 then base else Advanced(base, d, k - 1) + d
  }

  /** Address of the k-th entry looked at. */
  function EntryAddress(at: nat, e: Ehdr, k: nat): (a: nat)
    ensures a >= at
  {
    Advanced(at + e.phoff, e.phentsize, k)
  }

  lemma {:induction false} AdvancedIs(base: nat, d: nat, k: nat)
    ensures Advanced(base, d, k) == base + k * d
    decreases k
  {
    if k > 0 {
      AdvancedIs(base, d, k - 1);
      assert k * d == (k - 1) * d + d;
    }
  }

  lemma {:induction false} StridesIs(t: nat, d: nat)
    requires d > 0
    ensures Strides(t, d) * d < t + d && t <= Strides(t, d) * d
    decreases t
  {
    if t > 0 {
      var rest := Strides(if t > d then t - d else 0, d);
      StridesIs(if t > d then t - d else 0, d);
      assert (1 + rest) * d == d + rest * d;
    }
  }

  /** The loop runs ceil(32 * e_phnum / e_phentsize) times. */
  lemma StepsIsCeiling(e: Ehdr)
    requires e.phentsize > 0
    ensures Steps(e) == (PHDR_SIZE * e.phnum + e.phentsize - 1) / e.phentsize
  {
    var t, d := PHDR_SIZE * e.phnum, e.phentsize;
    StridesIs(t, d);
    QuotientIs(t + d - 1, d, Strides(t, d));
  }

  /** Where the pointer stands after it is moved back by one entry. */
  function LastAddress(at: nat, e: Ehdr): int
    requires e.phentsize > 0
  {
    EntryAddress(at, e, Steps(e)) - e.phentsize
  }

  lemma {:induction false} StridesReach(base: nat, t: nat, d: nat, k: nat)
    requires d > 0
    ensures Advanced(base, d, k) < base + t <==> k < Strides(t, d)
    decreases k
  {
    if k > 0 && t > 0 {
      StridesReach(base + d, if t > d then t - d else 0, d, k - 1);
      AdvancedShift(base, d, k - 1);
    }
  }

  lemma {:induction false} AdvancedShift(base: nat, d: nat, k: nat)
    ensures Advanced(base + d, d, k) == Advanced(base, d, k + 1)
  {
    if k > 0 {
      AdvancedShift(base, d, k - 1);
    }
  }

  /** Where the table would end if its entries were 32 bytes. */
  function TableEnd(at: nat, e: Ehdr): nat {
    at + e.phoff + PHDR_SIZE * e.phnum
  }

  lemma LoopGoesOnIff(at: nat, e: Ehdr, k: nat)
    requires e.phentsize > 0
    ensures EntryAddress(at, e, k) < TableEnd(at, e) <==> k < Steps(e)
    ensures EntryAddress(at, e, k + 1) == EntryAddress(at, e, k) + e.phentsize
  {
    StridesReach(at + e.phoff, PHDR_SIZE * e.phnum, e.phentsize, k);
  }

  /** The loop reads entry k: it is in the file buffer. */
  predicate InBuffer(at: nat, len: nat, e: Ehdr, k: nat) {
    EntryAddress(at, e, k) + PHDR_SIZE <= at + len
  }

  /** The first entry from k on that the loop does not get past, or the number of entries. */
  ghost function FirstRefused(m: seq<byte>, at: nat, len: nat, k: nat): (n: nat)
    requires 52 <= len && at + len <= |m| && EhdrAt(m, at).phentsize > 0 && k <= Steps(EhdrAt(m, at))
    ensures k <= n <= Steps(EhdrAt(m, at))
    decreases Steps(EhdrAt(m, at)) - k
  {
    var e := EhdrAt(m, at);
    if k == Steps(e) || !InBuffer(at, len, e, k) || !Supported(PhdrAt(m, EntryAddress(at, e, k))) then k
    else FirstRefused(m, at, len, k + 1)
  }

  /** What the loader takes for granted: everything it reads is in the file buffer, its pointer stays
      in the address space, and no segment is put outside memory or over that buffer. Segments may
      overlap each other; what follows a refused entry may be anything. */
  ghost predicate Loadable(m: seq<byte>, at: nat, len: nat) {
    && 52 <= len && at + len <= |m| && |m| <= WORD
    && var e := EhdrAt(m, at);
    && 0 < e.phentsize
    && EntryAddress(at, e, Steps(e)) < WORD
    && var n := FirstRefused(m, at, len, 0);
    && (forall k :: 0 <= k < n ==> EntryOk(m, at, len, e, k))
    && (if n < Steps(e) then InBuffer(at, len, e, n)
        else at <= LastAddress(at, e) && LastAddress(at, e) + PHDR_SIZE <= at + len)
  }

  /** Number of entries whose segments are loaded. */
  ghost function Accepted(m: seq<byte>, at: nat, len: nat): (n: nat)
    requires Loadable(m, at, len)
    ensures n <= Steps(EhdrAt(m, at))
  {
    FirstRefused(m, at, len, 0)
  }

  ghost predicate EntryOk(m: seq<byte>, at: nat, len: nat, e: Ehdr, k: nat)
    requires at + len <= |m|
  {
    && InBuffer(at, len, e, k)
    && var p := PhdrAt(m, EntryAddress(at, e, k));
    && (Loaded(p) ==>
          && p.offset + p.filesz <= len
          && p.paddr + Extent(p) <= |m|
          && (p.paddr + Extent(p) <= at || at + len <= p.paddr))
  }

  function ByteOf(m: seq<byte>, at: nat, p: Phdr, a: nat): byte
    requires Covers(p, a) && at + p.offset + p.filesz <= |m|
  {
    if a < p.paddr + p.filesz then m[at + p.offset + (a - p.paddr)] else 0
  }

  /** The image after the first n entries: the last one that covers a byte decides it. */
  ghost function ImageByte(m: seq<byte>, at: nat, len: nat, n: nat, a: nat): byte
    requires Loadable(m, at, len) && n <= Accepted(m, at, len) && a < |m|
  {
    if n == 0 then m[a]
    else
      var e := EhdrAt(m, at);
      assert EntryOk(m, at, len, e, n - 1);
      var p := PhdrAt(m, EntryAddress(at, e, n - 1));
      if Covers(p, a) then ByteOf(m, at, p, a) else ImageByte(m, at, len, n - 1, a)
  }

  /** Memory m' is the image of the first n entries of m. */
  ghost predicate IsImage(m: seq<byte>, m': seq<byte>, at: nat, len: nat, n: nat)
    requires Loadable(m, at, len) && n <= Accepted(m, at, len)
  {
    |m'| == |m| && forall a :: 0 <= a < |m| ==> m'[a] == ImageByte(m, at, len, n, a)
  }

  ghost predicate SegmentsApart(m: seq<byte>, at: nat, len: nat, n: nat)
    requires Loadable(m, at, len) && n <= Accepted(m, at, len)
  {
    forall i, j, a :: 0 <= i < j < n && CoveredBy(m, at, len, i, a) ==> !CoveredBy(m, at, len, j, a)
  }

  ghost predicate CoveredBy(m: seq<byte>, at: nat, len: nat, k: nat, a: nat)
    requires Loadable(m, at, len)
  {
    k < Steps(EhdrAt(m, at)) && EntryOk(m, at, len, EhdrAt(m, at), k)
    && Covers(PhdrAt(m, EntryAddress(at, EhdrAt(m, at), k)), a)
  }

  /** With segments that do not overlap, order does not matter: each byte of a segment is its file
      byte or, past the file part, zero; every byte outside all segments is what it was. */
  lemma {:induction false} ImageIsDeclarative(m: seq<byte>, at: nat, len: nat, n: nat, a: nat)
    requires Loadable(m, at, len) && n <= Accepted(m, at, len) && SegmentsApart(m, at, len, n) && a < |m|
    ensures forall k :: 0 <= k < n && CoveredBy(m, at, len, k, a) ==>
      ImageByte(m, at, len, n, a) == ByteOf(m, at, PhdrAt(m, EntryAddress(at, EhdrAt(m, at), k)), a)
    ensures (forall k :: 0 <= k < n ==> !CoveredBy(m, at, len, k, a)) ==> ImageByte(m, at, len, n, a) == m[a]
    decreases n
  {
    if n > 0 {
      LastDecides(m, at, len, n, a);
      if CoveredBy(m, at, len, n - 1, a) {
        assert forall k :: 0 <= k < n - 1 ==> !CoveredBy(m, at, len, k, a);
      } else {
        ApartBefore(m, at, len, n);
        ImageIsDeclarative(m, at, len, n - 1, a);
      }
    }
  }

  lemma ApartBefore(m: seq<byte>, at: nat, len: nat, n: nat)
    requires Loadable(m, at, len) && 0 < n <= Accepted(m, at, len) && SegmentsApart(m, at, len, n)
    ensures SegmentsApart(m, at, len, n - 1)
  {
  }

  lemma LastHeaderDecides(m: seq<byte>, at: nat, len: nat, n: nat, a: nat, p: Phdr)
    requires Loadable(m, at, len) && 0 < n <= Accepted(m, at, len) && a < |m|
    requires var e := EhdrAt(m, at); InBuffer(at, len, e, n - 1) && p == PhdrAt(m, EntryAddress(at, e, n - 1))
    ensures Covers(p, a) ==> at + p.offset + p.filesz <= |m| && ImageByte(m, at, len, n, a) == ByteOf(m, at, p, a)
    ensures !Covers(p, a) ==> ImageByte(m, at, len, n, a) == ImageByte(m, at, len, n - 1, a)
  {
    assert EntryOk(m, at, len, EhdrAt(m, at), n - 1);
  }

  lemma LastDecides(m: seq<byte>, at: nat, len: nat, n: nat, a: nat)
    requires Loadable(m, at, len) && 0 < n <= Accepted(m, at, len) && a < |m|
    ensures ImageByte(m, at, len, n, a) ==
      if CoveredBy(m, at, len, n - 1, a) then ByteOf(m, at, PhdrAt(m, EntryAddress(at, EhdrAt(m, at), n - 1)), a)
      else ImageByte(m, at, len, n - 1, a)
  {
    assert EntryOk(m, at, len, EhdrAt(m, at), n - 1);
  }

  /** One PT_LOAD segment: memcpy of the file part, memset of the rest. */
  method LoadSegment(mem: array<byte>, at: nat, p: Phdr)
    requires Loaded(p) && at + p.offset + p.filesz <= mem.Length && p.paddr + Extent(p) <= mem.Length
    requires p.paddr + p.filesz <= at + p.offset || at + p.offset + p.filesz <= p.paddr
    modifies mem
    ensures SegmentIn(old(mem[..]), mem[..], at, p)
  {
    CopyFilePart(mem, at + p.offset, p.paddr, p.filesz);
    ghost var m1 := mem[..];
    ZeroRest(mem, p);
    SegmentBytes(old(mem[..]), m1, mem[..], at, p);
  }

  method ZeroRest(mem: array<byte>, p: Phdr)
    requires Loaded(p) && p.paddr + Extent(p) <= mem.Length
    modifies mem
    ensures mem[..] == Zeroed(old(mem[..]), p)
  {
    if p.memsz > p.filesz {
      Memset(mem, p.paddr + p.filesz, 0, p.memsz - p.filesz);
    }
  }

  function Zeroed(m: seq<byte>, p: Phdr): seq<byte>
    requires Loaded(p) && p.paddr + Extent(p) <= |m|
  {
    if p.memsz > p.filesz then Blit(m, p.paddr + p.filesz, Repeat(0, p.memsz - p.filesz)) else m
  }

  method CopyFilePart(mem: array<byte>, src: nat, dest: nat, size: nat)
    requires src + size <= mem.Length && dest + size <= mem.Length
    requires dest + size <= src || src + size <= dest
    modifies mem
    ensures mem[..] == Blit(old(mem[..]), dest, old(mem[..])[src..src + size])
  {
    assert mem[..][src..src + size] == mem[src..src + size];
    Memcpy(mem, dest, src, size);
  }

  /** What the copy leaves, and then the zeros. */
  lemma SegmentBytes(m: seq<byte>, m1: seq<byte>, m2: seq<byte>, at: nat, p: Phdr)
    requires Loaded(p) && at + p.offset + p.filesz <= |m| && p.paddr + Extent(p) <= |m|
    requires m1 == Blit(m, p.paddr, m[at + p.offset..at + p.offset + p.filesz]) && m2 == Zeroed(m1, p)
    ensures SegmentIn(m, m2, at, p)
  {
    FileBytes(m, m1, at + p.offset, p);
    ZeroBytes(m1, m2, p);
    forall a | 0 <= a < |m| ensures m2[a] == if Covers(p, a) then ByteOf(m, at, p, a) else m[a] {
      assert m1[a] == if p.paddr <= a < p.paddr + p.filesz then m[at + p.offset + (a - p.paddr)] else m[a];
    }
  }

  lemma ZeroBytes(m1: seq<byte>, m2: seq<byte>, p: Phdr)
    requires Loaded(p) && p.paddr + Extent(p) <= |m1| && m2 == Zeroed(m1, p)
    ensures |m2| == |m1| && forall a :: 0 <= a < |m1| ==>
      m2[a] == if p.paddr + p.filesz <= a < p.paddr + Extent(p) then 0 else m1[a]
  {
  }

  lemma FileBytes(m: seq<byte>, m1: seq<byte>, src: nat, p: Phdr)
    requires src + p.filesz <= |m| && p.paddr + p.filesz <= |m|
    requires m1 == Blit(m, p.paddr, m[src..src + p.filesz])
    ensures forall a :: 0 <= a < |m| ==>
      m1[a] == if p.paddr <= a < p.paddr + p.filesz then m[src + (a - p.paddr)] else m[a]
  {
  }

  /** Memory m2 is m with the segment of p in place. */
  ghost predicate SegmentIn(m: seq<byte>, m2: seq<byte>, at: nat, p: Phdr)
    requires at + p.offset + p.filesz <= |m|
  {
    |m2| == |m| && forall a :: 0 <= a < |m| ==> m2[a] == if Covers(p, a) then ByteOf(m, at, p, a) else m[a]
  }

  /** The entries before the first refused one are in order, and that one can be read. */
  lemma {:induction false} AcceptedUpTo(m: seq<byte>, at: nat, len: nat, j: nat, k: nat)
    requires 52 <= len && at + len <= |m| && EhdrAt(m, at).phentsize > 0
    requires j <= k < Steps(EhdrAt(m, at)) && k <= FirstRefused(m, at, len, j)
    ensures var e := EhdrAt(m, at);
      k < FirstRefused(m, at, len, j) <==>
        InBuffer(at, len, e, k) && Supported(PhdrAt(m, EntryAddress(at, e, k)))
    decreases k - j
  {
    if j < k {
      AcceptedUpTo(m, at, len, j + 1, k);
    }
  }

  lemma EntryReadable(m: seq<byte>, at: nat, len: nat, k: nat)
    requires Loadable(m, at, len) && k < Steps(EhdrAt(m, at)) && k <= Accepted(m, at, len)
    ensures var e := EhdrAt(m, at);
      && InBuffer(at, len, e, k)
      && (k < Accepted(m, at, len) <==> Supported(PhdrAt(m, EntryAddress(at, e, k))))
      && (k < Accepted(m, at, len) ==> EntryOk(m, at, len, e, k))
  {
    AcceptedUpTo(m, at, len, 0, k);
  }

  lemma SamePhdr(m: seq<byte>, m': seq<byte>, at: nat, len: nat, ph: nat)
    requires at <= ph && ph + PHDR_SIZE <= at + len <= |m| && BufferSame(m, m', at, len)
    ensures PhdrAt(m', ph) == PhdrAt(m, ph)
  {
  }

  /** The file buffer still reads as it did. */
  ghost predicate BufferSame(m: seq<byte>, m': seq<byte>, at: nat, len: nat) {
    |m'| == |m| && forall a :: at <= a < at + len && a < |m| ==> m'[a] == m[a]
  }

  lemma ImageStep(m: seq<byte>, m1: seq<byte>, m2: seq<byte>, at: nat, len: nat, k: nat, p: Phdr)
    requires Loadable(m, at, len) && k < Accepted(m, at, len) && EntryOk(m, at, len, EhdrAt(m, at), k)
    requires p == PhdrAt(m, EntryAddress(at, EhdrAt(m, at), k))
    requires IsImage(m, m1, at, len, k) && BufferSame(m, m1, at, len)
    requires if Loaded(p) then SegmentIn(m1, m2, at, p) else m2 == m1
    ensures IsImage(m, m2, at, len, k + 1) && BufferSame(m, m2, at, len)
  {
    forall a | 0 <= a < |m| ensures m2[a] == ImageByte(m, at, len, k + 1, a) {
      if Covers(p, a) {
        assert ByteOf(m1, at, p, a) == ByteOf(m, at, p, a);
      }
    }
  }

  /** Memory is the image of the first k entries, all of them loaded, and the file still reads the same. */
  ghost predicate LoadedTo(m: seq<byte>, m': seq<byte>, at: nat, len: nat, k: nat)
    requires Loadable(m, at, len)
  {
    k <= Accepted(m, at, len) && IsImage(m, m', at, len, k) && BufferSame(m, m', at, len)
  }

  /** The loop body: false when the entry is refused. */
  method LoadEntry(mem: array<byte>, at: nat, ghost len: nat, ph: nat, ghost m: seq<byte>, ghost k: nat)
      returns (ok: bool)
    requires Loadable(m, at, len) && k < Steps(EhdrAt(m, at)) && LoadedTo(m, mem[..], at, len, k)
    requires ph == EntryAddress(at, EhdrAt(m, at), k)
    modifies mem
    ensures ok == (k < Accepted(m, at, len))
    ensures ok ==> LoadedTo(m, mem[..], at, len, k + 1)
    ensures !ok ==> LoadedTo(m, mem[..], at, len, k)
  {
    ghost var m1 := mem[..];
    EntryReadable(m, at, len, k);
    SamePhdr(m, m1, at, len, ph);
    var p := PhdrAt(mem[..], ph);
    ok := Supported(p);
    if ok {
      if p.ptype == PT_LOAD && p.memsz != 0 {
        LoadSegment(mem, at, p);
      }
      ImageStep(m, m1, mem[..], at, len, k, p);
    }
  }

  /** elf32_load: 0 when an entry is refused, else the end of the last entry looked at. */
  method Load(mem: array<byte>, at: nat, ghost len: nat) returns (finalMem: nat)
    requires Loadable(mem[..], at, len)
    modifies mem
    ensures var n := Accepted(old(mem[..]), at, len); var e := EhdrAt(old(mem[..]), at);
      && IsImage(old(mem[..]), mem[..], at, len, n)
      && finalMem == if n < Steps(e) then 0 else SegmentEnd(PhdrAt(old(mem[..]), LastAddress(at, e)))
  {
    ghost var m, k := mem[..], 0;
    var e := EhdrAt(mem[..], at);
    var ph: nat, eph: nat := TablePointers(at, e);
    var ok := true;
    while ok && ph < eph
      invariant k <= Steps(e) && ph == EntryAddress(at, e, k)
      invariant LoadedTo(m, mem[..], at, len, k) && (!ok ==> k == Accepted(m, at, len) < Steps(e))
      decreases Steps(e) - k, ok
    {
      LoopGoesOnIff(at, e, k);
      ok := LoadEntry(mem, at, len, ph, m, k);
      if ok {
        NextPointer(at, e, k);
        ph := (ph + e.phentsize) % WORD;
        k := k + 1;
      }
    }
    if !ok {
      return 0;
    }
    LoopGoesOnIff(at, e, k);
    LastRead(m, mem[..], at, len);
    ph := ph - e.phentsize;
    return SegmentEnd(PhdrAt(mem[..], ph));
  }

  /** Where the table starts, and where it would end if its entries were 32 bytes. */
  method TablePointers(at: nat, e: Ehdr) returns (ph: nat, eph: nat)
    requires e.phentsize > 0 && EntryAddress(at, e, Steps(e)) < WORD
    ensures ph == EntryAddress(at, e, 0) && eph == TableEnd(at, e)
  {
    LoopGoesOnIff(at, e, Steps(e));
    Unwrapped(at + e.phoff);
    Unwrapped(TableEnd(at, e));
    ph := (at + e.phoff) % WORD;
    eph := (ph + PHDR_SIZE * e.phnum) % WORD;
  }

  lemma NextPointer(at: nat, e: Ehdr, k: nat)
    requires e.phentsize > 0 && k < Steps(e) && EntryAddress(at, e, Steps(e)) < WORD
    ensures (EntryAddress(at, e, k) + e.phentsize) % WORD == EntryAddress(at, e, k + 1)
  {
    Climbs(at + e.phoff, e.phentsize, k + 1, Steps(e));
    Unwrapped(EntryAddress(at, e, k + 1));
  }

  lemma {:induction false} Climbs(base: nat, d: nat, j: nat, k: nat)
    requires j <= k
    ensures Advanced(base, d, j) <= Advanced(base, d, k)
    decreases k
  {
    if j < k {
      Climbs(base, d, j, k - 1);
    }
  }

  /** Past the loop, with every entry loaded, the last one still reads as it did. */
  lemma LastRead(m: seq<byte>, m': seq<byte>, at: nat, len: nat)
    requires Loadable(m, at, len) && Accepted(m, at, len) == Steps(EhdrAt(m, at)) && BufferSame(m, m', at, len)
    ensures var last := LastAddress(at, EhdrAt(m, at));
      0 <= last && last + PHDR_SIZE <= |m| == |m'| && PhdrAt(m', last) == PhdrAt(m, last)
  {
    SamePhdr(m, m', at, len, LastAddress(at, EhdrAt(m, at)));
  }

  function SegmentEnd(p: Phdr): nat {
    (p.paddr + p.memsz) % WORD
  }
}
