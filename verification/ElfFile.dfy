/** ELF32 files as the format lays them out, and what loading one does to memory. */
module ElfFile {
  import opened Bytes
  import Elf

  /** elf32_Phdr, field by field. */
  datatype Segment = Segment(
    ptype: nat, offset: nat, vaddr: nat, paddr: nat, filesz: nat, memsz: nat, flags: nat, align: nat)

  function EncodeSegment(p: Segment): (e: seq<byte>)
    ensures |e| == 32
  {
    Enc32(p.ptype) + Enc32(p.offset) + Enc32(p.vaddr) + Enc32(p.paddr)
      + Enc32(p.filesz) + Enc32(p.memsz) + Enc32(p.flags) + Enc32(p.align)
  }

  predicate SegmentFits(p: Segment) {
    p.ptype < WORD && p.offset < WORD && p.paddr < WORD && p.filesz < WORD && p.memsz < WORD
  }

  /** elf32_Ehdr, field by field. */
  datatype Header = Header(
    ident: seq<byte>, etype: nat, machine: nat, version: nat, entry: nat, phoff: nat, shoff: nat, flags: nat,
    ehsize: nat, phentsize: nat, phnum: nat, shentsize: nat, shnum: nat, shstrndx: nat)

  function EncodeHeader(h: Header): (e: seq<byte>)
    requires |h.ident| == 16
    ensures |e| == 52
  {
    h.ident + Enc16(h.etype) + Enc16(h.machine) + Enc32(h.version) + Enc32(h.entry) + Enc32(h.phoff)
      + Enc32(h.shoff) + Enc32(h.flags) + Enc16(h.ehsize) + Enc16(h.phentsize) + Enc16(h.phnum)
      + Enc16(h.shentsize) + Enc16(h.shnum) + Enc16(h.shstrndx)
  }

  predicate HeaderFits(h: Header) {
    |h.ident| == 16 && h.phoff < WORD && h.phentsize < HALF && h.phnum < HALF
  }

  lemma Word(m: seq<byte>, at: nat, e: seq<byte>, off: nat, n: nat)
    requires at + |e| <= |m| && m[at..at + |e|] == e && off + 4 <= |e| && e[off..off + 4] == Enc32(n) && n < WORD
    ensures Le32(m, at + off) == n
  {
    SliceOfSlice(m, at, e, off, 4);
    Stored32(m, at + off, n);
  }

  lemma Half(m: seq<byte>, at: nat, e: seq<byte>, off: nat, n: nat)
    requires at + |e| <= |m| && m[at..at + |e|] == e && off + 2 <= |e| && e[off..off + 2] == Enc16(n) && n < HALF
    ensures Le16(m, at + off) == n
  {
    SliceOfSlice(m, at, e, off, 2);
    Stored16(m, at + off, n);
  }

  /** The loader reads an encoded program header as it was written. */
  lemma SegmentReads(m: seq<byte>, ph: nat, p: Segment)
    requires ph + 32 <= |m| && m[ph..ph + 32] == EncodeSegment(p) && SegmentFits(p)
    ensures Elf.PhdrAt(m, ph) == Elf.Phdr(p.ptype, p.offset, p.paddr, p.filesz, p.memsz)
  {
    var e := EncodeSegment(p);
    assert e[0..4] == Enc32(p.ptype) && e[4..8] == Enc32(p.offset) && e[12..16] == Enc32(p.paddr);
    assert e[16..20] == Enc32(p.filesz) && e[20..24] == Enc32(p.memsz);
    Word(m, ph, e, 0, p.ptype);
    Word(m, ph, e, 4, p.offset);
    Word(m, ph, e, 12, p.paddr);
    Word(m, ph, e, 16, p.filesz);
    Word(m, ph, e, 20, p.memsz);
  }

  /** And the file header. */
  lemma HeaderReads(m: seq<byte>, at: nat, h: Header)
    requires HeaderFits(h) && at + 52 <= |m| && m[at..at + 52] == EncodeHeader(h)
    ensures Elf.EhdrAt(m, at) == Elf.Ehdr(h.phoff, h.phentsize, h.phnum)
  {
    var e := EncodeHeader(h);
    assert e[28..32] == Enc32(h.phoff) && e[42..44] == Enc16(h.phentsize) && e[44..46] == Enc16(h.phnum);
    Word(m, at, e, 28, h.phoff);
    Half(m, at, e, 42, h.phentsize);
    Half(m, at, e, 44, h.phnum);
  }

  /** The file of this header and these program headers is in memory. */
  ghost predicate FileAt(m: seq<byte>, at: nat, len: nat, h: Header, ps: seq<Segment>) {
    && HeaderFits(h) && h.phentsize == 32 && h.phnum == |ps| && ps != []
    && 52 <= len && at + len <= |m| <= 0x1_0000_0000 && m[at..at + 52] == EncodeHeader(h)
    && h.phoff + 32 * |ps| <= len && at + h.phoff + 32 * |ps| < 0x1_0000_0000
    && forall k :: 0 <= k < |ps| ==> SegmentAt(m, at + h.phoff + 32 * k, ps[k])
  }

  ghost predicate SegmentAt(m: seq<byte>, ph: nat, p: Segment) {
    ph + 32 <= |m| && m[ph..ph + 32] == EncodeSegment(p) && SegmentFits(p)
  }

  /** Dynamic linking and interpreters are refused. */
  predicate Refused(p: Segment) {
    p.ptype == 2 || p.ptype == 3
  }

  /** n is the first entry that is refused, or their number. */
  ghost predicate StopsAt(ps: seq<Segment>, n: nat) {
    n <= |ps| && (forall k :: 0 <= k < n ==> !Refused(ps[k])) && (n < |ps| ==> Refused(ps[n]))
  }

  predicate Covers(p: Segment, a: nat) {
    p.ptype == 1 && p.memsz > 0 && p.paddr <= a && (a < p.paddr + p.filesz || a < p.paddr + p.memsz)
  }

  /** The segment comes from the file, and goes to memory outside it. */
  predicate Placed(m: seq<byte>, at: nat, len: nat, p: Segment) {
    p.ptype == 1 && p.memsz > 0 ==>
      && p.offset + p.filesz <= len
      && p.paddr + p.filesz <= |m| && p.paddr + p.memsz <= |m|
      && ((p.paddr + p.filesz <= at && p.paddr + p.memsz <= at) || at + len <= p.paddr)
  }

  ghost predicate AllPlaced(m: seq<byte>, at: nat, len: nat, ps: seq<Segment>, n: nat)
    requires n <= |ps|
  {
    forall k :: 0 <= k < n ==> Placed(m, at, len, ps[k])
  }

  /** Memory m' after the first n segments. */
  ghost predicate Image(m: seq<byte>, m': seq<byte>, at: nat, len: nat, ps: seq<Segment>, n: nat)
    requires n <= |ps| && at + len <= |m| && AllPlaced(m, at, len, ps, n)
  {
    |m'| == |m| && forall a :: 0 <= a < |m| ==> Imaged(m, m'[a], at, len, ps, n, a)
  }

  /** A byte is that of the last segment over it, or what it was if there is none. */
  ghost predicate Imaged(m: seq<byte>, b: byte, at: nat, len: nat, ps: seq<Segment>, n: nat, a: nat)
    requires n <= |ps| && at + len <= |m| && a < |m| && AllPlaced(m, at, len, ps, n)
  {
    && (forall k :: 0 <= k < n && LastOver(ps, n, k, a) ==> b == SegmentByte(m, at, len, ps[k], a))
    && ((forall k :: 0 <= k < n ==> !Covers(ps[k], a)) ==> b == m[a])
  }

  /** From the file as far as p_filesz goes, zero from there up to p_memsz. */
  function SegmentByte(m: seq<byte>, at: nat, len: nat, p: Segment, a: nat): byte
    requires at + len <= |m| && Placed(m, at, len, p) && Covers(p, a)
  {
    if a < p.paddr + p.filesz then m[at + p.offset + (a - p.paddr)] else 0
  }

  ghost predicate LastOver(ps: seq<Segment>, n: nat, k: nat, a: nat)
    requires k < n <= |ps|
  {
    Covers(ps[k], a) && forall j :: k < j < n ==> !Covers(ps[j], a)
  }

  // ---- the loader on such a file ----

  lemma TableReads(m: seq<byte>, at: nat, len: nat, h: Header, ps: seq<Segment>)
    requires FileAt(m, at, len, h, ps)
    ensures var e := Elf.EhdrAt(m, at);
      && e.phentsize == 32 && Elf.Steps(e) == |ps|
      && forall k :: 0 <= k <= |ps| ==> Elf.EntryAddress(at, e, k) == at + h.phoff + 32 * k
  {
    HeaderReads(m, at, h);
    var e := Elf.EhdrAt(m, at);
    Elf.StepsIsCeiling(e);
    forall k | 0 <= k <= |ps| ensures Elf.EntryAddress(at, e, k) == at + h.phoff + 32 * k {
      Elf.AdvancedIs(at + h.phoff, 32, k);
    }
  }

  /** Entry k is segment p to the loader. */
  ghost predicate IsEntry(m: seq<byte>, at: nat, len: nat, k: nat, p: Segment)
    requires 52 <= len && at + len <= |m|
  {
    var e := Elf.EhdrAt(m, at);
    && Elf.InBuffer(at, len, e, k)
    && Elf.PhdrAt(m, Elf.EntryAddress(at, e, k)) == Elf.Phdr(p.ptype, p.offset, p.paddr, p.filesz, p.memsz)
  }

  /** The header of entry k, as the loader takes it. */
  lemma EntryReads(m: seq<byte>, at: nat, len: nat, h: Header, ps: seq<Segment>, k: nat)
    requires FileAt(m, at, len, h, ps) && k < |ps|
    ensures IsEntry(m, at, len, k, ps[k])
  {
    TableReads(m, at, len, h, ps);
    assert SegmentAt(m, at + h.phoff + 32 * k, ps[k]);
    SegmentReads(m, at + h.phoff + 32 * k, ps[k]);
  }

  lemma {:induction false} RefusedFrom(m: seq<byte>, at: nat, len: nat, ps: seq<Segment>, n: nat, k: nat)
    requires 52 <= len && at + len <= |m| && StopsAt(ps, n) && k <= n
    requires Elf.EhdrAt(m, at).phentsize > 0 && Elf.Steps(Elf.EhdrAt(m, at)) == |ps|
    requires forall j :: 0 <= j < |ps| ==> IsEntry(m, at, len, j, ps[j])
    ensures Elf.FirstRefused(m, at, len, k) == n
    decreases n - k
  {
    if k < |ps| { assert IsEntry(m, at, len, k, ps[k]); }
    if k < n { RefusedFrom(m, at, len, ps, n, k + 1); }
  }

  lemma FileIsLoadable(m: seq<byte>, at: nat, len: nat, h: Header, ps: seq<Segment>, n: nat)
    requires FileAt(m, at, len, h, ps) && StopsAt(ps, n) && AllPlaced(m, at, len, ps, n)
    ensures Elf.Loadable(m, at, len) && Elf.Accepted(m, at, len) == n
  {
    var e := Elf.EhdrAt(m, at);
    TableReads(m, at, len, h, ps);
    forall k | 0 <= k < |ps| ensures IsEntry(m, at, len, k, ps[k]) { EntryReads(m, at, len, h, ps, k); }
    RefusedFrom(m, at, len, ps, n, 0);
    forall k | 0 <= k < n ensures Elf.EntryOk(m, at, len, e, k) {
      assert IsEntry(m, at, len, k, ps[k]) && Placed(m, at, len, ps[k]);
    }
    if n < |ps| { assert IsEntry(m, at, len, n, ps[n]); }
  }

  lemma StepsInFile(m: seq<byte>, at: nat, len: nat, h: Header, ps: seq<Segment>)
    requires FileAt(m, at, len, h, ps)
    ensures Elf.EhdrAt(m, at).phentsize > 0 && Elf.Steps(Elf.EhdrAt(m, at)) == |ps|
  {
    TableReads(m, at, len, h, ps);
  }

  /** What the answer is read from. */
  ghost predicate EndsWith(m: seq<byte>, last: int, p: Segment) {
    && 0 <= last && last + 32 <= |m|
    && Elf.SegmentEnd(Elf.PhdrAt(m, last)) == (p.paddr + p.memsz) % 0x1_0000_0000
  }

  lemma LastEnd(m: seq<byte>, at: nat, len: nat, h: Header, ps: seq<Segment>)
    requires FileAt(m, at, len, h, ps)
    ensures EndsWith(m, Elf.LastAddress(at, Elf.EhdrAt(m, at)), ps[|ps| - 1])
  {
    var last := LastStarts(m, at, len, h, ps);
    EndReads(m, last, ps[|ps| - 1]);
  }

  lemma EndReads(m: seq<byte>, last: nat, p: Segment)
    requires SegmentAt(m, last, p)
    ensures EndsWith(m, last, p)
  {
    SegmentReads(m, last, p);
  }

  lemma LastStarts(m: seq<byte>, at: nat, len: nat, h: Header, ps: seq<Segment>) returns (last: nat)
    requires FileAt(m, at, len, h, ps)
    ensures Elf.LastAddress(at, Elf.EhdrAt(m, at)) == last && SegmentAt(m, last, ps[|ps| - 1])
  {
    TableReads(m, at, len, h, ps);
    last := at + h.phoff + 32 * (|ps| - 1);
  }

  /** The bytes of the image, segment by segment. */
  function FileByte(m: seq<byte>, at: nat, len: nat, ps: seq<Segment>, k: nat, a: nat): byte
    requires k <= |ps| && at + len <= |m| && a < |m| && AllPlaced(m, at, len, ps, k)
  {
    if k == 0 then m[a]
    else if Covers(ps[k - 1], a) then SegmentByte(m, at, len, ps[k - 1], a)
    else FileByte(m, at, len, ps, k - 1, a)
  }

  lemma {:induction false} ImageOfFile(m: seq<byte>, at: nat, len: nat, ps: seq<Segment>, k: nat, a: nat)
    requires Elf.Loadable(m, at, len) && k <= Elf.Accepted(m, at, len) && k <= |ps| && a < |m|
    requires AllPlaced(m, at, len, ps, k)
    requires forall j :: 0 <= j < k ==> IsEntry(m, at, len, j, ps[j])
    ensures Elf.ImageByte(m, at, len, k, a) == FileByte(m, at, len, ps, k, a)
    decreases k
  {
    if k > 0 {
      ImageOfFile(m, at, len, ps, k - 1, a);
      assert IsEntry(m, at, len, k - 1, ps[k - 1]);
      LastSegment(m, at, len, ps[k - 1], k, a);
    }
  }

  lemma LastSegment(m: seq<byte>, at: nat, len: nat, p: Segment, k: nat, a: nat)
    requires Elf.Loadable(m, at, len) && 0 < k <= Elf.Accepted(m, at, len) && a < |m|
    requires Placed(m, at, len, p) && IsEntry(m, at, len, k - 1, p)
    ensures Elf.ImageByte(m, at, len, k, a) ==
      if Covers(p, a) then SegmentByte(m, at, len, p, a) else Elf.ImageByte(m, at, len, k - 1, a)
  {
    Elf.LastHeaderDecides(m, at, len, k, a, Elf.Phdr(p.ptype, p.offset, p.paddr, p.filesz, p.memsz));
    CoverSame(m, at, len, p, a);
  }

  lemma {:induction false} BytesAreImaged(m: seq<byte>, at: nat, len: nat, ps: seq<Segment>, k: nat, a: nat, b: byte)
    requires k <= |ps| && at + len <= |m| && a < |m| && AllPlaced(m, at, len, ps, k)
    requires b == FileByte(m, at, len, ps, k, a)
    ensures Imaged(m, b, at, len, ps, k, a)
    decreases k
  {
    if k > 0 {
      var before := FileByte(m, at, len, ps, k - 1, a);
      BytesAreImaged(m, at, len, ps, k - 1, a, before);
      OneMore(m, before, at, len, ps, k, a);
    }
  }

  /** The loader's view of a segment is the format's. */
  lemma CoverSame(m: seq<byte>, at: nat, len: nat, p: Segment, a: nat)
    requires at + len <= |m| && Placed(m, at, len, p)
    ensures var q := Elf.Phdr(p.ptype, p.offset, p.paddr, p.filesz, p.memsz);
      && (Elf.Covers(q, a) <==> Covers(p, a))
      && (Covers(p, a) ==> at + q.offset + q.filesz <= |m| && Elf.ByteOf(m, at, q, a) == SegmentByte(m, at, len, p, a))
  {
  }

  /** One more segment. */
  lemma OneMore(m: seq<byte>, b: byte, at: nat, len: nat, ps: seq<Segment>, k: nat, a: nat)
    requires 0 < k <= |ps| && at + len <= |m| && a < |m| && AllPlaced(m, at, len, ps, k)
    requires Imaged(m, b, at, len, ps, k - 1, a)
    ensures Imaged(m, if Covers(ps[k - 1], a) then SegmentByte(m, at, len, ps[k - 1], a) else b,
                   at, len, ps, k, a)
  {
    if !Covers(ps[k - 1], a) {
      forall j | 0 <= j < k && LastOver(ps, k, j, a) ensures j < k - 1 && LastOver(ps, k - 1, j, a) {}
    } else {
      forall j | 0 <= j < k && LastOver(ps, k, j, a) ensures j == k - 1 {}
    }
  }

  /** elf32_load on a file: memory becomes the image of the segments before the first one of type 2 or 3;
      the answer is null if there is such a one, else the end of the last segment. */
  method LoadFile(mem: array<byte>, at: nat, ghost len: nat, ghost h: Header, ghost ps: seq<Segment>, ghost n: nat)
      returns (finalMem: nat)
    requires FileAt(mem[..], at, len, h, ps) && StopsAt(ps, n) && AllPlaced(mem[..], at, len, ps, n)
    modifies mem
    ensures Image(old(mem[..]), mem[..], at, len, ps, n)
    ensures finalMem == if n < |ps| then 0 else (ps[|ps| - 1].paddr + ps[|ps| - 1].memsz) % 0x1_0000_0000
  {
    ghost var m := mem[..];
    FileIsLoadable(m, at, len, h, ps, n);
    StepsInFile(m, at, len, h, ps);
    LastEnd(m, at, len, h, ps);
    forall k | 0 <= k < n ensures IsEntry(m, at, len, k, ps[k]) { EntryReads(m, at, len, h, ps, k); }
    finalMem := Elf.Load(mem, at, len);
    forall a | 0 <= a < |m| ensures Imaged(m, mem[..][a], at, len, ps, n, a) {
      ImageOfFile(m, at, len, ps, n, a);
      BytesAreImaged(m, at, len, ps, n, a, mem[..][a]);
    }
  }
}
