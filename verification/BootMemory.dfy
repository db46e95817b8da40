/** The stage 1 memory map: a heap that ends where the bounce buffer starts, and reads into it. */
module BootMemory {
  import opened Bytes
  import opened HeapModel
  import opened HeapMemory
  import opened HeapAllocator
  import opened DiskRead

  /** The heap lies between the disk address packet and the bounce buffer, touching the latter. */
  ghost predicate Placed(h: Heap)
    reads h
  {
    h.Laid() && DAP + DAP_SIZE <= h.heap && h.heapEnd + HEADER == BOUNCE && BOUNCE_END <= h.mem.Length
  }

  /** And it is intact. */
  ghost predicate Stage1(h: Heap)
    reads h, h.mem
  {
    Placed(h) && h.Valid()
  }

  /** _stage1Main hands the heap everything from the end of its own image to the bounce buffer. */
  method PlaceHeap(mem: array<byte>, guard: Guard, stop: nat) returns (h: Heap)
    requires DAP + DAP_SIZE <= stop && stop + 2 * HEADER <= BOUNCE && BOUNCE_END <= mem.Length <= WORD
    modifies mem
    ensures fresh(h) && h.mem == mem && h.guard == guard && Stage1(h)
    ensures h.heap == stop && h.blocks == [Block(BOUNCE - stop - 2 * HEADER, false)]
  {
    h := new Heap.Initialize(mem, guard, stop, BOUNCE - stop);
    h.ValidIsLaid();
  }

  /** Every allocation live in bs, but for x, is still there with the same data. */
  ghost predicate KeptExcept(a: nat, m: seq<byte>, bs: seq<Block>, m': seq<byte>, bs': seq<Block>, x: nat) {
    forall q: nat {:trigger Live(a, bs, q)} :: q != x && Live(a, bs, q) ==>
      Lookup(a, bs', q) == Lookup(a, bs, q) && Same(m, m', q, q + Lookup(a, bs, q).value.size)
  }

  /** A live allocation holds this data. */
  ghost predicate Owned(a: nat, m: seq<byte>, bs: seq<Block>, p: nat, data: seq<byte>) {
    Live(a, bs, p) && |data| <= Lookup(a, bs, p).value.size && Holds(m, p, data)
  }

  lemma OwnedKept(a: nat, m: seq<byte>, bs: seq<Block>, m': seq<byte>, bs': seq<Block>, x: nat,
                  p: nat, data: seq<byte>)
    requires Owned(a, m, bs, p, data) && KeptExcept(a, m, bs, m', bs', x) && (p == x ==> x == 0) && |m'| == |m|
    ensures Owned(a, m', bs', p, data)
  {
    LookupInside(a, bs, p);
    assert forall k :: 0 <= k < |data| ==> m'[p + k] == m[p + k] == m[p..p + |data|][k] == data[k];
  }

  lemma KeptTrans(a: nat, m0: seq<byte>, b0: seq<Block>, m1: seq<byte>, b1: seq<Block>,
                  m2: seq<byte>, b2: seq<Block>, x: nat, y: nat)
    requires KeptExcept(a, m0, b0, m1, b1, x) && KeptExcept(a, m1, b1, m2, b2, y)
    requires |m0| == |m1| == |m2| && (x == y || !Live(a, b0, y))
    ensures KeptExcept(a, m0, b0, m2, b2, x)
  {
    forall q: nat | q != x && Live(a, b0, q)
      ensures Lookup(a, b2, q) == Lookup(a, b0, q) && Same(m0, m2, q, q + Lookup(a, b0, q).value.size)
    {
      assert Live(a, b1, q);
    }
  }

  lemma NewlyLive(a: nat, m0: seq<byte>, b0: seq<Block>, m1: seq<byte>, b1: seq<Block>, p: nat)
    requires KeptExcept(a, m0, b0, m1, b1, 0) && !Live(a, b1, p)
    ensures !Live(a, b0, p)
  {
    LookupInside(a, b0, p);
  }

  lemma {:induction false} HeadersSame(m: seq<byte>, m': seq<byte>, a: nat, bs: seq<Block>)
    requires Same(m, m', a, a + Total(bs) + HEADER)
    ensures HeadersKept(m, m', a, bs)
    decreases bs
  {
    if bs != [] {
      HeadersSame(m, m', a + HEADER + bs[0].size, bs[1..]);
    }
  }

  /** Writing inside one block's data, or outside the heap, leaves every header alone. */
  lemma {:induction false} HeadersKeptByDataWrite(m: seq<byte>, m': seq<byte>, a: nat, bs: seq<Block>, p: nat, n: nat)
    requires |m'| == |m|
    requires Lookup(a, bs, p).Some? && n <= Lookup(a, bs, p).value.size
    requires forall k :: a <= k < a + Total(bs) + HEADER && k < |m| && m'[k] != m[k] ==> p <= k < p + n
    ensures HeadersKept(m, m', a, bs)
    decreases bs
  {
    var next := a + HEADER + bs[0].size;
    LookupInside(a, bs, p);
    if a + HEADER == p {
      HeadersSame(m, m', next, bs[1..]);
    } else {
      LookupInside(next, bs[1..], p);
      HeadersKeptByDataWrite(m, m', next, bs[1..], p, n);
    }
  }

  /** A read into a live allocation changes neither the chain nor any other live allocation, and
      its source and destination never overlap. */
  lemma ReadIntoAllocation(m: seq<byte>, m': seq<byte>, a: nat, bs: seq<Block>, end: nat, p: nat, off: nat, n: nat)
    requires a + Total(bs) == end && end + HEADER == BOUNCE && DAP + DAP_SIZE <= a && BOUNCE <= |m|
    requires Live(a, bs, p) && off + n <= Lookup(a, bs, p).value.size
    requires OnlyReadTo(m, m', p + off, p + off + n)
    ensures KeptExcept(a, m, bs, m', bs, p) && Same(m, m', p, p + off)
    ensures Chain(m, a, bs, end) ==> Chain(m', a, bs, end)
  {
    LookupInside(a, bs, p);
    if Chain(m, a, bs, end) {
      HeadersKeptByDataWrite(m, m', a, bs, p, off + n);
      ChainFrame(m, m', a, bs, end);
    }
    forall q: nat | q != p && Live(a, bs, q)
      ensures Same(m, m', q, q + Lookup(a, bs, q).value.size)
    {
      LookupInside(a, bs, q);
      if q < p { LookupApart(a, bs, q, p); } else { LookupApart(a, bs, p, q); }
    }
  }

  lemma AllocationIsClear(a: nat, bs: seq<Block>, end: nat, p: nat, off: nat, n: nat)
    requires a + Total(bs) == end && end + HEADER == BOUNCE && DAP + DAP_SIZE <= a
    requires Live(a, bs, p) && off + n <= Lookup(a, bs, p).value.size
    ensures a + HEADER <= p && p + off + n + HEADER <= BOUNCE && Clear(p + off, p + off + n)
  {
    LookupInside(a, bs, p);
  }

  /** operator new on the stage 1 heap. Even a torn split leaves every allocation its own bytes. */
  method New(h: Heap, size: nat) returns (p: nat, torn: bool)
    requires Stage1(h)
    modifies h`blocks, h.mem
    ensures Placed(h) && (!torn ==> h.Valid())
    ensures KeptExcept(h.heap, old(h.mem[..]), old(h.blocks), h.mem[..], h.blocks, 0)
    ensures p != 0 ==>
      && Live(h.heap, h.blocks, p) && !Live(h.heap, old(h.blocks), p)
      && Lookup(h.heap, h.blocks, p).value.size >= size
    ensures match Alloc(h.guard, h.heap, old(h.blocks), size)
      case NoFit => !torn && p == 0 && h.blocks == old(h.blocks)
      case Got(q, after) => !torn && p == q != 0 && h.blocks == after
      case Torn(q) => torn && p == q != 0
  {
    ghost var a, bs := h.heap, h.blocks;
    p, torn := h.Kalloc(size);
    ghost var r := Alloc(h.guard, a, bs, size);
    if r.Got? {
      AllocGotIsNotNull(h.guard, a, bs, size);
      forall q: nat ensures Live(a, bs, q) ==> Lookup(a, h.blocks, q) == Lookup(a, bs, q) {
        AllocLive(h.guard, a, bs, size, q);
      }
      AllocLive(h.guard, a, bs, size, p);
    } else if r.Torn? {
      forall q: nat ensures Live(a, bs, q) ==> Lookup(a, h.blocks, q) == Lookup(a, bs, q) {
        ClaimLive(h.guard, a, bs, size, q);
      }
      ClaimLive(h.guard, a, bs, size, p);
    }
  }

  lemma {:induction false} AllocGotIsNotNull(g: Guard, a: nat, bs: seq<Block>, size: nat)
    ensures var r := Alloc(g, a, bs, size); r.Got? ==> r.ptr >= a + HEADER
    decreases bs
  {
    if bs != [] {
      AllocGotIsNotNull(g, a + HEADER + bs[0].size, bs[1..], size);
    }
  }

  /** A disk read into the allocation at p, starting off bytes into it. */
  method ReadInto(h: Heap, d: Drive, lba: nat, p: nat, off: nat, sectors: nat) returns (ok: bool)
    requires Placed(h) && lba < WORD
    requires Live(h.heap, h.blocks, p) && off + SECTOR_SIZE * sectors <= Lookup(h.heap, h.blocks, p).value.size
    modifies h.mem
    ensures old(h.Valid()) ==> h.Valid()
    ensures ok == Readable(d, lba, sectors)
    ensures ok ==> Holds(h.mem[..], p + off, Delivered(d, lba, sectors))
    ensures KeptExcept(h.heap, old(h.mem[..]), h.blocks, h.mem[..], h.blocks, p)
    ensures Same(old(h.mem[..]), h.mem[..], p, p + off)
  {
    ghost var m := h.mem[..];
    AllocationIsClear(h.heap, h.blocks, h.heapEnd, p, off, SECTOR_SIZE * sectors);
    ok := DiskRead16(h.mem, d, lba, p + off, sectors);
    ReadIntoAllocation(m, h.mem[..], h.heap, h.blocks, h.heapEnd, p, off, SECTOR_SIZE * sectors);
  }
}
