/** The allocator itself: entries threaded through memory, split on allocation, merged on free. */
module HeapAllocator {
  import opened Bytes
  import opened HeapModel
  import opened HeapMemory

  lemma ReleasedChain(m: seq<byte>, a: nat, bs: seq<Block>, end: nat)
    requires bs != [] && Chain(m, a, bs, end)
    ensures Chain(WithReserved(m, a, false), a, [Block(bs[0].size, false)] + bs[1..], end)
  {
    var m' := WithReserved(m, a, false);
    var next := a + HEADER + bs[0].size;
    LinksTile(m, next, bs[1..], end);
    ReservedReads(m, a, false, a);
    LinksFrame(m, m', next, bs[1..], end);
    LastFrame(m, m', end);
    assert ([Block(bs[0].size, false)] + bs[1..])[1..] == bs[1..];
  }

  lemma NextIsWhere(m: seq<byte>, a: nat, bs: seq<Block>, end: nat)
    requires Chain(m, a, bs, end)
    ensures 0 < a && a + Total(bs) == end && end + HEADER <= |m| && a + HEADER <= |m|
    ensures bs == [] <==> NextOf(m, a) == 0
    ensures bs == [] ==> ReservedOf(m, a)
    ensures bs != [] ==>
      && Chain(m, NextOf(m, a), bs[1..], end)
      && SizeOf(m, a) == bs[0].size && ReservedOf(m, a) == bs[0].reserved
      && NextOf(m, a) == a + HEADER + bs[0].size
  {
    LinksTile(m, a, bs, end);
    if bs != [] {
      LinksTile(m, a + HEADER + bs[0].size, bs[1..], end);
    }
  }

  /** One merge step: the entry at a skips its free successor. */
  lemma RelinkedChain(m: seq<byte>, a: nat, bs: seq<Block>, end: nat)
    requires |bs| >= 2 && Chain(m, a, bs, end)
    ensures var after := a + HEADER + bs[0].size + HEADER + bs[1].size;
      && a + HEADER <= |m|
      && Chain(WithNext(m, a, after), a, Merged(bs), end)
  {
    var next := a + HEADER + bs[0].size;
    var after := next + HEADER + bs[1].size;
    assert bs[1..][1..] == bs[2..];
    assert Links(m, next, bs[1..], end);
    assert Links(m, after, bs[2..], end);
    LinksTile(m, after, bs[2..], end);
    var m' := WithNext(m, a, after);
    ReadWithNext(m, a, after);
    assert Same(m, m', after, |m|);
    LinksFrame(m, m', after, bs[2..], end);
    LastFrame(m, m', end);
    assert Merged(bs)[1..] == bs[2..];
  }

  function Merged(bs: seq<Block>): seq<Block>
    requires |bs| >= 2
  {
    [Block(bs[0].size + HEADER + bs[1].size, bs[0].reserved)] + bs[2..]
  }

  lemma MergedCoalesces(bs: seq<Block>)
    requires |bs| >= 2 && !bs[1].reserved
    ensures Coalesce(Merged(bs)[0].size, Merged(bs)[1..]) == Coalesce(bs[0].size, bs[1..])
  {
    assert Merged(bs)[1..] == bs[2..] == bs[1..][1..];
  }

  lemma SplitInTwoWrites(m0: seq<byte>, m: seq<byte>, a: nat, size: nat, available: nat, cut: nat, next: nat)
    requires size <= available && cut == a + HEADER + size && next == a + HEADER + available
    requires next + HEADER <= |m0| && m == WithEntry(WithNext(m0, a, cut), cut, next)
    ensures m == SplitMem(m0, a, size, available)
  {
  }

  /** What defragment finds: a reserved successor, or one it can swallow. */
  lemma MergeOrStop(m: seq<byte>, a: nat, bs: seq<Block>, end: nat)
    requires bs != [] && !bs[0].reserved && Chain(m, a, bs, end)
    ensures a + HEADER <= |m| && NextOf(m, a) + HEADER <= |m|
    ensures ReservedOf(m, NextOf(m, a)) ==> Coalesce(bs[0].size, bs[1..]) == bs
    ensures !ReservedOf(m, NextOf(m, a)) ==>
      var m' := WithNext(m, a, NextOf(m, NextOf(m, a)));
      && |bs| >= 2 && Chain(m', a, Merged(bs), end)
      && Coalesce(Merged(bs)[0].size, Merged(bs)[1..]) == Coalesce(bs[0].size, bs[1..])
      && Same(m, m', 0, a) && Same(m, m', a + HEADER, |m|)
  {
    NextIsWhere(m, a, bs, end);
    var next := NextOf(m, a);
    NextIsWhere(m, next, bs[1..], end);
    if ReservedOf(m, next) {
      assert [Block(bs[0].size, false)] + bs[1..] == bs;
    } else {
      assert bs[1..][0] == bs[1];
      assert NextOf(m, next) == a + HEADER + bs[0].size + HEADER + bs[1].size;
      RelinkedChain(m, a, bs, end);
      MergedCoalesces(bs);
    }
  }

  lemma SameTrans(m: seq<byte>, m1: seq<byte>, m2: seq<byte>, lo: nat, hi: nat)
    requires Same(m, m1, lo, hi) && Same(m1, m2, lo, hi)
    ensures Same(m, m2, lo, hi)
  {
  }

  class Heap {
    const mem: array<byte>
    const guard: Guard
    var heap: nat
    var heapEnd: nat
    ghost var blocks: seq<Block>

    ghost predicate Valid()
      reads this, mem
    {
      Chain(mem[..], heap, blocks, heapEnd)
    }

    /** The blocks fill the region between the two ends, whatever its bytes say. */
    ghost predicate Laid()
      reads this
    {
      0 < heap && heap + Total(blocks) == heapEnd && heapEnd + HEADER <= mem.Length <= WORD
    }

    lemma ValidIsLaid()
      requires Valid()
      ensures Laid()
    {
      NextIsWhere(mem[..], heap, blocks, heapEnd);
    }

    /** The caller hands over a region that is mapped, not at address 0, and holds two headers. */
    constructor Initialize(mem: array<byte>, guard: Guard, ptr: nat, maxSize: nat)
      requires 0 < ptr && ptr + maxSize <= mem.Length <= WORD && 2 * HEADER <= maxSize
      modifies mem
      ensures this.mem == mem && this.guard == guard && Valid()
      ensures heap == ptr && heapEnd == ptr + maxSize - HEADER
      ensures blocks == [Block(maxSize - 2 * HEADER, false)]
      ensures Same(old(mem[..]), mem[..], 0, ptr)
      ensures Same(old(mem[..]), mem[..], ptr + HEADER, heapEnd)
      ensures Same(old(mem[..]), mem[..], ptr + maxSize, mem.Length)
    {
      this.mem := mem;
      this.guard := guard;
      heap := ptr;
      heapEnd := ptr + maxSize - HEADER;
      blocks := [Block(maxSize - 2 * HEADER, false)];
      new;
      InitEntry(heap, heapEnd);
      ghost var m1 := mem[..];
      ReadWithEntry(old(mem[..]), ptr, heapEnd);
      InitEntry(heapEnd, 0);
      ReadWithEntry(m1, heapEnd, 0);
      NextFrame(m1, mem[..], ptr);
      assert mem[..][ptr + 4] == m1[ptr + 4];
      assert blocks[1..] == [] && ptr + HEADER + blocks[0].size == heapEnd;
      assert Links(mem[..], heapEnd, blocks[1..], heapEnd);
    }

    method SetNext(a: nat, next: nat)
      requires a + HEADER <= mem.Length
      modifies mem
      ensures mem[..] == WithNext(old(mem[..]), a, next)
    {
      var e := Enc32(next);
      mem[a], mem[a + 1], mem[a + 2], mem[a + 3] := e[0], e[1], e[2], e[3];
    }

    method SetReserved(a: nat, reserved: bool)
      requires a + HEADER <= mem.Length
      modifies mem
      ensures mem[..] == WithReserved(old(mem[..]), a, reserved)
    {
      mem[a + 4] := mem[a + 4] - mem[a + 4] % 2 + if reserved then 1 else 0;
    }

    /** heapEntry::init */
    method InitEntry(a: nat, next: nat)
      requires a + HEADER <= mem.Length
      modifies mem
      ensures mem[..] == WithEntry(old(mem[..]), a, next)
    {
      SetReserved(a, next == 0);
      SetNext(a, next);
    }

    /** heapEntry::allocate on the entry at a; bs is the rest of the heap from there. */
    method Allocate(a: nat, size: nat, ghost bs: seq<Block>) returns (ptr: nat, torn: bool)
      requires Chain(mem[..], a, bs, heapEnd)
      requires a + Total(bs) + HEADER <= mem.Length
      modifies mem
      decreases bs
      ensures mem[..] == AllocMem(guard, old(mem[..]), a, bs, size)
      ensures ptr == match Alloc(guard, a, bs, size) case NoFit => 0 case Got(p, _) => p case Torn(p) => p
      ensures torn == Alloc(guard, a, bs, size).Torn?
    {
      NextIsWhere(mem[..], a, bs, heapEnd);
      var next := NextOf(mem[..], a);
      if next == 0 {
        return 0, false;
      }
      var available := SizeOf(mem[..], a);
      if ReservedOf(mem[..], a) || size > available {
        ptr, torn := Allocate(next, size, bs[1..]);
        return;
      }
      torn := !SplitFits(guard, size, available);
      ptr := TakeEntry(a, size, available, next);
    }

    /** The tail of allocate: split if there is space left over, and mark the entry reserved. */
    method TakeEntry(a: nat, size: nat, available: nat, next: nat) returns (ptr: nat)
      requires size <= available && next == a + HEADER + available && next + HEADER <= mem.Length
      modifies mem
      ensures mem[..] == TakeMem(guard, old(mem[..]), a, size, available)
      ensures ptr == a + HEADER
    {
      ptr := a + HEADER;
      if Splits(guard, size, available) {
        ghost var m0 := mem[..];
        var cut := ptr + size;
        SetNext(a, cut);
        InitEntry(cut, next);
        SplitInTwoWrites(m0, mem[..], a, size, available, cut, next);
      }
      SetReserved(a, true);
    }

    /** heapEntry::defragment */
    method Defragment(a: nat, ghost bs: seq<Block>)
      requires bs != [] && !bs[0].reserved
      requires Chain(mem[..], a, bs, heapEnd)
      modifies mem
      decreases |bs|
      ensures Chain(mem[..], a, Coalesce(bs[0].size, bs[1..]), heapEnd)
      ensures Same(old(mem[..]), mem[..], 0, a) && Same(old(mem[..]), mem[..], a + HEADER, mem.Length)
    {
      ghost var m := mem[..];
      MergeOrStop(m, a, bs, heapEnd);
      var next := NextOf(mem[..], a);
      if !ReservedOf(mem[..], next) {
        SetNext(a, NextOf(mem[..], next));
        ghost var m1 := mem[..];
        Defragment(a, Merged(bs));
        SameTrans(m, m1, mem[..], 0, a);
        SameTrans(m, m1, mem[..], a + HEADER, mem.Length);
      }
    }

    /** heapEntry::free */
    method FreeEntry(a: nat, ghost bs: seq<Block>)
      requires bs != []
      requires Chain(mem[..], a, bs, heapEnd)
      modifies mem
      ensures Chain(mem[..], a, Coalesce(bs[0].size, bs[1..]), heapEnd)
      ensures Same(old(mem[..]), mem[..], 0, a) && Same(old(mem[..]), mem[..], a + HEADER, mem.Length)
    {
      NextIsWhere(mem[..], a, bs, heapEnd);
      ReleasedChain(mem[..], a, bs, heapEnd);
      SetReserved(a, false);
      ghost var released := [Block(bs[0].size, false)] + bs[1..];
      assert released[1..] == bs[1..];
      Defragment(a, released);
    }

    /** kalloc, and every operator new. The code returns only ptr: torn tells the reader of the
        model that the new entry overlaps the next one. */
    method Kalloc(size: nat) returns (ptr: nat, torn: bool)
      requires Valid()
      modifies this`blocks, mem
      ensures match Alloc(guard, heap, old(blocks), size)
        case NoFit => ptr == 0 && mem[..] == old(mem[..]) && blocks == old(blocks) && Valid()
        case Got(p, after) => ptr == p && blocks == after && Valid()
        case Torn(p) => ptr == p && blocks == Claim(old(blocks), size) && !IsHeap(mem[..], heap, heapEnd)
      ensures torn == Alloc(guard, heap, old(blocks), size).Torn?
      ensures Laid() && Same(old(mem[..]), mem[..], 0, heap)
      ensures Same(old(mem[..]), mem[..], if torn then heapEnd + HEADER else heapEnd, mem.Length)
      ensures forall q: nat :: Live(heap, old(blocks), q) ==>
        Same(old(mem[..]), mem[..], q, q + Lookup(heap, old(blocks), q).value.size)
    {
      ValidIsLaid();
      ptr, torn := Allocate(heap, size, blocks);
      ghost var m, was := old(mem[..]), blocks;
      ghost var r := Alloc(guard, heap, was, size);
      AllocMemFrame(guard, m, heap, was, size);
      forall q: nat | Live(heap, was, q)
        ensures Same(m, mem[..], q, q + Lookup(heap, was, q).value.size)
      {
        AllocMemKeepsLiveData(guard, m, heap, was, size, q);
      }
      if r.Torn? {
        TornLosesHeap(guard, m, heap, was, heapEnd, size);
        ClaimConserves(was, size);
        blocks := Claim(was, size);
      } else if r.Got? {
        AllocMemChain(guard, m, heap, was, heapEnd, size);
        AllocConserves(guard, heap, was, size);
        blocks := r.blocks;
      }
    }

    /** kfree, and every operator delete. True stands for the panic. */
    method Kfree(ptr: nat) returns (panicked: bool)
      requires Valid()
      modifies this`blocks, mem
      ensures Valid()
      ensures match Free(heap, old(blocks), ptr)
        case None => panicked && mem[..] == old(mem[..]) && blocks == old(blocks)
        case Some(after) => !panicked && blocks == after
      ensures !panicked ==>
        && ptr >= HEADER
        && Same(old(mem[..]), mem[..], 0, ptr - HEADER)
        && Same(old(mem[..]), mem[..], ptr, mem.Length)
      ensures forall q: nat :: Live(heap, old(blocks), q) ==>
        Same(old(mem[..]), mem[..], q, q + Lookup(heap, old(blocks), q).value.size)
    {
      var it: nat := heap;
      ghost var i := 0;
      ghost var m := mem[..];
      WalkStart(m, heap, blocks, heapEnd);
      while NextOf(mem[..], it) != 0
        invariant WalkAt(m, heap, blocks, heapEnd, i, it)
        invariant mem[..] == m && blocks == old(blocks)
        invariant forall j :: 0 <= j < i ==> ptr != Addr(heap, blocks, j) + HEADER
        decreases |blocks| - i
      {
        WalkStep(m, heap, blocks, heapEnd, i, it);
        if it + HEADER == ptr {
          FreeEntry(it, blocks[i..]);
          WalkFree(m, mem[..], heap, blocks, heapEnd, i, it);
          HeaderWriteKeepsData(m, mem[..], heap, blocks, ptr);
          blocks := FreeAt(blocks, i);
          return false;
        }
        it := NextOf(mem[..], it);
        i := i + 1;
      }
      WalkEnd(m, heap, blocks, heapEnd, i, it);
      FreePanicsIffNoSuchBlock(heap, blocks, ptr);
      return true;
    }
  }

  /** The moving pointer of kfree is at entry number i. */
  ghost predicate WalkAt(m: seq<byte>, a: nat, bs: seq<Block>, end: nat, i: nat, it: nat) {
    && i <= |bs| && it == Addr(a, bs, i) && it + HEADER <= |m|
    && Links(m, a, bs[..i], it) && Chain(m, it, bs[i..], end)
  }

  lemma WalkStart(m: seq<byte>, a: nat, bs: seq<Block>, end: nat)
    requires Chain(m, a, bs, end)
    ensures WalkAt(m, a, bs, end, 0, a)
  {
    assert bs[..0] == [] && bs[0..] == bs;
    NextIsWhere(m, a, bs, end);
  }

  lemma WalkStep(m: seq<byte>, a: nat, bs: seq<Block>, end: nat, i: nat, it: nat)
    requires WalkAt(m, a, bs, end, i, it) && NextOf(m, it) != 0
    ensures i < |bs| && WalkAt(m, a, bs, end, i + 1, NextOf(m, it))
  {
    var rest := bs[i..];
    NextIsWhere(m, it, rest, end);
    AddrStep(a, bs, i);
    LinkOne(m, it, rest, end);
    var next := it + HEADER + rest[0].size;
    LinksConcat(m, a, bs[..i], it, [rest[0]], next);
    assert bs[..i] + [rest[0]] == bs[..i + 1];
    assert rest[1..] == bs[i + 1..];
    NextIsWhere(m, next, rest[1..], end);
  }

  lemma WalkEnd(m: seq<byte>, a: nat, bs: seq<Block>, end: nat, i: nat, it: nat)
    requires WalkAt(m, a, bs, end, i, it) && NextOf(m, it) == 0
    ensures i == |bs|
  {
    NextIsWhere(m, it, bs[i..], end);
  }

  lemma WalkFree(m: seq<byte>, m': seq<byte>, a: nat, bs: seq<Block>, end: nat, i: nat, it: nat)
    requires WalkAt(m, a, bs, end, i, it) && i < |bs| && Same(m, m', 0, it)
    requires Chain(m', it, Coalesce(bs[i..][0].size, bs[i..][1..]), end)
    ensures Chain(m', a, FreeAt(bs, i), end)
    ensures Free(a, bs, it + HEADER) == Some(FreeAt(bs, i)) && Lookup(a, bs, it + HEADER).Some?
  {
    FreeFindsItsBlock(a, bs, it + HEADER, i);
    assert bs[i..][1..] == bs[i + 1..];
    FreeAtIsCoalesce(bs, i);
    LinksFrame(m, m', a, bs[..i], it);
    LinksConcat(m', a, bs[..i], it, Coalesce(bs[i].size, bs[i + 1..]), end);
  }

  /** The header of one block is no part of any block's data. */
  lemma HeaderWriteKeepsData(m: seq<byte>, m': seq<byte>, a: nat, bs: seq<Block>, p: nat)
    requires Lookup(a, bs, p).Some? && p >= HEADER
    requires Same(m, m', 0, p - HEADER) && Same(m, m', p, |m|)
    ensures forall q: nat :: Live(a, bs, q) ==> Same(m, m', q, q + Lookup(a, bs, q).value.size)
  {
    forall q: nat | Live(a, bs, q) ensures Same(m, m', q, q + Lookup(a, bs, q).value.size) {
      if q < p { LookupApart(a, bs, q, p); }
    }
  }

  lemma LinkOne(m: seq<byte>, a: nat, bs: seq<Block>, end: nat)
    requires bs != [] && Chain(m, a, bs, end)
    ensures Links(m, a, [bs[0]], a + HEADER + bs[0].size)
  {
    assert [bs[0]][1..] == [];
  }

  lemma FreeAtIsCoalesce(bs: seq<Block>, i: nat)
    requires i < |bs|
    ensures FreeAt(bs, i) == bs[..i] + Coalesce(bs[i].size, bs[i + 1..])
  {
    var rest := bs[i + 1..];
    CoalesceSwallowsFreePrefix(bs[i].size, rest);
    SliceOfRest(bs, i + 1, FreePrefix(rest));
  }

  lemma SliceOfRest(bs: seq<Block>, from: nat, k: nat)
    requires from + k <= |bs|
    ensures bs[from..][..k] == bs[from..from + k] && bs[from..][k..] == bs[from + k..]
  {
  }
}
