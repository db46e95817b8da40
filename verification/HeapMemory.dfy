/** The heap entries as they lie in memory, and what allocation writes there. */
module HeapMemory {
  import opened Bytes
  import opened HeapModel

  // ---- one entry: _next in four bytes, then the flag byte with the reserved bit ----

  function NextOf(m: seq<byte>, a: nat): (n: nat)
    requires a + HEADER <= |m|
    ensures n < WORD
  {
    Le32(m, a)
  }

  predicate ReservedOf(m: seq<byte>, a: nat)
    requires a + HEADER <= |m|
  {
    m[a + 4] % 2 == 1
  }

  /** getSize: unsigned 32-bit arithmetic. */
  function SizeOf(m: seq<byte>, a: nat): nat
    requires a + HEADER <= |m|
  {
    (NextOf(m, a) - a - HEADER) % WORD
  }

  function WithNext(m: seq<byte>, a: nat, next: nat): seq<byte>
    requires a + HEADER <= |m|
  {
    Blit(m, a, Enc32(next))
  }

  /** Only the bit-field changes; the other seven bits of its byte stay. */
  function WithReserved(m: seq<byte>, a: nat, reserved: bool): seq<byte>
    requires a + HEADER <= |m|
  {
    m[a + 4 := m[a + 4] - m[a + 4] % 2 + if reserved then 1 else 0]
  }

  function WithEntry(m: seq<byte>, a: nat, next: nat): seq<byte>
    requires a + HEADER <= |m|
  {
    WithNext(WithReserved(m, a, next == 0), a, next)
  }

  lemma ReadWithNext(m: seq<byte>, a: nat, next: nat)
    requires a + HEADER <= |m| && next < WORD
    ensures NextOf(WithNext(m, a, next), a) == next
    ensures ReservedOf(WithNext(m, a, next), a) == ReservedOf(m, a)
  {
    Enc32RoundTrip(next);
    ReadBack(m, a, Enc32(next));
  }

  lemma ReadBack(m: seq<byte>, a: nat, e: seq<byte>)
    requires |e| == 4 && a + HEADER <= |m|
    ensures Le32(Blit(m, a, e), a) == Le32(e, 0) && Blit(m, a, e)[a + 4] == m[a + 4]
  {
  }

  lemma ReadWithEntry(m: seq<byte>, a: nat, next: nat)
    requires a + HEADER <= |m| && next < WORD
    ensures NextOf(WithEntry(m, a, next), a) == next
    ensures ReservedOf(WithEntry(m, a, next), a) == (next == 0)
  {
    ReadWithNext(WithReserved(m, a, next == 0), a, next);
  }

  // ---- the chain ----

  /** Entries for the blocks bs run from a up to an entry at b. */
  ghost predicate Links(m: seq<byte>, a: nat, bs: seq<Block>, b: nat)
    decreases bs
  {
    if bs == [] then a == b
    else
      && 0 < a && a + HEADER <= |m|
      && NextOf(m, a) == a + HEADER + bs[0].size
      && ReservedOf(m, a) == bs[0].reserved
      && Links(m, a + HEADER + bs[0].size, bs[1..], b)
  }

  /** An entry in bytes: its successor's address, lowest byte first, then a byte whose lowest bit says
      whether it is reserved. */
  lemma EntryBytes(m: seq<byte>, a: nat, size: nat, reserved: bool, rest: seq<Block>, b: nat)
    ensures Links(m, a, [Block(size, reserved)] + rest, b) <==>
      && 0 < a && a + 8 <= |m| && a + 8 + size < 0x1_0000_0000
      && m[a..a + 4] == Enc32(a + 8 + size) && (m[a + 4] % 2 == 1 <==> reserved)
      && Links(m, a + 8 + size, rest, b)
  {
    var bs := [Block(size, reserved)] + rest;
    assert bs[1..] == rest;
    if a + 8 <= |m| {
      var e := m[a..a + 4];
      Enc32Iff(e, a + 8 + size);
      SliceLe32(m, a, e, 0);
    }
  }

  /** A whole heap: the last entry has no successor and is reserved. */
  ghost predicate Chain(m: seq<byte>, a: nat, bs: seq<Block>, end: nat) {
    && |m| <= WORD
    && Links(m, a, bs, end)
    && 0 < end && end + HEADER <= |m| && NextOf(m, end) == 0 && ReservedOf(m, end)
  }

  /** The memory between these two headers is a heap. */
  ghost predicate IsHeap(m: seq<byte>, a: nat, end: nat) {
    exists bs :: Chain(m, a, bs, end)
  }

  lemma {:induction false} LinksTile(m: seq<byte>, a: nat, bs: seq<Block>, b: nat)
    requires Links(m, a, bs, b)
    ensures b == a + Total(bs)
    decreases bs
  {
    if bs != [] {
      LinksTile(m, a + HEADER + bs[0].size, bs[1..], b);
    }
  }

  lemma {:induction false} LinksConcat(m: seq<byte>, a: nat, xs: seq<Block>, b: nat, ys: seq<Block>, c: nat)
    requires Links(m, a, xs, b) && Links(m, b, ys, c)
    ensures Links(m, a, xs + ys, c)
    decreases xs
  {
    if xs == [] {
      assert xs + ys == ys;
    } else {
      LinksConcat(m, a + HEADER + xs[0].size, xs[1..], b, ys, c);
      assert (xs + ys)[1..] == xs[1..] + ys;
    }
  }

  /** Bytes outside [a, b) do not matter to the entries from a to b. */
  lemma {:induction false} LinksFrame(m: seq<byte>, m': seq<byte>, a: nat, bs: seq<Block>, b: nat)
    requires Links(m, a, bs, b) && Same(m, m', a, b)
    ensures Links(m', a, bs, b)
    decreases bs
  {
    if bs != [] {
      var c := a + HEADER + bs[0].size;
      LinksTile(m, c, bs[1..], b);
      assert forall k :: a <= k < a + HEADER ==> m'[k] == m[k];
      LinksFrame(m, m', c, bs[1..], b);
    }
  }

  /** The same, for changes made only to the data of free blocks and outside the heap. */
  ghost predicate HeadersKept(m: seq<byte>, m': seq<byte>, a: nat, bs: seq<Block>)
    decreases bs
  {
    |m'| == |m| && Same(m, m', a, a + HEADER)
    && (bs != [] ==> HeadersKept(m, m', a + HEADER + bs[0].size, bs[1..]))
  }

  lemma {:induction false} ChainFrame(m: seq<byte>, m': seq<byte>, a: nat, bs: seq<Block>, end: nat)
    requires Chain(m, a, bs, end) && HeadersKept(m, m', a, bs)
    ensures Chain(m', a, bs, end)
    decreases bs
  {
    assert forall k :: a <= k < a + HEADER && k < |m| ==> m'[k] == m[k];
    if bs != [] {
      ChainFrame(m, m', a + HEADER + bs[0].size, bs[1..], end);
    }
  }

  // ---- what kalloc writes ----

  /** The chosen entry at a, available bytes long, is cut down to size and marked reserved. */
  function TakeMem(g: Guard, m: seq<byte>, a: nat, size: nat, available: nat): (r: seq<byte>)
    requires size <= available && a + HEADER + available + HEADER <= |m|
    ensures |r| == |m|
  {
    WithReserved(if Splits(g, size, available) then SplitMem(m, a, size, available) else m, a, true)
  }

  /** The header at a is pointed at a new one, size bytes further on, which points at the old next. */
  function SplitMem(m: seq<byte>, a: nat, size: nat, available: nat): (r: seq<byte>)
    requires size <= available && a + HEADER + available + HEADER <= |m|
    ensures |r| == |m|
  {
    var cut := a + HEADER + size;
    WithEntry(WithNext(m, a, cut), cut, a + HEADER + available)
  }

  function AllocMem(g: Guard, m: seq<byte>, a: nat, bs: seq<Block>, size: nat): (r: seq<byte>)
    requires a + Total(bs) + HEADER <= |m|
    ensures |r| == |m|
    decreases bs
  {
    if bs == [] then m
    else if !FitsIn(bs[0], size) then AllocMem(g, m, a + HEADER + bs[0].size, bs[1..], size)
    else TakeMem(g, m, a, size, bs[0].size)
  }

  lemma ReservedReads(m: seq<byte>, a: nat, reserved: bool, b: nat)
    requires a + HEADER <= |m| && b + HEADER <= |m| && (a == b || a + HEADER <= b)
    ensures var r := WithReserved(m, a, reserved);
      && NextOf(r, b) == NextOf(m, b)
      && ReservedOf(r, b) == if a == b then reserved else ReservedOf(m, b)
  {
  }

  lemma SplitMemReads(m: seq<byte>, a: nat, size: nat, available: nat)
    requires size <= available && a + HEADER + available + HEADER <= |m| <= WORD
    requires a + HEADER + available > 0
    ensures var r := SplitMem(m, a, size, available); var cut := a + HEADER + size;
      NextOf(r, a) == cut && NextOf(r, cut) == a + HEADER + available && !ReservedOf(r, cut)
  {
    var cut, next := a + HEADER + size, a + HEADER + available;
    ReadWithNext(m, a, cut);
    EntryWritten(WithNext(m, a, cut), a, cut, next);
  }

  lemma EntryWritten(m: seq<byte>, a: nat, b: nat, next: nat)
    requires a + HEADER <= b && b + HEADER <= |m| && 0 < next < WORD
    ensures var r := WithEntry(m, b, next);
      NextOf(r, a) == NextOf(m, a) && NextOf(r, b) == next && !ReservedOf(r, b)
  {
    ReadWithEntry(m, b, next);
    EntryAbove(m, a, b, next);
  }

  lemma EntryAbove(m: seq<byte>, a: nat, b: nat, next: nat)
    requires a + HEADER <= b && b + HEADER <= |m|
    ensures NextOf(WithEntry(m, b, next), a) == NextOf(m, a)
  {
    NextFrame(m, WithEntry(m, b, next), a);
  }

  lemma NextFrame(m: seq<byte>, m': seq<byte>, a: nat)
    requires a + HEADER <= |m| && Same(m, m', a, a + 4)
    ensures NextOf(m', a) == NextOf(m, a)
  {
  }

  lemma TakeMemReads(g: Guard, m: seq<byte>, a: nat, size: nat, available: nat)
    requires size <= available && a + HEADER + available + HEADER <= |m| <= WORD
    ensures var r := TakeMem(g, m, a, size, available); var cut := a + HEADER + size;
      && ReservedOf(r, a)
      && if Splits(g, size, available)
         then NextOf(r, a) == cut && NextOf(r, cut) == a + HEADER + available && !ReservedOf(r, cut)
         else NextOf(r, a) == NextOf(m, a)
  {
    if Splits(g, size, available) {
      var m1 := SplitMem(m, a, size, available);
      SplitMemReads(m, a, size, available);
      ReservedReads(m1, a, true, a);
      ReservedReads(m1, a, true, a + HEADER + size);
    } else {
      ReservedReads(m, a, true, a);
    }
  }

  lemma TakeMemLinks(g: Guard, m: seq<byte>, a: nat, size: nat, available: nat)
    requires 0 < a && size <= available && a + HEADER + available + HEADER <= |m| <= WORD
    requires NextOf(m, a) == a + HEADER + available && SplitFits(g, size, available)
    ensures Links(TakeMem(g, m, a, size, available), a, Take(g, available, size), a + HEADER + available)
  {
    TakeMemReads(g, m, a, size, available);
    var bs := Take(g, available, size);
    if Splits(g, size, available) {
      assert bs[1..][1..] == [];
      assert a + HEADER + size + HEADER + bs[1].size == a + HEADER + available;
    } else {
      assert bs[1..] == [];
    }
  }

  /** Only the chosen block is written to: its header, and its data when it is split. */
  lemma TakeMemFrame(g: Guard, m: seq<byte>, a: nat, size: nat, available: nat)
    requires size <= available && a + HEADER + available + HEADER <= |m|
    ensures var r := TakeMem(g, m, a, size, available);
      && Same(m, r, 0, a)
      && (SplitFits(g, size, available) ==> Same(m, r, a + HEADER + available, |m|))
      && Same(m, r, a + HEADER + available + HEADER, |m|)
      && (Splits(g, size, available) || forall k :: 0 <= k < |m| && k != a + 4 ==> r[k] == m[k])
  {
  }

  /** A chain whose first entry is untouched, in front of a new rest. */
  lemma ChainExtend(m: seq<byte>, m': seq<byte>, a: nat, bs: seq<Block>, end: nat, rest: seq<Block>)
    requires bs != [] && Chain(m, a, bs, end) && Same(m, m', a, a + HEADER)
    requires Chain(m', a + HEADER + bs[0].size, rest, end)
    ensures Chain(m', a, [bs[0]] + rest, end)
  {
    NextFrame(m, m', a);
    assert m'[a + 4] == m[a + 4];
    assert ([bs[0]] + rest)[1..] == rest;
  }

  lemma {:induction false} AllocMemBeyond(g: Guard, m: seq<byte>, a: nat, bs: seq<Block>, size: nat)
    requires a + Total(bs) + HEADER <= |m|
    ensures Same(m, AllocMem(g, m, a, bs, size), 0, a)
    decreases bs
  {
    if bs != [] {
      if !FitsIn(bs[0], size) {
        AllocMemBeyond(g, m, a + HEADER + bs[0].size, bs[1..], size);
      } else {
        TakeMemFrame(g, m, a, size, bs[0].size);
      }
    }
  }

  lemma {:induction false} AllocMemFrame(g: Guard, m: seq<byte>, a: nat, bs: seq<Block>, size: nat)
    requires a + Total(bs) + HEADER <= |m|
    ensures var m' := AllocMem(g, m, a, bs, size);
      && Same(m, m', 0, a) && Same(m, m', a + Total(bs) + HEADER, |m|)
      && (!Alloc(g, a, bs, size).Torn? ==> Same(m, m', a + Total(bs), |m|))
      && (Alloc(g, a, bs, size).NoFit? ==> m' == m)
    decreases bs
  {
    if bs != [] {
      if !FitsIn(bs[0], size) {
        AllocMemFrame(g, m, a + HEADER + bs[0].size, bs[1..], size);
      } else {
        TakeMemFrame(g, m, a, size, bs[0].size);
      }
    }
  }

  lemma TakeMemChain(g: Guard, m: seq<byte>, a: nat, bs: seq<Block>, end: nat, size: nat)
    requires Chain(m, a, bs, end) && bs != [] && size <= bs[0].size && SplitFits(g, size, bs[0].size)
    requires a + Total(bs) + HEADER <= |m|
    ensures Chain(TakeMem(g, m, a, size, bs[0].size), a, Take(g, bs[0].size, size) + bs[1..], end)
  {
    ChainTail(m, a, bs, end);
    TakenChain(g, m, a, size, bs[0].size, a + HEADER + bs[0].size, bs[1..], end);
  }

  lemma TakenChain(g: Guard, m: seq<byte>, a: nat, size: nat, available: nat, next: nat, rest: seq<Block>, end: nat)
    requires 0 < a && size <= available && next == a + HEADER + available && next + HEADER <= |m| <= WORD
    requires NextOf(m, a) == next && SplitFits(g, size, available) && Chain(m, next, rest, end)
    ensures Chain(TakeMem(g, m, a, size, available), a, Take(g, available, size) + rest, end)
  {
    TakeMemLinks(g, m, a, size, available);
    TakeMemTail(g, m, a, size, available);
    ChainBehind(m, TakeMem(g, m, a, size, available), a, Take(g, available, size), next, rest, end);
  }

  lemma ChainTail(m: seq<byte>, a: nat, bs: seq<Block>, end: nat)
    requires Chain(m, a, bs, end) && bs != []
    ensures 0 < a && |m| <= WORD && a + HEADER <= |m| && NextOf(m, a) == a + HEADER + bs[0].size
    ensures Chain(m, a + HEADER + bs[0].size, bs[1..], end)
  {
  }

  lemma TakeMemTail(g: Guard, m: seq<byte>, a: nat, size: nat, available: nat)
    requires size <= available && a + HEADER + available + HEADER <= |m| && SplitFits(g, size, available)
    ensures Same(m, TakeMem(g, m, a, size, available), a + HEADER + available, |m|)
  {
    TakeMemFrame(g, m, a, size, available);
  }

  /** New entries up to next, in front of a chain that was not written to. */
  lemma ChainBehind(m: seq<byte>, m': seq<byte>, a: nat, xs: seq<Block>, next: nat, rest: seq<Block>, end: nat)
    requires Chain(m, next, rest, end) && Same(m, m', next, |m|) && Links(m', a, xs, next)
    ensures Chain(m', a, xs + rest, end)
  {
    LinksTile(m, next, rest, end);
    LinksFrame(m, m', next, rest, end);
    LinksConcat(m', a, xs, next, rest, end);
    LastFrame(m, m', end);
  }

  lemma LastFrame(m: seq<byte>, m': seq<byte>, end: nat)
    requires end + HEADER <= |m| && Same(m, m', end, |m|)
    ensures NextOf(m', end) == NextOf(m, end) && ReservedOf(m', end) == ReservedOf(m, end)
  {
    NextFrame(m, m', end);
    assert m'[end + 4] == m[end + 4];
  }

  /** Allocation turns a chain for bs into the chain for the blocks the model says. */
  lemma {:induction false} AllocMemChain(g: Guard, m: seq<byte>, a: nat, bs: seq<Block>, end: nat, size: nat)
    requires Chain(m, a, bs, end) && a + Total(bs) + HEADER <= |m|
    requires Alloc(g, a, bs, size).Got?
    ensures Chain(AllocMem(g, m, a, bs, size), a, Alloc(g, a, bs, size).blocks, end)
    decreases bs
  {
    if !FitsIn(bs[0], size) {
      var next := a + HEADER + bs[0].size;
      AllocMemChain(g, m, next, bs[1..], end, size);
      var m' := AllocMem(g, m, a, bs, size);
      assert Same(m, m', a, next) by { AllocMemBeyond(g, m, next, bs[1..], size); }
      ChainExtend(m, m', a, bs, end, Alloc(g, next, bs[1..], size).blocks);
    } else {
      TakeMemChain(g, m, a, bs, end, size);
    }
  }

  /** Allocation writes to no byte of a block that was live. */
  lemma {:induction false} AllocMemKeepsLiveData(g: Guard, m: seq<byte>, a: nat, bs: seq<Block>, size: nat, q: nat)
    requires a + Total(bs) + HEADER <= |m| && Live(a, bs, q)
    ensures Same(m, AllocMem(g, m, a, bs, size), q, q + Lookup(a, bs, q).value.size)
    decreases bs
  {
    var next := a + HEADER + bs[0].size;
    if !FitsIn(bs[0], size) {
      if a + HEADER == q {
        AllocMemBeyond(g, m, next, bs[1..], size);
      } else {
        AllocMemKeepsLiveData(g, m, next, bs[1..], size, q);
      }
    } else {
      TakeMemFrame(g, m, a, size, bs[0].size);
      LookupInside(next, bs[1..], q);
    }
  }

  /** A split that leaves less than a header behind: no list of blocks describes the result. */
  lemma {:induction false} TornIsNoHeap(g: Guard, m: seq<byte>, a: nat, bs: seq<Block>, end: nat,
                                        size: nat, bs': seq<Block>)
    requires Chain(m, a, bs, end) && a + Total(bs) + HEADER <= |m|
    requires Alloc(g, a, bs, size).Torn?
    ensures !Chain(AllocMem(g, m, a, bs, size), a, bs', end)
    decreases bs
  {
    var next := a + HEADER + bs[0].size;
    var m' := AllocMem(g, m, a, bs, size);
    if Chain(m', a, bs', end) {
      if !FitsIn(bs[0], size) {
        assert NextOf(m', a) == next by {
          AllocMemBeyond(g, m, next, bs[1..], size);
          NextFrame(m, m', a);
        }
        ChainStep(m', a, bs', end);
        TornIsNoHeap(g, m, next, bs[1..], end, size, bs'[1..]);
      } else {
        TornHeadIsNoHeap(g, m, a, size, bs[0].size, end, bs');
      }
    }
  }

  lemma TornHeadIsNoHeap(g: Guard, m: seq<byte>, a: nat, size: nat, available: nat, end: nat, bs: seq<Block>)
    requires 0 < a && size <= available && a + HEADER + available + HEADER <= |m| <= WORD
    requires !SplitFits(g, size, available)
    ensures !Chain(TakeMem(g, m, a, size, available), a, bs, end)
  {
    var m' := TakeMem(g, m, a, size, available);
    TornEntries(g, m, a, size, available);
    if Chain(m', a, bs, end) {
      ChainStep(m', a, bs, end);
      ChainStep(m', a + HEADER + size, bs[1..], end);
    }
  }

  lemma ChainStep(m: seq<byte>, a: nat, bs: seq<Block>, end: nat)
    requires Chain(m, a, bs, end) && a + HEADER <= |m| && NextOf(m, a) != 0
    ensures bs != [] && NextOf(m, a) == a + HEADER + bs[0].size
    ensures Chain(m, NextOf(m, a), bs[1..], end)
  {
  }

  /** The half-overlapping entry: it points less than a header ahead and claims almost 4 GiB. */
  lemma TornEntries(g: Guard, m: seq<byte>, a: nat, size: nat, available: nat)
    requires 0 < a && size <= available && a + HEADER + available + HEADER <= |m| <= WORD
    requires !SplitFits(g, size, available)
    ensures var r := TakeMem(g, m, a, size, available); var cut := a + HEADER + size;
      && NextOf(r, a) == cut
      && NextOf(r, cut) == a + HEADER + available < cut + HEADER
      && SizeOf(r, cut) == WORD - HEADER + available - size
  {
    TakeMemReads(g, m, a, size, available);
    ClaimOfTorn(available - size);
  }

  lemma ClaimOfTorn(d: nat)
    requires d < HEADER
    ensures (d - HEADER) % WORD == WORD - HEADER + d
  {
  }

  lemma GotKeepsHeap(g: Guard, m: seq<byte>, a: nat, bs: seq<Block>, end: nat, size: nat)
    requires Chain(m, a, bs, end) && a + Total(bs) + HEADER <= |m| && Alloc(g, a, bs, size).Got?
    ensures IsHeap(AllocMem(g, m, a, bs, size), a, end)
  {
    AllocMemChain(g, m, a, bs, end, size);
    assert Chain(AllocMem(g, m, a, bs, size), a, Alloc(g, a, bs, size).blocks, end);
  }

  lemma TornLosesHeap(g: Guard, m: seq<byte>, a: nat, bs: seq<Block>, end: nat, size: nat)
    requires Chain(m, a, bs, end) && a + Total(bs) + HEADER <= |m| && Alloc(g, a, bs, size).Torn?
    ensures !IsHeap(AllocMem(g, m, a, bs, size), a, end)
  {
    var m' := AllocMem(g, m, a, bs, size);
    forall bs' ensures !Chain(m', a, bs', end) {
      TornIsNoHeap(g, m, a, bs, end, size, bs');
    }
  }

  /** What the first block that fits decides, in a heap inside a 32-bit address space. */
  lemma LeftoverDecides(m: seq<byte>, a: nat, bs: seq<Block>, end: nat, size: nat, i: nat)
    requires Chain(m, a, bs, end) && FirstFit(bs, size, i)
    ensures var left := bs[i].size - size; var r := Alloc(AsWritten, a, bs, size);
      if left == 0 || left >= HEADER then r.Got? else r.Torn?
  {
    LinksTile(m, a, bs, end);
    BlockFitsTotal(bs, i);
    AsWrittenSplitsAnyLeftover(size, bs[i].size);
    AllocIsFirstFit(AsWritten, a, bs, size, i);
  }

  /** One allocation keeps a heap a heap exactly when the leftover is nothing or at least a header. */
  lemma AllocKeepsHeapIff(m: seq<byte>, a: nat, bs: seq<Block>, end: nat, size: nat, i: nat)
    requires Chain(m, a, bs, end) && a + Total(bs) + HEADER <= |m|
    requires FirstFit(bs, size, i)
    ensures IsHeap(AllocMem(AsWritten, m, a, bs, size), a, end)
      <==> bs[i].size - size == 0 || bs[i].size - size >= HEADER
  {
    LeftoverDecides(m, a, bs, end, size, i);
    if Alloc(AsWritten, a, bs, size).Got? {
      GotKeepsHeap(AsWritten, m, a, bs, end, size);
    } else {
      TornLosesHeap(AsWritten, m, a, bs, end, size);
    }
  }

  lemma {:induction false} BlockFitsTotal(bs: seq<Block>, i: nat)
    requires i < |bs|
    ensures bs[i].size + HEADER <= Total(bs)
  {
    if i > 0 {
      BlockFitsTotal(bs[1..], i - 1);
    }
  }
}
