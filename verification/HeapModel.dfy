/** The heap as a list of blocks: what allocation and freeing mean, away from the bytes. */
module HeapModel {
  import opened Bytes

  const HEADER := 8  // sizeof(heapEntry): a 32-bit pointer, a flag byte and padding

  /** One entry and the data behind it. The last entry, which carries no data, is not listed. */
  datatype Block = Block(size: nat, reserved: bool)

  /** The split test as the code has it (unsigned, operands swapped) and as its comment means it. */
  datatype Guard = AsWritten | Intended

  predicate Splits(g: Guard, size: nat, available: nat)
    requires size <= available
  {
    match g
    case AsWritten => (size - available) % WORD > HEADER + 4
    case Intended => available - size > HEADER + 4
  }

  /** A split leaves room for the header of the new block. */
  predicate SplitFits(g: Guard, size: nat, available: nat)
    requires size <= available
  {
    Splits(g, size, available) ==> available - size >= HEADER
  }

  /** In 32 bits the test as written is only "not equal", but for leftovers no heap can have. */
  lemma AsWrittenSplitsAnyLeftover(size: nat, available: nat)
    requires size <= available < 0x1_0000_0000
    ensures Splits(AsWritten, size, available) <==> 0 < available - size < 0x1_0000_0000 - 12
    ensures SplitFits(AsWritten, size, available) <==> available == size || available - size >= 8
  {
    var d := available - size;
    if d > 0 {
      assert (size - available) % WORD == (WORD - d) % WORD == WORD - d;
    }
  }

  /** The test its comment describes: from a leftover of 13 bytes on. */
  lemma IntendedSplitsFrom(size: nat, available: nat)
    requires size <= available
    ensures Splits(Intended, size, available) <==> available >= size + 13
    ensures SplitFits(Intended, size, available)
  {
  }

  /** Bytes taken by the listed blocks, headers included. */
  function Total(bs: seq<Block>): nat {
    if bs == [] then 0 else HEADER + bs[0].size + Total(bs[1..])
  }

  lemma {:induction false} TotalConcat(bs: seq<Block>, cs: seq<Block>)
    ensures Total(bs + cs) == Total(bs) + Total(cs)
  {
    if bs == [] {
      assert bs + cs == cs;
    } else {
      assert (bs + cs)[1..] == bs[1..] + cs;
      TotalConcat(bs[1..], cs);
    }
  }

  /** Address of the header of block i, for a heap whose first header is at a. */
  function Addr(a: nat, bs: seq<Block>, i: nat): nat
    requires i <= |bs|
  {
    a + Total(bs[..i])
  }

  lemma AddrStep(a: nat, bs: seq<Block>, i: nat)
    requires i < |bs|
    ensures Addr(a, bs, i + 1) == Addr(a, bs, i) + HEADER + bs[i].size
    ensures i > 0 ==> Addr(a, bs, i) == Addr(a + HEADER + bs[0].size, bs[1..], i - 1)
  {
    assert bs[..i + 1] == bs[..i] + [bs[i]];
    assert Total([bs[i]]) == HEADER + bs[i].size;
    TotalConcat(bs[..i], [bs[i]]);
    if i > 0 {
      assert bs[..i][1..] == bs[1..][..i - 1];
    }
  }

  predicate FitsIn(b: Block, size: nat) {
    !b.reserved && size <= b.size
  }

  /** What the chosen block turns into. */
  function Take(g: Guard, available: nat, size: nat): seq<Block>
    requires size <= available && SplitFits(g, size, available)
  {
    if Splits(g, size, available)
    then [Block(size, true), Block(available - size - HEADER, false)]
    else [Block(available, true)]
  }

  /** Torn: the split left less than a header, so the new entry overlaps the one that follows. */
  datatype Outcome = NoFit | Got(ptr: nat, blocks: seq<Block>) | Torn(ptr: nat)

  function Alloc(g: Guard, a: nat, bs: seq<Block>, size: nat): Outcome
    decreases bs
  {
    if bs == [] then NoFit
    else if !FitsIn(bs[0], size) then
      match Alloc(g, a + HEADER + bs[0].size, bs[1..], size)
      case Got(p, rest) => Got(p, [bs[0]] + rest)
      case other => other
    else if SplitFits(g, size, bs[0].size) then
      Got(a + HEADER, Take(g, bs[0].size, size) + bs[1..])
    else Torn(a + HEADER)
  }

  /** A freed block of this size in front of rest, after merging forward. */
  function Coalesce(size: nat, rest: seq<Block>): seq<Block>
    decreases rest
  {
    if rest == [] || rest[0].reserved then [Block(size, false)] + rest
    else Coalesce(size + HEADER + rest[0].size, rest[1..])
  }

  /** None is the panic for an address that no entry has. */
  function Free(a: nat, bs: seq<Block>, ptr: nat): Option<seq<Block>>
    decreases bs
  {
    if bs == [] then None
    else if a + HEADER == ptr then Some(Coalesce(bs[0].size, bs[1..]))
    else
      match Free(a + HEADER + bs[0].size, bs[1..], ptr)
      case None => None
      case Some(rest) => Some([bs[0]] + rest)
  }

  /** The block whose data starts at ptr. */
  function Lookup(a: nat, bs: seq<Block>, ptr: nat): Option<Block>
    decreases bs
  {
    if bs == [] then None
    else if a + HEADER == ptr then Some(bs[0])
    else Lookup(a + HEADER + bs[0].size, bs[1..], ptr)
  }

  /** The blocks after the one at index i is allocated. */
  function TakeAt(g: Guard, bs: seq<Block>, i: nat, size: nat): seq<Block>
    requires i < |bs| && size <= bs[i].size && SplitFits(g, size, bs[i].size)
  {
    bs[..i] + Take(g, bs[i].size, size) + bs[i + 1..]
  }

  /** First fit: the outcome is decided by the lowest-addressed free block that is large enough. */
  ghost predicate FirstFit(bs: seq<Block>, size: nat, i: nat) {
    i < |bs| && FitsIn(bs[i], size) && forall j :: 0 <= j < i ==> !FitsIn(bs[j], size)
  }

  lemma {:induction false} AllocNullIffNothingFits(g: Guard, a: nat, bs: seq<Block>, size: nat)
    ensures Alloc(g, a, bs, size).NoFit? <==> forall i :: 0 <= i < |bs| ==> !FitsIn(bs[i], size)
    decreases bs
  {
    if bs != [] && !FitsIn(bs[0], size) {
      AllocNullIffNothingFits(g, a + HEADER + bs[0].size, bs[1..], size);
      assert forall i :: 1 <= i < |bs| ==> bs[i] == bs[1..][i - 1];
      assert forall i :: 0 <= i < |bs[1..]| ==> bs[1..][i] == bs[i + 1];
    }
  }

  lemma TakeAtTail(g: Guard, bs: seq<Block>, i: nat, size: nat)
    requires 0 < i < |bs| && size <= bs[i].size && SplitFits(g, size, bs[i].size)
    ensures [bs[0]] + TakeAt(g, bs[1..], i - 1, size) == TakeAt(g, bs, i, size)
  {
    assert [bs[0]] + bs[1..][..i - 1] == bs[..i];
    assert bs[1..][i..] == bs[i + 1..];
  }

  lemma {:induction false} AllocIsFirstFit(g: Guard, a: nat, bs: seq<Block>, size: nat, i: nat)
    requires FirstFit(bs, size, i)
    ensures Alloc(g, a, bs, size) ==
      if SplitFits(g, size, bs[i].size)
      then Got(Addr(a, bs, i) + HEADER, TakeAt(g, bs, i, size))
      else Torn(Addr(a, bs, i) + HEADER)
    decreases bs
  {
    if i == 0 {
      assert bs[..0] == [];
      assert SplitFits(g, size, bs[0].size) ==> TakeAt(g, bs, 0, size) == Take(g, bs[0].size, size) + bs[1..];
    } else {
      AllocIsFirstFit(g, a + HEADER + bs[0].size, bs[1..], size, i - 1);
      AddrStep(a, bs, i);
      if SplitFits(g, size, bs[i].size) { TakeAtTail(g, bs, i, size); }
    }
  }

  /** Number of leading free blocks. */
  function FreePrefix(bs: seq<Block>): (k: nat)
    ensures k <= |bs| && forall i :: 0 <= i < k ==> !bs[i].reserved
    ensures k < |bs| ==> bs[k].reserved
  {
    if bs == [] || bs[0].reserved then 0 else 1 + FreePrefix(bs[1..])
  }

  /** Merging swallows exactly the free blocks up to the next reserved one, headers included. */
  lemma {:induction false} CoalesceSwallowsFreePrefix(size: nat, rest: seq<Block>)
    ensures var k := FreePrefix(rest);
      Coalesce(size, rest) == [Block(size + Total(rest[..k]), false)] + rest[k..]
    decreases rest
  {
    var k := FreePrefix(rest);
    if rest == [] || rest[0].reserved {
      assert rest[..0] == [] && rest[0..] == rest;
    } else {
      CoalesceSwallowsFreePrefix(size + HEADER + rest[0].size, rest[1..]);
      assert rest[..k][1..] == rest[1..][..k - 1];
      assert rest[1..][k - 1..] == rest[k..];
    }
  }

  /** The blocks after block i is freed: it grows over the free run that follows it. */
  function FreeAt(bs: seq<Block>, i: nat): seq<Block>
    requires i < |bs|
  {
    var k := FreePrefix(bs[i + 1..]);
    bs[..i] + [Block(bs[i].size + Total(bs[i + 1..i + 1 + k]), false)] + bs[i + 1 + k..]
  }

  lemma FreeAtHead(bs: seq<Block>)
    requires bs != []
    ensures Coalesce(bs[0].size, bs[1..]) == FreeAt(bs, 0)
  {
    CoalesceSwallowsFreePrefix(bs[0].size, bs[1..]);
    var k := FreePrefix(bs[1..]);
    assert bs[1..][..k] == bs[1..1 + k];
    assert bs[1..][k..] == bs[1 + k..];
    assert bs[..0] == [];
  }

  lemma FreeAtTail(bs: seq<Block>, i: nat)
    requires 0 < i < |bs|
    ensures [bs[0]] + FreeAt(bs[1..], i - 1) == FreeAt(bs, i)
  {
    SliceOfTail(bs, i, i);
    var k := FreePrefix(bs[i + 1..]);
    SliceOfTail(bs, i, i + k);
    assert [bs[0]] + bs[1..][..i - 1] == bs[..i];
  }

  lemma SliceOfTail(bs: seq<Block>, lo: nat, hi: nat)
    requires lo <= hi < |bs|
    ensures bs[1..][lo..hi] == bs[lo + 1..hi + 1] && bs[1..][hi..] == bs[hi + 1..]
  {
  }

  lemma {:induction false} FreeFindsItsBlock(a: nat, bs: seq<Block>, ptr: nat, i: nat)
    requires i < |bs| && ptr == Addr(a, bs, i) + HEADER
    ensures Free(a, bs, ptr) == Some(FreeAt(bs, i))
    ensures Lookup(a, bs, ptr) == Some(bs[i])
    decreases bs
  {
    if i == 0 {
      assert bs[..0] == [];
      FreeAtHead(bs);
    } else {
      AddrStep(a, bs, i);
      FreeFindsItsBlock(a + HEADER + bs[0].size, bs[1..], ptr, i - 1);
      FreeAtTail(bs, i);
    }
  }

  lemma {:induction false} FreePanicsIffNoSuchBlock(a: nat, bs: seq<Block>, ptr: nat)
    ensures Free(a, bs, ptr).None? <==> forall i :: 0 <= i < |bs| ==> ptr != Addr(a, bs, i) + HEADER
    ensures Free(a, bs, ptr).None? <==> Lookup(a, bs, ptr).None?
    decreases bs
  {
    if bs != [] {
      var b := a + HEADER + bs[0].size;
      assert bs[..0] == [] && Addr(a, bs, 0) == a;
      if a + HEADER != ptr {
        FreePanicsIffNoSuchBlock(b, bs[1..], ptr);
        forall i | 1 <= i < |bs| ensures Addr(a, bs, i) == Addr(b, bs[1..], i - 1) {
          AddrStep(a, bs, i);
        }
        if i :| 0 <= i < |bs[1..]| && ptr == Addr(b, bs[1..], i) + HEADER {
          assert ptr == Addr(a, bs, i + 1) + HEADER;
        }
      }
    }
  }

  /** Neither operation creates or loses a byte: headers plus data still tile the same region. */
  lemma {:induction false} AllocConserves(g: Guard, a: nat, bs: seq<Block>, size: nat)
    ensures var r := Alloc(g, a, bs, size); r.Got? ==> Total(r.blocks) == Total(bs)
    decreases bs
  {
    if bs != [] {
      if !FitsIn(bs[0], size) {
        AllocConserves(g, a + HEADER + bs[0].size, bs[1..], size);
      } else if SplitFits(g, size, bs[0].size) {
        TotalConcat(Take(g, bs[0].size, size), bs[1..]);
      }
    }
  }

  lemma {:induction false} CoalesceConserves(size: nat, rest: seq<Block>)
    ensures Total(Coalesce(size, rest)) == HEADER + size + Total(rest)
    decreases rest
  {
    if !(rest == [] || rest[0].reserved) {
      CoalesceConserves(size + HEADER + rest[0].size, rest[1..]);
    }
  }

  lemma {:induction false} FreeConserves(a: nat, bs: seq<Block>, ptr: nat)
    ensures var r := Free(a, bs, ptr); r.Some? ==> Total(r.value) == Total(bs)
    decreases bs
  {
    if bs != [] {
      if a + HEADER == ptr {
        CoalesceConserves(bs[0].size, bs[1..]);
      } else {
        FreeConserves(a + HEADER + bs[0].size, bs[1..], ptr);
      }
    }
  }

  /** A block found by its address lies inside the heap. */
  lemma {:induction false} LookupInside(a: nat, bs: seq<Block>, ptr: nat)
    ensures Lookup(a, bs, ptr).Some? ==>
      a + HEADER <= ptr && ptr + Lookup(a, bs, ptr).value.size <= a + Total(bs)
    decreases bs
  {
    if bs != [] && a + HEADER != ptr {
      LookupInside(a + HEADER + bs[0].size, bs[1..], ptr);
    }
  }

  /** Two blocks never overlap: the data of one ends at least a header before the data of the next. */
  lemma {:induction false} LookupApart(a: nat, bs: seq<Block>, p: nat, q: nat)
    requires p < q && Lookup(a, bs, p).Some? && Lookup(a, bs, q).Some?
    ensures p + Lookup(a, bs, p).value.size + HEADER <= q
    decreases bs
  {
    if a + HEADER == p {
      LookupInside(a + HEADER + bs[0].size, bs[1..], q);
    } else {
      LookupInside(a, bs, q);
      LookupInside(a + HEADER + bs[0].size, bs[1..], p);
      LookupApart(a + HEADER + bs[0].size, bs[1..], p, q);
    }
  }

  predicate Live(a: nat, bs: seq<Block>, ptr: nat) {
    Lookup(a, bs, ptr).Some? && Lookup(a, bs, ptr).value.reserved
  }

  /** Finding a block in a heap that begins with one that was just split. */
  lemma SplitLookup(a: nat, size: nat, left: nat, rest: seq<Block>, q: nat)
    ensures var cut := a + HEADER + size; var b := cut + HEADER + left;
      var r := [Block(size, true), Block(left, false)] + rest;
      && Lookup(a, r, q) ==
           (if q == a + HEADER then Some(Block(size, true))
            else if q == cut + HEADER then Some(Block(left, false))
            else Lookup(b, rest, q))
      && (Lookup(b, rest, q).Some? ==> q >= b + HEADER)
  {
    var r := [Block(size, true), Block(left, false)] + rest;
    assert r[1..] == [Block(left, false)] + rest;
    assert r[1..][1..] == rest;
    LookupInside(a + HEADER + size + HEADER + left, rest, q);
  }

  /** Allocation reserves one free block of at least the requested size and touches no live one. */
  lemma {:induction false} AllocLive(g: Guard, a: nat, bs: seq<Block>, size: nat, q: nat)
    requires Alloc(g, a, bs, size).Got?
    ensures var r := Alloc(g, a, bs, size);
      && !Live(a, bs, r.ptr)
      && Live(a, r.blocks, r.ptr) && Lookup(a, r.blocks, r.ptr).value.size >= size
      && (q != r.ptr ==> (Live(a, r.blocks, q) <==> Live(a, bs, q)))
      && (Live(a, bs, q) ==> Lookup(a, r.blocks, q) == Lookup(a, bs, q))
    decreases bs
  {
    var b := a + HEADER + bs[0].size;
    var r := Alloc(g, a, bs, size);
    if !FitsIn(bs[0], size) {
      AllocLive(g, b, bs[1..], size, q);
      LookupInside(b, r.blocks[1..], r.ptr);
    } else if Splits(g, size, bs[0].size) {
      SplitLookup(a, size, bs[0].size - size - HEADER, bs[1..], q);
    } else {
      assert r.blocks[1..] == bs[1..];
    }
  }

  /** Who owns what after a torn split: the whole of the chosen block is the client's, though the
      entries in memory no longer say so. */
  function Claim(bs: seq<Block>, size: nat): seq<Block> {
    if bs == [] then []
    else if FitsIn(bs[0], size) then [Block(bs[0].size, true)] + bs[1..]
    else [bs[0]] + Claim(bs[1..], size)
  }

  lemma {:induction false} ClaimLive(g: Guard, a: nat, bs: seq<Block>, size: nat, q: nat)
    requires Alloc(g, a, bs, size).Torn?
    ensures var p := Alloc(g, a, bs, size).ptr; var after := Claim(bs, size);
      && !Live(a, bs, p) && p >= a + HEADER
      && Live(a, after, p) && Lookup(a, after, p).value.size >= size
      && (Live(a, bs, q) ==> Lookup(a, after, q) == Lookup(a, bs, q))
    decreases bs
  {
    var after := Claim(bs, size);
    if FitsIn(bs[0], size) {
      assert after[1..] == bs[1..];
    } else {
      assert after[1..] == Claim(bs[1..], size);
      ClaimLive(g, a + HEADER + bs[0].size, bs[1..], size, q);
    }
  }

  lemma {:induction false} ClaimConserves(bs: seq<Block>, size: nat)
    ensures Total(Claim(bs, size)) == Total(bs)
  {
    if bs != [] {
      var after := Claim(bs, size);
      if FitsIn(bs[0], size) {
        assert after[1..] == bs[1..];
      } else {
        assert after[1..] == Claim(bs[1..], size);
        ClaimConserves(bs[1..], size);
      }
    }
  }

  lemma {:induction false} CoalesceLive(a: nat, size: nat, rest: seq<Block>, q: nat)
    ensures var r := Coalesce(size, rest); var b := a + HEADER + size;
      && !Live(a, r, a + HEADER)
      && (Live(a, r, q) <==> q != a + HEADER && Live(b, rest, q))
      && (Live(a, r, q) ==> Lookup(a, r, q) == Lookup(b, rest, q))
    decreases rest
  {
    var b := a + HEADER + size;
    LookupInside(b, rest, a + HEADER);
    if rest == [] || rest[0].reserved {
      assert Coalesce(size, rest)[1..] == rest;
    } else {
      CoalesceLive(a, size + HEADER + rest[0].size, rest[1..], q);
      LookupInside(b + HEADER + rest[0].size, rest[1..], b + HEADER);
    }
  }

  /** Freeing releases the named block and leaves every other live block where and what it was. */
  lemma {:induction false} FreeLive(a: nat, bs: seq<Block>, ptr: nat, q: nat)
    requires Free(a, bs, ptr).Some?
    ensures var r := Free(a, bs, ptr).value;
      && (Live(a, r, q) <==> q != ptr && Live(a, bs, q))
      && (Live(a, r, q) ==> Lookup(a, r, q) == Lookup(a, bs, q))
    decreases bs
  {
    var b := a + HEADER + bs[0].size;
    if a + HEADER == ptr {
      CoalesceLive(a, bs[0].size, bs[1..], q);
      LookupInside(b, bs[1..], ptr);
    } else {
      FreeLive(b, bs[1..], ptr, q);
    }
  }
}
