/** A client that only allocates and stops at the first null, as the boot path does. */
module HeapSupply {
  import opened Bytes
  import opened HeapModel
  import opened HeapOrder

  /** Short: some request got a null. Tore: some split wrote over the next entry. */
  datatype Supplies = Supplied(blocks: seq<Block>) | Short | Tore

  /** What a list of requests comes to, one after the other. */
  function Supply(g: Guard, a: nat, bs: seq<Block>, reqs: seq<nat>): (r: Supplies)
    ensures r.Tore? ==> g == AsWritten
    decreases reqs
  {
    if reqs == [] then Supplied(bs)
    else
      match Alloc(g, a, bs, reqs[0])
      case NoFit => Short
      case Got(_, after) => Supply(g, a, after, reqs[1..])
      case Torn(_) => AllocTornOnlyAsWritten(g, a, bs, reqs[0]); Tore
  }

  lemma {:induction false} SupplyConcat(g: Guard, a: nat, bs: seq<Block>, xs: seq<nat>, ys: seq<nat>)
    ensures Supply(g, a, bs, xs + ys) ==
      match Supply(g, a, bs, xs)
      case Supplied(after) => Supply(g, a, after, ys)
      case other => other
    decreases xs
  {
    if xs == [] {
      assert xs + ys == ys;
    } else {
      assert (xs + ys)[1..] == xs[1..] + ys;
      var r := Alloc(g, a, bs, xs[0]);
      if r.Got? { SupplyConcat(g, a, r.blocks, xs[1..], ys); }
    }
  }

  lemma SupplyOne(g: Guard, a: nat, bs: seq<Block>, size: nat)
    ensures Supply(g, a, bs, [size]) ==
      match Alloc(g, a, bs, size)
      case NoFit => Short
      case Got(_, after) => Supplied(after)
      case Torn(_) => Tore
  {
    assert [size][1..] == [];
  }

  /** Bytes a list of requests takes, a header for each included. */
  function Need(reqs: seq<nat>): nat {
    if reqs == [] then 0 else reqs[0] + HEADER + Need(reqs[1..])
  }

  lemma {:induction false} NeedConcat(xs: seq<nat>, ys: seq<nat>)
    ensures Need(xs + ys) == Need(xs) + Need(ys)
  {
    if xs == [] {
      assert xs + ys == ys;
    } else {
      assert (xs + ys)[1..] == xs[1..] + ys;
      NeedConcat(xs[1..], ys);
    }
  }

  /** The requests fit one free block, whose own header serves the first of them. As written, the
      split test needs all of it used up, or at least a header left. */
  predicate Fits(g: Guard, free: nat, need: nat) {
    match g
    case AsWritten => need <= free || need == free + HEADER
    case Intended => need <= free + HEADER
  }

  ghost predicate AllReserved(bs: seq<Block>) {
    forall b :: b in bs ==> b.reserved
  }

  /** The intended test keeps leftovers of 12 bytes whole, so it may waste one on a tiny request. */
  ghost predicate NotTiny(reqs: seq<nat>) {
    forall r :: r in reqs ==> r > 4
  }

  /** Two lists of requests as one: this many bytes, none of them tiny. */
  lemma NeedBoth(xs: seq<nat>, ys: seq<nat>, n: nat, k: nat)
    requires Needs(xs, n) && Needs(ys, k)
    ensures Needs(xs + ys, n + k)
  {
    NeedConcat(xs, ys);
  }

  ghost predicate Needs(reqs: seq<nat>, n: nat) {
    Need(reqs) == n && NotTiny(reqs)
  }

  lemma NeedOne(x: nat)
    requires x > 4
    ensures Needs([x], x + HEADER)
  {
    assert [x][1..] == [];
  }

  lemma NothingFree(g: Guard, a: nat, bs: seq<Block>, reqs: seq<nat>)
    requires AllReserved(bs) && reqs != []
    ensures Supply(g, a, bs, reqs).Short?
  {
    AllocNullIffNothingFits(g, a, bs, reqs[0]);
  }

  /** The first request, served from the free block at the end. */
  lemma TailAlloc(g: Guard, a: nat, pre: seq<Block>, free: nat, size: nat)
    requires AllReserved(pre)
    ensures var r := Alloc(g, a, pre + [Block(free, false)], size);
      if size > free then r.NoFit?
      else if !SplitFits(g, size, free) then r.Torn?
      else r.Got? && r.blocks == pre + Take(g, free, size)
  {
    var bs := pre + [Block(free, false)];
    if size > free {
      AllocNullIffNothingFits(g, a, bs, size);
    } else {
      AllocIsFirstFit(g, a, bs, size, |pre|);
      assert bs[..|pre|] == pre && bs[|pre| + 1..] == [];
      if SplitFits(g, size, free) {
        assert TakeAt(g, bs, |pre|, size) == pre + Take(g, free, size);
      }
    }
  }

  /** From a heap whose only free block is its last, a list of requests is served exactly when it
      fits that block; every byte of it can be used. */
  lemma {:induction false} SuppliedIff(g: Guard, a: nat, pre: seq<Block>, free: nat, reqs: seq<nat>)
    requires AllReserved(pre) && free < WORD - HEADER - 4
    requires g == Intended ==> NotTiny(reqs)
    ensures Supply(g, a, pre + [Block(free, false)], reqs).Supplied? <==> Fits(g, free, Need(reqs))
    decreases reqs
  {
    if reqs != [] && reqs[0] <= free {
      var size, rest := reqs[0], reqs[1..];
      assert forall r :: r in rest ==> r in reqs;
      TailAlloc(g, a, pre, free, size);
      AsWrittenSplitsAnyLeftover(size, free);
      assert rest != [] ==> Need(rest) >= HEADER + rest[0];
      if SplitFits(g, size, free) {
        if Splits(g, size, free) {
          var left := free - size - HEADER;
          assert pre + Take(g, free, size) == pre + [Block(size, true)] + [Block(left, false)];
          SuppliedIff(g, a, pre + [Block(size, true)], left, rest);
        } else if rest != [] {
          assert rest[0] in rest;
          NothingFree(g, a, pre + Take(g, free, size), rest);
        }
      }
    } else if reqs != [] {
      TailAlloc(g, a, pre, free, reqs[0]);
    }
  }

  /** Every request but the last is supplied, and the last one tears the heap. */
  predicate TearsLast(g: Guard, a: nat, bs: seq<Block>, reqs: seq<nat>, last: nat) {
    Supply(g, a, bs, reqs).Supplied? && Supply(g, a, bs, reqs + [last]).Tore?
  }

  /** From such a heap that happens, with the split test as written, exactly when the requests leave 1
      to 7 bytes of the free block. */
  lemma {:induction false} TearsLastIff(a: nat, pre: seq<Block>, free: nat, reqs: seq<nat>, last: nat)
    requires AllReserved(pre) && free < WORD - HEADER - 4
    ensures TearsLast(AsWritten, a, pre + [Block(free, false)], reqs, last)
      <==> free < Need(reqs + [last]) < free + HEADER
    decreases reqs
  {
    var bs := pre + [Block(free, false)];
    NeedConcat(reqs, [last]);
    SupplyConcat(AsWritten, a, bs, reqs, [last]);
    assert Need([last]) == last + HEADER by { assert [last][1..] == []; }
    if reqs == [] {
      LastTear(a, pre, free, last);
    } else if reqs[0] <= free {
      var size, rest := reqs[0], reqs[1..];
      TailAlloc(AsWritten, a, pre, free, size);
      AsWrittenSplitsAnyLeftover(size, free);
      if SplitFits(AsWritten, size, free) {
        SupplyConcat(AsWritten, a, pre + Take(AsWritten, free, size), rest, [last]);
        if Splits(AsWritten, size, free) {
          var left := free - size - HEADER;
          assert pre + Take(AsWritten, free, size) == pre + [Block(size, true)] + [Block(left, false)];
          TearsLastIff(a, pre + [Block(size, true)], left, rest, last);
          NeedConcat(rest, [last]);
        } else {
          NoRoomAtAll(a, pre + Take(AsWritten, free, size), rest, last);
        }
      }
    } else {
      TailAlloc(AsWritten, a, pre, free, reqs[0]);
    }
  }

  lemma LastTear(a: nat, pre: seq<Block>, free: nat, last: nat)
    requires AllReserved(pre) && free < WORD - HEADER - 4
    ensures Supply(AsWritten, a, pre + [Block(free, false)], [last]).Tore? <==> free < last + HEADER < free + HEADER
  {
    TailAlloc(AsWritten, a, pre, free, last);
    SupplyOne(AsWritten, a, pre + [Block(free, false)], last);
    if last <= free { AsWrittenSplitsAnyLeftover(last, free); }
  }

  lemma NoRoomAtAll(a: nat, bs: seq<Block>, reqs: seq<nat>, last: nat)
    requires AllReserved(bs)
    ensures Supply(AsWritten, a, bs, reqs).Supplied? ==> !Supply(AsWritten, a, bs, reqs + [last]).Tore?
  {
    if reqs == [] {
      assert [] + [last] == [last];
    }
    NothingFree(AsWritten, a, bs, reqs + [last]);
  }
}
