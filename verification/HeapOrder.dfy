/** What the order of frees leaves behind: nested lifetimes, and freeing everything in any order. */
module HeapOrder {
  import opened Bytes
  import opened HeapModel

  // ---- last in, first out ----

  /** Allocate, run the body, release that allocation if it succeeded, then run the rest. */
  datatype Script = Done | Bracket(size: nat, body: Script, rest: Script)

  datatype Ending = Ended(blocks: seq<Block>) | Panic | Damaged

  function RunScript(g: Guard, a: nat, bs: seq<Block>, s: Script): Ending
    decreases s
  {
    match s
    case Done => Ended(bs)
    case Bracket(size, body, rest) =>
      match Alloc(g, a, bs, size)
      case Torn(_) => Damaged
      case NoFit =>
        (match RunScript(g, a, bs, body)
         case Ended(inner) => RunScript(g, a, inner, rest)
         case other => other)
      case Got(p, taken) =>
        match RunScript(g, a, taken, body)
        case Ended(inner) =>
          (match Free(a, inner, p)
           case Some(released) => RunScript(g, a, released, rest)
           case None => Panic)
        case other => other
  }

  /** Only the last block may be free: the shape of a fresh heap, and of any nested use of it. */
  ghost predicate StackShaped(bs: seq<Block>) {
    forall i :: 0 <= i < |bs| - 1 ==> bs[i].reserved
  }

  lemma {:induction false} NestedPairRestores(g: Guard, a: nat, bs: seq<Block>, size: nat)
    requires StackShaped(bs) && Alloc(g, a, bs, size).Got?
    ensures var r := Alloc(g, a, bs, size);
      StackShaped(r.blocks) && Free(a, r.blocks, r.ptr) == Some(bs)
    decreases bs
  {
    var b := a + HEADER + bs[0].size;
    var r := Alloc(g, a, bs, size);
    if !FitsIn(bs[0], size) {
      assert |bs| > 1;
      NestedPairRestores(g, b, bs[1..], size);
      assert r.blocks[1..] == Alloc(g, b, bs[1..], size).blocks;
      FreedIsBeyond(b, r.blocks[1..], r.ptr);
      assert [bs[0]] + bs[1..] == bs;
    } else {
      assert |bs| == 1;
      HeadPairCoalesces(g, a, bs, size);
      assert [Block(bs[0].size, false)] + bs[1..] == bs;
    }
  }

  lemma FreedIsBeyond(a: nat, bs: seq<Block>, ptr: nat)
    requires Free(a, bs, ptr).Some?
    ensures ptr >= a + HEADER
  {
    FreePanicsIffNoSuchBlock(a, bs, ptr);
    LookupInside(a, bs, ptr);
  }

  /** Nested lifetimes leave no trace, failed allocations included. */
  lemma {:induction false} NestedRunRestores(g: Guard, a: nat, bs: seq<Block>, s: Script)
    requires StackShaped(bs)
    ensures var e := RunScript(g, a, bs, s); e == Ended(bs) || (g == AsWritten && e == Damaged)
    decreases s
  {
    match s
    case Done =>
    case Bracket(size, body, rest) =>
      match Alloc(g, a, bs, size)
      case Torn(_) => AllocTornOnlyAsWritten(g, a, bs, size);
      case NoFit =>
        NestedRunRestores(g, a, bs, body);
        NestedRunRestores(g, a, bs, rest);
      case Got(p, taken) =>
        NestedPairRestores(g, a, bs, size);
        NestedRunRestores(g, a, taken, body);
        NestedRunRestores(g, a, bs, rest);
  }

  lemma {:induction false} AllocTornOnlyAsWritten(g: Guard, a: nat, bs: seq<Block>, size: nat)
    ensures Alloc(g, a, bs, size).Torn? ==> g == AsWritten
    decreases bs
  {
    if bs != [] {
      AllocTornOnlyAsWritten(g, a + HEADER + bs[0].size, bs[1..], size);
    }
  }

  /** From any state: allocate-then-free is the identity exactly when the next block was reserved. */
  lemma {:induction false} PairRestoresIffNextReserved(g: Guard, a: nat, bs: seq<Block>, size: nat, i: nat)
    requires FirstFit(bs, size, i) && SplitFits(g, size, bs[i].size)
    ensures var r := Alloc(g, a, bs, size);
      r.Got? && Free(a, r.blocks, r.ptr).Some?
      && (Free(a, r.blocks, r.ptr) == Some(bs) <==> i + 1 == |bs| || bs[i + 1].reserved)
    decreases bs
  {
    var r := Alloc(g, a, bs, size);
    if i == 0 {
      HeadPairCoalesces(g, a, bs, size);
      var k := FreePrefix(bs[1..]);
      CoalesceSwallowsFreePrefix(bs[0].size, bs[1..]);
      if k == 0 {
        assert bs[1..][..0] == [];
        assert [Block(bs[0].size, false)] + bs[1..] == bs;
      } else {
        assert Total(bs[1..][..k]) >= HEADER;
        assert Coalesce(bs[0].size, bs[1..])[0] != bs[0];
      }
    } else {
      var b := a + HEADER + bs[0].size;
      PairRestoresIffNextReserved(g, b, bs[1..], size, i - 1);
      var inner := Alloc(g, b, bs[1..], size).blocks;
      assert r.blocks[1..] == inner;
      FreedIsBeyond(b, inner, r.ptr);
      var freed := Free(b, inner, r.ptr).value;
      assert ([bs[0]] + freed)[1..] == freed;
      assert [bs[0]] + bs[1..] == bs;
    }
  }

  lemma HeadPairCoalesces(g: Guard, a: nat, bs: seq<Block>, size: nat)
    requires bs != [] && FitsIn(bs[0], size) && SplitFits(g, size, bs[0].size)
    ensures var r := Alloc(g, a, bs, size);
      Free(a, r.blocks, r.ptr) == Some(Coalesce(bs[0].size, bs[1..]))
  {
    var r := Alloc(g, a, bs, size);
    if Splits(g, size, bs[0].size) {
      var tail := [Block(bs[0].size - size - HEADER, false)] + bs[1..];
      assert r.blocks[1..] == tail && tail[1..] == bs[1..];
    } else {
      assert r.blocks[1..] == bs[1..];
    }
  }

  // ---- freeing every block, in any order ----

  /** A block and the moment it was freed; 0 for a block that was free from the start. */
  datatype Slot = Slot(size: nat, time: nat)

  /** Address of the k-th header while all of them are there. */
  function HeaderOf(a: nat, ss: seq<Slot>, k: nat): (h: nat)
    requires k < |ss|
    ensures h >= a
    decreases k
  {
    if k == 0 then a else HeaderOf(a + HEADER + ss[0].size, ss[1..], k - 1)
  }

  /** The heap after every free up to time now. */
  function After(ss: seq<Slot>, now: nat): seq<Block>
    decreases |ss|, 0
  {
    if ss == [] then []
    else if ss[0].time > now then [Block(ss[0].size, true)] + After(ss[1..], now)
    else Absorb(ss[0].size, ss[0].time, ss[1..], now)
  }

  /** A block freed at time t, already size bytes long, followed by the slots in rest. */
  function Absorb(size: nat, t: nat, rest: seq<Slot>, now: nat): (bs: seq<Block>)
    ensures bs != [] && bs[0].size >= size && !bs[0].reserved
    decreases |rest|, 1
  {
    if rest == [] || rest[0].time >= t then [Block(size, false)] + After(rest, now)
    else Absorb(size + HEADER + rest[0].size, t, rest[1..], now)
  }

  function Initial(ss: seq<Slot>): seq<Block> {
    seq(|ss|, i requires 0 <= i < |ss| => Block(ss[i].size, ss[i].time > 0))
  }

  lemma {:induction false} AfterNothing(ss: seq<Slot>)
    ensures After(ss, 0) == Initial(ss)
  {
    if ss != [] {
      AfterNothing(ss[1..]);
      assert Initial(ss) == [Initial(ss)[0]] + Initial(ss[1..]);
    }
  }

  /** Nothing changes at a moment at which nothing is freed. */
  lemma {:induction false} AfterIdle(ss: seq<Slot>, now: nat)
    requires forall i :: 0 <= i < |ss| ==> ss[i].time != now + 1
    ensures After(ss, now) == After(ss, now + 1)
    decreases |ss|, 0
  {
    if ss != [] {
      if ss[0].time > now {
        AfterIdle(ss[1..], now);
      } else {
        AbsorbIdle(ss[0].size, ss[0].time, ss[1..], now);
      }
    }
  }

  lemma {:induction false} AbsorbIdle(size: nat, t: nat, rest: seq<Slot>, now: nat)
    requires forall i :: 0 <= i < |rest| ==> rest[i].time != now + 1
    ensures Absorb(size, t, rest, now) == Absorb(size, t, rest, now + 1)
    decreases |rest|, 1
  {
    if rest == [] || rest[0].time >= t {
      AfterIdle(rest, now);
    } else {
      AbsorbIdle(size + HEADER + rest[0].size, t, rest[1..], now);
    }
  }

  /** A block freed right after now swallows everything that is free by then. */
  lemma {:induction false} CoalesceAfter(size: nat, ss: seq<Slot>, now: nat)
    ensures Coalesce(size, After(ss, now)) == Absorb(size, now + 1, ss, now)
    decreases |ss|, 0
  {
    if ss != [] && ss[0].time <= now {
      CoalesceAbsorb(size, ss[0].size, ss[0].time, ss[1..], now);
    }
  }

  lemma {:induction false} CoalesceAbsorb(size: nat, first: nat, t: nat, rest: seq<Slot>, now: nat)
    requires t <= now
    ensures Coalesce(size, Absorb(first, t, rest, now)) == Absorb(size + HEADER + first, now + 1, rest, now)
    decreases |rest|, 1
  {
    if rest == [] || rest[0].time >= t {
      assert ([Block(first, false)] + After(rest, now))[1..] == After(rest, now);
      CoalesceAfter(size + HEADER + first, rest, now);
    } else {
      CoalesceAbsorb(size, first + HEADER + rest[0].size, t, rest[1..], now);
    }
  }

  /** Freeing the block whose turn it is moves the heap from one moment to the next. */
  lemma {:induction false} FreeAdvances(a: nat, ss: seq<Slot>, now: nat, x: nat)
    requires x < |ss|
    requires forall i :: 0 <= i < |ss| ==> (ss[i].time == now + 1 <==> i == x)
    ensures Free(a, After(ss, now), HeaderOf(a, ss, x) + HEADER) == Some(After(ss, now + 1))
    decreases |ss|, 0
  {
    var rest := ss[1..];
    var ptr := HeaderOf(a, ss, x) + HEADER;
    if x == 0 {
      var bs := [Block(ss[0].size, true)] + After(rest, now);
      assert bs[1..] == After(rest, now);
      CoalesceAfter(ss[0].size, rest, now);
      AbsorbIdle(ss[0].size, now + 1, rest, now);
    } else if ss[0].time > now {
      FreeSkips(a, Block(ss[0].size, true), After(rest, now), ptr);
      FreeAdvances(a + HEADER + ss[0].size, rest, now, x - 1);
    } else {
      FreeAdvancesPast(a, ss[0].size, ss[0].time, rest, now, x - 1);
    }
  }

  lemma {:induction false} FreeAdvancesPast(a: nat, size: nat, t: nat, rest: seq<Slot>, now: nat, x: nat)
    requires x < |rest| && t <= now
    requires forall i :: 0 <= i < |rest| ==> (rest[i].time == now + 1 <==> i == x)
    ensures Free(a, Absorb(size, t, rest, now), HeaderOf(a + HEADER + size, rest, x) + HEADER)
         == Some(Absorb(size, t, rest, now + 1))
    decreases |rest|, 1
  {
    if rest[0].time >= t {
      FreeSkips(a, Block(size, false), After(rest, now), HeaderOf(a + HEADER + size, rest, x) + HEADER);
      FreeAdvances(a + HEADER + size, rest, now, x);
    } else {
      FreeAdvancesPast(a, size + HEADER + rest[0].size, t, rest[1..], now, x - 1);
    }
  }

  lemma FreeSkips(a: nat, b: Block, rest: seq<Block>, ptr: nat)
    requires ptr != a + HEADER
    ensures var r := Free(a + HEADER + b.size, rest, ptr);
      Free(a, [b] + rest, ptr) == if r.None? then None else Some([b] + r.value)
  {
    assert ([b] + rest)[1..] == rest;
  }

  function FreeAll(a: nat, bs: seq<Block>, ptrs: seq<nat>): Option<seq<Block>>
    decreases ptrs
  {
    if ptrs == [] then Some(bs)
    else match Free(a, bs, ptrs[0])
      case None => None
      case Some(r) => FreeAll(a, r, ptrs[1..])
  }

  /** turns[t] is the block freed at moment start + t + 1, by the pointer its allocation returned. */
  ghost predicate FreesInOrder(ss: seq<Slot>, turns: seq<nat>, start: nat) {
    && (forall t :: 0 <= t < |turns| ==> turns[t] < |ss| && ss[turns[t]].time == start + t + 1)
    && (forall i, j :: 0 <= i < j < |ss| && ss[i].time == ss[j].time ==> ss[i].time == 0)
  }

  function Pointers(a: nat, ss: seq<Slot>, turns: seq<nat>): (ptrs: seq<nat>)
    requires forall t :: 0 <= t < |turns| ==> turns[t] < |ss|
  {
    seq(|turns|, t requires 0 <= t < |turns| => HeaderOf(a, ss, turns[t]) + HEADER)
  }

  lemma {:induction false} FreeAllReaches(a: nat, ss: seq<Slot>, turns: seq<nat>, start: nat)
    requires FreesInOrder(ss, turns, start)
    ensures FreeAll(a, After(ss, start), Pointers(a, ss, turns)) == Some(After(ss, start + |turns|))
    decreases turns
  {
    if turns != [] {
      FirstTurn(ss, turns, start);
      FreeAdvances(a, ss, start, turns[0]);
      FreeAllReaches(a, ss, turns[1..], start + 1);
      assert Pointers(a, ss, turns)[1..] == Pointers(a, ss, turns[1..]);
    }
  }

  lemma FirstTurn(ss: seq<Slot>, turns: seq<nat>, start: nat)
    requires FreesInOrder(ss, turns, start) && turns != []
    ensures turns[0] < |ss| && forall i :: 0 <= i < |ss| ==> (ss[i].time == start + 1 <==> i == turns[0])
    ensures FreesInOrder(ss, turns[1..], start + 1)
  {
    var rest := turns[1..];
    assert forall t :: 0 <= t < |rest| ==> rest[t] == turns[t + 1];
  }

  /** No lower-addressed block was freed later than block k. */
  ghost predicate FreedLast(ss: seq<Slot>, k: nat) {
    k < |ss| && forall j :: 0 <= j < k ==> ss[j].time <= ss[k].time
  }

  ghost predicate AllFreedBy(ss: seq<Slot>, now: nat) {
    forall i :: 0 <= i < |ss| ==> ss[i].time <= now
  }

  lemma {:induction false} SurvivesIffFreedLast(a: nat, ss: seq<Slot>, now: nat, k: nat)
    requires k < |ss| && AllFreedBy(ss, now)
    ensures Lookup(a, After(ss, now), HeaderOf(a, ss, k) + HEADER).Some? <==> FreedLast(ss, k)
    decreases |ss|, 0
  {
    if k > 0 {
      var rest := ss[1..];
      SurvivesAbsorb(a, ss[0].size, ss[0].time, rest, now, k - 1);
      assert FreedLast(ss, k) <==> rest[k - 1].time >= ss[0].time && FreedLast(rest, k - 1) by {
        assert forall j :: 1 <= j < k ==> ss[j] == rest[j - 1];
        assert forall j :: 0 <= j < k - 1 ==> rest[j] == ss[j + 1];
      }
    }
  }

  lemma {:induction false} SurvivesAbsorb(a: nat, size: nat, t: nat, rest: seq<Slot>, now: nat, k: nat)
    requires k < |rest| && AllFreedBy(rest, now)
    ensures Lookup(a, Absorb(size, t, rest, now), HeaderOf(a + HEADER + size, rest, k) + HEADER).Some?
      <==> rest[k].time >= t && FreedLast(rest, k)
    decreases |rest|, 1
  {
    var b := a + HEADER + size;
    var ptr := HeaderOf(b, rest, k) + HEADER;
    var tail := rest[1..];
    if rest[0].time >= t {
      LookupSkips(a, Block(size, false), After(rest, now), ptr);
      SurvivesIffFreedLast(b, rest, now, k);
    } else if k == 0 {
      var bs := Absorb(size, t, rest, now);
      LookupInside(a + HEADER + bs[0].size, bs[1..], ptr);
    } else {
      SurvivesAbsorb(a, size + HEADER + rest[0].size, t, tail, now, k - 1);
      assert rest[k].time >= t ==> (FreedLast(rest, k) <==> FreedLast(tail, k - 1)) by {
        assert forall j :: 1 <= j < k ==> rest[j] == tail[j - 1];
        assert forall j :: 0 <= j < k - 1 ==> tail[j] == rest[j + 1];
      }
    }
  }

  lemma LookupSkips(a: nat, b: Block, rest: seq<Block>, ptr: nat)
    requires ptr != a + HEADER
    ensures Lookup(a, [b] + rest, ptr) == Lookup(a + HEADER + b.size, rest, ptr)
  {
    assert ([b] + rest)[1..] == rest;
  }

  /** Number of entries that are at least every earlier one and at least floor. */
  function PrefixMaxima(ss: seq<Slot>, floor: nat): nat {
    if ss == [] then 0
    else if ss[0].time >= floor then 1 + PrefixMaxima(ss[1..], ss[0].time)
    else PrefixMaxima(ss[1..], floor)
  }

  lemma {:induction false} SurvivorsArePrefixMaxima(ss: seq<Slot>, now: nat)
    requires AllFreedBy(ss, now)
    ensures |After(ss, now)| == PrefixMaxima(ss, 0)
    ensures forall b :: b in After(ss, now) ==> !b.reserved
    decreases |ss|, 0
  {
    if ss != [] {
      AbsorbCounts(ss[0].size, ss[0].time, ss[1..], now);
    }
  }

  lemma {:induction false} AbsorbCounts(size: nat, t: nat, rest: seq<Slot>, now: nat)
    requires AllFreedBy(rest, now)
    ensures |Absorb(size, t, rest, now)| == 1 + PrefixMaxima(rest, t)
    ensures forall b :: b in Absorb(size, t, rest, now) ==> !b.reserved
    decreases |rest|, 1
  {
    if rest == [] || rest[0].time >= t {
      SurvivorsArePrefixMaxima(rest, now);
    } else {
      AbsorbCounts(size + HEADER + rest[0].size, t, rest[1..], now);
    }
  }

  /** The blocks bs are all free, and their headers are those of the blocks freed last of all up to them. */
  ghost predicate MaximaLeft(a: nat, ss: seq<Slot>, bs: seq<Block>) {
    && |bs| == PrefixMaxima(ss, 0)
    && (forall b :: b in bs ==> !b.reserved)
    && (forall k :: 0 <= k < |ss| ==> (Lookup(a, bs, HeaderOf(a, ss, k) + HEADER).Some? <==> FreedLast(ss, k)))
  }

  /** Free every reserved block of any heap, in any order: the exact headers that are left. */
  lemma FreeEverything(a: nat, ss: seq<Slot>, turns: seq<nat>)
    requires FreesInOrder(ss, turns, 0)
    requires AllFreedBy(ss, |turns|)
    ensures var end := FreeAll(a, Initial(ss), Pointers(a, ss, turns)); end.Some? && MaximaLeft(a, ss, end.value)
  {
    AfterNothing(ss);
    FreeAllReaches(a, ss, turns, 0);
    SurvivorsArePrefixMaxima(ss, |turns|);
    forall k | 0 <= k < |ss|
      ensures Lookup(a, After(ss, |turns|), HeaderOf(a, ss, k) + HEADER).Some? <==> FreedLast(ss, k)
    {
      SurvivesIffFreedLast(a, ss, |turns|, k);
    }
  }

  /** When block i is freed if the blocks are freed in this order: 0 if it is not among them. */
  function TimeOf(turns: seq<nat>, i: nat): (t: nat)
    ensures t <= |turns|
  {
    if turns == [] then 0
    else if turns[|turns| - 1] == i then |turns|
    else TimeOf(turns[..|turns| - 1], i)
  }

  lemma {:induction false} TimeIs(turns: seq<nat>, t: nat)
    requires t < |turns| && forall u, v :: 0 <= u < v < |turns| ==> turns[u] != turns[v]
    ensures TimeOf(turns, turns[t]) == t + 1
    decreases |turns|
  {
    if t < |turns| - 1 { TimeIs(turns[..|turns| - 1], t); }
  }

  lemma {:induction false} TimeSays(turns: seq<nat>, i: nat)
    ensures var t := TimeOf(turns, i); if t == 0 then i !in turns else turns[t - 1] == i
    decreases |turns|
  {
    if turns != [] && turns[|turns| - 1] != i {
      TimeSays(turns[..|turns| - 1], i);
      assert turns == turns[..|turns| - 1] + [turns[|turns| - 1]];
    }
  }

  /** Blocks of these sizes, to be freed in this order. */
  function Timed(sizes: seq<nat>, turns: seq<nat>): (ss: seq<Slot>)
    ensures |ss| == |sizes|
  {
    seq(|sizes|, i requires 0 <= i < |sizes| => Slot(sizes[i], TimeOf(turns, i)))
  }

  lemma TimedInOrder(sizes: seq<nat>, turns: seq<nat>)
    requires forall t :: 0 <= t < |turns| ==> turns[t] < |sizes|
    requires forall u, v :: 0 <= u < v < |turns| ==> turns[u] != turns[v]
    ensures FreesInOrder(Timed(sizes, turns), turns, 0) && AllFreedBy(Timed(sizes, turns), |turns|)
    ensures forall i :: 0 <= i < |sizes| ==> Initial(Timed(sizes, turns))[i] == Block(sizes[i], i in turns)
  {
    var ss := Timed(sizes, turns);
    forall t | 0 <= t < |turns| ensures ss[turns[t]].time == t + 1 { TimeIs(turns, t); }
    forall i | 0 <= i < |sizes| ensures ss[i].time == 0 <==> i !in turns {
      TimeSays(turns, i);
      if i in turns {
        var t :| 0 <= t < |turns| && turns[t] == i;
        TimeIs(turns, t);
      }
    }
    forall i, j | 0 <= i < j < |ss| && ss[i].time == ss[j].time ensures ss[i].time == 0 {
      TimeSays(turns, i);
      TimeSays(turns, j);
    }
  }

  /** So for blocks of any sizes, and any order in which the reserved ones are freed: no free panics, all
      that is left is free, and of the headers just those stay that no lower block was freed after. */
  lemma FreeInAnyOrder(a: nat, sizes: seq<nat>, turns: seq<nat>)
    requires forall t :: 0 <= t < |turns| ==> turns[t] < |sizes|
    requires forall u, v :: 0 <= u < v < |turns| ==> turns[u] != turns[v]
    ensures var ss := Timed(sizes, turns); var end := FreeAll(a, Initial(ss), Pointers(a, ss, turns));
      end.Some? && MaximaLeft(a, ss, end.value)
  {
    TimedInOrder(sizes, turns);
    FreeEverything(a, Timed(sizes, turns), turns);
  }

  /** The two extremes: rising addresses keep every header, falling addresses keep one. */
  lemma {:induction false} AscendingKeepsAll(ss: seq<Slot>, floor: nat)
    requires forall i, j :: 0 <= i < j < |ss| ==> ss[i].time <= ss[j].time
    requires ss != [] ==> ss[0].time >= floor
    ensures PrefixMaxima(ss, floor) == |ss|
  {
    if ss != [] {
      AscendingKeepsAll(ss[1..], ss[0].time);
    }
  }

  /** The ordinary heap, reserved blocks with a free tail: freed by rising address, every block
      keeps its header and the last one takes in the tail. */
  lemma {:induction false} AscendingTakesInTail(ss: seq<Slot>, floor: nat)
    requires ss != [] && ss[|ss| - 1].time == 0 && (|ss| == 1 ==> floor > 0)
    requires forall i, j :: 0 <= i <= j < |ss| - 1 ==> 0 < ss[i].time <= ss[j].time
    requires |ss| > 1 ==> ss[0].time >= floor
    ensures PrefixMaxima(ss, floor) == |ss| - 1
  {
    if |ss| > 1 {
      AscendingTakesInTail(ss[1..], ss[0].time);
    }
  }

  lemma {:induction false} NothingAboveFloor(ss: seq<Slot>, floor: nat)
    requires forall i :: 0 <= i < |ss| ==> ss[i].time < floor
    ensures PrefixMaxima(ss, floor) == 0
  {
    if ss != [] {
      NothingAboveFloor(ss[1..], floor);
    }
  }

  lemma FirstFreedLastKeepsOne(ss: seq<Slot>)
    requires ss != [] && forall j :: 0 < j < |ss| ==> ss[j].time < ss[0].time
    ensures PrefixMaxima(ss, 0) == 1
  {
    NothingAboveFloor(ss[1..], ss[0].time);
  }
}
