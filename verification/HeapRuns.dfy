/** Whole runs of the allocator: what its clients may rely on after any sequence of calls. */
module HeapRuns {
  import opened Bytes
  import opened HeapModel

  datatype Op = Allocate(size: nat) | Release(ptr: nat)

  /** live maps each pointer handed out and not yet released to the size that was asked for. */
  datatype State = Running(blocks: seq<Block>, live: map<nat, nat>) | Panicked | TornHeap

  function Fresh(maxSize: nat): State
    requires maxSize >= 2 * HEADER
  {
    Running([Block(maxSize - 2 * HEADER, false)], map[])
  }

  function Step(g: Guard, a: nat, st: State, op: Op): State {
    match (st, op)
    case (Running(bs, live), Allocate(size)) =>
      (match Alloc(g, a, bs, size)
       case NoFit => st
       case Got(p, r) => Running(r, live[p := size])
       case Torn(_) => TornHeap)
    case (Running(bs, live), Release(p)) =>
      (match Free(a, bs, p)
       case None => Panicked
       case Some(r) => Running(r, live - {p}))
    case _ => st
  }

  function Run(g: Guard, a: nat, st: State, ops: seq<Op>): State
    decreases ops
  {
    if ops == [] then st else Run(g, a, Step(g, a, st, ops[0]), ops[1..])
  }

  /** The blocks tile the region, and the reserved ones are exactly the client's live allocations. */
  ghost predicate Accounted(a: nat, maxSize: nat, st: State) {
    st.Running? ==>
      && Total(st.blocks) + HEADER == maxSize
      && (forall p :: p in st.live <==> Live(a, st.blocks, p))
      && (forall p :: p in st.live ==> st.live[p] <= Lookup(a, st.blocks, p).value.size)
  }

  lemma StepAccounted(g: Guard, a: nat, maxSize: nat, st: State, op: Op)
    requires Accounted(a, maxSize, st)
    ensures Accounted(a, maxSize, Step(g, a, st, op))
  {
    var st' := Step(g, a, st, op);
    match (st, op)
    case (Running(bs, live), Allocate(size)) =>
      var r := Alloc(g, a, bs, size);
      if r.Got? {
        AllocConserves(g, a, bs, size);
        forall q ensures
            && (q in st'.live <==> Live(a, st'.blocks, q))
            && (q in st'.live ==> st'.live[q] <= Lookup(a, st'.blocks, q).value.size)
        {
          AllocLive(g, a, bs, size, q);
        }
      }
    case (Running(bs, live), Release(p)) =>
      if Free(a, bs, p).Some? {
        FreeConserves(a, bs, p);
        forall q ensures
            && (q in st'.live <==> Live(a, st'.blocks, q))
            && (q in st'.live ==> st'.live[q] <= Lookup(a, st'.blocks, q).value.size)
        {
          FreeLive(a, bs, p, q);
        }
      }
    case _ =>
  }

  lemma {:induction false} RunAccounted(g: Guard, a: nat, maxSize: nat, st: State, ops: seq<Op>)
    requires Accounted(a, maxSize, st)
    ensures Accounted(a, maxSize, Run(g, a, st, ops))
    decreases ops
  {
    if ops != [] {
      StepAccounted(g, a, maxSize, st, ops[0]);
      RunAccounted(g, a, maxSize, Step(g, a, st, ops[0]), ops[1..]);
    }
  }

  lemma FreshAccounted(a: nat, maxSize: nat)
    requires maxSize >= 2 * HEADER
    ensures Accounted(a, maxSize, Fresh(maxSize))
  {
    var bs := [Block(maxSize - 2 * HEADER, false)];
    assert bs[1..] == [];
    forall p ensures !Live(a, bs, p) {
      assert Lookup(a + HEADER + bs[0].size, bs[1..], p).None?;
    }
  }

  /** After any run from a fresh heap, live allocations are inside it and pairwise disjoint. */
  lemma LiveAllocationsAreDisjoint(g: Guard, a: nat, maxSize: nat, ops: seq<Op>)
    requires maxSize >= 2 * HEADER
    ensures var st := Run(g, a, Fresh(maxSize), ops);
      st.Running? ==>
        && Total(st.blocks) + HEADER == maxSize
        && (forall p :: p in st.live ==> a + HEADER <= p && p + st.live[p] <= a + maxSize - HEADER)
        && (forall p, q :: p in st.live && q in st.live && p < q ==> p + st.live[p] + HEADER <= q)
  {
    var st := Run(g, a, Fresh(maxSize), ops);
    FreshAccounted(a, maxSize);
    RunAccounted(g, a, maxSize, Fresh(maxSize), ops);
    if st.Running? {
      forall p | p in st.live ensures a + HEADER <= p && p + st.live[p] <= a + maxSize - HEADER {
        LookupInside(a, st.blocks, p);
      }
      forall p, q | p in st.live && q in st.live && p < q ensures p + st.live[p] + HEADER <= q {
        LookupApart(a, st.blocks, p, q);
      }
    }
  }

  /** With the split test the comment describes, no run can damage the chain. */
  lemma {:induction false} IntendedGuardNeverTears(a: nat, st: State, ops: seq<Op>)
    requires !st.TornHeap?
    ensures !Run(Intended, a, st, ops).TornHeap?
    decreases ops
  {
    if ops != [] {
      if st.Running? && ops[0].Allocate? {
        AllocIntendedNotTorn(a, st.blocks, ops[0].size);
      }
      IntendedGuardNeverTears(a, Step(Intended, a, st, ops[0]), ops[1..]);
    }
  }

  lemma {:induction false} AllocIntendedNotTorn(a: nat, bs: seq<Block>, size: nat)
    ensures !Alloc(Intended, a, bs, size).Torn?
    decreases bs
  {
    if bs != [] {
      AllocIntendedNotTorn(a + HEADER + bs[0].size, bs[1..], size);
    }
  }

  /** The split test as written, on the first request: every leftover of 1 to 7 bytes damages the
      chain, where the intended test hands out the whole block. */
  lemma SmallLeftoverTears(a: nat, size: nat, d: nat)
    requires 1 <= d < HEADER && size + d + 2 * HEADER < WORD - HEADER - 4
    ensures Run(AsWritten, a, Fresh(size + d + 2 * HEADER), [Allocate(size)]) == TornHeap
    ensures Run(Intended, a, Fresh(size + d + 2 * HEADER), [Allocate(size)])
         == Running([Block(size + d, true)], map[a + HEADER := size])
  {
    var bs := [Block(size + d, false)];
    AsWrittenSplitsAnyLeftover(size, size + d);
    assert FirstFit(bs, size, 0);
    assert bs[..0] == [] && bs[1..] == [];
    AllocIsFirstFit(AsWritten, a, bs, size, 0);
    AllocIsFirstFit(Intended, a, bs, size, 0);
    var ops := [Allocate(size)];
    assert ops[1..] == [];
    assert TakeAt(Intended, bs, 0, size) == [Block(size + d, true)];
    assert Addr(a, bs, 0) == a;
  }
}
