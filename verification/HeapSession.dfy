/** Whole runs on the allocator itself: what HeapRuns says of block lists, of the bytes in memory. */
module HeapSession {
  import opened Bytes
  import opened HeapModel
  import opened HeapMemory
  import opened HeapAllocator
  import opened HeapRuns

  /** How a run ended: by itself, in the panic of kfree, or at a split that damaged the chain. */
  datatype Ending = Ran | Panic | Tore

  function EndingOf(st: State): Ending {
    match st
    case Running(_, _) => Ran
    case Panicked => Panic
    case TornHeap => Tore
  }

  /** No call among these releases the allocation at q. */
  predicate NotReleased(ops: seq<Op>, q: nat) {
    Release(q) !in ops
  }

  /** Every allocation of bs that these calls do not release is still there, with every byte of its data. */
  ghost predicate KeptBy(ops: seq<Op>, a: nat, m: seq<byte>, bs: seq<Block>, m': seq<byte>, bs': seq<Block>) {
    forall q: nat {:trigger Live(a, bs, q)} :: Live(a, bs, q) && NotReleased(ops, q) ==>
      Lookup(a, bs', q) == Lookup(a, bs, q) && Same(m, m', q, q + Lookup(a, bs, q).value.size)
  }

  /** Nothing outside the heap was written to. */
  ghost predicate OnlyHeap(m: seq<byte>, m': seq<byte>, a: nat, end: nat) {
    Same(m, m', 0, a) && Same(m, m', end, |m|)
  }

  lemma KeptByBoth(xs: seq<Op>, x: Op, ys: seq<Op>, a: nat, m0: seq<byte>, b0: seq<Block>,
                   m1: seq<byte>, b1: seq<Block>, m2: seq<byte>, b2: seq<Block>)
    requires KeptBy(xs, a, m0, b0, m1, b1) && KeptBy([x], a, m1, b1, m2, b2) && ys == xs + [x]
    requires |m0| == |m1| == |m2|
    ensures KeptBy(ys, a, m0, b0, m2, b2)
  {
    forall q: nat | Live(a, b0, q) && NotReleased(ys, q)
      ensures Lookup(a, b2, q) == Lookup(a, b0, q) && Same(m0, m2, q, q + Lookup(a, b0, q).value.size)
    {
      assert NotReleased(xs, q) && NotReleased([x], q);
      assert Live(a, b1, q);
    }
  }

  /** One call, as the model has it, and what it keeps. */
  method StepHeap(h: Heap, op: Op, ghost live: map<nat, nat>) returns (ending: Ending, ghost st: State)
    requires h.Valid()
    modifies h`blocks, h.mem
    ensures st == Step(h.guard, h.heap, Running(old(h.blocks), live), op) && ending == EndingOf(st)
    ensures st.Running? ==>
      && h.Valid() && h.blocks == st.blocks
      && KeptBy([op], h.heap, old(h.mem[..]), old(h.blocks), h.mem[..], h.blocks)
      && OnlyHeap(old(h.mem[..]), h.mem[..], h.heap, h.heapEnd)
  {
    ghost var m, bs := h.mem[..], h.blocks;
    st := Step(h.guard, h.heap, Running(bs, live), op);
    match op
    case Allocate(size) =>
      var p, torn := h.Kalloc(size);
      ending := if torn then Tore else Ran;
      if !torn {
        AllocKeeps(h.guard, h.heap, bs, size);
      }
    case Release(ptr) =>
      var panicked := h.Kfree(ptr);
      ending := if panicked then Panic else Ran;
      if !panicked {
        FreeKeeps(m, h.heap, bs, h.heapEnd, ptr);
      }
  }

  lemma AllocKeeps(g: Guard, a: nat, bs: seq<Block>, size: nat)
    ensures var r := Alloc(g, a, bs, size);
      r.Got? ==> forall q: nat :: Live(a, bs, q) ==> Lookup(a, r.blocks, q) == Lookup(a, bs, q)
  {
    var r := Alloc(g, a, bs, size);
    if r.Got? {
      forall q: nat ensures Live(a, bs, q) ==> Lookup(a, r.blocks, q) == Lookup(a, bs, q) {
        AllocLive(g, a, bs, size, q);
      }
    }
  }

  /** A release that does not panic is of a block of this heap, whose header lies in it. */
  lemma FreeKeeps(m: seq<byte>, a: nat, bs: seq<Block>, end: nat, ptr: nat)
    requires Chain(m, a, bs, end) && Free(a, bs, ptr).Some?
    ensures a + HEADER <= ptr <= end
    ensures forall q: nat :: q != ptr && Live(a, bs, q) ==>
      Lookup(a, Free(a, bs, ptr).value, q) == Lookup(a, bs, q)
  {
    LinksTile(m, a, bs, end);
    FreePanicsIffNoSuchBlock(a, bs, ptr);
    LookupInside(a, bs, ptr);
    forall q: nat | q != ptr && Live(a, bs, q)
      ensures Lookup(a, Free(a, bs, ptr).value, q) == Lookup(a, bs, q)
    {
      FreeLive(a, bs, ptr, q);
    }
  }

  /** Any sequence of calls: it goes as the model's run does, no byte outside the heap changes, and an
      allocation that is not released in it keeps its place, its size and every byte of its data. */
  method RunHeap(h: Heap, ops: seq<Op>, ghost live: map<nat, nat>) returns (ending: Ending, ghost st: State)
    requires h.Valid()
    modifies h`blocks, h.mem
    ensures st == Run(h.guard, h.heap, Running(old(h.blocks), live), ops) && ending == EndingOf(st)
    ensures st.Running? ==>
      && h.Valid() && h.blocks == st.blocks
      && KeptBy(ops, h.heap, old(h.mem[..]), old(h.blocks), h.mem[..], h.blocks)
      && OnlyHeap(old(h.mem[..]), h.mem[..], h.heap, h.heapEnd)
  {
    ghost var m0, b0 := h.mem[..], h.blocks;
    st := Running(b0, live);
    ending := Ran;
    var i := 0;
    while i < |ops|
      invariant i <= |ops| && st.Running? && ending == Ran && h.Valid() && h.blocks == st.blocks
      invariant Run(h.guard, h.heap, Running(b0, live), ops) == Run(h.guard, h.heap, st, ops[i..])
      invariant KeptBy(ops[..i], h.heap, m0, b0, h.mem[..], h.blocks)
      invariant OnlyHeap(m0, h.mem[..], h.heap, h.heapEnd)
    {
      ghost var m1, b1 := h.mem[..], h.blocks;
      assert ops[i..][1..] == ops[i + 1..];
      ending, st := StepHeap(h, ops[i], st.live);
      if ending != Ran {
        EndedStays(h.guard, h.heap, st, ops[i + 1..]);
        return;
      }
      KeptByBoth(ops[..i], ops[i], ops[..i + 1], h.heap, m0, b0, m1, b1, h.mem[..], h.blocks);
      i := i + 1;
    }
    assert ops[i..] == [] && ops[..i] == ops;
  }

  lemma {:induction false} EndedStays(g: Guard, a: nat, st: State, ops: seq<Op>)
    requires !st.Running?
    ensures Run(g, a, st, ops) == st
    decreases ops
  {
    if ops != [] {
      EndedStays(g, a, st, ops[1..]);
    }
  }
}
