/** Nested lifetimes as a client lives them: one call after the other. */
module HeapNesting {
  import opened Bytes
  import opened HeapModel
  import opened HeapRuns
  import opened HeapOrder

  /** A lifetime begins with a call of kalloc, and ends with a call of kfree if that call gave a pointer. */
  datatype Mark = Begin(size: nat) | End

  function Marks(s: Script): seq<Mark> {
    match s
    case Done => []
    case Bracket(size, body, rest) => [Begin(size)] + Marks(body) + [End] + Marks(rest)
  }

  /** What kalloc gives. */
  function Given(g: Guard, a: nat, st: State, size: nat): Option<nat> {
    if st.Running? && Alloc(g, a, st.blocks, size).Got? then Some(Alloc(g, a, st.blocks, size).ptr) else None
  }

  /** The calls made, with the pointers of the lifetimes that have begun, innermost last. */
  function CallsFrom(g: Guard, a: nat, st: State, open: seq<Option<nat>>, marks: seq<Mark>): seq<Op>
    decreases marks
  {
    if marks == [] then []
    else
      match marks[0]
      case Begin(size) =>
        [Allocate(size)]
          + CallsFrom(g, a, Step(g, a, st, Allocate(size)), open + [Given(g, a, st, size)], marks[1..])
      case End =>
        if open == [] then []
        else
          var outer := open[..|open| - 1];
          match open[|open| - 1]
          case None => CallsFrom(g, a, st, outer, marks[1..])
          case Some(p) => [Release(p)] + CallsFrom(g, a, Step(g, a, st, Release(p)), outer, marks[1..])
  }

  function RunMarks(g: Guard, a: nat, st: State, open: seq<Option<nat>>, marks: seq<Mark>): State {
    Run(g, a, st, CallsFrom(g, a, st, open, marks))
  }

  lemma RunFirst(g: Guard, a: nat, st: State, op: Op, ops: seq<Op>)
    ensures Run(g, a, st, [op] + ops) == Run(g, a, Step(g, a, st, op), ops)
  {
    assert ([op] + ops)[1..] == ops;
  }

  lemma BeginRuns(g: Guard, a: nat, st: State, open: seq<Option<nat>>, size: nat, more: seq<Mark>)
    ensures RunMarks(g, a, st, open, [Begin(size)] + more) ==
      RunMarks(g, a, Step(g, a, st, Allocate(size)), open + [Given(g, a, st, size)], more)
  {
    assert ([Begin(size)] + more)[1..] == more;
    RunFirst(g, a, st, Allocate(size),
             CallsFrom(g, a, Step(g, a, st, Allocate(size)), open + [Given(g, a, st, size)], more));
  }

  lemma EndRuns(g: Guard, a: nat, st: State, open: seq<Option<nat>>, p: Option<nat>, more: seq<Mark>)
    ensures RunMarks(g, a, st, open + [p], [End] + more) ==
      RunMarks(g, a, if p.Some? then Step(g, a, st, Release(p.value)) else st, open, more)
  {
    assert ([End] + more)[1..] == more;
    assert (open + [p])[..|open|] == open;
    if p.Some? {
      RunFirst(g, a, st, Release(p.value), CallsFrom(g, a, Step(g, a, st, Release(p.value)), open, more));
    }
  }

  /** Once the heap is torn, or the loader has panicked, nothing changes. */
  lemma {:induction false} OverIsOver(g: Guard, a: nat, st: State, ops: seq<Op>)
    requires !st.Running?
    ensures Run(g, a, st, ops) == st
    decreases ops
  {
    if ops != [] { OverIsOver(g, a, st, ops[1..]); }
  }

  /** Where a script leaves the allocator. */
  ghost predicate LeadsTo(e: Ending, st: State, live: map<nat, nat>) {
    match e
    case Ended(bs) => st == Running(bs, live)
    case Panic => st == Panicked
    case Damaged => st == TornHeap
  }

  /** Nothing is live in inner that is not in outer, and for the same size. */
  ghost predicate Within(inner: map<nat, nat>, outer: map<nat, nat>) {
    forall p :: p in inner ==> p in outer && inner[p] == outer[p]
  }

  /** RunScript is the run of the script's calls, whatever follows them. */
  lemma {:induction false} ScriptIsRun(g: Guard, a: nat, bs: seq<Block>, live: map<nat, nat>, s: Script,
                                       open: seq<Option<nat>>, more: seq<Mark>)
      returns (st: State, after: map<nat, nat>)
    ensures LeadsTo(RunScript(g, a, bs, s), st, after) && Within(after, live)
    ensures RunMarks(g, a, Running(bs, live), open, Marks(s) + more) == RunMarks(g, a, st, open, more)
    decreases s
  {
    var st0 := Running(bs, live);
    st, after := st0, live;
    match s
    case Done =>
      assert Marks(s) + more == more;
    case Bracket(size, body, rest) =>
      var given := Given(g, a, st0, size);
      var tail := Marks(rest) + more;
      assert Marks(s) + more == [Begin(size)] + (Marks(body) + ([End] + tail));
      BeginRuns(g, a, st0, open, size, Marks(body) + ([End] + tail));
      var st1 := Step(g, a, st0, Allocate(size));
      if st1.TornHeap? {
        st := st1;
        Stays(g, a, st, open + [given], Marks(body) + ([End] + tail), open, more);
      } else {
        var st2, in2 := ScriptIsRun(g, a, st1.blocks, st1.live, body, open + [given], [End] + tail);
        if !st2.Running? {
          st := st2;
          Stays(g, a, st, open + [given], [End] + tail, open, more);
        } else {
          EndRuns(g, a, st2, open, given, tail);
          var st3 := if given.Some? then Step(g, a, st2, Release(given.value)) else st2;
          if st3.Panicked? {
            st := st3;
            Stays(g, a, st, open, tail, open, more);
          } else {
            st, after := ScriptIsRun(g, a, st3.blocks, st3.live, rest, open, more);
          }
        }
      }
  }

  lemma Stays(g: Guard, a: nat, st: State, open1: seq<Option<nat>>, marks1: seq<Mark>,
              open2: seq<Option<nat>>, marks2: seq<Mark>)
    requires !st.Running?
    ensures RunMarks(g, a, st, open1, marks1) == RunMarks(g, a, st, open2, marks2) == st
  {
    OverIsOver(g, a, st, CallsFrom(g, a, st, open1, marks1));
    OverIsOver(g, a, st, CallsFrom(g, a, st, open2, marks2));
  }

  /** Sizes a client asks for, and those a script names, from the outside in. */
  function Asked(ops: seq<Op>): seq<nat> {
    if ops == [] then [] else (if ops[0].Allocate? then [ops[0].size] else []) + Asked(ops[1..])
  }

  function Sizes(s: Script): seq<nat> {
    match s
    case Done => []
    case Bracket(size, body, rest) => [size] + Sizes(body) + Sizes(rest)
  }

  /** The calls of a script. */
  function Calls(g: Guard, a: nat, st: State, s: Script): seq<Op> {
    CallsFrom(g, a, st, [], Marks(s))
  }

  /** Every size the script names is asked for, in order. */
  lemma CallsAsk(g: Guard, a: nat, st: State, s: Script)
    ensures Asked(Calls(g, a, st, s)) == Sizes(s)
  {
    assert Marks(s) + [] == Marks(s);
    var st2 := AsksFirst(g, a, st, s, [], []);
    assert Sizes(s) + [] == Sizes(s);
  }

  lemma {:induction false} AsksFirst(g: Guard, a: nat, st: State, s: Script, open: seq<Option<nat>>, more: seq<Mark>)
      returns (st2: State)
    ensures Asked(CallsFrom(g, a, st, open, Marks(s) + more)) == Sizes(s) + Asked(CallsFrom(g, a, st2, open, more))
    decreases s
  {
    match s
    case Done =>
      st2 := st;
      assert Marks(s) + more == more;
    case Bracket(size, body, rest) =>
      var given, tail := Given(g, a, st, size), Marks(rest) + more;
      var st1 := Step(g, a, st, Allocate(size));
      assert Marks(s) + more == [Begin(size)] + (Marks(body) + ([End] + tail));
      AsksBegin(g, a, st, open, size, Marks(body) + ([End] + tail));
      var inner := AsksFirst(g, a, st1, body, open + [given], [End] + tail);
      var st3 := AsksEnd(g, a, inner, open, given, tail);
      st2 := AsksFirst(g, a, st3, rest, open, more);
      var after := Asked(CallsFrom(g, a, st2, open, more));
      Regroup([size], Sizes(body), Sizes(rest), after);
  }

  lemma Regroup(x: seq<nat>, y: seq<nat>, z: seq<nat>, w: seq<nat>)
    ensures x + (y + (z + w)) == x + y + z + w
  {
  }

  lemma AsksBegin(g: Guard, a: nat, st: State, open: seq<Option<nat>>, size: nat, more: seq<Mark>)
    ensures Asked(CallsFrom(g, a, st, open, [Begin(size)] + more)) == [size] +
      Asked(CallsFrom(g, a, Step(g, a, st, Allocate(size)), open + [Given(g, a, st, size)], more))
  {
    assert ([Begin(size)] + more)[1..] == more;
    var ops := CallsFrom(g, a, Step(g, a, st, Allocate(size)), open + [Given(g, a, st, size)], more);
    assert ([Allocate(size)] + ops)[1..] == ops;
  }

  lemma AsksEnd(g: Guard, a: nat, st: State, open: seq<Option<nat>>, p: Option<nat>, more: seq<Mark>)
      returns (st2: State)
    ensures Asked(CallsFrom(g, a, st, open + [p], [End] + more)) == Asked(CallsFrom(g, a, st2, open, more))
  {
    assert ([End] + more)[1..] == more;
    assert (open + [p])[..|open|] == open;
    st2 := if p.Some? then Step(g, a, st, Release(p.value)) else st;
    var ops := CallsFrom(g, a, st2, open, more);
    if p.Some? { assert ([Release(p.value)] + ops)[1..] == ops; }
  }

  /** The calls of any script, from a heap whose only free block is its last: blocks and live allocations
      end as they began, unless the split test as written has torn the heap. */
  lemma NestedCallsRestore(g: Guard, a: nat, maxSize: nat, bs: seq<Block>, live: map<nat, nat>, s: Script)
    requires StackShaped(bs) && Accounted(a, maxSize, Running(bs, live))
    ensures var st := Run(g, a, Running(bs, live), Calls(g, a, Running(bs, live), s));
      st == Running(bs, live) || (g == AsWritten && st == TornHeap)
  {
    var st0 := Running(bs, live);
    NestedRunRestores(g, a, bs, s);
    var st, after := ScriptIsRun(g, a, bs, live, s, [], []);
    assert Marks(s) + [] == Marks(s);
    assert RunMarks(g, a, st, [], []) == st;
    RunAccounted(g, a, maxSize, st0, Calls(g, a, st0, s));
    if st.Running? {
      assert forall p :: p in after <==> p in live;
      assert after == live;
    }
  }

  /** Nested calls on a fresh heap leave it fresh. */
  lemma NestedCallsLeaveFresh(g: Guard, a: nat, maxSize: nat, s: Script)
    requires maxSize >= 16
    ensures var st := Run(g, a, Fresh(maxSize), Calls(g, a, Fresh(maxSize), s));
      st == Running([Block(maxSize - 16, false)], map[]) || (g == AsWritten && st == TornHeap)
  {
    FreshAccounted(a, maxSize);
    NestedCallsRestore(g, a, maxSize, [Block(maxSize - 16, false)], map[], s);
  }
}
