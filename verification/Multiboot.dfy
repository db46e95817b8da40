/** The search for the Multiboot header, with the loop condition as the code has it. */
module Multiboot {
  import opened Bytes

  const MULTIBOOT_SEARCH := 8192
  const HEADER_ALIGN := 4
  const MULTIBOOT_MAGIC := 0x1BADB002
  const LAST_OFFSET := 8180       // MULTIBOOT_SEARCH - 12
  const CYCLE := 0x4000_0000      // steps of 4 after which a 32-bit pointer is back where it was

  /** All of the 32-bit address space. */
  type Memory = nat -> byte

  function WordAt(m: Memory, a: nat): (w: nat)
    ensures w < WORD
  {
    Le32([m(a % WORD), m((a + 1) % WORD), m((a + 2) % WORD), m((a + 3) % WORD)], 0)
  }

  /** Magic, and magic + flags + checksum is zero in 32 bits. */
  predicate IsHeader(m: Memory, a: nat) {
    WordAt(m, a) == MULTIBOOT_MAGIC && (WordAt(m, a) + WordAt(m, a + 4) + WordAt(m, a + 8)) % WORD == 0
  }

  /** Which addresses hold a header. */
  type Hits = nat -> bool

  function Headers(m: Memory): Hits {
    (a: nat) => IsHeader(m, a)
  }

  datatype Bounds = AsWritten | Intended

  /** Either bound keeps the loop going as written; both have to hold as intended. The bounds are
      32-bit pointers. */
  predicate GoesOn(b: Bounds, ptr: nat, size: nat, h: nat) {
    var last, end := (ptr + LAST_OFFSET) % WORD, (ptr + size) % WORD;
    match b
    case AsWritten => h <= last || h >= end
    case Intended => h <= last && h < end
  }

  /** Files for which one of the bounds written holds at every address the pointer takes: those of at
      most 8184 bytes, and those whose end is past the last address. */
  predicate Unbounded(ptr: nat, size: nat) {
    size <= 8184 || ptr + size >= WORD
  }

  lemma EndWraps(ptr: nat, size: nat)
    requires ptr < WORD && size < WORD
    ensures (ptr + size) % WORD == if ptr + size < WORD then ptr + size else ptr + size - WORD
  {
  }

  /** The pointer after t steps. */
  function Pointer(ptr: nat, t: nat): (h: nat)
    requires ptr < WORD
    ensures h < WORD
  {
    if t == 0 then ptr else (Pointer(ptr, t - 1) + HEADER_ALIGN) % WORD
  }

  lemma {:induction false} PointerIs(ptr: nat, t: nat)
    requires ptr < WORD
    ensures Pointer(ptr, t) == (ptr + HEADER_ALIGN * t) % WORD
    decreases t
  {
    if t > 0 {
      PointerIs(ptr, t - 1);
      StepThenWrap(ptr + HEADER_ALIGN * (t - 1));
    }
  }

  lemma StepThenWrap(x: nat)
    ensures (x % WORD + HEADER_ALIGN) % WORD == (x + HEADER_ALIGN) % WORD
  {
  }

  /** Endless: the pointer came round without an answer, and will for ever. */
  datatype Answer = Found(h: nat) | NotFound | Endless

  ghost function Answered(b: Bounds, hit: Hits, ptr: nat, size: nat, t: nat): Answer
    requires t <= CYCLE && ptr < WORD
    decreases CYCLE - t
  {
    var h := Pointer(ptr, t);
    if t == CYCLE then Endless
    else if !GoesOn(b, ptr, size, h) then NotFound
    else if hit(h) then Found(h)
    else Answered(b, hit, ptr, size, t + 1)
  }

  method Search(b: Bounds, m: Memory, ptr: nat, size: nat) returns (r: Answer)
    requires ptr < WORD && size < WORD
    ensures r == Answered(b, Headers(m), ptr, size, 0)
  {
    r := SearchFor(b, Headers(m), ptr, size);
  }

  /** The loop. The pointer has nowhere new to go after a full cycle, where the model stops. */
  method SearchFor(b: Bounds, hit: Hits, ptr: nat, size: nat) returns (r: Answer)
    requires ptr < WORD && size < WORD
    ensures r == Answered(b, hit, ptr, size, 0)
  {
    var h, t := ptr, 0;
    while t < CYCLE && GoesOn(b, ptr, size, h)
      invariant 0 <= t <= CYCLE && h == Pointer(ptr, t)
      invariant Answered(b, hit, ptr, size, 0) == Answered(b, hit, ptr, size, t)
    {
      if hit(h) { return Found(h); }
      h := (h + HEADER_ALIGN) % WORD;
      t := t + 1;
    }
    return if t == CYCLE then Endless else NotFound;
  }

  /** Nothing at the first n aligned offsets. */
  ghost predicate NoneBefore(hit: Hits, ptr: nat, n: nat) {
    forall i :: 0 <= i < n ==> !hit(ptr + HEADER_ALIGN * i)
  }

  /** The answer the specification asks for: the first header at one of the first n offsets. */
  ghost predicate FirstOf(hit: Hits, ptr: nat, n: nat, r: Answer) {
    match r
    case Found(h) => exists i :: 0 <= i < n && FirstAt(hit, ptr, i, h)
    case NotFound => NoneBefore(hit, ptr, n)
    case Endless => false
  }

  ghost predicate FirstAt(hit: Hits, ptr: nat, i: nat, h: nat) {
    h == ptr + HEADER_ALIGN * i && hit(h) && NoneBefore(hit, ptr, i)
  }

  /** If the loop runs through exactly the first n offsets, the answer is the first header there. */
  lemma {:induction false} AnswersFirst(b: Bounds, hit: Hits, ptr: nat, size: nat, n: nat, t: nat)
    requires t <= n < CYCLE && ptr + HEADER_ALIGN * n < WORD
    requires forall i :: 0 <= i < n ==> GoesOn(b, ptr, size, ptr + HEADER_ALIGN * i)
    requires !GoesOn(b, ptr, size, ptr + HEADER_ALIGN * n)
    requires NoneBefore(hit, ptr, t)
    ensures FirstOf(hit, ptr, n, Answered(b, hit, ptr, size, t))
    decreases n - t
  {
    var h := ptr + HEADER_ALIGN * t;
    PointerIs(ptr, t);
    assert Pointer(ptr, t) == h;
    if t < n {
      if hit(h) {
        assert FirstAt(hit, ptr, t, h);
      } else {
        AnswersFirst(b, hit, ptr, size, n, t + 1);
      }
    }
  }

  /** As written, for a file over 8184 bytes that ends inside the address space: the first header
      within the 8192-byte window. */
  lemma LargeFilesAreSearched(m: Memory, ptr: nat, size: nat)
    requires ptr + 8192 < WORD && !Unbounded(ptr, size)
    ensures FirstOf(Headers(m), ptr, 2046, Answered(AsWritten, Headers(m), ptr, size, 0))
  {
    AnswersFirst(AsWritten, Headers(m), ptr, size, 2046, 0);
  }

  /** As written, in the last 8180 bytes of the address space, the bound of the window wraps: no file
      that ends there is searched at all. */
  lemma HighFilesAreSkipped(m: Memory, ptr: nat, size: nat)
    requires ptr < 0x1_0000_0000 <= ptr + 8180 && 0 < size && ptr + size < 0x1_0000_0000
    ensures Answered(AsWritten, Headers(m), ptr, size, 0) == NotFound
  {
    EndWraps(ptr, 8180);
    EndWraps(ptr, size);
  }

  /** As intended, for every file that ends inside the address space: the first header that starts
      inside both window and file. */
  lemma IntendedSearchesEveryFile(m: Memory, ptr: nat, size: nat)
    requires ptr + 8192 < WORD && ptr + size < WORD
    ensures var inFile := (size + 3) / 4;
      var n := if inFile <= 2045 then inFile else 2046;
      FirstOf(Headers(m), ptr, n, Answered(Intended, Headers(m), ptr, size, 0))
  {
    var inFile := (size + 3) / 4;
    var n := if inFile <= 2045 then inFile else 2046;
    AnswersFirst(Intended, Headers(m), ptr, size, n, 0);
  }

  /** And for a file that does not, it looks at nothing: both bounds in the condition are not enough. */
  lemma IntendedSkipsWrappedFiles(m: Memory, ptr: nat, size: nat)
    requires ptr < WORD && size < WORD && ptr + size >= WORD
    ensures Answered(Intended, Headers(m), ptr, size, 0) == NotFound
  {
    EndWraps(ptr, size);
  }

  /** Nothing at the next steps of the pointer, up to the one it is at after n of them. */
  ghost predicate NoneOnTheWay(hit: Hits, ptr: nat, t: nat, n: nat)
    requires ptr < WORD
  {
    forall u :: t <= u < n ==> !hit(Pointer(ptr, u))
  }

  /** As written, for those files, on any memory: the search goes round the whole address space,
      takes the first header it meets there, and never ends if there is none. */
  lemma {:induction false} UnboundedSearchesEverything(hit: Hits, ptr: nat, size: nat, t: nat)
    requires t <= CYCLE && ptr + MULTIBOOT_SEARCH < WORD && size < WORD && Unbounded(ptr, size)
    ensures match Answered(AsWritten, hit, ptr, size, t)
      case Found(h) => exists u :: t <= u < CYCLE && h == Pointer(ptr, u) && hit(h) && NoneOnTheWay(hit, ptr, t, u)
      case NotFound => false
      case Endless => NoneOnTheWay(hit, ptr, t, CYCLE)
    decreases CYCLE - t
  {
    if t < CYCLE {
      AlwaysGoesOn(ptr, size, t);
      if hit(Pointer(ptr, t)) {
        assert NoneOnTheWay(hit, ptr, t, t);
      } else {
        UnboundedSearchesEverything(hit, ptr, size, t + 1);
        var r := Answered(AsWritten, hit, ptr, size, t + 1);
        if r.Found? {
          var u :| t + 1 <= u < CYCLE && r.h == Pointer(ptr, u) && hit(r.h) && NoneOnTheWay(hit, ptr, t + 1, u);
          assert NoneOnTheWay(hit, ptr, t, u);
        }
      }
    }
  }

  lemma AlwaysGoesOn(ptr: nat, size: nat, t: nat)
    requires ptr + MULTIBOOT_SEARCH < WORD && size < WORD && Unbounded(ptr, size)
    ensures GoesOn(AsWritten, ptr, size, Pointer(ptr, t))
  {
    EndWraps(ptr, size);
    PointerKeepsStride(ptr, t);
  }

  /** The pointer never lands strictly between the last offset and the next one. */
  lemma PointerKeepsStride(ptr: nat, t: nat)
    requires ptr < WORD
    ensures Pointer(ptr, t) <= ptr + LAST_OFFSET || Pointer(ptr, t) >= ptr + LAST_OFFSET + HEADER_ALIGN
  {
    PointerAligned(ptr, t);
    var off := Pointer(ptr, t) - ptr;
    assert off % 4 == 0;
    assert off <= 8180 || off >= 8184;
  }

  lemma {:induction false} PointerAligned(ptr: nat, t: nat)
    requires ptr < WORD
    ensures (Pointer(ptr, t) - ptr) % HEADER_ALIGN == 0
  {
    if t > 0 {
      PointerAligned(ptr, t - 1);
      var h := Pointer(ptr, t - 1);
      assert Pointer(ptr, t) == h + HEADER_ALIGN || Pointer(ptr, t) == h + HEADER_ALIGN - WORD;
      StepAligned(h - ptr);
    }
  }

  lemma StepAligned(off: int)
    requires off % HEADER_ALIGN == 0
    ensures (off + HEADER_ALIGN) % HEADER_ALIGN == 0 && (off + HEADER_ALIGN - WORD) % HEADER_ALIGN == 0
  {
    var k := off / HEADER_ALIGN;
    assert off + HEADER_ALIGN == HEADER_ALIGN * (k + 1);
    assert off + HEADER_ALIGN - WORD == HEADER_ALIGN * (k + 1 - CYCLE);
  }

  /** The search as written comes to no end exactly for those files, and only if there is no header at
      any address a multiple of 4 away from theirs, in all of memory. */
  lemma EndlessIff(m: Memory, ptr: nat, size: nat)
    requires ptr + MULTIBOOT_SEARCH < WORD && size < WORD
    ensures Answered(AsWritten, Headers(m), ptr, size, 0) == Endless <==>
      Unbounded(ptr, size) && NoneOnTheWay(Headers(m), ptr, 0, CYCLE)
  {
    if Unbounded(ptr, size) {
      UnboundedSearchesEverything(Headers(m), ptr, size, 0);
    } else {
      LargeFilesAreSearched(m, ptr, size);
    }
  }

  /** It comes to an end on every memory exactly for files over 8184 bytes that end inside the
      address space. */
  lemma EndsIffBounded(ptr: nat, size: nat)
    requires ptr + MULTIBOOT_SEARCH < WORD && size < WORD
    ensures (forall m: Memory :: Answered(AsWritten, Headers(m), ptr, size, 0) != Endless) <==>
      size > 8184 && ptr + size < 0x1_0000_0000
  {
    forall m: Memory
      ensures !Unbounded(ptr, size) ==> Answered(AsWritten, Headers(m), ptr, size, 0) != Endless
    {
      EndlessIff(m, ptr, size);
    }
    var zeros: Memory := _ => 0;
    forall u | 0 <= u < CYCLE ensures !Headers(zeros)(Pointer(ptr, u)) {
      assert WordAt(zeros, Pointer(ptr, u)) == 0;
    }
    EndlessIff(zeros, ptr, size);
  }

  // ---- headers as they are laid out ----

  /** The 32-bit word w is at address a; addresses wrap. */
  ghost predicate HasWord(m: Memory, a: nat, w: nat) {
    w < 0x1_0000_0000 && forall k :: 0 <= k < 4 ==> m((a + k) % 0x1_0000_0000) == Enc32(w)[k]
  }

  lemma BytesAt(m: Memory, a: nat) returns (e: seq<byte>)
    ensures |e| == 4 && WordAt(m, a) == Le32(e, 0) && forall k :: 0 <= k < 4 ==> e[k] == m((a + k) % WORD)
  {
    e := [m(a % WORD), m((a + 1) % WORD), m((a + 2) % WORD), m((a + 3) % WORD)];
  }

  lemma WordIs(m: Memory, a: nat, w: nat)
    ensures WordAt(m, a) == w <==> HasWord(m, a, w)
  {
    var e := BytesAt(m, a);
    Enc32Iff(e, w);
    SameBytes(e, Enc32(w));
  }

  lemma SameBytes(e: seq<byte>, f: seq<byte>)
    requires |e| == |f| == 4
    ensures e == f <==> forall k :: 0 <= k < 4 ==> e[k] == f[k]
  {
  }

  /** Whatever the three words are: they are a header iff the first one is the magic number and their
      32-bit sum is zero. */
  lemma HeaderIff(m: Memory, a: nat, magic: nat, flags: nat, checksum: nat)
    requires HasWord(m, a, magic) && HasWord(m, a + 4, flags) && HasWord(m, a + 8, checksum)
    ensures IsHeader(m, a) <==> magic == 0x1BADB002 && (magic + flags + checksum) % 0x1_0000_0000 == 0
  {
    WordIs(m, a, magic);
    WordIs(m, a + 4, flags);
    WordIs(m, a + 8, checksum);
  }

  /** The magic number and these two words, at address a. */
  ghost predicate HasHeader(m: Memory, a: nat, flags: nat, checksum: nat) {
    HasWord(m, a, 0x1BADB002) && HasWord(m, a + 4, flags) && HasWord(m, a + 8, checksum)
  }

  ghost predicate NoMagicBefore(m: Memory, ptr: nat, n: nat) {
    forall i :: 0 <= i < n ==> !HasWord(m, ptr + 4 * i, 0x1BADB002)
  }

  /** A file over 8184 bytes whose first magic number, at an aligned offset of at most 8180, has a
      header's flags and checksum after it, is given that header. */
  lemma FirstMagicIsFound(m: Memory, ptr: nat, size: nat, n: nat, flags: nat, checksum: nat)
    requires ptr + 8192 < 0x1_0000_0000 && size > 8184 && ptr + size < 0x1_0000_0000 && 4 * n <= 8180
    requires HasHeader(m, ptr + 4 * n, flags, checksum) && NoMagicBefore(m, ptr, n)
    requires (0x1BADB002 + flags + checksum) % 0x1_0000_0000 == 0
    ensures Answered(AsWritten, Headers(m), ptr, size, 0) == Found(ptr + 4 * n)
  {
    FirstMagic(m, ptr, n, flags, checksum);
    FirstHitIsFound(m, ptr, size, n);
  }

  lemma FirstMagic(m: Memory, ptr: nat, n: nat, flags: nat, checksum: nat)
    requires HasHeader(m, ptr + 4 * n, flags, checksum) && NoMagicBefore(m, ptr, n)
    requires (0x1BADB002 + flags + checksum) % 0x1_0000_0000 == 0
    ensures FirstAt(Headers(m), ptr, n, ptr + 4 * n)
  {
    HeaderHit(m, ptr + 4 * n, flags, checksum);
    NoMagic(m, ptr, n);
  }

  lemma FirstHitIsFound(m: Memory, ptr: nat, size: nat, n: nat)
    requires ptr + 8192 < WORD && !Unbounded(ptr, size) && n < 2046
    requires FirstAt(Headers(m), ptr, n, ptr + 4 * n)
    ensures Answered(AsWritten, Headers(m), ptr, size, 0) == Found(ptr + 4 * n)
  {
    LargeFilesAreSearched(m, ptr, size);
    FirstIs(Headers(m), ptr, 2046, n, Answered(AsWritten, Headers(m), ptr, size, 0));
  }

  lemma HeaderHit(m: Memory, a: nat, flags: nat, checksum: nat)
    requires HasHeader(m, a, flags, checksum)
    requires (0x1BADB002 + flags + checksum) % 0x1_0000_0000 == 0
    ensures Headers(m)(a)
  {
    HeaderIff(m, a, 0x1BADB002, flags, checksum);
  }

  lemma NoMagic(m: Memory, ptr: nat, n: nat)
    requires NoMagicBefore(m, ptr, n)
    ensures NoneBefore(Headers(m), ptr, n)
  {
    forall i | 0 <= i < n ensures !Headers(m)(ptr + HEADER_ALIGN * i) {
      var a := ptr + 4 * i;
      assert !HasWord(m, a, 0x1BADB002);
      WordIs(m, a, 0x1BADB002);
    }
  }

  lemma FirstIs(hit: Hits, ptr: nat, n: nat, i: nat, r: Answer)
    requires FirstOf(hit, ptr, n, r) && i < n && FirstAt(hit, ptr, i, ptr + 4 * i)
    ensures r == Found(ptr + 4 * i)
  {
    assert hit(ptr + HEADER_ALIGN * i);
    if r.Found? {
      var j :| 0 <= j < n && FirstAt(hit, ptr, j, r.h);
      assert j >= i;
    }
  }

  /** The repository's own kernel header: flags 3. */
  lemma KernelHeaderIsFound(m: Memory, ptr: nat, size: nat, n: nat)
    requires ptr + 8192 < 0x1_0000_0000 && size > 8184 && ptr + size < 0x1_0000_0000 && 4 * n <= 8180
    requires HasHeader(m, ptr + 4 * n, 3, 0xE4524FFB) && NoMagicBefore(m, ptr, n)
    ensures Answered(AsWritten, Headers(m), ptr, size, 0) == Found(ptr + 4 * n)
  {
    FirstMagicIsFound(m, ptr, size, n, 3, 0xE4524FFB);
  }

  function EncodeHeader(flags: nat, checksum: nat): (e: seq<byte>)
    ensures |e| == 12
  {
    Enc32(0x1BADB002) + Enc32(flags) + Enc32(checksum)
  }

  lemma EncodedHeaderIs(m: Memory, a: nat, flags: nat, checksum: nat)
    requires flags < WORD && checksum < WORD && a + 12 <= WORD
    requires forall k :: 0 <= k < 12 ==> m(a + k) == EncodeHeader(flags, checksum)[k]
    ensures HasHeader(m, a, flags, checksum)
  {
    var e := EncodeHeader(flags, checksum);
    forall k | 0 <= k < 4
      ensures m((a + k) % WORD) == Enc32(0x1BADB002)[k] && m((a + 4 + k) % WORD) == Enc32(flags)[k]
        && m((a + 8 + k) % WORD) == Enc32(checksum)[k]
    {
      Unwrapped(a + k);
      Unwrapped(a + 4 + k);
      Unwrapped(a + 8 + k);
      assert m(a + k) == e[k];
      assert m(a + (4 + k)) == e[4 + k] && m(a + (8 + k)) == e[8 + k];
    }
  }

  /** All zeros but for one Multiboot header at x. */
  function OnlyHeaderAt(x: nat, flags: nat, checksum: nat): Memory {
    (a: nat) => if x <= a < x + 12 then EncodeHeader(flags, checksum)[a - x] else 0
  }

  lemma NoHeaderBelow(x: nat, flags: nat, checksum: nat, a: nat)
    requires x + 12 <= WORD && a < x
    ensures !IsHeader(OnlyHeaderAt(x, flags, checksum), a)
  {
    NoMagicBelow(x, flags, checksum, a);
    WordIs(OnlyHeaderAt(x, flags, checksum), a, 0x1BADB002);
  }

  lemma NoMagicBelow(x: nat, flags: nat, checksum: nat, a: nat)
    requires x + 12 <= WORD && a < x
    ensures !HasWord(OnlyHeaderAt(x, flags, checksum), a, 0x1BADB002)
  {
    var m := OnlyHeaderAt(x, flags, checksum);
    Unwrapped(a);
    assert m((a + 0) % WORD) == 0 && Enc32(0x1BADB002)[0] == 2;
  }

  function ChecksumFor(flags: nat): (checksum: nat)
    requires flags < WORD
    ensures checksum < WORD && (0x1BADB002 + flags + checksum) % WORD == 0
  {
    if 0x1BADB002 + flags <= WORD then (WORD - 0x1BADB002 - flags) % WORD else 2 * WORD - 0x1BADB002 - flags
  }

  lemma LoneHeader(x: nat, flags: nat) returns (m: Memory, checksum: nat)
    requires x + 12 <= WORD && flags < WORD
    ensures m == OnlyHeaderAt(x, flags, checksum) && HasHeader(m, x, flags, checksum)
    ensures (0x1BADB002 + flags + checksum) % 0x1_0000_0000 == 0
  {
    checksum := ChecksumFor(flags);
    m := OnlyHeaderAt(x, flags, checksum);
    EncodedHeaderIs(m, x, flags, checksum);
  }

  lemma LowestHeader(x: nat, flags: nat) returns (m: Memory, checksum: nat)
    requires x + 12 <= WORD && flags < WORD
    ensures Headers(m)(x) && (forall a: nat :: Headers(m)(a) ==> a >= x)
    ensures HasHeader(m, x, flags, checksum)
  {
    m, checksum := LoneHeader(x, flags);
    HeaderHit(m, x, flags, checksum);
    forall a: nat | a < x ensures !Headers(m)(a) { NoHeaderBelow(x, flags, checksum, a); }
  }

  /** Wherever in the window it is, and whatever its flags: in a memory with nothing else the header is
      found. */
  lemma LoneHeaderIsFound(ptr: nat, size: nat, n: nat, flags: nat) returns (m: Memory, checksum: nat)
    requires ptr + 8192 < 0x1_0000_0000 && size > 8184 && ptr + size < 0x1_0000_0000 && 4 * n <= 8180
    requires flags < 0x1_0000_0000
    ensures HasHeader(m, ptr + 4 * n, flags, checksum)
    ensures Answered(AsWritten, Headers(m), ptr, size, 0) == Found(ptr + 4 * n)
  {
    m, checksum := LoneHeader(ptr + 4 * n, flags);
    forall i | 0 <= i < n ensures !HasWord(m, ptr + 4 * i, 0x1BADB002) {
      NoMagicBelow(ptr + 4 * n, flags, checksum, ptr + 4 * i);
    }
    FirstMagicIsFound(m, ptr, size, n, flags, checksum);
  }

  /** With one header on the way, at step n, such a file is given that one. */
  lemma UnboundedFinds(hit: Hits, ptr: nat, size: nat, n: nat)
    requires ptr + MULTIBOOT_SEARCH < WORD && size < WORD && Unbounded(ptr, size) && n < CYCLE
    requires hit(Pointer(ptr, n)) && NoneOnTheWay(hit, ptr, 0, n)
    ensures Answered(AsWritten, hit, ptr, size, 0) == Found(Pointer(ptr, n))
  {
    UnboundedSearchesEverything(hit, ptr, size, 0);
    var r := Answered(AsWritten, hit, ptr, size, 0);
    assert r.Found?;
    var u :| 0 <= u < CYCLE && r.h == Pointer(ptr, u) && hit(r.h) && NoneOnTheWay(hit, ptr, 0, u);
    assert u == n;
  }

  /** So it is given a header n steps on if there is none at a lower address. */
  lemma LowestIsFound(hit: Hits, ptr: nat, size: nat, n: nat, h: nat)
    requires ptr + MULTIBOOT_SEARCH < WORD && size < WORD && Unbounded(ptr, size)
    requires h == ptr + HEADER_ALIGN * n && h < WORD && hit(h)
    requires forall a: nat :: hit(a) ==> a >= h
    ensures Answered(AsWritten, hit, ptr, size, 0) == Found(h)
  {
    StraightOn(ptr, n);
    forall u | 0 <= u < n ensures !hit(Pointer(ptr, u)) {
      StraightOn(ptr, u);
    }
    UnboundedFinds(hit, ptr, size, n);
  }

  /** A small file can be given a header that is no part of it: one further on in the window. */
  lemma HeaderOutsideSmallFile(ptr: nat, size: nat, flags: nat) returns (m: Memory, checksum: nat)
    requires ptr + 8192 < WORD && size <= 8180 && flags < WORD
    ensures var h := ptr + 8180;
      && Answered(AsWritten, Headers(m), ptr, size, 0) == Found(h) && h >= ptr + size
      && HasHeader(m, h, flags, checksum)
  {
    m, checksum := LowestHeader(ptr + 8180, flags);
    LastInWindow(Headers(m), ptr, size);
  }

  lemma LastInWindow(hit: Hits, ptr: nat, size: nat)
    requires ptr + 8192 < WORD && size <= 8180
    requires hit(ptr + 8180) && forall a: nat :: hit(a) ==> a >= ptr + 8180
    ensures Answered(AsWritten, hit, ptr, size, 0) == Found(ptr + 8180)
  {
    LowestIsFound(hit, ptr, size, 2045, ptr + 8180);
  }

  lemma StraightOn(ptr: nat, u: nat)
    requires ptr + HEADER_ALIGN * u < WORD
    ensures Pointer(ptr, u) == ptr + HEADER_ALIGN * u
  {
    PointerIs(ptr, u);
  }
}
