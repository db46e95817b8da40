/** The volume as data: geometry, cluster chains, directory entries and names. */
module Fat32Model {
  import opened Bytes
  import opened StringC
  import opened DiskRead

  const CLUSTER_BITS := 0x1000_0000   // a FAT32 entry is 28 bits wide
  const ENTRY_SIZE := 32
  const NAME_BUFFER := 13
  const RESULT_SIZE := 12             // readDirResult and fat32_fileResult alike
  const SPACE: byte := 32
  const DOT: byte := 46
  const ATTR_SUBDIRECTORY := 0x10
  const ATTR_LFN := 0x0f
  const LFN_NAME: seq<byte> := [76, 70, 78, 0]  // "LFN"

  // ---- geometry ----

  datatype Geometry = Geometry(
    bytesPerSector: nat, sectorsPerCluster: nat, reserved: nat, fats: nat, sectorsPerFat: nat, root: nat)

  function DecodeGeometry(vbr: seq<byte>): Geometry
    requires |vbr| == SECTOR_SIZE
  {
    Geometry(Le16(vbr, 11), vbr[13], Le16(vbr, 14), vbr[16], Le32(vbr, 36), Le32(vbr, 44))
  }

  /** The size readDir allocates for a directory. */
  function ClusterBytes(g: Geometry): nat {
    g.sectorsPerCluster * g.bytesPerSector
  }

  /** A mounted volume: where it starts, its geometry, and the first copy of its FAT. */
  datatype Volume = Volume(part: nat, geo: Geometry, fat: seq<byte>)

  /** First sector of a cluster, in 32-bit arithmetic. */
  function ClusterLba(v: Volume, c: nat): (lba: nat)
    ensures lba < WORD
  {
    LbaIn(v.geo, v.part, c)
  }

  function LbaIn(g: Geometry, part: nat, c: nat): (lba: nat)
    ensures lba < WORD
  {
    ((c - 2) * g.sectorsPerCluster + g.reserved + g.fats * g.sectorsPerFat + part) % WORD
  }

  /** Whatever wraps, clusters follow one another. */
  lemma ClustersFollow(v: Volume, c: nat)
    ensures ClusterLba(v, c + 1) == (ClusterLba(v, c) + v.geo.sectorsPerCluster) % 0x1_0000_0000
  {
    var (x, spc) := (c - 2, v.geo.sectorsPerCluster);
    assert (x + 1) * spc == x * spc + spc;
    StepInWord(x * spc + v.geo.reserved + v.geo.fats * v.geo.sectorsPerFat + v.part, spc);
  }

  lemma RepeatsInWord(n: nat, k: nat)
    requires n < WORD
    ensures (n + WORD * k) % WORD == n
  {
  }

  lemma StepInWord(n: int, k: nat)
    ensures (n + k) % WORD == (n % WORD + k) % WORD
  {
  }

  // ---- the FAT ----

  /** Where entry c is, as a 32-bit offset: the first cluster of a file is not masked to 28 bits. */
  function FatOffset(c: nat): nat {
    4 * c % WORD
  }

  lemma OffsetsRepeat(c: nat, k: nat)
    requires c < 0x4000_0000
    ensures FatOffset(c + 0x4000_0000 * k) == 4 * c
  {
    RepeatsInWord(4 * c, k);
  }

  predicate InFat(fat: seq<byte>, c: nat) {
    FatOffset(c) + 4 <= |fat|
  }

  function FatEntry(fat: seq<byte>, c: nat): (e: nat)
    requires InFat(fat, c)
    ensures e < CLUSTER_BITS
  {
    Le32(fat, FatOffset(c)) % CLUSTER_BITS
  }

  predicate IsClusterEnd(c: nat) {
    0xFFF_FFF8 <= c % CLUSTER_BITS <= 0xFFF_FFFF
  }

  /** readDir's own test: high 24 bits all set, or low nibble at least 8. */
  predicate DirTestAccepts(c: nat) {
    c - c % 16 == 0xFFF_FFF0 || c % 16 >= 8
  }

  /** The end marks are the last eight values of 28 bits; readDir takes them for what they are, and
      also 0xFFFFFF0..7 and every cluster number whose low nibble is 8 or more. */
  lemma DirTestExactly(c: nat)
    requires c < 0x1000_0000
    ensures IsClusterEnd(c) <==> 0xFFF_FFF8 <= c
    ensures IsClusterEnd(c) ==> DirTestAccepts(c)
    ensures DirTestAccepts(c) && !IsClusterEnd(c) <==>
      0xFFF_FFF0 <= c <= 0xFFF_FFF7 || (c < 0xFFF_FFF0 && c % 16 >= 8)
  {
  }

  /** The four bits above those do not matter. */
  lemma EndMarksRepeat(c: nat, high: nat)
    requires c < 0x1000_0000
    ensures IsClusterEnd(c + 0x1000_0000 * high) <==> 0xFFF_FFF8 <= c
  {
    assert (c + 0x1000_0000 * high) % 0x1000_0000 == c;
  }

  /** cs is the chain of clusters from c up to an end mark. */
  ghost predicate IsClusterChain(fat: seq<byte>, c: nat, cs: seq<nat>)
    decreases cs
  {
    if cs == [] then IsClusterEnd(c)
    else cs[0] == c && !IsClusterEnd(c) && InFat(fat, c) && IsClusterChain(fat, FatEntry(fat, c), cs[1..])
  }

  /** Follow the FAT for at most fuel clusters. */
  function Walk(fat: seq<byte>, c: nat, fuel: nat): Option<seq<nat>>
    decreases fuel
  {
    if IsClusterEnd(c) then Some([])
    else if fuel == 0 || !InFat(fat, c) then None
    else
      match Walk(fat, FatEntry(fat, c), fuel - 1)
      case None => None
      case Some(cs) => Some([c] + cs)
  }

  lemma {:induction false} WalkFindsChain(fat: seq<byte>, c: nat, fuel: nat, cs: seq<nat>)
    ensures Walk(fat, c, fuel) == Some(cs) <==> IsClusterChain(fat, c, cs) && |cs| <= fuel
    decreases fuel
  {
    if IsClusterEnd(c) {
    } else if fuel > 0 && InFat(fat, c) {
      if cs != [] && cs[0] == c {
        WalkFindsChain(fat, FatEntry(fat, c), fuel - 1, cs[1..]);
        assert [c] + cs[1..] == cs;
        assert forall ds: seq<nat> :: [c] + ds == cs ==> ds == cs[1..] by {
          forall ds: seq<nat> | [c] + ds == cs ensures ds == cs[1..] { assert ([c] + ds)[1..] == ds; }
        }
      }
    }
  }

  lemma {:induction false} ChainIsUnique(fat: seq<byte>, c: nat, cs: seq<nat>, ds: seq<nat>)
    requires IsClusterChain(fat, c, cs) && IsClusterChain(fat, c, ds)
    ensures cs == ds
    decreases cs
  {
    if cs != [] && ds != [] {
      ChainIsUnique(fat, FatEntry(fat, c), cs[1..], ds[1..]);
      assert cs == [c] + cs[1..] && ds == [c] + ds[1..];
    }
  }

  lemma {:induction false} ChainSuffix(fat: seq<byte>, c: nat, cs: seq<nat>, i: nat)
    requires IsClusterChain(fat, c, cs) && i < |cs|
    ensures InFat(fat, cs[i]) && !IsClusterEnd(cs[i]) && IsClusterChain(fat, cs[i], cs[i..])
    decreases cs
  {
    if i == 0 {
      assert cs[0..] == cs;
    } else {
      ChainSuffix(fat, FatEntry(fat, c), cs[1..], i - 1);
      assert cs[1..][i - 1..] == cs[i..];
    }
  }

  /** Two places of a chain never read the same FAT entry, let alone name the same cluster. */
  lemma EntriesReadOnce(fat: seq<byte>, c: nat, cs: seq<nat>, i: nat, j: nat)
    requires IsClusterChain(fat, c, cs) && i < j < |cs|
    ensures FatOffset(cs[i]) != FatOffset(cs[j])
  {
    ChainSuffix(fat, c, cs, i);
    ChainSuffix(fat, c, cs, j);
    if FatOffset(cs[i]) == FatOffset(cs[j]) {
      ChainIsUnique(fat, FatEntry(fat, cs[i]), cs[i..][1..], cs[j..][1..]);
      assert false;
    }
  }

  /** A chain that ends visits no cluster twice, and is no longer than the FAT has entries. */
  lemma ChainVisitsDistinct(fat: seq<byte>, c: nat, cs: seq<nat>)
    requires IsClusterChain(fat, c, cs)
    ensures forall i, j :: 0 <= i < j < |cs| ==> cs[i] != cs[j]
    ensures |cs| <= |fat| / 4
  {
    var slots := seq(|cs|, i requires 0 <= i < |cs| => FatOffset(cs[i]) / 4);
    forall i, j | 0 <= i < j < |cs| ensures cs[i] != cs[j] && slots[i] != slots[j] {
      EntriesReadOnce(fat, c, cs, i, j);
      OffsetsAreAligned(cs[i]);
      OffsetsAreAligned(cs[j]);
    }
    forall i | 0 <= i < |cs| ensures slots[i] < |fat| / 4 {
      ChainSuffix(fat, c, cs, i);
      OffsetsAreAligned(cs[i]);
    }
    Pigeonhole(slots, |fat| / 4);
  }

  lemma OffsetsAreAligned(c: nat)
    ensures FatOffset(c) == 4 * (FatOffset(c) / 4)
  {
    assert 4 * c % WORD == 4 * (c % 0x4000_0000) by { Quarter(c); }
  }

  lemma Quarter(c: nat)
    ensures 4 * c % WORD == 4 * (c % 0x4000_0000)
  {
    var q := c / 0x4000_0000;
    assert 4 * c == WORD * q + 4 * (c % 0x4000_0000);
  }

  lemma {:induction false} Pigeonhole(cs: seq<nat>, n: nat)
    requires forall i :: 0 <= i < |cs| ==> cs[i] < n
    requires forall i, j :: 0 <= i < j < |cs| ==> cs[i] != cs[j]
    ensures |cs| <= n
    decreases n
  {
    if cs != [] {
      assert cs[0] < n;
      if i :| 0 <= i < |cs| && cs[i] == n - 1 {
        var others := cs[..i] + cs[i + 1..];
        assert forall k :: 0 <= k < |others| ==> others[k] == if k < i then cs[k] else cs[k + 1];
        Pigeonhole(others, n - 1);
      } else {
        Pigeonhole(cs, n - 1);
      }
    }
  }

  /** Whether the chain from c ends at all is settled within as many steps as the FAT has entries. */
  lemma WalkEndsIffBounded(fat: seq<byte>, c: nat)
    ensures (exists cs :: IsClusterChain(fat, c, cs)) <==> Walk(fat, c, |fat| / 4).Some?
  {
    if cs :| IsClusterChain(fat, c, cs) {
      ChainVisitsDistinct(fat, c, cs);
      WalkFindsChain(fat, c, |fat| / 4, cs);
    }
    if Walk(fat, c, |fat| / 4).Some? {
      var cs := Walk(fat, c, |fat| / 4).value;
      WalkFindsChain(fat, c, |fat| / 4, cs);
    }
  }

  // ---- names ----

  /** The bytes before the first space. */
  function Stem(name: seq<byte>): (r: seq<byte>)
    ensures |r| <= |name| && r == name[..|r|] && SPACE !in r
    ensures |r| < |name| ==> name[|r|] == SPACE
  {
    if name == [] || name[0] == SPACE then [] else [name[0]] + Stem(name[1..])
  }

  /** The name buffer as it is filled, terminator included. */
  function Rendered(e: seq<byte>): (r: seq<byte>)
    requires |e| == ENTRY_SIZE
    ensures |r| <= NAME_BUFFER && Terminated(r)
  {
    if e[11] == ATTR_LFN then LFN_NAME
    else
      var r := Stem(e[..8]) + (if e[11] == ATTR_SUBDIRECTORY then [] else [DOT] + e[8..11]) + [0];
      assert r[|r| - 1] == 0;
      r
  }

  /** What follows the stem in the buffer. */
  function NameTail(e: seq<byte>): seq<byte>
    requires |e| == ENTRY_SIZE
  {
    if e[11] == ATTR_SUBDIRECTORY then [0] else [DOT, e[8], e[9], e[10], 0]
  }

  lemma RenderedParts(e: seq<byte>)
    requires |e| == ENTRY_SIZE && e[11] != ATTR_LFN
    ensures Rendered(e) == Stem(e[..8]) + NameTail(e)
  {
    var stem := Stem(e[..8]);
    assert e[8..11] == [e[8], e[9], e[10]];
    assert stem + [] + [0] == stem + [0];
    assert stem + ([DOT] + e[8..11]) + [0] == stem + [DOT, e[8], e[9], e[10], 0];
  }

  /** file is the query, without its terminator. */
  predicate NameMatches(e: seq<byte>, file: seq<byte>)
    requires |e| == ENTRY_SIZE
  {
    CString(Rendered(e)) == file
  }

  ghost predicate CanonicalFile(e: seq<byte>)
    requires |e| == ENTRY_SIZE
  {
    && e[11] != ATTR_LFN && e[11] != ATTR_SUBDIRECTORY
    && (forall i, j :: 0 <= i < j < 8 && e[i] == SPACE ==> e[j] == SPACE)
    && (forall i :: 0 <= i < 11 ==> e[i] != 0)
  }

  lemma {:induction false} CStringOf(s: seq<byte>)
    requires 0 !in s
    ensures Terminated(s + [0]) && CString(s + [0]) == s
  {
    assert (s + [0])[|s|] == 0;
    if s != [] {
      assert (s + [0])[1..] == s[1..] + [0];
      assert s[0] in s;
      CStringOf(s[1..]);
    }
  }

  /** The name of an ordinary entry: stem, dot, extension. */
  function DottedName(e: seq<byte>): seq<byte>
    requires |e| == ENTRY_SIZE
  {
    Stem(e[..8]) + [DOT] + e[8..11]
  }

  lemma NoZeroInStem(e: seq<byte>)
    requires |e| == ENTRY_SIZE && CanonicalFile(e)
    ensures 0 !in Stem(e[..8])
  {
    var stem := Stem(e[..8]);
    forall k | 0 <= k < |stem| ensures stem[k] != 0 { assert stem[k] == e[..8][k] == e[k]; }
  }

  lemma NoZeroInName(e: seq<byte>)
    requires |e| == ENTRY_SIZE && CanonicalFile(e)
    ensures 0 !in DottedName(e)
  {
    NoZeroInStem(e);
    assert e[8..11] == [e[8], e[9], e[10]];
  }

  lemma CanonicalName(e: seq<byte>)
    requires |e| == ENTRY_SIZE && CanonicalFile(e)
    ensures CString(Rendered(e)) == DottedName(e)
  {
    NoZeroInName(e);
    CStringOf(DottedName(e));
    assert Rendered(e) == DottedName(e) + [0] by { DottedIsRendered(e); }
  }

  lemma DottedIsRendered(e: seq<byte>)
    requires |e| == ENTRY_SIZE && e[11] != ATTR_LFN && e[11] != ATTR_SUBDIRECTORY
    ensures Rendered(e) == DottedName(e) + [0]
  {
    RenderedParts(e);
    assert e[8..11] == [e[8], e[9], e[10]];
    assert NameTail(e) == [DOT] + e[8..11] + [0];
  }

  /** Two ordinary entries that render alike have the same eleven name bytes. */
  lemma NamesAreInjective(e1: seq<byte>, e2: seq<byte>)
    requires |e1| == |e2| == ENTRY_SIZE && CanonicalFile(e1) && CanonicalFile(e2)
    requires CString(Rendered(e1)) == CString(Rendered(e2))
    ensures e1[..11] == e2[..11]
  {
    CanonicalName(e1);
    CanonicalName(e2);
    var s1, s2 := Stem(e1[..8]), Stem(e2[..8]);
    assert |s1| == |s2| && s1 == s2 && e1[8..11] == e2[8..11] by {
      SplitName(s1, e1[8..11], s2, e2[8..11]);
    }
    SameStem(e1, e2);
    NameParts(e1);
    NameParts(e2);
  }

  lemma NameParts(e: seq<byte>)
    requires |e| == ENTRY_SIZE
    ensures e[..11] == e[..8] + e[8..11]
  {
  }

  lemma SplitName(s1: seq<byte>, x1: seq<byte>, s2: seq<byte>, x2: seq<byte>)
    requires |x1| == |x2| && s1 + [DOT] + x1 == s2 + [DOT] + x2
    ensures s1 == s2 && x1 == x2
  {
    var n1, n2 := s1 + [DOT] + x1, s2 + [DOT] + x2;
    assert |s1| == |s2|;
    assert s1 == n1[..|s1|] && s2 == n2[..|s1|];
    assert x1 == n1[|s1| + 1..] && x2 == n2[|s1| + 1..];
  }

  /** A space-padded name is its stem and spaces. */
  lemma SameStem(e1: seq<byte>, e2: seq<byte>)
    requires |e1| == |e2| == ENTRY_SIZE && CanonicalFile(e1) && CanonicalFile(e2)
    requires Stem(e1[..8]) == Stem(e2[..8])
    ensures e1[..8] == e2[..8]
  {
    var n := |Stem(e1[..8])|;
    forall k | 0 <= k < 8 ensures e1[k] == e2[k] {
      if k < n {
        assert Stem(e1[..8])[k] == e1[..8][k] && Stem(e2[..8])[k] == e2[..8][k];
      } else {
        assert e1[..8][n] == SPACE && e2[..8][n] == SPACE;
      }
    }
  }

  // ---- the directory ----

  function EntryAt(dir: seq<byte>, i: nat): (e: seq<byte>)
    requires ENTRY_SIZE * i + ENTRY_SIZE <= |dir|
    ensures |e| == ENTRY_SIZE
  {
    dir[ENTRY_SIZE * i..ENTRY_SIZE * i + ENTRY_SIZE]
  }

  /** The first entry from i on whose first byte is zero; None if there is none in the directory. */
  function CountEntries(dir: seq<byte>, i: nat): (n: Option<nat>)
    ensures n.Some? ==> i <= n.value && ENTRY_SIZE * n.value < |dir| && dir[ENTRY_SIZE * n.value] == 0
    ensures n.Some? ==> forall k :: i <= k < n.value ==> dir[ENTRY_SIZE * k] != 0
    ensures n.None? ==> forall k :: i <= k && ENTRY_SIZE * k < |dir| ==> dir[ENTRY_SIZE * k] != 0
    decreases |dir| - ENTRY_SIZE * i
  {
    if ENTRY_SIZE * i >= |dir| then None
    else if dir[ENTRY_SIZE * i] == 0 then Some(i)
    else CountEntries(dir, i + 1)
  }

  /** The first k from i on, below n, for which hit holds. */
  function FirstHit(hit: nat -> bool, n: nat, i: nat): (r: Option<nat>)
    requires i <= n
    ensures r.Some? ==> i <= r.value < n
    decreases n - i
  {
    if i == n then None else if hit(i) then Some(i) else FirstHit(hit, n, i + 1)
  }

  predicate MatchesAt(dir: seq<byte>, n: nat, file: seq<byte>, k: nat)
    requires ENTRY_SIZE * n <= |dir|
  {
    k < n && NameMatches(EntryAt(dir, k), file)
  }

  function Matcher(dir: seq<byte>, n: nat, file: seq<byte>): nat -> bool
    requires ENTRY_SIZE * n <= |dir|
  {
    (k: nat) => ENTRY_SIZE * n <= |dir| && MatchesAt(dir, n, file, k)
  }

  /** The first of the n entries whose name is the query. */
  function FindEntry(dir: seq<byte>, n: nat, file: seq<byte>): (r: Option<nat>)
    requires ENTRY_SIZE * n <= |dir|
    ensures r.Some? ==> r.value < n
  {
    FirstHit(Matcher(dir, n, file), n, 0)
  }

  lemma {:induction false} FirstHitIsFirst(hit: nat -> bool, n: nat, i: nat)
    requires i <= n
    ensures match FirstHit(hit, n, i)
      case Some(k) => hit(k) && forall j :: i <= j < k ==> !hit(j)
      case None => forall j :: i <= j < n ==> !hit(j)
    decreases n - i
  {
    if i < n && !hit(i) {
      FirstHitIsFirst(hit, n, i + 1);
    }
  }

  /** The lowest-numbered entry that matches, or none if none does. */
  lemma FindsFirst(dir: seq<byte>, n: nat, file: seq<byte>)
    requires ENTRY_SIZE * n <= |dir|
    ensures match FindEntry(dir, n, file)
      case Some(k) => MatchesAt(dir, n, file, k) && forall j :: 0 <= j < k ==> !MatchesAt(dir, n, file, j)
      case None => forall j :: 0 <= j < n ==> !MatchesAt(dir, n, file, j)
  {
    var hit := Matcher(dir, n, file);
    FirstHitIsFirst(hit, n, 0);
    assert forall j: nat :: hit(j) == MatchesAt(dir, n, file, j);
  }

  /** With distinct canonical names in the directory, the entry found is the only one that matches. */
  lemma FoundEntryIsTheOnlyOne(dir: seq<byte>, n: nat, file: seq<byte>, k: nat)
    requires ENTRY_SIZE * n <= |dir| && k < n
    requires forall i :: 0 <= i < n ==> CanonicalFile(EntryAt(dir, i))
    requires forall i, j :: 0 <= i < j < n ==> EntryAt(dir, i)[..11] != EntryAt(dir, j)[..11]
    ensures FindEntry(dir, n, file) == Some(k) <==> MatchesAt(dir, n, file, k)
  {
    FindsFirst(dir, n, file);
    var r := FindEntry(dir, n, file);
    if MatchesAt(dir, n, file, k) && r.Some? && r.value != k {
      NamesAreInjective(EntryAt(dir, r.value), EntryAt(dir, k));
    }
  }

  function FirstCluster(e: seq<byte>): nat
    requires |e| == ENTRY_SIZE
  {
    HALF * Le16(e, 20) + Le16(e, 26)
  }

  function FileSize(e: seq<byte>): (n: nat)
    requires |e| == ENTRY_SIZE
    ensures n < WORD
  {
    Le32(e, 28)
  }

  // ---- what loading a file comes to ----

  /** Wild: an access outside the memory the code allocated. */
  datatype Copied = Failed | Overrun | Data(bytes: seq<byte>)

  /** One sector per cluster, from c until an end mark, into a buffer with room sectors left. */
  function CopyChain(d: Drive, v: Volume, c: nat, room: nat): (r: Copied)
    ensures r.Data? ==> |r.bytes| <= SECTOR_SIZE * room
    decreases room
  {
    if IsClusterEnd(c) then Data([])
    else if !Readable(d, ClusterLba(v, c), 1) then Failed
    else if room == 0 || !InFat(v.fat, c) then Overrun
    else
      match CopyChain(d, v, FatEntry(v.fat, c), room - 1)
      case Data(rest) => Data(Delivered(d, ClusterLba(v, c), 1) + rest)
      case other => other
  }

  /** The first sector of each cluster in turn. */
  function FirstSectors(d: Drive, v: Volume, cs: seq<nat>): (r: seq<byte>)
    ensures |r| == SECTOR_SIZE * |cs|
    decreases cs
  {
    if cs == [] then [] else d.sector(ClusterLba(v, cs[0])) + FirstSectors(d, v, cs[1..])
  }

  /** Every sector of each cluster in turn: what the file is made of. */
  function WholeClusters(d: Drive, v: Volume, cs: seq<nat>): (r: seq<byte>)
    ensures |r| == SECTOR_SIZE * v.geo.sectorsPerCluster * |cs|
    decreases cs
  {
    if cs == [] then []
    else ReadSectors(d, ClusterLba(v, cs[0]), v.geo.sectorsPerCluster) + WholeClusters(d, v, cs[1..])
  }

  lemma OneSector(d: Drive, lba: nat)
    requires lba < WORD
    ensures Delivered(d, lba, 1) == d.sector(lba)
  {
    ReadOne(d, lba);
    DeliveredIsContiguous(d, lba, 1);
  }

  /** cs is a complete chain from c that fits, can be read, and has these first sectors. */
  ghost predicate CopiesChain(d: Drive, v: Volume, c: nat, room: nat, bytes: seq<byte>, cs: seq<nat>) {
    && IsClusterChain(v.fat, c, cs) && |cs| <= room
    && AllReadable(d, v, cs) && bytes == FirstSectors(d, v, cs)
  }

  /** The copy succeeds exactly when the chain ends in time, stays in the FAT and can be read;
      it then holds the first sector of each cluster in chain order. */
  lemma CopyFollowsChain(d: Drive, v: Volume, c: nat, room: nat, bytes: seq<byte>)
    ensures CopyChain(d, v, c, room) == Data(bytes) <==> exists cs :: CopiesChain(d, v, c, room, bytes, cs)
  {
    if CopyChain(d, v, c, room) == Data(bytes) {
      var cs := CopiedChain(d, v, c, room);
      assert CopiesChain(d, v, c, room, bytes, cs);
    }
    if cs :| CopiesChain(d, v, c, room, bytes, cs) {
      ChainIsCopied(d, v, c, room, cs);
    }
  }

  lemma {:induction false} CopiedChain(d: Drive, v: Volume, c: nat, room: nat) returns (cs: seq<nat>)
    requires CopyChain(d, v, c, room).Data?
    ensures IsClusterChain(v.fat, c, cs) && |cs| <= room && AllReadable(d, v, cs)
    ensures CopyChain(d, v, c, room).bytes == FirstSectors(d, v, cs)
    decreases room
  {
    if IsClusterEnd(c) {
      cs := [];
    } else {
      var rest := CopiedChain(d, v, FatEntry(v.fat, c), room - 1);
      cs := [c] + rest;
      assert cs[1..] == rest;
      OneSector(d, ClusterLba(v, c));
    }
  }

  ghost predicate AllReadable(d: Drive, v: Volume, cs: seq<nat>) {
    forall i :: 0 <= i < |cs| ==> Readable(d, ClusterLba(v, cs[i]), 1)
  }

  lemma RestReadable(d: Drive, v: Volume, cs: seq<nat>)
    requires cs != [] && AllReadable(d, v, cs)
    ensures Readable(d, ClusterLba(v, cs[0]), 1) && AllReadable(d, v, cs[1..])
  {
    assert forall i :: 0 <= i < |cs[1..]| ==> cs[1..][i] == cs[i + 1];
  }

  lemma {:induction false} ChainIsCopied(d: Drive, v: Volume, c: nat, room: nat, cs: seq<nat>)
    requires IsClusterChain(v.fat, c, cs) && |cs| <= room && AllReadable(d, v, cs)
    ensures CopyChain(d, v, c, room) == Data(FirstSectors(d, v, cs))
    decreases cs
  {
    if cs != [] {
      RestReadable(d, v, cs);
      ChainIsCopied(d, v, FatEntry(v.fat, c), room - 1, cs[1..]);
      OneSector(d, ClusterLba(v, c));
    }
  }

  /** Sector j of the copy is the first sector of the j-th cluster, whatever the cluster size. */
  lemma {:induction false} CopiedSector(d: Drive, v: Volume, cs: seq<nat>, j: nat)
    requires j < |cs|
    ensures SECTOR_SIZE * j + SECTOR_SIZE <= |FirstSectors(d, v, cs)|
    ensures FirstSectors(d, v, cs)[SECTOR_SIZE * j..SECTOR_SIZE * j + SECTOR_SIZE] == d.sector(ClusterLba(v, cs[j]))
    decreases cs
  {
    var head: seq<byte>, tail := d.sector(ClusterLba(v, cs[0])), FirstSectors(d, v, cs[1..]);
    if j == 0 {
      assert (head + tail)[..SECTOR_SIZE] == head;
    } else {
      CopiedSector(d, v, cs[1..], j - 1);
      var at := SECTOR_SIZE * (j - 1);
      assert (head + tail)[SECTOR_SIZE + at..SECTOR_SIZE + at + SECTOR_SIZE] == tail[at..at + SECTOR_SIZE];
    }
  }

  /** With one sector per cluster the copy is the file. */
  lemma {:induction false} OneSectorClustersAreCopiedWhole(d: Drive, v: Volume, cs: seq<nat>)
    requires v.geo.sectorsPerCluster == 1
    ensures FirstSectors(d, v, cs) == WholeClusters(d, v, cs)
    decreases cs
  {
    if cs != [] {
      ReadOne(d, ClusterLba(v, cs[0]));
      OneSectorClustersAreCopiedWhole(d, v, cs[1..]);
    }
  }

  /** What the caller gets is the file: its first size bytes. */
  ghost predicate CopyIsFile(d: Drive, v: Volume, cs: seq<nat>, size: nat) {
    && size <= |FirstSectors(d, v, cs)| && size <= |WholeClusters(d, v, cs)|
    && FirstSectors(d, v, cs)[..size] == WholeClusters(d, v, cs)[..size]
  }

  /** The chain has exactly the clusters a non-empty file of this size needs. */
  ghost predicate ChainFitsSize(v: Volume, cs: seq<nat>, size: nat) {
    var bytes := SECTOR_SIZE * v.geo.sectorsPerCluster;
    cs != [] && bytes * (|cs| - 1) < size <= bytes * |cs|
  }

  /** What is copied is the file exactly when the volume has one sector per cluster, or the file
      fits in one sector; on every other volume the copy is shorter than the size reported. */
  lemma CopyIsFileIff(d: Drive, v: Volume, cs: seq<nat>, size: nat)
    requires v.geo.sectorsPerCluster >= 1 && ChainFitsSize(v, cs, size)
    ensures CopyIsFile(d, v, cs, size) <==> v.geo.sectorsPerCluster == 1 || size <= SECTOR_SIZE
    ensures CopyIsFile(d, v, cs, size) <==> size <= |FirstSectors(d, v, cs)|
  {
    var spc := v.geo.sectorsPerCluster;
    var others := |cs| - 1;
    if spc == 1 {
      OneSectorClustersAreCopiedWhole(d, v, cs);
    } else {
      ClustersOutgrow(spc, others);
      assert SECTOR_SIZE * spc * others == SECTOR_SIZE * (spc * others);
      if size <= SECTOR_SIZE {
        OneClusterStart(d, v, cs);
      }
    }
  }

  /** With two or more sectors in each, clusters after the first outnumber sectors copied. */
  lemma ClustersOutgrow(spc: nat, others: nat)
    requires spc >= 2
    ensures spc * others >= 2 * others
  {
  }

  lemma OneClusterStart(d: Drive, v: Volume, cs: seq<nat>)
    requires v.geo.sectorsPerCluster >= 1 && cs != []
    ensures |FirstSectors(d, v, cs)| >= SECTOR_SIZE && |WholeClusters(d, v, cs)| >= SECTOR_SIZE
    ensures FirstSectors(d, v, cs)[..SECTOR_SIZE] == WholeClusters(d, v, cs)[..SECTOR_SIZE]
  {
    var lba, spc := ClusterLba(v, cs[0]), v.geo.sectorsPerCluster;
    var first: seq<byte>, whole := d.sector(lba), ReadSectors(d, lba, spc);
    ReadSectorsAt(d, lba, spc, 0);
    assert whole[..SECTOR_SIZE] == first;
    assert (first + FirstSectors(d, v, cs[1..]))[..SECTOR_SIZE] == first;
    assert (whole + WholeClusters(d, v, cs[1..]))[..SECTOR_SIZE] == whole[..SECTOR_SIZE];
  }

  // ---- whole operations, as functions of the disk ----

  datatype Mount = MountFailed | MountWild | Mounted(volume: Volume)

  /** FATsectors * sectorSize, as the size_t it is computed in. */
  function FatBytes(sectors: nat): nat {
    SECTOR_SIZE * sectors % WORD
  }

  lemma FatBytesRepeat(sectors: nat, k: nat)
    requires sectors < 0x80_0000
    ensures FatBytes(sectors + 0x80_0000 * k) == 512 * sectors
  {
    RepeatsInWord(512 * sectors, k);
  }

  /** init: read the boot record, then as many sectors as it says the FAT has. */
  function MountOf(d: Drive, part: nat): Mount
  {
    if !Readable(d, part, 1) then MountFailed
    else
      var geo := DecodeGeometry(Delivered(d, part, 1));
      var fatLba := (part + geo.reserved) % WORD;
      if !Readable(d, fatLba, geo.sectorsPerFat) then MountFailed
      else if FatBytes(geo.sectorsPerFat) < SECTOR_SIZE * geo.sectorsPerFat then MountWild
      else Mounted(Volume(part, geo, Delivered(d, fatLba, geo.sectorsPerFat)))
  }

  datatype Directory = DirFailed | DirWild | Listing(bytes: seq<byte>, count: nat)

  /** readDir: only directories of one cluster, and only if a terminator is found inside it. */
  function DirectoryOf(d: Drive, v: Volume, cluster: nat): (r: Directory)
    ensures r.Listing? ==> ENTRY_SIZE * r.count <= |r.bytes|
  {
    if !InFat(v.fat, cluster) then DirWild
    else if !DirTestAccepts(FatEntry(v.fat, cluster)) then DirFailed
    else
      var lba, spc := ClusterLba(v, cluster), v.geo.sectorsPerCluster;
      if !Readable(d, lba, spc) then DirFailed
      else if ClusterBytes(v.geo) < SECTOR_SIZE * spc then DirWild
      else
        match CountEntries(Delivered(d, lba, spc), 0)
        case None => DirWild
        case Some(n) => Listing(Delivered(d, lba, spc), n)
  }

  /** The buffer of a directory is sized by the boot record, the read by 512 bytes a sector. */
  lemma SmallSectorsOverrun(d: Drive, v: Volume, cluster: nat)
    requires forall lba, n :: !d.fails(lba, n)
    requires InFat(v.fat, cluster) && DirTestAccepts(FatEntry(v.fat, cluster)) && v.geo.sectorsPerCluster >= 1
    ensures v.geo.bytesPerSector < 512 ==> DirectoryOf(d, v, cluster) == DirWild
    ensures v.geo.bytesPerSector >= 512 ==>
      var dir := Delivered(d, ClusterLba(v, cluster), v.geo.sectorsPerCluster);
      DirectoryOf(d, v, cluster) ==
        if CountEntries(dir, 0).Some? then Listing(dir, CountEntries(dir, 0).value) else DirWild
  {
    MulCompares(v.geo.sectorsPerCluster, v.geo.bytesPerSector, 512);
  }

  lemma MulCompares(n: nat, x: nat, y: nat)
    requires n >= 1
    ensures n * x < n * y <==> x < y
  {
    if x < y { MulMonotone(n, x + 1, y); assert n * (x + 1) == n * x + n; } else { MulMonotone(n, y, x); }
  }

  /** numSectors * sectorSize, as the size_t it is computed in. */
  function BufferSize(size: nat): (n: nat)
    ensures n % SECTOR_SIZE == 0
  {
    (size / SECTOR_SIZE + 1) * SECTOR_SIZE % WORD
  }

  /** For any file that can be in this memory, the buffer has one sector more than size / 512. */
  lemma BufferSizeIs(size: nat)
    requires size < WORD - SECTOR_SIZE
    ensures BufferSize(size) == SECTOR_SIZE * (size / SECTOR_SIZE + 1)
    ensures size <= BufferSize(size) <= size + SECTOR_SIZE
  {
  }

  datatype Verdict = FileFailed | FileWild | Absent | File(size: nat, bytes: seq<byte>)

  function RootFileOf(d: Drive, v: Volume, file: seq<byte>): Verdict {
    match DirectoryOf(d, v, v.geo.root)
    case DirFailed => FileFailed
    case DirWild => FileWild
    case Listing(dir, n) => FileIn(d, v, dir, n, file)
  }

  /** The file of this name, in a directory that could be read. */
  function FileIn(d: Drive, v: Volume, dir: seq<byte>, n: nat, file: seq<byte>): Verdict
    requires ENTRY_SIZE * n <= |dir|
  {
    match FindEntry(dir, n, file)
    case None => Absent
    case Some(i) =>
      var e := EntryAt(dir, i);
      match CopyChain(d, v, FirstCluster(e), BufferSize(FileSize(e)) / SECTOR_SIZE)
      case Failed => FileFailed
      case Overrun => FileWild
      case Data(bytes) => File(FileSize(e), bytes)
  }

  // ---- what the operations ask the heap for ----

  /** init: the boot record, and a FAT buffer whose size wraps. */
  function MountRequests(d: Drive, part: nat): seq<nat> {
    [SECTOR_SIZE] + [FatBytes(Le32(Delivered(d, part, 1), 36))]
  }

  /** readDir: the directory's cluster and a readDirResult. */
  function DirRequests(v: Volume): seq<nat> {
    [ClusterBytes(v.geo)] + [RESULT_SIZE]
  }

  /** nameFromEntry: the text for a long-name entry is static. */
  function NameRequest(e: seq<byte>): seq<nat>
    requires |e| == ENTRY_SIZE
  {
    if e[11] == ATTR_LFN then [] else [NAME_BUFFER]
  }

  function NameRequests(dir: seq<byte>, k: nat): seq<nat>
    requires ENTRY_SIZE * k <= |dir|
  {
    if k == 0 then [] else NameRequests(dir, k - 1) + NameRequest(EntryAt(dir, k - 1))
  }

  /** How many of the n entries are compared: all up to the match. */
  function Compared(dir: seq<byte>, n: nat, file: seq<byte>): (k: nat)
    requires ENTRY_SIZE * n <= |dir|
    ensures k <= n
  {
    match FindEntry(dir, n, file)
    case None => n
    case Some(i) => i + 1
  }

  /** A fat32_fileResult, then one name for each entry compared. */
  function SearchRequests(dir: seq<byte>, n: nat, file: seq<byte>): seq<nat>
    requires ENTRY_SIZE * n <= |dir|
  {
    [RESULT_SIZE] + NameRequests(dir, Compared(dir, n, file))
  }

  /** getRootFile, up to the file's own buffer: the directory, and what looking the file up in it takes. */
  function RootBefore(d: Drive, v: Volume, file: seq<byte>): seq<nat> {
    DirRequests(v) +
      match DirectoryOf(d, v, v.geo.root)
      case Listing(dir, n) => SearchRequests(dir, n, file)
      case _ => []
  }

  /** That buffer, if the file is there. */
  function RootLast(d: Drive, v: Volume, file: seq<byte>): seq<nat> {
    match DirectoryOf(d, v, v.geo.root)
    case Listing(dir, n) => FileRequests(dir, n, file)
    case _ => []
  }

  function FileRequests(dir: seq<byte>, n: nat, file: seq<byte>): seq<nat>
    requires ENTRY_SIZE * n <= |dir|
  {
    match FindEntry(dir, n, file)
    case None => []
    case Some(i) => [BufferSize(FileSize(EntryAt(dir, i)))]
  }

  /** Everything the boot path asks for, in order: up to the file's buffer, and that buffer. */
  function BootBefore(d: Drive, part: nat, file: seq<byte>): seq<nat> {
    MountRequests(d, part) +
      match MountOf(d, part)
      case Mounted(v) => RootBefore(d, v, file)
      case _ => []
  }

  function BootLast(d: Drive, part: nat, file: seq<byte>): seq<nat> {
    match MountOf(d, part)
    case Mounted(v) => RootLast(d, v, file)
    case _ => []
  }

  /** The search over n entries gave i, with n for "not found". */
  predicate FoundAt(dir: seq<byte>, n: nat, file: seq<byte>, i: nat)
    requires ENTRY_SIZE * n <= |dir|
  {
    FindEntry(dir, n, file) == if i == n then None else Some(i)
  }

  /** None of the first i entries matches. */
  ghost predicate SearchedTo(dir: seq<byte>, n: nat, file: seq<byte>, i: nat)
    requires ENTRY_SIZE * n <= |dir|
  {
    i <= n && FindEntry(dir, n, file) == FirstHit(Matcher(dir, n, file), n, i)
  }

  lemma SearchStep(dir: seq<byte>, n: nat, file: seq<byte>, i: nat)
    requires ENTRY_SIZE * n <= |dir| && SearchedTo(dir, n, file, i)
    ensures i == n ==> FoundAt(dir, n, file, n) && Compared(dir, n, file) == n
    ensures i < n && MatchesAt(dir, n, file, i) ==> FoundAt(dir, n, file, i) && Compared(dir, n, file) == i + 1
    ensures i < n && !MatchesAt(dir, n, file, i) ==> SearchedTo(dir, n, file, i + 1)
    ensures i < n ==> i < Compared(dir, n, file)
  {
  }

  lemma {:induction false} NameRequestsSplit(dir: seq<byte>, j: nat, k: nat) returns (rest: seq<nat>)
    requires j <= k && ENTRY_SIZE * k <= |dir|
    ensures NameRequests(dir, k) == NameRequests(dir, j) + rest
    decreases k
  {
    if j == k {
      rest := [];
    } else {
      var before := NameRequestsSplit(dir, j, k - 1);
      rest := before + NameRequest(EntryAt(dir, k - 1));
      assert NameRequests(dir, j) + before + NameRequest(EntryAt(dir, k - 1)) == NameRequests(dir, j) + rest;
    }
  }

  // ---- end to end ----

  /** The cluster of the root directory. */
  function RootDirectory(d: Drive, v: Volume): (dir: seq<byte>)
    ensures |dir| == SECTOR_SIZE * v.geo.sectorsPerCluster
  {
    Delivered(d, ClusterLba(v, v.geo.root), v.geo.sectorsPerCluster)
  }

  /** The size is taken from the entry unseen: one whose chain is empty is handed out with any size
      at all, and for the last of them the size of the buffer wraps to nothing. */
  lemma SizeIsTakenOnTrust(d: Drive, v: Volume, dir: seq<byte>, n: nat, file: seq<byte>, i: nat)
    requires ENTRY_SIZE * n <= |dir| && FindEntry(dir, n, file) == Some(i)
    requires IsClusterEnd(FirstCluster(EntryAt(dir, i)))
    ensures FileIn(d, v, dir, n, file) == File(FileSize(EntryAt(dir, i)), [])
    ensures WORD - SECTOR_SIZE <= FileSize(EntryAt(dir, i)) ==> BufferSize(FileSize(EntryAt(dir, i))) == 0
  {
    LastSizesWrap(FileSize(EntryAt(dir, i)));
  }

  lemma LastSizesWrap(size: nat)
    requires size < WORD
    ensures WORD - SECTOR_SIZE <= size ==> BufferSize(size) == 0
  {
  }

  /** The volume as its documentation has it: a one-cluster root directory that is terminated and
      lists the file first under this name, whose chain cs has just the clusters its size needs. */
  ghost predicate HoldsFile(d: Drive, v: Volume, file: seq<byte>, i: nat, cs: seq<nat>) {
    && v.geo.bytesPerSector == SECTOR_SIZE && v.geo.sectorsPerCluster >= 1
    && InFat(v.fat, v.geo.root) && IsClusterEnd(FatEntry(v.fat, v.geo.root))
    && var dir := RootDirectory(d, v);
    && var n := CountEntries(dir, 0);
    && n.Some? && FindEntry(dir, n.value, file) == Some(i)
    && var e := EntryAt(dir, i);
    && FileSize(e) < WORD - SECTOR_SIZE
    && IsClusterChain(v.fat, FirstCluster(e), cs) && ChainFitsSize(v, cs, FileSize(e))
  }

  lemma ChainNoLongerThanBuffer(v: Volume, cs: seq<nat>, size: nat)
    requires v.geo.sectorsPerCluster >= 1 && ChainFitsSize(v, cs, size)
    ensures |cs| <= size / SECTOR_SIZE + 1
  {
    var spc, others := v.geo.sectorsPerCluster, |cs| - 1;
    assert spc * others >= others by { if spc >= 2 { ClustersOutgrow(spc, others); } }
    assert SECTOR_SIZE * spc * others == SECTOR_SIZE * (spc * others);
  }

  /** Its root directory can be listed. */
  lemma RootIsListed(d: Drive, v: Volume, file: seq<byte>, i: nat, cs: seq<nat>)
    requires HoldsFile(d, v, file, i, cs) && forall lba, n :: !d.fails(lba, n)
    ensures var dir := RootDirectory(d, v); var n := CountEntries(dir, 0);
      && n.Some? && ENTRY_SIZE * n.value <= |dir| && DirectoryOf(d, v, v.geo.root) == Listing(dir, n.value)
      && FindEntry(dir, n.value, file) == Some(i)
  {
    DirTestExactly(FatEntry(v.fat, v.geo.root));
  }

  /** And the file it lists can be copied. */
  lemma FileIsCopied(d: Drive, v: Volume, e: seq<byte>, cs: seq<nat>)
    requires |e| == ENTRY_SIZE && FileSize(e) < WORD - SECTOR_SIZE && v.geo.sectorsPerCluster >= 1
    requires IsClusterChain(v.fat, FirstCluster(e), cs) && ChainFitsSize(v, cs, FileSize(e))
    requires forall lba, n :: !d.fails(lba, n)
    ensures CopyChain(d, v, FirstCluster(e), BufferSize(FileSize(e)) / SECTOR_SIZE) == Data(FirstSectors(d, v, cs))
  {
    BufferSizeIs(FileSize(e));
    ChainNoLongerThanBuffer(v, cs, FileSize(e));
    ChainIsCopied(d, v, FirstCluster(e), BufferSize(FileSize(e)) / SECTOR_SIZE, cs);
  }

  /** getRootFile on such a volume, whatever its cluster size: the size from the directory entry,
      with the first sector of each cluster in chain order. */
  lemma RootFileIsFirstSectors(d: Drive, v: Volume, file: seq<byte>, i: nat, cs: seq<nat>)
    requires HoldsFile(d, v, file, i, cs) && forall lba, n :: !d.fails(lba, n)
    ensures RootFileOf(d, v, file) == File(FileSize(EntryAt(RootDirectory(d, v), i)), FirstSectors(d, v, cs))
  {
    RootIsListed(d, v, file, i, cs);
    FileIsCopied(d, v, EntryAt(RootDirectory(d, v), i), cs);
  }

  /** End to end: what getRootFile delivers begins with the file's bytes exactly when clusters are
      one sector or the file fits in one; otherwise it reports more bytes than it ever wrote. */
  lemma RootFileIsTheFile(d: Drive, v: Volume, file: seq<byte>, i: nat, cs: seq<nat>)
    requires HoldsFile(d, v, file, i, cs) && forall lba, n :: !d.fails(lba, n)
    ensures var r := RootFileOf(d, v, file); var content := WholeClusters(d, v, cs);
      && r.File? && r.size == FileSize(EntryAt(RootDirectory(d, v), i)) <= |content|
      && (v.geo.sectorsPerCluster == 1 || r.size <= SECTOR_SIZE ==>
            r.size <= |r.bytes| && r.bytes[..r.size] == content[..r.size])
      && (v.geo.sectorsPerCluster > 1 && r.size > SECTOR_SIZE ==> |r.bytes| < r.size)
  {
    RootFileIsFirstSectors(d, v, file, i, cs);
    CopyIsFileIff(d, v, cs, FileSize(EntryAt(RootDirectory(d, v), i)));
  }
}
