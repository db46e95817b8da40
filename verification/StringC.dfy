/** The C string and memory primitives, over the flat memory they run on. */
module StringC {
  import opened Bytes

  method Memmove(mem: array<byte>, dst: nat, src: nat, size: nat)
    requires dst + size <= mem.Length && src + size <= mem.Length
    modifies mem
    ensures mem[..] == Blit(old(mem[..]), dst, old(mem[src..src + size]))
  {
    if dst < src {
      MoveUpwards(mem, dst, src, size);
    } else {
      MoveDownwards(mem, dst, src, size);
    }
  }

  /** Lowest byte first: right when the destination starts below the source. */
  method MoveUpwards(mem: array<byte>, dst: nat, src: nat, size: nat)
    requires dst + size <= mem.Length && src + size <= mem.Length && dst < src
    modifies mem
    ensures mem[..] == Blit(old(mem[..]), dst, old(mem[src..src + size]))
  {
    var i := 0;
    ghost var m := mem[..];
    while i < size
      invariant 0 <= i <= size
      invariant mem[..] == Blit(m, dst, m[src..src + i])
    {
      mem[dst + i] := mem[src + i];
      BlitUpwards(m, dst, src, i);
      i := i + 1;
    }
  }

  lemma BlitUpwards(m: seq<byte>, dst: nat, src: nat, i: nat)
    requires dst < src && src + i < |m|
    ensures var now := Blit(m, dst, m[src..src + i]);
      now[dst + i := now[src + i]] == Blit(m, dst, m[src..src + i + 1])
  {
  }

  /** Highest byte first: right otherwise. */
  method MoveDownwards(mem: array<byte>, dst: nat, src: nat, size: nat)
    requires dst + size <= mem.Length && src + size <= mem.Length && src <= dst
    modifies mem
    ensures mem[..] == Blit(old(mem[..]), dst, old(mem[src..src + size]))
  {
    var i := size;
    ghost var m := mem[..];
    while i != 0
      invariant 0 <= i <= size
      invariant mem[..] == Blit(m, dst + i, m[src + i..src + size])
    {
      mem[dst + i - 1] := mem[src + i - 1];
      BlitDownwards(m, dst, src, i, size);
      i := i - 1;
    }
  }

  lemma BlitDownwards(m: seq<byte>, dst: nat, src: nat, i: nat, size: nat)
    requires src <= dst && 0 < i <= size && dst + size <= |m|
    ensures var now := Blit(m, dst + i, m[src + i..src + size]);
      now[dst + i - 1 := now[src + i - 1]] == Blit(m, dst + i - 1, m[src + i - 1..src + size])
  {
  }

  /** The restrict qualifiers ask the caller for ranges that do not overlap. */
  method Memcpy(mem: array<byte>, dst: nat, src: nat, size: nat)
    requires dst + size <= mem.Length && src + size <= mem.Length
    requires dst + size <= src || src + size <= dst
    modifies mem
    ensures mem[..] == Blit(old(mem[..]), dst, old(mem[src..src + size]))
  {
    for i := 0 to size
      invariant forall k :: 0 <= k < mem.Length ==>
        mem[k] == if dst <= k < dst + i then old(mem[k - dst + src]) else old(mem[k])
    {
      mem[dst + i] := mem[src + i];
    }
  }

  function Repeat(value: byte, n: nat): (s: seq<byte>) {
    seq(n, _ => value)
  }

  /** The value is converted to unsigned char, so only its low eight bits are stored. */
  method Memset(mem: array<byte>, buf: nat, value: int, size: nat)
    requires buf + size <= mem.Length
    modifies mem
    ensures mem[..] == Blit(old(mem[..]), buf, Repeat(value % 256, size))
  {
    for i := 0 to size
      invariant forall k :: 0 <= k < mem.Length ==>
        mem[k] == if buf <= k < buf + i then value % 256 else old(mem[k])
    {
      mem[buf + i] := value % 256;
    }
  }

  /** A C string buffer: some byte of it is the terminator. */
  predicate Terminated(s: seq<byte>) {
    0 in s
  }

  /** The characters before the terminator. */
  function CString(s: seq<byte>): (r: seq<byte>)
    requires Terminated(s)
    ensures |r| < |s| && r == s[..|r|] && s[|r|] == 0 && 0 !in r
  {
    if s[0] == 0 then [] else [s[0]] + CString(s[1..])
  }

  method Strlen(s: seq<byte>) returns (len: nat)
    requires Terminated(s)
    ensures len == |CString(s)|
  {
    len := 0;
    while s[len] != 0
      invariant len <= |CString(s)|
      decreases |s| - len
    {
      len := len + 1;
    }
  }

  /** char is signed on this target. */
  function Signed(c: byte): int {
    if c < 128 then c else c - 256
  }

  lemma SignedIs(c: byte)
    ensures -128 <= Signed(c) <= 127 && Signed(c) % 256 == c
  {
  }

  /** Zero exactly on equal C strings; otherwise the signed difference at the first mismatch. */
  method Strcmp(s: seq<byte>, t: seq<byte>) returns (r: int)
    requires Terminated(s) && Terminated(t)
    ensures r == 0 <==> CString(s) == CString(t)
    ensures exists i :: 0 <= i < |s| && i < |t| && s[..i] == t[..i] && r == Signed(s[i]) - Signed(t[i])
  {
    var i := 0;
    ghost var cs, ct := CString(s), CString(t);
    while s[i] != 0 && t[i] != 0
      invariant i <= |cs| && i <= |ct|
      invariant s[..i] == t[..i]
      decreases |s| - i
    {
      if s[i] != t[i] {
        assert cs[i] != ct[i];
        return Signed(s[i]) - Signed(t[i]);
      }
      i := i + 1;
    }
    r := Signed(s[i]) - Signed(t[i]);
    if r == 0 {
      assert |cs| == i == |ct|;
    } else {
      assert |cs| != |ct|;
    }
  }
}
