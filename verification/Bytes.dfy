/** Bytes, little-endian words and stretches of memory, as every other module sees them. */
module Bytes {
  type byte = x: int | 0 <= x < 256

  const WORD := 0x1_0000_0000  // one more than the largest uint32_t / size_t
  const HALF := 0x1_0000       // one more than the largest uint16_t

  datatype Option<+T> = None | Some(value: T)

  /** The 16-bit little-endian value at address a. */
  function Le16(m: seq<byte>, a: nat): (n: nat)
    requires a + 2 <= |m|
    ensures n < HALF
  {
    var (b0: int, b1: int) := (m[a], m[a + 1]);
    b0 + 0x100 * b1
  }

  /** The 32-bit little-endian value at address a. */
  function Le32(m: seq<byte>, a: nat): (n: nat)
    requires a + 4 <= |m|
    ensures n < WORD
  {
    var (b0: int, b1: int, b2: int, b3: int) := (m[a], m[a + 1], m[a + 2], m[a + 3]);
    b0 + 0x100 * b1 + 0x1_0000 * b2 + 0x100_0000 * b3
  }

  function Enc16(n: nat): (e: seq<byte>)
    ensures |e| == 2
  {
    [n % 256, n / 256 % 256]
  }

  function Enc32(n: nat): (e: seq<byte>)
    ensures |e| == 4
  {
    [n % 256, n / 0x100 % 256, n / 0x1_0000 % 256, n / 0x100_0000 % 256]
  }

  /** Storing a value and loading it back truncates it to the width of the store. */
  lemma Enc16RoundTrip(n: nat)
    ensures Le16(Enc16(n), 0) == n % HALF
  {
    var q := n / 256;
    assert n == n % 256 + 256 * (q % 256) + HALF * (q / 256);
  }

  lemma Enc32RoundTrip(n: nat)
    ensures Le32(Enc32(n), 0) == n % WORD
  {
    var (q1, q2, q3) := (n / 0x100, n / 0x1_0000, n / 0x100_0000);
    assert q2 == q1 / 256 && q3 == q2 / 256;
    var q4 := q3 / 256;
    assert n == n % 256 + 256 * (q1 % 256) + 0x1_0000 * (q2 % 256) + 0x100_0000 * (q3 % 256) + WORD * q4;
  }

  /** The lowest byte comes first. */
  lemma EncodedBytes(b0: byte, b1: byte, b2: byte, b3: byte)
    ensures Enc16(b0 + 0x100 * b1) == [b0, b1]
    ensures Enc32(b0 + 0x100 * b1 + 0x1_0000 * b2 + 0x100_0000 * b3) == [b0, b1, b2, b3]
  {
    LowestFirst(b0, b1 + 0x100 * b2 + 0x1_0000 * b3);
    LowestFirst(b1, b2 + 0x100 * b3);
    LowestFirst(b2, b3);
    LowestFirst(b0, b1);
    var n := b0 + 0x100 * b1 + 0x1_0000 * b2 + 0x100_0000 * b3;
    assert n / 0x1_0000 == n / 0x100 / 0x100 && n / 0x100_0000 == n / 0x100 / 0x100 / 0x100;
  }

  lemma LowestFirst(low: byte, high: nat)
    ensures (low + 0x100 * high) % 0x100 == low && (low + 0x100 * high) / 0x100 == high
  {
  }

  /** Four bytes are the 32-bit value w exactly if they are its encoding. */
  lemma Enc32Iff(e: seq<byte>, w: nat)
    requires |e| == 4
    ensures Le32(e, 0) == w <==> w < 0x1_0000_0000 && e == Enc32(w)
  {
    if Le32(e, 0) == w {
      EncodedBytes(e[0], e[1], e[2], e[3]);
      assert e == [e[0], e[1], e[2], e[3]];
    }
    Enc32RoundTrip(w);
  }

  /** Memory m with data written at address a. */
  function Blit(m: seq<byte>, a: nat, data: seq<byte>): (r: seq<byte>)
    requires a + |data| <= |m|
    ensures |r| == |m|
    ensures forall k :: 0 <= k < |m| ==> r[k] == if a <= k < a + |data| then data[k - a] else m[k]
  {
    seq(|m|, k requires 0 <= k < |m| => if a <= k < a + |data| then data[k - a] else m[k])
  }

  /** Whether two memories hold the same bytes on [lo, hi). */
  ghost predicate Same(m: seq<byte>, m': seq<byte>, lo: nat, hi: nat) {
    |m| == |m'| && forall k :: lo <= k < hi && k < |m| ==> m[k] == m'[k]
  }

  lemma SliceOfSlice(m: seq<byte>, p: nat, data: seq<byte>, off: nat, n: nat)
    requires p + |data| <= |m| && m[p..p + |data|] == data && off + n <= |data|
    ensures m[p + off..p + off + n] == data[off..off + n]
  {
    var s, x, y := m[p..p + |data|], m[p + off..p + off + n], data[off..off + n];
    assert |x| == |y| == n;
    forall k | 0 <= k < n ensures x[k] == y[k] {
      assert x[k] == m[p + (off + k)] == s[off + k];
    }
  }

  lemma SliceLe32(m: seq<byte>, at: nat, data: seq<byte>, off: nat)
    requires at + 4 <= |m| && off + 4 <= |data| && m[at..at + 4] == data[off..off + 4]
    ensures Le32(m, at) == Le32(data, off)
  {
    var s := m[at..at + 4];
    assert Le32(m, at) == Le32(s, 0);
    assert Le32(data, off) == Le32(data[off..off + 4], 0);
  }

  lemma SliceLe16(m: seq<byte>, at: nat, data: seq<byte>, off: nat)
    requires at + 2 <= |m| && off + 2 <= |data| && m[at..at + 2] == data[off..off + 2]
    ensures Le16(m, at) == Le16(data, off)
  {
    var s := m[at..at + 2];
    assert Le16(m, at) == Le16(s, 0);
    assert Le16(data, off) == Le16(data[off..off + 2], 0);
  }

  lemma Unwrapped(x: nat)
    requires x < WORD
    ensures x % WORD == x
  {
  }

  lemma MulMonotone(a: nat, x: nat, y: nat)
    requires x <= y
    ensures a * x <= a * y
  {
  }

  lemma QuotientIs(x: nat, d: nat, q: nat)
    requires d > 0 && q * d <= x < q * d + d
    ensures x / d == q
  {
    var k := x / d;
    assert x == d * k + x % d;
    if k < q {
      MulMonotone(d, k + 1, q);
    } else if k > q {
      MulMonotone(d, q + 1, k);
    }
  }

  /** An encoded value reads back. */
  lemma Stored16(b: seq<byte>, at: nat, n: nat)
    requires at + 2 <= |b| && b[at..at + 2] == Enc16(n) && n < 0x1_0000
    ensures Le16(b, at) == n
  {
    Enc16RoundTrip(n);
    SliceLe16(b, at, Enc16(n), 0);
  }

  lemma Stored32(b: seq<byte>, at: nat, n: nat)
    requires at + 4 <= |b| && b[at..at + 4] == Enc32(n) && n < 0x1_0000_0000
    ensures Le32(b, at) == n
  {
    Enc32RoundTrip(n);
    SliceLe32(b, at, Enc32(n), 0);
  }
}
