/** xtoa: numbers to text in bases 2 to 16, written backwards into a buffer and turned round. */
module NumberText {
  import opened Bytes
  import opened StringC
  import opened Document
  import opened TextTerminal

  const MAX_NUM_STR_SIZE := 65

  predicate GoodBase(base: int) {
    2 <= base <= 16
  }

  /** '0'..'9', then 'A'..'F'. */
  function Glyph(digit: nat): (c: byte)
    requires digit < 16
  {
    if digit < 10 then 48 + digit else 65 + digit - 10
  }

  /** Sixteen characters stand for digits, each for its place among them. */
  const HEX := "0123456789ABCDEF"

  /** The first k from i on such that character k is c. */
  function PlaceFrom(c: byte, i: nat): (r: Option<nat>)
    requires i <= 16
    ensures r.Some? ==> i <= r.value < 16 && HEX[r.value] as int == c
    decreases 16 - i
  {
    if i == 16 then None else if HEX[i] as int == c then Some(i) else PlaceFrom(c, i + 1)
  }

  function DigitOf(c: byte): Option<nat> {
    PlaceFrom(c, 0)
  }

  /** The digits of n, most significant first, none for zero. */
  function Positional(n: nat, base: nat): (s: seq<byte>)
    requires GoodBase(base)
    ensures n > 0 ==> s != []
    decreases n
  {
    if n == 0 then [] else Positional(n / base, base) + [Glyph(n % base)]
  }

  function Digits(n: nat, base: nat): (s: seq<byte>)
    requires GoodBase(base)
    ensures s != []
  {
    if n == 0 then [Glyph(0)] else Positional(n, base)
  }

  /** Reading a numeral back; None if some character is no digit of this base. */
  function Parse(s: seq<byte>, base: nat): Option<nat> {
    if s == [] then Some(0)
    else
      match (Parse(s[..|s| - 1], base), DigitOf(s[|s| - 1]))
      case (Some(n), Some(digit)) => if digit < base then Some(base * n + digit) else None
      case _ => None
  }

  lemma DivStep(n: nat, base: nat)
    requires base >= 2
    ensures 0 <= n / base && 0 <= n % base < base && n == base * (n / base) + n % base
    ensures n > 0 ==> n / base < n
  {
  }

  lemma DivLess(n: nat, base: nat, p: nat)
    requires base >= 2 && n < base * p
    ensures n / base < p
  {
    DivStep(n, base);
    if n / base >= p {
      MulMonotone(base, p, n / base);
    }
  }

  lemma HexDistinct()
    ensures forall i, j :: 0 <= i < 16 && 0 <= j < 16 && HEX[i] == HEX[j] ==> i == j
  {
  }

  lemma PlaceIs(c: byte, digit: nat)
    requires digit < 16
    ensures DigitOf(c) == Some(digit) <==> c == HEX[digit] as int
  {
    if c == HEX[digit] as int {
      PlaceFound(c, digit, 0);
      HexDistinct();
    }
  }

  lemma {:induction false} PlaceFound(c: byte, digit: nat, i: nat)
    requires i <= digit < 16 && HEX[digit] as int == c
    ensures PlaceFrom(c, i).Some?
    decreases digit - i
  {
    if HEX[i] as int != c { PlaceFound(c, digit, i + 1); }
  }

  /** The glyph of a digit is the character at that place. */
  lemma GlyphIs(digit: nat)
    requires digit < 16
    ensures Glyph(digit) == HEX[digit] as int
    ensures DigitOf(Glyph(digit)) == Some(digit)
  {
    PlaceIs(Glyph(digit), digit);
  }

  lemma {:induction false} PositionalParses(n: nat, base: nat)
    requires GoodBase(base)
    ensures Parse(Positional(n, base), base) == Some(n)
    decreases n
  {
    if n > 0 {
      DivStep(n, base);
      GlyphIs(n % base);
      PositionalParses(n / base, base);
      var s := Positional(n / base, base) + [Glyph(n % base)];
      assert s[..|s| - 1] == Positional(n / base, base);
    }
  }

  lemma PrintThenParse(n: nat, base: nat)
    requires GoodBase(base)
    ensures Parse(Digits(n, base), base) == Some(n)
  {
    PositionalParses(n, base);
    GlyphIs(0);
    assert [Glyph(0)][..0] == [];
  }

  /** Every character is one of the first base ones of "0123456789ABCDEF". */
  lemma {:induction false} PositionalInHex(n: nat, base: nat)
    requires GoodBase(base)
    ensures forall c :: c in Positional(n, base) ==> exists k :: 0 <= k < base && HEX[k] as int == c
    decreases n
  {
    if n > 0 {
      DivStep(n, base);
      GlyphIs(n % base);
      PositionalInHex(n / base, base);
    }
  }

  lemma DigitsInHex(n: nat, base: nat)
    requires GoodBase(base)
    ensures forall c :: c in Digits(n, base) ==>
      (48 <= c <= 57 || 65 <= c <= 70) && exists k :: 0 <= k < base && HEX[k] as int == c
  {
    PositionalInHex(n, base);
    GlyphIs(0);
  }

  /** The other way round: a numeral that parses is what is printed of its value, unless it has
      leading zeros. */
  lemma {:induction false} ParseThenPrint(s: seq<byte>, base: nat)
    requires GoodBase(base) && s != [] && Parse(s, base).Some? && (s[0] != 48 || |s| == 1)
    ensures Digits(Parse(s, base).value, base) == s
    decreases |s|
  {
    var init, c := s[..|s| - 1], s[|s| - 1];
    var q, digit := Parse(init, base).value, DigitOf(c).value;
    assert s == init + [c];
    PlaceIs(c, digit);
    GlyphIs(digit);
    QuotientOf(base, q, digit);
    if init != [] {
      ParseThenPrint(init, base);
      NoLeadingZero(q, base);
      GlyphIs(0);
    }
  }

  lemma QuotientOf(base: nat, q: nat, digit: nat)
    requires base >= 2 && digit < base
    ensures (base * q + digit) / base == q && (base * q + digit) % base == digit
    ensures q > 0 ==> base * q > 0
  {
    var x := base * q + digit;
    assert q * base == base * q;
    QuotientIs(x, base, q);
    DivStep(x, base);
    if q > 0 { MulMonotone(base, 1, q); }
  }

  /** Only "0" itself starts with a zero. */
  lemma {:induction false} NoLeadingZero(n: nat, base: nat)
    requires GoodBase(base)
    ensures Digits(n, base)[0] == 48 <==> n == 0
    decreases n
  {
    DivStep(n, base);
    if n / base > 0 {
      NoLeadingZero(n / base, base);
    } else if n > 0 {
      assert n % base == n && Positional(n / base, base) == [];
    }
  }

  function Pow(base: nat, k: nat): nat {
    if k == 0 then 1 else base * Pow(base, k - 1)
  }

  /** A number below base to the k has at most k digits. */
  lemma {:induction false} DigitCount(n: nat, base: nat, k: nat)
    requires GoodBase(base) && n < Pow(base, k)
    ensures |Positional(n, base)| <= k
    decreases k
  {
    if k > 0 && n > 0 {
      DivLess(n, base, Pow(base, k - 1));
      DigitCount(n / base, base, k - 1);
    }
  }

  lemma {:induction false} PowGrows(base: nat, k: nat)
    requires base >= 2
    ensures Pow(2, k) <= Pow(base, k)
    decreases k
  {
    if k > 0 {
      PowGrows(base, k - 1);
      MulMonotone(2, Pow(2, k - 1), Pow(base, k - 1));
    }
  }

  /** Every 64-bit value, in every base, fits the buffers of writeNum with its terminator. */
  lemma FitsNumberBuffer(n: nat, base: nat)
    requires GoodBase(base) && n < 0x1_0000_0000 * 0x1_0000_0000
    ensures |Digits(n, base)| + 1 <= 65 == MAX_NUM_STR_SIZE
  {
    assert Pow(2, 64) == WORD * WORD by { PowSplit(32, 32); PowOfWord(); }
    PowGrows(base, 64);
    DigitCount(n, base, 64);
  }

  lemma {:induction false} PowSplit(i: nat, j: nat)
    ensures Pow(2, i + j) == Pow(2, i) * Pow(2, j)
    decreases i
  {
    if i > 0 {
      PowSplit(i - 1, j);
      assert 2 * (Pow(2, i - 1) * Pow(2, j)) == 2 * Pow(2, i - 1) * Pow(2, j);
    }
  }

  lemma PowOfWord()
    ensures Pow(2, 32) == WORD
  {
    PowSplit(16, 16);
    PowSplit(8, 8);
    PowSplit(4, 4);
    assert Pow(2, 4) == 16;
  }

  lemma DigitsNotNul(n: nat, base: nat)
    requires GoodBase(base)
    ensures 0 !in Digits(n, base)
  {
    PositionalNotNul(n, base);
  }

  lemma {:induction false} PositionalNotNul(n: nat, base: nat)
    requires GoodBase(base)
    ensures forall c :: c in Positional(n, base) ==> Accepted(c)
    decreases n
  {
    if n > 0 {
      PositionalNotNul(n / base, base);
    }
  }

  function Reverse(s: seq<byte>): (r: seq<byte>)
    ensures |r| == |s| && forall i :: 0 <= i < |s| ==> r[i] == s[|s| - 1 - i]
  {
    seq(|s|, i requires 0 <= i < |s| => s[|s| - 1 - i])
  }

  /** False is the null returned for a base out of range. The caller brings a large enough buffer. */
  method Xtoa(value: nat, str: array<byte>, base: int) returns (ok: bool)
    requires GoodBase(base) ==> |Digits(value, base)| + 1 <= str.Length
    modifies str
    ensures ok == GoodBase(base)
    ensures !ok ==> str[..] == old(str[..])
    ensures ok ==> str[..] == Blit(old(str[..]), 0, Digits(value, base) + [0])
  {
    if base < 2 || base > 16 {
      return false;
    }
    if value == 0 {
      str[0] := Glyph(0);
      str[1] := 0;
      return true;
    }
    ghost var m := str[..];
    var index := WriteBackwards(value, str, base);
    ghost var m1 := str[..];
    TerminateAndTurn(str, index);
    TurnedRound(m, m1, str[..], Positional(value, base));
    return true;
  }

  lemma TurnedRound(m: seq<byte>, m1: seq<byte>, m2: seq<byte>, digits: seq<byte>)
    requires |digits| < |m| && m1 == Blit(m, 0, Reverse(digits))
    requires m2 == Blit(m1, 0, Reverse(m1[..|digits|]) + [0])
    ensures m2 == Blit(m, 0, digits + [0])
  {
    assert m1[..|digits|] == Reverse(digits);
    assert Reverse(Reverse(digits)) == digits;
  }

  /** Terminate the string and turn its characters round. */
  method TerminateAndTurn(str: array<byte>, length: nat)
    requires 0 < length < str.Length
    modifies str
    ensures str[..] == Blit(old(str[..]), 0, Reverse(old(str[..])[..length]) + [0])
  {
    ghost var m := str[..];
    var index := length;
    str[index] := 0;
    index := index - 1;
    ghost var m1 := str[..];
    assert m1[..length] == m[..length];
    SwapAround(str, index);
  }

  lemma OneMoreDigit(rest: seq<byte>, before: seq<byte>, c: byte)
    ensures rest + [c] + Reverse(before) == rest + Reverse(before + [c])
  {
    assert Reverse(before + [c]) == [c] + Reverse(before);
  }

  /** The digit loop: least significant digit first. */
  method WriteBackwards(value: nat, str: array<byte>, base: nat) returns (index: nat)
    requires GoodBase(base) && |Positional(value, base)| <= str.Length
    modifies str
    ensures index == |Positional(value, base)|
    ensures str[..] == Blit(old(str[..]), 0, Reverse(Positional(value, base)))
  {
    var num: nat := value;
    index := 0;
    ghost var written: seq<byte>, m := [], str[..];
    while num != 0
      invariant index == |written| && index + |Positional(num, base)| == |Positional(value, base)|
      invariant Positional(value, base) == Positional(num, base) + Reverse(written)
      invariant str[..] == Blit(m, 0, written)
      decreases num
    {
      DivStep(num, base);
      var digit := num % base;
      str[index] := if digit < 10 then 48 + digit else 65 + digit - 10;
      OneMoreDigit(Positional(num / base, base), written, Glyph(digit));
      written := written + [Glyph(digit)];
      num := num / base;
      index := index + 1;
    }
    assert Reverse(Reverse(written)) == written;
    assert Positional(value, base) == Reverse(written);
  }

  /** The in-place swap loop is an exact reversal of the first last + 1 bytes. */
  method SwapAround(str: array<byte>, last: nat)
    requires last < str.Length
    modifies str
    ensures str[..] == Blit(old(str[..]), 0, Reverse(old(str[..])[..last + 1]))
  {
    for i := 0 to last / 2 + 1
      invariant forall k :: 0 <= k < str.Length ==>
        str[k] == if k <= last && (k < i || last - k < i) then old(str[last - k]) else old(str[k])
    {
      var tmp := str[i];
      str[i] := str[last - i];
      str[last - i] := tmp;
    }
  }

  /** _outstream::writeNum for an unsigned value of at most 64 bits. */
  method WriteNum(t: Terminal, num: nat, base: nat) returns (n: nat)
    requires t.Valid() && GoodBase(base) && num < WORD * WORD
    modifies t.mem, t`row, t`column, t`fullLine, t`doc
    ensures t.Valid() && OnlyScreen(old(t.mem[..]), t.mem[..])
    ensures n == |Digits(num, base)|
    ensures Proper(old(t.doc)) && t.doc == PutAll(old(t.doc), Digits(num, base), t.color)
  {
    FitsNumberBuffer(num, base);
    var str := new byte[MAX_NUM_STR_SIZE];
    var ok := Xtoa(num, str, base);
    ghost var digits := Digits(num, base);
    DigitsNotNul(num, base);
    assert str[..] == digits + [0] + str[|digits| + 1..];
    CStringIs(digits, str[|digits| + 1..]);
    var len := Strlen(str[..]);
    assert str[..len] == digits;
    n := t.WriteString(str[..len]);
  }

  lemma {:induction false} CStringIs(s: seq<byte>, rest: seq<byte>)
    requires 0 !in s
    ensures Terminated(s + [0] + rest) && CString(s + [0] + rest) == s
  {
    assert (s + [0] + rest)[|s|] == 0;
    if s != [] {
      assert (s + [0] + rest)[1..] == s[1..] + [0] + rest;
      assert s[0] in s;
      CStringIs(s[1..], rest);
    }
  }
}
