/** The 80x25 text terminal over the framebuffer, as a window onto its document. */
module TextTerminal {
  import opened Bytes
  import opened StringC
  import opened Document

  const FRAMEBUFFER := 0xb8000
  const SCREEN_BYTES := 4000  // two bytes a cell
  const GREY: byte := 7       // the colour a terminal starts with

  /** Character and attribute of cell i: a little-endian uint16_t. */
  function CellAt(m: seq<byte>, i: nat): Cell
    requires FRAMEBUFFER + SCREEN_BYTES <= |m| && i < CELLS
  {
    Cell(m[FRAMEBUFFER + 2 * i], m[FRAMEBUFFER + 2 * i + 1])
  }

  function Screen(m: seq<byte>): (s: seq<Cell>)
    requires FRAMEBUFFER + SCREEN_BYTES <= |m|
    ensures |s| == CELLS
  {
    seq(CELLS, i requires 0 <= i < CELLS => CellAt(m, i))
  }

  /** Nothing but the framebuffer changed. */
  ghost predicate OnlyScreen(m: seq<byte>, m': seq<byte>) {
    |m'| == |m| && Same(m, m', 0, 0xB8000) && Same(m, m', 0xB8FA0, |m|)
  }

  /** Where a row and column are in memory: character first, then attribute. */
  lemma ScreenBytes(m: seq<byte>, row: nat, col: nat)
    requires 0xB8FA0 <= |m| && row < 25 && col < 80
    ensures var at := 0xB8000 + 160 * row + 2 * col;
      Screen(m)[80 * row + col] == Cell(m[at], m[at + 1])
  {
    assert FRAMEBUFFER + 2 * (80 * row + col) == 0xB8000 + 160 * row + 2 * col;
  }

  /** So a character that is typed is in memory at its row and column, with the colour behind it. */
  lemma TypedByte(d: Doc, c: byte, color: byte, m: seq<byte>)
    requires Proper(d) && 20 <= c <= 126 && 0xB8FA0 <= |m|
    requires CELLS <= |Put(d, c, color).cells| && Screen(m) == Window(Put(d, c, color))
    ensures var row := d.row - (|Put(d, c, color).cells| / 80 - 25);
      && 0 <= row < 25
      && m[0xB8000 + 160 * row + 2 * d.col] == c && m[0xB8000 + 160 * row + 2 * d.col + 1] == color
  {
    var r := Put(d, c, color);
    PutProper(d, c, color);
    PutEffect(d, c, color, 80 * d.row + d.col);
    var row := d.row - (|r.cells| / 80 - 25);
    ScreenBytes(m, row, d.col);
    assert |r.cells| - CELLS + (80 * row + d.col) == 80 * d.row + d.col;
    assert Window(r)[80 * row + d.col] == r.cells[80 * d.row + d.col];
  }

  /** The screen with rows from first on blanked. */
  function Wiped(s: seq<Cell>, first: nat, color: byte): (r: seq<Cell>)
    requires |s| == CELLS && first <= HEIGHT
    ensures |r| == CELLS
  {
    s[..WIDTH * first] + Blanks(color, WIDTH * (HEIGHT - first))
  }

  function Scrolled(s: seq<Cell>, lines: nat, color: byte): (r: seq<Cell>)
    requires |s| == CELLS && lines <= HEIGHT
    ensures |r| == CELLS
  {
    s[WIDTH * lines..] + Blanks(color, WIDTH * lines)
  }

  /** Two scrolls in one colour are one. */
  lemma ScrollsAdd(s: seq<Cell>, a: nat, b: nat, color: byte)
    requires |s| == CELLS && a + b < HEIGHT
    ensures Scrolled(Scrolled(s, a, color), b, color) == Scrolled(s, a + b, color)
  {
  }

  class Terminal {
    const mem: array<byte>
    var row: nat
    var column: nat
    var color: byte
    var fullLine: bool
    ghost var doc: Doc

    ghost predicate Valid()
      reads this, mem
    {
      && FRAMEBUFFER + SCREEN_BYTES <= mem.Length
      && row < HEIGHT && column < WIDTH
      && Proper(doc)
      && doc.row == Top(doc) + row && doc.col == column && doc.full == fullLine
      && Screen(mem[..]) == Window(doc)
    }

    /** The constructor leaves the screen as it found it. */
    constructor (mem: array<byte>)
      requires FRAMEBUFFER + SCREEN_BYTES <= mem.Length
      ensures this.mem == mem && Valid()
      ensures doc == Doc(Screen(mem[..]), 0, 0, false) && color == GREY
    {
      this.mem := mem;
      row, column, color, fullLine := 0, 0, GREY, false;
      doc := Doc(Screen(mem[..]), 0, 0, false);
    }

    /** Both colours are four-bit enumerators. */
    method SetColor(fg: nat, bg: nat)
      requires fg < 16 && bg < 16
      modifies this`color
      ensures color % 16 == fg && color / 16 == bg
    {
      color := fg + 16 * bg;
    }

    method SetCursor(newRow: nat, newColumn: nat) returns (ok: bool)
      requires Valid()
      modifies this`row, this`column, this`doc
      ensures Valid()
      ensures ok == (newRow < HEIGHT && newColumn < WIDTH)
      ensures doc == if ok then old(doc).(row := Top(old(doc)) + newRow, col := newColumn) else old(doc)
    {
      if newRow >= HEIGHT || newColumn >= WIDTH {
        return false;
      }
      row := newRow;
      column := newColumn;
      doc := doc.(row := Top(doc) + newRow, col := newColumn);
      return true;
    }

    /** The nested loops of clear and of scroll: blank every cell from row first on. */
    method WipeRows(first: nat)
      requires FRAMEBUFFER + SCREEN_BYTES <= mem.Length && first <= HEIGHT
      modifies mem
      ensures Screen(mem[..]) == Wiped(Screen(old(mem[..])), first, color)
      ensures OnlyScreen(old(mem[..]), mem[..])
    {
      ghost var lo := FRAMEBUFFER + 2 * WIDTH * first;
      ghost var was := mem[..];
      var y := first;
      while y < HEIGHT
        invariant first <= y <= HEIGHT
        invariant WipedTo(was, mem[..], lo, FRAMEBUFFER + 2 * WIDTH * y, color)
      {
        WipeRow(y, was, lo);
        y := y + 1;
      }
      WipedScreen(was, mem[..], first, color);
    }

    method WipeRow(y: nat, ghost was: seq<byte>, ghost lo: nat)
      requires FRAMEBUFFER + SCREEN_BYTES <= mem.Length && y < HEIGHT
      requires FRAMEBUFFER <= lo <= FRAMEBUFFER + 2 * WIDTH * y && lo % 2 == 0
      requires WipedTo(was, mem[..], lo, FRAMEBUFFER + 2 * WIDTH * y, color)
      modifies mem
      ensures WipedTo(was, mem[..], lo, FRAMEBUFFER + 2 * WIDTH * (y + 1), color)
    {
      var x := 0;
      while x < WIDTH
        invariant 0 <= x <= WIDTH
        invariant WipedTo(was, mem[..], lo, FRAMEBUFFER + 2 * (WIDTH * y + x), color)
      {
        WipeCell(WIDTH * y + x, was, lo);
        x := x + 1;
      }
    }

    method WipeCell(index: nat, ghost was: seq<byte>, ghost lo: nat)
      requires FRAMEBUFFER + SCREEN_BYTES <= mem.Length && index < CELLS
      requires FRAMEBUFFER <= lo <= FRAMEBUFFER + 2 * index && lo % 2 == 0
      requires WipedTo(was, mem[..], lo, FRAMEBUFFER + 2 * index, color)
      modifies mem
      ensures WipedTo(was, mem[..], lo, FRAMEBUFFER + 2 * (index + 1), color)
    {
      ghost var before := mem[..];
      StoreCell(index, BLANK);
      WipeOneMore(was, before, mem[..], lo, index, color);
    }

    /** _buffer[index] = vga_entry(c, _color) */
    method StoreCell(index: nat, c: byte)
      requires FRAMEBUFFER + SCREEN_BYTES <= mem.Length && index < CELLS
      modifies mem
      ensures mem[..] == Blit(old(mem[..]), FRAMEBUFFER + 2 * index, [c, color])
    {
      mem[FRAMEBUFFER + 2 * index] := c;
      mem[FRAMEBUFFER + 2 * index + 1] := color;
    }

    method Clear()
      requires Valid()
      modifies mem, this`doc
      ensures Valid() && OnlyScreen(old(mem[..]), mem[..])
      ensures var d := old(doc);
        doc == d.(cells := d.cells[..WIDTH * Top(d)] + Blanks(color, CELLS))
    {
      WipeRows(0);
      doc := doc.(cells := doc.cells[..WIDTH * Top(doc)] + Blanks(color, CELLS));
      assert Window(doc) == Blanks(color, CELLS);
    }

    /** The cells move up by lines rows; the cursor of the terminal stays where it is. */
    method MoveUp(lines: nat)
      requires FRAMEBUFFER + SCREEN_BYTES <= mem.Length && lines < HEIGHT
      modifies mem
      ensures Screen(mem[..]) == Scrolled(Screen(old(mem[..])), lines, color)
      ensures OnlyScreen(old(mem[..]), mem[..])
    {
      var size := WIDTH * (HEIGHT - lines) * 2;
      var src := FRAMEBUFFER + 2 * WIDTH * lines;
      ghost var was := mem[..];
      assert was[src..src + size] == mem[src..src + size];
      Memmove(mem, FRAMEBUFFER, src, size);
      ghost var moved := mem[..];
      assert moved == Blit(was, FRAMEBUFFER, was[src..src + size]);
      MovedScreen(was, moved, lines, src, size);
      WipeRows(HEIGHT - lines);
      assert Wiped(Screen(moved), HEIGHT - lines, color) == Scrolled(Screen(was), lines, color);
    }

    /** Nonzero when there are not that many lines; otherwise the document gets blank rows. */
    method Scroll(lines: nat) returns (r: int)
      requires Valid()
      modifies mem, this`doc
      ensures Valid() && OnlyScreen(old(mem[..]), mem[..])
      ensures r == if lines >= HEIGHT then 1 else 0
      ensures r != 0 ==> doc == old(doc) && mem[..] == old(mem[..])
      ensures r == 0 ==> var d := old(doc);
        doc == d.(cells := d.cells + Blanks(color, WIDTH * lines), row := d.row + lines)
      ensures r == 0 ==> Screen(mem[..]) == Scrolled(Screen(old(mem[..])), lines, color)
    {
      if lines >= HEIGHT {
        return 1;
      }
      MoveUp(lines);
      ghost var grown := doc.(cells := doc.cells + Blanks(color, WIDTH * lines), row := doc.row + lines);
      WindowScrolls(doc, grown, lines, color);
      doc := grown;
      return 0;
    }

    /** Two calls of scroll in one colour leave the screen, and the document, as one call would. */
    method ScrollTwice(a: nat, b: nat)
      requires Valid() && a + b < HEIGHT
      modifies mem, this`doc
      ensures Valid() && OnlyScreen(old(mem[..]), mem[..])
      ensures Screen(mem[..]) == Scrolled(Screen(old(mem[..])), a + b, color)
      ensures var d := old(doc);
        doc == d.(cells := d.cells + Blanks(color, WIDTH * (a + b)), row := d.row + (a + b))
    {
      ghost var was, cells := Screen(mem[..]), doc.cells;
      var r := Scroll(a);
      r := Scroll(b);
      ScrollsAdd(was, a, b, color);
      assert cells + Blanks(color, WIDTH * a) + Blanks(color, WIDTH * b) == cells + Blanks(color, WIDTH * (a + b));
    }

    /** Advance to the next row, scrolling when the last one is left. */
    method Advance()
      requires Valid() && column == 0
      modifies mem, this`row, this`doc
      ensures Valid() && OnlyScreen(old(mem[..]), mem[..])
      ensures doc == NextRow(old(doc), color)
    {
      ghost var d := doc;
      NextRowRoom(d, color);
      row := row + 1;
      if row == HEIGHT {
        MoveUp(1);
        row := row - 1;
        WindowScrolls(d, NextRow(d, color), 1, color);
      }
      doc := NextRow(d, color);
    }

    /** 1 for a character out of bounds. */
    method Putchar(c: byte) returns (r: int)
      requires Valid()
      modifies mem, this`row, this`column, this`fullLine, this`doc
      ensures Valid() && OnlyScreen(old(mem[..]), mem[..])
      ensures WIDTH * old(doc).row + old(doc).col < |old(doc).cells| && doc == Put(old(doc), c, color)
      ensures r == if c == 10 || 20 <= c <= 126 then 0 else 1
    {
      PutProper(doc, c, color);
      if c == NEWLINE {
        if fullLine {
          fullLine := false;
          doc := doc.(full := false);
          return 0;
        }
        Newline();
        return 0;
      }
      fullLine := false;
      doc := doc.(full := false);
      if c < 20 || c > 126 {
        return 1;
      }
      assert Put(doc, c, color) == Put(old(doc), c, color);
      Type(c);
      return 0;
    }

    /** A newline on a row that was not just filled. */
    method Newline()
      requires Valid() && !fullLine
      modifies mem, this`row, this`column, this`doc
      ensures Valid() && OnlyScreen(old(mem[..]), mem[..])
      ensures doc == NextRow(old(doc), color)
    {
      column := 0;
      doc := doc.(col := 0);
      Advance();
    }

    /** A character that has a glyph. */
    method Type(c: byte)
      requires Valid() && !fullLine && Accepted(c)
      modifies mem, this`row, this`column, this`fullLine, this`doc
      ensures Valid() && OnlyScreen(old(mem[..]), mem[..])
      ensures WIDTH * old(doc).row + old(doc).col < |old(doc).cells| && doc == Put(old(doc), c, color)
    {
      PutProper(doc, c, color);
      PutAccepted(doc, c, color);
      StoreInDoc(row * WIDTH + column, c);
      NextColumn();
    }

    /** Increment the column; after a full row, change lines and remember it. */
    method NextColumn()
      requires Valid() && !fullLine
      modifies mem, this`row, this`column, this`fullLine, this`doc
      ensures Valid() && OnlyScreen(old(mem[..]), mem[..])
      ensures var d := old(doc);
        doc == if d.col + 1 == WIDTH then NextRow(d, color).(full := true) else d.(col := d.col + 1)
    {
      column := column + 1;
      if column == WIDTH {
        column := 0;
        fullLine := true;
        doc := doc.(col := 0, full := true);
        Advance();
      } else {
        doc := doc.(col := doc.col + 1);
      }
    }

    method StoreInDoc(index: nat, c: byte)
      requires Valid() && index == row * WIDTH + column
      modifies mem, this`doc
      ensures Valid() && OnlyScreen(old(mem[..]), mem[..])
      ensures WIDTH * old(doc).row + old(doc).col < |old(doc).cells|
      ensures doc == old(doc).(cells := old(doc).cells[WIDTH * old(doc).row + old(doc).col := Cell(c, color)])
    {
      ghost var was, d := mem[..], doc;
      StoreCell(index, c);
      StoredScreen(was, mem[..], index, c, color);
      doc := d.(cells := d.cells[WIDTH * d.row + d.col := Cell(c, color)]);
      assert Window(doc) == Window(d)[index := Cell(c, color)];
    }

    /** _outstream::writeString with a size: one putchar a character. */
    method WriteString(str: seq<byte>) returns (n: nat)
      requires Valid()
      modifies mem, this`row, this`column, this`fullLine, this`doc
      ensures Valid() && OnlyScreen(old(mem[..]), mem[..]) && n == |str|
      ensures Proper(old(doc)) && doc == PutAll(old(doc), str, color)
    {
      n := 0;
      while n < |str|
        invariant n <= |str| && Valid() && OnlyScreen(old(mem[..]), mem[..])
        invariant doc == PutAll(old(doc), str[..n], color)
      {
        var r := Putchar(str[n]);
        assert str[..n + 1][..n] == str[..n];
        n := n + 1;
      }
      assert str[..n] == str;
    }
  }

  /** As kmain begins when no boot loader of its own left a screen behind: a new terminal, cleared,
      and then a text. */
  method ClearAndWrite(mem: array<byte>, text: seq<byte>) returns (t: Terminal)
    requires 0xB8FA0 <= mem.Length
    requires forall i :: 0 <= i < |text| ==> text[i] == 10 || 20 <= text[i] <= 126
    modifies mem
    ensures fresh(t) && t.mem == mem && t.Valid() && OnlyScreen(old(mem[..]), mem[..])
    ensures |Rendering(text, 7)| <= 80 * RowsWhenAt(RowAfter(text))
    ensures Screen(mem[..]) == LastRows(Rendering(text, 7), RowAfter(text), 7)
    ensures t.row == RowAfter(text) - (RowsWhenAt(RowAfter(text)) - 25)
    ensures t.column == |Lines(text).1| % 80
  {
    t := new Terminal(mem);
    t.Clear();
    assert t.doc == Cleared(GREY);
    var n := t.WriteString(text);
    ShownAfterText(text, GREY);
  }

  /** Bytes [lo, hi) of the framebuffer hold blanks, everything else is as before. */
  ghost predicate WipedTo(m: seq<byte>, m': seq<byte>, lo: nat, hi: nat, color: byte) {
    |m'| == |m| && forall k :: 0 <= k < |m| ==>
      m'[k] == if lo <= k < hi then (if (k - lo) % 2 == 0 then BLANK else color) else m[k]
  }

  lemma WipeOneMore(m: seq<byte>, m1: seq<byte>, m2: seq<byte>, lo: nat, index: nat, color: byte)
    requires FRAMEBUFFER + SCREEN_BYTES <= |m| && index < CELLS
    requires FRAMEBUFFER <= lo <= FRAMEBUFFER + 2 * index && lo % 2 == 0
    requires WipedTo(m, m1, lo, FRAMEBUFFER + 2 * index, color)
    requires m2 == Blit(m1, FRAMEBUFFER + 2 * index, [BLANK, color])
    ensures WipedTo(m, m2, lo, FRAMEBUFFER + 2 * (index + 1), color)
  {
  }

  lemma WipedScreen(m: seq<byte>, m': seq<byte>, first: nat, color: byte)
    requires FRAMEBUFFER + SCREEN_BYTES <= |m| && first <= HEIGHT
    requires WipedTo(m, m', FRAMEBUFFER + 2 * WIDTH * first, FRAMEBUFFER + SCREEN_BYTES, color)
    ensures Screen(m') == Wiped(Screen(m), first, color) && OnlyScreen(m, m')
  {
  }

  lemma MovedScreen(m: seq<byte>, m': seq<byte>, lines: nat, src: nat, size: nat)
    requires FRAMEBUFFER + SCREEN_BYTES <= |m| && lines < HEIGHT
    requires src == FRAMEBUFFER + 2 * WIDTH * lines && size == 2 * WIDTH * (HEIGHT - lines)
    requires m' == Blit(m, FRAMEBUFFER, m[src..src + size])
    ensures OnlyScreen(m, m')
    ensures Screen(m')[..WIDTH * (HEIGHT - lines)] == Screen(m)[WIDTH * lines..]
  {
    var n, k := WIDTH * (HEIGHT - lines), WIDTH * lines;
    forall i | 0 <= i < n ensures Screen(m')[i] == Screen(m)[i + k] {
      MovedCell(m, m', src, size, i, i + k);
    }
    MovedCells(Screen(m), Screen(m'), n, k);
    FrameMoved(m, m', src, size);
  }

  lemma MovedCells(s: seq<Cell>, s': seq<Cell>, n: nat, k: nat)
    requires |s| == |s'| == n + k && forall i :: 0 <= i < n ==> s'[i] == s[i + k]
    ensures s'[..n] == s[k..]
  {
  }

  lemma FrameMoved(m: seq<byte>, m': seq<byte>, src: nat, size: nat)
    requires src + size <= |m| && FRAMEBUFFER + SCREEN_BYTES <= |m| && size <= SCREEN_BYTES
    requires m' == Blit(m, FRAMEBUFFER, m[src..src + size])
    ensures OnlyScreen(m, m')
  {
  }

  lemma MovedCell(m: seq<byte>, m': seq<byte>, src: nat, size: nat, i: nat, j: nat)
    requires FRAMEBUFFER + SCREEN_BYTES <= |m| && i < CELLS && j < CELLS
    requires 2 * i + 1 < size && FRAMEBUFFER + 2 * j == src + 2 * i
    requires src + size <= |m| && FRAMEBUFFER + size <= |m|
    requires m' == Blit(m, FRAMEBUFFER, m[src..src + size])
    ensures CellAt(m', i) == CellAt(m, j)
  {
    MovedByte(m, m', src, size, 2 * i);
    MovedByte(m, m', src, size, 2 * i + 1);
  }

  lemma MovedByte(m: seq<byte>, m': seq<byte>, src: nat, size: nat, k: nat)
    requires src + size <= |m| && FRAMEBUFFER + size <= |m| && k < size
    requires m' == Blit(m, FRAMEBUFFER, m[src..src + size])
    ensures m'[FRAMEBUFFER + k] == m[src + k]
  {
    var data := m[src..src + size];
    assert data[k] == m[src + k];
  }

  /** The next row is either on the screen already, or is the one scrolled in at the bottom. */
  lemma NextRowRoom(d: Doc, color: byte)
    requires Proper(d)
    ensures var n := NextRow(d, color);
      && Proper(n)
      && (d.row + 1 < Top(d) + HEIGHT ==> n.cells == d.cells && Window(n) == Window(d))
      && (d.row + 1 == Top(d) + HEIGHT ==> n.cells == d.cells + Blanks(color, WIDTH) && Top(n) == Top(d) + 1)
  {
  }

  /** The window of a document that grew by blank rows is the scrolled window. */
  lemma WindowScrolls(d: Doc, grown: Doc, lines: nat, color: byte)
    requires CELLS <= |d.cells| && lines < HEIGHT
    requires grown.cells == d.cells + Blanks(color, WIDTH * lines)
    ensures Window(grown) == Scrolled(Window(d), lines, color)
  {
  }

  lemma StoredScreen(m: seq<byte>, m': seq<byte>, index: nat, c: byte, color: byte)
    requires FRAMEBUFFER + SCREEN_BYTES <= |m| && index < CELLS
    requires m' == Blit(m, FRAMEBUFFER + 2 * index, [c, color])
    ensures Screen(m') == Screen(m)[index := Cell(c, color)] && OnlyScreen(m, m')
  {
  }
}
