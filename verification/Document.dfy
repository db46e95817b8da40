/** The unbounded document a text terminal is a window onto. */
module Document {
  import opened Bytes

  const WIDTH := 80
  const HEIGHT := 25
  const CELLS := 2000  // WIDTH * HEIGHT
  const NEWLINE: byte := 10
  const BLANK: byte := 32

  datatype Cell = Cell(glyph: byte, color: byte)

  /** Rows of cells without end, kept flat, with a cursor; full is the terminal's _fullLine. */
  datatype Doc = Doc(cells: seq<Cell>, row: nat, col: nat, full: bool)

  function Blanks(color: byte, n: nat): (r: seq<Cell>)
    ensures |r| == n && forall i :: 0 <= i < n ==> r[i] == Cell(BLANK, color)
  {
    seq(n, _ => Cell(BLANK, color))
  }

  /** Rows that have left the screen at the top. */
  function Top(d: Doc): int {
    |d.cells| / WIDTH - HEIGHT
  }

  ghost predicate Proper(d: Doc) {
    && |d.cells| % WIDTH == 0 && CELLS <= |d.cells|
    && Top(d) <= d.row < |d.cells| / WIDTH && d.col < WIDTH
  }

  /** The last 25 rows: what the screen shows. */
  function Window(d: Doc): (w: seq<Cell>)
    requires CELLS <= |d.cells|
    ensures |w| == CELLS
  {
    d.cells[|d.cells| - CELLS..]
  }

  /** The cursor moves to the start of the next row; the document grows when there is none. */
  function NextRow(d: Doc, color: byte): Doc {
    d.(cells := if WIDTH * (d.row + 1) == |d.cells| then d.cells + Blanks(color, WIDTH) else d.cells,
       row := d.row + 1, col := 0)
  }

  predicate Accepted(c: byte) {
    20 <= c <= 126
  }

  /** One character, on the document. */
  function Put(d: Doc, c: byte, color: byte): Doc
    requires WIDTH * d.row + d.col < |d.cells|
  {
    if c == NEWLINE then
      if d.full then d.(full := false) else NextRow(d, color)
    else if !Accepted(c) then d.(full := false)
    else
      var typed := d.(cells := d.cells[WIDTH * d.row + d.col := Cell(c, color)]);
      if d.col + 1 == WIDTH then NextRow(typed, color).(full := true)
      else typed.(col := d.col + 1, full := false)
  }

  /** The order in which the terminal does it: forget the full row, store, move on. */
  lemma PutAccepted(d: Doc, c: byte, color: byte)
    requires WIDTH * d.row + d.col < |d.cells| && Accepted(c)
    ensures var typed := d.(full := false).(cells := d.cells[WIDTH * d.row + d.col := Cell(c, color)]);
      Put(d, c, color) ==
        if d.col + 1 == WIDTH then NextRow(typed, color).(full := true) else typed.(col := d.col + 1)
  {
  }

  /** What a character does to cells and cursor: 20 to 126 are stored, 10 ends a line (if the row was not
      just filled), and everything else leaves all cells and the cursor alone. New rows are blank. */
  lemma PutEffect(d: Doc, c: byte, color: byte, k: nat)
    requires Proper(d) && k < |Put(d, c, color).cells|
    ensures var r := Put(d, c, color); var at := 80 * d.row + d.col;
      && at < |d.cells| <= |r.cells|
      && r.cells[k] == (if 20 <= c <= 126 && k == at then Cell(c, color)
                        else if k < |d.cells| then d.cells[k] else Cell(32, color))
      && (20 <= c <= 126 ==>
            && r.row == d.row + (if d.col == 79 then 1 else 0)
            && r.col == (if d.col == 79 then 0 else d.col + 1) && (r.full <==> d.col == 79))
      && (c == 10 ==>
            && !r.full && r.row == (if d.full then d.row else d.row + 1)
            && r.col == (if d.full then d.col else 0))
      && (c != 10 && !(20 <= c <= 126) ==> !r.full && r.row == d.row && r.col == d.col && r.cells == d.cells)
      && |r.cells| == (if r.row == |d.cells| / 80 then |d.cells| + 80 else |d.cells|)
  {
  }

  lemma PutProper(d: Doc, c: byte, color: byte)
    requires Proper(d)
    ensures WIDTH * d.row + d.col < |d.cells| && Proper(Put(d, c, color))
  {
  }

  function PutAll(d: Doc, text: seq<byte>, color: byte): (r: Doc)
    requires Proper(d)
    ensures Proper(r)
  {
    if text == [] then d
    else
      var before := PutAll(d, text[..|text| - 1], color);
      PutProper(before, text[|text| - 1], color);
      Put(before, text[|text| - 1], color)
  }

  /** Rows that have scrolled off are never written again. */
  lemma {:induction false} ScrolledOffIsForever(d: Doc, text: seq<byte>, color: byte)
    requires Proper(d)
    ensures var r := PutAll(d, text, color);
      |d.cells| <= |r.cells| && Top(d) >= 0 && r.cells[..WIDTH * Top(d)] == d.cells[..WIDTH * Top(d)]
  {
    if text != [] {
      ScrolledOffIsForever(d, text[..|text| - 1], color);
    }
  }

  // ---- layout of a text ----

  /** The complete lines of a text, and the unfinished one after the last newline. */
  function Lines(text: seq<byte>): (seq<seq<byte>>, seq<byte>) {
    if text == [] then ([], [])
    else
      var (done, last) := Lines(text[..|text| - 1]);
      var c := text[|text| - 1];
      if c == NEWLINE then (done + [last], []) else (done, last + [c])
  }

  function Unlines(done: seq<seq<byte>>): seq<byte> {
    if done == [] then [] else Unlines(done[..|done| - 1]) + done[|done| - 1] + [NEWLINE]
  }

  lemma {:induction false} LinesSplit(text: seq<byte>)
    ensures var (done, last) := Lines(text);
      text == Unlines(done) + last && NEWLINE !in last && forall l :: l in done ==> NEWLINE !in l
  {
    if text != [] {
      var head, c := text[..|text| - 1], text[|text| - 1];
      LinesSplit(head);
      var (done, last) := Lines(head);
      assert text == head + [c];
      if c == NEWLINE {
        assert (done + [last])[..|done|] == done;
      }
    }
  }

  /** Rows a finished line of this length takes: at least one, and no empty one after a full row. */
  function RowsOf(len: nat): nat {
    if len == 0 then 1 else (len + WIDTH - 1) / WIDTH
  }

  function TotalRows(done: seq<seq<byte>>): nat {
    if done == [] then 0 else TotalRows(done[..|done| - 1]) + RowsOf(|done[|done| - 1]|)
  }

  function Glyphs(line: seq<byte>, color: byte): (r: seq<Cell>)
    ensures |r| == |line|
  {
    seq(|line|, i requires 0 <= i < |line| => Cell(line[i], color))
  }

  /** Finished lines, each padded with blanks to whole rows. */
  function Page(done: seq<seq<byte>>, color: byte): (r: seq<Cell>)
    ensures |r| == WIDTH * TotalRows(done)
  {
    if done == [] then []
    else
      var line := done[|done| - 1];
      Page(done[..|done| - 1], color) + Glyphs(line, color) + Blanks(color, WIDTH * RowsOf(|line|) - |line|)
  }

  /** The whole text as cells: finished lines padded, the unfinished one as far as it goes. */
  function Rendering(text: seq<byte>, color: byte): seq<Cell> {
    Page(Lines(text).0, color) + Glyphs(Lines(text).1, color)
  }

  ghost predicate Printable(text: seq<byte>) {
    forall c :: c in text ==> c == NEWLINE || Accepted(c)
  }

  /** A cleared screen with the cursor at the top left. */
  function Cleared(color: byte): Doc {
    Doc(Blanks(color, CELLS), 0, 0, false)
  }

  /** Where the cursor ends up: each finished line counts max(1, ceil(len/80)) rows. */
  lemma {:induction false} CursorAfterText(d: Doc, text: seq<byte>, color: byte)
    requires Proper(d) && d.col == 0 && !d.full && Printable(text)
    ensures var r := PutAll(d, text, color); var (done, last) := Lines(text);
      && r.row == d.row + TotalRows(done) + |last| / WIDTH
      && r.col == |last| % WIDTH
      && (r.full <==> last != [] && |last| % WIDTH == 0)
  {
    if text != [] {
      var head, c := text[..|text| - 1], text[|text| - 1];
      assert text == head + [c];
      CursorAfterText(d, head, color);
      var (done, last) := Lines(head);
      if c == NEWLINE {
        assert (done + [last])[..|done|] == done;
      } else {
        assert c in text;
        OneMore(|last|);
      }
    }
  }

  lemma OneMore(n: nat)
    ensures if n % WIDTH + 1 == WIDTH
      then (n + 1) / WIDTH == n / WIDTH + 1 && (n + 1) % WIDTH == 0
      else (n + 1) / WIDTH == n / WIDTH && (n + 1) % WIDTH == n % WIDTH + 1
  {
  }

  /** cells are this page and nothing but blanks after it. */
  ghost predicate PageThenBlanks(cells: seq<Cell>, page: seq<Cell>, color: byte) {
    |page| <= |cells| && cells == page + Blanks(color, |cells| - |page|)
  }

  lemma PutGlyph(d: Doc, page: seq<Cell>, c: byte, color: byte)
    requires Proper(d) && Accepted(c) && |page| == WIDTH * d.row + d.col
    requires PageThenBlanks(d.cells, page, color)
    ensures PageThenBlanks(Put(d, c, color).cells, page + [Cell(c, color)], color)
  {
    var typed := d.cells[|page| := Cell(c, color)];
    assert typed == page + [Cell(c, color)] + Blanks(color, |d.cells| - |page| - 1);
    var r := Put(d, c, color).cells;
    assert r == typed || r == typed + Blanks(color, WIDTH);
    assert r == page + [Cell(c, color)] + Blanks(color, |r| - |page| - 1);
  }

  lemma PutNewline(d: Doc, page: seq<Cell>, pad: nat, color: byte)
    requires Proper(d) && |page| == WIDTH * d.row + d.col && pad == (if d.full then 0 else WIDTH - d.col)
    requires PageThenBlanks(d.cells, page, color)
    ensures PageThenBlanks(Put(d, NEWLINE, color).cells, page + Blanks(color, pad), color)
  {
    var r := Put(d, NEWLINE, color).cells;
    assert r == d.cells || r == d.cells + Blanks(color, WIDTH);
    assert |page| + pad <= |r|;
    assert r == page + Blanks(color, |r| - |page|);
    assert Blanks(color, |r| - |page|) == Blanks(color, pad) + Blanks(color, |r| - |page| - pad);
  }

  lemma RenderingGlyph(head: seq<byte>, c: byte, color: byte)
    requires c != NEWLINE
    ensures Rendering(head + [c], color) == Rendering(head, color) + [Cell(c, color)]
    ensures Lines(head + [c]) == (Lines(head).0, Lines(head).1 + [c])
  {
    assert (head + [c])[..|head|] == head;
    var last := Lines(head).1;
    assert Glyphs(last + [c], color) == Glyphs(last, color) + [Cell(c, color)];
  }

  lemma RenderingNewline(head: seq<byte>, color: byte)
    ensures var last := Lines(head).1;
      Rendering(head + [NEWLINE], color) ==
        Rendering(head, color) + Blanks(color, WIDTH * RowsOf(|last|) - |last|)
    ensures Lines(head + [NEWLINE]) == (Lines(head).0 + [Lines(head).1], [])
  {
    assert (head + [NEWLINE])[..|head|] == head;
    var (done, last) := Lines(head);
    var lines := done + [last];
    assert lines[..|done|] == done && lines[|done|] == last;
    assert Glyphs([], color) == [];
  }

  /** What the document holds after a text on a cleared screen: its rendering, then blanks. */
  lemma {:induction false} TextOnClearedScreen(text: seq<byte>, color: byte)
    requires Printable(text)
    ensures Proper(Cleared(color))
    ensures var r := PutAll(Cleared(color), text, color);
      |Rendering(text, color)| == WIDTH * r.row + r.col && PageThenBlanks(r.cells, Rendering(text, color), color)
  {
    var d := Cleared(color);
    if text == [] {
      assert Rendering(text, color) == [];
    } else {
      var head, c := text[..|text| - 1], text[|text| - 1];
      assert text == head + [c];
      TextOnClearedScreen(head, color);
      CursorAfterText(d, head, color);
      CursorAfterText(d, text, color);
      var before, page, last := PutAll(d, head, color), Rendering(head, color), Lines(head).1;
      if c == NEWLINE {
        RenderingNewline(head, color);
        assert WIDTH * RowsOf(|last|) - |last| == if before.full then 0 else WIDTH - before.col;
        PutNewline(before, page, WIDTH * RowsOf(|last|) - |last|, color);
      } else {
        RenderingGlyph(head, c, color);
        assert c in text;
        PutGlyph(before, page, c, color);
      }
    }
  }

  /** Rows of the document when its cursor has got this far down. */
  function RowsWhenAt(row: nat): nat {
    if row < HEIGHT then HEIGHT else row + 1
  }

  lemma {:induction false} GrowsOnlyAtTheBottom(text: seq<byte>, color: byte)
    ensures Proper(Cleared(color))
    ensures var r := PutAll(Cleared(color), text, color); |r.cells| == WIDTH * RowsWhenAt(r.row)
  {
    if text != [] {
      GrowsOnlyAtTheBottom(text[..|text| - 1], color);
    }
  }

  /** Row of the document the cursor is in after the text, counted from where the text began. */
  function RowAfter(text: seq<byte>): nat {
    TotalRows(Lines(text).0) + |Lines(text).1| / WIDTH
  }

  /** The last 25 rows of a page that is followed by blanks, with the cursor in this row. */
  function LastRows(page: seq<Cell>, row: nat, color: byte): seq<Cell>
    requires |page| <= WIDTH * RowsWhenAt(row)
  {
    var rows := RowsWhenAt(row);
    (page + Blanks(color, WIDTH * rows - |page|))[WIDTH * (rows - HEIGHT)..]
  }

  lemma WindowIsLastRows(d: Doc, page: seq<Cell>, color: byte)
    requires PageThenBlanks(d.cells, page, color) && |d.cells| == WIDTH * RowsWhenAt(d.row)
    ensures CELLS <= |d.cells| && Window(d) == LastRows(page, d.row, color)
    ensures Top(d) == RowsWhenAt(d.row) - HEIGHT
  {
  }

  /** What the window shows of a text on a cleared screen, and where in it the cursor is. */
  lemma ShownAfterText(text: seq<byte>, color: byte)
    requires Printable(text)
    ensures Proper(Cleared(color)) && |Rendering(text, color)| <= WIDTH * RowsWhenAt(RowAfter(text))
    ensures var r := PutAll(Cleared(color), text, color);
      && CELLS <= |r.cells| && Window(r) == LastRows(Rendering(text, color), RowAfter(text), color)
      && r.row == RowAfter(text) && Top(r) == RowsWhenAt(RowAfter(text)) - HEIGHT
      && r.col == |Lines(text).1| % WIDTH
  {
    var r := PutAll(Cleared(color), text, color);
    CursorAfterText(Cleared(color), text, color);
    assert r.row == RowAfter(text);
    TextOnClearedScreen(text, color);
    GrowsOnlyAtTheBottom(text, color);
    WindowIsLastRows(r, Rendering(text, color), color);
  }
}
