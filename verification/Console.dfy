/** The 25x80 text console of console.c. The screen is an array that `console_putc` updates in
    place and scrolls; the specification is an unbounded sheet of rows that never scrolls, of
    which the screen shows the last 25. */
module Console {
  import opened Values

  const ROWS := 25
  const COLUMNS := 80

  type Cell = int   // a 16-bit word: attribute and character

  const NEWLINE: Byte := 10
  const RETURN: Byte := 13

  /** The character or-ed with the grey-on-black attribute. `char` is signed, so a byte with its
      top bit set is sign extended first, and the attribute's bits are in it already. */
  function CellOf(ch: Byte): (c: Cell)
    ensures 0 <= c < 0x1_0000 && c % 0x100 == ch && (c / 0x100 == if ch < 0x80 then 0x07 else 0xff)
  {
    if ch < 0x80 then 0x0700 + ch else 0xff00 + ch
  }

  // ----- the unbounded sheet

  type Row = seq<Cell>

  /** All rows written so far; the cursor is in column `col` of the last one. */
  datatype Sheet = Sheet(rows: seq<Row>, col: nat)

  function Blank(): (r: Row)
    ensures |r| == COLUMNS && forall x :: 0 <= x < COLUMNS ==> r[x] == 0
  {
    seq(COLUMNS, _ => 0)
  }

  predicate ValidSheet(p: Sheet) {
    |p.rows| > 0 && p.col < COLUMNS && forall y :: 0 <= y < |p.rows| ==> |p.rows[y]| == COLUMNS
  }

  function Feed(p: Sheet): (r: Sheet)
    requires ValidSheet(p)
    ensures ValidSheet(r)
  {
    Sheet(p.rows + [Blank()], 0)
  }

  /** The sheet with cell `c` at the cursor. */
  function Write(p: Sheet, c: Cell): (r: Sheet)
    requires ValidSheet(p)
    ensures ValidSheet(r)
  {
    var last := |p.rows| - 1;
    Sheet(p.rows[last := p.rows[last][p.col := c]], p.col)
  }

  function Put(p: Sheet, ch: Byte): (r: Sheet)
    requires ValidSheet(p)
    ensures ValidSheet(r)
  {
    if ch == NEWLINE then Feed(p)
    else if ch == RETURN then Sheet(p.rows, 0)
    else
      var p1 := Write(p, CellOf(ch));
      if p.col + 1 < COLUMNS then Sheet(p1.rows, p.col + 1) else Feed(p1)
  }

  function Layout(text: seq<Byte>): (p: Sheet)
    ensures ValidSheet(p)
    decreases |text|
  {
    if text == [] then Sheet([Blank()], 0) else Put(Layout(text[..|text| - 1]), text[|text| - 1])
  }

  /** The sheet row shown in screen row 0. */
  function Top(p: Sheet): nat {
    if |p.rows| <= ROWS then 0 else |p.rows| - ROWS
  }

  /** What screen cell (x, y) shows: the sheet from Top down, blank below its last row. */
  function Shown(p: Sheet, x: nat, y: nat): Cell
    requires ValidSheet(p) && x < COLUMNS
  {
    if Top(p) + y < |p.rows| then p.rows[Top(p) + y][x] else 0
  }

  function PlainCell(text: seq<Byte>, y: nat, x: nat): Cell {
    if y * COLUMNS + x < |text| then CellOf(text[y * COLUMNS + x]) else 0
  }

  /** The sheet is the text cut into rows of 80. */
  ghost predicate IsPlain(p: Sheet, text: seq<Byte>)
    requires ValidSheet(p)
  {
    && |p.rows| == |text| / COLUMNS + 1 && p.col == |text| % COLUMNS
    && forall y, x :: 0 <= y < |p.rows| && 0 <= x < COLUMNS ==> p.rows[y][x] == PlainCell(text, y, x)
  }

  /** For text without control characters the sheet is the text cut into rows of 80. */
  lemma {:induction false} PlainLayout(text: seq<Byte>)
    requires forall i :: 0 <= i < |text| ==> text[i] != NEWLINE && text[i] != RETURN
    ensures IsPlain(Layout(text), text)
    decreases |text|
  {
    if text != [] {
      var n := |text| - 1;
      PlainLayout(text[..n]);
      PlainStep(text, Layout(text[..n]));
    }
  }

  lemma PlainStep(text: seq<Byte>, p: Sheet)
    requires text != [] && ValidSheet(p) && IsPlain(p, text[..|text| - 1])
    requires text[|text| - 1] != NEWLINE && text[|text| - 1] != RETURN
    ensures IsPlain(Put(p, text[|text| - 1]), text)
  {
    var n := |text| - 1;
    var p2 := Put(p, text[n]);
    var last := |p.rows| - 1;
    assert n == last * COLUMNS + p.col;
    forall y, x | 0 <= y < |p2.rows| && 0 <= x < COLUMNS ensures p2.rows[y][x] == PlainCell(text, y, x) {
      if y <= last {
        assert p.rows[y][x] == PlainCell(text[..n], y, x);
        if y < last { assert y * COLUMNS + x < last * COLUMNS; }
      }
    }
  }

  // ----- what each character does

  predicate IsPlainText(text: seq<Byte>) {
    forall i :: 0 <= i < |text| ==> text[i] != 10 && text[i] != 13
  }

  /** Row r with the text written over it from column x on. */
  function Over(r: Row, x: nat, text: seq<Byte>): (o: Row)
    requires x + |text| <= |r|
    ensures |o| == |r| && forall i :: 0 <= i < |r| ==>
                            o[i] == if x <= i < x + |text| then CellOf(text[i - x]) else r[i]
  {
    seq(|r|, i requires 0 <= i < |r| => if x <= i < x + |text| then CellOf(text[i - x]) else r[i])
  }

  /** Plain text that does not reach the edge overwrites the last row from the cursor on. */
  lemma {:induction false} PlainRun(t: seq<Byte>, b: seq<Byte>)
    requires IsPlainText(b) && Layout(t).col + |b| < 80
    ensures var p := Layout(t);
            var last := |p.rows| - 1;
            Layout(t + b) == Sheet(p.rows[..last] + [Over(p.rows[last], p.col, b)], p.col + |b|)
    decreases |b|
  {
    var p := Layout(t);
    var last := |p.rows| - 1;
    if b == [] {
      assert t + b == t && Over(p.rows[last], p.col, b) == p.rows[last];
    } else {
      var n := |b| - 1;
      PlainRun(t, b[..n]);
      assert (t + b)[..|t + b| - 1] == t + b[..n] && (t + b)[|t + b| - 1] == b[n];
      RowGrows(p, b);
    }
  }

  lemma RowGrows(p: Sheet, b: seq<Byte>)
    requires ValidSheet(p) && b != [] && IsPlainText(b) && p.col + |b| < 80
    ensures var last, n := |p.rows| - 1, |b| - 1;
            Put(Sheet(p.rows[..last] + [Over(p.rows[last], p.col, b[..n])], p.col + n), b[n])
            == Sheet(p.rows[..last] + [Over(p.rows[last], p.col, b)], p.col + |b|)
  {
    hide CellOf;
    var last, n := |p.rows| - 1, |b| - 1;
    var r := Over(p.rows[last], p.col, b[..n]);
    assert r[p.col + n := CellOf(b[n])] == Over(p.rows[last], p.col, b);
    var q := p.rows[..last] + [r];
    assert q[last := r[p.col + n := CellOf(b[n])]] == p.rows[..last] + [Over(p.rows[last], p.col, b)];
  }

  /** A line feed starts a new blank row, whatever stands before it. */
  lemma NewlineLaw(t: seq<Byte>)
    ensures var p, q := Layout(t), Layout(t + [10]);
            && q.col == 0 && |q.rows| == |p.rows| + 1 && q.rows[..|p.rows|] == p.rows
            && forall x :: 0 <= x < 80 ==> q.rows[|p.rows|][x] == 0
  {
    assert (t + [10])[..|t|] == t;
  }

  /** A carriage return goes back to column 0 and changes no cell. */
  lemma ReturnLaw(t: seq<Byte>)
    ensures Layout(t + [13]) == Sheet(Layout(t).rows, 0)
  {
    assert (t + [13])[..|t|] == t;
  }

  /** A row that begins with the line and is blank behind it. */
  function LineRow(line: seq<Byte>): Row
    requires |line| < 80
  {
    Over(Blank(), 0, line)
  }

  predicate IsLines(lines: seq<seq<Byte>>) {
    forall i :: 0 <= i < |lines| ==> |lines[i]| < 80 && IsPlainText(lines[i])
  }

  /** The lines, each with its line feed. */
  function Joined(lines: seq<seq<Byte>>): seq<Byte> {
    if lines == [] then [] else Joined(lines[..|lines| - 1]) + lines[|lines| - 1] + [10]
  }

  function LineRows(lines: seq<seq<Byte>>): (rs: seq<Row>)
    requires IsLines(lines)
    ensures |rs| == |lines|
  {
    seq(|lines|, i requires 0 <= i < |lines| => LineRow(lines[i]))
  }

  /** Any list of lines shorter than a row is laid out as its rows, one below the other, with the
      cursor at the start of the blank row after them. */
  lemma {:induction false} LinesLayout(lines: seq<seq<Byte>>)
    requires IsLines(lines)
    ensures Layout(Joined(lines)) == Sheet(LineRows(lines) + [Blank()], 0)
    decreases |lines|
  {
    if lines != [] {
      var n := |lines| - 1;
      var t, b := Joined(lines[..n]), lines[n];
      LinesLayout(lines[..n]);
      PlainRun(t, b);
      NewlineLaw(t + b);
      var p, q := Layout(t + b), Layout(t + b + [10]);
      hide Layout, Joined;
      assert LineRows(lines) == LineRows(lines[..n]) + [LineRow(b)];
      assert p.rows == LineRows(lines);
      assert q.rows[n + 1] == Blank();
      assert q.rows == q.rows[..n + 1] + [q.rows[n + 1]];
    }
  }

  /** After a carriage return a text overwrites the front of what stands in the row. */
  lemma ReturnOverwrites(a: seq<Byte>, b: seq<Byte>)
    requires IsPlainText(a) && IsPlainText(b) && |a| < 80 && |b| < 80
    ensures Layout(a + [13] + b) == Sheet([Over(LineRow(a), 0, b)], |b|)
  {
    PlainRun([], a);
    assert [] + a == a;
    ReturnLaw(a);
    PlainRun(a + [13], b);
  }

  /** So the screen shows the last 24 lines of the list above a blank row, or all of them from the
      top if there are fewer. */
  lemma LinesShown(lines: seq<seq<Byte>>, x: nat, y: nat)
    requires IsLines(lines) && x < 80 && y < 25
    ensures var first := if |lines| <= 24 then 0 else |lines| - 24;
            Shown(Layout(Joined(lines)), x, y) ==
              if first + y < |lines| && x < |lines[first + y]| then CellOf(lines[first + y][x]) else 0
  {
    LinesLayout(lines);
    hide Layout, Joined, CellOf;
  }

  // ----- the screen

  /** Index of cell (x, y) in the video memory, or none when it is off the screen. */
  function SlotFromXy(x: nat, y: nat): (slot: int)
    ensures slot == -1 <==> x >= 80 || y >= 25
    ensures slot != -1 ==> 0 <= slot < 2000 && slot % 80 == x && slot / 80 == y
  {
    if x >= COLUMNS then -1
    else if y >= ROWS then -1
    else x + y * COLUMNS
  }

  function At(v: seq<Cell>, x: nat, y: nat): Cell
    requires |v| == ROWS * COLUMNS && x < COLUMNS && y < ROWS
  {
    v[x + y * COLUMNS]
  }

  /** Video memory v shows the sheet's last rows. */
  ghost predicate Image(v: seq<Cell>, p: Sheet)
    requires |v| == ROWS * COLUMNS && ValidSheet(p)
  {
    forall x: nat, y: nat {:trigger At(v, x, y)} :: x < COLUMNS && y < ROWS ==> At(v, x, y) == Shown(p, x, y)
  }

  /** So the word of column x in row y of the video memory is that cell of the sheet. */
  lemma ImageCells(v: seq<Cell>, p: Sheet, x: nat, y: nat)
    requires |v| == 2000 && ValidSheet(p) && Image(v, p) && x < 80 && y < 25
    ensures v[80 * y + x] == Shown(p, x, y)
  {
    assert At(v, x, y) == Shown(p, x, y);
  }

  /** Storing one cell changes that cell only. */
  lemma AtUpdate(v: seq<Cell>, x0: nat, y0: nat, c: Cell, x: nat, y: nat)
    requires |v| == ROWS * COLUMNS && x < COLUMNS && y < ROWS && x0 < COLUMNS && y0 < ROWS
    ensures At(v[x0 + y0 * COLUMNS := c], x, y) == if x == x0 && y == y0 then c else At(v, x, y)
  {}

  /** A line feed above the bottom row changes nothing on the screen. */
  lemma FedImage(v: seq<Cell>, p: Sheet)
    requires |v| == ROWS * COLUMNS && ValidSheet(p) && |p.rows| < ROWS && Image(v, p)
    ensures Image(v, Feed(p))
  {}

  /** A line feed on the bottom row shows every row one higher and a blank row below. */
  lemma ScrolledImage(v: seq<Cell>, v1: seq<Cell>, v2: seq<Cell>, p: Sheet)
    requires |v| == |v1| == |v2| == ROWS * COLUMNS && ValidSheet(p) && |p.rows| >= ROWS && Image(v, p)
    requires forall x: nat, y: nat {:trigger At(v1, x, y)} :: x < COLUMNS && y < ROWS ==>
      At(v1, x, y) == At(v, x, if y < ROWS - 1 then y + 1 else y)
    requires forall x: nat, y: nat {:trigger At(v2, x, y)} :: x < COLUMNS && y < ROWS ==>
      At(v2, x, y) == if y == ROWS - 1 then 0 else At(v1, x, y)
    ensures Image(v2, Feed(p))
  {
    forall x: nat, y: nat | x < COLUMNS && y < ROWS ensures At(v2, x, y) == Shown(Feed(p), x, y) {
      if y < ROWS - 1 {
        assert At(v2, x, y) == At(v1, x, y) == At(v, x, y + 1) == Shown(p, x, y + 1);
      }
    }
  }

  class Screen {
    const vga: array<Cell>
    var curX: nat
    var curY: nat
    var cleared: bool

    ghost predicate Valid()
      reads this
    {
      vga.Length == ROWS * COLUMNS && curX < COLUMNS && curY < ROWS
    }

    /** The screen shows the sheet and the cursor is where the sheet's is. */
    ghost predicate Shows(p: Sheet)
      reads this, vga
    {
      && Valid() && ValidSheet(p) && curX == p.col && curY == |p.rows| - 1 - Top(p)
      && Image(vga[..], p)
    }

    constructor (memory: array<Cell>)
      requires memory.Length == ROWS * COLUMNS
      ensures vga == memory && Valid() && !cleared
    {
      vga := memory;
      curX, curY, cleared := 0, 0, false;
    }

    method Clear()
      requires Valid()
      modifies this`curX, this`curY, vga
      ensures Shows(Layout([]))
    {
      for i := 0 to ROWS * COLUMNS
        invariant forall j :: 0 <= j < i ==> vga[j] == 0
      {
        vga[i] := 0;
      }
      curX := 0;
      curY := 0;
    }

    /** Copies every row but the first one row up. */
    method ScrollUp()
      requires vga.Length == ROWS * COLUMNS
      modifies vga
      ensures forall x: nat, y: nat {:trigger At(vga[..], x, y)} :: x < COLUMNS && y < ROWS ==>
        At(vga[..], x, y) == At(old(vga[..]), x, if y < ROWS - 1 then y + 1 else y)
    {
      ghost var was := vga[..];
      for y := 0 to ROWS - 1
        invariant forall j :: 0 <= j < y * COLUMNS ==> vga[j] == was[j + COLUMNS]
        invariant forall j :: y * COLUMNS <= j < ROWS * COLUMNS ==> vga[j] == was[j]
      {
        for x := 0 to COLUMNS
          invariant forall j :: 0 <= j < y * COLUMNS + x ==> vga[j] == was[j + COLUMNS]
          invariant forall j :: y * COLUMNS + x <= j < ROWS * COLUMNS ==> vga[j] == was[j]
        {
          vga[SlotFromXy(x, y)] := vga[SlotFromXy(x, y + 1)];
        }
      }
    }

    method BlankLastRow()
      requires vga.Length == ROWS * COLUMNS
      modifies vga
      ensures forall x: nat, y: nat {:trigger At(vga[..], x, y)} :: x < COLUMNS && y < ROWS ==>
        At(vga[..], x, y) == if y == ROWS - 1 then 0 else At(old(vga[..]), x, y)
    {
      ghost var was := vga[..];
      for x := 0 to COLUMNS
        invariant forall j :: (ROWS - 1) * COLUMNS <= j < (ROWS - 1) * COLUMNS + x ==> vga[j] == 0
        invariant forall j :: 0 <= j < (ROWS - 1) * COLUMNS ==> vga[j] == was[j]
      {
        vga[SlotFromXy(x, ROWS - 1)] := 0;
      }
    }

    method NewLine(ghost p: Sheet)
      requires vga.Length == ROWS * COLUMNS && ValidSheet(p) && curY == |p.rows| - 1 - Top(p) && Image(vga[..], p)
      modifies this`curX, this`curY, vga
      ensures Shows(Feed(p))
    {
      curX := 0;
      if curY + 1 >= ROWS {
        curY := ROWS - 1;
        ghost var v := vga[..];
        ScrollUp();
        ghost var v1 := vga[..];
        BlankLastRow();
        ScrolledImage(v, v1, vga[..], p);
      } else {
        curY := curY + 1;
        FedImage(vga[..], p);
      }
    }

    method PutC(ch: Byte, ghost p: Sheet)
      requires Shows(p)
      modifies this`curX, this`curY, vga
      ensures Shows(Put(p, ch))
    {
      if ch == NEWLINE {
        NewLine(p);
      } else if ch == RETURN {
        curX := 0;
      } else {
        var slot := SlotFromXy(curX, curY);
        ghost var v := vga[..];
        vga[slot] := CellOf(ch);
        assert vga[..] == v[slot := CellOf(ch)];
        ghost var p1 := Write(p, CellOf(ch));
        forall x: nat, y: nat | x < COLUMNS && y < ROWS ensures At(vga[..], x, y) == Shown(p1, x, y) {
          AtUpdate(v, curX, curY, CellOf(ch), x, y);
          assert At(v, x, y) == Shown(p, x, y);
        }
        curX := curX + 1;
        if curX >= COLUMNS {
          NewLine(p1);
        }
      }
    }

    /** `console_puts`; `before` is what was put since the screen was cleared. */
    method PutS(text: seq<Byte>, ghost before: seq<Byte>)
      requires Valid() && (cleared ==> Shows(Layout(before)))
      modifies this, vga
      ensures cleared && Shows(Layout((if old(cleared) then before else []) + text))
    {
      hide Layout, Put, ValidSheet, Image;
      ghost var start := if cleared then before else [];
      if !cleared {
        Clear();
        cleared := true;
      }
      assert start + text[..0] == start;
      for i := 0 to |text|
        invariant cleared && Shows(Layout(start + text[..i]))
      {
        LayoutNext(start, text, i);
        PutC(text[i], Layout(start + text[..i]));
      }
      assert text[..|text|] == text;
    }
  }

  lemma LayoutNext(before: seq<Byte>, text: seq<Byte>, i: nat)
    requires i < |text|
    ensures Layout(before + text[..i + 1]) == Put(Layout(before + text[..i]), text[i])
  {
    var t := before + text[..i + 1];
    assert t[..|t| - 1] == before + text[..i];
    assert t[|t| - 1] == text[i];
  }
}
