/** The terminal as an unbounded sheet of 80-column rows seen through a 25-row window. */
module ScreenModel {
  import opened Bytes

  const WIDTH := 80
  const HEIGHT := 25
  const BLANK: byte := 0x20
  const BS: byte := 8
  const TAB: byte := 9
  const LF: byte := 10
  const CR: byte := 13

  datatype Cell = Cell(ch: byte, attr: byte)
  type Row = s: seq<Cell> | |s| == WIDTH witness seq(WIDTH, _ => Cell(BLANK, 0))

  // `row` and `col` are the cursor, counted from the top of the sheet.
  datatype Sheet = Sheet(rows: seq<Row>, row: nat, col: nat) {
    // The window is the last 25 rows.
    function Top(): int { |rows| - HEIGHT }
  }

  predicate SheetOk(s: Sheet) {
    HEIGHT <= |s.rows| && s.Top() <= s.row < |s.rows| && s.col < WIDTH
  }

  function BlankRow(color: byte): Row { seq(WIDTH, _ => Cell(BLANK, color)) }

  function ClearSheet(color: byte): Sheet { Sheet(seq(HEIGHT, _ => BlankRow(color)), 0, 0) }

  function NewLine(s: Sheet, color: byte): (t: Sheet)
    requires SheetOk(s)
    ensures SheetOk(t) && |s.rows| <= |t.rows| <= |s.rows| + 1
  {
    if s.row + 1 < |s.rows| then Sheet(s.rows, s.row + 1, 0)
    else Sheet(s.rows + [BlankRow(color)], s.row + 1, 0)
  }

  function Fill(s: Sheet, c: Cell): (t: Sheet)
    requires SheetOk(s)
    ensures SheetOk(t) && |t.rows| == |s.rows|
  {
    s.(rows := s.rows[s.row := s.rows[s.row][s.col := c]])
  }

  // Writes one cell and moves right, to the next line at the edge.
  function Type(s: Sheet, c: Cell, color: byte): (t: Sheet)
    requires SheetOk(s)
    ensures SheetOk(t) && |s.rows| <= |t.rows| <= |s.rows| + 1
  {
    var f := Fill(s, c);
    if s.col + 1 < WIDTH then f.(col := s.col + 1) else NewLine(f, color)
  }

  function Backspace(s: Sheet): (t: Sheet)
    requires SheetOk(s)
    ensures SheetOk(t) && |t.rows| == |s.rows|
  {
    if s.col > 0 then s.(col := s.col - 1)
    else if s.row > s.Top() then Sheet(s.rows, s.row - 1, WIDTH - 1)
    else s
  }

  // How many columns the cursor is from the next multiple of four.
  function TabWidth(s: Sheet): (n: nat)
    ensures 1 <= n <= 4
  {
    4 - s.col % 4
  }

  function TypeMany(s: Sheet, n: nat, c: Cell, color: byte): (t: Sheet)
    requires SheetOk(s)
    ensures SheetOk(t) && |s.rows| <= |t.rows|
    decreases n
  {
    if n == 0 then s else TypeMany(Type(s, c, color), n - 1, c, color)
  }

  // `n` cells of the cursor's row filled from the cursor on, the cursor left where it is.
  function FillRow(s: Sheet, n: nat, c: Cell): (t: Sheet)
    requires SheetOk(s) && s.col + n <= WIDTH
    ensures SheetOk(t) && |t.rows| == |s.rows| && t.row == s.row && t.col == s.col
  {
    var r := s.rows[s.row];
    s.(rows := s.rows[s.row := seq(WIDTH, k requires 0 <= k < WIDTH => if s.col <= k < s.col + n then c else r[k])])
  }

  // Filling a stretch and then moving is typing the cells one by one.
  lemma {:induction false} TypeManyIsFillRow(s: Sheet, n: nat, c: Cell, color: byte)
    requires SheetOk(s) && 0 < n && s.col + n <= WIDTH
    ensures TypeMany(s, n, c, color) ==
      if s.col + n < WIDTH then FillRow(s, n, c).(col := s.col + n) else NewLine(FillRow(s, n, c), color)
    decreases n
  {
    var u := Type(s, c, color);
    if n == 1 {
      assert FillRow(s, 1, c).rows[s.row] == Fill(s, c).rows[s.row];
      assert FillRow(s, 1, c).rows == Fill(s, c).rows;
      assert TypeMany(u, 0, c, color) == u;
    } else {
      TypeManyIsFillRow(u, n - 1, c, color);
      assert FillRow(u, n - 1, c).rows[s.row] == FillRow(s, n, c).rows[s.row];
      assert FillRow(u, n - 1, c).rows == FillRow(s, n, c).rows;
    }
  }

  // A tab is that many blanks: the edge of the screen is a multiple of four.
  function Put(s: Sheet, ch: byte, color: byte): (t: Sheet)
    requires SheetOk(s)
    ensures SheetOk(t) && |s.rows| <= |t.rows|
  {
    if ch == BS then Backspace(s)
    else if ch == LF then NewLine(s, color)
    else if ch == CR then s.(col := 0)
    else if ch == TAB then TypeMany(s, TabWidth(s), Cell(BLANK, color), color)
    else Type(s, Cell(ch, color), color)
  }

  function Print(s: Sheet, text: seq<byte>, color: byte): (t: Sheet)
    requires SheetOk(s)
    ensures SheetOk(t) && |s.rows| <= |t.rows|
    decreases |text|
  {
    if text == [] then s else Print(Put(s, text[0], color), text[1..], color)
  }
  // ----- The screen memory -----

  function Offset(row: int, col: int): int { (row * WIDTH + col) * 2 }

  function CellAt(buf: seq<byte>, i: nat, j: nat): Cell
    requires |buf| == WIDTH * HEIGHT * 2 && i < HEIGHT && j < WIDTH
  {
    Cell(buf[Offset(i, j)], buf[Offset(i, j) + 1])
  }

  // The buffer and cursor show the window of the sheet.
  ghost predicate Shows(buf: seq<byte>, row: int, col: int, s: Sheet) {
    && |buf| == WIDTH * HEIGHT * 2 && SheetOk(s)
    && row == s.row - s.Top() && col == s.col
    && forall i, j :: 0 <= i < HEIGHT && 0 <= j < WIDTH ==> CellAt(buf, i, j) == s.rows[s.Top() + i][j]
  }

  // The window in numbers: 25 rows of 80 two-byte cells, character first.
  lemma WindowBytes(buf: seq<byte>, row: int, col: int, s: Sheet, i: nat, j: nat)
    requires Shows(buf, row, col, s) && i < 25 && j < 80
    ensures |buf| == 4000 && 25 <= |s.rows| && 0 <= row < 25 && 0 <= col < 80
    ensures s.row == |s.rows| - 25 + row && s.col == col && |s.rows[|s.rows| - 25 + i]| == 80
    ensures buf[160 * i + 2 * j] == s.rows[|s.rows| - 25 + i][j].ch
    ensures buf[160 * i + 2 * j + 1] == s.rows[|s.rows| - 25 + i][j].attr
  {
    assert CellAt(buf, i, j) == s.rows[s.Top() + i][j];
  }
  // ----- What printing does to the sheet -----

  lemma {:induction false} TypeManyKeepsHistory(s: Sheet, n: nat, c: Cell, color: byte)
    requires SheetOk(s)
    ensures forall i :: 0 <= i < s.Top() ==> TypeMany(s, n, c, color).rows[i] == s.rows[i]
    decreases n
  {
    if n == 0 {
    } else {
      TypeManyKeepsHistory(Type(s, c, color), n - 1, c, color);
    }
  }

  // How many cells of the cursor's row a character overwrites.
  function Width(s: Sheet, ch: byte): nat {
    if ch == 8 || ch == 10 || ch == 13 then 0 else if ch == 9 then 4 - s.col % 4 else 1
  }

  // Every character, cell by cell: backspace, newline and carriage return write nothing, a
  // tab blanks up to the next multiple of four, any other character fills one cell; a row
  // that is appended is blank; nothing else changes.
  lemma PutCells(s: Sheet, ch: byte, color: byte, i: nat, j: nat)
    requires SheetOk(s) && i < |Put(s, ch, color).rows| && j < 80
    ensures |s.rows| <= |Put(s, ch, color).rows| && s.row < |s.rows| && |Put(s, ch, color).rows[i]| == 80
    ensures var w := if ch == 8 || ch == 10 || ch == 13 then 0 else if ch == 9 then 4 - s.col % 4 else 1;
      Put(s, ch, color).rows[i][j] ==
        if i >= |s.rows| then Cell(0x20, color)
        else if i == s.row && s.col <= j < s.col + w then Cell(if ch == 9 then 0x20 else ch, color)
        else s.rows[i][j]
  {
    if ch == TAB { TypeManyIsFillRow(s, TabWidth(s), Cell(BLANK, color), color); }
  }

  // Every character, as the cursor moves: back one place within the window, to the start of
  // the next row, to the start of the row, to the next multiple of four, or one place on;
  // a row is appended only when the cursor leaves the last one.
  lemma PutCursor(s: Sheet, ch: byte, color: byte)
    requires SheetOk(s)
    ensures var (t, w) := (Put(s, ch, color), if ch == 9 then 4 - s.col % 4 else 1);
      && (t.row, t.col) == (
           if ch == 8 then
             if s.col > 0 then (s.row, s.col - 1) else if s.row > |s.rows| - 25 then (s.row - 1, 79) else (s.row, s.col)
           else if ch == 10 then (s.row + 1, 0)
           else if ch == 13 then (s.row, 0)
           else if s.col + w < 80 then (s.row, s.col + w)
           else (s.row + 1, 0))
      && |t.rows| == if t.row < |s.rows| then |s.rows| else |s.rows| + 1
  {
    if ch == TAB { TypeManyIsFillRow(s, TabWidth(s), Cell(BLANK, color), color); }
  }

  // Some character of `text` overwrites cell `j` of row `i`.
  ghost predicate Touched(s: Sheet, text: seq<byte>, color: byte, i: nat, j: nat)
    requires SheetOk(s)
    decreases |text|
  {
    text != [] &&
    ((i == s.row && s.col <= j < s.col + Width(s, text[0])) || Touched(Put(s, text[0], color), text[1..], color, i, j))
  }

  // For every string: a cell no character of it overwrites keeps what it showed, and in a
  // row that was appended it is a space in the colour.
  lemma {:induction false} PrintTouchesOnly(s: Sheet, text: seq<byte>, color: byte, i: nat, j: nat)
    requires SheetOk(s) && !Touched(s, text, color, i, j) && i < |Print(s, text, color).rows| && j < 80
    ensures |Print(s, text, color).rows[i]| == 80
    ensures Print(s, text, color).rows[i][j] == if i < |s.rows| then s.rows[i][j] else Cell(0x20, color)
    decreases |text|
  {
    if text == [] {
    } else {
      var u := Put(s, text[0], color);
      PrintTouchesOnly(u, text[1..], color, i, j);
      if i < |u.rows| { PutCells(s, text[0], color, i, j); }
    }
  }

  // Rows that have scrolled out of the window never change again.
  lemma PutKeepsHistory(s: Sheet, ch: byte, color: byte)
    requires SheetOk(s)
    ensures forall i :: 0 <= i < s.Top() ==> Put(s, ch, color).rows[i] == s.rows[i]
  {
    if ch == TAB { TypeManyKeepsHistory(s, TabWidth(s), Cell(BLANK, color), color); }
  }

  lemma {:induction false} PrintKeepsHistory(s: Sheet, text: seq<byte>, color: byte)
    requires SheetOk(s)
    ensures forall i :: 0 <= i < s.Top() ==> Print(s, text, color).rows[i] == s.rows[i]
    decreases |text|
  {
    if text == [] {
    } else {
      PutKeepsHistory(s, text[0], color);
      PrintKeepsHistory(Put(s, text[0], color), text[1..], color);
    }
  }

  // The sheet read as one long line.
  function At(s: Sheet, p: nat): Cell
    requires p < |s.rows| * WIDTH
  {
    s.rows[p / WIDTH][p % WIDTH]
  }

  function Pos(s: Sheet): nat { s.row * WIDTH + s.col }

  predicate Plain(ch: byte) { ch != BS && ch != TAB && ch != LF && ch != CR }

  // Typing writes the cell under the cursor, moves one place on, and leaves every other
  // cell of the sheet alone.
  lemma TypeAt(s: Sheet, c: Cell, color: byte)
    requires SheetOk(s)
    ensures var t := Type(s, c, color);
      && Pos(s) < |s.rows| * WIDTH && Pos(t) == Pos(s) + 1
      && At(t, Pos(s)) == c
      && forall p: nat :: p < |s.rows| * WIDTH && p != Pos(s) ==> At(t, p) == At(s, p)
  {
    assert Pos(s) / WIDTH == s.row && Pos(s) % WIDTH == s.col;
    var t := Type(s, c, color);
    forall p: nat | p < |s.rows| * WIDTH && p != Pos(s) ensures At(t, p) == At(s, p) {
      assert p == p / WIDTH * WIDTH + p % WIDTH;
    }
  }

  // Plain text lands on consecutive cells from the cursor on, whatever scrolling it
  // causes, and nothing that was on the sheet elsewhere changes.
  lemma {:induction false} PrintLaysOut(s: Sheet, text: seq<byte>, color: byte)
    requires SheetOk(s) && forall k :: 0 <= k < |text| ==> Plain(text[k])
    ensures var t := Print(s, text, color);
      && Pos(t) == Pos(s) + |text| < |t.rows| * WIDTH
      && (forall k :: 0 <= k < |text| ==> At(t, Pos(s) + k) == Cell(text[k], color))
      && (forall p: nat :: p < |s.rows| * WIDTH && !(Pos(s) <= p < Pos(s) + |text|) ==> At(t, p) == At(s, p))
    decreases |text|
  {
    if text == [] {
    } else {
      var u := Type(s, Cell(text[0], color), color);
      TypeAt(s, Cell(text[0], color), color);
      PrintLaysOut(u, text[1..], color);
      var t := Print(s, text, color);
      assert t == Print(u, text[1..], color);
      forall k | 0 <= k < |text| ensures At(t, Pos(s) + k) == Cell(text[k], color) {
        if k > 0 {
          assert text[k] == text[1..][k - 1] && Pos(s) + k == Pos(u) + (k - 1);
        } else {
          assert At(t, Pos(s)) == At(u, Pos(s));
        }
      }
      forall p: nat | p < |s.rows| * WIDTH && !(Pos(s) <= p < Pos(s) + |text|) ensures At(t, p) == At(s, p) {
        assert At(u, p) == At(s, p);
      }
    }
  }
}
