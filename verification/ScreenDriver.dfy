/** vga.c as it runs: 4000 bytes of screen memory, edited and scrolled in place. */
module ScreenDriver {
  import opened Bytes
  import opened ScreenModel

  const SIZE := WIDTH * HEIGHT * 2
  const LINE := WIDTH * 2           // bytes per screen row

  function BlankLine(color: byte): seq<byte> {
    seq(LINE, k requires 0 <= k < LINE => if k % 2 == 0 then BLANK else color)
  }

  // The bytes after scrolling `old` up one row and blanking the last.
  function Scrolled(was: seq<byte>, color: byte): (r: seq<byte>)
    requires |was| == SIZE
    ensures |r| == SIZE
  {
    was[LINE..] + BlankLine(color)
  }

  lemma ScrolledBytes(was: seq<byte>, color: byte)
    requires |was| == SIZE
    ensures |was| == 4000
    ensures forall k :: 0 <= k < 3840 ==> Scrolled(was, color)[k] == was[k + 160]
    ensures forall k :: 3840 <= k < 4000 ==> Scrolled(was, color)[k] == if k % 2 == 0 then 0x20 else color
  {
  }

  // The first `n` bytes come from one row further down, the rest are in place.
  ghost predicate MovedUpTo(was: seq<byte>, now: seq<byte>, n: int) {
    && |was| == |now| == SIZE && 0 <= n <= SIZE - LINE
    && (forall k :: 0 <= k < n ==> now[k] == was[k + LINE])
    && (forall k :: n <= k < SIZE ==> now[k] == was[k])
  }

  lemma FillRowNone(s: Sheet, c: Cell)
    requires SheetOk(s)
    ensures FillRow(s, 0, c) == s
  {
    assert FillRow(s, 0, c).rows[s.row] == s.rows[s.row];
    assert FillRow(s, 0, c).rows == s.rows;
  }

  lemma FillRowStep(s: Sheet, n: nat, c: Cell)
    requires SheetOk(s) && s.col + n < WIDTH
    ensures FillRow(s, n + 1, c) == Fill(FillRow(s, n, c).(col := s.col + n), c).(col := s.col)
  {
    var f := Fill(FillRow(s, n, c).(col := s.col + n), c);
    assert f.rows[s.row] == FillRow(s, n + 1, c).rows[s.row];
    assert f.rows == FillRow(s, n + 1, c).rows;
  }

  // Scrolling the memory is moving the window down the sheet by one row.
  lemma ScrollShows(buf: seq<byte>, color: byte, s: Sheet)
    requires |buf| == SIZE && SheetOk(s) && s.row == |s.rows| - 1
    requires forall i, j :: 0 <= i < HEIGHT && 0 <= j < WIDTH ==> CellAt(buf, i, j) == s.rows[s.Top() + i][j]
    ensures Shows(Scrolled(buf, color), HEIGHT - 1, 0, ScreenModel.NewLine(s, color))
  {
    var t, buf' := ScreenModel.NewLine(s, color), Scrolled(buf, color);
    forall i, j | 0 <= i < HEIGHT && 0 <= j < WIDTH ensures CellAt(buf', i, j) == t.rows[t.Top() + i][j] {
      if i < HEIGHT - 1 {
        assert CellAt(buf', i, j) == CellAt(buf, i + 1, j);
      }
    }
  }

  function Stored(buf: seq<byte>, off: int, c: Cell): seq<byte>
    requires 0 <= off && off + 1 < |buf|
  {
    buf[off := c.ch][off + 1 := c.attr]
  }

  // Storing a cell's two bytes is filling one cell of the sheet.
  lemma FillShows(buf: seq<byte>, row: int, col: int, s: Sheet, c: Cell)
    requires Shows(buf, row, col, s)
    ensures 0 <= Offset(row, col) && Offset(row, col) + 1 < SIZE
    ensures Shows(Stored(buf, Offset(row, col), c), row, col, Fill(s, c))
  {
    var buf' := Stored(buf, Offset(row, col), c);
    var t := Fill(s, c);
    forall i, j | 0 <= i < HEIGHT && 0 <= j < WIDTH ensures CellAt(buf', i, j) == t.rows[t.Top() + i][j] {
      assert CellAt(buf, i, j) == s.rows[s.Top() + i][j];
      if i != row || j != col { assert Offset(i, j) != Offset(row, col); }
    }
  }

  class Vga {
    const buffer: array<byte>
    var row: int
    var col: int
    var color: byte
    ghost var sheet: Sheet

    ghost predicate Valid()
      reads this, buffer
    {
      Shows(buffer[..], row, col, sheet)
    }

    method Clear()
      requires buffer.Length == SIZE
      modifies this`row, this`col, this`sheet, buffer
      ensures Valid() && sheet == ClearSheet(color)
      ensures buffer.Length == 4000 && row == 0 && col == 0
      ensures forall k :: 0 <= k < 4000 ==> buffer[k] == if k % 2 == 0 then 0x20 else color
    {
      var i := 0;
      while i < WIDTH * HEIGHT * 2
        invariant 0 <= i <= SIZE && i % 2 == 0
        invariant forall k :: 0 <= k < i ==> buffer[k] == if k % 2 == 0 then BLANK else color
      {
        buffer[i] := BLANK;
        buffer[i + 1] := color;
        i := i + 2;
      }
      row, col := 0, 0;
      sheet := ClearSheet(color);
      forall r, c | 0 <= r < HEIGHT && 0 <= c < WIDTH ensures CellAt(buffer[..], r, c) == sheet.rows[r][c] { }
    }

    // vga_init: black background, light green text, cleared screen.
    constructor ()
      ensures Valid() && color == 0x0A
      ensures sheet == ClearSheet(0x0A)
      ensures buffer.Length == 4000 && row == 0 && col == 0
      ensures forall k :: 0 <= k < 4000 ==> buffer[k] == if k % 2 == 0 then 0x20 else 0x0A
    {
      buffer := new byte[SIZE](_ => 0);
      color := 0x0A;
      row, col := 0, 0;
      sheet := ClearSheet(0x0A);
      new;
      Clear();
    }

    // vga_set_cursor ignores each coordinate that is off the screen.
    method SetCursor(r: int, c: int)
      requires Valid()
      modifies this`row, this`col, this`sheet
      ensures Valid() && sheet.rows == old(sheet.rows)
      ensures row == (if 0 <= r < HEIGHT then r else old(row)) && col == (if 0 <= c < WIDTH then c else old(col))
    {
      if r >= 0 && r < HEIGHT { row := r; }
      if c >= 0 && c < WIDTH { col := c; }
      sheet := sheet.(row := sheet.Top() + row, col := col);
    }

    method SetColor(fg: byte, bg: byte)
      modifies this`color
      ensures color == bg % 16 * 16 + fg % 16
    {
      color := bg * 16 % 0x100 + fg % 16;
    }

    method MoveCell(dst: int, src: int, ghost was: seq<byte>)
      requires MovedUpTo(was, buffer[..], dst) && src == dst + LINE && src + 1 < SIZE
      modifies buffer
      ensures MovedUpTo(was, buffer[..], dst + 2)
    {
      assert buffer[..][src] == was[src] && buffer[..][src + 1] == was[src + 1];
      buffer[dst] := buffer[src];
      buffer[dst + 1] := buffer[src + 1];
    }

    // The inner loop of the scroll: row `r` is copied over the one above it.
    method MoveRowUp(r: int, ghost was: seq<byte>)
      requires 1 <= r < HEIGHT && MovedUpTo(was, buffer[..], (r - 1) * LINE)
      modifies buffer
      ensures MovedUpTo(was, buffer[..], r * LINE)
    {
      var c := 0;
      ghost var at := (r - 1) * LINE;
      while c < WIDTH
        invariant 0 <= c <= WIDTH && MovedUpTo(was, buffer[..], at + 2 * c)
      {
        var src, dst := Offset(r, c), Offset(r - 1, c);
        assert dst == at + 2 * c && src == dst + LINE;
        MoveCell(dst, src, was);
        c := c + 1;
      }
    }

    // The last row becomes blanks in the current colour.
    method BlankLast()
      requires buffer.Length == SIZE
      modifies buffer
      ensures buffer[..] == old(buffer[..SIZE - LINE]) + BlankLine(color)
    {
      var c := 0;
      while c < WIDTH
        invariant 0 <= c <= WIDTH
        invariant forall k :: SIZE - LINE <= k < SIZE - LINE + 2 * c ==> buffer[k] == if k % 2 == 0 then BLANK else color
        invariant forall k :: 0 <= k < SIZE - LINE ==> buffer[k] == old(buffer[k])
      {
        var off := Offset(HEIGHT - 1, c);
        buffer[off] := BLANK;
        buffer[off + 1] := color;
        c := c + 1;
      }
    }

    method Scroll()
      requires buffer.Length == SIZE
      modifies buffer
      ensures buffer[..] == Scrolled(old(buffer[..]), color)
      ensures buffer.Length == 4000 && forall k :: 0 <= k < 3840 ==> buffer[k] == old(buffer[k + 160])
      ensures forall k :: 3840 <= k < 4000 ==> buffer[k] == if k % 2 == 0 then 0x20 else color
    {
      ghost var was := buffer[..];
      var r := 1;
      while r < HEIGHT
        invariant 1 <= r <= HEIGHT
        invariant MovedUpTo(was, buffer[..], (r - 1) * LINE)
      {
        MoveRowUp(r, was);
        r := r + 1;
      }
      assert buffer[..SIZE - LINE] == was[LINE..];
      BlankLast();
      ScrolledBytes(was, color);
      assert forall k :: 0 <= k < 4000 ==> buffer[k] == buffer[..][k];
    }

    method NewLine()
      requires buffer.Length == SIZE && SheetOk(sheet)
      requires row == sheet.row - sheet.Top() && 0 <= col <= WIDTH
      requires forall i, j :: 0 <= i < HEIGHT && 0 <= j < WIDTH ==> CellAt(buffer[..], i, j) == sheet.rows[sheet.Top() + i][j]
      modifies this`row, this`col, this`sheet, buffer
      ensures Valid() && sheet == ScreenModel.NewLine(old(sheet), color)
    {
      col := 0;
      row := row + 1;
      if row >= HEIGHT {
        ghost var was := buffer[..];
        Scroll();
        ScrollShows(was, color, sheet);
        row := HEIGHT - 1;
      }
      sheet := ScreenModel.NewLine(sheet, color);
    }

    // Stores one cell in column `c` of the cursor's row; the cursor stays.
    method StoreAt(c: int, ch: byte)
      requires Shows(buffer[..], row, sheet.col, sheet) && 0 <= c < WIDTH
      modifies this`sheet, buffer
      ensures Shows(buffer[..], row, sheet.col, sheet)
      ensures sheet == Fill(old(sheet).(col := c), Cell(ch, color)).(col := old(sheet).col)
    {
      var off := Offset(row, c);
      FillShows(buffer[..], row, c, sheet.(col := c), Cell(ch, color));
      buffer[off] := ch;
      buffer[off + 1] := color;
      assert buffer[..] == Stored(old(buffer[..]), off, Cell(ch, color));
      sheet := Fill(sheet.(col := c), Cell(ch, color)).(col := sheet.col);
    }

    // Stores one cell and advances the cursor.
    method TypeCell(ch: byte)
      requires Valid()
      modifies this`row, this`col, this`sheet, buffer
      ensures Valid() && sheet == Type(old(sheet), Cell(ch, color), color)
    {
      StoreAt(col, ch);
      assert sheet == Fill(old(sheet), Cell(ch, color));
      col := col + 1;
      if col >= WIDTH {
        NewLine();
      } else {
        sheet := sheet.(col := col);
      }
    }

    // Blanks up to the next multiple of four columns.
    method Tab()
      requires Valid()
      modifies this`row, this`col, this`sheet, buffer
      ensures Valid() && sheet == TypeMany(old(sheet), TabWidth(old(sheet)), Cell(BLANK, color), color)
    {
      var next := (col + 4) / 4 * 4;
      ghost var start, blank, from := sheet, Cell(BLANK, color), col;
      assert next - from == TabWidth(start);
      FillRowNone(start, blank);
      while col < next && col < WIDTH
        invariant from <= col <= next <= WIDTH && row == start.row - start.Top() && start.col == from
        invariant sheet == FillRow(start, col - from, blank)
        invariant Shows(buffer[..], row, from, sheet)
        decreases next - col
      {
        FillRowStep(start, col - from, blank);
        StoreAt(col, BLANK);
        col := col + 1;
      }
      TypeManyIsFillRow(start, next - from, blank, color);
      if col >= WIDTH {
        NewLine();
      } else {
        sheet := sheet.(col := col);
      }
    }

    method PutChar(ch: byte)
      requires Valid()
      modifies this`row, this`col, this`sheet, buffer
      ensures Valid() && sheet == Put(old(sheet), ch, color)
    {
      if ch == BS {
        if col > 0 {
          col := col - 1;
        } else if row > 0 {
          row := row - 1;
          col := WIDTH - 1;
        }
        sheet := Backspace(sheet);
      } else if ch == LF {
        NewLine();
      } else if ch == CR {
        col := 0;
        sheet := sheet.(col := 0);
      } else if ch == TAB {
        Tab();
      } else {
        TypeCell(ch);
      }
    }

    method Print(text: seq<byte>)
      requires Valid()
      modifies this`row, this`col, this`sheet, buffer
      ensures Valid() && sheet == ScreenModel.Print(old(sheet), text, color)
    {
      for i := 0 to |text|
        invariant Valid()
        invariant ScreenModel.Print(sheet, text[i..], color) == ScreenModel.Print(old(sheet), text, color)
      {
        PutChar(text[i]);
        assert text[i..][1..] == text[i + 1..];
      }
    }
  }
}
