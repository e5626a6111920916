/** The scrolling text console: a grid of lines, a cursor and the pixels that show them. */
module Console {
  import opened Bits
  import opened Wrappers
  import opened Pixels
  import opened FrameBuffer
  import opened ConsoleText

  const CONSOLE_WIDTH: nat := COLUMNS * CHARACTER_WIDTH
  const CONSOLE_HEIGHT: nat := ROWS * CHARACTER_HEIGHT

  datatype ConsoleError = LineLengthOverflow | FrameBufferFailure(error: FrameBufferError)

  /** A line of fixed capacity; only the first `length` characters count. */
  datatype Line = Line(chars: seq<Ascii>, length: nat) {
    ghost predicate Valid() {
      |chars| == COLUMNS && length <= COLUMNS
    }

    function Content(): Text
      requires Valid()
    {
      chars[..length]
    }

    function Push(c: Ascii): (r: Result<Line, ConsoleError>)
      requires Valid()
      ensures r.Ok? <==> |Content()| < COLUMNS
      ensures r.Ok? ==> r.value.Valid() && r.value.Content() == Content() + [c]
    {
      if length == COLUMNS then Err(LineLengthOverflow)
      else Ok(Line(chars[length := c], length + 1))
    }
  }

  function NullLine(): (l: Line)
    ensures l.Valid() && l.Content() == []
  {
    Line(seq(COLUMNS, _ => 0), 0)
  }

  ghost predicate AllValid(lines: seq<Line>) {
    forall r :: 0 <= r < |lines| ==> lines[r].Valid()
  }

  /** The text of a sequence of lines. */
  ghost function Contents(lines: seq<Line>): (g: seq<Text>)
    requires AllValid(lines)
    ensures |g| == |lines|
  {
    if lines == [] then [] else Contents(lines[..|lines| - 1]) + [lines[|lines| - 1].Content()]
  }

  lemma {:induction false} ContentsIndex(lines: seq<Line>, r: nat)
    requires AllValid(lines) && r < |lines|
    ensures Contents(lines)[r] == lines[r].Content()
  {
    if r < |lines| - 1 {
      ContentsIndex(lines[..|lines| - 1], r);
    }
  }

  lemma ContentsUpdate(lines: seq<Line>, r: nat, l: Line)
    requires AllValid(lines) && r < |lines| && l.Valid()
    ensures AllValid(lines[r := l])
    ensures Contents(lines[r := l]) == Contents(lines)[r := l.Content()]
  {
    var lines' := lines[r := l];
    forall k | 0 <= k < |lines|
      ensures Contents(lines')[k] == Contents(lines)[r := l.Content()][k]
    {
      ContentsIndex(lines, k);
      ContentsIndex(lines', k);
    }
  }

  lemma ContentsOfNullLines(lines: seq<Line>)
    requires |lines| == ROWS && forall k :: 0 <= k < |lines| ==> lines[k] == NullLine()
    ensures AllValid(lines) && Contents(lines) == NoText()
  {
    forall k | 0 <= k < |lines|
      ensures Contents(lines)[k] == []
    {
      ContentsIndex(lines, k);
    }
  }

  /** The grid half way through a shift: rows above `row` have moved up, the others have not. */
  ghost function Shifted(was: seq<Text>, row: nat): (g: seq<Text>)
    requires |was| == ROWS && row < ROWS
    ensures |g| == ROWS
  {
    was[1..row + 1] + was[row..]
  }

  lemma ShiftedStep(was: seq<Text>, row: nat)
    requires |was| == ROWS && row + 1 < ROWS
    ensures Shifted(was, row)[row := Shifted(was, row)[row + 1]] == Shifted(was, row + 1)
    ensures Shifted(was, row)[row + 1] == was[row + 1] == (was[1..] + [[]])[row]
  {
  }

  lemma ShiftedEnds(was: seq<Text>)
    requires |was| == ROWS
    ensures Shifted(was, 0) == was
    ensures Shifted(was, ROWS - 1)[ROWS - 1 := []] == was[1..] + [[]]
  {
    var n := |was|;
    assert was[1..1] == [] && was[0..] == was;
    assert was[1..n] + was[n - 1..] == was[1..] + [was[n - 1]];
  }

  lemma Extend(t: Text, s: Text, i: nat)
    requires i < |s|
    ensures t + s[..i] + [s[i]] == t + s[..i + 1]
  {
    assert s[..i] + [s[i]] == s[..i + 1];
  }

  /** The colour a grid of text calls for at a pixel: foreground where a character's glyph has a
      bit, background elsewhere. */
  ghost function Render(font: seq<seq<Byte>>, rows: seq<Text>, fg: RgbColor, bg: RgbColor, x: nat, y: nat): RgbColor
    requires IsFont(font)
  {
    var r, c := y / CHARACTER_HEIGHT, x / CHARACTER_WIDTH;
    if r < |rows| && c < |rows[r]| && GlyphBit(font, rows[r][c], x % CHARACTER_WIDTH, y % CHARACTER_HEIGHT)
    then ToPixel(fg) else ToPixel(bg)
  }

  /** Appending a character to a row redraws one cell, and there only where the glyph has a bit. */
  lemma RenderAfterPush(font: seq<seq<Byte>>, rows: seq<Text>, fg: RgbColor, bg: RgbColor, r: nat, c: Ascii, x: nat, y: nat)
    requires IsFont(font) && r < |rows|
    ensures Render(font, rows[r := rows[r] + [c]], fg, bg, x, y) ==
            if InGlyph(font, c, CHARACTER_WIDTH * |rows[r]|, CHARACTER_HEIGHT * r, x, y)
            then ToPixel(fg) else Render(font, rows, fg, bg, x, y)
  {
  }

  /** The console rectangle shows `rows`; outside it the screen is as in `was`. */
  ghost predicate Displays(font: seq<seq<Byte>>, screen: (nat, nat) -> RgbColor, was: (nat, nat) -> RgbColor,
                           rows: seq<Text>, fg: RgbColor, bg: RgbColor)
    requires IsFont(font)
  {
    forall x: nat, y: nat {:trigger screen(x, y)} :: screen(x, y) ==
      if x < CONSOLE_WIDTH && y < CONSOLE_HEIGHT then Render(font, rows, fg, bg, x, y) else was(x, y)
  }

  /** A blank grid. */
  function NoText(): (rows: seq<Text>)
    ensures |rows| == ROWS && forall r <- rows :: r == []
  {
    seq(ROWS, _ => [])
  }

  /** A filled rectangle shows a blank grid. */
  lemma FilledDisplaysNothing(font: seq<seq<Byte>>, screen: (nat, nat) -> RgbColor, was: (nat, nat) -> RgbColor,
                              rows: seq<Text>, fg: RgbColor, bg: RgbColor)
    requires IsFont(font) && rows == NoText()
    requires forall a: nat, b: nat {:trigger screen(a, b)} :: screen(a, b) ==
               if a < CONSOLE_WIDTH && b < CONSOLE_HEIGHT then ToPixel(bg) else was(a, b)
    ensures Displays(font, screen, was, rows, fg, bg)
  {
  }

  /** Before anything is printed the grid is blank and the cursor is at its top left. */
  lemma NothingPrinted()
    ensures Rows([]) == NoText() && CursorRow([]) == 0 && CursorColumn([]) == 0
  {
    RowsIndex([]);
  }

  /** The grid half way through a redraw: `row` whole rows and `n` characters of the next. */
  ghost function Drawn(rows: seq<Text>, row: nat, n: nat): (d: seq<Text>)
    requires |rows| == ROWS && row < ROWS && n <= |rows[row]|
    ensures |d| == ROWS
  {
    rows[..row] + [rows[row][..n]] + NoText()[row + 1..]
  }

  lemma DrawnChar(rows: seq<Text>, row: nat, n: nat)
    requires |rows| == ROWS && row < ROWS && n < |rows[row]|
    ensures
      var d := Drawn(rows, row, n);
      d[row] == rows[row][..n] && d[row := d[row] + [rows[row][n]]] == Drawn(rows, row, n + 1)
  {
    assert rows[row][..n] + [rows[row][n]] == rows[row][..n + 1];
  }

  lemma DrawnRow(rows: seq<Text>, row: nat)
    requires |rows| == ROWS && row + 1 < ROWS
    ensures Drawn(rows, row, |rows[row]|) == Drawn(rows, row + 1, 0)
  {
    assert rows[row][..|rows[row]|] == rows[row];
    assert rows[..row + 1] == rows[..row] + [rows[row]];
    assert NoText()[row + 1..] == [[]] + NoText()[row + 2..];
  }

  /** Where a redraw starts, and where it ends if the last row is empty. */
  lemma DrawnEnds(rows: seq<Text>)
    requires |rows| == ROWS && rows[ROWS - 1] == []
    ensures Drawn(rows, 0, 0) == NoText() && Drawn(rows, ROWS - 1, 0) == rows
  {
  }

  class TextConsole {
    const buffer: array<Line>
    const fb: FrameBuf
    var bgColor: RgbColor
    var fgColor: RgbColor
    var cursorRow: nat
    var cursorColumn: nat
    /** Everything printed since the console was initialised. */
    ghost var text: Text
    /** The screen as it was before the console was initialised. */
    ghost var outside: (nat, nat) -> RgbColor

    /** The parts fit together; the screen may show anything. */
    ghost predicate Shaped()
      reads this, buffer, fb, fb.mem
    {
      buffer.Length == ROWS && AllValid(buffer[..]) && fb.Valid()
    }

    /** The text on screen, row by row. */
    ghost function Grid(): (g: seq<Text>)
      requires buffer.Length == ROWS && AllValid(buffer[..])
      reads buffer
      ensures |g| == ROWS
    {
      Contents(buffer[..])
    }

    /** Grid and cursor are functions of the printed text, and the pixels show the grid. */
    ghost predicate Valid()
      reads this, buffer, fb, fb.mem
    {
      && Shaped()
      && CONSOLE_WIDTH <= fb.width && CONSOLE_HEIGHT <= fb.height
      && Grid() == Rows(text)
      && cursorRow == CursorRow(text) && cursorColumn == CursorColumn(text)
      && Displays(fb.font, fb.screen, outside, Rows(text), fgColor, bgColor)
    }

    /** An empty console, not yet on screen. */
    constructor NewEmpty(fb: FrameBuf)
      requires fb.Valid()
      ensures Shaped() && this.fb == fb && fresh(buffer)
      ensures bgColor == fgColor == 0x28282800 && cursorRow == cursorColumn == 0 && Grid() == NoText()
    {
      this.fb := fb;
      buffer := new Line[ROWS](_ => NullLine());
      bgColor, fgColor := 0x28282800, 0x28282800;
      cursorRow, cursorColumn := 0, 0;
      text := [];
      outside := fb.screen;
      new;
      ContentsOfNullLines(buffer[..]);
    }

    method Init(bg: RgbColor, fg: RgbColor) returns (r: Result<(), ConsoleError>)
      requires Shaped()
      modifies this, buffer, fb, fb.mem
      ensures Shaped()
      ensures r.Ok? <==> 1200 <= fb.width && 400 <= fb.height
      ensures r.Ok? ==> Valid() && text == [] && fgColor == fg && bgColor == bg && outside == old(fb.screen)
    {
      ghost var was := fb.screen;
      var f := fb.FillRect(0, 0, CONSOLE_WIDTH, CONSOLE_HEIGHT, bg);
      if f.Err? {
        return Err(FrameBufferFailure(f.error));
      }
      NothingPrinted();
      FilledDisplaysNothing(fb.font, fb.screen, was, NoText(), fg, bg);
      forall i | 0 <= i < ROWS {
        buffer[i] := NullLine();
      }
      ContentsOfNullLines(buffer[..]);
      bgColor, fgColor, cursorRow, cursorColumn := bg, fg, 0, 0;
      text, outside := [], was;
      return Ok(());
    }

    /** Replaces one line of the buffer. */
    method Store(row: nat, line: Line)
      requires Shaped() && row < ROWS && line.Valid()
      modifies buffer
      ensures Shaped() && Grid() == old(Grid())[row := line.Content()]
    {
      ContentsUpdate(buffer[..], row, line);
      buffer[row] := line;
      assert buffer[..] == old(buffer[..])[row := line];
    }

    /** Draws one character after the `column` characters of a row. */
    method DrawChar(row: nat, column: nat, c: Ascii, ghost rows: seq<Text>)
      requires fb.Valid() && CONSOLE_WIDTH <= fb.width && CONSOLE_HEIGHT <= fb.height
      requires row < |rows| == ROWS && column == |rows[row]| < COLUMNS
      requires Displays(fb.font, fb.screen, outside, rows, fgColor, bgColor)
      modifies fb, fb.mem
      ensures fb.Valid()
      ensures Displays(fb.font, fb.screen, outside, rows[row := rows[row] + [c]], fgColor, bgColor)
    {
      var w := fb.WriteChar(CHARACTER_WIDTH * column, CHARACTER_HEIGHT * row, c, fgColor);
      assert w.Ok?;
      forall x: nat, y: nat | x < CONSOLE_WIDTH && y < CONSOLE_HEIGHT {
        RenderAfterPush(fb.font, rows, fgColor, bgColor, row, c, x, y);
      }
    }

    /** Moves to the next row; on the last row, scrolls. */
    method NewLine()
      requires Valid()
      modifies `text, `cursorRow, `cursorColumn, buffer, fb, fb.mem
      ensures Valid() && text == old(text) + [LINE_FEED]
    {
      if cursorRow < ROWS - 1 {
        RowsAfterLineFeed(text);
        cursorColumn, cursorRow := 0, cursorRow + 1;
        text := text + [LINE_FEED];
      } else {
        ScrollLine();
      }
    }

    method ScrollLine()
      requires Valid() && cursorRow == ROWS - 1
      modifies `text, `cursorColumn, buffer, fb, fb.mem
      ensures Valid() && text == old(text) + [LINE_FEED]
    {
      ghost var rows, longer := Rows(text), text + [LINE_FEED];
      RowsAfterLineFeed(text);
      RowsIndex(text);
      cursorColumn := 0;
      Scroll(rows);
      text := longer;
    }

    /** Clears the console, then shifts every line up by one and redraws it. */
    method Scroll(ghost was: seq<Text>)
      requires Shaped() && CONSOLE_WIDTH <= fb.width && CONSOLE_HEIGHT <= fb.height
      requires Grid() == was && forall r :: 0 <= r < ROWS ==> |was[r]| < COLUMNS
      requires Displays(fb.font, fb.screen, outside, was, fgColor, bgColor)
      modifies buffer, fb, fb.mem
      ensures Shaped() && Grid() == was[1..] + [[]]
      ensures Displays(fb.font, fb.screen, outside, was[1..] + [[]], fgColor, bgColor)
    {
      ghost var rows := was[1..] + [[]];
      Clear();
      DrawnEnds(rows);
      ShiftedEnds(was);
      for row := 0 to ROWS - 1
        invariant Shaped() && Grid() == Shifted(was, row)
        invariant Displays(fb.font, fb.screen, outside, Drawn(rows, row, 0), fgColor, bgColor)
      {
        ScrollRow(row, was);
        DrawnRow(rows, row);
      }
      Store(ROWS - 1, NullLine());
    }

    /** Fills the console with its background. */
    method Clear()
      requires fb.Valid() && CONSOLE_WIDTH <= fb.width && CONSOLE_HEIGHT <= fb.height
      requires forall x: nat, y: nat {:trigger fb.screen(x, y)} :: x >= CONSOLE_WIDTH || y >= CONSOLE_HEIGHT ==> fb.screen(x, y) == outside(x, y)
      modifies fb, fb.mem
      ensures fb.Valid() && Displays(fb.font, fb.screen, outside, NoText(), fgColor, bgColor)
    {
      var f := fb.FillRect(0, 0, CONSOLE_WIDTH, CONSOLE_HEIGHT, bgColor);
      assert f.Ok?;
      FilledDisplaysNothing(fb.font, fb.screen, outside, NoText(), fgColor, bgColor);
    }

    /** One round of Scroll: copies the next line into a row and draws it. */
    method ScrollRow(row: nat, ghost was: seq<Text>)
      requires Shaped() && CONSOLE_WIDTH <= fb.width && CONSOLE_HEIGHT <= fb.height
      requires |was| == ROWS && row < ROWS - 1 && Grid() == Shifted(was, row)
      requires Displays(fb.font, fb.screen, outside, Drawn(was[1..] + [[]], row, 0), fgColor, bgColor)
      modifies buffer, fb, fb.mem
      ensures Shaped() && Grid() == Shifted(was, row + 1)
      ensures
        var rows := was[1..] + [[]];
        Displays(fb.font, fb.screen, outside, Drawn(rows, row, |rows[row]|), fgColor, bgColor)
    {
      ShiftedStep(was, row);
      ContentsIndex(buffer[..], row + 1);
      Store(row, buffer[row + 1]);
      ContentsIndex(buffer[..], row);
      DrawLine(row, buffer[row], was[1..] + [[]]);
    }

    /** Draws the characters of one line on a row that is still blank. */
    method DrawLine(row: nat, line: Line, ghost rows: seq<Text>)
      requires fb.Valid() && CONSOLE_WIDTH <= fb.width && CONSOLE_HEIGHT <= fb.height
      requires row < |rows| == ROWS && line.Valid() && line.Content() == rows[row]
      requires Displays(fb.font, fb.screen, outside, Drawn(rows, row, 0), fgColor, bgColor)
      modifies fb, fb.mem
      ensures fb.Valid()
      ensures Displays(fb.font, fb.screen, outside, Drawn(rows, row, |rows[row]|), fgColor, bgColor)
    {
      for i := 0 to line.length
        invariant fb.Valid()
        invariant Displays(fb.font, fb.screen, outside, Drawn(rows, row, i), fgColor, bgColor)
      {
        DrawnChar(rows, row, i);
        DrawChar(row, i, line.chars[i], Drawn(rows, row, i));
      }
    }

    /** Draws a character at the cursor and appends it to the cursor row. */
    method Append(c: Ascii, ghost rows: seq<Text>)
      requires Shaped() && CONSOLE_WIDTH <= fb.width && CONSOLE_HEIGHT <= fb.height
      requires Grid() == rows && cursorRow < ROWS && cursorColumn == |rows[cursorRow]| < COLUMNS
      requires Displays(fb.font, fb.screen, outside, rows, fgColor, bgColor)
      modifies buffer, fb, fb.mem
      ensures Shaped() && Grid() == rows[cursorRow := rows[cursorRow] + [c]]
      ensures Displays(fb.font, fb.screen, outside, rows[cursorRow := rows[cursorRow] + [c]], fgColor, bgColor)
    {
      DrawChar(cursorRow, cursorColumn, c, rows);
      ContentsIndex(buffer[..], cursorRow);
      var pushed := buffer[cursorRow].Push(c);
      assert pushed.Ok?;
      Store(cursorRow, pushed.value);
    }

    /** Puts one printable character at the cursor, if the row has room. */
    method PutChar(c: Ascii)
      requires Valid() && c != LINE_FEED
      modifies `text, `cursorColumn, buffer, fb, fb.mem
      ensures Valid() && text == old(text) + [c]
    {
      if cursorColumn < COLUMNS - 1 {
        PlaceChar(c);
      } else {
        RowsAfterChar(text, c);
        text := text + [c];
      }
    }

    method PlaceChar(c: Ascii)
      requires Valid() && c != LINE_FEED && cursorColumn < COLUMNS - 1
      modifies `text, `cursorColumn, buffer, fb, fb.mem
      ensures Valid() && text == old(text) + [c]
    {
      ghost var rows, longer := Rows(text), text + [c];
      RowsAfterChar(text, c);
      Append(c, rows);
      cursorColumn := cursorColumn + 1;
      text := longer;
    }

    /** Prints a string; characters past column 149 are dropped. */
    method Print(s: Text)
      requires Valid()
      modifies `text, `cursorRow, `cursorColumn, buffer, fb, fb.mem
      ensures Valid() && text == old(text) + s
    {
      for i := 0 to |s|
        invariant Valid() && text == old(text) + s[..i]
      {
        Extend(old(text), s, i);
        if s[i] == LINE_FEED {
          NewLine();
        } else {
          PutChar(s[i]);
        }
      }
      assert s[..|s|] == s;
    }

    method Println(s: Text)
      requires Valid()
      modifies `text, `cursorRow, `cursorColumn, buffer, fb, fb.mem
      ensures Valid() && text == old(text) + s + [LINE_FEED]
    {
      Print(s);
      NewLine();
    }
  }

  /** Down to the bytes: at every pixel of its rectangle the display shows the rendering of the
      last 25 lines printed. */
  lemma PixelsShowTheText(c: TextConsole, x: nat, y: nat)
    requires c.Valid() && x < CONSOLE_WIDTH && y < CONSOLE_HEIGHT
    ensures ColorIn(c.fb.format, c.fb.width, c.fb.mem[..], x, y) ==
            Render(c.fb.font, Rows(c.text), c.fgColor, c.bgColor, x, y)
  {
    assert c.fb.screen(x, y) == Render(c.fb.font, Rows(c.text), c.fgColor, c.bgColor, x, y);
  }

  /** The bytes of memory at a pixel: the three of a colour, in the order of the format. */
  ghost predicate BytesShow(format: PixelFormat, mem: seq<Byte>, width: nat, x: nat, y: nat, color: RgbColor) {
    var o := (y * width + x) * 4;
    var red, green, blue := color / 0x100_0000, color / 0x1_0000 % 0x100, color / 0x100 % 0x100;
    0 <= o && o + 3 <= |mem| && mem[o..o + 3] == if format.Rgb? then [red, green, blue] else [blue, green, red]
  }

  lemma ShownIsStored(format: PixelFormat, mem: seq<Byte>, width: nat, height: nat, x: nat, y: nat, color: RgbColor)
    requires x < width && y < height && height * width * 4 <= |mem|
    requires ColorIn(format, width, mem, x, y) == ToPixel(color)
    ensures BytesShow(format, mem, width, x, y, color)
  {
    OffsetInBounds(width, height, x, y);
    var o := Offset(width, x, y);
    DecodeIsInjective(format, color, mem[o], mem[o + 1], mem[o + 2]);
    EncodeDigits(color);
    assert mem[o..o + 3] == [mem[o], mem[o + 1], mem[o + 2]];
  }

  lemma CellOf(cell: nat, d: nat, size: nat)
    requires d < size && (size == 8 || size == 16)
    ensures (size * cell + d) / size == cell && (size * cell + d) % size == d
  {
  }

  /** The rendering of pixel (dx, dy) of the cell in row r and column k. */
  lemma RenderOfCell(font: seq<seq<Byte>>, rows: seq<Text>, fg: RgbColor, bg: RgbColor, r: nat, k: nat, dx: nat, dy: nat, x: nat, y: nat)
    requires IsFont(font) && r < |rows| && dx < 8 && dy < 16 && x == 8 * k + dx && y == 16 * r + dy
    ensures Render(font, rows, fg, bg, x, y) ==
            if k < |rows[r]| && GlyphBit(font, rows[r][k], dx, dy) then ToPixel(fg) else ToPixel(bg)
  {
    CellOf(k, dx, 8);
    CellOf(r, dy, 16);
  }

  /** The character in column k of a line is drawn at pixel (dx, dy) of its cell: the leftmost pixel
      is the highest bit of the row's byte. */
  ghost predicate DrawnAt(font: seq<seq<Byte>>, l: Text, k: nat, dx: nat, dy: nat)
    requires IsFont(font) && dx < 8 && dy < 16
  {
    k < |l| && k < 149 && font[l[k]][dy] / Pow2(7 - dx) % 2 == 1
  }

  lemma DrawnIff(font: seq<seq<Byte>>, l: Text, kept: Text, k: nat, dx: nat, dy: nat)
    requires IsFont(font) && dx < 8 && dy < 16 && kept == if |l| <= 149 then l else l[..149]
    ensures DrawnAt(font, l, k, dx, dy) <==> k < |kept| && GlyphBit(font, kept[k], dx, dy)
  {
    if k < |kept| {
      assert kept[k] == l[k];
      BitIsDigit(font[l[k]][dy], 7 - dx);
    }
  }

  /** The screen, from the text alone: the lines `ls` into which the line feeds split everything
      printed, the last 25 of them, each up to its 149th character, in cells of 8 by 16 pixels. */
  lemma ScreenShowsTheLastLines(c: TextConsole, ls: seq<Text>, r: nat, k: nat, dx: nat, dy: nat, x: nat, y: nat)
    requires c.Valid() && |ls| > 0 && Join(ls) == c.text && forall l <- ls :: 10 !in l
    requires r < 25 && k < 150 && dx < 8 && dy < 16 && x == 8 * k + dx && y == 16 * r + dy
    ensures
      var i := LineOnRow(|ls|, r);
      BytesShow(c.fb.format, c.fb.mem[..], c.fb.width, x, y,
                if i < |ls| && DrawnAt(c.fb.font, ls[i], k, dx, dy) then c.fgColor else c.bgColor)
  {
    var i, row := LineOnRow(|ls|, r), Row(c.text, r);
    RowIsALine(ls, c.text, r);
    if i < |ls| {
      DrawnIff(c.fb.font, ls[i], row, k, dx, dy);
    }
    CellShowsTheText(c, r, k, dx, dy, x, y);
  }

  lemma CellShowsTheText(c: TextConsole, r: nat, k: nat, dx: nat, dy: nat, x: nat, y: nat)
    requires c.Valid() && r < 25 && k < 150 && dx < 8 && dy < 16 && x == 8 * k + dx && y == 16 * r + dy
    ensures
      var row := Row(c.text, r);
      BytesShow(c.fb.format, c.fb.mem[..], c.fb.width, x, y,
                if k < |row| && GlyphBit(c.fb.font, row[k], dx, dy) then c.fgColor else c.bgColor)
  {
    var row := Row(c.text, r);
    CellColor(c, r, k, dx, dy, x, y);
    ShownIsStored(c.fb.format, c.fb.mem[..], c.fb.width, c.fb.height, x, y,
                  if k < |row| && GlyphBit(c.fb.font, row[k], dx, dy) then c.fgColor else c.bgColor);
  }

  lemma CellColor(c: TextConsole, r: nat, k: nat, dx: nat, dy: nat, x: nat, y: nat)
    requires c.Valid() && r < 25 && k < 150 && dx < 8 && dy < 16 && x == 8 * k + dx && y == 16 * r + dy
    ensures x < c.fb.width && y < c.fb.height && c.fb.height * c.fb.width * 4 <= c.fb.mem.Length
    ensures
      var row := Row(c.text, r);
      ColorIn(c.fb.format, c.fb.width, c.fb.mem[..], x, y) ==
      ToPixel(if k < |row| && GlyphBit(c.fb.font, row[k], dx, dy) then c.fgColor else c.bgColor)
  {
    PixelsShowTheText(c, x, y);
    RowsIndex(c.text);
    RenderOfCell(c.fb.font, Rows(c.text), c.fgColor, c.bgColor, r, k, dx, dy, x, y);
  }

  /** However the text was split over print, println and new_line, grid, cursor and pixels are
      the same. */
  lemma SameTextSameScreen(c: TextConsole, d: TextConsole)
    requires c.Valid() && d.Valid() && c.text == d.text && c.fb.font == d.fb.font
    requires c.fgColor == d.fgColor && c.bgColor == d.bgColor
    ensures c.Grid() == d.Grid() && c.cursorRow == d.cursorRow && c.cursorColumn == d.cursorColumn
    ensures forall x: nat, y: nat {:trigger c.fb.screen(x, y)} :: x < CONSOLE_WIDTH && y < CONSOLE_HEIGHT ==>
              c.fb.screen(x, y) == d.fb.screen(x, y)
  {
  }
}
