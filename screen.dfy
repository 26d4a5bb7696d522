/** The screen editorRefreshScreen paints: one line per text row of the
    window (editorDrawRows), the status bar (editorDrawStatusBar), the message
    bar (editorDrawMessageBar) and the escape that puts the cursor back. */
module Screen {
  import opened Util
  import opened Syntax
  import opened RenderRow
  import opened Paint

  const KILO_VERSION: string := "0.0.1"
  const NO_NAME: string := "[No Name]"

  /** The escape sequences the painter writes. */
  const CLEAR_LINE: string := "\U{1B}[K"
  const INVERT: string := "\U{1B}[7m"
  const RESET: string := "\U{1B}[m"
  const HIDE_CURSOR: string := "\U{1B}[?25l"
  const SHOW_CURSOR: string := "\U{1B}[?25h"
  const HOME: string := "\U{1B}[H"

  function WelcomeMessage(): string {
    "Kilo editor -- version " + KILO_VERSION
  }

  /** The welcome line of an empty buffer: the message cut to the screen
      width and centred, with a tilde in the first column of the margin. */
  function WelcomeLine(cols: nat): (line: string)
    ensures |line| <= cols
    ensures |WelcomeMessage()| <= cols ==>
              |WelcomeMessage()| <= |line| &&
              line[|line| - |WelcomeMessage()|..] == WelcomeMessage() &&
              0 <= (cols - |line|) - (|line| - |WelcomeMessage()|) <= 1
    ensures cols < |WelcomeMessage()| ==> line == WelcomeMessage()[..cols]
  {
    var msg := WelcomeMessage();
    var wl := Min(|msg|, cols);
    var padding := (cols - wl) / 2;
    (if padding > 0 then "~" + Repeat(' ', padding - 1) else "") + msg[..wl]
  }

  // ---------------------------------------------------------------------
  // The drawn span of a text row

  /** The span of the render editorDrawRows draws, as written: rowSize is
      the number of columns to draw but is used as the end index of the
      slice, and the tags are taken from index 0 of the row. */
  function DrawnAsWritten(row: Row, colOffset: int, cols: int): (shown: seq<(char, int)>)
    requires |row.highlights| == |row.render| && 0 <= colOffset && 0 <= cols
    ensures |shown| <= cols
  {
    var rowSize := Min(Max(|row.render| - colOffset, 0), cols);
    if rowSize > colOffset then
      Colored(row.render[colOffset..rowSize], row.highlights[..rowSize - colOffset])
    else []
  }

  /** The part of the render inside the window: from colOffset, as many
      columns as the row has left and the screen is wide. */
  function VisibleSpan(rlen: int, colOffset: int, cols: int): (s: (int, int))
    requires 0 <= rlen && 0 <= colOffset && 0 <= cols
    ensures 0 <= s.0 <= s.1 <= rlen && s.1 - s.0 <= cols
  {
    var rowSize := Min(Max(rlen - colOffset, 0), cols);
    var lo := Min(colOffset, rlen);
    (lo, lo + rowSize)
  }

  /** The pieces written for a text row of the window: its visible span, each
      character with its own tag. */
  function RowPieces(row: Row, colOffset: int, cols: int): seq<Piece>
    requires |row.highlights| == |row.render| && 0 <= colOffset && 0 <= cols
  {
    var (lo, hi) := VisibleSpan(|row.render|, colOffset, cols);
    ColorPieces(row.render[lo..hi], row.highlights[lo..hi], DEFAULT)
  }

  /** What the terminal shows of a text row. */
  function Drawn(row: Row, colOffset: int, cols: int): seq<(char, int)>
    requires |row.highlights| == |row.render| && 0 <= colOffset && 0 <= cols
  {
    Shown(RowPieces(row, colOffset, cols), DEFAULT)
  }

  /** Screen column j of a text row shows render column colOffset + j, in the
      colour of its tag, for every column of the row inside the window. */
  lemma DrawnIsWindow(row: Row, colOffset: int, cols: int)
    requires |row.highlights| == |row.render| && 0 <= colOffset && 0 <= cols
    ensures var shown := Drawn(row, colOffset, cols);
            |shown| == Min(Max(|row.render| - colOffset, 0), cols) &&
            forall j :: 0 <= j < |shown| ==>
              shown[j] == (row.render[colOffset + j], ColorFor(row.highlights[colOffset + j]))
  {
    var (lo, hi) := VisibleSpan(|row.render|, colOffset, cols);
    var text, hl := row.render[lo..hi], row.highlights[lo..hi];
    var shown := Drawn(row, colOffset, cols);
    assert shown == Colored(text, hl) by {
      ShownColorPieces(text, hl, DEFAULT);
    }
    assert |shown| == hi - lo == Min(Max(|row.render| - colOffset, 0), cols);
    forall j | 0 <= j < |shown|
      ensures shown[j] == (row.render[colOffset + j], ColorFor(row.highlights[colOffset + j]))
    {
      assert lo == colOffset;
      assert text[j] == row.render[lo + j] && hl[j] == row.highlights[lo + j];
    }
  }

  /** When the cursor's render column is inside the window, the character the
      cursor is on is drawn under it. */
  lemma CursorOverItsCharacter(content: string, cx: int, colOffset: int, cols: int)
    requires 0 <= cx < |content| && content[cx] != '\t' && 0 <= colOffset
    requires colOffset <= CxToRx(content, cx) < colOffset + cols
    ensures var shown := Drawn(Rendered(content), colOffset, cols);
            var j := CxToRx(content, cx) - colOffset;
            j < |shown| && shown[j].0 == content[cx]
  {
    var row := Rendered(content);
    var rx := CxToRx(content, cx);
    RenderPlacement(content, cx);
    DrawnIsWindow(row, colOffset, cols);
    var j := rx - colOffset;
    assert 0 <= j < cols && colOffset + j < |row.render|;
  }

  /** The row 12345678ab: its render is the text and a NUL, and its tags
      mark the eight digits. */
  lemma SampleRow()
    ensures var row := Rendered("12345678ab");
            row.render == "12345678ab\0" && |row.highlights| == 11 &&
            row.highlights[7] == HL_NUMBER && row.highlights[8] == HL_NORMAL
  {
    RenderWithoutTabs("12345678ab");
  }

  /** As written, with one column of horizontal scroll the tags are read
      from the row's start, so the letter a is drawn in the number colour.
      Every character of the row is still drawn; the one render column left
      out is the NUL padding after b. */
  lemma DrawnAsWrittenMiscolours()
    ensures var row := Rendered("12345678ab");
            var written := DrawnAsWritten(row, 1, 80);
            var drawn := Drawn(row, 1, 80);
            |written| == 9 && written[7] == ('a', RED) && written[8].0 == 'b' &&
            |drawn| == 10 && drawn[7] == ('a', DEFAULT) && drawn[9].0 == '\0'
  {
    var row := Rendered("12345678ab");
    SampleRow();
    DrawnIsWindow(row, 1, 80);
    var drawn := Drawn(row, 1, 80);
    assert 9 < |drawn| by {
      assert 1 + 9 < |row.render|;
    }
    assert !(10 < |drawn|) by {
      assert !(1 + 10 < |row.render|);
    }
  }

  /** As written, with six columns of horizontal scroll nothing of the row is
      drawn, although its last four characters, 78ab, and the NUL after them
      are inside the window. */
  lemma DrawnAsWrittenBlanks()
    ensures var row := Rendered("12345678ab");
            DrawnAsWritten(row, 6, 80) == [] && |Drawn(row, 6, 80)| == 5 &&
            Drawn(row, 6, 80)[0].0 == '7' && Drawn(row, 6, 80)[3].0 == 'b'
  {
    var row := Rendered("12345678ab");
    SampleRow();
    DrawnIsWindow(row, 6, 80);
    var drawn := Drawn(row, 6, 80);
    assert 4 < |drawn| by {
      assert 6 + 4 < |row.render|;
    }
    assert !(5 < |drawn|) by {
      assert !(6 + 5 < |row.render|);
    }
  }

  // ---------------------------------------------------------------------
  // The lines of the window

  /** The rows carry one tag per rendered character. */
  predicate TagsMatch(rows: seq<Row>) {
    forall i :: 0 <= i < |rows| ==> |rows[i].highlights| == |rows[i].render|
  }

  /** The text written for a text row: the coloured span, then the default
      colour again. */
  function RowText(row: Row, colOffset: int, cols: int): string
    requires |row.highlights| == |row.render| && 0 <= colOffset && 0 <= cols
  {
    Emit(RowPieces(row, colOffset, cols)) + Sgr(DEFAULT)
  }

  /** The state editorDrawRows draws from: rows carrying a tag per rendered
      character, the row count within them, and non-negative offsets and width. */
  predicate Window(rows: seq<Row>, numrows: int, rowOffset: int, colOffset: int, cols: int) {
    TagsMatch(rows) && 0 <= numrows <= |rows| && 0 <= rowOffset && 0 <= colOffset && 0 <= cols
  }

  /** What screen line y shows: a text row of the window, a tilde past the
      end of the buffer, or the welcome line a third of the way down an empty
      buffer. */
  function LineContent(rows: seq<Row>, numrows: int, rowOffset: int, colOffset: int,
                       screenrows: int, cols: int, y: int): string
    requires Window(rows, numrows, rowOffset, colOffset, cols) && 0 <= y
  {
    var fileRow := y + rowOffset;
    if fileRow >= numrows then
      if numrows == 0 && y == screenrows / 3 then WelcomeLine(cols) else "~"
    else RowText(rows[fileRow], colOffset, cols)
  }

  lemma LineOfRow(rows: seq<Row>, numrows: int, rowOffset: int, colOffset: int, screenrows: int, cols: int, y: int)
    requires Window(rows, numrows, rowOffset, colOffset, cols) && 0 <= y && y + rowOffset < numrows
    ensures LineContent(rows, numrows, rowOffset, colOffset, screenrows, cols, y) ==
            RowText(rows[y + rowOffset], colOffset, cols)
  {
  }

  /** Screen line y as written: its content, then the escape clearing the
      rest of the line. */
  function ScreenLine(rows: seq<Row>, numrows: int, rowOffset: int, colOffset: int,
                      screenrows: int, cols: int, y: int): string
    requires Window(rows, numrows, rowOffset, colOffset, cols) && 0 <= y
  {
    LineContent(rows, numrows, rowOffset, colOffset, screenrows, cols, y) + CLEAR_LINE + "\r\n"
  }

  /** The first n screen lines. */
  function ScreenLines(rows: seq<Row>, numrows: int, rowOffset: int, colOffset: int,
                       screenrows: int, cols: int, n: nat): string
    requires Window(rows, numrows, rowOffset, colOffset, cols)
  {
    if n == 0 then ""
    else ScreenLines(rows, numrows, rowOffset, colOffset, screenrows, cols, n - 1) +
         ScreenLine(rows, numrows, rowOffset, colOffset, screenrows, cols, n - 1)
  }

  /** One character of a text row: the escape for its tag's colour when that
      differs from the colour in force, then the character. */
  method DrawChar(c: char, h: uint8, current: int) returns (piece: string, next: int)
    ensures next == ColorFor(h)
    ensures piece == (if current == next then "" else Sgr(next)) + [c]
  {
    piece := "";
    next := current;
    if h == HL_NORMAL {
      if current != DEFAULT {
        piece := Sgr(DEFAULT);
        next := DEFAULT;
      }
    } else {
      var color := SyntaxToColor(h);
      if color != current {
        piece := Sgr(color);
        next := color;
      }
    }
    piece := piece + [c];
  }

  /** Appending line n, as drawn, to the first n lines gives the first n + 1. */
  lemma ScreenLinesStep(rows: seq<Row>, numrows: int, rowOffset: int, colOffset: int,
                        screenrows: int, cols: int, n: nat, out: string, line: string)
    requires Window(rows, numrows, rowOffset, colOffset, cols)
    requires out == ScreenLines(rows, numrows, rowOffset, colOffset, screenrows, cols, n)
    requires line == LineContent(rows, numrows, rowOffset, colOffset, screenrows, cols, n)
    ensures out + (line + CLEAR_LINE + "\r\n") == ScreenLines(rows, numrows, rowOffset, colOffset, screenrows, cols, n + 1)
  {
  }

  /** The characters of a visible span with their tags, as the inner loop of
      editorDrawRows writes them. */
  method DrawSpan(text: seq<char>, hl: seq<uint8>) returns (out: string)
    requires |hl| == |text|
    ensures out == Emit(ColorPieces(text, hl, DEFAULT))
  {
    out := "";
    var current := DEFAULT;
    for i := 0 to |text|
      invariant out == Emit(ColorPieces(text[..i], hl[..i], DEFAULT))
      invariant current == LastColor(hl[..i], DEFAULT)
    {
      var piece, next := DrawChar(text[i], hl[i], current);
      assert out + piece == Emit(ColorPieces(text[..i + 1], hl[..i + 1], DEFAULT)) &&
             next == LastColor(hl[..i + 1], DEFAULT) by {
        EmitColorPiecesStep(text, hl, i, DEFAULT);
      }
      out, current := out + piece, next;
    }
    assert text[..|text|] == text && hl[..|hl|] == hl;
  }

  /** The inner loop of editorDrawRows for one text row: the visible span,
      character by character, then the default colour again. */
  method DrawRow(row: Row, colOffset: int, cols: int) returns (out: string)
    requires |row.highlights| == |row.render| && 0 <= colOffset && 0 <= cols
    ensures out == RowText(row, colOffset, cols)
  {
    var (lo, hi) := VisibleSpan(|row.render|, colOffset, cols);
    out := DrawSpan(row.render[lo..hi], row.highlights[lo..hi]);
    out := out + Sgr(DEFAULT);
  }

  /** The body of editorDrawRows's loop for screen line y, before the
      clearing escape. */
  method DrawLine(rows: seq<Row>, numrows: int, rowOffset: int, colOffset: int, screenrows: int, cols: int, y: int)
    returns (line: string)
    requires Window(rows, numrows, rowOffset, colOffset, cols) && 0 <= y
    ensures line == LineContent(rows, numrows, rowOffset, colOffset, screenrows, cols, y)
  {
    var fileRow := y + rowOffset;
    if fileRow >= numrows {
      if numrows == 0 && y == screenrows / 3 {
        line := WelcomeLine(cols);
      } else {
        line := "~";
      }
    } else {
      line := DrawRow(rows[fileRow], colOffset, cols);
      LineOfRow(rows, numrows, rowOffset, colOffset, screenrows, cols, y);
    }
  }

  /** editorDrawRows: one line per text row of the window. */
  method DrawRows(rows: seq<Row>, numrows: int, rowOffset: int, colOffset: int, screenrows: int, cols: int)
    returns (out: string)
    requires Window(rows, numrows, rowOffset, colOffset, cols) && 0 <= screenrows
    ensures out == ScreenLines(rows, numrows, rowOffset, colOffset, screenrows, cols, screenrows)
  {
    out := "";
    var y := 0;
    while y < screenrows
      invariant 0 <= y <= screenrows
      invariant out == ScreenLines(rows, numrows, rowOffset, colOffset, screenrows, cols, y)
    {
      var line := DrawLine(rows, numrows, rowOffset, colOffset, screenrows, cols, y);
      ScreenLinesStep(rows, numrows, rowOffset, colOffset, screenrows, cols, y, out, line);
      out := out + (line + CLEAR_LINE + "\r\n");
      y := y + 1;
    }
  }

  // ---------------------------------------------------------------------
  // Status bar, message bar and cursor

  /** The left part of the status bar: the file name cut to 20 characters,
      the line count and the modified flag. */
  function StatusLeft(filename: string, numrows: int, dirty: bool): string {
    var name := if filename == [] then NO_NAME else filename;
    name[..Min(20, |name|)] + " - " + DecimalInt(numrows) + " lines " + (if dirty then "(modified)" else "")
  }

  /** The right part of the status bar: current line and line count. */
  function StatusRight(cy: int, numrows: int): (r: string)
    ensures 3 <= |r|
  {
    DecimalInt(cy + 1) + "/" + DecimalInt(numrows)
  }

  /** The status bar between its escapes: the left part cut to the screen,
      then spaces, with the right part at the far right when it fits. */
  function StatusBar(left: string, right: string, cols: nat): (bar: string)
    ensures |bar| == cols
    ensures bar[..Min(|left|, cols)] == left[..Min(|left|, cols)]
    ensures cols - Min(|left|, cols) >= |right| ==> bar[cols - |right|..] == right
    ensures cols - Min(|left|, cols) < |right| ==> forall k :: Min(|left|, cols) <= k < cols ==> bar[k] == ' '
  {
    var shown := Min(|left|, cols);
    if cols - shown >= |right| then left[..shown] + Repeat(' ', cols - shown - |right|) + right
    else left[..shown] + Repeat(' ', cols - shown)
  }

  /** editorDrawStatusBar: pads with spaces one at a time, writing the right
      part as soon as exactly its width is left. */
  method DrawStatusBar(filename: string, numrows: int, dirty: bool, cy: int, cols: nat) returns (out: string)
    ensures out == INVERT + StatusBar(StatusLeft(filename, numrows, dirty), StatusRight(cy, numrows), cols) +
                   RESET + "\r\n"
  {
    var status := StatusLeft(filename, numrows, dirty);
    var right := StatusRight(cy, numrows);
    var statusLen := Min(|status|, cols);
    ghost var first := statusLen;
    var bar := status[..statusLen];
    while statusLen < cols
      invariant first <= statusLen <= cols
      invariant statusLen <= cols - |right| || cols - first < |right|
      invariant bar == status[..first] + Repeat(' ', statusLen - first)
      decreases cols - statusLen
    {
      if cols - statusLen == |right| {
        bar := bar + right;
        break;
      }
      assert Repeat(' ', statusLen - first) + [' '] == Repeat(' ', statusLen + 1 - first);
      bar := bar + " ";
      statusLen := statusLen + 1;
    }
    assert bar == StatusBar(status, right, cols);
    out := INVERT + bar + RESET + "\r\n";
  }

  /** editorDrawMessageBar: the message cut to the screen width, shown only
      while it is fresh (younger than the message timeout). */
  function MessageBar(msg: string, cols: nat, recent: bool): (bar: string)
    ensures |CLEAR_LINE| <= |bar| && bar[..|CLEAR_LINE|] == CLEAR_LINE
    ensures var shown := bar[|CLEAR_LINE|..];
            |shown| <= cols && |shown| <= |msg| && shown == msg[..|shown|] &&
            (shown != [] <==> recent && msg != [] && cols > 0) &&
            (recent && |msg| <= cols ==> shown == msg)
  {
    var len := Min(|msg|, cols);
    CLEAR_LINE + (if len > 0 && recent then msg[..len] else "")
  }

  /** The escape placing the cursor at a 1-based row and column. */
  function CursorTo(row: int, col: int): string {
    "\U{1B}[" + DecimalInt(row) + ";" + DecimalInt(col) + "H"
  }
}
