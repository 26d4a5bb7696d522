/** The editor itself: kilo's global state (the editor config, the search
    globals and the quit counter) as one object, and the operations that
    update it in place. Each operation is proved against the pure model of
    the other modules: the row and editing operations against the buffer's
    lines and the Document functions, cursor movement and scrolling against
    Viewport, incremental search against the scan of Search, and the screen
    refresh against the builders of Screen. */
module Editor {
  import opened Util
  import opened Keys
  import opened Syntax
  import opened RenderRow
  import opened Buffer
  import opened Search
  import opened Viewport
  import D = Document
  import opened Screen

  const QUIT_TIMES: int := 3

  // ---------------------------------------------------------------------
  // The quit counter

  /** One keypress on the quit counter: whether the editor keeps running and
      the new count. Ctrl-Q on a modified buffer with presses left takes one
      off; Ctrl-Q otherwise quits and leaves the count; any other key
      restores the full count. */
  function QuitStep(dirty: bool, quitTimes: int, key: int): (bool, int) {
    if key == CtrlKey('q' as int) then
      if dirty && quitTimes > 0 then (true, quitTimes - 1) else (false, quitTimes)
    else (true, QUIT_TIMES)
  }

  /** Whether the editor still runs after n consecutive presses of Ctrl-Q. */
  function RunningAfterQuits(dirty: bool, quitTimes: int, n: nat): bool
    decreases n
  {
    if n == 0 then true
    else
      var (running, left) := QuitStep(dirty, quitTimes, CtrlKey('q' as int));
      running && RunningAfterQuits(dirty, left, n - 1)
  }

  /** On a modified buffer with q presses left, exactly the first q presses
      of Ctrl-Q keep the editor running. */
  lemma {:induction false} ModifiedQuit(q: nat, n: nat)
    ensures RunningAfterQuits(true, q, n) <==> n <= q
    decreases n
  {
    if n > 0 && q > 0 {
      ModifiedQuit(q - 1, n - 1);
    }
  }

  /** With the full count a modified buffer quits on the fourth consecutive
      Ctrl-Q, and a clean buffer on the first. */
  lemma QuitPresses()
    ensures RunningAfterQuits(true, QUIT_TIMES, 3) && !RunningAfterQuits(true, QUIT_TIMES, 4)
    ensures !RunningAfterQuits(false, QUIT_TIMES, 1)
  {
    ModifiedQuit(3, 3);
    ModifiedQuit(3, 4);
  }

  // ---------------------------------------------------------------------
  // What a key does to the lines and the cursor

  /** A key that editorProcessKeypress inserts as a character: an ASCII unit
      with no binding of its own. */
  predicate Ordinary(key: int) {
    0 <= key < 128 && key != ENTER && key != CtrlKey('q' as int) && key != CtrlKey('s' as int) &&
    key != CtrlKey('f' as int) && key != BACKSPACE && key != CtrlKey('h' as int) &&
    key != CtrlKey('l' as int) && key != ESC
  }

  predicate IsArrow(key: int) {
    key == ARROW_UP || key == ARROW_DOWN || key == ARROW_LEFT || key == ARROW_RIGHT
  }

  /** The keys of editorProcessKeypress other than Ctrl-Q, Ctrl-S and Ctrl-F,
      as their effect on the lines and the cursor, given the window's top
      line and height. */
  function KeyEffect(d: D.Doc, key: int, rowOffset: int, screenrows: int): (r: D.Doc)
    requires D.Ok(d) && 0 <= rowOffset <= |d.lines| && 1 <= screenrows
    ensures D.Ok(r)
    ensures !(key == ENTER || key == BACKSPACE || key == CtrlKey('h' as int) || key == DEL_KEY || Ordinary(key)) ==>
              r.lines == d.lines
  {
    if key == ENTER then D.Newline(d)
    else if key == HOME_KEY then d.(cx := 0)
    else if key == END_KEY then d.(cx := LineLen(d.lines, d.cy))
    else if key == BACKSPACE || key == CtrlKey('h' as int) then D.DelChar(d)
    else if key == DEL_KEY then
      var (x, y) := CursorAfterMove(d.lines, d.cx, d.cy, ARROW_RIGHT);
      D.DelChar(D.Doc(d.lines, x, y))
    else if key == PAGE_UP || key == PAGE_DOWN then
      var (x, y) := PageMove(d.lines, d.cx, rowOffset, screenrows, key);
      D.Doc(d.lines, x, y)
    else if IsArrow(key) then
      var (x, y) := CursorAfterMove(d.lines, d.cx, d.cy, key);
      D.Doc(d.lines, x, y)
    else if Ordinary(key) then D.InsertChar(d, key as char)
    else d
  }

  /** Backspace and Ctrl-H delete before the cursor; Del does so after
      moving the cursor right. */
  lemma EraseEffect(d: D.Doc, key: int, rowOffset: int, screenrows: int)
    requires D.Ok(d) && 0 <= rowOffset <= |d.lines| && 1 <= screenrows
    requires key == BACKSPACE || key == CtrlKey('h' as int) || key == DEL_KEY
    ensures var m := if key == DEL_KEY then
                       D.Doc(d.lines, CursorAfterMove(d.lines, d.cx, d.cy, ARROW_RIGHT).0,
                             CursorAfterMove(d.lines, d.cx, d.cy, ARROW_RIGHT).1)
                     else d;
            D.Ok(m) && KeyEffect(d, key, rowOffset, screenrows) == D.DelChar(m)
  {
  }

  /** Typing a character and then Backspace leaves the buffer and the cursor
      as they were, on every line of the buffer. */
  lemma TypeThenBackspace(d: D.Doc, key: int, rowOffset: int, screenrows: int)
    requires D.Ok(d) && d.cy < |d.lines| && 0 <= rowOffset <= |d.lines| && 1 <= screenrows
    requires Ordinary(key)
    ensures KeyEffect(KeyEffect(d, key, rowOffset, screenrows), BACKSPACE, rowOffset, screenrows) == d
  {
    D.InsertCharThenDelChar(d, key as char);
  }

  /** Enter and then Backspace join the split line again. */
  lemma EnterThenBackspace(d: D.Doc, rowOffset: int, screenrows: int)
    requires D.Ok(d) && d.cy < |d.lines| && 0 <= rowOffset <= |d.lines| && 1 <= screenrows
    ensures KeyEffect(KeyEffect(d, ENTER, rowOffset, screenrows), BACKSPACE, rowOffset, screenrows) == d
  {
    D.NewlineThenDelChar(d);
  }

  // ---------------------------------------------------------------------
  // Helpers on values

  /** A row as editorUpdateRow leaves it. */
  predicate IsRendered(row: Row) {
    row == Rendered(row.content)
  }

  /** Replacing row y of the slice replaces line y of the buffer. */
  lemma TextsUpdate(rows: seq<Row>, n: int, y: int, r: Row)
    requires 0 <= y < n <= |rows|
    ensures Texts(rows[y := r])[..n] == Texts(rows)[..n][y := r.content]
  {
  }

  /** Appending line y to line y - 1 and then removing line y joins the two. */
  lemma JoinedLines(lines: seq<string>, mid: seq<string>, joined: seq<string>, y: int)
    requires 0 < y < |lines| && mid == lines[y - 1 := lines[y - 1] + lines[y]]
    requires joined == mid[..y] + mid[y + 1..]
    ensures joined == lines[..y - 1] + [lines[y - 1] + lines[y]] + lines[y + 1..]
    ensures |joined| == |lines| - 1 && joined[y - 1] == lines[y - 1] + lines[y]
  {
    assert mid[..y] == lines[..y - 1] + [lines[y - 1] + lines[y]];
  }

  /** Inserting into the slice at an index within the buffer inserts into
      the buffer's lines. */
  lemma PrefixOfInsert(t: seq<string>, n: int, at: int, x: string)
    requires 0 <= at <= n <= |t|
    ensures (t[..at] + [x] + t[at..])[..n + 1] == t[..n][..at] + [x] + t[..n][at..]
  {
    assert t[..n][..at] == t[..at];
    assert (t[..at] + [x] + t[at..])[..n + 1] == t[..at] + [x] + t[at..n];
  }

  /** editorScroll on one axis. */
  method ScrollAxis(pos: int, off: int, size: int) returns (o: int)
    ensures o == ScrollOffset(pos, off, size)
  {
    o := off;
    if pos < o {
      o := pos;
    }
    if pos >= o + size {
      o := pos - size + 1;
    }
  }

  /** The first step of editorScroll: the render column of the cursor, or 0
      on the line past the end. */
  method CursorRx(rows: seq<Row>, numrows: int, cx: int, cy: int) returns (x: nat)
    requires 0 <= numrows <= |rows| && 0 <= cy <= numrows
    requires cy < numrows ==> 0 <= cx <= |rows[cy].content|
    ensures x == if cy < numrows then CxToRx(rows[cy].content, cx) else 0
  {
    x := 0;
    if cy < numrows {
      x := RowCxToRx(rows[cy], cx);
    }
  }

  /** editorMoveCursor on the buffer's rows: one arrow key, then cx snapped
      to the length of the line the cursor ends on. */
  method MovedCursor(rows: seq<Row>, numrows: int, cx: int, cy: int, key: int) returns (x: int, y: int)
    requires 0 <= numrows <= |rows| && 0 <= cx && 0 <= cy <= numrows
    ensures (x, y) == CursorAfterMove(Texts(rows)[..numrows], cx, cy, key)
  {
    ghost var lines := Texts(rows)[..numrows];
    assert |lines| == numrows;
    x, y := cx, cy;
    var row := if y < numrows then rows[y].content else "";
    assert |row| == LineLen(lines, y);
    if key == ARROW_UP {
      if y != 0 {
        y := y - 1;
      }
      assert (x, y) == ArrowStep(lines, cx, cy, key);
    } else if key == ARROW_LEFT {
      if x != 0 {
        x := x - 1;
      } else if y > 0 {
        y := y - 1;
        x := |rows[y].content|;
        assert x == |lines[y]|;
      }
      assert (x, y) == ArrowStep(lines, cx, cy, key);
    } else if key == ARROW_DOWN {
      if y < numrows {
        y := y + 1;
      }
      assert (x, y) == ArrowStep(lines, cx, cy, key);
    } else if key == ARROW_RIGHT {
      if x < |row| {
        x := x + 1;
      } else if |row| > 0 && x == |row| {
        y := y + 1;
        x := 0;
      }
      assert (x, y) == ArrowStep(lines, cx, cy, key);
    } else {
      assert (x, y) == ArrowStep(lines, cx, cy, key);
    }
    row := if y >= numrows then "" else rows[y].content;
    var rowLength := Max(|row|, 0);
    assert rowLength == LineLen(lines, y);
    if x > rowLength {
      x := rowLength;
    }
  }

  /** The loop of editorOnInputFind that copies a row's tags before marking it. */
  method CopyTags(hl: seq<uint8>) returns (copy: seq<uint8>)
    ensures copy == hl
  {
    var a := new uint8[|hl|];
    for i := 0 to |hl|
      invariant a[..i] == hl[..i]
    {
      a[i] := hl[i];
    }
    copy := a[..];
  }

  /** The loop of editorOnInputFind that puts a row's saved tags back, one
      per rendered character. */
  method RestoreTags(hl: seq<uint8>, saved: seq<uint8>) returns (r: seq<uint8>)
    requires |hl| <= |saved|
    ensures r == saved[..|hl|]
  {
    r := hl;
    for i := 0 to |hl|
      invariant |r| == |hl|
      invariant r[..i] == saved[..i] && r[i..] == hl[i..]
    {
      r := r[i := saved[i]];
    }
    assert r == r[..|hl|];
  }

  /** Where editorOnInputFind starts its scan for a key other than Enter and
      ESC: the arrows keep the previous match and set the direction, other
      keys start over from the top, and without a previous match the scan
      goes forward. */
  method ScanDirection(lastMatch: int, key: int) returns (last: int, dir: int)
    ensures (last, dir) == ScanFrom(lastMatch, key)
  {
    last := lastMatch;
    if key == ARROW_RIGHT || key == ARROW_DOWN {
      dir := 1;
    } else if key == ARROW_LEFT || key == ARROW_UP {
      dir := -1;
    } else {
      last, dir := -1, 1;
    }
    if last == -1 {
      dir := 1;
    }
  }

  /** The loop of editorOnInputFind over the rows: at most one probe per
      element of the slice, in the wrapping order from start, stopping at the
      first row whose render contains the query. The hit is that row and the
      query's index in its render. */
  method ScanLoop(rows: seq<Row>, numrows: int, query: string, start: int, dir: int)
    returns (hit: Option<(int, int)>)
    requires ScanStart(numrows, start, dir) && numrows <= |rows|
    ensures var h := FirstHit(rows, numrows, query, start, dir, 1, |rows|);
            (hit.None? <==> h.None?) &&
            (h.Some? ==> var y := Probe(start, dir, numrows, h.value);
                         hit == Some((y, IndexOf(rows[y].render, query))))
  {
    var current := start;
    var k := 0;
    while k < |rows|
      invariant 0 <= k <= |rows|
      invariant current == if k == 0 then start else Probe(start, dir, numrows, k)
      invariant FirstHit(rows, numrows, query, start, dir, 1, |rows|) ==
                FirstHit(rows, numrows, query, start, dir, k + 1, |rows|)
    {
      ScanStep(rows, numrows, query, start, dir, k, current);
      ghost var previous := current;
      current := current + dir;
      if current == -1 {
        current := numrows - 1;
      } else if current == numrows {
        current := 0;
      }
      assert current == NextRow(previous, dir, numrows);
      var m := IndexOf(rows[current].render, query);
      if m != -1 {
        return Some((current, m));
      }
      k := k + 1;
    }
    return None;
  }

  /** The whole frame editorRefreshScreen writes: hide the cursor, home, the
      text rows, the status bar, the message bar, the cursor's position and
      show the cursor. */
  function Frame(rows: seq<Row>, numrows: int, rowOffset: int, colOffset: int, screenrows: nat, cols: nat,
                 filename: string, dirty: bool, cy: int, rx: int, msg: string, recent: bool): string
    requires Window(rows, numrows, rowOffset, colOffset, cols)
  {
    HIDE_CURSOR + HOME + ScreenLines(rows, numrows, rowOffset, colOffset, screenrows, cols, screenrows) +
    (INVERT + StatusBar(StatusLeft(filename, numrows, dirty), StatusRight(cy, numrows), cols) + RESET + "\r\n") +
    MessageBar(msg, cols, recent) + CursorTo(cy - rowOffset + 1, rx - colOffset + 1) + SHOW_CURSOR
  }

  /** The painting part of editorRefreshScreen, once scrolled: the frame
      written to the terminal in one piece. */
  method PaintFrame(rows: seq<Row>, numrows: int, rowOffset: int, colOffset: int, screenrows: nat, cols: nat,
               filename: string, dirty: bool, cy: int, rx: int, msg: string, recent: bool)
    returns (frame: string)
    requires Window(rows, numrows, rowOffset, colOffset, cols)
    ensures frame == Frame(rows, numrows, rowOffset, colOffset, screenrows, cols, filename, dirty, cy, rx, msg, recent)
  {
    var body := DrawRows(rows, numrows, rowOffset, colOffset, screenrows, cols);
    var status := DrawStatusBar(filename, numrows, dirty, cy, cols);
    frame := HIDE_CURSOR + HOME + body + status + MessageBar(msg, cols, recent) +
             CursorTo(cy - rowOffset + 1, rx - colOffset + 1) + SHOW_CURSOR;
  }

  class Editor {
    var rows: seq<Row>
    var numrows: int
    var cx: int
    var cy: int
    var rx: int
    var rowOffset: int
    var colOffset: int
    var screenrows: int
    var screencols: int
    var dirty: bool
    var filename: string
    var statusMsg: string
    var lastMatch: int
    var direction: int
    var savedHighlightIndex: int
    var savedHighlights: Option<seq<uint8>>

    // -------------------------------------------------------------------
    // Invariants

    /** The lines of the buffer: the contents of the first numrows rows. */
    function Lines(): seq<string>
      reads this`rows, this`numrows
      requires 0 <= numrows <= |rows|
    {
      Texts(rows)[..numrows]
    }

    /** The buffer's lines with the cursor. */
    function Doc(): D.Doc
      reads this`rows, this`numrows, this`cx, this`cy
      requires 0 <= numrows <= |rows|
    {
      D.Doc(Lines(), cx, cy)
    }

    /** Every row carries the render and the tags of its content, except the
        row a search has marked. */
    predicate RowsRendered()
      reads this`rows, this`savedHighlights, this`savedHighlightIndex
    {
      forall i {:trigger IsRendered(rows[i])} ::
        0 <= i < |rows| && (savedHighlights.None? || i != savedHighlightIndex) ==> IsRendered(rows[i])
    }

    /** The marked row keeps the render of its content and one tag per
        rendered character, and the saved tags are its tags before the marks. */
    predicate SavedOk()
      reads this`rows, this`savedHighlights, this`savedHighlightIndex
    {
      savedHighlights.Some? ==>
        0 <= savedHighlightIndex < |rows| &&
        rows[savedHighlightIndex].render == RenderOf(rows[savedHighlightIndex].content) &&
        savedHighlights.value == HighlightsOf(rows[savedHighlightIndex].render) &&
        |rows[savedHighlightIndex].highlights| == |rows[savedHighlightIndex].render|
    }

    /** numrows counts a prefix of the slice, and the rows are rendered. */
    predicate RowsOk()
      reads this`rows, this`numrows, this`savedHighlights, this`savedHighlightIndex
    {
      0 <= numrows <= |rows| && RowsRendered() && SavedOk()
    }

    /** The state between operations, with the cursor on a line of the buffer
        or just past it, though not necessarily within that line. */
    predicate Inv()
      reads this`rows, this`numrows, this`savedHighlights, this`savedHighlightIndex,
            this`screenrows, this`screencols, this`rowOffset, this`colOffset, this`cx, this`cy
    {
      RowsOk() && (rows != [] ==> 0 < numrows) &&
      1 <= screenrows && 1 <= screencols && 0 <= rowOffset && 0 <= colOffset &&
      0 <= cx && 0 <= cy <= numrows
    }

    /** The state between keypresses: the cursor is also within its line. */
    predicate Valid()
      reads this`rows, this`numrows, this`savedHighlights, this`savedHighlightIndex,
            this`screenrows, this`screencols, this`rowOffset, this`colOffset, this`cx, this`cy
    {
      Inv() && cx <= LineLen(Lines(), cy)
    }

    /** No search in progress: no marked row, and no previous match other than
        the initial 0 of the source. */
    predicate Idle()
      reads this`savedHighlights, this`lastMatch
    {
      savedHighlights.None? && -1 <= lastMatch <= 0
    }

    /** A scan of editorOnInputFind can start from the previous match. */
    predicate ScanReady()
      reads this`lastMatch, this`rows, this`numrows
    {
      -1 <= lastMatch && (rows != [] ==> lastMatch < numrows)
    }

    /** What editorScroll establishes: rx is the render column of the cursor
        and the window shows the cursor. */
    predicate Scrolled()
      reads this`rows, this`numrows, this`savedHighlights, this`savedHighlightIndex,
            this`screenrows, this`screencols, this`rowOffset, this`colOffset, this`cx, this`cy, this`rx
      requires Valid()
    {
      rx == (if cy < numrows then CxToRx(rows[cy].content, cx) else 0) &&
      rowOffset <= cy < rowOffset + screenrows &&
      colOffset <= rx < colOffset + screencols
    }

    lemma TagsOk()
      requires RowsOk()
      ensures TagsMatch(rows)
    {
      forall i | 0 <= i < |rows|
        ensures |rows[i].highlights| == |rows[i].render|
      {
        if savedHighlights.None? || i != savedHighlightIndex {
          assert IsRendered(rows[i]);
        }
      }
    }

    /** The outcome of a scan for query from row start in direction dir: on
        a hit the cursor is on the match, the window is pushed past the end
        so that the next scroll puts the match on its top line, the row's
        tags are saved and the match is tagged HL_MATCH; without a hit
        nothing moves and the next scan goes on from start. */
    predicate ScanOutcome(query: string, start: int, dir: int, cx0: int, cy0: int, rowOffset0: int)
      reads this`rows, this`numrows, this`cx, this`cy, this`rowOffset, this`lastMatch,
            this`savedHighlightIndex, this`savedHighlights
    {
      0 < numrows <= |rows| && ScanStart(numrows, start, dir) &&
      var hit := FirstHit(rows, numrows, query, start, dir, 1, |rows|);
      (hit.None? ==>
         lastMatch == start && savedHighlights.None? &&
         cx == cx0 && cy == cy0 && rowOffset == rowOffset0) &&
      (hit.Some? ==>
         var y := Probe(start, dir, numrows, hit.value);
         var m := IndexOf(rows[y].render, query);
         0 <= m && m + |query| <= |rows[y].render| &&
         lastMatch == y && cy == y && cx == RxToCx(rows[y].content, m) && rowOffset == numrows &&
         savedHighlightIndex == y && savedHighlights == Some(HighlightsOf(rows[y].render)) &&
         rows[y].highlights == Marked(HighlightsOf(rows[y].render), m, |query|))
    }

    /** initializeEditor for a terminal of the given size, two rows of which
        are kept for the status and message bars, and the help message that
        main shows at start. */
    constructor (windowRows: int, windowCols: int)
      requires 3 <= windowRows && 1 <= windowCols
      ensures Valid() && Idle() && Lines() == [] && cx == 0 && cy == 0
      ensures screenrows == windowRows - 2 && screencols == windowCols
      ensures !dirty && lastMatch == 0 && direction == 0
      ensures filename == [] && rowOffset == 0 && colOffset == 0 && rx == 0
      ensures statusMsg == "HELP: Ctrl-Q - quit | Ctrl-S - save | Ctrl-F - find"
    {
      rows := [];
      numrows := 0;
      cx, cy, rx := 0, 0, 0;
      rowOffset, colOffset := 0, 0;
      screenrows := windowRows - 2;
      screencols := windowCols;
      dirty := false;
      filename := "";
      statusMsg := "HELP: Ctrl-Q - quit | Ctrl-S - save | Ctrl-F - find";
      lastMatch := 0;
      direction := 0;
      savedHighlightIndex := 0;
      savedHighlights := None;
    }

    // -------------------------------------------------------------------
    // Row operations

    /** editorInsertRow: an index outside 0..numrows is ignored; otherwise the
        rendered row goes in at that index of the slice and the buffer is
        modified. */
    method InsertRow(at: int, content: string)
      requires RowsOk() && savedHighlights.None?
      modifies this`rows, this`numrows, this`dirty
      ensures RowsOk()
      ensures !(0 <= at <= old(numrows)) ==> rows == old(rows) && numrows == old(numrows) && dirty == old(dirty)
      ensures 0 <= at <= old(numrows) ==>
                rows == InsertRowRendered(old(rows), at, content) && numrows == old(numrows) + 1 && dirty
      ensures 0 <= at <= old(numrows) ==> Lines() == old(Lines())[..at] + [content] + old(Lines())[at..]
    {
      if at < 0 || at > numrows {
        return;
      }
      var row := UpdateRow(Row(content, [], []));
      ghost var before := rows;
      rows, numrows, dirty := rows[..at] + [row] + rows[at..], numrows + 1, true;
      forall i | 0 <= i < |rows|
        ensures IsRendered(rows[i])
      {
        if i < at {
          assert rows[i] == before[i];
        } else if i > at {
          assert rows[i] == before[i - 1];
        }
      }
      PrefixOfInsert(Texts(before), numrows - 1, at, content);
    }

    /** editorRowInsertChar on row y: the index is clamped to the end of the
        row, the row is rendered again and the buffer is modified. */
    method RowInsertChar(y: int, at: int, c: char)
      requires RowsOk() && savedHighlights.None? && 0 <= y < |rows|
      modifies this`rows, this`dirty
      ensures RowsOk()
      ensures rows == old(rows)[y := Rendered(InsertAt(old(rows)[y].content, at, c))]
      ensures dirty
    {
      var row := UpdateRow(Row(InsertAt(rows[y].content, at, c), rows[y].render, rows[y].highlights));
      rows, dirty := rows[y := row], true;
    }

    /** editorRowAppendString on row y. */
    method RowAppendString(y: int, s: string)
      requires RowsOk() && savedHighlights.None? && 0 <= y < |rows|
      modifies this`rows, this`dirty
      ensures RowsOk()
      ensures rows == old(rows)[y := Rendered(old(rows)[y].content + s)]
      ensures dirty
    {
      var row := UpdateRow(Row(rows[y].content + s, rows[y].render, rows[y].highlights));
      rows, dirty := rows[y := row], true;
    }

    /** editorRowDelChar on row y: an index outside the row is ignored. The
        guard lets the index just past the end through, where the source's
        slices.Delete fails, so callers must not pass it. */
    method RowDelChar(y: int, at: int)
      requires RowsOk() && savedHighlights.None? && 0 <= y < |rows|
      requires at != |rows[y].content|
      modifies this`rows, this`dirty
      ensures RowsOk()
      ensures !(0 <= at < |old(rows)[y].content|) ==> rows == old(rows) && dirty == old(dirty)
      ensures 0 <= at < |old(rows)[y].content| ==>
                rows == old(rows)[y := Rendered(DeleteAt(old(rows)[y].content, at))] && dirty
    {
      if at < 0 || at > |rows[y].content| {
        return;
      }
      var row := UpdateRow(Row(DeleteAt(rows[y].content, at), rows[y].render, rows[y].highlights));
      rows, dirty := rows[y := row], true;
    }

    /** editorDelRow: an index outside the buffer is ignored; otherwise the
        rows after it move down in the slice, which keeps its length, and the
        buffer loses line at. */
    method DelRow(at: int)
      requires RowsOk() && savedHighlights.None?
      modifies this`rows, this`numrows, this`dirty
      ensures RowsOk()
      ensures !(0 <= at < old(numrows)) ==> rows == old(rows) && numrows == old(numrows) && dirty == old(dirty)
      ensures 0 <= at < old(numrows) ==>
                rows == DeleteRowKeepLength(old(rows), at) && numrows == old(numrows) - 1 && dirty
      ensures 0 <= at < old(numrows) ==> Lines() == old(Lines())[..at] + old(Lines())[at + 1..]
    {
      if at < 0 || at >= numrows {
        return;
      }
      ghost var before := rows;
      ghost var lines := Lines();
      rows, numrows, dirty := DeleteRowKeepLength(rows, at), numrows - 1, true;
      DeleteRowShifts(before, at);
      forall i | 0 <= i < |rows|
        ensures IsRendered(rows[i])
      {
        if i < at {
          assert rows[i] == before[i];
        } else if i < |rows| - 1 {
          assert rows[i] == before[i + 1];
        }
      }
      DeleteRowTexts(before, numrows + 1, at);
      assert lines[..at] == Texts(before)[..at];
      assert lines[at + 1..] == Texts(before)[at + 1..numrows + 1];
    }

    // -------------------------------------------------------------------
    // Editing at the cursor

    /** editorInsertChar: types c at the cursor, adding a line first when the
        cursor is on the line past the end. */
    method InsertChar(c: char)
      requires Valid() && Idle()
      modifies this`rows, this`numrows, this`dirty, this`cx
      ensures Valid() && dirty
      ensures Doc() == D.InsertChar(old(Doc()), c)
    {
      if cy == numrows {
        InsertRow(numrows, "");
      }
      TypeAt(c);
    }

    /** editorRowInsertChar at the cursor, on a line of the buffer, and the
        cursor one to the right. */
    method TypeAt(c: char)
      requires Inv() && Idle() && cy < numrows && cx <= |rows[cy].content|
      modifies this`rows, this`dirty, this`cx
      ensures Valid() && dirty
      ensures Doc() == D.InsertChar(old(Doc()), c)
    {
      ghost var lines := Lines();
      TextsUpdate(rows, numrows, cy, Rendered(InsertAt(rows[cy].content, cx, c)));
      RowInsertChar(cy, cx, c);
      assert Lines() == lines[cy := InsertAt(lines[cy], cx, c)];
      cx := cx + 1;
    }

    /** editorInsertNewline: at the start of a line an empty line goes in
        above it; elsewhere the line is split at the cursor. The cursor goes
        to the start of the next line. */
    method InsertNewline()
      requires Valid() && Idle()
      modifies this`rows, this`numrows, this`dirty, this`cx, this`cy
      ensures Valid() && dirty
      ensures Doc() == D.Newline(old(Doc()))
    {
      if cx == 0 {
        InsertRow(cy, "");
      } else {
        SplitRow();
      }
      cx, cy := 0, cy + 1;
    }

    /** The splitting branch of editorInsertNewline: the text after the cursor
        goes to a new row below, and the row keeps the text before it. */
    method SplitRow()
      requires Valid() && Idle() && 0 < cx && cy < numrows
      modifies this`rows, this`numrows, this`dirty
      ensures RowsOk() && dirty && numrows == old(numrows) + 1
      ensures var l := old(Lines())[cy];
              Lines() == old(Lines())[..cy] + [l[..cx], l[cx..]] + old(Lines())[cy + 1..]
    {
      ghost var lines := Lines();
      var line := rows[cy].content;
      InsertRow(cy + 1, line[cx..]);
      ghost var mid := Lines();
      var row := UpdateRow(Row(line[..cx], rows[cy].render, rows[cy].highlights));
      TextsUpdate(rows, numrows, cy, row);
      rows := rows[cy := row];
      assert Lines() == mid[cy := line[..cx]];
      assert Lines() == lines[..cy] + [line[..cx], line[cx..]] + lines[cy + 1..];
    }

    /** editorDelChar: nothing on the line past the end or at the top-left
        corner; inside a line the character before the cursor is deleted; at
        the start of a line the line is appended to the one above. */
    method DelChar()
      requires Valid() && Idle()
      modifies this`rows, this`numrows, this`dirty, this`cx, this`cy
      ensures Valid()
      ensures Doc() == D.DelChar(old(Doc()))
      ensures old(cy) == old(numrows) || (old(cx) == 0 && old(cy) == 0) ==>
                rows == old(rows) && numrows == old(numrows) && dirty == old(dirty)
      ensures !(old(cy) == old(numrows) || (old(cx) == 0 && old(cy) == 0)) ==> dirty
    {
      if cy == numrows {
        return;
      }
      if cx == 0 && cy == 0 {
        return;
      }
      if cx > 0 {
        EraseBefore();
      } else {
        JoinRow();
      }
    }

    /** The branch of editorDelChar inside a line: editorRowDelChar on the
        character before the cursor, and the cursor one to the left. */
    method EraseBefore()
      requires Valid() && Idle() && 0 < cx && cy < numrows
      modifies this`rows, this`dirty, this`cx
      ensures Valid() && dirty
      ensures var lines := old(Lines());
              Lines() == lines[cy := DeleteAt(lines[cy], old(cx) - 1)] && cx == old(cx) - 1
    {
      ghost var lines := Lines();
      TextsUpdate(rows, numrows, cy, Rendered(DeleteAt(rows[cy].content, cx - 1)));
      RowDelChar(cy, cx - 1);
      cx := cx - 1;
    }

    /** The joining branch of editorDelChar: the cursor goes to the end of the
        line above, the line is appended to it and removed. */
    method JoinRow()
      requires Inv() && Idle() && cx == 0 && 0 < cy < numrows
      modifies this`rows, this`numrows, this`dirty, this`cx, this`cy
      ensures Valid() && dirty
      ensures var lines, y := old(Lines()), old(cy);
              Lines() == lines[..y - 1] + [lines[y - 1] + lines[y]] + lines[y + 1..] &&
              cx == |lines[y - 1]| && cy == y - 1
    {
      ghost var lines := Lines();
      assert rows[cy - 1].content == lines[cy - 1];
      var x := |rows[cy - 1].content|;
      AppendToAbove();
      ghost var mid := Lines();
      DelRow(cy);
      JoinedLines(lines, mid, Lines(), cy);
      cx, cy := x, cy - 1;
    }

    /** editorRowAppendString of the cursor's line to the line above it. */
    method AppendToAbove()
      requires RowsOk() && savedHighlights.None? && 0 < cy < numrows
      modifies this`rows, this`dirty
      ensures RowsOk() && dirty
      ensures Lines() == old(Lines())[cy - 1 := old(Lines())[cy - 1] + old(Lines())[cy]]
    {
      TextsUpdate(rows, numrows, cy - 1, Rendered(rows[cy - 1].content + rows[cy].content));
      RowAppendString(cy - 1, rows[cy].content);
    }

    // -------------------------------------------------------------------
    // Cursor and window

    /** editorMoveCursor: one arrow key, then cx snapped to the length of the
        line the cursor is on; other keys only snap. */
    method MoveCursor(key: int)
      requires Inv()
      modifies this`cx, this`cy
      ensures Valid()
      ensures (cx, cy) == CursorAfterMove(Lines(), old(cx), old(cy), key)
    {
      cx, cy := MovedCursor(rows, numrows, cx, cy, key);
    }

    /** PageUp and PageDown in editorProcessKeypress: the cursor jumps to the
        top line of the window, or to its bottom line capped at the line past
        the end, and then moves a screenful of lines up or down. */
    method Page(key: int)
      requires Valid() && rowOffset <= numrows && (key == PAGE_UP || key == PAGE_DOWN)
      modifies this`cx, this`cy
      ensures Valid()
      ensures (cx, cy) == PageMove(Lines(), old(cx), rowOffset, screenrows, key)
    {
      var y := rowOffset;
      if key == PAGE_DOWN {
        y := rowOffset + screenrows - 1;
        y := Min(y, numrows);
      }
      assert y == PageStart(|Lines()|, rowOffset, screenrows, key);
      cy := y;
      MoveRepeatedly(if key == PAGE_UP then ARROW_UP else ARROW_DOWN, screenrows);
    }

    /** The loop of PageUp and PageDown: the same arrow key, times times. */
    method MoveRepeatedly(arrow: int, times: int)
      requires Inv() && 1 <= times
      modifies this`cx, this`cy
      ensures Valid()
      ensures (cx, cy) == MoveTimes(Lines(), old(cx), old(cy), arrow, times)
    {
      ghost var cx0, cy0 := cx, cy;
      var left := times;
      while 0 < left
        invariant 0 <= left <= times
        invariant 0 <= cx && 0 <= cy <= numrows
        invariant (cx, cy) == MoveTimes(Lines(), cx0, cy0, arrow, times - left)
      {
        MoveTimesStep(Lines(), cx0, cy0, arrow, times - left);
        MoveCursor(arrow);
        left := left - 1;
      }
    }

    /** editorScroll: computes rx and moves each offset just far enough for
        the window to show the cursor. */
    method Scroll()
      requires Valid()
      modifies this`rx, this`rowOffset, this`colOffset
      ensures Valid() && Scrolled()
      ensures rowOffset == ScrollOffset(cy, old(rowOffset), screenrows)
      ensures colOffset == ScrollOffset(rx, old(colOffset), screencols)
    {
      assert cy < numrows ==> Lines()[cy] == rows[cy].content;
      var x := CursorRx(rows, numrows, cx, cy);
      var ro := ScrollAxis(cy, rowOffset, screenrows);
      var co := ScrollAxis(x, colOffset, screencols);
      rx, rowOffset, colOffset := x, ro, co;
    }

    // -------------------------------------------------------------------
    // Incremental search

    /** The first step of editorOnInputFind: the marked row gets its saved
        tags back, element by element. */
    method RestoreHighlights()
      requires RowsOk()
      modifies this`rows, this`savedHighlightIndex, this`savedHighlights
      ensures RowsOk() && savedHighlights.None?
      ensures old(savedHighlights).Some? ==> savedHighlightIndex == 0
      ensures old(savedHighlights).None? ==> rows == old(rows) && savedHighlightIndex == old(savedHighlightIndex)
      ensures |rows| == |old(rows)| && Texts(rows) == Texts(old(rows))
    {
      if savedHighlights.Some? {
        var y := savedHighlightIndex;
        var hl := RestoreTags(rows[y].highlights, savedHighlights.value);
        ghost var before := rows;
        rows := rows[y := rows[y].(highlights := hl)];
        savedHighlightIndex, savedHighlights := 0, None;
        assert IsRendered(rows[y]);
        assert Texts(rows) == Texts(before);
      }
    }

    /** The last step of a hit in editorOnInputFind: the n tags from at on row
        y become HL_MATCH. */
    method MarkMatch(y: int, at: int, n: int)
      requires 0 <= y < |rows| && 0 <= at && 0 <= n && at + n <= |rows[y].highlights|
      modifies this`rows
      ensures rows == old(rows)[y := old(rows)[y].(highlights := Marked(old(rows)[y].highlights, at, n))]
    {
      var hl := rows[y].highlights;
      for i := 0 to n
        invariant hl == Marked(rows[y].highlights, at, i)
      {
        hl := hl[at + i := HL_MATCH];
      }
      rows := rows[y := rows[y].(highlights := hl)];
    }

    /** editorOnInputFind: restores the marked row, then for Enter and ESC
        only resets the search; for any other key scans the rows from the
        previous match (see ScanFrom) with wraparound, at most once per
        element of the slice, and stops at the first row whose render
        contains the query (see ScanOutcome). */
    method OnInputFind(query: string, key: int)
      requires Inv() && ScanReady()
      modifies this`rows, this`cx, this`cy, this`rowOffset, this`lastMatch, this`direction,
               this`savedHighlightIndex, this`savedHighlights
      ensures Inv() && ScanReady() && |rows| == |old(rows)| && Texts(rows) == Texts(old(rows))
      ensures old(Valid()) ==> Valid()
      ensures key == ENTER || key == ESC ==>
                lastMatch == -1 && direction == 1 && savedHighlights.None? &&
                cx == old(cx) && cy == old(cy) && rowOffset == old(rowOffset)
      ensures key != ENTER && key != ESC ==> direction == ScanFrom(old(lastMatch), key).1
      ensures key != ENTER && key != ESC && rows == [] ==>
                lastMatch == ScanFrom(old(lastMatch), key).0 && savedHighlights.None? &&
                cx == old(cx) && cy == old(cy) && rowOffset == old(rowOffset)
      ensures key != ENTER && key != ESC && rows != [] ==>
                ScanOutcome(query, ScanFrom(old(lastMatch), key).0, ScanFrom(old(lastMatch), key).1,
                                   old(cx), old(cy), old(rowOffset))
    {
      RestoreHighlights();
      if key == ENTER || key == ESC {
        lastMatch, direction := -1, 1;
      } else {
        Rescan(query, key);
      }
    }

    /** editorOnInputFind for a key other than Enter and ESC, once the marked
        row is restored: the start and the direction of the scan follow from
        the key and the previous match. */
    method Rescan(query: string, key: int)
      requires Inv() && ScanReady() && savedHighlights.None?
      modifies this`rows, this`cx, this`cy, this`rowOffset, this`lastMatch, this`direction,
               this`savedHighlightIndex, this`savedHighlights
      ensures Inv() && ScanReady() && |rows| == |old(rows)| && Texts(rows) == Texts(old(rows))
      ensures old(Valid()) ==> Valid()
      ensures direction == ScanFrom(old(lastMatch), key).1
      ensures rows == [] ==>
                lastMatch == ScanFrom(old(lastMatch), key).0 && savedHighlights.None? &&
                cx == old(cx) && cy == old(cy) && rowOffset == old(rowOffset)
      ensures rows != [] ==> ScanOutcome(query, ScanFrom(old(lastMatch), key).0, ScanFrom(old(lastMatch), key).1,
                                   old(cx), old(cy), old(rowOffset))
    {
      var last, dir := ScanDirection(lastMatch, key);
      lastMatch, direction := last, dir;
      // An empty slice makes no probe.
      if rows != [] {
        ScanFromStarts(old(lastMatch), key, numrows);
        ScanRows(query, last, dir);
      }
    }

    /** The scan of editorOnInputFind, from a state with no marked row. */
    method ScanRows(query: string, start: int, dir: int)
      requires Inv() && savedHighlights.None? && rows != [] && ScanStart(numrows, start, dir)
      requires lastMatch == start
      modifies this`rows, this`cx, this`cy, this`rowOffset, this`lastMatch,
               this`savedHighlightIndex, this`savedHighlights
      ensures Inv() && ScanReady() && |rows| == |old(rows)| && Texts(rows) == Texts(old(rows))
      ensures old(Valid()) ==> Valid()
      ensures ScanOutcome(query, start, dir, old(cx), old(cy), old(rowOffset))
    {
      var hit := ScanLoop(rows, numrows, query, start, dir);
      if hit.Some? {
        ghost var before := rows;
        MarkHit(query, hit.value.0, hit.value.1);
        FirstHitSameRenders(before, rows, numrows, query, start, dir, 1, |rows|);
      }
    }

    /** A hit of editorOnInputFind on row y at render index m: the cursor
        goes to the match, the window past the end of the buffer, the row's
        tags are saved and the match is tagged HL_MATCH. */
    method MarkHit(query: string, y: int, m: int)
      requires Inv() && savedHighlights.None? && 0 <= y < numrows && OccursAt(rows[y].render, query, m)
      modifies this`rows, this`cx, this`cy, this`rowOffset, this`lastMatch,
               this`savedHighlightIndex, this`savedHighlights
      ensures Inv() && ScanReady()
      ensures old(Valid()) ==> Valid()
      ensures rows == old(rows)[y := old(rows)[y].(highlights := Marked(HighlightsOf(old(rows)[y].render), m, |query|))]
      ensures lastMatch == y && cy == y && cx == RxToCx(rows[y].content, m) && rowOffset == numrows
      ensures savedHighlightIndex == y && savedHighlights == Some(HighlightsOf(rows[y].render))
    {
      assert IsRendered(rows[y]);
      lastMatch, cy := y, y;
      cx := RowRxToCx(rows[y], m);
      rowOffset := numrows;
      savedHighlightIndex := y;
      var saved := CopyTags(rows[y].highlights);
      savedHighlights := Some(saved);
      MarkMatch(y, m, |query|);
    }

    /** One key of editorFind's prompt: the prompt line goes to the status
        message, the screen is refreshed (which scrolls), the key edits the
        input, a finished prompt clears the status message, and
        editorOnInputFind sees the input and the key. */
    method FindStep(input: string, key: int) returns (next: string, state: PromptState)
      requires Valid() && ScanReady() && 0 <= key
      modifies this`rows, this`cx, this`cy, this`rx, this`rowOffset, this`colOffset, this`statusMsg,
               this`lastMatch, this`direction, this`savedHighlightIndex, this`savedHighlights
      ensures (next, state) == PromptStep(input, key)
      ensures Valid() && ScanReady() && Lines() == old(Lines())
      ensures state != Editing ==> Idle() && lastMatch == -1 && statusMsg == ""
      ensures key == ENTER || key == ESC ==>
                lastMatch == -1 && direction == 1 && cx == old(cx) && cy == old(cy) &&
                rowOffset == ScrollOffset(old(cy), old(rowOffset), old(screenrows))
      ensures key != ENTER && key != ESC ==> direction == ScanFrom(old(lastMatch), key).1
      ensures key != ENTER && key != ESC && rows == [] ==>
                lastMatch == ScanFrom(old(lastMatch), key).0 && cx == old(cx) && cy == old(cy) &&
                rowOffset == ScrollOffset(old(cy), old(rowOffset), old(screenrows))
      ensures key != ENTER && key != ESC && rows != [] ==>
                ScanOutcome(next, ScanFrom(old(lastMatch), key).0, ScanFrom(old(lastMatch), key).1,
                            old(cx), old(cy), ScrollOffset(old(cy), old(rowOffset), old(screenrows)))
    {
      ShowPrompt("Search: " + input + " (Use ESC/Arrows/Enter)");
      var step := PromptStep(input, key);
      next, state := step.0, step.1;
      if state != Editing {
        statusMsg := "";
      }
      OnInputFind(next, key);
    }

    /** The start of each round of editorPrompt: the prompt line becomes the
        status message and the screen is refreshed, which scrolls. */
    method ShowPrompt(prompt: string)
      requires Valid()
      modifies this`rx, this`rowOffset, this`colOffset, this`statusMsg
      ensures Valid() && Scrolled() && statusMsg == prompt
      ensures rowOffset == ScrollOffset(cy, old(rowOffset), screenrows)
      ensures colOffset == ScrollOffset(rx, old(colOffset), screencols)
    {
      statusMsg := prompt;
      Scroll();
    }

    /** editorFind: runs the prompt over the given keys, with
        editorOnInputFind after each. A search ended without a query (ESC)
        puts the cursor and the window back where they were. */
    method Find(keys: seq<int>) returns (finished: bool)
      requires Valid() && Idle()
      requires forall i :: 0 <= i < |keys| ==> 0 <= keys[i]
      modifies this`rows, this`cx, this`cy, this`rx, this`rowOffset, this`colOffset, this`statusMsg,
               this`lastMatch, this`direction, this`savedHighlightIndex, this`savedHighlights
      ensures Valid() && Lines() == old(Lines())
      ensures finished <==> PromptRun("", keys).1 != Editing
      ensures finished ==> Idle() && lastMatch == -1 && statusMsg == ""
      ensures PromptRun("", keys).1 == Cancelled ==>
                cx == old(cx) && cy == old(cy) && rowOffset == old(rowOffset) && colOffset == old(colOffset)
    {
      var currCx, currCy, curColOff, curRowOff := cx, cy, colOffset, rowOffset;
      var query, state := Prompt(keys);
      finished := state != Editing;
      if finished && |query| == 0 {
        cx, cy, colOffset, rowOffset := currCx, currCy, curColOff, curRowOff;
      }
    }

    /** The loop of editorPrompt with editorOnInputFind as its callback, over
        the given keys, up to the first key that ends the prompt. query is
        what editorPrompt returns: the input when submitted, empty when
        cancelled (and while the prompt is still open). */
    method Prompt(keys: seq<int>) returns (query: string, state: PromptState)
      requires Valid() && Idle()
      requires forall i :: 0 <= i < |keys| ==> 0 <= keys[i]
      modifies this`rows, this`cx, this`cy, this`rx, this`rowOffset, this`colOffset, this`statusMsg,
               this`lastMatch, this`direction, this`savedHighlightIndex, this`savedHighlights
      ensures Valid() && Lines() == old(Lines())
      ensures state == PromptRun("", keys).1
      ensures query == if state == Submitted then PromptRun("", keys).0 else ""
      ensures state != Editing ==> Idle() && lastMatch == -1 && statusMsg == ""
    {
      var input := "";
      query, state := "", Editing;
      var i := 0;
      while i < |keys|
        invariant 0 <= i <= |keys|
        invariant Valid() && ScanReady() && Lines() == old(Lines())
        invariant PromptRun(input, keys[i..]) == PromptRun("", keys)
        invariant state == Editing && query == ""
        decreases |keys| - i
      {
        var key := keys[i];
        assert keys[i..][0] == key && keys[i..][1..] == keys[i + 1..];
        input, state := FindStep(input, key);
        if state != Editing {
          query := if state == Cancelled then "" else input;
          return;
        }
        i := i + 1;
      }
      assert keys[i..] == [];
    }

    // -------------------------------------------------------------------
    // Keypresses and the screen

    /** editorSave once the file has a name: the buffer's text goes to the
        file, the buffer is clean and the status message reports the size. */
    method Save() returns (written: Option<string>)
      requires Valid()
      modifies this`dirty, this`statusMsg
      ensures filename == [] ==> written.None? && dirty == old(dirty) && statusMsg == old(statusMsg)
      ensures filename != [] ==>
                written == Some(BufferText(rows, numrows)) && !dirty &&
                statusMsg == Decimal(|BufferText(rows, numrows)|) + " bytes written to disk"
    {
      if filename == [] {
        return None;
      }
      var text := BufferText(rows, numrows);
      dirty, statusMsg := false, Decimal(|text|) + " bytes written to disk";
      return Some(text);
    }

    /** The keys of editorProcessKeypress other than Ctrl-Q, Ctrl-S and
        Ctrl-F. */
    method EditKey(key: int)
      requires Valid() && Idle() && rowOffset <= numrows && IsKey(key)
      requires key != CtrlKey('q' as int) && key != CtrlKey('s' as int) && key != CtrlKey('f' as int)
      modifies this`rows, this`numrows, this`dirty, this`cx, this`cy
      ensures Valid()
      ensures Doc() == KeyEffect(old(Doc()), key, rowOffset, screenrows)
      ensures Lines() != old(Lines()) ==> dirty
      ensures Lines() == old(Lines()) ==> dirty == old(dirty)
    {
      if key == ENTER {
        InsertNewline();
      } else if key == HOME_KEY {
        cx := 0;
      } else if key == END_KEY {
        if cy < numrows {
          cx := |rows[cy].content|;
        }
      } else if key == BACKSPACE || key == CtrlKey('h' as int) || key == DEL_KEY {
        EraseKey(key);
      } else if key == PAGE_UP || key == PAGE_DOWN {
        Page(key);
      } else if IsArrow(key) {
        MoveCursor(key);
      } else if key == CtrlKey('l' as int) || key == ESC {
      } else {
        InsertChar(key as char);
      }
    }

    /** Backspace, Ctrl-H and Del in editorProcessKeypress: Del first moves
        the cursor right, then the character before the cursor goes. */
    method EraseKey(key: int)
      requires Valid() && Idle() && rowOffset <= numrows
      requires key == BACKSPACE || key == CtrlKey('h' as int) || key == DEL_KEY
      modifies this`rows, this`numrows, this`dirty, this`cx, this`cy
      ensures Valid()
      ensures Doc() == KeyEffect(old(Doc()), key, rowOffset, screenrows)
      ensures Lines() != old(Lines()) ==> dirty
      ensures Lines() == old(Lines()) ==> dirty == old(dirty)
    {
      ghost var d := Doc();
      if key == DEL_KEY {
        MoveCursor(ARROW_RIGHT);
      }
      ghost var m := Doc();
      EraseEffect(d, key, rowOffset, screenrows);
      DelChar();
      if m.cy == |m.lines| || (m.cx == 0 && m.cy == 0) {
        assert dirty == old(dirty);
      } else {
        assert dirty && Lines() != d.lines by {
          assert |Lines()| != |d.lines| || |Lines()[m.cy]| != |d.lines[m.cy]|;
        }
      }
    }

    /** editorProcessKeypress for one key, with the keys the search prompt
        reads if the key is Ctrl-F. The quit counter, a global of its own
        beside the editor state, comes in as quitTimes and goes out as
        quitTimesLeft. */
    method ProcessKeypress(key: int, promptKeys: seq<int>, quitTimes: int) returns (running: bool, quitTimesLeft: int)
      requires Valid() && Idle() && rowOffset <= numrows && IsKey(key)
      requires forall i :: 0 <= i < |promptKeys| ==> 0 <= promptKeys[i]
      modifies this`rows, this`numrows, this`dirty, this`cx, this`cy, this`rx, this`rowOffset, this`colOffset,
               this`statusMsg, this`lastMatch, this`direction, this`savedHighlightIndex, this`savedHighlights
      ensures Valid()
      ensures Idle() || (key == CtrlKey('f' as int) && PromptRun("", promptKeys).1 == Editing)
      ensures (running, quitTimesLeft) == QuitStep(old(dirty), quitTimes, key)
      ensures key != CtrlKey('q' as int) && key != CtrlKey('s' as int) && key != CtrlKey('f' as int) ==>
                Doc() == KeyEffect(old(Doc()), key, old(rowOffset), old(screenrows)) &&
                (Lines() != old(Lines()) ==> dirty) && (Lines() == old(Lines()) ==> dirty == old(dirty))
      ensures key == CtrlKey('q' as int) ==> Doc() == old(Doc()) && dirty == old(dirty)
      ensures key == CtrlKey('q' as int) && running ==>
                statusMsg == "HEY!! The file has unsaved changes. Press Ctrl+Q " + DecimalInt(quitTimes) +
                             " more times to quit."
      ensures key == CtrlKey('s' as int) ==> Doc() == old(Doc()) && (old(filename) != [] ==> !dirty)
      ensures key == CtrlKey('s' as int) && old(filename) == [] ==> dirty == old(dirty)
      ensures key == CtrlKey('f' as int) ==> Lines() == old(Lines()) && dirty == old(dirty)
    {
      if key == CtrlKey('q' as int) {
        running, quitTimesLeft := Quit(quitTimes);
        return;
      }
      Dispatch(key, promptKeys);
      running, quitTimesLeft := true, QUIT_TIMES;
    }

    /** editorProcessKeypress for the keys other than Ctrl-Q. */
    method Dispatch(key: int, promptKeys: seq<int>)
      requires Valid() && Idle() && rowOffset <= numrows && IsKey(key) && key != CtrlKey('q' as int)
      requires forall i :: 0 <= i < |promptKeys| ==> 0 <= promptKeys[i]
      modifies this`rows, this`numrows, this`dirty, this`cx, this`cy, this`rx, this`rowOffset, this`colOffset,
               this`statusMsg, this`lastMatch, this`direction, this`savedHighlightIndex, this`savedHighlights
      ensures Valid()
      ensures Idle() || (key == CtrlKey('f' as int) && PromptRun("", promptKeys).1 == Editing)
      ensures key != CtrlKey('s' as int) && key != CtrlKey('f' as int) ==>
                Doc() == KeyEffect(old(Doc()), key, old(rowOffset), old(screenrows)) &&
                (Lines() != old(Lines()) ==> dirty) && (Lines() == old(Lines()) ==> dirty == old(dirty))
      ensures key == CtrlKey('s' as int) ==> Doc() == old(Doc()) && (old(filename) != [] ==> !dirty)
      ensures key == CtrlKey('s' as int) && old(filename) == [] ==> dirty == old(dirty)
      ensures key == CtrlKey('f' as int) ==> Lines() == old(Lines()) && dirty == old(dirty)
    {
      if key == CtrlKey('s' as int) {
        var _ := Save();
      } else if key == CtrlKey('f' as int) {
        var _ := Find(promptKeys);
      } else {
        EditKey(key);
      }
    }

    /** Ctrl-Q in editorProcessKeypress: a modified buffer with presses left
        takes one off and warns; otherwise the editor quits. */
    method Quit(quitTimes: int) returns (running: bool, quitTimesLeft: int)
      modifies this`statusMsg
      ensures (running, quitTimesLeft) == QuitStep(dirty, quitTimes, CtrlKey('q' as int))
      ensures running ==>
                statusMsg == "HEY!! The file has unsaved changes. Press Ctrl+Q " + DecimalInt(quitTimes) +
                             " more times to quit."
      ensures !running ==> statusMsg == old(statusMsg)
    {
      if dirty && quitTimes > 0 {
        statusMsg := "HEY!! The file has unsaved changes. Press Ctrl+Q " + DecimalInt(quitTimes) +
                     " more times to quit.";
        return true, quitTimes - 1;
      }
      return false, quitTimes;
    }

    /** editorRefreshScreen: scrolls, then paints the text rows, the status
        bar and the message bar, and puts the cursor at its place in the
        window. recent says whether the status message is younger than the
        message timeout. */
    method RefreshScreen(recent: bool) returns (frame: string)
      requires Valid()
      modifies this`rx, this`rowOffset, this`colOffset
      ensures Valid() && Scrolled()
      ensures rowOffset == ScrollOffset(cy, old(rowOffset), screenrows)
      ensures colOffset == ScrollOffset(rx, old(colOffset), screencols)
      ensures 1 <= cy - rowOffset + 1 <= screenrows && 1 <= rx - colOffset + 1 <= screencols
      ensures TagsMatch(rows) &&
              frame == Frame(rows, numrows, rowOffset, colOffset, screenrows, screencols,
                             filename, dirty, cy, rx, statusMsg, recent)
    {
      Scroll();
      TagsOk();
      frame := PaintFrame(rows, numrows, rowOffset, colOffset, screenrows, screencols, filename, dirty, cy, rx,
                     statusMsg, recent);
    }
  }
}
