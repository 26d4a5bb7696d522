/** Cursor movement and scrolling over the lines of the buffer: what
    editorMoveCursor does to (cx, cy), PageUp/PageDown as repeated moves, and
    the offset rule editorScroll applies on each axis. */
module Viewport {
  import opened Util
  import opened Keys

  /** The length of line cy, or 0 on the line past the end of the buffer. */
  function LineLen(lines: seq<string>, cy: int): (n: nat)
    ensures 0 <= cy < |lines| ==> n == |lines[cy]|
    ensures !(0 <= cy < |lines|) ==> n == 0
  {
    if 0 <= cy < |lines| then |lines[cy]| else 0
  }

  /** A cursor on a line of the buffer or on the line just past it, and
      within that line or just after its last character. */
  predicate CursorOk(lines: seq<string>, cx: int, cy: int) {
    0 <= cy <= |lines| && 0 <= cx <= LineLen(lines, cy)
  }

  /** editorMoveCursor: one arrow key, then cx snapped to the length of the
      line the cursor ends on. Other keys only snap. */
  function CursorAfterMove(lines: seq<string>, cx: int, cy: int, key: int): (p: (int, int))
    requires 0 <= cx && 0 <= cy <= |lines|
    ensures CursorOk(lines, p.0, p.1)
    ensures key == ARROW_UP ==> p.1 == Max(cy - 1, 0)
    ensures key == ARROW_DOWN ==> p.1 == Min(cy + 1, |lines|)
    ensures key == ARROW_UP || key == ARROW_DOWN ==> p.0 == Min(cx, LineLen(lines, p.1))
    ensures key !in {ARROW_UP, ARROW_DOWN, ARROW_LEFT, ARROW_RIGHT} ==> p == (Min(cx, LineLen(lines, cy)), cy)
  {
    var (x, y) := ArrowStep(lines, cx, cy, key);
    (Min(x, LineLen(lines, y)), y)
  }

  /** The switch of editorMoveCursor, before the snap: the cursor stays on a
      line of the buffer or the line past it. */
  function ArrowStep(lines: seq<string>, cx: int, cy: int, key: int): (p: (int, int))
    requires 0 <= cx && 0 <= cy <= |lines|
    ensures 0 <= p.0 && 0 <= p.1 <= |lines|
  {
    var row := LineLen(lines, cy);
    if key == ARROW_UP then (cx, if cy != 0 then cy - 1 else cy)
    else if key == ARROW_LEFT then
      if cx != 0 then (cx - 1, cy)
      else if cy > 0 then (|lines[cy - 1]|, cy - 1)
      else (cx, cy)
    else if key == ARROW_DOWN then (cx, if cy < |lines| then cy + 1 else cy)
    else if key == ARROW_RIGHT then
      if cx < row then (cx + 1, cy)
      else if row > 0 && cx == row then (0, cy + 1)
      else (cx, cy)
    else (cx, cy)
  }

  /** Up on the first line does nothing, and neither does Left at the
      top-left corner. */
  lemma MoveAtOrigin(lines: seq<string>, cx: int)
    requires 0 <= cx
    ensures CursorOk(lines, cx, 0) ==> CursorAfterMove(lines, cx, 0, ARROW_UP) == (cx, 0)
    ensures CursorAfterMove(lines, 0, 0, ARROW_LEFT) == (0, 0)
  {
  }

  /** Left at the start of a line goes to the end of the line above. */
  lemma LeftWrapsToLineAbove(lines: seq<string>, cy: int)
    requires 0 < cy <= |lines|
    ensures CursorAfterMove(lines, 0, cy, ARROW_LEFT) == (|lines[cy - 1]|, cy - 1)
  {
  }

  /** Right inside a line moves one column right on the same line. */
  lemma RightWithinLine(lines: seq<string>, cx: int, cy: int)
    requires 0 <= cy < |lines| && 0 <= cx < |lines[cy]|
    ensures CursorAfterMove(lines, cx, cy, ARROW_RIGHT) == (cx + 1, cy)
  {
  }

  /** Right at the end of a non-empty line goes to the start of the next one. */
  lemma RightWrapsToNextLine(lines: seq<string>, cy: int)
    requires 0 <= cy < |lines| && lines[cy] != []
    ensures CursorAfterMove(lines, |lines[cy]|, cy, ARROW_RIGHT) == (0, cy + 1)
  {
  }

  /** Left undoes every Right that moved the cursor. */
  lemma LeftUndoesRight(lines: seq<string>, cx: int, cy: int)
    requires CursorOk(lines, cx, cy)
    requires CursorAfterMove(lines, cx, cy, ARROW_RIGHT) != (cx, cy)
    ensures var p := CursorAfterMove(lines, cx, cy, ARROW_RIGHT);
            CursorAfterMove(lines, p.0, p.1, ARROW_LEFT) == (cx, cy)
  {
  }

  /** Right undoes Left, except when Left went up to an empty line. */
  lemma RightUndoesLeft(lines: seq<string>, cx: int, cy: int)
    requires CursorOk(lines, cx, cy)
    requires cx > 0 || (cy > 0 && lines[cy - 1] != [])
    ensures var p := CursorAfterMove(lines, cx, cy, ARROW_LEFT);
            CursorAfterMove(lines, p.0, p.1, ARROW_RIGHT) == (cx, cy)
  {
  }

  /** The same arrow key n times. */
  function MoveTimes(lines: seq<string>, cx: int, cy: int, key: int, n: nat): (p: (int, int))
    requires 0 <= cx && 0 <= cy <= |lines|
    ensures 0 <= p.1 <= |lines| && 0 <= p.0
    ensures 0 < n ==> CursorOk(lines, p.0, p.1)
    decreases n
  {
    if n == 0 then (cx, cy)
    else
      var p := CursorAfterMove(lines, cx, cy, key);
      MoveTimes(lines, p.0, p.1, key, n - 1)
  }

  /** n + 1 presses are n presses and one more. */
  lemma {:induction false} MoveTimesStep(lines: seq<string>, cx: int, cy: int, key: int, n: nat)
    requires 0 <= cx && 0 <= cy <= |lines|
    ensures var p := MoveTimes(lines, cx, cy, key, n);
            MoveTimes(lines, cx, cy, key, n + 1) == CursorAfterMove(lines, p.0, p.1, key)
    decreases n
  {
    if n > 0 {
      var q := CursorAfterMove(lines, cx, cy, key);
      MoveTimesStep(lines, q.0, q.1, key, n - 1);
    }
  }

  /** n presses of Up move n lines up, stopping at the first line. */
  lemma {:induction false} UpTimes(lines: seq<string>, cx: int, cy: int, n: nat)
    requires 0 <= cx && 0 <= cy <= |lines|
    ensures MoveTimes(lines, cx, cy, ARROW_UP, n).1 == Max(cy - n, 0)
    decreases n
  {
    if n > 0 {
      var p := CursorAfterMove(lines, cx, cy, ARROW_UP);
      UpTimes(lines, p.0, p.1, n - 1);
    }
  }

  /** n presses of Down move n lines down, stopping on the line past the end. */
  lemma {:induction false} DownTimes(lines: seq<string>, cx: int, cy: int, n: nat)
    requires 0 <= cx && 0 <= cy <= |lines|
    ensures MoveTimes(lines, cx, cy, ARROW_DOWN, n).1 == Min(cy + n, |lines|)
    decreases n
  {
    if n > 0 {
      var p := CursorAfterMove(lines, cx, cy, ARROW_DOWN);
      DownTimes(lines, p.0, p.1, n - 1);
    }
  }

  /** The line PageUp or PageDown first puts the cursor on: the top line of
      the window, or its bottom line capped at the line past the end. */
  function PageStart(numrows: int, rowOffset: int, screenrows: int, key: int): int {
    if key == PAGE_UP then rowOffset else Min(rowOffset + screenrows - 1, numrows)
  }

  /** PageUp and PageDown: jump to the edge of the window, then move a
      screenful further with Up or Down. */
  function PageMove(lines: seq<string>, cx: int, rowOffset: int, screenrows: int, key: int): (p: (int, int))
    requires 0 <= cx && 0 <= rowOffset <= |lines| && 1 <= screenrows
    requires key == PAGE_UP || key == PAGE_DOWN
    ensures CursorOk(lines, p.0, p.1)
  {
    var start := PageStart(|lines|, rowOffset, screenrows, key);
    MoveTimes(lines, cx, start, if key == PAGE_UP then ARROW_UP else ARROW_DOWN, screenrows)
  }

  /** PageUp ends a screenful above the window's top line; PageDown ends a
      screenful below its bottom line; both stop at the buffer's ends. */
  lemma PageTargets(lines: seq<string>, cx: int, rowOffset: int, screenrows: int)
    requires 0 <= cx && 0 <= rowOffset <= |lines| && 1 <= screenrows
    ensures PageMove(lines, cx, rowOffset, screenrows, PAGE_UP).1 == Max(rowOffset - screenrows, 0)
    ensures PageMove(lines, cx, rowOffset, screenrows, PAGE_DOWN).1 ==
            Min(rowOffset + 2 * screenrows - 1, |lines|)
  {
    UpTimes(lines, cx, rowOffset, screenrows);
    DownTimes(lines, cx, Min(rowOffset + screenrows - 1, |lines|), screenrows);
  }

  /** editorScroll on one axis: the new offset of a window of the given size
      so that it shows position pos. */
  function ScrollOffset(pos: int, off: int, size: int): (o: int)
    ensures 0 <= pos && 0 <= off && 1 <= size ==> 0 <= o <= pos < o + size
    ensures off <= pos < off + size ==> o == off
    ensures 1 <= size ==> forall o' :: o' <= pos < o' + size ==> Dist(o, off) <= Dist(o', off)
  {
    var o1 := if pos < off then pos else off;
    if pos >= o1 + size then pos - size + 1 else o1
  }

  function Dist(a: int, b: int): nat {
    if a < b then b - a else a - b
  }

  /** A window that starts past the cursor is moved so that the cursor is on
      its first line; this is how a search match ends up at the top. */
  lemma ScrollToTop(pos: int, off: int, size: int)
    requires 0 <= pos < off && 1 <= size
    ensures ScrollOffset(pos, off, size) == pos
  {
    assert Dist(pos, off) <= Dist(ScrollOffset(pos, off, size), off);
  }
}
