/** The editing operations on the buffer's lines and the cursor:
    editorInsertChar, editorInsertNewline and editorDelChar. Each is specified
    against the buffer's text, the lines joined with newlines: typing inserts
    one character at the cursor's offset in that text, and deleting removes
    the character before it. */
module Document {
  import opened Util
  import opened Buffer
  import opened Viewport

  /** The lines of the buffer and the cursor. */
  datatype Doc = Doc(lines: seq<string>, cx: int, cy: int)

  predicate Ok(d: Doc) {
    CursorOk(d.lines, d.cx, d.cy)
  }

  /** The buffer as one text, each line followed by a newline. */
  function Text(d: Doc): string {
    JoinLines(d.lines)
  }

  /** The cursor's offset in Text(d). */
  function Offset(d: Doc): int
    requires 0 <= d.cy <= |d.lines|
  {
    |JoinLines(d.lines[..d.cy])| + d.cx
  }

  /** editorInsertChar: on the line past the end a new empty line is added
      first; the character goes in at the cursor, which moves right. */
  function InsertChar(d: Doc, c: char): (r: Doc)
    requires Ok(d)
    ensures Ok(r) && r.cy == d.cy && r.cx == d.cx + 1 && r.lines[r.cy][d.cx] == c
    ensures d.cy < |d.lines| ==> |r.lines| == |d.lines| && |r.lines[d.cy]| == |d.lines[d.cy]| + 1
    ensures d.cy == |d.lines| ==> |r.lines| == |d.lines| + 1
  {
    var lines := if d.cy == |d.lines| then d.lines + [""] else d.lines;
    Doc(lines[d.cy := InsertAt(lines[d.cy], d.cx, c)], d.cx + 1, d.cy)
  }

  /** editorInsertNewline: at the start of a line an empty line goes in above
      it; elsewhere the line is split at the cursor. The cursor moves to the
      start of the next line. */
  function Newline(d: Doc): (r: Doc)
    requires Ok(d)
    ensures Ok(r) && r.cy == d.cy + 1 && r.cx == 0 && |r.lines| == |d.lines| + 1
  {
    if d.cx == 0 then Doc(d.lines[..d.cy] + [""] + d.lines[d.cy..], 0, d.cy + 1)
    else
      var l := d.lines[d.cy];
      Doc(d.lines[..d.cy] + [l[..d.cx], l[d.cx..]] + d.lines[d.cy + 1..], 0, d.cy + 1)
  }

  /** editorDelChar: nothing on the line past the end or at the top-left
      corner; inside a line the character before the cursor goes; at the
      start of a line the line is joined to the one above. */
  function DelChar(d: Doc): (r: Doc)
    requires Ok(d)
    ensures Ok(r)
    ensures d.cy == |d.lines| || (d.cx == 0 && d.cy == 0) ==> r == d
    ensures d.cy < |d.lines| && d.cx > 0 ==>
              |r.lines| == |d.lines| && |r.lines[d.cy]| == |d.lines[d.cy]| - 1
    ensures d.cy < |d.lines| && d.cx == 0 && d.cy > 0 ==> |r.lines| == |d.lines| - 1
  {
    if d.cy == |d.lines| || (d.cx == 0 && d.cy == 0) then d
    else if d.cx > 0 then
      Doc(d.lines[d.cy := DeleteAt(d.lines[d.cy], d.cx - 1)], d.cx - 1, d.cy)
    else
      Doc(d.lines[..d.cy - 1] + [d.lines[d.cy - 1] + d.lines[d.cy]] + d.lines[d.cy + 1..],
          |d.lines[d.cy - 1]|, d.cy - 1)
  }

  // ---------------------------------------------------------------------
  // The text view

  lemma {:induction false} JoinLinesConcat(a: seq<string>, b: seq<string>)
    ensures JoinLines(a + b) == JoinLines(a) + JoinLines(b)
    decreases |a|
  {
    if a == [] {
      assert a + b == b;
    } else {
      assert (a + b)[1..] == a[1..] + b;
      JoinLinesConcat(a[1..], b);
    }
  }

  /** Inserting ins at index k of the middle part l of a text. */
  lemma SpliceInsert(a: string, l: string, p: string, k: int, ins: string)
    requires 0 <= k <= |l|
    ensures var t := a + l + p;
            a + (l[..k] + ins + l[k..]) + p == t[..|a| + k] + ins + t[|a| + k..]
  {
    var t := a + l + p;
    assert t[..|a| + k] == a + l[..k];
    assert t[|a| + k..] == l[k..] + p;
  }

  /** Deleting index k - 1 of the middle part l of a text. */
  lemma SpliceDelete(a: string, l: string, p: string, k: int)
    requires 0 < k <= |l|
    ensures var t := a + l + p;
            a + (l[..k - 1] + l[k..]) + p == t[..|a| + k - 1] + t[|a| + k..]
  {
    var t := a + l + p;
    assert t[..|a| + k - 1] == a + l[..k - 1];
    assert t[|a| + k..] == l[k..] + p;
  }

  lemma JoinLinesMiddle(pre: seq<string>, mid: seq<string>, after: seq<string>)
    ensures JoinLines(pre + mid + after) == JoinLines(pre) + JoinLines(mid) + JoinLines(after)
  {
    JoinLinesConcat(pre + mid, after);
    JoinLinesConcat(pre, mid);
  }

  lemma JoinLinesOne(x: string)
    ensures JoinLines([x]) == x + "\n"
  {
    assert [x][1..] == [];
  }

  lemma JoinLinesTwo(x: string, y: string)
    ensures JoinLines([x, y]) == x + "\n" + (y + "\n")
  {
    assert [x, y][1..] == [y];
    JoinLinesOne(y);
  }

  /** Inserting c at index k of one line inserts it at the matching offset
      of the text. */
  lemma TextInsert(pre: seq<string>, l: string, after: seq<string>, k: int, c: char)
    requires 0 <= k <= |l|
    ensures var t := JoinLines(pre + [l] + after);
            var o := |JoinLines(pre)| + k;
            o <= |t| && JoinLines(pre + [l[..k] + [c] + l[k..]] + after) == t[..o] + [c] + t[o..]
  {
    var m := l + "\n";
    assert m[..k] == l[..k] && m[k..] == l[k..] + "\n";
    assert (l[..k] + [c] + l[k..]) + "\n" == m[..k] + [c] + m[k..];
    JoinLinesMiddle(pre, [l], after);
    JoinLinesMiddle(pre, [l[..k] + [c] + l[k..]], after);
    JoinLinesOne(l);
    JoinLinesOne(l[..k] + [c] + l[k..]);
    SpliceInsert(JoinLines(pre), m, JoinLines(after), k, [c]);
  }

  /** Deleting index k - 1 of one line deletes the matching offset of the
      text. */
  lemma TextDelete(pre: seq<string>, l: string, after: seq<string>, k: int)
    requires 0 < k <= |l|
    ensures var t := JoinLines(pre + [l] + after);
            var o := |JoinLines(pre)| + k;
            o <= |t| && JoinLines(pre + [l[..k - 1] + l[k..]] + after) == t[..o - 1] + t[o..]
  {
    var m := l + "\n";
    assert m[..k - 1] == l[..k - 1] && m[k..] == l[k..] + "\n";
    assert (l[..k - 1] + l[k..]) + "\n" == m[..k - 1] + m[k..];
    JoinLinesMiddle(pre, [l], after);
    JoinLinesMiddle(pre, [l[..k - 1] + l[k..]], after);
    JoinLinesOne(l);
    JoinLinesOne(l[..k - 1] + l[k..]);
    SpliceDelete(JoinLines(pre), m, JoinLines(after), k);
  }

  /** Splitting one line in two inserts a newline at the matching offset of
      the text. */
  lemma TextSplit(pre: seq<string>, head: string, tail: string, after: seq<string>)
    ensures var t := JoinLines(pre + [head + tail] + after);
            var o := |JoinLines(pre)| + |head|;
            o <= |t| && |JoinLines(pre + [head])| == o + 1 &&
            JoinLines(pre + [head, tail] + after) == t[..o] + "\n" + t[o..]
  {
    var m := head + tail + "\n";
    assert m[..|head|] == head && m[|head|..] == tail + "\n";
    JoinLinesMiddle(pre, [head + tail], after);
    JoinLinesMiddle(pre, [head, tail], after);
    JoinLinesOne(head + tail);
    JoinLinesTwo(head, tail);
    JoinLinesAppend(pre, head);
    SpliceInsert(JoinLines(pre), m, JoinLines(after), |head|, "\n");
  }

  /** An empty line before the lines rest inserts a newline where rest
      starts in the text. */
  lemma TextInsertEmpty(pre: seq<string>, rest: seq<string>)
    ensures var t := JoinLines(pre + rest);
            var o := |JoinLines(pre)|;
            o <= |t| && |JoinLines(pre + [""])| == o + 1 &&
            JoinLines(pre + [""] + rest) == t[..o] + "\n" + t[o..]
  {
    var a, b := JoinLines(pre), JoinLines(rest);
    assert JoinLines(pre + rest) == a + b by {
      JoinLinesConcat(pre, rest);
    }
    assert JoinLines(pre + [""] + rest) == a + "\n" + b by {
      JoinLinesMiddle(pre, [""], rest);
      JoinLinesOne("");
    }
    assert |JoinLines(pre + [""])| == |a| + 1 by {
      JoinLinesAppend(pre, "");
    }
    assert (a + b)[..|a|] == a && (a + b)[|a|..] == b;
  }

  /** Joining a line to the one above deletes the newline between them from
      the text. */
  lemma TextJoin(pre: seq<string>, above: string, l: string, after: seq<string>)
    ensures var t := JoinLines(pre + [above, l] + after);
            var o := |JoinLines(pre + [above])|;
            o == |JoinLines(pre)| + |above| + 1 && o <= |t| &&
            JoinLines(pre + [above + l] + after) == t[..o - 1] + t[o..]
  {
    var m := above + "\n" + (l + "\n");
    var k := |above| + 1;
    assert m[..k - 1] == above && m[k..] == l + "\n";
    assert above + l + "\n" == m[..k - 1] + m[k..];
    JoinLinesMiddle(pre, [above, l], after);
    JoinLinesMiddle(pre, [above + l], after);
    JoinLinesTwo(above, l);
    JoinLinesOne(above + l);
    JoinLinesAppend(pre, above);
    SpliceDelete(JoinLines(pre), m, JoinLines(after), k);
  }

  /** Typing c inserts c into the text at the cursor's offset and moves the
      cursor past it; on the line past the end it adds the line [c]. */
  lemma InsertCharText(d: Doc, c: char)
    requires Ok(d)
    ensures var r := InsertChar(d, c);
            0 <= Offset(d) <= |Text(d)| && Offset(r) == Offset(d) + 1 &&
            (d.cy < |d.lines| ==> Text(r) == Text(d)[..Offset(d)] + [c] + Text(d)[Offset(d)..]) &&
            (d.cy == |d.lines| ==> Text(r) == Text(d) + [c] + "\n")
  {
    var r := InsertChar(d, c);
    var pre := d.lines[..d.cy];
    if d.cy < |d.lines| {
      var l, after := d.lines[d.cy], d.lines[d.cy + 1..];
      assert d.lines == pre + [l] + after;
      assert r.lines == pre + [l[..d.cx] + [c] + l[d.cx..]] + after;
      assert r.lines[..r.cy] == pre;
      TextInsert(pre, l, after, d.cx, c);
    } else {
      assert d.cx == 0 && InsertAt("", 0, c) == [c];
      assert r.lines == d.lines + [[c]];
      assert r.lines[..r.cy] == pre && pre == d.lines;
      JoinLinesAppend(d.lines, [c]);
    }
  }

  /** Enter inserts a newline into the text at the cursor's offset and moves
      the cursor past it. */
  lemma NewlineText(d: Doc)
    requires Ok(d)
    ensures var r := Newline(d);
            0 <= Offset(d) <= |Text(d)| && Offset(r) == Offset(d) + 1 &&
            Text(r) == Text(d)[..Offset(d)] + "\n" + Text(d)[Offset(d)..]
  {
    var r := Newline(d);
    var pre := d.lines[..d.cy];
    if d.cx == 0 {
      var rest := d.lines[d.cy..];
      assert d.lines == pre + rest;
      assert r.lines == pre + [""] + rest;
      assert r.lines[..r.cy] == pre + [""];
      TextInsertEmpty(pre, rest);
    } else {
      var l, after := d.lines[d.cy], d.lines[d.cy + 1..];
      var head, tail := l[..d.cx], l[d.cx..];
      assert l == head + tail;
      assert d.lines == pre + [head + tail] + after;
      assert r.lines == pre + [head, tail] + after;
      assert r.lines[..r.cy] == pre + [head];
      TextSplit(pre, head, tail, after);
    }
  }

  /** Deleting removes the character before the cursor's offset from the
      text, a newline at the start of a line, and moves the cursor onto its
      place. */
  lemma DelCharText(d: Doc)
    requires Ok(d) && d.cy < |d.lines| && (d.cx > 0 || d.cy > 0)
    ensures var r := DelChar(d);
            0 < Offset(d) <= |Text(d)| && Offset(r) == Offset(d) - 1 &&
            Text(r) == Text(d)[..Offset(d) - 1] + Text(d)[Offset(d)..]
  {
    if d.cx > 0 {
      DelCharTextInLine(d);
    } else {
      DelCharTextJoin(d);
    }
  }

  lemma DelCharTextInLine(d: Doc)
    requires Ok(d) && d.cy < |d.lines| && d.cx > 0
    ensures var r := DelChar(d);
            0 < Offset(d) <= |Text(d)| && Offset(r) == Offset(d) - 1 &&
            Text(r) == Text(d)[..Offset(d) - 1] + Text(d)[Offset(d)..]
  {
    var r := DelChar(d);
    var pre, l, after := d.lines[..d.cy], d.lines[d.cy], d.lines[d.cy + 1..];
    assert d.lines == pre + [l] + after;
    assert r.lines == pre + [l[..d.cx - 1] + l[d.cx..]] + after;
    assert r.lines[..r.cy] == pre;
    TextDelete(pre, l, after, d.cx);
  }

  lemma DelCharTextJoin(d: Doc)
    requires Ok(d) && 0 < d.cy < |d.lines| && d.cx == 0
    ensures var r := DelChar(d);
            0 < Offset(d) <= |Text(d)| && Offset(r) == Offset(d) - 1 &&
            Text(r) == Text(d)[..Offset(d) - 1] + Text(d)[Offset(d)..]
  {
    var r := DelChar(d);
    var pre, above, l, after := d.lines[..d.cy - 1], d.lines[d.cy - 1], d.lines[d.cy], d.lines[d.cy + 1..];
    assert d.lines == pre + [above, l] + after;
    assert d.lines[..d.cy] == pre + [above];
    assert r.lines == pre + [above + l] + after;
    assert r.lines[..r.cy] == pre;
    TextJoin(pre, above, l, after);
  }

  /** Deleting right after Enter joins the split line again and puts the
      cursor back, on every line of the buffer. */
  lemma NewlineThenDelChar(d: Doc)
    requires Ok(d) && d.cy < |d.lines|
    ensures DelChar(Newline(d)) == d
  {
    var n := Newline(d);
    var l := d.lines[d.cy];
    if d.cx == 0 {
      assert n.lines[d.cy] + n.lines[d.cy + 1] == l;
      assert n.lines[..d.cy] == d.lines[..d.cy];
      assert n.lines[d.cy + 2..] == d.lines[d.cy + 1..];
      assert d.lines == d.lines[..d.cy] + [l] + d.lines[d.cy + 1..];
    } else {
      assert n.lines[d.cy] + n.lines[d.cy + 1] == l;
      assert n.lines[..d.cy] == d.lines[..d.cy];
      assert n.lines[d.cy + 2..] == d.lines[d.cy + 1..];
      assert d.lines == d.lines[..d.cy] + [l] + d.lines[d.cy + 1..];
    }
  }

  /** Deleting right after typing a character removes it and puts the cursor
      back, on every line of the buffer. */
  lemma InsertCharThenDelChar(d: Doc, c: char)
    requires Ok(d) && d.cy < |d.lines|
    ensures DelChar(InsertChar(d, c)) == d
  {
    DeleteAfterInsert(d.lines[d.cy], d.cx, c);
    assert d.lines[d.cy := d.lines[d.cy]] == d.lines;
  }
}
