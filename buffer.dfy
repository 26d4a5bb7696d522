/** The pure parts of the buffer operations: editing one row's content,
    inserting and deleting rows in the row slice (with the slice behaviour of
    the source), and joining the rows into the text handed to the file writer. */
module Buffer {
  import opened Util
  import opened Syntax
  import opened RenderRow

  // ---------------------------------------------------------------------
  // Editing the content of one row

  /** Where editorRowInsertChar inserts: at, or the end of the row when at is
      out of range. */
  function InsertIndex(s: string, at: int): (a: nat)
    ensures a <= |s|
    ensures 0 <= at <= |s| ==> a == at
    ensures !(0 <= at <= |s|) ==> a == |s|
  {
    if at < 0 || at > |s| then |s| else at
  }

  /** s with c inserted at the clamped index. */
  function InsertAt(s: string, at: int, c: char): (r: string)
    ensures |r| == |s| + 1
    ensures var a := InsertIndex(s, at); r[..a] == s[..a] && r[a] == c && r[a + 1..] == s[a..]
  {
    var a := InsertIndex(s, at);
    s[..a] + [c] + s[a..]
  }

  /** s without its character at index at. */
  function DeleteAt(s: string, at: int): (r: string)
    requires 0 <= at < |s|
    ensures |r| == |s| - 1
    ensures r[..at] == s[..at] && r[at..] == s[at + 1..]
  {
    s[..at] + s[at + 1..]
  }

  /** Inserting a character and deleting at the same index restores the content. */
  lemma DeleteAfterInsert(s: string, at: int, c: char)
    requires 0 <= at <= |s|
    ensures DeleteAt(InsertAt(s, at, c), at) == s
  {
    var r := InsertAt(s, at, c);
    assert DeleteAt(r, at) == r[..at] + r[at + 1..];
  }

  /** Deleting a character and inserting it again at its index restores the content. */
  lemma InsertAfterDelete(s: string, at: int)
    requires 0 <= at < |s|
    ensures InsertAt(DeleteAt(s, at), at, s[at]) == s
  {
    var d := DeleteAt(s, at);
    assert InsertAt(d, at, s[at]) == d[..at] + [s[at]] + d[at..];
  }

  // ---------------------------------------------------------------------
  // The row slice

  /** The contents of the rows, in order. */
  function Texts(rows: seq<Row>): (ts: seq<string>)
    ensures |ts| == |rows|
    ensures forall i :: 0 <= i < |rows| ==> ts[i] == rows[i].content
  {
    seq(|rows|, i requires 0 <= i < |rows| => rows[i].content)
  }

  /** Every row carries the render of its content. */
  ghost predicate AllRendered(rows: seq<Row>) {
    forall i :: 0 <= i < |rows| ==> rows[i].render == RenderOf(rows[i].content)
  }

  /** editorInsertRow after its bounds check: the new row goes in at index at
      of the whole slice, and then the row at index numrows is re-rendered,
      which is the inserted row only when at == numrows. */
  function InsertRowAsWritten(rows: seq<Row>, numrows: nat, at: nat, content: string): (r: seq<Row>)
    requires numrows <= |rows| && at <= numrows
    ensures |r| == |rows| + 1
    ensures Texts(r) == Texts(rows)[..at] + [content] + Texts(rows)[at..]
    ensures r[numrows] == Rendered(r[numrows].content)
    ensures at < numrows ==> r[at] == Row(content, [], [])
    ensures forall i :: 0 <= i < at ==> r[i] == rows[i]
    ensures forall i :: at < i <= |rows| && i != numrows ==> r[i] == rows[i - 1]
  {
    var inserted := rows[..at] + [Row(content, [], [])] + rows[at..];
    inserted[numrows := Rendered(inserted[numrows].content)]
  }

  /** The insertion the comment of editorInsertRow describes: the new row is
      rendered and every other row is kept as it was. */
  function InsertRowRendered(rows: seq<Row>, at: nat, content: string): (r: seq<Row>)
    requires at <= |rows|
    ensures |r| == |rows| + 1
    ensures Texts(r) == Texts(rows)[..at] + [content] + Texts(rows)[at..]
    ensures r[at] == Rendered(content)
  {
    rows[..at] + [Rendered(content)] + rows[at..]
  }

  /** The corrected insertion keeps every row rendered. */
  lemma InsertRowRenderedKeepsRendering(rows: seq<Row>, at: nat, content: string)
    requires at <= |rows| && AllRendered(rows)
    ensures AllRendered(InsertRowRendered(rows, at, content))
  {
    var r := InsertRowRendered(rows, at, content);
    forall i | 0 <= i < |r|
      ensures r[i].render == RenderOf(r[i].content)
    {
      if i < at {
        assert r[i] == rows[i];
      } else if i > at {
        assert r[i] == rows[i - 1];
      }
    }
  }

  /** As written, splitting the first of two rendered rows leaves the split-off
      row without a render, so it is drawn empty and never matches a search. */
  lemma InsertRowAsWrittenLeavesRowUnrendered()
    ensures var rows := [Rendered("ab"), Rendered("c")];
            var r := InsertRowAsWritten(rows, 2, 1, "b");
            AllRendered(rows) && r[1].content == "b" && r[1].render == [] &&
            RenderOf("b") == "b\0" && !AllRendered(r)
  {
    var rows := [Rendered("ab"), Rendered("c")];
    assert Tabs("ab") == 0 && Tabs("c") == 0 && Tabs("b") == 0 by {
      assert "ab"[..1] == "a" && "a"[..0] == [];
      assert "c"[..0] == [] && "b"[..0] == [];
    }
    assert Expand("b") == "b" by {
      assert "b"[..0] == [];
    }
    assert RenderOf("b") == "b\0";
    var r := InsertRowAsWritten(rows, 2, 1, "b");
    assert r[1].render != RenderOf(r[1].content);
  }

  /** editorDelRow's slices.Delete with its result discarded: the elements
      after at move down one place, the slice keeps its length and its last
      element stays where it was, so it now appears twice. */
  function DeleteRowKeepLength(rows: seq<Row>, at: nat): (r: seq<Row>)
    requires at < |rows|
    ensures |r| == |rows|
  {
    seq(|rows|, i requires 0 <= i < |rows| => if i < at || i == |rows| - 1 then rows[i] else rows[i + 1])
  }

  /** Where each element of the slice ends up after DeleteRowKeepLength. */
  lemma DeleteRowShifts(rows: seq<Row>, at: nat)
    requires at < |rows|
    ensures var r := DeleteRowKeepLength(rows, at);
            (forall i :: 0 <= i < at ==> r[i] == rows[i]) &&
            (forall i :: at <= i < |rows| - 1 ==> r[i] == rows[i + 1]) &&
            r[|rows| - 1] == rows[|rows| - 1]
  {
  }

  /** The first numrows - 1 rows after deleting row at < numrows are the old
      first numrows rows without row at. */
  lemma DeleteRowTexts(rows: seq<Row>, numrows: nat, at: nat)
    requires at < numrows <= |rows|
    ensures Texts(DeleteRowKeepLength(rows, at))[..numrows - 1] ==
            Texts(rows)[..at] + Texts(rows)[at + 1..numrows]
  {
    var r := DeleteRowKeepLength(rows, at);
    var lhs := Texts(r)[..numrows - 1];
    var rhs := Texts(rows)[..at] + Texts(rows)[at + 1..numrows];
    DeleteRowShifts(rows, at);
    assert |lhs| == |rhs|;
    forall i | 0 <= i < |lhs|
      ensures lhs[i] == rhs[i]
    {
    }
  }

  // ---------------------------------------------------------------------
  // Serialisation

  /** Every line followed by a newline, in order. */
  function JoinLines(lines: seq<string>): string {
    if lines == [] then "" else lines[0] + "\n" + JoinLines(lines[1..])
  }

  lemma {:induction false} JoinLinesAppend(lines: seq<string>, line: string)
    ensures JoinLines(lines + [line]) == JoinLines(lines) + line + "\n"
    decreases |lines|
  {
    if lines == [] {
      assert lines + [line] == [line];
    } else {
      assert (lines + [line])[1..] == lines[1..] + [line];
      JoinLinesAppend(lines[1..], line);
    }
  }

  /** The index of the first c in t, or |t| when there is none. */
  function IndexOfChar(t: string, c: char): (k: nat)
    ensures k <= |t|
    ensures k < |t| ==> t[k] == c
    ensures forall j :: 0 <= j < k ==> t[j] != c
  {
    if t == [] then 0
    else if t[0] == c then 0
    else 1 + IndexOfChar(t[1..], c)
  }

  /** Splits text into newline-terminated lines; a last line without a
      newline is kept. */
  function SplitLines(t: string): seq<string>
    decreases |t|
  {
    if t == [] then []
    else
      var k := IndexOfChar(t, '\n');
      if k == |t| then [t] else [t[..k]] + SplitLines(t[k + 1..])
  }

  predicate NoNewlines(lines: seq<string>) {
    forall i :: 0 <= i < |lines| ==> '\n' !in lines[i]
  }

  /** A line without a newline, followed by one, splits off as the first line. */
  lemma SplitLeadingLine(l: string, rest: string)
    requires '\n' !in l
    ensures SplitLines(l + "\n" + rest) == [l] + SplitLines(rest)
  {
    var t := l + "\n" + rest;
    assert t[|l|] == '\n';
    assert forall j :: 0 <= j < |l| ==> t[j] == l[j];
    assert IndexOfChar(t, '\n') == |l|;
    assert t[..|l|] == l;
    assert t[|l| + 1..] == rest;
  }

  /** Joining lines and splitting the text again gives the lines back. */
  lemma {:induction false} SplitJoinLines(lines: seq<string>)
    requires NoNewlines(lines)
    ensures SplitLines(JoinLines(lines)) == lines
    decreases |lines|
  {
    if lines != [] {
      assert NoNewlines(lines[1..]) by {
        forall i | 0 <= i < |lines[1..]| ensures '\n' !in lines[1..][i] {
          assert lines[1..][i] == lines[i + 1];
        }
      }
      SplitJoinLines(lines[1..]);
      SplitLeadingLine(lines[0], JoinLines(lines[1..]));
      assert lines == [lines[0]] + lines[1..];
    }
  }

  /** A carriage return at the end of a line is dropped. */
  function DropCR(line: string): (r: string)
    ensures r == line || (line != [] && line[|line| - 1] == '\r' && r == line[..|line| - 1])
    ensures line != [] && line[|line| - 1] == '\r' ==> |r| == |line| - 1
  {
    if line != [] && line[|line| - 1] == '\r' then line[..|line| - 1] else line
  }

  /** How editorOpen reads a file: bufio.Scanner's ScanLines splits at each
      newline, keeps a last line without one, and drops a carriage return
      before the end of each line. */
  function ScanLines(t: string): (lines: seq<string>)
    ensures |lines| == |SplitLines(t)|
    ensures forall i :: 0 <= i < |lines| ==> lines[i] == DropCR(SplitLines(t)[i])
  {
    var split := SplitLines(t);
    seq(|split|, i requires 0 <= i < |split| => DropCR(split[i]))
  }

  /** No line ends in a carriage return, so the scanner leaves it whole. */
  predicate NoTrailingCR(lines: seq<string>) {
    forall i :: 0 <= i < |lines| ==> lines[i] == [] || lines[i][|lines[i]| - 1] != '\r'
  }

  /** Opening the saved text gives the lines back when none holds a newline
      or ends in a carriage return. */
  lemma ScanJoinLines(lines: seq<string>)
    requires NoNewlines(lines) && NoTrailingCR(lines)
    ensures ScanLines(JoinLines(lines)) == lines
  {
    SplitJoinLines(lines);
  }

  /** A line ending in a carriage return comes back without it. */
  lemma ScanDropsTrailingCR()
    ensures ScanLines(JoinLines(["a\r"])) == ["a"]
  {
    assert JoinLines(["a\r"]) == "a\r\n" by {
      assert JoinLines(["a\r"][1..]) == "";
    }
    SplitJoinLines(["a\r"]);
    var lines := ScanLines("a\r\n");
    assert |lines| == 1 && lines[0] == DropCR("a\r");
    assert "a\r"[..1] == "a";
  }

  /** editorRowsToString: every row of the slice, each followed by a newline.
      It walks the whole slice, not only the first numrows rows. */
  method RowsToString(rows: seq<Row>) returns (text: string)
    ensures text == JoinLines(Texts(rows))
  {
    text := "";
    for i := 0 to |rows|
      invariant text == JoinLines(Texts(rows)[..i])
    {
      assert Texts(rows)[..i + 1] == Texts(rows)[..i] + [rows[i].content];
      JoinLinesAppend(Texts(rows)[..i], rows[i].content);
      text := text + (rows[i].content + "\n");
    }
    assert Texts(rows)[..|rows|] == Texts(rows);
  }

  /** The text of the buffer the user sees: its first numrows rows. */
  function BufferText(rows: seq<Row>, numrows: nat): string
    requires numrows <= |rows|
  {
    JoinLines(Texts(rows)[..numrows])
  }

  /** Reading back the buffer text gives exactly the numrows lines of the buffer. */
  lemma BufferTextRoundTrip(rows: seq<Row>, numrows: nat)
    requires numrows <= |rows|
    requires forall i :: 0 <= i < numrows ==> '\n' !in rows[i].content
    ensures SplitLines(BufferText(rows, numrows)) == Texts(rows)[..numrows]
  {
    SplitJoinLines(Texts(rows)[..numrows]);
  }

  /** Merging row 1 into row 0 of a two-row buffer (append, then delete row 1)
      leaves one line, but the whole slice still holds two rows, so the text
      written to the file gets a stale second line. */
  lemma MergedRowsSerialiseStaleLine()
    ensures var rows := [Rendered("a"), Rendered("b")];
            var merged := DeleteRowKeepLength(rows[0 := Rendered("ab")], 1);
            JoinLines(Texts(merged)) == "ab\nb\n" && BufferText(merged, 1) == "ab\n"
  {
    var rows := [Rendered("a"), Rendered("b")];
    var merged := DeleteRowKeepLength(rows[0 := Rendered("ab")], 1);
    assert Texts(merged) == ["ab", "b"];
    assert Texts(merged)[..1] == ["ab"];
    assert ["ab", "b"][1..] == ["b"];
    assert ["b"][1..] == [] && ["ab"][1..] == [];
  }
}
