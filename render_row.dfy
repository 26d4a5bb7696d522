/** A row of the buffer and its rendered form: tab expansion to 8-column
    stops (editorUpdateRow) and the mapping between content and render
    columns (editorRowCxToRx, editorRowRxToCx). */
module RenderRow {
  import opened Util
  import opened Syntax

  const TAB_STOP: nat := 8

  /** content is what the user typed; render is its on-screen form;
      highlights holds one tag per rendered character once the row is rendered. */
  datatype Row = Row(content: string, render: seq<char>, highlights: seq<uint8>)

  /** The number of tab characters in s. */
  function Tabs(s: string): nat {
    if s == [] then 0 else Tabs(s[..|s| - 1]) + (if s[|s| - 1] == '\t' then 1 else 0)
  }

  /** The spaces a tab occupies when it starts at render column col: at least
      one, and up to the next multiple of TAB_STOP. */
  function TabWidth(col: nat): (w: nat)
    ensures 1 <= w <= TAB_STOP
    ensures (col + w) % TAB_STOP == 0
    ensures forall k :: col < k < col + w ==> k % TAB_STOP != 0
  {
    TAB_STOP - col % TAB_STOP
  }

  /** The expanded text of s: tabs become spaces up to the next tab stop,
      everything else copies through. */
  function Expand(s: string): (r: seq<char>) {
    if s == [] then []
    else
      var e := Expand(s[..|s| - 1]);
      if s[|s| - 1] == '\t' then e + Repeat(' ', TabWidth(|e|)) else e + [s[|s| - 1]]
  }

  /** The render column reached after s, accumulated the way the
      coordinate-mapping loops do it: a tab adds (7 - rx % 8) and then one. */
  function RenderedWidth(s: string): nat {
    if s == [] then 0
    else
      var w := RenderedWidth(s[..|s| - 1]);
      if s[|s| - 1] == '\t' then w + (TAB_STOP - 1) - w % TAB_STOP + 1 else w + 1
  }

  /** The render as editorUpdateRow leaves it: an array of
      |content| + 7 * tabs + 1 characters, the expanded text followed by NULs. */
  function RenderOf(content: string): (r: seq<char>)
    ensures |r| == |content| + (TAB_STOP - 1) * Tabs(content) + 1
    ensures |Expand(content)| < |r|
    ensures r[..|Expand(content)|] == Expand(content)
    ensures forall k :: |Expand(content)| <= k < |r| ==> r[k] == '\0'
  {
    ExpandWidth(content);
    Expand(content) + Repeat('\0', |content| + (TAB_STOP - 1) * Tabs(content) + 1 - |Expand(content)|)
  }

  /** A row after editorUpdateRow: its render and the tags of that render. */
  function Rendered(content: string): Row {
    Row(content, RenderOf(content), HighlightsOf(RenderOf(content)))
  }

  /** editorRowCxToRx: the render column of content column cx. */
  function CxToRx(content: string, cx: int): nat
    requires 0 <= cx <= |content|
  {
    RenderedWidth(content[..cx])
  }

  /** The render column just past content character j. */
  function ColAfter(content: string, j: int): nat
    requires 0 <= j < |content|
  {
    RenderedWidth(content[..j + 1])
  }

  /** editorRowRxToCx: the first content column whose character ends past rx,
      or the length of the content when there is none. */
  function RxToCx(content: string, rx: int): (cx: nat)
    ensures cx <= |content|
    ensures forall j :: 0 <= j < cx ==> ColAfter(content, j) <= rx
    ensures cx < |content| ==> ColAfter(content, cx) > rx
  {
    RxToCxFrom(content, rx, 0)
  }

  function RxToCxFrom(content: string, rx: int, i: nat): (cx: nat)
    requires i <= |content|
    ensures i <= cx <= |content|
    ensures forall j :: i <= j < cx ==> ColAfter(content, j) <= rx
    ensures cx < |content| ==> ColAfter(content, cx) > rx
    decreases |content| - i
  {
    if i == |content| then i
    else if ColAfter(content, i) > rx then i
    else RxToCxFrom(content, rx, i + 1)
  }

  // ---------------------------------------------------------------------
  // The loops of the source, proved against the functions above

  /** editorUpdateRow: counts the tabs, allocates the render, copies the
      content with tabs expanded, writes the closing NUL and recomputes the tags. */
  method UpdateRow(row: Row) returns (r: Row)
    ensures r == Rendered(row.content)
  {
    var content := row.content;
    var tabs := CountTabs(content);
    var render := new char[|content| + tabs * (TAB_STOP - 1) + 1](_ => '\0');
    var idx := CopyExpanded(content, render);
    render[idx] := '\0';
    assert render[..] == RenderOf(content);
    var hl := UpdateSyntax(render[..]);
    r := Row(content, render[..], hl);
  }

  /** The copying loop of editorUpdateRow: the content goes into the fresh
      render with its tabs expanded; the index after the copy is returned. */
  method CopyExpanded(content: string, render: array<char>) returns (idx: nat)
    requires render.Length == |content| + (TAB_STOP - 1) * Tabs(content) + 1
    requires forall k :: 0 <= k < render.Length ==> render[k] == '\0'
    modifies render
    ensures idx == |Expand(content)| < render.Length
    ensures render[..idx] == Expand(content)
    ensures forall k :: idx <= k < render.Length ==> render[k] == '\0'
  {
    idx := 0;
    for i := 0 to |content|
      invariant idx == |Expand(content[..i])| < render.Length
      invariant render[..idx] == Expand(content[..i])
      invariant forall k :: idx <= k < render.Length ==> render[k] == '\0'
    {
      ghost var before := render[..idx];
      ExpandStep(content, i);
      ExpandWidth(content[..i + 1]);
      TabsMono(content, i + 1, |content|);
      assert content[..|content|] == content;
      if content[i] == '\t' {
        var start := idx;
        idx := PadTab(render, idx);
        assert render[..idx] == before + Repeat(' ', TabWidth(start)) by {
          assert render[..start] == before;
        }
      } else {
        render[idx] := content[i];
        idx := idx + 1;
        assert render[..idx] == before + [content[i]];
      }
    }
    assert content[..|content|] == content;
  }

  /** The tab-counting loop of editorUpdateRow. */
  method CountTabs(content: string) returns (tabs: nat)
    ensures tabs == Tabs(content)
  {
    tabs := 0;
    for i := 0 to |content|
      invariant tabs == Tabs(content[..i])
    {
      assert content[..i + 1][..i] == content[..i];
      if content[i] == '\t' {
        tabs := tabs + 1;
      }
    }
    assert content[..|content|] == content;
  }

  /** Writes the spaces of one tab starting at render index start, up to the
      next multiple of TAB_STOP, and returns the index after them. */
  method PadTab(render: array<char>, start: nat) returns (idx: nat)
    requires start + TabWidth(start) <= render.Length
    modifies render
    ensures idx == start + TabWidth(start)
    ensures render[..start] == old(render[..start])
    ensures forall k :: start <= k < idx ==> render[k] == ' '
    ensures forall k :: idx <= k < render.Length ==> render[k] == old(render[k])
  {
    render[start] := ' ';
    idx := start + 1;
    while idx % TAB_STOP != 0
      invariant start < idx <= start + TabWidth(start)
      invariant render[..start] == old(render[..start])
      invariant forall k :: start <= k < idx ==> render[k] == ' '
      invariant forall k :: idx <= k < render.Length ==> render[k] == old(render[k])
      decreases start + TabWidth(start) - idx
    {
      render[idx] := ' ';
      idx := idx + 1;
    }
  }

  /** editorRowCxToRx's loop. */
  method RowCxToRx(row: Row, cx: int) returns (rx: int)
    requires 0 <= cx <= |row.content|
    ensures rx == CxToRx(row.content, cx)
  {
    rx := 0;
    for i := 0 to cx
      invariant rx == RenderedWidth(row.content[..i])
    {
      assert row.content[..i + 1][..i] == row.content[..i];
      if row.content[i] == '\t' {
        rx := rx + (TAB_STOP - 1) - (rx % TAB_STOP);
      }
      rx := rx + 1;
    }
  }

  /** editorRowRxToCx's loop, which returns as soon as the running render
      column passes rx. */
  method RowRxToCx(row: Row, rx: int) returns (cx: int)
    ensures cx == RxToCx(row.content, rx)
  {
    var content := row.content;
    cx := 0;
    var currentRx := 0;
    while cx < |content|
      invariant 0 <= cx <= |content|
      invariant currentRx == RenderedWidth(content[..cx])
      invariant RxToCxFrom(content, rx, cx) == RxToCx(content, rx)
    {
      assert content[..cx + 1][..cx] == content[..cx];
      if content[cx] == '\t' {
        currentRx := currentRx + (TAB_STOP - 1) - (currentRx % TAB_STOP);
      }
      currentRx := currentRx + 1;
      if currentRx > rx {
        return;
      }
      cx := cx + 1;
    }
  }

  // ---------------------------------------------------------------------
  // Properties of rendering and of the coordinate mapping

  lemma {:induction false} TabsMono(s: string, i: nat, j: nat)
    requires i <= j <= |s|
    ensures Tabs(s[..i]) <= Tabs(s[..j])
    decreases j - i
  {
    if i < j {
      TabsMono(s, i, j - 1);
      assert s[..j][..j - 1] == s[..j - 1];
    }
  }

  /** The expanded text is exactly RenderedWidth(s) long, no shorter than s
      and at most 7 characters longer per tab. */
  lemma {:induction false} ExpandWidth(s: string)
    ensures |Expand(s)| == RenderedWidth(s)
    ensures |s| <= |Expand(s)| <= |s| + (TAB_STOP - 1) * Tabs(s)
    decreases |s|
  {
    if s != [] {
      ExpandWidth(s[..|s| - 1]);
    }
  }

  /** Expanding one more character of content appends its expansion. */
  lemma ExpandStep(content: string, i: nat)
    requires i < |content|
    ensures Expand(content[..i + 1]) == Expand(content[..i]) +
              (if content[i] == '\t' then Repeat(' ', TabWidth(|Expand(content[..i])|)) else [content[i]])
  {
    assert content[..i + 1][..i] == content[..i];
  }

  /** Expanding a prefix of s gives a prefix of the expansion of s. */
  lemma {:induction false} ExpandPrefix(s: string, k: nat)
    requires k <= |s|
    ensures Expand(s[..k]) <= Expand(s)
    decreases |s| - k
  {
    if k < |s| {
      var t := s[..|s| - 1];
      assert t[..k] == s[..k];
      ExpandPrefix(t, k);
    } else {
      assert s[..k] == s;
    }
  }

  /** A tab starting at render column w ends on the next tab stop: the
      accumulation in the mapping loops and the fill loop of editorUpdateRow
      agree. */
  lemma TabStep(w: nat)
    ensures w + (TAB_STOP - 1) - w % TAB_STOP + 1 == w + TabWidth(w)
  {
  }

  /** Each content character moves the render column forward. */
  lemma ColAfterStep(content: string, j: nat)
    requires j < |content|
    ensures ColAfter(content, j) == RenderedWidth(content[..j]) +
              (if content[j] == '\t' then TabWidth(RenderedWidth(content[..j])) else 1)
    ensures ColAfter(content, j) > RenderedWidth(content[..j])
  {
    assert content[..j + 1][..j] == content[..j];
  }

  /** Longer prefixes reach further render columns. */
  lemma {:induction false} RenderedWidthMono(content: string, i: nat, j: nat)
    requires i <= j <= |content|
    ensures RenderedWidth(content[..i]) <= RenderedWidth(content[..j])
    ensures i < j ==> RenderedWidth(content[..i]) < RenderedWidth(content[..j])
    decreases j - i
  {
    if i < j {
      RenderedWidthMono(content, i, j - 1);
      ColAfterStep(content, j - 1);
    }
  }

  /** Without a tab before cx, the render column equals the content column. */
  lemma {:induction false} CxToRxWithoutTabs(content: string, cx: nat)
    requires cx <= |content|
    requires forall k :: 0 <= k < cx ==> content[k] != '\t'
    ensures CxToRx(content, cx) == cx
    decreases cx
  {
    if cx > 0 {
      CxToRxWithoutTabs(content, cx - 1);
      ColAfterStep(content, cx - 1);
    }
  }

  lemma {:induction false} ExpandWithoutTabs(s: string)
    requires forall k :: 0 <= k < |s| ==> s[k] != '\t'
    ensures Expand(s) == s && Tabs(s) == 0
    decreases |s|
  {
    if s != [] {
      var n := |s| - 1;
      ExpandWithoutTabs(s[..n]);
      assert s == s[..n] + [s[n]];
    }
  }

  /** Without tabs the render is the content followed by one NUL. */
  lemma RenderWithoutTabs(s: string)
    requires forall k :: 0 <= k < |s| ==> s[k] != '\t'
    ensures RenderOf(s) == s + ['\0']
  {
    ExpandWithoutTabs(s);
    assert Repeat('\0', 1) == ['\0'];
  }

  /** A tab in the first column ends at column 8. */
  lemma LeadingTab(rest: string)
    ensures CxToRx("\t" + rest, 1) == 8
  {
    assert ("\t" + rest)[..1] == "\t";
    assert "\t"[..0] == [];
  }

  /** Mapping a content column to render and back gives the column again. */
  lemma RxToCxOfCxToRx(content: string, cx: nat)
    requires cx <= |content|
    ensures RxToCx(content, CxToRx(content, cx)) == cx
  {
    var rx := CxToRx(content, cx);
    forall j | 0 <= j < cx
      ensures ColAfter(content, j) <= rx
    {
      RenderedWidthMono(content, j + 1, cx);
    }
    if cx < |content| {
      ColAfterStep(content, cx);
    }
  }

  /** editorRowRxToCx returns the content length exactly when rx is at or past
      the end of the expanded text (or the row is empty); in particular for
      every rx at or past the row's render width. */
  lemma RxToCxPastEnd(content: string, rx: int)
    ensures RxToCx(content, rx) == |content| <==> content == [] || rx >= RenderedWidth(content)
    ensures rx >= |RenderOf(content)| ==> RxToCx(content, rx) == |content|
  {
    ExpandWidth(content);
    assert content[..|content|] == content;
    if content != [] && rx >= RenderedWidth(content) {
      forall j | 0 <= j < |content|
        ensures ColAfter(content, j) <= rx
      {
        RenderedWidthMono(content, j + 1, |content|);
      }
    }
    if content != [] && RxToCx(content, rx) == |content| {
      assert ColAfter(content, |content| - 1) <= rx;
      assert content[..|content| - 1 + 1] == content;
    }
  }

  /** The render agrees with the expansion of every prefix of the content. */
  lemma RenderAt(content: string, j: nat, k: nat)
    requires j <= |content| && k < |Expand(content[..j])|
    ensures k < |RenderOf(content)| && RenderOf(content)[k] == Expand(content[..j])[k]
  {
    ExpandPrefix(content, j);
    var e := Expand(content);
    assert RenderOf(content)[..|e|] == e;
    assert RenderOf(content)[..|e|][k] == e[k];
  }

  /** The render places every non-tab character at its CxToRx column, and a
      tab as spaces up to the next tab stop: the coordinate mapping matches
      editorUpdateRow's layout. */
  lemma RenderPlacement(content: string, cx: nat)
    requires cx < |content|
    ensures CxToRx(content, cx) < CxToRx(content, cx + 1) <= |RenderOf(content)|
    ensures content[cx] != '\t' ==> RenderOf(content)[CxToRx(content, cx)] == content[cx]
    ensures content[cx] == '\t' ==>
              CxToRx(content, cx + 1) % TAB_STOP == 0 &&
              forall k :: CxToRx(content, cx) <= k < CxToRx(content, cx + 1) ==> RenderOf(content)[k] == ' '
  {
    var ep, e0 := Expand(content[..cx + 1]), Expand(content[..cx]);
    var a, b := |e0|, |ep|;
    ExpandStep(content, cx);
    ExpandWidth(content[..cx + 1]);
    ExpandWidth(content[..cx]);
    assert CxToRx(content, cx) == a && CxToRx(content, cx + 1) == b;
    ExpandPrefix(content, cx + 1);
    ExpandWidth(content);
    if content[cx] == '\t' {
      assert b == a + TabWidth(a);
      forall k | a <= k < b
        ensures RenderOf(content)[k] == ' '
      {
        RenderAt(content, cx + 1, k);
        assert ep[k] == Repeat(' ', TabWidth(a))[k - a];
      }
    } else {
      RenderAt(content, cx + 1, a);
    }
  }
}
