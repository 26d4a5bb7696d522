/** The pure parts of incremental search: the substring index of
    strings.Index, the wrapping row order of editorOnInputFind's scan with the
    first row that matches, and the per-key edit step of editorPrompt. */
module Search {
  import opened Util
  import opened Keys
  import opened Syntax
  import opened RenderRow

  // ---------------------------------------------------------------------
  // Substring search

  /** q occurs in s starting at index i. */
  predicate OccursAt(s: seq<char>, q: seq<char>, i: int) {
    0 <= i && i + |q| <= |s| && s[i..i + |q|] == q
  }

  /** strings.Index: the first index where q occurs in s, or -1. */
  function IndexOf(s: seq<char>, q: seq<char>): (r: int)
    ensures r == -1 || OccursAt(s, q, r)
    ensures r == -1 ==> forall i :: !OccursAt(s, q, i)
    ensures forall i :: 0 <= i < r ==> !OccursAt(s, q, i)
  {
    IndexFrom(s, q, 0)
  }

  function IndexFrom(s: seq<char>, q: seq<char>, from: nat): (r: int)
    requires from <= |s|
    ensures r == -1 || (from <= r && OccursAt(s, q, r))
    ensures r == -1 ==> forall i :: from <= i ==> !OccursAt(s, q, i)
    ensures forall i :: from <= i < r ==> !OccursAt(s, q, i)
    decreases |s| - from
  {
    if from + |q| > |s| then -1
    else if s[from..from + |q|] == q then from
    else IndexFrom(s, q, from + 1)
  }

  // ---------------------------------------------------------------------
  // The order in which the scan visits rows

  /** One step of the scan: row cur + dir, with -1 wrapping to the last row
      and numrows wrapping to the first. */
  function NextRow(cur: int, dir: int, numrows: int): int {
    var c := cur + dir;
    if c == -1 then numrows - 1 else if c == numrows then 0 else c
  }

  /** A position the scan can start from: a row of the buffer, or -1 (no
      previous match) with the forward direction. */
  predicate ScanStart(numrows: int, cur: int, dir: int) {
    0 < numrows && -1 <= cur < numrows && (dir == 1 || (dir == -1 && 0 <= cur))
  }

  /** The row visited at step k (k >= 1) of a scan from cur in direction dir. */
  function Probe(cur: int, dir: int, numrows: int, k: int): int
    requires 0 < numrows
  {
    if dir == 1 then (cur + k) % numrows else (cur - k) % numrows
  }

  lemma ModAdd(a: int, b: int, n: int)
    requires 0 < n
    ensures (a + b % n) % n == (a + b) % n
    ensures (a - b % n) % n == (a - b) % n
  {
    var t := b / n;
    assert b == n * t + b % n;
    assert a + b % n + n * t == a + b;
    ModShift(a + b % n, t, n);
    assert n * (-t) == -(n * t);
    assert a - b % n + n * (-t) == a - b;
    ModShift(a - b % n, -t, n);
  }

  lemma ModShift(x: int, t: int, n: int)
    requires 0 < n
    ensures (x + n * t) % n == x % n
  {
    var q, r := x / n, x % n;
    assert x == n * q + r && 0 <= r < n;
    assert x + n * t == n * (q + t) + r;
    DivModUnique(x + n * t, q + t, r, n);
  }

  lemma DivModUnique(x: int, q: int, r: int, n: int)
    requires 0 < n && 0 <= r < n && x == n * q + r
    ensures x % n == r
  {
    var q', r' := x / n, x % n;
    assert x == n * q' + r';
    var d := q - q';
    assert n * d == n * q - n * q';
    if d > 0 {
      MulAtLeast(n, d);
    } else if d < 0 {
      MulAtLeast(n, -d);
    }
  }

  lemma {:induction false} MulAtLeast(n: int, d: int)
    requires 0 < n && 0 < d
    ensures n <= n * d
    decreases d
  {
    if d > 1 {
      MulAtLeast(n, d - 1);
      assert n * d == n * (d - 1) + n;
    }
  }

  /** The scan's stepping agrees with the closed form of Probe: the first step
      from a start position, and every later step from a visited row. */
  lemma NextRowIsProbe(cur: int, dir: int, numrows: int, k: nat)
    requires ScanStart(numrows, cur, dir)
    ensures 0 <= Probe(cur, dir, numrows, k + 1) < numrows
    ensures NextRow(if k == 0 then cur else Probe(cur, dir, numrows, k), dir, numrows) ==
            Probe(cur, dir, numrows, k + 1)
  {
    if k == 0 {
      FirstStep(cur, dir, numrows);
    } else {
      LaterStep(cur, dir, numrows, k);
    }
  }

  lemma FirstStep(cur: int, dir: int, n: int)
    requires ScanStart(n, cur, dir)
    ensures NextRow(cur, dir, n) == Probe(cur, dir, n, 1)
  {
    if dir == 1 {
      if cur + 1 == n { DivModUnique(n, 1, 0, n); } else { DivModUnique(cur + 1, 0, cur + 1, n); }
    } else {
      if cur == 0 { DivModUnique(-1, -1, n - 1, n); } else { DivModUnique(cur - 1, 0, cur - 1, n); }
    }
  }

  lemma LaterStep(cur: int, dir: int, n: int, k: nat)
    requires ScanStart(n, cur, dir) && 0 < k
    ensures NextRow(Probe(cur, dir, n, k), dir, n) == Probe(cur, dir, n, k + 1)
  {
    var x := Probe(cur, dir, n, k);
    if dir == 1 {
      ModAdd(1, cur + k, n);
      assert (x + 1) % n == (cur + k + 1) % n;
      if x + 1 == n { DivModUnique(n, 1, 0, n); } else { DivModUnique(x + 1, 0, x + 1, n); }
    } else {
      ModAdd(-1, cur - k, n);
      assert (x - 1) % n == (cur - k - 1) % n;
      if x == 0 { DivModUnique(-1, -1, n - 1, n); } else { DivModUnique(x - 1, 0, x - 1, n); }
    }
  }

  /** Any numrows consecutive steps visit every row of the buffer. */
  lemma ProbeCovers(cur: int, dir: int, numrows: int, row: int) returns (k: int)
    requires ScanStart(numrows, cur, dir) && 0 <= row < numrows
    ensures 1 <= k <= numrows && Probe(cur, dir, numrows, k) == row
  {
    var n := numrows;
    DivModUnique(row, 0, row, n);
    if dir == 1 {
      k := (row - cur) % n;
      ModAdd(cur, row - cur, n);
      if k == 0 {
        k := n;
        ModShift(cur, 1, n);
      }
    } else {
      k := (cur - row) % n;
      ModAdd(cur, cur - row, n);
      if k == 0 {
        k := n;
        ModShift(cur, -1, n);
      }
    }
  }

  /** The render of row contains the query. */
  predicate Contains(rows: seq<Row>, query: string, row: int)
    requires 0 <= row < |rows|
  {
    IndexOf(rows[row].render, query) != -1
  }

  /** The step, from k to limit, at which the scan first reaches a row whose
      render contains the query; None when no step does. */
  function FirstHit(rows: seq<Row>, numrows: int, query: string, cur: int, dir: int, k: nat, limit: nat): (r: Option<nat>)
    requires ScanStart(numrows, cur, dir) && numrows <= |rows| && 1 <= k
    ensures r.Some? ==> k <= r.value <= limit && 0 <= Probe(cur, dir, numrows, r.value) < numrows &&
                        Contains(rows, query, Probe(cur, dir, numrows, r.value))
    decreases limit + 1 - k
  {
    if k > limit then None
    else
      NextRowIsProbe(cur, dir, numrows, k - 1);
      var row := Probe(cur, dir, numrows, k);
      if Contains(rows, query, row) then Some(k)
      else FirstHit(rows, numrows, query, cur, dir, k + 1, limit)
  }

  /** No step before the hit, and no step up to the limit when there is no
      hit, reaches a row whose render contains the query. */
  lemma {:induction false} FirstHitIsFirst(rows: seq<Row>, numrows: int, query: string, cur: int, dir: int,
                                           k: nat, limit: nat)
    requires ScanStart(numrows, cur, dir) && numrows <= |rows| && 1 <= k
    ensures var r := FirstHit(rows, numrows, query, cur, dir, k, limit);
            forall j :: k <= j && (if r.Some? then j < r.value else j <= limit) ==>
              0 <= Probe(cur, dir, numrows, j) < numrows && !Contains(rows, query, Probe(cur, dir, numrows, j))
    decreases limit + 1 - k
  {
    if k <= limit {
      FirstHitUnfold(rows, numrows, query, cur, dir, k, limit);
      FirstHitIsFirst(rows, numrows, query, cur, dir, k + 1, limit);
    }
  }

  /** One step of FirstHit: a hit at step k, or the scan from step k + 1. */
  lemma FirstHitUnfold(rows: seq<Row>, numrows: int, query: string, cur: int, dir: int, k: nat, limit: nat)
    requires ScanStart(numrows, cur, dir) && numrows <= |rows| && 1 <= k <= limit
    ensures 0 <= Probe(cur, dir, numrows, k) < numrows
    ensures FirstHit(rows, numrows, query, cur, dir, k, limit) ==
            if Contains(rows, query, Probe(cur, dir, numrows, k)) then Some(k)
            else FirstHit(rows, numrows, query, cur, dir, k + 1, limit)
  {
    NextRowIsProbe(cur, dir, numrows, k - 1);
  }

  /** One turn of the scan loop: from the row visited at step k, the next row
      is the one visited at step k + 1, and the scan from step k + 1 either
      stops there or goes on from step k + 2. */
  lemma ScanStep(rows: seq<Row>, numrows: int, query: string, cur: int, dir: int, k: nat, current: int)
    requires ScanStart(numrows, cur, dir) && numrows <= |rows| && k < |rows|
    requires current == if k == 0 then cur else Probe(cur, dir, numrows, k)
    ensures var next := NextRow(current, dir, numrows);
            0 <= next < numrows && next == Probe(cur, dir, numrows, k + 1) &&
            FirstHit(rows, numrows, query, cur, dir, k + 1, |rows|) ==
              if IndexOf(rows[next].render, query) != -1 then Some(k + 1)
              else FirstHit(rows, numrows, query, cur, dir, k + 2, |rows|)
  {
    NextRowIsProbe(cur, dir, numrows, k);
    FirstHitUnfold(rows, numrows, query, cur, dir, k + 1, |rows|);
  }

  /** A scan of at least numrows steps that finds nothing means that no row of
      the buffer contains the query. */
  lemma NoHitMeansAbsent(rows: seq<Row>, numrows: int, query: string, cur: int, dir: int, limit: nat)
    requires ScanStart(numrows, cur, dir) && numrows <= |rows| && numrows <= limit
    requires FirstHit(rows, numrows, query, cur, dir, 1, limit).None?
    ensures forall row :: 0 <= row < numrows ==> !Contains(rows, query, row)
  {
    FirstHitIsFirst(rows, numrows, query, cur, dir, 1, limit);
    forall row | 0 <= row < numrows
      ensures !Contains(rows, query, row)
    {
      var k := ProbeCovers(cur, dir, numrows, row);
    }
  }

  /** Wraparound: when only row m holds the query, the scan finds row m from
      every start, including from m itself after one full turn. */
  lemma OnlyMatchIsFound(rows: seq<Row>, numrows: int, query: string, cur: int, dir: int, limit: nat, m: int)
    requires ScanStart(numrows, cur, dir) && numrows <= |rows| && numrows <= limit
    requires 0 <= m < numrows && Contains(rows, query, m)
    requires forall row :: 0 <= row < numrows && row != m ==> !Contains(rows, query, row)
    ensures var r := FirstHit(rows, numrows, query, cur, dir, 1, limit);
            r.Some? && Probe(cur, dir, numrows, r.value) == m
  {
    var r := FirstHit(rows, numrows, query, cur, dir, 1, limit);
    if r.None? {
      NoHitMeansAbsent(rows, numrows, query, cur, dir, limit);
    }
  }

  /** The scan reads only the renders: tagging a match does not change what
      it finds. */
  lemma {:induction false} FirstHitSameRenders(a: seq<Row>, b: seq<Row>, numrows: int, query: string,
                                               cur: int, dir: int, k: nat, limit: nat)
    requires ScanStart(numrows, cur, dir) && numrows <= |a| && |a| == |b| && 1 <= k
    requires forall i :: 0 <= i < |a| ==> a[i].render == b[i].render
    ensures FirstHit(a, numrows, query, cur, dir, k, limit) == FirstHit(b, numrows, query, cur, dir, k, limit)
    decreases limit + 1 - k
  {
    if k <= limit {
      NextRowIsProbe(cur, dir, numrows, k - 1);
      FirstHitSameRenders(a, b, numrows, query, cur, dir, k + 1, limit);
    }
  }

  /** Where the scan of editorOnInputFind starts and which way it goes: the
      arrows continue from the previous match (Right and Down forwards, Left
      and Up backwards), any other key starts again before the first row;
      without a previous match the scan always goes forwards. */
  function ScanFrom(lastMatch: int, key: int): (r: (int, int))
    ensures r.1 == 1 || r.1 == -1
    ensures r.0 == -1 ==> r.1 == 1
    ensures r.0 == lastMatch || r.0 == -1
    ensures key != ARROW_RIGHT && key != ARROW_DOWN && key != ARROW_LEFT && key != ARROW_UP ==> r == (-1, 1)
    ensures lastMatch != -1 && (key == ARROW_LEFT || key == ARROW_UP) ==> r == (lastMatch, -1)
    ensures key == ARROW_RIGHT || key == ARROW_DOWN ==> r == (lastMatch, 1)
  {
    var (lm, d) :=
      if key == ARROW_RIGHT || key == ARROW_DOWN then (lastMatch, 1)
      else if key == ARROW_LEFT || key == ARROW_UP then (lastMatch, -1)
      else (-1, 1);
    if lm == -1 then (lm, 1) else (lm, d)
  }

  /** A scan started from a row of the buffer, or from before the first row,
      is well defined whatever the key. */
  lemma ScanFromStarts(lastMatch: int, key: int, numrows: int)
    requires 0 < numrows && -1 <= lastMatch < numrows
    ensures var (start, dir) := ScanFrom(lastMatch, key);
            ScanStart(numrows, start, dir)
  {
  }

  /** The tags of a row with the n characters from at tagged as a match. */
  function Marked(hl: seq<uint8>, at: int, n: int): (r: seq<uint8>)
    requires 0 <= at && 0 <= n && at + n <= |hl|
    ensures |r| == |hl|
    ensures forall i :: 0 <= i < |hl| ==> r[i] == if at <= i < at + n then HL_MATCH else hl[i]
  {
    hl[..at] + Repeat(HL_MATCH, n) + hl[at + n..]
  }

  // ---------------------------------------------------------------------
  // The per-key edit step of editorPrompt

  datatype PromptState = Editing | Cancelled | Submitted

  /** The control characters of ASCII. */
  predicate IsControl(key: int) {
    0 <= key < 32 || key == 127
  }

  /** Text the prompt can accept: printable ASCII. */
  predicate Printable(s: string) {
    forall i :: 0 <= i < |s| ==> 32 <= s[i] as int < 127
  }

  /** One key of editorPrompt: DEL, Ctrl-H and Backspace drop the last
      character; ESC cancels; Enter submits a non-empty input and is ignored
      on an empty one; a printable ASCII key is appended; others are ignored. */
  function PromptStep(input: string, key: int): (r: (string, PromptState))
    requires 0 <= key
    ensures r.1 == Cancelled <==> key == ESC
    ensures r.1 == Submitted <==> key == ENTER && input != []
    ensures r.1 != Editing ==> r.0 == input
    ensures Printable(input) ==> Printable(r.0)
    ensures (key == DEL_KEY || key == CtrlKey('h' as int) || key == BACKSPACE) ==>
              r == (if input == [] then [] else input[..|input| - 1], Editing)
    ensures 32 <= key < 127 ==> r == (input + [key as char], Editing)
    ensures !(key == DEL_KEY || key == CtrlKey('h' as int) || key == BACKSPACE) && !(32 <= key < 127) ==>
              r.0 == input
  {
    if key == DEL_KEY || key == CtrlKey('h' as int) || key == BACKSPACE then
      (if |input| > 0 then input[..|input| - 1] else input, Editing)
    else if key == ESC then (input, Cancelled)
    else if key == ENTER then (input, if |input| > 0 then Submitted else Editing)
    else if !IsControl(key) && key < 128 then (input + [key as char], Editing)
    else (input, Editing)
  }

  /** Typing a printable character and then Backspace leaves the input as it was. */
  lemma TypeThenErase(input: string, c: char)
    requires 32 <= c as int < 127
    ensures PromptStep(input, c as int).1 == Editing
    ensures PromptStep(PromptStep(input, c as int).0, BACKSPACE).0 == input
  {
    var typed := input + [c];
    assert typed[..|typed| - 1] == input;
  }

  /** editorPrompt's keys, one PromptStep each, until a step cancels or
      submits; the input so far and Editing when the keys run out first. */
  function PromptRun(input: string, keys: seq<int>): (r: (string, PromptState))
    requires forall i :: 0 <= i < |keys| ==> 0 <= keys[i]
    decreases |keys|
  {
    if keys == [] then (input, Editing)
    else
      var (next, state) := PromptStep(input, keys[0]);
      if state != Editing then (next, state) else PromptRun(next, keys[1..])
  }

  /** The prompt only ever holds printable text, and only submits a
      non-empty one. */
  lemma {:induction false} PromptRunPrintable(input: string, keys: seq<int>)
    requires forall i :: 0 <= i < |keys| ==> 0 <= keys[i]
    requires Printable(input)
    ensures Printable(PromptRun(input, keys).0)
    ensures PromptRun(input, keys).1 == Submitted ==> PromptRun(input, keys).0 != []
    decreases |keys|
  {
    if keys != [] {
      var (next, state) := PromptStep(input, keys[0]);
      if state == Editing {
        PromptRunPrintable(next, keys[1..]);
      }
    }
  }

  /** An ESC among the keys always ends the prompt. */
  lemma {:induction false} PromptRunEndsAtEsc(input: string, keys: seq<int>, j: int)
    requires forall i :: 0 <= i < |keys| ==> 0 <= keys[i]
    requires 0 <= j < |keys| && keys[j] == ESC
    ensures PromptRun(input, keys).1 != Editing
    decreases |keys|
  {
    var (next, state) := PromptStep(input, keys[0]);
    if state == Editing {
      PromptRunEndsAtEsc(next, keys[1..], j - 1);
    }
  }
}
