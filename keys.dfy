/** Key codes and the key decoder of editorReadKey: a small automaton that
    turns the units read from the terminal into one logical key. The terminal
    read is replaced by a finite input sequence; running out of input stands
    for the read error or idle timeout that the source reports. */
module Keys {
  import opened Util

  const ESC: int := 27
  const ENTER: int := 13
  const BACKSPACE: int := 127
  // Special keys are numbered from 1000 + iota, and iota is 1 on ARROW_LEFT's line.
  const ARROW_LEFT: int := 1001
  const ARROW_RIGHT: int := 1002
  const ARROW_UP: int := 1003
  const ARROW_DOWN: int := 1004
  const DEL_KEY: int := 1005
  const HOME_KEY: int := 1006
  const END_KEY: int := 1007
  const PAGE_UP: int := 1008
  const PAGE_DOWN: int := 1009

  /** The code of Ctrl plus k: the low five bits of k (an AND with 0x1f,
      which equals Dafny's Euclidean remainder by 32 also for negative k). */
  function CtrlKey(k: int): (r: int)
    ensures 0 <= r < 32
    ensures 'a' as int <= k <= 'z' as int ==> r == k - 'a' as int + 1
    ensures 'A' as int <= k <= 'Z' as int ==> r == k - 'A' as int + 1
  {
    k % 32
  }

  /** The keys the editor dispatches on: ASCII units and the named keys. */
  predicate IsKey(k: int) {
    0 <= k < 128 || ARROW_LEFT <= k <= PAGE_DOWN
  }

  /** The input after its leading NUL units, which editorReadKey skips. */
  function SkipNuls(input: seq<int>): (r: seq<int>)
    ensures r == [] || r[0] != 0
    ensures |r| <= |input| && r == input[|input| - |r|..]
    ensures forall i :: 0 <= i < |input| - |r| ==> input[i] == 0
  {
    if input != [] && input[0] == 0 then SkipNuls(input[1..]) else input
  }

  /** The key named by ESC [ d ~, if the digit d names one. */
  function TildeKey(d: int): Option<int> {
    if d == '1' as int || d == '7' as int then Some(HOME_KEY)
    else if d == '3' as int then Some(DEL_KEY)
    else if d == '4' as int || d == '8' as int then Some(END_KEY)
    else if d == '5' as int then Some(PAGE_UP)
    else if d == '6' as int then Some(PAGE_DOWN)
    else None
  }

  /** The key named by ESC [ c for a non-digit c, if any. */
  function BracketKey(c: int): Option<int> {
    if c == 'A' as int then Some(ARROW_UP)
    else if c == 'B' as int then Some(ARROW_DOWN)
    else if c == 'C' as int then Some(ARROW_RIGHT)
    else if c == 'D' as int then Some(ARROW_LEFT)
    else if c == 'H' as int then Some(HOME_KEY)
    else if c == 'F' as int then Some(END_KEY)
    else None
  }

  /** The key named by ESC O c, if any. */
  function OKey(c: int): Option<int> {
    if c == 'H' as int then Some(HOME_KEY)
    else if c == 'F' as int then Some(END_KEY)
    else None
  }

  predicate IsDigitCode(c: int) {
    '0' as int <= c <= '9' as int
  }

  /** Decodes the units that follow an ESC; anything unrecognised, or too few
      units, gives ESC itself. */
  function DecodeEscape(tail: seq<int>): int {
    if |tail| < 2 then ESC
    else if tail[0] == '[' as int then
      if IsDigitCode(tail[1]) then
        if |tail| < 3 || tail[2] != '~' as int then ESC
        else TildeKey(tail[1]).GetOr(ESC)
      else BracketKey(tail[1]).GetOr(ESC)
    else if tail[0] == 'O' as int then OKey(tail[1]).GetOr(ESC)
    else ESC
  }

  /** editorReadKey over a finite input: None when the input holds no unit
      other than NUL (the source keeps polling and never returns). */
  function ReadKey(input: seq<int>): (r: Option<int>)
    ensures r.None? <==> forall i :: 0 <= i < |input| ==> input[i] == 0
  {
    var s := SkipNuls(input);
    if s == [] then None
    else if s[0] == ESC then Some(DecodeEscape(s[1..]))
    else Some(s[0])
  }

  // ---------------------------------------------------------------------
  // Properties of the decoder

  function Nuls(n: nat): seq<int> {
    Repeat(0, n)
  }

  /** Any number of leading NULs is skipped and nothing more. */
  lemma {:induction false} SkipNulsPrefix(n: nat, s: seq<int>)
    requires s == [] || s[0] != 0
    ensures SkipNuls(Nuls(n) + s) == s
    decreases n
  {
    if n > 0 {
      assert (Nuls(n) + s)[1..] == Nuls(n - 1) + s;
      SkipNulsPrefix(n - 1, s);
    }
  }

  /** After any run of NULs, an ESC hands the rest of the input to DecodeEscape. */
  lemma {:induction false} ReadEscape(n: nat, tail: seq<int>)
    ensures ReadKey(Nuls(n) + [ESC] + tail) == Some(DecodeEscape(tail))
  {
    var s := [ESC] + tail;
    assert Nuls(n) + [ESC] + tail == Nuls(n) + s;
    SkipNulsPrefix(n, s);
    assert s[1..] == tail;
  }

  /** The key ESC [ d ~ names, for d in 1,3,4,5,6,7,8. */
  function TildeName(d: char): int {
    if d == '1' || d == '7' then HOME_KEY
    else if d == '3' then DEL_KEY
    else if d == '4' || d == '8' then END_KEY
    else if d == '5' then PAGE_UP
    else PAGE_DOWN
  }

  /** The key ESC [ c names, for c in A,B,C,D,H,F. */
  function BracketName(c: char): int {
    if c == 'A' then ARROW_UP
    else if c == 'B' then ARROW_DOWN
    else if c == 'C' then ARROW_RIGHT
    else if c == 'D' then ARROW_LEFT
    else if c == 'H' then HOME_KEY
    else END_KEY
  }

  lemma TildeTail(d: char, rest: seq<int>)
    requires d in "1345678"
    ensures DecodeEscape(['[' as int, d as int, '~' as int] + rest) == TildeName(d)
  {
    var t := ['[' as int, d as int, '~' as int] + rest;
    assert |t| >= 3 && t[0] == '[' as int && t[1] == d as int && t[2] == '~' as int;
    assert d == '1' || d == '3' || d == '4' || d == '5' || d == '6' || d == '7' || d == '8';
    assert IsDigitCode(d as int);
    assert DecodeEscape(t) == TildeKey(d as int).GetOr(ESC);
  }

  lemma BracketTail(c: char, rest: seq<int>)
    requires c in "ABCDHF"
    ensures DecodeEscape(['[' as int, c as int] + rest) == BracketName(c)
  {
    var t := ['[' as int, c as int] + rest;
    assert |t| >= 2 && t[0] == '[' as int && t[1] == c as int;
    assert c == 'A' || c == 'B' || c == 'C' || c == 'D' || c == 'H' || c == 'F';
    assert !IsDigitCode(c as int);
    assert DecodeEscape(t) == BracketKey(c as int).GetOr(ESC);
  }

  /** ESC [ d ~ for d in 1,3,4,5,6,7,8 decodes to Home, Del, End, PageUp,
      PageDown, Home, End, after any run of NULs. */
  lemma DecodeTilde(n: nat, d: char, rest: seq<int>)
    requires d in "1345678"
    ensures ReadKey(Nuls(n) + [ESC] + (['[' as int, d as int, '~' as int] + rest)) == Some(
              if d == '1' || d == '7' then HOME_KEY
              else if d == '3' then DEL_KEY
              else if d == '4' || d == '8' then END_KEY
              else if d == '5' then PAGE_UP
              else PAGE_DOWN)
  {
    ReadEscape(n, ['[' as int, d as int, '~' as int] + rest);
    TildeTail(d, rest);
  }

  /** ESC [ A/B/C/D/H/F decode to Up, Down, Right, Left, Home, End. */
  lemma DecodeBracket(n: nat, c: char, rest: seq<int>)
    requires c in "ABCDHF"
    ensures ReadKey(Nuls(n) + [ESC] + (['[' as int, c as int] + rest)) == Some(
              if c == 'A' then ARROW_UP
              else if c == 'B' then ARROW_DOWN
              else if c == 'C' then ARROW_RIGHT
              else if c == 'D' then ARROW_LEFT
              else if c == 'H' then HOME_KEY
              else END_KEY)
  {
    ReadEscape(n, ['[' as int, c as int] + rest);
    BracketTail(c, rest);
  }

  /** ESC O H and ESC O F decode to Home and End. */
  lemma DecodeO(n: nat, c: char, rest: seq<int>)
    requires c == 'H' || c == 'F'
    ensures ReadKey(Nuls(n) + [ESC] + (['O' as int, c as int] + rest)) ==
            Some(if c == 'H' then HOME_KEY else END_KEY)
  {
    var t := ['O' as int, c as int] + rest;
    ReadEscape(n, t);
    assert |t| >= 2 && t[0] == 'O' as int && t[1] == c as int;
    assert DecodeEscape(t) == OKey(c as int).GetOr(ESC);
  }

  /** The tails after ESC that name a key, stated independently of the decoder. */
  predicate Recognized(tail: seq<int>) {
    |tail| >= 2 &&
    ((tail[0] == '[' as int && tail[1] in BracketLetters) ||
     (tail[0] == '[' as int && |tail| >= 3 && tail[2] == '~' as int && tail[1] in TildeDigits) ||
     (tail[0] == 'O' as int && tail[1] in OLetters))
  }

  const BracketLetters: set<int> := {'A' as int, 'B' as int, 'C' as int, 'D' as int, 'H' as int, 'F' as int}
  const TildeDigits: set<int> := {'1' as int, '3' as int, '4' as int, '5' as int, '6' as int, '7' as int, '8' as int}
  const OLetters: set<int> := {'H' as int, 'F' as int}

  /** ESC followed by fewer than two units, or by any tail that names no key,
      decodes to ESC; a recognised tail never does. */
  lemma DecodeEscapeIsEscExactly(n: nat, tail: seq<int>)
    ensures ReadKey(Nuls(n) + [ESC] + tail) == Some(DecodeEscape(tail))
    ensures DecodeEscape(tail) == ESC <==> !Recognized(tail)
  {
    ReadEscape(n, tail);
  }

  /** A unit other than NUL and ESC is returned unchanged. */
  lemma DecodePlain(n: nat, c: int, rest: seq<int>)
    requires c != 0 && c != ESC
    ensures ReadKey(Nuls(n) + [c] + rest) == Some(c)
  {
    var s := [c] + rest;
    assert Nuls(n) + [c] + rest == Nuls(n) + s;
    SkipNulsPrefix(n, s);
  }
}
