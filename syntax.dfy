/** Highlight tags and their colours: editorUpdateSyntax tags every rendered
    character, editorSyntaxToColor maps a tag to an SGR colour code. */
module Syntax {
  import opened Util

  /** The source keeps tags in a uint8. */
  newtype uint8 = x: int | 0 <= x < 256

  const HL_NORMAL: uint8 := 0
  const HL_NUMBER: uint8 := 1
  const HL_MATCH: uint8 := 2

  const RED: int := 31
  const BLUE: int := 34
  const WHITE: int := 37
  const DEFAULT: int := 39

  /** Tags listed in the colour table get their colour; every other tag,
      HL_NORMAL included, gets WHITE. */
  function SyntaxToColor(hl: uint8): (color: int)
    ensures color == RED <==> hl == HL_NUMBER
    ensures color == BLUE <==> hl == HL_MATCH
    ensures color == WHITE <==> hl != HL_NUMBER && hl != HL_MATCH
  {
    if hl == HL_NUMBER then RED
    else if hl == HL_MATCH then BLUE
    else WHITE
  }

  /** The tags editorUpdateSyntax computes for a render: one per character,
      HL_NUMBER exactly on the decimal digits and HL_NORMAL elsewhere. */
  function HighlightsOf(render: seq<char>): (hl: seq<uint8>)
    ensures |hl| == |render|
    ensures forall i :: 0 <= i < |render| ==> (hl[i] == HL_NUMBER <==> IsDigit(render[i]))
    ensures forall i :: 0 <= i < |render| ==> (hl[i] == HL_NORMAL <==> !IsDigit(render[i]))
  {
    seq(|render|, i requires 0 <= i < |render| => if IsDigit(render[i]) then HL_NUMBER else HL_NORMAL)
  }

  /** editorUpdateSyntax: fills a fresh tag array, one slot per rendered character. */
  method UpdateSyntax(render: seq<char>) returns (hl: seq<uint8>)
    ensures hl == HighlightsOf(render)
  {
    var a := new uint8[|render|];
    for i := 0 to |render|
      invariant forall k :: 0 <= k < i ==> a[k] == HighlightsOf(render)[k]
    {
      if IsDigit(render[i]) {
        a[i] := HL_NUMBER;
      } else {
        a[i] := HL_NORMAL;
      }
    }
    hl := a[..];
  }
}
