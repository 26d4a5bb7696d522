/** The coloured output of one drawn row: editorDrawRows writes each
    character of the visible span, preceded by a colour escape whenever the
    character's tag asks for a colour other than the one in force. The stream
    is modelled as pieces (a glyph or a colour switch), and a terminal's
    reading of the stream as the list of glyphs with the colour each is shown in. */
module Paint {
  import opened Util
  import opened Syntax

  datatype Piece = Glyph(c: char) | Color(code: int)

  /** The colour a character with tag hl is drawn in: the terminal's default
      for normal text, the tag's syntax colour otherwise. */
  function ColorFor(hl: uint8): int {
    if hl == HL_NORMAL then DEFAULT else SyntaxToColor(hl)
  }

  /** The colour in force after drawing characters with tags hl, starting
      with the colour current. */
  function LastColor(hl: seq<uint8>, current: int): int {
    if hl == [] then current else ColorFor(hl[|hl| - 1])
  }

  /** The escape switching from colour from to colour to, if they differ. */
  function Switch(from: int, to: int): seq<Piece> {
    if from == to then [] else [Color(to)]
  }

  /** The pieces the draw loop emits for the characters text with tags hl,
      when the colour in force is current. */
  function ColorPieces(text: seq<char>, hl: seq<uint8>, current: int): seq<Piece>
    requires |hl| == |text|
  {
    if text == [] then []
    else
      var n := |text| - 1;
      ColorPieces(text[..n], hl[..n], current) + Switch(LastColor(hl[..n], current), ColorFor(hl[n])) +
      [Glyph(text[n])]
  }

  // ---------------------------------------------------------------------
  // A terminal's reading of the stream

  /** The colour in force after the pieces ps. */
  function ColorAfter(ps: seq<Piece>, current: int): int {
    if ps == [] then current
    else
      match ps[|ps| - 1]
      case Color(k) => k
      case Glyph(_) => ColorAfter(ps[..|ps| - 1], current)
  }

  /** Each glyph of ps with the colour in force when it arrives. */
  function Shown(ps: seq<Piece>, current: int): seq<(char, int)> {
    if ps == [] then []
    else
      var n := |ps| - 1;
      Shown(ps[..n], current) +
      match ps[n]
      case Glyph(c) => [(c, ColorAfter(ps[..n], current))]
      case Color(_) => []
  }

  /** Every escape in ps changes the colour in force. */
  predicate NoRedundantEscape(ps: seq<Piece>, current: int) {
    forall i :: 0 <= i < |ps| && ps[i].Color? ==> ps[i].code != ColorAfter(ps[..i], current)
  }

  /** The characters paired with the colours of their tags. */
  function Colored(text: seq<char>, hl: seq<uint8>): (r: seq<(char, int)>)
    requires |hl| == |text|
    ensures |r| == |text|
    ensures forall i :: 0 <= i < |text| ==> r[i] == (text[i], ColorFor(hl[i]))
  {
    seq(|text|, i requires 0 <= i < |text| => (text[i], ColorFor(hl[i])))
  }

  lemma ShownSwitch(ps: seq<Piece>, from: int, to: int, current: int)
    ensures Shown(ps + Switch(from, to), current) == Shown(ps, current)
    ensures from != to ==> ColorAfter(ps + Switch(from, to), current) == to
    ensures from == to ==> ColorAfter(ps + Switch(from, to), current) == ColorAfter(ps, current)
  {
    if from != to {
      var qs := ps + [Color(to)];
      assert qs[..|qs| - 1] == ps;
    } else {
      assert ps + [] == ps;
    }
  }

  lemma ShownGlyph(ps: seq<Piece>, c: char, current: int)
    ensures Shown(ps + [Glyph(c)], current) == Shown(ps, current) + [(c, ColorAfter(ps, current))]
    ensures ColorAfter(ps + [Glyph(c)], current) == ColorAfter(ps, current)
  {
    var qs := ps + [Glyph(c)];
    assert qs[..|qs| - 1] == ps;
  }

  /** After the row the colour in force is that of its last character. */
  lemma {:induction false} ColorAfterColorPieces(text: seq<char>, hl: seq<uint8>, current: int)
    requires |hl| == |text|
    ensures ColorAfter(ColorPieces(text, hl, current), current) == LastColor(hl, current)
    decreases |text|
  {
    if text != [] {
      var n := |text| - 1;
      var p := ColorPieces(text[..n], hl[..n], current);
      var from, to := LastColor(hl[..n], current), ColorFor(hl[n]);
      ColorAfterColorPieces(text[..n], hl[..n], current);
      ShownSwitch(p, from, to, current);
      ShownGlyph(p + Switch(from, to), text[n], current);
    }
  }

  /** The terminal shows every character of the row, in order, in its tag's
      colour. */
  lemma {:induction false} ShownColorPieces(text: seq<char>, hl: seq<uint8>, current: int)
    requires |hl| == |text|
    ensures Shown(ColorPieces(text, hl, current), current) == Colored(text, hl)
    decreases |text|
  {
    if text != [] {
      var n := |text| - 1;
      var p := ColorPieces(text[..n], hl[..n], current);
      var from, to := LastColor(hl[..n], current), ColorFor(hl[n]);
      var prev := Colored(text[..n], hl[..n]);
      var q := p + Switch(from, to);
      assert Shown(q, current) == prev && ColorAfter(q, current) == to by {
        ShownColorPieces(text[..n], hl[..n], current);
        ColorAfterColorPieces(text[..n], hl[..n], current);
        ShownSwitch(p, from, to, current);
      }
      assert ColorPieces(text, hl, current) == q + [Glyph(text[n])];
      assert Shown(q + [Glyph(text[n])], current) == prev + [(text[n], to)] by {
        ShownGlyph(q, text[n], current);
      }
      assert Colored(text, hl) == prev + [(text[n], to)];
    }
  }

  /** The draw loop never emits an escape that leaves the colour unchanged. */
  lemma {:induction false} ColorPiecesMinimal(text: seq<char>, hl: seq<uint8>, current: int)
    requires |hl| == |text|
    ensures NoRedundantEscape(ColorPieces(text, hl, current), current)
    decreases |text|
  {
    if text != [] {
      var n := |text| - 1;
      var p := ColorPieces(text[..n], hl[..n], current);
      var from, to := LastColor(hl[..n], current), ColorFor(hl[n]);
      var full := p + Switch(from, to) + [Glyph(text[n])];
      ColorPiecesMinimal(text[..n], hl[..n], current);
      ColorAfterColorPieces(text[..n], hl[..n], current);
      forall i | 0 <= i < |full| && full[i].Color?
        ensures full[i].code != ColorAfter(full[..i], current)
      {
        if i < |p| {
          assert full[..i] == p[..i];
        } else {
          assert full[..i] == p;
        }
      }
    }
  }

  // ---------------------------------------------------------------------
  // The bytes written

  /** The escape sequence selecting colour code. */
  function Sgr(code: int): string {
    "\U{1B}[" + DecimalInt(code) + "m"
  }

  /** The text written for one piece. */
  function EmitPiece(p: Piece): string {
    match p
    case Glyph(c) => [c]
    case Color(k) => Sgr(k)
  }

  /** The text written for a stream of pieces. */
  function Emit(ps: seq<Piece>): string {
    if ps == [] then "" else Emit(ps[..|ps| - 1]) + EmitPiece(ps[|ps| - 1])
  }

  lemma EmitSnoc(ps: seq<Piece>, p: Piece)
    ensures Emit(ps + [p]) == Emit(ps) + EmitPiece(p)
  {
    var qs := ps + [p];
    assert qs[..|qs| - 1] == ps;
  }

  /** One more character of the row: the escape for its colour if that
      differs from the colour in force, then the character. */
  lemma EmitColorPiecesStep(text: seq<char>, hl: seq<uint8>, i: int, current: int)
    requires |hl| == |text| && 0 <= i < |text|
    ensures var from, to := LastColor(hl[..i], current), ColorFor(hl[i]);
            Emit(ColorPieces(text[..i + 1], hl[..i + 1], current)) ==
              Emit(ColorPieces(text[..i], hl[..i], current)) + (if from == to then "" else Sgr(to)) + [text[i]] &&
            LastColor(hl[..i + 1], current) == to
  {
    var ps := ColorPieces(text[..i], hl[..i], current);
    var from, to := LastColor(hl[..i], current), ColorFor(hl[i]);
    var sw := Switch(from, to);
    assert text[..i + 1][..i] == text[..i] && hl[..i + 1][..i] == hl[..i];
    assert ColorPieces(text[..i + 1], hl[..i + 1], current) == ps + sw + [Glyph(text[i])];
    if from != to {
      EmitSnoc(ps, Color(to));
    } else {
      assert ps + sw == ps;
    }
    EmitSnoc(ps + sw, Glyph(text[i]));
  }

  /** A run of normal text drawn from the default colour is written as it is,
      without any escape. */
  lemma {:induction false} PlainRun(text: seq<char>, hl: seq<uint8>)
    requires |hl| == |text|
    requires forall i :: 0 <= i < |hl| ==> hl[i] == HL_NORMAL
    ensures Emit(ColorPieces(text, hl, DEFAULT)) == text
    decreases |text|
  {
    if text != [] {
      var n := |text| - 1;
      assert text == text[..n] + [text[n]];
      var p := ColorPieces(text[..n], hl[..n], DEFAULT);
      PlainRun(text[..n], hl[..n]);
      assert LastColor(hl[..n], DEFAULT) == DEFAULT;
      assert ColorPieces(text, hl, DEFAULT) == p + [] + [Glyph(text[n])];
      assert p + [] == p;
      EmitSnoc(p, Glyph(text[n]));
    }
  }
}
