/** The row encoder of elka.py (lines 160-173): each frame row becomes one
    line of text in which a colour escape precedes a cell only when the
    cell's colour differs from the colour in effect, and a reset ends the
    line. A decoder that tracks the most recent escape recovers the row. */
module RowEncoder {
  import opened Maybe
  import opened Ansi
  import opened Scene

  /** The text for `row` when `current` is the colour already in effect. */
  function EncodeFrom(row: seq<Cell>, current: Option<nat>): string
  {
    if row == [] then Reset
    else
      (if row[0].colour != current then Sgr(row[0].colour) else "")
      + ([row[0].glyph] + EncodeFrom(row[1..], row[0].colour))
  }

  /** The line written for one frame row; no colour is in effect at its start. */
  function EncodeRow(row: seq<Cell>): string {
    EncodeFrom(row, None)
  }

  /** Reads a line back into cells: an escape sequence sets the colour in
      effect, any other character is a cell in that colour. The line must
      leave no colour in effect at its end. */
  function DecodeFrom(s: string, current: Option<nat>): Option<seq<Cell>>
    decreases |s|
  {
    if s == [] then
      if current == None then Some([]) else None
    else if s[0] == Esc then
      match ParseEscape(s)
      case None => None
      case Some((colour, n)) => DecodeFrom(s[n..], colour)
    else
      match DecodeFrom(s[1..], current)
      case None => None
      case Some(cells) => Some([Cell(s[0], current)] + cells)
  }

  function DecodeRow(line: string): Option<seq<Cell>> {
    DecodeFrom(line, None)
  }

  /** A row whose glyphs are all distinct from the escape character. */
  predicate Encodable(row: seq<Cell>) {
    forall k :: 0 <= k < |row| ==> row[k].glyph != Esc
  }

  /** One step of the encoder: the optional escape, the glyph, the rest. */
  lemma EncodeFromCons(row: seq<Cell>, current: Option<nat>)
    requires row != []
    ensures EncodeFrom(row, current)
         == (if row[0].colour != current then Sgr(row[0].colour) else "")
            + ([row[0].glyph] + EncodeFrom(row[1..], row[0].colour))
  {
  }

  lemma DecodeAfterSgr(colour: Option<nat>, body: string, current: Option<nat>)
    ensures DecodeFrom(Sgr(colour) + body, current) == DecodeFrom(body, colour)
  {
    var lead := Sgr(colour);
    ParseSgr(colour, body);
    assert (lead + body)[0] == lead[0];
    assert (lead + body)[|lead|..] == body;
  }

  lemma DecodeGlyph(g: char, tail: string, current: Option<nat>, cells: seq<Cell>)
    requires g != Esc
    requires DecodeFrom(tail, current) == Some(cells)
    ensures DecodeFrom([g] + tail, current) == Some([Cell(g, current)] + cells)
  {
    assert ([g] + tail)[1..] == tail;
  }

  lemma {:induction false} DecodeEncodeFrom(row: seq<Cell>, current: Option<nat>)
    requires Encodable(row)
    ensures DecodeFrom(EncodeFrom(row, current), current) == Some(row)
  {
    if row == [] {
      ParseReset([]);
      assert Reset + [] == Reset;
      assert Reset[|Reset|..] == [];
    } else {
      var cell := row[0];
      var body := [cell.glyph] + EncodeFrom(row[1..], cell.colour);
      DecodeEncodeFrom(row[1..], cell.colour);
      DecodeGlyph(cell.glyph, EncodeFrom(row[1..], cell.colour), cell.colour, row[1..]);
      assert [Cell(cell.glyph, cell.colour)] + row[1..] == row;
      EncodeFromCons(row, current);
      if cell.colour != current {
        DecodeAfterSgr(cell.colour, body, current);
      } else {
        assert EncodeFrom(row, current) == body;
      }
    }
  }

  /** Round trip: decoding an encoded row gives back exactly its cells. */
  lemma DecodeEncodeRow(row: seq<Cell>)
    requires Encodable(row)
    ensures DecodeRow(EncodeRow(row)) == Some(row)
  {
    DecodeEncodeFrom(row, None);
  }

  /** Number of cells whose colour differs from the colour before them. */
  function Transitions(row: seq<Cell>, current: Option<nat>): nat {
    if row == [] then 0
    else (if row[0].colour != current then 1 else 0) + Transitions(row[1..], row[0].colour)
  }

  lemma {:induction false} EscapesFrom(row: seq<Cell>, current: Option<nat>)
    requires Encodable(row)
    ensures CountEsc(EncodeFrom(row, current)) == Transitions(row, current) + 1
  {
    if row == [] {
      SgrHasOneEsc(None);
    } else {
      var cell := row[0];
      var lead := if cell.colour != current then Sgr(cell.colour) else "";
      var tail := EncodeFrom(row[1..], cell.colour);
      assert Encodable(row[1..]);
      EscapesFrom(row[1..], cell.colour);
      EncodeFromCons(row, current);
      CountEscAppend(lead, [cell.glyph] + tail);
      CountEscAppend([cell.glyph], tail);
      assert cell.glyph != Esc;
      assert CountEsc([cell.glyph]) == 0;
      if cell.colour != current {
        SgrHasOneEsc(cell.colour);
      }
    }
  }

  /** Emission rule: a line holds one escape per colour change along the
      row (starting from no colour) plus the trailing reset. */
  lemma EscapesPerRow(row: seq<Cell>)
    requires Encodable(row)
    ensures CountEsc(EncodeRow(row)) == Transitions(row, None) + 1
  {
    EscapesFrom(row, None);
  }

  /** Appending to the front leaves the last n characters alone. */
  lemma SuffixOfAppend(a: string, t: string, n: nat)
    requires n <= |t|
    ensures (a + t)[|a + t| - n..] == t[|t| - n..]
  {
    assert (a + t)[|a + t| - n..] == (a + t)[|a| + (|t| - n)..];
  }

  /** Whatever colour is in effect, the encoding ends with the reset. */
  lemma {:induction false} EndsWithReset(row: seq<Cell>, current: Option<nat>)
    ensures var s := EncodeFrom(row, current);
      |s| >= |Reset| && s[|s| - |Reset|..] == Reset
  {
    if row != [] {
      var tail := EncodeFrom(row[1..], row[0].colour);
      var lead: string := if row[0].colour != current then Sgr(row[0].colour) else "";
      EndsWithReset(row[1..], row[0].colour);
      EncodeFromCons(row, current);
      assert EncodeFrom(row, current) == (lead + [row[0].glyph]) + tail;
      SuffixOfAppend(lead + [row[0].glyph], tail, |Reset|);
    }
  }

  /** Every line the encoder writes for a frame row ends with the reset,
      so no colour carries over into the next line. */
  lemma LineEndsWithReset(row: seq<Cell>)
    ensures var line := EncodeRow(row);
      |line| >= |Reset| && line[|line| - |Reset|..] == Reset
  {
    EndsWithReset(row, None);
  }

  function Glyphs(row: seq<Cell>): (s: string)
    ensures |s| == |row| && forall k :: 0 <= k < |row| ==> s[k] == row[k].glyph
  {
    seq(|row|, k requires 0 <= k < |row| => row[k].glyph)
  }

  /** A row without colour is its glyphs followed by the reset. */
  lemma {:induction false} UncolouredRow(row: seq<Cell>)
    requires forall k :: 0 <= k < |row| ==> row[k].colour == None
    ensures EncodeRow(row) == Glyphs(row) + Reset
  {
    if row != [] {
      var g, rest := row[0].glyph, row[1..];
      UncolouredRow(rest);
      assert EncodeFrom(row, None) == [g] + EncodeFrom(rest, None);
      assert Glyphs(row) == [g] + Glyphs(rest);
      assert [g] + (Glyphs(rest) + Reset) == ([g] + Glyphs(rest)) + Reset;
    }
  }

  /** The cells of row `i` of a frame, left to right. */
  function Row(frame: array2<Cell>, i: nat): (r: seq<Cell>)
    reads frame
    requires i < frame.Length0
    ensures |r| == frame.Length1
    ensures forall j :: 0 <= j < |r| ==> r[j] == frame[i, j]
  {
    seq(frame.Length1, j requires 0 <= j < frame.Length1 reads frame => frame[i, j])
  }

  /** Joining the pieces of a line in the order the encoder appends them. */
  lemma AppendStep(before: string, lead: string, g: char, rest: string)
    ensures before + (lead + ([g] + rest)) == (before + lead + [g]) + rest
  {
  }

  /** The inner loop of the encoder: one row, cell by cell, with the colour
      in effect tracked in `current`. */
  method EncodeLine(row: seq<Cell>) returns (line: string)
    ensures line == EncodeRow(row)
  {
    line := "";
    var current: Option<nat> := None;
    var j := 0;
    while j < |row|
      invariant 0 <= j <= |row|
      invariant line + EncodeFrom(row[j..], current) == EncodeRow(row)
    {
      var cell := row[j];
      ghost var lead := if cell.colour != current then Sgr(cell.colour) else "";
      ghost var before := line;
      assert row[j..][0] == cell && row[j..][1..] == row[j + 1..];
      EncodeFromCons(row[j..], current);
      AppendStep(before, lead, cell.glyph, EncodeFrom(row[j + 1..], cell.colour));
      if cell.colour != current {
        line := line + Sgr(cell.colour);
        current := cell.colour;
      }
      line := line + [cell.glyph];
      j := j + 1;
    }
    assert row[j..] == [];
    line := line + Reset;
  }

  /** The encoding loop of the render loop: one line per frame row. */
  method EncodeFrame(frame: array2<Cell>) returns (lines: seq<string>)
    ensures |lines| == frame.Length0
    ensures forall i :: 0 <= i < |lines| ==> lines[i] == EncodeRow(Row(frame, i))
  {
    lines := [];
    var i := 0;
    while i < frame.Length0
      invariant 0 <= i <= frame.Length0
      invariant |lines| == i
      invariant forall k :: 0 <= k < i ==> lines[k] == EncodeRow(Row(frame, k))
    {
      var line := EncodeLine(Row(frame, i));
      lines := lines + [line];
      i := i + 1;
    }
  }
}
