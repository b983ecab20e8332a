/** The values a frame is made of, and the fixed glyphs and palette indices
    of elka.py (lines 19-26, 137, 145, 147, 156-158). */
module Scene {
  import opened Maybe
  import Ansi

  function Max(a: int, b: int): int { if a >= b then a else b }
  function Min(a: int, b: int): int { if a <= b then a else b }

  /** One terminal cell: a glyph and an optional 256-colour palette index
      (None draws in the terminal's default colour). */
  datatype Cell = Cell(glyph: char, colour: Option<nat>)

  /** A canvas coordinate: column x, row y (row 0 at the top). */
  datatype Point = Point(x: int, y: int)

  const ColSnow: nat := 255
  const ColTree: nat := 43
  const ColTrunk: nat := 179
  const BulbColours: seq<nat> := [201, 82, 226, 45, 214, 39]
  /** Colour of an unlit bulb. */
  const ColBulbDim: nat := 240
  /** Colour of a ground speck. */
  const ColGround: nat := 250

  const SnowChars: seq<char> := ['·', '.', '✶', '✳', '❄']
  const TreeChar: char := '×'
  const TrunkChar: char := 'm'
  const BulbLitChar: char := 'o'
  const DotChar: char := '·'

  const BlankCell: Cell := Cell(' ', None)
  const TreeCell: Cell := Cell(TreeChar, Some(ColTree))
  const TrunkCell: Cell := Cell(TrunkChar, Some(ColTrunk))
  const DimBulbCell: Cell := Cell(DotChar, Some(ColBulbDim))
  const GroundSpeckCell: Cell := Cell(DotChar, Some(ColGround))

  /** The glyphs any layer of the scene paints. */
  predicate SceneGlyph(c: char) {
    c in SnowChars || c == TreeChar || c == TrunkChar || c == BulbLitChar || c == DotChar || c == ' '
  }

  /** No scene glyph is the escape character, so a row of scene cells can be
      told apart from the control sequences around it. */
  lemma SceneGlyphNotEsc(c: char)
    requires SceneGlyph(c)
    ensures c != Ansi.Esc
  {
    if c in SnowChars {
      var k :| 0 <= k < |SnowChars| && SnowChars[k] == c;
    }
  }
}
