/** The frame composer of elka.py's render loop (lines 109-158): a blank
    `h` by `w` frame painted with the snow, the canopy, the bulbs, the trunk
    and the ground row, in that order, each write clipped to the frame. The
    pure part describes a frame as a grid of rows and the layers as lists
    of strokes; the methods paint an `array2` cell by cell as the source
    does and are proved to produce that grid. */
module Composer {
  import opened Maybe
  import opened Scene
  import Flakes
  import Tree
  import RowEncoder
  import Ansi

  /** Python's `int()` on a float: truncation toward zero. */
  function Trunc(r: real): (n: int)
    ensures 0.0 <= r ==> n as real <= r < n as real + 1.0
    ensures r < 0.0 ==> n as real - 1.0 < r <= n as real
  {
    if r >= 0.0 then r.Floor else -((-r).Floor)
  }

  /** The canvas the render loop draws on: the measured terminal size with
      floors of 40 columns and 20 rows (lines 101-103). */
  function Canvas(cols: int, lines: int): (size: (nat, nat))
    ensures size.0 >= 40 && size.1 >= 20
    ensures cols >= 40 ==> size.0 == cols
    ensures lines >= 20 ==> size.1 == lines
  {
    (Max(40, cols), Max(20, lines))
  }

  /** A frame as a list of `h` rows of `w` cells. */
  type Grid = seq<seq<Cell>>

  predicate IsGrid(g: Grid, w: int, h: int) {
    |g| == h && forall y :: 0 <= y < h ==> |g[y]| == w
  }

  predicate InBounds(p: Point, w: int, h: int) {
    0 <= p.y < h && 0 <= p.x < w
  }

  /** The empty frame each tick starts from: h rows of w cells, every
      cell a space in the default colour. */
  function Blank(w: nat, h: nat): (g: Grid)
    ensures IsGrid(g, w, h)
    ensures forall y, x :: 0 <= y < h && 0 <= x < w ==> g[y][x] == BlankCell
  {
    seq(h, _ => seq(w, _ => BlankCell))
  }

  /** One write of a layer: the cell that goes to a point. */
  datatype Stroke = Stroke(at: Point, cell: Cell)

  /** A clipped write: the stroke's cell replaces the one at its point when
      the point lies in the frame; outside the frame nothing changes. */
  function Paint(g: Grid, w: int, h: int, s: Stroke): (g': Grid)
    requires IsGrid(g, w, h)
    ensures IsGrid(g', w, h)
    ensures !InBounds(s.at, w, h) ==> g' == g
    ensures forall y, x :: 0 <= y < h && 0 <= x < w ==>
      g'[y][x] == if Point(x, y) == s.at then s.cell else g[y][x]
  {
    if InBounds(s.at, w, h) then g[s.at.y := g[s.at.y][s.at.x := s.cell]] else g
  }

  /** The strokes painted in order, first to last. */
  function ApplyStrokes(g: Grid, w: int, h: int, ss: seq<Stroke>): (g': Grid)
    requires IsGrid(g, w, h)
    ensures IsGrid(g', w, h)
  {
    if ss == [] then g
    else Paint(ApplyStrokes(g, w, h, ss[..|ss| - 1]), w, h, ss[|ss| - 1])
  }

  /** The cell of the last stroke at `p`, if any stroke goes there. */
  function LastAt(ss: seq<Stroke>, p: Point): Option<Cell> {
    if ss == [] then None
    else if ss[|ss| - 1].at == p then Some(ss[|ss| - 1].cell)
    else LastAt(ss[..|ss| - 1], p)
  }

  /** `c` when some stroke landed, `under` otherwise. */
  function Over(c: Option<Cell>, under: Cell): Cell {
    if c.Some? then c.value else under
  }

  /** Layering: after the strokes, each cell in the frame shows the last
      stroke that went to it, or what was there before if none did. */
  lemma {:induction false} ApplyStrokesAt(g: Grid, w: int, h: int, ss: seq<Stroke>, x: int, y: int)
    requires IsGrid(g, w, h) && 0 <= y < h && 0 <= x < w
    ensures ApplyStrokes(g, w, h, ss)[y][x] == Over(LastAt(ss, Point(x, y)), g[y][x])
  {
    if ss != [] {
      ApplyStrokesAt(g, w, h, ss[..|ss| - 1], x, y);
    }
  }

  /** Painting two lists of strokes one after the other is painting their
      concatenation. */
  lemma {:induction false} ApplyStrokesAppend(g: Grid, w: int, h: int, a: seq<Stroke>, b: seq<Stroke>)
    requires IsGrid(g, w, h)
    ensures ApplyStrokes(ApplyStrokes(g, w, h, a), w, h, b) == ApplyStrokes(g, w, h, a + b)
  {
    if b == [] {
      assert a + b == a;
    } else {
      var n := |b| - 1;
      assert (a + b)[..|a + b| - 1] == a + b[..n];
      ApplyStrokesAppend(g, w, h, a, b[..n]);
    }
  }

  /** A later list of strokes wins where it lands; elsewhere the earlier
      one shows through. */
  lemma {:induction false} LastAtAppend(a: seq<Stroke>, b: seq<Stroke>, p: Point)
    ensures LastAt(a + b, p) == if LastAt(b, p).Some? then LastAt(b, p) else LastAt(a, p)
  {
    if b == [] {
      assert a + b == a;
    } else {
      var n := |b| - 1;
      assert (a + b)[..|a + b| - 1] == a + b[..n];
      LastAtAppend(a, b[..n], p);
    }
  }

  /** No stroke to `p`, no cell for `p`. */
  lemma {:induction false} LastAtMissing(ss: seq<Stroke>, p: Point)
    requires forall k :: 0 <= k < |ss| ==> ss[k].at != p
    ensures LastAt(ss, p) == None
  {
    if ss != [] {
      LastAtMissing(ss[..|ss| - 1], p);
    }
  }

  /** The stroke at index `k` is the last one to `p`. */
  lemma {:induction false} LastAtIndex(ss: seq<Stroke>, p: Point, k: int)
    requires 0 <= k < |ss| && ss[k].at == p
    requires forall j :: k < j < |ss| ==> ss[j].at != p
    ensures LastAt(ss, p) == Some(ss[k].cell)
  {
    if k < |ss| - 1 {
      LastAtIndex(ss[..|ss| - 1], p, k);
    }
  }

  /** When every stroke to `p` carries the same cell `c` and there is one,
      `c` is the cell for `p`. */
  lemma {:induction false} LastAtUniform(ss: seq<Stroke>, p: Point, c: Cell, k: int)
    requires 0 <= k < |ss| && ss[k].at == p
    requires forall j :: 0 <= j < |ss| && ss[j].at == p ==> ss[j].cell == c
    ensures LastAt(ss, p) == Some(c)
  {
    if ss[|ss| - 1].at != p {
      LastAtUniform(ss[..|ss| - 1], p, c, k);
    }
  }

  // ---------------------------------------------------------------------
  // The layers, as the render loop paints them.

  /** Where a flake lands: the row `int(s.y)` and the clamped column. */
  function SnowStroke(s: Flakes.FlakeState, dx: int, w: int): Stroke {
    Stroke(Point(Flakes.ClampColumn(s.x, dx, w), Trunc(s.y)), Cell(s.glyph, Some(s.col)))
  }

  function SnowStrokes(flakes: seq<Flakes.FlakeState>, dxs: seq<int>, w: int): (ss: seq<Stroke>)
    requires |dxs| == |flakes|
    ensures |ss| == |flakes|
  {
    seq(|flakes|, k requires 0 <= k < |flakes| => SnowStroke(flakes[k], dxs[k], w))
  }

  /** A valid flake on a canvas at least one column wide is always drawn
      inside the frame. */
  lemma SnowInFrame(s: Flakes.FlakeState, dx: int, w: int, h: int)
    requires Flakes.ValidFlake(s, w, h) && 0.0 <= s.y && w >= 1
    ensures InBounds(SnowStroke(s, dx, w).at, w, h)
  {
    var y := Trunc(s.y);
    assert y as real <= s.y < h as real;
  }

  function TreeStrokes(points: seq<Point>): (ss: seq<Stroke>)
    ensures |ss| == |points|
  {
    seq(|points|, k requires 0 <= k < |points| => Stroke(points[k], TreeCell))
  }

  /** A bulb above the blink threshold is a lit `o` in its palette colour;
      otherwise it is a dim dot. */
  function BulbCell(b: Tree.Bulb, lit: bool): Cell
    requires b.ci < |BulbColours|
  {
    if lit then Cell(BulbLitChar, Some(BulbColours[b.ci])) else DimBulbCell
  }

  predicate ValidBulbs(bulbs: seq<Tree.Bulb>) {
    forall k :: 0 <= k < |bulbs| ==> bulbs[k].ci < |BulbColours|
  }

  function BulbStrokes(bulbs: seq<Tree.Bulb>, lit: seq<bool>): (ss: seq<Stroke>)
    requires |lit| == |bulbs| && ValidBulbs(bulbs)
    ensures |ss| == |bulbs|
  {
    seq(|bulbs|, k requires 0 <= k < |bulbs| => Stroke(bulbs[k].at, BulbCell(bulbs[k], lit[k])))
  }

  function TrunkStrokes(points: seq<Point>): (ss: seq<Stroke>)
    ensures |ss| == |points|
  {
    seq(|points|, k requires 0 <= k < |points| => Stroke(points[k], TrunkCell))
  }

  /** A ground cell: a speck where the draw says so, a blank otherwise. */
  function GroundCell(speck: bool): Cell {
    if speck then GroundSpeckCell else BlankCell
  }

  /** The ground row, drawn across the whole width only when it is on
      screen. */
  function GroundStrokes(groundY: int, w: int, h: int, specks: seq<bool>): (ss: seq<Stroke>)
    requires |specks| == w
  {
    if 0 <= groundY < h then seq(w, x requires 0 <= x < w => Stroke(Point(x, groundY), GroundCell(specks[x])))
    else []
  }

  /** What `build_tree` returned. */
  datatype Scenery = Scenery(tree: seq<Point>, bulbs: seq<Tree.Bulb>, trunk: seq<Point>, groundY: int)

  /** The per-frame values the source computes from the clock and the
      random module: each flake's rounded wobble, whether each bulb is above
      the blink threshold, and whether each ground column is a speck. */
  datatype FrameDraws = FrameDraws(dxs: seq<int>, lit: seq<bool>, specks: seq<bool>)

  predicate Fits(w: int, flakes: seq<Flakes.FlakeState>, sc: Scenery, fd: FrameDraws) {
    && |fd.dxs| == |flakes| && |fd.lit| == |sc.bulbs| && |fd.specks| == w
    && ValidBulbs(sc.bulbs)
  }

  /** Everything painted before the ground row. */
  function Layers(w: int, flakes: seq<Flakes.FlakeState>, sc: Scenery, fd: FrameDraws): seq<Stroke>
    requires Fits(w, flakes, sc, fd)
  {
    SnowStrokes(flakes, fd.dxs, w) + TreeStrokes(sc.tree) + BulbStrokes(sc.bulbs, fd.lit) + TrunkStrokes(sc.trunk)
  }

  function Strokes(w: int, h: int, flakes: seq<Flakes.FlakeState>, sc: Scenery, fd: FrameDraws): seq<Stroke>
    requires Fits(w, flakes, sc, fd)
  {
    Layers(w, flakes, sc, fd) + GroundStrokes(sc.groundY, w, h, fd.specks)
  }

  /** The composed frame. */
  function Compose(w: nat, h: nat, flakes: seq<Flakes.FlakeState>, sc: Scenery, fd: FrameDraws): (g: Grid)
    requires Fits(w, flakes, sc, fd)
    ensures IsGrid(g, w, h)
  {
    ApplyStrokes(Blank(w, h), w, h, Strokes(w, h, flakes, sc, fd))
  }

  // ---------------------------------------------------------------------
  // What the composed frame shows.

  lemma GroundStrokesAt(groundY: int, w: int, h: int, specks: seq<bool>, p: Point)
    requires |specks| == w
    ensures p.y != groundY ==> LastAt(GroundStrokes(groundY, w, h, specks), p) == None
    ensures 0 <= groundY < h && p.y == groundY && 0 <= p.x < w ==>
      LastAt(GroundStrokes(groundY, w, h, specks), p) == Some(GroundCell(specks[p.x]))
  {
    var ss := GroundStrokes(groundY, w, h, specks);
    if p.y != groundY {
      LastAtMissing(ss, p);
    } else if 0 <= groundY < h && 0 <= p.x < w {
      LastAtIndex(ss, p, p.x);
    }
  }

  /** The ground row, when on screen, is exactly the speck draws: a dot in
      colour 250 or a default-colour blank, whatever was under it. */
  lemma GroundRow(w: nat, h: nat, flakes: seq<Flakes.FlakeState>, sc: Scenery, fd: FrameDraws, x: int)
    requires Fits(w, flakes, sc, fd)
    requires 0 <= sc.groundY < h && 0 <= x < w
    ensures Compose(w, h, flakes, sc, fd)[sc.groundY][x] == GroundCell(fd.specks[x])
  {
    var p := Point(x, sc.groundY);
    ApplyStrokesAt(Blank(w, h), w, h, Strokes(w, h, flakes, sc, fd), x, sc.groundY);
    LastAtAppend(Layers(w, flakes, sc, fd), GroundStrokes(sc.groundY, w, h, fd.specks), p);
    GroundStrokesAt(sc.groundY, w, h, fd.specks, p);
  }

  /** Off the ground row a cell shows the last of the snow, canopy, bulb and
      trunk strokes that went to it, or a blank: the ground touches no other
      row. */
  lemma OffGround(w: nat, h: nat, flakes: seq<Flakes.FlakeState>, sc: Scenery, fd: FrameDraws, x: int, y: int)
    requires Fits(w, flakes, sc, fd)
    requires 0 <= y < h && 0 <= x < w && y != sc.groundY
    ensures Compose(w, h, flakes, sc, fd)[y][x] == Over(LastAt(Layers(w, flakes, sc, fd), Point(x, y)), BlankCell)
  {
    var p := Point(x, y);
    ApplyStrokesAt(Blank(w, h), w, h, Strokes(w, h, flakes, sc, fd), x, y);
    LastAtAppend(Layers(w, flakes, sc, fd), GroundStrokes(sc.groundY, w, h, fd.specks), p);
    GroundStrokesAt(sc.groundY, w, h, fd.specks, p);
  }

  /** A trunk point in the frame and off the ground row shows the trunk,
      whatever snow, canopy or bulb was painted there. */
  lemma TrunkOnTop(w: nat, h: nat, flakes: seq<Flakes.FlakeState>, sc: Scenery, fd: FrameDraws, k: int)
    requires Fits(w, flakes, sc, fd) && 0 <= k < |sc.trunk|
    requires InBounds(sc.trunk[k], w, h) && sc.trunk[k].y != sc.groundY
    ensures Compose(w, h, flakes, sc, fd)[sc.trunk[k].y][sc.trunk[k].x] == TrunkCell
  {
    var p := sc.trunk[k];
    var under := SnowStrokes(flakes, fd.dxs, w) + TreeStrokes(sc.tree) + BulbStrokes(sc.bulbs, fd.lit);
    OffGround(w, h, flakes, sc, fd, p.x, p.y);
    LastAtAppend(under, TrunkStrokes(sc.trunk), p);
    LastAtUniform(TrunkStrokes(sc.trunk), p, TrunkCell, k);
  }

  /** A bulb in the frame, off the trunk and the ground row, shows as that
      bulb (lit or dim) over any canopy or snow; bulbs in row-major order
      never share a cell. */
  lemma BulbOverCanopy(w: nat, h: nat, flakes: seq<Flakes.FlakeState>, sc: Scenery, fd: FrameDraws, k: int)
    requires Fits(w, flakes, sc, fd) && 0 <= k < |sc.bulbs|
    requires InBounds(sc.bulbs[k].at, w, h) && sc.bulbs[k].at.y != sc.groundY
    requires sc.bulbs[k].at !in sc.trunk
    requires Tree.RowMajor(Tree.BulbPoints(sc.bulbs))
    ensures Compose(w, h, flakes, sc, fd)[sc.bulbs[k].at.y][sc.bulbs[k].at.x] == BulbCell(sc.bulbs[k], fd.lit[k])
  {
    var p := sc.bulbs[k].at;
    var under := SnowStrokes(flakes, fd.dxs, w) + TreeStrokes(sc.tree);
    var bulbs := BulbStrokes(sc.bulbs, fd.lit);
    OffGround(w, h, flakes, sc, fd, p.x, p.y);
    LastAtAppend(under + bulbs, TrunkStrokes(sc.trunk), p);
    LastAtMissing(TrunkStrokes(sc.trunk), p);
    LastAtAppend(under, bulbs, p);
    forall j | k < j < |bulbs|
      ensures bulbs[j].at != p
    {
      assert Tree.Before(Tree.BulbPoints(sc.bulbs)[k], Tree.BulbPoints(sc.bulbs)[j]);
    }
    LastAtIndex(bulbs, p, k);
  }

  /** A canopy point in the frame that is neither a bulb, the trunk nor on
      the ground row shows the canopy glyph over any snow. */
  lemma CanopyOverSnow(w: nat, h: nat, flakes: seq<Flakes.FlakeState>, sc: Scenery, fd: FrameDraws, k: int)
    requires Fits(w, flakes, sc, fd) && 0 <= k < |sc.tree|
    requires InBounds(sc.tree[k], w, h) && sc.tree[k].y != sc.groundY
    requires sc.tree[k] !in sc.trunk && sc.tree[k] !in Tree.BulbPoints(sc.bulbs)
    ensures Compose(w, h, flakes, sc, fd)[sc.tree[k].y][sc.tree[k].x] == TreeCell
  {
    var p := sc.tree[k];
    var snow := SnowStrokes(flakes, fd.dxs, w);
    var tree := TreeStrokes(sc.tree);
    var bulbs := BulbStrokes(sc.bulbs, fd.lit);
    OffGround(w, h, flakes, sc, fd, p.x, p.y);
    LastAtAppend(snow + tree + bulbs, TrunkStrokes(sc.trunk), p);
    LastAtMissing(TrunkStrokes(sc.trunk), p);
    LastAtAppend(snow + tree, bulbs, p);
    forall j | 0 <= j < |bulbs|
      ensures bulbs[j].at != p
    {
      assert Tree.BulbPoints(sc.bulbs)[j] == sc.bulbs[j].at;
    }
    LastAtMissing(bulbs, p);
    LastAtAppend(snow, tree, p);
    LastAtUniform(tree, p, TreeCell, k);
  }

  /** Where no canopy, bulb, trunk or ground goes, the frame shows the last
      flake drawn there, or a blank. */
  lemma SnowBehind(w: nat, h: nat, flakes: seq<Flakes.FlakeState>, sc: Scenery, fd: FrameDraws, x: int, y: int)
    requires Fits(w, flakes, sc, fd)
    requires 0 <= y < h && 0 <= x < w && y != sc.groundY
    requires Point(x, y) !in sc.tree && Point(x, y) !in Tree.BulbPoints(sc.bulbs) && Point(x, y) !in sc.trunk
    ensures Compose(w, h, flakes, sc, fd)[y][x] == Over(LastAt(SnowStrokes(flakes, fd.dxs, w), Point(x, y)), BlankCell)
  {
    var p := Point(x, y);
    var snow := SnowStrokes(flakes, fd.dxs, w);
    var tree := TreeStrokes(sc.tree);
    var bulbs := BulbStrokes(sc.bulbs, fd.lit);
    OffGround(w, h, flakes, sc, fd, x, y);
    LastAtAppend(snow + tree + bulbs, TrunkStrokes(sc.trunk), p);
    LastAtMissing(TrunkStrokes(sc.trunk), p);
    LastAtAppend(snow + tree, bulbs, p);
    forall j | 0 <= j < |bulbs|
      ensures bulbs[j].at != p
    {
      assert Tree.BulbPoints(sc.bulbs)[j] == sc.bulbs[j].at;
    }
    LastAtMissing(bulbs, p);
    LastAtAppend(snow, tree, p);
    LastAtMissing(tree, p);
  }

  /** For the parts of a built tree, each canopy point, bulb and trunk cell
      inside the frame shows its own glyph and colour, whatever snow fell
      there. */
  lemma BuiltTreeShows(w: nat, h: nat, flakes: seq<Flakes.FlakeState>, sc: Scenery, fd: FrameDraws)
    requires Fits(w, flakes, sc, fd) && Tree.Layered(sc.tree, sc.bulbs, sc.trunk, sc.groundY)
    ensures forall k :: 0 <= k < |sc.tree| && InBounds(sc.tree[k], w, h) ==>
      Compose(w, h, flakes, sc, fd)[sc.tree[k].y][sc.tree[k].x] == TreeCell
    ensures forall k :: 0 <= k < |sc.bulbs| && InBounds(sc.bulbs[k].at, w, h) ==>
      Compose(w, h, flakes, sc, fd)[sc.bulbs[k].at.y][sc.bulbs[k].at.x] == BulbCell(sc.bulbs[k], fd.lit[k])
    ensures forall k :: 0 <= k < |sc.trunk| && InBounds(sc.trunk[k], w, h) ==>
      Compose(w, h, flakes, sc, fd)[sc.trunk[k].y][sc.trunk[k].x] == TrunkCell
  {
    forall k | 0 <= k < |sc.tree| && InBounds(sc.tree[k], w, h)
      ensures Compose(w, h, flakes, sc, fd)[sc.tree[k].y][sc.tree[k].x] == TreeCell
    {
      CanopyOverSnow(w, h, flakes, sc, fd, k);
    }
    forall k | 0 <= k < |sc.bulbs| && InBounds(sc.bulbs[k].at, w, h)
      ensures Compose(w, h, flakes, sc, fd)[sc.bulbs[k].at.y][sc.bulbs[k].at.x] == BulbCell(sc.bulbs[k], fd.lit[k])
    {
      BulbOverCanopy(w, h, flakes, sc, fd, k);
    }
    forall k | 0 <= k < |sc.trunk| && InBounds(sc.trunk[k], w, h)
      ensures Compose(w, h, flakes, sc, fd)[sc.trunk[k].y][sc.trunk[k].x] == TrunkCell
    {
      TrunkOnTop(w, h, flakes, sc, fd, k);
    }
  }

  // ---------------------------------------------------------------------
  // Every composed row survives the row encoder.

  /** Every stroke paints a scene glyph. */
  predicate SceneStrokes(ss: seq<Stroke>) {
    forall k :: 0 <= k < |ss| ==> SceneGlyph(ss[k].cell.glyph)
  }

  lemma {:induction false} ApplySceneStrokes(g: Grid, w: int, h: int, ss: seq<Stroke>, x: int, y: int)
    requires IsGrid(g, w, h) && 0 <= y < h && 0 <= x < w
    requires SceneGlyph(g[y][x].glyph) && SceneStrokes(ss)
    ensures SceneGlyph(ApplyStrokes(g, w, h, ss)[y][x].glyph)
  {
    ApplyStrokesAt(g, w, h, ss, x, y);
    var p := Point(x, y);
    if LastAt(ss, p).Some? {
      LastAtScene(ss, p);
    }
  }

  lemma {:induction false} LastAtScene(ss: seq<Stroke>, p: Point)
    requires SceneStrokes(ss) && LastAt(ss, p).Some?
    ensures SceneGlyph(LastAt(ss, p).value.glyph)
  {
    if ss[|ss| - 1].at != p {
      LastAtScene(ss[..|ss| - 1], p);
    }
  }

  /** Every glyph a frame holds comes from the scene's fixed set, when each
      flake's glyph is one of the snow glyphs. */
  lemma ComposedGlyphs(w: nat, h: nat, flakes: seq<Flakes.FlakeState>, sc: Scenery, fd: FrameDraws, x: int, y: int)
    requires Fits(w, flakes, sc, fd)
    requires forall k :: 0 <= k < |flakes| ==> flakes[k].glyph in SnowChars
    requires 0 <= y < h && 0 <= x < w
    ensures SceneGlyph(Compose(w, h, flakes, sc, fd)[y][x].glyph)
  {
    var ss := Strokes(w, h, flakes, sc, fd);
    forall k | 0 <= k < |ss|
      ensures SceneGlyph(ss[k].cell.glyph)
    {
      var n1 := |flakes|;
      var n2 := n1 + |sc.tree|;
      var n3 := n2 + |sc.bulbs|;
      var n4 := n3 + |sc.trunk|;
      if k < n1 {
        assert ss[k] == SnowStroke(flakes[k], fd.dxs[k], w);
      } else if k < n2 {
        assert ss[k] == Stroke(sc.tree[k - n1], TreeCell);
      } else if k < n3 {
        assert ss[k] == Stroke(sc.bulbs[k - n2].at, BulbCell(sc.bulbs[k - n2], fd.lit[k - n2]));
      } else if k < n4 {
        assert ss[k] == Stroke(sc.trunk[k - n3], TrunkCell);
      } else {
        assert ss[k].cell == GroundCell(fd.specks[k - n4]);
      }
    }
    ApplySceneStrokes(Blank(w, h), w, h, ss, x, y);
  }

  /** Each row of a composed frame decodes back from its encoded line: the
      escapes of the encoder never mix with the scene's glyphs. */
  lemma FrameRowRoundTrip(w: nat, h: nat, flakes: seq<Flakes.FlakeState>, sc: Scenery, fd: FrameDraws, y: int)
    requires Fits(w, flakes, sc, fd)
    requires forall k :: 0 <= k < |flakes| ==> flakes[k].glyph in SnowChars
    requires 0 <= y < h
    ensures RowEncoder.DecodeRow(RowEncoder.EncodeRow(Compose(w, h, flakes, sc, fd)[y])) == Some(Compose(w, h, flakes, sc, fd)[y])
  {
    var row := Compose(w, h, flakes, sc, fd)[y];
    forall x | 0 <= x < |row|
      ensures row[x].glyph != Ansi.Esc
    {
      ComposedGlyphs(w, h, flakes, sc, fd, x, y);
      SceneGlyphNotEsc(row[x].glyph);
    }
    RowEncoder.DecodeEncodeRow(row);
  }

  // ---------------------------------------------------------------------
  // The render loop's frame, painted in place.

  /** The array holds the grid. */
  ghost predicate Shows(frame: array2<Cell>, g: Grid)
    reads frame
  {
    && IsGrid(g, frame.Length1, frame.Length0)
    && forall y, x :: 0 <= y < frame.Length0 && 0 <= x < frame.Length1 ==> frame[y, x] == g[y][x]
  }

  /** One clipped write: the cell is stored only when its point lies
      inside the frame, and dropped otherwise. */
  method Put(frame: array2<Cell>, ghost g: Grid, p: Point, c: Cell)
    requires Shows(frame, g)
    modifies frame
    ensures Shows(frame, Paint(g, frame.Length1, frame.Length0, Stroke(p, c)))
  {
    if 0 <= p.y < frame.Length0 && 0 <= p.x < frame.Length1 {
      frame[p.y, p.x] := c;
    }
  }

  lemma PaintNext(g: Grid, w: int, h: int, ss: seq<Stroke>, k: int)
    requires IsGrid(g, w, h) && 0 <= k < |ss|
    ensures ApplyStrokes(g, w, h, ss[..k + 1]) == Paint(ApplyStrokes(g, w, h, ss[..k]), w, h, ss[k])
  {
    assert ss[..k + 1][..k] == ss[..k];
  }

  /** The snow loop (lines 129-133): each flake whose row `int(y)` is on
      screen is drawn at its wobbled, clamped column. */
  method DrawSnow(frame: array2<Cell>, ghost g: Grid, flakes: seq<Flakes.Snow>, dxs: seq<int>)
    requires Shows(frame, g) && |dxs| == |flakes| && frame.Length1 >= 1
    modifies frame
    ensures Shows(frame, ApplyStrokes(g, frame.Length1, frame.Length0, SnowStrokes(Flakes.States(flakes), dxs, frame.Length1)))
  {
    var w, h := frame.Length1, frame.Length0;
    ghost var ss := SnowStrokes(Flakes.States(flakes), dxs, w);
    var k := 0;
    while k < |flakes|
      invariant 0 <= k <= |flakes|
      invariant ss == SnowStrokes(Flakes.States(flakes), dxs, w)
      invariant Shows(frame, ApplyStrokes(g, w, h, ss[..k]))
    {
      var s := flakes[k];
      var y := Trunc(s.y);
      PaintNext(g, w, h, ss, k);
      if 0 <= y < h {
        var x := s.DrawX(dxs[k], w);
        Put(frame, ApplyStrokes(g, w, h, ss[..k]), Point(x, y), Cell(s.glyph, Some(s.col)));
      }
      k := k + 1;
    }
    assert ss[..|flakes|] == ss;
  }

  /** The canopy loop (lines 135-137). */
  method DrawTree(frame: array2<Cell>, ghost g: Grid, points: seq<Point>)
    requires Shows(frame, g)
    modifies frame
    ensures Shows(frame, ApplyStrokes(g, frame.Length1, frame.Length0, TreeStrokes(points)))
  {
    var w, h := frame.Length1, frame.Length0;
    ghost var ss := TreeStrokes(points);
    var k := 0;
    while k < |points|
      invariant 0 <= k <= |points|
      invariant Shows(frame, ApplyStrokes(g, w, h, ss[..k]))
    {
      PaintNext(g, w, h, ss, k);
      Put(frame, ApplyStrokes(g, w, h, ss[..k]), points[k], TreeCell);
      k := k + 1;
    }
    assert ss[..|points|] == ss;
  }

  /** The bulb loop (lines 139-147); `lit[k]` is whether bulb k's blink
      value is above 0.55 at this frame. */
  method DrawBulbs(frame: array2<Cell>, ghost g: Grid, bulbs: seq<Tree.Bulb>, lit: seq<bool>)
    requires Shows(frame, g) && |lit| == |bulbs| && ValidBulbs(bulbs)
    modifies frame
    ensures Shows(frame, ApplyStrokes(g, frame.Length1, frame.Length0, BulbStrokes(bulbs, lit)))
  {
    var w, h := frame.Length1, frame.Length0;
    ghost var ss := BulbStrokes(bulbs, lit);
    var k := 0;
    while k < |bulbs|
      invariant 0 <= k <= |bulbs|
      invariant Shows(frame, ApplyStrokes(g, w, h, ss[..k]))
    {
      var b := bulbs[k];
      PaintNext(g, w, h, ss, k);
      if lit[k] {
        Put(frame, ApplyStrokes(g, w, h, ss[..k]), b.at, Cell(BulbLitChar, Some(BulbColours[b.ci])));
      } else {
        Put(frame, ApplyStrokes(g, w, h, ss[..k]), b.at, DimBulbCell);
      }
      k := k + 1;
    }
    assert ss[..|bulbs|] == ss;
  }

  /** The trunk loop (lines 149-151). */
  method DrawTrunk(frame: array2<Cell>, ghost g: Grid, points: seq<Point>)
    requires Shows(frame, g)
    modifies frame
    ensures Shows(frame, ApplyStrokes(g, frame.Length1, frame.Length0, TrunkStrokes(points)))
  {
    var w, h := frame.Length1, frame.Length0;
    ghost var ss := TrunkStrokes(points);
    var k := 0;
    while k < |points|
      invariant 0 <= k <= |points|
      invariant Shows(frame, ApplyStrokes(g, w, h, ss[..k]))
    {
      PaintNext(g, w, h, ss, k);
      Put(frame, ApplyStrokes(g, w, h, ss[..k]), points[k], TrunkCell);
      k := k + 1;
    }
    assert ss[..|points|] == ss;
  }

  /** The ground loop (lines 153-158); `specks[x]` is whether column x's
      draw fell below 0.4. */
  method DrawGround(frame: array2<Cell>, ghost g: Grid, groundY: int, specks: seq<bool>)
    requires Shows(frame, g) && |specks| == frame.Length1
    modifies frame
    ensures Shows(frame, ApplyStrokes(g, frame.Length1, frame.Length0, GroundStrokes(groundY, frame.Length1, frame.Length0, specks)))
  {
    var w, h := frame.Length1, frame.Length0;
    ghost var ss := GroundStrokes(groundY, w, h, specks);
    if 0 <= groundY < h {
      var x := 0;
      while x < w
        invariant 0 <= x <= w
        invariant Shows(frame, ApplyStrokes(g, w, h, ss[..x]))
      {
        PaintNext(g, w, h, ss, x);
        if specks[x] {
          frame[groundY, x] := GroundSpeckCell;
        } else {
          frame[groundY, x] := BlankCell;
        }
        x := x + 1;
      }
      assert ss[..w] == ss;
    }
  }

  /** The composed frame is the blank frame painted layer by layer. */
  lemma ComposeInLayers(w: nat, h: nat, flakes: seq<Flakes.FlakeState>, sc: Scenery, fd: FrameDraws)
    requires Fits(w, flakes, sc, fd)
    ensures var blank, snow := Blank(w, h), SnowStrokes(flakes, fd.dxs, w);
      var g1 := ApplyStrokes(blank, w, h, snow);
      var g2 := ApplyStrokes(g1, w, h, TreeStrokes(sc.tree));
      var g3 := ApplyStrokes(g2, w, h, BulbStrokes(sc.bulbs, fd.lit));
      var g4 := ApplyStrokes(g3, w, h, TrunkStrokes(sc.trunk));
      ApplyStrokes(g4, w, h, GroundStrokes(sc.groundY, w, h, fd.specks)) == Compose(w, h, flakes, sc, fd)
  {
    var blank := Blank(w, h);
    var snow := SnowStrokes(flakes, fd.dxs, w);
    var tree := TreeStrokes(sc.tree);
    var bulbs := BulbStrokes(sc.bulbs, fd.lit);
    var trunk := TrunkStrokes(sc.trunk);
    ApplyStrokesAppend(blank, w, h, snow, tree);
    ApplyStrokesAppend(blank, w, h, snow + tree, bulbs);
    ApplyStrokesAppend(blank, w, h, snow + tree + bulbs, trunk);
    ApplyStrokesAppend(blank, w, h, snow + tree + bulbs + trunk, GroundStrokes(sc.groundY, w, h, fd.specks));
  }

  /** Lines 127-158: a fresh blank frame painted with the five layers. */
  method ComposeFrame(w: nat, h: nat, flakes: seq<Flakes.Snow>, sc: Scenery, fd: FrameDraws)
    returns (frame: array2<Cell>)
    requires w >= 1 && Fits(w, Flakes.States(flakes), sc, fd)
    ensures frame.Length0 == h && frame.Length1 == w
    ensures Shows(frame, Compose(w, h, Flakes.States(flakes), sc, fd))
  {
    ghost var states := Flakes.States(flakes);
    ghost var blank := Blank(w, h);
    frame := new Cell[h, w]((_, _) => BlankCell);
    DrawSnow(frame, blank, flakes, fd.dxs);
    ghost var g1 := ApplyStrokes(blank, w, h, SnowStrokes(states, fd.dxs, w));
    DrawTree(frame, g1, sc.tree);
    ghost var g2 := ApplyStrokes(g1, w, h, TreeStrokes(sc.tree));
    DrawBulbs(frame, g2, sc.bulbs, fd.lit);
    ghost var g3 := ApplyStrokes(g2, w, h, BulbStrokes(sc.bulbs, fd.lit));
    DrawTrunk(frame, g3, sc.trunk);
    ghost var g4 := ApplyStrokes(g3, w, h, TrunkStrokes(sc.trunk));
    DrawGround(frame, g4, sc.groundY, fd.specks);
    ComposeInLayers(w, h, states, sc, fd);
    assert states == Flakes.States(flakes);
    assert ApplyStrokes(g4, w, h, GroundStrokes(sc.groundY, w, h, fd.specks)) == Compose(w, h, states, sc, fd);
  }

  /** Lines 127-173: the frame is composed, then each of its rows is
      encoded into one line of text. */
  method RenderFrame(w: nat, h: nat, flakes: seq<Flakes.Snow>, sc: Scenery, fd: FrameDraws)
    returns (lines: seq<string>)
    requires w >= 1 && Fits(w, Flakes.States(flakes), sc, fd)
    ensures |lines| == h
    ensures forall y :: 0 <= y < h ==> lines[y] == RowEncoder.EncodeRow(Compose(w, h, Flakes.States(flakes), sc, fd)[y])
  {
    var frame := ComposeFrame(w, h, flakes, sc, fd);
    lines := RowEncoder.EncodeFrame(frame);
    ghost var g := Compose(w, h, Flakes.States(flakes), sc, fd);
    forall y | 0 <= y < h
      ensures RowEncoder.Row(frame, y) == g[y]
    {
    }
  }

  /** One pass of the render loop (lines 119-173): every flake steps, with
      one respawn draw each, and the new frame is rendered. */
  method RenderTick(w: nat, h: nat, dt: real, flakes: seq<Flakes.Snow>, respawns: seq<Flakes.Respawn>,
                    sc: Scenery, fd: FrameDraws)
    returns (lines: seq<string>)
    requires w >= 1 && Flakes.Distinct(flakes) && |respawns| == |flakes|
    requires forall k :: 0 <= k < |respawns| ==> Flakes.ValidRespawn(respawns[k], w)
    requires Fits(w, Flakes.States(flakes), sc, fd)
    modifies set f | f in flakes
    ensures forall k :: 0 <= k < |flakes| ==>
      flakes[k].State() == Flakes.StepState(old(flakes[k].State()), dt, h, respawns[k])
    ensures |lines| == h
    ensures forall y :: 0 <= y < h ==> lines[y] == RowEncoder.EncodeRow(Compose(w, h, Flakes.States(flakes), sc, fd)[y])
  {
    Flakes.StepAll(flakes, dt, w, h, respawns);
    lines := RenderFrame(w, h, flakes, sc, fd);
  }
}
