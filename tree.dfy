/** The tree geometry of elka.py (`build_tree`, lines 53-98): a centred
    triangular canopy whose row r is 1 + 2r cells wide, bulbs among the
    canopy's interior rows, a 5 by 4 trunk below it and the ground row.
    The random decisions for each candidate canopy cell are given as a
    `CellDraw`, one sequence of them per canopy row: draws[r][i] decides
    cell i of row r. */
module Tree {
  import opened Scene
  import Flakes

  const TrunkHeight: int := 4
  const TrunkWidth: int := 5
  /** Rows per canopy step (`cell`). */
  const CellSize: int := 1

  /** First canopy row: a fifth of the height, at least 2. */
  function CanopyTop(h: int): (top: int)
    ensures top >= 2 && top >= h / 5
    ensures h >= 10 ==> top == h / 5
  {
    Max(2, h / 5)
  }

  /** Number of canopy rows: what is left above the trunk and ground,
      clamped into [10, 18]. */
  function CanopyRows(h: int): (rows: int)
    ensures 10 <= rows <= 18
    ensures 10 <= h - CanopyTop(h) - 8 <= 18 ==> rows == h - CanopyTop(h) - 8
  {
    Min(18, Max(10, h - CanopyTop(h) - 8))
  }

  /** The random decisions for one candidate canopy cell: `random() < 0.85`
      (the cell is filled), `random() < 0.10` (it may become a bulb), and,
      for a bulb, its phase, speed and colour index. */
  datatype CellDraw = CellDraw(fill: bool, coin: bool, phase: real, speed: real, ci: nat)

  /** The ranges the random module guarantees for a bulb's draws. */
  predicate ValidCellDraw(d: CellDraw) {
    0.0 <= d.phase <= Flakes.Tau && 3.0 <= d.speed <= 9.0 && d.ci < |BulbColours|
  }

  datatype Bulb = Bulb(at: Point, phase: real, speed: real, ci: nat)

  function BulbPoints(bulbs: seq<Bulb>): (ps: seq<Point>)
    ensures |ps| == |bulbs| && forall k :: 0 <= k < |bulbs| ==> ps[k] == bulbs[k].at
  {
    seq(|bulbs|, k requires 0 <= k < |bulbs| => bulbs[k].at)
  }

  /** Bulbs may only sit in canopy rows r with 2 < r < rows - 2. */
  predicate InteriorRow(r: int, rows: int) {
    2 < r < rows - 2
  }

  /** A filled cell that does not become a bulb is a canopy point. */
  predicate IsTreeCell(d: CellDraw, r: int, rows: int) {
    d.fill && !(d.coin && InteriorRow(r, rows))
  }

  predicate IsBulbCell(d: CellDraw, r: int, rows: int) {
    d.fill && d.coin && InteriorRow(r, rows)
  }

  /** The canopy's frame of reference: centre column, first row, row count. */
  datatype Layout = Layout(cx: int, top: int, rows: int)

  function LayoutOf(w: int, h: int): (lay: Layout)
    ensures lay.top >= 2 && 10 <= lay.rows <= 18
  {
    Layout(w / 2, CanopyTop(h), CanopyRows(h))
  }

  /** Candidate cell i of canopy row r: row r starts r columns left of
      the centre. */
  function Candidate(lay: Layout, r: int, i: int): Point {
    Point(lay.cx - r + i, lay.top + r)
  }

  /** Inside the triangle: row r of the canopy spans columns
      [cx - r, cx + r]. */
  predicate InCanopy(p: Point, lay: Layout) {
    var r := p.y - lay.top;
    0 <= r < lay.rows && lay.cx - r <= p.x <= lay.cx + r
  }

  /** Row-major order: earlier row, or same row and earlier column. */
  predicate Before(p: Point, q: Point) {
    p.y < q.y || (p.y == q.y && p.x < q.x)
  }

  predicate RowMajor(ps: seq<Point>) {
    forall a, b :: 0 <= a < b < |ps| ==> Before(ps[a], ps[b])
  }

  /** Number of filled cells among one row's draws. */
  function Filled(ds: seq<CellDraw>): (n: nat)
    ensures n <= |ds|
  {
    if ds == [] then 0
    else Filled(ds[..|ds| - 1]) + (if ds[|ds| - 1].fill then 1 else 0)
  }

  /** Number of filled cells over several rows of draws. */
  function FilledRows(dss: seq<seq<CellDraw>>): nat {
    if dss == [] then 0
    else FilledRows(dss[..|dss| - 1]) + Filled(dss[|dss| - 1])
  }

  /** Row r of the canopy has 1 + 2r candidate cells. */
  predicate CanopyShaped(dss: seq<seq<CellDraw>>) {
    forall r :: 0 <= r < |dss| ==> |dss[r]| == 1 + 2 * r
  }

  /** A canopy of n rows has n * n candidate cells, so at most that many
      are filled. */
  lemma {:induction false} FilledRowsBound(dss: seq<seq<CellDraw>>)
    requires CanopyShaped(dss)
    ensures FilledRows(dss) <= |dss| * |dss|
  {
    if dss != [] {
      var n := |dss|;
      FilledRowsBound(dss[..n - 1]);
      assert (n - 1) * (n - 1) + (2 * n - 1) == n * n;
    }
  }

  /** Cell (r', i') is visited before cell (r, i). */
  predicate Visited(r': int, i': int, r: int, i: int) {
    r' < r || (r' == r && i' < i)
  }

  /** Every point placed so far lies in the canopy and before cell (r, i);
      bulbs lie in interior rows and have a valid colour index. */
  predicate PointsBefore(lay: Layout, tree: seq<Point>, bulbs: seq<Bulb>, r: int, i: int) {
    && (forall q :: 0 <= q < |tree| ==>
          InCanopy(tree[q], lay) && Before(tree[q], Candidate(lay, r, i)))
    && (forall q :: 0 <= q < |bulbs| ==>
          InCanopy(bulbs[q].at, lay) && InteriorRow(bulbs[q].at.y - lay.top, lay.rows)
          && bulbs[q].ci < |BulbColours| && Before(bulbs[q].at, Candidate(lay, r, i)))
  }

  /** Each visited candidate cell is a canopy point exactly when its draw
      makes it one, and a bulb exactly when its draw makes it one. */
  predicate MembersUpTo(lay: Layout, draws: seq<seq<CellDraw>>, tree: seq<Point>, bulbs: seq<Bulb>, r: int, i: int)
    requires CanopyShaped(draws)
  {
    && (forall r', i' :: 0 <= r' < |draws| && 0 <= i' <= 2 * r' && Visited(r', i', r, i) ==>
          (Candidate(lay, r', i') in tree <==> IsTreeCell(draws[r'][i'], r', lay.rows)))
    && (forall r', i' :: 0 <= r' < |draws| && 0 <= i' <= 2 * r' && Visited(r', i', r, i) ==>
          (Candidate(lay, r', i') in BulbPoints(bulbs) <==> IsBulbCell(draws[r'][i'], r', lay.rows)))
  }

  /** Bulb `b` sits on candidate cell (r, i) of the canopy and carries the
      phase, speed and colour index drawn for that cell. */
  predicate DrawnBulb(lay: Layout, draws: seq<seq<CellDraw>>, b: Bulb) {
    var r := b.at.y - lay.top;
    var i := b.at.x - lay.cx + r;
    && 0 <= r < |draws| && 0 <= i < |draws[r]|
    && b == Bulb(Candidate(lay, r, i), draws[r][i].phase, draws[r][i].speed, draws[r][i].ci)
  }

  predicate BulbsDrawn(lay: Layout, draws: seq<seq<CellDraw>>, bulbs: seq<Bulb>) {
    forall q :: 0 <= q < |bulbs| ==> DrawnBulb(lay, draws, bulbs[q])
  }

  /** One point or bulb per filled cell visited so far. */
  predicate CountedUpTo(draws: seq<seq<CellDraw>>, tree: seq<Point>, bulbs: seq<Bulb>, r: int, i: int)
    requires 0 <= r <= |draws| && 0 <= i && (r < |draws| ==> i <= |draws[r]|)
  {
    |tree| + |bulbs| == FilledRows(draws[..r]) + if r < |draws| then Filled(draws[r][..i]) else 0
  }

  /** What the canopy loops have built once every cell before (r, i) has
      been visited; (|draws|, 0) stands for the end of the canopy. */
  predicate PlacedUpTo(lay: Layout, draws: seq<seq<CellDraw>>, tree: seq<Point>, bulbs: seq<Bulb>, r: int, i: int)
    requires 0 <= r <= |draws| && 0 <= i && (r < |draws| ==> i <= |draws[r]|)
    requires CanopyShaped(draws)
  {
    && PointsBefore(lay, tree, bulbs, r, i)
    && MembersUpTo(lay, draws, tree, bulbs, r, i)
    && BulbsDrawn(lay, draws, bulbs)
    && RowMajor(tree) && RowMajor(BulbPoints(bulbs))
    && CountedUpTo(draws, tree, bulbs, r, i)
  }

  /** Candidate cells are distinct: the row fixes r, the column then fixes i. */
  lemma CandidateInjective(lay: Layout, r: int, i: int, r': int, i': int)
    requires Candidate(lay, r, i) == Candidate(lay, r', i')
    ensures r == r' && i == i'
  {
  }

  /** The new state after visiting cell (r, i) of the canopy: a bulb, a
      canopy point or nothing is appended, as the cell's draw decides. */
  predicate Visit(lay: Layout, d: CellDraw, r: int, i: int,
                  tree: seq<Point>, bulbs: seq<Bulb>, tree': seq<Point>, bulbs': seq<Bulb>)
  {
    var p := Candidate(lay, r, i);
    if IsBulbCell(d, r, lay.rows) then tree' == tree && bulbs' == bulbs + [Bulb(p, d.phase, d.speed, d.ci)]
    else if IsTreeCell(d, r, lay.rows) then tree' == tree + [p] && bulbs' == bulbs
    else tree' == tree && bulbs' == bulbs
  }

  lemma PlaceCellMembers(lay: Layout, draws: seq<seq<CellDraw>>, tree: seq<Point>, bulbs: seq<Bulb>,
                         tree': seq<Point>, bulbs': seq<Bulb>, r: int, i: int)
    requires CanopyShaped(draws) && |draws| == lay.rows
    requires 0 <= r < |draws| && 0 <= i <= 2 * r
    requires PointsBefore(lay, tree, bulbs, r, i) && MembersUpTo(lay, draws, tree, bulbs, r, i)
    requires Visit(lay, draws[r][i], r, i, tree, bulbs, tree', bulbs')
    ensures MembersUpTo(lay, draws, tree', bulbs', r, i + 1)
  {
    var d, p := draws[r][i], Candidate(lay, r, i);
    assert BulbPoints(bulbs') == BulbPoints(bulbs) + if IsBulbCell(d, r, lay.rows) then [p] else [];
    forall r', i' | 0 <= r' < |draws| && 0 <= i' <= 2 * r' && Visited(r', i', r, i + 1)
      ensures Candidate(lay, r', i') in tree' <==> IsTreeCell(draws[r'][i'], r', lay.rows)
      ensures Candidate(lay, r', i') in BulbPoints(bulbs') <==> IsBulbCell(draws[r'][i'], r', lay.rows)
    {
      if Visited(r', i', r, i) && Candidate(lay, r', i') == p {
        CandidateInjective(lay, r, i, r', i');
      }
    }
  }

  lemma PlaceCellOrder(lay: Layout, d: CellDraw, tree: seq<Point>, bulbs: seq<Bulb>,
                       tree': seq<Point>, bulbs': seq<Bulb>, r: int, i: int)
    requires 0 <= r < lay.rows && 0 <= i <= 2 * r && d.ci < |BulbColours|
    requires PointsBefore(lay, tree, bulbs, r, i) && RowMajor(tree) && RowMajor(BulbPoints(bulbs))
    requires Visit(lay, d, r, i, tree, bulbs, tree', bulbs')
    ensures PointsBefore(lay, tree', bulbs', r, i + 1) && RowMajor(tree') && RowMajor(BulbPoints(bulbs'))
  {
    var p := Candidate(lay, r, i);
    assert BulbPoints(bulbs') == BulbPoints(bulbs) + if IsBulbCell(d, r, lay.rows) then [p] else [];
  }

  lemma PlaceCellCount(lay: Layout, draws: seq<seq<CellDraw>>, tree: seq<Point>, bulbs: seq<Bulb>,
                       tree': seq<Point>, bulbs': seq<Bulb>, r: int, i: int)
    requires 0 <= r < |draws| && 0 <= i < |draws[r]|
    requires CountedUpTo(draws, tree, bulbs, r, i)
    requires Visit(lay, draws[r][i], r, i, tree, bulbs, tree', bulbs')
    ensures CountedUpTo(draws, tree', bulbs', r, i + 1)
  {
    assert draws[r][..i + 1][..i] == draws[r][..i];
  }

  /** A bulb placed at cell (r, i) is made from that cell's draw. */
  lemma PlaceCellDraws(lay: Layout, draws: seq<seq<CellDraw>>, tree: seq<Point>, bulbs: seq<Bulb>,
                       tree': seq<Point>, bulbs': seq<Bulb>, r: int, i: int)
    requires 0 <= r < |draws| && 0 <= i < |draws[r]|
    requires BulbsDrawn(lay, draws, bulbs)
    requires Visit(lay, draws[r][i], r, i, tree, bulbs, tree', bulbs')
    ensures BulbsDrawn(lay, draws, bulbs')
  {
    var d := draws[r][i];
    if IsBulbCell(d, r, lay.rows) {
      var b := Bulb(Candidate(lay, r, i), d.phase, d.speed, d.ci);
      assert b.at.y - lay.top == r && b.at.x - lay.cx + r == i;
      assert DrawnBulb(lay, draws, b);
      assert bulbs' == bulbs + [b];
    }
  }

  /** Visiting cell (r, i) keeps PlacedUpTo. */
  lemma PlaceCell(lay: Layout, draws: seq<seq<CellDraw>>, tree: seq<Point>, bulbs: seq<Bulb>,
                  tree': seq<Point>, bulbs': seq<Bulb>, r: int, i: int)
    requires CanopyShaped(draws) && |draws| == lay.rows
    requires 0 <= r < |draws| && 0 <= i <= 2 * r
    requires ValidCellDraw(draws[r][i])
    requires PlacedUpTo(lay, draws, tree, bulbs, r, i)
    requires Visit(lay, draws[r][i], r, i, tree, bulbs, tree', bulbs')
    ensures PlacedUpTo(lay, draws, tree', bulbs', r, i + 1)
  {
    PlaceCellMembers(lay, draws, tree, bulbs, tree', bulbs', r, i);
    PlaceCellOrder(lay, draws[r][i], tree, bulbs, tree', bulbs', r, i);
    PlaceCellCount(lay, draws, tree, bulbs, tree', bulbs', r, i);
    PlaceCellDraws(lay, draws, tree, bulbs, tree', bulbs', r, i);
  }

  /** Nothing is placed before the first cell. */
  lemma PlacedStart(lay: Layout, draws: seq<seq<CellDraw>>)
    requires CanopyShaped(draws)
    ensures PlacedUpTo(lay, draws, [], [], 0, 0)
  {
    if draws != [] {
      assert draws[0][..0] == [];
    }
  }

  /** The end of row r is the start of row r + 1. */
  lemma NextRow(lay: Layout, draws: seq<seq<CellDraw>>, tree: seq<Point>, bulbs: seq<Bulb>, r: int)
    requires CanopyShaped(draws) && 0 <= r < |draws|
    requires PlacedUpTo(lay, draws, tree, bulbs, r, 2 * r + 1)
    ensures PlacedUpTo(lay, draws, tree, bulbs, r + 1, 0)
  {
    assert draws[..r + 1][..r] == draws[..r];
    assert draws[r][..2 * r + 1] == draws[r];
    if r + 1 < |draws| {
      assert draws[r + 1][..0] == [];
    }
  }

  lemma PlacedAllMembers(lay: Layout, draws: seq<seq<CellDraw>>, tree: seq<Point>, bulbs: seq<Bulb>)
    requires CanopyShaped(draws)
    requires MembersUpTo(lay, draws, tree, bulbs, |draws|, 0)
    ensures forall r, i :: 0 <= r < |draws| && 0 <= i <= 2 * r ==>
      (Candidate(lay, r, i) in tree <==> IsTreeCell(draws[r][i], r, lay.rows))
    ensures forall r, i :: 0 <= r < |draws| && 0 <= i <= 2 * r ==>
      (Candidate(lay, r, i) in BulbPoints(bulbs) <==> IsBulbCell(draws[r][i], r, lay.rows))
  {
  }

  lemma PlacedAllCount(draws: seq<seq<CellDraw>>, tree: seq<Point>, bulbs: seq<Bulb>)
    requires CountedUpTo(draws, tree, bulbs, |draws|, 0)
    ensures |tree| + |bulbs| == FilledRows(draws)
  {
    assert draws[..|draws|] == draws;
  }

  /** One row of the canopy loops (the inner loop, lines 70-85). */
  method BuildCanopyRow(cx: int, top: int, rows: int, draws: seq<seq<CellDraw>>, r: int,
                        tree: seq<Point>, bulbs: seq<Bulb>)
    returns (tree': seq<Point>, bulbs': seq<Bulb>)
    requires |draws| == rows && CanopyShaped(draws) && 0 <= r < rows
    requires forall i :: 0 <= i < |draws[r]| ==> ValidCellDraw(draws[r][i])
    requires PlacedUpTo(Layout(cx, top, rows), draws, tree, bulbs, r, 0)
    ensures PlacedUpTo(Layout(cx, top, rows), draws, tree', bulbs', r + 1, 0)
  {
    ghost var lay := Layout(cx, top, rows);
    var width := 1 + r * 2;
    var y := top + r * CellSize;
    var startX := cx - width / 2;
    tree', bulbs' := tree, bulbs;
    var i := 0;
    while i < width
      invariant 0 <= i <= width
      invariant PlacedUpTo(lay, draws, tree', bulbs', r, i)
    {
      var x := startX + i;
      var d := draws[r][i];
      assert Candidate(lay, r, i) == Point(x, y);
      ghost var oldTree, oldBulbs := tree', bulbs';
      if d.fill {
        if d.coin && 2 < r < rows - 2 {
          bulbs' := bulbs' + [Bulb(Point(x, y), d.phase, d.speed, d.ci)];
        } else {
          tree' := tree' + [Point(x, y)];
        }
      }
      PlaceCell(lay, draws, oldTree, oldBulbs, tree', bulbs', r, i);
      i := i + 1;
    }
    NextRow(lay, draws, tree', bulbs', r);
  }

  /** The canopy loops of `build_tree` (lines 61-85). */
  method BuildCanopy(w: int, h: int, draws: seq<seq<CellDraw>>) returns (treePoints: seq<Point>, bulbs: seq<Bulb>)
    requires |draws| == CanopyRows(h) && CanopyShaped(draws)
    requires forall r, i :: 0 <= r < |draws| && 0 <= i < |draws[r]| ==> ValidCellDraw(draws[r][i])
    ensures PlacedUpTo(LayoutOf(w, h), draws, treePoints, bulbs, |draws|, 0)
  {
    var cx := w / 2;
    var top := Max(2, h / 5);
    var rows := Min(18, Max(10, h - top - 8));
    ghost var lay := Layout(cx, top, rows);
    assert lay == LayoutOf(w, h);
    treePoints, bulbs := [], [];
    PlacedStart(lay, draws);
    var r := 0;
    while r < rows
      invariant 0 <= r <= rows
      invariant PlacedUpTo(lay, draws, treePoints, bulbs, r, 0)
    {
      treePoints, bulbs := BuildCanopyRow(cx, top, rows, draws, r, treePoints, bulbs);
      r := r + 1;
    }
  }

  /** The trunk loops of `build_tree` (lines 87-95): a TrunkWidth by
      TrunkHeight block, row by row, centred on column `cx`. */
  method BuildTrunk(cx: int, baseY: int) returns (trunkPoints: seq<Point>)
    ensures |trunkPoints| == TrunkWidth * TrunkHeight
    ensures forall k :: 0 <= k < |trunkPoints| ==> trunkPoints[k] == Point(cx - 2 + k % 5, baseY + k / 5)
  {
    trunkPoints := [];
    var tr := 0;
    while tr < TrunkHeight
      invariant 0 <= tr <= TrunkHeight && |trunkPoints| == tr * TrunkWidth
      invariant forall q :: 0 <= q < |trunkPoints| ==> trunkPoints[q] == Point(cx - 2 + q % 5, baseY + q / 5)
    {
      var y := baseY + tr;
      var i := 0;
      while i < TrunkWidth
        invariant 0 <= i <= TrunkWidth && |trunkPoints| == tr * TrunkWidth + i
        invariant forall q :: 0 <= q < |trunkPoints| ==> trunkPoints[q] == Point(cx - 2 + q % 5, baseY + q / 5)
      {
        var x := cx - TrunkWidth / 2 + i;
        trunkPoints := trunkPoints + [Point(x, y)];
        i := i + 1;
      }
      tr := tr + 1;
    }
  }

  /** The trunk is exactly the 5 by 4 block of columns [cx-2, cx+2] and rows
      [baseY, baseY+3], each cell once. */
  lemma TrunkIsBlock(trunk: seq<Point>, cx: int, baseY: int)
    requires |trunk| == TrunkWidth * TrunkHeight
    requires forall k :: 0 <= k < |trunk| ==> trunk[k] == Point(cx - 2 + k % 5, baseY + k / 5)
    ensures forall p: Point :: p in trunk <==> cx - 2 <= p.x <= cx + 2 && baseY <= p.y < baseY + TrunkHeight
    ensures forall a, b :: 0 <= a < b < |trunk| ==> trunk[a] != trunk[b]
  {
    forall p: Point | cx - 2 <= p.x <= cx + 2 && baseY <= p.y < baseY + TrunkHeight
      ensures p in trunk
    {
      var k := (p.y - baseY) * 5 + (p.x - cx + 2);
      assert trunk[k] == p;
    }
  }

  /** On the smallest canvas the render loop allows (40 by 20) and any
      larger one, every candidate canopy cell and every trunk cell lies in
      the frame; the ground row is in the frame on every such canvas except
      one exactly 20 rows tall, where it falls one row below the bottom. */
  lemma FitsScreen(w: int, h: int)
    requires w >= 40 && h >= 20
    ensures forall r, i :: 0 <= r < CanopyRows(h) && 0 <= i <= 2 * r ==>
      0 <= Candidate(LayoutOf(w, h), r, i).x < w && 0 <= Candidate(LayoutOf(w, h), r, i).y < h
    ensures 0 <= w / 2 - TrunkWidth / 2 && w / 2 + TrunkWidth / 2 < w
    ensures CanopyTop(h) + CanopyRows(h) + TrunkHeight < h
    ensures (CanopyTop(h) + CanopyRows(h) + 6 < h) <==> h != 20
  {
    var top, rows := CanopyTop(h), CanopyRows(h);
    if h - top - 8 < 10 {
      assert h < 25 && top == 4 && rows == 10;
    } else if h - top - 8 <= 18 {
      assert rows == h - top - 8;
    } else {
      assert rows == 18;
    }
  }

  /** The parts of a built tree keep apart: no canopy point is a bulb or a
      trunk cell, no bulb is a trunk cell, the bulbs are in row-major order
      (so no two share a cell), and everything lies above the ground row. */
  predicate Layered(tree: seq<Point>, bulbs: seq<Bulb>, trunk: seq<Point>, groundY: int) {
    && (forall k :: 0 <= k < |tree| ==> tree[k] !in BulbPoints(bulbs) && tree[k] !in trunk && tree[k].y < groundY)
    && (forall k :: 0 <= k < |bulbs| ==> bulbs[k].at !in trunk && bulbs[k].at.y < groundY)
    && (forall k :: 0 <= k < |trunk| ==> trunk[k].y < groundY)
    && RowMajor(BulbPoints(bulbs))
  }

  /** A canopy cell is either a canopy point or a bulb, never both. */
  lemma CanopyDisjoint(lay: Layout, draws: seq<seq<CellDraw>>, tree: seq<Point>, bulbs: seq<Bulb>)
    requires CanopyShaped(draws) && |draws| == lay.rows
    requires forall k :: 0 <= k < |tree| ==> InCanopy(tree[k], lay)
    requires forall r, i :: 0 <= r < |draws| && 0 <= i <= 2 * r ==>
      (Candidate(lay, r, i) in tree <==> IsTreeCell(draws[r][i], r, lay.rows))
    requires forall r, i :: 0 <= r < |draws| && 0 <= i <= 2 * r ==>
      (Candidate(lay, r, i) in BulbPoints(bulbs) <==> IsBulbCell(draws[r][i], r, lay.rows))
    ensures forall k :: 0 <= k < |tree| ==> tree[k] !in BulbPoints(bulbs)
  {
    forall k | 0 <= k < |tree|
      ensures tree[k] !in BulbPoints(bulbs)
    {
      var p := tree[k];
      var r := p.y - lay.top;
      var i := p.x - lay.cx + r;
      assert Candidate(lay, r, i) == p;
    }
  }

  /** `build_tree(w, h)`. */
  method BuildTree(w: int, h: int, draws: seq<seq<CellDraw>>)
    returns (treePoints: seq<Point>, bulbs: seq<Bulb>, trunkPoints: seq<Point>, groundY: int)
    requires |draws| == CanopyRows(h) && CanopyShaped(draws)
    requires forall r, i :: 0 <= r < |draws| && 0 <= i < |draws[r]| ==> ValidCellDraw(draws[r][i])
    // canopy placement
    ensures forall k :: 0 <= k < |treePoints| ==> InCanopy(treePoints[k], LayoutOf(w, h))
    ensures forall k :: 0 <= k < |bulbs| ==>
      InCanopy(bulbs[k].at, LayoutOf(w, h)) && InteriorRow(bulbs[k].at.y - CanopyTop(h), CanopyRows(h))
      && bulbs[k].ci < |BulbColours|
    ensures forall k :: 0 <= k < |bulbs| ==> DrawnBulb(LayoutOf(w, h), draws, bulbs[k])
    ensures forall r, i :: 0 <= r < CanopyRows(h) && 0 <= i <= 2 * r ==>
      (Candidate(LayoutOf(w, h), r, i) in treePoints <==> IsTreeCell(draws[r][i], r, CanopyRows(h)))
    ensures forall r, i :: 0 <= r < CanopyRows(h) && 0 <= i <= 2 * r ==>
      (Candidate(LayoutOf(w, h), r, i) in BulbPoints(bulbs) <==> IsBulbCell(draws[r][i], r, CanopyRows(h)))
    ensures RowMajor(treePoints) && RowMajor(BulbPoints(bulbs))
    ensures |treePoints| + |bulbs| == FilledRows(draws) <= CanopyRows(h) * CanopyRows(h)
    // trunk and ground
    ensures |trunkPoints| == TrunkWidth * TrunkHeight
    ensures forall k :: 0 <= k < |trunkPoints| ==>
      trunkPoints[k] == Point(w / 2 - 2 + k % 5, CanopyTop(h) + CanopyRows(h) + 1 + k / 5)
    ensures groundY == CanopyTop(h) + CanopyRows(h) + 6
    ensures Layered(treePoints, bulbs, trunkPoints, groundY)
  {
    var cx := w / 2;
    var top := Max(2, h / 5);
    var rows := Min(18, Max(10, h - top - 8));
    treePoints, bulbs := BuildCanopy(w, h, draws);
    PlacedAllMembers(LayoutOf(w, h), draws, treePoints, bulbs);
    CanopyDisjoint(LayoutOf(w, h), draws, treePoints, bulbs);
    PlacedAllCount(draws, treePoints, bulbs);
    FilledRowsBound(draws);
    var baseY := top + rows + 1;
    trunkPoints := BuildTrunk(cx, baseY);
    groundY := baseY + TrunkHeight + 1;
  }
}
