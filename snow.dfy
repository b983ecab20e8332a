/** The snowflakes of elka.py (class `Snow`, lines 28-51, and the lines of
    the render loop that create and advance them, 106 and 124-125). The
    random draws a flake consumes when it is created or recycled are given
    as a `Respawn` record; the wobble offset, computed in the source from a
    sine, is given as an integer. */
module Flakes {
  import opened Scene

  /** Python's `math.tau` as the double it is. */
  const Tau: real := 6.283185307179586

  /** The column a flake is drawn in: its column moved by the wobble `dx`,
      clamped into `[0, w-1]` (`draw_x`). */
  function ClampColumn(x: int, dx: int, w: int): (c: int)
    ensures w >= 1 ==> 0 <= c < w
    ensures 0 <= x + dx < w ==> c == x + dx
    ensures x + dx < 0 ==> c == 0
    ensures 1 <= w <= x + dx ==> c == w - 1
  {
    Max(0, Min(w - 1, x + dx))
  }

  /** The random draws that (re)initialise a flake: its column, its speed
      in rows per second, its wobble phase and amplitude, and its glyph. */
  datatype Respawn = Respawn(x: int, vy: real, phase: real, wob: real, glyph: char)

  /** The ranges the random module guarantees for those draws. */
  predicate ValidRespawn(d: Respawn, w: int) {
    && 0 <= d.x <= Max(0, w - 1)
    && 6.0 <= d.vy <= 18.0
    && 0.0 <= d.phase <= Tau
    && 0.6 <= d.wob <= 2.0
    && d.glyph in SnowChars
  }

  /** The fields of one flake, as a value. */
  datatype FlakeState = FlakeState(x: int, y: real, vy: real, phase: real, wob: real, glyph: char, col: nat)

  /** A new flake at row `y` made from the draw `d`. */
  function Spawned(d: Respawn, y: real): FlakeState {
    FlakeState(d.x, y, d.vy, d.phase, d.wob, d.glyph, ColSnow)
  }

  /** What every flake keeps true on a `w` by `h` canvas: its column, speed,
      phase, amplitude and glyph lie in the ranges it was drawn from, its
      colour is the snow colour and its row is above the bottom. */
  predicate ValidFlake(s: FlakeState, w: int, h: int) {
    && ValidRespawn(Respawn(s.x, s.vy, s.phase, s.wob, s.glyph), w)
    && s.col == ColSnow
    && s.y < h as real
  }

  /** One tick of a flake (`Snow.step`): the row advances by `vy * dt`;
      on reaching `h` the flake is recycled at row 0 with fresh draws. */
  function StepState(s: FlakeState, dt: real, h: int, d: Respawn): FlakeState {
    var y := s.y + s.vy * dt;
    if y >= h as real then FlakeState(d.x, 0.0, d.vy, d.phase, d.wob, d.glyph, s.col)
    else s.(y := y)
  }

  /** A flake that stays above the bottom falls by exactly `vy * dt` and
      keeps everything else. */
  lemma StepFalls(s: FlakeState, dt: real, h: int, d: Respawn)
    requires s.y + s.vy * dt < h as real
    ensures StepState(s, dt, h, d).y == s.y + s.vy * dt
    ensures StepState(s, dt, h, d) == s.(y := s.y + s.vy * dt)
  {
  }

  /** A flake whose advanced row reaches `h` is recycled: row 0 and the
      column, speed, phase, amplitude and glyph of the draw. */
  lemma StepRecycles(s: FlakeState, dt: real, w: int, h: int, d: Respawn)
    requires ValidRespawn(d, w) && w >= 1
    requires s.y + s.vy * dt >= h as real
    ensures var r := StepState(s, dt, h, d);
      r.y == 0.0 && 0 <= r.x < w && 6.0 <= r.vy <= 18.0 && r.x == d.x && r.col == s.col
  {
  }

  /** Stepping keeps a flake valid, in particular its row stays below `h`. */
  lemma StepKeepsValid(s: FlakeState, dt: real, w: int, h: int, d: Respawn)
    requires ValidFlake(s, w, h) && ValidRespawn(d, w) && h >= 1
    ensures ValidFlake(StepState(s, dt, h, d), w, h)
    ensures StepState(s, dt, h, d).y < h as real
  {
  }

  /** With time moving forward a flake never rises above row 0. */
  lemma StepKeepsNonNegative(s: FlakeState, dt: real, h: int, d: Respawn)
    requires 0.0 <= s.y && 0.0 <= s.vy && 0.0 <= dt
    ensures 0.0 <= StepState(s, dt, h, d).y
  {
  }

  /** A flake falling at 10 rows a second from row 0 of a 30-row canvas is
      at row 10 after one second and recycled to row 0 after two more. */
  lemma FallThenRecycle(s: FlakeState, d: Respawn)
    requires s.y == 0.0 && s.vy == 10.0
    ensures StepState(s, 1.0, 30, d).y == 10.0
    ensures StepState(StepState(s, 1.0, 30, d), 1.0, 30, d).y == 20.0
    ensures StepState(StepState(StepState(s, 1.0, 30, d), 1.0, 30, d), 1.0, 30, d).y == 0.0
  {
  }

  /** A fraction below 1 of a positive height lies below that height. */
  lemma FractionBelow(f: real, h: real)
    requires 0.0 <= f < 1.0 && 0.0 < h
    ensures f * h < h
  {
    assert h - f * h == (1.0 - f) * h;
  }

  class Snow {
    var x: int
    var y: real
    var vy: real
    var phase: real
    var wob: real
    var glyph: char
    var col: nat

    function State(): FlakeState
      reads this
    {
      FlakeState(x, y, vy, phase, wob, glyph, col)
    }

    ghost predicate Valid(w: int, h: int)
      reads this
    {
      ValidFlake(State(), w, h)
    }

    /** `Snow(w, h)`: the row is `random() * h` for a draw `yFrac` in [0, 1). */
    constructor (w: int, h: int, yFrac: real, d: Respawn)
      requires 0.0 <= yFrac < 1.0 && ValidRespawn(d, w)
      ensures State() == Spawned(d, yFrac * h as real)
      ensures h >= 1 ==> Valid(w, h)
    {
      if h >= 1 {
        FractionBelow(yFrac, h as real);
      }
      assert Respawn(d.x, d.vy, d.phase, d.wob, d.glyph) == d;
      x := d.x;
      y := yFrac * h as real;
      vy := d.vy;
      phase := d.phase;
      wob := d.wob;
      glyph := d.glyph;
      col := ColSnow;
    }

    /** `Snow.step`; the draw `d` is used only if the flake is recycled. */
    method Step(dt: real, w: int, h: int, d: Respawn)
      requires ValidRespawn(d, w)
      modifies this
      ensures State() == StepState(old(State()), dt, h, d)
      ensures old(Valid(w, h)) && h >= 1 ==> Valid(w, h)
    {
      y := y + vy * dt;
      if y >= h as real {
        y := 0.0;
        x := d.x;
        vy := d.vy;
        phase := d.phase;
        wob := d.wob;
        glyph := d.glyph;
      }
      if old(Valid(w, h)) && h >= 1 {
        StepKeepsValid(old(State()), dt, w, h, d);
      }
    }

    /** `Snow.draw_x`, with the rounded wobble given as `dx`. */
    function DrawX(dx: int, w: int): (c: int)
      reads this
      ensures w >= 1 ==> 0 <= c < w
      ensures 0 <= x + dx < w ==> c == x + dx
    {
      ClampColumn(x, dx, w)
    }
  }

  /** The states of a list of flakes. */
  function States(flakes: seq<Snow>): (r: seq<FlakeState>)
    reads set f | f in flakes
    ensures |r| == |flakes|
    ensures forall k :: 0 <= k < |flakes| ==> r[k] == flakes[k].State()
  {
    seq(|flakes|, k requires 0 <= k < |flakes| reads set f | f in flakes => flakes[k].State())
  }

  predicate Distinct(flakes: seq<Snow>) {
    forall i, j :: 0 <= i < j < |flakes| ==> flakes[i] != flakes[j]
  }

  /** Creates the pool of flakes at start-up, one new flake per pair of a
      row draw and a respawn draw, in order. */
  method SpawnAll(w: int, h: int, yFracs: seq<real>, draws: seq<Respawn>) returns (flakes: seq<Snow>)
    requires |yFracs| == |draws|
    requires forall k :: 0 <= k < |draws| ==> 0.0 <= yFracs[k] < 1.0 && ValidRespawn(draws[k], w)
    ensures |flakes| == |draws| && Distinct(flakes)
    ensures forall k :: 0 <= k < |flakes| ==> fresh(flakes[k])
    ensures forall k :: 0 <= k < |flakes| ==> flakes[k].State() == Spawned(draws[k], yFracs[k] * h as real)
    ensures h >= 1 ==> forall k :: 0 <= k < |flakes| ==> flakes[k].Valid(w, h)
  {
    flakes := [];
    while |flakes| < |draws|
      invariant |flakes| <= |draws| && Distinct(flakes)
      invariant forall k :: 0 <= k < |flakes| ==> fresh(flakes[k])
      invariant forall k :: 0 <= k < |flakes| ==> flakes[k].State() == Spawned(draws[k], yFracs[k] * h as real)
      invariant h >= 1 ==> forall k :: 0 <= k < |flakes| ==> flakes[k].Valid(w, h)
    {
      var i := |flakes|;
      var s := new Snow(w, h, yFracs[i], draws[i]);
      flakes := flakes + [s];
      assert forall k :: 0 <= k < |flakes| ==> flakes[k].State() == Spawned(draws[k], yFracs[k] * h as real);
    }
  }

  /** Advances every flake of the pool by one tick, in order, each with
      its own respawn draw. */
  method StepAll(flakes: seq<Snow>, dt: real, w: int, h: int, draws: seq<Respawn>)
    requires Distinct(flakes) && |draws| == |flakes|
    requires forall k :: 0 <= k < |draws| ==> ValidRespawn(draws[k], w)
    modifies set f | f in flakes
    ensures forall k :: 0 <= k < |flakes| ==> flakes[k].State() == StepState(old(flakes[k].State()), dt, h, draws[k])
    ensures h >= 1 ==> forall k :: 0 <= k < |flakes| ==> old(flakes[k].Valid(w, h)) ==> flakes[k].Valid(w, h)
  {
    var i := 0;
    while i < |flakes|
      invariant 0 <= i <= |flakes|
      invariant forall k :: 0 <= k < i ==> flakes[k].State() == StepState(old(flakes[k].State()), dt, h, draws[k])
      invariant h >= 1 ==> forall k :: 0 <= k < i ==> old(flakes[k].Valid(w, h)) ==> flakes[k].Valid(w, h)
      invariant forall k :: i <= k < |flakes| ==> flakes[k].State() == old(flakes[k].State())
    {
      flakes[i].Step(dt, w, h, draws[i]);
      i := i + 1;
    }
  }
}
