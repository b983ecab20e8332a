# elka.py in Dafny

elka.py draws an animated Christmas tree in a text terminal. Each pass of
its render loop does four things:

- it advances the falling snow;
- it paints a fresh frame: snow, then the canopy, the bulbs, the trunk and
  the ground row, each write clipped to the frame;
- it encodes every row of the frame into text that switches the
  256-colour foreground only where the colour changes;
- it writes the text to the terminal.

This project models that core and proves properties of it:

- `ansi.dfy` (module `Ansi`) has the control strings and `color_fg`. It also
  has a parser for the two colour sequences the encoder emits: the reset,
  and `ESC [ 38 ; 5 ; n m` (ECMA-48 section 8.3.117 with the xterm
  256-colour extension). The parser is the inverse the encoder's round trip
  rests on.
- `scene.dfy` (module `Scene`) has the cells, points, glyphs and palette
  indices of the scene.
- `snow.dfy` (module `Flakes`) has the `Snow` class as a Dafny class with
  the same fields. Its constructor and `Step` update them in place and are
  proved against a pure step function. `SpawnAll` and `StepAll` are the
  loops that create and advance the pool.
- `tree.dfy` (module `Tree`) has `build_tree` as the loops it is. The
  canopy loop is proved against a row-major placement invariant. The trunk
  loop is proved to lay out the 5 by 4 block.
- `encoder.dfy` (module `RowEncoder`) has the row encoder loop. It is proved
  equal to a recursive encoding function, and that function is proved
  invertible by a decoder.
- `compose.dfy` (module `Composer`) paints the frame into an `array2`, one
  method per layer loop. Each method is proved against a painter's model:
  the frame is the blank frame painted with a list of strokes, and each
  cell shows the last stroke that went to it.

The random module, the clock and `math.sin` are not modelled. Their values
enter as parameters:

- a `Respawn` record per flake creation or recycle;
- a `CellDraw` per candidate canopy cell;
- per frame, the rounded wobble of each flake, whether each bulb is above
  the blink threshold, and whether each ground column is a speck.

The ranges the random module guarantees are stated as predicates
(`ValidRespawn`, `ValidCellDraw`).

A recycled flake goes back to row 0 (elka.py line 42). A bulb is lit
when its blink value exceeds 0.55. A canopy cell is filled with
probability 0.85, and a filled cell in an interior canopy row becomes a
bulb with probability 0.10.

## Model

| member | source | states |
|---|---|---|
| Ansi.ColorFg | elka.py:14-15 | `color_fg(code)` starts with `ESC [ 38;5;` and ends with `m` |
| Ansi.Decimal | elka.py:15 | the code's decimal text is non-empty, all digits, and has no leading zero unless the code is 0 |
| Ansi.DigitsValueOfDecimal | elka.py:15 | reading the decimal text back gives the code |
| Ansi.ParseEscape | elka.py:14-17 | a recognised sequence starts with ESC and takes up a non-empty prefix of the text |
| Ansi.ParseColorFg | elka.py:14-15 | the parser reads `color_fg(code)` as colour `code` and consumes exactly its length, whatever follows |
| Ansi.ParseReset | elka.py:17 | the parser reads `RESET` as the default colour and consumes exactly its length |
| Ansi.ParseSgr | elka.py:165-169 | both sequences the encoder emits on a colour change parse back to that colour |
| Ansi.SgrHasOneEsc | elka.py:165-169 | each colour change writes exactly one escape character |
| Scene.SceneGlyphNotEsc | elka.py:24-26 | no glyph the scene draws is the escape character |
| RowEncoder.EncodeLine | elka.py:162-173 | the loop over a row's cells produces exactly that row's encoding |
| RowEncoder.EncodeFrame | elka.py:160-173 | one line per frame row, line i being the encoding of row i |
| RowEncoder.DecodeEncodeFrom | elka.py:164-172 | from any active colour, decoding the encoded cells gives back every glyph and every colour |
| RowEncoder.DecodeEncodeRow | elka.py:160-173 | round trip: an encoded row decodes to the row itself when no glyph is ESC |
| RowEncoder.EscapesFrom | elka.py:164-172 | an encoded row has one escape per colour change plus one for the final reset |
| RowEncoder.EscapesPerRow | elka.py:164-172 | a line has exactly (colour transitions from the default colour) + 1 escapes |
| RowEncoder.EndsWithReset | elka.py:164-172 | from any colour in effect, the encoding of a row ends with `RESET` |
| RowEncoder.LineEndsWithReset | elka.py:172 | every line written for a frame row ends with `RESET`, so no colour carries into the next line |
| RowEncoder.UncolouredRow | elka.py:164-172 | a row whose cells all have colour None encodes to its glyphs followed by `RESET` |
| Flakes.ClampColumn | elka.py:51 | the drawn column lies in [0, w-1]; it is `x + dx` when that is in range, else 0 on the left or w-1 on the right |
| Flakes.Snow.DrawX | elka.py:49-51 | `draw_x` is in the frame for w >= 1 and leaves an in-range column unchanged |
| Flakes.Snow.constructor | elka.py:30-37 | a new flake takes its column, speed, phase, amplitude and glyph from its draw, row `random() * h` and the snow colour; it starts valid |
| Flakes.Snow.Step | elka.py:39-47 | the new state is the step function of the old, and a valid flake stays valid |
| Flakes.StepFalls | elka.py:40-41 | a flake that stays above the bottom falls by exactly `vy * dt` and keeps everything else |
| Flakes.StepRecycles | elka.py:41-47 | a flake reaching row h goes back to row 0 with the drawn column (in [0, w)), speed in [6, 18] and its colour |
| Flakes.StepKeepsValid | elka.py:39-47 | stepping keeps every field in its drawn range and the row below h |
| Flakes.StepKeepsNonNegative | elka.py:40-42 | with non-negative time steps a flake never rises above row 0 |
| Flakes.FallThenRecycle | elka.py:39-47 | a flake at speed 10 on a 30-row canvas is at row 10, then 20, then recycled to row 0 |
| Flakes.SpawnAll | elka.py:106 | one new, distinct flake per draw, each built from its own draw and valid |
| Flakes.StepAll | elka.py:124-125 | every flake is stepped once with its own draw, and valid flakes stay valid |
| Tree.CanopyTop | elka.py:62 | the canopy starts at row 2 or lower, at least `h // 5`, and exactly `h // 5` once h >= 10 |
| Tree.CanopyRows | elka.py:63 | the canopy has between 10 and 18 rows, exactly `h - top - 8` when that is in range |
| Tree.LayoutOf | elka.py:61-63 | centre, top and row count of the canopy, with top >= 2 and rows in [10, 18] |
| Tree.Filled | elka.py:75 | a row has no more filled cells than candidates |
| Tree.FilledRowsBound | elka.py:69-75 | a canopy of n rows has at most n * n filled cells |
| Tree.CandidateInjective | elka.py:70-74 | two candidate cells at the same point are the same (row, index) |
| Tree.PlacedStart | elka.py:65-66 | nothing is placed before the first cell |
| Tree.PlaceCellMembers | elka.py:75-85 | after a visit, a visited cell is a canopy point exactly when its draw is filled and not a bulb, and a bulb exactly when it is filled, won the coin and lies in an interior row |
| Tree.PlaceCellOrder | elka.py:73-85 | after a visit, placed points stay inside the triangle, in row-major order, with bulbs only in interior rows |
| Tree.PlaceCellCount | elka.py:75-85 | after a visit, one point or bulb is placed per filled cell |
| Tree.PlaceCellDraws | elka.py:77-82 | a bulb placed at a cell carries the phase, speed and colour index drawn for that cell |
| Tree.PlaceCell | elka.py:73-85 | visiting a cell keeps all of these |
| Tree.NextRow | elka.py:69-73 | the end of canopy row r is the start of row r + 1 |
| Tree.PlacedAllMembers | elka.py:69-85 | after the loops, every candidate is a canopy point or bulb exactly as its draw says |
| Tree.PlacedAllCount | elka.py:69-85 | after the loops, canopy points plus bulbs equal the filled cells |
| Tree.BuildCanopyRow | elka.py:70-85 | one pass of the inner loop places row r's cells and reaches the start of row r + 1 |
| Tree.BuildCanopy | elka.py:61-85 | the canopy loops visit every candidate cell in row-major order |
| Tree.BuildTrunk | elka.py:87-95 | the trunk has 20 points, point k at column `cx - 2 + k % 5` and row `base + k / 5` |
| Tree.TrunkIsBlock | elka.py:87-95 | the trunk is exactly the 5 by 4 block under the canopy, each cell once |
| Tree.CanopyDisjoint | elka.py:75-85 | no canopy point is also a bulb |
| Tree.FitsScreen | elka.py:61-97 | on any canvas of at least 40 by 20 the whole canopy and trunk are on screen; the ground row is on screen exactly when h != 20 |
| Tree.BuildTree | elka.py:53-98 | canopy points and bulbs are inside the triangle, each candidate is placed exactly as its draw says, every bulb carries the phase, speed and colour index drawn for its own cell, both lists are row-major, their total is the filled-cell count (at most rows * rows), the trunk is the 5 by 4 block, `ground_y = top + rows + 6`, and no two parts overlap |
| Composer.Canvas | elka.py:101-103 | the canvas is at least 40 by 20 and is the measured size when that is larger |
| Composer.Trunc | elka.py:130 | `int()` truncates toward zero |
| Composer.Blank | elka.py:109-110 | a blank frame is h rows of w spaces in the default colour |
| Composer.Paint | elka.py:136-137 | a write inside the frame replaces exactly that cell; a write outside changes nothing |
| Composer.ApplyStrokes | elka.py:127-158 | painting keeps the frame h rows of w cells |
| Composer.ApplyStrokesAt | elka.py:127-158 | later writes win: each cell shows the last write to it, or what was there before |
| Composer.ApplyStrokesAppend | elka.py:129-158 | painting one layer after another is painting them as one list |
| Composer.LastAtAppend | elka.py:129-158 | the later of two layers wins where it writes; elsewhere the earlier shows through |
| Composer.LastAtMissing | elka.py:129-158 | a point no stroke goes to gets no cell |
| Composer.LastAtIndex | elka.py:129-158 | the cell at a point is the last stroke's cell there |
| Composer.LastAtUniform | elka.py:149-151 | when every write to a point uses the same cell, that cell shows |
| Composer.SnowInFrame | elka.py:129-133 | a valid flake whose row is not negative is always drawn inside the frame |
| Composer.Compose | elka.py:127-158 | the composed frame is h rows of w cells |
| Composer.GroundStrokesAt | elka.py:153-158 | the ground writes only its own row, once per column |
| Composer.GroundRow | elka.py:153-158 | an on-screen ground row is exactly the speck draws, a dot in colour 250 or a blank, whatever lay beneath |
| Composer.OffGround | elka.py:153-158 | the ground touches no other row |
| Composer.TrunkOnTop | elka.py:149-151 | a trunk cell off the ground row shows the trunk over snow, canopy and bulbs |
| Composer.BulbOverCanopy | elka.py:139-147 | a bulb off the trunk and ground row shows lit in its palette colour, or dim, over canopy and snow |
| Composer.CanopyOverSnow | elka.py:135-137 | a canopy point that is no bulb or trunk cell shows the canopy glyph over snow |
| Composer.SnowBehind | elka.py:129-133 | where no tree part or ground goes, the frame shows the last flake drawn there, or a blank |
| Composer.BuiltTreeShows | elka.py:135-151 | for a built tree, every on-screen canopy point, bulb and trunk cell shows its own glyph and colour |
| Composer.ApplySceneStrokes | elka.py:127-158 | painting scene glyphs over scene glyphs leaves only scene glyphs |
| Composer.LastAtScene | elka.py:127-158 | the last of a list of scene strokes carries a scene glyph |
| Composer.ComposedGlyphs | elka.py:127-158 | every glyph in a composed frame is a scene glyph |
| Composer.FrameRowRoundTrip | elka.py:160-173 | every row of a composed frame decodes back from its encoded line |
| Composer.Put | elka.py:136-137 | one clipped write to the frame array |
| Composer.PaintNext | elka.py:129-158 | painting one more stroke of a layer is one more clipped write |
| Composer.DrawSnow | elka.py:129-133 | the snow loop leaves the frame as the snow layer painted over it |
| Composer.DrawTree | elka.py:135-137 | the canopy loop leaves the frame as the canopy layer painted over it |
| Composer.DrawBulbs | elka.py:139-147 | the bulb loop leaves the frame as the bulb layer painted over it |
| Composer.DrawTrunk | elka.py:149-151 | the trunk loop leaves the frame as the trunk layer painted over it |
| Composer.DrawGround | elka.py:153-158 | the ground loop leaves the frame as the ground layer painted over it |
| Composer.ComposeInLayers | elka.py:127-158 | the composed frame is the blank frame painted layer by layer in the source's order |
| Composer.ComposeFrame | elka.py:127-158 | the frame array holds the composed frame, h by w |
| Composer.RenderFrame | elka.py:127-173 | one line per frame row, each the encoding of the composed row |
| Composer.RenderTick | elka.py:119-173 | every flake steps with its draw, then each output line encodes the corresponding row of the frame composed from the stepped flakes |

## Left out

- The terminal size query (line 101) is I/O. `Composer.Canvas` takes the measured size as arguments.
- The flake count `int(w * h * 0.015)` (line 105) is floating-point arithmetic. `Flakes.SpawnAll` creates one flake per draw it is given.
- The clock and the frame pacing (lines 112, 119-122, 178) are not modelled. The elapsed time `dt` is a parameter.
- `math.sin` is not modelled: the wobble in `draw_x` (line 50) and the blink value (line 142). The rounded wobble and the outcome of `blink > 0.55` come in as `FrameDraws`. The bound of 2 on the wobble is not modelled.
- The random draws are not modelled (lines 31-36, 43-47, 75-82, 155). Their outcomes are parameters, and their documented ranges are predicates. The probabilities 0.85, 0.10 and 0.4 are represented only by the boolean outcomes they decide.
- The writes to standard output and the flushes (lines 114-115, 175-176, 182-183) are I/O. That includes the `HOME` prefix and the newline join of the lines. The constants are defined; the writes are not.
- The interrupt handling and the `finally` clean-up (lines 179-183) are process lifecycle.
- The `t` parameter of `Snow.step` (line 39) is unused by the source.
- Flakes.Snow.Step: the row arithmetic is exact real arithmetic, not IEEE doubles. Rounding of `y + vy * dt` is not modelled.
- Flakes.Snow.constructor: the row `random() * h` is an exact real product, not a rounded double.
