# Grid tactics units and drag selection, modelled in Dafny

A model of the core of a small grid-based tactics demo:

- **Basic units** (`units/basic.js`). A unit is an immutable `Units.Unit`
  record carrying every field a spawned sprite gets, with the values the
  spawn function assigns.
  Each per-unit method becomes a pure transition function that returns the
  new unit and the method's result:
  - the move to a grid cell, gated by the unit's liveness, its moving flag
    and the canvas bounds;
  - the eight-direction step;
  - the animation frame that carries the drawn position to the target;
  - the damage-radius test (no friendly fire);
  - the damage roll and the hit;
  - the white flash countdown;
  - the combat frame, with its attacker-side cooldown.
- **Drag selection** (`unit_selection.js`). The `UnitSelection` object becomes
  a `Selection.SelectionState` value. The three mouse events become
  functions on it, each taking the point already translated into canvas
  coordinates. The inclusive rectangle intersection test picks the sprites.

Positions are exact `real`s. Grid cells, health, damage and times (in ms)
are `int`s. Colours are a datatype instead of strings. Randomness, the
canvas size and the square root are explicit parameters:
- the random number of a hit is `rand`, or `rolls[i]` for the i-th enemy of
  a combat frame;
- the canvas is a `Movement.Canvas`;
- the distance `UpdateMovement` divides by is a parameter `dist`, with
  `dist >= 0` and `dist * dist` equal to the squared distance.

Distance tests are stated on squared distances. Lemmas prove them equal to
the source's tests on `Math.sqrt`.

Files: `units.dfy` (the record and spawning), `movement.dfy`, `combat.dfy`,
`selection.dfy`, `arith.dfy` (facts about real products), `wrappers.dfy`
(`Option`).

Behaviour of the code that a reader might not expect, and that the model
keeps:
- `isWithinDamageRadius` does not look at the target's health. The combat
  frame checks `enemy.health > 0` itself.
- A new unit starts with `lastDamageTime = 0` and a 1000 ms interval. Its
  first strike is therefore at time 1000 or later, not at time 0
  (`Combat.DuelOpening`).
- Moves are refused for `health <= 0`, not only for `health == 0`.
- Mouse-down paints every previously selected sprite red, whatever colour
  it had before. It does not restore a default colour.

## Model

| member | source | states |
|---|---|---|
| Units.CellOf | units/basic.js:21-22 | the spawn cell is the cell containing the position: `g*gridSize <= pos < (g+1)*gridSize` |
| Units.CellIsUnique | units/basic.js:21-22 | a coordinate lies in exactly one cell, so the spawn cell is determined by the position |
| Units.CreateDefaultUnit | units/basic.js:3-9 | with every spawn parameter left at its default (player 1 at (100, 80), grid 40) the unit stands in cell (2, 2) and is red |
| Units.CreateBasicUnit | units/basic.js:10-41 | a spawned unit is at rest at its position, with its target on that position, in the cell containing it, at full health, never struck, not flashing, and in its team colour |
| Movement.InBoundsIffCellFits | units/basic.js:48-53 | the bounds `0 <= g <= floor(extent/gridSize) - 1` hold exactly when the whole cell `[g*gridSize, (g+1)*gridSize]` lies on the canvas |
| Movement.MoveToGrid | units/basic.js:44-62 | a move succeeds iff the unit is not moving, has health > 0 and the target cell fits on the canvas; a refused move leaves the unit unchanged; a successful move sets the cell, sets the target to the cell's corner and sets the moving flag, and changes nothing else; the new cell is in bounds |
| Movement.MoveLocksUntilArrival | units/basic.js:45-66 | after an accepted move, every further `MoveToGrid` and `MoveInDirection` is refused with no change, and the target stays the one just set |
| Movement.DirectionOffset | units/basic.js:71-102 | exactly the eight direction tokens have an offset; each offset is a neighbour step in {-1,0,1}² other than (0,0); the vertical step is -1 exactly for the tokens naming "up" and +1 exactly for those naming "down", and the horizontal step is -1 exactly for those naming "left" and +1 exactly for those naming "right" |
| Movement.DirectionsAreTheEightNeighbours | units/basic.js:71-102 | the tokens and the eight neighbour offsets correspond one-to-one: distinct tokens give distinct offsets, and every neighbour has a token |
| Movement.MoveInDirection | units/basic.js:65-105 | a moving or dead unit, or an unknown token, gives false with no change; a known token delegates to `MoveToGrid` with the shifted cell; a successful step lands on a neighbouring cell, moving to a smaller row exactly for the tokens naming "up", a larger row exactly for those naming "down", a smaller column exactly for "left" and a larger column exactly for "right" |
| Movement.UpdateMovement | units/basic.js:108-126 | not moving: no change. Within squared distance 4 of the target: snaps exactly onto it and stops. Farther: keeps moving, travels exactly `moveSpeed*dt`, and is left `|dist - moveSpeed*dt|` from the target. Only `x`, `y` and `isMoving` ever change |
| Movement.SnapIsFinal | units/basic.js:109-119 | after the snap the unit sits on its target, no longer moving, and further frames change nothing |
| Movement.ArrivalUnlocksMoves | units/basic.js:115-119 | once the animation has snapped, a live unit accepts a move to any cell that fits on the canvas again |
| Movement.CellStaysOnCanvas | units/basic.js:44-126 | an on-canvas logical cell stays on the canvas through `MoveToGrid`, `MoveInDirection` and `UpdateMovement` |
| Movement.OvershootCanOscillate | units/basic.js:115-125 | the snap threshold does not clamp: with a step of 5, a unit 3 away overshoots to 2 away and comes back to 3 away, still moving |
| Combat.InDamageRadius | units/basic.js:129-137 | units of the same player are never in each other's radius |
| Combat.InDamageRadiusIsDistanceTest | units/basic.js:129-137 | the squared-distance test holds iff the players differ and the Euclidean distance is at most the damage radius |
| Combat.InDamageRadiusSymmetric | units/basic.js:129-137 | between two units with equal radius the test holds both ways or neither |
| Combat.DamageRoll | units/basic.js:141-144 | for a random number in [0,1) and `minDamage <= maxDamage`, the roll lies in `[minDamage, maxDamage]` |
| Combat.DamageRollCoversRange | units/basic.js:141-144 | every amount in `[minDamage, maxDamage]` is rolled for some random number in [0,1) |
| Combat.TakeDamage | units/basic.js:140-161 | returns the attacker's roll as the damage, which lies in the attacker's range; the new health is never negative; it is 0 exactly when the damage reaches the old health, and otherwise the old health minus the damage; the target flashes white for 200 ms; nothing else changes |
| Combat.HitKeepsHealthInRange | units/basic.js:140-161 | with a non-negative damage range, a hit keeps health within `0..maxHealth` and never raises it |
| Combat.FlashTick | units/basic.js:166-171 | a running flash timer counts down by 16, and the original colour comes back when it runs out; with no flash the unit is unchanged; only timer and colour change |
| Combat.FlashCountsDown | units/basic.js:166-171 | while more than 16 ms per frame remain, n frames only subtract 16n from the timer |
| Combat.FlashLastsThirteenFrames | units/basic.js:148-171 | a hit target is still white after 12 frames and has its original colour back after the 13th |
| Combat.StrikeAll | units/basic.js:180-185 | in list order, each enemy in radius with health > 0 takes exactly one hit with its own roll, and every other enemy is untouched; reports whether anything was hit |
| Combat.UpdateCombat | units/basic.js:164-189 | alive iff own health > 0; a dead or cooling-down unit hits nobody; otherwise each target takes one hit; `lastDamageTime` becomes `now` iff the unit struck and at least one target was hit; apart from that, only the flash countdown changes the unit |
| Combat.LastDamageTimeMonotone | units/basic.js:179-186 | with a non-negative interval, `lastDamageTime` never decreases |
| Combat.HealthStaysNonNegative | units/basic.js:155-158 | enemies with non-negative health keep it non-negative through a combat frame |
| Combat.CooldownBlocksRepeat | units/basic.js:179-186 | after a frame at `t1` that hit something, a frame less than `damageInterval` later hits nobody, against any enemy list |
| Combat.CooldownExpires | units/basic.js:179-186 | a frame at least `damageInterval` after the last strike hits every target again |
| Combat.ReadyWithoutTargetStaysReady | units/basic.js:179-186 | when the cooldown has expired but no target is in range, nobody is hit and the cooldown is not restarted |
| Combat.DuelOpening | units/basic.js:164-189 | two spawned opposing units 30 apart: no strike at 999 ms; at 1000 ms one hit takes the opponent to 75..90 health and restarts the cooldown; nothing more at 1500 ms |
| Selection.RectIntersectSymmetric | unit_selection.js:19-26 | the intersection test is symmetric in its two rectangles |
| Selection.RectIntersectIffCommonPoint | unit_selection.js:19-26 | for rectangles of non-negative extent, the test holds iff the closed rectangles share a point |
| Selection.TouchingRectsIntersect | unit_selection.js:19-26 | a rectangle placed flush against the right or left side of another, or meeting it only at its bottom-right or top-left corner, is reported as intersecting it: edges count as inside |
| Selection.SelectionRect | unit_selection.js:56-60 | the selection rectangle has non-negative extent, contains both drag points, and lies inside every rectangle that contains both |
| Selection.SelectionRectSymmetric | unit_selection.js:56-60 | swapping the drag points gives the same rectangle |
| Selection.NewSelection | unit_selection.js:2-11 | a new selection is not dragging and has nothing selected |
| Selection.Paint | unit_selection.js:38 | exactly the sprites at the listed positions take the colour; the others are unchanged |
| Selection.Hits | unit_selection.js:63-68 | the positions of exactly the sprites whose boxes intersect the rectangle, strictly increasing |
| Selection.MouseDown | unit_selection.js:28-40 | starts dragging with start and end at the point; empties the selection; paints every previously selected sprite red and leaves the other sprites alone |
| Selection.MouseMove | unit_selection.js:42-49 | no change unless dragging; while dragging only the drag end changes, to the point |
| Selection.MouseUp | unit_selection.js:51-69 | no change unless dragging; otherwise stops dragging and appends, in list order, exactly the sprites that intersect the selection rectangle; those sprites turn yellow and the others are unchanged |
| Selection.DragFollowsMoves | unit_selection.js:42-49 | during a drag, a sequence of moves changes only the drag end, to the last point |
| Selection.DragGesture | unit_selection.js:28-69 | down, then any moves, then up selects exactly the sprites intersecting the rectangle from the start point to the last point, in list order. Those are yellow, the earlier selection's other sprites are red, and the rest keep their colour |
| Selection.EventsPreserveValid | unit_selection.js:28-69 | every event keeps the selected positions inside the sprite list |

## Left out

- `main.js`: bootstrapping around the kontra library. It calls `update`,
  `move` and `render` of a kontra sprite, which are not part of the shown
  code.
- The kontra `Sprite` constructor and `GameLoop`: foreign library code. A
  unit is a plain record built with the spawn defaults. The kontra velocity
  fields `dx` and `dy` are left out: they are always 0 and the shown code
  never reads them.
- `renderHealthBar`, `renderDamageRadius`, `renderGridHighlight` and
  `UnitSelection.render`: canvas drawing only.
- `initListeners` and the `getBoundingClientRect` coordinate translation: DOM
  plumbing. The events take the already translated point.
- `Math.random`: becomes a parameter in [0,1). `console.log` is left out.
- `Math.sqrt` and floating point: reals are exact. `UpdateMovement` takes
  the square root as the parameter `dist`. The radius test uses squared
  distances, which is equivalent for real numbers.
- Combat.UpdateCombat: enemies are values, not shared objects. An enemy
  listed twice is hit as two independent copies, each from the health it
  had before the frame; in the source both hits land on the one object and
  add up. A hit also takes effect only when the caller stores the returned
  enemy list; the source mutates the enemies in place.
- Combat.StrikeAll: the same value semantics as `Combat.UpdateCombat`;
  each list entry is struck on its own copy.
- Combat.InDamageRadius: its own contract states only the no-friendly-fire
  half. The distance half needs the square root as a witness, so
  `Combat.InDamageRadiusIsDistanceTest` states it.
- `gridSize` is a positive integer and the canvas extent a natural number.
  The source would divide by a zero grid size. It would also accept
  fractional sizes.
- The unit registry, the active keyboard-selection index and the removal of
  dead units: they are not part of the two modelled files.
- The sprites of a selection are their own `Selection.Sprite` records. In
  the source the selection holds references to the same sprite objects the
  game draws. The model refers to them by their positions in the list, so
  a colour change is seen only through the selection's own list.
