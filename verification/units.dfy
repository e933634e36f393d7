/**
 The unit record of the grid tactics demo, with the defaults a freshly
 spawned basic unit gets (units/basic.js, createBasicSprite).

 Positions are exact reals, grid cells, health, damage and times (in
 milliseconds) are unbounded integers.
 */
module Units {

  import RealArith

  /** The colours a unit or sprite is painted with. */
  datatype Color = Red | Blue | White | Yellow

  /** Edge length of one grid cell; the source divides by it, so it is positive. */
  type GridSize = n: int | n > 0 witness 40

  datatype Unit = Unit(
    // where the unit is drawn
    x: real, y: real,
    color: Color,
    width: real, height: real,
    // grid movement
    gridSize: GridSize,
    gridX: int, gridY: int,
    targetX: real, targetY: real,
    moveSpeed: real,          // distance per second
    isMoving: bool,
    // combat
    maxHealth: int, health: int,
    damageRadius: real,
    minDamage: int, maxDamage: int,
    lastDamageTime: int,      // milliseconds
    damageInterval: int,      // milliseconds between two strikes of this unit
    playerId: int,
    // visual feedback
    flashTimer: int,          // milliseconds of white flash left
    originalColor: Color)

  /** Player 1 is red, every other player blue. */
  function TeamColor(playerId: int): Color {
    if playerId == 1 then Red else Blue
  }

  /** Squared Euclidean distance between two points. */
  function SqDist(x1: real, y1: real, x2: real, y2: real): (d: real)
    ensures d >= 0.0
  {
    (x1 - x2) * (x1 - x2) + (y1 - y2) * (y1 - y2)
  }

  lemma SqDistSymmetric(x1: real, y1: real, x2: real, y2: real)
    ensures SqDist(x1, y1, x2, y2) == SqDist(x2, y2, x1, y1)
  {
  }

  /** The grid cell, along one axis, that contains a continuous coordinate:
      floor(pos / gridSize). */
  function CellOf(pos: real, gridSize: GridSize): (g: int)
    ensures (g * gridSize) as real <= pos < ((g + 1) * gridSize) as real
  {
    var q := pos / gridSize as real;
    var g := q.Floor;
    assert g as real <= q < g as real + 1.0;
    CellBounds(pos, gridSize as real, q, g);
    g
  }

  /** Multiplying floor(q) <= q < floor(q) + 1 by the positive cell size. */
  lemma CellBounds(pos: real, gs: real, q: real, g: int)
    requires gs > 0.0 && q == pos / gs
    requires g as real <= q < g as real + 1.0
    ensures g as real * gs <= pos < (g as real + 1.0) * gs
  {
    CellLower(pos, gs, q, g);
    CellUpper(pos, gs, q, g);
  }

  lemma CellLower(pos: real, gs: real, q: real, g: int)
    requires gs > 0.0 && q == pos / gs && g as real <= q
    ensures g as real * gs <= pos
  {
    var lo := g as real;
    assert q * gs == pos;
    RealArith.MulNonNeg(q - lo, gs);
    assert (q - lo) * gs == q * gs - lo * gs;
  }

  lemma CellUpper(pos: real, gs: real, q: real, g: int)
    requires gs > 0.0 && q == pos / gs && q < g as real + 1.0
    ensures pos < (g as real + 1.0) * gs
  {
    var lo := g as real;
    assert q * gs == pos;
    var gap := lo + 1.0 - q;
    RealArith.MulPos(gap, gs);
    assert gap * gs == (lo + 1.0) * gs - q * gs;
  }

  /** A basic unit as spawned for `playerId` at (x, y). */
  function CreateBasicUnit(playerId: int, x: real, y: real, gridSize: GridSize): (u: Unit)
    ensures u.x == x && u.y == y && u.playerId == playerId && u.gridSize == gridSize
    // the logical cell is the cell that contains the spawn point
    ensures (u.gridX * gridSize) as real <= x < ((u.gridX + 1) * gridSize) as real
    ensures (u.gridY * gridSize) as real <= y < ((u.gridY + 1) * gridSize) as real
    // at rest: the movement target is the spawn point itself
    ensures !u.isMoving && u.targetX == x && u.targetY == y
    // full health, no flash, never struck
    ensures 0 < u.health == u.maxHealth
    ensures u.minDamage <= u.maxDamage && u.damageInterval > 0 && u.damageRadius > 0.0
    ensures u.flashTimer == 0 && u.lastDamageTime == 0
    ensures u.color == u.originalColor == TeamColor(playerId)
  {
    Unit(
      x := x, y := y,
      color := TeamColor(playerId),
      width := 20.0, height := 20.0,
      gridSize := gridSize,
      gridX := CellOf(x, gridSize), gridY := CellOf(y, gridSize),
      targetX := x, targetY := y,
      moveSpeed := 200.0,
      isMoving := false,
      maxHealth := 100, health := 100,
      damageRadius := 60.0,
      minDamage := 10, maxDamage := 25,
      lastDamageTime := 0,
      damageInterval := 1000,
      playerId := playerId,
      flashTimer := 0,
      originalColor := TeamColor(playerId))
  }

  /** A basic unit spawned with every parameter left at its default:
      player 1 at (100, 80) on a 40-pixel grid. */
  function CreateDefaultUnit(): (u: Unit)
    ensures u == CreateBasicUnit(1, 100.0, 80.0, 40)
    // the default spawn point lies in cell (2, 2) and belongs to the red team
    ensures u.gridX == 2 && u.gridY == 2
    ensures u.color == u.originalColor == Red
  {
    var u := CreateBasicUnit(1, 100.0, 80.0, 40);
    CellIsUnique(100.0, 40, u.gridX, 2);
    CellIsUnique(80.0, 40, u.gridY, 2);
    u
  }

  /** A coordinate lies in exactly one cell along its axis. */
  lemma CellIsUnique(pos: real, gridSize: GridSize, g: int, h: int)
    requires (g * gridSize) as real <= pos < ((g + 1) * gridSize) as real
    requires (h * gridSize) as real <= pos < ((h + 1) * gridSize) as real
    ensures g == h
  {
  }
}
