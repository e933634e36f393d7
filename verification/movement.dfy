/**
 Grid movement of a basic unit (units/basic.js): the legality check of a
 move to a cell, the eight-direction step, and the per-frame animation that
 carries the drawn position to the target cell.
 */
module Movement {

  import opened Wrappers
  import opened Units
  import RealArith

  /** The drawing surface the unit lives on, in whole pixels. */
  datatype Canvas = Canvas(width: nat, height: nat)

  /** The largest cell index along one axis: floor(extent / gridSize) - 1. */
  function MaxCell(extent: nat, gridSize: GridSize): int {
    extent / gridSize - 1
  }

  /** The bounds check of a move target. */
  predicate InBounds(canvas: Canvas, gridSize: GridSize, gx: int, gy: int) {
    0 <= gx <= MaxCell(canvas.width, gridSize) && 0 <= gy <= MaxCell(canvas.height, gridSize)
  }

  /** Independent reading of the bounds: the whole cell lies on the canvas. */
  predicate CellFits(g: int, gridSize: GridSize, extent: nat) {
    0 <= g && (g + 1) * gridSize <= extent
  }

  lemma {:induction false} InBoundsIffCellFits(canvas: Canvas, gridSize: GridSize, gx: int, gy: int)
    ensures InBounds(canvas, gridSize, gx, gy)
        <==> CellFits(gx, gridSize, canvas.width) && CellFits(gy, gridSize, canvas.height)
  {
    MaxCellIffCellFits(gx, gridSize, canvas.width);
    MaxCellIffCellFits(gy, gridSize, canvas.height);
  }

  lemma MaxCellIffCellFits(g: int, gridSize: GridSize, extent: nat)
    ensures 0 <= g <= MaxCell(extent, gridSize) <==> CellFits(g, gridSize, extent)
  {
    var q := extent / gridSize;
    var rem := extent % gridSize;
    assert extent == q * gridSize + rem && 0 <= rem < gridSize;
    if g + 1 <= q {
      MulMono(g + 1, q, gridSize);
    } else {
      MulMono(q + 1, g + 1, gridSize);
      assert (q + 1) * gridSize == q * gridSize + gridSize;
    }
  }

  lemma MulMono(a: int, b: int, c: nat)
    requires a <= b
    ensures a * c <= b * c
  {
    assert b * c - a * c == (b - a) * c;
  }

  /** Everything but the movement fields is the same in `a` and `b`. */
  predicate OnlyMovementChanged(a: Unit, b: Unit) {
    b.(gridX := a.gridX, gridY := a.gridY, targetX := a.targetX, targetY := a.targetY,
       isMoving := a.isMoving) == a
  }

  /** Command a move to cell (gx, gy). Refused, with the unit unchanged, while
      a move is still animating, when the unit is dead, or when the cell is
      off the canvas; accepted moves update the logical cell at once and start
      the animation towards the cell's corner. */
  function MoveToGrid(u: Unit, canvas: Canvas, gx: int, gy: int): (r: (Unit, bool))
    ensures r.1 <==> !u.isMoving && u.health > 0
                     && CellFits(gx, u.gridSize, canvas.width) && CellFits(gy, u.gridSize, canvas.height)
    ensures !r.1 ==> r.0 == u
    ensures r.1 ==> r.0.gridX == gx && r.0.gridY == gy && r.0.isMoving
    ensures r.1 ==> r.0.targetX == (gx * u.gridSize) as real && r.0.targetY == (gy * u.gridSize) as real
    ensures r.1 ==> InBounds(canvas, r.0.gridSize, r.0.gridX, r.0.gridY)
    ensures OnlyMovementChanged(u, r.0)
  {
    InBoundsIffCellFits(canvas, u.gridSize, gx, gy);
    if u.isMoving || u.health <= 0 then (u, false)
    else if !InBounds(canvas, u.gridSize, gx, gy) then (u, false)
    else
      (u.(gridX := gx, gridY := gy,
          targetX := (gx * u.gridSize) as real, targetY := (gy * u.gridSize) as real,
          isMoving := true), true)
  }

  /** Once a move is accepted, every further command is refused and leaves
      the target untouched until the animation has finished. */
  lemma MoveLocksUntilArrival(u: Unit, canvas: Canvas, gx: int, gy: int, gx2: int, gy2: int, token: string)
    requires MoveToGrid(u, canvas, gx, gy).1
    ensures var v := MoveToGrid(u, canvas, gx, gy).0;
            MoveToGrid(v, canvas, gx2, gy2) == (v, false)
            && MoveInDirection(v, canvas, token) == (v, false)
            && v.targetX == (gx * u.gridSize) as real && v.targetY == (gy * u.gridSize) as real
  {
  }

  /** The eight direction tokens a unit can be stepped with. */
  const DirectionTokens: set<string> :=
    {"up", "down", "left", "right", "up-left", "up-right", "down-left", "down-right"}

  /** The tokens whose name mentions each side. */
  const UpTokens: set<string> := {"up", "up-left", "up-right"}
  const DownTokens: set<string> := {"down", "down-left", "down-right"}
  const LeftTokens: set<string> := {"left", "up-left", "down-left"}
  const RightTokens: set<string> := {"right", "up-right", "down-right"}

  /** A step to one of the eight neighbouring cells. */
  predicate IsNeighbourOffset(d: (int, int)) {
    -1 <= d.0 <= 1 && -1 <= d.1 <= 1 && d != (0, 0)
  }

  /** The cell offset of a direction token; "up" is towards smaller y. */
  function DirectionOffset(token: string): (r: Option<(int, int)>)
    ensures r.Some? <==> token in DirectionTokens
    ensures r.Some? ==> IsNeighbourOffset(r.value)
    // each part of the name moves one cell that way, and only that part does
    ensures r.Some? ==> (r.value.1 == -1 <==> token in UpTokens)
    ensures r.Some? ==> (r.value.1 == 1 <==> token in DownTokens)
    ensures r.Some? ==> (r.value.0 == -1 <==> token in LeftTokens)
    ensures r.Some? ==> (r.value.0 == 1 <==> token in RightTokens)
  {
    if token == "up" then Some((0, -1))
    else if token == "down" then Some((0, 1))
    else if token == "left" then Some((-1, 0))
    else if token == "right" then Some((1, 0))
    else if token == "up-left" then Some((-1, -1))
    else if token == "up-right" then Some((1, -1))
    else if token == "down-left" then Some((-1, 1))
    else if token == "down-right" then Some((1, 1))
    else None
  }

  /** The tokens name the eight neighbours one-to-one: different tokens step
      differently, and every neighbour has a token. */
  lemma DirectionsAreTheEightNeighbours(t1: string, t2: string, d: (int, int))
    ensures t1 in DirectionTokens && t2 in DirectionTokens && t1 != t2
            ==> DirectionOffset(t1) != DirectionOffset(t2)
    ensures IsNeighbourOffset(d) ==> exists t :: t in DirectionTokens && DirectionOffset(t) == Some(d)
  {
    if IsNeighbourOffset(d) {
      var t :=
        if d == (0, -1) then "up" else if d == (0, 1) then "down"
        else if d == (-1, 0) then "left" else if d == (1, 0) then "right"
        else if d == (-1, -1) then "up-left" else if d == (1, -1) then "up-right"
        else if d == (-1, 1) then "down-left" else "down-right";
      assert DirectionOffset(t) == Some(d);
    }
  }

  /** Step one cell in the direction `token` names. Unknown tokens, a moving
      unit and a dead unit are refused with no change; otherwise the move is
      delegated to MoveToGrid. */
  function MoveInDirection(u: Unit, canvas: Canvas, token: string): (r: (Unit, bool))
    ensures u.isMoving || u.health <= 0 || token !in DirectionTokens ==> r == (u, false)
    ensures token in DirectionTokens ==>
              var d := DirectionOffset(token).value;
              r == MoveToGrid(u, canvas, u.gridX + d.0, u.gridY + d.1)
    ensures r.1 ==> IsNeighbourOffset((r.0.gridX - u.gridX, r.0.gridY - u.gridY))
                    && DirectionOffset(token) == Some((r.0.gridX - u.gridX, r.0.gridY - u.gridY))
    // a successful step goes up, down, left or right exactly as the token says
    ensures r.1 ==> (r.0.gridY < u.gridY <==> token in UpTokens)
                    && (r.0.gridY > u.gridY <==> token in DownTokens)
                    && (r.0.gridX < u.gridX <==> token in LeftTokens)
                    && (r.0.gridX > u.gridX <==> token in RightTokens)
  {
    if u.isMoving || u.health <= 0 then (u, false)
    else match DirectionOffset(token)
      case None => (u, false)
      case Some(d) => MoveToGrid(u, canvas, u.gridX + d.0, u.gridY + d.1)
  }

  /** Squared distance from the drawn position to the movement target. */
  function DistToTarget(u: Unit): real {
    SqDist(u.x, u.y, u.targetX, u.targetY)
  }

  /** Only the drawn position and the moving flag differ between `a` and `b`. */
  predicate OnlyPositionChanged(a: Unit, b: Unit) {
    b.(x := a.x, y := a.y, isMoving := a.isMoving) == a
  }

  /** One animation frame of `dt` seconds. `dist` is the Euclidean distance
      to the target, the square root the source computes. Within 2 of the
      target the unit snaps onto it and stops; otherwise it advances
      moveSpeed * dt along the straight line to the target. */
  function UpdateMovement(u: Unit, dt: real, dist: real): (r: Unit)
    requires dist >= 0.0 && dist * dist == DistToTarget(u)
    ensures OnlyPositionChanged(u, r)
    ensures !u.isMoving ==> r == u
    // the snap: exactly onto the target, and the move is over
    ensures u.isMoving && DistToTarget(u) < 4.0 ==>
              r.x == u.targetX && r.y == u.targetY && !r.isMoving
    // the interpolation: still moving, travelled exactly moveSpeed * dt along
    // the line, and the distance left is |dist - moveSpeed * dt|
    ensures u.isMoving && DistToTarget(u) >= 4.0 ==>
              && r.isMoving
              && SqDist(u.x, u.y, r.x, r.y) == (u.moveSpeed * dt) * (u.moveSpeed * dt)
              && DistToTarget(r) == (dist - u.moveSpeed * dt) * (dist - u.moveSpeed * dt)
  {
    RealArith.SquareLt(dist, 2.0);
    if !u.isMoving then u
    else if dist < 2.0 then u.(x := u.targetX, y := u.targetY, isMoving := false)
    else
      var dx := u.targetX - u.x;
      var dy := u.targetY - u.y;
      var step := u.moveSpeed * dt;
      var r := u.(x := u.x + (dx / dist) * step, y := u.y + (dy / dist) * step);
      StepAlongLine(u.x, u.y, u.targetX, u.targetY, dist, step);
      r
  }

  /** Moving `step` along the unit vector towards a point `dist` away. */
  lemma StepAlongLine(x: real, y: real, tx: real, ty: real, dist: real, step: real)
    requires dist > 0.0 && dist * dist == SqDist(x, y, tx, ty)
    ensures var nx := x + ((tx - x) / dist) * step;
            var ny := y + ((ty - y) / dist) * step;
            && SqDist(x, y, nx, ny) == step * step
            && SqDist(nx, ny, tx, ty) == (dist - step) * (dist - step)
  {
    var dx, dy := tx - x, ty - y;
    var k := step / dist;
    var nx := x + (dx / dist) * step;
    var ny := y + (dy / dist) * step;
    assert nx - x == dx * k;
    assert ny - y == dy * k;
    ScaledSqDist(dx, dy, k, dist);
    assert dist * k == step;
    var m := 1.0 - k;
    assert tx - nx == dx * m;
    assert ty - ny == dy * m;
    ScaledSqDist(dx, dy, m, dist);
    assert dist * m == dist - step;
  }

  /** Scaling a vector of length `dist` by `k` gives squared length (dist*k)^2. */
  lemma ScaledSqDist(dx: real, dy: real, k: real, dist: real)
    requires dist * dist == dx * dx + dy * dy
    ensures (dx * k) * (dx * k) + (dy * k) * (dy * k) == (dist * k) * (dist * k)
  {
    calc {
      (dx * k) * (dx * k) + (dy * k) * (dy * k);
      (dx * dx + dy * dy) * (k * k);
      (dist * dist) * (k * k);
      (dist * k) * (dist * k);
    }
  }

  /** After the snap, further frames change nothing. */
  lemma SnapIsFinal(u: Unit, dt: real, dist: real, dt2: real)
    requires dist >= 0.0 && dist * dist == DistToTarget(u)
    requires u.isMoving && DistToTarget(u) < 4.0
    ensures var v := UpdateMovement(u, dt, dist);
            !v.isMoving && DistToTarget(v) == 0.0 && UpdateMovement(v, dt2, 0.0) == v
  {
  }

  /** Arrival unlocks the unit: once the animation has snapped, a live unit
      accepts a move to any cell that fits on the canvas again. */
  lemma ArrivalUnlocksMoves(u: Unit, dt: real, dist: real, canvas: Canvas, gx: int, gy: int)
    requires dist >= 0.0 && dist * dist == DistToTarget(u)
    requires u.isMoving && DistToTarget(u) < 4.0 && u.health > 0
    requires CellFits(gx, u.gridSize, canvas.width) && CellFits(gy, u.gridSize, canvas.height)
    ensures MoveToGrid(UpdateMovement(u, dt, dist), canvas, gx, gy).1
  {
  }

  /** The logical cell never leaves the canvas: moves, steps and animation
      frames all keep an on-canvas cell on the canvas. */
  lemma CellStaysOnCanvas(u: Unit, canvas: Canvas, gx: int, gy: int, token: string, dt: real, dist: real)
    requires InBounds(canvas, u.gridSize, u.gridX, u.gridY)
    ensures var v := MoveToGrid(u, canvas, gx, gy).0; InBounds(canvas, v.gridSize, v.gridX, v.gridY)
    ensures var v := MoveInDirection(u, canvas, token).0; InBounds(canvas, v.gridSize, v.gridX, v.gridY)
    ensures dist >= 0.0 && dist * dist == DistToTarget(u) ==>
              var v := UpdateMovement(u, dt, dist); InBounds(canvas, v.gridSize, v.gridX, v.gridY)
  {
  }

  /** The snap radius is only a tolerance, not a clamp: with a step of 5 a unit
      3 away along an axis overshoots to 2 away on the other side, and then
      back to 3 away, so it keeps moving without ever snapping. */
  lemma OvershootCanOscillate(u: Unit, dt: real)
    requires u.isMoving && u.y == u.targetY && u.x == u.targetX - 3.0
    requires u.moveSpeed * dt == 5.0
    ensures var v := UpdateMovement(u, dt, 3.0);
            && v.isMoving && v.x == u.targetX + 2.0
            && var w := UpdateMovement(v, dt, 2.0);
               w.isMoving && w.x == u.targetX - 3.0 && w.y == u.targetY
  {
    assert DistToTarget(u) == (-3.0) * (-3.0) + 0.0 * 0.0;
    var v := UpdateMovement(u, dt, 3.0);
    assert v.x == u.x + (3.0 / 3.0) * 5.0;
    assert v.y == u.y + (0.0 / 3.0) * 5.0;
    assert DistToTarget(v) == 2.0 * 2.0 + 0.0 * 0.0;
    var w := UpdateMovement(v, dt, 2.0);
    assert w.x == v.x + (-2.0 / 2.0) * 5.0;
    assert w.y == v.y + (0.0 / 2.0) * 5.0;
  }
}
