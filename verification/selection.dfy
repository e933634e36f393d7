/**
 Drag-rectangle selection (unit_selection.js): a mouse-down starts a drag
 at a point, mouse-moves follow it, and the mouse-up selects every sprite
 whose box touches the rectangle spanned by the drag.

 Points are already translated into canvas coordinates. The selected sprites
 are kept as positions in the sprite list, which is how a value model refers
 to the sprite objects the source keeps.
 */
module Selection {

  import opened Units

  datatype Point = Point(x: real, y: real)

  /** An axis-aligned rectangle: corner (x, y), extent width by height. */
  datatype Rect = Rect(x: real, y: real, width: real, height: real)

  /** The part of a sprite the selection looks at: its box and its colour. */
  datatype Sprite = Sprite(x: real, y: real, width: real, height: real, color: Color)

  function Box(s: Sprite): Rect {
    Rect(s.x, s.y, s.width, s.height)
  }

  /** The closed rectangle contains the point, edges included. */
  predicate Contains(r: Rect, p: Point) {
    r.x <= p.x <= r.x + r.width && r.y <= p.y <= r.y + r.height
  }

  predicate NonNegative(r: Rect) {
    r.width >= 0.0 && r.height >= 0.0
  }

  /** Two rectangles intersect unless one lies wholly to one side of the
      other; rectangles that only touch intersect. */
  predicate RectIntersect(r1: Rect, r2: Rect) {
    !(r2.x > r1.x + r1.width
      || r2.x + r2.width < r1.x
      || r2.y > r1.y + r1.height
      || r2.y + r2.height < r1.y)
  }

  /** The test does not depend on the order of its arguments. */
  lemma RectIntersectSymmetric(r1: Rect, r2: Rect)
    ensures RectIntersect(r1, r2) == RectIntersect(r2, r1)
  {
  }

  /** For rectangles of non-negative extent the test says exactly that the
      closed rectangles share a point. */
  lemma RectIntersectIffCommonPoint(r1: Rect, r2: Rect)
    requires NonNegative(r1) && NonNegative(r2)
    ensures RectIntersect(r1, r2) <==> exists p :: Contains(r1, p) && Contains(r2, p)
  {
    if RectIntersect(r1, r2) {
      var p := Point(Max(r1.x, r2.x), Max(r1.y, r2.y));
      assert Contains(r1, p) && Contains(r2, p);
    }
  }

  /** A rectangle placed flush against another one, along a side or at a
      corner, is reported as intersecting it: the test counts edges as
      inside. `y` is where the placed rectangle starts along the shared side. */
  lemma TouchingRectsIntersect(r: Rect, y: real, w: real, h: real)
    requires NonNegative(r) && w >= 0.0 && h >= 0.0
    requires r.y <= y <= r.y + r.height
    // flush against the right side and against the left side
    ensures RectIntersect(r, Rect(r.x + r.width, y, w, h))
    ensures RectIntersect(r, Rect(r.x - w, y, w, h))
    // meeting only at the bottom-right and at the top-left corner
    ensures RectIntersect(r, Rect(r.x + r.width, r.y + r.height, w, h))
    ensures RectIntersect(r, Rect(r.x - w, r.y - h, w, h))
  {
  }

  function Min(a: real, b: real): real {
    if a <= b then a else b
  }

  function Max(a: real, b: real): real {
    if a >= b then a else b
  }

  function Abs(a: real): real {
    if a < 0.0 then -a else a
  }

  /** `outer` covers `inner`. */
  predicate Covers(outer: Rect, inner: Rect) {
    outer.x <= inner.x && inner.x + inner.width <= outer.x + outer.width
    && outer.y <= inner.y && inner.y + inner.height <= outer.y + outer.height
  }

  /** The rectangle spanned by the two drag points, whichever way the drag
      went: it has non-negative extent, contains both points, and is covered
      by every rectangle that contains both, so it is their bounding box. */
  function SelectionRect(a: Point, b: Point): (r: Rect)
    ensures NonNegative(r)
    ensures Contains(r, a) && Contains(r, b)
    ensures forall q: Rect :: Contains(q, a) && Contains(q, b) ==> Covers(q, r)
  {
    Rect(Min(a.x, b.x), Min(a.y, b.y), Abs(b.x - a.x), Abs(b.y - a.y))
  }

  /** Swapping the drag points does not change the rectangle. */
  lemma SelectionRectSymmetric(a: Point, b: Point)
    ensures SelectionRect(a, b) == SelectionRect(b, a)
  {
  }

  datatype SelectionState = SelectionState(
    sprites: seq<Sprite>,
    isDragging: bool,
    dragStart: Point,
    dragEnd: Point,
    selected: seq<nat>)   // positions in `sprites`, in selection order

  /** Every selected position names a sprite. */
  predicate Valid(s: SelectionState) {
    forall j :: 0 <= j < |s.selected| ==> s.selected[j] < |s.sprites|
  }

  /** The state a new selection starts in. */
  function NewSelection(sprites: seq<Sprite>): (s: SelectionState)
    ensures Valid(s) && !s.isDragging && s.selected == [] && s.sprites == sprites
  {
    SelectionState(sprites, false, Point(0.0, 0.0), Point(0.0, 0.0), [])
  }

  /** The sprites with those at positions `idx` painted `c`, one by one in
      the order of `idx`; positions past the end are ignored. */
  function Paint(sprites: seq<Sprite>, idx: seq<nat>, c: Color): (r: seq<Sprite>)
    ensures |r| == |sprites|
    ensures forall i :: 0 <= i < |sprites| ==>
              r[i] == if i in idx then sprites[i].(color := c) else sprites[i]
    decreases |idx|
  {
    if |idx| == 0 then sprites
    else
      var k := idx[0];
      var once := if k < |sprites| then sprites[k := sprites[k].(color := c)] else sprites;
      var r := Paint(once, idx[1..], c);
      assert forall i :: i in idx <==> i == k || i in idx[1..];
      r
  }

  /** The boxes of a sprite list. */
  function Boxes(sprites: seq<Sprite>): seq<Rect> {
    seq(|sprites|, i requires 0 <= i < |sprites| => Box(sprites[i]))
  }

  lemma PaintKeepsBoxes(sprites: seq<Sprite>, idx: seq<nat>, c: Color)
    ensures Boxes(Paint(sprites, idx, c)) == Boxes(sprites)
  {
    var r := Paint(sprites, idx, c);
    assert forall i :: 0 <= i < |sprites| ==> Box(r[i]) == Box(sprites[i]);
  }

  /** The positions from `k` on of the boxes that intersect `rect`, in
      increasing order. */
  function HitsFrom(boxes: seq<Rect>, rect: Rect, k: nat): (r: seq<nat>)
    requires k <= |boxes|
    ensures forall j :: 0 <= j < |r| ==> k <= r[j] < |boxes| && RectIntersect(rect, boxes[r[j]])
    ensures forall i :: k <= i < |boxes| && RectIntersect(rect, boxes[i]) ==> i in r
    ensures forall j, j' :: 0 <= j < j' < |r| ==> r[j] < r[j']
    decreases |boxes| - k
  {
    if k == |boxes| then []
    else
      var rest := HitsFrom(boxes, rect, k + 1);
      if RectIntersect(rect, boxes[k]) then [k] + rest else rest
  }

  /** The positions of all boxes that intersect `rect`, in list order. */
  function Hits(boxes: seq<Rect>, rect: Rect): (r: seq<nat>)
    ensures forall j :: 0 <= j < |r| ==> r[j] < |boxes| && RectIntersect(rect, boxes[r[j]])
    ensures forall i :: 0 <= i < |boxes| ==> (i in r <==> RectIntersect(rect, boxes[i]))
    ensures forall j, j' :: 0 <= j < j' < |r| ==> r[j] < r[j']
  {
    HitsFrom(boxes, rect, 0)
  }

  /** Mouse down at `p`: a new drag starts at `p`, and the previous selection
      is dropped, each of its sprites painted red. */
  function MouseDown(s: SelectionState, p: Point): (r: SelectionState)
    ensures r.isDragging && r.dragStart == p && r.dragEnd == p && r.selected == []
    ensures |r.sprites| == |s.sprites|
    ensures forall i :: 0 <= i < |s.sprites| ==>
              r.sprites[i] == if i in s.selected then s.sprites[i].(color := Red) else s.sprites[i]
    ensures Valid(r)
  {
    s.(dragStart := p, dragEnd := p, isDragging := true,
       sprites := Paint(s.sprites, s.selected, Red), selected := [])
  }

  /** Mouse move to `p`: while dragging, the drag end follows; otherwise
      nothing happens. */
  function MouseMove(s: SelectionState, p: Point): (r: SelectionState)
    ensures !s.isDragging ==> r == s
    ensures s.isDragging ==> r.dragEnd == p && r.(dragEnd := s.dragEnd) == s
  {
    if !s.isDragging then s else s.(dragEnd := p)
  }

  /** Mouse up: ends the drag, and every sprite whose box intersects the
      drag rectangle is added to the selection, in list order, and painted
      yellow. Without a drag nothing happens. */
  function MouseUp(s: SelectionState): (r: SelectionState)
    ensures !s.isDragging ==> r == s
    ensures s.isDragging ==> !r.isDragging && r.dragStart == s.dragStart && r.dragEnd == s.dragEnd
    ensures s.isDragging ==>
              var rect := SelectionRect(s.dragStart, s.dragEnd);
              && |r.selected| >= |s.selected|
              && r.selected[..|s.selected|] == s.selected
              && (forall i :: 0 <= i < |s.sprites| ==>
                    (i in r.selected[|s.selected|..] <==> RectIntersect(rect, Box(s.sprites[i]))))
              && (forall j, j' :: |s.selected| <= j < j' < |r.selected| ==> r.selected[j] < r.selected[j'])
    ensures s.isDragging ==>
              var rect := SelectionRect(s.dragStart, s.dragEnd);
              && |r.sprites| == |s.sprites|
              && forall i :: 0 <= i < |s.sprites| ==>
                   r.sprites[i] == if RectIntersect(rect, Box(s.sprites[i]))
                                   then s.sprites[i].(color := Yellow) else s.sprites[i]
    ensures Valid(s) ==> Valid(r)
  {
    if !s.isDragging then s
    else
      var rect := SelectionRect(s.dragStart, s.dragEnd);
      var boxes := Boxes(s.sprites);
      var hits := Hits(boxes, rect);
      var r := s.(isDragging := false,
                  sprites := Paint(s.sprites, hits, Yellow),
                  selected := s.selected + hits);
      assert r.selected[..|s.selected|] == s.selected;
      assert r.selected[|s.selected|..] == hits;
      assert forall i :: 0 <= i < |s.sprites| ==> boxes[i] == Box(s.sprites[i]);
      r
  }

  /** A sequence of mouse moves. */
  function MouseMoves(s: SelectionState, ps: seq<Point>): SelectionState
    decreases |ps|
  {
    if |ps| == 0 then s else MouseMoves(MouseMove(s, ps[0]), ps[1..])
  }

  /** During a drag, mouse moves change only the drag end, to the last point. */
  lemma {:induction false} DragFollowsMoves(s: SelectionState, ps: seq<Point>)
    requires s.isDragging
    ensures MouseMoves(s, ps) == s.(dragEnd := if |ps| == 0 then s.dragEnd else ps[|ps| - 1])
    decreases |ps|
  {
    if |ps| > 0 {
      DragFollowsMoves(MouseMove(s, ps[0]), ps[1..]);
      if |ps| > 1 {
        assert ps[1..][|ps[1..]| - 1] == ps[|ps| - 1];
      }
    }
  }

  /** A whole drag gesture, down at `start`, moves through `ps`, up: the
      selection is exactly the sprites whose boxes intersect the rectangle
      from `start` to the last point, in list order. Those are yellow, the
      previously selected ones not hit are red, and the rest keep their
      colour. */
  lemma DragGesture(s: SelectionState, start: Point, ps: seq<Point>)
    ensures var last := if |ps| == 0 then start else ps[|ps| - 1];
            var rect := SelectionRect(start, last);
            var t := MouseUp(MouseMoves(MouseDown(s, start), ps));
            && !t.isDragging
            && t.selected == Hits(Boxes(s.sprites), rect)
            && |t.sprites| == |s.sprites|
            && forall i :: 0 <= i < |s.sprites| ==>
                 t.sprites[i].color ==
                   if RectIntersect(rect, Box(s.sprites[i])) then Yellow
                   else if i in s.selected then Red
                   else s.sprites[i].color
  {
    var d := MouseDown(s, start);
    DragFollowsMoves(d, ps);
    PaintKeepsBoxes(s.sprites, s.selected, Red);
    assert Boxes(d.sprites) == Boxes(s.sprites);
    var m := MouseMoves(d, ps);
    assert m.sprites == d.sprites && m.selected == [];
    var t := MouseUp(m);
    assert forall i :: 0 <= i < |s.sprites| ==> Box(d.sprites[i]) == Box(s.sprites[i]);
  }

  /** Every event keeps the selected positions within the sprite list. */
  lemma EventsPreserveValid(s: SelectionState, p: Point)
    requires Valid(s)
    ensures Valid(MouseDown(s, p)) && Valid(MouseMove(s, p)) && Valid(MouseUp(s))
  {
  }
}
