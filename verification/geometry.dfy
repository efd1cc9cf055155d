/** The rectangles used while carving a floor (class `Rect`). */
module Geometry {

  /** Corners are inclusive: a room built from `Rect` has its walls on
      `x1`, `x2`, `y1`, `y2` and its floor strictly between them. */
  datatype Rect = Rect(x1: int, y1: int, x2: int, y2: int)

  /** `Rect(x, y, w, h)`: top-left corner plus width and height. */
  function MakeRect(x: int, y: int, w: int, h: int): (r: Rect)
    ensures r.x1 == x && r.y1 == y
    ensures r.x2 - r.x1 == w && r.y2 - r.y1 == h
  {
    Rect(x, y, x + w, y + h)
  }

  /** `Rect.center`: the midpoint, rounded down on each axis. */
  function Center(r: Rect): (c: (int, int))
    ensures 2 * c.0 <= r.x1 + r.x2 <= 2 * c.0 + 1
    ensures 2 * c.1 <= r.y1 + r.y2 <= 2 * c.1 + 1
    ensures r.x2 - r.x1 >= 2 ==> r.x1 < c.0 < r.x2
    ensures r.y2 - r.y1 >= 2 ==> r.y1 < c.1 < r.y2
  {
    ((r.x1 + r.x2) / 2, (r.y1 + r.y2) / 2)
  }

  /** `Rect.intersect`: overlap test with inclusive edges. */
  predicate Intersect(a: Rect, b: Rect)
  {
    a.x1 <= b.x2 && a.x2 >= b.x1 && a.y1 <= b.y2 && a.y2 >= b.y1
  }

  predicate Proper(r: Rect)
  {
    r.x1 <= r.x2 && r.y1 <= r.y2
  }

  /** The point lies on the closed rectangle (walls included). */
  predicate Covers(r: Rect, x: int, y: int)
  {
    r.x1 <= x <= r.x2 && r.y1 <= y <= r.y2
  }

  /** The point lies on the floor of the room the rectangle describes. */
  predicate Interior(r: Rect, x: int, y: int)
  {
    r.x1 < x < r.x2 && r.y1 < y < r.y2
  }

  /** The intersection test is symmetric, and for proper rectangles it holds
      exactly when the closed rectangles share a grid point; rectangles that
      do not intersect therefore have disjoint floors, and are not even
      allowed to share a wall. */
  lemma IntersectMeansSharedPoint(a: Rect, b: Rect)
    requires Proper(a) && Proper(b)
    ensures Intersect(a, b) == Intersect(b, a)
    ensures Intersect(a, b) <==> exists x, y :: Covers(a, x, y) && Covers(b, x, y)
    ensures !Intersect(a, b) ==> forall x, y :: !(Interior(a, x, y) && Interior(b, x, y))
  {
    if Intersect(a, b) {
      var x := if a.x1 <= b.x1 then b.x1 else a.x1;
      var y := if a.y1 <= b.y1 then b.y1 else a.y1;
      assert Covers(a, x, y) && Covers(b, x, y);
    }
  }
}
