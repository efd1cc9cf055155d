/** Walks across the map: sequences of tiles in which each tile is the
    previous one or one of its four neighbours. */
module Paths {
  import opened PyArith
  import opened Tiles

  type Point = (int, int)

  function Abs(a: int): nat
  {
    if a < 0 then -a else a
  }

  /** `q` is `p` itself or one of its four neighbours. */
  predicate Adjacent(p: Point, q: Point)
  {
    Abs(p.0 - q.0) + Abs(p.1 - q.1) <= 1
  }

  /** `p` lies in the bounding box of `a` and `b`. */
  predicate Between(a: Point, b: Point, p: Point)
  {
    Min(a.0, b.0) <= p.0 <= Max(a.0, b.0) && Min(a.1, b.1) <= p.1 <= Max(a.1, b.1)
  }

  /** One step from `a` toward `b`. */
  function Toward(a: int, b: int): int
  {
    if a < b then a + 1 else if a > b then a - 1 else a
  }

  /** The straight walk from `a` to `b` along a row or a column. */
  function Leg(a: Point, b: Point): (r: seq<Point>)
    requires a.0 == b.0 || a.1 == b.1
    ensures |r| >= 1 && r[0] == a && r[|r| - 1] == b
    ensures forall m | 0 <= m < |r| :: Between(a, b, r[m])
    ensures forall m | 0 <= m < |r| - 1 :: Adjacent(r[m], r[m + 1])
    decreases Abs(b.0 - a.0) + Abs(b.1 - a.1)
  {
    if a == b then [a]
    else
      var rest := Leg((Toward(a.0, b.0), Toward(a.1, b.1)), b);
      assert forall m | 1 <= m < |rest| + 1 :: ([a] + rest)[m] == rest[m - 1];
      [a] + rest
  }

  /** `path` walks from `a` to `b` over unblocked tiles of the map. */
  predicate OpenWalk(g: Grid, path: seq<Point>, a: Point, b: Point)
    requires WellFormed(g)
  {
    && |path| >= 1 && path[0] == a && path[|path| - 1] == b
    && (forall m | 0 <= m < |path| :: InBounds(path[m].0, path[m].1) && !g[path[m].0][path[m].1].blocked)
    && (forall m | 0 <= m < |path| - 1 :: Adjacent(path[m], path[m + 1]))
  }

  /** A walk from `a` to `b` followed by one from `b` to `c` is a walk from
      `a` to `c`. */
  lemma JoinWalks(g: Grid, p: seq<Point>, q: seq<Point>, a: Point, b: Point, c: Point)
    requires WellFormed(g) && OpenWalk(g, p, a, b) && OpenWalk(g, q, b, c)
    ensures OpenWalk(g, p + q, a, c)
  {
    var r := p + q;
    forall m | 0 <= m < |r|
      ensures InBounds(r[m].0, r[m].1) && !g[r[m].0][r[m].1].blocked
    {
      if m >= |p| {
        assert r[m] == q[m - |p|];
      }
    }
    forall m | 0 <= m < |r| - 1
      ensures Adjacent(r[m], r[m + 1])
    {
      if m >= |p| {
        assert r[m] == q[m - |p|] && r[m + 1] == q[m + 1 - |p|];
      } else if m == |p| - 1 {
        assert r[m] == b && r[m + 1] == q[0];
      }
    }
  }
}
