/** The tile grid of one dungeon floor (class `Tile` and the global `map`)
    and the carving operations that open rooms and tunnels in it. */
module Tiles {
  import opened Optional
  import opened PyArith
  import opened Geometry

  const MAP_WIDTH: nat := 80
  const MAP_HEIGHT: nat := 43

  datatype Tile = Tile(blocked: bool, blockSight: bool, explored: bool)

  /** `Tile(blocked, block_sight=None)`: sight is blocked like movement
      unless stated otherwise, and every tile starts unexplored. */
  function MakeTile(blocked: bool, blockSight: Option<bool>): (t: Tile)
    ensures t.blocked == blocked && !t.explored
    ensures blockSight.None? ==> t.blockSight == blocked
    ensures blockSight.Some? ==> t.blockSight == blockSight.value
  {
    Tile(blocked, if blockSight.None? then blocked else blockSight.value, false)
  }

  /** Column-major like the source: `grid[x][y]`. */
  type Grid = seq<seq<Tile>>

  predicate WellFormed(g: Grid)
  {
    |g| == MAP_WIDTH && forall x | 0 <= x < |g| :: |g[x]| == MAP_HEIGHT
  }

  predicate InBounds(x: int, y: int)
  {
    0 <= x < MAP_WIDTH && 0 <= y < MAP_HEIGHT
  }

  /** The tile after carving: passable and see-through, memory kept. */
  function Opened(t: Tile): Tile
  {
    t.(blocked := false, blockSight := false)
  }

  const Wall: Tile := MakeTile(true, None)
  const Floor: Tile := Opened(Wall)

  /** The freshly generated floor: solid rock everywhere. */
  function SolidGrid(): (g: Grid)
    ensures WellFormed(g)
    ensures forall x, y | InBounds(x, y) :: g[x][y] == Wall
  {
    seq(MAP_WIDTH, x => seq(MAP_HEIGHT, y => Wall))
  }

  /** Carve a single tile. */
  function OpenAt(g: Grid, x: int, y: int): (r: Grid)
    requires WellFormed(g) && InBounds(x, y)
    ensures WellFormed(r)
    ensures r[x][y] == Opened(g[x][y])
    ensures forall i, j | InBounds(i, j) && (i, j) != (x, y) :: r[i][j] == g[i][j]
  {
    g[x := g[x][y := Opened(g[x][y])]]
  }

  /** Every tile the room's floor covers is on the grid (or there is no
      floor at all, in which case the carving loops never index the map). */
  predicate Fits(room: Rect)
  {
    || room.x2 <= room.x1 + 1
    || room.y2 <= room.y1 + 1
    || (0 <= room.x1 + 1 && room.x2 <= MAP_WIDTH && 0 <= room.y1 + 1 && room.y2 <= MAP_HEIGHT)
  }

  /** `create_room`: open exactly the floor `x1+1..x2-1` by `y1+1..y2-1`. */
  method CreateRoom(g: Grid, room: Rect) returns (r: Grid)
    requires WellFormed(g) && Fits(room)
    ensures WellFormed(r)
    ensures forall x, y | InBounds(x, y) ::
      r[x][y] == (if Interior(room, x, y) then Opened(g[x][y]) else g[x][y])
  {
    r := g;
    var x := room.x1 + 1;
    while x < room.x2
      invariant WellFormed(r)
      invariant room.x1 + 1 <= x && (x <= room.x2 || x == room.x1 + 1)
      invariant forall i, j | InBounds(i, j) ::
        r[i][j] == (if room.x1 < i < x && room.y1 < j < room.y2 then Opened(g[i][j]) else g[i][j])
    {
      var y := room.y1 + 1;
      while y < room.y2
        invariant WellFormed(r)
        invariant room.y1 + 1 <= y && (y <= room.y2 || y == room.y1 + 1)
        invariant forall i, j | InBounds(i, j) ::
          r[i][j] == (if (room.x1 < i < x && room.y1 < j < room.y2) || (i == x && room.y1 < j < y)
                      then Opened(g[i][j]) else g[i][j])
      {
        r := OpenAt(r, x, y);
        y := y + 1;
      }
      x := x + 1;
    }
  }

  /** The straight row segment a horizontal tunnel clears. */
  predicate OnRow(x1: int, x2: int, row: int, x: int, y: int)
  {
    y == row && Min(x1, x2) <= x <= Max(x1, x2)
  }

  /** The straight column segment a vertical tunnel clears. */
  predicate OnColumn(y1: int, y2: int, col: int, x: int, y: int)
  {
    x == col && Min(y1, y2) <= y <= Max(y1, y2)
  }

  /** `create_h_tunnel`: open the inclusive run between `x1` and `x2`, in
      either order, on row `y`. */
  method CreateHTunnel(g: Grid, x1: int, x2: int, y: int) returns (r: Grid)
    requires WellFormed(g)
    requires InBounds(x1, y) && InBounds(x2, y)
    ensures WellFormed(r)
    ensures forall i, j | InBounds(i, j) ::
      r[i][j] == (if OnRow(x1, x2, y, i, j) then Opened(g[i][j]) else g[i][j])
  {
    r := g;
    var x := Min(x1, x2);
    while x < Max(x1, x2) + 1
      invariant WellFormed(r)
      invariant Min(x1, x2) <= x <= Max(x1, x2) + 1
      invariant forall i, j | InBounds(i, j) ::
        r[i][j] == (if j == y && Min(x1, x2) <= i < x then Opened(g[i][j]) else g[i][j])
    {
      r := OpenAt(r, x, y);
      x := x + 1;
    }
  }

  /** `create_v_tunnel`: open the inclusive run between `y1` and `y2`, in
      either order, on column `x`. */
  method CreateVTunnel(g: Grid, y1: int, y2: int, x: int) returns (r: Grid)
    requires WellFormed(g)
    requires InBounds(x, y1) && InBounds(x, y2)
    ensures WellFormed(r)
    ensures forall i, j | InBounds(i, j) ::
      r[i][j] == (if OnColumn(y1, y2, x, i, j) then Opened(g[i][j]) else g[i][j])
  {
    r := g;
    var y := Min(y1, y2);
    while y < Max(y1, y2) + 1
      invariant WellFormed(r)
      invariant Min(y1, y2) <= y <= Max(y1, y2) + 1
      invariant forall i, j | InBounds(i, j) ::
        r[i][j] == (if i == x && Min(y1, y2) <= j < y then Opened(g[i][j]) else g[i][j])
    {
      r := OpenAt(r, x, y);
      y := y + 1;
    }
  }

  /** The exploration half of the field-of-view pass: every tile currently
      in view becomes explored; nothing else changes. `fov` stands for the
      visibility the field-of-view library computed. */
  function Explore(g: Grid, fov: seq<seq<bool>>): (r: Grid)
    requires WellFormed(g)
    requires |fov| == MAP_WIDTH && forall x | 0 <= x < |fov| :: |fov[x]| == MAP_HEIGHT
    ensures WellFormed(r)
    ensures forall x, y | InBounds(x, y) ::
      && r[x][y].blocked == g[x][y].blocked
      && r[x][y].blockSight == g[x][y].blockSight
      && (r[x][y].explored <==> g[x][y].explored || fov[x][y])
  {
    seq(MAP_WIDTH, x requires 0 <= x < MAP_WIDTH =>
      seq(MAP_HEIGHT, y requires 0 <= y < MAP_HEIGHT =>
        if fov[x][y] then g[x][y].(explored := true) else g[x][y]))
  }

  /** Exploration memory is monotonic and settles after one pass: exploring
      with the same view again changes nothing. */
  lemma ExploreIsMonotonicAndIdempotent(g: Grid, fov: seq<seq<bool>>)
    requires WellFormed(g)
    requires |fov| == MAP_WIDTH && forall x | 0 <= x < |fov| :: |fov[x]| == MAP_HEIGHT
    ensures forall x, y | InBounds(x, y) && g[x][y].explored :: Explore(g, fov)[x][y].explored
    ensures Explore(Explore(g, fov), fov) == Explore(g, fov)
  {
    var e := Explore(g, fov);
    var ee := Explore(e, fov);
    forall x | 0 <= x < MAP_WIDTH
      ensures ee[x] == e[x]
    {
      forall y | 0 <= y < MAP_HEIGHT
        ensures ee[x][y] == e[x][y]
      {
        assert InBounds(x, y);
      }
    }
  }
}
