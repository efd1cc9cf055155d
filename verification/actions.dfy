/** Moving objects around the map (`is_blocked`, `Object.move`) and the
    `ConfusedMonster` state machine. */
module Actions {
  import opened Optional
  import opened PyArith
  import opened Tiles
  import opened Entities

  /** The coordinates index the map the way Python does: negative values
      count from the far edge, anything else must be on the map. */
  predicate Indexable(x: int, y: int)
  {
    -(MAP_WIDTH as int) <= x < MAP_WIDTH && -(MAP_HEIGHT as int) <= y < MAP_HEIGHT
  }

  /** A blocking object stands exactly at `(x, y)`. */
  predicate BlockerAt(w: World, x: int, y: int)
  {
    exists k | 0 <= k < |w.objects| :: w.objects[k].blocks && w.objects[k].x == x && w.objects[k].y == y
  }

  /** `is_blocked`: the tile blocks, or a blocking object stands there. A
      negative coordinate reads the tile from the far edge of the map, while
      objects are compared at the coordinate as given. */
  function IsBlocked(w: World, x: int, y: int): (b: bool)
    requires WellFormed(w.grid) && Indexable(x, y)
    ensures InBounds(x, y) ==> (b <==> w.grid[x][y].blocked || BlockerAt(w, x, y))
    ensures x < 0 && 0 <= y ==> (b <==> w.grid[x + MAP_WIDTH][y].blocked || BlockerAt(w, x, y))
    ensures 0 <= x && y < 0 ==> (b <==> w.grid[x][y + MAP_HEIGHT].blocked || BlockerAt(w, x, y))
    ensures x < 0 && y < 0 ==> (b <==> w.grid[x + MAP_WIDTH][y + MAP_HEIGHT].blocked || BlockerAt(w, x, y))
  {
    || w.grid[PyIndex(x, MAP_WIDTH)][PyIndex(y, MAP_HEIGHT)].blocked
    || exists k | 0 <= k < |w.objects| :: w.objects[k].blocks && w.objects[k].x == x && w.objects[k].y == y
  }

  /** `Object.move`: step by `(dx, dy)` unless the destination is blocked. */
  function Move(w: World, k: nat, dx: int, dy: int): (r: World)
    requires WellFormed(w.grid) && k < |w.objects|
    requires Indexable(w.objects[k].x + dx, w.objects[k].y + dy)
    ensures r.grid == w.grid && r.player == w.player && r.inventory == w.inventory
    ensures r.state == w.state && r.level == w.level && |r.objects| == |w.objects|
    ensures var e, tx, ty := w.objects[k], w.objects[k].x + dx, w.objects[k].y + dy;
      && (IsBlocked(w, tx, ty) ==> r == w)
      && (!IsBlocked(w, tx, ty) ==> r.objects[k] == e.(x := tx, y := ty))
      && (r.objects[k].x != e.x || r.objects[k].y != e.y ==>
            !w.grid[PyIndex(tx, MAP_WIDTH)][PyIndex(ty, MAP_HEIGHT)].blocked)
    ensures forall j | 0 <= j < |w.objects| && j != k :: r.objects[j] == w.objects[j]
    ensures Valid(w) ==> Valid(r)
  {
    var e := w.objects[k];
    if IsBlocked(w, e.x + dx, e.y + dy) then w
    else w.(objects := w.objects[k := e.(x := e.x + dx, y := e.y + dy)])
  }

  /** Every blocking object stands on an open tile of the map, and no two
      blocking objects share a tile. */
  predicate Unobstructed(w: World)
    requires WellFormed(w.grid)
  {
    && (forall k | 0 <= k < |w.objects| && w.objects[k].blocks ::
          InBounds(w.objects[k].x, w.objects[k].y) && !w.grid[w.objects[k].x][w.objects[k].y].blocked)
    && (forall j, k | 0 <= j < |w.objects| && 0 <= k < |w.objects| && j != k
          && w.objects[j].blocks && w.objects[k].blocks ::
          (w.objects[j].x, w.objects[j].y) != (w.objects[k].x, w.objects[k].y))
  }

  /** Moving within the map never puts a blocker into a wall or onto another
      blocker. */
  lemma MoveKeepsUnobstructed(w: World, k: nat, dx: int, dy: int)
    requires WellFormed(w.grid) && k < |w.objects| && Unobstructed(w)
    requires InBounds(w.objects[k].x + dx, w.objects[k].y + dy)
    ensures Unobstructed(Move(w, k, dx, dy))
  {
  }

  /** One `take_turn` of the AI component, as far as the component itself is
      concerned: a basic monster stays basic; a confused one counts down while
      turns remain and otherwise hands back the AI it replaced. */
  function Tick(ai: AI): Option<AI>
  {
    match ai
    case Basic => Some(Basic)
    case Confused(previous, turns) => if turns > 0 then Some(Confused(previous, turns - 1)) else previous
  }

  /** The AI component after `n` monster turns. */
  function Ticks(ai: Option<AI>, n: nat): Option<AI>
    decreases n
  {
    if n == 0 || ai.None? then ai else Ticks(Tick(ai.value), n - 1)
  }

  /** During the first `n` turns of `Confused(previous, n)` the counter is
      still positive, so the monster stumbles at random each of those turns. */
  lemma {:induction false} StillConfused(previous: Option<AI>, n: int, j: nat)
    requires j <= n
    ensures Ticks(Some(Confused(previous, n)), j) == Some(Confused(previous, n - j))
    decreases j
  {
    if j > 0 {
      StillConfused(previous, n - 1, j - 1);
    }
  }

  /** ... and turn `n + 1` restores the previous AI (without moving), which
      acts from turn `n + 2` on. */
  lemma {:induction false} ConfusionWearsOff(previous: Option<AI>, n: nat)
    ensures Ticks(Some(Confused(previous, n)), n) == Some(Confused(previous, 0))
    ensures Ticks(Some(Confused(previous, n)), n + 1) == previous
  {
    StillConfused(previous, n, n);
    assert Ticks(Some(Confused(previous, 0)), 1) == previous;
    TicksSplit(Some(Confused(previous, n)), n, 1);
  }

  lemma {:induction false} TicksSplit(ai: Option<AI>, m: nat, n: nat)
    ensures Ticks(ai, m + n) == Ticks(Ticks(ai, m), n)
    decreases m
  {
    if m > 0 && ai.Some? {
      TicksSplit(Tick(ai.value), m - 1, n);
    }
  }

  /** `ConfusedMonster.take_turn` for object `k`, with `(dx, dy)` the two
      draws from [-1, 1]. */
  function ConfusedTurn(w: World, k: nat, dx: int, dy: int): (r: World)
    requires WellFormed(w.grid) && k < |w.objects|
    requires w.objects[k].ai.Some? && w.objects[k].ai.value.Confused?
    requires -1 <= dx <= 1 && -1 <= dy <= 1
    requires w.objects[k].ai.value.turns > 0 ==> Indexable(w.objects[k].x + dx, w.objects[k].y + dy)
    ensures |r.objects| == |w.objects| && r.player == w.player && r == w.(objects := r.objects)
    ensures r.objects[k].ai == Tick(w.objects[k].ai.value)
    ensures w.objects[k].ai.value.turns > 0 ==>
      r.objects[k] == Move(w, k, dx, dy).objects[k].(ai := r.objects[k].ai)
    ensures w.objects[k].ai.value.turns <= 0 ==> r.objects[k] == w.objects[k].(ai := r.objects[k].ai)
    ensures forall j | 0 <= j < |w.objects| && j != k :: r.objects[j] == w.objects[j]
    ensures Valid(w) ==> Valid(r)
  {
    var ai := w.objects[k].ai.value;
    if ai.turns > 0 then
      var w1 := Move(w, k, dx, dy);
      w1.(objects := w1.objects[k := w1.objects[k].(ai := Some(Confused(ai.previous, ai.turns - 1)))])
    else
      w.(objects := w.objects[k := w.objects[k].(ai := ai.previous)])
  }
}
