/** The map carving of `make_map`: up to `MAX_ROOMS` candidate rooms, each
    kept only if it does not touch an earlier one (module `Rooms`), each kept
    room after the first joined to its predecessor by an L-shaped tunnel. */
module Dungeon {
  import opened PyArith
  import opened Geometry
  import opened Tiles
  import opened Paths
  import opened Rooms

  /** The tunnel joining two room centres: `horizontalFirst` (coin 1) runs
      along the first room's row and then up/down the second room's column;
      otherwise along the first room's column and then the second's row. */
  datatype Corridor = Corridor(from: (int, int), to: (int, int), horizontalFirst: bool)

  predicate OnCorridor(c: Corridor, x: int, y: int)
  {
    if c.horizontalFirst then
      OnRow(c.from.0, c.to.0, c.from.1, x, y) || OnColumn(c.from.1, c.to.1, c.to.0, x, y)
    else
      OnColumn(c.from.1, c.to.1, c.from.0, x, y) || OnRow(c.from.0, c.to.0, c.to.1, x, y)
  }

  predicate InSomeRoom(rooms: seq<Rect>, x: int, y: int)
  {
    exists i | 0 <= i < |rooms| :: Interior(rooms[i], x, y)
  }

  predicate OnSomeCorridor(corridors: seq<Corridor>, x: int, y: int)
  {
    exists i | 0 <= i < |corridors| :: OnCorridor(corridors[i], x, y)
  }

  predicate Carved(rooms: seq<Rect>, corridors: seq<Corridor>, x: int, y: int)
  {
    InSomeRoom(rooms, x, y) || OnSomeCorridor(corridors, x, y)
  }

  /** The grid is solid rock except for the carved tiles, which are floor. */
  ghost predicate Shows(g: Grid, rooms: seq<Rect>, corridors: seq<Corridor>)
    requires WellFormed(g)
  {
    forall x, y | InBounds(x, y) :: g[x][y] == (if Carved(rooms, corridors, x, y) then Floor else Wall)
  }

  /** What `make_map` leaves behind besides the objects it places. */
  datatype Floorplan = Floorplan(grid: Grid, rooms: seq<Rect>, corridors: seq<Corridor>,
                                 start: (int, int), stairs: (int, int))

  lemma AddRoom(g: Grid, g': Grid, rooms: seq<Rect>, corridors: seq<Corridor>, room: Rect)
    requires WellFormed(g) && WellFormed(g') && Shows(g, rooms, corridors)
    requires forall x, y | InBounds(x, y) ::
      g'[x][y] == (if Interior(room, x, y) then Opened(g[x][y]) else g[x][y])
    ensures Shows(g', rooms + [room], corridors)
  {
    var rooms' := rooms + [room];
    forall x, y | InBounds(x, y)
      ensures g'[x][y] == (if Carved(rooms', corridors, x, y) then Floor else Wall)
    {
      if Interior(room, x, y) {
        assert Interior(rooms'[|rooms|], x, y);
      }
      if InSomeRoom(rooms, x, y) {
        var i :| 0 <= i < |rooms| && Interior(rooms[i], x, y);
        assert Interior(rooms'[i], x, y);
      }
      if InSomeRoom(rooms', x, y) {
        var i :| 0 <= i < |rooms'| && Interior(rooms'[i], x, y);
        if i < |rooms| {
          assert Interior(rooms[i], x, y);
        }
      }
    }
  }

  lemma AddCorridor(g: Grid, g1: Grid, g2: Grid, rooms: seq<Rect>, corridors: seq<Corridor>, c: Corridor)
    requires WellFormed(g) && WellFormed(g1) && WellFormed(g2) && Shows(g, rooms, corridors)
    requires c.horizontalFirst ==>
      && (forall x, y | InBounds(x, y) ::
            g1[x][y] == (if OnRow(c.from.0, c.to.0, c.from.1, x, y) then Opened(g[x][y]) else g[x][y]))
      && (forall x, y | InBounds(x, y) ::
            g2[x][y] == (if OnColumn(c.from.1, c.to.1, c.to.0, x, y) then Opened(g1[x][y]) else g1[x][y]))
    requires !c.horizontalFirst ==>
      && (forall x, y | InBounds(x, y) ::
            g1[x][y] == (if OnColumn(c.from.1, c.to.1, c.from.0, x, y) then Opened(g[x][y]) else g[x][y]))
      && (forall x, y | InBounds(x, y) ::
            g2[x][y] == (if OnRow(c.from.0, c.to.0, c.to.1, x, y) then Opened(g1[x][y]) else g1[x][y]))
    ensures Shows(g2, rooms, corridors + [c])
  {
    var corridors' := corridors + [c];
    forall x, y | InBounds(x, y)
      ensures g2[x][y] == (if Carved(rooms, corridors', x, y) then Floor else Wall)
    {
      if OnCorridor(c, x, y) {
        assert OnCorridor(corridors'[|corridors|], x, y);
      }
      if OnSomeCorridor(corridors, x, y) {
        var i :| 0 <= i < |corridors| && OnCorridor(corridors[i], x, y);
        assert OnCorridor(corridors'[i], x, y);
      }
      if OnSomeCorridor(corridors', x, y) {
        var i :| 0 <= i < |corridors'| && OnCorridor(corridors'[i], x, y);
        if i < |corridors| {
          assert OnCorridor(corridors[i], x, y);
        }
      }
    }
  }

  /** Corridor `i` joins the centres of rooms `i` and `i + 1`. */
  predicate Chained(rooms: seq<Rect>, corridors: seq<Corridor>)
  {
    && |corridors| == (if |rooms| == 0 then 0 else |rooms| - 1)
    && forall i {:trigger corridors[i]} | 0 <= i < |corridors| ::
         corridors[i].from == Center(rooms[i]) && corridors[i].to == Center(rooms[i + 1])
  }

  /** The body of the acceptance branch: carve the new room and, unless it is
      the first, the tunnel from the previous room's centre to its own. */
  method KeepRoom(g: Grid, rooms: seq<Rect>, corridors: seq<Corridor>, newRoom: Rect, coin: int)
    returns (g': Grid, corridors': seq<Corridor>)
    requires WellFormed(g) && Shows(g, rooms, corridors) && Chained(rooms, corridors)
    requires InsideMap(newRoom) && forall i | 0 <= i < |rooms| :: InsideMap(rooms[i])
    ensures WellFormed(g') && Shows(g', rooms + [newRoom], corridors')
    ensures Chained(rooms + [newRoom], corridors')
    ensures |rooms| > 0 ==>
      corridors' == corridors + [Corridor(Center(rooms[|rooms| - 1]), Center(newRoom), coin == 1)]
  {
    var g1 := CreateRoom(g, newRoom);
    AddRoom(g, g1, rooms, corridors, newRoom);
    var rooms' := rooms + [newRoom];
    var newCenter := Center(newRoom);
    if |rooms| == 0 {
      g', corridors' := g1, corridors;
    } else {
      var prev := Center(rooms[|rooms| - 1]);
      var c := Corridor(prev, newCenter, coin == 1);
      var g2, g3;
      if coin == 1 {
        g2 := CreateHTunnel(g1, prev.0, newCenter.0, prev.1);
        g3 := CreateVTunnel(g2, prev.1, newCenter.1, newCenter.0);
      } else {
        g2 := CreateVTunnel(g1, prev.1, newCenter.1, prev.0);
        g3 := CreateHTunnel(g2, prev.0, newCenter.0, newCenter.1);
      }
      AddCorridor(g1, g2, g3, rooms', corridors, c);
      g', corridors' := g3, corridors + [c];
    }
  }

  /** Tunnel `m` is oriented by the coin of the room it leads to, the one
      `idx[m + 1]` names. */
  predicate Oriented(draws: seq<RoomDraw>, idx: seq<nat>, corridors: seq<Corridor>)
    requires forall m | 0 <= m < |idx| :: idx[m] < |draws|
  {
    forall m | 0 <= m < |corridors| ::
      m + 1 < |idx| && corridors[m].horizontalFirst == (draws[idx[m + 1]].coin == 1)
  }

  lemma OrientedSnoc(draws: seq<RoomDraw>, idx: seq<nat>, corridors: seq<Corridor>, j: nat, c: Corridor)
    requires j < |draws| && forall m | 0 <= m < |idx| :: idx[m] < |draws|
    requires Oriented(draws, idx, corridors) && |corridors| + 1 == |idx|
    requires c.horizontalFirst == (draws[j].coin == 1)
    ensures Oriented(draws, idx + [j], corridors + [c])
  {
    var idx', corridors' := idx + [j], corridors + [c];
    forall m | 0 <= m < |corridors'|
      ensures m + 1 < |idx'| && corridors'[m].horizontalFirst == (draws[idx'[m + 1]].coin == 1)
    {
      if m < |corridors| {
        assert corridors'[m] == corridors[m] && idx'[m + 1] == idx[m + 1];
      }
    }
  }

  /** The room list `rooms` and its tunnels are what keeping exactly the
      candidates that touch no earlier kept room yields: `idx` names the
      kept candidates in order, and tunnel `m` is oriented by the coin of
      the room it leads to. */
  ghost predicate GreedyPlan(draws: seq<RoomDraw>, rooms: seq<Rect>, corridors: seq<Corridor>)
  {
    exists idx: seq<nat> ::
      && |idx| == |rooms|
      && Increasing(idx)
      && (forall m | 0 <= m < |idx| :: idx[m] < |draws| && rooms[m] == Candidate(draws[idx[m]]))
      && (forall i | 0 <= i < |draws| ::
            (i in idx) <==> forall m | 0 <= m < |idx| && idx[m] < i :: !Intersect(Candidate(draws[i]), rooms[m]))
      && (forall m | 0 <= m < |idx| - 1 && m < |corridors| ::
            corridors[m].horizontalFirst == (draws[idx[m + 1]].coin == 1))
  }

  /** Increasing indices, each kept iff it is clear of the earlier ones,
      describe a greedy plan. */
  lemma GreedyPlanOf(draws: seq<RoomDraw>, idx: seq<nat>, corridors: seq<Corridor>)
    requires Increasing(idx) && forall m | 0 <= m < |idx| :: idx[m] < |draws|
    requires forall i | 0 <= i < |draws| :: (i in idx) <==> ClearOf(draws, idx, i)
    requires Oriented(draws, idx, corridors)
    ensures GreedyPlan(draws, RoomsAt(draws, idx), corridors)
  {
    var rooms := RoomsAt(draws, idx);
    forall i | 0 <= i < |draws|
      ensures (i in idx) <==> forall m | 0 <= m < |idx| && idx[m] < i :: !Intersect(Candidate(draws[i]), rooms[m])
    {
      assert (i in idx) <==> ClearOf(draws, idx, i);
      assert forall m | 0 <= m < |idx| && idx[m] < i ::
        Touch(draws, i, idx[m]) == Intersect(Candidate(draws[i]), rooms[m]);
    }
  }

  /** The walk along a corridor: its first leg to the corner, then its second. */
  function CorridorWalk(c: Corridor): seq<Point>
  {
    var corner := if c.horizontalFirst then (c.to.0, c.from.1) else (c.from.0, c.to.1);
    Leg(c.from, corner) + Leg(corner, c.to)
  }

  /** A tile a leg of corridor `i` passes is carved, hence open. */
  lemma CorridorTileOpen(g: Grid, rooms: seq<Rect>, corridors: seq<Corridor>, i: nat, p: Point)
    requires WellFormed(g) && Shows(g, rooms, corridors) && i < |corridors|
    requires InBounds(p.0, p.1) && OnCorridor(corridors[i], p.0, p.1)
    ensures !g[p.0][p.1].blocked
  {
    assert OnSomeCorridor(corridors, p.0, p.1);
  }

  /** Between two centres on the map, a corridor is a walk over open tiles. */
  lemma CorridorIsOpen(g: Grid, rooms: seq<Rect>, corridors: seq<Corridor>, i: nat)
    requires WellFormed(g) && Shows(g, rooms, corridors) && i < |corridors|
    requires InBounds(corridors[i].from.0, corridors[i].from.1)
    requires InBounds(corridors[i].to.0, corridors[i].to.1)
    ensures OpenWalk(g, CorridorWalk(corridors[i]), corridors[i].from, corridors[i].to)
  {
    var c := corridors[i];
    var corner := if c.horizontalFirst then (c.to.0, c.from.1) else (c.from.0, c.to.1);
    var first, second := Leg(c.from, corner), Leg(corner, c.to);
    forall m | 0 <= m < |first|
      ensures InBounds(first[m].0, first[m].1) && !g[first[m].0][first[m].1].blocked
    {
      assert Between(c.from, corner, first[m]);
      CorridorTileOpen(g, rooms, corridors, i, first[m]);
    }
    forall m | 0 <= m < |second|
      ensures InBounds(second[m].0, second[m].1) && !g[second[m].0][second[m].1].blocked
    {
      assert Between(corner, c.to, second[m]);
      CorridorTileOpen(g, rooms, corridors, i, second[m]);
    }
    JoinWalks(g, first, second, c.from, corner, c.to);
  }

  /** The walk from `start` through every corridor in turn. */
  function Route(start: Point, corridors: seq<Corridor>): seq<Point>
  {
    if |corridors| == 0 then [start]
    else Route(start, corridors[..|corridors| - 1]) + CorridorWalk(corridors[|corridors| - 1])
  }

  /** The centre of a room inside the map is an open tile on the map. */
  lemma CentreOpen(g: Grid, rooms: seq<Rect>, corridors: seq<Corridor>, i: nat)
    requires WellFormed(g) && Shows(g, rooms, corridors) && i < |rooms| && InsideMap(rooms[i])
    ensures var c := Center(rooms[i]); InBounds(c.0, c.1) && !g[c.0][c.1].blocked
  {
    var c := Center(rooms[i]);
    assert Interior(rooms[i], c.0, c.1);
    assert InSomeRoom(rooms, c.0, c.1);
  }

  /** Following the first `n` corridors leads over open tiles from the first
      room's centre to the centre of room `n`. */
  lemma {:induction false} RouteIsOpen(g: Grid, rooms: seq<Rect>, corridors: seq<Corridor>, n: nat)
    requires WellFormed(g) && Shows(g, rooms, corridors) && Chained(rooms, corridors)
    requires n < |rooms| && forall i | 0 <= i < |rooms| :: InsideMap(rooms[i])
    ensures OpenWalk(g, Route(Center(rooms[0]), corridors[..n]), Center(rooms[0]), Center(rooms[n]))
    decreases n
  {
    var start := Center(rooms[0]);
    CentreOpen(g, rooms, corridors, 0);
    if n > 0 {
      RouteIsOpen(g, rooms, corridors, n - 1);
      assert corridors[..n][..n - 1] == corridors[..n - 1];
      CentreOpen(g, rooms, corridors, n - 1);
      CentreOpen(g, rooms, corridors, n);
      CorridorIsOpen(g, rooms, corridors, n - 1);
      JoinWalks(g, Route(start, corridors[..n - 1]), CorridorWalk(corridors[n - 1]),
                start, Center(rooms[n - 1]), Center(rooms[n]));
    }
  }

  /** The stairs can be reached from the start over open tiles. */
  lemma StairsReachable(g: Grid, rooms: seq<Rect>, corridors: seq<Corridor>)
    requires WellFormed(g) && Shows(g, rooms, corridors) && Chained(rooms, corridors)
    requires |rooms| > 0 && forall i | 0 <= i < |rooms| :: InsideMap(rooms[i])
    ensures OpenWalk(g, Route(Center(rooms[0]), corridors), Center(rooms[0]), Center(rooms[|rooms| - 1]))
  {
    RouteIsOpen(g, rooms, corridors, |rooms| - 1);
    assert corridors[..|rooms| - 1] == corridors;
  }

  /** The `for r in range(MAX_ROOMS)` loop of `make_map`: the carved map,
      the kept rooms and tunnels, the first room's centre and the last
      room's centre. */
  method PlaceRooms(draws: seq<RoomDraw>)
    returns (g: Grid, rooms: seq<Rect>, corridors: seq<Corridor>, start: (int, int), last: (int, int))
    requires |draws| == MAX_ROOMS
    requires forall i | 0 <= i < |draws| :: DrawInRange(draws[i])
    ensures WellFormed(g) && Shows(g, rooms, corridors) && Chained(rooms, corridors)
    ensures forall i | 0 <= i < |rooms| :: InsideMap(rooms[i])
    ensures |rooms| >= 1 && start == Center(rooms[0]) && last == Center(rooms[|rooms| - 1])
    ensures rooms == KeptRooms(draws, |draws|) && Chosen(draws, |draws|, rooms)
    ensures Oriented(draws, KeptIndices(draws, |draws|), corridors)
  {
    g := SolidGrid();
    rooms, corridors, start, last := [], [], (0, 0), (0, 0);
    PlacingStart(draws);
    var r := 0;
    while r < MAX_ROOMS
      invariant 0 <= r <= MAX_ROOMS
      // compared with `true` so that the verifier keeps it as one fact
      // rather than re-proving each of its conjuncts
      invariant Placing(draws, r, g, rooms, corridors, start, last) == true
    {
      g, rooms, corridors, start, last := TryRoom(draws, r, g, rooms, corridors, start, last);
      r := r + 1;
    }
    PlacingDone(draws, g, rooms, corridors, start, last);
  }

  /** After the last attempt at least one room is kept, and the rooms have
      the guarantees of the reference choice. */
  lemma PlacingDone(draws: seq<RoomDraw>, g: Grid, rooms: seq<Rect>, corridors: seq<Corridor>,
                    start: (int, int), last: (int, int))
    requires 0 < |draws| && forall i | 0 <= i < |draws| :: DrawInRange(draws[i])
    requires Placing(draws, |draws|, g, rooms, corridors, start, last)
    ensures |rooms| >= 1 && start == Center(rooms[0]) && last == Center(rooms[|rooms| - 1])
    ensures Chosen(draws, |draws|, rooms)
  {
    KeptIsChosen(draws, |draws|);
  }

  /** What holds after the first `r` attempts: the grid shows the kept rooms
      and tunnels, the kept rooms are the reference choice, each tunnel
      follows its room's coin, and `start`/`last` are the first and last
      kept centres. */
  ghost predicate Placing(draws: seq<RoomDraw>, r: nat, g: Grid, rooms: seq<Rect>, corridors: seq<Corridor>,
                          start: (int, int), last: (int, int))
  {
    && r <= |draws|
    && WellFormed(g) && Shows(g, rooms, corridors) && Chained(rooms, corridors)
    && (forall i | 0 <= i < |rooms| :: InsideMap(rooms[i]))
    && (|rooms| > 0 ==> start == Center(rooms[0]) && last == Center(rooms[|rooms| - 1]))
    && rooms == KeptRooms(draws, r)
    && Oriented(draws, KeptIndices(draws, r), corridors)
  }

  /** Before the first attempt the map is solid rock and nothing is kept. */
  lemma PlacingStart(draws: seq<RoomDraw>)
    ensures Placing(draws, 0, SolidGrid(), [], [], (0, 0), (0, 0))
  {
  }

  /** One pass of the room loop: candidate `r` is kept exactly when it
      overlaps none of the rooms kept so far, and keeping it carves it and
      the tunnel to the previous room. */
  method TryRoom(draws: seq<RoomDraw>, r: nat, g: Grid, rooms: seq<Rect>, corridors: seq<Corridor>,
                 start: (int, int), last: (int, int))
    returns (g': Grid, rooms': seq<Rect>, corridors': seq<Corridor>, start': (int, int), last': (int, int))
    requires r < |draws| && DrawInRange(draws[r])
    requires Placing(draws, r, g, rooms, corridors, start, last)
    ensures Placing(draws, r + 1, g', rooms', corridors', start', last')
    ensures rooms' == if Intersects(Candidate(draws[r]), rooms) then rooms else rooms + [Candidate(draws[r])]
  {
    var d := draws[r];
    var newRoom := Candidate(d);
    KeptStep(draws, r);
    if !Intersects(newRoom, rooms) {
      assert InsideMap(newRoom);
      g', corridors' := KeepRoom(g, rooms, corridors, newRoom, d.coin);
      PlacingKeep(draws, r, g, rooms, corridors, start, last, g', corridors');
      last' := Center(newRoom);
      start' := if |rooms| == 0 then last' else start;
      rooms' := rooms + [newRoom];
    } else {
      g', rooms', corridors', start', last' := g, rooms, corridors, start, last;
    }
  }

  /** Carving a kept candidate, as `KeepRoom` does, extends what the loop
      has placed by that room and its tunnel. */
  lemma PlacingKeep(draws: seq<RoomDraw>, r: nat, g: Grid, rooms: seq<Rect>, corridors: seq<Corridor>,
                    start: (int, int), last: (int, int), g': Grid, corridors': seq<Corridor>)
    requires r < |draws| && DrawInRange(draws[r])
    requires Placing(draws, r, g, rooms, corridors, start, last)
    requires !Intersects(Candidate(draws[r]), rooms)
    requires WellFormed(g') && Shows(g', rooms + [Candidate(draws[r])], corridors')
    requires Chained(rooms + [Candidate(draws[r])], corridors')
    requires |rooms| > 0 ==>
      corridors' == corridors + [Corridor(Center(rooms[|rooms| - 1]), Center(Candidate(draws[r])), draws[r].coin == 1)]
    ensures var c := Center(Candidate(draws[r]));
      Placing(draws, r + 1, g', rooms + [Candidate(draws[r])], corridors', if |rooms| == 0 then c else start, c)
  {
    var newRoom := Candidate(draws[r]);
    var rooms' := rooms + [newRoom];
    assert InsideMap(newRoom);
    KeptStep(draws, r);
    if |rooms| > 0 {
      OrientedSnoc(draws, KeptIndices(draws, r), corridors, r, corridors'[|corridors|]);
    }
    forall i | 0 <= i < |rooms'|
      ensures InsideMap(rooms'[i])
    {
      if i < |rooms| {
        assert rooms'[i] == rooms[i];
      } else {
        assert rooms'[i] == newRoom;
      }
    }
  }

  /** The reference choice after the last attempt, with its coin-oriented
      tunnels, is a greedy plan. */
  lemma ChosenPlan(draws: seq<RoomDraw>, corridors: seq<Corridor>)
    requires Oriented(draws, KeptIndices(draws, |draws|), corridors)
    ensures GreedyPlan(draws, KeptRooms(draws, |draws|), corridors)
  {
    var idx := KeptIndices(draws, |draws|);
    KeptIncreasing(draws, |draws|);
    KeptIsGreedy(draws, |draws|);
    GreedyPlanOf(draws, idx, corridors);
  }

  /** The room loop of `make_map`, driven by one pre-drawn `RoomDraw` per
      attempt. */
  method MakeMap(draws: seq<RoomDraw>) returns (plan: Floorplan)
    requires |draws| == MAX_ROOMS
    requires forall i | 0 <= i < |draws| :: DrawInRange(draws[i])
    ensures WellFormed(plan.grid)
    ensures Shows(plan.grid, plan.rooms, plan.corridors)
    // the first candidate always succeeds, since nothing was kept before it
    ensures |plan.rooms| >= 1 && plan.rooms[0] == Candidate(draws[0])
    ensures forall i | 0 <= i < |plan.rooms| :: InsideMap(plan.rooms[i])
    ensures Separated(plan.rooms)
    // no candidate was rejected without cause: each touches some kept room
    ensures Explained(draws, |draws|, plan.rooms)
    ensures Chained(plan.rooms, plan.corridors)
    ensures plan.start == Center(plan.rooms[0])
    ensures plan.stairs == Center(plan.rooms[|plan.rooms| - 1])
    ensures InBounds(plan.stairs.0, plan.stairs.1) && !plan.grid[plan.stairs.0][plan.stairs.1].blocked
    // the stairs can be walked to from the start
    ensures exists path :: OpenWalk(plan.grid, path, plan.start, plan.stairs)
    // exactly the candidates touching no earlier kept room are kept, and each
    // tunnel is oriented by the coin of the room it leads to
    ensures plan.rooms == KeptRooms(draws, |draws|)
    ensures Oriented(draws, KeptIndices(draws, |draws|), plan.corridors)
    ensures GreedyPlan(draws, plan.rooms, plan.corridors)
  {
    var g, rooms, corridors, start, last := PlaceRooms(draws);
    StairsOnFloor(g, rooms, corridors);
    StairsReachable(g, rooms, corridors);
    ChosenPlan(draws, corridors);
    plan := Floorplan(g, rooms, corridors, start, last);
  }

  /** The centre of the last kept room, where the stairs go, is floor. */
  lemma StairsOnFloor(g: Grid, rooms: seq<Rect>, corridors: seq<Corridor>)
    requires WellFormed(g) && Shows(g, rooms, corridors)
    requires |rooms| > 0 && InsideMap(rooms[|rooms| - 1])
    ensures var c := Center(rooms[|rooms| - 1]); InBounds(c.0, c.1) && !g[c.0][c.1].blocked
  {
  }
}
