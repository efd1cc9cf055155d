/** Which candidate rooms `make_map` keeps: each attempt draws a rectangle,
    and it is kept only if it touches no room kept before it. `KeptIndices`
    is the reference definition of that choice; `Greedy` characterises it. */
module Rooms {
  import opened Geometry
  import opened Tiles

  const ROOM_MAX_SIZE: int := 15
  const ROOM_MIN_SIZE: int := 5
  const MAX_ROOMS: nat := 40

  /** The random draws of one attempt: width, height, top-left corner, and
      the coin tossed to orient the tunnel when the room is kept. */
  datatype RoomDraw = RoomDraw(w: int, h: int, x: int, y: int, coin: int)

  /** The ranges `random_get_int` is asked for. */
  predicate DrawInRange(d: RoomDraw)
  {
    && ROOM_MIN_SIZE <= d.w <= ROOM_MAX_SIZE
    && ROOM_MIN_SIZE <= d.h <= ROOM_MAX_SIZE
    && 0 <= d.x <= MAP_WIDTH - d.w - 1
    && 0 <= d.y <= MAP_HEIGHT - d.h - 1
    && 0 <= d.coin <= 1
  }

  /** The rectangle an attempt proposes. */
  function Candidate(d: RoomDraw): Rect
  {
    MakeRect(d.x, d.y, d.w, d.h)
  }

  /** A room whose rectangle, walls included, lies on the map, with at
      least the minimum size. */
  predicate InsideMap(r: Rect)
  {
    && 0 <= r.x1 && r.x1 + ROOM_MIN_SIZE <= r.x2 < MAP_WIDTH
    && 0 <= r.y1 && r.y1 + ROOM_MIN_SIZE <= r.y2 < MAP_HEIGHT
  }

  predicate Intersects(room: Rect, rooms: seq<Rect>)
  {
    exists j {:trigger Intersect(room, rooms[j])} | 0 <= j < |rooms| :: Intersect(room, rooms[j])
  }

  /** Kept rooms never touch one another, walls included. */
  predicate Separated(rooms: seq<Rect>)
  {
    forall i, j {:trigger Apart(rooms, i, j)} | 0 <= i < j < |rooms| :: Apart(rooms, i, j)
  }

  /** Rooms `i` and `j` of `rooms` do not touch, walls included. */
  predicate Apart(rooms: seq<Rect>, i: nat, j: nat)
    requires i < |rooms| && j < |rooms|
  {
    !Intersect(rooms[i], rooms[j])
  }

  /** Each of the first `n` candidates touches some kept room. */
  predicate Explained(draws: seq<RoomDraw>, n: nat, rooms: seq<Rect>)
    requires n <= |draws|
  {
    forall i {:trigger Covered(draws, i, rooms)} | 0 <= i < n :: Covered(draws, i, rooms)
  }

  /** Candidate `i` touches one of `rooms`. */
  predicate Covered(draws: seq<RoomDraw>, i: nat, rooms: seq<Rect>)
    requires i < |draws|
  {
    Intersects(Candidate(draws[i]), rooms)
  }

  lemma KeepPreservesRoomFacts(draws: seq<RoomDraw>, n: nat, rooms: seq<Rect>, newRoom: Rect)
    requires n < |draws| && newRoom == Candidate(draws[n]) && DrawInRange(draws[n])
    requires Separated(rooms) && Explained(draws, n, rooms) && !Intersects(newRoom, rooms)
    ensures Separated(rooms + [newRoom]) && Explained(draws, n + 1, rooms + [newRoom])
  {
    var rooms' := rooms + [newRoom];
    forall i, j | 0 <= i < j < |rooms'|
      ensures Apart(rooms', i, j)
    {
      if j == |rooms| {
        assert !Intersect(newRoom, rooms[i]);
      } else {
        assert Apart(rooms, i, j);
      }
    }
    forall i | 0 <= i < n + 1
      ensures Covered(draws, i, rooms')
    {
      if i == n {
        assert Intersect(newRoom, rooms'[|rooms|]);
      } else {
        assert Covered(draws, i, rooms);
        var j :| 0 <= j < |rooms| && Intersect(Candidate(draws[i]), rooms[j]);
        assert rooms'[j] == rooms[j];
      }
    }
  }

  /** The candidates named by `idx`, in order. */
  function RoomsAt(draws: seq<RoomDraw>, idx: seq<nat>): (r: seq<Rect>)
    requires forall m | 0 <= m < |idx| :: idx[m] < |draws|
    ensures |r| == |idx| && forall m | 0 <= m < |idx| :: r[m] == Candidate(draws[idx[m]])
  {
    seq(|idx|, m requires 0 <= m < |idx| => Candidate(draws[idx[m]]))
  }

  lemma RoomsAtSnoc(draws: seq<RoomDraw>, idx: seq<nat>, j: nat)
    requires j < |draws| && forall m | 0 <= m < |idx| :: idx[m] < |draws|
    ensures RoomsAt(draws, idx + [j]) == RoomsAt(draws, idx) + [Candidate(draws[j])]
  {
  }

  /** Which of the first `n` candidates the room loop keeps, as a reference
      definition: a candidate is kept iff it touches no room kept before it. */
  function KeptIndices(draws: seq<RoomDraw>, n: nat): (r: seq<nat>)
    requires n <= |draws|
    ensures forall m | 0 <= m < |r| :: r[m] < n
  {
    if n == 0 then []
    else
      var prev := KeptIndices(draws, n - 1);
      if Intersects(Candidate(draws[n - 1]), RoomsAt(draws, prev)) then prev else prev + [n - 1]
  }

  /** Candidates `i` and `j` touch, walls included. */
  predicate Touch(draws: seq<RoomDraw>, i: nat, j: nat)
    requires i < |draws| && j < |draws|
  {
    Intersect(Candidate(draws[i]), Candidate(draws[j]))
  }

  /** Candidate `i` touches none of the candidates `idx` names below `i`. */
  predicate ClearOf(draws: seq<RoomDraw>, idx: seq<nat>, i: nat)
    requires i < |draws| && forall m | 0 <= m < |idx| :: idx[m] < |draws|
  {
    forall m {:trigger Touch(draws, i, idx[m])} | 0 <= m < |idx| && idx[m] < i :: !Touch(draws, i, idx[m])
  }

  /** Naming an index at or above `i` does not change whether `i` is clear. */
  lemma ClearOfSnoc(draws: seq<RoomDraw>, idx: seq<nat>, j: nat, i: nat)
    requires i <= j < |draws| && forall m | 0 <= m < |idx| :: idx[m] < |draws|
    ensures ClearOf(draws, idx + [j], i) <==> ClearOf(draws, idx, i)
  {
    assert forall m | 0 <= m < |idx| :: (idx + [j])[m] == idx[m];
  }

  /** A candidate after all of `idx` is clear of it iff it touches none of
      those rooms. */
  lemma ClearOfAll(draws: seq<RoomDraw>, idx: seq<nat>, i: nat)
    requires i < |draws| && forall m | 0 <= m < |idx| :: idx[m] < i
    ensures ClearOf(draws, idx, i) <==> !Intersects(Candidate(draws[i]), RoomsAt(draws, idx))
  {
    var rooms := RoomsAt(draws, idx);
    if Intersects(Candidate(draws[i]), rooms) {
      var m :| 0 <= m < |rooms| && Intersect(Candidate(draws[i]), rooms[m]);
      assert idx[m] < i && Touch(draws, i, idx[m]);
    } else {
      forall m | 0 <= m < |idx| && idx[m] < i
        ensures !Touch(draws, i, idx[m])
      {
        assert !Intersect(Candidate(draws[i]), rooms[m]);
      }
    }
  }

  predicate Increasing(idx: seq<nat>)
  {
    forall m, k {:trigger Below(idx, m, k)} | 0 <= m < k < |idx| :: Below(idx, m, k)
  }

  /** Entry `m` of `idx` is smaller than entry `k`. */
  predicate Below(idx: seq<nat>, m: nat, k: nat)
    requires m < |idx| && k < |idx|
  {
    idx[m] < idx[k]
  }

  /** The kept indices increase. */
  lemma {:induction false} KeptIncreasing(draws: seq<RoomDraw>, n: nat)
    requires n <= |draws|
    ensures Increasing(KeptIndices(draws, n))
  {
    if n > 0 {
      KeptIncreasing(draws, n - 1);
      var prev := KeptIndices(draws, n - 1);
      var idx := KeptIndices(draws, n);
      if idx != prev {
        assert idx == prev + [n - 1];
        forall m, k | 0 <= m < k < |idx|
          ensures Below(idx, m, k)
        {
          assert idx[m] == prev[m] && prev[m] < n - 1;
          if k < |prev| {
            assert idx[k] == prev[k] && Below(prev, m, k);
          }
        }
      }
    }
  }

  /** One step of the room loop keeps the greedy characterisation: the next
      candidate is appended exactly when it is clear of the kept ones. */
  lemma GreedyStep(draws: seq<RoomDraw>, prev: seq<nat>, idx: seq<nat>, n: nat)
    requires 0 < n <= |draws| && forall m | 0 <= m < |prev| :: prev[m] < n - 1
    requires forall i | 0 <= i < n - 1 :: (i in prev) <==> ClearOf(draws, prev, i)
    requires if ClearOf(draws, prev, n - 1) then idx == prev + [n - 1] else idx == prev
    ensures forall i | 0 <= i < n :: (i in idx) <==> ClearOf(draws, idx, i)
  {
    assert n - 1 !in prev;
    forall i | 0 <= i < n
      ensures (i in idx) <==> ClearOf(draws, idx, i)
    {
      if idx != prev {
        ClearOfSnoc(draws, prev, n - 1, i);
      }
    }
  }

  /** Candidate `i` is kept iff it touches none of the candidates kept
      before it. */
  lemma {:induction false} KeptIsGreedy(draws: seq<RoomDraw>, n: nat)
    requires n <= |draws|
    ensures forall i | 0 <= i < n ::
      (i in KeptIndices(draws, n)) <==> ClearOf(draws, KeptIndices(draws, n), i)
  {
    if n > 0 {
      KeptIsGreedy(draws, n - 1);
      var prev := KeptIndices(draws, n - 1);
      ClearOfAll(draws, prev, n - 1);
      GreedyStep(draws, prev, KeptIndices(draws, n), n);
    }
  }

  /** `idx` lists, in increasing order, exactly those of the first `n`
      candidates that touch none of the candidates it lists before them. */
  ghost predicate Greedy(draws: seq<RoomDraw>, n: nat, idx: seq<nat>)
  {
    && n <= |draws| && Increasing(idx)
    && (forall m | 0 <= m < |idx| :: idx[m] < n)
    && forall i {:trigger ClearOf(draws, idx, i)} | 0 <= i < n :: (i in idx) <==> ClearOf(draws, idx, i)
  }

  /** `idx` without its last entry when that entry is `n - 1`: the greedy
      list of the first `n - 1` candidates. */
  function DropAttempt(idx: seq<nat>, n: nat): seq<nat>
  {
    if |idx| > 0 && idx[|idx| - 1] == n - 1 then idx[..|idx| - 1] else idx
  }

  /** A greedy list ending in attempt `n - 1`: that candidate was clear of
      the rest, which is the greedy list of the earlier attempts. */
  lemma GreedyDropKept(draws: seq<RoomDraw>, n: nat, prev: seq<nat>)
    requires 0 < n && Greedy(draws, n, prev + [n - 1])
    ensures Greedy(draws, n - 1, prev) && ClearOf(draws, prev, n - 1)
  {
    var idx := prev + [n - 1];
    forall m | 0 <= m < |prev|
      ensures prev[m] < n - 1
    {
      assert prev[m] == idx[m] && Below(idx, m, |prev|);
    }
    forall m, k | 0 <= m < k < |prev|
      ensures Below(prev, m, k)
    {
      assert Below(idx, m, k);
    }
    forall i | 0 <= i < n - 1
      ensures (i in prev) <==> ClearOf(draws, prev, i)
    {
      ClearOfSnoc(draws, prev, n - 1, i);
      assert (i in idx) <==> (i in prev);
    }
    ClearOfSnoc(draws, prev, n - 1, n - 1);
  }

  /** A greedy list without attempt `n - 1`: that candidate touched a listed
      room, and the list is the greedy list of the earlier attempts. */
  lemma GreedyDropSkipped(draws: seq<RoomDraw>, n: nat, idx: seq<nat>)
    requires 0 < n && Greedy(draws, n, idx) && n - 1 !in idx
    ensures Greedy(draws, n - 1, idx) && !ClearOf(draws, idx, n - 1)
  {
    forall m | 0 <= m < |idx|
      ensures idx[m] < n - 1
    {
      assert idx[m] != n - 1;
    }
  }

  /** Forgetting the last attempt leaves a greedy list, from which the full
      one is recovered by that attempt's decision. */
  lemma GreedyDropAttempt(draws: seq<RoomDraw>, n: nat, idx: seq<nat>)
    requires 0 < n && Greedy(draws, n, idx)
    ensures Greedy(draws, n - 1, DropAttempt(idx, n))
    ensures idx == if ClearOf(draws, DropAttempt(idx, n), n - 1) then DropAttempt(idx, n) + [n - 1]
                   else DropAttempt(idx, n)
  {
    var prev := DropAttempt(idx, n);
    if |idx| > 0 && idx[|idx| - 1] == n - 1 {
      assert idx == prev + [n - 1];
      GreedyDropKept(draws, n, prev);
    } else {
      forall m | 0 <= m < |idx|
        ensures idx[m] != n - 1
      {
        if m < |idx| - 1 {
          assert Below(idx, m, |idx| - 1);
        }
      }
      GreedyDropSkipped(draws, n, idx);
    }
  }

  /** A greedy list is the reference choice: the rooms `make_map` keeps are
      determined by the draws. */
  lemma {:induction false} GreedyIsKept(draws: seq<RoomDraw>, n: nat, idx: seq<nat>)
    requires Greedy(draws, n, idx)
    ensures idx == KeptIndices(draws, n)
  {
    if n > 0 {
      var prev := DropAttempt(idx, n);
      GreedyDropAttempt(draws, n, idx);
      GreedyIsKept(draws, n - 1, prev);
      ClearOfAll(draws, prev, n - 1);
      assert KeptIndices(draws, n) ==
        if Intersects(Candidate(draws[n - 1]), RoomsAt(draws, prev)) then prev else prev + [n - 1];
    }
  }

  /** The rooms kept by the first `n` attempts, in the order they were kept. */
  function KeptRooms(draws: seq<RoomDraw>, n: nat): seq<Rect>
    requires n <= |draws|
  {
    RoomsAt(draws, KeptIndices(draws, n))
  }

  /** One more attempt: its candidate is appended exactly when it touches
      none of the rooms kept so far. */
  lemma KeptStep(draws: seq<RoomDraw>, r: nat)
    requires r < |draws|
    ensures !Intersects(Candidate(draws[r]), KeptRooms(draws, r)) ==>
      && KeptIndices(draws, r + 1) == KeptIndices(draws, r) + [r]
      && KeptRooms(draws, r + 1) == KeptRooms(draws, r) + [Candidate(draws[r])]
    ensures Intersects(Candidate(draws[r]), KeptRooms(draws, r)) ==>
      && KeptIndices(draws, r + 1) == KeptIndices(draws, r)
      && KeptRooms(draws, r + 1) == KeptRooms(draws, r)
  {
    RoomsAtSnoc(draws, KeptIndices(draws, r), r);
  }

  /** What a choice of rooms after `r` attempts guarantees: some room is
      kept once any attempt was made, the first candidate always is, the
      kept rooms never touch one another, and every candidate touches one
      of them. */
  ghost predicate Chosen(draws: seq<RoomDraw>, r: nat, rooms: seq<Rect>)
  {
    && r <= |draws|
    && (r == 0 <==> |rooms| == 0)
    && (r > 0 ==> rooms[0] == Candidate(draws[0]))
    && Separated(rooms) && Explained(draws, r, rooms)
  }

  /** Keeping a candidate that touches no kept room extends the choice. */
  lemma ChosenKeep(draws: seq<RoomDraw>, r: nat, rooms: seq<Rect>)
    requires r < |draws| && DrawInRange(draws[r]) && Chosen(draws, r, rooms)
    requires !Intersects(Candidate(draws[r]), rooms)
    ensures Chosen(draws, r + 1, rooms + [Candidate(draws[r])])
  {
    KeepPreservesRoomFacts(draws, r, rooms, Candidate(draws[r]));
  }

  /** Passing over a candidate that touches a kept room keeps the choice. */
  lemma ChosenSkip(draws: seq<RoomDraw>, r: nat, rooms: seq<Rect>)
    requires r < |draws| && Chosen(draws, r, rooms)
    requires Intersects(Candidate(draws[r]), rooms)
    ensures Chosen(draws, r + 1, rooms)
  {
  }

  /** The reference choice has those guarantees when every draw is in range. */
  lemma {:induction false} KeptIsChosen(draws: seq<RoomDraw>, n: nat)
    requires n <= |draws| && forall i | 0 <= i < n :: DrawInRange(draws[i])
    ensures Chosen(draws, n, KeptRooms(draws, n))
  {
    if n > 0 {
      KeptIsChosen(draws, n - 1);
      KeptStep(draws, n - 1);
      if Intersects(Candidate(draws[n - 1]), KeptRooms(draws, n - 1)) {
        ChosenSkip(draws, n - 1, KeptRooms(draws, n - 1));
      } else {
        ChosenKeep(draws, n - 1, KeptRooms(draws, n - 1));
      }
    }
  }
}
