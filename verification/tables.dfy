/** The depth-scaled population tables: the step-function lookup
    `from_dungeon_level` and the weighted pick `random_choice_index`. */
module Tables {

  /** One `[value, level]` pair of a table: `value` applies from dungeon
      level `minLevel` on. */
  datatype Entry = Entry(value: int, minLevel: int)

  /** Maximum monsters per room, by dungeon level. */
  const MAX_MONSTERS: seq<Entry> := [Entry(2, 1), Entry(3, 4), Entry(5, 6)]

  /** Maximum items per room, by dungeon level. */
  const MAX_ITEMS: seq<Entry> := [Entry(1, 1), Entry(2, 4), Entry(3, 8)]

  /** `from_dungeon_level`: scan the table from its end and return the value
      of the first entry whose level has been reached, or 0. */
  function FromDungeonLevel(table: seq<Entry>, level: int): (r: int)
    ensures (forall i | 0 <= i < |table| :: table[i].minLevel > level) ==> r == 0
    ensures (exists i | 0 <= i < |table| :: table[i].minLevel <= level) ==>
      exists i | 0 <= i < |table| ::
        && table[i].minLevel <= level
        && r == table[i].value
        && forall j | i < j < |table| :: table[j].minLevel > level
  {
    if |table| == 0 then 0
    else if level >= table[|table| - 1].minLevel then table[|table| - 1].value
    else
      var rest := table[..|table| - 1];
      assert forall i | 0 <= i < |rest| :: rest[i] == table[i];
      FromDungeonLevel(rest, level)
  }

  /** The worked example: at level 0 nothing qualifies, at level 5 the
      `[3, 4]` entry is the last one reached, at level 7 the `[5, 6]` one. */
  lemma MaxMonstersSteps()
    ensures FromDungeonLevel(MAX_MONSTERS, 0) == 0
    ensures FromDungeonLevel(MAX_MONSTERS, 1) == 2
    ensures FromDungeonLevel(MAX_MONSTERS, 5) == 3
    ensures FromDungeonLevel(MAX_MONSTERS, 7) == 5
    ensures FromDungeonLevel(MAX_ITEMS, 7) == 2
  {
  }

  /** The sum of the first `n` weights. */
  function SumTo(chances: seq<int>, n: nat): int
    requires n <= |chances|
  {
    if n == 0 then 0 else SumTo(chances, n - 1) + chances[n - 1]
  }

  function Total(chances: seq<int>): int
  {
    SumTo(chances, |chances|)
  }

  /** The running sum once weight `j` has been added. */
  function Running(chances: seq<int>, j: nat): int
    requires j < |chances|
  {
    SumTo(chances, j + 1)
  }

  /** Index `c` is the first one whose running sum reaches `dice`. */
  predicate Selects(chances: seq<int>, dice: int, c: nat)
  {
    && c < |chances|
    && dice <= Running(chances, c)
    && forall j | 0 <= j < c :: Running(chances, j) < dice
  }

  /** `random_choice_index` with the die already rolled: `dice` is the value
      drawn from `[1, sum(chances)]`. */
  method RandomChoiceIndex(chances: seq<int>, dice: int) returns (choice: nat)
    requires 1 <= dice <= Total(chances)
    ensures Selects(chances, dice, choice)
    ensures SumTo(chances, choice) < dice
    ensures chances[choice] > 0
  {
    choice := 0;
    var runningSum := chances[0];
    assert runningSum == SumTo(chances, 0) + chances[0];
    while runningSum < dice
      invariant choice < |chances|
      invariant runningSum == Running(chances, choice)
      invariant forall j | 0 <= j < choice :: Running(chances, j) < dice
      decreases |chances| - choice
    {
      choice := choice + 1;
      runningSum := runningSum + chances[choice];
    }
    if choice > 0 {
      assert Running(chances, choice - 1) < dice;
    }
  }

  /** At most one index is selected by a given die. */
  lemma SelectsUnique(chances: seq<int>, dice: int, c1: nat, c2: nat)
    requires Selects(chances, dice, c1) && Selects(chances, dice, c2)
    ensures c1 == c2
  {
  }

  predicate NonNegative(chances: seq<int>)
  {
    forall i | 0 <= i < |chances| :: chances[i] >= 0
  }

  lemma {:induction false} SumToMonotone(chances: seq<int>, m: nat, n: nat)
    requires NonNegative(chances) && m <= n <= |chances|
    ensures SumTo(chances, m) <= SumTo(chances, n)
    decreases n - m
  {
    if m < n {
      SumToMonotone(chances, m, n - 1);
    }
  }

  /** With non-negative weights, index `c` is selected exactly by the dice in
      its bracket `(SumTo(c), SumTo(c + 1)]`, which holds `chances[c]` values:
      each index is picked with probability proportional to its weight. A
      positive weight is therefore always selectable, and a zero weight never. */
  lemma SelectedExactlyByBracket(chances: seq<int>, dice: int, c: nat)
    requires NonNegative(chances) && c < |chances| && 1 <= dice
    ensures Selects(chances, dice, c) <==> SumTo(chances, c) < dice <= Running(chances, c)
    ensures chances[c] > 0 ==> 1 <= SumTo(chances, c) + 1 <= Total(chances)
    ensures chances[c] > 0 ==> Selects(chances, SumTo(chances, c) + 1, c)
  {
    if SumTo(chances, c) < dice <= Running(chances, c) {
      BracketSelects(chances, dice, c);
    }
    if Selects(chances, dice, c) && c > 0 {
      assert Running(chances, c - 1) < dice;
    }
    SumToMonotone(chances, 0, c);
    SumToMonotone(chances, c + 1, |chances|);
    if chances[c] > 0 {
      BracketSelects(chances, SumTo(chances, c) + 1, c);
    }
  }

  lemma BracketSelects(chances: seq<int>, dice: int, c: nat)
    requires NonNegative(chances) && c < |chances|
    requires SumTo(chances, c) < dice <= Running(chances, c)
    ensures Selects(chances, dice, c)
  {
    forall j | 0 <= j < c
      ensures Running(chances, j) < dice
    {
      SumToMonotone(chances, j + 1, c);
    }
  }
}
