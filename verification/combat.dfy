/** Class `Fighter` in play: effective stats, `take_damage` with the death
    handlers, `heal`, the `attack` formula and `check_level_up`. */
module Combat {
  import opened Optional
  import opened PyArith
  import opened Seqs
  import opened Entities
  import opened Inventory

  const LEVEL_UP_BASE: int := 200
  const LEVEL_UP_FACTOR: int := 150
  const HEAL_AMOUNT: int := 40

  /** `get_all_equipped(obj)`: the player's equipped gear; every other
      object has none. */
  function EquipmentOf(w: World, k: nat): (r: seq<Equipment>)
    ensures k != w.player ==> r == []
    ensures k == w.player ==> forall e | e in r :: e.equipped
    ensures k == w.player ==> forall e :: multiset(r)[e] == |EquippedCopies(w.inventory, e)|
  {
    if k == w.player then AllEquipped(w.inventory) else []
  }

  function BaseStat(f: Fighter, s: Stat): int
  {
    match s
    case Power => f.basePower
    case Defense => f.baseDefense
    case MaxHp => f.baseMaxHp
  }

  /** The `power`, `defense` and `max_hp` properties: base value plus the
      bonuses of the owner's equipped gear. */
  function Effective(w: World, k: nat, s: Stat): (v: int)
    requires HasFighter(w, k)
    ensures k != w.player ==> v == BaseStat(FighterOf(w, k), s)
    ensures k == w.player ==> v == BaseStat(FighterOf(w, k), s) + SumBonus(AllEquipped(w.inventory), s)
    // with nothing equipped the player fights at base values
    ensures k == w.player && (forall j | 0 <= j < |w.inventory| :: !IsEquipped(w.inventory[j])) ==>
      v == BaseStat(FighterOf(w, k), s)
  {
    assert (forall j | 0 <= j < |w.inventory| :: !IsEquipped(w.inventory[j])) ==> AllEquipped(w.inventory) == [] by {
      if |AllEquipped(w.inventory)| > 0 {
        var e := AllEquipped(w.inventory)[0];
        assert e in AllEquipped(w.inventory);
        var i :| 0 <= i < |w.inventory| && w.inventory[i].equipment == Some(e);
        assert IsEquipped(w.inventory[i]);
      }
    }
    BaseStat(FighterOf(w, k), s) + SumBonus(EquipmentOf(w, k), s)
  }

  /** Equipping an item in the player's inventory raises the player's stat by
      the item's bonus less the bonus of the item it displaces, and leaves
      every other fighter's stats at their base values. */
  lemma EquippingChangesPlayerStats(w: World, i: nat, s: Stat)
    requires Valid(w) && i < |w.inventory| && w.inventory[i].equipment.Some?
    requires !IsEquipped(w.inventory[i])
    ensures var w' := w.(inventory := Equip(w.inventory, i));
      && Effective(w', w.player, s)
         == Effective(w, w.player, s) + Bonus(w.inventory[i].equipment.value, s)
            - (match EquippedInSlot(w.inventory, w.inventory[i].equipment.value.slot)
               case None => 0
               case Some(j) => Bonus(w.inventory[j].equipment.value, s))
      && forall k | HasFighter(w, k) && k != w.player ::
           Effective(w', k, s) == Effective(w, k, s) == BaseStat(FighterOf(w, k), s)
  {
    EquipBonus(w.inventory, i, s);
  }

  /** The remains `monster_death` leaves: no longer blocking, fighting or
      thinking, and renamed. */
  function Remains(e: Entity): (r: Entity)
    ensures r.fighter.None? && r.ai.None? && !r.blocks
    ensures r.x == e.x && r.y == e.y && r.item == e.item && r.equipment == e.equipment
  {
    e.(blocks := false, fighter := None, ai := None, name := "remains of " + e.name)
  }

  /** Run the death handler of object `k`. */
  function Die(w: World, k: nat): (r: World)
    requires Valid(w) && HasFighter(w, k)
    ensures Valid(r) && r == w.(objects := r.objects, player := r.player, state := r.state)
    ensures |r.objects| == |w.objects| && r.objects[r.player] == w.objects[w.player]
    // no handler: nothing happens
    ensures FighterOf(w, k).death == NoDeath ==> r == w
    // `player_death`: the game is over, and nothing else changes
    ensures FighterOf(w, k).death == PlayerDeath ==> r == w.(state := Dead)
    // `monster_death`: the remains go to the front of the object list
    ensures FighterOf(w, k).death == MonsterDeath ==>
      && r.state == w.state
      && r.objects[0] == Remains(w.objects[k]) && r.player == BackShift(w.player, k)
      && forall j | 0 <= j < |w.objects| && j != k :: r.objects[BackShift(j, k)] == w.objects[j]
  {
    match FighterOf(w, k).death
    case NoDeath => w
    case PlayerDeath => w.(state := Dead)
    case MonsterDeath =>
      var objects := SendToBack(w.objects[k := Remains(w.objects[k])], k);
      assert objects[BackShift(w.player, k)] == w.objects[w.player];
      w.(objects := objects, player := BackShift(w.player, k))
  }

  /** Add experience to the player's fighter. */
  function AwardXp(w: World, amount: int): (r: World)
    requires Valid(w)
    ensures Valid(r) && r == w.(objects := r.objects) && |r.objects| == |w.objects|
    ensures PlayerFighter(r) == PlayerFighter(w).(xp := PlayerFighter(w).xp + amount)
    ensures r.objects[w.player].(fighter := None) == w.objects[w.player].(fighter := None)
    ensures forall j | 0 <= j < |w.objects| && j != w.player :: r.objects[j] == w.objects[j]
  {
    var f := PlayerFighter(w);
    WithFighter(w, w.player, f.(xp := f.xp + amount))
  }

  /** The hit kills: positive damage that brings hp to 0 or below. */
  predicate Kills(f: Fighter, damage: int)
  {
    damage > 0 && f.hp - damage <= 0
  }

  /** `Fighter.take_damage` on object `k`. */
  function TakeDamage(w: World, k: nat, damage: int): (r: World)
    requires Valid(w) && HasFighter(w, k)
    ensures Valid(r) && r == w.(objects := r.objects, player := r.player, state := r.state)
    ensures |r.objects| == |w.objects|
    // non-positive damage is ignored
    ensures damage <= 0 ==> r == w
    // otherwise the victim loses exactly `damage` hp, unless `monster_death`
    // turned it into remains; objects other than the victim and the player
    // stay as they were
    ensures damage > 0 && !(Kills(FighterOf(w, k), damage) && FighterOf(w, k).death == MonsterDeath) ==>
      && r.player == w.player
      && HasFighter(r, k) && FighterOf(r, k) == FighterOf(w, k).(hp := FighterOf(w, k).hp - damage)
      && r.objects[k].(fighter := None) == w.objects[k].(fighter := None)
      && forall j | 0 <= j < |w.objects| && j != k && j != w.player :: r.objects[j] == w.objects[j]
    // a kill runs the death handler ...
    ensures r.state == (if Kills(FighterOf(w, k), damage) && FighterOf(w, k).death == PlayerDeath
                        then Dead else w.state)
    ensures Kills(FighterOf(w, k), damage) && FighterOf(w, k).death == MonsterDeath ==>
      && r.objects[0] == Remains(w.objects[k])
      && r.player == BackShift(w.player, k)
      && forall j | 0 <= j < |w.objects| && j != k && j != w.player ::
           r.objects[BackShift(j, k)] == w.objects[j]
    // ... and pays the victim's xp to the player unless the victim is the player
    ensures PlayerFighter(r).xp == PlayerFighter(w).xp +
      (if Kills(FighterOf(w, k), damage) && k != w.player then FighterOf(w, k).xp else 0)
    // the player loses hp only as the victim, and changes in nothing but hp and xp
    ensures PlayerFighter(r).hp == PlayerFighter(w).hp - (if damage > 0 && k == w.player then damage else 0)
    ensures PlayerFighter(r).(hp := 0, xp := 0) == PlayerFighter(w).(hp := 0, xp := 0)
    ensures r.objects[r.player].(fighter := None) == w.objects[w.player].(fighter := None)
  {
    var f := FighterOf(w, k);
    if damage <= 0 then w
    else
      var w1 := WithFighter(w, k, f.(hp := f.hp - damage));
      if f.hp - damage > 0 then w1
      else Slay(w1, k, f.xp)
  }

  /** The end of a fatal `take_damage`: the death handler of object `k`
      runs, then `xp` goes to the player unless `k` is the player. */
  function Slay(w: World, k: nat, xp: int): (r: World)
    requires Valid(w) && HasFighter(w, k)
    ensures Valid(r) && r == w.(objects := r.objects, player := r.player, state := r.state)
    ensures |r.objects| == |w.objects|
    ensures r.state == (if FighterOf(w, k).death == PlayerDeath then Dead else w.state)
    ensures FighterOf(w, k).death != MonsterDeath ==>
      && r.player == w.player && r.objects[k] == w.objects[k]
      && forall j | 0 <= j < |w.objects| && j != w.player :: r.objects[j] == w.objects[j]
    ensures FighterOf(w, k).death == MonsterDeath ==>
      && r.objects[0] == Remains(w.objects[k])
      && r.player == BackShift(w.player, k)
      && forall j | 0 <= j < |w.objects| && j != k && j != w.player ::
           r.objects[BackShift(j, k)] == w.objects[j]
    ensures PlayerFighter(r) == PlayerFighter(w).(xp := PlayerFighter(w).xp + if k != w.player then xp else 0)
    ensures r.objects[r.player].(fighter := None) == w.objects[w.player].(fighter := None)
  {
    var w2 := Die(w, k);
    if k != w.player then AwardXp(w2, xp) else w2
  }

  /** `monster_death` fires at most once: the remains carry no fighter, so
      nothing can damage them again, and they no longer block. */
  lemma MonsterDiesOnce(w: World, k: nat, damage: int)
    requires Valid(w) && HasFighter(w, k) && FighterOf(w, k).death == MonsterDeath
    requires Kills(FighterOf(w, k), damage)
    ensures var r := TakeDamage(w, k, damage);
      !HasFighter(r, 0) && !r.objects[0].blocks && r.objects[0].ai.None? && r.state == w.state
  {
  }

  /** `Fighter.heal` against the fighter's effective maximum. */
  function Heal(f: Fighter, amount: int, maxHp: int): (r: Fighter)
    ensures r == f.(hp := r.hp)
    ensures r.hp <= maxHp && r.hp <= f.hp + amount
    ensures r.hp == f.hp + amount || r.hp == maxHp
  {
    var hp := f.hp + amount;
    f.(hp := if hp > maxHp then maxHp else hp)
  }

  /** Healing in two steps is healing once by the sum, as long as the second
      step is not negative: the clamp loses nothing that a later heal would
      have kept. From full or below, a heal never lowers hp. */
  lemma HealSteps(f: Fighter, a: int, b: int, maxHp: int)
    requires b >= 0
    ensures Heal(Heal(f, a, maxHp), b, maxHp) == Heal(f, a + b, maxHp)
    ensures a >= 0 && f.hp <= maxHp ==> Heal(f, a, maxHp).hp >= f.hp
  {
  }

  /** Heal the player up to the effective `max_hp`. */
  function HealPlayer(w: World, amount: int): (r: World)
    requires Valid(w)
    ensures Valid(r) && r.player == w.player && r == w.(objects := r.objects)
    ensures |r.objects| == |w.objects|
    ensures r.objects[w.player].(fighter := None) == w.objects[w.player].(fighter := None)
    ensures PlayerFighter(r) == Heal(PlayerFighter(w), amount, Effective(w, w.player, MaxHp))
    ensures forall j | 0 <= j < |w.objects| && j != w.player :: r.objects[j] == w.objects[j]
  {
    WithFighter(w, w.player, Heal(PlayerFighter(w), amount, Effective(w, w.player, MaxHp)))
  }

  /** The damage roll of `Fighter.attack`, with `r1` in [0, 2] and `r2` in
      [0, 6] the two draws. */
  function AttackDamage(power: int, defense: int, r1: int, r2: int): (d: int)
    requires 0 <= r1 <= 2 && 0 <= r2 <= 6 && 1 + defense != 0
    ensures power >= 0 && defense >= 0 ==> 0 <= r1 + r2 <= d <= r1 * (1 + 2 * power) + r2
    ensures r1 == 0 ==> d == r2
  {
    var q := FloorDiv(2 * power, 1 + defense);
    assert power >= 0 && defense >= 0 ==> 0 <= q <= 2 * power;
    r1 * (1 + q) + r2
  }

  /** `Fighter.attack`: roll the damage, then hit if it is positive. */
  function Attack(w: World, a: nat, t: nat, r1: int, r2: int): (r: World)
    requires Valid(w) && HasFighter(w, a) && HasFighter(w, t)
    requires 0 <= r1 <= 2 && 0 <= r2 <= 6 && 1 + Effective(w, t, Defense) != 0
    ensures Valid(r) && r.grid == w.grid && r.inventory == w.inventory && r.level == w.level
    ensures |r.objects| == |w.objects|
    // a positive roll is dealt to the target as exactly that much damage
    ensures var d := AttackDamage(Effective(w, a, Power), Effective(w, t, Defense), r1, r2);
      && (d <= 0 ==> r == w)
      && (d > 0 && !(Kills(FighterOf(w, t), d) && FighterOf(w, t).death == MonsterDeath) ==>
            HasFighter(r, t) && FighterOf(r, t).hp == FighterOf(w, t).hp - d)
      // a positive roll, fatal or not, has exactly the effect of `take_damage`
      && (d > 0 ==> r == TakeDamage(w, t, d))
    // only the target can die, and only the `player_death` handler ends the game
    ensures r.state == Dead ==> w.state == Dead || FighterOf(w, t).death == PlayerDeath
  {
    var d := AttackDamage(Effective(w, a, Power), Effective(w, t, Defense), r1, r2);
    if d > 0 then TakeDamage(w, t, d) else w
  }

  /** With non-negative stats no attack heals its target: damage is never
      negative, so a roll of zero leaves the target's world untouched and
      any other roll lowers its hp or kills it. */
  lemma AttackNeverHeals(w: World, a: nat, t: nat, r1: int, r2: int)
    requires Valid(w) && HasFighter(w, a) && HasFighter(w, t)
    requires 0 <= r1 <= 2 && 0 <= r2 <= 6
    requires Effective(w, a, Power) >= 0 && Effective(w, t, Defense) >= 0
    ensures var d := AttackDamage(Effective(w, a, Power), Effective(w, t, Defense), r1, r2);
      && d >= 0
      && (d == 0 ==> Attack(w, a, t, r1, r2) == w)
      && (d > 0 ==> Attack(w, a, t, r1, r2) == TakeDamage(w, t, d))
      && (d > 0 && !Kills(FighterOf(w, t), d) ==>
            FighterOf(Attack(w, a, t, r1, r2), t).hp < FighterOf(w, t).hp)
  {
  }

  /** The xp the player needs at character level `level`. */
  function LevelUpXp(level: int): int
  {
    LEVEL_UP_BASE + level * LEVEL_UP_FACTOR
  }

  /** `check_level_up`, with `choice` the menu answer: 0 raises max hp (and
      hp) by 20, 1 raises power by 1, 2 raises defense by 1. */
  function LevelUp(w: World, choice: nat): (r: World)
    requires Valid(w) && choice < 3
    ensures Valid(r) && r.player == w.player && r == w.(objects := r.objects, level := r.level)
    ensures |r.objects| == |w.objects|
    ensures r.objects[w.player].(fighter := None) == w.objects[w.player].(fighter := None)
    ensures var f, f' := PlayerFighter(w), PlayerFighter(r);
      var up := f.xp >= LevelUpXp(w.level);
      && r.level == (if up then w.level + 1 else w.level)
      && f'.xp == (if up then f.xp - LevelUpXp(w.level) else f.xp)
      && f'.baseMaxHp == f.baseMaxHp + (if up && choice == 0 then 20 else 0)
      && f'.hp == f.hp + (if up && choice == 0 then 20 else 0)
      && f'.basePower == f.basePower + (if up && choice == 1 then 1 else 0)
      && f'.baseDefense == f.baseDefense + (if up && choice == 2 then 1 else 0)
      && f'.death == f.death
    ensures forall j | 0 <= j < |w.objects| && j != w.player :: r.objects[j] == w.objects[j]
  {
    var f := PlayerFighter(w);
    var threshold := LevelUpXp(w.level);
    if f.xp < threshold then w
    else
      var f1 := f.(xp := f.xp - threshold);
      var f2 :=
        if choice == 0 then f1.(baseMaxHp := f1.baseMaxHp + 20, hp := f1.hp + 20)
        else if choice == 1 then f1.(basePower := f1.basePower + 1)
        else f1.(baseDefense := f1.baseDefense + 1);
      WithFighter(w, w.player, f2).(level := w.level + 1)
  }

  /** Exactly the threshold levels up once and leaves no xp; any surplus is
      kept rather than reset, and a single check never levels twice. */
  lemma LevelUpKeepsSurplus(w: World, choice: nat, surplus: int)
    requires Valid(w) && choice < 3 && surplus >= 0
    requires PlayerFighter(w).xp == LevelUpXp(w.level) + surplus
    ensures LevelUp(w, choice).level == w.level + 1
    ensures PlayerFighter(LevelUp(w, choice)).xp == surplus
  {
  }
}
