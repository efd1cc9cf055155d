/** Equipment slots on the player's inventory: `get_equipped_in_slot`,
    `get_all_equipped`, `Equipment.equip`, `dequip`, `toggle_equip`, and the
    bonuses equipped gear adds to the player's stats. */
module Inventory {
  import opened Optional
  import opened Entities

  predicate IsEquipped(e: Entity)
  {
    e.equipment.Some? && e.equipment.value.equipped
  }

  predicate InSlot(e: Entity, slot: string)
  {
    e.equipment.Some? && e.equipment.value.slot == slot
  }

  predicate EquippedIn(e: Entity, slot: string)
  {
    IsEquipped(e) && InSlot(e, slot)
  }

  /** The game's invariant: no slot holds two equipped items. */
  predicate OnePerSlot(inv: seq<Entity>)
  {
    forall i, j | 0 <= i < |inv| && 0 <= j < |inv| && i != j && IsEquipped(inv[i]) && IsEquipped(inv[j]) ::
      inv[i].equipment.value.slot != inv[j].equipment.value.slot
  }

  /** The item with every equipped flag cleared: what stays the same when
      gear is put on or taken off. */
  function Unflagged(e: Entity): Entity
  {
    if e.equipment.Some? then e.(equipment := Some(e.equipment.value.(equipped := false))) else e
  }

  /** The first equipped item in `slot` at position `k` or later. */
  function FirstEquippedFrom(inv: seq<Entity>, slot: string, k: nat): (r: Option<nat>)
    requires k <= |inv|
    ensures r.None? <==> forall j | k <= j < |inv| :: !EquippedIn(inv[j], slot)
    ensures r.Some? ==>
      && k <= r.value < |inv|
      && EquippedIn(inv[r.value], slot)
      && forall j | k <= j < r.value :: !EquippedIn(inv[j], slot)
    decreases |inv| - k
  {
    if k == |inv| then None
    else if EquippedIn(inv[k], slot) then Some(k)
    else FirstEquippedFrom(inv, slot, k + 1)
  }

  /** `get_equipped_in_slot`: the position of the first equipped item in
      `slot`, if any. */
  function EquippedInSlot(inv: seq<Entity>, slot: string): (r: Option<nat>)
    ensures r.None? <==> forall j | 0 <= j < |inv| :: !EquippedIn(inv[j], slot)
    ensures r.Some? ==>
      && r.value < |inv|
      && EquippedIn(inv[r.value], slot)
      && forall j | 0 <= j < r.value :: !EquippedIn(inv[j], slot)
  {
    FirstEquippedFrom(inv, slot, 0)
  }

  /** The inventory positions holding equipped gear equal to `e`. */
  function EquippedCopies(inv: seq<Entity>, e: Equipment): set<nat>
  {
    set i: nat | i < |inv| && IsEquipped(inv[i]) && inv[i].equipment.value == e
  }

  lemma EquippedCopiesSnoc(inv: seq<Entity>, e: Equipment)
    requires |inv| > 0
    ensures var n := |inv| - 1;
      |EquippedCopies(inv, e)| == |EquippedCopies(inv[..n], e)|
        + (if IsEquipped(inv[n]) && inv[n].equipment.value == e then 1 else 0)
  {
    var n := |inv| - 1;
    var before := EquippedCopies(inv[..n], e);
    var extra: set<nat> := if IsEquipped(inv[n]) && inv[n].equipment.value == e then {n} else {};
    assert EquippedCopies(inv, e) == before + extra;
    assert n !in before;
  }

  /** `r` lists the equipment of the equipped items of `inv`: only
      equipped gear, and all of it. */
  ghost predicate Lists(inv: seq<Entity>, r: seq<Equipment>)
  {
    && |r| <= |inv|
    && (forall e | e in r :: e.equipped)
    && (forall i | 0 <= i < |inv| && IsEquipped(inv[i]) :: inv[i].equipment.value in r)
    && (forall e | e in r :: exists i | 0 <= i < |inv| :: inv[i].equipment == Some(e))
  }

  /** `r` holds each piece of gear as often as it is worn in `inv`. */
  ghost predicate Counts(inv: seq<Entity>, r: seq<Equipment>)
  {
    forall e :: multiset(r)[e] == |EquippedCopies(inv, e)|
  }

  /** The equipment the last item of `inv` contributes. */
  function Worn(e: Entity): seq<Equipment>
  {
    if IsEquipped(e) then [e.equipment.value] else []
  }

  lemma ListsSnoc(inv: seq<Entity>, prev: seq<Equipment>)
    requires |inv| > 0 && Lists(inv[..|inv| - 1], prev)
    ensures Lists(inv, prev + Worn(inv[|inv| - 1]))
  {
    var n := |inv| - 1;
    var init := inv[..n];
    var r := prev + Worn(inv[n]);
    assert forall i | 0 <= i < |init| :: init[i] == inv[i];
    forall e | e in r
      ensures exists i | 0 <= i < |inv| :: inv[i].equipment == Some(e)
    {
      if e in prev {
        var i :| 0 <= i < |init| && init[i].equipment == Some(e);
        assert inv[i].equipment == Some(e);
      } else {
        assert inv[n].equipment == Some(e);
      }
    }
  }

  lemma CountsSnoc(inv: seq<Entity>, prev: seq<Equipment>)
    requires |inv| > 0 && Counts(inv[..|inv| - 1], prev)
    ensures Counts(inv, prev + Worn(inv[|inv| - 1]))
  {
    var r := prev + Worn(inv[|inv| - 1]);
    assert multiset(r) == multiset(prev) + multiset(Worn(inv[|inv| - 1]));
    forall e
      ensures multiset(r)[e] == |EquippedCopies(inv, e)|
    {
      EquippedCopiesSnoc(inv, e);
    }
  }

  /** `get_all_equipped` for the player: the equipment of every equipped
      inventory item, in inventory order. */
  function AllEquipped(inv: seq<Entity>): (r: seq<Equipment>)
    ensures |r| <= |inv|
    ensures forall e | e in r :: e.equipped
    ensures forall i | 0 <= i < |inv| && IsEquipped(inv[i]) :: inv[i].equipment.value in r
    ensures forall e | e in r :: exists i | 0 <= i < |inv| :: inv[i].equipment == Some(e)
    // each piece of gear appears once per inventory item that wears it
    ensures forall e :: multiset(r)[e] == |EquippedCopies(inv, e)|
  {
    if |inv| == 0 then
      assert forall e :: EquippedCopies(inv, e) == {};
      []
    else
      var prev := AllEquipped(inv[..|inv| - 1]);
      ListsSnoc(inv, prev);
      CountsSnoc(inv, prev);
      prev + Worn(inv[|inv| - 1])
  }

  function SetEquipped(inv: seq<Entity>, i: nat, flag: bool): (r: seq<Entity>)
    requires i < |inv| && inv[i].equipment.Some?
  {
    inv[i := inv[i].(equipment := Some(inv[i].equipment.value.(equipped := flag)))]
  }

  /** `Equipment.dequip`: a no-op unless the item is equipped. */
  function Dequip(inv: seq<Entity>, i: nat): (r: seq<Entity>)
    requires i < |inv| && inv[i].equipment.Some?
    ensures |r| == |inv| && !IsEquipped(r[i]) && Unflagged(r[i]) == Unflagged(inv[i])
    ensures forall j | 0 <= j < |inv| && j != i :: r[j] == inv[j]
    ensures !IsEquipped(inv[i]) ==> r == inv
    ensures OnePerSlot(inv) ==> OnePerSlot(r)
  {
    if !inv[i].equipment.value.equipped then inv
    else SetEquipped(inv, i, false)
  }

  /** `Equipment.equip`: take off whatever is equipped first in the same
      slot, then put this item on. */
  function Equip(inv: seq<Entity>, i: nat): (r: seq<Entity>)
    requires i < |inv| && inv[i].equipment.Some?
    ensures |r| == |inv| && IsEquipped(r[i])
    ensures forall j | 0 <= j < |inv| :: Unflagged(r[j]) == Unflagged(inv[j])
    ensures forall j | 0 <= j < |inv| && j != i && !InSlot(inv[j], inv[i].equipment.value.slot) ::
      r[j] == inv[j]
    ensures OnePerSlot(inv) ==> OnePerSlot(r)
    ensures OnePerSlot(inv) ==>
      forall j | 0 <= j < |inv| && j != i :: !EquippedIn(r[j], inv[i].equipment.value.slot)
    // besides this item, only the first item worn in its slot changes, and it comes off
    ensures forall j | 0 <= j < |inv| && j != i && EquippedInSlot(inv, inv[i].equipment.value.slot) != Some(j) ::
      r[j] == inv[j]
    ensures match EquippedInSlot(inv, inv[i].equipment.value.slot)
      case None => true
      case Some(k) => k != i ==> !IsEquipped(r[k])
  {
    var slot := inv[i].equipment.value.slot;
    var inv1 := match EquippedInSlot(inv, slot)
      case None => inv
      case Some(j) => Dequip(inv, j);
    SetEquipped(inv1, i, true)
  }

  /** `Equipment.toggle_equip`. */
  function ToggleEquip(inv: seq<Entity>, i: nat): (r: seq<Entity>)
    requires i < |inv| && inv[i].equipment.Some?
    ensures |r| == |inv| && (IsEquipped(r[i]) <==> !IsEquipped(inv[i]))
    ensures forall j | 0 <= j < |inv| :: Unflagged(r[j]) == Unflagged(inv[j])
    // other slots are never touched
    ensures forall j | 0 <= j < |inv| && j != i && !InSlot(inv[j], inv[i].equipment.value.slot) ::
      r[j] == inv[j]
    ensures OnePerSlot(inv) ==> OnePerSlot(r)
    // taking an item off touches no other item
    ensures IsEquipped(inv[i]) ==> forall j | 0 <= j < |inv| && j != i :: r[j] == inv[j]
    // putting one on takes off only the first item worn in its slot
    ensures !IsEquipped(inv[i]) ==>
      && (forall j | 0 <= j < |inv| && j != i && EquippedInSlot(inv, inv[i].equipment.value.slot) != Some(j) ::
            r[j] == inv[j])
      && (match EquippedInSlot(inv, inv[i].equipment.value.slot)
          case None => true
          case Some(k) => !IsEquipped(r[k]))
  {
    if inv[i].equipment.value.equipped then Dequip(inv, i) else Equip(inv, i)
  }

  datatype Stat = Power | Defense | MaxHp

  function Bonus(e: Equipment, s: Stat): int
  {
    match s
    case Power => e.powerBonus
    case Defense => e.defenseBonus
    case MaxHp => e.maxHpBonus
  }

  /** `sum(equipment.<stat>_bonus for equipment in ...)`. */
  function SumBonus(es: seq<Equipment>, s: Stat): int
  {
    if |es| == 0 then 0 else SumBonus(es[..|es| - 1], s) + Bonus(es[|es| - 1], s)
  }

  lemma SumBonusSnoc(es: seq<Equipment>, extra: seq<Equipment>, s: Stat)
    requires |extra| <= 1
    ensures SumBonus(es + extra, s) == SumBonus(es, s) + SumBonus(extra, s)
  {
    if |extra| == 1 {
      assert (es + extra)[..|es + extra| - 1] == es;
    } else {
      assert es + extra == es;
    }
  }

  /** The equipped total, peeled from the back of the inventory. */
  lemma EquippedBonusSnoc(inv: seq<Entity>, s: Stat)
    requires |inv| > 0
    ensures var n := |inv| - 1;
      SumBonus(AllEquipped(inv), s)
      == SumBonus(AllEquipped(inv[..n]), s) + (if IsEquipped(inv[n]) then Bonus(inv[n].equipment.value, s) else 0)
  {
    var n := |inv| - 1;
    var tail := if IsEquipped(inv[n]) then [inv[n].equipment.value] else [];
    assert AllEquipped(inv) == AllEquipped(inv[..n]) + tail;
    SumBonusSnoc(AllEquipped(inv[..n]), tail, s);
  }

  /** The equipped total of a stat, computed straight from the inventory. */
  function WornBonus(inv: seq<Entity>, s: Stat): int
  {
    if |inv| == 0 then 0
    else
      var n := |inv| - 1;
      WornBonus(inv[..n], s) + (if IsEquipped(inv[n]) then Bonus(inv[n].equipment.value, s) else 0)
  }

  /** Summing the bonuses of `get_all_equipped` gives that total. */
  lemma {:induction false} WornBonusIsSum(inv: seq<Entity>, s: Stat)
    ensures WornBonus(inv, s) == SumBonus(AllEquipped(inv), s)
    decreases |inv|
  {
    if |inv| > 0 {
      WornBonusIsSum(inv[..|inv| - 1], s);
      EquippedBonusSnoc(inv, s);
    }
  }

  lemma {:induction false} SetEquippedWorn(inv: seq<Entity>, i: nat, flag: bool, s: Stat)
    requires i < |inv| && inv[i].equipment.Some?
    ensures WornBonus(SetEquipped(inv, i, flag), s)
         == WornBonus(inv, s)
            - (if IsEquipped(inv[i]) then Bonus(inv[i].equipment.value, s) else 0)
            + (if flag then Bonus(inv[i].equipment.value, s) else 0)
    decreases |inv|
  {
    var inv' := SetEquipped(inv, i, flag);
    var n := |inv| - 1;
    if i < n {
      assert inv'[..n] == SetEquipped(inv[..n], i, flag);
      assert inv'[n] == inv[n];
      SetEquippedWorn(inv[..n], i, flag, s);
    } else {
      assert inv'[..n] == inv[..n];
    }
  }

  /** Putting one item on or taking it off moves the equipped total by
      exactly that item's bonus. */
  lemma SetEquippedBonus(inv: seq<Entity>, i: nat, flag: bool, s: Stat)
    requires i < |inv| && inv[i].equipment.Some?
    ensures SumBonus(AllEquipped(SetEquipped(inv, i, flag)), s)
         == SumBonus(AllEquipped(inv), s)
            - (if IsEquipped(inv[i]) then Bonus(inv[i].equipment.value, s) else 0)
            + (if flag then Bonus(inv[i].equipment.value, s) else 0)
  {
    WornBonusIsSum(inv, s);
    WornBonusIsSum(SetEquipped(inv, i, flag), s);
    SetEquippedWorn(inv, i, flag, s);
  }

  /** With one item per slot, equipping an unequipped item adds its bonus
      and removes the bonus of the item it displaces, if any. */
  lemma EquipBonus(inv: seq<Entity>, i: nat, s: Stat)
    requires i < |inv| && inv[i].equipment.Some? && !IsEquipped(inv[i])
    ensures SumBonus(AllEquipped(Equip(inv, i)), s)
         == SumBonus(AllEquipped(inv), s) + Bonus(inv[i].equipment.value, s)
            - (match EquippedInSlot(inv, inv[i].equipment.value.slot)
               case None => 0
               case Some(j) => Bonus(inv[j].equipment.value, s))
  {
    var slot := inv[i].equipment.value.slot;
    match EquippedInSlot(inv, slot)
    case None =>
      SetEquippedBonus(inv, i, true, s);
    case Some(j) =>
      SetEquippedBonus(inv, j, false, s);
      var inv1 := Dequip(inv, j);
      assert inv1 == SetEquipped(inv, j, false);
      SetEquippedBonus(inv1, i, true, s);
  }

  /** Taking off an equipped item removes exactly its bonus. */
  lemma DequipBonus(inv: seq<Entity>, i: nat, s: Stat)
    requires i < |inv| && inv[i].equipment.Some?
    ensures SumBonus(AllEquipped(Dequip(inv, i)), s)
         == SumBonus(AllEquipped(inv), s)
            - (if IsEquipped(inv[i]) then Bonus(inv[i].equipment.value, s) else 0)
  {
    if IsEquipped(inv[i]) {
      SetEquippedBonus(inv, i, false, s);
    }
  }
}
