/** Class `Item` in play: `pick_up`, `drop` and `use`, with the use functions
    that can be stated without the field-of-view library. */
module Items {
  import opened Optional
  import opened Seqs
  import opened Entities
  import opened Inventory
  import opened Combat
  import opened Actions

  const INVENTORY_LIMIT: nat := 26
  const TWERKING_DAMAGE: int := 40
  const GRINDING_DAMAGE: int := 80
  const CONFUSE_NUM_TURNS: int := 10

  lemma RemoveKeepsOnePerSlot(inv: seq<Entity>, i: nat)
    requires i < |inv| && OnePerSlot(inv)
    ensures OnePerSlot(RemoveAt(inv, i))
  {
  }

  /** The inventory half of `pick_up`: append the item and put it on if it
      is gear whose slot is free. */
  function Stow(inv: seq<Entity>, obj: Entity): (r: seq<Entity>)
    ensures |r| == |inv| + 1 && r[..|inv|] == inv && Unflagged(r[|inv|]) == Unflagged(obj)
    ensures obj.equipment.Some? ==>
      (IsEquipped(r[|inv|]) <==>
        IsEquipped(obj) || forall j | 0 <= j < |inv| :: !EquippedIn(inv[j], obj.equipment.value.slot))
    ensures obj.equipment.None? ==> r[|inv|] == obj
    ensures OnePerSlot(inv) && !IsEquipped(obj) ==> OnePerSlot(r)
  {
    var inv1 := inv + [obj];
    assert inv1[..|inv|] == inv;
    assert forall j | 0 <= j < |inv| :: inv1[j] == inv[j];
    assert OnePerSlot(inv) && !IsEquipped(obj) ==> OnePerSlot(inv1);
    if obj.equipment.Some? && EquippedInSlot(inv1, obj.equipment.value.slot).None?
    then Equip(inv1, |inv1| - 1) else inv1
  }

  /** `Item.pick_up` of object `k`: refused when the inventory already holds
      26 items; otherwise the object moves from the map to the end of the
      inventory, and gear is put on if its slot is free. */
  function PickUp(w: World, k: nat): (r: World)
    requires Valid(w) && k < |w.objects| && k != w.player && w.objects[k].item.Some?
    ensures Valid(r) && r.grid == w.grid && r.state == w.state && r.level == w.level
    ensures |w.inventory| >= INVENTORY_LIMIT ==> r == w
    ensures |w.inventory| <= INVENTORY_LIMIT ==> |r.inventory| <= INVENTORY_LIMIT
    ensures |w.inventory| < INVENTORY_LIMIT ==>
      && r.objects == RemoveAt(w.objects, k)
      && r.objects[r.player] == w.objects[w.player]
      && |r.inventory| == |w.inventory| + 1
      && r.inventory[..|w.inventory|] == w.inventory
      && Unflagged(r.inventory[|w.inventory|]) == Unflagged(w.objects[k])
    ensures |w.inventory| < INVENTORY_LIMIT && w.objects[k].equipment.Some? ==>
      (IsEquipped(r.inventory[|w.inventory|]) <==>
        IsEquipped(w.objects[k])
        || forall j | 0 <= j < |w.inventory| :: !EquippedIn(w.inventory[j], w.objects[k].equipment.value.slot))
    ensures |w.inventory| < INVENTORY_LIMIT && w.objects[k].equipment.None? ==>
      r.inventory == w.inventory + [w.objects[k]]
    ensures OnePerSlot(w.inventory) && !IsEquipped(w.objects[k]) ==> OnePerSlot(r.inventory)
  {
    if |w.inventory| >= INVENTORY_LIMIT then w
    else
      var inv := Stow(w.inventory, w.objects[k]);
      assert w.objects[k].equipment.None? ==> inv == w.inventory + [w.objects[k]];
      var player := if k < w.player then w.player - 1 else w.player;
      w.(objects := RemoveAt(w.objects, k), player := player, inventory := inv)
  }

  /** `Item.drop` of inventory item `i`: gear is taken off, and the item goes
      to the end of the object list at the player's feet. */
  function Drop(w: World, i: nat): (r: World)
    requires Valid(w) && i < |w.inventory| && w.inventory[i].item.Some?
    ensures Valid(r) && r.grid == w.grid && r.state == w.state && r.level == w.level
    ensures r.player == w.player
    ensures r.inventory == RemoveAt(w.inventory, i)
    ensures |r.objects| == |w.objects| + 1 && r.objects[..|w.objects|] == w.objects
    ensures var e, p := r.objects[|w.objects|], w.objects[w.player];
      && Unflagged(e) == Unflagged(w.inventory[i]).(x := p.x, y := p.y)
      && !IsEquipped(e)
    ensures OnePerSlot(w.inventory) ==> OnePerSlot(r.inventory)
  {
    var inv1 := if w.inventory[i].equipment.Some? then Dequip(w.inventory, i) else w.inventory;
    var p := w.objects[w.player];
    var dropped := inv1[i].(x := p.x, y := p.y);
    assert RemoveAt(inv1, i) == RemoveAt(w.inventory, i);
    assert OnePerSlot(w.inventory) ==> OnePerSlot(RemoveAt(w.inventory, i)) by {
      if OnePerSlot(w.inventory) {
        RemoveKeepsOnePerSlot(w.inventory, i);
      }
    }
    w.(objects := w.objects + [dropped], inventory := RemoveAt(inv1, i))
  }

  /** Dropping an item and picking it straight back up restores the map's
      object list; a plain item returns, at the end of the inventory, exactly
      as it was dropped. */
  lemma DropThenPickUp(w: World, i: nat)
    requires Valid(w) && i < |w.inventory| <= INVENTORY_LIMIT && w.inventory[i].item.Some?
    ensures var d := Drop(w, i);
      var r := PickUp(d, |w.objects|);
      && r.objects == w.objects && r.player == w.player
      && |r.inventory| == |w.inventory|
      && r.inventory[..|w.inventory| - 1] == RemoveAt(w.inventory, i)
      && (w.inventory[i].equipment.None? ==>
            r.inventory == RemoveAt(w.inventory, i) + [w.inventory[i].(x := w.objects[w.player].x,
                                                                       y := w.objects[w.player].y)])
  {
  }

  /** What a use function returned: `'cancelled'`, or the world it left. */
  datatype CastResult = Cancelled | Done(after: World)

  /** `cast_heal`: cancelled when hp equals the effective maximum. */
  function CastHeal(w: World): (c: CastResult)
    requires Valid(w)
    ensures c.Cancelled? <==> PlayerFighter(w).hp == Effective(w, w.player, MaxHp)
    ensures c.Done? ==>
      && Valid(c.after) && c.after.inventory == w.inventory
      && PlayerFighter(c.after) == Heal(PlayerFighter(w), HEAL_AMOUNT, Effective(w, w.player, MaxHp))
    // only the player's fighter changes: every other object, and every other
    // field of the world and of the player object, stays as it was
    ensures c.Done? ==>
      && c.after == w.(objects := c.after.objects) && |c.after.objects| == |w.objects|
      && c.after.objects[w.player].(fighter := None) == w.objects[w.player].(fighter := None)
      && forall j | 0 <= j < |w.objects| && j != w.player :: c.after.objects[j] == w.objects[j]
  {
    if PlayerFighter(w).hp == Effective(w, w.player, MaxHp) then Cancelled
    else Done(HealPlayer(w, HEAL_AMOUNT))
  }

  /** `cast_heal` refuses only at exactly full hp. Above the effective
      maximum (after taking off gear with a max-hp bonus) the potion is still
      drunk, and it lowers hp to that maximum. */
  lemma HealAboveMaximum(w: World)
    requires Valid(w) && PlayerFighter(w).hp > Effective(w, w.player, MaxHp)
    ensures CastHeal(w).Done?
    ensures PlayerFighter(CastHeal(w).after).hp == Effective(w, w.player, MaxHp) < PlayerFighter(w).hp
  {
  }

  /** A target chosen by `closest_monster`: a fighter other than the player. */
  predicate Target(w: World, target: Option<nat>)
  {
    target.Some? ==> HasFighter(w, target.value) && target.value != w.player
  }

  /** The fixed damage of a bolt spell. */
  function BoltDamage(spell: Spell): int
  {
    if spell == Twerking then TWERKING_DAMAGE else GRINDING_DAMAGE
  }

  /** `cast_twerking` and `cast_grinding`: cancelled without a target,
      otherwise the target takes the spell's fixed damage (40 or 80).
      `target` is what `closest_monster` found within the spell's range. */
  function CastBolt(w: World, target: Option<nat>, spell: Spell): (c: CastResult)
    requires Valid(w) && Target(w, target) && (spell == Twerking || spell == Grinding)
    ensures c.Cancelled? <==> target.None?
    ensures c.Done? ==> Valid(c.after) && c.after.inventory == w.inventory
    ensures c.Done? ==> c.after == TakeDamage(w, target.value, if spell == Twerking then 40 else 80)
  {
    if target.None? then Cancelled else Done(TakeDamage(w, target.value, BoltDamage(spell)))
  }

  /** `cast_confuse`: cancelled without a target, otherwise the target's AI
      is wrapped in a `ConfusedMonster` for `CONFUSE_NUM_TURNS` turns. */
  function CastConfuse(w: World, target: Option<nat>): (c: CastResult)
    requires Valid(w) && Target(w, target)
    ensures c.Cancelled? <==> target.None?
    ensures c.Done? ==>
      && Valid(c.after) && c.after == w.(objects := c.after.objects)
      && |c.after.objects| == |w.objects|
      && c.after.objects[target.value].ai == Some(Confused(w.objects[target.value].ai, 10))
      && c.after.objects[target.value].(ai := None) == w.objects[target.value].(ai := None)
      && forall j | 0 <= j < |w.objects| && j != target.value :: c.after.objects[j] == w.objects[j]
  {
    match target
    case None => Cancelled
    case Some(t) =>
      var e := w.objects[t];
      Done(w.(objects := w.objects[t := e.(ai := Some(Confused(e.ai, CONFUSE_NUM_TURNS)))]))
  }

  /** The use function an item carries, other than `cast_gangnam`, run on
      `target`, the monster `closest_monster` found for it (ignored by the
      healing potion). */
  function Cast(w: World, spell: Spell, target: Option<nat>): (c: CastResult)
    requires Valid(w) && Target(w, target) && spell != Gangnam
    ensures c.Done? ==> Valid(c.after) && c.after.inventory == w.inventory
    // healing is refused at full hp; every other spell without a target
    ensures c.Cancelled? <==>
      if spell == Healing then PlayerFighter(w).hp == Effective(w, w.player, MaxHp) else target.None?
    ensures spell == Healing && c.Done? ==>
      PlayerFighter(c.after) == Heal(PlayerFighter(w), 40, Effective(w, w.player, MaxHp))
    ensures spell == Twerking && c.Done? ==> c.after == TakeDamage(w, target.value, 40)
    ensures spell == Grinding && c.Done? ==> c.after == TakeDamage(w, target.value, 80)
    ensures spell == Confusion && c.Done? ==>
      |c.after.objects| == |w.objects| &&
      c.after.objects[target.value].ai == Some(Confused(w.objects[target.value].ai, 10))
    // each spell runs its own use function, with that function's whole effect
    ensures spell == Healing ==> c == CastHeal(w)
    ensures spell == Confusion ==> c == CastConfuse(w, target)
  {
    if spell == Healing then CastHeal(w)
    else if spell == Twerking || spell == Grinding then CastBolt(w, target, spell)
    else CastConfuse(w, target)
  }

  /** A confused monster gets its own AI back after `CONFUSE_NUM_TURNS + 1`
      of its turns, whatever it was before. */
  lemma ConfuseWearsOff(w: World, t: nat)
    requires Valid(w) && Target(w, Some(t))
    ensures Ticks(CastConfuse(w, Some(t)).after.objects[t].ai, CONFUSE_NUM_TURNS + 1) == w.objects[t].ai
  {
    ConfusionWearsOff(w.objects[t].ai, CONFUSE_NUM_TURNS);
  }

  /** What using inventory item `i` returns: its own use function, run on
      `target`; `cast_gangnam`, which is not modelled, is represented by
      `gangnam`, whatever it returned. */
  function Outcome(w: World, i: nat, target: Option<nat>, gangnam: CastResult): CastResult
    requires Valid(w) && i < |w.inventory| && w.inventory[i].item.Some?
    requires w.inventory[i].item.value.use.Some? && Target(w, target)
  {
    var spell := w.inventory[i].item.value.use.value;
    if spell == Gangnam then gangnam else Cast(w, spell, target)
  }

  /** `Item.use` of inventory item `i`. Gear is toggled instead of used.
      Otherwise the item's own use function runs, and the item is consumed
      unless it returned `'cancelled'`. No use function touches the
      inventory. */
  function UseItem(w: World, i: nat, target: Option<nat>, gangnam: CastResult): (r: World)
    requires Valid(w) && i < |w.inventory| && w.inventory[i].item.Some? && Target(w, target)
    requires gangnam.Done? ==> Valid(gangnam.after) && gangnam.after.inventory == w.inventory
    ensures Valid(r)
    // gear: only the item and the gear in its slot change, and only in their equipped flags
    ensures w.inventory[i].equipment.Some? ==>
      && r == w.(inventory := r.inventory)
      && |r.inventory| == |w.inventory|
      && (IsEquipped(r.inventory[i]) <==> !IsEquipped(w.inventory[i]))
      && (forall j | 0 <= j < |w.inventory| :: Unflagged(r.inventory[j]) == Unflagged(w.inventory[j]))
      && (forall j | 0 <= j < |w.inventory| && j != i && !InSlot(w.inventory[j], w.inventory[i].equipment.value.slot) ::
            r.inventory[j] == w.inventory[j])
      && (OnePerSlot(w.inventory) ==> OnePerSlot(r.inventory))
      && r.inventory == ToggleEquip(w.inventory, i)
    // an item without a use function is kept and nothing happens
    ensures w.inventory[i].equipment.None? && w.inventory[i].item.value.use.None? ==> r == w
    // a cancelled use keeps the item and changes nothing
    ensures (w.inventory[i].equipment.None? && w.inventory[i].item.value.use.Some?
             && Outcome(w, i, target, gangnam).Cancelled?) ==> r == w
    // a completed use takes effect and consumes the item
    ensures (w.inventory[i].equipment.None? && w.inventory[i].item.value.use.Some?
             && Outcome(w, i, target, gangnam).Done?) ==>
      r == Outcome(w, i, target, gangnam).after.(inventory := RemoveAt(w.inventory, i))
  {
    var e := w.inventory[i];
    if e.equipment.Some? then w.(inventory := ToggleEquip(w.inventory, i))
    else if e.item.value.use.None? then w
    else match Outcome(w, i, target, gangnam)
      case Cancelled => w
      case Done(after) => after.(inventory := RemoveAt(after.inventory, i))
  }

  /** A scroll of twerking with a monster in range that survives the hit
      takes 40 of its hp and is used up; with no monster in range it is kept. */
  lemma TwerkingScroll(w: World, i: nat, t: nat)
    requires Valid(w) && i < |w.inventory| && Target(w, Some(t))
    requires w.inventory[i].item == Some(Item(Some(Twerking))) && w.inventory[i].equipment.None?
    requires FighterOf(w, t).hp > 40
    ensures var r := UseItem(w, i, Some(t), Cancelled);
      && HasFighter(r, t) && FighterOf(r, t).hp == FighterOf(w, t).hp - 40
      && r.inventory == RemoveAt(w.inventory, i)
    ensures UseItem(w, i, None, Cancelled) == w
  {
  }

  /** Drinking a healing potion at 5 of 40 hp restores the player to 40, not
      45, and uses the potion up; at full hp it is refused and kept. */
  lemma HealPotion(w: World, i: nat)
    requires Valid(w) && i < |w.inventory|
    requires w.inventory[i].item == Some(Item(Some(Healing))) && w.inventory[i].equipment.None?
    requires Effective(w, w.player, MaxHp) == 40
    ensures PlayerFighter(w).hp == 5 ==>
      var r := UseItem(w, i, None, Cancelled);
      PlayerFighter(r).hp == 40 && r.inventory == RemoveAt(w.inventory, i)
    ensures PlayerFighter(w).hp == 40 ==> UseItem(w, i, None, Cancelled) == w
  {
  }
}
