/** The game objects (class `Object` and its optional components) and the
    state of one game in progress. */
module Entities {
  import opened Optional
  import opened Tiles

  /** Which death handler a fighter was given: none, `player_death` or
      `monster_death`. */
  datatype DeathPolicy = NoDeath | PlayerDeath | MonsterDeath

  /** Class `Fighter`: the base stats; the effective ones add equipment. */
  datatype Fighter = Fighter(baseMaxHp: int, hp: int, baseDefense: int, basePower: int,
                             xp: int, death: DeathPolicy)

  /** The AI component: `BasicMonster`, or `ConfusedMonster` wrapping the AI
      it replaced (possibly none) and counting its remaining turns. */
  datatype AI = Basic | Confused(previous: Option<AI>, turns: int)

  /** The use functions an item can carry. */
  datatype Spell = Healing | Twerking | Grinding | Gangnam | Confusion

  /** Class `Item`: an optional use function. */
  datatype Item = Item(use: Option<Spell>)

  /** Class `Equipment`. */
  datatype Equipment = Equipment(slot: string, powerBonus: int, defenseBonus: int,
                                 maxHpBonus: int, equipped: bool)

  /** Class `Object`, without its glyph and colour. */
  datatype Entity = Entity(x: int, y: int, name: string, blocks: bool, alwaysVisible: bool,
                           fighter: Option<Fighter>, ai: Option<AI>,
                           item: Option<Item>, equipment: Option<Equipment>)

  /** The `Object` constructor: an equipment component always comes with a
      plain item component, replacing any item passed in. */
  function NewObject(x: int, y: int, name: string, blocks: bool, alwaysVisible: bool,
                     fighter: Option<Fighter>, ai: Option<AI>,
                     item: Option<Item>, equipment: Option<Equipment>): (e: Entity)
    ensures e.equipment == equipment && e.fighter == fighter && e.ai == ai
    ensures equipment.Some? ==> e.item == Some(Item(None))
    ensures equipment.None? ==> e.item == item
    ensures e.equipment.Some? ==> e.item.Some?
  {
    Entity(x, y, name, blocks, alwaysVisible, fighter, ai,
           if equipment.Some? then Some(Item(None)) else item, equipment)
  }

  datatype GameState = Playing | Dead

  /** The globals of a game in progress: the map, the object list (which
      holds the player, at index `player`), the inventory, the game state and
      the player's character level. */
  datatype World = World(grid: Grid, objects: seq<Entity>, player: nat, inventory: seq<Entity>,
                         state: GameState, level: int)

  /** The player is in the object list and keeps a fighter that is never
      turned into remains. */
  predicate Valid(w: World)
  {
    && WellFormed(w.grid)
    && w.player < |w.objects|
    && w.objects[w.player].fighter.Some?
    && w.objects[w.player].fighter.value.death != MonsterDeath
  }

  predicate HasFighter(w: World, k: nat)
  {
    k < |w.objects| && w.objects[k].fighter.Some?
  }

  function FighterOf(w: World, k: nat): Fighter
    requires HasFighter(w, k)
  {
    w.objects[k].fighter.value
  }

  function PlayerFighter(w: World): Fighter
    requires Valid(w)
  {
    w.objects[w.player].fighter.value
  }

  /** Replace the fighter component of object `k`. */
  function WithFighter(w: World, k: nat, f: Fighter): (r: World)
    requires Valid(w) && HasFighter(w, k)
    requires k == w.player ==> f.death != MonsterDeath
    ensures Valid(r) && HasFighter(r, k) && FighterOf(r, k) == f
    ensures r.player == w.player && |r.objects| == |w.objects|
    ensures r == w.(objects := w.objects[k := w.objects[k].(fighter := Some(f))])
  {
    w.(objects := w.objects[k := w.objects[k].(fighter := Some(f))])
  }
}
