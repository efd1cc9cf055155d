# woguey game-rule kernel in Dafny

woguey is a small libtcod roguelike written in Python 2. This project models
its game-rule kernel as immutable datatypes and pure functions:

- the dungeon generator's geometry: `Rect`, tile carving, and the room loop
  of `make_map`;
- the depth tables `from_dungeon_level` and the weighted pick
  `random_choice_index`;
- fighters, equipment bonuses, `take_damage` with its death handlers, `heal`,
  the `attack` formula and `check_level_up`;
- the inventory: equipment slots, `pick_up`, `drop` and `use`, plus the spells
  that can be stated without the field-of-view library;
- the `ConfusedMonster` countdown, `is_blocked`, `Object.move`, the
  "visible means explored" update, and the bounded message log.

Every random draw (`libtcod.random_get_int`) is an explicit parameter, with
a precondition that it lies in the range the game asks for. The Python
globals (`map`, `objects`, `inventory`, `game_state`, `player.level`) become
one `World` record. The player is tracked by its index in the object list.

Modules, in dependency order:

- `PyArith`, `Optional`, `Seqs` (base.dfy): Python 2 floor division,
  negative list indexing, `list.remove` and `send_to_back`.
- `Geometry` (geometry.dfy): `Rect`.
- `Tiles` (tiles.dfy): tiles, the 80×43 column-major grid, and carving.
- `Rooms` (rooms.dfy): which candidate rooms the `make_map` loop keeps, as
  a reference definition and as the greedy rule it satisfies.
- `Paths` (paths.dfy): walks over open tiles, for reaching the stairs.
- `Dungeon` (dungeon.dfy): the `make_map` room loop and its carving.
- `Tables` (tables.dfy): depth tables and the weighted choice.
- `Entities` (entities.dfy): objects and components, and the `World` record.
- `Inventory` (inventory.dfy): slots, equip and dequip, equipment bonuses.
- `Combat` (combat.dfy): effective stats, damage, death, healing, attack,
  level-up.
- `Actions` (actions.dfy): `is_blocked`, `move`, the confused AI.
- `Items` (items.dfy): pick up, drop, use, and the spells.
- `Messages` (messages.dfy): the message log.

## Model

| member | source | states |
|---|---|---|
| PyArith.FloorDiv | woguey.py:185 | Python 2 `/` on ints rounds toward minus infinity: the quotient is bracketed by the floor bounds for either sign of the divisor |
| PyArith.PyIndex | woguey.py:339 | A list index in `-n..n-1` resolves to a position below `n`; a negative index counts from the end |
| Seqs.RemoveAt | woguey.py:256 | Removing one element shifts the later ones down by one, keeps the earlier ones, and leaves the multiset short by exactly that element |
| Seqs.SendToBack | woguey.py:141-145 | The object moves to index 0, each other object moves to `BackShift(j, k)`, and the list is a permutation of the old one |
| Geometry.MakeRect | woguey.py:73-77 | The top-left corner is `(x, y)`; the far corner lies `w` and `h` beyond it |
| Geometry.Center | woguey.py:79-82 | The centre is the floor of the midpoint on each axis; for a span of at least 2 it lies strictly inside the rectangle, i.e. on its floor |
| Geometry.IntersectMeansSharedPoint | woguey.py:84-86 | `intersect` is symmetric. For proper rectangles it holds iff the closed rectangles share a grid point (edges are inclusive). Rectangles that do not intersect have disjoint floors |
| Tiles.MakeTile | woguey.py:59-69 | A new tile is unexplored; sight is blocked like movement unless stated otherwise |
| Tiles.SolidGrid | woguey.py:378-380 | The fresh map is 80×43 and every tile is a blocking, sight-blocking wall |
| Tiles.OpenAt | woguey.py:354-355 | Carving one tile makes it unblocked and see-through, keeps its explored flag, and leaves every other tile alone |
| Tiles.CreateRoom | woguey.py:349-355 | Exactly the tiles strictly inside the rectangle, `x1+1..x2-1` by `y1+1..y2-1`, are opened; every other tile is unchanged |
| Tiles.CreateHTunnel | woguey.py:357-362 | Exactly the inclusive run `min(x1,x2)..max(x1,x2)` on row `y` is opened, in either argument order; every other tile is unchanged |
| Tiles.CreateVTunnel | woguey.py:364-369 | Exactly the inclusive run `min(y1,y2)..max(y1,y2)` on column `x` is opened, in either argument order; every other tile is unchanged |
| Tiles.Explore | woguey.py:672-696 | After the field-of-view pass a tile is explored iff it was explored before or is in view; blocking flags are untouched |
| Tiles.ExploreIsMonotonicAndIdempotent | woguey.py:695-696 | Explored tiles stay explored; exploring again with the same view changes nothing |
| Dungeon.AddRoom | woguey.py:407 | Carving a room into a map that shows rooms and corridors yields the map that shows them plus that room |
| Dungeon.AddCorridor | woguey.py:427-435 | Carving both legs of the L-shaped tunnel, in the order the coin picks, yields the map that shows one more corridor |
| Dungeon.KeepRoom | woguey.py:403-435 | Accepting a room carves it; unless it is the first room, the tunnel from the previous room's centre to its own is carved too, horizontal leg first iff the coin is 1 |
| Rooms.KeepPreservesRoomFacts | woguey.py:396-403 | An accepted candidate touches no kept room, so kept rooms stay pairwise non-intersecting; a rejected candidate is explained by a kept room it touches |
| Dungeon.MakeMap | woguey.py:371-447 | The kept rooms are exactly the reference choice: candidate i is kept iff it touches none of the rooms kept before it, and each tunnel's leg order is the coin of the room it leads to. The first candidate is always kept. Kept rooms lie inside the map and never touch one another. Every rejected candidate touches a kept room. The map is wall except exactly the room floors and the tunnels joining consecutive room centres. The player starts at the first room's centre; the stairs stand on the open centre of the last room, and a walk over open tiles leads there from the start |
| Dungeon.PlaceRooms | woguey.py:385-442 | After the 40 attempts the map shows exactly the kept rooms and tunnels, the kept rooms are the reference choice, each tunnel follows its room's coin, and the start and last centres are those of the first and last kept rooms |
| Dungeon.TryRoom | woguey.py:386-442 | One attempt appends its candidate iff the candidate touches none of the rooms kept so far, otherwise keeps the rooms as they were; it keeps the map showing exactly the kept rooms and tunnels |
| Dungeon.ChosenPlan | woguey.py:385-442 | The reference choice with coin-oriented tunnels is a greedy plan: there is an increasing list of attempts, naming the kept rooms in order, that holds attempt i iff candidate i touches none of the kept rooms before it |
| Rooms.ClearOfAll | woguey.py:396-401 | The inner `for other_room in rooms` loop finds no intersection iff the candidate touches none of the listed rooms |
| Rooms.KeptStep | woguey.py:396-442 | One more attempt appends its index and candidate exactly when the candidate touches no room kept so far, and changes nothing otherwise |
| Rooms.KeptIncreasing | woguey.py:441 | The kept attempts are listed in increasing order, since rooms are appended as they are accepted |
| Rooms.KeptIsGreedy | woguey.py:385-442 | The reference choice is greedy: attempt i is kept iff its candidate touches none of the candidates kept before it |
| Rooms.GreedyIsKept | woguey.py:385-442 | Conversely, every increasing list of attempts with that greedy property is the reference choice, so the draws determine the kept rooms |
| Rooms.KeptIsChosen | woguey.py:385-442 | With every draw in range: once an attempt was made some room is kept, the first candidate always is, kept rooms never touch one another, and every candidate touches a kept room |
| Dungeon.StairsOnFloor | woguey.py:444-445 | The centre of the last kept room, where the stairs are placed, is an unblocked tile on the map |
| Paths.Leg | woguey.py:357-369 | The straight walk between two points on a row or column starts and ends at them, stays in their bounding box, and moves at most one square per step |
| Paths.JoinWalks | woguey.py:427-435 | A walk of open tiles from a to b followed by one from b to c is a walk of open tiles from a to c |
| Dungeon.CorridorIsOpen | woguey.py:427-435 | The L-shaped walk along a tunnel's two legs, via the corner the coin picks, runs over open tiles from one room centre to the next |
| Dungeon.RouteIsOpen | woguey.py:403-442 | Following the first n tunnels leads over open tiles from the first room's centre to the centre of room n |
| Dungeon.StairsReachable | woguey.py:416-447 | The stairs, at the last room's centre, can be walked to over open tiles from the player's start at the first room's centre |
| Tables.FromDungeonLevel | woguey.py:471-476 | The result is 0 when no entry's level has been reached. Otherwise it is the value of the last entry whose level has been reached |
| Tables.MaxMonstersSteps | woguey.py:480 | The monsters-per-room table gives 0 at level 0, 2 at level 1, 3 at level 5 and 5 at level 7; the items-per-room table (line 494) gives 2 at level 7 |
| Tables.RandomChoiceIndex | woguey.py:449-462 | For a die in `[1, sum(chances)]` the result is the first in-range index whose running sum reaches the die, and its weight is positive |
| Tables.SelectsUnique | woguey.py:456-461 | At most one index is the first whose running sum reaches a given die |
| Tables.SelectedExactlyByBracket | woguey.py:449-462 | With non-negative weights, index `c` is chosen exactly by the dice in `(sum(chances[..c]), sum(chances[..c+1])]`, which has `chances[c]` members. A positive weight is therefore always reachable |
| Tables.BracketSelects | woguey.py:456-461 | A die in index `c`'s bracket makes the scan stop at `c` |
| Entities.NewObject | woguey.py:90-116 | An object built with equipment always gets a plain item component, replacing any item passed in; other components are kept |
| Inventory.FirstEquippedFrom | woguey.py:321-325 | The scan from position `k` finds the first equipped item in the slot, or reports none iff no later item is equipped there |
| Inventory.EquippedInSlot | woguey.py:321-325 | `get_equipped_in_slot` returns the first equipped item in the slot, and None iff no item is equipped there |
| Inventory.AllEquipped | woguey.py:327-335 | The list holds only equipped gear and every equipped inventory item's equipment; each piece appears exactly as many times as inventory items wear it, so its sums are the sums over equipped items |
| Inventory.WornBonusIsSum | woguey.py:170-180 | Summing a bonus over `get_all_equipped` equals summing it over the equipped inventory items |
| Inventory.Dequip | woguey.py:315-319 | The item ends unequipped and nothing else changes. On an unequipped item it is a no-op. One-item-per-slot is preserved |
| Inventory.Equip | woguey.py:305-313 | The item ends equipped. Besides it, only the first item worn in its slot changes, and that one comes off; every other item is untouched. With one item per slot beforehand, it is afterwards the only equipped item in its slot and the invariant still holds |
| Inventory.ToggleEquip | woguey.py:299-318 | The item's equipped status flips and only equipped flags change. Taking an item off touches no other item; putting one on takes off only the first item worn in its slot; one-item-per-slot is preserved |
| Inventory.SetEquippedBonus | woguey.py:168-181 | Setting one item's equipped flag moves each stat's equipped-bonus total by exactly that item's bonus |
| Inventory.SetEquippedWorn | woguey.py:168-181 | The same, for the total over equipped inventory items, proved by induction on the inventory |
| Inventory.EquipBonus | woguey.py:305-313 | Equipping an unequipped item adds its bonus to the total and removes the bonus of the item it displaces from the slot, if any |
| Inventory.DequipBonus | woguey.py:315-319 | Dequipping removes exactly the item's bonus, and nothing if it was not equipped |
| Combat.EquipmentOf | woguey.py:327-335 | Only the player has equipment; the player's list holds each equipped piece exactly as often as inventory items wear it |
| Combat.Effective | woguey.py:168-181 | A monster's effective power, defense and max hp are its base values; the player's add the bonuses of all equipped gear, and equal the base values when nothing is equipped |
| Combat.EquippingChangesPlayerStats | woguey.py:168-181 | Equipping changes the player's effective power, defense or max hp by the new item's bonus less the displaced item's; every other fighter's effective stat stays at its base value |
| Combat.Remains | woguey.py:920-928 | The remains keep position, item and equipment, and no longer block, fight or think |
| Combat.Die | woguey.py:200-203 | No handler changes nothing. `player_death` only sets the game state to dead. `monster_death` puts the remains at the front of the object list, shifts the others, and keeps the game state |
| Combat.AwardXp | woguey.py:205-206 | The player's xp rises by exactly the amount; nothing else changes |
| Combat.Slay | woguey.py:200-206 | A fatal hit runs the death handler: `player_death` ends the game, and it or no handler leaves every object as it was; `monster_death` leaves the victim's remains at the front and shifts the other objects up by one. Then the victim's xp goes to the player iff the victim is not the player |
| Combat.TakeDamage | woguey.py:194-206 | Damage ≤ 0 changes nothing. Otherwise the victim loses exactly that much hp (unless `monster_death` turned it into remains), and objects other than the victim and the player stay as they were. A kill runs the handler: `player_death` ends the game; `monster_death` leaves remains at the front and shifts the others. The victim's xp goes to the player iff the victim is not the player |
| Combat.MonsterDiesOnce | woguey.py:920-929 | After `monster_death` the remains have no fighter and no AI and do not block, so they cannot be damaged or die again; the game state is unchanged |
| Combat.Heal | woguey.py:208-212 | Only hp changes; the new hp is `min(hp + amount, max_hp)` |
| Combat.HealSteps | woguey.py:208-212 | Two heals, the second non-negative, equal one heal by the sum; from at or below the maximum a non-negative heal never lowers hp |
| Combat.HealPlayer | woguey.py:208-212 | The player's fighter is healed against its effective max hp (base plus equipped bonuses); nothing else changes |
| Combat.AttackDamage | woguey.py:185 | With non-negative power and defense the damage lies between `r1 + r2` and `r1·(1+2·power) + r2`; a zero first die gives exactly `r2` |
| Combat.Attack | woguey.py:183-192 | A roll of 0 or less changes nothing. A positive roll has exactly `take_damage`'s effect on the target, so it costs exactly that many hp unless it kills a monster. Only a `player_death` handler can end the game, and the map, inventory and level are unchanged |
| Combat.AttackNeverHeals | woguey.py:185-192 | With non-negative stats the damage is never negative. Zero damage leaves the world unchanged. A positive roll is `take_damage` of exactly that amount, so a non-lethal hit strictly lowers the target's hp |
| Combat.LevelUp | woguey.py:886-908 | At or above `200 + 150·level` xp the level rises by one and xp drops by exactly that threshold. Choice 0 adds 20 to both max hp and hp, 1 adds 1 power, 2 adds 1 defense. Below the threshold nothing changes. Nothing outside the player's fighter and the level changes |
| Combat.LevelUpKeepsSurplus | woguey.py:888-892 | xp equal to the threshold plus a surplus levels up once and keeps exactly the surplus |
| Actions.IsBlocked | woguey.py:337-347 | On the map, a tile is blocked iff its tile blocks or a blocking object stands there. A negative coordinate reads the tile from the far edge of the map, while objects are compared at the coordinate as given |
| Actions.Move | woguey.py:118-122 | A blocked destination (wall tile or blocking object) leaves the world unchanged; otherwise only the mover's position changes, by `(dx, dy)`. A move never lands on a wall tile |
| Actions.MoveKeepsUnobstructed | woguey.py:118-122 | If blocking objects stand on open tiles and never share one, a move within the map keeps it that way |
| Actions.StillConfused | woguey.py:236-239 | For the first `j ≤ n` turns the confused AI only counts down, so the monster stumbles every one of them |
| Actions.ConfusionWearsOff | woguey.py:235-243 | After `n` turns the counter is 0; turn `n + 1` restores the previous AI (or none) |
| Actions.ConfusedTurn | woguey.py:235-243 | While turns remain the monster takes the random step and counts down; at 0 it gets its previous AI back without moving; no other object, and nothing outside the object list, changes |
| Items.RemoveKeepsOnePerSlot | woguey.py:271 | Removing an item from the inventory keeps one-item-per-slot |
| Items.Stow | woguey.py:255-262 | The item is appended to the inventory, put on iff it is gear whose slot is free or it was already on, and one-item-per-slot is kept |
| Items.PickUp | woguey.py:250-262 | With 26 items held the pick-up is refused and nothing changes. Otherwise the object leaves the map list and is appended to the inventory. Gear is put on iff its slot is free or it was already on |
| Items.Drop | woguey.py:264-274 | The item leaves the inventory, is taken off if worn, and is appended to the map list at the player's position; one-item-per-slot is preserved |
| Items.DropThenPickUp | woguey.py:250-274 | Dropping an item and picking it up again restores the map list. The item returns at the end of the inventory; a plain item comes back unchanged apart from its new position |
| Items.CastHeal | woguey.py:945-952 | Cancelled iff hp equals the effective max hp; otherwise the player is healed by 40 against that maximum, and nothing else changes: not the player's other fields, not any other object, not the rest of the world |
| Items.HealAboveMaximum | woguey.py:947 | Above the effective maximum the heal is not cancelled and lowers hp to the maximum |
| Items.CastBolt | woguey.py:954-974 | Cancelled iff there is no target in range; otherwise the target takes `take_damage` of exactly 40 (twerking) or 80 (grinding) |
| Items.CastConfuse | woguey.py:990-1000 | Cancelled iff there is no target; otherwise only the target's AI changes, wrapped in a 10-turn confusion around its old AI; nothing else in the world changes |
| Items.ConfuseWearsOff | woguey.py:996-998 | A confused target gets its original AI back after 11 of its turns |
| Items.Cast | woguey.py:945-1000 | Each spell runs its own use function, with that function's whole effect: healing is refused only at exactly full hp and otherwise heals 40; twerking and grinding deal 40 and 80 damage to the target; confusion confuses the target for 10 turns; all but healing are refused without a target |
| Items.UseItem | woguey.py:276-287 | Gear is toggled instead of used, with exactly `toggle_equip`'s effect on the inventory and no other change. Otherwise the item's own use function runs; an item without one, or whose use was cancelled, stays and nothing changes; a completed use takes effect and removes the item from the inventory |
| Items.HealPotion | woguey.py:276-287 | A healing potion at 5 of 40 hp heals to 40, not 45, and is used up; at 40 of 40 it is refused and kept |
| Items.TwerkingScroll | woguey.py:954-963 | A twerking scroll with a surviving monster in range takes 40 of its hp and is used up; with no monster in range it is kept and nothing changes |
| Messages.Message | woguey.py:729-739 | A log of at most `MSG_HEIGHT` = 6 lines ends as the newest 6 of old plus new lines, and never exceeds 6 lines |

## Left out

- Rendering, menus and key handling (`render_all`, `menu`, `handle_keys`, …): console I/O. Glyphs and colours are dropped from the objects, and the text of every `message` call made by the world operations is not modelled. The message log itself is modelled, over already-wrapped lines.
- `textwrap` in `message`: the log takes lines already wrapped.
- Field-of-view computation: a foreign library call. `Explore` takes the visibility grid as input.
- `distance_to`, `move_towards`, `closest_monster` and `BasicMonster.take_turn` depend on floating-point `sqrt` and `round`. Spells that need a target take `closest_monster`'s answer as an `Option` parameter, and `BasicMonster` is modelled only as an AI tag that stays put.
- `cast_gangnam`: its radius test uses the floating-point distance.
- `place_objects`, the monster and item presets, and `random_choice` over a dict: constant data plus Python 2 dict ordering. The depth tables and the weighted index are modelled.
- `player_move_or_attack`, `next_level`, `new_game`, `play_game`, `save_game`, `load_game`: the event loop and shelve file I/O.
- Dungeon.MakeMap: the objects `make_map` places are not modelled: the player list, `place_objects`, and the stairs object sent to the back. The plan returns the player's start and the stairs position instead.
- Tiles.CreateRoom, Tiles.CreateHTunnel and Tiles.CreateVTunnel: they require coordinates on the map. Python's negative-index wrap is not modelled there, because `make_map` never passes such coordinates. `is_blocked` and `move` do model the wrap. An index past the far edge raises `IndexError` in the source and is excluded by a precondition.
- Combat.AttackDamage: a defense of exactly -1 divides by zero in the source, and is excluded by a precondition.
- Combat.LevelUp: the menu loop re-asks until a choice is made, so the model takes a choice in 0..2. A single call levels up at most once, as the source does.
- `Actions.Tick`: `BasicMonster.take_turn` is not modelled, so a basic AI's tick leaves it unchanged.
- Items.UseItem: `cast_gangnam`'s effect is not computed, since its radius test needs the floating-point distance. Its outcome is a parameter, which may be cancelled or may be any world with the same inventory.
- Items.CastBolt, Items.CastConfuse and Items.Cast: the spell ranges (`TWERKING_RANGE`, `GRINDING_RANGE`, `CONFUSE_RANGE`) are not modelled. The target is `closest_monster`'s answer, given as a parameter that must name a fighter other than the player.
- Dungeon.StairsReachable: reachability is over map tiles only. Monsters and items standing in the way are not considered.

## Notes

Behaviour of the code worth knowing:

- A monster confused for `n` turns stumbles on turns 1..n, gets its old AI back on turn `n + 1` without moving, and acts with it from turn `n + 2` (Actions.ConfusionWearsOff).
- `player_death` runs again on every further damaging hit, since the player keeps its fighter, and the game stays dead. A monster loses its fighter when it dies and so dies once (Combat.MonsterDiesOnce).
- `cast_heal` cancels only when hp equals the effective maximum exactly. After gear with a max-hp bonus is taken off, hp can exceed the maximum, and a potion then lowers hp (Items.HealAboveMaximum).
