# A verified model of the dungeon core of a roguelike

This project models, in Dafny, the simulation core of a turn-based roguelike
written in Python in two iterations: a terminal game (`main.py`) and a later
graphical one (`rogueFusion.py`). The shared logic is modelled once. Where the
two files differ, an `Edition` (`Terminal` or `Graphical`) or a separate
function picks the variant. This covers the steering rule, the room-size draw,
and the total or raising `get` and `pos`.

The core has five parts:

- **Floor map** (`Floors`). A floor is a square grid of cells. Each cell is a wall, ground, or holds an element. The floor also has the reverse index `_elem` from element to coordinate, whose insertion order is kept.
  - `put`, `get`, `pos`, `rm` and `move` are modelled with their error cases: `IndexError`, `ValueError` and `KeyError` become `MapError` values.
  - Each operation is proved to keep the grid and the index consistent (`Floors.Consistent`).
- **Dungeon generator** (`Rooms`, `Generator`).
  - Random rooms are drawn and accepted when `Room.intersect` finds no clash.
  - Rooms are turned into ground, then joined by L-shaped corridors until every room is reached. The centre of every room can then be walked to from the centre of the first room, over ground, one unit step along one axis at a time (module `Reachability`).
  - The random draws are parameters, so every property holds for every draw. The `reachAllRooms` loop is proved to terminate.
- **Combat and progression** (`Creatures`, `Combat`, `Heroes`).
  - Blows and encounters.
  - The single weapon slot.
  - Taking, deleting and buying items.
  - Hunger.
  - Carry-over levelling.
- **Status effects**. The two engines are modelled separately.
  - The terminal game's effect objects and the list of running effects are in `Lifecycle`.
  - The graphical game's per-creature effect dictionaries are in `Powers`.
- **Game session** (`Session`, `Steering`).
  - Monsters closing in on the hero.
  - Stairs between floors, keeping the current floor in bounds.
  - The hero's step, with room objects.
  - The message log.
  - The hunger tick of each round.
  - The effect round of every monster.

Randomness (`random.choice`, `random.randint`) becomes a caller-supplied draw: an index taken modulo the list's length, or a record whose ranges are the ones `randint` can produce. Floating-point distances appear only in comparisons, so they are replaced by exact squared integer distances.

Python compares game objects by identity. Elements, items, effects and spells therefore carry an `id` that plays that role.

Behaviour of the code worth noting:

- **Levelling.** Sixty xp earned at level one lead to level two with 35 xp left (`Heroes.SixtyXpAtLevelOne`). The threshold of level `l` is `25*l`, so the second level's threshold is 50.
- **Taking an item.** `take` appends to the inventory even beyond its ten places, with only a message about the full inventory (`Heroes.Take`).
- **Weapon damage.** Only a "hit" weapon replaces strength as the damage of a blow (`Creatures.Hit`). A throwing weapon leaves the blow at the attacker's strength.
- **Starving.** An empty stomach costs a hit point in every round in which it is empty (`Session.HungerOverRounds`).

Other behaviour of the code that the model keeps:

- **Healing.** The graphical game's `heal` power is not capped. Only the terminal game's `HealEffect` is.
- **Graphical monsters.** They step only onto ground (`Map.direction`), so they never walk into the hero.
- **Constant effects waiting to apply.** The graphical game never fills `_constantEffectsToApply`. The model still handles a filled table.
- **Long-lived effects.** A graphical ephemeral effect with a duration of zero or less counts down past zero and never expires (`Powers.EphemereCountdown`).

## Model

| member | source | states |
|---|---|---|
| Geometry.SqDistBasics | rogueFusion.py:66-69 | the distance is symmetric and is zero exactly between equal coordinates |
| Geometry.SquareMonotone | rogueFusion.py:66-69 | comparing squares of integers is the same as comparing their absolute values, so squared distances order points as `sqrt` distances do |
| Geometry.SubAddInverse | main.py:70-74 | `Coord` subtraction undoes addition, both ways round |
| Rooms.Cells | rogueFusion.py:686-687 | the set of cells of a room is exactly the coordinates `in` the room |
| Rooms.CenterInside | rogueFusion.py:695-697 | the floor-divided centre of a well-formed room lies inside it |
| Rooms.Intersect | rogueFusion.py:689-693 | whatever the corner test flags between two well-formed rooms does overlap, so it never rejects a room without cause; it can only miss overlaps |
| Rooms.OverlapsIffSharedCell | rogueFusion.py:689-693 | the box test says that two rooms share a cell, and says it exactly |
| Rooms.IntersectMissesCrossing | rogueFusion.py:689-693 | two drawable rooms that cross like a plus sign share a cell, yet neither direction of the corner test flags them |
| Rooms.RandRoom | rogueFusion.py:855-859 | for every draw `randint` can make on a floor of size n >= 3, the room's corners satisfy 0 <= c1 <= n-3 and c1 < c2 <= n-1 on both axes; the sides are at most 8, and the room fits on the grid |
| Floors.Blank | main.py:774-780 | a fresh floor is all walls, has nothing placed, and is consistent |
| Floors.Put | main.py:888-897 | off-grid gives `IndexError`, a cell other than ground gives `ValueError`, and an element already placed gives `KeyError`, checked in that order; it succeeds exactly otherwise; then `o` stands on `c` and the index says so, no other cell or index entry changes, and consistency is kept |
| Floors.GetChecked | main.py:899-902 | the terminal `get` fails exactly for an off-grid coordinate |
| Floors.GetSafe | rogueFusion.py:913-919 | the graphical `get` reads every off-grid coordinate as a wall |
| Floors.GetSafeExtendsGetChecked | rogueFusion.py:913-919 | the total `get` agrees with the raising one wherever that one answers, and reads a wall wherever it raises |
| Floors.PosChecked | main.py:904-907 | the terminal `pos` answers the indexed coordinate exactly for a placed element and raises `KeyError` otherwise |
| Floors.PosOpt | rogueFusion.py:925-931 | the graphical `pos` answers `None` exactly for an element that is not placed |
| Floors.PosIffGet | rogueFusion.py:913-931 | on a consistent floor `pos(o) == c` holds exactly when `get(c)` is `o` |
| Floors.Rm | main.py:909-913 | off-grid raises; a cell that holds no placed element raises `KeyError`; otherwise the cell becomes ground, its occupant leaves the index, nothing else changes, and consistency is kept |
| Floors.PutThenRm | main.py:888-913 | removing what was just put restores the floor exactly |
| Floors.Move | main.py:915-925 | an unplaced mover fails. A wall or off-grid destination changes nothing. A ground destination relocates only the mover and keeps the order of the elements. An occupied destination never relocates the mover: its occupant goes only when it dies and is not the hero. Consistency is kept |
| Floors.Relocate | main.py:919-922 | the ground branch of `move`: the origin becomes ground, the destination holds the mover, the index follows, nothing else changes, and the floor stays consistent |
| Floors.MoveUndo | main.py:915-922 | a step onto ground followed by the opposite step gives back the original floor |
| Generator.UnpopulatedConsistent | main.py:774-782 | a floor under generation, with no element yet, is consistent |
| Generator.AddRoom | rogueFusion.py:790-795 | the room is appended to the pending rooms, exactly its cells become ground, and nothing else changes |
| Generator.TryRooms | rogueFusion.py:863-868 | the draw loop only appends pending rooms, at most one per draw, and only turns cells into ground |
| Generator.TryRoomsAccepted | rogueFusion.py:863-868 | each room the loop adds clashed with none of the rooms added before it |
| Generator.IntersectNoneSound | rogueFusion.py:804-809 | `intersectNone` rejects a room only when it shares a cell with a room added so far. With the exact test it accepts exactly the rooms that share no cell with any of them. Every room the exact test accepts, the corner test accepts too |
| Generator.TryRoomsFit | rogueFusion.py:855-868 | each room the loop adds is well-formed, lies on the grid, and is ground throughout |
| Generator.GenerateRooms | rogueFusion.py:861-868 | the optional special room comes first and is unchecked. Every later room was accepted against all rooms before it. All rooms fit on the grid and are ground throughout. At least one room exists when anything was drawn |
| Generator.GeneratedRoomsFit | rogueFusion.py:861-868 | the same facts for a fresh generation, stated about the draw loop's result |
| Generator.BoxTestRoomsDisjoint | rogueFusion.py:804-809 | with the exact overlap test, no cell belongs to two accepted rooms |
| Generator.FindRoom | rogueFusion.py:797-802 | `findRoom` finds the first pending room containing the coordinate, and finds none exactly when no pending room contains it |
| Generator.Dig | rogueFusion.py:811-818 | the cell becomes ground and no other cell changes. A room containing it moves from pending to reached, so no room is lost or duplicated. The pending list changes exactly when some pending room contains the cell |
| Generator.DigAllCells | rogueFusion.py:820-829 | digging a path turns exactly its cells into ground |
| Generator.DigAllReaches | rogueFusion.py:820-829 | a path ending inside a pending room shortens the pending list |
| Generator.Steps | rogueFusion.py:823-829 | a cursor stepping by `sign(d)` visits exactly the values strictly after its start up to its end, one per unit of distance |
| Generator.LPath | rogueFusion.py:820-829 | the corridor path has 1 + abs(dy) + abs(dx) cells, from `a` to `b` |
| Generator.LPathCells | rogueFusion.py:820-829 | the dug path is exactly the vertical-then-horizontal L from `a` to `b`, both ends included |
| Generator.LPathInGrid | rogueFusion.py:820-829 | the L between two grid cells stays on the grid |
| Generator.Corridor | rogueFusion.py:820-829 | `corridor` turns exactly the L-shaped path into ground and touches no other cell. Rooms only move from pending to reached. A pending room holding the end is reached |
| Generator.Reach | rogueFusion.py:831-837 | for every pair of random choices, one `reach` shortens the pending list (the pending room's centre lies inside it) and loses or duplicates no room |
| Generator.ReachLoop | rogueFusion.py:839-844 | the `while` loop terminates with no room pending, and the reached rooms are exactly the rooms there were |
| Generator.ReachAllRooms | rogueFusion.py:839-844 | given at least one room, every room ends up reached, the first pending room first, and only ground is added |
| Generator.FirstRoomGround | rogueFusion.py:778-782 | the hero's start cell, the centre of the first reached room, is ground on the grid |
| Generator.PlaceHero | rogueFusion.py:778-782 | putting the hero there succeeds, and the hero is then the only element |
| Generator.NewFloor | main.py:774-787 | the floor constructor up to the hero's placement never fails with at least one draw; every room is reached, and the hero stands alone at the first room's centre on a consistent floor |
| Reachability.StepsUnit | rogueFusion.py:823-829 | each corridor leg's cursor moves by exactly one at every step and stops at its end |
| Reachability.LPathSteps | rogueFusion.py:820-829 | each cell `corridor` digs is one unit step along one axis from the cell dug before it |
| Reachability.LPathWalk | rogueFusion.py:820-829 | once its cells are ground on the grid, the corridor is a walk linking its two ends |
| Reachability.LinkedInRoom | rogueFusion.py:790-795 | any two cells of a room that `addRoom` turned into ground are linked inside the room |
| Reachability.DigNewRoom | rogueFusion.py:811-818 | one `dig` reaches at most one room, and that room contains the dug cell |
| Reachability.DigAllNewRooms | rogueFusion.py:820-829 | every room a corridor reaches contains one of its cells |
| Reachability.CorridorWalk | rogueFusion.py:820-829 | a corridor keeps every ground cell, becomes a walk, and every room it reaches holds one of its cells |
| Reachability.ReachCorridor | rogueFusion.py:831-837 | one `reach` keeps the ground and the rooms ground, and digs a walk from the centre of the chosen reached room through every room it reaches |
| Reachability.ReachKeepsLinked | rogueFusion.py:831-837 | one `reach` keeps the centre of every reached room, old and new, linked to the same home cell |
| Reachability.ReachLoopKeepsLinked | rogueFusion.py:842-844 | the `while` loop keeps every reached room's centre linked to the home cell |
| Reachability.ReachAllRoomsConnects | rogueFusion.py:839-844 | after `reachAllRooms` on ground rooms none of which is reached, all rooms are reached, the first pending room is first, and every room's centre is linked to its centre: "makes all rooms reachable" |
| Reachability.GeneratedFloorConnects | main.py:785-786 | on the floor the constructor generates with at least one draw, every room is reached and linked to the first room, whose centre is the hero's start |
| Steering.RankOfWays | rogueFusion.py:966-969 | `Rank` numbers the nine scan offsets in `direction`'s loop order |
| Steering.Toward | main.py:81-93 | the terminal `direction` steps along x exactly when the gap is strictly wider in x. It always brings the monster strictly nearer and stays within the box spanned by the two cells |
| Steering.TowardInGrid | main.py:927-936 | the terminal step from a grid cell towards a grid cell stays on the grid, so `get` never raises there |
| Steering.ScanFrom | rogueFusion.py:964-975 | the scan keeps the earliest of the strictly nearest open candidates, or the starting one |
| Steering.Direction | rogueFusion.py:964-975 | `direction` returns `(0, 0)` or the offset to an in-grid ground neighbour strictly nearer the target. That neighbour has minimal distance among open neighbours, and ties go to the earliest in scan order. It returns `(0, 0)` exactly when no open neighbour is nearer |
| Steering.StepOf | rogueFusion.py:977-986 | in either game a monster's step is one of the nine offsets and, unless null, brings it strictly nearer the hero |
| Steering.StepApproaches | rogueFusion.py:977-986 | a monster's step onto ground moves only that monster, one offset nearer the hero, and keeps the floor consistent |
| Steering.MonsterTurn | rogueFusion.py:977-986 | one loop body: only a creature other than the hero, within distance 6, moves, and it moves one step nearer. Bumping into the hero never removes the hero and happens only in the terminal game |
| Steering.MoveAll | rogueFusion.py:977-986 | the sweep keeps the floor consistent and the hero in place. It removes nobody, and each element moves at most once, strictly nearer the hero |
| Steering.MoveAllMonsters | rogueFusion.py:977-986 | `moveAllMonsters` only moves non-hero creatures within distance 6 of the hero, each strictly nearer. It removes no element and keeps the floor consistent. Graphical monsters never bump into the hero |
| Creatures.Hit | main.py:162-167 | the defender loses exactly the damage of the attacker's "hit" weapon when one is equipped, and exactly the attacker's strength otherwise; nothing else changes |
| Creatures.EquipWeapon | main.py:236-242 | it succeeds exactly when the weapon is carried. The new weapon is then alone in the slot. A previous weapon is appended to the inventory before the first occurrence of the new one is removed from it. The multiset of inventory plus slot is unchanged |
| Creatures.RemoveCurrentWeapon | main.py:244-253 | with no weapon, or with more than ten items in the inventory, nothing changes. Otherwise the weapon goes to the end of the inventory. The multiset of inventory plus slot is kept either way |
| Creatures.EquipThenRemove | main.py:236-253 | equipping a weapon from the inventory and unequipping it leaves the same items in the inventory, the weapon now last |
| Combat.Meet | main.py:149-160 | the defender's hp drops by exactly the blow; `meet` answers True exactly when hp <= 0 afterwards; only a dead defender that is not the hero credits its xp to the attacker |
| Heroes.Take | main.py:326-335 | "gold" adds one coin, and anything else is appended to the inventory with no capacity check |
| Heroes.DeleteItem | main.py:356-363 | a carried item loses exactly its first occurrence, and the other items keep their order. An item that is not carried changes nothing |
| Heroes.TakeThenDelete | main.py:326-363 | taking an item and deleting it restores the inventory's contents, and the inventory itself when the item was new |
| Heroes.VerifyStomach | main.py:394-396 | an empty stomach costs exactly one hp, and nothing else changes |
| Heroes.Buy | rogueFusion.py:510-518 | with at most ten items and enough gold, the price is paid and the item taken; otherwise nothing changes |
| Heroes.GainLevel | main.py:387-392 | one level more, one strength more, and `1 + newLevel` gold |
| Heroes.LevelUp | main.py:373-385 | the loop spends the threshold `25*level` while xp strictly exceeds it. Every xp point is accounted for, the result ends at or below its threshold, and a level is gained exactly when xp was above the first threshold. Each level adds 1 strength and `1 + newLevel` gold |
| Heroes.GainXP | rogueFusion.py:474-494 | credit the xp, then level up with carry-over as above; only the level, strength, gold and xp change |
| Heroes.LevelUpUnique | main.py:365-392 | the outcome of levelling is the only level and xp that account for every point, end at or below their threshold, and leave some xp when a level was gained |
| Heroes.SixtyXpAtLevelOne | main.py:365-392 | 60 xp at level 1 with 0 xp give level 2 with 35 xp, 1 strength and 3 gold more |
| Heroes.AtThresholdStays | main.py:373-377 | xp exactly at the threshold does not level up |
| Lifecycle.Replace | main.py:416-422 | the list holds the effect object itself: an updated object shows in the list, and every other entry and the absence of repeats are kept |
| Lifecycle.Drop | main.py:412-414 | `activeEffects.remove(self)` takes out exactly that entry |
| Lifecycle.Fire | main.py:425-426 | an effect's action changes the creature as its kind says and logs exactly one more firing of that effect and nothing else. The list of running effects is untouched |
| Lifecycle.Desactivate | main.py:433-435 | an ephemeral effect's `desactivate` logs its end and unlists exactly that effect, leaving the creature and the other entries alone. A strength effect instead loses its boost and stays listed, with the log unchanged |
| Lifecycle.Action | main.py:462-518 | heal gives `min(hp+value, _defaultHp)` and poison takes exactly `value` hp. Feed gives `min(stomach+value, stomach size)`, and strength adds `value`. Nothing else changes |
| Lifecycle.Activate | main.py:428-448 | an ephemeral effect's `activate` acts once and is listed without duplicate. It uses up a round, and is desactivated and unlisted when none is left |
| Lifecycle.AppendFresh | main.py:428-431 | appending an effect not yet listed adds exactly that entry |
| Lifecycle.Update | main.py:416-422 | `update` runs the effect's action once and logs one firing. A bounded effect loses a round. An ephemeral one with none left is unlisted, and a strength effect with none left has its boost taken back by `desactivate`. No other entry changes |
| Lifecycle.UpdateFires | main.py:416-422 | an update logs exactly one firing, of the updated effect |
| Lifecycle.ActivateConstant | main.py:574-577 | the first `activate` raises strength once and sets the flag; later calls change nothing |
| Lifecycle.StrengthOnce | main.py:574-605 | activating a strength effect twice raises strength once by `level*LEVEL_FACTOR`, and `desactivate` takes exactly that back |
| Lifecycle.TickAsWritten | main.py:1159-1165 | the loop as written keeps the list free of repeats (the skip it causes is in `TickAsWrittenSkips`) |
| Lifecycle.TickAsWrittenSkips | main.py:1159-1165 | two effects ending in the same round: the loop as written does not fire the second in that round, while the corrected round fires it once |
| Lifecycle.Tick | main.py:1159-1165 | the corrected round keeps the list free of repeats (its promise is in `TickFiresEachOnce`) |
| Lifecycle.TickIdsOnce | main.py:1159-1165 | visiting distinct effects fires each eligible listed one exactly once and leaves its entry as one update does; other entries are kept |
| Lifecycle.TickFiresEachOnce | main.py:1159-1165 | in a corrected round every eligible listed effect fires exactly once |
| Lifecycle.UpdateCountsDown | main.py:416-422 | one update of a listed ephemeral effect fires it once and uses up one round, unlisting it at zero |
| Lifecycle.UpdatesCountdown | main.py:416-448 | after k <= m updates an effect with m rounds left has fired k more times, and it is listed with m - k rounds exactly while k < m |
| Lifecycle.EphemereRunsDurationTimes | main.py:412-448 | an ephemeral effect of duration N >= 1 runs its action exactly N times, once on activation and once per update, and is then off the list |
| Powers.Apply | rogueFusion.py:577-583 | feeding fills the stomach up to its size at most |
| Powers.FeedFills | rogueFusion.py:577-583 | feeding changes nothing but the stomach |
| Powers.NegatedUndoes | rogueFusion.py:538-596 | every power but feeding, applied with v and then with -v, leaves the creature unchanged |
| Powers.FeedNotUndone | rogueFusion.py:577-583 | a full stomach of 5 fed 3 stays at 5, and the negated feeding then drops it to 2 |
| Powers.Store | rogueFusion.py:249-253 | `d[effect] = v`: the key holds `v` and no other key changes. A present key keeps its place and a new key goes last, each key once |
| Powers.MergeLookup | rogueFusion.py:302-303 | after `a.update(b)` (`Powers.Merge`) a key of `b` holds `b`'s value, every other key keeps `a`'s, and each key is held once |
| Powers.AddEffect | rogueFusion.py:244-255 | `addEffect` applies the effect's power to the creature once, at once, whatever its kind. It never touches the pending table, records only a constant effect as applied, and records only an ephemeral effect with duration other than 1 as running |
| Powers.AddEffectRecords | rogueFusion.py:244-255 | what each table holds after `addEffect`: a constant effect's value, or an ephemeral effect's `duration - 1`; the tables stay well formed |
| Powers.RemainingDecrements | rogueFusion.py:285-296 | after the ephemeral loop each countdown is one lower, deleted when that made 0, and none is left at 0 |
| Powers.RoundTables | rogueFusion.py:283-304 | `applyAllEffects` (`Powers.ApplyAllEffects`) decrements each running effect, deleting it at 0. The pending constant effects join the applied ones, and the tables stay well formed |
| Powers.ApplyShifts | rogueFusion.py:538-596 | each power but feeding moves one counter by its value, whatever the creature |
| Powers.HeldShifts | rogueFusion.py:275-277 | applying additive effects one after another moves each counter by their total |
| Powers.RemoveAllEffects | rogueFusion.py:270-281 | all three tables are emptied, and each applied additive effect is taken back by re-applying it with its value negated |
| Powers.AddThenRemoveAll | rogueFusion.py:244-281 | adding a constant additive effect and then removing all effects ends where removing all effects without it does |
| Powers.OneRoundTables | rogueFusion.py:283-304 | a round on a body with one running effect decrements it, deleting it at 0 |
| Powers.OneRoundActs | rogueFusion.py:283-304 | in that round the effect acts once with its stored value |
| Powers.EphemereCountdown | rogueFusion.py:244-304 | an ephemeral effect of duration d added to a body with no other running or pending effect is, after k rounds, the only running effect, with d - 1 - k rounds left until that reaches 0, and is then gone; a duration of 0 or less never reaches 0 |
| Powers.CountdownAmong | rogueFusion.py:244-304 | among any other effects of a well-formed body, an ephemeral effect of duration d >= 2 that is not running yet is listed after k < d - 1 rounds with d - 1 - k rounds left, and is gone after d - 1 rounds; the tables stay well formed |
| Powers.CountdownRounds | rogueFusion.py:285-296 | from a body whose only running effect has `left` rounds left, k rounds count it down to `left - k` and delete it when that reaches 0 |
| Powers.EphemereRounds | rogueFusion.py:244-304 | on a body with no other running or pending effect, after k rounds the effect has acted k + 1 times |
| Powers.EphemereActsDurationTimes | rogueFusion.py:244-304 | on a body with no other running or pending effect, an ephemeral effect of duration d >= 2 acts exactly d times, once when added and once in each of the next d - 1 rounds, and later rounds leave the creature alone |
| Session.Split | rogueFusion.py:1696-1699 | `msg.split('\n')` gives at least one piece, none holding a line break |
| Session.JoinSplit | rogueFusion.py:1696-1699 | joining the pieces of a split gives the message back |
| Session.SplitJoin | rogueFusion.py:1696-1699 | splitting a join of lines without line breaks gives the lines back |
| Session.AddMessage | rogueFusion.py:1694-1702 | the log keeps its old lines in front, and the new lines join back into the message with no line break in any of them; a message without a line break is one line |
| Session.StageIsOneLine | rogueFusion.py:155 | the stage announcement is logged as exactly one line |
| Session.Hunger | rogueFusion.py:1898-1900 | one round's hunger changes only the stomach and hp. A non-empty stomach loses one point exactly on a round that is a multiple of 20. Hp drops by one exactly when the stomach is empty afterwards, including the round in which it empties |
| Session.HungerOverRounds | main.py:1152-1157 | over k rounds a non-negative stomach loses one point per multiple of 20 until it is empty, and nothing but the stomach and hp changes. Hp never rises and falls at most one per round. It stays put while the stomach never empties, and falls every round from an empty stomach |
| Session.OfferedIff | rogueFusion.py:79-87 | the scan offers a cell exactly when it is on the grid, plain ground and next to the stair |
| Session.EmptyAround | rogueFusion.py:79-87 | `getEmptyCoordAround` lists exactly the ground cells of the grid around the coordinate |
| Session.Leave | rogueFusion.py:151 | on a consistent floor `rm(pos(hero))` succeeds exactly when the hero is placed. It then removes only the hero and keeps the floor consistent |
| Session.Arrive | rogueFusion.py:157-162 | the hero is put next to the arrival stair. This fails with no stair, with no free cell (an empty `random.choice`), or with the hero already there. On success only the hero's entry changes, and consistency is kept |
| Session.ChangeFloor | rogueFusion.py:147-184 | `actualFloor` changes by exactly +1 (`monterEtage`) or -1 (`descendreEtage`), and only when the result is within [0, len(floorList)). Otherwise the usage answers False and nothing changes. The floor index stays in bounds, and no third floor changes |
| Session.ChangeFloorAnnounces | rogueFusion.py:155 | a floor change logs "You are now in stage k/n" for the floor reached, counting from one |
| Session.ChangeFloorKeepsPlaced | rogueFusion.py:147-184 | from a game in order, the hero stays placed on exactly the current floor, where its record says. A change fails exactly when the next floor's arrival stair is missing or has no free cell around it |
| Session.ClimbThenDescend | rogueFusion.py:147-184 | climbing and then coming back down returns the hero to the floor it left, and the floor above no longer holds the hero |
| Session.Walk | rogueFusion.py:939-954 | the hero's step is `move` on the current floor and keeps the game in order. The hero's `x`, `y` follow it exactly onto ground |
| Session.HeroStep | rogueFusion.py:939-954 | a step into a stair is that stair's floor change, a step into the merchant leaves the map alone, and any other step is a walk; the game stays in order |
| Session.AffectAll | rogueFusion.py:1012-1017 | each monster goes through exactly one `applyAllEffects`, and other bodies are untouched. The dead are exactly the monsters left with hp <= 0 |
| Session.Positions | rogueFusion.py:1017 | the collected coordinates are the positions of the given elements, one for each, in order |
| Session.RmAllRemoves | rogueFusion.py:1019-1020 | the `rm` loop over the collected positions (`Session.RmAll`) succeeds for distinct placed elements and removes exactly those elements. Everybody else keeps their place, and the floor stays consistent |
| Session.ApplyEffectsToAllMonsters | rogueFusion.py:1009-1020 | every monster's effects act for one round. Exactly the monsters left with hp <= 0 leave the map. Nobody else moves, and the floor stays consistent |

## Left out

- Rendering, sound, fonts, the tile images and graphic fields, the terminal key reading and the printing loops are input and output, not game logic.
- The random generators are not modelled. Each draw is a parameter (`RoomPick`, `Pick`, `pick`), and the properties hold for every draw.
- Steering.Toward: the terminal `Coord.direction` compares a floating-point cosine with 1/sqrt(2). The model uses the exact real comparison `dx^2 > dy^2`, so floating-point rounding on an exact diagonal is not modelled.
- `Coord.distance` and its `sqrt` are not modelled, because every use compares distances with each other or with 6. The model compares squared integer distances instead, which is exact.
- Integers are unbounded, as Python's are, so no overflow is modelled.
- `HungerEffect` and `WeaknessEffect` of the terminal game are left out: their constructors call the base constructor with an extra argument and raise.
- Lifecycle.Desactivate: `StrengthEffect.desactivate` subtracts the boost and then fails on an undefined name. The model keeps the subtraction and leaves the effect listed. The exception is not modelled.
- `removeConstantEffect` is left out: it reads attributes that do not exist in either game.
- Powers.Apply: on a creature other than the hero, three powers raise in the graphical game. `heal` fails on its message after adding the hit points, and the model keeps those hit points. `hunger` raises a `KeyError` on the missing `stomach` entry before changing anything. `feed` raises an `AttributeError` on the missing `defaultStomachSize` before changing anything. The model does not fail in these two cases: it computes a new stomach for any creature.
- `TeleportEffect` and `Effect.teleport` are left out: they are random and drive the global game object.
- `meetMarchand` (the merchant's shop dialog) is left out: it only draws the shop on screen. Session.HeroStep models its effect on the map, which is none.
- `Weapon.throw` and `launchProjectile` are left out: they are empty stubs.
- The item and monster catalogues of `Game` are left out: they call an old `Effect` signature or undefined names.
- The graphical `Game.play` is left out: it calls methods that do not exist.
- An effect with `value=None` is not modelled: every effect carries an integer value.
- A weapon slot holding something other than a weapon is not modelled: the game only puts weapons there.
- Combat.Meet: the attacker's xp credit calls `gainXP`, which only the hero has; a monster killing a monster would raise. The model credits any attacker.
- Single-target effects carried by weapons (`applyWeaponEffects`) are left out: they go through the same `addEffect` already modelled.
- A map operation that raises after mutating part of the state (`equipWeapon` when the weapon is not carried, or a floor change that fails after `rm`) is modelled as failing with the state before the call.
- The composition of a whole round is not modelled as one function. `moveAllMonsters`, the hunger step, the hero's effect round and `applyEffectsToAllMonsters` are modelled separately, in the order the rounds call them.
- Only the stage announcement's message text is modelled. Every other message is text for the player.
- Session.Leave: `rm(pos(hero))` with the hero not placed raises a `TypeError` on `None`. The model reports it as `MapFailure(NotPlaced)`.
- `Map.emptyAround`, `checkMove` (except inside `getEmptyCoordAround`), `putRoomObjects`, `decorate` and `randEmptyCoord` are left out: they place decorations at random and are not part of the floor's invariants.
- Powers.EphemereRounds: the count of applications is proved only for an effect added to a body with no other running or pending effect. With other effects running, their actions interleave with it on the same creature. `Powers.CountdownAmong` proves that its countdown is the same in that case, but the creature's final state is not stated.
- Powers.EphemereActsDurationTimes: "exactly d times" and "later rounds leave the creature alone" are proved only for a body with no other running or pending effect, for the same reason.
- Powers.EphemereCountdown: stated for a body with no other running or pending effect, so that it also covers durations of 0 or less. `Powers.CountdownAmong` gives the countdown among other effects for durations of 2 or more.
- The hit a terminal monster deals when it walks into the hero is not modelled. `Steering.MoveAll` returns those monsters in `attackers`, each the `meet` that `move` calls on the hero (main.py:924), but nothing folds `Combat.Meet` over them. Graphical monsters never walk into the hero.
- `CasesGraphiques.py` is not part of this model: it only loads images.

## Findings

| source | as written | input that shows it | evidently intended | confidence | as-written member | corrected member |
|---|---|---|---|---|---|---|
| rogueFusion.py:689-693 | `Room.intersect` only tests whether a corner of one room lies in the other | rooms (0,5)-(8,9) and (3,2)-(7,10) on a 20x20 floor cross like a plus sign and share (3,5), yet no corner of either lies in the other | reject a room sharing any cell with an accepted one | not executed | Rooms.IntersectMissesCrossing | Generator.BoxTestRoomsDisjoint |
| main.py:1159-1165 | the round loops over `activeEffects` while `update` removes expiring effects from that list | two poison effects, each with one round left: removing the first slides the second into the visited position, so it is skipped that round | every effect listed at the start of the round is updated once | not executed | Lifecycle.TickAsWrittenSkips | Lifecycle.TickFiresEachOnce |

For the first row, the generator is parameterised by the overlap test (`Generator.OverlapTest`). With `CornerTest` it follows the code. With `BoxTest` the accepted rooms are proved pairwise disjoint. Every other generator property holds for both tests. For the second row, `Lifecycle.TickAsWritten` models the loop as written and `Lifecycle.Tick` the corrected round.
