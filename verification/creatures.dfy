/** The creatures of the dungeon (`Creature`, `Hero`) and the equipment they
    carry (`Equipment`, `Weapon`): what a blow takes away, and the single
    weapon slot next to the inventory. */
module Creatures {
  import opened Wrappers
  import opened Lists

  /** `Weapon._weaponTypeList`; only a "hit" weapon replaces strength as the
      damage of a blow. */
  datatype WeaponKind = HitWeapon | ThrowWeapon | ProjectileWeapon

  datatype WeaponStats = WeaponStats(kind: WeaponKind, damage: int)

  /** A piece of equipment. Python compares equipment by identity; `id` plays
      that role. `gold` marks the equipment named "gold", `price` is what the
      merchant asks, and `weapon` is present exactly for a `Weapon`. */
  datatype Item = Item(id: nat, gold: bool, price: int, weapon: Option<WeaponStats>)

  datatype Species = Monster | Hero

  /** A creature. `maxHp` is `_defaultHp`, the hit points it was created with;
      `stomachSize` is the stomach capacity. The weapon slot is a list that
      only ever holds zero or one weapon, so it is an option here. `level`,
      `gold`, `stomach` and `stomachSize` are meaningful for the hero only. */
  datatype Creature = Creature(
    species: Species,
    hp: int,
    maxHp: int,
    strength: int,
    xp: int,
    slot: Option<Item>,
    inventory: seq<Item>,
    level: int,
    gold: int,
    stomach: int,
    stomachSize: int)

  /** `Creature.defaultInventorySize`. */
  const InventorySize := 10

  /** Everything the creature carries: the inventory and the weapon slot. */
  function Carried(c: Creature): multiset<Item>
  {
    multiset(c.inventory) + (if c.slot.Some? then multiset{c.slot.value} else multiset{})
  }

  /** `hasWeapon() and hasAnHittingWeapon()`. */
  predicate HasHittingWeapon(c: Creature)
  {
    c.slot.Some? && c.slot.value.weapon.Some? && c.slot.value.weapon.value.kind == HitWeapon
  }

  /** `Creature.hit`: the defender loses the damage of the attacker's "hit"
      weapon when one is equipped, and the attacker's strength otherwise. */
  function Hit(defender: Creature, attacker: Creature): (r: Creature)
    ensures HasHittingWeapon(attacker) ==> r.hp == defender.hp - attacker.slot.value.weapon.value.damage
    ensures !HasHittingWeapon(attacker) ==> r.hp == defender.hp - attacker.strength
    ensures r == defender.(hp := r.hp)
  {
    var blow := if HasHittingWeapon(attacker) then attacker.slot.value.weapon.value.damage else attacker.strength;
    defender.(hp := defender.hp - blow)
  }

  /** `list.remove` raising `ValueError` for a weapon that is not carried. */
  datatype ItemError = NotCarried

  /** `Creature.equipWeapon`: a weapon already in the slot goes back to the
      inventory, then `w` moves from the inventory into the slot. The
      removal fails when `w` is carried neither in the inventory nor in the
      slot. */
  function EquipWeapon(c: Creature, w: Item): (r: Result<Creature, ItemError>)
    ensures r.Success? <==> w in c.inventory || c.slot == Some(w)
    ensures r.Failure? ==> r.error == NotCarried
    ensures r.Success? ==>
      && r.value.slot == Some(w)
      && Carried(r.value) == Carried(c)
      && r.value == c.(slot := r.value.slot, inventory := r.value.inventory)
    ensures r.Success? && c.slot.None? ==> r.value.inventory == RemoveFirst(c.inventory, w)
    ensures r.Success? && c.slot.Some? ==> r.value.inventory == RemoveFirst(c.inventory + [c.slot.value], w)
  {
    var back := if c.slot.Some? then [c.slot.value] else [];
    var bag := c.inventory + back;
    assert c.slot.None? ==> bag == c.inventory;
    if w !in bag then Failure(NotCarried)
    else
      var e := c.(slot := Some(w), inventory := RemoveFirst(bag, w));
      SwapKeepsCarried(c, bag, e);
      Success(e)
  }

  /** Moving a carried item from the inventory into the slot, whose old
      content was put back, keeps everything carried. */
  lemma SwapKeepsCarried(c: Creature, bag: seq<Item>, e: Creature)
    requires bag == c.inventory + (if c.slot.Some? then [c.slot.value] else [])
    requires e.slot.Some? && e.slot.value in bag && e.inventory == RemoveFirst(bag, e.slot.value)
    ensures Carried(e) == Carried(c)
  {
    var w := e.slot.value;
    assert multiset(bag) == Carried(c);
    assert multiset(e.inventory) == multiset(bag) - multiset{w};
    assert multiset(bag)[w] >= 1;
  }

  /** `Creature.removeCurrentWeapon`: the equipped weapon goes back to the end
      of the inventory, unless the inventory already holds more than ten
      items; with no weapon equipped nothing happens. */
  function RemoveCurrentWeapon(c: Creature): (r: Creature)
    ensures Carried(r) == Carried(c)
    ensures c.slot.None? || |c.inventory| > InventorySize ==> r == c
    ensures c.slot.Some? && |c.inventory| <= InventorySize ==>
      r.slot.None? && r.inventory == c.inventory + [c.slot.value]
    ensures r == c.(slot := r.slot, inventory := r.inventory)
  {
    if c.slot.Some? && |c.inventory| <= InventorySize then
      c.(slot := None, inventory := c.inventory + [c.slot.value])
    else c
  }

  /** Equipping a weapon from the inventory and unequipping it again leaves
      the inventory holding the same items, the weapon now last. */
  lemma EquipThenRemove(c: Creature, w: Item)
    requires c.slot.None? && w in c.inventory && |c.inventory| <= InventorySize + 1
    ensures EquipWeapon(c, w).Success?
    ensures RemoveCurrentWeapon(EquipWeapon(c, w).value) == c.(inventory := RemoveFirst(c.inventory, w) + [w])
    ensures multiset(RemoveCurrentWeapon(EquipWeapon(c, w).value).inventory) == multiset(c.inventory)
  {
    var e := EquipWeapon(c, w).value;
    assert |e.inventory| == |c.inventory| - 1;
    assert Carried(RemoveCurrentWeapon(e)) == Carried(c);
  }
}
