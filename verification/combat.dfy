/** An encounter between two creatures (`Creature.meet`): the defender takes
    the attacker's blow, and a monster that dies hands its xp to the
    attacker. */
module Combat {
  import opened Creatures
  import opened Heroes

  /** Both creatures after the encounter, and whether the defender died. */
  datatype Encounter = Encounter(defender: Creature, attacker: Creature, dead: bool)

  /** `Creature.meet(other)`: `self` is the defender and `other` the attacker.
      The defender is hit; it is dead exactly when it has no hit point left,
      and only a dead defender that is not the hero gives its xp to the
      attacker. */
  function Meet(defender: Creature, attacker: Creature): (r: Encounter)
    ensures r.defender.hp == defender.hp - (if HasHittingWeapon(attacker) then attacker.slot.value.weapon.value.damage else attacker.strength)
    ensures r.defender == defender.(hp := r.defender.hp)
    ensures r.dead <==> r.defender.hp <= 0
    ensures r.dead && defender.species != Hero ==> r.attacker == GainXP(attacker, defender.xp)
    ensures !r.dead || defender.species == Hero ==> r.attacker == attacker
  {
    var hurt := Hit(defender, attacker);
    if hurt.hp > 0 then Encounter(hurt, attacker, false)
    else if defender.species != Hero then Encounter(hurt, GainXP(attacker, defender.xp), true)
    else Encounter(hurt, attacker, true)
  }
}
