/** The effect engine of the graphical game: an `Effect` names a power
    (`Effect.hunger`, `poison`, `heal`, `feed`, `giveStrength`, `giveHealth`,
    `giveWeakness`) and a kind, and each creature keeps three dictionaries
    keyed by effect object — the running ephemeral effects with their rounds
    left, the constant effects waiting to be applied, and those applied. */
module Powers {
  import opened Wrappers
  import opened Creatures

  datatype Power = Hunger | Poison | Heal | Feed | GiveStrength | GiveHealth | GiveWeakness

  /** `Effect._effectTypeList`. */
  datatype Kind = Instant | Ephemere | Constant

  /** An effect object. Python keys the dictionaries by the object's identity;
      `id` plays that role. `duration` only matters for an ephemeral effect. */
  datatype Spell = Spell(id: nat, power: Power, kind: Kind, duration: int, value: int)

  /** The `[rounds left, value]` stored for a running ephemeral effect. */
  datatype Countdown = Countdown(left: int, value: int)

  /** One dictionary item: the effect object and what is stored for it. A
      constant effect stores its value (`[None, value]`). */
  datatype Entry<V> = Entry(spell: Spell, data: V)

  /** A creature with its three effect dictionaries, each listed in key
      insertion order. */
  datatype Body = Body(
    creature: Creature,
    ephemere: seq<Entry<Countdown>>,
    toApply: seq<Entry<int>>,
    applied: seq<Entry<int>>)

  /** The power's function applied with `v`: hunger takes from the stomach, poison
      and health work on hit points, strength and weakness on strength, all
      without bound; feeding fills the stomach up to its size at most. */
  function Apply(c: Creature, p: Power, v: int): (r: Creature)
    ensures p == Feed ==> r.stomach == Min(c.stomach + v, c.stomachSize)
  {
    match p
    case Hunger => c.(stomach := c.stomach - v)
    case Poison => c.(hp := c.hp - v)
    case Heal => c.(hp := c.hp + v)
    case Feed =>
      if c.stomachSize >= c.stomach + v then c.(stomach := c.stomach + v)
      else c.(stomach := c.stomach + (c.stomachSize - c.stomach))
    case GiveStrength => c.(strength := c.strength + v)
    case GiveHealth => c.(hp := c.hp + v)
    case GiveWeakness => c.(strength := c.strength - v)
  }

  function Min(a: int, b: int): int
  {
    if a <= b then a else b
  }

  /** Feeding changes nothing but the stomach. */
  lemma FeedFills(c: Creature, v: int)
    ensures Apply(c, Feed, v) == c.(stomach := Min(c.stomach + v, c.stomachSize))
  {
  }

  /** Every power but feeding adds to a counter without bound. */
  predicate Additive(p: Power)
  {
    p != Feed
  }

  /** An additive power applied with `v` and then with `-v` leaves the
      creature as it was. */
  lemma NegatedUndoes(c: Creature, p: Power, v: int)
    requires Additive(p)
    ensures Apply(Apply(c, p, v), p, -v) == c
  {
    match p
    case Hunger =>
    case Poison =>
    case Heal =>
    case GiveStrength =>
    case GiveHealth =>
    case GiveWeakness =>
  }

  /** Feeding beyond the stomach's size is not undone by the opposite
      feeding: a full stomach of 5 fed 3 stays at 5, then drops to 2. */
  lemma FeedNotUndone(c: Creature)
    requires c.stomach == 5 && c.stomachSize == 5
    ensures Apply(Apply(c, Feed, 3), Feed, -3).stomach == 2
  {
    assert Apply(c, Feed, 3).stomach == 5;
  }

  /** What the dictionary holds for effect `id`. */
  function Lookup<V>(t: seq<Entry<V>>, id: nat): (r: Option<V>)
  {
    if t == [] then None else if t[0].spell.id == id then Some(t[0].data) else Lookup(t[1..], id)
  }

  /** A dictionary holds each key once. */
  predicate Keyed<V>(t: seq<Entry<V>>)
  {
    t == [] || (Lookup(t[1..], t[0].spell.id).None? && Keyed(t[1..]))
  }

  /** `d[effect] = v`: a present key keeps its place and gets the new value, a
      new key goes last. */
  function Store<V>(t: seq<Entry<V>>, s: Spell, v: V): (r: seq<Entry<V>>)
    ensures Lookup(r, s.id) == Some(v)
    ensures forall id | id != s.id :: Lookup(r, id) == Lookup(t, id)
    ensures Keyed(t) ==> Keyed(r)
    ensures Lookup(t, s.id).Some? ==> |r| == |t|
    ensures Lookup(t, s.id).None? ==> r == t + [Entry(s, v)]
  {
    if t == [] then [Entry(s, v)]
    else if t[0].spell.id == s.id then
      var r := [Entry(t[0].spell, v)] + t[1..];
      assert r[1..] == t[1..];
      r
    else
      var rest := Store(t[1..], s, v);
      var r := [t[0]] + rest;
      assert r[1..] == rest;
      r
  }

  /** `a.update(b)`: the items of `b` are stored into `a` in order. */
  function Merge<V>(a: seq<Entry<V>>, b: seq<Entry<V>>): seq<Entry<V>>
    decreases |b|
  {
    if b == [] then a else Merge(Store(a, b[0].spell, b[0].data), b[1..])
  }

  /** After `a.update(b)`, a key of `b` holds `b`'s value and any other key
      keeps `a`'s; each key is still held once. */
  lemma {:induction false} MergeLookup<V>(a: seq<Entry<V>>, b: seq<Entry<V>>, id: nat)
    requires Keyed(a) && Keyed(b)
    ensures Lookup(Merge(a, b), id) == if Lookup(b, id).Some? then Lookup(b, id) else Lookup(a, id)
    ensures Keyed(Merge(a, b))
    decreases |b|
  {
    if b != [] {
      MergeLookup(Store(a, b[0].spell, b[0].data), b[1..], id);
    }
  }

  /** The dictionaries each hold a key once, and no ephemeral countdown is at
      zero (such an entry is deleted in the round it reaches zero). */
  predicate WellFormed(b: Body)
  {
    Keyed(b.ephemere) && Keyed(b.toApply) && Keyed(b.applied) && NoZero(b.ephemere)
  }

  predicate NoZero(t: seq<Entry<Countdown>>)
  {
    forall i | 0 <= i < |t| :: t[i].data.left != 0
  }

  /** `Creature.addEffect`: the power acts once at once; a constant effect is
      recorded as applied, an ephemeral one lasting other than one round is
      recorded with one round used up, and an instant one is not recorded. */
  function AddEffect(b: Body, s: Spell): (r: Body)
    ensures r.creature == Apply(b.creature, s.power, s.value)
    ensures s.kind != Constant ==> r.applied == b.applied
    ensures !(s.kind == Ephemere && s.duration != 1) ==> r.ephemere == b.ephemere
    ensures r.toApply == b.toApply
  {
    var c := Apply(b.creature, s.power, s.value);
    if s.kind == Constant then b.(creature := c, applied := Store(b.applied, s, s.value))
    else if s.kind == Ephemere && s.duration != 1 then
      b.(creature := c, ephemere := Store(b.ephemere, s, Countdown(s.duration - 1, s.value)))
    else b.(creature := c)
  }

  /** What `addEffect` records for each effect: the value of a constant
      effect, the rounds left after this one for an ephemeral effect lasting
      other than one round, and nothing new otherwise. The dictionaries stay
      well formed. */
  lemma AddEffectRecords(b: Body, s: Spell, id: nat)
    ensures Lookup(AddEffect(b, s).applied, id)
      == if s.kind == Constant && id == s.id then Some(s.value) else Lookup(b.applied, id)
    ensures Lookup(AddEffect(b, s).ephemere, id)
      == if s.kind == Ephemere && s.duration != 1 && id == s.id then Some(Countdown(s.duration - 1, s.value))
         else Lookup(b.ephemere, id)
    ensures WellFormed(b) ==> WellFormed(AddEffect(b, s))
  {
    if WellFormed(b) && s.kind == Ephemere && s.duration != 1 {
      StoreNoZero(b.ephemere, s, Countdown(s.duration - 1, s.value));
    }
  }

  /** Storing a countdown that is not at zero keeps every countdown off zero. */
  lemma {:induction false} StoreNoZero(t: seq<Entry<Countdown>>, s: Spell, v: Countdown)
    requires NoZero(t) && v.left != 0
    ensures NoZero(Store(t, s, v))
  {
    if t != [] && t[0].spell.id != s.id {
      StoreNoZero(t[1..], s, v);
    }
  }

  /** The countdown left after one round: one round less, and gone when that
      makes exactly zero. */
  function Decrement(d: Option<Countdown>): Option<Countdown>
  {
    match d
    case None => None
    case Some(cd) => if cd.left - 1 == 0 then None else Some(Countdown(cd.left - 1, cd.value))
  }

  /** The ephemeral loop of `applyAllEffects`: each running effect acts with
      its stored value. */
  function Act(c: Creature, t: seq<Entry<Countdown>>): Creature
    decreases |t|
  {
    if t == [] then c else Act(Apply(c, t[0].spell.power, t[0].data.value), t[1..])
  }

  /** The countdowns left after the ephemeral loop: each loses a round, and
      those reaching exactly zero are deleted after the loop. */
  function Remaining(t: seq<Entry<Countdown>>): (r: seq<Entry<Countdown>>)
    decreases |t|
  {
    if t == [] then []
    else if t[0].data.left - 1 == 0 then Remaining(t[1..])
    else [Entry(t[0].spell, Countdown(t[0].data.left - 1, t[0].data.value))] + Remaining(t[1..])
  }

  /** After the ephemeral loop each countdown is one round lower, gone when
      that made zero; none is left at zero, and each key is still held once. */
  lemma {:induction false} RemainingDecrements(t: seq<Entry<Countdown>>, id: nat)
    requires Keyed(t)
    ensures Lookup(Remaining(t), id) == Decrement(Lookup(t, id))
    ensures Keyed(Remaining(t)) && NoZero(Remaining(t))
    decreases |t|
  {
    if t != [] {
      RemainingDecrements(t[1..], id);
      RemainingDecrements(t[1..], t[0].spell.id);
      var r := Remaining(t);
      if t[0].data.left - 1 != 0 {
        assert r[1..] == Remaining(t[1..]);
      }
    }
  }

  /** Each listed constant effect acts with its stored value, negated when
      `negate` holds. */
  function ApplyHeld(c: Creature, t: seq<Entry<int>>, negate: bool): Creature
    decreases |t|
  {
    if t == [] then c
    else ApplyHeld(Apply(c, t[0].spell.power, if negate then -t[0].data else t[0].data), t[1..], negate)
  }

  /** `Creature.applyAllEffects`: the ephemeral round, then the pending
      constant effects act and join the applied ones. */
  function ApplyAllEffects(b: Body): Body
  {
    Body(ApplyHeld(Act(b.creature, b.ephemere), b.toApply, false), Remaining(b.ephemere), [], Merge(b.applied, b.toApply))
  }

  /** After a round, every running effect has one round less and is gone if
      that made zero, the pending constant effects are applied ones, a
      pending value replacing an applied one, and the dictionaries stay well
      formed. */
  lemma RoundTables(b: Body, id: nat)
    requires WellFormed(b)
    ensures Lookup(ApplyAllEffects(b).ephemere, id) == Decrement(Lookup(b.ephemere, id))
    ensures Lookup(ApplyAllEffects(b).applied, id)
      == if Lookup(b.toApply, id).Some? then Lookup(b.toApply, id) else Lookup(b.applied, id)
    ensures WellFormed(ApplyAllEffects(b))
  {
    RemainingDecrements(b.ephemere, id);
    MergeLookup(b.applied, b.toApply, id);
  }

  /** How far an additive power moves hit points, strength and stomach. */
  datatype Shift = Shift(hp: int, strength: int, stomach: int)

  function Plus(a: Shift, b: Shift): Shift
  {
    Shift(a.hp + b.hp, a.strength + b.strength, a.stomach + b.stomach)
  }

  function ShiftOf(p: Power, v: int): Shift
  {
    match p
    case Hunger => Shift(0, 0, -v)
    case Poison => Shift(-v, 0, 0)
    case Heal => Shift(v, 0, 0)
    case Feed => Shift(0, 0, 0)
    case GiveStrength => Shift(0, v, 0)
    case GiveHealth => Shift(v, 0, 0)
    case GiveWeakness => Shift(0, -v, 0)
  }

  function Shifted(c: Creature, d: Shift): Creature
  {
    c.(hp := c.hp + d.hp, strength := c.strength + d.strength, stomach := c.stomach + d.stomach)
  }

  /** An additive power moves its counter by its value, whatever the
      creature. */
  lemma ApplyShifts(c: Creature, p: Power, v: int)
    requires Additive(p)
    ensures Apply(c, p, v) == Shifted(c, ShiftOf(p, v))
  {
  }

  /** The table's effects all have additive powers. */
  predicate AllAdditive(t: seq<Entry<int>>)
  {
    forall i | 0 <= i < |t| :: Additive(t[i].spell.power)
  }

  /** The shift of all of a table's effects, each with its stored value,
      negated when `negate` holds. */
  function Total(t: seq<Entry<int>>, negate: bool): Shift
    decreases |t|
  {
    if t == [] then Shift(0, 0, 0)
    else Plus(ShiftOf(t[0].spell.power, if negate then -t[0].data else t[0].data), Total(t[1..], negate))
  }

  /** Applying additive effects one after the other moves each counter by
      their total. */
  lemma {:induction false} HeldShifts(c: Creature, t: seq<Entry<int>>, negate: bool)
    requires AllAdditive(t)
    ensures ApplyHeld(c, t, negate) == Shifted(c, Total(t, negate))
    decreases |t|
  {
    if t != [] {
      var v := if negate then -t[0].data else t[0].data;
      ApplyShifts(c, t[0].spell.power, v);
      HeldShifts(Apply(c, t[0].spell.power, v), t[1..], negate);
    }
  }

  lemma {:induction false} TotalAppend(t: seq<Entry<int>>, e: Entry<int>, negate: bool)
    ensures Total(t + [e], negate) == Plus(Total(t, negate), Total([e], negate))
    decreases |t|
  {
    if t == [] {
      assert t + [e] == [e];
    } else {
      assert (t + [e])[0] == t[0];
      assert (t + [e])[1..] == t[1..] + [e];
      TotalAppend(t[1..], e, negate);
    }
  }

  /** `Creature.removeAllEffects`: the running and pending effects are
      dropped, each applied constant effect acts once more with its value
      negated, and the applied table is emptied. When the applied effects are
      additive, the creature moves back by their total. */
  function RemoveAllEffects(b: Body): (r: Body)
    ensures r.ephemere == [] && r.toApply == [] && r.applied == []
    ensures AllAdditive(b.applied) ==> r.creature == Shifted(b.creature, Total(b.applied, true))
  {
    assert AllAdditive(b.applied) ==> ApplyHeld(b.creature, b.applied, true) == Shifted(b.creature, Total(b.applied, true)) by {
      if AllAdditive(b.applied) {
        HeldShifts(b.creature, b.applied, true);
      }
    }
    Body(ApplyHeld(b.creature, b.applied, true), [], [], [])
  }

  /** Adding a constant additive effect and then removing every effect ends
      where removing every effect without it does: the effect's boost is
      taken back exactly. */
  lemma AddThenRemoveAll(b: Body, s: Spell)
    requires s.kind == Constant && Additive(s.power)
    requires AllAdditive(b.applied) && Lookup(b.applied, s.id).None?
    ensures RemoveAllEffects(AddEffect(b, s)) == RemoveAllEffects(b)
  {
    AddThenRemoveAllCreature(b, s);
  }

  /** The creature half of `AddThenRemoveAll`: the total taken back grows by
      exactly the boost the effect gave. */
  lemma AddThenRemoveAllCreature(b: Body, s: Spell)
    requires s.kind == Constant && Additive(s.power)
    requires AllAdditive(b.applied) && Lookup(b.applied, s.id).None?
    ensures RemoveAllEffects(AddEffect(b, s)).creature == RemoveAllEffects(b).creature
  {
    var a := AddEffect(b, s);
    assert a.applied == b.applied + [Entry(s, s.value)];
    assert a.creature == Apply(b.creature, s.power, s.value);
    assert AllAdditive(a.applied);
    TotalAppend(b.applied, Entry(s, s.value), true);
    assert Total([Entry(s, s.value)], true) == ShiftOf(s.power, -s.value);
    ApplyShifts(b.creature, s.power, s.value);
  }

  /** `n` applications of the same power. */
  function ApplyN(c: Creature, p: Power, v: int, n: nat): Creature
  {
    if n == 0 then c else Apply(ApplyN(c, p, v, n - 1), p, v)
  }

  /** `k` rounds of `applyAllEffects`. */
  function Rounds(b: Body, k: nat): Body
  {
    if k == 0 then b else ApplyAllEffects(Rounds(b, k - 1))
  }

  /** A round on a body whose only running effect is `s`, with nothing
      pending: `s` loses a round, and is gone when that made zero. */
  lemma {:induction false} OneRoundTables(p: Body, s: Spell, left: int)
    requires p.toApply == []
    requires p.ephemere == [Entry(s, Countdown(left, s.value))]
    ensures left - 1 == 0 ==> ApplyAllEffects(p).ephemere == []
    ensures left - 1 != 0 ==> ApplyAllEffects(p).ephemere == [Entry(s, Countdown(left - 1, s.value))]
    ensures ApplyAllEffects(p).toApply == []
  {
    assert p.ephemere[1..] == [];
    assert Remaining(p.ephemere[1..]) == [];
  }

  /** Meanwhile `s` acts once with its stored value. */
  lemma {:induction false} OneRoundActs(p: Body, s: Spell, left: int)
    requires p.toApply == []
    requires p.ephemere == [Entry(s, Countdown(left, s.value))]
    ensures ApplyAllEffects(p).creature == Apply(p.creature, s.power, s.value)
  {
    assert p.ephemere[1..] == [];
    assert Act(Apply(p.creature, s.power, s.value), p.ephemere[1..]) == Apply(p.creature, s.power, s.value);
  }

  /** An ephemeral effect lasting `d` rounds, added to a body with no running
      or pending effect, is still listed after `k` rounds with `d - 1 - k`
      rounds left, unless that reached zero; nothing is pending. A duration
      of at most zero never reaches zero. */
  lemma EphemereCountdown(b: Body, s: Spell, k: nat)
    requires b.ephemere == [] && b.toApply == []
    requires s.kind == Ephemere && s.duration != 1
    requires s.duration <= 0 || k <= s.duration - 1
    ensures s.duration - 1 - k == 0 ==> Rounds(AddEffect(b, s), k).ephemere == []
    ensures s.duration - 1 - k != 0 ==> Rounds(AddEffect(b, s), k).ephemere == [Entry(s, Countdown(s.duration - 1 - k, s.value))]
    ensures Rounds(AddEffect(b, s), k).toApply == []
  {
    var a := AddEffect(b, s);
    assert a.ephemere == [Entry(s, Countdown(s.duration - 1, s.value))] && a.toApply == [];
    CountdownRounds(a, s, s.duration - 1, k);
  }

  /** From a body whose only running effect is `s` with `left` rounds left,
      `k` rounds count it down to `left - k`, deleting it at zero. */
  lemma {:induction false} CountdownRounds(p: Body, s: Spell, left: int, k: nat)
    requires p.toApply == [] && p.ephemere == [Entry(s, Countdown(left, s.value))]
    requires left != 0 && (left < 0 || k <= left)
    ensures Rounds(p, k).toApply == []
    ensures Rounds(p, k).ephemere == if left - k == 0 then [] else [Entry(s, Countdown(left - k, s.value))]
  {
    if k > 0 {
      CountdownRounds(p, s, left, k - 1);
      var q := Rounds(p, k - 1);
      assert left - (k - 1) != 0;
      assert Rounds(p, k) == ApplyAllEffects(q);
      OneRoundTables(q, s, left - (k - 1));
    }
  }

  /** Among any other running, pending and applied effects, an ephemeral
      effect lasting `d >= 2` rounds that is not running yet is listed after
      `k` rounds with `d - 1 - k` rounds left, and is gone after `d - 1`;
      the tables stay well formed. */
  lemma {:induction false} CountdownAmong(b: Body, s: Spell, k: nat)
    requires WellFormed(b) && Lookup(b.ephemere, s.id).None?
    requires s.kind == Ephemere && s.duration >= 2 && k <= s.duration - 1
    ensures WellFormed(Rounds(AddEffect(b, s), k))
    ensures Lookup(Rounds(AddEffect(b, s), k).ephemere, s.id)
      == if k < s.duration - 1 then Some(Countdown(s.duration - 1 - k, s.value)) else None
  {
    AddEffectRecords(b, s, s.id);
    if k > 0 {
      CountdownAmong(b, s, k - 1);
      var p := Rounds(AddEffect(b, s), k - 1);
      assert Rounds(AddEffect(b, s), k) == ApplyAllEffects(p);
      RoundTables(p, s.id);
    }
  }

  /** Meanwhile the effect acts once when added and once per round: after `k`
      rounds it has acted `k + 1` times. */
  lemma {:induction false} EphemereRounds(b: Body, s: Spell, k: nat)
    requires b.ephemere == [] && b.toApply == []
    requires s.kind == Ephemere && s.duration != 1
    requires s.duration <= 0 || k <= s.duration - 1
    ensures Rounds(AddEffect(b, s), k).creature == ApplyN(b.creature, s.power, s.value, k + 1)
  {
    var a := AddEffect(b, s);
    if k > 0 {
      EphemereRounds(b, s, k - 1);
      EphemereCountdown(b, s, k - 1);
      var p := Rounds(a, k - 1);
      var left := s.duration - 1 - (k - 1);
      assert left != 0;
      assert Rounds(a, k) == ApplyAllEffects(p);
      OneRoundActs(p, s, left);
      assert Rounds(a, k).creature == Apply(p.creature, s.power, s.value);
      assert ApplyN(b.creature, s.power, s.value, k + 1) == Apply(ApplyN(b.creature, s.power, s.value, k), s.power, s.value);
    }
  }

  /** An ephemeral effect lasting `d >= 2` rounds acts exactly `d` times: once
      when added and once in each of the next `d - 1` rounds, after which it
      is gone and further rounds leave the creature alone. */
  lemma {:induction false} EphemereActsDurationTimes(b: Body, s: Spell)
    requires b.ephemere == [] && b.toApply == []
    requires s.kind == Ephemere && s.duration >= 2
    ensures var r := Rounds(AddEffect(b, s), s.duration - 1);
      && r.creature == ApplyN(b.creature, s.power, s.value, s.duration)
      && r.ephemere == [] && r.toApply == []
      && ApplyAllEffects(r).creature == r.creature
  {
    EphemereRounds(b, s, s.duration - 1);
    EphemereCountdown(b, s, s.duration - 1);
  }
}
