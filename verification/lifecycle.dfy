/** The effect objects of the terminal game (`Effect`, `EphemereEffect`,
    `HealEffect`, `PoisonEffect`, `FeedEffect`, `ConstantEffect`,
    `StrengthEffect`) and the list `Game.activeEffects` of running effects,
    which the round tick walks to update each one. */
module Lifecycle {
  import opened Wrappers
  import opened Creatures

  datatype EffectKind = Heal | Poison | Feed | Strength

  /** An effect object. Python compares effects by identity; `id` plays that
      role. `duration` is the rounds left (`None` for an unbounded constant
      effect) and `activated` is a constant effect's `hasBeenActivated`. */
  datatype Effect = Effect(id: nat, kind: EffectKind, level: int, duration: Option<int>, activated: bool)

  /** Heal, poison and feed are `EphemereEffect`s; strength is a
      `ConstantEffect`. */
  predicate IsEphemere(e: Effect)
  {
    e.kind != Strength
  }

  /** `self.level * LEVEL_FACTOR`, the factor being 1 for every effect. */
  function Value(e: Effect): int
  {
    e.level * 1
  }

  /** The message an effect writes: one per `action`, one per `desactivate`. */
  datatype Note = Fired(id: nat) | Ended(id: nat)

  /** How many times `n` was logged. */
  function Count(log: seq<Note>, n: Note): nat
  {
    if log == [] then 0 else (if log[0] == n then 1 else 0) + Count(log[1..], n)
  }

  lemma {:induction false} CountAppend(a: seq<Note>, b: seq<Note>, n: Note)
    ensures Count(a + b, n) == Count(a, n) + Count(b, n)
  {
    if a == [] {
      assert a + b == b;
    } else {
      assert (a + b)[0] == a[0];
      assert (a + b)[1..] == a[1..] + b;
      CountAppend(a[1..], b, n);
    }
  }

  /** The creature the effects act on, `activeEffects`, and the messages. */
  datatype Stage = Stage(creature: Creature, active: seq<Effect>, log: seq<Note>)

  /** The effect objects of a list, in order. */
  function Ids(s: seq<Effect>): (ids: seq<nat>)
    ensures |ids| == |s|
    ensures forall i | 0 <= i < |s| :: ids[i] == s[i].id
  {
    if s == [] then [] else [s[0].id] + Ids(s[1..])
  }

  /** The listed entry of effect `id`, the first one in the list. */
  function Find(s: seq<Effect>, id: nat): (r: Option<Effect>)
    ensures r.Some? ==> r.value.id == id
  {
    if s == [] then None else if s[0].id == id then Some(s[0]) else Find(s[1..], id)
  }

  /** No effect object is listed twice: no entry finds its id again further
      down the list. */
  predicate Unique(s: seq<Effect>)
  {
    s == [] || (Find(s[1..], s[0].id).None? && Unique(s[1..]))
  }

  /** An id that is not found is the id of no entry. */
  lemma {:induction false} FindNone(s: seq<Effect>, id: nat, k: nat)
    requires Find(s, id).None? && k < |s|
    ensures s[k].id != id
  {
    if k > 0 {
      assert s[1..][k - 1] == s[k];
      FindNone(s[1..], id, k - 1);
    }
  }

  /** In a list without repeats, the entry found for an id is the one at its
      position. */
  lemma {:induction false} FindUnique(s: seq<Effect>, k: nat)
    requires Unique(s) && k < |s|
    ensures Find(s, s[k].id) == Some(s[k])
  {
    if k > 0 {
      assert s[1..][k - 1] == s[k];
      FindUnique(s[1..], k - 1);
    }
  }

  /** A list without repeats holds distinct ids at distinct positions. */
  lemma {:induction false} UniqueDistinct(s: seq<Effect>, i: nat, j: nat)
    requires Unique(s) && i < j < |s|
    ensures s[i].id != s[j].id
  {
    assert s[1..][j - 1] == s[j];
    if i == 0 {
      FindNone(s[1..], s[0].id, j - 1);
    } else {
      assert s[1..][i - 1] == s[i];
      UniqueDistinct(s[1..], i - 1, j - 1);
    }
  }

  /** The listed entry of `e.id` becomes `e`: the list holds the object
      itself, so a change to the object shows in the list. */
  function Replace(s: seq<Effect>, e: Effect): (r: seq<Effect>)
    ensures |r| == |s|
    ensures Unique(s) ==> Unique(r)
    ensures Find(s, e.id).Some? ==> Find(r, e.id) == Some(e)
    ensures Find(s, e.id).None? ==> Find(r, e.id).None?
    ensures forall id | id != e.id :: Find(r, id) == Find(s, id)
  {
    if s == [] then []
    else if s[0].id == e.id then
      assert ([e] + s[1..])[1..] == s[1..];
      [e] + s[1..]
    else
      var rest := Replace(s[1..], e);
      assert ([s[0]] + rest)[1..] == rest;
      [s[0]] + rest
  }

  /** `activeEffects.remove(self)`: the entry of `id` leaves the list. */
  function Drop(s: seq<Effect>, id: nat): (r: seq<Effect>)
    ensures Find(s, id).Some? ==> |r| == |s| - 1
    ensures Find(s, id).None? ==> r == s
    ensures Unique(s) ==> Unique(r) && Find(r, id) == None
    ensures Unique(s) ==> forall other | other != id :: Find(r, other) == Find(s, other)
  {
    if s == [] then []
    else if s[0].id == id then s[1..]
    else
      var rest := Drop(s[1..], id);
      assert ([s[0]] + rest)[1..] == rest;
      [s[0]] + rest
  }

  /** The `action` of each effect class on its creature: healing up to the
      hit points the creature was created with, poison, feeding up to the
      stomach's size, and a strength boost. */
  function Action(c: Creature, e: Effect): (r: Creature)
    ensures e.kind == Heal ==>
      && r.hp <= c.maxHp && r.hp <= c.hp + Value(e)
      && (r.hp == c.maxHp || r.hp == c.hp + Value(e))
      && r == c.(hp := r.hp)
    ensures e.kind == Poison ==> r == c.(hp := c.hp - Value(e))
    ensures e.kind == Feed ==>
      && r.stomach <= c.stomachSize && r.stomach <= c.stomach + Value(e)
      && (r.stomach == c.stomachSize || r.stomach == c.stomach + Value(e))
      && r == c.(stomach := r.stomach)
    ensures e.kind == Strength ==> r == c.(strength := c.strength + Value(e))
  {
    match e.kind
    case Heal => if c.maxHp > c.hp + Value(e) then c.(hp := c.hp + Value(e)) else c.(hp := c.maxHp)
    case Poison => c.(hp := c.hp - Value(e))
    case Feed => if c.stomachSize >= c.stomach + Value(e) then c.(stomach := c.stomach + Value(e)) else c.(stomach := c.stomachSize)
    case Strength => c.(strength := c.strength + Value(e))
  }

  /** `Effect.action` with the subclass's own action: the creature changes
      and the effect's message is logged. */
  function Fire(st: Stage, e: Effect): (r: Stage)
    ensures r.active == st.active
    ensures r.creature == Action(st.creature, e)
    ensures Count(r.log, Fired(e.id)) == Count(st.log, Fired(e.id)) + 1
    ensures forall n | n != Fired(e.id) :: Count(r.log, n) == Count(st.log, n)
  {
    CountAppend(st.log, [Fired(e.id)], Fired(e.id));
    forall n | n != Fired(e.id)
      ensures Count(st.log + [Fired(e.id)], n) == Count(st.log, n)
    {
      CountAppend(st.log, [Fired(e.id)], n);
    }
    st.(creature := Action(st.creature, e), log := st.log + [Fired(e.id)])
  }

  /** `desactivate`: an ephemeral effect logs its message and leaves the
      list. `StrengthEffect.desactivate` takes its boost back and then fails
      on an undefined name, so the effect stays listed. */
  function Desactivate(st: Stage, e: Effect): (r: Stage)
    ensures IsEphemere(e) ==> r.creature == st.creature && r.log == st.log + [Ended(e.id)]
    ensures IsEphemere(e) && Unique(st.active) ==>
      && Unique(r.active) && Find(r.active, e.id).None?
      && forall other | other != e.id :: Find(r.active, other) == Find(st.active, other)
    ensures !IsEphemere(e) ==>
      && r.active == st.active && r.log == st.log
      && r.creature == st.creature.(strength := st.creature.strength - Value(e))
  {
    if IsEphemere(e) then st.(active := Drop(st.active, e.id), log := st.log + [Ended(e.id)])
    else st.(creature := st.creature.(strength := st.creature.strength - Value(e)))
  }

  /** `EphemereEffect.activate`: the action runs once, the effect is listed
      unless it already is, one round is used up, and an effect with no
      round left is desactivated at once. It returns the stage and the
      effect object afterwards. */
  function Activate(st: Stage, e: Effect): (r: (Stage, Effect))
    requires IsEphemere(e) && e.duration.Some?
    requires Unique(st.active)
    ensures r.1 == e.(duration := Some(e.duration.value - 1))
    ensures Unique(r.0.active)
    ensures |r.0.active| <= |st.active| + 1
    ensures Find(st.active, e.id).Some? ==> |r.0.active| <= |st.active|
    ensures r.0.creature == Action(st.creature, e)
    ensures r.0.log == st.log + [Fired(e.id)] + (if r.1.duration.value <= 0 then [Ended(e.id)] else [])
    ensures Find(r.0.active, e.id) == (if r.1.duration.value <= 0 then None else Some(r.1))
    ensures forall id | id != e.id :: Find(r.0.active, id) == Find(st.active, id)
  {
    var fired := Fire(st, e);
    var listed := if Find(st.active, e.id).Some? then st.active else AppendFresh(st.active, e);
    var e1 := e.(duration := Some(e.duration.value - 1));
    var live := Replace(listed, e1);
    if e1.duration.value <= 0 then (Desactivate(fired.(active := live), e1), e1)
    else (fired.(active := live), e1)
  }

  /** Appending an effect that is not listed yet. */
  function AppendFresh(s: seq<Effect>, e: Effect): (r: seq<Effect>)
    requires Unique(s) && Find(s, e.id).None?
    ensures r == s + [e]
    ensures Unique(r) && Find(r, e.id) == Some(e)
    ensures forall id | id != e.id :: Find(r, id) == Find(s, id)
  {
    FindAppend(s, e);
    s + [e]
  }

  /** Appending an entry whose id is not found yet: it is found at the end,
      nothing else is found differently, and no id is repeated. */
  lemma {:induction false} FindAppend(s: seq<Effect>, e: Effect)
    requires Find(s, e.id).None?
    ensures Find(s + [e], e.id) == Some(e)
    ensures forall id | id != e.id :: Find(s + [e], id) == Find(s, id)
    ensures Unique(s) ==> Unique(s + [e])
  {
    if s == [] {
      assert [e][1..] == [];
    } else {
      assert (s + [e])[1..] == s[1..] + [e];
      FindAppend(s[1..], e);
    }
  }

  /** `Effect.update` on the listed effect `id`: its action runs, a bounded
      effect uses up one round, and one with no round left is
      desactivated. */
  function Update(st: Stage, id: nat): (r: Stage)
    requires Unique(st.active) && Find(st.active, id).Some?
    ensures Unique(r.active) && |r.active| <= |st.active|
    ensures var e := Find(st.active, id).value;
      && r.creature == (if !IsEphemere(e) && Expires(e)
                        then Action(st.creature, e).(strength := Action(st.creature, e).strength - Value(e))
                        else Action(st.creature, e))
      && r.log == st.log + [Fired(id)] + (if Expires(e) && IsEphemere(e) then [Ended(id)] else [])
      && Find(r.active, id) == AfterUpdate(e)
    ensures forall other | other != id :: Find(r.active, other) == Find(st.active, other)
  {
    var e := Find(st.active, id).value;
    var fired := Fire(st, e);
    if e.duration.None? then fired
    else
      var e1 := e.(duration := Some(e.duration.value - 1));
      var live := fired.(active := Replace(st.active, e1));
      if e1.duration.value <= 0 then Desactivate(live, e1) else live
  }

  /** An update logs exactly one firing, of the updated effect. */
  lemma {:induction false} UpdateFires(st: Stage, id: nat, x: nat)
    requires Unique(st.active) && Find(st.active, id).Some?
    ensures Count(Update(st, id).log, Fired(x)) == Count(st.log, Fired(x)) + (if x == id then 1 else 0)
  {
    var e := Find(st.active, id).value;
    var tail := [Fired(id)] + (if Expires(e) && IsEphemere(e) then [Ended(id)] else []);
    assert Update(st, id).log == st.log + tail;
    CountAppend(st.log, tail, Fired(x));
    CountAppend([Fired(id)], if Expires(e) && IsEphemere(e) then [Ended(id)] else [], Fired(x));
  }

  /** The update leaves no round to a bounded effect. */
  predicate Expires(e: Effect)
  {
    e.duration.Some? && e.duration.value - 1 <= 0
  }

  /** The listed entry after one update: one round less, or gone when an
      ephemeral effect expires. */
  function AfterUpdate(e: Effect): Option<Effect>
  {
    if e.duration.None? then Some(e)
    else if Expires(e) && IsEphemere(e) then None
    else Some(e.(duration := Some(e.duration.value - 1)))
  }

  /** `ConstantEffect.activate`: the first call runs the action and lists the
      effect, already flagged as activated; later calls do nothing. */
  function ActivateConstant(st: Stage, e: Effect): (r: (Stage, Effect))
    requires e.kind == Strength && Unique(st.active)
    ensures r.1 == e.(activated := true)
    ensures Unique(r.0.active)
    ensures e.activated ==> r.0 == st
    ensures !e.activated ==>
      && r.0.creature == st.creature.(strength := st.creature.strength + Value(e))
      && r.0.log == st.log + [Fired(e.id)]
      && Find(r.0.active, e.id) == Some(r.1)
      && forall id | id != e.id :: Find(r.0.active, id) == Find(st.active, id)
  {
    if e.activated then (st, e)
    else
      var fired := Fire(st, e);
      var e1 := e.(activated := true);
      var listed := if Find(st.active, e.id).Some? then Replace(st.active, e1) else AppendFresh(st.active, e1);
      (fired.(active := listed), e1)
  }

  /** Activating a strength effect twice raises strength once, and
      desactivating it takes exactly that boost back. */
  lemma {:induction false} StrengthOnce(st: Stage, e: Effect)
    requires e.kind == Strength && !e.activated && Unique(st.active)
    ensures var (s1, e1) := ActivateConstant(st, e);
      var (s2, _) := ActivateConstant(s1, e1);
      && s2.creature.strength == st.creature.strength + Value(e)
      && Count(s2.log, Fired(e.id)) == Count(st.log, Fired(e.id)) + 1
      && Desactivate(s2, e1).creature.strength == st.creature.strength
  {
    CountAppend(st.log, [Fired(e.id)], Fired(e.id));
  }

  /** An effect object is updated by the tick when it is ephemeral or a
      constant effect not yet activated. */
  predicate Eligible(e: Effect)
  {
    IsEphemere(e) || !e.activated
  }

  /** The `for effect in self.activeEffects` loop of `Game.play` as written:
      Python's list iterator walks positions of the live list, so when an
      update removes the current effect, the next one slides into the
      position just visited and is skipped this round. */
  function TickAsWritten(st: Stage, i: nat): (r: Stage)
    requires Unique(st.active)
    ensures Unique(r.active)
    decreases |st.active| - i
  {
    if i >= |st.active| then st
    else
      var e := st.active[i];
      FindUnique(st.active, i);
      if Eligible(e) then TickAsWritten(Update(st, e.id), i + 1) else TickAsWritten(st, i + 1)
  }

  /** The round tick as evidently intended: every effect listed when the
      round starts is visited once. */
  function Tick(st: Stage): (r: Stage)
    requires Unique(st.active)
    ensures Unique(r.active)
  {
    TickIds(st, Ids(st.active))
  }

  /** Visit the effects `todo`, in order, updating each eligible one that is
      still listed. */
  function TickIds(st: Stage, todo: seq<nat>): (r: Stage)
    requires Unique(st.active)
    ensures Unique(r.active)
    decreases |todo|
  {
    if todo == [] then st
    else
      var next := match Find(st.active, todo[0])
        case Some(e) => if Eligible(e) then Update(st, todo[0]) else st
        case None => st;
      TickIds(next, todo[1..])
  }

  /** Whether visiting `todo` updates effect `id` of `st`. */
  predicate Due(st: Stage, todo: seq<nat>, id: nat)
  {
    id in todo && Find(st.active, id).Some? && Eligible(Find(st.active, id).value)
  }

  /** Visiting distinct effects fires each eligible listed one exactly once
      and leaves its entry as one update leaves it; every other entry is
      kept. */
  lemma {:induction false} TickIdsOnce(st: Stage, todo: seq<nat>, id: nat)
    requires Unique(st.active)
    requires forall i, j | 0 <= i < j < |todo| :: todo[i] != todo[j]
    ensures Count(TickIds(st, todo).log, Fired(id)) == Count(st.log, Fired(id)) + (if Due(st, todo, id) then 1 else 0)
    ensures Find(TickIds(st, todo).active, id) == (if Due(st, todo, id) then AfterUpdate(Find(st.active, id).value) else Find(st.active, id))
    decreases |todo|
  {
    if todo != [] {
      var next := match Find(st.active, todo[0])
        case Some(e) => if Eligible(e) then Update(st, todo[0]) else st
        case None => st;
      assert TickIds(st, todo) == TickIds(next, todo[1..]);
      if next != st {
        UpdateFires(st, todo[0], id);
      }
      TickIdsOnce(next, todo[1..], id);
      if id == todo[0] {
        assert id !in todo[1..];
      } else {
        assert Find(next.active, id) == Find(st.active, id);
        assert Count(next.log, Fired(id)) == Count(st.log, Fired(id));
        assert id in todo <==> id in todo[1..];
      }
    }
  }

  /** In a corrected round every eligible listed effect fires exactly once. */
  lemma {:induction false} TickFiresEachOnce(st: Stage, e: Effect)
    requires Unique(st.active) && e in st.active && Eligible(e)
    ensures Count(Tick(st).log, Fired(e.id)) == Count(st.log, Fired(e.id)) + 1
    ensures Find(Tick(st).active, e.id) == AfterUpdate(e)
  {
    var ids := Ids(st.active);
    forall i, j | 0 <= i < j < |ids| ensures ids[i] != ids[j] {
      UniqueDistinct(st.active, i, j);
    }
    var k :| 0 <= k < |st.active| && st.active[k] == e;
    assert ids[k] == e.id;
    FindUnique(st.active, k);
    TickIdsOnce(st, ids, e.id);
  }

  /** The list-mutation skip: two poison effects in their last round. The
      written loop fires only the first, as the second slides into the
      visited position when the first is removed; the corrected round fires
      both. */
  lemma {:induction false} TickAsWrittenSkips(c: Creature)
    ensures var first := Effect(1, Poison, 1, Some(1), false);
      var second := Effect(2, Poison, 1, Some(1), false);
      var st := Stage(c, [first, second], []);
      && Unique(st.active)
      && Fired(2) !in TickAsWritten(st, 0).log
      && Count(Tick(st).log, Fired(2)) == 1
  {
    var first := Effect(1, Poison, 1, Some(1), false);
    var second := Effect(2, Poison, 1, Some(1), false);
    var st := Stage(c, [first, second], []);
    assert st.active[1..] == [second] && [second][1..] == [];
    assert Find([second], 1) == None && Unique([second]);
    assert Unique(st.active);
    assert Find(st.active, 1) == Some(first);
    var s1 := Update(st, 1);
    assert Find(s1.active, 1) == None;
    assert Find(s1.active, 2) == Some(second);
    assert |s1.active| == 1 by {
      assert s1.active == Drop(Replace(st.active, first.(duration := Some(0))), 1);
    }
    assert s1.log == [Fired(1), Ended(1)];
    assert TickAsWritten(st, 0) == TickAsWritten(s1, 1);
    assert TickAsWritten(s1, 1) == s1;
    TickFiresEachOnce(st, second);
  }

  /** `n` updates of effect `id`, stopping once it is no longer listed. */
  function Updates(st: Stage, id: nat, n: nat): (r: Stage)
    requires Unique(st.active)
    ensures Unique(r.active)
  {
    if n == 0 then st
    else
      var s := Updates(st, id, n - 1);
      if Find(s.active, id).Some? then Update(s, id) else s
  }

  /** One update of a listed ephemeral effect fires it once and uses up one
      of its rounds, unlisting it when none is left. */
  lemma {:induction false} UpdateCountsDown(s: Stage, y: Effect)
    requires Unique(s.active) && Find(s.active, y.id) == Some(y)
    requires IsEphemere(y) && y.duration.Some? && y.duration.value >= 1
    ensures Count(Update(s, y.id).log, Fired(y.id)) == Count(s.log, Fired(y.id)) + 1
    ensures Find(Update(s, y.id).active, y.id)
      == (if y.duration.value > 1 then Some(y.(duration := Some(y.duration.value - 1))) else None)
  {
    UpdateFires(s, y.id, y.id);
  }

  /** A listed ephemeral effect with `m >= 1` rounds left fires once per
      update: after `k <= m` updates it has fired `k` more times, and it is
      listed, with `m - k` rounds left, exactly while `k < m`. */
  lemma {:induction false} UpdatesCountdown(s0: Stage, x: Effect, m: int, k: nat)
    requires Unique(s0.active) && Find(s0.active, x.id) == Some(x)
    requires IsEphemere(x) && x.duration == Some(m) && 1 <= m && k <= m
    ensures Count(Updates(s0, x.id, k).log, Fired(x.id)) == Count(s0.log, Fired(x.id)) + k
    ensures Find(Updates(s0, x.id, k).active, x.id) == (if k < m then Some(x.(duration := Some(m - k))) else None)
  {
    if k > 0 {
      UpdatesCountdown(s0, x, m, k - 1);
      var s := Updates(s0, x.id, k - 1);
      var y := x.(duration := Some(m - (k - 1)));
      assert Find(s.active, x.id) == Some(y);
      assert Updates(s0, x.id, k) == Update(s, y.id);
      UpdateCountsDown(s, y);
      assert y.(duration := Some(m - k)) == x.(duration := Some(m - k));
    } else {
      assert Updates(s0, x.id, k) == s0;
      assert x.(duration := Some(m)) == x;
    }
  }

  /** An ephemeral effect lasting `d >= 1` rounds runs its action once on
      activation and once per update, so after `d - 1` updates it has fired
      `d` times and is off the list. */
  lemma {:induction false} EphemereRunsDurationTimes(st: Stage, e: Effect)
    requires IsEphemere(e) && e.duration.Some? && e.duration.value >= 1
    requires Unique(st.active) && Find(st.active, e.id).None?
    ensures var s := Updates(Activate(st, e).0, e.id, e.duration.value - 1);
      && Count(s.log, Fired(e.id)) == Count(st.log, Fired(e.id)) + e.duration.value
      && Find(s.active, e.id) == None
  {
    var (s0, e1) := Activate(st, e);
    var d := e.duration.value;
    var tail := if d - 1 <= 0 then [Ended(e.id)] else [];
    assert s0.log == st.log + ([Fired(e.id)] + tail);
    CountAppend(st.log, [Fired(e.id)] + tail, Fired(e.id));
    CountAppend([Fired(e.id)], tail, Fired(e.id));
    assert Count(s0.log, Fired(e.id)) == Count(st.log, Fired(e.id)) + 1;
    if d == 1 {
      assert Updates(s0, e.id, 0) == s0;
    } else {
      assert Find(s0.active, e.id) == Some(e1);
      UpdatesCountdown(s0, e1, d - 1, d - 1);
    }
  }
}
