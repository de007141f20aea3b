/** The game around the floors (`Game`, `RoomObject`): the list of floors and
    the current one, the stairs between them, the hero's own record of where
    it stands, the message log, the hunger of each round, and the effect round
    of every monster on the floor. */
module Session {
  import opened Wrappers
  import opened Geometry
  import opened Floors
  import opened Steering
  import opened Creatures
  import opened Heroes
  import Powers

  // ---------------------------------------------------------------------
  // Messages

  /** `msg.split('\n')`: the pieces between the line breaks, at least one. */
  function Split(msg: string): (r: seq<string>)
    ensures |r| >= 1
    ensures forall i | 0 <= i < |r| :: '\n' !in r[i]
  {
    if msg == [] then [""]
    else
      var rest := Split(msg[1..]);
      if msg[0] == '\n' then [""] + rest
      else [[msg[0]] + rest[0]] + rest[1..]
  }

  /** `'\n'.join(lines)`. */
  function Join(lines: seq<string>): string
    requires |lines| >= 1
  {
    if |lines| == 1 then lines[0] else lines[0] + "\n" + Join(lines[1..])
  }

  /** Joining the pieces of a split gives the message back. */
  lemma {:induction false} JoinSplit(msg: string)
    ensures Join(Split(msg)) == msg
  {
    if msg != [] {
      JoinSplit(msg[1..]);
      var rest := Split(msg[1..]);
      if msg[0] == '\n' {
        assert Split(msg)[1..] == rest;
      } else {
        var r := Split(msg);
        assert r[1..] == rest[1..];
        if |rest| == 1 {
          assert Join(r) == [msg[0]] + rest[0];
        } else {
          assert Join(r) == [msg[0]] + rest[0] + "\n" + Join(rest[1..]);
        }
      }
    }
  }

  /** Splitting a join of lines without line breaks gives the lines back. */
  lemma {:induction false} SplitJoin(lines: seq<string>)
    requires |lines| >= 1
    requires forall i | 0 <= i < |lines| :: '\n' !in lines[i]
    ensures Split(Join(lines)) == lines
    decreases |lines|
  {
    var first := lines[0];
    if |lines| == 1 {
      SplitPrefix(first, "");
      assert first + "" == first;
    } else {
      var rest := lines[1..];
      assert forall i | 0 <= i < |rest| :: '\n' !in rest[i] by {
        forall i | 0 <= i < |rest|
          ensures '\n' !in rest[i]
        {
          assert rest[i] == lines[i + 1];
        }
      }
      SplitJoin(rest);
      var tail := "\n" + Join(rest);
      assert tail[0] == '\n' && tail[1..] == Join(rest);
      assert Split(tail) == [""] + rest;
      SplitPrefix(first, tail);
      assert first + "" == first;
      assert Join(lines) == first + tail;
      assert lines == [first] + rest;
    }
  }

  /** A line without line breaks in front of a message extends the
      message's first piece. */
  lemma {:induction false} SplitPrefix(line: string, msg: string)
    requires '\n' !in line
    ensures Split(line + msg) == [line + Split(msg)[0]] + Split(msg)[1..]
  {
    if line != [] {
      assert '\n' !in line[1..];
      SplitPrefix(line[1..], msg);
      var whole := line + msg;
      assert whole[0] == line[0] && whole[1..] == line[1..] + msg;
      assert [line[0]] + (line[1..] + Split(msg)[0]) == line + Split(msg)[0];
    } else {
      var r := Split(msg);
      assert line + msg == msg && line + r[0] == r[0];
      assert [r[0]] + r[1..] == r;
    }
  }

  /** A line without line breaks splits into itself. */
  lemma SplitLine(line: string)
    requires '\n' !in line
    ensures Split(line) == [line]
  {
    SplitPrefix(line, "");
    assert line + "" == line;
  }

  /** `Game.addMessage`: a message with line breaks is logged line by line,
      any other message as one line. The old log is kept in front, the new
      lines join back into the message, and none holds a line break. */
  function AddMessage(log: seq<string>, msg: string): (r: seq<string>)
    ensures |r| > |log| && r[..|log|] == log
    ensures Join(r[|log|..]) == msg
    ensures forall i | |log| <= i < |r| :: '\n' !in r[i]
    ensures '\n' !in msg ==> r == log + [msg]
  {
    JoinSplit(msg);
    if '\n' in msg then
      var r := log + Split(msg);
      assert r[|log|..] == Split(msg);
      r
    else
      SplitLine(msg);
      log + [msg]
  }

  /** `str(n)` for a natural number. */
  function Decimal(n: nat): (r: string)
    ensures |r| >= 1 && '\n' !in r
  {
    var digit := "0123456789"[n % 10];
    if n < 10 then [digit] else Decimal(n / 10) + [digit]
  }

  /** The message announcing the floor reached, counting floors from one. */
  function StageMessage(stage: nat, count: nat): (r: string)
    ensures '\n' !in r
  {
    "You are now in stage " + Decimal(stage) + "/" + Decimal(count)
  }

  /** `addMessage` logs a stage announcement as exactly one line. */
  lemma StageIsOneLine(log: seq<string>, stage: nat, count: nat)
    ensures AddMessage(log, StageMessage(stage, count)) == log + [StageMessage(stage, count)]
  {
  }

  // ---------------------------------------------------------------------
  // Hunger

  /** Every twentieth round the hero's stomach, when not empty, loses a
      point. */
  const HungerPeriod := 20

  /** The hunger step of round `round` (the round counter already advanced):
      on a multiple of twenty a non-empty stomach loses a point, then
      `verifyStomach` takes a hit point for an empty one. */
  function Hunger(round: nat, h: Creature): (r: Creature)
    ensures r == h.(stomach := r.stomach, hp := r.hp)
    ensures h.hp - 1 <= r.hp <= h.hp && h.stomach - 1 <= r.stomach <= h.stomach
    ensures r.stomach == if round % HungerPeriod == 0 && h.stomach > 0 then h.stomach - 1 else h.stomach
    ensures r.hp == if r.stomach == 0 then h.hp - 1 else h.hp
  {
    var fed := if round % HungerPeriod == 0 && h.stomach > 0 then h.(stomach := h.stomach - 1) else h;
    VerifyStomach(fed)
  }

  /** The hunger steps of the `k` rounds after round `n`. */
  function Starve(n: nat, h: Creature, k: nat): Creature
  {
    if k == 0 then h else Hunger(n + k, Starve(n, h, k - 1))
  }

  /** The multiples of twenty in the rounds `n + 1` to `n + k`. */
  function Meals(n: nat, k: nat): int
  {
    (n + k) / HungerPeriod - n / HungerPeriod
  }

  /** Round `m` adds a multiple of twenty exactly when it is one. */
  lemma MealStep(m: nat)
    requires m >= 1
    ensures m / HungerPeriod - (m - 1) / HungerPeriod == if m % HungerPeriod == 0 then 1 else 0
  {
    var q := m / HungerPeriod;
    var rem := m % HungerPeriod;
    assert m == HungerPeriod * q + rem;
    if rem == 0 {
      assert m - 1 == HungerPeriod * (q - 1) + 19;
    } else {
      assert m - 1 == HungerPeriod * q + (rem - 1);
    }
  }

  /** Over `k` rounds from round `n`, a stomach that is not negative loses one
      point per multiple of twenty until it is empty, and nothing but the
      stomach and the hit points changes. Hit points never rise, fall by at
      most a point a round, stay put while the stomach never empties, and fall
      every round when it starts empty. */
  lemma {:induction false} HungerOverRounds(n: nat, h: Creature, k: nat)
    requires h.stomach >= 0
    ensures Starve(n, h, k) == h.(stomach := Starve(n, h, k).stomach, hp := Starve(n, h, k).hp)
    ensures Starve(n, h, k).stomach == if h.stomach > Meals(n, k) then h.stomach - Meals(n, k) else 0
    ensures h.hp - k <= Starve(n, h, k).hp <= h.hp
    ensures h.stomach > Meals(n, k) ==> Starve(n, h, k).hp == h.hp
    ensures h.stomach == 0 ==> Starve(n, h, k).hp == h.hp - k
  {
    if k > 0 {
      HungerOverRounds(n, h, k - 1);
      MealStep(n + k);
      assert Meals(n, k) == Meals(n, k - 1) + (if (n + k) % HungerPeriod == 0 then 1 else 0);
    }
  }

  // ---------------------------------------------------------------------
  // Floors and stairs

  /** The `k`-th offset `Coord.getEmptyCoordAround` tries: the x offset in
      the outer loop, the y offset in the inner one, as in `Ways`. */
  function Way(k: nat): Coord
  {
    Coord(k / 3 - 1, k % 3 - 1)
  }

  /** Every offset by at most one on each axis has its place in the scan. */
  function WayOf(dx: int, dy: int): (k: nat)
    requires -1 <= dx <= 1 && -1 <= dy <= 1
    ensures k < 9 && Way(k) == Coord(dx, dy)
  {
    if dx == -1 then dy + 1 else if dx == 0 then 3 + dy + 1 else 6 + dy + 1
  }

  /** The cells `Coord.getEmptyCoordAround` offers around `c`, from position
      `k` of the scan order on: the neighbours (and `c` itself) that are on
      the grid and plain ground. */
  function OpenFrom(f: Floor, c: Coord, k: nat): seq<Coord>
    requires k <= 9
    decreases 9 - k
  {
    if k == 9 then []
    else (if Open(f, c, Way(k)) then [Add(c, Way(k))] else []) + OpenFrom(f, c, k + 1)
  }

  /** Every cell offered is a ground cell of the grid next to `c`. */
  lemma {:induction false} OpenFromSound(f: Floor, c: Coord, k: nat, d: Coord)
    requires k <= 9 && d in OpenFrom(f, c, k)
    ensures InGrid(f.size, d) && At(f, d) == Ground && Abs(d.x - c.x) <= 1 && Abs(d.y - c.y) <= 1
    decreases 9 - k
  {
    if d !in OpenFrom(f, c, k + 1) {
      assert d == Add(c, Way(k));
    } else {
      OpenFromSound(f, c, k + 1, d);
    }
  }

  /** Every open offset from position `k` on is offered. */
  lemma {:induction false} OpenFromComplete(f: Floor, c: Coord, k: nat, j: nat)
    requires k <= j < 9 && Open(f, c, Way(j))
    ensures Add(c, Way(j)) in OpenFrom(f, c, k)
    decreases 9 - k
  {
    if k < j {
      OpenFromComplete(f, c, k + 1, j);
    }
  }

  /** A cell is offered by the whole scan exactly when it is a ground cell of
      the grid next to `c`. */
  lemma OfferedIff(f: Floor, c: Coord, d: Coord)
    ensures d in OpenFrom(f, c, 0) <==> InGrid(f.size, d) && At(f, d) == Ground && Abs(d.x - c.x) <= 1 && Abs(d.y - c.y) <= 1
  {
    if d in OpenFrom(f, c, 0) {
      OpenFromSound(f, c, 0, d);
    } else if InGrid(f.size, d) && At(f, d) == Ground && Abs(d.x - c.x) <= 1 && Abs(d.y - c.y) <= 1 {
      var j := WayOf(d.x - c.x, d.y - c.y);
      assert Add(c, Way(j)) == d;
      OpenFromComplete(f, c, 0, j);
    }
  }

  /** `Coord.getEmptyCoordAround`: the ground cells next to `c` (or `c`
      itself), in scan order; exactly those. */
  function EmptyAround(f: Floor, c: Coord): (r: seq<Coord>)
    ensures forall d :: d in r <==> InGrid(f.size, d) && At(f, d) == Ground && Abs(d.x - c.x) <= 1 && Abs(d.y - c.y) <= 1
  {
    var r := OpenFrom(f, c, 0);
    forall d
      ensures d in r <==> InGrid(f.size, d) && At(f, d) == Ground && Abs(d.x - c.x) <= 1 && Abs(d.y - c.y) <= 1
    {
      OfferedIff(f, c, d);
    }
    r
  }

  /** The game: the floors and the current one, the hero element and its own
      record `hero.x`, `hero.y` of where it stands, the two stair objects
      (the same objects on every floor) and the message log. */
  datatype Game = Game(
    floors: seq<Floor>,
    actual: int,
    hero: Elem,
    heroAt: Coord,
    upstair: Elem,
    downstair: Elem,
    messages: seq<string>)

  /** The game's standing invariant: the current floor exists, every floor is
      consistent and knows the hero, and the hero is placed on the current
      floor and on no other, where its own record says. */
  ghost predicate Placed(g: Game)
  {
    && 0 <= g.actual < |g.floors|
    && (forall i | 0 <= i < |g.floors| :: Consistent(g.floors[i]))
    && (forall i | 0 <= i < |g.floors| :: g.hero in g.floors[i].index <==> i == g.actual)
    && g.floors[g.actual].index[g.hero] == g.heroAt
    && (forall i | 0 <= i < |g.floors| :: g.floors[i].hero == g.hero)
  }

  /** What can go wrong taking the stairs: a map operation raising (the hero
      not placed makes `rm` raise on `None`), the arrival stair missing from
      the next floor, or no free cell around it (`random.choice` of an empty
      list). */
  datatype StairError = MapFailure(error: MapError) | NoStair | NoRoom

  /** The game after a move, and whether the hero changed floors (the value
      the stair usage returns). */
  datatype Outcome = Outcome(game: Game, changed: bool)

  /** The floor a stair leads to: one up for `monterEtage`, one down for
      `descendreEtage`. */
  function Target(g: Game, up: bool): int
  {
    if up then g.actual + 1 else g.actual - 1
  }

  /** The departure half of a floor change: `rm(pos(hero))` on the current
      floor. */
  function Leave(f: Floor, hero: Elem): (r: Result<Floor, StairError>)
    ensures Consistent(f) ==> (r.Success? <==> hero in f.index)
    ensures r.Success? ==> SameLayout(f, r.value)
    ensures r.Success? && Consistent(f) ==>
      && hero !in r.value.index
      && IndexAgreesOutside(f, r.value, hero)
      && Consistent(r.value)
  {
    match PosOpt(f, hero)
    case None => Failure(MapFailure(NotPlaced))
    case Some(at) =>
      match Rm(f, at)
      case Failure(e) => Failure(MapFailure(e))
      case Success(left) =>
        assert Consistent(f) ==> At(f, at) == Holds(hero);
        Success(left)
  }

  /** The arrival half: the hero is put on the `pick`-th free cell (modulo
      their number) around `stair`. It fails when the stair is not on this
      floor, when no cell around it is free, and when the hero is already
      placed here. */
  function Arrive(f: Floor, stair: Elem, hero: Elem, pick: nat): (r: Result<(Floor, Coord), StairError>)
    ensures r.Success? <==> stair in f.index && EmptyAround(f, f.index[stair]) != [] && hero !in f.index
    ensures r.Failure? ==> r.error == (if stair !in f.index then NoStair
      else if EmptyAround(f, f.index[stair]) == [] then NoRoom else MapFailure(AlreadyPlaced))
    ensures r.Success? ==>
      var (g, dest) := r.value;
      && Abs(dest.x - f.index[stair].x) <= 1 && Abs(dest.y - f.index[stair].y) <= 1
      && hero in g.index && g.index[hero] == dest
      && IndexAgreesOutside(f, g, hero)
      && SameLayout(f, g)
      && (Consistent(f) ==> Consistent(g))
  {
    match PosOpt(f, stair)
    case None => Failure(NoStair)
    case Some(sc) =>
      var around := EmptyAround(f, sc);
      if around == [] then Failure(NoRoom)
      else
        var dest := around[pick % |around|];
        assert dest in around;
        match Put(f, dest, hero)
        case Failure(e) => Failure(MapFailure(e))
        case Success(placed) => Success((placed, dest))
  }

  /** `RoomObject.monterEtage` (`up`) and `RoomObject.descendreEtage`: when
      the next floor exists, the hero leaves the current floor, the next
      floor becomes current, the stage is announced, and the hero is put on a
      free cell around the arrival stair (the downward stair when climbing,
      the upward one when descending), the `pick`-th of them modulo their
      number standing for the random choice; the hero's record follows.
      Otherwise nothing changes and the usage answers False. The announcement
      has no line break, so `addMessage` logs it as one line
      (`StageIsOneLine`). */
  function ChangeFloor(g: Game, up: bool, pick: nat): (r: Result<Outcome, StairError>)
    requires 0 <= g.actual < |g.floors|
    ensures !(0 <= Target(g, up) < |g.floors|) ==> r == Success(Outcome(g, false))
    ensures r.Success? ==> r.value.changed <==> 0 <= Target(g, up) < |g.floors|
    ensures r.Success? ==> 0 <= r.value.game.actual < |r.value.game.floors| == |g.floors|
    ensures r.Success? && r.value.changed ==>
      var h := r.value.game;
      && h.actual == Target(g, up)
      && h.hero == g.hero && h.upstair == g.upstair && h.downstair == g.downstair
      && (forall i | 0 <= i < |g.floors| && i != g.actual && i != h.actual :: h.floors[i] == g.floors[i])
  {
    var target := Target(g, up);
    if !(0 <= target < |g.floors|) then Success(Outcome(g, false))
    else
      var stair := if up then g.downstair else g.upstair;
      match Leave(g.floors[g.actual], g.hero)
      case Failure(e) => Failure(e)
      case Success(left) =>
        match Arrive(g.floors[target], stair, g.hero, pick)
        case Failure(e) => Failure(e)
        case Success(arrival) =>
          Success(Outcome(g.(floors := g.floors[g.actual := left][target := arrival.0], actual := target,
                             heroAt := arrival.1, messages := g.messages + [StageMessage(target + 1, |g.floors|)]), true))
  }

  /** A floor change that happens announces the stage reached, counting
      floors from one, as one more line of the log. */
  lemma ChangeFloorAnnounces(g: Game, up: bool, pick: nat)
    requires 0 <= g.actual < |g.floors|
    ensures var r := ChangeFloor(g, up, pick);
      r.Success? && r.value.changed ==> r.value.game.messages == g.messages + [StageMessage(Target(g, up) + 1, |g.floors|)]
  {
  }

  /** A game that differs from one in order only on the floor `left` the hero
      was on and the current floor, each consistent, knowing the hero, and holding the hero
      exactly when current, where its record says, is in order too. */
  lemma PlacedAfter(g: Game, h: Game, left: int)
    requires Placed(g)
    requires |h.floors| == |g.floors| && h.hero == g.hero
    requires 0 <= left < |g.floors| && 0 <= h.actual < |g.floors|
    requires forall k | 0 <= k < |g.floors| && k != left && k != h.actual :: h.floors[k] == g.floors[k]
    requires left == g.actual
    requires Consistent(h.floors[left]) && h.floors[left].hero == g.hero
    requires Consistent(h.floors[h.actual]) && h.floors[h.actual].hero == g.hero
    requires left != h.actual ==> g.hero !in h.floors[left].index
    requires g.hero in h.floors[h.actual].index && h.floors[h.actual].index[g.hero] == h.heroAt
    ensures Placed(h)
  {
    forall i | 0 <= i < |h.floors|
      ensures Consistent(h.floors[i]) && h.floors[i].hero == g.hero
      ensures g.hero in h.floors[i].index <==> i == h.actual
    {
      if i != left && i != h.actual {
        assert h.floors[i] == g.floors[i];
      }
    }
  }

  /** From a game in order, a floor change keeps it in order, and it fails
      exactly when the next floor exists but its arrival stair is missing or
      has no free cell around it. */
  lemma ChangeFloorKeepsPlaced(g: Game, up: bool, pick: nat)
    requires Placed(g)
    ensures var r := ChangeFloor(g, up, pick);
      && (r.Success? ==> Placed(r.value.game))
      && (0 <= Target(g, up) < |g.floors| ==>
            var next := g.floors[Target(g, up)];
            var stair := if up then g.downstair else g.upstair;
            && (r.Success? <==> stair in next.index && EmptyAround(next, next.index[stair]) != [])
            && (r.Failure? ==> r.error == (if stair in next.index then NoRoom else NoStair)))
  {
    var target := Target(g, up);
    if 0 <= target < |g.floors| {
      var left := Leave(g.floors[g.actual], g.hero);
      assert left.Success?;
      var stair := if up then g.downstair else g.upstair;
      var arrival := Arrive(g.floors[target], stair, g.hero, pick);
      var r := ChangeFloor(g, up, pick);
      if arrival.Success? {
        var h := r.value.game;
        assert h.floors == g.floors[g.actual := left.value][target := arrival.value.0];
        PlacedAfter(g, h, g.actual);
      }
    }
  }

  /** Climbing and then coming back down returns to the floor climbed from,
      the hero placed there again and gone from the floor above. */
  lemma ClimbThenDescend(g: Game, pick: nat, back: nat)
    requires Placed(g)
    ensures var up := ChangeFloor(g, true, pick);
      up.Success? && up.value.changed ==>
      var h := up.value.game;
      var r := ChangeFloor(h, false, back);
      r.Success? ==>
        && r.value.changed && r.value.game.actual == g.actual
        && g.hero in r.value.game.floors[g.actual].index
        && g.hero !in r.value.game.floors[g.actual + 1].index
  {
    var up := ChangeFloor(g, true, pick);
    if up.Success? && up.value.changed {
      ChangeFloorKeepsPlaced(g, true, pick);
      var h := up.value.game;
      assert Placed(h) && h.actual == g.actual + 1 && h.hero == g.hero;
      var r := ChangeFloor(h, false, back);
      if r.Success? {
        ChangeFloorKeepsPlaced(h, false, back);
        var k := r.value.game;
        assert r.value.changed && k.actual == g.actual;
        HeroOnlyOnCurrent(k, g.actual + 1);
      }
    }
  }

  /** In a game in order the hero is on the current floor and on no other. */
  lemma HeroOnlyOnCurrent(g: Game, i: int)
    requires Placed(g) && 0 <= i < |g.floors| && i != g.actual
    ensures g.hero in g.floors[g.actual].index && g.hero !in g.floors[i].index
  {
  }

  /** The hero's step in `Map.move` when the destination holds no room
      object: the move itself, where `occupantDies` is what a met occupant
      answers, with the hero's record following it onto ground. */
  function Walk(g: Game, way: Coord, occupantDies: bool): (h: Game)
    requires Placed(g)
    ensures Placed(h)
    ensures h.actual == g.actual && h.floors == g.floors[g.actual := h.floors[g.actual]]
    ensures Move(g.floors[g.actual], g.hero, way, occupantDies) == Success(h.floors[g.actual])
    ensures var f := g.floors[g.actual];
      var dest := Add(g.heroAt, way);
      && (InGrid(f.size, dest) && At(f, dest) == Ground ==> h.heroAt == dest)
      && (!(InGrid(f.size, dest) && At(f, dest) == Ground) ==> h.heroAt == g.heroAt)
  {
    var f := g.floors[g.actual];
    var dest := Add(g.heroAt, way);
    var moved := Move(f, g.hero, way, occupantDies).value;
    var h := g.(floors := g.floors[g.actual := moved], heroAt := if InGrid(f.size, dest) && At(f, dest) == Ground then dest else g.heroAt);
    PlacedAfter(g, h, g.actual);
    h
  }

  /** Whether the hero's step leads into a room object (a stair or the
      merchant). */
  predicate IntoRoomObject(g: Game, way: Coord)
    requires 0 <= g.actual < |g.floors|
  {
    var f := g.floors[g.actual];
    var dest := Add(g.heroAt, way);
    InGrid(f.size, dest) && At(f, dest).Holds? && At(f, dest).e.kind.RoomObjectKind?
  }

  /** The hero's step in `Map.move` of the graphical game. Walking into a
      stair is the stair's usage: the floor change, whose outcome the step
      returns; walking into the merchant opens the shop, which leaves the
      map as it is. Any other step is a `Walk` on the current floor. The game
      stays in order either way. */
  function HeroStep(g: Game, way: Coord, occupantDies: bool, pick: nat): (r: Result<Outcome, StairError>)
    requires Placed(g)
    ensures r.Success? ==> Placed(r.value.game)
    ensures IntoRoomObject(g, way) ==>
      var usage := At(g.floors[g.actual], Add(g.heroAt, way)).e.kind.usage;
      && (usage == Upstair ==> r == ChangeFloor(g, true, pick))
      && (usage == Downstair ==> r == ChangeFloor(g, false, pick))
      && (usage == Merchant ==> r == Success(Outcome(g, false)))
    ensures !IntoRoomObject(g, way) ==> r == Success(Outcome(Walk(g, way, occupantDies), false))
  {
    if IntoRoomObject(g, way) then
      match At(g.floors[g.actual], Add(g.heroAt, way)).e.kind.usage
      case Upstair => ChangeFloorKeepsPlaced(g, true, pick); ChangeFloor(g, true, pick)
      case Downstair => ChangeFloorKeepsPlaced(g, false, pick); ChangeFloor(g, false, pick)
      case Merchant => Success(Outcome(g, false))
    else Success(Outcome(Walk(g, way, occupantDies), false))
  }

  // ---------------------------------------------------------------------
  // The effect round of the monsters

  /** `isinstance(e, Creature) and not isinstance(e, Hero)`. */
  predicate IsMonster(e: Elem)
  {
    e.kind == MonsterKind
  }

  /** What the first loop of `applyEffectsToAllMonsters` leaves: every body
      after its round, and the monsters found dead, in visiting order. */
  datatype Affected = Affected(bodies: map<Elem, Powers.Body>, dead: seq<Elem>)

  /** The first loop over the elements `todo`: each monster's effects act
      for a round, and a monster left with at most zero hit points is noted
      as dead. Every listed monster goes through exactly one round, the
      other bodies are untouched, and the dead are exactly the listed
      monsters whose round left them without hit points. */
  function AffectAll(todo: seq<Elem>, bodies: map<Elem, Powers.Body>): (r: Affected)
    requires NoDup(todo)
    requires forall e | e in todo && IsMonster(e) :: e in bodies
    ensures r.bodies.Keys == bodies.Keys
    ensures forall e | e in bodies :: r.bodies[e] == if e in todo && IsMonster(e) then Powers.ApplyAllEffects(bodies[e]) else bodies[e]
    ensures forall e :: e in r.dead <==> e in todo && IsMonster(e) && Powers.ApplyAllEffects(bodies[e]).creature.hp <= 0
    ensures NoDup(r.dead)
    decreases |todo|
  {
    if todo == [] then Affected(bodies, [])
    else
      var e := todo[0];
      assert e !in todo[1..] && NoDup(todo[1..]);
      if IsMonster(e) then
        var b := Powers.ApplyAllEffects(bodies[e]);
        var rest := AffectAll(todo[1..], bodies[e := b]);
        var dead := (if b.creature.hp <= 0 then [e] else []) + rest.dead;
        assert NoDup(dead);
        Affected(rest.bodies, dead)
      else AffectAll(todo[1..], bodies)
  }

  /** The positions of the elements `s` on `f`, in order. */
  function Positions(f: Floor, s: seq<Elem>): (r: seq<Coord>)
    requires forall e | e in s :: e in f.index
    ensures |r| == |s| && forall i | 0 <= i < |s| :: r[i] == f.index[s[i]]
  {
    if s == [] then [] else [f.index[s[0]]] + Positions(f, s[1..])
  }

  /** The second loop: `rm` on each collected coordinate in turn, the first
      failure ending it. */
  function RmAll(f: Floor, coords: seq<Coord>): Result<Floor, MapError>
    decreases |coords|
  {
    if coords == [] then Success(f)
    else match Rm(f, coords[0])
      case Failure(e) => Failure(e)
      case Success(g) => RmAll(g, coords[1..])
  }

  /** One removal of a placed element by its position, on a consistent
      floor: it succeeds, takes out exactly that element and keeps the
      floor consistent. */
  lemma RmPlaced(f: Floor, d: Elem)
    requires Consistent(f) && d in f.index
    ensures Rm(f, f.index[d]).Success?
    ensures var g := Rm(f, f.index[d]).value;
      && Consistent(g) && SameLayout(f, g) && d !in g.index
      && IndexAgreesOutside(f, g, d)
  {
    assert At(f, f.index[d]) == Holds(d);
  }

  /** On a consistent floor, removing the positions of distinct placed
      elements succeeds, keeps the floor consistent, and removes exactly
      those elements, the others keeping their places. */
  lemma {:induction false} RmAllRemoves(f: Floor, dead: seq<Elem>)
    requires Consistent(f) && NoDup(dead) && forall e | e in dead :: e in f.index
    ensures RmAll(f, Positions(f, dead)).Success?
    ensures var g := RmAll(f, Positions(f, dead)).value;
      && Consistent(g) && SameLayout(f, g)
      && (forall e :: e in g.index <==> e in f.index && e !in dead)
      && (forall e | e in g.index :: g.index[e] == f.index[e])
    decreases |dead|
  {
    if dead != [] {
      var d, rest := dead[0], dead[1..];
      RmPlaced(f, d);
      var g := Rm(f, f.index[d]).value;
      assert d !in rest && NoDup(rest);
      PositionsAgree(f, g, rest);
      assert RmAll(f, Positions(f, dead)) == RmAll(g, Positions(g, rest));
      RmAllRemoves(g, rest);
    }
  }

  /** Positions looked up on two floors that place the elements alike. */
  lemma PositionsAgree(f: Floor, g: Floor, s: seq<Elem>)
    requires forall e | e in s :: e in f.index && e in g.index && g.index[e] == f.index[e]
    ensures Positions(f, s) == Positions(g, s)
  {
  }

  /** The monsters' bodies after the round and the floor after the dead are
      removed. */
  datatype Aftermath = Aftermath(floor: Floor, bodies: map<Elem, Powers.Body>)

  /** `Map.applyEffectsToAllMonsters`: every monster on the floor, in the
      order the elements were placed, has its effects act for a round
      (`applyAllEffects`); then each monster left with at most zero hit points
      is removed. Nothing else moves, and the floor stays consistent. */
  function ApplyEffectsToAllMonsters(f: Floor, bodies: map<Elem, Powers.Body>): (r: Result<Aftermath, MapError>)
    requires Consistent(f)
    requires forall e | e in f.index && IsMonster(e) :: e in bodies
    ensures r.Success?
    ensures var a := r.value;
      && Consistent(a.floor) && SameLayout(f, a.floor)
      && (forall e :: e in a.floor.index <==> e in f.index && !(IsMonster(e) && Powers.ApplyAllEffects(bodies[e]).creature.hp <= 0))
      && (forall e | e in a.floor.index :: a.floor.index[e] == f.index[e])
      && a.bodies.Keys == bodies.Keys
      && (forall e | e in bodies :: a.bodies[e] == if e in f.index && IsMonster(e) then Powers.ApplyAllEffects(bodies[e]) else bodies[e])
  {
    var affected := AffectAll(f.order, bodies);
    RmAllRemoves(f, affected.dead);
    match RmAll(f, Positions(f, affected.dead))
    case Failure(e) => Failure(e)
    case Success(g) => Success(Aftermath(g, affected.bodies))
  }
}
