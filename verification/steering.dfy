/** How monsters close in on the hero (`Map.moveAllMonsters`). The terminal game
    steps along the axis where the hero is farther (`Coord.direction`); the
    graphical game scans the eight neighbours and the cell itself for the
    ground cell nearest the hero (`Map.direction`). */
module Steering {
  import opened Geometry
  import opened Editions
  import opened Floors

  /** The nine offsets in the order `Map.direction` visits them: the x offset
      in the outer loop, the y offset in the inner one. */
  const Ways: seq<Coord> := [
    Coord(-1, -1), Coord(-1, 0), Coord(-1, 1),
    Coord(0, -1), Coord(0, 0), Coord(0, 1),
    Coord(1, -1), Coord(1, 0), Coord(1, 1)]

  /** The position of an offset in the scan order. */
  function Rank(w: Coord): int
  {
    (w.x + 1) * 3 + (w.y + 1)
  }

  /** `Rank` inverts the scan order. */
  lemma RankOfWays()
    ensures forall i | 0 <= i < |Ways| :: Rank(Ways[i]) == i
    ensures forall w | w in Ways :: Ways[Rank(w)] == w
  {
  }

  /** `Coord.direction` of the terminal game, from `c` towards `target`. The
      source compares the cosine `dx / distance` with `1 / sqrt(2)`; for
      `dx > 0` that is `2 dx^2 > dx^2 + dy^2`, that is `dx^2 > dy^2`, which is
      the integer test used here. The step is along x exactly when the gap is
      strictly wider in x than in y, and it always brings `c` strictly closer
      without leaving the box spanned by `c` and `target`. */
  function Toward(c: Coord, target: Coord): (d: Coord)
    requires c != target
    ensures d in Ways && d != Coord(0, 0) && (d.x == 0 || d.y == 0)
    ensures d.y == 0 <==> Abs(c.x - target.x) > Abs(c.y - target.y)
    ensures SqDist(Add(c, d), target) < SqDist(c, target)
    ensures Within(c.x + d.x, c.x, target.x) && Within(c.y + d.y, c.y, target.y)
  {
    var dd := Sub(c, target);
    SquareMonotone(dd.y, dd.x);
    TowardCloser(dd);
    if dd.x > 0 && dd.x * dd.x > dd.y * dd.y then Coord(-1, 0)
    else if dd.x < 0 && dd.x * dd.x > dd.y * dd.y then Coord(1, 0)
    else if dd.y > 0 then Coord(0, -1)
    else Coord(0, 1)
  }

  /** Each of the four possible steps shrinks the squared gap `dd` when the
      cosine test picks it. */
  lemma TowardCloser(dd: Coord)
    requires dd != Coord(0, 0)
    ensures dd.x > 0 ==> (dd.x - 1) * (dd.x - 1) < dd.x * dd.x
    ensures dd.x < 0 ==> (dd.x + 1) * (dd.x + 1) < dd.x * dd.x
    ensures dd.y > 0 ==> (dd.y - 1) * (dd.y - 1) < dd.y * dd.y
    ensures dd.y < 0 ==> (dd.y + 1) * (dd.y + 1) < dd.y * dd.y
  {
    if dd.x > 0 { StepShrinksSquare(dd.x, -1); }
    if dd.x < 0 { StepShrinksSquare(dd.x, 1); }
    if dd.y > 0 { StepShrinksSquare(dd.y, -1); }
    if dd.y < 0 { StepShrinksSquare(dd.y, 1); }
  }

  /** Walking towards a grid cell from a grid cell never leaves the grid, so
      the terminal game's raising `get` never raises in `moveAllMonsters`. */
  lemma TowardInGrid(n: int, c: Coord, target: Coord)
    requires c != target && InGrid(n, c) && InGrid(n, target)
    ensures InGrid(n, Add(c, Toward(c, target)))
  {
  }

  /** The graphical scan may step to `Add(c, w)`: that cell is on the grid and
      is plain ground. */
  predicate Open(f: Floor, c: Coord, w: Coord)
  {
    InGrid(f.size, Add(c, w)) && GetSafe(f, Add(c, w)) == Ground
  }

  /** The loop of `Map.direction` from position `k` on, over candidates whose
      openness and distance to the target are listed, with `best` the
      position kept so far: a candidate replaces it when it is open and
      strictly nearer. The result is the earliest of the nearest open
      candidates when one beats `best`, and `best` otherwise. */
  function ScanFrom(open: seq<bool>, dist: seq<int>, k: nat, best: nat): (j: nat)
    requires |open| == |dist| && k <= |dist| && best < |dist|
    ensures j < |dist|
    ensures j == best || (k <= j && open[j] && dist[j] < dist[best])
    ensures dist[j] <= dist[best]
    ensures forall i | k <= i < |dist| && open[i] :: dist[j] <= dist[i]
    ensures j != best ==> forall i | k <= i < |dist| && open[i] && dist[i] == dist[j] :: j <= i
    decreases |dist| - k
  {
    if k == |dist| then best
    else ScanFrom(open, dist, k + 1, if open[k] && dist[k] < dist[best] then k else best)
  }

  /** `Map.direction(c, target)` of the graphical game: the offset, starting
      from `(0, 0)`, to the nearest open neighbour strictly nearer `target`
      than `c`, the earliest in scan order on a tie; `(0, 0)` when no open
      neighbour is strictly nearer. The step therefore never targets an
      element, the hero included. */
  function Direction(f: Floor, c: Coord, target: Coord): (d: Coord)
    ensures d in Ways
    ensures d == Coord(0, 0) || (Open(f, c, d) && SqDist(Add(c, d), target) < SqDist(c, target))
    ensures forall i | 0 <= i < |Ways| && Open(f, c, Ways[i]) :: SqDist(Add(c, d), target) <= SqDist(Add(c, Ways[i]), target)
    ensures d == Coord(0, 0) <==> forall i | 0 <= i < |Ways| && Open(f, c, Ways[i]) :: SqDist(c, target) <= SqDist(Add(c, Ways[i]), target)
    ensures d != Coord(0, 0) ==> forall i | 0 <= i < |Ways| && Open(f, c, Ways[i]) && SqDist(Add(c, Ways[i]), target) == SqDist(Add(c, d), target) :: Rank(d) <= i
  {
    var j := ScanFrom(Opens(f, c), Dists(c, target), 0, 4);
    DirectionFacts(f, c, target, j);
    Ways[j]
  }

  /** Which of the nine candidate cells around `c` are open, in scan order. */
  function Opens(f: Floor, c: Coord): (open: seq<bool>)
    ensures |open| == |Ways| && forall i | 0 <= i < |Ways| :: open[i] == Open(f, c, Ways[i])
  {
    seq(|Ways|, i requires 0 <= i < |Ways| => Open(f, c, Ways[i]))
  }

  /** The squared distances from the nine candidate cells to `target`. */
  function Dists(c: Coord, target: Coord): (dist: seq<int>)
    ensures |dist| == |Ways| && forall i | 0 <= i < |Ways| :: dist[i] == SqDist(Add(c, Ways[i]), target)
  {
    seq(|Ways|, i requires 0 <= i < |Ways| => SqDist(Add(c, Ways[i]), target))
  }

  /** The scan's result read back in terms of the floor and the distances. */
  lemma DirectionFacts(f: Floor, c: Coord, target: Coord, j: nat)
    requires j == ScanFrom(Opens(f, c), Dists(c, target), 0, 4)
    ensures j < |Ways| && Rank(Ways[j]) == j
    ensures Ways[j] == Coord(0, 0) || (Open(f, c, Ways[j]) && SqDist(Add(c, Ways[j]), target) < SqDist(c, target))
    ensures forall i | 0 <= i < |Ways| && Open(f, c, Ways[i]) :: SqDist(Add(c, Ways[j]), target) <= SqDist(Add(c, Ways[i]), target)
    ensures Ways[j] == Coord(0, 0) <==> forall i | 0 <= i < |Ways| && Open(f, c, Ways[i]) :: SqDist(c, target) <= SqDist(Add(c, Ways[i]), target)
    ensures Ways[j] != Coord(0, 0) ==> forall i | 0 <= i < |Ways| && Open(f, c, Ways[i]) && SqDist(Add(c, Ways[i]), target) == SqDist(Add(c, Ways[j]), target) :: j <= i
  {
    var open := Opens(f, c);
    var dist := Dists(c, target);
    RankOfWays();
    assert Add(c, Ways[4]) == c;
    assert dist[4] == SqDist(c, target);
    assert Ways[j] == Coord(0, 0) <==> j == 4;
    forall i | 0 <= i < |Ways| && Open(f, c, Ways[i])
      ensures SqDist(Add(c, Ways[j]), target) <= SqDist(Add(c, Ways[i]), target)
    {
      assert open[i];
    }
    if j == 4 {
      forall i | 0 <= i < |Ways| && Open(f, c, Ways[i])
        ensures SqDist(c, target) <= SqDist(Add(c, Ways[i]), target)
      {
        assert open[i];
      }
    } else {
      assert open[j] && dist[j] < dist[4];
    }
  }

  /** The step a monster at `c` takes towards the hero at `h` in each game. */
  function StepOf(f: Floor, ed: Edition, c: Coord, h: Coord): (d: Coord)
    requires c != h
    ensures d in Ways
    ensures d == Coord(0, 0) || SqDist(Add(c, d), h) < SqDist(c, h)
  {
    match ed
    case Terminal => Toward(c, h)
    case Graphical => Direction(f, c, h)
  }

  /** The result of one sweep over the monsters: the new floor and, in turn
      order, the monsters that walked into the hero (each such bump is a
      `meet` the hero must resolve). */
  datatype Sweep = Sweep(floor: Floor, attackers: seq<Elem>)

  /** Two different placed elements stand on different cells. */
  lemma DistinctCells(f: Floor, a: Elem, b: Elem)
    requires Consistent(f) && a in f.index && b in f.index && a != b
    ensures f.index[a] != f.index[b]
  {
    assert At(f, f.index[a]) == Holds(a);
    assert At(f, f.index[b]) == Holds(b);
  }

  /** Every element that stands elsewhere in `g` than in `f` is a creature
      other than the hero that was within distance 6 of `h`, and it moved by
      one of the nine offsets to a cell strictly nearer `h`. */
  ghost predicate Approached(f: Floor, g: Floor, h: Coord)
  {
    forall e | e in f.index && e in g.index && g.index[e] != f.index[e] ::
      && IsCreature(e) && e != f.hero && SqDist(f.index[e], h) < 36
      && Sub(g.index[e], f.index[e]) in Ways
      && SqDist(g.index[e], h) < SqDist(f.index[e], h)
  }

  /** One monster's step followed by the rest of the sweep, in which that
      monster stays put, is still an approach towards `h`. */
  lemma ApproachedAfterStep(f: Floor, g: Floor, r: Floor, h: Coord, e: Elem)
    requires e in f.index && e in g.index && e in r.index && r.index[e] == g.index[e]
    requires g.hero == f.hero
    requires forall x | x != e && x in f.index :: x in g.index && g.index[x] == f.index[x]
    requires Approached(f, g, h) && Approached(g, r, h)
    ensures Approached(f, r, h)
  {
    forall x | x in f.index && x in r.index && r.index[x] != f.index[x]
      ensures IsCreature(x) && x != f.hero && SqDist(f.index[x], h) < 36
      ensures Sub(r.index[x], f.index[x]) in Ways && SqDist(r.index[x], h) < SqDist(f.index[x], h)
    {
      if x == e {
        assert g.index[x] != f.index[x];
      } else {
        assert r.index[x] != g.index[x];
      }
    }
  }

  /** What one element's turn produces: the floor afterwards, and whether the
      element walked into the hero. */
  datatype Turn = Turn(floor: Floor, bumped: bool)

  /** A monster's step onto ground moves only that monster, one offset
      nearer the hero. */
  lemma StepApproaches(f: Floor, e: Elem, d: Coord, h: Coord)
    requires Consistent(f) && e in f.index && IsCreature(e) && e != f.hero && SqDist(f.index[e], h) < 36
    requires d in Ways && GetSafe(f, Add(f.index[e], d)) == Ground
    requires d != Coord(0, 0) && SqDist(Add(f.index[e], d), h) < SqDist(f.index[e], h)
    ensures Move(f, e, d, false).Success?
    ensures Consistent(Move(f, e, d, false).value) && SameLayout(f, Move(f, e, d, false).value)
    ensures Move(f, e, d, false).value.order == f.order
    ensures forall x :: x in Move(f, e, d, false).value.index <==> x in f.index
    ensures forall x | x != e && x in f.index :: Move(f, e, d, false).value.index[x] == f.index[x]
    ensures Approached(f, Move(f, e, d, false).value, h)
  {
    SubAddInverse(f.index[e], d);
  }

  /** One pass of the loop body of `Map.moveAllMonsters` for element `e`,
      with the hero at `h`: a creature other than the hero within distance 6
      (squared distance below 36) takes its step when the target cell is
      ground, and bumps into the hero, who is never removed, when the hero
      stands there; anything else leaves the floor as it is. */
  function MonsterTurn(f: Floor, ed: Edition, h: Coord, e: Elem): (t: Turn)
    requires Consistent(f) && f.hero in f.index && f.index[f.hero] == h && e in f.index
    ensures Consistent(t.floor) && SameLayout(f, t.floor) && t.floor.order == f.order
    ensures forall x :: x in t.floor.index <==> x in f.index
    ensures forall x | x != e && x in f.index :: t.floor.index[x] == f.index[x]
    ensures Approached(f, t.floor, h)
    ensures t.bumped ==> IsCreature(e) && e != f.hero && SqDist(f.index[e], h) < 36 && t.floor == f
    ensures ed == Graphical ==> !t.bumped
  {
    var c := f.index[e];
    if IsCreature(e) && e != f.hero && SqDist(c, h) < 36 then
      DistinctCells(f, e, f.hero);
      var d := StepOf(f, ed, c, h);
      var t := GetSafe(f, Add(c, d));
      if t == Ground then
        assert Add(c, Coord(0, 0)) == c && At(f, c) == Holds(e);
        StepApproaches(f, e, d, h);
        Turn(Move(f, e, d, false).value, false)
      else if t == Holds(f.hero) then
        assert Add(c, Coord(0, 0)) == c && At(f, c) == Holds(e);
        assert ed == Terminal;
        assert Move(f, e, d, true) == Wrappers.Success(f);
        Turn(f, true)
      else
        Turn(f, false)
    else
      Turn(f, false)
  }

  /** The loop of `Map.moveAllMonsters` over the elements `todo`, in the
      dictionary's order, with the hero at `h`. The hero never moves and is
      never removed, nothing is removed, each element moves at most once, by
      one step that brings it strictly nearer the hero, and in the graphical
      game nobody ever bumps into the hero. */
  function MoveAll(f: Floor, ed: Edition, h: Coord, todo: seq<Elem>): (r: Sweep)
    requires Consistent(f) && f.hero in f.index && f.index[f.hero] == h
    requires NoDup(todo) && forall e | e in todo :: e in f.index
    ensures Consistent(r.floor) && SameLayout(f, r.floor) && r.floor.order == f.order
    ensures forall e :: e in r.floor.index <==> e in f.index
    ensures r.floor.index[f.hero] == h
    ensures forall e | e in f.index && e !in todo :: r.floor.index[e] == f.index[e]
    ensures Approached(f, r.floor, h)
    ensures forall a | a in r.attackers :: a in todo && IsCreature(a) && a != f.hero && a in f.index && SqDist(f.index[a], h) < 36
    ensures ed == Graphical ==> r.attackers == []
    decreases |todo|
  {
    if todo == [] then Sweep(f, [])
    else
      var e := todo[0];
      assert NoDup(todo[1..]) && e !in todo[1..];
      var t := MonsterTurn(f, ed, h, e);
      var r := MoveAll(t.floor, ed, h, todo[1..]);
      ApproachedAfterStep(f, t.floor, r.floor, h, e);
      var s := Sweep(r.floor, (if t.bumped then [e] else []) + r.attackers);
      SweepStep(f, ed, h, todo, t, r, s);
      s
  }

  /** The facts one turn and the rest of the sweep give combine into the
      facts of the whole sweep. */
  lemma SweepStep(f: Floor, ed: Edition, h: Coord, todo: seq<Elem>, t: Turn, r: Sweep, s: Sweep)
    requires todo != [] && todo[0] !in todo[1..] && todo[0] in f.index
    requires f.hero in f.index && f.index[f.hero] == h
    requires forall x :: x in t.floor.index <==> x in f.index
    requires forall x | x != todo[0] && x in f.index :: t.floor.index[x] == f.index[x]
    requires t.bumped ==> IsCreature(todo[0]) && todo[0] != f.hero && SqDist(f.index[todo[0]], h) < 36 && t.floor == f
    requires ed == Graphical ==> !t.bumped
    requires t.floor.hero == f.hero && t.floor.index[f.hero] == h
    requires forall x :: x in r.floor.index <==> x in t.floor.index
    requires r.floor.index[f.hero] == h
    requires forall x | x in t.floor.index && x !in todo[1..] :: r.floor.index[x] == t.floor.index[x]
    requires forall a | a in r.attackers :: a in todo[1..] && IsCreature(a) && a != f.hero && a in t.floor.index && SqDist(t.floor.index[a], h) < 36
    requires ed == Graphical ==> r.attackers == []
    requires s == Sweep(r.floor, (if t.bumped then [todo[0]] else []) + r.attackers)
    ensures forall e :: e in s.floor.index <==> e in f.index
    ensures s.floor.index[f.hero] == h
    ensures forall e | e in f.index && e !in todo :: s.floor.index[e] == f.index[e]
    ensures forall a | a in s.attackers :: a in todo && IsCreature(a) && a != f.hero && a in f.index && SqDist(f.index[a], h) < 36
    ensures ed == Graphical ==> s.attackers == []
  {
    forall a | a in s.attackers
      ensures a in todo && IsCreature(a) && a != f.hero && a in f.index && SqDist(f.index[a], h) < 36
    {
      if a in r.attackers {
        assert a != todo[0] && a in t.floor.index && a in f.index;
        assert t.floor.index[a] == f.index[a];
      }
    }
  }

  /** `Map.moveAllMonsters`: the sweep over every placed element, in the
      order the elements were placed, with the hero's position read once at
      the start. */
  function MoveAllMonsters(f: Floor, ed: Edition): (r: Sweep)
    requires Consistent(f) && f.hero in f.index
    ensures Consistent(r.floor) && SameLayout(f, r.floor) && r.floor.order == f.order
    ensures forall e :: e in r.floor.index <==> e in f.index
    ensures r.floor.index[f.hero] == f.index[f.hero]
    ensures Approached(f, r.floor, f.index[f.hero])
    ensures forall a | a in r.attackers :: IsCreature(a) && a != f.hero && a in f.index
    ensures ed == Graphical ==> r.attackers == []
  {
    MoveAll(f, ed, f.index[f.hero], f.order)
  }
}
