/** The promise of `Map.reachAllRooms`, "makes all rooms reachable": once the
    corridors are dug, the centre of every room can be walked to from the
    centre of the first room over ground cells of the grid, one unit step along
    one axis at a time. Digging only ever turns cells into ground, so every
    walk that exists keeps existing while the corridors are dug. */
module Reachability {
  import opened Wrappers
  import opened Geometry
  import opened Editions
  import opened Rooms
  import opened Floors
  import opened Generator

  /** Two cells one unit step apart along exactly one axis. */
  predicate Adjacent(a: Coord, b: Coord)
  {
    Abs(a.x - b.x) + Abs(a.y - b.y) == 1
  }

  /** A walk on `f`: a non-empty sequence of ground cells of the grid, each one
      a unit step from the cell before it. */
  predicate IsWalk(f: Floor, p: seq<Coord>)
  {
    && |p| > 0
    && (forall i | 0 <= i < |p| :: InGrid(f.size, p[i]) && At(f, p[i]) == Ground)
    && (forall i | 0 <= i < |p| - 1 :: Adjacent(p[i], p[i + 1]))
  }

  /** Some walk on `f` leads from `a` to `b`. */
  ghost predicate Linked(f: Floor, a: Coord, b: Coord)
  {
    exists p :: IsWalk(f, p) && p[0] == a && p[|p| - 1] == b
  }

  /** `g` has the size of `f` and keeps every ground cell of `f`. */
  ghost predicate GroundKept(f: Floor, g: Floor)
  {
    g.size == f.size && forall c | At(f, c) == Ground :: At(g, c) == Ground
  }

  /** Every room, reached or pending, is well formed, lies on the grid and is
      ground throughout. */
  ghost predicate RoomsGround(f: Floor)
  {
    && AllFit(f.size, f.rooms) && AllFit(f.size, f.toReach)
    && forall r, c | r in AllRooms(f) && Contains(r, c) :: At(f, c) == Ground
  }

  /** The centre of every reached room is linked to `home`. */
  ghost predicate AllLinked(f: Floor, home: Coord)
  {
    forall r | r in f.rooms :: Linked(f, home, Center(r))
  }

  /** A ground cell of the grid is linked to itself. */
  lemma LinkedSelf(f: Floor, a: Coord)
    requires InGrid(f.size, a) && At(f, a) == Ground
    ensures Linked(f, a, a)
  {
    assert IsWalk(f, [a]);
  }

  /** A walk survives on any floor that keeps the ground. */
  lemma LinkedKept(f: Floor, g: Floor, a: Coord, b: Coord)
    requires GroundKept(f, g) && Linked(f, a, b)
    ensures Linked(g, a, b)
  {
    var p :| IsWalk(f, p) && p[0] == a && p[|p| - 1] == b;
    assert IsWalk(g, p);
  }

  /** A walk to `b` followed by a walk from `b` is a walk. */
  lemma LinkedTrans(f: Floor, a: Coord, b: Coord, c: Coord)
    requires Linked(f, a, b) && Linked(f, b, c)
    ensures Linked(f, a, c)
  {
    var p :| IsWalk(f, p) && p[0] == a && p[|p| - 1] == b;
    var q :| IsWalk(f, q) && q[0] == b && q[|q| - 1] == c;
    var r := p + q[1..];
    forall i | 0 <= i < |r|
      ensures InGrid(f.size, r[i]) && At(f, r[i]) == Ground
    {
      if i >= |p| {
        assert r[i] == q[i - |p| + 1];
      }
    }
    forall i | 0 <= i < |r| - 1
      ensures Adjacent(r[i], r[i + 1])
    {
      if i < |p| - 1 {
        assert r[i] == p[i] && r[i + 1] == p[i + 1];
      } else if i == |p| - 1 {
        assert r[i] == q[0] && r[i + 1] == q[1];
      } else {
        assert r[i] == q[i - |p| + 1] && r[i + 1] == q[i - |p| + 2];
      }
    }
    assert IsWalk(f, r);
  }

  /** The start of a walk is linked to each of its cells. */
  lemma LinkedAlong(f: Floor, p: seq<Coord>, k: nat)
    requires IsWalk(f, p) && k < |p|
    ensures Linked(f, p[0], p[k])
  {
    assert IsWalk(f, p[..k + 1]);
  }

  /** The cursor of a corridor leg moves by one at each step and stops at its
      end. */
  lemma {:induction false} StepsUnit(from: int, to: int)
    ensures var t := [from] + Steps(from, to);
      && t[|t| - 1] == to
      && forall i | 0 <= i < |t| - 1 :: Abs(t[i + 1] - t[i]) == 1
    decreases Abs(to - from)
  {
    if from != to {
      var before := to - Sign(to - from);
      StepsUnit(from, before);
      var t0 := [from] + Steps(from, before);
      assert [from] + Steps(from, to) == t0 + [to];
      assert t0[|t0| - 1] == before;
    }
  }

  /** The vertical leg of the corridor path: its first cells follow the row
      cursor along `a`'s column. */
  lemma LPathUp(a: Coord, b: Coord)
    ensures var ys := Steps(a.y, b.y);
      forall i | 0 <= i <= |ys| :: LPath(a, b)[i] == Coord(a.x, ([a.y] + ys)[i])
  {
    var ys := Steps(a.y, b.y);
    var p := LPath(a, b);
    assert p == [a] + Column(a.x, ys) + Row(Steps(a.x, b.x), b.y);
  }

  /** The horizontal leg: from the corner on, the cells follow the column
      cursor along `b`'s row. */
  lemma LPathAcross(a: Coord, b: Coord)
    ensures var ys := Steps(a.y, b.y);
      var p := LPath(a, b);
      forall i | |ys| <= i < |p| :: p[i] == Coord(([a.x] + Steps(a.x, b.x))[i - |ys|], b.y)
  {
    var ys := Steps(a.y, b.y);
    var xs := Steps(a.x, b.x);
    var p := LPath(a, b);
    assert p == [a] + Column(a.x, ys) + Row(xs, b.y);
    StepsUnit(a.y, b.y);
    LPathUp(a, b);
    assert p[|ys|] == Coord(a.x, b.y);
  }

  /** Each cell of the corridor path is a unit step from the one before. */
  lemma LPathSteps(a: Coord, b: Coord)
    ensures var p := LPath(a, b);
      forall i | 0 <= i < |p| - 1 :: Adjacent(p[i], p[i + 1])
  {
    var ys := Steps(a.y, b.y);
    var ty := [a.y] + ys;
    var tx := [a.x] + Steps(a.x, b.x);
    StepsUnit(a.y, b.y);
    StepsUnit(a.x, b.x);
    LPathUp(a, b);
    LPathAcross(a, b);
    var p := LPath(a, b);
    forall i | 0 <= i < |p| - 1
      ensures Adjacent(p[i], p[i + 1])
    {
      if i < |ys| {
        assert p[i] == Coord(a.x, ty[i]) && p[i + 1] == Coord(a.x, ty[i + 1]);
      } else {
        assert p[i] == Coord(tx[i - |ys|], b.y) && p[i + 1] == Coord(tx[i - |ys| + 1], b.y);
      }
    }
  }

  /** A corridor whose cells are all ground on the grid links its two ends. */
  lemma LPathWalk(f: Floor, a: Coord, b: Coord)
    requires forall c | OnLPath(a, b, c) :: InGrid(f.size, c) && At(f, c) == Ground
    ensures IsWalk(f, LPath(a, b))
    ensures Linked(f, a, b)
  {
    var p := LPath(a, b);
    LPathSteps(a, b);
    forall i | 0 <= i < |p|
      ensures InGrid(f.size, p[i]) && At(f, p[i]) == Ground
    {
      LPathCells(a, b, p[i]);
    }
    assert IsWalk(f, p);
  }

  /** Any two cells of a room that lies on the grid and is ground throughout are
      linked, by the L between them, which stays inside the room. */
  lemma LinkedInRoom(f: Floor, r: Room, c: Coord, d: Coord)
    requires RoomInGrid(f.size, r) && forall e | Contains(r, e) :: At(f, e) == Ground
    requires Contains(r, c) && Contains(r, d)
    ensures Linked(f, c, d)
  {
    forall e | OnLPath(c, d, e)
      ensures InGrid(f.size, e) && At(f, e) == Ground
    {
      assert Contains(r, e);
    }
    LPathWalk(f, c, d);
  }

  /** Digging one cell reaches at most one room, and that room contains the
      cell. */
  lemma DigNewRoom(f: Floor, c: Coord)
    requires InGrid(f.size, c)
    ensures var g := Dig(f, c);
      && |g.rooms| <= |f.rooms| + 1
      && forall j | |f.rooms| <= j < |g.rooms| :: Contains(g.rooms[j], c)
  {
    match FindRoom(f.toReach, c)
    case None =>
    case Some(i) =>
  }

  /** Every room that digging a path reaches contains a cell of the path. */
  lemma {:induction false} DigAllNewRooms(f: Floor, path: seq<Coord>)
    requires forall c | c in path :: InGrid(f.size, c)
    ensures var g := DigAll(f, path);
      forall j | |f.rooms| <= j < |g.rooms| :: exists k | 0 <= k < |path| :: Contains(g.rooms[j], path[k])
    decreases |path|
  {
    if path != [] {
      var f1 := Dig(f, path[0]);
      DigNewRoom(f, path[0]);
      DigAllNewRooms(f1, path[1..]);
      var g := DigAll(f, path);
      assert g == DigAll(f1, path[1..]);
      forall j | |f.rooms| <= j < |g.rooms|
        ensures exists k | 0 <= k < |path| :: Contains(g.rooms[j], path[k])
      {
        if j < |f1.rooms| {
          assert g.rooms[j] == f1.rooms[j];
          assert Contains(g.rooms[j], path[0]);
        } else {
          var k :| 0 <= k < |path[1..]| && Contains(g.rooms[j], path[1..][k]);
          assert path[1..][k] == path[k + 1];
        }
      }
    }
  }

  /** A corridor between two cells of the grid keeps the ground, is a walk
      once dug, and every room it reaches contains one of its cells. */
  lemma CorridorWalk(f: Floor, a: Coord, b: Coord)
    requires InGrid(f.size, a) && InGrid(f.size, b)
    ensures var g := Corridor(f, a, b);
      var path := LPath(a, b);
      && GroundKept(f, g) && IsWalk(g, path)
      && forall j | |f.rooms| <= j < |g.rooms| :: exists k | 0 <= k < |path| :: Contains(g.rooms[j], path[k])
  {
    var g := Corridor(f, a, b);
    LPathInGrid(f.size, a, b);
    assert g == DigAll(f, LPath(a, b));
    forall c | OnLPath(a, b, c)
      ensures InGrid(g.size, c) && At(g, c) == Ground
    {
      LPathCells(a, b, c);
    }
    LPathWalk(g, a, b);
    DigAllNewRooms(f, LPath(a, b));
  }

  /** Rooms stay ground throughout on a floor that keeps the ground and the
      rooms. */
  lemma RoomsGroundKept(f: Floor, g: Floor)
    requires RoomsGround(f) && GroundKept(f, g) && AllRooms(g) == AllRooms(f)
    ensures RoomsGround(g)
  {
    AllFitKept(f, g);
    forall r, c | r in AllRooms(g) && Contains(r, c)
      ensures At(g, c) == Ground
    {
      assert At(f, c) == Ground;
    }
  }

  /** What one `reach` digs: the ground is kept, every room is still ground,
      the corridor is a walk from the centre of the chosen reached room, and
      every room it reaches contains a corridor cell. */
  lemma ReachCorridor(f: Floor, pick: Pick)
    requires |f.rooms| > 0 && |f.toReach| > 0 && RoomsGround(f)
    ensures var g := Reach(f, pick);
      var start := Center(f.rooms[pick.reached % |f.rooms|]);
      var path := LPath(start, Center(f.toReach[pick.pending % |f.toReach|]));
      && GroundKept(f, g) && RoomsGround(g)
      && IsWalk(g, path) && path[0] == start
      && f.rooms <= g.rooms
      && forall j | |f.rooms| <= j < |g.rooms| :: exists k | 0 <= k < |path| :: Contains(g.rooms[j], path[k])
  {
    var a := f.rooms[pick.reached % |f.rooms|];
    var b := f.toReach[pick.pending % |f.toReach|];
    CenterInside(a);
    CenterInside(b);
    var g := Reach(f, pick);
    assert g == Corridor(f, Center(a), Center(b));
    CorridorWalk(f, Center(a), Center(b));
    RoomsGroundKept(f, g);
  }

  /** A room holding a cell of a walk whose start is linked to `home`, and
      ground throughout, has its centre linked to `home`. */
  lemma LinkedThroughRoom(g: Floor, home: Coord, path: seq<Coord>, k: nat, r: Room)
    requires IsWalk(g, path) && k < |path| && Linked(g, home, path[0])
    requires WellFormed(r) && RoomInGrid(g.size, r) && forall e | Contains(r, e) :: At(g, e) == Ground
    requires Contains(r, path[k])
    ensures Linked(g, home, Center(r))
  {
    LinkedAlong(g, path, k);
    CenterInside(r);
    LinkedInRoom(g, r, path[k], Center(r));
    LinkedTrans(g, home, path[0], path[k]);
    LinkedTrans(g, home, path[k], Center(r));
  }

  /** One `reach` keeps every room ground and every reached room linked to
      `home`: the corridor starts at the centre of a room already linked, and
      each room it reaches contains a corridor cell linked to its centre
      inside the room. */
  lemma ReachKeepsLinked(f: Floor, pick: Pick, home: Coord)
    requires |f.rooms| > 0 && |f.toReach| > 0
    requires RoomsGround(f) && AllLinked(f, home)
    ensures RoomsGround(Reach(f, pick)) && AllLinked(Reach(f, pick), home)
  {
    ReachCorridor(f, pick);
    var g := Reach(f, pick);
    var a := f.rooms[pick.reached % |f.rooms|];
    var path := LPath(Center(a), Center(f.toReach[pick.pending % |f.toReach|]));
    assert a in f.rooms;
    LinkedKept(f, g, home, Center(a));
    forall r | r in g.rooms
      ensures Linked(g, home, Center(r))
    {
      var j :| 0 <= j < |g.rooms| && g.rooms[j] == r;
      if j < |f.rooms| {
        assert r == f.rooms[j] && r in f.rooms;
        LinkedKept(f, g, home, Center(r));
      } else {
        var k :| 0 <= k < |path| && Contains(r, path[k]);
        assert r in AllRooms(g);
        LinkedThroughRoom(g, home, path, k, r);
      }
    }
  }

  /** The `while` loop of `reachAllRooms` keeps every reached room linked to
      `home`. */
  lemma {:induction false} ReachLoopKeepsLinked(f: Floor, choose: nat -> Pick, k: nat, home: Coord)
    requires |f.rooms| > 0
    requires RoomsGround(f) && AllLinked(f, home)
    ensures AllLinked(ReachLoop(f, choose, k), home)
    decreases |f.toReach|
  {
    if f.toReach != [] {
      ReachKeepsLinked(f, choose(k), home);
      ReachLoopKeepsLinked(Reach(f, choose(k)), choose, k + 1, home);
    }
  }

  /** `Map.reachAllRooms` on freshly generated rooms, none reached yet and each
      ground throughout: afterwards every room is reached, and the centre of
      each can be walked to from the centre of the first room. */
  lemma ReachAllRoomsConnects(f: Floor, choose: nat -> Pick)
    requires |f.toReach| > 0 && f.rooms == []
    requires AllFit(f.size, f.toReach)
    requires forall r, c | r in f.toReach && Contains(r, c) :: At(f, c) == Ground
    ensures var g := ReachAllRooms(f, choose);
      && g.toReach == [] && multiset(g.rooms) == multiset(f.toReach)
      && g.rooms[0] == f.toReach[0]
      && forall r | r in g.rooms :: Linked(g, Center(g.rooms[0]), Center(r))
  {
    var f1 := f.(rooms := f.rooms + [f.toReach[0]], toReach := f.toReach[1..]);
    assert f.toReach == [f.toReach[0]] + f.toReach[1..];
    assert AllRooms(f1) == AllRooms(f);
    AllFitKept(f, f1);
    var home := Center(f.toReach[0]);
    CenterInside(f.toReach[0]);
    assert At(f1, home) == Ground;
    LinkedSelf(f1, home);
    assert RoomsGround(f1);
    assert AllLinked(f1, home);
    ReachLoopKeepsLinked(f1, choose, 0, home);
    var g := ReachAllRooms(f, choose);
    assert g == ReachLoop(f1, choose, 0);
    assert g.rooms[0] == (f.rooms + [f.toReach[0]])[0];
  }

  /** The generator as the floor constructor runs it: with at least one draw,
      the rooms it draws and then joins by corridors are all reached, and the
      centre of each, the hero's start among them, can be walked to from the
      centre of the first. */
  lemma GeneratedFloorConnects(n: nat, hero: Elem, special: Option<Room>, picks: seq<RoomPick>,
                               ed: Edition, test: OverlapTest, choose: nat -> Pick)
    requires n >= 3 && |picks| > 0
    requires special.Some? ==> RoomInGrid(n, special.value) && WellFormed(special.value)
    requires forall p | p in picks :: ValidPick(n, p, ed)
    ensures var f0 := GenerateRooms(Blank(n, hero), special, picks, ed, test);
      var g := ReachAllRooms(f0, choose);
      && g.toReach == [] && |g.rooms| > 0
      && forall r | r in g.rooms :: Linked(g, Center(g.rooms[0]), Center(r))
  {
    var f0 := GenerateRooms(Blank(n, hero), special, picks, ed, test);
    ReachAllRoomsConnects(f0, choose);
  }
}
