/** The dungeon generator of `Map`: random rooms accepted when they do not
    clash with earlier ones (`generateRooms`, `addRoom`), then L-shaped
    corridors dug from reached rooms to pending ones (`dig`, `corridor`,
    `reach`) until every room is reached (`reachAllRooms`). The random draws
    are parameters, so every property below holds for every possible draw. */
module Generator {
  import opened Wrappers
  import opened Geometry
  import opened Editions
  import opened Rooms
  import opened Floors

  /** Every room listed is well-formed and lies on the grid of size `n`. */
  predicate AllFit(n: int, rs: seq<Room>)
  {
    forall r | r in rs :: WellFormed(r) && RoomInGrid(n, r)
  }

  /** The floor holds no element yet, as during generation: only grid cells are
      stored, none of them holds an element, and the index is empty. */
  ghost predicate Unpopulated(f: Floor)
  {
    && (forall c | c in f.cells :: InGrid(f.size, c) && !f.cells[c].Holds?)
    && f.index == map[] && f.order == []
  }

  /** An unpopulated floor is trivially consistent. */
  lemma UnpopulatedConsistent(f: Floor)
    requires Unpopulated(f)
    ensures Consistent(f)
  {
  }

  /** `Map.addRoom`: the room becomes pending and all its cells become ground. */
  function AddRoom(f: Floor, room: Room): (g: Floor)
    requires RoomInGrid(f.size, room)
    ensures g.toReach == f.toReach + [room] && g.rooms == f.rooms
    ensures forall c :: At(g, c) == (if Contains(room, c) then Ground else At(f, c))
    ensures g.index == f.index && g.order == f.order && g.size == f.size && g.hero == f.hero
    ensures Unpopulated(f) ==> Unpopulated(g)
  {
    f.(cells := f.cells + (map c | c in Cells(room) :: Ground), toReach := f.toReach + [room])
  }

  /** The two ways of deciding that a candidate room clashes with an accepted
      one: the corner test the game uses (`Room.intersect`) and the exact box
      overlap. */
  datatype OverlapTest = CornerTest | BoxTest

  predicate Clash(test: OverlapTest, candidate: Room, accepted: Room)
  {
    match test
    case CornerTest => Intersect(candidate, accepted)
    case BoxTest => Overlaps(candidate, accepted)
  }

  /** `Map.intersectNone`: the candidate clashes with no room added so far. */
  predicate IntersectNone(accepted: seq<Room>, candidate: Room, test: OverlapTest)
  {
    forall i | 0 <= i < |accepted| :: !Clash(test, candidate, accepted[i])
  }

  /** `intersectNone` rejects a room only when it shares a cell with a room
      added so far. With the exact test it accepts a room exactly when the
      room shares no cell with any of them, and every room the exact test
      accepts the corner test accepts too. */
  lemma IntersectNoneSound(accepted: seq<Room>, candidate: Room, test: OverlapTest)
    requires WellFormed(candidate) && forall i | 0 <= i < |accepted| :: WellFormed(accepted[i])
    ensures !IntersectNone(accepted, candidate, test) ==>
      exists i, c | 0 <= i < |accepted| :: Contains(candidate, c) && Contains(accepted[i], c)
    ensures IntersectNone(accepted, candidate, BoxTest) <==>
      forall i, c | 0 <= i < |accepted| :: !(Contains(candidate, c) && Contains(accepted[i], c))
    ensures IntersectNone(accepted, candidate, BoxTest) ==> IntersectNone(accepted, candidate, CornerTest)
  {
    forall i | 0 <= i < |accepted|
      ensures Overlaps(candidate, accepted[i]) <==> exists c :: Contains(candidate, c) && Contains(accepted[i], c)
    {
      OverlapsIffSharedCell(candidate, accepted[i]);
    }
  }

  /** Each room from position `from` on was accepted against every room before it. */
  ghost predicate AcceptedFrom(rs: seq<Room>, from: int, test: OverlapTest)
  {
    forall i, j | 0 <= i < j < |rs| && from <= j :: !Clash(test, rs[j], rs[i])
  }

  /** The `for` loop of `generateRooms` over the remaining draws. */
  function TryRooms(f: Floor, picks: seq<RoomPick>, ed: Edition, test: OverlapTest): (g: Floor)
    requires f.size >= 3
    requires forall p | p in picks :: ValidPick(f.size, p, ed)
    decreases |picks|
    ensures g.rooms == f.rooms && g.index == f.index && g.order == f.order
    ensures g.size == f.size && g.hero == f.hero
    ensures |f.toReach| <= |g.toReach| <= |f.toReach| + |picks|
    ensures g.toReach[..|f.toReach|] == f.toReach
    ensures forall c :: At(g, c) == At(f, c) || At(g, c) == Ground
    ensures f.toReach == [] && |picks| > 0 ==> |g.toReach| > 0
    ensures Unpopulated(f) ==> Unpopulated(g)
  {
    if picks == [] then f
    else
      var r := RandRoom(f.size, picks[0], ed);
      var f1 := if IntersectNone(f.toReach, r, test) then AddRoom(f, r) else f;
      var g := TryRooms(f1, picks[1..], ed, test);
      assert g.toReach[..|f1.toReach|] == f1.toReach;
      assert f1.toReach[..|f.toReach|] == f.toReach;
      assert g.toReach[..|f.toReach|] == f.toReach by {
        assert g.toReach[..|f.toReach|] == g.toReach[..|f1.toReach|][..|f.toReach|];
      }
      g
  }

  /** Every room `TryRooms` adds was accepted against all rooms before it. */
  lemma {:induction false} TryRoomsAccepted(f: Floor, picks: seq<RoomPick>, ed: Edition, test: OverlapTest)
    requires f.size >= 3
    requires forall p | p in picks :: ValidPick(f.size, p, ed)
    ensures AcceptedFrom(TryRooms(f, picks, ed, test).toReach, |f.toReach|, test)
    decreases |picks|
  {
    if picks != [] {
      var r := RandRoom(f.size, picks[0], ed);
      var f1 := if IntersectNone(f.toReach, r, test) then AddRoom(f, r) else f;
      TryRoomsAccepted(f1, picks[1..], ed, test);
      var g := TryRooms(f1, picks[1..], ed, test);
      forall i, j | 0 <= i < j < |g.toReach| && |f.toReach| <= j
        ensures !Clash(test, g.toReach[j], g.toReach[i])
      {
        if j < |f1.toReach| {
          assert g.toReach[..|f1.toReach|][j] == r;
          assert g.toReach[..|f1.toReach|][i] == f.toReach[i];
        }
      }
    }
  }

  /** Every room `TryRooms` adds is well-formed, lies on the grid, and is
      ground throughout. */
  lemma {:induction false} TryRoomsFit(f: Floor, picks: seq<RoomPick>, ed: Edition, test: OverlapTest, g: Floor)
    requires f.size >= 3
    requires forall p | p in picks :: ValidPick(f.size, p, ed)
    requires g == TryRooms(f, picks, ed, test)
    ensures forall j | |f.toReach| <= j < |g.toReach| ::
      && WellFormed(g.toReach[j]) && RoomInGrid(f.size, g.toReach[j])
      && forall c | Contains(g.toReach[j], c) :: At(g, c) == Ground
    decreases |picks|
  {
    if picks != [] {
      var r := RandRoom(f.size, picks[0], ed);
      var added := IntersectNone(f.toReach, r, test);
      var f1 := if added then AddRoom(f, r) else f;
      assert g == TryRooms(f1, picks[1..], ed, test);
      TryRoomsFit(f1, picks[1..], ed, test, g);
      forall j | |f.toReach| <= j < |g.toReach|
        ensures WellFormed(g.toReach[j]) && RoomInGrid(f.size, g.toReach[j])
        ensures forall c | Contains(g.toReach[j], c) :: At(g, c) == Ground
      {
        if j < |f1.toReach| {
          assert added && j == |f.toReach|;
          assert g.toReach[..|f1.toReach|][j] == r;
          forall c | Contains(r, c) ensures At(g, c) == Ground {
            assert At(f1, c) == Ground;
          }
        }
      }
    }
  }

  /** `Map.generateRooms(n)` with the `n` room draws given: the graphical game's
      optional special room is added first, unchecked; each drawn room is then
      added only when the test finds no clash with any room added before it. */
  function GenerateRooms(f: Floor, special: Option<Room>, picks: seq<RoomPick>, ed: Edition, test: OverlapTest): (g: Floor)
    requires f.size >= 3
    requires special.Some? ==> RoomInGrid(f.size, special.value) && WellFormed(special.value)
    requires forall p | p in picks :: ValidPick(f.size, p, ed)
    ensures g.rooms == f.rooms && g.index == f.index && g.size == f.size && g.hero == f.hero
    ensures f.toReach == [] ==>
      && AcceptedFrom(g.toReach, 0, test)
      && AllFit(f.size, g.toReach)
      && |g.toReach| <= |picks| + (if special.Some? then 1 else 0)
      && (special.Some? || |picks| > 0 ==> |g.toReach| > 0)
      && (special.Some? ==> g.toReach[0] == special.value)
      && (forall r, c | r in g.toReach && Contains(r, c) :: At(g, c) == Ground)
    ensures forall c :: At(g, c) == At(f, c) || At(g, c) == Ground
    ensures Unpopulated(f) ==> Unpopulated(g)
  {
    var f1 := if special.Some? then AddRoom(f, special.value) else f;
    var g := TryRooms(f1, picks, ed, test);
    if f.toReach != [] then g
    else
      GeneratedRoomsFit(f, special, picks, ed, test, f1, g);
      g
  }

  /** A fresh generation: rooms accepted against earlier ones, fitting on the
      grid and ground throughout, the special room first. */
  lemma GeneratedRoomsFit(f: Floor, special: Option<Room>, picks: seq<RoomPick>, ed: Edition, test: OverlapTest, f1: Floor, g: Floor)
    requires f.size >= 3 && f.toReach == []
    requires special.Some? ==> RoomInGrid(f.size, special.value) && WellFormed(special.value)
    requires forall p | p in picks :: ValidPick(f.size, p, ed)
    requires f1 == if special.Some? then AddRoom(f, special.value) else f
    requires g == TryRooms(f1, picks, ed, test)
    ensures AcceptedFrom(g.toReach, 0, test)
    ensures AllFit(f.size, g.toReach)
    ensures |g.toReach| <= |picks| + (if special.Some? then 1 else 0)
    ensures special.Some? || |picks| > 0 ==> |g.toReach| > 0
    ensures special.Some? ==> g.toReach[0] == special.value
    ensures forall r, c | r in g.toReach && Contains(r, c) :: At(g, c) == Ground
  {
    TryRoomsAccepted(f1, picks, ed, test);
    TryRoomsFit(f1, picks, ed, test, g);
    assert g.toReach[..|f1.toReach|] == f1.toReach;
    if special.Some? {
      assert g.toReach[0] == g.toReach[..|f1.toReach|][0];
    }
    forall r | r in g.toReach
      ensures WellFormed(r) && RoomInGrid(f.size, r)
      ensures forall c | Contains(r, c) :: At(g, c) == Ground
    {
      var j :| 0 <= j < |g.toReach| && g.toReach[j] == r;
      if j < |f1.toReach| {
        assert g.toReach[..|f1.toReach|][j] == r;
      }
    }
  }

  /** With the exact test, the accepted rooms are pairwise disjoint: no cell
      belongs to two of them. */
  lemma BoxTestRoomsDisjoint(rs: seq<Room>, i: int, j: int, c: Coord)
    requires AcceptedFrom(rs, 0, BoxTest)
    requires 0 <= i < j < |rs| && WellFormed(rs[i]) && WellFormed(rs[j])
    ensures !(Contains(rs[i], c) && Contains(rs[j], c))
  {
    assert !Overlaps(rs[j], rs[i]);
    OverlapsIffSharedCell(rs[j], rs[i]);
  }

  /** `Map.findRoom`: the position of the first pending room containing `c`. */
  function FindRoom(rs: seq<Room>, c: Coord): (r: Option<nat>)
    ensures r.Some? ==>
      && r.value < |rs| && Contains(rs[r.value], c)
      && (forall k | 0 <= k < r.value :: !Contains(rs[k], c))
    ensures r.None? <==> forall k | 0 <= k < |rs| :: !Contains(rs[k], c)
  {
    if rs == [] then None
    else if Contains(rs[0], c) then Some(0)
    else match FindRoom(rs[1..], c)
      case None => None
      case Some(k) => Some(k + 1)
  }

  /** The reached and pending rooms together, as a multiset. */
  function AllRooms(f: Floor): multiset<Room>
  {
    multiset(f.rooms) + multiset(f.toReach)
  }

  /** `Map.dig(c)`: the cell becomes ground; the first pending room containing
      it, if any, moves from the pending list to the reached list. */
  function Dig(f: Floor, c: Coord): (g: Floor)
    requires InGrid(f.size, c)
    ensures At(g, c) == Ground && CellsAgreeOutside(f, g, {c})
    ensures g.index == f.index && g.order == f.order && g.size == f.size && g.hero == f.hero
    ensures AllRooms(g) == AllRooms(f)
    ensures multiset(g.toReach) <= multiset(f.toReach)
    ensures f.rooms <= g.rooms
    ensures g.toReach == f.toReach <==> forall k | 0 <= k < |f.toReach| :: !Contains(f.toReach[k], c)
    ensures g.toReach != f.toReach ==> |g.toReach| == |f.toReach| - 1
  {
    var f1 := f.(cells := f.cells[c := Ground]);
    match FindRoom(f.toReach, c)
    case None => f1
    case Some(i) =>
      var g := f1.(toReach := f.toReach[..i] + f.toReach[i + 1..], rooms := f.rooms + [f.toReach[i]]);
      DigReaches(f, i, g);
      g
  }

  /** Moving the pending room at position `i` to the reached rooms keeps the
      whole set of rooms and shortens the pending list by one. */
  lemma DigReaches(f: Floor, i: nat, g: Floor)
    requires i < |f.toReach|
    requires g.toReach == f.toReach[..i] + f.toReach[i + 1..] && g.rooms == f.rooms + [f.toReach[i]]
    ensures AllRooms(g) == AllRooms(f)
    ensures multiset(g.toReach) <= multiset(f.toReach)
    ensures f.rooms <= g.rooms
    ensures g.toReach != f.toReach && |g.toReach| == |f.toReach| - 1
  {
    RemoveAt(f.toReach, i);
  }

  /** Taking out the element at position `i` shortens the list by one and
      removes exactly that element from its multiset. */
  lemma RemoveAt(s: seq<Room>, i: nat)
    requires i < |s|
    ensures |s[..i] + s[i + 1..]| == |s| - 1
    ensures multiset(s[..i] + s[i + 1..]) + multiset{s[i]} == multiset(s)
    ensures s[..i] + s[i + 1..] != s
  {
    assert s == s[..i] + [s[i]] + s[i + 1..];
  }

  /** Digging keeps an unpopulated floor unpopulated. */
  lemma DigUnpopulated(f: Floor, c: Coord)
    requires InGrid(f.size, c) && Unpopulated(f)
    ensures Unpopulated(Dig(f, c))
  {
    var g := Dig(f, c);
    assert g.cells == f.cells[c := Ground];
  }

  /** Dig every cell of `path` in turn. */
  function DigAll(f: Floor, path: seq<Coord>): (g: Floor)
    requires forall c | c in path :: InGrid(f.size, c)
    ensures g.index == f.index && g.order == f.order && g.size == f.size && g.hero == f.hero
    ensures AllRooms(g) == AllRooms(f)
    ensures multiset(g.toReach) <= multiset(f.toReach)
    ensures f.rooms <= g.rooms
    decreases |path|
  {
    if path == [] then f else DigAll(Dig(f, path[0]), path[1..])
  }

  /** Digging a path turns exactly its cells into ground. */
  lemma {:induction false} DigAllCells(f: Floor, path: seq<Coord>)
    requires forall c | c in path :: InGrid(f.size, c)
    ensures forall c :: At(DigAll(f, path), c) == (if c in path then Ground else At(f, c))
    ensures Unpopulated(f) ==> Unpopulated(DigAll(f, path))
    decreases |path|
  {
    if path != [] {
      var f1 := Dig(f, path[0]);
      DigAllCells(f1, path[1..]);
      assert forall c :: c in path <==> c == path[0] || c in path[1..];
      if Unpopulated(f) {
        DigUnpopulated(f, path[0]);
      }
    }
  }

  /** Digging a path whose last cell lies in a pending room reaches at least
      one pending room. */
  lemma {:induction false} DigAllReaches(f: Floor, path: seq<Coord>, room: Room)
    requires forall c | c in path :: InGrid(f.size, c)
    requires path != [] && room in f.toReach && Contains(room, path[|path| - 1])
    ensures |DigAll(f, path).toReach| < |f.toReach|
    decreases |path|
  {
    var f1 := Dig(f, path[0]);
    var rest := path[1..];
    if room !in f1.toReach || rest == [] {
      DigHitsRoom(f, path[0], room);
      if rest != [] {
        var g := DigAll(f1, rest);
        assert |multiset(g.toReach)| <= |multiset(f1.toReach)|;
      }
    } else {
      assert rest[|rest| - 1] == path[|path| - 1];
      DigAllReaches(f1, rest, room);
    }
  }

  /** Digging a cell of a pending room, or digging past the last copy of a
      pending room, shortens the pending list. */
  lemma DigHitsRoom(f: Floor, c: Coord, room: Room)
    requires InGrid(f.size, c) && room in f.toReach
    requires Contains(room, c) || room !in Dig(f, c).toReach
    ensures |Dig(f, c).toReach| < |f.toReach|
  {
    var k :| 0 <= k < |f.toReach| && f.toReach[k] == room;
  }

  /** The values a cursor takes when stepping one unit at a time from `from`
      to `to`, `from` itself excluded. */
  function Steps(from: int, to: int): (s: seq<int>)
    decreases Abs(to - from)
    ensures |s| == Abs(to - from)
    ensures forall v :: v in s <==> v != from && Within(v, from, to)
  {
    if from == to then []
    else Steps(from, to - Sign(to - from)) + [to]
  }

  /** The cells of column `x` at the rows `ys`, in order. */
  function Column(x: int, ys: seq<int>): (cs: seq<Coord>)
    ensures |cs| == |ys| && forall i | 0 <= i < |ys| :: cs[i] == Coord(x, ys[i])
  {
    seq(|ys|, i requires 0 <= i < |ys| => Coord(x, ys[i]))
  }

  /** The cells of row `y` at the columns `xs`, in order. */
  function Row(xs: seq<int>, y: int): (cs: seq<Coord>)
    ensures |cs| == |xs| && forall i | 0 <= i < |xs| :: cs[i] == Coord(xs[i], y)
  {
    seq(|xs|, i requires 0 <= i < |xs| => Coord(xs[i], y))
  }

  /** The corridor path from `a` to `b`: `a`, then along `a`'s column to `b`'s
      row, then along that row to `b`. */
  function LPath(a: Coord, b: Coord): (p: seq<Coord>)
    ensures |p| == 1 + Abs(b.y - a.y) + Abs(b.x - a.x)
    ensures p[0] == a && p[|p| - 1] == b
  {
    var ys := Steps(a.y, b.y);
    var xs := Steps(a.x, b.x);
    var p := [a] + Column(a.x, ys) + Row(xs, b.y);
    assert p[|p| - 1] == b by {
      if |xs| > 0 {
        assert xs[|xs| - 1] == b.x;
      } else if |ys| > 0 {
        assert ys[|ys| - 1] == b.y;
      }
    }
    p
  }

  /** The cells of the L-shaped corridor from `a` to `b`, vertical leg first. */
  predicate OnLPath(a: Coord, b: Coord, c: Coord)
  {
    (c.x == a.x && Within(c.y, a.y, b.y)) || (c.y == b.y && Within(c.x, a.x, b.x))
  }

  /** The dug path is exactly the L shape. */
  lemma LPathCells(a: Coord, b: Coord, c: Coord)
    ensures c in LPath(a, b) <==> OnLPath(a, b, c)
  {
    var ys := Steps(a.y, b.y);
    var xs := Steps(a.x, b.x);
    var p := LPath(a, b);
    if c in p {
      var k :| 0 <= k < |p| && p[k] == c;
      if k == 0 {
      } else if k <= |ys| {
        assert c == Coord(a.x, ys[k - 1]);
        assert ys[k - 1] in ys;
      } else {
        assert c == Coord(xs[k - 1 - |ys|], b.y);
        assert xs[k - 1 - |ys|] in xs;
      }
    }
    if OnLPath(a, b, c) {
      if c == a {
        assert p[0] == c;
      } else if c.x == a.x && Within(c.y, a.y, b.y) {
        assert c.y in ys;
        var k :| 0 <= k < |ys| && ys[k] == c.y;
        assert p[k + 1] == c;
      } else {
        assert c.x in xs;
        var k :| 0 <= k < |xs| && xs[k] == c.x;
        assert p[k + 1 + |ys|] == c;
      }
    }
  }

  /** Every cell of the L between two grid cells lies on the grid. */
  lemma LPathInGrid(n: int, a: Coord, b: Coord)
    requires InGrid(n, a) && InGrid(n, b)
    ensures forall c | c in LPath(a, b) :: InGrid(n, c)
  {
    forall c | c in LPath(a, b)
      ensures InGrid(n, c)
    {
      LPathCells(a, b, c);
    }
  }

  /** `Map.corridor(a, b)`: digs `1 + |dy| + |dx|` cells, turning exactly the
      L-shaped path from `a` to `b` (both ends included) into ground and
      leaving every other cell as it was. Rooms only move from pending to
      reached, and the pending room holding `b`, if any, is reached. */
  function Corridor(f: Floor, a: Coord, b: Coord): (g: Floor)
    requires InGrid(f.size, a) && InGrid(f.size, b)
    ensures forall c :: At(g, c) == (if OnLPath(a, b, c) then Ground else At(f, c))
    ensures g.index == f.index && g.order == f.order && g.size == f.size && g.hero == f.hero
    ensures AllRooms(g) == AllRooms(f)
    ensures multiset(g.toReach) <= multiset(f.toReach)
    ensures f.rooms <= g.rooms
    ensures (exists room | room in f.toReach :: Contains(room, b)) ==> |g.toReach| < |f.toReach|
    ensures Unpopulated(f) ==> Unpopulated(g)
  {
    LPathInGrid(f.size, a, b);
    CorridorFacts(f, a, b);
    DigAll(f, LPath(a, b))
  }

  lemma CorridorFacts(f: Floor, a: Coord, b: Coord)
    requires InGrid(f.size, a) && InGrid(f.size, b)
    requires forall c | c in LPath(a, b) :: InGrid(f.size, c)
    ensures forall c :: At(DigAll(f, LPath(a, b)), c) == (if OnLPath(a, b, c) then Ground else At(f, c))
    ensures (exists room | room in f.toReach :: Contains(room, b)) ==> |DigAll(f, LPath(a, b)).toReach| < |f.toReach|
    ensures Unpopulated(f) ==> Unpopulated(DigAll(f, LPath(a, b)))
  {
    var g := DigAll(f, LPath(a, b));
    DigAllCells(f, LPath(a, b));
    forall c
      ensures At(g, c) == (if OnLPath(a, b, c) then Ground else At(f, c))
    {
      LPathCells(a, b, c);
    }
    if exists room | room in f.toReach :: Contains(room, b) {
      var room :| room in f.toReach && Contains(room, b);
      DigAllReaches(f, LPath(a, b), room);
    }
  }

  /** A room kept from one floor to the next still fits. */
  lemma AllFitKept(f: Floor, g: Floor)
    requires AllFit(f.size, f.rooms) && AllFit(f.size, f.toReach)
    requires AllRooms(g) == AllRooms(f) && g.size == f.size
    ensures AllFit(g.size, g.rooms) && AllFit(g.size, g.toReach)
  {
    forall r | r in g.rooms || r in g.toReach
      ensures WellFormed(r) && RoomInGrid(f.size, r)
    {
      assert r in AllRooms(g);
    }
  }

  /** The two random draws of one `reach`: positions in the reached and in the
      pending list, each taken modulo the list's length (`random.choice`). */
  datatype Pick = Pick(reached: nat, pending: nat)

  /** `Map.reach`: a corridor from the centre of a reached room to the centre
      of a pending one. The centre of the pending room lies inside it, so at
      least that room stops being pending; no room is lost or duplicated. */
  function Reach(f: Floor, pick: Pick): (g: Floor)
    requires |f.rooms| > 0 && |f.toReach| > 0
    requires AllFit(f.size, f.rooms) && AllFit(f.size, f.toReach)
    ensures |g.toReach| < |f.toReach|
    ensures AllRooms(g) == AllRooms(f) && f.rooms <= g.rooms
    ensures multiset(g.toReach) <= multiset(f.toReach)
    ensures AllFit(g.size, g.rooms) && AllFit(g.size, g.toReach)
    ensures g.index == f.index && g.order == f.order && g.size == f.size && g.hero == f.hero
    ensures forall c :: At(g, c) == At(f, c) || At(g, c) == Ground
    ensures Unpopulated(f) ==> Unpopulated(g)
  {
    var a := f.rooms[pick.reached % |f.rooms|];
    var b := f.toReach[pick.pending % |f.toReach|];
    CenterInside(a);
    CenterInside(b);
    assert Contains(b, Center(b)) && b in f.toReach;
    var g := Corridor(f, Center(a), Center(b));
    AllFitKept(f, g);
    g
  }

  /** The `while` loop of `Map.reachAllRooms`: `reach` until no room is
      pending, `choose(k)` being the draws of round `k`. Every round reaches
      at least one room, so the loop ends, with every room reached. */
  function ReachLoop(f: Floor, choose: nat -> Pick, k: nat): (g: Floor)
    requires |f.rooms| > 0
    requires AllFit(f.size, f.rooms) && AllFit(f.size, f.toReach)
    ensures g.toReach == []
    ensures multiset(g.rooms) == AllRooms(f) && f.rooms <= g.rooms
    ensures AllFit(g.size, g.rooms)
    ensures g.index == f.index && g.order == f.order && g.size == f.size && g.hero == f.hero
    ensures forall c :: At(g, c) == At(f, c) || At(g, c) == Ground
    ensures Unpopulated(f) ==> Unpopulated(g)
    decreases |f.toReach|
  {
    if f.toReach == [] then f else ReachLoop(Reach(f, choose(k)), choose, k + 1)
  }

  /** `Map.reachAllRooms`: the first pending room becomes the first reached
      one, then `reach` runs until none is pending. The reached rooms end up
      being exactly the rooms there were, reached or not, at the start. */
  function ReachAllRooms(f: Floor, choose: nat -> Pick): (g: Floor)
    requires |f.toReach| > 0
    requires AllFit(f.size, f.rooms) && AllFit(f.size, f.toReach)
    ensures g.toReach == []
    ensures multiset(g.rooms) == AllRooms(f)
    ensures f.rooms + [f.toReach[0]] <= g.rooms
    ensures AllFit(g.size, g.rooms)
    ensures g.index == f.index && g.order == f.order && g.size == f.size && g.hero == f.hero
    ensures forall c :: At(g, c) == At(f, c) || At(g, c) == Ground
    ensures Unpopulated(f) ==> Unpopulated(g)
  {
    var f1 := f.(rooms := f.rooms + [f.toReach[0]], toReach := f.toReach[1..]);
    assert f.toReach == [f.toReach[0]] + f.toReach[1..];
    assert AllRooms(f1) == AllRooms(f);
    AllFitKept(f, f1);
    ReachLoop(f1, choose, 0)
  }

  /** `Map.__init__` of both games up to the hero's placement: the room draws,
      corridors until every room is reached, then the hero on the centre of the
      first room. With at least one draw that placement never fails, the hero
      is the only element, and the floor is consistent. */
  function NewFloor(n: nat, hero: Elem, special: Option<Room>, picks: seq<RoomPick>, ed: Edition,
                    test: OverlapTest, choose: nat -> Pick): (r: Result<Floor, MapError>)
    requires n >= 3 && |picks| > 0
    requires special.Some? ==> RoomInGrid(n, special.value) && WellFormed(special.value)
    requires forall p | p in picks :: ValidPick(n, p, ed)
    ensures r.Success?
    ensures |r.value.rooms| > 0 && r.value.toReach == []
    ensures special.Some? ==> r.value.rooms[0] == special.value
    ensures r.value.index == map[hero := Center(r.value.rooms[0])] && r.value.order == [hero]
    ensures Consistent(r.value)
  {
    var f0 := GenerateRooms(Blank(n, hero), special, picks, ed, test);
    var f1 := ReachAllRooms(f0, choose);
    FirstRoomGround(f0, f1);
    PlaceHero(f1, hero, Center(f1.rooms[0]));
    Put(f1, Center(f1.rooms[0]), hero)
  }

  /** The first reached room is the first generated one, and its centre is
      still ground once the corridors are dug. */
  lemma FirstRoomGround(f0: Floor, f1: Floor)
    requires |f0.toReach| > 0 && f0.rooms == [] && AllFit(f0.size, f0.toReach)
    requires forall r, c | r in f0.toReach && Contains(r, c) :: At(f0, c) == Ground
    requires f0.rooms + [f0.toReach[0]] <= f1.rooms && f1.size == f0.size
    requires forall c :: At(f1, c) == At(f0, c) || At(f1, c) == Ground
    ensures |f1.rooms| > 0 && f1.rooms[0] == f0.toReach[0]
    ensures InGrid(f1.size, Center(f1.rooms[0])) && At(f1, Center(f1.rooms[0])) == Ground
  {
    assert (f0.rooms + [f0.toReach[0]])[0] == f0.toReach[0];
    var home := f0.toReach[0];
    CenterInside(home);
    assert At(f0, Center(home)) == Ground;
  }

  /** Putting the hero on a ground cell of a floor without elements succeeds
      and leaves the hero as the only element. */
  lemma PlaceHero(f: Floor, hero: Elem, c: Coord)
    requires Unpopulated(f) && InGrid(f.size, c) && At(f, c) == Ground
    ensures Put(f, c, hero).Success?
    ensures Put(f, c, hero).value.index == map[hero := c] && Put(f, c, hero).value.order == [hero]
    ensures Consistent(Put(f, c, hero).value)
  {
    UnpopulatedConsistent(f);
  }
}
