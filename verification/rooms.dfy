/** Rectangular rooms (`Room`): an inclusive box between corners `c1` and `c2`,
    the random room draw `Map.randRoom`, and the overlap tests used by the
    dungeon generator. */
module Rooms {
  import opened Geometry
  import opened Editions

  datatype Room = Room(c1: Coord, c2: Coord)

  /** `c1` is the top-left corner and `c2` the bottom-right one. */
  predicate WellFormed(r: Room)
  {
    r.c1.x <= r.c2.x && r.c1.y <= r.c2.y
  }

  /** `coord in room`. */
  predicate Contains(r: Room, c: Coord)
  {
    r.c1.x <= c.x <= r.c2.x && r.c1.y <= c.y <= r.c2.y
  }

  /** Every cell of the room lies on a grid of size `n`. */
  predicate RoomInGrid(n: int, r: Room)
  {
    InGrid(n, r.c1) && InGrid(n, r.c2)
  }

  /** The set of cells covered by the room. */
  function Cells(r: Room): (s: set<Coord>)
    ensures forall c :: c in s <==> Contains(r, c)
  {
    set x, y | r.c1.x <= x <= r.c2.x && r.c1.y <= y <= r.c2.y :: Coord(x, y)
  }

  /** `Room.center`: the midpoint, rounded down on each axis (Python `//`,
      which agrees with Dafny's division for the positive divisor 2). */
  function Center(r: Room): Coord
  {
    Coord((r.c1.x + r.c2.x) / 2, (r.c1.y + r.c2.y) / 2)
  }

  /** The center of a well-formed room lies inside the room; this is what makes
      every corridor dug towards a pending room reach it. */
  lemma CenterInside(r: Room)
    requires WellFormed(r)
    ensures Contains(r, Center(r))
  {
  }

  /** `Room.intersect` as written: one of this room's four corners lies in
      `other`, or `other`'s top-left corner lies in this room. Whatever it
      flags between well-formed rooms does overlap. */
  function Intersect(self: Room, other: Room): (r: bool)
    ensures r && WellFormed(self) && WellFormed(other) ==> Overlaps(self, other)
  {
    var sc3 := Coord(self.c2.x, self.c1.y);
    var sc4 := Coord(self.c1.x, self.c2.y);
    Contains(other, self.c1) || Contains(other, self.c2) || Contains(other, sc3)
      || Contains(other, sc4) || Contains(self, other.c1)
  }

  /** The exact overlap test of two boxes: they are not separated on either axis. */
  predicate Overlaps(a: Room, b: Room)
  {
    !(a.c2.x < b.c1.x || b.c2.x < a.c1.x || a.c2.y < b.c1.y || b.c2.y < a.c1.y)
  }

  /** `Overlaps` says exactly that the two rooms share a cell. */
  lemma OverlapsIffSharedCell(a: Room, b: Room)
    requires WellFormed(a) && WellFormed(b)
    ensures Overlaps(a, b) <==> exists c :: Contains(a, c) && Contains(b, c)
  {
    if Overlaps(a, b) {
      var x := if a.c1.x < b.c1.x then b.c1.x else a.c1.x;
      var y := if a.c1.y < b.c1.y then b.c1.y else a.c1.y;
      assert Contains(a, Coord(x, y)) && Contains(b, Coord(x, y));
    }
  }

  /** Two rooms that `randRoom` can draw on a 20x20 floor and that cross each
      other like a plus sign: they share the cell (3, 5), yet no corner of either
      lies in the other, so the corner test lets both into the dungeon. */
  lemma IntersectMissesCrossing()
    ensures var a := RandRoom(20, RoomPick(0, 5, 8, 4), Graphical);
            var b := RandRoom(20, RoomPick(3, 2, 4, 8), Graphical);
            && !Intersect(a, b) && !Intersect(b, a)
            && Overlaps(a, b)
            && Contains(a, Coord(3, 5)) && Contains(b, Coord(3, 5))
  {
  }

  /** The raw draws of `randRoom`: the top-left corner and the two side offsets. */
  datatype RoomPick = RoomPick(x: int, y: int, dx: int, dy: int)

  /** Smallest side offset `randRoom` draws: `randint(3, 8)` in the terminal game,
      `randint(4, 8)` in the graphical one. */
  function MinOffset(ed: Edition): int
  {
    match ed
    case Terminal => 3
    case Graphical => 4
  }

  /** The draws `random.randint` can produce for `randRoom` on a floor of size `n`. */
  predicate ValidPick(n: int, p: RoomPick, ed: Edition)
  {
    && 0 <= p.x <= n - 3 && 0 <= p.y <= n - 3
    && MinOffset(ed) <= p.dx <= 8 && MinOffset(ed) <= p.dy <= 8
  }

  /** `Map.randRoom`: the far corner is pushed right/down by the drawn offset and
      clipped to the last row and column. The room always fits on the floor and
      is at least two cells wide and high. */
  function RandRoom(n: int, p: RoomPick, ed: Edition): (r: Room)
    requires n >= 3 && ValidPick(n, p, ed)
    ensures 0 <= r.c1.x <= n - 3 && 0 <= r.c1.y <= n - 3
    ensures r.c1.x < r.c2.x <= n - 1 && r.c1.y < r.c2.y <= n - 1
    ensures r.c2.x - r.c1.x <= 8 && r.c2.y - r.c1.y <= 8
    ensures WellFormed(r) && RoomInGrid(n, r)
  {
    var c1 := Coord(p.x, p.y);
    var x2 := if c1.x + p.dx < n - 1 then c1.x + p.dx else n - 1;
    var y2 := if c1.y + p.dy < n - 1 then c1.y + p.dy else n - 1;
    Room(c1, Coord(x2, y2))
  }
}
