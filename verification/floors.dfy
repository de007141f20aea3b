/** The map of one dungeon floor (`Map`): a square grid of cells, each a wall
    (`Map.empty`), walkable ground (`Map.ground`) or an element standing on it,
    together with the reverse index `_elem` from element to coordinate. */
module Floors {
  import opened Wrappers
  import opened Geometry
  import opened Rooms

  /** What a room object does when the hero walks into it. */
  datatype Usage = Upstair | Downstair | Merchant

  /** The class of a game element, as the map's `isinstance` tests see it. */
  datatype Kind = HeroKind | MonsterKind | ItemKind | RoomObjectKind(usage: Usage)

  /** A game element. Python compares elements by identity; `id` plays that role. */
  datatype Elem = Elem(id: nat, kind: Kind)

  predicate IsCreature(e: Elem)
  {
    e.kind == HeroKind || e.kind == MonsterKind
  }

  datatype Cell = Wall | Ground | Holds(e: Elem)

  /** The exceptions the map raises: `IndexError` for an off-grid coordinate,
      `ValueError` for a cell that is not ground, `KeyError` for an element
      placed twice, for one that is not placed, and for removing a cell that
      holds no placed element. */
  datatype MapError = OutOfMap | IncorrectCell | AlreadyPlaced | NotPlaced | NoElement

  /** `_mat` is `cells` (a coordinate missing from it is a wall), `_elem` is
      `index`, whose key insertion order is `order`; `_rooms` and
      `_roomsToReach` are the generator's reached and pending rooms. */
  datatype Floor = Floor(
    size: nat,
    cells: map<Coord, Cell>,
    index: map<Elem, Coord>,
    order: seq<Elem>,
    rooms: seq<Room>,
    toReach: seq<Room>,
    hero: Elem)

  /** The cell stored at `c`. */
  function At(f: Floor, c: Coord): Cell
  {
    if c in f.cells then f.cells[c] else Wall
  }

  /** A fresh floor before generation: walls everywhere and nothing placed. */
  function Blank(n: nat, hero: Elem): (f: Floor)
    ensures forall c :: At(f, c) == Wall
    ensures f.index == map[] && f.rooms == [] && f.toReach == []
    ensures Consistent(f)
  {
    Floor(n, map[], map[], [], [], [], hero)
  }

  predicate NoDup(s: seq<Elem>)
  {
    forall i, j | 0 <= i < j < |s| :: s[i] != s[j]
  }

  /** `s` with `x` taken out. */
  function Without(s: seq<Elem>, x: Elem): (r: seq<Elem>)
    ensures forall y :: y in r <==> y in s && y != x
    ensures NoDup(s) ==> NoDup(r)
    ensures |r| <= |s|
  {
    if s == [] then []
    else if s[0] == x then Without(s[1..], x)
    else
      var rest := Without(s[1..], x);
      assert NoDup(s) ==> s[0] !in s[1..] && NoDup(s[1..]);
      assert NoDup(s) ==> s[0] !in rest;
      [s[0]] + rest
  }

  /** The grid and the index describe the same placement: only grid cells are
      stored, every indexed element stands on the cell the index names, every
      element on the grid is indexed at its own cell, and `order` lists each
      indexed element once. */
  ghost predicate Consistent(f: Floor)
  {
    && (forall c | c in f.cells :: InGrid(f.size, c))
    && (forall e | e in f.index :: At(f, f.index[e]) == Holds(e))
    && (forall c | c in f.cells && f.cells[c].Holds? ::
          f.cells[c].e in f.index && f.index[f.cells[c].e] == c)
    && NoDup(f.order)
    && (forall e :: e in f.order <==> e in f.index)
  }

  /** Cells other than those in `keep` are the same in `f` and `g`. */
  ghost predicate CellsAgreeOutside(f: Floor, g: Floor, keep: set<Coord>)
  {
    forall d | d !in keep :: At(g, d) == At(f, d)
  }

  /** Index entries of elements other than `o` are the same in `f` and `g`. */
  ghost predicate IndexAgreesOutside(f: Floor, g: Floor, o: Elem)
  {
    && (forall e | e != o :: e in g.index <==> e in f.index)
    && (forall e | e != o && e in f.index :: g.index[e] == f.index[e])
  }

  /** The generator's state and the floor's identity are untouched. */
  predicate SameLayout(f: Floor, g: Floor)
  {
    g.size == f.size && g.rooms == f.rooms && g.toReach == f.toReach && g.hero == f.hero
  }

  /** `Map.put(c, o)`: checks the coordinate, then that the cell is plain
      ground, then that `o` is not placed yet; on success `o` stands on `c` and
      the index says so, and nothing else changes. */
  function Put(f: Floor, c: Coord, o: Elem): (r: Result<Floor, MapError>)
    ensures !InGrid(f.size, c) ==> r == Failure(OutOfMap)
    ensures InGrid(f.size, c) && At(f, c) != Ground ==> r == Failure(IncorrectCell)
    ensures InGrid(f.size, c) && At(f, c) == Ground && o in f.index ==> r == Failure(AlreadyPlaced)
    ensures r.Success? <==> InGrid(f.size, c) && At(f, c) == Ground && o !in f.index
    ensures r.Success? ==>
      && At(r.value, c) == Holds(o) && o in r.value.index && r.value.index[o] == c
      && CellsAgreeOutside(f, r.value, {c})
      && IndexAgreesOutside(f, r.value, o)
      && SameLayout(f, r.value)
    ensures r.Success? && Consistent(f) ==> Consistent(r.value)
  {
    if !InGrid(f.size, c) then Failure(OutOfMap)
    else if At(f, c) != Ground then Failure(IncorrectCell)
    else if o in f.index then Failure(AlreadyPlaced)
    else Success(f.(cells := f.cells[c := Holds(o)], index := f.index[o := c], order := f.order + [o]))
  }

  /** `Map.get` of the terminal game: an off-grid coordinate raises. */
  function GetChecked(f: Floor, c: Coord): (r: Result<Cell, MapError>)
    ensures r.Failure? <==> !InGrid(f.size, c)
    ensures r.Failure? ==> r.error == OutOfMap
  {
    if InGrid(f.size, c) then Success(At(f, c)) else Failure(OutOfMap)
  }

  /** `Map.get` of the graphical game: total, an off-grid coordinate reads as a wall. */
  function GetSafe(f: Floor, c: Coord): (r: Cell)
    ensures !InGrid(f.size, c) ==> r == Wall
  {
    if InGrid(f.size, c) then At(f, c) else Wall
  }

  /** The total `get` agrees with the checked one wherever the latter answers,
      and reads every coordinate it refuses as a wall. */
  lemma GetSafeExtendsGetChecked(f: Floor, c: Coord)
    ensures GetChecked(f, c).Success? ==> GetSafe(f, c) == GetChecked(f, c).value
    ensures GetChecked(f, c).Failure? ==> GetSafe(f, c) == Wall
  {
  }

  /** `Map.pos` of the terminal game: a `KeyError` for an element not placed. */
  function PosChecked(f: Floor, o: Elem): (r: Result<Coord, MapError>)
    ensures r.Success? <==> o in f.index
    ensures r.Success? ==> r.value == f.index[o]
    ensures r.Failure? ==> r.error == NotPlaced
  {
    if o in f.index then Success(f.index[o]) else Failure(NotPlaced)
  }

  /** `Map.pos` of the graphical game: `None` for an element not placed. */
  function PosOpt(f: Floor, o: Elem): (r: Option<Coord>)
    ensures r.Some? <==> o in f.index
    ensures r.Some? ==> r.value == f.index[o]
  {
    if o in f.index then Some(f.index[o]) else None
  }

  /** On a consistent floor, the position lookup and the cell lookup are
      inverse: `o` is at `c` exactly when cell `c` holds `o`. */
  lemma PosIffGet(f: Floor, o: Elem, c: Coord)
    requires Consistent(f)
    ensures PosOpt(f, o) == Some(c) <==> InGrid(f.size, c) && GetSafe(f, c) == Holds(o)
  {
    if PosOpt(f, o) == Some(c) {
      assert At(f, c) == Holds(o);
      assert c in f.cells;
    }
    if InGrid(f.size, c) && GetSafe(f, c) == Holds(o) {
      assert c in f.cells && f.cells[c].Holds?;
    }
  }

  /** `Map.rm(c)`: checks the coordinate, removes the element standing on `c`
      from the index (a `KeyError` when no placed element stands there) and
      turns the cell back into ground. */
  function Rm(f: Floor, c: Coord): (r: Result<Floor, MapError>)
    ensures !InGrid(f.size, c) ==> r == Failure(OutOfMap)
    ensures r.Success? <==> InGrid(f.size, c) && At(f, c).Holds? && At(f, c).e in f.index
    ensures r.Failure? && InGrid(f.size, c) ==> r.error == NoElement
    ensures r.Success? ==>
      && At(r.value, c) == Ground && At(f, c).e !in r.value.index
      && CellsAgreeOutside(f, r.value, {c})
      && IndexAgreesOutside(f, r.value, At(f, c).e)
      && SameLayout(f, r.value)
    ensures r.Success? && Consistent(f) ==> Consistent(r.value)
  {
    if !InGrid(f.size, c) then Failure(OutOfMap)
    else match At(f, c)
      case Holds(e) =>
        if e in f.index then
          Success(f.(cells := f.cells[c := Ground], index := f.index - {e}, order := Without(f.order, e)))
        else Failure(NoElement)
      case _ => Failure(NoElement)
  }

  /** Removing what was just put restores the floor's grid and index. */
  lemma {:induction false} PutThenRm(f: Floor, c: Coord, o: Elem)
    requires Put(f, c, o).Success?
    requires NoDup(f.order) && forall e :: e in f.order <==> e in f.index
    ensures Rm(Put(f, c, o).value, c) == Success(f)
  {
    var g := Put(f, c, o).value;
    assert At(g, c) == Holds(o);
    assert c in f.cells;
    assert g.cells[c := Ground] == f.cells;
    assert g.index - {o} == f.index;
    WithoutAppendAbsent(f.order, o);
  }

  lemma {:induction false} WithoutAppendAbsent(s: seq<Elem>, x: Elem)
    requires x !in s
    ensures Without(s + [x], x) == s
  {
    if s == [] {
    } else {
      assert (s + [x])[1..] == s[1..] + [x];
      WithoutAppendAbsent(s[1..], x);
    }
  }

  /** `Map.move(e, way)` of the terminal game, with the room-object branch of
      the graphical game reduced to its effect on this floor (see `Session`).
      `occupantDies` is what the destination's occupant answers when met by `e`
      (`meet` returning True); it is consulted only when the destination holds
      an element.
        - `e` not placed: the position lookup fails;
        - off-grid or wall destination: nothing changes;
        - ground destination: `e` moves there and its old cell becomes ground;
        - occupied destination: `e` stays put, and the occupant is removed only
          when it dies and is not the hero. */
  function Move(f: Floor, e: Elem, way: Coord, occupantDies: bool): (r: Result<Floor, MapError>)
    requires Consistent(f)
    ensures r.Success? <==> e in f.index
    ensures r.Failure? ==> r.error == NotPlaced
    ensures e in f.index ==>
      var orig := f.index[e];
      var dest := Add(orig, way);
      && (!InGrid(f.size, dest) || At(f, dest) == Wall ==> r == Success(f))
      && (InGrid(f.size, dest) && At(f, dest) == Ground ==>
            && At(r.value, dest) == Holds(e) && At(r.value, orig) == Ground
            && e in r.value.index && r.value.index[e] == dest
            && CellsAgreeOutside(f, r.value, {orig, dest})
            && IndexAgreesOutside(f, r.value, e)
            && r.value.order == f.order)
      && (InGrid(f.size, dest) && At(f, dest).Holds? ==>
            var occupant := At(f, dest).e;
            && (occupantDies && occupant != f.hero ==>
                  && At(r.value, dest) == Ground && occupant !in r.value.index
                  && CellsAgreeOutside(f, r.value, {dest})
                  && IndexAgreesOutside(f, r.value, occupant))
            && (!occupantDies || occupant == f.hero ==> r == Success(f)))
    ensures r.Success? ==> SameLayout(f, r.value) && Consistent(r.value)
  {
    if e !in f.index then Failure(NotPlaced)
    else
      var orig := f.index[e];
      var dest := Add(orig, way);
      if !InGrid(f.size, dest) then Success(f)
      else match At(f, dest)
        case Ground => Success(Relocate(f, e, dest))
        case Wall => Success(f)
        case Holds(occupant) =>
          if occupantDies && occupant != f.hero then Rm(f, dest) else Success(f)
  }

  /** The ground branch of `Map.move`: `e` leaves its cell, which becomes
      ground, and occupies `dest`. */
  function Relocate(f: Floor, e: Elem, dest: Coord): (g: Floor)
    requires Consistent(f) && e in f.index
    requires InGrid(f.size, dest) && At(f, dest) == Ground
    ensures At(g, dest) == Holds(e) && At(g, f.index[e]) == Ground
    ensures e in g.index && g.index[e] == dest
    ensures CellsAgreeOutside(f, g, {f.index[e], dest})
    ensures IndexAgreesOutside(f, g, e)
    ensures g.order == f.order
    ensures SameLayout(f, g) && Consistent(g)
  {
    f.(cells := f.cells[f.index[e] := Ground][dest := Holds(e)], index := f.index[e := dest])
  }

  /** A step onto ground is undone by the opposite step. */
  lemma MoveUndo(f: Floor, e: Elem, way: Coord, dies: bool, diesBack: bool)
    requires Consistent(f) && e in f.index
    requires InGrid(f.size, Add(f.index[e], way)) && At(f, Add(f.index[e], way)) == Ground
    ensures Move(f, e, way, dies).Success?
    ensures Move(Move(f, e, way, dies).value, e, Sub(Coord(0, 0), way), diesBack) == Success(f)
  {
    var orig := f.index[e];
    var dest := Add(orig, way);
    var g := Move(f, e, way, dies).value;
    assert Add(dest, Sub(Coord(0, 0), way)) == orig;
    assert At(f, orig) == Holds(e);
    assert orig in f.cells && dest in f.cells;
    assert g.cells[dest := Ground][orig := Holds(e)] == f.cells;
    assert g.index[e := orig] == f.index;
  }
}
