/** Map coordinates (`Coord` in both game files) with their vector arithmetic.
    Euclidean distances are only ever compared with one another or with a
    constant, so the model works with exact squared distances instead. */
module Geometry {

  datatype Coord = Coord(x: int, y: int)

  function Add(a: Coord, b: Coord): Coord { Coord(a.x + b.x, a.y + b.y) }

  function Sub(a: Coord, b: Coord): Coord { Coord(a.x - b.x, a.y - b.y) }

  /** The source's `sign`: 1 for a positive argument and -1 otherwise (zero included). */
  function Sign(v: int): (s: int)
    ensures s == 1 || s == -1
    ensures v > 0 <==> s == 1
  {
    if v > 0 then 1 else -1
  }

  function Abs(v: int): nat { if v < 0 then -v else v }

  /** Squared Euclidean distance: `a.distance(b) < b'.distance(c)` holds exactly
      when the squared distances compare the same way, since sqrt is monotone. */
  function SqDist(a: Coord, b: Coord): nat
  {
    var d := Sub(a, b);
    d.x * d.x + d.y * d.y
  }

  /** `v` lies between `p` and `q`, both included. */
  predicate Within(v: int, p: int, q: int)
  {
    (p <= v <= q) || (q <= v <= p)
  }

  /** The square grid `0 <= x, y < n` of a floor of size `n`. */
  predicate InGrid(n: int, c: Coord)
  {
    0 <= c.x < n && 0 <= c.y < n
  }

  /** `a - b` undoes `+ b`. */
  lemma SubAddInverse(a: Coord, b: Coord)
    ensures Sub(Add(a, b), b) == a
    ensures Add(Sub(a, b), b) == a
  {
  }

  /** The distance is symmetric and zero exactly at the point itself. */
  lemma SqDistBasics(a: Coord, b: Coord)
    ensures SqDist(a, b) == SqDist(b, a)
    ensures SqDist(a, b) == 0 <==> a == b
  {
    var d := Sub(a, b);
    if d.x != 0 {
      assert d.x * d.x > 0;
    }
    if d.y != 0 {
      assert d.y * d.y > 0;
    }
  }

  /** Squares compare as absolute values do. */
  lemma SquareMonotone(a: int, b: int)
    ensures Abs(a) < Abs(b) <==> a * a < b * b
  {
    SquareOfAbs(a);
    SquareOfAbs(b);
    if Abs(a) < Abs(b) {
      SquareStrict(Abs(a), Abs(b));
    } else {
      SquareWeak(Abs(b), Abs(a));
    }
  }

  lemma SquareOfAbs(a: int)
    ensures a * a == Abs(a) * Abs(a)
  {
    if a < 0 {
      assert a * a == (-a) * (-a);
    }
  }

  lemma SquareStrict(x: int, y: int)
    requires 0 <= x < y
    ensures x * x < y * y
  {
    assert x * x <= x * y;
    assert x * y < y * y;
  }

  lemma SquareWeak(x: int, y: int)
    requires 0 <= x <= y
    ensures x * x <= y * y
  {
    assert x * x <= x * y;
    assert x * y <= y * y;
  }

  /** One unit step along an axis towards zero shrinks the square. */
  lemma StepShrinksSquare(a: int, s: int)
    requires s == 1 || s == -1
    requires a * s < 0
    ensures (a + s) * (a + s) < a * a
  {
    assert (a + s) * (a + s) == a * a + 2 * a * s + s * s;
  }
}
