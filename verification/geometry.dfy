/** The optional value the Python code expresses with `None`. */
module Optional {
  datatype Option<T> = None | Some(value: T)
}

/**
 * Points and axis-aligned rectangles in the plane, shared by both indexes.
 *
 * Coordinates are mathematical reals: the floating-point rounding of the
 * original (for instance in `w/2`) is not modelled.  Distances are compared
 * through their squares, so no square root is needed: for non-negative a and
 * b, a < b exactly when a*a < b*b.
 */
module Geometry {

  /** A 2-D point (x, y). The KD-tree's list points `[x, y]` are the same thing. */
  datatype Point = Point(x: real, y: real)

  /** Coordinate `axis` of a point, as `point[axis]` on a two-element list. */
  function Coord(p: Point, axis: int): real
    requires 0 <= axis < 2
  {
    if axis == 0 then p.x else p.y
  }

  function Sq(a: real): (r: real)
    ensures r >= 0.0
  {
    a * a
  }

  /** The square of the Euclidean distance between two points. */
  function SqDist(a: Point, b: Point): (d: real)
    ensures d >= 0.0
  {
    Sq(a.x - b.x) + Sq(a.y - b.y)
  }

  lemma SqDistSymmetric(a: Point, b: Point)
    ensures SqDist(a, b) == SqDist(b, a)
  {
    assert Sq(a.x - b.x) == Sq(b.x - a.x);
    assert Sq(a.y - b.y) == Sq(b.y - a.y);
  }

  /** For reals on the same side of zero, the one farther from zero has the larger square. */
  lemma SqMonotone(a: real, b: real)
    requires 0.0 <= a <= b || b <= a <= 0.0
    ensures Sq(a) <= Sq(b)
  {
    if 0.0 <= a <= b {
      SqMonotoneNonNegative(a, b);
    } else {
      SqMonotoneNonNegative(-a, -b);
      assert Sq(-a) == Sq(a) && Sq(-b) == Sq(b);
    }
  }

  lemma SqMonotoneNonNegative(a: real, b: real)
    requires 0.0 <= a <= b
    ensures Sq(a) <= Sq(b)
  {
    calc {
      a * a;
    <= { MulLeftMonotone(a, a, b); }
      a * b;
    == b * a;
    <= { MulLeftMonotone(b, a, b); }
      b * b;
    }
  }

  lemma MulLeftMonotone(c: real, a: real, b: real)
    requires 0.0 <= c && a <= b
    ensures c * a <= c * b
  {
    assert c * b - c * a == c * (b - a);
  }

  /** Between -1 and 1 the fourth power does not exceed the square: (d*d)*(d*d) <= d*d. */
  lemma FourthPowerBelowSquare(d: real)
    requires -1.0 <= d <= 1.0
    ensures Sq(Sq(d)) <= Sq(d)
  {
    if d >= 0.0 {
      SqMonotone(d, 1.0);
    } else {
      SqMonotone(d, -1.0);
    }
    var s := Sq(d);
    MulLeftMonotone(s, s, 1.0);
    assert s * s <= s * 1.0;
    assert s * 1.0 == s;
    assert Sq(s) == s * s;
  }

  /**
   * Rectangle with central point (cx, cy), width w and height h.  Its sides
   * are cx - w/2 (west), cx + w/2 (east), cy - h/2 (north) and cy + h/2
   * (south); "north" is the side with the smaller y.
   */
  datatype Rect = Rect(cx: real, cy: real, w: real, h: real)
  {
    function West(): real { cx - w / 2.0 }
    function East(): real { cx + w / 2.0 }
    function North(): real { cy - h / 2.0 }
    function South(): real { cy + h / 2.0 }

    /** Half-open containment: the west and north sides belong to the rectangle, the east and south ones do not. */
    predicate Contains(p: Point) {
      p.x >= West() && p.x < East() && p.y >= North() && p.y < South()
    }

    /** Closed overlap test: false only when `other` lies strictly beyond one side of this rectangle. */
    predicate Intersects(other: Rect) {
      !(other.West() > East() || other.East() < West() ||
        other.North() > South() || other.South() < North())
    }

    /** The four quadrants a dividing quadtree node gives its children: half the width and half the height each. */
    function NorthWest(): Rect {
      var w2, h2 := w / 2.0, h / 2.0;
      Rect(cx - w2 / 2.0, cy - h2 / 2.0, w2, h2)
    }
    function NorthEast(): Rect {
      var w2, h2 := w / 2.0, h / 2.0;
      Rect(cx + w2 / 2.0, cy - h2 / 2.0, w2, h2)
    }
    function SouthEast(): Rect {
      var w2, h2 := w / 2.0, h / 2.0;
      Rect(cx + w2 / 2.0, cy + h2 / 2.0, w2, h2)
    }
    function SouthWest(): Rect {
      var w2, h2 := w / 2.0, h / 2.0;
      Rect(cx - w2 / 2.0, cy + h2 / 2.0, w2, h2)
    }

    /** How many of the four quadrants contain `p`. */
    function QuadrantsContaining(p: Point): (n: nat)
      ensures n <= 4
    {
      (if NorthWest().Contains(p) then 1 else 0) +
      (if NorthEast().Contains(p) then 1 else 0) +
      (if SouthEast().Contains(p) then 1 else 0) +
      (if SouthWest().Contains(p) then 1 else 0)
    }
  }

  /** `Intersects` does not depend on which rectangle asks. */
  lemma IntersectsSymmetric(a: Rect, b: Rect)
    ensures a.Intersects(b) == b.Intersects(a)
  {
  }

  /**
   * Two rectangles that share a point intersect.  This is what makes it sound
   * for a range query to skip a node whose boundary misses the range.
   */
  lemma CommonPointIntersects(a: Rect, b: Rect, p: Point)
    requires a.Contains(p) && b.Contains(p)
    ensures a.Intersects(b)
  {
  }

  /**
   * The quadrants tile their rectangle: a point of the rectangle lies in
   * exactly one quadrant (a point on a shared edge included), and a point of
   * a quadrant lies in the rectangle.
   */
  lemma QuadrantsTile(r: Rect, p: Point)
    ensures r.Contains(p) ==> r.QuadrantsContaining(p) == 1
    ensures r.QuadrantsContaining(p) > 0 ==> r.Contains(p)
  {
    assert r.NorthWest().West() == r.West() && r.NorthWest().East() == r.cx;
    assert r.NorthEast().West() == r.cx && r.NorthEast().East() == r.East();
    assert r.SouthWest().West() == r.West() && r.SouthWest().East() == r.cx;
    assert r.SouthEast().West() == r.cx && r.SouthEast().East() == r.East();
    assert r.NorthWest().North() == r.North() && r.NorthWest().South() == r.cy;
    assert r.NorthEast().North() == r.North() && r.NorthEast().South() == r.cy;
    assert r.SouthWest().North() == r.cy && r.SouthWest().South() == r.South();
    assert r.SouthEast().North() == r.cy && r.SouthEast().South() == r.South();
  }
}
