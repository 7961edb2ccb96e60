/**
 * The region quadtree of Quadtree.py, as values.
 *
 * A node has a boundary rectangle, a capacity (`max_points`), the points it
 * stores itself and, once divided, four children for its north-west,
 * north-east, south-east and south-west quadrants.  A full node does not hand
 * its own points down when it divides: only points inserted later go to the
 * children.
 *
 * `QTree` is the value a `Quadtree` object stands for; the class in
 * quadtree_class.dfy updates its fields in place and proves each of its
 * methods against the functions here.
 */
module QuadTree {
  import opened Geometry
  import opened Sorting
  import opened Optional

  datatype QTree =
    | Leaf(boundary: Rect, cap: int, points: seq<Point>)
    | Divided(boundary: Rect, cap: int, points: seq<Point>, nw: QTree, ne: QTree, se: QTree, sw: QTree)

  function Max(a: nat, b: nat): nat {
    if a < b then b else a
  }

  /** Every point stored in the subtree: the node's own, then those of nw, ne, se and sw. */
  function Flatten(t: QTree): seq<Point> {
    match t
    case Leaf(_, _, ps) => ps
    case Divided(_, _, ps, nw, ne, se, sw) => ps + Flatten(nw) + Flatten(ne) + Flatten(se) + Flatten(sw)
  }

  /** The children of a divided node are the quadrants of its boundary, with the same capacity. */
  ghost predicate ChildrenFit(t: QTree)
    requires t.Divided?
  {
    t.nw.boundary == t.boundary.NorthWest() && t.ne.boundary == t.boundary.NorthEast() &&
    t.se.boundary == t.boundary.SouthEast() && t.sw.boundary == t.boundary.SouthWest() &&
    t.nw.cap == t.cap && t.ne.cap == t.cap && t.se.cap == t.cap && t.sw.cap == t.cap
  }

  /**
   * The invariant the operations keep: a capacity of at least 1, at most
   * that many points per node, each inside its node's boundary, and a node
   * divided only once it is full.
   */
  ghost predicate WellFormed(t: QTree) {
    t.cap >= 1 && |t.points| <= t.cap &&
    (forall p | p in t.points :: t.boundary.Contains(p)) &&
    (t.Divided? ==>
      |t.points| == t.cap && ChildrenFit(t) &&
      WellFormed(t.nw) && WellFormed(t.ne) && WellFormed(t.se) && WellFormed(t.sw))
  }

  // ---------------------------------------------------------------------
  // __init__ and divide
  // ---------------------------------------------------------------------

  /** `Quadtree(boundary, max_points)`: no points, not divided. */
  function EmptyTree(boundary: Rect, cap: int): (t: QTree)
    ensures Flatten(t) == []
    ensures cap >= 1 ==> WellFormed(t)
  {
    Leaf(boundary, cap, [])
  }

  /**
   * `divide`: four empty children, one per quadrant of the boundary, with
   * the node's capacity.  The node keeps its points and nothing moves.
   */
  function DivideTree(t: QTree): (r: QTree)
    requires t.Leaf?
    ensures r.Divided? && r.boundary == t.boundary && r.cap == t.cap && r.points == t.points
    ensures ChildrenFit(r) && Flatten(r) == Flatten(t)
    ensures t.cap >= 1 ==> Reach(r) == 1
  {
    Divided(t.boundary, t.cap, t.points,
            EmptyTree(t.boundary.NorthWest(), t.cap), EmptyTree(t.boundary.NorthEast(), t.cap),
            EmptyTree(t.boundary.SouthEast(), t.cap), EmptyTree(t.boundary.SouthWest(), t.cap))
  }

  /** Dividing a full well-formed leaf gives a well-formed tree. */
  lemma DivideKeepsWellFormed(t: QTree)
    requires t.Leaf? && WellFormed(t) && |t.points| == t.cap
    ensures WellFormed(DivideTree(t))
  {
  }

  // ---------------------------------------------------------------------
  // insert
  // ---------------------------------------------------------------------

  /** The tree after an insertion, and what `insert` returned. */
  datatype Inserted = Inserted(tree: QTree, ok: bool)

  /**
   * How many levels an insertion can still descend: 0 at a leaf with room,
   * 1 at a full leaf (it divides into empty children first), one more than
   * its deepest child at a divided node.
   */
  function Reach(t: QTree): nat {
    match t
    case Leaf(_, cap, ps) => if |ps| >= cap then 1 else 0
    case Divided(_, _, _, nw, ne, se, sw) =>
      1 + Max(Max(Reach(nw), Reach(ne)), Max(Reach(se), Reach(sw)))
  }

  /**
   * `insert(point)`: false for a point outside the boundary; otherwise
   * append it while the node has room; otherwise divide the node if it is
   * not divided yet and offer the point to the children.
   */
  function InsertTree(t: QTree, p: Point): (r: Inserted)
    requires WellFormed(t)
    ensures r.tree.boundary == t.boundary && r.tree.cap == t.cap
    decreases Reach(t), 1
  {
    if !t.boundary.Contains(p) then Inserted(t, false)
    else if |t.points| < t.cap then
      assert t.Leaf?;
      Inserted(Leaf(t.boundary, t.cap, t.points + [p]), true)
    else if t.Leaf? then
      DivideKeepsWellFormed(t);
      OfferToChildren(DivideTree(t), p)
    else OfferToChildren(t, p)
  }

  /**
   * `self.ne.insert(point) or self.nw.insert(point) or self.se.insert(point)
   * or self.sw.insert(point)`: the first child that takes the point stores
   * it and the later ones are not asked.
   */
  function OfferToChildren(d: QTree, p: Point): (r: Inserted)
    requires d.Divided? && WellFormed(d)
    ensures r.tree.Divided? && r.tree.boundary == d.boundary && r.tree.cap == d.cap && r.tree.points == d.points
    decreases Reach(d), 0
  {
    var ne := InsertTree(d.ne, p);
    if ne.ok then Inserted(d.(ne := ne.tree), true)
    else
      var nw := InsertTree(d.nw, p);
      if nw.ok then Inserted(d.(ne := ne.tree, nw := nw.tree), true)
      else
        var se := InsertTree(d.se, p);
        if se.ok then Inserted(d.(ne := ne.tree, nw := nw.tree, se := se.tree), true)
        else
          var sw := InsertTree(d.sw, p);
          Inserted(d.(ne := ne.tree, nw := nw.tree, se := se.tree, sw := sw.tree), sw.ok)
  }

  /**
   * With a capacity of at least 1, an insertion succeeds exactly when the
   * boundary contains the point: the quadrants tile the boundary, so some
   * child takes a point its parent cannot hold.  A failed insertion leaves
   * the tree as it was.
   */
  lemma {:induction false} InsertOk(t: QTree, p: Point)
    requires WellFormed(t)
    ensures var r := InsertTree(t, p);
      (r.ok <==> t.boundary.Contains(p)) && (!r.ok ==> r.tree == t)
    decreases Reach(t), 1
  {
    if t.boundary.Contains(p) && |t.points| >= t.cap {
      if t.Leaf? {
        DivideKeepsWellFormed(t);
        OfferOk(DivideTree(t), p);
      } else {
        OfferOk(t, p);
      }
    }
  }

  lemma {:induction false} OfferOk(d: QTree, p: Point)
    requires d.Divided? && WellFormed(d) && d.boundary.Contains(p)
    ensures OfferToChildren(d, p).ok
    decreases Reach(d), 0
  {
    InsertOk(d.ne, p);
    InsertOk(d.nw, p);
    InsertOk(d.se, p);
    InsertOk(d.sw, p);
    QuadrantsTile(d.boundary, p);
  }

  /** Insertion keeps the tree well formed. */
  lemma {:induction false} InsertKeepsWellFormed(t: QTree, p: Point)
    requires WellFormed(t)
    ensures WellFormed(InsertTree(t, p).tree)
    decreases Reach(t), 1
  {
    if t.boundary.Contains(p) && |t.points| >= t.cap {
      if t.Leaf? {
        DivideKeepsWellFormed(t);
        OfferKeepsWellFormed(DivideTree(t), p);
      } else {
        OfferKeepsWellFormed(t, p);
      }
    }
  }

  lemma {:induction false} OfferKeepsWellFormed(d: QTree, p: Point)
    requires d.Divided? && WellFormed(d)
    ensures WellFormed(OfferToChildren(d, p).tree)
    decreases Reach(d), 0
  {
    InsertKeepsWellFormed(d.ne, p);
    InsertKeepsWellFormed(d.nw, p);
    InsertKeepsWellFormed(d.se, p);
    InsertKeepsWellFormed(d.sw, p);
  }

  /** A successful insertion stores the point once more in the subtree; nothing else is added or lost. */
  lemma {:induction false} InsertAddsPoint(t: QTree, p: Point)
    requires WellFormed(t)
    ensures var r := InsertTree(t, p);
      multiset(Flatten(r.tree)) == multiset(Flatten(t)) + if r.ok then multiset{p} else multiset{}
    decreases Reach(t), 1
  {
    if t.boundary.Contains(p) && |t.points| >= t.cap {
      if t.Leaf? {
        DivideKeepsWellFormed(t);
        OfferAddsPoint(DivideTree(t), p);
      } else {
        OfferAddsPoint(t, p);
      }
    }
  }

  lemma {:induction false} OfferAddsPoint(d: QTree, p: Point)
    requires d.Divided? && WellFormed(d)
    ensures var r := OfferToChildren(d, p);
      multiset(Flatten(r.tree)) == multiset(Flatten(d)) + if r.ok then multiset{p} else multiset{}
    decreases Reach(d), 0
  {
    var r := OfferToChildren(d, p);
    var ne := InsertTree(d.ne, p);
    InsertAddsPoint(d.ne, p);
    if ne.ok {
      BelowReplaceNe(d, ne.tree, multiset{p});
      ChildrenAdd(d, r.tree, multiset{p});
      return;
    }
    InsertOk(d.ne, p);
    var nw := InsertTree(d.nw, p);
    InsertAddsPoint(d.nw, p);
    if nw.ok {
      assert r.tree == d.(nw := nw.tree);
      BelowReplaceNw(d, nw.tree, multiset{p});
      ChildrenAdd(d, r.tree, multiset{p});
      return;
    }
    InsertOk(d.nw, p);
    var se := InsertTree(d.se, p);
    InsertAddsPoint(d.se, p);
    if se.ok {
      assert r.tree == d.(se := se.tree);
      BelowReplaceSe(d, se.tree, multiset{p});
      ChildrenAdd(d, r.tree, multiset{p});
      return;
    }
    InsertOk(d.se, p);
    var sw := InsertTree(d.sw, p);
    InsertAddsPoint(d.sw, p);
    var m := if sw.ok then multiset{p} else multiset{};
    assert r.tree == d.(sw := sw.tree);
    BelowReplaceSw(d, sw.tree, m);
    ChildrenAdd(d, r.tree, m);
  }

  // Replacing one child by a tree that stores `m` more points adds `m` below the node.
  // There is one lemma per child because the update `d.(ne := c)` names its field;
  // the four are alike, and each keeps the proof about its own child small.

  lemma BelowReplaceNe(d: QTree, c: QTree, m: multiset<Point>)
    requires d.Divided? && multiset(Flatten(c)) == multiset(Flatten(d.ne)) + m
    ensures Below(d.(ne := c)) == Below(d) + m
  {
  }

  lemma BelowReplaceNw(d: QTree, c: QTree, m: multiset<Point>)
    requires d.Divided? && multiset(Flatten(c)) == multiset(Flatten(d.nw)) + m
    ensures Below(d.(nw := c)) == Below(d) + m
  {
  }

  lemma BelowReplaceSe(d: QTree, c: QTree, m: multiset<Point>)
    requires d.Divided? && multiset(Flatten(c)) == multiset(Flatten(d.se)) + m
    ensures Below(d.(se := c)) == Below(d) + m
  {
  }

  lemma BelowReplaceSw(d: QTree, c: QTree, m: multiset<Point>)
    requires d.Divided? && multiset(Flatten(c)) == multiset(Flatten(d.sw)) + m
    ensures Below(d.(sw := c)) == Below(d) + m
  {
  }

  /** Two divided nodes with the same own points differ in their stored points by what their children differ by. */
  lemma ChildrenAdd(d: QTree, u: QTree, m: multiset<Point>)
    requires d.Divided? && u.Divided? && u.points == d.points
    requires Below(u) == Below(d) + m
    ensures multiset(Flatten(u)) == multiset(Flatten(d)) + m
  {
    FlattenParts(d);
    FlattenParts(u);
    assert multiset(d.points) + (Below(d) + m) == multiset(d.points) + Below(d) + m;
  }

  /** The points stored in the children of a divided node. */
  function Below(t: QTree): multiset<Point>
    requires t.Divided?
  {
    multiset(Flatten(t.nw)) + multiset(Flatten(t.ne)) + multiset(Flatten(t.se)) + multiset(Flatten(t.sw))
  }

  lemma FlattenParts(t: QTree)
    requires t.Divided?
    ensures multiset(Flatten(t)) == multiset(t.points) + Below(t)
  {
  }

  /**
   * `u` is `t` with points added and nothing moved: every node keeps its
   * points as a prefix of its new ones, a divided node stays divided, and a
   * leaf that became divided was full and kept exactly its points.
   */
  ghost predicate Grows(t: QTree, u: QTree) {
    u.boundary == t.boundary && u.cap == t.cap && t.points <= u.points &&
    (t.Divided? ==>
      u.Divided? && Grows(t.nw, u.nw) && Grows(t.ne, u.ne) && Grows(t.se, u.se) && Grows(t.sw, u.sw)) &&
    (t.Leaf? && u.Divided? ==> |t.points| == t.cap && u.points == t.points)
  }

  lemma {:induction false} GrowsReflexive(t: QTree)
    ensures Grows(t, t)
  {
    if t.Divided? {
      GrowsReflexive(t.nw);
      GrowsReflexive(t.ne);
      GrowsReflexive(t.se);
      GrowsReflexive(t.sw);
    }
  }

  /** Insertion moves no stored point and divides a node only when it is full. */
  lemma {:induction false} InsertGrows(t: QTree, p: Point)
    requires WellFormed(t)
    ensures Grows(t, InsertTree(t, p).tree)
    decreases Reach(t), 1
  {
    if !t.boundary.Contains(p) {
      GrowsReflexive(t);
    } else if |t.points| >= t.cap && t.Divided? {
      OfferGrows(t, p);
    }
  }

  lemma {:induction false} OfferGrows(d: QTree, p: Point)
    requires d.Divided? && WellFormed(d)
    ensures Grows(d, OfferToChildren(d, p).tree)
    decreases Reach(d), 0
  {
    InsertGrows(d.ne, p);
    InsertGrows(d.nw, p);
    InsertGrows(d.se, p);
    InsertGrows(d.sw, p);
    GrowsReflexive(d.nw);
    GrowsReflexive(d.se);
    GrowsReflexive(d.sw);
  }

  // ---------------------------------------------------------------------
  // query
  // ---------------------------------------------------------------------

  /** The points of `s` that `range` contains, in their order in `s`: the loop over `self.points`. */
  function InRange(s: seq<Point>, range: Rect): (r: seq<Point>)
    ensures |r| <= |s|
  {
    if s == [] then []
    else
      var last := s[|s| - 1];
      assert s == s[..|s| - 1] + [last];
      InRange(s[..|s| - 1], range) + if range.Contains(last) then [last] else []
  }

  /** The selection keeps each point of `s` that the range contains, as often as `s` has it, and nothing else. */
  lemma {:induction false} InRangeCount(s: seq<Point>, range: Rect)
    ensures forall q :: multiset(InRange(s, range))[q] == if range.Contains(q) then multiset(s)[q] else 0
    decreases |s|
  {
    if s != [] {
      var init, last := s[..|s| - 1], s[|s| - 1];
      assert s == init + [last];
      InRangeCount(init, range);
    }
  }

  /** The selection is part of `s` and lies in the range. */
  lemma InRangeSelects(s: seq<Point>, range: Rect)
    ensures multiset(InRange(s, range)) <= multiset(s)
    ensures forall x | x in InRange(s, range) :: x in s && range.Contains(x)
  {
    InRangeCount(s, range);
    forall x | x in InRange(s, range) ensures x in s && range.Contains(x) {
      assert x in multiset(InRange(s, range));
    }
  }

  lemma {:induction false} InRangeAppend(s: seq<Point>, u: seq<Point>, range: Rect)
    ensures InRange(s + u, range) == InRange(s, range) + InRange(u, range)
    decreases |u|
  {
    if u != [] {
      var last := u[|u| - 1];
      assert (s + u)[..|s + u| - 1] == s + u[..|u| - 1];
      InRangeAppend(s, u[..|u| - 1], range);
    } else {
      assert s + u == s;
    }
  }

  /** A range that contains none of the points of `s` selects nothing from it. */
  lemma InRangeNone(s: seq<Point>, range: Rect)
    requires forall q | q in s :: !range.Contains(q)
    ensures InRange(s, range) == []
  {
    InRangeCount(s, range);
    assert multiset(InRange(s, range)) == multiset{};
  }

  /**
   * `query(range)`, with the children's results added to the node's own as
   * the comments of `query` describe: nothing when the boundary misses the
   * range (where the code returns False), else the node's points in range
   * followed by the results of nw, ne, se and sw.
   */
  function QueryTree(t: QTree, range: Rect): (r: seq<Point>)
    ensures t.boundary.Intersects(range) ==> InRange(t.points, range) <= r
  {
    if !t.boundary.Intersects(range) then []
    else
      match t
      case Leaf(_, _, ps) => InRange(ps, range)
      case Divided(_, _, ps, nw, ne, se, sw) =>
        InRange(ps, range) + QueryTree(nw, range) + QueryTree(ne, range) + QueryTree(se, range) + QueryTree(sw, range)
  }

  /** Every point stored in a well-formed subtree lies inside its root's boundary. */
  lemma {:induction false} StoredInside(t: QTree)
    requires WellFormed(t)
    ensures forall q | q in Flatten(t) :: t.boundary.Contains(q)
  {
    if t.Divided? {
      StoredInside(t.nw);
      StoredInside(t.ne);
      StoredInside(t.se);
      StoredInside(t.sw);
      forall q | q in Flatten(t) ensures t.boundary.Contains(q) {
        QuadrantsTile(t.boundary, q);
      }
    }
  }

  /**
   * On a well-formed tree the query returns exactly the stored points that
   * the range contains, each as often as it is stored, in the order of
   * `Flatten`: skipping a subtree whose boundary misses the range loses
   * nothing.
   */
  lemma {:induction false} QueryTreeExact(t: QTree, range: Rect)
    requires WellFormed(t)
    ensures QueryTree(t, range) == InRange(Flatten(t), range)
  {
    if !t.boundary.Intersects(range) {
      StoredInside(t);
      forall q | q in Flatten(t) ensures !range.Contains(q) {
        if range.Contains(q) {
          CommonPointIntersects(t.boundary, range, q);
        }
      }
      InRangeNone(Flatten(t), range);
    } else if t.Divided? {
      QueryTreeExact(t.nw, range);
      QueryTreeExact(t.ne, range);
      QueryTreeExact(t.se, range);
      QueryTreeExact(t.sw, range);
      var ps, fnw, fne, fse, fsw := t.points, Flatten(t.nw), Flatten(t.ne), Flatten(t.se), Flatten(t.sw);
      InRangeAppend(ps + fnw + fne + fse, fsw, range);
      InRangeAppend(ps + fnw + fne, fse, range);
      InRangeAppend(ps + fnw, fne, range);
      InRangeAppend(ps, fnw, range);
    }
  }

  /**
   * The literal `query`: False (here None) when the boundary misses the
   * range, otherwise only this node's own points in range; the results of
   * the children's queries are computed and dropped.
   */
  function QueryLocal(t: QTree, range: Rect): (r: Option<seq<Point>>)
    ensures r.Some? <==> t.boundary.Intersects(range)
    ensures r.Some? ==> |r.value| <= |t.points|
    ensures r.Some? ==> forall q :: multiset(r.value)[q] == if range.Contains(q) then multiset(t.points)[q] else 0
  {
    if !t.boundary.Intersects(range) then None
    else
      InRangeCount(t.points, range);
      Some(InRange(t.points, range))
  }

  /**
   * The literal query loses every point stored below the root: a point in
   * range that a child stores, and the root does not, is missing from its
   * result but present in the accumulated query's.
   */
  lemma QueryLocalMissesChildren(t: QTree, range: Rect, q: Point)
    requires WellFormed(t) && t.Divided? && range.Contains(q) && t.boundary.Intersects(range)
    requires q !in t.points && q in Below(t)
    ensures q !in QueryLocal(t, range).value
    ensures q in QueryTree(t, range)
  {
    InRangeCount(t.points, range);
    assert multiset(QueryLocal(t, range).value)[q] == 0;
    QueryTreeExact(t, range);
    InRangeCount(Flatten(t), range);
    FlattenParts(t);
    assert multiset(QueryTree(t, range))[q] > 0;
  }

  /**
   * The first three insertions of the module's own example, with the default
   * capacity of 2: (1, 2) and (2, 3) fill the root, and (4, 6) divides it and
   * lands in the south-west child.
   */
  lemma ExampleTree(r: Rect, a: Point, b: Point, c: Point)
    requires r == Rect(5.0, 2.0, 100.0, 100.0)
    requires a == Point(1.0, 2.0) && b == Point(2.0, 3.0) && c == Point(4.0, 6.0)
    ensures InsertTree(EmptyTree(r, 2), a) == Inserted(Leaf(r, 2, [a]), true)
    ensures InsertTree(Leaf(r, 2, [a]), b) == Inserted(Leaf(r, 2, [a, b]), true)
    ensures InsertTree(Leaf(r, 2, [a, b]), c) ==
      Inserted(Divided(r, 2, [a, b], EmptyTree(r.NorthWest(), 2), EmptyTree(r.NorthEast(), 2),
                       EmptyTree(r.SouthEast(), 2), Leaf(r.SouthWest(), 2, [c])), true)
  {
    assert [a] + [b] == [a, b];
    ExampleThirdInsert(r, c, Leaf(r, 2, [a, b]));
  }

  lemma ExampleThirdInsert(r: Rect, c: Point, t: QTree)
    requires r == Rect(5.0, 2.0, 100.0, 100.0) && c == Point(4.0, 6.0)
    requires t.Leaf? && t.boundary == r && t.cap == 2 && |t.points| == 2 && WellFormed(t)
    ensures InsertTree(t, c) ==
      Inserted(Divided(r, 2, t.points, EmptyTree(r.NorthWest(), 2), EmptyTree(r.NorthEast(), 2),
                       EmptyTree(r.SouthEast(), 2), Leaf(r.SouthWest(), 2, [c])), true)
  {
    var d := DivideTree(t);
    DivideKeepsWellFormed(t);
    assert r.Contains(c);
    assert !r.NorthEast().Contains(c) && !r.NorthWest().Contains(c) && !r.SouthEast().Contains(c);
    assert r.SouthWest().Contains(c);
    assert InsertTree(d.ne, c) == Inserted(d.ne, false);
    assert InsertTree(d.nw, c) == Inserted(d.nw, false);
    assert InsertTree(d.se, c) == Inserted(d.se, false);
    assert InsertTree(d.sw, c) == Inserted(Leaf(r.SouthWest(), 2, [c]), true);
  }

  /**
   * Querying that tree with the window `find_k_NN(Point(2, 6))` settles on
   * (side 8): the literal query returns only the root's (1, 2) and (2, 3),
   * while (4, 6), stored in the south-west child and inside the window, is
   * returned by the accumulating query.
   */
  lemma ExampleQuery(r: Rect, a: Point, b: Point, c: Point, window: Rect)
    requires r == Rect(5.0, 2.0, 100.0, 100.0)
    requires a == Point(1.0, 2.0) && b == Point(2.0, 3.0) && c == Point(4.0, 6.0)
    requires window == Rect(2.0, 6.0, 8.0, 8.0)
    ensures var t := Divided(r, 2, [a, b], EmptyTree(r.NorthWest(), 2), EmptyTree(r.NorthEast(), 2),
                             EmptyTree(r.SouthEast(), 2), Leaf(r.SouthWest(), 2, [c]));
      QueryLocal(t, window) == Some([a, b]) && c in QueryTree(t, window)
  {
    var t := Divided(r, 2, [a, b], EmptyTree(r.NorthWest(), 2), EmptyTree(r.NorthEast(), 2),
                     EmptyTree(r.SouthEast(), 2), Leaf(r.SouthWest(), 2, [c]));
    assert window.Contains(a) && window.Contains(b) && window.Contains(c);
    assert r.Intersects(window) && r.SouthWest().Intersects(window);
    assert InRange([a, b], window) == [a, b] by {
      assert [a, b][..1] == [a];
      assert [a][..0] == [];
    }
    assert QueryLocal(t, window) == Some([a, b]);
    assert QueryTree(t.sw, window) == [c] by {
      assert [c][..0] == [];
    }
  }

  // ---------------------------------------------------------------------
  // find_k_NN
  // ---------------------------------------------------------------------

  /** 2 to the power n, as the real `2**i` becomes once divided by 2. */
  function Pow2(n: nat): (r: real)
    ensures r >= 1.0
  {
    if n == 0 then 1.0 else 2.0 * Pow2(n - 1)
  }

  /** The square search window of round `i`: centred on `q`, with sides 2**i / 2. */
  function Window(q: Point, i: nat): Rect {
    Rect(q.x, q.y, Pow2(i) / 2.0, Pow2(i) / 2.0)
  }

  /** The number of search rounds: `range(1, 10)`. */
  const LastRound := 9

  /**
   * The round whose window `find_k_NN` keeps, looking from round `i` on: the
   * first whose query finds at least k points, or the last round if none does.
   */
  function ChosenRound(t: QTree, q: Point, k: int, i: nat): (c: nat)
    requires 1 <= i <= LastRound
    ensures i <= c <= LastRound
    ensures c < LastRound ==> |QueryTree(t, Window(q, c))| >= k
    ensures forall j :: i <= j < c ==> |QueryTree(t, Window(q, j))| < k
    decreases LastRound - i
  {
    if i == LastRound || |QueryTree(t, Window(q, i))| >= k then i else ChosenRound(t, q, k, i + 1)
  }

  /** Python's `s[:k]`: the first k elements, or all but the last -k when k is negative. */
  function Take(s: seq<Point>, k: int): (r: seq<Point>)
    ensures r <= s
    ensures k >= 0 ==> |r| == if k <= |s| then k else |s|
    ensures k < 0 ==> |r| == if |s| + k >= 0 then |s| + k else 0
  {
    if k >= 0 then (if k <= |s| then s[..k] else s)
    else if |s| + k >= 0 then s[..|s| + k]
    else []
  }

  /**
   * `find_k_NN(point, k)`: the points the chosen window's query finds,
   * sorted by distance to `q` (stably), cut to the first k.
   */
  function KNearest(t: QTree, q: Point, k: int): seq<Point> {
    var found := QueryTree(t, Window(q, ChosenRound(t, q, k, 1)));
    Take(SortBy(found, ByDistance(q)), k)
  }

  /**
   * What `find_k_NN` returns: at most k of the points the chosen window's
   * query finds (exactly k when it finds that many), ordered by
   * non-decreasing distance to `q`, and every found point that is left out
   * is at least as far from `q` as every point returned.  By
   * `QueryTreeExact` the found points of a well-formed tree are exactly its
   * stored points inside the window.
   */
  lemma KNearestSpec(t: QTree, q: Point, k: int)
    ensures var found := QueryTree(t, Window(q, ChosenRound(t, q, k, 1)));
      var r := KNearest(t, q, k);
      (k >= 0 ==> |r| == if k <= |found| then k else |found|) &&
      Sorted(r, ByDistance(q)) && multiset(r) <= multiset(found) &&
      (forall x, y :: x in r && multiset(r)[y] < multiset(found)[y] ==> SqDist(q, x) <= SqDist(q, y))
  {
    var found := QueryTree(t, Window(q, ChosenRound(t, q, k, 1)));
    var sorted := SortBy(found, ByDistance(q));
    SortBySorted(found, ByDistance(q));
    PrefixOfSorted(sorted, Take(sorted, k), ByDistance(q));
  }

  /** The points `find_k_NN` returns from a well-formed tree are stored in it, inside the chosen window. */
  lemma KNearestStored(t: QTree, q: Point, k: int)
    requires WellFormed(t)
    ensures var r := KNearest(t, q, k);
      multiset(r) <= multiset(Flatten(t)) &&
      forall x | x in r :: Window(q, ChosenRound(t, q, k, 1)).Contains(x) && t.boundary.Contains(x)
  {
    var window := Window(q, ChosenRound(t, q, k, 1));
    var found := QueryTree(t, window);
    var r := KNearest(t, q, k);
    assert multiset(r) <= multiset(found) by {
      KNearestSpec(t, q, k);
    }
    assert found == InRange(Flatten(t), window) by {
      QueryTreeExact(t, window);
    }
    InRangeSelects(Flatten(t), window);
    StoredInside(t);
    forall x | x in r ensures window.Contains(x) && t.boundary.Contains(x) {
      assert x in multiset(r);
    }
  }

  /**
   * A prefix of a sorted sequence is sorted, holds part of its elements, and
   * no element beyond the prefix has a smaller key than one inside it.
   */
  lemma PrefixOfSorted(s: seq<Point>, r: seq<Point>, key: Key)
    requires Sorted(s, key) && r <= s
    ensures Sorted(r, key) && multiset(r) <= multiset(s)
    ensures forall x, y :: x in r && multiset(r)[y] < multiset(s)[y] ==> KeyOf(key, x) <= KeyOf(key, y)
  {
    var rest := s[|r|..];
    assert s == r + rest;
    assert multiset(s) == multiset(r) + multiset(rest);
    forall x, y | x in r && multiset(r)[y] < multiset(s)[y] ensures KeyOf(key, x) <= KeyOf(key, y) {
      assert y in multiset(rest);
      var i :| 0 <= i < |r| && r[i] == x;
      var j :| 0 <= j < |rest| && rest[j] == y;
      assert s[i] == x && s[|r| + j] == y;
    }
  }
}
