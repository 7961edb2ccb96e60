/**
 * The `Quadtree` class of Quadtree.py, updating its nodes in place.
 *
 * Each node object keeps the fields the Python object has (boundary,
 * max_points, points, divided and the four children) and, as ghost state,
 * the `QTree` value it stands for and the set of objects it is made of.
 * Every method is proved against the functions of module QuadTree, so the
 * lemmas proved there (insertion succeeds exactly inside the boundary, the
 * query is exact, ...) hold of the objects too.
 */
module QuadTreeClass {
  import opened Geometry
  import opened Sorting
  import opened QuadTree
  import opened Optional

  class Quadtree {
    const boundary: Rect
    const maxPoints: int
    var points: seq<Point>
    var divided: bool
    var nw: Quadtree?
    var ne: Quadtree?
    var se: Quadtree?
    var sw: Quadtree?

    /** The tree this node and its descendants stand for. */
    ghost var Model: QTree
    /** This node and every node below it. */
    ghost var Repr: set<object>

    ghost predicate Valid()
      reads this, Repr
      decreases Repr
    {
      this in Repr &&
      Model.boundary == boundary && Model.cap == maxPoints && Model.points == points &&
      (divided <==> Model.Divided?) &&
      (divided ==>
        nw != null && ne != null && se != null && sw != null &&
        nw in Repr && ne in Repr && se in Repr && sw in Repr &&
        nw.Repr <= Repr && ne.Repr <= Repr && se.Repr <= Repr && sw.Repr <= Repr &&
        this !in nw.Repr && this !in ne.Repr && this !in se.Repr && this !in sw.Repr &&
        nw.Repr !! ne.Repr && nw.Repr !! se.Repr && nw.Repr !! sw.Repr &&
        ne.Repr !! se.Repr && ne.Repr !! sw.Repr && se.Repr !! sw.Repr &&
        nw.Valid() && ne.Valid() && se.Valid() && sw.Valid() &&
        Model.nw == nw.Model && Model.ne == ne.Model && Model.se == se.Model && Model.sw == sw.Model)
    }

    /**
     * `Quadtree(boundary, max_points)`: an empty, undivided node.  The
     * capacity must be at least 1; with none, every insertion inside the
     * boundary would divide without end.
     */
    constructor (boundary: Rect, maxPoints: int)
      requires maxPoints >= 1
      ensures Valid() && WellFormed(Model) && fresh(Repr) && Repr == {this}
      ensures Model == EmptyTree(boundary, maxPoints)
    {
      this.boundary := boundary;
      this.maxPoints := maxPoints;
      points := [];
      divided := false;
      nw, ne, se, sw := null, null, null, null;
      Model := EmptyTree(boundary, maxPoints);
      Repr := {this};
    }

    /** `divide()`: four fresh empty children, one per quadrant of the boundary. */
    method Divide()
      requires Valid() && WellFormed(Model) && !divided && |points| == maxPoints
      modifies this
      ensures Valid() && WellFormed(Model) && divided && fresh(Repr - old(Repr))
      ensures fresh(nw) && fresh(ne) && fresh(se) && fresh(sw)
      ensures Model == DivideTree(old(Model))
    {
      DivideKeepsWellFormed(Model);
      var a, b, c, d := Quarters();
      nw, ne, se, sw := a, b, c, d;
      divided := true;
      Repr := Repr + {a, b, c, d};
      Model := DivideTree(Model);
    }

    /** The four children `divide` creates, before they are attached to the node. */
    method Quarters() returns (a: Quadtree, b: Quadtree, c: Quadtree, d: Quadtree)
      requires maxPoints >= 1
      ensures fresh(a) && fresh(b) && fresh(c) && fresh(d)
      ensures a != b && a != c && a != d && b != c && b != d && c != d
      ensures a.Valid() && b.Valid() && c.Valid() && d.Valid()
      ensures a.Repr == {a} && b.Repr == {b} && c.Repr == {c} && d.Repr == {d}
      ensures a.Model == EmptyTree(boundary.NorthWest(), maxPoints) && b.Model == EmptyTree(boundary.NorthEast(), maxPoints)
      ensures c.Model == EmptyTree(boundary.SouthEast(), maxPoints) && d.Model == EmptyTree(boundary.SouthWest(), maxPoints)
    {
      a := new Quadtree(boundary.NorthWest(), maxPoints);
      b := new Quadtree(boundary.NorthEast(), maxPoints);
      c := new Quadtree(boundary.SouthEast(), maxPoints);
      d := new Quadtree(boundary.SouthWest(), maxPoints);
    }

    /**
     * `insert(point)`: the node, its children and the result change exactly
     * as `InsertTree` says.
     */
    method Insert(p: Point) returns (ok: bool)
      requires Valid() && WellFormed(Model)
      modifies Repr
      ensures Valid() && WellFormed(Model) && fresh(Repr - old(Repr))
      ensures Inserted(Model, ok) == InsertTree(old(Model), p)
      decreases Reach(Model), 2
    {
      if !boundary.Contains(p) {
        return false;
      }
      if |points| < maxPoints {
        points := points + [p];
        Model := Leaf(boundary, maxPoints, points);
        return true;
      }
      if !divided {
        DivideKeepsWellFormed(Model);
        Divide();
      }
      OfferKeepsWellFormed(Model, p);
      ok := Offer(p);
    }

    /**
     * `self.ne.insert(point) or self.nw.insert(point) or
     * self.se.insert(point) or self.sw.insert(point)`, on a divided node.
     */
    method Offer(p: Point) returns (ok: bool)
      requires Valid() && WellFormed(Model) && divided
      modifies Repr
      ensures Valid() && fresh(Repr - old(Repr))
      ensures Inserted(Model, ok) == OfferToChildren(old(Model), p)
      decreases Reach(Model), 1
    {
      ghost var d := Model;
      ok := InsertNe(p);
      assert fresh(Repr - old(Repr));
      if !ok {
        InsertOk(d.ne, p);
        assert Model == d;
        ok := InsertNw(p);
        assert fresh(Repr - old(Repr));
        if !ok {
          InsertOk(d.nw, p);
          assert Model == d;
          ok := InsertSe(p);
          assert fresh(Repr - old(Repr));
          if !ok {
            InsertOk(d.se, p);
            assert Model == d;
            ok := InsertSw(p);
          }
        }
      }
    }

    /** The loop of `query` over `self.points`: the node's own points that the range contains, in order. */
    method PointsIn(range: Rect) returns (inside: seq<Point>)
      requires Valid()
      ensures inside == InRange(points, range)
    {
      inside := [];
      var i := 0;
      while i < |points|
        invariant 0 <= i <= |points|
        invariant inside == InRange(points[..i], range)
      {
        assert points[..i + 1][..i] == points[..i];
        if range.Contains(points[i]) {
          inside := inside + [points[i]];
        }
        i := i + 1;
      }
      assert points[..i] == points;
    }

    /**
     * `query(boundary)` as written: None (the code's False) when the node's
     * boundary misses the range, else the node's own points in range; the
     * children are queried in turn and what they find is dropped.
     */
    method QueryAsWritten(range: Rect) returns (r: Option<seq<Point>>)
      requires Valid()
      ensures r == QueryLocal(Model, range)
      decreases Repr
    {
      if !boundary.Intersects(range) {
        return None;
      }
      var inside := PointsIn(range);
      if divided {
        assert nw.Valid() && ne.Valid() && se.Valid() && sw.Valid();
        var fromNw := nw.QueryAsWritten(range);
        var fromNe := ne.QueryAsWritten(range);
        var fromSe := se.QueryAsWritten(range);
        var fromSw := sw.QueryAsWritten(range);
      }
      return Some(inside);
    }

    /**
     * `query(boundary)` with the children's results kept, as the comments of
     * `query` intend: nothing when the node's boundary misses the range,
     * else the node's own points in range followed by what nw, ne, se and sw
     * find.
     */
    method Query(range: Rect) returns (found: seq<Point>)
      requires Valid()
      ensures found == QueryTree(Model, range)
      ensures !boundary.Intersects(range) ==> found == []
      ensures WellFormed(Model) ==> found == InRange(Flatten(Model), range)
      decreases Repr
    {
      if WellFormed(Model) {
        QueryTreeExact(Model, range);
      }
      if !boundary.Intersects(range) {
        return [];
      }
      found := PointsIn(range);
      if divided {
        var fromNw := nw.Query(range);
        var fromNe := ne.Query(range);
        var fromSe := se.Query(range);
        var fromSw := sw.Query(range);
        found := found + fromNw + fromNe + fromSe + fromSw;
      }
    }

    /**
     * `find_k_NN(point, k)`: query square windows of growing size around the
     * point until one holds at least k points or the last round is reached,
     * then sort what that window holds by distance and keep the first k.
     */
    method FindKNN(q: Point, k: int) returns (r: seq<Point>)
      requires Valid()
      ensures r == KNearest(Model, q, k)
    {
      var i := 1;
      var neighbors := Query(Window(q, i));
      while i < LastRound && |neighbors| < k
        invariant 1 <= i <= LastRound
        invariant neighbors == QueryTree(Model, Window(q, i))
        invariant ChosenRound(Model, q, k, i) == ChosenRound(Model, q, k, 1)
        decreases LastRound - i
      {
        i := i + 1;
        neighbors := Query(Window(q, i));
      }
      r := Take(SortBy(neighbors, ByDistance(q)), k);
    }

    // One step of the offer: the point goes to one child, the rest of the node stays as it is.
    // The four methods are alike, one per child, and so are the four `XxReplaced` lemmas
    // below: a single method over a chosen child would leave the solver to reason about
    // which field it writes, at a cost that exceeds the limit for `Offer`.

    method InsertNe(p: Point) returns (ok: bool)
      requires Valid() && WellFormed(Model) && divided
      modifies Repr
      ensures Valid() && WellFormed(Model) && divided && fresh(Repr - old(Repr))
      ensures var r := InsertTree(old(Model).ne, p); ok == r.ok && Model == old(Model).(ne := r.tree)
      decreases Reach(Model), 0
    {
      InsertKeepsWellFormed(Model.ne, p);
      ok := ne.Insert(p);
      label Inserted:
      Repr := Repr + ne.Repr;
      Model := Model.(ne := ne.Model);
      StillValid@Inserted(ne);
      NeReplaced();
    }

    method InsertNw(p: Point) returns (ok: bool)
      requires Valid() && WellFormed(Model) && divided
      modifies Repr
      ensures Valid() && WellFormed(Model) && divided && fresh(Repr - old(Repr))
      ensures var r := InsertTree(old(Model).nw, p); ok == r.ok && Model == old(Model).(nw := r.tree)
      decreases Reach(Model), 0
    {
      InsertKeepsWellFormed(Model.nw, p);
      ok := nw.Insert(p);
      label Inserted:
      Repr := Repr + nw.Repr;
      Model := Model.(nw := nw.Model);
      StillValid@Inserted(nw);
      NwReplaced();
    }

    method InsertSe(p: Point) returns (ok: bool)
      requires Valid() && WellFormed(Model) && divided
      modifies Repr
      ensures Valid() && WellFormed(Model) && divided && fresh(Repr - old(Repr))
      ensures var r := InsertTree(old(Model).se, p); ok == r.ok && Model == old(Model).(se := r.tree)
      decreases Reach(Model), 0
    {
      InsertKeepsWellFormed(Model.se, p);
      ok := se.Insert(p);
      label Inserted:
      Repr := Repr + se.Repr;
      Model := Model.(se := se.Model);
      StillValid@Inserted(se);
      SeReplaced();
    }

    method InsertSw(p: Point) returns (ok: bool)
      requires Valid() && WellFormed(Model) && divided
      modifies Repr
      ensures Valid() && WellFormed(Model) && divided && fresh(Repr - old(Repr))
      ensures var r := InsertTree(old(Model).sw, p); ok == r.ok && Model == old(Model).(sw := r.tree)
      decreases Reach(Model), 0
    {
      InsertKeepsWellFormed(Model.sw, p);
      ok := sw.Insert(p);
      label Inserted:
      Repr := Repr + sw.Repr;
      Model := Model.(sw := sw.Model);
      StillValid@Inserted(sw);
      SwReplaced();
    }

    /** Writing fields outside a node's representation leaves the node valid. */
    twostate lemma StillValid(c: Quadtree)
      requires old(c.Valid()) && unchanged(old(c.Repr))
      ensures c.Valid()
    {
    }

    /** After `ne` has changed in place and the node has taken on its new representation and tree, the node is valid again. */
    twostate lemma NeReplaced()
      requires old(Valid()) && old(divided)
      requires unchanged(`points, `divided, `nw, `ne, `se, `sw)
      requires unchanged(old(nw.Repr)) && unchanged(old(se.Repr)) && unchanged(old(sw.Repr))
      requires ne.Valid() && fresh(ne.Repr - old(ne.Repr)) && this !in ne.Repr
      requires Repr == old(Repr) + ne.Repr
      requires Model == old(Model).(ne := ne.Model)
      ensures Valid()
    {
    }

    /** After `nw` has changed in place and the node has taken on its new representation and tree, the node is valid again. */
    twostate lemma NwReplaced()
      requires old(Valid()) && old(divided)
      requires unchanged(`points, `divided, `nw, `ne, `se, `sw)
      requires unchanged(old(ne.Repr)) && unchanged(old(se.Repr)) && unchanged(old(sw.Repr))
      requires nw.Valid() && fresh(nw.Repr - old(nw.Repr)) && this !in nw.Repr
      requires Repr == old(Repr) + nw.Repr
      requires Model == old(Model).(nw := nw.Model)
      ensures Valid()
    {
    }

    /** After `se` has changed in place and the node has taken on its new representation and tree, the node is valid again. */
    twostate lemma SeReplaced()
      requires old(Valid()) && old(divided)
      requires unchanged(`points, `divided, `nw, `ne, `se, `sw)
      requires unchanged(old(nw.Repr)) && unchanged(old(ne.Repr)) && unchanged(old(sw.Repr))
      requires se.Valid() && fresh(se.Repr - old(se.Repr)) && this !in se.Repr
      requires Repr == old(Repr) + se.Repr
      requires Model == old(Model).(se := se.Model)
      ensures Valid()
    {
    }

    /** After `sw` has changed in place and the node has taken on its new representation and tree, the node is valid again. */
    twostate lemma SwReplaced()
      requires old(Valid()) && old(divided)
      requires unchanged(`points, `divided, `nw, `ne, `se, `sw)
      requires unchanged(old(nw.Repr)) && unchanged(old(ne.Repr)) && unchanged(old(se.Repr))
      requires sw.Valid() && fresh(sw.Repr - old(sw.Repr)) && this !in sw.Repr
      requires Repr == old(Repr) + sw.Repr
      requires Model == old(Model).(sw := sw.Model)
      ensures Valid()
    {
    }
  }
}
