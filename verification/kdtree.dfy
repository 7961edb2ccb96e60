/**
 * The KD-tree of KDtree.py: a median-split build over a stable sort, a
 * tie-breaking choice between two optional points, a branch-and-bound
 * nearest-neighbour search, and the linear scan it is checked against.
 *
 * Two features of the code are modelled exactly as they behave:
 *
 * - The recursive calls pass `depth + 1` positionally, so it lands in the
 *   parameter `k` and `depth` falls back to its default 0.  Every call below
 *   the root therefore has `depth % k == 0 % (depth + 1) == 0`: the build and
 *   the search split on the x axis at every level below the root (at the root
 *   too, for the default call with k = 2 and depth = 0).  The tree is a
 *   median-balanced search tree on x.  Build and search agree on this, so the
 *   search is still sound.
 *
 * - The pruning test compares the plain distance to the best point so far,
 *   `sqrt(D)` with D the squared distance, with the squared offset to the
 *   splitting line, `dx**2`.  Both sides are non-negative, so
 *   `sqrt(D) > dx**2` holds exactly when `D > dx**4`, which is how
 *   `PruneRule.AsWritten` states it.  This is exact only while every |dx| is
 *   at most 1; `PruneRule.SameUnits` compares `D > dx**2` and is exact always.
 */
module KDTree {
  import opened Optional
  import opened Geometry
  import opened Sorting
  import opened Arith

  /** `None` for the empty tree, otherwise a node dict with 'point', 'left' and 'right'. */
  datatype Tree = Empty | Node(point: Point, left: Tree, right: Tree)

  /** The points stored in a tree, with their multiplicities. */
  function Elements(t: Tree): multiset<Point> {
    match t
    case Empty => multiset{}
    case Node(p, l, r) => Elements(l) + multiset{p} + Elements(r)
  }

  function Height(t: Tree): nat {
    match t
    case Empty => 0
    case Node(_, l, r) => 1 + if Height(l) < Height(r) then Height(r) else Height(l)
  }

  /** ⌊log₂ n⌋. */
  function Log2(n: nat): nat
    requires n >= 1
  {
    if n == 1 then 0 else 1 + Log2(n / 2)
  }

  lemma {:induction false} Log2Monotone(a: nat, b: nat)
    requires 1 <= a <= b
    ensures Log2(a) <= Log2(b)
  {
    if a > 1 {
      Log2Monotone(a / 2, b / 2);
    }
  }

  /**
   * Every node of the tree splits on x: the left subtree holds points with x
   * at most the node's x, the right subtree points with x at least the
   * node's x (equal keys can land on either side).
   */
  ghost predicate XOrdered(t: Tree) {
    match t
    case Empty => true
    case Node(p, l, r) =>
      (forall a | a in Elements(l) :: a.x <= p.x) &&
      (forall b | b in Elements(r) :: b.x >= p.x) &&
      XOrdered(l) && XOrdered(r)
  }

  // ---------------------------------------------------------------------
  // build_tree
  // ---------------------------------------------------------------------

  /**
   * `build_tree(points, k, depth)`: sort on axis `depth % k`, store the
   * element at index n/2 and build the two halves around it.  The child
   * calls are written as the code makes them, `build_tree(half, depth + 1)`,
   * which binds `k := depth + 1` and `depth := 0`.
   */
  function BuildTree(points: seq<Point>, k: int, depth: int): Tree
    requires k >= 1 && depth >= 0 && Remainder(depth, k) < 2
    decreases |points|
  {
    if |points| == 0 then Empty
    else
      var sorted := SortBy(points, AxisKey(Remainder(depth, k)));
      var m := |points| / 2;
      Node(sorted[m], BuildTree(sorted[..m], depth + 1, 0), BuildTree(sorted[m + 1..], depth + 1, 0))
  }

  lemma SplitAround(s: seq<Point>, m: nat)
    requires m < |s|
    ensures s == s[..m] + [s[m]] + s[m + 1..]
  {
  }

  /** The tree holds exactly the input points: none lost, none duplicated. */
  lemma {:induction false} BuildTreeElements(points: seq<Point>, k: int, depth: int)
    requires k >= 1 && depth >= 0 && Remainder(depth, k) < 2
    ensures Elements(BuildTree(points, k, depth)) == multiset(points)
    decreases |points|
  {
    if |points| > 0 {
      var sorted := SortBy(points, AxisKey(Remainder(depth, k)));
      var m := |points| / 2;
      var l, r := sorted[..m], sorted[m + 1..];
      BuildTreeElements(l, depth + 1, 0);
      BuildTreeElements(r, depth + 1, 0);
      assert BuildTree(points, k, depth) == Node(sorted[m], BuildTree(l, depth + 1, 0), BuildTree(r, depth + 1, 0));
      SplitAround(sorted, m);
      calc {
        Elements(BuildTree(points, k, depth));
        multiset(l) + multiset{sorted[m]} + multiset(r);
        multiset(l + [sorted[m]] + r);
        multiset(points);
      }
    }
  }

  /**
   * The axis quirk: whenever a call starts on axis 0, every level splits on
   * axis 0, so the arguments `k` and `depth` do not matter and the result is
   * the tree of the one-axis build `BuildTree(points, 1, 0)`.
   */
  lemma {:induction false} BuildTreeSplitsOnX(points: seq<Point>, k: int, depth: int)
    requires k >= 1 && depth >= 0 && Remainder(depth, k) == 0
    ensures BuildTree(points, k, depth) == BuildTree(points, 1, 0)
    decreases |points|
  {
    if |points| > 0 {
      var sorted := SortBy(points, ByX);
      var m := |points| / 2;
      BuildTreeSplitsOnX(sorted[..m], depth + 1, 0);
      BuildTreeSplitsOnX(sorted[m + 1..], depth + 1, 0);
      BuildTreeSplitsOnX(sorted[..m], 1, 0);
      BuildTreeSplitsOnX(sorted[m + 1..], 1, 0);
    }
  }

  /** A tree built from axis 0 is ordered on x at every node. */
  lemma {:induction false} BuildTreeOrdered(points: seq<Point>, k: int, depth: int)
    requires k >= 1 && depth >= 0 && Remainder(depth, k) == 0
    ensures XOrdered(BuildTree(points, k, depth))
    decreases |points|
  {
    if |points| > 0 {
      var sorted := SortBy(points, ByX);
      var m := |points| / 2;
      var l, r := sorted[..m], sorted[m + 1..];
      assert BuildTree(points, k, depth) == Node(sorted[m], BuildTree(l, depth + 1, 0), BuildTree(r, depth + 1, 0));
      BuildTreeOrdered(l, depth + 1, 0);
      BuildTreeOrdered(r, depth + 1, 0);
      BuildTreeElements(l, depth + 1, 0);
      BuildTreeElements(r, depth + 1, 0);
      SortBySorted(points, ByX);
      MedianSplitsOnX(sorted, m);
    }
  }

  /** In a sequence sorted on x, the points before index m have x at most its x, the points after it at least. */
  lemma MedianSplitsOnX(sorted: seq<Point>, m: nat)
    requires m < |sorted| && Sorted(sorted, ByX)
    ensures forall a | a in multiset(sorted[..m]) :: a.x <= sorted[m].x
    ensures forall b | b in multiset(sorted[m + 1..]) :: b.x >= sorted[m].x
  {
    forall a | a in multiset(sorted[..m]) ensures a.x <= sorted[m].x {
      var i :| 0 <= i < m && sorted[..m][i] == a;
      assert KeyOf(ByX, sorted[i]) <= KeyOf(ByX, sorted[m]);
    }
    forall b | b in multiset(sorted[m + 1..]) ensures b.x >= sorted[m].x {
      var i :| 0 <= i < |sorted| - m - 1 && sorted[m + 1..][i] == b;
      assert KeyOf(ByX, sorted[m]) <= KeyOf(ByX, sorted[m + 1 + i]);
    }
  }

  /**
   * Balance at the root: the left subtree holds n/2 of the n points and the
   * right one n - n/2 - 1, and the tree is empty exactly when there are no
   * points.
   */
  lemma BuildTreeHalves(points: seq<Point>, k: int, depth: int)
    requires k >= 1 && depth >= 0 && Remainder(depth, k) < 2
    ensures var t := BuildTree(points, k, depth);
      (|points| == 0 <==> t == Empty) &&
      (t.Node? ==> |Elements(t.left)| == |points| / 2 &&
                   |Elements(t.right)| == |points| - |points| / 2 - 1)
  {
    if |points| > 0 {
      var sorted := SortBy(points, AxisKey(Remainder(depth, k)));
      var m := |points| / 2;
      var l, r := sorted[..m], sorted[m + 1..];
      assert BuildTree(points, k, depth) == Node(sorted[m], BuildTree(l, depth + 1, 0), BuildTree(r, depth + 1, 0));
      BuildTreeElements(l, depth + 1, 0);
      BuildTreeElements(r, depth + 1, 0);
    }
  }

  /** Halving at every level keeps the height of a tree of n points within ⌊log₂ n⌋ + 1. */
  lemma {:induction false} BuildTreeHeight(points: seq<Point>, k: int, depth: int)
    requires k >= 1 && depth >= 0 && Remainder(depth, k) < 2
    ensures |points| >= 1 ==> Height(BuildTree(points, k, depth)) <= Log2(|points|) + 1
    decreases |points|
  {
    var n := |points|;
    if n > 0 {
      var sorted := SortBy(points, AxisKey(Remainder(depth, k)));
      var m := n / 2;
      var l, r := sorted[..m], sorted[m + 1..];
      assert |l| == m && |r| == n - m - 1;
      var left, right := BuildTree(l, depth + 1, 0), BuildTree(r, depth + 1, 0);
      assert BuildTree(points, k, depth) == Node(sorted[m], left, right);
      BuildTreeHeight(l, depth + 1, 0);
      BuildTreeHeight(r, depth + 1, 0);
      assert |l| == 0 ==> Height(left) == 0;
      assert |r| == 0 ==> Height(right) == 0;
      HeightStep(n, |l|, |r|, Height(left), Height(right));
    }
  }

  /** The arithmetic of one level: halves of heights within their bounds give a whole within its bound. */
  lemma HeightStep(n: nat, nl: nat, nr: nat, hl: nat, hr: nat)
    requires n >= 1 && nl == n / 2 && nr == n - nl - 1
    requires nl == 0 ==> hl == 0
    requires nl >= 1 ==> hl <= Log2(nl) + 1
    requires nr == 0 ==> hr == 0
    requires nr >= 1 ==> hr <= Log2(nr) + 1
    ensures 1 + (if hl < hr then hr else hl) <= Log2(n) + 1
  {
    if n > 1 {
      assert Log2(n) == 1 + Log2(nl);
      if nr >= 1 {
        Log2Monotone(nr, nl);
      }
    }
  }

  // ---------------------------------------------------------------------
  // closest_distance and kdtree_NN
  // ---------------------------------------------------------------------

  /**
   * `closest_distance(pivot, point1, point2)`: the other argument when one is
   * missing, otherwise the one nearer to `pivot`, with a tie going to
   * `point2`.
   */
  function Closest(pivot: Point, point1: Option<Point>, point2: Option<Point>): (r: Option<Point>)
    ensures r.None? <==> point1.None? && point2.None?
    ensures point1.None? ==> r == point2
    ensures point2.None? ==> r == point1
    ensures point1.Some? && point2.Some? ==>
      (r == point1 || r == point2) &&
      SqDist(pivot, r.value) <= SqDist(pivot, point1.value) &&
      SqDist(pivot, r.value) <= SqDist(pivot, point2.value)
    ensures point1.Some? && point2.Some? && r == point1 && point1 != point2 ==>
      SqDist(pivot, point1.value) < SqDist(pivot, point2.value)
  {
    if point1.None? then point2
    else if point2.None? then point1
    else if SqDist(pivot, point1.value) < SqDist(pivot, point2.value) then point1
    else point2
  }

  /** How the search decides that the far side of a split may hold a closer point. */
  datatype PruneRule =
    | AsWritten  // sqrt(D) > dx**2, i.e. D > dx**4: distance against squared offset
    | SameUnits  // D > dx**2: squared distance against squared offset

  /** True when the far branch is searched, given the best squared distance so far and the offset to the splitting line. */
  predicate SearchFarSide(rule: PruneRule, bestSqDist: real, offset: real) {
    match rule
    case AsWritten => bestSqDist > Sq(Sq(offset))
    case SameUnits => bestSqDist > Sq(offset)
  }

  /**
   * `kdtree_NN(root, point, k, depth)`: descend to the side of the split the
   * target lies on, keep the nearer of that side's answer and the node's
   * point (a tie keeps the node's point), then search the other side when
   * `SearchFarSide` says so and fold its answer in the same way.  The child
   * calls bind `k := depth + 1`, `depth := 0`, as in `BuildTree`.  The result
   * is missing exactly for the empty tree, and is otherwise a stored point.
   */
  function Nearest(t: Tree, target: Point, k: int, depth: int, rule: PruneRule): (r: Option<Point>)
    requires k >= 1 && depth >= 0 && Remainder(depth, k) < 2
    ensures r.None? <==> t.Empty?
    ensures r.Some? ==> r.value in Elements(t)
    decreases t
  {
    if t.Empty? then None
    else
      var axis := Remainder(depth, k);
      var goLeft := Coord(target, axis) < Coord(t.point, axis);
      var branch := if goLeft then t.left else t.right;
      var opposite := if goLeft then t.right else t.left;
      var best := Closest(target, Nearest(branch, target, depth + 1, 0, rule), Some(t.point));
      if SearchFarSide(rule, SqDist(target, best.value), Coord(target, axis) - Coord(t.point, axis)) then
        Closest(target, Nearest(opposite, target, depth + 1, 0, rule), best)
      else
        best
  }

  /** The search splits on x at every level whenever it starts on axis 0, like the build. */
  lemma {:induction false} NearestSplitsOnX(t: Tree, target: Point, k: int, depth: int, rule: PruneRule)
    requires k >= 1 && depth >= 0 && Remainder(depth, k) == 0
    ensures Nearest(t, target, k, depth, rule) == Nearest(t, target, 1, 0, rule)
  {
    if t.Node? {
      NearestSplitsOnX(t.left, target, depth + 1, 0, rule);
      NearestSplitsOnX(t.right, target, depth + 1, 0, rule);
      NearestSplitsOnX(t.left, target, 1, 0, rule);
      NearestSplitsOnX(t.right, target, 1, 0, rule);
    }
  }

  /**
   * When the pruning is exact: always for `SameUnits`; for `AsWritten` when
   * every stored point is within 1 of the target on x, so that every offset
   * the search meets has a square of at most 1 and its fourth power does not
   * exceed its square.
   */
  ghost predicate PruningExact(rule: PruneRule, t: Tree, target: Point) {
    rule == SameUnits || forall p | p in Elements(t) :: -1.0 <= target.x - p.x <= 1.0
  }

  /**
   * On an x-ordered tree searched on axis 0, the result is at least as near
   * to the target as every stored point, whenever the pruning is exact.
   */
  lemma {:induction false} NearestFindsMinimum(t: Tree, target: Point, k: int, depth: int, rule: PruneRule)
    requires k >= 1 && depth >= 0 && Remainder(depth, k) == 0
    requires XOrdered(t) && PruningExact(rule, t, target)
    ensures var r := Nearest(t, target, k, depth, rule);
      r.Some? ==> forall p | p in Elements(t) :: SqDist(target, r.value) <= SqDist(target, p)
  {
    if t.Node? {
      var n := t.point;
      var goLeft := target.x < n.x;
      var branch := if goLeft then t.left else t.right;
      var opposite := if goLeft then t.right else t.left;
      PruningExactInSubtrees(t, target, rule);
      NearestFindsMinimum(branch, target, depth + 1, 0, rule);
      NearestFindsMinimum(opposite, target, depth + 1, 0, rule);
      var nearBest := Nearest(branch, target, depth + 1, 0, rule);
      var farBest := Nearest(opposite, target, depth + 1, 0, rule);
      var best := Closest(target, nearBest, Some(n));
      var r := Nearest(t, target, k, depth, rule);
      NearestStep(t, target, k, depth, rule);
      var search := SearchFarSide(rule, SqDist(target, best.value), target.x - n.x);
      if !search {
        PrunedSideIsFar(t, target, rule, SqDist(target, best.value));
      }
      ElementsAroundSplit(t, goLeft);
      NearestCombines(target, n, nearBest, farBest, search, Elements(branch), Elements(opposite));
    }
  }

  /**
   * Folding the two sides together: when each side's answer is nearest on
   * its side and a skipped far side holds nothing nearer than the best point
   * so far, the answer is nearest overall.
   */
  lemma NearestCombines(target: Point, n: Point, nearBest: Option<Point>, farBest: Option<Point>, search: bool,
                        near: multiset<Point>, far: multiset<Point>)
    requires nearBest.Some? ==> forall p | p in near :: SqDist(target, nearBest.value) <= SqDist(target, p)
    requires nearBest.None? ==> near == multiset{}
    requires farBest.Some? ==> forall p | p in far :: SqDist(target, farBest.value) <= SqDist(target, p)
    requires farBest.None? ==> far == multiset{}
    requires var best := Closest(target, nearBest, Some(n));
      !search ==> forall p | p in far :: SqDist(target, best.value) <= SqDist(target, p)
    ensures var best := Closest(target, nearBest, Some(n));
      var r := if search then Closest(target, farBest, best) else best;
      r.Some? && forall p | p in near + multiset{n} + far :: SqDist(target, r.value) <= SqDist(target, p)
  {
    var best := Closest(target, nearBest, Some(n));
    var r := if search then Closest(target, farBest, best) else best;
    forall p | p in near + multiset{n} + far ensures SqDist(target, r.value) <= SqDist(target, p) {
      if p in near {
        assert SqDist(target, best.value) <= SqDist(target, p);
      } else if p in far {
        if search {
          assert SqDist(target, farBest.value) <= SqDist(target, p);
        }
      }
    }
  }

  /** One level of the search on axis 0, as `NearestFindsMinimum` uses it. */
  lemma NearestStep(t: Tree, target: Point, k: int, depth: int, rule: PruneRule)
    requires k >= 1 && depth >= 0 && Remainder(depth, k) == 0 && t.Node?
    ensures var goLeft := target.x < t.point.x;
      var branch := if goLeft then t.left else t.right;
      var opposite := if goLeft then t.right else t.left;
      var best := Closest(target, Nearest(branch, target, depth + 1, 0, rule), Some(t.point));
      Nearest(t, target, k, depth, rule) ==
        if SearchFarSide(rule, SqDist(target, best.value), target.x - t.point.x)
        then Closest(target, Nearest(opposite, target, depth + 1, 0, rule), best)
        else best
  {
  }

  lemma ElementsAroundSplit(t: Tree, goLeft: bool)
    requires t.Node?
    ensures Elements(t) == if goLeft then Elements(t.left) + multiset{t.point} + Elements(t.right)
                           else Elements(t.right) + multiset{t.point} + Elements(t.left)
  {
  }

  lemma PruningExactInSubtrees(t: Tree, target: Point, rule: PruneRule)
    requires t.Node? && PruningExact(rule, t, target)
    ensures PruningExact(rule, t.left, target) && PruningExact(rule, t.right, target)
  {
    assert Elements(t) == Elements(t.left) + multiset{t.point} + Elements(t.right);
  }

  /**
   * When the search skips the far side of a node, nothing there is nearer
   * than the best point so far.
   */
  lemma PrunedSideIsFar(t: Tree, target: Point, rule: PruneRule, bestSqDist: real)
    requires t.Node? && XOrdered(t) && PruningExact(rule, t, target)
    requires !SearchFarSide(rule, bestSqDist, target.x - t.point.x)
    ensures forall p | p in Elements(if target.x < t.point.x then t.right else t.left) ::
      bestSqDist <= SqDist(target, p)
  {
    var n := t.point;
    assert rule == AsWritten ==> -1.0 <= target.x - n.x <= 1.0 by {
      assert n in Elements(t);
    }
    if target.x < n.x {
      forall p | p in Elements(t.right) ensures bestSqDist <= SqDist(target, p) {
        BeyondSplitIsFar(rule, bestSqDist, target, n, p);
      }
    } else {
      forall p | p in Elements(t.left) ensures bestSqDist <= SqDist(target, p) {
        BeyondSplitIsFar(rule, bestSqDist, target, n, p);
      }
    }
  }

  /**
   * The arithmetic behind pruning: a point `p` on the other side of the
   * splitting line through `n` is at least as far from the target as that
   * line, and a skip means the best point is not farther than the line
   * (under `AsWritten`, because a square of at most 1 is at least its own
   * square).
   */
  lemma BeyondSplitIsFar(rule: PruneRule, bestSqDist: real, target: Point, n: Point, p: Point)
    requires target.x < n.x <= p.x || p.x <= n.x <= target.x
    requires !SearchFarSide(rule, bestSqDist, target.x - n.x)
    requires rule == AsWritten ==> -1.0 <= target.x - n.x <= 1.0
    ensures bestSqDist <= SqDist(target, p)
  {
    var dx := target.x - n.x;
    if rule == AsWritten {
      FourthPowerBelowSquare(dx);
    }
    SqMonotone(dx, target.x - p.x);
  }

  // ---------------------------------------------------------------------
  // find_NN
  // ---------------------------------------------------------------------

  /**
   * `all[i]` is the first point of `all` at minimal distance from `target`
   * (the distance as `find_NN` computes it, from the point to the target).
   */
  ghost predicate FirstNearest(all: seq<Point>, target: Point, i: int) {
    0 <= i < |all| &&
    (forall j :: 0 <= j < |all| ==> SqDist(all[i], target) <= SqDist(all[j], target)) &&
    (forall j :: 0 <= j < i ==> SqDist(all[j], target) > SqDist(all[i], target))
  }

  /**
   * `find_NN(all, target_point)`: a linear scan that replaces the best point
   * only on a strictly smaller distance, so it returns the first nearest
   * point, and nothing for an empty list.
   */
  method FindNN(all: seq<Point>, target: Point) returns (optimal: Option<Point>)
    ensures optimal.None? <==> |all| == 0
    ensures optimal.Some? ==> exists i :: FirstNearest(all, target, i) && all[i] == optimal.value
  {
    optimal := None;
    var optimalDist: Option<real> := None;
    ghost var bestIndex := 0;
    var n := 0;
    while n < |all|
      invariant 0 <= n <= |all|
      invariant optimal.None? <==> n == 0
      invariant optimalDist.None? <==> n == 0
      invariant n > 0 ==> FirstNearest(all[..n], target, bestIndex) && optimal == Some(all[bestIndex]) &&
                          optimalDist == Some(SqDist(all[bestIndex], target))
    {
      var current := all[n];
      var currentDist := SqDist(current, target);
      if optimalDist.None? {
        optimalDist := Some(currentDist);
        optimal := Some(current);
        bestIndex := n;
      }
      if currentDist < optimalDist.value {
        optimalDist := Some(currentDist);
        optimal := Some(current);
        bestIndex := n;
      }
      n := n + 1;
    }
    assert all[..n] == all;
  }

  /**
   * What the demo checks: the tree search and the linear scan find points at
   * the same distance, for any point set, whenever the pruning is exact.
   */
  lemma TreeAgreesWithScan(points: seq<Point>, target: Point, i: int, rule: PruneRule)
    requires FirstNearest(points, target, i)
    requires rule == SameUnits || forall j :: 0 <= j < |points| ==> -1.0 <= target.x - points[j].x <= 1.0
    ensures var r := Nearest(BuildTree(points, 2, 0), target, 2, 0, rule);
      r.Some? && SqDist(target, r.value) == SqDist(points[i], target)
  {
    var t := BuildTree(points, 2, 0);
    var r := Nearest(t, target, 2, 0, rule);
    assert Elements(t) == multiset(points) by {
      BuildTreeElements(points, 2, 0);
    }
    assert r.Some? && r.value in multiset(points) by {
      assert points[i] in Elements(t);
    }
    assert forall p | p in multiset(points) :: SqDist(target, r.value) <= SqDist(target, p) by {
      BuildTreeOrdered(points, 2, 0);
      PruningExactFromPoints(points, t, target, rule);
      NearestFindsMinimum(t, target, 2, 0, rule);
    }
    MinimumIsFirstNearestDistance(points, target, i, r.value);
  }

  /** A point of `points` at least as near as all of them is exactly as near as the first nearest one. */
  lemma MinimumIsFirstNearestDistance(points: seq<Point>, target: Point, i: int, x: Point)
    requires FirstNearest(points, target, i) && x in multiset(points)
    requires forall p | p in multiset(points) :: SqDist(target, x) <= SqDist(target, p)
    ensures SqDist(target, x) == SqDist(points[i], target)
  {
    var j :| 0 <= j < |points| && points[j] == x;
    assert points[i] in multiset(points);
    SqDistSymmetric(points[i], target);
    SqDistSymmetric(points[j], target);
  }

  lemma PruningExactFromPoints(points: seq<Point>, t: Tree, target: Point, rule: PruneRule)
    requires Elements(t) == multiset(points)
    requires rule == SameUnits || forall j :: 0 <= j < |points| ==> -1.0 <= target.x - points[j].x <= 1.0
    ensures PruningExact(rule, t, target)
  {
    if rule == AsWritten {
      forall p | p in Elements(t) ensures -1.0 <= target.x - p.x <= 1.0 {
        var j :| 0 <= j < |points| && points[j] == p;
      }
    }
  }

  // ---------------------------------------------------------------------
  // Concrete examples
  // ---------------------------------------------------------------------

  /** One level of the one-axis build, given the sorted order of its input. */
  lemma BuildOnXStep(points: seq<Point>, sorted: seq<Point>, m: int)
    requires |points| > 0 && m == |points| / 2 && SortBy(points, ByX) == sorted
    ensures BuildTree(points, 1, 0) == Node(sorted[m], BuildTree(sorted[..m], 1, 0), BuildTree(sorted[m + 1..], 1, 0))
  {
  }

  /** A single point becomes a leaf. */
  lemma LeafTree(p: Point)
    ensures BuildTree([p], 1, 0) == Node(p, Empty, Empty)
  {
    assert SortBy([p], ByX) == [p];
    assert [p][..0] == [] && [p][1..] == [];
  }

  /** A search of a leaf returns its point. */
  lemma LeafSearch(p: Point, target: Point, rule: PruneRule)
    ensures Nearest(Node(p, Empty, Empty), target, 1, 0, rule) == Some(p)
  {
  }

  /**
   * The six-point example (2,3), (5,4), (9,6), (4,7), (8,1), (7,2): the root
   * is (7,2), its left child is (4,7), the median on x of the three left
   * points (a split on y would have picked (5,4)), and the nearest point to
   * (9,2) is (8,1), at squared distance 2.
   */
  lemma SixPointExample(a: Point, b: Point, c: Point, d: Point, e: Point, f: Point, q: Point)
    requires a == Point(2.0, 3.0) && b == Point(5.0, 4.0) && c == Point(9.0, 6.0)
    requires d == Point(4.0, 7.0) && e == Point(8.0, 1.0) && f == Point(7.0, 2.0) && q == Point(9.0, 2.0)
    ensures BuildTree([a, b, c, d, e, f], 2, 0) ==
      Node(f, Node(d, Node(a, Empty, Empty), Node(b, Empty, Empty)), Node(c, Node(e, Empty, Empty), Empty))
    ensures Nearest(BuildTree([a, b, c, d, e, f], 2, 0), q, 2, 0, AsWritten) == Some(e)
    ensures SqDist(q, e) == 2.0
  {
    SixPointTree(a, b, c, d, e, f);
    SixPointDistances();
    assert Sq(Sq(q.x - c.x)) == 0.0 && Sq(Sq(q.x - f.x)) == 16.0;
    SixPointSearch(a, b, c, d, e, f, q);
    NearestSplitsOnX(BuildTree([a, b, c, d, e, f], 2, 0), q, 2, 0, AsWritten);
  }

  lemma SixPointDistances()
    ensures SqDist(Point(9.0, 2.0), Point(8.0, 1.0)) == 2.0
    ensures SqDist(Point(9.0, 2.0), Point(9.0, 6.0)) == 16.0
    ensures SqDist(Point(9.0, 2.0), Point(7.0, 2.0)) == 4.0
    ensures Sq(Sq(0.0)) == 0.0 && Sq(Sq(2.0)) == 16.0
  {
    assert Sq(0.0) == 0.0;
    assert SqDist(Point(9.0, 2.0), Point(8.0, 1.0)) == 2.0;
    assert SqDist(Point(9.0, 2.0), Point(9.0, 6.0)) == 16.0;
    assert SqDist(Point(9.0, 2.0), Point(7.0, 2.0)) == 4.0;
    assert Sq(2.0) == 4.0;
  }

  // The six-point example is proved in small steps: the root split, the
  // sorted order (a permutation made of three exchanges, each its own lemma),
  // the slices around the median, and the two subtrees.  Each step is a lemma
  // of its own so that the solver sees only one literal sequence at a time.

  /** The build of six points whose x order is a, d, b, f, e, c. */
  lemma SixPointTree(a: Point, b: Point, c: Point, d: Point, e: Point, f: Point)
    requires a.x < d.x < b.x < f.x < e.x < c.x
    ensures BuildTree([a, b, c, d, e, f], 2, 0) ==
      Node(f, Node(d, Node(a, Empty, Empty), Node(b, Empty, Empty)), Node(c, Node(e, Empty, Empty), Empty))
  {
    SixPointRoot(a, b, c, d, e, f);
    ThreeOnX(a, d, b);
    TwoOnX(e, c);
    BuildTreeSplitsOnX([a, b, c, d, e, f], 2, 0);
  }

  lemma SixPointRoot(a: Point, b: Point, c: Point, d: Point, e: Point, f: Point)
    requires a.x < d.x < b.x < f.x < e.x < c.x
    ensures BuildTree([a, b, c, d, e, f], 1, 0) == Node(f, BuildTree([a, d, b], 1, 0), BuildTree([e, c], 1, 0))
  {
    var sorted := [a, d, b, f, e, c];
    SixPointOrder(a, b, c, d, e, f);
    SixPointSlices(sorted, a, b, c, d, e, f);
    BuildOnXStep([a, b, c, d, e, f], sorted, 3);
  }

  lemma SixPointSlices(sorted: seq<Point>, a: Point, b: Point, c: Point, d: Point, e: Point, f: Point)
    requires sorted == [a, d, b, f, e, c]
    ensures sorted[..3] == [a, d, b] && sorted[3] == f && sorted[4..] == [e, c]
  {
  }

  lemma SixPointOrder(a: Point, b: Point, c: Point, d: Point, e: Point, f: Point)
    requires a.x < d.x < b.x < f.x < e.x < c.x
    ensures SortBy([a, b, c, d, e, f], ByX) == [a, d, b, f, e, c]
  {
    SixPointPermutation(a, b, c, d, e, f);
    XOrderSorted(a, b, c, d, e, f);
    SortByIsTheSortedArrangement([a, b, c, d, e, f], [a, d, b, f, e, c], ByX);
  }

  /** The six points in x order are sorted by x, with distinct keys. */
  lemma XOrderSorted(a: Point, b: Point, c: Point, d: Point, e: Point, f: Point)
    requires a.x < d.x < b.x < f.x < e.x < c.x
    ensures Sorted([a, d, b, f, e, c], ByX) && DistinctKeys([a, d, b, f, e, c], ByX)
  {
    IncreasingIsSorted([a, d, b, f, e, c], ByX);
  }

  /** The input order and the x order hold the same points: three exchanges lead from one to the other. */
  lemma SixPointPermutation(a: Point, b: Point, c: Point, d: Point, e: Point, f: Point)
    ensures multiset([a, b, c, d, e, f]) == multiset([a, d, b, f, e, c])
  {
    SixPointSwapBD(a, b, c, d, e, f);
    SixPointSwapCB(a, b, c, d, e, f);
    SixPointSwapCF(a, b, c, d, e, f);
  }

  lemma SixPointSwapBD(a: Point, b: Point, c: Point, d: Point, e: Point, f: Point)
    ensures multiset([a, b, c, d, e, f]) == multiset([a, d, c, b, e, f])
  {
    SwapTwo([a, b, c, d, e, f], [a, d, c, b, e, f], 1, 3);
  }

  lemma SixPointSwapCB(a: Point, b: Point, c: Point, d: Point, e: Point, f: Point)
    ensures multiset([a, d, c, b, e, f]) == multiset([a, d, b, c, e, f])
  {
    SwapTwo([a, d, c, b, e, f], [a, d, b, c, e, f], 2, 3);
  }

  lemma SixPointSwapCF(a: Point, b: Point, c: Point, d: Point, e: Point, f: Point)
    ensures multiset([a, d, b, c, e, f]) == multiset([a, d, b, f, e, c])
  {
    SwapTwo([a, d, b, c, e, f], [a, d, b, f, e, c], 3, 5);
  }

  /** Exchanging two elements keeps the multiset. */
  lemma SwapTwo(s: seq<Point>, t: seq<Point>, i: nat, j: nat)
    requires i < j < |s| == |t| && t[i] == s[j] && t[j] == s[i]
    requires forall k :: 0 <= k < |s| && k != i && k != j ==> t[k] == s[k]
    ensures multiset(s) == multiset(t)
  {
    assert s == s[..i] + [s[i]] + s[i + 1..j] + [s[j]] + s[j + 1..];
    assert t == s[..i] + [s[j]] + s[i + 1..j] + [s[i]] + s[j + 1..];
  }

  /** Two points with increasing x make a root with a left leaf. */
  lemma TwoOnX(e: Point, c: Point)
    requires e.x < c.x
    ensures BuildTree([e, c], 1, 0) == Node(c, Node(e, Empty, Empty), Empty)
  {
    IncreasingIsSorted([e, c], ByX);
    SortBySortedIsIdentity([e, c], ByX);
    BuildOnXStep([e, c], [e, c], 1);
    assert [e, c][..1] == [e] && [e, c][2..] == [];
    LeafTree(e);
  }

  /** The search for a target right of both f and c on the six-point tree, when e is nearest among the points it visits. */
  lemma SixPointSearch(a: Point, b: Point, c: Point, d: Point, e: Point, f: Point, q: Point)
    requires f.x <= q.x && c.x <= q.x
    requires SqDist(q, e) < SqDist(q, c) && SqDist(q, e) < SqDist(q, f)
    requires SqDist(q, c) > Sq(Sq(q.x - c.x)) && SqDist(q, e) <= Sq(Sq(q.x - f.x))
    ensures Nearest(Node(f, Node(d, Node(a, Empty, Empty), Node(b, Empty, Empty)), Node(c, Node(e, Empty, Empty), Empty)),
                    q, 1, 0, AsWritten) == Some(e)
  {
    var right := Node(c, Node(e, Empty, Empty), Empty);
    NearestOfPair(c, e, q, AsWritten);
    assert Nearest(right, q, 1, 0, AsWritten) == Some(e);
    NearestRightFirst(Node(d, Node(a, Empty, Empty), Node(b, Empty, Empty)), f, right, q, AsWritten);
  }

  /** The search of a node with only a left leaf, for a target right of it. */
  lemma NearestOfPair(c: Point, e: Point, q: Point, rule: PruneRule)
    requires c.x <= q.x
    ensures Nearest(Node(c, Node(e, Empty, Empty), Empty), q, 1, 0, rule) ==
      if SearchFarSide(rule, SqDist(q, c), q.x - c.x) then Closest(q, Some(e), Some(c)) else Some(c)
  {
    LeafSearch(e, q, rule);
    NearestStep(Node(c, Node(e, Empty, Empty), Empty), q, 1, 0, rule);
  }

  /** One level of the search when the target is right of the node's point. */
  lemma NearestRightFirst(left: Tree, n: Point, right: Tree, q: Point, rule: PruneRule)
    requires n.x <= q.x
    ensures var best := Closest(q, Nearest(right, q, 1, 0, rule), Some(n));
      Nearest(Node(n, left, right), q, 1, 0, rule) ==
        if SearchFarSide(rule, SqDist(q, best.value), q.x - n.x) then Closest(q, Nearest(left, q, 1, 0, rule), best) else best
  {
    NearestStep(Node(n, left, right), q, 1, 0, rule);
  }

  /** Three points with increasing x make a root with two leaves. */
  lemma ThreeOnX(a: Point, b: Point, c: Point)
    requires a.x < b.x < c.x
    ensures BuildTree([a, b, c], 1, 0) == Node(b, Node(a, Empty, Empty), Node(c, Empty, Empty))
  {
    ThreeRoot(a, b, c);
    LeafTree(a);
    LeafTree(c);
  }

  lemma ThreeRoot(a: Point, b: Point, c: Point)
    requires a.x < b.x < c.x
    ensures BuildTree([a, b, c], 1, 0) == Node(b, BuildTree([a], 1, 0), BuildTree([c], 1, 0))
  {
    var points := [a, b, c];
    ThreeSorted(a, b, c);
    BuildOnXStep(points, points, 1);
    assert points[..1] == [a] && points[2..] == [c];
  }

  /** Three points already in x order are left as they are by the sort. */
  lemma ThreeSorted(a: Point, b: Point, c: Point)
    requires a.x < b.x < c.x
    ensures SortBy([a, b, c], ByX) == [a, b, c]
  {
    IncreasingIsSorted([a, b, c], ByX);
    SortBySortedIsIdentity([a, b, c], ByX);
  }

  /**
   * The pruning as written can miss the nearest point once an offset exceeds
   * 1.  Take three points in increasing x order, with the target left of the
   * middle one `b`, `a` nearer than `b`, and `c` nearer still.  The search
   * descends to `a`, and then the `AsWritten` rule skips the far side because
   * the offset's fourth power is at least the best squared distance.  The
   * `SameUnits` rule searches the far side, because the offset's square is
   * smaller than that distance, and so it finds `c`.
   */
  lemma AsWrittenPruningMisses(a: Point, b: Point, c: Point, target: Point)
    requires a.x < b.x < c.x && target.x < b.x
    requires SqDist(target, c) < SqDist(target, a) < SqDist(target, b)
    requires Sq(target.x - b.x) < SqDist(target, a) <= Sq(Sq(target.x - b.x))
    ensures Nearest(BuildTree([a, b, c], 2, 0), target, 2, 0, AsWritten) == Some(a)
    ensures Nearest(BuildTree([a, b, c], 2, 0), target, 2, 0, SameUnits) == Some(c)
  {
    ThreeOnX(a, b, c);
    BuildTreeSplitsOnX([a, b, c], 2, 0);
    var t := Node(b, Node(a, Empty, Empty), Node(c, Empty, Empty));
    NearestOfThree(a, b, c, target, AsWritten);
    NearestOfThree(a, b, c, target, SameUnits);
    assert Closest(target, Some(a), Some(b)) == Some(a);
    NearestSplitsOnX(t, target, 2, 0, AsWritten);
    NearestSplitsOnX(t, target, 2, 0, SameUnits);
  }

  /** The search of a three-node tree whose target lies left of the root. */
  lemma NearestOfThree(a: Point, b: Point, c: Point, target: Point, rule: PruneRule)
    requires target.x < b.x
    ensures var best := Closest(target, Some(a), Some(b));
      Nearest(Node(b, Node(a, Empty, Empty), Node(c, Empty, Empty)), target, 1, 0, rule) ==
        if SearchFarSide(rule, SqDist(target, best.value), target.x - b.x)
        then Closest(target, Some(c), best) else best
  {
    LeafSearch(a, target, rule);
    LeafSearch(c, target, rule);
    NearestStep(Node(b, Node(a, Empty, Empty), Node(c, Empty, Empty)), target, 1, 0, rule);
  }

  /**
   * A concrete instance: for (-3,5), (0,20), (1,0) and target (-3,0) the
   * search as written stops at (-3,5), at squared distance 25, because
   * 25 <= 3**4, while (1,0) is at squared distance 16.
   */
  lemma PruningCounterexample(a: Point, b: Point, c: Point, target: Point)
    requires a == Point(-3.0, 5.0) && b == Point(0.0, 20.0) && c == Point(1.0, 0.0) && target == Point(-3.0, 0.0)
    ensures Nearest(BuildTree([a, b, c], 2, 0), target, 2, 0, AsWritten) == Some(a)
    ensures Nearest(BuildTree([a, b, c], 2, 0), target, 2, 0, SameUnits) == Some(c)
    ensures SqDist(target, c) < SqDist(target, a)
  {
    assert Sq(0.0) == 0.0;
    CounterexampleDistances();
    assert SqDist(target, a) == 25.0 && SqDist(target, b) == 409.0 && SqDist(target, c) == 16.0;
    assert Sq(target.x - b.x) == 9.0 && Sq(Sq(target.x - b.x)) == 81.0;
    AsWrittenPruningMisses(a, b, c, target);
  }

  lemma CounterexampleDistances()
    ensures SqDist(Point(-3.0, 0.0), Point(-3.0, 5.0)) == 25.0
    ensures SqDist(Point(-3.0, 0.0), Point(0.0, 20.0)) == 409.0
    ensures SqDist(Point(-3.0, 0.0), Point(1.0, 0.0)) == 16.0
    ensures Sq(-3.0) == 9.0 && Sq(Sq(-3.0)) == 81.0
  {
    assert Sq(0.0) == 0.0;
  }
}
