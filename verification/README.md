# KDtree-Quadtree in Dafny

A Dafny model of the two spatial indexes of the KDtree-Quadtree repository,
with proofs of what they promise.

**Region quadtree (Quadtree.py).**
- A node has a boundary `Rect`, a capacity `max_points`, its own points and,
  once divided, four children for its quadrants.
- `insert` appends a point while the node has room. A full node divides once
  and offers later points to its children in the order ne, nw, se, sw.
- `query` collects the points inside a range.
- `find_k_NN` queries square windows of growing size around a point, sorts
  what the chosen window holds by distance and keeps the first k.

The quadtree is modelled twice:
- module `QuadTree` (quadtree.dfy) models the tree as a value `QTree`, with
  functions and lemmas;
- module `QuadTreeClass` (quadtree_class.dfy) models the `Quadtree` class
  itself. Its fields are updated in place, and each method is proved against
  the functions of `QuadTree` through the ghost field `Model`. Frames are
  tracked through `Repr`.

**KD-tree (KDtree.py).**
- `build_tree` builds by median split over a stable sort.
- `closest_distance` picks between two optional points, and a tie goes to
  the second.
- `kdtree_NN` is a branch-and-bound nearest-neighbour search.
- `find_NN` is the linear scan the demo compares it with.

The recursive calls of `build_tree` and `kdtree_NN` pass `depth + 1` in the
position of `k`. The model keeps this exactly, so every level below the
root splits on x. The search agrees with the build on this.

**Shared modules.**
- `Geometry` (geometry.dfy): points, rectangles (half-open `contains`,
  closed `intersects`), quadrants, and squared distance.
- `Sorting` (sorting.dfy): Python's stable `sorted`.
- `Arith` (arith.dfy): `depth % k`.

Coordinates are mathematical reals. Distances are compared as squared
distances: `sqrt` is strictly increasing on non-negative numbers, so every
comparison and every sort order the code makes comes out the same.

## Model

| member | source | states |
|---|---|---|
| Geometry.IntersectsSymmetric | Quadtree.py:39-45 | `a.intersects(b)` and `b.intersects(a)` always agree |
| Geometry.CommonPointIntersects | Quadtree.py:39-45 | two rectangles that both contain some point intersect, so skipping a node whose boundary misses the range loses nothing |
| Geometry.QuadrantsTile | Quadtree.py:56-72 | the four quadrants `divide` builds tile the boundary: a point the boundary contains is in exactly one quadrant, and a point of a quadrant is in the boundary |
| Geometry.FourthPowerBelowSquare | KDtree.py:75 | an offset of absolute value at most 1 has a fourth power no larger than its square; this is why the pruning test is exact in that case |
| Sorting.SortBy | Quadtree.py:126 | `sorted` returns a permutation of its input |
| Sorting.SortBySorted | KDtree.py:21 | the result of `sorted` is ordered by the key |
| Sorting.SortBySortedIsIdentity | KDtree.py:21 | sorting a sequence that is already ordered leaves it unchanged |
| Sorting.SortByStable | KDtree.py:21 | `sorted` is stable: for every key value, the points with that key come out in the order they went in, which decides the median among equal x and which equidistant points `find_k_NN` keeps at the cut |
| Sorting.InsertSortedFilter | Quadtree.py:126 | one insertion step of the sort puts the new point in front of the points with its own key and keeps the order of all others |
| Sorting.SortByIsTheSortedArrangement | KDtree.py:21 | with distinct keys, `sorted` returns the only ordered permutation of its input |
| Arith.RemainderIsMod | KDtree.py:19 | the remainder used for `depth % k` is the `%` operator on the non-negative `depth` and positive `k` the code passes |
| QuadTree.EmptyTree | Quadtree.py:49-54 | a new node stores nothing and, with a capacity of at least 1, is well formed |
| QuadTree.DivideTree | Quadtree.py:56-72 | `divide` keeps the node's boundary, capacity and points, adds children that fit the quadrants, and moves no point |
| QuadTree.DivideKeepsWellFormed | Quadtree.py:56-72 | dividing a full, well-formed leaf gives a well-formed node |
| QuadTree.OfferToChildren | Quadtree.py:89-92 | offering a point to the children changes no field of the node itself |
| QuadTree.InsertOk | Quadtree.py:74-92 | with a capacity of at least 1, `insert` returns true exactly when the boundary contains the point; a false return leaves the tree unchanged |
| QuadTree.OfferOk | Quadtree.py:89-92 | a divided node whose boundary contains the point always finds a child that takes it |
| QuadTree.InsertKeepsWellFormed | Quadtree.py:80-92 | `insert` keeps the invariant: every node holds at most `max_points` points, each inside its own boundary, and only a full node is divided |
| QuadTree.InsertAddsPoint | Quadtree.py:80-92 | after `insert` the subtree stores exactly the points it stored before plus the new point if the call returned true |
| QuadTree.InsertGrows | Quadtree.py:80-87 | `insert` moves no stored point: every node keeps its points as a prefix, a divided node stays divided, and a leaf divides only when it is full, keeping its points |
| QuadTree.InRangeCount | Quadtree.py:103-105 | the loop over `self.points` keeps each point the range contains, as often as it occurs, and nothing else |
| QuadTree.InRangeSelects | Quadtree.py:103-105 | what the loop keeps is part of the node's points and lies in the range |
| QuadTree.InRangeAppend | Quadtree.py:103-111 | the selection of a concatenation is the concatenation of the selections |
| QuadTree.StoredInside | Quadtree.py:77-83 | every point stored in a well-formed subtree lies inside its root's boundary |
| QuadTree.QueryTree | Quadtree.py:94-112 | the accumulating query returns at least the node's own points in range |
| QuadTree.QueryTreeExact | Quadtree.py:94-112 | on a well-formed tree the accumulating query returns exactly the stored points the range contains, each as often as it is stored |
| QuadTree.QueryLocal | Quadtree.py:94-112 | the query as written returns nothing (False) exactly when the boundary misses the range, and otherwise exactly the node's own points that the range contains, each as often as it is stored, and none of the children's |
| QuadTree.QueryLocalMissesChildren | Quadtree.py:107-111 | the query as written loses a point in range that only a child stores, while the accumulating query returns it |
| QuadTree.ExampleTree | Quadtree.py:144-149 | the demo's first three insertions, with the default capacity 2: (1,2) and (2,3) fill the root, and (4,6) divides it and goes to the south-west child |
| QuadTree.ExampleQuery | Quadtree.py:154-161 | on that tree, in the window of side 8 around (2,6), the query as written returns only (1,2) and (2,3), while (4,6) lies in the window |
| QuadTree.Pow2 | Quadtree.py:122 | `2**i`, for the natural `i` of the loop, is at least 1 |
| QuadTree.ChosenRound | Quadtree.py:121-125 | the loop stops at the first round from 1 to 9 whose window yields at least k points, or at round 9 |
| QuadTree.Take | Quadtree.py:126 | `s[:k]` is a prefix of `s`, of length k capped at `len(s)`, and for a negative k it drops the last -k elements |
| QuadTree.KNearestSpec | Quadtree.py:114-126 | `find_k_NN` returns at most k of the points its chosen window yields (exactly k when there are that many), in non-decreasing distance, and no point left out is nearer than one returned |
| QuadTree.KNearestStored | Quadtree.py:114-126 | on a well-formed tree every point `find_k_NN` returns is stored in the tree and lies inside both the chosen window and the boundary |
| QuadTree.PrefixOfSorted | Quadtree.py:126 | cutting a sorted sequence keeps it sorted, and no element cut off is before one that is kept |
| QuadTreeClass.Quadtree.constructor | Quadtree.py:49-54 | a new node is valid and stands for the empty tree with that boundary and capacity |
| QuadTreeClass.Quadtree.Divide | Quadtree.py:56-72 | the node gets four fresh children and now stands for `DivideTree` of the tree before |
| QuadTreeClass.Quadtree.Quarters | Quadtree.py:64-71 | the four new children are fresh, distinct, valid and empty, with the quadrant boundaries and the node's capacity |
| QuadTreeClass.Quadtree.Insert | Quadtree.py:74-92 | the objects change in place exactly as `InsertTree` says, and the returned flag is its flag; validity and well-formedness are kept |
| QuadTreeClass.Quadtree.Offer | Quadtree.py:89-92 | the `or` chain over ne, nw, se, sw changes the objects exactly as `OfferToChildren` says |
| QuadTreeClass.Quadtree.InsertNe | Quadtree.py:89 | inserting into the ne child replaces only that child's tree, with the result of `InsertTree` |
| QuadTreeClass.Quadtree.InsertNw | Quadtree.py:90 | the same for the nw child |
| QuadTreeClass.Quadtree.InsertSe | Quadtree.py:91 | the same for the se child |
| QuadTreeClass.Quadtree.InsertSw | Quadtree.py:92 | the same for the sw child |
| QuadTreeClass.Quadtree.PointsIn | Quadtree.py:102-105 | the loop over `self.points` returns the node's points in range, in order |
| QuadTreeClass.Quadtree.QueryAsWritten | Quadtree.py:94-112 | the query exactly as written returns `QueryLocal`, and changes nothing |
| QuadTreeClass.Quadtree.Query | Quadtree.py:94-112 | the accumulating query returns `QueryTree`: empty when the boundary misses the range and, on a well-formed tree, exactly the stored points in range; it changes nothing |
| QuadTreeClass.Quadtree.FindKNN | Quadtree.py:114-126 | the window loop with the accumulating query returns `KNearest`, whose properties are those of `KNearestSpec` and `KNearestStored` |
| KDTree.BuildTreeElements | KDtree.py:10-28 | the tree holds exactly the input points as a multiset: none lost, none duplicated |
| KDTree.BuildTreeSplitsOnX | KDtree.py:19-26 | because the child calls bind `k = depth + 1` and `depth = 0`, every level splits on axis 0 |
| KDTree.BuildTreeOrdered | KDtree.py:21-26 | every point of a left subtree has x at most the node's x, and every point of a right subtree at least |
| KDTree.BuildTreeHalves | KDtree.py:16-26 | `build_tree([])` is None; otherwise the left subtree holds n//2 points and the right one n - n//2 - 1 |
| KDTree.BuildTreeHeight | KDtree.py:24-26 | the height of a tree of n points is at most floor(log2 n) + 1 |
| KDTree.Closest | KDtree.py:31-47 | returns the other argument when one is None; otherwise one of the two, at a distance no larger than either, and `point1` only when it is strictly nearer |
| KDTree.Nearest | KDtree.py:50-80 | `kdtree_NN` returns None exactly for the empty tree, and otherwise a stored point |
| KDTree.NearestSplitsOnX | KDtree.py:56-77 | the search, like the build, splits on axis 0 at every level |
| KDTree.NearestFindsMinimum | KDtree.py:50-80 | on an x-ordered tree the search returns a point at least as near as every stored point, whenever the pruning test is exact |
| KDTree.PrunedSideIsFar | KDtree.py:75-78 | when the test skips the far side of a split, nothing there is nearer than the best point so far |
| KDTree.FindNN | KDtree.py:83-100 | `find_NN` returns None for an empty list, and otherwise the first point at minimal distance |
| KDTree.TreeAgreesWithScan | KDtree.py:123-133 | the tree search and the linear scan find points at the same distance, for any point set, whenever the pruning is exact (always with the corrected test; with the test as written when every x offset is at most 1) |
| KDTree.SixPointExample | KDtree.py:10-80 | for (2,3),(5,4),(9,6),(4,7),(8,1),(7,2) the root is (7,2), its left child is (4,7), and the nearest point to (9,2) is (8,1), at squared distance 2 |
| KDTree.AsWrittenPruningMisses | KDtree.py:75 | with an offset above 1 the test as written can skip the side that holds the nearest point, where the corrected test finds it |
| KDTree.PruningCounterexample | KDtree.py:75 | for (-3,5),(0,20),(1,0) and target (-3,0) the search as written returns (-3,5) at squared distance 25, while (1,0) is at 16 |

## Left out

- The module-level demo scripts are not modelled, only the first insertions
  and the window of the quadtree demo as examples. These are
  Quadtree.py:144-178 and KDtree.py:104-136, with their random point
  generation and prints.
- Printing is not modelled: `print__`, `Point.__str__` and the `pprint`
  output. It is output only.
- The toy `Point` class with `left`/`right`, `insert_new` and `print_nodes`
  (KDtree.py:139-180) are not modelled. They form a separate demo tree.
- Floating-point rounding is not modelled. Coordinates are mathematical
  reals; this includes `w/2` in `Rect` and `divide`.
- `sqrt` is replaced by squared distances. It is strictly increasing on
  non-negative numbers, so every comparison and sort order is the same.
  The pruning test `sqrt(D) > dx**2` is modelled as `D > dx**4`, its
  equivalent for non-negative D.
- Default arguments are explicit parameters here: `max_points=2` of
  `Quadtree.__init__` (Quadtree.py:49) and `k=1` of `find_k_NN`
  (Quadtree.py:114), in `FindKNN` and `KNearest`. The constructor requires
  `max_points` to be at least 1. With 0 or less, every insertion inside
  the boundary divides without end.
- `build_tree` and `kdtree_NN` are modelled only for the arguments the
  code itself passes. The default call has k = 2 and depth = 0. Every
  recursive call has k = depth + 1 and depth = 0. The requires clauses
  `k >= 1`, `depth >= 0` and `Remainder(depth, k) < 2` hold for all of
  these calls. Python also accepts other arguments, which the model leaves
  out:
  - With k ≥ 1, Python's `depth % k` lies in [0, k) even for a negative
    depth, and the root splits on that axis.
  - With depth = -1, the child calls get k = 0, so `0 % 0` raises
    ZeroDivisionError as soon as a half is non-empty.
  - With depth 0, `0 % k == 0` for any nonzero k, so a negative k also
    splits on x.
  - A negative axis of -1 or -2 indexes y or x.
  - An axis of 2 or more, or below -2, raises IndexError on 2-D points.
- The literal `query` returns `False` when the boundary misses the range.
  `find_k_NN` would then fail on `len(False)`. `FindKNN` uses the corrected,
  accumulating query, which returns an empty sequence there.
- Both the `Point(x, y)` objects of Quadtree.py and the `[x, y]` lists of
  KDtree.py are modelled as one `Point` datatype.

## Findings

| source | as written | input that shows it | evidently intended | confidence | as-written member | corrected member |
|---|---|---|---|---|---|---|
| Quadtree.py:100-112 | `query` returns `False` when the boundary misses the range, and drops the results of the children's queries, so only the root's own points ever come back | the demo tree after inserting (1,2), (2,3), (4,6) with capacity 2, queried with the window Rect(2,6,8,8) that `find_k_NN(Point(2,6))` reaches: the result is [(1,2), (2,3)], and (4,6) is missing although it lies in the window | an empty result for a missed boundary, and the node's points in range followed by the children's results, as the comment at line 106 says | not executed | QuadTree.QueryLocalMissesChildren | QuadTree.QueryTreeExact |
| KDtree.py:75 | the pruning test compares the plain distance `sqrt(D)` with the squared offset `dx**2`, so it prunes when D <= dx**4; with an offset above 1 it skips a side that holds a nearer point | points (-3,5), (0,20), (1,0), target (-3,0): the search returns (-3,5) at squared distance 25, while (1,0) is at 16 | compare squared distance with squared offset (D > dx**2), which is exact for every point set | not executed | KDTree.PruningCounterexample | KDTree.TreeAgreesWithScan |
