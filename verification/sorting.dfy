/**
 * Python's `sorted(points, key=...)`, the one library routine both indexes
 * rely on: a stable sort, so points with equal keys keep their input order.
 * It is modelled as an insertion sort that puts each element in front of the
 * first element whose key is not smaller; since the elements behind it came
 * later in the input, equal keys keep their input order.
 */
module Sorting {
  import opened Geometry

  /**
   * The sort keys the code uses: a coordinate (`point[split_axis]` in the
   * KD-tree builder) or the distance to a query point (`dist_points` in the
   * quadtree's k-NN search).  The distance key is the squared distance:
   * a square root is strictly increasing on non-negative reals, so both keys
   * order the points alike and tie on the same pairs, and a stable sort gives
   * the same sequence for either.
   */
  datatype Key = ByX | ByY | ByDistance(from: Point)

  function AxisKey(axis: int): Key
    requires 0 <= axis < 2
  {
    if axis == 0 then ByX else ByY
  }

  function KeyOf(key: Key, p: Point): real {
    match key
    case ByX => p.x
    case ByY => p.y
    case ByDistance(q) => SqDist(q, p)
  }

  ghost predicate Sorted(s: seq<Point>, key: Key) {
    forall i, j :: 0 <= i < j < |s| ==> KeyOf(key, s[i]) <= KeyOf(key, s[j])
  }

  /** Puts `x` in front of the first element of `s` whose key is not below its own. */
  function InsertSorted(x: Point, s: seq<Point>, key: Key): (r: seq<Point>)
    ensures |r| == |s| + 1 && multiset(r) == multiset(s) + multiset{x}
  {
    if s == [] || KeyOf(key, x) <= KeyOf(key, s[0]) then [x] + s
    else
      assert s == [s[0]] + s[1..];
      [s[0]] + InsertSorted(x, s[1..], key)
  }

  /** `sorted(s, key=key)`. */
  function SortBy(s: seq<Point>, key: Key): (r: seq<Point>)
    ensures |r| == |s| && multiset(r) == multiset(s)
  {
    if s == [] then []
    else
      assert s == [s[0]] + s[1..];
      InsertSorted(s[0], SortBy(s[1..], key), key)
  }

  lemma {:induction false} InsertSortedKeepsSorted(x: Point, s: seq<Point>, key: Key)
    requires Sorted(s, key)
    ensures Sorted(InsertSorted(x, s, key), key)
  {
    if s != [] && KeyOf(key, x) > KeyOf(key, s[0]) {
      var rest := InsertSorted(x, s[1..], key);
      InsertSortedKeepsSorted(x, s[1..], key);
      forall k | 0 <= k < |rest|
        ensures KeyOf(key, s[0]) <= KeyOf(key, rest[k])
      {
        assert rest[k] in multiset(rest);
        assert rest[k] in multiset(s[1..]) || rest[k] == x;
        if rest[k] != x {
          var m :| 0 <= m < |s[1..]| && s[1..][m] == rest[k];
          assert s[m + 1] == rest[k];
        }
      }
    }
  }

  /** The result of the sort is ordered by the key; with the multiset clause of `SortBy` it is a sorted permutation. */
  lemma {:induction false} SortBySorted(s: seq<Point>, key: Key)
    ensures Sorted(SortBy(s, key), key)
  {
    if s != [] {
      SortBySorted(s[1..], key);
      InsertSortedKeepsSorted(s[0], SortBy(s[1..], key), key);
    }
  }

  /** Sorting a sequence that is already sorted leaves it as it is: the sort moves nothing it does not have to. */
  lemma {:induction false} SortBySortedIsIdentity(s: seq<Point>, key: Key)
    requires Sorted(s, key)
    ensures SortBy(s, key) == s
  {
    if s != [] {
      SortBySortedIsIdentity(s[1..], key);
      assert SortBy(s[1..], key) == s[1..];
    }
  }

  /** The elements of `s` whose key is `v`, in their order in `s`. */
  function KeyFilter(s: seq<Point>, key: Key, v: real): (r: seq<Point>)
    ensures |r| <= |s|
  {
    if s == [] then []
    else (if KeyOf(key, s[0]) == v then [s[0]] else []) + KeyFilter(s[1..], key, v)
  }

  /**
   * Inserting `x` puts it in front of every element with its own key (the
   * elements it passes have smaller keys), and keeps the order of the
   * elements with any other key.
   */
  lemma {:induction false} InsertSortedFilter(x: Point, s: seq<Point>, key: Key, v: real)
    ensures KeyFilter(InsertSorted(x, s, key), key, v) ==
      (if KeyOf(key, x) == v then [x] else []) + KeyFilter(s, key, v)
  {
    if s == [] || KeyOf(key, x) <= KeyOf(key, s[0]) {
      KeyFilterCons(x, s, key, v);
    } else {
      var rest := InsertSorted(x, s[1..], key);
      var head := if KeyOf(key, s[0]) == v then [s[0]] else [];
      var own := if KeyOf(key, x) == v then [x] else [];
      var tail := KeyFilter(s[1..], key, v);
      assert KeyFilter(InsertSorted(x, s, key), key, v) == head + KeyFilter(rest, key, v) by {
        assert InsertSorted(x, s, key) == [s[0]] + rest;
        KeyFilterCons(s[0], rest, key, v);
      }
      assert KeyFilter(rest, key, v) == own + tail by {
        InsertSortedFilter(x, s[1..], key, v);
      }
      assert KeyFilter(s, key, v) == head + tail by {
        assert s == [s[0]] + s[1..];
        KeyFilterCons(s[0], s[1..], key, v);
      }
      // `s[0]` has a smaller key than `x`, so at most one of the two has key `v`.
      assert head == [] || own == [];
      assert head + (own + tail) == own + (head + tail);
    }
  }

  lemma KeyFilterCons(y: Point, s: seq<Point>, key: Key, v: real)
    ensures KeyFilter([y] + s, key, v) == (if KeyOf(key, y) == v then [y] else []) + KeyFilter(s, key, v)
  {
    assert ([y] + s)[1..] == s;
  }

  /**
   * Stability: for every key value, the elements with that key come out of the
   * sort in the order they went in.
   */
  lemma {:induction false} SortByStable(s: seq<Point>, key: Key, v: real)
    ensures KeyFilter(SortBy(s, key), key, v) == KeyFilter(s, key, v)
  {
    if s != [] {
      SortByStable(s[1..], key, v);
      InsertSortedFilter(s[0], SortBy(s[1..], key), key, v);
    }
  }

  /** No two elements of `s` have the same key. */
  ghost predicate DistinctKeys(s: seq<Point>, key: Key) {
    forall i, j :: 0 <= i < j < |s| ==> KeyOf(key, s[i]) != KeyOf(key, s[j])
  }

  /**
   * With distinct keys there is only one sorted arrangement of a multiset of
   * points, so the sort's result is that arrangement.
   */
  lemma {:induction false} SortedArrangementUnique(x: seq<Point>, y: seq<Point>, key: Key)
    requires Sorted(x, key) && Sorted(y, key) && DistinctKeys(x, key)
    requires multiset(x) == multiset(y)
    ensures x == y
  {
    assert |x| == |multiset(x)| == |multiset(y)| == |y|;
    if x != [] {
      SortedHeadsAgree(x, y, key);
      assert x == [x[0]] + x[1..] && y == [y[0]] + y[1..];
      assert multiset(x) == multiset{x[0]} + multiset(x[1..]);
      assert multiset(y) == multiset{y[0]} + multiset(y[1..]);
      assert multiset(x[1..]) == multiset(x) - multiset{x[0]} == multiset(y) - multiset{y[0]} == multiset(y[1..]);
      TailKeepsOrder(x, key);
      TailKeepsOrder(y, key);
      SortedArrangementUnique(x[1..], y[1..], key);
    }
  }

  /** Both arrangements start with the element of least key. */
  lemma SortedHeadsAgree(x: seq<Point>, y: seq<Point>, key: Key)
    requires Sorted(x, key) && Sorted(y, key) && DistinctKeys(x, key)
    requires multiset(x) == multiset(y) && x != [] && y != []
    ensures x[0] == y[0]
  {
    assert y[0] in multiset(x) && x[0] in multiset(y);
    var i :| 0 <= i < |x| && x[i] == y[0];
    var j :| 0 <= j < |y| && y[j] == x[0];
    assert KeyOf(key, x[0]) <= KeyOf(key, x[i]) == KeyOf(key, y[0]) <= KeyOf(key, y[j]);
  }

  lemma TailKeepsOrder(s: seq<Point>, key: Key)
    requires s != []
    ensures Sorted(s, key) ==> Sorted(s[1..], key)
    ensures DistinctKeys(s, key) ==> DistinctKeys(s[1..], key)
  {
    if Sorted(s, key) {
      forall i, j | 0 <= i < j < |s[1..]| ensures KeyOf(key, s[1..][i]) <= KeyOf(key, s[1..][j]) {
        assert s[1..][i] == s[i + 1] && s[1..][j] == s[j + 1];
      }
    }
    if DistinctKeys(s, key) {
      forall i, j | 0 <= i < j < |s[1..]| ensures KeyOf(key, s[1..][i]) != KeyOf(key, s[1..][j]) {
        assert s[1..][i] == s[i + 1] && s[1..][j] == s[j + 1];
      }
    }
  }

  /** The sort of a sequence with distinct keys is its only sorted arrangement. */
  lemma SortByIsTheSortedArrangement(s: seq<Point>, sorted: seq<Point>, key: Key)
    requires Sorted(sorted, key) && DistinctKeys(sorted, key) && multiset(sorted) == multiset(s)
    ensures SortBy(s, key) == sorted
  {
    SortBySorted(s, key);
    SortedArrangementUnique(sorted, SortBy(s, key), key);
  }

  /** A sequence whose keys strictly increase from each element to the next is sorted, with distinct keys. */
  lemma IncreasingIsSorted(s: seq<Point>, key: Key)
    requires forall i :: 0 <= i < |s| - 1 ==> KeyOf(key, s[i]) < KeyOf(key, s[i + 1])
    ensures Sorted(s, key) && DistinctKeys(s, key)
  {
    forall i, j | 0 <= i < j < |s| ensures KeyOf(key, s[i]) < KeyOf(key, s[j]) {
      IncreasingChain(s, key, i, j);
    }
  }

  lemma {:induction false} IncreasingChain(s: seq<Point>, key: Key, i: int, j: int)
    requires forall i :: 0 <= i < |s| - 1 ==> KeyOf(key, s[i]) < KeyOf(key, s[i + 1])
    requires 0 <= i < j < |s|
    ensures KeyOf(key, s[i]) < KeyOf(key, s[j])
    decreases j - i
  {
    if i + 1 < j {
      IncreasingChain(s, key, i + 1, j);
    }
  }
}
