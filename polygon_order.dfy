/**
 * The fallback polygon of the reconstruction (`order_polygon`): the points of
 * a cell are sorted by the angle they make around their arithmetic mean.
 * `np.arctan2` is a collaborator; `np.argsort` is modelled by an insertion
 * sort on the angle key, which is one of the orders argsort may return.
 */
module PolygonOrder {
  import opened Mesh

  /** Non-decreasing under `key`. */
  predicate SortedBy(s: seq<Point>, key: Point -> real) {
    forall i, j :: 0 <= i < j < |s| ==> key(s[i]) <= key(s[j])
  }

  /** Points of `s` that share a key are the same point: ties cannot be told apart. */
  predicate KeyDeterminesPoint(s: seq<Point>, key: Point -> real) {
    forall i, j :: 0 <= i < |s| && 0 <= j < |s| && key(s[i]) == key(s[j]) ==> s[i] == s[j]
  }

  function Insert(p: Point, s: seq<Point>, key: Point -> real): (r: seq<Point>)
    requires SortedBy(s, key)
    ensures multiset(r) == multiset(s) + multiset{p}
    ensures SortedBy(r, key)
    ensures |r| == |s| + 1 && (r[0] == p || (|s| > 0 && r[0] == s[0]))
  {
    if s == [] || key(p) <= key(s[0]) then
      ConsSorted(p, s, key);
      [p] + s
    else
      assert s == [s[0]] + s[1..];
      var t := Insert(p, s[1..], key);
      ConsSorted(s[0], t, key);
      [s[0]] + t
  }

  /** Putting a point no later than the first of a sorted sequence in front keeps it sorted. */
  lemma ConsSorted(x: Point, t: seq<Point>, key: Point -> real)
    requires SortedBy(t, key) && (|t| > 0 ==> key(x) <= key(t[0]))
    ensures SortedBy([x] + t, key)
  {
    var r := [x] + t;
    forall i, j | 0 <= i < j < |r|
      ensures key(r[i]) <= key(r[j])
    {
      if i == 0 {
        assert r[j] == t[j - 1];
        assert key(t[0]) <= key(t[j - 1]) || j == 1;
      } else {
        assert r[i] == t[i - 1] && r[j] == t[j - 1];
      }
    }
  }

  /** A sorted permutation of `s` (what `arr[np.argsort(keys)]` computes). */
  function SortByKey(s: seq<Point>, key: Point -> real): (r: seq<Point>)
    ensures multiset(r) == multiset(s)
    ensures SortedBy(r, key)
  {
    if s == [] then []
    else
      assert s == [s[0]] + s[1..];
      Insert(s[0], SortByKey(s[1..], key), key)
  }

  function SumX(ps: seq<Point>): real {
    if ps == [] then 0.0 else SumX(ps[..|ps| - 1]) + ps[|ps| - 1].x
  }

  function SumY(ps: seq<Point>): real {
    if ps == [] then 0.0 else SumY(ps[..|ps| - 1]) + ps[|ps| - 1].y
  }

  /** The arithmetic mean of the points (`arr[:, 0].mean()`, `arr[:, 1].mean()`). */
  function Centroid(ps: seq<Point>): Point
    requires |ps| > 0
  {
    Point(SumX(ps) / |ps| as real, SumY(ps) / |ps| as real)
  }

  /** The angle of a point seen from `centre`, `arctan2(y - cy, x - cx)`. */
  function AngleAround(centre: Point, arctan2: (real, real) -> real): Point -> real {
    (p: Point) => arctan2(p.y - centre.y, p.x - centre.x)
  }

  /**
   * The vertex order of the fallback polygon: every point of the cell, once per
   * occurrence, sorted by ascending angle around the cell's mean point.
   */
  function OrderPolygon(points: seq<Point>, arctan2: (real, real) -> real): (ordered: seq<Point>)
    requires |points| > 0
    ensures multiset(ordered) == multiset(points)
    ensures |ordered| == |points|
    ensures SortedBy(ordered, AngleAround(Centroid(points), arctan2))
  {
    assert |multiset(points)| == |points|;
    SortByKey(points, AngleAround(Centroid(points), arctan2))
  }

  lemma TailMultiset(s: seq<Point>)
    requires |s| > 0
    ensures multiset(s[1..]) == multiset(s) - multiset{s[0]}
  {
    assert s == [s[0]] + s[1..];
  }

  /** Two sorted permutations of each other start with the same point. */
  lemma SortedHeadsAgree(a: seq<Point>, b: seq<Point>, key: Point -> real)
    requires |a| > 0 && |b| > 0
    requires multiset(a) == multiset(b)
    requires SortedBy(a, key) && SortedBy(b, key)
    requires KeyDeterminesPoint(a, key)
    ensures a[0] == b[0]
  {
    assert a[0] in multiset(b);
    var k :| 0 <= k < |b| && b[k] == a[0];
    assert b[0] in multiset(a);
    var m :| 0 <= m < |a| && a[m] == b[0];
    assert key(b[0]) <= key(b[k]);
    assert key(a[0]) <= key(a[m]);
  }

  /**
   * Whenever no two different points share an angle, the sorted permutation is
   * unique: any other tie-breaking order (argsort's among them) gives the same
   * vertex sequence.
   */
  lemma {:induction false} SortedPermutationUnique(a: seq<Point>, b: seq<Point>, key: Point -> real)
    requires multiset(a) == multiset(b)
    requires SortedBy(a, key) && SortedBy(b, key)
    requires KeyDeterminesPoint(a, key)
    ensures a == b
    decreases |a|
  {
    assert |a| == |multiset(a)| == |multiset(b)| == |b|;
    if a != [] {
      SortedHeadsAgree(a, b, key);
      TailMultiset(a);
      TailMultiset(b);
      SortedPermutationUnique(a[1..], b[1..], key);
      assert a == [a[0]] + a[1..] && b == [b[0]] + b[1..];
    }
  }

  /**
   * The fallback order is the one `np.argsort` yields whenever distinct points
   * of the cell have distinct angles.
   */
  lemma OrderPolygonIsArgsortOrder(points: seq<Point>, arctan2: (real, real) -> real, other: seq<Point>)
    requires |points| > 0
    requires KeyDeterminesPoint(points, AngleAround(Centroid(points), arctan2))
    requires multiset(other) == multiset(points)
    requires SortedBy(other, AngleAround(Centroid(points), arctan2))
    ensures OrderPolygon(points, arctan2) == other
  {
    var key := AngleAround(Centroid(points), arctan2);
    var ordered := OrderPolygon(points, arctan2);
    forall i, j | 0 <= i < |ordered| && 0 <= j < |ordered| && key(ordered[i]) == key(ordered[j])
      ensures ordered[i] == ordered[j]
    {
      assert ordered[i] in multiset(points) && ordered[j] in multiset(points);
      var i' :| 0 <= i' < |points| && points[i'] == ordered[i];
      var j' :| 0 <= j' < |points| && points[j'] == ordered[j];
    }
    SortedPermutationUnique(ordered, other, key);
  }
}
