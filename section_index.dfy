/**
 * The first two phases of `get_root_section`: the group-id to tissue-label
 * map and the wall-id to polyline index.
 *
 * Each phase has a specification function (prefix recursion over the
 * document's list) and a method with the loop of the source; the method's
 * postcondition ties its result to the function, and the lemmas state what
 * the function promises.
 */
module SectionIndex {
  import opened Wrappers
  import opened Mesh

  type GroupMap = map<int, Label>
  type WallIndex = map<int, Polyline>

  // =====================================================================
  // Tissue groups
  // =====================================================================

  /** Group 4 is always "cortex" and group 3 always "endodermis"; others keep their name. */
  function GroupLabel(id: int, name: Option<string>): Label {
    if id == 4 then Some("cortex")
    else if id == 3 then Some("endodermis")
    else name
  }

  /** The group map after the declarations `groups`, in order; a later id overwrites. */
  function GroupMapOf(groups: seq<GroupElem>, c: Collaborators): Result<GroupMap, Error> {
    if groups == [] then Ok(map[])
    else
      var m :- GroupMapOf(groups[..|groups| - 1], c);
      var g := groups[|groups| - 1];
      var id :- ParseId(c, g.id);
      Ok(m[id := GroupLabel(id, g.name)])
  }

  predicate DeclaresGroup(g: GroupElem, k: int, c: Collaborators) {
    ParseId(c, g.id) == Ok(k)
  }

  /** `groups[i]` declares `k` and no later group does. */
  predicate LastGroupWith(groups: seq<GroupElem>, i: int, k: int, c: Collaborators)
    requires 0 <= i < |groups|
  {
    DeclaresGroup(groups[i], k, c) && forall j :: i < j < |groups| ==> !DeclaresGroup(groups[j], k, c)
  }

  lemma {:induction false} GroupMapErrorPersists(groups: seq<GroupElem>, i: nat, c: Collaborators)
    requires i <= |groups| && GroupMapOf(groups[..i], c).Err?
    ensures GroupMapOf(groups, c) == GroupMapOf(groups[..i], c)
    decreases |groups|
  {
    if i < |groups| {
      var p := groups[..|groups| - 1];
      assert p[..i] == groups[..i];
      GroupMapErrorPersists(p, i, c);
    } else {
      assert groups[..i] == groups;
    }
  }

  method BuildGroupMap(cellgroups: Option<seq<GroupElem>>, c: Collaborators) returns (r: Result<GroupMap, Error>)
    ensures r == GroupMapOf(Children(cellgroups), c)
  {
    var groupMap: GroupMap := map[];
    if cellgroups.Some? {
      var groups := cellgroups.value;
      var i := 0;
      while i < |groups|
        invariant 0 <= i <= |groups|
        invariant GroupMapOf(groups[..i], c) == Ok(groupMap)
      {
        assert groups[..i + 1][..i] == groups[..i];
        var id := ParseId(c, groups[i].id);
        if id.Err? {
          GroupMapErrorPersists(groups, i + 1, c);
          return Err(id.error);
        }
        var groupName: Label;
        if id.value == 4 {
          groupName := Some("cortex");
        } else if id.value == 3 {
          groupName := Some("endodermis");
        } else {
          groupName := groups[i].name;
        }
        groupMap := groupMap[id.value := groupName];
        i := i + 1;
      }
      assert groups[..i] == groups;
    }
    return Ok(groupMap);
  }

  /** Every group id parses, the keys of the map are the declared ids, and 4 and 3 have fixed labels. */
  lemma {:induction false} GroupMapKeys(groups: seq<GroupElem>, c: Collaborators, m: GroupMap)
    requires GroupMapOf(groups, c) == Ok(m)
    ensures forall i :: 0 <= i < |groups| ==> ParseId(c, groups[i].id).Ok?
    ensures forall k :: k in m <==> exists i :: 0 <= i < |groups| && DeclaresGroup(groups[i], k, c)
    ensures 4 in m ==> m[4] == Some("cortex")
    ensures 3 in m ==> m[3] == Some("endodermis")
    decreases |groups|
  {
    if groups != [] {
      var n := |groups| - 1;
      var p := groups[..n];
      var m' := GroupMapOf(p, c).value;
      GroupMapKeys(p, c, m');
      var id := ParseId(c, groups[n].id).value;
      assert m == m'[id := GroupLabel(id, groups[n].name)];
      assert forall i :: 0 <= i < n ==> groups[i] == p[i];
      forall k
        ensures k in m <==> exists i :: 0 <= i < |groups| && DeclaresGroup(groups[i], k, c)
      {
        if k in m && k != id {
          var i :| 0 <= i < |p| && DeclaresGroup(p[i], k, c);
          assert groups[i] == p[i];
        }
      }
    }
  }

  /** Every id carries the label of its last declaration. */
  lemma {:induction false} GroupMapLastWins(groups: seq<GroupElem>, c: Collaborators, m: GroupMap)
    requires GroupMapOf(groups, c) == Ok(m)
    ensures forall i, k :: 0 <= i < |groups| && LastGroupWith(groups, i, k, c) ==>
              k in m && m[k] == GroupLabel(k, groups[i].name)
    decreases |groups|
  {
    if groups != [] {
      var n := |groups| - 1;
      var p := groups[..n];
      var m' := GroupMapOf(p, c).value;
      GroupMapLastWins(p, c, m');
      var id := ParseId(c, groups[n].id).value;
      assert m == m'[id := GroupLabel(id, groups[n].name)];
      forall i, k | 0 <= i < |groups| && LastGroupWith(groups, i, k, c)
        ensures k in m && m[k] == GroupLabel(k, groups[i].name)
      {
        if i < n {
          assert !DeclaresGroup(groups[n], k, c);
          assert LastGroupWith(p, i, k, c);
        }
      }
    }
  }

  /** The group map is built exactly when every group id is an integer `int()` accepts. */
  lemma {:induction false} GroupMapSucceeds(groups: seq<GroupElem>, c: Collaborators)
    ensures GroupMapOf(groups, c).Ok? <==> forall i :: 0 <= i < |groups| ==> ParseId(c, groups[i].id).Ok?
    decreases |groups|
  {
    if groups != [] {
      var n := |groups| - 1;
      var p := groups[..n];
      GroupMapSucceeds(p, c);
      assert forall i :: 0 <= i < n ==> p[i] == groups[i];
    }
  }

  /**
   * What the group map holds: every group id is an integer, the keys are the
   * declared ids, ids 4 and 3 carry "cortex" and "endodermis" whatever their
   * declared name, and every id carries the label of its LAST declaration.
   */
  lemma GroupMapContents(groups: seq<GroupElem>, c: Collaborators, m: GroupMap)
    requires GroupMapOf(groups, c) == Ok(m)
    ensures forall i :: 0 <= i < |groups| ==> ParseId(c, groups[i].id).Ok?
    ensures forall k :: k in m <==> exists i :: 0 <= i < |groups| && DeclaresGroup(groups[i], k, c)
    ensures 4 in m ==> m[4] == Some("cortex")
    ensures 3 in m ==> m[3] == Some("endodermis")
    ensures forall i, k :: 0 <= i < |groups| && LastGroupWith(groups, i, k, c) ==>
              k in m && m[k] == GroupLabel(k, groups[i].name)
  {
    GroupMapKeys(groups, c, m);
    GroupMapLastWins(groups, c, m);
  }

  // =====================================================================
  // Walls
  // =====================================================================

  /** Python truthiness of an attribute value: present and not the empty string. */
  predicate Present(a: Option<string>) {
    a.Some? && a.value != ""
  }

  /** A point is used only when both `x` and `y` are present and non-empty. */
  predicate Usable(p: PointElem) {
    Present(p.x) && Present(p.y)
  }

  /**
   * The list comprehension over a wall's points: the usable points, converted
   * with float() in document order; the first conversion that fails raises.
   */
  function KeptPoints(ps: seq<PointElem>, c: Collaborators): Result<seq<Point>, Error> {
    if ps == [] then Ok([])
    else
      var kept :- KeptPoints(ps[..|ps| - 1], c);
      var p := ps[|ps| - 1];
      if Usable(p) then
        var x :- ParseCoord(c, p.x.value);
        var y :- ParseCoord(c, p.y.value);
        Ok(kept + [Point(x, y)])
      else Ok(kept)
  }

  /** The usable points of `ps`, in order: the reference filter. */
  function UsablePoints(ps: seq<PointElem>): (us: seq<PointElem>)
    ensures |us| <= |ps|
    ensures forall k :: 0 <= k < |us| ==> Usable(us[k])
  {
    if ps == [] then []
    else UsablePoints(ps[..|ps| - 1]) + (if Usable(ps[|ps| - 1]) then [ps[|ps| - 1]] else [])
  }

  /** Both coordinates of a usable point convert with float(). */
  predicate Converts(p: PointElem, c: Collaborators) {
    Usable(p) && c.toFloat(p.x.value).Some? && c.toFloat(p.y.value).Some?
  }

  predicate AllConvert(us: seq<PointElem>, c: Collaborators) {
    forall k :: 0 <= k < |us| ==> Converts(us[k], c)
  }

  /** `pts[k]` is the point float() makes of `us[k]`, for every `k`. */
  predicate ConvertedFrom(pts: seq<Point>, us: seq<PointElem>, c: Collaborators) {
    |pts| == |us| &&
    forall k :: 0 <= k < |pts| ==>
      Usable(us[k]) && c.toFloat(us[k].x.value) == Some(pts[k].x) && c.toFloat(us[k].y.value) == Some(pts[k].y)
  }

  lemma AllConvertAppend(a: seq<PointElem>, b: seq<PointElem>, c: Collaborators)
    ensures AllConvert(a + b, c) <==> AllConvert(a, c) && AllConvert(b, c)
  {
    if AllConvert(a + b, c) {
      forall k | 0 <= k < |a|
        ensures Converts(a[k], c)
      {
        assert (a + b)[k] == a[k];
      }
      forall k | 0 <= k < |b|
        ensures Converts(b[k], c)
      {
        assert (a + b)[|a| + k] == b[k];
      }
    }
  }

  /** The usable points of `ps` are those of its prefix, then its last point if usable. */
  lemma UsablePointsStep(ps: seq<PointElem>)
    requires ps != []
    ensures UsablePoints(ps) ==
              UsablePoints(ps[..|ps| - 1]) + (if Usable(ps[|ps| - 1]) then [ps[|ps| - 1]] else [])
  {
  }

  /**
   * The comprehension succeeds exactly when both coordinates of every usable
   * point convert: a bad coordinate raises rather than being dropped.
   */
  lemma {:induction false} KeptPointsSucceeds(ps: seq<PointElem>, c: Collaborators)
    ensures KeptPoints(ps, c).Ok? <==> AllConvert(UsablePoints(ps), c)
    decreases |ps|
  {
    if ps != [] {
      var n := |ps| - 1;
      KeptPointsSucceeds(ps[..n], c);
      var last := if Usable(ps[n]) then [ps[n]] else [];
      UsablePointsStep(ps);
      AllConvertAppend(UsablePoints(ps[..n]), last, c);
      if Usable(ps[n]) {
        assert last[0] == ps[n];
        assert AllConvert(last, c) <==> Converts(ps[n], c);
      }
    }
  }

  /** On success the comprehension yields the usable points, converted, in document order. */
  lemma {:induction false} KeptPointsValues(ps: seq<PointElem>, c: Collaborators)
    requires KeptPoints(ps, c).Ok?
    ensures ConvertedFrom(KeptPoints(ps, c).value, UsablePoints(ps), c)
    decreases |ps|
  {
    if ps != [] {
      var n := |ps| - 1;
      KeptPointsValues(ps[..n], c);
      UsablePointsStep(ps);
      var pts', us' := KeptPoints(ps[..n], c).value, UsablePoints(ps[..n]);
      if Usable(ps[n]) {
        var pts, us := KeptPoints(ps, c).value, UsablePoints(ps);
        assert pts[..|pts'|] == pts' && us[..|us'|] == us';
        forall k | 0 <= k < |pts|
          ensures Usable(us[k]) && c.toFloat(us[k].x.value) == Some(pts[k].x) && c.toFloat(us[k].y.value) == Some(pts[k].y)
        {
          if k < |pts'| {
            assert pts[k] == pts'[k] && us[k] == us'[k];
          }
        }
      }
    }
  }

  /** The entry a wall adds to the index, if any: its id and its kept points. */
  function WallEntry(w: WallElem, c: Collaborators): Result<Option<(int, Polyline)>, Error> {
    var id :- ParseId(c, w.id);
    match w.points
    case None => Ok(None)
    case Some(ps) =>
      var pts :- KeptPoints(ps, c);
      if |pts| >= 2 then Ok(Some((id, pts))) else Ok(None)
  }

  /** The wall index after the declarations `walls`, in order. */
  function WallIndexOf(walls: seq<WallElem>, c: Collaborators): (r: Result<WallIndex, Error>)
    ensures r.Ok? ==> WellFormedIndex(r.value)
  {
    if walls == [] then Ok(map[])
    else
      var m :- WallIndexOf(walls[..|walls| - 1], c);
      var e :- WallEntry(walls[|walls| - 1], c);
      Ok(if e.Some? then m[e.value.0 := e.value.1] else m)
  }

  /**
   * `w` is a wall with id `k` that enters the index with polyline `pts`: it
   * has a `points` element and at least two usable points survive.
   */
  predicate DefinesWall(w: WallElem, k: int, pts: Polyline, c: Collaborators) {
    ParseId(c, w.id) == Ok(k) && w.points.Some? &&
    KeptPoints(w.points.value, c) == Ok(pts) && |pts| >= 2
  }

  /** `walls[i]` enters the index under `k` with `pts`, and no later wall enters under `k`. */
  ghost predicate LastWallWith(walls: seq<WallElem>, i: int, k: int, pts: Polyline, c: Collaborators)
    requires 0 <= i < |walls|
  {
    DefinesWall(walls[i], k, pts, c) &&
    forall j, q :: i < j < |walls| ==> !DefinesWall(walls[j], k, q, c)
  }

  /** Every polyline of the index has at least two points. */
  predicate WellFormedIndex(wi: WallIndex) {
    forall k :: k in wi ==> |wi[k]| >= 2
  }

  lemma {:induction false} WallIndexErrorPersists(walls: seq<WallElem>, i: nat, c: Collaborators)
    requires i <= |walls| && WallIndexOf(walls[..i], c).Err?
    ensures WallIndexOf(walls, c) == WallIndexOf(walls[..i], c)
    decreases |walls|
  {
    if i < |walls| {
      var p := walls[..|walls| - 1];
      assert p[..i] == walls[..i];
      WallIndexErrorPersists(p, i, c);
    } else {
      assert walls[..i] == walls;
    }
  }

  method BuildWallIndex(walls: Option<seq<WallElem>>, c: Collaborators) returns (r: Result<WallIndex, Error>)
    ensures r == WallIndexOf(Children(walls), c)
  {
    var wallLines: WallIndex := map[];
    if walls.Some? {
      var ws := walls.value;
      var i := 0;
      while i < |ws|
        invariant 0 <= i <= |ws|
        invariant WallIndexOf(ws[..i], c) == Ok(wallLines)
      {
        assert ws[..i + 1][..i] == ws[..i];
        var id := ParseId(c, ws[i].id);
        if id.Err? {
          WallIndexErrorPersists(ws, i + 1, c);
          return Err(id.error);
        }
        if ws[i].points.None? {
          i := i + 1;
          continue;
        }
        var points := KeptPoints(ws[i].points.value, c);
        if points.Err? {
          WallIndexErrorPersists(ws, i + 1, c);
          return Err(points.error);
        }
        if |points.value| >= 2 {
          wallLines := wallLines[id.value := points.value];
        }
        i := i + 1;
      }
      assert ws[..i] == ws;
    }
    return Ok(wallLines);
  }

  /** The keys of the index are the ids of the walls that pass the filter. */
  lemma {:induction false} WallIndexKeys(walls: seq<WallElem>, c: Collaborators, wi: WallIndex)
    requires WallIndexOf(walls, c) == Ok(wi)
    ensures forall k :: k in wi <==> exists i, q :: 0 <= i < |walls| && DefinesWall(walls[i], k, q, c)
    decreases |walls|
  {
    if walls != [] {
      var n := |walls| - 1;
      var p := walls[..n];
      var wi' := WallIndexOf(p, c).value;
      WallIndexKeys(p, c, wi');
      var e := WallEntry(walls[n], c).value;
      assert wi == if e.Some? then wi'[e.value.0 := e.value.1] else wi';
      assert e.Some? ==> DefinesWall(walls[n], e.value.0, e.value.1, c);
      assert forall k, q :: DefinesWall(walls[n], k, q, c) ==> e == Some((k, q));
      forall k
        ensures k in wi <==> exists i, q :: 0 <= i < |walls| && DefinesWall(walls[i], k, q, c)
      {
        if k in wi && (e.None? || k != e.value.0) {
          var i, q :| 0 <= i < |p| && DefinesWall(p[i], k, q, c);
          assert walls[i] == p[i];
        }
        if exists i, q :: 0 <= i < |walls| && DefinesWall(walls[i], k, q, c) {
          var i, q :| 0 <= i < |walls| && DefinesWall(walls[i], k, q, c);
          if i < n {
            assert p[i] == walls[i];
          }
        }
      }
    }
  }

  /** A wall id maps to the polyline of the last wall that passes the filter with that id. */
  lemma {:induction false} WallIndexLastWins(walls: seq<WallElem>, c: Collaborators, wi: WallIndex)
    requires WallIndexOf(walls, c) == Ok(wi)
    ensures forall i, k, pts :: 0 <= i < |walls| && LastWallWith(walls, i, k, pts, c) ==> k in wi && wi[k] == pts
    decreases |walls|
  {
    if walls != [] {
      var n := |walls| - 1;
      var p := walls[..n];
      var wi' := WallIndexOf(p, c).value;
      WallIndexLastWins(p, c, wi');
      var e := WallEntry(walls[n], c).value;
      assert wi == if e.Some? then wi'[e.value.0 := e.value.1] else wi';
      assert e.Some? ==> DefinesWall(walls[n], e.value.0, e.value.1, c);
      assert forall k, q :: DefinesWall(walls[n], k, q, c) ==> e == Some((k, q));
      forall i, k, pts | 0 <= i < |walls| && LastWallWith(walls, i, k, pts, c)
        ensures k in wi && wi[k] == pts
      {
        if i < n {
          assert forall q :: !DefinesWall(walls[n], k, q, c);
          assert LastWallWith(p, i, k, pts, c);
        }
      }
    }
  }

  /**
   * The wall index is built exactly when every wall id is an integer and every
   * usable point of every wall with a `points` element converts.
   */
  lemma {:induction false} WallIndexSucceeds(walls: seq<WallElem>, c: Collaborators)
    ensures WallIndexOf(walls, c).Ok? <==>
            forall i :: 0 <= i < |walls| ==>
              ParseId(c, walls[i].id).Ok? && (walls[i].points.Some? ==> KeptPoints(walls[i].points.value, c).Ok?)
    decreases |walls|
  {
    if walls != [] {
      var n := |walls| - 1;
      var p := walls[..n];
      WallIndexSucceeds(p, c);
      assert forall i :: 0 <= i < n ==> p[i] == walls[i];
    }
  }

  /**
   * What the wall index holds: its keys are exactly the ids of walls that pass
   * the filter (a `points` element with at least two usable points), and each
   * id carries the points of the LAST wall with that id that passes the filter
   * (a later wall that fails the filter does not remove an earlier entry).
   */
  lemma WallIndexContents(walls: seq<WallElem>, c: Collaborators, wi: WallIndex)
    requires WallIndexOf(walls, c) == Ok(wi)
    ensures forall k :: k in wi <==> exists i, q :: 0 <= i < |walls| && DefinesWall(walls[i], k, q, c)
    ensures forall i, k, pts :: 0 <= i < |walls| && LastWallWith(walls, i, k, pts, c) ==> k in wi && wi[k] == pts
  {
    WallIndexKeys(walls, c, wi);
    WallIndexLastWins(walls, c, wi);
  }
}
