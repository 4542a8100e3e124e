/**
 * The cell phase of `get_root_section` and the function as a whole: for each
 * cell, in document order, the walls it references are looked up in the
 * wall index, and the cell gets the first ring shapely's `polygonize` finds,
 * or else the fallback polygon of its points ordered by angle (typed
 * "fallback"), or no record at all.
 */
module RootSection {
  import opened Wrappers
  import opened Mesh
  import opened Decimal
  import opened PolygonOrder
  import opened SectionIndex

  /** The type given to a cell whose polygon is the fallback polygon. */
  const FallbackTag: string := "fallback"

  /** The type of a cell whose group is not declared is this prefix and the group id. */
  const PlaceholderPrefix: string := "unknown_group_"

  // =====================================================================
  // Cell type
  // =====================================================================

  /** `group_map.get(group_id, f"unknown_group_{group_id}")` */
  function ResolveType(gm: GroupMap, groupId: int): Label {
    if groupId in gm then gm[groupId] else Some(PlaceholderPrefix + DecimalString(groupId))
  }

  /**
   * A cell of an undeclared group is typed with a placeholder, never an error:
   * `unknown_group_` followed by the decimal text of the group id, which reads
   * back as that id. Two undeclared groups get two different types, and
   * neither is the fallback tag.
   */
  lemma UndeclaredGroupType(gm: GroupMap, g: int, h: int)
    requires g !in gm && h !in gm
    ensures ResolveType(gm, g).Some?
    ensures ResolveType(gm, g).value[..|PlaceholderPrefix|] == PlaceholderPrefix
    ensures ResolveType(gm, g) != Some(FallbackTag)
    ensures ParseDecimal(ResolveType(gm, g).value[|PlaceholderPrefix|..]) == Some(g)
    ensures g != h ==> ResolveType(gm, g) != ResolveType(gm, h)
  {
    var s := ResolveType(gm, g).value;
    assert s[..|PlaceholderPrefix|] == PlaceholderPrefix;
    assert s[|PlaceholderPrefix|..] == DecimalString(g);
    DecimalRoundTrip(g);
    assert s != FallbackTag by {
      assert |FallbackTag| < |PlaceholderPrefix| + 1 <= |s|;
    }
    if g != h {
      var t := ResolveType(gm, h).value;
      assert t[|PlaceholderPrefix|..] == DecimalString(h);
      DecimalStringInjective(g, h);
    }
  }

  // =====================================================================
  // Gathering a cell's walls
  // =====================================================================

  /**
   * The polylines of the referenced walls, in reference order; a reference to
   * a wall id that is not in the index contributes nothing.
   */
  function ResolveRefs(refs: seq<WallRef>, wi: WallIndex, c: Collaborators): (r: Result<seq<Polyline>, Error>)
    requires WellFormedIndex(wi)
    ensures r.Ok? ==> |r.value| <= |refs| && forall k :: 0 <= k < |r.value| ==> |r.value[k]| >= 2
  {
    if refs == [] then Ok([])
    else
      var lines :- ResolveRefs(refs[..|refs| - 1], wi, c);
      var id :- ParseId(c, refs[|refs| - 1].id);
      Ok(if id in wi then lines + [wi[id]] else lines)
  }

  lemma {:induction false} ResolveRefsErrorPersists(refs: seq<WallRef>, i: nat, wi: WallIndex, c: Collaborators)
    requires WellFormedIndex(wi)
    requires i <= |refs| && ResolveRefs(refs[..i], wi, c).Err?
    ensures ResolveRefs(refs, wi, c) == ResolveRefs(refs[..i], wi, c)
    decreases |refs|
  {
    if i < |refs| {
      var p := refs[..|refs| - 1];
      assert p[..i] == refs[..i];
      ResolveRefsErrorPersists(p, i, wi, c);
    } else {
      assert refs[..i] == refs;
    }
  }

  /**
   * Resolution distributes over concatenation of the reference list: the
   * walls of `a + b` are those of `a` followed by those of `b` (reference
   * order, duplicates kept); the first failing `int()` raises.
   */
  lemma {:induction false} ResolveRefsConcat(a: seq<WallRef>, b: seq<WallRef>, wi: WallIndex, c: Collaborators)
    requires WellFormedIndex(wi)
    ensures ResolveRefs(a, wi, c).Err? ==> ResolveRefs(a + b, wi, c) == ResolveRefs(a, wi, c)
    ensures ResolveRefs(a, wi, c).Ok? && ResolveRefs(b, wi, c).Err? ==>
              ResolveRefs(a + b, wi, c) == ResolveRefs(b, wi, c)
    ensures ResolveRefs(a, wi, c).Ok? && ResolveRefs(b, wi, c).Ok? ==>
              ResolveRefs(a + b, wi, c) == Ok(ResolveRefs(a, wi, c).value + ResolveRefs(b, wi, c).value)
    decreases |b|
  {
    if b == [] {
      assert a + b == a;
      if ResolveRefs(a, wi, c).Ok? {
        assert ResolveRefs(a, wi, c).value + [] == ResolveRefs(a, wi, c).value;
      }
    } else {
      var n := |b| - 1;
      var b' := b[..n];
      assert (a + b)[..|a + b| - 1] == a + b';
      assert (a + b)[|a + b| - 1] == b[n];
      ResolveRefsConcat(a, b', wi, c);
      var ra, rb, rb' := ResolveRefs(a, wi, c), ResolveRefs(b, wi, c), ResolveRefs(b', wi, c);
      if ra.Ok? && rb'.Ok? {
        var id := ParseId(c, b[n].id);
        if id.Ok? && id.value in wi {
          assert ra.value + (rb'.value + [wi[id.value]]) == (ra.value + rb'.value) + [wi[id.value]];
        }
      }
    }
  }

  /** The points of the walls of `a + b` are the points of `a`'s walls followed by `b`'s. */
  lemma CellPointsConcat(a: seq<WallRef>, b: seq<WallRef>, wi: WallIndex, c: Collaborators)
    requires WellFormedIndex(wi)
    requires ResolveRefs(a, wi, c).Ok? && ResolveRefs(b, wi, c).Ok?
    ensures ResolveRefs(a + b, wi, c).Ok?
    ensures Flatten(ResolveRefs(a + b, wi, c).value) ==
            Flatten(ResolveRefs(a, wi, c).value) + Flatten(ResolveRefs(b, wi, c).value)
  {
    ResolveRefsConcat(a, b, wi, c);
    FlattenAppend(ResolveRefs(a, wi, c).value, ResolveRefs(b, wi, c).value);
  }

  /** A reference to a wall id absent from the index is skipped silently. */
  lemma UnknownRefSkipped(a: seq<WallRef>, ref: WallRef, b: seq<WallRef>, wi: WallIndex, c: Collaborators)
    requires WellFormedIndex(wi)
    requires ParseId(c, ref.id).Ok? && ParseId(c, ref.id).value !in wi
    ensures ResolveRefs(a + [ref] + b, wi, c) == ResolveRefs(a + b, wi, c)
  {
    assert ResolveRefs([ref], wi, c) == Ok([]) by {
      assert [ref][..0] == [];
    }
    ResolveRefsConcat(a, [ref], wi, c);
    ResolveRefsConcat(a + [ref], b, wi, c);
    ResolveRefsConcat(a, b, wi, c);
    assert a + [ref] + b == (a + [ref]) + b;
    if ResolveRefs(a, wi, c).Ok? {
      assert ResolveRefs(a + [ref], wi, c) == Ok(ResolveRefs(a, wi, c).value + []);
      assert ResolveRefs(a, wi, c).value + [] == ResolveRefs(a, wi, c).value;
    }
  }

  /** Gathering succeeds exactly when every wall reference of the cell has an integer id. */
  lemma {:induction false} ResolveRefsSucceeds(refs: seq<WallRef>, wi: WallIndex, c: Collaborators)
    requires WellFormedIndex(wi)
    ensures ResolveRefs(refs, wi, c).Ok? <==> forall i :: 0 <= i < |refs| ==> ParseId(c, refs[i].id).Ok?
    decreases |refs|
  {
    if refs != [] {
      var n := |refs| - 1;
      var p := refs[..n];
      ResolveRefsSucceeds(p, wi, c);
      assert forall i :: 0 <= i < n ==> p[i] == refs[i];
    }
  }

  /** One more reference: the walls so far, extended by the referenced wall if the index has it. */
  lemma ResolveRefsStep(refs: seq<WallRef>, i: nat, wi: WallIndex, c: Collaborators, lines: seq<Polyline>)
    requires WellFormedIndex(wi)
    requires i < |refs| && ResolveRefs(refs[..i], wi, c) == Ok(lines)
    ensures var id := ParseId(c, refs[i].id);
            ResolveRefs(refs[..i + 1], wi, c) ==
              if id.Err? then Err(id.error)
              else if id.value in wi then Ok(lines + [wi[id.value]])
              else Ok(lines)
  {
    assert refs[..i + 1][..i] == refs[..i];
  }

  lemma FlattenStep(lines: seq<Polyline>, wall: Polyline)
    ensures Flatten(lines + [wall]) == Flatten(lines) + wall
  {
    assert (lines + [wall])[..|lines|] == lines;
  }

  /** A cell's gathered walls (`cell_lines`) and their points (`cell_points`). */
  datatype Gathered = Gathered(lines: seq<Polyline>, points: seq<Point>)

  method GatherWalls(walls: Option<seq<WallRef>>, wi: WallIndex, c: Collaborators) returns (r: Result<Gathered, Error>)
    requires WellFormedIndex(wi)
    ensures r.Ok? <==> ResolveRefs(Children(walls), wi, c).Ok?
    ensures r.Ok? ==> r.value.lines == ResolveRefs(Children(walls), wi, c).value
    ensures r.Ok? ==> r.value.points == Flatten(r.value.lines)
    ensures r.Err? ==> ResolveRefs(Children(walls), wi, c) == Err(r.error)
  {
    var cellLines: seq<Polyline> := [];
    var cellPoints: seq<Point> := [];
    if walls.Some? {
      var refs := walls.value;
      for i := 0 to |refs|
        invariant ResolveRefs(refs[..i], wi, c) == Ok(cellLines)
        invariant cellPoints == Flatten(cellLines)
      {
        ResolveRefsStep(refs, i, wi, c, cellLines);
        var id := ParseId(c, refs[i].id);
        if id.Err? {
          ResolveRefsErrorPersists(refs, i + 1, wi, c);
          return Err(id.error);
        }
        if id.value in wi {
          var wall := wi[id.value];
          FlattenStep(cellLines, wall);
          cellLines := cellLines + [wall];
          cellPoints := cellPoints + wall;
        }
      }
      assert refs[..|refs|] == refs;
    }
    return Ok(Gathered(cellLines, cellPoints));
  }

  // =====================================================================
  // One cell
  // =====================================================================

  /** The record of a cell with a polygon, unless shapely reports the polygon empty. */
  function KeepNonEmpty(cellId: int, cellType: Label, polygon: Polygon, c: Collaborators): Option<Record> {
    if c.isEmpty(polygon) then None else Some(Record(cellId, cellType, polygon))
  }

  /**
   * The record a cell with the gathered walls `lines` yields: none without
   * walls; the first ring polygonize finds; otherwise the gathered points
   * ordered by angle around their mean, typed "fallback", or the exception
   * shapely raises when those points make no valid ring.
   */
  function CellPolygon(cellId: int, cellType: Label, lines: seq<Polyline>, c: Collaborators): Result<Option<Record>, Error>
    requires forall k :: 0 <= k < |lines| ==> |lines[k]| >= 2
  {
    if lines == [] then Ok(None)
    else
      var polygons := c.polygonize(lines);
      if |polygons| > 0 then Ok(KeepNonEmpty(cellId, cellType, polygons[0], c))
      else
        var ordered := OrderPolygon(Flatten(lines), c.arctan2);
        if c.ringRejected(ordered) then Err(InvalidRing(ordered))
        else Ok(KeepNonEmpty(cellId, Some(FallbackTag), Polygon(ordered), c))
  }

  /** What one cell contributes: a record, nothing, or the exception it raises. */
  function CellOutcome(cell: CellElem, gm: GroupMap, wi: WallIndex, c: Collaborators): Result<Option<Record>, Error>
    requires WellFormedIndex(wi)
  {
    var cellId :- ParseId(c, cell.id);
    var groupId :- ParseId(c, cell.group);
    var lines :- ResolveRefs(Children(cell.walls), wi, c);
    CellPolygon(cellId, ResolveType(gm, groupId), lines, c)
  }

  method ReconstructCell(cell: CellElem, gm: GroupMap, wi: WallIndex, c: Collaborators) returns (r: Result<Option<Record>, Error>)
    requires WellFormedIndex(wi)
    ensures r == CellOutcome(cell, gm, wi, c)
  {
    var cellId := ParseId(c, cell.id);
    if cellId.Err? {
      return Err(cellId.error);
    }
    var groupId := ParseId(c, cell.group);
    if groupId.Err? {
      return Err(groupId.error);
    }
    var cellType := ResolveType(gm, groupId.value);
    var gathered := GatherWalls(cell.walls, wi, c);
    if gathered.Err? {
      return Err(gathered.error);
    }
    var cellLines, cellPoints := gathered.value.lines, gathered.value.points;
    var cellPolygon: Option<Polygon> := None;
    if cellLines != [] {
      var polygons := c.polygonize(cellLines);
      if |polygons| > 0 {
        cellPolygon := Some(polygons[0]);
      } else {
        var ordered := OrderPolygon(cellPoints, c.arctan2);
        if c.ringRejected(ordered) {
          return Err(InvalidRing(ordered));
        }
        cellPolygon := Some(Polygon(ordered));
        cellType := Some(FallbackTag);
      }
    }
    if cellPolygon.Some? && !c.isEmpty(cellPolygon.value) {
      return Ok(Some(Record(cellId.value, cellType, cellPolygon.value)));
    }
    return Ok(None);
  }

  /**
   * What a record made from gathered walls says: it carries the cell's id,
   * there was at least one wall, and either polygonize found a ring, which is
   * the geometry and the type is the cell's group label, or it found none,
   * the type is exactly "fallback" and the geometry's vertices are every
   * gathered point, once per occurrence, sorted by angle around their mean.
   * The geometry is never empty.
   */
  lemma PolygonRecordShape(cellId: int, cellType: Label, lines: seq<Polyline>, c: Collaborators, rec: Record)
    requires forall k :: 0 <= k < |lines| ==> |lines[k]| >= 2
    requires CellPolygon(cellId, cellType, lines, c) == Ok(Some(rec))
    ensures rec.idCell == cellId && lines != [] && !c.isEmpty(rec.geometry)
    ensures |c.polygonize(lines)| > 0 ==> rec.cellType == cellType && rec.geometry == c.polygonize(lines)[0]
    ensures |c.polygonize(lines)| == 0 ==>
              var points := Flatten(lines);
              |points| > 0 &&
              rec.cellType == Some(FallbackTag) &&
              multiset(rec.geometry.shell) == multiset(points) &&
              |rec.geometry.shell| == |points| &&
              SortedBy(rec.geometry.shell, AngleAround(Centroid(points), c.arctan2))
  {
  }

  /**
   * What a record says about its cell: its id is the cell's id, the cell
   * references at least one wall of the index, and the geometry and type
   * are as PolygonRecordShape describes for the cell's gathered walls, with
   * the cell's group label as the type when polygonize finds a ring.
   */
  lemma RecordShape(cell: CellElem, gm: GroupMap, wi: WallIndex, c: Collaborators, rec: Record)
    requires WellFormedIndex(wi)
    requires CellOutcome(cell, gm, wi, c) == Ok(Some(rec))
    ensures ParseId(c, cell.id) == Ok(rec.idCell)
    ensures ParseId(c, cell.group).Ok?
    ensures ResolveRefs(Children(cell.walls), wi, c).Ok?
    ensures ResolveRefs(Children(cell.walls), wi, c).value != []
    ensures !c.isEmpty(rec.geometry)
    ensures var lines := ResolveRefs(Children(cell.walls), wi, c).value;
            |c.polygonize(lines)| > 0 ==>
              rec.cellType == ResolveType(gm, ParseId(c, cell.group).value) &&
              rec.geometry == c.polygonize(lines)[0]
    ensures var lines := ResolveRefs(Children(cell.walls), wi, c).value;
            |c.polygonize(lines)| == 0 ==>
              var points := Flatten(lines);
              |points| > 0 &&
              rec.cellType == Some(FallbackTag) &&
              multiset(rec.geometry.shell) == multiset(points) &&
              |rec.geometry.shell| == |points| &&
              SortedBy(rec.geometry.shell, AngleAround(Centroid(points), c.arctan2))
  {
    var cellId, groupId := ParseId(c, cell.id), ParseId(c, cell.group);
    var lines := ResolveRefs(Children(cell.walls), wi, c);
    assert cellId.Ok? && groupId.Ok? && lines.Ok?;
    PolygonRecordShape(cellId.value, ResolveType(gm, groupId.value), lines.value, c, rec);
  }

  /**
   * The three outcomes of a cell with gathered walls `lines`: no walls, no
   * record; a ring from polygonize, its record unless the ring is empty; no
   * ring, the fallback polygon typed "fallback" unless shapely refuses it
   * (which raises) or it is empty.
   */
  lemma CellPolygonCases(cellId: int, cellType: Label, lines: seq<Polyline>, c: Collaborators)
    requires forall k :: 0 <= k < |lines| ==> |lines[k]| >= 2
    ensures lines == [] ==> CellPolygon(cellId, cellType, lines, c) == Ok(None)
    ensures lines != [] && |c.polygonize(lines)| > 0 && !c.isEmpty(c.polygonize(lines)[0]) ==>
              CellPolygon(cellId, cellType, lines, c) == Ok(Some(Record(cellId, cellType, c.polygonize(lines)[0])))
    ensures lines != [] && |c.polygonize(lines)| > 0 && c.isEmpty(c.polygonize(lines)[0]) ==>
              CellPolygon(cellId, cellType, lines, c) == Ok(None)
    ensures lines != [] && |c.polygonize(lines)| == 0 ==>
              var ordered := OrderPolygon(Flatten(lines), c.arctan2);
              (c.ringRejected(ordered) ==> CellPolygon(cellId, cellType, lines, c) == Err(InvalidRing(ordered))) &&
              (!c.ringRejected(ordered) && !c.isEmpty(Polygon(ordered)) ==>
                 CellPolygon(cellId, cellType, lines, c) == Ok(Some(Record(cellId, Some(FallbackTag), Polygon(ordered))))) &&
              (!c.ringRejected(ordered) && c.isEmpty(Polygon(ordered)) ==>
                 CellPolygon(cellId, cellType, lines, c) == Ok(None))
  {
  }

  /**
   * A cell raises exactly when its id or group is not an integer, a wall
   * reference id is not an integer, or its fallback ring is refused.
   */
  lemma CellOutcomeSucceeds(cell: CellElem, gm: GroupMap, wi: WallIndex, c: Collaborators)
    requires WellFormedIndex(wi)
    ensures CellOutcome(cell, gm, wi, c).Ok? <==>
            ParseId(c, cell.id).Ok? && ParseId(c, cell.group).Ok? && ResolveRefs(Children(cell.walls), wi, c).Ok? &&
            var lines := ResolveRefs(Children(cell.walls), wi, c).value;
            !(lines != [] && |c.polygonize(lines)| == 0 && c.ringRejected(OrderPolygon(Flatten(lines), c.arctan2)))
  {
    if ParseId(c, cell.id).Ok? && ParseId(c, cell.group).Ok? && ResolveRefs(Children(cell.walls), wi, c).Ok? {
      var lines := ResolveRefs(Children(cell.walls), wi, c).value;
      CellPolygonCases(ParseId(c, cell.id).value, ResolveType(gm, ParseId(c, cell.group).value), lines, c);
    }
  }

  /**
   * A cell is kept whenever it has walls and a non-empty polygon: the first
   * ring polygonize finds, with the cell's group label, or else an accepted
   * fallback ring, typed "fallback". A cell without walls is dropped.
   */
  lemma CellKept(cell: CellElem, gm: GroupMap, wi: WallIndex, c: Collaborators)
    requires WellFormedIndex(wi)
    requires ParseId(c, cell.id).Ok? && ParseId(c, cell.group).Ok? && ResolveRefs(Children(cell.walls), wi, c).Ok?
    ensures var id := ParseId(c, cell.id).value;
            var cellType := ResolveType(gm, ParseId(c, cell.group).value);
            var lines := ResolveRefs(Children(cell.walls), wi, c).value;
            (lines == [] ==> CellOutcome(cell, gm, wi, c) == Ok(None)) &&
            (lines != [] && |c.polygonize(lines)| > 0 && !c.isEmpty(c.polygonize(lines)[0]) ==>
               CellOutcome(cell, gm, wi, c) == Ok(Some(Record(id, cellType, c.polygonize(lines)[0])))) &&
            (lines != [] && |c.polygonize(lines)| == 0 ==>
               var ordered := OrderPolygon(Flatten(lines), c.arctan2);
               !c.ringRejected(ordered) && !c.isEmpty(Polygon(ordered)) ==>
                 CellOutcome(cell, gm, wi, c) == Ok(Some(Record(id, Some(FallbackTag), Polygon(ordered)))))
  {
    var id, cellType := ParseId(c, cell.id).value, ResolveType(gm, ParseId(c, cell.group).value);
    var lines := ResolveRefs(Children(cell.walls), wi, c).value;
    assert CellOutcome(cell, gm, wi, c) == CellPolygon(id, cellType, lines, c);
    CellPolygonCases(id, cellType, lines, c);
  }

  // =====================================================================
  // The section
  // =====================================================================

  /** The records of `cells`, in order; the first exception raised ends the section. */
  function CellRecordsOf(cells: seq<CellElem>, gm: GroupMap, wi: WallIndex, c: Collaborators): Result<seq<Record>, Error>
    requires WellFormedIndex(wi)
  {
    if cells == [] then Ok([])
    else
      var records :- CellRecordsOf(cells[..|cells| - 1], gm, wi, c);
      var outcome :- CellOutcome(cells[|cells| - 1], gm, wi, c);
      Ok(if outcome.Some? then records + [outcome.value] else records)
  }

  /** `get_root_section`: no records when the document does not parse. */
  function RootSectionOf(doc: Option<Document>, c: Collaborators): Result<seq<Record>, Error> {
    match doc
    case None => Ok([])
    case Some(root) =>
      var gm :- GroupMapOf(Children(root.cellgroups), c);
      var wi :- WallIndexOf(Children(root.walls), c);
      CellRecordsOf(Children(root.cells), gm, wi, c)
  }

  lemma {:induction false} CellRecordsErrorPersists(cells: seq<CellElem>, i: nat, gm: GroupMap, wi: WallIndex, c: Collaborators)
    requires WellFormedIndex(wi)
    requires i <= |cells| && CellRecordsOf(cells[..i], gm, wi, c).Err?
    ensures CellRecordsOf(cells, gm, wi, c) == CellRecordsOf(cells[..i], gm, wi, c)
    decreases |cells|
  {
    if i < |cells| {
      var p := cells[..|cells| - 1];
      assert p[..i] == cells[..i];
      CellRecordsErrorPersists(p, i, gm, wi, c);
    } else {
      assert cells[..i] == cells;
    }
  }

  /** One more cell: its outcome is appended, or its exception ends the section. */
  lemma CellRecordsStep(cells: seq<CellElem>, i: nat, gm: GroupMap, wi: WallIndex, c: Collaborators, records: seq<Record>)
    requires WellFormedIndex(wi)
    requires i < |cells| && CellRecordsOf(cells[..i], gm, wi, c) == Ok(records)
    ensures var o := CellOutcome(cells[i], gm, wi, c);
            CellRecordsOf(cells[..i + 1], gm, wi, c) ==
              if o.Err? then Err(o.error) else if o.value.Some? then Ok(records + [o.value.value]) else Ok(records)
  {
    assert cells[..i + 1][..i] == cells[..i];
  }

  /** The section is built exactly when no cell raises. */
  lemma {:induction false} CellRecordsSucceeds(cells: seq<CellElem>, gm: GroupMap, wi: WallIndex, c: Collaborators)
    requires WellFormedIndex(wi)
    ensures CellRecordsOf(cells, gm, wi, c).Ok? <==> forall k :: 0 <= k < |cells| ==> CellOutcome(cells[k], gm, wi, c).Ok?
    decreases |cells|
  {
    if cells != [] {
      var n := |cells| - 1;
      var p := cells[..n];
      CellRecordsSucceeds(p, gm, wi, c);
      assert forall k :: 0 <= k < n ==> p[k] == cells[k];
    }
  }

  /** The loop over the `cell` elements: one outcome per cell, in document order. */
  method ReconstructCells(cells: Option<seq<CellElem>>, gm: GroupMap, wi: WallIndex, c: Collaborators)
    returns (r: Result<seq<Record>, Error>)
    requires WellFormedIndex(wi)
    ensures r == CellRecordsOf(Children(cells), gm, wi, c)
  {
    var all := Children(cells);
    var records: seq<Record> := [];
    for i := 0 to |all|
      invariant CellRecordsOf(all[..i], gm, wi, c) == Ok(records)
    {
      CellRecordsStep(all, i, gm, wi, c, records);
      var outcome := ReconstructCell(all[i], gm, wi, c);
      if outcome.Err? {
        CellRecordsErrorPersists(all, i + 1, gm, wi, c);
        return Err(outcome.error);
      }
      if outcome.value.Some? {
        records := records + [outcome.value.value];
      }
    }
    assert all[..|all|] == all;
    return Ok(records);
  }

  method GetRootSection(doc: Option<Document>, c: Collaborators) returns (r: Result<seq<Record>, Error>)
    ensures r == RootSectionOf(doc, c)
  {
    if doc.None? {
      return Ok([]);
    }
    var root := doc.value;
    var groupMap := BuildGroupMap(root.cellgroups, c);
    if groupMap.Err? {
      return Err(groupMap.error);
    }
    var wallLines := BuildWallIndex(root.walls, c);
    if wallLines.Err? {
      return Err(wallLines.error);
    }
    r := ReconstructCells(root.cells, groupMap.value, wallLines.value, c);
  }

  /**
   * `idx[k]` is the position of the cell that produced `rs[k]`, and the
   * positions increase: the records follow the document order of the cells.
   */
  ghost predicate RecordOrigins(idx: seq<nat>, rs: seq<Record>, cells: seq<CellElem>, gm: GroupMap, wi: WallIndex, c: Collaborators)
    requires WellFormedIndex(wi)
  {
    |idx| == |rs| &&
    (forall k :: 0 <= k < |idx| ==> idx[k] < |cells| && CellOutcome(cells[idx[k]], gm, wi, c) == Ok(Some(rs[k]))) &&
    (forall k, l :: 0 <= k < l < |idx| ==> idx[k] < idx[l])
  }

  /** Every cell that yields a record has its position in `idx`. */
  ghost predicate KeptCellsListed(idx: seq<nat>, cells: seq<CellElem>, gm: GroupMap, wi: WallIndex, c: Collaborators)
    requires WellFormedIndex(wi)
  {
    forall k :: 0 <= k < |cells| && CellOutcome(cells[k], gm, wi, c).Ok? && CellOutcome(cells[k], gm, wi, c).value.Some? ==>
      k in idx
  }

  /** The records are exactly the kept cells' records, in document order. */
  ghost predicate CellOrigins(idx: seq<nat>, rs: seq<Record>, cells: seq<CellElem>, gm: GroupMap, wi: WallIndex, c: Collaborators)
    requires WellFormedIndex(wi)
  {
    RecordOrigins(idx, rs, cells, gm, wi, c) && KeptCellsListed(idx, cells, gm, wi, c)
  }

  /** The positions of the cells the records of `cells` come from. */
  lemma {:induction false} OriginsOf(cells: seq<CellElem>, gm: GroupMap, wi: WallIndex, c: Collaborators, rs: seq<Record>)
    returns (idx: seq<nat>)
    requires WellFormedIndex(wi)
    requires CellRecordsOf(cells, gm, wi, c) == Ok(rs)
    ensures |rs| <= |cells|
    ensures CellOrigins(idx, rs, cells, gm, wi, c)
    decreases |cells|
  {
    if cells == [] {
      idx := [];
    } else {
      var n := |cells| - 1;
      var p := cells[..n];
      var rs' := CellRecordsOf(p, gm, wi, c).value;
      var idx' := OriginsOf(p, gm, wi, c, rs');
      CellRecordsStep(cells, n, gm, wi, c, rs');
      assert cells[..n + 1] == cells;
      OriginsStep(idx', rs', cells, gm, wi, c);
      var o := CellOutcome(cells[n], gm, wi, c).value;
      idx := if o.Some? then idx' + [n] else idx';
    }
  }

  /** At most one record per cell, in the order of the cells, and every kept cell's record among them. */
  lemma RecordsFollowCells(cells: seq<CellElem>, gm: GroupMap, wi: WallIndex, c: Collaborators, rs: seq<Record>)
    requires WellFormedIndex(wi)
    requires CellRecordsOf(cells, gm, wi, c) == Ok(rs)
    ensures |rs| <= |cells|
    ensures exists idx :: CellOrigins(idx, rs, cells, gm, wi, c)
  {
    var idx := OriginsOf(cells, gm, wi, c, rs);
  }

  /** The origins of the records of all but the last cell, extended by the last cell's record if any. */
  lemma OriginsStep(idx: seq<nat>, rs: seq<Record>, cells: seq<CellElem>, gm: GroupMap, wi: WallIndex, c: Collaborators)
    requires WellFormedIndex(wi) && |cells| > 0
    requires CellOrigins(idx, rs, cells[..|cells| - 1], gm, wi, c)
    requires CellOutcome(cells[|cells| - 1], gm, wi, c).Ok?
    ensures var n, o := |cells| - 1, CellOutcome(cells[|cells| - 1], gm, wi, c).value;
            CellOrigins(if o.Some? then idx + [n] else idx, if o.Some? then rs + [o.value] else rs, cells, gm, wi, c)
  {
    RecordOriginsStep(idx, rs, cells, gm, wi, c);
    KeptCellsStep(idx, cells, gm, wi, c);
  }

  lemma RecordOriginsStep(idx: seq<nat>, rs: seq<Record>, cells: seq<CellElem>, gm: GroupMap, wi: WallIndex, c: Collaborators)
    requires WellFormedIndex(wi) && |cells| > 0
    requires RecordOrigins(idx, rs, cells[..|cells| - 1], gm, wi, c)
    requires CellOutcome(cells[|cells| - 1], gm, wi, c).Ok?
    ensures var n, o := |cells| - 1, CellOutcome(cells[|cells| - 1], gm, wi, c).value;
            RecordOrigins(if o.Some? then idx + [n] else idx, if o.Some? then rs + [o.value] else rs, cells, gm, wi, c)
  {
    var n, o := |cells| - 1, CellOutcome(cells[|cells| - 1], gm, wi, c).value;
    forall k | 0 <= k < |idx|
      ensures cells[idx[k]] == cells[..n][idx[k]]
    {
    }
    if o.Some? {
      var idx', rs' := idx + [n], rs + [o.value];
      assert forall k :: 0 <= k < |idx| ==> idx'[k] == idx[k] && rs'[k] == rs[k];
      assert idx'[|idx|] == n && rs'[|idx|] == o.value;
    }
  }

  lemma KeptCellsStep(idx: seq<nat>, cells: seq<CellElem>, gm: GroupMap, wi: WallIndex, c: Collaborators)
    requires WellFormedIndex(wi) && |cells| > 0
    requires KeptCellsListed(idx, cells[..|cells| - 1], gm, wi, c)
    requires CellOutcome(cells[|cells| - 1], gm, wi, c).Ok?
    ensures var n, o := |cells| - 1, CellOutcome(cells[|cells| - 1], gm, wi, c).value;
            KeptCellsListed(if o.Some? then idx + [n] else idx, cells, gm, wi, c)
  {
    var n, o := |cells| - 1, CellOutcome(cells[|cells| - 1], gm, wi, c).value;
    var idx' := if o.Some? then idx + [n] else idx;
    forall k | 0 <= k < |cells| && CellOutcome(cells[k], gm, wi, c).Ok? && CellOutcome(cells[k], gm, wi, c).value.Some?
      ensures k in idx'
    {
      if k < n {
        assert cells[k] == cells[..n][k];
        assert k in idx;
      } else {
        assert idx'[|idx'| - 1] == n;
      }
    }
  }

  /** `idx[k]` is the position of a cell whose id is `rs[k].idCell`, in increasing order. */
  ghost predicate IdOrigins(idx: seq<nat>, rs: seq<Record>, cells: seq<CellElem>, c: Collaborators) {
    |idx| == |rs| &&
    (forall k :: 0 <= k < |idx| ==> idx[k] < |cells| && ParseId(c, cells[idx[k]].id) == Ok(rs[k].idCell)) &&
    (forall k, l :: 0 <= k < l < |idx| ==> idx[k] < idx[l])
  }

  /**
   * The section as a whole: empty when the document does not parse;
   * otherwise at most one record per cell, in document order, each carrying
   * the id of the cell it came from, and every cell that yields a record has
   * that record in the section.
   */
  lemma RootSectionFollowsCells(doc: Option<Document>, c: Collaborators, rs: seq<Record>)
    requires RootSectionOf(doc, c) == Ok(rs)
    ensures doc.None? ==> rs == []
    ensures doc.Some? ==> |rs| <= |Children(doc.value.cells)|
    ensures doc.Some? ==> exists idx :: IdOrigins(idx, rs, Children(doc.value.cells), c)
    ensures doc.Some? ==>
              GroupMapOf(Children(doc.value.cellgroups), c).Ok? && WallIndexOf(Children(doc.value.walls), c).Ok? &&
              var gm := GroupMapOf(Children(doc.value.cellgroups), c).value;
              var wi := WallIndexOf(Children(doc.value.walls), c).value;
              var cells := Children(doc.value.cells);
              forall k :: 0 <= k < |cells| ==>
                CellOutcome(cells[k], gm, wi, c).Ok? &&
                (CellOutcome(cells[k], gm, wi, c).value.Some? ==> CellOutcome(cells[k], gm, wi, c).value.value in rs)
  {
    if doc.Some? {
      var root := doc.value;
      var cells := Children(root.cells);
      var gm := GroupMapOf(Children(root.cellgroups), c).value;
      var wi := WallIndexOf(Children(root.walls), c).value;
      RecordsFollowCells(cells, gm, wi, c, rs);
      var idx: seq<nat> :| CellOrigins(idx, rs, cells, gm, wi, c);
      forall k | 0 <= k < |idx|
        ensures idx[k] < |cells| && ParseId(c, cells[idx[k]].id) == Ok(rs[k].idCell)
      {
        RecordShape(cells[idx[k]], gm, wi, c, rs[k]);
      }
      assert IdOrigins(idx, rs, cells, c);
      CellRecordsSucceeds(cells, gm, wi, c);
      forall k | 0 <= k < |cells| && CellOutcome(cells[k], gm, wi, c).value.Some?
        ensures CellOutcome(cells[k], gm, wi, c).value.value in rs
      {
        var j :| 0 <= j < |idx| && idx[j] == k;
        assert rs[j] == CellOutcome(cells[k], gm, wi, c).value.value;
      }
    }
  }

  /**
   * The section is built exactly when the document does not parse, or every
   * group id and wall is well formed and no cell raises.
   */
  lemma RootSectionSucceeds(doc: Option<Document>, c: Collaborators)
    ensures doc.None? ==> RootSectionOf(doc, c) == Ok([])
    ensures doc.Some? ==>
              (RootSectionOf(doc, c).Ok? <==>
                 GroupMapOf(Children(doc.value.cellgroups), c).Ok? && WallIndexOf(Children(doc.value.walls), c).Ok? &&
                 var gm := GroupMapOf(Children(doc.value.cellgroups), c).value;
                 var wi := WallIndexOf(Children(doc.value.walls), c).value;
                 forall k :: 0 <= k < |Children(doc.value.cells)| ==> CellOutcome(Children(doc.value.cells)[k], gm, wi, c).Ok?)
  {
    if doc.Some? {
      var gm, wi := GroupMapOf(Children(doc.value.cellgroups), c), WallIndexOf(Children(doc.value.walls), c);
      if gm.Ok? && wi.Ok? {
        CellRecordsSucceeds(Children(doc.value.cells), gm.value, wi.value, c);
      }
    }
  }
}
