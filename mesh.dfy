/**
 * The mesh document (a MECHA cell-set file) after XML parsing, the values the
 * reconstruction produces, and the external code it calls.
 *
 * Attribute values are the raw text of the XML attribute, `None` when the
 * attribute is absent. A child element the reconstruction looks up with
 * `find` is `None` when the document does not have it.
 */
module Mesh {
  import opened Wrappers

  /** A 2-D coordinate pair, as the `(float(x), float(y))` tuples of the source. */
  datatype Point = Point(x: real, y: real)

  /** The coordinates of a wall, in document order (a LineString). */
  type Polyline = seq<Point>

  /** A polygon given by its exterior ring; the closing vertex is implicit. */
  datatype Polygon = Polygon(shell: seq<Point>)

  // ---- the parsed document ----

  /** `<point x=".." y=".."/>` */
  datatype PointElem = PointElem(x: Option<string>, y: Option<string>)

  /** `<wall id=".."><points>..</points></wall>`; `points` is the `<points>` child. */
  datatype WallElem = WallElem(id: Option<string>, points: Option<seq<PointElem>>)

  /** `<group id=".." name=".."/>` under `groups/cellgroups`. */
  datatype GroupElem = GroupElem(id: Option<string>, name: Option<string>)

  /** `<wall id=".."/>` inside a cell's `<walls>`. */
  datatype WallRef = WallRef(id: Option<string>)

  /** `<cell id=".." group=".."><walls>..</walls></cell>`. */
  datatype CellElem = CellElem(id: Option<string>, group: Option<string>, walls: Option<seq<WallRef>>)

  /** The root element: `groups/cellgroups`, `walls` and `cells`, each possibly missing. */
  datatype Document = Document(
    cellgroups: Option<seq<GroupElem>>,
    walls: Option<seq<WallElem>>,
    cells: Option<seq<CellElem>>)

  // ---- what the reconstruction produces ----

  /** A tissue label; `None` is the label of a group declared without a name. */
  type Label = Option<string>

  /** One row of the root section: `id_cell`, `type`, `geometry`. */
  datatype Record = Record(idCell: int, cellType: Label, geometry: Polygon)

  /** The exceptions that escape the reconstruction. */
  datatype Error =
    | NotAnInteger(text: Option<string>)   // int() of a missing or non-integer attribute
    | NotANumber(coord: string)            // float() of a non-numeric coordinate
    | InvalidRing(coords: seq<Point>)      // shapely refuses to build Polygon(coords)

  /**
   * The external code the reconstruction relies on, as total functions:
   * `int` and `float` of an attribute text (`None` when Python raises),
   * `np.arctan2(dy, dx)`, shapely's `polygonize`, whether shapely's
   * `Polygon(coords)` constructor raises, and shapely's `is_empty`.
   */
  datatype Collaborators = Collaborators(
    toInt: string -> Option<int>,
    toFloat: string -> Option<real>,
    arctan2: (real, real) -> real,
    polygonize: seq<Polyline> -> seq<Polygon>,
    ringRejected: seq<Point> -> bool,
    isEmpty: Polygon -> bool)

  /** `int(elem.get(name))`: raises on a missing attribute and on text int() refuses. */
  function ParseId(c: Collaborators, text: Option<string>): (r: Result<int, Error>)
    ensures r.Ok? <==> text.Some? && c.toInt(text.value).Some?
    ensures r.Ok? ==> r.value == c.toInt(text.value).value
    ensures r.Err? ==> r.error == NotAnInteger(text)
  {
    match text
    case None => Err(NotAnInteger(None))
    case Some(t) =>
      match c.toInt(t)
      case None => Err(NotAnInteger(text))
      case Some(n) => Ok(n)
  }

  /** `float(text)`. */
  function ParseCoord(c: Collaborators, text: string): (r: Result<real, Error>)
    ensures r.Ok? <==> c.toFloat(text).Some?
    ensures r.Ok? ==> r.value == c.toFloat(text).value
    ensures r.Err? ==> r.error == NotANumber(text)
  {
    match c.toFloat(text)
    case None => Err(NotANumber(text))
    case Some(v) => Ok(v)
  }

  /** The list a `findall` yields under an optional parent element. */
  function Children<T>(parent: Option<seq<T>>): seq<T> {
    match parent
    case None => []
    case Some(xs) => xs
  }

  /** The points of several walls, one after the other (`cell_points.extend`). */
  function Flatten(lines: seq<Polyline>): (ps: seq<Point>)
    ensures (forall k :: 0 <= k < |lines| ==> |lines[k]| >= 2) ==> |ps| >= 2 * |lines|
  {
    if lines == [] then [] else Flatten(lines[..|lines| - 1]) + lines[|lines| - 1]
  }

  lemma {:induction false} FlattenAppend(a: seq<Polyline>, b: seq<Polyline>)
    ensures Flatten(a + b) == Flatten(a) + Flatten(b)
    decreases |b|
  {
    if b == [] {
      assert a + b == a;
    } else {
      var n := |b| - 1;
      assert (a + b)[..|a + b| - 1] == a + b[..n];
      FlattenAppend(a, b[..n]);
    }
  }
}
