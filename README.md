# Root cross-section reconstruction and parameter sweep, in Dafny

This project models two parts of a plant-root hydraulics explorer.

**`get_root_section`** (`src/utils_vizu.py`) reads a MECHA cell-set document and rebuilds one polygon per cell. The model covers each phase:

- It builds a map from tissue-group id to label. Ids 4 and 3 are forced to "cortex" and "endodermis".
- It builds an index from wall id to the wall's polyline. A wall needs a `points` element and at least two usable points.
- For each cell, in document order, it gathers the polylines of the walls the cell references.
- It asks shapely's `polygonize` for a ring.
- When there is no ring, it builds the fallback polygon: every gathered point, sorted by angle around the points' mean, typed "fallback".
- It keeps the record unless the polygon is empty.

**The sweep driver** (`app.py`) covers:

- the registry of five parameters, with each one's default, conversion factor and unit;
- the values to simulate: one entered value, or ten evenly spaced values across a range picked on the slider;
- the `if/elif` chain that writes each value into the XML field of its parameter;
- the results loop. It calls the simulator once per value and appends one record per selected hydraulic scenario.

Modules:

| file | module | contents |
|---|---|---|
| `wrappers.dfy` | `Wrappers` | `Option`, `Result` |
| `decimal.dfy` | `Decimal` | decimal text of an integer (the id in `unknown_group_<id>`), its parser and round trip |
| `mesh.dfy` | `Mesh` | the parsed document, points, polygons, records, errors, and the external code as `Collaborators` |
| `polygon_order.dfy` | `PolygonOrder` | `order_polygon`: mean, angle key, sort by key |
| `section_index.dfy` | `SectionIndex` | the group map and the wall index: specification functions, the loops as methods, and lemmas |
| `root_section.dfy` | `RootSection` | cell types, wall gathering, one cell's outcome, the whole section |
| `sweep.dfy` | `Sweep` | `PARAM_INFO`, the dispatch chain, the values, the scenario selection, and the results loop |

Each loop of the source is a method. Its postcondition equals a specification function over the input list; that function is a fold over prefixes. The lemmas then state what the function promises.

Exceptions that escape the source are `Err` results:

- `int()` or `float()` refusing an attribute;
- shapely refusing the fallback ring;
- `kr[i_sc]` out of range.

External code is passed in as total functions; the list is under "## Left out".

## Model

| member | source | states |
|---|---|---|
| `Mesh.ParseId` | src/utils_vizu.py:43 | `int(elem.get(...))` succeeds exactly when the attribute is present and `int()` accepts it. A missing attribute or refused text is `NotAnInteger` carrying that text. |
| `Mesh.ParseCoord` | src/utils_vizu.py:63 | `float(text)` succeeds exactly when `float()` accepts the text; otherwise it raises `NotANumber`. |
| `Mesh.FlattenAppend` | src/utils_vizu.py:102 | The points of `a + b` are the points of `a` followed by those of `b`, as `cell_points.extend` accumulates them. |
| `SectionIndex.BuildGroupMap` | src/utils_vizu.py:39-50 | The loop over `group` elements returns exactly `GroupMapOf` of the declarations. This includes the first `int()` error. |
| `SectionIndex.GroupMapKeys` | src/utils_vizu.py:42-50 | On success every group id parsed. The keys are exactly the declared ids. Id 4 maps to "cortex" and id 3 to "endodermis", whatever name they declare (the label rule is `GroupLabel`, lines 44-49). |
| `SectionIndex.GroupMapSucceeds` | src/utils_vizu.py:42-43 | The group map is built exactly when every group id is an integer `int()` accepts. |
| `SectionIndex.GroupMapLastWins` | src/utils_vizu.py:44-50 | Every id carries `GroupLabel` of its last declaration: the declared `name`, or `None` when absent, except for ids 4 and 3. |
| `SectionIndex.GroupMapContents` | src/utils_vizu.py:38-50 | The contents of the group map: keys, fixed labels for 4 and 3, and last declaration wins. |
| `SectionIndex.KeptPointsSucceeds` | src/utils_vizu.py:62-66 | The point comprehension succeeds exactly when both coordinates of every usable point (`x` and `y` present and non-empty) convert with `float()`. A bad coordinate raises; it is not dropped. |
| `SectionIndex.KeptPointsValues` | src/utils_vizu.py:62-66 | On success the comprehension yields the usable points, each converted, in document order, one per usable point. |
| `SectionIndex.AllConvertAppend` | src/utils_vizu.py:62-66 | Every point of `a + b` converts exactly when every point of `a` and every point of `b` converts. |
| `SectionIndex.BuildWallIndex` | src/utils_vizu.py:53-69 | The loop over `wall` elements returns exactly `WallIndexOf`. Walls without `points` are skipped, entries need at least two points, and the first `int()`/`float()` error propagates. |
| `SectionIndex.WallIndexKeys` | src/utils_vizu.py:56-69 | The keys of the index are exactly the ids of the walls that pass the filter: a `points` element that yields at least two points. |
| `SectionIndex.WallIndexLastWins` | src/utils_vizu.py:68-69 | Each id maps to the points of the last wall with that id that passes the filter. A later wall that fails the filter leaves the earlier entry in place. |
| `SectionIndex.WallIndexContents` | src/utils_vizu.py:52-69 | Both of the above for the index as a whole. |
| `SectionIndex.WallIndexSucceeds` | src/utils_vizu.py:56-66 | The wall index is built exactly when every wall id is an integer and, for every wall with a `points` element, its point comprehension succeeds (see `KeptPointsSucceeds`). |
| `PolygonOrder.Insert` | src/utils_vizu.py:79 | Inserting into a sorted sequence keeps it sorted and adds exactly that point (multiset). |
| `PolygonOrder.SortByKey` | src/utils_vizu.py:79 | The result is a permutation (multiset equality) of the input, sorted by the key. |
| `PolygonOrder.OrderPolygon` | src/utils_vizu.py:72-80 | The fallback vertices are every point once per occurrence, in the same number, sorted by `arctan2` angle around the points' mean. |
| `PolygonOrder.SortedPermutationUnique` | src/utils_vizu.py:79 | Two sorted permutations of a sequence whose key tells distinct points apart are equal. |
| `PolygonOrder.OrderPolygonIsArgsortOrder` | src/utils_vizu.py:76-80 | When distinct points have distinct angles, every sorted permutation equals the model's order, including the one `np.argsort` returns. |
| `Decimal.DecimalRoundTrip` | src/utils_vizu.py:89 | The decimal text of an integer, as the f-string writes it, parses back to that integer. |
| `Decimal.DecimalStringInjective` | src/utils_vizu.py:89 | Different integers have different decimal texts. |
| `RootSection.UndeclaredGroupType` | src/utils_vizu.py:89 | `ResolveType` (the `group_map.get` with its default) gives a cell of an undeclared group a type, not an error. That type is `unknown_group_` followed by text that parses back to the group id. It is never "fallback", and differs between different undeclared groups. |
| `RootSection.ResolveRefsConcat` | src/utils_vizu.py:96-101 | Gathering distributes over concatenation of the reference list: the walls of `a + b` are those of `a` then those of `b`, duplicates kept. The first failing `int()` is the result. |
| `RootSection.CellPointsConcat` | src/utils_vizu.py:102 | The gathered points of `a + b` are those of `a` followed by those of `b`. |
| `RootSection.UnknownRefSkipped` | src/utils_vizu.py:99-100 | A reference to a wall id missing from the index changes nothing: it is skipped silently. |
| `RootSection.ResolveRefsSucceeds` | src/utils_vizu.py:97-98 | Gathering succeeds exactly when every wall reference of the cell has an integer id. |
| `RootSection.GatherWalls` | src/utils_vizu.py:91-102 | The gathering loop succeeds exactly when the specification does. `cell_lines` is the resolved walls, `cell_points` is their points concatenated, and an error is the specification's error. |
| `RootSection.ReconstructCell` | src/utils_vizu.py:87-122 | The per-cell body returns exactly `CellOutcome`: a record, nothing, or the exception raised. |
| `RootSection.CellPolygonCases` | src/utils_vizu.py:104-120 | The three-way outcome of `CellPolygon`. Without walls there is no record. A ring from polygonize gives the record `(id, type, ring)` unless the ring is empty. Without a ring, a refused fallback ring raises, an accepted non-empty one gives `(id, "fallback", ordered points)`, and an empty one gives no record. |
| `RootSection.CellOutcomeSucceeds` | src/utils_vizu.py:87-122 | A cell raises exactly when its id or group is not an integer, a wall reference id is not an integer, or shapely refuses its fallback ring. |
| `RootSection.CellKept` | src/utils_vizu.py:87-120 | A cell whose ids parse is kept whenever it has walls and a non-empty polygon. With a ring, the record is `(id, group label, first ring)`; with an accepted fallback ring, `(id, "fallback", ring)`. A cell without walls is dropped. |
| `RootSection.PolygonRecordShape` | src/utils_vizu.py:104-120 | A record from gathered walls carries the cell id and non-empty geometry, and needs at least one wall. With a ring: the geometry is the first ring and the type is unchanged. Without: the type is "fallback" and the vertices are the gathered points, every occurrence, sorted by angle around their mean. |
| `RootSection.RecordShape` | src/utils_vizu.py:87-120 | The same facts for a record stated about its cell: the id parses to the record's id, the group id parses, and the type with a ring is the group's resolved label. |
| `RootSection.ReconstructCells` | src/utils_vizu.py:83-122 | The loop over `cell` elements returns exactly `CellRecordsOf`. Records are kept in cell order, and the first exception ends the section. |
| `RootSection.CellRecordsSucceeds` | src/utils_vizu.py:83-122 | The records are built exactly when no cell raises. |
| `RootSection.GetRootSection` | src/utils_vizu.py:31-126 | The whole function returns exactly `RootSectionOf`. A document that does not parse gives no records. |
| `RootSection.RecordsFollowCells` | src/utils_vizu.py:83-120 | There is at most one record per cell. Each record is the outcome of a distinct cell, and the positions of those cells increase with the record's position. Every cell that yields a record has its position listed, so the records are exactly the kept cells' records, in document order. |
| `RootSection.RootSectionFollowsCells` | src/utils_vizu.py:31-120 | The section is empty for an unparsable document. Otherwise it has at most one record per cell, in document order, each with the id of the cell it came from. Every cell's outcome succeeded, and every kept cell's record is in the section. |
| `RootSection.RootSectionSucceeds` | src/utils_vizu.py:31-126 | An unparsable document gives no records. Otherwise the section is built exactly when the group map and the wall index are built and no cell raises. |
| `Sweep.Info` | app.py:21-52 | Each registry entry has the parameter's name and unit, a positive default and a positive conversion factor (the constants of `PARAM_INFO`). Its `desc` texts are `Sweep.Description`, used only by the display, which is left out. |
| `Sweep.RegistryNamesDistinct` | app.py:21-52 | The registry has five entries with five different names, so selecting by name selects one entry. |
| `Sweep.DispatchTargets` | app.py:179-188 | Only "cell wall thickness" writes the geometry file. Every target attribute is `value`, and two parameters never write the same field. |
| `Sweep.WriteParameter` | app.py:179-188 | The `if/elif` chain leaves the input state equal to `Apply`: the parameter's field set to the value. |
| `Sweep.ApplyWrites` | app.py:179-188 | Writing sets the parameter's field to the value and leaves every other field as it was. |
| `Sweep.ApplyOverwrites` | app.py:179-188 | Writing the same field twice keeps only the second value, so each simulation sees only its own value. |
| `Sweep.SweepValues` | app.py:129-155 | Single mode gives one value, the entry times the conversion factor. Range mode gives ten values, from the converted low end to the converted high end. |
| `Sweep.Linspace` | app.py:153 | `n` samples, the first `start` and the last `stop`. |
| `Sweep.LinspaceEvenlySpaced` | app.py:153 | Consecutive samples are `(stop - start)/(n - 1)` apart, the last gap included. |
| `Sweep.LinspaceMonotone` | app.py:153 | For `start <= stop`, samples stay in `[start, stop]` and never decrease. |
| `Sweep.LinspaceBetween` | app.py:153 | Samples of `[lo, hi]` lie in any interval containing it and never decrease. |
| `Sweep.RangeValuesWithinLimits` | app.py:137-153 | For a range picked within the slider limits `default/10 .. default*10`, every value lies between the converted limits and the values never decrease. |
| `Sweep.SelectionSize` | app.py:160 | A selection holds at most the four selectable scenarios, and the default `[1]` is a valid selection. |
| `Sweep.AppendBlock` | app.py:192-193 | The inner loop succeeds exactly when `kr` has an entry per selected position. It then appends the value's block, with `kr[i_sc]` for the `i_sc`-th scenario; otherwise it fails at position `len(kr)`. |
| `Sweep.RunSweep` | app.py:175-193 | The results loop returns exactly `SweepOf`. The simulator is called once per value processed, and each call sees the start state with only that value written. On success every value was processed; on error the last call is the failing value. |
| `Sweep.SweepSucceeds` | app.py:177-193 | The sweep completes exactly when every simulation returns at least as many conductivities as there are selected scenarios. |
| `Sweep.SweepLength` | app.py:177-193 | A completed sweep has `len(values) * len(scenarios)` records. |
| `Sweep.SweepRecordAt` | app.py:177-193 | The records are value-major. The record at `i*len(scenarios) + j` holds the `i`-th value, the `j`-th conductivity of the `i`-th simulation and the `j`-th selected scenario id. |
| `Sweep.SimulationRecordCount` | app.py:129-193 | Single mode yields `len(scenarios)` records and range mode `10 * len(scenarios)`. |

## Left out

- XML parsing itself (`ET.parse`, `find`, `findall`, `get`). The input is the parsed document, or `None` when parsing fails.
- `int()`, `float()`, `np.arctan2`, `shapely.ops.polygonize`, the raising of shapely's `Polygon` constructor and `is_empty` are collaborators: total functions passed in, whose internals are not modelled.
- Floating point: coordinates, means and sweep values are exact reals. `np.linspace` rounding is not modelled.
- The value formatting written to the XML (`:.3f`, `:.6f`, `:.3e`) is not modelled: the exact value is written.
- `PolygonOrder.OrderPolygon`: the model's sort breaks ties between equal angles in one fixed way, and `np.argsort` may pick another. The contract promises only a sorted permutation. `OrderPolygonIsArgsortOrder` shows the orders coincide when distinct points have distinct angles.
- `GeoDataFrame` construction and its CRS, `plot_root_section` and all plotting.
- RootSection.GetRootSection: returns `Ok([])` when the document parses but keeps no cell. The frame constructor at src/utils_vizu.py:125, given an empty record list and a CRS, may raise instead, depending on the geopandas version; the model does not capture that exception.
- RootSection.RootSectionSucceeds: "built exactly when" covers the phases up to the record list (lines 31-124). A frame constructor that refuses an empty record list with a CRS (line 125, depending on the geopandas version) is outside what it promises.
- The Streamlit UI. The sliders and inputs become a `Mode` value, and the select box becomes a `Param` value rather than its name string.
- File copying (`safe_copy`), `set_hydraulic_scenario`, the progress bar and the `print` calls.
- The simulator (`mecha`) is a function of the input-file state, which is threaded as a value (a map from written field to value). The files on disk and `update_xml_attributes` are not part of this model.
- `Sweep.RangeValuesWithinLimits` assumes the slider returns values within its limits. The widget guarantees this and the model does not check it.
- `Sweep.RunSweep` returns records and the list of simulator inputs. It does not build the `DataFrame` or the plot.

Behaviour of the code that the model keeps:

- A coordinate or id that `float()` or `int()` refuses raises, ending the reconstruction. It is not dropped. The filter at src/utils_vizu.py:65 only checks that both attributes are present and non-empty.
- Duplicate wall, group or cell ids are not rejected: a later wall or group replaces an earlier one, and duplicate cells give duplicate records.
- A group may be declared with the name "fallback"; nothing keeps that label distinct from the fallback tag.
- The fallback polygon has one vertex per gathered point occurrence, duplicates included; it does not have one per distinct point.
- A fallback ring that shapely refuses (for example one with fewer than three points) raises; the cell is not omitted.
