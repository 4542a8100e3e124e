/**
 * The parameter sweep of the app: a fixed registry of five parameters, the
 * values to simulate (one in single mode, ten evenly spaced in range mode),
 * the XML field each parameter writes, and the loop that runs the simulator
 * once per value and collects one record per selected scenario.
 *
 * Values are exact reals. The simulator (`mecha`) is a function of the state
 * of its input files; `update_xml_attributes` is the map update of that state.
 */
module Sweep {
  import opened Wrappers

  // =====================================================================
  // Parameter registry
  // =====================================================================

  /** The keys of `PARAM_INFO`; the app's parameter select box offers these, in this order. */
  datatype Param =
    | CellWallThickness
    | MembranePermeability
    | AqpContribution
    | CellWallConductance
    | PlasmodesmataConductance

  const Params: seq<Param> :=
    [CellWallThickness, MembranePermeability, AqpContribution, CellWallConductance, PlasmodesmataConductance]

  /** A registry entry, without its description text. */
  datatype ParamInfo = ParamInfo(name: string, default: real, conversion: real, unit: string)

  /** The `name` entry of `PARAM_INFO[p]`. */
  function Name(p: Param): string {
    match p
    case CellWallThickness => "cell wall thickness"
    case MembranePermeability => "membrane permeability"
    case AqpContribution => "AQP contribution to cell membrane permeability"
    case CellWallConductance => "cell wall conductance"
    case PlasmodesmataConductance => "plasmodesmata conductance"
  }

  /** The `unit` entry of `PARAM_INFO[p]`: the unit the user enters values in. */
  function Unit(p: Param): string {
    match p
    case CellWallThickness => "µm"
    case MembranePermeability => "cm·d⁻¹·hPa⁻¹"
    case AqpContribution => "cm·d⁻¹·hPa⁻¹"
    case CellWallConductance => "cm²·s⁻¹·hPa⁻¹"
    case PlasmodesmataConductance => "cm³·d⁻¹·hPa⁻¹plasmodesmata⁻¹"
  }

  /** `PARAM_INFO[p]`: name, default value, conversion factor to the simulator's unit, unit. */
  function Info(p: Param): (info: ParamInfo)
    ensures info.name == Name(p) && info.unit == Unit(p)
    ensures info.default > 0.0 && info.conversion > 0.0
  {
    match p
    case CellWallThickness => ParamInfo(Name(p), 1.5, 1.0, Unit(p))
    case MembranePermeability => ParamInfo(Name(p), 3.0, 0.00001, Unit(p))
    case AqpContribution => ParamInfo(Name(p), 4.3, 0.0001, Unit(p))
    case CellWallConductance => ParamInfo(Name(p), 2.4, 0.0001, Unit(p))
    case PlasmodesmataConductance => ParamInfo(Name(p), 5.3, 0.000000000001, Unit(p))
  }

  /** The `desc` entry of `PARAM_INFO[p]`, shown beside the parameter. */
  function Description(p: Param): string {
    match p
    case CellWallThickness =>
      "Typical primary cell wall thickness in maize roots ranges from 0.2–2 µm; affects radial water resistance mainly through apoplastic pathway."
    case MembranePermeability =>
      "Average plasma membrane permeability from the biphospholipid layer."
    case AqpContribution =>
      "Aquaporin contribution to total cell membrane permeability"
    case CellWallConductance =>
      "Conductance of water through apoplastic space; low and dominated by porosity of the wall matrix; typical values in 10⁻⁴–10⁻⁵ range."
    case PlasmodesmataConductance =>
      "Effective conductance for symplastic flow between cells via plasmodesmata; literature suggests 10⁻¹²–10⁻¹³ cm³·s⁻¹·MPa⁻¹ per PD connection."
  }

  /**
   * The registry has five entries with five different names, so choosing a
   * parameter by its name (as the select box and the dispatch chain do) is
   * choosing the enumerated key.
   */
  lemma RegistryNamesDistinct(p: Param, q: Param)
    ensures |Params| == 5 && p in Params
    ensures p != q ==> Info(p).name != Info(q).name
  {
    if p != q {
      // The lengths are 19, 21, 46, 21 and 25; the two of length 21 differ in their first letter.
      var a, b := Name(p), Name(q);
      assert |a| != |b| || a[0] != b[0] by {
        match p
        case CellWallThickness => assert |a| == 19;
        case MembranePermeability => assert |a| == 21 && a[0] == 'm';
        case AqpContribution => assert |a| == 46;
        case CellWallConductance => assert |a| == 21 && a[0] == 'c';
        case PlasmodesmataConductance => assert |a| == 25;
      }
    }
  }

  // =====================================================================
  // Parameter -> XML field
  // =====================================================================

  datatype XmlFile = GeometryXml | HydraulicsXml

  /** The attribute `update_xml_attributes(file, element, child, {attribute: ...})` writes. */
  datatype XmlTarget = XmlTarget(file: XmlFile, element: string, child: string, attribute: string)

  /** The field the if/elif chain of the results loop writes a value of `p` to. */
  function Dispatch(p: Param): XmlTarget {
    match p
    case CellWallThickness => XmlTarget(GeometryXml, "thickness", "thickness", "value")
    case MembranePermeability => XmlTarget(HydraulicsXml, "km", "km", "value")
    case AqpContribution => XmlTarget(HydraulicsXml, "kAQPrange", "kAQP", "value")
    case CellWallConductance => XmlTarget(HydraulicsXml, "kwrange", "kw", "value")
    case PlasmodesmataConductance => XmlTarget(HydraulicsXml, "Kplrange", "Kpl", "value")
  }

  /**
   * "cell wall thickness" writes the geometry file and the other four the
   * hydraulics file; two different parameters never write the same field.
   */
  lemma DispatchTargets(p: Param, q: Param)
    ensures Dispatch(p).file == GeometryXml <==> p == CellWallThickness
    ensures Dispatch(p).attribute == "value"
    ensures p != q ==> Dispatch(p) != Dispatch(q)
  {
    var a, b := Dispatch(p).child, Dispatch(q).child;
    if p != q {
      assert |a| != |b| || a[0] != b[0] || a[1] != b[1];
    }
  }

  // =====================================================================
  // Values
  // =====================================================================

  /** How the values are chosen: one entered value, or a range picked on the slider. */
  datatype Mode = Single(value: real) | Range(low: real, high: real)

  /** `k` samples from `x` on, each `step` above the one before. */
  function Steps(x: real, step: real, k: nat): (r: seq<real>)
    ensures |r| == k
    decreases k
  {
    if k == 0 then [] else [x] + Steps(x + step, step, k - 1)
  }

  /** The `i`-th step sample is `x + i * step`. */
  lemma {:induction false} StepsAt(x: real, step: real, k: nat, i: nat)
    requires i < k
    ensures Steps(x, step, k)[i] == x + i as real * step
    decreases k
  {
    if i > 0 {
      StepsAt(x + step, step, k - 1, i - 1);
      assert Steps(x, step, k)[i] == Steps(x + step, step, k - 1)[i - 1];
    }
  }

  /**
   * `np.linspace(start, stop, n)`: `n` samples `(stop - start)/(n - 1)` apart
   * from `start` on, except that the last is `stop` itself.
   */
  function Linspace(start: real, stop: real, n: nat): (r: seq<real>)
    requires n >= 2
    ensures |r| == n && r[0] == start && r[n - 1] == stop
  {
    var r := Steps(start, (stop - start) / (n - 1) as real, n - 1) + [stop];
    assert r[0] == start by {
      StepsAt(start, (stop - start) / (n - 1) as real, n - 1, 0);
    }
    r
  }

  lemma DivMul(x: real, d: real)
    requires d > 0.0
    ensures x / d * d == x
  {
  }

  /** Consecutive samples are `(stop - start)/(n - 1)` apart, the last gap included. */
  lemma LinspaceEvenlySpaced(start: real, stop: real, n: nat, i: nat)
    requires n >= 2 && i < n - 1
    ensures Linspace(start, stop, n)[i + 1] - Linspace(start, stop, n)[i] == (stop - start) / (n - 1) as real
  {
    var step := (stop - start) / (n - 1) as real;
    var s := Steps(start, step, n - 1);
    assert Linspace(start, stop, n) == s + [stop];
    StepsAt(start, step, n - 1, i);
    var x := i as real * step;
    assert (i + 1) as real * step == x + step;
    if i + 1 < n - 1 {
      StepsAt(start, step, n - 1, i + 1);
    } else {
      DivMul(stop - start, (n - 1) as real);
      assert (i + 1) as real * step == stop - start;
    }
  }

  lemma StepNonNegative(start: real, stop: real, n: nat)
    requires n >= 2 && start <= stop
    ensures (stop - start) / (n - 1) as real >= 0.0
  {
  }

  /** The number of samples in range mode. */
  const RangeSteps: nat := 10

  /** `x` converted to the simulator's unit by the factor `c`. */
  function Scale(x: real, c: real): real {
    x * c
  }

  /** Converting by a non-negative factor keeps the order of values. */
  lemma ScaleMonotone(x: real, y: real, c: real)
    requires x <= y && c >= 0.0
    ensures Scale(x, c) <= Scale(y, c)
  {
    assert y * c - x * c == (y - x) * c;
  }

  /**
   * `values`: the entered value converted to the simulator's unit, or ten
   * evenly spaced values between the converted ends of the picked range.
   */
  function SweepValues(info: ParamInfo, mode: Mode): (vs: seq<real>)
    ensures mode.Single? ==> |vs| == 1 && vs[0] == Scale(mode.value, info.conversion)
    ensures mode.Range? ==>
              |vs| == RangeSteps &&
              vs[0] == Scale(mode.low, info.conversion) && vs[RangeSteps - 1] == Scale(mode.high, info.conversion)
  {
    match mode
    case Single(v) => [Scale(v, info.conversion)]
    case Range(low, high) => Linspace(Scale(low, info.conversion), Scale(high, info.conversion), RangeSteps)
  }

  /** The slider lets the user pick `default/10 <= low <= high <= default*10`. */
  predicate WithinSlider(info: ParamInfo, low: real, high: real) {
    info.default / 10.0 <= low <= high <= info.default * 10.0
  }

  /** Samples of an increasing interval never decrease. */
  lemma {:induction false} LinspaceOrdered(start: real, stop: real, n: nat, i: nat, j: nat)
    requires n >= 2 && start <= stop && i <= j < n
    ensures Linspace(start, stop, n)[i] <= Linspace(start, stop, n)[j]
    decreases j - i
  {
    if i < j {
      LinspaceOrdered(start, stop, n, i, j - 1);
      LinspaceEvenlySpaced(start, stop, n, j - 1);
      StepNonNegative(start, stop, n);
    }
  }

  lemma LinspaceMonotone(start: real, stop: real, n: nat, i: nat, j: nat)
    requires n >= 2 && start <= stop && i <= j < n
    ensures start <= Linspace(start, stop, n)[i] <= Linspace(start, stop, n)[j] <= stop
  {
    LinspaceOrdered(start, stop, n, 0, i);
    LinspaceOrdered(start, stop, n, i, j);
    LinspaceOrdered(start, stop, n, j, n - 1);
  }

  /** Evenly spaced samples of `[lo, hi]` stay inside any interval around it and never decrease. */
  lemma LinspaceBetween(lo: real, hi: real, a: real, b: real, n: nat)
    requires n >= 2 && a <= lo <= hi <= b
    ensures var r := Linspace(lo, hi, n);
            (forall i :: 0 <= i < n ==> a <= r[i] <= b) &&
            (forall i, j :: 0 <= i <= j < n ==> r[i] <= r[j])
  {
    var r := Linspace(lo, hi, n);
    forall i, j | 0 <= i <= j < n
      ensures lo <= r[i] <= r[j] <= hi
    {
      LinspaceMonotone(lo, hi, n, i, j);
    }
  }

  /**
   * In range mode every value lies between `default/10` and `default*10`
   * (converted), and the values never decrease.
   */
  lemma RangeValuesWithinLimits(p: Param, mode: Mode)
    requires mode.Range? && WithinSlider(Info(p), mode.low, mode.high)
    ensures var info := Info(p);
            var vs := SweepValues(info, mode);
            (forall i :: 0 <= i < |vs| ==>
               Scale(info.default / 10.0, info.conversion) <= vs[i] <= Scale(info.default * 10.0, info.conversion)) &&
            (forall i, j :: 0 <= i <= j < |vs| ==> vs[i] <= vs[j])
  {
    var info := Info(p);
    var a, lo := Scale(info.default / 10.0, info.conversion), Scale(mode.low, info.conversion);
    var hi, b := Scale(mode.high, info.conversion), Scale(info.default * 10.0, info.conversion);
    ScaleMonotone(info.default / 10.0, mode.low, info.conversion);
    ScaleMonotone(mode.low, mode.high, info.conversion);
    ScaleMonotone(mode.high, info.default * 10.0, info.conversion);
    assert SweepValues(info, mode) == Linspace(lo, hi, RangeSteps);
    LinspaceBetween(lo, hi, a, b, RangeSteps);
  }

  // =====================================================================
  // Scenarios
  // =====================================================================

  /** The options of the scenario multiselect, and its default. */
  const SelectableScenarios: seq<int> := [0, 1, 3, 4]
  const DefaultScenarios: seq<int> := [1]

  /** What the multiselect can return: distinct selectable ids, in the order picked. */
  predicate ValidSelection(s: seq<int>) {
    (forall i :: 0 <= i < |s| ==> s[i] in SelectableScenarios) &&
    (forall i, j :: 0 <= i < j < |s| ==> s[i] != s[j])
  }

  lemma {:induction false} DistinctElements(s: seq<int>)
    requires forall i, j :: 0 <= i < j < |s| ==> s[i] != s[j]
    ensures |set x | x in s| == |s|
    decreases |s|
  {
    if s != [] {
      var t := s[..|s| - 1];
      DistinctElements(t);
      assert (set x | x in s) == (set x | x in t) + {s[|s| - 1]};
      assert s[|s| - 1] !in (set x | x in t);
    }
  }

  /** A selection holds at most the four selectable scenarios; the default is one. */
  lemma SelectionSize(s: seq<int>)
    requires ValidSelection(s)
    ensures |s| <= |SelectableScenarios|
    ensures ValidSelection(DefaultScenarios)
  {
    DistinctElements(s);
    assert (set x | x in s) <= {0, 1, 3, 4};
    assert |{0, 1, 3, 4}| == 4;
    SubsetCard(set x | x in s, {0, 1, 3, 4});
  }

  lemma SubsetCard(a: set<int>, b: set<int>)
    requires a <= b
    ensures |a| <= |b|
  {
    assert b == a + (b - a);
  }

  // =====================================================================
  // The results loop
  // =====================================================================

  /** The state of the simulator's input files: the value of each attribute the sweep writes. */
  type Inputs = map<XmlTarget, real>

  /** The input files after writing `v` for `param`. */
  function Apply(files: Inputs, param: Param, v: real): Inputs {
    files[Dispatch(param) := v]
  }

  /** Writing sets the parameter's field to the value and leaves every other field as it was. */
  lemma ApplyWrites(files: Inputs, param: Param, v: real, t: XmlTarget)
    ensures Dispatch(param) in Apply(files, param, v) && Apply(files, param, v)[Dispatch(param)] == v
    ensures t != Dispatch(param) ==> (t in Apply(files, param, v) <==> t in files)
    ensures t != Dispatch(param) && t in files ==> Apply(files, param, v)[t] == files[t]
  {
  }

  /** Writing the same field twice keeps only the second value. */
  lemma ApplyOverwrites(files: Inputs, param: Param, a: real, b: real)
    ensures Apply(Apply(files, param, a), param, b) == Apply(files, param, b)
  {
  }

  /** One row of the results table: `parameter_value`, `kr`, `hydraulic_scenario`. */
  datatype SweepRecord = SweepRecord(parameterValue: real, kr: real, scenario: int)

  /** `kr[i_sc]` raised IndexError: the simulator returned too few conductivities. */
  datatype SweepError = ScenarioIndexOutOfRange(valueIndex: nat, position: nat)

  /** The records of one value: the `i_sc`-th selected scenario takes `kr[i_sc]`. */
  function Block(v: real, kr: seq<real>, scenarios: seq<int>): (b: seq<SweepRecord>)
    requires |kr| >= |scenarios|
  {
    seq(|scenarios|, j requires 0 <= j < |scenarios| => SweepRecord(v, kr[j], scenarios[j]))
  }

  /** The results of the sweep over `values`, each simulated on the files as that value leaves them. */
  function SweepOf(param: Param, values: seq<real>, scenarios: seq<int>, start: Inputs, mecha: Inputs -> seq<real>)
    : Result<seq<SweepRecord>, SweepError>
  {
    if values == [] then Ok([])
    else
      var n := |values| - 1;
      var records :- SweepOf(param, values[..n], scenarios, start, mecha);
      var kr := mecha(Apply(start, param, values[n]));
      if |kr| < |scenarios| then Err(ScenarioIndexOutOfRange(n, |kr|))
      else Ok(records + Block(values[n], kr, scenarios))
  }

  lemma {:induction false} SweepErrorPersists(param: Param, values: seq<real>, i: nat, scenarios: seq<int>,
                                             start: Inputs, mecha: Inputs -> seq<real>)
    requires i <= |values| && SweepOf(param, values[..i], scenarios, start, mecha).Err?
    ensures SweepOf(param, values, scenarios, start, mecha) == SweepOf(param, values[..i], scenarios, start, mecha)
    decreases |values|
  {
    if i < |values| {
      var p := values[..|values| - 1];
      assert p[..i] == values[..i];
      SweepErrorPersists(param, p, i, scenarios, start, mecha);
    } else {
      assert values[..i] == values;
    }
  }

  /** One more value: the sweep so far, extended by that value's block or stopped by its error. */
  lemma SweepStep(param: Param, values: seq<real>, i: nat, scenarios: seq<int>, start: Inputs,
                  mecha: Inputs -> seq<real>, results: seq<SweepRecord>)
    requires i < |values| && SweepOf(param, values[..i], scenarios, start, mecha) == Ok(results)
    ensures var kr := mecha(Apply(start, param, values[i]));
            SweepOf(param, values[..i + 1], scenarios, start, mecha) ==
              if |kr| < |scenarios| then Err(ScenarioIndexOutOfRange(i, |kr|))
              else Ok(results + Block(values[i], kr, scenarios))
  {
    assert values[..i + 1][..i] == values[..i];
  }

  /**
   * The `if/elif` chain on the parameter's name: writes `v` into the field the
   * parameter controls and leaves every other field as it was.
   */
  method WriteParameter(files: Inputs, param: Param, v: real) returns (files': Inputs)
    ensures files' == Apply(files, param, v)
  {
    files' := files;
    if param == CellWallThickness {
      files' := files[XmlTarget(GeometryXml, "thickness", "thickness", "value") := v];
    } else if param == MembranePermeability {
      files' := files[XmlTarget(HydraulicsXml, "km", "km", "value") := v];
    } else if param == AqpContribution {
      files' := files[XmlTarget(HydraulicsXml, "kAQPrange", "kAQP", "value") := v];
    } else if param == CellWallConductance {
      files' := files[XmlTarget(HydraulicsXml, "kwrange", "kw", "value") := v];
    } else if param == PlasmodesmataConductance {
      files' := files[XmlTarget(HydraulicsXml, "Kplrange", "Kpl", "value") := v];
    }
  }

  /**
   * The inner loop over the selected scenarios: appends one record per
   * position, or stops at the first position `kr` has no entry for.
   */
  method AppendBlock(results: seq<SweepRecord>, v: real, kr: seq<real>, scenarios: seq<int>)
    returns (r: Result<seq<SweepRecord>, nat>)
    ensures r.Ok? <==> |kr| >= |scenarios|
    ensures r.Ok? ==> r.value == results + Block(v, kr, scenarios)
    ensures r.Err? ==> r.error == |kr|
  {
    var acc := results;
    for j := 0 to |scenarios|
      invariant j <= |kr|
      invariant |acc| == |results| + j && acc[..|results|] == results
      invariant forall k :: 0 <= k < j ==> acc[|results| + k] == SweepRecord(v, kr[k], scenarios[k])
    {
      if j >= |kr| {
        return Err(j);
      }
      acc := acc + [SweepRecord(v, kr[j], scenarios[j])];
    }
    assert acc == results + Block(v, kr, scenarios);
    return Ok(acc);
  }

  /** The input state of each simulator invocation: the `k`-th sees only the `k`-th value written. */
  function Calls(param: Param, values: seq<real>, start: Inputs): (cs: seq<Inputs>)
    ensures |cs| == |values|
  {
    seq(|values|, k requires 0 <= k < |values| => Apply(start, param, values[k]))
  }

  lemma CallsStep(param: Param, values: seq<real>, i: nat, start: Inputs)
    requires i < |values|
    ensures Calls(param, values[..i + 1], start) == Calls(param, values[..i], start) + [Apply(start, param, values[i])]
  {
  }

  /**
   * The results loop. `start` is the state of the input files once they are
   * reset and the scenarios are activated. `calls` lists the input state of
   * every simulator invocation, in order: one per value processed, each seeing
   * only that value written (a later write overwrites an earlier one).
   */
  method RunSweep(param: Param, values: seq<real>, scenarios: seq<int>, start: Inputs, mecha: Inputs -> seq<real>)
    returns (r: Result<seq<SweepRecord>, SweepError>, calls: seq<Inputs>)
    ensures r == SweepOf(param, values, scenarios, start, mecha)
    ensures |calls| <= |values|
    ensures calls == Calls(param, values[..|calls|], start)
    ensures r.Ok? ==> |calls| == |values|
    ensures r.Err? ==> |calls| > 0 && r.error.valueIndex == |calls| - 1
  {
    var files := start;
    var results: seq<SweepRecord> := [];
    calls := [];
    for i := 0 to |values|
      invariant |calls| == i
      invariant calls == Calls(param, values[..i], start)
      invariant files == if i == 0 then start else Apply(start, param, values[i - 1])
      invariant SweepOf(param, values[..i], scenarios, start, mecha) == Ok(results)
    {
      var v := values[i];
      files := WriteParameter(files, param, v);
      assert files == Apply(start, param, v) by {
        if i > 0 {
          ApplyOverwrites(start, param, values[i - 1], v);
        }
      }
      var kr := mecha(files);
      CallsStep(param, values, i, start);
      calls := calls + [files];
      SweepStep(param, values, i, scenarios, start, mecha, results);
      var block := AppendBlock(results, v, kr, scenarios);
      if block.Err? {
        SweepErrorPersists(param, values, i + 1, scenarios, start, mecha);
        return Err(ScenarioIndexOutOfRange(i, block.error)), calls;
      }
      results := block.value;
    }
    assert values[..|values|] == values;
    return Ok(results), calls;
  }

  /**
   * The sweep completes exactly when every invocation returns a conductivity
   * for every selected position.
   */
  lemma {:induction false} SweepSucceeds(param: Param, values: seq<real>, scenarios: seq<int>,
                                         start: Inputs, mecha: Inputs -> seq<real>)
    ensures SweepOf(param, values, scenarios, start, mecha).Ok? <==>
            forall i :: 0 <= i < |values| ==> |mecha(Apply(start, param, values[i]))| >= |scenarios|
    decreases |values|
  {
    if values != [] {
      var n := |values| - 1;
      var p := values[..n];
      SweepSucceeds(param, p, scenarios, start, mecha);
      assert forall i :: 0 <= i < n ==> p[i] == values[i];
    }
  }

  lemma {:induction false} SweepLength(param: Param, values: seq<real>, scenarios: seq<int>,
                                       start: Inputs, mecha: Inputs -> seq<real>, rs: seq<SweepRecord>)
    requires SweepOf(param, values, scenarios, start, mecha) == Ok(rs)
    ensures |rs| == |values| * |scenarios|
    decreases |values|
  {
    if values != [] {
      var n, m := |values| - 1, |scenarios|;
      var rs' := SweepOf(param, values[..n], scenarios, start, mecha).value;
      SweepLength(param, values[..n], scenarios, start, mecha, rs');
      assert |rs| == |rs'| + m;
      assert (n + 1) * m == n * m + m;
    }
  }

  /**
   * There are `|values| * |scenarios|` records, value-major: the record at
   * `i * |scenarios| + j` is the `i`-th value with the conductivity at
   * position `j` of the `i`-th simulation and the `j`-th selected scenario id.
   */
  lemma {:induction false} SweepRecordAt(param: Param, values: seq<real>, scenarios: seq<int>,
                                         start: Inputs, mecha: Inputs -> seq<real>, rs: seq<SweepRecord>, i: nat, j: nat)
    requires SweepOf(param, values, scenarios, start, mecha) == Ok(rs)
    requires i < |values| && j < |scenarios|
    ensures |rs| == |values| * |scenarios|
    ensures i * |scenarios| + j < |rs|
    ensures |mecha(Apply(start, param, values[i]))| >= |scenarios|
    ensures rs[i * |scenarios| + j] == SweepRecord(values[i], mecha(Apply(start, param, values[i]))[j], scenarios[j])
    decreases |values|
  {
    SweepLength(param, values, scenarios, start, mecha, rs);
    var n := |values| - 1;
    var m := |scenarios|;
    var p := values[..n];
    var rs' := SweepOf(param, p, scenarios, start, mecha).value;
    SweepLength(param, p, scenarios, start, mecha, rs');
    assert rs == rs' + Block(values[n], mecha(Apply(start, param, values[n])), scenarios);
    if i < n {
      SweepRecordAt(param, p, scenarios, start, mecha, rs', i, j);
      assert (i + 1) * m <= n * m by {
        MulLeq(i + 1, n, m);
      }
      assert p[i] == values[i];
    } else {
      assert i * m + j == |rs'| + j;
    }
  }

  lemma MulLeq(a: nat, b: nat, m: nat)
    requires a <= b
    ensures a * m <= b * m
  {
  }

  /**
   * The simulation as the app runs it for a registered parameter: one record
   * per value and scenario, so a single value gives one record per scenario
   * and a range gives ten.
   */
  lemma SimulationRecordCount(param: Param, mode: Mode, scenarios: seq<int>, start: Inputs,
                              mecha: Inputs -> seq<real>, rs: seq<SweepRecord>)
    requires SweepOf(param, SweepValues(Info(param), mode), scenarios, start, mecha) == Ok(rs)
    ensures mode.Single? ==> |rs| == |scenarios|
    ensures mode.Range? ==> |rs| == RangeSteps * |scenarios|
  {
    SweepLength(param, SweepValues(Info(param), mode), scenarios, start, mecha, rs);
  }
}
