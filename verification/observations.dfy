/** The shared machinery of the hourly observation parsers: the format table
    of each parser, the element cells of a product row, the station
    position history, the station id and observation type of an archive,
    the date-range skip test and the hour-by-hour record reader. */
module Observations {
  import opened Wrappers
  import opened Text
  import opened External
  import opened Tables
  import opened Dispatch

  /** How a parser departs from the plain hourly reader. */
  datatype Variant =
    | Hourly              // `ObservationsParser` as is
    | PressureReduction   // `PressureObservationsParser.parse_elements`
    | Gusts               // `WindGustsObservationsParser`

  /** The class attributes of an observation parser: `elements` as
      (element, product column) pairs in dict order, `ignored_values` and
      `converters`. */
  datatype Descriptor = Descriptor(
    elements: seq<(string, string)>,
    ignored: map<string, seq<string>>,
    converters: map<string, Unit>,
    variant: Variant)

  const PressureMsl := "pressure_msl"
  const PressureStation := "pressure_station"
  const GustDirection := "wind_gust_direction"
  const GustSpeed := "wind_gust_speed"

  /** A format table the reader can run on: element names are dict keys,
      every converter names an element, and the variants find the elements
      they read. */
  predicate WellFormed(d: Descriptor) {
    && DistinctFirsts(d.elements)
    && d.converters.Keys <= Firsts(d.elements)
    && (d.variant == PressureReduction ==>
          PressureMsl in Firsts(d.elements) && PressureStation in Firsts(d.elements))
    && (d.variant == Gusts ==>
          GustDirection in Firsts(d.elements) && GustSpeed in Firsts(d.elements))
  }

  /** The format table of each observation parser class; the forecast and
      current parsers have none. */
  function DescriptorOf(kind: ParserKind): (d: Option<Descriptor>)
    ensures d.None? <==> kind == Mosmix || kind == CurrentObservations
    ensures d.Some? ==> WellFormed(d.value)
    ensures d.Some? ==> (d.value.variant == PressureReduction <==> kind == PressureObservations)
    ensures d.Some? ==> (d.value.variant == Gusts <==> kind == WindGustsObservations)
  {
    match kind
    case Mosmix => None
    case CurrentObservations => None
    case CloudCoverObservations =>
      var els := [("cloud_cover", " V_N")];
      assert els[0].0 in Firsts(els);
      Some(Descriptor(els, map["cloud_cover" := ["-1", "9"]], map["cloud_cover" := EighthsToPercent], Hourly))
    case DewPointObservations =>
      var els := [("dew_point", "  TD")];
      assert els[0].0 in Firsts(els);
      Some(Descriptor(els, map[], map["dew_point" := CelsiusToKelvin], Hourly))
    case TemperatureObservations =>
      var els := [("relative_humidity", "RF_TU"), ("temperature", "TT_TU")];
      assert els[1].0 in Firsts(els);
      Some(Descriptor(els, map[], map["temperature" := CelsiusToKelvin], Hourly))
    case PrecipitationObservations =>
      Some(Descriptor([("precipitation", "  R1")], map[], map[], Hourly))
    case VisibilityObservations =>
      var els := [("visibility", "V_VV")];
      assert els[0].0 in Firsts(els);
      Some(Descriptor(els, map[], map["visibility" := IntCast], Hourly))
    case WindObservations =>
      var els := [("wind_speed", "   F"), ("wind_direction", "   D")];
      assert els[1].0 in Firsts(els);
      Some(Descriptor(els, map["wind_direction" := ["990"]], map["wind_direction" := IntCast], Hourly))
    case WindGustsObservations =>
      var els := [(GustDirection, "DX_10"), (GustSpeed, "FX_10")];
      assert els[0].0 in Firsts(els) && els[1].0 in Firsts(els);
      Some(Descriptor(els, map[], map[], Gusts))
    case SunshineObservations =>
      var els := [("sunshine", "SD_SO")];
      assert els[0].0 in Firsts(els);
      Some(Descriptor(els, map[], map["sunshine" := MinutesToSeconds], Hourly))
    case PressureObservations =>
      var els := [(PressureMsl, "   P"), (PressureStation, "  P0")];
      assert els[0].0 in Firsts(els) && els[1].0 in Firsts(els);
      Some(Descriptor(els, map[], map[PressureMsl := HpaToPa, PressureStation := HpaToPa], PressureReduction))
  }

  // ---------------------------------------------------------------------
  // Element cells

  /** A product cell that stands for no value: after stripping, the `-999`
      marker or one of the element's ignored codes. */
  predicate IsNull(ignored: map<string, seq<string>>, element: string, cell: string) {
    Strip(cell) == "-999" || Strip(cell) in CodesFor(ignored, element)
  }

  /** One element cell: None for a null cell, otherwise `float` of the raw
      (unstripped) cell. */
  function ElementCell(env: Env, ignored: map<string, seq<string>>, element: string, cell: string)
    : (r: Result<Option<real>>)
    ensures r.Success? <==> IsNull(ignored, element, cell) || env.float(cell).Some?
    ensures r.Success? ==> (r.value.None? <==> IsNull(ignored, element, cell))
    ensures r.Success? && r.value.Some? ==> r.value == env.float(cell)
  {
    if IsNull(ignored, element, cell) then Success(None)
    else
      var x :- Float(env, cell);
      Success(Some(x))
  }

  /** The element cells of a row in table order; a missing column
      (KeyError) or an unreadable number (ValueError) aborts. */
  function ReadCells(env: Env, row: map<string, string>, els: seq<(string, string)>,
                     ignored: map<string, seq<string>>)
    : (r: Result<seq<Option<real>>>)
    ensures r.Success? <==> forall k :: 0 <= k < |els| ==>
      els[k].1 in row && ElementCell(env, ignored, els[k].0, row[els[k].1]).Success?
    ensures r.Success? ==> |r.value| == |els|
    ensures r.Success? ==> forall k :: 0 <= k < |els| ==>
      r.value[k] == ElementCell(env, ignored, els[k].0, row[els[k].1]).value
  {
    if |els| == 0 then Success([])
    else
      var cell :- Lookup(row, els[0].1);
      var v :- ElementCell(env, ignored, els[0].0, cell);
      assert forall k :: 1 <= k < |els| ==> els[k] == els[1..][k - 1];
      var rest :- ReadCells(env, row, els[1..], ignored);
      Success([v] + rest)
  }

  /** The converted value of every element, keyed by element. */
  function ElementValues(env: Env, els: seq<(string, string)>, converters: map<string, Unit>,
                         raw: seq<Option<real>>) : (m: map<string, Option<real>>)
    requires DistinctFirsts(els) && |raw| == |els|
    ensures m.Keys == Firsts(els)
    ensures forall k :: 0 <= k < |els| ==> m[els[k].0] == Convert(env, converters, els[k].0, raw[k])
  {
    map k | 0 <= k < |els| :: els[k].0 := Convert(env, converters, els[k].0, raw[k])
  }

  /** What `parse_elements` needs to succeed on a row: every element column
      present and every cell readable, which by `ElementCell`'s contract
      means null or a number. */
  predicate ValidElements(env: Env, row: map<string, string>, d: Descriptor) {
    forall k :: 0 <= k < |d.elements| ==>
      && d.elements[k].1 in row
      && ElementCell(env, d.ignored, d.elements[k].0, row[d.elements[k].1]).Success?
  }

  /** The element values of a row under an element table, its ignored codes
      and its converters. */
  function ReadElements(env: Env, row: map<string, string>, els: seq<(string, string)>,
                        ignored: map<string, seq<string>>, converters: map<string, Unit>)
    : (r: Result<map<string, Option<real>>>)
    requires DistinctFirsts(els)
    ensures r.Success? <==> forall k :: 0 <= k < |els| ==>
      els[k].1 in row && ElementCell(env, ignored, els[k].0, row[els[k].1]).Success?
    ensures r.Success? ==> r.value.Keys == Firsts(els)
    ensures r.Success? ==> forall k :: 0 <= k < |els| ==>
      r.value[els[k].0] == Convert(env, converters, els[k].0, ElementCell(env, ignored, els[k].0, row[els[k].1]).value)
  {
    var raw :- ReadCells(env, row, els, ignored);
    Success(ElementValues(env, els, converters, raw))
  }

  /** `ObservationsParser.parse_elements`: one value per element, None
      exactly for a null cell, otherwise the converted number. */
  function ParseElements(env: Env, row: map<string, string>, d: Descriptor)
    : (r: Result<map<string, Option<real>>>)
    requires DistinctFirsts(d.elements)
    ensures r.Success? <==> ValidElements(env, row, d)
    ensures r.Success? ==> r.value.Keys == Firsts(d.elements)
    ensures r.Success? ==> forall k :: 0 <= k < |d.elements| ==>
      r.value[d.elements[k].0] ==
        Convert(env, d.converters, d.elements[k].0, ElementCell(env, d.ignored, d.elements[k].0, row[d.elements[k].1]).value)
  {
    ReadElements(env, row, d.elements, d.ignored, d.converters)
  }

  /** The override in `PressureObservationsParser.parse_elements`: a falsy
      sea-level pressure (None or 0) is replaced by the barometric
      reduction of a truthy station pressure at the station's height; the
      station pressure is then dropped. */
  function ReducePressure(env: Env, values: map<string, Option<real>>, height: real)
    : (m: map<string, Option<real>>)
    requires PressureMsl in values && PressureStation in values
    ensures m.Keys == values.Keys - {PressureStation}
    ensures forall c :: c in m && c != PressureMsl ==> m[c] == values[c]
  {
    var msl := values[PressureMsl];
    var station := values[PressureStation];
    var v := if !Truthy(msl) && Truthy(station)
             then values[PressureMsl := Some(env.barometric(station.value, height))]
             else values;
    v - {PressureStation}
  }

  /** A recorded sea-level pressure is never overwritten, a missing one is
      filled exactly when the station pressure is truthy, and then from
      the station pressure alone. */
  lemma ReducePressureFillsOnlyGaps(env: Env, values: map<string, Option<real>>, height: real)
    requires PressureMsl in values && PressureStation in values
    ensures Truthy(values[PressureMsl]) ==>
      ReducePressure(env, values, height)[PressureMsl] == values[PressureMsl]
    ensures !Truthy(values[PressureMsl]) && !Truthy(values[PressureStation]) ==>
      ReducePressure(env, values, height)[PressureMsl] == values[PressureMsl]
    ensures !Truthy(values[PressureMsl]) && Truthy(values[PressureStation]) ==>
      ReducePressure(env, values, height)[PressureMsl] ==
        Some(env.barometric(values[PressureStation].value, height))
  {
  }

  /** The element values of one product row for the parser's variant;
      `height` is the station height the row's time resolves to. */
  function StationElements(env: Env, row: map<string, string>, d: Descriptor, height: real)
    : (r: Result<map<string, Option<real>>>)
    requires WellFormed(d)
    ensures r.Success? <==> ValidElements(env, row, d)
    ensures r.Success? ==>
      r.value.Keys == (if d.variant == PressureReduction then Firsts(d.elements) - {PressureStation} else Firsts(d.elements))
  {
    var values :- ParseElements(env, row, d);
    if d.variant == PressureReduction then Success(ReducePressure(env, values, height))
    else Success(values)
  }

  /** The values a row contributes are its parsed element values, except
      that the pressure parser fills a falsy sea-level pressure from a
      truthy station pressure. */
  lemma StationElementsValues(env: Env, row: map<string, string>, d: Descriptor, height: real)
    requires WellFormed(d) && StationElements(env, row, d, height).Success?
    ensures ParseElements(env, row, d).Success?
    ensures var r := StationElements(env, row, d, height).value;
      var v := ParseElements(env, row, d).value;
      forall c :: c in r && (d.variant != PressureReduction || c != PressureMsl) ==> c in v && r[c] == v[c]
    ensures d.variant == PressureReduction ==>
      var r := StationElements(env, row, d, height).value;
      var v := ParseElements(env, row, d).value;
      && PressureMsl in v && PressureStation in v && PressureMsl in r
      && r[PressureMsl] ==
           (if !Truthy(v[PressureMsl]) && Truthy(v[PressureStation])
            then Some(env.barometric(v[PressureStation].value, height))
            else v[PressureMsl])
  {
    if d.variant == PressureReduction {
      ReducePressureFillsOnlyGaps(env, ParseElements(env, row, d).value, height);
    }
  }

  // ---------------------------------------------------------------------
  // Station position history

  /** `lat_lon_history`: (valid-from date, position) entries in dict order. */
  type History = seq<(Timestamp, Location)>

  predicate DistinctDates(h: History) {
    forall i, j :: 0 <= i < j < |h| ==> h[i].0 != h[j].0
  }

  predicate Ascending(h: History) {
    forall i, j :: 0 <= i < j < |h| ==> h[i].0 < h[j].0
  }

  /** Dict lookup. */
  function Get(h: History, date: Timestamp): Option<Location> {
    if |h| == 0 then None else if h[0].0 == date then Some(h[0].1) else Get(h[1..], date)
  }

  /** `history[date] = loc`: an existing date keeps its place and takes the
      new position, a new date goes last. */
  function Put(h: History, date: Timestamp, loc: Location): (r: History)
    requires DistinctDates(h)
    ensures DistinctDates(r)
    ensures Get(r, date) == Some(loc)
    ensures forall d :: d != date ==> Get(r, d) == Get(h, d)
    ensures Get(h, date).Some? ==> |r| == |h|
    ensures Get(h, date).None? ==> r == h + [(date, loc)]
    ensures forall i :: 0 <= i < |h| ==> r[i].0 == h[i].0
  {
    if |h| == 0 then [(date, loc)]
    else if h[0].0 == date then
      assert forall d :: d != date ==> Get(h, d) == Get(h[1..], d);
      [(date, loc)] + h[1..]
    else
      var rest := Put(h[1..], date, loc);
      assert forall i :: 0 < i < |h| ==> h[i].0 == h[1..][i - 1].0;
      [h[0]] + rest
  }

  /** The dict built by assigning the entries in order. */
  function Collect(es: History): (r: History)
    ensures DistinctDates(r)
    decreases |es|
  {
    if |es| == 0 then [] else Put(Collect(es[..|es| - 1]), es[|es| - 1].0, es[|es| - 1].1)
  }

  /** Every date of the input maps to the position of its last entry. */
  lemma {:induction false} CollectLastWins(es: History, i: nat)
    requires i < |es|
    requires forall j :: i < j < |es| ==> es[j].0 != es[i].0
    ensures Get(Collect(es), es[i].0) == Some(es[i].1)
    decreases |es|
  {
    if i < |es| - 1 {
      CollectLastWins(es[..|es| - 1], i);
    }
  }

  /** On strictly ascending dates the dict is the entry list itself. */
  lemma {:induction false} CollectAscending(es: History)
    requires Ascending(es)
    ensures Collect(es) == es
    decreases |es|
  {
    if |es| > 0 {
      var init := es[..|es| - 1];
      assert Ascending(init);
      CollectAscending(init);
      NotInAscending(init, es[|es| - 1].0);
      assert init + [es[|es| - 1]] == es;
    }
  }

  /** Every date of the dict is the date of some entry. */
  lemma {:induction false} CollectDates(es: History)
    ensures forall k :: 0 <= k < |Collect(es)| ==> exists i :: 0 <= i < |es| && es[i].0 == Collect(es)[k].0
    decreases |es|
  {
    if |es| > 0 {
      var init := es[..|es| - 1];
      var c := Collect(init);
      CollectDates(init);
      forall k | 0 <= k < |Collect(es)|
        ensures exists i :: 0 <= i < |es| && es[i].0 == Collect(es)[k].0
      {
        if k < |c| {
          var i :| 0 <= i < |init| && init[i].0 == c[k].0;
          assert es[i].0 == Collect(es)[k].0;
        } else {
          assert Collect(es)[k].0 == es[|es| - 1].0;
        }
      }
    } else {
      assert Collect(es) == [];
    }
  }

  lemma {:induction false} NotInAscending(h: History, date: Timestamp)
    requires forall i :: 0 <= i < |h| ==> h[i].0 < date
    ensures Get(h, date).None?
    decreases |h|
  {
    if |h| > 0 {
      NotInAscending(h[1..], date);
    }
  }

  /** One row of the geography file: `von_datum` (stripped, `%Y%m%d`), then
      latitude, longitude and height as floats, then the station name. */
  function HistoryRow(env: Env, row: map<string, string>): (r: Result<(Timestamp, Location)>)
    ensures r.Success? <==>
      && "von_datum" in row && env.strptime(Ymd, Strip(row["von_datum"])).Some?
      && "Geogr.Breite" in row && env.float(row["Geogr.Breite"]).Some?
      && "Geogr.Laenge" in row && env.float(row["Geogr.Laenge"]).Some?
      && "Stationshoehe" in row && env.float(row["Stationshoehe"]).Some?
      && "Stationsname" in row
    ensures r.Success? ==> "von_datum" in row && Some(r.value.0) == env.strptime(Ymd, Strip(row["von_datum"]))
    ensures r.Success? ==> "Stationsname" in row && r.value.1.name == row["Stationsname"]
    ensures r.Success? ==> "Geogr.Breite" in row && Some(r.value.1.lat) == env.float(row["Geogr.Breite"])
    ensures r.Success? ==> "Geogr.Laenge" in row && Some(r.value.1.lon) == env.float(row["Geogr.Laenge"])
    ensures r.Success? ==> "Stationshoehe" in row && Some(r.value.1.height) == env.float(row["Stationshoehe"])
  {
    var from :- Lookup(row, "von_datum");
    var date :- ParseTime(env, Ymd, Strip(from));
    var latText :- Lookup(row, "Geogr.Breite");
    var lat :- Float(env, latText);
    var lonText :- Lookup(row, "Geogr.Laenge");
    var lon :- Float(env, lonText);
    var heightText :- Lookup(row, "Stationshoehe");
    var height :- Float(env, heightText);
    var name :- Lookup(row, "Stationsname");
    Success((date, Location(lat, lon, height, name)))
  }

  /** The geography rows read one by one; the first bad row aborts. */
  function HistoryEntries(env: Env, rows: seq<map<string, string>>): (r: Result<History>)
    ensures r.Success? <==> forall i :: 0 <= i < |rows| ==> HistoryRow(env, rows[i]).Success?
    ensures r.Success? ==> |r.value| == |rows|
    ensures r.Success? ==> forall i :: 0 <= i < |rows| ==> r.value[i] == HistoryRow(env, rows[i]).value
  {
    if |rows| == 0 then Success([])
    else
      var e :- HistoryRow(env, rows[0]);
      assert forall i :: 1 <= i < |rows| ==> rows[i] == rows[1..][i - 1];
      var rest :- HistoryEntries(env, rows[1..]);
      Success([e] + rest)
  }

  /** `ObservationsParser.parse_lat_lon_history`: the geography rows as a
      dict from valid-from date to position; a later row with the same
      date overwrites the position in place.  The last `ensures` is the
      unfolding that `BuildHistoryDates`, `BuildHistoryLastWins` and
      `BuildHistoryAscending` start from; those lemmas state what the
      dict holds. */
  function BuildHistory(env: Env, rows: seq<map<string, string>>): (r: Result<History>)
    ensures r.Success? <==> forall i :: 0 <= i < |rows| ==> HistoryRow(env, rows[i]).Success?
    ensures r.Success? ==> DistinctDates(r.value)
    ensures r.Success? ==> r.value == Collect(HistoryEntries(env, rows).value)
  {
    var es :- HistoryEntries(env, rows);
    Success(Collect(es))
  }

  /** Every date of the history is the date of some row. */
  lemma BuildHistoryDates(env: Env, rows: seq<map<string, string>>)
    requires BuildHistory(env, rows).Success?
    ensures var h := BuildHistory(env, rows).value;
      forall k :: 0 <= k < |h| ==> exists i :: 0 <= i < |rows| && HistoryRow(env, rows[i]).value.0 == h[k].0
  {
    var es := HistoryEntries(env, rows).value;
    var h := BuildHistory(env, rows).value;
    assert h == Collect(es);
    CollectDates(es);
    forall k | 0 <= k < |h|
      ensures exists i :: 0 <= i < |rows| && HistoryRow(env, rows[i]).value.0 == h[k].0
    {
      var i :| 0 <= i < |es| && es[i].0 == h[k].0;
      assert HistoryRow(env, rows[i]).value == es[i];
    }
  }

  /** Each row's date maps to the position of the last row with that date. */
  lemma BuildHistoryLastWins(env: Env, rows: seq<map<string, string>>, i: nat)
    requires BuildHistory(env, rows).Success?
    requires LastOfDate(env, rows, i)
    ensures Get(BuildHistory(env, rows).value, HistoryRow(env, rows[i]).value.0) == Some(HistoryRow(env, rows[i]).value.1)
  {
    var es := HistoryEntries(env, rows).value;
    assert BuildHistory(env, rows).value == Collect(es);
    assert es[i] == HistoryRow(env, rows[i]).value;
    assert forall j :: i < j < |es| ==> es[j].0 != es[i].0 by {
      forall j | i < j < |es|
        ensures es[j].0 != es[i].0
      {
        assert es[j] == HistoryRow(env, rows[j]).value;
      }
    }
    CollectLastWins(es, i);
  }

  /** Rows with strictly ascending dates give the history in row order. */
  lemma BuildHistoryAscending(env: Env, rows: seq<map<string, string>>)
    requires BuildHistory(env, rows).Success?
    requires forall i, j :: 0 <= i < j < |rows| ==> HistoryRow(env, rows[i]).value.0 < HistoryRow(env, rows[j]).value.0
    ensures |BuildHistory(env, rows).value| == |rows|
    ensures forall i :: 0 <= i < |rows| ==> BuildHistory(env, rows).value[i] == HistoryRow(env, rows[i]).value
  {
    var es := HistoryEntries(env, rows).value;
    assert BuildHistory(env, rows).value == Collect(es);
    assert Ascending(es);
    CollectAscending(es);
  }

  /** Row `i` parses and no later row parses to the same date. */
  predicate LastOfDate(env: Env, rows: seq<map<string, string>>, i: nat) {
    && i < |rows|
    && (forall j :: i <= j < |rows| ==> HistoryRow(env, rows[j]).Success?)
    && forall j :: i < j < |rows| ==> HistoryRow(env, rows[j]).value.0 != HistoryRow(env, rows[i]).value.0
  }

  /** `_station_params`: walk the dict in order, keeping the last entry
      whose date is not after `t`, and stop at the first that is. */
  function StationParams(h: History, t: Timestamp): Option<Location> {
    Scan(h, t, None)
  }

  function Scan(h: History, t: Timestamp, info: Option<Location>): Option<Location> {
    if |h| == 0 || h[0].0 > t then info else Scan(h[1..], t, Some(h[0].1))
  }

  /** Entry `i` is the last one whose date is not after `t`, judging by
      its successor. */
  predicate InForce(h: History, t: Timestamp, i: int) {
    0 <= i < |h| && h[i].0 <= t && (i + 1 == |h| || h[i + 1].0 > t)
  }

  /** On ascending dates the scan finds the entry in force at `t`: the one
      with the greatest date not after `t` (a date equal to `t` counts),
      and nothing when `t` precedes every entry. */
  lemma {:induction false} StationParamsInForce(h: History, t: Timestamp)
    requires Ascending(h)
    ensures StationParams(h, t).None? <==> |h| == 0 || h[0].0 > t
    ensures forall i :: InForce(h, t, i) ==>
      StationParams(h, t) == Some(h[i].1)
  {
    ScanInForce(h, t, None);
    forall i | InForce(h, t, i)
      ensures StationParams(h, t) == Some(h[i].1)
    {
      assert Scan(h, t, None) == Some(h[i].1);
    }
  }

  lemma {:induction false} ScanInForce(h: History, t: Timestamp, info: Option<Location>)
    requires Ascending(h)
    ensures |h| == 0 || h[0].0 > t ==> Scan(h, t, info) == info
    ensures |h| > 0 && h[0].0 <= t ==> Scan(h, t, info).Some?
    ensures forall i :: InForce(h, t, i) ==>
      Scan(h, t, info) == Some(h[i].1)
    decreases |h|
  {
    if |h| > 0 && h[0].0 <= t {
      var tail := h[1..];
      assert Ascending(tail);
      assert Scan(h, t, info) == Scan(tail, t, Some(h[0].1));
      ScanInForce(tail, t, Some(h[0].1));
      forall i | InForce(h, t, i)
        ensures Scan(h, t, info) == Some(h[i].1)
      {
        if i > 0 {
          assert tail[i - 1] == h[i];
          if i + 1 < |h| {
            assert tail[i] == h[i + 1];
          }
          assert i - 1 + 1 == |tail| || tail[i - 1 + 1].0 > t;
        } else if |h| > 1 {
          assert tail[0] == h[1];
        }
      }
    }
  }

  /** A position change that starts exactly at `t` already applies at `t`. */
  lemma StationParamsBoundary(a: Location, b: Location, d1: Timestamp, d2: Timestamp)
    requires d1 < d2
    ensures StationParams([(d1, a), (d2, b)], d2) == Some(b)
    ensures StationParams([(d1, a), (d2, b)], d2 - 1) == Some(a)
    ensures StationParams([(d1, a), (d2, b)], d1 - 1) == None
  {
    var h := [(d1, a), (d2, b)];
    assert Ascending(h);
    StationParamsInForce(h, d2);
    assert InForce(h, d2, 1);
    StationParamsInForce(h, d2 - 1);
    assert InForce(h, d2 - 1, 0);
    StationParamsInForce(h, d1 - 1);
    assert h[0].0 > d1 - 1;
  }

  // ---------------------------------------------------------------------
  // Archive members

  const GeographyPrefix := "Metadaten_Geographie_"
  const ProductPrefix := "produkt_"

  /** `re.match(r'Metadaten_Geographie_(\d+)\.txt', name)`: the prefix, a
      digit run and `.txt`, anything after; the group is the digit run. */
  function GeographyStationId(name: string): (r: Option<string>)
    ensures r.Some? ==> |r.value| > 0 && AllDigits(r.value)
    ensures r.Some? ==> StartsWith(name, GeographyPrefix + r.value + ".txt")
  {
    var n := |GeographyPrefix|;
    if !StartsWith(name, GeographyPrefix) then None
    else
      var j := DigitRun(name, n);
      if j > n && StartsWith(name[j..], ".txt") then
        assert name[..n + (j - n) + 4] == GeographyPrefix + name[n..j] + ".txt";
        Some(name[n..j])
      else None
  }

  /** Every name of the matched shape yields its digits. */
  lemma GeographyStationIdOf(id: string, rest: string)
    requires |id| > 0 && AllDigits(id)
    ensures GeographyStationId(GeographyPrefix + id + ".txt" + rest) == Some(id)
  {
    var name := GeographyPrefix + id + ".txt" + rest;
    var n := |GeographyPrefix|;
    assert StartsWith(name, GeographyPrefix);
    DigitRunOver(name, n, |id|);
    assert name[n + |id|..][..4] == ".txt";
    assert name[n..n + |id|] == id;
  }

  /** A digit run of length `len` followed by a non-digit ends there. */
  lemma DigitRunOver(s: string, i: nat, len: nat)
    requires i + len < |s|
    requires forall k :: i <= k < i + len ==> IsDigit(s[k])
    requires !IsDigit(s[i + len])
    ensures DigitRun(s, i) == i + len
    decreases len
  {
    if len > 0 {
      DigitRunOver(s, i + 1, len - 1);
    }
  }

  /** The `_` positions from which `_(\d+)\.txt` matches. */
  predicate ProductIdAt(name: string, p: nat) {
    p < |name| && name[p] == '_' &&
    var j := DigitRun(name, p + 1);
    j > p + 1 && StartsWith(name[j..], ".txt")
  }

  /** The `_` positions the wind-gust pattern `produkt_.*_(\d+)\.txt` can
      use: after the prefix, with no newline in between (`.` does not
      match a newline). */
  predicate ProductIdCandidate(name: string, p: nat) {
    |ProductPrefix| <= p && StartsWith(name, ProductPrefix) && ProductIdAt(name, p) &&
    forall k :: |ProductPrefix| <= k < p ==> name[k] != '\n'
  }

  /** The digits after the `_` at `p`. */
  function ProductIdDigits(name: string, p: nat): string
    requires ProductIdAt(name, p)
  {
    name[p + 1..DigitRun(name, p + 1)]
  }

  /** Greedy `.*` tries the latest `_` first: scan candidates downwards. */
  function ScanProduct(name: string, p: nat): (r: Option<nat>)
    ensures r.Some? ==> r.value <= p && ProductIdCandidate(name, r.value)
    ensures r.Some? ==> forall q: nat :: r.value < q <= p ==> !ProductIdCandidate(name, q)
    ensures r.None? ==> forall q: nat :: q <= p ==> !ProductIdCandidate(name, q)
  {
    if ProductIdCandidate(name, p) then Some(p)
    else if p == 0 then None
    else ScanProduct(name, p - 1)
  }

  /** `re.match(r'produkt_.*_(\d+)\.txt', name)` of the wind-gust parser:
      the group comes from the last usable `_`. */
  function ProductStationId(name: string): (r: Option<string>)
    ensures r.None? <==> forall q: nat :: !ProductIdCandidate(name, q)
    ensures r.Some? ==> exists p: nat ::
      && ProductIdCandidate(name, p)
      && r.value == ProductIdDigits(name, p)
      && forall q: nat :: p < q ==> !ProductIdCandidate(name, q)
  {
    match ScanProduct(name, |name|)
    case None => None
    case Some(p) => Some(ProductIdDigits(name, p))
  }

  /** For a product name `produkt_<mid>_<id>.txt` the station id is `id`,
      however many underscores and digit groups `mid` holds. */
  lemma ProductStationIdOf(mid: string, id: string)
    requires '\n' !in mid
    requires |id| > 0 && AllDigits(id)
    ensures ProductStationId(ProductPrefix + mid + "_" + id + ".txt") == Some(id)
  {
    var name := ProductPrefix + mid + "_" + id + ".txt";
    var p := |ProductPrefix| + |mid|;
    assert name[p] == '_';
    DigitRunOver(name, p + 1, |id|);
    assert name[p + 1 + |id|..] == ".txt";
    assert ProductIdCandidate(name, p);
    forall q: nat | p < q
      ensures !ProductIdCandidate(name, q)
    {
      if q < |name| {
        assert name[q] != '_';
      }
    }
    assert name[p + 1..p + 1 + |id|] == id;
  }

  /** Which station-id pattern a parser applies to a member name. */
  function MemberStationId(v: Variant, name: string): Option<string> {
    if v == Gusts then ProductStationId(name) else GeographyStationId(name)
  }

  /** `parse_station_id`: the id from the first member name that matches. */
  function StationId(v: Variant, names: seq<string>): (r: Result<string>)
    ensures r.Success? <==> exists i :: 0 <= i < |names| && MemberStationId(v, names[i]).Some?
    ensures r.Success? ==> exists i ::
      && 0 <= i < |names|
      && MemberStationId(v, names[i]) == Some(r.value)
      && forall j :: 0 <= j < i ==> MemberStationId(v, names[j]).None?
  {
    match FirstSome(name => MemberStationId(v, name), names)
    case Some(id) => Success(id)
    case None => Failure(ValueError("Unable to parse station ID"))
  }

  /** The member names with the product prefix, in archive order. */
  function Products(names: seq<string>): (ps: seq<string>)
    ensures forall x :: x in ps <==> x in names && StartsWith(x, ProductPrefix)
    ensures |ps| <= |names|
  {
    if |names| == 0 then []
    else if StartsWith(names[0], ProductPrefix) then [names[0]] + Products(names[1..])
    else Products(names[1..])
  }

  /** `parse_records`' product file: there must be exactly one. */
  function ProductName(names: seq<string>): (r: Result<string>)
    ensures r.Success? <==> |Products(names)| == 1
    ensures r.Success? ==> r.value in names && StartsWith(r.value, ProductPrefix)
  {
    var ps := Products(names);
    if |ps| != 1 then Failure(AssertionError("Unexpected product count"))
    else
      assert ps[0] in ps;
      Success(ps[0])
  }

  // ---------------------------------------------------------------------
  // File name tests

  datatype ObservationType = Recent | Historical

  /** `parse_observation_type`: from the base name's ending. */
  function ParseObservationType(path: string): (r: Result<ObservationType>)
    ensures r == Success(Recent) <==> EndsWith(path, "_akt.zip")
    ensures r == Success(Historical) <==> EndsWith(path, "_hist.zip") && !EndsWith(path, "_akt.zip")
    ensures r.Failure? <==> !EndsWith(path, "_akt.zip") && !EndsWith(path, "_hist.zip")
  {
    var name := Basename(path);
    BasenameEndsWith(path, "_akt.zip");
    BasenameEndsWith(path, "_hist.zip");
    if EndsWith(name, "_akt.zip") then Success(Recent)
    else if EndsWith(name, "_hist.zip") then Success(Historical)
    else Failure(ValueError("Unable to determine observation type from path"))
  }

  /** The text the historical pattern matches for two date groups. */
  function HistName(start: string, end: string): string {
    "_" + start + "_" + end + "_hist.zip"
  }

  /** Every historical match ends in `hist.zip`. */
  lemma HistNameTail(start: string, end: string)
    ensures HistName(start, end) == ("_" + start + "_" + end + "_") + "hist.zip"
  {
  }

  /** The historical pattern anchored at the very end of `body`: its two
      date groups. */
  function HistSuffix(body: string): (r: Option<(string, string)>)
    ensures r.Some? ==> |r.value.0| == 8 && |r.value.1| == 8 && AllDigits(r.value.0) && AllDigits(r.value.1)
    ensures r.Some? ==> EndsWith(body, HistName(r.value.0, r.value.1))
  {
    var n := |body|;
    if n >= 27 && body[n - 27] == '_' && AllDigits(body[n - 26..n - 18]) && body[n - 18] == '_'
       && AllDigits(body[n - 17..n - 9]) && body[n - 9..] == "_hist.zip" then
      var start, end := body[n - 26..n - 18], body[n - 17..n - 9];
      assert body[n - 27..] == HistName(start, end);
      Some((start, end))
    else None
  }

  /** A suffix still ends the string once a newline is appended to both. */
  lemma EndsWithNewline(s: string, suffix: string)
    requires EndsWith(s, suffix)
    ensures EndsWith(s + "\n", suffix + "\n")
  {
    assert (s + "\n")[|s| - |suffix|..] == s[|s| - |suffix|..] + "\n";
  }

  /** A string ending in `a + b` ends in `b`. */
  lemma EndsWithTail(s: string, a: string, b: string)
    requires EndsWith(s, a + b)
    ensures EndsWith(s, b)
  {
    assert s[|s| - |b|..] == s[|s| - |a + b|..][|a|..];
  }

  /** `re.search(r'_(\d{8})_(\d{8})_hist\.zip$', path)`: the two date groups
      of a historical archive name, which must end the path (or precede a
      final newline, where `$` also matches). */
  function HistoricalRange(path: string): (r: Option<(string, string)>)
    ensures r.Some? ==> |r.value.0| == 8 && |r.value.1| == 8 && AllDigits(r.value.0) && AllDigits(r.value.1)
    ensures r.Some? ==> EndsWith(path, HistName(r.value.0, r.value.1)) ||
                        EndsWith(path, HistName(r.value.0, r.value.1) + "\n")
    ensures r.Some? ==> EndsWith(path, "hist.zip") || EndsWith(path, "hist.zip\n")
  {
    if |path| > 0 && path[|path| - 1] == '\n' then
      var body := path[..|path| - 1];
      var r := HistSuffix(body);
      if r.Some? then
        var x := "_" + r.value.0 + "_" + r.value.1 + "_";
        assert path == body + "\n";
        EndsWithNewline(body, HistName(r.value.0, r.value.1));
        HistNameTail(r.value.0, r.value.1);
        assert HistName(r.value.0, r.value.1) + "\n" == x + "hist.zip\n";
        EndsWithTail(path, x, "hist.zip\n");
        r
      else r
    else
      var r := HistSuffix(path);
      if r.Some? then
        HistNameTail(r.value.0, r.value.1);
        EndsWithTail(path, "_" + r.value.0 + "_" + r.value.1 + "_", "hist.zip");
        r
      else r
  }

  /** Every name ending in the historical pattern yields its two dates. */
  lemma HistoricalRangeOf(prefix: string, start: string, end: string)
    requires |start| == 8 && |end| == 8 && AllDigits(start) && AllDigits(end)
    ensures HistoricalRange(prefix + HistName(start, end)) == Some((start, end))
  {
    var path := prefix + HistName(start, end);
    var n := |path|;
    assert path[n - 26..n - 18] == start;
    assert path[n - 17..n - 9] == end;
    assert path[n - 9..] == "_hist.zip";
  }

  /** `ObservationsParser.should_skip`: a historical archive whose end date
      precedes MIN_DATE, or (with a MAX_DATE) whose start date follows it.
      The end date is read first; the start date only when MAX_DATE is
      set and the end date did not already decide. */
  function ShouldSkip(env: Env, s: Settings, path: string): (r: Result<bool>)
    ensures HistoricalRange(path).None? ==> r == Success(false)
    ensures r == Success(true) ==> HistoricalRange(path).Some?
    ensures r == Success(true) ==>
      var (start, end) := HistoricalRange(path).value;
      || (env.strptime(Ymd, end).Some? && env.strptime(Ymd, end).value < s.minDate)
      || (s.maxDate.Some? && env.strptime(Ymd, start).Some? && env.strptime(Ymd, start).value > s.maxDate.value)
    ensures r == Success(false) && HistoricalRange(path).Some? ==>
      var (start, end) := HistoricalRange(path).value;
      && env.strptime(Ymd, end).Some? && env.strptime(Ymd, end).value >= s.minDate
      && (s.maxDate.Some? ==> env.strptime(Ymd, start).Some? && env.strptime(Ymd, start).value <= s.maxDate.value)
    ensures HistoricalRange(path).Some? ==>
      var (start, end) := HistoricalRange(path).value;
      (r.Success? <==>
         && env.strptime(Ymd, end).Some?
         && (env.strptime(Ymd, end).value >= s.minDate && s.maxDate.Some? ==> env.strptime(Ymd, start).Some?))
  {
    match HistoricalRange(path)
    case None => Success(false)
    case Some((start, end)) =>
      var endDate :- ParseTime(env, Ymd, end);
      if endDate < s.minDate then Success(true)
      else if s.maxDate.Some? then
        var startDate :- ParseTime(env, Ymd, start);
        Success(startDate > s.maxDate.value)
      else Success(false)
  }

  /** A recent archive is never skipped. */
  lemma RecentNeverSkipped(env: Env, s: Settings, path: string)
    requires EndsWith(path, "_akt.zip")
    ensures ShouldSkip(env, s, path) == Success(false)
  {
    var n := |path|;
    assert path[n - 8] == '_' && path[n - 1] == 'p';
  }

  // ---------------------------------------------------------------------
  // Hourly reader

  /** A record of the product reader, before the archive-wide fields are
      added. */
  datatype ObsRow = ObsRow(
    source: string,
    lat: real,
    lon: real,
    height: real,
    stationName: string,
    timestamp: Timestamp,
    values: map<string, Option<real>>)

  /** Every record is labelled recent, whatever the archive. */
  function Source(filename: string): string {
    "Observations:Recent:" + filename
  }

  /** The timestamps of a record sequence, in order. */
  function Times(rs: seq<ObsRow>): (ts: seq<Timestamp>)
    ensures |ts| == |rs|
  {
    if |rs| == 0 then [] else [rs[0].timestamp] + Times(rs[1..])
  }

  /** The `MESS_DATUM` time of a product row, if it has a readable one. */
  function RowTime(env: Env, f: TimeFormat, row: map<string, string>): Option<Timestamp> {
    if "MESS_DATUM" in row then env.strptime(f, row["MESS_DATUM"]) else None
  }

  /** The rows the window keeps, in order: those with a readable time
      that, plus `shift`, is not skipped. */
  function KeptRows(env: Env, f: TimeFormat, s: Settings, rows: seq<map<string, string>>, shift: int)
    : (kept: seq<map<string, string>>)
    ensures |kept| <= |rows|
    ensures forall j :: 0 <= j < |kept| ==>
      RowTime(env, f, kept[j]).Some? && !SkipTimestamp(s, RowTime(env, f, kept[j]).value + shift)
  {
    if |rows| == 0 then []
    else
      var rest := KeptRows(env, f, s, rows[1..], shift);
      match RowTime(env, f, rows[0])
      case Some(t) => if SkipTimestamp(s, t + shift) then rest else [rows[0]] + rest
      case None => rest
  }

  /** When every row has a time inside the window, every row is kept. */
  lemma {:induction false} AllRowsKept(env: Env, s: Settings, rows: seq<map<string, string>>)
    requires forall i :: 0 <= i < |rows| ==>
      RowTime(env, YmdH, rows[i]).Some? && !SkipTimestamp(s, RowTime(env, YmdH, rows[i]).value)
    ensures KeptRows(env, YmdH, s, rows, 0) == rows
    decreases |rows|
  {
    if |rows| > 0 {
      assert forall i :: 1 <= i < |rows| ==> rows[i] == rows[1..][i - 1];
      AllRowsKept(env, s, rows[1..]);
    }
  }

  /** What one product row needs: a readable time and, when the window
      keeps it, a position in force at that time and readable elements. */
  predicate ValidProductRow(env: Env, s: Settings, d: Descriptor, history: History, row: map<string, string>) {
    && RowTime(env, YmdH, row).Some?
    && (!SkipTimestamp(s, RowTime(env, YmdH, row).value) ==>
          StationParams(history, RowTime(env, YmdH, row).value).Some? && ValidElements(env, row, d))
  }

  /** One row of `parse_reader`: None when the window skips it. */
  function ReaderRow(env: Env, s: Settings, d: Descriptor, filename: string, history: History,
                     row: map<string, string>) : (r: Result<Option<ObsRow>>)
    requires WellFormed(d)
    ensures r.Success? <==> ValidProductRow(env, s, d, history, row)
    ensures r.Success? ==> (r.value.None? <==> SkipTimestamp(s, RowTime(env, YmdH, row).value))
    ensures r.Success? && r.value.Some? ==>
      var rec := r.value.value;
      && rec.timestamp == RowTime(env, YmdH, row).value
      && rec.source == Source(filename)
      && StationParams(history, rec.timestamp) == Some(Location(rec.lat, rec.lon, rec.height, rec.stationName))
      && StationElements(env, row, d, rec.height) == Success(rec.values)
  {
    var text :- Lookup(row, "MESS_DATUM");
    var t :- ParseTime(env, YmdH, text);
    if SkipTimestamp(s, t) then Success(None)
    else match StationParams(history, t)
      case None => Failure(TypeError("cannot unpack non-iterable NoneType object"))
      case Some(loc) =>
        var values :- StationElements(env, row, d, loc.height);
        Success(Some(ObsRow(Source(filename), loc.lat, loc.lon, loc.height, loc.name, t, values)))
  }

  /** `ObservationsParser.parse_reader`: the records of the product rows
      `ReaderRow` keeps, in row order; a bad row anywhere aborts. */
  function ParseReader(env: Env, s: Settings, d: Descriptor, filename: string, history: History,
                       rows: seq<map<string, string>>) : (r: Result<seq<ObsRow>>)
    requires WellFormed(d)
    ensures r.Success? <==> forall i :: 0 <= i < |rows| ==> ValidProductRow(env, s, d, history, rows[i])
    ensures r.Success? ==> |r.value| == |KeptRows(env, YmdH, s, rows, 0)|
    ensures r.Success? ==> forall j :: 0 <= j < |r.value| ==>
      ReaderRow(env, s, d, filename, history, KeptRows(env, YmdH, s, rows, 0)[j]) == Success(Some(r.value[j]))
  {
    var f := row => ReaderRow(env, s, d, filename, history, row);
    var r := CollectSome(f, rows);
    if r.Failure? then r
    else
      ChosenAreKept(env, s, d, filename, history, rows);
      r
  }

  /** On readable rows, the rows `ReaderRow` keeps are the rows the window
      keeps. */
  lemma {:induction false} ChosenAreKept(env: Env, s: Settings, d: Descriptor, filename: string, history: History,
                                         rows: seq<map<string, string>>)
    requires WellFormed(d)
    requires forall i :: 0 <= i < |rows| ==> ReaderRow(env, s, d, filename, history, rows[i]).Success?
    ensures Chosen(row => ReaderRow(env, s, d, filename, history, row), rows) == KeptRows(env, YmdH, s, rows, 0)
    decreases |rows|
  {
    if |rows| > 0 {
      assert forall i :: 1 <= i < |rows| ==> rows[i] == rows[1..][i - 1];
      ChosenAreKept(env, s, d, filename, history, rows[1..]);
    }
  }
}
