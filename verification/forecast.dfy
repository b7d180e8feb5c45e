/** The forecast parser: one placemark per station, each forecast element a
    whitespace-separated series aligned with the document's time steps,
    expanded into one record per (station, time step) and then sanitised. */
module Forecast {
  import opened Wrappers
  import opened Text
  import opened External
  import opened Tables

  /** `MOSMIXParser.ELEMENTS`: forecast element name and record column, in
      table order. */
  function Elements(): (els: seq<(string, string)>)
    ensures |els| == 10
    ensures DistinctSeconds(els)
    ensures els[0].1 == WindDirection && els[5].1 == Precipitation
  {
    var els := [
      ("DD", "wind_direction"),
      ("FF", "wind_speed"),
      ("FX1", "wind_gust_speed"),
      ("N", "cloud_cover"),
      ("PPPP", "pressure_msl"),
      ("RR1c", "precipitation"),
      ("SunD1", "sunshine"),
      ("Td", "dew_point"),
      ("TTT", "temperature"),
      ("VV", "visibility")];
    SecondsDiffer(els);
    els
  }

  const Precipitation := "precipitation"
  const WindDirection := "wind_direction"

  /** One station placemark of the forecast document: its `name`,
      `description` and `coordinates` texts and the value text of each
      forecast element present. */
  datatype Placemark = Placemark(
    name: string,
    description: string,
    coordinates: string,
    forecasts: map<string, string>)

  /** A forecast record; its `observation_type` is always 'forecast'. */
  datatype ForecastRecord = ForecastRecord(
    source: string,
    lat: real,
    lon: real,
    height: real,
    dwdStationId: string,
    wmoStationId: string,
    stationName: string,
    timestamp: Timestamp,
    values: map<string, Option<real>>)

  /** One series token: its first csv field is `-` for a missing value,
      otherwise a float. */
  function DecodeCell(env: Env, tok: string): Result<Option<real>> {
    var field := FirstField(tok, ',');
    if field == "-" then Success(None)
    else
      var x :- Float(env, field);
      Success(Some(x))
  }

  /** Decodes a series token by token; the first bad token aborts. */
  function DecodeSeries(env: Env, toks: seq<string>): (r: Result<seq<Option<real>>>)
    ensures r.Success? <==> forall i :: 0 <= i < |toks| ==> DecodeCell(env, toks[i]).Success?
    ensures r.Success? ==> |r.value| == |toks|
    ensures r.Success? ==> forall i :: 0 <= i < |toks| ==> r.value[i] == DecodeCell(env, toks[i]).value
  {
    if |toks| == 0 then Success([])
    else
      match DecodeCell(env, toks[0])
      case Failure(e) => Failure(e)
      case Success(v) =>
        match DecodeSeries(env, toks[1..])
        case Failure(e) =>
          assert forall i :: 1 <= i < |toks| ==> toks[i] == toks[1..][i - 1];
          Failure(e)
        case Success(vs) =>
          assert forall i :: 1 <= i < |toks| ==> toks[i] == toks[1..][i - 1];
          Success([v] + vs)
  }

  /** The series of forecast element `el`, checked against the number of
      time steps. */
  function ElementSeries(p: Placemark, n: nat, env: Env, el: string): Result<seq<Option<real>>> {
    var text :- if el in p.forecasts then Success(p.forecasts[el])
                else Failure(AttributeError("'NoneType' object has no attribute 'strip'"));
    var vs :- DecodeSeries(env, Words(text));
    if |vs| != n then Failure(AssertionError("series length differs from timestamps"))
    else Success(vs)
  }

  /** The element-by-element loop of `parse_station`: each element is
      decoded and checked before the next is read. */
  function SeriesOf(p: Placemark, n: nat, env: Env, els: seq<(string, string)>)
    : (r: Result<seq<seq<Option<real>>>>)
    ensures r.Success? <==> forall j :: 0 <= j < |els| ==> ElementSeries(p, n, env, els[j].0).Success?
    ensures r.Success? ==> |r.value| == |els|
    ensures r.Success? ==> forall j :: 0 <= j < |els| ==> r.value[j] == ElementSeries(p, n, env, els[j].0).value
  {
    if |els| == 0 then Success([])
    else
      var vs :- ElementSeries(p, n, env, els[0].0);
      assert forall j :: 1 <= j < |els| ==> els[j] == els[1..][j - 1];
      var rest :- SeriesOf(p, n, env, els[1..]);
      Success([vs] + rest)
  }

  /** The record values of time step `i`: the column of entry `k` holds the
      step's entry of series `k`. */
  function StepValues(els: seq<(string, string)>, series: seq<seq<Option<real>>>, i: nat)
    : (m: map<string, Option<real>>)
    requires DistinctSeconds(els) && |series| == |els|
    requires forall k :: 0 <= k < |els| ==> i < |series[k]|
    ensures m.Keys == Seconds(els)
    ensures forall k :: 0 <= k < |els| ==> m[els[k].1] == series[k][i]
  {
    map k | 0 <= k < |els| :: els[k].1 := series[k][i]
  }

  /** Everything `parse_station` needs to succeed: three coordinates, every
      element present with exactly one decodable token per time step, and
      the coordinates readable as floats. */
  predicate ValidPlacemark(els: seq<(string, string)>, p: Placemark, n: nat, env: Env) {
    var parts := Split(p.coordinates, ',');
    && |parts| == 3
    && (forall k :: 0 <= k < |els| ==> ValidSeries(p, n, env, els[k].0))
    && env.float(parts[0]).Some? && env.float(parts[1]).Some? && env.float(parts[2]).Some?
  }

  /** Element `el` is present and has exactly `n` decodable tokens. */
  predicate ValidSeries(p: Placemark, n: nat, env: Env, el: string) {
    && el in p.forecasts
    && |Words(p.forecasts[el])| == n
    && forall i :: 0 <= i < n ==> DecodeCell(env, Words(p.forecasts[el])[i]).Success?
  }

  lemma ElementSeriesSucceedsIff(p: Placemark, n: nat, env: Env, el: string)
    ensures ElementSeries(p, n, env, el).Success? <==> ValidSeries(p, n, env, el)
    ensures ElementSeries(p, n, env, el).Success? ==>
      ElementSeries(p, n, env, el).value == DecodeSeries(env, Words(p.forecasts[el])).value
  {
  }

  /** `MOSMIXParser.parse_station` over the element table `els`: one record
      per time step carrying the station fields, the time step and the
      step's decoded value of every element. */
  function ParseStation(els: seq<(string, string)>, p: Placemark, ts: seq<Timestamp>, source: string, env: Env)
    : (r: Result<seq<ForecastRecord>>)
    requires DistinctSeconds(els)
    ensures r.Success? <==> ValidPlacemark(els, p, |ts|, env)
    ensures r.Success? ==> |r.value| == |ts|
    ensures r.Success? ==> forall i :: 0 <= i < |ts| ==>
      && r.value[i].timestamp == ts[i]
      && r.value[i].wmoStationId == p.name
      && r.value[i].dwdStationId == env.wmoToDwd(p.name)
      && r.value[i].stationName == p.description
      && r.value[i].source == source
      && r.value[i].values.Keys == Seconds(els)
    ensures r.Success? ==> |Split(p.coordinates, ',')| == 3 && forall i :: 0 <= i < |ts| ==>
      && Float(env, Split(p.coordinates, ',')[0]) == Success(r.value[i].lon)
      && Float(env, Split(p.coordinates, ',')[1]) == Success(r.value[i].lat)
      && Float(env, Split(p.coordinates, ',')[2]) == Success(r.value[i].height)
    ensures r.Success? ==> forall i, k :: 0 <= i < |ts| && 0 <= k < |els| ==>
      els[k].1 in r.value[i].values &&
      Success(r.value[i].values[els[k].1]) == DecodeCell(env, Words(p.forecasts[els[k].0])[i])
  {
    var dwd := env.wmoToDwd(p.name);
    var parts := Split(p.coordinates, ',');
    forall k | 0 <= k < |els| {
      ElementSeriesSucceedsIff(p, |ts|, env, els[k].0);
    }
    if |parts| != 3 then Failure(ValueError("not enough values to unpack"))
    else
      var series :- SeriesOf(p, |ts|, env, els);
      var lat :- Float(env, parts[1]);
      var lon :- Float(env, parts[0]);
      var height :- Float(env, parts[2]);
      Success(StationRecords(els, series, ts, ForecastRecord(source, lat, lon, height, dwd, p.name, p.description, 0, map[])))
  }

  /** One record per time step: the station fields of `station`, the time
      step, and the step's entry of every series. */
  function StationRecords(els: seq<(string, string)>, series: seq<seq<Option<real>>>, ts: seq<Timestamp>,
                          station: ForecastRecord) : (rs: seq<ForecastRecord>)
    requires DistinctSeconds(els) && |series| == |els|
    requires forall k :: 0 <= k < |els| ==> |series[k]| == |ts|
    ensures |rs| == |ts|
    ensures forall i :: 0 <= i < |ts| ==>
      && rs[i] == station.(timestamp := ts[i], values := rs[i].values)
      && rs[i].values.Keys == Seconds(els)
    ensures forall i, k :: 0 <= i < |ts| && 0 <= k < |els| ==>
      els[k].1 in rs[i].values && rs[i].values[els[k].1] == series[k][i]
  {
    seq(|ts|, i requires 0 <= i < |ts| => station.(timestamp := ts[i], values := StepValues(els, series, i)))
  }

  /** A single element whose series length differs from the time steps
      makes the whole station fail. */
  lemma MismatchedSeriesFails(els: seq<(string, string)>, p: Placemark, ts: seq<Timestamp>,
                              source: string, env: Env, k: nat)
    requires DistinctSeconds(els)
    requires k < |els| && els[k].0 in p.forecasts
    requires |Words(p.forecasts[els[k].0])| != |ts|
    ensures ParseStation(els, p, ts, source, env).Failure?
  {
    assert !ValidSeries(p, |ts|, env, els[k].0);
  }

  /** One step of `sanitize_records`: a negative precipitation (a truthy
      value below zero) becomes None; a wind direction above 360 loses 360
      once.  Every other field is passed through. */
  function Sanitize(r: ForecastRecord): (s: ForecastRecord)
    requires Precipitation in r.values && WindDirection in r.values
    ensures s.values.Keys == r.values.Keys
    ensures s == r.(values := s.values)
    ensures s.values[Precipitation] ==
      (if r.values[Precipitation].Some? && r.values[Precipitation].value < 0.0 then None
       else r.values[Precipitation])
    ensures s.values[WindDirection] ==
      (if r.values[WindDirection].Some? && r.values[WindDirection].value > 360.0
       then Some(r.values[WindDirection].value - 360.0)
       else r.values[WindDirection])
    ensures forall c :: c in r.values && c != Precipitation && c != WindDirection ==>
      s.values[c] == r.values[c]
  {
    var p := r.values[Precipitation];
    var v1 := if Truthy(p) && p.value < 0.0 then r.values[Precipitation := None] else r.values;
    var d := v1[WindDirection];
    var v2 := if Truthy(d) && d.value > 360.0 then v1[WindDirection := Some(d.value - 360.0)] else v1;
    r.(values := v2)
  }

  /** `sanitize_records`: one output record per input, in order. */
  function SanitizeRecords(rs: seq<ForecastRecord>): (out: seq<ForecastRecord>)
    requires forall i :: 0 <= i < |rs| ==> Precipitation in rs[i].values && WindDirection in rs[i].values
    ensures |out| == |rs|
    ensures forall i :: 0 <= i < |rs| ==> out[i] == Sanitize(rs[i])
  {
    seq(|rs|, i requires 0 <= i < |rs| => Sanitize(rs[i]))
  }

  /** After sanitising no precipitation is negative, and a wind direction
      up to 720 ends up at most 360; one above 720 still exceeds 360, since
      the correction is applied once. */
  lemma SanitizeBounds(r: ForecastRecord)
    requires Precipitation in r.values && WindDirection in r.values
    ensures var s := Sanitize(r);
      && (s.values[Precipitation].Some? ==> s.values[Precipitation].value >= 0.0)
      && (r.values[WindDirection].Some? && r.values[WindDirection].value <= 720.0 ==>
            s.values[WindDirection].value <= 360.0)
      && (r.values[WindDirection].Some? && r.values[WindDirection].value > 720.0 ==>
            s.values[WindDirection].value > 360.0)
  {
  }

  /** The boundary cases: 370 becomes 10, 360 stays, -0.1 mm is dropped and
      0 mm is kept. */
  lemma SanitizeExamples(r: ForecastRecord)
    requires Precipitation in r.values && WindDirection in r.values
    ensures r.values[WindDirection] == Some(370.0) ==> Sanitize(r).values[WindDirection] == Some(10.0)
    ensures r.values[WindDirection] == Some(360.0) ==> Sanitize(r).values[WindDirection] == Some(360.0)
    ensures r.values[Precipitation] == Some(-0.1) ==> Sanitize(r).values[Precipitation] == None
    ensures r.values[Precipitation] == Some(0.0) ==> Sanitize(r).values[Precipitation] == Some(0.0)
  {
  }

  /** `MOSMIXParser.parse` after the document is read: the sanitised
      records of every station, station by station, each in time-step
      order.  The first failing station aborts the whole parse. */
  function ParseForecast(stations: seq<Placemark>, ts: seq<Timestamp>, source: string, env: Env)
    : (r: Result<seq<ForecastRecord>>)
    ensures r.Success? ==> |r.value| == |stations| * |ts|
    ensures r.Success? <==> forall s :: 0 <= s < |stations| ==> ValidPlacemark(Elements(), stations[s], |ts|, env)
  {
    ConcatMap(p => SanitizedStation(p, ts, source, env), stations, |ts|)
  }

  /** Record `i` of station `s` sits at position `k = s * |ts| + i` of the
      forecast: it is that station's sanitised record for time step `i`. */
  lemma ParseForecastAt(stations: seq<Placemark>, ts: seq<Timestamp>, source: string, env: Env,
                        s: nat, i: nat, k: nat)
    requires ParseForecast(stations, ts, source, env).Success?
    requires s < |stations| && i < |ts| && k == s * |ts| + i
    ensures SanitizedStation(stations[s], ts, source, env).Success?
    ensures k < |ParseForecast(stations, ts, source, env).value|
    ensures ParseForecast(stations, ts, source, env).value[k] == SanitizedStation(stations[s], ts, source, env).value[i]
  {
    var f := p => SanitizedStation(p, ts, source, env);
    assert ParseForecast(stations, ts, source, env) == ConcatMap(f, stations, |ts|);
    assert forall j :: 0 <= j < |stations| ==> f(stations[j]) == SanitizedStation(stations[j], ts, source, env);
    ConcatMapAt(f, stations, |ts|, s, i, k);
  }

  /** The sanitised records of one station under the forecast element
      table. */
  function SanitizedStation(p: Placemark, ts: seq<Timestamp>, source: string, env: Env)
    : (r: Result<seq<ForecastRecord>>)
    ensures r.Success? <==> ValidPlacemark(Elements(), p, |ts|, env)
    ensures r.Success? ==> |r.value| == |ts|
    ensures r.Success? ==> forall i :: 0 <= i < |ts| ==>
      && Precipitation in ParseStation(Elements(), p, ts, source, env).value[i].values
      && WindDirection in ParseStation(Elements(), p, ts, source, env).value[i].values
      && r.value[i] == Sanitize(ParseStation(Elements(), p, ts, source, env).value[i])
  {
    var els := Elements();
    var first :- ParseStation(els, p, ts, source, env);
    assert els[0].1 in Seconds(els) && els[5].1 in Seconds(els);
    Success(SanitizeRecords(first))
  }
}
