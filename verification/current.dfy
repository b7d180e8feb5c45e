/** The current-observation parser: a semicolon-separated report of one
    station, whose first data row names the station, whose second row
    repeats the header in German, and whose remaining rows are one
    observation time each. */
module CurrentObs {
  import opened Wrappers
  import opened Text
  import opened External
  import opened Tables

  const DateColumn := "surface observations"
  const HourColumn := "Parameter description"

  /** `CurrentObservationsParser.ELEMENTS`: report column and record
      element, in table order. */
  function Elements(): (els: seq<(string, string)>)
    ensures |els| == 11
    ensures DistinctSeconds(els)
  {
    var els := [
      ("cloud_cover_total", "cloud_cover"),
      ("dew_point_temperature_at_2_meter_above_ground", "dew_point"),
      ("dry_bulb_temperature_at_2_meter_above_ground", "temperature"),
      ("horizontal_visibility", "visibility"),
      ("maximum_wind_speed_last_hour", "wind_gust_speed"),
      ("mean_wind_direction_during_last_10 min_at_10_meters_above_ground", "wind_direction"),
      ("mean_wind_speed_during last_10_min_at_10_meters_above_ground", "wind_speed"),
      ("precipitation_amount_last_hour", "precipitation"),
      ("pressure_reduced_to_mean_sea_level", "pressure_msl"),
      ("relative_humidity", "relative_humidity"),
      ("total_time_of_sunshine_during_last_hour", "sunshine")];
    SecondsDiffer(els);
    els
  }

  /** `CurrentObservationsParser.CONVERTERS`. */
  function Converters(): map<string, Unit> {
    map[
      "dew_point" := CelsiusToKelvin,
      "pressure_msl" := HpaToPa,
      "sunshine" := MinutesToSeconds,
      "temperature" := CelsiusToKelvin,
      "wind_speed" := KmhToMs,
      "wind_gust_speed" := KmhToMs]
  }

  /** `CurrentObservationsParser.IGNORED_VALUES`. */
  function IgnoredValues(): map<string, seq<string>> {
    map[
      "cloud_cover" := ["112", "113", "126"],
      "relative_humidity" := ["101"]]
  }

  /** A cell the report leaves empty: the `---` placeholder or one of the
      element's ignored codes, compared exactly. */
  predicate IsMissing(ignored: map<string, seq<string>>, element: string, cell: string) {
    cell == "---" || cell in CodesFor(ignored, element)
  }

  /** One cell of a report row: missing, or a number written with a
      decimal comma. */
  function ParseCell(env: Env, ignored: map<string, seq<string>>, element: string, cell: string)
    : Result<Option<real>>
  {
    if IsMissing(ignored, element, cell) then Success(None)
    else
      var x :- Float(env, ReplaceChar(cell, ',', '.'));
      Success(Some(x))
  }

  /** The cells of a row, column by column in table order; a missing column
      (KeyError) or an unreadable number (ValueError) aborts. */
  function Cells(env: Env, row: map<string, string>, els: seq<(string, string)>, ignored: map<string, seq<string>>)
    : (r: Result<seq<Option<real>>>)
    ensures r.Success? <==> forall k :: 0 <= k < |els| ==>
      els[k].0 in row && ParseCell(env, ignored, els[k].1, row[els[k].0]).Success?
    ensures r.Success? ==> |r.value| == |els|
    ensures r.Success? ==> forall k :: 0 <= k < |els| ==>
      r.value[k] == ParseCell(env, ignored, els[k].1, row[els[k].0]).value
  {
    if |els| == 0 then Success([])
    else
      var cell :- Lookup(row, els[0].0);
      var v :- ParseCell(env, ignored, els[0].1, cell);
      assert forall k :: 1 <= k < |els| ==> els[k] == els[1..][k - 1];
      var rest :- Cells(env, row, els[1..], ignored);
      Success([v] + rest)
  }

  /** The element values and timestamp of one report row. */
  datatype CurrentRow = CurrentRow(timestamp: Timestamp, values: map<string, Option<real>>)

  /** What `parse_row` needs to succeed with column table `els` and
      ignored codes `ignored`: every table column and both time columns
      present, every non-missing cell a number, and the date and hour
      forming a valid `%d.%m.%y %H:%M` time. */
  predicate ValidRow(env: Env, row: map<string, string>, els: seq<(string, string)>,
                     ignored: map<string, seq<string>>) {
    && (forall k :: 0 <= k < |els| ==>
          && els[k].0 in row
          && (IsMissing(ignored, els[k].1, row[els[k].0]) ||
              env.float(ReplaceChar(row[els[k].0], ',', '.')).Some?))
    && DateColumn in row && HourColumn in row
    && env.strptime(DmyHM, row[DateColumn] + " " + row[HourColumn]).Some?
  }

  /** The converted value of every element, keyed by element. */
  function RowValues(env: Env, els: seq<(string, string)>, converters: map<string, Unit>,
                     raw: seq<Option<real>>) : (m: map<string, Option<real>>)
    requires DistinctSeconds(els) && |raw| == |els|
    ensures m.Keys == Seconds(els)
    ensures forall k :: 0 <= k < |els| ==> m[els[k].1] == Convert(env, converters, els[k].1, raw[k])
  {
    map k | 0 <= k < |els| :: els[k].1 := Convert(env, converters, els[k].1, raw[k])
  }

  /** `CurrentObservationsParser.parse_row` followed by `convert_units`,
      for column table `els`, ignored codes `ignored` and unit table
      `converters`: the row's value of every element, None exactly for a
      `---` or ignored cell, otherwise the converted decimal-comma number;
      and the timestamp of its date and hour columns. */
  function ParseRowWith(env: Env, row: map<string, string>, els: seq<(string, string)>,
                        ignored: map<string, seq<string>>, converters: map<string, Unit>)
    : (r: Result<CurrentRow>)
    requires DistinctSeconds(els)
    ensures r.Success? <==> ValidRow(env, row, els, ignored)
    ensures r.Success? ==> r.value.values.Keys == Seconds(els)
    ensures r.Success? ==> forall k :: 0 <= k < |els| ==>
      && (r.value.values[els[k].1].None? <==> IsMissing(ignored, els[k].1, row[els[k].0]))
      && (r.value.values[els[k].1].Some? ==>
            r.value.values[els[k].1] ==
              Convert(env, converters, els[k].1, env.float(ReplaceChar(row[els[k].0], ',', '.'))))
    ensures r.Success? ==>
      r.value.timestamp == env.strptime(DmyHM, row[DateColumn] + " " + row[HourColumn]).value
  {
    var raw :- Cells(env, row, els, ignored);
    var date :- Lookup(row, DateColumn);
    var hour :- Lookup(row, HourColumn);
    var ts :- ParseTime(env, DmyHM, date + " " + hour);
    Success(CurrentRow(ts, RowValues(env, els, converters, raw)))
  }

  /** `parse_row` with the parser's own tables. */
  function ParseRow(env: Env, row: map<string, string>): Result<CurrentRow> {
    ParseRowWith(env, row, Elements(), IgnoredValues(), Converters())
  }

  /** The station position and name `parse` may be given by its caller. */
  datatype LocationArgs = LocationArgs(lat: Option<real>, lon: Option<real>, height: Option<real>, name: Option<string>)

  /** All four given: they are used; any one missing: all four come from
      the store's most recent row for the station, and no row is fatal. */
  function ResolveLocation(env: Env, given: LocationArgs, wmo: string): (r: Result<Location>)
    ensures given.lat.Some? && given.lon.Some? && given.height.Some? && given.name.Some? ==>
      r == Success(Location(given.lat.value, given.lon.value, given.height.value, given.name.value))
    ensures !(given.lat.Some? && given.lon.Some? && given.height.Some? && given.name.Some?) ==>
      (r.Success? <==> env.loadLocation(wmo).Some?) && (r.Success? ==> r.value == env.loadLocation(wmo).value)
  {
    if given.lat.Some? && given.lon.Some? && given.height.Some? && given.name.Some? then
      Success(Location(given.lat.value, given.lon.value, given.height.value, given.name.value))
    else
      match env.loadLocation(wmo)
      case Some(l) => Success(l)
      case None => Failure(ValueError("Unable to find location for WMO station"))
  }

  /** A current record; its `observation_type` is always 'current'. */
  datatype CurrentRecord = CurrentRecord(
    lat: real,
    lon: real,
    height: real,
    dwdStationId: string,
    wmoStationId: string,
    stationName: string,
    timestamp: Timestamp,
    values: map<string, Option<real>>)

  /** The records of the observation rows, in order; the first bad row
      aborts. */
  function ParseRows(env: Env, els: seq<(string, string)>, ignored: map<string, seq<string>>,
                     converters: map<string, Unit>, rows: seq<map<string, string>>, where: Location, wmo: string)
    : (r: Result<seq<CurrentRecord>>)
    requires DistinctSeconds(els)
    ensures r.Success? <==> forall i :: 0 <= i < |rows| ==> ParseRowWith(env, rows[i], els, ignored, converters).Success?
    ensures r.Success? ==> |r.value| == |rows|
    ensures r.Success? ==> forall i :: 0 <= i < |rows| ==>
      && r.value[i].wmoStationId == wmo
      && r.value[i].dwdStationId == env.wmoToDwd(wmo)
      && Location(r.value[i].lat, r.value[i].lon, r.value[i].height, r.value[i].stationName) == where
      && ParseRowWith(env, rows[i], els, ignored, converters)
           == Success(CurrentRow(r.value[i].timestamp, r.value[i].values))
  {
    var parsed :- MapAll(row => ParseRowWith(env, row, els, ignored, converters), rows);
    Success(seq(|parsed|, i requires 0 <= i < |parsed| =>
      CurrentRecord(where.lat, where.lon, where.height, env.wmoToDwd(wmo), wmo, where.name,
                    parsed[i].timestamp, parsed[i].values)))
  }

  /** `CurrentObservationsParser.parse`: the station id is the first row's
      date cell without trailing underscores; the second row is skipped
      whatever it holds; every later row becomes one record.  A report
      without those two rows fails: the generator's `next` raises. */
  function ParseCurrentWith(env: Env, els: seq<(string, string)>, ignored: map<string, seq<string>>,
                            converters: map<string, Unit>, rows: seq<map<string, string>>, given: LocationArgs)
    : (r: Result<seq<CurrentRecord>>)
    requires DistinctSeconds(els)
    ensures |rows| < 2 ==> r.Failure?
    ensures r.Success? <==>
      && |rows| >= 2
      && DateColumn in rows[0]
      && ResolveLocation(env, given, RStrip(rows[0][DateColumn], '_')).Success?
      && forall i :: 2 <= i < |rows| ==> ParseRowWith(env, rows[i], els, ignored, converters).Success?
    ensures r.Success? ==> |r.value| == |rows| - 2
    ensures r.Success? ==> DateColumn in rows[0]
    ensures r.Success? ==> ResolveLocation(env, given, RStrip(rows[0][DateColumn], '_')).Success?
    ensures r.Success? ==> forall i :: 0 <= i < |r.value| ==>
      && r.value[i].wmoStationId == RStrip(rows[0][DateColumn], '_')
      && r.value[i].dwdStationId == env.wmoToDwd(r.value[i].wmoStationId)
      && Location(r.value[i].lat, r.value[i].lon, r.value[i].height, r.value[i].stationName)
           == ResolveLocation(env, given, r.value[i].wmoStationId).value
      && ParseRowWith(env, rows[i + 2], els, ignored, converters)
           == Success(CurrentRow(r.value[i].timestamp, r.value[i].values))
  {
    if |rows| == 0 then Failure(RuntimeError("generator raised StopIteration"))
    else
      var first :- Lookup(rows[0], DateColumn);
      var wmo := RStrip(first, '_');
      var where :- ResolveLocation(env, given, wmo);
      if |rows| == 1 then Failure(RuntimeError("generator raised StopIteration"))
      else
        assert forall i :: 0 <= i < |rows| - 2 ==> rows[2..][i] == rows[i + 2];
        ParseRows(env, els, ignored, converters, rows[2..], where, wmo)
  }

  /** `parse` with the parser's own tables. */
  function ParseCurrent(env: Env, rows: seq<map<string, string>>, given: LocationArgs): Result<seq<CurrentRecord>> {
    ParseCurrentWith(env, Elements(), IgnoredValues(), Converters(), rows, given)
  }

  /** The second report row (the German header) has no influence on the
      result, whatever it holds. */
  lemma ParseCurrentIgnoresSecondRow(env: Env, els: seq<(string, string)>, ignored: map<string, seq<string>>,
                                     converters: map<string, Unit>, rows: seq<map<string, string>>,
                                     given: LocationArgs, h: map<string, string>)
    requires DistinctSeconds(els)
    requires |rows| >= 2
    ensures ParseCurrentWith(env, els, ignored, converters, rows[1 := h], given)
         == ParseCurrentWith(env, els, ignored, converters, rows, given)
  {
    var rows' := rows[1 := h];
    assert rows'[0] == rows[0] && |rows'| == |rows|;
    assert rows'[2..] == rows[2..];
  }
}
