/** The collaborators the parsers call but whose code is not part of this
    model: Python's `float()`, `strptime`, the unit converters, the barometric
    formula, the station id mappings and the database location lookup.  They
    are passed in as an `Env` of total functions, so every property proved
    holds whatever they compute. */
module External {
  import opened Wrappers

  /** An instant, in minutes since an hour-aligned UTC epoch. */
  type Timestamp = int

  /** `timestamp.minute`. */
  function MinuteOfHour(t: Timestamp): int {
    t % 60
  }

  /** The `strptime` formats the parsers use. */
  datatype TimeFormat =
    | Ymd         // '%Y%m%d'
    | YmdH        // '%Y%m%d%H'
    | YmdHM       // '%Y%m%d%H%M'
    | DmyHM       // '%d.%m.%y %H:%M'

  /** The unit converters a format table can name. */
  datatype Unit =
    | CelsiusToKelvin
    | EighthsToPercent
    | HpaToPa
    | KmhToMs
    | MinutesToSeconds
    | IntCast     // Python's built-in `int` applied to a float

  /** Station position and name, as one history entry or one database row. */
  datatype Location = Location(lat: real, lon: real, height: real, name: string)

  datatype Env = Env(
    float: string -> Option<real>,                     // None: ValueError
    strptime: (TimeFormat, string) -> Option<Timestamp>, // None: ValueError
    convert: (Unit, real) -> real,                     // units.py converters
    barometric: (real, real) -> real,                  // station pressure, height -> int(round(msl, -1))
    wmoToDwd: string -> string,
    dwdToWmo: string -> string,
    loadLocation: string -> Option<Location>)          // None: no row in the store

  /** `settings.MIN_DATE` and the optional `settings.MAX_DATE`. */
  datatype Settings = Settings(minDate: Timestamp, maxDate: Option<Timestamp>)

  /** Python's `float(s)`. */
  function Float(env: Env, s: string): (r: Result<real>)
    ensures r.Success? <==> env.float(s).Some?
    ensures r.Success? ==> r.value == env.float(s).value
  {
    match env.float(s)
    case Some(x) => Success(x)
    case None => Failure(ValueError("could not convert string to float"))
  }

  /** `datetime.datetime.strptime(s, format)`, read as UTC. */
  function ParseTime(env: Env, f: TimeFormat, s: string): (r: Result<Timestamp>)
    ensures r.Success? <==> env.strptime(f, s).Some?
    ensures r.Success? ==> r.value == env.strptime(f, s).value
  {
    match env.strptime(f, s)
    case Some(t) => Success(t)
    case None => Failure(ValueError("time data does not match format"))
  }

  /** Python's `int(x)` on a float: truncation toward zero. */
  function Trunc(x: real): (n: int)
    ensures x >= 0.0 ==> n as real <= x < n as real + 1.0
    ensures x < 0.0 ==> n as real - 1.0 < x <= n as real
  {
    if x >= 0.0 then x.Floor else -((-x).Floor)
  }

  /** Applies one converter of a format table. */
  function ApplyUnit(env: Env, u: Unit, x: real): real {
    if u == IntCast then Trunc(x) as real else env.convert(u, x)
  }

  /** Python truthiness of an optional number: None and 0 are false. */
  predicate Truthy(v: Option<real>) {
    v.Some? && v.value != 0.0
  }

  /** `ObservationsParser._skip_timestamp`: outside [MIN_DATE, MAX_DATE]. */
  predicate SkipTimestamp(s: Settings, t: Timestamp) {
    t < s.minDate || (s.maxDate.Some? && t > s.maxDate.value)
  }

  /** One value through a parser's `converters` table: the element's
      converter, if it has one, applied to a present value. */
  function Convert(env: Env, converters: map<string, Unit>, element: string, v: Option<real>): Option<real> {
    if v.Some? && element in converters then Some(ApplyUnit(env, converters[element], v.value)) else v
  }

  /** Converters never turn a missing value into a present one or back. */
  lemma ConvertKeepsPresence(env: Env, converters: map<string, Unit>, element: string, v: Option<real>)
    ensures Convert(env, converters, element, v).None? <==> v.None?
    ensures element !in converters ==> Convert(env, converters, element, v) == v
  {
  }
}
