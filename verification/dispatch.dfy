/** The format dispatcher: an ordered table of file-name patterns, each naming
    the parser class for files of that kind, and the class priorities the
    task queue uses. */
module Dispatch {
  import opened Wrappers
  import opened Text

  datatype ParserKind =
    | Mosmix
    | CurrentObservations
    | WindObservations
    | CloudCoverObservations
    | PressureObservations
    | PrecipitationObservations
    | SunshineObservations
    | DewPointObservations
    | TemperatureObservations
    | VisibilityObservations
    | WindGustsObservations

  /** The class constant `PRIORITY`: 10 on the base class, overridden by the
      forecast and current-observation parsers. */
  function Priority(k: ParserKind): int {
    match k
    case Mosmix => 20
    case CurrentObservations => 30
    case _ => 10
  }

  /** The three shapes of pattern in the table, all applied with `re.match`
      (anchored at the start of the name only):
      - `Exact(lit)`: the literal followed by `$`;
      - `WordsThen(n, lit)`: `\w{n}`, then the literal, then `$`;
      - `Prefix(lit)`: the literal alone, so any continuation is accepted. */
  datatype Pattern =
    | Exact(lit: string)
    | WordsThen(count: nat, lit: string)
    | Prefix(lit: string)

  /** Python's `$`: the end of the name, or just before a final newline. */
  predicate EndAnchor(name: string, i: nat) {
    i == |name| || (i + 1 == |name| && name[i] == '\n')
  }

  predicate Matches(p: Pattern, name: string) {
    match p
    case Exact(lit) => StartsWith(name, lit) && EndAnchor(name, |lit|)
    case WordsThen(n, lit) =>
      && n <= |name|
      && (forall i :: 0 <= i < n ==> IsWordChar(name[i]))
      && StartsWith(name[n..], lit)
      && EndAnchor(name, n + |lit|)
    case Prefix(lit) => StartsWith(name, lit)
  }

  /** Number of entries in the `parsers` table of `get_parser`. */
  const TableSize: nat := 11

  /** Entry `j` of the `parsers` table of `get_parser`, in its insertion
      order. */
  function Entry(j: nat): (Pattern, ParserKind)
    requires j < TableSize
  {
    if j == 0 then (Exact("MOSMIX_S_LATEST_240.kmz"), Mosmix)
    else if j == 1 then (WordsThen(5, "-BEOB.csv"), CurrentObservations)
    else if j == 2 then (Prefix("stundenwerte_FF_"), WindObservations)
    else if j == 3 then (Prefix("stundenwerte_N_"), CloudCoverObservations)
    else if j == 4 then (Prefix("stundenwerte_P0_"), PressureObservations)
    else if j == 5 then (Prefix("stundenwerte_RR_"), PrecipitationObservations)
    else if j == 6 then (Prefix("stundenwerte_SD_"), SunshineObservations)
    else if j == 7 then (Prefix("stundenwerte_TD_"), DewPointObservations)
    else if j == 8 then (Prefix("stundenwerte_TU_"), TemperatureObservations)
    else if j == 9 then (Prefix("stundenwerte_VV_"), VisibilityObservations)
    else (Prefix("10minutenwerte_extrema_wind_"), WindGustsObservations)
  }

  /** The parser of the first entry at or after `from` that matches. */
  function FirstMatch(name: string, from: nat): Option<ParserKind>
    requires from <= TableSize
    decreases TableSize - from
  {
    if from == TableSize then None
    else if Matches(Entry(from).0, name) then Some(Entry(from).1)
    else FirstMatch(name, from + 1)
  }

  /** The first index in `[from, n)` that `hit` accepts. */
  function FirstHit(hit: nat -> bool, n: nat, from: nat): (r: Option<nat>)
    requires from <= n
    ensures r.Some? ==> from <= r.value < n && hit(r.value)
    ensures r.Some? ==> forall j :: from <= j < r.value ==> !hit(j)
    ensures r.None? ==> forall j :: from <= j < n ==> !hit(j)
    decreases n - from
  {
    if from == n then None
    else if hit(from) then Some(from)
    else FirstHit(hit, n, from + 1)
  }

  /** Whether entry `j` of the table matches the name. */
  function HitAt(name: string): nat -> bool {
    (j: nat) => j < TableSize && Matches(Entry(j).0, name)
  }

  /** The parser of a table index. */
  function KindAt(i: Option<nat>): Option<ParserKind> {
    if i.Some? && i.value < TableSize then Some(Entry(i.value).1) else None
  }

  /** The table scan is the first-hit search over the entries. */
  lemma {:induction false} FirstMatchIsFirstHit(name: string, from: nat)
    requires from <= TableSize
    ensures FirstMatch(name, from) == KindAt(FirstHit(HitAt(name), TableSize, from))
    decreases TableSize - from
  {
    if from < TableSize {
      FirstMatchIsFirstHit(name, from + 1);
    }
  }

  /** The scan from `from` finds the earliest matching entry, if any. */
  lemma FirstMatchSpec(name: string, from: nat)
    requires from <= TableSize
    ensures FirstMatch(name, from).None? <==>
              forall j :: from <= j < TableSize ==> !Matches(Entry(j).0, name)
    ensures FirstMatch(name, from).Some? ==>
              exists i :: from <= i < TableSize && Matches(Entry(i).0, name)
                          && FirstMatch(name, from).value == Entry(i).1
                          && forall j :: from <= j < i ==> !Matches(Entry(j).0, name)
  {
    FirstMatchIsFirstHit(name, from);
    var hit := HitAt(name);
    var h := FirstHit(hit, TableSize, from);
    assert forall j :: from <= j < TableSize ==> (hit(j) <==> Matches(Entry(j).0, name));
    if h.Some? {
      var i := h.value;
      assert from <= i < TableSize && Matches(Entry(i).0, name);
    }
  }

  /** `get_parser`: the parser of the first table entry whose pattern matches
      the start of the name; when none does the function falls off its end
      and yields `None`. */
  function GetParser(name: string): (r: Option<ParserKind>)
    ensures r.None? <==> forall j :: 0 <= j < TableSize ==> !Matches(Entry(j).0, name)
    ensures r.Some? ==> exists i :: 0 <= i < TableSize && Matches(Entry(i).0, name)
                                   && r.value == Entry(i).1
                                   && forall j :: 0 <= j < i ==> !Matches(Entry(j).0, name)
  {
    FirstMatchSpec(name, 0);
    FirstMatch(name, 0)
  }

  /** Each parser class appears once in the table, so a match on the entry of
      a class means that class is chosen unless an earlier entry matches. */
  lemma GetParserPicksEarliest(name: string, i: nat)
    requires i < TableSize && Matches(Entry(i).0, name)
    requires forall j :: 0 <= j < i ==> !Matches(Entry(j).0, name)
    ensures GetParser(name) == Some(Entry(i).1)
  {
    var r := GetParser(name);
    var k :| 0 <= k < TableSize && Matches(Entry(k).0, name) && r.value == Entry(k).1
             && forall j :: 0 <= j < k ==> !Matches(Entry(j).0, name);
    assert k == i;
  }

  /** A name that differs from a literal within both lengths does not start
      with it. */
  lemma DiffersAt(name: string, lit: string, k: nat)
    requires k < |lit| && k < |name| && name[k] != lit[k]
    ensures !StartsWith(name, lit)
  {
  }

  /** The forecast archive is recognised by its full name. */
  lemma ForecastNameDispatch()
    ensures GetParser("MOSMIX_S_LATEST_240.kmz") == Some(Mosmix)
  {
    var name := "MOSMIX_S_LATEST_240.kmz";
    assert Matches(Entry(0).0, name) by { assert name[..23] == "MOSMIX_S_LATEST_240.kmz"; }
    assert FirstMatch(name, 0) == Some(Mosmix);
  }

  /** Python's `$` also accepts a single trailing newline. */
  lemma ForecastNameWithNewline()
    ensures GetParser("MOSMIX_S_LATEST_240.kmz\n") == Some(Mosmix)
  {
    var name := "MOSMIX_S_LATEST_240.kmz\n";
    assert Matches(Entry(0).0, name) by { assert name[..23] == "MOSMIX_S_LATEST_240.kmz"; }
    assert FirstMatch(name, 0) == Some(Mosmix);
  }

  /** The forecast pattern is a whole-name test, unlike the prefixes below it. */
  lemma ForecastNameIsNotPrefix()
    ensures GetParser("MOSMIX_S_LATEST_240.kmz.1") == None
  {
    var name := "MOSMIX_S_LATEST_240.kmz.1";
    assert FirstMatch(name, 11) == None;
    DiffersAt(name, Entry(10).0.lit, 0);
    assert FirstMatch(name, 10) == None;
    DiffersAt(name, Entry(9).0.lit, 0);
    assert FirstMatch(name, 9) == None;
    DiffersAt(name, Entry(8).0.lit, 0);
    assert FirstMatch(name, 8) == None;
    DiffersAt(name, Entry(7).0.lit, 0);
    assert FirstMatch(name, 7) == None;
    DiffersAt(name, Entry(6).0.lit, 0);
    assert FirstMatch(name, 6) == None;
    DiffersAt(name, Entry(5).0.lit, 0);
    assert FirstMatch(name, 5) == None;
    DiffersAt(name, Entry(4).0.lit, 0);
    assert FirstMatch(name, 4) == None;
    DiffersAt(name, Entry(3).0.lit, 0);
    assert FirstMatch(name, 3) == None;
    DiffersAt(name, Entry(2).0.lit, 0);
    assert FirstMatch(name, 2) == None;
    assert !Matches(Entry(1).0, name) by { assert name[5] != '-'; }
    assert FirstMatch(name, 1) == None;
    assert !Matches(Entry(0).0, name) by { assert !EndAnchor(name, 23); }
    assert FirstMatch(name, 0) == None;
  }

  /** A current report: five word characters, then `-BEOB.csv`. */
  lemma CurrentNameDispatch()
    ensures GetParser("10381-BEOB.csv") == Some(CurrentObservations)
  {
    var name := "10381-BEOB.csv";
    assert Matches(Entry(1).0, name) by { assert name[5..] == "-BEOB.csv"; }
    assert FirstMatch(name, 1) == Some(CurrentObservations);
    DiffersAt(name, Entry(0).0.lit, 0);
    assert FirstMatch(name, 0) == Some(CurrentObservations);
  }

  /** `\w{5}` asks for exactly five word characters before the hyphen. */
  lemma CurrentNameNeedsFiveWordChars()
    ensures GetParser("1038-BEOB.csv") == None
  {
    var name := "1038-BEOB.csv";
    assert FirstMatch(name, 11) == None;
    DiffersAt(name, Entry(10).0.lit, 2);
    assert FirstMatch(name, 10) == None;
    DiffersAt(name, Entry(9).0.lit, 0);
    assert FirstMatch(name, 9) == None;
    DiffersAt(name, Entry(8).0.lit, 0);
    assert FirstMatch(name, 8) == None;
    DiffersAt(name, Entry(7).0.lit, 0);
    assert FirstMatch(name, 7) == None;
    DiffersAt(name, Entry(6).0.lit, 0);
    assert FirstMatch(name, 6) == None;
    DiffersAt(name, Entry(5).0.lit, 0);
    assert FirstMatch(name, 5) == None;
    DiffersAt(name, Entry(4).0.lit, 0);
    assert FirstMatch(name, 4) == None;
    DiffersAt(name, Entry(3).0.lit, 0);
    assert FirstMatch(name, 3) == None;
    DiffersAt(name, Entry(2).0.lit, 0);
    assert FirstMatch(name, 2) == None;
    assert !Matches(Entry(1).0, name) by { assert !IsWordChar(name[4]); }
    assert FirstMatch(name, 1) == None;
    DiffersAt(name, Entry(0).0.lit, 0);
    assert FirstMatch(name, 0) == None;
  }

  /** Hourly archives are recognised by prefix, whatever follows. */
  lemma PressureNameDispatch(name: string)
    requires StartsWith(name, "stundenwerte_P0_")
    ensures GetParser(name) == Some(PressureObservations)
  {
    assert name[..16] == "stundenwerte_P0_";
    assert FirstMatch(name, 4) == Some(PressureObservations);
    DiffersAt(name, Entry(3).0.lit, 13);
    assert FirstMatch(name, 3) == Some(PressureObservations);
    DiffersAt(name, Entry(2).0.lit, 13);
    assert FirstMatch(name, 2) == Some(PressureObservations);
    assert !Matches(Entry(1).0, name) by { assert name[5] != '-'; }
    assert FirstMatch(name, 1) == Some(PressureObservations);
    DiffersAt(name, Entry(0).0.lit, 0);
    assert FirstMatch(name, 0) == Some(PressureObservations);
  }

  /** The ten-minute gust archives come last in the table. */
  lemma WindGustsNameDispatch(name: string)
    requires StartsWith(name, "10minutenwerte_extrema_wind_")
    ensures GetParser(name) == Some(WindGustsObservations)
  {
    assert name[..28] == "10minutenwerte_extrema_wind_";
    assert FirstMatch(name, 10) == Some(WindGustsObservations);
    DiffersAt(name, Entry(9).0.lit, 0);
    assert FirstMatch(name, 9) == Some(WindGustsObservations);
    DiffersAt(name, Entry(8).0.lit, 0);
    assert FirstMatch(name, 8) == Some(WindGustsObservations);
    DiffersAt(name, Entry(7).0.lit, 0);
    assert FirstMatch(name, 7) == Some(WindGustsObservations);
    DiffersAt(name, Entry(6).0.lit, 0);
    assert FirstMatch(name, 6) == Some(WindGustsObservations);
    DiffersAt(name, Entry(5).0.lit, 0);
    assert FirstMatch(name, 5) == Some(WindGustsObservations);
    DiffersAt(name, Entry(4).0.lit, 0);
    assert FirstMatch(name, 4) == Some(WindGustsObservations);
    DiffersAt(name, Entry(3).0.lit, 0);
    assert FirstMatch(name, 3) == Some(WindGustsObservations);
    DiffersAt(name, Entry(2).0.lit, 0);
    assert FirstMatch(name, 2) == Some(WindGustsObservations);
    assert !Matches(Entry(1).0, name) by { assert name[5] != '-'; }
    assert FirstMatch(name, 1) == Some(WindGustsObservations);
    DiffersAt(name, Entry(0).0.lit, 0);
    assert FirstMatch(name, 0) == Some(WindGustsObservations);
  }

  /** A name no pattern accepts yields `None`; the callers then fail. */
  lemma UnknownNameNotDispatched(name: string)
    requires StartsWith(name, "stundenwerte_XX_")
    ensures GetParser(name) == None
  {
    assert name[..16] == "stundenwerte_XX_";
    assert FirstMatch(name, 11) == None;
    DiffersAt(name, Entry(10).0.lit, 0);
    assert FirstMatch(name, 10) == None;
    DiffersAt(name, Entry(9).0.lit, 13);
    assert FirstMatch(name, 9) == None;
    DiffersAt(name, Entry(8).0.lit, 13);
    assert FirstMatch(name, 8) == None;
    DiffersAt(name, Entry(7).0.lit, 13);
    assert FirstMatch(name, 7) == None;
    DiffersAt(name, Entry(6).0.lit, 13);
    assert FirstMatch(name, 6) == None;
    DiffersAt(name, Entry(5).0.lit, 13);
    assert FirstMatch(name, 5) == None;
    DiffersAt(name, Entry(4).0.lit, 13);
    assert FirstMatch(name, 4) == None;
    DiffersAt(name, Entry(3).0.lit, 13);
    assert FirstMatch(name, 3) == None;
    DiffersAt(name, Entry(2).0.lit, 13);
    assert FirstMatch(name, 2) == None;
    assert !Matches(Entry(1).0, name) by { assert name[5] != '-'; }
    assert FirstMatch(name, 1) == None;
    DiffersAt(name, Entry(0).0.lit, 0);
    assert FirstMatch(name, 0) == None;
  }
}
