/** The ten-minute wind gust reader: ten-minute extremes are gathered per
    hour and each full hour yields one record carrying the strongest gust
    of that hour. */
module WindGusts {
  import opened Wrappers
  import opened External
  import opened Observations

  /** A ten-minute sample kept for the hour: its direction and its truthy
      speed. */
  datatype Sample = Sample(direction: Option<real>, speed: real)

  /** Python's `max(samples, key=speed)`: a later sample replaces the
      current maximum only when strictly greater. */
  function FirstMax(h: seq<Sample>, best: nat, i: nat): (m: nat)
    requires best < i <= |h|
    requires forall k :: 0 <= k < i ==> h[k].speed <= h[best].speed
    requires forall k :: 0 <= k < best ==> h[k].speed < h[best].speed
    ensures m < |h|
    ensures forall k :: 0 <= k < |h| ==> h[k].speed <= h[m].speed
    ensures forall k :: 0 <= k < m ==> h[k].speed < h[m].speed
    decreases |h| - i
  {
    if i == |h| then best
    else if h[i].speed > h[best].speed then FirstMax(h, i, i + 1)
    else FirstMax(h, best, i + 1)
  }

  /** The index of the first sample with the greatest speed. */
  function MaxIndex(h: seq<Sample>): (m: nat)
    requires |h| > 0
    ensures m < |h|
    ensures forall k :: 0 <= k < |h| ==> h[k].speed <= h[m].speed
    ensures forall k :: 0 <= k < m ==> h[k].speed < h[m].speed
  {
    FirstMax(h, 0, 1)
  }

  /** The shape every gust record has: the reader's source label, exactly
      the two gust elements, and a speed that is truthy when present. */
  predicate GustShaped(rec: ObsRow, filename: string) {
    && rec.source == Source(filename)
    && rec.values.Keys == {GustDirection, GustSpeed}
    && (rec.values[GustSpeed].Some? ==> rec.values[GustSpeed].value != 0.0)
  }

  /** `WindGustsObservationsParser._make_record`: the position in force at
      `t` (a missing one fails to unpack) and the direction and speed of
      the hour's strongest sample, both None for an hour without one. */
  function MakeRecord(history: History, filename: string, t: Timestamp, hour: seq<Sample>)
    : (r: Result<ObsRow>)
    requires forall k :: 0 <= k < |hour| ==> hour[k].speed != 0.0
    ensures r.Success? <==> StationParams(history, t).Some?
    ensures r.Success? ==> GustShaped(r.value, filename) && r.value.timestamp == t
    ensures r.Success? ==>
      StationParams(history, t) == Some(Location(r.value.lat, r.value.lon, r.value.height, r.value.stationName))
    ensures r.Success? ==> (r.value.values[GustSpeed].None? <==> |hour| == 0)
    ensures r.Success? && |hour| == 0 ==> r.value.values[GustDirection].None?
    ensures r.Success? && |hour| > 0 ==>
      && r.value.values[GustSpeed] == Some(hour[MaxIndex(hour)].speed)
      && r.value.values[GustDirection] == hour[MaxIndex(hour)].direction
  {
    match StationParams(history, t)
    case None => Failure(TypeError("cannot unpack non-iterable NoneType object"))
    case Some(loc) =>
      var values :=
        if |hour| == 0 then map[GustDirection := None, GustSpeed := None]
        else
          var m := MaxIndex(hour);
          map[GustDirection := hour[m].direction, GustSpeed := Some(hour[m].speed)];
      Success(ObsRow(Source(filename), loc.lat, loc.lon, loc.height, loc.name, t, values))
  }

  /** What one row contributes to the loop: its time, whether its hour
      (the time plus one hour) lies inside the window, and, for a kept
      row with a truthy speed, its sample. */
  datatype Reading = Reading(t: Timestamp, kept: bool, sample: Option<Sample>)

  /** A descriptor the gust reader can run on. */
  predicate GustDescriptor(d: Descriptor) {
    WellFormed(d) && d.variant == Gusts
  }

  /** The row-local part of one loop iteration: the time, the window test
      and, for a kept row, `parse_elements` and the truthiness test on
      the speed. */
  function ReadRow(env: Env, s: Settings, d: Descriptor, row: map<string, string>) : (r: Result<Reading>)
    requires GustDescriptor(d)
    ensures r.Success? <==>
      && RowTime(env, YmdHM, row).Some?
      && (!SkipTimestamp(s, RowTime(env, YmdHM, row).value + 60) ==> ValidElements(env, row, d))
    ensures r.Success? ==> RowTime(env, YmdHM, row) == Some(r.value.t)
    ensures r.Success? ==> (r.value.kept <==> !SkipTimestamp(s, r.value.t + 60))
    ensures r.Success? && r.value.sample.Some? ==> r.value.kept && r.value.sample.value.speed != 0.0
    ensures r.Success? && r.value.kept ==>
      && ParseElements(env, row, d).Success?
      && (r.value.sample.Some? <==> Truthy(ParseElements(env, row, d).value[GustSpeed]))
      && (r.value.sample.Some? ==>
            r.value.sample.value == Sample(ParseElements(env, row, d).value[GustDirection],
                                           ParseElements(env, row, d).value[GustSpeed].value))
  {
    var text :- Lookup(row, "MESS_DATUM");
    var t :- ParseTime(env, YmdHM, text);
    if SkipTimestamp(s, t + 60) then Success(Reading(t, false, None))
    else
      var values :- ParseElements(env, row, d);
      var speed := values[GustSpeed];
      Success(Reading(t, true, if Truthy(speed) then Some(Sample(values[GustDirection], speed.value)) else None))
  }

  /** The loop state of `parse_reader`: the samples of the running hour,
      the records so far and the time of the last row read (skipped or
      not). */
  datatype GustState = GustState(hour: seq<Sample>, out: seq<ObsRow>, last: Option<Timestamp>)

  predicate TruthySamples(h: seq<Sample>) {
    forall k :: 0 <= k < |h| ==> h[k].speed != 0.0
  }

  /** A reading is well-formed: only kept rows carry samples, and samples
      have truthy speeds. */
  predicate ValidReading(g: Reading) {
    g.sample.Some? ==> g.kept && g.sample.value.speed != 0.0
  }

  /** The sample a reading adds to the running hour: none, or one. */
  function SampleOf(g: Reading): (ss: seq<Sample>)
    ensures |ss| <= 1 && (|ss| == 1 <==> g.sample.Some?)
    ensures ValidReading(g) ==> TruthySamples(ss)
    ensures g.sample.Some? ==> ss[0] == g.sample.value
  {
    if g.sample.Some? then [g.sample.value] else []
  }

  /** A kept reading at minute 0 closes its hour. */
  predicate Closes(g: Reading) {
    g.kept && MinuteOfHour(g.t) == 0
  }

  /** The rest of one loop iteration: a kept row adds its sample, and a
      kept row at minute 0 closes the hour with the record of the samples
      gathered, its own included. */
  function Advance(history: History, filename: string, st: GustState, g: Reading) : (r: Result<GustState>)
    requires TruthySamples(st.hour) && ValidReading(g)
    ensures r.Success? ==> r.value.last == Some(g.t) && TruthySamples(r.value.hour)
    ensures r.Success? ==> |st.out| <= |r.value.out| && r.value.out[..|st.out|] == st.out
    ensures !Closes(g) ==> r.Success? && r.value.out == st.out && r.value.hour == st.hour + SampleOf(g)
    ensures !g.kept ==> r.Success? && r.value.hour == st.hour
    ensures Closes(g) ==>
      && (r.Success? <==> MakeRecord(history, filename, g.t, st.hour + SampleOf(g)).Success?)
      && (r.Success? ==>
            && r.value.hour == []
            && r.value.out == st.out + [MakeRecord(history, filename, g.t, st.hour + SampleOf(g)).value])
    ensures r.Success? ==>
      if Closes(g) then
        && |r.value.out| == |st.out| + 1
        && r.value.out[|st.out|].timestamp == g.t
        && GustShaped(r.value.out[|st.out|], filename)
      else r.value.out == st.out
  {
    if !g.kept then
      assert st.hour + SampleOf(g) == st.hour;
      Success(st.(last := Some(g.t)))
    else
      var hour := st.hour + SampleOf(g);
      if MinuteOfHour(g.t) == 0 then
        var rec :- MakeRecord(history, filename, g.t, hour);
        assert (st.out + [rec])[..|st.out|] == st.out;
        Success(GustState([], st.out + [rec], Some(g.t)))
      else Success(GustState(hour, st.out, Some(g.t)))
  }

  /** The times of the readings that close an hour inside the window. */
  function Marks(gs: seq<Result<Reading>>): seq<Timestamp> {
    if |gs| == 0 then []
    else
      (if gs[0].Success? && Closes(gs[0].value) then [gs[0].value.t] else [])
        + Marks(gs[1..])
  }

  predicate ValidReadings(gs: seq<Result<Reading>>) {
    forall i :: 0 <= i < |gs| && gs[i].Success? ==> ValidReading(gs[i].value)
  }

  /** The loop over the readings, stopping at the first failure of a row
      or of a record; the last time is the last row's, kept or not. */
  function Fold(history: History, filename: string, st: GustState, gs: seq<Result<Reading>>)
    : (r: Result<GustState>)
    requires TruthySamples(st.hour) && ValidReadings(gs)
    ensures r.Success? ==> forall i :: 0 <= i < |gs| ==> gs[i].Success?
    ensures r.Success? ==> r.value.last == (if |gs| == 0 then st.last else Some(gs[|gs| - 1].value.t))
    ensures r.Success? ==> TruthySamples(r.value.hour)
    decreases |gs|
  {
    if |gs| == 0 then Success(st)
    else
      var g :- gs[0];
      var st1 :- Advance(history, filename, st, g);
      assert forall i :: 1 <= i < |gs| ==> gs[i] == gs[1..][i - 1];
      Fold(history, filename, st1, gs[1..])
  }

  /** The loop yields one hour record per hour-closing reading, at that
      reading's time and in row order, after the records it started with. */
  lemma {:induction false} FoldTimes(history: History, filename: string, st: GustState, gs: seq<Result<Reading>>)
    requires TruthySamples(st.hour) && ValidReadings(gs)
    requires Fold(history, filename, st, gs).Success?
    ensures Times(Fold(history, filename, st, gs).value.out) == Times(st.out) + Marks(gs)
    decreases |gs|
  {
    if |gs| == 0 {
      assert Times(st.out) + [] == Times(st.out);
    } else {
      var g := gs[0].value;
      var st1 := Advance(history, filename, st, g).value;
      assert ValidReadings(gs[1..]) by {
        assert forall i :: 1 <= i < |gs| ==> gs[i] == gs[1..][i - 1];
      }
      assert Fold(history, filename, st, gs) == Fold(history, filename, st1, gs[1..]);
      FoldTimes(history, filename, st1, gs[1..]);
      var head := if Closes(g) then [g.t] else [];
      assert Marks(gs) == head + Marks(gs[1..]);
      assert Times(st1.out) == Times(st.out) + head by {
        if Closes(g) {
          PrefixAndLast(st.out, st1.out);
          TimesAppend(st.out, [st1.out[|st.out|]]);
        }
      }
      Associate(Times(st.out), head, Marks(gs[1..]));
    }
  }

  /** The loop only appends: the records it started with stay in front. */
  lemma {:induction false} FoldKeepsPrefix(history: History, filename: string, st: GustState, gs: seq<Result<Reading>>)
    requires TruthySamples(st.hour) && ValidReadings(gs)
    requires Fold(history, filename, st, gs).Success?
    ensures var out := Fold(history, filename, st, gs).value.out;
      |st.out| <= |out| && out[..|st.out|] == st.out
    decreases |gs|
  {
    if |gs| > 0 {
      var st1 := Advance(history, filename, st, gs[0].value).value;
      assert ValidReadings(gs[1..]) by {
        assert forall i :: 1 <= i < |gs| ==> gs[i] == gs[1..][i - 1];
      }
      assert Fold(history, filename, st, gs) == Fold(history, filename, st1, gs[1..]);
      FoldKeepsPrefix(history, filename, st1, gs[1..]);
      PrefixOfPrefix(st.out, st1.out, Fold(history, filename, st1, gs[1..]).value.out);
    }
  }

  /** Every record the loop appends has the gust record shape. */
  lemma {:induction false} FoldAppends(history: History, filename: string, st: GustState, gs: seq<Result<Reading>>)
    requires TruthySamples(st.hour) && ValidReadings(gs)
    requires Fold(history, filename, st, gs).Success?
    ensures var out := Fold(history, filename, st, gs).value.out;
      forall j :: |st.out| <= j < |out| ==> GustShaped(out[j], filename)
    decreases |gs|
  {
    if |gs| > 0 {
      var st1 := Advance(history, filename, st, gs[0].value).value;
      assert ValidReadings(gs[1..]) by {
        assert forall i :: 1 <= i < |gs| ==> gs[i] == gs[1..][i - 1];
      }
      assert Fold(history, filename, st, gs) == Fold(history, filename, st1, gs[1..]);
      FoldAppends(history, filename, st1, gs[1..]);
      FoldKeepsPrefix(history, filename, st1, gs[1..]);
      var out := Fold(history, filename, st1, gs[1..]).value.out;
      forall j | |st.out| <= j < |out|
        ensures GustShaped(out[j], filename)
      {
        if j < |st1.out| {
          assert out[j] == out[..|st1.out|][j];
        }
      }
    }
  }

  lemma PrefixOfPrefix<T>(a: seq<T>, b: seq<T>, c: seq<T>)
    requires |a| <= |b| && b[..|a|] == a
    requires |b| <= |c| && c[..|b|] == b
    ensures c[..|a|] == a
  {
    assert c[..|a|] == c[..|b|][..|a|];
  }

  // ---------------------------------------------------------------------
  // The hours of a file, described without the loop: the readings are cut
  // after each hour-closing reading, and each piece gives one record.

  predicate ValidReadingSeq(rs: seq<Reading>) {
    forall i :: 0 <= i < |rs| ==> ValidReading(rs[i])
  }

  /** The readings of successfully read rows. */
  function Values(gs: seq<Result<Reading>>): (rs: seq<Reading>)
    requires forall i :: 0 <= i < |gs| ==> gs[i].Success?
    ensures |rs| == |gs|
    ensures forall i :: 0 <= i < |gs| ==> rs[i] == gs[i].value
    ensures ValidReadings(gs) ==> ValidReadingSeq(rs)
  {
    seq(|gs|, i requires 0 <= i < |gs| => gs[i].value)
  }

  /** The samples of a run of readings, in order. */
  function SamplesOf(rs: seq<Reading>): (ss: seq<Sample>)
    ensures ValidReadingSeq(rs) ==> TruthySamples(ss)
    decreases |rs|
  {
    if |rs| == 0 then [] else SampleOf(rs[0]) + SamplesOf(rs[1..])
  }

  /** The index of the first hour-closing reading. */
  function FirstClosing(rs: seq<Reading>): (c: Option<nat>)
    ensures c.Some? ==> c.value < |rs| && Closes(rs[c.value])
    ensures c.Some? ==> forall i :: 0 <= i < c.value ==> !Closes(rs[i])
    ensures c.None? ==> forall i :: 0 <= i < |rs| ==> !Closes(rs[i])
    decreases |rs|
  {
    if |rs| == 0 then None
    else if Closes(rs[0]) then Some(0)
    else match FirstClosing(rs[1..])
      case None => None
      case Some(c) => Some(c + 1)
  }

  /** The hour records of a run of readings: each hour-closing reading
      gives the record of the samples since the previous one (the first
      hour also takes the samples `p` gathered before the run), up to and
      including its own. */
  function HourRecords(history: History, filename: string, p: seq<Sample>, rs: seq<Reading>)
    : (r: Result<seq<ObsRow>>)
    requires TruthySamples(p) && ValidReadingSeq(rs)
    ensures r.Success? ==> forall j :: 0 <= j < |r.value| ==> GustShaped(r.value[j], filename)
    ensures FirstClosing(rs).None? ==> r == Success([])
    ensures FirstClosing(rs).Some? && r.Success? ==>
      && |r.value| > 0
      && r.value[0].timestamp == rs[FirstClosing(rs).value].t
    decreases |rs|
  {
    match FirstClosing(rs)
    case None => Success([])
    case Some(c) =>
      assert ValidReadingSeq(rs[..c + 1]);
      assert ValidReadingSeq(rs[c + 1..]);
      var rec :- MakeRecord(history, filename, rs[c].t, p + SamplesOf(rs[..c + 1]));
      var rest :- HourRecords(history, filename, [], rs[c + 1..]);
      Success([rec] + rest)
  }

  /** The samples gathered after the last hour-closing reading (with `p`
      in front when no reading closes an hour). */
  function Leftover(p: seq<Sample>, rs: seq<Reading>): (ss: seq<Sample>)
    requires TruthySamples(p)
    ensures ValidReadingSeq(rs) ==> TruthySamples(ss)
    ensures FirstClosing(rs).None? ==> ss == p + SamplesOf(rs)
    decreases |rs|
  {
    match FirstClosing(rs)
    case None => p + SamplesOf(rs)
    case Some(c) =>
      assert ValidReadingSeq(rs) ==> ValidReadingSeq(rs[c + 1..]);
      Leftover([], rs[c + 1..])
  }

  /** A reading that does not close an hour only moves its sample into
      the running hour. */
  lemma HourRecordsStep(history: History, filename: string, p: seq<Sample>, rs: seq<Reading>)
    requires TruthySamples(p) && ValidReadingSeq(rs)
    requires |rs| > 0 && !Closes(rs[0])
    ensures TruthySamples(p + SampleOf(rs[0])) && ValidReadingSeq(rs[1..])
    ensures HourRecords(history, filename, p, rs) == HourRecords(history, filename, p + SampleOf(rs[0]), rs[1..])
    ensures Leftover(p, rs) == Leftover(p + SampleOf(rs[0]), rs[1..])
  {
    var q := p + SampleOf(rs[0]);
    assert ValidReadingSeq(rs[1..]);
    assert SamplesOf(rs) == SampleOf(rs[0]) + SamplesOf(rs[1..]);
    match FirstClosing(rs[1..])
    case None =>
      assert FirstClosing(rs).None?;
      Associate(p, SampleOf(rs[0]), SamplesOf(rs[1..]));
    case Some(c) =>
      assert FirstClosing(rs) == Some(c + 1);
      var head := rs[..c + 2];
      assert head[0] == rs[0] && head[1..] == rs[1..][..c + 1];
      assert SamplesOf(head) == SampleOf(rs[0]) + SamplesOf(rs[1..][..c + 1]);
      Associate(p, SampleOf(rs[0]), SamplesOf(rs[1..][..c + 1]));
      assert rs[c + 2..] == rs[1..][c + 1..];
  }

  /** A reading that closes an hour ends the first piece. */
  lemma HourRecordsClose(history: History, filename: string, p: seq<Sample>, rs: seq<Reading>)
    requires TruthySamples(p) && ValidReadingSeq(rs)
    requires |rs| > 0 && Closes(rs[0])
    ensures TruthySamples(p + SampleOf(rs[0])) && ValidReadingSeq(rs[1..])
    ensures HourRecords(history, filename, p, rs).Success? <==>
      && MakeRecord(history, filename, rs[0].t, p + SampleOf(rs[0])).Success?
      && HourRecords(history, filename, [], rs[1..]).Success?
    ensures HourRecords(history, filename, p, rs).Success? ==>
      HourRecords(history, filename, p, rs).value ==
        [MakeRecord(history, filename, rs[0].t, p + SampleOf(rs[0])).value]
          + HourRecords(history, filename, [], rs[1..]).value
    ensures Leftover(p, rs) == Leftover([], rs[1..])
  {
    assert FirstClosing(rs) == Some(0);
    assert ValidReadingSeq(rs[1..]);
    assert rs[..1] == [rs[0]];
    assert SamplesOf([rs[0]]) == SampleOf(rs[0]) + SamplesOf([]);
    assert p + SamplesOf(rs[..1]) == p + SampleOf(rs[0]);
  }

  /** The loop computes the hour records: it fails exactly when one of
      them does, and otherwise appends them and keeps the leftover samples
      as its running hour. */
  lemma {:induction false} FoldIsHourRecords(history: History, filename: string, st: GustState,
                                             gs: seq<Result<Reading>>)
    requires TruthySamples(st.hour) && ValidReadings(gs)
    requires forall i :: 0 <= i < |gs| ==> gs[i].Success?
    ensures ValidReadingSeq(Values(gs))
    ensures Fold(history, filename, st, gs).Success? <==>
            HourRecords(history, filename, st.hour, Values(gs)).Success?
    ensures Fold(history, filename, st, gs).Success? ==>
      && Fold(history, filename, st, gs).value.out
           == st.out + HourRecords(history, filename, st.hour, Values(gs)).value
      && Fold(history, filename, st, gs).value.hour == Leftover(st.hour, Values(gs))
    decreases |gs|
  {
    var rs := Values(gs);
    assert ValidReadingSeq(rs);
    if |gs| == 0 {
      assert st.out + [] == st.out;
      assert st.hour + [] == st.hour;
    } else {
      var g := rs[0];
      assert ValidReadings(gs[1..]) by {
        assert forall i :: 1 <= i < |gs| ==> gs[i] == gs[1..][i - 1];
      }
      assert Values(gs[1..]) == rs[1..];
      var a := Advance(history, filename, st, g);
      if Closes(g) {
        HourRecordsClose(history, filename, st.hour, rs);
        if a.Success? {
          var st1 := a.value;
          assert Fold(history, filename, st, gs) == Fold(history, filename, st1, gs[1..]);
          FoldIsHourRecords(history, filename, st1, gs[1..]);
          var rec := MakeRecord(history, filename, g.t, st.hour + SampleOf(g)).value;
          var rest := HourRecords(history, filename, [], rs[1..]);
          if rest.Success? {
            Associate(st.out, [rec], rest.value);
          }
        }
      } else {
        HourRecordsStep(history, filename, st.hour, rs);
        var st1 := a.value;
        assert Fold(history, filename, st, gs) == Fold(history, filename, st1, gs[1..]);
        FoldIsHourRecords(history, filename, st1, gs[1..]);
      }
    }
  }

  /** The readings of the rows, one per row. */
  function ReadAll(env: Env, s: Settings, d: Descriptor, rows: seq<map<string, string>>)
    : (gs: seq<Result<Reading>>)
    requires GustDescriptor(d)
    ensures |gs| == |rows| && ValidReadings(gs)
    ensures forall i :: 0 <= i < |rows| ==> gs[i] == ReadRow(env, s, d, rows[i])
  {
    seq(|rows|, i requires 0 <= i < |rows| => ReadRow(env, s, d, rows[i]))
  }

  /** The times of the rows that close an hour inside the window. */
  function HourMarks(env: Env, s: Settings, rows: seq<map<string, string>>): (ts: seq<Timestamp>)
    ensures forall j :: 0 <= j < |ts| ==> MinuteOfHour(ts[j]) == 0 && !SkipTimestamp(s, ts[j] + 60)
  {
    if |rows| == 0 then []
    else
      var rest := HourMarks(env, s, rows[1..]);
      match RowTime(env, YmdHM, rows[0])
      case Some(t) => if !SkipTimestamp(s, t + 60) && MinuteOfHour(t) == 0 then [t] + rest else rest
      case None => rest
  }

  /** On readable rows the closing readings are the closing rows. */
  lemma {:induction false} MarksOfRows(env: Env, s: Settings, d: Descriptor, rows: seq<map<string, string>>)
    requires GustDescriptor(d)
    requires forall i :: 0 <= i < |rows| ==> ReadRow(env, s, d, rows[i]).Success?
    ensures Marks(ReadAll(env, s, d, rows)) == HourMarks(env, s, rows)
    decreases |rows|
  {
    if |rows| > 0 {
      assert forall i :: 1 <= i < |rows| ==> rows[i] == rows[1..][i - 1];
      assert ReadAll(env, s, d, rows)[1..] == ReadAll(env, s, d, rows[1..]);
      MarksOfRows(env, s, d, rows[1..]);
    }
  }

  /** The time of the record a historical file's last row adds: ten
      minutes after a row at minute 50, none otherwise. */
  function EndMark(last: Timestamp): (ts: seq<Timestamp>)
    ensures |ts| <= 1
    ensures |ts| == 1 <==> MinuteOfHour(last) == 50
    ensures |ts| == 1 ==> ts[0] == last + 10 && MinuteOfHour(ts[0]) == 0
  {
    if MinuteOfHour(last) == 50 then [last + 10] else []
  }

  /** `out` followed by the record `_make_record` builds for `hour` at `t`. */
  function AppendRecord(history: History, filename: string, out: seq<ObsRow>, t: Timestamp, hour: seq<Sample>)
    : (r: Result<seq<ObsRow>>)
    requires TruthySamples(hour)
    ensures r.Success? <==> MakeRecord(history, filename, t, hour).Success?
    ensures r.Success? ==> |r.value| == |out| + 1 && r.value[..|out|] == out
    ensures r.Success? ==> r.value[|out|] == MakeRecord(history, filename, t, hour).value
  {
    var rec :- MakeRecord(history, filename, t, hour);
    assert (out + [rec])[..|out|] == out;
    Success(out + [rec])
  }

  /** The end-of-file step of `parse_reader`: a historical file whose
      last row is at minute 50 gets one more record, ten minutes later,
      from the samples gathered since the last full hour.  The name
      `timestamp` is unbound when no row followed the first. */
  function EndOfFile(history: History, filename: string, ot: ObservationType, st: GustState)
    : (r: Result<seq<ObsRow>>)
    requires TruthySamples(st.hour)
    ensures ot == Historical && st.last.None? ==> r == Failure(UnboundLocalError("timestamp"))
    ensures ot == Recent ==> r == Success(st.out)
    ensures r.Success? && ot == Historical ==>
      && st.last.Some?
      && |r.value| == |st.out| + (if MinuteOfHour(st.last.value) == 50 then 1 else 0)
      && r.value[..|st.out|] == st.out
      && (MinuteOfHour(st.last.value) == 50 ==>
            r.value[|st.out|].timestamp == st.last.value + 10 && GustShaped(r.value[|st.out|], filename))
  {
    if ot == Recent then Success(st.out)
    else match st.last
      case None => Failure(UnboundLocalError("timestamp"))
      case Some(t) =>
        if MinuteOfHour(t) == 50 then
          AppendRecord(history, filename, st.out, t + 10, st.hour)
        else
          assert st.out[..|st.out|] == st.out;
          Success(st.out)
  }

  /** The loop and the end-of-file step on the readings of the rows after
      the first. */
  function FinishGusts(history: History, filename: string, ot: ObservationType, gs: seq<Result<Reading>>)
    : (r: Result<seq<ObsRow>>)
    requires ValidReadings(gs)
    ensures |gs| == 0 && ot == Historical ==> r == Failure(UnboundLocalError("timestamp"))
    ensures r.Success? ==> forall i :: 0 <= i < |gs| ==> gs[i].Success?
    ensures r.Success? ==> forall j :: 0 <= j < |r.value| ==> GustShaped(r.value[j], filename)
  {
    var st :- Fold(history, filename, GustState([], [], None), gs);
    FoldAppends(history, filename, GustState([], [], None), gs);
    EndOfFile(history, filename, ot, st)
  }

  /** A recent file's records are at the hour-closing readings' times. */
  lemma {:induction false} FinishGustsRecentTimes(history: History, filename: string, gs: seq<Result<Reading>>)
    requires ValidReadings(gs)
    requires FinishGusts(history, filename, Recent, gs).Success?
    ensures Times(FinishGusts(history, filename, Recent, gs).value) == Marks(gs)
  {
    FoldTimes(history, filename, GustState([], [], None), gs);
  }

  /** A historical file's records are at the hour-closing readings' times,
      plus one ten minutes after the last reading when that is at minute
      50. */
  lemma {:induction false} FinishGustsHistoricalTimes(history: History, filename: string, gs: seq<Result<Reading>>)
    requires ValidReadings(gs)
    requires FinishGusts(history, filename, Historical, gs).Success?
    ensures |gs| > 0
    ensures var last := gs[|gs| - 1].value.t;
      Times(FinishGusts(history, filename, Historical, gs).value)
        == Marks(gs) + EndMark(last)
  {
    var st0 := GustState([], [], None);
    var f := Fold(history, filename, st0, gs);
    var st := f.value;
    assert |gs| > 0;
    var last := gs[|gs| - 1].value.t;
    assert st.last == Some(last);
    var out := FinishGusts(history, filename, Historical, gs).value;
    assert out == EndOfFile(history, filename, Historical, st).value;
    FoldTimes(history, filename, st0, gs);
    EndOfFileTimes(history, filename, Historical, st);
    ReplacePrefix(Times(out), Times(st.out), Marks(gs), EndMark(last));
  }

  /** The end-of-file step adds a record ten minutes after a last time at
      minute 50 of a historical file, and nothing else. */
  lemma {:induction false} EndOfFileTimes(history: History, filename: string, ot: ObservationType, st: GustState)
    requires TruthySamples(st.hour)
    requires EndOfFile(history, filename, ot, st).Success?
    ensures ot == Historical ==>
      && st.last.Some?
      && Times(EndOfFile(history, filename, ot, st).value)
           == Times(st.out) + EndMark(st.last.value)
  {
    if ot == Historical {
      var r := EndOfFile(history, filename, ot, st).value;
      var n := |st.out|;
      TimesAppend(r[..n], r[n..]);
      assert r[..n] + r[n..] == r;
    }
  }

  lemma ReplacePrefix(a: seq<Timestamp>, b: seq<Timestamp>, b': seq<Timestamp>, c: seq<Timestamp>)
    requires a == b + c && b == b'
    ensures a == b' + c
  {
  }

  lemma {:induction false} TimesAppend(a: seq<ObsRow>, b: seq<ObsRow>)
    ensures Times(a + b) == Times(a) + Times(b)
    decreases |a|
  {
    if |a| > 0 {
      assert (a + b)[1..] == a[1..] + b;
      TimesAppend(a[1..], b);
      Associate([a[0].timestamp], Times(a[1..]), Times(b));
    } else {
      assert a + b == b;
    }
  }

  lemma Associate<T>(a: seq<T>, b: seq<T>, c: seq<T>)
    ensures a + b + c == a + (b + c)
  {
  }

  lemma PrefixAndLast<T>(a: seq<T>, b: seq<T>)
    requires |b| == |a| + 1 && b[..|a|] == a
    ensures b == a + [b[|a|]]
  {
  }

  /** `WindGustsObservationsParser.parse_reader`.  The first row is dropped
      (an empty file fails: `next` raises inside the generator); every
      hour-closing row in the window yields a record at its own time.  A
      historical file whose last row is at minute 50 yields one more
      record, ten minutes later, from the samples since the last full
      hour, without a window test; a historical file with no row after
      the first has no last time to test. */
  function ParseGusts(env: Env, s: Settings, d: Descriptor, filename: string, history: History,
                      ot: ObservationType, rows: seq<map<string, string>>) : (r: Result<seq<ObsRow>>)
    requires GustDescriptor(d)
    ensures |rows| == 0 ==> r == Failure(RuntimeError("generator raised StopIteration"))
    ensures |rows| == 1 && ot == Historical ==> r == Failure(UnboundLocalError("timestamp"))
    ensures r.Success? ==> forall j :: 0 <= j < |r.value| ==> GustShaped(r.value[j], filename)
    ensures r.Success? ==> forall i :: 1 <= i < |rows| ==> ReadRow(env, s, d, rows[i]).Success?
    ensures r.Success? <==>
      ReadsAll(env, s, d, rows) && GustRecords(history, filename, ot, ReadingsOf(env, s, d, rows)).Success?
  {
    if |rows| == 0 then Failure(RuntimeError("generator raised StopIteration"))
    else
      ReadsAllSucceeds(env, s, d, filename, history, ot, rows);
      FinishGusts(history, filename, ot, ReadAll(env, s, d, rows[1..]))
  }

  /** After the header, the loop and the end-of-file step succeed exactly
      when every row is read and the reference records of the readings
      exist. */
  lemma ReadsAllSucceeds(env: Env, s: Settings, d: Descriptor, filename: string, history: History,
                         ot: ObservationType, rows: seq<map<string, string>>)
    requires GustDescriptor(d) && |rows| > 0
    ensures FinishGusts(history, filename, ot, ReadAll(env, s, d, rows[1..])).Success? <==>
      ReadsAll(env, s, d, rows) && GustRecords(history, filename, ot, ReadingsOf(env, s, d, rows)).Success?
  {
    FinishGustsSucceeds(history, filename, ot, ReadAll(env, s, d, rows[1..]));
  }

  /** The file has a header row and every row after it is read. */
  predicate ReadsAll(env: Env, s: Settings, d: Descriptor, rows: seq<map<string, string>>)
    requires GustDescriptor(d)
  {
    |rows| > 0 && forall i :: 0 <= i < |rows| - 1 ==> ReadAll(env, s, d, rows[1..])[i].Success?
  }

  /** The readings of the rows after the header. */
  function ReadingsOf(env: Env, s: Settings, d: Descriptor, rows: seq<map<string, string>>): (rs: seq<Reading>)
    requires GustDescriptor(d) && ReadsAll(env, s, d, rows)
    ensures ValidReadingSeq(rs)
  {
    Values(ReadAll(env, s, d, rows[1..]))
  }

  /** The gust records are at the times of the hour-closing rows inside
      the window, in row order, plus, for a historical file whose last row
      is at minute 50, one ten minutes after it. */
  lemma {:induction false} ParseGustsTimes(env: Env, s: Settings, d: Descriptor, filename: string, history: History,
                        ot: ObservationType, rows: seq<map<string, string>>)
    requires GustDescriptor(d)
    requires ParseGusts(env, s, d, filename, history, ot, rows).Success?
    ensures ot == Recent ==> Times(ParseGusts(env, s, d, filename, history, ot, rows).value) == HourMarks(env, s, rows[1..])
    ensures ot == Historical ==>
      && |rows| >= 2
      && RowTime(env, YmdHM, rows[|rows| - 1]).Some?
      && var last := RowTime(env, YmdHM, rows[|rows| - 1]).value;
         Times(ParseGusts(env, s, d, filename, history, ot, rows).value)
           == HourMarks(env, s, rows[1..]) + EndMark(last)
  {
    var gs := ReadAll(env, s, d, rows[1..]);
    if ot == Recent {
      FinishGustsRecentTimes(history, filename, gs);
    } else {
      FinishGustsHistoricalTimes(history, filename, gs);
    }
    MarksOfRows(env, s, d, rows[1..]);
    if |rows| > 1 {
      assert rows[|rows| - 1] == rows[1..][|rows[1..]| - 1];
    }
  }

  /** The records of a gust file by value, without the loop: the hour
      records of the readings, then, for a historical file whose last
      reading is at minute 50, the record of the samples gathered since
      the last full hour, ten minutes after that reading.  A historical
      file with no reading has no last time. */
  function GustRecords(history: History, filename: string, ot: ObservationType, rs: seq<Reading>)
    : (r: Result<seq<ObsRow>>)
    requires ValidReadingSeq(rs)
    ensures ot == Historical && |rs| == 0 ==> r.Failure?
    ensures r.Success? ==> HourRecords(history, filename, [], rs).Success?
    ensures r.Success? ==> forall j :: 0 <= j < |r.value| ==> GustShaped(r.value[j], filename)
  {
    var hours :- HourRecords(history, filename, [], rs);
    if ot == Recent then Success(hours)
    else if |rs| == 0 then Failure(UnboundLocalError("timestamp"))
    else if MinuteOfHour(rs[|rs| - 1].t) == 50 then
      AppendRecord(history, filename, hours, rs[|rs| - 1].t + 10, Leftover([], rs))
    else Success(hours)
  }

  /** The records a historical or recent file ends with, given the hour
      records `out`, the leftover samples `hour` and the readings `rs`:
      the unbound `timestamp` when no row was read, one more record ten
      minutes after a last row at minute 50. */
  function TailRecords(history: History, filename: string, ot: ObservationType, out: seq<ObsRow>,
                       hour: seq<Sample>, rs: seq<Reading>): Result<seq<ObsRow>>
    requires TruthySamples(hour)
  {
    if ot == Recent then Success(out)
    else if |rs| == 0 then Failure(UnboundLocalError("timestamp"))
    else if MinuteOfHour(rs[|rs| - 1].t) == 50 then AppendRecord(history, filename, out, rs[|rs| - 1].t + 10, hour)
    else Success(out)
  }

  /** The end-of-file step by cases, for a state whose last time is that of
      the last reading. */
  lemma EndOfFileCases(history: History, filename: string, ot: ObservationType, st: GustState, rs: seq<Reading>)
    requires TruthySamples(st.hour)
    requires st.last == (if |rs| == 0 then None else Some(rs[|rs| - 1].t))
    ensures EndOfFile(history, filename, ot, st) == TailRecords(history, filename, ot, st.out, st.hour, rs)
  {
  }

  /** The reference records by the same cases, after the hour records. */
  lemma GustRecordsCases(history: History, filename: string, ot: ObservationType, rs: seq<Reading>,
                         hours: seq<ObsRow>, left: seq<Sample>)
    requires ValidReadingSeq(rs)
    requires HourRecords(history, filename, [], rs) == Success(hours) && left == Leftover([], rs)
    ensures TruthySamples(left)
    ensures GustRecords(history, filename, ot, rs) == TailRecords(history, filename, ot, hours, left, rs)
  {
  }

  /** The end-of-file step, after a loop that produced the hour records
      and kept the leftover samples, completes the records by value. */
  lemma EndOfFileIsTail(history: History, filename: string, ot: ObservationType, st: GustState, rs: seq<Reading>)
    requires ValidReadingSeq(rs) && TruthySamples(st.hour)
    requires HourRecords(history, filename, [], rs) == Success(st.out)
    requires st.hour == Leftover([], rs)
    requires st.last == (if |rs| == 0 then None else Some(rs[|rs| - 1].t))
    ensures EndOfFile(history, filename, ot, st).Success? <==> GustRecords(history, filename, ot, rs).Success?
    ensures EndOfFile(history, filename, ot, st).Success? ==>
      EndOfFile(history, filename, ot, st).value == GustRecords(history, filename, ot, rs).value
  {
    EndOfFileCases(history, filename, ot, st, rs);
    GustRecordsCases(history, filename, ot, rs, st.out, st.hour);
  }

  /** The loop and the end-of-file step compute the records by value. */
  lemma {:induction false} FinishGustsIsGustRecords(history: History, filename: string, ot: ObservationType,
                                                    gs: seq<Result<Reading>>)
    requires ValidReadings(gs)
    requires forall i :: 0 <= i < |gs| ==> gs[i].Success?
    ensures FinishGusts(history, filename, ot, gs).Success? <==> GustRecords(history, filename, ot, Values(gs)).Success?
    ensures FinishGusts(history, filename, ot, gs).Success? ==>
      FinishGusts(history, filename, ot, gs).value == GustRecords(history, filename, ot, Values(gs)).value
  {
    var st0 := GustState([], [], None);
    var rs := Values(gs);
    FoldIsHourRecords(history, filename, st0, gs);
    var f := Fold(history, filename, st0, gs);
    if f.Success? {
      var st := f.value;
      var h := HourRecords(history, filename, [], rs);
      assert h.Success?;
      assert st.out == [] + h.value == h.value;
      assert |rs| == |gs| && (|gs| > 0 ==> rs[|rs| - 1] == gs[|gs| - 1].value);
      assert FinishGusts(history, filename, ot, gs) == EndOfFile(history, filename, ot, st);
      EndOfFileIsTail(history, filename, ot, st, rs);
    }
  }
  /** The loop and the end-of-file step succeed exactly when every row is
      read and the reference records exist. */
  lemma FinishGustsSucceeds(history: History, filename: string, ot: ObservationType, gs: seq<Result<Reading>>)
    requires ValidReadings(gs)
    ensures FinishGusts(history, filename, ot, gs).Success? <==>
      && (forall i :: 0 <= i < |gs| ==> gs[i].Success?)
      && GustRecords(history, filename, ot, Values(gs)).Success?
  {
    if forall i :: 0 <= i < |gs| ==> gs[i].Success? {
      FinishGustsIsGustRecords(history, filename, ot, gs);
    }
  }

  /** The records of a gust file are those of the readings of its rows
      after the first. */
  lemma ParseGustsHours(env: Env, s: Settings, d: Descriptor, filename: string, history: History,
                        ot: ObservationType, rows: seq<map<string, string>>)
    requires GustDescriptor(d)
    requires ParseGusts(env, s, d, filename, history, ot, rows).Success?
    ensures ReadsAll(env, s, d, rows)
    ensures GustRecords(history, filename, ot, ReadingsOf(env, s, d, rows)).Success?
    ensures ParseGusts(env, s, d, filename, history, ot, rows).value
         == GustRecords(history, filename, ot, ReadingsOf(env, s, d, rows)).value
  {
    FinishGustsIsGustRecords(history, filename, ot, ReadAll(env, s, d, rows[1..]));
  }
}
