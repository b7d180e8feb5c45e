/** `ObservationsParser.parse` on a whole observation archive: the station
    id from the member names, the observation type from the archive name,
    the position history from the geography member, and the records of the
    single product member, each tagged with the archive-wide fields. */
module ObservationArchive {
  import opened Wrappers
  import opened External
  import opened Dispatch
  import opened Observations
  import opened WindGusts

  /** A zip archive after decoding: its member names in archive order and
      the semicolon-separated rows of each member. */
  datatype Archive = Archive(names: seq<string>, members: map<string, seq<map<string, string>>>)

  /** `zf.open(name)`: a missing member raises KeyError. */
  function Open(a: Archive, name: string): (r: Result<seq<map<string, string>>>)
    ensures r.Success? <==> name in a.members
    ensures r.Success? ==> r.value == a.members[name]
  {
    if name in a.members then Success(a.members[name]) else Failure(KeyError(name))
  }

  /** The geography member of a station. */
  function GeographyMember(dwd: string): string {
    GeographyPrefix + dwd + ".txt"
  }

  /** A record as `parse` yields it: the archive-wide fields and the reader's
      record. */
  datatype ObsRecord = ObsRecord(observationType: ObservationType, dwdStationId: string,
                                 wmoStationId: string, row: ObsRow)

  /** `parse_records`: exactly one product member, read by the reader the
      descriptor selects. */
  function ParseRecords(env: Env, s: Settings, d: Descriptor, ot: ObservationType, history: History, zf: Archive)
    : (r: Result<seq<ObsRow>>)
    requires WellFormed(d)
    ensures |Products(zf.names)| != 1 ==> r == Failure(AssertionError("Unexpected product count"))
    ensures r.Success? ==> ProductName(zf.names).Success? && ProductName(zf.names).value in zf.members
    ensures |Products(zf.names)| == 1 ==>
      var name := ProductName(zf.names).value;
      (r.Success? <==>
         && name in zf.members
         && (d.variant != Gusts ==>
               forall i :: 0 <= i < |zf.members[name]| ==> ValidProductRow(env, s, d, history, zf.members[name][i]))
         && (d.variant == Gusts ==>
               && ReadsAll(env, s, d, zf.members[name])
               && GustRecords(history, name, ot, ReadingsOf(env, s, d, zf.members[name])).Success?))
    ensures r.Success? && d.variant != Gusts ==>
      var rows := zf.members[ProductName(zf.names).value];
      && |r.value| == |KeptRows(env, YmdH, s, rows, 0)|
      && forall j :: 0 <= j < |r.value| ==> r.value[j].source == Source(ProductName(zf.names).value)
    ensures r.Success? && d.variant == Gusts ==>
      forall j :: 0 <= j < |r.value| ==> GustShaped(r.value[j], ProductName(zf.names).value)
  {
    var name :- ProductName(zf.names);
    var rows :- Open(zf, name);
    if d.variant == Gusts then ParseGusts(env, s, d, name, history, ot, rows)
    else ParseReader(env, s, d, name, history, rows)
  }

  /** Tags the reader's records with the archive-wide fields. */
  function Tag(ot: ObservationType, dwd: string, wmo: string, rows: seq<ObsRow>): (rs: seq<ObsRecord>)
    ensures |rs| == |rows|
    ensures forall j :: 0 <= j < |rows| ==> rs[j] == ObsRecord(ot, dwd, wmo, rows[j])
  {
    seq(|rows|, j requires 0 <= j < |rows| => ObsRecord(ot, dwd, wmo, rows[j]))
  }

  /** The archive holding the geography member: the observation archive
      itself, or for the gust parser the metadata archive, whose absence
      fails when it is opened. */
  function GeographySource(d: Descriptor, zf: Archive, meta: Option<Archive>): (r: Result<Archive>)
    ensures r.Success? <==> d.variant != Gusts || meta.Some?
    ensures r.Success? ==> r.value == if d.variant == Gusts then meta.value else zf
  {
    if d.variant != Gusts then Success(zf)
    else if meta.Some? then Success(meta.value)
    else Failure(AttributeError("'NoneType' object has no attribute 'seek'"))
  }

  /** `parse_lat_lon_history` and `parse_records` for station `dwd`: the
      position history from the geography member, then the records of the
      single product member. */
  function ArchiveRows(env: Env, s: Settings, d: Descriptor, ot: ObservationType, dwd: string,
                       zf: Archive, meta: Option<Archive>) : (r: Result<seq<ObsRow>>)
    requires WellFormed(d)
    ensures r.Success? <==>
      && GeographySource(d, zf, meta).Success?
      && var geography := GeographyMember(dwd);
         && geography in GeographySource(d, zf, meta).value.members
         && var history := BuildHistory(env, GeographySource(d, zf, meta).value.members[geography]);
            && history.Success?
            && ParseRecords(env, s, d, ot, history.value, zf).Success?
    ensures r.Success? ==>
      var history := BuildHistory(env, GeographySource(d, zf, meta).value.members[GeographyMember(dwd)]);
      r == ParseRecords(env, s, d, ot, history.value, zf)
  {
    var source :- GeographySource(d, zf, meta);
    var geography :- Open(source, GeographyMember(dwd));
    var history :- BuildHistory(env, geography);
    ParseRecords(env, s, d, ot, history, zf)
  }

  /** `ObservationsParser.parse`.  The gust parser reads its position history
      from the separately downloaded metadata archive (`meta`); no such
      archive (no `meta_path`) fails when opened. */
  function ParseArchive(env: Env, s: Settings, d: Descriptor, path: string, zf: Archive, meta: Option<Archive>)
    : (r: Result<seq<ObsRecord>>)
    requires WellFormed(d)
    ensures StationId(d.variant, zf.names).Failure? ==> r.Failure?
    ensures ParseObservationType(path).Failure? ==> r.Failure?
    ensures |Products(zf.names)| != 1 ==> r.Failure?
    ensures r.Success? <==>
      && StationId(d.variant, zf.names).Success?
      && ParseObservationType(path).Success?
      && ArchiveRows(env, s, d, ParseObservationType(path).value, StationId(d.variant, zf.names).value, zf, meta).Success?
    ensures r.Success? ==>
      var rows := ArchiveRows(env, s, d, ParseObservationType(path).value, StationId(d.variant, zf.names).value, zf, meta);
      && |r.value| == |rows.value|
      && forall j :: 0 <= j < |r.value| ==>
           && r.value[j].dwdStationId == StationId(d.variant, zf.names).value
           && r.value[j].wmoStationId == env.dwdToWmo(r.value[j].dwdStationId)
           && r.value[j].observationType == ParseObservationType(path).value
           && r.value[j].row == rows.value[j]
    ensures r.Success? ==> ProductName(zf.names).Success? && ProductName(zf.names).value in zf.members
    ensures r.Success? && d.variant != Gusts ==>
      |r.value| == |KeptRows(env, YmdH, s, zf.members[ProductName(zf.names).value], 0)|
  {
    var dwd :- StationId(d.variant, zf.names);
    var wmo := env.dwdToWmo(dwd);
    var ot :- ParseObservationType(path);
    var rows :- ArchiveRows(env, s, d, ot, dwd, zf, meta);
    Success(Tag(ot, dwd, wmo, rows))
  }

  /** The observation parser a file name selects: a descriptor exactly for
      the hourly and ten-minute archive names. */
  function ArchiveDescriptor(name: string): (r: Option<Descriptor>)
    ensures r.Some? ==> GetParser(name).Some? && DescriptorOf(GetParser(name).value) == r
    ensures r.Some? ==> WellFormed(r.value)
    ensures (GetParser(name).Some? && GetParser(name).value != Mosmix &&
             GetParser(name).value != CurrentObservations) ==> r.Some?
  {
    match GetParser(name)
    case None => None
    case Some(kind) => DescriptorOf(kind)
  }
}
