# Bright Sky parsers and task rules, in Dafny

This project models the decision and transformation core of Bright Sky, the
service that ingests open weather data of the Deutscher Wetterdienst (DWD).
Two source files are covered:

- `brightsky/parsers.py`, whose parts are modelled as follows.
  - The file-name dispatcher `get_parser` and the parser priorities.
  - The MOSMIX forecast parser: expanding a station's per-element series into one record per timestamp, and sanitising precipitation and wind direction.
  - The parser for the current observation (`-BEOB.csv`) reports.
  - The hourly observation archive parsers, including:
    - retention-window skipping of files and rows;
    - the observation type, read from the file name;
    - the station id, read from the archive members;
    - the position history and its lookup by time;
    - the product member count check;
    - the null codes, the converters and the pressure-reduction override of `parse_elements`.
  - The ten-minute wind gust parser, which aggregates into hourly records.
- `brightsky/tasks.py`:
  - `parse`: its argument check, the choice of parser, the fingerprint rule and the order of its side effects.
  - The enqueue selection of `poll`.

The modules follow the source:

| module | file | models |
|---|---|---|
| `Wrappers` | `wrappers.dfy` | shared helpers: `Option`, Python exceptions as a `Result` error, and first-failure folds over sequences |
| `Text` | `text.dfy` | the string operations the parsers use, e.g. `str.strip`, `str.split`, whitespace tokenising and `os.path.basename` |
| `External` | `external.dfy` | the collaborators whose code is not modelled, passed in as an `Env`: `float()`, `strptime`, unit converters, the barometric formula, id mappings and the database location lookup |
| `Tables` | `tables.dfy` | ordered element tables (the source's dicts) and their key sets |
| `Dispatch` | `dispatch.dfy` | `get_parser` and `PRIORITY` |
| `Forecast` | `forecast.dfy` | `MOSMIXParser` |
| `CurrentObs` | `current.dfy` | `CurrentObservationsParser` |
| `Observations` | `observations.dfy` | `ObservationsParser` and the per-class tables of its subclasses |
| `WindGusts` | `gusts.dfy` | `WindGustsObservationsParser.parse_reader` and `_make_record` |
| `ObservationArchive` | `archive.dfy` | `ObservationsParser.parse` over a decoded zip archive |
| `Tasks` | `tasks.dfy` | `tasks.parse` and `tasks.poll` |

Modelling conventions:

- Python exceptions are `Failure` values. Each carries the exception class the source would raise, for example:
  - the `AssertionError` of a series length mismatch;
  - the `TypeError` when `None` is unpacked or called;
  - the `UnboundLocalError` when a historical gust file has no row after its first.
- Timestamps are integers, counted in minutes; `timestamp.minute` is `t % 60`.
- Rows of a CSV file are `map<string, string>`. A missing column is a `KeyError`.
- A generator that raises part-way is modelled as the whole call failing.

## Model

| member | source | states |
|---|---|---|
| Dispatch.GetParser | brightsky/parsers.py:563-579 | no parser exactly when no table pattern matches at the start of the name; otherwise the parser of the first matching entry in table order |
| Dispatch.FirstMatchSpec | brightsky/parsers.py:577-579 | the loop over the table from any entry on returns the first match after it, or falls off the end when none matches |
| Dispatch.FirstMatchIsFirstHit | brightsky/parsers.py:577-579 | the table loop is a first-hit search over the table indices |
| Dispatch.GetParserPicksEarliest | brightsky/parsers.py:577-579 | a matching entry with no earlier match decides the parser |
| Dispatch.ForecastNameDispatch | brightsky/parsers.py:565 | `MOSMIX_S_LATEST_240.kmz` selects the forecast parser |
| Dispatch.ForecastNameWithNewline | brightsky/parsers.py:565 | `$` also matches before a final newline, so the name followed by a newline still selects the forecast parser |
| Dispatch.ForecastNameIsNotPrefix | brightsky/parsers.py:565 | the forecast pattern is a whole-name test: a longer name is not dispatched |
| Dispatch.CurrentNameDispatch | brightsky/parsers.py:566 | five word characters followed by `-BEOB.csv` select the current observation parser |
| Dispatch.CurrentNameNeedsFiveWordChars | brightsky/parsers.py:566 | four word characters before `-BEOB.csv` select nothing |
| Dispatch.PressureNameDispatch | brightsky/parsers.py:569 | every name starting `stundenwerte_P0_` selects the pressure parser, whatever follows |
| Dispatch.WindGustsNameDispatch | brightsky/parsers.py:575 | every name starting `10minutenwerte_extrema_wind_` selects the wind gust parser |
| Dispatch.UnknownNameNotDispatched | brightsky/parsers.py:563-579 | a name starting `stundenwerte_XX_` matches no entry and gets no parser |
| Text.Words | brightsky/parsers.py:125-126 | the tokens of a series are non-empty and contain no whitespace |
| Text.WordsJoinWords | brightsky/parsers.py:125-126 | tokenising a space-joined list of tokens gives back the tokens |
| Text.JoinWordsIsCollapse | brightsky/parsers.py:125-126 | the tokens are the text's whitespace-free runs, in order: joined with single spaces they give the text with every whitespace run collapsed to one space and the whitespace at both ends dropped, as a character-by-character scan computes it |
| Text.JoinWordsCollapse | brightsky/parsers.py:125-126 | the same for a scan that has already emitted text, where one space separates the first token from it |
| Text.FirstField | brightsky/parsers.py:124-125 | `csv.reader` on a token gives the text before the first comma |
| Text.Split | brightsky/parsers.py:116-117 | `split(',')` yields at least one part, and no part contains a comma |
| Text.JoinSplit | brightsky/parsers.py:116-117 | joining the parts with the separator gives back the text |
| Text.ReplaceChar | brightsky/parsers.py:221 | `replace(',', '.')` keeps the length and changes exactly the commas |
| Text.RStrip | brightsky/parsers.py:196 | `rstrip('_')` leaves a prefix of the text not ending in `_`, and removes only underscores |
| Text.Strip | brightsky/parsers.py:364-365 | `strip()` gives a substring with no whitespace at either end, and only whitespace was removed |
| Text.Basename | brightsky/tasks.py:16 | the base name has no `/`, ends the path, and follows a `/` when shorter than the path |
| Text.BasenameEndsWith | brightsky/parsers.py:293-297 | for a suffix without `/`, the base name ends with it exactly when the path does |
| External.Trunc | brightsky/parsers.py:422-423 | Python's `int()` on a float truncates toward zero |
| External.ConvertKeepsPresence | brightsky/parsers.py:231-234 | a converter never turns None into a value or back; an element without a converter is unchanged |
| Forecast.Elements | brightsky/parsers.py:70-81 | the ten MOSMIX elements, keyed by distinct record fields |
| Forecast.DecodeSeries | brightsky/parsers.py:123-127 | a series decodes exactly when each token does, with one value per token; `-` becomes None |
| Forecast.SeriesOf | brightsky/parsers.py:119-128 | every element's series is decoded and checked, in table order; the first failure aborts |
| Forecast.ElementSeriesSucceedsIff | brightsky/parsers.py:120-128 | an element's series succeeds exactly when it is present, has one decodable token per timestamp, and then equals the decoded tokens |
| Forecast.StepValues | brightsky/parsers.py:139-143 | the values at step `i` are keyed by every element field, each holding the i-th entry of its series |
| Forecast.StationRecords | brightsky/parsers.py:129-143 | one record per timestamp: the base fields, timestamp i, and the i-th value of every series |
| Forecast.ParseStation | brightsky/parsers.py:112-143 | succeeds exactly when the coordinates have three numbers and every series has one decodable entry per timestamp; record i then carries the station fields (longitude, latitude and height from the first, second and third coordinate, in that order), `timestamps[i]` and the i-th decoded token of each element |
| Forecast.MismatchedSeriesFails | brightsky/parsers.py:128 | a series whose length differs from the timestamps makes the station fail |
| Forecast.Sanitize | brightsky/parsers.py:145-155 | negative precipitation becomes None; a wind direction above 360 loses 360 once; every other field and value is unchanged |
| Forecast.SanitizeRecords | brightsky/parsers.py:145-155 | one sanitised record per input record, in order |
| Forecast.SanitizeBounds | brightsky/parsers.py:147-154 | after sanitising, precipitation is never negative, and a direction up to 720 is at most 360 |
| Forecast.SanitizeExamples | brightsky/parsers.py:147-154 | 370 becomes 10, 360 stays, -0.1 becomes None, 0 stays |
| Forecast.SanitizedStation | brightsky/parsers.py:91-93 | one station's records: success exactly on a valid placemark, one record per timestamp, and record i is the sanitised form of the station's parsed record i |
| Forecast.ParseForecast | brightsky/parsers.py:83-93 | the forecast succeeds exactly when every station placemark is valid, with one record per station and timestamp |
| Forecast.ParseForecastAt | brightsky/parsers.py:83-93 | the stations are emitted in placemark order, each with its records in timestamp order: position `s * len(timestamps) + i` holds the sanitised record of station s at timestamp i |
| CurrentObs.Elements | brightsky/parsers.py:162-176 | the eleven report columns, keyed by distinct record fields |
| CurrentObs.Cells | brightsky/parsers.py:216-223 | the row's cells parse exactly when every column is present and parses, one value per column |
| CurrentObs.RowValues | brightsky/parsers.py:216-234 | the record has exactly the element keys, each holding its cell's value after its converter |
| CurrentObs.ParseRowWith | brightsky/parsers.py:215-234 | a row parses exactly when it is valid; the keys are exactly the elements; a value is None exactly for `---` or an ignored code; otherwise it is the converted comma-decimal number; the timestamp comes from the date and hour columns |
| CurrentObs.ResolveLocation | brightsky/parsers.py:198-200 | given position arguments are used when all four are present; otherwise the stored location is used, and none stored is an error |
| CurrentObs.ParseRows | brightsky/parsers.py:203-213 | one record per data row, each with the station's ids and position and its row's parsed values |
| CurrentObs.ParseCurrentWith | brightsky/parsers.py:193-213 | succeeds exactly when there are at least two rows, the first has the date column, the station's location resolves and every row after the second parses; the first row names the station (`rstrip('_')`), the second is skipped, and each later row gives one record with the resolved location |
| CurrentObs.ParseCurrentIgnoresSecondRow | brightsky/parsers.py:201-202 | the content of the German header row has no influence on the result |
| Observations.DescriptorOf | brightsky/parsers.py:376-546 | every observation parser class has a well-formed element table; only the pressure class reduces pressure and only the gust class aggregates gusts |
| Observations.ElementCell | brightsky/parsers.py:362-367 | a cell is None exactly when its stripped text is `-999` or an ignored code; otherwise it is the `float` of the cell |
| Observations.ReadCells | brightsky/parsers.py:361-369 | the cells read exactly when every column is present and reads, one value per element |
| Observations.ElementValues | brightsky/parsers.py:361-372 | the keys are exactly the elements, each value converted by its converter |
| Observations.ReadElements | brightsky/parsers.py:360-373 | the element values of a row: success exactly when every cell reads; the element keys; converted values |
| Observations.ParseElements | brightsky/parsers.py:360-373 | `parse_elements` for a parser's tables, with the same guarantees |
| Observations.ReducePressure | brightsky/parsers.py:548-560 | `pressure_station` is always removed, and no value other than `pressure_msl` changes |
| Observations.ReducePressureFillsOnlyGaps | brightsky/parsers.py:550-558 | a truthy `pressure_msl` is kept; a falsy one is replaced by the barometric reduction only when the station pressure is truthy |
| Observations.StationElements | brightsky/parsers.py:344 | the values a row contributes: success exactly when every element cell is present and readable; the keys are the table's elements, with `pressure_station` removed in the pressure parser |
| Observations.StationElementsValues | brightsky/parsers.py:548-560 | every contributed value is the parsed element value, except the pressure parser's `pressure_msl`, which is the parsed one unless it is falsy and the station pressure truthy, and then the barometric reduction of the station pressure at the station height |
| Observations.Put | brightsky/parsers.py:311-315 | dict assignment: the new date maps to the new position; other dates are unchanged; an existing date keeps its place; a new date goes last |
| Observations.CollectLastWins | brightsky/parsers.py:307-315 | the last row for a date decides its position |
| Observations.CollectAscending | brightsky/parsers.py:307-315 | rows with ascending dates give the history in row order |
| Observations.HistoryRow | brightsky/parsers.py:308-315 | a history row succeeds exactly when `von_datum` is present and its stripped text parses as a date, the latitude, longitude and height columns are present and parse as floats, and `Stationsname` is present; it then gives that date and the position and name columns |
| Observations.HistoryEntries | brightsky/parsers.py:307-315 | one entry per row, and the first bad row fails |
| Observations.BuildHistory | brightsky/parsers.py:301-316 | the history succeeds exactly when every geography row parses, and holds each date once |
| Observations.BuildHistoryDates | brightsky/parsers.py:307-315 | every date in the history is the `von_datum` of some row |
| Observations.BuildHistoryLastWins | brightsky/parsers.py:307-315 | every row's date maps to the position of the last row carrying that date |
| Observations.BuildHistoryAscending | brightsky/parsers.py:307-315 | rows with strictly ascending dates give one entry per row, in row order |
| Observations.CollectDates | brightsky/parsers.py:307-315 | assigning entries in order introduces no date that no entry carries |
| Observations.StationParamsInForce | brightsky/parsers.py:352-358 | on ascending dates, the lookup returns the entry with the greatest date not after the time (an equal date counts), and None exactly when the history is empty or starts later |
| Observations.ScanInForce | brightsky/parsers.py:353-358 | the loop keeps the last entry not after the time and stops at the first later one |
| Observations.StationParamsBoundary | brightsky/parsers.py:355-357 | a change of position takes effect exactly on its own date |
| Observations.GeographyStationId | brightsky/parsers.py:286-290 | a matched geography member name yields a non-empty run of digits, followed by `.txt` |
| Observations.GeographyStationIdOf | brightsky/parsers.py:288-289 | `Metadaten_Geographie_<digits>.txt` yields those digits |
| Observations.ScanProduct | brightsky/parsers.py:469 | the search picks the last usable `_` of the greedy `.*`, or none |
| Observations.ProductStationId | brightsky/parsers.py:467-471 | the gust station id is the digits after the last `_` that `produkt_.*_(\d+)\.txt` can use, and none exactly when no `_` qualifies |
| Observations.ProductStationIdOf | brightsky/parsers.py:469-470 | `produkt_<text>_<digits>.txt` yields those digits |
| Observations.StationId | brightsky/parsers.py:286-290 | the station id comes from the first member name that matches; no match fails |
| Observations.Products | brightsky/parsers.py:319-320 | the product members are exactly the names starting `produkt_` |
| Observations.ProductName | brightsky/parsers.py:318-322 | the product member is found exactly when there is one |
| Observations.ParseObservationType | brightsky/parsers.py:292-299 | `_akt.zip` is recent; `_hist.zip` without `_akt.zip` is historical; anything else fails |
| Observations.HistSuffix | brightsky/parsers.py:260 | a match has two 8-digit groups and ends the text with `_<start>_<end>_hist.zip` |
| Observations.HistoricalRange | brightsky/parsers.py:260 | the search finds two 8-digit groups at the end of the path, or before a final newline |
| Observations.HistoricalRangeOf | brightsky/parsers.py:260 | a path ending `_<start>_<end>_hist.zip` yields exactly those dates |
| Observations.ShouldSkip | brightsky/parsers.py:259-270 | skipped exactly when the path has the range suffix and either the end date is before MIN_DATE, or MAX_DATE is set and the start date is after it; a path without the suffix is never skipped; with the suffix the test fails exactly when the end date does not parse, or when it is not before MIN_DATE, MAX_DATE is set and the start date does not parse |
| Observations.RecentNeverSkipped | brightsky/parsers.py:259-270 | a recent (`_akt.zip`) archive is never skipped |
| Observations.KeptRows | brightsky/parsers.py:330-334 | only rows inside [MIN_DATE, MAX_DATE] are kept, in file order |
| Observations.ReaderRow | brightsky/parsers.py:330-345 | a skipped row yields nothing; a kept row yields a record with the row's time, the source label, the position in force and the row's element values |
| Observations.ParseReader | brightsky/parsers.py:329-345 | succeeds exactly when every row is readable; one record per kept row, in file order |
| Observations.ChosenAreKept | brightsky/parsers.py:330-334 | the rows that yield a record are exactly the rows the window keeps |
| Observations.Times | brightsky/parsers.py:343 | one timestamp per record |
| WindGusts.FirstMax | brightsky/parsers.py:509 | `max` with a key returns the first sample of greatest speed |
| WindGusts.MaxIndex | brightsky/parsers.py:509 | the chosen sample has the greatest speed and no earlier sample ties it |
| WindGusts.MakeRecord | brightsky/parsers.py:505-524 | the record carries the position in force (none in force fails) and both gust elements; with no samples both are None; otherwise it has the direction and speed of the first maximal sample |
| WindGusts.ReadRow | brightsky/parsers.py:483-491 | a row is read exactly when `MESS_DATUM` is present and parses and, if the row is kept, its element cells are present and readable; a row is kept exactly when its time plus one hour is inside the window; only kept rows with a truthy speed give a sample |
| WindGusts.Advance | brightsky/parsers.py:490-495 | one loop step: a row that does not close an hour appends its sample (if any) to the running hour and emits nothing; a kept row at minute 0 emits the record of the running hour plus its own sample, fails exactly when that record does, and empties the hour; the last time is the row's |
| WindGusts.Fold | brightsky/parsers.py:482-495 | the loop succeeds only when every row does; its last time is the last row's, kept or not |
| WindGusts.FoldTimes | brightsky/parsers.py:492-495 | the loop emits records exactly at the kept rows at minute 0, in order |
| WindGusts.FoldKeepsPrefix | brightsky/parsers.py:493-494 | the loop only appends records |
| WindGusts.FoldAppends | brightsky/parsers.py:493-495 | every record the loop appends has the gust shape |
| WindGusts.ReadAll | brightsky/parsers.py:482-491 | one reading per row after the first |
| WindGusts.HourMarks | brightsky/parsers.py:485-492 | the hour-closing times are at minute 0 and inside the shifted window |
| WindGusts.MarksOfRows | brightsky/parsers.py:482-492 | the loop's hour-closing times are the kept rows at minute 0 |
| WindGusts.EndMark | brightsky/parsers.py:497-502 | a last row at minute 50 adds one record, ten minutes later at minute 0 |
| WindGusts.EndOfFile | brightsky/parsers.py:496-503 | a recent file adds nothing; a historical file with no row after the first fails with the unbound `timestamp`; a historical file whose last row is at minute 50 adds one record ten minutes later |
| WindGusts.EndOfFileTimes | brightsky/parsers.py:496-503 | the end-of-file step adds only the record at the end mark |
| WindGusts.FinishGusts | brightsky/parsers.py:482-503 | every record of a finished file has the gust shape |
| WindGusts.FinishGustsRecentTimes | brightsky/parsers.py:482-495 | a recent file's records are at the hour-closing times |
| WindGusts.FinishGustsHistoricalTimes | brightsky/parsers.py:482-503 | a historical file's records are at the hour-closing times, plus the end mark of the last row |
| WindGusts.TimesAppend | brightsky/parsers.py:493-503 | the times of appended records follow the earlier ones |
| WindGusts.ParseGusts | brightsky/parsers.py:477-503 | succeeds exactly when the file has a header row, every row after it is read and the reference records of those readings exist; an empty file fails on `next`; a historical file with only one row fails; every record has the gust shape |
| WindGusts.ReadsAllSucceeds | brightsky/parsers.py:482-503 | after the header, the loop and end-of-file step succeed exactly when every row is read and the reference records of the readings exist |
| WindGusts.FinishGustsSucceeds | brightsky/parsers.py:482-503 | the loop and end-of-file step succeed exactly when every reading succeeds and the reference records exist |
| WindGusts.ParseGustsTimes | brightsky/parsers.py:477-503 | records are at the hour-closing rows in the window, in row order, plus for a historical file whose last row is at minute 50 one record ten minutes after it |
| WindGusts.SampleOf | brightsky/parsers.py:490-491 | a reading contributes exactly its own sample when it carries one (only kept rows with a truthy speed do) and nothing otherwise; a valid reading's sample is truthy |
| WindGusts.FirstClosing | brightsky/parsers.py:490-495 | the position of the first reading that closes an hour (kept, at minute 0), or none when no reading does |
| WindGusts.HourRecords | brightsky/parsers.py:490-495 | the reference hour records: none without a closing reading; otherwise the first record is `_make_record` at the first closing reading over the samples before it and its own, followed by the records of the readings after it |
| WindGusts.Leftover | brightsky/parsers.py:490-495 | the samples after the last closing reading, all of them when no reading closes an hour |
| WindGusts.HourRecordsStep | brightsky/parsers.py:490-491 | a reading that does not close an hour only moves its sample into the running hour, for both the records and the leftover |
| WindGusts.HourRecordsClose | brightsky/parsers.py:492-495 | a closing reading emits the record of the running hour plus its own sample, then starts an empty hour |
| WindGusts.FoldIsHourRecords | brightsky/parsers.py:482-495 | the loop succeeds exactly when the reference hour records do; it appends exactly those records and keeps the leftover samples |
| WindGusts.GustRecords | brightsky/parsers.py:482-503 | the reference records of a file: a historical file with no reading fails; every record has the gust shape and the hour records come first |
| WindGusts.AppendRecord | brightsky/parsers.py:497-502 | appending the record of an hour succeeds exactly when `_make_record` does, keeps the earlier records and adds that one record at the end |
| WindGusts.EndOfFileCases | brightsky/parsers.py:496-503 | the end-of-file step adds nothing to a recent file, fails with the unbound `timestamp` when no row was read, and otherwise adds the record ten minutes after a last row at minute 50 and nothing after any other |
| WindGusts.GustRecordsCases | brightsky/parsers.py:482-503 | the reference records are the hour records followed by the same end-of-file cases over the leftover samples |
| WindGusts.EndOfFileIsTail | brightsky/parsers.py:496-503 | after the loop, the end-of-file step gives the reference records, by success and by value |
| WindGusts.FinishGustsIsGustRecords | brightsky/parsers.py:482-503 | the loop and end-of-file step together compute the reference records, by success and by value |
| WindGusts.ParseGustsHours | brightsky/parsers.py:477-503 | every row after the header of a parsed gust file is read, and its records are the reference records of the readings of its rows after the first: each record is `_make_record` over the samples since the previous hour-closing row up to and including its own |
| ObservationArchive.Open | brightsky/parsers.py:302 | opening a member fails exactly when the archive lacks it |
| ObservationArchive.ParseRecords | brightsky/parsers.py:318-327 | any product count other than one fails with the assertion; with one product it succeeds exactly when that member exists and, for an hourly archive, every row is valid, or, for a gust archive, every row is read and the reference records exist; an hourly archive yields one record per kept row, each labelled with the member's name |
| ObservationArchive.Tag | brightsky/parsers.py:279-284 | every record gets the observation type and both station ids |
| ObservationArchive.GeographySource | brightsky/parsers.py:473-475 | the geography member is read from the archive itself, or for the gust parser from the metadata archive, which must be present |
| ObservationArchive.ArchiveRows | brightsky/parsers.py:301-327 | succeeds exactly when the geography member exists in its archive, its rows give a history, and the product records parse against that history; the rows are those records |
| ObservationArchive.ParseArchive | brightsky/parsers.py:272-284 | succeeds exactly when the station id, the observation type and the archive's rows all succeed; a station id, an observation type and exactly one product member are required; record j is row j of the archive tagged with the type, the station id and its WMO id |
| Observations.AllRowsKept | brightsky/parsers.py:330-334 | when every row lies in the window, every row is kept |
| ObservationArchive.ArchiveDescriptor | brightsky/parsers.py:563-579 | a name the dispatcher gives an observation parser selects that parser's tables |
| Tasks.ParseFile | brightsky/tasks.py:13-26 | no path and no url fails with ValueError; no parser fails with TypeError; the parser is chosen from the base name of the path, else of the url; a fingerprint exists exactly when a url is given, its own keys winning over `url` |
| Tasks.ParseTask | brightsky/tasks.py:13-31 | the call returns or raises what the parse does, with the parser of the chosen base name; a successful call downloads a given url, cleans up and then exports when asked; a failing parse leaves the download done (it runs before the parse) and runs no cleanup and no export |
| Tasks.CleanupOnlyOnSuccess | brightsky/tasks.py:26-27 | the cleanup runs exactly when the parse succeeds, and never twice |
| Tasks.Effects | brightsky/tasks.py:18-30 | download comes first exactly when a url is given; one cleanup; export comes last, exactly when asked, with the fingerprint |
| Tasks.EffectsShape | brightsky/tasks.py:18-30 | the single cleanup comes after the download and before the export |
| Tasks.EffectsExport | brightsky/tasks.py:28-30 | exporting only appends the export step |
| Tasks.ExportKeepsRecords | brightsky/tasks.py:26-31 | the same result whether or not export is requested; on success only the trailing export step is added, on failure the effects are the same |
| Tasks.PathDecidesParser | brightsky/tasks.py:16 | when a path is given, the parser is the one of the path's base name, whatever the url |
| Tasks.PendingUrls | brightsky/tasks.py:41-42 | the pending urls are the first arguments of the pending `process` tasks; a `process` task without arguments fails |
| Tasks.Selected | brightsky/tasks.py:44-51 | the selection is no longer than the updated files |
| Tasks.SelectedMembers | brightsky/tasks.py:44-51 | a url is selected exactly when it is updated, not pending and not locked |
| Tasks.NothingSelected | brightsky/tasks.py:46-51 | when every updated url is pending or locked, nothing is selected |
| Tasks.Urls | brightsky/tasks.py:54 | one url per `process` call |
| Tasks.UrlsAt | brightsky/tasks.py:54 | the i-th call's url |
| Tasks.EnqueueLoop | brightsky/tasks.py:44-55 | every call is for an updated url that is neither pending nor locked, with its parser's priority; the count equals the number of calls; the only failure is the lookup of `PRIORITY` on None |
| Tasks.AllParsedCons | brightsky/tasks.py:53-54 | every url has a parser exactly when the head does and the rest all do |
| Tasks.EnqueueLoopCompletes | brightsky/tasks.py:44-55 | the loop completes exactly when every selected url has a parser, and then calls `process` for the selected urls in input order |
| Tasks.EnqueueLoopStops | brightsky/tasks.py:53-54 | a failing loop has called `process` for a proper prefix of the selection, and the next selected url has no parser |
| Tasks.EnqueueLoopFollowsSelected | brightsky/tasks.py:44-55 | both outcomes of the loop, against the selection |
| Tasks.PollWith | brightsky/tasks.py:34-57 | `poll`, for any parser lookup (`poll` itself uses `get_parser` on the base name): without enqueueing, no calls are made and the updated files are returned; with it, `process` is called in input order for exactly the selected urls, with their parsers' priorities, and the count equals the calls; a url without a parser stops the loop after the earlier calls |
| Tasks.DuplicateEnqueuedTwice | brightsky/tasks.py:41-55 | a url listed twice in one poll is enqueued twice, since the pending snapshot is not updated |
| Tasks.ProcessTasks | brightsky/tasks.py:54 | the pending `process` tasks the calls create, one per call |
| Tasks.SecondPollEnqueuesNothing | brightsky/tasks.py:41-48 | polling the same files again, with the tasks just enqueued pending, enqueues nothing |

## Left out

- Downloading, cache paths, file removal, and reading zip, KML/XML and CSV files are not modelled (`brightsky/parsers.py:40-60, 95-110`). Decoded archives, placemarks and rows are inputs. CSV quoting is not modelled: a series token is read up to its first comma.
- The separate download of the gust parser's metadata archive is not modelled. The metadata archive is an optional input; without one, `parse` fails as the source does.
- The following are `Env` functions with no fixed meaning, so the properties hold for every choice:
  - `load_location` (a database query);
  - the DWD/WMO id mappings and `dwd_fingerprint` (their files are not part of this model);
  - the unit converters of `brightsky/units.py`;
  - the barometric formula with its rounding;
  - `float()` and `strptime`.
- Time zones and calendar arithmetic are not modelled. Timestamps are minutes, and "plus one hour" is `+ 60`.
- `\w` and `\d` are modelled as ASCII only. Python also matches other Unicode letters and digits.
- `huey.expire_locks`, `huey.pending`, `huey.is_locked` and the locking of tasks are library concurrency. The pending tasks are a sequence and the locks a set, both taken before the loop.
- The logging in `parse` and `poll` is not modelled.
- `tasks.clean` is not modelled: it deletes rows from the database.
- `brightsky/worker.py` and `scripts/benchmark.py` are not modelled: they are task wiring and a benchmark tool.
- `tasks.parse` runs the parser's `download`, `cleanup` and `export`. The model records them as effect labels, in order. A failure inside the download, the cleanup or the export itself is not modelled.
- A parser that fails part-way through a generator is modelled as the whole call failing. The model does not keep the records yielded before the failure.
- Tasks.Selected: its own contract only bounds the length. Membership is stated by Tasks.SelectedMembers and the order by Tasks.EnqueueLoopCompletes.
- Floats are modelled as exact `real` numbers, with no NaN and no infinity. A `float()` that would give NaN or infinity, and the `int()` of such a value that Python rejects, cannot occur in the model.
- Tasks.PollWith: the updated files are reduced to their urls, and the poll returns those urls rather than the poller's file dicts with their other fields.
- Behaviour of the code that the model keeps:
  - Historical cloud cover ignores the codes `-1` and `9`. The codes `112`, `113` and `126` belong to the current observation parser.
  - Among the observation parsers, only visibility and wind direction are cast to `int`.
  - When no position is in force, unpacking `None` raises a `TypeError`; the position is not left unresolved.
  - Every observation record's source is labelled `Observations:Recent:` followed by the member name, even in historical archives.
  - The extra record at the end of a historical gust file is not tested against the window.
