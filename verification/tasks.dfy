/** The two task entry points around the parsers: `parse`, which picks a
    parser for one file, runs it and optionally exports, and `poll`, which
    enqueues a processing job for every updated file that is neither queued
    nor running. */
module Tasks {
  import opened Wrappers
  import opened Text
  import opened Dispatch

  // ---------------------------------------------------------------------
  // parse

  /** Python truthiness of the `path` and `url` arguments; an argument that
      is not given is the empty string, which is as false as None. */
  predicate Given(s: string) {
    |s| > 0
  }

  /** The name the parser is chosen from: the path when given, else the url. */
  function ChosenName(path: string, url: string): string {
    if Given(path) then path else url
  }

  /** The collaborators of `parse`: where a url is cached, the fingerprint
      of a downloaded file, and the chosen parser run on the local file. */
  datatype TaskEnv<R> = TaskEnv(
    cachePath: string -> string,
    fileFingerprint: string -> map<string, string>,
    parseFile: (ParserKind, string) -> Result<seq<R>>)

  /** The side effects of `parse`, in the order they happen. */
  datatype Effect =
    | Download(url: string, path: string)
    | Cleanup
    | Export(fingerprint: Option<map<string, string>>)

  /** What a call of `parse` did: the side effects that ran, in order,
      and what it returned or raised. */
  datatype TaskRun<R> = TaskRun(effects: seq<Effect>, result: Result<Parsed<R>>)

  /** The local file the parser reads: the given path, else the cache path
      of the url. */
  function LocalFile<R>(te: TaskEnv<R>, path: string, url: string): string {
    if Given(path) then path else te.cachePath(url)
  }

  /** The part of `tasks.parse` before cleanup: the parser, its records
      and the fingerprint. */
  datatype Parsed<R> = Parsed(kind: ParserKind, records: seq<R>, fingerprint: Option<map<string, string>>)

  /** `tasks.parse` up to the cleanup.  No path and no url is a ValueError;
      a name no parser matches leaves `None` to be called (TypeError); a
      given url is downloaded and fingerprinted, the fingerprint's own keys
      winning over `url`; a failing parse propagates. */
  function ParseFile<R>(te: TaskEnv<R>, path: string, url: string): (r: Result<Parsed<R>>)
    ensures !Given(path) && !Given(url) ==> r == Failure(ValueError("Please provide either path or url"))
    ensures (Given(path) || Given(url)) && GetParser(Basename(ChosenName(path, url))).None? ==>
      r == Failure(TypeError("'NoneType' object is not callable"))
    ensures r.Success? <==>
      && (Given(path) || Given(url))
      && GetParser(Basename(ChosenName(path, url))).Some?
      && te.parseFile(GetParser(Basename(ChosenName(path, url))).value, LocalFile(te, path, url)).Success?
    ensures r.Success? ==> Some(r.value.kind) == GetParser(Basename(ChosenName(path, url)))
    ensures r.Success? ==> r.value.records == te.parseFile(r.value.kind, LocalFile(te, path, url)).value
    ensures r.Success? ==> (r.value.fingerprint.Some? <==> Given(url))
    ensures r.Success? && Given(url) ==>
      var fp := r.value.fingerprint.value;
      var own := te.fileFingerprint(LocalFile(te, path, url));
      && fp.Keys == {"url"} + own.Keys
      && (forall k :: k in own ==> fp[k] == own[k])
      && ("url" !in own ==> fp["url"] == url)
  {
    if !Given(path) && !Given(url) then Failure(ValueError("Please provide either path or url"))
    else match GetParser(Basename(ChosenName(path, url)))
      case None => Failure(TypeError("'NoneType' object is not callable"))
      case Some(kind) =>
        var file := LocalFile(te, path, url);
        var fingerprint := if Given(url) then Some(map["url" := url] + te.fileFingerprint(file)) else None;
        var records :- te.parseFile(kind, file);
        Success(Parsed(kind, records, fingerprint))
  }

  /** Whether `parse` reaches the download: a url is given and a parser
      was found for the chosen name. */
  predicate Downloads(path: string, url: string) {
    Given(url) && GetParser(Basename(ChosenName(path, url))).Some?
  }

  /** `tasks.parse`: the result is that of the parse; the download of a
      given url happens before the parse, so a failing parse leaves it done
      and skips the cleanup (there is no `finally`); a successful parse is
      cleaned up and then exported when asked. */
  function ParseTask<R>(te: TaskEnv<R>, path: string, url: string, exporting: bool): (r: TaskRun<R>)
    ensures r.result == ParseFile(te, path, url)
    ensures r.result.Success? ==> Some(r.result.value.kind) == GetParser(Basename(ChosenName(path, url)))
    ensures r.result.Success? ==>
      r.effects == Effects(url, LocalFile(te, path, url), exporting, r.result.value.fingerprint)
    ensures r.result.Failure? ==>
      r.effects == if Downloads(path, url) then [Download(url, LocalFile(te, path, url))] else []
  {
    var fetched := if Downloads(path, url) then [Download(url, LocalFile(te, path, url))] else [];
    match ParseFile(te, path, url)
    case Failure(e) => TaskRun(fetched, Failure(e))
    case Success(p) =>
      var post := if exporting then [Export(p.fingerprint)] else [];
      assert fetched + [Cleanup] + post == Effects(url, LocalFile(te, path, url), exporting, p.fingerprint);
      TaskRun(fetched + [Cleanup] + post, Success(p))
  }

  /** The cleanup runs exactly when the parse succeeds, and then once. */
  lemma CleanupOnlyOnSuccess<R>(te: TaskEnv<R>, path: string, url: string, exporting: bool)
    ensures Cleanup in ParseTask(te, path, url, exporting).effects <==> ParseTask(te, path, url, exporting).result.Success?
    ensures forall i, j :: 0 <= i < j < |ParseTask(te, path, url, exporting).effects| ==>
      !(ParseTask(te, path, url, exporting).effects[i] == Cleanup && ParseTask(te, path, url, exporting).effects[j] == Cleanup)
  {
  }

  /** Exporting changes nothing but the one trailing export effect: the
      same result, the same effects on failure, and on success the export
      appended. */
  lemma ExportKeepsRecords<R>(te: TaskEnv<R>, path: string, url: string)
    ensures ParseTask(te, path, url, true).result == ParseTask(te, path, url, false).result
    ensures ParseTask(te, path, url, true).result.Failure? ==>
      ParseTask(te, path, url, true).effects == ParseTask(te, path, url, false).effects
    ensures ParseTask(te, path, url, true).result.Success? ==>
      ParseTask(te, path, url, true).effects ==
        ParseTask(te, path, url, false).effects + [Export(ParseTask(te, path, url, false).result.value.fingerprint)]
  {
    if ParseFile(te, path, url).Success? {
      var fp := ParseFile(te, path, url).value.fingerprint;
      EffectsExport(url, LocalFile(te, path, url), fp);
    }
  }

  /** Asking for the export appends it and changes nothing else. */
  lemma EffectsExport(url: string, file: string, fingerprint: Option<map<string, string>>)
    ensures Effects(url, file, true, fingerprint) == Effects(url, file, false, fingerprint) + [Export(fingerprint)]
  {
    var pre := if Given(url) then [Download(url, file)] else [];
    assert Effects(url, file, true, fingerprint) == pre + [Cleanup] + [Export(fingerprint)];
    assert Effects(url, file, false, fingerprint) == pre + [Cleanup] + [];
  }

  /** The side effects of a successful `parse`: the download of a given
      url first, then the cleanup, exactly once, then the export when asked
      for, last. */
  function Effects(url: string, file: string, exporting: bool, fingerprint: Option<map<string, string>>)
    : (es: seq<Effect>)
    ensures |es| == (if Given(url) then 1 else 0) + 1 + (if exporting then 1 else 0)
    ensures es[0].Download? <==> Given(url)
    ensures Given(url) ==> es[0] == Download(url, file)
    ensures var c := if Given(url) then 1 else 0;
      && es[c] == Cleanup
      && forall i :: 0 <= i < |es| && es[i] == Cleanup ==> i == c
    ensures es[|es| - 1].Export? <==> exporting
    ensures exporting ==> es[|es| - 1] == Export(fingerprint)
  {
    var pre := if Given(url) then [Download(url, file)] else [];
    var post := if exporting then [Export(fingerprint)] else [];
    EffectsShape(pre + [Cleanup] + post, pre, post);
    pre + [Cleanup] + post
  }

  lemma EffectsShape(es: seq<Effect>, pre: seq<Effect>, post: seq<Effect>)
    requires es == pre + [Cleanup] + post
    requires |pre| <= 1 && |post| <= 1
    requires forall i :: 0 <= i < |pre| ==> pre[i].Download?
    requires forall i :: 0 <= i < |post| ==> post[i].Export?
    ensures es[|pre|] == Cleanup
    ensures forall i :: 0 <= i < |es| && es[i] == Cleanup ==> i == |pre|
  {
  }

  /** A given path decides the parser, whatever the url: the one of the
      path's base name. */
  lemma PathDecidesParser<R>(te: TaskEnv<R>, path: string, url: string, exporting: bool)
    requires Given(path)
    ensures ParseTask(te, path, url, exporting).result.Success? ==>
      Some(ParseTask(te, path, url, exporting).result.value.kind) == GetParser(Basename(path))
  {
  }

  // ---------------------------------------------------------------------
  // poll

  /** A task in the queue's pending snapshot. */
  datatype Task = Task(name: string, args: seq<string>)

  /** `[t.args[0] for t in huey.pending() if t.name == 'process']`; a
      `process` task without arguments raises IndexError. */
  function PendingUrls(tasks: seq<Task>): (r: Result<seq<string>>)
    ensures r.Success? <==> forall i :: 0 <= i < |tasks| && tasks[i].name == "process" ==> |tasks[i].args| > 0
    ensures r.Success? ==> forall u :: u in r.value <==>
      exists i :: 0 <= i < |tasks| && tasks[i].name == "process" && tasks[i].args[0] == u
  {
    if |tasks| == 0 then Success([])
    else
      assert forall i :: 1 <= i < |tasks| ==> tasks[i] == tasks[1..][i - 1];
      var rest :- PendingUrls(tasks[1..]);
      if tasks[0].name != "process" then Success(rest)
      else if |tasks[0].args| == 0 then Failure(IndexError("list index out of range"))
      else
        assert forall u :: u in rest ==> exists i :: 0 <= i < |tasks| && tasks[i].name == "process" && tasks[i].args[0] == u by {
          forall u | u in rest
            ensures exists i :: 0 <= i < |tasks| && tasks[i].name == "process" && tasks[i].args[0] == u
          {
            var i :| 0 <= i < |tasks[1..]| && tasks[1..][i].name == "process" && tasks[1..][i].args[0] == u;
            assert tasks[i + 1] == tasks[1..][i];
          }
        }
        Success([tasks[0].args[0]] + rest)
  }

  /** The updated files `poll` would enqueue, in order: those neither pending
      nor locked (a reference filter, without parsers or priorities). */
  function Selected(urls: seq<string>, pending: seq<string>, locked: set<string>): (sel: seq<string>)
    ensures |sel| <= |urls|
  {
    if |urls| == 0 then []
    else if urls[0] in pending || urls[0] in locked then Selected(urls[1..], pending, locked)
    else [urls[0]] + Selected(urls[1..], pending, locked)
  }

  /** A url is selected exactly when it is updated, not pending and not
      locked. */
  lemma {:induction false} SelectedMembers(urls: seq<string>, pending: seq<string>, locked: set<string>, u: string)
    ensures u in Selected(urls, pending, locked) <==> u in urls && u !in pending && u !in locked
    decreases |urls|
  {
    if |urls| > 0 {
      SelectedMembers(urls[1..], pending, locked, u);
      assert urls == [urls[0]] + urls[1..];
    }
  }

  /** The urls of a sequence of enqueue calls. */
  function Urls(calls: seq<(string, int)>): (us: seq<string>)
    ensures |us| == |calls|
  {
    if |calls| == 0 then [] else [calls[0].0] + Urls(calls[1..])
  }

  /** The i-th url is the i-th call's. */
  lemma {:induction false} UrlsAt(calls: seq<(string, int)>, i: nat)
    requires i < |calls|
    ensures Urls(calls)[i] == calls[i].0
    decreases i
  {
    if i > 0 {
      UrlsAt(calls[1..], i - 1);
    }
  }

  /** The parser `poll` looks up for a url: by its base name. */
  function ParserFor(url: string): Option<ParserKind> {
    GetParser(Basename(url))
  }

  /** The priority `process` is called with for a url, when a parser
      matches its base name. */
  predicate HasPriority(parserOf: string -> Option<ParserKind>, url: string, priority: int) {
    parserOf(url).Some? && priority == Priority(parserOf(url).value)
  }

  /** What the enqueue loop did: its `process` calls in order, the value of
      its counter, and the exception that stopped it, if any. */
  datatype LoopRun = LoopRun(calls: seq<(string, int)>, count: nat, error: Option<Error>)

  /** The enqueue loop over the updated urls: skip a pending url, skip a
      locked url, otherwise look up the parser's priority (a name no parser
      matches fails on `None.PRIORITY`, after the calls already made),
      call `process` and count it. */
  function EnqueueLoop(parserOf: string -> Option<ParserKind>, urls: seq<string>, pending: seq<string>,
                       locked: set<string>, count: nat): (r: LoopRun)
    ensures r.count == count + |r.calls|
    ensures forall i :: 0 <= i < |r.calls| ==>
      && r.calls[i].0 in urls && r.calls[i].0 !in pending && r.calls[i].0 !in locked
      && HasPriority(parserOf, r.calls[i].0, r.calls[i].1)
    ensures r.error.Some? ==> r.error.value.AttributeError?
    decreases |urls|
  {
    if |urls| == 0 then LoopRun([], count, None)
    else
      var url := urls[0];
      if url in pending || url in locked then EnqueueLoop(parserOf, urls[1..], pending, locked, count)
      else match parserOf(url)
        case None =>
          LoopRun([], count, Some(AttributeError("'NoneType' object has no attribute 'PRIORITY'")))
        case Some(kind) =>
          var rest := EnqueueLoop(parserOf, urls[1..], pending, locked, count + 1);
          LoopRun([(url, Priority(kind))] + rest.calls, rest.count, rest.error)
  }

  /** Every url of `us` has a parser. */
  predicate AllParsed(parserOf: string -> Option<ParserKind>, us: seq<string>) {
    forall i :: 0 <= i < |us| ==> parserOf(us[i]).Some?
  }

  /** A list has a parser for every url exactly when its head and its
      tail do. */
  lemma AllParsedCons(parserOf: string -> Option<ParserKind>, u: string, us: seq<string>)
    ensures AllParsed(parserOf, [u] + us) <==> parserOf(u).Some? && AllParsed(parserOf, us)
  {
    assert ([u] + us)[0] == u;
    assert forall k :: 0 <= k < |us| ==> us[k] == ([u] + us)[k + 1];
  }

  /** The loop finishes exactly when every selected url has a parser, and
      then calls `process` for the selected urls in order. */
  lemma {:induction false} EnqueueLoopCompletes(parserOf: string -> Option<ParserKind>, urls: seq<string>,
                                                pending: seq<string>, locked: set<string>, count: nat)
    ensures var r := EnqueueLoop(parserOf, urls, pending, locked, count);
      var sel := Selected(urls, pending, locked);
      && (r.error.None? <==> AllParsed(parserOf, sel))
      && (r.error.None? ==> Urls(r.calls) == sel)
    decreases |urls|
  {
    if |urls| > 0 {
      var url := urls[0];
      var skip := url in pending || url in locked;
      var sel1 := Selected(urls[1..], pending, locked);
      EnqueueLoopCompletes(parserOf, urls[1..], pending, locked, if skip then count else count + 1);
      if skip {
        assert EnqueueLoop(parserOf, urls, pending, locked, count) == EnqueueLoop(parserOf, urls[1..], pending, locked, count);
        assert Selected(urls, pending, locked) == sel1;
      } else {
        assert Selected(urls, pending, locked) == [url] + sel1;
        AllParsedCons(parserOf, url, sel1);
        if parserOf(url).Some? {
          var rest := EnqueueLoop(parserOf, urls[1..], pending, locked, count + 1);
          var calls := [(url, Priority(parserOf(url).value))] + rest.calls;
          assert EnqueueLoop(parserOf, urls, pending, locked, count) == LoopRun(calls, rest.count, rest.error);
          assert calls[1..] == rest.calls;
          assert Urls(calls) == [url] + Urls(rest.calls);
        } else {
          assert EnqueueLoop(parserOf, urls, pending, locked, count).error.Some?;
          assert ([url] + sel1)[0] == url;
        }
      }
    }
  }

  /** A failing loop has called `process` for a proper prefix of the
      selected urls, and the next selected url has no parser. */
  lemma {:induction false} EnqueueLoopStops(parserOf: string -> Option<ParserKind>, urls: seq<string>,
                                            pending: seq<string>, locked: set<string>, count: nat)
    ensures var r := EnqueueLoop(parserOf, urls, pending, locked, count);
      var sel := Selected(urls, pending, locked);
      r.error.Some? ==>
        && |r.calls| < |sel|
        && Urls(r.calls) == sel[..|r.calls|]
        && parserOf(sel[|r.calls|]).None?
    decreases |urls|
  {
    if |urls| > 0 {
      var url := urls[0];
      var skip := url in pending || url in locked;
      var sel1 := Selected(urls[1..], pending, locked);
      EnqueueLoopStops(parserOf, urls[1..], pending, locked, if skip then count else count + 1);
      if skip {
        assert EnqueueLoop(parserOf, urls, pending, locked, count) == EnqueueLoop(parserOf, urls[1..], pending, locked, count);
        assert Selected(urls, pending, locked) == sel1;
      } else {
        assert Selected(urls, pending, locked) == [url] + sel1;
        if parserOf(url).Some? {
          var rest := EnqueueLoop(parserOf, urls[1..], pending, locked, count + 1);
          var calls := [(url, Priority(parserOf(url).value))] + rest.calls;
          assert calls[1..] == rest.calls;
          assert Urls(calls) == [url] + Urls(rest.calls);
          if rest.error.Some? {
            assert ([url] + sel1)[..|rest.calls| + 1] == [url] + sel1[..|rest.calls|];
            assert ([url] + sel1)[|rest.calls| + 1] == sel1[|rest.calls|];
          }
        } else {
          assert ([url] + sel1)[0] == url;
        }
      }
    }
  }

  /** The loop calls `process` for the selected urls in order: for all of
      them when it finishes, and up to the first selected url without a
      parser when it fails. */
  lemma EnqueueLoopFollowsSelected(parserOf: string -> Option<ParserKind>, urls: seq<string>,
                                   pending: seq<string>, locked: set<string>, count: nat)
    ensures var r := EnqueueLoop(parserOf, urls, pending, locked, count);
      var sel := Selected(urls, pending, locked);
      && (r.error.None? <==> forall i :: 0 <= i < |sel| ==> parserOf(sel[i]).Some?)
      && (r.error.None? ==> Urls(r.calls) == sel)
      && (r.error.Some? ==>
            && |r.calls| < |sel|
            && Urls(r.calls) == sel[..|r.calls|]
            && parserOf(sel[|r.calls|]).None?)
  {
    EnqueueLoopCompletes(parserOf, urls, pending, locked, count);
    EnqueueLoopStops(parserOf, urls, pending, locked, count);
  }

  /** What `poll` did: the `process` calls it made, in order, the count it
      logs (when it gets that far) and its return value or exception. */
  datatype PollRun = PollRun(calls: seq<(string, int)>, count: nat, result: Result<seq<string>>)

  /** `tasks.poll` on the poller's updated urls, the snapshot of pending
      tasks (taken once, before the loop) and the set of locked urls, with
      the parser of a url looked up by `parserOf`.  Without `enqueue` only
      the updated urls are returned. */
  function PollWith(parserOf: string -> Option<ParserKind>, enqueue: bool, updated: seq<string>,
                    tasks: seq<Task>, locked: set<string>): (r: PollRun)
    ensures !enqueue ==> r.calls == [] && r.result == Success(updated)
    ensures r.count == |r.calls|
    ensures r.result.Success? ==> r.result.value == updated
    ensures enqueue && PendingUrls(tasks).Failure? ==> r.calls == [] && r.result.Failure?
    ensures forall i :: 0 <= i < |r.calls| ==>
      && PendingUrls(tasks).Success?
      && r.calls[i].0 in updated
      && r.calls[i].0 !in PendingUrls(tasks).value
      && r.calls[i].0 !in locked
      && HasPriority(parserOf, r.calls[i].0, r.calls[i].1)
    ensures enqueue && r.result.Success? ==>
      && PendingUrls(tasks).Success?
      && Urls(r.calls) == Selected(updated, PendingUrls(tasks).value, locked)
    ensures enqueue && r.result.Failure? && PendingUrls(tasks).Success? ==>
      var sel := Selected(updated, PendingUrls(tasks).value, locked);
      && |r.calls| < |sel|
      && Urls(r.calls) == sel[..|r.calls|]
      && parserOf(sel[|r.calls|]).None?
  {
    if !enqueue then PollRun([], 0, Success(updated))
    else match PendingUrls(tasks)
      case Failure(e) => PollRun([], 0, Failure(e))
      case Success(pending) =>
        var run := EnqueueLoop(parserOf, updated, pending, locked, 0);
        EnqueueLoopFollowsSelected(parserOf, updated, pending, locked, 0);
        PollRun(run.calls, run.count, if run.error.Some? then Failure(run.error.value) else Success(updated))
  }

  /** `tasks.poll` itself: the parser of a url is the one `get_parser`
      picks for its base name. */
  function Poll(enqueue: bool, updated: seq<string>, tasks: seq<Task>, locked: set<string>): PollRun {
    PollWith(ParserFor, enqueue, updated, tasks, locked)
  }

  /** The pending snapshot is not updated inside the loop, so a url that
      appears twice in one poll result is enqueued twice. */
  lemma DuplicateEnqueuedTwice(parserOf: string -> Option<ParserKind>, url: string, tasks: seq<Task>,
                               locked: set<string>)
    requires PendingUrls(tasks).Success? && url !in PendingUrls(tasks).value && url !in locked
    requires parserOf(url).Some?
    ensures var p := Priority(parserOf(url).value);
      PollWith(parserOf, true, [url, url], tasks, locked).calls == [(url, p), (url, p)]
  {
    var pending := PendingUrls(tasks).value;
    var p := Priority(parserOf(url).value);
    assert Selected([url, url], pending, locked) == [url, url] by {
      assert [url, url][1..] == [url];
      assert [url][1..] == [];
    }
    var r := PollWith(parserOf, true, [url, url], tasks, locked);
    EnqueueLoopFollowsSelected(parserOf, [url, url], pending, locked, 0);
    assert r.result.Success?;
    assert |r.calls| == 2;
    UrlsAt(r.calls, 0);
    UrlsAt(r.calls, 1);
  }

  /** The `process` tasks the calls of a poll put in the queue. */
  function ProcessTasks(calls: seq<(string, int)>): (ts: seq<Task>)
    ensures |ts| == |calls|
    ensures forall i :: 0 <= i < |calls| ==> ts[i] == Task("process", [calls[i].0])
  {
    seq(|calls|, i requires 0 <= i < |calls| => Task("process", [calls[i].0]))
  }

  /** Once the jobs a poll enqueued are pending, the next poll of the same
      updated files, with the same locks, enqueues nothing. */
  lemma SecondPollEnqueuesNothing(parserOf: string -> Option<ParserKind>, updated: seq<string>,
                                  tasks: seq<Task>, locked: set<string>)
    requires PollWith(parserOf, true, updated, tasks, locked).result.Success?
    ensures var first := PollWith(parserOf, true, updated, tasks, locked);
      PollWith(parserOf, true, updated, tasks + ProcessTasks(first.calls), locked).calls == []
  {
    var first := PollWith(parserOf, true, updated, tasks, locked);
    var tasks2 := tasks + ProcessTasks(first.calls);
    var pending := PendingUrls(tasks).value;
    assert Urls(first.calls) == Selected(updated, pending, locked);
    assert PendingUrls(tasks2).Success? by {
      forall i | 0 <= i < |tasks2| && tasks2[i].name == "process"
        ensures |tasks2[i].args| > 0
      {
        if i < |tasks| { assert tasks2[i] == tasks[i]; }
      }
    }
    var pending2 := PendingUrls(tasks2).value;
    forall u | u in updated
      ensures u in pending2 || u in locked
    {
      if u in pending {
        var i :| 0 <= i < |tasks| && tasks[i].name == "process" && tasks[i].args[0] == u;
        assert tasks2[i] == tasks[i];
      } else if u !in locked {
        SelectedMembers(updated, pending, locked, u);
        var k :| 0 <= k < |first.calls| && Urls(first.calls)[k] == u;
        UrlsAt(first.calls, k);
        assert tasks2[|tasks| + k] == Task("process", [u]);
      }
    }
    NothingSelected(updated, pending2, locked);
    EnqueueLoopFollowsSelected(parserOf, updated, pending2, locked, 0);
  }

  /** When every updated url is pending or locked, nothing is selected. */
  lemma {:induction false} NothingSelected(urls: seq<string>, pending: seq<string>, locked: set<string>)
    requires forall u :: u in urls ==> u in pending || u in locked
    ensures Selected(urls, pending, locked) == []
    decreases |urls|
  {
    if |urls| > 0 {
      assert forall u :: u in urls[1..] ==> u in urls;
      NothingSelected(urls[1..], pending, locked);
    }
  }
}
