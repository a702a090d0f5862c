/** Whole runs of the pipeline: any sequence of imports and scans, each stopped after any of its
    statements. */
module ImportRuns {
  import opened Wrappers
  import opened ImportTables
  import opened Imports
  import opened Scans
  import opened ScanProperties

  datatype Operation =
    | SeriesImport(seriesJob: SeriesJob)
    | MovieImport(movieJob: MovieJob)
    | Scan(kind: Kind, rows: seq<LibraryRow>, entries: seq<Entry>)

  function Plan(t: Tables, op: Operation): seq<Statement> {
    match op
    case SeriesImport(job) => SeriesPlan(t, job)
    case MovieImport(job) => MoviePlan(t, job)
    case Scan(kind, rows, entries) => ScanPlan(kind, t, IndexOf(rows), entries)
  }

  /** An operation and the number of statements after which it stops; an operation whose plan is
      not longer than that completes. */
  datatype Call = Call(op: Operation, budget: nat)

  function Reach(t: Tables, c: Call): nat {
    if c.budget < |Plan(t, c.op)| then c.budget else |Plan(t, c.op)|
  }

  function AfterCall(t: Tables, c: Call): Tables {
    ApplyAll(t, Plan(t, c.op)[..Reach(t, c)])
  }

  function RunCalls(t: Tables, calls: seq<Call>): Tables
    decreases |calls|
  {
    if calls == [] then t else RunCalls(AfterCall(t, calls[0]), calls[1..])
  }

  predicate Completes(t: Tables, c: Call) {
    Reach(t, c) == |Plan(t, c.op)|
  }

  predicate AllComplete(t: Tables, calls: seq<Call>)
    decreases |calls|
  {
    calls == [] || (Completes(t, calls[0]) && AllComplete(AfterCall(t, calls[0]), calls[1..]))
  }

  lemma CallKeepsIntegrity(t: Tables, c: Call)
    requires Integrity(t)
    ensures Integrity(AfterCall(t, c))
    ensures Linked(t) && Completes(t, c) ==> Linked(AfterCall(t, c))
  {
    var n := Reach(t, c);
    match c.op
    case SeriesImport(job) =>
      SeriesImportKeepsIntegrity(t, job, n);
      if Linked(t) && Completes(t, c) {
        SeriesImportLinked(t, job, n);
        CompletedIsPast(t, job);
      }
    case MovieImport(job) => MovieImportKeeps(t, job, n);
    case Scan(kind, rows, entries) => ScanKeepsIntegrity(kind, t, IndexOf(rows), entries, n);
  }

  lemma CompletedIsPast(t: Tables, job: SeriesJob)
    ensures !BetweenUnlinkAndUnpoint(t, job, |SeriesPlan(t, job)|)
  {}

  /** Reference integrity over whole runs: after any sequence of imports and scans, wherever each of
      them was stopped, every reference names an existing file of the right type. */
  lemma {:induction false} RunsKeepIntegrity(t: Tables, calls: seq<Call>)
    requires Integrity(t)
    ensures Integrity(RunCalls(t, calls))
    decreases |calls|
  {
    if calls != [] {
      CallKeepsIntegrity(t, calls[0]);
      RunsKeepIntegrity(AfterCall(t, calls[0]), calls[1..]);
    }
  }

  /** In runs whose operations complete, every file pointer of an episode has its link. */
  lemma {:induction false} CompletedRunsKeepLinks(t: Tables, calls: seq<Call>)
    requires Integrity(t) && Linked(t) && AllComplete(t, calls)
    ensures Linked(RunCalls(t, calls))
    decreases |calls|
  {
    if calls != [] {
      CallKeepsIntegrity(t, calls[0]);
      CompletedRunsKeepLinks(AfterCall(t, calls[0]), calls[1..]);
    }
  }

  /** The rows of `media_files` after a complete series import. */
  lemma MediaAfterImport(t: Tables, job: SeriesJob)
    requires Integrity(t) && DecideSeries(t, job).Import?
    ensures var u := ApplyAll(t, SeriesPlan(t, job)); var replaced := DecideSeries(t, job).replaced;
      u.mediaFiles == (if replaced.Some? then t.mediaFiles - {replaced.value} else t.mediaFiles)
                      [t.nextId := MediaFile(SeriesFile, job.relativePath, job.size)]
  {
    var Import(e, replaced) := DecideSeries(t, job);
    TargetExists(t, job);
    var replace, add := ReplaceSeriesFile(replaced, job.recycles), AddSeriesFile(t, job, e);
    if replaced.Some? {
      ReplaceSeriesKeeps(t, e, job.recycles);
    }
    ApplyAllConcat(t, replace, add);
    MediaAfterAdd(t, ApplyAll(t, replace), job, e);
  }

  lemma MediaAfterAdd(t: Tables, u: Tables, job: SeriesJob, episode: int)
    requires u.nextId == t.nextId
    ensures ApplyAll(u, AddSeriesFile(t, job, episode)).mediaFiles
         == u.mediaFiles[t.nextId := MediaFile(SeriesFile, job.relativePath, job.size)]
  {
    var id := t.nextId;
    var head := [InsertMedia(MediaFile(SeriesFile, job.relativePath, job.size)), LinkEpisode(episode, id),
        PointEpisode(episode, id)];
    var numbers := if job.numbers == [] then [] else job.numbers[1..];
    var more := LinkNumbers(t, job.seriesId, job.season, numbers, id);
    ThreeSteps(u, head[0], head[1], head[2]);
    var u3 := ApplyAll(u, head);
    assert u3.mediaFiles == u.mediaFiles[id := head[0].file];
    LinkingKeeps(t, u3, job.seriesId, job.season, numbers, id);
    var u4 := ApplyAll(u3, more);
    ApplyAllConcat(u, head, more);
    ApplyAllConcat(u, head + more, [InsertHistory]);
    OneStep(u4, InsertHistory, []);
    NoStatements(u4, []);
    assert [InsertHistory] + [] == [InsertHistory];
    assert AddSeriesFile(t, job, episode) == head + more + [InsertHistory];
  }

  /** An import stores its file under the path below the series folder, a scan looks for the path
      below the library root. A file that a scan would have added before the import is recognised
      after it if and only if the two paths are the same; otherwise it is inserted once more. */
  lemma ImportedFileIsRecognised(t: Tables, job: SeriesJob, ix: Index, e: Entry)
    requires Integrity(t) && DecideSeries(t, job).Import?
    requires Classify(ix, TrackedPaths(t, SeriesFile), e).Fresh?
    ensures var u := ApplyAll(t, SeriesPlan(t, job));
      Classify(ix, TrackedPaths(u, SeriesFile), e) ==
      if e.place.value.relative == job.relativePath then Tracked else Classify(ix, TrackedPaths(t, SeriesFile), e)
  {
    MediaAfterImport(t, job);
    hide SeriesPlan, IsMedia, Owner, DecideSeries, Integrity;
    var u := ApplyAll(t, SeriesPlan(t, job));
    var path := e.place.value.relative;
    if path == job.relativePath {
      assert u.mediaFiles[t.nextId].path == path;
    }
  }

  // ----- Movies -----

  /** The rows of `media_files` after a complete movie import. */
  lemma MediaAfterMovieImport(t: Tables, job: MovieJob)
    requires Integrity(t) && DecideMovie(t, job).ImportMovie?
    ensures var u := ApplyAll(t, MoviePlan(t, job)); var replaced := DecideMovie(t, job).replaced;
      u.mediaFiles == (if replaced.Some? then t.mediaFiles - {replaced.value} else t.mediaFiles)
                      [t.nextId := MediaFile(MovieFile, job.relativePath, job.size)]
  {
    var ImportMovie(replaced) := DecideMovie(t, job);
    var replace, add := ReplaceMovieFile(replaced, job.recycles), AddMovieFile(t, job);
    ApplyAllConcat(t, replace, add);
    if replaced.Some? {
      MovieReplaced(t, replaced.value, job.recycles);
    }
    var u := ApplyAll(t, replace);
    ThreeSteps(u, add[0], add[1], add[2]);
  }

  lemma MovieReplaced(t: Tables, f: int, recycles: bool)
    ensures var u := ApplyAll(t, ReplaceMovieFile(Some(f), recycles));
      u.mediaFiles == t.mediaFiles - {f} && u.nextId == t.nextId
  {
    var tail := [UnpointMovies(f), DeleteMedia(f), InsertHistory];
    ThreeSteps(t, tail[0], tail[1], tail[2]);
    RecycleFirst(t, recycles, tail);
  }

  /** The same for movies: the path below the movie folder against the path below the library root. */
  lemma ImportedMovieIsRecognised(t: Tables, job: MovieJob, ix: Index, e: Entry)
    requires Integrity(t) && DecideMovie(t, job).ImportMovie?
    requires Classify(ix, TrackedPaths(t, MovieFile), e).Fresh?
    ensures var u := ApplyAll(t, MoviePlan(t, job));
      Classify(ix, TrackedPaths(u, MovieFile), e) ==
      if e.place.value.relative == job.relativePath then Tracked else Classify(ix, TrackedPaths(t, MovieFile), e)
  {
    MediaAfterMovieImport(t, job);
    hide MoviePlan, IsMedia, Owner, DecideMovie, Integrity;
    var u := ApplyAll(t, MoviePlan(t, job));
    if e.place.value.relative == job.relativePath {
      assert u.mediaFiles[t.nextId].path == job.relativePath;
    }
  }
}
