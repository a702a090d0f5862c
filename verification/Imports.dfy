/** Importing a downloaded file for an episode or a movie (`import_series_file` and
    `import_movie_file`): the statements each import issues, and what every prefix of them keeps. */
module Imports {
  import opened Wrappers
  import opened ImportTables

  /** How an import ends: finished, refused before any statement, or stopped by a failure. */
  datatype Result = Done | Skipped | Refused | Stopped

  /** What the download, the parser and the file system say about one file. `betterQuality` is the
      quality decision of the upgrade check, `rootExists` the root folder guard and `recycles`
      whether a recycle bin is configured. */
  datatype SeriesJob = SeriesJob(
    seriesKnown: bool,
    seriesId: int,
    queuedEpisode: Option<int>,
    season: Option<int>,
    numbers: seq<int>,
    betterQuality: bool,
    rootExists: bool,
    recycles: bool,
    relativePath: string,
    size: int)

  datatype MovieJob = MovieJob(
    movieId: int,
    betterQuality: bool,
    rootExists: bool,
    recycles: bool,
    relativePath: string,
    size: int)

  // ----- Series -----

  function FindEpisode(t: Tables, series: int, season: int, number: int): Option<int> {
    if (series, season, number) in t.episodeIndex then Some(t.episodeIndex[(series, season, number)]) else None
  }

  /** The episode named by the queue or else by the parsed file name. */
  function TargetEpisode(t: Tables, job: SeriesJob): Option<int> {
    match job.queuedEpisode
    case Some(e) => if e in t.episodes then Some(e) else None
    case None =>
      if job.season.Some? && job.numbers != []
      then FindEpisode(t, job.seriesId, job.season.value, job.numbers[0])
      else None
  }

  /** The file the upgrade check finds: the episode's pointer joined with `media_files`. */
  function ExistingFile(t: Tables, pointers: map<int, Option<int>>, id: int): Option<int> {
    if id in pointers && pointers[id].Some? && pointers[id].value in t.mediaFiles then pointers[id] else None
  }

  function Recycling(recycles: bool): seq<Statement> {
    if recycles then [InsertRecycled] else []
  }

  function ReplaceSeriesFile(replaced: Option<int>, recycles: bool): seq<Statement> {
    match replaced
    case None => []
    case Some(f) =>
      Recycling(recycles) + [UnlinkFile(f), UnpointEpisodes(f), DeleteMedia(f), InsertHistory]
  }

  /** The further episodes of a multi-episode file. */
  function LinkNumbers(t: Tables, series: int, season: Option<int>, numbers: seq<int>, fileId: int): seq<Statement> {
    if numbers == [] then []
    else
      (match season
       case None => []
       case Some(s) => LinkFound(FindEpisode(t, series, s, numbers[0]), fileId))
      + LinkNumbers(t, series, season, numbers[1..], fileId)
  }

  function LinkFound(episode: Option<int>, fileId: int): seq<Statement> {
    match episode
    case None => []
    case Some(e) => [LinkEpisode(e, fileId), PointFreeEpisode(e, fileId)]
  }

  function AddSeriesFile(t: Tables, job: SeriesJob, episode: int): seq<Statement> {
    var id := t.nextId;
    [InsertMedia(MediaFile(SeriesFile, job.relativePath, job.size)), LinkEpisode(episode, id),
        PointEpisode(episode, id)]
    + LinkNumbers(t, job.seriesId, job.season, if job.numbers == [] then [] else job.numbers[1..], id)
    + [InsertHistory]
  }

  /** Whether the import goes ahead, and with which episode and file to replace. */
  datatype SeriesDecision = NoSeries | NoEpisode | NotAnUpgrade | NoRoot | Import(episode: int, replaced: Option<int>)

  function DecideSeries(t: Tables, job: SeriesJob): SeriesDecision {
    if !job.seriesKnown then NoSeries
    else
      match TargetEpisode(t, job)
      case None => NoEpisode
      case Some(e) =>
        var existing := ExistingFile(t, t.episodes, e);
        if existing.Some? && !job.betterQuality then NotAnUpgrade
        else if existing.Some? && !job.rootExists then NoRoot
        else Import(e, existing)
  }

  function SeriesPlan(t: Tables, job: SeriesJob): seq<Statement> {
    match DecideSeries(t, job)
    case Import(e, replaced) => ReplaceSeriesFile(replaced, job.recycles) + AddSeriesFile(t, job, e)
    case _ => []
  }

  function SeriesResult(t: Tables, job: SeriesJob): Result {
    match DecideSeries(t, job)
    case Import(_, _) => Done
    case NoEpisode => Skipped
    case NotAnUpgrade => Skipped
    case _ => Refused
  }

  /** `db` has executed the first `n` statements of the plan made for the tables `t`. */
  ghost predicate Executed(db: Database, start: Tables, before: seq<Statement>, t: Tables, plan: seq<Statement>, n: nat)
    reads db
  {
    && db.Valid() && db.start == start
    && n <= |plan|
    && db.log == before + plan[..n]
    && db.tables == ApplyAll(t, plan[..n])
  }

  /** The next statement of the plan is executed, or the run stops for good. */
  method Perform(db: Database, ghost start: Tables, ghost before: seq<Statement>, ghost t: Tables,
                 ghost plan: seq<Statement>, ghost n: nat, s: Statement) returns (ok: bool)
    requires Executed(db, start, before, t, plan, n) && n < |plan| && s == plan[n]
    modifies db
    ensures ok == (old(db.budget) > 0)
    ensures Executed(db, start, before, t, plan, if ok then n + 1 else n)
    ensures !ok ==> db.budget == 0
    ensures db.tables.episodeIndex == old(db.tables.episodeIndex)
    ensures !s.InsertMedia? ==> db.tables.nextId == old(db.tables.nextId)
    ensures s.InsertMedia? && ok ==> db.tables.nextId == old(db.tables.nextId) + 1
  {
    ApplyAllConcat(t, plan[..n], [s]);
    assert plan[..n + 1] == plan[..n] + [s];
    ok := db.Execute(s);
  }

  /** The old records go, in the order of the plan. */
  method ReplaceOld(db: Database, ghost start: Tables, ghost before: seq<Statement>, ghost t: Tables,
                    ghost plan: seq<Statement>, recycles: bool, cleanup: seq<Statement>)
                        returns (ok: bool, ghost n: nat)
    requires Executed(db, start, before, t, plan, 0)
    requires Recycling(recycles) + cleanup <= plan && forall s <- cleanup :: !s.InsertMedia?
    modifies db
    ensures Executed(db, start, before, t, plan, n)
    ensures if ok then n == |Recycling(recycles) + cleanup| else db.budget == 0
    ensures db.tables.episodeIndex == old(db.tables.episodeIndex) && db.tables.nextId == old(db.tables.nextId)
  {
    n := 0;
    ok := true;
    ghost var whole := Recycling(recycles) + cleanup;
    assert forall i :: 0 <= i < |whole| ==> plan[i] == whole[i];
    if recycles {
      ok := Perform(db, start, before, t, plan, n, InsertRecycled);
      if !ok { return; }
      n := n + 1;
    }
    for i := 0 to |cleanup|
      invariant ok && n == |Recycling(recycles)| + i && Executed(db, start, before, t, plan, n)
      invariant db.tables.episodeIndex == old(db.tables.episodeIndex) && db.tables.nextId == old(db.tables.nextId)
    {
      assert plan[n] == whole[n] == cleanup[i];
      assert cleanup[i] in cleanup;
      ok := Perform(db, start, before, t, plan, n, cleanup[i]);
      if !ok { return; }
      n := n + 1;
    }
  }

  /** The further episodes of the file are linked, in the order of the plan. */
  method LinkMore(db: Database, ghost start: Tables, ghost before: seq<Statement>, ghost t: Tables,
                  ghost plan: seq<Statement>, ghost from: nat, series: int, season: Option<int>, numbers: seq<int>,
                  fileId: int) returns (ok: bool, ghost n: nat)
    requires Executed(db, start, before, t, plan, from) && db.tables.episodeIndex == t.episodeIndex
    requires LinkNumbers(t, series, season, numbers, fileId) <= plan[from..]
    modifies db
    ensures Executed(db, start, before, t, plan, n)
    ensures if ok then n == from + |LinkNumbers(t, series, season, numbers, fileId)| else db.budget == 0
    ensures db.tables.episodeIndex == t.episodeIndex && db.tables.nextId == old(db.tables.nextId)
  {
    n := from;
    ok := true;
    ghost var whole := LinkNumbers(t, series, season, numbers, fileId);
    assert numbers[0..] == numbers;
    for i := 0 to |numbers|
      invariant ok && Executed(db, start, before, t, plan, n)
      invariant db.tables.episodeIndex == t.episodeIndex && db.tables.nextId == old(db.tables.nextId)
      invariant LinkNumbers(t, series, season, numbers[i..], fileId) <= plan[n..]
      invariant n + |LinkNumbers(t, series, season, numbers[i..], fileId)| == from + |whole|
    {
      assert numbers[i..][1..] == numbers[i + 1..];
      ghost var rest := LinkNumbers(t, series, season, numbers[i + 1..], fileId);
      if season.Some? {
        var extra := FindEpisode(db.tables, series, season.value, numbers[i]);
        if extra.Some? {
          NextTwo(plan, n, LinkEpisode(extra.value, fileId), PointFreeEpisode(extra.value, fileId), rest);
          ok := Perform(db, start, before, t, plan, n, LinkEpisode(extra.value, fileId));
          if !ok { return; }
          n := n + 1;
          ok := Perform(db, start, before, t, plan, n, PointFreeEpisode(extra.value, fileId));
          if !ok { return; }
          n := n + 1;
        }
      }
    }
    assert numbers[|numbers|..] == [];
  }

  lemma NextTwo(plan: seq<Statement>, n: nat, a: Statement, b: Statement, rest: seq<Statement>)
    requires n <= |plan| && [a, b] + rest <= plan[n..]
    ensures n + 2 <= |plan| && plan[n] == a && plan[n + 1] == b && rest <= plan[n + 2..]
  {
    assert plan[n..][0] == plan[n] && plan[n..][1] == plan[n + 1];
    assert plan[n + 2..] == plan[n..][2..];
  }

  /** The new file is recorded and linked, in the order of the plan. */
  method AddRecords(db: Database, ghost start: Tables, ghost before: seq<Statement>, ghost t: Tables,
                    ghost plan: seq<Statement>, ghost from: nat, job: SeriesJob, episode: int)
                        returns (ok: bool, ghost n: nat)
    requires Executed(db, start, before, t, plan, from) && plan[from..] == AddSeriesFile(t, job, episode)
    requires db.tables.episodeIndex == t.episodeIndex && db.tables.nextId == t.nextId
    modifies db
    ensures Executed(db, start, before, t, plan, n)
    ensures if ok then n == |plan| else db.budget == 0
  {
    hide Apply, ApplyAll, LinkNumbers;
    n := from;
    ghost var adding := AddSeriesFile(t, job, episode);
    assert forall i :: 0 <= i < |adding| ==> plan[from + i] == adding[i];
    var fileId := db.tables.nextId;
    ok := Perform(db, start, before, t, plan, n, InsertMedia(MediaFile(SeriesFile, job.relativePath, job.size)));
    if !ok { return; }
    n := n + 1;
    ok := Perform(db, start, before, t, plan, n, LinkEpisode(episode, fileId));
    if !ok { return; }
    n := n + 1;
    ok := Perform(db, start, before, t, plan, n, PointEpisode(episode, fileId));
    if !ok { return; }
    n := n + 1;
    var more := if job.numbers == [] then [] else job.numbers[1..];
    ghost var links := LinkNumbers(t, job.seriesId, job.season, more, fileId);
    assert plan[n..] == adding[3..] == links + [InsertHistory];
    ok, n := LinkMore(db, start, before, t, plan, n, job.seriesId, job.season, more, fileId);
    if !ok { return; }
    assert plan[n] == adding[n - from] == InsertHistory;
    ok := Perform(db, start, before, t, plan, n, InsertHistory);
    if !ok { return; }
    n := n + 1;
  }

  /** The statements of a series import are executed in the order of its plan, up to where it
      stops; a result other than `Stopped` means that the whole plan was executed. */
  method ImportSeriesFile(db: Database, job: SeriesJob) returns (r: Result, ghost n: nat)
    requires db.Valid()
    modifies db
    ensures var t := old(db.tables); var plan := SeriesPlan(t, job);
      && Executed(db, old(db.start), old(db.log), t, plan, n)
      && (r == Stopped ==> db.budget == 0)
      && (r != Stopped ==> n == |plan| && r == SeriesResult(t, job))
  {
    hide Apply, ApplyAll, LinkNumbers, FindEpisode, AddSeriesFile;
    n := 0;
    ghost var t, start, before := db.tables, db.start, db.log;
    ghost var plan := SeriesPlan(t, job);
    NothingExecuted(db, plan);
    if !job.seriesKnown {
      return Refused, n;
    }
    var target := TargetEpisode(db.tables, job);
    if target.None? {
      return Skipped, n;
    }
    var episode := target.value;
    var existing := ExistingFile(db.tables, db.tables.episodes, episode);
    var ok := true;
    if existing.Some? {
      if !job.betterQuality {
        return Skipped, n;
      }
      if !job.rootExists {
        return Refused, n;
      }
      var replaced := existing.value;
      ok, n := ReplaceOld(db, start, before, t, plan, job.recycles,
                          [UnlinkFile(replaced), UnpointEpisodes(replaced), DeleteMedia(replaced), InsertHistory]);
      if !ok { return Stopped, n; }
    }
    ok, n := AddRecords(db, start, before, t, plan, n, job, episode);
    return if ok then Done else Stopped, n;
  }

  lemma NothingExecuted(db: Database, plan: seq<Statement>)
    requires db.Valid()
    ensures Executed(db, db.start, db.log, db.tables, plan, 0)
  {
    assert db.log + plan[..0] == db.log;
  }

  // ----- Movies -----

  datatype MovieDecision = NoMovie | MovieNotAnUpgrade | NoMovieRoot | ImportMovie(replaced: Option<int>)

  function DecideMovie(t: Tables, job: MovieJob): MovieDecision {
    if job.movieId !in t.movies then NoMovie
    else
      var existing := ExistingFile(t, t.movies, job.movieId);
      if existing.Some? && !job.betterQuality then MovieNotAnUpgrade
      else if existing.Some? && !job.rootExists then NoMovieRoot
      else ImportMovie(existing)
  }

  function ReplaceMovieFile(replaced: Option<int>, recycles: bool): seq<Statement> {
    match replaced
    case None => []
    case Some(f) => Recycling(recycles) + [UnpointMovies(f), DeleteMedia(f), InsertHistory]
  }

  function AddMovieFile(t: Tables, job: MovieJob): seq<Statement> {
    [InsertMedia(MediaFile(MovieFile, job.relativePath, job.size)), PointMovie(job.movieId, t.nextId), InsertHistory]
  }

  function MoviePlan(t: Tables, job: MovieJob): seq<Statement> {
    match DecideMovie(t, job)
    case ImportMovie(replaced) => ReplaceMovieFile(replaced, job.recycles) + AddMovieFile(t, job)
    case _ => []
  }

  function MovieResult(t: Tables, job: MovieJob): Result {
    match DecideMovie(t, job)
    case ImportMovie(_) => Done
    case MovieNotAnUpgrade => Skipped
    case _ => Refused
  }

  method ImportMovieFile(db: Database, job: MovieJob) returns (r: Result, ghost n: nat)
    requires db.Valid()
    modifies db
    ensures var t := old(db.tables); var plan := MoviePlan(t, job);
      && Executed(db, old(db.start), old(db.log), t, plan, n)
      && (r == Stopped ==> db.budget == 0)
      && (r != Stopped ==> n == |plan| && r == MovieResult(t, job))
  {
    hide Apply, ApplyAll;
    n := 0;
    ghost var t, start, before := db.tables, db.start, db.log;
    ghost var plan := MoviePlan(t, job);
    NothingExecuted(db, plan);
    if job.movieId !in db.tables.movies {
      return Refused, n;
    }
    var existing := ExistingFile(db.tables, db.tables.movies, job.movieId);
    var ok := true;
    if existing.Some? {
      if !job.betterQuality {
        return Skipped, n;
      }
      if !job.rootExists {
        return Refused, n;
      }
      var replaced := existing.value;
      ok, n := ReplaceOld(db, start, before, t, plan, job.recycles,
          [UnpointMovies(replaced), DeleteMedia(replaced), InsertHistory]);
      if !ok { return Stopped, n; }
    }
    ok, n := AddMovieRecords(db, start, before, t, plan, n, job);
    return if ok then Done else Stopped, n;
  }

  method AddMovieRecords(db: Database, ghost start: Tables, ghost before: seq<Statement>, ghost t: Tables,
                         ghost plan: seq<Statement>, ghost from: nat, job: MovieJob) returns (ok: bool, ghost n: nat)
    requires Executed(db, start, before, t, plan, from) && plan[from..] == AddMovieFile(t, job)
    requires db.tables.nextId == t.nextId
    modifies db
    ensures Executed(db, start, before, t, plan, n)
    ensures if ok then n == |plan| else db.budget == 0
  {
    hide Apply, ApplyAll;
    n := from;
    ghost var adding := AddMovieFile(t, job);
    assert forall i :: 0 <= i < |adding| ==> plan[from + i] == adding[i];
    var fileId := db.tables.nextId;
    ok := Perform(db, start, before, t, plan, n, InsertMedia(MediaFile(MovieFile, job.relativePath, job.size)));
    if !ok { return; }
    n := n + 1;
    ok := Perform(db, start, before, t, plan, n, PointMovie(job.movieId, fileId));
    if !ok { return; }
    n := n + 1;
    ok := Perform(db, start, before, t, plan, n, InsertHistory);
    if !ok { return; }
    n := n + 1;
  }

  // ----- What the plans keep -----

  lemma ReplaceSeriesKeeps(t: Tables, episode: int, recycles: bool)
    requires Integrity(t) && episode in t.episodes && t.episodes[episode].Some?
    ensures var f := t.episodes[episode]; var plan := ReplaceSeriesFile(f, recycles); var u := ApplyAll(t, plan);
      && SafeAll(t, plan)
      && u.nextId == t.nextId && u.episodeIndex == t.episodeIndex && u.episodes.Keys == t.episodes.Keys
      && u.mediaFiles == t.mediaFiles - {f.value}
  {
    var f := t.episodes[episode].value;
    var t1 := Apply(t, UnlinkFile(f));
    var t2 := Apply(t1, UnpointEpisodes(f));
    var t3 := Apply(t2, DeleteMedia(f));
    assert Unreferenced(t2, f);
    var tail := [UnlinkFile(f), UnpointEpisodes(f), DeleteMedia(f), InsertHistory];
    FourSteps(t, tail[0], tail[1], tail[2], tail[3]);
    RecycleFirst(t, recycles, tail);
  }

  /** Recording the recycled file changes none of the tables. */
  lemma RecycleFirst(t: Tables, recycles: bool, tail: seq<Statement>)
    ensures ApplyAll(t, Recycling(recycles) + tail) == ApplyAll(t, tail)
    ensures SafeAll(t, Recycling(recycles) + tail) <==> SafeAll(t, tail)
    ensures LinkSafeAll(t, Recycling(recycles) + tail) <==> LinkSafeAll(t, tail)
  {
    if recycles {
      assert (Recycling(recycles) + tail)[1..] == tail;
    } else {
      assert Recycling(recycles) + tail == tail;
    }
  }

  /** Linking the further episodes refers only to the new file and to existing episodes. */
  lemma {:induction false} LinkNumbersKeeps(t: Tables, u: Tables, series: int, season: Option<int>,
                                            numbers: seq<int>, id: int)
    requires IsFile(u, id, SeriesFile) && (forall k <- t.episodeIndex :: t.episodeIndex[k] in u.episodes)
    ensures SafeAll(u, LinkNumbers(t, series, season, numbers, id))
    ensures LinkSafeAll(u, LinkNumbers(t, series, season, numbers, id))
    ensures IsFile(ApplyAll(u, LinkNumbers(t, series, season, numbers, id)), id, SeriesFile)
    decreases |numbers|
  {
    if numbers != [] {
      var rest := LinkNumbers(t, series, season, numbers[1..], id);
      var found := if season.Some? then FindEpisode(t, series, season.value, numbers[0]) else None;
      var head := LinkFound(found, id);
      assert LinkNumbers(t, series, season, numbers, id) == head + rest;
      match found {
        case None =>
          assert head + rest == rest;
          LinkNumbersKeeps(t, u, series, season, numbers[1..], id);
        case Some(e) =>
          var u1 := Apply(u, LinkEpisode(e, id));
          var u2 := Apply(u1, PointFreeEpisode(e, id));
          TwoSteps(u, head[0], head[1]);
          LinkNumbersKeeps(t, u2, series, season, numbers[1..], id);
          SafeAllConcat(u, head, rest);
          LinkSafeAllConcat(u, head, rest);
          ApplyAllConcat(u, head, rest);
      }
    }
  }

  /** Adding a file, in tables `u` that agree with the `t` the plan was made for. */
  lemma AddSeriesKeeps(t: Tables, u: Tables, job: SeriesJob, episode: int)
    requires u.nextId == t.nextId && episode in u.episodes
    requires forall k <- t.episodeIndex :: t.episodeIndex[k] in u.episodes
    ensures SafeAll(u, AddSeriesFile(t, job, episode)) && LinkSafeAll(u, AddSeriesFile(t, job, episode))
  {
    var id := t.nextId;
    var file := MediaFile(SeriesFile, job.relativePath, job.size);
    var head := [InsertMedia(file), LinkEpisode(episode, id), PointEpisode(episode, id)];
    var more := LinkNumbers(t, job.seriesId, job.season, if job.numbers == [] then [] else job.numbers[1..], id);
    var u1 := Apply(u, InsertMedia(file));
    var u2 := Apply(u1, LinkEpisode(episode, id));
    var u3 := Apply(u2, PointEpisode(episode, id));
    ThreeSteps(u, head[0], head[1], head[2]);
    LinkNumbersKeeps(t, u3, job.seriesId, job.season, if job.numbers == [] then [] else job.numbers[1..], id);
    SafeAllConcat(u, head, more);
    LinkSafeAllConcat(u, head, more);
    SafeAllConcat(u, head + more, [InsertHistory]);
    LinkSafeAllConcat(u, head + more, [InsertHistory]);
    assert head + more + [InsertHistory] == AddSeriesFile(t, job, episode);
  }

  lemma TargetExists(t: Tables, job: SeriesJob)
    requires Integrity(t) && TargetEpisode(t, job).Some?
    ensures TargetEpisode(t, job).value in t.episodes
  {}

  /** Reference integrity at every step of a series import: wherever the import stops, every
      reference names an existing file of the right type. */
  lemma SeriesImportKeepsIntegrity(t: Tables, job: SeriesJob, n: nat)
    requires Integrity(t) && n <= |SeriesPlan(t, job)|
    ensures Integrity(ApplyAll(t, SeriesPlan(t, job)[..n]))
  {
    match DecideSeries(t, job)
    case Import(e, replaced) =>
      TargetExists(t, job);
      var replace, add := ReplaceSeriesFile(replaced, job.recycles), AddSeriesFile(t, job, e);
      if replaced.Some? {
        ReplaceSeriesKeeps(t, e, job.recycles);
      }
      AddSeriesKeeps(t, ApplyAll(t, replace), job, e);
      SafeAllConcat(t, replace, add);
      SafePrefixes(t, SeriesPlan(t, job), n);
    case _ =>
  }

  /** The one place at which a series import parts a pointer from its link: after the links of the
      replaced file are deleted and before its pointers are cleared. */
  predicate BetweenUnlinkAndUnpoint(t: Tables, job: SeriesJob, n: nat) {
    var d := DecideSeries(t, job);
    d.Import? && d.replaced.Some? && n == |Recycling(job.recycles)| + 1
  }

  /** Pointers and links agree at every stopping point of a series import but that one. */
  lemma SeriesImportLinked(t: Tables, job: SeriesJob, n: nat)
    requires Integrity(t) && Linked(t) && n <= |SeriesPlan(t, job)|
    ensures Linked(ApplyAll(t, SeriesPlan(t, job)[..n])) <==> !BetweenUnlinkAndUnpoint(t, job, n)
  {
    match DecideSeries(t, job)
    case Import(e, replaced) =>
      TargetExists(t, job);
      var add := AddSeriesFile(t, job, e);
      if replaced.Some? {
        ReplacementLinked(t, job, e, replaced.value, n);
      } else {
        AddSeriesKeeps(t, t, job, e);
        assert SeriesPlan(t, job) == add;
        LinkSafePrefixes(t, add, n);
      }
    case _ =>
  }

  lemma ReplacementLinked(t: Tables, job: SeriesJob, e: int, f: int, n: nat)
    requires Integrity(t) && Linked(t) && n <= |SeriesPlan(t, job)|
    requires DecideSeries(t, job) == Import(e, Some(f)) && e in t.episodes && t.episodes[e] == Some(f)
    ensures Linked(ApplyAll(t, SeriesPlan(t, job)[..n])) <==> n != |Recycling(job.recycles)| + 1
  {
    var plan := SeriesPlan(t, job);
    var r := |Recycling(job.recycles)|;
    var tail := [UnlinkFile(f), UnpointEpisodes(f), DeleteMedia(f), InsertHistory] + AddSeriesFile(t, job, e);
    assert plan == Recycling(job.recycles) + tail;
    if n <= r {
      assert plan[..n] == Recycling(job.recycles)[..n];
      assert n == 0 || plan[..n][1..] == [];
      assert ApplyAll(t, plan[..n]) == t;
    } else {
      assert plan[..n] == Recycling(job.recycles) + tail[..n - r];
      RecycleFirst(t, job.recycles, tail[..n - r]);
      TailLinked(t, job, e, f, n - r);
    }
  }

  lemma TailLinked(t: Tables, job: SeriesJob, e: int, f: int, m: nat)
    requires Integrity(t) && Linked(t) && e in t.episodes && t.episodes[e] == Some(f)
    requires m > 0 && m <= 4 + |AddSeriesFile(t, job, e)|
    ensures var tail := [UnlinkFile(f), UnpointEpisodes(f), DeleteMedia(f), InsertHistory] + AddSeriesFile(t, job, e);
      Linked(ApplyAll(t, tail[..m])) <==> m != 1
  {
    var add := AddSeriesFile(t, job, e);
    var tail := [UnlinkFile(f), UnpointEpisodes(f), DeleteMedia(f), InsertHistory] + add;
    if m == 1 {
      hide AddSeriesFile;
      var t1 := Apply(t, UnlinkFile(f));
      assert t1.episodes[e] == Some(f) && (e, f) !in t1.episodeFiles;
      assert tail[..1] == [UnlinkFile(f)] && tail[..1][1..] == [];
    } else {
      hide Apply, AddSeriesFile, Linked, LinkSafeAll, ApplyAll, LinkSafe, Safe, SafeAll, Integrity;
      var first, rest := [UnlinkFile(f), UnpointEpisodes(f)], [DeleteMedia(f), InsertHistory] + add;
      assert tail[..m] == first + rest[..m - 2];
      ApplyAllConcat(t, first, rest[..m - 2]);
      TwoSteps(t, UnlinkFile(f), UnpointEpisodes(f));
      AfterCleanup(t, job, e, f, m - 2);
    }
  }

  lemma AfterCleanup(t: Tables, job: SeriesJob, e: int, f: int, k: nat)
    requires Integrity(t) && Linked(t) && e in t.episodes
    requires k <= 2 + |AddSeriesFile(t, job, e)|
    ensures var t2 := Apply(Apply(t, UnlinkFile(f)), UnpointEpisodes(f));
      Linked(ApplyAll(t2, ([DeleteMedia(f), InsertHistory] + AddSeriesFile(t, job, e))[..k]))
  {
    var add := AddSeriesFile(t, job, e);
    var t2 := Apply(Apply(t, UnlinkFile(f)), UnpointEpisodes(f));
    assert Linked(t2);
    CleanupKeeps(t, f);
    AddSeriesKeeps(t, Apply(t2, DeleteMedia(f)), job, e);
    hide Apply, AddSeriesFile, Linked, LinkSafeAll, ApplyAll, LinkSafe, Safe, SafeAll;
    LinkSafeAllConcat(t2, [DeleteMedia(f), InsertHistory], add);
    LinkSafePrefixes(t2, [DeleteMedia(f), InsertHistory] + add, k);
  }

  lemma CleanupKeeps(t: Tables, f: int)
    ensures var t2 := Apply(Apply(t, UnlinkFile(f)), UnpointEpisodes(f)); var u := Apply(t2, DeleteMedia(f));
      && u.nextId == t.nextId && u.episodeIndex == t.episodeIndex && u.episodes.Keys == t.episodes.Keys
      && ApplyAll(t2, [DeleteMedia(f), InsertHistory]) == u
      && LinkSafeAll(t2, [DeleteMedia(f), InsertHistory])
  {
    TwoSteps(Apply(Apply(t, UnlinkFile(f)), UnpointEpisodes(f)), DeleteMedia(f), InsertHistory);
  }

  lemma MoviePlanSafe(t: Tables, job: MovieJob)
    requires Integrity(t)
    ensures SafeAll(t, MoviePlan(t, job)) && LinkSafeAll(t, MoviePlan(t, job))
  {
    match DecideMovie(t, job)
    case ImportMovie(replaced) =>
      var add := AddMovieFile(t, job);
      var replace := ReplaceMovieFile(replaced, job.recycles);
      var u := t;
      if replaced.Some? {
        var f := replaced.value;
        var tail := [UnpointMovies(f), DeleteMedia(f), InsertHistory];
        var t1 := Apply(t, UnpointMovies(f));
        u := Apply(t1, DeleteMedia(f));
        assert Unreferenced(t1, f);
        ThreeSteps(t, tail[0], tail[1], tail[2]);
        RecycleFirst(t, job.recycles, tail);
      }
      AddMovieSafe(t, u, job);
      SafeAllConcat(t, replace, add);
      LinkSafeAllConcat(t, replace, add);
    case _ =>
  }

  lemma AddMovieSafe(t: Tables, u: Tables, job: MovieJob)
    requires u.nextId == t.nextId
    ensures SafeAll(u, AddMovieFile(t, job)) && LinkSafeAll(u, AddMovieFile(t, job))
  {
    var add := AddMovieFile(t, job);
    ThreeSteps(u, add[0], add[1], add[2]);
  }

  /** The same for a movie import, which never touches the links. */
  lemma MovieImportKeeps(t: Tables, job: MovieJob, n: nat)
    requires Integrity(t) && n <= |MoviePlan(t, job)|
    ensures Integrity(ApplyAll(t, MoviePlan(t, job)[..n]))
    ensures Linked(t) ==> Linked(ApplyAll(t, MoviePlan(t, job)[..n]))
  {
    MoviePlanSafe(t, job);
    SafePrefixes(t, MoviePlan(t, job), n);
    if Linked(t) {
      LinkSafePrefixes(t, MoviePlan(t, job), n);
    }
  }
}
