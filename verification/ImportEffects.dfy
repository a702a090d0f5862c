/** What a completed import or scan has done to the tables: which job is imported, and for every row
    what stands in it afterwards. */
module ImportEffects {
  import opened Wrappers
  import opened ImportTables
  import opened Imports
  import opened Scans
  import opened ScanProperties

  // ----- Naming episodes -----

  /** One of the numbers, in that season of the series, is the episode `e`. */
  predicate NamesEpisode(t: Tables, series: int, season: Option<int>, numbers: seq<int>, e: int) {
    season.Some? && exists n <- numbers :: IsEpisode(t, series, season.value, n, e)
  }

  predicate IsEpisode(t: Tables, series: int, season: int, number: int, e: int) {
    (series, season, number) in t.episodeIndex && t.episodeIndex[(series, season, number)] == e
  }

  /** `w` is `u` with the episodes in `named` linked to file `id`, and pointing to it where they
      pointed to no file. */
  ghost predicate LinkedTo(u: Tables, w: Tables, named: iset<int>, id: int) {
    && w.mediaFiles == u.mediaFiles && w.movies == u.movies && w.episodeIndex == u.episodeIndex && w.nextId == u.nextId
    && (forall e, f :: (e, f) in w.episodeFiles <==> (e, f) in u.episodeFiles || (e in named && f == id))
    && w.episodes.Keys == u.episodes.Keys
    && forall e <- u.episodes ::
      w.episodes[e] == if e in named && u.episodes[e].None? then Some(id) else u.episodes[e]
  }

  ghost function EpisodesNamed(t: Tables, series: int, season: Option<int>, numbers: seq<int>): iset<int> {
    iset e | NamesEpisode(t, series, season, numbers, e)
  }

  lemma FirstNumber(t: Tables, series: int, season: Option<int>, numbers: seq<int>)
    requires numbers != []
    ensures var found := if season.Some? then FindEpisode(t, series, season.value, numbers[0]) else None;
      var rest := EpisodesNamed(t, series, season, numbers[1..]);
      EpisodesNamed(t, series, season, numbers) == if found.Some? then rest + iset{found.value} else rest
  {
    forall e ensures NamesEpisode(t, series, season, numbers, e) <==>
        NamesEpisode(t, series, season, numbers[1..], e)
        || (season.Some? && IsEpisode(t, series, season.value, numbers[0], e)) {
      assert forall n :: n in numbers <==> n == numbers[0] || n in numbers[1..];
    }
  }

  lemma {:induction false} LinkingDoes(t: Tables, u: Tables, series: int, season: Option<int>, numbers: seq<int>,
                                       id: int)
    ensures LinkedTo(u, ApplyAll(u, LinkNumbers(t, series, season, numbers, id)),
                     EpisodesNamed(t, series, season, numbers), id)
    decreases |numbers|
  {
    if numbers == [] {
      NoStatements(u, []);
    } else {
      FirstNumber(t, series, season, numbers);
      var rest := LinkNumbers(t, series, season, numbers[1..], id);
      var more := EpisodesNamed(t, series, season, numbers[1..]);
      var found := if season.Some? then FindEpisode(t, series, season.value, numbers[0]) else None;
      match found {
        case None =>
          assert LinkFound(found, id) + rest == rest;
          LinkingDoes(t, u, series, season, numbers[1..], id);
        case Some(e) =>
          var u2 := Apply(Apply(u, LinkEpisode(e, id)), PointFreeEpisode(e, id));
          TwoSteps(u, LinkEpisode(e, id), PointFreeEpisode(e, id));
          ApplyAllConcat(u, LinkFound(found, id), rest);
          LinkingDoes(t, u2, series, season, numbers[1..], id);
          hide EpisodesNamed, LinkNumbers, FindEpisode, ApplyAll;
          assert LinkedTo(u, u2, iset{e}, id);
          LinkedTwice(u, u2, ApplyAll(u2, rest), iset{e}, more, id);
          assert more + iset{e} == iset{e} + more;
      }
    }
  }

  lemma LinkedTwice(u: Tables, v: Tables, w: Tables, a: iset<int>, b: iset<int>, id: int)
    requires LinkedTo(u, v, a, id) && LinkedTo(v, w, b, id)
    ensures LinkedTo(u, w, a + b, id)
  {}

  // ----- Which job is imported -----

  /** The queue names the episode, or else the first number of the parsed file name does. */
  predicate IsTarget(t: Tables, job: SeriesJob, e: int) {
    match job.queuedEpisode
    case Some(q) => q == e && e in t.episodes
    case None =>
      && job.season.Some? && job.numbers != []
      && IsEpisode(t, job.seriesId, job.season.value, job.numbers[0], e)
  }

  /** The row points to a file that is there. */
  predicate HasFile(t: Tables, pointers: map<int, Option<int>>, id: int, f: int) {
    id in pointers && pointers[id] == Some(f) && f in t.mediaFiles
  }

  ghost predicate IsFree(t: Tables, pointers: map<int, Option<int>>, id: int) {
    forall f :: !HasFile(t, pointers, id, f)
  }

  /** An import goes ahead for the target of a known series, and replaces its file if there is one; the
      quality and the root folder matter only then. */
  lemma SeriesDecided(t: Tables, job: SeriesJob, e: int)
    ensures DecideSeries(t, job) == Import(e, None) <==>
      job.seriesKnown && IsTarget(t, job, e) && IsFree(t, t.episodes, e)
    ensures forall f :: DecideSeries(t, job) == Import(e, Some(f)) <==>
      job.seriesKnown && IsTarget(t, job, e) && HasFile(t, t.episodes, e, f) && job.betterQuality && job.rootExists
  {
    var existing := ExistingFile(t, t.episodes, e);
    assert existing.Some? ==> HasFile(t, t.episodes, e, existing.value);
  }

  /** The result of an import that is not stopped. */
  lemma SeriesOutcome(t: Tables, job: SeriesJob)
    ensures SeriesResult(t, job) == Refused <==>
      !job.seriesKnown
      || exists e, f :: IsTarget(t, job, e) && HasFile(t, t.episodes, e, f) && job.betterQuality && !job.rootExists
    ensures SeriesResult(t, job) == Skipped <==>
      job.seriesKnown
      && ((forall e :: !IsTarget(t, job, e))
          || exists e, f :: IsTarget(t, job, e) && HasFile(t, t.episodes, e, f) && !job.betterQuality)
    ensures SeriesResult(t, job) == Done <==> exists e, replaced :: DecideSeries(t, job) == Import(e, replaced)
    ensures SeriesResult(t, job) != Done ==> SeriesPlan(t, job) == []
    ensures SeriesResult(t, job) != Stopped
  {
    var target := TargetEpisode(t, job);
    assert forall e :: IsTarget(t, job, e) <==> target == Some(e);
    if target.Some? {
      var existing := ExistingFile(t, t.episodes, target.value);
      assert forall f :: HasFile(t, t.episodes, target.value, f) <==> existing == Some(f);
      if existing.Some? {
        assert IsTarget(t, job, target.value) && HasFile(t, t.episodes, target.value, existing.value);
      }
    }
    hide TargetEpisode, IsTarget, HasFile, ExistingFile;
    if SeriesResult(t, job) == Done {
      assert DecideSeries(t, job) == Import(DecideSeries(t, job).episode, DecideSeries(t, job).replaced);
    }
  }

  lemma MovieDecided(t: Tables, job: MovieJob)
    ensures DecideMovie(t, job) == ImportMovie(None) <==>
      job.movieId in t.movies && IsFree(t, t.movies, job.movieId)
    ensures forall f :: DecideMovie(t, job) == ImportMovie(Some(f)) <==>
      HasFile(t, t.movies, job.movieId, f) && job.betterQuality && job.rootExists
    ensures MovieResult(t, job) == Refused <==>
      job.movieId !in t.movies
      || exists f :: HasFile(t, t.movies, job.movieId, f) && job.betterQuality && !job.rootExists
    ensures MovieResult(t, job) == Skipped <==> exists f :: HasFile(t, t.movies, job.movieId, f) && !job.betterQuality
    ensures MovieResult(t, job) == Done <==> exists replaced :: DecideMovie(t, job) == ImportMovie(replaced)
    ensures MovieResult(t, job) != Done ==> MoviePlan(t, job) == []
    ensures MovieResult(t, job) != Stopped
  {
    var existing := ExistingFile(t, t.movies, job.movieId);
    assert forall f :: HasFile(t, t.movies, job.movieId, f) <==> existing == Some(f);
    if existing.Some? {
      assert HasFile(t, t.movies, job.movieId, existing.value);
    }
    hide HasFile, ExistingFile;
    if MovieResult(t, job) == Done {
      assert DecideMovie(t, job) == ImportMovie(DecideMovie(t, job).replaced);
    }
  }

  // ----- A completed series import -----

  /** The pointer that is left of `p` when file `replaced` is gone. */
  function Cleared(p: Option<int>, replaced: Option<int>): Option<int> {
    if p == replaced then None else p
  }

  /** The further episodes that a file names besides its target. */
  ghost function Further(t: Tables, job: SeriesJob): iset<int> {
    EpisodesNamed(t, job.seriesId, job.season, if job.numbers == [] then [] else job.numbers[1..])
  }

  /** After a complete series import the target points to the new file and is linked to it; so is every
      further episode of the file, which points to it if and only if its pointer is free once the
      replaced file is gone. Everything else is as it was, without the replaced file. */
  lemma ImportedSeries(t: Tables, job: SeriesJob, e: int, replaced: Option<int>)
    requires Integrity(t) && DecideSeries(t, job) == Import(e, replaced)
    ensures var u := ApplyAll(t, SeriesPlan(t, job)); var id := t.nextId;
      && e in u.episodes && u.episodes[e] == Some(id)
      && (forall x, f :: (x, f) in u.episodeFiles <==>
            ((x, f) in t.episodeFiles && Some(f) != replaced) || (f == id && (x == e || x in Further(t, job))))
      && u.episodes.Keys == t.episodes.Keys
      && (forall x <- t.episodes | x != e :: u.episodes[x] ==
            if x in Further(t, job) && Cleared(t.episodes[x], replaced).None? then Some(id)
            else Cleared(t.episodes[x], replaced))
      && u.movies == t.movies && u.episodeIndex == t.episodeIndex && u.nextId == id + 1
  {
    TargetExists(t, job);
    var replace, add := ReplaceSeriesFile(replaced, job.recycles), AddSeriesFile(t, job, e);
    ApplyAllConcat(t, replace, add);
    var v := ApplyAll(t, replace);
    CleanedUp(t, replaced, job.recycles);
    Added(t, v, job, e);
    hide ApplyAll, AddSeriesFile, ReplaceSeriesFile, Further, DecideSeries;
  }

  lemma CleanedUp(t: Tables, replaced: Option<int>, recycles: bool)
    ensures var v := ApplyAll(t, ReplaceSeriesFile(replaced, recycles));
      && v.episodes.Keys == t.episodes.Keys
      && (forall x <- t.episodes :: v.episodes[x] == Cleared(t.episodes[x], replaced))
      && (forall x, f :: (x, f) in v.episodeFiles <==> (x, f) in t.episodeFiles && Some(f) != replaced)
      && v.movies == t.movies && v.episodeIndex == t.episodeIndex && v.nextId == t.nextId
  {
    match replaced
    case None => NoStatements(t, []);
    case Some(f) =>
      var tail := [UnlinkFile(f), UnpointEpisodes(f), DeleteMedia(f), InsertHistory];
      FourSteps(t, tail[0], tail[1], tail[2], tail[3]);
      RecycleFirst(t, recycles, tail);
  }

  lemma Added(t: Tables, v: Tables, job: SeriesJob, e: int)
    requires v.nextId == t.nextId && e in v.episodes
    ensures var u := ApplyAll(v, AddSeriesFile(t, job, e)); var id := t.nextId;
      && (forall x, f :: (x, f) in u.episodeFiles <==>
            (x, f) in v.episodeFiles || (f == id && (x == e || x in Further(t, job))))
      && u.episodes.Keys == v.episodes.Keys && u.episodes[e] == Some(id)
      && (forall x <- v.episodes | x != e :: u.episodes[x] ==
            if x in Further(t, job) && v.episodes[x].None? then Some(id) else v.episodes[x])
      && u.movies == v.movies && u.episodeIndex == v.episodeIndex && u.nextId == id + 1
  {
    var id := t.nextId;
    var head := [InsertMedia(MediaFile(SeriesFile, job.relativePath, job.size)), LinkEpisode(e, id),
        PointEpisode(e, id)];
    var numbers := if job.numbers == [] then [] else job.numbers[1..];
    var more := LinkNumbers(t, job.seriesId, job.season, numbers, id);
    ThreeSteps(v, head[0], head[1], head[2]);
    var v3 := ApplyAll(v, head);
    LinkingDoes(t, v3, job.seriesId, job.season, numbers, id);
    var v4 := ApplyAll(v3, more);
    ApplyAllConcat(v, head, more);
    ApplyAllConcat(v, head + more, [InsertHistory]);
    OneStep(v4, InsertHistory, []);
    NoStatements(v4, []);
    assert [InsertHistory] + [] == [InsertHistory];
    assert AddSeriesFile(t, job, e) == head + more + [InsertHistory];
    hide LinkNumbers, EpisodesNamed, ApplyAll;
  }

  // ----- A completed movie import -----

  /** After a complete movie import the movie points to the new file, and no movie to the replaced one. */
  lemma ImportedMovie(t: Tables, job: MovieJob, replaced: Option<int>)
    requires DecideMovie(t, job) == ImportMovie(replaced)
    ensures var u := ApplyAll(t, MoviePlan(t, job)); var id := t.nextId;
      && job.movieId in u.movies && u.movies[job.movieId] == Some(id)
      && u.movies.Keys == t.movies.Keys
      && (forall m <- t.movies | m != job.movieId :: u.movies[m] == Cleared(t.movies[m], replaced))
      && u.episodes == t.episodes && u.episodeFiles == t.episodeFiles && u.episodeIndex == t.episodeIndex
      && u.nextId == id + 1
  {
    var replace, add := ReplaceMovieFile(replaced, job.recycles), AddMovieFile(t, job);
    ApplyAllConcat(t, replace, add);
    MovieCleanedUp(t, replaced, job.recycles);
    var v := ApplyAll(t, replace);
    ThreeSteps(v, add[0], add[1], add[2]);
  }

  lemma MovieCleanedUp(t: Tables, replaced: Option<int>, recycles: bool)
    ensures var v := ApplyAll(t, ReplaceMovieFile(replaced, recycles));
      && v.movies.Keys == t.movies.Keys
      && (forall m <- t.movies :: v.movies[m] == Cleared(t.movies[m], replaced))
      && v.episodes == t.episodes && v.episodeFiles == t.episodeFiles && v.episodeIndex == t.episodeIndex
      && v.nextId == t.nextId
  {
    match replaced
    case None => NoStatements(t, []);
    case Some(f) =>
      var tail := [UnpointMovies(f), DeleteMedia(f), InsertHistory];
      ThreeSteps(t, tail[0], tail[1], tail[2]);
      RecycleFirst(t, recycles, tail);
  }

  // ----- Records beside the tables -----

  /** How often a statement is issued. */
  function Times(plan: seq<Statement>, s: Statement): nat {
    if plan == [] then 0 else (if plan[0] == s then 1 else 0) + Times(plan[1..], s)
  }

  lemma {:induction false} TimesConcat(a: seq<Statement>, b: seq<Statement>, s: Statement)
    ensures Times(a + b, s) == Times(a, s) + Times(b, s)
  {
    if a == [] {
      assert a + b == b;
    } else {
      assert (a + b)[1..] == a[1..] + b;
      TimesConcat(a[1..], b, s);
    }
  }

  lemma {:induction false} NoRecordsLinking(t: Tables, series: int, season: Option<int>, numbers: seq<int>, id: int,
                                            s: Statement)
    requires s.InsertHistory? || s.InsertRecycled?
    ensures Times(LinkNumbers(t, series, season, numbers, id), s) == 0
  {
    if numbers != [] {
      var found := if season.Some? then FindEpisode(t, series, season.value, numbers[0]) else None;
      var rest := LinkNumbers(t, series, season, numbers[1..], id);
      NoRecordsLinking(t, series, season, numbers[1..], id, s);
      TimesConcat(LinkFound(found, id), rest, s);
      if found.Some? {
        TimesOfTwo(LinkEpisode(found.value, id), PointFreeEpisode(found.value, id), s);
      }
    }
  }

  lemma TimesOfTwo(a: Statement, b: Statement, s: Statement)
    ensures Times([a], s) == if a == s then 1 else 0
    ensures Times([a, b], s) == (if a == s then 1 else 0) + if b == s then 1 else 0
  {
    assert [a][1..] == [] && [b][1..] == [];
    assert Times([b], s) == if b == s then 1 else 0;
    assert [a, b][1..] == [b];
  }

  lemma RecordsOfThree(a: Statement, b: Statement, c: Statement, s: Statement)
    ensures Times([a, b, c], s) == (if a == s then 1 else 0) + (if b == s then 1 else 0) + if c == s then 1 else 0
  {
    TimesOfTwo(b, c, s);
    assert [a, b, c][1..] == [b, c];
  }

  lemma RecordsOfCleanup(recycles: bool, tail: seq<Statement>, s: Statement)
    ensures Times(Recycling(recycles) + tail, s) ==
      (if recycles && s == InsertRecycled then 1 else 0) + Times(tail, s)
  {
    TimesConcat(Recycling(recycles), tail, s);
    TimesOfTwo(InsertRecycled, InsertRecycled, s);
  }

  /** An import writes one line of history, one more for a replaced file, and records a replaced file in
      the recycle bin if there is one. */
  lemma SeriesRecords(t: Tables, job: SeriesJob, e: int, replaced: Option<int>)
    requires DecideSeries(t, job) == Import(e, replaced)
    ensures var plan := SeriesPlan(t, job);
      && Times(plan, InsertHistory) == (if replaced.Some? then 2 else 1)
      && Times(plan, InsertRecycled) == (if replaced.Some? && job.recycles then 1 else 0)
  {
    RecordsOfSeries(t, job, e, replaced, InsertHistory);
    RecordsOfSeries(t, job, e, replaced, InsertRecycled);
  }

  lemma RecordsOfSeries(t: Tables, job: SeriesJob, e: int, replaced: Option<int>, s: Statement)
    requires DecideSeries(t, job) == Import(e, replaced) && (s.InsertHistory? || s.InsertRecycled?)
    ensures Times(SeriesPlan(t, job), s) ==
      if s.InsertHistory? then if replaced.Some? then 2 else 1
      else if replaced.Some? && job.recycles then 1 else 0
  {
    var replace, add := ReplaceSeriesFile(replaced, job.recycles), AddSeriesFile(t, job, e);
    TimesConcat(replace, add, s);
    var id := t.nextId;
    var head := [InsertMedia(MediaFile(SeriesFile, job.relativePath, job.size)), LinkEpisode(e, id),
        PointEpisode(e, id)];
    var numbers := if job.numbers == [] then [] else job.numbers[1..];
    var more := LinkNumbers(t, job.seriesId, job.season, numbers, id);
    NoRecordsLinking(t, job.seriesId, job.season, numbers, id, s);
    RecordsOfThree(head[0], head[1], head[2], s);
    TimesConcat(head, more, s);
    TimesConcat(head + more, [InsertHistory], s);
    TimesOfTwo(InsertHistory, InsertHistory, s);
    assert add == head + more + [InsertHistory];
    if replaced.Some? {
      var f := replaced.value;
      var tail := [UnlinkFile(f), UnpointEpisodes(f), DeleteMedia(f), InsertHistory];
      assert tail[1..] == [UnpointEpisodes(f), DeleteMedia(f), InsertHistory];
      RecordsOfThree(UnpointEpisodes(f), DeleteMedia(f), InsertHistory, s);
      RecordsOfCleanup(job.recycles, tail, s);
    }
  }

  lemma MovieRecords(t: Tables, job: MovieJob, replaced: Option<int>)
    requires DecideMovie(t, job) == ImportMovie(replaced)
    ensures var plan := MoviePlan(t, job);
      && Times(plan, InsertHistory) == (if replaced.Some? then 2 else 1)
      && Times(plan, InsertRecycled) == (if replaced.Some? && job.recycles then 1 else 0)
  {
    RecordsOfMovie(t, job, replaced, InsertHistory);
    RecordsOfMovie(t, job, replaced, InsertRecycled);
  }

  lemma RecordsOfMovie(t: Tables, job: MovieJob, replaced: Option<int>, s: Statement)
    requires DecideMovie(t, job) == ImportMovie(replaced) && (s.InsertHistory? || s.InsertRecycled?)
    ensures Times(MoviePlan(t, job), s) ==
      if s.InsertHistory? then if replaced.Some? then 2 else 1
      else if replaced.Some? && job.recycles then 1 else 0
  {
    var replace, add := ReplaceMovieFile(replaced, job.recycles), AddMovieFile(t, job);
    TimesConcat(replace, add, s);
    RecordsOfThree(add[0], add[1], add[2], s);
    if replaced.Some? {
      var f := replaced.value;
      var tail := [UnpointMovies(f), DeleteMedia(f), InsertHistory];
      RecordsOfThree(tail[0], tail[1], tail[2], s);
      RecordsOfCleanup(job.recycles, tail, s);
    }
  }

  // ----- A completed scan -----

  /** A media file that has a library row and is not tracked yet. */
  datatype NewFile = NewFile(owner: int, entry: Entry)

  /** The new files of a walk, in its order. */
  function NewFiles(ix: Index, tracked: set<string>, es: seq<Entry>): seq<NewFile> {
    if es == [] then []
    else
      match Classify(ix, tracked, es[0])
      case Fresh(owner) => [NewFile(owner, es[0])] + NewFiles(ix, tracked, es[1..])
      case _ => NewFiles(ix, tracked, es[1..])
  }

  function RowFor(kind: Kind, file: NewFile): MediaFile {
    MediaFile(kind, if file.entry.place.Some? then file.entry.place.value.relative else "", file.entry.size)
  }

  /** The file stands for row `x`: an episode that it names, or the movie that it belongs to. */
  predicate StandsFor(kind: Kind, t: Tables, file: NewFile, x: int) {
    match kind
    case SeriesFile => NamesEpisode(t, file.owner, file.entry.parsed.season, file.entry.parsed.numbers, x)
    case MovieFile => x == file.owner
  }

  /** File id `f` has been given to one of the files, and that file stands for `x`. */
  predicate Brought(kind: Kind, t: Tables, files: seq<NewFile>, x: int, f: int) {
    t.nextId <= f < t.nextId + |files| && StandsFor(kind, t, files[f - t.nextId], x)
  }

  /** A pointer that is set stays; a free one becomes the id of the first file that stands for its row,
      if one does. */
  ghost predicate PointsToFirst(kind: Kind, t: Tables, files: seq<NewFile>, x: int, was: Option<int>,
                                now: Option<int>) {
    if was.Some? then now == was
    else
      match now
      case None => forall k :: 0 <= k < |files| ==> !StandsFor(kind, t, files[k], x)
      case Some(f) =>
        Brought(kind, t, files, x, f) && forall k :: 0 <= k < f - t.nextId ==> !StandsFor(kind, t, files[k], x)
  }

  ghost predicate PointersSet(kind: Kind, t: Tables, files: seq<NewFile>, was: map<int, Option<int>>,
                              now: map<int, Option<int>>) {
    && now.Keys == was.Keys
    && forall x <- was :: PointsToFirst(kind, t, files, x, was[x], now[x])
  }

  predicate HasRow(t: Tables, id: int, file: MediaFile) {
    id in t.mediaFiles && t.mediaFiles[id] == file
  }

  ghost predicate RowsAdded(kind: Kind, t: Tables, files: seq<NewFile>, rows: map<int, MediaFile>) {
    && (forall id :: id in rows <==> id in t.mediaFiles || t.nextId <= id < t.nextId + |files|)
    && (forall id <- t.mediaFiles :: rows[id] == t.mediaFiles[id])
    && forall k :: 0 <= k < |files| ==> rows[t.nextId + k] == RowFor(kind, files[k])
  }

  ghost predicate LinksAdded(kind: Kind, t: Tables, files: seq<NewFile>, links: set<(int, int)>) {
    forall x, f :: (x, f) in links <==> (x, f) in t.episodeFiles || Brought(kind, t, files, x, f)
  }

  /** The `files`, in this order, have been added to the tables `t`: number k of them has the id
      `t.nextId + k`. */
  ghost predicate FilesAdded(kind: Kind, t: Tables, files: seq<NewFile>, u: Tables) {
    && u.nextId == t.nextId + |files|
    && u.episodeIndex == t.episodeIndex
    && RowsAdded(kind, t, files, u.mediaFiles)
    && match kind
       case SeriesFile =>
         && u.movies == t.movies
         && PointersSet(kind, t, files, t.episodes, u.episodes)
         && LinksAdded(kind, t, files, u.episodeFiles)
       case MovieFile =>
         && u.episodes == t.episodes && u.episodeFiles == t.episodeFiles
         && PointersSet(kind, t, files, t.movies, u.movies)
  }

  /** The pointers of `w`, when file `id` is new and stands for the rows in `named`. */
  ghost predicate FreeSet(u: map<int, Option<int>>, w: map<int, Option<int>>, named: iset<int>, id: int) {
    && w.Keys == u.Keys
    && forall x <- u :: w[x] == if x in named && u[x].None? then Some(id) else u[x]
  }

  /** What the statements for one new file do. */
  lemma FileStepsDo(kind: Kind, t: Tables, u: Tables, e: Entry, owner: int)
    requires e.place.Some?
    ensures var id := u.nextId; var w := ApplyAll(u, FileSteps(kind, t, e, owner, id));
      && w.nextId == id + 1 && w.episodeIndex == u.episodeIndex
      && w.mediaFiles == u.mediaFiles[id := RowFor(kind, NewFile(owner, e))]
      && match kind
         case SeriesFile =>
           var named := EpisodesNamed(t, owner, e.parsed.season, e.parsed.numbers);
           && FreeSet(u.episodes, w.episodes, named, id) && w.movies == u.movies
           && forall x, f :: (x, f) in w.episodeFiles <==> (x, f) in u.episodeFiles || (x in named && f == id)
         case MovieFile =>
           FreeSet(u.movies, w.movies, iset{owner}, id)
           && w.episodes == u.episodes && w.episodeFiles == u.episodeFiles
  {
    var id := u.nextId;
    var insert := InsertMedia(MediaFile(kind, e.place.value.relative, e.size));
    var u1 := Apply(u, insert);
    match kind
    case SeriesFile =>
      LinkingDoes(t, u1, owner, e.parsed.season, e.parsed.numbers, id);
      OneStep(u, insert, LinkNumbers(t, owner, e.parsed.season, e.parsed.numbers, id));
      hide LinkNumbers, EpisodesNamed, ApplyAll;
    case MovieFile =>
      var more := [PointFreeMovie(owner, id)];
      OneStep(u, insert, more);
      assert more == [PointFreeMovie(owner, id)] + [];
      OneStep(u1, more[0], []);
      NoStatements(Apply(u1, more[0]), []);
  }

  lemma PointersMore(kind: Kind, t: Tables, files: seq<NewFile>, file: NewFile, o: map<int, Option<int>>,
                     u: map<int, Option<int>>, w: map<int, Option<int>>, named: iset<int>)
    requires PointersSet(kind, t, files, o, u)
    requires FreeSet(u, w, named, t.nextId + |files|)
    requires forall x :: x in named <==> StandsFor(kind, t, file, x)
    ensures PointersSet(kind, t, files + [file], o, w)
  {
    hide StandsFor;
    forall x | x in o ensures PointsToFirst(kind, t, files + [file], x, o[x], w[x]) {
      assert PointsToFirst(kind, t, files, x, o[x], u[x]);
      BroughtMore(kind, t, files, file, x);
    }
  }

  lemma BroughtMore(kind: Kind, t: Tables, files: seq<NewFile>, file: NewFile, x: int)
    ensures forall f :: Brought(kind, t, files + [file], x, f) <==>
      Brought(kind, t, files, x, f) || (f == t.nextId + |files| && StandsFor(kind, t, file, x))
  {
    hide StandsFor;
  }

  lemma RowsMore(kind: Kind, t: Tables, files: seq<NewFile>, file: NewFile, rows: map<int, MediaFile>)
    requires RowsAdded(kind, t, files, rows) && forall id <- t.mediaFiles :: id < t.nextId
    ensures RowsAdded(kind, t, files + [file], rows[t.nextId + |files| := RowFor(kind, file)])
  {
    hide RowFor;
  }

  lemma LinksMore(kind: Kind, t: Tables, files: seq<NewFile>, file: NewFile, links: set<(int, int)>,
                  more: set<(int, int)>, named: iset<int>)
    requires LinksAdded(kind, t, files, links)
    requires forall x, f :: (x, f) in more <==> (x, f) in links || (x in named && f == t.nextId + |files|)
    requires forall x :: x in named <==> StandsFor(kind, t, file, x)
    ensures LinksAdded(kind, t, files + [file], more)
  {
    hide StandsFor;
    forall x, f ensures (x, f) in more <==> (x, f) in t.episodeFiles || Brought(kind, t, files + [file], x, f) {
      BroughtMore(kind, t, files, file, x);
    }
  }

  lemma FileAdded(kind: Kind, t: Tables, files: seq<NewFile>, file: NewFile, u: Tables)
    requires file.entry.place.Some? && FilesAdded(kind, t, files, u) && forall id <- t.mediaFiles :: id < t.nextId
    ensures FilesAdded(kind, t, files + [file], ApplyAll(u, FileSteps(kind, t, file.entry, file.owner, u.nextId)))
  {
    var e := file.entry;
    var w := ApplyAll(u, FileSteps(kind, t, e, file.owner, u.nextId));
    FileStepsDo(kind, t, u, e, file.owner);
    RowsMore(kind, t, files, file, u.mediaFiles);
    var named := if kind.SeriesFile? then EpisodesNamed(t, file.owner, e.parsed.season, e.parsed.numbers)
                 else iset{file.owner};
    assert forall x :: x in named <==> StandsFor(kind, t, file, x);
    hide ApplyAll, FileSteps, StandsFor, EpisodesNamed, FreeSet, PointersSet, RowFor, RowsAdded, LinksAdded;
    match kind {
      case SeriesFile =>
        LinksMore(kind, t, files, file, u.episodeFiles, w.episodeFiles, named);
        PointersMore(kind, t, files, file, t.episodes, u.episodes, w.episodes, named);
      case MovieFile => PointersMore(kind, t, files, file, t.movies, u.movies, w.movies, named);
    }
  }

  lemma {:induction false} WalkAdds(kind: Kind, t: Tables, ix: Index, tracked: set<string>, es: seq<Entry>,
                                    before: seq<NewFile>, u: Tables)
    requires FilesAdded(kind, t, before, u) && forall id <- t.mediaFiles :: id < t.nextId
    ensures FilesAdded(kind, t, before + NewFiles(ix, tracked, es),
                       ApplyAll(u, StepsOf(kind, t, ix, tracked, es, u.nextId)))
    decreases |es|
  {
    hide ApplyAll, FileSteps, FilesAdded, Classify, NewFiles, StepsOf;
    if es == [] {
      NoFiles(kind, t, ix, tracked, es, before, u);
    } else if Classify(ix, tracked, es[0]).Fresh? {
      var owner := Classify(ix, tracked, es[0]).owner;
      var file, more := NewFile(owner, es[0]), NewFiles(ix, tracked, es[1..]);
      NewFirst(kind, t, ix, tracked, es, owner, u);
      var w := ApplyAll(u, FileSteps(kind, t, es[0], owner, u.nextId));
      FileAdded(kind, t, before, file, u);
      NextAfter(kind, t, before, file, u, w);
      WalkAdds(kind, t, ix, tracked, es[1..], before + [file], w);
      assert before + ([file] + more) == before + [file] + more;
    } else {
      OldFirst(kind, t, ix, tracked, es, u.nextId);
      WalkAdds(kind, t, ix, tracked, es[1..], before, u);
    }
  }

  lemma NoFiles(kind: Kind, t: Tables, ix: Index, tracked: set<string>, es: seq<Entry>, before: seq<NewFile>, u: Tables)
    requires |es| == 0
    ensures before + NewFiles(ix, tracked, es) == before
    ensures ApplyAll(u, StepsOf(kind, t, ix, tracked, es, u.nextId)) == u
  {
    assert before + [] == before;
  }

  lemma NewFirst(kind: Kind, t: Tables, ix: Index, tracked: set<string>, es: seq<Entry>, owner: int, u: Tables)
    requires es != [] && Classify(ix, tracked, es[0]) == Fresh(owner)
    ensures es[0].place.Some?
    ensures NewFiles(ix, tracked, es) == [NewFile(owner, es[0])] + NewFiles(ix, tracked, es[1..])
    ensures ApplyAll(u, StepsOf(kind, t, ix, tracked, es, u.nextId)) ==
      ApplyAll(ApplyAll(u, FileSteps(kind, t, es[0], owner, u.nextId)),
               StepsOf(kind, t, ix, tracked, es[1..], u.nextId + 1))
  {
    FreshHasPlace(ix, tracked, es[0]);
    hide ApplyAll, FileSteps, Classify;
    var rest := StepsOf(kind, t, ix, tracked, es[1..], u.nextId + 1);
    ApplyAllConcat(u, FileSteps(kind, t, es[0], owner, u.nextId), rest);
  }

  lemma OldFirst(kind: Kind, t: Tables, ix: Index, tracked: set<string>, es: seq<Entry>, id: int)
    requires es != [] && !Classify(ix, tracked, es[0]).Fresh?
    ensures NewFiles(ix, tracked, es) == NewFiles(ix, tracked, es[1..])
    ensures StepsOf(kind, t, ix, tracked, es, id) == StepsOf(kind, t, ix, tracked, es[1..], id)
  {
    hide FileSteps, Classify;
    var rest := StepsOf(kind, t, ix, tracked, es[1..], id);
    assert [] + rest == rest;
  }

  lemma NextAfter(kind: Kind, t: Tables, before: seq<NewFile>, file: NewFile, u: Tables, w: Tables)
    requires FilesAdded(kind, t, before, u) && FilesAdded(kind, t, before + [file], w)
    ensures w.nextId == u.nextId + 1
  {}

  lemma FreshHasPlace(ix: Index, tracked: set<string>, e: Entry)
    ensures Classify(ix, tracked, e).Fresh? ==> e.place.Some?
  {}

  /** After a complete scan each new file has a row, with its id; every episode that it names, or the movie
      that it belongs to, is linked to that id, and points to the first file that stands for it if its
      pointer was free. Every other row, link and pointer is as it was. */
  lemma ScanAdds(kind: Kind, t: Tables, ix: Index, es: seq<Entry>)
    requires forall id <- t.mediaFiles :: id < t.nextId
    ensures FilesAdded(kind, t, NewFiles(ix, TrackedPaths(t, kind), es), ApplyAll(t, ScanPlan(kind, t, ix, es)))
  {
    var files := NewFiles(ix, TrackedPaths(t, kind), es);
    assert FilesAdded(kind, t, [], t);
    assert [] + files == files;
    WalkAdds(kind, t, ix, TrackedPaths(t, kind), es, [], t);
  }
}
