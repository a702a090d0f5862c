/** The tables that the import and scan pipeline writes, its SQL statements as atomic steps, and
    what every step keeps. The foreign keys of the schema are not used: the statements alone are
    shown to leave no dangling reference. */
module ImportTables {
  import opened Wrappers

  datatype Kind = SeriesFile | MovieFile

  datatype MediaFile = MediaFile(kind: Kind, path: string, size: int)

  /** `episodes` and `movies` hold the file pointer of each row; `episodeIndex` is the unique key
      (series, season, number); `nextId` is the sequence behind `media_files.id`. */
  datatype Tables = Tables(
    mediaFiles: map<int, MediaFile>,
    episodes: map<int, Option<int>>,
    episodeFiles: set<(int, int)>,
    movies: map<int, Option<int>>,
    episodeIndex: map<(int, int, int), int>,
    nextId: int)

  datatype Statement =
    | InsertMedia(file: MediaFile)
    | LinkEpisode(episode: int, fileId: int)
    | PointEpisode(episode: int, fileId: int)
    | PointFreeEpisode(episode: int, fileId: int)
    | PointMovie(movie: int, fileId: int)
    | PointFreeMovie(movie: int, fileId: int)
    | UnlinkFile(fileId: int)
    | UnpointEpisodes(fileId: int)
    | UnpointMovies(fileId: int)
    | DeleteMedia(fileId: int)
    | InsertRecycled
    | InsertHistory

  function SetPointer(rows: map<int, Option<int>>, id: int, fileId: int, onlyFree: bool): map<int, Option<int>> {
    if id in rows && (onlyFree ==> rows[id] == None) then rows[id := Some(fileId)] else rows
  }

  function ClearPointers(rows: map<int, Option<int>>, fileId: int): map<int, Option<int>> {
    map id | id in rows :: if rows[id] == Some(fileId) then None else rows[id]
  }

  function Apply(t: Tables, s: Statement): Tables {
    match s
    case InsertMedia(f) => t.(mediaFiles := t.mediaFiles[t.nextId := f], nextId := t.nextId + 1)
    case LinkEpisode(e, f) => t.(episodeFiles := t.episodeFiles + {(e, f)})
    case PointEpisode(e, f) => t.(episodes := SetPointer(t.episodes, e, f, false))
    case PointFreeEpisode(e, f) => t.(episodes := SetPointer(t.episodes, e, f, true))
    case PointMovie(m, f) => t.(movies := SetPointer(t.movies, m, f, false))
    case PointFreeMovie(m, f) => t.(movies := SetPointer(t.movies, m, f, true))
    case UnlinkFile(f) => t.(episodeFiles := set l | l in t.episodeFiles && l.1 != f)
    case UnpointEpisodes(f) => t.(episodes := ClearPointers(t.episodes, f))
    case UnpointMovies(f) => t.(movies := ClearPointers(t.movies, f))
    case DeleteMedia(f) => t.(mediaFiles := t.mediaFiles - {f})
    case InsertRecycled => t
    case InsertHistory => t
  }

  function ApplyAll(t: Tables, plan: seq<Statement>): Tables
    decreases |plan|
  {
    if plan == [] then t else ApplyAll(Apply(t, plan[0]), plan[1..])
  }

  lemma {:induction false} ApplyAllConcat(t: Tables, a: seq<Statement>, b: seq<Statement>)
    ensures ApplyAll(t, a + b) == ApplyAll(ApplyAll(t, a), b)
    decreases |a|
  {
    if a == [] {
      assert a + b == b;
    } else {
      assert (a + b)[1..] == a[1..] + b;
      ApplyAllConcat(Apply(t, a[0]), a[1..], b);
    }
  }

  // ----- Reference integrity -----

  predicate IsFile(t: Tables, id: int, kind: Kind) {
    id in t.mediaFiles && t.mediaFiles[id].kind == kind
  }

  /** Every reference to a file names an existing row of the right type. */
  ghost predicate Integrity(t: Tables) {
    && (forall e <- t.episodes :: t.episodes[e].Some? ==> IsFile(t, t.episodes[e].value, SeriesFile))
    && (forall l <- t.episodeFiles :: l.0 in t.episodes && IsFile(t, l.1, SeriesFile))
    && (forall m <- t.movies :: t.movies[m].Some? ==> IsFile(t, t.movies[m].value, MovieFile))
    && (forall id <- t.mediaFiles :: id < t.nextId)
    && (forall k <- t.episodeIndex :: t.episodeIndex[k] in t.episodes)
  }

  /** An episode's file pointer has its row in `episode_files`. */
  predicate Linked(t: Tables) {
    forall e <- t.episodes :: t.episodes[e].Some? ==> (e, t.episodes[e].value) in t.episodeFiles
  }

  predicate Unreferenced(t: Tables, f: int) {
    && (forall e <- t.episodes :: t.episodes[e] != Some(f))
    && (forall l <- t.episodeFiles :: l.1 != f)
    && (forall m <- t.movies :: t.movies[m] != Some(f))
  }

  /** What a statement needs so as not to break integrity. */
  predicate Safe(t: Tables, s: Statement) {
    match s
    case LinkEpisode(e, f) => e in t.episodes && IsFile(t, f, SeriesFile)
    case PointEpisode(_, f) => IsFile(t, f, SeriesFile)
    case PointFreeEpisode(_, f) => IsFile(t, f, SeriesFile)
    case PointMovie(_, f) => IsFile(t, f, MovieFile)
    case PointFreeMovie(_, f) => IsFile(t, f, MovieFile)
    case DeleteMedia(f) => Unreferenced(t, f)
    case _ => true
  }

  lemma SafeStep(t: Tables, s: Statement)
    requires Integrity(t) && Safe(t, s)
    ensures Integrity(Apply(t, s))
  {
    var u := Apply(t, s);
    match s
    case InsertMedia(f) =>
      assert forall id, k :: IsFile(t, id, k) ==> IsFile(u, id, k);
    case DeleteMedia(f) =>
      assert forall id, k :: id != f && IsFile(t, id, k) ==> IsFile(u, id, k);
    case _ =>
      assert forall id, k :: IsFile(t, id, k) ==> IsFile(u, id, k);
  }

  predicate SafeAll(t: Tables, plan: seq<Statement>)
    decreases |plan|
  {
    plan == [] || (Safe(t, plan[0]) && SafeAll(Apply(t, plan[0]), plan[1..]))
  }

  lemma {:induction false} SafeAllConcat(t: Tables, a: seq<Statement>, b: seq<Statement>)
    requires SafeAll(t, a) && SafeAll(ApplyAll(t, a), b)
    ensures SafeAll(t, a + b)
    decreases |a|
  {
    if a == [] {
      assert a + b == b;
    } else {
      assert (a + b)[1..] == a[1..] + b;
      SafeAllConcat(Apply(t, a[0]), a[1..], b);
    }
  }

  /** A safe plan keeps integrity wherever it is cut short. */
  lemma {:induction false} SafePrefixes(t: Tables, plan: seq<Statement>, n: nat)
    requires Integrity(t) && SafeAll(t, plan) && n <= |plan|
    ensures Integrity(ApplyAll(t, plan[..n]))
    decreases n
  {
    if n > 0 {
      SafeStep(t, plan[0]);
      SafePrefixes(Apply(t, plan[0]), plan[1..], n - 1);
      assert plan[..n][1..] == plan[1..][..n - 1];
    }
  }

  // ----- Pointers and links -----

  /** What a statement needs so as not to part a pointer from its link. */
  predicate LinkSafe(t: Tables, s: Statement) {
    match s
    case PointEpisode(e, f) => (e, f) in t.episodeFiles
    case PointFreeEpisode(e, f) => (e, f) in t.episodeFiles
    case UnlinkFile(f) => forall e <- t.episodes :: t.episodes[e] != Some(f)
    case _ => true
  }

  lemma LinkSafeStep(t: Tables, s: Statement)
    requires Linked(t) && LinkSafe(t, s)
    ensures Linked(Apply(t, s))
  {}

  predicate LinkSafeAll(t: Tables, plan: seq<Statement>)
    decreases |plan|
  {
    plan == [] || (LinkSafe(t, plan[0]) && LinkSafeAll(Apply(t, plan[0]), plan[1..]))
  }

  lemma {:induction false} LinkSafeAllConcat(t: Tables, a: seq<Statement>, b: seq<Statement>)
    requires LinkSafeAll(t, a) && LinkSafeAll(ApplyAll(t, a), b)
    ensures LinkSafeAll(t, a + b)
    decreases |a|
  {
    if a == [] {
      assert a + b == b;
    } else {
      assert (a + b)[1..] == a[1..] + b;
      LinkSafeAllConcat(Apply(t, a[0]), a[1..], b);
    }
  }

  lemma {:induction false} LinkSafePrefixes(t: Tables, plan: seq<Statement>, n: nat)
    requires Linked(t) && LinkSafeAll(t, plan) && n <= |plan|
    ensures Linked(ApplyAll(t, plan[..n]))
    decreases n
  {
    if n > 0 {
      LinkSafeStep(t, plan[0]);
      LinkSafePrefixes(Apply(t, plan[0]), plan[1..], n - 1);
      assert plan[..n][1..] == plan[1..][..n - 1];
    }
  }

  lemma TwoSteps(t: Tables, a: Statement, b: Statement)
    ensures var t1 := Apply(t, a);
      && ApplyAll(t, [a, b]) == Apply(t1, b)
      && (SafeAll(t, [a, b]) <==> Safe(t, a) && Safe(t1, b))
      && (LinkSafeAll(t, [a, b]) <==> LinkSafe(t, a) && LinkSafe(t1, b))
  {
    var one, both := [b], [a, b];
    assert both[1..] == one && one[1..] == [];
    NoStatements(Apply(Apply(t, a), b), one[1..]);
  }

  lemma NoStatements(t: Tables, plan: seq<Statement>)
    requires |plan| == 0
    ensures ApplyAll(t, plan) == t && SafeAll(t, plan) && LinkSafeAll(t, plan)
  {}

  lemma ThreeSteps(t: Tables, a: Statement, b: Statement, c: Statement)
    ensures var t1 := Apply(t, a); var t2 := Apply(t1, b);
      && ApplyAll(t, [a, b, c]) == Apply(t2, c)
      && (SafeAll(t, [a, b, c]) <==> Safe(t, a) && Safe(t1, b) && Safe(t2, c))
      && (LinkSafeAll(t, [a, b, c]) <==> LinkSafe(t, a) && LinkSafe(t1, b) && LinkSafe(t2, c))
  {
    hide Apply, Safe, LinkSafe;
    assert [a, b, c][1..] == [b, c];
    TwoSteps(Apply(t, a), b, c);
  }

  lemma FourSteps(t: Tables, a: Statement, b: Statement, c: Statement, d: Statement)
    ensures var t1 := Apply(t, a); var t2 := Apply(t1, b); var t3 := Apply(t2, c);
      && ApplyAll(t, [a, b, c, d]) == Apply(t3, d)
      && (SafeAll(t, [a, b, c, d]) <==> Safe(t, a) && Safe(t1, b) && Safe(t2, c) && Safe(t3, d))
  {
    hide Apply, Safe, LinkSafe;
    assert [a, b, c, d][1..] == [b, c, d];
    ThreeSteps(Apply(t, a), b, c, d);
  }

  // ----- The database as the program uses it -----

  /** A connection: every statement may be the last one that is executed. `budget` is the number
      of statements after which the connection, or a file operation between them, fails. */
  class Database {
    var tables: Tables
    var budget: nat
    ghost var start: Tables
    ghost var log: seq<Statement>

    constructor (t: Tables, statements: nat)
      ensures tables == t && budget == statements && start == t && log == [] && Valid()
    {
      tables, budget, start, log := t, statements, t, [];
    }

    /** The tables are what the executed statements made of them. */
    ghost predicate Valid()
      reads this
    {
      tables == ApplyAll(start, log)
    }

    method Execute(s: Statement) returns (ok: bool)
      requires Valid()
      modifies this
      ensures Valid() && start == old(start)
      ensures ok == (old(budget) > 0)
      ensures ok ==> log == old(log) + [s] && tables == Apply(old(tables), s) && budget == old(budget) - 1
      ensures !ok ==> log == old(log) && tables == old(tables) && budget == 0
    {
      ok := budget > 0;
      if ok {
        ApplyAllConcat(start, log, [s]);
        tables := Apply(tables, s);
        budget := budget - 1;
        log := log + [s];
      }
    }
  }
}
