/** Scanning a library folder (`scan_series` and `scan_movies`): how files are matched, what is
    counted, which statements are issued, and how unmatched files are grouped. */
module Scans {
  import opened Wrappers
  import opened Strings
  import opened ImportTables
  import opened Imports

  // ----- What a scan reads -----

  datatype Parsed = Parsed(year: Option<int>, season: Option<int>, numbers: seq<int>)

  /** The first directory below the root, the title the parser makes of it, and the path below the
      root. */
  datatype Place = Place(dir: string, cleanTitle: string, relative: string)

  /** A file of the walk; `place` is missing when the path is not below the root. */
  datatype Entry = Entry(path: string, extension: string, place: Option<Place>, size: int, parsed: Parsed)

  datatype LibraryRow = LibraryRow(id: int, cleanTitle: string, path: string)

  datatype Index = Index(byTitle: map<string, int>, byFolder: map<string, int>)

  predicate IsMedia(extension: string) {
    Lower(extension) in {"mkv", "mp4", "avi", "wmv", "ts", "m4v", "flv", "mov", "webm"}
  }

  /** The last segment of a path without its trailing slashes. */
  function FolderName(path: string): string {
    LastSegment(StripEnd(path, '/'))
  }

  function LastSegment(path: string): string {
    if path == "" || path[|path| - 1] == '/' then "" else LastSegment(path[..|path| - 1]) + [path[|path| - 1]]
  }

  function AddRow(ix: Index, row: LibraryRow): Index {
    var folder := FolderName(row.path);
    Index(ix.byTitle[row.cleanTitle := row.id],
          if folder == "" then ix.byFolder else ix.byFolder[Lower(folder) := row.id])
  }

  function IndexOf(rows: seq<LibraryRow>): Index {
    if rows == [] then Index(map[], map[]) else AddRow(IndexOf(rows[..|rows| - 1]), rows[|rows| - 1])
  }

  /** A key of one of the two tables. */
  datatype Key = Title(text: string) | Folder(text: string)

  predicate HasKey(row: LibraryRow, key: Key) {
    match key
    case Title(t) => row.cleanTitle == t
    case Folder(f) => FolderName(row.path) != "" && Lower(FolderName(row.path)) == f
  }

  function RowOf(ix: Index, key: Key): Option<int> {
    match key
    case Title(t) => if t in ix.byTitle then Some(ix.byTitle[t]) else None
    case Folder(f) => if f in ix.byFolder then Some(ix.byFolder[f]) else None
  }

  /** Row number `i` is the last that has the key. */
  predicate IsLast(rows: seq<LibraryRow>, key: Key, i: nat) {
    i < |rows| && HasKey(rows[i], key) && forall j :: i < j < |rows| ==> !HasKey(rows[j], key)
  }

  /** Under every title and every folder the tables hold the last row that has it, if there is one. */
  lemma {:induction false} LastRowWins(rows: seq<LibraryRow>, key: Key)
    ensures match RowOf(IndexOf(rows), key)
      case None => forall i :: 0 <= i < |rows| ==> !HasKey(rows[i], key)
      case Some(id) => exists i: nat :: IsLast(rows, key, i) && rows[i].id == id
  {
    if rows != [] {
      var before, row := rows[..|rows| - 1], rows[|rows| - 1];
      LastRowWins(before, key);
      OneRow(IndexOf(before), row, key);
      hide HasKey, RowOf, AddRow, IsLast;
      assert rows == before + [row];
      if HasKey(row, key) {
        NewLast(before, row, key);
      } else if RowOf(IndexOf(before), key).Some? {
        var i: nat :| IsLast(before, key, i) && before[i].id == RowOf(IndexOf(before), key).value;
        SameLast(before, row, key, i);
      }
    }
  }

  lemma NewLast(before: seq<LibraryRow>, row: LibraryRow, key: Key)
    requires HasKey(row, key)
    ensures IsLast(before + [row], key, |before|)
  {
    hide HasKey;
  }

  lemma SameLast(before: seq<LibraryRow>, row: LibraryRow, key: Key, i: nat)
    requires !HasKey(row, key) && IsLast(before, key, i)
    ensures IsLast(before + [row], key, i) && (before + [row])[i] == before[i]
  {
    hide HasKey;
  }

  lemma OneRow(ix: Index, row: LibraryRow, key: Key)
    ensures RowOf(AddRow(ix, row), key) == if HasKey(row, key) then Some(row.id) else RowOf(ix, key)
  {
    hide FolderName, Lower;
  }

  method BuildIndex(rows: seq<LibraryRow>) returns (ix: Index)
    ensures ix == IndexOf(rows)
  {
    var byTitle: map<string, int> := map[];
    var byFolder: map<string, int> := map[];
    for i := 0 to |rows|
      invariant Index(byTitle, byFolder) == IndexOf(rows[..i])
    {
      assert rows[..i + 1][..i] == rows[..i];
      byTitle := byTitle[rows[i].cleanTitle := rows[i].id];
      var folder := FolderName(rows[i].path);
      if folder != "" {
        byFolder := byFolder[Lower(folder) := rows[i].id];
      }
    }
    assert rows[..|rows|] == rows;
    ix := Index(byTitle, byFolder);
  }

  /** The library row a file belongs to: by clean title first, then by folder name. */
  function Owner(ix: Index, p: Place): Option<int> {
    if p.cleanTitle in ix.byTitle then Some(ix.byTitle[p.cleanTitle])
    else if Lower(p.dir) in ix.byFolder then Some(ix.byFolder[Lower(p.dir)])
    else None
  }

  datatype Class = NotMedia | NoPlace | Unknown | Tracked | Fresh(owner: int)

  function Classify(ix: Index, tracked: set<string>, e: Entry): Class {
    if !IsMedia(e.extension) then NotMedia
    else
      match e.place
      case None => NoPlace
      case Some(p) =>
        match Owner(ix, p)
        case None => Unknown
        case Some(id) => if p.relative in tracked then Tracked else Fresh(id)
  }

  function TrackedPaths(t: Tables, kind: Kind): set<string> {
    set id | id in t.mediaFiles && t.mediaFiles[id].kind == kind :: t.mediaFiles[id].path
  }

  // ----- What a scan counts -----

  datatype ScanResult = ScanResult(found: nat, matched: nat, unmatched: nat, tracked: nat, unmatchedFiles: seq<string>)

  const Nothing := ScanResult(0, 0, 0, 0, [])

  function CountFile(r: ScanResult, c: Class, path: string): ScanResult {
    match c
    case NotMedia => r
    case NoPlace => r.(found := r.found + 1, unmatched := r.unmatched + 1, unmatchedFiles := r.unmatchedFiles + [path])
    case Unknown => r.(found := r.found + 1, unmatched := r.unmatched + 1, unmatchedFiles := r.unmatchedFiles + [path])
    case Tracked => r.(found := r.found + 1, tracked := r.tracked + 1)
    case Fresh(_) => r.(found := r.found + 1, matched := r.matched + 1)
  }

  function Summary(ix: Index, tracked: set<string>, es: seq<Entry>): ScanResult {
    if es == [] then Nothing
    else
      var last := es[|es| - 1];
      CountFile(Summary(ix, tracked, es[..|es| - 1]), Classify(ix, tracked, last), last.path)
  }

  /** Conservation: every media file found is matched, unmatched or already tracked, and there is
      one entry per unmatched file. */
  lemma {:induction false} ScanConserves(ix: Index, tracked: set<string>, es: seq<Entry>)
    ensures var r := Summary(ix, tracked, es);
      r.found == r.matched + r.unmatched + r.tracked && |r.unmatchedFiles| == r.unmatched
  {
    if es != [] {
      ScanConserves(ix, tracked, es[..|es| - 1]);
    }
  }

  // ----- What a scan writes -----

  function FileSteps(kind: Kind, t: Tables, e: Entry, owner: int, id: int): seq<Statement>
    requires e.place.Some?
  {
    [InsertMedia(MediaFile(kind, e.place.value.relative, e.size))]
    + match kind
      case SeriesFile => LinkNumbers(t, owner, e.parsed.season, e.parsed.numbers, id)
      case MovieFile => [PointFreeMovie(owner, id)]
  }

  function StepsFor(kind: Kind, t: Tables, ix: Index, tracked: set<string>, e: Entry, id: int): seq<Statement> {
    match Classify(ix, tracked, e)
    case Fresh(owner) => FileSteps(kind, t, e, owner, id)
    case _ => []
  }

  function NextFileId(ix: Index, tracked: set<string>, e: Entry, id: int): int {
    if Classify(ix, tracked, e).Fresh? then id + 1 else id
  }

  /** The statements of a scan; the set of tracked paths is read once, before the first of them. */
  function StepsOf(kind: Kind, t: Tables, ix: Index, tracked: set<string>, es: seq<Entry>, id: int): seq<Statement> {
    if es == [] then []
    else
      StepsFor(kind, t, ix, tracked, es[0], id)
      + StepsOf(kind, t, ix, tracked, es[1..], NextFileId(ix, tracked, es[0], id))
  }

  function ScanPlan(kind: Kind, t: Tables, ix: Index, es: seq<Entry>): seq<Statement> {
    StepsOf(kind, t, ix, TrackedPaths(t, kind), es, t.nextId)
  }

  // ----- Groups of unmatched files -----

  datatype Group = Group(
    dir: string, title: string, fileCount: nat, totalSize: int, year: Option<int>,
    seasons: set<int>, files: seq<string>)

  function NewGroup(p: Place, e: Entry): Group {
    Group(p.dir, p.cleanTitle, 0, 0, e.parsed.year, {}, [])
  }

  function Extend(g: Group, e: Entry): Group {
    Group(
      g.dir, g.title, g.fileCount + 1, g.totalSize + e.size,
      if g.year.None? && e.parsed.year.Some? then e.parsed.year else g.year,
      if e.parsed.season.Some? then g.seasons + {e.parsed.season.value} else g.seasons,
      g.files + [e.path])
  }

  function AddToGroup(groups: map<string, Group>, p: Place, e: Entry): map<string, Group> {
    var key := Lower(p.dir);
    groups[key := Extend(if key in groups then groups[key] else NewGroup(p, e), e)]
  }

  function GroupsOf(ix: Index, tracked: set<string>, es: seq<Entry>): map<string, Group> {
    if es == [] then map[]
    else
      var before, last := GroupsOf(ix, tracked, es[..|es| - 1]), es[|es| - 1];
      if Classify(ix, tracked, last) == Unknown then AddToGroup(before, last.place.value, last) else before
  }

  // ----- The loops -----

  lemma NoEntries(kind: Kind, t: Tables, ix: Index, tracked: set<string>, es: seq<Entry>)
    ensures es[0..] == es && forall id :: StepsOf(kind, t, ix, tracked, es[|es|..], id) == []
    ensures Summary(ix, tracked, es[..0]) == Nothing && GroupsOf(ix, tracked, es[..0]) == map[]
  {}

  lemma OneEntry(kind: Kind, t: Tables, ix: Index, tracked: set<string>, es: seq<Entry>, i: nat, id: int)
    requires i < |es|
    ensures var e := es[i]; var c := Classify(ix, tracked, e);
      && StepsOf(kind, t, ix, tracked, es[i..], id)
         == StepsFor(kind, t, ix, tracked, e, id)
            + StepsOf(kind, t, ix, tracked, es[i + 1..], NextFileId(ix, tracked, e, id))
      && Summary(ix, tracked, es[..i + 1]) == CountFile(Summary(ix, tracked, es[..i]), c, e.path)
      && GroupsOf(ix, tracked, es[..i + 1])
         == if c == Unknown then AddToGroup(GroupsOf(ix, tracked, es[..i]), e.place.value, e)
            else GroupsOf(ix, tracked, es[..i])
  {
    hide StepsFor, CountFile, Classify, AddToGroup;
    assert es[i..][1..] == es[i + 1..] && es[..i + 1][..i] == es[..i];
  }

  /** `scan_series`: counters, groups and statements are exactly those of the specification. */
  method ScanSeries(db: Database, rows: seq<LibraryRow>, es: seq<Entry>)
    returns (ok: bool, result: ScanResult, groups: map<string, Group>, ghost n: nat)
    requires db.Valid()
    modifies db
    ensures var t := old(db.tables); var ix := IndexOf(rows); var plan := ScanPlan(SeriesFile, t, ix, es);
      && Executed(db, old(db.start), old(db.log), t, plan, n)
      && (!ok ==> db.budget == 0)
      && (ok ==> n == |plan| && result == Summary(ix, TrackedPaths(t, SeriesFile), es)
                 && groups == GroupsOf(ix, TrackedPaths(t, SeriesFile), es))
  {
    hide Apply, ApplyAll, LinkNumbers, IndexOf, TrackedPaths, IsMedia, Lower, Summary, StepsOf, GroupsOf,
      AddToGroup, FileSteps;
    ghost var t, start, before := db.tables, db.start, db.log;
    var ix := BuildIndex(rows);
    var tracked := TrackedPaths(db.tables, SeriesFile);
    ghost var plan := ScanPlan(SeriesFile, t, ix, es);
    NothingExecuted(db, plan);
    NoEntries(SeriesFile, t, ix, tracked, es);
    ok, result, groups, n := true, Nothing, map[], 0;
    for i := 0 to |es|
      invariant ok && Executed(db, start, before, t, plan, n)
      invariant db.tables.episodeIndex == t.episodeIndex
      invariant plan[n..] == StepsOf(SeriesFile, t, ix, tracked, es[i..], db.tables.nextId)
      invariant result == Summary(ix, tracked, es[..i])
      invariant groups == GroupsOf(ix, tracked, es[..i])
    {
      var e := es[i];
      OneEntry(SeriesFile, t, ix, tracked, es, i, db.tables.nextId);
      if IsMedia(e.extension) {
        result := result.(found := result.found + 1);
        if e.place.None? {
          result := result.(unmatched := result.unmatched + 1, unmatchedFiles := result.unmatchedFiles + [e.path]);
        } else {
          var owner := Owner(ix, e.place.value);
          if owner.None? {
            result := result.(unmatched := result.unmatched + 1, unmatchedFiles := result.unmatchedFiles + [e.path]);
            groups := AddToGroup(groups, e.place.value, e);
          } else if e.place.value.relative in tracked {
            result := result.(tracked := result.tracked + 1);
          } else {
            ok, n := AddScanned(db, start, before, t, plan, n, e, owner.value,
                                StepsOf(SeriesFile, t, ix, tracked, es[i + 1..], db.tables.nextId + 1));
            if !ok { return; }
            result := result.(matched := result.matched + 1);
          }
        }
      }
    }
    assert es[..|es|] == es;
  }

  /** The statements for one matched file. */
  method AddScanned(db: Database, ghost start: Tables, ghost before: seq<Statement>, ghost t: Tables,
                    ghost plan: seq<Statement>, ghost from: nat, e: Entry, owner: int, ghost rest: seq<Statement>)
    returns (ok: bool, ghost n: nat)
    requires Executed(db, start, before, t, plan, from) && e.place.Some?
    requires plan[from..] == FileSteps(SeriesFile, t, e, owner, db.tables.nextId) + rest
    requires db.tables.episodeIndex == t.episodeIndex
    modifies db
    ensures Executed(db, start, before, t, plan, n)
    ensures if ok then plan[n..] == rest else db.budget == 0
    ensures ok ==> db.tables.episodeIndex == t.episodeIndex && db.tables.nextId == old(db.tables.nextId) + 1
  {
    hide Apply, ApplyAll, LinkNumbers;
    n := from;
    var id := db.tables.nextId;
    ghost var links := LinkNumbers(t, owner, e.parsed.season, e.parsed.numbers, id);
    assert plan[n] == plan[n..][0];
    ok := Perform(db, start, before, t, plan, n, InsertMedia(MediaFile(SeriesFile, e.place.value.relative, e.size)));
    if !ok { return; }
    n := n + 1;
    assert plan[n..] == plan[from..][1..] == links + rest;
    ok, n := LinkMore(db, start, before, t, plan, n, owner, e.parsed.season, e.parsed.numbers, id);
    if !ok { return; }
    assert plan[n..] == plan[from + 1..][|links|..] == rest;
  }

  method AddScannedMovie(db: Database, ghost start: Tables, ghost before: seq<Statement>, ghost t: Tables,
                         ghost plan: seq<Statement>, ghost from: nat, e: Entry, owner: int, ghost rest: seq<Statement>)
    returns (ok: bool, ghost n: nat)
    requires Executed(db, start, before, t, plan, from) && e.place.Some?
    requires plan[from..] == FileSteps(MovieFile, t, e, owner, db.tables.nextId) + rest
    modifies db
    ensures Executed(db, start, before, t, plan, n)
    ensures if ok then plan[n..] == rest else db.budget == 0
    ensures ok ==> db.tables.nextId == old(db.tables.nextId) + 1
  {
    hide Apply, ApplyAll;
    n := from;
    var id := db.tables.nextId;
    assert plan[n] == plan[n..][0] && plan[n + 1] == plan[n..][1];
    ok := Perform(db, start, before, t, plan, n, InsertMedia(MediaFile(MovieFile, e.place.value.relative, e.size)));
    if !ok { return; }
    n := n + 1;
    ok := Perform(db, start, before, t, plan, n, PointFreeMovie(owner, id));
    if !ok { return; }
    n := n + 1;
    assert plan[n..] == plan[from..][2..] == rest;
  }

  /** `scan_movies`. */
  method ScanMovies(db: Database, rows: seq<LibraryRow>, es: seq<Entry>)
    returns (ok: bool, result: ScanResult, ghost n: nat)
    requires db.Valid()
    modifies db
    ensures var t := old(db.tables); var ix := IndexOf(rows); var plan := ScanPlan(MovieFile, t, ix, es);
      && Executed(db, old(db.start), old(db.log), t, plan, n)
      && (!ok ==> db.budget == 0)
      && (ok ==> n == |plan| && result == Summary(ix, TrackedPaths(t, MovieFile), es))
  {
    hide Apply, ApplyAll, LinkNumbers, IndexOf, TrackedPaths, IsMedia, Lower, Summary, StepsOf, GroupsOf,
      AddToGroup, FileSteps;
    ghost var t, start, before := db.tables, db.start, db.log;
    var ix := BuildIndex(rows);
    var tracked := TrackedPaths(db.tables, MovieFile);
    ghost var plan := ScanPlan(MovieFile, t, ix, es);
    NothingExecuted(db, plan);
    NoEntries(MovieFile, t, ix, tracked, es);
    ok, result, n := true, Nothing, 0;
    for i := 0 to |es|
      invariant ok && Executed(db, start, before, t, plan, n)
      invariant plan[n..] == StepsOf(MovieFile, t, ix, tracked, es[i..], db.tables.nextId)
      invariant result == Summary(ix, tracked, es[..i])
    {
      var e := es[i];
      OneEntry(MovieFile, t, ix, tracked, es, i, db.tables.nextId);
      if IsMedia(e.extension) {
        result := result.(found := result.found + 1);
        if e.place.None? {
          result := result.(unmatched := result.unmatched + 1, unmatchedFiles := result.unmatchedFiles + [e.path]);
        } else {
          var owner := Owner(ix, e.place.value);
          if owner.None? {
            result := result.(unmatched := result.unmatched + 1, unmatchedFiles := result.unmatchedFiles + [e.path]);
          } else if e.place.value.relative in tracked {
            result := result.(tracked := result.tracked + 1);
          } else {
            ok, n := AddScannedMovie(db, start, before, t, plan, n, e, owner.value,
                                     StepsOf(MovieFile, t, ix, tracked, es[i + 1..], db.tables.nextId + 1));
            if !ok { return; }
            result := result.(matched := result.matched + 1);
          }
        }
      }
    }
    assert es[..|es|] == es;
  }
}
