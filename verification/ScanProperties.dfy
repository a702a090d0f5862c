/** What scans keep, that scanning again changes nothing, and that grouping loses no file. */
module ScanProperties {
  import opened Wrappers
  import opened Strings
  import opened ImportTables
  import opened Imports
  import opened Scans

  // ----- Safety of every prefix -----

  /** `u` can stand in for the tables `t` a scan plan was made for. */
  ghost predicate Follows(t: Tables, u: Tables) {
    forall k <- t.episodeIndex :: t.episodeIndex[k] in u.episodes
  }

  /** Linking adds no row to `media_files` and no episode. */
  lemma {:induction false} LinkingKeeps(t: Tables, u: Tables, series: int, season: Option<int>, numbers: seq<int>,
                                        id: int)
    ensures var v := ApplyAll(u, LinkNumbers(t, series, season, numbers, id));
      v.nextId == u.nextId && v.mediaFiles == u.mediaFiles && v.episodes.Keys == u.episodes.Keys
    decreases |numbers|
  {
    if numbers != [] {
      var rest := LinkNumbers(t, series, season, numbers[1..], id);
      var found := if season.Some? then FindEpisode(t, series, season.value, numbers[0]) else None;
      match found {
        case None =>
          assert LinkFound(found, id) + rest == rest;
          LinkingKeeps(t, u, series, season, numbers[1..], id);
        case Some(e) =>
          var u2 := Apply(Apply(u, LinkEpisode(e, id)), PointFreeEpisode(e, id));
          TwoSteps(u, LinkEpisode(e, id), PointFreeEpisode(e, id));
          ApplyAllConcat(u, LinkFound(found, id), rest);
          LinkingKeeps(t, u2, series, season, numbers[1..], id);
      }
    }
  }

  lemma OneStep(t: Tables, s: Statement, more: seq<Statement>)
    ensures ApplyAll(t, [s] + more) == ApplyAll(Apply(t, s), more)
    ensures SafeAll(t, [s] + more) <==> Safe(t, s) && SafeAll(Apply(t, s), more)
    ensures LinkSafeAll(t, [s] + more) <==> LinkSafe(t, s) && LinkSafeAll(Apply(t, s), more)
  {
    assert ([s] + more)[1..] == more;
  }

  /** The statements for one matched file are safe, and record exactly that file. */
  lemma FileStepsKeep(kind: Kind, t: Tables, u: Tables, e: Entry, owner: int)
    requires e.place.Some? && Follows(t, u)
    ensures var steps := FileSteps(kind, t, e, owner, u.nextId); var v := ApplyAll(u, steps);
      && SafeAll(u, steps) && LinkSafeAll(u, steps)
      && v.nextId == u.nextId + 1 && Follows(t, v)
      && v.mediaFiles == u.mediaFiles[u.nextId := MediaFile(kind, e.place.value.relative, e.size)]
  {
    var id := u.nextId;
    var insert := InsertMedia(MediaFile(kind, e.place.value.relative, e.size));
    var u1 := Apply(u, insert);
    match kind
    case SeriesFile =>
      LinkNumbersKeeps(t, u1, owner, e.parsed.season, e.parsed.numbers, id);
      LinkingKeeps(t, u1, owner, e.parsed.season, e.parsed.numbers, id);
      OneStep(u, insert, LinkNumbers(t, owner, e.parsed.season, e.parsed.numbers, id));
    case MovieFile =>
      var more := [PointFreeMovie(owner, id)];
      OneStep(u, insert, more);
      assert more == [PointFreeMovie(owner, id)] + [];
      OneStep(u1, more[0], []);
      NoStatements(Apply(u1, more[0]), []);
  }

  /** The paths recorded for the files that were not tracked before. */
  function FreshPaths(ix: Index, tracked: set<string>, es: seq<Entry>): seq<string> {
    if es == [] then []
    else
      (if Classify(ix, tracked, es[0]).Fresh? then [es[0].place.value.relative] else [])
      + FreshPaths(ix, tracked, es[1..])
  }

  lemma {:induction false} ScanKeeps(kind: Kind, t: Tables, u: Tables, ix: Index, tracked: set<string>, es: seq<Entry>)
    requires Follows(t, u) && forall id <- u.mediaFiles :: id < u.nextId
    ensures var steps := StepsOf(kind, t, ix, tracked, es, u.nextId); var v := ApplyAll(u, steps);
      && SafeAll(u, steps) && LinkSafeAll(u, steps)
      && v.nextId == u.nextId + |FreshPaths(ix, tracked, es)|
      && TrackedPaths(v, kind) == TrackedPaths(u, kind) + set p | p in FreshPaths(ix, tracked, es)
    decreases |es|
  {
    if es == [] {
      NoStatements(u, []);
    } else if Classify(ix, tracked, es[0]).Fresh? {
      hide ApplyAll, SafeAll, LinkSafeAll, FileSteps, TrackedPaths, StepsOf, FreshPaths, LinkNumbers;
      var owner := Classify(ix, tracked, es[0]).owner;
      FileStepsKeep(kind, t, u, es[0], owner);
      var v := ApplyAll(u, FileSteps(kind, t, es[0], owner, u.nextId));
      AddedPath(u, v, kind, es[0].place.value.relative, es[0].size);
      ScanKeeps(kind, t, v, ix, tracked, es[1..]);
      FreshFirst(kind, t, u, v, ix, tracked, es, owner);
    } else {
      hide ApplyAll, SafeAll, LinkSafeAll, FileSteps, TrackedPaths, Classify;
      ScanKeeps(kind, t, u, ix, tracked, es[1..]);
      var rest := StepsOf(kind, t, ix, tracked, es[1..], u.nextId);
      assert [] + rest == rest;
      assert [] + FreshPaths(ix, tracked, es[1..]) == FreshPaths(ix, tracked, es[1..]);
    }
  }

  /** The statements and paths of a scan whose first file is new. */
  lemma FreshFirst(kind: Kind, t: Tables, u: Tables, v: Tables, ix: Index, tracked: set<string>, es: seq<Entry>,
                   owner: int)
    requires es != [] && Classify(ix, tracked, es[0]) == Fresh(owner)
    requires var head := FileSteps(kind, t, es[0], owner, u.nextId);
      v == ApplyAll(u, head) && SafeAll(u, head) && LinkSafeAll(u, head) && v.nextId == u.nextId + 1
    requires var rest := StepsOf(kind, t, ix, tracked, es[1..], v.nextId); SafeAll(v, rest) && LinkSafeAll(v, rest)
    ensures var steps := StepsOf(kind, t, ix, tracked, es, u.nextId);
      && SafeAll(u, steps) && LinkSafeAll(u, steps)
      && ApplyAll(u, steps) == ApplyAll(v, StepsOf(kind, t, ix, tracked, es[1..], v.nextId))
    ensures FreshPaths(ix, tracked, es) == [es[0].place.value.relative] + FreshPaths(ix, tracked, es[1..])
  {
    hide ApplyAll, SafeAll, LinkSafeAll, FileSteps;
    var head := FileSteps(kind, t, es[0], owner, u.nextId);
    var rest := StepsOf(kind, t, ix, tracked, es[1..], v.nextId);
    SafeAllConcat(u, head, rest);
    LinkSafeAllConcat(u, head, rest);
    ApplyAllConcat(u, head, rest);
  }

  lemma AddedPath(u: Tables, v: Tables, kind: Kind, path: string, size: int)
    requires u.nextId !in u.mediaFiles
    requires v.mediaFiles == u.mediaFiles[u.nextId := MediaFile(kind, path, size)]
    ensures TrackedPaths(v, kind) == TrackedPaths(u, kind) + {path}
  {
    forall p | p in TrackedPaths(u, kind) ensures p in TrackedPaths(v, kind) {
      var id :| id in u.mediaFiles && u.mediaFiles[id].kind == kind && u.mediaFiles[id].path == p;
      assert v.mediaFiles[id] == u.mediaFiles[id];
    }
    assert v.mediaFiles[u.nextId].path == path;
  }

  /** Reference integrity, and agreement of pointers and links, at every step of a scan. */
  lemma ScanKeepsIntegrity(kind: Kind, t: Tables, ix: Index, es: seq<Entry>, n: nat)
    requires Integrity(t) && n <= |ScanPlan(kind, t, ix, es)|
    ensures Integrity(ApplyAll(t, ScanPlan(kind, t, ix, es)[..n]))
    ensures Linked(t) ==> Linked(ApplyAll(t, ScanPlan(kind, t, ix, es)[..n]))
  {
    ScanKeeps(kind, t, t, ix, TrackedPaths(t, kind), es);
    SafePrefixes(t, ScanPlan(kind, t, ix, es), n);
    if Linked(t) {
      LinkSafePrefixes(t, ScanPlan(kind, t, ix, es), n);
    }
  }

  // ----- Idempotence -----

  /** What the first scan has recorded, the second finds tracked. */
  lemma Reclassified(ix: Index, tracked: set<string>, more: set<string>, e: Entry)
    requires tracked <= more
    requires Classify(ix, tracked, e).Fresh? ==> e.place.value.relative in more
    ensures Classify(ix, more, e) == if Classify(ix, tracked, e).Fresh? then Tracked else Classify(ix, tracked, e)
  {}

  lemma {:induction false} NothingFresh(kind: Kind, t: Tables, ix: Index, tracked: set<string>, more: set<string>,
                                        es: seq<Entry>, id: int)
    requires tracked <= more && forall p <- FreshPaths(ix, tracked, es) :: p in more
    ensures StepsOf(kind, t, ix, more, es, id) == []
    decreases |es|
  {
    if es != [] {
      hide Classify;
      var added := FreshPaths(ix, tracked, es);
      assert Classify(ix, tracked, es[0]).Fresh? ==> added[0] in added;
      assert forall p <- FreshPaths(ix, tracked, es[1..]) :: p in added;
      Reclassified(ix, tracked, more, es[0]);
      NothingFresh(kind, t, ix, tracked, more, es[1..], id);
    }
  }

  lemma {:induction false} FreshSnoc(ix: Index, tracked: set<string>, es: seq<Entry>, e: Entry)
    ensures FreshPaths(ix, tracked, es + [e]) ==
      FreshPaths(ix, tracked, es) + if Classify(ix, tracked, e).Fresh? then [e.place.value.relative] else []
  {
    hide Classify;
    if es == [] {
      assert [] + [e] == [e] && [e][1..] == [];
    } else {
      assert (es + [e])[1..] == es[1..] + [e];
      FreshSnoc(ix, tracked, es[1..], e);
    }
  }

  lemma {:induction false} SecondSummary(ix: Index, tracked: set<string>, more: set<string>, es: seq<Entry>)
    requires tracked <= more && forall p <- FreshPaths(ix, tracked, es) :: p in more
    ensures var r := Summary(ix, tracked, es);
      && Summary(ix, more, es) == ScanResult(r.found, 0, r.unmatched, r.tracked + r.matched, r.unmatchedFiles)
      && r.matched == |FreshPaths(ix, tracked, es)|
    decreases |es|
  {
    if es != [] {
      var init, last := es[..|es| - 1], es[|es| - 1];
      assert es == init + [last];
      FreshSnoc(ix, tracked, init, last);
      var added := FreshPaths(ix, tracked, es);
      assert forall p <- FreshPaths(ix, tracked, init) :: p in added;
      assert Classify(ix, tracked, last).Fresh? ==> last.place.value.relative in added;
      Reclassified(ix, tracked, more, last);
      SecondSummary(ix, tracked, more, init);
    }
  }

  /** Scanning again, after a complete scan and with an unchanged library, inserts nothing, reports
      every matched and tracked file as tracked, and the same files as unmatched. */
  lemma ScanIsIdempotent(kind: Kind, t: Tables, ix: Index, es: seq<Entry>)
    requires Integrity(t)
    ensures var u := ApplyAll(t, ScanPlan(kind, t, ix, es));
      var r, again := Summary(ix, TrackedPaths(t, kind), es), Summary(ix, TrackedPaths(u, kind), es);
      && ScanPlan(kind, u, ix, es) == []
      && again == ScanResult(r.found, 0, r.unmatched, r.tracked + r.matched, r.unmatchedFiles)
      && u.nextId == t.nextId + r.matched
  {
    var tracked := TrackedPaths(t, kind);
    var u := ApplyAll(t, ScanPlan(kind, t, ix, es));
    ScanKeeps(kind, t, t, ix, tracked, es);
    NothingFresh(kind, u, ix, tracked, TrackedPaths(u, kind), es, u.nextId);
    SecondSummary(ix, tracked, TrackedPaths(u, kind), es);
  }

  // ----- Groups -----

  /** The files without a library row, in the order of the walk. */
  function UnknownFiles(ix: Index, tracked: set<string>, es: seq<Entry>): seq<Entry> {
    if es == [] then []
    else
      var before, last := UnknownFiles(ix, tracked, es[..|es| - 1]), es[|es| - 1];
      if Classify(ix, tracked, last) == Unknown then before + [last] else before
  }

  predicate Placed(es: seq<Entry>) {
    forall e <- es :: e.place.Some?
  }

  function OfKey(es: seq<Entry>, key: string): seq<Entry>
    requires Placed(es)
  {
    if es == [] then []
    else
      var before, last := OfKey(es[..|es| - 1], key), es[|es| - 1];
      if Lower(last.place.value.dir) == key then before + [last] else before
  }

  function TotalSize(es: seq<Entry>): int {
    if es == [] then 0 else TotalSize(es[..|es| - 1]) + es[|es| - 1].size
  }

  function Paths(es: seq<Entry>): seq<string> {
    if es == [] then [] else Paths(es[..|es| - 1]) + [es[|es| - 1].path]
  }

  function Seasons(es: seq<Entry>): set<int> {
    set e | e in es && e.parsed.season.Some? :: e.parsed.season.value
  }

  function FirstYear(es: seq<Entry>): Option<int> {
    if es == [] then None
    else if es[0].parsed.year.Some? then es[0].parsed.year
    else FirstYear(es[1..])
  }

  /** The group that the files of one directory make. */
  function GroupFor(es: seq<Entry>): Group
    requires es != [] && Placed(es)
  {
    assert es[0] in es;
    Group(es[0].place.value.dir, es[0].place.value.cleanTitle, |es|, TotalSize(es), FirstYear(es), Seasons(es),
        Paths(es))
  }

  lemma {:induction false} UnknownArePlaced(ix: Index, tracked: set<string>, es: seq<Entry>)
    ensures Placed(UnknownFiles(ix, tracked, es))
  {
    if es != [] {
      UnknownArePlaced(ix, tracked, es[..|es| - 1]);
    }
  }

  lemma {:induction false} OfKeyPlaced(es: seq<Entry>, key: string)
    requires Placed(es)
    ensures Placed(OfKey(es, key))
    ensures OfKey(es, key) == [] <==> forall e <- es :: Lower(e.place.value.dir) != key
  {
    if es != [] {
      var init, last := es[..|es| - 1], es[|es| - 1];
      assert forall e <- es :: e in init || e == last;
      OfKeyPlaced(init, key);
    }
  }

  lemma {:induction false} FirstYearSnoc(es: seq<Entry>, e: Entry)
    ensures FirstYear(es + [e]) == if FirstYear(es).Some? then FirstYear(es) else e.parsed.year
  {
    if es == [] {
      assert [] + [e] == [e] && [e][1..] == [];
    } else {
      assert (es + [e])[1..] == es[1..] + [e];
      FirstYearSnoc(es[1..], e);
    }
  }

  lemma GroupSnoc(es: seq<Entry>, e: Entry)
    requires Placed(es) && e.place.Some?
    ensures Placed(es + [e])
    ensures GroupFor(es + [e]) == Extend(if es == [] then NewGroup(e.place.value, e) else GroupFor(es), e)
  {
    var more := es + [e];
    assert more[..|more| - 1] == es;
    FirstYearSnoc(es, e);
    assert Seasons(more) == if e.parsed.season.Some? then Seasons(es) + {e.parsed.season.value} else Seasons(es) by {
      assert forall x :: x in more <==> x in es || x == e;
    }
    if es == [] {
      assert more == [e] && Seasons(es) == {} && TotalSize(es) == 0 && Paths(es) == [];
    } else {
      assert more[0] == es[0];
    }
  }

  /** The groups are exactly what their files make them: one for every directory with a file that
      has no library row, and in it these files in the order of the walk. */
  lemma {:induction false} GroupsAreExact(ix: Index, tracked: set<string>, es: seq<Entry>, key: string)
    ensures Placed(UnknownFiles(ix, tracked, es))
    ensures var files := OfKey(UnknownFiles(ix, tracked, es), key); var groups := GroupsOf(ix, tracked, es);
      && Placed(files)
      && (key in groups <==> files != [])
      && (files != [] ==> groups[key] == GroupFor(files))
    decreases |es|
  {
    UnknownArePlaced(ix, tracked, es);
    OfKeyPlaced(UnknownFiles(ix, tracked, es), key);
    if es != [] {
      hide Lower, Classify, GroupFor, Extend, NewGroup;
      var init, last := es[..|es| - 1], es[|es| - 1];
      GroupsAreExact(ix, tracked, init, key);
      var before := UnknownFiles(ix, tracked, init);
      if Classify(ix, tracked, last) == Unknown {
        assert (before + [last])[..|before|] == before;
        UnknownHasPlace(ix, tracked, last);
        if Lower(last.place.value.dir) == key {
          GroupSnoc(OfKey(before, key), last);
        }
      }
    }
  }

  lemma UnknownHasPlace(ix: Index, tracked: set<string>, e: Entry)
    requires Classify(ix, tracked, e) == Unknown
    ensures e.place.Some?
  {}

  /** Files and bytes over all groups. */
  ghost function Totals(groups: map<string, Group>): (int, int)
    decreases |groups|
  {
    if groups == map[] then (0, 0)
    else
      var key :| key in groups;
      var rest := Totals(groups - {key});
      (rest.0 + groups[key].fileCount, rest.1 + groups[key].totalSize)
  }

  lemma TotalsPick(groups: map<string, Group>) returns (key: string)
    requires groups != map[]
    ensures key in groups && Totals(groups) ==
      (Totals(groups - {key}).0 + groups[key].fileCount, Totals(groups - {key}).1 + groups[key].totalSize)
  {
    key :| key in groups && Totals(groups) ==
      (Totals(groups - {key}).0 + groups[key].fileCount, Totals(groups - {key}).1 + groups[key].totalSize);
  }

  lemma Smaller(groups: map<string, Group>, key: string)
    requires key in groups
    ensures |groups - {key}| < |groups|
  {
    assert groups == (groups - {key})[key := groups[key]];
  }

  /** Any group can be taken out first. */
  lemma {:induction false} TotalsWithout(groups: map<string, Group>, key: string)
    requires key in groups
    ensures Totals(groups) ==
      (Totals(groups - {key}).0 + groups[key].fileCount, Totals(groups - {key}).1 + groups[key].totalSize)
    decreases |groups|
  {
    var first := TotalsPick(groups);
    hide Totals;
    if first != key {
      var less, fewer := groups - {first}, groups - {key};
      Smaller(groups, first);
      Smaller(groups, key);
      TotalsWithout(less, key);
      TotalsWithout(fewer, first);
      assert less - {key} == fewer - {first};
    }
  }

  lemma TotalsOfUpdate(groups: map<string, Group>, key: string, g: Group)
    ensures var was := if key in groups then (groups[key].fileCount as int, groups[key].totalSize) else (0, 0);
      var more := groups[key := g];
      && Totals(more).0 == Totals(groups).0 - was.0 + g.fileCount
      && Totals(more).1 == Totals(groups).1 - was.1 + g.totalSize
  {
    hide Totals;
    var more := groups[key := g];
    TotalsWithout(more, key);
    assert more - {key} == groups - {key};
    if key in groups {
      TotalsWithout(groups, key);
    } else {
      assert groups - {key} == groups;
    }
  }

  /** Grouping loses nothing: the file counts and sizes of all groups add up to those of the files
      without a library row. */
  lemma {:induction false} GroupsConserve(ix: Index, tracked: set<string>, es: seq<Entry>)
    ensures var files := UnknownFiles(ix, tracked, es);
      Totals(GroupsOf(ix, tracked, es)) == (|files| as int, TotalSize(files))
    decreases |es|
  {
    if es != [] {
      hide Lower, Classify, Totals;
      var init, last := es[..|es| - 1], es[|es| - 1];
      GroupsConserve(ix, tracked, init);
      if Classify(ix, tracked, last) == Unknown {
        UnknownHasPlace(ix, tracked, last);
        var before, files := GroupsOf(ix, tracked, init), UnknownFiles(ix, tracked, init);
        assert (files + [last])[..|files|] == files;
        var key := Lower(last.place.value.dir);
        TotalsOfUpdate(before, key, AddToGroup(before, last.place.value, last)[key]);
      }
    }
  }
}
