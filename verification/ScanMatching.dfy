/** Which files a scan takes for media files, which library row it finds for them, and what it counts. */
module ScanMatching {
  import opened Wrappers
  import opened Strings
  import opened ImportTables
  import opened Scans
  import opened ImportEffects

  // ----- Media files -----

  /** The nine extensions in any letter case, and no others. */
  lemma MediaExtensions(extension: string)
    ensures IsMedia(extension) <==>
      exists m <- {"mkv", "mp4", "avi", "wmv", "ts", "m4v", "flv", "mov", "webm"} :: SameLetters(extension, m)
  {
    LowerIs(extension, "mkv");
    LowerIs(extension, "mp4");
    LowerIs(extension, "avi");
    LowerIs(extension, "wmv");
    LowerIs(extension, "ts");
    LowerIs(extension, "m4v");
    LowerIs(extension, "flv");
    LowerIs(extension, "mov");
    LowerIs(extension, "webm");
    hide Lower, SameLetters;
  }

  // ----- Folders -----

  /** The folder name is the last segment of the path: what stands between its slashes, with nothing but
      slashes after it. */
  lemma FolderNameExact(parent: string, name: string, slashes: string)
    requires '/' !in name && (forall c <- slashes :: c == '/')
    requires parent == "" || parent[|parent| - 1] == '/'
    requires name != ""
    ensures FolderName(parent + name + slashes) == name
  {
    StripsSlashes(parent + name, slashes);
    SegmentAfter(parent, name);
  }

  lemma {:induction false} StripsSlashes(s: string, slashes: string)
    requires forall c <- slashes :: c == '/'
    requires s == "" || s[|s| - 1] != '/'
    ensures StripEnd(s + slashes, '/') == s
  {
    if slashes == "" {
      assert s + slashes == s;
    } else {
      var last := |slashes| - 1;
      assert slashes[last] in slashes && forall c <- slashes[..last] :: c in slashes;
      assert (s + slashes)[..|s + slashes| - 1] == s + slashes[..last];
      StripsSlashes(s, slashes[..last]);
    }
  }

  lemma {:induction false} SegmentAfter(parent: string, name: string)
    requires '/' !in name && (parent == "" || parent[|parent| - 1] == '/')
    ensures LastSegment(parent + name) == name
  {
    if name == "" {
      assert parent + name == parent;
    } else {
      var last := |name| - 1;
      assert (parent + name)[..|parent + name| - 1] == parent + name[..last];
      assert (parent + name)[|parent + name| - 1] == name[last];
      SegmentAfter(parent, name[..last]);
    }
  }

  /** A path of slashes alone has no folder name. */
  lemma NoFolderName(slashes: string)
    requires forall c <- slashes :: c == '/'
    ensures FolderName(slashes) == ""
  {
    StripsSlashes("", slashes);
    assert "" + slashes == slashes;
  }

  // ----- Owners -----

  /** The row `id` is the last one with the key. */
  ghost predicate LastWith(rows: seq<LibraryRow>, key: Key, id: int) {
    exists i: nat :: IsLast(rows, key, i) && rows[i].id == id
  }

  /** A file belongs to the last row with its clean title; without one, to the last row whose folder has the
      name of its directory, in any letter case; and otherwise to none. */
  lemma OwnerExact(rows: seq<LibraryRow>, p: Place, id: int)
    ensures Owner(IndexOf(rows), p) == Some(id) <==>
      if exists row <- rows :: row.cleanTitle == p.cleanTitle then LastWith(rows, Title(p.cleanTitle), id)
      else LastWith(rows, Folder(Lower(p.dir)), id)
  {
    LastRowWins(rows, Title(p.cleanTitle));
    LastRowWins(rows, Folder(Lower(p.dir)));
    OnlyOneLast(rows, Title(p.cleanTitle));
    OnlyOneLast(rows, Folder(Lower(p.dir)));
    if row :| row in rows && row.cleanTitle == p.cleanTitle {
      var i :| 0 <= i < |rows| && rows[i] == row;
      assert HasKey(rows[i], Title(p.cleanTitle));
    }
    hide IndexOf, Lower, FolderName;
  }

  lemma OnlyOneLast(rows: seq<LibraryRow>, key: Key)
    ensures forall i: nat, j: nat :: IsLast(rows, key, i) && IsLast(rows, key, j) ==> i == j
    ensures (exists i: nat :: IsLast(rows, key, i)) ==> exists i :: 0 <= i < |rows| && HasKey(rows[i], key)
  {
    hide HasKey;
  }

  /** A folder has the name of a directory in any letter case. */
  lemma FolderKey(row: LibraryRow, dir: string)
    ensures HasKey(row, Folder(Lower(dir))) <==>
      FolderName(row.path) != "" && SameLetters(FolderName(row.path), dir)
  {
    LowerAgrees(FolderName(row.path), dir);
  }

  // ----- Counting -----

  /** What a counter of the result stands for. */
  datatype Sort = Found | Matched | Unmatched | Recognised

  predicate Counts(sort: Sort, c: Class) {
    match sort
    case Found => !c.NotMedia?
    case Matched => c.Fresh?
    case Unmatched => c.Unknown? || c.NoPlace?
    case Recognised => c.Tracked?
  }

  /** The files that a counter counts, in the order of the walk. */
  function Those(ix: Index, tracked: set<string>, es: seq<Entry>, sort: Sort): seq<Entry> {
    if es == [] then []
    else
      var rest := Those(ix, tracked, es[1..], sort);
      if Counts(sort, Classify(ix, tracked, es[0])) then [es[0]] + rest else rest
  }

  function PathsOf(es: seq<Entry>): seq<string> {
    seq(|es|, i requires 0 <= i < |es| => es[i].path)
  }

  lemma {:induction false} ThoseSnoc(ix: Index, tracked: set<string>, es: seq<Entry>, e: Entry, sort: Sort)
    ensures Those(ix, tracked, es + [e], sort) ==
      Those(ix, tracked, es, sort) + if Counts(sort, Classify(ix, tracked, e)) then [e] else []
  {
    hide Classify;
    if es == [] {
      assert [] + [e] == [e] && [e][1..] == [];
    } else {
      assert (es + [e])[1..] == es[1..] + [e];
      ThoseSnoc(ix, tracked, es[1..], e, sort);
    }
  }

  /** What the counters mean: media files, those added, those already tracked, and the paths of those
      without a library row, in the order of the walk. */
  lemma {:induction false} SummaryExact(ix: Index, tracked: set<string>, es: seq<Entry>)
    ensures var r := Summary(ix, tracked, es);
      && r.found == |Those(ix, tracked, es, Found)|
      && r.matched == |Those(ix, tracked, es, Matched)|
      && r.tracked == |Those(ix, tracked, es, Recognised)|
      && r.unmatchedFiles == PathsOf(Those(ix, tracked, es, Unmatched))
      && r.unmatched == |r.unmatchedFiles|
  {
    if es != [] {
      var init, last := es[..|es| - 1], es[|es| - 1];
      assert es == init + [last];
      hide Classify;
      SummaryExact(ix, tracked, init);
      ThoseSnoc(ix, tracked, init, last, Found);
      ThoseSnoc(ix, tracked, init, last, Matched);
      ThoseSnoc(ix, tracked, init, last, Recognised);
      ThoseSnoc(ix, tracked, init, last, Unmatched);
    }
  }

  lemma TrackedExact(t: Tables, kind: Kind, path: string)
    ensures path in TrackedPaths(t, kind) <==>
      exists id, file :: HasRow(t, id, file) && file.kind == kind && file.path == path
  {
    if path in TrackedPaths(t, kind) {
      var id :| id in t.mediaFiles && t.mediaFiles[id].kind == kind && t.mediaFiles[id].path == path;
      assert HasRow(t, id, t.mediaFiles[id]);
    }
  }

  /** The class of a file: not media, below no root, without a library row, already recorded under its
      path, or new. */
  lemma ClassExact(rows: seq<LibraryRow>, t: Tables, kind: Kind, e: Entry)
    ensures var c := Classify(IndexOf(rows), TrackedPaths(t, kind), e);
      var owner := if e.place.Some? then Owner(IndexOf(rows), e.place.value) else None;
      && (c == NotMedia <==> !IsMedia(e.extension))
      && (c == NoPlace <==> IsMedia(e.extension) && e.place.None?)
      && (c == Unknown <==> IsMedia(e.extension) && e.place.Some? && owner.None?)
      && (c == Tracked <==>
            && IsMedia(e.extension) && owner.Some?
            && exists id, file :: HasRow(t, id, file) && file.kind == kind && file.path == e.place.value.relative)
      && forall o :: c == Fresh(o) <==> IsMedia(e.extension) && owner == Some(o) && c != Tracked
  {
    if e.place.Some? {
      TrackedExact(t, kind, e.place.value.relative);
    }
    hide IsMedia, IndexOf, Owner, TrackedPaths, HasRow;
  }
}
