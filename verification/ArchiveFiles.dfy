/** The archive of .nzb files of the embedded Usenet client (embedded_usenet.rs): how a file is
    named, how a failed job's file is found again, and the merge of queue and history. */
module ArchiveFiles {
  import opened Wrappers
  import opened Strings

  // ----- Names -----

  predicate Alphanumeric(c: char) {
    '0' <= c <= '9' || 'A' <= c <= 'Z' || 'a' <= c <= 'z'
  }

  predicate Allowed(c: char) {
    Alphanumeric(c) || c in " .-_()"
  }

  function Sanitized(title: string): (r: string)
    ensures |r| == |title| && forall c <- r :: Allowed(c)
  {
    if title == "" then "" else [if Allowed(title[0]) then title[0] else '_'] + Sanitized(title[1..])
  }

  const MAX_TITLE := 120

  /** The part of the name that is taken from the title. */
  function TitlePart(title: string): string {
    var s := StripEnd(StripStart(Trim(Sanitized(title)), '.'), '.');
    if |s| > MAX_TITLE then s[..MAX_TITLE] else s
  }

  function ArchiveFilename(jobId: string, title: string): string {
    var part := TitlePart(title);
    if part == "" then jobId + ".nzb" else part + "-" + jobId + ".nzb"
  }

  predicate EndsWith(s: string, suffix: string) {
    |suffix| <= |s| && s[|s| - |suffix|..] == suffix
  }

  /** Whether a file is taken for the archive of a job. */
  predicate Matches(name: string, jobId: string) {
    name == jobId + ".nzb" || EndsWith(name, "-" + jobId + ".nzb")
  }

  /** The file of a failed job: the first in the directory that matches. */
  method FindArchive(names: seq<string>, jobId: string) returns (r: Option<nat>)
    ensures match r
      case Some(k) => k < |names| && Matches(names[k], jobId) && forall j :: 0 <= j < k ==> !Matches(names[j], jobId)
      case None => forall j :: 0 <= j < |names| ==> !Matches(names[j], jobId)
  {
    for i := 0 to |names|
      invariant forall j :: 0 <= j < i ==> !Matches(names[j], jobId)
    {
      if Matches(names[i], jobId) {
        return Some(i);
      }
    }
    return None;
  }

  lemma {:induction false} PartOf(s: string)
    ensures forall c <- TrimStart(s) :: c in s
    ensures forall c <- TrimEnd(s) :: c in s
    decreases |s|
  {
    if s != "" {
      PartOf(s[1..]);
      PartOf(s[..|s| - 1]);
    }
  }

  lemma {:induction false} StrippedPartOf(s: string, d: char)
    ensures forall c <- StripStart(s, d) :: c in s
    ensures forall c <- StripEnd(s, d) :: c in s
    decreases |s|
  {
    if s != "" {
      StrippedPartOf(s[1..], d);
      StrippedPartOf(s[..|s| - 1], d);
    }
  }

  /** The title part has at most 120 characters, all of them harmless in a file name. */
  lemma TitleIsSafe(title: string)
    ensures var part := TitlePart(title); |part| <= MAX_TITLE && forall c <- part :: Allowed(c)
  {
    var s := Sanitized(title);
    PartOf(s);
    PartOf(TrimStart(s));
    StrippedPartOf(Trim(s), '.');
    StrippedPartOf(StripStart(Trim(s), '.'), '.');
    hide Sanitized, Allowed;
    var t := StripEnd(StripStart(Trim(s), '.'), '.');
    assert forall c <- t :: c in s;
    assert |t| > MAX_TITLE ==> forall c <- t[..MAX_TITLE] :: c in t;
  }

  /** Every character that is not allowed becomes an underscore, and the others stay. */
  lemma {:induction false} SanitizedExact(title: string, i: nat)
    requires i < |title|
    ensures var c := title[i];
      Sanitized(title)[i] ==
      if 'a' <= c <= 'z' || 'A' <= c <= 'Z' || '0' <= c <= '9' || c in {' ', '.', '-', '_', '(', ')'} then c else '_'
  {
    if i > 0 {
      SanitizedExact(title[1..], i - 1);
    }
  }

  /** `core` is what is left of `s` between blanks and dots. */
  predicate IsCore(s: string, lead: string, dots: string, core: string, end: string, trail: string) {
    && s == lead + (dots + (core + end)) + trail
    && Blank(lead) && Blank(trail) && Run(dots, '.') && Run(end, '.')
    && (dots + (core + end) == "" || Trimmed(dots + (core + end)))
    && (core == "" ==> end == "") && (core != "" ==> core[0] != '.' && core[|core| - 1] != '.')
  }

  /** The title part: the first 120 characters of what is left of the sanitized title between blanks and
      dots. */
  lemma TitleExact(title: string, lead: string, dots: string, core: string, end: string, trail: string)
    requires IsCore(Sanitized(title), lead, dots, core, end, trail)
    ensures TitlePart(title) == core[..if |core| > 120 then 120 else |core|]
  {
    TrimsTo(lead, dots + (core + end), trail);
    assert core != "" ==> (core + end)[0] == core[0];
    SkipsRun(dots, core + end, '.');
    EndsRun(core, end, '.');
    hide Sanitized, Trim, StripStart, StripEnd;
  }

  lemma {:induction false} EndsRun(s: string, run: string, c: char)
    requires Run(run, c) && (s == "" || s[|s| - 1] != c)
    ensures StripEnd(s + run, c) == s
  {
    if run == "" {
      assert s + run == s;
    } else {
      var last := |run| - 1;
      assert run[last] in run && forall d <- run[..last] :: d in run;
      assert (s + run)[..|s + run| - 1] == s + run[..last];
      EndsRun(s, run[..last], c);
    }
  }

  lemma {:induction false} EndParts(s: string, c: char) returns (run: string)
    ensures s == StripEnd(s, c) + run && Run(run, c)
    ensures StripEnd(s, c) == "" || StripEnd(s, c)[|StripEnd(s, c)| - 1] != c
    ensures s != "" && s[0] != c ==> StripEnd(s, c) != ""
  {
    if s != "" && s[|s| - 1] == c {
      var rest := EndParts(s[..|s| - 1], c);
      run := rest + [s[|s| - 1]];
      assert s == s[..|s| - 1] + [s[|s| - 1]];
    } else {
      run := "";
    }
  }

  /** Every text has such a core. */
  lemma CoreExists(s: string) returns (lead: string, dots: string, core: string, end: string, trail: string)
    ensures IsCore(s, lead, dots, core, end, trail)
  {
    lead := TrimStartParts(s);
    trail := TrimEndParts(TrimStart(s));
    var t := Trim(s);
    dots := RunParts(t, '.');
    var rest := StripStart(t, '.');
    end := EndParts(rest, '.');
    core := StripEnd(rest, '.');
    assert t == dots + (core + end);
    assert s == lead + (dots + (core + end)) + trail;
    assert t != "" ==> t[0] == TrimStart(s)[0];
    assert core != "" ==> core[0] == rest[0];
  }

  lemma SameEnd(a: string, b: string, x: string, y: string)
    requires |x| == |y|
    ensures EndsWith(a + x, y) <==> x == y
  {
    assert (a + x)[|a|..] == x;
  }

  /** For any job, matched by any other: with a title, the id must be a suffix of what precedes the
      extension, after a dash; without one, it may also be the whole. */
  lemma MatchExact(i: string, j: string, title: string)
    ensures var part := TitlePart(title); var stem := if part == "" then i else part + "-" + i;
      Matches(ArchiveFilename(i, title), j) <==> stem == j || EndsWith(stem, "-" + j)
  {
    hide TitlePart;
    var part := TitlePart(title);
    var stem := if part == "" then i else part + "-" + i;
    assert ArchiveFilename(i, title) == stem + ".nzb";
    SameStem(stem, j);
    DashStem(stem, "-" + j);
  }

  lemma SameStem(a: string, b: string)
    ensures a + ".nzb" == b + ".nzb" <==> a == b
  {
    if a + ".nzb" == b + ".nzb" {
      assert a == (a + ".nzb")[..|a|] && b == (b + ".nzb")[..|b|];
    }
  }

  lemma DashStem(a: string, b: string)
    ensures EndsWith(a + ".nzb", b + ".nzb") <==> EndsWith(a, b)
  {
    if |b| <= |a| {
      var n := |a| - |b|;
      assert (a + ".nzb")[n..] == a[n..] + ".nzb";
      SameStem(a[n..], b);
    }
  }

  /** For ids of equal length and any titles, the lookup finds exactly the job's own file. */
  lemma ArchiveIsOwn(i: string, j: string, title: string)
    requires |i| == |j|
    ensures Matches(ArchiveFilename(i, title), j) <==> i == j
  {
    MatchExact(i, j, title);
    hide TitlePart;
    var part := TitlePart(title);
    if part != "" {
      assert part + "-" + i == part + ("-" + i);
      SameEnd(part, "", "-" + i, "-" + j);
      assert "-" + i == "-" + j ==> ("-" + i)[1..] == ("-" + j)[1..];
      assert ("-" + i)[1..] == i && ("-" + j)[1..] == j;
    }
  }

  // ----- Queue and history -----

  datatype Status = Completed | Failed | Other

  datatype Job = Job(id: string, status: Status, recent: bool)

  function Ids(jobs: seq<Job>): (r: seq<string>)
    ensures |r| == |jobs| && forall i :: 0 <= i < |r| ==> r[i] == jobs[i].id
  {
    seq(|jobs|, i requires 0 <= i < |jobs| => jobs[i].id)
  }

  predicate Distinct(ids: seq<string>) {
    forall i, j :: 0 <= i < j < |ids| ==> ids[i] != ids[j]
  }

  /** Whether an entry of the history is reported: it is recent, finished, and the first of its id
      among the recent ones, and the queue does not have it any more. */
  predicate Reported(queue: seq<Job>, history: seq<Job>, k: nat)
    requires k < |history|
  {
    && history[k].recent && !history[k].status.Other?
    && (forall q <- queue :: q.id != history[k].id)
    && (forall j :: 0 <= j < k && history[j].recent ==> history[j].id != history[k].id)
  }

  function ReportedOf(queue: seq<Job>, history: seq<Job>, n: nat): seq<string>
    requires n <= |history|
  {
    if n == 0 then []
    else ReportedOf(queue, history, n - 1) + if Reported(queue, history, n - 1) then [history[n - 1].id] else []
  }

  /** The ids of `get_items`: the queue, and then the reported entries of the history. */
  method GetItems(queue: seq<Job>, history: seq<Job>) returns (items: seq<string>)
    ensures items == Ids(queue) + ReportedOf(queue, history, |history|)
  {
    var seen := set q | q in queue :: q.id;
    items := Ids(queue);
    for i := 0 to |history|
      invariant items == Ids(queue) + ReportedOf(queue, history, i)
      invariant forall id :: id in seen <==>
        (exists q <- queue :: q.id == id) || exists j :: 0 <= j < i && history[j].recent && history[j].id == id
    {
      var h := history[i];
      if h.recent && h.id !in seen {
        seen := seen + {h.id};
        if !h.status.Other? {
          items := items + [h.id];
        }
      }
    }
  }

  lemma {:induction false} ReportedDistinct(queue: seq<Job>, history: seq<Job>, n: nat)
    requires n <= |history|
    ensures var r := ReportedOf(queue, history, n);
      && Distinct(r)
      && (forall id <- r :: exists j :: 0 <= j < n && history[j].recent && history[j].id == id)
      && (forall id <- r :: forall q <- queue :: q.id != id)
  {
    if n > 0 {
      ReportedDistinct(queue, history, n - 1);
      var before := ReportedOf(queue, history, n - 1);
      if Reported(queue, history, n - 1) {
        forall i | 0 <= i < |before| ensures before[i] != history[n - 1].id {
          assert before[i] in before;
        }
      }
    }
  }

  /** An entry of the history is reported if it is recent and completed or failed, and neither the queue nor
      an earlier recent entry has its id. */
  predicate Shows(queue: seq<Job>, history: seq<Job>, k: nat) {
    && k < |history| && history[k].recent && history[k].status in {Completed, Failed}
    && history[k].id !in Ids(queue)
    && !exists j :: 0 <= j < k && history[j].recent && history[j].id == history[k].id
  }

  predicate Ascending(ks: seq<nat>) {
    forall i, j :: 0 <= i < j < |ks| ==> ks[i] < ks[j]
  }

  /** `r` holds the ids of the entries `ks`, in this order. */
  predicate IdsAt(history: seq<Job>, ks: seq<nat>, r: seq<string>) {
    |r| == |ks| && forall i :: 0 <= i < |ks| ==> ks[i] < |history| && r[i] == history[ks[i]].id
  }

  /** What is reported of the history: the ids of exactly these entries, in the order of the history. */
  lemma {:induction false} ReportedExact(queue: seq<Job>, history: seq<Job>, n: nat) returns (ks: seq<nat>)
    requires n <= |history|
    ensures Ascending(ks) && IdsAt(history, ks, ReportedOf(queue, history, n))
    ensures forall k: nat :: k in ks <==> k < n && Shows(queue, history, k)
  {
    if n == 0 {
      ks := [];
    } else {
      ShowsReported(queue, history, n - 1);
      var before := ReportedExact(queue, history, n - 1);
      hide Shows, Reported, Ascending, IdsAt;
      if Shows(queue, history, n - 1) {
        ks := before + [n - 1];
        OneMore(history, before, ReportedOf(queue, history, n - 1), n - 1);
        assert forall k: nat :: k in ks <==> k in before || k == n - 1;
      } else {
        ks := before;
        assert ReportedOf(queue, history, n) == ReportedOf(queue, history, n - 1) + [];
      }
    }
  }

  lemma OneMore(history: seq<Job>, ks: seq<nat>, r: seq<string>, k: nat)
    requires k < |history| && Ascending(ks) && IdsAt(history, ks, r) && forall j <- ks :: j < k
    ensures Ascending(ks + [k]) && IdsAt(history, ks + [k], r + [history[k].id])
  {
    assert forall i :: 0 <= i < |ks| ==> ks[i] in ks;
  }

  lemma ShowsReported(queue: seq<Job>, history: seq<Job>, k: nat)
    requires k < |history|
    ensures Shows(queue, history, k) <==> Reported(queue, history, k)
  {
    var ids := Ids(queue);
    if history[k].id in ids {
      var i :| 0 <= i < |ids| && ids[i] == history[k].id;
      assert queue[i] in queue && queue[i].id == history[k].id;
    }
    forall q | q in queue ensures q.id in ids {
      var i :| 0 <= i < |queue| && queue[i] == q;
      assert ids[i] == q.id;
    }
  }

  /** No id is reported twice when the queue's ids are distinct, and only then. */
  lemma NoDuplicates(queue: seq<Job>, history: seq<Job>)
    ensures Distinct(Ids(queue) + ReportedOf(queue, history, |history|)) <==> Distinct(Ids(queue))
  {
    ReportedDistinct(queue, history, |history|);
    var a, r := Ids(queue), ReportedOf(queue, history, |history|);
    if Distinct(a) {
      forall i, j | 0 <= i < j < |a + r| ensures (a + r)[i] != (a + r)[j] {
        if i < |a| <= j {
          assert queue[i] in queue && r[j - |a|] in r;
        }
      }
    } else {
      var i, j :| 0 <= i < j < |a| && a[i] == a[j];
      assert (a + r)[i] == (a + r)[j];
    }
  }
}
