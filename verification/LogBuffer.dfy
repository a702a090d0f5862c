/** The in-memory log buffer (log_buffer.rs) and the clients that poll it. */
module LogBuffer {
  import opened Wrappers
  import opened Strings

  const MAX_LOG_ENTRIES: nat := 20000

  datatype LogEntry = LogEntry(timestamp: int, level: string, target: string, message: string, seqNo: nat)

  // ----- The buffer as a value -----

  datatype Buffer = Buffer(entries: seq<LogEntry>, nextSeq: nat) {
    /** The entry is numbered; when the buffer is full the oldest entry goes. */
    function Pushed(entry: LogEntry): Buffer {
      var kept := if |entries| >= MAX_LOG_ENTRIES then entries[1..] else entries;
      Buffer(kept + [entry.(seqNo := nextSeq)], nextSeq + 1)
    }

    /** The last `limit` entries that pass the filters, found from the end. */
    function GetEntries(q: Filter, limit: nat): seq<LogEntry> {
      Reverse(Take(Reverse(Select(entries, q)), limit))
    }

    function LatestSeq(): nat {
      if nextSeq > 0 then nextSeq - 1 else 0
    }
  }

  const Empty := Buffer([], 0)

  datatype Filter = Filter(afterSeq: Option<nat>, level: Option<string>, target: Option<string>) {
    predicate Accepts(e: LogEntry) {
      && (afterSeq.Some? ==> e.seqNo > afterSeq.value)
      && (level.Some? ==> Lower(e.level) == Lower(level.value))
      && (target.Some? ==> target.value <= e.target)
    }
  }

  function Select(es: seq<LogEntry>, q: Filter): seq<LogEntry> {
    if es == [] then [] else (if q.Accepts(es[0]) then [es[0]] else []) + Select(es[1..], q)
  }

  function Reverse<T>(s: seq<T>): seq<T> {
    if s == [] then [] else Reverse(s[1..]) + [s[0]]
  }

  function Take<T>(s: seq<T>, n: nat): seq<T> {
    if n < |s| then s[..n] else s
  }

  /** The object the program shares; `push` is the only operation that changes it. */
  class SharedBuffer {
    var entries: seq<LogEntry>
    var nextSeq: nat

    function View(): Buffer
      reads this
    {
      Buffer(entries, nextSeq)
    }

    constructor ()
      ensures View() == Empty
    {
      entries := [];
      nextSeq := 0;
    }

    method Push(entry: LogEntry)
      modifies this
      ensures View() == old(View()).Pushed(entry)
    {
      var numbered := entry.(seqNo := nextSeq);
      nextSeq := nextSeq + 1;
      if |entries| >= MAX_LOG_ENTRIES {
        entries := entries[1..];
      }
      entries := entries + [numbered];
    }
  }

  // ----- What is in the buffer -----

  function PushAll(history: seq<LogEntry>): Buffer {
    if history == [] then Empty else PushAll(history[..|history| - 1]).Pushed(history[|history| - 1])
  }

  /** Everything ever pushed, with its number. */
  function Numbered(history: seq<LogEntry>): (r: seq<LogEntry>)
    ensures |r| == |history| && forall i :: 0 <= i < |r| ==> r[i] == history[i].(seqNo := i)
  {
    seq(|history|, i requires 0 <= i < |history| => history[i].(seqNo := i))
  }

  function Min(a: nat, b: nat): nat {
    if a < b then a else b
  }

  function Last<T>(s: seq<T>, n: nat): seq<T> {
    s[|s| - Min(n, |s|)..]
  }

  /** After any pushes: the newest entries, at most 20,000, numbered consecutively up to the last
      number given out. */
  lemma {:induction false} BufferHoldsNewest(history: seq<LogEntry>)
    ensures PushAll(history) == Buffer(Last(Numbered(history), MAX_LOG_ENTRIES), |history|)
  {
    if history != [] {
      var before := history[..|history| - 1];
      BufferHoldsNewest(before);
      assert Numbered(history) == Numbered(before) + [history[|history| - 1].(seqNo := |before|)];
    }
  }

  lemma {:induction false} Consecutive(history: seq<LogEntry>)
    ensures var b := PushAll(history);
      && |b.entries| == Min(|history|, MAX_LOG_ENTRIES)
      && b.nextSeq == |history|
      && forall i :: 0 <= i < |b.entries| ==> b.entries[i].seqNo == b.nextSeq - |b.entries| + i
  {
    BufferHoldsNewest(history);
  }

  // ----- Reading -----

  /** What a filter lets through: entries after the number, of the level in any letter case, and of targets
      that begin with the one asked for. */
  lemma AcceptsExact(q: Filter, e: LogEntry)
    ensures q.Accepts(e) <==>
      && (q.afterSeq.None? || e.seqNo > q.afterSeq.value)
      && (q.level.None? || SameLetters(e.level, q.level.value))
      && (q.target.None? || exists rest :: e.target == q.target.value + rest)
  {
    if q.level.Some? {
      LowerAgrees(e.level, q.level.value);
    }
    if q.target.Some? && q.target.value <= e.target {
      assert e.target == q.target.value + e.target[|q.target.value|..];
    }
  }

  predicate Ascending(es: seq<LogEntry>) {
    forall i, j :: 0 <= i < j < |es| ==> es[i].seqNo < es[j].seqNo
  }

  lemma {:induction false} ReverseAt<T>(s: seq<T>)
    ensures |Reverse(s)| == |s| && forall i :: 0 <= i < |s| ==> Reverse(s)[i] == s[|s| - 1 - i]
  {
    if s != [] {
      ReverseAt(s[1..]);
    }
  }

  /** Reversing, taking and reversing back gives the end of the list. */
  lemma TakenFromTheEnd<T>(s: seq<T>, n: nat)
    ensures Reverse(Take(Reverse(s), n)) == Last(s, n)
  {
    ReverseAt(s);
    ReverseAt(Take(Reverse(s), n));
  }

  lemma {:induction false} SelectExact(es: seq<LogEntry>, q: Filter)
    requires Ascending(es)
    ensures Ascending(Select(es, q))
    ensures forall e :: e in Select(es, q) <==> e in es && q.Accepts(e)
  {
    if es != [] {
      var rest := Select(es[1..], q);
      SelectExact(es[1..], q);
      forall k | 0 <= k < |rest| ensures es[0].seqNo < rest[k].seqNo {
        assert rest[k] in es[1..];
      }
    }
  }

  /** `get_entries` returns entries that pass the filters, in ascending order, and one that passes
      is left out only if `limit` newer ones are returned. */
  lemma EntriesExact(history: seq<LogEntry>, q: Filter, limit: nat)
    ensures var b := PushAll(history); var r := b.GetEntries(q, limit);
      && Ascending(r) && |r| <= limit
      && (forall e <- r :: e in b.entries && q.Accepts(e))
      && (forall e <- b.entries :: q.Accepts(e) && e !in r ==> |r| == limit && forall f <- r :: e.seqNo < f.seqNo)
  {
    Consecutive(history);
    hide PushAll, Select, Reverse;
    var b := PushAll(history);
    var found := Select(b.entries, q);
    SelectExact(b.entries, q);
    TakenFromTheEnd(found, limit);
    LastAreNewest(found, limit);
  }

  lemma LastAreNewest(found: seq<LogEntry>, limit: nat)
    requires Ascending(found)
    ensures var r := Last(found, limit);
      && Ascending(r) && |r| <= limit && (forall e <- r :: e in found)
      && (forall e <- found :: e !in r ==> |r| == limit && forall f <- r :: e.seqNo < f.seqNo)
  {
    var older, r := found[..|found| - Min(limit, |found|)], Last(found, limit);
    assert found == older + r;
    AscendingParts(older, r);
  }

  lemma AscendingParts(a: seq<LogEntry>, b: seq<LogEntry>)
    requires Ascending(a + b)
    ensures Ascending(b) && forall e, f :: e in a && f in b ==> e.seqNo < f.seqNo
  {
    var s := a + b;
    assert forall k :: 0 <= k < |b| ==> b[k] == s[|a| + k];
    forall e, f | e in a && f in b ensures e.seqNo < f.seqNo {
      var i :| 0 <= i < |a| && a[i] == e;
      var k :| 0 <= k < |b| && b[k] == f;
      assert s[i] == e && s[|a| + k] == f;
    }
  }

  // ----- Polling -----

  function After(seqNo: Option<nat>): Filter {
    Filter(seqNo, None, None)
  }

  /** How many entries one answer can hold. */
  function Capacity(limit: nat): nat {
    Min(limit, MAX_LOG_ENTRIES)
  }

  /** The number of entries a client that sends `after` already has. */
  function Known(after: Option<nat>): nat {
    match after
    case None => 0
    case Some(n) => n + 1
  }

  lemma {:induction false} SelectNewer(es: seq<LogEntry>, first: nat, after: Option<nat>)
    requires forall i :: 0 <= i < |es| ==> es[i].seqNo == first + i
    ensures var known := Known(after);
      Select(es, After(after))
      == if known <= first then es else if known - first <= |es| then es[known - first..] else []
  {
    if es != [] {
      SelectNewer(es[1..], first + 1, after);
    }
  }

  /** One unfiltered answer: the newest entries the client does not know yet, as many as fit. */
  lemma Answer(history: seq<LogEntry>, after: Option<nat>, limit: nat)
    requires Known(after) <= |history|
    ensures PushAll(history).GetEntries(After(after), limit)
         == Last(Numbered(history), Min(|history| - Known(after), Capacity(limit)))
  {
    BufferHoldsNewest(history);
    Consecutive(history);
    hide PushAll, Reverse, Select;
    var es := PushAll(history).entries;
    SelectNewer(es, |history| - |es|, after);
    TakenFromTheEnd(Select(es, After(after)), limit);
    NewestOfNewest(Numbered(history), Known(after), limit);
  }

  lemma NewestOfNewest(all: seq<LogEntry>, known: nat, limit: nat)
    requires known <= |all|
    ensures var es := Last(all, MAX_LOG_ENTRIES); var first := |all| - |es|;
      Last(if known <= first then es else es[known - first..], limit)
      == Last(all, Min(|all| - known, Capacity(limit)))
  {}

  /** A client that resumes after the last entry it received. */
  datatype Client = Client(received: seq<LogEntry>, last: Option<nat>) {
    function Polls(b: Buffer, limit: nat): Client {
      var answer := b.GetEntries(After(last), limit);
      Client(received + answer, if answer == [] then last else Some(answer[|answer| - 1].seqNo))
    }
  }

  function Flatten(rounds: seq<seq<LogEntry>>): seq<LogEntry> {
    if rounds == [] then [] else Flatten(rounds[..|rounds| - 1]) + rounds[|rounds| - 1]
  }

  /** A run: in every round some entries are pushed, and then the client polls. */
  function RunClient(rounds: seq<seq<LogEntry>>, limit: nat): Client {
    if rounds == [] then Client([], None)
    else RunClient(rounds[..|rounds| - 1], limit).Polls(PushAll(Flatten(rounds)), limit)
  }

  function Delivered(rounds: seq<seq<LogEntry>>, limit: nat): nat {
    if rounds == [] then 0
    else Delivered(rounds[..|rounds| - 1], limit) + Min(|rounds[|rounds| - 1]|, Capacity(limit))
  }

  /** What a run comes to: the client is up to date after every poll, and each round delivers what
      fits into one answer. */
  lemma {:induction false} RunCounts(rounds: seq<seq<LogEntry>>, limit: nat)
    ensures var c := RunClient(rounds, limit); var h := Flatten(rounds);
      && |c.received| == Delivered(rounds, limit) <= |h|
      && (if Capacity(limit) == 0 then c.last == None else Known(c.last) == |h|)
      && (|c.received| == |h| ==> c.received == Numbered(h))
  {
    if rounds != [] {
      var before, round := rounds[..|rounds| - 1], rounds[|rounds| - 1];
      RunCounts(before, limit);
      OneRound(RunClient(before, limit), Flatten(before), round, limit);
      hide PushAll, Numbered, Known, Capacity;
    }
  }

  lemma {:induction false} AllDelivered(rounds: seq<seq<LogEntry>>, limit: nat)
    ensures Delivered(rounds, limit) <= |Flatten(rounds)|
    ensures Delivered(rounds, limit) == |Flatten(rounds)| <==> forall round <- rounds :: |round| <= Capacity(limit)
  {
    if rounds != [] {
      var before, round := rounds[..|rounds| - 1], rounds[|rounds| - 1];
      AllDelivered(before, limit);
      hide Capacity;
      assert rounds == before + [round];
    }
  }

  lemma OneRound(c: Client, g: seq<LogEntry>, round: seq<LogEntry>, limit: nat)
    requires |c.received| <= |g|
    requires if Capacity(limit) == 0 then c.last == None else Known(c.last) == |g|
    requires |c.received| == |g| ==> c.received == Numbered(g)
    ensures var h := g + round; var d := c.Polls(PushAll(h), limit);
      && |d.received| == |c.received| + Min(|round|, Capacity(limit))
      && (if Capacity(limit) == 0 then d.last == None else Known(d.last) == |h|)
      && (|d.received| == |h| ==> d.received == Numbered(h))
  {
    var h := g + round;
    Answer(h, c.last, limit);
    hide PushAll, Select, Reverse, Take;
    var n := Min(|h| - Known(c.last), Capacity(limit));
    var answer := Last(Numbered(h), n);
    assert |answer| == n == Min(|round|, Capacity(limit));
    assert n > 0 ==> answer[n - 1].seqNo == |h| - 1;
    if |c.received| + |answer| == |h| {
      NumberedAgain(g, round);
    }
  }

  lemma NumberedAgain(g: seq<LogEntry>, round: seq<LogEntry>)
    ensures Numbered(g + round) == Numbered(g) + Last(Numbered(g + round), |round|)
  {}

  /** Polling over whole runs: the client has received every entry exactly once and in order if and
      only if no round pushed more entries than one answer holds. */
  lemma NothingLost(rounds: seq<seq<LogEntry>>, limit: nat)
    ensures RunClient(rounds, limit).received == Numbered(Flatten(rounds))
      <==> forall round <- rounds :: |round| <= Capacity(limit)
  {
    hide RunClient, Delivered, Flatten, Capacity;
    RunCounts(rounds, limit);
    AllDelivered(rounds, limit);
  }

  // ----- The log page -----

  /** The page resumes after the `latestSeq` of the previous answer, which the server reads after the
      entries. If it was complete with the first `read` entries, and `marked` entries had been pushed
      when `latestSeq` was read, then its next answer, with at least one entry to deliver, continues
      without a gap if and only if nothing was pushed between the two reads, the answer can hold the
      new entries, and the first entry of all is not among them. */
  lemma PageResumes(history: seq<LogEntry>, read: nat, marked: nat, limit: nat)
    requires read <= marked <= |history| && read < |history|
    ensures var after := Some(PushAll(history[..marked]).LatestSeq());
      PushAll(history).GetEntries(After(after), limit) == Numbered(history)[read..]
      <==> read == marked && marked > 0 && |history| - read <= Capacity(limit)
  {
    var after := Some(PushAll(history[..marked]).LatestSeq());
    Consecutive(history[..marked]);
    assert Known(after) == if marked == 0 then 1 else marked;
    Answer(history, after, limit);
    var answer := Last(Numbered(history), Min(|history| - Known(after), Capacity(limit)));
    assert |Numbered(history)[read..]| == |history| - read;
    if read == marked && marked > 0 && |history| - read <= Capacity(limit) {
      assert answer == Numbered(history)[read..];
    }
  }

  /** What is pushed before the entries are read, and between the two reads of one answer. */
  datatype Round = Round(before: seq<LogEntry>, between: seq<LogEntry>)

  function Pushed(rounds: seq<Round>): seq<LogEntry>
    decreases |rounds|, 1
  {
    if rounds == [] then [] else AtRead(rounds) + rounds[|rounds| - 1].between
  }

  /** Everything pushed when the entries of the last answer were read. */
  function AtRead(rounds: seq<Round>): seq<LogEntry>
    requires rounds != []
    decreases |rounds|, 0
  {
    Pushed(rounds[..|rounds| - 1]) + rounds[|rounds| - 1].before
  }

  function RunPage(rounds: seq<Round>, limit: nat): seq<LogEntry> {
    if rounds == [] then []
    else
      var before := rounds[..|rounds| - 1];
      var marker := if before == [] then None else Some(PushAll(Pushed(before)).LatestSeq());
      RunPage(before, limit) + PushAll(AtRead(rounds)).GetEntries(After(marker), limit)
  }

  /** Nothing is pushed between two reads except perhaps in the last round, every round fits into an
      answer, and the first answer is not read from an empty buffer, unless nothing is ever pushed. */
  predicate Gapless(rounds: seq<Round>, limit: nat) {
    && (forall i :: 0 <= i < |rounds| - 1 ==> rounds[i].between == [])
    && (forall i :: 0 <= i < |rounds| ==> |rounds[i].before| <= Capacity(limit))
    && (rounds != [] && rounds[0].before == [] ==> forall i :: 0 <= i < |rounds| ==> rounds[i].before == [])
  }

  lemma {:induction false} PageCounts(rounds: seq<Round>, limit: nat)
    requires rounds != []
    ensures var got, all := RunPage(rounds, limit), AtRead(rounds);
      && |got| <= |all|
      && (|got| == |all| ==> got == Numbered(all))
      && (|got| == |all| <==> Gapless(rounds, limit))
    decreases |rounds|
  {
    hide Gapless, PushAll, Numbered, Capacity, RunPage, AtRead, Pushed, Select, Reverse, Take;
    var before, r := rounds[..|rounds| - 1], rounds[|rounds| - 1];
    PageUnfolds(rounds, limit);
    if before == [] {
      FirstAnswer(r, limit);
      GaplessOne(rounds, limit);
    } else {
      PageCounts(before, limit);
      GaplessSnoc(rounds, limit);
      NextAnswer(RunPage(before, limit), AtRead(before), before[|before| - 1].between, r.before, limit);
    }
  }

  lemma PageUnfolds(rounds: seq<Round>, limit: nat)
    requires rounds != []
    ensures var before, r := rounds[..|rounds| - 1], rounds[|rounds| - 1];
      if before == [] then
        AtRead(rounds) == r.before && RunPage(rounds, limit) == PushAll(r.before).GetEntries(After(None), limit)
      else
        && AtRead(rounds) == AtRead(before) + before[|before| - 1].between + r.before
        && Pushed(before) == AtRead(before) + before[|before| - 1].between
        && RunPage(rounds, limit)
           == RunPage(before, limit)
              + PushAll(AtRead(rounds)).GetEntries(After(Some(PushAll(Pushed(before)).LatestSeq())), limit)
  {
    hide PushAll, Select, Reverse, Take;
    var before, r := rounds[..|rounds| - 1], rounds[|rounds| - 1];
    if before == [] {
      assert Pushed(before) + r.before == r.before;
      var got := PushAll(r.before).GetEntries(After(None), limit);
      assert RunPage(before, limit) + got == got;
    }
  }

  lemma FirstAnswer(r: Round, limit: nat)
    ensures var got := PushAll(r.before).GetEntries(After(None), limit);
      && |got| <= |r.before|
      && (|got| == |r.before| ==> got == Numbered(r.before))
      && (|got| == |r.before| <==> |r.before| <= Capacity(limit))
  {
    Answer(r.before, None, limit);
    hide PushAll, Select, Reverse, Take;
  }

  lemma GaplessOne(rounds: seq<Round>, limit: nat)
    requires |rounds| == 1
    ensures Gapless(rounds, limit) <==> |rounds[0].before| <= Capacity(limit)
  {}

  /** One more answer, with the marker of the one before. */
  lemma NextAnswer(got: seq<LogEntry>, read: seq<LogEntry>, between: seq<LogEntry>, news: seq<LogEntry>, limit: nat)
    requires |got| <= |read| && (|got| == |read| ==> got == Numbered(read))
    ensures var marked, all := read + between, read + between + news;
      var more := got + PushAll(all).GetEntries(After(Some(PushAll(marked).LatestSeq())), limit);
      && |more| <= |all|
      && (|more| == |all| ==> more == Numbered(all))
      && (|more| == |all| <==>
            |got| == |read| && between == [] && |news| <= Capacity(limit) && (marked == [] ==> news == []))
  {
    var marked, all := read + between, read + between + news;
    var after := Some(PushAll(marked).LatestSeq());
    Consecutive(marked);
    if all == [] {
      Consecutive(all);
      assert PushAll(all).entries == [];
      assert Select([], After(after)) == [] && Reverse<LogEntry>([]) == [];
      assert got + [] == got;
    } else {
      Answer(all, after, limit);
      hide PushAll, Select, Reverse, Take;
      var n := Min(|all| - Known(after), Capacity(limit));
      var answer := Last(Numbered(all), n);
      assert |answer| == n;
      if |got| + n == |all| {
        assert read + between == read;
        NumberedAgain(read, news);
      }
    }
  }

  lemma GaplessSnoc(rounds: seq<Round>, limit: nat)
    requires |rounds| > 1
    ensures var before, r := rounds[..|rounds| - 1], rounds[|rounds| - 1];
      Gapless(rounds, limit) <==>
        && Gapless(before, limit) && before[|before| - 1].between == []
        && |r.before| <= Capacity(limit) && (Pushed(before) == [] ==> r.before == [])
  {
    var before, r := rounds[..|rounds| - 1], rounds[|rounds| - 1];
    if Gapless(before, limit) && before[|before| - 1].between == [] {
      NothingPushed(before);
      hide Pushed;
      assert rounds[0] == before[0];
    }
  }

  lemma {:induction false} NothingPushed(rounds: seq<Round>)
    requires rounds != [] && forall i :: 0 <= i < |rounds| ==> rounds[i].between == []
    ensures Pushed(rounds) == [] <==> forall i :: 0 <= i < |rounds| ==> rounds[i].before == []
    decreases |rounds|
  {
    var before := rounds[..|rounds| - 1];
    if before != [] {
      NothingPushed(before);
      hide Pushed;
    }
    assert |Pushed(rounds)| == |Pushed(before)| + |rounds[|rounds| - 1].before|;
  }

  /** The log page over whole runs: it has received everything pushed before its last read, once and in
      order, if and only if the run is gapless. */
  lemma PageLosesNothing(rounds: seq<Round>, limit: nat)
    requires rounds != []
    ensures RunPage(rounds, limit) == Numbered(AtRead(rounds)) <==> Gapless(rounds, limit)
  {
    PageCounts(rounds, limit);
  }
}
