/** The login and retry protocol of an indexer (search.rs): calls of `search` and
    `fetch_torrent_bytes` that run side by side and share one `logged_in` flag. */
module LoginProtocol {
  /** The `login` block of a definition. */
  datatype Method = NoLogin | Form | Cookie | Unsupported

  datatype Call = SearchCall | FetchCall

  /** What a request came to. */
  datatype Reply = Failed | Empty | Filled

  datatype Result = Error | NoReleases | Releases | Bytes

  /** The next action of a call; loads and stores of the flag are actions of their own. */
  datatype Pc =
    | Begin | Login | Store | Work
    | Check | Clear | LoginAgain | StoreAgain | WorkAgain
    | Done(result: Result)

  /** What a call has done; the requests are recorded with the reply that they got. */
  datatype What =
    | LoggedIn(forced: bool) | LoginFailed | Stored | Cleared
    | Searched(reply: Reply) | Fetched(reply: Reply)

  datatype Event = Event(who: nat, what: What)

  // ----- One action -----

  datatype Next = Next(flag: bool, pc: Pc, what: seq<What>)

  function AfterLogin(m: Method, forced: bool, flag: bool, reply: Reply): Next {
    match m
    case Unsupported => Next(flag, if forced then WorkAgain else Work, [])
    case _ =>
      if reply == Failed then Next(flag, Done(Error), [LoginFailed])
      else if m == Form then Next(flag, if forced then StoreAgain else Store, [LoggedIn(forced)])
      else Next(flag, if forced then WorkAgain else Work, [LoggedIn(forced)])
  }

  function SearchResult(reply: Reply): Result {
    match reply
    case Failed => Error
    case Empty => NoReleases
    case Filled => Releases
  }

  function Act(m: Method, call: Call, flag: bool, pc: Pc, reply: Reply): Next
    requires !pc.Done?
  {
    match pc
    case Begin => Next(flag, if m == NoLogin || flag then Work else Login, [])
    case Login => AfterLogin(m, false, flag, reply)
    case Store => Next(true, Work, [Stored])
    case Work =>
      if call.FetchCall? then Next(flag, Done(if reply == Failed then Error else Bytes), [Fetched(reply)])
      else if reply == Empty && m != NoLogin then Next(flag, Check, [Searched(reply)])
      else Next(flag, Done(SearchResult(reply)), [Searched(reply)])
    case Check => Next(flag, if flag then Clear else Done(NoReleases), [])
    case Clear => Next(false, LoginAgain, [Cleared])
    case LoginAgain => AfterLogin(m, true, flag, reply)
    case StoreAgain => Next(true, WorkAgain, [Stored])
    case WorkAgain => Next(flag, Done(SearchResult(reply)), [Searched(reply)])
  }

  // ----- Calls side by side -----

  datatype Thread = Thread(call: Call, pc: Pc)

  datatype System = System(flag: bool, threads: seq<Thread>, log: seq<Event>)

  datatype Action = Action(who: nat, reply: Reply)

  function Labelled(who: nat, what: seq<What>): seq<Event> {
    if what == [] then [] else [Event(who, what[0])] + Labelled(who, what[1..])
  }

  predicate Enabled(s: System, a: Action) {
    a.who < |s.threads| && !s.threads[a.who].pc.Done?
  }

  function Step(m: Method, s: System, a: Action): System
    requires Enabled(s, a)
  {
    var t := s.threads[a.who];
    var n := Act(m, t.call, s.flag, t.pc, a.reply);
    System(n.flag, s.threads[a.who := t.(pc := n.pc)], s.log + Labelled(a.who, n.what))
  }

  function Start(calls: seq<Call>): System {
    System(false, seq(|calls|, i requires 0 <= i < |calls| => Thread(calls[i], Begin)), [])
  }

  /** The state after the given actions, in any interleaving; an action that is not enabled is
      passed over. */
  function RunFrom(m: Method, start: System, actions: seq<Action>): System {
    if actions == [] then start
    else
      var s, a := RunFrom(m, start, actions[..|actions| - 1]), actions[|actions| - 1];
      if Enabled(s, a) then Step(m, s, a) else s
  }

  function Run(m: Method, calls: seq<Call>, actions: seq<Action>): System {
    RunFrom(m, Start(calls), actions)
  }

  // ----- What every interleaving keeps -----

  predicate Happened(log: seq<Event>, what: What) {
    exists e <- log :: e.what == what
  }

  predicate AnyLogin(log: seq<Event>) {
    exists e <- log :: e.what.LoggedIn?
  }

  predicate Did(log: seq<Event>, who: nat, what: What) {
    Event(who, what) in log
  }

  predicate ClearedByOther(log: seq<Event>, who: nat) {
    exists e <- log :: e.what == Cleared && e.who != who
  }

  function Count(log: seq<Event>, who: nat, logins: bool): nat {
    if log == [] then 0
    else
      var e := log[|log| - 1];
      Count(log[..|log| - 1], who, logins)
      + if e.who == who && (if logins then e.what.LoggedIn? || e.what == LoginFailed else e.what.Searched?)
          then 1 else 0
  }

  /** No request is made before some login has succeeded. */
  predicate LoginFirst(log: seq<Event>) {
    forall k :: 0 <= k < |log| && (log[k].what.Searched? || log[k].what.Fetched?) ==> AnyLogin(log[..k])
  }

  function MaxLogins(pc: Pc): nat {
    match pc
    case Begin => 0
    case Login => 0
    case StoreAgain => 2
    case WorkAgain => 2
    case Done(_) => 2
    case _ => 1
  }

  function MaxSearches(pc: Pc): nat {
    match pc
    case Begin => 0
    case Login => 0
    case Store => 0
    case Work => 0
    case Done(_) => 2
    case _ => 1
  }

  predicate BeforeLogin(pc: Pc) {
    pc == Begin || pc == Login || pc == Done(Error)
  }

  predicate FirstPass(pc: Pc) {
    match pc
    case LoginAgain => false
    case StoreAgain => false
    case WorkAgain => false
    case Done(_) => false
    case _ => true
  }

  predicate Bounded(log: seq<Event>, i: nat, t: Thread) {
    Count(log, i, true) <= MaxLogins(t.pc) && Count(log, i, false) <= MaxSearches(t.pc)
  }

  /** What holds of one call when the definition logs in by form. */
  predicate Kept(flag: bool, log: seq<Event>, i: nat, t: Thread) {
    && (!BeforeLogin(t.pc) ==> AnyLogin(log))
    && ((t.pc == StoreAgain || t.pc == WorkAgain) ==> Did(log, i, LoggedIn(true)))
    && (FirstPass(t.pc) ==> !Did(log, i, Cleared))
    && ((t.pc == Work || t.pc == Check) && !flag ==> Happened(log, Cleared))
    && (t.pc == Done(NoReleases) ==> Did(log, i, LoggedIn(true)) || ClearedByOther(log, i))
  }

  predicate Inv(s: System) {
    && (s.flag ==> AnyLogin(s.log))
    && LoginFirst(s.log)
    && forall i :: 0 <= i < |s.threads| ==> Kept(s.flag, s.log, i, s.threads[i])
  }

  lemma {:induction false} RunBounded(m: Method, calls: seq<Call>, actions: seq<Action>)
    ensures var s := Run(m, calls, actions);
      && |s.threads| == |calls|
      && forall i :: 0 <= i < |calls| ==> (s.threads[i].call == calls[i] && Bounded(s.log, i, s.threads[i]))
  {
    if actions != [] {
      RunBounded(m, calls, actions[..|actions| - 1]);
      var s, a := Run(m, calls, actions[..|actions| - 1]), actions[|actions| - 1];
      if Enabled(s, a) {
        hide Act, Count;
        var t := s.threads[a.who];
        var n := Act(m, t.call, s.flag, t.pc, a.reply);
        forall i | 0 <= i < |calls| ensures Bounded(Step(m, s, a).log, i, Step(m, s, a).threads[i]) {
          ActBounded(m, t, s.flag, a, s.log, i);
        }
      }
    }
  }

  lemma ActBounded(m: Method, t: Thread, flag: bool, a: Action, log: seq<Event>, i: nat)
    requires !t.pc.Done?
    ensures var n := Act(m, t.call, flag, t.pc, a.reply); var after := log + Labelled(a.who, n.what);
      if i == a.who then Bounded(log, i, t) ==> Bounded(after, i, t.(pc := n.pc))
      else Count(after, i, true) == Count(log, i, true) && Count(after, i, false) == Count(log, i, false)
  {
    var n := Act(m, t.call, flag, t.pc, a.reply);
    LabelledOne(a.who, n.what);
    if n.what == [] {
      assert log + [] == log;
    } else {
      assert (log + [Event(a.who, n.what[0])])[..|log|] == log;
    }
  }

  lemma LabelledOne(who: nat, what: seq<What>)
    requires |what| <= 1
    ensures Labelled(who, what) == if what == [] then [] else [Event(who, what[0])]
  {}

  /** For form logins, the invariant holds in every state of every interleaving. */
  lemma {:induction false} RunKeeps(calls: seq<Call>, actions: seq<Action>)
    ensures Inv(Run(Form, calls, actions))
  {
    if actions != [] {
      RunKeeps(calls, actions[..|actions| - 1]);
      var s, a := Run(Form, calls, actions[..|actions| - 1]), actions[|actions| - 1];
      if Enabled(s, a) {
        StepKeeps(s, a);
      }
    }
  }

  lemma StepKeeps(s: System, a: Action)
    requires Inv(s) && Enabled(s, a)
    ensures Inv(Step(Form, s, a))
  {
    var t := s.threads[a.who];
    var n := Act(Form, t.call, s.flag, t.pc, a.reply);
    var log := s.log + Labelled(a.who, n.what);
    LabelledOne(a.who, n.what);
    LogGrows(s.log, a.who, n.what);
    assert Kept(s.flag, s.log, a.who, t);
    ActorKeeps(s.flag, s.log, a.who, t, a.reply);
    ActorAllowed(s.flag, s.log, a.who, t, a.reply);
    hide Act;
    forall i | 0 <= i < |s.threads| && i != a.who ensures Kept(n.flag, log, i, s.threads[i]) {
      assert Kept(s.flag, s.log, i, s.threads[i]);
      OtherKeeps(s.flag, s.log, a.who, t, a.reply, i, s.threads[i]);
    }
  }

  /** What has happened stays in the log. */
  lemma LogGrows(log: seq<Event>, who: nat, what: seq<What>)
    requires |what| <= 1
    ensures var after := log + Labelled(who, what);
      && (AnyLogin(log) ==> AnyLogin(after))
      && (forall w :: Happened(log, w) ==> Happened(after, w))
      && (forall i, w :: Did(log, i, w) ==> Did(after, i, w))
      && (forall i, w :: Did(after, i, w) ==> Did(log, i, w) || (i == who && what == [w]))
      && (forall i :: ClearedByOther(log, i) ==> ClearedByOther(after, i))
      && (LoginFirst(log) && (AnyLogin(log) || what == [] || !(what[0].Searched? || what[0].Fetched?))
          ==> LoginFirst(after))
  {
    LabelledOne(who, what);
    var after := log + Labelled(who, what);
    assert forall e :: e in log ==> e in after;
    assert forall k :: 0 <= k <= |log| ==> after[..k] == log[..k];
    assert log[..|log|] == log;
  }

  lemma ActorKeeps(flag: bool, log: seq<Event>, who: nat, t: Thread, reply: Reply)
    requires !t.pc.Done? && Kept(flag, log, who, t) && (flag ==> AnyLogin(log))
    ensures var n := Act(Form, t.call, flag, t.pc, reply);
      Kept(n.flag, log + Labelled(who, n.what), who, t.(pc := n.pc))
  {
    hide LoginFirst, AnyLogin, Happened, Did, ClearedByOther, Labelled;
    var n := Act(Form, t.call, flag, t.pc, reply);
    LogGrows(log, who, n.what);
    Recorded(log, who, n.what);
    if t.pc == Check && !flag {
      ClearedIsByOther(log, who);
    }
  }

  lemma ActorAllowed(flag: bool, log: seq<Event>, who: nat, t: Thread, reply: Reply)
    requires !t.pc.Done? && Kept(flag, log, who, t) && (flag ==> AnyLogin(log)) && LoginFirst(log)
    ensures var n := Act(Form, t.call, flag, t.pc, reply); var after := log + Labelled(who, n.what);
      (n.flag ==> AnyLogin(after)) && LoginFirst(after)
  {
    hide LoginFirst, AnyLogin, Happened, Did, ClearedByOther, Labelled;
    var n := Act(Form, t.call, flag, t.pc, reply);
    LogGrows(log, who, n.what);
    Recorded(log, who, n.what);
  }

  /** An action's own event is in the log afterwards. */
  lemma Recorded(log: seq<Event>, who: nat, what: seq<What>)
    requires |what| <= 1
    ensures var after := log + Labelled(who, what);
      what != [] ==> Did(after, who, what[0]) && Happened(after, what[0]) && (what[0].LoggedIn? ==> AnyLogin(after))
  {
    LabelledOne(who, what);
    if what != [] {
      assert Event(who, what[0]) in log + [Event(who, what[0])];
    }
  }

  lemma ClearedIsByOther(log: seq<Event>, who: nat)
    requires Happened(log, Cleared) && !Did(log, who, Cleared)
    ensures ClearedByOther(log, who)
  {
    var e :| e in log && e.what == Cleared;
    assert e == Event(e.who, Cleared);
  }

  lemma OtherKeeps(flag: bool, log: seq<Event>, who: nat, t: Thread, reply: Reply, i: nat, u: Thread)
    requires !t.pc.Done? && i != who && Kept(flag, log, i, u)
    ensures var n := Act(Form, t.call, flag, t.pc, reply); Kept(n.flag, log + Labelled(who, n.what), i, u)
  {
    var n := Act(Form, t.call, flag, t.pc, reply);
    LabelledOne(who, n.what);
    LogGrows(log, who, n.what);
    if flag && !n.flag {
      assert Event(who, Cleared) in log + Labelled(who, n.what);
    }
  }

  /** The protocol, under any interleaving of any calls on a form definition: no search and no
      fetch before a login has succeeded; at most two logins and two searches per call; and a call
      that reports no releases has logged in afresh, unless another call cleared the flag. */
  lemma Protocol(calls: seq<Call>, actions: seq<Action>)
    ensures var s := Run(Form, calls, actions);
      && LoginFirst(s.log)
      && (forall i :: 0 <= i < |calls| ==> Count(s.log, i, true) <= 2 && Count(s.log, i, false) <= 2)
      && (forall i :: 0 <= i < |s.threads| && s.threads[i].pc == Done(NoReleases) ==>
            Did(s.log, i, LoggedIn(true)) || ClearedByOther(s.log, i))
  {
    hide Run, Count;
    RunKeeps(calls, actions);
    RunBounded(Form, calls, actions);
    var s := Run(Form, calls, actions);
    forall i | 0 <= i < |calls| ensures Count(s.log, i, true) <= 2 && Count(s.log, i, false) <= 2 {
      assert Bounded(s.log, i, s.threads[i]);
    }
    forall i | 0 <= i < |s.threads| && s.threads[i].pc == Done(NoReleases)
      ensures Did(s.log, i, LoggedIn(true)) || ClearedByOther(s.log, i)
    {
      assert Kept(s.flag, s.log, i, s.threads[i]);
    }
  }

  // ----- Cookies -----

  /** With cookies the second half of the protocol is never entered; the login is made once. */
  predicate LogsInOnce(log: seq<Event>, i: nat, t: Thread) {
    match t.pc
    case Begin => Count(log, i, true) == 0 && Count(log, i, false) == 0
    case Login => Count(log, i, true) == 0 && Count(log, i, false) == 0
    case Work => Count(log, i, true) == 1 && Count(log, i, false) == 0
    case Check => Count(log, i, true) == 1 && Count(log, i, false) == 1
    case Done(_) => Count(log, i, true) == 1 && Count(log, i, false) <= 1
    case _ => false
  }

  /** A cookie login is never cached: in every interleaving the flag stays unset, and every call that
      has ended has made exactly one login attempt and searched at most once. */
  lemma {:induction false} CookieNeverCached(calls: seq<Call>, actions: seq<Action>)
    ensures var s := Run(Cookie, calls, actions);
      && !s.flag && |s.threads| == |calls|
      && forall i :: 0 <= i < |calls| ==> LogsInOnce(s.log, i, s.threads[i])
  {
    if actions != [] {
      CookieNeverCached(calls, actions[..|actions| - 1]);
      var s, a := Run(Cookie, calls, actions[..|actions| - 1]), actions[|actions| - 1];
      if Enabled(s, a) {
        hide Act, Count;
        var t := s.threads[a.who];
        assert LogsInOnce(s.log, a.who, t);
        CookieAct(t, a, s.log);
        var next := Step(Cookie, s, a);
        forall i | 0 <= i < |calls| ensures LogsInOnce(next.log, i, next.threads[i]) {
          if i != a.who {
            ActBounded(Cookie, t, false, a, s.log, i);
            assert LogsInOnce(s.log, i, s.threads[i]);
          }
        }
      }
    }
  }

  lemma CookieAct(t: Thread, a: Action, log: seq<Event>)
    requires !t.pc.Done? && LogsInOnce(log, a.who, t)
    ensures var n := Act(Cookie, t.call, false, t.pc, a.reply);
      !n.flag && LogsInOnce(log + Labelled(a.who, n.what), a.who, t.(pc := n.pc))
  {
    var n := Act(Cookie, t.call, false, t.pc, a.reply);
    LabelledOne(a.who, n.what);
    if n.what == [] {
      assert log + [] == log;
    } else {
      assert (log + [Event(a.who, n.what[0])])[..|log|] == log;
    }
  }

  // ----- A call that nothing interrupts -----

  /** The replies to the requests of one call. */
  datatype Replies = Replies(login: Reply, work: Reply, loginAgain: Reply, workAgain: Reply)

  function ReplyAt(r: Replies, pc: Pc): Reply {
    match pc
    case Login => r.login
    case Work => r.work
    case LoginAgain => r.loginAgain
    case _ => r.workAgain
  }

  function Rank(pc: Pc): nat {
    match pc
    case Begin => 9
    case Login => 8
    case Store => 7
    case Work => 6
    case Check => 5
    case Clear => 4
    case LoginAgain => 3
    case StoreAgain => 2
    case WorkAgain => 1
    case Done(_) => 0
  }

  datatype Finished = Finished(flag: bool, result: Result, what: seq<What>)

  function Finish(m: Method, call: Call, flag: bool, pc: Pc, r: Replies): Finished
    decreases Rank(pc)
  {
    if pc.Done? then Finished(flag, pc.result, [])
    else
      var n := Act(m, call, flag, pc, ReplyAt(r, pc));
      var rest := Finish(m, call, n.flag, n.pc, r);
      rest.(what := n.what + rest.what)
  }

  /** The indexer as the program has it. */
  class Indexer {
    const m: Method
    var loggedIn: bool
    ghost var log: seq<What>

    constructor (m: Method)
      ensures this.m == m && !loggedIn && log == []
    {
      this.m := m;
      loggedIn := false;
      log := [];
    }

    /** `perform_login`. */
    method PerformLogin(force: bool, reply: Reply) returns (ok: bool)
      modifies this
      ensures var skips := !force && old(loggedIn);
        && ok == (skips || !Refused(m, reply))
        && loggedIn == (old(loggedIn) || (!skips && m.Form? && ok))
        && log == old(log) + if skips then [] else LoginTrace(m, force, reply)
    {
      if m.NoLogin? {
        return true;
      }
      if !force && loggedIn {
        return true;
      }
      match m
      case Form =>
        if reply == Failed {
          log := log + [LoginFailed];
          return false;
        }
        log := log + [LoggedIn(force), Stored];
        loggedIn := true;
        return true;
      case Cookie =>
        log := log + [if reply == Failed then LoginFailed else LoggedIn(force)];
        return reply != Failed;
      case _ =>
        return true;
    }

    /** `search`. The result is that of its last request. */
    method Search(r: Replies) returns (result: Result)
      modifies this
      ensures Finished(loggedIn, result, log)
        == var f := Finish(m, SearchCall, old(loggedIn), Begin, r); f.(what := old(log) + f.what)
      ensures EndsIn(SearchCall, result, log)
    {
      FinishEnds(m, SearchCall, loggedIn, r, log);
      FinishLogin(m, SearchCall, loggedIn, r);
      FinishSearch(m, loggedIn || (m.Form? && r.login != Failed), r);
      if !m.NoLogin? {
        FinishAgain(m, r);
      }
      hide Finish, LoginTrace, EndsIn;
      ghost var w := if loggedIn then [] else LoginTrace(m, false, r.login);
      Regroup(log, w, LoginTrace(m, true, r.loginAgain), Searched(r.work), Searched(r.workAgain));
      var ok := PerformLogin(false, r.login);
      assert log == old(log) + w;
      if !ok {
        return Error;
      }
      log := log + [Searched(r.work)];
      if r.work == Empty && !m.NoLogin? && loggedIn {
        loggedIn := false;
        log := log + [Cleared];
        ok := PerformLogin(true, r.loginAgain);
        if !ok {
          return Error;
        }
        log := log + [Searched(r.workAgain)];
        return SearchResult(r.workAgain);
      }
      return SearchResult(r.work);
    }

    /** `fetch_torrent_bytes`. */
    method FetchTorrentBytes(r: Replies) returns (result: Result)
      modifies this
      ensures Finished(loggedIn, result, log)
        == var f := Finish(m, FetchCall, old(loggedIn), Begin, r); f.(what := old(log) + f.what)
      ensures EndsIn(FetchCall, result, log)
    {
      FinishEnds(m, FetchCall, loggedIn, r, log);
      FinishLogin(m, FetchCall, loggedIn, r);
      FinishFetch(m, loggedIn || (m.Form? && r.login != Failed), r);
      hide Finish, EndsIn;
      var ok := PerformLogin(false, r.login);
      if !ok {
        return Error;
      }
      log := log + [Fetched(r.work)];
      return if r.work == Failed then Error else Bytes;
    }
  }

  /** What the last event of a call that has ended says about its result, and the result about that. */
  predicate EndsWith(call: Call, result: Result, last: What) {
    && (result == Releases <==> last == Searched(Filled))
    && (result == NoReleases <==> last == Searched(Empty))
    && (result == Bytes <==> last == Fetched(Empty) || last == Fetched(Filled))
    && (result == Error <==> last == LoginFailed || last == Searched(Failed) || last == Fetched(Failed))
    && (last.Searched? ==> call.SearchCall?)
    && (last.Fetched? ==> call.FetchCall?)
  }

  predicate EndsIn(call: Call, result: Result, log: seq<What>) {
    log != [] && EndsWith(call, result, log[|log| - 1])
  }

  lemma EndsAfter(call: Call, result: Result, before: seq<What>, log: seq<What>)
    requires EndsIn(call, result, log)
    ensures EndsIn(call, result, before + log)
  {
    assert (before + log)[|before + log| - 1] == log[|log| - 1];
  }

  lemma WorkEnds(m: Method, call: Call, flag: bool, r: Replies)
    ensures var f := Finish(m, call, flag, Work, r); EndsIn(call, f.result, f.what)
  {
    match call
    case FetchCall =>
      FinishFetch(m, flag, r);
    case SearchCall =>
      FinishSearch(m, flag, r);
      if r.work == Empty && !m.NoLogin? && flag {
        FinishAgain(m, r);
        hide Finish;
        var again := Finish(m, SearchCall, true, Check, r);
        AgainEnds(m, r);
        EndsAfter(call, again.result, [Searched(r.work)], again.what);
      } else {
        hide Finish;
      }
  }

  lemma AgainEnds(m: Method, r: Replies)
    requires !m.NoLogin?
    ensures var f := Finish(m, SearchCall, true, Check, r); EndsIn(SearchCall, f.result, f.what)
  {
    FinishAgain(m, r);
    hide Finish;
    var w := LoginTrace(m, true, r.loginAgain);
    if !Refused(m, r.loginAgain) {
      assert EndsIn(SearchCall, SearchResult(r.workAgain), [Searched(r.workAgain)]);
      EndsAfter(SearchCall, SearchResult(r.workAgain), [Cleared] + w, [Searched(r.workAgain)]);
    }
  }

  /** The result of a call is that of its last request, or an error if that was a refused login. */
  lemma FinishEnds(m: Method, call: Call, flag: bool, r: Replies, before: seq<What>)
    ensures var f := Finish(m, call, flag, Begin, r); EndsIn(call, f.result, before + f.what)
  {
    FinishLogin(m, call, flag, r);
    hide Finish;
    var f := Finish(m, call, flag, Begin, r);
    if flag || !Refused(m, r.login) {
      var after := flag || (m.Form? && r.login != Failed);
      WorkEnds(m, call, after, r);
      var g := Finish(m, call, after, Work, r);
      EndsAfter(call, g.result, if flag then [] else LoginTrace(m, false, r.login), g.what);
    }
    EndsAfter(call, f.result, before, f.what);
  }

  /** What `perform_login` records when it is not skipped by the flag. */
  function LoginTrace(m: Method, forced: bool, reply: Reply): seq<What> {
    if m.NoLogin? || m.Unsupported? then []
    else if reply == Failed then [LoginFailed]
    else [LoggedIn(forced)] + if m.Form? then [Stored] else []
  }

  predicate Refused(m: Method, reply: Reply) {
    (m.Form? || m.Cookie?) && reply == Failed
  }

  lemma FinishLogin(m: Method, call: Call, flag: bool, r: Replies)
    ensures var after := flag || (m.Form? && r.login != Failed);
      var w := if flag then [] else LoginTrace(m, false, r.login);
      Finish(m, call, flag, Begin, r)
      == if !flag && Refused(m, r.login) then Finished(flag, Error, w)
         else var f := Finish(m, call, after, Work, r); f.(what := w + f.what)
  {
    var f := Finish(m, call, flag || (m.Form? && r.login != Failed), Work, r);
    LoginPrefix(f.what);
  }

  lemma LoginPrefix(more: seq<What>)
    ensures [] + more == more && [] + ([] + more) == more
    ensures [LoggedIn(false)] + ([Stored] + more) == [LoggedIn(false)] + [Stored] + more
    ensures [] + ([LoggedIn(false)] + ([Stored] + more)) == [LoggedIn(false)] + [Stored] + more
    ensures [] + ([LoggedIn(false)] + more) == [LoggedIn(false)] + [] + more
  {}

  lemma FinishAgain(m: Method, r: Replies)
    requires !m.NoLogin?
    ensures var w := LoginTrace(m, true, r.loginAgain);
      Finish(m, SearchCall, true, Check, r)
      == if Refused(m, r.loginAgain) then Finished(false, Error, [Cleared] + w)
         else Finished(m.Form?, SearchResult(r.workAgain), [Cleared] + w + [Searched(r.workAgain)])
  {
    var done := Finish(m, SearchCall, m.Form?, WorkAgain, r);
    var last := [Searched(r.workAgain)];
    assert done.what == last;
    assert [] + ([Cleared] + ([LoggedIn(true)] + ([Stored] + last))) == [Cleared] + ([LoggedIn(true)] + [Stored])
        + last;
  }

  lemma Regroup(log: seq<What>, w: seq<What>, again: seq<What>, first: What, second: What)
    ensures log + (w + [first]) == log + w + [first]
    ensures log + (w + ([first] + ([Cleared] + again))) == log + w + [first] + [Cleared] + again
    ensures log + (w + ([first] + ([Cleared] + again + [second])))
         == log + w + [first] + [Cleared] + again + [second]
  {}

  /** What a search does from its first request on. */
  lemma FinishSearch(m: Method, flag: bool, r: Replies)
    ensures Finish(m, SearchCall, flag, Work, r)
      == if r.work == Empty && !m.NoLogin? && flag then
           var f := Finish(m, SearchCall, true, Check, r); f.(what := [Searched(r.work)] + f.what)
         else Finished(flag, SearchResult(r.work), [Searched(r.work)])
  {}

  lemma FinishFetch(m: Method, flag: bool, r: Replies)
    ensures Finish(m, FetchCall, flag, Work, r)
      == Finished(flag, if r.work == Failed then Error else Bytes, [Fetched(r.work)])
  {}

  /** A form definition searched by one call at a time: an empty result always comes from a search
      right after a forced login of the same call. */
  lemma EmptyAfterFreshLogin(flag: bool, r: Replies) returns (before: seq<What>)
    ensures var f := Finish(Form, SearchCall, flag, Begin, r);
      f.result == NoReleases ==> f.flag && f.what == before + [LoggedIn(true), Stored, Searched(Empty)]
  {
    FinishLogin(Form, SearchCall, flag, r);
    FinishSearch(Form, true, r);
    FinishAgain(Form, r);
    hide Finish, LoginTrace;
    var w := if flag then [] else LoginTrace(Form, false, r.login);
    before := w + [Searched(Empty), Cleared];
    FreshEnd(w);
    assert LoginTrace(Form, true, r.loginAgain) == if r.loginAgain == Failed then [LoginFailed]
        else [LoggedIn(true)] + [Stored] by {
      LoginTraceOf(r.loginAgain);
    }
  }

  lemma LoginTraceOf(reply: Reply)
    ensures LoginTrace(Form, true, reply) == if reply == Failed then [LoginFailed] else [LoggedIn(true)] + [Stored]
  {}

  lemma FreshEnd(w: seq<What>)
    ensures w + ([Searched(Empty)] + ([Cleared] + ([LoggedIn(true)] + [Stored]) + [Searched(Empty)]))
         == (w + [Searched(Empty), Cleared]) + [LoggedIn(true), Stored, Searched(Empty)]
  {}

  // ----- A call on its own is a run of the protocol -----

  lemma {:induction false} RunConcat(m: Method, s: System, a: seq<Action>, b: seq<Action>)
    ensures RunFrom(m, s, a + b) == RunFrom(m, RunFrom(m, s, a), b)
    decreases |b|
  {
    if b == [] {
      assert a + b == a;
    } else {
      assert (a + b)[..|a + b| - 1] == a + b[..|b| - 1];
      RunConcat(m, s, a, b[..|b| - 1]);
    }
  }

  /** Whatever the other calls are waiting for, the actions of one call alone take it to its end,
      with the flag, the result and the events of the sequential program. */
  lemma {:induction false} AloneIsARun(m: Method, s: System, i: nat, r: Replies) returns (actions: seq<Action>)
    requires i < |s.threads|
    ensures var t := s.threads[i]; var f := Finish(m, t.call, s.flag, t.pc, r); var e := RunFrom(m, s, actions);
      && (forall a <- actions :: a.who == i)
      && e == System(f.flag, s.threads[i := t.(pc := Done(f.result))], s.log + Labelled(i, f.what))
    decreases Rank(s.threads[i].pc)
  {
    var t := s.threads[i];
    if t.pc.Done? {
      actions := [];
      assert s.threads[i := t] == s.threads;
      assert s.log + [] == s.log;
    } else {
      var a := Action(i, ReplyAt(r, t.pc));
      var n := Act(m, t.call, s.flag, t.pc, a.reply);
      ActAdvances(m, t.call, s.flag, t.pc, a.reply);
      OneAction(m, s, a);
      var next := Step(m, s, a);
      hide Act, RunFrom, Labelled, Rank, Step;
      assert next == System(n.flag, s.threads[i := t.(pc := n.pc)], s.log + Labelled(i, n.what));
      var more := AloneIsARun(m, next, i, r);
      actions := [a] + more;
      RunConcat(m, s, [a], more);
      var f := Finish(m, t.call, n.flag, n.pc, r);
      assert Finish(m, t.call, s.flag, t.pc, r) == f.(what := n.what + f.what);
      hide Finish;
      TwoUpdates(s.threads, i, t.(pc := n.pc), t.(pc := Done(f.result)));
      TwoLogs(s.log, i, n.what, f.what);
    }
  }

  lemma TwoUpdates(ts: seq<Thread>, i: nat, a: Thread, b: Thread)
    requires i < |ts|
    ensures ts[i := a][i := b] == ts[i := b] && ts[i := a][i] == a
  {}

  lemma TwoLogs(log: seq<Event>, i: nat, a: seq<What>, b: seq<What>)
    ensures log + Labelled(i, a) + Labelled(i, b) == log + Labelled(i, a + b)
  {
    LabelledConcat(i, a, b);
    hide Labelled;
  }

  lemma ActAdvances(m: Method, call: Call, flag: bool, pc: Pc, reply: Reply)
    requires !pc.Done?
    ensures Rank(Act(m, call, flag, pc, reply).pc) < Rank(pc)
  {}

  lemma OneAction(m: Method, s: System, a: Action)
    requires Enabled(s, a)
    ensures RunFrom(m, s, [a]) == Step(m, s, a)
  {
    assert [a][..0] == [];
  }

  lemma {:induction false} LabelledConcat(who: nat, a: seq<What>, b: seq<What>)
    ensures Labelled(who, a + b) == Labelled(who, a) + Labelled(who, b)
  {
    if a == [] {
      assert a + b == b;
    } else {
      assert (a + b)[1..] == a[1..] + b;
      LabelledConcat(who, a[1..], b);
    }
  }

  lemma Then(start: System, actions: seq<Action>, s: System, a: Action) returns (more: seq<Action>, next: System)
    requires RunFrom(Form, start, actions) == s && Enabled(s, a)
    ensures RunFrom(Form, start, more) == next
    ensures var t := s.threads[a.who]; var n := Act(Form, t.call, s.flag, t.pc, a.reply);
      next == System(n.flag, s.threads[a.who := t.(pc := n.pc)],
                     if n.what == [] then s.log else s.log + [Event(a.who, n.what[0])])
  {
    more, next := actions + [a], Step(Form, s, a);
    assert more[..|actions|] == actions;
    var t := s.threads[a.who];
    LabelledOne(a.who, Act(Form, t.call, s.flag, t.pc, a.reply).what);
    assert s.log + [] == s.log;
  }

  // ----- When an empty result may be stale -----

  /** Two searches of which one clears the flag just before the other looks at it: the other reports
      no releases and has not logged in again. */
  lemma ClearedByTheOtherSearch(calls: seq<Call>, i: nat, j: nat) returns (actions: seq<Action>)
    requires i < |calls| && j < |calls| && i != j && calls[i] == calls[j] == SearchCall
    ensures var s := Run(Form, calls, actions);
      |s.threads| == |calls| && s.threads[i].pc == Done(NoReleases) && !Did(s.log, i, LoggedIn(true))
  {
    hide RunFrom;
    var s;
    actions, s := FirstSearchEmpty(calls, i, j);
    var start := Start(calls);
    hide Start;
    actions, s := Then(start, actions, s, Action(j, Filled));
    actions, s := Then(start, actions, s, Action(j, Empty));
    actions, s := Then(start, actions, s, Action(j, Filled));
    actions, s := Then(start, actions, s, Action(j, Filled));
    assert !s.flag && s.threads[i] == Thread(SearchCall, Check) && !Did(s.log, i, LoggedIn(true));
    actions, s := Then(start, actions, s, Action(i, Filled));
  }

  lemma FirstSearchEmpty(calls: seq<Call>, i: nat, j: nat) returns (actions: seq<Action>, s: System)
    requires i < |calls| && j < |calls| && i != j && calls[i] == calls[j] == SearchCall
    ensures Run(Form, calls, actions) == s && s.flag && |s.threads| == |calls|
    ensures s.threads[i] == Thread(SearchCall, Check) && s.threads[j] == Thread(SearchCall, Begin)
    ensures s.log == [Event(i, LoggedIn(false)), Event(i, Stored), Event(i, Searched(Empty))]
  {
    hide RunFrom;
    var start := Start(calls);
    s := start;
    actions := [];
    NoActions(start);
    actions, s := Then(start, actions, s, Action(i, Filled));
    actions, s := Then(start, actions, s, Action(i, Filled));
    actions, s := Then(start, actions, s, Action(i, Filled));
    actions, s := Then(start, actions, s, Action(i, Empty));
  }

  /** Only searches clear the flag, and only they report releases or none. */
  predicate SearchesOnly(s: System, calls: seq<Call>) {
    && |s.threads| == |calls|
    && (forall i :: 0 <= i < |calls| ==> s.threads[i].call == calls[i] && FetchStays(s.threads[i]))
    && (forall e <- s.log :: e.what == Cleared ==> e.who < |calls| && calls[e.who] == SearchCall)
  }

  predicate FetchStays(t: Thread) {
    t.call.FetchCall? ==>
      match t.pc
      case Begin => true
      case Login => true
      case Store => true
      case Work => true
      case Done(r) => r != NoReleases
      case _ => false
  }

  lemma {:induction false} RunSearchesOnly(calls: seq<Call>, actions: seq<Action>)
    ensures SearchesOnly(Run(Form, calls, actions), calls)
  {
    if actions != [] {
      RunSearchesOnly(calls, actions[..|actions| - 1]);
      var s, a := Run(Form, calls, actions[..|actions| - 1]), actions[|actions| - 1];
      if Enabled(s, a) {
        var t := s.threads[a.who];
        var n := Act(Form, t.call, s.flag, t.pc, a.reply);
        assert FetchStays(t);
        FetchKeepsOut(t, s.flag, a.reply);
        LabelledOne(a.who, n.what);
        hide Act, RunFrom;
        assert FetchStays(t.(pc := n.pc));
      }
    }
  }

  lemma FetchKeepsOut(t: Thread, flag: bool, reply: Reply)
    requires !t.pc.Done? && FetchStays(t)
    ensures var n := Act(Form, t.call, flag, t.pc, reply);
      FetchStays(t.(pc := n.pc)) && |n.what| <= 1 && (n.what == [Cleared] ==> t.call.SearchCall?)
  {}

  predicate AtMostOneSearch(calls: seq<Call>) {
    forall i, j :: 0 <= i < j < |calls| ==> !(calls[i].SearchCall? && calls[j].SearchCall?)
  }

  /** After these actions, whoever reports no releases has logged in again itself. */
  predicate Fresh(calls: seq<Call>, actions: seq<Action>) {
    var s := Run(Form, calls, actions);
    forall i :: 0 <= i < |s.threads| && s.threads[i].pc == Done(NoReleases) ==> Did(s.log, i, LoggedIn(true))
  }

  /** On a form definition, an empty result comes from a fresh login of the same call in every
      interleaving if and only if at most one of the calls is a search. */
  lemma FreshIffOneSearch(calls: seq<Call>)
    ensures (forall actions :: Fresh(calls, actions)) <==> AtMostOneSearch(calls)
  {
    if AtMostOneSearch(calls) {
      forall actions ensures Fresh(calls, actions) {
        OneSearchIsFresh(calls, actions);
      }
    } else {
      var i, j :| 0 <= i < j < |calls| && calls[i].SearchCall? && calls[j].SearchCall?;
      var actions := ClearedByTheOtherSearch(calls, i, j);
      assert !Fresh(calls, actions);
    }
  }

  lemma OnlySearch(calls: seq<Call>, i: nat, k: nat)
    requires AtMostOneSearch(calls) && i < |calls| && k < |calls| && calls[i].SearchCall? && calls[k].SearchCall?
    ensures i == k
  {}

  lemma OneSearchIsFresh(calls: seq<Call>, actions: seq<Action>)
    requires AtMostOneSearch(calls)
    ensures Fresh(calls, actions)
  {
    Protocol(calls, actions);
    RunSearchesOnly(calls, actions);
    hide Run, Count, LoginFirst;
    var s := Run(Form, calls, actions);
    forall i | 0 <= i < |s.threads| && s.threads[i].pc == Done(NoReleases) ensures Did(s.log, i, LoggedIn(true)) {
      assert FetchStays(s.threads[i]);
      forall e | e in s.log && e.what == Cleared ensures e.who == i {
        OnlySearch(calls, i, e.who);
      }
    }
  }

  lemma NoActions(s: System)
    ensures RunFrom(Form, s, []) == s
  {}
}
