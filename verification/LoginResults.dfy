/** What the result of a call says about its requests, under any interleaving, and the result of a call
    that nothing interrupts in terms of the replies alone. */
module LoginResults {
  import opened Wrappers
  import opened LoginProtocol

  // ----- Any interleaving -----

  /** The last thing a call has done. */
  function LastOf(log: seq<Event>, who: nat): Option<What> {
    if log == [] then None
    else if log[|log| - 1].who == who then Some(log[|log| - 1].what)
    else LastOf(log[..|log| - 1], who)
  }

  /** Neither the reply to a search or fetch nor a refused login. */
  predicate Open(last: Option<What>) {
    last.Some? ==> !last.value.Searched? && !last.value.Fetched? && !last.value.LoginFailed?
  }

  /** What the last thing a call has done says about where it stands. */
  predicate Explained(t: Thread, last: Option<What>) {
    match t.pc
    case Check => t.call.SearchCall? && last == Some(Searched(Empty))
    case Clear => t.call.SearchCall? && last == Some(Searched(Empty))
    case Done(result) => last.Some? && EndsWith(t.call, result, last.value)
    case LoginAgain => t.call.SearchCall? && Open(last)
    case StoreAgain => t.call.SearchCall? && Open(last)
    case WorkAgain => t.call.SearchCall? && Open(last)
    case _ => Open(last)
  }

  lemma LastGrows(log: seq<Event>, who: nat, what: seq<What>, i: nat)
    requires |what| <= 1
    ensures LastOf(log + Labelled(who, what), i) ==
      if i == who && what != [] then Some(what[0]) else LastOf(log, i)
  {
    LabelledOne(who, what);
    if what == [] {
      assert log + [] == log;
    } else {
      assert (log + [Event(who, what[0])])[..|log|] == log;
    }
  }

  lemma ActExplained(m: Method, t: Thread, flag: bool, reply: Reply, last: Option<What>)
    requires !t.pc.Done? && Explained(t, last)
    ensures var n := Act(m, t.call, flag, t.pc, reply);
      |n.what| <= 1 && Explained(t.(pc := n.pc), if n.what == [] then last else Some(n.what[0]))
  {}

  lemma {:induction false} RunExplained(m: Method, calls: seq<Call>, actions: seq<Action>)
    ensures var s := Run(m, calls, actions);
      && |s.threads| == |calls|
      && forall i :: 0 <= i < |calls| ==>
        s.threads[i].call == calls[i] && Explained(s.threads[i], LastOf(s.log, i))
  {
    if actions != [] {
      RunExplained(m, calls, actions[..|actions| - 1]);
      var s, a := Run(m, calls, actions[..|actions| - 1]), actions[|actions| - 1];
      if Enabled(s, a) {
        var t := s.threads[a.who];
        var n := Act(m, t.call, s.flag, t.pc, a.reply);
        ActExplained(m, t, s.flag, a.reply, LastOf(s.log, a.who));
        hide Act, LastOf, Explained;
        forall i | 0 <= i < |calls| ensures Explained(Step(m, s, a).threads[i], LastOf(Step(m, s, a).log, i)) {
          LastGrows(s.log, a.who, n.what, i);
        }
      }
    }
  }

  /** For every login method, under any interleaving of any calls: a call that has ended reports releases
      if and only if its last request was a search that found some, no releases if and only if it was a
      search that found none, bytes if and only if it was a fetch that did not fail, and an error if and
      only if its last request failed or its last login was refused. */
  lemma ResultIsLastReply(m: Method, calls: seq<Call>, actions: seq<Action>, i: nat)
    requires i < |calls|
    ensures var s := Run(m, calls, actions); var last := LastOf(s.log, i);
      && i < |s.threads|
      && (s.threads[i].pc.Done? ==>
            var result := s.threads[i].pc.result;
            && (result == Releases <==> last == Some(Searched(Filled)))
            && (result == NoReleases <==> last == Some(Searched(Empty)))
            && (result == Bytes <==> last == Some(Fetched(Empty)) || last == Some(Fetched(Filled)))
            && (result == Error <==>
                 last == Some(LoginFailed) || last == Some(Searched(Failed)) || last == Some(Fetched(Failed))))
      && (last.Some? && (last.value in {Searched(Filled), Searched(Failed), LoginFailed} || last.value.Fetched?) ==>
            s.threads[i].pc.Done?)
  {
    RunExplained(m, calls, actions);
    hide Run, LastOf;
    var s := Run(m, calls, actions);
    assert Explained(s.threads[i], LastOf(s.log, i));
  }

  /** The event of an action carries the reply that the action got. */
  predicate IsHeard(actions: seq<Action>, e: Event) {
    match e.what
    case Searched(reply) => Action(e.who, reply) in actions
    case Fetched(reply) => Action(e.who, reply) in actions
    case LoginFailed => Action(e.who, Failed) in actions
    case LoggedIn(_) => Action(e.who, Empty) in actions || Action(e.who, Filled) in actions
    case _ => true
  }

  /** Replies are not made up: each one in the log is that of an action of the same call. */
  lemma {:induction false} RepliesAreHeard(m: Method, calls: seq<Call>, actions: seq<Action>)
    ensures forall e <- Run(m, calls, actions).log :: IsHeard(actions, e)
  {
    if actions != [] {
      var init, a := actions[..|actions| - 1], actions[|actions| - 1];
      RepliesAreHeard(m, calls, init);
      assert forall x :: x in actions <==> x in init || x == a;
      var s := Run(m, calls, init);
      if Enabled(s, a) {
        var t := s.threads[a.who];
        ActHeard(m, t, s.flag, a);
        LabelledOne(a.who, Act(m, t.call, s.flag, t.pc, a.reply).what);
        hide Act, Labelled;
      }
    }
  }

  lemma ActHeard(m: Method, t: Thread, flag: bool, a: Action)
    requires !t.pc.Done?
    ensures var n := Act(m, t.call, flag, t.pc, a.reply);
      |n.what| <= 1 && (n.what != [] ==> IsHeard([a], Event(a.who, n.what[0])))
  {}

  // ----- Without interruption -----

  /** The replies of the searches, in order. */
  function SearchReplies(log: seq<What>): seq<Reply> {
    if log == [] then []
    else (match log[0] case Searched(reply) => [reply] case _ => []) + SearchReplies(log[1..])
  }

  /** The empty answer of a cached or a new session makes the search log in again. */
  predicate Retries(m: Method, flag: bool, r: Replies) {
    r.work == Empty && ((m == Form) || (m != NoLogin && flag))
  }

  predicate LoginRefused(m: Method, reply: Reply) {
    (m == Form || m == Cookie) && reply == Failed
  }

  /** The result of an uninterrupted search, in terms of the method, the flag and the four replies. */
  lemma SearchOutcome(m: Method, flag: bool, r: Replies)
    ensures var f := Finish(m, SearchCall, flag, Begin, r);
      var out := !flag && LoginRefused(m, r.login);
      var again := Retries(m, flag, r);
      var final := if again then r.workAgain else r.work;
      var stopped := out || (again && LoginRefused(m, r.loginAgain));
      && (f.result == Error <==> stopped || final == Failed)
      && (f.result == NoReleases <==> !stopped && final == Empty)
      && (f.result == Releases <==> !stopped && final == Filled)
      && SearchReplies(f.what) ==
         (if out then [] else if again && !stopped then [r.work, r.workAgain] else [r.work])
      && f.flag == (if out then false else if again then m == Form && !stopped else flag || m == Form)
  {
    FinishLogin(m, SearchCall, flag, r);
    FinishSearch(m, flag || (m.Form? && r.login != Failed), r);
    if !m.NoLogin? {
      FinishAgain(m, r);
    }
    hide Finish;
    LoginReplies(m, false, r.login);
    LoginReplies(m, true, r.loginAgain);
    var w := if flag then [] else LoginTrace(m, false, r.login);
    var w2 := LoginTrace(m, true, r.loginAgain);
    hide LoginTrace;
    RepliesOfAll(w, w2, r);
  }

  lemma LoginReplies(m: Method, forced: bool, reply: Reply)
    ensures SearchReplies(LoginTrace(m, forced, reply)) == []
  {
    assert [LoggedIn(forced)] + [Stored] == [LoggedIn(forced), Stored];
    assert [LoggedIn(forced), Stored][1..] == [Stored] && [Stored][1..] == [];
    assert [LoggedIn(forced)] + [] == [LoggedIn(forced)];
    assert [LoggedIn(forced)][1..] == [] && [LoginFailed][1..] == [];
  }

  lemma {:induction false} RepliesConcat(a: seq<What>, b: seq<What>)
    ensures SearchReplies(a + b) == SearchReplies(a) + SearchReplies(b)
  {
    if a == [] {
      assert a + b == b;
    } else {
      assert (a + b)[1..] == a[1..] + b;
      RepliesConcat(a[1..], b);
    }
  }

  lemma OneReply(what: What)
    ensures SearchReplies([what]) == match what case Searched(reply) => [reply] case _ => []
  {
    assert [what][1..] == [];
  }

  lemma RepliesOfAll(w: seq<What>, w2: seq<What>, r: Replies)
    requires SearchReplies(w) == [] && SearchReplies(w2) == []
    ensures SearchReplies(w + [Searched(r.work)]) == [r.work]
    ensures SearchReplies(w + ([Searched(r.work)] + ([Cleared] + w2))) == [r.work]
    ensures SearchReplies(w + ([Searched(r.work)] + ([Cleared] + w2 + [Searched(r.workAgain)])))
         == [r.work, r.workAgain]
  {
    var first, last := [Searched(r.work)], [Searched(r.workAgain)];
    OneReply(first[0]);
    OneReply(last[0]);
    OneReply(Cleared);
    RepliesConcat(w, first);
    RepliesConcat([Cleared], w2);
    RepliesConcat(first, [Cleared] + w2);
    RepliesConcat(w, first + ([Cleared] + w2));
    RepliesConcat([Cleared] + w2, last);
    RepliesConcat(first, [Cleared] + w2 + last);
    RepliesConcat(w, first + ([Cleared] + w2 + last));
    hide SearchReplies;
  }

  /** The result of an uninterrupted fetch. */
  lemma FetchOutcome(m: Method, flag: bool, r: Replies)
    ensures var f := Finish(m, FetchCall, flag, Begin, r);
      var out := !flag && LoginRefused(m, r.login);
      && (f.result == Error <==> out || r.work == Failed)
      && (f.result == Bytes <==> !out && r.work != Failed)
      && (Fetched(r.work) in f.what <==> !out)
      && f.flag == (!out && (flag || m == Form))
  {
    FinishLogin(m, FetchCall, flag, r);
    FinishFetch(m, flag || (m.Form? && r.login != Failed), r);
    hide Finish;
  }
}
