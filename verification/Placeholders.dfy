/** The converter of PostgreSQL placeholders (scripts/convert_sql_placeholders.py): which parts of a
    Rust source it rewrites, what its audit accepts, and why accepted queries keep their meaning. */
module Placeholders {
  import opened Strings

  // ----- Placeholders in a text -----

  /** A character that is copied, or a `$` with the digits after it. */
  datatype Piece = Ch(c: char) | Mark(digits: string)

  function DigitRun(s: string): (n: nat)
    ensures n <= |s| && forall i :: 0 <= i < n ==> IsDigit(s[i])
    ensures n < |s| ==> !IsDigit(s[n])
  {
    if s != "" && IsDigit(s[0]) then 1 + DigitRun(s[1..]) else 0
  }

  /** The matches of `\$(\d+)`, and everything between them character by character. */
  function Pieces(s: string): seq<Piece> {
    if s == "" then []
    else
      var n := if s[0] == '$' then DigitRun(s[1..]) else 0;
      if n > 0 then [Mark(s[1..1 + n])] + Pieces(s[1 + n..]) else [Ch(s[0])] + Pieces(s[1..])
  }

  function Source(ps: seq<Piece>): string {
    if ps == [] then "" else (if ps[0].Ch? then [ps[0].c] else "$" + ps[0].digits) + Source(ps[1..])
  }

  /** Every placeholder replaced by `?`. */
  function Questions(ps: seq<Piece>): string {
    if ps == [] then "" else [if ps[0].Ch? then ps[0].c else '?'] + Questions(ps[1..])
  }

  function ToQuestions(s: string): string {
    Questions(Pieces(s))
  }

  /** Every `Mark` holds at least one digit and nothing else. */
  predicate Proper(ps: seq<Piece>) {
    forall p <- ps :: p.Mark? ==> p.digits != "" && forall c <- p.digits :: IsDigit(c)
  }

  function Numbers(ps: seq<Piece>): seq<nat>
    requires Proper(ps)
  {
    if ps == [] then []
    else
      ProperTail(ps);
      (if ps[0].Mark? then [Decimal(ps[0].digits)] else []) + Numbers(ps[1..])
  }

  lemma ProperTail(ps: seq<Piece>)
    requires Proper(ps) && ps != []
    ensures ps[0] in ps && Proper(ps[1..])
  {
    assert forall p <- ps[1..] :: p in ps;
  }

  lemma {:induction false} PiecesOf(s: string)
    ensures Source(Pieces(s)) == s && Proper(Pieces(s))
  {
    if s != "" {
      hide Source, Proper, DigitRun, IsDigit;
      FirstPiece(s);
      var n := if s[0] == '$' then DigitRun(s[1..]) else 0;
      PiecesOf(if n > 0 then s[1 + n..] else s[1..]);
      ConsPieces(if n > 0 then Mark(s[1..1 + n]) else Ch(s[0]), Pieces(if n > 0 then s[1 + n..] else s[1..]));
    }
  }

  lemma FirstPiece(s: string)
    requires s != ""
    ensures var n := if s[0] == '$' then DigitRun(s[1..]) else 0;
      && (n > 0 ==> s == "$" + s[1..1 + n] + s[1 + n..] && forall c <- s[1..1 + n] :: IsDigit(c))
      && s == [s[0]] + s[1..]
  {}

  lemma ConsPieces(p: Piece, ps: seq<Piece>)
    requires Proper(ps) && (p.Mark? ==> p.digits != "" && forall c <- p.digits :: IsDigit(c))
    ensures Source([p] + ps) == (if p.Ch? then [p.c] else "$" + p.digits) + Source(ps) && Proper([p] + ps)
  {
    assert ([p] + ps)[1..] == ps;
  }

  function Copies(s: string): seq<Piece> {
    if s == "" then [] else [Ch(s[0])] + Copies(s[1..])
  }

  /** No placeholder is left after replacing them. */
  lemma {:induction false} QuestionsHaveNoMarks(s: string)
    ensures Pieces(ToQuestions(s)) == Copies(ToQuestions(s))
    ensures ToQuestions(ToQuestions(s)) == ToQuestions(s)
  {
    NoDollarDigit(s);
    CopiesAll(ToQuestions(s));
  }

  lemma {:induction false} NoDollarDigit(s: string)
    ensures var q := ToQuestions(s);
      && (forall i :: 0 <= i < |q| - 1 && q[i] == '$' ==> !IsDigit(q[i + 1]))
      && (q != "" ==> s != "" && (q[0] == s[0] || q[0] == '?'))
  {
    if s != "" {
      var n := if s[0] == '$' then DigitRun(s[1..]) else 0;
      var k := if n > 0 then 1 + n else 1;
      var q, rest := ToQuestions(s), ToQuestions(s[k..]);
      NoDollarDigit(s[k..]);
      assert Pieces(s)[1..] == Pieces(s[k..]);
      assert q[1..] == rest;
      forall i | 0 <= i < |q| - 1 && q[i] == '$' ensures !IsDigit(q[i + 1]) {
        if i > 0 {
          assert q[i] == rest[i - 1] && q[i + 1] == rest[i];
        }
      }
    }
  }

  lemma {:induction false} CopiesAll(q: string)
    requires forall i :: 0 <= i < |q| - 1 && q[i] == '$' ==> !IsDigit(q[i + 1])
    ensures Pieces(q) == Copies(q) && Questions(Pieces(q)) == q
  {
    if q != "" {
      var rest := q[1..];
      assert q[0] == '$' ==> DigitRun(rest) == 0;
      assert Pieces(q) == [Ch(q[0])] + Pieces(rest);
      hide Pieces, DigitRun;
      assert ([Ch(q[0])] + Pieces(rest))[1..] == Pieces(rest);
      forall i | 0 <= i < |rest| - 1 && rest[i] == '$' ensures !IsDigit(rest[i + 1]) {
        assert q[i + 1] == '$';
      }
      CopiesAll(rest);
    }
  }

  // ----- What a query means -----

  /** A query after binding: text, bound values, and places for which there is no argument. */
  datatype Cell = Text(c: char) | Bound(value: int) | Missing

  /** Argument number `k`, counted from one. */
  function Argument(args: seq<int>, k: nat): Cell {
    if 1 <= k <= |args| then Bound(args[k - 1]) else Missing
  }

  /** PostgreSQL: `$k` is the k-th argument. */
  function BindByNumber(ps: seq<Piece>, args: seq<int>): seq<Cell>
    requires Proper(ps)
  {
    if ps == [] then []
    else
      ProperTail(ps);
      [if ps[0].Ch? then Text(ps[0].c) else Argument(args, Decimal(ps[0].digits))] + BindByNumber(ps[1..], args)
  }

  /** MariaDB: each `?` is the next argument; `next` is the number of the first one not used yet. */
  function BindByOccurrence(q: string, args: seq<int>, next: nat): seq<Cell> {
    if q == "" then []
    else if q[0] == '?' then [Argument(args, next)] + BindByOccurrence(q[1..], args, next + 1)
    else [Text(q[0])] + BindByOccurrence(q[1..], args, next)
  }

  /** The original query and the converted one, with the same arguments. */
  predicate SameQuery(s: string, args: seq<int>) {
    PiecesOf(s);
    BindByOccurrence(ToQuestions(s), args, 1) == BindByNumber(Pieces(s), args)
  }

  function Counting(from: nat, n: nat): seq<nat> {
    seq(n, i requires 0 <= i < n => from + i)
  }

  predicate InOrder(s: string) {
    PiecesOf(s);
    var numbers := Numbers(Pieces(s));
    numbers == Counting(1, |numbers|)
  }

  predicate NoQuestionMark(ps: seq<Piece>) {
    forall p <- ps :: p != Ch('?')
  }

  /** The argument that the j-th `?` takes is the one that the j-th placeholder names. */
  predicate TakesTheSame(ns: seq<nat>, args: seq<int>, next: nat, j: nat)
    requires j < |ns|
  {
    Argument(args, next + j) == Argument(args, ns[j])
  }

  predicate AllTakeTheSame(ns: seq<nat>, args: seq<int>, next: nat) {
    forall j :: 0 <= j < |ns| ==> TakesTheSame(ns, args, next, j)
  }

  lemma TakesCons(n: nat, ns: seq<nat>, args: seq<int>, next: nat)
    ensures AllTakeTheSame([n] + ns, args, next)
      <==> Argument(args, next) == Argument(args, n) && AllTakeTheSame(ns, args, next + 1)
  {
    var all := [n] + ns;
    assert TakesTheSame(all, args, next, 0) <==> Argument(args, next) == Argument(args, n);
    assert forall j :: 0 <= j < |ns| ==> all[j + 1] == ns[j];
    var later := next + 1;
    if AllTakeTheSame(all, args, next) {
      forall j | 0 <= j < |ns| ensures TakesTheSame(ns, args, later, j) {
        assert TakesTheSame(all, args, next, j + 1);
      }
    }
    if AllTakeTheSame(ns, args, later) && TakesTheSame(all, args, next, 0) {
      forall j | 0 <= j < |all| ensures TakesTheSame(all, args, next, j) {
        assert j > 0 ==> TakesTheSame(ns, args, later, j - 1);
      }
    }
  }

  /** Binding agrees exactly when every placeholder names the argument that is next. */
  lemma {:induction false} BindingsAgree(ps: seq<Piece>, args: seq<int>, next: nat)
    requires Proper(ps) && NoQuestionMark(ps)
    ensures BindByOccurrence(Questions(ps), args, next) == BindByNumber(ps, args)
      <==> AllTakeTheSame(Numbers(ps), args, next)
  {
    if ps != [] {
      ProperTail(ps);
      assert forall p <- ps[1..] :: p in ps;
      var q, rest := Questions(ps), Numbers(ps[1..]);
      assert q[1..] == Questions(ps[1..]);
      var step := if ps[0].Mark? then 1 else 0;
      BindingsAgree(ps[1..], args, next + step);
      var a, b := BindByOccurrence(q, args, next), BindByNumber(ps, args);
      assert a[1..] == BindByOccurrence(q[1..], args, next + step) && b[1..] == BindByNumber(ps[1..], args);
      assert a == [a[0]] + a[1..] && b == [b[0]] + b[1..];
      assert a == b <==> a[0] == b[0] && a[1..] == b[1..];
      if ps[0].Mark? {
        TakesCons(Decimal(ps[0].digits), rest, args, next);
      } else {
        assert Numbers(ps) == rest;
      }
    }
  }

  function Largest(ns: seq<nat>): (m: nat)
    ensures forall n <- ns :: n <= m
  {
    if ns == [] then 0
    else
      var m := Largest(ns[1..]);
      assert forall n <- ns :: n == ns[0] || n in ns[1..];
      if ns[0] > m then ns[0] else m
  }

  lemma {:induction false} QuestionPieces(s: string)
    ensures NoQuestionMark(Pieces(s)) <==> '?' !in s
  {
    if s != "" {
      var n := if s[0] == '$' then DigitRun(s[1..]) else 0;
      var k := if n > 0 then 1 + n else 1;
      QuestionPieces(s[k..]);
      var ps := Pieces(s);
      assert ps == [ps[0]] + Pieces(s[k..]);
      assert forall p :: p in ps <==> p == ps[0] || p in Pieces(s[k..]);
      assert s == s[..k] + s[k..];
      if n > 0 {
        assert s[..k] == "$" + s[1..][..n];
        assert forall c <- s[1..][..n] :: IsDigit(c);
        assert '?' !in s[..k] && ps[0].Mark?;
      } else {
        assert s[..k] == [s[0]] && ps[0] == Ch(s[0]);
      }
      assert '?' in s <==> '?' in s[..k] || '?' in s[k..];
      assert Ch('?') in ps <==> ps[0] == Ch('?') || Ch('?') in Pieces(s[k..]);
    }
  }

  /** A `?` of the literal's own is taken for a placeholder afterwards. */
  lemma {:induction false} OwnQuestionMark(ps: seq<Piece>, args: seq<int>, next: nat)
    requires Proper(ps) && !NoQuestionMark(ps)
    ensures BindByOccurrence(Questions(ps), args, next) != BindByNumber(ps, args)
  {
    ProperTail(ps);
    var q := Questions(ps);
    assert q[1..] == Questions(ps[1..]);
    var a, b := BindByOccurrence(q, args, next), BindByNumber(ps, args);
    if ps[0] != Ch('?') {
      assert forall p <- ps :: p == ps[0] || p in ps[1..];
      var step := if ps[0].Mark? then 1 else 0;
      OwnQuestionMark(ps[1..], args, next + step);
      assert a[1..] == BindByOccurrence(q[1..], args, next + step) && b[1..] == BindByNumber(ps[1..], args);
    } else {
      assert a[0].Text? == false && b[0] == Text('?');
    }
  }

  /** The audit is exact: the converted query binds, for all arguments, what the original binds if
      and only if the placeholders are numbered 1 to n in order, which the audit checks, and the
      literal has no `?` of its own, which it does not. */
  lemma AuditIsExact(s: string)
    ensures (forall args :: SameQuery(s, args)) <==> InOrder(s) && '?' !in s
  {
    PiecesOf(s);
    QuestionPieces(s);
    if '?' in s {
      OwnQuestionMark(Pieces(s), [], 1);
      assert !SameQuery(s, []);
    } else {
      InOrderIsExact(s);
    }
  }

  lemma InOrderIsExact(s: string)
    requires '?' !in s
    ensures InOrder(s) <==> forall args :: SameQuery(s, args)
  {
    PiecesOf(s);
    QuestionPieces(s);
    var ps := Pieces(s);
    var ns := Numbers(ps);
    hide Pieces, Numbers, Questions, BindByNumber, BindByOccurrence, TakesTheSame;
    if InOrder(s) {
      forall args: seq<int> ensures SameQuery(s, args) {
        BindingsAgree(ps, args, 1);
        OrderedTake(ns, args);
      }
    }
    var distinct := seq(Largest(ns) + |ns|, i => i);
    if SameQuery(s, distinct) {
      BindingsAgree(ps, distinct, 1);
      DistinctTake(ns);
    }
  }

  lemma OrderedTake(ns: seq<nat>, args: seq<int>)
    requires ns == Counting(1, |ns|)
    ensures AllTakeTheSame(ns, args, 1)
  {
    forall j | 0 <= j < |ns| ensures TakesTheSame(ns, args, 1, j) {
      assert ns[j] == Counting(1, |ns|)[j] == 1 + j;
    }
  }

  /** With arguments that all differ, taking the same means being in order. */
  lemma DistinctTake(ns: seq<nat>)
    requires AllTakeTheSame(ns, seq(Largest(ns) + |ns|, i => i), 1)
    ensures ns == Counting(1, |ns|)
  {
    var distinct := seq(Largest(ns) + |ns|, i => i);
    forall j | 0 <= j < |ns| ensures ns[j] == 1 + j {
      assert ns[j] in ns;
      assert TakesTheSame(ns, distinct, 1, j);
    }
  }
}
