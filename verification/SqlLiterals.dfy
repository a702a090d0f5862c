/** The Rust string literals the converter looks at, the conversion of a whole source, and the gate
    that refuses to convert anything when the audit flags a literal. */
module SqlLiterals {
  import opened Wrappers
  import opened Strings
  import opened Placeholders

  // ----- String literals -----

  function HashRun(s: string): (n: nat)
    ensures n <= |s|
  {
    if s != "" && s[0] == '#' then 1 + HashRun(s[1..]) else 0
  }

  /** The length of the body of a raw literal up to and with its closing quote and `h` hashes. */
  function RawEnd(s: string, h: nat): (r: Option<nat>)
    ensures r.Some? ==> 0 < r.value <= |s|
  {
    if s == "" then None
    else if s[0] == '"' && HashRun(s[1..]) >= h then Some(1 + h)
    else
      match RawEnd(s[1..], h)
      case None => None
      case Some(n) => Some(n + 1)
  }

  /** The length of the body of a quoted literal up to and with its closing quote; a backslash takes
      the character after it along. */
  function QuotedEnd(s: string): (r: Option<nat>)
    ensures r.Some? ==> 0 < r.value <= |s|
  {
    if s == "" then None
    else if s[0] == '"' then Some(1)
    else if s[0] == '\\' then
      if |s| < 2 then None
      else
        match QuotedEnd(s[2..])
        case None => None
        case Some(n) => Some(n + 2)
    else
      match QuotedEnd(s[1..])
      case None => None
      case Some(n) => Some(n + 1)
  }

  /** The length of the literal that starts the text: a raw literal needs at least one hash, because
      the pattern refers back to them. */
  function LiteralLength(s: string): (r: Option<nat>)
    ensures r.Some? ==> 0 < r.value <= |s|
  {
    if s == "" then None
    else if s[0] == 'r' then
      var h := HashRun(s[1..]);
      if h > 0 && 1 + h < |s| && s[1 + h] == '"' then
        match RawEnd(s[2 + h..], h)
        case None => None
        case Some(n) => Some(2 + h + n)
      else None
    else if s[0] == '"' then
      match QuotedEnd(s[1..])
      case None => None
      case Some(n) => Some(1 + n)
    else None
  }

  // ----- SQL -----

  predicate WordChar(c: char) {
    IsDigit(c) || 'a' <= c <= 'z' || 'A' <= c <= 'Z' || c == '_'
  }

  /** The word stands at index `i` in any letter case, with word boundaries around it. */
  predicate WordAt(s: string, i: nat, word: string) {
    && i + |word| <= |s| && Upper(s[i..i + |word|]) == word
    && (i > 0 ==> !WordChar(s[i - 1]))
    && (i + |word| < |s| ==> !WordChar(s[i + |word|]))
  }

  predicate SqlWordAt(s: string, i: nat) {
    exists word <- {"SELECT", "INSERT", "UPDATE", "DELETE", "WITH"} :: WordAt(s, i, word)
  }

  predicate IsSql(s: string) {
    exists i :: 0 <= i <= |s| && SqlWordAt(s, i)
  }

  function ConvertLiteral(s: string): string {
    if IsSql(s) then ToQuestions(s) else s
  }

  // ----- Segments -----

  datatype Segment = Other(c: char) | Literal(text: string)

  function Segments(s: string): seq<Segment> {
    if s == "" then []
    else
      match LiteralLength(s)
      case None => [Other(s[0])] + Segments(s[1..])
      case Some(n) => [Literal(s[..n])] + Segments(s[n..])
  }

  function SegmentText(g: Segment): string {
    if g.Other? then [g.c] else g.text
  }

  function JoinSegments(gs: seq<Segment>): string {
    if gs == [] then "" else SegmentText(gs[0]) + JoinSegments(gs[1..])
  }

  function ConvertSegment(g: Segment): Segment {
    if g.Literal? then Literal(ConvertLiteral(g.text)) else g
  }

  function ConvertSegments(gs: seq<Segment>): seq<Segment> {
    if gs == [] then [] else [ConvertSegment(gs[0])] + ConvertSegments(gs[1..])
  }

  /** `convert`: the literals are substituted, everything between them is copied. */
  function Convert(s: string): string {
    if s == "" then ""
    else
      match LiteralLength(s)
      case None => [s[0]] + Convert(s[1..])
      case Some(n) => ConvertLiteral(s[..n]) + Convert(s[n..])
  }

  // ----- Rewriting keeps the shape of literals -----

  /** Some placeholders of `Source(ps)` written as `?`: the pieces say which. */
  lemma {:induction false} SourceConcat(a: seq<Piece>, b: seq<Piece>)
    ensures Source(a + b) == Source(a) + Source(b) && Questions(a + b) == Questions(a) + Questions(b)
  {
    if a == [] {
      assert a + b == b;
    } else {
      var p, more := a[0], a[1..];
      assert a == [p] + more && a + b == [p] + (more + b);
      SourceConcat(more, b);
      SourceCons(p, more);
      SourceCons(p, more + b);
      hide Source, Questions;
      Associates(if p.Ch? then [p.c] else "$" + p.digits, Source(more), Source(b));
      Associates([if p.Ch? then p.c else '?'], Questions(more), Questions(b));
    }
  }

  lemma Associates(x: string, y: string, z: string)
    ensures x + (y + z) == x + y + z
  {}

  lemma ProperConcat(a: seq<Piece>, b: seq<Piece>)
    requires Proper(a) && Proper(b)
    ensures Proper(a + b)
  {}

  lemma {:induction false} CopiesText(s: string)
    ensures Source(Copies(s)) == s && Questions(Copies(s)) == s && Proper(Copies(s))
  {
    if s != "" {
      CopiesText(s[1..]);
      assert Copies(s)[1..] == Copies(s[1..]);
    }
  }

  /** The pieces by which a whole source is rewritten. */
  function Rewriting(s: string): seq<Piece> {
    if s == "" then []
    else
      match LiteralLength(s)
      case None => [Ch(s[0])] + Rewriting(s[1..])
      case Some(n) => (if IsSql(s[..n]) then Pieces(s[..n]) else Copies(s[..n])) + Rewriting(s[n..])
  }

  lemma {:induction false} RewritingIsConvert(s: string)
    ensures Source(Rewriting(s)) == s && Questions(Rewriting(s)) == Convert(s) && Proper(Rewriting(s))
  {
    if s != "" {
      hide Rewriting, Convert, LiteralLength, IsSql, Pieces, Copies, Source, Questions, Proper, ConvertLiteral;
      RewritingUnfolds(s);
      match LiteralLength(s)
      case None =>
        RewritingIsConvert(s[1..]);
        SourceCons(Ch(s[0]), Rewriting(s[1..]));
        ProperCh(s[0]);
        ProperConcat([Ch(s[0])], Rewriting(s[1..]));
        Halves(s, 1);
      case Some(n) =>
        RewritingIsConvert(s[n..]);
        RewritingLiteral(s[..n]);
        var ps := if IsSql(s[..n]) then Pieces(s[..n]) else Copies(s[..n]);
        SourceConcat(ps, Rewriting(s[n..]));
        ProperConcat(ps, Rewriting(s[n..]));
        Halves(s, n);
    }
  }

  lemma Halves(s: string, n: nat)
    requires n <= |s|
    ensures s == s[..n] + s[n..] && (n == 1 ==> s == [s[0]] + s[1..])
  {}

  lemma RewritingUnfolds(s: string)
    requires s != ""
    ensures match LiteralLength(s)
      case None => Rewriting(s) == [Ch(s[0])] + Rewriting(s[1..]) && Convert(s) == [s[0]] + Convert(s[1..])
      case Some(n) =>
        && Rewriting(s) == (if IsSql(s[..n]) then Pieces(s[..n]) else Copies(s[..n])) + Rewriting(s[n..])
        && Convert(s) == ConvertLiteral(s[..n]) + Convert(s[n..])
  {
    hide LiteralLength, IsSql, Pieces, Copies, ConvertLiteral;
  }

  lemma ProperCh(c: char)
    ensures Proper([Ch(c)])
  {}

  lemma RewritingLiteral(s: string)
    ensures var ps := if IsSql(s) then Pieces(s) else Copies(s);
      Source(ps) == s && Questions(ps) == ConvertLiteral(s) && Proper(ps)
  {
    hide IsSql, Pieces, Copies, Source, Questions, Proper;
    PiecesOf(s);
    CopiesText(s);
  }

  lemma SourceCons(p: Piece, ps: seq<Piece>)
    ensures Source([p] + ps) == (if p.Ch? then [p.c] else "$" + p.digits) + Source(ps)
    ensures Questions([p] + ps) == [if p.Ch? then p.c else '?'] + Questions(ps)
  {
    assert ([p] + ps)[1..] == ps;
  }

  /** Rewriting leaves a run of hashes as it is. */
  lemma {:induction false} HashesKept(ps: seq<Piece>, rest: string)
    requires HashRun(Source(ps)) < |Source(ps)|
    ensures HashRun(Questions(ps) + rest) == HashRun(Source(ps)) < |Questions(ps)|
    ensures Questions(ps)[HashRun(Source(ps))] == '"' <==> Source(ps)[HashRun(Source(ps))] == '"'
    decreases |ps|
  {
    var w, v := Source(ps), Questions(ps);
    if ps[0] == Ch('#') {
      assert w[1..] == Source(ps[1..]) && v[1..] == Questions(ps[1..]);
      assert (v + rest)[1..] == v[1..] + rest;
      HashesKept(ps[1..], rest);
    }
  }

  /** Characters before the next quote or backslash are passed over. */
  lemma {:induction false} QuotedSkips(d: string, s: string)
    requires forall c <- d :: c != '"' && c != '\\'
    ensures QuotedEnd(d + s) == match QuotedEnd(s) case None => None case Some(n) => Some(|d| + n)
    decreases |d|
  {
    if d == "" {
      assert d + s == s;
    } else {
      assert d[0] in d && forall c <- d[1..] :: c in d;
      assert (d + s)[1..] == d[1..] + s;
      QuotedSkips(d[1..], s);
    }
  }

  lemma {:induction false} RawSkips(d: string, s: string, h: nat)
    requires forall c <- d :: c != '"'
    ensures RawEnd(d + s, h) == match RawEnd(s, h) case None => None case Some(n) => Some(|d| + n)
    decreases |d|
  {
    if d == "" {
      assert d + s == s;
    } else {
      assert d[0] in d && forall c <- d[1..] :: c in d;
      assert (d + s)[1..] == d[1..] + s;
      RawSkips(d[1..], s, h);
    }
  }

  lemma MarkPlain(p: Piece)
    requires p.Mark? && forall c <- p.digits :: IsDigit(c)
    ensures forall c <- "$" + p.digits :: c != '"' && c != '\\' && c != '#'
  {}

  /** A quoted literal that ends where its text ends still does so after rewriting. */
  lemma {:induction false} QuotedKept(ps: seq<Piece>, rest: string)
    requires Proper(ps) && QuotedEnd(Source(ps)) == Some(|Source(ps)|)
    ensures QuotedEnd(Questions(ps) + rest) == Some(|Questions(ps)|)
    decreases |ps|
  {
    var w, v := Source(ps), Questions(ps);
    ProperTail(ps);
    var more := ps[1..];
    assert (v + rest)[1..] == Questions(more) + rest;
    if ps[0].Mark? {
      MarkPlain(ps[0]);
      QuotedSkips("$" + ps[0].digits, Source(more));
      QuotedKept(more, rest);
    } else if ps[0].c == '"' {
      assert w[1..] == Source(more) == "";
      SourceLength(more);
    } else if ps[0].c == '\\' {
      assert w[1..] == Source(more);
      ProperTail(more);
      EscapedKept(more, rest);
    } else {
      assert w[1..] == Source(more);
      QuotedKept(more, rest);
    }
  }

  lemma {:induction false} SourceLength(ps: seq<Piece>)
    ensures |Questions(ps)| <= |Source(ps)|
    ensures Source(ps) == "" ==> ps == []
  {
    if ps != [] {
      SourceLength(ps[1..]);
    }
  }

  /** After a backslash: one character is taken along, even the `$` of a placeholder. */
  lemma {:induction false} EscapedKept(ps: seq<Piece>, rest: string)
    requires Proper(ps) && ps != [] && QuotedEnd(Source(ps)[1..]) == Some(|Source(ps)| - 1)
    ensures QuotedEnd((Questions(ps) + rest)[1..]) == Some(|Questions(ps)| - 1)
    decreases |ps|, 0
  {
    ProperTail(ps);
    var p, more := ps[0], ps[1..];
    assert ps == [p] + more;
    SourceCons(p, more);
    hide QuotedEnd, Source, Questions;
    var Q, S := Questions(more), Source(more);
    assert ([if p.Ch? then p.c else '?'] + Q + rest)[1..] == Q + rest;
    if p.Mark? {
      assert ("$" + p.digits + S)[1..] == p.digits + S;
      QuotedSkips(p.digits, S);
    } else {
      assert ([p.c] + S)[1..] == S;
    }
    QuotedKept(more, rest);
  }

  lemma {:induction false} RawKept(ps: seq<Piece>, h: nat, rest: string)
    requires Proper(ps) && h > 0 && RawEnd(Source(ps), h) == Some(|Source(ps)|)
    ensures RawEnd(Questions(ps) + rest, h) == Some(|Questions(ps)|)
    decreases |ps|
  {
    var w, v := Source(ps), Questions(ps);
    ProperTail(ps);
    var more := ps[1..];
    assert (v + rest)[1..] == Questions(more) + rest;
    if ps[0].Mark? {
      MarkPlain(ps[0]);
      RawSkips("$" + ps[0].digits, Source(more), h);
      RawKept(more, h, rest);
    } else {
      assert w[1..] == Source(more);
      if ps[0].c == '"' && HashRun(Source(more)) >= h {
        AllHashes(more, rest);
      } else {
        RawKept(more, h, rest);
        if ps[0].c == '"' {
          RunEnds(Source(more), h);
          HashesKept(more, rest);
        }
      }
    }
  }

  /** A closing quote ends any run of hashes before it. */
  lemma {:induction false} RunEnds(s: string, h: nat)
    requires RawEnd(s, h).Some?
    ensures HashRun(s) < |s|
  {
    if s[0] == '#' {
      RunEnds(s[1..], h);
    }
  }

  lemma {:induction false} AllHashes(ps: seq<Piece>, rest: string)
    requires HashRun(Source(ps)) == |Source(ps)|
    ensures |Questions(ps)| == |Source(ps)| && HashRun(Questions(ps) + rest) >= |Source(ps)|
    decreases |ps|
  {
    if ps != [] {
      assert Source(ps)[0] == '#';
      assert Source(ps)[1..] == Source(ps[1..]);
      assert (Questions(ps) + rest)[1..] == Questions(ps[1..]) + rest;
      AllHashes(ps[1..], rest);
    } else {
      assert Questions(ps) + rest == rest;
    }
  }

  /** Where no raw literal closes, none closes after rewriting. */
  lemma {:induction false} RawStaysOpen(ps: seq<Piece>, h: nat)
    requires Proper(ps) && h > 0 && RawEnd(Source(ps), h) == None
    ensures RawEnd(Questions(ps), h) == None
    decreases |ps|
  {
    if ps != [] {
      ProperTail(ps);
      var more := ps[1..];
      assert Questions(ps)[1..] == Questions(more);
      if ps[0].Mark? {
        MarkPlain(ps[0]);
        RawSkips("$" + ps[0].digits, Source(more), h);
        RawStaysOpen(more, h);
      } else {
        assert Source(ps)[1..] == Source(more);
        RawStaysOpen(more, h);
        if HashRun(Source(more)) < |Source(more)| {
          HashesKept(more, "");
          assert Questions(more) + "" == Questions(more);
        } else if ps[0].c == '"' {
          AllHashes(more, "");
          assert Questions(more) + "" == Questions(more);
        }
      }
    }
  }

  // ----- Literals keep their places -----

  lemma {:induction false} HeadKept(ps: seq<Piece>, k: nat)
    requires Proper(ps) && k <= |Source(ps)| && forall i :: 0 <= i < k ==> Source(ps)[i] != '$'
    ensures k <= |ps| && Proper(ps[k..])
    ensures Source(ps[k..]) == Source(ps)[k..]
    ensures |Questions(ps)| >= k && Questions(ps)[..k] == Source(ps)[..k] && Questions(ps[k..]) == Questions(ps)[k..]
    decreases k
  {
    if k == 0 {
      assert ps[0..] == ps;
    } else {
      ProperTail(ps);
      var more := ps[1..];
      assert Source(ps)[0] != '$';
      assert ps[0].Ch? && Source(ps)[1..] == Source(more) && Questions(ps)[1..] == Questions(more);
      assert forall i :: 0 <= i < k - 1 ==> Source(more)[i] == Source(ps)[i + 1];
      HeadKept(more, k - 1);
      assert ps[k..] == more[k - 1..];
      assert Source(ps)[k..] == Source(more)[k - 1..];
      assert Questions(ps)[k..] == Questions(more)[k - 1..];
      assert Questions(ps)[..k] == [ps[0].c] + Questions(more)[..k - 1];
    }
  }

  lemma {:induction false} RawPrefix(s: string, h: nat)
    requires RawEnd(s, h).Some?
    ensures RawEnd(s[..RawEnd(s, h).value], h) == RawEnd(s, h)
    decreases |s|
  {
    var n := RawEnd(s, h).value;
    if s[0] == '"' && HashRun(s[1..]) >= h {
      RunOfPrefix(s[1..], h);
      assert s[..n][1..] == s[1..][..h];
    } else {
      RawPrefix(s[1..], h);
      assert s[..n][1..] == s[1..][..n - 1];
      RunShorter(s[1..], n - 1);
    }
  }

  lemma {:induction false} RunOfPrefix(s: string, h: nat)
    requires h <= HashRun(s)
    ensures HashRun(s[..h]) == h
  {
    if h > 0 {
      RunOfPrefix(s[1..], h - 1);
      assert s[..h][1..] == s[1..][..h - 1];
    }
  }

  lemma {:induction false} RunShorter(s: string, n: nat)
    requires n <= |s|
    ensures HashRun(s[..n]) <= HashRun(s)
  {
    if n > 0 {
      RunShorter(s[1..], n - 1);
      assert s[..n][1..] == s[1..][..n - 1];
    }
  }

  lemma {:induction false} QuotedPrefix(s: string)
    requires QuotedEnd(s).Some?
    ensures QuotedEnd(s[..QuotedEnd(s).value]) == QuotedEnd(s)
    decreases |s|
  {
    var n := QuotedEnd(s).value;
    if s[0] == '"' {
      assert s[..1][0] == '"';
    } else if s[0] == '\\' {
      QuotedPrefix(s[2..]);
      assert s[..n][2..] == s[2..][..n - 2];
    } else {
      QuotedPrefix(s[1..]);
      assert s[..n][1..] == s[1..][..n - 1];
    }
  }

  lemma {:induction false} RunHashes(s: string)
    ensures forall i :: 0 <= i < HashRun(s) ==> s[i] == '#'
    ensures HashRun(s) < |s| ==> s[HashRun(s)] != '#'
  {
    if s != "" && s[0] == '#' {
      RunHashes(s[1..]);
    }
  }

  lemma {:induction false} RunIs(s: string, h: nat)
    requires h <= |s| && (forall i :: 0 <= i < h ==> s[i] == '#') && (h < |s| ==> s[h] != '#')
    ensures HashRun(s) == h
    decreases h
  {
    if h > 0 {
      RunIs(s[1..], h - 1);
    }
  }

  /** A rewritten literal is a literal, whatever follows it. */
  lemma LiteralKept(s: string, ps: seq<Piece>, rest: string)
    requires LiteralLength(s).Some? && Proper(ps) && Source(ps) == s[..LiteralLength(s).value]
    ensures LiteralLength(Questions(ps) + rest) == Some(|Questions(ps)|)
  {
    if s[0] == 'r' {
      RawLiteralKept(s, ps, rest);
    } else {
      QuotedLiteralKept(s, ps, rest);
    }
  }

  lemma QuotedLiteralKept(s: string, ps: seq<Piece>, rest: string)
    requires s != "" && s[0] == '"' && QuotedEnd(s[1..]).Some?
    requires Proper(ps) && Source(ps) == s[..1 + QuotedEnd(s[1..]).value]
    ensures LiteralLength(Questions(ps) + rest) == Some(|Questions(ps)|)
  {
    var n := QuotedEnd(s[1..]).value;
    var v := Questions(ps);
    QuotedPrefix(s[1..]);
    hide QuotedEnd, Source, Questions, Proper, LiteralLength;
    assert s[..1 + n][1..] == s[1..][..n];
    assert s[..1 + n][..1] == "\"";
    HeadKept(ps, 1);
    QuotedKept(ps[1..], rest);
    QuotedLiteral(v, v[1..], rest);
  }

  lemma QuotedLiteral(v: string, after: string, rest: string)
    requires |v| > 0 && v[..1] == "\"" && v[1..] == after && QuotedEnd(after + rest) == Some(|after|)
    ensures LiteralLength(v + rest) == Some(|v|)
  {
    hide QuotedEnd;
    assert (v + rest)[1..] == after + rest && (v + rest)[0] == v[..1][0];
  }

  lemma DropOfConcat(a: string, b: string, k: nat)
    requires k <= |a|
    ensures (a + b)[k..] == a[k..] + b && forall i :: 0 <= i < k ==> (a + b)[i] == a[i]
  {}

  lemma RawLiteralKept(s: string, ps: seq<Piece>, rest: string)
    requires s != "" && s[0] == 'r' && LiteralLength(s).Some?
    requires Proper(ps) && Source(ps) == s[..LiteralLength(s).value]
    ensures LiteralLength(Questions(ps) + rest) == Some(|Questions(ps)|)
  {
    var h := HashRun(s[1..]);
    var v := Questions(ps);
    RawHead(s, h);
    RawParts(s, ps, h, rest);
    hide RawEnd, Source, Questions, LiteralLength;
    var u := v + rest;
    DropOfConcat(v, rest, 2 + h);
    RawLiteral(u, h, |v| - (2 + h));
  }

  lemma RawParts(s: string, ps: seq<Piece>, h: nat, rest: string)
    requires s != "" && s[0] == 'r' && h == HashRun(s[1..]) && h > 0 && 1 + h < |s| && s[1 + h] == '"'
    requires RawEnd(s[2 + h..], h).Some?
    requires Proper(ps) && Source(ps) == s[..2 + h + RawEnd(s[2 + h..], h).value]
    ensures var v := Questions(ps);
      && |v| >= 2 + h && (forall i :: 0 <= i < 2 + h ==> v[i] == s[i])
      && RawEnd(v[2 + h..] + rest, h) == Some(|v| - (2 + h))
  {
    var n := RawEnd(s[2 + h..], h).value;
    var w, v := Source(ps), Questions(ps);
    RawPrefix(s[2 + h..], h);
    RawHead(s, h);
    hide HashRun;
    assert w[2 + h..] == s[2 + h..][..n];
    assert forall i :: 0 <= i < 2 + h ==> w[i] == s[i];
    HeadKept(ps, 2 + h);
    RawKept(ps[2 + h..], h, rest);
    assert forall i :: 0 <= i < 2 + h ==> v[i] == v[..2 + h][i] == w[..2 + h][i];
  }

  lemma RawHead(s: string, h: nat)
    requires s != "" && s[0] == 'r' && h == HashRun(s[1..]) && 1 + h < |s| && s[1 + h] == '"'
    ensures forall i :: 0 <= i < 2 + h ==> s[i] != '$'
    ensures forall i :: 1 <= i <= h ==> s[i] == '#'
  {
    RunHashes(s[1..]);
    assert forall i :: 1 <= i <= h ==> s[i] == s[1..][i - 1];
  }

  lemma RawLiteral(u: string, h: nat, n: nat)
    requires h > 0 && 1 + h < |u| && u[0] == 'r' && (forall i :: 1 <= i <= h ==> u[i] == '#') && u[1 + h] == '"'
    ensures RawEnd(u[2 + h..], h) == Some(n) ==> LiteralLength(u) == Some(2 + h + n)
  {
    RunIs(u[1..], h);
  }

  /** Text in which a quote opened before it never closes holds no literal. */
  lemma {:induction false} NoLiterals(s: string)
    requires QuotedEnd(s) == None
    ensures Convert(s) == s
    decreases |s|
  {
    if s != "" {
      NoLiteralHere(s);
      if s[0] == '\\' {
        if |s| >= 2 {
          NoLiterals(s[2..]);
          EscapedNoLiteral(s[1..]);
          assert s[1..][1..] == s[2..];
        } else {
          assert s[1..] == "";
        }
      } else {
        NoLiterals(s[1..]);
      }
    }
  }

  lemma NoLiteralHere(s: string)
    requires s != "" && QuotedEnd(s) == None
    ensures LiteralLength(s) == None
  {
    if s[0] == 'r' {
      RunToQuote(s[1..]);
    }
  }

  /** The same for a character that a backslash takes along. */
  lemma EscapedNoLiteral(s: string)
    requires s != "" && QuotedEnd(s[1..]) == None
    ensures LiteralLength(s) == None
  {
    if s[0] == 'r' {
      RunToQuote(s[1..]);
    }
  }

  lemma {:induction false} RunToQuote(s: string)
    requires QuotedEnd(s) == None
    ensures HashRun(s) < |s| ==> s[HashRun(s)] != '"'
  {
    if s != "" && s[0] == '#' {
      RunToQuote(s[1..]);
    }
  }

  /** Where no literal starts, none starts after converting what follows. */
  lemma StillNoLiteral(s: string)
    requires s != "" && LiteralLength(s) == None
    ensures LiteralLength([s[0]] + Convert(s[1..])) == None
  {
    var z := s[1..];
    var t := [s[0]] + Convert(z);
    assert t[1..] == Convert(z);
    if s[0] == '"' {
      NoLiterals(z);
    } else if s[0] == 'r' {
      RewritingIsConvert(z);
      StillNoRaw(s, Rewriting(z), t);
    }
  }

  lemma StillNoRaw(s: string, ps: seq<Piece>, t: string)
    requires s != "" && s[0] == 'r' && LiteralLength(s) == None
    requires Proper(ps) && Source(ps) == s[1..] && t == ['r'] + Questions(ps)
    ensures LiteralLength(t) == None
  {
    var z, v := Source(ps), Questions(ps);
    var h := HashRun(z);
    assert t[1..] == v && v + "" == v;
    if h == |z| {
      AllHashes(ps, "");
    } else {
      HashesKept(ps, "");
      if h > 0 && z[h] == '"' {
        RunHashes(z);
        HeadKept(ps, h + 1);
        assert s[2 + h..] == z[h + 1..] && t[2 + h..] == v[h + 1..];
        RawStaysOpen(ps[h + 1..], h);
      }
    }
  }

  /** Conversion keeps every literal in its place: the literals of the converted text are the
      converted literals of the text, and everything between them is what it was. */
  lemma {:induction false} LiteralsKeepTheirPlaces(s: string)
    ensures Segments(Convert(s)) == ConvertSegments(Segments(s))
    ensures Convert(s) == JoinSegments(ConvertSegments(Segments(s)))
    decreases |s|
  {
    if s != "" {
      match LiteralLength(s)
      case None =>
        LiteralsKeepTheirPlaces(s[1..]);
        StillNoLiteral(s);
        hide LiteralLength;
        NextSegments(s, s[1..], Other(s[0]), Other(s[0]));
      case Some(n) =>
        LiteralsKeepTheirPlaces(s[n..]);
        var ps := if IsSql(s[..n]) then Pieces(s[..n]) else Copies(s[..n]);
        PiecesOf(s[..n]);
        CopiesText(s[..n]);
        LiteralKept(s, ps, Convert(s[n..]));
        hide LiteralLength, IsSql, Pieces, Copies;
        NextSegments(s, s[n..], Literal(s[..n]), Literal(ConvertLiteral(s[..n])));
    }
  }

  lemma NextSegments(s: string, more: string, g: Segment, c: Segment)
    requires s != "" && |more| < |s| && Segments(s) == [g] + Segments(more) && c == ConvertSegment(g)
    requires Convert(s) == SegmentText(c) + Convert(more) && Convert(s) != ""
    requires match LiteralLength(Convert(s))
      case None => c == Other(Convert(s)[0])
      case Some(n) => c == Literal(Convert(s)[..n]) && n == |SegmentText(c)|
    requires Segments(Convert(more)) == ConvertSegments(Segments(more))
    requires Convert(more) == JoinSegments(ConvertSegments(Segments(more)))
    ensures Segments(Convert(s)) == ConvertSegments(Segments(s))
    ensures Convert(s) == JoinSegments(ConvertSegments(Segments(s)))
  {
    hide LiteralLength, ConvertLiteral;
    assert ([g] + Segments(more))[1..] == Segments(more);
    assert ConvertSegments(Segments(s)) == [c] + ConvertSegments(Segments(more));
    assert ([c] + ConvertSegments(Segments(more)))[1..] == ConvertSegments(Segments(more));
    assert Convert(s)[|SegmentText(c)|..] == Convert(more);
  }

  // ----- Idempotence -----

  lemma ConvertLiteralTwice(s: string)
    ensures ConvertLiteral(ConvertLiteral(s)) == ConvertLiteral(s)
  {
    QuestionsHaveNoMarks(s);
  }

  lemma {:induction false} ConvertSegmentsTwice(gs: seq<Segment>)
    ensures ConvertSegments(ConvertSegments(gs)) == ConvertSegments(gs)
  {
    if gs != [] {
      if gs[0].Literal? {
        ConvertLiteralTwice(gs[0].text);
      }
      ConvertSegmentsTwice(gs[1..]);
      assert ConvertSegments(gs)[1..] == ConvertSegments(gs[1..]);
    }
  }

  lemma ConvertIsIdempotent(s: string)
    ensures Convert(Convert(s)) == Convert(s)
  {
    LiteralsKeepTheirPlaces(s);
    LiteralsKeepTheirPlaces(Convert(s));
    ConvertSegmentsTwice(Segments(s));
  }

  // ----- The audit and the gate -----

  /** A flagged literal: its line and its placeholder numbers. */
  datatype Issue = Issue(line: nat, numbers: seq<nat>)

  function NumbersOf(s: string): seq<nat> {
    PiecesOf(s);
    Numbers(Pieces(s))
  }

  predicate Flagged(g: Segment) {
    g.Literal? && IsSql(g.text) && NumbersOf(g.text) != [] && !InOrder(g.text)
  }

  function IssuesOf(gs: seq<Segment>, line: nat): seq<Issue> {
    if gs == [] then []
    else
      (if Flagged(gs[0]) then [Issue(line, NumbersOf(gs[0].text))] else [])
      + IssuesOf(gs[1..], line + Count(SegmentText(gs[0]), '\n'))
  }

  /** `issues`: every literal is looked at, in the order of the text. */
  method Issues(text: string) returns (found: seq<Issue>)
    ensures found == IssuesOf(Segments(text), 1)
  {
    hide IsSql, LiteralLength, Segments, IssuesOf, NumbersOf, Count, Counting;
    found := [];
    var rest := text;
    var line: nat := 1;
    while rest != ""
      invariant found + IssuesOf(Segments(rest), line) == IssuesOf(Segments(text), 1)
      decreases |rest|
    {
      NextIssues(rest, line);
      var length := LiteralLength(rest);
      var piece := rest[..if length.Some? then length.value else 1];
      if length.Some? && IsSql(piece) {
        var numbers := NumbersOf(piece);
        if numbers != [] && numbers != Counting(1, |numbers|) {
          found := found + [Issue(line, numbers)];
        }
      }
      line := line + Count(piece, '\n');
      rest := rest[|piece|..];
    }
    assert Segments("") == [] && IssuesOf([], line) == [] by {
      EmptyIssues(line);
    }
  }

  lemma EmptyIssues(line: nat)
    ensures Segments("") == [] && IssuesOf([], line) == []
  {}

  lemma NextIssues(rest: string, line: nat)
    requires rest != ""
    ensures var length := LiteralLength(rest); var piece := rest[..if length.Some? then length.value else 1];
      var numbers := NumbersOf(piece);
      IssuesOf(Segments(rest), line) ==
        (if length.Some? && IsSql(piece) && numbers != [] && numbers != Counting(1, |numbers|)
         then [Issue(line, numbers)] else [])
        + IssuesOf(Segments(rest[|piece|..]), line + Count(piece, '\n'))
  {
    hide IsSql, LiteralLength, NumbersOf, Count, Counting;
    var length := LiteralLength(rest);
    var piece := rest[..if length.Some? then length.value else 1];
    var g := if length.Some? then Literal(piece) else Other(rest[0]);
    var more := Segments(rest[|piece|..]);
    assert Segments(rest) == [g] + more && SegmentText(g) == piece;
    hide Segments;
    assert ([g] + more)[1..] == more;
    FlaggedBy(piece);
  }

  lemma FlaggedBy(s: string)
    ensures InOrder(s) <==> NumbersOf(s) == Counting(1, |NumbersOf(s)|)
  {}

  lemma {:induction false} NoIssues(gs: seq<Segment>, line: nat)
    requires IssuesOf(gs, line) == []
    ensures forall g <- gs :: !Flagged(g)
    decreases |gs|
  {
    if gs != [] {
      NoIssues(gs[1..], line + Count(SegmentText(gs[0]), '\n'));
      assert forall g <- gs :: g == gs[0] || g in gs[1..];
    }
  }

  /** Every SQL literal means what it meant, for all arguments. */
  ghost predicate MeaningKept(text: string) {
    forall g <- Segments(text) :: g.Literal? && IsSql(g.text) && '?' !in g.text ==>
      forall args :: SameQuery(g.text, args)
  }

  /** `main` with `--write`: one flagged literal anywhere, and no file is changed; otherwise every
      file is converted, and every query without a `?` of its own keeps its meaning. */
  method ConvertSources(sources: seq<string>) returns (refused: bool, written: seq<string>)
    ensures refused <==> exists s :: s in sources && IssuesOf(Segments(s), 1) != []
    ensures refused ==> written == sources
    ensures !refused ==> |written| == |sources| && forall i :: 0 <= i < |sources| ==>
      written[i] == Convert(sources[i]) && MeaningKept(sources[i])
  {
    hide Segments, IssuesOf, Convert, MeaningKept;
    refused := false;
    for i := 0 to |sources|
      invariant refused <==> exists s :: s in sources[..i] && IssuesOf(Segments(s), 1) != []
    {
      var found := Issues(sources[i]);
      if found != [] {
        refused := true;
      }
      assert sources[..i + 1] == sources[..i] + [sources[i]];
    }
    assert sources[..|sources|] == sources;
    written := sources;
    if !refused {
      for i := 0 to |sources|
        invariant |written| == |sources| && written[i..] == sources[i..]
        invariant forall j :: 0 <= j < i ==> written[j] == Convert(sources[j]) && MeaningKept(sources[j])
      {
        assert sources[i] in sources && written[i] == written[i..][0];
        UnflaggedKeepsMeaning(sources[i]);
        var updated := Convert(written[i]);
        if updated != written[i] {
          written := written[i := updated];
        }
      }
    }
  }

  lemma UnflaggedKeepsMeaning(text: string)
    requires IssuesOf(Segments(text), 1) == []
    ensures MeaningKept(text)
  {
    NoIssues(Segments(text), 1);
    hide IsSql, Segments;
    forall g | g in Segments(text) && g.Literal? && IsSql(g.text) && '?' !in g.text
      ensures forall args :: SameQuery(g.text, args)
    {
      assert !Flagged(g);
      if NumbersOf(g.text) == [] {
        assert [] == Counting(1, 0);
      }
      AuditIsExact(g.text);
    }
  }
}
