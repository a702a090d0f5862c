/** What the converter's patterns match: placeholders, string literals, SQL words and the segments of a
    source, each as the one way to read a text. */
module SqlScans {
  import opened Wrappers
  import opened Strings
  import opened Placeholders
  import opened SqlLiterals

  // ----- Placeholders -----

  /** No digit is left behind a `$` or behind the digits of a placeholder. */
  predicate Greedy(ps: seq<Piece>) {
    forall i :: 0 <= i < |ps| - 1 && (ps[i].Mark? || ps[i] == Ch('$')) ==> !(ps[i + 1].Ch? && IsDigit(ps[i + 1].c))
  }

  lemma GreedyTail(ps: seq<Piece>)
    requires Greedy(ps) && ps != []
    ensures Greedy(ps[1..])
  {
    forall i | 0 <= i < |ps[1..]| - 1 && (ps[1..][i].Mark? || ps[1..][i] == Ch('$'))
      ensures !(ps[1..][i + 1].Ch? && IsDigit(ps[1..][i + 1].c)) {
      assert ps[i + 1] == ps[1..][i] && ps[i + 2] == ps[1..][i + 1];
    }
  }

  lemma {:induction false} PiecesGreedy(s: string)
    ensures Greedy(Pieces(s))
  {
    if s != "" {
      var n := if s[0] == '$' then DigitRun(s[1..]) else 0;
      var k := if n > 0 then 1 + n else 1;
      PiecesGreedy(s[k..]);
      var ps, more := Pieces(s), Pieces(s[k..]);
      assert ps == [ps[0]] + more && ps[1..] == more;
      assert more != [] && more[0].Ch? ==> s[k..] != "" && more[0].c == s[k..][0] == s[k];
      assert s[0] == '$' && k < |s| ==> !IsDigit(s[1..][k - 1]);
      forall i | 0 <= i < |ps| - 1 && (ps[i].Mark? || ps[i] == Ch('$'))
        ensures !(ps[i + 1].Ch? && IsDigit(ps[i + 1].c)) {
        if i > 0 {
          assert ps[i] == more[i - 1] && ps[i + 1] == more[i];
        }
      }
    }
  }

  /** What starts with a piece: its first character, and no digit after it if the reading is greedy. */
  lemma SourceStarts(ps: seq<Piece>)
    requires Proper(ps) && ps != []
    ensures Source(ps) != ""
    ensures Source(ps)[0] == if ps[0].Ch? then ps[0].c else '$'
  {
    ProperTail(ps);
  }

  lemma DigitRunIs(digits: string, rest: string)
    requires (forall c <- digits :: IsDigit(c)) && (rest == "" || !IsDigit(rest[0]))
    ensures DigitRun(digits + rest) == |digits|
  {
    var s := digits + rest;
    forall i | 0 <= i < |digits| ensures IsDigit(s[i]) {
      assert s[i] == digits[i] && digits[i] in digits;
    }
    assert rest != "" ==> s[|digits|] == rest[0];
  }

  /** The placeholders of a text are its only greedy reading. */
  lemma {:induction false} PiecesExact(s: string, ps: seq<Piece>)
    ensures ps == Pieces(s) <==> Source(ps) == s && Proper(ps) && Greedy(ps)
  {
    PiecesOf(s);
    PiecesGreedy(s);
    if Source(ps) == s && Proper(ps) && Greedy(ps) {
      OneReading(ps);
    }
  }

  lemma {:induction false} OneReading(ps: seq<Piece>)
    requires Proper(ps) && Greedy(ps)
    ensures Pieces(Source(ps)) == ps
  {
    if ps != [] {
      ProperTail(ps);
      GreedyTail(ps);
      var more := ps[1..];
      OneReading(more);
      assert ps == [ps[0]] + more;
      SourceCons(ps[0], more);
      var rest := Source(more);
      if more != [] {
        SourceStarts(more);
        assert more[0] == ps[1];
      }
      hide Source, Proper, Greedy;
      FirstRead(ps[0], rest);
    }
  }

  lemma FirstRead(p: Piece, rest: string)
    requires p.Mark? ==> p.digits != "" && forall c <- p.digits :: IsDigit(c)
    requires (p.Mark? || p == Ch('$')) && rest != "" ==> !IsDigit(rest[0])
    ensures Pieces((if p.Ch? then [p.c] else "$" + p.digits) + rest) == [p] + Pieces(rest)
  {
    match p
    case Ch(c) =>
      assert ([c] + rest)[1..] == rest;
    case Mark(digits) =>
      var s := "$" + digits + rest;
      assert s[1..] == digits + rest;
      DigitRunIs(digits, rest);
      assert s[1..1 + |digits|] == digits && s[1 + |digits|..] == rest;
  }

  // ----- Literals -----

  /** Characters between the quotes: a backslash takes the next one along. */
  predicate QuotedBody(b: string) {
    || b == ""
    || (b[0] == '\\' && |b| >= 2 && QuotedBody(b[2..]))
    || (b[0] != '\\' && b[0] != '"' && QuotedBody(b[1..]))
  }

  lemma {:induction false} QuotedEndExact(s: string, n: nat)
    ensures QuotedEnd(s) == Some(n) <==> 0 < n <= |s| && s[n - 1] == '"' && QuotedBody(s[..n - 1])
    decreases |s|
  {
    if s != "" && 0 < n <= |s| {
      var b := s[..n - 1];
      if s[0] == '"' {
        assert n > 1 ==> b[0] == '"';
      } else if s[0] == '\\' {
        if |s| >= 2 {
          if n >= 3 {
            QuotedEndExact(s[2..], n - 2);
            assert b[2..] == s[2..][..n - 3] && s[2..][n - 3] == s[n - 1];
          } else {
            QuotedEndShort(s, n);
          }
        }
      } else {
        if n >= 2 {
          QuotedEndExact(s[1..], n - 1);
          assert b[1..] == s[1..][..n - 2] && s[1..][n - 2] == s[n - 1];
        }
      }
    }
  }

  /** A backslash and what it takes along is not the end. */
  lemma QuotedEndShort(s: string, n: nat)
    requires |s| >= 2 && s[0] == '\\' && 0 < n < 3
    ensures QuotedEnd(s) != Some(n)
    ensures !(s[n - 1] == '"' && QuotedBody(s[..n - 1]))
  {
    assert n == 2 ==> s[..1][0] == '\\' && |s[..1]| == 1;
  }

  predicate Hashes(s: string) {
    Run(s, '#')
  }

  /** A quote with this many hashes after it stands at `i`. */
  predicate ClosesAt(s: string, i: nat, h: nat) {
    i + 1 + h <= |s| && s[i] == '"' && Hashes(s[i + 1..i + 1 + h])
  }

  lemma {:induction false} HashRunAtLeast(s: string, h: nat)
    ensures HashRun(s) >= h <==> h <= |s| && Hashes(s[..h])
  {
    if h > 0 && s != "" {
      HashRunAtLeast(s[1..], h - 1);
      assert h <= |s| ==> s[..h] == [s[0]] + s[1..][..h - 1];
      assert h <= |s| ==> (Hashes(s[..h]) <==> s[0] == '#' && Hashes(s[1..][..h - 1])) by {
        if h <= |s| {
          HashesCons(s[0], s[1..][..h - 1]);
        }
      }
    }
  }

  lemma HashesCons(c: char, s: string)
    ensures Hashes([c] + s) <==> c == '#' && Hashes(s)
  {
    var all := [c] + s;
    assert all[0] == c && c in all;
    if Hashes(all) {
      forall d | d in s ensures d == '#' {
        assert d in all;
      }
    }
  }

  /** A raw literal ends at its first quote with enough hashes. */
  lemma {:induction false} RawEndExact(s: string, h: nat, n: nat)
    ensures RawEnd(s, h) == Some(n) <==>
      n >= 1 + h && ClosesAt(s, n - 1 - h, h) && forall i: nat :: i < n - 1 - h ==> !ClosesAt(s, i, h)
    decreases |s|
  {
    if s != "" {
      HashRunAtLeast(s[1..], h);
      FirstCloses(s, h);
      if n > 0 {
        RawEndExact(s[1..], h, n - 1);
      }
      ClosesLater(s, h);
      hide RawEnd, HashRun, ClosesAt;
      RawEndStep(s, h);
      if RawEnd(s, h) == Some(n) && !ClosesAt(s, 0, h) {
        forall i: nat | i < n - 1 - h ensures !ClosesAt(s, i, h) {
          assert i > 0 ==> !ClosesAt(s[1..], i - 1, h);
        }
      }
      if n > 1 + h && ClosesAt(s, n - 1 - h, h) && (forall i: nat :: i < n - 1 - h ==> !ClosesAt(s, i, h)) {
        assert !ClosesAt(s, 0, h);
        forall i: nat | i < n - 2 - h ensures !ClosesAt(s[1..], i, h) {
          assert !ClosesAt(s, i + 1, h);
        }
      }
    }
  }

  lemma FirstCloses(s: string, h: nat)
    requires s != ""
    ensures ClosesAt(s, 0, h) <==> s[0] == '"' && h <= |s[1..]| && Hashes(s[1..][..h])
  {
    assert 1 + h <= |s| ==> s[1..1 + h] == s[1..][..h];
  }

  lemma ClosesLater(s: string, h: nat)
    requires s != ""
    ensures forall i: nat :: ClosesAt(s, i + 1, h) <==> ClosesAt(s[1..], i, h)
    ensures forall i: nat :: i > 0 ==> (ClosesAt(s, i, h) <==> ClosesAt(s[1..], i - 1, h))
  {
    forall i: nat ensures ClosesAt(s, i + 1, h) <==> ClosesAt(s[1..], i, h) {
      if i + 2 + h <= |s| {
        TailSlice(s, i + 1, i + 1 + h);
      }
    }
  }

  lemma TailSlice(s: string, a: nat, b: nat)
    requires s != "" && a <= b < |s|
    ensures s[1..][a..b] == s[a + 1..b + 1]
  {}

  lemma RawEndStep(s: string, h: nat)
    requires s != ""
    ensures RawEnd(s, h) ==
      if s[0] == '"' && HashRun(s[1..]) >= h then Some(1 + h)
      else match RawEnd(s[1..], h) case None => None case Some(n) => Some(n + 1)
    ensures forall n :: RawEnd(s, h) == Some(n) ==> n > 0
  {}

  /** A quoted literal, or a raw literal with at least one hash. */
  predicate IsQuoted(text: string) {
    |text| >= 2 && text[0] == '"' && text[|text| - 1] == '"' && QuotedBody(text[1..|text| - 1])
  }

  ghost predicate IsRaw(text: string) {
    exists hashes, body :: IsRawOf(text, hashes, body)
  }

  predicate IsRawOf(text: string, hashes: string, body: string) {
    && hashes != "" && Hashes(hashes)
    && text == "r" + hashes + "\"" + body + "\"" + hashes
    && forall i: nat :: i < |body| ==> !ClosesAt(body + "\"" + hashes, i, |hashes|)
  }

  lemma ClosesWithin(u: string, tail: string, i: nat, h: nat)
    requires i + 1 + h <= |u|
    ensures ClosesAt(u + tail, i, h) <==> ClosesAt(u, i, h)
  {
    assert (u + tail)[i + 1..i + 1 + h] == u[i + 1..i + 1 + h];
  }

  lemma QuotedExact(s: string, n: nat)
    requires s != "" && s[0] == '"'
    ensures LiteralLength(s) == Some(n) <==> n <= |s| && IsQuoted(s[..n])
  {
    if 2 <= n <= |s| {
      QuotedEndExact(s[1..], n - 1);
      assert s[..n][1..n - 1] == s[1..][..n - 2] && s[1..][n - 2] == s[n - 1];
    }
  }

  lemma SameHashes(a: string, b: string)
    requires Hashes(a) && Hashes(b) && |a| == |b|
    ensures a == b
  {
    forall i | 0 <= i < |a| ensures a[i] == b[i] {
      assert a[i] in a && b[i] in b;
    }
  }

  /** What a raw literal consists of. */
  lemma RawShape(s: string) returns (h: nat, m: nat)
    requires s != "" && s[0] == 'r' && LiteralLength(s).Some?
    ensures 0 < h && 2 + h < |s| && Hashes(s[1..][..h]) && s[1 + h] == '"'
    ensures LiteralLength(s) == Some(2 + h + m) && 1 + h <= m <= |s| - 2 - h
    ensures var rest := s[2 + h..];
      rest[m - 1 - h] == '"' && Hashes(rest[m - h..m]) && forall i: nat :: i < m - 1 - h ==> !ClosesAt(rest, i, h)
  {
    h := HashRun(s[1..]);
    m := RawEnd(s[2 + h..], h).value;
    RawEndExact(s[2 + h..], h, m);
    HashRunAtLeast(s[1..], h);
    hide HashRun, RawEnd, Hashes;
    assert m - 1 - h + 1 == m - h;
  }

  lemma RawIs(s: string)
    requires s != "" && s[0] == 'r' && LiteralLength(s).Some?
    ensures IsRaw(s[..LiteralLength(s).value])
  {
    var h, m := RawShape(s);
    hide LiteralLength, Hashes, ClosesAt;
    var rest := s[2 + h..];
    var hashes, body := s[1..][..h], rest[..m - 1 - h];
    var u := body + "\"" + hashes;
    SameHashes(rest[m - h..m], hashes);
    RestParts(rest, m, h, hashes);
    RawText(s, h, 2 + h + m, hashes, u);
    RawOf(s[..2 + h + m], hashes, body, rest[m..], rest);
  }

  lemma RawOf(text: string, hashes: string, body: string, tail: string, rest: string)
    requires Hashes(hashes) && hashes != "" && text == "r" + hashes + "\"" + (body + "\"" + hashes)
    requires rest == body + "\"" + hashes + tail
    requires forall i: nat :: i < |body| ==> !ClosesAt(rest, i, |hashes|)
    ensures IsRaw(text)
  {
    hide ClosesAt, Hashes;
    var u := body + "\"" + hashes;
    forall i: nat | i < |body| ensures !ClosesAt(u, i, |hashes|) {
      ClosesWithin(u, tail, i, |hashes|);
    }
    assert "r" + hashes + "\"" + body + "\"" + hashes == "r" + hashes + "\"" + u;
    assert IsRawOf(text, hashes, body);
  }

  lemma RestParts(rest: string, m: nat, h: nat, hashes: string)
    requires 1 + h <= m <= |rest| && rest[m - 1 - h] == '"' && rest[m - h..m] == hashes
    ensures rest == rest[..m - 1 - h] + "\"" + hashes + rest[m..]
  {
    assert rest == rest[..m - 1 - h] + [rest[m - 1 - h]] + rest[m - h..m] + rest[m..];
  }

  lemma RawText(s: string, h: nat, n: nat, hashes: string, u: string)
    requires 2 + h <= n <= |s| && s[0] == 'r' && s[1..][..h] == hashes && s[1 + h] == '"' && u <= s[2 + h..]
    requires n == 2 + h + |u|
    ensures s[..n] == "r" + hashes + "\"" + u
  {
    assert s == [s[0]] + s[1..][..h] + [s[1 + h]] + s[2 + h..];
  }

  lemma RawReads(hashes: string, body: string, tail: string)
    requires IsRawOf("r" + hashes + "\"" + body + "\"" + hashes, hashes, body)
    ensures LiteralLength("r" + hashes + "\"" + body + "\"" + hashes + tail)
         == Some(|"r" + hashes + "\"" + body + "\"" + hashes|)
  {
    var h := |hashes|;
    var u := body + "\"" + hashes;
    BodyReads(hashes, body, tail);
    hide LiteralLength, RawEnd, Hashes, ClosesAt, IsRawOf;
    var s := "r" + hashes + "\"" + (u + tail);
    assert s == "r" + hashes + "\"" + body + "\"" + hashes + tail;
    RawBegins(hashes, u + tail);
    RawLiteral(s, h, |u|);
  }

  lemma RawBegins(hashes: string, rest: string)
    requires Hashes(hashes) && hashes != ""
    ensures var s, h := "r" + hashes + "\"" + rest, |hashes|;
      1 + h < |s| && s[0] == 'r' && (forall i :: 1 <= i <= h ==> s[i] == '#') && s[1 + h] == '"' && s[2 + h..] == rest
  {
    var s, h := "r" + hashes + "\"" + rest, |hashes|;
    forall i | 1 <= i <= h ensures s[i] == '#' {
      assert s[i] == hashes[i - 1] && hashes[i - 1] in hashes;
    }
  }

  lemma BodyReads(hashes: string, body: string, tail: string)
    requires IsRawOf("r" + hashes + "\"" + body + "\"" + hashes, hashes, body)
    ensures Hashes(hashes) && hashes != ""
    ensures RawEnd(body + "\"" + hashes + tail, |hashes|) == Some(|body + "\"" + hashes|)
  {
    var h := |hashes|;
    var u := body + "\"" + hashes;
    assert u[|body| + 1..|body| + 1 + h] == hashes;
    assert ClosesAt(u, |body|, h);
    hide ClosesAt, Hashes;
    ClosesWithin(u, tail, |body|, h);
    forall i: nat | i < |body| ensures !ClosesAt(u + tail, i, h) {
      ClosesWithin(u, tail, i, h);
    }
    RawEndExact(u + tail, h, |u|);
  }

  /** The literal at the start of a text: a quote up to the next quote that no backslash takes along, or an
      `r` with hashes and a quote up to the next quote with as many hashes. */
  lemma LiteralExact(s: string, n: nat)
    ensures LiteralLength(s) == Some(n) <==> n <= |s| && (IsQuoted(s[..n]) || IsRaw(s[..n]))
  {
    if n <= |s| {
      FirstCharacter(s[..n]);
      if LiteralLength(s) == Some(n) {
        LiteralIs(s, n);
      }
      if IsQuoted(s[..n]) {
        QuotedExact(s, n);
      }
      if IsRaw(s[..n]) {
        RawStarts(s, n);
      }
    }
  }

  lemma LiteralIs(s: string, n: nat)
    requires LiteralLength(s) == Some(n)
    ensures n <= |s| && (IsQuoted(s[..n]) || IsRaw(s[..n]))
  {
    if s[0] == '"' {
      QuotedExact(s, n);
    } else {
      RawIs(s);
    }
  }

  lemma RawStarts(s: string, n: nat)
    requires n <= |s| && IsRaw(s[..n])
    ensures LiteralLength(s) == Some(n)
  {
    var hashes, body :| IsRawOf(s[..n], hashes, body);
    hide LiteralLength;
    RawReads(hashes, body, s[n..]);
    assert s[..n] + s[n..] == s;
  }

  lemma FirstCharacter(text: string)
    ensures IsQuoted(text) ==> text[0] == '"'
    ensures IsRaw(text) ==> text != "" && text[0] == 'r'
  {}

  // ----- SQL -----

  /** A literal is taken for SQL if one of the five words, in any letter case, stands in it with no letter,
      digit or underscore right before or after it. */
  lemma SqlExact(s: string)
    ensures IsSql(s) <==> exists a, w, b :: IsSqlWord(s, a, w, b)
  {
    if i :| 0 <= i <= |s| && SqlWordAt(s, i) {
      WordFound(s, i);
    }
    if a, x, b :| IsSqlWord(s, a, x, b) {
      WordStands(s, a, x, b);
    }
  }

  lemma WordFound(s: string, i: nat)
    requires SqlWordAt(s, i)
    ensures exists a, w, b :: IsSqlWord(s, a, w, b)
  {
    hide WordAt, IsSqlWord;
    var word :| word in {"SELECT", "INSERT", "UPDATE", "DELETE", "WITH"} && WordAt(s, i, word);
    WordCut(s, i, word);
  }

  lemma WordCut(s: string, i: nat, w: string)
    requires w in {"SELECT", "INSERT", "UPDATE", "DELETE", "WITH"} && WordAt(s, i, w)
    ensures i + |w| <= |s| && IsSqlWord(s, s[..i], s[i..i + |w|], s[i + |w|..])
  {
    var a, x, b := s[..i], s[i..i + |w|], s[i + |w|..];
    WordIs(x, w);
    hide WordChar, Upper, SameLetters;
    assert s == a + x + b;
    assert a != "" ==> a[|a| - 1] == s[i - 1];
    assert b != "" ==> b[0] == s[i + |w|];
  }

  lemma WordStands(s: string, a: string, x: string, b: string)
    requires IsSqlWord(s, a, x, b)
    ensures SqlWordAt(s, |a|) && |a| <= |s|
  {
    var w :| w in {"SELECT", "INSERT", "UPDATE", "DELETE", "WITH"} && SameLetters(x, w);
    WordIs(x, w);
    var i := |a|;
    assert |x| == |w|;
    hide WordChar, Upper, SameLetters;
    assert s[i..i + |w|] == x;
    assert i > 0 ==> s[i - 1] == a[i - 1];
    assert i + |w| < |s| ==> s[i + |w|] == b[0];
    assert WordAt(s, i, w);
  }

  predicate IsSqlWord(s: string, a: string, w: string, b: string) {
    && s == a + w + b
    && (exists word <- {"SELECT", "INSERT", "UPDATE", "DELETE", "WITH"} :: SameLetters(w, word))
    && (a != "" ==> !WordChar(a[|a| - 1])) && (b != "" ==> !WordChar(b[0]))
  }

  lemma WordIs(a: string, word: string)
    requires word in {"SELECT", "INSERT", "UPDATE", "DELETE", "WITH"}
    ensures Upper(a) == word <==> SameLetters(a, word)
  {
    UpperIs(a, word, word);
  }

  // ----- Segments -----

  /** The segments of a text: literals where one starts, and single characters elsewhere. */
  predicate Reads(s: string, gs: seq<Segment>) {
    if gs == [] then s == ""
    else
      var t := SegmentText(gs[0]);
      && t != "" && t <= s
      && (if gs[0].Literal? then LiteralLength(s) == Some(|t|) else LiteralLength(s).None?)
      && Reads(s[|t|..], gs[1..])
  }

  /** There is one way to read a text. */
  lemma {:induction false} SegmentsExact(s: string, gs: seq<Segment>)
    ensures gs == Segments(s) <==> Reads(s, gs)
    decreases |s|, |gs|
  {
    if s == "" {
      assert gs != [] ==> !(SegmentText(gs[0]) != "" && SegmentText(gs[0]) <= s);
    } else if gs == [] {
      assert Segments(s) != [] by { FirstSegment(s); }
    } else {
      FirstSegment(s);
      hide LiteralLength, Segments;
      var n := if LiteralLength(s).Some? then LiteralLength(s).value else 1;
      var first := if LiteralLength(s).Some? then Literal(s[..n]) else Other(s[0]);
      SegmentsExact(s[n..], gs[1..]);
      assert gs == [gs[0]] + gs[1..];
      assert ([first] + Segments(s[n..]))[1..] == Segments(s[n..]);
      assert SegmentText(first) == s[..n];
      FirstReads(s, gs[0]);
    }
  }

  lemma FirstSegment(s: string)
    requires s != ""
    ensures var n := if LiteralLength(s).Some? then LiteralLength(s).value else 1;
      Segments(s) == [if LiteralLength(s).Some? then Literal(s[..n]) else Other(s[0])] + Segments(s[n..])
  {
    hide LiteralLength;
  }

  lemma FirstReads(s: string, g: Segment)
    requires s != ""
    ensures var t := SegmentText(g); var n := if LiteralLength(s).Some? then LiteralLength(s).value else 1;
      (t != "" && t <= s && if g.Literal? then LiteralLength(s) == Some(|t|) else LiteralLength(s).None?) <==>
      g == if LiteralLength(s).Some? then Literal(s[..n]) else Other(s[0])
  {
    hide LiteralLength;
  }

  // ----- Issues -----

  /** A segment is flagged if it is an SQL literal with a placeholder that is not numbered by its place. */
  lemma FlaggedExact(g: Segment)
    ensures Flagged(g) <==>
      g.Literal? && IsSql(g.text) && exists j :: 0 <= j < |NumbersOf(g.text)| && NumbersOf(g.text)[j] != j + 1
  {
    if g.Literal? {
      FlaggedBy(g.text);
      var ns := NumbersOf(g.text);
      hide IsSql, NumbersOf, InOrder;
      if forall j :: 0 <= j < |ns| ==> ns[j] == j + 1 {
        assert ns == Counting(1, |ns|);
      }
      assert ns == Counting(1, |ns|) ==> forall j :: 0 <= j < |ns| ==> ns[j] == j + 1;
    }
  }

  /** The issues of one segment that starts on the given line. */
  function OwnIssues(g: Segment, line: nat): seq<Issue> {
    if Flagged(g) then [Issue(line, NumbersOf(g.text))] else []
  }

  /** Every flagged literal is reported, on the line on which it starts: one more than the newlines before
      it. */
  lemma {:induction false} IssuesExact(gs: seq<Segment>, line: nat, k: nat)
    requires k < |gs|
    ensures IssuesOf(gs, line) ==
      IssuesOf(gs[..k], line)
      + OwnIssues(gs[k], line + Count(JoinSegments(gs[..k]), '\n'))
      + IssuesOf(gs[k + 1..], line + Count(JoinSegments(gs[..k + 1]), '\n'))
    decreases k
  {
    hide Flagged, NumbersOf, Count, JoinSegments, OwnIssues, IssuesOf, SegmentText;
    var t := SegmentText(gs[0]);
    var next := line + Count(t, '\n');
    IssuesFirst(gs, line);
    JoinFirst(gs, k + 1);
    if k == 0 {
      assert gs[..1] == [gs[0]];
      NoSegments(gs[1..][..0], line);
      NoSegments(gs[..0], line);
      CountConcat(t, JoinSegments(gs[1..][..0]), '\n');
    } else {
      IssuesExact(gs[1..], next, k - 1);
      JoinFirst(gs, k);
      assert gs[1..][k - 1] == gs[k] && gs[1..][k..] == gs[k + 1..];
      CountConcat(t, JoinSegments(gs[1..][..k - 1]), '\n');
      CountConcat(t, JoinSegments(gs[1..][..k]), '\n');
      IssuesFirst(gs[..k], line);
      assert gs[..k][0] == gs[0] && gs[..k][1..] == gs[1..][..k - 1];
    }
  }

  lemma NoSegments(gs: seq<Segment>, line: nat)
    requires |gs| == 0
    ensures IssuesOf(gs, line) == [] && JoinSegments(gs) == "" && Count(JoinSegments(gs), '\n') == 0
  {}

  lemma JoinFirst(gs: seq<Segment>, k: nat)
    requires 0 < k <= |gs|
    ensures JoinSegments(gs[..k]) == SegmentText(gs[0]) + JoinSegments(gs[1..][..k - 1])
  {
    assert gs[..k][1..] == gs[1..][..k - 1];
  }

  lemma IssuesFirst(gs: seq<Segment>, line: nat)
    requires gs != []
    ensures IssuesOf(gs, line) ==
      OwnIssues(gs[0], line) + IssuesOf(gs[1..], line + Count(SegmentText(gs[0]), '\n'))
  {}
}
