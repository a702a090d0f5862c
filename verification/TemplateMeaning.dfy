/** The interpreter computes the meaning of every well-formed template: expanding the text a
    template is written as gives the value of the template. */
module TemplateMeaning {
  import opened Wrappers
  import opened Strings
  import opened TemplateContext
  import opened TemplateArguments
  import opened TemplateConditions
  import opened TemplateBlocks
  import opened TemplateExpand
  import opened TemplateSyntax

  // ----- The tags of a printed template -----

  /** `segs` are the tags of the printed template `t` when it follows the pending text `p` and is
      followed by `rest`; `q` is the text pending after it. */
  ghost predicate Scans(p: string, t: Template, rest: string, ranges: bool, segs: seq<Seg>, q: string) {
    var s := p + (Print(t) + rest);
    && Segs(s) == segs + Segs(q + rest)
    && Tail(s) == Tail(q + rest)
    && Flat(segs) + q == p + Print(t)
    && '{' !in q
    && Neutral(segs, ranges)
  }

  lemma ScansNil(p: string, rest: string, ranges: bool)
    requires '{' !in p
    ensures Scans(p, Nil, rest, ranges, [], p)
  {
    NothingDone();
    hide Segs, Tail, Flat, Net, KindOf;
    assert p + ("" + rest) == p + rest;
    assert [] + Segs(p + rest) == Segs(p + rest);
    assert "" + p == p + "";
    var none: seq<Seg> := [];
    assert none[..0] == none;
  }

  lemma ScansText(p: string, text: string, next: Template, rest: string, ranges: bool, segs: seq<Seg>, q: string)
    requires Scans(p + text, next, rest, ranges, segs, q)
    ensures Scans(p, Literally(text, next), rest, ranges, segs, q)
  {
    hide Segs, Tail, Flat, Neutral;
    assert Print(Literally(text, next)) == text + Print(next);
    hide Print;
    MoveText(p, text, Print(next), rest);
  }

  lemma MoveText(p: string, text: string, N: string, rest: string)
    ensures p + (text + N + rest) == p + text + (N + rest)
    ensures p + (text + N) == p + text + N
  {}

  /** A tag after pending text is one step of the scan. */
  lemma ScanTag(p: string, raw: string, rest: string)
    requires '{' !in p && NoBrace(raw)
    ensures var s := p + (PrintTag(raw) + rest);
      Segs(s) == [Seg(p, raw)] + Segs(rest) && Tail(s) == Tail(rest)
  {
    TagAfterText(p, raw, rest);
    hide FindTag;
    SegsCons(p + (PrintTag(raw) + rest), Seg(p, raw), rest);
  }

  /** A plain tag, then the rest of the template. */
  lemma ScansTag(p: string, raw: string, next: Template, t: Template, rest: string, ranges: bool, segs: seq<Seg>,
                 q: string)
    requires '{' !in p && NoBrace(raw) && KindOf(raw) == Other
    requires Print(t) == PrintTag(raw) + Print(next)
    requires Scans("", next, rest, ranges, segs, q)
    ensures Scans(p, t, rest, ranges, [Seg(p, raw)] + segs, q)
  {
    var g := Seg(p, raw);
    NeutralOne(g, ranges);
    NeutralConcat([g], segs, ranges);
    hide Neutral, KindOf, PrintTag, Print;
    TagText1(p, PrintTag(raw), Print(next), rest, Flat(segs), q);
    TagSegs(p, raw, Print(next), rest, segs, q);
    FlatCons(g, segs);
  }

  lemma TagSegs(p: string, raw: string, N: string, rest: string, b: seq<Seg>, q: string)
    requires '{' !in p && NoBrace(raw)
    requires Segs("" + (N + rest)) == b + Segs(q + rest) && Tail("" + (N + rest)) == Tail(q + rest)
    ensures var s := p + (PrintTag(raw) + ("" + (N + rest)));
      Segs(s) == [Seg(p, raw)] + b + Segs(q + rest) && Tail(s) == Tail(q + rest)
  {
    hide Segs, Tail, PrintTag;
    ScanTag(p, raw, "" + (N + rest));
    assert [Seg(p, raw)] + (b + Segs(q + rest)) == [Seg(p, raw)] + b + Segs(q + rest);
  }

  lemma TagText1(p: string, o: string, N: string, rest: string, fb: string, q: string)
    requires fb + q == "" + N
    ensures p + (o + N + rest) == p + (o + ("" + (N + rest)))
    ensures p + o + fb + q == p + (o + N)
  {
    assert p + o + fb + q == p + o + (fb + q);
  }

  lemma BlockTags(pad: Pad)
    ensures var e, l := Raw(pad, "end"), Raw(pad, "else");
      NoBrace(e) && KindOf(e) == EndTag && NoBrace(l) && KindOf(l) == ElseTag
  {
    TrimRaw(pad, "end");
    TrimRaw(pad, "else");
    KindNames(Raw(pad, "end"));
    KindNames(Raw(pad, "else"));
  }

  lemma IfOpens(pad: Pad, c: Cond)
    requires ValidCond(c) && NoBrace(PrintCond(c))
    ensures var r := Raw(pad, "if " + PrintCond(c));
      NoBrace(r) && Trim(r) == "if " + PrintCond(c) && KindOf(r) == IfOpener
  {
    hide PrintCond;
    CondTag(c);
    TrimRaw(pad, "if " + PrintCond(c));
    KindNames(Raw(pad, "if " + PrintCond(c)));
  }

  lemma RangeOpens(pad: Pad, p: string)
    requires ValidPath(p) && NoBrace(p)
    ensures var r := Raw(pad, "range " + p); NoBrace(r) && Trim(r) == "range " + p && KindOf(r) == RangeOpener
  {
    RangeTagInner(p);
    TrimRaw(pad, "range " + p);
    KindNames(Raw(pad, "range " + p));
  }

  lemma ExprIsPlain(pad: Pad, e: Expr)
    requires ValidExpr(e)
    ensures var r := Raw(pad, PrintExpr(e)); NoBrace(r) && Trim(r) == PrintExpr(e) != "." && KindOf(r) == Other
  {
    ExprTag(e);
    hide PrintExpr;
    TrimRaw(pad, PrintExpr(e));
    KindNames(Raw(pad, PrintExpr(e)));
  }

  lemma DotIsPlain(pad: Pad)
    ensures var r := Raw(pad, "."); NoBrace(r) && Trim(r) == "." && KindOf(r) == Other
  {
    TrimRaw(pad, ".");
    KindNames(Raw(pad, "."));
  }

  /** The bodies of a block without `else`, scanned: `a` are the tags of the body. */
  lemma ScansSimpleBlock(p: string, open: string, body: Template, end: string, next: Template, t: Template,
                         rest: string,
                         ranges: bool, a: seq<Seg>, q1: string, b: seq<Seg>, q: string)
    requires '{' !in p && NoBrace(open) && NoBrace(end)
    requires DepthStep(open, ranges) == 1 && KindOf(open) != ElseTag && KindOf(end) == EndTag
    requires Print(t) == PrintTag(open) + (Print(body) + (PrintTag(end) + Print(next)))
    requires Scans("", body, PrintTag(end) + (Print(next) + rest), ranges, a, q1)
    requires Scans("", next, rest, ranges, b, q)
    ensures Scans(p, t, rest, ranges, [Seg(p, open)] + a + [Seg(q1, end)] + b, q)
  {
    var g, h := Seg(p, open), Seg(q1, end);
    OpenBlock(g, a, ranges);
    CloseBlock([g] + a, h, ranges);
    NeutralConcat([g] + a + [h], b, ranges);
    hide Neutral, Inside, KindOf, DepthStep, PrintTag, Print;
    var o, e, B, N := PrintTag(open), PrintTag(end), Print(body), Print(next);
    SimpleBlockText(p, o, B, e, N, rest, q1, Flat(a), Flat(b), q);
    SimpleBlockSegs(p, open, B, end, N, rest, a, q1, b, q);
    FlatBlock(g, a, h, b);
  }

  lemma SimpleBlockText(p: string, o: string, B: string, e: string, N: string, rest: string,
                        q1: string, fa: string, fb: string, q: string)
    requires fa + q1 == "" + B && fb + q == "" + N
    ensures p + (o + (B + (e + N)) + rest) == p + (o + ("" + (B + (e + (N + rest)))))
    ensures p + o + fa + q1 + e + fb + q == p + (o + (B + (e + N)))
  {
    calc {
      p + o + fa + q1 + e + fb + q;
      p + o + (fa + q1) + e + (fb + q);
      p + o + B + e + N;
      p + (o + (B + (e + N)));
    }
  }

  lemma FlatBlock(g: Seg, a: seq<Seg>, h: Seg, b: seq<Seg>)
    ensures Flat([g] + a + [h] + b)
         == g.lit + PrintTag(g.raw) + Flat(a) + h.lit + PrintTag(h.raw) + Flat(b)
  {
    assert [g] + a + [h] + b == [g] + a + ([h] + b);
    FlatMiddle([g] + a, h, b);
    FlatCons(g, a);
  }

  lemma SimpleBlockSegs(p: string, open: string, B: string, end: string, N: string, rest: string,
                        a: seq<Seg>, q1: string, b: seq<Seg>, q: string)
    requires '{' !in p && '{' !in q1 && NoBrace(open) && NoBrace(end)
    requires var after := PrintTag(end) + (N + rest);
      Segs("" + (B + after)) == a + Segs(q1 + after) && Tail("" + (B + after)) == Tail(q1 + after)
    requires Segs("" + (N + rest)) == b + Segs(q + rest) && Tail("" + (N + rest)) == Tail(q + rest)
    ensures var s := p + (PrintTag(open) + ("" + (B + (PrintTag(end) + (N + rest)))));
      && Segs(s) == [Seg(p, open)] + a + [Seg(q1, end)] + b + Segs(q + rest)
      && Tail(s) == Tail(q + rest)
  {
    hide Segs, Tail, PrintTag;
    var g, h := Seg(p, open), Seg(q1, end);
    var after := PrintTag(end) + (N + rest);
    assert "" + (N + rest) == N + rest;
    ScanTag(q1, end, N + rest);
    ScanTag(p, open, "" + (B + after));
    assert [g] + (a + ([h] + (b + Segs(q + rest)))) == [g] + a + [h] + b + Segs(q + rest);
  }

  /** The same for a block with an `else`. */
  lemma ScansElseBlock(p: string, open: string, body: Template, mid: string, other: Template, end: string,
                       next: Template,
                       t: Template, rest: string, ranges: bool, a: seq<Seg>, q1: string, c: seq<Seg>, q2: string,
                       b: seq<Seg>, q: string)
    requires '{' !in p && NoBrace(open) && NoBrace(mid) && NoBrace(end)
    requires DepthStep(open, ranges) == 1 && KindOf(open) != ElseTag && KindOf(mid) == ElseTag && KindOf(end) == EndTag
    requires Print(t) == PrintTag(open) + (Print(body) + (PrintTag(mid) + Print(other) + (PrintTag(end) + Print(next))))
    requires Scans("", body, PrintTag(mid) + ("" + (Print(other) + (PrintTag(end) + (Print(next) + rest)))), ranges,
        a, q1)
    requires Scans("", other, PrintTag(end) + (Print(next) + rest), ranges, c, q2)
    requires Scans("", next, rest, ranges, b, q)
    ensures Scans(p, t, rest, ranges, [Seg(p, open)] + a + [Seg(q1, mid)] + c + [Seg(q2, end)] + b, q)
  {
    var g, m, h := Seg(p, open), Seg(q1, mid), Seg(q2, end);
    OpenBlock(g, a, ranges);
    ElseInside([g] + a, m, c, ranges);
    CloseBlock([g] + a + [m] + c, h, ranges);
    NeutralConcat([g] + a + [m] + c + [h], b, ranges);
    hide Neutral, Inside, KindOf, DepthStep, PrintTag, Print;
    ElseBlockText(p, PrintTag(open), Print(body), PrintTag(mid), Print(other), PrintTag(end), Print(next), rest,
                  q1, q2, Flat(a), Flat(c), Flat(b), q);
    ElseBlockSegs(p, open, Print(body), mid, Print(other), end, Print(next), rest, a, q1, c, q2, b, q);
    FlatElseBlock(g, a, m, c, h, b);
  }

  lemma ElseBlockText(p: string, o: string, B: string, m: string, E: string, e: string, N: string, rest: string,
                      q1: string, q2: string, fa: string, fc: string, fb: string, q: string)
    requires fa + q1 == "" + B && fc + q2 == "" + E && fb + q == "" + N
    ensures p + (o + (B + (m + E + (e + N))) + rest) == p + (o + ("" + (B + (m + ("" + (E + (e + (N + rest))))))))
    ensures p + o + fa + q1 + m + fc + q2 + e + fb + q == p + (o + (B + (m + E + (e + N))))
  {
    calc {
      p + o + fa + q1 + m + fc + q2 + e + fb + q;
      p + o + (fa + q1) + m + (fc + q2) + e + (fb + q);
      p + o + B + m + E + e + N;
      p + (o + (B + (m + E + (e + N))));
    }
  }

  lemma FlatElseBlock(g: Seg, a: seq<Seg>, m: Seg, c: seq<Seg>, h: Seg, b: seq<Seg>)
    ensures Flat([g] + a + [m] + c + [h] + b)
         == g.lit + PrintTag(g.raw) + Flat(a) + m.lit + PrintTag(m.raw) + Flat(c) + h.lit + PrintTag(h.raw) + Flat(b)
  {
    hide Flat, PrintTag;
    assert [g] + a + [m] + c + [h] + b == ([g] + a + [m] + c) + ([h] + b);
    FlatMiddle([g] + a + [m] + c, h, b);
    assert [g] + a + [m] + c == [g] + a + ([m] + c);
    FlatMiddle([g] + a, m, c);
    FlatCons(g, a);
  }

  lemma ElseBlockSegs(p: string, open: string, B: string, mid: string, E: string, end: string, N: string, rest: string,
                      a: seq<Seg>, q1: string, c: seq<Seg>, q2: string, b: seq<Seg>, q: string)
    requires '{' !in p && '{' !in q1 && '{' !in q2 && NoBrace(open) && NoBrace(mid) && NoBrace(end)
    requires var after := PrintTag(end) + (N + rest);
      Segs("" + (E + after)) == c + Segs(q2 + after) && Tail("" + (E + after)) == Tail(q2 + after)
    requires var after := PrintTag(mid) + ("" + (E + (PrintTag(end) + (N + rest))));
      Segs("" + (B + after)) == a + Segs(q1 + after) && Tail("" + (B + after)) == Tail(q1 + after)
    requires Segs("" + (N + rest)) == b + Segs(q + rest) && Tail("" + (N + rest)) == Tail(q + rest)
    ensures var s := p + (PrintTag(open) + ("" + (B + (PrintTag(mid) + ("" + (E + (PrintTag(end) + (N + rest))))))));
      && Segs(s) == [Seg(p, open)] + a + [Seg(q1, mid)] + c + [Seg(q2, end)] + b + Segs(q + rest)
      && Tail(s) == Tail(q + rest)
  {
    hide Segs, Tail, PrintTag;
    var g, m, h := Seg(p, open), Seg(q1, mid), Seg(q2, end);
    assert "" + (N + rest) == N + rest;
    var after2 := PrintTag(end) + (N + rest);
    var after1 := PrintTag(mid) + ("" + (E + after2));
    ScanTag(q2, end, N + rest);
    ScanTag(q1, mid, "" + (E + after2));
    ScanTag(p, open, "" + (B + after1));
    assert [g] + (a + ([m] + (c + ([h] + (b + Segs(q + rest))))))
        == [g] + a + [m] + c + [h] + b + Segs(q + rest);
  }

  /** The tags of every well-formed template, wherever it is printed, leave the depth as it was. */
  lemma {:induction false} ScanTemplate(p: string, t: Template, rest: string, ranges: bool)
    returns (segs: seq<Seg>, q: string)
    requires '{' !in p && Valid(t, ranges)
    ensures Scans(p, t, rest, ranges, segs, q)
    decreases t
  {
    hide Scans, PrintExpr, PrintTag, Raw, Segs, Tail, Flat, Neutral, Text, KindOf;
    match t
    case Nil =>
      ScansNil(p, rest, ranges);
      segs, q := [], p;
    case Literally(s, next) =>
      segs, q := ScanTemplate(p + s, next, rest, ranges);
      ScansText(p, s, next, rest, ranges, segs, q);
    case Show(pad, e, next) =>
      ExprIsPlain(pad, e);
      segs, q := ScanTemplate("", next, rest, ranges);
      ScansTag(p, Raw(pad, PrintExpr(e)), next, t, rest, ranges, segs, q);
      segs := [Seg(p, Raw(pad, PrintExpr(e)))] + segs;
    case Dot(pad, next) =>
      DotIsPlain(pad);
      segs, q := ScanTemplate("", next, rest, ranges);
      ScansTag(p, Raw(pad, "."), next, t, rest, ranges, segs, q);
      segs := [Seg(p, Raw(pad, "."))] + segs;
    case If(pad, c, thn, els, next) =>
      segs, q := ScanIf(p, pad, c, thn, els, next, rest, ranges);
    case Range(pad, path, body, next) =>
      RangeOpens(pad, path);
      BlockTags(pad);
      var open, end := Raw(pad, "range " + path), Raw(pad, "end");
      var a, q1 := ScanTemplate("", body, PrintTag(end) + (Print(next) + rest), ranges);
      var b;
      b, q := ScanTemplate("", next, rest, ranges);
      ScansSimpleBlock(p, open, body, end, next, t, rest, ranges, a, q1, b, q);
      segs := [Seg(p, open)] + a + [Seg(q1, end)] + b;
  }

  lemma {:induction false} ScanIf(p: string, pad: Pad, c: Cond, thn: Template, els: Option<Template>, next: Template,
                                  rest: string, ranges: bool)
    returns (segs: seq<Seg>, q: string)
    requires '{' !in p && Valid(If(pad, c, thn, els, next), ranges)
    ensures Scans(p, If(pad, c, thn, els, next), rest, ranges, segs, q)
    decreases If(pad, c, thn, els, next), 0
  {
    hide Scans, PrintExpr, PrintTag, Raw, Segs, Tail, Flat, Neutral, Text, KindOf;
    var t := If(pad, c, thn, els, next);
    IfOpens(pad, c);
    BlockTags(pad);
    var open, mid, end := Raw(pad, "if " + PrintCond(c)), Raw(pad, "else"), Raw(pad, "end");
    var b;
    b, q := ScanTemplate("", next, rest, ranges);
    if ranges {
      ValidWeakens(thn);
    }
    match els
    case None =>
      var a, q1 := ScanTemplate("", thn, PrintTag(end) + (Print(next) + rest), ranges);
      NoElseText(PrintTag(end), Print(next));
      ScansSimpleBlock(p, open, thn, end, next, t, rest, ranges, a, q1, b, q);
      segs := [Seg(p, open)] + a + [Seg(q1, end)] + b;
    case Some(other) =>
      if ranges {
        ValidWeakens(other);
      }
      var after := PrintTag(end) + (Print(next) + rest);
      var a, q1 := ScanTemplate("", thn, PrintTag(mid) + ("" + (Print(other) + after)), ranges);
      var d, q2 := ScanTemplate("", other, after, ranges);
      ScansElseBlock(p, open, thn, mid, other, end, next, t, rest, ranges, a, q1, d, q2, b, q);
      segs := [Seg(p, open)] + a + [Seg(q1, mid)] + d + [Seg(q2, end)] + b;
  }

  lemma NoElseText(e: string, N: string)
    ensures "" + (e + N) == e + N
  {}

  // ----- The matchers find the printed bodies -----

  lemma NoOwnElse(a: seq<Seg>)
    requires Neutral(a, false)
    ensures LastElse(a) == None && NeverBelow(a, |a|, false) && Net(a, false) == 0
  {}

  lemma OneOwnElse(a: seq<Seg>, m: Seg, d: seq<Seg>)
    requires Neutral(a, false) && KindOf(m.raw) == ElseTag && Neutral(d, false)
    ensures var done := a + [m] + d;
      LastElse(done) == Some(|a|) && NeverBelow(done, |done|, false) && Net(done, false) == 0
  {
    hide KindOf, Net, LastElse;
    var am, done := a + [m], a + [m] + d;
    NetOne(m, false);
    NothingDone();
    assert [m][..0] == [] && [m][..1] == [m];
    NetConcat(a, [m], false);
    NetConcat(am, d, false);
    NeverBelowConcat(a, [m], false);
    NeverBelowConcat(am, d, false);
    assert OwnElse(done, |a|) by {
      OwnElseConcat(am, d, |a|);
      OwnElseConcat(a, [m], |a|);
    }
    forall e | |a| < e < |done| ensures !OwnElse(done, e) {
      OwnElseConcat(am, d, e);
      assert !OwnElse(d, e - |am|);
    }
    var r := LastElse(done);
    assert r.Some?;
  }

  lemma NetEnd(done: seq<Seg>, g: Seg, ranges: bool)
    requires Net(done, ranges) == 0 && KindOf(g.raw) == EndTag
    ensures Net(done + [g], ranges) == -1
  {
    hide KindOf, Net;
    NetOne(g, ranges);
    NetConcat(done, [g], ranges);
  }

  lemma IfBlockPrinted(pad: Pad, thn: Template, els: Option<Template>, N: string)
    requires Valid(thn, false) && (els.Some? ==> Valid(els.value, false))
    ensures IfBlockOf(Print(thn) + (PrintElse(pad, els) + (Tag(pad, "end") + N))) ==
      Some(IfBlock(Print(thn), if els.Some? then Some(Print(els.value)) else None, N))
  {
    BlockTags(pad);
    match els
    case None =>
      NoElseText(Tag(pad, "end"), N);
      SimpleIfPrinted(thn, Raw(pad, "end"), N);
    case Some(other) => ElseIfPrinted(thn, Raw(pad, "else"), other, Raw(pad, "end"), N);
  }

  lemma SimpleIfPrinted(thn: Template, end: string, N: string)
    requires Valid(thn, false) && NoBrace(end) && KindOf(end) == EndTag
    ensures IfBlockOf(Print(thn) + (PrintTag(end) + N)) == Some(IfBlock(Print(thn), None, N))
  {
    hide Segs, Tail, Flat, PrintTag, Print, Valid, KindOf, LastElse, IfBlockOf, Net, OwnElse, Neutral, NeverBelow,
      NoBrace, FindTag;
    var a, q := ScanTemplate("", thn, PrintTag(end) + N, false);
    NeutralUntilEnd(Print(thn), end, N, a, q);
  }

  /** A block whose body leaves the depth as it was ends at the first `end` after the body. */
  lemma NeutralUntilEnd(B: string, end: string, N: string, a: seq<Seg>, q: string)
    requires '{' !in q && NoBrace(end) && KindOf(end) == EndTag && Neutral(a, false)
    requires var after := PrintTag(end) + N;
      Segs("" + (B + after)) == a + Segs(q + after) && Tail("" + (B + after)) == Tail(q + after)
    requires Flat(a) + q == "" + B
    ensures IfBlockOf(B + (PrintTag(end) + N)) == Some(IfBlock(B, None, N))
  {
    hide Segs, Tail, Flat, PrintTag, KindOf, LastElse, IfBlockOf, Net, OwnElse, Neutral, FindTag, NoBrace;
    NoOwnElse(a);
    NetEnd(a, Seg(q, end), false);
    SimpleSegs(B, end, N, a, q);
    IfBlockAtEnd(B + (PrintTag(end) + N), a, Seg(q, end), N);
    assert Flat(a) + q == B;
  }

  lemma SimpleSegs(B: string, end: string, N: string, a: seq<Seg>, q: string)
    requires '{' !in q && NoBrace(end)
    requires var after := PrintTag(end) + N;
      Segs("" + (B + after)) == a + Segs(q + after) && Tail("" + (B + after)) == Tail(q + after)
    ensures var s := B + (PrintTag(end) + N);
      Segs(s) == a + [Seg(q, end)] + Segs(N) && Tail(s) == Tail(N)
  {
    hide Segs, Tail, PrintTag;
    ScanTag(q, end, N);
    assert "" + (B + (PrintTag(end) + N)) == B + (PrintTag(end) + N);
    assert a + ([Seg(q, end)] + Segs(N)) == a + [Seg(q, end)] + Segs(N);
  }

  lemma ElseIfPrinted(thn: Template, mid: string, other: Template, end: string, N: string)
    requires Valid(thn, false) && Valid(other, false) && NoBrace(mid) && NoBrace(end)
    requires KindOf(mid) == ElseTag && KindOf(end) == EndTag
    ensures IfBlockOf(Print(thn) + (PrintTag(mid) + Print(other) + (PrintTag(end) + N)))
         == Some(IfBlock(Print(thn), Some(Print(other)), N))
  {
    hide Segs, Tail, Flat, PrintTag, Print, Valid, KindOf, LastElse, IfBlockOf, Net, OwnElse, Neutral, NeverBelow,
      NoBrace, FindTag;
    var after := PrintTag(end) + N;
    var a, q1 := ScanTemplate("", thn, PrintTag(mid) + ("" + (Print(other) + after)), false);
    var d, q2 := ScanTemplate("", other, after, false);
    NeutralAroundElse(Print(thn), mid, Print(other), end, N, a, q1, d, q2);
  }

  lemma NeutralAroundElse(B: string, mid: string, E: string, end: string, N: string, a: seq<Seg>, q1: string,
                          d: seq<Seg>, q2: string)
    requires '{' !in q1 && '{' !in q2 && NoBrace(mid) && NoBrace(end)
    requires KindOf(mid) == ElseTag && KindOf(end) == EndTag && Neutral(a, false) && Neutral(d, false)
    requires var after := PrintTag(end) + N;
      Segs("" + (E + after)) == d + Segs(q2 + after) && Tail("" + (E + after)) == Tail(q2 + after)
    requires var after := PrintTag(mid) + ("" + (E + (PrintTag(end) + N)));
      Segs("" + (B + after)) == a + Segs(q1 + after) && Tail("" + (B + after)) == Tail(q1 + after)
    requires Flat(a) + q1 == "" + B && Flat(d) + q2 == "" + E
    ensures IfBlockOf(B + (PrintTag(mid) + E + (PrintTag(end) + N))) == Some(IfBlock(B, Some(E), N))
  {
    hide Segs, Tail, Flat, PrintTag, KindOf, LastElse, IfBlockOf, Net, OwnElse, Neutral, FindTag, NoBrace;
    var m, g := Seg(q1, mid), Seg(q2, end);
    var done := a + [m] + d;
    OneOwnElse(a, m, d);
    NetEnd(done, g, false);
    ElseIfSegs(B, mid, E, end, N, a, q1, d, q2);
    IfBlockAtEnd(B + (PrintTag(mid) + E + (PrintTag(end) + N)), done, g, N);
    assert done[..|a|] == a && done[|a|] == m && done[|a| + 1..] == d;
    assert Flat(a) + q1 == B && Flat(d) + q2 == E;
  }

  lemma ElseIfSegs(B: string, mid: string, E: string, end: string, N: string, a: seq<Seg>, q1: string, d: seq<Seg>,
                   q2: string)
    requires '{' !in q1 && '{' !in q2 && NoBrace(mid) && NoBrace(end)
    requires var after := PrintTag(end) + N;
      Segs("" + (E + after)) == d + Segs(q2 + after) && Tail("" + (E + after)) == Tail(q2 + after)
    requires var after := PrintTag(mid) + ("" + (E + (PrintTag(end) + N)));
      Segs("" + (B + after)) == a + Segs(q1 + after) && Tail("" + (B + after)) == Tail(q1 + after)
    ensures var s := B + (PrintTag(mid) + E + (PrintTag(end) + N));
      Segs(s) == a + [Seg(q1, mid)] + d + [Seg(q2, end)] + Segs(N) && Tail(s) == Tail(N)
  {
    hide Segs, Tail, PrintTag;
    var m, g, after := Seg(q1, mid), Seg(q2, end), PrintTag(end) + N;
    ScanTag(q2, end, N);
    ScanTag(q1, mid, "" + (E + after));
    assert B + (PrintTag(mid) + E + after) == "" + (B + (PrintTag(mid) + ("" + (E + after))));
    assert a + ([m] + (d + ([g] + Segs(N)))) == a + [m] + d + [g] + Segs(N);
  }

  lemma RangeBlockPrinted(pad: Pad, body: Template, N: string)
    requires Valid(body, true)
    ensures RangeBlockOf(Print(body) + (Tag(pad, "end") + N)) == Some(RangeBlock(Print(body), N))
  {
    BlockTags(pad);
    var end := Raw(pad, "end");
    var after := PrintTag(end) + N;
    var a, q := ScanTemplate("", body, after, true);
    NetEnd(a, Seg(q, end), true);
    hide Segs, Tail, Flat, PrintTag, Print, Valid, KindOf, RangeBlockOf, Net, Raw;
    SimpleSegs(Print(body), end, N, a, q);
    RangeBlockAtEnd(Print(body) + after, a, Seg(q, end), N);
    assert Flat(a) + q == Print(body);
  }

  // ----- Writing an item in place of the dot -----

  /** The template with the item in place of the dots spelled with `pad`. */
  function Substitute(t: Template, pad: Pad, item: string): Template {
    match t
    case Nil => Nil
    case Literally(s, next) => Literally(s, Substitute(next, pad, item))
    case Show(p, e, next) => Show(p, e, Substitute(next, pad, item))
    case Dot(p, next) =>
      if p == pad then Literally(item, Substitute(next, pad, item)) else Dot(p, Substitute(next, pad, item))
    case If(p, c, thn, els, next) =>
      If(p, c, Substitute(thn, pad, item),
         match els case None => None case Some(e) => Some(Substitute(e, pad, item)),
         Substitute(next, pad, item))
    case Range(p, path, body, next) =>
      Range(p, path, Substitute(body, pad, item), Substitute(next, pad, item))
  }

  function WriteItem(t: Template, item: string): Template {
    Substitute(Substitute(t, Spaced, item), Tight, item)
  }

  function Size(t: Template): nat {
    match t
    case Nil => 0
    case Literally(_, next) => 1 + Size(next)
    case Show(_, _, next) => 1 + Size(next)
    case Dot(_, next) => 1 + Size(next)
    case If(_, _, thn, els, next) =>
      1 + Size(thn) + (match els case None => 0 case Some(e) => Size(e)) + Size(next)
    case Range(_, _, body, next) => 1 + Size(body) + Size(next)
  }

  /** How deeply blocks are nested. */
  function Height(t: Template): nat {
    match t
    case Nil => 0
    case Literally(_, next) => Height(next)
    case Show(_, _, next) => Height(next)
    case Dot(_, next) => Height(next)
    case If(_, _, thn, els, next) =>
      Max(1 + Max(Height(thn), match els case None => 0 case Some(e) => Height(e)), Height(next))
    case Range(_, _, body, next) => Max(1 + Height(body), Height(next))
  }

  function Max(a: nat, b: nat): nat {
    if a > b then a else b
  }

  lemma {:induction false} SubstituteKeeps(t: Template, pad: Pad, item: string, ranges: bool)
    requires Valid(t, ranges) && '{' !in item
    ensures var u := Substitute(t, pad, item);
      Valid(u, ranges) && Size(u) == Size(t) && Height(u) == Height(t)
  {
    match t
    case Nil =>
    case Literally(_, next) => SubstituteKeeps(next, pad, item, ranges);
    case Show(_, _, next) => SubstituteKeeps(next, pad, item, ranges);
    case Dot(_, next) => SubstituteKeeps(next, pad, item, ranges);
    case If(_, _, thn, els, next) =>
      SubstituteKeeps(thn, pad, item, false);
      if els.Some? {
        SubstituteKeeps(els.value, pad, item, false);
      }
      SubstituteKeeps(next, pad, item, ranges);
    case Range(_, _, body, next) =>
      SubstituteKeeps(body, pad, item, true);
      SubstituteKeeps(next, pad, item, ranges);
  }

  function DotText(pad: Pad): (s: string)
    ensures s != "" && s[0] == '{'
  {
    Tag(pad, ".")
  }

  lemma TagChars(raw: string, rest: string, i: nat)
    requires NoBrace(raw) && 1 <= i < |PrintTag(raw)|
    ensures !At(PrintTag(raw) + rest, "{{", i)
  {
    var s := PrintTag(raw) + rest;
    AtPair(s, '{', '{', i);
    assert i >= 2 ==> s[i] == (raw + "}}")[i - 2];
    assert i == 1 ==> s[2] == (raw + "}}")[0];
  }

  lemma AtPrefix(s: string, a: string, b: string, i: nat)
    requires At(s, a + b, i)
    ensures At(s, a, i)
  {
    assert s[i..i + |a|] == s[i..i + |a + b|][..|a|] == a;
  }

  lemma SameRaw(raw: string, dot: string, rest: string)
    requires NoBrace(raw) && NoBrace(dot) && At(PrintTag(raw) + rest, PrintTag(dot), 0)
    ensures raw == dot
  {
    var s, pat := PrintTag(raw) + rest, PrintTag(dot);
    var more := s[|pat|..];
    assert s == "" + (PrintTag(raw) + rest) == "" + (pat + more);
    TagAfterText("", raw, rest);
    TagAfterText("", dot, more);
  }

  /** A tag is replaced when it is the dot, and copied otherwise. */
  lemma ReplaceTag(raw: string, rest: string, pad: Pad, item: string)
    requires NoBrace(raw)
    ensures Replace(PrintTag(raw) + rest, DotText(pad), item) ==
      (if raw == Raw(pad, ".") then item else PrintTag(raw)) + Replace(rest, DotText(pad), item)
  {
    var pat, tag := DotText(pad), PrintTag(raw);
    var dot := Raw(pad, ".");
    DotIsPlain(pad);
    if raw == dot {
      ReplaceHit(rest, pat, item);
    } else {
      forall i | 0 <= i < |tag| ensures !At(tag + rest, pat, i) {
        if At(tag + rest, pat, i) {
          assert pat == "{{" + (dot + "}}");
          AtPrefix(tag + rest, "{{", dot + "}}", i);
          if i > 0 {
            TagChars(raw, rest, i);
          } else {
            SameRaw(raw, dot, rest);
          }
        }
      }
      ReplaceSkips(tag, rest, pat, item);
    }
  }

  /** Replacing the dot in the printed text is printing the template with the item written in. */
  lemma {:induction false} ReplacePrinted(t: Template, rest: string, pad: Pad, item: string, ranges: bool)
    requires Valid(t, ranges)
    ensures Replace(Print(t) + rest, DotText(pad), item)
         == Print(Substitute(t, pad, item)) + Replace(rest, DotText(pad), item)
    decreases t
  {
    hide Replace, PrintTag, Raw, PrintExpr, Text, ValidExpr, Tag, DotText;
    var pat := DotText(pad);
    var R := Replace(rest, pat, item);
    match t
    case Nil =>
      assert "" + rest == rest;
    case Literally(s, next) =>
      ReplacePrinted(next, rest, pad, item, ranges);
      ReplaceSkipsText(s, Print(next) + rest, pat, item);
      assert s + Print(next) + rest == s + (Print(next) + rest);
    case Show(p, e, next) =>
      ReplacePrinted(next, rest, pad, item, ranges);
      ExprIsPlain(p, e);
      ReplaceInTag(p, PrintExpr(e), Print(next), rest, pad, item);
    case Dot(p, next) =>
      ReplacePrinted(next, rest, pad, item, ranges);
      DotIsPlain(p);
      ReplaceDot(p, Print(next), rest, pad, item);
    case If(p, c, thn, els, next) =>
      ReplaceIf(p, c, thn, els, next, rest, pad, item, ranges);
    case Range(p, path, body, next) =>
      ReplaceRange(p, path, body, next, rest, pad, item, ranges);
  }

  lemma {:induction false} ReplaceRange(p: Pad, path: string, body: Template, next: Template,
                                        rest: string, pad: Pad, item: string, ranges: bool)
    requires Valid(Range(p, path, body, next), ranges)
    ensures var t := Range(p, path, body, next);
      Replace(Print(t) + rest, DotText(pad), item)
      == Print(Substitute(t, pad, item)) + Replace(rest, DotText(pad), item)
    decreases Range(p, path, body, next), 0
  {
    hide Replace, PrintTag, Raw, Tag, DotText;
    RangeOpens(p, path);
    BlockTags(p);
    var E, N := Tag(p, "end"), Print(next);
    var B2, M := Print(Substitute(body, pad, item)), Print(Substitute(next, pad, item));
    ReplacePrinted(next, rest, pad, item, ranges);
    ReplacePrinted(body, E + N + rest, pad, item, true);
    ReplaceInTag(p, "end", N, rest, pad, item);
    ReplaceInTag(p, "range " + path, Print(body) + (E + N), rest, pad, item);
    ReplaceBody(Print(body), B2, E, N, M, rest, pad, item);
    Grouped(Tag(p, "range " + path), B2, E, M, Replace(rest, DotText(pad), item));
  }

  lemma ReplaceInTag(p: Pad, inner: string, N: string, rest: string, pad: Pad, item: string)
    requires NoBrace(Raw(p, inner)) && Trim(Raw(p, inner)) == inner != "."
    ensures Replace(Tag(p, inner) + N + rest, DotText(pad), item)
         == Tag(p, inner) + Replace(N + rest, DotText(pad), item)
  {
    ReplaceTag(Raw(p, inner), N + rest, pad, item);
    DotIsPlain(pad);
    assert Tag(p, inner) + N + rest == Tag(p, inner) + (N + rest);
  }

  lemma ReplaceDot(p: Pad, N: string, rest: string, pad: Pad, item: string)
    ensures Replace(Tag(p, ".") + N + rest, DotText(pad), item)
         == (if p == pad then item else Tag(p, ".")) + Replace(N + rest, DotText(pad), item)
  {
    hide PrintTag, Replace, DotText, Raw;
    DotIsPlain(p);
    PadsDiffer(p, pad);
    ReplaceTag(Raw(p, "."), N + rest, pad, item);
    assert Tag(p, ".") + N + rest == Tag(p, ".") + (N + rest);
  }

  lemma PadsDiffer(p: Pad, pad: Pad)
    ensures Raw(p, ".") == Raw(pad, ".") <==> p == pad
  {
    assert p != pad ==> |Raw(p, ".")| != |Raw(pad, ".")|;
  }

  lemma {:induction false} ReplaceIf(p: Pad, c: Cond, thn: Template, els: Option<Template>, next: Template,
                                     rest: string, pad: Pad, item: string, ranges: bool)
    requires Valid(If(p, c, thn, els, next), ranges)
    ensures var t := If(p, c, thn, els, next);
      Replace(Print(t) + rest, DotText(pad), item)
      == Print(Substitute(t, pad, item)) + Replace(rest, DotText(pad), item)
    decreases If(p, c, thn, els, next), 0
  {
    hide Replace, PrintTag, Raw, PrintExpr, Text, ValidExpr, Tag;
    IfOpens(p, c);
    BlockTags(p);
    var E, N, M := Tag(p, "end"), Print(next), Print(Substitute(next, pad, item));
    ReplacePrinted(next, rest, pad, item, ranges);
    ReplaceInTag(p, "end", N, rest, pad, item);
    match els {
      case None =>
        ReplacePrinted(thn, E + N + rest, pad, item, false);
        NoElseText(E, N);
        NoElseText(E, M);
        ReplaceInTag(p, "if " + PrintCond(c), Print(thn) + (E + N), rest, pad, item);
        ReplaceBody(Print(thn), Print(Substitute(thn, pad, item)), E, N, M, rest, pad, item);
        Grouped(Tag(p, "if " + PrintCond(c)), Print(Substitute(thn, pad, item)), E, M,
            Replace(rest, DotText(pad), item));
      case Some(other) =>
        var L, O := Tag(p, "else"), Print(other);
        var B, B2, O2 := Print(thn), Print(Substitute(thn, pad, item)), Print(Substitute(other, pad, item));
        ReplacePrinted(other, E + N + rest, pad, item, false);
        ReplaceInTag(p, "else", O, E + N + rest, pad, item);
        ReplacePrinted(thn, L + O + (E + N + rest), pad, item, false);
        ReplaceInTag(p, "if " + PrintCond(c), B + (L + O + (E + N)), rest, pad, item);
        ReplaceBodies(B, B2, L, O, O2, E, N, M, rest, pad, item);
        GroupedElse(Tag(p, "if " + PrintCond(c)), B2, L, O2, E, M, Replace(rest, DotText(pad), item));
    }
  }

  lemma Grouped(I: string, B: string, E: string, M: string, R: string)
    ensures I + (B + (E + (M + R))) == I + (B + (E + M)) + R
  {}

  lemma GroupedElse(I: string, B: string, L: string, O: string, E: string, M: string, R: string)
    ensures I + (B + (L + (O + (E + (M + R))))) == I + (B + (L + O + (E + M))) + R
  {}

  lemma ReplaceBody(B: string, B2: string, E: string, N: string, M: string, rest: string, pad: Pad, item: string)
    requires var pat := DotText(pad);
      && Replace(B + (E + N + rest), pat, item) == B2 + Replace(E + N + rest, pat, item)
      && Replace(E + N + rest, pat, item) == E + Replace(N + rest, pat, item)
      && Replace(N + rest, pat, item) == M + Replace(rest, pat, item)
    ensures var pat := DotText(pad);
      Replace(B + (E + N) + rest, pat, item) == B2 + (E + (M + Replace(rest, pat, item)))
  {
    hide Replace, DotText;
    assert B + (E + N) + rest == B + (E + N + rest);
  }

  lemma ReplaceBodies(B: string, B2: string, L: string, O: string, O2: string, E: string, N: string, M: string,
                      rest: string,
                      pad: Pad, item: string)
    requires var pat := DotText(pad);
      && Replace(B + (L + O + (E + N + rest)), pat, item) == B2 + Replace(L + O + (E + N + rest), pat, item)
      && Replace(L + O + (E + N + rest), pat, item) == L + Replace(O + (E + N + rest), pat, item)
      && Replace(O + (E + N + rest), pat, item) == O2 + Replace(E + N + rest, pat, item)
      && Replace(E + N + rest, pat, item) == E + Replace(N + rest, pat, item)
      && Replace(N + rest, pat, item) == M + Replace(rest, pat, item)
    ensures var pat := DotText(pad);
      Replace(B + (L + O + (E + N)) + rest, pat, item) == B2 + (L + (O2 + (E + (M + Replace(rest, pat, item)))))
  {
    hide Replace, DotText;
    assert B + (L + O + (E + N)) + rest == B + (L + O + (E + N + rest));
  }

  /** What `range` does to its body before expanding it, seen on trees. */
  lemma WithItemPrinted(body: Template, item: string)
    requires Valid(body, true) && '{' !in item
    ensures WithItem(Print(body), item) == Print(WriteItem(body, item))
  {
    var once := Substitute(body, Spaced, item);
    assert DotText(Spaced) == "{{ . }}" && DotText(Tight) == "{{.}}";
    SubstituteKeeps(body, Spaced, item, true);
    ReplacePrinted(body, "", Spaced, item, true);
    ReplacePrinted(once, "", Tight, item, true);
    assert Print(body) + "" == Print(body);
    assert Print(once) + "" == Print(once);
    assert Print(WriteItem(body, item)) + "" == Print(WriteItem(body, item));
  }

  /** Once an item has been written in, no dot is left: the dot of an inner `range` has no effect. */
  lemma {:induction false} EvalWritten(t: Template, item: string, ctx: Context, dot: Option<string>)
    ensures Eval(WriteItem(t, item), ctx, dot) == Eval(t, ctx, Some(item))
    decreases t, 0
  {
    match t
    case Nil =>
    case Literally(_, next) => EvalWritten(next, item, ctx, dot);
    case Show(_, _, next) => EvalWritten(next, item, ctx, dot);
    case Dot(_, next) => EvalWritten(next, item, ctx, dot);
    case If(_, _, thn, els, next) =>
      EvalWritten(thn, item, ctx, dot);
      if els.Some? {
        EvalWritten(els.value, item, ctx, dot);
      }
      EvalWritten(next, item, ctx, dot);
    case Range(_, path, body, next) =>
      EvalItemsWritten(body, Iterable(ctx, path), item, ctx, dot);
      EvalWritten(next, item, ctx, dot);
  }

  lemma {:induction false} EvalItemsWritten(body: Template, items: seq<string>, item: string, ctx: Context,
                                            dot: Option<string>)
    ensures EvalItems(WriteItem(body, item), items, ctx, dot) == EvalItems(body, items, ctx, Some(item))
    decreases body, 1, |items|
  {
    if items != [] {
      EvalWritten(body, item, ctx, if dot.Some? then dot else Some(items[0]));
      EvalItemsWritten(body, items[1..], item, ctx, dot);
    }
  }

  // ----- Plain tags -----

  lemma JoinMeaning(p: string, sep: string, ctx: Context)
    requires ValidPath(p) && forall c <- sep :: !IsQuote(c)
    ensures JoinTag(SingleSpaced([p, "\"" + sep + "\""]), ctx) == Ok(Join(Iterable(ctx, p), sep))
  {
    var quoted := "\"" + sep + "\"";
    var words := [p, quoted];
    PathShape(p);
    WordCloses(Quoted('"', sep));
    SplitOfPrinted(words, seq(2, _ => 0));
    StripQuotes(sep);
  }

  lemma StripQuotes(sep: string)
    requires forall c <- sep :: !IsQuote(c)
    ensures StripStart(StripEnd(StripStart(StripEnd("\"" + sep + "\"", '"'), '"'), '\''), '\'') == sep
  {
    var q := "\"" + sep;
    StripEndOne(q, '"');
    assert q + ['"'] == "\"" + sep + "\"";
    if sep == "" {
      assert q == "" + ['"'];
      StripEndOne("", '"');
    } else {
      assert sep[|sep| - 1] in sep && sep[0] in sep;
      assert StripEnd(q, '"') == q;
      assert q[1..] == sep;
      assert StripStart(sep, '"') == sep;
    }
  }

  lemma {:induction false} FirstTruthyMeaning(paths: seq<string>, ctx: Context)
    requires forall p <- paths :: ValidPath(p)
    ensures FirstTruthy(paths, ctx) == FirstTruthyOf(paths, ctx)
  {
    if paths != [] {
      assert paths[0] in paths;
      PathStripped(paths[0]);
      FirstTruthyMeaning(paths[1..], ctx);
    }
  }

  lemma OrMeaning(paths: seq<string>, ctx: Context)
    requires paths != [] && forall p <- paths :: ValidPath(p)
    ensures EvaluateOr(SingleSpaced(paths), ctx) == FirstTruthyOf(paths, ctx)
  {
    forall i | 0 <= i < |paths| ensures ClosedWord(paths[i]) {
      PathShape(paths[i]);
    }
    SplitOfPrinted(paths, seq(|paths|, _ => 0));
    FirstTruthyMeaning(paths, ctx);
  }

  lemma JoinTagValue(rest: string, ctx: Context)
    ensures TagValue("join " + rest, ctx) == JoinTag(rest, ctx)
  {
    hide JoinTag;
    assert ("join " + rest)[5..] == rest;
  }

  lemma OrTagValue(rest: string, ctx: Context)
    ensures TagValue("or " + rest, ctx) == Ok(EvaluateOr(rest, ctx))
  {
    hide EvaluateOr;
    assert ("or " + rest)[3..] == rest && ("or " + rest)[0] == 'o';
  }

  lemma EqTagValue(rest: string, ctx: Context)
    ensures TagValue("eq " + rest, ctx) == OfComputed(EvaluateEq(rest, ctx), "true", "false")
  {
    hide EvaluateEq;
    assert ("eq " + rest)[3..] == rest && ("eq " + rest)[0] == 'e';
  }

  lemma AndTagValue(rest: string, ctx: Context)
    ensures TagValue("and " + rest, ctx) == OfComputed(EvaluateAnd(rest, ctx), "true", "")
  {
    hide EvaluateAnd;
    assert ("and " + rest)[4..] == rest && ("and " + rest)[0] == 'a';
  }

  lemma NotTagValue(p: string, ctx: Context)
    requires ValidPath(p)
    ensures TagValue("not " + p, ctx) == Ok(if Truthy(ctx, p) then "" else "true")
  {
    TrimTrimmed(p);
    hide Resolve, Trim;
    assert ("not " + p)[4..] == p && ("not " + p)[0] == 'n';
  }

  lemma VariableTagValue(p: string, ctx: Context)
    requires ValidPath(p)
    ensures TagValue(p, ctx) == Ok(Resolve(ctx, p))
  {
    hide Resolve;
  }

  lemma ExprMeaning(e: Expr, ctx: Context)
    requires ValidExpr(e)
    ensures TagValue(PrintExpr(e), ctx) == Ok(ExprValue(e, ctx))
  {
    hide SingleSpaced, Words, Text, JoinTag, EvaluateOr, EvaluateEq, EvaluateAnd, Resolve, TagValue;
    match e
    case Variable(p) => VariableTagValue(p, ctx);
    case JoinOf(p, sep) =>
      JoinMeaning(p, sep, ctx);
      JoinTagValue(SingleSpaced([p, "\"" + sep + "\""]), ctx);
    case FirstOf(ps) =>
      OrMeaning(ps, ctx);
      OrTagValue(SingleSpaced(ps), ctx);
    case Equal(a, b) =>
      EqEvaluates(a, b, ctx);
      EqTagValue(SingleSpaced([PrintOperand(a), PrintOperand(b)]), ctx);
    case AllOf(args) =>
      AndMeaning(args, ctx);
      AndTagValue(SingleSpaced(Words(args, false)), ctx);
    case Negated(p) => NotTagValue(p, ctx);
  }

  lemma AndMeaning(args: seq<Cond>, ctx: Context)
    requires ValidCond(And(args))
    ensures EvaluateAnd(SingleSpaced(Words(args, false)), ctx) == Value(forall a <- args :: Holds(a, ctx))
  {
    AndSplits(args, false);
    AllEvaluate(args, false, ctx);
  }

  // ----- The theorem -----

  /** The items that a `range` of the template runs over, which are written into its text, are free
      of `{`. Other values may hold any text. */
  ghost predicate PlainItems(t: Template, ctx: Context) {
    match t
    case Nil => true
    case Literally(_, next) => PlainItems(next, ctx)
    case Show(_, _, next) => PlainItems(next, ctx)
    case Dot(_, next) => PlainItems(next, ctx)
    case If(_, _, thn, els, next) =>
      PlainItems(thn, ctx) && (els.Some? ==> PlainItems(els.value, ctx)) && PlainItems(next, ctx)
    case Range(_, path, body, next) =>
      (forall item <- Iterable(ctx, path) :: '{' !in item) && PlainItems(body, ctx) && PlainItems(next, ctx)
  }

  /** Without `range` there is nothing to ask of the values. */
  lemma {:induction false} NoItems(t: Template, ctx: Context)
    requires Valid(t, false)
    ensures PlainItems(t, ctx)
  {
    match t
    case Nil =>
    case Literally(_, next) => NoItems(next, ctx);
    case Show(_, _, next) => NoItems(next, ctx);
    case Dot(_, next) => NoItems(next, ctx);
    case If(_, _, thn, els, next) =>
      NoItems(thn, ctx);
      if els.Some? {
        NoItems(els.value, ctx);
      }
      NoItems(next, ctx);
  }

  lemma {:induction false} SubstituteItems(t: Template, pad: Pad, item: string, ctx: Context)
    ensures PlainItems(Substitute(t, pad, item), ctx) <==> PlainItems(t, ctx)
  {
    match t
    case Nil =>
    case Literally(_, next) => SubstituteItems(next, pad, item, ctx);
    case Show(_, _, next) => SubstituteItems(next, pad, item, ctx);
    case Dot(_, next) => SubstituteItems(next, pad, item, ctx);
    case If(_, _, thn, els, next) =>
      SubstituteItems(thn, pad, item, ctx);
      if els.Some? {
        SubstituteItems(els.value, pad, item, ctx);
      }
      SubstituteItems(next, pad, item, ctx);
    case Range(_, _, body, next) =>
      SubstituteItems(body, pad, item, ctx);
      SubstituteItems(next, pad, item, ctx);
  }

  /** Expanding a printed template gives its value, and then whatever follows is expanded. */
  lemma {:induction false} ExpandPrinted(t: Template, rest: string, ctx: Context, frames: nat)
    requires Valid(t, true) && PlainItems(t, ctx) && Height(t) <= frames
    ensures Expand(Print(t) + rest, ctx, frames) == Prepend(Eval(t, ctx, None), Expand(rest, ctx, frames))
    decreases Size(t), 1
  {
    hide Expand, FromTag, PrintTag, Raw, Tag, PrintExpr, ExprValue, Resolve, Iterable, Holds, ValidExpr, Find;
    match t
    case Nil =>
      PrependNothing(Expand(rest, ctx, frames));
      assert "" + rest == rest;
    case Literally(s, next) =>
      ExpandPrinted(next, rest, ctx, frames);
      PendingText(s, Print(next) + rest, ctx, frames);
      PrependAgain(s, Eval(next, ctx, None), Expand(rest, ctx, frames));
      assert s + Print(next) + rest == s + (Print(next) + rest);
    case Show(pad, e, next) =>
      ExprIsPlain(pad, e);
      ExprTag(e);
      ExprMeaning(e, ctx);
      ExpandPrinted(next, rest, ctx, frames);
      ExpandPlain(Raw(pad, PrintExpr(e)), next, rest, ExprValue(e, ctx), ctx, frames);
      UnfoldTag(pad, PrintExpr(e));
    case Dot(pad, next) =>
      DotIsPlain(pad);
      DotOutside(ctx);
      ExpandPrinted(next, rest, ctx, frames);
      ExpandPlain(Raw(pad, "."), next, rest, "", ctx, frames);
      UnfoldTag(pad, ".");
    case If(pad, c, thn, els, next) =>
      ExpandIf(pad, c, thn, els, next, rest, ctx, frames);
    case Range(pad, path, body, next) =>
      ExpandRange(pad, path, body, next, rest, ctx, frames);
  }

  lemma PrependNothing(r: Outcome)
    ensures Prepend("", r) == r
  {
    assert r.Ok? ==> "" + r.text == r.text;
  }

  /** Text without `{` is copied, whatever follows it. */
  lemma PendingText(p: string, s: string, ctx: Context, frames: nat)
    requires '{' !in p
    ensures Expand(p + s, ctx, frames) == Prepend(p, Expand(s, ctx, frames))
  {
    TagLater(p, s);
    hide FromTag, Trim, FindTag;
    match FindTag(s)
    case Tagged(lit, raw, rest) => PrependAgain(p, lit, FromTag(Trim(raw), rest, ctx, frames));
    case _ =>
  }

  lemma TagLater(p: string, s: string)
    requires '{' !in p
    ensures FindTag(p + s) ==
      match FindTag(s)
      case Tagged(lit, raw, rest) => Tagged(p + lit, raw, rest)
      case t => t
  {
    OpensLater(p, s);
    hide Find;
    match Find(s, "{{")
    case None =>
    case Some(i) => SlicesLater(p, s, i);
  }

  lemma SlicesLater(p: string, s: string, i: nat)
    requires i + 2 <= |s|
    ensures (p + s)[|p| + i + 2..] == s[i + 2..] && (p + s)[..|p| + i] == p + s[..i]
  {}

  lemma OpensLater(p: string, s: string)
    requires '{' !in p
    ensures Find(p + s, "{{") == match Find(s, "{{") case None => None case Some(i) => Some(|p| + i)
  {
    forall j: nat ensures At(p + s, "{{", j) <==> j >= |p| && At(s, "{{", j - |p|) {
      AtPair(p + s, '{', '{', j);
      if j >= |p| {
        AtPair(s, '{', '{', j - |p|);
      } else if j < |p| {
        assert (p + s)[j] == p[j];
      }
    }
    match Find(s, "{{")
    case None =>
    case Some(i) => FindsAt(p + s, "{{", |p| + i);
  }

  lemma UnfoldTag(pad: Pad, inner: string)
    ensures Tag(pad, inner) == PrintTag(Raw(pad, inner))
  {}

  lemma DotOutside(ctx: Context)
    ensures TagValue(".", ctx) == Ok("")
  {
    TrimTrimmed(".");
    assert StripStart(".", '.') == "";
  }

  lemma ExpandAtTag(raw: string, rest: string, ctx: Context, frames: nat)
    requires NoBrace(raw)
    ensures Expand(PrintTag(raw) + rest, ctx, frames) == FromTag(Trim(raw), rest, ctx, frames)
  {
    TagAfterText("", raw, rest);
    hide FromTag, Trim, Find, PrintTag;
    assert "" + (PrintTag(raw) + rest) == PrintTag(raw) + rest;
    TagFound(PrintTag(raw) + rest, ctx, frames);
    PrependNothing(FromTag(Trim(raw), rest, ctx, frames));
  }

  /** What a block or tag contributes, and the template after it. */
  lemma ThenNext(r: Outcome, next: Template, rest: string, ctx: Context, frames: nat)
    requires r.Ok?
    requires Expand(Print(next) + rest, ctx, frames) == Prepend(Eval(next, ctx, None), Expand(rest, ctx, frames))
    ensures AfterBody(r, Print(next) + rest, ctx, frames)
         == Prepend(r.text + Eval(next, ctx, None), Expand(rest, ctx, frames))
  {
    hide Expand;
    PrependAgain(r.text, Eval(next, ctx, None), Expand(rest, ctx, frames));
  }

  lemma ExpandPlain(raw: string, next: Template, rest: string, value: string, ctx: Context, frames: nat)
    requires NoBrace(raw) && KindOf(raw) == Other && TagValue(Trim(raw), ctx) == Ok(value)
    requires Expand(Print(next) + rest, ctx, frames) == Prepend(Eval(next, ctx, None), Expand(rest, ctx, frames))
    ensures Expand(PrintTag(raw) + Print(next) + rest, ctx, frames)
         == Prepend(value + Eval(next, ctx, None), Expand(rest, ctx, frames))
  {
    KindNames(raw);
    hide Expand, FromTag, Trim, TagValue, KindOf, PrintTag, Print, Eval;
    assert PrintTag(raw) + Print(next) + rest == PrintTag(raw) + (Print(next) + rest);
    ExpandAtTag(raw, Print(next) + rest, ctx, frames);
    PlainTag(Trim(raw), Print(next) + rest, ctx, frames);
    ThenNext(Ok(value), next, rest, ctx, frames);
  }

  lemma {:induction false} ExpandIf(pad: Pad, c: Cond, thn: Template, els: Option<Template>, next: Template,
                                    rest: string,
                                    ctx: Context, frames: nat)
    requires var t := If(pad, c, thn, els, next); Valid(t, true) && PlainItems(t, ctx) && Height(t) <= frames
    ensures var t := If(pad, c, thn, els, next);
      Expand(Print(t) + rest, ctx, frames) == Prepend(Eval(t, ctx, None), Expand(rest, ctx, frames))
    decreases Size(If(pad, c, thn, els, next)), 0
  {
    hide Expand, FromTag, PrintTag, Raw, Tag, Holds, Text, Condition, IfBlockOf, Choose, PrintCond, Trim, Iterable;
    var inner, N := "if " + PrintCond(c), Print(next) + rest;
    var block := Print(thn) + (PrintElse(pad, els) + (Tag(pad, "end") + N));
    IfOpens(pad, c);
    UnfoldTag(pad, inner);
    ConditionTrims(c, ctx);
    IfBlockPrinted(pad, thn, els, N);
    ExpandAtTag(Raw(pad, inner), block, ctx, frames);
    IfTag(inner, block, ctx, frames);
    ChosenBranch(c, thn, els, N, ctx, frames);
    ExpandPrinted(next, rest, ctx, frames);
    ThenNext(Ok(Branch(c, thn, els, ctx)), next, rest, ctx, frames);
    BlockText(Tag(pad, inner), Print(thn), PrintElse(pad, els), Tag(pad, "end"), Print(next), rest);
  }

  lemma BlockText(open: string, body: string, mid: string, end: string, N: string, rest: string)
    ensures open + (body + (mid + (end + N))) + rest == open + (body + (mid + (end + (N + rest))))
    ensures open + (body + (end + N)) + rest == open + (body + (end + (N + rest)))
  {}

  function Branch(c: Cond, thn: Template, els: Option<Template>, ctx: Context): string {
    if Holds(c, ctx) then Eval(thn, ctx, None)
    else if els.Some? then Eval(els.value, ctx, None)
    else ""
  }

  lemma {:induction false} ChosenBranch(c: Cond, thn: Template, els: Option<Template>, N: string, ctx: Context,
                                        frames: nat)
    requires Valid(thn, false) && (els.Some? ==> Valid(els.value, false))
    requires Height(thn) < frames && (els.Some? ==> Height(els.value) < frames)
    ensures var b := IfBlock(Print(thn), if els.Some? then Some(Print(els.value)) else None, N);
      Choose(Value(Holds(c, ctx)), b, ctx, frames) == Ok(Branch(c, thn, els, ctx))
    decreases Size(thn) + (match els case None => 0 case Some(e) => Size(e)), 4
  {
    hide Expand, Holds, Print, Eval;
    if Holds(c, ctx) {
      ExpandWhole(thn, ctx, frames - 1);
    } else if els.Some? {
      ExpandWhole(els.value, ctx, frames - 1);
    }
  }

  /** A template without `range`, on its own. */
  lemma {:induction false} ExpandWhole(t: Template, ctx: Context, frames: nat)
    requires Valid(t, false) && Height(t) <= frames
    ensures Expand(Print(t), ctx, frames) == Ok(Eval(t, ctx, None))
    decreases Size(t), 3
  {
    ValidWeakens(t);
    NoItems(t, ctx);
    ExpandAlone(t, ctx, frames);
  }

  lemma {:induction false} ExpandAlone(t: Template, ctx: Context, frames: nat)
    requires Valid(t, true) && PlainItems(t, ctx) && Height(t) <= frames
    ensures Expand(Print(t), ctx, frames) == Ok(Eval(t, ctx, None))
    decreases Size(t), 2
  {
    hide Print, Eval, Expand, Valid, PlainItems, Height;
    ExpandPrinted(t, "", ctx, frames);
    EmptyText(ctx, frames);
    assert Print(t) + "" == Print(t);
    assert Eval(t, ctx, None) + "" == Eval(t, ctx, None);
  }

  lemma ConditionTrims(c: Cond, ctx: Context)
    requires ValidCond(c)
    ensures "if " <= "if " + PrintCond(c)
    ensures Condition(Trim(("if " + PrintCond(c))[3..]), ctx) == Value(Holds(c, ctx))
  {
    TextTrimmed(c);
    ConditionMeaning(c, ctx);
    hide Text, Condition;
    assert ("if " + PrintCond(c))[3..] == PrintCond(c);
    TrimTrimmed(PrintCond(c));
  }

  lemma {:induction false} ExpandRange(pad: Pad, path: string, body: Template, next: Template, rest: string,
                                       ctx: Context, frames: nat)
    requires var t := Range(pad, path, body, next); Valid(t, true) && PlainItems(t, ctx) && Height(t) <= frames
    ensures var t := Range(pad, path, body, next);
      Expand(Print(t) + rest, ctx, frames) == Prepend(Eval(t, ctx, None), Expand(rest, ctx, frames))
    decreases Size(Range(pad, path, body, next)), 0
  {
    hide Expand, FromTag, PrintTag, Raw, Tag, RangeBlockOf, Iterable, Repeat, Trim;
    var inner, N := "range " + path, Print(next) + rest;
    var block := Print(body) + (Tag(pad, "end") + N);
    RangeOpens(pad, path);
    UnfoldTag(pad, inner);
    RangeTrims(path);
    RangeBlockPrinted(pad, body, N);
    ExpandAtTag(Raw(pad, inner), block, ctx, frames);
    RangeTag(inner, block, ctx, frames);
    RepeatPrinted(body, Iterable(ctx, path), ctx, frames);
    ExpandPrinted(next, rest, ctx, frames);
    ThenNext(Ok(EvalItems(body, Iterable(ctx, path), ctx, None)), next, rest, ctx, frames);
    BlockText(Tag(pad, inner), Print(body), "", Tag(pad, "end"), Print(next), rest);
  }

  lemma RangeTrims(path: string)
    requires ValidPath(path)
    ensures "range " <= "range " + path && Trim(("range " + path)[6..]) == path
  {
    assert ("range " + path)[6..] == path;
    TrimTrimmed(path);
  }

  lemma {:induction false} RepeatPrinted(body: Template, items: seq<string>, ctx: Context, frames: nat)
    requires Valid(body, true) && PlainItems(body, ctx) && Height(body) < frames
    requires forall item <- items :: '{' !in item
    ensures Repeat(Print(body), items, ctx, frames) == Ok(EvalItems(body, items, ctx, None))
    decreases Size(body), 3 + |items|
  {
    hide Expand, PlainItems, WithItem, WriteItem, Size, Height, Valid, Print, Eval;
    if items != [] {
      var item := items[0];
      var written := WriteItem(body, item);
      WriteItemKeeps(body, item, ctx);
      WithItemPrinted(body, item);
      ExpandAlone(written, ctx, frames - 1);
      EvalWritten(body, item, ctx, None);
      RepeatPrinted(body, items[1..], ctx, frames);
    }
  }

  lemma WriteItemKeeps(t: Template, item: string, ctx: Context)
    requires Valid(t, true) && PlainItems(t, ctx) && '{' !in item
    ensures var u := WriteItem(t, item);
      Valid(u, true) && PlainItems(u, ctx) && Size(u) == Size(t) && Height(u) == Height(t)
  {
    var once := Substitute(t, Spaced, item);
    SubstituteKeeps(t, Spaced, item, true);
    SubstituteItems(t, Spaced, item, ctx);
    SubstituteKeeps(once, Tight, item, true);
    SubstituteItems(once, Tight, item, ctx);
  }

  /** Template meaning: for every well-formed template and every context in which the items of its
      ranges are free of `{`, expansion succeeds and gives the template's value, on any call stack at
      least as deep as the blocks are nested. */
  lemma MeaningOfTemplates(t: Template, ctx: Context, frames: nat)
    requires Valid(t, true) && PlainItems(t, ctx) && Height(t) <= frames
    ensures Expand(Print(t), ctx, frames) == Ok(Eval(t, ctx, None))
  {
    ExpandAlone(t, ctx, frames);
  }
}
