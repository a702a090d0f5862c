/** Templates outside the well-formed ones: values that spell out tags, and `range` below `if`, with
    the exact condition under which such a template still has its value. */
module TemplateLimits {
  import opened Wrappers
  import opened Strings
  import opened TemplateContext
  import opened TemplateArguments
  import opened TemplateConditions
  import opened TemplateBlocks
  import opened TemplateExpand
  import opened TemplateSyntax
  import opened TemplateMeaning

  // ----- Values with braces -----

  const LOOP := Range(Tight, ".Categories", Dot(Tight, Nil), Nil)

  /** A category that spells out the template which lists it: no call stack is deep enough. This is
      why termination needs values without `{`. */
  lemma {:induction false} BracesDiverge(ctx: Context, frames: nat)
    requires ctx.categories == [Print(LOOP)]
    ensures Expand(Print(LOOP), ctx, frames) == Overflow
    decreases frames
  {
    hide Expand, FromTag, RangeBlockOf, WithItem, Replace, PrintTag, Raw, Find, Print, Iterable, Tag, NoBrace, Trim;
    var inner, body := "range .Categories", Print(Dot(Tight, Nil));
    var rest := body + (Tag(Tight, "end") + "");
    LoopText();
    ExpandAtTag(Raw(Tight, inner), rest, ctx, frames);
    RangeTag(inner, rest, ctx, frames);
    CategoriesItems(ctx);
    DotReplaced(Print(LOOP));
    if frames > 0 {
      BracesDiverge(ctx, frames - 1);
    }
    assert Recurse(WithItem(body, Print(LOOP)), ctx, frames) == Overflow;
  }

  lemma LoopText()
    ensures var inner, rest := "range .Categories", Print(Dot(Tight, Nil)) + (Tag(Tight, "end") + "");
      && Print(LOOP) == PrintTag(Raw(Tight, inner)) + rest
      && NoBrace(Raw(Tight, inner)) && Trim(Raw(Tight, inner)) == inner
      && RangeBlockOf(rest) == Some(RangeBlock(Print(Dot(Tight, Nil)), ""))
  {
    hide RangeBlockOf, Trim, PrintTag, Raw, NoBrace, ValidPath;
    PathIsValid();
    RangeOpens(Tight, ".Categories");
    assert "range " + ".Categories" == "range .Categories";
    RangeBlockPrinted(Tight, Dot(Tight, Nil), "");
    var rest := Print(Dot(Tight, Nil)) + (Tag(Tight, "end") + "");
    assert Print(LOOP) == Tag(Tight, "range .Categories") + rest;
  }

  lemma PathIsValid()
    ensures ValidPath(".Categories") && NoBrace(".Categories")
  {}

  lemma CategoriesItems(ctx: Context)
    ensures Iterable(ctx, Trim("range .Categories"[6..])) == ctx.categories
  {
    hide Resolve, Lower;
    assert "range .Categories"[6..] == ".Categories";
    TrimTrimmed(".Categories");
    hide Trim;
    assert ".Categories"[1..] == "Categories";
    LowerCategories();
  }

  lemma LowerCategories()
    ensures Lower("Categories") == "categories"
  {
    LowerAt("Categories");
    hide Lower;
  }

  /** A body that is only a dot becomes the item. */
  lemma DotReplaced(item: string)
    ensures WithItem(Print(Dot(Tight, Nil)), item) == item
  {
    hide Replace, Raw, PrintTag;
    var dot := Tag(Tight, ".");
    DotIsPlain(Tight);
    DotIsPlain(Spaced);
    ReplaceTag(Raw(Tight, "."), "", Spaced, item);
    ReplaceTag(Raw(Tight, "."), "", Tight, item);
    PadsDiffer(Tight, Spaced);
    EmptyReplaced(item);
    assert dot + "" == dot && item + "" == item;
    assert DotText(Spaced) == "{{ . }}" && DotText(Tight) == "{{.}}" by { DotTexts(); }
  }

  lemma DotTexts()
    ensures DotText(Spaced) == "{{ . }}" && DotText(Tight) == "{{.}}"
  {}

  lemma EmptyReplaced(item: string)
    ensures Replace("", DotText(Spaced), item) == "" && Replace("", DotText(Tight), item) == ""
  {}

  /** The parts of `t`, then those of `u`. */
  function Append(t: Template, u: Template): Template {
    match t
    case Nil => u
    case Literally(s, next) => Literally(s, Append(next, u))
    case Show(pad, e, next) => Show(pad, e, Append(next, u))
    case Dot(pad, next) => Dot(pad, Append(next, u))
    case If(pad, c, thn, els, next) => If(pad, c, thn, els, Append(next, u))
    case Range(pad, path, body, next) => Range(pad, path, body, Append(next, u))
  }

  lemma {:induction false} AppendPrinted(t: Template, u: Template)
    ensures Print(Append(t, u)) == Print(t) + Print(u)
  {
    hide Tag, PrintExpr, PrintElse, PrintCond;
    match t
    case Nil => MoveText("", "", "", Print(u));
    case Literally(s, next) =>
      AppendPrinted(next, u);
      MoveText("", s, Print(next), Print(u));
    case Show(pad, e, next) =>
      AppendPrinted(next, u);
      ShowAppended(pad, e, next, u);
    case Dot(pad, next) =>
      AppendPrinted(next, u);
      MoveText("", Tag(pad, "."), Print(next), Print(u));
    case If(pad, c, thn, els, next) =>
      AppendPrinted(next, u);
      IfAppended(pad, c, thn, els, next, u);
    case Range(pad, path, body, next) =>
      AppendPrinted(next, u);
      RangeAppended(pad, path, body, next, u);
  }

  lemma ShowAppended(pad: Pad, e: Expr, next: Template, u: Template)
    requires Print(Append(next, u)) == Print(next) + Print(u)
    ensures Print(Append(Show(pad, e, next), u)) == Print(Show(pad, e, next)) + Print(u)
  {
    hide Tag, PrintExpr;
    MoveText("", Tag(pad, PrintExpr(e)), Print(next), Print(u));
  }

  lemma IfAppended(pad: Pad, c: Cond, thn: Template, els: Option<Template>, next: Template, u: Template)
    requires Print(Append(next, u)) == Print(next) + Print(u)
    ensures Print(Append(If(pad, c, thn, els, next), u)) == Print(If(pad, c, thn, els, next)) + Print(u)
  {
    hide Tag, PrintElse, PrintCond;
    BlockText(Tag(pad, "if " + PrintCond(c)), Print(thn), PrintElse(pad, els), Tag(pad, "end"), Print(next), Print(u));
  }

  lemma RangeAppended(pad: Pad, path: string, body: Template, next: Template, u: Template)
    requires Print(Append(next, u)) == Print(next) + Print(u)
    ensures Print(Append(Range(pad, path, body, next), u)) == Print(Range(pad, path, body, next)) + Print(u)
  {
    hide Tag;
    BlockText(Tag(pad, "range " + path), Print(body), "", Tag(pad, "end"), Print(next), Print(u));
  }

  // ----- The first end of a template -----

  /** Whether there is a `range`; below an `if` there is none in a well-formed template. */
  predicate HasRange(t: Template) {
    match t
    case Nil => false
    case Literally(_, next) => HasRange(next)
    case Show(_, _, next) => HasRange(next)
    case Dot(_, next) => HasRange(next)
    case If(_, _, _, _, next) => HasRange(next)
    case Range(_, _, _, _) => true
  }

  lemma {:induction false} WithoutRange(t: Template)
    requires Valid(t, true) && !HasRange(t)
    ensures Valid(t, false)
  {
    match t
    case Nil =>
    case Literally(_, next) => WithoutRange(next);
    case Show(_, _, next) => WithoutRange(next);
    case Dot(_, next) => WithoutRange(next);
    case If(_, _, _, _, next) => WithoutRange(next);
  }

  /** The parts before the first `range`. */
  function Before(t: Template): Template
    requires HasRange(t)
  {
    match t
    case Literally(s, next) => Literally(s, Before(next))
    case Show(pad, e, next) => Show(pad, e, Before(next))
    case Dot(pad, next) => Dot(pad, Before(next))
    case If(pad, c, thn, els, next) => If(pad, c, thn, els, Before(next))
    case Range(_, _, _, _) => Nil
  }

  /** The first `range`, with all that follows it. */
  function FirstRange(t: Template): (r: Template)
    requires HasRange(t)
    ensures r.Range? && Size(r) <= Size(t)
  {
    match t
    case Literally(_, next) => FirstRange(next)
    case Show(_, _, next) => FirstRange(next)
    case Dot(_, next) => FirstRange(next)
    case If(_, _, _, _, next) => FirstRange(next)
    case Range(_, _, _, _) => t
  }

  lemma {:induction false} AtFirstRange(t: Template)
    requires HasRange(t) && Valid(t, true)
    ensures t == Append(Before(t), FirstRange(t))
    ensures Valid(Before(t), false) && Valid(FirstRange(t), true) && Height(Before(t)) <= Height(t)
  {
    match t
    case Literally(_, next) => AtFirstRange(next);
    case Show(_, _, next) => AtFirstRange(next);
    case Dot(_, next) => AtFirstRange(next);
    case If(_, _, _, _, next) => AtFirstRange(next);
    case Range(_, _, _, _) =>
  }

  /** Templates one after the other, with stray `end` tags between them. */
  datatype Part = Part(pad: Pad, t: Template)

  datatype List = List(first: Template, more: seq<Part>)

  function ListText(l: List): string
    decreases |l.more|
  {
    Print(l.first)
    + if l.more == [] then "" else Tag(l.more[0].pad, "end") + ListText(List(l.more[0].t, l.more[1..]))
  }

  function ListValue(l: List, ctx: Context): string
    decreases |l.more|
  {
    Eval(l.first, ctx, None) + if l.more == [] then "" else ListValue(List(l.more[0].t, l.more[1..]), ctx)
  }

  /** The text up to the first `end` of a `range`: every `range` around that `end` is left open. */
  function Head(t: Template): string
    requires HasRange(t)
    decreases Size(t), 0
  {
    var r := FirstRange(t);
    Print(Before(t)) + (Tag(r.pad, "range " + r.path) + Opened(r.body))
  }

  /** A template as far as its first `end`. */
  function Opened(t: Template): string
    decreases Size(t), 1
  {
    if HasRange(t) then Head(t) else Print(t)
  }

  function EndPad(t: Template): Pad
    requires HasRange(t)
    decreases Size(t)
  {
    var r := FirstRange(t);
    if HasRange(r.body) then EndPad(r.body) else r.pad
  }

  /** What follows that first `end`: for each `range` around it, the rest of the template it is in. */
  function AfterEnd(t: Template): List
    requires HasRange(t)
    decreases Size(t)
  {
    var r := FirstRange(t);
    if HasRange(r.body) then
      var inner := AfterEnd(r.body);
      List(inner.first, inner.more + [Part(r.pad, r.next)])
    else List(r.next, [])
  }

  lemma {:induction false} TextSnoc(l: List, p: Part)
    ensures ListText(List(l.first, l.more + [p])) == ListText(l) + (Tag(p.pad, "end") + Print(p.t))
    decreases |l.more|
  {
    hide Print, Tag;
    var last := Tag(p.pad, "end") + Print(p.t);
    if l.more == [] {
      assert ListText(List(p.t, [])) == Print(p.t) + "" == Print(p.t);
      assert ([] + [p])[1..] == [];
      assert Print(l.first) + "" + last == Print(l.first) + last;
    } else {
      var rest := List(l.more[0].t, l.more[1..]);
      TextSnoc(rest, p);
      assert (l.more + [p])[1..] == l.more[1..] + [p];
      assert Print(l.first) + (Tag(l.more[0].pad, "end") + (ListText(rest) + last))
          == Print(l.first) + (Tag(l.more[0].pad, "end") + ListText(rest)) + last;
    }
  }

  lemma {:induction false} CutAtEnd(t: Template)
    requires HasRange(t) && Valid(t, true)
    ensures Print(t) == Head(t) + (Tag(EndPad(t), "end") + ListText(AfterEnd(t)))
    decreases Size(t)
  {
    AtFirstRange(t);
    var r := FirstRange(t);
    AppendPrinted(Before(t), r);
    hide Tag, Valid;
    var B, open, end := Print(Before(t)), Tag(r.pad, "range " + r.path), Tag(r.pad, "end");
    if HasRange(r.body) {
      var inner := AfterEnd(r.body);
      AtFirstRange(t);
      CutInBody(t);
      TextSnoc(inner, Part(r.pad, r.next));
      CutText(B, open, Head(r.body), Tag(EndPad(r.body), "end"), ListText(inner), end + Print(r.next));
    } else {
      assert ListText(List(r.next, [])) == Print(r.next) + "" == Print(r.next);
      CutText(B, open, Print(r.body), end, Print(r.next), "");
      assert Print(r.next) + "" == Print(r.next) && Print(r.body) + (end + Print(r.next)) + "" == Print(r.body)
          + (end + Print(r.next));
    }
  }

  lemma {:induction false} CutInBody(t: Template)
    requires HasRange(t) && Valid(FirstRange(t), true) && HasRange(FirstRange(t).body)
    ensures var b := FirstRange(t).body; Print(b) == Head(b) + (Tag(EndPad(b), "end") + ListText(AfterEnd(b)))
    decreases Size(t), 0
  {
    CutAtEnd(FirstRange(t).body);
  }

  lemma CutText(B: string, open: string, head: string, e: string, rest: string, last: string)
    ensures B + (open + (head + (e + rest) + last)) == B + (open + head) + (e + (rest + last))
  {}

  // ----- Its tags, for the matcher of if -----

  /** After the pending text `p`, the text `s` has the tags `segs`, which leave the depth of the matcher
      of `if` as it was, and `q` is pending after it. */
  ghost predicate Covers(p: string, s: string, after: string, segs: seq<Seg>, q: string) {
    && Segs(p + (s + after)) == segs + Segs(q + after)
    && Tail(p + (s + after)) == Tail(q + after)
    && Flat(segs) + q == p + s
    && '{' !in q
    && Neutral(segs, false)
  }

  lemma CoverTemplate(p: string, t: Template, after: string) returns (segs: seq<Seg>, q: string)
    requires '{' !in p && Valid(t, false)
    ensures Covers(p, Print(t), after, segs, q)
  {
    hide Segs, Tail, Flat, Neutral, Print, Valid;
    segs, q := ScanTemplate(p, t, after, false);
  }

  lemma CoverJoin(p: string, s: string, u: string, after: string, a: seq<Seg>, q1: string, b: seq<Seg>, q: string)
    requires Covers(p, s, u + after, a, q1) && Covers(q1, u, after, b, q)
    ensures Covers(p, s + u, after, a + b, q)
  {
    hide Segs, Tail, Flat, Neutral;
    NeutralConcat(a, b, false);
    FlatConcat(a, b);
    MoveAfter(p, s, u, after);
    JoinSegs(a, b, Segs(q + after));
    JoinText(p, s, u, Flat(a), q1, Flat(b), q);
  }

  lemma MoveAfter(p: string, s: string, u: string, after: string)
    ensures p + (s + u + after) == p + (s + (u + after))
  {}

  lemma JoinSegs(a: seq<Seg>, b: seq<Seg>, c: seq<Seg>)
    ensures a + (b + c) == a + b + c
  {}

  lemma JoinText(p: string, s: string, u: string, fa: string, q1: string, fb: string, q: string)
    requires fa + q1 == p + s && fb + q == q1 + u
    ensures fa + fb + q == p + (s + u)
  {
    assert fa + fb + q == fa + (fb + q);
    assert fa + (q1 + u) == (fa + q1) + u;
    assert (p + s) + u == p + (s + u);
  }

  /** A tag that the matcher of `if` does not count. */
  lemma CoverTag(p: string, raw: string, after: string)
    requires '{' !in p && NoBrace(raw) && KindOf(raw) == RangeOpener
    ensures Covers(p, PrintTag(raw), after, [Seg(p, raw)], "")
  {
    ScanTag(p, raw, after);
    NotAnOpener(Seg(p, raw));
    FlatCons(Seg(p, raw), []);
    hide Segs, Tail, Neutral, PrintTag, KindOf;
    assert "" + after == after;
    assert Flat([]) == "" && [Seg(p, raw)] + [] == [Seg(p, raw)];
    assert p + PrintTag(raw) + "" + "" == p + PrintTag(raw);
  }

  lemma NotAnOpener(g: Seg)
    requires KindOf(g.raw) == RangeOpener
    ensures Neutral([g], false)
  {
    hide KindOf, Net;
    NetOne(g, false);
    NothingDone();
    assert [g][..1] == [g] && [g][..0] == [];
  }

  lemma {:induction false} CoverHead(p: string, t: Template, after: string) returns (segs: seq<Seg>, q: string)
    requires '{' !in p && Valid(t, true) && HasRange(t)
    ensures Covers(p, Head(t), after, segs, q)
    decreases Size(t), 0
  {
    AtFirstRange(t);
    var r := FirstRange(t);
    RangeOpens(r.pad, r.path);
    hide Covers, PrintTag, Raw, KindOf, NoBrace;
    var raw := Raw(r.pad, "range " + r.path);
    var inner := Opened(r.body);
    var a, q1 := CoverTemplate(p, Before(t), PrintTag(raw) + inner + after);
    assert '{' !in q1 by { PendingAfter(p, Print(Before(t)), PrintTag(raw) + inner + after, a, q1); }
    CoverTag(q1, raw, inner + after);
    var b;
    b, q := CoverOpened(r.body, after);
    CoverJoin(q1, PrintTag(raw), inner, after, [Seg(q1, raw)], "", b, q);
    CoverJoin(p, Print(Before(t)), PrintTag(raw) + inner, after, a, q1, [Seg(q1, raw)] + b, q);
    segs := a + ([Seg(q1, raw)] + b);
    UnfoldTag(r.pad, "range " + r.path);
  }

  lemma PendingAfter(p: string, s: string, after: string, segs: seq<Seg>, q: string)
    requires Covers(p, s, after, segs, q)
    ensures '{' !in q
  {}

  lemma {:induction false} CoverOpened(t: Template, after: string) returns (segs: seq<Seg>, q: string)
    requires Valid(t, true)
    ensures Covers("", Opened(t), after, segs, q)
    decreases Size(t), 1
  {
    if HasRange(t) {
      segs, q := CoverHead("", t, after);
    } else {
      WithoutRange(t);
      segs, q := CoverTemplate("", t, after);
    }
  }

  /** A branch that is cut at the first `end` of a `range` in it. */
  lemma CutBranch(s: string, endPad: Pad, more: string, segs: seq<Seg>, q: string)
    requires Covers("", s, Tag(endPad, "end") + more, segs, q)
    ensures IfBlockOf(s + (Tag(endPad, "end") + more)) == Some(IfBlock(s, None, more))
  {
    BlockTags(endPad);
    hide Segs, Tail, Flat, Neutral, PrintTag, KindOf, IfBlockOf, Raw, NoBrace;
    NeutralUntilEnd(s, Raw(endPad, "end"), more, segs, q);
  }

  lemma CutElse(thn: Template, elsePad: Pad, t: Template, endPad: Pad, more: string)
    requires Valid(thn, false) && Valid(t, true) && HasRange(t)
    ensures IfBlockOf(Print(thn) + (Tag(elsePad, "else") + Head(t) + (Tag(endPad, "end") + more)))
      == Some(IfBlock(Print(thn), Some(Head(t)), more))
  {
    BlockTags(elsePad);
    BlockTags(endPad);
    hide Segs, Tail, Flat, Neutral, PrintTag, KindOf, IfBlockOf, Raw, NoBrace, Print, Valid, Head;
    var mid, end := Raw(elsePad, "else"), Raw(endPad, "end");
    var after := PrintTag(end) + more;
    var d, q2 := CoverHead("", t, after);
    var a, q1 := ScanTemplate("", thn, PrintTag(mid) + ("" + (Head(t) + after)), false);
    NeutralAroundElse(Print(thn), mid, Head(t), end, more, a, q1, d, q2);
  }

  // ----- A range that is left open -----

  /** To the matcher of `range`, a template cut at its first `end` never closes more than it opens. */
  lemma {:induction false} OpenTags(p: string, t: Template) returns (segs: seq<Seg>)
    requires '{' !in p && Valid(t, true)
    ensures Segs(p + Opened(t)) == segs && NeverBelow(segs, |segs|, true)
    decreases Size(t)
  {
    if HasRange(t) {
      AtFirstRange(t);
      ValidWeakens(Before(t));
      var r := FirstRange(t);
      RangeOpens(r.pad, r.path);
      var raw := Raw(r.pad, "range " + r.path);
      var inner := OpenTags("", r.body);
      UnfoldTag(r.pad, "range " + r.path);
      var rest := PrintTag(raw) + Opened(r.body);
      var a, q := ScanTemplate(p, Before(t), rest, true);
      assert "" + Opened(r.body) == Opened(r.body);
      var g := Seg(q, raw);
      hide Segs, Tail, Flat, PrintTag, Raw, KindOf, Net, NoBrace, Valid, FindTag;
      ScanTag(q, raw, Opened(r.body));
      segs := a + ([g] + inner);
      OpenerFirst(a, g, inner);
      assert a + ([g] + Segs(Opened(r.body))) == segs;
    } else {
      var q;
      segs, q := ScanTemplate(p, t, "", true);
      hide Segs, Tail, Flat, Net;
      assert p + (Print(t) + "") == p + Print(t) && q + "" == q;
      NoSegs(q);
      assert segs + [] == segs;
    }
  }

  lemma OpenerFirst(a: seq<Seg>, g: Seg, b: seq<Seg>)
    requires Neutral(a, true) && KindOf(g.raw) == RangeOpener && NeverBelow(b, |b|, true)
    ensures NeverBelow(a + ([g] + b), |a + ([g] + b)|, true)
  {
    var gb := [g] + b;
    NetOne(g, true);
    hide Net, KindOf;
    NothingDone();
    forall j | 0 <= j <= |gb| ensures Net(a, true) + Net(gb[..j], true) >= 0 {
      if j == 0 {
        assert gb[..0] == [];
      } else {
        assert gb[..j] == [g] + b[..j - 1];
        NetConcat([g], b[..j - 1], true);
      }
    }
    NeverBelowConcat(a, gb, true);
  }

  lemma NoSegs(q: string)
    requires '{' !in q
    ensures Segs(q) == []
  {
    TextWithoutTags(q);
  }

  /** In a branch cut out this way the `range` has no `end`. */
  lemma RangeNeverEnds(t: Template, ctx: Context, frames: nat)
    requires Valid(t, true) && HasRange(t) && Height(Before(t)) <= frames
    ensures Expand(Head(t), ctx, frames) == Err(UnterminatedRange)
  {
    AtFirstRange(t);
    var r := FirstRange(t);
    RangeOpens(r.pad, r.path);
    ValidWeakens(Before(t));
    NoItems(Before(t), ctx);
    hide Segs, Tail, Flat, PrintTag, Print, KindOf, RangeBlockOf, Neutral, NoBrace, FindTag, Raw, Expand, FromTag,
      Trim, Eval;
    var tag := "range " + r.path;
    ExpandPrinted(Before(t), Tag(r.pad, tag) + Opened(r.body), ctx, frames);
    ExpandAtTag(Raw(r.pad, tag), Opened(r.body), ctx, frames);
    UnfoldTag(r.pad, tag);
    RangeTag(tag, Opened(r.body), ctx, frames);
    var segs := OpenTags("", r.body);
    assert "" + Opened(r.body) == Opened(r.body);
    NoBlock(Opened(r.body), segs, true);
  }

  // ----- A range below an if -----

  lemma IfAtTag(pad: Pad, c: Cond, block: string, ctx: Context, frames: nat)
    requires ValidCond(c) && NoBrace(PrintCond(c)) && IfBlockOf(block).Some?
    ensures var b := IfBlockOf(block).value;
      Expand(Tag(pad, "if " + PrintCond(c)) + block, ctx, frames)
      == AfterBody(Choose(Value(Holds(c, ctx)), b, ctx, frames), b.rest, ctx, frames)
  {
    hide Expand, FromTag, IfBlockOf, PrintTag, Raw, ListText, Holds, Trim, Condition, Choose;
    var tag := "if " + PrintCond(c);
    IfOpens(pad, c);
    UnfoldTag(pad, tag);
    ExpandAtTag(Raw(pad, tag), block, ctx, frames);
    IfTag(tag, block, ctx, frames);
    ConditionTrims(c, ctx);
  }

  /** A branch of an `if` with a `range` in it, however deeply ranges are nested and whatever follows: if
      the condition holds, the expansion fails; otherwise everything after the first `end` of a `range`
      is expanded. */
  lemma RangeUnderIf(pad: Pad, c: Cond, branch: Template, endPad: Pad, more: string, ctx: Context, frames: nat)
    requires ValidCond(c) && NoBrace(PrintCond(c))
    requires Valid(branch, true) && HasRange(branch) && Height(Before(branch)) < frames
    ensures Expand(Tag(pad, "if " + PrintCond(c)) + (Head(branch) + (Tag(endPad, "end") + more)), ctx, frames)
      == if Holds(c, ctx) then Err(UnterminatedRange) else Expand(more, ctx, frames)
  {
    hide Expand, IfBlockOf, Tag, Text, Holds, Head, Valid, Covers;
    var segs, q := CoverHead("", branch, Tag(endPad, "end") + more);
    CutBranch(Head(branch), endPad, more, segs, q);
    IfAtTag(pad, c, Head(branch) + (Tag(endPad, "end") + more), ctx, frames);
    RangeNeverEnds(branch, ctx, frames - 1);
    PrependNothing(Expand(more, ctx, frames));
  }

  /** A tag that was not consumed by a block is skipped. */
  lemma StrayTag(pad: Pad, word: string, rest: string, ctx: Context, frames: nat)
    requires word == "else" || word == "end"
    ensures Expand(Tag(pad, word) + rest, ctx, frames) == Expand(rest, ctx, frames)
  {
    hide Expand, FromTag, PrintTag, Raw, Trim, KindOf, TagValue, NoBrace, AfterBody;
    StrayValue(word, ctx);
    BlockTags(pad);
    KindNames(Raw(pad, word));
    UnfoldTag(pad, word);
    ExpandAtTag(Raw(pad, word), rest, ctx, frames);
    PlainTag(word, rest, ctx, frames);
    AfterNothing(rest, ctx, frames);
  }

  lemma AfterNothing(rest: string, ctx: Context, frames: nat)
    ensures AfterBody(Ok(""), rest, ctx, frames) == Expand(rest, ctx, frames)
  {
    hide Expand;
    PrependNothing(Expand(rest, ctx, frames));
  }

  lemma StrayValue(word: string, ctx: Context)
    requires word == "else" || word == "end"
    ensures !("if " <= word) && !("range " <= word) && TagValue(word, ctx) == Ok("")
  {
    assert word[0] == 'e';
    assert !("eq " <= word) by { assert word[1] != 'q'; }
  }

  /** A template that is expanded on its own. */
  ghost predicate Alone(t: Template, ctx: Context, frames: nat) {
    Valid(t, true) && PlainItems(t, ctx) && Height(t) <= frames
  }

  ghost predicate AllAlone(l: List, ctx: Context, frames: nat) {
    Alone(l.first, ctx, frames) && forall p <- l.more :: Alone(p.t, ctx, frames)
  }

  /** Stray `end` tags are skipped: a list comes to the values of its templates. */
  lemma {:induction false} ExpandList(l: List, rest: string, ctx: Context, frames: nat)
    requires AllAlone(l, ctx, frames)
    ensures Expand(ListText(l) + rest, ctx, frames) == Prepend(ListValue(l, ctx), Expand(rest, ctx, frames))
    decreases |l.more|
  {
    hide Expand, Tag, Print, Eval, Valid, PlainItems, Height;
    var R := Expand(rest, ctx, frames);
    if l.more == [] {
      ExpandPrinted(l.first, rest, ctx, frames);
      assert Print(l.first) + "" == Print(l.first) && Eval(l.first, ctx, None) + "" == Eval(l.first, ctx, None);
    } else {
      var p, others := l.more[0], List(l.more[0].t, l.more[1..]);
      assert p in l.more && forall o <- others.more :: o in l.more;
      ExpandList(others, rest, ctx, frames);
      StrayTag(p.pad, "end", ListText(others) + rest, ctx, frames);
      ExpandPrinted(l.first, Tag(p.pad, "end") + (ListText(others) + rest), ctx, frames);
      PrependAgain(Eval(l.first, ctx, None), ListValue(others, ctx), R);
      assert Print(l.first) + (Tag(p.pad, "end") + ListText(others)) + rest
          == Print(l.first) + (Tag(p.pad, "end") + (ListText(others) + rest));
    }
  }

  /** What is read after the first `end`: the rests of the branch, the `else` branch if there is one, and
      the template after the block, the tags of the block themselves being skipped. */
  lemma AfterTheRange(pad: Pad, l: List, els: Option<Template>, next: Template, ctx: Context, frames: nat)
    requires AllAlone(l, ctx, frames) && (els.Some? ==> Alone(els.value, ctx, frames)) && Alone(next, ctx, frames)
    ensures Expand(ListText(l) + (PrintElse(pad, els) + (Tag(pad, "end") + Print(next))), ctx, frames)
      == Ok(ListValue(l, ctx) + ((if els.Some? then Eval(els.value, ctx, None) else "") + Eval(next, ctx, None)))
  {
    hide Expand, Tag, Valid, PlainItems, Height, Eval, Print, ListText, ListValue;
    var end := Tag(pad, "end") + Print(next);
    ExpandAlone(next, ctx, frames);
    StrayTag(pad, "end", Print(next), ctx, frames);
    ExpandList(l, PrintElse(pad, els) + end, ctx, frames);
    match els
    case None =>
      assert "" + end == end && "" + Eval(next, ctx, None) == Eval(next, ctx, None);
    case Some(other) =>
      ExpandPrinted(other, end, ctx, frames);
      StrayTag(pad, "else", Print(other) + end, ctx, frames);
      assert Tag(pad, "else") + Print(other) + end == Tag(pad, "else") + (Print(other) + end);
  }

  /** The meaning of `range` in the first branch of an `if`, for every branch that is well formed but for
      its ranges: the template has its value if and only if the condition does not hold and what
      follows the first `end` of a `range` in the branch, at every level, comes to nothing. */
  lemma RangeUnderIfMeaning(pad: Pad, c: Cond, branch: Template, els: Option<Template>, next: Template,
                            ctx: Context, frames: nat)
    requires ValidCond(c) && NoBrace(PrintCond(c))
    requires Valid(branch, true) && HasRange(branch) && Height(Before(branch)) < frames
    requires AllAlone(AfterEnd(branch), ctx, frames)
    requires (els.Some? ==> Alone(els.value, ctx, frames)) && Alone(next, ctx, frames)
    ensures var t := If(pad, c, branch, els, next); var rest := ListValue(AfterEnd(branch), ctx);
      && Expand(Print(t), ctx, frames)
         == (if Holds(c, ctx) then Err(UnterminatedRange)
             else Ok(rest + ((if els.Some? then Eval(els.value, ctx, None) else "") + Eval(next, ctx, None))))
      && (Expand(Print(t), ctx, frames) == Ok(Eval(t, ctx, None)) <==> !Holds(c, ctx) && rest == "")
  {
    hide Expand, Tag, Valid, PlainItems, Height, Holds, Text, PrintElse, ListText, ListValue, Head, AfterEnd;
    var rest := PrintElse(pad, els) + (Tag(pad, "end") + Print(next));
    var l := AfterEnd(branch);
    CutAtEnd(branch);
    RangeUnderIf(pad, c, branch, EndPad(branch), ListText(l) + rest, ctx, frames);
    AfterTheRange(pad, l, els, next, ctx, frames);
    CutRest(Head(branch), Tag(EndPad(branch), "end"), ListText(l), rest);
    LongerUnless(ListValue(l, ctx), (if els.Some? then Eval(els.value, ctx, None) else "") + Eval(next, ctx, None));
  }

  lemma CutRest(head: string, end: string, text: string, rest: string)
    ensures head + (end + text) + rest == head + (end + (text + rest))
  {}

  lemma LongerUnless(a: string, b: string)
    ensures a + b == b <==> a == ""
  {
    assert a + b == b ==> |a| == 0;
  }

  /** Likewise in the `else` branch: the template has its value if and only if the condition holds and
      what follows the first `end` of a `range` in that branch comes to nothing. */
  lemma RangeUnderElseMeaning(pad: Pad, c: Cond, thn: Template, branch: Template, next: Template, ctx: Context,
                              frames: nat)
    requires ValidCond(c) && NoBrace(PrintCond(c)) && Valid(thn, false) && Height(thn) < frames
    requires Valid(branch, true) && HasRange(branch) && Height(Before(branch)) < frames
    requires AllAlone(AfterEnd(branch), ctx, frames) && Alone(next, ctx, frames)
    ensures var t := If(pad, c, thn, Some(branch), next); var rest := ListValue(AfterEnd(branch), ctx);
      && Expand(Print(t), ctx, frames)
         == (if Holds(c, ctx) then Ok(Eval(thn, ctx, None) + (rest + Eval(next, ctx, None)))
             else Err(UnterminatedRange))
      && (Expand(Print(t), ctx, frames) == Ok(Eval(t, ctx, None)) <==> Holds(c, ctx) && rest == "")
  {
    hide Expand, Valid, PlainItems, Height, Holds, Print, ListValue, AfterEnd;
    ExpandRangeInElse(pad, c, thn, branch, next, ctx, frames);
    Between(Eval(thn, ctx, None), ListValue(AfterEnd(branch), ctx), Eval(next, ctx, None));
  }

  lemma ExpandRangeInElse(pad: Pad, c: Cond, thn: Template, branch: Template, next: Template, ctx: Context, frames: nat)
    requires ValidCond(c) && NoBrace(PrintCond(c)) && Valid(thn, false) && Height(thn) < frames
    requires Valid(branch, true) && HasRange(branch) && Height(Before(branch)) < frames
    requires AllAlone(AfterEnd(branch), ctx, frames) && Alone(next, ctx, frames)
    ensures Expand(Print(If(pad, c, thn, Some(branch), next)), ctx, frames)
      == (if Holds(c, ctx) then Ok(Eval(thn, ctx, None) + (ListValue(AfterEnd(branch), ctx) + Eval(next, ctx, None)))
          else Err(UnterminatedRange))
  {
    hide Expand, Tag, Valid, PlainItems, Height, Holds, Text, IfBlockOf, Print, Eval, ListText, ListValue, Head,
      AfterEnd,
      Choose, AfterBody, HasRange, Before, AllAlone, Alone, ValidCond, NoBrace, PrintCond;
    var after := ListText(AfterEnd(branch)) + (Tag(pad, "end") + Print(next));
    var b := IfBlock(Print(thn), Some(Head(branch)), after);
    ElseText(pad, c, thn, branch, next);
    CutElse(thn, pad, branch, EndPad(branch), after);
    IfAtTag(pad, c, Print(thn) + (Tag(pad, "else") + Head(branch) + (Tag(EndPad(branch), "end") + after)), ctx, frames);
    AfterRest(pad, AfterEnd(branch), next, ctx, frames);
    ExpandWhole(thn, ctx, frames - 1);
    RangeNeverEnds(branch, ctx, frames - 1);
    BranchThenRest(Holds(c, ctx), b, Eval(thn, ctx, None), ListValue(AfterEnd(branch), ctx) + Eval(next, ctx, None),
        ctx, frames);
  }

  lemma BranchThenRest(holds: bool, b: IfBlock, x: string, y: string, ctx: Context, frames: nat)
    requires frames > 0 && b.elseBody.Some? && Expand(b.ifBody, ctx, frames - 1) == Ok(x)
    requires Expand(b.elseBody.value, ctx, frames - 1) == Err(UnterminatedRange) && Expand(b.rest, ctx, frames) == Ok(y)
    ensures AfterBody(Choose(Value(holds), b, ctx, frames), b.rest, ctx, frames)
      == if holds then Ok(x + y) else Err(UnterminatedRange)
  {
    hide Expand;
  }

  lemma AfterRest(pad: Pad, l: List, next: Template, ctx: Context, frames: nat)
    requires AllAlone(l, ctx, frames) && Alone(next, ctx, frames)
    ensures Expand(ListText(l) + (Tag(pad, "end") + Print(next)), ctx, frames)
        == Ok(ListValue(l, ctx) + Eval(next, ctx, None))
  {
    AfterTheRange(pad, l, None, next, ctx, frames);
    hide Expand, Tag, Eval, Print, ListText, ListValue, AllAlone, Alone;
    assert PrintElse(pad, None) == "";
    assert "" + (Tag(pad, "end") + Print(next)) == Tag(pad, "end") + Print(next);
    assert "" + Eval(next, ctx, None) == Eval(next, ctx, None);
  }

  lemma ElseText(pad: Pad, c: Cond, thn: Template, branch: Template, next: Template)
    requires Valid(branch, true) && HasRange(branch)
    ensures Print(If(pad, c, thn, Some(branch), next))
      == Tag(pad, "if " + PrintCond(c))
         + (Print(thn) + (Tag(pad, "else") + Head(branch)
                          + (Tag(EndPad(branch), "end") + (ListText(AfterEnd(branch))
                              + (Tag(pad, "end") + Print(next))))))
  {
    CutAtEnd(branch);
    hide Tag, Text, PrintCond, ListText, Head, AfterEnd;
    var rest := Tag(pad, "end") + Print(next);
    var end := Tag(EndPad(branch), "end");
    CutRest(Head(branch), end, ListText(AfterEnd(branch)), rest);
    Glue(Tag(pad, "else"), Print(branch), rest, Head(branch), end + (ListText(AfterEnd(branch)) + rest));
  }

  lemma Glue(e: string, body: string, rest: string, head: string, tail: string)
    requires body + rest == head + tail
    ensures e + body + rest == e + head + tail
  {
    assert e + body + rest == e + (body + rest);
    assert e + head + tail == e + (head + tail);
  }

  lemma Between(x: string, a: string, b: string)
    ensures x + (a + b) == x + b <==> a == ""
  {
    assert x + (a + b) == x + b ==> |a| == 0;
  }
}
