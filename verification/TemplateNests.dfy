/** `range` below nested `if` blocks. The matcher of `if` takes every `end` for the end of an `if`, so a nest
    of blocks is read as if its texts were cut at the first ends that come. This module says what the
    nest then comes to, and exactly when that is its value. */
module TemplateNests {
  import opened Wrappers
  import opened Strings
  import opened TemplateContext
  import opened TemplateArguments
  import opened TemplateConditions
  import opened TemplateBlocks
  import opened TemplateExpand
  import opened TemplateSyntax
  import opened TemplateMeaning
  import opened TemplateLimits

  // ----- Nests -----

  /** One `if`: what stands in its branch before the next level, and what follows its `end`. */
  datatype Level = Level(pad: Pad, c: Cond, before: Template, after: Template)

  /** The blocks inside one another, with `body` innermost. */
  function Nest(levels: seq<Level>, body: Template): Template {
    if levels == [] then body
    else
      var v := levels[0];
      If(v.pad, v.c, Append(v.before, Nest(levels[1..], body)), None, v.after)
  }

  /** The text after the opening tags: the body and, after each `end`, what follows it. */
  function ListOf(levels: seq<Level>, body: Template): (l: List)
    ensures |l.more| == |levels|
  {
    if levels == [] then List(body, [])
    else
      var inner := ListOf(levels[1..], body);
      List(inner.first, inner.more + [Part(levels[0].pad, levels[0].after)])
  }

  function Openers(levels: seq<Level>, l: List): string {
    if levels == [] then ListText(l)
    else Tag(levels[0].pad, "if " + PrintCond(levels[0].c)) + (Print(levels[0].before) + Openers(levels[1..], l))
  }

  lemma {:induction false} OpenersSnoc(levels: seq<Level>, l: List, p: Part)
    ensures Openers(levels, List(l.first, l.more + [p])) == Openers(levels, l) + (Tag(p.pad, "end") + Print(p.t))
  {
    hide Tag, Print, PrintCond, ListText;
    if levels == [] {
      TextSnoc(l, p);
    } else {
      OpenersSnoc(levels[1..], l, p);
      var open := Tag(levels[0].pad, "if " + PrintCond(levels[0].c));
      MoveEnd(open, Print(levels[0].before), Openers(levels[1..], l), Tag(p.pad, "end") + Print(p.t));
    }
  }

  lemma MoveEnd(open: string, before: string, inner: string, last: string)
    ensures open + (before + (inner + last)) == open + (before + inner) + last
    ensures open + (before + inner + last) == open + (before + inner) + last
  {}

  lemma {:induction false} NestPrinted(levels: seq<Level>, body: Template)
    ensures Print(Nest(levels, body)) == Openers(levels, ListOf(levels, body))
  {
    if levels == [] {
      assert ListText(List(body, [])) == Print(body) + "" == Print(body);
    } else {
      var v, inner := levels[0], levels[1..];
      NestPrinted(inner, body);
      AppendPrinted(v.before, Nest(inner, body));
      OpenersSnoc(levels, ListOf(inner, body), Part(v.pad, v.after));
      hide Tag, PrintCond, ListText;
      var last := Tag(v.pad, "end") + Print(v.after);
      assert "" + last == last;
      MoveEnd(Tag(v.pad, "if " + PrintCond(v.c)), Print(v.before), Openers(inner, ListOf(inner, body)), last);
    }
  }

  // ----- One end after the other -----

  function PadOf(l: List): Pad
    requires l.more != []
  {
    if HasRange(l.first) then EndPad(l.first) else l.more[0].pad
  }

  /** What is left of the list after the next `end` that comes. */
  function Next(l: List): (r: List)
    requires l.more != []
    ensures |r.more| + 1 >= |l.more|
  {
    if HasRange(l.first) then
      var inner := AfterEnd(l.first);
      List(inner.first, inner.more + l.more)
    else List(l.more[0].t, l.more[1..])
  }

  function After(l: List, n: nat): (r: List)
    requires n <= |l.more|
    ensures |r.more| >= |l.more| - n
  {
    if n == 0 then l else Next(After(l, n - 1))
  }

  function Rest(more: seq<Part>): string {
    if more == [] then "" else Tag(more[0].pad, "end") + ListText(List(more[0].t, more[1..]))
  }

  lemma {:induction false} TextAppend(first: Template, a: seq<Part>, b: seq<Part>)
    ensures ListText(List(first, a + b)) == ListText(List(first, a)) + Rest(b)
    decreases |a|
  {
    hide Tag, Print;
    if a == [] {
      assert a + b == b;
      assert Print(first) + "" + Rest(b) == Print(first) + Rest(b);
    } else {
      assert (a + b)[1..] == a[1..] + b && (a + b)[0] == a[0];
      TextAppend(a[0].t, a[1..], b);
      var tail := ListText(List(a[0].t, a[1..]));
      assert Print(first) + (Tag(a[0].pad, "end") + (tail + Rest(b))) == Print(first)
          + (Tag(a[0].pad, "end") + tail) + Rest(b);
    }
  }

  lemma TextNext(l: List)
    requires l.more != [] && Valid(l.first, true)
    ensures ListText(l) == Opened(l.first) + (Tag(PadOf(l), "end") + ListText(Next(l)))
  {
    hide Tag, Print, Head, AfterEnd, Valid;
    if HasRange(l.first) {
      var inner := AfterEnd(l.first);
      CutAtEnd(l.first);
      TextAppend(inner.first, inner.more, l.more);
      TextAppend(l.first, [], l.more);
      assert [] + l.more == l.more && Print(l.first) + "" == Print(l.first);
      hide ListText, Rest;
      NextText(Head(l.first), Tag(PadOf(l), "end"), ListText(inner), Rest(l.more));
    }
  }

  lemma NextText(head: string, end: string, inner: string, rest: string)
    ensures head + (end + inner) + rest == head + (end + (inner + rest))
  {}

  // ----- Lists of well-formed templates -----

  ghost predicate Sound(l: List, h: nat) {
    Valid(l.first, true) && Height(l.first) <= h && forall p <- l.more :: Valid(p.t, true) && Height(p.t) <= h
  }

  lemma {:induction false} AfterEndSound(t: Template, h: nat)
    requires Valid(t, true) && Height(t) <= h && HasRange(t)
    ensures Sound(AfterEnd(t), h)
    decreases Size(t)
  {
    AtFirstRange(t);
    FirstRangeHeight(t);
    var r := FirstRange(t);
    if HasRange(r.body) {
      AfterEndSound(r.body, h);
    }
  }

  lemma {:induction false} FirstRangeHeight(t: Template)
    requires HasRange(t)
    ensures Height(FirstRange(t)) <= Height(t)
  {
    match t
    case Literally(_, next) => FirstRangeHeight(next);
    case Show(_, _, next) => FirstRangeHeight(next);
    case Dot(_, next) => FirstRangeHeight(next);
    case If(_, _, _, _, next) => FirstRangeHeight(next);
    case Range(_, _, _, _) =>
  }

  lemma {:induction false} AfterSound(l: List, n: nat, h: nat)
    requires n <= |l.more| && Sound(l, h)
    ensures Sound(After(l, n), h)
  {
    if n > 0 {
      AfterSound(l, n - 1, h);
      var before := After(l, n - 1);
      if HasRange(before.first) {
        AfterEndSound(before.first, h);
      } else {
        assert before.more[0] in before.more;
      }
    }
  }

  // ----- The text of the inner blocks, as it is cut -----

  /** As many openers as levels, and the list up to the `end` after that many. */
  function Cut(levels: seq<Level>, l: List): string
    requires |levels| <= |l.more|
  {
    if levels == [] then Opened(l.first)
    else
      var v, m := levels[0], |levels|;
      Tag(v.pad, "if " + PrintCond(v.c))
      + (Print(v.before) + Cut(levels[1..], l) + (Tag(PadOf(After(l, m - 1)), "end") + Opened(After(l, m).first)))
  }

  lemma {:induction false} OpenersCut(levels: seq<Level>, l: List, h: nat)
    requires |levels| < |l.more| && Sound(l, h)
    ensures var m := |levels|;
      Openers(levels, l) == Cut(levels, l) + (Tag(PadOf(After(l, m)), "end") + ListText(After(l, m + 1)))
  {
    var m := |levels|;
    AfterSound(l, m, h);
    TextNext(After(l, m));
    if m > 0 {
      OpenersCut(levels[1..], l, h);
      OpenersStep(levels, l);
    }
  }

  lemma OpenersStep(levels: seq<Level>, l: List)
    requires 0 < |levels| < |l.more|
    requires var m := |levels| - 1;
      Openers(levels[1..], l) == Cut(levels[1..], l) + (Tag(PadOf(After(l, m)), "end") + ListText(After(l, m + 1)))
    requires var a := After(l, |levels|);
      ListText(a) == Opened(a.first) + (Tag(PadOf(a), "end") + ListText(After(l, |levels| + 1)))
    ensures var m := |levels|;
      Openers(levels, l) == Cut(levels, l) + (Tag(PadOf(After(l, m)), "end") + ListText(After(l, m + 1)))
  {
    hide Tag, PrintCond, Print, ListText, Opened, PadOf, Next, HasRange, After, Cut, Openers;
    var m := |levels|;
    CutUnfolds(levels, l);
    OpenersUnfolds(levels, l);
    CutText2(Tag(levels[0].pad, "if " + PrintCond(levels[0].c)), Print(levels[0].before), Cut(levels[1..], l),
             Tag(PadOf(After(l, m - 1)), "end"), Opened(After(l, m).first),
             Tag(PadOf(After(l, m)), "end") + ListText(After(l, m + 1)));
  }

  lemma OpenersUnfolds(levels: seq<Level>, l: List)
    requires levels != []
    ensures Openers(levels, l)
      == Tag(levels[0].pad, "if " + PrintCond(levels[0].c)) + (Print(levels[0].before) + Openers(levels[1..], l))
  {
    hide Tag, PrintCond, Print, ListText;
  }

  lemma CutUnfolds(levels: seq<Level>, l: List)
    requires levels != [] && |levels| <= |l.more|
    ensures var v, m := levels[0], |levels|;
      Cut(levels, l) == Tag(v.pad, "if " + PrintCond(v.c))
        + (Print(v.before) + Cut(levels[1..], l) + (Tag(PadOf(After(l, m - 1)), "end") + Opened(After(l, m).first)))
  {
    hide Tag, PrintCond, Print, Opened, After, PadOf;
  }

  lemma CutText2(open: string, before: string, cut: string, end: string, piece: string, last: string)
    ensures open + (before + (cut + (end + (piece + last)))) == open + (before + cut + (end + piece)) + last
    ensures open + (before + cut + (end + piece)) == open + (before + cut + end) + piece
  {}

  ghost predicate ValidLevels(levels: seq<Level>, h: nat) {
    forall v <- levels :: ValidCond(v.c) && NoBrace(PrintCond(v.c)) && Valid(v.before, false) && Height(v.before) <= h
  }

  lemma FewerLevels(levels: seq<Level>, h: nat)
    requires levels != [] && ValidLevels(levels, h)
    ensures ValidLevels(levels[1..], h)
    ensures var v := levels[0];
      ValidCond(v.c) && NoBrace(PrintCond(v.c)) && Valid(v.before, false) && Height(v.before) <= h
  {
    hide ValidCond, NoBrace, Valid, Height, PrintCond;
    assert levels[0] in levels && forall v <- levels[1..] :: v in levels;
  }

  /** A block closed by its `end` leaves the depth as it was. */
  lemma CoverBlock(p: string, open: string, s: string, end: string, after: string, a: seq<Seg>, q: string)
    requires '{' !in p && NoBrace(open) && NoBrace(end) && KindOf(open) == IfOpener && KindOf(end) == EndTag
    requires Covers("", s, PrintTag(end) + after, a, q)
    ensures Covers(p, PrintTag(open) + (s + PrintTag(end)), after, [Seg(p, open)] + a + [Seg(q, end)], "")
  {
    hide Segs, Tail, Flat, Neutral, PrintTag, KindOf, NoBrace;
    var g, e := Seg(p, open), Seg(q, end);
    BlockNeutral(g, a, e);
    BlockSegs(p, open, s, end, after, a, q);
    FlatOfBlock(g, a, e);
    BlockFlat(p, PrintTag(open), s, PrintTag(end), Flat(a), q);
    assert "" + after == after;
  }

  lemma BlockNeutral(g: Seg, a: seq<Seg>, e: Seg)
    requires KindOf(g.raw) == IfOpener && KindOf(e.raw) == EndTag && Neutral(a, false)
    ensures Neutral([g] + a + [e], false)
  {
    assert DepthStep(g.raw, false) == 1;
    hide Neutral, KindOf, Inside, DepthStep;
    OpenBlock(g, a, false);
    CloseBlock([g] + a, e, false);
  }

  lemma BlockSegs(p: string, open: string, s: string, end: string, after: string, a: seq<Seg>, q: string)
    requires '{' !in p && '{' !in q && NoBrace(open) && NoBrace(end)
    requires var tail := PrintTag(end) + after;
      Segs("" + (s + tail)) == a + Segs(q + tail) && Tail("" + (s + tail)) == Tail(q + tail)
    ensures var whole := p + (PrintTag(open) + (s + PrintTag(end)) + after);
      Segs(whole) == [Seg(p, open)] + a + [Seg(q, end)] + Segs(after) && Tail(whole) == Tail(after)
  {
    hide Segs, Tail, PrintTag, NoBrace;
    ScanTag(q, end, after);
    ScanTag(p, open, "" + (s + (PrintTag(end) + after)));
    BlockMoved(p, PrintTag(open), s, PrintTag(end), after);
    var g, e := Seg(p, open), Seg(q, end);
    assert [g] + (a + ([e] + Segs(after))) == [g] + a + [e] + Segs(after);
  }

  lemma FlatOfBlock(g: Seg, a: seq<Seg>, e: Seg)
    ensures Flat([g] + a + [e]) == g.lit + PrintTag(g.raw) + Flat(a) + (e.lit + PrintTag(e.raw))
  {
    FlatConcat([g] + a, [e]);
    FlatConcat([g], a);
    FlatCons(g, []);
    FlatCons(e, []);
    NothingDone();
    hide Flat, PrintTag;
    assert [g] + [] == [g] && [e] + [] == [e];
    assert g.lit + PrintTag(g.raw) + "" == g.lit + PrintTag(g.raw);
    assert e.lit + PrintTag(e.raw) + "" == e.lit + PrintTag(e.raw);
  }

  lemma BlockMoved(p: string, o: string, s: string, e: string, after: string)
    ensures p + (o + (s + e) + after) == p + (o + ("" + (s + (e + after))))
  {}

  lemma BlockFlat(p: string, o: string, s: string, e: string, fa: string, q: string)
    requires fa + q == "" + s
    ensures p + o + fa + (q + e) + "" == p + (o + (s + e))
  {
    assert p + o + fa + (q + e) == p + o + (fa + q) + e;
  }

  lemma {:induction false} CoverCut(p: string, levels: seq<Level>, l: List, after: string, h: nat)
    returns (segs: seq<Seg>, q: string)
    requires '{' !in p && |levels| <= |l.more| && ValidLevels(levels, h) && Sound(l, h)
    ensures Covers(p, Cut(levels, l), after, segs, q)
    decreases |levels|, 0
  {
    if levels == [] {
      segs, q := CoverPiece(p, l.first, after);
    } else {
      var v, m := levels[0], |levels|;
      FewerLevels(levels, h);
      IfOpens(v.pad, v.c);
      BlockTags(PadOf(After(l, m - 1)));
      AfterSound(l, m, h);
      UnfoldTag(v.pad, "if " + PrintCond(v.c));
      UnfoldTag(PadOf(After(l, m - 1)), "end");
      CutUnfolds(levels, l);
      hide Covers, PrintTag, Raw, KindOf, NoBrace, Print, Opened, After, PrintCond, Valid, Tag, Cut, PadOf,
        ValidLevels, Sound;
      var open, end := Raw(v.pad, "if " + PrintCond(v.c)), Raw(PadOf(After(l, m - 1)), "end");
      var piece := Opened(After(l, m).first);
      var inner := Print(v.before) + Cut(levels[1..], l);
      var a, q1 := CoverInner(levels, l, PrintTag(end) + (piece + after), h);
      CoverBlock(p, open, inner, end, piece + after, a, q1);
      var b;
      b, q := CoverPiece("", After(l, m).first, after);
      CoverJoin(p, PrintTag(open) + (inner + PrintTag(end)), piece, after, [Seg(p, open)] + a + [Seg(q1, end)], "",
          b, q);
      segs := [Seg(p, open)] + a + [Seg(q1, end)] + b;
      BlockPiece(PrintTag(open), inner, PrintTag(end), piece);
    }
  }

  lemma BlockPiece(open: string, inner: string, end: string, piece: string)
    ensures open + (inner + end) + piece == open + (inner + (end + piece))
  {}

  /** The branch of the first level. */
  lemma {:induction false} CoverInner(levels: seq<Level>, l: List, after: string, h: nat) returns (segs: seq<Seg>,
                                                                                                   q: string)
    requires levels != [] && |levels| - 1 <= |l.more| && ValidLevels(levels, h) && Sound(l, h)
    ensures Covers("", Print(levels[0].before) + Cut(levels[1..], l), after, segs, q)
    decreases |levels| - 1, 1
  {
    FewerLevels(levels, h);
    hide Covers, Print, Cut, Valid;
    var v, cut := levels[0], Cut(levels[1..], l);
    var a, q1 := CoverTemplate("", v.before, cut + after);
    PendingAfter("", Print(v.before), cut + after, a, q1);
    var b;
    b, q := CoverCut(q1, levels[1..], l, after, h);
    CoverJoin("", Print(v.before), cut, after, a, q1, b, q);
    segs := a + b;
  }

  lemma CoverPiece(p: string, t: Template, after: string) returns (segs: seq<Seg>, q: string)
    requires '{' !in p && Valid(t, true)
    ensures Covers(p, Opened(t), after, segs, q)
  {
    hide Covers, Valid;
    if HasRange(t) {
      segs, q := CoverHead(p, t, after);
    } else {
      WithoutRange(t);
      segs, q := CoverTemplate(p, t, after);
    }
  }

  // ----- What the cut text comes to -----

  function Then(a: Outcome, b: Outcome): Outcome {
    if a.Ok? then Prepend(a.text, b) else a
  }

  /** A piece between two ends: a template, or one with a `range` left open. */
  function PieceValue(t: Template, ctx: Context): Outcome {
    if HasRange(t) then Err(UnterminatedRange) else Ok(Eval(t, ctx, None))
  }

  function Read(levels: seq<Level>, l: List, ctx: Context): Outcome
    requires |levels| <= |l.more|
    decreases |levels|, 0
  {
    if levels == [] then PieceValue(l.first, ctx)
    else Then(ReadBranch(levels, l, ctx), PieceValue(After(l, |levels|).first, ctx))
  }

  function ReadBranch(levels: seq<Level>, l: List, ctx: Context): Outcome
    requires levels != [] && |levels| - 1 <= |l.more|
    decreases |levels| - 1, 1
  {
    if Holds(levels[0].c, ctx) then Prepend(Eval(levels[0].before, ctx, None), Read(levels[1..], l, ctx)) else Ok("")
  }

  lemma PieceExpands(t: Template, ctx: Context, frames: nat)
    requires Valid(t, true) && Height(t) <= frames
    ensures Expand(Opened(t), ctx, frames) == PieceValue(t, ctx)
  {
    hide Expand, Eval, Head;
    if HasRange(t) {
      AtFirstRange(t);
      RangeNeverEnds(t, ctx, frames);
    } else {
      WithoutRange(t);
      ExpandWhole(t, ctx, frames);
    }
  }

  lemma {:induction false} CutExpands(levels: seq<Level>, l: List, ctx: Context, frames: nat, h: nat)
    requires |levels| <= |l.more| && ValidLevels(levels, h) && Sound(l, h) && |levels| + h <= frames
    ensures Expand(Cut(levels, l), ctx, frames) == Read(levels, l, ctx)
    decreases |levels|, 0
  {
    if levels == [] {
      PieceExpands(l.first, ctx, frames);
    } else {
      var m := |levels|;
      AfterSound(l, m, h);
      CutUnfolds(levels, l);
      ReadUnfolds(levels, l, ctx);
      hide Expand, Print, Tag, Opened, After, Valid, PieceValue, Height, Text, PrintCond, Cut, Read, ReadBranch,
        PadOf, Then, ValidLevels;
      PieceExpands(After(l, m).first, ctx, frames);
      BranchExpands(levels, l, PadOf(After(l, m - 1)), Opened(After(l, m).first), ctx, frames, h);
    }
  }

  /** The block of the first level, closed by the `end` before `rest`. */
  lemma {:induction false} BranchExpands(levels: seq<Level>, l: List, endPad: Pad, rest: string, ctx: Context,
                                         frames: nat, h: nat)
    requires levels != [] && |levels| - 1 <= |l.more| && ValidLevels(levels, h) && Sound(l, h) && |levels| + h <= frames
    ensures var v := levels[0];
      Expand(Tag(v.pad, "if " + PrintCond(v.c)) + (Print(v.before) + Cut(levels[1..], l)
          + (Tag(endPad, "end") + rest)), ctx, frames)
      == Then(ReadBranch(levels, l, ctx), Expand(rest, ctx, frames))
    decreases |levels| - 1, 2
  {
    FewerLevels(levels, h);
    var v := levels[0];
    InnerExpands(levels, l, ctx, frames, h);
    hide Expand, Print, Tag, Cut, Read, ReadBranch, Valid, Height, Covers, IfBlockOf, Eval, Holds, Text, PrintCond,
      PlainItems, AfterBody, Choose, ValidLevels, Sound, Then;
    var inner := Print(v.before) + Cut(levels[1..], l);
    var segs, q := CoverInner(levels, l, Tag(endPad, "end") + rest, h);
    CutBranch(inner, endPad, rest, segs, q);
    IfAtTag(v.pad, v.c, inner + (Tag(endPad, "end") + rest), ctx, frames);
    OnlyIf(Holds(v.c, ctx), IfBlock(inner, None, rest), ctx, frames);
  }

  lemma {:induction false} InnerExpands(levels: seq<Level>, l: List, ctx: Context, frames: nat, h: nat)
    requires levels != [] && |levels| - 1 <= |l.more| && ValidLevels(levels, h) && Sound(l, h) && |levels| + h <= frames
    ensures ReadBranch(levels, l, ctx)
      == if Holds(levels[0].c, ctx) then Expand(Print(levels[0].before) + Cut(levels[1..], l), ctx, frames - 1)
          else Ok("")
    decreases |levels| - 1, 1
  {
    hide Expand, Print, Cut, Read, ReadBranch, Valid, Height, Eval, Holds, PlainItems, ValidLevels, Sound, After,
      Next, HasRange,
      ValidCond, NoBrace, PrintCond;
    FewerLevels(levels, h);
    var v := levels[0];
    ReadBranchIs(levels, l, ctx);
    NoItemsBefore(v.before, ctx);
    CutExpands(levels[1..], l, ctx, frames - 1, h);
    ExpandPrinted(v.before, Cut(levels[1..], l), ctx, frames - 1);
  }

  lemma ReadBranchIs(levels: seq<Level>, l: List, ctx: Context)
    requires levels != [] && |levels| - 1 <= |l.more|
    ensures ReadBranch(levels, l, ctx)
      == if Holds(levels[0].c, ctx) then Prepend(Eval(levels[0].before, ctx, None), Read(levels[1..], l, ctx))
          else Ok("")
  {
    hide Read, Holds, Eval;
  }

  lemma NoItemsBefore(t: Template, ctx: Context)
    requires Valid(t, false)
    ensures Valid(t, true) && PlainItems(t, ctx)
  {
    ValidWeakens(t);
    NoItems(t, ctx);
  }

  lemma OnlyIf(holds: bool, b: IfBlock, ctx: Context, frames: nat)
    requires frames > 0 && b.elseBody.None?
    ensures AfterBody(Choose(Value(holds), b, ctx, frames), b.rest, ctx, frames)
      == Then(if holds then Expand(b.ifBody, ctx, frames - 1) else Ok(""), Expand(b.rest, ctx, frames))
  {
    hide Expand;
  }

  /** A nest of blocks, read by the interpreter: the branches taken as they are cut, and then all that
      follows the last `end` that was taken for that of an `if`. */
  lemma NestExpands(levels: seq<Level>, l: List, ctx: Context, frames: nat, h: nat)
    requires levels != [] && |levels| <= |l.more| && ValidLevels(levels, h) && Sound(l, h) && |levels| + h <= frames
    requires AllAlone(After(l, |levels|), ctx, frames)
    ensures Expand(Openers(levels, l), ctx, frames)
      == Then(ReadBranch(levels, l, ctx), Ok(ListValue(After(l, |levels|), ctx)))
  {
    hide Expand, Print, Tag, Cut, Valid, Height, Text, PrintCond, ListText, ListValue, AllAlone, ReadBranch, Then,
      Sound,
      ValidLevels, PadOf, Openers, HasRange, Next, After, Taken, Befores;
    var n := |levels|;
    var last := After(l, n);
    OpenersCut(levels[1..], l, h);
    WholeList(last, ctx, frames);
    BranchExpands(levels, l, PadOf(After(l, n - 1)), ListText(last), ctx, frames, h);
    WholeText(levels, l);
  }

  lemma WholeText(levels: seq<Level>, l: List)
    requires 0 < |levels| <= |l.more|
    requires var m := |levels| - 1;
      Openers(levels[1..], l) == Cut(levels[1..], l) + (Tag(PadOf(After(l, m)), "end") + ListText(After(l, m + 1)))
    ensures var v, n := levels[0], |levels|;
      Openers(levels, l) == Tag(v.pad, "if " + PrintCond(v.c))
        + (Print(v.before) + Cut(levels[1..], l) + (Tag(PadOf(After(l, n - 1)), "end") + ListText(After(l, n))))
  {
    hide Print, Tag, Cut, PrintCond, ListText, PadOf, Openers, After;
    var v, n := levels[0], |levels|;
    OpenersUnfolds(levels, l);
    Assoc(Print(v.before), Cut(levels[1..], l), Tag(PadOf(After(l, n - 1)), "end") + ListText(After(l, n)));
  }

  lemma WholeList(l: List, ctx: Context, frames: nat)
    requires AllAlone(l, ctx, frames)
    ensures Expand(ListText(l), ctx, frames) == Ok(ListValue(l, ctx))
  {
    hide Expand, ListText, ListValue, AllAlone;
    ExpandList(l, "", ctx, frames);
    EmptyText(ctx, frames);
    assert ListText(l) + "" == ListText(l) && ListValue(l, ctx) + "" == ListValue(l, ctx);
  }

  // ----- When the nest has its value -----

  /** How many conditions hold before the first that does not. */
  function Taken(levels: seq<Level>, ctx: Context): (d: nat)
    ensures d <= |levels|
  {
    if levels == [] || !Holds(levels[0].c, ctx) then 0 else 1 + Taken(levels[1..], ctx)
  }

  function Befores(levels: seq<Level>, ctx: Context): string {
    if levels == [] || !Holds(levels[0].c, ctx) then ""
    else Eval(levels[0].before, ctx, None) + Befores(levels[1..], ctx)
  }

  /** The pieces after end number `j` and before end number `k` leave no `range` open. */
  predicate Closed(l: List, j: nat, k: nat)
    requires k <= |l.more| + 1
  {
    forall i :: j <= i < k ==> !HasRange(After(l, i).first)
  }

  function PieceSum(l: List, j: nat, k: nat, ctx: Context): string
    requires k <= |l.more| + 1
    decreases k
  {
    if j >= k then "" else PieceSum(l, j, k - 1, ctx) + Eval(After(l, k - 1).first, ctx, None)
  }

  lemma {:induction false} ReadIs(levels: seq<Level>, l: List, ctx: Context)
    requires |levels| <= |l.more|
    ensures var m := |levels|; var j := m - Taken(levels, ctx);
      Read(levels, l, ctx)
      == if Closed(l, j, m + 1) then Ok(Befores(levels, ctx) + PieceSum(l, j, m + 1, ctx)) else Err(UnterminatedRange)
    decreases |levels|, 0
  {
    if levels == [] {
      ReadNone(l, ctx);
    } else {
      BranchIs(levels, l, ctx);
      ReadSome(levels, l, |levels| - Taken(levels, ctx), ctx);
    }
  }

  lemma ReadNone(l: List, ctx: Context)
    ensures Read([], l, ctx) == if Closed(l, 0, 1) then Ok(Befores([], ctx) + PieceSum(l, 0, 1, ctx))
        else Err(UnterminatedRange)
  {
    assert Closed(l, 0, 1) <==> !HasRange(After(l, 0).first);
    hide Eval, HasRange;
    assert PieceSum(l, 0, 1, ctx) == PieceSum(l, 0, 0, ctx) + Eval(l.first, ctx, None);
    assert "" + ("" + Eval(l.first, ctx, None)) == Eval(l.first, ctx, None);
  }

  lemma ReadSome(levels: seq<Level>, l: List, j: nat, ctx: Context)
    requires levels != [] && j <= |levels| <= |l.more|
    requires ReadBranch(levels, l, ctx)
      == if Closed(l, j, |levels|) then Ok(Befores(levels, ctx) + PieceSum(l, j, |levels|, ctx))
          else Err(UnterminatedRange)
    ensures var m := |levels|;
      Read(levels, l, ctx)
      == if Closed(l, j, m + 1) then Ok(Befores(levels, ctx) + PieceSum(l, j, m + 1, ctx)) else Err(UnterminatedRange)
  {
    hide Read, ReadBranch, Closed, PieceSum, After, Eval, Befores, HasRange, Then, PieceValue;
    var m := |levels|;
    LastPiece(l, j, m, ctx);
    ReadUnfolds(levels, l, ctx);
    ThenPiece(Closed(l, j, m), Befores(levels, ctx), PieceSum(l, j, m, ctx), After(l, m).first, ctx);
  }

  lemma ThenPiece(closed: bool, x: string, y: string, t: Template, ctx: Context)
    ensures Then(if closed then Ok(x + y) else Err(UnterminatedRange), PieceValue(t, ctx))
      == if closed && !HasRange(t) then Ok(x + (y + Eval(t, ctx, None))) else Err(UnterminatedRange)
  {
    hide Eval, HasRange;
    Assoc(x, y, Eval(t, ctx, None));
  }

  lemma ReadUnfolds(levels: seq<Level>, l: List, ctx: Context)
    requires levels != [] && |levels| <= |l.more|
    ensures Read(levels, l, ctx) == Then(ReadBranch(levels, l, ctx), PieceValue(After(l, |levels|).first, ctx))
  {}

  lemma LastPiece(l: List, j: nat, m: nat, ctx: Context)
    requires j <= m <= |l.more|
    ensures Closed(l, j, m + 1) <==> Closed(l, j, m) && !HasRange(After(l, m).first)
    ensures PieceSum(l, j, m + 1, ctx) == PieceSum(l, j, m, ctx) + Eval(After(l, m).first, ctx, None)
  {
    hide HasRange, Eval;
  }

  lemma {:induction false} BranchIs(levels: seq<Level>, l: List, ctx: Context)
    requires levels != [] && |levels| - 1 <= |l.more|
    ensures var m := |levels|; var j := m - Taken(levels, ctx);
      ReadBranch(levels, l, ctx)
      == if Closed(l, j, m) then Ok(Befores(levels, ctx) + PieceSum(l, j, m, ctx)) else Err(UnterminatedRange)
    decreases |levels| - 1, 1
  {
    hide Read, ReadBranch, Closed, PieceSum, Eval, Holds, Taken, Befores, After, Next, HasRange;
    var m := |levels|;
    ReadBranchIs(levels, l, ctx);
    TakenCons(levels, ctx);
    if Holds(levels[0].c, ctx) {
      ReadIs(levels[1..], l, ctx);
      Assoc(Eval(levels[0].before, ctx, None), Befores(levels[1..], ctx), PieceSum(l, m - Taken(levels, ctx), m, ctx));
    } else {
      NoPiece(l, m, ctx);
    }
  }

  lemma NoPiece(l: List, m: nat, ctx: Context)
    requires m <= |l.more| + 1
    ensures Closed(l, m, m) && PieceSum(l, m, m, ctx) == ""
  {}

  lemma TakenCons(levels: seq<Level>, ctx: Context)
    requires levels != []
    ensures if Holds(levels[0].c, ctx)
      then Taken(levels, ctx) == 1 + Taken(levels[1..], ctx)
        && Befores(levels, ctx) == Eval(levels[0].before, ctx, None) + Befores(levels[1..], ctx)
      else Taken(levels, ctx) == 0 && Befores(levels, ctx) == ""
  {
    hide Holds, Eval;
  }

  /** Pieces that leave nothing open are the list itself. */
  lemma {:induction false} SumIsList(l: List, j: nat, k: nat, ctx: Context)
    requires j <= k <= |l.more| && Closed(l, j, k)
    ensures ListValue(After(l, j), ctx) == PieceSum(l, j, k, ctx) + ListValue(After(l, k), ctx)
    decreases k
  {
    hide Eval;
    if j < k {
      LastPiece(l, j, k - 1, ctx);
      SumIsList(l, j, k - 1, ctx);
      assert After(l, k) == Next(After(l, k - 1));
      hide ListValue, PieceSum, Closed, After, Next, HasRange;
      ClosedNext(After(l, k - 1), ctx);
      Assoc(PieceSum(l, j, k - 1, ctx), Eval(After(l, k - 1).first, ctx, None), ListValue(After(l, k), ctx));
    } else {
      assert "" + ListValue(After(l, k), ctx) == ListValue(After(l, k), ctx);
    }
  }

  lemma ClosedNext(l: List, ctx: Context)
    requires l.more != [] && !HasRange(l.first)
    ensures ListValue(l, ctx) == Eval(l.first, ctx, None) + ListValue(Next(l), ctx)
  {}

  function Templates(l: List): seq<Template>
    decreases |l.more|
  {
    [l.first] + if l.more == [] then [] else Templates(List(l.more[0].t, l.more[1..]))
  }

  function Values(ts: seq<Template>, ctx: Context): string {
    if ts == [] then "" else Eval(ts[0], ctx, None) + Values(ts[1..], ctx)
  }

  lemma {:induction false} ListIsTemplates(l: List, ctx: Context)
    ensures |Templates(l)| == |l.more| + 1 && ListValue(l, ctx) == Values(Templates(l), ctx)
    decreases |l.more|
  {
    hide Eval;
    if l.more != [] {
      var rest := List(l.more[0].t, l.more[1..]);
      ListIsTemplates(rest, ctx);
      assert ([l.first] + Templates(rest))[1..] == Templates(rest);
    } else {
      assert Values([l.first], ctx) == Eval(l.first, ctx, None) + Values([], ctx);
    }
  }

  lemma {:induction false} ValuesConcat(a: seq<Template>, b: seq<Template>, ctx: Context)
    ensures Values(a + b, ctx) == Values(a, ctx) + Values(b, ctx)
  {
    hide Eval;
    if a == [] {
      assert a + b == b;
      assert "" + Values(b, ctx) == Values(b, ctx);
    } else {
      assert (a + b)[1..] == a[1..] + b;
      ValuesConcat(a[1..], b, ctx);
      var e := Eval(a[0], ctx, None);
      assert e + (Values(a[1..], ctx) + Values(b, ctx)) == e + Values(a[1..], ctx) + Values(b, ctx);
    }
  }

  lemma {:induction false} TemplatesAppend(first: Template, a: seq<Part>, b: seq<Part>)
    ensures Templates(List(first, a + b))
      == Templates(List(first, a)) + if b == [] then [] else Templates(List(b[0].t, b[1..]))
    decreases |a|
  {
    if a == [] {
      assert a + b == b;
    } else {
      assert (a + b)[1..] == a[1..] + b && (a + b)[0] == a[0];
      TemplatesAppend(a[0].t, a[1..], b);
    }
  }

  /** How many templates have come into the list with the ends of ranges. */
  function Extra(l: List, j: nat): nat
    requires j <= |l.more|
  {
    |After(l, j).more| + j - |l.more|
  }

  /** However it is cut, the list keeps its own last templates. */
  lemma {:induction false} KeepsItsLast(l: List, j: nat)
    requires j <= |l.more|
    ensures var x, ts := Extra(l, j), Templates(After(l, j));
      |ts| == |After(l, j).more| + 1 && |Templates(l)| == |l.more| + 1 && x < |ts| && ts[x..] == Templates(l)[j..]
    decreases j
  {
    hide Templates, After, Next, HasRange, AfterEnd;
    TemplateCount(l);
    AfterIs(l, j);
    if j == 0 {
      assert Templates(l)[0..] == Templates(l);
    } else {
      var before := After(l, j - 1);
      KeepsItsLast(l, j - 1);
      LastOfNext(before);
      TemplateCount(before);
      TemplateCount(Next(before));
      var k := |Templates(Next(before))| - |Templates(before)| + 1;
      SameEnd(Templates(l), j, Templates(before), Extra(l, j - 1), Templates(Next(before)), k);
    }
  }

  lemma AfterIs(l: List, j: nat)
    requires j <= |l.more|
    ensures After(l, j) == if j == 0 then l else Next(After(l, j - 1))
  {
    hide Next;
  }

  lemma SameEnd(own: seq<Template>, j: nat, b: seq<Template>, x: nat, next: seq<Template>, k: nat)
    requires 0 < j <= |own| && x < |b| && b[x..] == own[j - 1..] && k <= |next| && b != [] && next[k..] == b[1..]
    ensures k + x <= |next| && next[k + x..] == own[j..]
  {
    assert next[k + x..] == next[k..][x..] == b[1..][x..] == b[x..][1..];
  }

  lemma {:induction false} TemplateCount(l: List)
    ensures |Templates(l)| == |l.more| + 1
    decreases |l.more|
  {
    if l.more != [] {
      TemplateCount(List(l.more[0].t, l.more[1..]));
    }
  }

  lemma LastOfNext(l: List)
    requires l.more != []
    ensures var next := Templates(Next(l)); var k := |next| - |Templates(l)| + 1;
      k >= 0 && next[k..] == Templates(l)[1..]
  {
    TemplateCount(l);
    TemplateCount(Next(l));
    var own := Templates(List(l.more[0].t, l.more[1..]));
    assert Templates(l) == [l.first] + own;
    if HasRange(l.first) {
      var inner := AfterEnd(l.first);
      TemplatesAppend(inner.first, inner.more, l.more);
      TemplateCount(inner);
    }
  }

  /** What the reader takes for text of the nest although it stands before: the templates in front of its
      own at the point from which on everything is read. */
  function Surplus(l: List, j: nat, ctx: Context): string
    requires j <= |l.more|
  {
    KeepsItsLast(l, j);
    Values(Templates(After(l, j))[..Extra(l, j)], ctx)
  }

  /** Told from the conditions that hold and from the templates themselves. With `d` conditions true
      before the first that is not, reading goes on after the first `n - d` ends: none of the pieces up
      to end number `n` may leave a `range` open, and what they bring in front has to come to nothing. */
  predicate Kept(levels: seq<Level>, body: Template, ctx: Context) {
    var l, n := ListOf(levels, body), |levels|;
    var j := n - Taken(levels, ctx);
    Closed(l, j, n) && Surplus(l, j, ctx) == ""
  }

  lemma {:induction false} AppendEval(t: Template, u: Template, ctx: Context)
    ensures Eval(Append(t, u), ctx, None) == Eval(t, ctx, None) + Eval(u, ctx, None)
  {
    hide ExprValue, Holds, Iterable, EvalItems;
    var U := Eval(u, ctx, None);
    match t
    case Nil => assert "" + U == U;
    case Literally(s, next) => AppendEval(next, u, ctx); Assoc(s, Eval(next, ctx, None), U);
    case Show(_, e, next) => AppendEval(next, u, ctx); Assoc(ExprValue(e, ctx), Eval(next, ctx, None), U);
    case Dot(_, next) => AppendEval(next, u, ctx); Assoc("", Eval(next, ctx, None), U);
    case If(_, c, thn, els, next) =>
      AppendEval(next, u, ctx);
      Assoc(if Holds(c, ctx) then Eval(thn, ctx, None) else if els.Some? then Eval(els.value, ctx, None) else "",
            Eval(next, ctx, None), U);
    case Range(_, path, body, next) =>
      AppendEval(next, u, ctx);
      Assoc(EvalItems(body, Iterable(ctx, path), ctx, None), Eval(next, ctx, None), U);
  }

  lemma Assoc(x: string, y: string, z: string)
    ensures x + (y + z) == x + y + z
  {}

  /** The value of the nest, in the same terms. */
  lemma {:induction false} NestValue(levels: seq<Level>, body: Template, ctx: Context)
    ensures var l, n := ListOf(levels, body), |levels|;
      && |Templates(l)| == n + 1
      && Eval(Nest(levels, body), ctx, None)
         == Befores(levels, ctx) + Values(Templates(l)[n - Taken(levels, ctx)..], ctx)
  {
    if levels == [] {
      assert Templates(List(body, [])) == [body] && [body][0..] == [body];
      OneValue(body, ctx);
    } else {
      NestValue(levels[1..], body, ctx);
      NestValueStep(levels, body, ctx);
    }
  }

  lemma NestValueStep(levels: seq<Level>, body: Template, ctx: Context)
    requires levels != []
    requires var ts := Templates(ListOf(levels[1..], body));
      |ts| == |levels| && Eval(Nest(levels[1..], body), ctx, None)
         == Befores(levels[1..], ctx) + Values(ts[|levels| - 1 - Taken(levels[1..], ctx)..], ctx)
    ensures var ts := Templates(ListOf(levels, body));
      |ts| == |levels| + 1 && Eval(Nest(levels, body), ctx, None)
         == Befores(levels, ctx) + Values(ts[|levels| - Taken(levels, ctx)..], ctx)
  {
    hide Templates, Eval, Values, Holds, ListOf, Nest, Befores, Append, Taken;
    var v, n := levels[0], |levels|;
    var ts, j := Templates(ListOf(levels[1..], body)), n - Taken(levels, ctx);
    ListSnoc(levels, body);
    OneValue(v.after, ctx);
    TakenCons(levels, ctx);
    if Holds(v.c, ctx) {
      assert (ts + [v.after])[j..] == ts[j..] + [v.after];
      ValuesConcat(ts[j..], [v.after], ctx);
      TakenValue(levels, body, Values(ts[j..], ctx), ctx);
    } else {
      assert (ts + [v.after])[n..] == [v.after];
      SkippedValue(levels, body, ctx);
    }
  }

  lemma ListSnoc(levels: seq<Level>, body: Template)
    requires levels != []
    ensures var ts := Templates(ListOf(levels[1..], body));
      |ts| == |levels| && Templates(ListOf(levels, body)) == ts + [levels[0].after]
  {
    var v, inner := levels[0], ListOf(levels[1..], body);
    TemplateCount(inner);
    TemplatesAppend(inner.first, inner.more, [Part(v.pad, v.after)]);
    assert Templates(List(v.after, [])) == [v.after];
  }

  lemma OneValue(t: Template, ctx: Context)
    ensures Values([t], ctx) == Eval(t, ctx, None) && "" + Values([t], ctx) == Values([t], ctx)
  {
    assert Values([t], ctx) == Eval(t, ctx, None) + Values([], ctx);
  }

  lemma SkippedValue(levels: seq<Level>, body: Template, ctx: Context)
    requires levels != [] && !Holds(levels[0].c, ctx)
    ensures Eval(Nest(levels, body), ctx, None) == Befores(levels, ctx) + Eval(levels[0].after, ctx, None)
  {
    hide Holds;
  }

  lemma TakenValue(levels: seq<Level>, body: Template, rest: string, ctx: Context)
    requires levels != [] && Holds(levels[0].c, ctx)
    requires Eval(Nest(levels[1..], body), ctx, None) == Befores(levels[1..], ctx) + rest
    ensures Eval(Nest(levels, body), ctx, None)
      == Befores(levels, ctx) + (rest + Eval(levels[0].after, ctx, None))
  {
    var v, inner := levels[0], Nest(levels[1..], body);
    AppendEval(v.before, inner, ctx);
    TakenUnfolds(levels, body, ctx);
    hide Eval, Holds, Nest, Befores, Append;
    var w := Eval(v.after, ctx, None);
    FourParts(Eval(v.before, ctx, None), Befores(levels[1..], ctx), rest, w);
  }

  lemma TakenUnfolds(levels: seq<Level>, body: Template, ctx: Context)
    requires levels != [] && Holds(levels[0].c, ctx)
    ensures Eval(Nest(levels, body), ctx, None)
      == Eval(Append(levels[0].before, Nest(levels[1..], body)), ctx, None) + Eval(levels[0].after, ctx, None)
    ensures Befores(levels, ctx) == Eval(levels[0].before, ctx, None) + Befores(levels[1..], ctx)
  {
    hide Holds, Append;
  }

  lemma FourParts(x: string, y: string, z: string, w: string)
    ensures x + (y + z) + w == x + y + (z + w)
  {}

  /** `range` at any place below a nest of `if` blocks of any depth, in the innermost branch or after the
      `end` of an inner block: the template has its value if and only if `Kept` says so. */
  lemma RangesUnderIfs(levels: seq<Level>, body: Template, ctx: Context, frames: nat, h: nat)
    requires levels != [] && ValidLevels(levels, h) && |levels| + h <= frames
    requires var l := ListOf(levels, body); Sound(l, h) && AllAlone(After(l, |levels|), ctx, frames)
    ensures Expand(Print(Nest(levels, body)), ctx, frames) == Ok(Eval(Nest(levels, body), ctx, None))
      <==> Kept(levels, body, ctx)
    ensures !Kept(levels, body, ctx) && !Closed(ListOf(levels, body), |levels| - Taken(levels, ctx), |levels|)
      ==> Expand(Print(Nest(levels, body)), ctx, frames) == Err(UnterminatedRange)
  {
    var l, n := ListOf(levels, body), |levels|;
    var j := n - Taken(levels, ctx);
    NestPrinted(levels, body);
    hide Expand, Print, Nest, Openers, ReadBranch, ListValue, Values, Templates, After, Eval, Befores, PieceSum,
      AllAlone,
      Sound, Closed, ListOf, Extra, Surplus, ValidLevels, Taken;
    NestExpands(levels, l, ctx, frames, h);
    BranchIs(levels, l, ctx);
    NestValue(levels, body, ctx);
    if Closed(l, j, n) {
      SumIsList(l, j, n, ctx);
      Assoc(Befores(levels, ctx), PieceSum(l, j, n, ctx), ListValue(After(l, n), ctx));
      SurplusFirst(l, j, ctx);
      Between(Befores(levels, ctx), Surplus(l, j, ctx), Values(Templates(l)[j..], ctx));
    }
  }

  lemma SurplusFirst(l: List, j: nat, ctx: Context)
    requires j <= |l.more|
    ensures |Templates(l)| == |l.more| + 1
    ensures ListValue(After(l, j), ctx) == Surplus(l, j, ctx) + Values(Templates(l)[j..], ctx)
  {
    KeepsItsLast(l, j);
    ListIsTemplates(After(l, j), ctx);
    var ts, x := Templates(After(l, j)), Extra(l, j);
    hide Templates, Values, ListValue, After;
    assert ts == ts[..x] + ts[x..];
    ValuesConcat(ts[..x], ts[x..], ctx);
  }

  /** Two `if` blocks and one `range` in the inner one, with `last` after it: the value is kept if and
      only if the outer condition holds, the inner one does not and `last` comes to nothing, or the outer
      one does not hold and what follows the inner block comes to nothing. */
  lemma RangeInInnerIf(outer: Level, inner: Level, body: Template, last: Template, ctx: Context)
    requires HasRange(body) && AfterEnd(body) == List(last, []) && !HasRange(last)
    ensures Kept([outer, inner], body, ctx) <==>
      || (Holds(outer.c, ctx) && !Holds(inner.c, ctx) && Eval(last, ctx, None) == "")
      || (!Holds(outer.c, ctx) && Eval(inner.after, ctx, None) == "")
  {
    hide AfterEnd, HasRange, Eval, Holds, Taken, Surplus, ListOf;
    var l := List(body, [Part(inner.pad, inner.after), Part(outer.pad, outer.after)]);
    TwoLevels(outer, inner, body);
    TakenOfTwo(outer, inner, ctx);
    TwoCuts(l, inner.after, outer, last, ctx);
    hide After;
  }

  lemma TwoCuts(l: List, after: Template, outer: Level, last: Template, ctx: Context)
    requires HasRange(l.first) && AfterEnd(l.first) == List(last, []) && !HasRange(last)
    requires |l.more| == 2 && l.more[0].t == after && l.more[1] == Part(outer.pad, outer.after)
    ensures After(l, 0) == l && After(l, 1).first == last && After(l, 2).first == after
    ensures Surplus(l, 0, ctx) == "" && Surplus(l, 1, ctx) == Eval(last, ctx, None) && Surplus(l, 2, ctx)
        == Eval(after, ctx, None)
  {
    hide AfterEnd, HasRange, Eval, Surplus;
    AfterIs(l, 0);
    AfterIs(l, 1);
    AfterIs(l, 2);
    assert [] + l.more == l.more;
    assert After(l, 1) == List(last, l.more) && After(l, 2) == List(after, l.more[1..]);
    hide After, Next;
    SurplusIs(l, 0, ctx);
    SurplusIs(l, 1, ctx);
    SurplusIs(l, 2, ctx);
    OneValue(last, ctx);
    OneValue(after, ctx);
  }

  lemma TwoLevels(outer: Level, inner: Level, body: Template)
    ensures ListOf([outer, inner], body) == List(body, [Part(inner.pad, inner.after), Part(outer.pad, outer.after)])
  {
    assert [outer, inner][1..] == [inner] && [inner][1..] == [];
    assert ListOf([inner], body) == List(body, [] + [Part(inner.pad, inner.after)]);
  }

  lemma TakenOfTwo(outer: Level, inner: Level, ctx: Context)
    ensures Taken([outer, inner], ctx) == if !Holds(outer.c, ctx) then 0 else if Holds(inner.c, ctx) then 2 else 1
  {
    hide Holds;
    assert [outer, inner][1..] == [inner] && [inner][1..] == [];
    assert Taken([], ctx) == 0;
  }

  /** At most one template in front. */
  lemma SurplusIs(l: List, j: nat, ctx: Context)
    requires j <= |l.more| && Extra(l, j) <= 1
    ensures Surplus(l, j, ctx) == Values(if Extra(l, j) == 0 then [] else [After(l, j).first], ctx)
  {
    KeepsItsLast(l, j);
    var ts := Templates(After(l, j));
    assert ts[0] == After(l, j).first;
    hide Values, Templates, After;
    assert ts[..Extra(l, j)] == if Extra(l, j) == 0 then [] else [After(l, j).first];
  }
}
