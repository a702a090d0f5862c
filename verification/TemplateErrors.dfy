/** How templates that are not well formed fail: after a well-formed template, a tag that is not closed, a
    block that is not closed, or a `join` without a separator is an error, and an `else` or `end` of no
    block is passed over. */
module TemplateErrors {
  import opened Wrappers
  import opened Strings
  import opened TemplateContext
  import opened TemplateArguments
  import opened TemplateConditions
  import opened TemplateBlocks
  import opened TemplateExpand
  import opened TemplateSyntax
  import opened TemplateMeaning

  /** The template can be expanded before the text in question. */
  ghost predicate Fits(t: Template, ctx: Context, frames: nat) {
    Valid(t, true) && PlainItems(t, ctx) && Height(t) <= frames
  }

  /** An error after a well-formed template is the error of the whole. */
  lemma ErrorAfter(t: Template, rest: string, ctx: Context, frames: nat)
    requires Fits(t, ctx, frames) && Expand(rest, ctx, frames).Err?
    ensures Expand(Print(t) + rest, ctx, frames) == Expand(rest, ctx, frames)
  {
    hide Print, Expand, Eval, Valid, PlainItems, Height;
    ExpandPrinted(t, rest, ctx, frames);
  }

  // ----- Tags that are not closed -----

  /** A tag that is opened and not closed. */
  lemma UnclosedTagFails(t: Template, text: string, raw: string, ctx: Context, frames: nat)
    requires Fits(t, ctx, frames) && '{' !in text && forall j: nat :: !At(raw, "}}", j)
    ensures Expand(Print(t) + (text + ("{{" + raw)), ctx, frames) == Err(UnclosedTag)
  {
    var s := text + ("{{" + raw);
    OpensAfter(text, raw);
    NotClosed(raw);
    assert s[|text| + 2..] == raw;
    hide Find, Expand, Fits;
    TagNeverClosed(s, ctx, frames);
    ErrorAfter(t, s, ctx, frames);
  }

  lemma NotClosed(raw: string)
    requires forall j: nat :: !At(raw, "}}", j)
    ensures Find(raw, "}}") == None
  {}

  // ----- Blocks that are not closed -----

  lemma NoneCloses(u: Template, text: string, ranges: bool)
    requires Valid(u, ranges) && '{' !in text
    ensures CloseIndex(Segs(Print(u) + text), 1, ranges) == None
  {
    hide Print, Valid, Flat, Neutral, Segs, Tail;
    var segs, q := ScanTemplate("", u, text, ranges);
    assert "" + (Print(u) + text) == Print(u) + text;
    NoTagIn(q + text);
    assert segs + [] == segs;
    CloseIndexExact(segs, ranges);
    StaysOpen(segs, ranges);
  }

  lemma NoTagIn(text: string)
    requires '{' !in text
    ensures Segs(text) == []
  {
    TextWithoutTags(text);
  }

  lemma StaysOpen(segs: seq<Seg>, ranges: bool)
    requires Neutral(segs, ranges)
    ensures forall k: nat :: !ClosesAt(segs, k, ranges)
  {
    forall k: nat ensures !ClosesAt(segs, k, ranges) {
      assert k < |segs| ==> Net(segs[..k + 1], ranges) >= 0;
    }
  }

  /** An `if` with no `end` of its own, whatever its condition. */
  lemma UnterminatedIfFails(t: Template, raw: string, u: Template, text: string, ctx: Context, frames: nat)
    requires Fits(t, ctx, frames) && NoBrace(raw) && "if " <= Trim(raw) && Valid(u, false) && '{' !in text
    ensures Expand(Print(t) + (PrintTag(raw) + (Print(u) + text)), ctx, frames) == Err(UnterminatedIf)
  {
    NoneCloses(u, text, false);
    var rest := Print(u) + text;
    hide Expand, Print, PrintTag, Trim, Segs, Valid, Fits, FromTag;
    ExpandAtTag(raw, rest, ctx, frames);
    IfTag(Trim(raw), rest, ctx, frames);
    ErrorAfter(t, PrintTag(raw) + rest, ctx, frames);
  }

  /** A `range` with no `end` of its own, whatever its items. */
  lemma UnterminatedRangeFails(t: Template, raw: string, u: Template, text: string, ctx: Context, frames: nat)
    requires Fits(t, ctx, frames) && NoBrace(raw) && "range " <= Trim(raw) && Valid(u, true) && '{' !in text
    ensures Expand(Print(t) + (PrintTag(raw) + (Print(u) + text)), ctx, frames) == Err(UnterminatedRange)
  {
    NoneCloses(u, text, true);
    var rest := Print(u) + text;
    hide Expand, Print, PrintTag, Trim, Segs, Valid, Fits, FromTag;
    ExpandAtTag(raw, rest, ctx, frames);
    RangeTag(Trim(raw), rest, ctx, frames);
    ErrorAfter(t, PrintTag(raw) + rest, ctx, frames);
  }

  // ----- Other tags -----

  /** A `join` of a path without a separator. */
  lemma JoinWithoutSeparatorFails(t: Template, pad: Pad, p: string, rest: string, ctx: Context, frames: nat)
    requires Fits(t, ctx, frames) && ValidPath(p) && NoBrace(p)
    ensures Expand(Print(t) + (Tag(pad, "join " + p) + rest), ctx, frames) == Err(JoinArguments)
  {
    OneArgument(p);
    var inner := "join " + p;
    assert Inner(inner) by { JoinInner(p); }
    TrimRaw(pad, inner);
    UnfoldTag(pad, inner);
    JoinTagValue(p, ctx);
    assert inner[0] == 'j';
    hide Expand, Print, PrintTag, Trim, Raw, Tag, Fits, FromTag, TagValue, FunctionArgs;
    ExpandAtTag(Raw(pad, inner), rest, ctx, frames);
    PlainTag(inner, rest, ctx, frames);
    ErrorAfter(t, Tag(pad, inner) + rest, ctx, frames);
  }

  lemma JoinInner(p: string)
    requires ValidPath(p) && NoBrace(p)
    ensures Inner("join " + p)
  {}

  lemma OneArgument(p: string)
    requires ValidPath(p)
    ensures |FunctionArgs(p)| == 1
  {
    PathShape(p);
    SplitOfPrinted([p], [0]);
  }

  /** An `else` or `end` that belongs to no block contributes nothing. */
  lemma StrayTagIsSkipped(raw: string, rest: string, ctx: Context, frames: nat)
    requires NoBrace(raw) && (Trim(raw) == "else" || Trim(raw) == "end")
    ensures Expand(PrintTag(raw) + rest, ctx, frames) == Expand(rest, ctx, frames)
  {
    var tag := Trim(raw);
    assert tag[0] == 'e' && |tag| <= 4;
    StrayValue(tag, ctx);
    hide Expand, Trim, TagValue, PrintTag, FromTag;
    ExpandAtTag(raw, rest, ctx, frames);
    PlainTag(tag, rest, ctx, frames);
    PrependNothing(Expand(rest, ctx, frames));
  }

  lemma StrayValue(tag: string, ctx: Context)
    requires tag == "else" || tag == "end"
    ensures TagValue(tag, ctx) == Ok("")
  {
    assert tag[1] == 'l' || tag[1] == 'n';
  }
}
