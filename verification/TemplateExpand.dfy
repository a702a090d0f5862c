/** The template interpreter (`expand` in template.rs), why it terminates, and when it does not. */
module TemplateExpand {
  import opened Wrappers
  import opened Strings
  import opened TemplateContext
  import opened TemplateArguments
  import opened TemplateConditions
  import opened TemplateBlocks

  datatype Error = UnclosedTag | UnterminatedIf | UnterminatedRange | JoinArguments

  /** What a call of `expand` comes to. `expand` calls itself on bodies; `Overflow` is the end of
      the call stack. */
  datatype Outcome = Ok(text: string) | Err(error: Error) | Panicked | Overflow

  function Prepend(text: string, r: Outcome): Outcome {
    if r.Ok? then Ok(text + r.text) else r
  }

  // ----- One tag -----

  function JoinTag(args: string, ctx: Context): Outcome {
    var words := FunctionArgs(args);
    if |words| < 2 then Err(JoinArguments)
    else
      var sep := StripStart(StripEnd(StripStart(StripEnd(words[1], '"'), '"'), '\''), '\'');
      Ok(Join(Iterable(ctx, words[0]), sep))
  }

  function OfComputed(e: Computed<bool>, yes: string, no: string): Outcome {
    match e
    case Value(b) => Ok(if b then yes else no)
    case Panic => Panicked
  }

  /** The text a tag other than `if` and `range` stands for. */
  function TagValue(tag: string, ctx: Context): Outcome {
    if "join " <= tag then JoinTag(tag[5..], ctx)
    else if "or " <= tag then Ok(EvaluateOr(tag[3..], ctx))
    else if "eq " <= tag then OfComputed(EvaluateEq(tag[3..], ctx), "true", "false")
    else if "and " <= tag then OfComputed(EvaluateAnd(tag[4..], ctx), "true", "")
    else if "not " <= tag then Ok(if Truthy(ctx, Trim(tag[4..])) then "" else "true")
    else if tag == "else" || tag == "end" then Ok("")
    else Ok(Resolve(ctx, tag))
  }

  /** The body of a `range`, with the item written in place of the dot. */
  function WithItem(body: string, item: string): string {
    Replace(Replace(body, "{{ . }}", item), "{{.}}", item)
  }

  // ----- The interpreter -----

  /** The expansion of `s` with room for `frames` nested calls. */
  function Expand(s: string, ctx: Context, frames: nat): Outcome
    decreases frames, 1, |s|, 0
  {
    match FindTag(s)
    case NoTag => Ok(s)
    case Unclosed => Err(UnclosedTag)
    case Tagged(lit, raw, rest) => Prepend(lit, FromTag(Trim(raw), rest, ctx, frames))
  }

  /** The expansion from a tag on, when `rest` follows the tag. */
  function FromTag(tag: string, rest: string, ctx: Context, frames: nat): Outcome
    decreases frames, 1, |rest|, 1
  {
    if "if " <= tag then
      match IfBlockOf(rest)
      case None => Err(UnterminatedIf)
      case Some(b) =>
        IfBlockText(rest);
        var r := Choose(Condition(Trim(tag[3..]), ctx), b, ctx, frames);
        if r.Ok? then Prepend(r.text, Expand(b.rest, ctx, frames)) else r
    else if "range " <= tag then
      match RangeBlockOf(rest)
      case None => Err(UnterminatedRange)
      case Some(b) =>
        RangeBlockText(rest);
        var r := Repeat(b.body, Iterable(ctx, Trim(tag[6..])), ctx, frames);
        if r.Ok? then Prepend(r.text, Expand(b.rest, ctx, frames)) else r
    else
      var r := TagValue(tag, ctx);
      if r.Ok? then Prepend(r.text, Expand(rest, ctx, frames)) else r
  }

  /** The branch of an `if` that its condition selects. */
  function Choose(condition: Computed<bool>, b: IfBlock, ctx: Context, frames: nat): Outcome
    decreases frames, 0, 1
  {
    match condition
    case Panic => Panicked
    case Value(holds) =>
      if holds then Recurse(b.ifBody, ctx, frames)
      else if b.elseBody.Some? then Recurse(b.elseBody.value, ctx, frames)
      else Ok("")
  }

  /** The recursive call. */
  function Recurse(s: string, ctx: Context, frames: nat): Outcome
    decreases frames, 0, 0
  {
    if frames == 0 then Overflow else Expand(s, ctx, frames - 1)
  }

  function Repeat(body: string, items: seq<string>, ctx: Context, frames: nat): Outcome
    decreases frames, 0, |items|
  {
    if items == [] then Ok("")
    else
      var r := Recurse(WithItem(body, items[0]), ctx, frames);
      if r.Ok? then Prepend(r.text, Repeat(body, items[1..], ctx, frames)) else r
  }

  // ----- The loop -----

  method ExpandTemplate(template: string, ctx: Context, frames: nat) returns (r: Outcome)
    ensures r == Expand(template, ctx, frames)
    decreases frames
  {
    hide IfBlockOf, RangeBlockOf, Condition, TagValue, WithItem, Iterable, Find, Trim, FindTag, Expand, FromTag, Repeat;
    hide AtTag, AtText, InBody;
    var output := "";
    var pos := 0;
    AtStart(template, ctx, frames);
    while pos < |template|
      invariant pos <= |template| && AtText(template, ctx, frames, output, pos)
      decreases |template| - pos
    {
      var found := Find(template[pos..], "{{");
      if found.None? {
        TextEnds(template, ctx, frames, output, pos);
        return Ok(output + template[pos..]);
      }
      var start := found.value;
      var tagStart := pos + start + 2;
      AtDrop(template, "{{", pos, start);
      var closing := Find(template[tagStart..], "}}");
      if closing.None? {
        TagStaysOpen(template, ctx, frames, output, pos);
        return Err(UnclosedTag);
      }
      TagBegins(template, ctx, frames, output, pos, start, closing.value);
      output := output + template[pos..pos + start];
      var end := tagStart + closing.value;
      var tag := Trim(template[tagStart..end]);
      pos := end + 2;
      if "if " <= tag {
        var block := ParseIfBlock(template, pos);
        if block.None? {
          IfStaysOpen(template, ctx, frames, output, tag, pos);
          return Err(UnterminatedIf);
        }
        var (ifBody, elseBody, newPos) := block.value;
        IfBegins(template, ctx, frames, output, tag, pos, ifBody, elseBody, newPos);
        pos := newPos;
        var condition := Condition(Trim(tag[3..]), ctx);
        ghost var chosen := Choose(condition, IfBlock(ifBody, elseBody, template[newPos..]), ctx, frames);
        var value := Ok("");
        if condition.Panic? {
          value := Panicked;
        } else if condition.value || elseBody.Some? {
          if frames == 0 {
            value := Overflow;
          } else {
            value := ExpandTemplate(if condition.value then ifBody else elseBody.value, ctx, frames - 1);
          }
        }
        BodyEnds(template, ctx, frames, output, chosen, pos);
        if !value.Ok? {
          return value;
        }
        output := output + value.text;
      } else if "range " <= tag {
        var block := ParseRangeBlock(template, pos);
        if block.None? {
          RangeStaysOpen(template, ctx, frames, output, tag, pos);
          return Err(UnterminatedRange);
        }
        var (body, newPos) := block.value;
        RangeBegins(template, ctx, frames, output, tag, pos, body, newPos);
        pos := newPos;
        var items := Iterable(ctx, Trim(tag[6..]));
        assert items[0..] == items;
        for i := 0 to |items|
          invariant InBody(template, ctx, frames, output, Repeat(body, items[i..], ctx, frames), pos)
        {
          OneItem(template, ctx, frames, output, body, items, i, pos);
          if frames == 0 {
            return Overflow;
          }
          var item := ExpandTemplate(WithItem(body, items[i]), ctx, frames - 1);
          if !item.Ok? {
            return item;
          }
          output := output + item.text;
        }
        NoItem(template, ctx, frames, output, body, items, pos);
      } else {
        var value := TagValue(tag, ctx);
        PlainBegins(template, ctx, frames, output, tag, pos);
        BodyEnds(template, ctx, frames, output, value, pos);
        if !value.Ok? {
          return value;
        }
        output := output + value.text;
      }
    }
    AllRead(template, ctx, frames, output);
    return Ok(output);
  }

  /** What is left to expand after a block or tag that came to `r`. */
  function AfterBody(r: Outcome, rest: string, ctx: Context, frames: nat): Outcome {
    if r.Ok? then Prepend(r.text, Expand(rest, ctx, frames)) else r
  }

  // The states of the loop: what is still to be added to `output`.

  /** `output` has been written, and the text from `pos` on is still to be expanded. */
  ghost predicate AtText(t: string, ctx: Context, frames: nat, output: string, pos: nat) {
    pos <= |t| && Expand(t, ctx, frames) == Prepend(output, Expand(t[pos..], ctx, frames))
  }

  /** A tag has been read, and `pos` is after it. */
  ghost predicate AtTag(t: string, ctx: Context, frames: nat, output: string, tag: string, pos: nat) {
    pos <= |t| && Expand(t, ctx, frames) == Prepend(output, FromTag(tag, t[pos..], ctx, frames))
  }

  /** The block or tag before `pos` still has to contribute `r`. */
  ghost predicate InBody(t: string, ctx: Context, frames: nat, output: string, r: Outcome, pos: nat) {
    pos <= |t| && Expand(t, ctx, frames) == Prepend(output, AfterBody(r, t[pos..], ctx, frames))
  }

  lemma AtStart(t: string, ctx: Context, frames: nat)
    ensures AtText(t, ctx, frames, "", 0)
  {
    hide Expand;
    assert t[0..] == t;
    var e := Expand(t, ctx, frames);
    assert e.Ok? ==> "" + e.text == e.text;
  }

  lemma TextEnds(t: string, ctx: Context, frames: nat, output: string, pos: nat)
    requires AtText(t, ctx, frames, output, pos) && Find(t[pos..], "{{") == None
    ensures Expand(t, ctx, frames) == Ok(output + t[pos..])
  {
    hide Expand, Find;
    NoMoreTags(t[pos..], ctx, frames);
  }

  lemma AllRead(t: string, ctx: Context, frames: nat, output: string)
    requires AtText(t, ctx, frames, output, |t|)
    ensures Expand(t, ctx, frames) == Ok(output)
  {
    hide Expand;
    assert t[|t|..] == "";
    EmptyText(ctx, frames);
  }

  lemma TagStaysOpen(t: string, ctx: Context, frames: nat, output: string, pos: nat)
    requires AtText(t, ctx, frames, output, pos) && Find(t[pos..], "{{").Some?
    requires var after := pos + Find(t[pos..], "{{").value + 2; after <= |t| && Find(t[after..], "}}") == None
    ensures Expand(t, ctx, frames) == Err(UnclosedTag)
  {
    hide Expand, Find;
    var i := Find(t[pos..], "{{").value;
    assert t[pos..][i + 2..] == t[pos + i + 2..];
    TagNeverClosed(t[pos..], ctx, frames);
  }

  lemma TagBegins(t: string, ctx: Context, frames: nat, output: string, pos: nat, i: nat, j: nat)
    requires AtText(t, ctx, frames, output, pos) && Find(t[pos..], "{{") == Some(i)
    requires pos + i + 2 <= |t| && Find(t[pos + i + 2..], "}}") == Some(j)
    ensures pos + i + j + 4 <= |t|
    ensures AtTag(t, ctx, frames, output + t[pos..pos + i], Trim(t[pos + i + 2..pos + i + 2 + j]), pos + i + j + 4)
  {
    hide Expand, FromTag, Find, FindTag, Trim;
    TagSlices(t, pos, i, j);
    TagFound(t[pos..], ctx, frames);
    PrependAgain(output, t[pos..pos + i], FromTag(Trim(FindTag(t[pos..]).raw), FindTag(t[pos..]).rest, ctx, frames));
  }

  lemma PrependAgain(a: string, b: string, r: Outcome)
    ensures Prepend(a, Prepend(b, r)) == Prepend(a + b, r)
  {
    if r.Ok? {
      assert a + (b + r.text) == a + b + r.text;
    }
  }

  lemma IfStaysOpen(t: string, ctx: Context, frames: nat, output: string, tag: string, pos: nat)
    requires AtTag(t, ctx, frames, output, tag, pos) && "if " <= tag && IfBlockOf(t[pos..]).None?
    ensures Expand(t, ctx, frames) == Err(UnterminatedIf)
  {
    hide Expand, FromTag, IfBlockOf;
    IfTag(tag, t[pos..], ctx, frames);
  }

  lemma IfBegins(t: string, ctx: Context, frames: nat, output: string, tag: string, pos: nat,
                 ifBody: string, elseBody: Option<string>, newPos: nat)
    requires AtTag(t, ctx, frames, output, tag, pos) && "if " <= tag && newPos <= |t|
    requires IfBlockOf(t[pos..]) == Some(IfBlock(ifBody, elseBody, t[newPos..]))
    ensures InBody(t, ctx, frames, output,
                   Choose(Condition(Trim(tag[3..]), ctx), IfBlock(ifBody, elseBody, t[newPos..]), ctx, frames), newPos)
  {
    hide Expand, FromTag, IfBlockOf, Condition, Choose, Trim;
    IfTag(tag, t[pos..], ctx, frames);
  }

  lemma RangeStaysOpen(t: string, ctx: Context, frames: nat, output: string, tag: string, pos: nat)
    requires AtTag(t, ctx, frames, output, tag, pos) && "range " <= tag && RangeBlockOf(t[pos..]).None?
    ensures Expand(t, ctx, frames) == Err(UnterminatedRange)
  {
    hide Expand, FromTag, RangeBlockOf;
    RangeTag(tag, t[pos..], ctx, frames);
  }

  lemma RangeBegins(t: string, ctx: Context, frames: nat, output: string, tag: string, pos: nat, body: string,
                    newPos: nat)
    requires AtTag(t, ctx, frames, output, tag, pos) && "range " <= tag && newPos <= |t|
    requires RangeBlockOf(t[pos..]) == Some(RangeBlock(body, t[newPos..]))
    ensures InBody(t, ctx, frames, output, Repeat(body, Iterable(ctx, Trim(tag[6..])), ctx, frames), newPos)
  {
    hide Expand, FromTag, RangeBlockOf, Repeat, Iterable, Trim;
    RangeTag(tag, t[pos..], ctx, frames);
  }

  lemma PlainBegins(t: string, ctx: Context, frames: nat, output: string, tag: string, pos: nat)
    requires AtTag(t, ctx, frames, output, tag, pos) && !("if " <= tag) && !("range " <= tag)
    ensures InBody(t, ctx, frames, output, TagValue(tag, ctx), pos)
  {
    hide Expand, FromTag, TagValue;
    PlainTag(tag, t[pos..], ctx, frames);
  }

  /** A body that came to a text adds it to the output; anything else is the result. */
  lemma BodyEnds(t: string, ctx: Context, frames: nat, output: string, r: Outcome, pos: nat)
    requires InBody(t, ctx, frames, output, r, pos)
    ensures if r.Ok? then AtText(t, ctx, frames, output + r.text, pos) else Expand(t, ctx, frames) == r
  {
    hide Expand;
    if r.Ok? {
      PrependAgain(output, r.text, Expand(t[pos..], ctx, frames));
    }
  }

  lemma OneItem(t: string, ctx: Context, frames: nat, output: string, body: string, items: seq<string>, i: nat,
                pos: nat)
    requires i < |items| && InBody(t, ctx, frames, output, Repeat(body, items[i..], ctx, frames), pos)
    ensures var r := Recurse(WithItem(body, items[i]), ctx, frames);
      if r.Ok? then InBody(t, ctx, frames, output + r.text, Repeat(body, items[i + 1..], ctx, frames), pos)
      else Expand(t, ctx, frames) == r
  {
    hide Expand, Repeat, Recurse, WithItem, AfterBody;
    RepeatUnfolds(body, items, i, t[pos..], ctx, frames);
    var r := Recurse(WithItem(body, items[i]), ctx, frames);
    if r.Ok? {
      PrependAgain(output, r.text, AfterBody(Repeat(body, items[i + 1..], ctx, frames), t[pos..], ctx, frames));
    }
  }

  lemma NoItem(t: string, ctx: Context, frames: nat, output: string, body: string, items: seq<string>, pos: nat)
    requires InBody(t, ctx, frames, output, Repeat(body, items[|items|..], ctx, frames), pos)
    ensures AtText(t, ctx, frames, output, pos)
  {
    hide Expand, Repeat, AfterBody;
    NothingToRepeat(body, items, t[pos..], ctx, frames);
  }

  lemma NoMoreTags(s: string, ctx: Context, frames: nat)
    requires Find(s, "{{") == None
    ensures Expand(s, ctx, frames) == Ok(s)
  {}

  lemma EmptyText(ctx: Context, frames: nat)
    ensures Expand("", ctx, frames) == Ok("")
  {
    assert FindTag("") == NoTag;
  }

  lemma TagNeverClosed(s: string, ctx: Context, frames: nat)
    requires Find(s, "{{").Some? && Find(s[Find(s, "{{").value + 2..], "}}") == None
    ensures Expand(s, ctx, frames) == Err(UnclosedTag)
  {}

  lemma TagFound(s: string, ctx: Context, frames: nat)
    requires FindTag(s).Tagged?
    ensures var t := FindTag(s);
      Expand(s, ctx, frames) == Prepend(t.lit, FromTag(Trim(t.raw), t.rest, ctx, frames))
  {}

  lemma IfTag(tag: string, rest: string, ctx: Context, frames: nat)
    requires "if " <= tag
    ensures FromTag(tag, rest, ctx, frames) ==
      match IfBlockOf(rest)
      case None => Err(UnterminatedIf)
      case Some(b) => AfterBody(Choose(Condition(Trim(tag[3..]), ctx), b, ctx, frames), b.rest, ctx, frames)
  {
    hide Expand, IfBlockOf, Condition, Choose;
  }

  lemma RangeTag(tag: string, rest: string, ctx: Context, frames: nat)
    requires "range " <= tag
    ensures FromTag(tag, rest, ctx, frames) ==
      match RangeBlockOf(rest)
      case None => Err(UnterminatedRange)
      case Some(b) => AfterBody(Repeat(b.body, Iterable(ctx, Trim(tag[6..])), ctx, frames), b.rest, ctx, frames)
  {
    hide Expand, RangeBlockOf, Repeat;
    assert tag[0] == 'r';
  }

  lemma PlainTag(tag: string, rest: string, ctx: Context, frames: nat)
    requires !("if " <= tag) && !("range " <= tag)
    ensures FromTag(tag, rest, ctx, frames) == AfterBody(TagValue(tag, ctx), rest, ctx, frames)
  {
    hide Expand, TagValue;
  }

  lemma RepeatUnfolds(body: string, items: seq<string>, i: nat, after: string, ctx: Context, frames: nat)
    requires i < |items|
    ensures AfterBody(Repeat(body, items[i..], ctx, frames), after, ctx, frames) ==
      var r := Recurse(WithItem(body, items[i]), ctx, frames);
      if r.Ok? then Prepend(r.text, AfterBody(Repeat(body, items[i + 1..], ctx, frames), after, ctx, frames)) else r
  {
    assert items[i..][1..] == items[i + 1..];
    var r := Recurse(WithItem(body, items[i]), ctx, frames);
    hide Recurse, WithItem, Expand;
    if r.Ok? {
      PrependTwice(r.text, Repeat(body, items[i + 1..], ctx, frames), after, ctx, frames);
    }
  }

  lemma NothingToRepeat(body: string, items: seq<string>, after: string, ctx: Context, frames: nat)
    ensures AfterBody(Repeat(body, items[|items|..], ctx, frames), after, ctx, frames) == Expand(after, ctx, frames)
  {
    hide Expand;
    var e := Expand(after, ctx, frames);
    assert items[|items|..] == [];
    assert e.Ok? ==> "" + e.text == e.text;
  }

  lemma PrependTwice(text: string, r: Outcome, after: string, ctx: Context, frames: nat)
    ensures AfterBody(Prepend(text, r), after, ctx, frames) == Prepend(text, AfterBody(r, after, ctx, frames))
  {
    hide Expand;
    var e := Expand(after, ctx, frames);
    if r.Ok? && e.Ok? {
      assert text + r.text + e.text == text + (r.text + e.text);
    }
  }

  // ----- Termination -----

  lemma CountParts(a: string, b: string, c: string, ch: char)
    ensures Count(a + b + c, ch) == Count(a, ch) + Count(b, ch) + Count(c, ch)
  {
    CountConcat(a + b, c, ch);
    CountConcat(a, b, ch);
  }

  lemma TagCount(raw: string)
    ensures Count(PrintTag(raw), '{') >= 2
  {
    CountParts("{{", raw, "}}", '{');
    assert "{{"[1..] == "{";
  }

  /** The bodies of a block, and what follows it, have at least two braces fewer than the text the
      block is cut from. */
  lemma IfBlockCount(s: string)
    requires IfBlockOf(s).Some?
    ensures var b := IfBlockOf(s).value;
      && Count(b.ifBody, '{') + 2 <= Count(s, '{')
      && (b.elseBody.Some? ==> Count(b.elseBody.value, '{') + 2 <= Count(s, '{'))
      && Count(b.rest, '{') + 2 <= Count(s, '{')
  {
    IfBlockText(s);
    hide IfBlockOf, PrintTag, Count;
    var b := IfBlockOf(s).value;
    var elseRaw, endRaw :| IfBlockCovers(s, b, elseRaw, endRaw);
    TagCount(endRaw);
    TagCount(elseRaw);
    match b.elseBody
    case None =>
      CountParts(b.ifBody, PrintTag(endRaw), b.rest, '{');
    case Some(e) =>
      CountParts(b.ifBody, PrintTag(elseRaw), e, '{');
      CountParts(b.ifBody + PrintTag(elseRaw) + e, PrintTag(endRaw), b.rest, '{');
  }

  lemma RangeBlockCount(s: string)
    requires RangeBlockOf(s).Some?
    ensures var b := RangeBlockOf(s).value;
      Count(b.body, '{') + 2 <= Count(s, '{') && Count(b.rest, '{') + 2 <= Count(s, '{')
  {
    RangeBlockText(s);
    hide RangeBlockOf, PrintTag, Count;
    var b := RangeBlockOf(s).value;
    var endRaw :| RangeBlockCovers(s, b, endRaw);
    TagCount(endRaw);
    CountParts(b.body, PrintTag(endRaw), b.rest, '{');
  }

  lemma TaggedCount(s: string)
    requires FindTag(s).Tagged?
    ensures Count(FindTag(s).rest, '{') + 2 <= Count(s, '{')
  {
    var t := FindTag(s);
    CountParts(t.lit, PrintTag(t.raw), t.rest, '{');
    TagCount(t.raw);
  }

  /** Writing a brace-free item in place of the dot adds no brace. */
  lemma WithItemCount(body: string, item: string)
    requires '{' !in item
    ensures Count(WithItem(body, item), '{') <= Count(body, '{')
  {
    ReplaceCount(body, "{{ . }}", item, '{');
    ReplaceCount(Replace(body, "{{ . }}", item), "{{.}}", item, '{');
  }

  /** With values free of `{`, the call stack never needs to be deeper than half the number of
      `{` in the template: the recursion ends although substitution can make the text longer. */
  lemma {:induction false} NoOverflow(s: string, ctx: Context, frames: nat)
    requires Without(ctx, '{') && Count(s, '{') <= 2 * frames
    ensures Expand(s, ctx, frames) != Overflow
    decreases frames, 1, |s|, 0
  {
    hide Trim, Count, Find, FromTag;
    if FindTag(s).Tagged? {
      TagFound(s, ctx, frames);
      TaggedCount(s);
      TaggedText(s);
      NoOverflowFromTag(Trim(FindTag(s).raw), FindTag(s).rest, ctx, frames);
    }
  }

  lemma {:induction false} NoOverflowFromTag(tag: string, rest: string, ctx: Context, frames: nat)
    requires Without(ctx, '{') && Count(rest, '{') + 2 <= 2 * frames
    ensures FromTag(tag, rest, ctx, frames) != Overflow
    decreases frames, 1, |rest|, 1
  {
    hide IfBlockOf, RangeBlockOf, Condition, TagValue, Iterable, Trim, Count, Expand, FromTag;
    if "if " <= tag {
      IfTag(tag, rest, ctx, frames);
      if IfBlockOf(rest).Some? {
        IfBlockCount(rest);
        IfBlockShorter(rest);
        var b := IfBlockOf(rest).value;
        NoOverflow(b.ifBody, ctx, frames - 1);
        if b.elseBody.Some? {
          NoOverflow(b.elseBody.value, ctx, frames - 1);
        }
        NoOverflow(b.rest, ctx, frames);
      }
    } else if "range " <= tag {
      RangeTag(tag, rest, ctx, frames);
      if RangeBlockOf(rest).Some? {
        RangeBlockCount(rest);
        RangeBlockShorter(rest);
        var b := RangeBlockOf(rest).value;
        var path := Trim(tag[6..]);
        IterableWithout(ctx, path, '{');
        RepeatNoOverflow(b.body, Iterable(ctx, path), ctx, frames);
        NoOverflow(b.rest, ctx, frames);
      }
    } else {
      PlainTag(tag, rest, ctx, frames);
      TagsHaveValues(tag, ctx);
      NoOverflow(rest, ctx, frames);
    }
  }

  lemma TagsHaveValues(tag: string, ctx: Context)
    ensures TagValue(tag, ctx) != Overflow
  {}

  lemma TaggedText(s: string)
    requires FindTag(s).Tagged?
    ensures |FindTag(s).rest| < |s|
  {}

  lemma IfBlockShorter(s: string)
    requires IfBlockOf(s).Some?
    ensures |IfBlockOf(s).value.rest| < |s|
  {
    IfBlockText(s);
  }

  lemma RangeBlockShorter(s: string)
    requires RangeBlockOf(s).Some?
    ensures |RangeBlockOf(s).value.rest| < |s|
  {
    RangeBlockText(s);
  }

  lemma {:induction false} RepeatNoOverflow(body: string, items: seq<string>, ctx: Context, frames: nat)
    requires Without(ctx, '{') && frames > 0 && Count(body, '{') <= 2 * (frames - 1)
    requires forall item <- items :: '{' !in item
    ensures Repeat(body, items, ctx, frames) != Overflow
    decreases frames, 0, |items|
  {
    if items != [] {
      WithItemCount(body, items[0]);
      NoOverflow(WithItem(body, items[0]), ctx, frames - 1);
      RepeatNoOverflow(body, items[1..], ctx, frames);
    }
  }

  /** A call that did not run out of stack is not changed by more stack. */
  lemma {:induction false} MoreFrames(s: string, ctx: Context, frames: nat, more: nat)
    requires Expand(s, ctx, frames) != Overflow && frames <= more
    ensures Expand(s, ctx, more) == Expand(s, ctx, frames)
    decreases frames, 1, |s|, 0
  {
    hide Trim, Find, FromTag;
    if FindTag(s).Tagged? {
      TagFound(s, ctx, frames);
      TagFound(s, ctx, more);
      TaggedText(s);
      FromTagMoreFrames(Trim(FindTag(s).raw), FindTag(s).rest, ctx, frames, more);
    }
  }

  lemma {:induction false} FromTagMoreFrames(tag: string, rest: string, ctx: Context, frames: nat, more: nat)
    requires FromTag(tag, rest, ctx, frames) != Overflow && frames <= more
    ensures FromTag(tag, rest, ctx, more) == FromTag(tag, rest, ctx, frames)
    decreases frames, 1, |rest|, 1
  {
    hide IfBlockOf, RangeBlockOf, Condition, TagValue, Iterable, Trim, Expand, FromTag, Recurse, Repeat;
    if "if " <= tag {
      IfTag(tag, rest, ctx, frames);
      IfTag(tag, rest, ctx, more);
      if IfBlockOf(rest).Some? {
        IfBlockShorter(rest);
        var b := IfBlockOf(rest).value;
        var c := Condition(Trim(tag[3..]), ctx);
        if c.Value? && (c.value || b.elseBody.Some?) {
          RecurseMoreFrames(if c.value then b.ifBody else b.elseBody.value, ctx, frames, more);
        }
        if Choose(c, b, ctx, frames).Ok? {
          MoreFrames(b.rest, ctx, frames, more);
        }
      }
    } else if "range " <= tag {
      RangeTag(tag, rest, ctx, frames);
      RangeTag(tag, rest, ctx, more);
      if RangeBlockOf(rest).Some? {
        RangeBlockShorter(rest);
        var b := RangeBlockOf(rest).value;
        var items := Iterable(ctx, Trim(tag[6..]));
        RepeatMoreFrames(b.body, items, ctx, frames, more);
        if Repeat(b.body, items, ctx, frames).Ok? {
          MoreFrames(b.rest, ctx, frames, more);
        }
      }
    } else {
      PlainTag(tag, rest, ctx, frames);
      PlainTag(tag, rest, ctx, more);
      if TagValue(tag, ctx).Ok? {
        MoreFrames(rest, ctx, frames, more);
      }
    }
  }

  lemma {:induction false} RecurseMoreFrames(s: string, ctx: Context, frames: nat, more: nat)
    requires Recurse(s, ctx, frames) != Overflow && frames <= more
    ensures Recurse(s, ctx, more) == Recurse(s, ctx, frames)
    decreases frames, 0, 0, 0
  {
    hide Expand;
    if frames > 0 {
      MoreFrames(s, ctx, frames - 1, more - 1);
    }
  }

  lemma {:induction false} RepeatMoreFrames(body: string, items: seq<string>, ctx: Context, frames: nat, more: nat)
    requires Repeat(body, items, ctx, frames) != Overflow && frames <= more
    ensures Repeat(body, items, ctx, more) == Repeat(body, items, ctx, frames)
    decreases frames, 0, |items|
  {
    if items != [] {
      var s := WithItem(body, items[0]);
      RecurseMoreFrames(s, ctx, frames, more);
      if Recurse(s, ctx, frames).Ok? {
        RepeatMoreFrames(body, items[1..], ctx, frames, more);
      }
    }
  }

  /** Termination: when no value contains `{`, every template, well formed or not, has one result,
      and it is reached with a stack bounded by the template's own braces. */
  lemma Terminates(s: string, ctx: Context, frames: nat)
    requires Without(ctx, '{') && Count(s, '{') <= 2 * frames
    ensures Expand(s, ctx, frames) != Overflow
    ensures forall more: nat :: frames <= more ==> Expand(s, ctx, more) == Expand(s, ctx, frames)
  {
    NoOverflow(s, ctx, frames);
    forall more: nat | frames <= more ensures Expand(s, ctx, more) == Expand(s, ctx, frames) {
      MoreFrames(s, ctx, frames, more);
    }
  }
}
