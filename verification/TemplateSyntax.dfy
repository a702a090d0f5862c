/** Templates as trees: how they are written, what they mean, and where their tags stand in the
    text they are written as. */
module TemplateSyntax {
  import opened Wrappers
  import opened Strings
  import opened TemplateContext
  import opened TemplateArguments
  import opened TemplateConditions
  import opened TemplateBlocks

  // ----- Trees -----

  /** The tags that stand for a text of their own. */
  datatype Expr =
    | Variable(path: string)
    | JoinOf(path: string, sep: string)
    | FirstOf(paths: seq<string>)
    | Equal(left: Operand, right: Operand)
    | AllOf(args: seq<Cond>)
    | Negated(path: string)

  /** Both spellings of a tag's inside: `{{x}}` and `{{ x }}`. */
  datatype Pad = Tight | Spaced {
    function Text(): string {
      if Spaced? then " " else ""
    }
  }

  /** A template is a list of parts; the bodies of blocks are templates again. */
  datatype Template =
    | Nil
    | Literally(text: string, next: Template)
    | Show(pad: Pad, e: Expr, next: Template)
    | Dot(pad: Pad, next: Template)
    | If(pad: Pad, c: Cond, thn: Template, els: Option<Template>, next: Template)
    | Range(pad: Pad, path: string, body: Template, next: Template)

  // ----- How they are written -----

  function PrintExpr(e: Expr): string {
    match e
    case Variable(p) => p
    case JoinOf(p, sep) => "join " + SingleSpaced([p, "\"" + sep + "\""])
    case FirstOf(ps) => "or " + SingleSpaced(ps)
    case Equal(a, b) => "eq " + SingleSpaced([PrintOperand(a), PrintOperand(b)])
    case AllOf(args) => "and " + SingleSpaced(Words(args, false))
    case Negated(p) => "not " + p
  }

  function Raw(pad: Pad, inner: string): string {
    pad.Text() + inner + pad.Text()
  }

  function Tag(pad: Pad, inner: string): string {
    PrintTag(Raw(pad, inner))
  }

  function Print(t: Template): string
    decreases t
  {
    match t
    case Nil => ""
    case Literally(s, next) => s + Print(next)
    case Show(pad, e, next) => Tag(pad, PrintExpr(e)) + Print(next)
    case Dot(pad, next) => Tag(pad, ".") + Print(next)
    case If(pad, c, thn, els, next) =>
      Tag(pad, "if " + PrintCond(c)) + (Print(thn) + (PrintElse(pad, els) + (Tag(pad, "end") + Print(next))))
    case Range(pad, p, body, next) =>
      Tag(pad, "range " + p) + (Print(body) + (Tag(pad, "end") + Print(next)))
  }

  function PrintElse(pad: Pad, els: Option<Template>): string
    decreases els
  {
    match els
    case None => ""
    case Some(t) => Tag(pad, "else") + Print(t)
  }

  predicate NoBrace(s: string) {
    '{' !in s && '}' !in s
  }

  predicate ValidExpr(e: Expr) {
    && NoBrace(PrintExpr(e))
    && match e
       case Variable(p) => ValidPath(p)
       case JoinOf(p, sep) => ValidPath(p) && forall c <- sep :: !IsQuote(c)
       case FirstOf(ps) => ps != [] && forall p <- ps :: ValidPath(p)
       case Equal(a, b) => ValidOperand(a) && ValidOperand(b)
       case AllOf(args) => ValidCond(And(args))
       case Negated(p) => ValidPath(p)
  }

  /** Well-formed templates: text without `{`, tags without braces, and no `range` anywhere below
      an `if`, because the matcher of `if` blocks does not count `range` as an opener. */
  predicate Valid(t: Template, ranges: bool) {
    match t
    case Nil => true
    case Literally(s, next) => '{' !in s && Valid(next, ranges)
    case Show(_, e, next) => ValidExpr(e) && Valid(next, ranges)
    case Dot(_, next) => Valid(next, ranges)
    case If(_, c, thn, els, next) =>
      && ValidCond(c) && NoBrace(PrintCond(c))
      && Valid(thn, false)
      && (els.Some? ==> Valid(els.value, false))
      && Valid(next, ranges)
    case Range(_, p, body, next) =>
      ranges && ValidPath(p) && NoBrace(p) && Valid(body, true) && Valid(next, ranges)
  }

  lemma {:induction false} ValidWeakens(t: Template)
    requires Valid(t, false)
    ensures Valid(t, true)
  {
    match t
    case Nil =>
    case Literally(_, next) => ValidWeakens(next);
    case Show(_, _, next) => ValidWeakens(next);
    case Dot(_, next) => ValidWeakens(next);
    case If(_, _, _, _, next) => ValidWeakens(next);
  }

  // ----- What they mean -----

  function FirstTruthyOf(paths: seq<string>, ctx: Context): string {
    if paths == [] then ""
    else
      var v := Resolve(ctx, paths[0]);
      if TruthyValue(v) then v else FirstTruthyOf(paths[1..], ctx)
  }

  function ExprValue(e: Expr, ctx: Context): string {
    match e
    case Variable(p) => Resolve(ctx, p)
    case JoinOf(p, sep) => Join(Iterable(ctx, p), sep)
    case FirstOf(ps) => FirstTruthyOf(ps, ctx)
    case Equal(a, b) => if OperandValue(a, ctx) == OperandValue(b, ctx) then "true" else "false"
    case AllOf(args) => if forall a <- args :: Holds(a, ctx) then "true" else ""
    case Negated(p) => if Truthy(ctx, p) then "" else "true"
  }

  /** The value of a template; `dot` is the item of the outermost `range` around it. */
  function Eval(t: Template, ctx: Context, dot: Option<string>): string
    decreases t, 0
  {
    match t
    case Nil => ""
    case Literally(s, next) => s + Eval(next, ctx, dot)
    case Show(_, e, next) => ExprValue(e, ctx) + Eval(next, ctx, dot)
    case Dot(_, next) => dot.GetOr("") + Eval(next, ctx, dot)
    case If(_, c, thn, els, next) =>
      (if Holds(c, ctx) then Eval(thn, ctx, dot)
       else if els.Some? then Eval(els.value, ctx, dot)
       else "") + Eval(next, ctx, dot)
    case Range(_, p, body, next) =>
      EvalItems(body, Iterable(ctx, p), ctx, dot) + Eval(next, ctx, dot)
  }

  /** The body once for each item. An enclosing item stays the dot: it has been written into the
      text of the body before the inner `range` is ever looked at. */
  function EvalItems(body: Template, items: seq<string>, ctx: Context, dot: Option<string>): string
    decreases body, 1, |items|
  {
    if items == [] then ""
    else
      Eval(body, ctx, if dot.Some? then dot else Some(items[0])) + EvalItems(body, items[1..], ctx, dot)
  }

  // ----- Tags -----

  /** The inside of a tag, as far as the interpreter needs it. */
  predicate Inner(s: string) {
    Trimmed(s) && NoBrace(s)
  }

  lemma TrimRaw(pad: Pad, inner: string)
    requires Inner(inner)
    ensures Trim(Raw(pad, inner)) == inner && NoBrace(Raw(pad, inner))
  {
    var raw := Raw(pad, inner);
    if pad.Spaced? {
      assert raw == " " + (inner + " ");
      assert raw[1..] == inner + " ";
      assert TrimStart(raw) == inner + " ";
      assert (inner + " ")[..|inner|] == inner;
      assert TrimEnd(inner + " ") == TrimEnd(inner);
    } else {
      assert raw == inner;
    }
    TrimTrimmed(inner);
  }

  /** After text without `{`, a tag is found where it stands. */
  lemma TagAfterText(text: string, raw: string, rest: string)
    requires '{' !in text && NoBrace(raw)
    ensures FindTag(text + (PrintTag(raw) + rest)) == Tagged(text, raw, rest)
  {
    var s := text + (PrintTag(raw) + rest);
    var after := raw + ("}}" + rest);
    OpensAfter(text, after);
    ClosesAfter(raw, rest);
    hide Find;
    TagLayout(text, raw, rest);
  }

  lemma TagLayout(text: string, raw: string, rest: string)
    ensures var s := text + (PrintTag(raw) + rest); var after := raw + ("}}" + rest);
      && s == text + ("{{" + after) && s[..|text|] == text && s[|text| + 2..] == after
      && after[..|raw|] == raw && after[|raw| + 2..] == rest
  {
    var s, after := text + ("{{" + (raw + ("}}" + rest))), raw + ("}}" + rest);
    assert PrintTag(raw) + rest == "{{" + after;
    assert s[..|text|] == text && s[|text| + 2..] == after;
  }

  lemma OpensAfter(text: string, after: string)
    requires '{' !in text
    ensures Find(text + ("{{" + after), "{{") == Some(|text|)
  {
    var s := text + ("{{" + after);
    forall j | 0 <= j < |text| ensures !At(s, "{{", j) {
      AtPair(s, '{', '{', j);
      assert s[j] == text[j];
    }
    AtPair(s, '{', '{', |text|);
    FindsAt(s, "{{", |text|);
  }

  lemma ClosesAfter(raw: string, rest: string)
    requires NoBrace(raw)
    ensures Find(raw + ("}}" + rest), "}}") == Some(|raw|)
  {
    var s := raw + ("}}" + rest);
    forall j | 0 <= j < |raw| ensures !At(s, "}}", j) {
      AtPair(s, '}', '}', j);
      assert s[j] == raw[j];
    }
    AtPair(s, '}', '}', |raw|);
    FindsAt(s, "}}", |raw|);
  }

  lemma TextWithoutTags(text: string)
    requires '{' !in text
    ensures FindTag(text) == NoTag
  {
    forall i: nat ensures !At(text, "{{", i) {
      AtPair(text, '{', '{', i);
    }
  }

  lemma ExprTag(e: Expr)
    requires ValidExpr(e)
    ensures var s := PrintExpr(e);
      Inner(s) && s != "." && !("if " <= s) && !("range " <= s) && s != "else" && s != "end"
  {
    hide SingleSpaced, Words, Text;
    ExprTrimmed(e);
    var s := PrintExpr(e);
    assert s[0] in {'.', 'j', 'o', 'e', 'a', 'n'};
    assert e.Equal? ==> s[1] == 'q';
  }

  lemma ExprTrimmed(e: Expr)
    requires ValidExpr(e)
    ensures Trimmed(PrintExpr(e)) && |PrintExpr(e)| >= 2
  {
    hide SingleSpaced, Words, Text;
    match e
    case Variable(p) =>
    case JoinOf(p, sep) => JoinTrimmed(p, sep);
    case FirstOf(ps) =>
      assert ps[|ps| - 1] in ps;
      LastTrimmed(ps);
      AfterWord("or ", SingleSpaced(ps));
    case Equal(a, b) =>
      OperandShape(b);
      LastTrimmed([PrintOperand(a), PrintOperand(b)]);
      AfterWord("eq ", SingleSpaced([PrintOperand(a), PrintOperand(b)]));
    case AllOf(args) => AllTrimmed(args);
    case Negated(p) =>
      AfterWord("not ", p);
  }

  lemma JoinTrimmed(p: string, sep: string)
    ensures var t := "join " + SingleSpaced([p, "\"" + sep + "\""]); Trimmed(t) && |t| >= 2
  {
    hide SingleSpaced;
    var words := [p, "\"" + sep + "\""];
    LastTrimmed(words);
    AfterWord("join ", SingleSpaced(words));
  }

  lemma AllTrimmed(args: seq<Cond>)
    requires ValidCond(And(args))
    ensures var t := "and " + SingleSpaced(Words(args, false)); Trimmed(t) && |t| >= 2
  {
    AndTrimmed(args, false);
    hide SingleSpaced, Words, Text;
    AfterWord("and ", SingleSpaced(Words(args, false)));
  }

  lemma AfterWord(word: string, t: string)
    requires word != "" && !IsSpace(word[0]) && t != "" && !IsSpace(t[|t| - 1])
    ensures Trimmed(word + t)
  {
    assert (word + t)[|word + t| - 1] == t[|t| - 1];
  }

  lemma {:induction false} LastTrimmed(words: seq<string>)
    requires words != [] && Trimmed(words[|words| - 1])
    ensures var t := SingleSpaced(words); t != "" && !IsSpace(t[|t| - 1])
  {
    if |words| > 1 {
      SpacedUnfolds(words);
      LastTrimmed(words[1..]);
    }
  }

  lemma CondTag(c: Cond)
    requires ValidCond(c) && NoBrace(PrintCond(c))
    ensures Inner("if " + PrintCond(c))
  {
    TextTrimmed(c);
  }

  lemma RangeTagInner(p: string)
    requires ValidPath(p) && NoBrace(p)
    ensures Inner("range " + p)
  {}

  // ----- Nesting of printed tags -----

  /** Tags that leave the depth as it was, without going below it, and without an `else` of their
      own. */
  ghost predicate Neutral(segs: seq<Seg>, ranges: bool) {
    && NeverBelow(segs, |segs|, ranges)
    && Net(segs, ranges) == 0
    && (!ranges ==> forall e :: 0 <= e < |segs| ==> !OwnElse(segs, e))
  }

  lemma NeverBelowConcat(a: seq<Seg>, b: seq<Seg>, ranges: bool)
    requires NeverBelow(a, |a|, ranges) && forall j :: 0 <= j <= |b| ==> Net(a, ranges) + Net(b[..j], ranges) >= 0
    ensures NeverBelow(a + b, |a + b|, ranges)
  {
    forall j | 0 <= j <= |a + b| ensures Net((a + b)[..j], ranges) >= 0 {
      if j <= |a| {
        assert (a + b)[..j] == a[..j];
      } else {
        assert (a + b)[..j] == a + b[..j - |a|];
        NetConcat(a, b[..j - |a|], ranges);
      }
    }
  }

  lemma OwnElseConcat(a: seq<Seg>, b: seq<Seg>, e: nat)
    requires e < |a + b|
    ensures OwnElse(a + b, e) <==>
      if e < |a| then OwnElse(a, e)
      else KindOf(b[e - |a|].raw) == ElseTag && Net(a, false) + Net(b[..e - |a|], false) == 0
  {
    if e < |a| {
      assert (a + b)[..e] == a[..e];
    } else {
      assert (a + b)[..e] == a + b[..e - |a|];
      NetConcat(a, b[..e - |a|], false);
    }
  }

  lemma NeutralConcat(a: seq<Seg>, b: seq<Seg>, ranges: bool)
    requires Neutral(a, ranges) && Neutral(b, ranges)
    ensures Neutral(a + b, ranges)
  {
    hide KindOf, Net;
    NetConcat(a, b, ranges);
    NeverBelowConcat(a, b, ranges);
    if !ranges {
      forall e | 0 <= e < |a + b| ensures !OwnElse(a + b, e) {
        OwnElseConcat(a, b, e);
        if e >= |a| {
          assert !OwnElse(b, e - |a|);
        }
      }
    }
  }

  lemma NeutralOne(g: Seg, ranges: bool)
    requires KindOf(g.raw) == Other
    ensures Neutral([g], ranges)
  {
    hide KindOf, Net;
    NetOne(g, ranges);
    NothingDone();
    assert [g][..1] == [g] && [g][..0] == [];
  }

  lemma NetOne(g: Seg, ranges: bool)
    ensures Net([g], ranges) == DepthStep(g.raw, ranges)
  {
    assert [g][1..] == [];
  }

  /** Inside an opened block: one level up, and nothing there closes it. */
  ghost predicate Inside(segs: seq<Seg>, ranges: bool) {
    && NeverBelow(segs, |segs|, ranges)
    && Net(segs, ranges) == 1
    && (!ranges ==> forall e :: 0 <= e < |segs| ==> !OwnElse(segs, e))
  }

  lemma OpenBlock(g: Seg, a: seq<Seg>, ranges: bool)
    requires DepthStep(g.raw, ranges) == 1 && KindOf(g.raw) != ElseTag && Neutral(a, ranges)
    ensures Inside([g] + a, ranges)
  {
    hide KindOf, Net, DepthStep;
    NetOne(g, ranges);
    assert Net([], ranges) == 0 by { NothingDone(); }
    assert [g][..0] == [] && [g][..1] == [g];
    NetConcat([g], a, ranges);
    NeverBelowConcat([g], a, ranges);
    if !ranges {
      forall e | 0 <= e < |[g] + a| ensures !OwnElse([g] + a, e) {
        OwnElseConcat([g], a, e);
        if e > 0 {
          assert Net(a[..e - 1], false) >= 0;
        }
      }
    }
  }

  /** An `else` one level up belongs to that level. */
  lemma ElseInside(a: seq<Seg>, g: Seg, b: seq<Seg>, ranges: bool)
    requires Inside(a, ranges) && KindOf(g.raw) == ElseTag && Neutral(b, ranges)
    ensures Inside(a + [g] + b, ranges)
  {
    hide KindOf, Net;
    NetOne(g, ranges);
    assert Net([], ranges) == 0 by { NothingDone(); }
    assert [g][..0] == [] && [g][..1] == [g];
    NetConcat(a, [g], ranges);
    NeverBelowConcat(a, [g], ranges);
    var ag := a + [g];
    NetConcat(ag, b, ranges);
    NeverBelowConcat(ag, b, ranges);
    if !ranges {
      forall e | 0 <= e < |ag + b| ensures !OwnElse(ag + b, e) {
        OwnElseConcat(ag, b, e);
        if e < |ag| {
          OwnElseConcat(a, [g], e);
        } else {
          assert Net(b[..e - |ag|], false) >= 0;
        }
      }
    }
  }

  lemma CloseBlock(a: seq<Seg>, g: Seg, ranges: bool)
    requires Inside(a, ranges) && KindOf(g.raw) == EndTag
    ensures Neutral(a + [g], ranges)
  {
    hide KindOf, Net;
    NetOne(g, ranges);
    assert Net([], ranges) == 0 by { NothingDone(); }
    assert [g][..0] == [] && [g][..1] == [g];
    NetConcat(a, [g], ranges);
    NeverBelowConcat(a, [g], ranges);
    if !ranges {
      forall e | 0 <= e < |a + [g]| ensures !OwnElse(a + [g], e) {
        OwnElseConcat(a, [g], e);
      }
    }
  }
}
