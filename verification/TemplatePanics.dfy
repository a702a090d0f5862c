/** When the evaluator panics: `resolve_or_literal` takes the text between the quotes of an operand by
    slicing from 1 to its length less one, which fails for a lone quote. The conditions here need no
    context, or only that of the arguments before. */
module TemplatePanics {
  import opened Strings
  import opened TemplateContext
  import opened TemplateArguments
  import opened TemplateConditions
  import opened TemplateBlocks
  import opened TemplateExpand
  import opened TemplateSyntax
  import opened TemplateMeaning

  // ----- Operands of eq -----

  /** An operand that is a lone quote, or a parenthesised `eq` with such an operand. */
  predicate PanicsOperand(val: string)
    decreases |val|, 0
  {
    var v := Trim(val);
    if Delimited(v, '"', '"') || Delimited(v, '\'', '\'') then |v| == 1
    else Delimited(v, '(', ')') && "eq " <= v[1..|v| - 1] && PanicsEq(v[1..|v| - 1][3..])
  }

  predicate PanicsEq(args: string)
    decreases |args|, 1
  {
    var words := FunctionArgs(args);
    ArgsShorter(args);
    |words| >= 2 && (PanicsOperand(words[0]) || PanicsOperand(words[1]))
  }

  /** `eq` panics if and only if one of its first two arguments does, in whatever context. */
  lemma {:induction false} EqPanics(args: string, ctx: Context)
    ensures EvaluateEq(args, ctx) == Panic <==> PanicsEq(args)
    decreases |args|, 1
  {
    var words := FunctionArgs(args);
    ArgsShorter(args);
    if |words| >= 2 {
      hide FunctionArgs;
      OperandPanics(words[0], ctx);
      OperandPanics(words[1], ctx);
      hide ResolveOrLiteral, PanicsOperand;
    }
  }

  lemma {:induction false} OperandPanics(val: string, ctx: Context)
    ensures ResolveOrLiteral(val, ctx) == Panic <==> PanicsOperand(val)
    decreases |val|, 0
  {
    var v := Trim(val);
    hide Trim, Resolve;
    if Delimited(v, '(', ')') && "eq " <= v[1..|v| - 1] {
      EqPanics(v[1..|v| - 1][3..], ctx);
    }
    hide EvaluateEq, PanicsEq;
  }

  // ----- Conditions -----

  /** In this context, a panic: of an `eq`, or of the first argument of an `and` that is not true. */
  ghost predicate PanicsIn(expr: string, ctx: Context)
    decreases |expr|, 0
  {
    var e := Trim(expr);
    if "and " <= e then
      ArgsShorter(e[4..]);
      FirstPanics(FunctionArgs(e[4..]), ctx)
    else "eq " <= e && PanicsEq(e[3..])
  }

  ghost predicate FirstPanics(args: seq<string>, ctx: Context)
    decreases Longest(args), 1
  {
    exists i :: 0 <= i < |args| && (PanicsIn(Stripped(args[i]), ctx) && TrueBefore(args, i, ctx))
  }

  predicate TrueBefore(args: seq<string>, i: nat, ctx: Context)
    requires i <= |args|
  {
    forall j :: 0 <= j < i ==> Condition(Stripped(args[j]), ctx) == Value(true)
  }

  /** A condition panics if and only if the first argument that is not true is one that panics. */
  lemma {:induction false} ConditionPanics(expr: string, ctx: Context)
    ensures Condition(expr, ctx) == Panic <==> PanicsIn(expr, ctx)
    decreases |expr|, 0
  {
    var e := Trim(expr);
    ConditionCases(expr, ctx);
    hide Trim, Condition, AllTrue, EvaluateEq, PanicsEq, FunctionArgs;
    if "and " <= e {
      ArgsShorter(e[4..]);
      AllPanics(FunctionArgs(e[4..]), ctx);
    } else if "eq " <= e {
      EqPanics(e[3..], ctx);
    }
  }

  lemma ConditionCases(expr: string, ctx: Context)
    ensures var e := Trim(expr);
      if "and " <= e then Condition(expr, ctx) == AllTrue(FunctionArgs(e[4..]), ctx)
      else if "eq " <= e then Condition(expr, ctx) == EvaluateEq(e[3..], ctx)
      else Condition(expr, ctx) != Panic
  {
    var e := Trim(expr);
    hide Trim, EvaluateEq, AllTrue, FunctionArgs, EvaluateOr, Truthy;
    if "eq " <= e {
      assert e[0] == 'e';
    }
  }

  lemma {:induction false} AllPanics(args: seq<string>, ctx: Context)
    ensures AllTrue(args, ctx) == Panic <==> FirstPanics(args, ctx)
    decreases Longest(args), 1, |args|
  {
    if args != [] {
      var more := args[1..];
      assert args[0] in args && forall a <- more :: a in args;
      ConditionPanics(Stripped(args[0]), ctx);
      AllPanics(more, ctx);
      FirstOfMore(args, ctx);
      hide Condition, PanicsIn, Stripped, FirstPanics;
    }
  }

  lemma FirstOfMore(args: seq<string>, ctx: Context)
    requires args != []
    ensures FirstPanics(args, ctx) <==>
      PanicsIn(Stripped(args[0]), ctx)
      || (Condition(Stripped(args[0]), ctx) == Value(true) && FirstPanics(args[1..], ctx))
  {
    hide PanicsIn, Stripped, Condition;
    var more := args[1..];
    if PanicsIn(Stripped(args[0]), ctx) {
      assert TrueBefore(args, 0, ctx);
    }
    if FirstPanics(args, ctx) {
      var i :| 0 <= i < |args| && (PanicsIn(Stripped(args[i]), ctx) && TrueBefore(args, i, ctx));
      if i > 0 {
        assert more[i - 1] == args[i];
        forall j | 0 <= j < i - 1 ensures Condition(Stripped(more[j]), ctx) == Value(true) {
          assert args[j + 1] == more[j];
        }
        assert PanicsIn(Stripped(more[i - 1]), ctx) && TrueBefore(more, i - 1, ctx);
      }
    }
    if Condition(Stripped(args[0]), ctx) == Value(true) && FirstPanics(more, ctx) {
      var i :| 0 <= i < |more| && (PanicsIn(Stripped(more[i]), ctx) && TrueBefore(more, i, ctx));
      var k := i + 1;
      forall j | 0 <= j < k ensures Condition(Stripped(args[j]), ctx) == Value(true) {
        assert j > 0 ==> args[j] == more[j - 1];
      }
      assert args[k] == more[i];
      assert PanicsIn(Stripped(args[k]), ctx) && TrueBefore(args, k, ctx);
    }
  }

  /** Without any context: some `eq` in the condition panics once it is reached. */
  predicate MayPanic(expr: string)
    decreases |expr|
  {
    var e := Trim(expr);
    if "and " <= e then
      var args := FunctionArgs(e[4..]);
      ArgsShorter(e[4..]);
      exists i :: 0 <= i < |args| && MayPanic(Stripped(args[i]))
    else "eq " <= e && PanicsEq(e[3..])
  }

  lemma {:induction false} PanicsOnlyIfMay(expr: string, ctx: Context)
    ensures PanicsIn(expr, ctx) ==> MayPanic(expr)
    decreases |expr|
  {
    var e := Trim(expr);
    hide Trim;
    if "and " <= e {
      var args := FunctionArgs(e[4..]);
      ArgsShorter(e[4..]);
      hide FunctionArgs, PanicsEq, Stripped, TrueBefore;
      if FirstPanics(args, ctx) {
        var i :| 0 <= i < |args| && (PanicsIn(Stripped(args[i]), ctx) && TrueBefore(args, i, ctx));
        assert args[i] in args;
        PanicsOnlyIfMay(Stripped(args[i]), ctx);
      }
    }
  }

  // ----- Tags -----

  /** A tag that stands for a text panics exactly in these cases. */
  ghost predicate PanicsTag(tag: string, ctx: Context) {
    || ("eq " <= tag && PanicsEq(tag[3..]))
    || ("and " <= tag && FirstPanics(FunctionArgs(tag[4..]), ctx))
  }

  lemma TagPanics(tag: string, ctx: Context)
    ensures TagValue(tag, ctx) == Panicked <==> PanicsTag(tag, ctx)
  {
    if "eq " <= tag {
      EqPanics(tag[3..], ctx);
      assert tag[0] == 'e';
    } else if "and " <= tag {
      AllPanics(FunctionArgs(tag[4..]), ctx);
      assert tag[0] == 'a';
    }
    hide EvaluateEq, PanicsEq, AllTrue, FirstPanics, FunctionArgs, EvaluateOr, Resolve;
  }

  /** A tag, `if` included, can be checked before it is expanded: if no `eq` in it has a lone quote, it
      panics in no context. */
  predicate MayPanicTag(tag: string) {
    if "if " <= tag then MayPanic(Trim(tag[3..])) else ("eq " <= tag || "and " <= tag) && MayPanic(tag)
  }

  lemma CheckedTag(tag: string, ctx: Context)
    requires Trimmed(tag) && !MayPanicTag(tag)
    ensures "if " <= tag ==> Condition(Trim(tag[3..]), ctx) != Panic
    ensures !("if " <= tag) ==> TagValue(tag, ctx) != Panicked
  {
    if "if " <= tag {
      ConditionPanics(Trim(tag[3..]), ctx);
      PanicsOnlyIfMay(Trim(tag[3..]), ctx);
    } else {
      TrimTrimmed(tag);
      TagPanics(tag, ctx);
      PanicsOnlyIfMay(tag, ctx);
      hide PanicsEq, FirstPanics, TagValue, MayPanic;
      if "eq " <= tag {
        assert tag[0] == 'e';
      }
    }
  }

  /** A lone quote as the second operand of `eq` makes the expansion panic. */
  lemma LoneQuotePanics(p: string, mark: char, ctx: Context, frames: nat)
    requires ValidPath(p) && NoBrace(p) && IsQuote(mark)
    ensures Expand(Tag(Tight, "eq " + (p + " " + [mark])), ctx, frames) == Panicked
  {
    var args := p + " " + [mark];
    var tag := "eq " + args;
    assert NoBrace(tag) && Trimmed(tag) && tag[3..] == args && tag[0] == 'e';
    LoneQuoteTag(tag);
    LoneQuoteArgs(p, mark);
    TagPanics(tag, ctx);
    hide Expand, FromTag, Resolve, Trim, Raw, PrintTag, TagValue, PanicsEq;
    ExpandAtTag(Raw(Tight, tag), "", ctx, frames);
    assert PrintTag(Raw(Tight, tag)) + "" == Tag(Tight, tag);
    PlainTag(tag, "", ctx, frames);
  }

  lemma LoneQuoteTag(tag: string)
    requires NoBrace(tag) && Trimmed(tag)
    ensures NoBrace(Raw(Tight, tag)) && Trim(Raw(Tight, tag)) == tag
  {
    assert Raw(Tight, tag) == tag;
    TrimTrimmed(tag);
  }

  lemma LoneQuoteArgs(p: string, mark: char)
    requires ValidPath(p) && IsQuote(mark)
    ensures PanicsEq(p + " " + [mark])
  {
    PathShape(p);
    OneReads(Outside, mark);
    NotCut([mark]);
    TrimTrimmed([mark]);
    FirstWord(p, 0, [mark]);
    assert Spaces(1) == " " by { assert Spaces(1) == " " + Spaces(0); }
    assert PanicsOperand([mark]);
    hide FunctionArgs, PanicsOperand;
    assert ([p] + FunctionArgs([mark]))[1] == [mark];
  }
}
