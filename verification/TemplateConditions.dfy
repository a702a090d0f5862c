/** The condition evaluator of the template engine (`evaluate_condition`, `evaluate_and`,
    `evaluate_or`, `evaluate_eq`, `resolve_or_literal` in template.rs). It works on text: every
    argument is stripped of all its leading and trailing parentheses and evaluated again. */
module TemplateConditions {
  import opened Wrappers
  import opened Strings
  import opened TemplateContext
  import opened TemplateArguments

  /** A value, or the panic of an out-of-range slice. */
  datatype Computed<+T> = Value(value: T) | Panic

  function Longest(args: seq<string>): (n: nat)
    ensures forall a <- args :: |a| <= n
    ensures args != [] ==> exists a :: a in args && n == |a|
    ensures args == [] ==> n == 0
  {
    if args == [] then 0
    else
      var rest := Longest(args[1..]);
      if |args[0]| >= rest then assert args[0] in args; |args[0]| else rest
  }

  lemma ArgsShorter(input: string)
    ensures Longest(FunctionArgs(input)) <= |input|
  {
    ArgsAreShort(Start, input, |input|);
  }

  function Condition(expr: string, ctx: Context): Computed<bool>
    decreases |expr|, 0
  {
    var e := Trim(expr);
    if "and " <= e then
      ArgsShorter(e[4..]);
      AllTrue(FunctionArgs(e[4..]), ctx)
    else if "or " <= e then Value(TruthyValue(EvaluateOr(e[3..], ctx)))
    else if "eq " <= e then EvaluateEq(e[3..], ctx)
    else if "not " <= e then Value(!Truthy(ctx, Trim(e[4..])))
    else Value(Truthy(ctx, e))
  }

  /** An argument of `and` or `or` without the parentheses around it. */
  function Stripped(arg: string): (r: string)
    ensures |r| <= |arg|
  {
    StripEnd(StripStart(Trim(arg), '('), ')')
  }

  function AllTrue(args: seq<string>, ctx: Context): Computed<bool>
    decreases Longest(args), |args|
  {
    if args == [] then Value(true)
    else
      var head := Condition(Stripped(args[0]), ctx);
      if head == Value(true) then AllTrue(args[1..], ctx) else head
  }

  function EvaluateAnd(args: string, ctx: Context): Computed<bool> {
    AllTrue(FunctionArgs(args), ctx)
  }

  function FirstTruthy(args: seq<string>, ctx: Context): string {
    if args == [] then ""
    else
      var v := Resolve(ctx, Stripped(args[0]));
      if TruthyValue(v) then v else FirstTruthy(args[1..], ctx)
  }

  function EvaluateOr(args: string, ctx: Context): string {
    FirstTruthy(FunctionArgs(args), ctx)
  }

  function EvaluateEq(args: string, ctx: Context): Computed<bool>
    decreases |args|, 1
  {
    var words := FunctionArgs(args);
    ArgsShorter(args);
    if |words| < 2 then Value(false)
    else
      var left, right := ResolveOrLiteral(words[0], ctx), ResolveOrLiteral(words[1], ctx);
      if left.Panic? || right.Panic? then Panic else Value(left == right)
  }

  predicate Delimited(v: string, first: char, last: char) {
    v != "" && v[0] == first && v[|v| - 1] == last
  }

  function ResolveOrLiteral(val: string, ctx: Context): Computed<string>
    decreases |val|, 0
  {
    var v := Trim(val);
    if Delimited(v, '"', '"') || Delimited(v, '\'', '\'') then
      // a lone quote both starts and ends the text: the slice 1..0 panics
      if |v| == 1 then Panic else Value(v[1..|v| - 1])
    else if Delimited(v, '(', ')') then
      var inner := v[1..|v| - 1];
      if "eq " <= inner then
        match EvaluateEq(inner[3..], ctx)
        case Panic => Panic
        case Value(equal) => Value(if equal then "true" else "false")
      else Value(Resolve(ctx, inner))
    else Value(Resolve(ctx, v))
  }

  // ----- Conditions as trees -----

  datatype Operand = Path(path: string) | Literal(mark: char, body: string)

  datatype Cond =
    | Var(path: string)
    | Not(path: string)
    | Eq(left: Operand, right: Operand)
    | Or(paths: seq<string>)
    | And(args: seq<Cond>)

  /** A dotted path as templates write it. */
  predicate ValidPath(p: string) {
    |p| >= 2 && p[0] == '.' && Plain(p)
  }

  predicate ValidOperand(o: Operand) {
    match o
    case Path(p) => ValidPath(p)
    case Literal(mark, body) => IsQuote(mark) && mark !in body
  }

  function OperandValue(o: Operand, ctx: Context): string {
    match o
    case Path(p) => Resolve(ctx, p)
    case Literal(_, body) => body
  }

  /** What a condition means. */
  predicate Holds(c: Cond, ctx: Context) {
    match c
    case Var(p) => Truthy(ctx, p)
    case Not(p) => !Truthy(ctx, p)
    case Eq(a, b) => OperandValue(a, ctx) == OperandValue(b, ctx)
    case Or(ps) => exists p <- ps :: Truthy(ctx, p)
    case And(args) => forall a <- args :: Holds(a, ctx)
  }

  // ----- How conditions are written -----

  function PrintOperand(o: Operand): string {
    match o
    case Path(p) => p
    case Literal(mark, body) => [mark] + body + [mark]
  }

  function SingleSpaced(words: seq<string>): string {
    PrintArgs(words, seq(|words|, _ => 0))
  }

  /** The text of a condition; with `cut`, without the parentheses at its very end. That is what
      is left of it when the argument it was written as has been stripped. */
  function Text(c: Cond, cut: bool): string
    decreases c, 1
  {
    match c
    case Var(p) => p
    case Not(p) => "not " + p
    case Eq(a, b) => "eq " + SingleSpaced([PrintOperand(a), PrintOperand(b)])
    case Or(ps) => "or " + SingleSpaced(ps)
    case And(args) => "and " + SingleSpaced(Words(args, cut))
  }

  /** A condition as an argument of `and`: variables bare, everything else in parentheses. */
  function Word(c: Cond, cut: bool): string
    decreases c, 2
  {
    if c.Var? then c.path
    else if cut then "(" + Text(c, cut)
    else "(" + Text(c, cut) + ")"
  }

  function Words(args: seq<Cond>, cut: bool): seq<string>
    decreases args, 0
  {
    if args == [] then []
    else if |args| == 1 then [Word(args[0], cut)]
    else [Word(args[0], false)] + Words(args[1..], cut)
  }

  function PrintCond(c: Cond): string {
    Text(c, false)
  }

  /** Conditions as they are written: of any shape and with any literals. */
  predicate Written(c: Cond) {
    match c
    case Var(p) => ValidPath(p)
    case Not(p) => ValidPath(p)
    case Eq(a, b) => ValidOperand(a) && ValidOperand(b)
    case Or(ps) => ps != [] && forall p <- ps :: ValidPath(p)
    case And(args) => args != [] && forall a <- args :: Written(a)
  }

  /** The arguments of each `and`, scanned one by one, are what the splitter will make of them. Only a
      literal inside a group can fail that scan. */
  predicate Readable(c: Cond) {
    c.And? ==> Splits(Words(c.args, false)) && forall a <- c.args :: Readable(a)
  }

  predicate ValidCond(c: Cond) {
    Written(c) && Readable(c)
  }

  // ----- The shape of printed conditions -----

  /** No blanks at its ends and, cut, no parenthesis at its very end. */
  predicate Shaped(t: string, cut: bool) {
    Trimmed(t) && (cut ==> t[|t| - 1] != ')')
  }

  predicate WellShaped(t: string, cut: bool) {
    Shaped(t, cut) && t[0] != '('
  }

  lemma PathShape(p: string)
    requires ValidPath(p)
    ensures WellShaped(p, false) && WellShaped(p, true) && ClosedWord(p)
  {
    assert p[|p| - 1] in p;
    WordCloses(Bare(p));
  }

  lemma OperandShape(o: Operand)
    requires ValidOperand(o)
    ensures var w := PrintOperand(o); WellShaped(w, false) && WellShaped(w, true) && ClosedWord(w)
  {
    match o
    case Path(p) => PathShape(p);
    case Literal(mark, body) => WordCloses(Quoted(mark, body));
  }

  lemma SpacedUnfolds(words: seq<string>)
    requires |words| > 1
    ensures SingleSpaced(words) == words[0] + " " + SingleSpaced(words[1..])
  {
    var gaps := seq(|words|, _ => 0);
    assert gaps[1..] == seq(|words[1..]|, _ => 0);
    assert Spaces(1) == " " + Spaces(0);
  }

  /** Joining with single spaces keeps the shape. */
  lemma {:induction false} SpacedShape(words: seq<string>, cut: bool)
    requires words != [] && Trimmed(words[0]) && Shaped(words[|words| - 1], cut)
    ensures Shaped(SingleSpaced(words), cut)
  {
    if |words| > 1 {
      SpacedUnfolds(words);
      SpacedEnd(words);
    }
  }

  lemma {:induction false} SpacedEnd(words: seq<string>)
    requires words != [] && words[|words| - 1] != ""
    ensures var s, last := SingleSpaced(words), words[|words| - 1]; s != "" && s[|s| - 1] == last[|last| - 1]
  {
    if |words| > 1 {
      SpacedUnfolds(words);
      SpacedEnd(words[1..]);
    }
  }

  lemma {:induction false} WordsLength(args: seq<Cond>, cut: bool)
    ensures |Words(args, cut)| == |args|
    ensures forall i :: 0 <= i < |args| ==>
      Words(args, cut)[i] == Word(args[i], cut && i == |args| - 1)
  {
    if |args| > 1 {
      WordsLength(args[1..], cut);
    }
  }

  lemma PrefixShape(prefix: string, t: string, cut: bool)
    requires prefix in {"not ", "eq ", "or ", "and "} && Shaped(t, cut)
    ensures WellShaped(prefix + t, cut)
  {}

  lemma {:induction false} TextShape(c: Cond, cut: bool)
    requires Written(c)
    ensures WellShaped(Text(c, cut), cut)
    decreases c, 1
  {
    match c
    case Var(p) => PathShape(p);
    case Not(p) =>
      PathShape(p);
      PrefixShape("not ", p, cut);
    case Eq(a, b) =>
      OperandShape(a);
      OperandShape(b);
      SpacedShape([PrintOperand(a), PrintOperand(b)], cut);
      PrefixShape("eq ", SingleSpaced([PrintOperand(a), PrintOperand(b)]), cut);
    case Or(ps) =>
      PathShape(ps[0]);
      PathShape(ps[|ps| - 1]);
      SpacedShape(ps, cut);
      PrefixShape("or ", SingleSpaced(ps), cut);
    case And(args) =>
      WordsLength(args, cut);
      forall i | 0 <= i < |args| ensures Shaped(Word(args[i], cut && i == |args| - 1), cut && i == |args| - 1) {
        WordShape(args[i], cut && i == |args| - 1);
      }
      SpacedShape(Words(args, cut), cut);
      PrefixShape("and ", SingleSpaced(Words(args, cut)), cut);
  }

  lemma {:induction false} WordShape(c: Cond, cut: bool)
    requires Written(c)
    ensures Shaped(Word(c, cut), cut)
    decreases c, 2
  {
    if c.Var? {
      PathShape(c.path);
    } else {
      TextShape(c, cut);
    }
  }

  // ----- Stripping parentheses -----

  lemma {:induction false} StripEndConcat(a: string, b: string, c: char)
    requires StripEnd(b, c) != ""
    ensures StripEnd(a + b, c) == a + StripEnd(b, c)
  {
    if b[|b| - 1] == c {
      assert (a + b)[..|a + b| - 1] == a + b[..|b| - 1];
      StripEndConcat(a, b[..|b| - 1], c);
    }
  }

  lemma StripEndOne(a: string, c: char)
    ensures StripEnd(a + [c], c) == StripEnd(a, c)
  {
    assert (a + [c])[..|a|] == a;
  }

  /** Stripping the end of a joined list strips the end of its last word. */
  lemma {:induction false} StripSpaced(words: seq<string>, last: string)
    requires words != [] && last != "" && StripEnd(words[|words| - 1], ')') == last
    ensures StripEnd(SingleSpaced(words), ')') == SingleSpaced(words[..|words| - 1] + [last])
  {
    var cut := words[..|words| - 1] + [last];
    if |words| == 1 {
      assert cut == [last];
    } else {
      SpacedUnfolds(words);
      SpacedUnfolds(cut);
      var rest := words[1..];
      assert cut[1..] == rest[..|rest| - 1] + [last];
      StripSpaced(rest, last);
      SpacedNonEmpty(cut[1..]);
      StripEndConcat(words[0] + " ", SingleSpaced(rest), ')');
    }
  }

  lemma SpacedNonEmpty(words: seq<string>)
    requires words != [] && words[|words| - 1] != ""
    ensures SingleSpaced(words) != ""
  {
    if |words| > 1 {
      SpacedUnfolds(words);
    }
  }

  /** However much of its end is already gone, stripping leaves the cut text. */
  lemma {:induction false} StripText(c: Cond, cut: bool)
    requires Written(c)
    ensures StripEnd(Text(c, cut), ')') == Text(c, true)
    decreases c, 1
  {
    TextShape(c, true);
    hide SingleSpaced, Words;
    if c.And? && !cut {
      StripWord(c.args[|c.args| - 1]);
      StripWords(c.args);
    }
  }

  lemma StripWords(args: seq<Cond>)
    requires args != [] && forall a <- args :: Written(a)
    requires var last := args[|args| - 1]; StripEnd(Word(last, false), ')') == Word(last, true)
    ensures StripEnd("and " + SingleSpaced(Words(args, false)), ')') == "and " + SingleSpaced(Words(args, true))
  {
    hide SingleSpaced, Text, Word, Words, Written, StripEnd;
    var words := Words(args, false);
    var last := args[|args| - 1];
    WordShape(last, true);
    CutLast(args);
    StripSpaced(words, Word(last, true));
    SpacedNonEmpty(Words(args, true));
    StripEndConcat("and ", SingleSpaced(words), ')');
  }

  /** Cutting the list cuts its last word. */
  lemma CutLast(args: seq<Cond>)
    requires args != []
    ensures var words := Words(args, false); var last := args[|args| - 1];
      && |words| == |args| && words[|words| - 1] == Word(last, false)
      && Words(args, true) == words[..|words| - 1] + [Word(last, true)]
  {
    WordsLength(args, false);
    WordsLength(args, true);
    hide Words, Word;
  }

  lemma {:induction false} StripWord(c: Cond)
    requires Written(c)
    ensures StripEnd(Word(c, false), ')') == Word(c, true)
    decreases c, 2
  {
    if c.Var? {
      PathShape(c.path);
    } else {
      StripText(c, false);
      TextShape(c, true);
      StripEndOne("(" + Text(c, false), ')');
      StripEndConcat("(", Text(c, false), ')');
    }
  }

  /** An argument of `and` stripped of its parentheses is the cut text of its condition. */
  lemma StrippedWord(c: Cond, cut: bool)
    requires Written(c)
    ensures Stripped(Word(c, cut)) == Text(c, true)
  {
    WordShape(c, cut);
    var w := Word(c, cut);
    TrimTrimmed(w);
    if c.Var? {
      PathShape(c.path);
    } else {
      TextShape(c, cut);
      StripText(c, cut);
      if cut {
        assert w[1..] == Text(c, true);
        assert w[1..][0] == Text(c, true)[0];
        assert StripStart(w[1..], '(') == w[1..];
        assert StripEnd(w[1..], ')') == w[1..];
      } else {
        assert w[1..] == Text(c, false) + ")";
        assert w[1..][0] == Text(c, false)[0];
        assert StripStart(w[1..], '(') == w[1..];
        StripEndOne(Text(c, false), ')');
      }
    }
  }

  // ----- The evaluator agrees with the meaning -----

  lemma OperandResolves(o: Operand, ctx: Context)
    requires ValidOperand(o)
    ensures ResolveOrLiteral(PrintOperand(o), ctx) == Value(OperandValue(o, ctx))
  {
    OperandShape(o);
    TrimTrimmed(PrintOperand(o));
    match o
    case Path(p) =>
    case Literal(mark, body) =>
      var w := [mark] + body + [mark];
      assert w[1..|w| - 1] == body;
  }

  lemma {:induction false} OrIsExists(paths: seq<string>, ctx: Context)
    requires forall p <- paths :: ValidPath(p)
    ensures TruthyValue(FirstTruthy(paths, ctx)) <==> exists p <- paths :: Truthy(ctx, p)
  {
    if paths != [] {
      var p := paths[0];
      PathStripped(p);
      assert p in paths;
      assert forall q <- paths :: q == p || q in paths[1..];
      OrIsExists(paths[1..], ctx);
    }
  }

  lemma PathStripped(p: string)
    requires ValidPath(p)
    ensures Stripped(p) == p
  {
    PathShape(p);
    TrimTrimmed(p);
  }

  /** The scan of the arguments does not depend on whether the end of the list has been stripped. */
  lemma SplitsCut(args: seq<Cond>, cut: bool)
    requires args != [] && forall a <- args :: Written(a)
    ensures Splits(Words(args, cut)) <==> Splits(Words(args, false))
  {
    if cut {
      var words, whole := Words(args, true), Words(args, false);
      var last := args[|args| - 1];
      WordsLength(args, true);
      WordsLength(args, false);
      StripWord(last);
      WordShape(last, true);
      StrippedReads(Word(last, false));
      hide Words, Word, ClosedWord, OneWord, StripEnd;
      assert forall i :: 0 <= i < |args| - 1 ==> words[i] == whole[i];
    }
  }

  /** Closing parentheses at the end are never cut off. */
  lemma StrippedReads(w: string)
    requires Trimmed(w) && Trimmed(StripEnd(w, ')'))
    ensures OneWord(StripEnd(w, ')')) <==> OneWord(w)
  {
    var n := |StripEnd(w, ')')|;
    StrippedRest(w);
    CutOfPrefix(Outside, w, n);
    assert w == w[..n] + w[n..];
    CutConcat(Outside, w[..n], w[n..]);
    ClosersRead(Reach(Outside, w[..n]), w[n..]);
  }

  lemma {:induction false} StrippedRest(w: string)
    ensures var n := |StripEnd(w, ')')|;
      StripEnd(w, ')') == w[..n] && forall i :: n <= i < |w| ==> w[i] == ')'
    decreases |w|
  {
    if w != "" && w[|w| - 1] == ')' {
      StrippedRest(w[..|w| - 1]);
    }
  }

  lemma {:induction false} ClosersRead(pl: Place, s: string)
    requires forall i :: 0 <= i < |s| ==> s[i] == ')'
    ensures CutAt(pl, s) == |s|
    decreases |s|
  {
    if s != "" {
      ClosersRead(After(pl, s[0]), s[1..]);
    }
  }

  /** The arguments of a printed `and`, stripped at its end or not, are split into its words if and
      only if the scan succeeds for each of them. */
  lemma WordsSplitExact(args: seq<Cond>, cut: bool)
    requires args != [] && forall a <- args :: Written(a)
    ensures FunctionArgs(SingleSpaced(Words(args, cut))) == Words(args, cut) <==> Splits(Words(args, false))
  {
    SplitsCut(args, cut);
    WordsLength(args, cut);
    var words := Words(args, cut);
    forall w | w in words ensures Trimmed(w) {
      var i :| 0 <= i < |args| && words[i] == w;
      WordShape(args[i], cut && i == |args| - 1);
    }
    SplitExact(words, seq(|args|, _ => 0));
  }

  lemma AndSplits(args: seq<Cond>, cut: bool)
    requires ValidCond(And(args))
    ensures Trimmed(SingleSpaced(Words(args, cut)))
    ensures FunctionArgs(SingleSpaced(Words(args, cut))) == Words(args, cut)
  {
    WordsSplitExact(args, cut);
    AndTrimmed(args, cut);
  }

  lemma AndTrimmed(args: seq<Cond>, cut: bool)
    requires args != [] && forall a <- args :: Written(a)
    ensures Trimmed(SingleSpaced(Words(args, cut)))
  {
    WordsLength(args, cut);
    forall i | 0 <= i < |args| ensures Shaped(Word(args[i], cut && i == |args| - 1), cut && i == |args| - 1) {
      WordShape(args[i], cut && i == |args| - 1);
    }
    SpacedShape(Words(args, cut), cut);
  }

  lemma AfterKeyword(word: string, rest: string)
    requires word in {"and ", "or ", "eq ", "not "} && Trimmed(rest)
    ensures Trim(word + rest) == word + rest && (word + rest)[|word|..] == rest
  {
    TrimTrimmed(word + rest);
  }

  lemma AndDispatch(rest: string, ctx: Context)
    requires Trimmed(rest)
    ensures Condition("and " + rest, ctx) == EvaluateAnd(rest, ctx)
  {
    AfterKeyword("and ", rest);
  }

  lemma OrDispatch(rest: string, ctx: Context)
    requires Trimmed(rest)
    ensures Condition("or " + rest, ctx) == Value(TruthyValue(EvaluateOr(rest, ctx)))
  {
    AfterKeyword("or ", rest);
    assert ("or " + rest)[0] == 'o';
  }

  lemma EqDispatch(rest: string, ctx: Context)
    requires Trimmed(rest)
    ensures Condition("eq " + rest, ctx) == EvaluateEq(rest, ctx)
  {
    AfterKeyword("eq ", rest);
    assert ("eq " + rest)[0] == 'e';
  }

  lemma NotDispatch(rest: string, ctx: Context)
    requires Trimmed(rest)
    ensures Condition("not " + rest, ctx) == Value(!Truthy(ctx, rest))
  {
    AfterKeyword("not ", rest);
    assert ("not " + rest)[0] == 'n';
    TrimTrimmed(rest);
  }

  lemma VarEvaluates(p: string, ctx: Context)
    requires ValidPath(p)
    ensures Condition(p, ctx) == Value(Truthy(ctx, p))
  {
    TrimTrimmed(p);
  }

  /** The evaluator gives every condition its meaning, whether or not its trailing parentheses
      have been stripped. */
  lemma {:induction false} CondEvaluates(c: Cond, cut: bool, ctx: Context)
    requires ValidCond(c)
    ensures Condition(Text(c, cut), ctx) == Value(Holds(c, ctx))
    decreases c, 1
  {
    match c
    case Var(p) =>
      VarEvaluates(p, ctx);
    case Not(p) =>
      NotDispatch(p, ctx);
    case Eq(a, b) =>
      EqEvaluates(a, b, ctx);
      EqDispatch(SingleSpaced([PrintOperand(a), PrintOperand(b)]), ctx);
    case Or(ps) =>
      OrEvaluates(ps, ctx);
      OrDispatch(SingleSpaced(ps), ctx);
    case And(args) =>
      AndSplits(args, cut);
      AndDispatch(SingleSpaced(Words(args, cut)), ctx);
      AllEvaluate(args, cut, ctx);
  }

  lemma OrEvaluates(ps: seq<string>, ctx: Context)
    requires ps != [] && forall p <- ps :: ValidPath(p)
    ensures Trimmed(SingleSpaced(ps))
    ensures TruthyValue(EvaluateOr(SingleSpaced(ps), ctx)) <==> exists p <- ps :: Truthy(ctx, p)
  {
    forall i | 0 <= i < |ps| ensures ClosedWord(ps[i]) && Shaped(ps[i], false) {
      PathShape(ps[i]);
    }
    SpacedShape(ps, false);
    SplitOfPrinted(ps, seq(|ps|, _ => 0));
    OrIsExists(ps, ctx);
  }

  lemma EqSplits(a: Operand, b: Operand)
    requires ValidOperand(a) && ValidOperand(b)
    ensures var words := [PrintOperand(a), PrintOperand(b)];
      Trimmed(SingleSpaced(words)) && FunctionArgs(SingleSpaced(words)) == words
  {
    OperandShape(a);
    OperandShape(b);
    var words := [PrintOperand(a), PrintOperand(b)];
    SpacedUnfolds(words);
    hide PrintOperand, FunctionArgs;
    SplitOfPrinted(words, seq(2, _ => 0));
  }

  lemma EqEvaluates(a: Operand, b: Operand, ctx: Context)
    requires ValidOperand(a) && ValidOperand(b)
    ensures Trimmed(SingleSpaced([PrintOperand(a), PrintOperand(b)]))
    ensures EvaluateEq(SingleSpaced([PrintOperand(a), PrintOperand(b)]), ctx)
         == Value(OperandValue(a, ctx) == OperandValue(b, ctx))
  {
    hide PrintOperand, ResolveOrLiteral, OperandValue, FunctionArgs, SingleSpaced, ValidOperand;
    EqSplits(a, b);
    OperandResolves(a, ctx);
    OperandResolves(b, ctx);
  }

  lemma TextTrimmed(c: Cond)
    requires Written(c)
    ensures Trimmed(PrintCond(c))
  {
    TextShape(c, false);
  }

  lemma {:induction false} AllEvaluate(args: seq<Cond>, cut: bool, ctx: Context)
    requires forall a <- args :: ValidCond(a)
    ensures AllTrue(Words(args, cut), ctx) == Value(forall a <- args :: Holds(a, ctx))
    decreases args, 0
  {
    if args != [] {
      var first := cut && |args| == 1;
      assert ValidCond(args[0]);
      StrippedWord(args[0], first);
      CondEvaluates(args[0], true, ctx);
      AllEvaluate(args[1..], cut, ctx);
      assert Words(args, cut)[1..] == Words(args[1..], cut);
      assert forall a <- args :: a == args[0] || a in args[1..];
    }
  }

  /** Nested conditions: for `and` trees of any depth over variables, `not`, `eq` and `or`, the
      evaluator computes the value of the tree, although stripping leaves it with unclosed groups. */
  lemma ConditionMeaning(c: Cond, ctx: Context)
    requires ValidCond(c)
    ensures Condition(PrintCond(c), ctx) == Value(Holds(c, ctx))
  {
    CondEvaluates(c, false, ctx);
  }
}
