/** Literals that the argument splitter misreads: inside a group it counts the parentheses of a quoted
    literal, and outside of it the quotes. The lemmas say exactly when that happens and what the
    condition then comes to. */
module TemplateMisread {
  import opened Wrappers
  import opened Strings
  import opened TemplateContext
  import opened TemplateArguments
  import opened TemplateConditions

  const InGroup := Place(None, 1)
  const Below := Place(None, -1)

  // ----- The scan of a literal -----

  lemma {:induction false} QuoteComesFrom(pl: Place, s: string)
    ensures var q := Reach(pl, s).quote; q == pl.quote || q == None || q.value in s
    decreases |s|
  {
    if s != "" {
      QuoteComesFrom(After(pl, s[0]), s[1..]);
      assert s[0] in s && forall c <- s[1..] :: c in s;
    }
  }

  /** After a quoted literal read inside a group, the splitter is not back outside. */
  lemma StillInside(pl: Place, mark: char, body: string)
    requires IsQuote(mark) && mark !in body && pl == InGroup
    ensures Reach(pl, [mark] + body + [mark]) != Outside
    ensures Reach(pl, [mark] + body + [mark]) == InGroup <==> Reach(InGroup, body) == InGroup
    ensures CutAt(pl, [mark] + body + [mark]) == |body| + 2 <==> CutAt(InGroup, body) == |body|
  {
    Enclosed(pl, mark, body, mark);
    QuoteComesFrom(InGroup, body);
  }

  lemma OpensGroup()
    ensures CutAt(Outside, "(eq ") == 4 && Reach(Outside, "(eq ") == InGroup
  {
    OneReads(Outside, '(');
    OneReads(InGroup, 'e');
    OneReads(InGroup, 'q');
    CutConcat(Outside, "(", "e");
    CutConcat(Outside, "(e", "q");
    CutConcat(Outside, "(eq", " ");
    SpacesRead(InGroup, 1);
    assert Spaces(1) == " " + Spaces(0);
    assert "(" + "e" == "(e" && "(e" + "q" == "(eq" && "(eq" + " " == "(eq ";
  }

  /** The text of a condition `eq a literal`, and of what follows it in an `and`. */
  function GroupText(a: Operand, mark: char, body: string, rest: string): string {
    "(eq " + (PrintOperand(a) + (" " + (([mark] + body + [mark]) + (")" + rest))))
  }

  function EqLiteral(a: Operand, mark: char, body: string): Cond {
    Eq(a, Literal(mark, body))
  }

  lemma GroupIsWord(a: Operand, mark: char, body: string, rest: string)
    ensures Word(EqLiteral(a, mark, body), false) + rest == GroupText(a, mark, body, rest)
    ensures |Word(EqLiteral(a, mark, body), false)| == |PrintOperand(a)| + |body| + 8
  {
    var A, L := PrintOperand(a), [mark] + body + [mark];
    SpacedUnfolds([A, L]);
    hide PrintOperand, SingleSpaced;
    assert SingleSpaced([A, L]) == A + " " + L by { OneSpaced(A, L); }
    assert "(" + ("eq " + (A + " " + L)) + ")" + rest == "(eq " + (A + (" " + (L + (")" + rest))));
  }

  lemma OneSpaced(a: string, b: string)
    ensures SingleSpaced([a, b]) == a + " " + b
  {
    SpacedUnfolds([a, b]);
    assert [a, b][1..] == [b];
  }

  /** The word of an `eq` with a path and a literal is one argument exactly when the literal, read at
      depth one, is not cut; and it is closed exactly when the literal also ends at depth one, outside
      of quotes. */
  lemma LiteralScan(p: string, mark: char, body: string)
    requires ValidPath(p) && IsQuote(mark) && mark !in body
    ensures var w := Word(EqLiteral(Path(p), mark, body), false);
      && (OneWord(w) <==> CutAt(InGroup, body) == |body|)
      && (ClosedWord(w) <==> CutAt(InGroup, body) == |body| && Reach(InGroup, body) == InGroup)
  {
    var w, L := Word(EqLiteral(Path(p), mark, body), false), [mark] + body + [mark];
    hide CutAt, Reach, Word, Trimmed;
    WordShape(EqLiteral(Path(p), mark, body), false);
    GroupIsWord(Path(p), mark, body, "");
    UpToLiteral(Path(p), L + (")" + ""));
    StillInside(InGroup, mark, body);
    ThenClosed(L);
    assert w + "" == w && ")" + "" == ")";
  }

  lemma ThenClosed(s: string)
    ensures Reach(InGroup, s + ")") == After(Reach(InGroup, s), ')')
    ensures CutAt(InGroup, s + ")") == |s| + 1 <==> CutAt(InGroup, s) == |s|
  {
    CutConcat(InGroup, s, ")");
    OneReads(Reach(InGroup, s), ')');
  }

  /** Up to the literal nothing is cut after a path. */
  lemma UpToLiteral(a: Operand, tail: string)
    requires ValidOperand(a) && a.Path?
    ensures var s := "(eq " + (PrintOperand(a) + (" " + tail));
      CutAt(Outside, s) == |a.path| + 5 + CutAt(InGroup, tail) && Reach(Outside, s) == Reach(InGroup, tail)
  {
    OpensGroup();
    SolidReads(InGroup, a.path);
    SpacesRead(InGroup, 1);
    assert Spaces(1) == " " by { assert Spaces(1) == " " + Spaces(0); }
    CutConcat(Outside, "(eq ", a.path + (" " + tail));
    CutConcat(InGroup, a.path, " " + tail);
    CutConcat(InGroup, " ", tail);
    hide CutAt, Reach;
  }

  // ----- Where a misread group is cut -----

  /** What may follow the group: nothing, or further arguments. */
  ghost predicate Continues(rest: string) {
    rest != "" ==>
      && |rest| >= 2 && rest[0] == ' ' && !IsSpace(rest[1]) && rest[1] != ')'
      && forall c <- rest[1..][..CutAt(Below, rest[1..])] :: !IsQuote(c)
  }

  predicate IsMisread(w: string, rest: string) {
    if rest == "" then !OneWord(w) else !ClosedWord(w)
  }

  /** The cut of a misread group is inside one of its literals, or after the next argument has begun. */
  datatype Region = InLeft | InRight | Beyond

  function RegionOf(a: Operand, body: string, k: nat): Region {
    var right := |PrintOperand(a)| + 5;
    if k <= right then InLeft else if k < right + |body| + 2 then InRight else Beyond
  }

  lemma LiteralCut(pl: Place, mark: char, body: string)
    requires IsQuote(mark)
    ensures var k := CutAt(pl, [mark] + body + [mark]); 1 <= k < |body| + 1 || k == |body| + 2
  {
    Enclosed(pl, mark, body, mark);
  }

  lemma OperandCut(a: Operand)
    requires ValidOperand(a)
    ensures var A := PrintOperand(a); var k := CutAt(InGroup, A);
      && (k == |A| ==> Reach(InGroup, A) != Outside)
      && (k < |A| ==> a.Literal? && k >= 1)
  {
    match a
    case Path(p) => SolidReads(InGroup, p);
    case Literal(mark, body) =>
      LiteralCut(InGroup, mark, body);
      StillInside(InGroup, mark, body);
  }

  lemma WhereCut(a: Operand, mark: char, body: string, rest: string)
    requires ValidOperand(a) && ValidOperand(Literal(mark, body)) && Continues(rest)
    requires IsMisread(Word(EqLiteral(a, mark, body), false), rest)
    ensures var k := CutAt(Outside, GroupText(a, mark, body, rest)); var A := PrintOperand(a);
      match RegionOf(a, body, k)
      case InLeft => a.Literal? && 5 <= k < 4 + |A|
      case InRight => |A| + 5 < k
      case Beyond => rest != "" && k >= |A| + |body| + 10
  {
    var A, L, w := PrintOperand(a), [mark] + body + [mark], Word(EqLiteral(a, mark, body), false);
    OpensGroup();
    OperandCut(a);
    CutConcat(Outside, "(eq ", A + (" " + (L + (")" + rest))));
    CutConcat(InGroup, A, " " + (L + (")" + rest)));
    if CutAt(InGroup, A) == |A| {
      var pl := Reach(InGroup, A);
      AfterLeft(pl, mark, body, rest);
      WholeGroup(a, mark, body, rest);
    }
  }

  /** From the space before the right operand on. */
  lemma AfterLeft(pl: Place, mark: char, body: string, rest: string)
    requires pl != Outside && IsQuote(mark) && Continues(rest)
    ensures var L := [mark] + body + [mark]; var k := CutAt(pl, " " + (L + (")" + rest)));
      && (2 <= k < |body| + 2 || k >= |body| + 4)
      && (k >= |body| + 4 ==> k == |body| + 4 + CutAt(Reach(pl, " " + (L + ")")), rest))
  {
    var L := [mark] + body + [mark];
    SpacesRead(pl, 1);
    assert Spaces(1) == " " by { assert Spaces(1) == " " + Spaces(0); }
    LiteralCut(pl, mark, body);
    var to := Reach(pl, L);
    OneReads(to, ')');
    CutConcat(pl, " ", L + (")" + rest));
    CutConcat(pl, L, ")" + rest);
    CutConcat(to, ")", rest);
    CutConcat(pl, " ", L + ")");
    CutConcat(pl, L, ")");
  }

  /** A misread group that is not cut inside swallows the space after it and more. */
  lemma WholeGroup(a: Operand, mark: char, body: string, rest: string)
    requires ValidOperand(a) && ValidOperand(Literal(mark, body)) && Continues(rest)
    requires IsMisread(Word(EqLiteral(a, mark, body), false), rest)
    ensures var k := CutAt(Outside, GroupText(a, mark, body, rest));
      k >= |PrintOperand(a)| + |body| + 8 ==> rest != "" && k >= |PrintOperand(a)| + |body| + 10
  {
    var w := Word(EqLiteral(a, mark, body), false);
    GroupIsWord(a, mark, body, rest);
    WordShape(EqLiteral(a, mark, body), false);
    CutConcat(Outside, w, rest);
    if CutAt(Outside, w) == |w| && rest != "" {
      SpacesRead(Reach(Outside, w), 1);
      assert Spaces(1) == " " by { assert Spaces(1) == " " + Spaces(0); }
      assert rest == " " + rest[1..];
      CutConcat(Reach(Outside, w), " ", rest[1..]);
    }
  }

  // ----- What is evaluated in its place -----

  lemma {:induction false} StripKeeps(s: string, c: char, i: nat)
    requires i < |s| && s[i] != c
    ensures i < |StripEnd(s, c)| && StripEnd(s, c) <= s
    decreases |s|
  {
    if s[|s| - 1] == c {
      StripKeeps(s[..|s| - 1], c, i);
    }
  }

  lemma {:induction false} EndTrims(s: string)
    ensures var t := TrimEnd(s); t <= s && (t != "" ==> !IsSpace(t[|t| - 1]))
    decreases |s|
  {
    if s != "" && IsSpace(s[|s| - 1]) {
      EndTrims(s[..|s| - 1]);
    }
  }

  lemma TrimTrims(s: string, i: nat)
    requires i < |s| && !IsSpace(s[0]) && !IsSpace(s[i])
    ensures Trimmed(Trim(s)) && Trim(s) <= s && i < |Trim(s)|
  {
    EndTrims(s);
    TrimKeeps(s, i);
  }

  /** Stripping and trimming a cut group takes its parenthesis from the front, and only blanks and
      parentheses from the end. */
  lemma StrippedCut(s: string, k: nat, i: nat)
    requires 1 < k <= |s| && s[0] == '(' && s[1] == 'e' && 1 <= i < k && !IsSpace(s[i]) && s[i] != ')'
    ensures var e := Trim(Stripped(Trim(s[..k]))); Trimmed(e) && i <= |e| < k && e == s[1..1 + |e|]
  {
    var x := Trim(s[..k]);
    TrimTrims(s[..k], i);
    TrimTrimmed(x);
    var y := x[1..];
    assert StripStart(x, '(') == y by { assert y[0] == 'e'; }
    StripKeeps(y, ')', i - 1);
    var z := StripEnd(y, ')');
    TrimTrims(z, i - 1);
    var e := Trim(z);
    hide Trim, StripEnd, StripStart;
    assert e <= y && y <= s[1..];
    assert Stripped(x) == z;
  }

  lemma EqExpr(expr: string, z: string, ctx: Context)
    requires Trim(expr) == "eq " + z
    ensures Condition(expr, ctx) == EvaluateEq(z, ctx)
  {
    var e := "eq " + z;
    assert e[0] == 'e' && e[3..] == z;
    hide EvaluateEq, Trim;
  }

  /** A literal without its closing mark is the only argument. */
  lemma OpenLiteral(mark: char, z: string)
    requires IsQuote(mark) && mark !in z && Trimmed([mark] + z)
    ensures FunctionArgs([mark] + z) == [[mark] + z]
  {
    OneReads(Outside, mark);
    QuoteReads(mark, z);
    CutConcat(Outside, [mark], z);
    TrimTrimmed([mark] + z);
    NotCut([mark] + z);
  }

  lemma EvalInLeft(mark: char, z: string, ctx: Context)
    requires IsQuote(mark) && mark !in z && Trimmed([mark] + z)
    ensures EvaluateEq([mark] + z, ctx) == Value(false)
  {
    OpenLiteral(mark, z);
    hide FunctionArgs;
  }

  /** Text that starts with a quote and does not end with it is looked up as a variable, and there is
      none. */
  lemma UnknownText(v: string, ctx: Context)
    requires Trimmed(v) && IsQuote(v[0]) && v[|v| - 1] != v[0]
    ensures ResolveOrLiteral(v, ctx) == Value("")
  {
    TrimTrimmed(v);
    QuotedUnknown(v, ctx);
    hide Resolve;
  }

  lemma QuotedUnknown(v: string, ctx: Context)
    requires Trimmed(v) && IsQuote(v[0])
    ensures Resolve(ctx, v) == ""
  {
    TrimTrimmed(v);
    assert StripStart(v, '.') == v;
    match Find(v, ".")
    case None => assert IsQuote(Lower(v)[0]);
    case Some(dot) =>
      NotAtStart(v);
      assert IsQuote(Lower(v[..dot])[0]);
  }

  lemma NotAtStart(s: string)
    requires s != "" && s[0] != '.'
    ensures Find(s, ".") != Some(0)
  {
    assert !At(s, ".", 0);
  }

  lemma LoneQuote(mark: char, ctx: Context)
    requires IsQuote(mark)
    ensures ResolveOrLiteral([mark], ctx) == Panic
  {
    TrimTrimmed([mark]);
  }

  /** `eq` with a left operand as it should be and a right operand `v`. */
  lemma EvalTwo(a: Operand, tail: string, v: string, ctx: Context)
    requires ValidOperand(a) && tail != "" && !IsSpace(tail[0])
    requires FunctionArgs(tail) != [] && FunctionArgs(tail)[0] == v
    ensures EvaluateEq(PrintOperand(a) + " " + tail, ctx)
      == match ResolveOrLiteral(v, ctx) case Panic => Panic case Value(right) => Value(OperandValue(a, ctx) == right)
  {
    hide FunctionArgs, ResolveOrLiteral, PrintOperand, ValidOperand, OperandValue;
    TwoWords(a, tail);
    OperandResolves(a, ctx);
    ArgsShorter(PrintOperand(a) + " " + tail);
  }

  lemma TwoWords(a: Operand, tail: string)
    requires ValidOperand(a) && tail != "" && !IsSpace(tail[0])
    requires FunctionArgs(tail) != []
    ensures var words := FunctionArgs(PrintOperand(a) + " " + tail);
      |words| >= 2 && words[0] == PrintOperand(a) && words[1] == FunctionArgs(tail)[0]
  {
    OperandShape(a);
    hide FunctionArgs, PrintOperand;
    FirstWord(PrintOperand(a), 0, tail);
    assert Spaces(1) == " " by { assert Spaces(1) == " " + Spaces(0); }
  }

  lemma EvalInRight(a: Operand, mark: char, z: string, ctx: Context)
    requires ValidOperand(a) && IsQuote(mark) && mark !in z && Trimmed([mark] + z)
    ensures EvaluateEq(PrintOperand(a) + " " + ([mark] + z), ctx)
      == if z == "" then Panic else Value(OperandValue(a, ctx) == "")
  {
    var v := [mark] + z;
    OpenLiteral(mark, z);
    EvalTwo(a, v, v, ctx);
    if z == "" {
      LoneQuote(mark, ctx);
    } else {
      assert z[|z| - 1] in z;
      UnknownText(v, ctx);
    }
  }

  lemma EvalBeyond(a: Operand, mark: char, body: string, next: string, ctx: Context)
    requires ValidOperand(a) && ValidOperand(Literal(mark, body)) && next != "" && !IsSpace(next[0])
    requires forall c <- next[..CutAt(Below, next)] :: !IsQuote(c)
    ensures EvaluateEq(PrintOperand(a) + " " + (([mark] + body + [mark]) + (") " + next)), ctx)
      == Value(OperandValue(a, ctx) == "")
  {
    var L := [mark] + body + [mark];
    var tail := L + (") " + next);
    var k := CutAt(Outside, tail);
    FirstArgument(tail);
    BelowCut(mark, body, next);
    var v := Trim(tail[..k]);
    TrimTrims(tail[..k], |L| + 2);
    hide CutAt, FunctionArgs, Trim;
    assert v[|v| - 1] == next[|v| - |L| - 3];
    assert v[|v| - 1] in next[..k - |L| - 2];
    UnknownText(v, ctx);
    EvalTwo(a, tail, v, ctx);
  }

  lemma BelowCut(mark: char, body: string, next: string)
    requires ValidOperand(Literal(mark, body)) && next != "" && !IsSpace(next[0])
    ensures CutAt(Outside, ([mark] + body + [mark]) + (") " + next)) == |body| + 4 + CutAt(Below, next)
    ensures CutAt(Below, next) > 0
  {
    var L, tail := [mark] + body + [mark], ") " + next;
    WordCloses(Quoted(mark, body));
    hide CutAt, Reach;
    CutConcat(Outside, L, tail);
    ClosedBelow(next);
    CutIsLaterFrom(Below, next);
  }

  lemma ClosedBelow(next: string)
    ensures CutAt(Outside, ") " + next) == 2 + CutAt(Below, next)
  {
    OneReads(Outside, ')');
    SpacesRead(Below, 1);
    assert Spaces(1) == " " by { assert Spaces(1) == " " + Spaces(0); }
    CutConcat(Outside, ")", " " + next);
    CutConcat(Below, " ", next);
    hide CutAt, Reach;
    assert ")" + (" " + next) == ") " + next;
  }

  lemma CutIsLaterFrom(pl: Place, s: string)
    requires s != "" && !IsSpace(s[0])
    ensures CutAt(pl, s) > 0
  {}

  // ----- The value of a misread group -----

  /** The first argument that the splitter makes of a misread group, evaluated: false, or a panic when
      only the opening mark of the right literal is left, or whether the left operand is empty. */
  lemma MisreadValue(a: Operand, mark: char, body: string, rest: string, ctx: Context)
    requires ValidOperand(a) && ValidOperand(Literal(mark, body)) && Continues(rest)
    requires IsMisread(Word(EqLiteral(a, mark, body), false), rest)
    ensures var args := FunctionArgs(GroupText(a, mark, body, rest));
      && args != []
      && var r := Condition(Stripped(args[0]), ctx);
         && (r == Panic || r == Value(false) || r == Value(OperandValue(a, ctx) == ""))
         && (a.Path? ==>
              r == if Trim(Stripped(args[0])) == "eq " + a.path + " " + [mark] then Panic
                  else Value(Resolve(ctx, a.path) == ""))
  {
    var s, A := GroupText(a, mark, body, rest), PrintOperand(a);
    assert a.Path? ==> A == a.path;
    hide FunctionArgs, CutAt, EvaluateEq, Condition, Stripped, Trim, Resolve, PrintOperand, IsMisread, Continues;
    var k := CutAt(Outside, s);
    GroupStart(a, mark, body, rest);
    FirstArgument(s);
    WhereCut(a, mark, body, rest);
    match RegionOf(a, body, k)
    case InLeft => MisreadInLeft(a, mark, body, rest, k, ctx);
    case InRight => MisreadInRight(a, mark, body, rest, k, ctx);
    case Beyond => MisreadBeyond(a, mark, body, rest, k, ctx);
  }

  lemma GroupStart(a: Operand, mark: char, body: string, rest: string)
    requires ValidOperand(a)
    ensures var s := GroupText(a, mark, body, rest); var A := PrintOperand(a);
      && |s| == |A| + |body| + 8 + |rest| && A != "" && !IsSpace(s[0]) && s[0] == '(' && s[1] == 'e'
      && s[4..] == A + (" " + (([mark] + body + [mark]) + (")" + rest))) && s[..4] == "(eq "
      && s[4] == A[0] && !IsSpace(A[0]) && A[0] != ')' && A[0] != '('
      && s[|A| + 5] == mark && s[|A| + |body| + 8..] == rest
  {
    OperandShape(a);
    if a.Path? {
      assert a.path[0] == '.';
    }
    hide PrintOperand;
    var s, A := GroupText(a, mark, body, rest), PrintOperand(a);
    var L := [mark] + body + [mark];
    assert s[4..] == A + (" " + (L + (")" + rest)));
    assert s[|A| + 5..] == L + (")" + rest);
    assert s[|A| + |body| + 8..] == rest;
  }

  /** The text of the condition that is left of the group. */
  lemma LeftOver(a: Operand, mark: char, body: string, rest: string, k: nat, i: nat) returns (z: string)
    requires ValidOperand(a) && ValidOperand(Literal(mark, body))
    requires var s := GroupText(a, mark, body, rest); 4 <= i < k <= |s| && !IsSpace(s[i]) && s[i] != ')'
    ensures var s := GroupText(a, mark, body, rest);
      && Trim(Stripped(Trim(s[..k]))) == "eq " + z && z != "" && !IsSpace(z[|z| - 1])
      && i - 3 <= |z| <= k - 4 && z == s[4..][..|z|]
  {
    hide Trim, Stripped, PrintOperand;
    var s := GroupText(a, mark, body, rest);
    GroupStart(a, mark, body, rest);
    StrippedCut(s, k, i);
    var e := Trim(Stripped(Trim(s[..k])));
    z := e[3..];
    EqPrefix(s, e);
  }

  lemma EqPrefix(s: string, e: string)
    requires |s| >= 4 && s[..4] == "(eq " && 3 < |e| < |s| && e == s[1..1 + |e|]
    ensures e == "eq " + e[3..] && e[3..] == s[4..][..|e| - 3]
  {
    assert s[1..4] == s[..4][1..] == "eq ";
    assert e[..3] == s[1..4];
    assert e == e[..3] + e[3..];
  }

  lemma MisreadInLeft(a: Operand, mark: char, body: string, rest: string, k: nat, ctx: Context)
    requires ValidOperand(a) && ValidOperand(Literal(mark, body)) && a.Literal?
    requires 5 <= k < 4 + |PrintOperand(a)|
    ensures Condition(Stripped(Trim(GroupText(a, mark, body, rest)[..k])), ctx) == Value(false)
  {
    hide Trim, Stripped, EvaluateEq, Condition;
    var s, A := GroupText(a, mark, body, rest), PrintOperand(a);
    GroupStart(a, mark, body, rest);
    var z := LeftOver(a, mark, body, rest, k, 4);
    assert z == A[..|z|];
    assert z == [a.mark] + a.body[..|z| - 1];
    assert a.mark !in a.body[..|z| - 1];
    EvalInLeft(a.mark, a.body[..|z| - 1], ctx);
    EqExpr(Stripped(Trim(s[..k])), z, ctx);
  }

  lemma MisreadInRight(a: Operand, mark: char, body: string, rest: string, k: nat, ctx: Context)
    requires ValidOperand(a) && ValidOperand(Literal(mark, body))
    requires |PrintOperand(a)| + 5 < k < |PrintOperand(a)| + |body| + 7
    ensures var x := Trim(GroupText(a, mark, body, rest)[..k]);
      Condition(Stripped(x), ctx)
      == if Trim(Stripped(x)) == "eq " + PrintOperand(a) + " " + [mark] then Panic
          else Value(OperandValue(a, ctx) == "")
  {
    hide Trim, Stripped, EvaluateEq, Condition, PrintOperand;
    var s, A := GroupText(a, mark, body, rest), PrintOperand(a);
    GroupStart(a, mark, body, rest);
    var z := LeftOver(a, mark, body, rest, k, |A| + 5);
    var y := body[..|z| - |A| - 2];
    RightPart(A, mark, body, rest, z);
    assert mark !in y;
    assert z[|A| + 1..] == [mark] + y;
    EvalInRight(a, mark, y, ctx);
    EqExpr(Stripped(Trim(s[..k])), z, ctx);
    assert "eq " + z == "eq " + A + " " + [mark] <==> y == "" by { SameTail(A, mark, y); }
  }

  lemma SameTail(A: string, mark: char, y: string)
    ensures "eq " + (A + " " + ([mark] + y)) == "eq " + A + " " + [mark] <==> y == ""
  {
    assert |"eq " + (A + " " + ([mark] + y))| == |A| + 5 + |y|;
    if y == "" {
      assert "eq " + (A + " " + ([mark] + y)) == "eq " + A + " " + [mark];
    }
  }

  lemma RightPart(A: string, mark: char, body: string, rest: string, z: string)
    requires |A| + 2 <= |z| <= |A| + 2 + |body|
    requires z == (A + (" " + (([mark] + body + [mark]) + (")" + rest))))[..|z|]
    ensures z == A + " " + ([mark] + body[..|z| - |A| - 2])
  {
    assert z == A + " " + [mark] + body[..|z| - |A| - 2];
  }

  lemma MisreadBeyond(a: Operand, mark: char, body: string, rest: string, k: nat, ctx: Context)
    requires ValidOperand(a) && ValidOperand(Literal(mark, body)) && Continues(rest) && rest != ""
    requires |PrintOperand(a)| + |body| + 10 <= k <= |GroupText(a, mark, body, rest)|
    ensures var x := Trim(GroupText(a, mark, body, rest)[..k]);
      Condition(Stripped(x), ctx) == Value(OperandValue(a, ctx) == "")
      && Trim(Stripped(x)) != "eq " + PrintOperand(a) + " " + [mark]
  {
    hide Trim, Stripped, EvaluateEq, Condition, PrintOperand;
    var s, A := GroupText(a, mark, body, rest), PrintOperand(a);
    var L := [mark] + body + [mark];
    GroupStart(a, mark, body, rest);
    var i := |A| + |body| + 9;
    assert s[i] == s[i - 1..][1] == rest[1];
    var z := LeftOver(a, mark, body, rest, k, i);
    var next := rest[1..][..|z| - i + 4];
    BeyondPart(A, L, rest, z);
    CutOfPrefix(Below, rest[1..], |next|);
    hide CutAt;
    EvalBeyond(a, mark, body, next, ctx);
    EqExpr(Stripped(Trim(s[..k])), z, ctx);
    assert |"eq " + z| > |"eq " + A + " " + [mark]|;
  }

  lemma BeyondPart(A: string, L: string, rest: string, z: string)
    requires |rest| >= 2 && rest[0] == ' ' && |A| + |L| + 4 <= |z| <= |A| + |L| + 2 + |rest|
    requires z == (A + (" " + (L + (")" + rest))))[..|z|]
    ensures z == A + " " + (L + (") " + rest[1..][..|z| - |A| - |L| - 3]))
  {
    var n := |z| - |A| - |L| - 2;
    assert rest[..n] == " " + rest[1..][..n - 1];
    assert z == A + (" " + (L + (")" + rest[..n])));
  }

  // ----- Lists of conditions -----

  /** Conditions that are not lists themselves; `eq` of a literal and a path, in this order, is left
      out: what is looked up in place of the path may have any value. */
  predicate Simple(c: Cond) {
    match c
    case Eq(a, b) => a.Path? || b.Literal?
    case And(_) => false
    case _ => true
  }

  /** Inside a group, text without parentheses is copied. */
  lemma {:induction false} FlatReads(s: string)
    requires '(' !in s && ')' !in s
    ensures CutAt(InGroup, s) == |s| && Reach(InGroup, s) == InGroup
    decreases |s|
  {
    if s != "" {
      assert s[0] in s && forall c <- s[1..] :: c in s;
      FlatReads(s[1..]);
    }
  }

  predicate Flat(s: string) {
    '(' !in s && ')' !in s
  }

  lemma {:induction false} SpacedFlat(words: seq<string>)
    requires forall w <- words :: Flat(w)
    ensures Flat(SingleSpaced(words))
  {
    if words != [] {
      assert words[0] in words;
      if |words| > 1 {
        SpacedUnfolds(words);
        SpacedFlat(words[1..]);
      }
    }
  }

  lemma FlatCloses(c: Cond)
    requires ValidCond(c) && !c.Var? && Flat(Text(c, false))
    ensures ClosedWord(Word(c, false))
  {
    WordShape(c, false);
    FlatReads(Text(c, false));
    Enclosed(Outside, '(', Text(c, false), ')');
  }

  function LiteralFlat(o: Operand): bool {
    o.Literal? ==> Flat(o.body)
  }

  /** Only a literal with a parenthesis can keep a group from being closed. */
  lemma OnlyLiteralsFail(c: Cond)
    requires ValidCond(c) && !c.And? && (c.Eq? ==> LiteralFlat(c.left) && LiteralFlat(c.right))
    ensures ClosedWord(Word(c, false))
  {
    match c
    case Var(p) => PathShape(p);
    case Not(p) => FlatCloses(c);
    case Eq(a, b) =>
      SpacedFlat([PrintOperand(a), PrintOperand(b)]);
      FlatCloses(c);
    case Or(ps) =>
      SpacedFlat(ps);
      FlatCloses(c);
  }

  /** The text of a list is its first word and the text of the others. */
  lemma ListText(args: seq<Cond>)
    requires args != []
    ensures SingleSpaced(Words(args, false))
      == Word(args[0], false) + if |args| == 1 then "" else " " + SingleSpaced(Words(args[1..], false))
  {
    WordsCons(args);
    hide Word, Words, SingleSpaced;
    var w := Word(args[0], false);
    if |args| == 1 {
      OneMore(w);
    } else {
      ConsSpaced(w, Words(args[1..], false));
    }
  }

  lemma WordsCons(args: seq<Cond>)
    requires args != []
    ensures |args| == 1 ==> Words(args, false) == [Word(args[0], false)]
    ensures |args| > 1 ==>
      Words(args, false) == [Word(args[0], false)] + Words(args[1..], false) && Words(args[1..], false) != []
  {
    hide Word;
  }

  lemma OneMore(w: string)
    ensures SingleSpaced([w]) == w == w + ""
  {}

  lemma ConsSpaced(w: string, more: seq<string>)
    requires more != []
    ensures SingleSpaced([w] + more) == w + (" " + SingleSpaced(more))
  {
    SpacedUnfolds([w] + more);
    hide SingleSpaced;
    assert ([w] + more)[1..] == more;
    assert w + " " + SingleSpaced(more) == w + (" " + SingleSpaced(more));
  }

  /** Read below depth zero, a printed list is cut after the first keyword at the latest. */
  lemma {:induction false} BelowKeywords(args: seq<Cond>)
    requires args != [] && forall a <- args :: ValidCond(a)
    ensures var t := SingleSpaced(Words(args, false)); forall c <- t[..CutAt(Below, t)] :: !IsQuote(c)
    decreases |args|
  {
    assert args[0] in args;
    if args[0].Var? {
      var p := args[0].path;
      ListText(args);
      if |args| > 1 {
        BelowKeywords(args[1..]);
        AfterPath(p, SingleSpaced(Words(args[1..], false)));
      } else {
        SolidReads(Below, p);
        assert p[..|p|] == p && p + "" == p;
      }
    } else {
      FirstGroup(args);
    }
  }

  lemma AfterPath(w: string, rest: string)
    requires Solid(w) && forall c <- rest[..CutAt(Below, rest)] :: !IsQuote(c)
    ensures var t := w + (" " + rest); forall c <- t[..CutAt(Below, t)] :: !IsQuote(c)
  {
    var t := w + (" " + rest);
    SolidReads(Below, w);
    SpacesRead(Below, 1);
    assert Spaces(1) == " " by { assert Spaces(1) == " " + Spaces(0); }
    CutConcat(Below, w, " " + rest);
    CutConcat(Below, " ", rest);
    var n := CutAt(Below, rest);
    hide CutAt, Reach;
    assert t[..|w| + 1 + n] == w + " " + rest[..n];
  }

  lemma FirstGroup(args: seq<Cond>)
    requires args != [] && (forall a <- args :: ValidCond(a)) && !args[0].Var?
    ensures var t := SingleSpaced(Words(args, false)); forall c <- t[..CutAt(Below, t)] :: !IsQuote(c)
  {
    var t := SingleSpaced(Words(args, false));
    var keyword := KeywordFirst(args[0]);
    ListText(args);
    var rest := if |args| == 1 then "" else " " + SingleSpaced(Words(args[1..], false));
    var w := Word(args[0], false);
    hide Word, Words, SingleSpaced;
    hide CutAt;
    var tail := w[|keyword| + 2..];
    KeywordText("(" + keyword, tail, rest);
    CutAfterKeyword(keyword, tail + rest);
  }

  lemma KeywordText(head: string, tail: string, rest: string)
    ensures head + " " + tail + rest == head + (" " + (tail + rest))
  {}

  lemma KeywordFirst(c: Cond) returns (keyword: string)
    requires !c.Var?
    ensures keyword in {"not", "eq", "or", "and"}
    ensures var w, n := Word(c, false), |keyword| + 1;
      n + 1 <= |w| && w == "(" + keyword + " " + w[n + 1..]
  {
    keyword := match c case Not(_) => "not" case Eq(_, _) => "eq" case Or(_) => "or" case And(_) => "and";
    var t := Text(c, false);
    var k := keyword + " ";
    hide SingleSpaced, Words;
    assert k == match c case Not(_) => "not " case Eq(_, _) => "eq " case Or(_) => "or " case And(_) => "and ";
    assert k <= t;
    hide Text;
    assert t == k + t[|k|..];
    assert "(" + t + ")" == "(" + keyword + " " + (t[|k|..] + ")");
    assert ("(" + t + ")")[|k| + 1..] == t[|k|..] + ")";
  }

  lemma CutAfterKeyword(keyword: string, rest: string)
    requires keyword in {"not", "eq", "or", "and"}
    ensures var t := "(" + keyword + (" " + rest); forall c <- t[..CutAt(Below, t)] :: !IsQuote(c)
  {
    var head := "(" + keyword;
    assert Solid(keyword);
    SolidReads(Outside, keyword);
    OneReads(Below, '(');
    CutConcat(Below, "(", keyword);
    CutConcat(Below, head, " " + rest);
    assert CutAt(Outside, " " + rest) == 0;
    hide CutAt, Reach;
    assert (head + (" " + rest))[..|head|] == head;
  }

  lemma ListContinues(args: seq<Cond>)
    requires args != [] && forall a <- args :: ValidCond(a)
    ensures var t := SingleSpaced(Words(args, false)); Continues(" " + t) && t != "" && !IsSpace(t[0])
  {
    var t, w := SingleSpaced(Words(args, false)), Word(args[0], false);
    BelowKeywords(args);
    assert ValidCond(args[0]);
    WordShape(args[0], false);
    ListText(args);
    assert args[0] in args;
    if args[0].Var? {
      assert w[0] == '.';
    } else {
      assert w[0] == '(';
    }
    hide Words, Word, CutAt;
    assert (" " + t)[1..] == t;
  }

  lemma FirstNotTrue(args: seq<string>, ctx: Context)
    requires args != [] && Condition(Stripped(args[0]), ctx) != Value(true)
    ensures AllTrue(args, ctx) != Value(true)
  {
    hide Condition, Stripped;
  }

  /** A group that is misread is not found true where it holds. */
  lemma MisreadNotTrue(c: Cond, rest: string, ctx: Context)
    requires ValidCond(c) && Simple(c) && Holds(c, ctx) && Continues(rest) && IsMisread(Word(c, false), rest)
    ensures AllTrue(FunctionArgs(Word(c, false) + rest), ctx) != Value(true)
  {
    if !c.Eq? || (LiteralFlat(c.left) && LiteralFlat(c.right)) {
      OnlyLiteralsFail(c);
    }
    assert c.Eq? && c.right.Literal?;
    var a, mark, body := c.left, c.right.mark, c.right.body;
    assert c == EqLiteral(a, mark, body);
    assert body != "" by {
      if body == "" && a.Path? {
        OnlyLiteralsFail(c);
      }
    }
    GroupIsWord(a, mark, body, rest);
    MisreadValue(a, mark, body, rest, ctx);
    hide Condition, FunctionArgs, Stripped, GroupText, Word;
    FirstNotTrue(FunctionArgs(GroupText(a, mark, body, rest)), ctx);
  }

  lemma {:induction false} ListNotTrue(args: seq<Cond>, ctx: Context)
    requires args != [] && forall a <- args :: ValidCond(a) && Simple(a) && Holds(a, ctx)
    requires !Splits(Words(args, false))
    ensures AllTrue(FunctionArgs(SingleSpaced(Words(args, false))), ctx) != Value(true)
    decreases |args|
  {
    ListText(args);
    assert args[0] in args;
    if |args| == 1 {
      LastMisread(args);
      MisreadNotTrue(args[0], "", ctx);
    } else {
      var w, more := Word(args[0], false), args[1..];
      var rest := SingleSpaced(Words(more, false));
      ListContinues(more);
      SplitsFirst(args);
      hide Words, Word, Holds, ValidCond, Simple, Splits, ClosedWord, AllTrue, FunctionArgs;
      if ClosedWord(w) {
        ListNotTrue(more, ctx);
        GoodFirst(args[0], w, rest, ctx);
      } else {
        MisreadNotTrue(args[0], " " + rest, ctx);
      }
    }
  }

  lemma LastMisread(args: seq<Cond>)
    requires |args| == 1 && !Splits(Words(args, false))
    ensures !OneWord(Word(args[0], false))
  {
    WordsLength(args, false);
    hide Words;
  }

  lemma SplitsFirst(args: seq<Cond>)
    requires |args| > 1
    ensures Splits(Words(args, false)) <==> ClosedWord(Word(args[0], false)) && Splits(Words(args[1..], false))
  {
    WordsLength(args[1..], false);
    SplitsCons(Word(args[0], false), Words(args[1..], false));
    hide Splits, ClosedWord;
    assert Words(args, false) == [Word(args[0], false)] + Words(args[1..], false);
  }

  /** After a closed argument that holds, the others decide. */
  lemma GoodFirst(c: Cond, w: string, rest: string, ctx: Context)
    requires ValidCond(c) && Holds(c, ctx) && w == Word(c, false) && ClosedWord(w) && rest != "" && !IsSpace(rest[0])
    ensures AllTrue(FunctionArgs(w + (" " + rest)), ctx) == AllTrue(FunctionArgs(rest), ctx)
  {
    StrippedWord(c, false);
    CondEvaluates(c, true, ctx);
    FirstWord(w, 0, rest);
    assert Spaces(1) == " " by { assert Spaces(1) == " " + Spaces(0); }
    hide FunctionArgs, Condition, Stripped, Text, Word, Holds;
    assert w + " " + rest == w + (" " + rest);
    assert ([w] + FunctionArgs(rest))[1..] == FunctionArgs(rest);
  }

  /** In every context in which an `and` of simple conditions holds, the evaluator finds it true if and
      only if each argument passes the scan of its parentheses and quotes. */
  lemma TrueIffScanned(args: seq<Cond>, ctx: Context)
    requires args != [] && (forall a <- args :: ValidCond(a) && Simple(a)) && Holds(And(args), ctx)
    ensures Condition(PrintCond(And(args)), ctx) == Value(true) <==> Splits(Words(args, false))
  {
    if Splits(Words(args, false)) {
      ConditionMeaning(And(args), ctx);
    } else {
      AndEvaluates(args, ctx);
      ListNotTrue(args, ctx);
    }
  }

  ghost predicate AlwaysMeant(c: Cond) {
    forall ctx :: Condition(PrintCond(c), ctx) == Value(Holds(c, ctx))
  }

  /** An `and` of simple conditions that holds in some context is evaluated to its value in all contexts
      if and only if each argument passes the scan. */
  lemma MeantIffScanned(args: seq<Cond>)
    requires args != [] && forall a <- args :: ValidCond(a) && Simple(a)
    ensures Splits(Words(args, false)) ==> AlwaysMeant(And(args))
    ensures (exists ctx :: Holds(And(args), ctx)) ==> (AlwaysMeant(And(args)) <==> Splits(Words(args, false)))
  {
    if Splits(Words(args, false)) {
      forall ctx ensures Condition(PrintCond(And(args)), ctx) == Value(Holds(And(args), ctx)) {
        ConditionMeaning(And(args), ctx);
      }
    } else if ctx :| Holds(And(args), ctx) {
      TrueIffScanned(args, ctx);
    }
  }

  // ----- A misread literal in front -----

  /** `and (eq P literal) ...` whose literal fails the scan: what the evaluator computes in its place, in
      every context. */
  lemma FirstLiteralMisread(p: string, mark: char, body: string, more: seq<Cond>, ctx: Context)
    requires ValidCond(EqLiteral(Path(p), mark, body)) && more != [] && forall a <- more :: ValidCond(a)
    requires !(CutAt(InGroup, body) == |body| && Reach(InGroup, body) == InGroup)
    ensures var c := And([EqLiteral(Path(p), mark, body)] + more);
      var args := FunctionArgs(SingleSpaced(Words(c.args, false)));
      && args != []
      && Condition(PrintCond(c), ctx)
         == if Trim(Stripped(args[0])) == "eq " + p + " " + [mark] then Panic
            else if Resolve(ctx, p) != "" then Value(false)
            else AllTrue(args[1..], ctx)
  {
    var e := EqLiteral(Path(p), mark, body);
    var list := [e] + more;
    var w, rest := Word(e, false), SingleSpaced(Words(more, false));
    LiteralScan(p, mark, body);
    ListContinues(more);
    ListText(list);
    AndEvaluates(list, ctx);
    hide Condition, FunctionArgs, Stripped, Word, Words, GroupText, Resolve, Trim, Text, ValidCond, ClosedWord;
    assert list[1..] == more;
    GroupIsWord(Path(p), mark, body, " " + rest);
    MisreadValue(Path(p), mark, body, " " + rest, ctx);
  }

  lemma AndEvaluates(args: seq<Cond>, ctx: Context)
    requires args != [] && forall a <- args :: ValidCond(a)
    ensures Condition(PrintCond(And(args)), ctx) == AllTrue(FunctionArgs(SingleSpaced(Words(args, false))), ctx)
  {
    AndTrimmed(args, false);
    AndDispatch(SingleSpaced(Words(args, false)), ctx);
  }

  /** `and (eq P "B)") Q`: the parenthesis in the literal ends the group for the splitter. */
  function Misread(p: string, b: string, q: string): Cond {
    And([EqLiteral(Path(p), '"', b + ")"), Var(q)])
  }

  /** The condition is then true exactly when `P` is empty. So it has its meaning if and only if
      `P` is not empty and the condition does not hold. */
  lemma ParenthesisInGroup(p: string, b: string, q: string, ctx: Context)
    requires ValidPath(p) && ValidPath(q) && '"' !in b && Balanced(b, 0)
    ensures Condition(PrintCond(Misread(p, b, q)), ctx) == Value(Resolve(ctx, p) == "")
    ensures Condition(PrintCond(Misread(p, b, q)), ctx) == Value(Holds(Misread(p, b, q), ctx))
      <==> Resolve(ctx, p) != "" && !Holds(Misread(p, b, q), ctx)
  {
    var body := b + ")";
    var e := EqLiteral(Path(p), '"', body);
    var list, s := [e, Var(q)], GroupText(Path(p), '"', body, " " + q);
    MisreadText(p, b, q);
    SwallowsRest(p, b, q);
    AndEvaluates(list, ctx);
    MisreadBeyond(Path(p), '"', body, " " + q, |s|, ctx);
    MisreadHolds(p, b, q, ctx);
    assert s[..|s|] == s && body != "";
    hide Condition, FunctionArgs, Stripped, Word, Words, GroupText, Resolve, Holds, SingleSpaced;
    assert [Trim(s)][1..] == [];
  }

  lemma MisreadText(p: string, b: string, q: string)
    requires ValidPath(p) && ValidPath(q) && '"' !in b
    ensures Continues(" " + q)
    ensures ValidCond(EqLiteral(Path(p), '"', b + ")"))
    ensures SingleSpaced(Words(Misread(p, b, q).args, false)) == GroupText(Path(p), '"', b + ")", " " + q)
  {
    var e, v := EqLiteral(Path(p), '"', b + ")"), Var(q);
    ListText([v]);
    ListContinues([v]);
    ListText([e, v]);
    GroupIsWord(Path(p), '"', b + ")", " " + q);
    hide Word, Words, GroupText, Continues;
    assert [e, v][1..] == [v];
    assert Word(v, false) == q && q + "" == q by { VarWord(q); }
  }

  lemma VarWord(q: string)
    ensures Word(Var(q), false) == q && q + "" == q
  {}

  lemma SwallowsRest(p: string, b: string, q: string)
    requires ValidPath(p) && ValidPath(q) && '"' !in b && Balanced(b, 0)
    ensures var s := GroupText(Path(p), '"', b + ")", " " + q); FunctionArgs(s) == [Trim(s)] && |s| >= |p| + |b| + 12
  {
    var s, body := GroupText(Path(p), '"', b + ")", " " + q), b + ")";
    GroupStart(Path(p), '"', body, " " + q);
    TrimKeeps(s, 0);
    NothingCut(p, b, q);
    hide FunctionArgs, CutAt, Trim, GroupText;
    NotCut(s);
  }

  lemma NothingCut(p: string, b: string, q: string)
    requires ValidPath(p) && ValidPath(q) && '"' !in b && Balanced(b, 0)
    ensures var s := GroupText(Path(p), '"', b + ")", " " + q); CutAt(Outside, s) == |s|
  {
    var body, tail := b + ")", ") " + q;
    var L := ['"'] + body + ['"'];
    UpToLiteral(Path(p), L + tail);
    NestedReads(b, 0);
    OneReads(InGroup, ')');
    CutConcat(InGroup, b, ")");
    Enclosed(InGroup, '"', body, '"');
    CutConcat(InGroup, L, tail);
    QuoteReads('"', tail);
    hide CutAt, Reach;
    assert ")" + (" " + q) == tail;
  }

  lemma MisreadHolds(p: string, b: string, q: string, ctx: Context)
    ensures Holds(Misread(p, b, q), ctx) <==> Resolve(ctx, p) == b + ")" && Truthy(ctx, q)
  {
    hide Resolve;
    var e, v := EqLiteral(Path(p), '"', b + ")"), Var(q);
    assert Holds(e, ctx) <==> Resolve(ctx, p) == b + ")";
    assert Holds(v, ctx) <==> Truthy(ctx, q);
    assert e in [e, v] && v in [e, v];
    assert Holds(And([e, v]), ctx) <==> forall a <- [e, v] :: Holds(a, ctx);
  }
}
