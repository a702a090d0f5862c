/** The argument splitter of the template engine (`parse_function_args` in template.rs):
    the loop, the automaton it runs, and the proof that it undoes printing. */
module TemplateArguments {
  import opened Wrappers
  import opened Strings

  // ----- The automaton -----

  /** Where the splitter stands: the arguments already cut off, the characters of the current one,
      the quote that is open and the number of open parentheses. */
  datatype Splitter = Splitter(args: seq<string>, current: string, quote: Option<char>, depth: int)

  const Start := Splitter([], "", None, 0)

  predicate IsQuote(c: char) {
    c == '"' || c == '\''
  }

  function Flush(st: Splitter): seq<string> {
    var word := Trim(st.current);
    if word == "" then st.args else st.args + [word]
  }

  function Step(st: Splitter, c: char): Splitter {
    var longer := st.(current := st.current + [c]);
    if IsQuote(c) && st.depth == 0 then
      if st.quote == Some(c) then longer.(quote := None)
      else if st.quote == None then longer.(quote := Some(c))
      else longer
    else if c == '(' && st.quote == None then longer.(depth := st.depth + 1)
    else if c == ')' && st.quote == None then longer.(depth := st.depth - 1)
    else if c == ' ' && st.quote == None && st.depth == 0 then st.(args := Flush(st), current := "")
    else longer
  }

  function Run(st: Splitter, s: string): Splitter
    decreases |s|
  {
    if s == "" then st else Run(Step(st, s[0]), s[1..])
  }

  function FunctionArgs(input: string): seq<string> {
    Flush(Run(Start, input))
  }

  lemma {:induction false} RunConcat(st: Splitter, a: string, b: string)
    ensures Run(st, a + b) == Run(Run(st, a), b)
    decreases |a|
  {
    if a == "" {
      assert a + b == b;
    } else {
      assert (a + b)[1..] == a[1..] + b;
      RunConcat(Step(st, a[0]), a[1..], b);
    }
  }

  /** No argument is longer than the input; this is why nested conditions are evaluated in
      finitely many steps. */
  lemma {:induction false} ArgsAreShort(st: Splitter, s: string, n: nat)
    requires |st.current| + |s| <= n && forall a <- st.args :: |a| <= n
    ensures forall a <- Flush(Run(st, s)) :: |a| <= n
    decreases |s|
  {
    if s != "" {
      ArgsAreShort(Step(st, s[0]), s[1..], n);
    }
  }

  // ----- The loop -----

  method ParseFunctionArgs(input: string) returns (args: seq<string>)
    ensures args == FunctionArgs(input)
  {
    args := [];
    var current := "";
    var inQuotes := false;
    var quoteChar := '"';
    var parenDepth := 0;
    for i := 0 to |input|
      invariant Run(Splitter(args, current, if inQuotes then Some(quoteChar) else None, parenDepth), input[i..])
             == Run(Start, input)
    {
      var ch := input[i];
      assert input[i..][1..] == input[i + 1..];
      if (ch == '"' || ch == '\'') && parenDepth == 0 {
        current := current + [ch];
        if inQuotes && ch == quoteChar {
          inQuotes := false;
        } else if !inQuotes {
          inQuotes := true;
          quoteChar := ch;
        }
      } else if ch == '(' && !inQuotes {
        parenDepth := parenDepth + 1;
        current := current + [ch];
      } else if ch == ')' && !inQuotes {
        parenDepth := parenDepth - 1;
        current := current + [ch];
      } else if ch == ' ' && !inQuotes && parenDepth == 0 {
        var trimmed := Trim(current);
        if trimmed != "" {
          args := args + [trimmed];
        }
        current := "";
      } else {
        current := current + [ch];
      }
    }
    var trimmed := Trim(current);
    if trimmed != "" {
      args := args + [trimmed];
    }
  }

  // ----- Where an argument ends -----

  /** The splitter without its text: all that decides where it cuts. */
  datatype Place = Place(quote: Option<char>, depth: int)

  const Outside := Place(None, 0)

  function After(pl: Place, c: char): Place {
    if IsQuote(c) && pl.depth == 0 then
      if pl.quote == Some(c) then pl.(quote := None)
      else if pl.quote == None then pl.(quote := Some(c))
      else pl
    else if c == '(' && pl.quote == None then pl.(depth := pl.depth + 1)
    else if c == ')' && pl.quote == None then pl.(depth := pl.depth - 1)
    else pl
  }

  /** How far `s` is read from `pl` before a space separates. */
  function CutAt(pl: Place, s: string): (k: nat)
    ensures k <= |s|
    decreases |s|
  {
    if s == "" || (s[0] == ' ' && pl == Outside) then 0 else 1 + CutAt(After(pl, s[0]), s[1..])
  }

  /** Where `s` leads from `pl`. */
  function Reach(pl: Place, s: string): Place
    decreases |s|
  {
    if s == "" then pl else Reach(After(pl, s[0]), s[1..])
  }

  lemma {:induction false} CutConcat(pl: Place, a: string, b: string)
    ensures Reach(pl, a + b) == Reach(Reach(pl, a), b)
    ensures CutAt(pl, a + b) == if CutAt(pl, a) < |a| then CutAt(pl, a) else |a| + CutAt(Reach(pl, a), b)
    decreases |a|
  {
    if a == "" {
      assert a + b == b;
    } else {
      assert (a + b)[1..] == a[1..] + b;
      CutConcat(After(pl, a[0]), a[1..], b);
    }
  }

  /** A cut comes before a space, outside of quotes and groups. */
  lemma {:induction false} AtCut(pl: Place, s: string)
    requires CutAt(pl, s) < |s|
    ensures s[CutAt(pl, s)] == ' ' && Reach(pl, s[..CutAt(pl, s)]) == Outside
    decreases |s|
  {
    if s[0] != ' ' || pl != Outside {
      AtCut(After(pl, s[0]), s[1..]);
      assert s[..CutAt(pl, s)][1..] == s[1..][..CutAt(pl, s) - 1];
    }
  }

  /** Cutting the text off does not move a cut that comes before. */
  lemma CutOfPrefix(pl: Place, s: string, n: nat)
    requires n <= |s|
    ensures CutAt(pl, s[..n]) == if CutAt(pl, s) < n then CutAt(pl, s) else n
  {
    assert s == s[..n] + s[n..];
    CutConcat(pl, s[..n], s[n..]);
  }

  /** A text read as one argument, and one after which a space separates: scans of its quotes and
      parentheses. */
  predicate OneWord(w: string) {
    Trimmed(w) && CutAt(Outside, w) == |w|
  }

  predicate ClosedWord(w: string) {
    OneWord(w) && Reach(Outside, w) == Outside
  }

  lemma {:induction false} RunToCut(st: Splitter, s: string)
    requires CutAt(Place(st.quote, st.depth), s) == |s|
    ensures var to := Reach(Place(st.quote, st.depth), s);
      Run(st, s) == Splitter(st.args, st.current + s, to.quote, to.depth)
    decreases |s|
  {
    if s == "" {
      assert st.current + s == st.current;
    } else {
      RunToCut(Step(st, s[0]), s[1..]);
      assert st.current + s == st.current + [s[0]] + s[1..];
    }
  }

  /** The arguments already cut off stay in front. */
  lemma {:induction false} ArgsStay(st: Splitter, s: string)
    ensures Flush(Run(st, s)) == st.args + Flush(Run(st.(args := []), s))
    decreases |s|
  {
    var bare := st.(args := []);
    if s != "" {
      var next := Step(st, s[0]);
      StepStays(st, s[0]);
      ArgsStay(next, s[1..]);
      ArgsStay(Step(bare, s[0]), s[1..]);
      assert Step(bare, s[0]).(args := []) == next.(args := []);
      var rest := Flush(Run(next.(args := []), s[1..]));
      hide Step, Flush, Run;
      assert st.args + Step(bare, s[0]).args + rest == st.args + (Step(bare, s[0]).args + rest);
    }
  }

  lemma StepStays(st: Splitter, c: char)
    ensures var next, bare := Step(st, c), Step(st.(args := []), c);
      next == bare.(args := st.args + bare.args)
  {
    hide Trim;
  }

  lemma {:induction false} TrimKeeps(s: string, i: nat)
    requires i < |s| && !IsSpace(s[0]) && !IsSpace(s[i])
    ensures i < |Trim(s)| && Trim(s) <= s
    decreases |s|
  {
    EndKeeps(s, i);
  }

  lemma {:induction false} EndKeeps(s: string, i: nat)
    requires i < |s| && !IsSpace(s[i])
    ensures i < |TrimEnd(s)| && TrimEnd(s) <= s
    decreases |s|
  {
    if IsSpace(s[|s| - 1]) {
      EndKeeps(s[..|s| - 1], i);
    }
  }

  /** The first argument ends at the first cut. */
  lemma FirstArgument(s: string)
    requires s != "" && !IsSpace(s[0])
    ensures var k := CutAt(Outside, s);
      && 0 < k && Trim(s[..k]) != ""
      && FunctionArgs(s) == [Trim(s[..k])] + if k < |s| then FunctionArgs(s[k + 1..]) else []
  {
    hide Run, CutAt, Reach, Trim, FunctionArgs;
    var k := CutAt(Outside, s);
    CutIsLater(s);
    TrimKeeps(s[..k], 0);
    ReadUpTo(s, k);
    if k < |s| {
      AtCut(Outside, s);
      CutHere(s, k);
    } else {
      assert s[..k] == s;
      NotCut(s);
    }
  }

  lemma CutIsLater(s: string)
    requires s != "" && !IsSpace(s[0])
    ensures CutAt(Outside, s) > 0
  {}

  lemma ReadUpTo(s: string, k: nat)
    requires k == CutAt(Outside, s)
    ensures var to := Reach(Outside, s[..k]); Run(Start, s[..k]) == Splitter([], s[..k], to.quote, to.depth)
  {
    CutOfPrefix(Outside, s, k);
    RunToCut(Start, s[..k]);
    assert "" + s[..k] == s[..k];
  }

  lemma NotCut(s: string)
    requires CutAt(Outside, s) == |s| && Trim(s) != ""
    ensures FunctionArgs(s) == [Trim(s)]
  {
    RunToCut(Start, s);
    assert "" + s == s;
  }

  lemma CutHere(s: string, k: nat)
    requires k < |s| && s[k] == ' ' && Run(Start, s[..k]) == Splitter([], s[..k], None, 0) && Trim(s[..k]) != ""
    ensures FunctionArgs(s) == [Trim(s[..k])] + FunctionArgs(s[k + 1..])
  {
    var rest := s[k..];
    assert s == s[..k] + rest && rest[1..] == s[k + 1..];
    RunConcat(Start, s[..k], rest);
    var next := Splitter([Trim(s[..k])], "", None, 0);
    assert Step(Splitter([], s[..k], None, 0), ' ') == next;
    ArgsStay(next, s[k + 1..]);
  }

  // ----- Splitting undoes printing -----

  /** What may be written as one argument. */
  datatype Argument =
    | Bare(text: string)
    | Quoted(mark: char, body: string)
    | Group(inner: string)
  {
    function Print(): string {
      match this
      case Bare(text) => text
      case Quoted(mark, body) => [mark] + body + [mark]
      case Group(inner) => "(" + inner + ")"
    }

    predicate Valid() {
      match this
      case Bare(text) => Plain(text)
      case Quoted(mark, body) => IsQuote(mark) && mark !in body
      case Group(inner) => Balanced(inner, 0)
    }
  }

  /** A bare word: no blanks at its ends, and no space, quote or parenthesis in it. */
  predicate Plain(s: string) {
    Trimmed(s) && Solid(s)
  }

  predicate Solid(s: string) {
    forall c <- s :: c != ' ' && !IsQuote(c) && c != '(' && c != ')'
  }

  /** Read from depth `d`, the parentheses of `s` never go below zero and end at zero. */
  predicate Balanced(s: string, d: int) {
    Nested(s, d) && DepthAfter(s, d) == 0
  }

  /** The depth never goes below zero. */
  predicate Nested(s: string, d: int) {
    d >= 0 && (s != "" ==> Nested(s[1..], d + ParenStep(s[0])))
  }

  function ParenStep(c: char): int {
    if c == '(' then 1 else if c == ')' then -1 else 0
  }

  function DepthAfter(s: string, d: int): int {
    if s == "" then d else DepthAfter(s[1..], d + ParenStep(s[0]))
  }

  /** Inside a group only parentheses matter. */
  lemma {:induction false} NestedReads(s: string, d: nat)
    requires Nested(s, d)
    ensures CutAt(Place(None, d + 1), s) == |s| && Reach(Place(None, d + 1), s) == Place(None, DepthAfter(s, d) + 1)
    decreases |s|
  {
    if s != "" {
      NestedReads(s[1..], d + ParenStep(s[0]));
    }
  }

  lemma {:induction false} SolidReads(pl: Place, s: string)
    requires Solid(s)
    ensures CutAt(pl, s) == |s| && Reach(pl, s) == pl
    decreases |s|
  {
    if s != "" {
      assert s[0] in s && forall c <- s[1..] :: c in s;
      SolidReads(pl, s[1..]);
    }
  }

  lemma {:induction false} QuoteReads(mark: char, s: string)
    requires mark !in s
    ensures CutAt(Place(Some(mark), 0), s) == |s| && Reach(Place(Some(mark), 0), s) == Place(Some(mark), 0)
    decreases |s|
  {
    if s != "" {
      assert s[0] in s && forall c <- s[1..] :: c in s;
      QuoteReads(mark, s[1..]);
    }
  }

  lemma OneReads(pl: Place, c: char)
    requires c != ' '
    ensures CutAt(pl, [c]) == 1 && Reach(pl, [c]) == After(pl, c)
  {
    assert [c][1..] == "";
  }

  lemma WordCloses(w: Argument)
    requires w.Valid()
    ensures ClosedWord(w.Print())
  {
    match w
    case Bare(text) => SolidReads(Outside, text);
    case Quoted(mark, body) => QuotedCloses(mark, body);
    case Group(inner) => GroupCloses(inner);
  }

  lemma QuotedCloses(mark: char, body: string)
    requires IsQuote(mark) && mark !in body
    ensures ClosedWord([mark] + body + [mark])
  {
    QuoteReads(mark, body);
    Enclosed(Outside, mark, body, mark);
    hide CutAt, Reach;
  }

  lemma GroupCloses(inner: string)
    requires Balanced(inner, 0)
    ensures ClosedWord("(" + inner + ")")
  {
    NestedReads(inner, 0);
    Enclosed(Outside, '(', inner, ')');
    hide CutAt, Reach;
  }

  /** Reading a text between two characters. */
  lemma Enclosed(pl: Place, first: char, s: string, last: char)
    requires first != ' ' && last != ' '
    ensures var inside := After(pl, first);
      && CutAt(pl, [first] + s + [last])
         == (if CutAt(inside, s) < |s| then 1 + CutAt(inside, s) else |s| + 2)
      && Reach(pl, [first] + s + [last]) == After(Reach(inside, s), last)
  {
    OneReads(pl, first);
    OneReads(Reach(After(pl, first), s), last);
    CutConcat(pl, [first], s);
    CutConcat(pl, [first] + s, [last]);
  }

  function Spaces(n: nat): string {
    if n == 0 then "" else " " + Spaces(n - 1)
  }

  /** The arguments with at least one space after each but the last. */
  function PrintArgs(words: seq<string>, gaps: seq<nat>): string
    requires |gaps| == |words|
  {
    if words == [] then ""
    else if |words| == 1 then words[0]
    else words[0] + Spaces(gaps[0] + 1) + PrintArgs(words[1..], gaps[1..])
  }

  lemma {:induction false} LeadingSpaces(n: nat, s: string)
    ensures FunctionArgs(Spaces(n) + s) == FunctionArgs(s)
  {
    if n == 0 {
      assert Spaces(0) + s == s;
    } else {
      assert (Spaces(n) + s)[1..] == Spaces(n - 1) + s;
      assert Step(Start, ' ') == Start by { assert Trim("") == ""; }
      LeadingSpaces(n - 1, s);
    }
  }

  /** Every argument but the last has to be closed, and the last may not be cut. */
  predicate Splits(words: seq<string>) {
    && (forall i :: 0 <= i < |words| - 1 ==> ClosedWord(words[i]))
    && (words != [] ==> OneWord(words[|words| - 1]))
  }

  /** Splitting a printed list gives the list back if and only if each word, scanned on its own, is
      closed, or is the last and not cut. */
  lemma {:induction false} SplitExact(words: seq<string>, gaps: seq<nat>)
    requires |gaps| == |words| && forall w <- words :: Trimmed(w)
    ensures FunctionArgs(PrintArgs(words, gaps)) == words <==> Splits(words)
    decreases |words|
  {
    if |words| == 1 {
      LastWord(words[0]);
      assert words == [words[0]];
    } else if |words| > 1 {
      var w, more := words[0], words[1..];
      assert forall v <- more :: v in words;
      SplitExact(more, gaps[1..]);
      PrintedStart(more, gaps[1..]);
      FirstWord(w, gaps[0], PrintArgs(more, gaps[1..]));
      SplitsCons(w, more);
      assert words == [w] + more;
      hide PrintArgs, Splits, ClosedWord;
      assert FunctionArgs(PrintArgs(words, gaps)) == words ==> FunctionArgs(PrintArgs(words, gaps))[0] == w;
    } else {
      assert Trim("") == "";
    }
  }

  lemma SplitsCons(w: string, more: seq<string>)
    requires more != []
    ensures Splits([w] + more) <==> ClosedWord(w) && Splits(more)
  {
    hide ClosedWord, OneWord;
    var words := [w] + more;
    assert forall i :: 0 <= i < |more| ==> more[i] == words[i + 1];
    if Splits(words) {
      assert ClosedWord(words[0]);
      forall i | 0 <= i < |more| - 1 ensures ClosedWord(more[i]) {
        assert ClosedWord(words[i + 1]);
      }
    }
  }

  lemma PrintedStart(words: seq<string>, gaps: seq<nat>)
    requires |gaps| == |words| > 0 && forall w <- words :: Trimmed(w)
    ensures var t := PrintArgs(words, gaps); t != "" && !IsSpace(t[0])
  {
    assert words[0] in words;
  }

  lemma LastWord(w: string)
    requires Trimmed(w)
    ensures FunctionArgs(w) == [w] <==> OneWord(w)
  {
    FirstArgument(w);
    TrimTrimmed(w);
    var k := CutAt(Outside, w);
    hide FunctionArgs, CutAt;
    assert w[..|w|] == w;
    if k < |w| {
      assert |Trim(w[..k])| < |w|;
      assert FunctionArgs(w)[0] != w;
    }
  }

  /** A word before others is cut off as it is if and only if it is closed; and then the others are
      split as before. */
  lemma FirstWord(w: string, gap: nat, rest: string)
    requires Trimmed(w) && rest != "" && !IsSpace(rest[0])
    ensures var args := FunctionArgs(w + Spaces(gap + 1) + rest);
      if ClosedWord(w) then args == [w] + FunctionArgs(rest) else args != [] && args[0] != w
  {
    var s := w + Spaces(gap + 1) + rest;
    var k := CutAt(Outside, s);
    FirstArgument(s);
    FirstCut(w, gap, rest);
    hide FunctionArgs, CutAt;
    if ClosedWord(w) {
      TrimTrimmed(w);
      assert s[..k] == w;
      AfterGap(w, gap, rest);
      LeadingSpaces(gap, rest);
    } else if k < |w| {
      assert |Trim(s[..k])| < |w|;
    } else {
      AfterGap(w, gap, rest);
      TrimKeeps(s[..k], |w| + gap + 1);
    }
  }

  lemma AfterGap(w: string, gap: nat, rest: string)
    requires rest != ""
    ensures var s := w + Spaces(gap + 1) + rest;
      |w| + gap + 1 < |s| && s[|w| + gap + 1] == rest[0] && s[|w| + 1..] == Spaces(gap) + rest && s[|w|] == ' '
  {
    SpacesRead(Outside, gap + 1);
    assert Spaces(gap + 1) == " " + Spaces(gap);
  }

  lemma FirstCut(w: string, gap: nat, rest: string)
    requires Trimmed(w) && rest != "" && !IsSpace(rest[0])
    ensures var k := CutAt(Outside, w + Spaces(gap + 1) + rest);
      if ClosedWord(w) then k == |w| else k < |w| || k > |w| + gap + 1
  {
    var pl, space := Reach(Outside, w), Spaces(gap + 1);
    CutConcat(Outside, w, space + rest);
    assert w + space + rest == w + (space + rest);
    SpacesRead(pl, gap + 1);
    if pl == Outside {
      assert (space + rest)[0] == ' ';
    } else {
      CutConcat(pl, space, rest);
      assert |space| == gap + 1;
    }
  }

  lemma {:induction false} SpacesRead(pl: Place, n: nat)
    ensures |Spaces(n)| == n && Reach(pl, Spaces(n)) == pl
    ensures CutAt(pl, Spaces(n)) == if pl == Outside then 0 else n
  {
    if n > 0 {
      assert Spaces(n)[1..] == Spaces(n - 1);
      SpacesRead(pl, n - 1);
    }
  }

  /** In particular, the list comes back when the last argument is a group that is never closed. */
  lemma SplitOfPrinted(words: seq<string>, gaps: seq<nat>)
    requires |gaps| == |words| && Splits(words)
    ensures FunctionArgs(PrintArgs(words, gaps)) == words
  {
    forall w | w in words ensures Trimmed(w) {
      var i :| 0 <= i < |words| && words[i] == w;
      assert i < |words| - 1 ==> ClosedWord(words[i]);
    }
    SplitExact(words, gaps);
  }

  function PrintAll(words: seq<Argument>): seq<string> {
    seq(|words|, i requires 0 <= i < |words| => words[i].Print())
  }

  /** The splitter inverts printing: for all bare words, quoted strings and balanced groups, joined
      by one or more spaces. */
  lemma SplitInvertsPrint(words: seq<Argument>, gaps: seq<nat>)
    requires |gaps| == |words| && forall w <- words :: w.Valid()
    ensures FunctionArgs(PrintArgs(PrintAll(words), gaps)) == PrintAll(words)
  {
    var printed := PrintAll(words);
    forall i | 0 <= i < |printed| ensures ClosedWord(printed[i]) {
      WordCloses(words[i]);
    }
    SplitOfPrinted(printed, gaps);
  }
}
