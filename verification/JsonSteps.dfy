/** What a path into a JSON value reaches: keys and indices as steps, how steps are written, and that a
    written path leads exactly where its steps do. */
module JsonSteps {
  import opened Wrappers
  import opened Strings
  import opened JsonRows

  // ----- Steps -----

  datatype Step = Key(name: string) | Index(n: nat)

  /** The steps lead from `v` to `w`: into the field of an object by its name, and into an array to the
      element with that many before it. */
  predicate Reaches(v: Json, steps: seq<Step>, w: Json) {
    if steps == [] then v == w
    else
      match steps[0]
      case Key(name) => v.Object? && name in v.fields && Reaches(v.fields[name], steps[1..], w)
      case Index(n) => v.Array? && n < |v.items| && Reaches(v.items[n], steps[1..], w)
  }

  // ----- Numbers -----

  function Digit(n: nat): char
    requires n < 10
  {
    "0123456789"[n]
  }

  /** A number in decimal, without leading zeros. */
  function PrintNumber(n: nat): string {
    if n < 10 then [Digit(n)] else PrintNumber(n / 10) + [Digit(n % 10)]
  }

  predicate Digits(s: string) {
    s != "" && forall c <- s :: IsDigit(c)
  }

  lemma DigitIsItsValue(n: nat)
    requires n < 10
    ensures IsDigit(Digit(n)) && DigitValue(Digit(n)) == n
  {
    assert n in {0, 1, 2, 3, 4, 5, 6, 7, 8, 9};
  }

  lemma OneMoreDigit(s: string, c: char)
    requires (forall d <- s :: IsDigit(d)) && IsDigit(c)
    ensures forall d <- s + [c] :: IsDigit(d)
    ensures Decimal(s + [c]) == Decimal(s) * 10 + DigitValue(c)
  {
    assert (s + [c])[..|s|] == s;
  }

  lemma {:induction false} NumberRoundTrip(n: nat)
    ensures Digits(PrintNumber(n)) && Decimal(PrintNumber(n)) == n
  {
    if n < 10 {
      DigitIsItsValue(n);
      OneMoreDigit("", Digit(n));
      assert "" + [Digit(n)] == [Digit(n)];
    } else {
      DigitIsItsValue(n % 10);
      NumberRoundTrip(n / 10);
      OneMoreDigit(PrintNumber(n / 10), Digit(n % 10));
    }
  }

  lemma {:induction false} LeadingZeros(zeros: string, digits: string)
    requires Run(zeros, '0') && forall c <- digits :: IsDigit(c)
    ensures (forall c <- zeros + digits :: IsDigit(c)) && Decimal(zeros + digits) == Decimal(digits)
  {
    if digits != "" {
      var last := |digits| - 1;
      assert digits[last] in digits && forall c <- digits[..last] :: c in digits;
      LeadingZeros(zeros, digits[..last]);
      assert zeros + digits == zeros + digits[..last] + [digits[last]];
      OneMoreDigit(zeros + digits[..last], digits[last]);
    } else {
      assert zeros + digits == zeros;
      ZerosAreZero(zeros);
    }
  }

  lemma {:induction false} ZerosAreZero(zeros: string)
    requires Run(zeros, '0')
    ensures (forall c <- zeros :: IsDigit(c)) && Decimal(zeros) == 0
  {
    if zeros != "" {
      var last := |zeros| - 1;
      assert zeros[last] in zeros && forall c <- zeros[..last] :: c in zeros;
      ZerosAreZero(zeros[..last]);
      assert zeros == zeros[..last] + [zeros[last]];
      OneMoreDigit(zeros[..last], zeros[last]);
    }
  }

  // ----- How steps are written -----

  /** Digits, perhaps after a plus sign, for a number within the width of the index type. */
  predicate Numeral(plus: string, digits: string, n: nat) {
    (plus == "" || plus == "+") && Digits(digits) && Decimal(digits) == n < USIZE_LIMIT
  }

  /** The segment is this index in brackets. */
  ghost predicate IndexText(segment: string, n: nat) {
    exists plus, digits :: Numeral(plus, digits, n) && segment == "[" + plus + digits + "]"
  }

  ghost predicate Writes(segment: string, step: Step) {
    match step
    case Index(n) => IndexText(segment, n)
    case Key(name) => segment == name && name != "" && '.' !in name && forall n :: !IndexText(segment, n)
  }

  function PrintStep(step: Step): string {
    match step
    case Key(name) => name
    case Index(n) => "[" + PrintNumber(n) + "]"
  }

  function PrintSteps(steps: seq<Step>): seq<string> {
    seq(|steps|, i requires 0 <= i < |steps| => PrintStep(steps[i]))
  }

  predicate Bracketed(segment: string) {
    |segment| >= 2 && segment[0] == '[' && segment[|segment| - 1] == ']'
  }

  lemma ParseIndexExact(s: string, n: nat)
    ensures ParseIndex(s) == Some(n) <==>
      exists plus, digits :: Numeral(plus, digits, n) && s == plus + digits
  {
    var rest := if "+" <= s then s[1..] else s;
    if ParseIndex(s) == Some(n) {
      var plus := if "+" <= s then "+" else "";
      assert Numeral(plus, rest, n) && s == plus + rest;
    }
    if plus, digits :| Numeral(plus, digits, n) && s == plus + digits {
      assert digits[0] in digits;
      assert rest == digits;
    }
  }

  lemma IndexTextExact(segment: string, n: nat)
    ensures IndexText(segment, n) <==> Bracketed(segment) && ParseIndex(segment[1..|segment| - 1]) == Some(n)
  {
    if IndexText(segment, n) {
      IndexRead(segment, n);
    }
    if Bracketed(segment) && ParseIndex(segment[1..|segment| - 1]) == Some(n) {
      IndexWritten(segment, n);
    }
  }

  lemma IndexRead(segment: string, n: nat)
    requires IndexText(segment, n)
    ensures Bracketed(segment) && ParseIndex(segment[1..|segment| - 1]) == Some(n)
  {
    hide ParseIndex, Numeral;
    var plus, digits :| Numeral(plus, digits, n) && segment == "[" + plus + digits + "]";
    assert segment[1..|segment| - 1] == plus + digits;
    ParseIndexExact(plus + digits, n);
  }

  lemma IndexWritten(segment: string, n: nat)
    requires Bracketed(segment) && ParseIndex(segment[1..|segment| - 1]) == Some(n)
    ensures IndexText(segment, n)
  {
    hide ParseIndex, Numeral;
    var s := segment[1..|segment| - 1];
    ParseIndexExact(s, n);
    var plus, digits :| Numeral(plus, digits, n) && s == plus + digits;
    assert segment == "[" + s + "]";
    assert segment == "[" + plus + digits + "]";
  }

  /** One segment leads where its step does. */
  lemma GetExact(v: Json, segment: string, step: Step)
    requires Writes(segment, step)
    ensures segment != "" && '.' !in segment
    ensures Get(v, segment) ==
      match step
      case Key(name) => (if v.Object? && name in v.fields then Some(v.fields[name]) else None)
      case Index(n) => (if v.Array? && n < |v.items| then Some(v.items[n]) else None)
  {
    match step
    case Index(n) =>
      IndexTextExact(segment, n);
      var plus, digits :| Numeral(plus, digits, n) && segment == "[" + plus + digits + "]";
      hide ParseIndex, IndexText;
    case Key(name) =>
      if Bracketed(segment) && ParseIndex(segment[1..|segment| - 1]).Some? {
        IndexTextExact(segment, ParseIndex(segment[1..|segment| - 1]).value);
      }
      hide ParseIndex, IndexText;
  }

  /** Every segment that is not empty writes exactly one step. */
  lemma OneStep(segment: string) returns (step: Step)
    requires segment != "" && '.' !in segment
    ensures Writes(segment, step)
    ensures forall other :: Writes(segment, other) ==> other == step
  {
    forall n: nat, k: nat ensures IndexText(segment, n) && IndexText(segment, k) ==> n == k {
      IndexTextExact(segment, n);
      IndexTextExact(segment, k);
    }
    if n: nat :| IndexText(segment, n) {
      step := Index(n);
    } else {
      step := Key(segment);
    }
  }

  lemma PrintedStep(step: Step)
    requires step.Index? ==> step.n < USIZE_LIMIT
    requires step.Key? ==> Writes(step.name, step)
    ensures Writes(PrintStep(step), step)
  {
    if step.Index? {
      var digits := PrintNumber(step.n);
      NumberRoundTrip(step.n);
      assert Numeral("", digits, step.n) && "[" + digits + "]" == "[" + "" + digits + "]";
    }
  }

  // ----- Paths -----

  /** The segments write these steps; empty segments write none. */
  ghost predicate WritesAll(segments: seq<string>, steps: seq<Step>) {
    if segments == [] then steps == []
    else if segments[0] == "" then WritesAll(segments[1..], steps)
    else steps != [] && Writes(segments[0], steps[0]) && WritesAll(segments[1..], steps[1..])
  }

  lemma {:induction false} WalkReaches(v: Json, segments: seq<string>, steps: seq<Step>, w: Json)
    requires WritesAll(segments, steps)
    ensures Walk(v, segments) == Some(w) <==> Reaches(v, steps, w)
    decreases |segments|
  {
    hide Writes, Get;
    if segments == [] {
    } else if segments[0] == "" {
      WalkReaches(v, segments[1..], steps, w);
    } else {
      GetExact(v, segments[0], steps[0]);
      var next := Get(v, segments[0]);
      if next.Some? {
        WalkReaches(next.value, segments[1..], steps[1..], w);
      }
    }
  }

  lemma NoDotSplit(s: string)
    requires '.' !in s
    ensures Split(s) == [s]
  {
    forall j: nat ensures !At(s, ".", j) {
      OneDot(s, j);
    }
  }

  lemma {:induction false} SplitJoin(segments: seq<string>)
    requires segments != [] && forall s <- segments :: '.' !in s
    ensures Split(Join(segments, ".")) == segments
  {
    hide Split;
    NoDotSplit(segments[0]);
    if |segments| > 1 {
      assert forall s <- segments[1..] :: s in segments;
      SplitJoin(segments[1..]);
      SplitConcat(segments[0], Join(segments[1..], "."));
    }
  }

  /** What may stand around the segments: blanks on both sides, and dollar signs in front. */
  predicate Surrounded(path: string, lead: string, dollars: string, core: string, trail: string) {
    && path == lead + (dollars + core) + trail
    && Blank(lead) && Blank(trail) && Run(dollars, '$')
    && (dollars + core == "" || Trimmed(dollars + core))
    && (core == "" || core[0] != '$')
  }

  /** A path leads to `w` if and only if the steps that its segments write do. */
  lemma PathExact(v: Json, path: string, segments: seq<string>, steps: seq<Step>, w: Json, lead: string,
                  dollars: string, trail: string)
    requires WritesAll(segments, steps) && forall s <- segments :: '.' !in s
    requires Surrounded(path, lead, dollars, Join(segments, "."), trail)
    ensures JsonPath(v, path) == Some(w) <==> Reaches(v, steps, w)
  {
    var core := Join(segments, ".");
    PathWalks(v, path, lead, dollars, core, trail);
    WalkReaches(v, segments, steps, w);
    hide WritesAll, JsonPath, Walk;
    if segments == [] {
      NoSegments();
      NothingToWalk(v);
      assert Walk(v, []) == Some(v) by { NothingLeft(v); }
    } else {
      SplitJoin(segments);
    }
  }

  lemma NothingLeft(v: Json)
    ensures Walk(v, []) == Some(v)
  {}

  lemma PathWalks(v: Json, path: string, lead: string, dollars: string, core: string, trail: string)
    requires Surrounded(path, lead, dollars, core, trail)
    ensures JsonPath(v, path) == Walk(v, Split(core))
  {
    TrimsTo(lead, dollars + core, trail);
    SkipsRun(dollars, core, '$');
    LeadingDots(v, core);
    NothingToWalk(v);
    hide Trim, Split, Walk;
  }

  /** Every string is a path: there are steps that it follows in every value. */
  lemma EveryPath(path: string) returns (steps: seq<Step>)
    ensures forall v, w :: JsonPath(v, path) == Some(w) <==> Reaches(v, steps, w)
  {
    var lead := TrimStartParts(path);
    var trail := TrimEndParts(TrimStart(path));
    var t := Trim(path);
    var dollars := RunParts(t, '$');
    var core := StripStart(t, '$');
    assert path == lead + (dollars + core) + trail;
    assert t != "" ==> t[0] == TrimStart(path)[0];
    assert Surrounded(path, lead, dollars, core, trail);
    JoinSplit(core);
    var segments := Split(core);
    steps := StepsOf(segments);
    hide JsonPath, Reaches, WritesAll, Split, Trim, StripStart, Surrounded, Join;
    forall v, w ensures JsonPath(v, path) == Some(w) <==> Reaches(v, steps, w) {
      PathExact(v, path, segments, steps, w, lead, dollars, trail);
    }
  }

  lemma {:induction false} StepsOf(segments: seq<string>) returns (steps: seq<Step>)
    requires forall s <- segments :: '.' !in s
    ensures WritesAll(segments, steps)
  {
    hide Writes;
    if segments == [] {
      steps := [];
    } else {
      assert segments[0] in segments && forall s <- segments[1..] :: s in segments;
      var rest := StepsOf(segments[1..]);
      if segments[0] == "" {
        steps := rest;
      } else {
        var step := OneStep(segments[0]);
        steps := [step] + rest;
        assert steps[1..] == rest;
      }
    }
  }

  lemma {:induction false} JoinSplit(s: string)
    ensures Join(Split(s), ".") == s
    ensures forall part <- Split(s) :: '.' !in part
    decreases |s|
  {
    forall i | 0 <= i < |s| ensures At(s, ".", i) <==> s[i] == '.' {}
    match Find(s, ".")
    case None =>
    case Some(i) =>
      JoinSplit(s[i + 1..]);
      var head, rest := s[..i], Split(s[i + 1..]);
      assert s == head + "." + s[i + 1..];
      assert ([head] + rest)[1..] == rest;
  }

  lemma NoSegments()
    ensures Join([], ".") == ""
  {}

  lemma NothingToWalk(v: Json)
    ensures Walk(v, Split("")) == Some(v)
  {
    NoDotSplit("");
  }

  /** The path printed from the steps, with the keys separated by dots and the indices in brackets. */
  lemma PrintedPath(v: Json, steps: seq<Step>, w: Json)
    requires forall step <- steps :: if step.Index? then step.n < USIZE_LIMIT else Writes(step.name, step)
    requires PlainPath(Join(PrintSteps(steps), "."))
    ensures JsonPath(v, Join(PrintSteps(steps), ".")) == Some(w) <==> Reaches(v, steps, w)
  {
    var segments := PrintSteps(steps);
    PrintedSteps(steps);
    var core := Join(segments, ".");
    assert "" + ("" + core) + "" == core;
    hide Writes, PrintSteps, Join, WritesAll;
    PathExact(v, core, segments, steps, w, "", "", "");
  }

  lemma {:induction false} PrintedSteps(steps: seq<Step>)
    requires forall step <- steps :: if step.Index? then step.n < USIZE_LIMIT else Writes(step.name, step)
    ensures WritesAll(PrintSteps(steps), steps)
    ensures forall s <- PrintSteps(steps) :: '.' !in s
  {
    hide Writes;
    if steps != [] {
      assert steps[0] in steps && forall step <- steps[1..] :: step in steps;
      PrintedStep(steps[0]);
      GetExact(Null, PrintStep(steps[0]), steps[0]);
      PrintedSteps(steps[1..]);
      assert PrintSteps(steps) == [PrintStep(steps[0])] + PrintSteps(steps[1..]);
      assert PrintSteps(steps)[1..] == PrintSteps(steps[1..]);
    }
  }

  // ----- Rows -----

  /** The rows of an answer: the items of the array that the selector leads to, the one value that it
      leads to, or none. */
  lemma BaseRowsExact(json: Json, selector: string, steps: seq<Step>)
    requires forall w :: JsonPath(json, selector) == Some(w) <==> Reaches(json, steps, w)
    ensures (forall w :: !Reaches(json, steps, w)) ==> BaseRows(json, selector) == []
    ensures forall items :: Reaches(json, steps, Array(items)) ==> BaseRows(json, selector) == items
    ensures forall w :: Reaches(json, steps, w) && !w.Array? ==> BaseRows(json, selector) == [w]
  {
    hide JsonPath, Reaches;
  }

  /** The children of a row are the items of the array at the attribute, if there is one. */
  lemma ChildrenExact(parent: Json, attribute: string, steps: seq<Step>)
    requires forall w :: JsonPath(parent, attribute) == Some(w) <==> Reaches(parent, steps, w)
    ensures (forall items :: !Reaches(parent, steps, Array(items))) ==> Children(parent, attribute) == []
    ensures forall items :: Reaches(parent, steps, Array(items)) ==> Children(parent, attribute) == items
  {
    hide JsonPath, Reaches;
  }

  /** A child that is an object keeps its fields and gains its parent; any other child is left alone. */
  lemma MergeExact(child: Json, parent: Json, name: string)
    ensures Merge(child, parent).Object? <==> child.Object?
    ensures !child.Object? ==> Merge(child, parent) == child
    ensures child.Object? ==>
      forall w :: Reaches(Merge(child, parent), [Key(name)], w) <==>
        if name == "__parent" then w == parent else Reaches(child, [Key(name)], w)
  {
    OneKey(Merge(child, parent), name);
    OneKey(child, name);
    hide Reaches;
  }

  lemma OneKey(v: Json, name: string)
    ensures forall w :: Reaches(v, [Key(name)], w) <==> v.Object? && name in v.fields && v.fields[name] == w
  {
    var steps := [Key(name)];
    assert steps[1..] == [] && steps[0] == Key(name);
  }

  /** The field of a row that a selector names: after two dots it is one of the row's parent, if the row is an
      object that has one, and otherwise one of the row itself. */
  lemma FieldExact(row: Json, selector: string, steps: seq<Step>, w: Json)
    requires var path := if ".." <= selector then selector[2..] else selector;
      forall v, x :: JsonPath(v, path) == Some(x) <==> Reaches(v, steps, x)
    ensures FieldValue(row, selector) == Some(w) <==>
      if ".." <= selector && exists parent :: Reaches(row, [Key("__parent")], parent)
      then exists parent :: Reaches(row, [Key("__parent")], parent) && Reaches(parent, steps, w)
      else Reaches(row, steps, w)
  {
    OneKey(row, "__parent");
    hide JsonPath, Reaches;
    var path := if ".." <= selector then selector[2..] else selector;
    var from := if ".." <= selector && row.Object? && PARENT in row.fields then row.fields[PARENT] else row;
    assert FieldValue(row, selector) == JsonPath(from, path);
    assert JsonPath(from, path) == Some(w) <==> Reaches(from, steps, w);
    if row.Object? && PARENT in row.fields {
      assert Reaches(row, [Key("__parent")], row.fields[PARENT]);
    }
  }
}
