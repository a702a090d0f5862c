/** The string operations of the Rust and Python standard libraries that the modelled code
    is written with: searching, trimming, replacing and changing case. */
module Strings {
  import opened Wrappers

  // ----- Searching -----

  /** `pat` stands in `s` at index `i`. */
  predicate At(s: string, pat: string, i: nat) {
    i + |pat| <= |s| && s[i..i + |pat|] == pat
  }

  lemma AtPair(s: string, c: char, d: char, i: nat)
    ensures At(s, [c, d], i) <==> i + 2 <= |s| && s[i] == c && s[i + 1] == d
  {}

  lemma AtStart(s: string, pat: string, i: nat)
    requires |pat| >= 2
    ensures At(s, pat, i) ==> s[i] == pat[0] && s[i + 1] == pat[1]
  {}

  lemma AtDrop(s: string, pat: string, n: nat, i: nat)
    requires n <= |s|
    ensures At(s[n..], pat, i) <==> At(s, pat, n + i)
  {
    if n + i + |pat| <= |s| {
      assert s[n..][i..i + |pat|] == s[n + i..n + i + |pat|];
    }
  }

  /** The first index at which `pat` occurs in `s`. */
  function Find(s: string, pat: string): (r: Option<nat>)
    ensures r.Some? ==> At(s, pat, r.value) && forall j :: 0 <= j < r.value ==> !At(s, pat, j)
    ensures r.None? ==> forall j: nat :: !At(s, pat, j)
  {
    if At(s, pat, 0) then Some(0)
    else if s == "" then None
    else
      var r := Find(s[1..], pat);
      FindShift(s, pat);
      if r.None? then None else Some(r.value + 1)
  }

  lemma FindShift(s: string, pat: string)
    requires s != ""
    ensures forall j: nat :: At(s[1..], pat, j) <==> At(s, pat, j + 1)
    ensures forall j: nat :: j > 0 && At(s, pat, j) ==> At(s[1..], pat, j - 1)
  {
    forall j: nat ensures At(s[1..], pat, j) <==> At(s, pat, j + 1) {
      AtDrop(s, pat, 1, j);
    }
    forall j: nat | j > 0 && At(s, pat, j) ensures At(s[1..], pat, j - 1) {
      AtDrop(s, pat, 1, j - 1);
    }
  }

  lemma Around(s: string, pat: string, i: nat)
    requires At(s, pat, i)
    ensures s == s[..i] + pat + s[i + |pat|..]
  {}

  lemma FindsAt(s: string, pat: string, i: nat)
    requires At(s, pat, i) && forall j :: 0 <= j < i ==> !At(s, pat, j)
    ensures Find(s, pat) == Some(i)
  {}

  predicate Occurs(pat: string, s: string) {
    exists i :: 0 <= i <= |s| && At(s, pat, i)
  }

  /** How often the character `c` occurs in `s`. */
  function Count(s: string, c: char): nat {
    if s == "" then 0 else (if s[0] == c then 1 else 0) + Count(s[1..], c)
  }

  lemma {:induction false} CountConcat(a: string, b: string, c: char)
    ensures Count(a + b, c) == Count(a, c) + Count(b, c)
  {
    if a == "" {
      assert a + b == b;
    } else {
      assert (a + b)[1..] == a[1..] + b;
      CountConcat(a[1..], b, c);
    }
  }

  lemma {:induction false} CountAbsent(s: string, c: char)
    ensures Count(s, c) == 0 <==> c !in s
  {
    if s != "" {
      CountAbsent(s[1..], c);
    }
  }

  // ----- Replacing -----

  /** Rust's `str::replace` and Python's `re.sub` of a literal: every occurrence of `pat`,
      found from the left and not overlapping, becomes `rep`. */
  function Replace(s: string, pat: string, rep: string): string
    requires pat != ""
    decreases |s|
  {
    if s == "" then ""
    else if pat <= s then rep + Replace(s[|pat|..], pat, rep)
    else [s[0]] + Replace(s[1..], pat, rep)
  }

  lemma {:induction false} ReplaceAbsent(s: string, pat: string, rep: string)
    requires pat != "" && !Occurs(pat, s)
    ensures Replace(s, pat, rep) == s
  {
    if s != "" {
      FindShift(s, pat);
      assert !At(s, pat, 0);
      ReplaceAbsent(s[1..], pat, rep);
    }
  }

  /** A stretch of text at none of whose characters the pattern can start is copied unchanged. */
  lemma {:induction false} ReplaceSkips(a: string, b: string, pat: string, rep: string)
    requires pat != ""
    requires forall i :: 0 <= i < |a| ==> !At(a + b, pat, i)
    ensures Replace(a + b, pat, rep) == a + Replace(b, pat, rep)
  {
    if a == "" {
      assert a + b == b;
    } else {
      assert (a + b)[1..] == a[1..] + b;
      FindShift(a + b, pat);
      forall i | 0 <= i < |a| - 1 ensures !At(a[1..] + b, pat, i) {
        assert !At(a + b, pat, i + 1);
      }
      assert !At(a + b, pat, 0);
      ReplaceSkips(a[1..], b, pat, rep);
    }
  }

  lemma ReplaceSkipsText(a: string, b: string, pat: string, rep: string)
    requires pat != "" && pat[0] !in a
    ensures Replace(a + b, pat, rep) == a + Replace(b, pat, rep)
  {
    forall i | 0 <= i < |a| ensures !At(a + b, pat, i) {
      assert (a + b)[i] == a[i];
    }
    ReplaceSkips(a, b, pat, rep);
  }

  lemma ReplaceHit(rest: string, pat: string, rep: string)
    requires pat != ""
    ensures Replace(pat + rest, pat, rep) == rep + Replace(rest, pat, rep)
  {
    assert (pat + rest)[|pat|..] == rest;
  }

  /** Replacing cannot make a string longer when the replacement is not longer than the pattern,
      and makes it strictly shorter when it is shorter and something is replaced. */
  lemma {:induction false} ReplaceShrinks(s: string, pat: string, rep: string)
    requires |rep| < |pat|
    ensures |Replace(s, pat, rep)| <= |s|
    ensures Occurs(pat, s) ==> |Replace(s, pat, rep)| < |s|
  {
    if s == "" {
    } else if pat <= s {
      ReplaceShrinks(s[|pat|..], pat, rep);
    } else {
      ReplaceShrinks(s[1..], pat, rep);
      if Occurs(pat, s) {
        var i :| 0 <= i <= |s| && At(s, pat, i);
        FindShift(s, pat);
        assert i > 0;
        assert At(s[1..], pat, i - 1);
      }
    }
  }

  /** When neither the pattern's head nor the replacement brings in `c`, replacing adds none. */
  lemma {:induction false} ReplaceCount(s: string, pat: string, rep: string, c: char)
    requires pat != "" && c !in rep
    ensures Count(Replace(s, pat, rep), c) <= Count(s, c)
  {
    CountAbsent(rep, c);
    if s == "" {
    } else if pat <= s {
      assert s == pat + s[|pat|..];
      CountConcat(pat, s[|pat|..], c);
      CountConcat(rep, Replace(s[|pat|..], pat, rep), c);
      ReplaceCount(s[|pat|..], pat, rep, c);
    } else {
      CountConcat([s[0]], Replace(s[1..], pat, rep), c);
      ReplaceCount(s[1..], pat, rep, c);
    }
  }

  // ----- Trimming -----

  /** Unicode's White_Space property, which Rust's `trim` uses. */
  predicate IsSpace(c: char) {
    var n := c as int;
    || 0x09 <= n <= 0x0D || n == 0x20 || n == 0x85 || n == 0xA0 || n == 0x1680
    || 0x2000 <= n <= 0x200A || n == 0x2028 || n == 0x2029 || n == 0x202F || n == 0x205F || n == 0x3000
  }

  function TrimStart(s: string): (r: string)
    ensures |r| <= |s|
  {
    if s != "" && IsSpace(s[0]) then TrimStart(s[1..]) else s
  }

  function TrimEnd(s: string): (r: string)
    ensures |r| <= |s|
  {
    if s != "" && IsSpace(s[|s| - 1]) then TrimEnd(s[..|s| - 1]) else s
  }

  function Trim(s: string): (r: string)
    ensures |r| <= |s|
  {
    TrimEnd(TrimStart(s))
  }

  /** `trim_start_matches(c)`. */
  function StripStart(s: string, c: char): (r: string)
    ensures |r| <= |s|
  {
    if s != "" && s[0] == c then StripStart(s[1..], c) else s
  }

  /** `trim_end_matches(c)`. */
  function StripEnd(s: string, c: char): (r: string)
    ensures |r| <= |s| && r <= s
  {
    if s != "" && s[|s| - 1] == c then StripEnd(s[..|s| - 1], c) else s
  }

  /** A string that `trim` leaves alone and that is not empty. */
  predicate Trimmed(s: string) {
    s != "" && !IsSpace(s[0]) && !IsSpace(s[|s| - 1])
  }

  lemma TrimTrimmed(s: string)
    requires Trimmed(s)
    ensures Trim(s) == s
  {}

  predicate Blank(s: string) {
    forall c <- s :: IsSpace(c)
  }

  lemma {:induction false} SkipsBlank(lead: string, s: string)
    requires Blank(lead)
    ensures TrimStart(lead + s) == TrimStart(s)
  {
    if lead == "" {
      assert lead + s == s;
    } else {
      assert lead[0] in lead && forall c <- lead[1..] :: c in lead;
      assert (lead + s)[1..] == lead[1..] + s;
      SkipsBlank(lead[1..], s);
    }
  }

  lemma {:induction false} DropsBlank(s: string, trail: string)
    requires Blank(trail)
    ensures TrimEnd(s + trail) == TrimEnd(s)
  {
    if trail == "" {
      assert s + trail == s;
    } else {
      var last := |trail| - 1;
      assert trail[last] in trail && forall c <- trail[..last] :: c in trail;
      assert (s + trail)[..|s + trail| - 1] == s + trail[..last];
      DropsBlank(s, trail[..last]);
    }
  }

  lemma TrimsTo(lead: string, s: string, trail: string)
    requires Blank(lead) && Blank(trail) && (s == "" || Trimmed(s))
    ensures Trim(lead + s + trail) == s
  {
    assert lead + s + trail == lead + (s + trail);
    SkipsBlank(lead, s + trail);
    if s == "" {
      assert s + trail == trail + "";
      SkipsBlank(trail, "");
    } else {
      DropsBlank(s, trail);
    }
  }

  /** Nothing but the character `c`. */
  predicate Run(s: string, c: char) {
    forall d <- s :: d == c
  }

  lemma {:induction false} SkipsRun(run: string, s: string, c: char)
    requires Run(run, c) && (s == "" || s[0] != c)
    ensures StripStart(run + s, c) == s
  {
    if run == "" {
      assert run + s == s;
    } else {
      assert run[0] in run && forall d <- run[1..] :: d in run;
      assert (run + s)[1..] == run[1..] + s;
      SkipsRun(run[1..], s, c);
    }
  }

  lemma {:induction false} TrimStartParts(s: string) returns (lead: string)
    ensures s == lead + TrimStart(s) && Blank(lead)
    ensures TrimStart(s) == "" || !IsSpace(TrimStart(s)[0])
  {
    if s != "" && IsSpace(s[0]) {
      var rest := TrimStartParts(s[1..]);
      lead := [s[0]] + rest;
      assert s == [s[0]] + s[1..];
    } else {
      lead := "";
    }
  }

  lemma {:induction false} TrimEndParts(s: string) returns (trail: string)
    ensures s == TrimEnd(s) + trail && Blank(trail)
    ensures TrimEnd(s) == "" || !IsSpace(TrimEnd(s)[|TrimEnd(s)| - 1])
  {
    if s != "" && IsSpace(s[|s| - 1]) {
      var rest := TrimEndParts(s[..|s| - 1]);
      trail := rest + [s[|s| - 1]];
      assert s == s[..|s| - 1] + [s[|s| - 1]];
    } else {
      trail := "";
    }
  }

  lemma {:induction false} RunParts(s: string, c: char) returns (run: string)
    ensures s == run + StripStart(s, c) && Run(run, c)
    ensures StripStart(s, c) == "" || StripStart(s, c)[0] != c
  {
    if s != "" && s[0] == c {
      var rest := RunParts(s[1..], c);
      run := [s[0]] + rest;
      assert s == [s[0]] + s[1..];
    } else {
      run := "";
    }
  }

  // ----- Case -----

  /** ASCII lower case of one character. */
  function LowerChar(c: char): char {
    if 'A' <= c <= 'Z' then (c as int + 32) as char else c
  }

  function Lower(s: string): (r: string)
    ensures |r| == |s|
  {
    if s == "" then "" else [LowerChar(s[0])] + Lower(s[1..])
  }

  function UpperChar(c: char): char {
    if 'a' <= c <= 'z' then (c as int - 32) as char else c
  }

  function Upper(s: string): (r: string)
    ensures |r| == |s|
  {
    if s == "" then "" else [UpperChar(s[0])] + Upper(s[1..])
  }

  predicate Letter(c: char) {
    'a' <= c <= 'z' || 'A' <= c <= 'Z'
  }

  /** Equal, or the two cases of one ASCII letter. */
  predicate SameLetter(c: char, d: char) {
    c == d || (Letter(c) && Letter(d) && (c as int - d as int == 32 || d as int - c as int == 32))
  }

  predicate SameLetters(a: string, b: string) {
    |a| == |b| && forall i :: 0 <= i < |a| ==> SameLetter(a[i], b[i])
  }

  lemma {:induction false} LowerAgrees(a: string, b: string)
    ensures Lower(a) == Lower(b) <==> SameLetters(a, b)
  {
    if |a| == |b| && a != "" {
      LowerAgrees(a[1..], b[1..]);
      LowerTail(a);
      LowerTail(b);
      SameLettersTail(a, b);
    }
  }

  lemma LowerTail(a: string)
    requires a != ""
    ensures Lower(a)[0] == LowerChar(a[0]) && Lower(a)[1..] == Lower(a[1..])
    ensures Lower(a) == [LowerChar(a[0])] + Lower(a[1..])
  {}

  lemma {:induction false} UpperAgrees(a: string, b: string)
    ensures Upper(a) == Upper(b) <==> SameLetters(a, b)
  {
    if |a| == |b| && a != "" {
      UpperAgrees(a[1..], b[1..]);
      UpperTail(a);
      UpperTail(b);
      SameLettersTail(a, b);
    }
  }

  lemma UpperTail(a: string)
    requires a != ""
    ensures Upper(a)[0] == UpperChar(a[0]) && Upper(a)[1..] == Upper(a[1..])
    ensures Upper(a) == [UpperChar(a[0])] + Upper(a[1..])
  {}

  lemma SameLettersTail(a: string, b: string)
    requires a != "" && b != ""
    ensures SameLetters(a, b) <==> SameLetter(a[0], b[0]) && SameLetters(a[1..], b[1..])
  {
    if SameLetter(a[0], b[0]) && SameLetters(a[1..], b[1..]) {
      forall i | 0 <= i < |a| ensures SameLetter(a[i], b[i]) {
        if i > 0 {
          assert a[i] == a[1..][i - 1] && b[i] == b[1..][i - 1];
        }
      }
    } else if SameLetters(a, b) {
      forall i | 0 <= i < |a| - 1 ensures SameLetter(a[1..][i], b[1..][i]) {
        assert a[i + 1] == a[1..][i] && b[i + 1] == b[1..][i];
      }
    }
  }

  lemma {:induction false} LowerAt(s: string)
    ensures forall i :: 0 <= i < |s| ==> Lower(s)[i] == LowerChar(s[i])
  {
    if s != "" {
      LowerAt(s[1..]);
      LowerTail(s);
    }
  }

  lemma {:induction false} UpperAt(s: string)
    ensures forall i :: 0 <= i < |s| ==> Upper(s)[i] == UpperChar(s[i])
  {
    if s != "" {
      UpperAt(s[1..]);
      UpperTail(s);
    }
  }

  lemma LowerFixed(word: string)
    requires forall c <- word :: LowerChar(c) == c
    ensures Lower(word) == word
  {
    LowerAt(word);
    forall i | 0 <= i < |word| ensures Lower(word)[i] == word[i] {
      assert word[i] in word;
    }
  }

  /** A literal of the program in lower case is met by every spelling of it, and by nothing else. */
  lemma LowerIs(a: string, word: string)
    requires forall c <- word :: LowerChar(c) == c
    ensures Lower(a) == word <==> SameLetters(a, word)
  {
    LowerFixed(word);
    LowerAgrees(a, word);
  }

  lemma UpperIs(a: string, word: string, capitals: string)
    requires |word| == |capitals| && forall i :: 0 <= i < |word| ==> UpperChar(word[i]) == capitals[i]
    ensures Upper(a) == capitals <==> SameLetters(a, word)
  {
    UpperAt(word);
    assert Upper(word) == capitals;
    UpperAgrees(a, word);
  }

  // ----- Decimal numbers -----

  predicate IsDigit(c: char) {
    '0' <= c <= '9'
  }

  function DigitValue(c: char): nat
    requires IsDigit(c)
  {
    c as int - '0' as int
  }

  function Decimal(digits: string): nat
    requires forall c <- digits :: IsDigit(c)
  {
    if digits == "" then 0
    else
      var last := |digits| - 1;
      assert digits[last] in digits && forall c <- digits[..last] :: c in digits;
      Decimal(digits[..last]) * 10 + DigitValue(digits[last])
  }

  // ----- Joining -----

  /** The parts with `sep` between them. */
  function Join(parts: seq<string>, sep: string): string {
    if parts == [] then ""
    else if |parts| == 1 then parts[0]
    else parts[0] + sep + Join(parts[1..], sep)
  }
}
