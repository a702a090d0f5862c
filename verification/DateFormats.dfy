/** The date-format rewriter (`convert_date_format` in filters.rs): fifteen replacements in a row. */
module DateFormats {
  import opened Strings

  /** The twelve multi-letter tokens, in the order in which they are replaced. */
  function Token(k: nat): string
    requires k < 12
  {
    if k == 0 then "yyyy" else if k == 1 then "yy" else if k == 2 then "MMMM" else if k == 3 then "MMM"
    else if k == 4 then "MM" else if k == 5 then "dd" else if k == 6 then "HH" else if k == 7 then "hh"
    else if k == 8 then "htt" else if k == 9 then "mm" else if k == 10 then "ss" else "tt"
  }

  function Chrono(k: nat): string
    requires k < 12
  {
    if k == 0 then "%Y" else if k == 1 then "%y" else if k == 2 then "%B" else if k == 3 then "%b"
    else if k == 4 then "%m" else if k == 5 then "%d" else if k == 6 then "%H" else if k == 7 then "%I"
    else if k == 8 then "%I:%M %p" else if k == 9 then "%M" else if k == 10 then "%S" else "%p"
  }

  /** The replacements from number `k` to number 11. */
  function TokenStages(fmt: string, k: nat): string
    requires k <= 12
    decreases 12 - k
  {
    if k == 12 then fmt
    else
      TokenLong(k);
      TokenStages(Replace(fmt, Token(k), Chrono(k)), k + 1)
  }

  function ConvertDateFormat(fmt: string): string {
    Replace(Replace(Replace(TokenStages(fmt, 0), " d ", " %-d "), " M ", " %-m "), " h ", " %-I ")
  }

  // ----- Formats as tokens and separators -----

  /** A separator, then tokens, each followed by a separator. */
  datatype Format = Format(lead: string, parts: seq<(nat, string)>)

  predicate IsLetter(c: char) {
    'a' <= c <= 'z' || 'A' <= c <= 'Z'
  }

  /** Characters that are neither letters nor `%`. */
  predicate Separator(s: string) {
    forall c <- s :: !IsLetter(c) && c != '%'
  }

  predicate ValidParts(parts: seq<(nat, string)>) {
    forall p <- parts :: p.0 < 12 && Separator(p.1)
  }

  /** Whether token number `b` may directly follow token number `a`: not a token of the same letter
      that would be read into a longer or an earlier one (`yy` before a year; `MMM` or `MM` before a
      month), and not the minutes `mm` after `MM`, whose replacement ends in an `m`. */
  predicate Compatible(a: nat, b: nat) {
    !(a == 1 && b <= 1) && !((a == 3 || a == 4) && 2 <= b <= 4) && !(a == 4 && b == 9)
  }

  predicate Clean(parts: seq<(nat, string)>) {
    forall i :: 0 <= i < |parts| - 1 && parts[i].1 == "" ==> Compatible(parts[i].0, parts[i + 1].0)
  }

  predicate ValidFormat(f: Format) {
    Separator(f.lead) && ValidParts(f.parts)
  }

  /** A token after the first `stage` replacements, when each has done its own token only. */
  function Word(k: nat, stage: nat): string
    requires k < 12
  {
    if k < stage then Chrono(k) else Token(k)
  }

  function PartsAt(parts: seq<(nat, string)>, stage: nat): string
    requires ValidParts(parts)
  {
    if parts == [] then ""
    else
      PartsTail(parts);
      Word(parts[0].0, stage) + (parts[0].1 + PartsAt(parts[1..], stage))
  }

  lemma PartsTail(parts: seq<(nat, string)>)
    requires ValidParts(parts) && parts != []
    ensures parts[0] in parts && ValidParts(parts[1..])
    ensures Clean(parts) ==> Clean(parts[1..])
  {
    assert forall p <- parts[1..] :: p in parts;
    if Clean(parts) {
      forall i | 0 <= i < |parts[1..]| - 1 && parts[1..][i].1 == ""
        ensures Compatible(parts[1..][i].0, parts[1..][i + 1].0)
      {
        assert parts[i + 1].1 == "";
      }
    }
  }

  function TextAt(f: Format, stage: nat): string
    requires ValidFormat(f)
  {
    f.lead + PartsAt(f.parts, stage)
  }

  /** The format as it is written. */
  function PrintFormat(f: Format): string
    requires ValidFormat(f)
  {
    TextAt(f, 0)
  }

  /** Every token for itself, in one pass. */
  function OnePass(f: Format): string
    requires ValidFormat(f)
  {
    TextAt(f, 12)
  }

  // ----- Tokens -----

  lemma TokenLong(k: nat)
    requires k < 12
    ensures var t := Token(k); 2 <= |t| <= 4 && (forall c <- t :: IsLetter(c)) && t != ""
  {}

  lemma ChronoSpaced(k: nat)
    requires k < 12
    ensures var r := Chrono(k);
      && r != "" && r[0] == '%'
      && (forall i :: 0 <= i < |r| && IsLetter(r[i]) ==> i > 0 && r[i - 1] == '%')
  {}

  /** Among the unreplaced tokens, an earlier one does not occur in a later one. */
  lemma TokenNotInLater(k: nat, stage: nat, i: nat)
    requires stage < k < 12
    ensures !At(Token(k), Token(stage), i)
  {
    AtStart(Token(k), Token(stage), i);
  }

  /** The output of an earlier stage contains no two letters in a row. */
  lemma TokenNotInChrono(k: nat, stage: nat, i: nat)
    requires k < 12 && stage < 12
    ensures !At(Chrono(k), Token(stage), i)
  {
    ChronoSpaced(k);
    TokenLong(stage);
    var w, t := Chrono(k), Token(stage);
    assert t[0] in t && t[1] in t;
    hide Chrono, Token;
    AtStart(w, t, i);
  }

  /** A token does not reach across the end of a word into a separator. */
  lemma NotAcross(w: string, rest: string, t: string, i: nat)
    requires i < |w| && (forall c <- t :: IsLetter(c)) && (rest == "" || !IsLetter(rest[0]))
    requires !At(w, t, i)
    ensures !At(w + rest, t, i)
  {
    var s := w + rest;
    if i + |t| <= |w| {
      assert s[i..i + |t|] == w[i..i + |t|];
    } else if i + |t| <= |s| {
      assert s[i..i + |t|][|w| - i] == rest[0];
      assert t[|w| - i] in t;
    }
  }

  /** `rest` may stand right after token number `k` at this stage. */
  predicate Joins(k: nat, rest: string, stage: nat) {
    || rest == ""
    || !IsLetter(rest[0])
    || exists a :: stage <= a < 12 && Compatible(k, a) && Token(a) <= rest
  }

  /** The first letters of tokens, and the last characters of what they are replaced by. */
  lemma Ends(k: nat)
    requires k < 12
    ensures var t, r := Token(k), Chrono(k);
      && t[0] == (if k <= 1 then 'y' else if k <= 4 then 'M' else if k == 5 then 'd' else if k == 6 then 'H'
                  else if k <= 8 then 'h' else if k == 9 then 'm' else if k == 10 then 's' else 't')
      && (k != 8 ==> forall c <- t :: c == t[0])
      && r[|r| - 1] == (if k == 0 then 'Y' else if k == 1 then 'y' else if k == 2 then 'B' else if k == 3 then 'b'
                        else if k == 4 then 'm' else if k == 5 then 'd' else if k == 6 then 'H' else if k == 7 then 'I'
                        else if k == 9 then 'M' else if k == 10 then 'S' else 'p')
  {}

  /** No token is read across the end of a replaced token into a compatible one. */
  lemma NotFromChrono(k: nat, stage: nat, a: nat, rest: string, i: nat)
    requires k < stage <= a < 12 && Compatible(k, a) && Token(a) <= rest && i < |Chrono(k)|
    ensures !At(Chrono(k) + rest, Token(stage), i)
  {
    var w, t := Chrono(k), Token(stage);
    var s := w + rest;
    Ends(k);
    Ends(stage);
    Ends(a);
    TokenLong(stage);
    TokenLong(a);
    ChronoSpaced(k);
    TokenNotInChrono(k, stage, i);
    hide Chrono, Token;
    AtStart(s, t, i);
    assert t[0] in t && t[1] in t;
    assert s[i + 1] == if i + 1 < |w| then w[i + 1] else rest[0];
  }

  /** Nor across the end of one that is still to be replaced. */
  lemma NotFromToken(k: nat, stage: nat, a: nat, rest: string, i: nat)
    requires stage < k < 12 && stage <= a < 12 && Compatible(k, a) && Token(a) <= rest && i < |Token(k)|
    ensures !At(Token(k) + rest, Token(stage), i)
  {
    var w, t := Token(k), Token(stage);
    var s := w + rest;
    Ends(k);
    Ends(stage);
    Ends(a);
    TokenLong(stage);
    TokenLong(a);
    TokenNotInLater(k, stage, i);
    Htt();
    AtStart(s, t, i);
    AtOver(w, rest, t, i);
    assert w[i] in w && s[i] == w[i];
    if |w| - i < |t| {
      assert t[|w| - i] in t && rest[0] == s[|w|];
    }
  }

  /** A match within the first text, or one that reads the first character of the second. */
  lemma AtOver(w: string, rest: string, t: string, i: nat)
    requires i < |w| && rest != ""
    ensures At(w + rest, t, i) ==>
      if i + |t| <= |w| then At(w, t, i) else t[|w| - i] == rest[0]
  {
    var s := w + rest;
    if At(s, t, i) {
      if i + |t| <= |w| {
        assert s[i..i + |t|] == w[i..i + |t|];
      } else {
        assert s[i..i + |t|][|w| - i] == s[|w|];
      }
    }
  }

  lemma Htt()
    ensures Token(8) == "htt" && Token(7) == "hh"
  {}

  lemma ReplaceWord(k: nat, stage: nat, rest: string)
    requires k < 12 && stage < 12 && Joins(k, rest, stage)
    ensures Token(stage) != ""
    ensures Replace(Word(k, stage) + rest, Token(stage), Chrono(stage))
         == Word(k, stage + 1) + Replace(rest, Token(stage), Chrono(stage))
  {
    TokenLong(stage);
    var w, t := Word(k, stage), Token(stage);
    if k == stage {
      ReplaceHit(rest, t, Chrono(stage));
    } else {
      forall i | 0 <= i < |w| ensures !At(w + rest, t, i) {
        if rest == "" || !IsLetter(rest[0]) {
          if k < stage {
            TokenNotInChrono(k, stage, i);
          } else {
            TokenNotInLater(k, stage, i);
          }
          NotAcross(w, rest, t, i);
        } else {
          var a :| stage <= a < 12 && Compatible(k, a) && Token(a) <= rest;
          if k < stage {
            NotFromChrono(k, stage, a, rest, i);
          } else {
            NotFromToken(k, stage, a, rest, i);
          }
        }
      }
      hide Token, Chrono, Word, Joins;
      ReplaceSkips(w, rest, t, Chrono(stage));
    }
  }

  lemma ReplaceSeparator(sep: string, rest: string, stage: nat)
    requires stage < 12 && Separator(sep)
    ensures Token(stage) != ""
    ensures Replace(sep + rest, Token(stage), Chrono(stage)) == sep + Replace(rest, Token(stage), Chrono(stage))
  {
    TokenLong(stage);
    ReplaceSkipsText(sep, rest, Token(stage), Chrono(stage));
  }

  /** What may follow the parts at this stage. */
  predicate Follows(parts: seq<(nat, string)>, rest: string, stage: nat) {
    parts != [] && parts[|parts| - 1].1 == "" ==> Joins(parts[|parts| - 1].0, rest, stage)
  }

  /** One stage replaces its own token in the parts and nothing else, whatever follows them. */
  lemma {:induction false} PartsStage(parts: seq<(nat, string)>, rest: string, stage: nat)
    requires ValidParts(parts) && Clean(parts) && stage < 12 && Follows(parts, rest, stage)
    ensures Token(stage) != ""
    ensures Replace(PartsAt(parts, stage) + rest, Token(stage), Chrono(stage))
         == PartsAt(parts, stage + 1) + Replace(rest, Token(stage), Chrono(stage))
    decreases |parts|
  {
    TokenLong(stage);
    if parts == [] {
      assert "" + rest == rest;
      var r := Replace(rest, Token(stage), Chrono(stage));
      assert "" + r == r;
    } else {
      PartsTail(parts);
      var (k, sep) := parts[0];
      var more := parts[1..];
      PartsStage(more, rest, stage);
      PartJoins(parts, rest, stage);
      hide Token, Chrono, Word, Replace, Joins;
      var tail := PartsAt(more, stage) + rest;
      ReplaceSeparator(sep, tail, stage);
      ReplaceWord(k, stage, sep + tail);
      hide PartsAt;
      PartText(Word(k, stage), sep, PartsAt(more, stage), rest);
      PartText(Word(k, stage + 1), sep, PartsAt(more, stage + 1), Replace(rest, Token(stage), Chrono(stage)));
    }
  }

  lemma PartText(w: string, sep: string, more: string, rest: string)
    ensures w + (sep + more) + rest == w + (sep + (more + rest))
  {}

  lemma PartJoins(parts: seq<(nat, string)>, rest: string, stage: nat)
    requires parts != [] && ValidParts(parts) && Clean(parts) && stage < 12 && Follows(parts, rest, stage)
    ensures ValidParts(parts[1..]) && Joins(parts[0].0, parts[0].1 + (PartsAt(parts[1..], stage) + rest), stage)
  {
    PartsTail(parts);
    var (k, sep) := parts[0];
    var more := parts[1..];
    var tail := PartsAt(more, stage) + rest;
    if sep != "" {
      assert (sep + tail)[0] == sep[0] && sep[0] in sep;
    } else {
      assert sep + tail == tail;
      if more == [] {
        assert tail == rest;
      } else {
        PartsTail(more);
        assert Compatible(k, more[0].0) by { assert parts[1] == more[0]; }
        var w := Word(more[0].0, stage);
        assert w <= PartsAt(more, stage);
        ChronoSpaced(more[0].0);
        if more[0].0 < stage {
          assert tail[0] == '%';
        } else {
          assert Token(more[0].0) <= tail;
        }
      }
    }
  }

  lemma {:induction false} StagesConvert(f: Format, stage: nat)
    requires ValidFormat(f) && Clean(f.parts) && stage <= 12
    ensures TokenStages(TextAt(f, stage), stage) == OnePass(f)
    decreases 12 - stage
  {
    if stage < 12 {
      NothingFollows(f.parts, stage);
      ReplaceSeparator(f.lead, PartsAt(f.parts, stage), stage);
      StagesConvert(f, stage + 1);
    }
  }

  lemma NothingFollows(parts: seq<(nat, string)>, stage: nat)
    requires ValidParts(parts) && Clean(parts) && stage < 12
    ensures Token(stage) != ""
    ensures Replace(PartsAt(parts, stage), Token(stage), Chrono(stage)) == PartsAt(parts, stage + 1)
  {
    PartsStage(parts, "", stage);
    hide PartsAt, Token, Chrono;
    assert PartsAt(parts, stage) + "" == PartsAt(parts, stage);
    assert PartsAt(parts, stage + 1) + "" == PartsAt(parts, stage + 1);
  }

  // ----- The single-letter stages do nothing -----

  /** Every letter directly follows a `%`. */
  predicate LettersMarked(s: string) {
    forall i :: 0 <= i < |s| && IsLetter(s[i]) ==> i > 0 && s[i - 1] == '%'
  }

  lemma MarkedConcat(a: string, b: string)
    requires LettersMarked(a) && LettersMarked(b)
    ensures LettersMarked(a + b)
  {
    var s := a + b;
    forall i | 0 <= i < |s| && IsLetter(s[i]) ensures i > 0 && s[i - 1] == '%' {
      if i >= |a| {
        assert b[i - |a|] == s[i];
      } else {
        assert a[i] == s[i];
      }
    }
  }

  lemma {:induction false} PartsMarked(parts: seq<(nat, string)>)
    requires ValidParts(parts)
    ensures LettersMarked(PartsAt(parts, 12))
    decreases |parts|
  {
    if parts != [] {
      PartsTail(parts);
      PartsMarked(parts[1..]);
      var rest := PartsAt(parts[1..], 12);
      ChronoSpaced(parts[0].0);
      MarkedConcat(parts[0].1, rest);
      MarkedConcat(Chrono(parts[0].0), parts[0].1 + rest);
    }
  }

  lemma NoSingleLetter(s: string, c: char, rep: string)
    requires LettersMarked(s) && IsLetter(c)
    ensures Replace(s, [' ', c, ' '], rep) == s
  {
    forall i: nat ensures !At(s, [' ', c, ' '], i) {
      AtStart(s, [' ', c, ' '], i);
    }
    ReplaceAbsent(s, [' ', c, ' '], rep);
  }

  /** For every format made of multi-letter tokens and separators, tokens side by side only where they
      are compatible, the chain of replacements is the one-pass token map: no stage rewrites what an
      earlier one wrote. */
  lemma ChainIsOnePass(f: Format)
    requires ValidFormat(f) && Clean(f.parts)
    ensures ConvertDateFormat(PrintFormat(f)) == OnePass(f)
  {
    StagesConvert(f, 0);
    PartsMarked(f.parts);
    MarkedConcat(f.lead, PartsAt(f.parts, 12));
    var s := OnePass(f);
    NoSingleLetter(s, 'd', " %-d ");
    NoSingleLetter(s, 'M', " %-m ");
    NoSingleLetter(s, 'h', " %-I ");
  }

  // ----- Tokens that are not compatible -----

  /** The text from the first conflict on, after the first `stage` replacements. */
  function Rest(text: string, stage: nat): string
    requires stage <= 12
  {
    if stage == 0 then text
    else
      TokenLong(stage - 1);
      Replace(Rest(text, stage - 1), Token(stage - 1), Chrono(stage - 1))
  }

  /** The stage that takes the first token of a conflict together with letters of the second, or, for
      the minutes after the month, that brings forth the `m`. */
  function ConflictStage(a: nat, b: nat): nat {
    if a == 1 then 0 else if b == 9 then 4 else 2
  }

  /** How the text begins after `stage` replacements. */
  function ConflictHead(a: nat, b: nat, stage: nat): string
    requires a < 12 && b < 12
  {
    if stage <= ConflictStage(a, b) then Token(a) + Token(b)
    else if a == 1 then "%Y"
    else if b != 9 then "%B"
    else if stage <= 9 then "%mmm"
    else "%%"
  }

  lemma HeadKept(head: string, text: string, t: string, r: string)
    requires t != "" && head <= text && forall i :: 0 <= i < |head| ==> !At(text, t, i)
    ensures head <= Replace(text, t, r)
  {
    assert text == head + text[|head|..];
    ReplaceSkips(head, text[|head|..], t, r);
  }

  /** A token is not found where its first letter is not. */
  lemma NoFirst(head: string, text: string, k: nat)
    requires k < 12 && head <= text && Token(k)[0] !in head
    ensures forall i :: 0 <= i < |head| ==> !At(text, Token(k), i)
  {
    TokenLong(k);
    forall i | 0 <= i < |head| ensures !At(text, Token(k), i) {
      AtStart(text, Token(k), i);
      assert text[i] == head[i] && head[i] in head;
    }
  }

  /** A match, then what becomes of the rest. */
  lemma HeadReplaced(before: string, t: string, tail: string, text: string, r: string)
    requires t != "" && before + t + tail <= text
    requires forall i :: 0 <= i < |before| ==> !At(text, t, i)
    ensures before + r <= Replace(text, t, r)
    ensures (forall i :: |before| + |t| <= i < |before| + |t| + |tail| ==> !At(text, t, i))
      ==> before + r + tail <= Replace(text, t, r)
  {
    var n := |before| + |t|;
    var more := text[n..];
    assert text == before + (t + more);
    ReplaceSkips(before, t + more, t, r);
    ReplaceHit(more, t, r);
    assert tail <= more;
    if forall i :: n <= i < n + |tail| ==> !At(text, t, i) {
      forall i | 0 <= i < |tail| ensures !At(more, t, i) {
        AtDrop(text, t, n, i);
      }
      HeadKept(tail, more, t, r);
    }
  }

  lemma {:induction false} ConflictStep(a: nat, b: nat, text: string, stage: nat)
    requires a < 12 && b < 12 && !Compatible(a, b) && stage < 12 && ConflictHead(a, b, stage) <= text
    ensures Token(stage) != "" && ConflictHead(a, b, stage + 1) <= Replace(text, Token(stage), Chrono(stage))
  {
    TokenLong(stage);
    Ends(stage);
    var head := ConflictHead(a, b, stage);
    if stage < ConflictStage(a, b) {
      if stage < 2 {
        BeforeMonths(a, b, text, stage);
      } else {
        MonthAndMinutes(text, stage);
      }
      HeadKept(head, text, Token(stage), Chrono(stage));
    } else if stage == ConflictStage(a, b) {
      ConflictHit(a, b, text);
    } else if b == 9 && a == 4 && stage == 9 {
      MinutesHit(text);
    } else {
      NoFirst(head, text, stage);
      HeadKept(head, text, Token(stage), Chrono(stage));
    }
  }

  lemma BeforeMonths(a: nat, b: nat, text: string, stage: nat)
    requires a < 12 && b < 12 && (a == 3 || a == 4) && (2 <= b <= 4 || b == 9) && stage < 2
    requires Token(a) + Token(b) <= text
    ensures forall i :: 0 <= i < |Token(a) + Token(b)| ==> !At(text, Token(stage), i)
  {
    Ends(a);
    Ends(b);
    Ends(stage);
    NoFirst(Token(a) + Token(b), text, stage);
  }

  lemma MonthAndMinutes(text: string, stage: nat)
    requires (stage == 2 || stage == 3) && Token(4) + Token(9) <= text
    ensures forall i :: 0 <= i < |Token(4) + Token(9)| ==> !At(text, Token(stage), i)
  {
    var head := "MMmm";
    assert Token(4) + Token(9) == head;
    forall i | 0 <= i < 4 ensures !At(text, Token(stage), i) {
      AtStart(text, Token(stage), i);
      AtThird(text, Token(stage), i);
      assert text[i] == head[i] && text[2] == head[2];
    }
  }

  lemma AtThird(s: string, t: string, i: nat)
    requires |t| >= 3
    ensures At(s, t, i) ==> s[i + 2] == t[2]
  {
    if At(s, t, i) {
      assert s[i..i + |t|][2] == s[i + 2];
    }
  }

  lemma ConflictHit(a: nat, b: nat, text: string)
    requires a < 12 && b < 12 && !Compatible(a, b) && Token(a) + Token(b) <= text
    ensures var k := ConflictStage(a, b);
      ConflictHead(a, b, k + 1) <= Replace(text, Token(k), Chrono(k))
  {
    var k := ConflictStage(a, b);
    var t := Token(k);
    if b == 9 {
      assert "" + t + "mm" == Token(a) + Token(b);
      forall i | 2 <= i < 4 ensures !At(text, t, i) {
        AtStart(text, t, i);
        assert text[i] == (Token(a) + Token(b))[i];
      }
      HeadReplaced("", t, "mm", text, Chrono(k));
      assert "" + Chrono(k) + "mm" == "%mmm";
    } else {
      LongRun(a, b);
      HeadReplaced("", t, "", text, Chrono(k));
      assert "" + t + "" == t && "" + Chrono(k) == Chrono(k);
    }
  }

  /** Two such tokens of one letter are at least four letters long. */
  lemma LongRun(a: nat, b: nat)
    requires a < 12 && b < 12 && !Compatible(a, b) && b != 9
    ensures Token(ConflictStage(a, b)) <= Token(a) + Token(b)
  {
    var t, w := Token(ConflictStage(a, b)), Token(a) + Token(b);
    assert t == if a == 1 then "yyyy" else "MMMM";
    assert |w| >= 4 && w[..4] == t;
  }

  lemma MinutesHit(text: string)
    requires "%mmm" <= text
    ensures "%%" <= Replace(text, Token(9), Chrono(9))
  {
    var head := "%mmm";
    AtStart(text, Token(9), 0);
    assert text[0] == head[0];
    assert "%" + Token(9) + "m" == head;
    assert "%" + Token(9) + "" <= head;
    HeadReplaced("%", Token(9), "", text, Chrono(9));
    assert "%" + Chrono(9) == "%%M";
  }

  lemma {:induction false} RestBegins(a: nat, b: nat, text: string, stage: nat)
    requires a < 12 && b < 12 && !Compatible(a, b) && stage <= 12 && Token(a) + Token(b) <= text
    ensures ConflictHead(a, b, stage) <= Rest(text, stage)
  {
    if stage > 0 {
      RestBegins(a, b, text, stage - 1);
      ConflictStep(a, b, Rest(text, stage - 1), stage - 1);
    }
  }

  /** Before the conflict everything is as in one pass. */
  lemma {:induction false} StagesUpTo(lead: string, pre: seq<(nat, string)>, a: nat, b: nat, text: string, stage: nat)
    requires a < 12 && b < 12 && !Compatible(a, b) && stage <= 12 && Token(a) + Token(b) <= text
    requires Separator(lead) && ValidParts(pre) && Clean(pre)
    requires pre != [] && pre[|pre| - 1].1 == "" ==> Compatible(pre[|pre| - 1].0, a)
    ensures TokenStages(lead + (PartsAt(pre, stage) + Rest(text, stage)), stage)
         == lead + (PartsAt(pre, 12) + Rest(text, 12))
    decreases 12 - stage
  {
    if stage < 12 {
      RestBegins(a, b, text, stage);
      RestFollows(pre, a, b, Rest(text, stage), stage);
      PartsStage(pre, Rest(text, stage), stage);
      ReplaceSeparator(lead, PartsAt(pre, stage) + Rest(text, stage), stage);
      StagesUpTo(lead, pre, a, b, text, stage + 1);
    }
  }

  lemma RestFollows(pre: seq<(nat, string)>, a: nat, b: nat, rest: string, stage: nat)
    requires a < 12 && b < 12 && !Compatible(a, b) && stage < 12 && ConflictHead(a, b, stage) <= rest
    requires pre != [] && pre[|pre| - 1].1 == "" ==> Compatible(pre[|pre| - 1].0, a)
    ensures Follows(pre, rest, stage)
  {
    if stage <= ConflictStage(a, b) {
      assert Token(a) <= Token(a) + Token(b) <= rest;
    } else {
      assert rest[0] == '%';
    }
  }

  /** A text whose letters are marked, and two characters after it that hold no blank, are left alone by
      the single-letter stages. */
  lemma SingleKeeps(pre: string, x: char, text: string, c: char, rep: string)
    requires LettersMarked(pre) && x != ' ' && IsLetter(c) && pre + ['%', x] <= text
    ensures pre + ['%', x] <= Replace(text, [' ', c, ' '], rep)
  {
    var head, t := pre + ['%', x], [' ', c, ' '];
    forall i | 0 <= i < |head| ensures !At(text, t, i) {
      AtStart(text, t, i);
      assert text[i] == head[i];
      assert i + 1 < |head| ==> text[i + 1] == head[i + 1];
    }
    HeadKept(head, text, t, rep);
  }

  lemma {:induction false} PartsConcat(a: seq<(nat, string)>, b: seq<(nat, string)>, stage: nat)
    requires ValidParts(a + b)
    ensures ValidParts(a) && ValidParts(b) && PartsAt(a + b, stage) == PartsAt(a, stage) + PartsAt(b, stage)
    decreases |a|
  {
    assert forall p :: p in a || p in b <==> p in a + b;
    if a == [] {
      assert a + b == b;
      assert "" + PartsAt(b, stage) == PartsAt(b, stage);
    } else {
      assert (a + b)[1..] == a[1..] + b;
      PartsTail(a + b);
      PartsConcat(a[1..], b, stage);
      hide PartsAt, Word;
      PartText(Word(a[0].0, stage), a[0].1, PartsAt(a[1..], stage), PartsAt(b, stage));
      PartUnfolds(a, stage);
      PartUnfolds(a + b, stage);
    }
  }

  lemma PartUnfolds(parts: seq<(nat, string)>, stage: nat)
    requires parts != [] && ValidParts(parts)
    ensures parts[0].0 < 12 && ValidParts(parts[1..])
      && PartsAt(parts, stage) == Word(parts[0].0, stage) + (parts[0].1 + PartsAt(parts[1..], stage))
  {
    PartsTail(parts);
  }

  lemma {:induction false} FirstConflict(parts: seq<(nat, string)>) returns (i: nat)
    requires ValidParts(parts) && !Clean(parts)
    ensures i < |parts| - 1 && parts[i].1 == "" && !Compatible(parts[i].0, parts[i + 1].0)
    ensures Clean(parts[..i]) && (i > 0 && parts[i - 1].1 == "" ==> Compatible(parts[i - 1].0, parts[i].0))
  {
    i := 0;
    while parts[i].1 != "" || Compatible(parts[i].0, parts[i + 1].0)
      invariant i < |parts| - 1
      invariant forall j :: 0 <= j < i && parts[j].1 == "" ==> Compatible(parts[j].0, parts[j + 1].0)
      decreases |parts| - i
    {
      i := i + 1;
    }
  }

  /** The text at the first conflict, converted and in one pass. */
  lemma ConflictText(f: Format, i: nat)
    requires ValidFormat(f) && i < |f.parts| - 1 && f.parts[i].1 == ""
    requires f.parts[i].0 < 12 && f.parts[i + 1].0 < 12 && !Compatible(f.parts[i].0, f.parts[i + 1].0)
    requires Clean(f.parts[..i]) && (i > 0 && f.parts[i - 1].1 == "" ==> Compatible(f.parts[i - 1].0, f.parts[i].0))
    ensures ValidParts(f.parts[..i]) && ValidParts(f.parts[i..])
    ensures var pre, text := PartsAt(f.parts[..i], 12), PartsAt(f.parts[i..], 0);
      && TokenStages(PrintFormat(f), 0) == f.lead + (pre + Rest(text, 12))
      && OnePass(f) == f.lead + (pre + PartsAt(f.parts[i..], 12))
      && ConflictHead(f.parts[i].0, f.parts[i + 1].0, 12) <= Rest(text, 12)
      && Chrono(f.parts[i].0) <= PartsAt(f.parts[i..], 12)
  {
    var pre, post := f.parts[..i], f.parts[i..];
    var a, b := f.parts[i].0, f.parts[i + 1].0;
    assert f.parts == pre + post;
    PartsConcat(pre, post, 0);
    PartsConcat(pre, post, 12);
    var text := PartsAt(post, 0);
    BeginsWithBoth(post);
    assert post[0] == f.parts[i] && post[1] == f.parts[i + 1];
    hide PartsAt, TokenStages, Rest, Token, Chrono, ConflictHead, Compatible;
    StagesUpTo(f.lead, pre, a, b, text, 0);
    RestBegins(a, b, text, 12);
    RestNone(text);
  }

  lemma RestNone(text: string)
    ensures Rest(text, 0) == text
  {}

  lemma BeginsWithBoth(parts: seq<(nat, string)>)
    requires ValidParts(parts) && |parts| > 1 && parts[0].1 == ""
    ensures parts[0].0 < 12 && parts[1].0 < 12
    ensures Token(parts[0].0) + Token(parts[1].0) <= PartsAt(parts, 0) && Chrono(parts[0].0) <= PartsAt(parts, 12)
  {
    PartUnfolds(parts, 0);
    PartUnfolds(parts, 12);
    PartUnfolds(parts[1..], 0);
    assert parts[1..][0] == parts[1];
    var rest := parts[1].1 + PartsAt(parts[1..][1..], 0);
    hide PartsAt, Token, Chrono;
    TwoTokens(Token(parts[0].0), Token(parts[1].0), rest);
  }

  lemma SinglesKeep(pre: string, x: char, z: string)
    requires LettersMarked(pre) && x != ' ' && pre + ['%', x] <= z
    ensures pre + ['%', x] <= Replace(Replace(Replace(z, " d ", " %-d "), " M ", " %-m "), " h ", " %-I ")
  {
    hide Replace, LettersMarked;
    SingleKeeps(pre, x, z, 'd', " %-d ");
    SingleKeeps(pre, x, Replace(z, " d ", " %-d "), 'M', " %-m ");
    SingleKeeps(pre, x, Replace(Replace(z, " d ", " %-d "), " M ", " %-m "), 'h', " %-I ");
  }

  /** From the first conflict on the result is another. */
  lemma ConflictShows(f: Format)
    requires ValidFormat(f) && !Clean(f.parts)
    ensures ConvertDateFormat(PrintFormat(f)) != OnePass(f)
  {
    var i := FirstConflict(f.parts);
    assert f.parts[i] in f.parts && f.parts[i + 1] in f.parts;
    var a, b := f.parts[i].0, f.parts[i + 1].0;
    ConflictText(f, i);
    PartsMarked(f.parts[..i]);
    ConflictDiffers(a, b);
    hide PartsAt, TokenStages, Rest, Token, Chrono, ConflictHead, Replace, Clean, LettersMarked, Compatible,
      PrintFormat, OnePass;
    var pre, rest, one := PartsAt(f.parts[..i], 12), Rest(PartsAt(f.parts[i..], 0), 12), PartsAt(f.parts[i..], 12);
    SeparatorMarked(f.lead);
    MarkedConcat(f.lead, pre);
    var x := ConflictHead(a, b, 12)[1];
    HeadOf(f.lead, pre, rest, x);
    SinglesKeep(f.lead + pre, x, f.lead + (pre + rest));
    Differ(f.lead, pre, x, ConvertDateFormat(PrintFormat(f)), one);
  }

  lemma SeparatorMarked(s: string)
    requires Separator(s)
    ensures LettersMarked(s)
  {}

  lemma Differ(lead: string, pre: string, x: char, z: string, one: string)
    requires lead + pre + ['%', x] <= z && |one| >= 2 && one[1] != x
    ensures z != lead + (pre + one)
  {
    var n := |lead + pre| + 1;
    assert (lead + pre + ['%', x])[n] == x && z[n] == x;
    assert (lead + (pre + one))[n] == one[1];
  }

  lemma TwoTokens(a: string, b: string, rest: string)
    ensures a + b <= a + ("" + (b + rest))
  {
    assert a + ("" + (b + rest)) == a + b + rest;
  }

  lemma HeadOf(lead: string, pre: string, rest: string, x: char)
    requires ['%', x] <= rest
    ensures lead + pre + ['%', x] <= lead + (pre + rest)
  {
    assert lead + (pre + rest) == lead + pre + rest;
  }

  lemma ConflictDiffers(a: nat, b: nat)
    requires a < 12 && b < 12 && !Compatible(a, b)
    ensures var h := ConflictHead(a, b, 12);
      |h| == 2 && h == ['%', h[1]] && h[1] != ' ' && |Chrono(a)| == 2 && Chrono(a)[1] != h[1]
  {}

  /** For every format of multi-letter tokens and separators: the chain is the one-pass map if and only
      if no two tokens that stand side by side are in conflict. */
  lemma ChainExact(f: Format)
    requires ValidFormat(f)
    ensures ConvertDateFormat(PrintFormat(f)) == OnePass(f) <==> Clean(f.parts)
  {
    if Clean(f.parts) {
      ChainIsOnePass(f);
    } else {
      ConflictShows(f);
    }
  }
}
