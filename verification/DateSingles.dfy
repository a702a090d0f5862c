/** Formats with the single-letter tokens `d`, `M` and `h` between blanks, and what each token stands for. */
module DateSingles {
  import opened Strings
  import opened DateFormats

  // ----- The table -----

  /** What every multi-letter token stands for. */
  const TABLE: map<string, string> := map[
    "yyyy" := "%Y", "yy" := "%y", "MMMM" := "%B", "MMM" := "%b", "MM" := "%m", "dd" := "%d",
    "HH" := "%H", "hh" := "%I", "htt" := "%I:%M %p", "mm" := "%M", "ss" := "%S", "tt" := "%p"]

  /** The tokens of a format are those of the table. */
  lemma TokensOfTable(k: nat)
    requires k < 12
    ensures Token(k) in TABLE && Chrono(k) == TABLE[Token(k)]
  {}

  lemma TableIsTokens(word: string) returns (k: nat)
    requires word in TABLE
    ensures k < 12 && Token(k) == word
  {
    k := if word == "yyyy" then 0 else if word == "yy" then 1 else if word == "MMMM" then 2 else if word == "MMM" then 3
         else if word == "MM" then 4 else if word == "dd" then 5 else if word == "HH" then 6 else if word == "hh" then 7
         else if word == "htt" then 8 else if word == "mm" then 9 else if word == "ss" then 10 else 11;
  }

  /** On its own every token of the table becomes what it stands for. */
  lemma TokenConverts(word: string)
    requires word in TABLE
    ensures ConvertDateFormat(word) == TABLE[word]
  {
    var k := TableIsTokens(word);
    TokensOfTable(k);
    hide Token, Chrono;
    var f := Format("", [(k, "")]);
    assert ValidFormat(f) && Clean(f.parts);
    ChainIsOnePass(f);
    OneToken(k, 0);
    OneToken(k, 12);
    hide ConvertDateFormat, PartsAt;
  }

  lemma OneToken(k: nat, stage: nat)
    requires k < 12
    ensures var f := Format("", [(k, "")]); ValidFormat(f) && TextAt(f, stage) == Word(k, stage)
  {
    hide Word;
    var parts := [(k, "")];
    assert parts[1..] == [];
    var w := Word(k, stage);
    assert PartsAt(parts, stage) == w + ("" + PartsAt(parts[1..], stage)) == w;
    assert "" + w == w;
  }

  // ----- Single letters -----

  datatype Single = Day | Month | Hour {
    function Letter(): char {
      match this
      case Day => 'd'
      case Month => 'M'
      case Hour => 'h'
    }

    function Stands(): string {
      match this
      case Day => " %-d "
      case Month => " %-m "
      case Hour => " %-I "
    }

    function Stage(): nat {
      match this
      case Day => 0
      case Month => 1
      case Hour => 2
    }
  }

  /** The single letter between its blanks, when `done` of the three have been replaced. */
  function SingleAt(x: Single, done: nat): string {
    if x.Stage() < done then x.Stands() else [' ', x.Letter(), ' ']
  }

  /** A format, then single letters, each followed by a format. */
  datatype Long = Long(first: Format, more: seq<(Single, Format)>)

  predicate ValidLong(x: Long) {
    ValidFormat(x.first) && Clean(x.first.parts) && ValidMore(x.more)
  }

  predicate ValidMore(more: seq<(Single, Format)>) {
    forall m <- more :: ValidFormat(m.1) && Clean(m.1.parts)
  }

  /** The text after `stage` replacements of multi-letter tokens and `done` of single letters. */
  function MoreAt(more: seq<(Single, Format)>, stage: nat, done: nat): string
    requires ValidMore(more)
  {
    if more == [] then ""
    else
      MoreTail(more);
      SingleAt(more[0].0, done) + (TextAt(more[0].1, stage) + MoreAt(more[1..], stage, done))
  }

  lemma MoreTail(more: seq<(Single, Format)>)
    requires ValidMore(more) && more != []
    ensures more[0] in more && ValidMore(more[1..])
  {
    assert forall m <- more[1..] :: m in more;
  }

  function LongAt(x: Long, stage: nat, done: nat): string
    requires ValidLong(x)
  {
    TextAt(x.first, stage) + MoreAt(x.more, stage, done)
  }

  // ----- The multi-letter stages -----

  lemma SingleKept(x: Single, rest: string, stage: nat)
    requires stage < 12
    ensures Token(stage) != ""
    ensures Replace(SingleAt(x, 0) + rest, Token(stage), Chrono(stage))
         == SingleAt(x, 0) + Replace(rest, Token(stage), Chrono(stage))
  {
    TokenLong(stage);
    var w, t := SingleAt(x, 0), Token(stage);
    assert t[0] in t && t[1] in t;
    hide Token, Chrono;
    forall i | 0 <= i < |w| ensures !At(w + rest, t, i) {
      AtStart(w + rest, t, i);
    }
    ReplaceSkips(w, rest, t, Chrono(stage));
  }

  lemma FormatStage(f: Format, rest: string, stage: nat)
    requires ValidFormat(f) && Clean(f.parts) && stage < 12 && (rest == "" || !IsLetter(rest[0]))
    ensures Token(stage) != ""
    ensures Replace(TextAt(f, stage) + rest, Token(stage), Chrono(stage))
         == TextAt(f, stage + 1) + Replace(rest, Token(stage), Chrono(stage))
  {
    PartsStage(f.parts, rest, stage);
    ReplaceSeparator(f.lead, PartsAt(f.parts, stage) + rest, stage);
    hide PartsAt, Token, Chrono;
    LeadText(f.lead, PartsAt(f.parts, stage), rest);
    LeadText(f.lead, PartsAt(f.parts, stage + 1), Replace(rest, Token(stage), Chrono(stage)));
  }

  lemma LeadText(lead: string, parts: string, rest: string)
    ensures lead + parts + rest == lead + (parts + rest)
  {}

  lemma MoreStarts(more: seq<(Single, Format)>, stage: nat, done: nat)
    requires ValidMore(more)
    ensures var t := MoreAt(more, stage, done); t == "" || t[0] == ' '
  {
    hide TextAt;
  }

  lemma {:induction false} MoreStage(more: seq<(Single, Format)>, stage: nat)
    requires ValidMore(more) && stage < 12
    ensures Token(stage) != ""
    ensures Replace(MoreAt(more, stage, 0), Token(stage), Chrono(stage)) == MoreAt(more, stage + 1, 0)
    decreases |more|
  {
    TokenLong(stage);
    if more != [] {
      MoreTail(more);
      var (x, f) := more[0];
      var rest := MoreAt(more[1..], stage, 0);
      MoreStage(more[1..], stage);
      MoreStarts(more[1..], stage, 0);
      FormatStage(f, rest, stage);
      SingleKept(x, TextAt(f, stage) + rest, stage);
      hide Replace, TextAt, Token, Chrono, SingleAt;
    }
  }

  lemma {:induction false} TokenStagesDo(x: Long, stage: nat)
    requires ValidLong(x) && stage <= 12
    ensures TokenStages(LongAt(x, stage, 0), stage) == LongAt(x, 12, 0)
    decreases 12 - stage
  {
    if stage < 12 {
      MoreStage(x.more, stage);
      MoreStarts(x.more, stage, 0);
      FormatStage(x.first, MoreAt(x.more, stage, 0), stage);
      TokenStagesDo(x, stage + 1);
      hide Replace, TextAt, Token, Chrono, MoreAt;
    }
  }

  // ----- The single-letter stages -----

  /** The replacement of the single letter `x`. */
  function ReplaceSingle(s: string, x: Single): string {
    Replace(s, [' ', x.Letter(), ' '], x.Stands())
  }

  /** No letter stands right after a blank, or at the start. */
  predicate NoLone(s: string) {
    forall i :: 0 <= i < |s| && IsLetter(s[i]) ==> i > 0 && s[i - 1] != ' '
  }

  lemma LoneKept(w: string, rest: string, x: Single)
    requires NoLone(w) && (rest == "" || rest[0] == ' ')
    ensures ReplaceSingle(w + rest, x) == w + ReplaceSingle(rest, x)
  {
    var s, t := w + rest, [' ', x.Letter(), ' '];
    forall i | 0 <= i < |w| ensures !At(s, t, i) {
      AtStart(s, t, i);
      assert s[i] == w[i];
      assert i + 1 < |w| ==> s[i + 1] == w[i + 1];
    }
    ReplaceSkips(w, rest, t, x.Stands());
  }

  lemma TextNoLone(f: Format)
    requires ValidFormat(f)
    ensures NoLone(TextAt(f, 12))
  {
    PartsMarked(f.parts);
    MarkedConcat(f.lead, PartsAt(f.parts, 12));
    hide PartsAt;
  }

  lemma OtherSingle(y: Single, x: Single, rest: string)
    requires rest == "" || !IsLetter(rest[0])
    requires y != x
    ensures var w := SingleAt(y, x.Stage()); ReplaceSingle(w + rest, x) == w + ReplaceSingle(rest, x)
    ensures SingleAt(y, x.Stage() + 1) == SingleAt(y, x.Stage())
  {
    var w := SingleAt(y, x.Stage());
    var s, t := w + rest, [' ', x.Letter(), ' '];
    forall i | 0 <= i < |w| ensures !At(s, t, i) {
      AtStart(s, t, i);
      assert s[i] == w[i];
      assert if i + 1 < |w| then s[i + 1] == w[i + 1] else rest == "" || s[i + 1] == rest[0];
    }
    ReplaceSkips(w, rest, t, x.Stands());
  }

  lemma {:induction false} SingleStage(more: seq<(Single, Format)>, x: Single)
    requires ValidMore(more)
    ensures ReplaceSingle(MoreAt(more, 12, x.Stage()), x) == MoreAt(more, 12, x.Stage() + 1)
    decreases |more|
  {
    if more != [] {
      MoreTail(more);
      var (y, f) := more[0];
      var rest := MoreAt(more[1..], 12, x.Stage());
      var text := TextAt(f, 12);
      SingleStage(more[1..], x);
      MoreStarts(more[1..], 12, x.Stage());
      TextNoLone(f);
      LoneKept(text, rest, x);
      StartsPlain(text, rest);
      hide TextAt;
      if y == x {
        ReplaceHit(text + rest, [' ', x.Letter(), ' '], x.Stands());
      } else {
        OtherSingle(y, x, text + rest);
      }
    }
  }

  lemma StartsPlain(text: string, rest: string)
    requires NoLone(text) && (rest == "" || rest[0] == ' ')
    ensures text + rest == "" || !IsLetter((text + rest)[0])
  {}

  lemma WholeStage(x: Long, single: Single)
    requires ValidLong(x)
    ensures ReplaceSingle(LongAt(x, 12, single.Stage()), single) == LongAt(x, 12, single.Stage() + 1)
  {
    SingleStage(x.more, single);
    MoreStarts(x.more, 12, single.Stage());
    TextNoLone(x.first);
    LoneKept(TextAt(x.first, 12), MoreAt(x.more, 12, single.Stage()), single);
    hide TextAt, MoreAt, ReplaceSingle;
  }

  /** Formats with single letters: every multi-letter token becomes what the table says, and every `d`,
      `M` or `h` between blanks the day, month or hour without a leading zero. */
  lemma SinglesConvert(x: Long)
    requires ValidLong(x)
    ensures ConvertDateFormat(LongAt(x, 0, 0)) == LongAt(x, 12, 3)
  {
    TokenStagesDo(x, 0);
    WholeStage(x, Day);
    WholeStage(x, Month);
    WholeStage(x, Hour);
    hide LongAt, Replace, TokenStages;
  }
}
