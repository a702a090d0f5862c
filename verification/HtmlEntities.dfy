/** The HTML entity filters (`filter_htmlencode` and `filter_htmldecode` in filters.rs). */
module HtmlEntities {
  import opened Strings

  /** Five replacements, one after the other. */
  function HtmlEncode(s: string): string {
    Replace(Replace(Replace(Replace(Replace(s, "&", "&amp;"), "<", "&lt;"), ">", "&gt;"), "\"", "&quot;"), "'", "&#39;")
  }

  /** Seven replacements, `&amp;` first. */
  function HtmlDecode(s: string): string {
    DecodeRest(Replace(s, "&amp;", "&"), 0)
  }

  /** The entities that are decoded after `&amp;`, in this order. */
  const LATER: seq<(string, char)> :=
    [("&lt;", '<'), ("&gt;", '>'), ("&quot;", '"'), ("&#39;", '\''), ("&apos;", '\''), ("&nbsp;", ' ')]

  /** The replacements from number `k` on. */
  function DecodeRest(s: string, k: nat): string
    requires k <= |LATER|
    decreases |LATER| - k
  {
    if k == |LATER| then s else DecodeRest(Replace(s, LATER[k].0, [LATER[k].1]), k + 1)
  }

  // ----- Encoding is one map over the characters -----

  function EncodeChar(c: char): string {
    if c == '&' then "&amp;"
    else if c == '<' then "&lt;"
    else if c == '>' then "&gt;"
    else if c == '"' then "&quot;"
    else if c == '\'' then "&#39;"
    else [c]
  }

  function EncodeAll(s: string): string {
    if s == "" then "" else EncodeChar(s[0]) + EncodeAll(s[1..])
  }

  /** The five replacements in their order, as characters that are encoded so far. */
  function Encoded(c: char, stage: nat): string {
    if c == '&' && stage >= 1 then "&amp;"
    else if c == '<' && stage >= 2 then "&lt;"
    else if c == '>' && stage >= 3 then "&gt;"
    else if c == '"' && stage >= 4 then "&quot;"
    else if c == '\'' && stage >= 5 then "&#39;"
    else [c]
  }

  function EncodedAll(s: string, stage: nat): string {
    if s == "" then "" else Encoded(s[0], stage) + EncodedAll(s[1..], stage)
  }

  function StageChar(stage: nat): char {
    if stage == 0 then '&' else if stage == 1 then '<' else if stage == 2 then '>' else if stage == 3 then '"' else '\''
  }

  function StageEntity(stage: nat): string {
    if stage == 0 then "&amp;" else if stage == 1 then "&lt;" else if stage == 2 then "&gt;"
    else if stage == 3 then "&quot;" else "&#39;"
  }

  /** No stage touches what an earlier stage wrote. */
  lemma {:induction false} EncodeStage(s: string, stage: nat)
    requires stage < 5
    ensures Replace(EncodedAll(s, stage), [StageChar(stage)], StageEntity(stage)) == EncodedAll(s, stage + 1)
    decreases |s|
  {
    if s != "" {
      var c, head, rest := StageChar(stage), Encoded(s[0], stage), EncodedAll(s[1..], stage);
      EncodeStage(s[1..], stage);
      StageHead(s[0], stage);
      hide Encoded, Replace, StageChar, StageEntity;
      if s[0] == c {
        ReplaceHit(rest, [c], StageEntity(stage));
      } else {
        ReplaceSkipsText(head, rest, [c], StageEntity(stage));
      }
    }
  }

  lemma StageHead(x: char, stage: nat)
    requires stage < 5
    ensures var c := StageChar(stage);
      if x == c then Encoded(x, stage) == [c] && Encoded(x, stage + 1) == StageEntity(stage)
      else c !in Encoded(x, stage) && Encoded(x, stage + 1) == Encoded(x, stage)
  {}

  lemma {:induction false} EncodedEnds(s: string)
    ensures EncodedAll(s, 0) == s && EncodedAll(s, 5) == EncodeAll(s)
  {
    if s != "" {
      EncodedEnds(s[1..]);
    }
  }

  /** The five chained replacements are one map over the characters. */
  lemma EncodeIsMap(s: string)
    ensures HtmlEncode(s) == EncodeAll(s)
  {
    EncodedEnds(s);
    EncodeStage(s, 0);
    EncodeStage(s, 1);
    EncodeStage(s, 2);
    EncodeStage(s, 3);
    EncodeStage(s, 4);
  }

  // ----- Decoding what was encoded -----

  /** The character with the first `k` of `<`, `>`, `"` and `'` decoded again. */
  function Undecoded(c: char, k: nat): string {
    if c == '<' && k <= 0 then "&lt;"
    else if c == '>' && k <= 1 then "&gt;"
    else if c == '"' && k <= 2 then "&quot;"
    else if c == '\'' && k <= 3 then "&#39;"
    else [c]
  }

  function UndecodedAll(s: string, k: nat): string {
    if s == "" then "" else Undecoded(s[0], k) + UndecodedAll(s[1..], k)
  }

  lemma {:induction false} AllDecoded(s: string)
    ensures UndecodedAll(s, 4) == s
  {
    if s != "" {
      AllDecoded(s[1..]);
    }
  }

  /** What an entity looks like: an ampersand, then characters that are never encoded. */
  predicate Entity(e: string) {
    e != "" && e[0] == '&' && PlainText(e[1..])
  }

  predicate PlainText(t: string) {
    forall c <- t :: c !in {'&', '<', '>', '"', '\''}
  }

  /** An entity that differs from the pattern is copied as a whole. */
  lemma EntitySkipped(e: string, rest: string, pat: string, rep: string)
    requires Entity(e) && Entity(pat) && !(pat <= e + rest)
    ensures Replace(e + rest, pat, rep) == e + Replace(rest, pat, rep)
  {
    forall i | 0 <= i < |e| ensures !At(e + rest, pat, i) {
      if i > 0 {
        assert e[i] == e[1..][i - 1] && e[i] in e[1..];
        assert (e + rest)[i] == e[i] != '&';
      }
    }
    ReplaceSkips(e, rest, pat, rep);
  }

  /** `&amp;` is decoded first, and gives back exactly the ampersands. */
  lemma {:induction false} DecodeAmp(s: string)
    ensures Replace(EncodeAll(s), "&amp;", "&") == UndecodedAll(s, 0)
  {
    if s != "" {
      DecodeAmp(s[1..]);
      var rest := EncodeAll(s[1..]);
      if s[0] == '&' {
        ReplaceHit(rest, "&amp;", "&");
      } else if s[0] in {'<', '>', '"', '\''} {
        var e := EncodeChar(s[0]);
        assert (e + rest)[1] == e[1] != 'a';
        EntitySkipped(e, rest, "&amp;", "&");
      } else {
        ReplaceSkipsText([s[0]], rest, "&amp;", "&");
      }
    }
  }

  /** Characters that are never encoded look the same in the text and in its encoding. */
  lemma {:induction false} PlainPrefix(t: string, s: string, k: nat)
    requires PlainText(t)
    ensures t <= UndecodedAll(s, k) <==> t <= s
  {
    if t != "" && s != "" {
      assert t[0] in t && forall c <- t[1..] :: c in t;
      PlainPrefix(t[1..], s[1..], k);
      var u, more := Undecoded(s[0], k), UndecodedAll(s[1..], k);
      if u == [s[0]] {
        assert UndecodedAll(s, k) == [s[0]] + more;
        assert ([s[0]] + more)[1..] == more;
        assert t <= [s[0]] + more <==> t[0] == s[0] && t[1..] <= more;
        assert t <= s <==> t[0] == s[0] && t[1..] <= s[1..];
      }
    }
  }

  lemma {:induction false} PlainCopied(t: string, rest: string, k: nat)
    requires PlainText(t)
    ensures UndecodedAll(t + rest, k) == t + UndecodedAll(rest, k)
  {
    if t == "" {
      assert t + rest == rest;
    } else {
      var c, more := t[0], t[1..];
      assert c in t && forall d <- more :: d in t;
      PlainCopied(more, rest, k);
      PlainFirst(c, more + rest, k);
      hide UndecodedAll, Undecoded;
      Moved(c, more, rest, UndecodedAll(rest, k));
      assert t == [c] + more;
    }
  }

  lemma PlainFirst(c: char, rest: string, k: nat)
    requires c !in {'&', '<', '>', '"', '\''}
    ensures UndecodedAll([c] + rest, k) == [c] + UndecodedAll(rest, k)
  {
    UndecodedCons(c, rest, k);
    UndecodedPlain(c, k);
  }

  lemma Moved(c: char, more: string, rest: string, after: string)
    ensures [c] + more + rest == [c] + (more + rest) && [c] + more + after == [c] + (more + after)
  {}

  lemma UndecodedPlain(c: char, k: nat)
    requires c !in {'&', '<', '>', '"', '\''}
    ensures Undecoded(c, k) == [c]
  {}

  lemma LaterEntities(k: nat)
    requires k < 6
    ensures var e := LATER[k].0; Entity(e) && |e| >= 4
  {}

  /** A replacement decodes both the character that was encoded and the entity spelled out: on the
      half-decoded text it does what it does on the original. */
  lemma {:induction false} DecodeStage(s: string, k: nat)
    requires k < 4
    ensures Replace(UndecodedAll(s, k), LATER[k].0, [LATER[k].1])
         == UndecodedAll(Replace(s, LATER[k].0, [LATER[k].1]), k + 1)
    decreases |s|
  {
    var pat, c := LATER[k].0, LATER[k].1;
    LaterEntities(k);
    if s != "" {
      if pat <= s {
        var rest := s[|pat|..];
        assert s == pat + rest && (pat + rest)[1..] == pat[1..] + rest;
        PlainCopied(pat[1..], rest, k);
        assert UndecodedAll(s, k) == pat + UndecodedAll(rest, k);
        ReplaceHit(UndecodedAll(rest, k), pat, [c]);
        DecodeStage(rest, k);
        UndecodedCons(c, Replace(rest, pat, [c]), k + 1);
      } else {
        DecodeStage(s[1..], k);
        OneCharacter(s, k);
        UndecodedCons(s[0], Replace(s[1..], pat, [c]), k + 1);
      }
    }
  }

  lemma UndecodedCons(c: char, rest: string, k: nat)
    ensures UndecodedAll([c] + rest, k) == Undecoded(c, k) + UndecodedAll(rest, k)
  {
    assert ([c] + rest)[1..] == rest;
  }

  lemma OneCharacter(s: string, k: nat)
    requires k < 4 && s != "" && !(LATER[k].0 <= s)
    ensures Replace(UndecodedAll(s, k), LATER[k].0, [LATER[k].1])
         == Undecoded(s[0], k + 1) + Replace(UndecodedAll(s[1..], k), LATER[k].0, [LATER[k].1])
  {
    var pat, c := LATER[k].0, LATER[k].1;
    var u, more := Undecoded(s[0], k), UndecodedAll(s[1..], k);
    LaterEntities(k);
    UndecodedHead(s[0], k);
    hide Replace, Undecoded, LATER;
    if s[0] == c {
      ReplaceHit(more, pat, [c]);
    } else if u != [s[0]] {
      assert (u + more)[1] == u[1];
      EntitySkipped(u, more, pat, [c]);
    } else if s[0] == '&' {
      PlainPrefix(pat[1..], s[1..], k);
      AmpPrefix(pat, more);
      AmpPrefix(pat, s[1..]);
      assert s == ['&'] + s[1..];
      EntitySkipped(u, more, pat, [c]);
    } else {
      ReplaceSkipsText(u, more, pat, [c]);
    }
  }

  lemma AmpPrefix(pat: string, t: string)
    requires pat != "" && pat[0] == '&'
    ensures pat <= ['&'] + t <==> pat[1..] <= t
  {
    assert (['&'] + t)[1..] == t && pat == ['&'] + pat[1..];
    if pat <= ['&'] + t {
      assert pat[1..] == (['&'] + t)[..|pat|][1..] == t[..|pat| - 1];
    }
  }

  lemma UndecodedHead(x: char, k: nat)
    requires k < 4
    ensures var u, pat, c := Undecoded(x, k), LATER[k].0, LATER[k].1;
      if x == c then u == pat && Undecoded(x, k + 1) == [c]
      else Undecoded(x, k + 1) == u && (u != [x] ==> Entity(u) && |u| >= 2 && u[1] != pat[1])
  {}

  /** Decoding an encoded text decodes exactly the entities that the text itself spells out, other
      than `&amp;`. */
  lemma DecodeOfEncode(s: string)
    ensures HtmlDecode(HtmlEncode(s)) == DecodeRest(s, 0)
  {
    EncodeIsMap(s);
    DecodeAmp(s);
    DecodeStages(s, 0);
  }

  lemma DecodeStages(s: string, k: nat)
    requires k <= 4
    ensures DecodeRest(UndecodedAll(s, k), k) == DecodeRest(s, k)
    decreases 4 - k
  {
    if k == 4 {
      AllDecoded(s);
    } else {
      DecodeStage(s, k);
      DecodeStages(Replace(s, LATER[k].0, [LATER[k].1]), k + 1);
    }
  }

  predicate SpellsOut(s: string, k: nat)
    requires k <= |LATER|
  {
    exists i :: k <= i < |LATER| && Occurs(LATER[i].0, s)
  }

  lemma {:induction false} DecodeRestShrinks(s: string, k: nat)
    requires k <= |LATER|
    ensures |DecodeRest(s, k)| <= |s|
    ensures SpellsOut(s, k) ==> |DecodeRest(s, k)| < |s|
    ensures !SpellsOut(s, k) ==> DecodeRest(s, k) == s
    decreases |LATER| - k
  {
    if k < |LATER| {
      var pat, rep := LATER[k].0, [LATER[k].1];
      LaterEntities(k);
      var t := Replace(s, pat, rep);
      ReplaceShrinks(s, pat, rep);
      DecodeRestShrinks(t, k + 1);
      if !Occurs(pat, s) {
        ReplaceAbsent(s, pat, rep);
        assert SpellsOut(s, k) ==> SpellsOut(s, k + 1);
      }
    }
  }

  /** The round trip, exactly: it gives the text back if and only if the text spells out none of
      `&lt;` `&gt;` `&quot;` `&#39;` `&apos;` `&nbsp;`. */
  lemma HtmlRoundTrip(s: string)
    ensures HtmlDecode(HtmlEncode(s)) == s
      <==> forall e :: e in {"&lt;", "&gt;", "&quot;", "&#39;", "&apos;", "&nbsp;"} ==> !Occurs(e, s)
  {
    DecodeOfEncode(s);
    DecodeRestShrinks(s, 0);
    assert forall i :: 0 <= i < 6 ==> LATER[i].0 in {"&lt;", "&gt;", "&quot;", "&#39;", "&apos;", "&nbsp;"};
    assert LATER[0].0 == "&lt;" && LATER[1].0 == "&gt;" && LATER[2].0 == "&quot;" && LATER[3].0 == "&#39;"
        && LATER[4].0 == "&apos;" && LATER[5].0 == "&nbsp;";
  }
}
