/** What decoding makes of texts that are written with entities: each entity becomes its character, and
    an ampersand that was encoded twice is decoded twice. */
module HtmlPieces {
  import opened Strings
  import opened HtmlEntities

  /** A piece of a text: characters other than `&`, one of the entities, or an encoded ampersand. */
  datatype Piece = Plain(text: string) | Coded(entity: Name) | Amp

  datatype Name = Lt | Gt | Quot | Apos39 | Apos | Nbsp

  function Written(n: Name): string {
    match n
    case Lt => "&lt;"
    case Gt => "&gt;"
    case Quot => "&quot;"
    case Apos39 => "&#39;"
    case Apos => "&apos;"
    case Nbsp => "&nbsp;"
  }

  function Meant(n: Name): char {
    match n
    case Lt => '<'
    case Gt => '>'
    case Quot => '"'
    case Apos39 => '\''
    case Apos => '\''
    case Nbsp => ' '
  }

  /** The place of an entity in the order of the replacements. */
  function Place(n: Name): nat {
    match n
    case Lt => 0
    case Gt => 1
    case Quot => 2
    case Apos39 => 3
    case Apos => 4
    case Nbsp => 5
  }

  /** The text of the pieces when `k` of the entities have been decoded; `amp` is what stands for an
      ampersand. */
  function Text(ps: seq<Piece>, k: nat, amp: string): string {
    if ps == [] then ""
    else
      (match ps[0]
       case Plain(t) => t
       case Coded(n) => if Place(n) < k then [Meant(n)] else Written(n)
       case Amp => amp)
      + Text(ps[1..], k, amp)
  }

  /** What the pieces mean. */
  function Meaning(ps: seq<Piece>): string {
    if ps == [] then ""
    else
      (match ps[0]
       case Plain(t) => t
       case Coded(n) => [Meant(n)]
       case Amp => "&")
      + Meaning(ps[1..])
  }

  /** No ampersand stands right before a character that one of the other entities goes on with. */
  predicate Apart(ps: seq<Piece>) {
    ps == [] ||
    (&& Apart(ps[1..])
     && (ps[0].Plain? ==> ps[0].text != "" && '&' !in ps[0].text)
     && (ps[0].Amp? && |ps| > 1 && ps[1].Plain? && ps[1].text != "" ==>
           ps[1].text[0] !in {'l', 'g', 'q', '#', 'a', 'n'}))
  }

  lemma LaterIs(n: Name)
    ensures LATER[Place(n)] == (Written(n), Meant(n))
  {}

  /** The entities can be told apart at their second or third character. */
  lemma Distinct(a: Name, b: Name)
    requires a != b
    ensures var x, y := Written(a), Written(b);
      |x| >= 4 && |y| >= 4 && (x[1] != y[1] || x[2] != y[2])
  {}

  lemma NotAmp(a: Name)
    ensures var x := Written(a); |x| >= 4 && (x[1] != 'a' || x[2] != 'm')
    ensures Entity(Written(a)) && Written(a)[1] in {'l', 'g', 'q', '#', 'a', 'n'} && Meant(a) != '&'
  {}

  lemma NoMatch(e: string, rest: string, pat: string)
    requires |e| >= 4 && |pat| >= 4 && (e[1] != pat[1] || e[2] != pat[2])
    ensures !(pat <= e + rest)
  {
    assert (e + rest)[1] == e[1] && (e + rest)[2] == e[2];
  }

  /** After an ampersand that stands apart comes nothing that an entity goes on with. */
  lemma AfterAmp(ps: seq<Piece>, k: nat)
    requires Apart(ps) && ps != [] && ps[0].Amp?
    ensures var t := Text(ps[1..], k, "&"); t == "" || t[0] !in {'l', 'g', 'q', '#', 'a', 'n'}
  {
    var rest := ps[1..];
    if rest != [] && rest[0].Coded? {
      NotAmp(rest[0].entity);
    }
  }

  /** One replacement decodes one entity. */
  lemma {:induction false} DecodeOne(ps: seq<Piece>, n: Name)
    requires Apart(ps)
    ensures Replace(Text(ps, Place(n), "&"), Written(n), [Meant(n)]) == Text(ps, Place(n) + 1, "&")
  {
    var k, pat, rep := Place(n), Written(n), [Meant(n)];
    NotAmp(n);
    if ps != [] {
      DecodeOne(ps[1..], n);
      var rest := Text(ps[1..], k, "&");
      match ps[0] {
        case Plain(t) => ReplaceSkipsText(t, rest, pat, rep);
        case Coded(m) =>
          NotAmp(m);
          if m == n {
            ReplaceHit(rest, pat, rep);
          } else {
            Distinct(m, n);
            OtherPlace(m, n);
            if Place(m) < k {
              ReplaceSkipsText([Meant(m)], rest, pat, rep);
            } else {
              NoMatch(Written(m), rest, pat);
              EntitySkipped(Written(m), rest, pat, rep);
            }
          }
        case Amp =>
          AfterAmp(ps, k);
          assert ("&" + rest)[1..] == rest;
          assert !(pat <= "&" + rest);
          EntitySkipped("&", rest, pat, rep);
      }
    }
  }

  lemma OtherPlace(a: Name, b: Name)
    requires a != b
    ensures Place(a) != Place(b)
  {}

  /** The ampersands come first. */
  lemma {:induction false} DecodeAmps(ps: seq<Piece>)
    requires Apart(ps)
    ensures Replace(Text(ps, 0, "&amp;"), "&amp;", "&") == Text(ps, 0, "&")
  {
    if ps != [] {
      DecodeAmps(ps[1..]);
      var rest := Text(ps[1..], 0, "&amp;");
      match ps[0] {
        case Plain(t) => ReplaceSkipsText(t, rest, "&amp;", "&");
        case Coded(n) =>
          NotAmp(n);
          NoMatch(Written(n), rest, "&amp;");
          EntitySkipped(Written(n), rest, "&amp;", "&");
        case Amp => ReplaceHit(rest, "&amp;", "&");
      }
    }
  }

  lemma {:induction false} AllCoded(ps: seq<Piece>)
    ensures Text(ps, 6, "&") == Meaning(ps)
  {
    if ps != [] {
      AllCoded(ps[1..]);
    }
  }

  lemma DecodeAll(ps: seq<Piece>)
    requires Apart(ps)
    ensures DecodeRest(Text(ps, 0, "&"), 0) == Meaning(ps)
  {
    hide Replace, Text, DecodeRest, Apart, Meaning;
    DecodeStep(ps, Lt);
    DecodeStep(ps, Gt);
    DecodeStep(ps, Quot);
    DecodeStep(ps, Apos39);
    DecodeStep(ps, Apos);
    DecodeStep(ps, Nbsp);
    AllCoded(ps);
    NoneLeft(Text(ps, 6, "&"));
  }

  lemma NoneLeft(s: string)
    ensures DecodeRest(s, 6) == s
  {}

  /** A text written with entities is decoded entity by entity, if no encoded ampersand stands right
      before a character that another entity goes on with. */
  lemma DecodeMeans(ps: seq<Piece>)
    requires Apart(ps)
    ensures HtmlDecode(Text(ps, 0, "&amp;")) == Meaning(ps)
  {
    DecodeAmps(ps);
    DecodeAll(ps);
    hide Replace, Text, DecodeRest, Apart, Meaning;
  }

  lemma DecodeStep(ps: seq<Piece>, n: Name)
    requires Apart(ps)
    ensures DecodeRest(Text(ps, Place(n), "&"), Place(n)) == DecodeRest(Text(ps, Place(n) + 1, "&"), Place(n) + 1)
  {
    DecodeOne(ps, n);
    LaterIs(n);
    hide Text, Replace;
  }

  /** An entity whose ampersand is encoded is decoded twice: `&amp;lt;` gives `<`. */
  lemma DecodedTwice(a: string, n: Name, b: string)
    requires '&' !in a && '&' !in b
    ensures HtmlDecode(a + ("&amp;" + (Written(n)[1..] + b))) == a + ([Meant(n)] + b)
  {
    AmpOnce(a, n, b);
    OneEntity(a, n, b);
    hide Replace, DecodeRest, Written;
  }

  lemma AmpOnce(a: string, n: Name, b: string)
    requires '&' !in a && '&' !in b
    ensures Replace(a + ("&amp;" + (Written(n)[1..] + b)), "&amp;", "&") == a + (Written(n) + b)
  {
    var e := Written(n);
    NotAmp(n);
    hide Replace, Written;
    NoAmpIn(e, b);
    OneAmp(a, e[1..] + b);
    assert "&" + (e[1..] + b) == e + b;
  }

  lemma OneAmp(a: string, tail: string)
    requires '&' !in a && '&' !in tail
    ensures Replace(a + ("&amp;" + tail), "&amp;", "&") == a + ("&" + tail)
  {
    hide Replace;
    ReplaceSkipsText(a, "&amp;" + tail, "&amp;", "&");
    ReplaceHit(tail, "&amp;", "&");
    TailKept(tail);
  }

  lemma TailKept(tail: string)
    requires '&' !in tail
    ensures Replace(tail, "&amp;", "&") == tail
  {
    ReplaceSkipsText(tail, "", "&amp;", "&");
    NothingReplaced();
    assert tail + "" == tail;
  }

  lemma NothingReplaced()
    ensures Replace("", "&amp;", "&") == ""
  {}

  lemma NoAmpIn(e: string, b: string)
    requires Entity(e) && '&' !in b
    ensures '&' !in e[1..] + b
  {}

  lemma OneEntity(a: string, n: Name, b: string)
    requires '&' !in a && '&' !in b
    ensures DecodeRest(a + (Written(n) + b), 0) == a + ([Meant(n)] + b)
  {
    var ps := (if a == "" then [] else [Plain(a)]) + [Coded(n)] + (if b == "" then [] else [Plain(b)]);
    OneEntityText(a, n, b, 0);
    OneEntityText(a, n, b, 6);
    AllCoded(ps);
    hide Text, DecodeRest, Apart, Meaning;
    DecodeAll(ps);
  }

  lemma OneEntityText(a: string, n: Name, b: string, k: nat)
    requires '&' !in a && '&' !in b
    ensures var ps := (if a == "" then [] else [Plain(a)]) + [Coded(n)] + (if b == "" then [] else [Plain(b)]);
      Apart(ps) && Text(ps, k, "&") == a + ((if Place(n) < k then [Meant(n)] else Written(n)) + b)
  {
    var end: seq<Piece> := if b == "" then [] else [Plain(b)];
    var mid := [Coded(n)] + end;
    var ps := (if a == "" then [] else [Plain(a)]) + mid;
    assert mid[1..] == end;
    assert end != [] ==> end[1..] == [];
    assert Text(end, k, "&") == b + "" == b;
    assert Apart(end) && Apart(mid);
    assert a != "" ==> ps[1..] == mid;
    assert a == "" ==> ps == mid;
  }
}
