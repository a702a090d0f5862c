/** The block matchers of the template engine (`parse_if_block` and `parse_range_block` in
    template.rs), and what the bodies they cut out are in terms of the tags of the text. */
module TemplateBlocks {
  import opened Wrappers
  import opened Strings

  // ----- A text as its tags -----

  function PrintTag(raw: string): string {
    "{{" + raw + "}}"
  }

  datatype NextTag = NoTag | Unclosed | Tagged(lit: string, raw: string, rest: string)

  /** The first `{{`, and the first `}}` after it. */
  function FindTag(s: string): (t: NextTag)
    ensures t.Tagged? ==> s == t.lit + PrintTag(t.raw) + t.rest
  {
    match Find(s, "{{")
    case None => NoTag
    case Some(i) =>
      var after := s[i + 2..];
      match Find(after, "}}")
      case None => Unclosed
      case Some(j) =>
        CutAtClose(after, j);
        Around(s, "{{", i);
        TagText(s[..i], after[..j], after[j + 2..]);
        Tagged(s[..i], after[..j], after[j + 2..])
  }

  lemma TagText(lit: string, raw: string, rest: string)
    ensures lit + "{{" + (raw + "}}" + rest) == lit + PrintTag(raw) + rest
  {
    Nest(lit, "{{", raw, "}}", rest);
  }

  lemma Nest(a: string, b: string, c: string, d: string, e: string)
    ensures a + b + (c + d + e) == a + (b + c + d) + e
  {}

  /** The first "}}" after the tag's text is the one that closes the tag. */
  predicate CleanRaw(raw: string) {
    Find(raw + "}}", "}}") == Some(|raw|)
  }

  /** Whether a "}}" ends before index `j` does not depend on what follows. */
  lemma CutAtClose(s: string, j: nat)
    requires Find(s, "}}") == Some(j)
    ensures CleanRaw(s[..j]) && s == s[..j] + "}}" + s[j + 2..]
  {
    var t := s[..j] + "}}";
    forall k | 0 <= k < j ensures !At(t, "}}", k) {
      AtPair(t, '}', '}', k);
      AtPair(s, '}', '}', k);
    }
    assert t[j..j + 2] == "}}";
    FindsAt(t, "}}", j);
    Around(s, "}}", j);
  }

  /** A tag with the literal text before it. */
  datatype Seg = Seg(lit: string, raw: string)

  /** All tags of a text, from the left. */
  function Segs(s: string): seq<Seg>
    decreases |s|
  {
    match FindTag(s)
    case Tagged(lit, raw, rest) => [Seg(lit, raw)] + Segs(rest)
    case _ => []
  }

  lemma {:induction false} SegsClean(s: string, i: nat)
    requires i < |Segs(s)|
    ensures CleanRaw(Segs(s)[i].raw)
    decreases |s|
  {
    hide FindTag, CleanRaw;
    if i == 0 {
      TagClean(s);
    } else {
      SegsClean(FindTag(s).rest, i - 1);
    }
  }

  lemma TagClean(s: string)
    requires FindTag(s).Tagged?
    ensures CleanRaw(FindTag(s).raw)
  {
    hide CleanRaw, Find;
    var after := s[Find(s, "{{").value + 2..];
    CutAtClose(after, Find(after, "}}").value);
  }

  /** What follows the last closed tag. */
  function Tail(s: string): string
    decreases |s|
  {
    match FindTag(s)
    case Tagged(_, _, rest) => Tail(rest)
    case _ => s
  }

  function Flat(segs: seq<Seg>): string {
    if segs == [] then "" else segs[0].lit + PrintTag(segs[0].raw) + Flat(segs[1..])
  }

  lemma {:induction false} FlatConcat(a: seq<Seg>, b: seq<Seg>)
    ensures Flat(a + b) == Flat(a) + Flat(b)
  {
    if a == [] {
      assert a + b == b;
    } else {
      assert (a + b)[1..] == a[1..] + b;
      FlatConcat(a[1..], b);
    }
  }

  lemma {:induction false} TextIsItsTags(s: string)
    ensures s == Flat(Segs(s)) + Tail(s)
    decreases |s|
  {
    match FindTag(s)
    case Tagged(lit, raw, rest) =>
      TextIsItsTags(rest);
      assert Segs(s)[1..] == Segs(rest);
    case _ =>
  }

  // ----- Nesting -----

  datatype Kind = IfOpener | RangeOpener | ElseTag | EndTag | Other

  function KindOf(raw: string): Kind {
    var tag := Trim(raw);
    if "if " <= tag then IfOpener
    else if "range " <= tag then RangeOpener
    else if tag == "else" then ElseTag
    else if tag == "end" then EndTag
    else Other
  }

  lemma KindNames(raw: string)
    ensures var tag := Trim(raw);
      && (KindOf(raw) == IfOpener <==> "if " <= tag)
      && (KindOf(raw) == RangeOpener <==> "range " <= tag)
      && (KindOf(raw) == ElseTag <==> tag == "else")
      && (KindOf(raw) == EndTag <==> tag == "end")
  {
    var tag := Trim(raw);
    assert tag != "" ==> tag[0] in tag;
  }

  /** How a tag changes the nesting depth; only the range matcher counts `range` as an opener. */
  function DepthStep(raw: string, ranges: bool): int {
    match KindOf(raw)
    case IfOpener => 1
    case RangeOpener => if ranges then 1 else 0
    case EndTag => -1
    case _ => 0
  }

  function Net(segs: seq<Seg>, ranges: bool): int {
    if segs == [] then 0 else DepthStep(segs[0].raw, ranges) + Net(segs[1..], ranges)
  }

  lemma {:induction false} NetConcat(a: seq<Seg>, b: seq<Seg>, ranges: bool)
    ensures Net(a + b, ranges) == Net(a, ranges) + Net(b, ranges)
  {
    if a == [] {
      assert a + b == b;
    } else {
      assert (a + b)[1..] == a[1..] + b;
      NetConcat(a[1..], b, ranges);
    }
  }

  /** The tags before number `n` never close more blocks than they open. */
  predicate NeverBelow(segs: seq<Seg>, n: nat, ranges: bool)
    requires n <= |segs|
  {
    forall j :: 0 <= j <= n ==> Net(segs[..j], ranges) >= 0
  }

  /** Tag number `k` closes the block that is open where the text starts: the tags before it form
      a balanced word. */
  predicate ClosesAt(segs: seq<Seg>, k: nat, ranges: bool) {
    k < |segs| && NeverBelow(segs, k, ranges) && Net(segs[..k + 1], ranges) == -1
  }

  function CloseIndex(segs: seq<Seg>, depth: nat, ranges: bool): Option<nat>
    requires depth > 0
  {
    if segs == [] then None
    else
      var d := depth + DepthStep(segs[0].raw, ranges);
      if d == 0 then Some(0)
      else
        match CloseIndex(segs[1..], d, ranges)
        case None => None
        case Some(k) => Some(k + 1)
  }

  ghost predicate ClosesFrom(segs: seq<Seg>, depth: nat, k: nat, ranges: bool) {
    && k < |segs|
    && (forall j :: 0 <= j <= k ==> depth + Net(segs[..j], ranges) > 0)
    && depth + Net(segs[..k + 1], ranges) == 0
  }

  lemma NetPrefix(segs: seq<Seg>, j: nat, ranges: bool)
    requires 1 <= j <= |segs|
    ensures Net(segs[..j], ranges) == DepthStep(segs[0].raw, ranges) + Net(segs[1..][..j - 1], ranges)
  {
    assert segs[..j][1..] == segs[1..][..j - 1];
  }

  lemma ClosesFromCons(segs: seq<Seg>, depth: nat, k: nat, ranges: bool)
    requires segs != [] && depth > 0
    ensures var d := depth + DepthStep(segs[0].raw, ranges);
      ClosesFrom(segs, depth, k, ranges) <==>
      if k == 0 then d == 0 else d > 0 && ClosesFrom(segs[1..], d, k - 1, ranges)
  {
    var d, rest := depth + DepthStep(segs[0].raw, ranges), segs[1..];
    forall j | 1 <= j <= |segs| ensures depth + Net(segs[..j], ranges) == d + Net(rest[..j - 1], ranges) {
      NetPrefix(segs, j, ranges);
    }
    assert segs[..0] == [] && rest[..0] == [];
    assert depth + Net(segs[..1], ranges) == d;
    if k > 0 && d > 0 && ClosesFrom(rest, d, k - 1, ranges) {
      forall j | 0 <= j <= k ensures depth + Net(segs[..j], ranges) > 0 {
        assert j > 0 ==> d + Net(rest[..j - 1], ranges) > 0;
      }
    }
    if k > 0 && ClosesFrom(segs, depth, k, ranges) {
      forall j | 0 <= j <= k - 1 ensures d + Net(rest[..j], ranges) > 0 {
        assert depth + Net(segs[..j + 1], ranges) > 0;
      }
    }
  }

  lemma {:induction false} CloseIndexFrom(segs: seq<Seg>, depth: nat, ranges: bool, k: nat)
    requires depth > 0
    ensures CloseIndex(segs, depth, ranges) == Some(k) <==> ClosesFrom(segs, depth, k, ranges)
  {
    if segs != [] {
      ClosesFromCons(segs, depth, k, ranges);
      var d := depth + DepthStep(segs[0].raw, ranges);
      if d > 0 && k > 0 {
        CloseIndexFrom(segs[1..], d, ranges, k - 1);
      }
    }
  }

  /** The matcher's choice is exact: it closes at the first tag that brings the depth to zero, and
      fails only when there is none. */
  lemma CloseIndexExact(segs: seq<Seg>, ranges: bool)
    ensures forall k: nat :: CloseIndex(segs, 1, ranges) == Some(k) <==> ClosesAt(segs, k, ranges)
  {
    forall k: nat ensures CloseIndex(segs, 1, ranges) == Some(k) <==> ClosesAt(segs, k, ranges) {
      CloseIndexFrom(segs, 1, ranges, k);
      if ClosesAt(segs, k, ranges) {
        forall j | 0 <= j <= k ensures 1 + Net(segs[..j], ranges) > 0 {
        }
      }
      if ClosesFrom(segs, 1, k, ranges) {
        forall j | 0 <= j <= k ensures Net(segs[..j], ranges) >= 0 {
          assert 1 + Net(segs[..j], ranges) > 0;
        }
      }
    }
  }

  predicate OwnElse(segs: seq<Seg>, e: nat)
    requires e < |segs|
  {
    KindOf(segs[e].raw) == ElseTag && Net(segs[..e], false) == 0
  }

  lemma OwnElsePrefix(segs: seq<Seg>, m: nat)
    requires m <= |segs|
    ensures forall j :: 0 <= j < m ==> (OwnElse(segs[..m], j) <==> OwnElse(segs, j))
  {
    forall j | 0 <= j < m ensures OwnElse(segs[..m], j) <==> OwnElse(segs, j) {
      assert segs[..m][..j] == segs[..j];
    }
  }

  /** The last `else` that belongs to the block itself. */
  function LastElse(segs: seq<Seg>): (r: Option<nat>)
    ensures r.Some? ==> r.value < |segs| && OwnElse(segs, r.value)
    ensures forall j :: (if r.Some? then r.value else -1) < j < |segs| ==> !OwnElse(segs, j)
  {
    if segs == [] then None
    else
      var m := |segs| - 1;
      OwnElsePrefix(segs, m);
      if OwnElse(segs, m) then Some(m) else LastElse(segs[..m])
  }

  // ----- The blocks -----

  datatype IfBlock = IfBlock(ifBody: string, elseBody: Option<string>, rest: string)

  datatype RangeBlock = RangeBlock(body: string, rest: string)

  function IfBlockOf(s: string): Option<IfBlock> {
    var segs := Segs(s);
    match CloseIndex(segs, 1, false)
    case None => None
    case Some(k) =>
      CloseIndexExact(segs, false);
      var inside, rest := segs[..k], Flat(segs[k + 1..]) + Tail(s);
      match LastElse(inside)
      case None => Some(IfBlock(Flat(inside) + segs[k].lit, None, rest))
      case Some(e) =>
        Some(IfBlock(Flat(inside[..e]) + inside[e].lit, Some(Flat(inside[e + 1..]) + segs[k].lit), rest))
  }

  function RangeBlockOf(s: string): Option<RangeBlock> {
    var segs := Segs(s);
    match CloseIndex(segs, 1, true)
    case None => None
    case Some(k) =>
      CloseIndexExact(segs, true);
      Some(RangeBlock(Flat(segs[..k]) + segs[k].lit, Flat(segs[k + 1..]) + Tail(s)))
  }

  lemma Regroup(a: string, b: string, c: string, d: string)
    ensures a + (b + c + d) == a + b + c + d == a + b + (c + d)
  {}

  lemma FlatCons(g: Seg, more: seq<Seg>)
    ensures Flat([g] + more) == g.lit + PrintTag(g.raw) + Flat(more)
  {
    assert ([g] + more)[1..] == more;
  }

  lemma FlatMiddle(a: seq<Seg>, g: Seg, b: seq<Seg>)
    ensures Flat(a + ([g] + b)) == Flat(a) + g.lit + PrintTag(g.raw) + Flat(b)
  {
    FlatConcat(a, [g] + b);
    FlatCons(g, b);
    Regroup(Flat(a), g.lit, PrintTag(g.raw), Flat(b));
  }

  lemma SplitAt(segs: seq<Seg>, k: nat)
    requires k < |segs|
    ensures Flat(segs) == Flat(segs[..k]) + segs[k].lit + PrintTag(segs[k].raw) + Flat(segs[k + 1..])
  {
    hide Flat, PrintTag;
    Parts(segs, k);
    FlatMiddle(segs[..k], segs[k], segs[k + 1..]);
  }

  lemma Parts(segs: seq<Seg>, k: nat)
    requires k < |segs|
    ensures segs == segs[..k] + ([segs[k]] + segs[k + 1..])
  {}

  /** The text a block consumes is exactly its body, the `else` tag and body if there is one, and
      the `end` tag. */
  predicate IfBlockCovers(s: string, b: IfBlock, elseRaw: string, endRaw: string) {
    && Trim(endRaw) == "end"
    && match b.elseBody
       case None => s == b.ifBody + PrintTag(endRaw) + b.rest
       case Some(elseBody) =>
         && Trim(elseRaw) == "else"
         && s == b.ifBody + PrintTag(elseRaw) + elseBody + PrintTag(endRaw) + b.rest
  }

  lemma IfBlockText(s: string)
    requires IfBlockOf(s).Some?
    ensures exists elseRaw, endRaw :: IfBlockCovers(s, IfBlockOf(s).value, elseRaw, endRaw)
  {
    hide KindOf, Flat, FindTag, PrintTag;
    var segs := Segs(s);
    CloseIndexExact(segs, false);
    var k := CloseIndex(segs, 1, false).value;
    ClosingTagIsEnd(segs, k, false);
    KindNames(segs[k].raw);
    WholeText(s, k);
    var inside := segs[..k];
    match LastElse(inside)
    case None =>
      assert IfBlockCovers(s, IfBlockOf(s).value, "", segs[k].raw);
    case Some(e) =>
      KindNames(inside[e].raw);
      SplitAt(inside, e);
      Regroup6(Flat(inside[..e]) + inside[e].lit, PrintTag(inside[e].raw), Flat(inside[e + 1..]), segs[k].lit,
               PrintTag(segs[k].raw), Flat(segs[k + 1..]) + Tail(s));
      assert IfBlockCovers(s, IfBlockOf(s).value, inside[e].raw, segs[k].raw);
  }

  lemma Regroup6(a: string, b: string, c: string, d: string, e: string, f: string)
    ensures a + b + c + d + e + f == a + b + (c + d) + e + f
  {}

  lemma WholeText(s: string, k: nat)
    requires k < |Segs(s)|
    ensures var segs := Segs(s);
      s == Flat(segs[..k]) + segs[k].lit + PrintTag(segs[k].raw) + (Flat(segs[k + 1..]) + Tail(s))
  {
    var segs := Segs(s);
    TextIsItsTags(s);
    SplitAt(segs, k);
    Regroup(Flat(segs[..k]) + segs[k].lit, PrintTag(segs[k].raw), Flat(segs[k + 1..]), Tail(s));
  }

  predicate RangeBlockCovers(s: string, b: RangeBlock, endRaw: string) {
    Trim(endRaw) == "end" && s == b.body + PrintTag(endRaw) + b.rest
  }

  lemma RangeBlockText(s: string)
    requires RangeBlockOf(s).Some?
    ensures exists endRaw :: RangeBlockCovers(s, RangeBlockOf(s).value, endRaw)
  {
    var segs := Segs(s);
    CloseIndexExact(segs, true);
    var k := CloseIndex(segs, 1, true).value;
    ClosingTagIsEnd(segs, k, true);
    WholeText(s, k);
    assert RangeBlockCovers(s, RangeBlockOf(s).value, segs[k].raw);
  }

  lemma ClosingTagIsEnd(segs: seq<Seg>, k: nat, ranges: bool)
    requires ClosesAt(segs, k, ranges)
    ensures KindOf(segs[k].raw) == EndTag
  {
    assert segs[..k + 1] == segs[..k] + [segs[k]];
    NetConcat(segs[..k], [segs[k]], ranges);
    assert Net(segs[..k], ranges) >= 0;
  }

  // ----- The loops -----

  lemma FlatSnoc(done: seq<Seg>, g: Seg, rest: string)
    ensures Flat(done + [g]) + rest == Flat(done) + (g.lit + PrintTag(g.raw) + rest)
  {
    FlatMiddle(done, g, []);
    assert [g] + [] == [g];
    var a, b, c := Flat(done), g.lit, PrintTag(g.raw);
    assert Flat(done + [g]) == a + b + c;
    Regroup(a, b, c, rest);
  }

  lemma SegsCons(at: string, g: Seg, rest: string)
    requires FindTag(at) == Tagged(g.lit, g.raw, rest)
    ensures Segs(at) == [g] + Segs(rest) && Tail(at) == Tail(rest) && at == g.lit + PrintTag(g.raw) + rest
  {}

  lemma NextSeg(s: string, done: seq<Seg>, at: string, g: Seg, rest: string)
    requires Segs(s) == done + Segs(at) && s == Flat(done) + at && Tail(s) == Tail(at)
    requires FindTag(at) == Tagged(g.lit, g.raw, rest)
    ensures Segs(s) == done + [g] + Segs(rest) && Tail(s) == Tail(rest)
    ensures s == Flat(done + [g]) + rest && at == g.lit + PrintTag(g.raw) + rest
  {
    hide Segs, Tail, Flat, FindTag, PrintTag;
    SegsCons(at, g, rest);
    FlatSnoc(done, g, rest);
    assert done + ([g] + Segs(rest)) == done + [g] + Segs(rest);
  }

  lemma NetSnoc(done: seq<Seg>, g: Seg, ranges: bool)
    ensures Net(done + [g], ranges) == Net(done, ranges) + DepthStep(g.raw, ranges)
    ensures NeverBelow(done, |done|, ranges) && Net(done + [g], ranges) >= 0
      ==> NeverBelow(done + [g], |done| + 1, ranges)
    ensures NeverBelow(done, |done|, ranges) && Net(done + [g], ranges) == -1
      ==> forall more :: ClosesAt(done + [g] + more, |done|, ranges)
  {
    NetConcat(done, [g], ranges);
    assert Net([g], ranges) == DepthStep(g.raw, ranges) + Net([g][1..], ranges);
    hide Net, DepthStep;
    if NeverBelow(done, |done|, ranges) && Net(done + [g], ranges) >= 0 {
      forall j | 0 <= j <= |done| + 1 ensures Net((done + [g])[..j], ranges) >= 0 {
        PrefixOfSnoc(done, g, [], j);
      }
    }
    if NeverBelow(done, |done|, ranges) && Net(done + [g], ranges) == -1 {
      forall more: seq<Seg> ensures ClosesAt(done + [g] + more, |done|, ranges) {
        PrefixOfSnoc(done, g, more, |done| + 1);
        forall j | 0 <= j <= |done| ensures Net((done + [g] + more)[..j], ranges) >= 0 {
          PrefixOfSnoc(done, g, more, j);
        }
      }
    }
  }

  lemma PrefixOfSnoc(done: seq<Seg>, g: Seg, more: seq<Seg>, j: nat)
    requires j <= |done| + 1
    ensures (done + [g])[..j] == (done + [g] + more)[..j] == if j <= |done| then done[..j] else done + [g]
  {}

  lemma NotClosed(done: seq<Seg>, ranges: bool)
    requires NeverBelow(done, |done|, ranges)
    ensures CloseIndex(done, 1, ranges) == None
  {
    CloseIndexExact(done, ranges);
    forall k: nat ensures !ClosesAt(done, k, ranges) {
      assert k < |done| ==> Net(done[..k + 1], ranges) >= 0;
    }
  }

  /** The slices the loops take are the next tag. */
  lemma TagSlices(t: string, pos: nat, i: nat, j: nat)
    requires pos <= |t| && Find(t[pos..], "{{") == Some(i)
    requires pos + i + 2 <= |t| && Find(t[pos + i + 2..], "}}") == Some(j)
    ensures pos + i + j + 4 <= |t|
    ensures FindTag(t[pos..]) == Tagged(t[pos..pos + i], t[pos + i + 2..pos + i + 2 + j], t[pos + i + j + 4..])
  {
    assert t[pos..][i + 2..] == t[pos + i + 2..];
    assert t[pos..][..i] == t[pos..pos + i];
    assert t[pos + i + 2..][..j] == t[pos + i + 2..pos + i + 2 + j];
    assert t[pos + i + 2..][j + 2..] == t[pos + i + j + 4..];
  }

  lemma NoTagSlices(t: string, pos: nat)
    requires pos <= |t|
    requires match Find(t[pos..], "{{")
      case None => true
      case Some(i) => Find(t[pos + i + 2..], "}}") == None
    ensures Segs(t[pos..]) == []
  {
    hide Find, Segs;
    NoTags(t[pos..]);
    match Find(t[pos..], "{{")
    case None =>
    case Some(i) => assert t[pos..][i + 2..] == t[pos + i + 2..];
  }

  lemma NoTags(s: string)
    ensures match Find(s, "{{")
      case None => Segs(s) == []
      case Some(i) => Find(s[i + 2..], "}}") == None ==> Segs(s) == []
  {
    hide Find;
  }

  /** The block that a matching `end` tag `g` closes, in terms of the tags before it. */
  lemma IfBlockAtEnd(s: string, done: seq<Seg>, g: Seg, rest: string)
    requires Segs(s) == done + [g] + Segs(rest) && Tail(s) == Tail(rest)
    requires NeverBelow(done, |done|, false) && Net(done + [g], false) == -1
    ensures IfBlockOf(s) == Some(
      match LastElse(done)
      case None => IfBlock(Flat(done) + g.lit, None, rest)
      case Some(e) => IfBlock(Flat(done[..e]) + done[e].lit, Some(Flat(done[e + 1..]) + g.lit), rest))
  {
    NetSnoc(done, g, false);
    CloseIndexExact(Segs(s), false);
    assert ClosesAt(done + [g] + Segs(rest), |done|, false);
    assert Segs(s)[..|done|] == done && Segs(s)[|done| + 1..] == Segs(rest);
    TextIsItsTags(rest);
  }

  lemma RangeBlockAtEnd(s: string, done: seq<Seg>, g: Seg, rest: string)
    requires Segs(s) == done + [g] + Segs(rest) && Tail(s) == Tail(rest)
    requires NeverBelow(done, |done|, true) && Net(done + [g], true) == -1
    ensures RangeBlockOf(s) == Some(RangeBlock(Flat(done) + g.lit, rest))
  {
    NetSnoc(done, g, true);
    CloseIndexExact(Segs(s), true);
    assert ClosesAt(done + [g] + Segs(rest), |done|, true);
    assert Segs(s)[..|done|] == done && Segs(s)[|done| + 1..] == Segs(rest);
    TextIsItsTags(rest);
  }

  lemma SlicesOf(t: string, start: nat, a: string, b: string)
    requires start <= |t| && t[start..] == a + b
    ensures start + |a| <= |t| && t[start..start + |a|] == a && t[start + |a|..] == b
  {
    assert t[start..][..|a|] == a;
    assert t[start..][|a|..] == b;
  }

  /** The pieces the code cuts out around the remembered `else` tag: the search for the `}}` of
      that tag succeeds and ends before the closing tag. */
  lemma ElseSlices(t: string, start: nat, done: seq<Seg>, e: nat, lit: string, rest: string)
    requires start <= |t| && t[start..] == Flat(done) + lit + rest
    requires e < |done| && CleanRaw(done[e].raw)
    ensures var head := Flat(done[..e]) + done[e].lit; var body := Flat(done[e + 1..]) + lit;
      var ep := start + |head|; var endAt := start + |Flat(done)| + |lit|;
      && ep <= |t| && endAt <= |t| && t[start..ep] == head
      && Find(t[ep..], "}}").Some?
      && ep + Find(t[ep..], "}}").value + 2 <= endAt
      && t[ep + Find(t[ep..], "}}").value + 2..endAt] == body
  {
    hide Flat, CleanRaw, PrintTag;
    SplitAt(done, e);
    ElsePieces(t, start, Flat(done[..e]) + done[e].lit, done[e].raw, Flat(done[e + 1..]), lit, rest);
  }

  lemma ElsePieces(t: string, start: nat, head: string, raw: string, body: string, lit: string, rest: string)
    requires start <= |t| && t[start..] == head + PrintTag(raw) + body + lit + rest && CleanRaw(raw)
    ensures var ep := start + |head|; var endAt := ep + |PrintTag(raw)| + |body| + |lit|;
      && ep + |raw| + 4 <= endAt <= |t| && t[start..ep] == head
      && Find(t[ep..], "}}") == Some(|raw| + 2)
      && t[ep + |raw| + 4..endAt] == body + lit
  {
    var tag, inside := PrintTag(raw), body + lit;
    assert |tag| == |raw| + 4;
    hide Find, CleanRaw, PrintTag;
    assert head + tag + body + lit + rest == head + (tag + (inside + rest));
    SlicesOf(t, start, head, tag + (inside + rest));
    SlicesOf(t, start + |head|, tag, inside + rest);
    SlicesOf(t, start + |head| + |tag|, inside, rest);
    FirstClose(raw, inside + rest);
  }

  /** Searched from the start of a tag, "}}" is found at the tag's own end. */
  lemma FirstClose(raw: string, rest: string)
    requires CleanRaw(raw)
    ensures Find(PrintTag(raw) + rest, "}}") == Some(|raw| + 2)
  {
    var s, t := PrintTag(raw) + rest, raw + "}}";
    forall j | 0 <= j < |raw| + 2 ensures !At(s, "}}", j) {
      AtPair(s, '}', '}', j);
      if j >= 2 {
        AtPair(t, '}', '}', j - 2);
        assert !At(t, "}}", j - 2);
        assert s[j] == t[j - 2] && s[j + 1] == t[j - 1];
      }
    }
    assert s[|raw| + 2..|raw| + 4] == "}}";
    FindsAt(s, "}}", |raw| + 2);
  }

  /** Where the remembered `else` tag stands in the text. */
  ghost predicate ElsePosition(start: nat, done: seq<Seg>, elsePos: Option<nat>) {
    match LastElse(done)
    case None => elsePos == None
    case Some(e) => elsePos == Some(start + |Flat(done[..e])| + |done[e].lit|)
  }

  lemma ElseMoves(start: nat, done: seq<Seg>, g: Seg)
    ensures KindOf(g.raw) == ElseTag && Net(done, false) == 0 ==>
      ElsePosition(start, done + [g], Some(start + |Flat(done)| + |g.lit|))
    ensures !(KindOf(g.raw) == ElseTag && Net(done, false) == 0) ==>
      forall p :: ElsePosition(start, done, p) ==> ElsePosition(start, done + [g], p)
  {
    hide Flat, KindOf, Net;
    LastElseSnoc(done, g);
    assert (done + [g])[..|done|] == done;
    if LastElse(done).Some? {
      var e := LastElse(done).value;
      assert (done + [g])[..e] == done[..e];
    }
  }

  lemma LastElseSnoc(done: seq<Seg>, g: Seg)
    ensures LastElse(done + [g]) ==
      if KindOf(g.raw) == ElseTag && Net(done, false) == 0 then Some(|done|) else LastElse(done)
  {
    assert (done + [g])[..|done|] == done;
  }

  lemma CutBefore(t: string, start: nat, done: seq<Seg>, g: Seg, rest: string)
    requires start <= |t| && t[start..] == Flat(done) + (g.lit + PrintTag(g.raw) + rest)
    ensures var endAt := start + |Flat(done)| + |g.lit|;
      endAt <= |t| && t[start..endAt] == Flat(done) + g.lit
    ensures t[start..] == Flat(done) + g.lit + (PrintTag(g.raw) + rest)
  {
    Regroup(Flat(done), g.lit, PrintTag(g.raw), rest);
    SlicesOf(t, start, Flat(done) + g.lit, PrintTag(g.raw) + rest);
  }

  /** What the code returns at the matching `end`: the search for the "}}" of the remembered `else`
      tag cannot fail. */
  lemma IfBlockReturn(t: string, start: nat, done: seq<Seg>, g: Seg, rest: string, elsePos: Option<nat>)
    requires start <= |t|
    requires Segs(t[start..]) == done + [g] + Segs(rest) && Tail(t[start..]) == Tail(rest)
    requires NeverBelow(done, |done|, false) && Net(done + [g], false) == -1
    requires t[start..] == Flat(done) + (g.lit + PrintTag(g.raw) + rest)
    requires ElsePosition(start, done, elsePos)
    ensures var endAt := start + |Flat(done)| + |g.lit|;
      && endAt <= |t|
      && match elsePos
         case None => IfBlockOf(t[start..]) == Some(IfBlock(t[start..endAt], None, rest))
         case Some(ep) =>
           && start <= ep <= |t|
           && Find(t[ep..], "}}").Some?
           && ep + Find(t[ep..], "}}").value + 2 <= endAt
           && IfBlockOf(t[start..])
              == Some(IfBlock(t[start..ep], Some(t[ep + Find(t[ep..], "}}").value + 2..endAt]), rest))
  {
    hide Flat, Segs, Tail, PrintTag, Find, KindOf, Net, CleanRaw, IfBlockOf, LastElse;
    IfBlockAtEnd(t[start..], done, g, rest);
    CutBefore(t, start, done, g, rest);
    if elsePos.Some? {
      var e := LastElse(done).value;
      SegsClean(t[start..], e);
      ElseSlices(t, start, done, e, g.lit, PrintTag(g.raw) + rest);
    }
  }

  lemma NoBlock(s: string, done: seq<Seg>, ranges: bool)
    requires Segs(s) == done && NeverBelow(done, |done|, ranges)
    ensures if ranges then RangeBlockOf(s) == None else IfBlockOf(s) == None
  {
    NotClosed(done, ranges);
  }

  lemma NothingDone()
    ensures Flat([]) == "" && Net([], false) == Net([], true) == 0
    ensures NeverBelow([], 0, false) && NeverBelow([], 0, true)
    ensures Segs("") == []
    ensures forall start :: ElsePosition(start, [], None)
  {
    var none: seq<Seg> := [];
    assert none[..0] == [];
  }

  method ParseIfBlock(template: string, start: nat) returns (r: Option<(string, Option<string>, nat)>)
    requires start <= |template|
    ensures r.None? <==> IfBlockOf(template[start..]).None?
    ensures r.Some? ==>
      var (ifBody, elseBody, newPos) := r.value;
      && start < newPos <= |template|
      && IfBlockOf(template[start..]) == Some(IfBlock(ifBody, elseBody, template[newPos..]))
  {
    hide Flat, Segs, Tail, FindTag, PrintTag, Find, KindOf, Net, Trim, CleanRaw, IfBlockOf, LastElse, ElsePosition;
    var depth := 1;
    var pos := start;
    var elsePos: Option<nat> := None;
    ghost var s := template[start..];
    ghost var done: seq<Seg> := [];
    NothingDone();
    assert pos == |template| ==> template[pos..] == "";
    while pos < |template| && depth > 0
      invariant start <= pos <= |template|
      invariant Segs(s) == done + Segs(template[pos..]) && Tail(s) == Tail(template[pos..])
      invariant s == Flat(done) + template[pos..]
      invariant depth == 1 + Net(done, false) > 0
      invariant NeverBelow(done, |done|, false)
      invariant ElsePosition(start, done, elsePos)
      invariant pos < |template| || Segs(template[pos..]) == []
      decreases |template| - pos
    {
      var found := Find(template[pos..], "{{");
      if found.None? {
        NoTagSlices(template, pos);
        break;
      }
      var tagStart := found.value;
      var absStart := pos + tagStart + 2;
      var closing := Find(template[absStart..], "}}");
      if closing.None? {
        NoTagSlices(template, pos);
        break;
      }
      var absEnd := absStart + closing.value;
      var tag := Trim(template[absStart..absEnd]);
      TagSlices(template, pos, tagStart, closing.value);
      ghost var g := Seg(template[pos..pos + tagStart], template[absStart..absEnd]);
      ghost var rest := template[absEnd + 2..];
      KindNames(g.raw);
      NextSeg(s, done, template[pos..], g, rest);
      NetSnoc(done, g, false);
      if "if " <= tag {
        depth := depth + 1;
      } else if tag == "end" {
        depth := depth - 1;
        if depth == 0 {
          IfBlockReturn(template, start, done, g, rest, elsePos);
          if elsePos.Some? {
            var afterElse := Find(template[elsePos.value..], "}}").value + elsePos.value + 2;
            return Some((template[start..elsePos.value], Some(template[afterElse..pos + tagStart]), absEnd + 2));
          } else {
            return Some((template[start..pos + tagStart], None, absEnd + 2));
          }
        }
      } else if tag == "else" && depth == 1 {
        elsePos := Some(pos + tagStart);
      }
      ElseMoves(start, done, g);
      pos := absEnd + 2;
      done := done + [g];
      assert pos == |template| ==> template[pos..] == "";
    }
    NoBlock(s, done, false);
    return None;
  }

  method ParseRangeBlock(template: string, start: nat) returns (r: Option<(string, nat)>)
    requires start <= |template|
    ensures r.None? <==> RangeBlockOf(template[start..]).None?
    ensures r.Some? ==>
      var (body, newPos) := r.value;
      && start < newPos <= |template|
      && RangeBlockOf(template[start..]) == Some(RangeBlock(body, template[newPos..]))
  {
    hide Flat, Segs, Tail, FindTag, PrintTag, Find, KindOf, Net, Trim, CleanRaw, IfBlockOf, RangeBlockOf;
    var depth := 1;
    var pos := start;
    ghost var s := template[start..];
    ghost var done: seq<Seg> := [];
    NothingDone();
    assert pos == |template| ==> template[pos..] == "";
    while pos < |template| && depth > 0
      invariant start <= pos <= |template|
      invariant Segs(s) == done + Segs(template[pos..]) && Tail(s) == Tail(template[pos..])
      invariant s == Flat(done) + template[pos..]
      invariant depth == 1 + Net(done, true) > 0
      invariant NeverBelow(done, |done|, true)
      invariant pos < |template| || Segs(template[pos..]) == []
      decreases |template| - pos
    {
      var found := Find(template[pos..], "{{");
      if found.None? {
        NoTagSlices(template, pos);
        break;
      }
      var tagStart := found.value;
      var absStart := pos + tagStart + 2;
      var closing := Find(template[absStart..], "}}");
      if closing.None? {
        NoTagSlices(template, pos);
        break;
      }
      var absEnd := absStart + closing.value;
      var tag := Trim(template[absStart..absEnd]);
      TagSlices(template, pos, tagStart, closing.value);
      ghost var g := Seg(template[pos..pos + tagStart], template[absStart..absEnd]);
      ghost var rest := template[absEnd + 2..];
      KindNames(g.raw);
      NextSeg(s, done, template[pos..], g, rest);
      NetSnoc(done, g, true);
      if "range " <= tag || "if " <= tag {
        depth := depth + 1;
      } else if tag == "end" {
        depth := depth - 1;
        if depth == 0 {
          RangeBlockAtEnd(s, done, g, rest);
          CutBefore(template, start, done, g, rest);
          return Some((template[start..pos + tagStart], absEnd + 2));
        }
      }
      pos := absEnd + 2;
      done := done + [g];
      assert pos == |template| ==> template[pos..] == "";
    }
    NoBlock(s, done, true);
    return None;
  }
}
