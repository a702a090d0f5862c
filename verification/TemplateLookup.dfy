/** What the dotted paths of a template name: each path has one reading as a head and a field, and
    setting one value of the context changes exactly the paths that read it. */
module TemplateLookup {
  import opened Wrappers
  import opened Strings
  import opened TemplateContext
  import opened TemplateConditions
  import opened TemplateExpand
  import opened TemplateSyntax
  import opened TemplateMeaning

  // ----- How a path is read -----

  /** A path without its leading dots: a head, and a field after the first dot if there is one. */
  function Core(head: string, field: Option<string>): string {
    match field
    case None => head
    case Some(f) => head + "." + f
  }

  predicate Layout(path: string, lead: string, dots: string, core: string, trail: string) {
    && path == lead + (dots + core) + trail
    && Blank(lead) && Blank(trail) && Run(dots, '.')
    && (dots + core == "" || Trimmed(dots + core))
    && (core == "" || core[0] != '.')
  }

  /** Between blanks and after any dots, the path consists of `head` and `field`. */
  ghost predicate Reads(path: string, head: string, field: Option<string>) {
    && '.' !in head
    && exists lead, dots, trail :: Layout(path, lead, dots, Core(head, field), trail)
  }

  lemma ReadsCore(path: string, head: string, field: Option<string>)
    requires Reads(path, head, field)
    ensures StripStart(Trim(path), '.') == Core(head, field)
  {
    var core := Core(head, field);
    var lead, dots, trail :| Layout(path, lead, dots, core, trail);
    TrimsTo(lead, dots + core, trail);
    SkipsRun(dots, core, '.');
  }

  lemma CutsAtDot(head: string, field: Option<string>)
    requires '.' !in head
    ensures field.None? ==> Find(Core(head, field), ".").None?
    ensures field.Some? ==>
      var core := Core(head, field);
      Find(core, ".") == Some(|head|) && core[..|head|] == head && core[|head| + 1..] == field.value
  {
    var core := Core(head, field);
    forall j: nat | j < |head| ensures !At(core, ".", j) {
      assert core[j] == head[j];
    }
    if field.Some? {
      FindsAt(core, ".", |head|);
    } else {
      forall j: nat ensures !At(core, ".", j) {}
    }
  }

  /** Every string is a path with exactly one reading. */
  lemma OneReading(path: string) returns (head: string, field: Option<string>)
    ensures Reads(path, head, field)
    ensures forall h, f :: Reads(path, h, f) ==> h == head && f == field
  {
    var lead := TrimStartParts(path);
    var trail := TrimEndParts(TrimStart(path));
    var t := Trim(path);
    var dots := RunParts(t, '.');
    var core := StripStart(t, '.');
    head, field := Cut(core);
    assert path == lead + (dots + core) + trail;
    assert t != "" ==> t[0] == TrimStart(path)[0];
    assert Layout(path, lead, dots, Core(head, field), trail);
    forall h, f | Reads(path, h, f) ensures h == head && f == field {
      ReadsCore(path, h, f);
      ReadsCore(path, head, field);
      CutsAtDot(h, f);
      CutsAtDot(head, field);
    }
  }

  lemma Cut(core: string) returns (head: string, field: Option<string>)
    ensures core == Core(head, field) && '.' !in head
  {
    forall i | 0 <= i < |core| ensures At(core, ".", i) <==> core[i] == '.' {}
    match Find(core, ".") {
      case None =>
        head, field := core, None;
      case Some(dot) =>
        head, field := core[..dot], Some(core[dot + 1..]);
        Around(core, ".", dot);
    }
  }

  // ----- What a path names -----

  /** The single values of a context. */
  datatype Slot =
    | Config(key: string) | Result(key: string) | Keywords
    | ImdbId | TvdbId | TmdbId | Season | Episode | Album | Artist | RecordLabel | Track | QueryYear
    | Year | Month | Day

  function Put(ctx: Context, slot: Slot, v: string): Context {
    match slot
    case Config(key) => ctx.(config := ctx.config[key := v])
    case Result(key) => ctx.(result := ctx.result[key := v])
    case Keywords => ctx.(keywords := v)
    case ImdbId => ctx.(query := ctx.query.(imdbid := v))
    case TvdbId => ctx.(query := ctx.query.(tvdbid := v))
    case TmdbId => ctx.(query := ctx.query.(tmdbid := v))
    case Season => ctx.(query := ctx.query.(season := v))
    case Episode => ctx.(query := ctx.query.(ep := v))
    case Album => ctx.(query := ctx.query.(album := v))
    case Artist => ctx.(query := ctx.query.(artist := v))
    case RecordLabel => ctx.(query := ctx.query.(recordLabel := v))
    case Track => ctx.(query := ctx.query.(track := v))
    case QueryYear => ctx.(query := ctx.query.(year := v))
    case Year => ctx.(today := ctx.today.(year := v))
    case Month => ctx.(today := ctx.today.(month := v))
    case Day => ctx.(today := ctx.today.(day := v))
  }

  /** The names of a field of `.Query` or `.Today`. */
  function FieldNames(slot: Slot): set<string> {
    match slot
    case ImdbId => {"imdbid"}
    case TvdbId => {"tvdbid"}
    case TmdbId => {"tmdbid"}
    case Season => {"season"}
    case Episode => {"ep", "episode"}
    case Album => {"album"}
    case Artist => {"artist"}
    case RecordLabel => {"label"}
    case Track => {"track"}
    case QueryYear => {"year"}
    case Year => {"year"}
    case Month => {"month"}
    case Day => {"day"}
    case _ => {}
  }

  predicate Named(slot: Slot, head: string, field: Option<string>) {
    match slot
    case Config(key) => SameLetters(head, "config") && field == Some(key)
    case Result(key) => SameLetters(head, "result") && field == Some(key)
    case Keywords => SameLetters(head, "keywords")
    case _ =>
      && SameLetters(head, if slot.Year? || slot.Month? || slot.Day? then "today" else "query")
      && field.Some?
      && exists name <- FieldNames(slot) :: SameLetters(field.value, name)
  }

  /** The path names the value, in whatever letter case. */
  ghost predicate Names(slot: Slot, path: string) {
    exists head, field :: Reads(path, head, field) && Named(slot, head, field)
  }

  /** The path has this head, in whatever letter case. */
  ghost predicate Heads(path: string, word: string) {
    exists head, field :: Reads(path, head, field) && SameLetters(head, word)
  }

  lemma HeadWords(head: string)
    ensures Lower(head) == "config" <==> SameLetters(head, "config")
    ensures Lower(head) == "keywords" <==> SameLetters(head, "keywords")
    ensures Lower(head) == "categories" <==> SameLetters(head, "categories")
    ensures Lower(head) == "query" <==> SameLetters(head, "query")
    ensures Lower(head) == "result" <==> SameLetters(head, "result")
    ensures Lower(head) == "true" <==> SameLetters(head, "true")
    ensures Lower(head) == "false" <==> SameLetters(head, "false")
    ensures Lower(head) == "today" <==> SameLetters(head, "today")
  {
    hide Lower, SameLetters;
    LowerIs(head, "config");
    LowerIs(head, "keywords");
    LowerIs(head, "categories");
    LowerIs(head, "query");
    LowerIs(head, "result");
    LowerIs(head, "true");
    LowerIs(head, "false");
    LowerIs(head, "today");
  }

  lemma TodayWords(field: string)
    ensures Lower(field) == "year" <==> SameLetters(field, "year")
    ensures Lower(field) == "month" <==> SameLetters(field, "month")
    ensures Lower(field) == "day" <==> SameLetters(field, "day")
  {
    LowerIs(field, "year");
    LowerIs(field, "month");
    LowerIs(field, "day");
  }

  lemma QueryWords(field: string)
    ensures Upper(field) == "IMDBID" <==> SameLetters(field, "imdbid")
    ensures Upper(field) == "TVDBID" <==> SameLetters(field, "tvdbid")
    ensures Upper(field) == "TMDBID" <==> SameLetters(field, "tmdbid")
    ensures Upper(field) == "SEASON" <==> SameLetters(field, "season")
    ensures Upper(field) == "EP" <==> SameLetters(field, "ep")
    ensures Upper(field) == "EPISODE" <==> SameLetters(field, "episode")
    ensures Upper(field) == "ALBUM" <==> SameLetters(field, "album")
    ensures Upper(field) == "ARTIST" <==> SameLetters(field, "artist")
    ensures Upper(field) == "LABEL" <==> SameLetters(field, "label")
    ensures Upper(field) == "TRACK" <==> SameLetters(field, "track")
    ensures Upper(field) == "YEAR" <==> SameLetters(field, "year")
  {
    hide Upper, SameLetters;
    UpperIs(field, "imdbid", "IMDBID");
    UpperIs(field, "tvdbid", "TVDBID");
    UpperIs(field, "tmdbid", "TMDBID");
    UpperIs(field, "season", "SEASON");
    UpperIs(field, "ep", "EP");
    UpperIs(field, "episode", "EPISODE");
    UpperIs(field, "album", "ALBUM");
    UpperIs(field, "artist", "ARTIST");
    UpperIs(field, "label", "LABEL");
    UpperIs(field, "track", "TRACK");
    UpperIs(field, "year", "YEAR");
  }

  // ----- The laws of the lookup -----

  /** The branch that a reading selects, as the name it is spelled with. */
  function Value(ctx: Context, head: string, field: Option<string>): string {
    if SameLetters(head, "keywords") then ctx.keywords
    else if SameLetters(head, "categories") then Join(ctx.categories, ",")
    else if SameLetters(head, "true") then "true"
    else if SameLetters(head, "false") then "false"
    else if field.None? then ""
    else if SameLetters(head, "config") then Lookup(ctx.config, field.value)
    else if SameLetters(head, "result") then Lookup(ctx.result, field.value)
    else if SameLetters(head, "query") then ResolveQuery(ctx.query, field.value)
    else if SameLetters(head, "today") then ResolveToday(ctx.today, field.value)
    else ""
  }

  lemma ByReading(ctx: Context, path: string, head: string, field: Option<string>)
    requires Reads(path, head, field)
    ensures Resolve(ctx, path) == Value(ctx, head, field)
  {
    ReadsCore(path, head, field);
    CutsAtDot(head, field);
    HeadWords(head);
    hide SameLetters, Lower, Find, Reads, Core, StripStart, Trim, ResolveQuery, ResolveToday, Lookup, Join;
  }

  lemma QueryPut(ctx: Context, slot: Slot, v: string, f: string)
    ensures ResolveQuery(Put(ctx, slot, v).query, f) ==
      if FieldNames(slot) != {} && !slot.Year? && !slot.Month? && !slot.Day?
         && exists name <- FieldNames(slot) :: SameLetters(f, name)
      then v else ResolveQuery(ctx.query, f)
  {
    QueryWords(f);
    hide SameLetters, Upper;
  }

  lemma TodayPut(ctx: Context, slot: Slot, v: string, f: string)
    ensures ResolveToday(Put(ctx, slot, v).today, f) ==
      if (slot.Year? || slot.Month? || slot.Day?) && exists name <- FieldNames(slot) :: SameLetters(f, name)
      then v else ResolveToday(ctx.today, f)
  {
    TodayWords(f);
    hide SameLetters, Lower;
  }

  lemma OneHead(head: string, a: string, b: string)
    requires SameLetters(head, a) && SameLetters(head, b)
    ensures SameLetters(a, b)
  {
    LowerAgrees(head, a);
    LowerAgrees(head, b);
    LowerAgrees(a, b);
  }

  lemma ValuePut(ctx: Context, slot: Slot, v: string, head: string, field: Option<string>)
    ensures Value(Put(ctx, slot, v), head, field) ==
      if Named(slot, head, field) then v else Value(ctx, head, field)
  {
    HeadWords(head);
    if field.Some? {
      QueryPut(ctx, slot, v, field.value);
      TodayPut(ctx, slot, v, field.value);
    }
    hide SameLetters, Lower, ResolveQuery, ResolveToday, Join;
  }

  /** Setting a value: the paths that name it, in any letter case and with any blanks and dots in front,
      yield it, and every other string yields what it did. */
  lemma LookupExact(ctx: Context, slot: Slot, v: string, path: string)
    ensures Resolve(Put(ctx, slot, v), path) == if Names(slot, path) then v else Resolve(ctx, path)
  {
    var head, field := OneReading(path);
    ByReading(ctx, path, head, field);
    ByReading(Put(ctx, slot, v), path, head, field);
    ValuePut(ctx, slot, v, head, field);
    hide Named, Resolve, Value, Put, Reads;
  }

  /** The same for the list of categories, which are joined by commas. */
  lemma CategoriesExact(ctx: Context, items: seq<string>, path: string)
    ensures Resolve(ctx.(categories := items), path) ==
      if Heads(path, "categories") then Join(items, ",") else Resolve(ctx, path)
  {
    var head, field := OneReading(path);
    ByReading(ctx, path, head, field);
    ByReading(ctx.(categories := items), path, head, field);
    HeadWords(head);
    hide Resolve, Reads, SameLetters, Lower, ResolveQuery, ResolveToday, Lookup, Join;
  }

  lemma NoQueryField(slot: Slot, name: string, head: string, field: Option<string>)
    requires !Named(slot, head, field) && name in FieldNames(slot)
    requires field.Some? && SameLetters(head, "query") && !slot.Year? && !slot.Month? && !slot.Day?
    ensures !SameLetters(field.value, name)
  {
    hide SameLetters;
  }

  lemma NoQueryFields(head: string, field: Option<string>)
    requires forall slot :: !Named(slot, head, field)
    requires field.Some? && SameLetters(head, "query")
    ensures forall name <- {"imdbid", "tvdbid", "tmdbid", "season", "ep", "episode", "album", "artist", "label",
        "track",
                            "year"} :: !SameLetters(field.value, name)
  {
    hide SameLetters, Named;
    NoQueryField(ImdbId, "imdbid", head, field);
    NoQueryField(TvdbId, "tvdbid", head, field);
    NoQueryField(TmdbId, "tmdbid", head, field);
    NoQueryField(Season, "season", head, field);
    NoQueryField(Episode, "ep", head, field);
    NoQueryField(Episode, "episode", head, field);
    NoQueryField(Album, "album", head, field);
    NoQueryField(Artist, "artist", head, field);
    NoQueryField(RecordLabel, "label", head, field);
    NoQueryField(Track, "track", head, field);
    NoQueryField(QueryYear, "year", head, field);
  }

  lemma UnknownField(head: string, field: Option<string>, q: Query)
    requires forall slot :: !Named(slot, head, field)
    requires field.Some? && SameLetters(head, "query")
    ensures ResolveQuery(q, field.value) == ""
  {
    NoQueryFields(head, field);
    QueryWords(field.value);
    hide SameLetters, Upper, Named;
  }

  lemma UnknownPart(head: string, field: Option<string>, t: Today)
    requires forall slot :: !Named(slot, head, field)
    requires field.Some? && SameLetters(head, "today")
    ensures ResolveToday(t, field.value) == ""
  {
    TodayWords(field.value);
    hide SameLetters, Lower;
    assert !Named(Year, head, field) && !Named(Month, head, field) && !Named(Day, head, field);
  }

  /** A path that names nothing is empty, but for the two constants. */
  lemma UnknownIsEmpty(ctx: Context, path: string)
    requires forall slot :: !Names(slot, path)
    requires !Heads(path, "categories")
    ensures Resolve(ctx, path) ==
      if Heads(path, "true") then "true" else if Heads(path, "false") then "false" else ""
  {
    var head, field := OneReading(path);
    ByReading(ctx, path, head, field);
    HeadWords(head);
    forall slot ensures !Named(slot, head, field) {
      assert !Names(slot, path);
    }
    assert !Named(Keywords, head, field);
    if field.Some? {
      assert !Named(Config(field.value), head, field) && !Named(Result(field.value), head, field);
      if SameLetters(head, "query") {
        UnknownField(head, field, ctx.query);
      } else if SameLetters(head, "today") {
        UnknownPart(head, field, ctx.today);
      }
    }
    hide Resolve, Reads, SameLetters, Lower, Upper, ResolveQuery, ResolveToday, Lookup, Join;
  }

  /** The two maps are empty at every key they do not have. */
  lemma MissingKeyIsEmpty(ctx: Context, key: string, path: string)
    ensures Names(Config(key), path) && key !in ctx.config ==> Resolve(ctx, path) == ""
    ensures Names(Result(key), path) && key !in ctx.result ==> Resolve(ctx, path) == ""
  {
    var head, field := OneReading(path);
    ByReading(ctx, path, head, field);
    HeadWords(head);
    hide Resolve, Reads, SameLetters, Lower, ResolveQuery, ResolveToday, Join;
  }

  // ----- Lists -----

  lemma JoinFew(part: string, sep: string)
    ensures Join([], sep) == "" && Join([part], sep) == part
  {}

  /** Joining two lists is joining each, with one separator between. */
  lemma {:induction false} JoinConcat(a: seq<string>, b: seq<string>, sep: string)
    requires a != [] && b != []
    ensures Join(a + b, sep) == Join(a, sep) + (sep + Join(b, sep))
  {
    var head := a[0];
    assert (a + b)[0] == head;
    if |a| == 1 {
      assert (a + b)[1..] == b;
      Regroup(head, "", sep, Join(b, sep));
    } else {
      assert (a + b)[1..] == a[1..] + b;
      JoinConcat(a[1..], b, sep);
      JoinUnfolds(a, sep);
      JoinUnfolds(a + b, sep);
      Regroup(head + sep, Join(a[1..], sep), sep, Join(b, sep));
    }
  }

  lemma JoinUnfolds(a: seq<string>, sep: string)
    requires |a| > 1
    ensures Join(a, sep) == a[0] + sep + Join(a[1..], sep)
  {}

  lemma Regroup(a: string, b: string, sep: string, c: string)
    ensures a + (b + (sep + c)) == a + b + (sep + c)
    ensures a + sep + c == a + (sep + c)
  {}

  /** A list is asked for by the one word `Categories`; every other path is a list of at most the one
      value that it has, read without the blanks and dots in front. */
  lemma IterableExact(ctx: Context, path: string, head: string, field: Option<string>)
    requires Reads(path, head, field)
    ensures Iterable(ctx, path) ==
      if field.None? && SameLetters(head, "categories") then ctx.categories
      else if Resolve(ctx, Core(head, field)) == "" then []
      else [Resolve(ctx, Core(head, field))]
  {
    var core := Core(head, field);
    ReadsCore(path, head, field);
    LowerIs(core, "categories");
    if field.Some? {
      assert core[|head|] == '.';
      assert !SameLetters(core, "categories");
    }
    hide Resolve, Lower, StripStart, Trim, Reads;
  }

  lemma IterablePut(ctx: Context, slot: Slot, v: string, path: string, head: string, field: Option<string>)
    requires Reads(path, head, field) && Named(slot, head, field) && Reads(Core(head, field), head, field)
    ensures Iterable(Put(ctx, slot, v), path) == if v == "" then [] else [v]
  {
    var c := Put(ctx, slot, v);
    IterableExact(c, path, head, field);
    LookupExact(ctx, slot, v, Core(head, field));
    HeadWords(head);
    assert Names(slot, Core(head, field));
    hide Resolve, Lower, Reads, SameLetters, Put;
  }

  // ----- Templates -----

  lemma NilPart(ctx: Context, dot: Option<string>)
    ensures Valid(Nil, true) && Valid(Nil, false) && Height(Nil) == 0 && PlainItems(Nil, ctx)
    ensures Eval(Nil, ctx, dot) == ""
  {}

  lemma TextPart(text: string, ctx: Context, dot: Option<string>)
    requires '{' !in text
    ensures var t := Literally(text, Nil);
      Valid(t, true) && Valid(t, false) && Height(t) == 0 && PlainItems(t, ctx) && Eval(t, ctx, dot) == text
  {
    NilPart(ctx, dot);
    assert Eval(Literally(text, Nil), ctx, dot) == text + "" == text;
  }

  /** The tag of a path stands for the value that the path names. */
  lemma TagOfPath(ctx: Context, slot: Slot, v: string, path: string, pad: Pad, frames: nat)
    requires ValidPath(path) && NoBrace(path) && Names(slot, path)
    ensures Expand(Print(Show(pad, Variable(path), Nil)), Put(ctx, slot, v), frames) == Ok(v)
  {
    var c := Put(ctx, slot, v);
    var t := Show(pad, Variable(path), Nil);
    NilPart(c, None);
    assert Valid(t, true) && Height(t) == Height(Nil) && PlainItems(t, c);
    MeaningOfTemplates(t, c, frames);
    LookupExact(ctx, slot, v, path);
    assert ExprValue(Variable(path), c) == Resolve(c, path);
    hide Expand, Print, Resolve, Names, Put;
    assert Eval(t, c, None) == v + Eval(Nil, c, None) == v;
  }

  /** `if` takes its first branch for every value other than "", "false" and "0". */
  lemma IfOfPath(ctx: Context, slot: Slot, v: string, path: string, yes: string, no: string, pad: Pad, frames: nat)
    requires ValidPath(path) && NoBrace(path) && Names(slot, path) && '{' !in yes && '{' !in no && frames >= 1
    ensures var t := If(pad, Var(path), Literally(yes, Nil), Some(Literally(no, Nil)), Nil);
      Expand(Print(t), Put(ctx, slot, v), frames) == Ok(if v in {"", "false", "0"} then no else yes)
  {
    var c := Put(ctx, slot, v);
    IfParts(path, yes, no, pad, c);
    var t := If(pad, Var(path), Literally(yes, Nil), Some(Literally(no, Nil)), Nil);
    LookupExact(ctx, slot, v, path);
    hide Expand, Print, Resolve, Names, Put, Valid, PlainItems, Height, Eval;
    MeaningOfTemplates(t, c, frames);
  }

  lemma IfParts(path: string, yes: string, no: string, pad: Pad, c: Context)
    requires ValidPath(path) && NoBrace(path) && '{' !in yes && '{' !in no
    ensures var t := If(pad, Var(path), Literally(yes, Nil), Some(Literally(no, Nil)), Nil);
      Valid(t, true) && Height(t) == 1 && PlainItems(t, c)
      && Eval(t, c, None) == if TruthyValue(Resolve(c, path)) then yes else no
  {
    var a, b := Literally(yes, Nil), Literally(no, Nil);
    var t := If(pad, Var(path), a, Some(b), Nil);
    TextPart(yes, c, None);
    TextPart(no, c, None);
    NilPart(c, None);
    hide Resolve, TruthyValue, Print;
    var branch := if Holds(Var(path), c) then yes else no;
    IfFits(t, a, b, path, pad, c);
    assert Eval(t, c, None) == branch + Eval(Nil, c, None) == branch;
  }

  lemma IfFits(t: Template, a: Template, b: Template, path: string, pad: Pad, c: Context)
    requires t == If(pad, Var(path), a, Some(b), Nil)
    requires ValidPath(path) && NoBrace(path) && Valid(a, false) && Valid(b, false) && Height(a) == Height(b) == 0
    requires PlainItems(a, c) && PlainItems(b, c)
    ensures Valid(t, true) && Height(t) == 1 && PlainItems(t, c)
  {
    assert ValidCond(Var(path)) && PrintCond(Var(path)) == path;
    NilPart(c, None);
  }

  function Within(a: string, items: seq<string>, b: string): seq<string> {
    seq(|items|, i requires 0 <= i < |items| => a + items[i] + b)
  }

  lemma {:induction false} ItemsWithin(a: string, items: seq<string>, b: string, ctx: Context)
    ensures EvalItems(Literally(a, Dot(Spaced, Literally(b, Nil))), items, ctx, None) == Join(Within(a, items, b), "")
  {
    if items != [] {
      var body := Literally(a, Dot(Spaced, Literally(b, Nil)));
      ItemsWithin(a, items[1..], b, ctx);
      OneItem(a, items[0], b, ctx);
      var all := Within(a, items, b);
      assert all[1..] == Within(a, items[1..], b);
      assert all[0] == a + items[0] + b;
      if |items| == 1 {
        assert all == [all[0]] && items[1..] == [];
        assert EvalItems(body, items[1..], ctx, None) == "";
        assert all[0] + "" == all[0];
      } else {
        JoinUnfolds(all, "");
        assert all[0] + "" == all[0];
      }
    }
  }

  lemma OneItem(a: string, item: string, b: string, ctx: Context)
    ensures Eval(Literally(a, Dot(Spaced, Literally(b, Nil))), ctx, Some(item)) == a + item + b
  {
    var rest := Literally(b, Nil);
    NilPart(ctx, Some(item));
    assert Eval(rest, ctx, Some(item)) == b + Eval(Nil, ctx, Some(item)) == b;
    hide Valid;
    assert Eval(Dot(Spaced, rest), ctx, Some(item)) == item + b;
    assert a + (item + b) == a + item + b;
  }

  lemma CategoriesReads()
    ensures Reads(".Categories", "Categories", None) && SameLetters("Categories", "categories")
  {
    assert Layout(".Categories", "", ".", Core("Categories", None), "");
  }

  /** `range` over the categories repeats its body with each item, in order. */
  lemma RangeOfCategories(ctx: Context, items: seq<string>, a: string, b: string, frames: nat)
    requires '{' !in a && '{' !in b && (forall item <- items :: '{' !in item) && frames >= 1
    ensures var t := Range(Spaced, ".Categories", Literally(a, Dot(Spaced, Literally(b, Nil))), Nil);
      Expand(Print(t), ctx.(categories := items), frames) == Ok(Join(Within(a, items, b), ""))
  {
    var c := ctx.(categories := items);
    var body := Literally(a, Dot(Spaced, Literally(b, Nil)));
    var t := Range(Spaced, ".Categories", body, Nil);
    CategoriesReads();
    IterableExact(c, ".Categories", "Categories", None);
    ValidRange(a, b, items, c);
    MeaningOfTemplates(t, c, frames);
    ItemsWithin(a, items, b, c);
    hide Expand, EvalItems, Print, Iterable;
    NilPart(c, None);
    RangeValue(body, c, None);
  }

  lemma RangeValue(body: Template, c: Context, dot: Option<string>)
    ensures Eval(Range(Spaced, ".Categories", body, Nil), c, dot) == EvalItems(body, Iterable(c, ".Categories"), c, dot)
  {
    NilPart(c, dot);
    hide Iterable, EvalItems;
    var all := EvalItems(body, Iterable(c, ".Categories"), c, dot);
    assert Eval(Range(Spaced, ".Categories", body, Nil), c, dot) == all + Eval(Nil, c, dot) == all;
  }

  lemma ValidRange(a: string, b: string, items: seq<string>, c: Context)
    requires '{' !in a && '{' !in b && (forall item <- items :: '{' !in item) && Iterable(c, ".Categories") == items
    ensures var t := Range(Spaced, ".Categories", Literally(a, Dot(Spaced, Literally(b, Nil))), Nil);
      Valid(t, true) && Height(t) == 1 && PlainItems(t, c)
  {
    var rest := Literally(b, Nil);
    var body := Literally(a, Dot(Spaced, rest));
    hide Iterable;
    TextPart(b, c, None);
    assert Valid(Dot(Spaced, rest), true) && Height(Dot(Spaced, rest)) == 0 && PlainItems(Dot(Spaced, rest), c);
    assert Valid(body, true) && Height(body) == 0 && PlainItems(body, c);
    NilPart(c, None);
    assert ValidPath(".Categories") && NoBrace(".Categories");
  }
}
