/** The variables a Cardigann template may mention, and how a dotted path is resolved
    (`TemplateContext` in template.rs). */
module TemplateContext {
  import opened Wrappers
  import opened Strings

  datatype Query = Query(
    imdbid: string, tvdbid: string, tmdbid: string, season: string, ep: string,
    album: string, artist: string, recordLabel: string, track: string, year: string)

  /** The current date, which the program reads from the clock. */
  datatype Today = Today(year: string, month: string, day: string)

  datatype Context = Context(
    config: map<string, string>,
    keywords: string,
    categories: seq<string>,
    query: Query,
    result: map<string, string>,
    today: Today)

  function Lookup(m: map<string, string>, key: string): string {
    if key in m then m[key] else ""
  }

  function ResolveQuery(q: Query, field: string): string {
    var f := Upper(field);
    if f == "IMDBID" then q.imdbid
    else if f == "TVDBID" then q.tvdbid
    else if f == "TMDBID" then q.tmdbid
    else if f == "SEASON" then q.season
    else if f == "EP" || f == "EPISODE" then q.ep
    else if f == "ALBUM" then q.album
    else if f == "ARTIST" then q.artist
    else if f == "LABEL" then q.recordLabel
    else if f == "TRACK" then q.track
    else if f == "YEAR" then q.year
    else ""
  }

  function ResolveToday(t: Today, field: string): string {
    var f := Lower(field);
    if f == "year" then t.year else if f == "month" then t.month else if f == "day" then t.day else ""
  }

  /** The value of a dotted path such as `.Config.sitelink`; unknown paths are empty. */
  function Resolve(ctx: Context, path: string): string {
    var p := StripStart(Trim(path), '.');
    match Find(p, ".")
    case None =>
      var head := Lower(p);
      if head == "keywords" then ctx.keywords
      else if head == "categories" then Join(ctx.categories, ",")
      else if head == "true" then "true"
      else if head == "false" then "false"
      else ""
    case Some(dot) =>
      var head, field := Lower(p[..dot]), p[dot + 1..];
      if head == "config" then Lookup(ctx.config, field)
      else if head == "keywords" then ctx.keywords
      else if head == "categories" then Join(ctx.categories, ",")
      else if head == "query" then ResolveQuery(ctx.query, field)
      else if head == "result" then Lookup(ctx.result, field)
      else if head == "true" then "true"
      else if head == "false" then "false"
      else if head == "today" then ResolveToday(ctx.today, field)
      else ""
  }

  /** Non-empty, and neither "false" nor "0". */
  predicate TruthyValue(v: string) {
    v != "" && v != "false" && v != "0"
  }

  predicate Truthy(ctx: Context, path: string) {
    TruthyValue(Resolve(ctx, path))
  }

  /** The items that `range` and `join` run over. */
  function Iterable(ctx: Context, path: string): seq<string> {
    var p := StripStart(Trim(path), '.');
    if Lower(p) == "categories" then ctx.categories
    else
      var v := Resolve(ctx, p);
      if v == "" then [] else [v]
  }

  // ----- Contexts whose values cannot be taken for template text -----

  /** No value reachable from a template contains the character `c`. */
  predicate Without(ctx: Context, c: char) {
    && (forall k <- ctx.config :: c !in ctx.config[k])
    && (forall k <- ctx.result :: c !in ctx.result[k])
    && c !in ctx.keywords
    && (forall cat <- ctx.categories :: c !in cat)
    && (var q := ctx.query;
        c !in q.imdbid && c !in q.tvdbid && c !in q.tmdbid && c !in q.season && c !in q.ep
        && c !in q.album && c !in q.artist && c !in q.recordLabel && c !in q.track && c !in q.year)
    && c !in ctx.today.year && c !in ctx.today.month && c !in ctx.today.day
  }

  lemma {:induction false} JoinWithout(parts: seq<string>, sep: string, c: char)
    requires (forall p <- parts :: c !in p) && c !in sep
    ensures c !in Join(parts, sep)
  {
    if |parts| > 1 {
      JoinWithout(parts[1..], sep, c);
    }
  }

  lemma ResolveWithout(ctx: Context, path: string, c: char)
    requires Without(ctx, c) && c !in "true" && c !in "false" && c != ','
    ensures c !in Resolve(ctx, path)
  {
    JoinWithout(ctx.categories, ",", c);
  }

  lemma IterableWithout(ctx: Context, path: string, c: char)
    requires Without(ctx, c) && c !in "true" && c !in "false" && c != ','
    ensures forall item <- Iterable(ctx, path) :: c !in item
  {
    ResolveWithout(ctx, StripStart(Trim(path), '.'), c);
  }
}
