/** Rows out of a JSON answer (selector.rs): dotted paths, expansion of child arrays, and fields of a
    row or of its parent. */
module JsonRows {
  import opened Wrappers
  import opened Strings

  datatype Json =
    | Null
    | Bool(b: bool)
    | Number(text: string)
    | Str(s: string)
    | Array(items: seq<Json>)
    | Object(fields: map<string, Json>)

  // ----- Paths -----

  /** `split('.')`. */
  function Split(path: string): (r: seq<string>)
    ensures r != []
    decreases |path|
  {
    match Find(path, ".")
    case None => [path]
    case Some(i) => [path[..i]] + Split(path[i + 1..])
  }

  const USIZE_LIMIT: nat := 0x1_0000_0000_0000_0000

  /** `parse::<usize>`: digits, perhaps after a plus sign, within the width of the type. */
  function ParseIndex(s: string): Option<nat> {
    var digits := if "+" <= s then s[1..] else s;
    if digits == "" || (exists c <- digits :: !IsDigit(c)) || Decimal(digits) >= USIZE_LIMIT then None
    else Some(Decimal(digits))
  }

  /** One segment of a path: an index in brackets, or a key. */
  function Get(v: Json, segment: string): Option<Json> {
    var index :=
      if |segment| >= 2 && segment[0] == '[' && segment[|segment| - 1] == ']' then ParseIndex(segment[1..|segment| - 1])
      else None;
    match index
    case Some(i) => if v.Array? && i < |v.items| then Some(v.items[i]) else None
    case None => if v.Object? && segment in v.fields then Some(v.fields[segment]) else None
  }

  /** Empty segments are passed over. */
  function Walk(v: Json, segments: seq<string>): Option<Json> {
    if segments == [] then Some(v)
    else if segments[0] == "" then Walk(v, segments[1..])
    else
      match Get(v, segments[0])
      case None => None
      case Some(w) => Walk(w, segments[1..])
  }

  function JsonPath(v: Json, path: string): Option<Json> {
    var p := StripStart(Trim(path), '$');
    if p == "" then Some(v) else Walk(v, Split(StripStart(p, '.')))
  }

  /** The loop of `json_path`. */
  method FollowPath(value: Json, path: string) returns (r: Option<Json>)
    ensures r == JsonPath(value, path)
  {
    hide Get, Split;
    var p := StripStart(Trim(path), '$');
    if p == "" {
      return Some(value);
    }
    p := StripStart(p, '.');
    var current := value;
    var segments := Split(p);
    assert segments[0..] == segments;
    for i := 0 to |segments|
      invariant Walk(current, segments[i..]) == Walk(value, segments)
    {
      assert segments[i..][1..] == segments[i + 1..];
      if segments[i] != "" {
        var next := Get(current, segments[i]);
        if next.None? {
          return None;
        }
        current := next.value;
      }
    }
    assert segments[|segments|..] == [];
    return Some(current);
  }

  lemma {:induction false} WalkConcat(v: Json, a: seq<string>, b: seq<string>)
    ensures Walk(v, a + b) == match Walk(v, a) case None => None case Some(w) => Walk(w, b)
    decreases |a|
  {
    hide Get;
    if a == [] {
      assert a + b == b;
    } else {
      assert (a + b)[1..] == a[1..] + b;
      if a[0] == "" {
        WalkConcat(v, a[1..], b);
      } else if Get(v, a[0]).Some? {
        WalkConcat(Get(v, a[0]).value, a[1..], b);
      }
    }
  }

  lemma FindDot(p: string, q: string)
    ensures Find(p + "." + q, ".") == if Find(p, ".").Some? then Find(p, ".") else Some(|p|)
  {
    var s := p + "." + q;
    var n := if Find(p, ".").Some? then Find(p, ".").value else |p|;
    assert At(s, ".", n);
    forall j | 0 <= j < n ensures !At(s, ".", j) {
      OneDot(s, j);
      OneDot(p, j);
      assert s[j] == p[j];
    }
    FindsAt(s, ".", n);
  }

  lemma OneDot(s: string, j: nat)
    ensures At(s, ".", j) <==> j < |s| && s[j] == '.'
  {}

  lemma {:induction false} SplitConcat(p: string, q: string)
    ensures Split(p + "." + q) == Split(p) + Split(q)
    decreases |p|
  {
    var s := p + "." + q;
    FindDot(p, q);
    hide Find;
    match Find(p, ".")
    case None =>
      assert s[..|p|] == p && s[|p| + 1..] == q;
    case Some(i) =>
      assert s[..i] == p[..i] && s[i + 1..] == p[i + 1..] + "." + q;
      SplitConcat(p[i + 1..], q);
  }

  lemma {:induction false} LeadingDots(v: Json, p: string)
    ensures Walk(v, Split(StripStart(p, '.'))) == Walk(v, Split(p))
    decreases |p|
  {
    if p != "" && p[0] == '.' {
      LeadingDots(v, p[1..]);
      OneDot(p, 0);
      FindsAt(p, ".", 0);
      assert Split(p)[1..] == Split(p[1..]);
    }
  }

  /** A path without blanks around it and without a dollar sign in front. */
  predicate PlainPath(p: string) {
    p == "" || (Trimmed(p) && p[0] != '$')
  }

  lemma PlainWalk(v: Json, p: string)
    requires PlainPath(p)
    ensures JsonPath(v, p) == Walk(v, Split(p))
  {
    LeadingDots(v, p);
    if p != "" {
      TrimTrimmed(p);
    } else {
      assert !At("", ".", 0);
      assert Split("") == [""];
    }
  }

  /** Paths compose: `p.q` is `p`, then `q`. */
  lemma PathsCompose(v: Json, p: string, q: string)
    requires PlainPath(p) && PlainPath(q)
    ensures JsonPath(v, p + "." + q) == match JsonPath(v, p) case None => None case Some(w) => JsonPath(w, q)
  {
    var s := p + "." + q;
    assert s[|s| - 1] == if q == "" then '.' else q[|q| - 1];
    PlainWalk(v, s);
    PlainWalk(v, p);
    SplitConcat(p, q);
    WalkConcat(v, Split(p), Split(q));
    match Walk(v, Split(p))
    case None =>
    case Some(w) => PlainWalk(w, q);
  }

  // ----- Rows -----

  const PARENT := "__parent"

  /** An object remembers the row it was expanded from. */
  function Merge(child: Json, parent: Json): Json {
    if child.Object? then Object(child.fields[PARENT := parent]) else child
  }

  function Children(parent: Json, attribute: string): seq<Json> {
    match JsonPath(parent, attribute)
    case Some(Array(items)) => items
    case _ => []
  }

  function MergeAll(children: seq<Json>, parent: Json): (r: seq<Json>)
    ensures |r| == |children| && forall j :: 0 <= j < |r| ==> r[j] == Merge(children[j], parent)
  {
    seq(|children|, j requires 0 <= j < |children| => Merge(children[j], parent))
  }

  function Expanded(parents: seq<Json>, attribute: string): seq<Json> {
    if parents == [] then []
    else
      var last := |parents| - 1;
      Expanded(parents[..last], attribute) + MergeAll(Children(parents[last], attribute), parents[last])
  }

  function BaseRows(json: Json, selector: string): seq<Json> {
    match JsonPath(json, selector)
    case None => []
    case Some(Array(items)) => items
    case Some(v) => [v]
  }

  /** `select_json_rows`. */
  method SelectRows(json: Json, selector: string, attribute: Option<string>, multiple: bool) returns (rows: seq<Json>)
    ensures rows == if attribute.Some? && multiple then Expanded(BaseRows(json, selector), attribute.value)
                    else BaseRows(json, selector)
  {
    hide JsonPath;
    var base := BaseRows(json, selector);
    if attribute.None? || !multiple {
      return base;
    }
    rows := [];
    for i := 0 to |base|
      invariant rows == Expanded(base[..i], attribute.value)
    {
      assert base[..i + 1][..i] == base[..i];
      var parent := base[i];
      var children := Children(parent, attribute.value);
      ghost var before, merged := rows, MergeAll(children, parent);
      for j := 0 to |children|
        invariant rows == before + merged[..j]
      {
        rows := rows + [Merge(children[j], parent)];
      }
      assert merged[..|children|] == merged;
    }
    assert base[..|base|] == base;
  }

  /** The row a field is read from, and the path to it; `..f` reads `f` of the parent. */
  function FieldValue(row: Json, selector: string): Option<Json> {
    if ".." <= selector then
      JsonPath(if row.Object? && PARENT in row.fields then row.fields[PARENT] else row, selector[2..])
    else JsonPath(row, selector)
  }

  function RowsBefore(parents: seq<Json>, attribute: string, i: nat): nat
    requires i <= |parents|
  {
    |Expanded(parents[..i], attribute)|
  }

  /** The expanded rows are the children of the parents one after the other: child `j` of parent `i`
      stands after all children of the parents before it. */
  lemma {:induction false} RowsInOrder(parents: seq<Json>, attribute: string, i: nat, j: nat)
    requires i < |parents| && j < |Children(parents[i], attribute)|
    ensures var k := RowsBefore(parents, attribute, i) + j; var rows := Expanded(parents, attribute);
      k < |rows| && rows[k] == Merge(Children(parents[i], attribute)[j], parents[i])
  {
    hide Children, Merge;
    var last := |parents| - 1;
    assert i < last ==> parents[..last][..i] == parents[..i];
    if i < last {
      RowsInOrder(parents[..last], attribute, i, j);
    }
  }

  /** On an expanded row that is an object, `..f` reads `f` of that row's own parent; on any other
      row it reads `f` of the row itself. */
  lemma ParentField(parents: seq<Json>, attribute: string, i: nat, j: nat, f: string)
    requires i < |parents| && j < |Children(parents[i], attribute)|
    ensures var child := Children(parents[i], attribute)[j]; var k := RowsBefore(parents, attribute, i) + j;
      k < |Expanded(parents, attribute)| &&
      FieldValue(Expanded(parents, attribute)[k], ".." + f) == JsonPath(if child.Object? then parents[i] else child, f)
  {
    hide JsonPath, Children, Expanded;
    RowsInOrder(parents, attribute, i, j);
    assert (".." + f)[2..] == f;
  }
}
