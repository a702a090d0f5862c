/** The category index of an indexer (categories.rs): indexer categories to Newznab categories and
    back, filled side by side. */
module Categories {
  // ----- Building -----

  /** An indexer category and the Newznab category it is declared as. */
  type Pair = (string, int)

  datatype Mapper = Mapper(forward: map<string, seq<int>>, backward: map<int, seq<string>>) {
    function ToNewznab(category: string): seq<int> {
      if category in forward then forward[category] else []
    }

    function Under(id: int): seq<string> {
      if id in backward then backward[id] else []
    }
  }

  /** The Newznab ids declared for a category, in the order of the declarations. */
  function IdsOf(pairs: seq<Pair>, category: string): seq<int> {
    if pairs == [] then []
    else IdsOf(pairs[..|pairs| - 1], category)
         + if pairs[|pairs| - 1].0 == category then [pairs[|pairs| - 1].1] else []
  }

  function CategoriesOf(pairs: seq<Pair>, id: int): seq<string> {
    if pairs == [] then []
    else CategoriesOf(pairs[..|pairs| - 1], id)
         + if pairs[|pairs| - 1].1 == id then [pairs[|pairs| - 1].0] else []
  }

  /** The lists under a key: nothing is declared by no declaration, one declaration lists its own pair only,
      and later declarations come after earlier ones. */
  lemma {:induction false} DeclaredInOrder(a: seq<Pair>, b: seq<Pair>, p: Pair, c: string, k: int)
    ensures IdsOf(a + b, c) == IdsOf(a, c) + IdsOf(b, c)
    ensures CategoriesOf(a + b, k) == CategoriesOf(a, k) + CategoriesOf(b, k)
    ensures IdsOf([], c) == [] && IdsOf([p], c) == if c == p.0 then [p.1] else []
    ensures CategoriesOf([], k) == [] && CategoriesOf([p], k) == if k == p.1 then [p.0] else []
    decreases |b|
  {
    assert [p][..0] == [];
    if b == [] {
      assert a + b == a;
    } else {
      var init, last := b[..|b| - 1], b[|b| - 1];
      assert (a + b)[..|a + b| - 1] == a + init;
      DeclaredInOrder(a, init, p, c, k);
    }
  }

  /** The index holds the declarations, under both keys. */
  ghost predicate Indexes(m: Mapper, pairs: seq<Pair>) {
    && (forall c :: m.ToNewznab(c) == IdsOf(pairs, c))
    && (forall k :: m.Under(k) == CategoriesOf(pairs, k))
  }

  function Declared(declarations: seq<(string, string)>, idOf: string -> int): (r: seq<Pair>)
    ensures |r| == |declarations| && forall i :: 0 <= i < |r| ==> r[i] == (declarations[i].0, idOf(declarations[i].1))
  {
    seq(|declarations|, i requires 0 <= i < |declarations| => (declarations[i].0, idOf(declarations[i].1)))
  }

  /** `from_caps`: first the list of mappings, then the table of plain categories. */
  method FromCaps(mappings: seq<(string, string)>, categories: seq<(string, string)>, idOf: string -> int)
    returns (m: Mapper)
    ensures Indexes(m, Declared(mappings, idOf) + Declared(categories, idOf))
  {
    hide Indexes, Enter;
    m := Mapper(map[], map[]);
    NothingDeclared(mappings, categories, idOf);
    for i := 0 to |mappings|
      invariant Indexes(m, [] + Declared(mappings, idOf)[..i])
    {
      NextPair(m, [], mappings, idOf, i);
      m := Enter(m, mappings[i].0, idOf(mappings[i].1));
    }
    AllDeclared(mappings, categories, idOf);
    for i := 0 to |categories|
      invariant Indexes(m, Declared(mappings, idOf) + Declared(categories, idOf)[..i])
    {
      NextPair(m, Declared(mappings, idOf), categories, idOf, i);
      m := Enter(m, categories[i].0, idOf(categories[i].1));
    }
  }

  lemma NothingDeclared(mappings: seq<(string, string)>, categories: seq<(string, string)>, idOf: string -> int)
    ensures Indexes(Mapper(map[], map[]), [] + Declared(mappings, idOf)[..0])
  {}

  lemma AllDeclared(mappings: seq<(string, string)>, categories: seq<(string, string)>, idOf: string -> int)
    ensures [] + Declared(mappings, idOf)[..|mappings|] == Declared(mappings, idOf) + Declared(categories, idOf)[..0]
    ensures Declared(categories, idOf)[..|categories|] == Declared(categories, idOf)
  {}

  lemma NextPair(m: Mapper, before: seq<Pair>, declarations: seq<(string, string)>, idOf: string -> int, i: nat)
    requires i < |declarations| && Indexes(m, before + Declared(declarations, idOf)[..i])
    ensures Indexes(Enter(m, declarations[i].0, idOf(declarations[i].1)),
                    before + Declared(declarations, idOf)[..i + 1])
  {
    hide Indexes, Enter;
    var pairs := Declared(declarations, idOf);
    OnePair(m, before + pairs[..i], declarations[i].0, idOf(declarations[i].1));
    assert before + pairs[..i] + [pairs[i]] == before + pairs[..i + 1];
  }

  /** One declaration, entered in both tables. */
  function Enter(m: Mapper, category: string, id: int): Mapper {
    Mapper(m.forward[category := m.ToNewznab(category) + [id]], m.backward[id := m.Under(id) + [category]])
  }

  lemma OnePair(m: Mapper, pairs: seq<Pair>, category: string, id: int)
    requires Indexes(m, pairs)
    ensures Indexes(Enter(m, category, id), pairs + [(category, id)])
  {
    assert (pairs + [(category, id)])[..|pairs|] == pairs;
  }

  lemma {:induction false} SameCounts(pairs: seq<Pair>, c: string, k: int)
    ensures multiset(IdsOf(pairs, c))[k] == multiset(CategoriesOf(pairs, k))[c]
  {
    if pairs != [] {
      var before, last := pairs[..|pairs| - 1], pairs[|pairs| - 1];
      SameCounts(before, c, k);
      SnocCounts(before, last, c, k);
      hide IdsOf, CategoriesOf;
      assert pairs == before + [last];
    }
  }

  lemma SnocCounts(before: seq<Pair>, last: Pair, c: string, k: int)
    ensures var pairs := before + [last]; var hit := if last.0 == c && last.1 == k then 1 else 0;
      && multiset(IdsOf(pairs, c))[k] == multiset(IdsOf(before, c))[k] + hit
      && multiset(CategoriesOf(pairs, k))[c] == multiset(CategoriesOf(before, k))[c] + hit
  {
    var ids, categories := IdsOf(before, c), CategoriesOf(before, k);
    assert (before + [last])[..|before|] == before;
    assert IdsOf(before + [last], c) == ids + if last.0 == c then [last.1] else [];
    assert CategoriesOf(before + [last], k) == categories + if last.1 == k then [last.0] else [];
    hide IdsOf, CategoriesOf;
    CountSnoc(ids, last.1, k);
    CountSnoc(categories, last.0, c);
    assert ids + [] == ids && categories + [] == categories;
  }

  lemma CountSnoc<T>(s: seq<T>, x: T, y: T)
    ensures multiset(s + [x])[y] == multiset(s)[y] + if x == y then 1 else 0
  {}

  /** The two tables agree, also in how often a category was declared. */
  lemma TablesAgree(m: Mapper, pairs: seq<Pair>, c: string, k: int)
    requires Indexes(m, pairs)
    ensures multiset(m.ToNewznab(c))[k] == multiset(m.Under(k))[c]
    ensures k in m.ToNewznab(c) <==> c in m.Under(k)
  {
    SameCounts(pairs, c, k);
    assert k in m.ToNewznab(c) <==> k in multiset(m.ToNewznab(c));
    assert c in m.Under(k) <==> c in multiset(m.Under(k));
  }

  // ----- Looking up many ids -----

  /** The order of strings: the first difference decides. */
  predicate Less(a: string, b: string) {
    b != "" && (a == "" || a[0] < b[0] || (a[0] == b[0] && Less(a[1..], b[1..])))
  }

  /** A string comes before another if it is a proper beginning of it, or has the smaller character where
      they first differ. */
  lemma {:induction false} LessExact(a: string, b: string)
    ensures Less(a, b) <==> a < b || exists i :: 0 <= i < |a| && i < |b| && a[..i] == b[..i] && a[i] < b[i]
  {
    if a != "" && b != "" {
      LessExact(a[1..], b[1..]);
      if a[0] == b[0] {
        SameFirst(a, b);
      } else {
        assert a[..0] == b[..0];
        forall i | 0 < i < |a| && i < |b| ensures a[..i] != b[..i] {
          assert a[..i][0] == a[0] && b[..i][0] == b[0];
        }
      }
    }
  }

  lemma SameFirst(a: string, b: string)
    requires a != "" && b != "" && a[0] == b[0]
    ensures a < b <==> a[1..] < b[1..]
    ensures (exists i :: 0 <= i < |a| && i < |b| && a[..i] == b[..i] && a[i] < b[i]) <==>
      exists i :: 0 <= i < |a[1..]| && i < |b[1..]| && a[1..][..i] == b[1..][..i] && a[1..][i] < b[1..][i]
  {
    assert a == [a[0]] + a[1..] && b == [b[0]] + b[1..];
    if i :| 0 <= i < |a| && i < |b| && a[..i] == b[..i] && a[i] < b[i] {
      assert a[1..][..i - 1] == a[..i][1..] && b[1..][..i - 1] == b[..i][1..];
      assert a[1..][i - 1] < b[1..][i - 1];
    }
    if i :| 0 <= i < |a[1..]| && i < |b[1..]| && a[1..][..i] == b[1..][..i] && a[1..][i] < b[1..][i] {
      assert a[..i + 1] == [a[0]] + a[1..][..i] && b[..i + 1] == [b[0]] + b[1..][..i];
      assert a[i + 1] < b[i + 1];
    }
  }

  lemma {:induction false} LessTotal(a: string, b: string)
    ensures Less(a, b) || a == b || Less(b, a)
  {
    if a != "" && b != "" && a[0] == b[0] {
      LessTotal(a[1..], b[1..]);
      assert a == [a[0]] + a[1..] && b == [b[0]] + b[1..];
    }
  }

  lemma {:induction false} LessTransitive(a: string, b: string, c: string)
    requires Less(a, b) && Less(b, c)
    ensures Less(a, c)
  {
    if a != "" && a[0] == b[0] == c[0] {
      LessTransitive(a[1..], b[1..], c[1..]);
    }
  }

  function Insert(x: string, s: seq<string>): seq<string> {
    if s == [] || Less(x, s[0]) || x == s[0] then [x] + s else [s[0]] + Insert(x, s[1..])
  }

  function Sort(s: seq<string>): seq<string> {
    if s == [] then [] else Insert(s[0], Sort(s[1..]))
  }

  /** Of equal neighbours the first stays. */
  function Dedup(s: seq<string>): seq<string> {
    if |s| <= 1 then s else if s[0] == s[1] then Dedup(s[1..]) else [s[0]] + Dedup(s[1..])
  }

  function Extended(m: Mapper, ids: seq<int>): seq<string> {
    if ids == [] then [] else Extended(m, ids[..|ids| - 1]) + m.Under(ids[|ids| - 1])
  }

  /** `from_newznab`. */
  method FromNewznab(m: Mapper, ids: seq<int>) returns (result: seq<string>)
    ensures result == Dedup(Sort(Extended(m, ids)))
  {
    result := [];
    for i := 0 to |ids|
      invariant result == Extended(m, ids[..i])
    {
      assert ids[..i + 1][..i] == ids[..i];
      if ids[i] in m.backward {
        result := result + m.backward[ids[i]];
      }
    }
    assert ids[..|ids|] == ids;
    result := Dedup(Sort(result));
  }

  predicate SortedFrom(s: seq<string>, low: string) {
    s != [] ==> (low == s[0] || Less(low, s[0])) && SortedFrom(s[1..], s[0])
  }

  predicate StrictFrom(s: seq<string>, low: string) {
    s != [] ==> Less(low, s[0]) && StrictFrom(s[1..], s[0])
  }

  lemma {:induction false} InsertSorted(x: string, s: seq<string>, low: string)
    requires SortedFrom(s, low) && (low == x || Less(low, x))
    ensures SortedFrom(Insert(x, s), low)
    ensures forall e :: e in Insert(x, s) <==> e == x || e in s
  {
    if s == [] || Less(x, s[0]) || x == s[0] {
      assert ([x] + s)[1..] == s;
    } else {
      LessTotal(x, s[0]);
      InsertSorted(x, s[1..], s[0]);
      assert ([s[0]] + Insert(x, s[1..]))[1..] == Insert(x, s[1..]);
      assert forall e :: e in s <==> e == s[0] || e in s[1..];
    }
  }

  lemma {:induction false} SortSorts(s: seq<string>)
    ensures SortedFrom(Sort(s), "") && forall e :: e in Sort(s) <==> e in s
  {
    if s != [] {
      SortSorts(s[1..]);
      InsertSorted(s[0], Sort(s[1..]), "");
      assert forall e :: e in s <==> e == s[0] || e in s[1..];
    }
  }

  lemma {:induction false} DedupStrict(s: seq<string>)
    requires s != [] && SortedFrom(s[1..], s[0])
    ensures var r := Dedup(s); r != [] && r[0] == s[0] && StrictFrom(r[1..], r[0])
    ensures forall e :: e in Dedup(s) <==> e in s
    decreases |s|
  {
    if |s| > 1 {
      DedupStrict(s[1..]);
      assert forall e :: e in s <==> e == s[0] || e in s[1..];
      if s[0] != s[1] {
        assert ([s[0]] + Dedup(s[1..]))[1..] == Dedup(s[1..]);
      }
    }
  }

  lemma {:induction false} AboveAll(s: seq<string>, low: string)
    requires StrictFrom(s, low)
    ensures forall e <- s :: Less(low, e)
    ensures forall i, j :: 0 <= i < j < |s| ==> Less(s[i], s[j])
  {
    if s != [] {
      AboveAll(s[1..], s[0]);
      forall e | e in s[1..] ensures Less(low, e) {
        LessTransitive(low, s[0], e);
      }
    }
  }

  /** The result is strictly sorted, and holds exactly the categories listed under some of the ids. */
  lemma LookupExact(m: Mapper, ids: seq<int>)
    ensures var r := Dedup(Sort(Extended(m, ids)));
      && (forall i, j :: 0 <= i < j < |r| ==> Less(r[i], r[j]))
      && forall c :: c in r <==> exists k <- ids :: c in m.Under(k)
  {
    var found := Extended(m, ids);
    SortSorts(found);
    ExtendedMembers(m, ids);
    var sorted := Sort(found);
    hide Sort, Extended;
    if sorted != [] {
      DedupStrict(sorted);
      var r := Dedup(sorted);
      AboveAll(r[1..], r[0]);
    }
  }

  lemma {:induction false} ExtendedMembers(m: Mapper, ids: seq<int>)
    ensures forall c :: c in Extended(m, ids) <==> exists k <- ids :: c in m.Under(k)
  {
    if ids != [] {
      var rest, last := ids[..|ids| - 1], ids[|ids| - 1];
      ExtendedMembers(m, rest);
      assert ids == rest + [last];
      assert forall k :: k in ids <==> k in rest || k == last;
    }
  }

  /** A category is found for a set of ids exactly when one of its own ids is in the set. */
  lemma LookupIsInverse(m: Mapper, pairs: seq<Pair>, ids: seq<int>, c: string)
    requires Indexes(m, pairs)
    ensures c in Dedup(Sort(Extended(m, ids))) <==> exists k <- ids :: k in m.ToNewznab(c)
  {
    LookupExact(m, ids);
    forall k ensures k in m.ToNewznab(c) <==> c in m.Under(k) {
      TablesAgree(m, pairs, c, k);
    }
  }
}
