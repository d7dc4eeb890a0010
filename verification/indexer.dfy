/** The `Indexer` (src/Indexer.php): extracting a facet's values from a
    model along its dot-separated fieldname, building the `facetrows` index
    for a set of models, inserting it in chunks, and deleting from it. */
module Indexer {
  import opened Common
  import opened Values
  import opened Filters
  import opened Facets
  import opened FacetDefinitions
  import opened FacetFilter

  /** `array_chunk($rows, 1000)`. */
  const ChunkSize: nat := 1000

  /** `data_get($target, $field)` for one segment: a record's attribute,
      null when the record lacks it or the target is not a record. */
  function Get(n: Node, field: string): Node {
    if n.Rec? && field in n.fields then n.fields[field] else Leaf(Null)
  }

  /** `Collection::pluck($field)`. */
  function Pluck(ns: seq<Node>, field: string): (r: seq<Node>)
    ensures |r| == |ns|
    ensures forall i | 0 <= i < |ns| :: r[i] == Get(ns[i], field)
  {
    seq(|ns|, i requires 0 <= i < |ns| => Get(ns[i], field))
  }

  /** What `flatten(1)` makes of one item: a list gives its items, anything
      else (a scalar, a model) stays as it is. */
  function Spread(n: Node): seq<Node> {
    if n.Many? then n.items else [n]
  }

  /** `Collection::flatten(1)`. */
  function Flatten1(ns: seq<Node>): seq<Node> {
    if |ns| == 0 then [] else Spread(ns[0]) + Flatten1(ns[1..])
  }

  /** The loop of `buildValues` for a dotted fieldname: pluck each segment
      in turn, flattening one level after every segment but the last. */
  function PluckPath(ns: seq<Node>, path: seq<string>): seq<Node>
    requires |path| >= 1
    decreases |path|
  {
    if |path| == 1 then Pluck(ns, path[0])
    else PluckPath(Flatten1(Pluck(ns, path[0])), path[1..])
  }

  /** `buildValues($facet, $model)`: nothing without a fieldname; the one
      attribute for a plain fieldname; the plucked path for a dotted one. */
  function BuildValues(f: Facet, m: Subject): seq<Node> {
    match f.fieldname
    case None => []
    case Some(name) =>
      var path := Split(name, '.');
      if |path| == 1 then [Get(Rec(m.fields), path[0])]
      else PluckPath([Rec(m.fields)], path)
  }

  /** The values a path reaches from one node, following it node by node:
      the reference for `buildValues`. */
  function Walk(n: Node, path: seq<string>): seq<Node>
    requires |path| >= 1
    decreases |path|, 0
  {
    if |path| == 1 then [Get(n, path[0])]
    else WalkAll(Spread(Get(n, path[0])), path[1..])
  }

  function WalkAll(ns: seq<Node>, path: seq<string>): seq<Node>
    requires |path| >= 1
    decreases |path|, 1, |ns|
  {
    if |ns| == 0 then [] else Walk(ns[0], path) + WalkAll(ns[1..], path)
  }

  lemma {:induction false} WalkAllAppend(a: seq<Node>, b: seq<Node>, path: seq<string>)
    requires |path| >= 1
    ensures WalkAll(a + b, path) == WalkAll(a, path) + WalkAll(b, path)
    decreases |a|
  {
    if |a| == 0 {
      assert a + b == b;
    } else {
      assert (a + b)[0] == a[0];
      assert (a + b)[1..] == a[1..] + b;
      WalkAllAppend(a[1..], b, path);
    }
  }

  lemma {:induction false} PluckWalks(ns: seq<Node>, field: string)
    ensures Pluck(ns, field) == WalkAll(ns, [field])
    decreases |ns|
  {
    if |ns| > 0 {
      PluckWalks(ns[1..], field);
      assert Pluck(ns, field) == [Get(ns[0], field)] + Pluck(ns[1..], field);
    }
  }

  lemma {:induction false} FlattenWalks(ns: seq<Node>, path: seq<string>)
    requires |path| >= 2
    ensures WalkAll(Flatten1(Pluck(ns, path[0])), path[1..]) == WalkAll(ns, path)
    decreases |ns|
  {
    if |ns| > 0 {
      var p := Pluck(ns, path[0]);
      assert p[0] == Get(ns[0], path[0]);
      assert p[1..] == Pluck(ns[1..], path[0]);
      WalkAllAppend(Spread(p[0]), Flatten1(p[1..]), path[1..]);
      FlattenWalks(ns[1..], path);
    }
  }

  /** Plucking a path over a list walks it from each item in turn. */
  lemma {:induction false} PluckPathWalks(ns: seq<Node>, path: seq<string>)
    requires |path| >= 1
    ensures PluckPath(ns, path) == WalkAll(ns, path)
    decreases |path|
  {
    if |path| == 1 {
      PluckWalks(ns, path[0]);
      assert [path[0]] == path;
    } else {
      PluckPathWalks(Flatten1(Pluck(ns, path[0])), path[1..]);
      FlattenWalks(ns, path);
    }
  }

  /** `buildValues` yields no value without a fieldname and otherwise
      exactly the values the fieldname's path reaches from the model; a
      fieldname without a dot reads the one attribute, null when missing. */
  lemma BuildValuesWalk(f: Facet, m: Subject)
    ensures f.fieldname.None? ==> BuildValues(f, m) == []
    ensures f.fieldname.Some? ==> BuildValues(f, m) == Walk(Rec(m.fields), Split(f.fieldname.value, '.'))
    ensures f.fieldname.Some? && '.' !in f.fieldname.value ==>
      BuildValues(f, m) == [Get(Rec(m.fields), f.fieldname.value)]
  {
    if f.fieldname.Some? {
      var name := f.fieldname.value;
      var path := Split(name, '.');
      if |path| > 1 {
        PluckPathWalks([Rec(m.fields)], path);
        assert [Rec(m.fields)][1..] == [];
      }
      SplitSingle(name, '.');
      JoinSplit(name, '.');
    }
  }

  /** `buildRow($facet, $model, $value)`. */
  function BuildRow(f: Facet, m: Subject, v: Val): Row {
    Row(Slug(f), m.id, v)
  }

  /** The rows `buildIndex` makes of one facet's values for one model: one
      per value that is not null. */
  function ValueRows(f: Facet, m: Subject, vs: seq<Node>): (rows: seq<Row>)
    ensures forall k | 0 <= k < |vs| && ScalarOf(vs[k]) != Null :: BuildRow(f, m, ScalarOf(vs[k])) in rows
    ensures forall r | r in rows :: exists k | 0 <= k < |vs| :: ScalarOf(vs[k]) != Null && r == BuildRow(f, m, ScalarOf(vs[k]))
  {
    if |vs| == 0 then []
    else
      var rest := ValueRows(f, m, vs[1..]);
      assert forall k | 1 <= k < |vs| :: vs[1..][k - 1] == vs[k];
      if ScalarOf(vs[0]) == Null then rest else [BuildRow(f, m, ScalarOf(vs[0]))] + rest
  }

  /** The rows of one model over all facets, facet by facet. */
  function ModelRows(facets: seq<Facet>, m: Subject): seq<Row> {
    Concat(seq(|facets|, j requires 0 <= j < |facets| => ValueRows(facets[j], m, BuildValues(facets[j], m))))
  }

  /** Every row `buildIndex` considers, in loop order: models outside, facets inside. */
  function Candidates(facets: seq<Facet>, models: seq<Subject>): seq<Row> {
    Concat(seq(|models|, i requires 0 <= i < |models| => ModelRows(facets, models[i])))
  }

  /** Every non-null value of every facet of every model gives a candidate. */
  lemma CandidateOf(facets: seq<Facet>, models: seq<Subject>, i: nat, j: nat, k: nat)
    requires i < |models| && j < |facets| && k < |BuildValues(facets[j], models[i])|
    requires ScalarOf(BuildValues(facets[j], models[i])[k]) != Null
    ensures BuildRow(facets[j], models[i], ScalarOf(BuildValues(facets[j], models[i])[k])) in Candidates(facets, models)
  {
    var r := BuildRow(facets[j], models[i], ScalarOf(BuildValues(facets[j], models[i])[k]));
    var perFacet := seq(|facets|, j requires 0 <= j < |facets| => ValueRows(facets[j], models[i], BuildValues(facets[j], models[i])));
    ConcatMember(perFacet, j, r);
    var perModel := seq(|models|, i requires 0 <= i < |models| => ModelRows(facets, models[i]));
    ConcatMember(perModel, i, r);
  }

  /** Every candidate is some model's non-null value for some facet. */
  lemma CandidateSource(facets: seq<Facet>, models: seq<Subject>, r: Row) returns (i: nat, j: nat, k: nat)
    requires r in Candidates(facets, models)
    ensures i < |models| && j < |facets| && k < |BuildValues(facets[j], models[i])|
    ensures ScalarOf(BuildValues(facets[j], models[i])[k]) != Null
    ensures r == BuildRow(facets[j], models[i], ScalarOf(BuildValues(facets[j], models[i])[k]))
  {
    var perModel := seq(|models|, i requires 0 <= i < |models| => ModelRows(facets, models[i]));
    i := ConcatSource(perModel, r);
    var perFacet := seq(|facets|, j requires 0 <= j < |facets| => ValueRows(facets[j], models[i], BuildValues(facets[j], models[i])));
    j := ConcatSource(perFacet, r);
    var vs := BuildValues(facets[j], models[i]);
    k :| 0 <= k < |vs| && ScalarOf(vs[k]) != Null && r == BuildRow(facets[j], models[i], ScalarOf(vs[k]));
  }

  /** The rows `buildIndex` inserts: the candidates, each once. */
  function IndexRows(facets: seq<Facet>, models: seq<Subject>): (rows: seq<Row>)
    ensures Distinct(rows)
    ensures forall r :: r in rows <==> r in Candidates(facets, models)
  {
    Dedup(Candidates(facets, models))
  }

  /** An index row is exactly a non-null value some model has for some
      facet, carrying that facet's slug and that model's id. */
  lemma IndexRowsExactly(facets: seq<Facet>, models: seq<Subject>, r: Row)
    ensures r in IndexRows(facets, models) <==>
      exists i, j, k | 0 <= i < |models| && 0 <= j < |facets| && 0 <= k < |BuildValues(facets[j], models[i])| ::
        && ScalarOf(BuildValues(facets[j], models[i])[k]) != Null
        && r == Row(Slug(facets[j]), models[i].id, ScalarOf(BuildValues(facets[j], models[i])[k]))
  {
    if r in IndexRows(facets, models) {
      var i, j, k := CandidateSource(facets, models, r);
    }
    forall i, j, k | 0 <= i < |models| && 0 <= j < |facets| && 0 <= k < |BuildValues(facets[j], models[i])|
                     && ScalarOf(BuildValues(facets[j], models[i])[k]) != Null
      ensures Row(Slug(facets[j]), models[i].id, ScalarOf(BuildValues(facets[j], models[i])[k])) in IndexRows(facets, models)
    {
      CandidateOf(facets, models, i, j, k);
    }
  }

  /** No index row holds a null value. */
  lemma IndexRowsNotNull(facets: seq<Facet>, models: seq<Subject>, r: Row)
    requires r in IndexRows(facets, models)
    ensures r.value != Null
  {
    var i, j, k := CandidateSource(facets, models, r);
  }

  /** The key `buildIndex` files a row under: `slug.id.value`. */
  function UniqueKey(r: Row): string {
    Join([r.slug, NatToString(r.subjectId), Text(r.value)], ".")
  }

  /** `$arr[$key] = $row` on an ordered PHP array: an existing key keeps its
      place and takes the new row, a new key is appended. */
  function Assign(arr: seq<(string, Row)>, key: string, r: Row): seq<(string, Row)> {
    if |arr| == 0 then [(key, r)]
    else if arr[0].0 == key then [(key, r)] + arr[1..]
    else [arr[0]] + Assign(arr[1..], key, r)
  }

  function AssignAll(arr: seq<(string, Row)>, rows: seq<Row>): seq<(string, Row)>
    decreases |rows|
  {
    if |rows| == 0 then arr else AssignAll(Assign(arr, UniqueKey(rows[0]), rows[0]), rows[1..])
  }

  function RowsOf(arr: seq<(string, Row)>): seq<Row> {
    seq(|arr|, i requires 0 <= i < |arr| => arr[i].1)
  }

  /** The rows as the source collects them, keyed by `UniqueKey`. */
  function IndexRowsAsWritten(facets: seq<Facet>, models: seq<Subject>): seq<Row> {
    RowsOf(AssignAll([], Candidates(facets, models)))
  }

  /** Every entry of the keyed array sits under its own row's key. */
  ghost predicate Keyed(arr: seq<(string, Row)>) {
    forall i | 0 <= i < |arr| :: arr[i].0 == UniqueKey(arr[i].1)
  }

  /** No two different rows of `rows` share a key. */
  ghost predicate KeysDistinguish(rows: seq<Row>) {
    forall a, b | a in rows && b in rows && UniqueKey(a) == UniqueKey(b) :: a == b
  }

  lemma RowsOfCons(arr: seq<(string, Row)>)
    requires |arr| > 0
    ensures RowsOf(arr) == [arr[0].1] + RowsOf(arr[1..])
  {
  }

  lemma RowsOfSnoc(arr: seq<(string, Row)>, e: (string, Row))
    ensures RowsOf(arr + [e]) == RowsOf(arr) + [e.1]
  {
  }

  /** With keys that tell the rows apart, assigning a row the keyed array
      already holds changes nothing, and assigning a new one appends it. */
  lemma {:induction false} AssignKeyed(arr: seq<(string, Row)>, r: Row, all: seq<Row>)
    requires Keyed(arr) && KeysDistinguish(all)
    requires r in all && forall i | 0 <= i < |arr| :: arr[i].1 in all
    ensures r in RowsOf(arr) ==> Assign(arr, UniqueKey(r), r) == arr
    ensures r !in RowsOf(arr) ==> Assign(arr, UniqueKey(r), r) == arr + [(UniqueKey(r), r)]
  {
    if |arr| > 0 {
      RowsOfCons(arr);
      if arr[0].0 == UniqueKey(r) {
        assert arr[0].1 == r;
        assert [(UniqueKey(r), r)] + arr[1..] == arr;
      } else {
        assert arr[0].1 != r;
        assert Keyed(arr[1..]) by {
          forall i | 0 <= i < |arr[1..]| ensures arr[1..][i].0 == UniqueKey(arr[1..][i].1) {
            assert arr[1..][i] == arr[i + 1];
          }
        }
        assert forall i | 0 <= i < |arr[1..]| :: arr[1..][i].1 in all by {
          forall i | 0 <= i < |arr[1..]| ensures arr[1..][i].1 in all {
            assert arr[1..][i] == arr[i + 1];
          }
        }
        AssignKeyed(arr[1..], r, all);
        assert [arr[0]] + arr[1..] == arr;
        assert [arr[0]] + (arr[1..] + [(UniqueKey(r), r)]) == arr + [(UniqueKey(r), r)];
      }
    }
  }

  /** The rows the keyed array holds, as a set. */
  ghost function Seen(arr: seq<(string, Row)>): set<Row> {
    set x | x in RowsOf(arr)
  }

  /** Appending a row under its own key keeps the array keyed, with rows
      from `all`, and adds the row to those seen. */
  lemma AppendKeyed(arr: seq<(string, Row)>, r: Row, all: seq<Row>)
    requires Keyed(arr) && r in all && forall i | 0 <= i < |arr| :: arr[i].1 in all
    ensures Keyed(arr + [(UniqueKey(r), r)])
    ensures forall i | 0 <= i < |arr + [(UniqueKey(r), r)]| :: (arr + [(UniqueKey(r), r)])[i].1 in all
    ensures RowsOf(arr + [(UniqueKey(r), r)]) == RowsOf(arr) + [r]
    ensures Seen(arr + [(UniqueKey(r), r)]) == Seen(arr) + {r}
  {
    RowsOfSnoc(arr, (UniqueKey(r), r));
  }

  /** With keys that tell the rows apart, the keyed array gains exactly the
      rows it has not seen, each at its first occurrence. */
  lemma {:induction false} AssignAllDedup(arr: seq<(string, Row)>, rows: seq<Row>, all: seq<Row>)
    requires Keyed(arr) && KeysDistinguish(all)
    requires forall i | 0 <= i < |arr| :: arr[i].1 in all
    requires forall r | r in rows :: r in all
    ensures RowsOf(AssignAll(arr, rows)) == RowsOf(arr) + DedupFrom(rows, Seen(arr))
    decreases |rows|
  {
    if |rows| == 0 {
      assert RowsOf(arr) + [] == RowsOf(arr);
    } else {
      var r := rows[0];
      AssignKeyed(arr, r, all);
      if r in RowsOf(arr) {
        AssignAllDedup(arr, rows[1..], all);
        SeenStep(arr, rows);
      } else {
        var next := arr + [(UniqueKey(r), r)];
        AppendKeyed(arr, r, all);
        AssignAllDedup(next, rows[1..], all);
        NewStep(arr, rows);
        assert r !in Seen(arr);
        DedupFresh(RowsOf(arr), rows, Seen(arr), RowsOf(AssignAll(arr, rows)));
      }
    }
  }

  /** A row already seen adds nothing. */
  lemma SeenStep(arr: seq<(string, Row)>, rows: seq<Row>)
    requires |rows| > 0 && rows[0] in RowsOf(arr)
    requires Assign(arr, UniqueKey(rows[0]), rows[0]) == arr
    requires RowsOf(AssignAll(arr, rows[1..])) == RowsOf(arr) + DedupFrom(rows[1..], Seen(arr))
    ensures RowsOf(AssignAll(arr, rows)) == RowsOf(arr) + DedupFrom(rows, Seen(arr))
  {
    assert rows[0] in Seen(arr);
  }

  /** A new row is appended: the array it is assigned into is the one the
      rest of the rows go into. */
  lemma NewStep(arr: seq<(string, Row)>, rows: seq<Row>)
    requires |rows| > 0
    requires Assign(arr, UniqueKey(rows[0]), rows[0]) == arr + [(UniqueKey(rows[0]), rows[0])]
    ensures AssignAll(arr, rows) == AssignAll(arr + [(UniqueKey(rows[0]), rows[0])], rows[1..])
  {
  }

  /** When no two different candidates share a key, the rows the keyed
      array collects are exactly `IndexRows`. */
  lemma AsWrittenAgrees(facets: seq<Facet>, models: seq<Subject>)
    requires KeysDistinguish(Candidates(facets, models))
    ensures IndexRowsAsWritten(facets, models) == IndexRows(facets, models)
  {
    var c := Candidates(facets, models);
    AssignAllDedup([], c, c);
    assert Seen([]) == {};
    assert RowsOf([]) + DedupFrom(c, {}) == DedupFrom(c, {});
  }

  /** Keying rows by `slug.id.value` loses rows when a dotted slug meets a
      dotted value: the value "2.x" of model 1 under slug "T.a" and the value
      "x" of model 2 under slug "T.a.1" share the key "T.a.1.2.x", so the
      keyed array keeps only the second, while both are candidates. */
  lemma KeyCollision()
    ensures var (a, b) := (Row("T.a", 1, Str("2.x")), Row("T.a.1", 2, Str("x")));
      && a != b
      && UniqueKey(a) == UniqueKey(b)
      && AssignAll([], [a, b]) == [(UniqueKey(b), b)]
      && Dedup([a, b]) == [a, b]
  {
    var (a, b) := (Row("T.a", 1, Str("2.x")), Row("T.a.1", 2, Str("x")));
    assert NatToString(1) == "1" && NatToString(2) == "2";
    assert [a.slug, "1", "2.x"][1..] == ["1", "2.x"];
    assert ["1", "2.x"][1..] == ["2.x"];
    assert [b.slug, "2", "x"][1..] == ["2", "x"];
    assert ["2", "x"][1..] == ["x"];
    assert UniqueKey(a) == "T.a.1.2.x";
    assert UniqueKey(b) == "T.a.1.2.x";
    assert [a, b][1..] == [b];
    assert [b][1..] == [];
    var k := UniqueKey(a);
    assert [(k, a)][1..] == [];
    assert Assign([], k, a) == [(k, a)];
    assert AssignAll([], [a, b]) == AssignAll([(k, a)], [b]);
    assert Assign([(k, a)], k, b) == [(k, b)] + [];
    assert AssignAll([(k, a)], [b]) == AssignAll([(k, b)], []);
    assert DedupFrom([b], {a}) == [b] + DedupFrom([], {a, b});
    var none: set<Row> := {};
    assert none + {a} == {a};
    assert DedupFrom([a, b], none) == [a] + DedupFrom([b], none + {a});
  }

  /** The definitions of class T behind the collision: "a", and "1" with
      its subject type overridden to "T.a". */
  function CollidingDefinitions(): seq<Definition> {
    [map["fieldname" := Str("a")], map["fieldname" := Str("1"), "subject_type" := Str("T.a")]]
  }

  /** Two models of class T with plain string attributes. */
  function CollidingModels(): seq<Subject> {
    [Subject("T", 1, map["a" := Leaf(Str("2.x"))]), Subject("T", 2, map["1" := Leaf(Str("x"))])]
  }

  /** Class T's facets "a" (slug "T.a") and "1" (slug "T.a.1") over two
      models yield exactly the two colliding rows: the keyed array keeps
      one of them, while the index should hold both. */
  lemma CollisionCandidates()
    ensures MakeFacets("T", CollidingDefinitions()).Ok?
    ensures var facets := MakeFacets("T", CollidingDefinitions()).value;
      && Candidates(facets, CollidingModels()) == [Row("T.a", 1, Str("2.x")), Row("T.a.1", 2, Str("x"))]
      && IndexRowsAsWritten(facets, CollidingModels()) == [Row("T.a.1", 2, Str("x"))]
      && IndexRows(facets, CollidingModels()) == [Row("T.a", 1, Str("2.x")), Row("T.a.1", 2, Str("x"))]
  {
    var fa := Facet(Some("a"), Some("a"), Some("T"), FacetClass, None, None, None);
    var fb := Facet(Some("1"), Some("1"), Some("T.a"), FacetClass, None, None, None);
    CollidingFacets(fa, fb);
    var ms := CollidingModels();
    FirstModelRows(fa, fb, ms[0]);
    SecondModelRows(fa, fb, ms[1]);
    TwoByTwo(fa, fb, ms[0], ms[1]);
    assert [ms[0], ms[1]] == ms;
    var (a, b) := (Row("T.a", 1, Str("2.x")), Row("T.a.1", 2, Str("x")));
    KeyCollision();
    assert IndexRowsAsWritten([fa, fb], ms) == RowsOf([(UniqueKey(b), b)]);
  }

  lemma CollidingFacets(fa: Facet, fb: Facet)
    requires fa == Facet(Some("a"), Some("a"), Some("T"), FacetClass, None, None, None)
    requires fb == Facet(Some("1"), Some("1"), Some("T.a"), FacetClass, None, None, None)
    ensures MakeFacets("T", CollidingDefinitions()) == Ok([fa, fb])
  {
    var defs := CollidingDefinitions();
    assert HasFieldname(defs[0]) && HasFieldname(defs[1]);
    var r := MakeFacets("T", defs);
    assert Attr(defs[0], "title").None? && Attr(defs[0], "facet_class").None?;
    assert Attr(defs[1], "title").None? && Attr(defs[1], "facet_class").None?;
    assert r.value[0] == fa;
    assert r.value[1] == fb;
    assert r.value == [fa, fb];
  }

  /** Model 1, whose "a" is "2.x", gives a row for "a" only. */
  lemma FirstModelRows(fa: Facet, fb: Facet, m1: Subject)
    requires fa == Facet(Some("a"), Some("a"), Some("T"), FacetClass, None, None, None)
    requires fb == Facet(Some("1"), Some("1"), Some("T.a"), FacetClass, None, None, None)
    requires m1 == Subject("T", 1, map["a" := Leaf(Str("2.x"))])
    ensures ValueRows(fa, m1, BuildValues(fa, m1)) + ValueRows(fb, m1, BuildValues(fb, m1))
            == [Row("T.a", 1, Str("2.x"))]
  {
    JoinPair("T", "a", ".");
    SplitExamples();
    assert BuildValues(fa, m1) == [Leaf(Str("2.x"))];
    assert BuildValues(fb, m1) == [Leaf(Null)];
    assert Slug(fa) == "T.a";
    ValueRowsOne(fa, m1, Leaf(Str("2.x")));
    ValueRowsOne(fb, m1, Leaf(Null));
  }

  /** Model 2, whose "1" is "x", gives a row for "1" only, under the slug "T.a.1". */
  lemma SecondModelRows(fa: Facet, fb: Facet, m2: Subject)
    requires fa == Facet(Some("a"), Some("a"), Some("T"), FacetClass, None, None, None)
    requires fb == Facet(Some("1"), Some("1"), Some("T.a"), FacetClass, None, None, None)
    requires m2 == Subject("T", 2, map["1" := Leaf(Str("x"))])
    ensures ValueRows(fa, m2, BuildValues(fa, m2)) + ValueRows(fb, m2, BuildValues(fb, m2))
            == [Row("T.a.1", 2, Str("x"))]
  {
    JoinPair("T.a", "1", ".");
    SplitExamples();
    assert BuildValues(fa, m2) == [Leaf(Null)];
    assert BuildValues(fb, m2) == [Leaf(Str("x"))];
    assert Slug(fb) == "T.a.1";
    ValueRowsOne(fa, m2, Leaf(Null));
    ValueRowsOne(fb, m2, Leaf(Str("x")));
  }

  /** The candidates of two facets over two models, spelled out. */
  lemma TwoByTwo(fa: Facet, fb: Facet, m1: Subject, m2: Subject)
    ensures Candidates([fa, fb], [m1, m2]) ==
      (ValueRows(fa, m1, BuildValues(fa, m1)) + ValueRows(fb, m1, BuildValues(fb, m1))) +
      (ValueRows(fa, m2, BuildValues(fa, m2)) + ValueRows(fb, m2, BuildValues(fb, m2)))
  {
    var fs := [fa, fb];
    var p1 := seq(|fs|, j requires 0 <= j < |fs| => ValueRows(fs[j], m1, BuildValues(fs[j], m1)));
    ConcatPair(p1);
    var p2 := seq(|fs|, j requires 0 <= j < |fs| => ValueRows(fs[j], m2, BuildValues(fs[j], m2)));
    ConcatPair(p2);
    var ms := [m1, m2];
    ConcatPair(seq(|ms|, i requires 0 <= i < |ms| => ModelRows(fs, ms[i])));
  }

  lemma ConcatPair<T>(ss: seq<seq<T>>)
    requires |ss| == 2
    ensures Concat(ss) == ss[0] + ss[1]
  {
    assert ss[1..][1..] == [];
    assert Concat(ss[1..]) == ss[1] + [];
    assert ss[1] + [] == ss[1];
  }

  lemma ValueRowsOne(f: Facet, m: Subject, n: Node)
    ensures ValueRows(f, m, [n]) == if ScalarOf(n) == Null then [] else [BuildRow(f, m, ScalarOf(n))]
  {
    assert [n][1..] == [];
  }

  lemma SplitExamples()
    ensures Split("a", '.') == ["a"]
    ensures Split("1", '.') == ["1"]
  {
    assert Split("", '.') == [""];
    assert [""][1..] == [];
    assert "a"[1..] == "" && "1"[1..] == "";
    assert ['a'] + "" == "a" && ['1'] + "" == "1";
    assert Split("a", '.') == [['a'] + ""] + [""][1..];
    assert Split("1", '.') == [['1'] + ""] + [""][1..];
  }

  /** `array_chunk($s, $n)`: pieces of `n` (the last may be shorter) that
      concatenate back to `s`; no piece for an empty array. */
  function Chunk<T>(s: seq<T>, n: nat): (cs: seq<seq<T>>)
    requires n > 0
    ensures forall i | 0 <= i < |cs| :: 0 < |cs[i]| <= n
    ensures forall i | 0 <= i < |cs| - 1 :: |cs[i]| == n
    ensures Concat(cs) == s
    decreases |s|
  {
    if |s| == 0 then []
    else if |s| <= n then
      assert [s][1..] == [];
      [s]
    else
      var rest := Chunk(s[n..], n);
      assert ([s[..n]] + rest)[1..] == rest;
      assert s[..n] + s[n..] == s;
      [s[..n]] + rest
  }

  /** `insertRows`: inserts the rows chunk by chunk, so the table grows by
      exactly the rows, in order. */
  method InsertRows(table: seq<Row>, rows: seq<Row>) returns (table2: seq<Row>)
    ensures table2 == table + rows
  {
    var chunks := Chunk(rows, ChunkSize);
    table2 := table;
    for i := 0 to |chunks|
      invariant table2 == table + Concat(chunks[..i])
    {
      ConcatSnoc(chunks, i);
      table2 := table2 + chunks[i];
    }
    assert chunks[..|chunks|] == chunks;
  }

  /** The indexer's own model list, the facet registry and the table. */
  datatype IndexState = IndexState(models: Option<seq<Subject>>, registry: Registry, table: seq<Row>)

  /** `buildIndex($models)`: given models replace the stored ones; with
      none (or an empty list) nothing is inserted; otherwise the facets of
      the first model's class give the rows, and the table grows by every
      candidate row exactly once, none of them null. */
  method BuildIndex(s: IndexState, models: Option<seq<Subject>>, catalog: Catalog, slug: Slugger)
    returns (r: Result<IndexState>)
    ensures var use := if models.Some? then models else s.models;
      && (use.None? || use.value == [] ==> r == Ok(s.(models := use)))
      && (use.Some? && use.value != [] ==>
            var t := use.value[0].cls;
            && (r.Err? <==> t !in s.registry && MakeFacets(t, catalog(t)).Err?)
            && (r.Ok? ==>
                  && r.value.models == use
                  && t in r.value.registry
                  && Extends(s.registry, r.value.registry)
                  && |r.value.table| >= |s.table|
                  && r.value.table[..|s.table|] == s.table
                  && Distinct(r.value.table[|s.table|..])
                  && (forall x :: x in r.value.table[|s.table|..] <==>
                        x in Candidates(r.value.registry[t], use.value))))
  {
    var use := if models.Some? then models else s.models;
    if use.None? || use.value == [] {
      return Ok(s.(models := use));
    }
    var t := use.value[0].cls;
    match GetFacets(s.registry, t, NoFilter, false, catalog, [], slug) {
      case Err(e) =>
        return Err(e);
      case Ok((reg, facets)) =>
        var rows := IndexRows(facets, use.value);
        var table := InsertRows(s.table, rows);
        assert table[|s.table|..] == rows;
        return Ok(IndexState(use, reg, table));
    }
  }

  /** A call that throws after it has changed state: the state it leaves
      behind and the error it raises. */
  datatype Thrown<S> = Thrown(state: S, error: Error)

  /** The call both resets end with: `FacetFilter::forgetCache()`, which the
      class behind the `FacetFilter` facade does not define. */
  const ForgetOnFacade := UndefinedMethod("FacetFilter::forgetCache")

  /** `resetIndex` as written: the truncation happens, then the call of
      `forgetCache` on the facade throws. */
  function ResetIndexAsWritten(table: seq<Row>): (r: Thrown<seq<Row>>)
    ensures r.state == ResetIndex(table)
    ensures r.error.UndefinedMethod?
  {
    Thrown([], ForgetOnFacade)
  }

  /** `resetIndex`: truncates the table. */
  function ResetIndex(table: seq<Row>): (r: seq<Row>)
    ensures |r| == 0
  {
    []
  }

  function Slugs(facets: seq<Facet>): (ss: seq<string>)
    ensures |ss| == |facets|
    ensures forall j | 0 <= j < |facets| :: ss[j] == Slug(facets[j])
  {
    seq(|facets|, j requires 0 <= j < |facets| => Slug(facets[j]))
  }

  /** Is `r` a row of one of the models, under a slug of its class's facets? */
  ghost predicate Doomed(r: Row, ms: seq<Subject>, reg: Registry) {
    exists i | 0 <= i < |ms| :: ms[i].cls in reg && r.subjectId == ms[i].id && r.slug in Slugs(reg[ms[i].cls])
  }

  /** The loop of `resetRows` over the models, deleting each model's rows
      under its class's facet slugs. */
  function DeleteRows(ms: seq<Subject>, reg: Registry, catalog: Catalog, table: seq<Row>, slug: Slugger)
    : Result<(Registry, seq<Row>)>
    decreases |ms|
  {
    if |ms| == 0 then Ok((reg, table))
    else
      var m := ms[0];
      match GetFacets(reg, m.cls, NoFilter, false, catalog, [], slug)
      case Err(e) => Err(e)
      case Ok((reg1, facets)) =>
        DeleteRows(ms[1..], reg1, catalog, Keep(table, (x: Row) => !(x.subjectId == m.id && x.slug in Slugs(facets))), slug)
  }

  /** A row is doomed by a list of models when the first model dooms it or the rest do. */
  lemma DoomedCons(x: Row, ms: seq<Subject>, reg: Registry)
    requires |ms| > 0 && ms[0].cls in reg
    ensures Doomed(x, ms, reg) <==>
      (x.subjectId == ms[0].id && x.slug in Slugs(reg[ms[0].cls])) || Doomed(x, ms[1..], reg)
  {
    if Doomed(x, ms[1..], reg) {
      var i :| 0 <= i < |ms[1..]| && ms[1..][i].cls in reg && x.subjectId == ms[1..][i].id
               && x.slug in Slugs(reg[ms[1..][i].cls]);
      assert ms[i + 1] == ms[1..][i];
    }
    if Doomed(x, ms, reg) {
      var i :| 0 <= i < |ms| && ms[i].cls in reg && x.subjectId == ms[i].id && x.slug in Slugs(reg[ms[i].cls]);
      if i > 0 {
        assert ms[1..][i - 1] == ms[i];
      }
    }
  }

  /** Deleting model by model fails exactly when some model's class has no
      facets yet and cannot build them. */
  lemma {:induction false} DeleteRowsFails(ms: seq<Subject>, reg: Registry, catalog: Catalog, table: seq<Row>, slug: Slugger)
    ensures DeleteRows(ms, reg, catalog, table, slug).Err? <==>
      exists i | 0 <= i < |ms| :: ms[i].cls !in reg && MakeFacets(ms[i].cls, catalog(ms[i].cls)).Err?
    decreases |ms|
  {
    if |ms| > 0 {
      var m := ms[0];
      var g := GetFacets(reg, m.cls, NoFilter, false, catalog, [], slug);
      if g.Ok? {
        var (reg1, facets) := g.value;
        var kept := Keep(table, (x: Row) => !(x.subjectId == m.id && x.slug in Slugs(facets)));
        DeleteRowsFails(ms[1..], reg1, catalog, kept, slug);
        var Fails := (u: string, r: Registry) => u !in r && MakeFacets(u, catalog(u)).Err?;
        assert !Fails(m.cls, reg);
        forall i | 0 <= i < |ms[1..]| ensures Fails(ms[1..][i].cls, reg1) <==> Fails(ms[i + 1].cls, reg) {
          assert ms[1..][i] == ms[i + 1];
        }
        assert (exists i | 0 <= i < |ms[1..]| :: Fails(ms[1..][i].cls, reg1)) <==>
               (exists i | 0 <= i < |ms| :: Fails(ms[i].cls, reg)) by {
          if exists i | 0 <= i < |ms| :: Fails(ms[i].cls, reg) {
            var i :| 0 <= i < |ms| && Fails(ms[i].cls, reg);
            assert i > 0 && Fails(ms[1..][i - 1].cls, reg1);
          }
        }
      } else {
        assert ms[0].cls !in reg && MakeFacets(ms[0].cls, catalog(ms[0].cls)).Err?;
      }
    }
  }

  /** A successful deletion keeps every registered class's facets and
      registers the class of every model. */
  lemma {:induction false} DeleteRowsRegisters(ms: seq<Subject>, reg: Registry, catalog: Catalog, table: seq<Row>, slug: Slugger)
    ensures var r := DeleteRows(ms, reg, catalog, table, slug);
      r.Ok? ==> Extends(reg, r.value.0) && forall i | 0 <= i < |ms| :: ms[i].cls in r.value.0
    decreases |ms|
  {
    if |ms| > 0 {
      var m := ms[0];
      var g := GetFacets(reg, m.cls, NoFilter, false, catalog, [], slug);
      if g.Ok? {
        var (reg1, facets) := g.value;
        var kept := Keep(table, (x: Row) => !(x.subjectId == m.id && x.slug in Slugs(facets)));
        DeleteRowsRegisters(ms[1..], reg1, catalog, kept, slug);
        assert forall i | 1 <= i < |ms| :: ms[1..][i - 1] == ms[i];
      }
    }
  }

  /** A successful deletion keeps exactly the rows no model dooms, in order. */
  lemma {:induction false} DeleteRowsKeeps(ms: seq<Subject>, reg: Registry, catalog: Catalog, table: seq<Row>, slug: Slugger)
    ensures var r := DeleteRows(ms, reg, catalog, table, slug);
      r.Ok? ==>
        && Subsequence(r.value.1, table)
        && forall x :: x in r.value.1 <==> x in table && !Doomed(x, ms, r.value.0)
    decreases |ms|
  {
    if |ms| == 0 {
      SubsequenceRefl(table);
    } else {
      var m := ms[0];
      var g := GetFacets(reg, m.cls, NoFilter, false, catalog, [], slug);
      if g.Ok? {
        var (reg1, facets) := g.value;
        var kept := Keep(table, (x: Row) => !(x.subjectId == m.id && x.slug in Slugs(facets)));
        var rest := DeleteRows(ms[1..], reg1, catalog, kept, slug);
        if rest.Ok? {
          DeleteRowsKeeps(ms[1..], reg1, catalog, kept, slug);
          DeleteRowsRegisters(ms[1..], reg1, catalog, kept, slug);
          var (reg2, table2) := rest.value;
          assert m.cls in reg2 && reg2[m.cls] == facets;
          forall x ensures x in table2 <==> x in table && !Doomed(x, ms, reg2) {
            DoomedCons(x, ms, reg2);
          }
          SubsequenceTrans(table2, kept, table);
        }
      }
    }
  }

  /** A successful deletion keeps every copy of each row no model dooms,
      and no copy of a doomed row. */
  lemma {:induction false} DeleteRowsCounts(ms: seq<Subject>, reg: Registry, catalog: Catalog, table: seq<Row>, slug: Slugger)
    ensures var r := DeleteRows(ms, reg, catalog, table, slug);
      r.Ok? ==> forall x :: multiset(r.value.1)[x] == if Doomed(x, ms, r.value.0) then 0 else multiset(table)[x]
    decreases |ms|
  {
    if |ms| > 0 {
      var m := ms[0];
      var g := GetFacets(reg, m.cls, NoFilter, false, catalog, [], slug);
      if g.Ok? {
        var (reg1, facets) := g.value;
        var p := (x: Row) => !(x.subjectId == m.id && x.slug in Slugs(facets));
        var kept := Keep(table, p);
        var rest := DeleteRows(ms[1..], reg1, catalog, kept, slug);
        if rest.Ok? {
          KeepMultiset(table, p);
          DeleteRowsCounts(ms[1..], reg1, catalog, kept, slug);
          DeleteRowsRegisters(ms[1..], reg1, catalog, kept, slug);
          var (reg2, table2) := rest.value;
          assert m.cls in reg2 && reg2[m.cls] == facets;
          forall x ensures multiset(table2)[x] == if Doomed(x, ms, reg2) then 0 else multiset(table)[x] {
            DoomedCons(x, ms, reg2);
          }
        }
      }
    }
  }

  /** `resetRows($models)`: with no models the whole index goes; otherwise
      exactly the rows of a given model under one of its class's facet
      slugs are deleted, and every other row stays, in order. */
  function ResetRows(models: Option<seq<Subject>>, reg: Registry, catalog: Catalog, table: seq<Row>, slug: Slugger)
    : (r: Result<(Registry, seq<Row>)>)
    ensures models.None? || models.value == [] ==> r == Ok((reg, ResetIndex(table)))
    ensures models.Some? && models.value != [] && r.Ok? ==>
      && Subsequence(r.value.1, table)
      && (forall x :: x in r.value.1 <==> x in table && !Doomed(x, models.value, r.value.0))
      && forall x :: multiset(r.value.1)[x] == if Doomed(x, models.value, r.value.0) then 0 else multiset(table)[x]
  {
    if models.None? || models.value == [] then Ok((reg, ResetIndex(table)))
    else
      DeleteRowsKeeps(models.value, reg, catalog, table, slug);
      DeleteRowsCounts(models.value, reg, catalog, table, slug);
      DeleteRows(models.value, reg, catalog, table, slug)
  }

  /** How many models the loop of `resetRows` gets through before one
      whose class has no facets and cannot make them stops it. */
  function Reached(ms: seq<Subject>, reg: Registry, catalog: Catalog, slug: Slugger): (k: nat)
    ensures k <= |ms|
    decreases |ms|
  {
    if |ms| == 0 then 0
    else match GetFacets(reg, ms[0].cls, NoFilter, false, catalog, [], slug)
      case Err(_) => 0
      case Ok((reg1, _)) => 1 + Reached(ms[1..], reg1, catalog, slug)
  }

  /** The loop of `resetRows` runs without a transaction: the models before
      the one that stops it are deleted for good, and the loop is stopped
      exactly when it does not get through every model. */
  lemma {:induction false} ReachedPrefix(ms: seq<Subject>, reg: Registry, catalog: Catalog, table: seq<Row>, slug: Slugger)
    ensures DeleteRows(ms[..Reached(ms, reg, catalog, slug)], reg, catalog, table, slug).Ok?
    decreases |ms|
  {
    if |ms| == 0 {
      assert ms[..0] == ms;
    } else {
      var g := GetFacets(reg, ms[0].cls, NoFilter, false, catalog, [], slug);
      if g.Err? {
        DeleteStop(ms, reg, catalog, table, slug);
        assert ms[..0] == [];
      } else {
        var (reg1, facets) := g.value;
        ReachedPrefix(ms[1..], reg1, catalog, Keep(table, (x: Row) => !(x.subjectId == ms[0].id && x.slug in Slugs(facets))), slug);
        PrefixCons(ms, reg, catalog, table, slug, reg1, facets);
      }
    }
  }

  /** The loop runs to its end exactly when every model's class makes its facets. */
  lemma {:induction false} ReachedAll(ms: seq<Subject>, reg: Registry, catalog: Catalog, table: seq<Row>, slug: Slugger)
    ensures DeleteRows(ms, reg, catalog, table, slug).Ok? <==> Reached(ms, reg, catalog, slug) == |ms|
    decreases |ms|
  {
    if |ms| > 0 {
      var g := GetFacets(reg, ms[0].cls, NoFilter, false, catalog, [], slug);
      if g.Err? {
        DeleteStop(ms, reg, catalog, table, slug);
      } else {
        var (reg1, facets) := g.value;
        var kept := DeleteStep(ms, reg, catalog, table, slug, reg1, facets);
        ReachedAll(ms[1..], reg1, catalog, kept, slug);
      }
    }
  }

  /** A model whose class cannot make its facets stops the loop at once. */
  lemma DeleteStop(ms: seq<Subject>, reg: Registry, catalog: Catalog, table: seq<Row>, slug: Slugger)
    requires |ms| > 0 && GetFacets(reg, ms[0].cls, NoFilter, false, catalog, [], slug).Err?
    ensures DeleteRows(ms, reg, catalog, table, slug).Err?
    ensures Reached(ms, reg, catalog, slug) == 0
  {
  }

  /** The models the loop gets through delete without error, given that the
      rest do after the first. */
  lemma PrefixCons(ms: seq<Subject>, reg: Registry, catalog: Catalog, table: seq<Row>, slug: Slugger,
                   reg1: Registry, facets: seq<Facet>)
    requires |ms| > 0 && GetFacets(reg, ms[0].cls, NoFilter, false, catalog, [], slug) == Ok((reg1, facets))
    requires DeleteRows(ms[1..][..Reached(ms[1..], reg1, catalog, slug)], reg1, catalog,
                        Keep(table, (x: Row) => !(x.subjectId == ms[0].id && x.slug in Slugs(facets))), slug).Ok?
    ensures DeleteRows(ms[..Reached(ms, reg, catalog, slug)], reg, catalog, table, slug).Ok?
  {
    var kept := DeleteStep(ms, reg, catalog, table, slug, reg1, facets);
    PrefixStep(ms, reg, catalog, table, slug, reg1, facets, Reached(ms[1..], reg1, catalog, slug));
  }

  /** The first `k + 1` models delete what the first model deletes and then
      what the next `k` models delete from the rest. */
  lemma PrefixStep(ms: seq<Subject>, reg: Registry, catalog: Catalog, table: seq<Row>, slug: Slugger,
                   reg1: Registry, facets: seq<Facet>, k: nat)
    requires k < |ms| && GetFacets(reg, ms[0].cls, NoFilter, false, catalog, [], slug) == Ok((reg1, facets))
    ensures DeleteRows(ms[..k + 1], reg, catalog, table, slug)
         == DeleteRows(ms[1..][..k], reg1, catalog, Keep(table, (x: Row) => !(x.subjectId == ms[0].id && x.slug in Slugs(facets))), slug)
  {
    var pre := ms[..k + 1];
    assert pre[0] == ms[0] && pre[1..] == ms[1..][..k];
    var kept := DeleteStep(pre, reg, catalog, table, slug, reg1, facets);
  }

  /** One turn of the loop of `resetRows` for a model whose facets are at hand. */
  lemma DeleteStep(ms: seq<Subject>, reg: Registry, catalog: Catalog, table: seq<Row>, slug: Slugger,
                   reg1: Registry, facets: seq<Facet>)
    returns (kept: seq<Row>)
    requires |ms| > 0 && GetFacets(reg, ms[0].cls, NoFilter, false, catalog, [], slug) == Ok((reg1, facets))
    ensures kept == Keep(table, (x: Row) => !(x.subjectId == ms[0].id && x.slug in Slugs(facets)))
    ensures DeleteRows(ms, reg, catalog, table, slug) == DeleteRows(ms[1..], reg1, catalog, kept, slug)
    ensures Reached(ms, reg, catalog, slug) == 1 + Reached(ms[1..], reg1, catalog, slug)
  {
    kept := Keep(table, (x: Row) => !(x.subjectId == ms[0].id && x.slug in Slugs(facets)));
  }

  /** `resetRows` as written. When the deletions (or, without models, the
      truncation) go through, the call of `forgetCache` on the facade
      throws afterwards, so the call never returns normally. When a model's
      class cannot make its facets, that error is raised with the earlier
      models' rows already deleted. */
  function ResetRowsAsWritten(models: Option<seq<Subject>>, reg: Registry, catalog: Catalog, table: seq<Row>, slug: Slugger)
    : (r: Thrown<(Registry, seq<Row>)>)
    ensures ResetRows(models, reg, catalog, table, slug).Ok? ==>
      r == Thrown(ResetRows(models, reg, catalog, table, slug).value, ForgetOnFacade)
    ensures ResetRows(models, reg, catalog, table, slug).Err? ==>
      && models.Some?
      && var k := Reached(models.value, reg, catalog, slug);
      && k < |models.value|
      && r.error == ResetRows(models, reg, catalog, table, slug).error
      && Ok(r.state) == DeleteRows(models.value[..k], reg, catalog, table, slug)
  {
    if models.None? || models.value == [] then
      var t := ResetIndexAsWritten(table);
      Thrown((reg, t.state), t.error)
    else
      var ms := models.value;
      var k := Reached(ms, reg, catalog, slug);
      ReachedPrefix(ms, reg, catalog, table, slug);
      ReachedAll(ms, reg, catalog, table, slug);
      var done := DeleteRows(ms[..k], reg, catalog, table, slug).value;
      match DeleteRows(ms, reg, catalog, table, slug)
      case Err(e) => Thrown(done, e)
      case Ok(_) =>
        assert ms[..k] == ms;
        Thrown(done, ForgetOnFacade)
  }
}
