/** `FacettableCollection::facetFilter` (src/Collections/FacettableCollection.php):
    filtering an in-memory collection of models by a filter array without
    the database index. Every facet gets rows built from the collection, a
    selection that covers every value present counts as no selection, each
    facet keeps the ids of the models it lets through, and the facets' id
    lists are combined by a fold that restarts whenever its running result
    is empty. The ids for each "all but one facet" filter and for the whole
    filter are stored in the per-request id memo, and the models whose id
    the combination keeps are returned. */
module FacettableCollection {
  import opened Common
  import opened Values
  import opened Filters
  import opened Facets
  import opened FacetDefinitions
  import opened FacetFilter
  import opened IdCache
  import opened Indexer

  /** The rows of one model for one facet, one per value `buildValues`
      yields, null values included. */
  function ValueRowsOf(f: Facet, m: Subject): (rows: seq<Row>)
    ensures |rows| == |BuildValues(f, m)|
    ensures forall k | 0 <= k < |rows| :: rows[k] == BuildRow(f, m, ScalarOf(BuildValues(f, m)[k]))
  {
    var vs := BuildValues(f, m);
    seq(|vs|, k requires 0 <= k < |vs| => BuildRow(f, m, ScalarOf(vs[k])))
  }

  /** The rows `facetFilter` builds for one facet from the collection: every
      value of every model, each carrying the facet's slug and the model's id. */
  function CollectionRows(f: Facet, coll: seq<Subject>): (rows: seq<Row>)
    ensures forall r :: r in rows <==>
      exists i, k | 0 <= i < |coll| && 0 <= k < |BuildValues(f, coll[i])| ::
        r == Row(Slug(f), coll[i].id, ScalarOf(BuildValues(f, coll[i])[k]))
    decreases |coll|
  {
    if |coll| == 0 then []
    else
      var here := ValueRowsOf(f, coll[0]);
      var rest := CollectionRows(f, coll[1..]);
      assert forall i | 1 <= i < |coll| :: coll[1..][i - 1] == coll[i];
      assert forall r | r in rest ::
        exists i, k | 0 <= i < |coll| && 0 <= k < |BuildValues(f, coll[i])| ::
          r == Row(Slug(f), coll[i].id, ScalarOf(BuildValues(f, coll[i])[k])) by {
        forall r | r in rest
          ensures exists i, k | 0 <= i < |coll| && 0 <= k < |BuildValues(f, coll[i])| ::
            r == Row(Slug(f), coll[i].id, ScalarOf(BuildValues(f, coll[i])[k]))
        {
          var i, k :| 0 <= i < |coll[1..]| && 0 <= k < |BuildValues(f, coll[1..][i])|
            && r == Row(Slug(f), coll[1..][i].id, ScalarOf(BuildValues(f, coll[1..][i])[k]));
          assert coll[1..][i] == coll[i + 1];
        }
      }
      here + rest
  }

  /** A row whose value is not null. */
  predicate NonNull(r: Row) {
    r.value != Null
  }

  /** Without its null rows, one model's list of rows is exactly what
      `buildIndex` makes of the same values. */
  lemma {:induction false} NonNullValueRows(f: Facet, m: Subject, vs: seq<Node>)
    ensures Keep(seq(|vs|, k requires 0 <= k < |vs| => BuildRow(f, m, ScalarOf(vs[k]))), NonNull) == ValueRows(f, m, vs)
  {
    if |vs| > 0 {
      var all := seq(|vs|, k requires 0 <= k < |vs| => BuildRow(f, m, ScalarOf(vs[k])));
      var tail := seq(|vs[1..]|, k requires 0 <= k < |vs[1..]| => BuildRow(f, m, ScalarOf(vs[1..][k])));
      assert all[1..] == tail;
      NonNullValueRows(f, m, vs[1..]);
    }
  }

  /** Without its null rows, the collection's rows for one facet are exactly
      the index rows `buildIndex` considers for that facet, in the same
      order and with the same repetitions. */
  lemma {:induction false} CollectionRowsIndexed(f: Facet, coll: seq<Subject>)
    ensures Keep(CollectionRows(f, coll), NonNull) == Candidates([f], coll)
    decreases |coll|
  {
    if |coll| > 0 {
      var m := coll[0];
      CollectionRowsIndexed(f, coll[1..]);
      KeepAppend(ValueRowsOf(f, m), CollectionRows(f, coll[1..]), NonNull);
      NonNullValueRows(f, m, BuildValues(f, m));
      OneFacetModelRows(f, m);
      CandidatesCons([f], coll);
    }
  }

  lemma OneFacetModelRows(f: Facet, m: Subject)
    ensures ModelRows([f], m) == ValueRows(f, m, BuildValues(f, m))
  {
    var perFacet := seq(|[f]|, j requires 0 <= j < |[f]| => ValueRows([f][j], m, BuildValues([f][j], m)));
    assert perFacet == [ValueRows(f, m, BuildValues(f, m))];
    assert perFacet[1..] == [];
    assert ModelRows([f], m) == Concat(perFacet);
    assert Concat(perFacet) == perFacet[0] + Concat(perFacet[1..]);
    assert perFacet[0] + [] == perFacet[0];
  }

  lemma CandidatesCons(facets: seq<Facet>, coll: seq<Subject>)
    requires |coll| > 0
    ensures Candidates(facets, coll) == ModelRows(facets, coll[0]) + Candidates(facets, coll[1..])
  {
    var perModel := seq(|coll|, i requires 0 <= i < |coll| => ModelRows(facets, coll[i]));
    assert perModel[1..] == seq(|coll[1..]|, i requires 0 <= i < |coll[1..]| => ModelRows(facets, coll[1..][i]));
  }

  /** Every value present in the rows, as `pluck('value')->filter()` keeps
      it, is among the selected values. */
  predicate SelectsAll(rows: seq<Row>, selected: seq<string>) {
    forall r | r in rows :: Truthy(r.value) ==> Text(r.value) in selected
  }

  /** The selection a facet filters by: selecting every value present is the
      same as selecting none. */
  function EffectiveSelection(rows: seq<Row>, selected: seq<string>): (sel: seq<string>)
    ensures sel == [] <==> selected == [] || SelectsAll(rows, selected)
    ensures sel != [] ==> sel == selected
  {
    if SelectsAll(rows, selected) then [] else selected
  }

  /** `$values->intersect($selectedValues)->isNotEmpty()`: one of the
      model's values for the facet is selected. */
  predicate Matches(f: Facet, m: Subject, selected: seq<string>) {
    var vs := BuildValues(f, m);
    exists k | 0 <= k < |vs| :: Text(ScalarOf(vs[k])) in selected
  }

  /** A facet's `included_ids`: with no selection every model's id, in
      collection order; otherwise the ids of the models one of whose values
      is selected, in collection order. */
  function IncludedIds(f: Facet, coll: seq<Subject>, selected: seq<string>): (ids: seq<Id>)
    ensures selected == [] ==> ids == Ids(coll)
    ensures selected != [] ==> forall id :: id in ids <==>
      exists i | 0 <= i < |coll| :: coll[i].id == id && Matches(f, coll[i], selected)
    ensures |ids| <= |coll|
    ensures Subsequence(ids, Ids(coll))
  {
    if selected == [] then (SubsequenceRefl(Ids(coll)); Ids(coll))
    else
      var kept := Keep(coll, (m: Subject) => Matches(f, m, selected));
      assert forall id :: id in Ids(kept) <==> exists i | 0 <= i < |coll| :: coll[i].id == id && Matches(f, coll[i], selected) by {
        forall id ensures id in Ids(kept) <==> exists i | 0 <= i < |coll| :: coll[i].id == id && Matches(f, coll[i], selected) {
          if id in Ids(kept) {
            var j :| 0 <= j < |kept| && Ids(kept)[j] == id;
            assert kept[j] in coll;
          }
          if exists i | 0 <= i < |coll| :: coll[i].id == id && Matches(f, coll[i], selected) {
            var i :| 0 <= i < |coll| && coll[i].id == id && Matches(f, coll[i], selected);
            assert coll[i] in kept;
            var j :| 0 <= j < |kept| && kept[j] == coll[i];
            assert Ids(kept)[j] == id;
          }
        }
      }
      IdsSubsequence(kept, coll);
      Ids(kept)
  }

  /** Keeping some subjects in order keeps their ids in order. */
  lemma {:induction false} IdsSubsequence(a: seq<Subject>, b: seq<Subject>)
    requires Subsequence(a, b)
    ensures Subsequence(Ids(a), Ids(b))
    decreases |b|
  {
    if |a| > 0 {
      assert Ids(b)[1..] == Ids(b[1..]);
      if a[0] == b[0] {
        assert Ids(a)[1..] == Ids(a[1..]);
        IdsSubsequence(a[1..], b[1..]);
      } else {
        IdsSubsequence(a, b[1..]);
        SubsequenceExtend(Ids(a), Ids(b));
      }
    }
  }

  /** `included_ids` as written: with a selection, the loop calls
      `intersect` on the plain array `buildValues` returns and throws at the
      first model; without a model the loop body never runs. */
  function IncludedIdsAsWritten(f: Facet, coll: seq<Subject>, selected: seq<string>): (r: Result<seq<Id>>)
    ensures r.Ok? <==> selected == [] || coll == []
    ensures r.Ok? ==> r.value == IncludedIds(f, coll, selected)
    ensures r.Err? ==> r.error == MethodOnArray("intersect")
  {
    if selected == [] then Ok(Ids(coll))
    else if coll == [] then Ok([])
    else Err(MethodOnArray("intersect"))
  }

  /** As written, any facet with an effective selection makes `facetFilter`
      throw: a selection only stays in force when the collection has a
      value outside it, so there is a model to call `intersect` for. */
  lemma {:induction false} SelectionThrows(f: Facet, coll: seq<Subject>, selected: seq<string>)
    ensures var sel := EffectiveSelection(CollectionRows(f, coll), selected);
      IncludedIdsAsWritten(f, coll, sel).Err? <==> sel != []
  {
    if coll == [] {
      assert CollectionRows(f, coll) == [];
    }
  }

  /** `array_intersect($a, $b)`: the ids of `a` that are also in `b`, in `a`'s order. */
  function Inter(a: seq<Id>, b: seq<Id>): (r: seq<Id>)
    ensures forall x :: x in r <==> x in a && x in b
    ensures Subsequence(r, a)
  {
    Keep(a, (x: Id) => x in b)
  }

  /** One step of the combination loop: an empty running result is replaced
      by the next list instead of being intersected with it. */
  function Step(acc: seq<Id>, s: seq<Id>): seq<Id> {
    if acc == [] then s else Inter(acc, s)
  }

  /** The combination of id lists in loop order; nothing for no lists. */
  function Fold(ss: seq<seq<Id>>): (r: seq<Id>)
    ensures |ss| == 0 ==> r == []
    ensures |ss| > 0 ==> forall x | x in r :: x in ss[|ss| - 1]
    decreases |ss|
  {
    if |ss| == 0 then [] else Step(Fold(ss[..|ss| - 1]), ss[|ss| - 1])
  }

  /** An id in every list survives the combination. */
  lemma {:induction false} FoldCovers(ss: seq<seq<Id>>, x: Id)
    requires |ss| > 0
    requires forall i | 0 <= i < |ss| :: x in ss[i]
    ensures x in Fold(ss)
    decreases |ss|
  {
    var n := |ss|;
    if n > 1 {
      var p := ss[..n - 1];
      assert forall i | 0 <= i < |p| :: p[i] == ss[i];
      FoldCovers(p, x);
    }
  }

  /** The running result is never empty before the last list. */
  ghost predicate NoRestart(ss: seq<seq<Id>>) {
    forall n | 1 <= n < |ss| :: Fold(ss[..n]) != []
  }

  /** As long as the running result never runs empty, the combination is
      exactly the intersection of all lists. */
  lemma {:induction false} FoldIsIntersection(ss: seq<seq<Id>>, x: Id)
    requires |ss| > 0 && NoRestart(ss)
    ensures x in Fold(ss) <==> forall i | 0 <= i < |ss| :: x in ss[i]
    decreases |ss|
  {
    var n := |ss|;
    if n == 1 {
      assert ss[..0] == [];
    } else {
      var p := ss[..n - 1];
      assert forall k | 1 <= k < |p| :: p[..k] == ss[..k];
      assert NoRestart(p);
      assert Fold(p) != [];
      FoldIsIntersection(p, x);
      assert forall i | 0 <= i < |p| :: p[i] == ss[i];
    }
  }

  /** An empty running result does not stay empty: lists {1}, {2}, {3} share
      no id, yet the combination is [3]. */
  lemma FoldRestarts()
    ensures Fold([[1], [2], [3]]) == [3]
    ensures forall x: Id :: !(x in [1] && x in [2] && x in [3])
  {
    var ss: seq<seq<Id>> := [[1], [2], [3]];
    assert ss[..2][..1] == [[1]];
    assert ss[..1][..0] == [];
    assert Fold(ss[..1]) == [1];
    assert Fold(ss[..2]) == Inter([1], [2]);
    assert Fold(ss[..2]) == [];
  }

  /** One facet's part of the combination: its parameter name and `included_ids`. */
  datatype Part = Part(param: string, ids: seq<Id>)

  function IdsOf(parts: seq<Part>): (ss: seq<seq<Id>>)
    ensures |ss| == |parts|
    ensures forall i | 0 <= i < |parts| :: ss[i] == parts[i].ids
  {
    seq(|parts|, i requires 0 <= i < |parts| => parts[i].ids)
  }

  /** The ids stored for "every facet but the one named `p`": the
      combination over the facets whose parameter name differs. */
  function Exclusion(parts: seq<Part>, p: string): seq<Id> {
    Fold(IdsOf(Keep(parts, (q: Part) => q.param != p)))
  }

  /** The ids of the whole filter: the combination over every facet. */
  function Final(parts: seq<Part>): seq<Id> {
    Fold(IdsOf(parts))
  }

  /** With one facet there is no other facet, so its "all but this facet"
      ids are empty. */
  lemma SingleFacetExclusion(parts: seq<Part>)
    requires |parts| == 1
    ensures Exclusion(parts, parts[0].param) == []
  {
  }

  /** The facets' parts for a collection under a filter. */
  function FacetParts(facets: seq<Facet>, coll: seq<Subject>, filter: Filter, slug: Slugger): seq<Part> {
    seq(|facets|, i requires 0 <= i < |facets| =>
      var p := ParamName(facets[i], slug);
      Part(p, IncludedIds(facets[i], coll, EffectiveSelection(CollectionRows(facets[i], coll), Selected(filter, p)))))
  }

  /** The stores `facetFilter` makes, in call order: for each facet, under
      the filter with that facet's entry emptied, the value given for it;
      then, under the whole filter, the combined ids. */
  function Writes(filter: Filter, names: seq<string>, vals: seq<seq<Id>>, final: seq<Id>): seq<Write>
    requires |vals| == |names|
  {
    seq(|names|, i requires 0 <= i < |names| => Write(Replace(filter, names[i], []), vals[i]))
    + [Write(filter, final)]
  }

  /** The facets' parameter names and "all but this facet" ids. */
  function Names(parts: seq<Part>): (ns: seq<string>)
    ensures |ns| == |parts|
    ensures forall i | 0 <= i < |parts| :: ns[i] == parts[i].param
  {
    seq(|parts|, i requires 0 <= i < |parts| => parts[i].param)
  }

  function Exclusions(parts: seq<Part>): (vs: seq<seq<Id>>)
    ensures |vs| == |parts|
    ensures forall i | 0 <= i < |parts| :: vs[i] == Exclusion(parts, parts[i].param)
  {
    seq(|parts|, i requires 0 <= i < |parts| => Exclusion(parts, parts[i].param))
  }

  /** What `facetFilter` has before filtering: the subject type (the first
      model's class), the normalised filter, and the registry holding the
      subject type's facets with that filter set. */
  datatype Setup = Setup(subjectType: string, filter: Filter, registry: Registry, facets: seq<Facet>)

  /** The opening of `facetFilter`: fails on an empty collection (there is
      no first model) and when the subject type's facets cannot be built;
      otherwise the filter is normalised against the facets' parameter names
      and set on every facet. */
  function Prepare(coll: seq<Subject>, raw: RawInput, reg: Registry, catalog: Catalog, table: seq<Row>, slug: Slugger)
    : (r: Result<Setup>)
    ensures coll == [] ==> r == Err(EmptyCollection)
    ensures coll != [] ==>
      (r.Err? <==> coll[0].cls !in reg && MakeFacets(coll[0].cls, catalog(coll[0].cls)).Err?)
    ensures r.Ok? ==>
      var s := r.value;
      && s.subjectType == coll[0].cls
      && s.subjectType in s.registry && s.registry[s.subjectType] == s.facets
      && s.registry.Keys == reg.Keys + {s.subjectType}
      && (forall u | u in reg && u != s.subjectType :: s.registry[u] == reg[u])
      && WellFormed(s.filter)
      && Params(s.filter) == Dedup(ParamNames(s.facets, slug))
      && (forall p :: Filters.Get(s.filter, p) ==
            if p in ParamNames(s.facets, slug) then Some(if p in raw then Wrap(raw[p]) else []) else None)
      && (forall i | 0 <= i < |s.facets| :: s.facets[i].filter == Some(s.filter))
  {
    if coll == [] then Err(EmptyCollection)
    else
      var t := coll[0].cls;
      match FilterFromArr(reg, t, raw, catalog, table, slug)
      case Err(e) => Err(e)
      case Ok((reg1, filter)) =>
        var g := GetFacets(reg1, t, FilterArray(AsRaw(filter)), false, catalog, table, slug);
        Refilter(reg1, t, raw, catalog, table, slug);
        Ok(Setup(t, filter, g.value.0, g.value.1))
  }

  /** Setting a filter normalised against a known subject type's facets
      keeps the facets' parameter names and puts exactly that filter on each. */
  lemma Refilter(reg: Registry, t: string, raw: RawInput, catalog: Catalog, table: seq<Row>, slug: Slugger)
    requires t in reg
    ensures var filter := Normalize(ParamNames(reg[t], slug), raw);
      var g := GetFacets(reg, t, FilterArray(AsRaw(filter)), false, catalog, table, slug);
      && g.Ok?
      && g.value.0 == reg[t := g.value.1]
      && ParamNames(g.value.1, slug) == ParamNames(reg[t], slug)
      && forall i | 0 <= i < |g.value.1| :: g.value.1[i].filter == Some(filter)
  {
    var filter := Normalize(ParamNames(reg[t], slug), raw);
    var g := GetFacets(reg, t, FilterArray(AsRaw(filter)), false, catalog, table, slug);
    NormalizeIdempotent(ParamNames(reg[t], slug), raw);
    assert ParamNames(g.value.1, slug) == ParamNames(reg[t], slug);
  }

  /** The registry with the facets' rows replaced by the collection's rows
      (`setRows`), the id memo, and the models `whereIn('id', ...)` keeps. */
  datatype Outcome = Outcome(registry: Registry, idCache: IdCache, subjects: seq<Subject>)

  /** The rest of `facetFilter` once the facets are known: rows from the
      collection, the memo of the subject type reset and then filled, and
      the models whose id survives the combination, in collection order. */
  function Finish(s: Setup, coll: seq<Subject>, cache: IdCache, slug: Slugger, json: Encoder): (o: Outcome)
    ensures Subsequence(o.subjects, coll)
    ensures forall m :: m in o.subjects <==> m in coll && m.id in Final(FacetParts(s.facets, coll, s.filter, slug))
    ensures o.registry.Keys == s.registry.Keys + {s.subjectType}
    ensures forall u | u in s.registry && u != s.subjectType :: o.registry[u] == s.registry[u]
    ensures |o.registry[s.subjectType]| == |s.facets|
    ensures forall i | 0 <= i < |s.facets| ::
      o.registry[s.subjectType][i] == SetRows(s.facets[i], CollectionRows(s.facets[i], coll))
  {
    var parts := FacetParts(s.facets, coll, s.filter, slug);
    var ids := Final(parts);
    Outcome(WithRows(s.registry, s.subjectType, s.facets, coll),
            Memo(s.filter, parts, cache, s.subjectType, json),
            Survivors(coll, ids))
  }

  /** `whereIn('id', $ids)` on the collection. */
  function Survivors(coll: seq<Subject>, ids: seq<Id>): (r: seq<Subject>)
    ensures Subsequence(r, coll)
    ensures forall m :: m in r <==> m in coll && m.id in ids
  {
    Keep(coll, (m: Subject) => m.id in ids)
  }

  /** The registry with the subject type's facets holding the collection's rows. */
  function WithRows(reg: Registry, t: string, facets: seq<Facet>, coll: seq<Subject>): (r: Registry)
    ensures r.Keys == reg.Keys + {t}
    ensures forall u | u in reg && u != t :: r[u] == reg[u]
    ensures |r[t]| == |facets|
    ensures forall i | 0 <= i < |facets| :: r[t][i] == SetRows(facets[i], CollectionRows(facets[i], coll))
  {
    reg[t := WithCollectionRows(facets, coll)]
  }

  /** `$facet->setRows(collect($rows))` on every facet. */
  function WithCollectionRows(facets: seq<Facet>, coll: seq<Subject>): (r: seq<Facet>)
    ensures |r| == |facets|
    ensures forall i | 0 <= i < |facets| :: r[i] == SetRows(facets[i], CollectionRows(facets[i], coll))
  {
    seq(|facets|, i requires 0 <= i < |facets| => SetRows(facets[i], CollectionRows(facets[i], coll)))
  }

  /** `facetFilter($filter)` with the default indexer: fails exactly on an
      empty collection or a subject type whose facets cannot be built. */
  function FilterCollection(coll: seq<Subject>, raw: RawInput, reg: Registry, cache: IdCache,
                            catalog: Catalog, table: seq<Row>, slug: Slugger, json: Encoder): (r: Result<Outcome>)
    ensures coll == [] ==> r == Err(EmptyCollection)
    ensures coll != [] ==>
      (r.Err? <==> coll[0].cls !in reg && MakeFacets(coll[0].cls, catalog(coll[0].cls)).Err?)
    ensures r.Ok? ==> Prepare(coll, raw, reg, catalog, table, slug).Ok?
    ensures r.Ok? ==> r.value == Finish(Prepare(coll, raw, reg, catalog, table, slug).value, coll, cache, slug, json)
  {
    match Prepare(coll, raw, reg, catalog, table, slug)
    case Err(e) => Err(e)
    case Ok(s) => Ok(Finish(s, coll, cache, slug, json))
  }

  /** While the combination never runs empty, a model is returned exactly
      when every facet lets it through. */
  lemma FilteredModels(s: Setup, coll: seq<Subject>, cache: IdCache, slug: Slugger, json: Encoder, m: Subject)
    requires |s.facets| > 0 && NoRestart(IdsOf(FacetParts(s.facets, coll, s.filter, slug)))
    ensures var parts := FacetParts(s.facets, coll, s.filter, slug);
      m in Finish(s, coll, cache, slug, json).subjects <==>
        m in coll && forall i | 0 <= i < |parts| :: m.id in parts[i].ids
  {
    var parts := FacetParts(s.facets, coll, s.filter, slug);
    assert Finish(s, coll, cache, slug, json).subjects == Survivors(coll, Final(parts));
    SurvivorsOfIntersection(coll, parts, m);
  }

  /** The same for any parts: the survivors are the models in every part. */
  lemma SurvivorsOfIntersection(coll: seq<Subject>, parts: seq<Part>, m: Subject)
    requires |parts| > 0 && NoRestart(IdsOf(parts))
    ensures m in Survivors(coll, Final(parts)) <==> m in coll && forall i | 0 <= i < |parts| :: m.id in parts[i].ids
  {
    FoldIsIntersection(IdsOf(parts), m.id);
  }

  /** All lists equal to one list combine to that list. */
  lemma {:induction false} FoldSame(ss: seq<seq<Id>>, ids: seq<Id>)
    requires |ss| > 0
    requires forall i | 0 <= i < |ss| :: ss[i] == ids
    ensures Fold(ss) == ids
    decreases |ss|
  {
    var n := |ss|;
    if n > 1 {
      var p := ss[..n - 1];
      FoldSame(p, ids);
      if ids != [] {
        KeepAll(ids, (x: Id) => x in ids);
      }
    } else {
      assert ss[..0] == [];
    }
  }

  /** When no facet filters (each selection is empty or covers every value
      present) and there is at least one facet, the whole collection comes
      back. */
  lemma NothingSelectedKeepsAll(s: Setup, coll: seq<Subject>, cache: IdCache, slug: Slugger, json: Encoder)
    requires |s.facets| > 0
    requires forall i | 0 <= i < |s.facets| ::
      var sel := Selected(s.filter, ParamName(s.facets[i], slug));
      sel == [] || SelectsAll(CollectionRows(s.facets[i], coll), sel)
    ensures Finish(s, coll, cache, slug, json).subjects == coll
  {
    var parts := FacetParts(s.facets, coll, s.filter, slug);
    FoldSame(IdsOf(parts), Ids(coll));
    var ids := Final(parts);
    assert forall m | m in coll :: m.id in ids by {
      forall m | m in coll ensures m.id in ids {
        var i :| 0 <= i < |coll| && coll[i] == m;
        assert Ids(coll)[i] == m.id;
      }
    }
    KeepAll(coll, (m: Subject) => m.id in ids);
  }

  /** A subject type without facets filters everything out. */
  lemma NoFacetsKeepsNone(s: Setup, coll: seq<Subject>, cache: IdCache, slug: Slugger, json: Encoder)
    requires s.facets == []
    ensures Finish(s, coll, cache, slug, json).subjects == []
  {
  }

  /** The memo `facetFilter` leaves: the subject type's entry reset, then
      filled by the stores in call order. */
  function Memo(filter: Filter, parts: seq<Part>, cache: IdCache, t: string, json: Encoder): IdCache {
    ApplyWrites(Reset(cache, t), t, Writes(filter, Names(parts), Exclusions(parts), Final(parts)), json)
  }

  /** The whole filter reads the combined ids. */
  lemma MemoWhole(filter: Filter, parts: seq<Part>, cache: IdCache, t: string, json: Encoder)
    requires Injective(json)
    ensures Read(Memo(filter, parts, cache, t, json), t, filter, json) == Found(Final(parts))
  {
    var ws := Writes(filter, Names(parts), Exclusions(parts), Final(parts));
    ReadAfterWrites(Reset(cache, t), t, ws, filter, json);
    assert ws[|ws| - 1] == Write(filter, Final(parts));
  }

  /** The filter with a selecting facet's entry emptied reads that facet's
      "all but this facet" ids. */
  lemma MemoExclusion(filter: Filter, parts: seq<Part>, cache: IdCache, t: string, json: Encoder, i: nat)
    requires Injective(json) && WellFormed(filter)
    requires i < |parts| && Selected(filter, parts[i].param) != []
    ensures Read(Memo(filter, parts, cache, t, json), t, Replace(filter, parts[i].param, []), json)
            == Found(Exclusion(parts, parts[i].param))
  {
    ExclusionsByName(parts);
    EmptiedRead(Reset(cache, t), t, filter, Names(parts), Exclusions(parts), Final(parts), i, json);
  }

  /** The same, for any run of stores shaped like `facetFilter`'s. */
  lemma EmptiedRead(c: IdCache, t: string, filter: Filter, names: seq<string>, vals: seq<seq<Id>>,
                    final: seq<Id>, i: nat, json: Encoder)
    requires Injective(json) && WellFormed(filter) && |vals| == |names|
    requires forall j, k | 0 <= j < |names| && 0 <= k < |names| && names[j] == names[k] :: vals[j] == vals[k]
    requires i < |names| && Selected(filter, names[i]) != []
    ensures Read(ApplyWrites(c, t, Writes(filter, names, vals, final), json), t, Replace(filter, names[i], []), json)
            == Found(vals[i])
  {
    ReadAfterWrites(c, t, Writes(filter, names, vals, final), Replace(filter, names[i], []), json);
    LastEmptiedWrite(filter, names, vals, final, i);
  }

  /** Two facets with the same parameter name get the same "all but this facet" ids. */
  lemma ExclusionsByName(parts: seq<Part>)
    ensures var (names, vals) := (Names(parts), Exclusions(parts));
      forall j, k | 0 <= j < |names| && 0 <= k < |names| && names[j] == names[k] :: vals[j] == vals[k]
  {
  }

  /** A filter never stored reads nothing: the reset removed whatever was there. */
  lemma MemoNothingElse(filter: Filter, parts: seq<Part>, cache: IdCache, t: string, json: Encoder, g: Filter)
    requires Injective(json)
    requires g != filter && forall i | 0 <= i < |parts| :: g != Replace(filter, parts[i].param, [])
    ensures Read(Memo(filter, parts, cache, t, json), t, g, json) == NotCached
  {
    var ws := Writes(filter, Names(parts), Exclusions(parts), Final(parts));
    ReadAfterWrites(Reset(cache, t), t, ws, g, json);
    assert forall j | 0 <= j < |ws| :: ws[j].filter != g;
  }

  /** After `facetFilter`, the subject type's memo holds exactly what it
      stored: the combined ids under the whole filter, the "all but this
      facet" ids under the filter with a selecting facet's entry emptied,
      and nothing under any other filter; other subject types are untouched. */
  lemma CachedIds(s: Setup, coll: seq<Subject>, cache: IdCache, slug: Slugger, json: Encoder)
    requires Injective(json) && WellFormed(s.filter)
    ensures var parts := FacetParts(s.facets, coll, s.filter, slug);
      var c := Finish(s, coll, cache, slug, json).idCache;
      && Read(c, s.subjectType, s.filter, json) == Found(Final(parts))
      && (forall i | 0 <= i < |parts| && Selected(s.filter, parts[i].param) != [] ::
            Read(c, s.subjectType, Replace(s.filter, parts[i].param, []), json) == Found(Exclusion(parts, parts[i].param)))
      && (forall g | g != s.filter && (forall i | 0 <= i < |parts| :: g != Replace(s.filter, parts[i].param, [])) ::
            Read(c, s.subjectType, g, json) == NotCached)
      && (forall u | u != s.subjectType :: (u in c <==> u in cache) && (u in cache ==> c[u] == cache[u]))
  {
    var t := s.subjectType;
    var parts := FacetParts(s.facets, coll, s.filter, slug);
    assert Finish(s, coll, cache, slug, json).idCache == Memo(s.filter, parts, cache, t, json);
    MemoWhole(s.filter, parts, cache, t, json);
    forall i | 0 <= i < |parts| && Selected(s.filter, parts[i].param) != []
      ensures Read(Memo(s.filter, parts, cache, t, json), t, Replace(s.filter, parts[i].param, []), json)
              == Found(Exclusion(parts, parts[i].param))
    {
      MemoExclusion(s.filter, parts, cache, t, json, i);
    }
    forall g | g != s.filter && (forall i | 0 <= i < |parts| :: g != Replace(s.filter, parts[i].param, []))
      ensures Read(Memo(s.filter, parts, cache, t, json), t, g, json) == NotCached
    {
      MemoNothingElse(s.filter, parts, cache, t, json, g);
    }
    forall u | u != t
      ensures (u in Memo(s.filter, parts, cache, t, json) <==> u in cache)
      ensures u in cache ==> Memo(s.filter, parts, cache, t, json)[u] == cache[u]
    {
      ApplyWritesOthers(Reset(cache, t), t, Writes(s.filter, Names(parts), Exclusions(parts), Final(parts)), json, u);
    }
  }

  /** Under the filter with a selecting facet's entry emptied, the last store
      comes from a facet of the same parameter name, so it holds the value
      given for that name. */
  lemma LastEmptiedWrite(filter: Filter, names: seq<string>, vals: seq<seq<Id>>, final: seq<Id>, i: nat)
    requires WellFormed(filter) && |vals| == |names|
    requires forall j, k | 0 <= j < |names| && 0 <= k < |names| && names[j] == names[k] :: vals[j] == vals[k]
    requires i < |names| && Selected(filter, names[i]) != []
    ensures LastWrite(Writes(filter, names, vals, final), Replace(filter, names[i], [])) == Some(vals[i])
  {
    var ws := Writes(filter, names, vals, final);
    var p := names[i];
    var g := Replace(filter, p, []);
    ReplaceGet(filter, p, [], p);
    assert g != filter;
    assert ws[i].filter == g;
    var j :| 0 <= j < |ws| && ws[j].filter == g && ws[j].ids == LastWrite(ws, g).value
             && (forall k | j < k < |ws| :: ws[k].filter != g);
    assert j < |names|;
    ReplaceGet(filter, names[j], [], p);
  }
}
