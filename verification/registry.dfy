/** The facet registry of `FacetFilter` (src/FacetFilter.php:21-47,
    109-132): facets are built once per subject type, optionally with their
    rows preloaded, and an array filter is normalised and handed to every
    facet. The `Facettable` delegators (src/Traits/Facettable.php:49-62)
    are these functions called with the using class as subject type. */
module FacetFilter {
  import opened Common
  import opened Values
  import opened Filters
  import opened Facets
  import opened FacetDefinitions

  /** `self::$facets`: subject type => its facets. */
  type Registry = map<string, seq<Facet>>

  /** `defineFacets()` of each subject class. */
  type Catalog = string -> seq<Definition>

  /** The `$filter` argument of `getFacets`: an array, or anything else (null, false). */
  datatype FilterArg = NoFilter | FilterArray(raw: RawInput)

  /** Every facet in `reg` is still there, unchanged, in `reg2`. */
  ghost predicate Extends(reg: Registry, reg2: Registry) {
    forall u | u in reg :: u in reg2 && reg2[u] == reg[u]
  }

  /** The preload: each facet whose slug has rows in the table receives them (`setRows`). */
  function LoadRows(facets: seq<Facet>, table: seq<Row>): (r: seq<Facet>)
    ensures |r| == |facets|
    ensures forall i | 0 <= i < |facets| ::
      var rows := FetchRows(table, Slug(facets[i]));
      r[i] == if rows != [] then SetRows(facets[i], rows) else facets[i]
  {
    seq(|facets|, i requires 0 <= i < |facets| =>
      var rows := FetchRows(table, Slug(facets[i]));
      if rows != [] then SetRows(facets[i], rows) else facets[i])
  }

  /** `->map->setFilter($filter)`. */
  function WithFilter(facets: seq<Facet>, f: Filter): (r: seq<Facet>)
    ensures |r| == |facets|
    ensures forall i | 0 <= i < |facets| :: r[i] == SetFilter(facets[i], f)
  {
    seq(|facets|, i requires 0 <= i < |facets| => SetFilter(facets[i], f))
  }

  /** `getFacets($subjectType, $filter, $load)`. A subject type seen before
      keeps its facets; a new one gets `makeFacets()`, and when loading each
      facet holds exactly the table's rows under its slug (none when there
      are none). An array filter is normalised against the facets' parameter
      names and set on every facet. Other subject types are untouched. */
  function GetFacets(reg: Registry, subjectType: string, filter: FilterArg, load: bool,
                     catalog: Catalog, table: seq<Row>, slug: Slugger): (r: Result<(Registry, seq<Facet>)>)
    ensures r.Err? <==> subjectType !in reg && MakeFacets(subjectType, catalog(subjectType)).Err?
    ensures r.Ok? ==> subjectType in r.value.0 && r.value.0[subjectType] == r.value.1
    ensures r.Ok? ==> r.value.0.Keys == reg.Keys + {subjectType}
    ensures r.Ok? ==> forall u | u in reg && u != subjectType :: r.value.0[u] == reg[u]
    ensures subjectType in reg && filter.NoFilter? ==> r == Ok((reg, reg[subjectType]))
    ensures subjectType in reg && filter.FilterArray? ==>
      && |r.value.1| == |reg[subjectType]|
      && forall i | 0 <= i < |reg[subjectType]| ::
           r.value.1[i] == reg[subjectType][i].(filter := Some(Normalize(ParamNames(reg[subjectType], slug), filter.raw)))
    ensures subjectType !in reg && r.Ok? ==>
      var made := MakeFacets(subjectType, catalog(subjectType)).value;
      && |r.value.1| == |made|
      && forall i | 0 <= i < |made| ::
           var f := r.value.1[i];
           && f.(rows := None, filter := None) == made[i]
           && f.rows == (if load && FetchRows(table, Slug(made[i])) != [] then Some(FetchRows(table, Slug(made[i]))) else None)
           && f.filter == (if filter.FilterArray? then Some(Normalize(ParamNames(made, slug), filter.raw)) else None)
  {
    if subjectType in reg then Ok(Known(reg, subjectType, filter, slug))
    else Fresh(reg, subjectType, filter, load, catalog, table, slug)
  }

  /** `getFacets` for a subject type already registered. */
  function Known(reg: Registry, subjectType: string, filter: FilterArg, slug: Slugger): (r: (Registry, seq<Facet>))
    requires subjectType in reg
    ensures r.0.Keys == reg.Keys && r.0[subjectType] == r.1
    ensures forall u | u in reg && u != subjectType :: r.0[u] == reg[u]
    ensures filter.NoFilter? ==> r == (reg, reg[subjectType])
    ensures filter.FilterArray? ==>
      && |r.1| == |reg[subjectType]|
      && forall i | 0 <= i < |reg[subjectType]| ::
           r.1[i] == reg[subjectType][i].(filter := Some(Normalize(ParamNames(reg[subjectType], slug), filter.raw)))
  {
    var facets := reg[subjectType];
    match filter
    case NoFilter => (reg, facets)
    case FilterArray(raw) =>
      var fs := WithFilter(facets, Normalize(ParamNames(facets, slug), raw));
      (reg[subjectType := fs], fs)
  }

  /** `getFacets` for a subject type seen for the first time. */
  function Fresh(reg: Registry, subjectType: string, filter: FilterArg, load: bool,
                 catalog: Catalog, table: seq<Row>, slug: Slugger): (r: Result<(Registry, seq<Facet>)>)
    requires subjectType !in reg
    ensures r.Err? <==> MakeFacets(subjectType, catalog(subjectType)).Err?
    ensures r.Ok? ==> r.value.0.Keys == reg.Keys + {subjectType} && r.value.0[subjectType] == r.value.1
    ensures r.Ok? ==> forall u | u in reg :: r.value.0[u] == reg[u]
    ensures r.Ok? ==>
      var made := MakeFacets(subjectType, catalog(subjectType)).value;
      && |r.value.1| == |made|
      && forall i | 0 <= i < |made| ::
           var f := r.value.1[i];
           && f.(rows := None, filter := None) == made[i]
           && f.rows == (if load && FetchRows(table, Slug(made[i])) != [] then Some(FetchRows(table, Slug(made[i]))) else None)
           && f.filter == (if filter.FilterArray? then Some(Normalize(ParamNames(made, slug), filter.raw)) else None)
  {
    match MakeFacets(subjectType, catalog(subjectType))
    case Err(e) => Err(e)
    case Ok(made) =>
      var fs := Prepared(made, filter, load, table, slug);
      Ok((reg[subjectType := fs], fs))
  }

  /** Freshly made facets, with their rows when loading, then the filter
      when it is an array. */
  function Prepared(made: seq<Facet>, filter: FilterArg, load: bool, table: seq<Row>, slug: Slugger): (r: seq<Facet>)
    ensures |r| == |made|
    ensures forall i | 0 <= i < |made| ::
      var f := r[i];
      && f.(rows := made[i].rows, filter := made[i].filter) == made[i]
      && f.rows == (if load && FetchRows(table, Slug(made[i])) != [] then Some(FetchRows(table, Slug(made[i]))) else made[i].rows)
      && f.filter == (if filter.FilterArray? then Some(Normalize(ParamNames(made, slug), filter.raw)) else made[i].filter)
  {
    var facets := if load then LoadRows(made, table) else made;
    assert ParamNames(facets, slug) == ParamNames(made, slug) by {
      if load {
        ParamNamesIgnoreRows(made, table, slug);
      }
    }
    ApplyFilter(facets, filter, slug)
  }

  /** `setFilter` on every facet when the filter is an array, normalised
      against the facets' own parameter names. */
  function ApplyFilter(facets: seq<Facet>, filter: FilterArg, slug: Slugger): (r: seq<Facet>)
    ensures filter.NoFilter? ==> r == facets
    ensures filter.FilterArray? ==>
      && |r| == |facets|
      && forall i | 0 <= i < |facets| :: r[i] == SetFilter(facets[i], Normalize(ParamNames(facets, slug), filter.raw))
  {
    match filter
    case NoFilter => facets
    case FilterArray(raw) => WithFilter(facets, Normalize(ParamNames(facets, slug), raw))
  }

  /** Loading rows does not change parameter names. */
  lemma ParamNamesIgnoreRows(facets: seq<Facet>, table: seq<Row>, slug: Slugger)
    ensures ParamNames(LoadRows(facets, table), slug) == ParamNames(facets, slug)
  {
  }

  /** `getFilterFromArr($subjectType, $arr)`: the facets of the subject type
      (built with their rows if new) name the parameters, and the raw array
      is normalised against them. */
  function FilterFromArr(reg: Registry, subjectType: string, raw: RawInput,
                         catalog: Catalog, table: seq<Row>, slug: Slugger): (r: Result<(Registry, Filter)>)
    ensures r.Err? <==> subjectType !in reg && MakeFacets(subjectType, catalog(subjectType)).Err?
    ensures r.Ok? ==> Extends(reg, r.value.0) && subjectType in r.value.0
    ensures r.Ok? ==>
      var params := ParamNames(r.value.0[subjectType], slug);
      && Params(r.value.1) == Dedup(params)
      && WellFormed(r.value.1)
      && r.value.1 == Normalize(params, raw)
      && forall p :: Get(r.value.1, p) == if p in params then Some(if p in raw then Wrap(raw[p]) else []) else None
  {
    match GetFacets(reg, subjectType, NoFilter, true, catalog, table, slug)
    case Err(e) => Err(e)
    case Ok((reg1, facets)) =>
      var f := Normalize(ParamNames(facets, slug), raw);
      assert forall p :: Get(f, p) == if p in ParamNames(facets, slug) then Some(if p in raw then Wrap(raw[p]) else []) else None
        by { forall p { NormalizeGet(ParamNames(facets, slug), raw, p); } }
      Ok((reg1, f))
  }

  /** `getEmptyFilter($subjectType)`: every facet parameter with no values,
      except that a parameter named "0" picks up the subject type's name. */
  function EmptyFilter(reg: Registry, subjectType: string, catalog: Catalog, table: seq<Row>, slug: Slugger)
    : (r: Result<(Registry, Filter)>)
    ensures r.Err? <==> subjectType !in reg && MakeFacets(subjectType, catalog(subjectType)).Err?
    ensures r.Ok? ==> forall i | 0 <= i < |r.value.1| ::
      r.value.1[i].values == if r.value.1[i].param == "0" then [subjectType] else []
  {
    match FilterFromArr(reg, subjectType, EmptyFilterInput(subjectType), catalog, table, slug)
    case Err(e) => Err(e)
    case Ok((reg1, f)) =>
      assert forall i | 0 <= i < |f| :: f[i].values == if f[i].param == "0" then [subjectType] else []
        by {
          forall i | 0 <= i < |f| ensures f[i].values == if f[i].param == "0" then [subjectType] else [] {
            EmptyFilterValues(ParamNames(reg1[subjectType], slug), subjectType, i);
          }
        }
      Ok((reg1, f))
  }

  /** Asking again gives the same facets: without a filter nothing changes,
      and the same array filter sets the same normalised filter. */
  lemma {:induction false} GetFacetsAgain(reg: Registry, subjectType: string, filter: FilterArg, load: bool, load2: bool,
                                          catalog: Catalog, table: seq<Row>, table2: seq<Row>, slug: Slugger)
    requires GetFacets(reg, subjectType, filter, load, catalog, table, slug).Ok?
    ensures var (reg1, facets) := GetFacets(reg, subjectType, filter, load, catalog, table, slug).value;
      GetFacets(reg1, subjectType, filter, load2, catalog, table2, slug) == Ok((reg1, facets))
  {
    var (reg1, facets) := GetFacets(reg, subjectType, filter, load, catalog, table, slug).value;
    if filter.FilterArray? {
      var g := Normalize(ParamNames(facets, slug), filter.raw);
      var again := GetFacets(reg1, subjectType, filter, load2, catalog, table2, slug).value.1;
      assert ParamNames(facets, slug) == ParamNames(reg1[subjectType], slug);
      SetFilterParamNames(reg, subjectType, filter, load, catalog, table, slug);
      forall i | 0 <= i < |facets| ensures again[i] == facets[i] {
        assert facets[i].filter == Some(g);
      }
      assert again == facets;
      assert reg1[subjectType := again] == reg1;
    }
  }

  /** After an array filter is set, normalising against the new facets uses
      the same parameter names and gives the filter they hold. */
  lemma SetFilterParamNames(reg: Registry, subjectType: string, filter: FilterArg, load: bool,
                            catalog: Catalog, table: seq<Row>, slug: Slugger)
    requires filter.FilterArray?
    requires GetFacets(reg, subjectType, filter, load, catalog, table, slug).Ok?
    ensures var facets := GetFacets(reg, subjectType, filter, load, catalog, table, slug).value.1;
      forall i | 0 <= i < |facets| ::
        facets[i].filter == Some(Normalize(ParamNames(facets, slug), filter.raw))
  {
    var facets := GetFacets(reg, subjectType, filter, load, catalog, table, slug).value.1;
    if subjectType in reg {
      assert ParamNames(facets, slug) == ParamNames(reg[subjectType], slug);
    } else {
      var made := MakeFacets(subjectType, catalog(subjectType)).value;
      assert ParamNames(facets, slug) == ParamNames(made, slug);
    }
  }
}
