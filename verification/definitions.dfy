/** Facet definitions turned into facets: `Facettable::makeFacets`
    (src/Traits/Facettable.php:17-42) and
    `FacetFilter::makeFacetsWithDefinitions` (src/FacetFilter.php:53-77). */
module FacetDefinitions {
  import opened Common
  import opened Values
  import opened Facets

  /** One entry of `defineFacets()`: attribute name => value. */
  type Definition = map<string, Val>

  /** `isset($definition['fieldname'])`: present and not null. */
  predicate HasFieldname(d: Definition) {
    "fieldname" in d && d["fieldname"] != Null
  }

  /** A string attribute as the model holds it: None when absent or null. */
  function Attr(d: Definition, k: string): (r: Option<string>)
    ensures r.Some? <==> k in d && d[k].Str?
    ensures r.Some? ==> d[k] == Str(r.value)
  {
    if k in d && d[k].Str? then Some(d[k].s) else None
  }

  /** The position of the first definition without a fieldname: the one
      whose exception stops the `map`. */
  function FirstMissing(defs: seq<Definition>): (r: Option<nat>)
    ensures r.None? <==> forall i | 0 <= i < |defs| :: HasFieldname(defs[i])
    ensures r.Some? ==> r.value < |defs| && !HasFieldname(defs[r.value])
    ensures r.Some? ==> forall i | 0 <= i < r.value :: HasFieldname(defs[i])
  {
    if |defs| == 0 then None
    else if !HasFieldname(defs[0]) then Some(0)
    else match FirstMissing(defs[1..])
      case None => None
      case Some(i) => Some(i + 1)
  }

  /** `new $definition['facet_class']($definition)`: the three fillable
      attributes are assigned, every other key is dropped, and the memo
      fields start out null. */
  function Instantiate(d: Definition): Facet {
    Facet(Attr(d, "title"), Attr(d, "fieldname"), Attr(d, "subject_type"),
          Attr(d, "facet_class").GetOr(FacetClass), None, None, None)
  }

  /** The defaults `makeFacets` lays under a definition of class `cls`. */
  function TraitDefaults(cls: string, d: Definition): Definition {
    map["title" := (if "fieldname" in d then d["fieldname"] else Null),
        "subject_type" := Str(cls),
        "facet_class" := Str(FacetClass)]
  }

  /** The defaults `makeFacetsWithDefinitions` lays under a definition. */
  function PlainDefaults(subjectType: string): Definition {
    map["subject_type" := Str(subjectType), "facet_class" := Str(FacetClass)]
  }

  /** `makeFacets` of the class `cls` over its `defineFacets()`: fails on the
      first definition without a fieldname; otherwise one facet per
      definition, in order, whose attributes are the definition's own where
      it has them and `title` = fieldname, `subject_type` = the class,
      `facet_class` = Facet where it has not. */
  function MakeFacets(cls: string, defs: seq<Definition>): (r: Result<seq<Facet>>)
    ensures r.Err? <==> exists i | 0 <= i < |defs| :: !HasFieldname(defs[i])
    ensures r.Err? ==>
      && r.error.MissingFieldname?
      && r.error.position < |defs|
      && !HasFieldname(defs[r.error.position])
      && (forall i | 0 <= i < r.error.position :: HasFieldname(defs[i]))
    ensures r.Ok? ==> |r.value| == |defs|
    ensures r.Ok? ==> forall i | 0 <= i < |defs| ::
      var (d, f) := (defs[i], r.value[i]);
      && f.fieldname == Some(d["fieldname"].s)
      && f.title == (if "title" in d then Attr(d, "title") else f.fieldname)
      && f.subjectType == (if "subject_type" in d then Attr(d, "subject_type") else Some(cls))
      && f.facetClass == Attr(d, "facet_class").GetOr(FacetClass)
      && f.rows.None? && f.options.None? && f.filter.None?
  {
    match FirstMissing(defs)
    case Some(p) => Err(MissingFieldname(p))
    case None =>
      TraitInstances(cls, defs);
      Ok(seq(|defs|, i requires 0 <= i < |defs| => Instantiate(TraitDefaults(cls, defs[i]) + defs[i])))
  }

  /** What each definition gives under the trait's defaults. */
  lemma TraitInstances(cls: string, defs: seq<Definition>)
    requires forall i | 0 <= i < |defs| :: HasFieldname(defs[i])
    ensures forall i | 0 <= i < |defs| && HasFieldname(defs[i]) ::
      var (d, f) := (defs[i], Instantiate(TraitDefaults(cls, defs[i]) + defs[i]));
      && f.fieldname == Some(d["fieldname"].s)
      && f.title == (if "title" in d then Attr(d, "title") else f.fieldname)
      && f.subjectType == (if "subject_type" in d then Attr(d, "subject_type") else Some(cls))
      && f.facetClass == Attr(d, "facet_class").GetOr(FacetClass)
      && f.rows.None? && f.options.None? && f.filter.None?
  {
    forall i | 0 <= i < |defs| && HasFieldname(defs[i]) ensures
      var (d, f) := (defs[i], Instantiate(TraitDefaults(cls, defs[i]) + defs[i]));
      && f.fieldname == Some(d["fieldname"].s)
      && f.title == (if "title" in d then Attr(d, "title") else f.fieldname)
      && f.subjectType == (if "subject_type" in d then Attr(d, "subject_type") else Some(cls))
      && f.facetClass == Attr(d, "facet_class").GetOr(FacetClass)
    {
      var d := defs[i];
      var merged := TraitDefaults(cls, d) + d;
      assert merged["fieldname"] == d["fieldname"];
    }
  }

  /** `makeFacetsWithDefinitions`: the same, except that there is no
      `title` default, so a definition without a title gives a facet
      without one. */
  function MakeFacetsWithDefinitions(subjectType: string, defs: seq<Definition>): (r: Result<seq<Facet>>)
    ensures r.Err? <==> exists i | 0 <= i < |defs| :: !HasFieldname(defs[i])
    ensures r.Err? ==>
      && r.error.MissingFieldname?
      && r.error.position < |defs|
      && !HasFieldname(defs[r.error.position])
      && (forall i | 0 <= i < r.error.position :: HasFieldname(defs[i]))
    ensures r.Ok? ==> |r.value| == |defs|
    ensures r.Ok? ==> forall i | 0 <= i < |defs| ::
      var (d, f) := (defs[i], r.value[i]);
      && f.fieldname == Some(d["fieldname"].s)
      && f.title == Attr(d, "title")
      && f.subjectType == (if "subject_type" in d then Attr(d, "subject_type") else Some(subjectType))
      && f.facetClass == Attr(d, "facet_class").GetOr(FacetClass)
      && f.rows.None? && f.options.None? && f.filter.None?
  {
    match FirstMissing(defs)
    case Some(p) => Err(MissingFieldname(p))
    case None =>
      PlainInstances(subjectType, defs);
      Ok(seq(|defs|, i requires 0 <= i < |defs| => Instantiate(PlainDefaults(subjectType) + defs[i])))
  }

  /** What each definition gives under the plain defaults. */
  lemma PlainInstances(subjectType: string, defs: seq<Definition>)
    requires forall i | 0 <= i < |defs| :: HasFieldname(defs[i])
    ensures forall i | 0 <= i < |defs| && HasFieldname(defs[i]) ::
      var (d, f) := (defs[i], Instantiate(PlainDefaults(subjectType) + defs[i]));
      && f.fieldname == Some(d["fieldname"].s)
      && f.title == Attr(d, "title")
      && f.subjectType == (if "subject_type" in d then Attr(d, "subject_type") else Some(subjectType))
      && f.facetClass == Attr(d, "facet_class").GetOr(FacetClass)
      && f.rows.None? && f.options.None? && f.filter.None?
  {
    forall i | 0 <= i < |defs| && HasFieldname(defs[i]) ensures
      var (d, f) := (defs[i], Instantiate(PlainDefaults(subjectType) + defs[i]));
      && f.fieldname == Some(d["fieldname"].s)
      && f.title == Attr(d, "title")
      && f.subjectType == (if "subject_type" in d then Attr(d, "subject_type") else Some(subjectType))
      && f.facetClass == Attr(d, "facet_class").GetOr(FacetClass)
    {
      var d := defs[i];
      var merged := PlainDefaults(subjectType) + d;
      assert merged["fieldname"] == d["fieldname"];
    }
  }

  /** The two differ only in the title default: with an explicit title in
      every definition they build the same facets. */
  lemma {:induction false} SameWithTitles(cls: string, defs: seq<Definition>)
    requires forall i | 0 <= i < |defs| :: "title" in defs[i]
    ensures MakeFacets(cls, defs) == MakeFacetsWithDefinitions(cls, defs)
  {
    var a, b := MakeFacets(cls, defs), MakeFacetsWithDefinitions(cls, defs);
    if a.Ok? {
      assert |a.value| == |b.value|;
      forall i | 0 <= i < |defs| ensures a.value[i] == b.value[i] {
      }
      assert a.value == b.value;
    }
  }
}
