/** Filters as the library passes them around: an ordered array from facet
    parameter name to the list of selected values (FacetFilter.php:109-132),
    and the cache key built from one (FacetFilter.php:174-177). */
module Filters {
  import opened Common

  datatype Entry = Entry(param: string, values: seq<string>)

  /** Entry order matters: it is the key order `json_encode` writes. */
  type Filter = seq<Entry>

  /** One raw input value: a scalar or a list. */
  datatype RawValue = One(v: string) | Several(vs: seq<string>)

  /** Raw filter input, `(array) $arr`. */
  type RawInput = map<string, RawValue>

  /** `json_encode`, left uninterpreted. */
  type Encoder = Filter -> string

  function Params(f: Filter): (ps: seq<string>)
    ensures |ps| == |f|
    ensures forall i | 0 <= i < |f| :: ps[i] == f[i].param
  {
    seq(|f|, i requires 0 <= i < |f| => f[i].param)
  }

  /** A PHP array: no parameter name twice. */
  ghost predicate WellFormed(f: Filter) {
    Distinct(Params(f))
  }

  /** `$filter[$p]` when `isset`, else None. */
  function Get(f: Filter, p: string): (r: Option<seq<string>>)
    ensures r.Some? <==> p in Params(f)
    ensures r.Some? ==> r.value == f[FirstIndex(Params(f), p)].values
  {
    if |f| == 0 then None
    else if f[0].param == p then Some(f[0].values)
    else
      assert Params(f[1..]) == Params(f)[1..];
      Get(f[1..], p)
  }

  /** In a well-formed filter every entry is what a lookup of its name finds. */
  lemma GetAt(f: Filter, i: nat)
    requires WellFormed(f) && i < |f|
    ensures Get(f, f[i].param) == Some(f[i].values)
  {
    var ps := Params(f);
    assert ps[i] == f[i].param;
    var k := FirstIndex(ps, f[i].param);
    assert k == i by {
      assert ps[k] == ps[i];
      assert !(k < i) && !(i < k);
    }
  }

  /** The selected values for `p`, empty when `p` is not set. */
  function Selected(f: Filter, p: string): seq<string> {
    Get(f, p).GetOr([])
  }

  /** `array_merge($filter, [$p => $vs])`: replaces `p` in place, or appends it. */
  function Replace(f: Filter, p: string, vs: seq<string>): (r: Filter)
    ensures p in Params(f) ==> Params(r) == Params(f)
    ensures p !in Params(f) ==> Params(r) == Params(f) + [p]
    ensures forall i | 0 <= i < |f| :: r[i] == (if f[i].param == p then Entry(p, vs) else f[i])
    ensures p !in Params(f) ==> r[|f|] == Entry(p, vs)
  {
    if p in Params(f) then
      seq(|f|, i requires 0 <= i < |f| => if f[i].param == p then Entry(p, vs) else f[i])
    else f + [Entry(p, vs)]
  }

  /** Replacing an entry of a well-formed filter: `p` now reads `vs`, every other name reads as before. */
  lemma ReplaceGet(f: Filter, p: string, vs: seq<string>, q: string)
    requires WellFormed(f)
    ensures WellFormed(Replace(f, p, vs))
    ensures Get(Replace(f, p, vs), q) == if q == p then Some(vs) else Get(f, q)
  {
    var r := Replace(f, p, vs);
    if p !in Params(f) {
      assert Params(r) == Params(f) + [p];
    }
    if q in Params(f) {
      var i := FirstIndex(Params(f), q);
      GetAt(f, i);
      GetAt(r, i);
    } else if q == p {
      GetAt(r, |f|);
    }
  }

  /** A scalar becomes a one-element list, a list is kept. */
  function Wrap(v: RawValue): seq<string> {
    match v
    case One(x) => [x]
    case Several(xs) => xs
  }

  /** `getFilterFromArr` given the facets' parameter names in facet order:
      wrap every input value in a list, drop the empty lists
      (`array_filter`), keep only known names (`array_intersect_key`) and lay
      them over the empty filter (`array_replace`). */
  function Normalize(params: seq<string>, raw: RawInput): (f: Filter)
    ensures Params(f) == Dedup(params)
    ensures WellFormed(f)
  {
    var wrapped := map k | k in raw :: Wrap(raw[k]);
    var kept := map k | k in wrapped && wrapped[k] != [] :: wrapped[k];
    var known := Dedup(params);
    seq(|known|, i requires 0 <= i < |known| =>
      Entry(known[i], if known[i] in kept then kept[known[i]] else []))
  }

  /** What a lookup in the normalised filter finds: exactly the known names,
      each holding its wrapped input, or `[]` when the input has none. */
  lemma NormalizeGet(params: seq<string>, raw: RawInput, p: string)
    ensures Get(Normalize(params, raw), p) ==
            if p in params then Some(if p in raw then Wrap(raw[p]) else []) else None
  {
    var f := Normalize(params, raw);
    if p in params {
      GetAt(f, FirstIndex(Params(f), p));
    }
  }

  /** A filter fed back in as raw input: every entry as a list. */
  function AsRaw(f: Filter): RawInput {
    map p | p in Params(f) :: Several(Selected(f, p))
  }

  /** Normalising a normalised filter changes nothing. */
  lemma NormalizeIdempotent(params: seq<string>, raw: RawInput)
    ensures Normalize(params, AsRaw(Normalize(params, raw))) == Normalize(params, raw)
  {
    var f := Normalize(params, raw);
    var g := Normalize(params, AsRaw(f));
    assert |g| == |f|;
    forall i | 0 <= i < |f|
      ensures g[i] == f[i]
    {
      assert g[i].param == f[i].param;
      NormalizeGet(params, raw, f[i].param);
      NormalizeGet(params, AsRaw(f), f[i].param);
      GetAt(f, i);
      GetAt(g, i);
    }
  }

  /** `getEmptyFilter` passes the subject type itself as the raw array, which
      `(array)` turns into `[0 => $subjectType]`. */
  function EmptyFilterInput(subjectType: string): RawInput {
    map["0" := One(subjectType)]
  }

  /** The "empty" filter is empty unless a facet's parameter name is "0",
      which then selects the subject type's name. */
  lemma EmptyFilterValues(params: seq<string>, subjectType: string, i: nat)
    requires i < |Normalize(params, EmptyFilterInput(subjectType))|
    ensures Normalize(params, EmptyFilterInput(subjectType))[i].values ==
            if Normalize(params, EmptyFilterInput(subjectType))[i].param == "0" then [subjectType] else []
  {
    var f := Normalize(params, EmptyFilterInput(subjectType));
    NormalizeGet(params, EmptyFilterInput(subjectType), f[i].param);
    GetAt(f, i);
  }

  /** `getCacheKey`: `implode('_', [$subjectType, json_encode($filter)])`. */
  function CacheKey(subjectType: string, f: Filter, json: Encoder): string {
    Join([subjectType, json(f)], "_")
  }

  ghost predicate Injective(json: Encoder) {
    forall a, b :: json(a) == json(b) ==> a == b
  }

  /** For one subject type, an injective encoder gives distinct filters distinct keys. */
  lemma CacheKeyInjective(subjectType: string, f: Filter, g: Filter, json: Encoder)
    requires Injective(json)
    ensures CacheKey(subjectType, f, json) == CacheKey(subjectType, g, json) <==> f == g
  {
    var kf := CacheKey(subjectType, f, json);
    var kg := CacheKey(subjectType, g, json);
    JoinPair(subjectType, json(f), "_");
    JoinPair(subjectType, json(g), "_");
    if kf == kg {
      assert json(f) == kf[|subjectType| + 1..];
      assert json(g) == kg[|subjectType| + 1..];
    }
  }
}
