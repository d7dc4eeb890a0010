/** The per-request id memo of `FacetFilter` (src/FacetFilter.php:84-177):
    for each subject type, the ids a filtered query produced, keyed by the
    filter's cache key; and the last query per subject type, whose setting
    clears that subject type's memo. */
module IdCache {
  import opened Common
  import opened Filters

  /** `self::$idsInFilteredQuery`: subject type => (cache key => ids). */
  type IdCache = map<string, map<string, seq<Id>>>

  /** What `cacheIdsInFilteredQuery` answers: the ids, or `false`. */
  datatype Lookup = Found(ids: seq<Id>) | NotCached

  /** The memo's content for one subject type and filter, without side effects. */
  function Read(c: IdCache, subjectType: string, f: Filter, json: Encoder): (r: Lookup)
    ensures r.Found? <==> subjectType in c && CacheKey(subjectType, f, json) in c[subjectType]
    ensures r.Found? ==> r.ids == c[subjectType][CacheKey(subjectType, f, json)]
  {
    var key := CacheKey(subjectType, f, json);
    if subjectType in c && key in c[subjectType] then Found(c[subjectType][key]) else NotCached
  }

  /** `cacheIdsInFilteredQuery($subjectType, $filter, $ids)`: makes sure the
      subject type has an (empty) memo, then stores `ids` when given and
      returns them, or looks the filter up. */
  function CacheIds(c: IdCache, subjectType: string, f: Filter, ids: Option<seq<Id>>, json: Encoder)
    : (r: (IdCache, Lookup))
    ensures ids.Some? ==> r.1 == Found(ids.value) && Read(r.0, subjectType, f, json) == r.1
    ensures ids.None? ==> r.1 == Read(c, subjectType, f, json)
    ensures ids.None? ==> subjectType in r.0 && (subjectType in c ==> r.0 == c)
    ensures r.0.Keys == c.Keys + {subjectType}
    ensures forall t | t in c && t != subjectType :: r.0[t] == c[t]
    ensures forall g | CacheKey(subjectType, g, json) != CacheKey(subjectType, f, json) ::
      Read(r.0, subjectType, g, json) == Read(c, subjectType, g, json)
  {
    var memo := if subjectType in c then c[subjectType] else map[];
    var key := CacheKey(subjectType, f, json);
    match ids
    case Some(v) => (c[subjectType := memo[key := v]], Found(v))
    case None => (c[subjectType := memo], if key in memo then Found(memo[key]) else NotCached)
  }

  /** With an injective `json_encode`, storing ids for one filter leaves
      every other filter's entry alone. */
  lemma CacheIdsOtherFilter(c: IdCache, subjectType: string, f: Filter, g: Filter, ids: Option<seq<Id>>, json: Encoder)
    requires Injective(json) && g != f
    ensures Read(CacheIds(c, subjectType, f, ids, json).0, subjectType, g, json) == Read(c, subjectType, g, json)
  {
    CacheKeyInjective(subjectType, f, g, json);
  }

  /** `resetIdsInFilteredQuery($subjectType)`. */
  function Reset(c: IdCache, subjectType: string): (r: IdCache)
    ensures subjectType !in r
    ensures forall f, json :: Read(r, subjectType, f, json) == NotCached
    ensures forall t | t != subjectType :: (t in r <==> t in c) && (t in c ==> r[t] == c[t])
  {
    c - {subjectType}
  }

  /** The static state a request builds up: the last query per subject type
      (represented by the ids it stands for) and the id memo. */
  datatype QueryState = QueryState(lastQueries: map<string, seq<Id>>, ids: IdCache)

  /** `setLastQuery`: remembers the query and clears the subject type's memo. */
  function SetLastQuery(s: QueryState, subjectType: string, query: seq<Id>): (r: QueryState)
    ensures GetLastQuery(r, subjectType) == Some(query)
    ensures subjectType !in r.ids
    ensures forall t | t != subjectType ::
      GetLastQuery(r, t) == GetLastQuery(s, t) && (t in r.ids <==> t in s.ids) && (t in s.ids ==> r.ids[t] == s.ids[t])
  {
    QueryState(s.lastQueries[subjectType := query], Reset(s.ids, subjectType))
  }

  /** `getLastQuery`: the remembered query, or `false` when there is none. */
  function GetLastQuery(s: QueryState, subjectType: string): (r: Option<seq<Id>>)
    ensures r.Some? <==> subjectType in s.lastQueries
    ensures r.Some? ==> r.value == s.lastQueries[subjectType]
  {
    if subjectType in s.lastQueries then Some(s.lastQueries[subjectType]) else None
  }

  /** A run of stores for one subject type, in call order. */
  datatype Write = Write(filter: Filter, ids: seq<Id>)

  function ApplyWrites(c: IdCache, subjectType: string, ws: seq<Write>, json: Encoder): IdCache
    decreases |ws|
  {
    if |ws| == 0 then c
    else ApplyWrites(CacheIds(c, subjectType, ws[0].filter, Some(ws[0].ids), json).0, subjectType, ws[1..], json)
  }

  /** A run of stores for one subject type leaves every other subject type's memo alone. */
  lemma {:induction false} ApplyWritesOthers(c: IdCache, subjectType: string, ws: seq<Write>, json: Encoder, u: string)
    requires u != subjectType
    ensures u in ApplyWrites(c, subjectType, ws, json) <==> u in c
    ensures u in c ==> ApplyWrites(c, subjectType, ws, json)[u] == c[u]
    decreases |ws|
  {
    if |ws| > 0 {
      var c1 := CacheIds(c, subjectType, ws[0].filter, Some(ws[0].ids), json).0;
      ApplyWritesOthers(c1, subjectType, ws[1..], json, u);
    }
  }

  /** The last write of a filter in a run, if any. */
  function LastWrite(ws: seq<Write>, f: Filter): (r: Option<seq<Id>>)
    ensures r.Some? <==> exists i | 0 <= i < |ws| :: ws[i].filter == f
    ensures r.Some? ==> exists i | 0 <= i < |ws| ::
      && ws[i].filter == f
      && ws[i].ids == r.value
      && (forall j | i < j < |ws| :: ws[j].filter != f)
  {
    if |ws| == 0 then None
    else
      var last := ws[|ws| - 1];
      if last.filter == f then Some(last.ids)
      else
        var r := LastWrite(ws[..|ws| - 1], f);
        LastWriteSkip(ws, f, r);
        r
  }

  /** A last store of another filter does not change which store of `f` is last. */
  lemma LastWriteSkip(ws: seq<Write>, f: Filter, r: Option<seq<Id>>)
    requires |ws| > 0 && ws[|ws| - 1].filter != f
    requires var init := ws[..|ws| - 1];
      && (r.Some? <==> exists i | 0 <= i < |init| :: init[i].filter == f)
      && (r.Some? ==> exists i | 0 <= i < |init| ::
            init[i].filter == f && init[i].ids == r.value && (forall j | i < j < |init| :: init[j].filter != f))
    ensures r.Some? <==> exists i | 0 <= i < |ws| :: ws[i].filter == f
    ensures r.Some? ==> exists i | 0 <= i < |ws| ::
      && ws[i].filter == f
      && ws[i].ids == r.value
      && (forall j | i < j < |ws| :: ws[j].filter != f)
  {
    var init := ws[..|ws| - 1];
    if r.Some? {
      var i :| 0 <= i < |init| && init[i].filter == f && init[i].ids == r.value
               && (forall j | i < j < |init| :: init[j].filter != f);
      assert ws[i] == init[i];
      assert forall j | i < j < |ws| :: ws[j].filter != f by {
        forall j | i < j < |ws| ensures ws[j].filter != f {
          if j < |init| { assert ws[j] == init[j]; }
        }
      }
    } else {
      forall i | 0 <= i < |ws| ensures ws[i].filter != f {
        if i < |init| { assert ws[i] == init[i]; }
      }
    }
  }

  /** After a run of stores, each filter reads what was last stored for it,
      or what it read before when the run never stored it. */
  lemma {:induction false} ReadAfterWrites(c: IdCache, subjectType: string, ws: seq<Write>, f: Filter, json: Encoder)
    requires Injective(json)
    ensures Read(ApplyWrites(c, subjectType, ws, json), subjectType, f, json) ==
      match LastWrite(ws, f)
      case Some(ids) => Found(ids)
      case None => Read(c, subjectType, f, json)
    decreases |ws|
  {
    if |ws| > 0 {
      var c1 := CacheIds(c, subjectType, ws[0].filter, Some(ws[0].ids), json).0;
      ReadAfterWrites(c1, subjectType, ws[1..], f, json);
      if ws[0].filter != f {
        CacheIdsOtherFilter(c, subjectType, ws[0].filter, f, Some(ws[0].ids), json);
      }
      LastWriteTail(ws, f);
    }
  }

  /** The last write in `ws` is the last one in its tail, or the head when the tail has none. */
  lemma {:induction false} LastWriteTail(ws: seq<Write>, f: Filter)
    requires |ws| > 0
    ensures LastWrite(ws, f) ==
      if LastWrite(ws[1..], f).Some? then LastWrite(ws[1..], f)
      else if ws[0].filter == f then Some(ws[0].ids) else None
    decreases |ws|
  {
    if |ws| > 1 {
      var last := ws[|ws| - 1];
      assert ws[1..][|ws[1..]| - 1] == last;
      if last.filter != f {
        assert ws[1..][..|ws[1..]| - 1] == ws[..|ws| - 1][1..];
        LastWriteTail(ws[..|ws| - 1], f);
      }
    } else {
      assert ws[..0] == [];
    }
  }
}
