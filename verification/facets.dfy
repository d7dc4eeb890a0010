/** The Facet model (src/Models/Facet.php): identity (slug and parameter
    name), the memoised rows, and the option list with per-value counts. */
module Facets {
  import opened Common
  import opened Values
  import opened Filters

  /** The default `facet_class`. */
  const FacetClass := "Mgussekloo\\FacetFilter\\Models\\Facet"

  /** One entry of `getOptions()`. */
  datatype FacetOption = FacetOption(value: string, selected: bool, total: nat, slug: string)

  /** A facet: its fillable attributes (`title`, `fieldname`, `subject_type`),
      the class it was instantiated as, and the three memo fields that start
      out null. */
  datatype Facet = Facet(
    title: Option<string>,
    fieldname: Option<string>,
    subjectType: Option<string>,
    facetClass: string,
    rows: Option<seq<Row>>,
    options: Option<seq<FacetOption>>,
    filter: Option<Filter>)

  /** A null attribute in string context. */
  function OrEmpty(s: Option<string>): string {
    s.GetOr("")
  }

  /** `getSlug`: `implode('.', [subject_type, fieldname])`. */
  function Slug(f: Facet): string {
    Join([OrEmpty(f.subjectType), OrEmpty(f.fieldname)], ".")
  }

  /** The slug is `subject_type.fieldname`, and when subject types carry no
      dot it identifies the pair. */
  lemma SlugIdentifies(f: Facet, g: Facet)
    requires '.' !in OrEmpty(f.subjectType) && '.' !in OrEmpty(g.subjectType)
    ensures Slug(f) == OrEmpty(f.subjectType) + "." + OrEmpty(f.fieldname)
    ensures Slug(f) == Slug(g) <==>
            OrEmpty(f.subjectType) == OrEmpty(g.subjectType) && OrEmpty(f.fieldname) == OrEmpty(g.fieldname)
  {
    var a, b := OrEmpty(f.subjectType), OrEmpty(f.fieldname);
    var c, d := OrEmpty(g.subjectType), OrEmpty(g.fieldname);
    JoinPair(a, b, ".");
    JoinPair(c, d, ".");
    var s := a + "." + b;
    FirstDot(a, b);
    if s == c + "." + d {
      FirstDot(c, d);
      assert a == s[..|a|] == c;
      assert b == s[|a| + 1..] == d;
    }
  }

  lemma FirstDot(a: string, b: string)
    requires '.' !in a
    ensures '.' in a + "." + b && FirstIndex(a + "." + b, '.') == |a|
  {
    var s := a + "." + b;
    assert s[|a|] == '.';
    assert forall j | 0 <= j < |a| :: s[j] == a[j];
  }

  /** `getParamName`: `Str::slug($this->title)`. */
  function ParamName(f: Facet, slug: Slugger): string {
    slug(OrEmpty(f.title))
  }

  function ParamNames(facets: seq<Facet>, slug: Slugger): (ps: seq<string>)
    ensures |ps| == |facets|
    ensures forall i | 0 <= i < |facets| :: ps[i] == ParamName(facets[i], slug)
  {
    seq(|facets|, i requires 0 <= i < |facets| => ParamName(facets[i], slug))
  }

  /** `getFacetRowsFromDB`: the table's rows for one slug, in table order. */
  function FetchRows(table: seq<Row>, slug: string): (rows: seq<Row>)
    ensures forall r :: r in rows <==> r in table && r.slug == slug
    ensures Subsequence(rows, table)
    ensures forall r :: multiset(rows)[r] == if r.slug == slug then multiset(table)[r] else 0
  {
    KeepMultiset(table, (r: Row) => r.slug == slug);
    Keep(table, (r: Row) => r.slug == slug)
  }

  /** `getRows`: fetches only while `rows` is null, otherwise hands back the rows it holds. */
  function GetRows(f: Facet, table: seq<Row>): (r: (Facet, seq<Row>))
    ensures f.rows.Some? ==> r.0 == f && r.1 == f.rows.value
    ensures f.rows.None? ==> r.1 == FetchRows(table, Slug(f)) && r.0 == f.(rows := Some(r.1))
    ensures r.0.rows == Some(r.1)
  {
    if f.rows.Some? then (f, f.rows.value)
    else
      var rows := FetchRows(table, Slug(f));
      (f.(rows := Some(rows)), rows)
  }

  /** `setRows`, which Facet.php calls but does not define: assigns the rows. */
  function SetRows(f: Facet, rows: seq<Row>): Facet {
    f.(rows := Some(rows))
  }

  /** The texts of the rows whose value is not blank, in row order. */
  function NonBlankTexts(rows: seq<Row>): seq<string> {
    if |rows| == 0 then []
    else
      var rest := NonBlankTexts(rows[1..]);
      if Blank(rows[0].value) then rest else [Text(rows[0].value)] + rest
  }

  /** Every text listed comes from a non-blank row. */
  lemma {:induction false} NonBlankTextSource(rows: seq<Row>, v: string) returns (i: nat)
    requires v in NonBlankTexts(rows)
    ensures i < |rows| && !Blank(rows[i].value) && Text(rows[i].value) == v
  {
    if Blank(rows[0].value) || Text(rows[0].value) != v {
      var j := NonBlankTextSource(rows[1..], v);
      i := j + 1;
    } else {
      i := 0;
    }
  }

  /** Every non-blank row's text is listed. */
  lemma {:induction false} NonBlankTextListed(rows: seq<Row>, i: nat)
    requires i < |rows| && !Blank(rows[i].value)
    ensures Text(rows[i].value) in NonBlankTexts(rows)
  {
    if i > 0 {
      NonBlankTextListed(rows[1..], i - 1);
    }
  }

  /** The option values: each distinct non-blank value once, in order of first appearance. */
  function OptionValues(rows: seq<Row>): seq<string> {
    Dedup(NonBlankTexts(rows))
  }

  /** Does a row add one to the total of `v`? */
  predicate Counted(r: Row, v: string, ids: seq<Id>) {
    !Blank(r.value) && Text(r.value) == v && r.subjectId in ids
  }

  /** The rows with value `v` whose subject is among `ids`. */
  function Tally(rows: seq<Row>, v: string, ids: seq<Id>): nat {
    if |rows| == 0 then 0
    else (if Counted(rows[0], v, ids) then 1 else 0) + Tally(rows[1..], v, ids)
  }

  /** All rows with the non-blank value `v`. */
  function Occurrences(rows: seq<Row>, v: string): nat {
    if |rows| == 0 then 0
    else (if !Blank(rows[0].value) && Text(rows[0].value) == v then 1 else 0) + Occurrences(rows[1..], v)
  }

  /** A total never exceeds the number of rows carrying the value, and is 0 for an empty id list. */
  lemma {:induction false} TallyBounds(rows: seq<Row>, v: string, ids: seq<Id>)
    ensures Tally(rows, v, ids) <= Occurrences(rows, v)
    ensures ids == [] ==> Tally(rows, v, ids) == 0
  {
    if |rows| > 0 {
      TallyBounds(rows[1..], v, ids);
    }
  }

  /** The reference option list: one option per option value, with its
      tally, its selected flag and its slug. */
  function OptionsOf(rows: seq<Row>, ids: seq<Id>, selected: seq<string>, fieldSlug: string, slug: Slugger)
    : (options: seq<FacetOption>)
    ensures |options| == |OptionValues(rows)|
    ensures forall k | 0 <= k < |options| :: options[k].value == OptionValues(rows)[k]
  {
    var vs := OptionValues(rows);
    seq(|vs|, k requires 0 <= k < |vs| =>
      FacetOption(vs[k], vs[k] in selected, Tally(rows, vs[k], ids), fieldSlug + "_" + slug(vs[k])))
  }

  /** Every option stands for a non-blank row value, and every non-blank row
      value has an option. */
  lemma OptionsCoverValues(rows: seq<Row>, ids: seq<Id>, selected: seq<string>, fieldSlug: string, slug: Slugger)
    ensures var options := OptionsOf(rows, ids, selected, fieldSlug, slug);
      && (forall k | 0 <= k < |options| ::
            exists i | 0 <= i < |rows| :: !Blank(rows[i].value) && Text(rows[i].value) == options[k].value)
      && (forall i | 0 <= i < |rows| && !Blank(rows[i].value) ::
            exists k | 0 <= k < |options| :: options[k].value == Text(rows[i].value))
  {
    var options := OptionsOf(rows, ids, selected, fieldSlug, slug);
    var vs := OptionValues(rows);
    forall k | 0 <= k < |options|
      ensures exists i | 0 <= i < |rows| :: !Blank(rows[i].value) && Text(rows[i].value) == options[k].value
    {
      assert vs[k] in vs;
      var i := NonBlankTextSource(rows, vs[k]);
    }
    forall i | 0 <= i < |rows| && !Blank(rows[i].value)
      ensures exists k | 0 <= k < |options| :: options[k].value == Text(rows[i].value)
    {
      NonBlankTextListed(rows, i);
      var k := FirstIndex(vs, Text(rows[i].value));
      assert options[k].value == Text(rows[i].value);
    }
  }

  /** No value has two options; each total is the value's tally, bounded by
      its row count and 0 for an empty id list; an option is selected exactly
      when its value is among the selected values. */
  lemma OptionsTotals(rows: seq<Row>, ids: seq<Id>, selected: seq<string>, fieldSlug: string, slug: Slugger)
    ensures var options := OptionsOf(rows, ids, selected, fieldSlug, slug);
      && (forall k, l | 0 <= k < l < |options| :: options[k].value != options[l].value)
      && (forall k | 0 <= k < |options| ::
            && options[k].total == Tally(rows, options[k].value, ids)
            && options[k].total <= Occurrences(rows, options[k].value)
            && (ids == [] ==> options[k].total == 0)
            && (options[k].selected <==> options[k].value in selected))
  {
    var options := OptionsOf(rows, ids, selected, fieldSlug, slug);
    forall k | 0 <= k < |options| ensures options[k].total <= Occurrences(rows, options[k].value)
                                  ensures ids == [] ==> options[k].total == 0 {
      TallyBounds(rows, options[k].value, ids);
    }
  }

  /** Options come in the order their values first appear among the non-blank rows. */
  lemma OptionsOrder(rows: seq<Row>, ids: seq<Id>, selected: seq<string>, fieldSlug: string, slug: Slugger,
                     k: nat, l: nat)
    requires k < l < |OptionsOf(rows, ids, selected, fieldSlug, slug)|
    ensures var options := OptionsOf(rows, ids, selected, fieldSlug, slug);
      FirstIndex(NonBlankTexts(rows), options[k].value) < FirstIndex(NonBlankTexts(rows), options[l].value)
  {
    DedupOrder(NonBlankTexts(rows), k, l);
  }

  lemma DedupStep(rows: seq<Row>, i: nat, seen: set<string>)
    requires i < |rows|
    ensures DedupFrom(NonBlankTexts(rows[i..]), seen) ==
      if Blank(rows[i].value) || Text(rows[i].value) in seen then DedupFrom(NonBlankTexts(rows[i + 1..]), seen)
      else [Text(rows[i].value)] + DedupFrom(NonBlankTexts(rows[i + 1..]), seen + {Text(rows[i].value)})
  {
    assert rows[i..][1..] == rows[i + 1..];
    if !Blank(rows[i].value) {
      var ts := [Text(rows[i].value)] + NonBlankTexts(rows[i + 1..]);
      assert NonBlankTexts(rows[i..]) == ts;
      assert ts[1..] == NonBlankTexts(rows[i + 1..]);
    }
  }

  lemma TallyStep(rows: seq<Row>, i: nat, v: string, ids: seq<Id>)
    requires i < |rows|
    ensures Tally(rows[i..], v, ids) == (if Counted(rows[i], v, ids) then 1 else 0) + Tally(rows[i + 1..], v, ids)
  {
    assert rows[i..][1..] == rows[i + 1..];
  }

  /** What the loop of `getOptions` has built after the first `i` rows: the
      values listed so far followed by those still to come make the option
      values, and each listed value's total plus the rest's tally is its
      full tally. */
  ghost predicate CountedUpTo(rows: seq<Row>, ids: seq<Id>, i: nat, order: seq<string>, totals: map<string, nat>)
    requires i <= |rows|
  {
    && (forall v :: v in order <==> v in totals)
    && ListedUpTo(rows, i, order, totals.Keys)
    && TalliedUpTo(rows, ids, i, totals)
  }

  /** The values listed so far followed by those still to come make the option values. */
  ghost predicate ListedUpTo(rows: seq<Row>, i: nat, order: seq<string>, seen: set<string>)
    requires i <= |rows|
  {
    order + DedupFrom(NonBlankTexts(rows[i..]), seen) == OptionValues(rows)
  }

  /** Each listed value's total plus the rest's tally is its full tally. */
  ghost predicate TalliedUpTo(rows: seq<Row>, ids: seq<Id>, i: nat, totals: map<string, nat>)
    requires i <= |rows|
  {
    && (forall v | v in totals :: totals[v] + Tally(rows[i..], v, ids) == Tally(rows, v, ids))
    && (forall v | v !in totals :: Tally(rows[i..], v, ids) == Tally(rows, v, ids))
  }

  /** One turn of the loop: skip a blank value, list a new value with a
      total of 0, and add one when the row's subject is among the ids. */
  method CountRow(rows: seq<Row>, ids: seq<Id>, i: nat, order: seq<string>, totals: map<string, nat>)
    returns (order2: seq<string>, totals2: map<string, nat>)
    requires i < |rows| && CountedUpTo(rows, ids, i, order, totals)
    ensures CountedUpTo(rows, ids, i + 1, order2, totals2)
  {
    order2, totals2 := order, totals;
    var row := rows[i];
    ListedStep(rows, i, order, totals.Keys);
    if Blank(row.value) {
      TalliedBlank(rows, ids, i, totals);
    } else {
      var v := Text(row.value);
      var isNew := v !in totals2;
      if isNew {
        order2 := order2 + [v];
        totals2 := totals2[v := 0];
      }
      if row.subjectId in ids {
        totals2 := totals2[v := totals2[v] + 1];
      }
      TalliedValue(rows, ids, i, totals, totals2);
      if isNew {
        assert totals2.Keys == totals.Keys + {v};
      } else {
        assert totals2.Keys == totals.Keys;
      }
    }
  }

  /** A row moves the listing on: a blank or already listed value adds
      nothing, a new value is appended and becomes seen. */
  lemma ListedStep(rows: seq<Row>, i: nat, order: seq<string>, seen: set<string>)
    requires i < |rows| && ListedUpTo(rows, i, order, seen)
    ensures Blank(rows[i].value) || Text(rows[i].value) in seen ==> ListedUpTo(rows, i + 1, order, seen)
    ensures !Blank(rows[i].value) && Text(rows[i].value) !in seen ==>
      ListedUpTo(rows, i + 1, order + [Text(rows[i].value)], seen + {Text(rows[i].value)})
  {
    DedupStep(rows, i, seen);
    if !Blank(rows[i].value) && Text(rows[i].value) !in seen {
      var v := Text(rows[i].value);
      var rest := DedupFrom(NonBlankTexts(rows[i + 1..]), seen + {v});
      assert order + ([v] + rest) == (order + [v]) + rest;
    }
  }

  /** A blank row counts for nothing. */
  lemma TalliedBlank(rows: seq<Row>, ids: seq<Id>, i: nat, totals: map<string, nat>)
    requires i < |rows| && Blank(rows[i].value) && TalliedUpTo(rows, ids, i, totals)
    ensures TalliedUpTo(rows, ids, i + 1, totals)
  {
    forall v {
      TallyStep(rows, i, v, ids);
    }
  }

  /** A row with a value adds its count to that value's total (0 when new)
      and to no other. */
  lemma TalliedValue(rows: seq<Row>, ids: seq<Id>, i: nat, totals: map<string, nat>, totals2: map<string, nat>)
    requires i < |rows| && !Blank(rows[i].value) && TalliedUpTo(rows, ids, i, totals)
    requires var v := Text(rows[i].value);
      totals2 == totals[v := (if v in totals then totals[v] else 0) + if rows[i].subjectId in ids then 1 else 0]
    ensures TalliedUpTo(rows, ids, i + 1, totals2)
  {
    var v := Text(rows[i].value);
    forall w | w in totals2 ensures totals2[w] + Tally(rows[i + 1..], w, ids) == Tally(rows, w, ids) {
      TallyStep(rows, i, w, ids);
    }
    forall w | w !in totals2 ensures Tally(rows[i + 1..], w, ids) == Tally(rows, w, ids) {
      TallyStep(rows, i, w, ids);
    }
  }

  /** The loop of `getOptions` (Facet.php:68-79): one pass over the rows
      building the ordered array value => total. */
  method CountValues(rows: seq<Row>, ids: seq<Id>) returns (order: seq<string>, totals: map<string, nat>)
    ensures order == OptionValues(rows)
    ensures forall v :: v in totals <==> v in order
    ensures forall v | v in totals :: totals[v] == Tally(rows, v, ids)
  {
    order := [];
    totals := map[];
    assert rows[0..] == rows;
    assert totals.Keys == {};
    assert order + DedupFrom(NonBlankTexts(rows[0..]), totals.Keys) == OptionValues(rows);
    for i := 0 to |rows|
      invariant CountedUpTo(rows, ids, i, order, totals)
    {
      order, totals := CountRow(rows, ids, i, order, totals);
    }
    assert rows[|rows|..] == [];
    assert DedupFrom(NonBlankTexts(rows[|rows|..]), totals.Keys) == [];
  }

  /** `getOptions` past the memo check: count, then one option per value
      with its total, its selected flag and its slug (Facet.php:81-95). */
  method TallyOptions(rows: seq<Row>, ids: seq<Id>, selected: seq<string>, fieldSlug: string, slug: Slugger)
    returns (options: seq<FacetOption>)
    ensures options == OptionsOf(rows, ids, selected, fieldSlug, slug)
  {
    var order, totals := CountValues(rows, ids);
    options := seq(|order|, k requires 0 <= k < |order| =>
      FacetOption(order[k], order[k] in selected, totals[order[k]], fieldSlug + "_" + slug(order[k])));
  }

  /** The selected values `getOptions` reads: only when a filter array is set and has this facet's name. */
  function SelectedValues(f: Facet, slug: Slugger): seq<string> {
    if f.filter.Some? then Selected(f.filter.value, ParamName(f, slug)) else []
  }

  /** `getOptions`: computed once, from the memoised rows, counted against the
      ids of the last query without this facet (none when there is no last
      query); later calls return the stored options. */
  method GetOptions(f: Facet, lastQueryIds: Option<seq<Id>>, table: seq<Row>, slug: Slugger)
    returns (g: Facet, options: seq<FacetOption>)
    ensures f.options.Some? ==> g == f && options == f.options.value
    ensures f.options.None? ==>
      var (h, rows) := GetRows(f, table);
      && options == OptionsOf(rows, lastQueryIds.GetOr([]), SelectedValues(f, slug), slug(OrEmpty(f.fieldname)), slug)
      && g == h.(options := Some(options))
    ensures g.options == Some(options)
  {
    if f.options.Some? {
      return f, f.options.value;
    }
    var (h, rows) := GetRows(f, table);
    options := TallyOptions(rows, lastQueryIds.GetOr([]), SelectedValues(f, slug), slug(OrEmpty(f.fieldname)), slug);
    g := h.(options := Some(options));
  }

  /** `setFilter`. */
  function SetFilter(f: Facet, filter: Filter): Facet {
    f.(filter := Some(filter))
  }

  /** Options are computed once: a second call, even after a new filter is
      set, returns the first call's options. */
  method OptionsAreMemoised(f: Facet, lastQueryIds: Option<seq<Id>>, table: seq<Row>, slug: Slugger,
                            filter: Filter, laterIds: Option<seq<Id>>, laterTable: seq<Row>)
    returns (first: seq<FacetOption>, second: seq<FacetOption>)
    ensures second == first
  {
    var g;
    g, first := GetOptions(f, lastQueryIds, table, slug);
    g := SetFilter(g, filter);
    g, second := GetOptions(g, laterIds, laterTable, slug);
  }

  /** `getNonMissingOptions`: the options whose total is positive, in option order. */
  method GetNonMissingOptions(f: Facet, lastQueryIds: Option<seq<Id>>, table: seq<Row>, slug: Slugger)
    returns (g: Facet, present: seq<FacetOption>)
    ensures g.options.Some?
    ensures f.options.Some? ==> g == f
    ensures f.options.None? ==>
      g.options == Some(OptionsOf(GetRows(f, table).1, lastQueryIds.GetOr([]), SelectedValues(f, slug), slug(OrEmpty(f.fieldname)), slug))
    ensures forall o :: o in present <==> o in g.options.value && o.total > 0
    ensures Subsequence(present, g.options.value)
  {
    var options;
    g, options := GetOptions(f, lastQueryIds, table, slug);
    present := Keep(options, (o: FacetOption) => o.total > 0);
  }
}
