# laravel-facet-filter, modelled in Dafny

laravel-facet-filter is a Laravel package for faceted search over Eloquent models. A model class defines its facets: a title plus a dot-separated `fieldname` path into the model's attributes and relations. An indexer writes one `facetrows` row `(facet_slug, subject_id, value)` for every value a model has under a facet. A filter array maps each facet's parameter name to the values selected for it.

This project models the core of the package as pure functions and a few methods over explicit state:

- **Facet definitions** (`FacetDefinitions`): turning definitions into facets, as `Facettable::makeFacets` and `FacetFilter::makeFacetsWithDefinitions` do.
- **The facet registry** (`FacetFilter`): one list of facets per subject type, built once and optionally preloaded with rows. It also covers normalising a raw filter array and the "empty" filter.
- **The per-request id memo** (`IdCache`): filtered-query ids keyed by the cache key `subjectType_json(filter)`. This module also holds the last query per subject type; setting it resets that subject type's memo.
- **The facet model** (`Facets`):
  - the slug `subject_type.fieldname` and the parameter name;
  - the memoised rows;
  - the option list, with one option per distinct non-blank value in order of first appearance, each with its count of rows whose subject is among the ids of the last query with this facet's own constraint removed (`getIdsInQueryWithoutFacet`).
- **The indexer** (`Indexer`):
  - value extraction along a dotted path (`pluck` plus a one-level `flatten`);
  - building the index without null values and without duplicates;
  - inserting in chunks of 1000;
  - deleting a model's rows or truncating the table.
- **`FacettableCollection::facetFilter`** (`FacettableCollection`): filtering an in-memory collection.
  - Rows are built from the collection itself.
  - A selection that covers every value present counts as no selection.
  - Each facet keeps the ids of the models it lets through.
  - The facets' id lists are combined by a fold that starts over whenever its running result is empty, exactly as written in the source.
  - The "all but this facet" and whole-filter id lists are stored in the memo.
- **The two cache front ends** (`FacetCache`, `HasFacetCache`, over `KeyedStore`): reading and writing keyed entries, and forgetting whole keys or subkeys by prefix.

The module `Common` holds the generic sequence machinery: order-preserving filter, dedup, concatenation, join/split. `Values` holds the scalar/tree/row data.

Some things outside the code are parameters:

- `Str::slug` is a function parameter (`Slugger`).
- `json_encode` is a function parameter (`Encoder`). Where distinct filters must get distinct cache keys, the lemmas assume it is injective.
- Each class's `defineFacets()` is a function parameter (`Catalog`).
- The database table is a sequence of rows in storage order.
- A query is represented by the ids it stands for.
- The static state of `FacetFilter` is passed in and returned as values: the registry, the last queries and the id memo.

## Model

| member | source | states |
|---|---|---|
| FacetDefinitions.MakeFacets | src/Traits/Facettable.php:17-42 | Fails exactly when some definition has no (non-null) `fieldname`, reporting the first such position. Otherwise there is one facet per definition, in order, each with the definition's fieldname. The title defaults to the fieldname, `subject_type` to the class and `facet_class` to Facet, unless the definition sets them. Rows, options and filter start out null. |
| FacetDefinitions.MakeFacetsWithDefinitions | src/FacetFilter.php:53-77 | Same failure condition and position. A missing title stays missing, and `subject_type` defaults to the given subject type. |
| FacetDefinitions.SameWithTitles | src/FacetFilter.php:59-68 | When every definition carries a title, both builders make identical facets. |
| FacetDefinitions.FirstMissing | src/Traits/Facettable.php:23-27 | Finds the first definition without a fieldname, which is where the exception stops the `map`. Every earlier definition has a fieldname. |
| FacetFilter.GetFacets | src/FacetFilter.php:21-47 | Fails exactly for a new subject type whose facets cannot be made. A known subject type keeps its facets, and without an array filter the registry is unchanged. A new subject type gets freshly made facets; when loading, each facet holds exactly the table's rows under its slug, and none when there are none. An array filter is normalised against the facets' parameter names and set on every facet. Other subject types are untouched. |
| FacetFilter.Known | src/FacetFilter.php:41-46 | For a registered subject type the registry keeps its keys. Without an array filter nothing changes. With one, every facet gets the filter normalised against the registered facets' parameter names, and nothing else about the facets changes. |
| FacetFilter.Fresh | src/FacetFilter.php:23-46 | For a new subject type it fails exactly when `makeFacets` fails. Otherwise the type is registered and other types keep their facets. Each made facet differs only in its rows, which are the table's rows under its slug when loading and there are some, and in its filter when an array is given. |
| FacetFilter.GetFacetsAgain | src/FacetFilter.php:23-46 | A second call with the same filter returns the same facets and leaves the registry as the first call left it. |
| FacetFilter.FilterFromArr | src/FacetFilter.php:109-124 | The filter has one entry per distinct facet parameter name, in facet order. A name the input gives holds the input wrapped as a list, with an empty list dropped. Every other name holds `[]`, and unknown input keys are dropped. |
| FacetFilter.EmptyFilter | src/FacetFilter.php:129-132 | Every entry is empty, except that a parameter named "0" holds the subject type's name, because the subject type itself is passed as the array. |
| FacetFilter.ParamNamesIgnoreRows | src/FacetFilter.php:27-35 | Preloading rows does not change any parameter name. |
| Filters.Get | src/FacetFilter.php:121 | `isset($filter[$p])` holds exactly when `p` is an entry name, and then yields the first entry's values. |
| Filters.GetAt | src/FacetFilter.php:111 | In a filter with distinct names, looking up an entry's name finds that entry. |
| Filters.Replace | src/Collections/FacettableCollection.php:81 | `array_merge($filter, [$p => $vs])` replaces an existing entry in place, or appends a new one. |
| Filters.ReplaceGet | src/Collections/FacettableCollection.php:81 | After the replacement `p` reads `vs`, every other name reads as before, and names stay distinct. |
| Filters.Normalize | src/FacetFilter.php:111-123 | The normalised filter's names are the facets' parameter names without repeats, in order. |
| Filters.NormalizeGet | src/FacetFilter.php:113-121 | A known name reads its wrapped input, or `[]`; an unknown name is absent. |
| Filters.NormalizeIdempotent | src/FacetFilter.php:109-124 | Normalising an already normalised filter gives it back unchanged. |
| Filters.EmptyFilterValues | src/FacetFilter.php:129-132 | Each entry of the empty filter is `[]`, or the subject type's name for a parameter named "0". |
| Filters.CacheKeyInjective | src/FacetFilter.php:174-177 | With an injective `json_encode`, two filters of one subject type share a cache key exactly when they are equal. |
| IdCache.Read | src/FacetFilter.php:155-159 | The memo answers the ids stored under the filter's cache key, or `false` when none are stored. |
| IdCache.CacheIds | src/FacetFilter.php:139-160 | Given ids, they are stored and returned, and a later read finds them. Without ids, the call answers what was stored and creates an empty memo only for a new subject type. Other subject types and other cache keys are untouched. |
| IdCache.CacheIdsOtherFilter | src/FacetFilter.php:147-150 | With an injective encoder, storing under one filter leaves every other filter's entry alone. |
| IdCache.Reset | src/FacetFilter.php:166-169 | Afterwards nothing is cached for the subject type, and every other subject type is unchanged. |
| IdCache.SetLastQuery | src/FacetFilter.php:84-91 | The subject type's last query becomes the given one and its memo is cleared. Every other subject type's last query and memo are unchanged. |
| IdCache.GetLastQuery | src/FacetFilter.php:96-103 | Answers the remembered query, or `false` when there is none. |
| IdCache.ReadAfterWrites | src/FacetFilter.php:139-153 | After a run of stores, each filter reads the ids last stored for it, or what it read before when the run never stored it. |
| IdCache.ApplyWritesOthers | src/FacetFilter.php:141-150 | A run of stores for one subject type leaves every other subject type's memo as it was. |
| IdCache.LastWrite | src/FacetFilter.php:150 | The last store of a filter in a run exists exactly when the run stores that filter; no later store in the run has that filter. |
| Facets.SlugIdentifies | src/Models/Facet.php:113-116 | The slug is `subject_type.fieldname`. When subject types contain no dot, two facets share a slug exactly when they share subject type and fieldname. |
| Facets.ParamNames | src/Models/Facet.php:108-111 | Gives each facet's parameter name, the slug of its title, in facet order. |
| Facets.FetchRows | src/Models/Facet.php:31-37 | Gives exactly the table's rows under the slug, in table order, each as many times as the table holds it. |
| Facets.GetRows | src/Models/Facet.php:39-47 | Fetches only while `rows` is null and then stores what it fetched. Otherwise it returns the rows it holds without fetching. |
| Facets.CountValues | src/Models/Facet.php:66-79 | The one-pass loop lists each non-blank value once, in order of first appearance. Each value's total is the number of its rows whose subject is among the given ids. |
| Facets.CountRow | src/Models/Facet.php:67-78 | One turn of the loop keeps the loop's invariant: listed values followed by those still to come make the option values in first-appearance order, and each listed total plus the rest's count is the full count. |
| Facets.TallyBounds | src/Models/Facet.php:72-78 | A value's total never exceeds its number of rows, and is 0 when no ids are given. |
| Facets.OptionsCoverValues | src/Models/Facet.php:66-95 | Every option stands for a non-blank row value, and every non-blank row value has an option. |
| Facets.OptionsTotals | src/Models/Facet.php:81-95 | No value has two options, and each total is the value's count. An option is selected exactly when its value is in the filter's entry for the facet. |
| Facets.OptionsOrder | src/Models/Facet.php:72-75 | Options come in the order their values first appear among the non-blank rows. |
| Facets.TallyOptions | src/Models/Facet.php:49-101 | Builds the option list the reference definition `OptionsOf` gives: the counted values, each with its selected flag and its slug `fieldname-slug_value-slug`. |
| Facets.GetOptions | src/Models/Facet.php:49-101 | Computes the options once, from the memoised rows, counted against the ids of the last query with this facet's own constraint removed (none without a last query), and stores them. Later calls return the stored options unchanged. |
| Facets.OptionsAreMemoised | src/Models/Facet.php:51 | A second call returns the first call's options, even after a new filter, query or table. |
| Facets.GetNonMissingOptions | src/Models/Facet.php:103-106 | Reuses the stored options, or computes and stores them as `getOptions` does, and gives exactly those whose total is positive, in option order. |
| Indexer.Pluck | src/Indexer.php:46 | `pluck($field)` reads the field of each item, in order; an item without it gives null. |
| Indexer.PluckPathWalks | src/Indexer.php:42-50 | Plucking a dotted path segment by segment, flattening one level between segments, equals walking the path from each item in turn. |
| Indexer.BuildValuesWalk | src/Indexer.php:32-57 | A facet without a fieldname yields no values. Otherwise the values are exactly those the fieldname's path reaches from the model, and a fieldname without a dot reads the one attribute. |
| Indexer.ValueRows | src/Indexer.php:116-122 | There is one row per non-null value, carrying the facet's slug and the model's id, and no other row. |
| Indexer.IndexRows | src/Indexer.php:95-133 | Each row `buildIndex` considers appears once. |
| Indexer.IndexRowsExactly | src/Indexer.php:108-128 | A row is in the index exactly when it is some model's non-null value for some facet, under that facet's slug and that model's id. |
| Indexer.IndexRowsNotNull | src/Indexer.php:117-119 | No index row holds a null value. |
| Indexer.KeyCollision | src/Indexer.php:121-127 | Two different candidate rows can share the array key `slug.id.value`, and the keyed array then keeps only the second. |
| Indexer.AssignKeyed | src/Indexer.php:127 | When keys tell the rows apart, assigning a row the keyed array already holds changes nothing, and assigning a new one appends it. |
| Indexer.AssignAllDedup | src/Indexer.php:108-128 | When keys tell the rows apart, the keyed array gains exactly the rows it has not seen, each once, in order of first occurrence. |
| Indexer.AsWrittenAgrees | src/Indexer.php:108-130 | When no two different candidates share a key, the rows the keyed array collects are exactly the deduplicated candidates `IndexRows`. |
| Indexer.CollisionCandidates | src/Indexer.php:108-128 | Class T's definitions "a", and "1" with `subject_type` "T.a", make the facets with slugs "T.a" and "T.a.1". Over two models with plain string values they yield exactly the two colliding rows. The keyed array keeps one of them, while `IndexRows` keeps both. |
| Indexer.Chunk | src/Indexer.php:61 | `array_chunk(_, 1000)` gives non-empty pieces of at most 1000, all full but the last, that concatenate back to the rows. |
| Indexer.InsertRows | src/Indexer.php:59-65 | Inserting chunk by chunk appends exactly the rows, in order. |
| Indexer.BuildIndex | src/Indexer.php:95-136 | Given models replace the stored ones. With none, or an empty list, nothing is inserted. Otherwise it fails exactly when the first model's class has no facets and cannot make them. On success the table keeps its old rows and gains each candidate row of that class's facets exactly once, which is the corrected keying (see Findings). |
| Indexer.ResetIndex | src/Indexer.php:86-93 | The table is emptied. |
| Indexer.ResetIndexAsWritten | src/Indexer.php:86-93 | The table is emptied, and the call then ends in an undefined-method error. |
| Indexer.DeleteRowsFails | src/Indexer.php:73-79 | Deleting model by model fails exactly when some model's class has no facets yet and cannot make them. |
| Indexer.DeleteRowsRegisters | src/Indexer.php:73-74 | A successful deletion keeps every registered class's facets and registers the class of every model. |
| Indexer.DeleteRowsKeeps | src/Indexer.php:73-79 | A successful deletion keeps, in order, exactly the rows that are not a given model's rows under a slug of its class's facets. |
| Indexer.DeleteRowsCounts | src/Indexer.php:73-79 | A successful deletion keeps every copy of each row no model deletes, and no copy of a row some model deletes. |
| Indexer.ResetRows | src/Indexer.php:67-84 | Without models, or with an empty list, the table is emptied. Otherwise exactly the rows of each model under its class's facet slugs go, and every copy of every other row stays, in order. |
| Indexer.ReachedPrefix | src/Indexer.php:72-79 | The models before the first whose class cannot make its facets are deleted without error. |
| Indexer.ReachedAll | src/Indexer.php:72-79 | The deletion loop gets through every model exactly when no model's class fails to make its facets. |
| Indexer.ResetRowsAsWritten | src/Indexer.php:67-84 | Whenever the table change goes through, it is the one `ResetRows` makes, and the call then ends in the undefined-method error instead of returning. When a model's class cannot make its facets, that error is raised and the table keeps the deletions of the models before it, since there is no transaction. |
| FacettableCollection.CollectionRows | src/Collections/FacettableCollection.php:28-37 | A row is among a facet's rows built from the collection exactly when it is some model's value for the facet, null included, with the facet's slug and the model's id. |
| FacettableCollection.CollectionRowsIndexed | src/Collections/FacettableCollection.php:28-37 | Without its null rows, the collection's row list for a facet is exactly the index's candidate list for that facet (`Indexer.Candidates`), in the same order and with the same repetitions. |
| FacettableCollection.EffectiveSelection | src/Collections/FacettableCollection.php:42-50 | The facet filters by nothing exactly when nothing is selected or every truthy value present is selected. Otherwise it filters by the selection. |
| FacettableCollection.IncludedIds | src/Collections/FacettableCollection.php:52-64 | With no effective selection, the ids of the whole collection in order. Otherwise exactly the ids of the models with one of their values selected, in collection order. |
| FacettableCollection.IncludedIdsAsWritten | src/Collections/FacettableCollection.php:52-64 | Succeeds exactly when there is no selection or no model, and then agrees with `IncludedIds`. Otherwise the call of `intersect` on an array fails. |
| FacettableCollection.SelectionThrows | src/Collections/FacettableCollection.php:42-59 | As written, a facet throws exactly when its effective selection is not empty, because a selection only stays in force over a collection that has a model. |
| FacettableCollection.Inter | src/Collections/FacettableCollection.php:78 | `array_intersect` keeps the ids of the first list that are in the second, in the first list's order. |
| FacettableCollection.Fold | src/Collections/FacettableCollection.php:76-83 | Combining no lists gives nothing. Every id of the combination is in the last list. |
| FacettableCollection.FoldCovers | src/Collections/FacettableCollection.php:76-83 | An id in every list survives the combination. |
| FacettableCollection.FoldIsIntersection | src/Collections/FacettableCollection.php:76-83 | While the running result never runs empty before the last list, the combination is exactly the intersection. |
| FacettableCollection.FoldRestarts | src/Collections/FacettableCollection.php:78 | An empty running result restarts the fold: lists [1], [2], [3] share no id, yet combine to [3]. |
| FacettableCollection.SingleFacetExclusion | src/Collections/FacettableCollection.php:72-79 | With one facet, its "all but this facet" ids are empty. |
| FacettableCollection.Prepare | src/Collections/FacettableCollection.php:23-26 | Fails on an empty collection, which has no first model. Otherwise it fails exactly when the first model's class has no facets and cannot make them. On success the filter is normalised against the facets' parameter names and set on every facet, and other subject types are untouched. |
| FacettableCollection.Finish | src/Collections/FacettableCollection.php:28-88 | The result keeps, in collection order, exactly the models whose id survives the combination. The subject type's facets get the collection's rows, and other subject types are untouched. |
| FacettableCollection.FilterCollection | src/Collections/FacettableCollection.php:17-89 | Fails exactly on an empty collection or an unbuildable subject type. Otherwise it is the preparation followed by the filtering. |
| FacettableCollection.FilteredModels | src/Collections/FacettableCollection.php:70-88 | While the combination never runs empty, a model is returned exactly when every facet includes its id. |
| FacettableCollection.NothingSelectedKeepsAll | src/Collections/FacettableCollection.php:46-64 | When every facet's selection is empty or covers every value present, and there is at least one facet, the whole collection comes back. |
| FacettableCollection.NoFacetsKeepsNone | src/Collections/FacettableCollection.php:70-88 | A subject type without facets returns no models. |
| FacettableCollection.CachedIds | src/Collections/FacettableCollection.php:68-86 | After filtering, the subject type's memo holds the combined ids under the whole filter. Under the filter with a selecting facet's entry emptied, it holds that facet's "all but this facet" ids. It holds nothing under any other filter, and other subject types are untouched. |
| FacettableCollection.MemoWhole | src/Collections/FacettableCollection.php:70-86 | The final store makes the whole filter read the combined ids. |
| FacettableCollection.MemoExclusion | src/Collections/FacettableCollection.php:71-81 | The filter with a selecting facet's entry emptied reads that facet's "all but this facet" ids. |
| FacettableCollection.MemoNothingElse | src/Collections/FacettableCollection.php:68-86 | A filter that is neither the whole filter nor one with a facet's entry emptied reads nothing, because the memo was reset first. |
| FacettableCollection.LastEmptiedWrite | src/Collections/FacettableCollection.php:81 | The last store under a filter with one facet's entry emptied comes from a facet of that parameter name. |
| KeyedStore.StoreKeyInjective | src/FacetCache.php:15 | Different keys under one prefix never share a store key. |
| KeyedStore.Remember | src/FacetCache.php:14-28 | Without a value, the store is unchanged and the answer is what is stored. With one, the value is stored and returned, and other keys and subkeys are unchanged. |
| KeyedStore.ForgetPrefix | src/FacetCache.php:49-60 | Each named key keeps exactly the entries whose subkey does not start with the prefix. The array is put back even when it was empty, and other keys are unchanged. |
| FacetCache.Cache | src/FacetCache.php:14-28 | Reads under `prefix.key` and the subkey, joining an array subkey with dots. A plain read returns exactly what is stored there and changes nothing. A value to remember is stored there and returned, adding at most that key. Other keys and subkeys are unchanged. |
| FacetCache.CacheThenRead | src/FacetCache.php:22-27 | After a value is stored, reading the same key and subkey returns it. |
| FacetCache.PartsAddressJoined | src/FacetCache.php:18-20 | An array subkey addresses the same entry as its dot-joined string. |
| FacetCache.CacheOtherKey | src/FacetCache.php:15-24 | Storing under one key leaves every other key's entries as they were. |
| FacetCache.ForgetCache | src/FacetCache.php:30-64 | Without a subkey, every named key is forgotten whole. With one, each named key loses exactly the entries whose subkey starts with it, and is stored back even when it was absent. Keys not named are unchanged, and no other key appears. |
| FacetCache.ForgetDefaults | src/FacetCache.php:32-34 | With no keys named, exactly `facetRows`, `idsInFilteredQuery` and `countForPagination` go. |
| HasFacetCache.Cache | src/Traits/HasFacetCache.php:38-55 | Reads under `prefix.key` and the subkey. A plain read returns exactly what is stored there and changes nothing. A value to remember is stored there first and returned, adding at most that key. Other keys and subkeys are unchanged. |
| HasFacetCache.CacheThenRead | src/Traits/HasFacetCache.php:49-54 | After a value is stored, reading the same key and subkey returns it. |
| HasFacetCache.ForgetCache | src/Traits/HasFacetCache.php:57-75 | Each key walked is forgotten whole, and every other key is unchanged. |
| HasFacetCache.ForgetDefaults | src/Traits/HasFacetCache.php:61-63 | With no key, exactly `facetRows` and `idsInFilteredQuery` go. |
| HasFacetCache.ForgetOneKey | src/Traits/HasFacetCache.php:65-67 | A string key is the only one forgotten. |
| HasFacetCache.ForgetNotAString | src/Traits/HasFacetCache.php:59-72 | An argument that is neither null nor a string forgets nothing, because `$keys` stays empty. |

## Left out

- The database and the cache stores are not modelled as such:
  - The `facetrows` table is a sequence of rows.
  - `created_at` timestamps, from the clock, are not stored.
  - Eloquent queries are represented by their ids. `getIdsInQueryWithoutFacet` of the query builder is not part of this model, so its result is a parameter of `GetOptions`.
  - Cache-store selection from configuration and expiry times are left out; a store is a plain map.
- The service provider, facades, configuration, migrations, `FacetRow`, `FacetCollection` and `FacetQueryBuilder` are not part of this model.
- `Indexer::resetRows` and `resetIndex` end by calling `FacetFilter::forgetCache()`, which `FacetFilter` does not define (see Findings). The corrected `ResetIndex` and `ResetRows` model only the table change; which cache was meant to be forgotten is not modelled.
- Indexer.BuildIndex: inserts the corrected rows `IndexRows`, not the source's keyed array, which loses a row whenever two different candidates share the key `slug.id.value` (see Findings). `AsWrittenAgrees` proves that the two agree whenever no two candidates share a key. On a failure only the error is returned, while the source has already stored the given models in `$this->models` (src/Indexer.php:97-99).
- Indexer.ResetRows: on a class that cannot make its facets it returns only the error. The source has already deleted the earlier models' rows at that point; `ResetRowsAsWritten` gives that partly deleted table as its state.
- Values are strings or null:
  - PHP's loose comparison of numeric strings (`"1" == "01"`) and the renumbering of numeric array keys are not modelled. Neither is `array_merge` renumbering a numeric parameter name such as "0".
  - A record or list reached at the end of a path, such as a related model or a relation's collection, is read as null, so the model's indexer skips it and `facetFilter` matches it as the empty string. The source does otherwise. `buildValues` ends with `toArray()` (src/Indexer.php:53), which hands such a value on as a PHP array. `implode` at src/Indexer.php:121 then meets an array, which PHP reports as an "Array to string conversion" error. In `filterCollection` the array becomes a row's value (src/Collections/FacettableCollection.php:31-34).
  - `data_get` indexing into a list by a numeric segment is not modelled: a list is always flattened.
- FacetDefinitions.MakeFacets: the exception's message, which embeds the definition's JSON, is reduced to the position of the first definition without a fieldname. A failing call returns only the error; any state built before the throw is dropped.
- FacetDefinitions.Instantiate: a custom `facet_class` is recorded on the facet but still behaves as a `Facet`, since subclasses are outside the model. A `facet_class` set to null is read as the default.
- The `Facettable` delegators (`getFacets`, `getFilterFromArr`, `getEmptyFilter`) are modelled by passing the using class as the subject type. An overridden `makeFacets` is not modelled.
- FacettableCollection.FilterCollection: a custom indexer argument is not modelled; the default `Indexer` is used.
  - A facet's `included_ids` is kept next to the facets in a list of parts rather than stored on each facet.
  - `$values->intersect(...)` is applied to the plain array that `buildValues` returns, which has no such method in PHP (see Findings). `IncludedIds` and the rest of the filtering model the evident intent: one of the model's values is among the selected values.
- The combination of the facets' id lists follows the code as written:
  - An empty running result restarts the fold with the next list (`FoldRestarts`) instead of keeping the result empty.
  - A facet with no other facet stores `[]` rather than every id (`SingleFacetExclusion`).
  - A subject type without facets returns no models (`NoFacetsKeepsNone`).
- FacettableCollection.FilteredModels: the "returned exactly when every facet includes it" property is proved only while the fold never restarts, because the code does not guarantee it otherwise.
- FacettableCollection.CachedIds: the entry of a facet whose selection is already empty is not described separately, because its emptied filter equals the whole filter and is overwritten by the final store.

## Findings

| source | as written | input that shows it | evidently intended | confidence | as-written member | corrected member |
|---|---|---|---|---|---|---|
| src/Indexer.php:121-127 | `buildIndex` files each row under the key `slug.id.value`, so two different rows whose dot-joined parts coincide keep only the later one | Class T defines facets `["fieldname" => "a"]` and `["fieldname" => "1", "subject_type" => "T.a"]`, with slugs "T.a" and "T.a.1". Model 1 has `a = "2.x"`; model 2 has `1 = "x"`. Both rows get the key "T.a.1.2.x". | Each distinct `(slug, subject id, value)` row is inserted once | low, not executed | Indexer.KeyCollision, Indexer.CollisionCandidates | Indexer.IndexRows |
| src/Indexer.php:67-93 | `resetRows` and `resetIndex` end with `FacetFilter::forgetCache()`. The class behind the `FacetFilter` facade defines no such method and no `__call`, so every call throws after the table has changed. | Any call, e.g. `resetIndex()` on any table | The table change is the call's effect and the indexer is returned | high, not executed | Indexer.ResetIndexAsWritten, Indexer.ResetRowsAsWritten | Indexer.ResetIndex, Indexer.ResetRows |
| src/Collections/FacettableCollection.php:55-59 | `$values` is the plain array `buildValues` returns, and `$values->intersect(...)` calls a method on it, which throws | A collection of two models with `a` = "x" and "y", filtered by `["a" => ["x"]]`: the selection covers only part of the values, so the loop runs and throws at the first model | A model is included when one of its values is selected | high, not executed | FacettableCollection.IncludedIdsAsWritten, FacettableCollection.SelectionThrows | FacettableCollection.IncludedIds |
