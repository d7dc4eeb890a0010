/** The `HasFacetCache` trait (src/Traits/HasFacetCache.php): the same keyed
    reads and writes with string subkeys only, and forgetting of whole keys
    with a shorter default list. */
module HasFacetCache {
  import opened Common
  import opened KeyedStore

  /** The `$key` argument of `forgetCache`: null, a string, or anything else. */
  datatype KeyArg = NoKey | KeyString(key: string) | NotAString

  /** The keys forgotten when none is named. */
  const DefaultKeyList: seq<string> := ["facetRows", "idsInFilteredQuery"]

  /** The keys `forgetCache` walks: the defaults for null, the one string, and
      none for any other argument (`$keys` starts out empty). */
  function KeyNames(arg: KeyArg): (ks: seq<string>)
    ensures arg.NoKey? ==> ks == DefaultKeyList
    ensures arg.KeyString? ==> ks == [arg.key]
    ensures arg.NotAString? ==> ks == []
  {
    match arg
    case NoKey => DefaultKeyList
    case KeyString(k) => [k]
    case NotAString => []
  }

  /** `cache($key, $subkey, $toRemember)`: read `(key, subkey)` under the
      configured prefix, first storing `toRemember` there when it is set. The
      expiration argument only reaches the store's TTL. */
  function Cache<V>(s: Store<V>, prefix: string, key: string, sub: string, toRemember: Option<V>)
    : (r: (Store<V>, Read<V>))
    ensures toRemember.None? ==> r.0 == s
    ensures toRemember.None? ==>
      (r.1.Hit? <==> prefix + "." + key in s && sub in s[prefix + "." + key])
    ensures toRemember.None? ==> r.1 == Lookup(s, prefix + "." + key, sub)
    ensures toRemember.Some? ==> r.1 == Hit(toRemember.value)
    ensures toRemember.Some? ==> Lookup(r.0, prefix + "." + key, sub) == r.1
    ensures r.0.Keys == if toRemember.Some? then s.Keys + {prefix + "." + key} else s.Keys
    ensures forall k' | k' in s && k' != prefix + "." + key :: k' in r.0 && r.0[k'] == s[k']
    ensures forall other | other != sub ::
      Lookup(r.0, prefix + "." + key, other) == Lookup(s, prefix + "." + key, other)
  {
    Remember(s, StoreKey(prefix, key), sub, toRemember)
  }

  /** After storing a value, reading the same key and subkey returns it. */
  lemma CacheThenRead<V>(s: Store<V>, prefix: string, key: string, sub: string, v: V)
    ensures var (t, _) := Cache(s, prefix, key, sub, Some(v));
      Cache(t, prefix, key, sub, None) == (t, Hit(v))
  {
  }

  /** `forgetCache($key)`: forgets each key it walks, whole. */
  function ForgetCache<V>(s: Store<V>, prefix: string, arg: KeyArg): (r: Store<V>)
    ensures forall key | key in KeyNames(arg) :: prefix + "." + key !in r
    ensures forall k | k in s && (forall key | key in KeyNames(arg) :: k != prefix + "." + key) ::
      k in r && r[k] == s[k]
    ensures r.Keys <= s.Keys
  {
    var ks := seq(|KeyNames(arg)|, i requires 0 <= i < |KeyNames(arg)| => StoreKey(prefix, KeyNames(arg)[i]));
    assert forall key | key in KeyNames(arg) :: prefix + "." + key in ks by {
      forall key | key in KeyNames(arg) ensures prefix + "." + key in ks {
        var i :| 0 <= i < |KeyNames(arg)| && KeyNames(arg)[i] == key;
        assert ks[i] == prefix + "." + key;
      }
    }
    ForgetKeys(s, ks)
  }

  /** With no key named, exactly `facetRows` and `idsInFilteredQuery` go. */
  lemma ForgetDefaults<V>(s: Store<V>, prefix: string, k: string)
    requires k in s
    ensures k in ForgetCache(s, prefix, NoKey) <==>
      k !in {StoreKey(prefix, "facetRows"), StoreKey(prefix, "idsInFilteredQuery")}
  {
    var names := KeyNames(NoKey);
    assert names[0] == "facetRows" && names[1] == "idsInFilteredQuery";
    assert forall key | key in names :: key == names[0] || key == names[1];
  }

  /** A string key is the only one forgotten. */
  lemma ForgetOneKey<V>(s: Store<V>, prefix: string, key: string, k: string)
    requires k in s
    ensures k in ForgetCache(s, prefix, KeyString(key)) <==> k != StoreKey(prefix, key)
  {
    assert KeyNames(KeyString(key))[0] == key;
  }

  /** Any other argument forgets nothing. */
  lemma ForgetNotAString<V>(s: Store<V>, prefix: string)
    ensures ForgetCache(s, prefix, NotAString) == s
  {
  }
}
