/** `FacetCache` (src/FacetCache.php): keyed cache reads and writes, with
    array subkeys joined by dots and forgetting by subkey prefix. */
module FacetCache {
  import opened Common
  import opened KeyedStore

  /** A subkey as passed: a string, or an array of parts. */
  datatype Subkey = Plain(s: string) | Parts(parts: seq<string>)

  /** The `$keys` argument of `forgetCache`. */
  datatype Keys = DefaultKeys | KeyString(key: string) | KeyList(keys: seq<string>)

  /** The keys forgotten when none are named. */
  const DefaultKeyList: seq<string> := ["facetRows", "idsInFilteredQuery", "countForPagination"]

  /** `implode('.', $subkey)` for an array subkey. */
  function SubkeyText(sub: Subkey): string {
    match sub
    case Plain(s) => s
    case Parts(ps) => Join(ps, ".")
  }

  /** The keys `forgetCache` walks: the defaults for null, a string as a
      one-element list, a list as given. */
  function KeyNames(keys: Keys): (ks: seq<string>)
    ensures keys.DefaultKeys? ==> ks == DefaultKeyList
    ensures keys.KeyString? ==> ks == [keys.key]
    ensures keys.KeyList? ==> ks == keys.keys
  {
    match keys
    case DefaultKeys => DefaultKeyList
    case KeyString(k) => [k]
    case KeyList(ks) => ks
  }

  /** `cache($key, $subkey, $toRemember)`: read `(key, subkey)` under the
      configured prefix, first storing `toRemember` there when it is set. */
  function Cache<V>(s: Store<V>, prefix: string, key: string, sub: Subkey, toRemember: Option<V>)
    : (r: (Store<V>, Read<V>))
    ensures toRemember.None? ==> r.0 == s
    ensures toRemember.None? ==>
      (r.1.Hit? <==> prefix + "." + key in s && SubkeyText(sub) in s[prefix + "." + key])
    ensures toRemember.None? ==> r.1 == Lookup(s, prefix + "." + key, SubkeyText(sub))
    ensures toRemember.Some? ==> r.1 == Hit(toRemember.value)
    ensures toRemember.Some? ==> Lookup(r.0, prefix + "." + key, SubkeyText(sub)) == r.1
    ensures r.0.Keys == if toRemember.Some? then s.Keys + {prefix + "." + key} else s.Keys
    ensures forall k' | k' in s && k' != prefix + "." + key :: k' in r.0 && r.0[k'] == s[k']
    ensures forall other | SubkeyText(other) != SubkeyText(sub) ::
      Lookup(r.0, prefix + "." + key, SubkeyText(other)) == Lookup(s, prefix + "." + key, SubkeyText(other))
  {
    Remember(s, StoreKey(prefix, key), SubkeyText(sub), toRemember)
  }

  /** After storing a value, reading the same key and subkey returns it. */
  lemma CacheThenRead<V>(s: Store<V>, prefix: string, key: string, sub: Subkey, v: V)
    ensures var (t, _) := Cache(s, prefix, key, sub, Some(v));
      Cache(t, prefix, key, sub, None) == (t, Hit(v))
  {
  }

  /** An array subkey and its dot-joined string address the same entry. */
  lemma PartsAddressJoined<V>(s: Store<V>, prefix: string, key: string, a: string, b: string, toRemember: Option<V>)
    ensures Cache(s, prefix, key, Parts([a, b]), toRemember) == Cache(s, prefix, key, Plain(a + "." + b), toRemember)
  {
    JoinPair(a, b, ".");
  }

  /** Storing under one key leaves every other key of the same prefix as it was. */
  lemma CacheOtherKey<V>(s: Store<V>, prefix: string, key: string, other: string, sub: Subkey, toRemember: Option<V>,
                         sub2: string)
    requires other != key
    ensures Lookup(Cache(s, prefix, key, sub, toRemember).0, StoreKey(prefix, other), sub2)
         == Lookup(s, StoreKey(prefix, other), sub2)
  {
    StoreKeyInjective(prefix, key, other);
  }

  /** `forgetCache($keys, $subkey)`: without a subkey every named key is
      forgotten whole; with one, each named key keeps only the entries whose
      subkey does not start with it. */
  function ForgetCache<V>(s: Store<V>, prefix: string, keys: Keys, sub: Option<Subkey>): (r: Store<V>)
    ensures forall key | key in KeyNames(keys) ::
      sub.None? ==> prefix + "." + key !in r
    ensures forall key | key in KeyNames(keys) ::
      sub.Some? ==>
        && prefix + "." + key in r
        && (forall i :: Lookup(r, prefix + "." + key, i) ==
              if StartsWith(i, SubkeyText(sub.value)) then Miss else Lookup(s, prefix + "." + key, i))
    ensures forall k | k in s && (forall key | key in KeyNames(keys) :: k != prefix + "." + key) ::
      k in r && r[k] == s[k]
    ensures r.Keys == if sub.None? then s.Keys - (set key | key in KeyNames(keys) :: prefix + "." + key)
                      else s.Keys + (set key | key in KeyNames(keys) :: prefix + "." + key)
  {
    var ks := StoreKeys(prefix, KeyNames(keys));
    match sub
    case None => ForgetKeys(s, ks)
    case Some(subkey) => ForgetPrefix(s, ks, SubkeyText(subkey))
  }

  /** The store key of each named key, in order. */
  function StoreKeys(prefix: string, names: seq<string>): (ks: seq<string>)
    ensures |ks| == |names|
    ensures forall i | 0 <= i < |names| :: ks[i] == prefix + "." + names[i]
    ensures forall key | key in names :: prefix + "." + key in ks
    ensures forall k | k in ks :: exists key | key in names :: k == prefix + "." + key
    ensures (set k | k in ks) == (set key | key in names :: prefix + "." + key)
  {
    var ks := seq(|names|, i requires 0 <= i < |names| => StoreKey(prefix, names[i]));
    assert forall key | key in names :: prefix + "." + key in ks by {
      forall key | key in names ensures prefix + "." + key in ks {
        var i :| 0 <= i < |names| && names[i] == key;
        assert ks[i] == prefix + "." + key;
      }
    }
    ks
  }

  /** With no keys named, exactly the three default keys go. */
  lemma ForgetDefaults<V>(s: Store<V>, prefix: string, k: string)
    requires k in s
    ensures k in ForgetCache(s, prefix, DefaultKeys, None) <==>
      k !in {StoreKey(prefix, "facetRows"), StoreKey(prefix, "idsInFilteredQuery"), StoreKey(prefix, "countForPagination")}
  {
    var names := KeyNames(DefaultKeys);
    assert names[0] == "facetRows" && names[1] == "idsInFilteredQuery" && names[2] == "countForPagination";
    assert forall key | key in names :: key == names[0] || key == names[1] || key == names[2];
  }

  /** A string key is forgotten like the one-element list holding it. */
  lemma ForgetStringAsList<V>(s: Store<V>, prefix: string, key: string, sub: Option<Subkey>)
    ensures ForgetCache(s, prefix, KeyString(key), sub) == ForgetCache(s, prefix, KeyList([key]), sub)
  {
  }
}
