/** What both cache classes share: a cache store holding, under each store
    key, an array from subkey to value, read and written as a whole. The
    store is a plain map; expiry is not modelled. */
module KeyedStore {
  import opened Common

  /** Store key => (subkey => value). A stored value is never null. */
  type Store<V> = map<string, map<string, V>>

  /** What `cache()` returns: the value, or `false` when the subkey is not set. */
  datatype Read<V> = Hit(value: V) | Miss

  /** The store key for one cache key: the configured prefix, a dot, the key. */
  function StoreKey(prefix: string, key: string): (k: string)
    ensures k == prefix + "." + key
  {
    JoinPair(prefix, key, ".");
    Join([prefix, key], ".")
  }

  /** Different keys under one prefix never share a store key. */
  lemma StoreKeyInjective(prefix: string, a: string, b: string)
    ensures StoreKey(prefix, a) == StoreKey(prefix, b) <==> a == b
  {
    if StoreKey(prefix, a) == StoreKey(prefix, b) {
      assert a == StoreKey(prefix, a)[|prefix| + 1..];
      assert b == StoreKey(prefix, b)[|prefix| + 1..];
    }
  }

  /** `$this->cache->get($cacheKey) ?? []`. */
  function Entries<V>(s: Store<V>, k: string): map<string, V> {
    if k in s then s[k] else map[]
  }

  /** The value under `(k, sub)`, as `isset($arr[$subkey])` finds it. */
  function Lookup<V>(s: Store<V>, k: string, sub: string): (r: Read<V>)
    ensures r.Hit? <==> k in s && sub in s[k]
    ensures r.Hit? ==> r.value == s[k][sub]
  {
    var arr := Entries(s, k);
    if sub in arr then Hit(arr[sub]) else Miss
  }

  /** The body of `cache()`: read the array under `k`; with a value to
      remember, set `sub` in it and put the array back; answer what the
      array now holds under `sub`. */
  function Remember<V>(s: Store<V>, k: string, sub: string, toRemember: Option<V>): (r: (Store<V>, Read<V>))
    ensures toRemember.None? ==> r.0 == s && r.1 == Lookup(s, k, sub)
    ensures toRemember.Some? ==> r.1 == Hit(toRemember.value) && Lookup(r.0, k, sub) == r.1
    ensures r.0.Keys == if toRemember.Some? then s.Keys + {k} else s.Keys
    ensures forall k' | k' in s && k' != k :: r.0[k'] == s[k']
    ensures forall sub' | sub' != sub :: Lookup(r.0, k, sub') == Lookup(s, k, sub')
  {
    match toRemember
    case None => (s, Lookup(s, k, sub))
    case Some(v) =>
      var arr := Entries(s, k)[sub := v];
      (s[k := arr], Hit(v))
  }

  /** Forgetting whole store keys, one after the other. */
  function ForgetKeys<V>(s: Store<V>, ks: seq<string>): (r: Store<V>)
    ensures r.Keys == s.Keys - (set k | k in ks)
    ensures forall k | k in r :: r[k] == s[k]
  {
    if |ks| == 0 then s
    else ForgetKeys(s - {ks[0]}, ks[1..])
  }

  /** The array under `k` without the subkeys that start with `prefix`. */
  function WithoutPrefix<V>(arr: map<string, V>, prefix: string): (r: map<string, V>)
    ensures forall i :: i in r <==> i in arr && !StartsWith(i, prefix)
    ensures forall i | i in r :: r[i] == arr[i]
  {
    map i | i in arr && !StartsWith(i, prefix) :: arr[i]
  }

  /** Forgetting by subkey prefix under each store key in turn; the pruned
      array is put back even when the key held nothing. */
  function ForgetPrefix<V>(s: Store<V>, ks: seq<string>, prefix: string): (r: Store<V>)
    ensures r.Keys == s.Keys + (set k | k in ks)
    ensures forall k | k in r && k !in ks :: r[k] == s[k]
    ensures forall k | k in ks :: r[k] == WithoutPrefix(Entries(s, k), prefix)
    decreases |ks|
  {
    if |ks| == 0 then s
    else
      var t := s[ks[0] := WithoutPrefix(Entries(s, ks[0]), prefix)];
      var r := ForgetPrefix(t, ks[1..], prefix);
      PrunedEverywhere(s, t, r, ks, prefix);
      r
  }

  /** One step of `ForgetPrefix`: pruning the first key, then the rest,
      adds the first key and leaves every listed key pruned once. */
  lemma PrunedEverywhere<V>(s: Store<V>, t: Store<V>, r: Store<V>, ks: seq<string>, prefix: string)
    requires |ks| > 0 && t == s[ks[0] := WithoutPrefix(Entries(s, ks[0]), prefix)]
    requires r.Keys == t.Keys + (set k | k in ks[1..])
    requires forall k | k in r && k !in ks[1..] :: r[k] == t[k]
    requires forall k | k in ks[1..] :: r[k] == WithoutPrefix(Entries(t, k), prefix)
    ensures r.Keys == s.Keys + (set k | k in ks)
    ensures forall k | k in r && k !in ks :: r[k] == s[k]
    ensures forall k | k in ks :: r[k] == WithoutPrefix(Entries(s, k), prefix)
  {
    assert (set k | k in ks) == {ks[0]} + (set k | k in ks[1..]);
    forall k | k in ks ensures r[k] == WithoutPrefix(Entries(s, k), prefix) {
      if k in ks[1..] {
        PrunedLater(s, t, ks[0], k, prefix);
      } else {
        assert k == ks[0];
      }
    }
  }

  /** A key pruned again later is pruned no further. */
  lemma PrunedLater<V>(s: Store<V>, t: Store<V>, k0: string, k: string, prefix: string)
    requires t == s[k0 := WithoutPrefix(Entries(s, k0), prefix)]
    ensures WithoutPrefix(Entries(t, k), prefix) == WithoutPrefix(Entries(s, k), prefix)
  {
    if k == k0 {
      WithoutPrefixTwice(Entries(s, k), prefix);
    } else {
      assert Entries(t, k) == Entries(s, k);
    }
  }

  /** Pruning twice by the same prefix prunes nothing more. */
  lemma WithoutPrefixTwice<V>(arr: map<string, V>, prefix: string)
    ensures WithoutPrefix(WithoutPrefix(arr, prefix), prefix) == WithoutPrefix(arr, prefix)
  {
  }
}
