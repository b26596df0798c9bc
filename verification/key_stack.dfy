/** `KeyStack`: a rotation list of signing keys. New signatures always use
    the first key; a digest is accepted when any key in the list produced it,
    and the search reports the first such key.

    Key import, HMAC signing, base64 encoding and the timing-safe `compare`
    are foreign calls here: they are passed in as functions. `sign` stands for
    `encodeBase64Safe(sign(data, key))`. */
module KeyStacks {
  import opened Results

  datatype KeyStack<K> = KeyStack(keys: seq<K>)

  /** The constructor: the key list must have an entry at index 0. */
  function NewKeyStack<K>(keys: seq<K>): (r: Result<KeyStack<K>>)
    ensures r.Ok? <==> |keys| > 0
    ensures r.Ok? ==> r.value.keys == keys
    ensures r.Err? ==> r.msg == "keys must contain at least one value"
  {
    if |keys| == 0 then Err("keys must contain at least one value")
    else Ok(KeyStack(keys))
  }

  /** `length`: the number of keys the stack was built from. */
  function Length<K>(ks: KeyStack<K>): (n: nat)
    ensures n == |ks.keys|
  {
    |ks.keys|
  }

  /** Every cached crypto key is the import of its key, so a lookup through
      the cache is indistinguishable from a fresh import. */
  ghost predicate CacheSound<K, C>(cache: map<K, C>, importKey: K -> C) {
    forall k :: k in cache ==> cache[k] == importKey(k)
  }

  /** `#toCryptoKey`: import a key at most once, then serve it from the
      cache. */
  function ToCryptoKey<K, C>(cache: map<K, C>, key: K, importKey: K -> C): (r: (map<K, C>, C))
    ensures key in r.0 && r.1 == r.0[key]
    ensures key in cache ==> r.0 == cache && r.1 == cache[key]
    ensures key !in cache ==> r.0 == cache[key := importKey(key)]
    ensures CacheSound(cache, importKey) ==> CacheSound(r.0, importKey) && r.1 == importKey(key)
  {
    if key in cache then (cache, cache[key])
    else (cache[key := importKey(key)], importKey(key))
  }

  /** A second conversion of the same key imports nothing and returns the
      value the first conversion produced. */
  lemma ToCryptoKeyCached<K, C>(cache: map<K, C>, key: K, importKey: K -> C)
    ensures var (c1, v1) := ToCryptoKey(cache, key, importKey);
            var (c2, v2) := ToCryptoKey(c1, key, importKey);
            c2 == c1 && v2 == v1
  {
  }

  /** Whether key `i` signs `data` to something `compare` accepts as `digest`. */
  predicate MatchesAt<K, C, D, G>(ks: KeyStack<K>, i: nat, data: D, digest: G,
                                  importKey: K -> C, sign: (D, C) -> G, compare: (G, G) -> bool)
    requires i < |ks.keys|
  {
    compare(digest, sign(data, importKey(ks.keys[i])))
  }

  /** `sign`: the signature always comes from the key at index 0. */
  method Sign<K, C, D, G>(ks: KeyStack<K>, cache: map<K, C>, data: D,
                          importKey: K -> C, sign: (D, C) -> G)
    returns (digest: G, cache': map<K, C>)
    requires |ks.keys| > 0
    requires CacheSound(cache, importKey)
    ensures digest == sign(data, importKey(ks.keys[0]))
    ensures CacheSound(cache', importKey) && ks.keys[0] in cache'
    ensures cache.Keys <= cache'.Keys <= cache.Keys + {ks.keys[0]}
  {
    var (c, key) := ToCryptoKey(cache, ks.keys[0], importKey);
    cache' := c;
    digest := sign(data, key);
  }

  /** `indexOf`: a first-match linear search over every key. */
  method IndexOf<K, C, D, G>(ks: KeyStack<K>, cache: map<K, C>, data: D, digest: G,
                             importKey: K -> C, sign: (D, C) -> G, compare: (G, G) -> bool)
    returns (r: int, cache': map<K, C>)
    requires CacheSound(cache, importKey)
    ensures -1 <= r < |ks.keys|
    ensures r == -1 <==> forall i :: 0 <= i < |ks.keys| ==> !MatchesAt(ks, i, data, digest, importKey, sign, compare)
    ensures r >= 0 ==> MatchesAt(ks, r, data, digest, importKey, sign, compare)
    ensures r >= 0 ==> forall i :: 0 <= i < r ==> !MatchesAt(ks, i, data, digest, importKey, sign, compare)
    ensures CacheSound(cache', importKey) && cache.Keys <= cache'.Keys
  {
    cache' := cache;
    var i := 0;
    while i < |ks.keys|
      invariant 0 <= i <= |ks.keys|
      invariant forall j :: 0 <= j < i ==> !MatchesAt(ks, j, data, digest, importKey, sign, compare)
      invariant CacheSound(cache', importKey) && cache.Keys <= cache'.Keys
    {
      var (c, key) := ToCryptoKey(cache', ks.keys[i], importKey);
      cache' := c;
      if compare(digest, sign(data, key)) {
        assert MatchesAt(ks, i, data, digest, importKey, sign, compare);
        return i, cache';
      }
      i := i + 1;
    }
    return -1, cache';
  }

  /** `verify`: true exactly when some key matches. */
  method Verify<K, C, D, G>(ks: KeyStack<K>, cache: map<K, C>, data: D, digest: G,
                            importKey: K -> C, sign: (D, C) -> G, compare: (G, G) -> bool)
    returns (ok: bool, cache': map<K, C>)
    requires CacheSound(cache, importKey)
    ensures ok <==> exists i :: 0 <= i < |ks.keys| && MatchesAt(ks, i, data, digest, importKey, sign, compare)
    ensures CacheSound(cache', importKey)
  {
    var idx;
    idx, cache' := IndexOf(ks, cache, data, digest, importKey, sign, compare);
    ok := idx > -1;
  }

  /** With `compare` taken as equality, a digest just produced by `Sign` is
      found at index 0, so it always verifies. */
  method SignThenIndexOf<K, C, D, G(==)>(ks: KeyStack<K>, cache: map<K, C>, data: D,
                                         importKey: K -> C, sign: (D, C) -> G)
    returns (r: int, ok: bool)
    requires |ks.keys| > 0
    requires CacheSound(cache, importKey)
    ensures r == 0 && ok
  {
    var equal := (x: G, y: G) => x == y;
    var digest, c1 := Sign(ks, cache, data, importKey, sign);
    var c2;
    r, c2 := IndexOf(ks, c1, data, digest, importKey, sign, equal);
    ok, c2 := Verify(ks, c1, data, digest, importKey, sign, equal);
    assert MatchesAt(ks, 0, data, digest, importKey, sign, equal);
  }
}
