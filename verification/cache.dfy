/**
 * The persistent key/value cache as the fetchers and `clearCache` use it: a
 * map from keys to serialised entries, time-stamped and checked against a
 * time-to-live on every read.
 */
module Cache {
  import opened Wrappers
  import opened Text

  /** The cache's contents: key to stored text. */
  type Store = map<string, string>

  const ListKey := "linux-commands-list"
  const DetailKeyPrefix := "linux-command-detail"

  /** Seven days and thirty days, in milliseconds. */
  const ListTtl := 7 * 24 * 60 * 60 * 1000
  const DetailTtl := 30 * 24 * 60 * 60 * 1000

  /** What is stored under a key: the data and the clock reading when it was written. */
  datatype CacheEntry<T> = CacheEntry(data: T, timestamp: int)

  /**
   * Serialisation of entries: `encode` stands for `JSON.stringify`, `decode`
   * for `JSON.parse` with the destructuring that follows it; `None` is any
   * text the reader rejects.
   */
  datatype Codec<!T> = Codec(encode: CacheEntry<T> -> string, decode: string -> Option<CacheEntry<T>>)

  /** The codec reads back every entry it writes, and never writes the empty text. */
  ghost predicate Faithful<T(!new)>(codec: Codec<T>) {
    forall e :: codec.encode(e) != "" && codec.decode(codec.encode(e)) == Some(e)
  }

  /** The key of one command's reference page. */
  function DetailKey(name: string): (key: string)
    ensures StartsWith(key, DetailKeyPrefix)
    ensures key[|DetailKeyPrefix|..] == "-" + name
  {
    var key := DetailKeyPrefix + "-" + name;
    assert key[..|DetailKeyPrefix|] == DetailKeyPrefix;
    key
  }

  lemma DetailKeyInjective(a: string, b: string)
    requires DetailKey(a) == DetailKey(b)
    ensures a == b
  {
    assert ("-" + a)[1..] == a && ("-" + b)[1..] == b;
  }

  /** No detail key collides with the list key: every detail key is longer. */
  lemma DetailKeyIsNotListKey(name: string)
    ensures DetailKey(name) != ListKey
  {
  }

  /**
   * A read of `key` at clock reading `now`: absent keys and the empty text
   * are misses, an unreadable entry is a miss, and a readable one is a hit
   * exactly while its age is below `ttl`.
   */
  function Lookup<T>(store: Store, key: string, now: int, ttl: int, codec: Codec<T>): (r: Option<T>)
    ensures r.Some? <==>
              key in store && store[key] != "" && codec.decode(store[key]).Some?
              && now - codec.decode(store[key]).value.timestamp < ttl
    ensures r.Some? ==> r.value == codec.decode(store[key]).value.data
  {
    if key in store && store[key] != "" then
      match codec.decode(store[key])
      case Some(entry) => if now - entry.timestamp < ttl then Some(entry.data) else None
      case None => None
    else None
  }

  /** The entry written under `key` at `written`, in a store. */
  function Put<T>(store: Store, key: string, codec: Codec<T>, data: T, written: int): (r: Store)
    ensures key in r && r[key] == codec.encode(CacheEntry(data, written))
    ensures forall k :: k != key ==> (k in r <==> k in store) && (k in store ==> r[k] == store[k])
  {
    store[key := codec.encode(CacheEntry(data, written))]
  }

  /** What was written is read back while it is younger than the time-to-live. */
  lemma PutThenLookup<T(!new)>(store: Store, key: string, codec: Codec<T>, data: T, written: int, now: int, ttl: int)
    requires Faithful(codec)
    ensures now - written < ttl ==> Lookup(Put(store, key, codec, data, written), key, now, ttl, codec) == Some(data)
    ensures now - written >= ttl ==> Lookup(Put(store, key, codec, data, written), key, now, ttl, codec) == None
  {
    var e := CacheEntry(data, written);
    assert codec.encode(e) != "" && codec.decode(codec.encode(e)) == Some(e);
  }

  /** Writing one key leaves every read of another key as it was. */
  lemma PutOtherKey<T, U>(store: Store, key: string, codec: Codec<T>, data: T, written: int,
                          other: string, now: int, ttl: int, otherCodec: Codec<U>)
    requires other != key
    ensures Lookup(Put(store, key, codec, data, written), other, now, ttl, otherCodec)
         == Lookup(store, other, now, ttl, otherCodec)
  {
  }

  // ---------------------------------------------------------------------------
  // clearCache.

  /** Deletes each of `names` that starts with the detail prefix. */
  function RemoveDetailKeys(store: Store, names: seq<string>): (r: Store)
    ensures forall k :: k in r <==> k in store && !(k in names && StartsWith(k, DetailKeyPrefix))
    ensures forall k :: k in r ==> r[k] == store[k]
    decreases |names|
  {
    if |names| == 0 then store
    else
      var rest := RemoveDetailKeys(store, names[1..]);
      assert forall k :: k in names <==> k == names[0] || k in names[1..] by {
        assert names == [names[0]] + names[1..];
      }
      if StartsWith(names[0], DetailKeyPrefix) then rest - {names[0]} else rest
  }

  /**
   * `clearCache` as written: the list entry is removed, and then only those
   * detail entries whose keys appear in `enumerated`, the names the code
   * enumerates (the own enumerable property names of the cache object, not
   * the stored keys).
   */
  function ClearCache(store: Store, enumerated: seq<string>): (r: Store)
    ensures ListKey !in r
    ensures forall k :: k in r <==>
              k in store && k != ListKey && !(k in enumerated && StartsWith(k, DetailKeyPrefix))
    ensures forall k :: k in r ==> r[k] == store[k]
  {
    RemoveDetailKeys(store - {ListKey}, enumerated)
  }

  /** What clearing is meant to do: drop the list entry and every detail entry, keep the rest. */
  function ClearAll(store: Store): (r: Store)
    ensures forall k :: k in r <==> k in store && k != ListKey && !StartsWith(k, DetailKeyPrefix)
    ensures forall k :: k in r ==> r[k] == store[k]
  {
    map k | k in store && k != ListKey && !StartsWith(k, DetailKeyPrefix) :: store[k]
  }

  /** When the enumeration does list the stored keys, the code clears what it means to. */
  lemma ClearCacheWithStoredKeys(store: Store, enumerated: seq<string>)
    requires forall k :: k in store ==> k in enumerated
    ensures ClearCache(store, enumerated) == ClearAll(store)
  {
  }

  /** After clearing, nothing the fetchers read is left: every read misses. */
  lemma ClearAllMisses<T, U>(store: Store, name: string, now: int,
                             listCodec: Codec<T>, detailCodec: Codec<U>)
    ensures Lookup(ClearAll(store), ListKey, now, ListTtl, listCodec) == None
    ensures Lookup(ClearAll(store), DetailKey(name), now, DetailTtl, detailCodec) == None
  {
  }

  /**
   * As written, a detail entry survives clearing whenever no enumerated name
   * starts with the detail prefix, and reads exactly as before.
   */
  lemma ClearCacheKeepsDetails<U>(store: Store, enumerated: seq<string>, name: string,
                                  now: int, codec: Codec<U>)
    requires forall i :: 0 <= i < |enumerated| ==> !StartsWith(enumerated[i], DetailKeyPrefix)
    ensures Lookup(ClearCache(store, enumerated), DetailKey(name), now, DetailTtl, codec)
         == Lookup(store, DetailKey(name), now, DetailTtl, codec)
  {
    var key := DetailKey(name);
    DetailKeyIsNotListKey(name);
    assert key in enumerated ==> !StartsWith(key, DetailKeyPrefix);
  }

  /**
   * A concrete case: one fresh page entry for `ls` and an enumeration with no
   * prefixed names. The code leaves the entry readable; the intended clearing
   * removes it.
   */
  lemma ClearCacheCounterexample<U(!new)>(codec: Codec<U>, page: U, now: int)
    requires Faithful(codec)
    ensures var store := Put(map[], DetailKey("ls"), codec, page, now);
            && Lookup(ClearCache(store, []), DetailKey("ls"), now, DetailTtl, codec) == Some(page)
            && Lookup(ClearAll(store), DetailKey("ls"), now, DetailTtl, codec) == None
  {
    var store := Put(map[], DetailKey("ls"), codec, page, now);
    PutThenLookup(map[], DetailKey("ls"), codec, page, now, now, DetailTtl);
    ClearCacheKeepsDetails(store, [], "ls", now, codec);
  }
}
