/**
 * The `Collection` layer of the database: a list of write buffers (only the
 * newest is written) and a cache, each a tombstoned map from strings to
 * strings.  `get` consults the cache alone.
 */
module Collections {
  import T = Tombstones

  type Store = T.TMap<string, string>

  /** `mName`, `mWriteBuffers` (oldest first) and `mCache`. */
  datatype Collection = Collection(name: string, buffers: seq<Store>, cache: Store)

  /** A fresh collection: no write buffer and an empty cache. */
  function NewCollection(name: string): (c: Collection)
    ensures c.name == name && |c.buffers| == 0 && c.cache == map[]
  {
    Collection(name, [], map[])
  }

  /** The two exceptions `get` throws: "Value not found" from the cache, and "Key has been deleted". */
  datatype Error = NotFound | Deleted

  datatype Result<R> = Ok(value: R) | Fail(error: Error)

  /**
   * `set(key, value)`: make a first write buffer when there is none, then
   * store the live pair in the newest buffer and in the cache.  Older
   * buffers do not change.
   */
  function Set(c: Collection, key: string, value: string): (c': Collection)
    ensures c'.name == c.name
    ensures |c'.buffers| == if |c.buffers| == 0 then 1 else |c.buffers|
    ensures c'.buffers[..|c'.buffers| - 1] == c.buffers[..|c'.buffers| - 1]
    ensures var newest := if |c.buffers| == 0 then map[] else c.buffers[|c.buffers| - 1];
      c'.buffers[|c'.buffers| - 1] == newest[key := T.Record(value, false)]
    ensures c'.cache == c.cache[key := T.Record(value, false)]
  {
    var bs := if |c.buffers| == 0 then [map[]] else c.buffers;
    var n := |bs| - 1;
    c.(buffers := bs[n := T.Put(bs[n], key, value, false)], cache := T.Put(c.cache, key, value, false))
  }

  /**
   * `get(key)`: the cached value when it is live; "Key has been deleted"
   * when the cache holds a tombstone; "Value not found" when the cache does
   * not hold the key at all.
   */
  function Get(c: Collection, key: string): (r: Result<string>)
    ensures r.Ok? <==> key in c.cache && !c.cache[key].deleted
    ensures r.Ok? ==> r.value == c.cache[key].value
    ensures r == Fail(Deleted) <==> key in c.cache && c.cache[key].deleted
    ensures r == Fail(NotFound) <==> key !in c.cache
  {
    match T.Get(c.cache, key)
    case None => Fail(NotFound)
    case Some(rec) => if rec.deleted then Fail(Deleted) else Ok(rec.value)
  }

  /**
   * `del(key)`: tombstone the cache entry, if any; then tombstone the entry
   * in the newest buffer, or, when that buffer does not hold the key, store
   * a tombstone with the empty value there.  The source reads the newest
   * buffer with `back()`, so there must be one.
   */
  function Del(c: Collection, key: string): (c': Collection)
    requires |c.buffers| > 0
    ensures c'.name == c.name && |c'.buffers| == |c.buffers|
    ensures var n := |c.buffers| - 1;
      && c'.buffers[..n] == c.buffers[..n]
      && c'.buffers[n] == c.buffers[n][key := T.Record(if key in c.buffers[n] then c.buffers[n][key].value else "", true)]
    ensures key in c.cache ==> c'.cache == c.cache[key := T.Record(c.cache[key].value, true)]
    ensures key !in c.cache ==> c'.cache == c.cache
  {
    var cache := T.Delete(c.cache, key).0;
    var n := |c.buffers| - 1;
    var d := T.Delete(c.buffers[n], key);
    var newest := if d.1 then d.0 else T.Put(c.buffers[n], key, "", true);
    c.(buffers := c.buffers[n := newest], cache := cache)
  }

  /** Reading back a `set`: the value just stored, and every other key as before. */
  lemma {:induction false} GetAfterSet(c: Collection, key: string, value: string, other: string)
    ensures Get(Set(c, key, value), key) == Ok(value)
    ensures other != key ==> Get(Set(c, key, value), other) == Get(c, other)
  {
  }

  /**
   * Reading back a `del`: "Key has been deleted" when the cache held the key,
   * "Value not found" when it did not; every other key as before.
   */
  lemma {:induction false} GetAfterDel(c: Collection, key: string, other: string)
    requires |c.buffers| > 0
    ensures Get(Del(c, key), key) == if key in c.cache then Fail(Deleted) else Fail(NotFound)
    ensures other != key ==> Get(Del(c, key), other) == Get(c, other)
  {
  }

  /** `set` after `del` revives the key: `get` returns the new value. */
  lemma {:induction false} ReviveAfterDel(c: Collection, key: string, value: string)
    requires |c.buffers| > 0
    ensures Get(Del(c, key), key).Fail?
    ensures Get(Set(Del(c, key), key, value), key) == Ok(value)
    ensures Set(Del(c, key), key, value).buffers[|c.buffers| - 1][key] == T.Record(value, false)
  {
  }
}
