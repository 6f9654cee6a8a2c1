/** The "items" cache as Spring Data Redis configures it: entries live for a
    configurable number of seconds, null values are never stored, and an
    expired entry reads as absent. Redis expires entries on its own; here an
    expired entry stays in the map and every read treats it as a miss. */
module ItemCache {
  import opened Results
  import opened Domain

  /** The TTL in seconds when `cache.redis.ttl` is not set. */
  const DefaultTtl: int := 600

  /** The TTL in effect for a `cache.redis.ttl` setting, absent or present. */
  function ConfiguredTtl(setting: Option<int>): (ttl: int)
    ensures setting.None? ==> ttl == DefaultTtl
    ensures setting.Some? ==> ttl == setting.value
  {
    match setting
    case None => DefaultTtl
    case Some(seconds) => seconds
  }

  /** An item snapshot and the time it was written. */
  datatype Entry = Entry(item: Item, insertedAt: Time)

  /** Entries by item id. Values are items, never null. */
  type Cache = map<Id, Entry>

  /** An entry is readable until `ttl` seconds after its insertion. A zero or
      negative TTL, as Spring Data Redis reads it, means entries never expire. */
  predicate Live(entry: Entry, ttl: int, now: Time) {
    ttl <= 0 || now < entry.insertedAt + ttl
  }

  /** `Cache.get`: the item under `key` if an unexpired entry holds it. */
  function Lookup(cache: Cache, ttl: int, key: Id, now: Time): (r: Option<Item>)
    ensures key !in cache ==> r == None
    ensures key in cache && ttl <= 0 ==> r == Some(cache[key].item)
    ensures key in cache && ttl > 0 ==>
              (r == Some(cache[key].item) <==> now < cache[key].insertedAt + ttl)
    ensures r.Some? ==> key in cache && r.value == cache[key].item
  {
    if key in cache && Live(cache[key], ttl, now) then Some(cache[key].item) else None
  }

  /** `Cache.put`: stores `item` under `key`, restarting its time to live.
      A read of `key` right after the put returns `item`, and no other key reads differently. */
  function Put(cache: Cache, key: Id, item: Item, now: Time): (r: Cache)
    ensures forall ttl :: Lookup(r, ttl, key, now) == Some(item)
    ensures forall other, ttl, t :: other != key ==> Lookup(r, ttl, other, t) == Lookup(cache, ttl, other, t)
    ensures r.Keys == cache.Keys + {key}
  {
    cache[key := Entry(item, now)]
  }

  /** `Cache.evict`: afterwards `key` reads as a miss at any time and under
      any TTL, every other key reads as before, and an absent key leaves the cache as it was. */
  function Evict(cache: Cache, key: Id): (r: Cache)
    ensures forall ttl, t :: Lookup(r, ttl, key, t) == None
    ensures forall other, ttl, t :: other != key ==> Lookup(r, ttl, other, t) == Lookup(cache, ttl, other, t)
    ensures key !in cache ==> r == cache
    ensures r.Keys == cache.Keys - {key}
  {
    cache - {key}
  }

  /** `Cache.clear`: every key reads as a miss. */
  function Clear(): (r: Cache)
    ensures forall key, ttl, t :: Lookup(r, ttl, key, t) == None
  {
    map[]
  }

  /** A put is readable for exactly its time to live: read back before it
      ends, a miss from its end on. */
  lemma PutThenLookup(cache: Cache, ttl: int, key: Id, item: Item, now: Time, later: Time)
    requires ttl > 0 && now <= later
    ensures later < now + ttl ==> Lookup(Put(cache, key, item, now), ttl, key, later) == Some(item)
    ensures later >= now + ttl ==> Lookup(Put(cache, key, item, now), ttl, key, later) == None
  {
  }

  /** An entry inserted at `t` is a miss at any time from `t + ttl` on. */
  lemma ExpiredIsMiss(cache: Cache, ttl: int, key: Id, now: Time)
    requires key in cache && ttl > 0 && now >= cache[key].insertedAt + ttl
    ensures Lookup(cache, ttl, key, now) == None
  {
  }

  /** Under the default TTL a put is readable for ten minutes. */
  lemma DefaultTtlIsTenMinutes(cache: Cache, key: Id, item: Item, now: Time)
    ensures ConfiguredTtl(None) == 600
    ensures Lookup(Put(cache, key, item, now), ConfiguredTtl(None), key, now + 599) == Some(item)
    ensures Lookup(Put(cache, key, item, now), ConfiguredTtl(None), key, now + 600) == None
  {
  }

  /** Evicting twice is evicting once. */
  lemma EvictIdempotent(cache: Cache, key: Id)
    ensures Evict(Evict(cache, key), key) == Evict(cache, key)
  {
  }

  /** In a cleared cache holding one put, any other key is a miss. */
  lemma OnlyThePutKeyHits(key: Id, other: Id, item: Item, ttl: int, now: Time)
    requires other != key
    ensures Lookup(Put(Clear(), key, item, now), ttl, other, now) == None
  {
  }

  /** Evicting from a cleared cache holding one put removes that item exactly
      when the evicted key is the put key; evicting an absent key is no error. */
  lemma EvictIfPresent(key: Id, evicted: Id, item: Item, ttl: int, now: Time)
    ensures Lookup(Evict(Put(Clear(), key, item, now), evicted), ttl, key, now) == None <==> evicted == key
  {
  }
}
