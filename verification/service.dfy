/** `ItemService`: item reads and writes over the store, with the "items"
    cache kept in front of it. Spring's declarative caching becomes explicit
    cache calls: `@Cacheable` reads the cache first and fills it on a miss,
    `@CachePut` writes the returned item through, and `@CacheEvict` removes
    the entry once the method returns. Each operation is a transition on
    the pair (store, cache). The only failure modelled is `ItemNotFound`,
    and every operation raises it before any save or cache write, so an
    operation that throws leaves both as they were. */
module Service {
  import opened Results
  import opened Domain
  import Mapper
  import ItemCache
  import Repository

  datatype State = State(store: Repository.Store, cache: ItemCache.Cache)

  /** The state after an operation and what the operation returned or threw. */
  datatype Step<T> = Step(state: State, result: Result<T, ItemError>)

  function DigitChar(d: nat): (c: char)
    requires d < 10
    ensures '0' <= c <= '9' && DigitValue(c) == d
  {
    ('0' as int + d) as char
  }

  function DigitValue(c: char): int {
    c as int - '0' as int
  }

  predicate IsDigit(c: char) {
    '0' <= c <= '9'
  }

  /** A numeral `%d` prints for a non-negative value: one or more digits,
      with no leading zero unless the numeral is "0" itself. */
  predicate CanonicalNat(s: string) {
    && |s| >= 1
    && (forall i :: 0 <= i < |s| ==> IsDigit(s[i]))
    && (|s| > 1 ==> s[0] != '0')
  }

  /** A numeral `%d` prints for any value: a canonical non-negative numeral,
      or a minus sign before a canonical numeral other than "0". */
  predicate CanonicalInt(s: string) {
    || CanonicalNat(s)
    || (|s| >= 2 && s[0] == '-' && s[1] != '0' && CanonicalNat(s[1..]))
  }

  /** The decimal digits of `n`, as `%d` formats it. */
  function NatToDecimal(n: nat): (r: string)
    ensures CanonicalNat(r)
    ensures r[0] == '0' <==> n == 0
    ensures |r| == 1 <==> n < 10
  {
    if n < 10 then [DigitChar(n)] else NatToDecimal(n / 10) + [DigitChar(n % 10)]
  }

  /** `%d` of a `long`: a minus sign before the digits of a negative value. */
  function IntToDecimal(i: int): (r: string)
    ensures CanonicalInt(r)
    ensures i >= 0 <==> CanonicalNat(r)
    ensures i < 0 <==> r[0] == '-'
  {
    if i < 0 then "-" + NatToDecimal(-i) else NatToDecimal(i)
  }

  /** The value of a string of decimal digits. */
  function ParseNat(s: string): (r: int)
    ensures (forall i :: 0 <= i < |s| ==> IsDigit(s[i])) ==> r >= 0
  {
    if s == [] then 0 else ParseNat(s[..|s| - 1]) * 10 + DigitValue(s[|s| - 1])
  }

  /** The value of an optionally signed decimal numeral. */
  function ParseInt(s: string): int {
    if |s| > 0 && s[0] == '-' then -ParseNat(s[1..]) else ParseNat(s)
  }

  /** Reading the digits back gives the number formatted. */
  lemma {:induction false} NatToDecimalRoundTrip(n: nat)
    ensures ParseNat(NatToDecimal(n)) == n
  {
    if n >= 10 {
      var prefix := NatToDecimal(n / 10);
      var r := prefix + [DigitChar(n % 10)];
      assert r[..|r| - 1] == prefix;
      NatToDecimalRoundTrip(n / 10);
    }
  }

  lemma IntToDecimalRoundTrip(i: int)
    ensures ParseInt(IntToDecimal(i)) == i
  {
    NatToDecimalRoundTrip(if i < 0 then -i else i);
    if i < 0 {
      assert IntToDecimal(i)[1..] == NatToDecimal(-i);
    }
  }

  /** Every canonical numeral is the rendering of the value it denotes, so
      with the round trip above `NatToDecimal` is a bijection between the
      naturals and the canonical numerals. */
  lemma {:induction false} CanonicalNatIsRendering(s: string)
    requires CanonicalNat(s)
    ensures ParseNat(s) >= 0 && NatToDecimal(ParseNat(s)) == s
  {
    var last := s[|s| - 1];
    var d := DigitValue(last);
    assert IsDigit(last);
    if |s| == 1 {
      assert s == [s[0]];
      assert ParseNat(s[..0]) == 0;
      assert DigitChar(d) == last;
    } else {
      var p := s[..|s| - 1];
      assert p[0] == s[0];
      assert forall i :: 0 <= i < |p| ==> IsDigit(p[i]) by {
        forall i | 0 <= i < |p| ensures IsDigit(p[i]) { assert p[i] == s[i]; }
      }
      CanonicalNatIsRendering(p);
      var m := ParseNat(p);
      assert m != 0;
      var n := m * 10 + d;
      assert ParseNat(s) == n;
      assert n / 10 == m && n % 10 == d;
      assert DigitChar(d) == last;
      assert s == p + [last];
    }
  }

  lemma CanonicalIntIsRendering(s: string)
    requires CanonicalInt(s)
    ensures IntToDecimal(ParseInt(s)) == s
  {
    if CanonicalNat(s) {
      assert s[0] != '-';
      CanonicalNatIsRendering(s);
    } else {
      var t := s[1..];
      CanonicalNatIsRendering(t);
      assert ParseNat(t) != 0;
      assert s == "-" + t;
    }
  }

  const NotFoundPrefix: string := "Item with id "
  const NotFoundSuffix: string := " not found"

  /** The exception every lookup of a missing id throws. Its message is the
      fixed prefix, the id as `%d` prints it, and the fixed suffix: the
      middle is a canonical numeral that reads back as the id. */
  function NotFound(id: Id): (e: ItemError)
    ensures e.ItemNotFound?
    ensures |e.message| > |NotFoundPrefix| + |NotFoundSuffix|
    ensures e.message[..|NotFoundPrefix|] == NotFoundPrefix
    ensures e.message[|e.message| - |NotFoundSuffix|..] == NotFoundSuffix
    ensures CanonicalInt(e.message[|NotFoundPrefix|..|e.message| - |NotFoundSuffix|])
    ensures ParseInt(e.message[|NotFoundPrefix|..|e.message| - |NotFoundSuffix|]) == id
  {
    var digits := IntToDecimal(id);
    var message := NotFoundPrefix + digits + NotFoundSuffix;
    assert message[..|NotFoundPrefix|] == NotFoundPrefix;
    assert message[|message| - |NotFoundSuffix|..] == NotFoundSuffix;
    assert message[|NotFoundPrefix|..|message| - |NotFoundSuffix|] == digits;
    IntToDecimalRoundTrip(id);
    ItemNotFound(message)
  }

  /** The not-found message is the only text of its shape for its id: any
      message made of the prefix, a canonical numeral denoting `id`, and the
      suffix is exactly the one `NotFound` builds. */
  lemma NotFoundMessageIsUnique(id: Id, numeral: string)
    requires CanonicalInt(numeral) && ParseInt(numeral) == id
    ensures NotFound(id).message == NotFoundPrefix + numeral + NotFoundSuffix
  {
    CanonicalIntIsRendering(numeral);
  }

  /** `getAllItems`: the stored items with the given status, or every stored
      item when the status is null, keyed by id. The cache is neither read
      nor written. */
  function GetAllItems(s: State, status: Option<ItemStatus>): (r: Repository.Store)
    ensures forall k :: k in r <==> k in s.store && (status.None? || s.store[k].status == status.value)
    ensures forall k :: k in r ==> r[k] == s.store[k]
  {
    if status.Some? then Repository.FindAll(s.store, status) else Repository.FindAll(s.store, None)
  }

  /** `get` (`@Cacheable`, key `id`). An unexpired cache entry is returned
      without touching the store. On a miss the stored item is copied field
      by field, cached under `id` and returned; the copy equals the stored
      item. A miss on an id the store lacks throws and caches nothing. */
  function Get(s: State, ttl: int, id: Id, now: Time): (r: Step<Item>)
    ensures ItemCache.Lookup(s.cache, ttl, id, now).Some? ==>
              r == Step(s, Ok(ItemCache.Lookup(s.cache, ttl, id, now).value))
    ensures ItemCache.Lookup(s.cache, ttl, id, now).None? && id in s.store ==>
              && r.result == Ok(s.store[id])
              && r.state == s.(cache := ItemCache.Put(s.cache, id, s.store[id], now))
    ensures ItemCache.Lookup(s.cache, ttl, id, now).None? && id !in s.store ==>
              r == Step(s, Err(NotFound(id)))
    ensures r.state.store == s.store
    ensures r.state.cache - {id} == s.cache - {id}
  {
    match ItemCache.Lookup(s.cache, ttl, id, now)
    case Some(cached) => Step(s, Ok(cached))
    case None =>
      match Repository.FindById(s.store, id)
      case None => Step(s, Err(NotFound(id)))
      case Some(item) =>
        var copy := Item(item.id, item.status, item.name, item.summary,
                         item.createdAt, item.lastModifiedAt, item.discontinuedAt);
        Step(s.(cache := ItemCache.Put(s.cache, id, copy, now)), Ok(copy))
  }

  /** `update` (`@Transactional`, `@CachePut` keyed by the result's id). The
      item found under `id` is rebuilt from the request and saved twice; the
      result is written through to the cache. A missing id throws, saves
      nothing and leaves the cache alone. */
  function Update(s: State, id: Id, dto: ItemDto, now: Time): (r: Step<Item>)
    requires Repository.KeyedById(s.store)
    ensures id !in s.store ==> r == Step(s, Err(NotFound(id)))
    ensures id in s.store ==>
              var updated := Mapper.ToUpdateItem(dto, s.store[id], now);
              && r.result == Ok(updated)
              && r.state.store == s.store[id := updated]
              && r.state.cache == ItemCache.Put(s.cache, id, updated, now)
  {
    match Repository.FindById(s.store, id)
    case None => Step(s, Err(NotFound(id)))
    case Some(previous) =>
      var first := Repository.SaveExisting(s.store, Mapper.ToUpdateItem(dto, previous, now));
      var second := Repository.SaveExisting(first.store, first.item);
      var saved := second.item;
      Step(State(second.store, ItemCache.Put(s.cache, saved.id.value, saved, now)), Ok(saved))
  }

  /** `updateItemStatus`: as `update`, with the item rebuilt by the status mapper. */
  function UpdateItemStatus(s: State, id: Id, status: ItemStatus, now: Time): (r: Step<Item>)
    requires Repository.KeyedById(s.store)
    ensures id !in s.store ==> r == Step(s, Err(NotFound(id)))
    ensures id in s.store ==>
              var updated := Mapper.ToUpdateItemStatus(s.store[id], status, now);
              && r.result == Ok(updated)
              && r.state.store == s.store[id := updated]
              && r.state.cache == ItemCache.Put(s.cache, id, updated, now)
  {
    match Repository.FindById(s.store, id)
    case None => Step(s, Err(NotFound(id)))
    case Some(previous) =>
      var first := Repository.SaveExisting(s.store, Mapper.ToUpdateItemStatus(previous, status, now));
      var second := Repository.SaveExisting(first.store, first.item);
      var saved := second.item;
      Step(State(second.store, ItemCache.Put(s.cache, saved.id.value, saved, now)), Ok(saved))
  }

  /** `delete` (`@Transactional`, `@CacheEvict` keyed by `id`). A missing id
      is not an error and the store is not touched; the cache entry is
      evicted either way. */
  function Delete(s: State, id: Id): (r: State)
    ensures id !in r.store && id !in r.cache
    ensures id !in s.store ==> r.store == s.store
    ensures r.store - {id} == s.store - {id}
    ensures r.cache - {id} == s.cache - {id}
  {
    var store := if !Repository.ExistsById(s.store, id) then s.store else Repository.DeleteById(s.store, id);
    State(store, ItemCache.Evict(s.cache, id))
  }

  /** `createItem` (`@CachePut` keyed by the result's id): the new item is
      saved, receiving `newId` from the store's id generator, and the saved
      item is written through to the cache. */
  function CreateItem(s: State, dto: ItemDto, newId: Id, now: Time): (r: Step<Item>)
    requires newId !in s.store
    ensures r.result == Ok(Mapper.ToNewItem(dto, now).(id := Some(newId)))
    ensures r.state.store == s.store[newId := r.result.value]
    ensures r.state.cache == ItemCache.Put(s.cache, newId, r.result.value, now)
  {
    var saved := Repository.SaveNew(s.store, Mapper.ToNewItem(dto, now), newId);
    Step(State(saved.store, ItemCache.Put(s.cache, saved.item.id.value, saved.item, now)), Ok(saved.item))
  }

  /** Every cache entry, expired or not, holds the item the store holds
      under the same id: the cache never serves a stale or deleted item. */
  ghost predicate Coherent(s: State) {
    forall k :: k in s.cache ==> k in s.store && s.cache[k].item == s.store[k]
  }

  /** The state invariant: the store keeps each item under its own id, the
      cache agrees with the store, and every stored item is well stamped. */
  ghost predicate Valid(s: State) {
    && Repository.KeyedById(s.store)
    && Coherent(s)
    && (forall k :: k in s.store ==> Mapper.WellStamped(s.store[k]))
  }

  /** No stored item was created after `now`. */
  ghost predicate ClockNotBehind(s: State, now: Time) {
    forall k :: k in s.store ==> s.store[k].createdAt <= now
  }

  /** With a coherent cache, `get` answers what the store holds, hit or miss,
      and throws exactly when the store lacks the id. */
  lemma GetReadsThrough(s: State, ttl: int, id: Id, now: Time)
    requires Coherent(s)
    ensures Get(s, ttl, id, now).result == if id in s.store then Ok(s.store[id]) else Err(NotFound(id))
    ensures Coherent(Get(s, ttl, id, now).state)
  {
  }

  /** Without coherence a hit is answered from the cache alone: a cached
      entry for an id the store no longer holds is still returned. */
  lemma CacheHitIgnoresStore(s: State, ttl: int, id: Id, item: Item, now: Time)
    requires id !in s.store
    requires id in s.cache && s.cache[id] == ItemCache.Entry(item, now)
    ensures Get(s, ttl, id, now).result == Ok(item)
    ensures !Coherent(s)
  {
  }

  /** Deleting twice is deleting once. */
  lemma DeleteIdempotent(s: State, id: Id)
    ensures Delete(Delete(s, id), id) == Delete(s, id)
  {
  }

  /** After a delete, `get` on a coherent state throws for the deleted id. */
  lemma DeleteThenGet(s: State, ttl: int, id: Id, now: Time)
    requires Coherent(s)
    ensures Get(Delete(s, id), ttl, id, now) == Step(Delete(s, id), Err(NotFound(id)))
  {
  }

  /** The message `get` throws for id 1. */
  lemma NotFoundMessageExample()
    ensures NotFound(1) == ItemNotFound("Item with id 1 not found")
  {
  }

  /** A request to the service; `Create` carries the id the store's
      generator hands out. */
  datatype Request =
    | GetAll(filter: Option<ItemStatus>)
    | GetOne(id: Id)
    | Replace(id: Id, dto: ItemDto)
    | SetStatus(id: Id, status: ItemStatus)
    | Remove(id: Id)
    | Create(dto: ItemDto, newId: Id)

  /** What a request returns when it completes. */
  datatype Reply = Listed(items: Repository.Store) | Single(item: Item) | Done

  /** Whether the store's id generator can serve the request: a new id is
      never one already in use. */
  predicate Admissible(s: State, request: Request) {
    request.Create? ==> request.newId !in s.store
  }

  function AsSingle(step: Step<Item>): Step<Reply> {
    match step.result
    case Ok(item) => Step(step.state, Ok(Single(item)))
    case Err(e) => Step(step.state, Err(e))
  }

  /** Serves one request at time `now` under cache TTL `ttl`. */
  function Apply(s: State, ttl: int, request: Request, now: Time): (r: Step<Reply>)
    requires Repository.KeyedById(s.store) && Admissible(s, request)
    ensures r.result.Err? ==> r.state == s
  {
    match request
    case GetAll(filter) => Step(s, Ok(Listed(GetAllItems(s, filter))))
    case GetOne(id) => AsSingle(Get(s, ttl, id, now))
    case Replace(id, dto) => AsSingle(Update(s, id, dto, now))
    case SetStatus(id, status) => AsSingle(UpdateItemStatus(s, id, status, now))
    case Remove(id) => Step(Delete(s, id), Ok(Done))
    case Create(dto, newId) => AsSingle(CreateItem(s, dto, newId, now))
  }

  /** A successful write stamps the written item at `now`, keeps it under its
      own id, and writes it through to the cache. */
  lemma WrittenItemIsStampedAndCached(s: State, item: Item, id: Id, now: Time)
    requires Valid(s) && ClockNotBehind(s, now)
    requires Mapper.WellStamped(item) && item.id == Some(id) && item.createdAt <= now
    ensures Valid(State(s.store[id := item], ItemCache.Put(s.cache, id, item, now)))
    ensures ClockNotBehind(State(s.store[id := item], ItemCache.Put(s.cache, id, item, now)), now)
  {
  }

  /** Every request served on a valid state, at a time no earlier than any
      stored creation time, leaves a valid state with the same property. */
  lemma ApplyPreservesValid(s: State, ttl: int, request: Request, now: Time)
    requires Valid(s) && ClockNotBehind(s, now) && Admissible(s, request)
    ensures Valid(Apply(s, ttl, request, now).state)
    ensures ClockNotBehind(Apply(s, ttl, request, now).state, now)
  {
    match request
    case GetAll(_) =>
    case GetOne(id) =>
      if ItemCache.Lookup(s.cache, ttl, id, now).None? && id in s.store {
        WrittenItemIsStampedAndCached(s, s.store[id], id, now);
        assert s.store[id := s.store[id]] == s.store;
      }
    case Replace(id, dto) =>
      if id in s.store {
        WrittenItemIsStampedAndCached(s, Mapper.ToUpdateItem(dto, s.store[id], now), id, now);
      }
    case SetStatus(id, status) =>
      if id in s.store {
        WrittenItemIsStampedAndCached(s, Mapper.ToUpdateItemStatus(s.store[id], status, now), id, now);
      }
    case Remove(id) =>
    case Create(dto, newId) =>
      WrittenItemIsStampedAndCached(s, Mapper.ToNewItem(dto, now).(id := Some(newId)), newId, now);
  }

  /** A request stamped with the time it is served. */
  datatype Event = Event(request: Request, at: Time)

  /** A trace that can meet `s`: its first request comes at a time no
      earlier than any stored creation time. */
  ghost predicate StartsInTime(s: State, trace: seq<Event>) {
    trace != [] ==> ClockNotBehind(s, trace[0].at)
  }

  /** Whether a trace can be served from `s`: the clock never runs
      backwards, and every request is admissible in the state it meets. */
  ghost predicate Servable(s: State, ttl: int, trace: seq<Event>)
    requires Valid(s) && StartsInTime(s, trace)
    decreases |trace|
  {
    trace == [] ||
    (&& Admissible(s, trace[0].request)
     && (|trace| > 1 ==> trace[0].at <= trace[1].at)
     && (ApplyPreservesValid(s, ttl, trace[0].request, trace[0].at);
         Servable(Apply(s, ttl, trace[0].request, trace[0].at).state, ttl, trace[1..])))
  }

  /** The state after serving a servable trace in order. */
  ghost function Run(s: State, ttl: int, trace: seq<Event>): State
    requires Valid(s) && StartsInTime(s, trace) && Servable(s, ttl, trace)
    decreases |trace|
  {
    if trace == [] then s
    else
      ApplyPreservesValid(s, ttl, trace[0].request, trace[0].at);
      Run(Apply(s, ttl, trace[0].request, trace[0].at).state, ttl, trace[1..])
  }

  /** The invariant holds after any servable trace from a valid state, and
      every request of it is served with the clock not behind the state. */
  lemma {:induction false} RunPreservesValid(s: State, ttl: int, trace: seq<Event>)
    requires Valid(s) && StartsInTime(s, trace) && Servable(s, ttl, trace)
    ensures Valid(Run(s, ttl, trace))
    ensures trace != [] ==> ClockNotBehind(Run(s, ttl, trace), trace[|trace| - 1].at)
    decreases |trace|
  {
    if trace != [] {
      ApplyPreservesValid(s, ttl, trace[0].request, trace[0].at);
      RunPreservesValid(Apply(s, ttl, trace[0].request, trace[0].at).state, ttl, trace[1..]);
      if |trace| > 1 {
        assert trace[1..][|trace[1..]| - 1] == trace[|trace| - 1];
      }
    }
  }
}
