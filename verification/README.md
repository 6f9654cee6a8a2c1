# Item cache web service: service core in Dafny

A model of the core of a Spring Boot service that stores catalogue items in a
relational store and keeps a Redis cache named "items" in front of it. An item
has an id, a status (CURRENT or DISCONTINUED), a name, a summary and three
timestamps: `createdAt`, `lastModifiedAt` and `discontinuedAt`, the last of
which may be null.

The model covers these parts:

- `results.dfy`: the `Option` and `Result` types. `None` stands for Java's
  null, and `Err` stands for a thrown exception.
- `domain.dfy`: the `Item` record, `ItemStatus` with its `sortOrder`, the
  request body `ItemDto`, and the two exceptions. It also has the three
  comparators `statusSort`, `itemStatusSort` and `statusCreatedSort`, and the
  sample items of the sorting tests.
- `sorting.dfy`: the stable sort that `Stream.sorted` performs with a
  comparator. It is written as insertion sort. For a stable sort the output
  is determined by the comparator alone, so any stable algorithm gives the
  same sequence.
- `mapper.dfy`: `ItemMapper`, which builds new and updated items and stamps
  their times. The wall clock becomes the parameter `now`.
- `converter.dfy`: `StringToItemStatusConverter`, which turns request text
  into a status. It is case-insensitive and rejects null and blank text.
- `cache.dfy`: the cache policy of `RedisCacheConfig`. The TTL setting
  defaults to 600 seconds and is otherwise taken as configured. Null values
  are never stored, and an expired entry reads as a miss.
- `repository.dfy`: `ItemRepository` as a finite map from id to item. It
  covers `findById`, `existsById`, `deleteById`, `save` (merge or persist) and
  `findAll`/`findAllByStatus`.
- `service.dfy`: `ItemService`. Each operation is a transition on the pair
  (store, cache). The annotations become explicit cache calls:
  - `@Cacheable` reads the cache first and fills it on a miss.
  - `@CachePut` writes the returned item through under its id.
  - `@CacheEvict` removes the entry.
  The only failure the model has is `ItemNotFound`. Every operation raises
  it before any save or cache write. So an operation that throws leaves both
  the store and the cache as they were.

The service invariant `Valid` has three parts:

- the store keeps each item under its own id;
- every cache entry, expired or not, equals the stored item;
- every stored item is well stamped. That means it was not modified before
  it was created, and a set `discontinuedAt` marks a DISCONTINUED item at its
  last modification.

`ApplyPreservesValid` shows that every service operation keeps `Valid`.
`RunPreservesValid` extends this to any trace of requests.

Discontinuing an item that is already DISCONTINUED behaves differently on the
two update paths:

- the full update clears `discontinuedAt`
  (`src/main/java/net/zeotrope/item/mapper/ItemMapper.java:28-29`);
- the status update stamps it again with the current time
  (`src/main/java/net/zeotrope/item/mapper/ItemMapper.java:51`).

`StatusUpdateIsFullUpdateUnlessRediscontinued`, `RediscontinueBothPaths` and
`FullUpdateDiscontinueTwice` state the difference exactly.

## Model

| member | source | states |
|---|---|---|
| Domain.SortOrder | src/main/java/net/zeotrope/item/domain/ItemStatus.java:9-14 | The rank of a status is 0 or 1, and it is 0 exactly for CURRENT. |
| Domain.SortOrderInjective | src/main/java/net/zeotrope/item/domain/ItemStatus.java:9-14 | CURRENT ranks 0 and DISCONTINUED ranks 1. Distinct statuses have distinct ranks. |
| Domain.StatusSort | src/main/java/net/zeotrope/item/domain/ItemStatus.java:16-18 | The comparison is negative exactly when CURRENT is compared with DISCONTINUED. It is zero exactly when the statuses are equal. Its sign agrees with the ranks. |
| Domain.ItemStatusSort | src/main/java/net/zeotrope/item/domain/Item.java:45-46 | Items compare equal exactly when their statuses are equal. A CURRENT item sorts strictly before a DISCONTINUED one. |
| Domain.StatusCreatedSort | src/main/java/net/zeotrope/item/domain/Item.java:47-49 | Items are compared lexicographically, first by status rank and then by creation time. They compare equal exactly when both keys are equal. |
| Domain.ComparatorsArePreorders | src/main/java/net/zeotrope/item/domain/Item.java:45-49 | All three comparators order their values totally and transitively, which is what a stable sort requires. |
| Domain.SortStatuses | src/test/java/net/zeotrope/item/domain/ItemTest.java:16-38 | Sorting statuses gives a permutation of the input in which no CURRENT follows a DISCONTINUED. |
| Domain.SortByStatus | src/test/java/net/zeotrope/item/domain/ItemTest.java:65-88 | Sorting by `itemStatusSort` gives a permutation with all CURRENT items first, and keeps the input order within each status. |
| Domain.SortByStatusThenCreated | src/test/java/net/zeotrope/item/domain/ItemTest.java:40-63 | Sorting by `statusCreatedSort` gives a permutation ordered by status and then by creation time. Items with equal keys keep their input order. |
| Domain.SampleSortedByStatus | src/test/java/net/zeotrope/item/domain/ItemTest.java:72-87 | The five test items sorted by status come out in the order 1234, 1236, 20001, 1235, 1237. |
| Domain.SampleSortedByStatusThenCreated | src/test/java/net/zeotrope/item/domain/ItemTest.java:47-62 | The five test items sorted by status and creation time come out in the order 1234, 20001, 1236, 1237, 1235. |
| Sorting.Sort | src/test/java/net/zeotrope/item/domain/ItemTest.java:34 | Sorting returns a permutation of its input of the same length. |
| Sorting.SortSorted | src/test/java/net/zeotrope/item/domain/ItemTest.java:47 | Under a total-preorder comparator the sorted output is ordered. |
| Sorting.SortStable | src/test/java/net/zeotrope/item/domain/ItemTest.java:72 | Each group of elements with equal keys appears in the output in its input order. |
| Sorting.InsertClass | src/test/java/net/zeotrope/item/domain/ItemTest.java:72 | Inserting `x` into a sorted sequence adds `x` at the front of its own key class. Every other key class is unchanged. |
| Mapper.ToNewItem | src/main/java/net/zeotrope/item/mapper/ItemMapper.java:12-24 | A new item has no id and the request's name, status and description. It is created and modified at `now`, has no `discontinuedAt`, and is well stamped. |
| Mapper.ToUpdateItem | src/main/java/net/zeotrope/item/mapper/ItemMapper.java:26-40 | The id and creation time are kept and the content comes from the request; `lastModifiedAt` is `now`. `discontinuedAt` is set, to `now`, exactly when the item moves into DISCONTINUED from another status. The result is well stamped when the clock is not behind creation. |
| Mapper.ToUpdateItemStatus | src/main/java/net/zeotrope/item/mapper/ItemMapper.java:42-53 | Only the status and the two modification stamps change. `discontinuedAt` is `now` exactly when the new status is DISCONTINUED. The result is well stamped when the clock is not behind creation. |
| Mapper.StatusUpdateIsFullUpdateUnlessRediscontinued | src/main/java/net/zeotrope/item/mapper/ItemMapper.java:26-53 | A status update equals a full update with the item's own name and summary if and only if it does not discontinue an item that is already discontinued. |
| Mapper.RediscontinueBothPaths | src/main/java/net/zeotrope/item/mapper/ItemMapper.java:28-51 | Discontinuing a DISCONTINUED item stamps `discontinuedAt` again on the status path and clears it on the full-update path. |
| Mapper.StatusUpdateAfterCreation | src/test/java/net/zeotrope/item/mapper/ItemMapperTest.java:99-132 | With the clock past creation, discontinuing sets a `discontinuedAt` later than `createdAt`, and making the item CURRENT leaves it null. |
| Mapper.StatusUpdateIdempotent | src/main/java/net/zeotrope/item/mapper/ItemMapper.java:42-53 | Repeating a status update at the same instant changes nothing further. |
| Mapper.FullUpdateDiscontinueTwice | src/main/java/net/zeotrope/item/mapper/ItemMapper.java:28-29 | Applying the same discontinuing full update twice clears the stamp that the first application set. |
| StatusConverter.IsWhitespace | src/main/java/net/zeotrope/item/common/StringToItemStatusConverter.java:13 | A character counts as blank exactly when its code is 9-13, 28-31 or 32. These are the ASCII characters `Character.isWhitespace` accepts. |
| StatusConverter.IsBlank | src/main/java/net/zeotrope/item/common/StringToItemStatusConverter.java:13 | Text is blank exactly when every character in it is whitespace. In particular, empty text is blank. |
| StatusConverter.ToUpper | src/main/java/net/zeotrope/item/common/StringToItemStatusConverter.java:17 | Upper-casing keeps the length and maps each character to its ASCII upper case. |
| StatusConverter.ValueOf | src/main/java/net/zeotrope/item/common/StringToItemStatusConverter.java:17 | It returns the constant whose name is exactly the text, and nothing when no name matches. |
| StatusConverter.Convert | src/main/java/net/zeotrope/item/common/StringToItemStatusConverter.java:12-21 | Null or blank text fails with "item status cannot be null". Text whose upper case is a status name gives that status. Any other text fails with the text itself as the message. |
| StatusConverter.ConvertName | src/main/java/net/zeotrope/item/common/StringToItemStatusConverter.java:17 | Every status name converts back to its status, in upper or lower case. |
| StatusConverter.ConvertAcceptsAnyCase | src/test/java/net/zeotrope/item/common/StringToItemStatusConverterTest.java:25-39 | "current", "Current" and "disContinued" convert to their statuses. |
| StatusConverter.ConvertRejectsUnknown | src/test/java/net/zeotrope/item/common/StringToItemStatusConverterTest.java:41-54 | "invalid" fails, with "invalid" as the message. |
| StatusConverter.ConvertDoesNotTrim | src/main/java/net/zeotrope/item/common/StringToItemStatusConverter.java:17-19 | The text is not trimmed. " current" and "CURRENT " are unknown and fail with their untrimmed text as the message. |
| StatusConverter.ConvertRejectsBlank | src/main/java/net/zeotrope/item/common/StringToItemStatusConverter.java:13-15 | Null, empty and whitespace-only text fail with the message "item status cannot be null". |
| ItemCache.ConfiguredTtl | src/main/java/net/zeotrope/item/configurer/RedisCacheConfig.java:25-26 | An unset `cache.redis.ttl` gives 600 seconds. A set one is used as given. |
| ItemCache.Lookup | src/main/java/net/zeotrope/item/configurer/RedisCacheConfig.java:38 | An absent key misses. With a positive TTL, a present entry is read exactly while `now` is before its insertion time plus the TTL. With a TTL of zero or less it is always read. A hit returns the stored item. |
| ItemCache.Put | src/main/java/net/zeotrope/item/configurer/RedisCacheConfig.java:38-39 | Right after a put, the key reads back the item under any TTL. Every other key reads as before. |
| ItemCache.Evict | src/test/java/net/zeotrope/item/repository/ItemCacheRepositoryTest.java:97-115 | After an evict the key misses at every time, and every other key reads as before. Evicting an absent key changes nothing. |
| ItemCache.Clear | src/test/java/net/zeotrope/item/repository/ItemCacheRepositoryTest.java:42-45 | After a clear, every key misses. |
| ItemCache.PutThenLookup | src/main/java/net/zeotrope/item/configurer/RedisCacheConfig.java:38 | With a positive TTL, a put entry reads back before its TTL has passed and misses from then on. |
| ItemCache.ExpiredIsMiss | src/main/java/net/zeotrope/item/configurer/RedisCacheConfig.java:38 | An entry whose TTL has passed reads as a miss. |
| ItemCache.DefaultTtlIsTenMinutes | src/main/java/net/zeotrope/item/configurer/RedisCacheConfig.java:25-38 | With the default setting, a put entry is readable 599 seconds later and misses 600 seconds later. |
| ItemCache.EvictIdempotent | src/main/java/net/zeotrope/item/service/ItemService.java:74-79 | Evicting twice is the same as evicting once. |
| ItemCache.OnlyThePutKeyHits | src/test/java/net/zeotrope/item/repository/ItemCacheRepositoryTest.java:69-88 | In a cleared cache holding one put, every other key misses. |
| ItemCache.EvictIfPresent | src/test/java/net/zeotrope/item/repository/ItemCacheRepositoryTest.java:90-115 | After one put, the put item is gone if and only if the evicted key is the put key. |
| Repository.FindById | src/main/java/net/zeotrope/item/service/ItemService.java:38 | It finds an item exactly when the id is stored, and returns the stored item. |
| Repository.ExistsById | src/main/java/net/zeotrope/item/service/ItemService.java:76 | It is true exactly when `findById` would find the item. |
| Repository.DeleteById | src/main/java/net/zeotrope/item/service/ItemService.java:78 | The id is removed and every other id is kept with its item. |
| Repository.SaveExisting | src/main/java/net/zeotrope/item/service/ItemService.java:56-59 | Merging an entity with an id replaces the item under that id, returns the entity, and leaves every other id untouched. |
| Repository.SaveNew | src/main/java/net/zeotrope/item/service/ItemService.java:83 | Persisting an entity without an id stores it under the fresh id and returns it carrying that id. The old ids are kept. |
| Repository.SaveTwiceIsSaveOnce | src/main/java/net/zeotrope/item/service/ItemService.java:54-59 | Saving the returned entity a second time changes neither the store nor the result. |
| Repository.FindAll | src/main/java/net/zeotrope/item/repository/ItemRepository.java:11-12 | It returns exactly the stored items that pass the status filter, each under its id. |
| Repository.FindAllPartitions | src/main/java/net/zeotrope/item/service/ItemService.java:29-34 | With no filter it returns the whole store. The CURRENT and DISCONTINUED queries are disjoint, together cover the store, and each returns only its own status. |
| Service.NotFound | src/main/java/net/zeotrope/item/service/ItemService.java:48 | The error is an `ItemNotFound`. Its message is "Item with id ", then a canonical numeral, then " not found". The numeral has no leading zero and only digits after an optional minus sign, and it reads back as the id. |
| Service.NotFoundMessageIsUnique | src/main/java/net/zeotrope/item/service/ItemService.java:48 | Any message made of the prefix, a canonical numeral for the id and the suffix is exactly the not-found message for that id. So the `%d` rendering is fixed for every id. |
| Service.CanonicalIntIsRendering | src/main/java/net/zeotrope/item/service/ItemService.java:48 | Every canonical numeral is the `%d` rendering of the value it denotes. With the round trip, rendering is a bijection between ids and canonical numerals. |
| Service.CanonicalNatIsRendering | src/main/java/net/zeotrope/item/service/ItemService.java:48 | Every canonical numeral without a sign denotes a non-negative value, and that value renders back to the same numeral. |
| Service.IntToDecimalRoundTrip | src/main/java/net/zeotrope/item/service/ItemService.java:48 | Reading the `%d` rendering of any id, negative ones included, gives the id back. |
| Service.GetAllItems | src/main/java/net/zeotrope/item/service/ItemService.java:29-34 | A null status returns every stored item, and a status returns exactly the items with that status. The cache is not involved. |
| Service.Get | src/main/java/net/zeotrope/item/service/ItemService.java:36-49 | A live cache entry is returned with nothing changed. On a miss the stored item is returned and cached. A missing id fails with "Item with id N not found" and changes nothing. |
| Service.Update | src/main/java/net/zeotrope/item/service/ItemService.java:51-60 | A stored id gets the mapper's full update, saved in the store and written through to the cache. A missing id fails and changes nothing. |
| Service.UpdateItemStatus | src/main/java/net/zeotrope/item/service/ItemService.java:62-71 | A stored id gets the mapper's status update, saved and written through. A missing id fails and changes nothing. |
| Service.Delete | src/main/java/net/zeotrope/item/service/ItemService.java:73-79 | The id leaves both the store and the cache, and every other entry is kept. A missing id is not an error and leaves the store as it was. |
| Service.CreateItem | src/main/java/net/zeotrope/item/service/ItemService.java:81-85 | The new item is saved under the generated id and written through to the cache under that id. |
| Service.GetReadsThrough | src/main/java/net/zeotrope/item/service/ItemService.java:36-49 | With a coherent cache, `get` returns what the store holds, hit or miss, and fails exactly when the store lacks the id. |
| Service.CacheHitIgnoresStore | src/main/java/net/zeotrope/item/service/ItemService.java:36-38 | A hit is answered from the cache alone, even for an id the store no longer holds. |
| Service.DeleteIdempotent | src/main/java/net/zeotrope/item/service/ItemService.java:73-79 | Deleting twice is the same as deleting once. |
| Service.DeleteThenGet | src/main/java/net/zeotrope/item/service/ItemService.java:73-79 | After a delete on a coherent state, `get` of that id fails and changes nothing. |
| Service.NotFoundMessageExample | src/test/java/net/zeotrope/item/service/ItemServiceTest.java:96-107 | The not-found message for id 1 is "Item with id 1 not found". |
| Service.Apply | src/main/java/net/zeotrope/item/service/ItemService.java:51-79 | A request that fails leaves the store and the cache exactly as they were. The only failure modelled is `ItemNotFound`. |
| Service.ApplyPreservesValid | src/main/java/net/zeotrope/item/service/ItemService.java:36-85 | Every operation keeps the invariant. Items stay keyed by id, the cache stays equal to the store, and stamps stay well formed, provided the clock is not behind any stored creation time. |
| Service.RunPreservesValid | src/main/java/net/zeotrope/item/service/ItemService.java:36-85 | Take a trace that starts no earlier than any stored creation time, whose clock never runs backwards, and whose creates use fresh ids. After it, the invariant still holds, and the clock is not behind the final state. |

## Left out

- The controller, the exception handlers, the error-response body and JSON
  serialisation are not modelled. They translate to and from HTTP around this
  core.
- Redis and JPA internals are not modelled: connections, key serialisation
  (`items::<id>`) and SQL. The store is a map from id to item and the cache is
  a map from id to entry.
- Expiry is lazy in the model. An expired entry stays in the map and every
  read treats it as a miss, while Redis deletes it on its own. The two give
  the same answers.
- Concurrency and transaction isolation are not modelled. Operations run one
  at a time.
- Service.Apply: store and cache failures are not modelled: a failing save,
  delete, commit or Redis call. So its "a failed request changes nothing"
  covers only `ItemNotFound`, which is raised before any write. The case the
  transaction-aware cache manager exists for is not exercised: a put or evict
  held back because the surrounding `@Transactional` operation failed to
  commit. `get` and `createItem` are not transactional in the code at all.
- `processItemA`, `processItemB` and `processItemC` are not modelled. The
  controller applies them to the result of `get` (`ItemController.java:44-49`).
  `ItemService.java` as shipped declares no such methods, so their behaviour
  is not available to model.
- The wall clock, `LocalDateTime.now()`, becomes the parameter `now`, a
  natural number on one abstract clock. Its calendar structure and
  nanoseconds are not modelled.
- The id generator of the database becomes the parameter `newId` of
  `CreateItem`, with the requirement that it is not in use.
- Java's locale-sensitive `toUpperCase` and Unicode `isBlank` are modelled on
  ASCII text only. The model also assumes a default locale that upper-cases
  ASCII as the root locale does. Under a Turkish or Azerbaijani locale, `i`
  upper-cases to U+0130, so `convert("discontinued")` throws there while
  `Convert` accepts it.
- A request body with a null status, name or description is not modelled.
  The DTO record and the controller do no validation, so Java admits one, but
  the fields of the Dafny `ItemDto` are never null. Null item fields are not
  modelled either, apart from `id` and `discontinuedAt`.
- Service.Update: requires the store to keep each item under its own id. JPA
  guarantees this, and it makes the cache key `#result.id` well defined.
- Service.UpdateItemStatus: requires the same store invariant as `Update`.
- Domain.StatusCreatedSort: `LocalDateTime.compareTo` returns a signed
  difference rather than -1/0/1. Only its sign is modelled, because that is
  all a comparator's caller reads.
- Repository.FindAll: returns the matching rows keyed by id, not a list. The
  list order comes from the database and nothing relies on it.
- Call counts on the repository and cache, which the service tests check
  with mocks, are not modelled.
