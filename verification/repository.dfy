/** `ItemRepository`, the JPA store of items, as a finite map from id to item. */
module Repository {
  import opened Results
  import opened Domain

  type Store = map<Id, Item>

  /** Each stored item carries the id it is stored under, as a JPA entity's
      `@Id` field does. */
  ghost predicate KeyedById(store: Store) {
    forall k :: k in store ==> store[k].id == Some(k)
  }

  /** `findById`: the stored item, if any. */
  function FindById(store: Store, id: Id): (r: Option<Item>)
    ensures r.Some? <==> id in store
    ensures r.Some? ==> r.value == store[id]
  {
    if id in store then Some(store[id]) else None
  }

  /** `existsById`. */
  function ExistsById(store: Store, id: Id): (r: bool)
    ensures r <==> FindById(store, id).Some?
  {
    id in store
  }

  /** `deleteById`: the id is gone and every other id is as it was. */
  function DeleteById(store: Store, id: Id): (r: Store)
    ensures id !in r
    ensures r.Keys == store.Keys - {id}
    ensures forall k :: k in r ==> r[k] == store[k]
  {
    store - {id}
  }

  /** The store and the entity a `save` returns. */
  datatype Saved = Saved(store: Store, item: Item)

  /** `save` of an entity that has an id (JPA merge): it replaces the stored
      item under that id, and leaves every other id as it was. */
  function SaveExisting(store: Store, item: Item): (r: Saved)
    requires item.id.Some?
    ensures r.item == item
    ensures item.id.value in r.store && r.store[item.id.value] == item
    ensures forall k :: k != item.id.value ==> (k in r.store <==> k in store)
    ensures forall k :: k in store && k != item.id.value ==> r.store[k] == store[k]
  {
    Saved(store[item.id.value := item], item)
  }

  /** `save` of an entity without an id (JPA persist): the database assigns
      `newId`, an id not yet in use, and the returned entity carries it. */
  function SaveNew(store: Store, item: Item, newId: Id): (r: Saved)
    requires item.id.None? && newId !in store
    ensures r.item == item.(id := Some(newId))
    ensures r.store.Keys == store.Keys + {newId}
    ensures r.store[newId] == r.item
    ensures forall k :: k in store ==> r.store[k] == store[k]
  {
    var persisted := item.(id := Some(newId));
    Saved(store[newId := persisted], persisted)
  }

  /** Saving the same entity twice leaves the store as saving it once does. */
  lemma SaveTwiceIsSaveOnce(store: Store, item: Item)
    requires item.id.Some?
    ensures SaveExisting(SaveExisting(store, item).store, item) == SaveExisting(store, item)
  {
  }

  /** Whether an item passes a `findAllByStatus` filter; `None` is `findAll`. */
  predicate Matches(item: Item, status: Option<ItemStatus>) {
    status.None? || item.status == status.value
  }

  /** `findAll` (filter `None`) and `findAllByStatus` (filter `Some`): the
      stored items passing the filter, keyed by the id they are stored under.
      The order of the returned list is the database's and is not modelled. */
  function FindAll(store: Store, status: Option<ItemStatus>): (r: Store)
    ensures r.Keys <= store.Keys
    ensures forall k :: k in store ==> (k in r <==> Matches(store[k], status))
    ensures forall k :: k in r ==> r[k] == store[k]
  {
    map k | k in store && Matches(store[k], status) :: store[k]
  }

  /** `findAll` returns every stored item, and the two status queries split
      the store between them: every item is found by exactly one of them,
      and each finds only items of its own status. */
  lemma FindAllPartitions(store: Store)
    ensures FindAll(store, None) == store
    ensures FindAll(store, Some(Current)).Keys !! FindAll(store, Some(Discontinued)).Keys
    ensures FindAll(store, Some(Current)).Keys + FindAll(store, Some(Discontinued)).Keys == store.Keys
    ensures forall status: ItemStatus, k :: k in FindAll(store, Some(status)) ==>
              FindAll(store, Some(status))[k].status == status
  {
  }
}
