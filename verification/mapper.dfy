/** Building new and updated items from requests, and the stamping of
    `createdAt`, `lastModifiedAt` and `discontinuedAt`. The wall clock the
    source reads is the parameter `now`. */
module Mapper {
  import opened Results
  import opened Domain

  /** The request content an item carries: its name, status and summary. */
  function ContentOf(item: Item): ItemDto {
    ItemDto(item.name, item.status, item.summary)
  }

  /** The stamping invariant every item built here satisfies: it was not
      modified before it was created, and `discontinuedAt`, when set, marks a
      DISCONTINUED item and records the moment of its last modification. */
  ghost predicate WellStamped(item: Item) {
    && item.createdAt <= item.lastModifiedAt
    && (item.discontinuedAt.Some? ==>
          item.status == Discontinued && item.discontinuedAt.value == item.lastModifiedAt)
  }

  /** A new, not yet persisted item holding the request's content. */
  function ToNewItem(dto: ItemDto, now: Time): (r: Item)
    ensures r.id == None
    ensures ContentOf(r) == dto
    ensures r.createdAt == now && r.lastModifiedAt == now
    ensures r.discontinuedAt == None
    ensures WellStamped(r)
  {
    Item(None, dto.status, dto.name, dto.description, now, now, None)
  }

  /** Replaces an item's content with the request's. `discontinuedAt` is set
      only when the item moves into DISCONTINUED from another status; in
      every other case, an item staying DISCONTINUED included, it is cleared. */
  function ToUpdateItem(dto: ItemDto, previous: Item, now: Time): (r: Item)
    ensures r.id == previous.id && r.createdAt == previous.createdAt
    ensures ContentOf(r) == dto
    ensures r.lastModifiedAt == now
    ensures r.discontinuedAt.Some? <==> dto.status == Discontinued && previous.status != Discontinued
    ensures r.discontinuedAt.Some? ==> r.discontinuedAt.value == now
    ensures previous.createdAt <= now ==> WellStamped(r)
  {
    var discontinued := if dto.status == Discontinued && previous.status != Discontinued then Some(now) else None;
    Item(previous.id, dto.status, dto.name, dto.description, previous.createdAt, now, discontinued)
  }

  /** Sets an item's status. `discontinuedAt` is stamped with `now` whenever the
      new status is DISCONTINUED, whatever the old status was, and cleared otherwise. */
  function ToUpdateItemStatus(item: Item, status: ItemStatus, now: Time): (r: Item)
    ensures r.(status := item.status, lastModifiedAt := item.lastModifiedAt,
               discontinuedAt := item.discontinuedAt) == item
    ensures r.status == status && r.lastModifiedAt == now
    ensures r.discontinuedAt.Some? <==> status == Discontinued
    ensures r.discontinuedAt.Some? ==> r.discontinuedAt.value == now
    ensures item.createdAt <= now ==> WellStamped(r)
  {
    Item(item.id, status, item.name, item.summary, item.createdAt, now,
         if status == Discontinued then Some(now) else None)
  }

  /** A status update is a full update whose request repeats the item's name
      and summary, except when an already DISCONTINUED item is discontinued
      again: then the status update re-stamps `discontinuedAt` and the full
      update clears it. */
  lemma StatusUpdateIsFullUpdateUnlessRediscontinued(item: Item, status: ItemStatus, now: Time)
    ensures ToUpdateItemStatus(item, status, now) == ToUpdateItem(ContentOf(item).(status := status), item, now)
            <==> !(item.status == Discontinued && status == Discontinued)
  {
  }

  /** On a DISCONTINUED item, discontinuing again by a status update moves
      `discontinuedAt` to `now`, while a full update keeping DISCONTINUED
      leaves it null. */
  lemma RediscontinueBothPaths(item: Item, dto: ItemDto, now: Time)
    requires item.status == Discontinued && dto.status == Discontinued
    ensures ToUpdateItemStatus(item, Discontinued, now).discontinuedAt == Some(now)
    ensures ToUpdateItem(dto, item, now).discontinuedAt == None
  {
  }

  /** With the clock past the creation time, a status update to DISCONTINUED
      stamps a `discontinuedAt` later than `createdAt`; one to CURRENT leaves it null. */
  lemma StatusUpdateAfterCreation(item: Item, status: ItemStatus, now: Time)
    requires now > item.createdAt
    ensures var r := ToUpdateItemStatus(item, status, now);
            && r.status == status
            && (status == Discontinued ==> r.discontinuedAt.Some? && r.discontinuedAt.value > item.createdAt)
            && (status == Current ==> r.discontinuedAt == None)
  {
  }

  /** Repeating a status update at the same instant changes nothing further. */
  lemma StatusUpdateIdempotent(item: Item, status: ItemStatus, now: Time)
    ensures var once := ToUpdateItemStatus(item, status, now);
            ToUpdateItemStatus(once, status, now) == once
  {
  }

  /** Repeating a full update that discontinues a CURRENT item does not give
      the same item: the second application clears the `discontinuedAt`
      stamped by the first. */
  lemma FullUpdateDiscontinueTwice(item: Item, dto: ItemDto, t1: Time, t2: Time)
    requires item.status == Current && dto.status == Discontinued
    ensures ToUpdateItem(dto, item, t1).discontinuedAt == Some(t1)
    ensures ToUpdateItem(dto, ToUpdateItem(dto, item, t1), t2).discontinuedAt == None
  {
  }
}
