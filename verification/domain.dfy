/** The item record, its status enum, the request DTO, the error kinds, and
    the comparators the application sorts items with. */
module Domain {
  import opened Results
  import Sorting

  /** Item ids are Java `Long`s. */
  type Id = int

  /** `LocalDateTime` values, read as instants on one abstract clock. */
  type Time = nat

  datatype ItemStatus = Current | Discontinued

  /** The enum constant's name, as `Enum.name()` returns it. */
  function Name(status: ItemStatus): string {
    match status
    case Current => "CURRENT"
    case Discontinued => "DISCONTINUED"
  }

  /** The rank a status sorts by. */
  function SortOrder(status: ItemStatus): (r: int)
    ensures 0 <= r <= 1
    ensures r == 0 <==> status == Current
  {
    match status
    case Current => 0
    case Discontinued => 1
  }

  /** `Integer.compare`: the sign of the result is the order of `x` and `y`. */
  function IntCompare(x: int, y: int): (r: int)
    ensures r < 0 <==> x < y
    ensures r == 0 <==> x == y
    ensures r > 0 <==> x > y
  {
    if x < y then -1 else if x == y then 0 else 1
  }

  /** `ItemStatus.statusSort()`: statuses compared by `SortOrder`. */
  function StatusSort(a: ItemStatus, b: ItemStatus): (r: int)
    ensures r < 0 <==> SortOrder(a) < SortOrder(b)
    ensures r == 0 <==> SortOrder(a) == SortOrder(b)
    ensures r < 0 <==> a == Current && b == Discontinued
    ensures r == 0 <==> a == b
  {
    IntCompare(SortOrder(a), SortOrder(b))
  }

  /** The persisted record. Equality is structural over all seven fields,
      as Lombok's `@EqualsAndHashCode` makes it. `id` is absent until the
      store assigns one; `discontinuedAt` is nullable. */
  datatype Item = Item(
    id: Option<Id>,
    status: ItemStatus,
    name: string,
    summary: string,
    createdAt: Time,
    lastModifiedAt: Time,
    discontinuedAt: Option<Time>)

  /** The request body for creating or replacing an item. */
  datatype ItemDto = ItemDto(name: string, status: ItemStatus, description: string)

  /** The application's exceptions, each carrying its message. */
  datatype ItemError = ItemNotFound(message: string) | InvalidStatus(message: string)

  /** `Item.itemStatusSort`: items compared by the rank of their status only. */
  function ItemStatusSort(a: Item, b: Item): (r: int)
    ensures r < 0 <==> SortOrder(a.status) < SortOrder(b.status)
    ensures r == 0 <==> a.status == b.status
    ensures r < 0 <==> a.status == Current && b.status == Discontinued
  {
    IntCompare(SortOrder(a.status), SortOrder(b.status))
  }

  /** `Item.statusCreatedSort`: by status rank, ties broken by creation time. */
  function StatusCreatedSort(a: Item, b: Item): (r: int)
    ensures r < 0 <==> SortOrder(a.status) < SortOrder(b.status)
                       || (a.status == b.status && a.createdAt < b.createdAt)
    ensures r == 0 <==> a.status == b.status && a.createdAt == b.createdAt
  {
    var byStatus := IntCompare(SortOrder(a.status), SortOrder(b.status));
    if byStatus != 0 then byStatus else IntCompare(a.createdAt, b.createdAt)
  }

  /** Distinct statuses have distinct ranks, CURRENT ranking first. */
  lemma SortOrderInjective(a: ItemStatus, b: ItemStatus)
    ensures SortOrder(a) == SortOrder(b) <==> a == b
    ensures SortOrder(Current) == 0 && SortOrder(Discontinued) == 1
  {
  }

  /** All three comparators order their values totally, as a stable sort needs. */
  lemma ComparatorsArePreorders()
    ensures Sorting.TotalPreorder(StatusSort)
    ensures Sorting.TotalPreorder(ItemStatusSort)
    ensures Sorting.TotalPreorder(StatusCreatedSort)
  {
  }

  /** Sorting statuses by `statusSort` yields a permutation of the input with
      every CURRENT ahead of every DISCONTINUED. */
  lemma SortStatuses(s: seq<ItemStatus>)
    ensures multiset(Sorting.Sort(StatusSort, s)) == multiset(s)
    ensures var r := Sorting.Sort(StatusSort, s);
            forall i, j :: 0 <= i < j < |r| && r[i] == Discontinued ==> r[j] == Discontinued
  {
    ComparatorsArePreorders();
    Sorting.SortSorted(StatusSort, s);
  }

  /** Sorting items by `itemStatusSort` yields a permutation of the input,
      every CURRENT item ahead of every DISCONTINUED one, and the items of
      each status in their input order. */
  lemma SortByStatus(items: seq<Item>)
    ensures var r := Sorting.Sort(ItemStatusSort, items);
            && |r| == |items|
            && multiset(r) == multiset(items)
            && (forall i, j :: 0 <= i < j < |r| && r[i].status == Discontinued ==> r[j].status == Discontinued)
            && Sorting.Stable(ItemStatusSort, items, r)
  {
    ComparatorsArePreorders();
    Sorting.SortSorted(ItemStatusSort, items);
    Sorting.SortStable(ItemStatusSort, items);
  }

  /** Sorting items by `statusCreatedSort` yields a permutation of the input
      ordered by status and then by creation time, items with equal status
      and creation time keeping their input order. */
  lemma SortByStatusThenCreated(items: seq<Item>)
    ensures var r := Sorting.Sort(StatusCreatedSort, items);
            && |r| == |items|
            && multiset(r) == multiset(items)
            && (forall i, j :: 0 <= i < j < |r| ==>
                  SortOrder(r[i].status) < SortOrder(r[j].status)
                  || (r[i].status == r[j].status && r[i].createdAt <= r[j].createdAt))
            && Sorting.Stable(StatusCreatedSort, items, r)
  {
    ComparatorsArePreorders();
    Sorting.SortSorted(StatusCreatedSort, items);
    Sorting.SortStable(StatusCreatedSort, items);
  }

  /** The five items of the sorting tests; creation times 1..5 stand for
      2025-01-01, 2025-01-14 00:00, 2025-01-14 02:00, 2025-02-07 and
      2025-02-14, and 6 for the discontinuation date 2025-06-01. */
  const A1234 := Item(Some(1234), Current, "Title", "Summary", 1, 1, None)
  const A1235 := Item(Some(1235), Discontinued, "Title", "Summary", 5, 5, Some(6))
  const A1236 := Item(Some(1236), Current, "Title", "Summary", 3, 3, None)
  const A1237 := Item(Some(1237), Discontinued, "Title", "Summary", 4, 4, Some(6))
  const A20001 := Item(Some(20001), Current, "Title", "Summary", 2, 2, None)

  /** The sample items in the order the tests list them. */
  function SampleItems(): seq<Item> {
    [A1234, A1235, A1236, A1237, A20001]
  }

  /* The sample sorts below are computed one insertion at a time: `Unfold`
     takes one step of `Sort`, and `InsertBefore` and `InsertAfter` one step
     of `Insert`. The intermediate lists are written as `[x] + rest` so that
     each step matches the shape of those definitions. */

  /** A five-element list is its head before the rest. */
  lemma Cons5(a: Item, b: Item, c: Item, d: Item, e: Item)
    ensures [a, b, c, d, e] == [a] + ([b] + ([c] + ([d] + [e])))
  {
  }

  /** Sorting by status keeps input order within each status. */
  lemma SampleSortedByStatus()
    ensures Sorting.Sort(ItemStatusSort, SampleItems()) == [A1234, A1236, A20001, A1235, A1237]
  {
    Cons5(A1234, A1235, A1236, A1237, A20001);
    Cons5(A1234, A1236, A20001, A1235, A1237);
    ByStatusFromOne();
    Unfold(ItemStatusSort, A1234, [A1235] + ([A1236] + ([A1237] + [A20001])));
    InsertBefore(ItemStatusSort, A1234, A1236, [A20001] + ([A1235] + [A1237]));
  }

  lemma ByStatusFromOne()
    ensures Sorting.Sort(ItemStatusSort, [A1235] + ([A1236] + ([A1237] + [A20001])))
            == [A1236] + ([A20001] + ([A1235] + [A1237]))
  {
    ByStatusFromTwo();
    Unfold(ItemStatusSort, A1235, [A1236] + ([A1237] + [A20001]));
    InsertAfter(ItemStatusSort, A1235, A1236, [A20001] + [A1237]);
    InsertAfter(ItemStatusSort, A1235, A20001, [A1237]);
    InsertBefore(ItemStatusSort, A1235, A1237, []);
  }

  lemma ByStatusFromTwo()
    ensures Sorting.Sort(ItemStatusSort, [A1236] + ([A1237] + [A20001])) == [A1236] + ([A20001] + [A1237])
  {
    Unfold(ItemStatusSort, A20001, []);
    assert [A20001] + [] == [A20001];
    Unfold(ItemStatusSort, A1237, [A20001]);
    InsertAfter(ItemStatusSort, A1237, A20001, []);
    Unfold(ItemStatusSort, A1236, [A1237] + [A20001]);
    InsertBefore(ItemStatusSort, A1236, A20001, [A1237]);
  }

  /** Sorting by status then creation time orders each status group by `createdAt`. */
  lemma SampleSortedByStatusThenCreated()
    ensures Sorting.Sort(StatusCreatedSort, SampleItems()) == [A1234, A20001, A1236, A1237, A1235]
  {
    Cons5(A1234, A1235, A1236, A1237, A20001);
    Cons5(A1234, A20001, A1236, A1237, A1235);
    ByCreatedFromOne();
    Unfold(StatusCreatedSort, A1234, [A1235] + ([A1236] + ([A1237] + [A20001])));
    InsertBefore(StatusCreatedSort, A1234, A20001, [A1236] + ([A1237] + [A1235]));
  }

  lemma ByCreatedFromOne()
    ensures Sorting.Sort(StatusCreatedSort, [A1235] + ([A1236] + ([A1237] + [A20001])))
            == [A20001] + ([A1236] + ([A1237] + [A1235]))
  {
    ByCreatedFromTwo();
    Unfold(StatusCreatedSort, A1235, [A1236] + ([A1237] + [A20001]));
    InsertAfter(StatusCreatedSort, A1235, A20001, [A1236] + [A1237]);
    InsertAfter(StatusCreatedSort, A1235, A1236, [A1237]);
    InsertAfter(StatusCreatedSort, A1235, A1237, []);
  }

  lemma ByCreatedFromTwo()
    ensures Sorting.Sort(StatusCreatedSort, [A1236] + ([A1237] + [A20001])) == [A20001] + ([A1236] + [A1237])
  {
    Unfold(StatusCreatedSort, A20001, []);
    assert [A20001] + [] == [A20001];
    Unfold(StatusCreatedSort, A1237, [A20001]);
    InsertAfter(StatusCreatedSort, A1237, A20001, []);
    Unfold(StatusCreatedSort, A1236, [A1237] + [A20001]);
    InsertAfter(StatusCreatedSort, A1236, A20001, [A1237]);
    InsertBefore(StatusCreatedSort, A1236, A1237, []);
  }

  lemma Unfold(cmp: (Item, Item) -> int, x: Item, s: seq<Item>)
    ensures Sorting.Sort(cmp, [x] + s) == Sorting.Insert(cmp, x, Sorting.Sort(cmp, s))
  {
    assert ([x] + s)[1..] == s;
  }

  lemma InsertBefore(cmp: (Item, Item) -> int, x: Item, e: Item, s: seq<Item>)
    requires cmp(x, e) <= 0
    ensures Sorting.Insert(cmp, x, [e] + s) == [x] + ([e] + s)
  {
  }

  lemma InsertAfter(cmp: (Item, Item) -> int, x: Item, e: Item, s: seq<Item>)
    requires cmp(x, e) > 0
    ensures Sorting.Insert(cmp, x, [e] + s) == [e] + Sorting.Insert(cmp, x, s)
  {
    assert ([e] + s)[1..] == s;
  }
}
