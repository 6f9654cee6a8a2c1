/** A stable sort driven by a Java-style comparator: `cmp(a, b)` is negative,
    zero or positive as `a` sorts before, together with, or after `b`.
    `Stream.sorted` and `List.sort` on object lists are stable merge sorts;
    any stable sort yields the same sequence, and here it is insertion sort. */
module Sorting {

  /** What a stable sort needs of a comparator: "sorts no later than" is a
      total preorder. Every comparator honouring Java's contract has this. */
  ghost predicate TotalPreorder<T(!new)>(cmp: (T, T) -> int) {
    && (forall a, b :: cmp(a, b) <= 0 || cmp(b, a) <= 0)
    && (forall a, b, c :: cmp(a, b) <= 0 && cmp(b, c) <= 0 ==> cmp(a, c) <= 0)
  }

  /** Every element sorts no later than every element after it. */
  ghost predicate Sorted<T>(cmp: (T, T) -> int, s: seq<T>) {
    forall i, j :: 0 <= i < j < |s| ==> cmp(s[i], s[j]) <= 0
  }

  /** `a` and `b` have equal sort keys. */
  predicate Equivalent<T>(cmp: (T, T) -> int, a: T, b: T) {
    cmp(a, b) <= 0 && cmp(b, a) <= 0
  }

  /** The elements of `s` whose key equals that of `x`, in their order in `s`. */
  function ClassOf<T>(cmp: (T, T) -> int, x: T, s: seq<T>): seq<T> {
    if s == [] then []
    else (if Equivalent(cmp, x, s[0]) then [s[0]] else []) + ClassOf(cmp, x, s[1..])
  }

  /** `output` keeps the relative order of every group of equal-key elements of `input`. */
  ghost predicate Stable<T(!new)>(cmp: (T, T) -> int, input: seq<T>, output: seq<T>) {
    forall x :: ClassOf(cmp, x, output) == ClassOf(cmp, x, input)
  }

  /** Inserts `x` in front of the first element it sorts no later than. */
  function Insert<T>(cmp: (T, T) -> int, x: T, s: seq<T>): (r: seq<T>)
    ensures multiset(r) == multiset(s) + multiset{x}
  {
    if s == [] then [x]
    else if cmp(x, s[0]) <= 0 then [x] + s
    else
      assert s == [s[0]] + s[1..];
      [s[0]] + Insert(cmp, x, s[1..])
  }

  /** Sorts `s` with `cmp`; the result is a permutation of the input. */
  function Sort<T>(cmp: (T, T) -> int, s: seq<T>): (r: seq<T>)
    ensures multiset(r) == multiset(s)
    ensures |r| == |s|
  {
    if s == [] then []
    else
      assert s == [s[0]] + s[1..];
      Insert(cmp, s[0], Sort(cmp, s[1..]))
  }

  /** Putting an element that sorts no later than all of `r` in front of a sorted `r` keeps it sorted. */
  lemma ConsSorted<T>(cmp: (T, T) -> int, e: T, r: seq<T>)
    requires Sorted(cmp, r)
    requires forall j :: 0 <= j < |r| ==> cmp(e, r[j]) <= 0
    ensures Sorted(cmp, [e] + r)
  {
    var er := [e] + r;
    forall i, j | 0 <= i < j < |er| ensures cmp(er[i], er[j]) <= 0 {
      assert er[j] == r[j - 1];
      if i > 0 {
        assert er[i] == r[i - 1];
      }
    }
  }

  lemma TailSorted<T>(cmp: (T, T) -> int, s: seq<T>)
    requires s != [] && Sorted(cmp, s)
    ensures Sorted(cmp, s[1..])
  {
    forall i, j | 0 <= i < j < |s[1..]| ensures cmp(s[1..][i], s[1..][j]) <= 0 {
      assert s[1..][i] == s[i + 1] && s[1..][j] == s[j + 1];
    }
  }

  lemma {:induction false} InsertSorted<T(!new)>(cmp: (T, T) -> int, x: T, s: seq<T>)
    requires TotalPreorder(cmp)
    requires Sorted(cmp, s)
    ensures Sorted(cmp, Insert(cmp, x, s))
  {
    if s == [] {
    } else if cmp(x, s[0]) <= 0 {
      forall j | 0 <= j < |s| ensures cmp(x, s[j]) <= 0 {
        if j > 0 {
          assert cmp(s[0], s[j]) <= 0;
        }
      }
      ConsSorted(cmp, x, s);
    } else {
      var rest := Insert(cmp, x, s[1..]);
      TailSorted(cmp, s);
      InsertSorted(cmp, x, s[1..]);
      forall j | 0 <= j < |rest| ensures cmp(s[0], rest[j]) <= 0 {
        var y := rest[j];
        assert y in multiset(rest);
        if y != x {
          assert y in multiset(s[1..]);
          var k :| 0 <= k < |s[1..]| && s[1..][k] == y;
          assert s[k + 1] == y;
        }
      }
      ConsSorted(cmp, s[0], rest);
    }
  }

  lemma {:induction false} SortSorted<T(!new)>(cmp: (T, T) -> int, s: seq<T>)
    requires TotalPreorder(cmp)
    ensures Sorted(cmp, Sort(cmp, s))
  {
    if s != [] {
      SortSorted(cmp, s[1..]);
      InsertSorted(cmp, s[0], Sort(cmp, s[1..]));
    }
  }

  /** Inserting `x` puts it among the elements of its key class in front of
      all of them that `x` was inserted ahead of; sortedness is not needed,
      because `Insert` only steps over elements with a different key. */
  lemma {:induction false} InsertClass<T(!new)>(cmp: (T, T) -> int, y: T, x: T, s: seq<T>)
    requires TotalPreorder(cmp)
    ensures ClassOf(cmp, y, Insert(cmp, x, s)) == ClassOf(cmp, y, [x]) + ClassOf(cmp, y, s)
  {
    if s == [] {
    } else if cmp(x, s[0]) <= 0 {
      ClassOfCons(cmp, y, [x] + s);
      assert ([x] + s)[1..] == s;
    } else {
      InsertClass(cmp, y, x, s[1..]);
      KeyClassesDiffer(cmp, y, x, s[0]);
      InsertPastHead(cmp, y, x, s);
    }
  }

  /** The step of `InsertClass` where `x` moves past the head of `s`. */
  lemma InsertPastHead<T>(cmp: (T, T) -> int, y: T, x: T, s: seq<T>)
    requires s != [] && cmp(x, s[0]) > 0
    requires !(Equivalent(cmp, y, x) && Equivalent(cmp, y, s[0]))
    requires ClassOf(cmp, y, Insert(cmp, x, s[1..])) == ClassOf(cmp, y, [x]) + ClassOf(cmp, y, s[1..])
    ensures ClassOf(cmp, y, Insert(cmp, x, s)) == ClassOf(cmp, y, [x]) + ClassOf(cmp, y, s)
  {
    var rest := Insert(cmp, x, s[1..]);
    assert Insert(cmp, x, s) == [s[0]] + rest;
    ClassOfCons(cmp, y, [s[0]] + rest);
    assert ([s[0]] + rest)[1..] == rest;
    ClassOfCons(cmp, y, s);
    var inX, inHead, inTail := ClassOf(cmp, y, [x]), ClassOf(cmp, y, [s[0]]), ClassOf(cmp, y, s[1..]);
    assert inX == (if Equivalent(cmp, y, x) then [x] else []);
    assert inHead == (if Equivalent(cmp, y, s[0]) then [s[0]] else []);
    assert inX == [] || inHead == [];
    SwapAroundEmpty(inHead, inX, inTail);
  }

  lemma SwapAroundEmpty<T>(a: seq<T>, b: seq<T>, c: seq<T>)
    requires a == [] || b == []
    ensures a + (b + c) == b + (a + c)
  {
    if a == [] {
      assert a + (b + c) == b + c == b + (a + c);
    } else {
      assert a + (b + c) == a + c == b + (a + c);
    }
  }

  /** An element sorting strictly after another never shares a key with it,
      so no third element shares a key with both. */
  lemma KeyClassesDiffer<T(!new)>(cmp: (T, T) -> int, y: T, x: T, e: T)
    requires TotalPreorder(cmp)
    requires cmp(x, e) > 0
    ensures !(Equivalent(cmp, y, x) && Equivalent(cmp, y, e))
  {
  }

  lemma ClassOfCons<T>(cmp: (T, T) -> int, x: T, s: seq<T>)
    requires s != []
    ensures ClassOf(cmp, x, s) == ClassOf(cmp, x, [s[0]]) + ClassOf(cmp, x, s[1..])
  {
    assert ClassOf(cmp, x, [s[0]]) == (if Equivalent(cmp, x, s[0]) then [s[0]] else []);
  }

  lemma {:induction false} SortStable<T(!new)>(cmp: (T, T) -> int, s: seq<T>)
    requires TotalPreorder(cmp)
    ensures Stable(cmp, s, Sort(cmp, s))
  {
    if s != [] {
      var sortedTail := Sort(cmp, s[1..]);
      assert Sort(cmp, s) == Insert(cmp, s[0], sortedTail);
      SortStable(cmp, s[1..]);
      forall x ensures ClassOf(cmp, x, Sort(cmp, s)) == ClassOf(cmp, x, s) {
        InsertClass(cmp, x, s[0], sortedTail);
        ClassOfCons(cmp, x, s);
      }
    }
  }
}
