/**
 * The list helpers of `list.utils.ts`: keyed maps, de-duplication,
 * integer ranges, copy-then-sort wrappers, the last item, sums and
 * toggling a value. Items are compared by value (strict equality on
 * primitives).
 */
module ListUtils {
  import opened JsValues
  import opened TypeGuards
  import opened StringUtils

  // ---------------------------------------------------------------------
  // toMap
  // ---------------------------------------------------------------------

  /** The map `reduce` builds with `map.set(keyFn(item), item)`, item by item. */
  function MapOf<T>(items: seq<T>, keyFn: T -> string): map<string, T>
  {
    if items == [] then map[]
    else MapOf(items[..|items| - 1], keyFn)[keyFn(items[|items| - 1]) := items[|items| - 1]]
  }

  /** `toMap`: each item stored under its key, a later item replacing an earlier one. */
  method ToMap<T>(items: seq<T>, keyFn: T -> string) returns (m: map<string, T>)
    ensures m == MapOf(items, keyFn)
  {
    m := map[];
    var i := 0;
    while i < |items|
      invariant 0 <= i <= |items|
      invariant m == MapOf(items[..i], keyFn)
    {
      assert items[..i + 1][..i] == items[..i];
      m := m[keyFn(items[i]) := items[i]];
      i := i + 1;
    }
    assert items[..i] == items;
  }

  /** The keys of `toMap` are exactly the keys of the items. */
  lemma {:induction false} MapOfKeys<T>(items: seq<T>, keyFn: T -> string)
    ensures MapOf(items, keyFn).Keys == set i | 0 <= i < |items| :: keyFn(items[i])
  {
    if items != [] {
      var p := items[..|items| - 1];
      MapOfKeys(p, keyFn);
      var ks := set i | 0 <= i < |items| :: keyFn(items[i]);
      var kp := set i | 0 <= i < |p| :: keyFn(p[i]);
      assert ks == kp + {keyFn(items[|items| - 1])} by {
        forall k | k in ks ensures k in kp + {keyFn(items[|items| - 1])} {
          var i :| 0 <= i < |items| && k == keyFn(items[i]);
          if i < |p| {
            assert k == keyFn(p[i]);
          }
        }
        forall k | k in kp ensures k in ks {
          var i :| 0 <= i < |p| && k == keyFn(p[i]);
          assert k == keyFn(items[i]);
        }
      }
    }
  }

  /** Under each key `toMap` holds the last item with that key. */
  lemma {:induction false} MapOfLaterWins<T>(items: seq<T>, keyFn: T -> string, k: string)
    requires k in MapOf(items, keyFn)
    ensures exists i | 0 <= i < |items| ::
      MapOf(items, keyFn)[k] == items[i] && keyFn(items[i]) == k &&
      forall j | i < j < |items| :: keyFn(items[j]) != k
  {
    var n := |items| - 1;
    var p := items[..n];
    if keyFn(items[n]) == k {
      assert MapOf(items, keyFn)[k] == items[n];
    } else {
      MapOfLaterWins(p, keyFn, k);
      var i :| 0 <= i < |p| && MapOf(p, keyFn)[k] == p[i] && keyFn(p[i]) == k &&
        forall j | i < j < |p| :: keyFn(p[j]) != k;
      assert MapOf(items, keyFn)[k] == items[i];
      assert forall j | i < j < |items| :: keyFn(items[j]) != k by {
        forall j | i < j < |items| ensures keyFn(items[j]) != k {
          if j < n {
            assert items[j] == p[j];
          }
        }
      }
    }
  }

  // ---------------------------------------------------------------------
  // distinct
  // ---------------------------------------------------------------------

  /** The items without repeats, each where it first occurs. */
  function DistinctOf<T(==)>(items: seq<T>): (r: seq<T>)
    ensures forall k | 0 <= k < |r| :: r[k] in items
    ensures forall k | 0 <= k < |items| :: items[k] in r
  {
    if items == [] then []
    else
      var p := items[..|items| - 1];
      var d := DistinctOf(p);
      assert items == p + [items[|items| - 1]];
      if items[|items| - 1] in d then d else d + [items[|items| - 1]]
  }

  /** `distinct`: an item is pushed when the result does not include it yet. */
  method Distinct<T(==)>(items: seq<T>) returns (r: seq<T>)
    ensures r == DistinctOf(items)
  {
    r := [];
    var i := 0;
    while i < |items|
      invariant 0 <= i <= |items|
      invariant r == DistinctOf(items[..i])
    {
      assert items[..i + 1][..i] == items[..i];
      if items[i] !in r {
        r := r + [items[i]];
      }
      i := i + 1;
    }
    assert items[..i] == items;
  }

  predicate NoDuplicates<T(==)>(s: seq<T>)
  {
    forall i, j | 0 <= i < j < |s| :: s[i] != s[j]
  }

  /** The output of `distinct` has no repeats. */
  lemma {:induction false} DistinctHasNoDuplicates<T>(items: seq<T>)
    ensures NoDuplicates(DistinctOf(items))
  {
    if items != [] {
      DistinctHasNoDuplicates(items[..|items| - 1]);
    }
  }

  /** The index of the first occurrence of `x` in `s`. */
  function FirstIndex<T(==)>(s: seq<T>, x: T): (i: nat)
    requires x in s
    ensures i < |s| && s[i] == x && x !in s[..i]
  {
    if s[0] == x then 0 else 1 + FirstIndex(s[1..], x)
  }

  lemma FirstIndexOfPrefix<T>(s: seq<T>, n: nat, x: T)
    requires n <= |s| && x in s[..n]
    ensures FirstIndex(s, x) == FirstIndex(s[..n], x)
  {
    var i := FirstIndex(s[..n], x);
    var j := FirstIndex(s, x);
    assert s[..n][..i] == s[..i];
    assert s[i] == x;
  }

  /** The items of `r`, all from `items`, stand in the order of their first occurrences there. */
  ghost predicate InFirstOccurrenceOrder<T>(items: seq<T>, r: seq<T>)
    requires forall k | 0 <= k < |r| :: r[k] in items
  {
    forall i, j | 0 <= i < j < |r| :: FirstIndex(items, r[i]) < FirstIndex(items, r[j])
  }

  /** `distinct` keeps the items in the order of their first occurrences. */
  lemma {:induction false} DistinctKeepsFirstOrder<T>(items: seq<T>)
    ensures InFirstOccurrenceOrder(items, DistinctOf(items))
  {
    if items != [] {
      var n := |items| - 1;
      DistinctKeepsFirstOrder(items[..n]);
      var r := DistinctOf(items);
      forall i, j | 0 <= i < j < |r| ensures FirstIndex(items, r[i]) < FirstIndex(items, r[j]) {
        DistinctPairInOrder(items, i, j);
      }
    }
  }

  /** One pair of the step: the order of `distinct` on all but the last item carries over. */
  lemma DistinctPairInOrder<T>(items: seq<T>, i: nat, j: nat)
    requires items != [] && InFirstOccurrenceOrder(items[..|items| - 1], DistinctOf(items[..|items| - 1]))
    requires i < j < |DistinctOf(items)|
    ensures FirstIndex(items, DistinctOf(items)[i]) < FirstIndex(items, DistinctOf(items)[j])
  {
    var n := |items| - 1;
    var p := items[..n];
    var d := DistinctOf(p);
    DistinctStep(items);
    assert DistinctOf(items)[i] == d[i];
    FirstIndexOfPrefix(items, n, d[i]);
    if j < |d| {
      assert DistinctOf(items)[j] == d[j];
      FirstIndexOfPrefix(items, n, d[j]);
    } else {
      assert DistinctOf(items)[j] == items[n];
      FirstIndexOfLast(items);
    }
  }

  /** `distinct` on one more item: the item is added when not seen before. */
  lemma DistinctStep<T>(items: seq<T>)
    requires items != []
    ensures var d := DistinctOf(items[..|items| - 1]);
      DistinctOf(items) == if items[|items| - 1] in d then d else d + [items[|items| - 1]]
  {
  }

  /** An item that does not occur earlier first occurs at the end. */
  lemma FirstIndexOfLast<T>(items: seq<T>)
    requires items != [] && items[|items| - 1] !in DistinctOf(items[..|items| - 1])
    ensures FirstIndex(items, items[|items| - 1]) == |items| - 1
  {
    var n := |items| - 1;
    var p := items[..n];
    forall k | 0 <= k < n ensures items[k] != items[n] {
      assert p[k] == items[k] && p[k] in DistinctOf(p);
    }
  }

  // ---------------------------------------------------------------------
  // nArray
  // ---------------------------------------------------------------------

  /** `nArray(from, to)`: the integers from `from` to `to`, both included; empty when `from > to`. */
  method NArray(first: int, last: int) returns (arr: seq<int>)
    ensures |arr| == if first > last then 0 else last - first + 1
    ensures forall k | 0 <= k < |arr| :: arr[k] == first + k
  {
    arr := [];
    var i := first;
    while i <= last
      decreases last - i
      invariant first <= i && (first <= last ==> i <= last + 1) && (first > last ==> i == first)
      invariant |arr| == i - first
      invariant forall k | 0 <= k < |arr| :: arr[k] == first + k
    {
      arr := arr + [i];
      i := i + 1;
    }
  }

  // ---------------------------------------------------------------------
  // Sorting: copy, sort, maybe reverse
  // ---------------------------------------------------------------------

  /**
   * A comparator `Array.prototype.sort` can rely on: any two items are
   * ordered one way or the other, and the order is transitive.
   */
  ghost predicate TotalPreorder<T(!new)>(cmp: (T, T) -> int)
  {
    (forall a, b :: cmp(a, b) <= 0 || cmp(b, a) <= 0) &&
    (forall a, b, c :: cmp(a, b) <= 0 && cmp(b, c) <= 0 ==> cmp(a, c) <= 0)
  }

  predicate SortedBy<T>(s: seq<T>, cmp: (T, T) -> int)
  {
    forall i, j | 0 <= i < j < |s| :: cmp(s[i], s[j]) <= 0
  }

  /** Insert `x` before the first item it does not follow. */
  function Insert<T(==)>(x: T, t: seq<T>, cmp: (T, T) -> int): (r: seq<T>)
    ensures multiset(r) == multiset(t) + multiset{x}
  {
    if t == [] || cmp(x, t[0]) <= 0 then [x] + t
    else
      assert t == [t[0]] + t[1..];
      [t[0]] + Insert(x, t[1..], cmp)
  }

  /**
   * `[...items].sort(cmp)`: a stable insertion sort on a copy. Taking the
   * items by value, it cannot change the caller's array.
   */
  function SortBy<T(==)>(s: seq<T>, cmp: (T, T) -> int): (r: seq<T>)
    ensures multiset(r) == multiset(s)
  {
    if s == [] then []
    else
      assert s == [s[0]] + s[1..];
      Insert(s[0], SortBy(s[1..], cmp), cmp)
  }

  /** Every item of an insertion is the inserted item or an item of the sequence. */
  lemma InsertItems<T>(x: T, t: seq<T>, cmp: (T, T) -> int, y: T)
    requires y in Insert(x, t, cmp)
    ensures y == x || y in t
  {
    assert y in multiset(Insert(x, t, cmp));
  }

  lemma InsertSortedFront<T(!new)>(x: T, t: seq<T>, cmp: (T, T) -> int)
    requires TotalPreorder(cmp) && SortedBy(t, cmp)
    requires t != [] && cmp(x, t[0]) <= 0
    ensures SortedBy([x] + t, cmp)
  {
    var r := [x] + t;
    forall j | 1 < j < |r| ensures cmp(x, r[j]) <= 0 {
      assert r[j] == t[j - 1];
      assert cmp(t[0], t[j - 1]) <= 0;
    }
    forall i, j | 0 < i < j < |r| ensures cmp(r[i], r[j]) <= 0 {
      assert r[i] == t[i - 1] && r[j] == t[j - 1];
    }
  }

  lemma InsertSortedLater<T(!new)>(x: T, t: seq<T>, cmp: (T, T) -> int)
    requires TotalPreorder(cmp) && SortedBy(t, cmp)
    requires t != [] && cmp(x, t[0]) > 0
    requires SortedBy(Insert(x, t[1..], cmp), cmp)
    ensures SortedBy([t[0]] + Insert(x, t[1..], cmp), cmp)
  {
    var rest := Insert(x, t[1..], cmp);
    var tail := t[1..];
    assert cmp(t[0], x) <= 0;
    assert forall k | 0 <= k < |tail| :: cmp(t[0], tail[k]) <= 0 by {
      forall k | 0 <= k < |tail| ensures cmp(t[0], tail[k]) <= 0 {
        assert tail[k] == t[k + 1];
      }
    }
    forall k | 0 <= k < |rest| ensures cmp(t[0], rest[k]) <= 0 {
      BelowInsert(t[0], x, tail, cmp, rest[k]);
    }
    SortedCons(t[0], rest, cmp);
  }

  /** A bound below `x` and below every item of `t` is below every item of the insertion. */
  lemma BelowInsert<T(!new)>(h: T, x: T, t: seq<T>, cmp: (T, T) -> int, z: T)
    requires cmp(h, x) <= 0 && forall k | 0 <= k < |t| :: cmp(h, t[k]) <= 0
    requires z in Insert(x, t, cmp)
    ensures cmp(h, z) <= 0
  {
    InsertItems(x, t, cmp, z);
    if z != x {
      var k :| 0 <= k < |t| && t[k] == z;
    }
  }

  lemma SortedCons<T>(h: T, rest: seq<T>, cmp: (T, T) -> int)
    requires SortedBy(rest, cmp) && forall k | 0 <= k < |rest| :: cmp(h, rest[k]) <= 0
    ensures SortedBy([h] + rest, cmp)
  {
    var r := [h] + rest;
    forall i, j | 0 <= i < j < |r| ensures cmp(r[i], r[j]) <= 0 {
      assert r[j] == rest[j - 1];
      if i > 0 {
        assert r[i] == rest[i - 1];
      }
    }
  }

  lemma {:induction false} InsertSorted<T(!new)>(x: T, t: seq<T>, cmp: (T, T) -> int)
    requires TotalPreorder(cmp) && SortedBy(t, cmp)
    ensures SortedBy(Insert(x, t, cmp), cmp)
  {
    if t != [] {
      if cmp(x, t[0]) <= 0 {
        InsertSortedFront(x, t, cmp);
      } else {
        assert SortedBy(t[1..], cmp);
        InsertSorted(x, t[1..], cmp);
        InsertSortedLater(x, t, cmp);
      }
    }
  }

  /** With a consistent comparator the sorted copy is in order. */
  lemma {:induction false} SortBySorted<T(!new)>(s: seq<T>, cmp: (T, T) -> int)
    requires TotalPreorder(cmp)
    ensures SortedBy(SortBy(s, cmp), cmp)
  {
    if s != [] {
      SortBySorted(s[1..], cmp);
      InsertSorted(s[0], SortBy(s[1..], cmp), cmp);
    }
  }

  /** Reversing a sorted sequence orders it the other way round. */
  lemma ReverseSorted<T>(s: seq<T>, cmp: (T, T) -> int)
    requires SortedBy(s, cmp)
    ensures forall i, j | 0 <= i < j < |s| :: cmp(Reverse(s)[j], Reverse(s)[i]) <= 0
  {
  }

  /** The comparator `(a, b) => a - b`, by its sign. */
  function NumberOrder(a: real, b: real): int
  {
    if a < b then -1 else if a == b then 0 else 1
  }

  lemma NumberOrderIsTotalPreorder()
    ensures TotalPreorder(NumberOrder)
  {
  }

  /**
   * `sortNumerically` on finite numbers: a sorted copy, non-decreasing,
   * or non-increasing when `descending` (the ascending copy reversed).
   */
  function SortNumerically(items: seq<real>, descending: bool): (r: seq<real>)
    ensures multiset(r) == multiset(items)
    ensures !descending ==> forall i, j | 0 <= i < j < |r| :: r[i] <= r[j]
    ensures descending ==> forall i, j | 0 <= i < j < |r| :: r[i] >= r[j]
  {
    var sorted := SortBy(items, NumberOrder);
    NumberOrderIsTotalPreorder();
    SortBySorted(items, NumberOrder);
    if descending then
      ReverseSorted(sorted, NumberOrder);
      assert multiset(Reverse(sorted)) == multiset(sorted) by {
        ReversePermutes(sorted);
      }
      Reverse(sorted)
    else sorted
  }

  lemma {:induction false} ReversePermutes<T>(s: seq<T>)
    ensures multiset(Reverse(s)) == multiset(s)
  {
    if s != [] {
      ReversePermutes(s[1..]);
      assert s == [s[0]] + s[1..];
    }
  }

  /** The comparator of `sortAlphabetically`: `compareStr`. */
  function AlphaOrder(h: Host): (string, string) -> int
  {
    (a: string, b: string) => CompareStr(h, Some(a), Some(b))
  }

  /**
   * `sortAlphabetically`: a copy sorted by `compareStr`, reversed when
   * `descending`; always a permutation of the input.
   */
  function SortAlphabetically(h: Host, items: seq<string>, descending: bool): (r: seq<string>)
    ensures multiset(r) == multiset(items)
  {
    var sorted := SortBy(items, AlphaOrder(h));
    ReversePermutes(sorted);
    if descending then Reverse(sorted) else sorted
  }

  /** When the host's case-insensitive comparison is a consistent order, the copy is in that order. */
  lemma SortAlphabeticallySorted(h: Host, items: seq<string>)
    requires TotalPreorder(AlphaOrder(h))
    ensures SortedBy(SortAlphabetically(h, items, false), AlphaOrder(h))
    ensures var r := SortAlphabetically(h, items, true);
      forall i, j | 0 <= i < j < |r| :: AlphaOrder(h)(r[j], r[i]) <= 0
  {
    SortBySorted(items, AlphaOrder(h));
    ReverseSorted(SortBy(items, AlphaOrder(h)), AlphaOrder(h));
  }

  /** The descending copy is the ascending one reversed, ties included. */
  lemma SortAlphabeticallyDescending(h: Host, items: seq<string>)
    ensures SortAlphabetically(h, items, true) == Reverse(SortAlphabetically(h, items, false))
    ensures multiset(SortAlphabetically(h, items, true)) == multiset(items)
  {
  }

  /** `sortByDate`: its sorting is commented out; the argument comes back as it is. */
  function SortByDate<T>(items: seq<T>, descending: bool): (r: seq<T>)
    ensures r == items
  {
    items
  }

  /** The comparator of `sortByKeyValue`: `sortFn` on the two items' values under `key`. */
  function KeyOrder(key: string, sortFn: (Value, Value) -> int): (Value, Value) -> int
  {
    (a: Value, b: Value) => sortFn(Get(a, key), Get(b, key))
  }

  predicate AllObjects(items: seq<Value>)
  {
    forall k | 0 <= k < |items| :: IsObject(items[k])
  }

  /**
   * `sortByKeyValue`: the input itself when some item is no object;
   * otherwise a copy sorted by the values under `key`, reversed when
   * `descending`.
   */
  function SortByKeyValue(items: seq<Value>, key: string, descending: bool, sortFn: (Value, Value) -> int): (r: seq<Value>)
    ensures !AllObjects(items) ==> r == items
    ensures multiset(r) == multiset(items)
  {
    if !AllObjects(items) then items
    else
      var sorted := SortBy(items, KeyOrder(key, sortFn));
      ReversePermutes(sorted);
      if descending then Reverse(sorted) else sorted
  }

  /**
   * With a consistent `sortFn`, the ascending copy is ordered by the values
   * under `key`, and the descending copy in the opposite order.
   */
  lemma SortByKeyValueSorted(items: seq<Value>, key: string, sortFn: (Value, Value) -> int)
    requires AllObjects(items) && TotalPreorder(sortFn)
    ensures var r := SortByKeyValue(items, key, false, sortFn);
      forall i, j | 0 <= i < j < |r| :: sortFn(Get(r[i], key), Get(r[j], key)) <= 0
    ensures var r := SortByKeyValue(items, key, true, sortFn);
      forall i, j | 0 <= i < j < |r| :: sortFn(Get(r[j], key), Get(r[i], key)) <= 0
  {
    var cmp := KeyOrder(key, sortFn);
    assert TotalPreorder(cmp) by {
      forall a, b, c | cmp(a, b) <= 0 && cmp(b, c) <= 0 ensures cmp(a, c) <= 0 {
        assert sortFn(Get(a, key), Get(b, key)) <= 0 && sortFn(Get(b, key), Get(c, key)) <= 0;
      }
      forall a, b ensures cmp(a, b) <= 0 || cmp(b, a) <= 0 {
        assert sortFn(Get(a, key), Get(b, key)) <= 0 || sortFn(Get(b, key), Get(a, key)) <= 0;
      }
    }
    SortBySorted(items, cmp);
    ReverseSorted(SortBy(items, cmp), cmp);
  }

  /** On objects, the descending copy is the ascending one reversed, ties included. */
  lemma SortByKeyValueDescending(items: seq<Value>, key: string, sortFn: (Value, Value) -> int)
    requires AllObjects(items)
    ensures SortByKeyValue(items, key, true, sortFn) == Reverse(SortByKeyValue(items, key, false, sortFn))
  {
  }

  // ---------------------------------------------------------------------
  // pop, lastItem, sum
  // ---------------------------------------------------------------------

  /** `pop`: the last item, left in place, or undefined for an empty array. */
  function Pop(items: seq<Value>): (r: Value)
    ensures items == [] ==> r == Undefined
    ensures items != [] ==> r == items[|items| - 1]
  {
    if |items| == 0 then Undefined else items[|items| - 1]
  }

  /** `lastItem`: `items[items.length - 1] ?? null`. */
  function LastItem(items: seq<Value>): (r: Value)
    ensures r.Undefined? == false
    ensures items != [] && !items[|items| - 1].Null? && !items[|items| - 1].Undefined? ==> r == items[|items| - 1]
  {
    if items == [] || items[|items| - 1].Null? || items[|items| - 1].Undefined? then Null
    else items[|items| - 1]
  }

  /** `lastItem` is `pop` with undefined and null both read as null. */
  lemma LastItemIsPop(items: seq<Value>)
    ensures LastItem(items) == if Pop(items).Undefined? || Pop(items).Null? then Null else Pop(items)
  {
  }

  /** `sum`: `reduce((acc, val) => acc + val, 0)`, a left fold. */
  function Sum(items: seq<real>): (r: real)
    ensures items == [] ==> r == 0.0
    ensures (forall k | 0 <= k < |items| :: 0.0 <= items[k]) ==> 0.0 <= r && forall k | 0 <= k < |items| :: items[k] <= r
  {
    if items == [] then 0.0 else Sum(items[..|items| - 1]) + items[|items| - 1]
  }

  /** The same sum folded from the right. */
  function SumRight(items: seq<real>): real
  {
    if items == [] then 0.0 else items[0] + SumRight(items[1..])
  }

  lemma {:induction false} SumAppend(a: seq<real>, b: seq<real>)
    ensures Sum(a + b) == Sum(a) + Sum(b)
    decreases |b|
  {
    if b == [] {
      assert a + b == a;
    } else {
      var n := |b| - 1;
      assert (a + b)[..|a + b| - 1] == a + b[..n];
      SumAppend(a, b[..n]);
    }
  }

  /** Over exact numbers the left fold equals the right fold. */
  lemma {:induction false} SumIsSumRight(items: seq<real>)
    ensures Sum(items) == SumRight(items)
  {
    if items != [] {
      SumIsSumRight(items[1..]);
      SumAppend([items[0]], items[1..]);
      assert [items[0]] + items[1..] == items;
      assert Sum([items[0]]) == items[0] by {
        assert [items[0]][..0] == [];
      }
    }
  }

  // ---------------------------------------------------------------------
  // toggleArrayValue
  // ---------------------------------------------------------------------

  /**
   * `toggleArrayValue`: an absent value is appended; otherwise the item at
   * `arr.indexOf(value)` is filtered out.
   */
  function ToggleArrayValue<T(==)>(arr: seq<T>, value: T): (r: seq<T>)
    ensures value !in arr ==> r == arr + [value]
    ensures value in arr ==>
      var i := FirstIndex(arr, value);
      r == arr[..i] + arr[i + 1..] && multiset(r) == multiset(arr) - multiset{value}
  {
    if value !in arr then arr + [value]
    else
      var index := FirstIndex(arr, value);
      assert arr == arr[..index] + [value] + arr[index + 1..];
      seq(|arr| - 1, k requires 0 <= k < |arr| - 1 => if k < index then arr[k] else arr[k + 1])
  }

  /** Toggling an absent value twice gives the arr back. */
  lemma ToggleTwiceAbsent<T>(arr: seq<T>, value: T)
    requires value !in arr
    ensures ToggleArrayValue(ToggleArrayValue(arr, value), value) == arr
  {
    var t := arr + [value];
    assert FirstIndex(t, value) == |arr| by {
      assert t[|arr|] == value;
      assert t[..|arr|] == arr;
    }
    assert t[..|arr|] == arr;
  }

  /** Toggling a value held once twice moves it to the end. */
  lemma ToggleTwicePresent<T>(arr: seq<T>, value: T)
    requires value in arr && multiset(arr)[value] == 1
    ensures var i := FirstIndex(arr, value);
      ToggleArrayValue(ToggleArrayValue(arr, value), value) == arr[..i] + arr[i + 1..] + [value]
  {
    ToggleRemovesSoleCopy(arr, value);
  }

  /** Removing the only copy of a value leaves none. */
  lemma ToggleRemovesSoleCopy<T>(arr: seq<T>, value: T)
    requires value in arr && multiset(arr)[value] == 1
    ensures value !in ToggleArrayValue(arr, value)
  {
    var t := ToggleArrayValue(arr, value);
    assert multiset(t)[value] == 0;
    AbsentFromMultiset(t, value);
  }

  lemma AbsentFromMultiset<T>(s: seq<T>, x: T)
    requires multiset(s)[x] == 0
    ensures x !in s
  {
    assert x !in multiset(s);
  }

  // ---------------------------------------------------------------------
  // randomItem
  // ---------------------------------------------------------------------

  const EmptyArrayMessage: string := "Cannot get random item from empty array"

  /**
   * `randomItem`, with `Math.random()` as the parameter `u` in [0, 1): an
   * Error on an empty array, otherwise the item at `floor(u * length)`.
   */
  function RandomItem<T>(items: seq<T>, u: real): (r: Outcome<T>)
    requires 0.0 <= u < 1.0
    ensures items == [] <==> r == Threw(Error(EmptyArrayMessage))
    ensures r.Ok? ==> r.value in items
  {
    if |items| == 0 then Threw(Error(EmptyArrayMessage))
    else
      var n := |items| as real;
      assert n - u * n == (1.0 - u) * n;
      assert (1.0 - u) * n > 0.0;
      var k := (u * n).Floor;
      assert 0 <= k < |items|;
      Ok(items[k])
  }
}
