/** Stable sorting by an integer key, as `sorted(values, key=...)` does it. */
module KeyedSort {

  function Insert<T>(value: T, sorted: seq<T>, key: T -> int): (r: seq<T>)
    ensures multiset(r) == multiset{value} + multiset(sorted)
  {
    if sorted == [] || key(value) <= key(sorted[0]) then
      [value] + sorted
    else
      assert sorted == [sorted[0]] + sorted[1..];
      [sorted[0]] + Insert(value, sorted[1..], key)
  }

  function SortBy<T>(values: seq<T>, key: T -> int): (r: seq<T>)
    ensures multiset(r) == multiset(values)
  {
    if values == [] then []
    else
      assert values == [values[0]] + values[1..];
      Insert(values[0], SortBy(values[1..], key), key)
  }

  ghost predicate Ascending<T>(values: seq<T>, key: T -> int) {
    forall j, k | 0 <= j < k < |values| :: key(values[j]) <= key(values[k])
  }

  ghost predicate Increasing<T>(values: seq<T>, key: T -> int) {
    forall j, k | 0 <= j < k < |values| :: key(values[j]) < key(values[k])
  }

  lemma {:induction false} InsertAscending<T>(value: T, sorted: seq<T>, key: T -> int)
    requires Ascending(sorted, key)
    ensures Ascending(Insert(value, sorted, key), key)
  {
    if sorted != [] && key(value) > key(sorted[0]) {
      var rest := Insert(value, sorted[1..], key);
      InsertAscending(value, sorted[1..], key);
      forall k | 0 <= k < |rest|
        ensures key(sorted[0]) <= key(rest[k])
      {
        assert rest[k] in multiset(rest);
        assert rest[k] == value || rest[k] in sorted[1..];
      }
    }
  }

  lemma {:induction false} SortAscending<T>(values: seq<T>, key: T -> int)
    ensures Ascending(SortBy(values, key), key)
  {
    if values != [] {
      SortAscending(values[1..], key);
      InsertAscending(values[0], SortBy(values[1..], key), key);
    }
  }

  lemma SameLength<T>(a: seq<T>, b: seq<T>)
    requires multiset(a) == multiset(b)
    ensures |a| == |b|
  {
    assert |multiset(a)| == |a| && |multiset(b)| == |b|;
  }

  lemma MultisetTail<T>(a: seq<T>)
    requires a != []
    ensures multiset(a[1..]) == multiset(a) - multiset{a[0]}
  {
    assert a == [a[0]] + a[1..];
  }

  lemma SameHead<T>(a: seq<T>, b: seq<T>, key: T -> int)
    requires a != [] && Increasing(a, key) && Ascending(b, key) && multiset(a) == multiset(b)
    ensures b != [] && a[0] == b[0]
  {
    SameLength(a, b);
    assert a[0] in multiset(b) && b[0] in multiset(a);
    var j :| 0 <= j < |b| && b[j] == a[0];
    var k :| 0 <= k < |a| && a[k] == b[0];
  }

  /** With distinct keys there is one ascending order only. */
  lemma {:induction false} OneOrder<T>(a: seq<T>, b: seq<T>, key: T -> int)
    requires Increasing(a, key) && Ascending(b, key) && multiset(a) == multiset(b)
    ensures a == b
    decreases |a|
  {
    SameLength(a, b);
    if a != [] {
      SameHead(a, b, key);
      MultisetTail(a);
      MultisetTail(b);
      OneOrder(a[1..], b[1..], key);
    }
  }

  /** Values that already ascend strictly are what sorting any permutation of them gives. */
  lemma {:induction false} SortIs<T>(values: seq<T>, expected: seq<T>, key: T -> int)
    requires Increasing(expected, key) && multiset(values) == multiset(expected)
    ensures SortBy(values, key) == expected
  {
    SortAscending(values, key);
    OneOrder(expected, SortBy(values, key), key);
  }

  lemma ConcatAssociative<T>(a: seq<T>, b: seq<T>, c: seq<T>)
    ensures (a + b) + c == a + (b + c)
  {
  }

  lemma IncreasingConcat<T>(low: seq<T>, high: seq<T>, key: T -> int, mid: int)
    requires Increasing(low, key) && Increasing(high, key)
    requires forall j | 0 <= j < |low| :: key(low[j]) < mid
    requires forall j | 0 <= j < |high| :: mid <= key(high[j])
    ensures Increasing(low + high, key)
  {
  }

  /** Values whose keys exceed all others go to the end, wherever they were before. */
  lemma {:induction false} SortAppend<T>(low: seq<T>, high: seq<T>, all: seq<T>, key: T -> int, mid: int)
    requires Increasing(SortBy(low, key), key) && Increasing(high, key)
    requires forall j | 0 <= j < |SortBy(low, key)| :: key(SortBy(low, key)[j]) < mid
    requires forall j | 0 <= j < |high| :: mid <= key(high[j])
    requires multiset(all) == multiset(low) + multiset(high)
    ensures SortBy(all, key) == SortBy(low, key) + high
    ensures Increasing(SortBy(all, key), key)
  {
    var sorted := SortBy(low, key);
    IncreasingConcat(sorted, high, key, mid);
    SortIs(all, sorted + high, key);
  }

  ghost predicate DistinctKeys<T>(values: seq<T>, key: T -> int) {
    forall j, k | 0 <= j < k < |values| :: key(values[j]) != key(values[k])
  }

  lemma {:induction false} InsertIncreasing<T>(value: T, sorted: seq<T>, key: T -> int)
    requires Increasing(sorted, key) && forall k | 0 <= k < |sorted| :: key(value) != key(sorted[k])
    ensures Increasing(Insert(value, sorted, key), key)
  {
    if sorted != [] && key(value) > key(sorted[0]) {
      var rest := Insert(value, sorted[1..], key);
      InsertIncreasing(value, sorted[1..], key);
      forall k | 0 <= k < |rest|
        ensures key(sorted[0]) < key(rest[k])
      {
        assert rest[k] in multiset(rest);
        assert rest[k] == value || rest[k] in sorted[1..];
      }
    }
  }

  /** Values with distinct keys are sorted strictly. */
  lemma {:induction false} SortIncreasing<T>(values: seq<T>, key: T -> int)
    requires DistinctKeys(values, key)
    ensures Increasing(SortBy(values, key), key)
  {
    if values != [] {
      SortIncreasing(values[1..], key);
      var rest := SortBy(values[1..], key);
      forall k | 0 <= k < |rest|
        ensures key(values[0]) != key(rest[k])
      {
        assert rest[k] in multiset(rest);
        assert rest[k] in values[1..];
      }
      InsertIncreasing(values[0], rest, key);
    }
  }

  lemma {:induction false} SameMembers<T>(values: seq<T>, key: T -> int)
    ensures |SortBy(values, key)| == |values|
    ensures forall x :: x in SortBy(values, key) <==> x in values
  {
    SameLength(SortBy(values, key), values);
    forall x
      ensures x in SortBy(values, key) <==> x in values
    {
      assert x in SortBy(values, key) <==> x in multiset(SortBy(values, key));
      assert x in values <==> x in multiset(values);
    }
  }
}
