/** Python's `sorted` with a key: ascending, and stable for equal keys. */
module StableSort {

  /** `before(a, b)`: the key of `a` is less than the key of `b`. */
  type Before<!T> = (T, T) -> bool

  ghost predicate IsKeyOrder<T(!new)>(before: Before<T>) {
    && (forall a, b :: before(a, b) ==> !before(b, a))
    && (forall a, b, c :: !before(b, a) && !before(c, b) ==> !before(c, a))
  }

  function Insert<T>(x: T, sorted: seq<T>, before: Before<T>): seq<T> {
    if sorted == [] || before(x, sorted[0]) then [x] + sorted
    else [sorted[0]] + Insert(x, sorted[1..], before)
  }

  function Sorted<T>(s: seq<T>, before: Before<T>): seq<T> {
    if s == [] then [] else Insert(s[|s| - 1], Sorted(s[..|s| - 1], before), before)
  }

  ghost predicate Ascending<T>(s: seq<T>, before: Before<T>) {
    forall i, j :: 0 <= i < j < |s| ==> !before(s[j], s[i])
  }

  lemma {:induction false} InsertKeeps<T>(x: T, sorted: seq<T>, before: Before<T>)
    ensures multiset(Insert(x, sorted, before)) == multiset(sorted) + multiset{x}
  {
    if sorted != [] && !before(x, sorted[0]) {
      assert sorted == [sorted[0]] + sorted[1..];
      InsertKeeps(x, sorted[1..], before);
    }
  }

  lemma {:induction false} InsertSorts<T(!new)>(x: T, sorted: seq<T>, before: Before<T>)
    requires IsKeyOrder(before) && Ascending(sorted, before)
    ensures Ascending(Insert(x, sorted, before), before)
  {
    if sorted == [] {
    } else if before(x, sorted[0]) {
      forall j | 0 <= j < |sorted|
        ensures !before(sorted[j], x)
      {
        assert !before(sorted[0], x);
        assert j > 0 ==> !before(sorted[j], sorted[0]);
      }
    } else {
      var tail := sorted[1..];
      InsertSorts(x, tail, before);
      InsertKeeps(x, tail, before);
      var rest := Insert(x, tail, before);
      forall j | 0 <= j < |rest|
        ensures !before(rest[j], sorted[0])
      {
        assert rest[j] in multiset(tail) + multiset{x};
      }
    }
  }

  lemma {:induction false} SortedIsSorted<T(!new)>(s: seq<T>, before: Before<T>)
    requires IsKeyOrder(before)
    ensures Ascending(Sorted(s, before), before) && multiset(Sorted(s, before)) == multiset(s)
    ensures |Sorted(s, before)| == |s|
  {
    if s != [] {
      var init, last := s[..|s| - 1], s[|s| - 1];
      assert s == init + [last];
      SortedIsSorted(init, before);
      InsertSorts(last, Sorted(init, before), before);
      InsertKeeps(last, Sorted(init, before), before);
    }
    assert |Sorted(s, before)| == |multiset(Sorted(s, before))| == |multiset(s)| == |s|;
  }

  /** What is in order already stays as it is. */
  lemma {:induction false} SortedLeavesAscending<T>(s: seq<T>, before: Before<T>)
    requires Ascending(s, before)
    ensures Sorted(s, before) == s
  {
    if s != [] {
      SortedLeavesAscending(s[..|s| - 1], before);
      InsertAtEnd(s[|s| - 1], s[..|s| - 1], before);
    }
  }

  lemma {:induction false} InsertAtEnd<T>(x: T, sorted: seq<T>, before: Before<T>)
    requires Ascending(sorted + [x], before)
    ensures Insert(x, sorted, before) == sorted + [x]
  {
    if sorted != [] {
      assert (sorted + [x])[0] == sorted[0] && (sorted + [x])[|sorted|] == x;
      assert sorted[1..] + [x] == (sorted + [x])[1..];
      InsertAtEnd(x, sorted[1..], before);
    }
  }
}
