/** Python's `sorted(xs, key=...)` as a stable insertion sort under a total preorder on the keys. */
module Sorting {

  ghost predicate TotalPreorder<T(!new)>(le: (T, T) -> bool) {
    && (forall a, b :: le(a, b) || le(b, a))
    && (forall a, b, c :: le(a, b) && le(b, c) ==> le(a, c))
  }

  predicate SortedBy<T>(s: seq<T>, le: (T, T) -> bool) {
    forall i, j :: 0 <= i < j < |s| ==> le(s[i], s[j])
  }

  /** Inserts `x` after every leading entry that is not greater, which keeps equal keys in arrival order. */
  function InsertBy<T>(x: T, s: seq<T>, le: (T, T) -> bool): (r: seq<T>)
    ensures multiset(r) == multiset(s) + multiset{x}
  {
    if s == [] then [x]
    else if le(s[0], x) then
      assert s == [s[0]] + s[1..];
      [s[0]] + InsertBy(x, s[1..], le)
    else [x] + s
  }

  function SortBy<T>(s: seq<T>, le: (T, T) -> bool): (r: seq<T>)
    ensures multiset(r) == multiset(s)
  {
    if s == [] then []
    else
      assert s == s[..|s| - 1] + [s[|s| - 1]];
      InsertBy(s[|s| - 1], SortBy(s[..|s| - 1], le), le)
  }

  lemma {:induction false} InsertBySorted<T(!new)>(x: T, s: seq<T>, le: (T, T) -> bool)
    requires TotalPreorder(le) && SortedBy(s, le)
    ensures SortedBy(InsertBy(x, s, le), le)
  {
    if s != [] && le(s[0], x) {
      var t := s[1..];
      assert SortedBy(t, le);
      InsertBySorted(x, t, le);
      var r := InsertBy(x, t, le);
      assert multiset(r) == multiset(t) + multiset{x};
      forall y | y in r ensures le(s[0], y) {
        assert y in multiset(r);
        if y != x {
          assert y in multiset(t);
          assert y in t;
        }
      }
    }
  }

  /** The sorted list is ordered by `le` and is a permutation of its input. */
  lemma {:induction false} SortBySorted<T(!new)>(s: seq<T>, le: (T, T) -> bool)
    requires TotalPreorder(le)
    ensures SortedBy(SortBy(s, le), le)
    ensures multiset(SortBy(s, le)) == multiset(s)
  {
    if s != [] {
      SortBySorted(s[..|s| - 1], le);
      InsertBySorted(s[|s| - 1], SortBy(s[..|s| - 1], le), le);
    }
  }
}
