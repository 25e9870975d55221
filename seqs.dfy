/** Facts about sequences used as Python lists: distinctness, membership counts, positions. */
module Seqs {

  /** The set of elements of a list (Python's `set(xs)`). */
  function Elems<T>(s: seq<T>): set<T> {
    set x | x in s
  }

  /** No element occurs twice. */
  predicate Distinct<T(==)>(s: seq<T>) {
    forall i, j :: 0 <= i < j < |s| ==> s[i] != s[j]
  }

  /** The first position of `x` in `s` (Python's `s.index(x)`). */
  function IndexOf<T(==)>(s: seq<T>, x: T): (i: nat)
    requires x in s
    ensures i < |s| && s[i] == x
    ensures forall j :: 0 <= j < i ==> s[j] != x
  {
    if s[0] == x then 0 else 1 + IndexOf(s[1..], x)
  }

  /** How many entries of `s` equal `x` (Python's `s.count(x)`). */
  function Count<T(==)>(s: seq<T>, x: T): (n: nat)
    ensures n <= |s|
    ensures n == 0 <==> x !in s
  {
    if s == [] then 0
    else Count(s[..|s| - 1], x) + (if s[|s| - 1] == x then 1 else 0)
  }

  /** Extending a prefix by one entry adds one to the count of that entry only. */
  lemma CountSnoc<T>(s: seq<T>, j: nat)
    requires j < |s|
    ensures forall x :: Count(s[..j + 1], x) == Count(s[..j], x) + (if s[j] == x then 1 else 0)
  {
    assert s[..j + 1][..j] == s[..j];
  }

  /** `n` copies of `x`. */
  function Repeat<T>(x: T, n: nat): (r: seq<T>)
    ensures |r| == n
    ensures forall i :: 0 <= i < n ==> r[i] == x
  {
    if n == 0 then [] else Repeat(x, n - 1) + [x]
  }

  /** `a` can be obtained from `b` by deleting entries, keeping the order of the rest. */
  ghost predicate IsSubsequence<T>(a: seq<T>, b: seq<T>)
    decreases |b|
  {
    if a == [] then true
    else if b == [] then false
    else if a[|a| - 1] == b[|b| - 1] then IsSubsequence(a[..|a| - 1], b[..|b| - 1])
    else IsSubsequence(a, b[..|b| - 1])
  }

  /** A subset has at most as many elements, and one of equal size is the whole set. */
  lemma SubsetCard<T>(a: set<T>, b: set<T>)
    requires a <= b
    ensures |a| <= |b|
    ensures |a| == |b| ==> a == b
  {
    assert b == a + (b - a);
    assert a * (b - a) == {};
    if |a| == |b| {
      assert |b - a| == 0;
    }
  }

  /** A list without repeats has as many elements as its element set. */
  lemma {:induction false} DistinctCard<T>(s: seq<T>)
    requires Distinct(s)
    ensures |Elems(s)| == |s|
  {
    if s != [] {
      var p := s[..|s| - 1];
      assert Distinct(p);
      DistinctCard(p);
      assert Elems(s) == Elems(p) + {s[|s| - 1]};
      assert s[|s| - 1] !in Elems(p);
    }
  }

  /** A list without repeats drawn from a set is no longer than the set, and covers it exactly when
      it is as long. */
  lemma DistinctWithin<T>(s: seq<T>, u: set<T>)
    requires Distinct(s) && Elems(s) <= u
    ensures |s| <= |u|
    ensures |s| == |u| ==> Elems(s) == u
  {
    DistinctCard(s);
    SubsetCard(Elems(s), u);
  }

  /** Each entry once, at its first occurrence (the key order of a dictionary filled from `s`). */
  function Dedup<T(==)>(s: seq<T>): (r: seq<T>)
    ensures Distinct(r) && Elems(r) == Elems(s)
  {
    if s == [] then []
    else
      var p := s[..|s| - 1];
      var x := s[|s| - 1];
      var q := Dedup(p);
      assert Elems(s) == Elems(p) + {x} by {
        assert s == p + [x];
      }
      if x in q then q else q + [x]
  }

  /** `r` lists entries of `s` in the order of their first occurrence in `s`. */
  ghost predicate FirstOccurrenceOrder<T>(r: seq<T>, s: seq<T>) {
    && (forall x :: x in r ==> x in s)
    && forall i, j :: 0 <= i < j < |r| ==> r[i] in s && r[j] in s && IndexOf(s, r[i]) < IndexOf(s, r[j])
  }

  /** Appending to a list does not move the first occurrence of an entry already in it. */
  lemma {:induction false} IndexOfSnoc<T>(p: seq<T>, x: T, y: T)
    requires y in p
    ensures IndexOf(p + [x], y) == IndexOf(p, y)
  {
    if p[0] != y {
      assert (p + [x])[1..] == p[1..] + [x];
      IndexOfSnoc(p[1..], x, y);
    }
  }

  /** `Dedup` keeps the entries in the order of their first occurrence. */
  lemma {:induction false} DedupOrder<T>(s: seq<T>)
    ensures FirstOccurrenceOrder(Dedup(s), s)
  {
    if s != [] {
      var p := s[..|s| - 1];
      var x := s[|s| - 1];
      var q := Dedup(p);
      assert s == p + [x];
      DedupOrder(p);
      var r := Dedup(s);
      assert r == if x in q then q else q + [x];
      forall y | y in p ensures y in s && IndexOf(s, y) == IndexOf(p, y) {
        IndexOfSnoc(p, x, y);
      }
      if x !in q {
        assert x !in p by {
          assert x in Elems(q) <==> x in q;
          assert x in Elems(p) <==> x in p;
        }
        assert IndexOf(s, x) == |p|;
        forall i, j | 0 <= i < j < |r| ensures r[i] in s && r[j] in s && IndexOf(s, r[i]) < IndexOf(s, r[j]) {
          assert r[i] == q[i] && r[i] in Elems(q);
          if j < |q| {
            assert r[j] == q[j];
          }
        }
      }
    }
  }

  /** Taking one more element of `u` out of consideration shrinks what is left. */
  lemma RemoveCard<T>(u: set<T>, t: set<T>, x: T)
    requires x in u && x !in t
    ensures |u - (t + {x})| < |u - t|
  {
    assert u - t == (u - (t + {x})) + {x};
  }

  /** A list has no repeats exactly when every entry counts at most once. */
  lemma {:induction false} DistinctCount<T>(s: seq<T>)
    ensures Distinct(s) <==> forall x :: Count(s, x) <= 1
  {
    if s == [] {
      assert forall x :: Count(s, x) == 0;
    } else {
      var p := s[..|s| - 1];
      var y := s[|s| - 1];
      assert s == p + [y];
      DistinctCount(p);
      assert forall x :: Count(s, x) == Count(p, x) + (if y == x then 1 else 0);
      if Distinct(s) {
        assert Distinct(p) by {
          forall i, j | 0 <= i < j < |p| ensures p[i] != p[j] {
            assert p[i] == s[i] && p[j] == s[j];
          }
        }
        assert y !in p by {
          forall i | 0 <= i < |p| ensures p[i] != y {
            assert p[i] == s[i];
          }
        }
        assert Count(p, y) == 0;
        forall x ensures Count(s, x) <= 1 {
          assert Count(p, x) <= 1;
        }
      } else {
        var i, j :| 0 <= i < j < |s| && s[i] == s[j];
        if j < |p| {
          assert p[i] == p[j];
          var x :| Count(p, x) > 1;
          assert Count(s, x) > 1;
          assert !(forall z :: Count(s, z) <= 1);
        } else {
          assert p[i] == y && y in p;
          assert Count(s, y) > 1;
          assert !(forall z :: Count(s, z) <= 1);
        }
      }
    }
  }

  /** A list without repeats holds each element once. */
  lemma {:induction false} DistinctMultiplicity<T>(s: seq<T>, x: T)
    requires Distinct(s)
    ensures multiset(s)[x] <= 1
  {
    if s != [] {
      var p := s[..|s| - 1];
      assert s == p + [s[|s| - 1]];
      assert Distinct(p);
      DistinctMultiplicity(p, x);
      if s[|s| - 1] == x {
        assert x !in p;
      }
    }
  }

  /** A rearrangement of a list without repeats has no repeats and the same elements. */
  lemma PermutationDistinct<T>(s: seq<T>, r: seq<T>)
    requires Distinct(s) && multiset(r) == multiset(s)
    ensures Distinct(r) && Elems(r) == Elems(s)
  {
    forall i, j | 0 <= i < j < |r| ensures r[i] != r[j] {
      if r[i] == r[j] {
        assert r == r[..i] + [r[i]] + r[i + 1..j] + [r[j]] + r[j + 1..];
        assert multiset(r)[r[i]] >= 2;
        DistinctMultiplicity(s, r[i]);
      }
    }
    forall x ensures x in r <==> x in s {
      assert x in r <==> x in multiset(r);
      assert x in s <==> x in multiset(s);
    }
  }

  lemma EmptyElems<T>(s: seq<T>)
    ensures s == [] <==> Elems(s) == {}
  {
    if s != [] {
      assert s[0] in Elems(s);
    }
  }
}
