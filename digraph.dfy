/** Cycles in a relation given as a set of pairs `(u, v)`, read "u depends on v". */
module Digraph {
  import opened Seqs

  type Edges = set<(string, string)>

  /** Every consecutive pair of `p` is an edge. */
  ghost predicate IsPath(p: seq<string>, e: Edges) {
    forall i :: 0 <= i < |p| - 1 ==> (p[i], p[i + 1]) in e
  }

  /** A closed walk: at least two entries, the same id first and last, every step an edge. */
  ghost predicate IsCycle(c: seq<string>, e: Edges) {
    |c| >= 2 && c[0] == c[|c| - 1] && IsPath(c, e)
  }

  ghost predicate HasCycle(e: Edges) {
    exists c :: IsCycle(c, e)
  }

  /** A cycle takes at least one edge. */
  lemma CycleNeedsEdge(e: Edges)
    ensures HasCycle(e) ==> e != {}
  {
    if HasCycle(e) {
      var c :| IsCycle(c, e);
      assert (c[0], c[1]) in e;
    }
  }

  /** The nodes `u` has an edge to. */
  ghost function Successors(u: string, e: Edges): set<string> {
    set p | p in e && p.0 == u :: p.1
  }

  /** Every node of `s` has a successor inside `s`. */
  ghost predicate SuccessorClosed(s: set<string>, e: Edges) {
    forall u :: u in s ==> Successors(u, e) * s != {}
  }

  /** The part of a path from position `i` on, closed by an edge from its last node back to `p[i]`,
      is a cycle. */
  lemma SuffixCycle(p: seq<string>, i: nat, e: Edges)
    requires IsPath(p, e) && i < |p| && (p[|p| - 1], p[i]) in e
    ensures IsCycle(p[i..] + [p[i]], e)
  {
    var c := p[i..] + [p[i]];
    forall k | 0 <= k < |c| - 1 ensures (c[k], c[k + 1]) in e {
      if k < |c| - 2 {
        assert c[k] == p[i + k] && c[k + 1] == p[i + k + 1];
      }
    }
  }

  /** A path whose last node has an edge back to one of its own nodes closes a cycle. */
  lemma CloseCycle(p: seq<string>, v: string, e: Edges)
    requires IsPath(p, e) && v in p && (p[|p| - 1], v) in e
    ensures HasCycle(e)
  {
    var i := IndexOf(p, v);
    SuffixCycle(p, i, e);
  }

  /** Walking from the end of a repeat-free path inside a successor-closed set must meet the path again. */
  lemma {:induction false} ExtendWalk(s: set<string>, e: Edges, p: seq<string>)
    requires SuccessorClosed(s, e)
    requires p != [] && Distinct(p) && Elems(p) <= s && IsPath(p, e)
    ensures HasCycle(e)
    decreases |s| - |p|
  {
    var u := p[|p| - 1];
    assert u in Elems(p);
    var v :| v in Successors(u, e) * s;
    assert (u, v) in e;
    if v in p {
      CloseCycle(p, v, e);
    } else {
      ExtendPath(p, v, e);
      DistinctWithin(p + [v], s);
      ExtendWalk(s, e, p + [v]);
    }
  }

  /** Appending a fresh successor of the last node keeps a repeat-free path repeat-free. */
  lemma ExtendPath(p: seq<string>, v: string, e: Edges)
    requires Distinct(p) && IsPath(p, e) && v !in p && (p == [] || (p[|p| - 1], v) in e)
    ensures Distinct(p + [v]) && IsPath(p + [v], e) && Elems(p + [v]) == Elems(p) + {v}
  {
    var q := p + [v];
    forall k | 0 <= k < |q| - 1 ensures (q[k], q[k + 1]) in e {
      if k < |p| - 1 { assert q[k] == p[k] && q[k + 1] == p[k + 1]; }
    }
  }

  /** A non-empty set in which every node has a successor inside the set contains a cycle. */
  lemma CycleFromSuccessors(s: set<string>, e: Edges)
    requires s != {} && SuccessorClosed(s, e)
    ensures HasCycle(e)
  {
    var u :| u in s;
    assert Elems([u]) == {u};
    assert IsPath([u], e);
    ExtendWalk(s, e, [u]);
  }

  /** An order in which every edge goes back to an earlier position, and which holds every node with an
      outgoing edge, rules out cycles. */
  lemma NoCycleWhenOrdered(order: seq<string>, e: Edges)
    requires forall u, v :: (u, v) in e ==> u in order
    requires forall j, v :: 0 <= j < |order| && (order[j], v) in e ==> v in order[..j]
    ensures !HasCycle(e)
  {
    if c :| IsCycle(c, e) {
      assert (c[0], c[1]) in e;
      var j0 := IndexOf(order, c[0]);
      var k := 0;
      var j := j0;
      while k < |c| - 1
        invariant 0 <= k <= |c| - 1
        invariant 0 <= j < |order| && order[j] == c[k] && j <= j0 - k
      {
        assert (c[k], c[k + 1]) in e;
        assert c[k + 1] in order[..j];
        j := IndexOf(order[..j], c[k + 1]);
        k := k + 1;
      }
      assert false;
    }
  }
}
