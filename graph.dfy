/** The algorithms of src/lattice_base/graph.py over a lattice's task list: the dependents map,
    readiness, Kahn's topological sort with a LIFO queue, and edge enumeration. */
module Graph {
  import opened Wrappers
  import opened Seqs
  import opened Model
  import Digraph

  // ---------------------------------------------------------------- dependents map

  /** The ids of the tasks that list `d`, in task order, once per listing entry. */
  function DependentsOf(ts: seq<Task>, d: string): seq<string> {
    if ts == [] then []
    else
      var t := ts[|ts| - 1];
      DependentsOf(ts[..|ts| - 1], d) + Repeat(t.id, Count(t.dependsOn, d))
  }

  /** `x` is a dependent of `d` exactly when some task with id `x` lists `d`. */
  lemma {:induction false} DependentsOfMember(ts: seq<Task>, d: string, x: string)
    ensures x in DependentsOf(ts, d) <==> exists t :: t in ts && t.id == x && d in t.dependsOn
  {
    if ts != [] {
      var p := ts[..|ts| - 1];
      var t := ts[|ts| - 1];
      assert ts == p + [t];
      DependentsOfMember(p, d, x);
      var rep := Repeat(t.id, Count(t.dependsOn, d));
      assert x in rep <==> x == t.id && d in t.dependsOn by {
        if x == t.id && d in t.dependsOn { assert rep[0] == x; }
      }
      if x in DependentsOf(ts, d) && x !in DependentsOf(p, d) {
        assert t in ts && t.id == x && d in t.dependsOn;
      }
    }
  }

  /** The inner loop of `build_dependency_graph` for one task: its id is appended to the list of each
      listed id that is a key, once per entry. */
  method AppendDependent(graph0: map<string, seq<string>>, id: string, deps: seq<string>)
    returns (graph: map<string, seq<string>>)
    ensures graph.Keys == graph0.Keys
    ensures forall d :: d in graph ==> graph[d] == graph0[d] + Repeat(id, Count(deps, d))
  {
    graph := graph0;
    for j := 0 to |deps|
      invariant graph.Keys == graph0.Keys
      invariant forall d :: d in graph ==> graph[d] == graph0[d] + Repeat(id, Count(deps[..j], d))
    {
      var dep := deps[j];
      CountSnoc(deps, j);
      if dep in graph {
        ghost var before := graph;
        graph := graph[dep := graph[dep] + [id]];
        assert graph[dep] == graph0[dep] + Repeat(id, Count(deps[..j + 1], dep));
      }
    }
    assert deps[..|deps|] == deps;
  }

  /** `build_dependency_graph`: one key per known id, mapped to the ids of the tasks that list it, in
      task order; a dependency on an unknown id is skipped. */
  method BuildDependencyGraph(tasks: seq<Task>) returns (graph: map<string, seq<string>>)
    ensures graph.Keys == Ids(tasks)
    ensures forall d :: d in graph ==> graph[d] == DependentsOf(tasks, d)
  {
    graph := map k | k in Ids(tasks) :: [];
    for i := 0 to |tasks|
      invariant graph.Keys == Ids(tasks)
      invariant forall d :: d in graph ==> graph[d] == DependentsOf(tasks[..i], d)
    {
      var t := tasks[i];
      assert tasks[..i + 1][..i] == tasks[..i];
      graph := AppendDependent(graph, t.id, t.dependsOn);
    }
    assert tasks[..|tasks|] == tasks;
  }

  // ---------------------------------------------------------------- readiness

  /** `is_done`: the id resolves in the index to a task whose status is exactly `done`. */
  predicate IsDone(idx: map<string, Task>, d: string) {
    d in idx && idx[d].status == Done
  }

  /** The test `compute_ready_tasks` applies to one task. */
  predicate IsReady(idx: map<string, Task>, t: Task) {
    && t.kind == PlainTask
    && EffectiveStatus(t.status) != Done
    && EffectiveStatus(t.status) != Blocked
    && forall d :: d in t.dependsOn ==> IsDone(idx, d)
  }

  /** The tasks of `ts` that pass `IsReady`, in their original order. */
  function ReadyAmong(ts: seq<Task>, idx: map<string, Task>): seq<Task> {
    if ts == [] then []
    else
      var t := ts[|ts| - 1];
      ReadyAmong(ts[..|ts| - 1], idx) + (if IsReady(idx, t) then [t] else [])
  }

  /** `compute_ready_tasks`. */
  method ComputeReadyTasks(tasks: seq<Task>) returns (ready: seq<Task>)
    ensures ready == ReadyAmong(tasks, TaskIndex(tasks))
  {
    var idx := TaskIndex(tasks);
    ready := [];
    for i := 0 to |tasks|
      invariant ready == ReadyAmong(tasks[..i], idx)
    {
      var t := tasks[i];
      assert tasks[..i + 1][..i] == tasks[..i];
      if t.kind != PlainTask {
        continue;
      }
      var status := EffectiveStatus(t.status);
      if status == Done || status == Blocked {
        continue;
      }
      if forall d :: d in t.dependsOn ==> IsDone(idx, d) {
        ready := ready + [t];
      }
    }
    assert tasks[..|tasks|] == tasks;
  }

  /** A task is listed exactly when it is in the lattice and passes the readiness test. */
  lemma {:induction false} ReadyAmongMembers(ts: seq<Task>, idx: map<string, Task>)
    ensures forall t :: t in ReadyAmong(ts, idx) <==> t in ts && IsReady(idx, t)
  {
    if ts != [] {
      var p := ts[..|ts| - 1];
      var t := ts[|ts| - 1];
      assert ts == p + [t];
      ReadyAmongMembers(p, idx);
    }
  }

  /** The ready list keeps the lattice's order. */
  lemma {:induction false} ReadyAmongOrder(ts: seq<Task>, idx: map<string, Task>)
    ensures IsSubsequence(ReadyAmong(ts, idx), ts)
  {
    if ts != [] {
      var p := ts[..|ts| - 1];
      var t := ts[|ts| - 1];
      ReadyAmongOrder(p, idx);
      ReadyAmongMembers(p, idx);
      var r := ReadyAmong(ts, idx);
      var q := ReadyAmong(p, idx);
      if IsReady(idx, t) {
        assert r == q + [t] && r[..|r| - 1] == q;
      } else {
        assert r == q;
        if q != [] {
          assert q[|q| - 1] in q;
          assert q[|q| - 1] != t;
        }
      }
    }
  }

  /** A dependency on an id the lattice does not know keeps a task from being ready. */
  lemma DanglingDependencyNotReady(tasks: seq<Task>, t: Task, d: string)
    requires d in t.dependsOn && d !in Ids(tasks)
    ensures t !in ReadyAmong(tasks, TaskIndex(tasks))
  {
    ReadyAmongMembers(tasks, TaskIndex(tasks));
  }

  // ---------------------------------------------------------------- edges

  /** The `(dep, t.id)` pairs of one task's listing entries `deps` that resolve in `known`. */
  function TaskEdges(id: string, deps: seq<string>, known: set<string>): (r: seq<(string, string)>)
    ensures forall e :: e in r ==> e.0 in known && e.1 == id
  {
    if deps == [] then []
    else
      var d := deps[|deps| - 1];
      TaskEdges(id, deps[..|deps| - 1], known) + (if d in known then [(d, id)] else [])
  }

  function EdgesAmong(ts: seq<Task>, known: set<string>): (r: seq<(string, string)>)
    ensures forall e :: e in r ==> e.0 in known && e.1 in Ids(ts)
  {
    if ts == [] then []
    else
      var p := ts[..|ts| - 1];
      var t := ts[|ts| - 1];
      assert Ids(ts) == Ids(p) + {t.id} by {
        assert ts == p + [t];
      }
      EdgesAmong(p, known) + TaskEdges(t.id, t.dependsOn, known)
  }

  /** `iter_edges`: task order, then listing order within a task. Both ends of every edge are ids of
      the lattice, so the diagram draws no edge to an undeclared node. */
  function IterEdges(tasks: seq<Task>): (r: seq<(string, string)>)
    ensures forall e :: e in r ==> e.0 in Ids(tasks) && e.1 in Ids(tasks)
  {
    EdgesAmong(tasks, Ids(tasks))
  }

  /** The second components of the pairs whose first component is `d`, in order. */
  function Targets(es: seq<(string, string)>, d: string): (r: seq<string>)
    ensures forall x :: x in r <==> (d, x) in es
  {
    if es == [] then []
    else
      var e := es[|es| - 1];
      assert es == es[..|es| - 1] + [e];
      Targets(es[..|es| - 1], d) + (if e.0 == d then [e.1] else [])
  }

  lemma {:induction false} TargetsAppend(a: seq<(string, string)>, b: seq<(string, string)>, d: string)
    ensures Targets(a + b, d) == Targets(a, d) + Targets(b, d)
  {
    if b == [] {
      assert a + b == a;
    } else {
      var ab := a + b;
      assert ab[..|ab| - 1] == a + b[..|b| - 1];
      assert ab[|ab| - 1] == b[|b| - 1];
      TargetsAppend(a, b[..|b| - 1], d);
    }
  }

  lemma {:induction false} TaskEdgesTargets(id: string, deps: seq<string>, known: set<string>, d: string)
    requires d in known
    ensures Targets(TaskEdges(id, deps, known), d) == Repeat(id, Count(deps, d))
  {
    if deps != [] {
      var p := deps[..|deps| - 1];
      var last := deps[|deps| - 1];
      TaskEdgesTargets(id, p, known, d);
      TargetsAppend(TaskEdges(id, p, known), if last in known then [(last, id)] else [], d);
    }
  }

  /** The edges `iter_edges` yields from `d`, in order and with repeats, are exactly the list
      `build_dependency_graph` keeps for `d`; an unknown `d` has no edges. */
  lemma {:induction false} EdgesMatchDependents(ts: seq<Task>, known: set<string>, d: string)
    ensures Targets(EdgesAmong(ts, known), d) == if d in known then DependentsOf(ts, d) else []
  {
    if ts != [] {
      var p := ts[..|ts| - 1];
      var t := ts[|ts| - 1];
      EdgesMatchDependents(p, known, d);
      TargetsAppend(EdgesAmong(p, known), TaskEdges(t.id, t.dependsOn, known), d);
      if d in known {
        TaskEdgesTargets(t.id, t.dependsOn, known, d);
      } else {
        NoEdgesFromUnknown(t.id, t.dependsOn, known, d);
      }
    }
  }

  lemma {:induction false} NoEdgesFromUnknown(id: string, deps: seq<string>, known: set<string>, d: string)
    requires d !in known
    ensures Targets(TaskEdges(id, deps, known), d) == []
  {
    if deps != [] {
      var p := deps[..|deps| - 1];
      var last := deps[|deps| - 1];
      NoEdgesFromUnknown(id, p, known, d);
      TargetsAppend(TaskEdges(id, p, known), if last in known then [(last, id)] else [], d);
    }
  }

  /** `iter_edges` yields `(d, x)` exactly when `d` is a known id and some task with id `x` lists `d`. */
  lemma IterEdgesMember(tasks: seq<Task>, d: string, x: string)
    ensures (d, x) in IterEdges(tasks) <==> d in Ids(tasks) && exists t :: t in tasks && t.id == x && d in t.dependsOn
  {
    EdgesMatchDependents(tasks, Ids(tasks), d);
    DependentsOfMember(tasks, d, x);
  }

  // ---------------------------------------------------------------- in-degree bookkeeping

  /** "`t.id` depends on `d`" for every listing entry `d` that resolves in the lattice. */
  ghost function DependsOnEdges(tasks: seq<Task>): Digraph.Edges {
    set t, d | t in tasks && d in t.dependsOn && d in Ids(tasks) :: (t.id, d)
  }

  /** No id of `known` is listed twice. */
  predicate KnownDistinct(deps: seq<string>, known: set<string>) {
    forall i, j :: 0 <= i < j < |deps| && deps[i] in known ==> deps[i] != deps[j]
  }

  /** No task lists the same known id twice. */
  predicate NoRepeatedKnownDeps(tasks: seq<Task>) {
    forall t :: t in tasks ==> KnownDistinct(t.dependsOn, Ids(tasks))
  }

  /** The listing entries that resolve; each one adds one to the in-degree of the task's id. */
  function KnownCount(deps: seq<string>, known: set<string>): nat {
    if deps == [] then 0
    else KnownCount(deps[..|deps| - 1], known) + (if deps[|deps| - 1] in known then 1 else 0)
  }

  /** The emitted ids that the listing mentions; each one took one off the task's in-degree. */
  function Hits(r: seq<string>, deps: seq<string>): nat {
    if r == [] then 0
    else Hits(r[..|r| - 1], deps) + (if r[|r| - 1] in deps then 1 else 0)
  }

  /** What task `t` still contributes to the in-degree of its id once `r` has been emitted. */
  function Slack(t: Task, known: set<string>, r: seq<string>): int {
    KnownCount(t.dependsOn, known) - Hits(r, t.dependsOn)
  }

  /** The in-degree of `k` once `r` has been emitted: the sum of `Slack` over the tasks with id `k`. */
  function Pending(ts: seq<Task>, k: string, known: set<string>, r: seq<string>): int {
    if ts == [] then 0
    else
      var t := ts[|ts| - 1];
      Pending(ts[..|ts| - 1], k, known, r) + (if t.id == k then Slack(t, known, r) else 0)
  }

  /** Every resolving entry of `t` has been emitted, and none resolves twice. */
  predicate Settled(t: Task, known: set<string>, r: seq<string>) {
    KnownDistinct(t.dependsOn, known) && forall d :: d in t.dependsOn && d in known ==> d in r
  }

  lemma {:induction false} HitsCard(r: seq<string>, deps: seq<string>)
    requires Distinct(r)
    ensures Hits(r, deps) == |Elems(r) * Elems(deps)|
  {
    if r != [] {
      var p := r[..|r| - 1];
      var x := r[|r| - 1];
      assert r == p + [x];
      HitsCard(p, deps);
      HitsStep(p, x, Elems(deps));
    }
  }

  lemma HitsStep(p: seq<string>, x: string, d: set<string>)
    requires Distinct(p + [x])
    ensures Distinct(p)
    ensures |Elems(p + [x]) * d| == |Elems(p) * d| + (if x in d then 1 else 0)
  {
    var r := p + [x];
    forall i, j | 0 <= i < j < |p| ensures p[i] != p[j] {
      assert p[i] == r[i] && p[j] == r[j];
    }
    var a := Elems(p) * d;
    assert x !in p by {
      forall i | 0 <= i < |p| ensures p[i] != x {
        assert r[i] == p[i] && r[|p|] == x;
      }
    }
    assert Elems(r) == Elems(p) + {x};
    assert Elems(r) * d == if x in d then a + {x} else a;
  }

  /** Appending `e` keeps a listing free of repeated known ids exactly when `e` is unknown or new. */
  lemma KnownDistinctSnoc(p: seq<string>, e: string, known: set<string>)
    ensures KnownDistinct(p + [e], known) <==> KnownDistinct(p, known) && (e in known ==> e !in p)
  {
    var deps := p + [e];
    if KnownDistinct(p, known) && (e in known ==> e !in p) {
      forall i, j | 0 <= i < j < |deps| && deps[i] in known ensures deps[i] != deps[j] {
        if j == |deps| - 1 { assert deps[i] == p[i]; } else { assert deps[i] == p[i] && deps[j] == p[j]; }
      }
    }
    if KnownDistinct(deps, known) {
      forall i, j | 0 <= i < j < |p| && p[i] in known ensures p[i] != p[j] {
        assert deps[i] == p[i] && deps[j] == p[j];
      }
      forall i | 0 <= i < |p| && p[i] in known ensures p[i] != e {
        assert deps[i] == p[i] && deps[|deps| - 1] == e;
      }
    }
  }

  /** The resolving entries are at least as many as the distinct known ids listed, and exactly as many
      when no known id is listed twice. */
  lemma {:induction false} KnownCountCard(deps: seq<string>, known: set<string>)
    ensures KnownCount(deps, known) >= |Elems(deps) * known|
    ensures KnownCount(deps, known) == |Elems(deps) * known| <==> KnownDistinct(deps, known)
  {
    if deps == [] {
      assert Elems(deps) == {};
    } else {
      var p := deps[..|deps| - 1];
      var e := deps[|deps| - 1];
      KnownCountCard(p, known);
      assert deps == p + [e];
      KnownDistinctSnoc(p, e, known);
      var a := Elems(p) * known;
      assert Elems(deps) == Elems(p) + {e};
      KnownCountStep(p, e, known, a);
    }
  }

  lemma KnownCountStep(p: seq<string>, e: string, known: set<string>, a: set<string>)
    requires a == Elems(p) * known
    ensures Elems(p + [e]) * known == if e in known && e !in p then a + {e} else a
    ensures e in known && e !in p ==> e !in a
  {
    assert Elems(p + [e]) == Elems(p) + {e};
  }

  /** A task's contribution never drops below zero, and it is zero exactly when the task is settled. */
  lemma SlackFacts(t: Task, known: set<string>, r: seq<string>)
    requires Distinct(r) && Elems(r) <= known
    ensures Slack(t, known, r) >= 0
    ensures Slack(t, known, r) == 0 <==> Settled(t, known, r)
  {
    var dset := Elems(t.dependsOn);
    HitsCard(r, t.dependsOn);
    KnownCountCard(t.dependsOn, known);
    SubsetCard(Elems(r) * dset, dset * known);
    if Elems(r) * dset == dset * known {
      forall d | d in t.dependsOn && d in known ensures d in r {
        assert d in dset * known;
      }
    }
    if Settled(t, known, r) {
      assert Elems(r) * dset == dset * known;
    }
  }

  /** The in-degree of `k` never drops below zero, and it is zero exactly when every task with id `k`
      is settled. */
  lemma {:induction false} PendingFacts(ts: seq<Task>, k: string, known: set<string>, r: seq<string>)
    requires Distinct(r) && Elems(r) <= known
    ensures Pending(ts, k, known, r) >= 0
    ensures Pending(ts, k, known, r) == 0 <==> forall t :: t in ts && t.id == k ==> Settled(t, known, r)
  {
    if ts != [] {
      var p := ts[..|ts| - 1];
      var t := ts[|ts| - 1];
      assert ts == p + [t];
      PendingFacts(p, k, known, r);
      SlackFacts(t, known, r);
    }
  }

  /** The tasks before position `j`, plus the one at `j`, contribute no more than the whole list. */
  lemma {:induction false} PendingPrefix(ts: seq<Task>, j: nat, k: string, known: set<string>, r: seq<string>)
    requires j < |ts| && Distinct(r) && Elems(r) <= known
    ensures Pending(ts[..j], k, known, r) + (if ts[j].id == k then Slack(ts[j], known, r) else 0)
            <= Pending(ts, k, known, r)
  {
    var p := ts[..|ts| - 1];
    var t := ts[|ts| - 1];
    if j == |ts| - 1 {
      assert ts[..j] == p;
    } else {
      assert p[..j] == ts[..j] && p[j] == ts[j];
      PendingPrefix(p, j, k, known, r);
      SlackFacts(t, known, r);
    }
  }

  // ---------------------------------------------------------------- topological sort

  /** Every known dependency of every task with id `order[i]` occurs before position `i`. */
  ghost predicate DepsBefore(tasks: seq<Task>, order: seq<string>) {
    forall i, t :: 0 <= i < |order| && t in tasks && t.id == order[i] ==>
      forall d :: d in t.dependsOn && d in Ids(tasks) ==> d in order[..i]
  }

  /** Every emitted id's tasks were settled by the ids emitted before it. */
  ghost predicate EmittedSettled(tasks: seq<Task>, result: seq<string>) {
    forall i, t :: 0 <= i < |result| && t in tasks && t.id == result[i] ==> Settled(t, Ids(tasks), result[..i])
  }

  /** The loop invariant of Kahn's algorithm: `incoming` holds the in-degrees left after emitting
      `result`, and an id has been emitted or queued exactly when its in-degree is zero. */
  ghost predicate KahnState(tasks: seq<Task>, incoming: map<string, int>, result: seq<string>, queue: seq<string>) {
    var known := Ids(tasks);
    && incoming.Keys == known
    && Distinct(result) && Distinct(queue) && Elems(result) !! Elems(queue)
    && Elems(result) <= known && Elems(queue) <= known
    && (forall k :: k in known ==> incoming[k] == Pending(tasks, k, known, result))
    && (forall k :: k in known ==> (k in result || k in queue <==> incoming[k] == 0))
  }

  /** The in-degree dictionary of `topological_sort`: one count per listing entry that resolves. */
  method CountIncoming(tasks: seq<Task>) returns (incoming: map<string, int>)
    ensures incoming.Keys == Ids(tasks)
    ensures forall k :: k in incoming ==> incoming[k] == Pending(tasks, k, Ids(tasks), [])
  {
    var known := Ids(tasks);
    incoming := map k | k in known :: 0;
    for i := 0 to |tasks|
      invariant incoming.Keys == known
      invariant forall k :: k in known ==> incoming[k] == Pending(tasks[..i], k, known, [])
    {
      var t := tasks[i];
      assert tasks[..i + 1][..i] == tasks[..i] && tasks[..i + 1][i] == t;
      assert t.id in known;
      for j := 0 to |t.dependsOn|
        invariant incoming.Keys == known
        invariant forall k :: k in known ==>
                    incoming[k] == Pending(tasks[..i], k, known, []) + (if k == t.id then KnownCount(t.dependsOn[..j], known) else 0)
      {
        assert t.dependsOn[..j + 1][..j] == t.dependsOn[..j];
        if t.dependsOn[j] in incoming {
          incoming := incoming[t.id := incoming[t.id] + 1];
        }
      }
      assert t.dependsOn[..|t.dependsOn|] == t.dependsOn;
    }
    assert tasks[..|tasks|] == tasks;
  }

  /** Extending the prefix by one task adds that task's contribution. */
  lemma PendingSnoc(ts: seq<Task>, j: nat, k: string, known: set<string>, r: seq<string>)
    requires j < |ts|
    ensures Pending(ts[..j + 1], k, known, r) == Pending(ts[..j], k, known, r) + (if ts[j].id == k then Slack(ts[j], known, r) else 0)
  {
    assert ts[..j + 1][..j] == ts[..j];
  }

  /** Emitting `n` after `done` takes one off the hits of exactly the listings that mention `n`. */
  lemma HitsSnoc(done: seq<string>, n: string, deps: seq<string>)
    ensures Hits(done + [n], deps) == Hits(done, deps) + (if n in deps then 1 else 0)
  {
    assert (done + [n])[..|done|] == done;
  }

  /** The in-degree of `k` while the inner loop after emitting `n` runs: the tasks before position `j`
      already count `n` as emitted. */
  function Released(tasks: seq<Task>, n: string, done: seq<string>, j: nat, k: string): int
    requires j <= |tasks|
  {
    var known := Ids(tasks);
    Pending(tasks[..j], k, known, done + [n]) + Pending(tasks, k, known, done) - Pending(tasks[..j], k, known, done)
  }

  /** Passing task `j` takes one off the in-degree of its id when it lists `n`, and changes nothing else. */
  lemma ReleasedSnoc(tasks: seq<Task>, n: string, done: seq<string>, j: nat, k: string)
    requires j < |tasks|
    ensures Released(tasks, n, done, j + 1, k)
            == Released(tasks, n, done, j, k) - (if tasks[j].id == k && n in tasks[j].dependsOn then 1 else 0)
  {
    var known := Ids(tasks);
    PendingSnoc(tasks, j, k, known, done + [n]);
    PendingSnoc(tasks, j, k, known, done);
    HitsSnoc(done, n, tasks[j].dependsOn);
  }

  /** Before the inner loop, the in-degrees are those left after `done`. */
  lemma ReleasedStart(tasks: seq<Task>, n: string, done: seq<string>, k: string)
    ensures Released(tasks, n, done, 0, k) == Pending(tasks, k, Ids(tasks), done)
  {
    assert tasks[..0] == [];
  }

  /** The inner loop leaves the in-degree of a task that lists `n` at least 1 until it is passed. */
  lemma ReleasedPositive(tasks: seq<Task>, n: string, done: seq<string>, j: nat)
    requires j < |tasks| && n in tasks[j].dependsOn
    requires n in Ids(tasks) && n !in done && Distinct(done) && Elems(done) <= Ids(tasks)
    ensures Released(tasks, n, done, j, tasks[j].id) >= 1
  {
    var known := Ids(tasks);
    var r := done + [n];
    var t := tasks[j];
    assert Distinct(r);
    assert Elems(r) == Elems(done) + {n};
    HitsSnoc(done, n, t.dependsOn);
    PendingPrefix(tasks, j, t.id, known, done);
    PendingFacts(tasks[..j], t.id, known, r);
    SlackFacts(t, known, r);
  }

  /** The invariant of the inner loop of `topological_sort` after `n` is emitted following `done`: an
      id has been emitted or queued exactly when its in-degree is zero. */
  ghost predicate ReleaseInv(tasks: seq<Task>, n: string, done: seq<string>, j: nat,
                             incoming: map<string, int>, queue: seq<string>) {
    var known := Ids(tasks);
    var r := done + [n];
    && j <= |tasks|
    && n in known && n !in done && Distinct(done) && Elems(done) <= known
    && incoming.Keys == known
    && (forall k :: k in known ==> incoming[k] == Released(tasks, n, done, j, k))
    && Distinct(queue) && Elems(queue) <= known && Elems(queue) !! Elems(r)
    && (forall k :: k in known ==> (k in r || k in queue <==> incoming[k] == 0))
  }

  /** One step of the inner loop keeps its invariant. */
  lemma ReleaseStep(tasks: seq<Task>, n: string, done: seq<string>, j: nat,
                    incoming: map<string, int>, queue: seq<string>)
    requires j < |tasks| && ReleaseInv(tasks, n, done, j, incoming, queue)
    ensures var t := tasks[j];
      if n in t.dependsOn then
        var inc := incoming[t.id := incoming[t.id] - 1];
        ReleaseInv(tasks, n, done, j + 1, inc, if inc[t.id] == 0 then queue + [t.id] else queue)
      else ReleaseInv(tasks, n, done, j + 1, incoming, queue)
  {
    var known := Ids(tasks);
    var t := tasks[j];
    forall k | k in known
      ensures Released(tasks, n, done, j + 1, k)
              == Released(tasks, n, done, j, k) - (if t.id == k && n in t.dependsOn then 1 else 0)
    {
      ReleasedSnoc(tasks, n, done, j, k);
    }
    if n in t.dependsOn {
      assert t.id in known;
      ReleasedPositive(tasks, n, done, j);
      var inc := incoming[t.id := incoming[t.id] - 1];
      if inc[t.id] == 0 {
        assert t.id !in queue && t.id !in done + [n];
        assert Elems(queue + [t.id]) == Elems(queue) + {t.id};
      }
    }
  }

  /** The inner loop of `topological_sort` after `n` is emitted: every task listing `n` loses one from
      the in-degree of its id, and an id whose in-degree reaches zero is queued. */
  method ReleaseDependents(tasks: seq<Task>, n: string, ghost done: seq<string>,
                           incoming0: map<string, int>, queue0: seq<string>)
    returns (incoming: map<string, int>, queue: seq<string>)
    requires ReleaseInv(tasks, n, done, 0, incoming0, queue0)
    ensures KahnState(tasks, incoming, done + [n], queue)
  {
    incoming, queue := incoming0, queue0;
    for j := 0 to |tasks|
      invariant ReleaseInv(tasks, n, done, j, incoming, queue)
    {
      ReleaseStep(tasks, n, done, j, incoming, queue);
      var t := tasks[j];
      if n in t.dependsOn {
        incoming := incoming[t.id := incoming[t.id] - 1];
        if incoming[t.id] == 0 {
          queue := queue + [t.id];
        }
      }
    }
    ReleaseEnd(tasks, n, done, incoming, queue);
  }

  /** When the inner loop has passed every task, the main loop's invariant holds with `n` emitted. */
  lemma ReleaseEnd(tasks: seq<Task>, n: string, done: seq<string>, incoming: map<string, int>, queue: seq<string>)
    requires ReleaseInv(tasks, n, done, |tasks|, incoming, queue)
    ensures KahnState(tasks, incoming, done + [n], queue)
  {
    assert tasks[..|tasks|] == tasks;
    assert Distinct(done + [n]);
    assert Elems(done + [n]) == Elems(done) + {n};
  }

  /** Popping the last queued id `n` leaves the state the inner loop starts from, with fewer ids
      emitted than known. */
  lemma KahnPop(tasks: seq<Task>, incoming: map<string, int>, result: seq<string>, queue: seq<string>)
    requires queue != [] && KahnState(tasks, incoming, result, queue)
    ensures ReleaseInv(tasks, queue[|queue| - 1], result, 0, incoming, queue[..|queue| - 1])
    ensures |result| < |Ids(tasks)|
  {
    var known := Ids(tasks);
    var n := queue[|queue| - 1];
    var q := queue[..|queue| - 1];
    assert queue == q + [n];
    assert Elems(queue) == Elems(q) + {n};
    assert Elems(result + [n]) == Elems(result) + {n};
    assert forall k :: k in q ==> k in queue;
    forall k | k in known ensures incoming[k] == Released(tasks, n, result, 0, k) {
      ReleasedStart(tasks, n, result, k);
    }
    assert Distinct(result + [n]);
    DistinctWithin(result + [n], known);
  }

  /** Emitting the popped id keeps every emitted id settled by the ids before it, since its in-degree
      is zero. */
  lemma KahnPopSettled(tasks: seq<Task>, incoming: map<string, int>, result: seq<string>, queue: seq<string>)
    requires queue != [] && KahnState(tasks, incoming, result, queue) && EmittedSettled(tasks, result)
    ensures EmittedSettled(tasks, result + [queue[|queue| - 1]])
  {
    var known := Ids(tasks);
    var n := queue[|queue| - 1];
    assert n in queue;
    PendingFacts(tasks, n, known, result);
    var r := result + [n];
    forall i, t | 0 <= i < |r| && t in tasks && t.id == r[i] ensures Settled(t, known, r[..i]) {
      if i < |result| {
        assert r[..i] == result[..i];
      } else {
        assert r[..i] == result;
      }
    }
  }

  /** `[tid for tid, deg in incoming.items() if deg == 0]`: the ids, in dictionary order, whose
      in-degree is zero. */
  function ZeroInDegree(keys: seq<string>, incoming: map<string, int>): (r: seq<string>)
    requires forall k :: k in keys ==> k in incoming
    ensures forall k :: k in r <==> k in keys && incoming[k] == 0
    ensures Distinct(keys) ==> Distinct(r)
  {
    if keys == [] then []
    else
      var p := keys[..|keys| - 1];
      var k := keys[|keys| - 1];
      assert keys == p + [k];
      var r := ZeroInDegree(p, incoming);
      assert Distinct(keys) ==> Distinct(p) && k !in p by {
        if Distinct(keys) {
          forall i | 0 <= i < |p| ensures p[i] != k && forall j :: i < j < |p| ==> p[i] != p[j] {
            assert p[i] == keys[i];
          }
        }
      }
      if incoming[k] == 0 then r + [k] else r
  }

  /** `topological_sort`: Kahn's algorithm over the known ids, popping the most recently queued id.
      It fails exactly when the dependency relation has a cycle or some task lists a known id twice (the
      in-degree counts every listing entry but each emitted id takes off only one per task). */
  method TopologicalSort(tasks: seq<Task>) returns (r: Result<seq<string>, string>)
    ensures r.Ok? ==> Distinct(r.value) && Elems(r.value) == Ids(tasks)
    ensures r.Ok? ==> DepsBefore(tasks, r.value)
    ensures r.Ok? <==> !Digraph.HasCycle(DependsOnEdges(tasks)) && NoRepeatedKnownDeps(tasks)
    ensures r.Err? ==> r.error == "Cycle detected in dependency graph"
  {
    var known := Ids(tasks);
    var incoming := CountIncoming(tasks);
    var queue := ZeroInDegree(IdOrder(tasks), incoming);
    var result: seq<string> := [];
    assert Elems(result) == {};
    assert Elems(queue) <= known;
    while queue != []
      invariant KahnState(tasks, incoming, result, queue)
      invariant EmittedSettled(tasks, result)
      decreases |known| - |result|
    {
      KahnPop(tasks, incoming, result, queue);
      KahnPopSettled(tasks, incoming, result, queue);
      var n := queue[|queue| - 1];
      queue := queue[..|queue| - 1];
      ghost var done := result;
      result := result + [n];
      incoming, queue := ReleaseDependents(tasks, n, done, incoming, queue);
    }
    DistinctWithin(result, known);
    if |result| != |known| {
      KahnStuck(tasks, incoming, result);
      return Err("Cycle detected in dependency graph");
    }
    KahnSucceeded(tasks, result);
    return Ok(result);
  }

  /** Emitting every id in a settled order rules out cycles and repeated listing entries. */
  lemma KahnSucceeded(tasks: seq<Task>, result: seq<string>)
    requires Distinct(result) && Elems(result) == Ids(tasks) && EmittedSettled(tasks, result)
    ensures DepsBefore(tasks, result)
    ensures !Digraph.HasCycle(DependsOnEdges(tasks)) && NoRepeatedKnownDeps(tasks)
  {
    var e := DependsOnEdges(tasks);
    forall t | t in tasks ensures KnownDistinct(t.dependsOn, Ids(tasks)) {
      assert t.id in Elems(result);
      var i := IndexOf(result, t.id);
    }
    forall u, v | (u, v) in e ensures u in result {
      assert u in Elems(result);
    }
    forall j, v | 0 <= j < |result| && (result[j], v) in e ensures v in result[..j] {
      var t, d :| t in tasks && d in t.dependsOn && d in Ids(tasks) && (t.id, d) == (result[j], v);
    }
    Digraph.NoCycleWhenOrdered(result, e);
  }

  /** When the queue runs dry early, the ids never emitted each have an unemitted known dependency
      (or list one twice), so the dependency relation has a cycle. */
  lemma KahnStuck(tasks: seq<Task>, incoming: map<string, int>, result: seq<string>)
    requires KahnState(tasks, incoming, result, []) && |result| != |Ids(tasks)|
    ensures Digraph.HasCycle(DependsOnEdges(tasks)) || !NoRepeatedKnownDeps(tasks)
  {
    var known := Ids(tasks);
    var e := DependsOnEdges(tasks);
    var s := known - Elems(result);
    DistinctCard(result);
    assert known == Elems(result) + s;
    assert s != {};
    if NoRepeatedKnownDeps(tasks) {
      forall k | k in s ensures Digraph.Successors(k, e) * s != {} {
        assert k !in result;
        PendingFacts(tasks, k, known, result);
        var t :| t in tasks && t.id == k && !Settled(t, known, result);
        var d :| d in t.dependsOn && d in known && d !in result;
        assert d in s;
        assert (t.id, d) in e;
        assert d in Digraph.Successors(k, e);
      }
      Digraph.CycleFromSuccessors(s, e);
    }
  }
}
