/** The graph algorithms of the older `lattice` package (src/lattice_base/lattice/io.py): cycle
    reporting by depth-first search, and Kahn's sort that always emits the smallest ready id. */
module LatticeIo {
  import opened Wrappers
  import opened Seqs
  import opened Text
  import opened Sorting
  import Digraph
  import opened LatticeModel

  /** `{t.id: list(t.depends_on) for t in tasks}`: a later task with the same id replaces an earlier one. */
  function DepsMap(tasks: seq<Task>): (g: map<string, seq<string>>)
    ensures g.Keys == Ids(tasks)
  {
    if tasks == [] then map[]
    else
      var p := tasks[..|tasks| - 1];
      var t := tasks[|tasks| - 1];
      assert Ids(tasks) == Ids(p) + {t.id} by {
        assert tasks == p + [t];
      }
      DepsMap(p)[t.id := t.dependsOn]
  }

  /** With unique ids, each id maps to the listing of its one task. */
  lemma {:induction false} DepsMapUnique(tasks: seq<Task>, t: Task)
    requires UniqueIds(tasks) && t in tasks
    ensures DepsMap(tasks)[t.id] == t.dependsOn
  {
    var p := tasks[..|tasks| - 1];
    var last := tasks[|tasks| - 1];
    assert tasks == p + [last];
    assert IdList(p) == IdList(tasks)[..|p|];
    if t != last {
      assert t in p;
      var i :| 0 <= i < |p| && p[i] == t;
      assert IdList(tasks)[i] != IdList(tasks)[|p|];
      DepsMapUnique(p, t);
    }
  }

  /** "`u` depends on `v`" for every id `u` of the map and every `v` it lists. */
  ghost function GraphEdges(g: map<string, seq<string>>): Digraph.Edges {
    set u, v | u in g && v in g[u] :: (u, v)
  }

  /** Every id the search can reach: the keys and everything they list. */
  ghost function GraphNodes(g: map<string, seq<string>>): set<string> {
    g.Keys + set u, v | u in g && v in g[u] :: v
  }

  /** The edges of the task list itself, one per listing entry. */
  ghost function ListedEdges(tasks: seq<Task>): Digraph.Edges {
    set t, d | t in tasks && d in t.dependsOn :: (t.id, d)
  }

  /** With unique ids, the dictionary keeps every task's listing, so its edges are the listed ones. */
  lemma GraphEdgesUnique(tasks: seq<Task>)
    requires UniqueIds(tasks)
    ensures GraphEdges(DepsMap(tasks)) == ListedEdges(tasks)
  {
    var g := DepsMap(tasks);
    forall u, v | (u, v) in GraphEdges(g) ensures (u, v) in ListedEdges(tasks) {
      var t :| t in tasks && t.id == u;
      DepsMapUnique(tasks, t);
    }
    forall u, v | (u, v) in ListedEdges(tasks) ensures (u, v) in GraphEdges(g) {
      var t :| t in tasks && t.id == u && v in t.dependsOn;
      DepsMapUnique(tasks, t);
    }
  }

  // ---------------------------------------------------------------- detect_cycles

  /** The search path runs along dependency edges of `g` without repeating an id, `temp` holds exactly
      its ids, and every cycle recorded is a closed walk along dependency edges. */
  ghost predicate SearchValid(g: map<string, seq<string>>, temp: set<string>, stack: seq<string>, cycles: seq<seq<string>>) {
    && Distinct(stack) && Elems(stack) == temp && temp <= GraphNodes(g)
    && Digraph.IsPath(stack, GraphEdges(g))
    && forall c :: c in cycles ==> Digraph.IsCycle(c, GraphEdges(g))
  }

  /** Every id a key lists is an edge target, so the search can reach it. */
  lemma EdgeTarget(g: map<string, seq<string>>, u: string, v: string)
    requires u in g && v in g[u]
    ensures (u, v) in GraphEdges(g) && v in GraphNodes(g)
  {
  }

  /** Entering a new id reached along an edge keeps the search path valid. */
  lemma EnterValid(g: map<string, seq<string>>, temp: set<string>, stack: seq<string>, cycles: seq<seq<string>>, node: string)
    requires SearchValid(g, temp, stack, cycles) && node in GraphNodes(g) && node !in temp
    requires stack == [] || (stack[|stack| - 1], node) in GraphEdges(g)
    ensures SearchValid(g, temp + {node}, stack + [node], cycles)
  {
    Digraph.ExtendPath(stack, node, GraphEdges(g));
  }

  /** Leaving the last id of the path restores the path it was entered from. */
  lemma LeaveValid(g: map<string, seq<string>>, temp: set<string>, stack: seq<string>, cycles0: seq<seq<string>>,
                   cycles: seq<seq<string>>, node: string)
    requires SearchValid(g, temp, stack, cycles0) && node !in temp
    requires SearchValid(g, temp + {node}, stack + [node], cycles)
    ensures SearchValid(g, temp, stack, cycles)
  {
  }

  /** Recording the stretch of the path from `node` back to `node` keeps every recorded cycle valid. */
  lemma RecordValid(g: map<string, seq<string>>, temp: set<string>, stack: seq<string>, cycles: seq<seq<string>>, node: string)
    requires SearchValid(g, temp, stack, cycles) && node in stack
    requires (stack[|stack| - 1], node) in GraphEdges(g)
    ensures SearchValid(g, temp, stack, cycles + [stack[IndexOf(stack, node)..] + [node]])
  {
    Digraph.SuffixCycle(stack, IndexOf(stack, node), GraphEdges(g));
  }

  /** The state `detect_cycles` shares with its nested `visit`: the ids on the current search path
      (`temp`, in order on `stack`), the finished ids (`perm`) and the cycles found so far. */
  class CycleSearch {
    const graph: map<string, seq<string>>
    var temp: set<string>
    var perm: set<string>
    var stack: seq<string>
    var cycles: seq<seq<string>>

    constructor (graph: map<string, seq<string>>)
      ensures this.graph == graph
      ensures temp == {} && perm == {} && stack == [] && cycles == []
    {
      this.graph := graph;
      temp := {};
      perm := {};
      stack := [];
      cycles := [];
    }

    ghost predicate Valid()
      reads this
    {
      SearchValid(graph, temp, stack, cycles)
    }

    /** `graph.get(node, [])`: the ids `node` lists, none for an id that is not a key. */
    function Listed(node: string): seq<string> {
      if node in graph then graph[node] else []
    }

    /** `visit(node)`: a finished id is skipped; an id already on the path closes a cycle, recorded
        from its position on the stack; otherwise the id is expanded. The path is the same afterwards,
        and `node` is finished unless it was on the path. */
    method Visit(node: string)
      requires Valid() && node in GraphNodes(graph)
      requires stack == [] || (stack[|stack| - 1], node) in GraphEdges(graph)
      modifies this
      ensures Valid()
      ensures temp == old(temp) && stack == old(stack)
      ensures old(perm) <= perm && (node in perm || node in old(temp))
      ensures old(cycles) <= cycles
      ensures old(node in perm) ==> perm == old(perm) && cycles == old(cycles)
      ensures old(node !in perm) && node in old(stack) ==>
        perm == old(perm) && cycles == old(cycles) + [old(stack)[IndexOf(old(stack), node)..] + [node]]
      decreases |GraphNodes(graph) - temp|, 1
    {
      if node in perm {
        return;
      }
      if node in temp {
        if node in stack {
          RecordValid(graph, temp, stack, cycles, node);
          var idx := IndexOf(stack, node);
          cycles := cycles + [stack[idx..] + [node]];
        }
        return;
      }
      Expand(node);
    }

    /** The rest of `visit(node)` for an id not yet seen: it goes on the path, each id it lists is
        visited in order, then it leaves the path and is finished. */
    method Expand(node: string)
      requires Valid() && node in GraphNodes(graph) && node !in temp
      requires stack == [] || (stack[|stack| - 1], node) in GraphEdges(graph)
      modifies this
      ensures Valid()
      ensures temp == old(temp) && stack == old(stack)
      ensures old(perm) <= perm && node in perm
      ensures old(cycles) <= cycles
      ensures forall d :: d in Listed(node) ==> d in perm || d in old(temp)
      decreases |GraphNodes(graph) - temp|, 0
    {
      ghost var c0 := cycles;
      Enter(node);
      VisitEach(node);
      ghost var c2 := cycles;
      ghost var p2 := perm;
      assert c0 <= c2;
      assert forall d :: d in Listed(node) ==> d in p2 || d in old(temp) + {node};
      Leave(old(temp), old(stack), c0, node);
      assert cycles == c2;
      assert perm == p2 + {node};
    }

    /** `for dep in graph.get(node, [])`: each id `node` lists is visited in order, with `node` at the end
        of the path. */
    method VisitEach(node: string)
      requires Valid() && stack != [] && stack[|stack| - 1] == node
      modifies this
      ensures Valid()
      ensures temp == old(temp) && stack == old(stack)
      ensures old(perm) <= perm && old(cycles) <= cycles
      ensures forall d :: d in Listed(node) ==> d in perm || d in temp
      decreases |GraphNodes(graph) - temp|, 2
    {
      var deps := if node in graph then graph[node] else [];
      for i := 0 to |deps|
        invariant Valid()
        invariant temp == old(temp) && stack == old(stack)
        invariant old(perm) <= perm && old(cycles) <= cycles
        invariant forall j :: 0 <= j < i ==> deps[j] in perm || deps[j] in temp
      {
        EdgeTarget(graph, node, deps[i]);
        Visit(deps[i]);
      }
    }

    /** `temp.add(node)` and `stack.append(node)`. */
    method Enter(node: string)
      requires Valid() && node in GraphNodes(graph) && node !in temp
      requires stack == [] || (stack[|stack| - 1], node) in GraphEdges(graph)
      modifies this
      ensures Valid()
      ensures temp == old(temp) + {node} && stack == old(stack) + [node]
      ensures perm == old(perm) && cycles == old(cycles)
      ensures |GraphNodes(graph) - temp| < |GraphNodes(graph) - old(temp)|
    {
      RemoveCard(GraphNodes(graph), temp, node);
      EnterValid(graph, temp, stack, cycles, node);
      temp := temp + {node};
      stack := stack + [node];
    }

    /** `stack.pop()`, `temp.remove(node)` and `perm.add(node)`. */
    method Leave(ghost temp0: set<string>, ghost stack0: seq<string>, ghost cycles0: seq<seq<string>>, node: string)
      requires Valid() && SearchValid(graph, temp0, stack0, cycles0) && node !in temp0
      requires temp == temp0 + {node} && stack == stack0 + [node]
      modifies this
      ensures Valid()
      ensures temp == temp0 && stack == stack0
      ensures perm == old(perm) + {node} && cycles == old(cycles)
    {
      LeaveValid(graph, temp0, stack0, cycles0, cycles, node);
      stack := stack[..|stack| - 1];
      temp := temp - {node};
      perm := perm + {node};
    }

    /** The loop of `detect_cycles`: every id not yet finished is visited, in the given order. Afterwards
        every id is finished and the path is empty again. */
    method Run(keys: seq<string>) returns (found: seq<seq<string>>)
      requires Valid() && temp == {} && stack == [] && Elems(keys) <= graph.Keys
      modifies this
      ensures Valid() && temp == {} && stack == [] && Elems(keys) <= perm
      ensures found == cycles
    {
      for i := 0 to |keys|
        invariant Valid() && temp == {} && stack == []
        invariant Elems(keys[..i]) <= perm
      {
        assert keys[..i + 1] == keys[..i] + [keys[i]];
        if keys[i] !in perm {
          Visit(keys[i]);
        }
      }
      assert keys[..|keys|] == keys;
      found := cycles;
    }
  }

  /** `detect_cycles`: every reported cycle is a closed walk along dependency edges, so an acyclic
      lattice reports none. A dependency on an unknown id is searched as an id with no dependencies. */
  method DetectCycles(tasks: seq<Task>) returns (cycles: seq<seq<string>>)
    ensures forall c :: c in cycles ==> Digraph.IsCycle(c, GraphEdges(DepsMap(tasks)))
    ensures !Digraph.HasCycle(GraphEdges(DepsMap(tasks))) ==> cycles == []
  {
    var g := DepsMap(tasks);
    var search := new CycleSearch(g);
    var keys := Dedup(IdList(tasks));
    IdListElems(tasks);
    cycles := search.Run(keys);
    if cycles != [] {
      assert Digraph.IsCycle(cycles[0], GraphEdges(g));
    }
  }

  // ---------------------------------------------------------------- topo_sort

  /** Listing a dependency on an id that is not a task's id. */
  predicate NoDangling(tasks: seq<Task>) {
    forall t, d :: t in tasks && d in t.dependsOn ==> d in Ids(tasks)
  }

  /** Every dependency of the task with id `order[i]` occurs before position `i`. */
  ghost predicate DepsBefore(tasks: seq<Task>, order: seq<string>) {
    forall i, t :: 0 <= i < |order| && t in tasks && t.id == order[i] ==> Elems(t.dependsOn) <= Elems(order[..i])
  }

  /** The ids of the tasks that list `d` (`rev[d]` of `topo_sort`). */
  function Dependents(tasks: seq<Task>, d: string): set<string> {
    set t | t in tasks && d in t.dependsOn :: t.id
  }

  lemma DependentsSnoc(ts: seq<Task>, t: Task, d: string)
    ensures Dependents(ts + [t], d) == Dependents(ts, d) + (if d in t.dependsOn then {t.id} else {})
  {
    assert forall u :: u in ts + [t] <==> u in ts || u == t;
  }

  /** The ids of `g` not yet emitted whose dependencies all are: what `ready` holds between steps. */
  ghost function Available(g: map<string, seq<string>>, emitted: set<string>): set<string> {
    set m | m in g && m !in emitted && Elems(g[m]) <= emitted
  }

  /** `x` is the smallest string of `a`. */
  ghost predicate IsLeast(x: string, a: set<string>) {
    x in a && forall y :: y in a ==> StrLe(x, y)
  }

  /** The id at position `i` is the smallest one available after the ids before it. */
  ghost predicate GreedyAt(g: map<string, seq<string>>, order: seq<string>, i: int) {
    0 <= i < |order| && IsLeast(order[i], Available(g, Elems(order[..i])))
  }

  /** Each emitted id is the smallest one available after the ids before it. */
  ghost predicate Greedy(g: map<string, seq<string>>, order: seq<string>) {
    forall i :: 0 <= i < |order| ==> GreedyAt(g, order, i)
  }

  /** Python's string `<=` orders `sorted` and `list.sort`. */
  lemma StrLePreorder()
    ensures TotalPreorder(StrLe)
  {
    forall a, b ensures StrLe(a, b) || StrLe(b, a) {
      StrLeTotal(a, b);
    }
    forall a, b, c | StrLe(a, b) && StrLe(b, c) ensures StrLe(a, c) {
      StrLeTransitive(a, b, c);
    }
  }

  /** The head of a sorted list is its smallest entry. */
  lemma SortedHead(ready: seq<string>)
    requires ready != [] && SortedBy(ready, StrLe)
    ensures IsLeast(ready[0], Elems(ready))
  {
    StrLeTotal(ready[0], ready[0]);
    forall y | y in Elems(ready) ensures StrLe(ready[0], y) {
      var j :| 0 <= j < |ready| && ready[j] == y;
    }
  }

  /** Appending `x` to a list without repeats and sorting again gives a sorted list without repeats. */
  lemma SortedInsert(ready: seq<string>, x: string)
    requires Distinct(ready) && x !in ready
    ensures SortedBy(SortBy(ready + [x], StrLe), StrLe)
    ensures Distinct(SortBy(ready + [x], StrLe)) && Elems(SortBy(ready + [x], StrLe)) == Elems(ready) + {x}
  {
    StrLePreorder();
    SortBySorted(ready + [x], StrLe);
    assert Distinct(ready + [x]);
    PermutationDistinct(ready + [x], SortBy(ready + [x], StrLe));
    assert Elems(ready + [x]) == Elems(ready) + {x};
  }

  /** Emitting the smallest available id extends a greedy order. */
  lemma GreedySnoc(g: map<string, seq<string>>, order: seq<string>, n: string)
    requires Greedy(g, order) && IsLeast(n, Available(g, Elems(order)))
    ensures Greedy(g, order + [n])
  {
    var r := order + [n];
    forall i | 0 <= i < |r| ensures GreedyAt(g, r, i) {
      if i < |order| {
        assert GreedyAt(g, order, i);
        assert r[..i] == order[..i];
      } else {
        assert r[..i] == order;
      }
    }
  }

  /** The ids of a greedy order have all their dependencies inside it. */
  lemma GreedyClosed(g: map<string, seq<string>>, order: seq<string>)
    requires Greedy(g, order)
    ensures forall m :: m in Elems(order) ==> m in g && Elems(g[m]) <= Elems(order)
  {
    forall m | m in Elems(order) ensures m in g && Elems(g[m]) <= Elems(order) {
      var i :| 0 <= i < |order| && order[i] == m;
      assert GreedyAt(g, order, i);
      assert Elems(order[..i]) <= Elems(order);
    }
  }

  /** With unique ids, the tasks listing `n` are exactly the ids whose dictionary entry lists `n`. */
  lemma DependentsUnique(tasks: seq<Task>, n: string)
    requires UniqueIds(tasks)
    ensures forall m :: m in Dependents(tasks, n) <==> m in DepsMap(tasks) && n in DepsMap(tasks)[m]
  {
    forall m ensures m in Dependents(tasks, n) <==> m in DepsMap(tasks) && n in DepsMap(tasks)[m] {
      if m in Dependents(tasks, n) {
        var t :| t in tasks && n in t.dependsOn && t.id == m;
        DepsMapUnique(tasks, t);
      }
      if m in DepsMap(tasks) {
        var t :| t in tasks && t.id == m;
        DepsMapUnique(tasks, t);
      }
    }
  }

  /** The inner loop of the `rev` construction for one task: `id` is added to the entry of every id in
      `deps`, an entry being created where there is none. */
  method AddDependent(rev0: map<string, set<string>>, id: string, deps: seq<string>) returns (rev: map<string, set<string>>)
    ensures rev.Keys == rev0.Keys + Elems(deps)
    ensures forall d :: d in rev ==> rev[d] == (if d in rev0 then rev0[d] else {}) + (if d in deps then {id} else {})
  {
    rev := rev0;
    for j := 0 to |deps|
      invariant rev.Keys == rev0.Keys + Elems(deps[..j])
      invariant forall d :: d in rev ==> rev[d] == (if d in rev0 then rev0[d] else {}) + (if d in deps[..j] then {id} else {})
    {
      assert deps[..j + 1] == deps[..j] + [deps[j]];
      var d := deps[j];
      rev := rev[d := (if d in rev then rev[d] else {}) + {id}];
    }
    assert deps[..|deps|] == deps;
  }

  /** The `rev` dictionary: an empty entry per task id, then each task's id added to the entry of
      every id it lists. */
  method BuildReverse(tasks: seq<Task>) returns (rev: map<string, set<string>>)
    ensures Ids(tasks) <= rev.Keys
    ensures forall d :: d in rev ==> rev[d] == Dependents(tasks, d)
    ensures forall d :: d !in rev ==> Dependents(tasks, d) == {}
  {
    rev := map m | m in Ids(tasks) :: {};
    for i := 0 to |tasks|
      invariant Ids(tasks) <= rev.Keys
      invariant forall d :: d in rev ==> rev[d] == Dependents(tasks[..i], d)
      invariant forall d :: d !in rev ==> Dependents(tasks[..i], d) == {}
    {
      var t := tasks[i];
      assert tasks[..i + 1] == tasks[..i] + [t];
      forall d ensures Dependents(tasks[..i + 1], d) == Dependents(tasks[..i], d) + (if d in t.dependsOn then {t.id} else {}) {
        DependentsSnoc(tasks[..i], t, d);
      }
      rev := AddDependent(rev, t.id, t.dependsOn);
    }
    assert tasks[..|tasks|] == tasks;
  }

  /** The invariant of the main loop of `topo_sort`: `deps` holds each id's dependencies not yet
      emitted, and `ready` holds, sorted, exactly the available ids. */
  ghost predicate TopoState(g: map<string, seq<string>>, deps: map<string, set<string>>, result: seq<string>, ready: seq<string>) {
    var emitted := Elems(result);
    && deps.Keys == g.Keys
    && (forall m :: m in g ==> deps[m] == Elems(g[m]) - emitted)
    && Distinct(result) && emitted <= g.Keys
    && SortedBy(ready, StrLe) && Distinct(ready) && Elems(ready) == Available(g, emitted)
    && Greedy(g, result)
  }

  /** The invariant of the inner loop after `n` is emitted following `emitted`: `dependents` are the ids
      listing `n`, those in `pending` still count `n` as missing, and `ready` holds the available ids
      outside `pending`. */
  ghost predicate ReleaseState(g: map<string, seq<string>>, n: string, emitted: set<string>, dependents: set<string>,
                               pending: set<string>, deps: map<string, set<string>>, ready: seq<string>) {
    && n in g && n !in emitted && emitted <= g.Keys
    && (forall m :: m in dependents <==> m in g && n in g[m])
    && (forall m :: m in dependents ==> m !in emitted + {n})
    && pending <= dependents
    && deps.Keys == g.Keys
    && (forall m :: m in g ==> deps[m] == Elems(g[m]) - (if m in pending then emitted else emitted + {n}))
    && SortedBy(ready, StrLe) && Distinct(ready) && Elems(ready) == Available(g, emitted + {n}) - pending
  }

  /** One step of the inner loop: `n` is discarded from `m`'s dependencies, and `m` is queued if none remain. */
  lemma ReleaseStep(g: map<string, seq<string>>, n: string, emitted: set<string>, dependents: set<string>,
                    pending: set<string>, deps: map<string, set<string>>, ready: seq<string>, m: string)
    requires m in pending && ReleaseState(g, n, emitted, dependents, pending, deps, ready)
    ensures m in deps
    ensures var deps' := deps[m := deps[m] - {n}];
      ReleaseState(g, n, emitted, dependents, pending - {m}, deps',
                   if deps'[m] == {} then SortBy(ready + [m], StrLe) else ready)
  {
    var s' := emitted + {n};
    var deps' := deps[m := deps[m] - {n}];
    assert deps'[m] == Elems(g[m]) - s';
    assert deps'[m] == {} <==> m in Available(g, s');
    QueueStep(Available(g, s'), pending, ready, m);
  }

  /** Taking `m` out of `pending` adds it to the sorted queue exactly when it belongs to `a`. */
  lemma QueueStep(a: set<string>, pending: set<string>, ready: seq<string>, m: string)
    requires m in pending && SortedBy(ready, StrLe) && Distinct(ready) && Elems(ready) == a - pending
    ensures var r := if m in a then SortBy(ready + [m], StrLe) else ready;
      SortedBy(r, StrLe) && Distinct(r) && Elems(r) == a - (pending - {m})
  {
    if m in a {
      SortedInsert(ready, m);
    }
    assert a - (pending - {m}) == (a - pending) + (if m in a then {m} else {});
  }

  /** Popping the smallest ready id `n` and emitting it starts the inner loop on the ids listing it. */
  lemma PopStep(g: map<string, seq<string>>, deps: map<string, set<string>>, result: seq<string>, ready: seq<string>,
                dependents: set<string>)
    requires ready != [] && TopoState(g, deps, result, ready)
    requires forall m :: m in dependents <==> m in g && ready[0] in g[m]
    ensures ReleaseState(g, ready[0], Elems(result), dependents, dependents, deps, ready[1..])
    ensures Greedy(g, result + [ready[0]])
  {
    var n := ready[0];
    var emitted := Elems(result);
    assert ready == [n] + ready[1..];
    assert n in Available(g, emitted);
    assert Elems(ready[1..]) == Elems(ready) - {n};
    GreedyClosed(g, result);
    SortedHead(ready);
    GreedySnoc(g, result, n);
  }

  /** When the inner loop ends, the main loop's invariant holds again with `n` emitted. */
  lemma ReleaseDone(g: map<string, seq<string>>, n: string, result: seq<string>, dependents: set<string>,
                    deps: map<string, set<string>>, ready: seq<string>)
    requires ReleaseState(g, n, Elems(result), dependents, {}, deps, ready)
    requires Distinct(result) && Greedy(g, result + [n])
    ensures TopoState(g, deps, result + [n], ready)
  {
    assert Elems(result + [n]) == Elems(result) + {n};
  }

  /** Sorting the ids with no dependencies gives the first `ready` list. */
  lemma InitialState(g: map<string, seq<string>>, deps: map<string, set<string>>, roots: seq<string>)
    requires deps.Keys == g.Keys && forall m :: m in g ==> deps[m] == Elems(g[m])
    requires Distinct(roots) && forall m :: m in roots <==> m in g && deps[m] == {}
    ensures TopoState(g, deps, [], SortBy(roots, StrLe))
  {
    var ready := SortBy(roots, StrLe);
    StrLePreorder();
    SortBySorted(roots, StrLe);
    PermutationDistinct(roots, ready);
    var none: seq<string> := [];
    assert Elems(none) == {};
  }

  /** `[tid for tid, d in deps.items() if not d]`: the ids, in the given order, with no dependency left. */
  function Roots(keys: seq<string>, deps: map<string, set<string>>): (r: seq<string>)
    requires forall k :: k in keys ==> k in deps
    ensures forall m :: m in r <==> m in keys && deps[m] == {}
    ensures Distinct(keys) ==> Distinct(r)
  {
    if keys == [] then []
    else
      var p := keys[..|keys| - 1];
      var k := keys[|keys| - 1];
      assert keys == p + [k];
      var q := Roots(p, deps);
      assert Distinct(keys) ==> Distinct(p) && k !in p;
      if deps[k] == {} then q + [k] else q
  }

  /** The inner loop of `topo_sort`: `n` is discarded from the dependencies of every id listing it,
      in any order, and each id left with none is added to `ready`, which is sorted again. */
  method ReleaseReady(n: string, pending: set<string>, deps: map<string, set<string>>, ready: seq<string>,
                      ghost g: map<string, seq<string>>, ghost emitted: set<string>, ghost dependents: set<string>)
    returns (deps': map<string, set<string>>, ready': seq<string>)
    requires ReleaseState(g, n, emitted, dependents, pending, deps, ready)
    ensures ReleaseState(g, n, emitted, dependents, {}, deps', ready')
  {
    var todo := pending;
    deps', ready' := deps, ready;
    while todo != {}
      invariant ReleaseState(g, n, emitted, dependents, todo, deps', ready')
      decreases |todo|
    {
      var m :| m in todo;
      ReleaseStep(g, n, emitted, dependents, todo, deps', ready', m);
      deps' := deps'[m := deps'[m] - {n}];
      if deps'[m] == {} {
        ready' := SortBy(ready' + [m], StrLe);
      }
      todo := todo - {m};
    }
  }

  /** One round of the main loop of `topo_sort`: the smallest ready id is popped and emitted, and the
      ids listing it are released. */
  method EmitSmallest(ghost tasks: seq<Task>, ghost g: map<string, seq<string>>, rev: map<string, set<string>>,
                      deps: map<string, set<string>>, result: seq<string>, ready: seq<string>)
    returns (deps': map<string, set<string>>, result': seq<string>, ready': seq<string>)
    requires UniqueIds(tasks) && g == DepsMap(tasks)
    requires forall d :: d in rev ==> rev[d] == Dependents(tasks, d)
    requires forall d :: d !in rev ==> Dependents(tasks, d) == {}
    requires ready != [] && TopoState(g, deps, result, ready)
    ensures TopoState(g, deps', result', ready')
    ensures result' == result + [ready[0]] && |result'| <= |g.Keys|
  {
    var n := ready[0];
    var pending := if n in rev then rev[n] else {};
    DependentsUnique(tasks, n);
    PopStep(g, deps, result, ready, pending);
    result' := result + [n];
    deps', ready' := ReleaseReady(n, pending, deps, ready[1..], g, Elems(result), pending);
    ReleaseDone(g, n, result, pending, deps', ready');
    DistinctWithin(result', g.Keys);
  }

  /** The main loop of `topo_sort`: rounds run while some id is ready. */
  method Drain(ghost tasks: seq<Task>, ghost g: map<string, seq<string>>, rev: map<string, set<string>>,
               deps: map<string, set<string>>, ready: seq<string>)
    returns (deps': map<string, set<string>>, result: seq<string>)
    requires UniqueIds(tasks) && g == DepsMap(tasks)
    requires forall d :: d in rev ==> rev[d] == Dependents(tasks, d)
    requires forall d :: d !in rev ==> Dependents(tasks, d) == {}
    requires TopoState(g, deps, [], ready)
    ensures TopoState(g, deps', result, [])
  {
    var ready' := ready;
    deps' := deps;
    result := [];
    while ready' != []
      invariant TopoState(g, deps', result, ready')
      decreases |g.Keys| - |result|
    {
      deps', result, ready' := EmitSmallest(tasks, g, rev, deps', result, ready');
    }
  }

  /** The set-up of `topo_sort`: the `rev` dictionary, each id's dependencies, and the sorted ids
      that have none. */
  method StartTopo(tasks: seq<Task>) returns (rev: map<string, set<string>>, deps: map<string, set<string>>, ready: seq<string>)
    ensures forall d :: d in rev ==> rev[d] == Dependents(tasks, d)
    ensures forall d :: d !in rev ==> Dependents(tasks, d) == {}
    ensures TopoState(DepsMap(tasks), deps, [], ready)
  {
    var g := DepsMap(tasks);
    deps := map m | m in g :: Elems(g[m]);
    rev := BuildReverse(tasks);
    var keys := Dedup(IdList(tasks));
    IdListElems(tasks);
    var roots := Roots(keys, deps);
    ready := SortBy(roots, StrLe);
    InitialState(g, deps, roots);
  }

  /** `topo_sort`: Kahn's algorithm that always emits the smallest ready id. It succeeds exactly when the
      lattice has no cycle and no task lists an unknown id; its output is then every id once, each after
      its dependencies, and at each step the smallest id whose dependencies are all emitted. */
  method TopoSort(tasks: seq<Task>) returns (r: Result<seq<string>, string>)
    requires UniqueIds(tasks)
    ensures r.Ok? ==> Distinct(r.value) && Elems(r.value) == Ids(tasks)
    ensures r.Ok? ==> DepsBefore(tasks, r.value) && Greedy(DepsMap(tasks), r.value)
    ensures r.Ok? <==> !Digraph.HasCycle(ListedEdges(tasks)) && NoDangling(tasks)
    ensures r.Err? ==> r.error == "Graph has cycles; cannot topologically sort"
  {
    var rev, deps, ready := StartTopo(tasks);
    var deps', result := Drain(tasks, DepsMap(tasks), rev, deps, ready);
    TopoEnd(tasks, deps', result);
    if |result| != |tasks| {
      return Err("Graph has cycles; cannot topologically sort");
    }
    return Ok(result);
  }

  /** When no id is ready the sort is over: it emitted every task exactly when there is no cycle and
      no dangling dependency, and a complete output is a greedy order of all ids. */
  lemma TopoEnd(tasks: seq<Task>, deps: map<string, set<string>>, result: seq<string>)
    requires UniqueIds(tasks) && TopoState(DepsMap(tasks), deps, result, [])
    ensures |result| == |tasks| <==> !Digraph.HasCycle(ListedEdges(tasks)) && NoDangling(tasks)
    ensures |result| == |tasks| ==> Distinct(result) && Elems(result) == Ids(tasks)
    ensures |result| == |tasks| ==> DepsBefore(tasks, result) && Greedy(DepsMap(tasks), result)
  {
    var none: seq<string> := [];
    assert Elems(none) == {};
    if |result| != |tasks| {
      TopoStuck(tasks, result);
    } else {
      TopoDone(tasks, result);
    }
  }

  /** With unique ids there are as many ids as tasks. */
  lemma UniqueCount(tasks: seq<Task>)
    requires UniqueIds(tasks)
    ensures |Ids(tasks)| == |tasks|
  {
    IdListElems(tasks);
    DistinctCard(IdList(tasks));
  }

  /** Emitting every id greedily puts each dependency first, so no dependency dangles and no cycle exists. */
  lemma TopoDone(tasks: seq<Task>, result: seq<string>)
    requires UniqueIds(tasks) && Distinct(result) && Elems(result) <= Ids(tasks) && |result| == |tasks|
    requires Greedy(DepsMap(tasks), result)
    ensures Elems(result) == Ids(tasks) && DepsBefore(tasks, result)
    ensures !Digraph.HasCycle(ListedEdges(tasks)) && NoDangling(tasks)
  {
    UniqueCount(tasks);
    DistinctWithin(result, Ids(tasks));
    var g := DepsMap(tasks);
    forall i, t | 0 <= i < |result| && t in tasks && t.id == result[i] ensures Elems(t.dependsOn) <= Elems(result[..i]) {
      DepsMapUnique(tasks, t);
      assert GreedyAt(g, result, i);
    }
    forall t, d | t in tasks && d in t.dependsOn ensures d in Ids(tasks) {
      assert t.id in Elems(result);
      var i :| 0 <= i < |result| && result[i] == t.id;
      assert GreedyAt(g, result, i);
      assert d in Elems(result[..i]);
    }
    var e := ListedEdges(tasks);
    forall u, v | (u, v) in e ensures u in result {
      assert u in Ids(tasks);
    }
    forall j, v | 0 <= j < |result| && (result[j], v) in e ensures v in result[..j] {
      var t, d :| t in tasks && d in t.dependsOn && (t.id, d) == (result[j], v);
      assert d in Elems(result[..j]);
    }
    Digraph.NoCycleWhenOrdered(result, e);
  }

  /** Every id a map entry lists is itself a key. */
  ghost predicate Closed(g: map<string, seq<string>>) {
    forall m, d :: m in g && d in g[m] ==> d in g
  }

  /** With unique ids, a lattice without dangling dependencies gives a closed dictionary. */
  lemma ClosedUnique(tasks: seq<Task>)
    requires UniqueIds(tasks) && NoDangling(tasks)
    ensures Closed(DepsMap(tasks))
  {
    var g := DepsMap(tasks);
    forall m, d | m in g && d in g[m] ensures d in g {
      var t :| t in tasks && t.id == m;
      DepsMapUnique(tasks, t);
    }
  }

  /** When nothing is available, every id not yet emitted lists one that is not emitted either. */
  lemma StuckClosed(g: map<string, seq<string>>, emitted: set<string>)
    requires Available(g, emitted) == {} && Closed(g)
    ensures Digraph.SuccessorClosed(g.Keys - emitted, GraphEdges(g))
  {
    var s := g.Keys - emitted;
    forall m | m in s ensures Digraph.Successors(m, GraphEdges(g)) * s != {} {
      assert m !in Available(g, emitted);
      var d :| d in g[m] && d !in emitted;
      assert (m, d) in GraphEdges(g);
      assert d in Digraph.Successors(m, GraphEdges(g)) * s;
    }
  }

  /** A list of distinct ids shorter than the task list (with unique ids) misses some id. */
  lemma MissesSome(tasks: seq<Task>, result: seq<string>)
    requires UniqueIds(tasks) && Distinct(result) && Elems(result) <= Ids(tasks) && |result| != |tasks|
    ensures Ids(tasks) - Elems(result) != {}
  {
    UniqueCount(tasks);
    DistinctCard(result);
    SubsetCard(Elems(result), Ids(tasks));
    assert Elems(result) != Ids(tasks);
    assert Ids(tasks) == Elems(result) + (Ids(tasks) - Elems(result));
  }

  /** When nothing is ready before every id is emitted, each remaining id lists a remaining id (or an
      unknown one), so the lattice has a cycle or a dangling dependency. */
  lemma TopoStuck(tasks: seq<Task>, result: seq<string>)
    requires UniqueIds(tasks) && Distinct(result) && Elems(result) <= Ids(tasks) && |result| != |tasks|
    requires Available(DepsMap(tasks), Elems(result)) == {}
    ensures Digraph.HasCycle(ListedEdges(tasks)) || !NoDangling(tasks)
  {
    var g := DepsMap(tasks);
    MissesSome(tasks, result);
    assert g.Keys == Ids(tasks);
    if NoDangling(tasks) {
      ClosedUnique(tasks);
      StuckClosed(g, Elems(result));
      GraphEdgesUnique(tasks);
      Digraph.CycleFromSuccessors(g.Keys - Elems(result), GraphEdges(g));
    }
  }

  /** The first id emitted is the smallest id whose task lists no dependency. */
  lemma GreedyFirst(g: map<string, seq<string>>, order: seq<string>)
    requires Greedy(g, order) && order != []
    ensures order[0] in g && g[order[0]] == []
    ensures forall x :: x in g && g[x] == [] ==> StrLe(order[0], x)
  {
    assert Elems(order[..0]) == {};
    assert GreedyAt(g, order, 0);
    EmptyElems(g[order[0]]);
    forall x | x in g && g[x] == [] ensures StrLe(order[0], x) {
      assert Elems(g[x]) == {};
      assert x in Available(g, {});
    }
  }

  /** The greedy order is unique: two greedy orders of the same length are equal. */
  lemma {:induction false} GreedyUnique(g: map<string, seq<string>>, a: seq<string>, b: seq<string>)
    requires Greedy(g, a) && Greedy(g, b) && |a| == |b|
    ensures a == b
  {
    if a != [] {
      var k := |a| - 1;
      assert Greedy(g, a[..k]) by {
        forall i | 0 <= i < k ensures GreedyAt(g, a[..k], i) {
          assert GreedyAt(g, a, i);
          assert a[..k][..i] == a[..i];
        }
      }
      assert Greedy(g, b[..k]) by {
        forall i | 0 <= i < k ensures GreedyAt(g, b[..k], i) {
          assert GreedyAt(g, b, i);
          assert b[..k][..i] == b[..i];
        }
      }
      GreedyUnique(g, a[..k], b[..k]);
      assert GreedyAt(g, a, k) && GreedyAt(g, b, k);
      StrLeTotal(a[k], b[k]);
      assert a == a[..k] + [a[k]] && b == b[..k] + [b[k]];
    }
  }
}
