/** The readiness listing of the project commands (src/lattice_base/project/core.py) over the older
    `lattice` records: which tasks can start, and the (priority, id) order they are shown in. */
module ProjectCore {
  import opened Wrappers
  import opened Seqs
  import opened Text
  import opened Sorting
  import opened LatticeModel

  /** `{t.id: t for t in lat.tasks}`: a later task with the same id replaces an earlier one. */
  function ById(tasks: seq<Task>): (idx: map<string, Task>)
    ensures idx.Keys == Ids(tasks)
    ensures forall k :: k in idx ==> idx[k].id == k && idx[k] in tasks
  {
    if tasks == [] then map[]
    else
      var p := tasks[..|tasks| - 1];
      var t := tasks[|tasks| - 1];
      assert tasks == p + [t];
      assert Ids(tasks) == Ids(p) + {t.id};
      ById(p)[t.id := t]
  }

  /** `is_done(tid)`: the id names a task whose status is done; an unknown id is not done. */
  predicate IsDone(idx: map<string, Task>, d: string) {
    d in idx && idx[d].status == Done
  }

  /** The test `compute_possible_tasks` applies to one task: any kind, not done, not blocked, and every
      dependency done. */
  predicate IsPossible(idx: map<string, Task>, t: Task) {
    && t.status != Done
    && t.status != Blocked
    && forall d :: d in t.dependsOn ==> IsDone(idx, d)
  }

  /** The tasks of `ts` that pass `IsPossible`, in their original order. */
  function PossibleAmong(ts: seq<Task>, idx: map<string, Task>): seq<Task> {
    if ts == [] then []
    else
      var t := ts[|ts| - 1];
      PossibleAmong(ts[..|ts| - 1], idx) + (if IsPossible(idx, t) then [t] else [])
  }

  /** `compute_possible_tasks`. */
  method ComputePossibleTasks(tasks: seq<Task>) returns (ready: seq<Task>)
    ensures ready == PossibleAmong(tasks, ById(tasks))
  {
    var byId := ById(tasks);
    ready := [];
    for i := 0 to |tasks|
      invariant ready == PossibleAmong(tasks[..i], byId)
    {
      var t := tasks[i];
      assert tasks[..i + 1][..i] == tasks[..i];
      if t.status == Done {
        continue;
      }
      if t.status == Blocked {
        continue;
      }
      if forall d :: d in t.dependsOn ==> IsDone(byId, d) {
        ready := ready + [t];
      }
    }
    assert tasks[..|tasks|] == tasks;
  }

  /** A task is listed exactly when it is in the lattice and passes the test. */
  lemma {:induction false} PossibleAmongMembers(ts: seq<Task>, idx: map<string, Task>)
    ensures forall t :: t in PossibleAmong(ts, idx) <==> t in ts && IsPossible(idx, t)
  {
    if ts != [] {
      var p := ts[..|ts| - 1];
      var t := ts[|ts| - 1];
      assert ts == p + [t];
      PossibleAmongMembers(p, idx);
    }
  }

  /** The listed tasks keep the lattice's order. */
  lemma {:induction false} PossibleAmongOrder(ts: seq<Task>, idx: map<string, Task>)
    ensures IsSubsequence(PossibleAmong(ts, idx), ts)
  {
    if ts != [] {
      var p := ts[..|ts| - 1];
      var t := ts[|ts| - 1];
      PossibleAmongOrder(p, idx);
      PossibleAmongMembers(p, idx);
      var r := PossibleAmong(ts, idx);
      var q := PossibleAmong(p, idx);
      if IsPossible(idx, t) {
        assert r == q + [t] && r[..|r| - 1] == q;
      } else {
        assert r == q;
        if q != [] {
          assert q[|q| - 1] in q;
          assert q[|q| - 1] != t;
        }
      }
    }
  }

  /** A dependency on an id the lattice does not know keeps a task from being listed. */
  lemma MissingDependencyNotPossible(tasks: seq<Task>, t: Task, d: string)
    requires d in t.dependsOn && d !in Ids(tasks)
    ensures t !in PossibleAmong(tasks, ById(tasks))
  {
    PossibleAmongMembers(tasks, ById(tasks));
  }

  /** A task of the lattice that is neither done nor blocked and lists no dependency is always listed,
      whatever its kind. */
  lemma NoDependenciesPossible(tasks: seq<Task>, t: Task)
    requires t in tasks && t.status != Done && t.status != Blocked && t.dependsOn == []
    ensures t in PossibleAmong(tasks, ById(tasks))
  {
    PossibleAmongMembers(tasks, ById(tasks));
  }

  /** `_task_priority_value` on the priority attribute `pr`: a missing or empty priority ranks 3; otherwise
      its lower-case form ranks high 0, medium 1, low 2 and anything else 3. */
  function PriorityValue(pr: Option<string>): (v: nat)
    ensures v <= 3
    ensures pr.None? || pr.value == "" ==> v == 3
  {
    if pr.None? || pr.value == "" then 3
    else
      var p := Lower(pr.value);
      if p == "high" then 0
      else if p == "medium" then 1
      else if p == "low" then 2
      else 3
  }

  /** The ranks are case-insensitive: high ranks 0, medium 1 and low 2 however they are capitalised,
      and every other non-empty value ranks 3. */
  lemma PriorityValueSpec(s: string)
    ensures PriorityValue(Some(s)) == 0 <==> Lower(s) == "high"
    ensures PriorityValue(Some(s)) == 1 <==> Lower(s) == "medium"
    ensures PriorityValue(Some(s)) == 2 <==> Lower(s) == "low"
    ensures PriorityValue(Some(s)) == 3 <==> Lower(s) !in {"high", "medium", "low"}
  {
    if s == "" {
      assert Lower(s) == "";
    }
  }

  /** Two spellings that differ only in letter case rank the same. */
  lemma PriorityValueCaseInsensitive(a: string, b: string)
    requires Lower(a) == Lower(b)
    ensures PriorityValue(Some(a)) == PriorityValue(Some(b))
  {
    PriorityValueSpec(a);
    PriorityValueSpec(b);
  }

  /** `getattr(task, "priority", None)`: the older task record has no priority field, so it is always `None`. */
  function PriorityAttribute(t: Task): (r: Option<string>)
    ensures r.None?
  {
    None
  }

  /** `_task_priority_value(task)`: every older task ranks 3, after any named priority. */
  function TaskPriorityValue(t: Task): (r: nat)
    ensures r == 3
  {
    PriorityValue(PriorityAttribute(t))
  }

  /** The key `(_task_priority_value(t), t.id)` compared as a Python tuple. */
  predicate NextKeyLe(a: Task, b: Task) {
    TaskPriorityValue(a) < TaskPriorityValue(b)
    || (TaskPriorityValue(a) == TaskPriorityValue(b) && StrLe(a.id, b.id))
  }

  lemma NextKeyPreorder()
    ensures TotalPreorder(NextKeyLe)
  {
    forall a, b ensures NextKeyLe(a, b) || NextKeyLe(b, a) {
      StrLeTotal(a.id, b.id);
    }
    forall a, b, c | NextKeyLe(a, b) && NextKeyLe(b, c) ensures NextKeyLe(a, c) {
      if TaskPriorityValue(a) == TaskPriorityValue(b) == TaskPriorityValue(c) {
        StrLeTransitive(a.id, b.id, c.id);
      }
    }
  }

  /** The order `cli_next_main` prints the ready tasks in: sorted by (priority value, id). It has the shape of `Cli.NextOrder`, but over the older record and `_task_priority_value`'s rank. */
  function NextOrder(ready: seq<Task>): (r: seq<Task>)
    ensures multiset(r) == multiset(ready)
    ensures SortedBy(r, NextKeyLe)
  {
    NextKeyPreorder();
    SortBySorted(ready, NextKeyLe);
    SortBy(ready, NextKeyLe)
  }

  /** Since every older task ranks 3, the printed order is plain id order. */
  lemma NextOrderById(ready: seq<Task>)
    ensures forall i, j :: 0 <= i < j < |NextOrder(ready)| ==> StrLe(NextOrder(ready)[i].id, NextOrder(ready)[j].id)
  {
    var r := NextOrder(ready);
    forall i, j | 0 <= i < j < |r| ensures StrLe(r[i].id, r[j].id) {
      assert NextKeyLe(r[i], r[j]);
    }
  }
}
