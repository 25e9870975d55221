/** The decisions the lattice commands of src/lattice_base/cli.py take: the checks `main_validate`
    collects, the node shape and status class `main_mermaid` draws, and the order `main_next` lists the
    ready tasks in. Argument parsing, file lookup and printing are not part of this model. */
module Cli {
  import opened Wrappers
  import opened Seqs
  import opened Text
  import opened Sorting
  import opened Model
  import opened Graph
  import Digraph

  // ---------------------------------------------------------------- validate

  /** One line of the "Validation failed" report. */
  datatype ValidationError =
    | UnknownDependency(task: string, dep: string)
    | CycleDetected(reason: string)
    | MissingTest(task: string, kind: Kind, status: Status)
    | DuplicateId(task: string)

  /** The errors of one task's `depends_on` list: one per entry that is not a known id, in list order. */
  function UnknownDeps(id: string, deps: seq<string>, known: set<string>): seq<ValidationError> {
    if deps == [] then []
    else
      var d := deps[|deps| - 1];
      UnknownDeps(id, deps[..|deps| - 1], known) + (if d in known then [] else [UnknownDependency(id, d)])
  }

  /** The errors of the first loop of `main_validate`, task by task. */
  function DependencyErrors(ts: seq<Task>, known: set<string>): seq<ValidationError> {
    if ts == [] then []
    else
      var t := ts[|ts| - 1];
      DependencyErrors(ts[..|ts| - 1], known) + UnknownDeps(t.id, t.dependsOn, known)
  }

  /** The statuses that call for a test command. */
  predicate StatusNeedsTest(s: Status) {
    s in {Design, Planned, InProgress, Done, Blocked}
  }

  /** A task or completion whose status (a missing one read as suggested) calls for a test command,
      and whose test command is missing or empty. */
  predicate LacksRequiredTest(t: Task): (b: bool)
    ensures b ==> t.kind != Epic && t.kind != Subproject
    ensures b ==> t.status != Unset && t.status != Suggested
    ensures t.test.Some? && t.test.value != "" ==> !b
  {
    && (t.kind == PlainTask || t.kind == Completion)
    && StatusNeedsTest(EffectiveStatus(t.status))
    && (t.test.None? || t.test.value == "")
  }

  /** The errors of the last loop of `main_validate`, in task order. */
  function TestErrors(ts: seq<Task>): seq<ValidationError> {
    if ts == [] then []
    else
      var t := ts[|ts| - 1];
      TestErrors(ts[..|ts| - 1])
        + (if LacksRequiredTest(t) then [MissingTest(t.id, t.kind, EffectiveStatus(t.status))] else [])
  }

  /** When `topological_sort` raises (see `Graph.TopologicalSort`). */
  ghost predicate SortFails(tasks: seq<Task>) {
    Digraph.HasCycle(DependsOnEdges(tasks)) || !NoRepeatedKnownDeps(tasks)
  }

  /** Every error `main_validate` reports, in report order. */
  ghost function ValidationErrors(tasks: seq<Task>): seq<ValidationError> {
    DependencyErrors(tasks, Ids(tasks))
      + (if SortFails(tasks) then [CycleDetected("Cycle detected in dependency graph")] else [])
      + TestErrors(tasks)
  }

  /** The inner loop of the dependency check for one task. */
  method CheckTaskDependencies(id: string, deps: seq<string>, idx: map<string, Task>) returns (errors: seq<ValidationError>)
    ensures errors == UnknownDeps(id, deps, idx.Keys)
  {
    errors := [];
    for j := 0 to |deps|
      invariant errors == UnknownDeps(id, deps[..j], idx.Keys)
    {
      assert deps[..j + 1][..j] == deps[..j];
      if deps[j] !in idx {
        errors := errors + [UnknownDependency(id, deps[j])];
      }
    }
    assert deps[..|deps|] == deps;
  }

  /** The first loop of `main_validate`: an error for every listed id that is not a key of the index. */
  method CheckDependencies(tasks: seq<Task>, idx: map<string, Task>) returns (errors: seq<ValidationError>)
    ensures errors == DependencyErrors(tasks, idx.Keys)
  {
    errors := [];
    for i := 0 to |tasks|
      invariant errors == DependencyErrors(tasks[..i], idx.Keys)
    {
      var t := tasks[i];
      assert tasks[..i + 1][..i] == tasks[..i];
      var more := CheckTaskDependencies(t.id, t.dependsOn, idx);
      errors := errors + more;
    }
    assert tasks[..|tasks|] == tasks;
  }

  /** The last loop of `main_validate`: an error for every task or completion lacking a required test. */
  method CheckTests(tasks: seq<Task>) returns (errors: seq<ValidationError>)
    ensures errors == TestErrors(tasks)
  {
    errors := [];
    for i := 0 to |tasks|
      invariant errors == TestErrors(tasks[..i])
    {
      var t := tasks[i];
      assert tasks[..i + 1][..i] == tasks[..i];
      if t.kind == PlainTask || t.kind == Completion {
        var status := EffectiveStatus(t.status);
        if status in {Design, Planned, InProgress, Done, Blocked} && (t.test.None? || t.test.value == "") {
          errors := errors + [MissingTest(t.id, t.kind, status)];
        }
      }
    }
    assert tasks[..|tasks|] == tasks;
  }

  /** `main_validate` once the lattice is loaded: runs every check, collecting all errors rather than
      stopping at the first, and exits with 1 exactly when there is one. */
  method Validate(tasks: seq<Task>) returns (errors: seq<ValidationError>, code: int)
    ensures errors == ValidationErrors(tasks)
    ensures code == 1 <==> errors != []
    ensures code == 0 <==> errors == []
  {
    var idx := TaskIndex(tasks);
    errors := CheckDependencies(tasks, idx);
    var sorted := TopologicalSort(tasks);
    if sorted.Err? {
      errors := errors + [CycleDetected(sorted.error)];
    }
    var missing := CheckTests(tasks);
    errors := errors + missing;
    if errors != [] {
      code := 1;
    } else {
      code := 0;
    }
  }

  lemma {:induction false} UnknownDepsMember(id: string, deps: seq<string>, known: set<string>, e: ValidationError)
    ensures e in UnknownDeps(id, deps, known) <==> e.UnknownDependency? && e.task == id && e.dep in deps && e.dep !in known
  {
    if deps != [] {
      UnknownDepsMember(id, deps[..|deps| - 1], known, e);
      assert deps == deps[..|deps| - 1] + [deps[|deps| - 1]];
    }
  }

  /** One dependency error names a task and a listed id exactly when that id is unknown. */
  lemma {:induction false} DependencyErrorsMember(ts: seq<Task>, known: set<string>, e: ValidationError)
    ensures e in DependencyErrors(ts, known) <==>
      e.UnknownDependency? && e.dep !in known && exists t :: t in ts && t.id == e.task && e.dep in t.dependsOn
  {
    if ts != [] {
      var p := ts[..|ts| - 1];
      var t := ts[|ts| - 1];
      assert ts == p + [t];
      DependencyErrorsMember(p, known, e);
      UnknownDepsMember(t.id, t.dependsOn, known, e);
    }
  }

  /** A missing-test error is reported exactly for the tasks that lack a required test, and only ever
      for a task or completion whose status is past suggested. */
  lemma {:induction false} TestErrorsMember(ts: seq<Task>, e: ValidationError)
    ensures e in TestErrors(ts) <==>
      exists t :: t in ts && LacksRequiredTest(t) && e == MissingTest(t.id, t.kind, EffectiveStatus(t.status))
    ensures e in TestErrors(ts) ==>
      && (e.kind == PlainTask || e.kind == Completion)
      && e.status != Suggested && e.status != Unset
  {
    if ts != [] {
      var p := ts[..|ts| - 1];
      var t := ts[|ts| - 1];
      assert ts == p + [t];
      TestErrorsMember(p, e);
    }
  }

  /** The report holds a cycle error exactly when the topological sort fails. */
  lemma CycleErrorIff(tasks: seq<Task>)
    ensures (exists e :: e in ValidationErrors(tasks) && e.CycleDetected?) <==> SortFails(tasks)
  {
    forall e | e in ValidationErrors(tasks) && e.CycleDetected? ensures SortFails(tasks) {
      DependencyErrorsMember(tasks, Ids(tasks), e);
      TestErrorsMember(tasks, e);
    }
    if SortFails(tasks) {
      assert CycleDetected("Cycle detected in dependency graph") in ValidationErrors(tasks);
    }
  }

  /** Every listed id names a task. */
  ghost predicate DependenciesKnown(tasks: seq<Task>) {
    forall t, d :: t in tasks && d in t.dependsOn ==> d in Ids(tasks)
  }

  /** `main_validate` exits with 0 exactly when every dependency is known, the sort succeeds and no task
      lacks a required test. */
  lemma ValidIff(tasks: seq<Task>)
    ensures ValidationErrors(tasks) == [] <==>
      DependenciesKnown(tasks) && !SortFails(tasks) && forall t :: t in tasks ==> !LacksRequiredTest(t)
  {
    var known := Ids(tasks);
    if !DependenciesKnown(tasks) {
      var t, d :| t in tasks && d in t.dependsOn && d !in known;
      DependencyErrorsMember(tasks, known, UnknownDependency(t.id, d));
      assert UnknownDependency(t.id, d) in ValidationErrors(tasks);
    }
    if exists t :: t in tasks && LacksRequiredTest(t) {
      var t :| t in tasks && LacksRequiredTest(t);
      var e := MissingTest(t.id, t.kind, EffectiveStatus(t.status));
      TestErrorsMember(tasks, e);
      assert e in ValidationErrors(tasks);
    }
    if DependenciesKnown(tasks) && !SortFails(tasks) && forall t :: t in tasks ==> !LacksRequiredTest(t) {
      var d := DependencyErrors(tasks, known);
      var m := TestErrors(tasks);
      if d != [] {
        DependencyErrorsMember(tasks, known, d[0]);
      }
      if m != [] {
        TestErrorsMember(tasks, m[0]);
      }
    }
  }

  // ---------------------------------------------------------------- duplicate ids

  /** Two planned tasks sharing the id "a", each with a test command and no dependencies. */
  function DuplicateExample(): seq<Task> {
    [Task("a", "Task A", PlainTask, Planned, None, [], [], None, Some("echo a")),
     Task("a", "Task A again", PlainTask, Planned, None, [], [], None, Some("echo a-again"))]
  }

  /** `main_validate` as written accepts the lattice with a repeated id: it reports nothing. */
  lemma DuplicateIdsAccepted()
    ensures ValidationErrors(DuplicateExample()) == []
  {
    var tasks := DuplicateExample();
    var p := tasks[..1];
    assert p[..0] == [];
    assert DependencyErrors(p, Ids(tasks)) == [];
    assert DependencyErrors(tasks, Ids(tasks)) == [];
    assert TestErrors(p) == [];
    assert TestErrors(tasks) == [];
    var e := DependsOnEdges(tasks);
    assert e == {};
    Digraph.CycleNeedsEdge(e);
  }

  /** With the duplicate-id check the same lattice is rejected, with one error naming "a". */
  lemma DuplicateIdsRejected()
    ensures CheckedValidationErrors(DuplicateExample()) == [DuplicateId("a")]
  {
    DuplicateIdsAccepted();
    ExampleDuplicateErrors();
  }

  lemma ExampleDuplicateErrors()
    ensures DuplicateIdErrors(DuplicateExample()) == [DuplicateId("a")]
  {
    ExampleIds();
    ExampleOrder();
    ExampleDuplicates();
  }

  lemma ExampleIds()
    ensures IdList(DuplicateExample()) == ["a", "a"]
  {
  }

  lemma ExampleDuplicates()
    ensures DuplicatesIn(["a"], ["a", "a"]) == [DuplicateId("a")]
  {
    var ids := ["a", "a"];
    assert Count(ids, "a") == 2 by {
      assert ids[..1] == ["a"];
      assert ids[..1][..0] == [];
    }
    assert ["a"][..0] == [];
  }

  lemma ExampleOrder()
    ensures IdOrder(DuplicateExample()) == ["a"]
  {
    var order := IdOrder(DuplicateExample());
    ExampleIds();
    assert Elems(order) == {"a"};
    DistinctCard(order);
    assert order[0] in Elems(order);
  }

  /** One error per id of `order` that occurs more than once in `ids`, in the order of `order`. */
  function DuplicatesIn(order: seq<string>, ids: seq<string>): (r: seq<ValidationError>)
    ensures forall e :: e in r <==> e.DuplicateId? && e.task in order && Count(ids, e.task) > 1
  {
    if order == [] then []
    else
      var x := order[|order| - 1];
      assert order == order[..|order| - 1] + [x];
      DuplicatesIn(order[..|order| - 1], ids) + (if Count(ids, x) > 1 then [DuplicateId(x)] else [])
  }

  /** The duplicate-id check `main_validate` lacks: every id that occurs more than once, reported once,
      in the order the ids first occur. */
  function DuplicateIdErrors(tasks: seq<Task>): (r: seq<ValidationError>)
    ensures forall e :: e in r <==> e.DuplicateId? && Count(IdList(tasks), e.task) > 1
    ensures r == [] <==> Distinct(IdList(tasks))
  {
    var ids := IdList(tasks);
    var order := IdOrder(tasks);
    forall x | Count(ids, x) > 1 ensures x in order {
      var i :| 0 <= i < |ids| && ids[i] == x;
      assert tasks[i] in tasks;
      assert x in Ids(tasks);
      assert x in Elems(order);
    }
    DuplicatesNone(order, ids);
    DuplicatesIn(order, ids)
  }

  /** When `order` holds every repeated entry of `ids`, nothing is reported exactly when nothing repeats. */
  lemma DuplicatesNone(order: seq<string>, ids: seq<string>)
    requires forall x :: Count(ids, x) > 1 ==> x in order
    ensures DuplicatesIn(order, ids) == [] <==> Distinct(ids)
  {
    var r := DuplicatesIn(order, ids);
    DistinctCount(ids);
    if r != [] {
      assert r[0] in r;
      var x := r[0].task;
      assert Count(ids, x) > 1;
      assert !Distinct(ids);
    }
    if !Distinct(ids) {
      var x :| Count(ids, x) > 1;
      assert DuplicateId(x) in r;
    }
  }

  /** Every error validation should report: the duplicate ids first, then what `main_validate` reports. */
  ghost function CheckedValidationErrors(tasks: seq<Task>): seq<ValidationError> {
    DuplicateIdErrors(tasks) + ValidationErrors(tasks)
  }

  /** With the duplicate-id check, validation passes exactly when no id repeats, every dependency is
      known, the sort succeeds and no task lacks a required test. */
  lemma CheckedValidIff(tasks: seq<Task>)
    ensures CheckedValidationErrors(tasks) == [] <==>
      && Distinct(IdList(tasks))
      && DependenciesKnown(tasks) && !SortFails(tasks)
      && forall t :: t in tasks ==> !LacksRequiredTest(t)
  {
    ValidIff(tasks);
  }

  /** Validation with the duplicate-id check: every error is collected, duplicates first, and the exit
      code is 1 exactly when there is one. */
  method ValidateChecked(tasks: seq<Task>) returns (errors: seq<ValidationError>, code: int)
    ensures errors == CheckedValidationErrors(tasks)
    ensures code == 1 <==> errors != []
    ensures code == 0 <==> errors == []
  {
    var rest, _ := Validate(tasks);
    errors := DuplicateIdErrors(tasks) + rest;
    if errors != [] {
      code := 1;
    } else {
      code := 0;
    }
  }

  // ---------------------------------------------------------------- mermaid

  /** The opening and closing bracket of a node, chosen by kind; no two kinds share a shape. */
  function Shape(k: Kind): (r: (string, string))
    ensures r == ("(", ")") <==> k == PlainTask
    ensures r == ("[", "]") <==> k == Epic
    ensures r == ("[[", "]]") <==> k == Subproject
    ensures r == ("(((", ")))") <==> k == Completion
  {
    assert "(" != "[" && "(" != "[[" && "(" != "(((" && "[" != "[[" && "[" != "(((" && "[[" != "(((" by {
      assert "("[0] != "["[0] && |"("| != |"[["| && |"("| != |"((("| && |"["| != |"[["|;
      assert |"["| != |"((("| && |"[["| != |"((("|;
    }
    match k
    case PlainTask => ("(", ")")
    case Epic => ("[", "]")
    case Subproject => ("[[", "]]")
    case Completion => ("(((", ")))")
  }

  /** `t.name or t.id`: the text shown in a node. */
  function Label(t: Task): (r: string)
    ensures r == "" <==> t.name == "" && t.id == ""
    ensures r == t.name || (t.name == "" && r == t.id)
  {
    if t.name != "" then t.name else t.id
  }

  /** The classes `main_mermaid` defines before assigning them. */
  const ClassDefs: seq<string> := ["done", "inprogress", "planned", "blocked"]

  /** The class a node is given: only tasks and completions get one, by status. */
  function NodeClass(t: Task): (r: Option<string>)
    ensures r == Some("done") <==> (t.kind == PlainTask || t.kind == Completion) && EffectiveStatus(t.status) == Done
    ensures r == Some("inprogress") <==> (t.kind == PlainTask || t.kind == Completion) && EffectiveStatus(t.status) == InProgress
    ensures r == Some("planned") <==> (t.kind == PlainTask || t.kind == Completion) && EffectiveStatus(t.status) == Planned
    ensures r == Some("blocked") <==> (t.kind == PlainTask || t.kind == Completion) && EffectiveStatus(t.status) == Blocked
    ensures r.None? <==> (t.kind != PlainTask && t.kind != Completion) || EffectiveStatus(t.status) == Suggested
                         || EffectiveStatus(t.status) == Design
  {
    if t.kind != PlainTask && t.kind != Completion then None
    else
      var status := EffectiveStatus(t.status);
      if status == Done then Some("done")
      else if status == InProgress then Some("inprogress")
      else if status == Planned then Some("planned")
      else if status == Blocked then Some("blocked")
      else None
  }

  /** A node gets a class exactly when it is a task or completion in one of the four styled statuses;
      the class is one of the defined ones, and two such nodes share a class exactly when they share a
      status. */
  lemma NodeClassSpec(t: Task, u: Task)
    ensures NodeClass(t).Some? <==>
      (t.kind == PlainTask || t.kind == Completion) && EffectiveStatus(t.status) in {Done, InProgress, Planned, Blocked}
    ensures NodeClass(t).Some? ==> NodeClass(t).value in ClassDefs
    ensures NodeClass(t).Some? && NodeClass(u).Some? ==>
      (NodeClass(t) == NodeClass(u) <==> EffectiveStatus(t.status) == EffectiveStatus(u.status))
  {
    if NodeClass(t).Some? && NodeClass(u).Some? && NodeClass(t) == NodeClass(u) {
      var c := NodeClass(t).value;
      assert c[0] == NodeClass(u).value[0];
    }
  }

  // ---------------------------------------------------------------- next

  /** `t.priority or "medium"`: a missing priority reads as "medium". */
  function PriorityKey(p: Option<Priority>): (r: string)
    ensures r == "medium" <==> p.None? || p == Some(Medium)
    ensures p.Some? ==> r == PriorityName(p.value)
  {
    if p.None? then "medium" else PriorityName(p.value)
  }

  /** The key `(t.priority or "medium", t.id)` of `main_next`, compared as a Python tuple of strings. */
  predicate RawNextKeyLe(a: Task, b: Task) {
    var ka := PriorityKey(a.priority);
    var kb := PriorityKey(b.priority);
    (ka != kb && StrLe(ka, kb)) || (ka == kb && StrLe(a.id, b.id))
  }

  lemma RawNextKeyPreorder()
    ensures TotalPreorder(RawNextKeyLe)
  {
    forall a, b ensures RawNextKeyLe(a, b) || RawNextKeyLe(b, a) {
      StrLeTotal(a.id, b.id);
      StrLeTotal(PriorityKey(a.priority), PriorityKey(b.priority));
    }
    forall a, b, c | RawNextKeyLe(a, b) && RawNextKeyLe(b, c) ensures RawNextKeyLe(a, c) {
      var ka, kb, kc := PriorityKey(a.priority), PriorityKey(b.priority), PriorityKey(c.priority);
      StrLeTotal(ka, kb);
      StrLeTotal(kb, kc);
      StrLeTotal(ka, kc);
      StrLeTransitive(ka, kb, kc);
      if ka == kb == kc {
        StrLeTransitive(a.id, b.id, c.id);
      }
    }
  }

  /** The order `main_next` prints the ready tasks in, as written: sorted by the raw priority string. */
  function RawNextOrder(ready: seq<Task>): (r: seq<Task>)
    ensures multiset(r) == multiset(ready)
    ensures SortedBy(r, RawNextKeyLe)
  {
    RawNextKeyPreorder();
    SortBySorted(ready, RawNextKeyLe);
    SortBy(ready, RawNextKeyLe)
  }

  /** Sorting the raw strings puts "low" before "medium", so a low-priority task, whatever its id, is
      listed before a medium-priority one or one without a priority. */
  lemma RawKeyPutsLowBeforeMedium(a: Task, b: Task)
    requires a.priority == Some(Low) && (b.priority == Some(Medium) || b.priority == None)
    ensures RawNextKeyLe(a, b) && !RawNextKeyLe(b, a)
  {
    assert PriorityKey(a.priority)[0] == 'l';
    assert PriorityKey(b.priority)[0] == 'm';
  }

  /** A concrete instance: a ready medium task "a" and a ready low task "b" are listed as b, a. */
  lemma RawNextOrderExample()
    ensures
      var m := Task("a", "A", PlainTask, Unset, Some(Medium), [], [], None, None);
      var l := Task("b", "B", PlainTask, Unset, Some(Low), [], [], None, None);
      RawNextOrder([m, l]) == [l, m]
  {
    var m := Task("a", "A", PlainTask, Unset, Some(Medium), [], [], None, None);
    var l := Task("b", "B", PlainTask, Unset, Some(Low), [], [], None, None);
    RawKeyPutsLowBeforeMedium(l, m);
    assert [m, l][..1] == [m];
    assert SortBy([m], RawNextKeyLe) == [m];
  }

  /** The rank the priority names stand for: high, then medium (also for a missing priority, as
      `main_next` reads it), then low. */
  function PriorityRank(p: Option<Priority>): (r: nat)
    ensures r <= 2
    ensures r == 0 <==> p == Some(High)
    ensures r == 1 <==> p.None? || p == Some(Medium)
    ensures r == 2 <==> p == Some(Low)
  {
    match p
    case Some(High) => 0
    case None => 1
    case Some(Medium) => 1
    case Some(Low) => 2
  }

  /** The corrected key: priority rank, then id. */
  predicate NextKeyLe(a: Task, b: Task) {
    PriorityRank(a.priority) < PriorityRank(b.priority)
    || (PriorityRank(a.priority) == PriorityRank(b.priority) && StrLe(a.id, b.id))
  }

  lemma NextKeyPreorder()
    ensures TotalPreorder(NextKeyLe)
  {
    forall a, b ensures NextKeyLe(a, b) || NextKeyLe(b, a) {
      StrLeTotal(a.id, b.id);
    }
    forall a, b, c | NextKeyLe(a, b) && NextKeyLe(b, c) ensures NextKeyLe(a, c) {
      if PriorityRank(a.priority) == PriorityRank(b.priority) == PriorityRank(c.priority) {
        StrLeTransitive(a.id, b.id, c.id);
      }
    }
  }

  function NextOrder(ready: seq<Task>): (r: seq<Task>)
    ensures multiset(r) == multiset(ready)
    ensures SortedBy(r, NextKeyLe)
  {
    NextKeyPreorder();
    SortBySorted(ready, NextKeyLe);
    SortBy(ready, NextKeyLe)
  }

  /** In the corrected order high comes before medium and unset, which come before low, and tasks of
      equal rank are in id order. */
  lemma NextOrderByRank(ready: seq<Task>)
    ensures forall i, j :: 0 <= i < j < |NextOrder(ready)| ==>
      PriorityRank(NextOrder(ready)[i].priority) <= PriorityRank(NextOrder(ready)[j].priority)
    ensures forall i, j :: 0 <= i < j < |NextOrder(ready)| && NextOrder(ready)[i].priority == NextOrder(ready)[j].priority ==>
      StrLe(NextOrder(ready)[i].id, NextOrder(ready)[j].id)
  {
    var r := NextOrder(ready);
    forall i, j | 0 <= i < j < |r| ensures NextKeyLe(r[i], r[j]) {
    }
  }

  /** `main_next` once the lattice is loaded, with the corrected key: exactly the ready tasks, each as
      often as in the lattice, in key order. */
  method Next(tasks: seq<Task>) returns (order: seq<Task>)
    ensures multiset(order) == multiset(ReadyAmong(tasks, TaskIndex(tasks)))
    ensures SortedBy(order, NextKeyLe)
    ensures forall t :: t in order <==> t in tasks && IsReady(TaskIndex(tasks), t)
  {
    var ready := ComputeReadyTasks(tasks);
    order := NextOrder(ready);
    ReadyAmongMembers(tasks, TaskIndex(tasks));
    forall t ensures t in order <==> t in ready {
      assert t in order <==> t in multiset(order);
      assert t in ready <==> t in multiset(ready);
    }
  }
}
