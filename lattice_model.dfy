/** The records of the older `lattice` package (src/lattice_base/lattice/model.py): a task's kind and
    status are drawn from fixed value sets, its id must be non-empty, and a lattice's ids are unique. */
module LatticeModel {
  import opened Wrappers
  import opened Seqs

  datatype Kind = Subproject | Epic | PlainTask | Spike | Milestone
  datatype Status = Todo | InProgress | Blocked | Done | Planned

  /** The value of the `kind` field for each kind. */
  function KindName(k: Kind): string {
    match k
    case Subproject => "subproject"
    case Epic => "epic"
    case PlainTask => "task"
    case Spike => "spike"
    case Milestone => "milestone"
  }

  /** The value of the `status` field for each status. */
  function StatusName(s: Status): string {
    match s
    case Todo => "todo"
    case InProgress => "in-progress"
    case Blocked => "blocked"
    case Done => "done"
    case Planned => "planned"
  }

  /** A full match of `^(name)$` also accepts the name followed by one newline, since `$` matches just
      before a final newline. */
  predicate FieldMatches(s: string, name: string) {
    s == name || s == name + "\n"
  }

  /** The `kind` field constraint: the kind whose name the value matches, or `None` when it matches none. */
  function ParseKind(s: string): (r: Option<Kind>)
    ensures r.Some? ==> FieldMatches(s, KindName(r.value))
    ensures r.None? ==> forall k: Kind :: !FieldMatches(s, KindName(k))
  {
    if FieldMatches(s, "subproject") then Some(Subproject)
    else if FieldMatches(s, "epic") then Some(Epic)
    else if FieldMatches(s, "task") then Some(PlainTask)
    else if FieldMatches(s, "spike") then Some(Spike)
    else if FieldMatches(s, "milestone") then Some(Milestone)
    else None
  }

  /** The `status` field constraint: the status whose name the value matches, or `None`. */
  function ParseStatus(s: string): (r: Option<Status>)
    ensures r.Some? ==> FieldMatches(s, StatusName(r.value))
    ensures r.None? ==> forall st: Status :: !FieldMatches(s, StatusName(st))
  {
    if FieldMatches(s, "todo") then Some(Todo)
    else if FieldMatches(s, "in-progress") then Some(InProgress)
    else if FieldMatches(s, "blocked") then Some(Blocked)
    else if FieldMatches(s, "done") then Some(Done)
    else if FieldMatches(s, "planned") then Some(Planned)
    else None
  }

  /** Every kind's own name is accepted and read back as that kind, and no two kinds share a name. */
  lemma KindRoundTrip(k: Kind)
    ensures ParseKind(KindName(k)) == Some(k)
    ensures forall k': Kind :: KindName(k') == KindName(k) ==> k' == k
  {
    if k == Spike {
      assert KindName(k)[0] != ("task" + "\n")[0];
    }
  }

  /** Every status's own name is accepted and read back as that status, and no two statuses share a name. */
  lemma StatusRoundTrip(s: Status)
    ensures ParseStatus(StatusName(s)) == Some(s)
    ensures forall s': Status :: StatusName(s') == StatusName(s) ==> s' == s
  {
  }

  datatype Task = Task(
    id: string,
    name: string,
    kind: Kind,
    status: Status,
    dependsOn: seq<string>,
    tags: seq<string>,
    description: Option<string>)

  /** `Task.nonempty_id`: the empty id is rejected, any other id is kept as it is. */
  function NonemptyId(v: string): (r: Result<string, string>)
    ensures r.Ok? <==> v != ""
    ensures r.Ok? ==> r.value == v
    ensures r.Err? ==> r.error == "Task id must not be empty"
  {
    if v == "" then Err("Task id must not be empty") else Ok(v)
  }

  function Ids(tasks: seq<Task>): set<string> {
    set t | t in tasks :: t.id
  }

  /** The ids in task order, repeats included. */
  function IdList(tasks: seq<Task>): (r: seq<string>)
    ensures |r| == |tasks| && forall i :: 0 <= i < |tasks| ==> r[i] == tasks[i].id
  {
    if tasks == [] then [] else IdList(tasks[..|tasks| - 1]) + [tasks[|tasks| - 1].id]
  }

  lemma IdListElems(tasks: seq<Task>)
    ensures Elems(IdList(tasks)) == Ids(tasks)
  {
    forall x | x in Ids(tasks) ensures x in IdList(tasks) {
      var t :| t in tasks && t.id == x;
      var i :| 0 <= i < |tasks| && tasks[i] == t;
      assert IdList(tasks)[i] == x;
    }
  }

  /** No id is carried by two tasks. */
  predicate UniqueIds(tasks: seq<Task>) {
    Distinct(IdList(tasks))
  }

  /** Position `i` holds the first id that was already seen earlier in the list. */
  ghost predicate IsFirstRepeat(tasks: seq<Task>, i: int) {
    0 <= i < |tasks| && tasks[i].id in Ids(tasks[..i]) && UniqueIds(tasks[..i])
  }

  /** An id met again after a prefix that already holds it makes the whole list non-unique. */
  lemma RepeatNotUnique(tasks: seq<Task>, i: int)
    requires 0 <= i < |tasks| && tasks[i].id in Ids(tasks[..i])
    ensures !UniqueIds(tasks)
  {
    var j :| j in tasks[..i] && j.id == tasks[i].id;
    var k :| 0 <= k < i && tasks[..i][k] == j;
    assert IdList(tasks)[k] == IdList(tasks)[i];
  }

  /** A fresh id extends a list without repeats to a longer one. */
  lemma UniqueSnoc(tasks: seq<Task>, i: int)
    requires 0 <= i < |tasks| && UniqueIds(tasks[..i]) && tasks[i].id !in Ids(tasks[..i])
    ensures UniqueIds(tasks[..i + 1])
  {
    var ids' := IdList(tasks[..i + 1]);
    forall a, b | 0 <= a < b < i + 1 ensures ids'[a] != ids'[b] {
      if b == i {
        assert tasks[..i][a] in tasks[..i];
      } else {
        assert IdList(tasks[..i])[a] != IdList(tasks[..i])[b];
      }
    }
  }

  /** `Lattice.unique_ids`: walks the tasks keeping the ids seen so far and rejects the first repeated
      one; a list without repeats is returned unchanged. */
  method CheckUniqueIds(tasks: seq<Task>) returns (r: Result<seq<Task>, string>)
    ensures r.Ok? <==> UniqueIds(tasks)
    ensures r.Ok? ==> r.value == tasks
    ensures r.Err? ==> exists i :: IsFirstRepeat(tasks, i) && r.error == "Duplicate task id: " + tasks[i].id
  {
    var ids: set<string> := {};
    for i := 0 to |tasks|
      invariant ids == Ids(tasks[..i])
      invariant UniqueIds(tasks[..i])
    {
      var t := tasks[i];
      assert tasks[..i + 1] == tasks[..i] + [t];
      if t.id in ids {
        assert IsFirstRepeat(tasks, i);
        RepeatNotUnique(tasks, i);
        return Err("Duplicate task id: " + t.id);
      }
      ids := ids + {t.id};
      UniqueSnoc(tasks, i);
    }
    assert tasks[..|tasks|] == tasks;
    return Ok(tasks);
  }

  /** The constraints a validated lattice's task list meets: every id non-empty and no id repeated. */
  predicate ValidTasks(tasks: seq<Task>) {
    UniqueIds(tasks) && forall t :: t in tasks ==> NonemptyId(t.id).Ok?
  }
}
