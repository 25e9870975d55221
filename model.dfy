/** The task records of src/lattice_base/model.py and the lookups a lattice offers. A lattice is its
    ordered list of tasks; the project metadata has no effect on the graph logic. */
module Model {
  import opened Wrappers
  import opened Text
  import opened Seqs

  /** The `kind` literal; `PlainTask` is the value "task". */
  datatype Kind = PlainTask | Epic | Subproject | Completion

  /** The `status` literal, with `Unset` for a missing (`None`) status. */
  datatype Status = Unset | Suggested | Design | Planned | InProgress | Done | Blocked

  datatype Priority = Low | Medium | High

  datatype Task = Task(
    id: string,
    name: string,
    kind: Kind,
    status: Status,
    priority: Option<Priority>,
    dependsOn: seq<string>,
    tags: seq<string>,
    description: Option<string>,
    test: Option<string>)

  /** The spelling of a priority in the lattice file. */
  function PriorityName(p: Priority): string {
    match p
    case Low => "low"
    case Medium => "medium"
    case High => "high"
  }

  /** `t.status or "suggested"`: how the graph and the CLI read a missing status. */
  function EffectiveStatus(s: Status): (r: Status)
    ensures r != Unset
    ensures s == Unset ==> r == Suggested
    ensures s != Unset ==> r == s
  {
    if s == Unset then Suggested else s
  }

  /** The `normalize_test` validator: surrounding whitespace is stripped and a command that is empty or
      only whitespace becomes `None`. */
  function NormalizeTest(v: Option<string>): (r: Option<string>)
    ensures r.None? <==> v.None? || AllSpace(v.value)
    ensures r.Some? ==> r.value != [] && !IsSpace(r.value[0]) && !IsSpace(r.value[|r.value| - 1])
    ensures r.Some? ==> exists i, j :: 0 <= i <= j <= |v.value| && r.value == v.value[i..j]
                                       && AllSpace(v.value[..i]) && AllSpace(v.value[j..])
  {
    match v
    case None => None
    case Some(s) =>
      StripSlice(s);
      var t := Strip(s);
      if t == [] then None else Some(t)
  }

  /** Normalising an already normalised command changes nothing. */
  lemma NormalizeTestIdempotent(v: Option<string>)
    ensures NormalizeTest(NormalizeTest(v)) == NormalizeTest(v)
  {
    if v.Some? && NormalizeTest(v).Some? {
      StripIdempotent(v.value);
    }
  }

  /** A task built from an id and a name only, with every other field at its declared default. */
  function NewTask(id: string, name: string): (t: Task)
    ensures t.id == id && t.name == name
    ensures t.kind == PlainTask && t.status == Unset && t.priority == None
    ensures t.dependsOn == [] && t.tags == [] && t.description == None && t.test == None
  {
    Task(id, name, PlainTask, Unset, None, [], [], None, None)
  }

  /** The ids the lattice knows. */
  function Ids(tasks: seq<Task>): set<string> {
    set t | t in tasks :: t.id
  }

  /** `Lattice.task_by_id`: the first task carrying the id, or `None`. */
  function TaskById(tasks: seq<Task>, x: string): (r: Option<Task>)
    ensures r.Some? <==> x in Ids(tasks)
    ensures r.Some? ==> r.value.id == x && exists i :: IsFirstWithId(tasks, i) && tasks[i] == r.value
  {
    if tasks == [] then None
    else if tasks[0].id == x then
      assert IsFirstWithId(tasks, 0);
      Some(tasks[0])
    else
      var r := TaskById(tasks[1..], x);
      assert Ids(tasks) == {tasks[0].id} + Ids(tasks[1..]) by {
        assert tasks == [tasks[0]] + tasks[1..];
      }
      assert r.Some? ==> exists i :: IsFirstWithId(tasks, i) && tasks[i] == r.value by {
        if r.Some? {
          var i :| IsFirstWithId(tasks[1..], i) && tasks[1..][i] == r.value;
          assert tasks[i + 1] == r.value;
          forall j | 0 <= j < i + 1 ensures tasks[j].id != x {
            if j > 0 { assert tasks[j] == tasks[1..][j - 1]; }
          }
          assert IsFirstWithId(tasks, i + 1);
        }
      }
      r
  }

  /** Position `i` holds the last task carrying its id. */
  ghost predicate IsLastWithId(tasks: seq<Task>, i: int) {
    0 <= i < |tasks| && forall j :: i < j < |tasks| ==> tasks[j].id != tasks[i].id
  }

  /** Position `i` holds the first task carrying its id. */
  ghost predicate IsFirstWithId(tasks: seq<Task>, i: int) {
    0 <= i < |tasks| && forall j :: 0 <= j < i ==> tasks[j].id != tasks[i].id
  }

  /** `Lattice.task_index`: a dictionary from id to task in which a later task overwrites an earlier one
      with the same id. */
  function TaskIndex(tasks: seq<Task>): (idx: map<string, Task>)
    ensures idx.Keys == Ids(tasks)
    ensures forall k :: k in idx ==> idx[k].id == k
  {
    if tasks == [] then map[]
    else
      var p := tasks[..|tasks| - 1];
      var t := tasks[|tasks| - 1];
      assert Ids(tasks) == Ids(p) + {t.id} by {
        assert tasks == p + [t];
      }
      TaskIndex(p)[t.id := t]
  }

  /** Every value of the index is the last task in the list with that id. */
  lemma {:induction false} TaskIndexHoldsLast(tasks: seq<Task>, k: string)
    requires k in Ids(tasks)
    ensures exists i :: IsLastWithId(tasks, i) && tasks[i] == TaskIndex(tasks)[k]
  {
    var p := tasks[..|tasks| - 1];
    var t := tasks[|tasks| - 1];
    assert tasks == p + [t];
    if t.id == k {
      assert IsLastWithId(tasks, |tasks| - 1);
    } else {
      assert k in Ids(p);
      TaskIndexHoldsLast(p, k);
      var i :| IsLastWithId(p, i) && p[i] == TaskIndex(p)[k];
      assert tasks[i] == p[i];
      assert IsLastWithId(tasks, i);
    }
  }

  /** The index and the search agree: an id is found exactly when it is a key of the index, and when no
      id repeats both return the same task. */
  lemma {:induction false} TaskByIdMatchesIndex(tasks: seq<Task>, x: string)
    ensures TaskById(tasks, x).Some? <==> x in TaskIndex(tasks)
    ensures Distinct(IdList(tasks)) && x in TaskIndex(tasks) ==> TaskById(tasks, x) == Some(TaskIndex(tasks)[x])
  {
    var idx := TaskIndex(tasks);
    var r := TaskById(tasks, x);
    assert r.Some? <==> x in Ids(tasks);
    assert idx.Keys == Ids(tasks);
    if Distinct(IdList(tasks)) && x in idx {
      var i :| IsFirstWithId(tasks, i) && tasks[i] == r.value;
      TaskIndexHoldsLast(tasks, x);
      var i' :| IsLastWithId(tasks, i') && tasks[i'] == idx[x];
      SameIdSamePosition(tasks, i, i');
    }
  }

  /** With no repeated id, two positions carrying the same id are one. */
  lemma {:induction false} SameIdSamePosition(tasks: seq<Task>, i: int, j: int)
    requires Distinct(IdList(tasks)) && 0 <= i < |tasks| && 0 <= j < |tasks| && tasks[i].id == tasks[j].id
    ensures i == j
  {
    var ids := IdList(tasks);
    assert ids[i] == ids[j];
  }

  /** The ids in task order, repeats included. Defined over this module's `Task`; `LatticeModel.IdList` is the same over the older record. */
  function IdList(tasks: seq<Task>): (r: seq<string>)
    ensures |r| == |tasks| && forall i :: 0 <= i < |tasks| ==> r[i] == tasks[i].id
  {
    if tasks == [] then [] else IdList(tasks[..|tasks| - 1]) + [tasks[|tasks| - 1].id]
  }

  /** The keys of `task_index()` in dictionary order: each id once, ordered by first occurrence. */
  function IdOrder(tasks: seq<Task>): (r: seq<string>)
    ensures Distinct(r) && Elems(r) == Ids(tasks)
    ensures FirstOccurrenceOrder(r, IdList(tasks))
  {
    var ids := IdList(tasks);
    assert Elems(ids) == Ids(tasks) by {
      forall x | x in Ids(tasks) ensures x in ids {
        var t :| t in tasks && t.id == x;
        var i :| 0 <= i < |tasks| && tasks[i] == t;
        assert ids[i] == x;
      }
    }
    DedupOrder(ids);
    Dedup(ids)
  }
}
