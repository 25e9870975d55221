# lattice-base dependency-graph engine, in Dafny

This project models the dependency-graph engine of lattice-base. A *lattice* is an ordered list of task
records. Each task has an id, a kind, a status and a `depends_on` list of ids. The repository has two
parallel stacks, and both are modelled.

- **Newer stack**
  - `Model` (`src/lattice_base/model.py`): the records, the `task_by_id` search, the `task_index`
    dictionary, the test-command normaliser and the field defaults.
  - `Graph` (`src/lattice_base/graph.py`): the dependent adjacency map, readiness, Kahn's topological
    sort and edge enumeration.
  - `Cli` (`src/lattice_base/cli.py`): the decisions of the commands.
    - The checks `main_validate` collects.
    - The node shape, label and status class `main_mermaid` chooses.
    - The order `main_next` lists ready tasks in.
- **Older stack**
  - `LatticeModel` (`src/lattice_base/lattice/model.py`): the kind and status value sets, the non-empty
    id check and the unique-id check.
  - `LatticeIo` (`src/lattice_base/lattice/io.py`): the depth-first cycle report `detect_cycles` and the
    smallest-id-first Kahn sort `topo_sort`.
  - `ProjectCore` (`src/lattice_base/project/core.py`): `compute_possible_tasks` and the
    (priority, id) order of the `next` listing.

Supporting modules:
- `Wrappers`: `Option` and `Result`.
- `Seqs`: distinctness, counting and dedup of sequences.
- `Text`: whitespace stripping, ASCII lower-casing and Python's string order.
- `Sorting`: `sorted(..., key=...)` as a stable insertion sort under a total preorder.
- `Digraph`: cycles in a relation given as a set of pairs.

How the source is rendered:
- Python's mutable state is kept where the source mutates it.
  - Loops that accumulate a list or a dictionary are `method`s with loop invariants.
  - The recursive `visit` of `detect_cycles` shares `temp`, `perm`, `stack` and `cycles`. Those become
    the fields of the class `LatticeIo.CycleSearch`.
  - Each imperative method is proved against a specification function or predicate, and the properties
    are proved about that specification.
- A raised `ValueError` is an `Err` result carrying the message.
- A missing status (`None`) is the explicit `Unset` variant.
- The dictionary comprehensions (`task_index`, the `by_id` of `compute_possible_tasks`, the `graph` of
  `detect_cycles`) let a later task replace an earlier one with the same id.
- Dictionary key order is first-insertion order (`Model.IdOrder`).

Points where the code does less or other than its own docstrings and tests say; the model follows the code:
- `topological_sort` (`src/lattice_base/graph.py:38-65`) pops the most recently queued id (line 55), so its
  order is not the smallest-id-first order of the older `topo_sort` (`src/lattice_base/lattice/io.py:54-76`).
- Its docstring says it raises on cycles. It also raises on an acyclic lattice in which a task lists the same
  known id twice: the in-degree counts every entry (lines 45-48), but each emitted id takes off only one per
  task (lines 57-59).
- `main_validate` (`src/lattice_base/cli.py:111-143`) has no duplicate-id check, although
  `tests/test_validate.py:79-108` expects a "duplicate task id" error for two tasks with id "a" (see Findings).
- Its cycle error carries the sort's message (`cli.py:125`), not a concrete cycle.
- `main_next` sorts by the raw priority string with a missing priority read as "medium" (`cli.py:89`). As
  strings "low" sorts before "medium" (see Findings). `_task_priority_value`
  (`src/lattice_base/project/core.py:181-196`) instead ranks high 0, medium 1, low 2 and a missing priority 3.
- The older task record has no priority field. So `_task_priority_value` ranks every task of
  `compute_possible_tasks` 3, and that listing is in id order.

## Model

| member | source | states |
|---|---|---|
| Model.EffectiveStatus | src/lattice_base/graph.py:29 | a missing status reads as suggested; a set status is kept |
| Model.NormalizeTest | src/lattice_base/model.py:43-49 | `None` stays `None`; an empty or whitespace-only command becomes `None`; otherwise the result is the input with its leading and trailing whitespace removed, non-empty and not starting or ending in whitespace |
| Model.NormalizeTestIdempotent | src/lattice_base/model.py:46-49 | normalising a normalised command changes nothing |
| Model.NewTask | src/lattice_base/model.py:24-41 | a task given only id and name has kind task, no status, no priority, empty `depends_on` and tags, no description and no test |
| Model.TaskById | src/lattice_base/model.py:57-61 | finds a task exactly when the id is known, and then returns the first task carrying it |
| Model.TaskIndex | src/lattice_base/model.py:63-64 | the key set is the set of task ids and each value carries its key |
| Model.TaskIndexHoldsLast | src/lattice_base/model.py:63-64 | each value of the index is the last task in the list with that id |
| Model.TaskByIdMatchesIndex | src/lattice_base/model.py:57-64 | `task_by_id(x)` is found iff `x` is a key of `task_index()`; with unique ids both give the same task |
| Model.IdOrder | src/lattice_base/model.py:63-64 | the keys in dictionary order: every task id exactly once, ordered by the position of its first task |
| Text.StripSlice | src/lattice_base/model.py:48 | `strip` removes exactly the leading and trailing whitespace |
| Text.StripBounds | src/lattice_base/model.py:48 | `strip` keeps a middle slice, with only whitespace before and after it |
| Text.StripEmpty | src/lattice_base/model.py:48-49 | `strip` gives the empty string iff the input is all whitespace |
| Text.StripIdempotent | src/lattice_base/model.py:48 | stripping twice is stripping once |
| Text.StrLeTotal | src/lattice_base/lattice/io.py:63 | Python's string order is total and antisymmetric |
| Text.StrLeTransitive | src/lattice_base/lattice/io.py:63 | Python's string order is transitive |
| Graph.AppendDependent | src/lattice_base/graph.py:12-14 | for one task, each key's list gains the task's id once per entry naming it, and the keys are unchanged |
| Graph.BuildDependencyGraph | src/lattice_base/graph.py:8-15 | one key per known id, mapped to the ids of the tasks that list it, in task order; dependencies on unknown ids are skipped |
| Graph.DependentsOfMember | src/lattice_base/graph.py:11-14 | `x` is in `graph[d]` iff some task with id `x` lists `d` |
| Graph.ComputeReadyTasks | src/lattice_base/graph.py:18-35 | the result is exactly the tasks passing the readiness test, in lattice order |
| Graph.ReadyAmongMembers | src/lattice_base/graph.py:25-35 | a task is ready iff its kind is task, its status (missing read as suggested) is neither done nor blocked, and every listed id names a done task |
| Graph.ReadyAmongOrder | src/lattice_base/graph.py:25-35 | the ready list is a subsequence of the lattice |
| Graph.DanglingDependencyNotReady | src/lattice_base/graph.py:21-23 | a dependency on an unknown id keeps a task from being ready |
| Graph.IterEdges | src/lattice_base/graph.py:68-76 | both ends of every yielded edge are ids of the lattice, so the diagram draws no edge to an undeclared node |
| Graph.IterEdgesMember | src/lattice_base/graph.py:68-76 | `(d, x)` is yielded iff `d` is a known id and some task with id `x` lists `d` |
| Graph.EdgesMatchDependents | src/lattice_base/graph.py:68-76 | the edges yielded from `d`, in order and with repeats, are exactly `build_dependency_graph`'s list for `d`; an unknown `d` yields none |
| Graph.CountIncoming | src/lattice_base/graph.py:42-48 | the dictionary has one key per known id, and its count is the number of listing entries naming a known id, summed over the tasks carrying that id |
| Graph.PendingFacts | src/lattice_base/graph.py:45-61 | an in-degree never drops below zero, and is zero exactly when every task with that id has all the known ids it lists emitted and lists none of them twice |
| Graph.KnownCountCard | src/lattice_base/graph.py:46-48 | the entries counted are at least the distinct known ids listed, and equal to them iff no known id is listed twice |
| Graph.ReleaseStep | src/lattice_base/graph.py:57-61 | passing one task, decrementing its id's in-degree when it lists `n` and queueing the id when that reaches zero, keeps the inner loop's invariant |
| Graph.ReleaseEnd | src/lattice_base/graph.py:54-61 | once every task has been passed, the main loop's invariant holds with `n` emitted |
| Graph.ReleaseDependents | src/lattice_base/graph.py:57-61 | after `n` is emitted, every in-degree equals the entries not yet taken off by emitted ids, and an id is emitted or queued exactly when its in-degree is zero |
| Graph.ZeroInDegree | src/lattice_base/graph.py:51 | the first queue holds exactly the known ids whose in-degree is zero, each once |
| Graph.KahnPop | src/lattice_base/graph.py:54-56 | popping the last queued id starts the inner loop with every in-degree counting the entries not yet taken off by emitted ids, and fewer ids than known had been emitted before it |
| Graph.KahnPopSettled | src/lattice_base/graph.py:54-56 | the popped id's tasks have all their known dependencies already emitted |
| Graph.ReleasedSnoc | src/lattice_base/graph.py:57-59 | passing one task takes one off the in-degree of its id when it lists `n`, and leaves every other in-degree unchanged |
| Graph.TopologicalSort | src/lattice_base/graph.py:38-65 | on success the order holds every id exactly once, each after its known dependencies; it succeeds iff the dependency relation has no cycle and no task lists a known id twice; otherwise it fails with "Cycle detected in dependency graph" |
| Graph.KahnSucceeded | src/lattice_base/graph.py:63-65 | an order emitting every id, each settled by those before it, rules out cycles and repeated entries |
| Graph.KahnStuck | src/lattice_base/graph.py:63-64 | when the queue runs dry early there is a cycle or a repeated known entry |
| LatticeModel.ParseKind | src/lattice_base/lattice/model.py:17 | a kind value is accepted iff it matches one kind name (a trailing newline allowed, as `$` does) |
| LatticeModel.ParseStatus | src/lattice_base/lattice/model.py:18 | a status value is accepted iff it matches one status name (a trailing newline allowed) |
| LatticeModel.KindRoundTrip | src/lattice_base/lattice/model.py:17 | each kind's name parses back to that kind and no two kinds share a name |
| LatticeModel.StatusRoundTrip | src/lattice_base/lattice/model.py:18 | each status's name parses back to that status and no two statuses share a name |
| LatticeModel.NonemptyId | src/lattice_base/lattice/model.py:23-27 | the empty id is rejected with "Task id must not be empty"; any other id is kept unchanged |
| LatticeModel.CheckUniqueIds | src/lattice_base/lattice/model.py:35-42 | accepts iff no id repeats, returning the list unchanged; otherwise rejects with "Duplicate task id: " and the first repeated id |
| LatticeModel.RepeatNotUnique | src/lattice_base/lattice/model.py:39-40 | an id already seen earlier in the list means the ids are not unique |
| LatticeModel.UniqueSnoc | src/lattice_base/lattice/model.py:39-41 | a fresh id keeps the ids seen so far unique |
| LatticeIo.DepsMap | src/lattice_base/lattice/io.py:26 | the dictionary has one key per task id |
| LatticeIo.DepsMapUnique | src/lattice_base/lattice/io.py:26 | with unique ids, each id maps to its task's listing |
| LatticeIo.GraphEdgesUnique | src/lattice_base/lattice/io.py:26 | with unique ids, the dictionary's edges are exactly the listed dependency edges |
| LatticeIo.CycleSearch.constructor | src/lattice_base/lattice/io.py:26-30 | the search starts with empty `temp`, `perm`, `stack` and `cycles` over the given dictionary |
| LatticeIo.CycleSearch.Visit | src/lattice_base/lattice/io.py:32-39 | a finished id leaves `perm` and `cycles` unchanged; an unfinished id on the path leaves `perm` unchanged and appends exactly `stack[idx:] + [node]`, `idx` its first position on the stack; `temp` and `stack` are unchanged afterwards, and the id is finished unless it was on the path |
| LatticeIo.CycleSearch.Expand | src/lattice_base/lattice/io.py:40-46 | afterwards the id is finished, every id it lists is finished or was on the path before, the path is as it was, `perm` and `cycles` only grow, and recorded cycles stay closed walks along dependency edges |
| LatticeIo.CycleSearch.Enter | src/lattice_base/lattice/io.py:40-41 | the id joins `temp` and the end of `stack`, `perm` and `cycles` are unchanged, and fewer ids remain outside `temp` |
| LatticeIo.CycleSearch.VisitEach | src/lattice_base/lattice/io.py:42-43 | after visiting the listed ids in order each of them is finished or on the path; `temp` and `stack` are as they were, and `perm` and `cycles` only grow |
| LatticeIo.CycleSearch.Leave | src/lattice_base/lattice/io.py:44-46 | the id leaves the end of `stack` and `temp` and joins `perm`; `cycles` is unchanged |
| LatticeIo.CycleSearch.Run | src/lattice_base/lattice/io.py:48-50 | after the loop every task id is in `perm`, and `temp` and `stack` are empty |
| LatticeIo.EnterValid | src/lattice_base/lattice/io.py:40-41 | entering an id reached along an edge keeps the path a repeat-free walk along dependency edges |
| LatticeIo.LeaveValid | src/lattice_base/lattice/io.py:44-45 | popping the id restores the path it was entered from |
| LatticeIo.RecordValid | src/lattice_base/lattice/io.py:36-38 | the recorded stretch `stack[idx:] + [node]` is a closed walk of length at least 2 along dependency edges |
| LatticeIo.DetectCycles | src/lattice_base/lattice/io.py:24-51 | every reported cycle has length at least 2, starts and ends with the same id, and follows `depends_on` edges; an acyclic lattice reports none; a dangling id is not a `KeyError` (`graph.get(node, [])`) |
| LatticeIo.AddDependent | src/lattice_base/lattice/io.py:59-60 | for one task, its id joins the entry of every id it lists, an entry being created where there is none |
| LatticeIo.BuildReverse | src/lattice_base/lattice/io.py:57-60 | `rev` has a key for every task id, and `rev[d]` is the set of ids of the tasks listing `d` |
| LatticeIo.Roots | src/lattice_base/lattice/io.py:63 | the first ready ids are exactly the ids with no dependency |
| LatticeIo.InitialState | src/lattice_base/lattice/io.py:63 | sorting the roots gives a sorted `ready` list holding exactly the ids available at the start |
| LatticeIo.SortedHead | src/lattice_base/lattice/io.py:66 | `ready.pop(0)` on the sorted list takes its smallest id |
| LatticeIo.SortedInsert | src/lattice_base/lattice/io.py:71-72 | appending a new id and sorting again keeps `ready` sorted and repeat-free, with the id added |
| LatticeIo.PopStep | src/lattice_base/lattice/io.py:66-67 | emitting the popped id extends a smallest-available-first order |
| LatticeIo.ReleaseStep | src/lattice_base/lattice/io.py:69-72 | discarding `n` from one dependent's set, and readying it when nothing is left, keeps the inner loop's invariant |
| LatticeIo.QueueStep | src/lattice_base/lattice/io.py:70-72 | appending a released id and sorting again keeps `ready` sorted and repeat-free, holding exactly the available ids already released |
| LatticeIo.ReleaseReady | src/lattice_base/lattice/io.py:68-72 | after the inner loop `ready` is sorted and holds exactly the ids whose dependencies have all been emitted |
| LatticeIo.ReleaseDone | src/lattice_base/lattice/io.py:65-72 | when the inner loop ends, the main loop's invariant holds with `n` emitted |
| LatticeIo.GreedySnoc | src/lattice_base/lattice/io.py:66-67 | emitting the smallest available id keeps each emitted id the smallest available at its step |
| LatticeIo.StartTopo | src/lattice_base/lattice/io.py:55-63 | before the loop `deps` holds each id's dependencies, `rev[d]` the ids listing `d`, and `ready` the ids with none, sorted |
| LatticeIo.EmitSmallest | src/lattice_base/lattice/io.py:66-72 | one round emits the head of `ready` and keeps the main loop's invariant |
| LatticeIo.Drain | src/lattice_base/lattice/io.py:65-72 | the loop ends with `ready` empty and the main loop's invariant holding |
| LatticeIo.TopoEnd | src/lattice_base/lattice/io.py:74-76 | when `ready` is empty, every task was emitted iff there is no cycle and no dangling dependency, and a complete output is a greedy order of all ids |
| LatticeIo.TopoSort | src/lattice_base/lattice/io.py:54-76 | on success every id is emitted once, each after its dependencies, always the smallest id whose dependencies are emitted; it succeeds iff there is no cycle and no dangling dependency; otherwise it fails with "Graph has cycles; cannot topologically sort" |
| LatticeIo.UniqueCount | src/lattice_base/lattice/io.py:74 | with unique ids, comparing with `len(tasks)` compares with the number of ids |
| LatticeIo.TopoDone | src/lattice_base/lattice/io.py:74-76 | a full greedy order puts each dependency first, so there is no cycle and no dangling dependency |
| LatticeIo.TopoStuck | src/lattice_base/lattice/io.py:74-75 | when `ready` empties early, there is a cycle or a dangling dependency |
| LatticeIo.GreedyFirst | src/lattice_base/lattice/io.py:63-66 | the first id emitted is the smallest id whose task lists no dependency |
| LatticeIo.GreedyUnique | src/lattice_base/lattice/io.py:63-72 | the output is determined: two smallest-first orders of the same length are equal |
| ProjectCore.ById | src/lattice_base/project/core.py:266 | the key set is the set of task ids and each value is a task of the lattice carrying its key |
| ProjectCore.ComputePossibleTasks | src/lattice_base/project/core.py:255-284 | the result is exactly the tasks passing the test, in lattice order |
| ProjectCore.PossibleAmongMembers | src/lattice_base/project/core.py:272-283 | a task is listed iff its status is neither done nor blocked and every listed id names a done task, whatever its kind |
| ProjectCore.PossibleAmongOrder | src/lattice_base/project/core.py:272-284 | the result is a subsequence of the lattice |
| ProjectCore.MissingDependencyNotPossible | src/lattice_base/project/core.py:268-270 | a dependency on an unknown id keeps a task from being listed |
| ProjectCore.NoDependenciesPossible | src/lattice_base/project/core.py:280-282 | a task that is neither done nor blocked and lists nothing is always listed |
| ProjectCore.PriorityAttribute | src/lattice_base/project/core.py:186 | the older task record has no `priority` field, so `getattr` always gives `None` |
| ProjectCore.TaskPriorityValue | src/lattice_base/project/core.py:181-196 | every older task ranks 3 |
| ProjectCore.PriorityValue | src/lattice_base/project/core.py:181-196 | the rank is at most 3, and a missing or empty priority ranks 3 |
| ProjectCore.PriorityValueSpec | src/lattice_base/project/core.py:186-196 | the rank is 0, 1 or 2 iff the lower-cased priority is high, medium or low; any other value ranks 3 |
| ProjectCore.PriorityValueCaseInsensitive | src/lattice_base/project/core.py:189 | two spellings equal up to case rank the same |
| ProjectCore.NextKeyPreorder | src/lattice_base/project/core.py:241 | the key (priority rank, id) is a total preorder, so `sorted` is well defined |
| ProjectCore.NextOrder | src/lattice_base/project/core.py:241 | the listing is a permutation of the ready tasks, sorted by (priority rank, id) |
| ProjectCore.NextOrderById | src/lattice_base/project/core.py:241 | with the older records, which carry no priority, the listing is in id order |
| Cli.CheckTaskDependencies | src/lattice_base/cli.py:116-119 | one task's errors name its listed ids that are not keys of the index, in listing order |
| Cli.CheckDependencies | src/lattice_base/cli.py:115-119 | the first loop yields the dependency errors of every task, in lattice order |
| Cli.LacksRequiredTest | src/lattice_base/cli.py:128-131 | only a task or completion whose status is past suggested can lack a test; a non-empty test command always satisfies the check |
| Cli.CheckTests | src/lattice_base/cli.py:127-134 | the last loop yields a missing-test error for every task or completion with a status that needs a test and no test, in lattice order |
| Cli.Validate | src/lattice_base/cli.py:111-143 | collects the dependency errors, then the cycle error, then the test errors, without stopping at the first; exits 1 iff there is an error |
| Cli.UnknownDepsMember | src/lattice_base/cli.py:117-119 | one task's dependency errors name exactly its listed ids that are unknown |
| Cli.DependencyErrorsMember | src/lattice_base/cli.py:115-119 | there is an error for `(t, d)` iff some task with that id lists `d` and `d` is not a known id |
| Cli.CycleErrorIff | src/lattice_base/cli.py:121-125 | the report holds a cycle error iff `topological_sort` fails |
| Cli.TestErrorsMember | src/lattice_base/cli.py:127-134 | a missing-test error is reported iff some task or completion has a status in design, planned, in-progress, done or blocked (missing read as suggested) and no test; other kinds and suggested tasks never yield one |
| Cli.ValidIff | src/lattice_base/cli.py:136-143 | validation passes iff every dependency is known, the sort succeeds and no task lacks a required test |
| Cli.DuplicateIdsAccepted | src/lattice_base/cli.py:111-143 | as written, two planned tasks with id "a", each with a test and no dependencies, pass validation with no error |
| Cli.DuplicatesIn | tests/test_validate.py:104-108 | one duplicate error per listed id that occurs more than once, and no other error |
| Cli.DuplicateIdErrors | tests/test_validate.py:104-108 | an error names exactly the ids that occur more than once; there is none iff no id repeats |
| Cli.DuplicatesNone | tests/test_validate.py:104-108 | when every repeated id is considered, nothing is reported iff no id repeats |
| Cli.DuplicateIdsRejected | tests/test_validate.py:79-108 | with the duplicate-id check the same lattice yields exactly one error, naming "a" |
| Cli.CheckedValidIff | tests/test_validate.py:79-108 | with the duplicate-id check, validation passes iff no id repeats, every dependency is known, the sort succeeds and no task lacks a required test |
| Cli.ValidateChecked | src/lattice_base/cli.py:111-143 | collects the duplicate-id errors, then everything `main_validate` collects; exits 1 iff there is an error |
| Cli.Shape | src/lattice_base/cli.py:184-191 | a task is drawn `(`…`)`, an epic `[`…`]`, a subproject `[[`…`]]` and a completion `(((`…`)))`, and no two kinds share a shape |
| Cli.Label | src/lattice_base/cli.py:182 | the label is the name, or the id when the name is empty; it is empty only when both are |
| Cli.NodeClass | src/lattice_base/cli.py:208-219 | a task or completion gets class done, inprogress, planned or blocked iff its status (missing read as suggested) is that status; epics, subprojects and suggested or design nodes get none |
| Cli.NodeClassSpec | src/lattice_base/cli.py:208-219 | only tasks and completions in done, in-progress, planned or blocked get a class; it is one of the four defined classes, and two nodes share a class iff they share a status |
| Cli.PriorityKey | src/lattice_base/cli.py:89 | the key is "medium" iff the priority is missing or medium; a set priority is its own name |
| Cli.RawNextKeyPreorder | src/lattice_base/cli.py:89 | the key `(priority or "medium", id)` is a total preorder |
| Cli.RawNextOrder | src/lattice_base/cli.py:89 | the listing as written: a permutation of the ready tasks sorted by the raw key |
| Cli.RawKeyPutsLowBeforeMedium | src/lattice_base/cli.py:89 | under the raw key a low task always sorts strictly before a medium or unset one |
| Cli.RawNextOrderExample | src/lattice_base/cli.py:89 | a ready medium task "a" and a ready low task "b" are listed b, a |
| Cli.PriorityRank | src/lattice_base/cli.py:89 | the corrected rank is 0 iff high, 1 iff medium or missing (as `main_next` reads it), 2 iff low |
| Cli.NextKeyPreorder | src/lattice_base/cli.py:89 | the corrected key (rank, id) is a total preorder |
| Cli.NextOrder | src/lattice_base/cli.py:89 | the corrected listing is a permutation of the ready tasks sorted by (rank, id) |
| Cli.NextOrderByRank | src/lattice_base/cli.py:89 | in the corrected listing high comes before medium and unset, which come before low; equal priorities are in id order |
| Cli.Next | src/lattice_base/cli.py:81-92 | lists each ready task as often as the lattice holds it, and nothing else, in corrected key order |

## Left out

- Loading, saving and dumping YAML files (`load_lattice`, `save_lattice`, `dump_lattice`), the pydantic machinery, `init_project_lattice`, the `input()` prompts, repository-root discovery, argparse and all printing: these are I/O. Only the decision logic is modelled.
- The whole-lattice verification runner (`main_test`) and the status-transition protocol: their source is not part of this model.
- The Panel/holoviews user interface, plugin discovery and the Notion client: UI and network code outside the engine.
- The project metadata records (`ProjectMeta`, `ProjectInfo`), the `version` field and the free-form `extra` dictionary: they play no part in the graph logic.
- Kinds and statuses of the newer stack are datatypes, so a value outside the `Literal` sets cannot be represented. The older stack's regex check is modelled by `LatticeModel.ParseKind` and `LatticeModel.ParseStatus`. They decide acceptance, but the older record keeps only the parsed value, not the raw string.
- ProjectCore.ComputePossibleTasks: a status accepted with a trailing newline (`"done\n"`) is represented as the plain status. The source keeps the raw string and compares it with `"done"` and `"blocked"` (`src/lattice_base/project/core.py:270`, `:275`, `:277`), so it treats `"done\n"` as neither done nor blocked: a task "a" with status `"done\n"` and a task "b" that is todo and depends on "a" give [a] in the source, but [b] in the model.
- Sorting.SortBy: proved sorted and a permutation of its input, but not stable as Python's `sorted` is. Keys include the id, so only tasks with the same id and the same priority tie. The newer loader admits such tasks (see Findings). `Cli.RawNextOrder`, `Cli.NextOrder` and `ProjectCore.NextOrder` leave their relative order open, whereas the source lists them in lattice order.
- Cli.LacksRequiredTest: `Model.Task` can hold a whitespace-only test such as `Some("  ")`, which counts as a test here. A loaded task never carries one, because `normalize_test` (`Model.NormalizeTest`) turns it into `None`. The operations do not require that a record be normalised.
- Cli.Validate: reports errors as a datatype, not the formatted text. The `{t.id!r}` repr quoting of Python is not modelled.
- Cli.Next: sorts by the corrected key (see Findings). `Cli.RawNextOrder` is the order as written.
- The node, edge and `classDef` lines `main_mermaid` prints are not modelled. Its edges are those of `Graph.IterEdges`.
- Text.Lower: maps only ASCII letters. Python's `str.lower` also folds non-ASCII letters.
- LatticeIo.DetectCycles: proves that every reported cycle is real and that an acyclic lattice reports none. It does not prove that a cyclic lattice reports at least one cycle. The source's nested `visit` recurses once per step along a dependency path (`src/lattice_base/lattice/io.py:43`), so a path deeper than Python's recursion limit (about 1000 tasks) raises `RecursionError`, which the callers report as a failed load. The model has no such limit, and on that input it returns normally.
- LatticeIo.TopoSort: requires unique ids, which the older `Lattice` validator (`unique_ids`) guarantees. With a repeated id, `topo_sort` could emit that id twice.
- LatticeIo.ReleaseReady: iterates over the set `rev[n]` in an arbitrary order, as Python's set iteration is unspecified. `ready` is sorted again after each addition, so the order does not change the result.
- LatticeIo.CycleSearch.Visit: the nested `visit` function is split into `Visit`, `Expand`, `Enter`, `VisitEach` and `Leave`, which share the search state as fields. Termination is by the number of ids not yet on the path.

## Findings

| source | as written | input that shows it | evidently intended | confidence | as-written member | corrected member |
|---|---|---|---|---|---|---|
| src/lattice_base/cli.py:89 | `main_next` sorts by the raw string `t.priority or "medium"`, and "high" < "low" < "medium" as strings, so low-priority tasks are listed before medium and unset ones | two ready tasks: "a" with priority medium, "b" with priority low; listed as b, a | high, then medium, then low, as `_task_priority_value` (project/core.py:181-196) ranks them; an unset priority stays with medium, as `main_next`'s own `or "medium"` reads it, although `_task_priority_value` would put it last | medium; not executed | Cli.RawNextOrderExample | Cli.NextOrderByRank |
| src/lattice_base/cli.py:111-143 | `main_validate` checks dependencies, cycles and test commands but never looks for a repeated id, and the loader builds the `Lattice` without a unique-id validator | two planned tasks both with id "a", each with a test command and no dependencies: no error, exit 0 | a "duplicate task id" error and exit 1, as `tests/test_validate.py:79-108` expects | high; not executed | Cli.DuplicateIdsAccepted | Cli.DuplicateIdsRejected |
