/**
 Runs of the whole service: task or list operations, each one step at the clock's time,
 interleaved with polls. Every such run is a run of the sync protocol, so the protocol's
 theorems hold of it; on top come the history of the store, compare-and-set on
 `last_modified`, and the order of appended tasks.
 */
module ServiceRuns {
  import opened Wrappers
  import opened Table
  import opened Store
  import Codec
  import opened SyncProtocol
  import opened SyncConvergence
  import opened SyncExact
  import opened ListSnapshot

  /** An operation of the service, or a step of the clock, of a poll, or of a device. */
  datatype TaskEvent = TaskWrite(op: TaskOp) | TaskStep(step: Step<TaskData>)
  datatype ListEvent = ListWrite(op: ListOp) | ListStep(step: Step<ListData>)

  function Idling<T>(s: State<T>): Step<T> {
    Tick(s.clock)
  }

  function Storing<T>(s: State<T>, effect: Option<Item<T>>): Step<T> {
    if effect.None? then Idling(s) else Write(effect.value.id, effect.value.row)
  }

  function NextTask(uid: UserId, s: State<TaskData>, e: TaskEvent): State<TaskData> {
    match e
    case TaskWrite(op) => s.(table := Put(s.table, TaskEffect(s.table, uid, s.clock, op)))
    case TaskStep(step) => Next(uid, s, step)
  }

  function NextList(uid: UserId, s: State<ListData>, e: ListEvent): State<ListData> {
    match e
    case ListWrite(op) => s.(table := Put(s.table, ListEffect(s.table, uid, s.clock, op)))
    case ListStep(step) => Next(uid, s, step)
  }

  function RunTasks(uid: UserId, s: State<TaskData>, es: seq<TaskEvent>): State<TaskData>
    decreases |es|
  {
    if es == [] then s else RunTasks(uid, NextTask(uid, s, es[0]), es[1..])
  }

  function RunLists(uid: UserId, s: State<ListData>, es: seq<ListEvent>): State<ListData>
    decreases |es|
  {
    if es == [] then s else RunLists(uid, NextList(uid, s, es[0]), es[1..])
  }

  /** The protocol step that an event is. */
  function TaskAsStep(uid: UserId, s: State<TaskData>, e: TaskEvent): Step<TaskData> {
    match e
    case TaskWrite(op) => Storing(s, TaskEffect(s.table, uid, s.clock, op))
    case TaskStep(step) => step
  }

  function ListAsStep(uid: UserId, s: State<ListData>, e: ListEvent): Step<ListData> {
    match e
    case ListWrite(op) => Storing(s, ListEffect(s.table, uid, s.clock, op))
    case ListStep(step) => step
  }

  function TaskSteps(uid: UserId, s: State<TaskData>, es: seq<TaskEvent>): (steps: seq<Step<TaskData>>)
    decreases |es|
  {
    if es == [] then [] else [TaskAsStep(uid, s, es[0])] + TaskSteps(uid, NextTask(uid, s, es[0]), es[1..])
  }

  function ListSteps(uid: UserId, s: State<ListData>, es: seq<ListEvent>): (steps: seq<Step<ListData>>)
    decreases |es|
  {
    if es == [] then [] else [ListAsStep(uid, s, es[0])] + ListSteps(uid, NextList(uid, s, es[0]), es[1..])
  }

  /** Refinement: a run of the service's task operations is a run of the protocol. */
  lemma {:induction false} TaskRunRefines(uid: UserId, s: State<TaskData>, es: seq<TaskEvent>)
    ensures RunTasks(uid, s, es) == Run(uid, s, TaskSteps(uid, s, es))
    decreases |es|
  {
    if es == [] {
    } else {
      TaskEffectLawful(s.table, uid, s.clock, if es[0].TaskWrite? then es[0].op else DeleteTask(0, None));
      assert NextTask(uid, s, es[0]) == Next(uid, s, TaskAsStep(uid, s, es[0]));
      TaskRunRefines(uid, NextTask(uid, s, es[0]), es[1..]);
      assert TaskSteps(uid, s, es)[1..] == TaskSteps(uid, NextTask(uid, s, es[0]), es[1..]);
    }
  }

  lemma {:induction false} ListRunRefines(uid: UserId, s: State<ListData>, es: seq<ListEvent>)
    ensures RunLists(uid, s, es) == Run(uid, s, ListSteps(uid, s, es))
    decreases |es|
  {
    if es == [] {
    } else {
      ListEffectLawful(s.table, uid, s.clock, if es[0].ListWrite? then es[0].op else DeleteList(0, None));
      assert NextList(uid, s, es[0]) == Next(uid, s, ListAsStep(uid, s, es[0]));
      ListRunRefines(uid, NextList(uid, s, es[0]), es[1..]);
      assert ListSteps(uid, s, es)[1..] == ListSteps(uid, NextList(uid, s, es[0]), es[1..]);
    }
  }

  /** Tasks: no change below the client's cursor is ever skipped, in any run. */
  lemma TaskSyncSafety(uid: UserId, s: State<TaskData>, es: seq<TaskEvent>)
    requires Start(uid, s) && PrudentRun(uid, s, TaskSteps(uid, s, es))
    ensures Safe(uid, RunTasks(uid, s, es))
  {
    TaskRunRefines(uid, s, es);
    SyncSafety(uid, s, TaskSteps(uid, s, es));
  }

  /** Tasks: once writes stop, enough polls make the replica equal to the store. */
  lemma {:induction false} TaskSyncConverges(
      uid: UserId, s0: State<TaskData>, es: seq<TaskEvent>, s: State<TaskData>, rs: seq<Request>, end: State<TaskData>)
    requires Start(uid, s0) && PrudentRun(uid, s0, TaskSteps(uid, s0, es)) && s == RunTasks(uid, s0, es)
    requires s.poll.Idle? && forall id: Id :: Asked(uid, s, id) ==> s.table[id].lastModified <= s.clock
    requires |rs| > |Remaining(uid, s)| && end == Polls(uid, s, rs)
    ensures end.table == s.table && end.scope == s0.scope && InStep(uid, end)
    ensures Unfiltered(s0) ==> SameAsStore(uid, end)
  {
    TaskRunRefines(uid, s0, es);
    EventuallyEqual(uid, s0, TaskSteps(uid, s0, es), s, rs, end);
  }

  /**
   Tasks, where every write is stamped with the clock: the drain guard is all that is asked.
   Snapshots, full or not, at the start or later, need nothing, and neither do the stamps.
   */
  lemma {:induction false} TaskBootstrapConverges(
      uid: UserId, s0: State<TaskData>, es: seq<TaskEvent>, s: State<TaskData>, rs: seq<Request>, end: State<TaskData>)
    requires Start(uid, s0) && NoFutureRow(uid, s0) && GuardedRun(uid, s0, TaskSteps(uid, s0, es))
    requires s == RunTasks(uid, s0, es) && s.poll.Idle?
    requires |rs| > |Remaining(uid, s)| && end == Polls(uid, s, rs)
    ensures end.table == s.table && end.scope == s0.scope && InStep(uid, end)
    ensures Unfiltered(s0) ==> SameAsStore(uid, end)
  {
    TaskRunRefines(uid, s0, es);
    GuardedIsPrudent(uid, s0, TaskSteps(uid, s0, es));
    EventuallyEqual(uid, s0, TaskSteps(uid, s0, es), s, rs, end);
  }

  /** The snapshot of lists is ordered by title, so the protocol's snapshot is not theirs. */
  predicate DeltaOnly(es: seq<ListEvent>) {
    forall i :: 0 <= i < |es| && es[i].ListStep? && es[i].step.BeginPoll? ==> !es[i].step.snapshot
  }

  /** Lists, in delta mode: the same. */
  lemma ListSyncSafety(uid: UserId, s: State<ListData>, es: seq<ListEvent>)
    requires DeltaOnly(es)
    requires Start(uid, s) && PrudentRun(uid, s, ListSteps(uid, s, es))
    ensures Safe(uid, RunLists(uid, s, es))
  {
    ListRunRefines(uid, s, es);
    SyncSafety(uid, s, ListSteps(uid, s, es));
  }

  /** Lists: enough quiet polls after a run in delta mode make the replica equal to the store. */
  lemma {:induction false} ListSyncConverges(
      uid: UserId, s0: State<ListData>, es: seq<ListEvent>, s: State<ListData>, rs: seq<Request>, end: State<ListData>)
    requires DeltaOnly(es)
    requires Inv(uid, s0) && PrudentRun(uid, s0, ListSteps(uid, s0, es)) && s == RunLists(uid, s0, es)
    requires s.poll.Idle? && forall id: Id :: Asked(uid, s, id) ==> s.table[id].lastModified <= s.clock
    requires |rs| > |Remaining(uid, s)| && end == Polls(uid, s, rs)
    ensures end.table == s.table && end.scope == s0.scope && InStep(uid, end)
    ensures Unfiltered(s0) ==> SameAsStore(uid, end)
  {
    ListRunRefines(uid, s0, es);
    InvRun(uid, s0, ListSteps(uid, s0, es));
    ScopeKept(uid, s0, ListSteps(uid, s0, es));
    QuietSpell(uid, s, rs, end);
  }

  /**
   Lists: a snapshot whose answer is sound, below the limit in particular, then any run in
   delta mode and enough quiet polls leave the replica with exactly the active lists.
   */
  lemma {:induction false} ListBootstrapConverges(
      uid: UserId, s0: State<ListData>, leq: (ListData, ListData) -> bool, answer: seq<Item<ListData>>,
      es: seq<ListEvent>, s: State<ListData>, rs: seq<Request>, end: State<ListData>)
    requires Inv(uid, s0) && s0.poll.Reading? && ByTitle(s0.table, uid, leq, answer)
    requires SoundAnswer(answer, s0.poll.limit, s0.clock) && DeltaOnly(es) && Unfiltered(s0)
    requires PrudentRun(uid, Listing(s0, answer), ListSteps(uid, Listing(s0, answer), es))
    requires s == RunLists(uid, Listing(s0, answer), es) && s.poll.Idle?
    requires forall id: Id :: Asked(uid, s, id) ==> s.table[id].lastModified <= s.clock
    requires |rs| > |Remaining(uid, s)| && end == Polls(uid, s, rs)
    ensures Live(end.replica) == Live(Mine(uid, end)) && end.table == s.table
  {
    SoundKeepsInv(uid, s0, leq, answer);
    ListSyncConverges(uid, Listing(s0, answer), es, s, rs, end);
  }

  // ----- what a stored text reads back as ------------------------------------------------

  /**
   The title a client gets back for a task it created is the one it sent exactly when that
   holds no token, and the detail exactly when it holds none and its encoding fits. A longer
   detail reads back as the longest prefix that fits would, 25 characters of it or more.
   */
  lemma {:induction false} CreatedTextReadsBack(uid: UserId, s: State<TaskData>, id: Id, task: NewTask, d: TaskData)
    requires id !in s.table && d == NextTask(uid, s, TaskWrite(CreateTask(id, task))).table[id].data
    ensures Codec.Decode(d.title) == task.title <==> Codec.TokenFree(task.title)
    ensures Codec.Decode(d.detail) == task.detail <==>
            Codec.TokenFree(task.detail) && |Codec.Encode(task.detail)| <= Codec.DETAIL_MAX_LEN
    ensures var k := Codec.FitLength(task.detail, Codec.DETAIL_MAX_LEN);
            |d.detail| <= Codec.DETAIL_MAX_LEN && (k >= 25 || k == |task.detail|)
            && Codec.Decode(d.detail) == Codec.Decode(task.detail[..k])
  {
    Codec.RoundTripExact(task.title);
    Codec.DetailKeepsAPrefix(task.detail);
    Codec.DetailReadsBack(task.detail);
    assert d.title == Codec.Encode(task.title) && d.detail == EncodeDetail(task.detail);
  }

  // ----- history -----------------------------------------------------------------------

  /** A step of the service itself: no device writes behind its back. */
  ghost predicate OwnStep<T(!new)>(uid: UserId, s: State<T>, step: Step<T>) {
    step.Write? ==> Lawful(s.table, uid, s.clock, Some(Item(step.id, step.row)))
  }

  ghost predicate OwnRun<T(!new)>(uid: UserId, s: State<T>, steps: seq<Step<T>>)
    decreases |steps|
  {
    steps == [] || (OwnStep(uid, s, steps[0]) && OwnRun(uid, Next(uid, s, steps[0]), steps[1..]))
  }

  /**
   What became of the rows: none is gone, other users' and deleted ones are as they were, a
   stamp that the clock had reached has not gone back, and new rows are the user's.
   */
  ghost predicate Evolved<T(!new)>(uid: UserId, before: State<T>, after: State<T>) {
    && before.clock <= after.clock
    && (forall id: Id :: id in before.table ==>
          && id in after.table && after.table[id].userId == before.table[id].userId
          && (before.table[id].userId != uid || before.table[id].isDeleted ==> after.table[id] == before.table[id])
          && (before.table[id].lastModified <= before.clock ==>
                before.table[id].lastModified <= after.table[id].lastModified <= after.clock))
    && (forall id: Id :: id in after.table && id !in before.table ==> after.table[id].userId == uid)
  }

  lemma EvolvedTransitive<T(!new)>(uid: UserId, a: State<T>, b: State<T>, c: State<T>)
    requires Evolved(uid, a, b) && Evolved(uid, b, c)
    ensures Evolved(uid, a, c)
  {
    assert forall id: Id :: id in a.table ==> id in b.table;
  }

  lemma OneStepEvolves<T(!new)>(uid: UserId, s: State<T>, step: Step<T>)
    requires OwnStep(uid, s, step)
    ensures Evolved(uid, s, Next(uid, s, step))
  {
  }

  lemma {:induction false} HistoryKept<T(!new)>(uid: UserId, s: State<T>, steps: seq<Step<T>>)
    requires OwnRun(uid, s, steps)
    ensures Evolved(uid, s, Run(uid, s, steps))
    decreases |steps|
  {
    if steps == [] {
    } else {
      var s1 := Next(uid, s, steps[0]);
      OneStepEvolves(uid, s, steps[0]);
      HistoryKept(uid, s1, steps[1..]);
      EvolvedTransitive(uid, s, s1, Run(uid, s, steps));
    }
  }

  /** Events of the service and its clients; no device writes. */
  predicate OwnEvents(es: seq<TaskEvent>) {
    forall i :: 0 <= i < |es| && es[i].TaskStep? ==> !es[i].step.Write?
  }

  lemma {:induction false} TaskRunIsOwn(uid: UserId, s: State<TaskData>, es: seq<TaskEvent>)
    requires OwnEvents(es)
    ensures OwnRun(uid, s, TaskSteps(uid, s, es))
    decreases |es|
  {
    if es == [] {
    } else {
      TaskEffectLawful(s.table, uid, s.clock, if es[0].TaskWrite? then es[0].op else DeleteTask(0, None));
      assert NextTask(uid, s, es[0]) == Next(uid, s, TaskAsStep(uid, s, es[0]));
      TaskRunIsOwn(uid, NextTask(uid, s, es[0]), es[1..]);
      assert TaskSteps(uid, s, es)[1..] == TaskSteps(uid, NextTask(uid, s, es[0]), es[1..]);
    }
  }

  lemma {:induction false} ListRunIsOwn(uid: UserId, s: State<ListData>, es: seq<ListEvent>)
    requires forall i :: 0 <= i < |es| && es[i].ListStep? ==> !es[i].step.Write?
    ensures OwnRun(uid, s, ListSteps(uid, s, es))
    decreases |es|
  {
    if es == [] {
    } else {
      ListEffectLawful(s.table, uid, s.clock, if es[0].ListWrite? then es[0].op else DeleteList(0, None));
      assert NextList(uid, s, es[0]) == Next(uid, s, ListAsStep(uid, s, es[0]));
      ListRunIsOwn(uid, NextList(uid, s, es[0]), es[1..]);
      assert ListSteps(uid, s, es)[1..] == ListSteps(uid, NextList(uid, s, es[0]), es[1..]);
    }
  }

  /** Any run of task operations and polls keeps the store's history. */
  lemma TaskHistory(uid: UserId, s: State<TaskData>, es: seq<TaskEvent>)
    requires OwnEvents(es)
    ensures Evolved(uid, s, RunTasks(uid, s, es))
  {
    TaskRunIsOwn(uid, s, es);
    TaskRunRefines(uid, s, es);
    HistoryKept(uid, s, TaskSteps(uid, s, es));
  }

  /** Any run of list operations and polls does, too. */
  lemma ListHistory(uid: UserId, s: State<ListData>, es: seq<ListEvent>)
    requires forall i :: 0 <= i < |es| && es[i].ListStep? ==> !es[i].step.Write?
    ensures Evolved(uid, s, RunLists(uid, s, es))
  {
    ListRunIsOwn(uid, s, es);
    ListRunRefines(uid, s, es);
    HistoryKept(uid, s, ListSteps(uid, s, es));
  }

  /** A task that the service deletes keeps its columns, is marked and stamped, and stays so in every run of it. */
  lemma DeletedTaskStays(uid: UserId, s: State<TaskData>, id: Id, expected: Option<int>, es: seq<TaskEvent>,
      later: State<TaskData>)
    requires Matches(s.table, uid, id, expected) && OwnEvents(es)
    requires later == RunTasks(uid, NextTask(uid, s, TaskWrite(DeleteTask(id, expected))), es)
    ensures id in later.table && later.table[id] == Row(uid, s.clock, true, s.table[id].data)
  {
    TaskHistory(uid, NextTask(uid, s, TaskWrite(DeleteTask(id, expected))), es);
  }

  /** So does a list, which is in no later snapshot, whatever the collation. */
  lemma DeletedListStays(uid: UserId, s: State<ListData>, id: Id, expected: Option<int>, es: seq<ListEvent>,
      later: State<ListData>, leq: (ListData, ListData) -> bool, answer: seq<Item<ListData>>)
    requires Matches(s.table, uid, id, expected)
    requires forall i :: 0 <= i < |es| && es[i].ListStep? ==> !es[i].step.Write?
    requires later == RunLists(uid, NextList(uid, s, ListWrite(DeleteList(id, expected))), es)
    requires ByTitle(later.table, uid, leq, answer)
    ensures id in later.table && later.table[id] == Row(uid, s.clock, true, s.table[id].data)
    ensures forall item :: item in answer ==> item.id != id
  {
    ListHistory(uid, NextList(uid, s, ListWrite(DeleteList(id, expected))), es);
  }

  // ----- compare and set -----------------------------------------------------------------

  /** A row-changing conditional write on task `id` that carries version `v`. */
  predicate Carries(op: TaskOp, id: Id, v: int) {
    op == DeleteTask(id, Some(v)) || (op.UpdateTask? && op == UpdateTask(id, op.patch, Some(v)) && !NoEffect(op.patch))
  }

  /** ... which succeeds. */
  predicate Wins(uid: UserId, s: State<TaskData>, op: TaskOp, id: Id, v: int) {
    Matches(s.table, uid, id, Some(v)) && Carries(op, id, v)
  }

  /** A version left behind by the clock never comes back, whoever writes. */
  lemma {:induction false} VersionGone(uid: UserId, s: State<TaskData>, es: seq<TaskEvent>, id: Id, v: int)
    requires s.clock > v && id in s.table && s.table[id].lastModified > v
    ensures var s' := RunTasks(uid, s, es);
            s'.clock > v && id in s'.table && s'.table[id].lastModified > v
    decreases |es|
  {
    if es == [] {
    } else {
      VersionGone(uid, NextTask(uid, s, es[0]), es[1..], id, v);
    }
  }

  /**
   Once the clock has passed `v`, a successful write carrying `v` is the last one to do so,
   in every run that follows, device writes included.
   */
  lemma CompareAndSetOnce(uid: UserId, s: State<TaskData>, first: TaskOp, es: seq<TaskEvent>, second: TaskOp, id: Id,
      v: int)
    requires Wins(uid, s, first, id, v) && s.clock > v
    ensures !Wins(uid, RunTasks(uid, NextTask(uid, s, TaskWrite(first)), es), second, id, v)
  {
    VersionGone(uid, NextTask(uid, s, TaskWrite(first)), es, id, v);
  }

  /** Two updates in a row, both carrying `v`: the second wins exactly in the version's own millisecond. */
  lemma BackToBackIff(uid: UserId, s: State<TaskData>, first: Patch, second: Patch, id: Id, v: int)
    requires Wins(uid, s, UpdateTask(id, first, Some(v)), id, v) && !NoEffect(second)
    ensures var s1 := NextTask(uid, s, TaskWrite(UpdateTask(id, first, Some(v))));
            Wins(uid, s1, UpdateTask(id, second, Some(v)), id, v) <==> s.clock == v
  {
    var s1 := NextTask(uid, s, TaskWrite(UpdateTask(id, first, Some(v))));
    assert s1.table[id] == Updated(first, s.clock, s.clock, s.table[id]);
  }

  /** After `first` and some run of the service itself, `second` wins with the same version. */
  ghost predicate LostUpdate(uid: UserId, s: State<TaskData>, first: TaskOp, second: TaskOp, id: Id, v: int) {
    exists es :: OwnEvents(es) && Wins(uid, RunTasks(uid, NextTask(uid, s, TaskWrite(first)), es), second, id, v)
  }

  /** An update that wins before the clock has reached `v`: wait until then, and update again. */
  lemma WaitAndUpdate(uid: UserId, s: State<TaskData>, first: Patch, second: TaskOp, id: Id, v: int)
    requires Wins(uid, s, UpdateTask(id, first, Some(v)), id, v) && s.clock <= v && Carries(second, id, v)
    ensures LostUpdate(uid, s, UpdateTask(id, first, Some(v)), second, id, v)
  {
    var s1 := NextTask(uid, s, TaskWrite(UpdateTask(id, first, Some(v))));
    var s2 := NextTask(uid, s1, TaskStep(Tick(v)));
    var s3 := NextTask(uid, s2, TaskWrite(UpdateTask(id, first, None)));
    assert s3.table[id] == Updated(first, v, v, s1.table[id]);
    var es := [TaskStep(Tick(v)), TaskWrite(UpdateTask(id, first, None))];
    assert es[1..] == [es[1]] && RunTasks(uid, s2, [es[1]]) == s3;
    assert RunTasks(uid, s1, es) == s3 && Wins(uid, s3, second, id, v);
  }

  /** A deleted task stays as it is, so a delete that wins is the last write to. */
  lemma DeleteIsLast(uid: UserId, s: State<TaskData>, es: seq<TaskEvent>, second: TaskOp, id: Id, v: int)
    requires Wins(uid, s, DeleteTask(id, Some(v)), id, v) && OwnEvents(es)
    ensures !Wins(uid, RunTasks(uid, NextTask(uid, s, TaskWrite(DeleteTask(id, Some(v)))), es), second, id, v)
  {
    TaskHistory(uid, NextTask(uid, s, TaskWrite(DeleteTask(id, Some(v)))), es);
  }

  /**
   After a conditional write has won, a second one with the same version can win again in
   some run exactly if the first was an update and the clock had not passed the version:
   in the version's own millisecond, or on a row that a device stamped ahead of the clock.
   */
  lemma LostUpdateIff(uid: UserId, s: State<TaskData>, first: TaskOp, second: TaskOp, id: Id, v: int)
    requires Wins(uid, s, first, id, v) && Carries(second, id, v)
    ensures LostUpdate(uid, s, first, second, id, v) <==> first.UpdateTask? && s.clock <= v
  {
    if first.UpdateTask? && s.clock <= v {
      WaitAndUpdate(uid, s, first.patch, second, id, v);
    }
    forall es | OwnEvents(es) && Wins(uid, RunTasks(uid, NextTask(uid, s, TaskWrite(first)), es), second, id, v)
      ensures first.UpdateTask? && s.clock <= v
    {
      if s.clock > v {
        CompareAndSetOnce(uid, s, first, es, second, id, v);
      }
      if first.DeleteTask? {
        DeleteIsLast(uid, s, es, second, id, v);
      }
    }
  }

  /**
   The guard is met by a task created a moment ago: in the millisecond of its creation two
   requests that both carry its version update it, and the first update is lost.
   */
  lemma LostUpdateReached(uid: UserId, task: NewTask, first: Patch, second: Patch)
    requires !NoEffect(first) && !NoEffect(second)
    ensures var empty: State<TaskData> := State(1000, map[], Idle, map[], 0, false, Everything());
            var s := RunTasks(uid, empty, [TaskWrite(CreateTask(1, task))]);
            var op1, op2 := UpdateTask(1, first, Some(1000)), UpdateTask(1, second, Some(1000));
            Wins(uid, s, op1, 1, 1000) && Wins(uid, NextTask(uid, s, TaskWrite(op1)), op2, 1, 1000)
  {
    var empty: State<TaskData> := State(1000, map[], Idle, map[], 0, false, Everything());
    var s := NextTask(uid, empty, TaskWrite(CreateTask(1, task)));
    assert RunTasks(uid, empty, [TaskWrite(CreateTask(1, task))]) == s;
    BackToBackIff(uid, s, first, second, 1, 1000);
  }

  // ----- appended tasks ------------------------------------------------------------------

  /** Every active task of the user has a position, and no two in one list share it. */
  ghost predicate Ordered(uid: UserId, table: Table<TaskData>) {
    && (forall id: Id :: Active(table, uid, id) ==> table[id].data.sort.Some? && table[id].data.sort.value >= 0)
    && (forall a: Id, b: Id ::
          Active(table, uid, a) && Active(table, uid, b) && a != b && table[a].data.listId == table[b].data.listId ==>
          table[a].data.sort != table[b].data.sort)
  }

  /** Creates without an explicit position, deletes, and updates of other fields. */
  predicate Appending(op: TaskOp) {
    match op
    case CreateTask(_, t) => t.sort.None?
    case UpdateTask(_, p, _) => !p.sort.Given? && p.listId.Omitted?
    case DeleteTask(_, _) => true
  }

  /** The next position lies after every active task of the list. */
  lemma NextSortIsLast(uid: UserId, table: Table<TaskData>, listId: Option<Id>, id: Id)
    requires Ordered(uid, table)
    ensures NextSort(table, uid, listId) >= 0
    ensures Active(table, uid, id) && table[id].data.listId == listId ==>
              table[id].data.sort.value < NextSort(table, uid, listId)
  {
    var siblings := Select(table, InList(uid, listId));
    if Active(table, uid, id) && table[id].data.listId == listId {
      assert Item(id, table[id]) in siblings;
    }
    var m := MaxSort(siblings);
    if m.Some? {
      var item :| item in siblings && item.row.data.sort == m;
      assert Active(table, uid, item.id);
    }
  }

  /** ... and right after one of them, unless it is 0. */
  lemma NextSortIsTight(uid: UserId, table: Table<TaskData>, listId: Option<Id>)
    ensures NextSort(table, uid, listId) == 0
            || exists other: Id ::
                 Active(table, uid, other) && table[other].data.listId == listId
                 && table[other].data.sort == Some(NextSort(table, uid, listId) - 1)
  {
    var siblings := Select(table, InList(uid, listId));
    var m := MaxSort(siblings);
    if m.Some? {
      var item :| item in siblings && item.row.data.sort == m;
      assert Active(table, uid, item.id);
    }
  }

  lemma CreateKeepsOrder(uid: UserId, table: Table<TaskData>, now: int, id: Id, task: NewTask)
    requires Ordered(uid, table) && task.sort.None? && id !in table
    ensures Ordered(uid, table[id := NewRow(table, uid, now, task)])
  {
    forall other: Id | Active(table, uid, other) && table[other].data.listId == task.listId
      ensures table[other].data.sort.value < NextSort(table, uid, task.listId)
    {
      NextSortIsLast(uid, table, task.listId, other);
    }
    NextSortIsLast(uid, table, task.listId, 0);
    var table' := table[id := NewRow(table, uid, now, task)];
    assert forall other: Id :: Active(table', uid, other) && other != id ==> Active(table, uid, other);
  }

  lemma {:induction false} AppendKeepsOrder(uid: UserId, s: State<TaskData>, op: TaskOp)
    requires Ordered(uid, s.table) && Appending(op)
    ensures Ordered(uid, NextTask(uid, s, TaskWrite(op)).table)
  {
    if op.CreateTask? && op.id !in s.table {
      CreateKeepsOrder(uid, s.table, s.clock, op.id, op.task);
    } else {
      var table' := NextTask(uid, s, TaskWrite(op)).table;
      assert forall id: Id :: Active(table', uid, id) ==>
        Active(s.table, uid, id) && table'[id].data.sort == s.table[id].data.sort
        && table'[id].data.listId == s.table[id].data.listId;
    }
  }

  ghost predicate AppendingRun(es: seq<TaskEvent>) {
    forall i :: 0 <= i < |es| ==>
      match es[i]
      case TaskWrite(op) => Appending(op)
      case TaskStep(step) => !step.Write?
  }

  /** In every such run positions stay distinct, and a new task goes after all its active siblings. */
  lemma {:induction false} AppendOrder(uid: UserId, s: State<TaskData>, es: seq<TaskEvent>, id: Id, task: NewTask)
    requires Ordered(uid, s.table) && AppendingRun(es) && task.sort.None?
    ensures var s' := RunTasks(uid, s, es);
            Ordered(uid, s'.table)
            && (id !in s'.table ==>
                var s'' := NextTask(uid, s', TaskWrite(CreateTask(id, task)));
                Active(s''.table, uid, id)
                && forall other: Id ::
                     other != id && Active(s''.table, uid, other) && s''.table[other].data.listId == task.listId ==>
                     s''.table[other].data.sort.value < s''.table[id].data.sort.value)
    decreases |es|
  {
    if es == [] {
      if id !in s.table {
        forall other: Id | Active(s.table, uid, other) && s.table[other].data.listId == task.listId
          ensures s.table[other].data.sort.value < NextSort(s.table, uid, task.listId)
        {
          NextSortIsLast(uid, s.table, task.listId, other);
        }
        AppendKeepsOrder(uid, s, CreateTask(id, task));
      }
    } else {
      if es[0].TaskWrite? {
        AppendKeepsOrder(uid, s, es[0].op);
      }
      AppendOrder(uid, NextTask(uid, s, es[0]), es[1..], id, task);
    }
  }
}
