/**
 The write endpoints among other requests: between the write and the existence check or
 re-read that decides the answer, other operations of the service may run.
 */
module WriteOutcomes {
  import opened Wrappers
  import opened Table
  import opened Store
  import opened SyncProtocol
  import opened ServiceRuns
  import opened Handlers
  import Repository

  /** What the write reports when it runs in state `s`. */
  predicate Reports(countsChanged: bool, uid: UserId, s: State<TaskData>, op: TaskOp) {
    match op
    case CreateTask(id, _) => id !in s.table
    case UpdateTask(id, p, expected) =>
      Repository.Reported(countsChanged, s.table, uid, id, p, expected, s.clock, s.clock)
    case DeleteTask(id, expected) => Matches(s.table, uid, id, expected)
  }

  /** The list that an update moves its task to was not there when it was looked for. */
  predicate Refused(lists: Table<ListData>, uid: UserId, op: TaskOp) {
    op.UpdateTask? && ListMissing(lists, uid, op.patch)
  }

  /**
   An update, which begins with a look at `lists` and ends with a re-read, or a delete. The
   write runs in `s`, the existence check or the re-read in `later`.
   */
  function Answer(countsChanged: bool, uid: UserId, lists: Table<ListData>, s: State<TaskData>, op: TaskOp,
                  later: State<TaskData>): Outcome
    requires !op.CreateTask?
  {
    if Refused(lists, uid, op) then NotFound
    else if Reports(countsChanged, uid, s, op) then
      if op.UpdateTask? && !Active(later.table, uid, op.id) then NotFound else Success
    else if op.expected.Some? && Active(later.table, uid, op.id) then Conflict
    else NotFound
  }

  function AfterWrite(uid: UserId, lists: Table<ListData>, s: State<TaskData>, op: TaskOp): State<TaskData> {
    if Refused(lists, uid, op) then s else NextTask(uid, s, TaskWrite(op))
  }

  /** The row was active, and at another version, or the driver overlooked an update that changed nothing. */
  predicate Stale(countsChanged: bool, uid: UserId, s: State<TaskData>, op: TaskOp)
    requires !op.CreateTask? && op.expected.Some?
  {
    Active(s.table, uid, op.id)
    && (s.table[op.id].lastModified != op.expected.value
        || (op.UpdateTask? && Unnoticed(countsChanged, s.table, uid, op.id, op.patch, s.clock, s.clock)))
  }

  /** A deleted task, or another user's, is left as it is by the write and by all that follows. */
  lemma InactiveStays(uid: UserId, lists: Table<ListData>, s: State<TaskData>, op: TaskOp, es: seq<TaskEvent>,
      later: State<TaskData>)
    requires !op.CreateTask? && OwnEvents(es) && later == RunTasks(uid, AfterWrite(uid, lists, s, op), es)
    requires op.id in s.table && !Active(s.table, uid, op.id)
    ensures op.id in later.table && later.table[op.id] == s.table[op.id]
  {
    assert AfterWrite(uid, lists, s, op).table == s.table;
    TaskHistory(uid, AfterWrite(uid, lists, s, op), es);
  }

  /** A write that reports success leaves a row, which is gone from the active ones later only if it is deleted. */
  lemma ReportedStays(countsChanged: bool, uid: UserId, lists: Table<ListData>, s: State<TaskData>, op: TaskOp,
      es: seq<TaskEvent>, later: State<TaskData>)
    requires !op.CreateTask? && OwnEvents(es) && later == RunTasks(uid, AfterWrite(uid, lists, s, op), es)
    requires Reports(countsChanged, uid, s, op) && !Refused(lists, uid, op)
    ensures Owned(later.table, uid, op.id) && (op.DeleteTask? ==> later.table[op.id].isDeleted)
  {
    TaskHistory(uid, AfterWrite(uid, lists, s, op), es);
  }

  /** A conditional write that does not report success on an active row found it stale and wrote nothing. */
  lemma UnreportedIsStale(countsChanged: bool, uid: UserId, s: State<TaskData>, op: TaskOp)
    requires !op.CreateTask? && op.expected.Some? && !Reports(countsChanged, uid, s, op)
    ensures NextTask(uid, s, TaskWrite(op)).table == s.table
    ensures Active(s.table, uid, op.id) ==> Stale(countsChanged, uid, s, op)
  {
  }

  /**
   Whatever the service does between the look at the lists, the write and the check: a
   success means that the row matched when the write ran; a conflict, that nothing was
   written and that a row which was there was stale; and a write that reports success is
   answered with 404 exactly if it was an update and its task was deleted meanwhile.
   */
  lemma {:induction false} AnswerAmongOthers(
      countsChanged: bool, uid: UserId, lists: Table<ListData>, s: State<TaskData>, op: TaskOp, es: seq<TaskEvent>,
      later: State<TaskData>)
    requires !op.CreateTask? && OwnEvents(es)
    requires later == RunTasks(uid, AfterWrite(uid, lists, s, op), es)
    ensures Answer(countsChanged, uid, lists, s, op, later) == Success ==>
              Matches(s.table, uid, op.id, op.expected)
              && (op.DeleteTask? ==> op.id in later.table && !Active(later.table, uid, op.id))
    ensures Answer(countsChanged, uid, lists, s, op, later) == Conflict ==>
              op.expected.Some? && AfterWrite(uid, lists, s, op).table == s.table
              && (op.id in s.table ==> Stale(countsChanged, uid, s, op))
    ensures Reports(countsChanged, uid, s, op) && !Refused(lists, uid, op) ==>
              (Answer(countsChanged, uid, lists, s, op, later) == NotFound <==>
               op.UpdateTask? && op.id in later.table && later.table[op.id].isDeleted)
  {
    if Refused(lists, uid, op) {
    } else if Reports(countsChanged, uid, s, op) {
      ReportedStays(countsChanged, uid, lists, s, op, es, later);
    } else if op.expected.Some? {
      UnreportedIsStale(countsChanged, uid, s, op);
      if op.id in s.table && !Active(s.table, uid, op.id) {
        InactiveStays(uid, lists, s, op, es, later);
      }
    }
  }

  /** A task is completed, deleted by another request, and the first request is told that there is none. */
  lemma EffectiveUpdateNotFound(countsChanged: bool, uid: UserId, d: TaskData)
    requires d.status == NeedsAction
    ensures var s: State<TaskData> := State(1000, map[1 := Row(uid, 500, false, d)], Idle, map[], 0, false, Everything());
            var op := UpdateTask(1, StatusPatch(Completed), None);
            var s1 := NextTask(uid, s, TaskWrite(op));
            var later := RunTasks(uid, s1, [TaskWrite(DeleteTask(1, None))]);
            Reports(countsChanged, uid, s, op) && s1.table != s.table
            && Answer(countsChanged, uid, map[], s, op, later) == NotFound
  {
    var s: State<TaskData> := State(1000, map[1 := Row(uid, 500, false, d)], Idle, map[], 0, false, Everything());
    var s1 := NextTask(uid, s, TaskWrite(UpdateTask(1, StatusPatch(Completed), None)));
    assert s1.table[1].lastModified == 1000;
    assert s1.table[1] != s.table[1];
    assert RunTasks(uid, s1, [TaskWrite(DeleteTask(1, None))]) == NextTask(uid, s1, TaskWrite(DeleteTask(1, None)));
  }

  /** With nothing in between, the answer is the one the handlers give as one step. */
  lemma AnswerAlone(countsChanged: bool, uid: UserId, lists: Table<ListData>, s: State<TaskData>, op: TaskOp)
    requires !op.CreateTask?
    ensures var o := Answer(countsChanged, uid, lists, s, op, AfterWrite(uid, lists, s, op));
            && (o == Success <==> Reports(countsChanged, uid, s, op) && !Refused(lists, uid, op))
            && (o == Conflict <==> op.expected.Some? && Stale(countsChanged, uid, s, op) && !Refused(lists, uid, op))
  {
  }
}
