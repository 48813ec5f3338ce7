/**
 The write endpoints of `routers/tasks.py`: a conditional write, the check that tells a
 missing task from a changed one, and the re-read of the result.
 */
module Handlers {
  import opened Wrappers
  import opened Table
  import opened Store
  import opened Repository

  datatype Outcome = Success | NotFound | Conflict

  /** `_resolve_write` */
  method ResolveWrite(repo: Repository, uid: UserId, id: Id, ok: bool, conditional: bool) returns (o: Outcome)
    ensures o == if ok then Success else if conditional && Active(repo.tasks, uid, id) then Conflict else NotFound
  {
    if ok {
      return Success;
    }
    if conditional {
      var found := repo.TaskExists(uid, id);
      if found {
        return Conflict;
      }
    }
    return NotFound;
  }

  /**
   A driver that counts changed rows does not notice an update that leaves the row as it
   is, its stamp included.
   */
  predicate Unnoticed(countsChanged: bool, tasks: Table<TaskData>, uid: UserId, id: Id, p: Patch, statusNow: int,
      now: int) {
    countsChanged && !NoEffect(p) && Active(tasks, uid, id) && Updated(p, statusNow, now, tasks[id]) == tasks[id]
  }

  /** Such an update carries the row's own stamp: the clock has not moved since the last write. */
  lemma UnnoticedNeedsSameMs(countsChanged: bool, tasks: Table<TaskData>, uid: UserId, id: Id, p: Patch,
                             statusNow: int, now: int)
    requires Unnoticed(countsChanged, tasks, uid, id, p, statusNow, now)
    ensures now == tasks[id].lastModified
  {
  }

  /** The list a task is moved to must be there. */
  predicate ListMissing(lists: Table<ListData>, uid: UserId, p: Patch) {
    p.listId.Given? && !Active(lists, uid, p.listId.value)
  }

  method UpdateTaskHandler(repo: Repository, uid: UserId, id: Id, body: Patch, version: Option<int>,
                           statusNow: int, now: int)
    returns (o: Outcome)
    modifies repo`tasks
    ensures o == Success <==>
            !ListMissing(repo.lists, uid, body) && Matches(old(repo.tasks), uid, id, version)
            && !Unnoticed(repo.countsChanged, old(repo.tasks), uid, id, body, statusNow, now)
    ensures o == Conflict <==>
            !ListMissing(repo.lists, uid, body) && version.Some? && Active(old(repo.tasks), uid, id)
            && (old(repo.tasks[id].lastModified) != version.value
                || Unnoticed(repo.countsChanged, old(repo.tasks), uid, id, body, statusNow, now))
    ensures o == Success && !NoEffect(body) ==>
            repo.tasks == old(repo.tasks)[id := Updated(body, statusNow, now, old(repo.tasks)[id])]
    ensures o != Success || NoEffect(body) ==> repo.tasks == old(repo.tasks)
    ensures body.listId.Given? ==>
              var l := body.listId.value;
              (l in repo.lists && repo.lists[l].userId == uid && !repo.lists[l].isDeleted) || o == NotFound
  {
    if body.listId.Given? {
      var found := repo.ListExists(uid, body.listId.value);
      if !found {
        return NotFound;
      }
    }
    var ok := repo.UpdateTask(uid, id, body, version, statusNow, now);
    o := ResolveWrite(repo, uid, id, ok, version.Some?);
    if o == Success {
      o := RequireTask(repo, uid, id);
    }
  }

  /** `_require_task` */
  method RequireTask(repo: Repository, uid: UserId, id: Id) returns (o: Outcome)
    ensures o == if Active(repo.tasks, uid, id) then Success else NotFound
  {
    var task := repo.GetTask(uid, id);
    o := if task.None? then NotFound else Success;
  }

  method DeleteTaskHandler(repo: Repository, uid: UserId, id: Id, version: Option<int>, now: int) returns (o: Outcome)
    modifies repo`tasks
    ensures o == Success <==> Matches(old(repo.tasks), uid, id, version)
    ensures o == Conflict <==>
            version.Some? && Active(old(repo.tasks), uid, id) && old(repo.tasks[id].lastModified) != version.value
    ensures o == Success ==> !Active(repo.tasks, uid, id) && id in repo.tasks
    ensures repo.tasks == Put(old(repo.tasks), TaskEffect(old(repo.tasks), uid, now, TaskOp.DeleteTask(id, version)))
  {
    var ok := repo.DeleteTask(uid, now, id, version);
    o := ResolveWrite(repo, uid, id, ok, version.Some?);
  }

  /** `complete_task` and `uncomplete_task` */
  method SetStatusHandler(repo: Repository, uid: UserId, id: Id, status: Status, version: Option<int>,
                          statusNow: int, now: int)
    returns (o: Outcome)
    modifies repo`tasks
    ensures o == Success <==>
            Matches(old(repo.tasks), uid, id, version)
            && !Unnoticed(repo.countsChanged, old(repo.tasks), uid, id, StatusPatch(status), statusNow, now)
    ensures o == Conflict <==>
            version.Some? && Active(old(repo.tasks), uid, id)
            && (old(repo.tasks[id].lastModified) != version.value
                || Unnoticed(repo.countsChanged, old(repo.tasks), uid, id, StatusPatch(status), statusNow, now))
    ensures o == Success ==>
            id in repo.tasks && repo.tasks[id].data.status == status
            && repo.tasks[id].data.completedTime == (if status == Completed then statusNow else 0)
            && repo.tasks[id].lastModified == now
            && repo.tasks == old(repo.tasks)[id := repo.tasks[id]]
    ensures o != Success ==> repo.tasks == old(repo.tasks)
  {
    var ok := repo.SetStatus(uid, id, status, version, statusNow, now);
    o := ResolveWrite(repo, uid, id, ok, version.Some?);
    if o == Success {
      o := RequireTask(repo, uid, id);
    }
  }
}
