/**
 The repository object: its two tables, and its methods as the source runs them, statement
 by statement. Clock readings, generated ids and the resolved user are parameters.
 */
module Repository {
  import opened Wrappers
  import opened Table
  import opened DeltaPage
  import opened Store
  import opened SyncProtocol
  import Sql
  import Codec

  class Repository {
    var tasks: Table<TaskData>
    var lists: Table<ListData>
    /** Whether the driver reports the rows an UPDATE really changed, or all it found. */
    const countsChanged: bool

    constructor (countsChanged: bool)
      ensures tasks == map[] && lists == map[] && this.countsChanged == countsChanged
    {
      tasks, lists := map[], map[];
      this.countsChanged := countsChanged;
    }

    method ListTasks(uid: UserId, since: Option<int>, serverNow: int, inboxOnly: bool, listId: Option<Id>,
                     includeCompleted: bool, limit: Option<int>)
      returns (items: seq<Item<TaskData>>, cursor: int, hasMore: bool)
      ensures since.Some? ==>
                Page(items, cursor, hasMore)
                == Delta(tasks, uid, since.value, serverNow, Sql.Scope(inboxOnly, listId), ClampLimit(limit))
      ensures since.None? ==>
                items == Limit(Select(tasks, Sql.Wanted(uid, None, serverNow, inboxOnly, listId, includeCompleted)),
                               ClampLimit(limit))
                && cursor == PageCursor(items, ClampLimit(limit), serverNow)
                && hasMore == IsFullPage(items, ClampLimit(limit))
      ensures Answers(tasks, uid, since, serverNow, inboxOnly, listId, includeCompleted, ClampLimit(limit),
                      items, cursor, hasMore)
    {
      var effectiveLimit := ClampLimit(limit);
      items := QueryTasks(uid, since, serverNow, inboxOnly, listId, includeCompleted, effectiveLimit);
      ghost var page := items;
      if since.Some? {
        SameWindow(uid, since.value, serverNow, inboxOnly, listId, includeCompleted, tasks);
        DeltaIs(tasks, uid, since.value, serverNow, Sql.Scope(inboxOnly, listId), effectiveLimit, page);
      }
      if since.Some? && IsSingleMsFullPage(items, effectiveLimit) {
        var boundary := Last(items).row.lastModified;
        var rest := DrainTasksAt(uid, boundary, Last(items).id, inboxOnly, listId);
        items := items + rest;
        cursor, hasMore := boundary + 1, false;
      } else {
        cursor := PageCursor(items, effectiveLimit, serverNow);
        hasMore := IsFullPage(items, effectiveLimit);
      }
      ByColumns(tasks, uid, since, serverNow, inboxOnly, listId, includeCompleted, effectiveLimit,
                items, cursor, hasMore);
    }

    /** The page query itself. */
    method QueryTasks(uid: UserId, since: Option<int>, serverNow: int, inboxOnly: bool, listId: Option<Id>,
                      includeCompleted: bool, limit: nat)
      returns (items: seq<Item<TaskData>>)
      ensures items
              == Limit(Select(tasks, Sql.Wanted(uid, since, serverNow, inboxOnly, listId, includeCompleted)), limit)
    {
      var clauses, params := Sql.BuildPageQuery(uid, since, serverNow, inboxOnly, listId, includeCompleted, limit);
      var bound := params[..|params| - 1];
      Sql.SelectMeans(tasks, clauses, bound, Sql.Wanted(uid, since, serverNow, inboxOnly, listId, includeCompleted));
      items := Limit(Sql.ExecSelect(tasks, clauses, bound), params[|params| - 1].n);
    }

    method DrainTasksAt(uid: UserId, boundary: int, after: Id, inboxOnly: bool, listId: Option<Id>)
      returns (items: seq<Item<TaskData>>)
      ensures items == Select(tasks, InDrain(uid, boundary, after, Sql.Scope(inboxOnly, listId)))
      ensures Sorted(items)
      ensures forall item :: item in items <==>
                Stored(tasks, item) && Sql.Requested(uid, Some(boundary), boundary, inboxOnly, listId, true, item)
                && item.id > after
    {
      var clauses, params := Sql.BuildDrainQuery(uid, boundary, after, inboxOnly, listId);
      Sql.SelectMeans(tasks, clauses, params, InDrain(uid, boundary, after, Sql.Scope(inboxOnly, listId)));
      items := Sql.ExecSelect(tasks, clauses, params);
    }

    method CreateTask(uid: UserId, now: int, id: Id, task: NewTask) returns (inserted: bool)
      modifies `tasks
      ensures inserted <==> id !in old(tasks)
      ensures tasks == Put(old(tasks), TaskEffect(old(tasks), uid, now, TaskOp.CreateTask(id, task)))
      ensures inserted ==>
                tasks == old(tasks)[id := Row(uid, now, false, tasks[id].data)]
                && StoresNew(old(tasks), uid, now, task, tasks[id].data)
      ensures !inserted ==> tasks == old(tasks)
    {
      ghost var row := NewRow(tasks, uid, now, task);
      NewStored(tasks, uid, now, task);
      var dueTime := if task.due.Some? then task.due.value else 0;
      var completedTime := if task.status == Completed then now else 0;
      var title := Codec.EncodeEmoji(task.title);
      var detail := Codec.EncodeDetail(task.detail);
      var sort := if task.sort.Some? then task.sort.value else NextSort(tasks, uid, task.listId);
      if id in tasks {
        return false;
      }
      tasks := tasks[id := Row(uid, now, false, TaskData(
        task.listId, title, detail, task.status, task.importance, dueTime, completedTime, Some(sort), task.link))];
      assert tasks[id] == row;
      return true;
    }

    method UpdateTask(uid: UserId, id: Id, patch: Patch, expected: Option<int>, statusNow: int, now: int)
      returns (ok: bool)
      modifies `tasks
      ensures ok == Reported(countsChanged, old(tasks), uid, id, patch, expected, statusNow, now)
      ensures tasks == if NoEffect(patch) || !Matches(old(tasks), uid, id, expected) then old(tasks)
                       else old(tasks)[id := Updated(patch, statusNow, now, old(tasks)[id])]
      ensures statusNow == now ==>
                tasks == Put(old(tasks), TaskEffect(old(tasks), uid, now, TaskOp.UpdateTask(id, patch, expected)))
      ensures Found(old(tasks), uid, id, expected) && AsksForChange(patch) ==>
                tasks == old(tasks)[id := Row(uid, now, false, tasks[id].data)]
                && StoresPatch(patch, statusNow, old(tasks)[id].data, tasks[id].data)
      ensures !Found(old(tasks), uid, id, expected) || !AsksForChange(patch) ==> tasks == old(tasks)
      ensures ok <==> Found(old(tasks), uid, id, expected)
                      && (countsChanged && AsksForChange(patch) ==> tasks[id] != old(tasks)[id])
    {
      if Matches(tasks, uid, id, expected) {
        PatchStored(patch, statusNow, tasks[id]);
      }
      var sets, params := Sql.BuildUpdate(patch, statusNow, now);
      if sets == [] {
        if expected.Some? {
          ok := RowMatchesVersion(uid, id, expected.value);
        } else {
          ok := TaskExists(uid, id);
        }
        return;
      }
      ok := UpdateWhere(uid, id, expected, sets, params, row => Updated(patch, statusNow, now, row));
    }

    /** Adds the WHERE part of a write to its SET part and runs the statement. */
    method UpdateWhere(uid: UserId, id: Id, expected: Option<int>, sets: seq<Sql.Column>, params: seq<Sql.Value>,
                       ghost change: Row<TaskData> -> Row<TaskData>)
      returns (ok: bool)
      requires |params| == |sets| && forall row :: Sql.AssignAll(sets, params, row) == change(row)
      modifies `tasks
      ensures tasks == if Matches(old(tasks), uid, id, expected) then old(tasks)[id := change(old(tasks)[id])]
                       else old(tasks)
      ensures ok <==> Matches(old(tasks), uid, id, expected)
                      && (countsChanged ==> change(old(tasks)[id]) != old(tasks)[id])
    {
      var clauses, target := Sql.BuildTarget(uid, id, expected);
      Sql.UpdateMeans(tasks, sets, params, clauses, target, uid, id, expected, change);
      var bound := params + target;
      assert bound[|sets|..] == target;
      ok := Execute(sets, clauses, bound);
    }

    /** Runs a built UPDATE; true if the driver reports at least one affected row. */
    method Execute(sets: seq<Sql.Column>, clauses: seq<Sql.Clause>, params: seq<Sql.Value>) returns (ok: bool)
      requires |params| == |sets| + Sql.AllHoles(clauses)
      modifies `tasks
      ensures tasks == Sql.ExecUpdate(old(tasks), sets, clauses, params)
      ensures ok <==> exists id :: id in Sql.Found(old(tasks), clauses, params[|sets|..])
                                   && (countsChanged ==> tasks[id] != old(tasks)[id])
    {
      var before := tasks;
      tasks := Sql.ExecUpdate(before, sets, clauses, params);
      var found := Sql.Found(before, clauses, params[|sets|..]);
      ok := exists id :: id in found && (countsChanged ==> tasks[id] != before[id]);
    }

    method SetStatus(uid: UserId, id: Id, status: Status, expected: Option<int>, statusNow: int, now: int)
      returns (ok: bool)
      modifies `tasks
      ensures ok == Reported(countsChanged, old(tasks), uid, id, StatusPatch(status), expected, statusNow, now)
      ensures tasks == if !Matches(old(tasks), uid, id, expected) then old(tasks)
                       else old(tasks)[id := Updated(StatusPatch(status), statusNow, now, old(tasks)[id])]
      ensures Found(old(tasks), uid, id, expected) ==>
                tasks == old(tasks)[id := Row(uid, now, false, old(tasks)[id].data.(
                  status := status, completedTime := if status == Completed then statusNow else 0))]
    {
      ok := UpdateTask(uid, id, StatusPatch(status), expected, statusNow, now);
    }

    method DeleteTask(uid: UserId, now: int, id: Id, expected: Option<int>) returns (ok: bool)
      modifies `tasks
      ensures ok <==> Matches(old(tasks), uid, id, expected)
      ensures tasks == Put(old(tasks), TaskEffect(old(tasks), uid, now, TaskOp.DeleteTask(id, expected)))
      ensures ok <==> Found(old(tasks), uid, id, expected)
      ensures tasks == if ok then old(tasks)[id := Row(uid, now, true, old(tasks)[id].data)] else old(tasks)
    {
      // SET is_deleted = 'Y', last_modified = %s: the literal is bound as a value of its own here.
      var sets := [Sql.IsDeleted, Sql.LastModified];
      var params := [Sql.Flag(true), Sql.Num(now)];
      Sql.AssignSnoc([], [], Sql.IsDeleted, Sql.Flag(true));
      Sql.AssignSnoc([Sql.IsDeleted], [Sql.Flag(true)], Sql.LastModified, Sql.Num(now));
      assert [Sql.IsDeleted] + [Sql.LastModified] == sets && [] + [Sql.IsDeleted] == [Sql.IsDeleted];
      assert [Sql.Flag(true)] + [Sql.Num(now)] == params && [] + [Sql.Flag(true)] == [Sql.Flag(true)];
      ok := UpdateWhere(uid, id, expected, sets, params,
                        (row: Row<TaskData>) => Stamped(row.(isDeleted := true), now));
    }

    method RowMatchesVersion(uid: UserId, id: Id, expected: int) returns (matches: bool)
      ensures matches <==> Matches(tasks, uid, id, Some(expected))
    {
      matches := id in tasks && tasks[id].userId == uid && !tasks[id].isDeleted && tasks[id].lastModified == expected;
    }

    method TaskExists(uid: UserId, id: Id) returns (found: bool)
      ensures found <==> Active(tasks, uid, id)
    {
      found := id in tasks && tasks[id].userId == uid && !tasks[id].isDeleted;
    }

    method GetTask(uid: UserId, id: Id) returns (task: Option<Row<TaskData>>)
      ensures task == if Active(tasks, uid, id) then Some(tasks[id]) else None
    {
      if id in tasks && tasks[id].userId == uid && !tasks[id].isDeleted {
        return Some(tasks[id]);
      }
      return None;
    }

    /**
     The lists changed since a cursor, or all active ones. The answer to the query by title
     is the database's, `byTitle`; `inbox` tells that the implicit Inbox is put in front.
     */
    method ListLists(uid: UserId, since: Option<int>, serverNow: int, limit: Option<int>,
                     ghost leq: (ListData, ListData) -> bool, byTitle: seq<Item<ListData>>)
      returns (items: seq<Item<ListData>>, cursor: int, hasMore: bool, inbox: bool)
      requires since.None? ==> ByTitle(lists, uid, leq, byTitle)
      ensures since.Some? ==>
                Page(items, cursor, hasMore)
                == Delta(lists, uid, since.value, serverNow, Everything(), ClampLimit(limit))
      ensures since.None? ==>
                items == Limit(byTitle, ClampLimit(limit))
                && (forall item :: item in items ==> Active(lists, uid, item.id) && lists[item.id] == item.row)
                && (hasMore <==> |items| == ClampLimit(limit))
                && cursor == if hasMore then Last(items).row.lastModified else serverNow
      ensures since.Some? ==>
                Sorted(items) && Signals(items, since, serverNow, ClampLimit(limit), cursor, hasMore)
                && (forall item :: item in items ==> Eligible(lists, uid, since.value, serverNow, Everything(), item))
                && (forall item :: Eligible(lists, uid, since.value, serverNow, Everything(), item) && item !in items ==>
                      |items| >= ClampLimit(limit) && Before(Last(items), item) && item.row.lastModified >= cursor)
      ensures inbox <==> since.None?
    {
      ghost var table := lists;
      if since.Some? {
        PageMeans(table, uid, since.value, serverNow, ClampLimit(limit));
      }
      var effectiveLimit := ClampLimit(limit);
      if since.Some? {
        items := FirstQuery(lists, uid, since.value, serverNow, Everything(), effectiveLimit);
      } else {
        items := Limit(byTitle, effectiveLimit);
        assert forall item :: item in items ==> item in byTitle;
      }
      inbox := since.None?;
      if since.Some? && IsSingleMsFullPage(items, effectiveLimit) {
        var boundary := Last(items).row.lastModified;
        items := items + DrainQuery(lists, uid, items, Everything());
        return items, boundary + 1, false, inbox;
      }
      cursor := PageCursor(items, effectiveLimit, serverNow);
      hasMore := IsFullPage(items, effectiveLimit);
    }

    method CreateList(uid: UserId, now: int, id: Id, title: Text)
      modifies `lists
      ensures lists == Put(old(lists), ListEffect(old(lists), uid, now, ListOp.CreateList(id, title)))
      ensures id in old(lists) ==> lists == old(lists)
      ensures id !in old(lists) ==>
                id in lists && StoresTitle(title, lists[id].data.title)
                && lists == old(lists)[id := Row(uid, now, false, lists[id].data)]
    {
      TitleStored(title);
      var encoded := Codec.EncodeEmoji(title);
      if id !in lists {
        lists := lists[id := Row(uid, now, false, ListData(encoded))];
      }
    }

    method UpdateList(uid: UserId, now: int, id: Id, title: Text, expected: Option<int>) returns (found: bool)
      modifies `lists
      ensures found <==> Matches(old(lists), uid, id, expected)
                         && !(countsChanged && now == old(lists)[id].lastModified
                              && Codec.Encode(title) == old(lists)[id].data.title)
      ensures lists == Put(old(lists), ListEffect(old(lists), uid, now, RenameList(id, title, expected)))
      ensures Found(old(lists), uid, id, expected) ==>
                StoresTitle(title, lists[id].data.title)
                && lists == old(lists)[id := Row(uid, now, false, lists[id].data)]
      ensures !Found(old(lists), uid, id, expected) ==> lists == old(lists)
    {
      TitleStored(title);
      var encoded := Codec.EncodeEmoji(title);
      found := false;
      if Matches(lists, uid, id, expected) {
        var before := lists[id];
        lists := lists[id := before.(data := ListData(encoded), lastModified := now)];
        found := countsChanged ==> lists[id] != before;
      }
    }

    method DeleteList(uid: UserId, now: int, id: Id, expected: Option<int>) returns (found: bool)
      modifies `lists
      ensures found <==> Matches(old(lists), uid, id, expected)
      ensures lists == Put(old(lists), ListEffect(old(lists), uid, now, ListOp.DeleteList(id, expected)))
      ensures found <==> Found(old(lists), uid, id, expected)
      ensures lists == if found then old(lists)[id := Row(uid, now, true, old(lists)[id].data)] else old(lists)
    {
      found := Matches(lists, uid, id, expected);
      if found {
        lists := lists[id := lists[id].(isDeleted := true, lastModified := now)];
      }
    }

    method ListExists(uid: UserId, id: Id) returns (found: bool)
      ensures found <==> Active(lists, uid, id)
    {
      found := id in lists && lists[id].userId == uid && !lists[id].isDeleted;
    }
  }

  /** The row is the user's, not deleted, and at the supplied version if there is one. */
  ghost predicate Found<T(!new)>(table: Table<T>, uid: UserId, id: Id, expected: Option<int>) {
    && id in table && table[id].userId == uid && !table[id].isDeleted
    && (expected.Some? ==> table[id].lastModified == expected.value)
  }

  /** Something is sent that is not ignored; null is, for title, detail, status and position. */
  ghost predicate AsksForChange(p: Patch) {
    p.title.Given? || p.detail.Given? || p.status.Given? || p.sort.Given?
    || p.importance != Omitted || p.due != Omitted || p.listId != Omitted || p.link != Omitted
  }

  /**
   What the client is told: a page below the limit is the last one and its cursor is the
   server's time; a full one has more behind it and its cursor is its last stamp; only a
   full delta page on one millisecond ends it, with the next millisecond as the cursor.
   */
  ghost predicate Signals<T(!new)>(items: seq<Item<T>>, since: Option<int>, now: int, limit: nat, cursor: int,
      hasMore: bool)
    requires limit >= 1
  {
    if |items| < limit then cursor == now && !hasMore
    else if since.Some? && items[0].row.lastModified == Last(items).row.lastModified
    then cursor == Last(items).row.lastModified + 1 && !hasMore
    else |items| == limit && cursor == Last(items).row.lastModified && hasMore
  }

  lemma PageMeans<T(!new)>(table: Table<T>, uid: UserId, since: int, now: int, limit: nat)
    requires limit >= 1
    ensures var page := Delta(table, uid, since, now, Everything(), limit);
            Sorted(page.items)
            && Signals(page.items, Some(since), now, limit, page.cursor, page.hasMore)
            && (forall item :: item in page.items ==> Eligible(table, uid, since, now, Everything(), item))
            && (forall item :: Eligible(table, uid, since, now, Everything(), item) && item !in page.items ==>
                  |page.items| >= limit && Before(Last(page.items), item) && item.row.lastModified >= page.cursor)
  {
    var page := Delta(table, uid, since, now, Everything(), limit);
    PageHolds(table, uid, since, now, Everything(), limit);
    PageSignals(table, uid, since, now, Everything(), limit);
    forall item | Eligible(table, uid, since, now, Everything(), item) && item !in page.items
      ensures |page.items| >= limit && Before(Last(page.items), item) && item.row.lastModified >= page.cursor
    {
      PageLeaves(table, uid, since, now, Everything(), limit, item);
    }
  }

  /**
   The answer to a call, by the rows' own columns: requested rows only, in order; any other
   requested row comes behind the page, and not below the cursor of a delta.
   */
  ghost predicate Answers(table: Table<TaskData>, uid: UserId, since: Option<int>, now: int, inboxOnly: bool,
      listId: Option<Id>, includeCompleted: bool, limit: nat, items: seq<Item<TaskData>>, cursor: int, hasMore: bool)
    requires limit >= 1
  {
    && Sorted(items) && Signals(items, since, now, limit, cursor, hasMore)
    && (forall item :: item in items ==>
          Stored(table, item) && Sql.Requested(uid, since, now, inboxOnly, listId, includeCompleted, item))
    && (forall item ::
          Stored(table, item) && Sql.Requested(uid, since, now, inboxOnly, listId, includeCompleted, item)
          && item !in items ==>
          |items| >= limit && Before(Last(items), item) && (since.Some? ==> item.row.lastModified >= cursor))
  }

  lemma DeltaByColumns(table: Table<TaskData>, uid: UserId, since: int, now: int, inboxOnly: bool, listId: Option<Id>,
      includeCompleted: bool, limit: nat)
    requires limit >= 1
    ensures var page := Delta(table, uid, since, now, Sql.Scope(inboxOnly, listId), limit);
            Answers(table, uid, Some(since), now, inboxOnly, listId, includeCompleted, limit,
                    page.items, page.cursor, page.hasMore)
  {
    var scope := Sql.Scope(inboxOnly, listId);
    var page := Delta(table, uid, since, now, scope, limit);
    PageHolds(table, uid, since, now, scope, limit);
    PageSignals(table, uid, since, now, scope, limit);
    forall item | Stored(table, item) && Sql.Requested(uid, Some(since), now, inboxOnly, listId, includeCompleted, item)
                  && item !in page.items
      ensures |page.items| >= limit && Before(Last(page.items), item) && item.row.lastModified >= page.cursor
    {
      PageLeaves(table, uid, since, now, scope, limit, item);
    }
  }

  lemma SnapshotByColumns(table: Table<TaskData>, uid: UserId, now: int, inboxOnly: bool, listId: Option<Id>,
      includeCompleted: bool, limit: nat)
    requires limit >= 1
    ensures var items := Limit(Select(table, Sql.Wanted(uid, None, now, inboxOnly, listId, includeCompleted)), limit);
            Answers(table, uid, None, now, inboxOnly, listId, includeCompleted, limit,
                    items, PageCursor(items, limit, now), IsFullPage(items, limit))
  {
    var all := Select(table, Sql.Wanted(uid, None, now, inboxOnly, listId, includeCompleted));
    var items := Limit(all, limit);
    forall item
      ensures Stored(table, item) && Sql.Requested(uid, None, now, inboxOnly, listId, includeCompleted, item)
              <==> item in all
    {
    }
    LimitRows(all, limit);
  }

  lemma ByColumns(table: Table<TaskData>, uid: UserId, since: Option<int>, now: int, inboxOnly: bool,
      listId: Option<Id>, includeCompleted: bool, limit: nat, items: seq<Item<TaskData>>, cursor: int, hasMore: bool)
    requires limit >= 1
    requires since.Some? ==>
               Page(items, cursor, hasMore) == Delta(table, uid, since.value, now, Sql.Scope(inboxOnly, listId), limit)
    requires since.None? ==>
               items == Limit(Select(table, Sql.Wanted(uid, None, now, inboxOnly, listId, includeCompleted)), limit)
               && cursor == PageCursor(items, limit, now) && hasMore == IsFullPage(items, limit)
    ensures Answers(table, uid, since, now, inboxOnly, listId, includeCompleted, limit, items, cursor, hasMore)
  {
    match since
    case Some(from) => DeltaByColumns(table, uid, from, now, inboxOnly, listId, includeCompleted, limit);
    case None => SnapshotByColumns(table, uid, now, inboxOnly, listId, includeCompleted, limit);
  }

  lemma LimitRows<T(!new)>(all: seq<Item<T>>, limit: nat)
    requires Sorted(all) && limit >= 1
    ensures var items := Limit(all, limit);
            Sorted(items) && (forall item :: item in items ==> item in all)
            && (forall item :: item in all && item !in items ==> |items| >= limit && Before(Last(items), item))
  {
    var items := Limit(all, limit);
    assert items == all[..|items|];
    PrefixRows(all, |items|);
    forall item | item in all && item !in items ensures |items| >= limit && Before(Last(items), item) {
      assert all == all[..limit] + all[limit..];
      AfterCut(all, limit, item);
    }
  }

  /** A delta call, given its first page. */
  lemma DeltaIs<T(!new)>(table: Table<T>, uid: UserId, since: int, now: int, scope: T -> bool, limit: nat,
      page: seq<Item<T>>)
    requires page == Limit(Select(table, InWindow(uid, since, now, scope)), limit)
    ensures Delta(table, uid, since, now, scope, limit)
            == if IsSingleMsFullPage(page, limit)
               then Page(page + Select(table, InDrain(uid, Last(page).row.lastModified, Last(page).id, scope)),
                         Last(page).row.lastModified + 1, false)
               else Page(page, PageCursor(page, limit, now), IsFullPage(page, limit))
  {
  }

  /** The filter of a delta call is the window of `Delta`, whatever `include_completed` says. */
  lemma SameWindow(uid: UserId, since: int, now: int, inboxOnly: bool, listId: Option<Id>, includeCompleted: bool,
                   table: Table<TaskData>)
    ensures Select(table, Sql.Wanted(uid, Some(since), now, inboxOnly, listId, includeCompleted))
            == Select(table, InWindow(uid, since, now, Sql.Scope(inboxOnly, listId)))
  {
    SortedIsUnique(Select(table, Sql.Wanted(uid, Some(since), now, inboxOnly, listId, includeCompleted)),
                   Select(table, InWindow(uid, since, now, Sql.Scope(inboxOnly, listId))));
  }

  /**
   The methods' queries are the protocol's: for a client with the filter of `list_tasks`, the
   page query of a delta call and that of a call without `since` are its query steps.
   */
  lemma {:induction false} CallsAreQueries(uid: UserId, s: State<TaskData>, inboxOnly: bool, listId: Option<Id>)
    requires s.poll.Reading? && s.scope == Sql.Scope(inboxOnly, listId)
    ensures var Reading(now, limit, snapshot) := s.poll;
            var items := Limit(Select(s.table, Sql.Wanted(uid, if snapshot then None else Some(s.cursor), now,
                                                          inboxOnly, listId, true)), limit);
            QueryStep(uid, s) == if !snapshot && IsSingleMsFullPage(items, limit) then Draining(items)
                                 else Delivering(items, PageCursor(items, limit, now), snapshot)
    ensures !inboxOnly && listId.None? ==> Unfiltered(s)
  {
    var Reading(now, limit, snapshot) := s.poll;
    if snapshot {
      SortedIsUnique(Select(s.table, Sql.Wanted(uid, None, now, inboxOnly, listId, true)),
                     Select(s.table, InSnapshot(uid, s.scope)));
    } else {
      SameWindow(uid, s.cursor, now, inboxOnly, listId, true, s.table);
    }
  }

  /**
   What an update reports. An update with no effective field is a version check; any other
   is found if the row matches, but a driver that counts changed rows misses an update that
   leaves every column as it was.
   */
  predicate Reported(countsChanged: bool, tasks: Table<TaskData>, uid: UserId, id: Id, p: Patch,
                     expected: Option<int>, statusNow: int, now: int)
  {
    Matches(tasks, uid, id, expected)
    && (countsChanged && !NoEffect(p) ==> Updated(p, statusNow, now, tasks[id]) != tasks[id])
  }

  /** Once the clock has passed the row's version, how the driver counts makes no difference. */
  lemma ReportedIsMatched(countsChanged: bool, tasks: Table<TaskData>, uid: UserId, id: Id, p: Patch,
                          expected: Option<int>, statusNow: int, now: int)
    requires Active(tasks, uid, id) ==> now > tasks[id].lastModified
    ensures Reported(countsChanged, tasks, uid, id, p, expected, statusNow, now) <==> Matches(tasks, uid, id, expected)
  {
  }
}
