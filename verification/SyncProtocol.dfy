/**
 Incremental sync as a state machine: a table that is written while one client of one
 user polls it. A poll is not atomic: the clock reading, the page query, the drain query
 and the delivery to the client are separate steps, and writes may fall between any two.
 The machine is generic in the row's data, so it covers tasks and lists.
 */
module SyncProtocol {
  import opened Wrappers
  import opened Table
  import opened DeltaPage

  datatype Poll<T> =
    | Idle
    | Reading(now: int, limit: nat, snapshot: bool)
    | Draining(page: seq<Item<T>>)
    | Delivering(items: seq<Item<T>>, next: int, full: bool)

  /**
   `clock` is the time of the server and of every writer. The client holds `replica` and
   `cursor`; `fromSnapshot` tells that it started from a call without `since`, which
   leaves deleted rows out. `scope` is the filter that the client sends with every call.
   */
  datatype State<!T> = State(
    clock: int, table: Table<T>, poll: Poll<T>,
    replica: Table<T>, cursor: int, fromSnapshot: bool, scope: T -> bool)

  datatype Step<T> =
    | Tick(to: int)
    | Write(id: Id, row: Row<T>)
    | BeginPoll(wanted: Option<int>, snapshot: bool)
    | Query
    | Drain
    | Deliver
    | Lose

  function Everything<T>(): T -> bool {
    (_: T) => true
  }

  /** A call without `since`: the active rows that pass the filter, with no bound on `last_modified`. */
  function InSnapshot<T>(uid: UserId, scope: T -> bool): Item<T> -> bool {
    (item: Item<T>) => item.row.userId == uid && !item.row.isDeleted && scope(item.row.data)
  }

  /** The client stores every delivered row under its id, later rows over earlier ones. */
  function Apply<T>(replica: Table<T>, items: seq<Item<T>>): Table<T>
    decreases |items|
  {
    if items == [] then replica else Apply(replica[items[0].id := items[0].row], items[1..])
  }

  function QueryStep<T(!new)>(uid: UserId, s: State<T>): Poll<T>
    requires s.poll.Reading?
  {
    var Reading(now, limit, snapshot) := s.poll;
    if snapshot then
      var items := Limit(Select(s.table, InSnapshot(uid, s.scope)), limit);
      Delivering(items, PageCursor(items, limit, now), true)
    else
      var items := FirstQuery(s.table, uid, s.cursor, now, s.scope, limit);
      if IsSingleMsFullPage(items, limit) then Draining(items)
      else Delivering(items, PageCursor(items, limit, now), false)
  }

  /**
   One atomic step; a step that does not apply changes nothing. The clock never goes back,
   writers stamp a row with the clock or later (a device may run ahead, none back-dates),
   and a row never changes hands. `Lose` is a response that never reaches the client.
   */
  function Next<T(!new)>(uid: UserId, s: State<T>, step: Step<T>): State<T> {
    match step
    case Tick(to) => if to >= s.clock then s.(clock := to) else s
    case Write(id, row) =>
      if row.lastModified >= s.clock && (id in s.table ==> s.table[id].userId == row.userId)
      then s.(table := s.table[id := row]) else s
    case BeginPoll(wanted, snapshot) =>
      if s.poll.Idle? then s.(poll := Reading(s.clock, ClampLimit(wanted), snapshot)) else s
    case Query =>
      if s.poll.Reading? then s.(poll := QueryStep(uid, s)) else s
    case Drain =>
      if s.poll.Draining? && s.poll.page != [] then
        var page := s.poll.page;
        s.(poll := Delivering(page + DrainQuery(s.table, uid, page, s.scope),
                              Last(page).row.lastModified + 1, false))
      else s
    case Deliver =>
      if s.poll.Delivering? then
        s.(replica := Apply(if s.poll.full then map[] else s.replica, s.poll.items), cursor := s.poll.next,
           fromSnapshot := s.fromSnapshot || s.poll.full, poll := Idle)
      else s
    case Lose => s.(poll := Idle)
  }

  function Run<T(!new)>(uid: UserId, s: State<T>, steps: seq<Step<T>>): State<T>
    decreases |steps|
  {
    if steps == [] then s else Run(uid, Next(uid, s, steps[0]), steps[1..])
  }

  lemma {:induction false} ScopeKept<T(!new)>(uid: UserId, s: State<T>, steps: seq<Step<T>>)
    ensures Run(uid, s, steps).scope == s.scope
    decreases |steps|
  {
    if steps == [] {
    } else {
      ScopeKept(uid, Next(uid, s, steps[0]), steps[1..]);
    }
  }

  // ----- what a client may rely on -------------------------------------------------------

  /** The replica holds the row as stored; a client that began with a snapshot may lack a deleted one. */
  ghost predicate Reflected<T(!new)>(s: State<T>, id: Id)
    requires id in s.table
  {
    if id in s.replica then s.replica[id] == s.table[id] else s.fromSnapshot && s.table[id].isDeleted
  }

  /** The client sends no filter. */
  ghost predicate Unfiltered<T(!new)>(s: State<T>) {
    forall d: T :: s.scope(d)
  }

  /** A row that the client asks for. */
  predicate Asked<T(!new)>(uid: UserId, s: State<T>, id: Id) {
    Owned(s.table, uid, id) && s.scope(s.table[id].data)
  }

  /**
   No change below the cursor was ever skipped. What the replica holds besides is stale only
   if the row has left the filter.
   */
  ghost predicate Safe<T(!new)>(uid: UserId, s: State<T>) {
    forall id: Id :: Asked(uid, s, id) && s.table[id].lastModified < s.cursor ==> Reflected(s, id)
  }

  /**
   The one condition on a run. A page that is drained must lie before the clock, and a
   full snapshot must not end on a row stamped after the clock.
   */
  ghost predicate Prudent<T(!new)>(uid: UserId, s: State<T>, step: Step<T>) {
    step.Query? && s.poll.Reading? ==>
      match QueryStep(uid, s)
      case Draining(page) => Last(page).row.lastModified < s.clock
      case Delivering(_, next, full) => full ==> next <= s.clock
  }

  ghost predicate PrudentRun<T(!new)>(uid: UserId, s: State<T>, steps: seq<Step<T>>)
    decreases |steps|
  {
    steps == [] || (Prudent(uid, s, steps[0]) && PrudentRun(uid, Next(uid, s, steps[0]), steps[1..]))
  }

  ghost predicate OwnedItem<T(!new)>(uid: UserId, table: Table<T>, item: Item<T>) {
    Owned(table, uid, item.id)
  }

  /** Among the rows below `bound`, the response in flight has exactly the stored ones it should. */
  ghost predicate Covers<T(!new)>(uid: UserId, s: State<T>, items: seq<Item<T>>, bound: int, full: bool) {
    forall id: Id :: Asked(uid, s, id) && s.table[id].lastModified < bound ==>
      Item(id, s.table[id]) in items
      || ((forall item :: item in items ==> item.id != id)
          && if full then s.table[id].isDeleted else Reflected(s, id))
  }

  /** One row for one id. */
  ghost predicate Consistent<T(!new)>(items: seq<Item<T>>) {
    forall a, b :: a in items && b in items && a.id == b.id ==> a == b
  }

  /** A page whose rows all carry one millisecond, complete up to its last id. */
  ghost predicate DrainReady<T(!new)>(uid: UserId, s: State<T>, page: seq<Item<T>>) {
    && page != []
    && Last(page).row.lastModified < s.clock
    && (forall item :: item in page ==>
          item.row.lastModified == Last(page).row.lastModified && item.id <= Last(page).id
          && (Asked(uid, s, item.id) ==> s.table[item.id].lastModified >= Last(page).row.lastModified))
    && (forall id: Id :: Asked(uid, s, id) && s.table[id].lastModified < Last(page).row.lastModified ==>
          Reflected(s, id))
    && (forall id: Id ::
          Asked(uid, s, id) && s.table[id].lastModified == Last(page).row.lastModified && id <= Last(page).id ==>
          Item(id, s.table[id]) in page || (Reflected(s, id) && !Mentions(page, id)))
  }

  ghost predicate PollInv<T(!new)>(uid: UserId, s: State<T>) {
    match s.poll
    case Idle => true
    case Reading(now, limit, snapshot) => now <= s.clock && limit >= 1
    case Draining(page) =>
      Consistent(page) && (forall item :: item in page ==> OwnedItem(uid, s.table, item)) && DrainReady(uid, s, page)
      && s.cursor <= Last(page).row.lastModified
    case Delivering(items, next, full) =>
      next <= s.clock && Consistent(items) && (forall item :: item in items ==> OwnedItem(uid, s.table, item))
      && Covers(uid, s, items, next, full)
  }

  ghost predicate Inv<T(!new)>(uid: UserId, s: State<T>) {
    && s.cursor <= s.clock
    && Safe(uid, s)
    && (forall id: Id :: id in s.replica ==> Owned(s.table, uid, id))
    && PollInv(uid, s)
  }

  // ----- one step --------------------------------------------------------------------------

  /** Only the table changed, and in it only rows stamped at or after the clock. */
  ghost predicate SameBefore<T(!new)>(uid: UserId, s: State<T>, s': State<T>) {
    && s' == s.(table := s'.table)
    && (forall id: Id :: Owned(s.table, uid, id) ==> Owned(s'.table, uid, id))
    && (forall id: Id :: Asked(uid, s', id) ==>
          (Asked(uid, s, id) && s'.table[id] == s.table[id]) || s'.table[id].lastModified >= s.clock)
  }

  lemma WriteIsNew<T(!new)>(uid: UserId, s: State<T>, id: Id, row: Row<T>)
    ensures SameBefore(uid, s, Next(uid, s, Write(id, row)))
  {
  }

  lemma SafeKept<T(!new)>(uid: UserId, s: State<T>, s': State<T>)
    requires SameBefore(uid, s, s') && Safe(uid, s) && s.cursor <= s.clock
    ensures Safe(uid, s')
  {
    assert forall id: Id :: Asked(uid, s', id) && s'.table[id].lastModified < s.cursor ==> Asked(uid, s, id);
  }

  lemma CoversKept<T(!new)>(uid: UserId, s: State<T>, s': State<T>, items: seq<Item<T>>, bound: int, full: bool)
    requires SameBefore(uid, s, s') && Covers(uid, s, items, bound, full) && bound <= s.clock
    ensures Covers(uid, s', items, bound, full)
  {
    assert forall id: Id :: Asked(uid, s', id) && s'.table[id].lastModified < bound ==> Asked(uid, s, id);
  }

  lemma DrainReadyKept<T(!new)>(uid: UserId, s: State<T>, s': State<T>, page: seq<Item<T>>)
    requires SameBefore(uid, s, s') && DrainReady(uid, s, page)
    ensures DrainReady(uid, s', page)
  {
    assert forall id: Id :: Asked(uid, s', id) && s'.table[id].lastModified <= Last(page).row.lastModified ==>
      Asked(uid, s, id) && s'.table[id] == s.table[id];
  }

  lemma {:induction false} WriteKeepsInv<T(!new)>(uid: UserId, s: State<T>, id: Id, row: Row<T>)
    requires Inv(uid, s)
    ensures Inv(uid, Next(uid, s, Write(id, row)))
  {
    var s' := Next(uid, s, Write(id, row));
    WriteIsNew(uid, s, id, row);
    SafeKept(uid, s, s');
    match s.poll
    case Draining(page) => DrainReadyKept(uid, s, s', page);
    case Delivering(items, next, full) => CoversKept(uid, s, s', items, next, full);
    case _ =>
  }

  lemma SelectIsConsistent<T(!new)>(table: Table<T>, keep: Item<T> -> bool, n: nat)
    ensures Consistent(Limit(Select(table, keep), n))
    ensures forall item :: item in Limit(Select(table, keep), n) ==> Stored(table, item) && keep(item)
  {
    assert forall item :: item in Limit(Select(table, keep), n) ==> item in Select(table, keep);
  }

  lemma SnapshotCovers<T(!new)>(uid: UserId, s: State<T>)
    requires s.poll.Reading? && s.poll.snapshot && s.poll.limit >= 1
    ensures var items := Limit(Select(s.table, InSnapshot(uid, s.scope)), s.poll.limit);
            |items| == s.poll.limit ==> Covers(uid, s, items, PageCursor(items, s.poll.limit, s.poll.now), true)
    ensures var items := Limit(Select(s.table, InSnapshot(uid, s.scope)), s.poll.limit);
            |items| < s.poll.limit ==> forall bound :: Covers(uid, s, items, bound, true)
  {
    var all := Select(s.table, InSnapshot(uid, s.scope));
    var n := s.poll.limit;
    var items := Limit(all, n);
    SelectIsConsistent(s.table, InSnapshot(uid, s.scope), n);
    forall id: Id | Asked(uid, s, id) && !s.table[id].isDeleted
      ensures Item(id, s.table[id]) in all
      ensures |items| == n && s.table[id].lastModified < Last(items).row.lastModified ==> Item(id, s.table[id]) in items
    {
      var item := Item(id, s.table[id]);
      assert item in all;
      if |items| == n && item.row.lastModified < Last(items).row.lastModified {
        AfterCut(all, n, item);
        assert items == all[..n] && all == all[..n] + all[n..];
      }
    }
  }

  /** The first query returns the whole window below its last row, or all of it. */
  lemma FirstQueryCovers<T(!new)>(uid: UserId, s: State<T>, id: Id)
    requires s.poll.Reading? && s.poll.limit >= 1 && Asked(uid, s, id)
    requires s.cursor <= s.table[id].lastModified <= s.poll.now
    ensures var items := FirstQuery(s.table, uid, s.cursor, s.poll.now, s.scope, s.poll.limit);
            Item(id, s.table[id]) in items
            || (|items| == s.poll.limit && Before(Last(items), Item(id, s.table[id])))
  {
    var all := Select(s.table, InWindow(uid, s.cursor, s.poll.now, s.scope));
    var n := s.poll.limit;
    var item := Item(id, s.table[id]);
    assert item in all;
    if n <= |all| {
      AfterCut(all, n, item);
      assert all == all[..n] + all[n..];
      assert Limit(all, n) == all[..n];
    }
  }

  /** What the first query says about the rows it returns and about those it does not. */
  ghost predicate QueryFacts<T(!new)>(uid: UserId, s: State<T>, items: seq<Item<T>>) {
    && s.poll.Reading?
    && Consistent(items)
    && (forall item :: item in items ==>
          Stored(s.table, item) && item.row.userId == uid && s.cursor <= item.row.lastModified <= s.poll.now
          && (item == Last(items) || Before(item, Last(items))))
    && (forall id: Id :: Asked(uid, s, id) && s.cursor <= s.table[id].lastModified <= s.poll.now ==>
          Item(id, s.table[id]) in items
          || (|items| == s.poll.limit && items != [] && Before(Last(items), Item(id, s.table[id]))))
  }

  lemma QueryFactsHold<T(!new)>(uid: UserId, s: State<T>)
    requires s.poll.Reading? && s.poll.limit >= 1
    ensures QueryFacts(uid, s, FirstQuery(s.table, uid, s.cursor, s.poll.now, s.scope, s.poll.limit))
  {
    var items := FirstQuery(s.table, uid, s.cursor, s.poll.now, s.scope, s.poll.limit);
    SelectIsConsistent(s.table, InWindow(uid, s.cursor, s.poll.now, s.scope), s.poll.limit);
    forall id: Id | Asked(uid, s, id) && s.cursor <= s.table[id].lastModified <= s.poll.now
      ensures Item(id, s.table[id]) in items
              || (|items| == s.poll.limit && items != [] && Before(Last(items), Item(id, s.table[id])))
    {
      FirstQueryCovers(uid, s, id);
    }
  }

  lemma QueryToDrain<T(!new)>(uid: UserId, s: State<T>, items: seq<Item<T>>)
    requires Inv(uid, s) && QueryFacts(uid, s, items)
    requires IsSingleMsFullPage(items, s.poll.limit) && Last(items).row.lastModified < s.clock
    requires items[0] in items && Sorted(items)
    ensures Inv(uid, s.(poll := Draining(items)))
  {
    var s' := s.(poll := Draining(items));
    forall item | item in items ensures item.row.lastModified == Last(items).row.lastModified {
      var i :| 0 <= i < |items| && items[i] == item;
      assert i > 0 ==> Before(items[0], items[i]);
    }
    assert DrainReady(uid, s', items);
  }

  lemma QueryToDeliver<T(!new)>(uid: UserId, s: State<T>, items: seq<Item<T>>)
    requires Inv(uid, s) && QueryFacts(uid, s, items) && |items| <= s.poll.limit
    requires items != [] ==> Last(items) in items
    ensures Inv(uid, s.(poll := Delivering(items, PageCursor(items, s.poll.limit, s.poll.now), false)))
  {
    var s' := s.(poll := Delivering(items, PageCursor(items, s.poll.limit, s.poll.now), false));
    assert Covers(uid, s', items, s'.poll.next, false);
  }

  lemma SnapshotToDeliver<T(!new)>(uid: UserId, s: State<T>)
    requires Inv(uid, s) && s.poll.Reading? && s.poll.snapshot && Prudent(uid, s, Query)
    ensures Inv(uid, Next(uid, s, Query))
  {
    SelectIsConsistent(s.table, InSnapshot(uid, s.scope), s.poll.limit);
    SnapshotCovers(uid, s);
  }

  lemma {:induction false} QueryKeepsInv<T(!new)>(uid: UserId, s: State<T>)
    requires Inv(uid, s) && s.poll.Reading? && Prudent(uid, s, Query)
    ensures Inv(uid, Next(uid, s, Query))
  {
    if s.poll.snapshot {
      SnapshotToDeliver(uid, s);
    } else {
      QueryFactsHold(uid, s);
      var items := FirstQuery(s.table, uid, s.cursor, s.poll.now, s.scope, s.poll.limit);
      FirstIsMember(items);
      if IsSingleMsFullPage(items, s.poll.limit) {
        QueryToDrain(uid, s, items);
      } else {
        QueryToDeliver(uid, s, items);
      }
    }
  }

  lemma DrainCovers<T(!new)>(uid: UserId, s: State<T>, page: seq<Item<T>>)
    requires DrainReady(uid, s, page)
    ensures Covers(uid, s, page + DrainQuery(s.table, uid, page, s.scope), Last(page).row.lastModified + 1, false)
  {
    var drained := DrainQuery(s.table, uid, page, s.scope);
    var items := page + drained;
    assert forall item :: item in items <==> item in page || item in drained;
    forall id: Id | Asked(uid, s, id) && s.table[id].lastModified < Last(page).row.lastModified + 1
      ensures Item(id, s.table[id]) in items
              || ((forall item: Item<T> :: item in items ==> item.id != id) && Reflected(s, id))
    {
      if s.table[id].lastModified == Last(page).row.lastModified && id > Last(page).id {
        assert Item(id, s.table[id]) in drained;
      }
    }
  }

  lemma DrainConsistent<T(!new)>(uid: UserId, s: State<T>, page: seq<Item<T>>)
    requires DrainReady(uid, s, page) && Consistent(page)
    requires forall item :: item in page ==> OwnedItem(uid, s.table, item)
    ensures var items := page + DrainQuery(s.table, uid, page, s.scope);
            Consistent(items) && forall item :: item in items ==> OwnedItem(uid, s.table, item)
  {
    var drained := DrainQuery(s.table, uid, page, s.scope);
    assert forall item :: item in page + drained <==> item in page || item in drained;
  }

  /** A response that covers what it should may be sent. */
  lemma SendKeepsInv<T(!new)>(uid: UserId, s: State<T>, items: seq<Item<T>>, next: int, s': State<T>)
    requires s' == s.(poll := Delivering(items, next, false))
    requires s.cursor <= s.clock && Safe(uid, s) && forall id: Id :: id in s.replica ==> Owned(s.table, uid, id)
    requires next <= s.clock && Consistent(items) && forall item :: item in items ==> OwnedItem(uid, s.table, item)
    requires Covers(uid, s, items, next, false)
    ensures Inv(uid, s')
  {
    assert forall id: Id :: Asked(uid, s', id) ==> Asked(uid, s, id);
  }

  lemma DrainStep<T(!new)>(uid: UserId, s: State<T>, page: seq<Item<T>>)
    requires s.poll == Draining(page) && page != []
    ensures Next(uid, s, Drain)
            == s.(poll := Delivering(page + DrainQuery(s.table, uid, page, s.scope),
                                     Last(page).row.lastModified + 1, false))
  {
  }

  lemma DrainedResponse<T(!new)>(uid: UserId, s: State<T>, page: seq<Item<T>>)
    requires Inv(uid, s) && s.poll == Draining(page)
    ensures page != [] && Last(page).row.lastModified < s.clock
    ensures var items := page + DrainQuery(s.table, uid, page, s.scope);
            && Consistent(items) && (forall item :: item in items ==> OwnedItem(uid, s.table, item))
            && Covers(uid, s, items, Last(page).row.lastModified + 1, false)
  {
    DrainCovers(uid, s, page);
    DrainConsistent(uid, s, page);
  }

  lemma {:induction false} DrainKeepsInv<T(!new)>(uid: UserId, s: State<T>)
    requires Inv(uid, s) && s.poll.Draining?
    ensures Inv(uid, Next(uid, s, Drain))
  {
    var page := s.poll.page;
    DrainedResponse(uid, s, page);
    DrainStep(uid, s, page);
    var items := page + DrainQuery(s.table, uid, page, s.scope);
    SendKeepsInv(uid, s, items, Last(page).row.lastModified + 1, Next(uid, s, Drain));
  }

  ghost predicate Mentions<T(!new)>(items: seq<Item<T>>, id: Id) {
    exists item :: item in items && item.id == id
  }

  lemma {:induction false} ApplySpec<T(!new)>(replica: Table<T>, items: seq<Item<T>>)
    requires Consistent(items)
    ensures forall item :: item in items ==> Stored(Apply(replica, items), item)
    ensures forall id: Id :: (forall item :: item in items ==> item.id != id) ==>
              (id in Apply(replica, items) <==> id in replica)
              && (id in replica ==> Apply(replica, items)[id] == replica[id])
    ensures forall id: Id :: id in Apply(replica, items) ==> id in replica || Mentions(items, id)
    decreases |items|
  {
    if items == [] {
    } else {
      var first := items[0];
      var updated := replica[first.id := first.row];
      ApplySpec(updated, items[1..]);
      assert items == [first] + items[1..];
      forall id: Id | id in Apply(replica, items) ensures id in replica || Mentions(items, id) {
        if id == first.id {
          assert first in items;
        } else if id !in replica {
          assert id in Apply(updated, items[1..]) && id !in updated;
          var item :| item in items[1..] && item.id == id;
          assert item in items;
        }
      }
    }
  }

  lemma {:induction false} ApplyLeavesOut<T(!new)>(replica: Table<T>, items: seq<Item<T>>, id: Id)
    requires !Mentions(items, id)
    ensures id in Apply(replica, items) <==> id in replica
    ensures id in replica ==> Apply(replica, items)[id] == replica[id]
    decreases |items|
  {
    if items == [] {
    } else {
      assert items[0] in items && forall item :: item in items[1..] ==> item in items;
      ApplyLeavesOut(replica[items[0].id := items[0].row], items[1..], id);
    }
  }

  lemma DeliverKeepsInv<T(!new)>(uid: UserId, s: State<T>)
    requires Inv(uid, s) && s.poll.Delivering?
    ensures Inv(uid, Next(uid, s, Deliver))
  {
    var Delivering(items, next, full) := s.poll;
    ApplySpec(if full then map[] else s.replica, items);
  }

  lemma {:induction false} InvStep<T(!new)>(uid: UserId, s: State<T>, step: Step<T>)
    requires Inv(uid, s) && Prudent(uid, s, step)
    ensures Inv(uid, Next(uid, s, step))
  {
    match step
    case Write(id, row) => WriteKeepsInv(uid, s, id, row);
    case Query => if s.poll.Reading? { QueryKeepsInv(uid, s); }
    case Drain => if s.poll.Draining? { DrainKeepsInv(uid, s); }
    case Deliver => if s.poll.Delivering? { DeliverKeepsInv(uid, s); }
    case _ =>
  }

  /** Runs that take no further snapshot. */
  ghost predicate DeltaSteps<T(!new)>(steps: seq<Step<T>>) {
    forall i :: 0 <= i < |steps| && steps[i].BeginPoll? ==> !steps[i].snapshot
  }

  /** Runs in which nobody writes the row. */
  ghost predicate LeavesAlone<T(!new)>(steps: seq<Step<T>>, id: Id) {
    forall i :: 0 <= i < |steps| && steps[i].Write? ==> steps[i].id != id
  }

  // ----- every run ---------------------------------------------------------------------------

  /**
   A client between polls that is in step with the store below its cursor. One that has
   nothing yet is, if its cursor lies at or below every row.
   */
  ghost predicate Start<T(!new)>(uid: UserId, s: State<T>) {
    && s.poll.Idle? && s.cursor <= s.clock && Safe(uid, s)
    && forall id: Id :: id in s.replica ==> Owned(s.table, uid, id)
  }

  lemma {:induction false} InvRun<T(!new)>(uid: UserId, s: State<T>, steps: seq<Step<T>>)
    requires Inv(uid, s) && PrudentRun(uid, s, steps)
    ensures Inv(uid, Run(uid, s, steps))
    decreases |steps|
  {
    if steps == [] {
    } else {
      InvStep(uid, s, steps[0]);
      InvRun(uid, Next(uid, s, steps[0]), steps[1..]);
    }
  }

  /**
   In every run, however polls and writes interleave, each stored row of the user below
   the client's cursor that passes its filter is in the replica exactly as stored, deleted
   ones included (or absent, when the client began with a snapshot). What is stale in the
   replica below the cursor are only rows that have left the filter.
   */
  lemma SyncSafety<T(!new)>(uid: UserId, s: State<T>, steps: seq<Step<T>>)
    requires Start(uid, s) && PrudentRun(uid, s, steps)
    ensures var s' := Run(uid, s, steps);
            Safe(uid, s') && s'.cursor <= s'.clock && s'.scope == s.scope
            && (forall id: Id :: id in s'.replica ==>
                  Owned(s'.table, uid, id)
                  && (s'.replica[id] == s'.table[id] || s'.table[id].lastModified >= s'.cursor
                      || !s.scope(s'.table[id].data)))
  {
    InvRun(uid, s, steps);
    ScopeKept(uid, s, steps);
    var s' := Run(uid, s, steps);
    forall id: Id | id in s'.replica && s'.replica[id] != s'.table[id] && s'.table[id].lastModified < s'.cursor
      ensures !s.scope(s'.table[id].data)
    {
      assert Asked(uid, s', id) ==> Reflected(s', id);
    }
  }
}
