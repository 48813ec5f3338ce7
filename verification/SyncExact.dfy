/**
 The conditions of the safety theorem are exact: a query that breaks them has a run that
 skips a change, and so has a write that lands below a cursor already handed out.
 */
module SyncExact {
  import opened Wrappers
  import opened Table
  import opened DeltaPage
  import opened SyncProtocol

  lemma {:induction false} BoundedAbove(ids: set<Id>) returns (bound: nat)
    ensures forall id :: id in ids ==> id < bound
    decreases |ids|
  {
    if ids == {} {
      bound := 0;
    } else {
      var x :| x in ids;
      var b := BoundedAbove(ids - {x});
      bound := if x < b then b else x + 1;
      forall id | id in ids ensures id < bound {
        assert id == x || id in ids - {x};
      }
    }
  }

  /** A cursor beyond the clock is lethal: a task created in the same millisecond is skipped for good. */
  lemma OverrunSkipsAWrite<T(!new)>(uid: UserId, s: State<T>, data: T) returns (steps: seq<Step<T>>)
    requires s.poll.Delivering? && s.poll.next > s.clock && Consistent(s.poll.items) && s.scope(data)
    requires forall item :: item in s.poll.items ==> item.id in s.table
    requires forall id :: id in s.replica ==> id in s.table
    ensures PrudentRun(uid, s, steps) && !Safe(uid, Run(uid, s, steps))
    ensures forall step :: step in steps ==> !step.BeginPoll?
  {
    var unused := BoundedAbove(s.table.Keys);
    assert unused !in s.table;
    var row := Row(uid, s.clock, false, data);
    steps := [Deliver, Write(unused, row)];
    var s1 := Next(uid, s, Deliver);
    ApplySpec(if s.poll.full then map[] else s.replica, s.poll.items);
    assert unused !in s1.replica;
    var s2 := Next(uid, s1, Write(unused, row));
    assert steps[1..] == [Write(unused, row)] && steps[1..][1..] == [];
    assert Run(uid, s1, steps[1..]) == s2;
    assert PrudentRun(uid, s1, steps[1..]);
    assert Asked(uid, s2, unused) && !Reflected(s2, unused);
  }

  /** A query that breaks the guard has a prudent continuation that skips a change. */
  lemma {:induction false} ImprudentQuery<T(!new)>(uid: UserId, s: State<T>) returns (steps: seq<Step<T>>)
    requires Inv(uid, s) && s.poll.Reading? && !Prudent(uid, s, Query)
    ensures PrudentRun(uid, Next(uid, s, Query), steps) && !Safe(uid, Run(uid, Next(uid, s, Query), steps))
  {
    var s1 := Next(uid, s, Query);
    if s1.poll.Delivering? {
      SelectIsConsistent(s.table, InSnapshot(uid, s.scope), s.poll.limit);
      FirstIsMember(s1.poll.items);
      steps := OverrunSkipsAWrite(uid, s1, s1.poll.items[0].row.data);
    } else {
      QueryFactsHold(uid, s);
      steps := DrainOverruns(uid, s1);
    }
  }

  lemma DrainOverruns<T(!new)>(uid: UserId, s: State<T>) returns (steps: seq<Step<T>>)
    requires s.poll.Draining? && s.poll.page != []
    requires forall item :: item in s.poll.page ==> Stored(s.table, item) && s.scope(item.row.data)
    requires forall id: Id :: id in s.replica ==> id in s.table
    requires Last(s.poll.page).row.lastModified >= s.clock
    ensures PrudentRun(uid, s, steps) && !Safe(uid, Run(uid, s, steps))
  {
    var s2 := Next(uid, s, Drain);
    forall item | item in s2.poll.items ensures Stored(s.table, item) {
      assert item in s.poll.page || item in DrainQuery(s.table, uid, s.poll.page, s.scope);
    }
    var rest := OverrunSkipsAWrite(uid, s2, s.poll.page[0].row.data);
    steps := [Drain] + rest;
    assert steps[1..] == rest;
  }

  /** Whatever happens next, as long as the guard is met: no change is skipped. */
  ghost predicate SafeFromHere<T(!new)>(uid: UserId, s: State<T>) {
    forall steps: seq<Step<T>> :: PrudentRun(uid, s, steps) ==> Safe(uid, Run(uid, s, steps))
  }

  lemma InvIsSafeFromHere<T(!new)>(uid: UserId, s: State<T>)
    requires Inv(uid, s)
    ensures SafeFromHere(uid, s)
  {
    forall steps: seq<Step<T>> | PrudentRun(uid, s, steps) ensures Safe(uid, Run(uid, s, steps)) {
      InvRun(uid, s, steps);
    }
  }

  /**
   The guard decides: after a query every prudent continuation is safe exactly when the
   drained millisecond lies before the clock, and a full snapshot's cursor not after it.
   */
  lemma QuerySafeIff<T(!new)>(uid: UserId, s: State<T>)
    requires Inv(uid, s) && s.poll.Reading?
    ensures Prudent(uid, s, Query) <==> SafeFromHere(uid, Next(uid, s, Query))
  {
    if Prudent(uid, s, Query) {
      InvStep(uid, s, Query);
      InvIsSafeFromHere(uid, Next(uid, s, Query));
    } else {
      var steps := ImprudentQuery(uid, s);
    }
  }

  /**
   The guard can fail: a task written in the current millisecond, a client that has nothing,
   and a page of one. The next task written in that millisecond is skipped.
   */
  lemma SameMillisecondSkips(uid: UserId)
    ensures var row := Row(uid, 1000, false, ());
            var s: State<()> := State(1000, map[1 := row], Idle, map[], 0, false, Everything());
            var s1 := Next(uid, s, BeginPoll(Some(1), false));
            Start(uid, s) && !Prudent(uid, s1, Query)
            && !Safe(uid, Run(uid, s1, [Query, Drain, Deliver, Write(2, row)]))
  {
    var row := Row(uid, 1000, false, ());
    var s: State<()> := State(1000, map[1 := row], Idle, map[], 0, false, Everything());
    var s1 := Next(uid, s, BeginPoll(Some(1), false));
    var page := [Item(1, row)];
    SortedIsUnique(Select(s.table, InWindow(uid, 0, 1000, Everything())), page);
    var s2 := Next(uid, s1, Query);
    assert s2.poll == Draining(page);
    SortedIsUnique(DrainQuery(s.table, uid, page, s.scope), []);
    var s3 := Next(uid, s2, Drain);
    assert s3.poll == Delivering(page, 1001, false);
    var s4 := Next(uid, s3, Deliver);
    ApplySpec(map[], page);
    assert 2 !in s4.replica;
    var s5 := Next(uid, s4, Write(2, row));
    assert Asked(uid, s5, 2) && !Reflected(s5, 2);
    RunFour(uid, s1, Query, Drain, Deliver, Write(2, row));
  }

  lemma RunFour<T(!new)>(uid: UserId, s: State<T>, a: Step<T>, b: Step<T>, c: Step<T>, d: Step<T>)
    ensures Run(uid, s, [a, b, c, d]) == Next(uid, Next(uid, Next(uid, Next(uid, s, a), b), c), d)
  {
    var s1 := Next(uid, s, a);
    var s2 := Next(uid, s1, b);
    var s3 := Next(uid, s2, c);
    assert Run(uid, s3, [d]) == Next(uid, s3, d);
    assert [c, d][1..] == [d] && Run(uid, s2, [c, d]) == Run(uid, s3, [d]);
    assert [b, c, d][1..] == [c, d] && Run(uid, s1, [b, c, d]) == Run(uid, s2, [c, d]);
    assert [a, b, c, d][1..] == [b, c, d];
  }

  // ----- a write that lands late ---------------------------------------------------------

  /** A deletion of a row that a client which took a snapshot does not hold. */
  predicate GoneUnseen<T(!new)>(s: State<T>, item: Item<T>) {
    item.row.isDeleted && s.fromSnapshot && item.id !in s.replica
  }

  /**
   The row is none the client asks for; or neither the client's cursor nor a response on its
   way has passed it; or one has, but the write is a deletion and the client neither holds
   the row nor is being sent it.
   */
  ghost predicate Harmless<T(!new)>(s: State<T>, item: Item<T>) {
    s.scope(item.row.data) ==>
    (item.row.lastModified >= s.cursor || GoneUnseen(s, item))
    && match s.poll
       case Idle => true
       case Reading(_, _, _) => true
       case Draining(page) => page == [] || Before(Last(page), item) || (GoneUnseen(s, item) && !Mentions(page, item.id))
       case Delivering(items, next, full) =>
         item.row.lastModified >= next
         || ((if full then item.row.isDeleted else GoneUnseen(s, item)) && !Mentions(items, item.id))
  }

  function Landed<T>(s: State<T>, item: Item<T>): State<T> {
    s.(table := s.table[item.id := item.row])
  }

  /** A new row of the user, or a new version of one, which nobody can have sent to the client yet. */
  ghost predicate LateWrite<T(!new)>(uid: UserId, s: State<T>, item: Item<T>) {
    && item.row.userId == uid
    && (item.id in s.table ==> Owned(s.table, uid, item.id))
    && !Stored(s.replica, item)
    && match s.poll
       case Draining(page) => item !in page
       case Delivering(items, _, _) => item !in items
       case _ => true
  }

  /** A late write touches no other row. */
  lemma LandedElsewhere<T(!new)>(uid: UserId, s: State<T>, item: Item<T>)
    requires LateWrite(uid, s, item)
    ensures var s' := Landed(s, item);
            (forall id: Id :: Owned(s.table, uid, id) ==> Owned(s'.table, uid, id))
            && (forall id: Id :: Asked(uid, s', id) && id != item.id ==>
                  Asked(uid, s, id) && s'.table[id] == s.table[id])
            && (GoneUnseen(s, item) ==> Reflected(s', item.id))
  {
  }

  lemma HarmlessKeepsCover<T(!new)>(uid: UserId, s: State<T>, item: Item<T>)
    requires LateWrite(uid, s, item) && Harmless(s, item) && s.poll.Delivering?
    requires Covers(uid, s, s.poll.items, s.poll.next, s.poll.full)
    ensures Covers(uid, Landed(s, item), s.poll.items, s.poll.next, s.poll.full)
  {
    LandedElsewhere(uid, s, item);
    var s' := Landed(s, item);
    assert forall id: Id :: Asked(uid, s', id) && id != item.id ==> Asked(uid, s, id);
  }

  lemma HarmlessKeepsDrain<T(!new)>(uid: UserId, s: State<T>, item: Item<T>)
    requires LateWrite(uid, s, item) && Harmless(s, item) && s.poll.Draining? && DrainReady(uid, s, s.poll.page)
    ensures DrainReady(uid, Landed(s, item), s.poll.page)
  {
    LandedElsewhere(uid, s, item);
    var s' := Landed(s, item);
    assert forall id: Id :: Asked(uid, s', id) && id != item.id ==> Asked(uid, s, id);
  }

  lemma {:induction false} HarmlessKeepsInv<T(!new)>(uid: UserId, s: State<T>, item: Item<T>)
    requires Inv(uid, s) && LateWrite(uid, s, item) && Harmless(s, item)
    ensures Inv(uid, Landed(s, item))
  {
    LandedElsewhere(uid, s, item);
    match s.poll
    case Draining(_) => HarmlessKeepsDrain(uid, s, item);
    case Delivering(_, _, _) => HarmlessKeepsCover(uid, s, item);
    case _ =>
  }

  /** The next delivery passes the row, and leaves the client with another version of it, or wrongly without it. */
  lemma PassedRowIsSkipped<T(!new)>(uid: UserId, s: State<T>, item: Item<T>)
    requires Stored(s.table, item) && LateWrite(uid, s, item) && s.scope(item.row.data)
    requires s.poll.Delivering? && Consistent(s.poll.items) && item.row.lastModified < s.poll.next
    requires Mentions(s.poll.items, item.id) || !(if s.poll.full then item.row.isDeleted else GoneUnseen(s, item))
    ensures !Safe(uid, Run(uid, s, [Deliver])) && !Safe(uid, Next(uid, s, Deliver))
  {
    var before := if s.poll.full then map[] else s.replica;
    ApplySpec(before, s.poll.items);
    var s' := Next(uid, s, Deliver);
    if Mentions(s.poll.items, item.id) {
      var other :| other in s.poll.items && other.id == item.id;
      assert Stored(s'.replica, other);
    }
    assert !Reflected(s', item.id);
    assert Run(uid, s, [Deliver]) == s';
  }

  lemma DrainPasses<T(!new)>(uid: UserId, s: State<T>, page: seq<Item<T>>, item: Item<T>)
    requires page != [] && Consistent(page) && item !in page && !Before(Last(page), item)
    requires forall other :: other in page ==>
               other.row.lastModified == Last(page).row.lastModified && other.id <= Last(page).id
    ensures var items := page + DrainQuery(s.table, uid, page, s.scope);
            Consistent(items) && item !in items && (Mentions(page, item.id) ==> Mentions(items, item.id))
    ensures item.row.lastModified < Last(page).row.lastModified + 1
  {
    var drained := DrainQuery(s.table, uid, page, s.scope);
    assert forall other :: other in page + drained <==> other in page || other in drained;
  }

  lemma HarmfulSkips<T(!new)>(uid: UserId, s: State<T>, item: Item<T>) returns (steps: seq<Step<T>>)
    requires Inv(uid, s) && LateWrite(uid, s, item) && !Harmless(s, item)
    ensures PrudentRun(uid, Landed(s, item), steps) && !Safe(uid, Run(uid, Landed(s, item), steps))
  {
    var s' := Landed(s, item);
    if item.row.lastModified < s.cursor && !GoneUnseen(s, item) {
      steps := [];
      assert Asked(uid, s', item.id) && !Reflected(s', item.id);
    } else if s.poll.Delivering? {
      steps := [Deliver];
      PassedRowIsSkipped(uid, s', item);
    } else {
      steps := [Drain, Deliver];
      var page := s.poll.page;
      var s1 := Next(uid, s', Drain);
      DrainPasses(uid, s', page, item);
      PassedRowIsSkipped(uid, s1, item);
      assert steps[1..] == [Deliver];
    }
  }

  /**
   A writer that read the clock earlier and whose INSERT or UPDATE, a soft delete included,
   lands only now: every prudent continuation is safe exactly when the write is harmless.
   */
  lemma LateWriteSafeIff<T(!new)>(uid: UserId, s: State<T>, item: Item<T>)
    requires Inv(uid, s) && LateWrite(uid, s, item)
    ensures SafeFromHere(uid, Landed(s, item)) <==> Harmless(s, item)
  {
    if Harmless(s, item) {
      HarmlessKeepsInv(uid, s, item);
      InvIsSafeFromHere(uid, Landed(s, item));
    } else {
      var steps := HarmfulSkips(uid, s, item);
    }
  }

  /** A client that took a snapshot holds row 1; a deletion stamped below its cursor lands late and is missed. */
  lemma LateDeleteIsMissed(uid: UserId)
    ensures var live, gone := Row(uid, 500, false, ()), Row(uid, 900, true, ());
            var s: State<()> := State(2000, map[1 := live], Idle, map[1 := live], 1000, true, Everything());
            Start(uid, s) && LateWrite(uid, s, Item(1, gone)) && !Safe(uid, Landed(s, Item(1, gone)))
  {
    var live, gone := Row(uid, 500, false, ()), Row(uid, 900, true, ());
    var s: State<()> := State(2000, map[1 := live], Idle, map[1 := live], 1000, true, Everything());
    var s' := Landed(s, Item(1, gone));
    assert Asked(uid, s', 1) && !Reflected(s', 1);
  }

  /**
   A row stamped 1500 lands while a response with cursor 2000 is on its way to a client
   whose own cursor is 1000: nothing is skipped yet, and the delivery skips it.
   */
  lemma ResponsePassesLateWrite(uid: UserId)
    ensures var s: State<()> := State(2000, map[], Idle, map[], 1000, false, Everything());
            var poll := [BeginPoll(None, false), Query, Tick(3000)];
            var s' := Landed(Run(uid, s, poll), Item(1, Row(uid, 1500, false, ())));
            Start(uid, s) && PrudentRun(uid, s, poll) && Safe(uid, s') && !Safe(uid, Run(uid, s', [Deliver]))
  {
    var s: State<()> := State(2000, map[], Idle, map[], 1000, false, Everything());
    var item := Item(1, Row(uid, 1500, false, ()));
    var poll := [BeginPoll(None, false), Query, Tick(3000)];
    assert poll[1..] == [Query, Tick(3000)] && poll[1..][1..] == [Tick(3000)] && poll[1..][1..][1..] == [];
    var s1 := Next(uid, s, BeginPoll(None, false));
    assert s1.poll == Reading(2000, 500, false);
    assert Select(s.table, InWindow(uid, 1000, 2000, s.scope)) == [] by {
      SortedIsUnique(Select(s.table, InWindow(uid, 1000, 2000, s.scope)), []);
    }
    var s2 := Next(uid, s1, Query);
    assert s2.poll == Delivering([], 2000, false);
    var s3 := Next(uid, s2, Tick(3000));
    assert Run(uid, s, poll) == s3;
    PassedRowIsSkipped(uid, Landed(s3, item), item);
  }

  // ----- the guard of a store that nobody else writes ------------------------------------

  /** No row asked for is stamped after the clock: true of a store that only this service writes. */
  ghost predicate NoFutureRow<T(!new)>(uid: UserId, s: State<T>) {
    forall id: Id :: Asked(uid, s, id) ==> s.table[id].lastModified <= s.clock
  }

  /** Without device clocks ahead of the server a snapshot is prudent whether its page is full or not. */
  lemma SnapshotPrudent<T(!new)>(uid: UserId, s: State<T>)
    requires NoFutureRow(uid, s) && Inv(uid, s) && s.poll.Reading? && s.poll.snapshot
    ensures Prudent(uid, s, Query)
  {
    var items := Limit(Select(s.table, InSnapshot(uid, s.scope)), s.poll.limit);
    SelectIsConsistent(s.table, InSnapshot(uid, s.scope), s.poll.limit);
    FirstIsMember(items);
    if items != [] {
      assert Last(items) in items;
    }
  }

  /** ... and this service keeps it that way, since it stamps every row with the clock. */
  lemma NoFutureRowStep<T(!new)>(uid: UserId, s: State<T>, step: Step<T>)
    requires NoFutureRow(uid, s)
    requires step.Write? ==> step.row.lastModified == s.clock
    ensures NoFutureRow(uid, Next(uid, s, step))
  {
    var s' := Next(uid, s, step);
    forall id: Id | Asked(uid, s', id) ensures s'.table[id].lastModified <= s'.clock {
      assert (step.Write? && step.id == id) || Asked(uid, s, id);
    }
  }

  /** A drained page lies before the clock, and writes are stamped with the clock itself. */
  ghost predicate Guarded<T(!new)>(uid: UserId, s: State<T>, step: Step<T>) {
    && (step.Write? ==> step.row.lastModified == s.clock)
    && (step.Query? && s.poll.Reading? ==>
          match QueryStep(uid, s)
          case Draining(page) => Last(page).row.lastModified < s.clock
          case Delivering(_, _, _) => true)
  }

  ghost predicate GuardedRun<T(!new)>(uid: UserId, s: State<T>, steps: seq<Step<T>>)
    decreases |steps|
  {
    steps == [] || (Guarded(uid, s, steps[0]) && GuardedRun(uid, Next(uid, s, steps[0]), steps[1..]))
  }

  /** Then the drain guard alone makes a run prudent, whatever snapshots it takes. */
  lemma {:induction false} GuardedIsPrudent<T(!new)>(uid: UserId, s: State<T>, steps: seq<Step<T>>)
    requires Inv(uid, s) && NoFutureRow(uid, s) && GuardedRun(uid, s, steps)
    ensures PrudentRun(uid, s, steps) && NoFutureRow(uid, Run(uid, s, steps))
    decreases |steps|
  {
    if steps == [] {
    } else {
      if steps[0].Query? && s.poll.Reading? && s.poll.snapshot {
        SnapshotPrudent(uid, s);
      }
      NoFutureRowStep(uid, s, steps[0]);
      InvStep(uid, s, steps[0]);
      GuardedIsPrudent(uid, Next(uid, s, steps[0]), steps[1..]);
    }
  }
}
