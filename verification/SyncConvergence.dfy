/**
 Once writes stop, polling again and again from the returned cursor makes the replica
 equal to the store, after a number of polls bounded by the rows still ahead.
 */
module SyncConvergence {
  import opened Wrappers
  import opened Table
  import opened DeltaPage
  import opened SyncProtocol

  /** One poll that nothing interrupts, at a time at or after `to`. */
  datatype Request = Request(to: int, wanted: Option<int>)

  function PollOnce<T(!new)>(uid: UserId, s: State<T>, r: Request): State<T> {
    var s1 := Next(uid, s, Tick(r.to));
    var s2 := Next(uid, s1, BeginPoll(r.wanted, false));
    var s3 := Next(uid, s2, Query);
    var s4 := Next(uid, s3, Drain);
    Next(uid, s4, Deliver)
  }

  function Polls<T(!new)>(uid: UserId, s: State<T>, rs: seq<Request>): State<T>
    decreases |rs|
  {
    if rs == [] then s else Polls(uid, PollOnce(uid, s, rs[0]), rs[1..])
  }

  function Later(a: int, b: int): int {
    if a >= b then a else b
  }

  /** The state after one delta call's page has been delivered. */
  function Delivered<T(!new)>(uid: UserId, s: State<T>, r: Request): State<T> {
    var now := Later(r.to, s.clock);
    var page := Delta(s.table, uid, s.cursor, now, s.scope, ClampLimit(r.wanted));
    s.(clock := now, replica := Apply(s.replica, page.items), cursor := page.cursor)
  }

  /** A poll that nothing interrupts delivers what one call of the repository returns. */
  lemma PollIsDelta<T(!new)>(uid: UserId, s: State<T>, r: Request)
    requires s.poll.Idle?
    ensures PollOnce(uid, s, r) == Delivered(uid, s, r)
  {
    var limit := ClampLimit(r.wanted);
    var s1 := s.(clock := Later(r.to, s.clock));
    assert Next(uid, s, Tick(r.to)) == s1;
    var s2 := s1.(poll := Reading(s1.clock, limit, false));
    assert Next(uid, s1, BeginPoll(r.wanted, false)) == s2;
    var items := FirstQuery(s.table, uid, s.cursor, s1.clock, s.scope, limit);
    if IsSingleMsFullPage(items, limit) {
      DrainedPoll(uid, s2, items);
    } else {
      var s3 := s1.(poll := Delivering(items, PageCursor(items, limit, s1.clock), false));
      assert Next(uid, s2, Query) == s3 && Next(uid, s3, Drain) == s3;
      DeliverStep(uid, s3, items, PageCursor(items, limit, s1.clock));
    }
  }

  lemma DeliverStep<T(!new)>(uid: UserId, s: State<T>, items: seq<Item<T>>, next: int)
    requires s.poll == Delivering(items, next, false)
    ensures Next(uid, s, Deliver) == s.(poll := Idle, replica := Apply(s.replica, items), cursor := next)
  {
  }

  lemma DrainedPoll<T(!new)>(uid: UserId, s: State<T>, items: seq<Item<T>>)
    requires s.poll.Reading? && !s.poll.snapshot
    requires items == FirstQuery(s.table, uid, s.cursor, s.poll.now, s.scope, s.poll.limit)
    requires IsSingleMsFullPage(items, s.poll.limit)
    ensures var drained := DrainQuery(s.table, uid, items, s.scope);
            Next(uid, Next(uid, Next(uid, s, Query), Drain), Deliver)
            == s.(poll := Idle, replica := Apply(s.replica, items + drained), cursor := Last(items).row.lastModified + 1)
  {
    var s3 := s.(poll := Draining(items));
    assert Next(uid, s, Query) == s3;
    DrainStep(uid, s3, items);
    DeliverStep(uid, Next(uid, s3, Drain), items + DrainQuery(s.table, uid, items, s.scope),
                Last(items).row.lastModified + 1);
  }

  /** Nothing is in flight, and the clock has reached every stamp. */
  ghost predicate Quiet<T(!new)>(uid: UserId, s: State<T>) {
    && s.poll.Idle? && Safe(uid, s)
    && (forall id: Id :: id in s.replica ==> Owned(s.table, uid, id))
    && (forall id: Id :: Asked(uid, s, id) ==> s.table[id].lastModified <= s.clock)
  }

  /** The rows still ahead of the client. */
  function Remaining<T(!new)>(uid: UserId, s: State<T>): set<Id> {
    set id | id in s.table && Asked(uid, s, id) && s.table[id].lastModified >= s.cursor
  }

  ghost predicate Done<T(!new)>(uid: UserId, s: State<T>) {
    forall id: Id :: Asked(uid, s, id) ==> Reflected(s, id)
  }

  /** What one poll leaves of a row: delivered as stored, or untouched. */
  lemma PollEffect<T(!new)>(uid: UserId, s: State<T>, r: Request, id: Id)
    requires Quiet(uid, s)
    ensures var s' := Delivered(uid, s, r);
            var items := Delta(s.table, uid, s.cursor, s'.clock, s.scope, ClampLimit(r.wanted)).items;
            && (id in s'.replica ==> Owned(s.table, uid, id))
            && (Owned(s.table, uid, id) && Reflected(s, id) ==> Reflected(s', id))
            && (id in s.table && Item(id, s.table[id]) in items ==> Reflected(s', id))
  {
    var now := Later(r.to, s.clock);
    var all := Select(s.table, InWindow(uid, s.cursor, now, s.scope));
    var page := Delta(s.table, uid, s.cursor, now, s.scope, ClampLimit(r.wanted));
    DeltaIsPrefix(s.table, uid, s.cursor, now, s.scope, ClampLimit(r.wanted));
    assert forall item :: item in page.items ==> item in all;
    ApplySpec(s.replica, page.items);
  }

  /** A row asked for that the poll passes, or any one if its page is below the limit, is reflected after it. */
  lemma PollReaches<T(!new)>(uid: UserId, s: State<T>, r: Request, id: Id)
    requires Quiet(uid, s) && Asked(uid, s, id)
    ensures var s' := Delivered(uid, s, r);
            var items := Delta(s.table, uid, s.cursor, s'.clock, s.scope, ClampLimit(r.wanted)).items;
            Reflected(s, id) || s.table[id].lastModified < s'.cursor || |items| < ClampLimit(r.wanted) ==>
              Reflected(s', id)
  {
    var s' := Delivered(uid, s, r);
    var limit := ClampLimit(r.wanted);
    DeltaIsPrefix(s.table, uid, s.cursor, s'.clock, s.scope, limit);
    PollEffect(uid, s, r, id);
    if s.table[id].lastModified >= s.cursor {
      assert Item(id, s.table[id]) in Select(s.table, InWindow(uid, s.cursor, s'.clock, s.scope));
      if s.table[id].lastModified < s'.cursor {
        WindowDelivered(s.table, uid, s.cursor, s'.clock, s.scope, limit, id);
      }
    }
  }

  /** The cursor's promise holds again after the poll, and a page below the limit is the last one. */
  lemma PollKeepsQuiet<T(!new)>(uid: UserId, s: State<T>, r: Request)
    requires Quiet(uid, s)
    ensures var s' := Delivered(uid, s, r);
            Quiet(uid, s') && (Done(uid, s) ==> Done(uid, s'))
            && var page := Delta(s.table, uid, s.cursor, s'.clock, s.scope, ClampLimit(r.wanted));
               (|page.items| < ClampLimit(r.wanted) ==> Done(uid, s'))
  {
    var s' := Delivered(uid, s, r);
    var items := Delta(s.table, uid, s.cursor, s'.clock, s.scope, ClampLimit(r.wanted)).items;
    forall id: Id ensures id in s'.replica ==> Owned(s.table, uid, id) {
      PollEffect(uid, s, r, id);
    }
    forall id: Id | Asked(uid, s', id)
      ensures Asked(uid, s, id)
      ensures Reflected(s, id) || s.table[id].lastModified < s'.cursor || |items| < ClampLimit(r.wanted) ==>
                Reflected(s', id)
    {
      PollReaches(uid, s, r, id);
    }
  }

  /** A full page passes at least one row that was ahead. */
  lemma FullPagePasses<T(!new)>(uid: UserId, s: State<T>, r: Request) returns (id: Id)
    requires |Delta(s.table, uid, s.cursor, Delivered(uid, s, r).clock, s.scope, ClampLimit(r.wanted)).items|
             >= ClampLimit(r.wanted)
    ensures id in Remaining(uid, s) && s.table[id].lastModified < Delivered(uid, s, r).cursor
    ensures s.cursor < Delivered(uid, s, r).cursor
  {
    var now := Delivered(uid, s, r).clock;
    var all := Select(s.table, InWindow(uid, s.cursor, now, s.scope));
    DeltaIsPrefix(s.table, uid, s.cursor, now, s.scope, ClampLimit(r.wanted));
    assert all[0] in all;
    id := all[0].id;
  }

  /** A poll finishes the job or strictly shrinks what lies ahead, and never undoes anything. */
  lemma {:induction false} PollProgress<T(!new)>(uid: UserId, s: State<T>, r: Request)
    requires Quiet(uid, s)
    ensures var s' := Delivered(uid, s, r);
            Quiet(uid, s')
            && (Done(uid, s) ==> Done(uid, s'))
            && (Done(uid, s') || Remaining(uid, s') < Remaining(uid, s))
  {
    PollKeepsQuiet(uid, s, r);
    var s' := Delivered(uid, s, r);
    if !Done(uid, s') {
      var id := FullPagePasses(uid, s, r);
      assert id !in Remaining(uid, s');
      assert forall x: Id :: x in Remaining(uid, s') ==> Asked(uid, s, x);
    }
  }

  lemma SmallerSet(a: set<Id>, b: set<Id>)
    requires a < b
    ensures |a| < |b|
  {
    assert exists x :: x in b && x !in a;
    var x :| x in b && x !in a;
    assert a <= b - {x};
    SubsetSize(a, b - {x});
  }

  lemma {:induction false} SubsetSize(a: set<Id>, b: set<Id>)
    requires a <= b
    ensures |a| <= |b|
  {
    if a == {} {
    } else {
      var x :| x in a;
      SubsetSize(a - {x}, b - {x});
    }
  }

  /** More polls than rows ahead reach every row; further polls change nothing back. */
  lemma {:induction false} Converges<T(!new)>(uid: UserId, s: State<T>, rs: seq<Request>)
    requires Quiet(uid, s)
    requires Done(uid, s) || |rs| > |Remaining(uid, s)|
    ensures var s' := Polls(uid, s, rs);
            Quiet(uid, s') && Done(uid, s') && s'.table == s.table && s'.scope == s.scope
            && s'.fromSnapshot == s.fromSnapshot
    decreases |rs|
  {
    if rs == [] {
    } else {
      PollIsDelta(uid, s, rs[0]);
      PollProgress(uid, s, rs[0]);
      var s1 := PollOnce(uid, s, rs[0]);
      if !Done(uid, s1) {
        SmallerSet(Remaining(uid, s1), Remaining(uid, s));
      }
      Converges(uid, s1, rs[1..]);
    }
  }

  /** The user's rows that pass the filter: as stored, and as the replica holds them. */
  function Mine<T(!new)>(uid: UserId, s: State<T>): Table<T> {
    map id | id in s.table && Asked(uid, s, id) :: s.table[id]
  }

  function Held<T(!new)>(uid: UserId, s: State<T>): Table<T> {
    map id | id in s.replica && id in s.table && Asked(uid, s, id) :: s.replica[id]
  }

  function Live<T(!new)>(rows: Table<T>): Table<T> {
    map id | id in rows && !rows[id].isDeleted :: rows[id]
  }

  /**
   The client has what it asks for: the active rows, and the deleted ones too if it never
   took a snapshot. The rest of its replica are rows that have left the filter.
   */
  ghost predicate InStep<T(!new)>(uid: UserId, s: State<T>) {
    && Live(Held(uid, s)) == Live(Mine(uid, s))
    && (!s.fromSnapshot ==> Held(uid, s) == Mine(uid, s))
    && (forall id: Id :: id in s.replica && id !in Held(uid, s) ==>
          Owned(s.table, uid, id) && !s.scope(s.table[id].data))
  }

  lemma DoneMeansEqual<T(!new)>(uid: UserId, s: State<T>)
    requires Quiet(uid, s) && Done(uid, s)
    ensures InStep(uid, s)
  {
    var mine := Mine(uid, s);
    assert forall id: Id :: id in mine <==> Asked(uid, s, id);
    assert forall id: Id :: id in Held(uid, s) ==> id in mine && s.replica[id] == mine[id];
  }

  /** The replica holds exactly the user's rows as stored, up to deleted ones after a snapshot. */
  ghost predicate SameAsStore<T(!new)>(uid: UserId, s: State<T>) {
    Live(s.replica) == Live(Mine(uid, s)) && (!s.fromSnapshot ==> s.replica == Mine(uid, s))
  }

  lemma UnfilteredEqual<T(!new)>(uid: UserId, s: State<T>)
    requires InStep(uid, s) && Unfiltered(s)
    ensures SameAsStore(uid, s) && forall id: Id :: id in Mine(uid, s) <==> Owned(s.table, uid, id)
  {
    assert forall id: Id :: id in s.replica ==> id in Held(uid, s);
    assert Held(uid, s) == s.replica;
  }

  /** From any reachable state between polls: enough quiet polls bring replica and store in step. */
  lemma {:induction false} QuietSpell<T(!new)>(uid: UserId, s: State<T>, rs: seq<Request>, end: State<T>)
    requires Inv(uid, s) && s.poll.Idle?
    requires forall id: Id :: Asked(uid, s, id) ==> s.table[id].lastModified <= s.clock
    requires |rs| > |Remaining(uid, s)| && end == Polls(uid, s, rs)
    ensures end.table == s.table && end.scope == s.scope && end.fromSnapshot == s.fromSnapshot && InStep(uid, end)
    ensures Unfiltered(s) ==> SameAsStore(uid, end)
  {
    Converges(uid, s, rs);
    DoneMeansEqual(uid, end);
    if Unfiltered(s) {
      UnfilteredEqual(uid, end);
    }
  }

  /**
   After any run, snapshots and lost responses included, a quiet spell of enough polls
   leaves the replica with exactly the user's active rows in the filter; tombstones too, if
   the client never took a snapshot. Without a filter that is the whole replica.
   */
  lemma {:induction false} EventuallyEqual<T(!new)>(
      uid: UserId, s0: State<T>, steps: seq<Step<T>>, s: State<T>, rs: seq<Request>, end: State<T>)
    requires Start(uid, s0) && PrudentRun(uid, s0, steps) && s == Run(uid, s0, steps)
    requires s.poll.Idle? && forall id: Id :: Asked(uid, s, id) ==> s.table[id].lastModified <= s.clock
    requires |rs| > |Remaining(uid, s)| && end == Polls(uid, s, rs)
    ensures end.table == s.table && end.scope == s0.scope && end.fromSnapshot == s.fromSnapshot && InStep(uid, end)
    ensures Unfiltered(s0) ==> SameAsStore(uid, end)
  {
    InvRun(uid, s0, steps);
    ScopeKept(uid, s0, steps);
    QuietSpell(uid, s, rs, end);
  }
}
