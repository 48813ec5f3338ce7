/**
 The snapshot of lists as the start of a client. It is ordered by title, but a full page
 takes its cursor from its last row, so `last_modified` decides whether rows are lost.
 */
module ListSnapshot {
  import opened Table
  import opened DeltaPage
  import opened SyncProtocol
  import opened SyncExact

  /** The page query of a list snapshot: the first `limit` rows of the answer are on their way. */
  function Listing<T(!new)>(s: State<T>, answer: seq<Item<T>>): State<T>
    requires s.poll.Reading?
  {
    var items := Limit(answer, s.poll.limit);
    s.(poll := Delivering(items, PageCursor(items, s.poll.limit, s.poll.now), true))
  }

  /** A page below the limit carries the server's time, a full one the stamp of its last row by title. */
  lemma ListingCursor<T(!new)>(s: State<T>, answer: seq<Item<T>>)
    requires s.poll.Reading? && s.poll.limit >= 1
    ensures var n := s.poll.limit;
            Listing(s, answer) == s.(poll := if |answer| < n then Delivering(answer, s.poll.now, true)
                                             else Delivering(answer[..n], answer[n - 1].row.lastModified, true))
  {
    assert |answer| == s.poll.limit ==> answer[..s.poll.limit] == answer;
  }

  /**
   Fewer lists than the limit, or the last one that fits is stamped at or before the clock
   and none behind it by title is stamped earlier.
   */
  ghost predicate SoundAnswer<T(!new)>(answer: seq<Item<T>>, limit: nat, clock: int)
    requires limit >= 1
  {
    |answer| < limit
    || (answer[limit - 1].row.lastModified <= clock
        && forall i :: limit <= i < |answer| ==> answer[i].row.lastModified >= answer[limit - 1].row.lastModified)
  }

  ghost predicate DeltaSafe<T(!new)>(uid: UserId, s: State<T>) {
    forall steps: seq<Step<T>> :: DeltaSteps(steps) && PrudentRun(uid, s, steps) ==> Safe(uid, Run(uid, s, steps))
  }

  lemma AnswerPage<T(!new)>(uid: UserId, s: State<T>, leq: (T, T) -> bool, answer: seq<Item<T>>, limit: nat)
    requires ByTitle(s.table, uid, leq, answer)
    ensures Consistent(Limit(answer, limit))
    ensures forall item :: item in Limit(answer, limit) ==> Stored(s.table, item) && Active(s.table, uid, item.id)
    ensures forall i :: limit <= i < |answer| ==> !Mentions(Limit(answer, limit), answer[i].id)
  {
    var items := Limit(answer, limit);
    assert forall item :: item in items ==> item in answer;
    forall i | limit <= i < |answer| ensures !Mentions(items, answer[i].id) {
      assert forall k :: 0 <= k < limit ==> items[k] == answer[k] && answer[k].id != answer[i].id;
    }
  }

  lemma SoundKeepsInv<T(!new)>(uid: UserId, s: State<T>, leq: (T, T) -> bool, answer: seq<Item<T>>)
    requires Inv(uid, s) && s.poll.Reading? && ByTitle(s.table, uid, leq, answer)
    requires SoundAnswer(answer, s.poll.limit, s.clock)
    ensures Inv(uid, Listing(s, answer))
  {
    var n := s.poll.limit;
    var items := Limit(answer, n);
    var s' := Listing(s, answer);
    AnswerPage(uid, s, leq, answer, n);
    forall id: Id | Asked(uid, s, id) && s.table[id].lastModified < s'.poll.next && !s.table[id].isDeleted
      ensures Item(id, s.table[id]) in items
    {
      assert Item(id, s.table[id]) in answer;
      var i :| 0 <= i < |answer| && answer[i] == Item(id, s.table[id]);
      assert i < n ==> items[i] == answer[i];
    }
    assert Covers(uid, s', items, s'.poll.next, true);
  }

  /** An unsound answer has a prudent continuation that skips a list. */
  lemma UnsoundSkips<T(!new)>(uid: UserId, s: State<T>, leq: (T, T) -> bool, answer: seq<Item<T>>)
    returns (steps: seq<Step<T>>)
    requires Inv(uid, s) && s.poll.Reading? && ByTitle(s.table, uid, leq, answer)
    requires !SoundAnswer(answer, s.poll.limit, s.clock) && Unfiltered(s)
    ensures DeltaSteps(steps) && PrudentRun(uid, Listing(s, answer), steps)
    ensures !Safe(uid, Run(uid, Listing(s, answer), steps))
  {
    var n := s.poll.limit;
    var s' := Listing(s, answer);
    AnswerPage(uid, s, leq, answer, n);
    if answer[n - 1].row.lastModified > s.clock {
      steps := OverrunSkipsAWrite(uid, s', answer[n - 1].row.data);
      assert forall i :: 0 <= i < |steps| ==> steps[i] in steps;
    } else {
      var i :| n <= i < |answer| && answer[i].row.lastModified < answer[n - 1].row.lastModified;
      steps := [Deliver];
      assert answer[i] in answer;
      ListIsPassed(uid, s, leq, answer, i);
      assert Run(uid, s', steps) == Next(uid, s', Deliver);
    }
  }

  /** After the delivery a list behind the page with a smaller stamp lies below the cursor, unseen. */
  lemma ListIsPassed<T(!new)>(uid: UserId, s: State<T>, leq: (T, T) -> bool, answer: seq<Item<T>>, i: nat)
    requires s.poll.Reading? && s.poll.limit >= 1 && ByTitle(s.table, uid, leq, answer)
    requires s.poll.limit <= i < |answer|
    requires answer[i].row.lastModified < answer[s.poll.limit - 1].row.lastModified
    ensures var s' := Next(uid, Listing(s, answer), Deliver);
            (Unfiltered(s) ==> !Safe(uid, s')) && answer[i].id in s'.table && answer[i].id !in s'.replica
            && s'.table[answer[i].id].lastModified < s'.cursor
  {
    var items := Limit(answer, s.poll.limit);
    AnswerPage(uid, s, leq, answer, s.poll.limit);
    ApplySpec(map[], items);
    assert answer[i] in answer;
    var s' := Next(uid, Listing(s, answer), Deliver);
    assert answer[i].id !in s'.replica;
    assert Unfiltered(s) ==> Asked(uid, s', answer[i].id);
    assert !Reflected(s', answer[i].id);
  }

  /** Every prudent run that goes on in delta mode is safe exactly when the answer is sound. */
  lemma ListBootstrapSafeIff<T(!new)>(uid: UserId, s: State<T>, leq: (T, T) -> bool, answer: seq<Item<T>>)
    requires Inv(uid, s) && s.poll.Reading? && ByTitle(s.table, uid, leq, answer) && Unfiltered(s)
    ensures DeltaSafe(uid, Listing(s, answer)) <==> SoundAnswer(answer, s.poll.limit, s.clock)
  {
    if SoundAnswer(answer, s.poll.limit, s.clock) {
      SoundKeepsInv(uid, s, leq, answer);
      InvIsSafeFromHere(uid, Listing(s, answer));
    } else {
      var steps := UnsoundSkips(uid, s, leq, answer);
    }
  }

  // ----- lost for good -------------------------------------------------------------------

  /** The row is below the cursor, not in the replica, and nothing in flight carries it. */
  ghost predicate Lost<T(!new)>(s: State<T>, id: Id) {
    && id in s.table && id !in s.replica
    && s.table[id].lastModified < s.cursor && s.table[id].lastModified < s.clock
    && match s.poll
       case Idle => true
       case Reading(now, _, snapshot) => !snapshot && s.table[id].lastModified < now
       case Draining(page) =>
         page != [] && !Mentions(page, id) && s.table[id].lastModified < Last(page).row.lastModified
       case Delivering(items, next, _) => !Mentions(items, id) && s.table[id].lastModified < next
  }

  lemma QueryKeepsLost<T(!new)>(uid: UserId, s: State<T>, id: Id)
    requires Lost(s, id) && s.poll.Reading?
    ensures Lost(Next(uid, s, Query), id)
  {
    var items := FirstQuery(s.table, uid, s.cursor, s.poll.now, s.scope, s.poll.limit);
    SelectIsConsistent(s.table, InWindow(uid, s.cursor, s.poll.now, s.scope), s.poll.limit);
    assert !Mentions(items, id);
    assert items != [] ==> Last(items) in items;
  }

  lemma DrainKeepsLost<T(!new)>(uid: UserId, s: State<T>, id: Id)
    requires Lost(s, id) && s.poll.Draining?
    ensures Lost(Next(uid, s, Drain), id)
  {
    var drained := DrainQuery(s.table, uid, s.poll.page, s.scope);
    assert forall item :: item in s.poll.page + drained ==> item in s.poll.page || item in drained;
    assert !Mentions(s.poll.page + drained, id);
  }

  lemma {:induction false} LostStep<T(!new)>(uid: UserId, s: State<T>, step: Step<T>, id: Id)
    requires Lost(s, id)
    requires (step.BeginPoll? ==> !step.snapshot) && (step.Write? ==> step.id != id)
    ensures Lost(Next(uid, s, step), id)
  {
    match step
    case Query => if s.poll.Reading? { QueryKeepsLost(uid, s, id); }
    case Drain => if s.poll.Draining? { DrainKeepsLost(uid, s, id); }
    case Deliver =>
      if s.poll.Delivering? {
        ApplyLeavesOut(if s.poll.full then map[] else s.replica, s.poll.items, id);
      }
    case _ =>
  }

  lemma {:induction false} LostForGood<T(!new)>(uid: UserId, s: State<T>, steps: seq<Step<T>>, id: Id)
    requires Lost(s, id) && DeltaSteps(steps) && LeavesAlone(steps, id)
    ensures Lost(Run(uid, s, steps), id)
    decreases |steps|
  {
    if steps == [] {
    } else {
      LostStep(uid, s, steps[0], id);
      LostForGood(uid, Next(uid, s, steps[0]), steps[1..], id);
    }
  }

  /**
   A list behind a full page, stamped before the page's last row and before the clock, never
   reaches the client, however long it goes on in delta mode, until the list is written again.
   */
  lemma SkippedListStaysOut<T(!new)>(uid: UserId, s: State<T>, leq: (T, T) -> bool, answer: seq<Item<T>>, i: nat,
      steps: seq<Step<T>>)
    requires s.poll.Reading? && s.poll.limit >= 1 && ByTitle(s.table, uid, leq, answer)
    requires s.poll.limit <= i < |answer| && answer[i].row.lastModified < s.clock
    requires answer[i].row.lastModified < answer[s.poll.limit - 1].row.lastModified
    requires DeltaSteps(steps) && LeavesAlone(steps, answer[i].id)
    ensures answer[i].id !in Run(uid, Next(uid, Listing(s, answer), Deliver), steps).replica
  {
    ListIsPassed(uid, s, leq, answer, i);
    assert answer[i] in answer;
    LostForGood(uid, Next(uid, Listing(s, answer), Deliver), steps, answer[i].id);
  }

  /** Limit 1, lists 'a' at 2000 and 'b' at 1000: 'b' is never seen in delta mode. */
  lemma FullListBootstrapSkips(uid: UserId, steps: seq<Step<char>>)
    requires DeltaSteps(steps) && LeavesAlone(steps, 2)
    ensures var a, b := Row(uid, 2000, false, 'a'), Row(uid, 1000, false, 'b');
            var s: State<char> := State(3000, map[1 := a, 2 := b], Reading(3000, 1, true), map[], 0, false, Everything());
            ByTitle(s.table, uid, (x: char, y: char) => x <= y, [Item(1, a), Item(2, b)])
            && 2 !in Run(uid, Next(uid, Listing(s, [Item(1, a), Item(2, b)]), Deliver), steps).replica
  {
    var a, b := Row(uid, 2000, false, 'a'), Row(uid, 1000, false, 'b');
    var s: State<char> := State(3000, map[1 := a, 2 := b], Reading(3000, 1, true), map[], 0, false, Everything());
    SkippedListStaysOut(uid, s, (x: char, y: char) => x <= y, [Item(1, a), Item(2, b)], 1, steps);
  }

  /** The other failure: a device has stamped the only list ahead of the clock, and the limit is 1. */
  lemma ListAheadSkips(uid: UserId)
    ensures var a := Row(uid, 5000, false, 'a');
            var s: State<char> := State(1000, map[1 := a], Reading(1000, 1, true), map[], 0, false, Everything());
            Inv(uid, s) && ByTitle(s.table, uid, (x: char, y: char) => x <= y, [Item(1, a)])
            && !DeltaSafe(uid, Listing(s, [Item(1, a)]))
  {
    var a := Row(uid, 5000, false, 'a');
    var s: State<char> := State(1000, map[1 := a], Reading(1000, 1, true), map[], 0, false, Everything());
    ListBootstrapSafeIff(uid, s, (x: char, y: char) => x <= y, [Item(1, a)]);
  }
}
