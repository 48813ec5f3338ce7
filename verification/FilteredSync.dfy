/**
 What a filter costs: a delta call reports the rows that are in the filter, so a row that
 leaves it is not reported. The client keeps its last version of it.
 */
module FilteredSync {
  import opened Table
  import opened DeltaPage
  import opened SyncProtocol

  /** The client holds the row, which has left the filter, and nothing in flight carries it. */
  ghost predicate LeftBehind<T(!new)>(s: State<T>, id: Id) {
    && id in s.table && !s.scope(s.table[id].data) && id in s.replica
    && match s.poll
       case Idle => true
       case Reading(_, _, snapshot) => !snapshot
       case Draining(page) => !Mentions(page, id)
       case Delivering(items, _, full) => !full && !Mentions(items, id)
  }

  lemma QueryLeavesBehind<T(!new)>(uid: UserId, s: State<T>, id: Id)
    requires LeftBehind(s, id) && s.poll.Reading?
    ensures LeftBehind(Next(uid, s, Query), id)
  {
    SelectIsConsistent(s.table, InWindow(uid, s.cursor, s.poll.now, s.scope), s.poll.limit);
    assert !Mentions(FirstQuery(s.table, uid, s.cursor, s.poll.now, s.scope, s.poll.limit), id);
  }

  lemma DrainLeavesBehind<T(!new)>(uid: UserId, s: State<T>, id: Id)
    requires LeftBehind(s, id) && s.poll.Draining? && s.poll.page != []
    ensures LeftBehind(Next(uid, s, Drain), id)
  {
    var page := s.poll.page;
    var drained := DrainQuery(s.table, uid, page, s.scope);
    assert forall item :: item in page + drained ==> item in page || item in drained;
    DrainStep(uid, s, page);
  }

  lemma {:induction false} StepLeavesBehind<T(!new)>(uid: UserId, s: State<T>, step: Step<T>, id: Id)
    requires LeftBehind(s, id)
    requires (step.BeginPoll? ==> !step.snapshot) && (step.Write? ==> step.id != id)
    ensures LeftBehind(Next(uid, s, step), id) && Next(uid, s, step).replica[id] == s.replica[id]
  {
    match step
    case Query => if s.poll.Reading? { QueryLeavesBehind(uid, s, id); }
    case Drain => if s.poll.Draining? && s.poll.page != [] { DrainLeavesBehind(uid, s, id); }
    case Deliver => if s.poll.Delivering? { ApplyLeavesOut(s.replica, s.poll.items, id); }
    case _ =>
  }

  /** However long the client goes on in delta mode, its version of the row stays, until the row is written again. */
  lemma {:induction false} LeftRowStays<T(!new)>(uid: UserId, s: State<T>, steps: seq<Step<T>>, id: Id)
    requires LeftBehind(s, id) && DeltaSteps(steps) && LeavesAlone(steps, id)
    ensures id in Run(uid, s, steps).replica && Run(uid, s, steps).replica[id] == s.replica[id]
    decreases |steps|
  {
    if steps == [] {
    } else {
      StepLeavesBehind(uid, s, steps[0], id);
      LeftRowStays(uid, Next(uid, s, steps[0]), steps[1..], id);
    }
  }

  /** A client that asks for 'a' holds row 1; the row becomes 'b', is never reported, and the client keeps 'a'. */
  lemma MovedRowStaysStale(uid: UserId, steps: seq<Step<char>>)
    requires DeltaSteps(steps) && LeavesAlone(steps, 1)
    ensures var a, b := Row(uid, 500, false, 'a'), Row(uid, 2000, false, 'b');
            var s: State<char> := State(2000, map[1 := a], Idle, map[1 := a], 1000, false, c => c == 'a');
            var s' := Run(uid, Next(uid, s, Write(1, b)), steps);
            Start(uid, s) && 1 in s'.replica && s'.replica[1] == a
  {
    var a, b := Row(uid, 500, false, 'a'), Row(uid, 2000, false, 'b');
    var s: State<char> := State(2000, map[1 := a], Idle, map[1 := a], 1000, false, c => c == 'a');
    LeftRowStays(uid, Next(uid, s, Write(1, b)), steps, 1);
  }
}
