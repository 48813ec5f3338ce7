/**
 The connection pool of `db.py`, at the granularity of its lock and of its LIFO queue:
 any number of threads interleave, each at one of the program points of `_acquire`,
 `_release` and `close`; opening and pinging a connection may fail.
 */
module ConnectionPool {
  import opened Wrappers

  type Conn = nat
  type Tid = nat

  /** Where a thread stands. A connection is named by the order in which it was opened. */
  datatype Pc =
    | Outside
    | Reserving
    | Connecting
    | Waiting
    | Validating(conn: Conn)
    | Reconnecting
    | Unreserving
    | InUse(conn: Conn)
    | Closing

  /** What the thread tries next, and how the outside world answers it. */
  datatype Move = Acquire | Release | Close | Proceed | Fail

  /**
   `created` and `idle` are the pool's own fields; `next` numbers connections, and
   `closed` counts the idle connections that `close` has taken out for good.
   */
  datatype State = State(created: int, idle: seq<Conn>, pcs: map<Tid, Pc>, next: Conn, closed: nat)

  const INIT := State(0, [], map[], 0, 0)

  function At(s: State, t: Tid): Pc {
    if t in s.pcs then s.pcs[t] else Outside
  }

  function Goto(s: State, t: Tid, pc: Pc): State {
    s.(pcs := s.pcs[t := pc])
  }

  /** `queue.get`: the connection returned last is handed out first. */
  function Pop(s: State): (State, Conn)
    requires s.idle != []
  {
    (s.(idle := s.idle[..|s.idle| - 1]), s.idle[|s.idle| - 1])
  }

  /** One atomic step of thread `t`; a move that does not apply changes nothing. */
  function Step(size: nat, s: State, t: Tid, m: Move): State {
    match At(s, t)
    case Outside =>
      if m.Acquire? then
        if s.idle != [] then var (s', c) := Pop(s); Goto(s', t, Validating(c)) else Goto(s, t, Reserving)
      else if m.Close? then Goto(s, t, Closing)
      else s
    case Reserving =>
      if s.created < size then Goto(s.(created := s.created + 1), t, Connecting) else Goto(s, t, Waiting)
    case Connecting => Opened(s, t, m)
    case Waiting =>
      if s.idle != [] then var (s', c) := Pop(s); Goto(s', t, Validating(c))
      else if m.Fail? then Goto(s, t, Outside)
      else s
    case Validating(c) =>
      if m.Fail? then Goto(s, t, Reconnecting) else Goto(s, t, InUse(c))
    case Reconnecting => Opened(s, t, m)
    case Unreserving => Goto(s.(created := s.created - 1), t, Outside)
    case InUse(c) =>
      if m.Release? then
        if |s.idle| < size then Goto(s.(idle := s.idle + [c]), t, Outside) else Goto(s, t, Unreserving)
      else s
    case Closing =>
      if s.idle != [] then var (s', _) := Pop(s); s'.(closed := s.closed + 1) else Goto(s, t, Outside)
  }

  function Opened(s: State, t: Tid, m: Move): State {
    if m.Fail? then Goto(s, t, Unreserving) else Goto(s.(next := s.next + 1), t, InUse(s.next))
  }

  // ----- the object ------------------------------------------------------------------

  /** The pool's fields, with one method for each atomic section of the source. */
  class Database {
    const size: nat
    var created: int
    var pool: seq<Conn>
    var pcs: map<Tid, Pc>
    var next: Conn
    var closed: nat

    ghost function Now(): State
      reads this
    {
      State(created, pool, pcs, next, closed)
    }

    function Pc(t: Tid): Pc
      reads this
    {
      if t in pcs then pcs[t] else Outside
    }

    constructor (size: nat)
      ensures this.size == size && Now() == INIT
    {
      this.size := size;
      created, pool, pcs, next, closed := 0, [], map[], 0, 0;
    }

    method TakeIdle() returns (c: Option<Conn>)
      modifies `pool
      ensures old(pool) == [] ==> c == None && pool == []
      ensures old(pool) != [] ==> c == Some(old(pool)[|old(pool)| - 1]) && pool == old(pool)[..|old(pool)| - 1]
    {
      if pool == [] {
        return None;
      }
      c := Some(pool[|pool| - 1]);
      pool := pool[..|pool| - 1];
    }

    method AcquireNowait(t: Tid)
      requires Pc(t) == Outside
      modifies `pool, `pcs
      ensures Now() == Step(size, old(Now()), t, Acquire)
    {
      var c := TakeIdle();
      pcs := pcs[t := if c.Some? then Validating(c.value) else Reserving];
    }

    method TryReserveSlot(t: Tid)
      requires Pc(t) == Reserving
      modifies `created, `pcs
      ensures Now() == Step(size, old(Now()), t, Proceed)
    {
      if created < size {
        created := created + 1;
        pcs := pcs[t := Connecting];
      } else {
        pcs := pcs[t := Waiting];
      }
    }

    method Connect(t: Tid, succeeded: bool)
      requires Pc(t) in {Connecting, Reconnecting}
      modifies `pcs, `next
      ensures Now() == Step(size, old(Now()), t, if succeeded then Proceed else Fail)
    {
      if succeeded {
        pcs := pcs[t := InUse(next)];
        next := next + 1;
      } else {
        pcs := pcs[t := Unreserving];
      }
    }

    method UnreserveSlot(t: Tid)
      requires Pc(t) == Unreserving
      modifies `created, `pcs
      ensures Now() == Step(size, old(Now()), t, Proceed)
    {
      created := created - 1;
      pcs := pcs[t := Outside];
    }

    /** The bounded wait: woken by a returned connection, or timed out on an empty queue. */
    method AwaitIdle(t: Tid, timedOut: bool)
      requires Pc(t) == Waiting
      modifies `pool, `pcs
      ensures Now() == Step(size, old(Now()), t, if timedOut then Fail else Proceed)
    {
      var c := TakeIdle();
      if c.Some? {
        pcs := pcs[t := Validating(c.value)];
      } else if timedOut {
        pcs := pcs[t := Outside];
      }
    }

    method Ping(t: Tid, alive: bool)
      requires Pc(t).Validating?
      modifies `pcs
      ensures Now() == Step(size, old(Now()), t, if alive then Proceed else Fail)
      ensures Pc(t) == if alive then InUse(old(pcs)[t].conn) else Reconnecting
    {
      pcs := pcs[t := if alive then InUse(pcs[t].conn) else Reconnecting];
    }

    method ReleaseConn(t: Tid)
      requires Pc(t).InUse?
      modifies `pool, `pcs
      ensures Now() == Step(size, old(Now()), t, Release)
    {
      if |pool| < size {
        pool := pool + [pcs[t].conn];
        pcs := pcs[t := Outside];
      } else {
        pcs := pcs[t := Unreserving];
      }
    }

    method CloseOne(t: Tid)
      requires Pc(t) == Closing
      modifies `pool, `pcs, `closed
      ensures Now() == Step(size, old(Now()), t, Proceed)
    {
      var c := TakeIdle();
      if c.Some? {
        closed := closed + 1;
      } else {
        pcs := pcs[t := Outside];
      }
    }
  }

  // ----- what every interleaving keeps --------------------------------------------------

  predicate HoldsSlot(pc: Pc) {
    pc.Connecting? || pc.Validating? || pc.Reconnecting? || pc.Unreserving? || pc.InUse?
  }

  predicate HasConn(pc: Pc) {
    pc.Validating? || pc.InUse?
  }

  /** The threads that a slot is charged to: connecting, validating, in use, or giving it back. */
  function Holders(s: State): set<Tid> {
    set t | t in s.pcs && HoldsSlot(s.pcs[t])
  }

  /** The slots are exactly the idle connections, the holders' slots, and the closed ones. */
  ghost predicate Accounted(size: nat, s: State) {
    s.created == |s.idle| + |Holders(s)| + s.closed && s.created <= size
  }

  /** No connection is in two places: idle twice, idle and in hand, or in two hands. */
  ghost predicate Exclusive(s: State) {
    && (forall i, j :: 0 <= i < j < |s.idle| ==> s.idle[i] != s.idle[j])
    && (forall i :: 0 <= i < |s.idle| ==> s.idle[i] < s.next)
    && (forall t :: t in s.pcs && HasConn(s.pcs[t]) ==> s.pcs[t].conn < s.next && s.pcs[t].conn !in s.idle)
    && (forall t, u :: t in s.pcs && u in s.pcs && t != u && HasConn(s.pcs[t]) && HasConn(s.pcs[u])
          ==> s.pcs[t].conn != s.pcs[u].conn)
  }

  ghost predicate Inv(size: nat, s: State) {
    Accounted(size, s) && Exclusive(s)
  }

  lemma HoldersAfterGoto(s: State, t: Tid, pc: Pc)
    ensures Holders(Goto(s, t, pc)) == if HoldsSlot(pc) then Holders(s) + {t} else Holders(s) - {t}
    ensures t in Holders(s) <==> HoldsSlot(At(s, t))
  {
    var s' := Goto(s, t, pc);
    forall u ensures u in Holders(s') <==> if u == t then HoldsSlot(pc) else u in Holders(s) {
      if u != t { assert u in s'.pcs <==> u in s.pcs; }
    }
  }

  function Charge(pc: Pc): int {
    if HoldsSlot(pc) then 1 else 0
  }

  lemma HoldersCount(s: State, s': State, t: Tid, pc: Pc)
    requires s'.pcs == s.pcs[t := pc]
    ensures |Holders(s')| == |Holders(s)| - Charge(At(s, t)) + Charge(pc)
  {
    HoldersAfterGoto(s, t, pc);
    var before, after := Holders(s), Holders(s');
    assert after == Holders(Goto(s, t, pc));
    if HoldsSlot(pc) {
      assert after == before + {t};
      assert t in before ==> after == before;
    } else {
      assert after == before - {t};
      assert t !in before ==> after == before;
    }
  }

  /** A step moves slots between the queue, its thread and the closed ones, or creates or refunds one. */
  lemma SlotsBalance(size: nat, s: State, t: Tid, m: Move)
    ensures var s' := Step(size, s, t, m);
            s'.created - |s'.idle| - s'.closed - Charge(At(s', t)) == s.created - |s.idle| - s.closed - Charge(At(s, t))
            && (s.created <= size ==> s'.created <= size)
            && (s'.pcs == s.pcs || s'.pcs == s.pcs[t := At(s', t)])
  {
  }

  lemma AccountedStep(size: nat, s: State, t: Tid, m: Move)
    requires Accounted(size, s)
    ensures Accounted(size, Step(size, s, t, m))
  {
    var s' := Step(size, s, t, m);
    SlotsBalance(size, s, t, m);
    if s'.pcs == s.pcs {
      assert Holders(s') == Holders(s);
    } else {
      HoldersCount(s, s', t, At(s', t));
    }
  }

  /** Thread `t` may move on with no connection, its own one, or one nobody has. */
  lemma ExclusiveGoto(s: State, t: Tid, pc: Pc)
    requires Exclusive(s)
    requires HasConn(pc) ==> pc.conn < s.next && pc.conn !in s.idle
    requires HasConn(pc) ==> forall u :: u in s.pcs && u != t && HasConn(s.pcs[u]) ==> s.pcs[u].conn != pc.conn
    ensures Exclusive(Goto(s, t, pc))
  {
    var s' := Goto(s, t, pc);
    assert forall u :: u in s'.pcs && u != t ==> u in s.pcs && s'.pcs[u] == s.pcs[u];
  }

  lemma ExclusivePop(s: State)
    requires Exclusive(s) && s.idle != []
    ensures var (s', c) := Pop(s);
            Exclusive(s') && c < s.next && c !in s'.idle
            && forall u :: u in s.pcs && HasConn(s.pcs[u]) ==> s.pcs[u].conn != c
  {
    var n := |s.idle| - 1;
    assert s.idle[n] in s.idle;
    assert forall c :: c in s.idle[..n] ==> c in s.idle;
  }

  lemma ExclusiveRelease(s: State, t: Tid)
    requires Exclusive(s) && At(s, t).InUse?
    ensures Exclusive(Goto(s.(idle := s.idle + [At(s, t).conn]), t, Outside))
  {
    var c := At(s, t).conn;
    var s' := Goto(s, t, Outside);
    ExclusiveGoto(s, t, Outside);
    assert forall i :: 0 <= i < |s.idle| ==> s.idle[i] in s.idle;
    assert forall d :: d in s.idle + [c] ==> d in s.idle || d == c;
  }

  /** Taking an idle connection and validating it. */
  lemma ExclusiveTake(s: State, t: Tid)
    requires Exclusive(s) && s.idle != []
    ensures Exclusive(Goto(Pop(s).0, t, Validating(Pop(s).1)))
  {
    ExclusivePop(s);
    ExclusiveGoto(Pop(s).0, t, Validating(Pop(s).1));
  }

  lemma ExclusiveOpened(s: State, t: Tid, m: Move)
    requires Exclusive(s)
    ensures Exclusive(Opened(s, t, m))
  {
    ExclusiveGoto(s.(next := s.next + 1), t, InUse(s.next));
    ExclusiveGoto(s, t, Unreserving);
  }

  lemma ExclusiveStep(size: nat, s: State, t: Tid, m: Move)
    requires Inv(size, s)
    ensures Exclusive(Step(size, s, t, m))
  {
    var s' := Step(size, s, t, m);
    match At(s, t)
    case Outside => if m.Acquire? && s.idle != [] { ExclusiveTake(s, t); } else { ExclusiveGoto(s, t, At(s', t)); }
    case Reserving => ExclusiveGoto(s.(created := s'.created), t, At(s', t));
    case Connecting => ExclusiveOpened(s, t, m);
    case Waiting => if s.idle != [] { ExclusiveTake(s, t); } else { ExclusiveGoto(s, t, At(s', t)); }
    case Validating(_) => ExclusiveGoto(s, t, At(s', t));
    case Reconnecting => ExclusiveOpened(s, t, m);
    case Unreserving => ExclusiveGoto(s.(created := s'.created), t, Outside);
    case InUse(_) => ExclusiveGoto(s, t, At(s', t)); ExclusiveRelease(s, t);
    case Closing => if s.idle != [] { ExclusivePop(s); } else { ExclusiveGoto(s, t, Outside); }
  }

  function Run(size: nat, s: State, moves: seq<(Tid, Move)>): State {
    if moves == [] then s
    else Step(size, Run(size, s, moves[..|moves| - 1]), moves[|moves| - 1].0, moves[|moves| - 1].1)
  }

  /** Every interleaving of acquires, releases, closes and failures. */
  lemma {:induction false} PoolInvariant(size: nat, moves: seq<(Tid, Move)>)
    ensures Inv(size, Run(size, INIT, moves))
  {
    if moves == [] {
      assert Holders(INIT) == {};
    } else {
      var before := moves[..|moves| - 1];
      var (t, m) := moves[|moves| - 1];
      PoolInvariant(size, before);
      AccountedStep(size, Run(size, INIT, before), t, m);
      ExclusiveStep(size, Run(size, INIT, before), t, m);
    }
  }

  /** Connections that can still be had: the idle ones and the slots not yet created. */
  function Available(size: nat, s: State): int {
    |s.idle| + (size - s.created)
  }

  /**
   Conservation: whatever failed on the way, a slot is available, charged to a thread, or
   belongs to a connection that `close` took away. A failure never costs capacity.
   */
  lemma CapacityConserved(size: nat, moves: seq<(Tid, Move)>)
    ensures var s := Run(size, INIT, moves);
            Available(size, s) + |Holders(s)| + s.closed == size
            && (Holders(s) == {} && s.closed == 0 ==> Available(size, s) == size)
  {
    PoolInvariant(size, moves);
  }

  /** Returning a connection never meets a full queue, so it always becomes idle again. */
  lemma ReleaseNeverFull(size: nat, moves: seq<(Tid, Move)>, t: Tid)
    requires At(Run(size, INIT, moves), t).InUse?
    ensures var s := Run(size, INIT, moves);
            |s.idle| < size
            && Step(size, s, t, Release).idle == s.idle + [At(s, t).conn]
            && Step(size, s, t, Release).created == s.created
  {
    PoolInvariant(size, moves);
    var s := Run(size, INIT, moves);
    assert t in Holders(s) && |Holders(s)| >= 1;
  }

  /** A thread that is not interrupted and meets no failure gets a connection exactly when one is available. */
  lemma AcquireSucceedsIffAvailable(size: nat, moves: seq<(Tid, Move)>, t: Tid)
    requires At(Run(size, INIT, moves), t) == Outside
    ensures var s := Run(size, INIT, moves);
            var s3 := Step(size, Step(size, Step(size, s, t, Acquire), t, Proceed), t, Proceed);
            At(s3, t).InUse? <==> Available(size, s) > 0
  {
    PoolInvariant(size, moves);
  }

  // ----- dead connections ----------------------------------------------------------------

  /** Connection `c` has been opened, and neither the queue nor any thread has it. */
  ghost predicate Gone(s: State, c: Conn) {
    c < s.next && c !in s.idle && forall t :: t in s.pcs && HasConn(s.pcs[t]) ==> s.pcs[t].conn != c
  }

  lemma GoneGoto(s: State, t: Tid, pc: Pc, c: Conn)
    requires Gone(s, c) && (HasConn(pc) ==> pc.conn != c)
    ensures Gone(Goto(s, t, pc), c)
  {
  }

  lemma GoneStep(size: nat, s: State, t: Tid, m: Move, c: Conn)
    requires Gone(s, c)
    ensures Gone(Step(size, s, t, m), c)
  {
    var s' := Step(size, s, t, m);
    assert At(s, t).InUse? ==> At(s, t).conn != c;
    assert s.idle != [] ==> s.idle[|s.idle| - 1] in s.idle;
    assert c !in s'.idle;
    assert forall u :: u in s'.pcs && u != t ==> u in s.pcs && s'.pcs[u] == s.pcs[u];
  }

  lemma {:induction false} GoneForGood(size: nat, s: State, more: seq<(Tid, Move)>, c: Conn)
    requires Gone(s, c)
    ensures Gone(Run(size, s, more), c) && Run(size, s, more).next >= s.next
  {
    if more == [] {
    } else {
      var n := |more| - 1;
      GoneForGood(size, s, more[..n], c);
      GoneStep(size, Run(size, s, more[..n]), more[n].0, more[n].1, c);
    }
  }

  lemma OtherMoves(size: nat, s: State, u: Tid, m: Move, t: Tid)
    requires u != t
    ensures At(Step(size, s, u, m), t) == At(s, t)
  {
  }

  lemma {:induction false} OthersMove(size: nat, s: State, more: seq<(Tid, Move)>, t: Tid)
    requires forall i :: 0 <= i < |more| ==> more[i].0 != t
    ensures At(Run(size, s, more), t) == At(s, t)
  {
    if more == [] {
    } else {
      var n := |more| - 1;
      OthersMove(size, s, more[..n], t);
      OtherMoves(size, Run(size, s, more[..n]), more[n].0, more[n].1, t);
    }
  }

  /**
   A connection that fails its ping is never idle and never in a hand again, in any
   continuation. Its thread, whatever the others do meanwhile, either goes on with a
   connection opened after that, the count unchanged, or gives its slot back.
   */
  lemma DeadNeverReturns(size: nat, moves: seq<(Tid, Move)>, t: Tid, more: seq<(Tid, Move)>)
    requires At(Run(size, INIT, moves), t).Validating?
    ensures var s := Run(size, INIT, moves);
            var c := At(s, t).conn;
            var failed := Step(size, s, t, Fail);
            var later := Run(size, failed, more);
            failed.created == s.created && failed.idle == s.idle
            && c !in later.idle && (forall u :: At(later, u) != InUse(c) && At(later, u) != Validating(c))
            && ((forall i :: 0 <= i < |more| ==> more[i].0 != t) ==>
                  var anew, refused := Step(size, later, t, Proceed), Step(size, later, t, Fail);
                  At(anew, t) == InUse(later.next) && later.next >= s.next && anew.created == later.created
                  && var left := Step(size, refused, t, Proceed);
                     At(left, t) == Outside && left.created == later.created - 1 && left.idle == later.idle)
  {
    var s := Run(size, INIT, moves);
    var c := At(s, t).conn;
    PoolInvariant(size, moves);
    var failed := Step(size, s, t, Fail);
    assert Gone(failed, c);
    GoneForGood(size, failed, more, c);
    if forall i :: 0 <= i < |more| ==> more[i].0 != t {
      OthersMove(size, failed, more, t);
    }
  }

  /** A connection that answers its ping is the one handed out, and nothing else changes. */
  lemma LiveIsHandedOut(size: nat, s: State, t: Tid)
    requires At(s, t).Validating?
    ensures Step(size, s, t, Proceed) == s.(pcs := s.pcs[t := InUse(At(s, t).conn)])
  {
  }

  /** The connection returned last is validated first. */
  lemma LastReturnedFirst(size: nat, moves: seq<(Tid, Move)>, t: Tid, u: Tid)
    requires At(Run(size, INIT, moves), t).InUse? && (u == t || At(Run(size, INIT, moves), u) == Outside)
    ensures var s := Run(size, INIT, moves);
            var taken := Step(size, Step(size, s, t, Release), u, Acquire);
            At(taken, u) == Validating(At(s, t).conn) && taken.idle == s.idle && taken.created == s.created
  {
    ReleaseNeverFull(size, moves, t);
    var s := Run(size, INIT, moves);
    assert (s.idle + [At(s, t).conn])[..|s.idle|] == s.idle;
  }

  /** An acquire that fails to connect, or that waits in vain, leaves queue and count as they were. */
  lemma FailedAcquireUndone(size: nat, s: State, t: Tid)
    requires At(s, t) == Outside && s.idle == []
    ensures var reserving := Step(size, s, t, Acquire);
            var ahead := Step(size, reserving, t, Proceed);
            var over := Step(size, ahead, t, Fail);
            var end := if s.created < size then Step(size, over, t, Proceed) else over;
            At(end, t) == Outside && end.created == s.created && end.idle == [] && end.next == s.next
            && (s.created < size ==> At(ahead, t) == Connecting && ahead.created == s.created + 1)
            && (s.created >= size ==> At(ahead, t) == Waiting)
  {
  }

  /** `close`, alone, takes out every idle connection, and leaves the count. */
  lemma {:induction false} CloseEmpties(size: nat, s: State, t: Tid, n: nat) returns (steps: seq<(Tid, Move)>)
    requires At(s, t) == Closing && n == |s.idle|
    ensures var end := Run(size, s, steps);
            |steps| == n + 1 && (forall i :: 0 <= i < |steps| ==> steps[i] == (t, Proceed))
            && At(end, t) == Outside && end.idle == [] && end.closed == s.closed + n && end.created == s.created
  {
    steps := seq(n + 1, _ => (t, Proceed));
    Closed(size, s, t, n, steps[..n]);
    assert steps[..|steps| - 1] == steps[..n];
  }

  lemma {:induction false} Closed(size: nat, s: State, t: Tid, n: nat, steps: seq<(Tid, Move)>)
    requires At(s, t) == Closing && n == |steps| <= |s.idle|
    requires forall i :: 0 <= i < n ==> steps[i] == (t, Proceed)
    ensures var now := Run(size, s, steps);
            At(now, t) == Closing && now.idle == s.idle[..|s.idle| - n] && now.closed == s.closed + n
            && now.created == s.created
  {
    if n == 0 {
      assert s.idle[..|s.idle|] == s.idle;
    } else {
      Closed(size, s, t, n - 1, steps[..n - 1]);
      var before := Run(size, s, steps[..n - 1]);
      assert before.idle[..|before.idle| - 1] == s.idle[..|s.idle| - n];
    }
  }
}
