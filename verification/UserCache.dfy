/**
 The double-checked user id lookup of `db.py`: the cached field is read without a lock,
 read again under a dedicated lock, and resolved and stored under that lock.
 */
module UserCache {
  import opened Wrappers

  type Tid = nat
  type UserId = int

  datatype Pc =
    | Outside
    | FastReturn    // saw a cached id without the lock, about to read it again
    | WantLock
    | Locked        // holds the lock, about to test the cache again
    | SlowReturn    // holds the lock, about to read the cache and leave
    | Resolving     // holds the lock, querying the database

  /** What a move of a thread does; a resolution brings its outcome along. */
  datatype Move = Proceed | Resolved(id: UserId) | Failed

  /** `returned` and `stores` record the ids given to callers and the writes of the cache. */
  datatype State = State(
    cached: Option<UserId>, holder: Option<Tid>, pcs: map<Tid, Pc>,
    returned: seq<Option<UserId>>, stores: seq<UserId>)

  const INIT := State(None, None, map[], [], [])

  function At(s: State, t: Tid): Pc {
    if t in s.pcs then s.pcs[t] else Outside
  }

  function Goto(s: State, t: Tid, pc: Pc): State {
    s.(pcs := s.pcs[t := pc])
  }

  /** One atomic step of thread `t`; a move that does not apply changes nothing. */
  function Step(s: State, t: Tid, m: Move): State {
    match At(s, t)
    case Outside => Goto(s, t, if s.cached.Some? then FastReturn else WantLock)
    case FastReturn => Goto(s, t, Outside).(returned := s.returned + [s.cached])
    case WantLock => if s.holder.None? then Goto(s, t, Locked).(holder := Some(t)) else s
    case Locked => Goto(s, t, if s.cached.Some? then SlowReturn else Resolving)
    case SlowReturn => Goto(s, t, Outside).(returned := s.returned + [s.cached], holder := None)
    case Resolving =>
      match m {
        case Proceed => s
        case Resolved(id) => Goto(s, t, SlowReturn).(cached := Some(id), stores := s.stores + [id])
        case Failed => Goto(s, t, Outside).(holder := None)
      }
  }

  class Cache {
    var userId: Option<UserId>
    var holder: Option<Tid>
    var pcs: map<Tid, Pc>
    ghost var returned: seq<Option<UserId>>
    ghost var stores: seq<UserId>

    ghost function Now(): State
      reads this
    {
      State(userId, holder, pcs, returned, stores)
    }

    function Pc(t: Tid): Pc
      reads this
    {
      if t in pcs then pcs[t] else Outside
    }

    constructor ()
      ensures Now() == INIT
    {
      userId, holder, pcs, returned, stores := None, None, map[], [], [];
    }

    method CheckUnlocked(t: Tid)
      requires Pc(t) == Outside
      modifies this
      ensures Now() == Step(old(Now()), t, Proceed)
    {
      pcs := pcs[t := if userId.Some? then FastReturn else WantLock];
    }

    method ReturnUnlocked(t: Tid) returns (id: Option<UserId>)
      requires Pc(t) == FastReturn
      modifies this
      ensures Now() == Step(old(Now()), t, Proceed) && returned == old(returned) + [id]
    {
      id := userId;
      returned := returned + [id];
      pcs := pcs[t := Outside];
    }

    method Lock(t: Tid)
      requires Pc(t) == WantLock
      modifies this
      ensures Now() == Step(old(Now()), t, Proceed)
    {
      if holder.None? {
        holder := Some(t);
        pcs := pcs[t := Locked];
      }
    }

    method CheckLocked(t: Tid)
      requires Pc(t) == Locked
      modifies this
      ensures Now() == Step(old(Now()), t, Proceed)
    {
      pcs := pcs[t := if userId.Some? then SlowReturn else Resolving];
    }

    method ResolveUserId(t: Tid, outcome: Option<UserId>)
      requires Pc(t) == Resolving
      modifies this
      ensures Now() == Step(old(Now()), t, if outcome.Some? then Resolved(outcome.value) else Failed)
    {
      if outcome.Some? {
        userId := outcome;
        stores := stores + [outcome.value];
        pcs := pcs[t := SlowReturn];
      } else {
        holder := None;
        pcs := pcs[t := Outside];
      }
    }

    method ReturnLocked(t: Tid) returns (id: Option<UserId>)
      requires Pc(t) == SlowReturn
      modifies this
      ensures Now() == Step(old(Now()), t, Proceed) && returned == old(returned) + [id]
    {
      id := userId;
      returned := returned + [id];
      holder := None;
      pcs := pcs[t := Outside];
    }
  }

  ghost predicate Inv(s: State) {
    && s.stores == (if s.cached.Some? then [s.cached.value] else [])
    && (s.cached.None? ==> s.returned == [])
    && (forall i :: 0 <= i < |s.returned| ==> s.returned[i] == s.cached)
    && (forall t :: t in s.pcs && s.pcs[t] in {Locked, SlowReturn, Resolving} ==> s.holder == Some(t))
    && (forall t :: t in s.pcs && s.pcs[t] == Resolving ==> s.cached.None?)
    && (forall t :: t in s.pcs && s.pcs[t] in {FastReturn, SlowReturn} ==> s.cached.Some?)
    && (s.holder.Some? ==> At(s, s.holder.value) in {Locked, SlowReturn, Resolving})
  }

  function Run(s: State, moves: seq<(Tid, Move)>): State {
    if moves == [] then s
    else Step(Run(s, moves[..|moves| - 1]), moves[|moves| - 1].0, moves[|moves| - 1].1)
  }

  lemma InvStep(s: State, t: Tid, m: Move)
    requires Inv(s)
    ensures Inv(Step(s, t, m))
  {
  }

  lemma {:induction false} InvRun(moves: seq<(Tid, Move)>)
    ensures Inv(Run(INIT, moves))
  {
    if moves == [] {
    } else {
      InvRun(moves[..|moves| - 1]);
      InvStep(Run(INIT, moves[..|moves| - 1]), moves[|moves| - 1].0, moves[|moves| - 1].1);
    }
  }

  /** In every interleaving one resolution at most is stored, and all callers get that id. */
  lemma CallersAgree(moves: seq<(Tid, Move)>)
    ensures var s := Run(INIT, moves);
            |s.stores| <= 1
            && forall i :: 0 <= i < |s.returned| ==> s.stores != [] && s.returned[i] == Some(s.stores[0])
  {
    InvRun(moves);
  }

  /** What callers were given stays what later callers are given. */
  lemma {:induction false} CachedForGood(moves: seq<(Tid, Move)>, more: seq<(Tid, Move)>)
    requires Run(INIT, moves).cached.Some?
    ensures Run(INIT, moves + more).cached == Run(INIT, moves).cached
  {
    if more == [] {
      assert moves + more == moves;
    } else {
      var n := |more| - 1;
      assert (moves + more)[..|moves + more| - 1] == moves + more[..n];
      CachedForGood(moves, more[..n]);
      InvRun(moves + more[..n]);
    }
  }

  /**
   A failed resolution stores nothing and frees the lock, so the next caller can lock,
   resolve and return, whoever it is.
   */
  lemma FailureAllowsRetry(moves: seq<(Tid, Move)>, t: Tid, u: Tid, id: UserId)
    requires At(Run(INIT, moves), t) == Resolving
    requires u == t || At(Run(INIT, moves), u) in {Outside, WantLock}
    ensures var s := Step(Run(INIT, moves), t, Failed);
            s.cached == None && s.holder == None
            && var want := if At(s, u) == Outside then Step(s, u, Proceed) else s;
               var resolving := Step(Step(want, u, Proceed), u, Proceed);
               At(resolving, u) == Resolving
               && Step(Step(resolving, u, Resolved(id)), u, Proceed).returned == s.returned + [Some(id)]
  {
    InvRun(moves);
  }

  /** A caller that comes when the id is cached gets it without the lock, whoever holds that. */
  lemma CachedNeedsNoLock(s: State, t: Tid)
    requires At(s, t) == Outside && s.cached.Some?
    ensures var s' := Step(Step(s, t, Proceed), t, Proceed);
            At(s', t) == Outside && s'.returned == s.returned + [s.cached]
            && s'.holder == s.holder && s'.cached == s.cached && s'.stores == s.stores
  {
  }
}
