/**
 The dynamically built statements of `repository.py`: fragments with positional
 placeholders, and what they mean once the parameters are bound in order.
 */
module Sql {
  import opened Wrappers
  import opened Table
  import opened DeltaPage
  import opened Store
  import Codec

  datatype Value =
    | Missing
    | Num(n: int)
    | Key(id: Id)
    | Str(text: Text)
    | Flag(set_: bool)
    | State(status: Status)
    | Doc(link: Link)

  datatype Column =
    | TaskId | TaskListId | UserId | Title | Detail | LastModified | StatusCol | Importance
    | DueTime | CompletedTime | SortCol | Links | IsDeleted

  function FromOption<T>(o: Option<T>, f: T -> Value): Value {
    if o.Some? then f(o.value) else Missing
  }

  /** The value of a column; `Missing` is SQL's NULL. */
  function Read(item: Item<TaskData>, col: Column): Value {
    var d := item.row.data;
    match col
    case TaskId => Key(item.id)
    case TaskListId => FromOption(d.listId, i => Key(i))
    case UserId => Num(item.row.userId)
    case Title => Str(d.title)
    case Detail => Str(d.detail)
    case LastModified => Num(item.row.lastModified)
    case StatusCol => State(d.status)
    case Importance => FromOption(d.importance, n => Num(n))
    case DueTime => Num(d.due)
    case CompletedTime => Num(d.completedTime)
    case SortCol => FromOption(d.sort, n => Num(n))
    case Links => FromOption(d.links, l => Doc(l))
    case IsDeleted => Flag(item.row.isDeleted)
  }

  /** `col = value` in a SET list; a value of the wrong type leaves the row alone. */
  function Assign(row: Row<TaskData>, col: Column, v: Value): Row<TaskData> {
    var d := row.data;
    match (col, v)
    case (TaskListId, Key(i)) => row.(data := d.(listId := Some(i)))
    case (TaskListId, Missing) => row.(data := d.(listId := None))
    case (Title, Str(t)) => row.(data := d.(title := t))
    case (Detail, Str(t)) => row.(data := d.(detail := t))
    case (LastModified, Num(n)) => row.(lastModified := n)
    case (StatusCol, State(s)) => row.(data := d.(status := s))
    case (Importance, Num(n)) => row.(data := d.(importance := Some(n)))
    case (Importance, Missing) => row.(data := d.(importance := None))
    case (DueTime, Num(n)) => row.(data := d.(due := n))
    case (CompletedTime, Num(n)) => row.(data := d.(completedTime := n))
    case (SortCol, Num(n)) => row.(data := d.(sort := Some(n)))
    case (Links, Doc(l)) => row.(data := d.(links := Some(l)))
    case (Links, Missing) => row.(data := d.(links := None))
    case (IsDeleted, Flag(b)) => row.(isDeleted := b)
    case _ => row
  }

  // ----- WHERE ---------------------------------------------------------------------

  datatype Op = Eq | Ge | Le | Gt

  /** One clause string of the source. `Param` has one `%s`, `Both` those of its parts. */
  datatype Clause =
    | Param(col: Column, op: Op)
    | Literal(col: Column, value: Value)
    | IsNull(col: Column)
    | Both(left: Clause, right: Clause)

  function Holes(c: Clause): nat {
    match c
    case Param(_, _) => 1
    case Literal(_, _) => 0
    case IsNull(_) => 0
    case Both(l, r) => Holes(l) + Holes(r)
  }

  function AllHoles(cs: seq<Clause>): nat {
    if cs == [] then 0 else Holes(cs[0]) + AllHoles(cs[1..])
  }

  /** A comparison with NULL is not true. */
  predicate Compare(a: Value, op: Op, b: Value) {
    if a.Missing? || b.Missing? then false
    else match op
      case Eq => a == b
      case Ge => a.Num? && b.Num? && a.n >= b.n
      case Le => a.Num? && b.Num? && a.n <= b.n
      case Gt => a.Key? && b.Key? && a.id > b.id
  }

  predicate Holds(c: Clause, params: seq<Value>, item: Item<TaskData>)
    requires |params| == Holes(c)
  {
    match c
    case Param(col, op) => Compare(Read(item, col), op, params[0])
    case Literal(col, v) => Compare(Read(item, col), Eq, v)
    case IsNull(col) => Read(item, col).Missing?
    case Both(l, r) => Holds(l, params[..Holes(l)], item) && Holds(r, params[Holes(l)..], item)
  }

  /** `" AND ".join(clauses)`, the parameters taken from left to right. */
  predicate Where(cs: seq<Clause>, params: seq<Value>, item: Item<TaskData>)
    requires |params| == AllHoles(cs)
  {
    cs == [] || (Holds(cs[0], params[..Holes(cs[0])], item) && Where(cs[1..], params[Holes(cs[0])..], item))
  }

  lemma {:induction false} HolesSnoc(cs: seq<Clause>, c: Clause)
    ensures AllHoles(cs + [c]) == AllHoles(cs) + Holes(c)
  {
    if cs == [] {
      assert cs + [c] == [c];
    } else {
      assert (cs + [c])[1..] == cs[1..] + [c];
      HolesSnoc(cs[1..], c);
    }
  }

  /** Appending a clause and its parameters narrows the answer by that clause. */
  lemma {:induction false} WhereSnoc(cs: seq<Clause>, params: seq<Value>, c: Clause, more: seq<Value>,
      item: Item<TaskData>)
    requires |params| == AllHoles(cs) && |more| == Holes(c)
    ensures AllHoles(cs + [c]) == AllHoles(cs) + Holes(c)
    ensures Where(cs + [c], params + more, item) <==> Where(cs, params, item) && Holds(c, more, item)
  {
    if cs == [] {
      assert cs + [c] == [c];
      assert params + more == more && more[..Holes(c)] == more && more[Holes(c)..] == [];
    } else {
      var k := Holes(cs[0]);
      assert (cs + [c])[1..] == cs[1..] + [c];
      assert (params + more)[..k] == params[..k] && (params + more)[k..] == params[k..] + more;
      WhereSnoc(cs[1..], params[k..], c, more, item);
    }
  }

  /** The clauses built so far, with their parameters, mean `meaning`. */
  ghost predicate Means(cs: seq<Clause>, params: seq<Value>, meaning: Item<TaskData> -> bool) {
    |params| == AllHoles(cs) && forall item :: Where(cs, params, item) <==> meaning(item)
  }

  lemma MeansSnoc(cs: seq<Clause>, params: seq<Value>, meaning: Item<TaskData> -> bool,
                  c: Clause, more: seq<Value>, narrower: Item<TaskData> -> bool)
    requires Means(cs, params, meaning) && |more| == Holes(c)
    requires forall item :: narrower(item) <==> meaning(item) && Holds(c, more, item)
    ensures Means(cs + [c], params + more, narrower)
  {
    HolesSnoc(cs, c);
    forall item ensures Where(cs + [c], params + more, item) <==> narrower(item) {
      WhereSnoc(cs, params, c, more, item);
    }
  }

  /**
   The rows that a call asks for: the user's; those of the Inbox, of one list, or all; with
   `since` those stamped from then until now, otherwise the ones not deleted, and only the
   open ones if completed ones are not wanted.
   */
  ghost predicate Requested(uid: UserId, since: Option<int>, now: int, inboxOnly: bool, listId: Option<Id>,
      includeCompleted: bool, item: Item<TaskData>)
  {
    && item.row.userId == uid
    && (if inboxOnly then item.row.data.listId == None
        else match listId case Some(l) => item.row.data.listId == Some(l) case None => true)
    && (match since
        case Some(from) => from <= item.row.lastModified <= now
        case None => !item.row.isDeleted && (item.row.data.status == Completed ==> includeCompleted))
  }

  /** The list filter of a request. */
  predicate InScope(inboxOnly: bool, listId: Option<Id>, d: TaskData) {
    if inboxOnly then d.listId.None? else listId.None? || d.listId == listId
  }

  function Scope(inboxOnly: bool, listId: Option<Id>): TaskData -> bool {
    (d: TaskData) => InScope(inboxOnly, listId, d)
  }

  /** The rows a call of `list_tasks` is about. */
  function Wanted(uid: UserId, since: Option<int>, now: int, inboxOnly: bool, listId: Option<Id>,
      includeCompleted: bool)
    : Item<TaskData> -> bool
  {
    (item: Item<TaskData>) =>
      item.row.userId == uid
      && (if since.Some? then since.value <= item.row.lastModified <= now
          else !item.row.isDeleted && (includeCompleted || item.row.data.status == NeedsAction))
      && InScope(inboxOnly, listId, item.row.data)
  }

  /** The filter a list query adds to whatever was asked so far. */
  function Scoped(meaning: Item<TaskData> -> bool, inboxOnly: bool, listId: Option<Id>): Item<TaskData> -> bool {
    (item: Item<TaskData>) => meaning(item) && InScope(inboxOnly, listId, item.row.data)
  }

  method AppendScope(cs: seq<Clause>, ps: seq<Value>, ghost meaning: Item<TaskData> -> bool,
                     inboxOnly: bool, listId: Option<Id>)
    returns (clauses: seq<Clause>, params: seq<Value>)
    requires Means(cs, ps, meaning)
    ensures Means(clauses, params, Scoped(meaning, inboxOnly, listId))
  {
    clauses, params := cs, ps;
    if inboxOnly {
      MeansSnoc(clauses, params, meaning, IsNull(TaskListId), [], Scoped(meaning, inboxOnly, listId));
      assert params + [] == params;
      clauses := clauses + [IsNull(TaskListId)];
    } else if listId.Some? {
      MeansSnoc(clauses, params, meaning, Param(TaskListId, Eq), [Key(listId.value)],
                Scoped(meaning, inboxOnly, listId));
      clauses := clauses + [Param(TaskListId, Eq)];
      params := params + [Key(listId.value)];
    }
  }

  /** The part of the page query before the list filter. */
  method BuildWindow(uid: UserId, since: Option<int>, now: int, includeCompleted: bool)
    returns (clauses: seq<Clause>, params: seq<Value>)
    ensures Means(clauses, params, Wanted(uid, since, now, false, None, includeCompleted))
  {
    clauses := [Param(UserId, Eq)];
    params := [Num(uid)];
    ghost var mine := (item: Item<TaskData>) => item.row.userId == uid;
    ghost var wanted := Wanted(uid, since, now, false, None, includeCompleted);
    MeansSnoc([], [], (_: Item<TaskData>) => true, Param(UserId, Eq), [Num(uid)], mine);
    assert [] + [Param(UserId, Eq)] == clauses && [] + [Num(uid)] == params;
    if since.Some? {
      var window := Both(Param(LastModified, Ge), Param(LastModified, Le));
      MeansSnoc(clauses, params, mine, window, [Num(since.value), Num(now)], wanted);
      clauses := clauses + [window];
      params := params + [Num(since.value), Num(now)];
    } else {
      ghost var active := (item: Item<TaskData>) => item.row.userId == uid && !item.row.isDeleted;
      MeansSnoc(clauses, params, mine, Literal(IsDeleted, Flag(false)), [], active);
      clauses := clauses + [Literal(IsDeleted, Flag(false))];
      assert params + [] == params;
      if !includeCompleted {
        MeansSnoc(clauses, params, active, Literal(StatusCol, State(NeedsAction)), [], wanted);
        clauses := clauses + [Literal(StatusCol, State(NeedsAction))];
      }
    }
  }

  lemma MeansSame(cs: seq<Clause>, params: seq<Value>, a: Item<TaskData> -> bool, b: Item<TaskData> -> bool)
    requires Means(cs, params, a) && forall item :: a(item) <==> b(item)
    ensures Means(cs, params, b)
  {
  }

  /** The clauses and parameters of the page query; the limit is the last parameter. */
  method BuildPageQuery(uid: UserId, since: Option<int>, now: int, inboxOnly: bool, listId: Option<Id>,
                        includeCompleted: bool, limit: nat)
    returns (clauses: seq<Clause>, params: seq<Value>)
    ensures |params| == AllHoles(clauses) + 1 && params[|params| - 1] == Num(limit)
    ensures Means(clauses, params[..|params| - 1], Wanted(uid, since, now, inboxOnly, listId, includeCompleted))
    ensures forall item ::
              Where(clauses, params[..|params| - 1], item)
              <==> Requested(uid, since, now, inboxOnly, listId, includeCompleted, item)
  {
    clauses, params := BuildWindow(uid, since, now, includeCompleted);
    ghost var window := Wanted(uid, since, now, false, None, includeCompleted);
    clauses, params := AppendScope(clauses, params, window, inboxOnly, listId);
    MeansSame(clauses, params, Scoped(window, inboxOnly, listId),
              Wanted(uid, since, now, inboxOnly, listId, includeCompleted));
    ghost var bound := params;
    params := params + [Num(limit)];
    assert params[..|params| - 1] == bound;
  }

  method BuildDrainQuery(uid: UserId, boundary: int, after: Id, inboxOnly: bool, listId: Option<Id>)
    returns (clauses: seq<Clause>, params: seq<Value>)
    ensures |params| == AllHoles(clauses)
    ensures Means(clauses, params, InDrain(uid, boundary, after, Scope(inboxOnly, listId)))
    ensures forall item ::
              Where(clauses, params, item)
              <==> Requested(uid, Some(boundary), boundary, inboxOnly, listId, true, item) && item.id > after
  {
    clauses := [Param(UserId, Eq), Param(LastModified, Eq), Param(TaskId, Gt)];
    params := [Num(uid), Num(boundary), Key(after)];
    ghost var rest := InDrain(uid, boundary, after, (_: TaskData) => true);
    DrainBase(uid, boundary, after);
    clauses, params := AppendScope(clauses, params, rest, inboxOnly, listId);
    MeansSame(clauses, params, Scoped(rest, inboxOnly, listId),
              InDrain(uid, boundary, after, Scope(inboxOnly, listId)));
  }

  lemma DrainBase(uid: UserId, boundary: int, after: Id)
    ensures Means([Param(UserId, Eq), Param(LastModified, Eq), Param(TaskId, Gt)],
                  [Num(uid), Num(boundary), Key(after)],
                  InDrain(uid, boundary, after, (_: TaskData) => true))
  {
    var m1 := (item: Item<TaskData>) => item.row.userId == uid;
    var m2 := (item: Item<TaskData>) => item.row.userId == uid && item.row.lastModified == boundary;
    var c1, c2 := [Param(UserId, Eq)], [Param(UserId, Eq), Param(LastModified, Eq)];
    var p1, p2 := [Num(uid)], [Num(uid), Num(boundary)];
    MeansSnoc([], [], (_: Item<TaskData>) => true, Param(UserId, Eq), [Num(uid)], m1);
    assert [] + c1 == c1 && [] + p1 == p1;
    MeansSnoc(c1, p1, m1, Param(LastModified, Eq), [Num(boundary)], m2);
    assert c1 + [Param(LastModified, Eq)] == c2 && p1 + [Num(boundary)] == p2;
    MeansSnoc(c2, p2, m2, Param(TaskId, Gt), [Key(after)], InDrain(uid, boundary, after, (_: TaskData) => true));
    assert c2 + [Param(TaskId, Gt)] == [Param(UserId, Eq), Param(LastModified, Eq), Param(TaskId, Gt)];
    assert p2 + [Key(after)] == [Num(uid), Num(boundary), Key(after)];
  }

  /** The drain asks for the rest of the page's own window at the boundary, and nothing else. */
  lemma DrainStaysInWindow(uid: UserId, since: int, now: int, boundary: int, after: Id, inboxOnly: bool,
                           listId: Option<Id>, includeCompleted: bool, item: Item<TaskData>)
    requires since <= boundary <= now
    ensures InDrain(uid, boundary, after, Scope(inboxOnly, listId))(item) <==>
            Wanted(uid, Some(since), now, inboxOnly, listId, includeCompleted)(item)
            && item.row.lastModified == boundary && item.id > after
  {
    assert Scope(inboxOnly, listId)(item.row.data) <==> InScope(inboxOnly, listId, item.row.data);
  }

  /** Executing a built SELECT: its answer is determined by what the clauses mean. */
  function ExecSelect(table: Table<TaskData>, cs: seq<Clause>, params: seq<Value>): seq<Item<TaskData>>
    requires |params| == AllHoles(cs)
  {
    Select(table, item => |params| == AllHoles(cs) && Where(cs, params, item))
  }

  lemma SelectMeans(table: Table<TaskData>, cs: seq<Clause>, params: seq<Value>, meaning: Item<TaskData> -> bool)
    requires Means(cs, params, meaning)
    ensures ExecSelect(table, cs, params) == Select(table, meaning)
  {
    SortedIsUnique(ExecSelect(table, cs, params), Select(table, meaning));
  }

  // ----- UPDATE ---------------------------------------------------------------------

  /** `col = %s, ...`, the parameters taken from left to right. */
  function AssignAll(sets: seq<Column>, params: seq<Value>, row: Row<TaskData>): Row<TaskData>
    requires |params| == |sets|
  {
    if sets == [] then row
    else Assign(AssignAll(sets[..|sets| - 1], params[..|sets| - 1], row), sets[|sets| - 1], params[|sets| - 1])
  }

  lemma AssignSnoc(sets: seq<Column>, params: seq<Value>, col: Column, v: Value)
    requires |params| == |sets|
    ensures forall row :: AssignAll(sets + [col], params + [v], row) == Assign(AssignAll(sets, params, row), col, v)
  {
    assert (sets + [col])[..|sets|] == sets && (params + [v])[..|sets|] == params;
  }

  /** The fragments built so far do what the fields looked at so far ask for. */
  ghost predicate Builds(sets: seq<Column>, params: seq<Value>, seen: Patch, statusNow: int) {
    |params| == |sets| && (sets == [] <==> NoEffect(seen))
    && forall row :: AssignAll(sets, params, row) == Patched(seen, statusNow, row)
  }

  lemma BuildsSnoc(sets: seq<Column>, params: seq<Value>, seen: Patch, statusNow: int, col: Column, v: Value,
      more: Patch)
    requires Builds(sets, params, seen, statusNow) && !NoEffect(more)
    requires forall row :: Assign(Patched(seen, statusNow, row), col, v) == Patched(more, statusNow, row)
    ensures Builds(sets + [col], params + [v], more, statusNow)
  {
    AssignSnoc(sets, params, col, v);
  }

  /** Bound to their parameters the fragments store what the update asks for, and nothing else. */
  ghost predicate StoresColumns(sets: seq<Column>, params: seq<Value>, p: Patch, statusNow: int, row: Row<TaskData>) {
    |params| == |sets|
    && var after := AssignAll(sets, params, row);
       after == row.(data := after.data) && StoresPatch(p, statusNow, row.data, after.data)
  }

  method BuildSets(p: Patch, statusNow: int) returns (sets: seq<Column>, params: seq<Value>)
    ensures Builds(sets, params, p, statusNow)
    ensures forall row :: StoresColumns(sets, params, p, statusNow, row)
  {
    sets, params := AppendTexts(p, statusNow);
    ghost var seen := EMPTY_PATCH.(title := p.title, detail := p.detail);
    sets, params := AppendStatus(p, statusNow, sets, params, seen);
    seen := seen.(status := p.status);
    sets, params := AppendImportance(p, statusNow, sets, params, seen);
    seen := seen.(importance := p.importance);
    sets, params := AppendDue(p, statusNow, sets, params, seen);
    seen := seen.(due := p.due);
    sets, params := AppendSort(p, statusNow, sets, params, seen);
    seen := seen.(sort := p.sort);
    sets, params := AppendList(p, statusNow, sets, params, seen);
    seen := seen.(listId := p.listId);
    sets, params := AppendLink(p, statusNow, sets, params, seen);
    forall row ensures StoresColumns(sets, params, p, statusNow, row) {
      PatchStored(p, statusNow, row);
    }
  }

  /** The SET part of an update: nothing at all, or the fields and the stamp. */
  method BuildUpdate(p: Patch, statusNow: int, now: int) returns (sets: seq<Column>, params: seq<Value>)
    ensures |params| == |sets| && (sets == [] <==> NoEffect(p))
    ensures sets != [] ==> forall row :: AssignAll(sets, params, row) == Updated(p, statusNow, now, row)
  {
    sets, params := BuildSets(p, statusNow);
    if sets == [] {
      return;
    }
    AssignSnoc(sets, params, LastModified, Num(now));
    sets := sets + [LastModified];
    params := params + [Num(now)];
  }

  method AppendTexts(p: Patch, statusNow: int) returns (sets: seq<Column>, params: seq<Value>)
    ensures Builds(sets, params, EMPTY_PATCH.(title := p.title, detail := p.detail), statusNow)
  {
    sets, params := [], [];
    ghost var seen := EMPTY_PATCH.(title := p.title);
    if p.title.Given? {
      var title := Codec.EncodeEmoji(p.title.value);
      BuildsSnoc(sets, params, EMPTY_PATCH, statusNow, Title, Str(title), seen);
      sets := sets + [Title];
      params := params + [Str(title)];
    }
    if p.detail.Given? {
      var detail := Codec.EncodeDetail(p.detail.value);
      BuildsSnoc(sets, params, seen, statusNow, Detail, Str(detail), seen.(detail := p.detail));
      sets := sets + [Detail];
      params := params + [Str(detail)];
    }
  }

  /** A status is written together with its completion time. */
  lemma StatusRow(seen: Patch, status: Status, statusNow: int, row: Row<TaskData>)
    requires seen.status.Omitted?
    ensures Assign(Assign(Patched(seen, statusNow, row), StatusCol, State(status)),
                   CompletedTime, Num(if status == Completed then statusNow else 0))
            == Patched(seen.(status := Given(status)), statusNow, row)
  {
  }

  method AppendStatus(p: Patch, statusNow: int, sets0: seq<Column>, params0: seq<Value>, ghost seen: Patch)
    returns (sets: seq<Column>, params: seq<Value>)
    requires Builds(sets0, params0, seen, statusNow) && seen.status.Omitted?
    ensures Builds(sets, params, seen.(status := p.status), statusNow)
  {
    sets, params := sets0, params0;
    if p.status.Given? {
      var completed := Num(if p.status.value == Completed then statusNow else 0);
      AssignSnoc(sets, params, StatusCol, State(p.status.value));
      AssignSnoc(sets + [StatusCol], params + [State(p.status.value)], CompletedTime, completed);
      forall row {
        StatusRow(seen, p.status.value, statusNow, row);
      }
      sets := sets + [StatusCol];
      params := params + [State(p.status.value)];
      sets := sets + [CompletedTime];
      params := params + [completed];
    }
  }

  method AppendImportance(p: Patch, statusNow: int, sets0: seq<Column>, params0: seq<Value>, ghost seen: Patch)
    returns (sets: seq<Column>, params: seq<Value>)
    requires Builds(sets0, params0, seen, statusNow) && seen.importance.Omitted?
    ensures Builds(sets, params, seen.(importance := p.importance), statusNow)
  {
    sets, params := sets0, params0;
    if !p.importance.Omitted? {
      var v := if p.importance.Given? then Num(p.importance.value) else Missing;
      BuildsSnoc(sets, params, seen, statusNow, Importance, v, seen.(importance := p.importance));
      sets := sets + [Importance];
      params := params + [v];
    }
  }

  method AppendDue(p: Patch, statusNow: int, sets0: seq<Column>, params0: seq<Value>, ghost seen: Patch)
    returns (sets: seq<Column>, params: seq<Value>)
    requires Builds(sets0, params0, seen, statusNow) && seen.due.Omitted?
    ensures Builds(sets, params, seen.(due := p.due), statusNow)
  {
    sets, params := sets0, params0;
    if !p.due.Omitted? {
      var v := Num(if p.due.Given? then p.due.value else 0);
      BuildsSnoc(sets, params, seen, statusNow, DueTime, v, seen.(due := p.due));
      sets := sets + [DueTime];
      params := params + [v];
    }
  }

  method AppendSort(p: Patch, statusNow: int, sets0: seq<Column>, params0: seq<Value>, ghost seen: Patch)
    returns (sets: seq<Column>, params: seq<Value>)
    requires Builds(sets0, params0, seen, statusNow) && seen.sort.Omitted?
    ensures Builds(sets, params, seen.(sort := p.sort), statusNow)
  {
    sets, params := sets0, params0;
    if p.sort.Given? {
      BuildsSnoc(sets, params, seen, statusNow, SortCol, Num(p.sort.value), seen.(sort := p.sort));
      sets := sets + [SortCol];
      params := params + [Num(p.sort.value)];
    }
  }

  method AppendList(p: Patch, statusNow: int, sets0: seq<Column>, params0: seq<Value>, ghost seen: Patch)
    returns (sets: seq<Column>, params: seq<Value>)
    requires Builds(sets0, params0, seen, statusNow) && seen.listId.Omitted?
    ensures Builds(sets, params, seen.(listId := p.listId), statusNow)
  {
    sets, params := sets0, params0;
    if !p.listId.Omitted? {
      var v := if p.listId.Given? then Key(p.listId.value) else Missing;
      BuildsSnoc(sets, params, seen, statusNow, TaskListId, v, seen.(listId := p.listId));
      sets := sets + [TaskListId];
      params := params + [v];
    }
  }

  method AppendLink(p: Patch, statusNow: int, sets0: seq<Column>, params0: seq<Value>, ghost seen: Patch)
    returns (sets: seq<Column>, params: seq<Value>)
    requires Builds(sets0, params0, seen, statusNow) && seen.link.Omitted?
    ensures Builds(sets, params, seen.(link := p.link), statusNow)
  {
    sets, params := sets0, params0;
    if !p.link.Omitted? {
      var v := if p.link.Given? then Doc(p.link.value) else Missing;
      BuildsSnoc(sets, params, seen, statusNow, Links, v, seen.(link := p.link));
      sets := sets + [Links];
      params := params + [v];
    }
  }

  /** The rows the WHERE of a write is about: one active row, at the supplied version if any. */
  function Target(uid: UserId, id: Id, expected: Option<int>): Item<TaskData> -> bool {
    (item: Item<TaskData>) =>
      item.id == id && item.row.userId == uid && !item.row.isDeleted
      && (expected.Some? ==> item.row.lastModified == expected.value)
  }

  const TARGET := Both(Both(Param(TaskId, Eq), Param(UserId, Eq)), Literal(IsDeleted, Flag(false)))

  lemma HoldsTarget(uid: UserId, id: Id, item: Item<TaskData>)
    ensures Holds(TARGET, [Key(id), Num(uid)], item) <==>
            item.id == id && item.row.userId == uid && !item.row.isDeleted
  {
    var params := [Key(id), Num(uid)];
    var ids := Both(Param(TaskId, Eq), Param(UserId, Eq));
    assert Holes(ids) == 2 && params[..2] == params && params[2..] == [];
    assert Holds(ids, params, item) <==> item.id == id && item.row.userId == uid;
  }

  /** `task_id = %s AND user_id = %s AND is_deleted = 'N' [AND last_modified = %s]` */
  method BuildTarget(uid: UserId, id: Id, expected: Option<int>) returns (clauses: seq<Clause>, params: seq<Value>)
    ensures Means(clauses, params, Target(uid, id, expected))
    ensures forall item ::
              Where(clauses, params, item)
              <==> item.id == id && item.row.userId == uid && !item.row.isDeleted
                   && (expected.Some? ==> item.row.lastModified == expected.value)
  {
    clauses := [TARGET];
    params := [Key(id), Num(uid)];
    ghost var meaning := Target(uid, id, None);
    assert Means(clauses, params, meaning) by {
      forall item ensures Holds(clauses[0], params, item) <==> meaning(item) {
        HoldsTarget(uid, id, item);
      }
      MeansSnoc([], [], (_: Item<TaskData>) => true, clauses[0], params, meaning);
      assert [] + [clauses[0]] == clauses && [] + params == params;
    }
    if expected.Some? {
      MeansSnoc(clauses, params, meaning, Param(LastModified, Eq), [Num(expected.value)], Target(uid, id, expected));
      clauses := clauses + [Param(LastModified, Eq)];
      params := params + [Num(expected.value)];
    }
  }

  /** The rows an UPDATE finds. */
  function Found(table: Table<TaskData>, cs: seq<Clause>, params: seq<Value>): set<Id>
    requires |params| == AllHoles(cs)
  {
    set id | id in table && Where(cs, params, Item(id, table[id]))
  }

  /** `UPDATE ... SET sets WHERE clauses`: the SET parameters come first, the WHERE ones after them. */
  function ExecUpdate(table: Table<TaskData>, sets: seq<Column>, cs: seq<Clause>, params: seq<Value>): Table<TaskData>
    requires |params| == |sets| + AllHoles(cs)
  {
    map id | id in table ::
      if Where(cs, params[|sets|..], Item(id, table[id])) then AssignAll(sets, params[..|sets|], table[id])
      else table[id]
  }

  /** A built statement changes the one row it is about, as the record update asks, and no other. */
  lemma UpdateMeans(table: Table<TaskData>, sets: seq<Column>, setParams: seq<Value>, cs: seq<Clause>,
                    whereParams: seq<Value>, uid: UserId, id: Id, expected: Option<int>,
                    change: Row<TaskData> -> Row<TaskData>)
    requires |setParams| == |sets| && Means(cs, whereParams, Target(uid, id, expected))
    requires forall row :: AssignAll(sets, setParams, row) == change(row)
    ensures ExecUpdate(table, sets, cs, setParams + whereParams)
            == if Matches(table, uid, id, expected) then table[id := change(table[id])] else table
    ensures Found(table, cs, whereParams) == if Matches(table, uid, id, expected) then {id} else {}
  {
    var params := setParams + whereParams;
    assert params[..|sets|] == setParams && params[|sets|..] == whereParams;
  }
}
