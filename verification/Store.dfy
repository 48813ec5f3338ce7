/**
 The two tables of the service and what each write does to them, as the direct record
 update a reader of the API expects. Sql.dfy shows that the statements built by the
 source do just this.
 */
module Store {
  import opened Wrappers
  import opened Table
  import Codec

  type Text = Codec.Text
  type Link = string

  datatype Status = NeedsAction | Completed

  /** The columns of `t_schedule_task` beside the common ones; text columns hold encoded text. */
  datatype TaskData = TaskData(
    listId: Option<Id>, title: Text, detail: Text, status: Status, importance: Option<int>,
    due: int, completedTime: int, sort: Option<int>, links: Option<Link>)

  datatype ListData = ListData(title: Text)

  /** A request body; times are milliseconds already. */
  datatype NewTask = NewTask(
    listId: Option<Id>, title: Text, detail: Text, status: Status, importance: Option<int>,
    due: Option<int>, sort: Option<int>, link: Option<Link>)

  /** A field of a partial update: not sent, sent as null, or sent with a value. */
  datatype Field<+T> = Omitted | Null | Given(value: T)

  datatype Patch = Patch(
    title: Field<Text>, detail: Field<Text>, status: Field<Status>, importance: Field<int>,
    due: Field<int>, sort: Field<int>, listId: Field<Id>, link: Field<Link>)

  const EMPTY_PATCH := Patch(Omitted, Omitted, Omitted, Omitted, Omitted, Omitted, Omitted, Omitted)

  function StatusPatch(status: Status): Patch {
    EMPTY_PATCH.(status := Given(status))
  }

  /** No column would be written: title, detail, status and sort ignore null. */
  predicate NoEffect(p: Patch) {
    !p.title.Given? && !p.detail.Given? && !p.status.Given? && !p.sort.Given?
    && p.importance.Omitted? && p.due.Omitted? && p.listId.Omitted? && p.link.Omitted?
  }

  /** null keeps the column */
  function Kept<T>(f: Field<T>, current: T): T {
    if f.Given? then f.value else current
  }

  /** null clears the column */
  function Cleared<T>(f: Field<T>, current: Option<T>): Option<T> {
    match f
    case Omitted => current
    case Null => None
    case Given(v) => Some(v)
  }

  function EncodeDetail(d: Text): Text {
    Codec.Encode(d[..Codec.FitLength(d, Codec.DETAIL_MAX_LEN)])
  }

  /** The row a partial update asks for, before it is stamped. */
  function Patched(p: Patch, statusNow: int, row: Row<TaskData>): Row<TaskData> {
    var d := row.data;
    row.(data := TaskData(
      Cleared(p.listId, d.listId),
      if p.title.Given? then Codec.Encode(p.title.value) else d.title,
      if p.detail.Given? then EncodeDetail(p.detail.value) else d.detail,
      Kept(p.status, d.status),
      Cleared(p.importance, d.importance),
      (match p.due case Omitted => d.due case Null => 0 case Given(ms) => ms),
      if p.status.Given? then (if p.status.value == Completed then statusNow else 0) else d.completedTime,
      if p.sort.Given? then Some(p.sort.value) else d.sort,
      Cleared(p.link, d.links)))
  }

  function Stamped<T>(row: Row<T>, now: int): Row<T> {
    row.(lastModified := now)
  }

  /** The new version of a row that a partial update finds. */
  function Updated(p: Patch, statusNow: int, now: int, row: Row<TaskData>): Row<TaskData> {
    Stamped(Patched(p, statusNow, row), now)
  }

  /** `... AND is_deleted = 'N'`, and the version if one was supplied. */
  predicate Matches<T>(table: Table<T>, uid: UserId, id: Id, expected: Option<int>) {
    Active(table, uid, id) && (expected.Some? ==> table[id].lastModified == expected.value)
  }

  // ----- sort positions ------------------------------------------------------------

  /** `task_list_id <=> %s AND user_id = %s AND is_deleted = 'N'` */
  function InList(uid: UserId, listId: Option<Id>): Item<TaskData> -> bool {
    (item: Item<TaskData>) => item.row.data.listId == listId && item.row.userId == uid && !item.row.isDeleted
  }

  /** `MAX(sort)`, which skips NULLs. */
  function MaxSort(items: seq<Item<TaskData>>): (m: Option<int>)
    ensures forall item :: item in items && item.row.data.sort.Some? ==>
              m.Some? && item.row.data.sort.value <= m.value
    ensures m.Some? ==> exists item :: item in items && item.row.data.sort == m
  {
    if items == [] then None
    else
      var rest := MaxSort(items[1..]);
      var first := items[0].row.data.sort;
      assert forall item :: item in items <==> item == items[0] || item in items[1..];
      if first.None? || (rest.Some? && first.value <= rest.value) then rest else first
  }

  /** `COALESCE(MAX(sort), -1) + 1` */
  function NextSort(table: Table<TaskData>, uid: UserId, listId: Option<Id>): int {
    var m := MaxSort(Select(table, InList(uid, listId)));
    (if m.Some? then m.value else -1) + 1
  }

  // ----- operations ----------------------------------------------------------------

  datatype TaskOp =
    | CreateTask(id: Id, task: NewTask)
    | UpdateTask(id: Id, patch: Patch, expected: Option<int>)
    | DeleteTask(id: Id, expected: Option<int>)

  datatype ListOp =
    | CreateList(id: Id, title: Text)
    | RenameList(id: Id, title: Text, expected: Option<int>)
    | DeleteList(id: Id, expected: Option<int>)

  function NewRow(table: Table<TaskData>, uid: UserId, now: int, t: NewTask): Row<TaskData> {
    Row(uid, now, false, TaskData(
      t.listId, Codec.Encode(t.title), EncodeDetail(t.detail), t.status, t.importance,
      if t.due.Some? then t.due.value else 0,
      if t.status == Completed then now else 0,
      Some(if t.sort.Some? then t.sort.value else NextSort(table, uid, t.listId)),
      t.link))
  }

  /** The row an operation stores at time `now`, if any; an INSERT of a used key is refused. */
  function TaskEffect(table: Table<TaskData>, uid: UserId, now: int, op: TaskOp): Option<Item<TaskData>> {
    match op
    case CreateTask(id, t) => if id in table then None else Some(Item(id, NewRow(table, uid, now, t)))
    case UpdateTask(id, p, expected) =>
      if !NoEffect(p) && Matches(table, uid, id, expected)
      then Some(Item(id, Updated(p, now, now, table[id]))) else None
    case DeleteTask(id, expected) =>
      if Matches(table, uid, id, expected)
      then Some(Item(id, Stamped(table[id].(isDeleted := true), now))) else None
  }

  function ListEffect(table: Table<ListData>, uid: UserId, now: int, op: ListOp): Option<Item<ListData>> {
    match op
    case CreateList(id, title) =>
      if id in table then None else Some(Item(id, Row(uid, now, false, ListData(Codec.Encode(title)))))
    case RenameList(id, title, expected) =>
      if Matches(table, uid, id, expected)
      then Some(Item(id, Stamped(table[id].(data := ListData(Codec.Encode(title))), now))) else None
    case DeleteList(id, expected) =>
      if Matches(table, uid, id, expected)
      then Some(Item(id, Stamped(table[id].(isDeleted := true), now))) else None
  }

  function Put<T>(table: Table<T>, effect: Option<Item<T>>): Table<T> {
    if effect.None? then table else table[effect.value.id := effect.value.row]
  }

  // ----- what every write of the service respects --------------------------------------

  /** A new row of the user, or a new version of one of the user's undeleted rows, stamped `now`. */
  ghost predicate Lawful<T(!new)>(table: Table<T>, uid: UserId, now: int, effect: Option<Item<T>>) {
    effect.Some? ==>
      effect.value.row.userId == uid && effect.value.row.lastModified == now
      && (effect.value.id in table ==> Active(table, uid, effect.value.id))
  }

  lemma TaskEffectLawful(table: Table<TaskData>, uid: UserId, now: int, op: TaskOp)
    ensures Lawful(table, uid, now, TaskEffect(table, uid, now, op))
  {
  }

  lemma ListEffectLawful(table: Table<ListData>, uid: UserId, now: int, op: ListOp)
    ensures Lawful(table, uid, now, ListEffect(table, uid, now, op))
  {
  }

  // ----- what the writes store, column by column ---------------------------------------

  /** A title as stored: printed, fit for a 3-byte column, and read back as the one sent would be. */
  ghost predicate StoresTitle(sent: Text, stored: Text) {
    && stored == Codec.Encode(sent)
    && (forall i :: 0 <= i < |stored| ==> stored[i] <= 0xFFFF)
    && Codec.Decode(stored) == Codec.Decode(sent)
  }

  /** The first `k` characters fit the column once printed, and no more do. */
  ghost predicate LongestFit(sent: Text, k: nat) {
    k <= |sent| && |Codec.Encode(sent[..k])| <= 255
    && forall j :: k < j <= |sent| ==> |Codec.Encode(sent[..j])| > 255
  }

  ghost predicate StoresDetail(sent: Text, stored: Text) {
    exists k: nat :: LongestFit(sent, k) && |stored| <= 255 && StoresTitle(sent[..k], stored)
  }

  /**
   A partial update: given fields as sent, texts printed; null clears importance, list and
   link, sets due to 0, and leaves the others; what is omitted stays.
   */
  ghost predicate StoresPatch(p: Patch, statusNow: int, before: TaskData, after: TaskData) {
    && (if p.title.Given? then StoresTitle(p.title.value, after.title) else after.title == before.title)
    && (if p.detail.Given? then StoresDetail(p.detail.value, after.detail) else after.detail == before.detail)
    && (match p.status
        case Given(status) =>
          after.status == status && after.completedTime == if status == Completed then statusNow else 0
        case _ => after.status == before.status && after.completedTime == before.completedTime)
    && after.importance == (match p.importance
                            case Given(n) => Some(n) case Null => None case Omitted => before.importance)
    && after.due == (match p.due case Given(ms) => ms case Null => 0 case Omitted => before.due)
    && after.sort == (if p.sort.Given? then Some(p.sort.value) else before.sort)
    && after.listId == (match p.listId case Given(l) => Some(l) case Null => None case Omitted => before.listId)
    && after.links == (match p.link case Given(l) => Some(l) case Null => None case Omitted => before.links)
  }

  lemma TitleStored(sent: Text)
    ensures StoresTitle(sent, Codec.Encode(sent))
  {
    Codec.EncodedIsThreeByte(sent);
    Codec.EncodingIsInvisible(sent);
  }

  lemma DetailStored(sent: Text)
    ensures StoresDetail(sent, EncodeDetail(sent))
  {
    var k := Codec.FitLength(sent, Codec.DETAIL_MAX_LEN);
    forall j | 0 <= j <= |sent| ensures |Codec.Encode(sent[..j])| <= 255 <==> j <= k {
      Codec.FitLengthIsLongest(sent, Codec.DETAIL_MAX_LEN, j);
    }
    TitleStored(sent[..k]);
    assert LongestFit(sent, k);
  }

  /** The direct record update is the one asked for, and touches no other column. */
  lemma PatchStored(p: Patch, statusNow: int, row: Row<TaskData>)
    ensures StoresPatch(p, statusNow, row.data, Patched(p, statusNow, row).data)
    ensures Patched(p, statusNow, row) == row.(data := Patched(p, statusNow, row).data)
  {
    if p.title.Given? {
      TitleStored(p.title.value);
    }
    if p.detail.Given? {
      DetailStored(p.detail.value);
    }
  }

  /** An active task of the list that has a position. */
  predicate Placed(table: Table<TaskData>, uid: UserId, listId: Option<Id>, id: Id) {
    Active(table, uid, id) && table[id].data.listId == listId && table[id].data.sort.Some?
  }

  /** A position beyond every one taken in the list, and next to one of them, or 0 in a list without any. */
  ghost predicate NextPlace(table: Table<TaskData>, uid: UserId, listId: Option<Id>, place: int) {
    && (forall id: Id :: Placed(table, uid, listId, id) ==> table[id].data.sort.value < place)
    && ((place == 0 && forall id: Id :: !Placed(table, uid, listId, id))
        || exists id: Id :: Placed(table, uid, listId, id) && table[id].data.sort.value == place - 1)
  }

  ghost predicate StoresNew(table: Table<TaskData>, uid: UserId, now: int, t: NewTask, d: TaskData) {
    && StoresTitle(t.title, d.title) && StoresDetail(t.detail, d.detail)
    && d.listId == t.listId && d.status == t.status && d.importance == t.importance && d.links == t.link
    && d.due == (if t.due.Some? then t.due.value else 0)
    && d.completedTime == (if t.status == Completed then now else 0)
    && d.sort.Some?
    && (if t.sort.Some? then d.sort == t.sort else NextPlace(table, uid, t.listId, d.sort.value))
  }

  lemma NextSortPlaces(table: Table<TaskData>, uid: UserId, listId: Option<Id>)
    ensures NextPlace(table, uid, listId, NextSort(table, uid, listId))
  {
    var siblings := Select(table, InList(uid, listId));
    forall id: Id | Placed(table, uid, listId, id)
      ensures table[id].data.sort.value < NextSort(table, uid, listId) && MaxSort(siblings).Some?
    {
      assert Item(id, table[id]) in siblings;
    }
    if MaxSort(siblings).Some? {
      var item :| item in siblings && item.row.data.sort == MaxSort(siblings);
      assert Placed(table, uid, listId, item.id);
    }
  }

  lemma NewStored(table: Table<TaskData>, uid: UserId, now: int, t: NewTask)
    ensures StoresNew(table, uid, now, t, NewRow(table, uid, now, t).data)
    ensures NewRow(table, uid, now, t) == Row(uid, now, false, NewRow(table, uid, now, t).data)
  {
    TitleStored(t.title);
    DetailStored(t.detail);
    NextSortPlaces(table, uid, t.listId);
  }
}
