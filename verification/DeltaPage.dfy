/**
 One page of incremental sync: the LIMIT query, the drain query that follows a full page
 sitting on one millisecond, the next cursor and the `has_more` flag.
 */
module DeltaPage {
  import opened Wrappers
  import opened Table

  const DEFAULT_PAGE_LIMIT := 500
  const MAX_PAGE_LIMIT := 1000

  function ClampLimit(limit: Option<int>): (n: nat)
    ensures 1 <= n <= 1000
    ensures limit.Some? && 1 <= limit.value <= 1000 ==> n == limit.value
    ensures limit.Some? && limit.value < 1 ==> n == 1
    ensures limit.Some? && limit.value > 1000 ==> n == 1000
    ensures limit.None? ==> n == 500
  {
    match limit
    case None => DEFAULT_PAGE_LIMIT
    case Some(l) =>
      var capped := if l < MAX_PAGE_LIMIT then l else MAX_PAGE_LIMIT;
      if 1 < capped then capped else 1
  }

  datatype Page<T> = Page(items: seq<Item<T>>, cursor: int, hasMore: bool)

  /** Rows of one user with `since <= last_modified <= now` that pass the caller's filter. */
  function InWindow<T(!new)>(uid: UserId, since: int, now: int, scope: T -> bool): Item<T> -> bool {
    (item: Item<T>) => item.row.userId == uid && since <= item.row.lastModified <= now && scope(item.row.data)
  }

  /** Rows of one user at one millisecond, after a given id, that pass the same filter. */
  function InDrain<T(!new)>(uid: UserId, boundary: int, after: Id, scope: T -> bool): Item<T> -> bool {
    (item: Item<T>) =>
      item.row.userId == uid && item.row.lastModified == boundary && item.id > after && scope(item.row.data)
  }

  predicate IsFullPage<T(!new)>(items: seq<Item<T>>, limit: nat) {
    |items| == limit && items != []
  }

  predicate IsSingleMsFullPage<T(!new)>(items: seq<Item<T>>, limit: nat) {
    |items| == limit && items != [] && items[0].row.lastModified == items[|items| - 1].row.lastModified
  }

  function PageCursor<T(!new)>(items: seq<Item<T>>, limit: nat, now: int): int {
    if |items| == limit && items != [] then items[|items| - 1].row.lastModified else now
  }

  function Last<T(!new)>(items: seq<Item<T>>): Item<T>
    requires items != []
  {
    items[|items| - 1]
  }

  function FirstQuery<T(!new)>(table: Table<T>, uid: UserId, since: int, now: int, scope: T -> bool, limit: nat)
    : seq<Item<T>>
  {
    Limit(Select(table, InWindow(uid, since, now, scope)), limit)
  }

  /** The drain query; at one millisecond, ordering by id is the table's order. */
  function DrainQuery<T(!new)>(table: Table<T>, uid: UserId, page: seq<Item<T>>, scope: T -> bool): seq<Item<T>>
    requires page != []
  {
    Select(table, InDrain(uid, Last(page).row.lastModified, Last(page).id, scope))
  }

  /** A delta call, both queries on one snapshot of the table. */
  function Delta<T(!new)>(table: Table<T>, uid: UserId, since: int, now: int, scope: T -> bool, limit: nat): Page<T> {
    var items := FirstQuery(table, uid, since, now, scope, limit);
    if IsSingleMsFullPage(items, limit) then
      Page(items + DrainQuery(table, uid, items, scope), Last(items).row.lastModified + 1, false)
    else
      Page(items, PageCursor(items, limit, now), IsFullPage(items, limit))
  }

  // ----- the one-pass reference --------------------------------------------------------

  function At<T(!new)>(items: seq<Item<T>>, boundary: int): seq<Item<T>> {
    if items == [] then []
    else (if items[0].row.lastModified == boundary then [items[0]] else []) + At(items[1..], boundary)
  }

  /** The in-memory repository: sort once, cut, and extend the cut through its millisecond. */
  function OnePass<T(!new)>(table: Table<T>, uid: UserId, since: int, now: int, scope: T -> bool, limit: nat): Page<T>
    requires limit >= 1
  {
    var all := Select(table, InWindow(uid, since, now, scope));
    var page := Limit(all, limit);
    if |page| == limit && page[0].row.lastModified == Last(page).row.lastModified then
      var boundary := Last(page).row.lastModified;
      Page(page + At(all[limit..], boundary), boundary + 1, false)
    else if |page| == limit then Page(page, Last(page).row.lastModified, true)
    else Page(page, now, false)
  }

  lemma {:induction false} AtSpec<T(!new)>(items: seq<Item<T>>, boundary: int)
    requires Sorted(items)
    ensures Sorted(At(items, boundary))
    ensures forall item :: item in At(items, boundary) <==> item in items && item.row.lastModified == boundary
  {
    if items == [] {
    } else {
      AtSpec(items[1..], boundary);
      assert items == [items[0]] + items[1..];
    }
  }

  /** The rows after the cut at the boundary millisecond are what the drain query asks for. */
  lemma DrainIsTheRest<T(!new)>(table: Table<T>, uid: UserId, since: int, now: int, scope: T -> bool, limit: nat)
    requires limit >= 1
    requires IsSingleMsFullPage(FirstQuery(table, uid, since, now, scope, limit), limit)
    ensures var all := Select(table, InWindow(uid, since, now, scope));
            var page := FirstQuery(table, uid, since, now, scope, limit);
            limit <= |all| && page == all[..limit]
            && DrainQuery(table, uid, page, scope) == At(all[limit..], Last(page).row.lastModified)
  {
    var all := Select(table, InWindow(uid, since, now, scope));
    var page := FirstQuery(table, uid, since, now, scope, limit);
    assert page == all[..limit] && Last(page) == all[limit - 1] && Last(page) in all;
    var drained := DrainQuery(table, uid, page, scope);
    var rest := At(all[limit..], Last(page).row.lastModified);
    AtSpec(all[limit..], Last(page).row.lastModified);
    forall item ensures item in drained <==> item in rest {
      AfterCut(all, limit, item);
    }
    SortedIsUnique(drained, rest);
  }

  /** Two queries and one pass agree on every table and every call. */
  lemma DrainRefinesOnePass<T(!new)>(table: Table<T>, uid: UserId, since: int, now: int, scope: T -> bool, limit: nat)
    requires limit >= 1
    ensures Delta(table, uid, since, now, scope, limit) == OnePass(table, uid, since, now, scope, limit)
  {
    if IsSingleMsFullPage(FirstQuery(table, uid, since, now, scope, limit), limit) {
      DrainIsTheRest(table, uid, since, now, scope, limit);
    }
  }

  lemma {:induction false} AtIsPrefix<T(!new)>(items: seq<Item<T>>, boundary: int) returns (k: nat)
    requires Sorted(items) && forall i :: 0 <= i < |items| ==> items[i].row.lastModified >= boundary
    ensures k <= |items| && At(items, boundary) == items[..k]
    ensures forall i :: k <= i < |items| ==> items[i].row.lastModified > boundary
  {
    if items == [] || items[0].row.lastModified > boundary {
      k := 0;
      NothingAt(items, boundary);
    } else {
      k := AtIsPrefix(items[1..], boundary);
      k := k + 1;
      assert items[..k] == [items[0]] + items[1..][..k - 1];
    }
  }

  lemma {:induction false} NothingAt<T(!new)>(items: seq<Item<T>>, boundary: int)
    requires forall i :: 0 <= i < |items| ==> items[i].row.lastModified > boundary
    ensures At(items, boundary) == []
  {
    if items == [] {
    } else {
      NothingAt(items[1..], boundary);
    }
  }

  /** A page is the first `k` rows of the sorted window, and leaves nothing below its cursor. */
  ghost predicate CutAt<T(!new)>(all: seq<Item<T>>, page: Page<T>, k: nat) {
    k <= |all| && page.items == all[..k]
    && forall i :: k <= i < |all| ==> all[i].row.lastModified >= page.cursor
  }

  lemma ExtendedCut<T(!new)>(all: seq<Item<T>>, limit: nat) returns (k: nat)
    requires Sorted(all) && 1 <= limit <= |all|
    ensures limit <= k <= |all|
    ensures all[..limit] + At(all[limit..], all[limit - 1].row.lastModified) == all[..k]
    ensures forall i :: k <= i < |all| ==> all[i].row.lastModified > all[limit - 1].row.lastModified
  {
    var rest := all[limit..];
    var j := AtIsPrefix(rest, all[limit - 1].row.lastModified);
    k := limit + j;
    forall i | k <= i < |all| ensures all[i].row.lastModified > all[limit - 1].row.lastModified {
      assert all[i] == rest[i - limit];
    }
  }

  lemma {:induction false} DrainedCut<T(!new)>(table: Table<T>, uid: UserId, since: int, now: int, scope: T -> bool,
      limit: nat)
    returns (k: nat)
    requires limit >= 1
    requires IsSingleMsFullPage(FirstQuery(table, uid, since, now, scope, limit), limit)
    ensures CutAt(Select(table, InWindow(uid, since, now, scope)), Delta(table, uid, since, now, scope, limit), k)
    ensures k >= limit
  {
    var all := Select(table, InWindow(uid, since, now, scope));
    DrainIsTheRest(table, uid, since, now, scope, limit);
    k := ExtendedCut(all, limit);
  }

  /**
   What a delta call returns is the sorted window cut at some length, never below the
   limit unless the window is exhausted, with nothing below the new cursor left behind.
   A page that reaches the limit moves the cursor past its first row.
   */
  lemma DeltaIsPrefix<T(!new)>(table: Table<T>, uid: UserId, since: int, now: int, scope: T -> bool, limit: nat)
    requires limit >= 1
    ensures var all := Select(table, InWindow(uid, since, now, scope));
            var page := Delta(table, uid, since, now, scope, limit);
            var k := |page.items|;
            CutAt(all, page, k)
            && (k < limit ==> k == |all| && page.cursor == now)
            && (k >= limit ==> all[0].row.lastModified < page.cursor <= now + 1)
  {
    var all := Select(table, InWindow(uid, since, now, scope));
    var first := FirstQuery(table, uid, since, now, scope, limit);
    if |first| == limit {
      assert all[0] in all && all[limit - 1] in all && all[limit - 1] == Last(first);
      assert limit > 1 ==> Before(all[0], all[limit - 1]);
      if IsSingleMsFullPage(first, limit) {
        var k := DrainedCut(table, uid, since, now, scope, limit);
      }
    }
  }

  /** A page holds at most `limit` rows, unless they all carry the millisecond before its cursor. */
  lemma PageSize<T(!new)>(table: Table<T>, uid: UserId, since: int, now: int, scope: T -> bool, limit: nat)
    requires limit >= 1
    ensures var page := Delta(table, uid, since, now, scope, limit);
            |page.items| <= limit
            || forall item :: item in page.items ==> item.row.lastModified == page.cursor - 1
  {
    var all := Select(table, InWindow(uid, since, now, scope));
    var first := FirstQuery(table, uid, since, now, scope, limit);
    if IsSingleMsFullPage(first, limit) {
      var boundary := Last(first).row.lastModified;
      forall item | item in first ensures item.row.lastModified == boundary {
        var i :| 0 <= i < limit && first[i] == item;
        assert first[i] == all[i];
        assert i > 0 ==> Before(all[0], all[i]);
        assert i < limit - 1 ==> Before(all[i], all[limit - 1]);
      }
      var page := Delta(table, uid, since, now, scope, limit);
      assert forall item :: item in page.items ==> item in first || item in DrainQuery(table, uid, first, scope);
    }
  }

  /** Everything changed in the half-open window `since <= last_modified < cursor` is returned. */
  lemma WindowDelivered<T(!new)>(table: Table<T>, uid: UserId, since: int, now: int, scope: T -> bool, limit: nat,
      id: Id)
    requires limit >= 1 && Owned(table, uid, id) && scope(table[id].data)
    requires since <= table[id].lastModified <= now
    requires table[id].lastModified < Delta(table, uid, since, now, scope, limit).cursor
    ensures Item(id, table[id]) in Delta(table, uid, since, now, scope, limit).items
  {
    var all := Select(table, InWindow(uid, since, now, scope));
    DeltaIsPrefix(table, uid, since, now, scope, limit);
    var item := Item(id, table[id]);
    assert item in all;
    var i :| 0 <= i < |all| && all[i] == item;
    assert i < |Delta(table, uid, since, now, scope, limit).items|;
  }

  /** A row of the user in the closed time window that passes the filter. */
  ghost predicate Eligible<T(!new)>(table: Table<T>, uid: UserId, since: int, now: int, scope: T -> bool, item: Item<T>) {
    Stored(table, item) && item.row.userId == uid && since <= item.row.lastModified <= now && scope(item.row.data)
  }

  /** What a cut keeps, and what it leaves. */
  lemma CutRows<T(!new)>(all: seq<Item<T>>, page: Page<T>, k: nat, item: Item<T>)
    requires Sorted(all) && CutAt(all, page, k) && item in all && item !in page.items
    ensures k < |all| && item.row.lastModified >= page.cursor
    ensures page.items != [] ==> Before(Last(page.items), item)
  {
    assert all == all[..k] + all[k..];
    var i :| 0 <= i < |all[k..]| && all[k..][i] == item;
    assert item == all[k + i];
    if k > 0 {
      AfterCut(all, k, item);
    }
  }

  lemma PrefixRows<T(!new)>(all: seq<Item<T>>, k: nat)
    requires Sorted(all) && k <= |all|
    ensures Sorted(all[..k]) && forall item :: item in all[..k] ==> item in all
  {
  }

  /** A page holds eligible rows only, in order. */
  lemma PageHolds<T(!new)>(table: Table<T>, uid: UserId, since: int, now: int, scope: T -> bool, limit: nat)
    requires limit >= 1
    ensures var items := Delta(table, uid, since, now, scope, limit).items;
            Sorted(items) && forall item :: item in items ==> Eligible(table, uid, since, now, scope, item)
  {
    DeltaIsPrefix(table, uid, since, now, scope, limit);
    PrefixRows(Select(table, InWindow(uid, since, now, scope)), |Delta(table, uid, since, now, scope, limit).items|);
  }

  /** An eligible row that a page leaves comes after its last row, and not below its cursor. */
  lemma PageLeaves<T(!new)>(table: Table<T>, uid: UserId, since: int, now: int, scope: T -> bool, limit: nat,
      item: Item<T>)
    requires limit >= 1 && Eligible(table, uid, since, now, scope, item)
    requires item !in Delta(table, uid, since, now, scope, limit).items
    ensures var page := Delta(table, uid, since, now, scope, limit);
            |page.items| >= limit && Before(Last(page.items), item) && item.row.lastModified >= page.cursor
  {
    var page := Delta(table, uid, since, now, scope, limit);
    DeltaIsPrefix(table, uid, since, now, scope, limit);
    CutRows(Select(table, InWindow(uid, since, now, scope)), page, |page.items|, item);
  }

  /** Cursor and flag, read off the rows returned. */
  lemma PageSignals<T(!new)>(table: Table<T>, uid: UserId, since: int, now: int, scope: T -> bool, limit: nat)
    requires limit >= 1
    ensures var page := Delta(table, uid, since, now, scope, limit);
            var items := page.items;
            if |items| < limit then page.cursor == now && !page.hasMore
            else if items[0].row.lastModified == Last(items).row.lastModified
            then page.cursor == Last(items).row.lastModified + 1 && !page.hasMore
            else |items| == limit && page.cursor == Last(items).row.lastModified && page.hasMore
  {
    var first := FirstQuery(table, uid, since, now, scope, limit);
    if IsSingleMsFullPage(first, limit) {
      var drained := DrainQuery(table, uid, first, scope);
      assert drained == [] ==> first + drained == first;
      assert drained != [] ==> Last(first + drained) == Last(drained) && Last(drained) in drained;
    }
  }

  /** A cut delivers everything up to and including its cursor's millisecond iff the next row is later. */
  lemma ClosedCut<T(!new)>(all: seq<Item<T>>, page: Page<T>, k: nat)
    requires Sorted(all) && CutAt(all, page, k)
    ensures (forall item :: item in all && item.row.lastModified <= page.cursor ==> item in page.items)
            <==> (k == |all| || all[k].row.lastModified > page.cursor)
  {
    if k < |all| {
      assert forall i :: 0 <= i < k ==> Before(all[i], all[k]);
      assert all[k] in all && all[k] !in page.items;
      forall item | item in all && item !in page.items
        ensures item == all[k] || Before(all[k], item)
      {
        var i :| 0 <= i < |all| && all[i] == item;
        assert i < k ==> page.items[i] == item;
      }
    }
  }

  /** The documented window is the closed one, `since <= last_modified <= cursor`. */
  ghost predicate ClosedWindow<T(!new)>(table: Table<T>, uid: UserId, since: int, now: int, scope: T -> bool,
      limit: nat)
  {
    var page := Delta(table, uid, since, now, scope, limit);
    forall item :: item in Select(table, InWindow(uid, since, now, scope)) && item.row.lastModified <= page.cursor ==>
      item in page.items
  }

  /**
   What the sorted rows of the window must look like before the call: fewer than the limit;
   or, if the first `limit` share a millisecond, none in the next one; or, if they do not,
   none behind them at the last one's millisecond.
   */
  ghost predicate ClosedCutoff<T(!new)>(all: seq<Item<T>>, limit: nat)
    requires limit >= 1
  {
    |all| < limit
    || if all[0].row.lastModified == all[limit - 1].row.lastModified
       then forall item :: item in all ==> item.row.lastModified != all[limit - 1].row.lastModified + 1
       else |all| == limit || all[limit].row.lastModified > all[limit - 1].row.lastModified
  }

  lemma ClosedWindowUndrained<T(!new)>(table: Table<T>, uid: UserId, since: int, now: int, scope: T -> bool, limit: nat)
    requires limit >= 1
    requires !IsSingleMsFullPage(FirstQuery(table, uid, since, now, scope, limit), limit)
    ensures ClosedWindow(table, uid, since, now, scope, limit) <==>
            ClosedCutoff(Select(table, InWindow(uid, since, now, scope)), limit)
  {
    DeltaIsPrefix(table, uid, since, now, scope, limit);
    var page := Delta(table, uid, since, now, scope, limit);
    ClosedCut(Select(table, InWindow(uid, since, now, scope)), page, |page.items|);
  }

  lemma ClosedWindowDrained<T(!new)>(table: Table<T>, uid: UserId, since: int, now: int, scope: T -> bool, limit: nat)
    requires limit >= 1
    requires IsSingleMsFullPage(FirstQuery(table, uid, since, now, scope, limit), limit)
    ensures ClosedWindow(table, uid, since, now, scope, limit) <==>
            ClosedCutoff(Select(table, InWindow(uid, since, now, scope)), limit)
  {
    var all := Select(table, InWindow(uid, since, now, scope));
    var page := Delta(table, uid, since, now, scope, limit);
    var first := FirstQuery(table, uid, since, now, scope, limit);
    assert first == all[..limit] && Last(first) == all[limit - 1] && first[0] == all[0];
    forall item | item in all && item.row.lastModified == page.cursor ensures item !in page.items {
      LaterNotDelivered(table, uid, since, now, scope, limit, item);
    }
    forall item | item in all && item.row.lastModified < page.cursor ensures item in page.items {
      WindowDelivered(table, uid, since, now, scope, limit, item.id);
    }
  }

  /** The closed window is delivered exactly when the rows it holds before the call permit it. */
  lemma ClosedWindowIff<T(!new)>(table: Table<T>, uid: UserId, since: int, now: int, scope: T -> bool, limit: nat)
    requires limit >= 1
    ensures ClosedWindow(table, uid, since, now, scope, limit) <==>
            ClosedCutoff(Select(table, InWindow(uid, since, now, scope)), limit)
  {
    if IsSingleMsFullPage(FirstQuery(table, uid, since, now, scope, limit), limit) {
      ClosedWindowDrained(table, uid, since, now, scope, limit);
    } else {
      ClosedWindowUndrained(table, uid, since, now, scope, limit);
    }
  }

  /** Limit 2, rows at 1000, 2000 and 2000: the cursor is 2000, and the third row is not returned. */
  lemma ClosedWindowMissesRows(uid: UserId)
    ensures var row := (ms: int) => Row(uid, ms, false, ());
            var table: Table<()> := map[1 := row(1000), 2 := row(2000), 3 := row(2000)];
            var page := Delta(table, uid, 500, 3000, _ => true, 2);
            page.cursor == 2000 && Item(3, row(2000)) !in page.items
            && !ClosedWindow(table, uid, 500, 3000, _ => true, 2)
  {
    var row := (ms: int) => Row(uid, ms, false, ());
    var table: Table<()> := map[1 := row(1000), 2 := row(2000), 3 := row(2000)];
    var all := Select(table, InWindow(uid, 500, 3000, _ => true));
    var answer := [Item(1, row(1000)), Item(2, row(2000)), Item(3, row(2000))];
    SortedIsUnique(all, answer);
    assert FirstQuery(table, uid, 500, 3000, _ => true, 2) == answer[..2];
    assert answer[2] in all;
  }

  /** Rows of the window that a page leaves for later calls. */
  ghost predicate Leftover<T(!new)>(table: Table<T>, uid: UserId, since: int, now: int, scope: T -> bool, limit: nat) {
    |Delta(table, uid, since, now, scope, limit).items| < |Select(table, InWindow(uid, since, now, scope))|
  }

  /** The window holds a row later than the last one of the first query. */
  ghost predicate LaterRow<T(!new)>(table: Table<T>, uid: UserId, now: int, scope: T -> bool, first: seq<Item<T>>) {
    first != [] &&
    exists id :: Owned(table, uid, id) && scope(table[id].data)
                 && Last(first).row.lastModified < table[id].lastModified <= now
  }

  /**
   `has_more == False` can be trusted unless the call drained a millisecond; after a
   drain rows are left exactly when the window holds a later millisecond.
   */
  lemma HasMoreExact<T(!new)>(table: Table<T>, uid: UserId, since: int, now: int, scope: T -> bool, limit: nat)
    requires limit >= 1 && !Delta(table, uid, since, now, scope, limit).hasMore
    ensures var first := FirstQuery(table, uid, since, now, scope, limit);
            Leftover(table, uid, since, now, scope, limit) <==>
            IsSingleMsFullPage(first, limit) && LaterRow(table, uid, now, scope, first)
  {
    var all := Select(table, InWindow(uid, since, now, scope));
    var first := FirstQuery(table, uid, since, now, scope, limit);
    var page := Delta(table, uid, since, now, scope, limit);
    if IsSingleMsFullPage(first, limit) {
      assert Last(first) == all[limit - 1] && Last(first) in all;
      var boundary := Last(first).row.lastModified;
      var k := DrainedCut(table, uid, since, now, scope, limit);
      if k < |all| {
        assert all[k] in all && all[k].row.lastModified > boundary;
        assert Owned(table, uid, all[k].id);
      }
      if LaterRow(table, uid, now, scope, first) {
        var id :| Owned(table, uid, id) && scope(table[id].data) && boundary < table[id].lastModified <= now;
        LaterNotDelivered(table, uid, since, now, scope, limit, Item(id, table[id]));
        assert all[..|all|] == all;
      }
    }
  }

  lemma LaterNotDelivered<T(!new)>(
      table: Table<T>, uid: UserId, since: int, now: int, scope: T -> bool, limit: nat, item: Item<T>)
    requires limit >= 1
    requires IsSingleMsFullPage(FirstQuery(table, uid, since, now, scope, limit), limit)
    requires item in Select(table, InWindow(uid, since, now, scope))
    requires item.row.lastModified > Last(FirstQuery(table, uid, since, now, scope, limit)).row.lastModified
    ensures item !in Delta(table, uid, since, now, scope, limit).items
  {
    var all := Select(table, InWindow(uid, since, now, scope));
    var first := FirstQuery(table, uid, since, now, scope, limit);
    assert first == all[..limit] && Last(first) == all[limit - 1];
    assert forall i :: 0 <= i < limit - 1 ==> Before(first[i], all[limit - 1]);
    assert item !in first;
  }

  /** A full page of one row always sits on one millisecond, so with limit 1 `has_more` is never true. */
  lemma LimitOneNeverHasMore<T(!new)>(table: Table<T>, uid: UserId, since: int, now: int, scope: T -> bool)
    ensures !Delta(table, uid, since, now, scope, 1).hasMore
  {
  }

  /** A `False` that hides rows: limit 2, rows at 1000, 1000 and 2000. */
  lemma DrainedFalseHidesRows(uid: UserId)
    ensures var row := (ms: int) => Row(uid, ms, false, ());
            var table: Table<()> := map[1 := row(1000), 2 := row(1000), 3 := row(2000)];
            var page := Delta(table, uid, 500, 3000, _ => true, 2);
            page.cursor == 1001 && !page.hasMore && Leftover(table, uid, 500, 3000, _ => true, 2)
  {
    var row := (ms: int) => Row(uid, ms, false, ());
    var table: Table<()> := map[1 := row(1000), 2 := row(1000), 3 := row(2000)];
    var all := Select(table, InWindow(uid, 500, 3000, _ => true));
    var answer := [Item(1, row(1000)), Item(2, row(1000)), Item(3, row(2000))];
    SortedIsUnique(all, answer);
    var first := FirstQuery(table, uid, 500, 3000, _ => true, 2);
    assert first == answer[..2];
    HasMoreExact(table, uid, 500, 3000, _ => true, 2);
    assert Owned(table, uid, 3);
  }
}
