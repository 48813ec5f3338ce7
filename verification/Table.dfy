/**
 A database table, and the queries the service asks of it: filter, order by
 `last_modified, id`, limit. Identifiers are 32 lower-case hexadecimal digits, which
 compare as strings just as they compare as numbers.
 */
module Table {
  type Id = nat
  type UserId = int

  /** One row: the columns every table has, and its own `data`. */
  datatype Row<T> = Row(userId: UserId, lastModified: int, isDeleted: bool, data: T)

  type Table<T> = map<Id, Row<T>>
  datatype Item<T> = Item(id: Id, row: Row<T>)

  predicate Owned<T>(table: Table<T>, uid: UserId, id: Id) {
    id in table && table[id].userId == uid
  }

  /** The visible rows: `user_id = uid AND is_deleted = 'N'`. */
  predicate Active<T>(table: Table<T>, uid: UserId, id: Id) {
    Owned(table, uid, id) && !table[id].isDeleted
  }

  /** `ORDER BY last_modified ASC, id ASC` */
  predicate Before<T>(a: Item<T>, b: Item<T>) {
    a.row.lastModified < b.row.lastModified || (a.row.lastModified == b.row.lastModified && a.id < b.id)
  }

  ghost predicate Sorted<T(!new)>(items: seq<Item<T>>) {
    forall i, j :: 0 <= i < j < |items| ==> Before(items[i], items[j])
  }

  ghost predicate Stored<T(!new)>(table: Table<T>, item: Item<T>) {
    item.id in table && table[item.id] == item.row
  }

  predicate Least<T(!new)>(table: Table<T>, ids: set<Id>, m: Id)
    requires ids <= table.Keys
  {
    m in ids && forall x :: x in ids ==> x == m || Before(Item(m, table[m]), Item(x, table[x]))
  }

  lemma {:induction false} LeastExists<T(!new)>(table: Table<T>, ids: set<Id>)
    requires ids <= table.Keys && ids != {}
    ensures exists m :: Least(table, ids, m)
    decreases |ids|
  {
    var x :| x in ids;
    if ids == {x} {
      assert Least(table, ids, x);
    } else {
      LeastExists(table, ids - {x});
      var m :| Least(table, ids - {x}, m);
      var least := if Before(Item(x, table[x]), Item(m, table[m])) then x else m;
      assert Least(table, ids, least);
    }
  }

  function Ordered<T(!new)>(table: Table<T>, ids: set<Id>): (items: seq<Item<T>>)
    requires ids <= table.Keys
    ensures Sorted(items)
    ensures forall item :: item in items <==> item.id in ids && Stored(table, item)
    decreases |ids|
  {
    if ids == {} then []
    else
      LeastExists(table, ids);
      var m :| Least(table, ids, m);
      [Item(m, table[m])] + Ordered(table, ids - {m})
  }

  /** `SELECT ... WHERE keep ORDER BY last_modified, id` */
  function Select<T(!new)>(table: Table<T>, keep: Item<T> -> bool): (items: seq<Item<T>>)
    ensures Sorted(items)
    ensures forall item :: item in items <==> Stored(table, item) && keep(item)
  {
    var ids := set id | id in table && keep(Item(id, table[id]));
    Ordered(table, ids)
  }

  /**
   `WHERE user_id = uid AND is_deleted = 'N' ORDER BY title`: each active row once, titles
   not decreasing in the collation `leq`, rows of equal titles in whatever order.
   */
  ghost predicate ByTitle<T(!new)>(table: Table<T>, uid: UserId, leq: (T, T) -> bool, answer: seq<Item<T>>) {
    && (forall item :: item in answer <==> Stored(table, item) && Active(table, uid, item.id))
    && (forall i, j :: 0 <= i < j < |answer| ==>
          answer[i].id != answer[j].id && leq(answer[i].row.data, answer[j].row.data))
  }

  /** `LIMIT n` */
  function Limit<T(!new)>(items: seq<Item<T>>, n: nat): seq<Item<T>> {
    if n < |items| then items[..n] else items
  }

  lemma FirstIsMember<T(!new)>(items: seq<Item<T>>)
    ensures items == [] || items[0] in items
  {
  }

  /** A sorted answer is determined by the rows in it. */
  lemma {:induction false} SortedIsUnique<T(!new)>(a: seq<Item<T>>, b: seq<Item<T>>)
    requires Sorted(a) && Sorted(b)
    requires forall item :: item in a <==> item in b
    ensures a == b
  {
    if a == [] {
      FirstIsMember(b);
    } else {
      assert a[0] in b;
      assert b[0] in a;
      assert a[0] == b[0];
      forall item ensures item in a[1..] <==> item in b[1..] {
        assert item in a <==> item == a[0] || item in a[1..];
        assert item in b <==> item == b[0] || item in b[1..];
      }
      SortedIsUnique(a[1..], b[1..]);
      assert a == [a[0]] + a[1..] && b == [b[0]] + b[1..];
    }
  }

  /** Cutting a sorted answer after `n` rows: what is left comes after the last row kept. */
  lemma AfterCut<T(!new)>(all: seq<Item<T>>, n: nat, item: Item<T>)
    requires Sorted(all) && 1 <= n <= |all|
    ensures item in all[n..] <==> item in all && Before(all[n - 1], item)
  {
    if item in all[n..] {
      var i :| 0 <= i < |all[n..]| && all[n..][i] == item;
      assert all[n + i] == item;
    }
    if item in all && Before(all[n - 1], item) {
      var i :| 0 <= i < |all| && all[i] == item;
      assert i >= n;
      assert all[n..][i - n] == item;
    }
  }
}
