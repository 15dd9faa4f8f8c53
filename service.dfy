/**
  The item service: four queries over the table, each a filter followed by a
  descending sort, and four mutations of the table held by the data
  context.
 */
module Service {
  import opened Domain
  import opened Ordering
  import opened DataContext

  /**
    `GetAllAsync`: every stored item once, newest `CreatedAt` first.
   */
  function GetAll(t: Table): (r: seq<Item>)
    ensures |r| == |t|
    ensures forall x :: x in r <==> InTable(t, x)
    ensures forall i, j :: 0 <= i < j < |r| ==> r[j].createdAt <= r[i].createdAt
    ensures Keyed(t) ==> forall i, j :: 0 <= i < j < |r| ==> r[i].id != r[j].id
  {
    var r := SortDesc(ByCreatedAt, Rows(t));
    SortedRowsOnce(t, Rows(t), r);
    r
  }

  /**
    Sorting the rows by `CreatedAt` keeps exactly the stored items, orders
    them newest first, and repeats no id in a keyed table.
   */
  lemma SortedRowsOnce(t: Table, rows: seq<Item>, r: seq<Item>)
    requires rows == Rows(t) && r == SortDesc(ByCreatedAt, rows)
    ensures |r| == |t|
    ensures forall x :: x in r <==> InTable(t, x)
    ensures forall i, j :: 0 <= i < j < |r| ==> r[j].createdAt <= r[i].createdAt
    ensures Keyed(t) ==> forall i, j :: 0 <= i < j < |r| ==> r[i].id != r[j].id
  {
    SameElements(r, rows);
    SameElements(rows, r);
    NewestFirst(r);
    if Keyed(t) {
      IdsDistinct(t, r);
    }
  }

  /**
    `GetByIdAsync`: the first row carrying `id`, or nothing; in a keyed table,
    the row stored under `id`.
   */
  function GetById(t: Table, id: int): (r: Option<Item>)
    ensures r.Some? ==> InTable(t, r.value) && r.value.id == id
    ensures r.None? <==> forall k :: k in t ==> t[k].id != id
    ensures Keyed(t) ==> r == if id in t then Some(t[id]) else None
  {
    var rows := Rows(t);
    var r := FirstWithId(rows, id);
    assert r.None? <==> forall k :: k in t ==> t[k].id != id by {
      if r.None? {
        forall k | k in t ensures t[k].id != id {
          assert InTable(t, t[k]);
          assert t[k] in rows;
        }
      } else {
        assert r.value in rows && r.value.id == id;
        var k :| k in t && t[k] == r.value;
      }
    }
    if Keyed(t) && id in t then
      StoredUnderId(t, r.value);
      r
    else
      r
  }

  /**
    `GetCompletedAsync`: exactly the completed items, latest `CompletedAt`
    first; items without a completion time come last.
   */
  function GetCompleted(t: Table): (r: seq<Item>)
    ensures forall x :: x in r <==> InTable(t, x) && x.isCompleted
    ensures forall i, j :: 0 <= i < j < |r| ==> AtMost(r[j].completedAt, r[i].completedAt)
    ensures forall i, j :: 0 <= i < j < |r| && r[i].completedAt.None? ==> r[j].completedAt.None?
    ensures Keyed(t) ==> forall i, j :: 0 <= i < j < |r| ==> r[i].id != r[j].id
  {
    Filtered(t, true)
  }

  /**
    `GetPendingAsync`: exactly the items not completed, newest `CreatedAt`
    first.
   */
  function GetPending(t: Table): (r: seq<Item>)
    ensures forall x :: x in r <==> InTable(t, x) && !x.isCompleted
    ensures forall i, j :: 0 <= i < j < |r| ==> r[j].createdAt <= r[i].createdAt
    ensures Keyed(t) ==> forall i, j :: 0 <= i < j < |r| ==> r[i].id != r[j].id
  {
    var r := Filtered(t, false);
    NewestFirst(r);
    r
  }

  /** The completed (or pending) rows, sorted the way the matching query sorts them. */
  function Filtered(t: Table, completed: bool): (r: seq<Item>)
    ensures forall x :: x in r <==> InTable(t, x) && x.isCompleted == completed
    ensures SortedDesc(if completed then ByCompletedAt else ByCreatedAt, r)
    ensures multiset(r) == multiset(Where(Rows(t), completed))
    ensures Keyed(t) ==> forall i, j :: 0 <= i < j < |r| ==> r[i].id != r[j].id
  {
    var rows := Rows(t);
    var kept := Where(rows, completed);
    var r := SortDesc(if completed then ByCompletedAt else ByCreatedAt, kept);
    SameElements(r, kept);
    SameElements(kept, r);
    SameElements(kept, rows);
    if Keyed(t) then
      SameElements(r, rows);
      IdsDistinct(t, r);
      r
    else
      r
  }

  /**
    The completed and the pending items together are all the items, each
    exactly as often as in `GetAll`.
   */
  lemma CompletedAndPendingPartitionAll(t: Table)
    ensures multiset(GetCompleted(t)) + multiset(GetPending(t)) == multiset(GetAll(t))
    ensures |GetCompleted(t)| + |GetPending(t)| == |GetAll(t)| == |t|
  {
    WherePartition(Rows(t));
    assert multiset(GetAll(t)) == multiset(Rows(t));
    assert |GetCompleted(t)| == |multiset(GetCompleted(t))|;
    assert |GetPending(t)| == |multiset(GetPending(t))|;
    assert |GetAll(t)| == |multiset(GetAll(t))|;
  }

  /** In a keyed table, `GetAll` lists each stored item exactly once. */
  lemma {:induction false} GetAllListsEachOnce(t: Table, k: int)
    requires Keyed(t) && k in t
    ensures multiset(GetAll(t))[t[k]] == 1
  {
    var r := GetAll(t);
    assert InTable(t, t[k]);
    assert t[k] in r;
  }

  /**
    The table of the data context, and the key generator of the in-memory
    provider: keys come from a counter that only goes up.
   */
  class ToDoService {
    var items: Table
    var nextId: int

    /** Rows sit under their own ids, all of them below the next key to hand out. */
    ghost predicate Valid()
      reads this
    {
      && Keyed(items)
      && 0 < nextId
      && forall k :: k in items ==> 0 < k < nextId
    }

    /** A fresh, empty database. */
    constructor ()
      ensures Valid() && items == map[]
    {
      items := map[];
      nextId := 1;
    }

    /**
      `CreateAsync`: stamps `CreatedAt` and `UpdatedAt`, inserts the item under
      a key not in use, and returns that key. The key is generated because the
      entity arrives with the default id.
     */
    method Create(item: Item, now: int) returns (id: int)
      requires Valid()
      requires item.id == 0
      modifies this
      ensures Valid()
      ensures 0 < id && id !in old(items)
      ensures items == old(items)[id := item.(id := id, createdAt := now, updatedAt := now)]
    {
      id := nextId;
      nextId := nextId + 1;
      items := items[id := item.(id := id, createdAt := now, updatedAt := now)];
    }

    /**
      `UpdateAsync`: stamps `UpdatedAt` on the tracked entity and saves it;
      always answers true.
     */
    method Update(item: Item, now: int) returns (ok: bool)
      requires Valid()
      requires item.id in items
      modifies this
      ensures Valid()
      ensures ok
      ensures items == old(items)[item.id := item.(updatedAt := now)]
      ensures nextId == old(nextId)
    {
      items := items[item.id := item.(updatedAt := now)];
      ok := true;
    }

    /** `DeleteAsync`: removes the tracked entity's row; always answers true. */
    method Delete(item: Item) returns (ok: bool)
      requires Valid()
      requires item.id in items
      modifies this
      ensures Valid()
      ensures ok
      ensures items == old(items) - {item.id}
      ensures |items| == |old(items)| - 1
      ensures nextId == old(nextId)
    {
      items := items - {item.id};
      ok := true;
    }

    /**
      `CompleteAsync`: saves the entity as given, touching no timestamp
      itself; always answers true.
     */
    method Complete(item: Item) returns (ok: bool)
      requires Valid()
      requires item.id in items
      modifies this
      ensures Valid()
      ensures ok
      ensures items == old(items)[item.id := item]
      ensures nextId == old(nextId)
    {
      items := items[item.id := item];
      ok := true;
    }
  }
}
