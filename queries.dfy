/**
  The four query handlers: a service query followed by the mapping of each
  entity to its Get DTO. A null entity maps to a null DTO.
 */
module Queries {
  import opened Domain
  import opened Ordering
  import opened DataContext
  import opened Mapping
  import opened Service

  /** The list mapping: one DTO per entity, in the same order. */
  function MapAll(s: seq<Item>): (r: seq<ToDoDtoGet>)
    ensures |r| == |s|
    ensures forall i :: 0 <= i < |s| ==> r[i] == ToGetDto(s[i])
  {
    seq(|s|, i requires 0 <= i < |s| => ToGetDto(s[i]))
  }

  /** Every element of `MapAll(s)` is the DTO of an element of `s`, and every element of `s` is shown. */
  lemma MapAllShows(s: seq<Item>)
    ensures forall x :: x in s ==> ToGetDto(x) in MapAll(s)
    ensures forall d :: d in MapAll(s) ==> exists x :: x in s && d == ToGetDto(x)
  {
    var r := MapAll(s);
    forall x | x in s ensures ToGetDto(x) in r {
      var i :| 0 <= i < |s| && s[i] == x;
      assert r[i] == ToGetDto(x);
    }
    forall d | d in r ensures exists x :: x in s && d == ToGetDto(x) {
      var i :| 0 <= i < |r| && r[i] == d;
      assert s[i] in s;
    }
  }

  /**
    `GetAllToDosQueryHandler.Handle`: one DTO per stored item, newest
    `DateCreated` first; in a keyed table each DTO shows the row stored under
    its id, and every row is shown.
   */
  function GetAllToDos(t: Table): (r: seq<ToDoDtoGet>)
    ensures |r| == |t|
    ensures forall i, j :: 0 <= i < j < |r| ==> r[j].dateCreated <= r[i].dateCreated
    ensures Keyed(t) ==> forall i :: 0 <= i < |r| ==> r[i].id in t && r[i] == ToGetDto(t[r[i].id])
    ensures Keyed(t) ==> forall i, j :: 0 <= i < j < |r| ==> r[i].id != r[j].id
    ensures forall k :: k in t ==> ToGetDto(t[k]) in r
  {
    var items := GetAll(t);
    var r := MapAll(items);
    ShowsRows(t, items, r);
    r
  }

  /**
    `GetCompletedToDosQueryHandler.Handle`: the DTOs of the completed items,
    latest `DateCompleted` first and absent dates last.
   */
  function GetCompletedToDos(t: Table): (r: seq<ToDoDtoGet>)
    ensures forall i :: 0 <= i < |r| ==> r[i].isCompleted
    ensures forall i, j :: 0 <= i < j < |r| ==> AtMost(r[j].dateCompleted, r[i].dateCompleted)
    ensures Keyed(t) ==> forall i :: 0 <= i < |r| ==> r[i].id in t && r[i] == ToGetDto(t[r[i].id])
    ensures Keyed(t) ==> forall i, j :: 0 <= i < j < |r| ==> r[i].id != r[j].id
    ensures forall k :: k in t && t[k].isCompleted ==> ToGetDto(t[k]) in r
  {
    var items := GetCompleted(t);
    var r := MapAll(items);
    ShowsRows(t, items, r);
    ShowsSelected(t, items, r, true);
    r
  }

  /**
    `GetPendingToDosQueryHandler.Handle`: the DTOs of the pending items,
    newest `DateCreated` first.
   */
  function GetPendingToDos(t: Table): (r: seq<ToDoDtoGet>)
    ensures forall i :: 0 <= i < |r| ==> !r[i].isCompleted
    ensures forall i, j :: 0 <= i < j < |r| ==> r[j].dateCreated <= r[i].dateCreated
    ensures Keyed(t) ==> forall i :: 0 <= i < |r| ==> r[i].id in t && r[i] == ToGetDto(t[r[i].id])
    ensures Keyed(t) ==> forall i, j :: 0 <= i < j < |r| ==> r[i].id != r[j].id
    ensures forall k :: k in t && !t[k].isCompleted ==> ToGetDto(t[k]) in r
  {
    var items := GetPending(t);
    var r := MapAll(items);
    ShowsRows(t, items, r);
    ShowsSelected(t, items, r, false);
    r
  }

  /**
    `GetToDoByIdQueryHandler.Handle`: the DTO of the item with that id, or
    null when there is none.
   */
  function GetToDoById(t: Table, id: int): (r: Option<ToDoDtoGet>)
    ensures r.None? <==> forall k :: k in t ==> t[k].id != id
    ensures Keyed(t) ==> r == if id in t then Some(ToGetDto(t[id])) else None
  {
    match GetById(t, id)
    case None => None
    case Some(x) => Some(ToGetDto(x))
  }

  /** The DTOs of the rows selected by their completion flag show every such row, and only such rows. */
  lemma ShowsSelected(t: Table, items: seq<Item>, r: seq<ToDoDtoGet>, completed: bool)
    requires forall x :: x in items <==> InTable(t, x) && x.isCompleted == completed
    requires r == MapAll(items)
    ensures forall i :: 0 <= i < |r| ==> r[i].isCompleted == completed
    ensures forall k :: k in t && t[k].isCompleted == completed ==> ToGetDto(t[k]) in r
  {
    forall i | 0 <= i < |r| ensures r[i].isCompleted == completed {
      assert items[i] in items;
    }
    forall k | k in t && t[k].isCompleted == completed ensures ToGetDto(t[k]) in r {
      assert InTable(t, t[k]);
      assert t[k] in items;
      MapAllShows(items);
    }
  }

  /** The DTOs of rows of a table show those rows. */
  lemma ShowsRows(t: Table, items: seq<Item>, r: seq<ToDoDtoGet>)
    requires forall x :: x in items ==> InTable(t, x)
    requires r == MapAll(items)
    ensures Keyed(t) ==> forall i :: 0 <= i < |r| ==> r[i].id in t && r[i] == ToGetDto(t[r[i].id])
    ensures forall x :: x in items ==> ToGetDto(x) in r
  {
    MapAllShows(items);
    if Keyed(t) {
      forall i | 0 <= i < |r| ensures r[i].id in t && r[i] == ToGetDto(t[r[i].id]) {
        assert items[i] in items;
        StoredUnderId(t, items[i]);
      }
    }
  }
}
