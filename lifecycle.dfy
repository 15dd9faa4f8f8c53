/**
  Sequences of requests against one service, as a client of the handlers
  sees them. Each method states what the handlers' contracts alone let a
  caller conclude.
 */
module Lifecycle {
  import opened Domain
  import opened Mapping
  import opened Service
  import opened Queries
  import CreateCommand
  import UpdateCommand
  import CompleteCommand
  import DeleteCommand

  /**
    Create "A", complete it, list the completed items, delete it, look it up:
    the item is found completed with its completion time, then gone.
   */
  method CreateCompleteDelete(created: int, completed: int)
    returns (id: Result<int>, done: Result<bool>, listed: seq<ToDoDtoGet>, gone: Result<bool>, after: Option<ToDoDtoGet>)
    ensures id.Ok? && 0 < id.value
    ensures done == Ok(true) && gone == Ok(true)
    ensures listed == [ToDoDtoGet(id.value, Some("A"), None, true, created, Some(completed))]
    ensures after == None
  {
    var svc := new ToDoService();
    var dto := ToDoDtoCreate(Some("A"), None);
    id := CreateCommand.Handle(svc, Some(CreateCommand.CreateToDoCommand(Some(dto))), created);
    done := CompleteCommand.Handle(svc, CompleteCommand.CompleteToDoCommand(id.value), completed);
    assert svc.items == map[id.value := Item(id.value, Some("A"), None, true, created, completed, Some(completed))];
    listed := GetCompletedToDos(svc.items);
    SingleCompleted(svc.items, id.value);
    gone := DeleteCommand.Handle(svc, DeleteCommand.DeleteToDoCommand(id.value));
    after := GetToDoById(svc.items, id.value);
  }

  /** The completed list of a one-row table holding a completed item is that item. */
  lemma SingleCompleted(t: Table, k: int)
    requires Keyed(t) && k in t && t == map[k := t[k]] && t[k].isCompleted
    ensures GetCompletedToDos(t) == [ToGetDto(t[k])]
  {
    var r := GetCompletedToDos(t);
    assert ToGetDto(t[k]) in r;
    assert |t| == 1;
    CompletedAndPendingPartitionAll(t);
    assert |r| <= 1;
  }

  /**
    Marking an item completed through an update leaves it without a
    completion time, so the completed list shows it with no date.
   */
  method CompleteThroughUpdate(created: int, updated: int)
    returns (listed: seq<ToDoDtoGet>)
    ensures |listed| == 1 && listed[0].isCompleted && listed[0].dateCompleted == None
  {
    var svc := new ToDoService();
    var dto := ToDoDtoCreate(Some("A"), None);
    var id := CreateCommand.Handle(svc, Some(CreateCommand.CreateToDoCommand(Some(dto))), created);
    var change := ToDoDtoUpdate(Some("A"), None, true);
    var r := UpdateCommand.Handle(svc, Some(UpdateCommand.UpdateToDoCommand(id.value, Some(change))), updated);
    assert svc.items == map[id.value := Item(id.value, Some("A"), None, true, created, updated, None)];
    listed := GetCompletedToDos(svc.items);
    SingleCompleted(svc.items, id.value);
  }

  /**
    A description created as null stays null whatever an update asks for,
    while the title follows the request.
   */
  method NullDescriptionIsStuck(created: int, updated: int, wanted: string)
    returns (shown: Option<ToDoDtoGet>)
    ensures shown.Some? && shown.value.description == None && shown.value.title == Some("B")
  {
    var svc := new ToDoService();
    var dto := ToDoDtoCreate(Some("A"), None);
    var id := CreateCommand.Handle(svc, Some(CreateCommand.CreateToDoCommand(Some(dto))), created);
    var change := ToDoDtoUpdate(Some("B"), Some(wanted), false);
    var r := UpdateCommand.Handle(svc, Some(UpdateCommand.UpdateToDoCommand(id.value, Some(change))), updated);
    shown := GetToDoById(svc.items, id.value);
  }

  /** A second delete of the same id finds nothing to delete. */
  method DeleteTwice(svc: ToDoService, id: int) returns (first: Result<bool>, second: Result<bool>)
    requires svc.Valid()
    modifies svc
    ensures svc.Valid()
    ensures first == (if id in old(svc.items) then Ok(true) else Err(NotFound))
    ensures second == Err(NotFound)
    ensures svc.items == old(svc.items) - {id}
  {
    first := DeleteCommand.Handle(svc, DeleteCommand.DeleteToDoCommand(id));
    second := DeleteCommand.Handle(svc, DeleteCommand.DeleteToDoCommand(id));
  }

  /**
    Completing twice keeps the item completed; only the stamps move, to the
    time of the second call.
   */
  method CompleteTwice(svc: ToDoService, id: int, first: int, second: int)
    returns (r1: Result<bool>, r2: Result<bool>)
    requires svc.Valid()
    requires id in svc.items
    modifies svc
    ensures svc.Valid()
    ensures r1 == Ok(true) && r2 == Ok(true)
    ensures svc.items == old(svc.items)[id := old(svc.items)[id].(isCompleted := true, completedAt := Some(second), updatedAt := second)]
  {
    r1 := CompleteCommand.Handle(svc, CompleteCommand.CompleteToDoCommand(id), first);
    r2 := CompleteCommand.Handle(svc, CompleteCommand.CompleteToDoCommand(id), second);
  }

  /**
    A created item is found by its id as the DTO of the request, and is
    listed among the pending items.
   */
  method CreateThenGet(svc: ToDoService, request: Option<CreateCommand.CreateToDoCommand>, now: int)
    returns (r: Result<int>, found: Option<ToDoDtoGet>, pending: seq<ToDoDtoGet>)
    requires svc.Valid()
    modifies svc
    ensures svc.Valid()
    ensures r.Ok? ==> request.Some? && request.value.dto.Some?
    ensures r.Ok? ==>
      var dto := request.value.dto.value;
      && found == Some(ToDoDtoGet(r.value, dto.title, dto.description, false, now, None))
      && found.value in pending
    ensures r.Err? ==> found == None && svc.items == old(svc.items)
  {
    r := CreateCommand.Handle(svc, request, now);
    if r.Ok? {
      found := GetToDoById(svc.items, r.value);
      pending := GetPendingToDos(svc.items);
    } else {
      found := None;
      pending := [];
    }
  }
}
