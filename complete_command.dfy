/**
  The complete handler: fetches the item, forces it completed with fresh
  completion and update stamps, and hands it to the service.
 */
module CompleteCommand {
  import opened Domain
  import opened Service

  datatype CompleteToDoCommand = CompleteToDoCommand(id: int)

  /** The item as the handler leaves it before saving. */
  function Completed(x: Item, now: int): (y: Item)
    ensures y.isCompleted && y.completedAt == Some(now) && y.updatedAt == now
    ensures y.(isCompleted := x.isCompleted, completedAt := x.completedAt, updatedAt := x.updatedAt) == x
  {
    x.(isCompleted := true, completedAt := Some(now), updatedAt := now)
  }

  /**
    Completing again keeps the item completed and changes only the two
    stamps: the second completion time replaces the first.
   */
  lemma CompleteTwiceOnlyRestamps(x: Item, first: int, second: int)
    ensures Completed(Completed(x, first), second) == Completed(x, second)
    ensures Completed(Completed(x, first), second).isCompleted
    ensures Completed(Completed(x, first), second).completedAt == Some(second)
    ensures Completed(x, first).(completedAt := Some(second), updatedAt := second) == Completed(Completed(x, first), second)
  {
  }

  /** Completion keeps the id, the text and `CreatedAt`. */
  lemma CompletedKeepsIdentity(x: Item, now: int)
    ensures var y := Completed(x, now);
      y.id == x.id && y.title == x.title && y.description == x.description && y.createdAt == x.createdAt
  {
  }

  /**
    `CompleteToDoCommandHandler.Handle`: an unknown id raises
    `KeyNotFoundException`; otherwise the item becomes completed with
    `CompletedAt` and `UpdatedAt` set to `now`, even if it was completed
    before.
   */
  method Handle(svc: ToDoService, request: CompleteToDoCommand, now: int) returns (r: Result<bool>)
    requires svc.Valid()
    modifies svc
    ensures svc.Valid()
    ensures request.id !in old(svc.items) ==> r == Err(NotFound) && svc.items == old(svc.items)
    ensures request.id in old(svc.items) ==>
      && r == Ok(true)
      && svc.items == old(svc.items)[request.id := Completed(old(svc.items)[request.id], now)]
  {
    var found := GetById(svc.items, request.id);
    if found.None? {
      return Err(NotFound);
    }
    var item := found.value;
    item := item.(isCompleted := true);
    item := item.(completedAt := Some(now));
    item := item.(updatedAt := now);
    var ok := svc.Complete(item);
    r := Ok(ok);
  }
}
