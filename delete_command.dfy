/**
  The delete handler: fetches the item and asks the service to remove it.
 */
module DeleteCommand {
  import opened Domain
  import opened Service

  datatype DeleteToDoCommand = DeleteToDoCommand(id: int)

  /**
    `DeleteToDoCommandHandler.Handle`: an unknown id raises
    `KeyNotFoundException`; otherwise exactly that row is gone and a lookup
    of its id finds nothing.
   */
  method Handle(svc: ToDoService, request: DeleteToDoCommand) returns (r: Result<bool>)
    requires svc.Valid()
    modifies svc
    ensures svc.Valid()
    ensures request.id !in old(svc.items) ==> r == Err(NotFound) && svc.items == old(svc.items)
    ensures request.id in old(svc.items) ==>
      && r == Ok(true)
      && svc.items == old(svc.items) - {request.id}
      && |svc.items| == |old(svc.items)| - 1
      && GetById(svc.items, request.id) == None
  {
    var found := GetById(svc.items, request.id);
    if found.None? {
      return Err(NotFound);
    }
    var ok := svc.Delete(found.value);
    r := Ok(ok);
  }
}
