/**
  The update handler: fetches the item, overwrites its fields one by one
  through a chain of conditionals, and hands it back to the service.

  Two behaviours of the handler as written are stated below rather than
  corrected. A title or description that is stored as null is never
  replaced. The completion stamp is guarded by a test that runs after the
  flag has already been copied from the request, so the guard is always
  false and an update never sets or clears `CompletedAt`.
 */
module UpdateCommand {
  import opened Domain
  import opened Service

  datatype UpdateToDoCommand = UpdateToDoCommand(id: int, dto: Option<ToDoDtoUpdate>)

  /**
    `UpdateToDoCommandHandler.Handle`. A missing request raises
    `ArgumentNullException`; an unknown id raises `KeyNotFoundException`; a
    missing body is dereferenced and raises `NullReferenceException` before
    anything is written.
   */
  method Handle(svc: ToDoService, request: Option<UpdateToDoCommand>, now: int) returns (r: Result<bool>)
    requires svc.Valid()
    modifies svc
    ensures svc.Valid()
    ensures request.None? ==> r == Err(ArgumentNull)
    ensures request.Some? && request.value.id !in old(svc.items) ==> r == Err(NotFound)
    ensures request.Some? && request.value.id in old(svc.items) && request.value.dto.None? ==> r == Err(NullReference)
    ensures r.Ok? <==> request.Some? && request.value.id in old(svc.items) && request.value.dto.Some?
    ensures r.Err? ==> svc.items == old(svc.items)
    ensures r.Ok? ==>
      var id, dto := request.value.id, request.value.dto.value;
      var before := old(svc.items)[id];
      && r.value
      && id in svc.items && svc.items == old(svc.items)[id := svc.items[id]]
      && svc.items[id].id == before.id && svc.items[id].createdAt == before.createdAt
      && svc.items[id].updatedAt == now
      && svc.items[id].title == (if before.title.Some? then dto.title else None)
      && svc.items[id].description == (if before.description.Some? then dto.description else None)
      && svc.items[id].isCompleted == dto.isCompleted
      && svc.items[id].completedAt == before.completedAt
  {
    if request.None? {
      return Err(ArgumentNull);
    }
    var cmd := request.value;
    var found := GetById(svc.items, cmd.id);
    if found.None? {
      return Err(NotFound);
    }
    if cmd.dto.None? {
      return Err(NullReference);
    }
    var dto := cmd.dto.value;
    var item := found.value;
    if item.title.Some? && item.title != dto.title {
      item := item.(title := dto.title);
    }
    if item.description.Some? && item.description != dto.description {
      item := item.(description := dto.description);
    }
    if item.isCompleted != dto.isCompleted {
      item := item.(isCompleted := dto.isCompleted);
    }
    if !item.isCompleted && dto.isCompleted {
      item := item.(completedAt := Some(now));
    }
    var ok := svc.Update(item, now);
    r := Ok(ok);
  }
}
