/**
  The create handler: rejects a missing request or body and a null or empty
  title, maps the body to a new entity and hands it to the service.
 */
module CreateCommand {
  import opened Domain
  import opened Mapping
  import opened Service

  datatype CreateToDoCommand = CreateToDoCommand(dto: Option<ToDoDtoCreate>)

  /** `string.IsNullOrEmpty`: null, or a string of length zero. */
  function IsNullOrEmpty(s: Option<string>): (b: bool)
    ensures !b <==> s.Some? && |s.value| > 0
  {
    s.None? || s.value == ""
  }

  /** The item a successful create stores under `id`. */
  function NewItem(dto: ToDoDtoCreate, id: int, now: int): (x: Item) {
    FromCreateDto(dto).(id := id, createdAt := now, updatedAt := now)
  }

  /** A freshly created item is pending, has no completion time, and was stamped `now` twice. */
  lemma NewItemIsPending(dto: ToDoDtoCreate, id: int, now: int)
    ensures var x := NewItem(dto, id, now);
      && x.id == id && x.title == dto.title && x.description == dto.description
      && !x.isCompleted && x.completedAt.None?
      && x.createdAt == now && x.updatedAt == now
  {
  }

  /**
    `CreateToDoCommandHandler.Handle`. Only null and `""` are refused as a
    title; a title of blanks is accepted.
   */
  method Handle(svc: ToDoService, request: Option<CreateToDoCommand>, now: int) returns (r: Result<int>)
    requires svc.Valid()
    modifies svc
    ensures svc.Valid()
    ensures request.None? || request.value.dto.None? ==> r == Err(ArgumentNull)
    ensures request.Some? && request.value.dto.Some? && IsNullOrEmpty(request.value.dto.value.title) ==>
      r == Err(ArgumentInvalid)
    ensures r.Ok? <==> request.Some? && request.value.dto.Some? && !IsNullOrEmpty(request.value.dto.value.title)
    ensures r.Err? ==> svc.items == old(svc.items)
    ensures r.Ok? ==>
      && 0 < r.value && r.value !in old(svc.items)
      && svc.items == old(svc.items)[r.value := NewItem(request.value.dto.value, r.value, now)]
      && |svc.items| == |old(svc.items)| + 1
      && GetById(svc.items, r.value) == Some(NewItem(request.value.dto.value, r.value, now))
  {
    if request.None? || request.value.dto.None? {
      return Err(ArgumentNull);
    }
    var dto := request.value.dto.value;
    if IsNullOrEmpty(dto.title) {
      return Err(ArgumentInvalid);
    }
    var item := FromCreateDto(dto);
    var id := svc.Create(item, now);
    r := Ok(id);
  }
}
