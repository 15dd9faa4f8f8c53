/**
  The three field mappings of the mapping profile, as total functions.
  A member the profile ignores takes its default value on a new entity:
  0 for the id, false for the flag, the zero instant for `CreatedAt` and
  `UpdatedAt`, and no value for `CompletedAt`.
 */
module Mapping {
  import opened Domain

  /** The `DateTime` default (`DateTime.MinValue`) as a tick count. */
  const DefaultTime: int := 0

  /** Entity to Get DTO: same-named members copied, the two dates renamed. */
  function ToGetDto(x: Item): (d: ToDoDtoGet)
    ensures d.id == x.id && d.title == x.title && d.description == x.description
    ensures d.isCompleted == x.isCompleted
    ensures d.dateCreated == x.createdAt && d.dateCompleted == x.completedAt
  {
    ToDoDtoGet(x.id, x.title, x.description, x.isCompleted, x.createdAt, x.completedAt)
  }

  /** Create DTO to a new entity: only `Title` and `Description` are mapped. */
  function FromCreateDto(dto: ToDoDtoCreate): (x: Item)
    ensures x.title == dto.title && x.description == dto.description
    ensures x.id == 0 && !x.isCompleted && x.completedAt.None?
    ensures x.createdAt == DefaultTime && x.updatedAt == DefaultTime
  {
    Item(0, dto.title, dto.description, false, DefaultTime, DefaultTime, None)
  }

  /** Update DTO to a new entity: `Title`, `Description` and `IsCompleted` are mapped. */
  function FromUpdateDto(dto: ToDoDtoUpdate): (x: Item)
    ensures x.title == dto.title && x.description == dto.description && x.isCompleted == dto.isCompleted
    ensures x.id == 0 && x.completedAt.None?
    ensures x.createdAt == DefaultTime && x.updatedAt == DefaultTime
  {
    Item(0, dto.title, dto.description, dto.isCompleted, DefaultTime, DefaultTime, None)
  }

  /**
    The Get DTO shows every member of the entity except `UpdatedAt`: two items
    map to the same DTO exactly when they differ at most in that member.
   */
  lemma GetDtoHidesOnlyUpdatedAt(a: Item, b: Item)
    ensures ToGetDto(a) == ToGetDto(b) <==> a.(updatedAt := b.updatedAt) == b
  {
  }

  /**
    A create request read back through the Get DTO shows its own title and
    description, pending, with no completion date.
   */
  lemma CreateDtoReadBack(dto: ToDoDtoCreate)
    ensures var d := ToGetDto(FromCreateDto(dto));
      d.title == dto.title && d.description == dto.description &&
      !d.isCompleted && d.dateCompleted.None?
  {
  }

  /** Mapping a create DTO sets nothing but the title and the description. */
  lemma CreateDtoSetsOnlyText(a: ToDoDtoCreate, b: ToDoDtoCreate)
    ensures FromCreateDto(a).(title := b.title, description := b.description) == FromCreateDto(b)
  {
  }

  /**
    An update request read back through the Get DTO shows its title,
    description and completion flag; it never carries a key or a timestamp.
   */
  lemma UpdateDtoReadBack(dto: ToDoDtoUpdate)
    ensures var d := ToGetDto(FromUpdateDto(dto));
      d.title == dto.title && d.description == dto.description &&
      d.isCompleted == dto.isCompleted && d.id == 0 && d.dateCompleted.None?
    ensures FromUpdateDto(dto) == FromCreateDto(ToDoDtoCreate(dto.title, dto.description)).(isCompleted := dto.isCompleted)
  {
  }
}
