/**
  The to-do entity, the transport shapes that carry it, and the error outcomes
  that the handlers raise as exceptions.

  A `null` reference or nullable value is an `Option`; a `DateTime` is an
  integer tick count supplied by the caller.
 */
module Domain {

  datatype Option<+T> = None | Some(value: T)

  /** The stored to-do item (`ToDoItem`). */
  datatype Item = Item(
    id: int,
    title: Option<string>,
    description: Option<string>,
    isCompleted: bool,
    createdAt: int,
    updatedAt: int,
    completedAt: Option<int>)

  /** `ToDoDtoGet`: what a query hands back to the client. */
  datatype ToDoDtoGet = ToDoDtoGet(
    id: int,
    title: Option<string>,
    description: Option<string>,
    isCompleted: bool,
    dateCreated: int,
    dateCompleted: Option<int>)

  /** `ToDoDtoCreate`: the body of a create request. */
  datatype ToDoDtoCreate = ToDoDtoCreate(title: Option<string>, description: Option<string>)

  /** `ToDoDtoUpdate`: the body of an update request. */
  datatype ToDoDtoUpdate = ToDoDtoUpdate(title: Option<string>, description: Option<string>, isCompleted: bool)

  /**
    The exceptions a handler can throw: `ArgumentNullException`,
    `ArgumentException`, `KeyNotFoundException`, and the
    `NullReferenceException` the update handler hits on a missing body.
   */
  datatype Error = ArgumentNull | ArgumentInvalid | NotFound | NullReference

  datatype Result<+T> = Ok(value: T) | Err(error: Error)

  /** The table of stored items, by primary key. */
  type Table = map<int, Item>

  /** `x` is one of the rows of `t`. */
  ghost predicate InTable(t: Table, x: Item) {
    exists k :: k in t && t[k] == x
  }

  /** Every row is stored under its own `Id`: the primary key is the item's id. */
  predicate Keyed(t: Table) {
    forall k :: k in t ==> t[k].id == k
  }
}
