# To-do item store: a Dafny model

This project models the core of a small to-do web service. The service keeps
a single table of to-do items keyed by an integer id. Each item has a title,
a description, a completed flag, and creation, update and completion times.
The model covers:

- the item service's four read queries: all items, one item by id, the
  completed items and the pending items; each is a filter followed by a
  descending sort;
- its four table mutations: create, update, delete and complete;
- the command handlers for create, update, complete and delete, which
  validate the request, fetch the item, change its fields and write it back;
- the query handlers, which map each entity to its Get DTO;
- the three field mappings of the mapping profile.

How the source is represented:

- The data context's table is `ToDoService.items: map<int, Item>` in
  `service.dfy`. The in-memory provider's key generator is the counter
  `nextId`, which only goes up. `Valid()` says that every row sits under its
  own id and that every id is positive and below the counter.
- A null string or a nullable `DateTime` is an `Option`. A `DateTime` is an
  integer tick count, and `DateTime.UtcNow` is the caller's `now` parameter.
- Exceptions are `Err` values of `Result`. `ArgumentNull` is
  `ArgumentNullException`, `ArgumentInvalid` is `ArgumentException`,
  `NotFound` is `KeyNotFoundException`, and `NullReference` is the
  `NullReferenceException` the update handler hits on a missing body.
- The table is enumerated in ascending id order. The source does not fix the
  order in which the store enumerates its rows, so this is the model's
  choice. It only decides the order of items with equal sort keys, which no
  contract states.
- Sorting is `OrderByDescending` on a nullable timestamp. The default
  comparer places an absent value below every present one, so items without
  a `CompletedAt` come last in the completed list.
- Each command handler is an imperative module-level `Handle` method that
  takes the service object as a parameter. Its postcondition gives the result and the whole new table in
  terms of the old one.
- Each query is a function of the table. Its postcondition states which
  items come back (both directions), in what order, and that no id repeats.

The model proves several behaviours of the handlers as written:

- An update never sets or clears `CompletedAt`. The handler copies the
  completed flag from the request before it tests whether the flag went
  from false to true, so that test is always false. An item that was never
  completed before and is completed through an update therefore has no
  completion time, and the completed list shows it last, with no date. An
  item completed earlier keeps its old `CompletedAt` through any later
  updates, even ones that clear and then set the flag again.
- An update replaces the title or the description only when the stored
  value is non-null. A null field can never be set again through an update.
- Update, complete and delete on an unknown id raise `KeyNotFoundException`.
  On success they always answer `true`, so the controller's `NotFound`
  branches for a `false` answer are never taken.
- A missing create request or body raises `ArgumentNullException`. Only a
  null or empty title raises `ArgumentException`; a title made of blanks is
  accepted.

## Model

| member | source | states |
|---|---|---|
| `Ordering.SortDesc` | ToDo.Core/Services/ToDoService.cs:30-32 | `OrderByDescending`: the result is a permutation of the input (same multiset, same length) and is non-increasing in the key, with an absent key below every present one |
| `Ordering.Insert` | ToDo.Core/Services/ToDoService.cs:31 | inserting into a sorted list adds exactly that element and keeps the list sorted |
| `Ordering.Where` | ToDo.Core/Services/ToDoService.cs:45 | `Where` on the completion flag keeps exactly the elements with that flag value, and never adds or repeats one |
| `Ordering.WherePartition` | ToDo.Core/Services/ToDoService.cs:42-56 | the completed and the pending rows together make up all the rows, each row counted once |
| `Ordering.FirstWithId` | ToDo.Core/Services/ToDoService.cs:37-39 | `FirstOrDefault` on the id returns the first element carrying that id (no earlier element carries it), and returns nothing exactly when no element carries it |
| `Ordering.AtMost` | ToDo.Core/Services/ToDoService.cs:46 | the default comparer of a nullable timestamp: an absent value is at most anything, a present value is never at most an absent one, and two present values compare as integers |
| `Ordering.AtMostTotalOrder` | ToDo.Core/Services/ToDoService.cs:46 | that comparer is reflexive, total, transitive and antisymmetric, so sorting by it is well defined |
| `DataContext.AscendingKeys` | ToDo.Core/Contexts/ToDoDbContext.cs:12 | the table's keys are enumerated once each, in strictly ascending order |
| `DataContext.Rows` | ToDo.Core/Contexts/ToDoDbContext.cs:12-20 | the table's rows are enumerated once each: as many rows as keys, exactly the stored items, and no item twice when every row sits under its own id |
| `DataContext.StoredUnderId` | ToDo.Core/Contexts/ToDoDbContext.cs:20 | with `Id` as the primary key, a stored item is the row stored under its own id |
| `DataContext.IdsDistinct` | ToDo.Core/Contexts/ToDoDbContext.cs:20 | with `Id` as the primary key, a list of rows holding no item twice holds no id twice |
| `Service.GetAll` | ToDo.Core/Services/ToDoService.cs:28-33 | returns as many items as the table holds, exactly the stored items, each id once, with `CreatedAt` non-increasing |
| `Service.GetAllListsEachOnce` | ToDo.Core/Services/ToDoService.cs:28-33 | every stored item occurs exactly once in the full list |
| `Service.GetById` | ToDo.Core/Services/ToDoService.cs:35-40 | returns a stored item whose `Id` is the argument, or nothing exactly when no stored item has that id; with keyed rows, it is the row stored under that id |
| `Service.GetCompleted` | ToDo.Core/Services/ToDoService.cs:42-48 | returns exactly the completed items, each id once, with `CompletedAt` non-increasing and absent values after all present ones |
| `Service.GetPending` | ToDo.Core/Services/ToDoService.cs:50-56 | returns exactly the items not completed, each id once, with `CreatedAt` non-increasing |
| `Service.Filtered` | ToDo.Core/Services/ToDoService.cs:42-56 | the filtered and sorted list holds exactly the rows with the given flag, sorted by the matching key, as often as the filter keeps them |
| `Service.CompletedAndPendingPartitionAll` | ToDo.Core/Services/ToDoService.cs:42-56 | the completed list and the pending list together are the full list, item for item, and their lengths add up to the table's size |
| `Service.ToDoService.constructor` | ToDo.Core/DependencyInjection.cs:12-13 | a fresh in-memory database is an empty table that satisfies the key invariant |
| `Service.ToDoService.Create` | ToDo.Core/Services/ToDoService.cs:58-66 | stamps `CreatedAt` and `UpdatedAt` with `now`, stores the item under a positive id not in use before, returns that id, and changes no other row |
| `Service.ToDoService.Update` | ToDo.Core/Services/ToDoService.cs:68-73 | sets `UpdatedAt` to `now`, writes the item back under its id, changes no other row, and answers true |
| `Service.ToDoService.Delete` | ToDo.Core/Services/ToDoService.cs:75-80 | removes exactly the item's row, so the table shrinks by one; changes no other row; answers true |
| `Service.ToDoService.Complete` | ToDo.Core/Services/ToDoService.cs:82-87 | writes the item back exactly as given, touching no timestamp itself, and answers true |
| `Mapping.ToGetDto` | ToDo.Core/Mappings/ToDoMappingProfile.cs:11-13 | the Get DTO copies `Id`, `Title`, `Description` and `IsCompleted` by name, shows `CreatedAt` as `DateCreated` and `CompletedAt` as `DateCompleted` (absent when it is absent) |
| `Mapping.GetDtoHidesOnlyUpdatedAt` | ToDo.Core/Mappings/ToDoMappingProfile.cs:11-13 | `UpdatedAt` is the only member the Get DTO does not show: two items give the same DTO exactly when they differ at most in `UpdatedAt` |
| `Mapping.FromCreateDto` | ToDo.Core/Mappings/ToDoMappingProfile.cs:15-20 | a create DTO becomes an entity with its title and description, and every ignored member at its default: id 0, not completed, no `CompletedAt`, both stamps at the zero instant |
| `Mapping.FromUpdateDto` | ToDo.Core/Mappings/ToDoMappingProfile.cs:22-26 | an update DTO becomes an entity with its title, description and completed flag, and id, `CompletedAt` and both stamps at their defaults |
| `Mapping.CreateDtoReadBack` | ToDo.Core/Mappings/ToDoMappingProfile.cs:15-20 | a create DTO mapped to an entity and back to a Get DTO keeps its title and description, and is pending with no completion date |
| `Mapping.CreateDtoSetsOnlyText` | ToDo.Core/Mappings/ToDoMappingProfile.cs:15-20 | two create DTOs map to entities that differ only in title and description: no id, flag or timestamp comes from the DTO |
| `Mapping.UpdateDtoReadBack` | ToDo.Core/Mappings/ToDoMappingProfile.cs:22-26 | an update DTO carries title, description and completed flag into the entity, and never an id or a timestamp |
| `CreateCommand.IsNullOrEmpty` | ToDo.Commands/ToDo/CreateToDoCommand.cs:33 | `string.IsNullOrEmpty`: false exactly for a present string of positive length, so a title of blanks passes |
| `CreateCommand.NewItemIsPending` | ToDo.Commands/ToDo/CreateToDoCommand.cs:38-39 | the created item carries the request's title and description, is not completed, has no `CompletedAt`, and has both stamps set to `now` |
| `CreateCommand.Handle` | ToDo.Commands/ToDo/CreateToDoCommand.cs:26-42 | a null request or body fails with `ArgumentNull`; a null or empty title fails with `ArgumentInvalid`; success happens exactly otherwise; failures leave the table unchanged; success adds exactly one row under a fresh positive id, which `GetById` then finds |
| `UpdateCommand.Handle` | ToDo.Commands/ToDo/UpdateToDoCommand.cs:23-58 | a null request fails with `ArgumentNull`, an unknown id with `NotFound`, a null body with `NullReference`, all with the table unchanged; on success the answer is true and only that row changes: title and description follow the request only where non-null before, the flag follows the request, `CompletedAt`, `Id` and `CreatedAt` are unchanged, and `UpdatedAt` is `now` |
| `CompleteCommand.Handle` | ToDo.Commands/ToDo/CompleteToDoCommand.cs:20-33 | an unknown id fails with `NotFound` and changes nothing; otherwise the answer is true and only that row changes: it becomes completed with `CompletedAt` and `UpdatedAt` both set to `now` |
| `CompleteCommand.Completed` | ToDo.Commands/ToDo/CompleteToDoCommand.cs:28-30 | the handler's item is completed with `CompletedAt` and `UpdatedAt` at `now`, and every other member is as fetched |
| `CompleteCommand.CompleteTwiceOnlyRestamps` | ToDo.Commands/ToDo/CompleteToDoCommand.cs:28-30 | completing twice equals completing once at the second time: still completed, and only the two stamps differ |
| `CompleteCommand.CompletedKeepsIdentity` | ToDo.Commands/ToDo/CompleteToDoCommand.cs:28-30 | completion keeps `Id`, `Title`, `Description` and `CreatedAt` |
| `DeleteCommand.Handle` | ToDo.Commands/ToDo/DeleteToDoCommand.cs:20-29 | an unknown id fails with `NotFound` and changes nothing; otherwise the answer is true, exactly that row is removed, the table shrinks by one, and `GetById` on that id finds nothing |
| `Queries.MapAll` | ToDo.Commands/ToDo/Queries/GetAllToDosQuery.cs:26 | the list mapping gives one DTO per entity, position for position, each the entity's Get DTO |
| `Queries.MapAllShows` | ToDo.Commands/ToDo/Queries/GetAllToDosQuery.cs:26 | the list mapping shows every entity of the list, and shows nothing else |
| `Queries.GetAllToDos` | ToDo.Commands/ToDo/Queries/GetAllToDosQuery.cs:23-27 | one DTO per stored item, `DateCreated` non-increasing, every stored item shown, each DTO the mapping of the row stored under its id, and no id shown twice |
| `Queries.GetCompletedToDos` | ToDo.Commands/ToDo/Queries/GetCompletedToDosQuery.cs:23-27 | only completed DTOs, every completed item shown, no id shown twice, `DateCompleted` non-increasing with absent dates last |
| `Queries.GetPendingToDos` | ToDo.Commands/ToDo/Queries/GetPendingToDosQuery.cs:23-27 | only pending DTOs, every pending item shown, no id shown twice, `DateCreated` non-increasing |
| `Queries.GetToDoById` | ToDo.Commands/ToDo/Queries/GetToDoByIdQuery.cs:24-28 | null exactly when no stored item has the id; otherwise the DTO of the row stored under it |
| `Lifecycle.CreateCompleteDelete` | ToDo.Commands/ToDo/CompleteToDoCommand.cs:22-32 | on an empty store, create "A", complete it, list completed, delete, look up: the completed list is that one item with its completion time, and the lookup then finds nothing |
| `Lifecycle.SingleCompleted` | ToDo.Core/Services/ToDoService.cs:42-48 | a table with one completed row lists exactly that row as completed |
| `Lifecycle.CompleteThroughUpdate` | ToDo.Commands/ToDo/UpdateToDoCommand.cs:46-54 | an item completed through an update is listed as completed with no completion date |
| `Lifecycle.NullDescriptionIsStuck` | ToDo.Commands/ToDo/UpdateToDoCommand.cs:41-44 | a description created as null stays null whatever the update asks for, while the title follows the request |
| `Lifecycle.DeleteTwice` | ToDo.Commands/ToDo/DeleteToDoCommand.cs:22-26 | deleting the same id again fails with `NotFound` |
| `Lifecycle.CompleteTwice` | ToDo.Commands/ToDo/CompleteToDoCommand.cs:28-30 | completing twice keeps the item completed, with `CompletedAt` and `UpdatedAt` at the second call's time |
| `Lifecycle.CreateThenGet` | ToDo.Commands/ToDo/CreateToDoCommand.cs:38-41 | the id a create returns looks up the DTO of the request's item, which is also in the pending list; a failed create changes nothing |

## Left out

- The HTTP controller (`ToDo.API/Controllers/ToDoController.cs`): routing and status codes. Its `NotFound` branches for a `false` answer are unreachable, since every handler's `Ok` carries `true`.
- Dependency-injection wiring, Swagger and host startup.
- The EF schema limits: the 200- and 1000-character maximum lengths, and the `Required` check on `Title` that the in-memory provider applies when saving. No handler checks them, so an update can store a null title in this model.
- async/await, cancellation tokens, change tracking, `SaveChanges` and AutoMapper internals. The model does "fetch, change, write back" directly on the table.
- The clock: `now` is a parameter. The two `DateTime.UtcNow` reads in `CreateAsync` and in the complete handler are modelled as one instant. Because the clock's monotonicity is not modelled, `UpdatedAt >= CreatedAt` is not claimed.
- Concurrent requests, and last-writer-wins on the shared in-memory database.
- ToDo.Domain/Entities/ToDo/ToDoItem.cs is not part of this model; the entity's members are taken from their uses in the service, the handlers and the mapping profile.
- `Service.ToDoService.Create`: requires the entity's id to be 0. The provider generates a key only for the default value, and the only caller passes an entity whose `Id` the mapping ignored. Explicit keys and duplicate-key failures are not modelled. Only "positive and not already present" is promised about the new id, not a particular number.
- `Service.ToDoService.Update`, `Service.ToDoService.Delete`, `Service.ToDoService.Complete`: require the entity to be a row of the table, as a tracked entity fetched by the handler is. Detached entities are not modelled.
- `Service.GetAll`, `Service.GetCompleted`, `Service.GetPending`: the contracts do not state the relative order of items with equal sort keys. In the source that order comes from the LINQ sort and the store's enumeration order, which the source does not fix.
- `CompleteCommand.Handle`, `DeleteCommand.Handle`: take the command by value. A null command is not modelled, since those handlers do not test for one.
