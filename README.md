# GTDApp inbox — a Dafny model

GTDApp is a small web API that keeps "inbox" task records. This project
models its rule layer over the database, in five modules:

- `Models` (`models.dfy`): the `Inbox` record (id, optional item, optional
  create and modify times) and its two constructors. It also defines the
  blank-item test `IsBlank`, which follows .NET's `string.IsNullOrWhiteSpace`.
- `InboxRules` (`rules.dfy`): the database is treated as an abstract table
  from id to record, plus the value its identity column hands out next.
  `Apply` says what saving one pending change does: an insert, a change to
  Item/ModifyTime of an attached stub, or a delete. Touching a row that is not
  there makes the save fail, which is the source's `DbUpdateException`. The
  step functions `CreateStep`, `UpdateStep` and `DeleteStep` state each
  service operation's outcome directly. The lemmas prove the operations'
  promises about them.
- `Services` (`service.dfy`): `InboxService`, a class whose fields are the
  table (`rows`) and its identity counter (`nextId`). Its methods follow the
  source step by step: build the new or stub record, check it, then call
  `SaveDbChanges`, which turns a failed save into `false`. Each method is
  proved to give exactly the outcome of the matching step function.
- `Api` (`api.dfy`): the request handler. Pure functions map a service result
  to a response kind (Ok, NotFound, BadRequest, CreatedAtRoute, NoContent). An
  `InboxController` class holds the service, and each of its actions makes
  one service call with its own argument.
- `Legacy` (`legacy.dfy`): the in-memory prototype. `InboxOld` records draw
  their ids from a shared counter (`IdCounter`, the static `_idCount`), and
  their setters fall back to defaults. `InboxControllerOld` works on the
  shared list of those records, which are objects, and its `Init` flag.

The clock is a parameter `now` of type `Time`, an opaque integer reading.
The source's old controller is declared over `Inbox`, yet it uses the `User`
property and the two-argument constructor, which only `InboxOld` has
(Controllers/api/InboxControllerOld.cs:64,86). The model therefore gives the
old controller `InboxOld` records.

## Model

| member | source | states |
|---|---|---|
| `Models.NewInbox` | Models/Inbox.cs:7-10 | The default constructor gives Id 0 ("not yet persisted") and leaves Item, CreateTime and ModifyTime absent |
| `Models.NewInboxWithItem` | Models/Inbox.cs:12-20 | `Inbox(item)` keeps any item as given, null and "" included, with Id 0 and no times: the type puts no constraint on Item |
| `Models.IsBlank` | Services/InboxService.cs:71 | `string.IsNullOrWhiteSpace`, as Create and Update (line 87) apply it: a null item is blank. A present item is blank exactly when every character it contains is white space in .NET's `Char.IsWhiteSpace` sense |
| `Models.BlankCharacterised` | Services/InboxService.cs:71 | "" and " \t" are blank. An item is not blank exactly when it contains one character that is not white space |
| `InboxRules.Apply` | Services/InboxService.cs:114 | What `SaveChangesAsync` does to the table with one pending change. A successful save touches only the row under the change's key. An insert adds that key with the new record. An update keeps the key set and changes only Item and ModifyTime of that row. A delete removes exactly that key |
| `InboxRules.ApplyFailsExactlyOnConflict` | Services/InboxService.cs:109-121 | A save fails, and the `DbUpdateException` is caught, exactly when it updates or deletes a row that is not stored, or inserts a key that is |
| `InboxRules.CreateRejectsBlank` | Services/InboxService.cs:65-78 | Create with a null, empty or white-space item returns nothing, stores nothing and allocates no id |
| `InboxRules.CreateAddsOneFreshRecord` | Services/InboxService.cs:65-78 | A valid Create returns a record with the input item, a non-zero id no stored row has, CreateTime = clock and no ModifyTime. The table gains exactly that row, every other row is kept, the size grows by one and the table stays well-formed |
| `InboxRules.CreateIgnoresSuppliedFields` | Services/InboxService.cs:68 | Two candidates with the same item give the same outcome, whatever Id (even an existing one), CreateTime or ModifyTime they carry |
| `InboxRules.CreateNeverReusesIds` | Services/InboxService.cs:68-74 | The identity value never goes down, and a new record never gets an id handed out earlier, deleted or not |
| `InboxRules.UpdateRejects` | Services/InboxService.cs:81-97 | Update returns nothing exactly when Id <= 0, the item is blank, or no row has that id. In those cases the table is unchanged |
| `InboxRules.UpdateChangesOnlyItemAndModifyTime` | Services/InboxService.cs:84-96 | On an existing row, Update sets the stored Item to the input and ModifyTime to the clock. Id, CreateTime, the key set and all other rows stay as they were. The returned record carries only Id, Item and ModifyTime, with no CreateTime |
| `InboxRules.DeleteRemovesExactlyOne` | Services/InboxService.cs:99-106 | Delete returns true iff the id was stored. Afterwards the id is absent, every other row is unchanged, and the size drops by one exactly when it returned true |
| `InboxRules.CreatePreservesInvariants` | Services/InboxService.cs:65-78 | Create keeps the table well-formed (keys positive, equal to their record's id, below the identity value) and keeps every stored item non-blank |
| `InboxRules.UpdatePreservesInvariants` | Services/InboxService.cs:81-97 | Update keeps the table well-formed and keeps every stored item non-blank |
| `InboxRules.DeletePreservesInvariants` | Services/InboxService.cs:99-106 | Delete keeps the table well-formed and keeps every stored item non-blank |
| `InboxRules.DeleteThenCreateFreshId` | Services/InboxService.cs:65-106 | After a row is deleted, a following Create does not hand its id out again |
| `InboxRules.TestTableScenarios` | GtdTest/InboxTests/InboxServiceTest.cs:303-320 | On the tests' table {1,2,3,5}: Create("New Task") gets an id outside the table, with the clock as CreateTime and no ModifyTime. Updating id 3 keeps its CreateTime. Updating id 99 changes nothing. Delete(2) returns true and row 2 is gone |
| `Services.InboxService.constructor` | Services/InboxService.cs:26-29 | A service over a given well-formed table and identity value |
| `Services.InboxService.GetAll` | Services/InboxService.cs:31-44 | Returns every stored record, each exactly once (ids distinct), and nothing else. The count equals the number of rows |
| `Services.InboxService.GetById` | Services/InboxService.cs:46-62 | Returns the stored record whose Id is `id`. Returns nothing exactly when no stored record has that Id |
| `Services.InboxService.SaveDbChanges` | Services/InboxService.cs:109-121 | Returns true iff the change can be applied. The table becomes the applied table on success and stays unchanged on failure |
| `Services.InboxService.Create` | Services/InboxService.cs:65-78 | Result, new table and new identity value are exactly `CreateStep` of the old state; the table stays well-formed |
| `Services.InboxService.Update` | Services/InboxService.cs:81-97 | Result and new table are exactly `UpdateStep` of the old state; the table stays well-formed |
| `Services.InboxService.Delete` | Services/InboxService.cs:99-106 | Result and new table are exactly `DeleteStep` of the old state; the table stays well-formed |
| `Api.ListResponse` | Controllers/api/InboxController.cs:20-24 | `Get()` always answers Ok, carrying the service's list unchanged |
| `Api.FetchResponse` | Controllers/api/InboxController.cs:27-35 | `Get(id)` answers Ok with the record iff the service found one, and NotFound iff it returned null |
| `Api.CreateResponse` | Controllers/api/InboxController.cs:38-52 | `Post` answers BadRequest iff Create returned null. Otherwise it answers CreatedAtRoute with route "inbox", the new record's Id and the record |
| `Api.UpdateResponse` | Controllers/api/InboxController.cs:55-67 | `Put` answers BadRequest iff Update returned null, and Ok with the updated record otherwise |
| `Api.DeleteResponse` | Controllers/api/InboxController.cs:70-77 | `Delete` answers NoContent iff the service returned true, and NotFound iff it returned false |
| `Api.InboxController.constructor` | Controllers/api/InboxController.cs:14-17 | The controller keeps the service it is given |
| `Api.InboxController.Get` | Controllers/api/InboxController.cs:20-24 | Ok with a list that holds every stored record, once each and nothing else |
| `Api.InboxController.GetById` | Controllers/api/InboxController.cs:27-35 | One GetById call with the same id, mapped by `FetchResponse`: Ok iff the id is stored |
| `Api.InboxController.Post` | Controllers/api/InboxController.cs:38-52 | One Create call with the same record: the response is `CreateResponse` of `CreateStep`'s result, and the table changes as `CreateStep` says |
| `Api.InboxController.Put` | Controllers/api/InboxController.cs:55-67 | One Update call with the same record: the response is `UpdateResponse` of `UpdateStep`'s result, and the table changes as `UpdateStep` says |
| `Api.InboxController.Delete` | Controllers/api/InboxController.cs:70-77 | One Delete call with the same id: the response is `DeleteResponse` of `DeleteStep`'s result, and the table changes as `DeleteStep` says |
| `Api.PostOutcome` | Controllers/api/InboxController.cs:38-52 | End to end, POST is BadRequest iff the item is blank, and then nothing is stored. Otherwise it is CreatedAtRoute("inbox") at a fresh non-zero id, carrying the input item, and that record is stored under that id |
| `Api.PutOutcome` | Controllers/api/InboxController.cs:55-67 | End to end, PUT is BadRequest iff Id <= 0, the item is blank or the row is missing: one undistinguished answer, and nothing changes. Ok carries the input Id and Item |
| `Api.DeleteOutcome` | Controllers/api/InboxController.cs:70-77 | End to end, DELETE is NoContent iff the id was stored, and the id is absent afterwards |
| `Legacy.OrElse` | Old/InboxOld.cs:21-29 | The null fallback `value ?? default`: the value when there is one, the default otherwise |
| `Legacy.IdCounter.constructor` | Old/InboxOld.cs:7 | The shared counter starts at 1, with no id handed out yet |
| `Legacy.InboxOld.constructor` | Old/InboxOld.cs:12-19 | `InboxOld()` takes the counter's value as Id and advances the counter by one, so the id was never handed out before. Item is "Undefined Inbox", User "Unknown", and both times come from the clock |
| `Legacy.InboxOld.WithItem` | Old/InboxOld.cs:21-24 | `InboxOld(item)`: as `InboxOld()`, but Item is the argument, or "Undefined Inbox" for null |
| `Legacy.InboxOld.WithItemAndUser` | Old/InboxOld.cs:26-29 | `InboxOld(item, user)`: as `InboxOld(item)`, but User is the argument, or "Unknown" for null. The counter still advances once |
| `Legacy.InboxOld.SetItem` | Old/InboxOld.cs:37-45 | The Item setter stores the value, or "Undefined Inbox" for null, and sets ModifyTime to the clock. Id, CreateTime and User are unchanged |
| `Legacy.InboxOld.SetUser` | Old/InboxOld.cs:47-55 | The User setter stores the value, or "Unknown" for null, and sets ModifyTime to the clock. Id, CreateTime and Item are unchanged |
| `Legacy.FirstIndexOf` | Controllers/api/InboxControllerOld.cs:34 | Returns the position of the first record with the given Id, or -1 exactly when no record has it |
| `Legacy.InboxControllerOld.constructor` | Controllers/api/InboxControllerOld.cs:12-13 | The static state starts as an empty list with Init false |
| `Legacy.InboxControllerOld.Construct` | Controllers/api/InboxControllerOld.cs:15-19 | Seeding runs once. The first construction appends the four fresh seed records of `InitialiseInboxList` (items, users, consecutive ids, CreateTime and ModifyTime from the clock) and sets Init; later ones leave the list, the counter value and the set of issued ids alone |
| `Legacy.InboxControllerOld.InitialiseInboxList` | Controllers/api/InboxControllerOld.cs:84-91 | Appends, after the existing list, four fresh records: ("Post Letter", "Gill"), ("Phone Fred", "Bob"), ("Clean Fridge", "Unknown") and ("Write up finances", "Accountant"). Both times of each are the clock. Their ids are consecutive counter values, and exactly those four ids join the set of issued ids. It returns true |
| `Legacy.InboxControllerOld.GetInbox` | Controllers/api/InboxControllerOld.cs:23-27 | Returns the whole list, with the same records in the same order, unfiltered |
| `Legacy.InboxControllerOld.GetInboxById` | Controllers/api/InboxControllerOld.cs:31-37 | NotFound iff no record has the id. Otherwise Ok with the first record that has it |
| `Legacy.InboxControllerOld.CreateInbox` | Controllers/api/InboxControllerOld.cs:42-52 | An empty item gives BadRequest("Error: Inbox Item is not defined") and leaves the list unchanged. Any other record, white-space items included, is appended as given with no check for a duplicate id, and returned |
| `Legacy.InboxControllerOld.UpdateInbox` | Controllers/api/InboxControllerOld.cs:57-67 | With no match, NotFound. Otherwise the first match gets the given Item and User through the setters, a new ModifyTime, and keeps its Id and CreateTime. The list and every other record object are unchanged |
| `Legacy.InboxControllerOld.DeleteInbox` | Controllers/api/InboxControllerOld.cs:71-81 | With no match, NotFound and the list unchanged. Otherwise it removes exactly the first match and returns it; the length drops by one and the others keep their order |

## Left out

- Entity Framework mechanics are not modelled: `Add`, `Attach`, `AsNoTracking`, entry states and `SaveChangesAsync`. Only their effect on the abstract table is kept. That includes the change tracker still holding a stub after a failed save within the same context.
- The `ArgumentNullException` branch of `GetAll` (Services/InboxService.cs:40-43) cannot arise over an abstract table and is left out.
- `async`/`Task`: every call is one sequential step.
- Clocks: `DateTime.UtcNow` in Create and `DateTime.Now` in Update are both the parameter `now`. The source stamps CreateTime in UTC and ModifyTime in local time; the model does not reconcile the two. `InboxOld()` reads the clock twice (Old/InboxOld.cs:15-16), and `UpdateInbox` reads it twice through the Item and User setters (Controllers/api/InboxControllerOld.cs:63-64, Old/InboxOld.cs:43,53). In both places the model uses one reading.
- Services.InboxService.GetAll: it promises no order, as the source does not; the model's scan happens to walk the keys in ascending order.
- Integer widths: ids are unbounded integers. A 32-bit overflow of the identity column, or of `_idCount` (Old/InboxOld.cs:14), is not modelled.
- Legacy.InboxOld.constructor: the public `Id`, `CreateTime` and `ModifyTime` setters of `InboxOld` are not modelled; the old controller does not use them.
- Services.InboxService.Create: a null candidate cannot be represented, because the parameter type `Inbox` has no null. In the source, `Create(null)` throws a NullReferenceException at `inbox.Item` (Services/InboxService.cs:68), which reaches `Post` unhandled.
- Services.InboxService.Update: a null candidate cannot be represented. In the source, `Update(null)` throws a NullReferenceException at `inbox.Id` (Services/InboxService.cs:84), which reaches `Put` unhandled.
- Legacy.InboxControllerOld.CreateInbox: a null record cannot be represented. In the source it throws a NullReferenceException at `inboxItem.Item` (Controllers/api/InboxControllerOld.cs:45).
- Legacy.InboxControllerOld.UpdateInbox: a null record cannot be represented. In the source, when the id is found, it throws a NullReferenceException at `item.Item` (Controllers/api/InboxControllerOld.cs:63).
- Request binding is not modelled: the record handed to `CreateInbox`/`UpdateInbox` comes from the caller. Because the `InboxOld` setters replace null, its Item and User are never null. The model's field type `string` carries that fact, and `IsNullOrEmpty` becomes an emptiness test.
- The interface `IInboxService`, `ServiceContext`, `DatabaseContext` and the migration are wiring and schema only; they are not part of this model.
- HTTP routes, attributes and numeric status codes become the abstract response kinds.
- Concurrency on the old controller's process-wide static list is not modelled: the list is one object's state, used single-threaded.
- The tests' randomised case selection, date parsing and 100-second time tolerance are not modelled.
