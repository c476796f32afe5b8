# User CRUD endpoint handler — Dafny model

This project models the `UserController` of a small ASP.NET Core REST
service. The controller exposes one resource, `User`, through five actions:
list all, get by id, create, update and delete. It stores records in a
single table (`UserTable`) through an Entity Framework Core context.

The model has five modules:

- `UserTable` (`user_table.dfy`) defines the record: an `int` key `Id`, a
  `Name`, and four text fields whose initialisers supply `"password"`,
  `"email@email.com"`, `""` and `"S"`. `Build` applies those defaults to the
  properties a caller supplies (`UserInit`). C#'s `int` is the subset type
  `Int32`.
- `UserStore` (`user_store.dfy`) is an abstract stand-in for the database
  context. It holds a map from key to row plus the table's key sequence
  (`lastId`, the larger of 0 and every key ever stored). It provides the insert, update,
  delete and full-scan operations that the controller's calls reach.
  `Valid` is the table invariant: every row is stored under its own `Id`,
  and no key exceeds the sequence.
- `UserController` (`user_controller.dfy`) defines the five actions as pure
  functions from (table, request) to `Outcome(response, table)`. Responses
  are `Ok`, `OkList`, `Created`, `BadRequestErrors`, `BadRequest`,
  `NotFound` and `StoreError`. The framework's model state is an input: a
  list of field errors, valid exactly when the list is empty.
- `ControllerRuns` (`controller_runs.dfy`) serves a sequence of requests
  against one table. It proves that the invariant holds throughout and
  that generated keys are never reused.
- `ControllerScenarios` (`controller_scenarios.dfy`) restates the
  controller test suite's scenarios on the model.

Modelling decisions:

- **Put on a missing id.** The controller marks the body `Modified` and
  saves without checking that the row exists. The update then affects zero
  rows and the save throws. The model returns
  `StoreError(RowMissing(id))` and leaves the table unchanged. It never
  inserts the row.
- **Post with a caller-supplied `Id`.** The controller passes the body to
  `AddAsync` as it is. An `Id` of 0 (the CLR default) makes the store
  generate a key larger than `lastId`; the model picks `lastId + 1`. Any
  other `Id` is stored as given, and the successful insert moves the
  sequence up to that key if it is larger, as an AUTOINCREMENT sequence
  does. If that key is already taken, the save fails with `DuplicateKey`
  and neither the table nor the sequence changes.
- **Key overflow.** A generated key that would not fit in an `int` is
  modelled as `StoreError(KeysExhausted)`, with the table unchanged.
- **List order.** `Get()` issues no ordering. The model lists records in
  ascending key order, which is the order of a scan by primary key and the
  order the test suite expects.

## Model

| member | source | states |
|---|---|---|
| `UserTable.NameOnlyDefaults` | ServerRest/DataBase/UserTable.cs:10-15 | A record built with only `Name` has `Id` 0, that name, `Password` "password", `Email` "email@email.com", `Token` "" and `Role` "S" |
| `UserTable.Build` | ServerRest/DataBase/UserTable.cs:10-15 | Every property the caller supplies overrides its initialiser; an absent `Id` is the CLR default 0, and absent `Password`, `Email`, `Token`, `Role` take "password", "email@email.com", "" and "S" |
| `UserTable.BuildSuppliedRoundTrip` | ServerRest/DataBase/UserTable.cs:9-15 | Supplying all six properties of a record rebuilds exactly that record |
| `UserStore.KeysAreIds` | ServerRest/DataBase/UserTable.cs:9-10 | On a valid table two stored rows have the same `Id` exactly when they are the same row, and a row stored at key `k` has `Id == k` |
| `UserStore.Listing` | ServerRest/Controllers/UserController.cs:23 | The full scan has one entry per stored row; on a valid table the ids strictly ascend, and a record is listed exactly when it is the row stored under its own id |
| `UserStore.Insert` | ServerRest/Controllers/UserController.cs:46-47 | A committed insert adds exactly one row, under a key not previously present, and changes no other row; a generated key exceeds the sequence, a supplied key is kept; on a valid table it commits exactly when the generated key fits in an `int` or the supplied key is free; the invariant is preserved |
| `UserStore.Update` | ServerRest/Controllers/UserController.cs:65-66 | The save commits exactly when a row exists at the body's id; it then replaces that row with the body, keeps the key set and the sequence, and otherwise fails with `RowMissing` (never an insert) |
| `UserStore.Remove` | ServerRest/Controllers/UserController.cs:80-81 | Removing a key drops exactly that key, leaves every other row and the sequence unchanged, and preserves the invariant |
| `UserController.StatusCode` | ServerRest/Controllers/UserController.cs:24-83 | 200 exactly for `Ok`/`OkList`, 201 exactly for `Created` (`CreatedAtAction`), 400 exactly for `BadRequest(ModelState)` and bare `BadRequest()`, 404 exactly for `NotFound()`, and 500 exactly for a store failure escaping the action |
| `UserController.GetAll` | ServerRest/Controllers/UserController.cs:21-25 | Always `OkList` with the table unchanged; it lists exactly the stored records, one per row, in ascending id order on a valid table |
| `UserController.Get` | ServerRest/Controllers/UserController.cs:31-37 | `NotFound` exactly when no row is stored at `id`, otherwise `Ok` with that row (whose `Id` is `id` on a valid table); the table is unchanged either way |
| `UserController.Post` | ServerRest/Controllers/UserController.cs:42-49 | Invalid model state gives `BadRequestErrors` with those errors and an unchanged table; a `Created` response has location equal to the created record's `Id`, adds exactly that record at a previously absent key and changes nothing else; every non-created outcome leaves the table unchanged, and with valid model state the only non-created outcome is `StoreError` (duplicate key, or key overflow when the key is generated), never a 400; on a valid table, valid input creates exactly when the key can be assigned; the invariant is preserved and the sequence never goes back |
| `UserController.Put` | ServerRest/Controllers/UserController.cs:54-68 | Validation failure wins over every other check; with valid input, mismatched ids give a bare `BadRequest`; matching ids on a missing row give `StoreError`; `Ok(body)` happens exactly when all checks pass and the row exists, and then only that row is replaced; every other outcome leaves the table unchanged |
| `UserController.Delete` | ServerRest/Controllers/UserController.cs:73-83 | A missing id gives `NotFound` with the table unchanged; a present id answers `Ok` with the row as it was before removal, removes only that key and keeps the sequence |
| `UserController.PutValidationFirst` | ServerRest/Controllers/UserController.cs:56-64 | With invalid model state, the response is a 400 carrying the errors, whatever the path id, the body id and the table hold, and the table is unchanged |
| `UserController.PutMismatchIgnoresStore` | ServerRest/Controllers/UserController.cs:61-64 | With valid input and path id different from body id, the response is a bare 400 whether or not a row exists, and the table is unchanged |
| `UserController.PostThenGet` | ServerRest/Controllers/UserController.cs:46-48 | After a successful create, getting the returned location yields the created record |
| `UserController.PostKeepsOthers` | ServerRest/Controllers/UserController.cs:46-47 | A create, whatever its outcome, leaves every previously stored row in place and unchanged |
| `UserController.FirstPostGetsOne` | ServerRest/Controllers/UserController.cs:46-48 | On an empty table, a valid create with an unset `Id` answers 201 with location 1 and the body keyed 1 |
| `UserController.PutThenGet` | ServerRest/Controllers/UserController.cs:65-67 | After a successful update, getting `id` yields the body, and getting any other key yields what it yielded before |
| `UserController.PutResetsOmittedFields` | ServerRest/Controllers/UserController.cs:65-67 | The update replaces the whole row: a body built without `Password` stores the default "password", not the previous value |
| `UserController.DeleteTwice` | ServerRest/Controllers/UserController.cs:75-79 | A second delete of the same id answers `NotFound` and changes nothing |
| `UserController.DeleteThenGet` | ServerRest/Controllers/UserController.cs:80-81 | After a delete of `id`, getting `id` answers `NotFound` |
| `ControllerRuns.Handle` | ServerRest/Controllers/UserController.cs:19-83 | Every action preserves the table invariant and never moves the sequence back; only a create answers `Created`, and then with a key no larger than the new sequence, and larger than the old one when the key was generated |
| `ControllerRuns.Trace` | ServerRest/Controllers/UserController.cs:19-83 | The run has one table per request plus the final one; each is the previous table after the corresponding action |
| `ControllerRuns.TraceValid` | ServerRest/DataBase/UserTable.cs:9-10 | Every table a run starting from a valid table passes through keeps each row under its own `Id`, so no two rows share an `Id` |
| `ControllerRuns.TraceLastIdMonotone` | ServerRest/Controllers/UserController.cs:46-47 | The key sequence never decreases over a run |
| `ControllerRuns.GeneratedKeysIncrease` | ServerRest/Controllers/UserController.cs:46-48 | A create whose key is generated answers with a larger key than every earlier create in the run, even if that record was since deleted |
| `ControllerRuns.GeneratedKeyFresh` | ServerRest/Controllers/UserController.cs:46-48 | A generated key is larger than every key stored at any earlier point of the run |
| `ControllerScenarios.SeedAll` | ServerRest.Test/UserControllerTests.cs:35-39 | Seeding is one save. On a valid table it succeeds whenever every record carries a set key, the keys are distinct and none is already stored. When it succeeds, every record with a set key is stored under that key, the table grows by exactly the number of records, earlier rows are kept, the sequence does not go back and a valid table stays valid (the all-or-nothing failure is shown by `SeedDuplicateFails`) |
| `ControllerScenarios.SeedDuplicateFails` | ServerRest.Test/UserControllerTests.cs:38-39 | Seeding two records with the same key fails the save as a whole, with nothing persisted |
| `ControllerScenarios.ListThree` | ServerRest.Test/UserControllerTests.cs:32-56 | Three records seeded with ids 1, 2, 3 are listed as exactly those three, in that order |
| `ControllerScenarios.PostTwiceThenList` | ServerRest.Test/UserControllerTests.cs:97-112 | Extends that single-create test with a second create and a listing: two creates from names alone get keys 1 and 2 and are listed in that order with every default applied |
| `ControllerScenarios.GetSeeded` | ServerRest.Test/UserControllerTests.cs:59-76 | Getting a seeded id answers `Ok` with that record |
| `ControllerScenarios.GetMissing` | ServerRest.Test/UserControllerTests.cs:79-94 | Getting an absent id answers `NotFound` |
| `ControllerScenarios.PostCreates` | ServerRest.Test/UserControllerTests.cs:97-112 | A create from a name alone on an empty table answers `Created` with id 1 and that name |
| `ControllerScenarios.PostInvalid` | ServerRest.Test/UserControllerTests.cs:115-129 | A create with a `Name` error answers `BadRequestErrors` and leaves the table empty |
| `ControllerScenarios.PutUpdates` | ServerRest.Test/UserControllerTests.cs:132-152 | Updating id 1 with a modified name answers `Ok` with the body, and the stored name is the new one |
| `ControllerScenarios.PutInvalid` | ServerRest.Test/UserControllerTests.cs:155-173 | An update with a `Name` error answers `BadRequestErrors` |
| `ControllerScenarios.PutIdsDontMatch` | ServerRest.Test/UserControllerTests.cs:176-193 | An update of path id 1 with body id 2 answers a bare `BadRequest`, and the stored name is unchanged |
| `ControllerScenarios.DeleteSeeded` | ServerRest.Test/UserControllerTests.cs:196-214 | Deleting the only record answers `Ok` with it and leaves the table empty |
| `ControllerScenarios.DeleteMissing` | ServerRest.Test/UserControllerTests.cs:217-232 | Deleting an absent id answers `NotFound` |

## Left out

- Hosting, routing, Swagger, dependency injection and the migration at start-up (`ServerRest/Program.cs`) are not modelled.
- The database configuration (`ServerRest/DataBase/AppDbContext.cs`) is not modelled. The abstract `UserStore` stands in for the context and its database.
- `async`/`Task`, HTTP routing and JSON serialisation are not modelled. Of `CreatedAtAction`, the model keeps only the location id, not the URL.
- How the framework fills the model state (data annotations, nullable reference types) is not modelled. The validation result is an input to `Post` and `Put`.
- A `null` `Name` is not modelled: `UserInit` always supplies a name. A request without one is expected to fail validation, and validation is an input.
- Change tracking inside the context is not modelled. In particular, `Put` attaching a body while another instance with the same key is already tracked would throw. That cannot happen with one context per request.
- Store failures that do not follow from the request and the table, such as an unavailable database or a timeout, are not modelled. Only the deterministic failures are: duplicate key, key overflow and update of a missing row.
- Concurrent requests are not modelled. Requests are served one after another, and the source has no conflict handling.
- The exact HTTP status of a store failure is not modelled. The source lets the exception escape, and `StatusCode` maps `StoreError` to 500 as the hosting layer's default.
