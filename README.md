# wine-rater-api: request handling and table semantics, in Dafny

This project models the resource layer of the wine-rater backend: the two
Express routers (`/wines`, `/users`) and the service objects they call, with
the Postgres tables replaced by in-memory tables of rows.

- `common.dfy`: module `Wrappers` (`Option`) and module `Http`. `Http` holds:
  - the values a JSON body key can hold (`Field`: undefined, null or a value);
  - JavaScript truthiness of string keys;
  - the `Response` a handler produces (status, body, Location);
  - the required-field loop shared by both create handlers;
  - decimal id text and its parsing;
  - the Location header built by `path.posix.join(originalUrl, `/${id}`)`.
- `wines_service.dfy`: the wines table as a class (`WinesTable`) with a `seq<Wine>` of rows and the serial id counter. It has the pure reads (`GetWines`, `GetById`) and the in-place changes (`InsertWine`, `DeleteWine`, `UpdateWine`).
- `wines_router.dfy`: `serializeWine`, GET and POST on `/`, and the `/:wine_id` route. On that route the existence gate runs before GET, DELETE and PATCH.
- `users_service.dfy`: the users table (`UsersTable`) with `InsertUser`, `GetUserByUsername`, `GetAllUsernames`.
- `users_router.dfy`: `serializeUser`, `serializeUsername`, account creation, login and the username list.

The HTML filter `xss` is a foreign library, so every serializer takes it as a parameter `esc: string -> string`. The model assumes nothing about it except that `xss(null)` gives the empty string. Each service call that changes a table is a method on the table object (`InsertWine`, `DeleteWine`, `UpdateWine`, `InsertUser`). The handlers that call them (`PostWine`, `WineRoute`, `PostUser`) are methods that take the table, and every one of these contracts states the whole new table. Each handler that only reads is a function of the rows. The pure table operations carry the lemmas: order preservation, exact removal, lookup after insert or patch, and round-trips of ids through their text.

Two modelling facts about the serializers:
- `serializeUser` (src/users/users-router.js:11-16) builds no `password` key, so `UserJson` has none. `SerializeUserIgnoresPassword` proves the output does not depend on the stored password.
- `xss` is a tag-aware whitelist filter: the fixtures (test/wines.fixtures.js:36-55) expect it to keep `<strong>` and strip an `onerror` attribute. It is therefore the uninterpreted parameter `esc`.

## Model

| member | source | states |
|---|---|---|
| `Http.FirstNullish` | src/wines/wines-router.js:54-61 | the key reported is that of the first entry whose value is null or undefined, every earlier entry is present, and nothing is reported exactly when every entry is present |
| `Http.FirstMissing` | src/users/users-router.js:30-37 | the `for .. of Object.entries` loop with early return computes exactly the first missing key |
| `Http.CountTruthy` | src/wines/wines-router.js:121-122 | the `filter(Boolean).length` count is zero exactly when no value is truthy (present and non-empty) |
| `Http.IdText` | src/wines/wines-router.js:71 | the text of an id in a Location is a non-empty string of decimal digits with no leading zero, and has one digit exactly when the id is below 10 |
| `Http.ParseIdText` | src/wines/wines-service.js:19-25 | the text written for an id reads back as the same id when the storage compares it with the integer column |
| `Http.IdTextInjective` | src/users/users-router.js:47 | two different ids never produce the same Location segment |
| `Http.TrimTrailingSlashes` | src/users/users-router.js:47 | joining drops the trailing slashes of the request path and keeps the rest as it was |
| `Http.LocationNamesId` | src/wines/wines-router.js:71 | the Location is the request path, then one slash, then a segment that parses back to the new row's id |
| `WinesService.GetWines` | src/wines/wines-service.js:2-7 | a row is in the result exactly when it is in the table and carries that `user_id` |
| `WinesService.GetWinesAppend` | src/wines/wines-service.js:2-7 | the selection keeps table order: it distributes over concatenation of tables |
| `WinesService.GetById` | src/wines/wines-service.js:19-25 | the result is the first row carrying the id, or nothing exactly when no row carries it |
| `WinesService.GetByIdUnique` | src/wines/wines-service.js:19-25 | when ids are distinct, the lookup of a row's id returns that row |
| `WinesService.CountId` | src/wines/wines-service.js:27-37 | the affected-row count is zero exactly when no row carries the id |
| `WinesService.WithoutId` | src/wines/wines-service.js:27-31 | after the delete, a row remains exactly when it was there and does not carry the id; the length drops by the number of matches |
| `WinesService.WithoutIdAppend` | src/wines/wines-service.js:27-31 | the delete keeps the remaining rows in their order |
| `WinesService.WithoutIdNoMatch` | src/wines/wines-service.js:27-31 | a delete whose id matches no row leaves the table as it was |
| `WinesService.WithoutIdRemovesOne` | src/wines/wines-service.js:27-31 | with distinct ids, deleting the id of row k removes exactly row k and nothing else |
| `WinesService.WithoutIdKeepsDistinct` | src/wines/wines-service.js:27-31 | a delete keeps the ids of the table distinct |
| `WinesService.ApplyPatch` | src/wines/wines-service.js:33-37 | each mutable column takes the patched value where the patch has one (null clears a nullable column) and keeps its value where the key is undefined; `wine_id` and `user_id` never change |
| `WinesService.ApplyPatchIdempotent` | src/wines/wines-service.js:33-37 | applying the same patch twice gives the same row as applying it once |
| `WinesService.Patched` | src/wines/wines-service.js:33-37 | the update keeps the row count and patches the rows carrying the id; every other row is left unchanged |
| `WinesService.GetByIdAfterPatch` | src/wines/wines-service.js:19-37 | looking the id up after the update gives the patched form of the row it gave before, or nothing if there was none |
| `WinesService.PatchOnlyName` | test/wines-endpoints.spec.js:399-423 | a patch naming only `wine_name` gives the old row with just that column replaced |
| `WinesService.WinesTable.constructor` | src/wines/wines-service.js:1-38 | a new table is empty, consistent, and its serial counter starts at 1 |
| `WinesService.WinesTable.InsertWine` | src/wines/wines-service.js:9-17 | appends exactly one row carrying the supplied columns and an id no earlier row has, and returns that row |
| `WinesService.WinesTable.DeleteWine` | src/wines/wines-service.js:27-31 | the new table is the old one without the rows carrying the id; the count returned is how many went |
| `WinesService.WinesTable.UpdateWine` | src/wines/wines-service.js:33-37 | the new table is the patched old one, and the count is the number of matching rows. A statement with no column, or one putting NULL into a NOT NULL column of a matching row, is rejected and changes nothing |
| `WinesRouter.SerializeWine` | src/wines/wines-router.js:11-20 | `wine_id` and `user_id` pass through unchanged and exactly the six text columns go through the filter, with a null column sent as the empty string. The output type has only these eight keys |
| `WinesRouter.SerializeAll` | src/wines/wines-router.js:44 | the list has one serialized wine per row, in the same order |
| `WinesRouter.ListWines` | src/wines/wines-router.js:24-47 | a missing or empty `userId` gives exactly the 400 "Query must contain 'userId'", whatever the table holds. A numeric one gives 200, with no Location, and that user's rows serialized in table order. Other text is rejected by the storage (500) |
| `WinesRouter.ListWinesEmpty` | src/wines/wines-router.js:39-45 | a user with no rows gets the empty list |
| `WinesRouter.MissingWineKey` | src/wines/wines-router.js:49-61 | the reported key is the first of wine_name, winery, varietal, rating, user_id (in that order) that is null or undefined. `vintage` and `notes` never fail, and an empty string is not missing |
| `WinesRouter.PostWine` | src/wines/wines-router.js:48-75 | a missing key gives 400 "Missing '<key>' in request body" and inserts nothing. Otherwise exactly the seven columns are inserted under the next serial id, which advances by one, and the response is 201 with Location `<originalUrl>/<wine_id>` and the serialized new row as body |
| `WinesRouter.Gate` | src/wines/wines-router.js:79-98 | 404 "Wine doesn't exist" exactly when no row carries the id. 500 exactly when the storage cannot read the id. The row is found exactly when the id parses and some row carries it, and it is then the first such row |
| `WinesRouter.WineRoute` | src/wines/wines-router.js:77-138 | the gate decides first, and on 404 nothing else happens, so a PATCH with an empty body on an unknown id gets 404. GET sends the row. DELETE removes its rows and sends 204. PATCH with no truthy mutable value sends 400 and changes nothing; otherwise it updates only the six mutable columns and sends 204 |
| `WinesRouter.DeleteThenGetNotFound` | src/wines/wines-router.js:102-113 | after deleting an id, the gate answers 404 for it |
| `WinesRouter.GetAfterCreate` | test/wines-endpoints.spec.js:316-321 | a GET on the id of a freshly inserted row finds that row, so it answers with the body the create answered with |
| `WinesRouter.GetAfterNamePatch` | test/wines-endpoints.spec.js:399-423 | after a PATCH of only `wine_name`, GET on that id finds the old row with just the name replaced |
| `UsersService.GetUserByUsername` | src/users/users-service.js:12-17 | the result is the first row whose username equals the name exactly, or nothing exactly when there is none |
| `UsersService.GetAllUsernames` | src/users/users-service.js:19-21 | one entry per row, same length and order, each holding that row's username |
| `UsersService.LookupAfterInsert` | src/users/users-service.js:2-17 | after an insert, a lookup of its username always finds a row: the earlier row with that name if any, else the new row |
| `UsersService.UsernamesAfterInsert` | src/users/users-service.js:2-21 | after an insert, the username list has grown by exactly the new row's name, at the end |
| `UsersService.UsersTable.constructor` | src/users/users-service.js:1-22 | a new table is empty, consistent, and its serial counter starts at 1 |
| `UsersService.UsersTable.InsertUser` | src/users/users-service.js:2-10 | appends exactly one row carrying the supplied columns and an id no earlier row has, and returns that row |
| `UsersRouter.SerializeUser` | src/users/users-router.js:11-16 | `user_id` passes through, and first_name, last_name and username go through the filter. The output type has no `password` |
| `UsersRouter.SerializeUserIgnoresPassword` | src/users/users-router.js:11-16 | the serialized user is the same whatever password the row stores |
| `UsersRouter.SerializeUsername` | src/users/users-router.js:19-21 | the output holds only the filtered username |
| `UsersRouter.SerializeUsernames` | src/users/users-router.js:101 | one serialized username per row, in the same order |
| `UsersRouter.MissingUserKey` | src/users/users-router.js:26-37 | the reported key is the first of first_name, last_name, username, password (in that order) that is null or undefined |
| `UsersRouter.PostUser` | src/users/users-router.js:25-51 | a missing key gives 400 "Missing '<key>' in request body" and inserts nothing. Otherwise one row is inserted under the next serial id, which advances by one, and the response is 201 with Location `<originalUrl>/<user_id>` and the serialized new row as body |
| `UsersRouter.Login` | src/users/users-router.js:56-91 | checks in order. First, 400 exactly when the username or password is falsy, before any lookup. Then 404 exactly when no row has the username. Then 401 exactly when the first such row's raw stored password differs. Otherwise 200 with that row serialized |
| `UsersRouter.LoginAfterSignup` | src/users/users-router.js:39-88 | an account created under an unused username logs in with its own credentials and gets its own row back |
| `UsersRouter.ListUsernames` | src/users/users-router.js:96-103 | 200, with no Location, and one filtered username per row in table order, so `[]` on an empty table |

## Left out

- Express routing and dispatch, `express.json()` body parsing, `res.status(..).json(..)` plumbing: only the status, body and Location they produce are modelled. The router's `res.wine` hand-off is the `Lookup` value the gate returns.
- The auth-token gate that gives 401 "Unauthorized request": `src/app.js` is not part of this model.
- `src/config.js` (environment reading), the logger calls, and the promise chaining with `.catch(next)`. A storage rejection is modelled as a 500 `ServerError` response; the error handler's body is not modelled.
- The `xss` filter's algorithm: a foreign tag-aware whitelist filter, passed in as `esc`.
- Concurrency between requests: each handler runs alone on the table.
- Body key types: each key has the type its column has (text keys strings, `user_id` an integer). JSON values of other types (a number sent for `wine_name`, a string for `user_id`) and keys repeated in the query string are not modelled.
- `Http.ParseId` accepts only non-empty decimal digits. Postgres also accepts surrounding blanks and a sign (`" 7"`, `"+7"`, `"-1"`); the model rejects those. Postgres rejects values above 2147483647 (32-bit `integer`); the model accepts them.
- `Http.JoinLocation` trims trailing slashes of `originalUrl` only; `path.posix.join` also collapses `.`, `..` and repeated slashes inside the path.
- Storage constraints other than NOT NULL on the wine columns: the unique `username`, the foreign key from `wines.user_id` to `users`, and the 32-bit limit of the serial ids. The model's inserts always succeed, and a duplicate username is found by the first-match lookup.
- The NOT NULL columns of `wines` and knex's refusal of an empty `.update()` come from the storage, whose schema is not part of this model. They are taken from the data model (wine_name, winery, varietal, rating, user_id mandatory).
