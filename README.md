# Admin and category routes, modelled in Dafny

This project models the request handlers of a small REST backend. The handlers manage two
relational tables:

- `categories` has the columns `id`, `name`, `item_count` and `image_url`. Its handlers are
  GET `/` (list), POST `/` (create) and PUT `/:id` (update).
- `admins` has the columns `id`, `username`, `password` (a bcrypt digest) and `email`. Its
  handlers are POST `/signup` and POST `/login`.

Each table is a class holding its rows as a `seq` field (`CategoryRoutes.CategoryStore`,
`AuthRoutes.AdminStore`). Handlers that write the table are methods with `modifies this`.
They return an `Http.Outcome`: `Ok` (200), `Created` (201), `BadRequest` (400),
`Unauthorized` (401) or `NotFound` (404), each error carrying the handler's exact message.
Handlers that only read are functions. `list` reads the category table and `login` reads the
admin table.

The SQL the handlers issue is modelled in module `Table`:
- `SELECT ... WHERE` is `Where`.
- `UPDATE ... WHERE` is `SetWhere`.
- A generated id is `NextKey`, a value no row has yet.

Request bodies are values of type `Option`. JavaScript truthiness is written out in module
`Request`:
- a string field is falsy when it is absent, `null` or `""`;
- `itemCount` is falsy when it is absent, `null` or `0`;
- `x || y` is `TextOr` for strings and `CountOr` for counts.

The library calls are parameters of the handlers, and nothing is assumed about them:
- `bcrypt.genSalt` with `bcrypt.hash` is `hash`;
- `bcrypt.compare` is `compare`;
- `jwt.sign`, together with its secret and expiry, is `sign`.

What is proved:
- Every handler returns the right outcome on every branch.
- Every rejection leaves the table unchanged.
- `create` and `update` keep category names unique. `signup` keeps usernames and emails
  unique. Each pre-check rejects exactly the writes that would break that uniqueness.
- `list` returns a permutation of the rows sorted by name. When names are unique, that
  order is the only one possible.
- Login gives the same answer for an unknown user and for a wrong password.
- An admin that `signup` inserted can log in.

`update` keeps the stored `item_count` and `image_url` whenever the request's value is
falsy. So `update` can never set the count to 0 or clear the image. This behaviour is
modelled as written, and the contract of `CategoryRoutes.CategoryStore.Update` states it.

## Model

| member | source | states |
|---|---|---|
| `CategoryRoutes.CategoryStore.List` | src/routes/category.js:8-16 | the response is the table's rows (same multiset), sorted by name ascending; a function reading the store, so the table is unchanged |
| `CategoryRoutes.SortByName` | src/routes/category.js:10 | `ORDER BY name` yields a permutation of its input that is sorted by name |
| `CategoryRoutes.InsertByName` | src/routes/category.js:10 | adding one row to a name-sorted list keeps it sorted and adds exactly that row |
| `CategoryRoutes.SortedArrangementUnique` | src/routes/category.js:10 | two name-sorted arrangements of the same rows with unique names are equal |
| `CategoryRoutes.OrderByNameUnique` | src/routes/category.js:10 | on a table with unique names, any sorted permutation of the rows is exactly the list's answer |
| `CategoryRoutes.NamesDistinctPermutation` | src/routes/category.js:10 | reordering rows (as the listing does) keeps names unique |
| `Collation.NameLeTotal` | src/routes/category.js:10 | any two names are comparable in the listing order |
| `Collation.NameLeTransitive` | src/routes/category.js:10 | the listing order is transitive |
| `Collation.NameLeAntisymmetric` | src/routes/category.js:10 | two names that sort no later than each other are equal |
| `Collation.NameLeReflexive` | src/routes/category.js:10 | every name sorts no later than itself |
| `CategoryRoutes.CategoryStore.Create` | src/routes/category.js:19-49 | falsy name: 400 "Category name is required", table unchanged; name present in the table: 400 "Category already exists", table unchanged; otherwise 201 with a row of fresh id, that name, `item_count` = itemCount or 0 when falsy, `image_url` = imageUrl or NULL when falsy, and the table is the old one plus exactly that row; keeps ids unique and keeps names unique |
| `CategoryRoutes.CreateCheckIsExact` | src/routes/category.js:29-36 | on a table with unique names, the duplicate check fires exactly when inserting would repeat a name |
| `CategoryRoutes.CategoryStore.Update` | src/routes/category.js:52-95 | falsy name: 400, unchanged; unknown id: 404 "Category not found", unchanged; new name differing from the row's own and held by another row: 400 "Category name already exists", unchanged; otherwise 200 with the row (same id, new name, falsy itemCount/imageUrl keep the stored values) and only the row with that id is replaced; keeps ids unique and keeps names unique |
| `CategoryRoutes.UpdateCheckIsExact` | src/routes/category.js:73-82 | on a table with unique names, the two-step name check (skipped for the row's own name) fires exactly when the update would repeat a name |
| `CategoryRoutes.RenameKeepsDistinct` | src/routes/category.js:73-88 | rewriting the row of an id keeps ids unique, and keeps names unique when the name is the row's own or held by no other row |
| `CategoryRoutes.FindById` | src/routes/category.js:63-70 | the lookup finds a row exactly when some row has the id, and what it finds is a row with that id |
| `CategoryRoutes.SetById` | src/routes/category.js:85-88 | the UPDATE replaces every row with the id by the new row and leaves all others in place |
| `Table.Where` | src/routes/category.js:29-34 | a SELECT returns exactly the rows satisfying its condition, and none exactly when no row does |
| `Table.WhereAppend` | src/routes/auth.js:33-36 | after an INSERT, a SELECT sees the earlier matches followed by the new row when it matches |
| `Table.SetWhere` | src/routes/category.js:85-88 | an UPDATE keeps the number of rows and replaces exactly the matching ones |
| `Table.NextKey` | src/routes/category.js:39-42 | a generated id is larger than, hence different from, every id in the table |
| `AuthRoutes.AdminStore.Signup` | src/routes/auth.js:9-46 | any falsy field: 400 "All fields are required", unchanged; username or email already present: 400 "Username or email already exists", unchanged; otherwise 201 "Admin created successfully" with `{id, username, email}` only, and exactly one row is appended whose password column is `hash(password)`, with a fresh id; keeps ids, usernames and emails unique |
| `AuthRoutes.SignupCheckIsExact` | src/routes/auth.js:19-26 | on a table with unique usernames and emails, the check fires exactly when inserting would repeat one |
| `AuthRoutes.FindByUsername` | src/routes/auth.js:59-68 | the lookup finds a row exactly when some row has that username, and what it finds has it |
| `AuthRoutes.FindByUsernameUnique` | src/routes/auth.js:59-68 | with unique usernames the lookup returns the one admin with that username |
| `AuthRoutes.FindByUsernameAfterInsert` | src/routes/auth.js:59-62 | after inserting an admin with an unused username, the lookup by that username finds it |
| `AuthRoutes.Login` | src/routes/auth.js:49-96 | 400 "Username and password are required" exactly when a field is falsy; unknown username: 401 "Invalid username or password"; every 401 carries that same message; 200 only for a stored admin with that username whose digest the password checks against, answering its id, username, email and a token signed over exactly `{id, username}`; never 201/404 |
| `AuthRoutes.LoginAsExistingAdmin` | src/routes/auth.js:64-91 | with unique usernames, logging in as a stored admin succeeds exactly when `compare` accepts the password, with that admin's token and view; otherwise 401 |
| `AuthRoutes.UnknownUserLooksLikeWrongPassword` | src/routes/auth.js:64-75 | an unknown username and a wrong password for a known one give identical responses |
| `AuthRoutes.LoginAfterSignup` | src/routes/auth.js:77-91 | an admin appended with an unused username logs in with any password `compare` accepts against its digest, and gets a token over its own id and username |

## Left out

- The `authenticate` middleware (`../middleware/auth`) is not part of this model. Create and update are modelled as called by an authenticated admin, so their 401 answers are not modelled.
- Server wiring in `src/server.js` is not modelled: CORS, JSON body parsing, the `SELECT NOW()` health check and `listen`. Neither is the pool construction and `DATABASE_URL` check in `src/db.js`. Both are framework and I/O set-up.
- Every `catch` branch (500 "Internal server error") and the `console.error` logging are left out. The model has no database failures.
- `bcrypt.genSalt`, `bcrypt.hash`, `bcrypt.compare` and `jwt.sign` are parameters, and nothing is assumed about them. Salts, cost rounds, the signing secret and the 24-hour expiry are therefore not modelled. `AuthRoutes.LoginAfterSignup` takes bcrypt's correctness (`compare` accepts a password against its own digest) as a precondition.
- Concurrency is not modelled. Under interleaved requests the check-then-insert is not atomic. The uniqueness results hold for requests handled one after another.
- `ORDER BY name` is modelled as lexicographic order of character codes (the "C" collation). The database's configured collation may order some names differently. For names that compare equal, the model keeps table order where the database gives no order.
- The row a SELECT returns first (`rows[0]`) is modelled as the first matching row in table order. With unique ids and usernames there is only one matching row.
- Generated ids are modelled as one above the largest id present. The contracts promise only that the id is new, which is what a database sequence guarantees here.
- Ids are modelled as integers. The string `req.params.id` and its conversion by the SQL driver are not modelled. Body fields are modelled as strings or integers of the expected JSON type. Other JSON types (`false`, `NaN`, numeric strings) are not modelled.
- Success messages and HTTP/JSON serialisation beyond the `Outcome` constructors and reply records are not modelled.
