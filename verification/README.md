# Exercise tracker user log store, modelled in Dafny

This project models the data core of a small exercise-tracking REST service.
The service registers users, records exercises against a user, and returns a
user's exercise log, optionally narrowed to a date range and cut to a limit.

Each user document holds a `username`, a `count` and an embedded `log` of
`{description, duration, date}` entries. `count` is kept alongside `log`: it
starts at 0, and each exercise both pushes an entry and increments the
counter in one atomic update.

The document database is replaced by an immutable `map<Id, User>`:

- State-changing operations return a `Step`: the store afterwards plus the
  reply (`Result`) the operation hands to its callback. A failing step always
  carries the store unchanged.
- Read-only operations return only a `Result`, so by their type they cannot
  change the store.

The boundaries with code the model does not run are parameters:

- the freshly generated document id;
- date parsing, `new Date(x).getTime()`, as `parse: string -> Option<int>`,
  where `None` stands for `NaN`;
- date formatting, `toDateString()`, as `display: string -> string`;
- the current date used when a request gives none, as `today`.

Files:

- `wrappers.dfy`: `Option` and `Result`.
- `subsequences.dfy`: order-preserving subsequences and their basic lemmas.
- `user_log.dfy`: the data model and the four store operations.
- `routes.dfy`: the route callbacks, including the "no data" guard.
- `properties.dfy`: lemmas that relate several operations.

All four routes turn a reply that carries neither an error nor data into a
"no data" error. It can only fire for the log query. `createUser`, `getAllUsers`
and `createExercise` never report success without data: they either return a
value or throw. So `Routes.Respond` is applied only in `Routes.GetLogs`.

An unknown id fails in one of two ways, depending on the query:

- `createExercise` gets `null` from `findOneAndUpdate`. Reading `data.username`
  then throws, so the reply is `NullDereference`.
- The log query with a date range or a limit also reads a field of `null`, and
  also replies `NullDereference`.
- The log query with neither replies with no error and no data. The route
  turns that into `NoData`.

## Model

| member | source | states |
|---|---|---|
| UserLog.CreateUser | index.cjs:26-41 | Succeeds exactly when the generated id is new. It then adds exactly that id, holding the given username with count 0 and an empty log, and returns that id and username. Every other record is unchanged. A clashing id is a save error and leaves the store as it was. |
| UserLog.GetAllUsers | index.cjs:43-53 | Always succeeds. It returns one `{id, username}` pair per stored record, with no id twice, each username matching its record. The pairs carry no count or log. |
| UserLog.FindOneAndUpdate | index.cjs:57-70 | Yields no document, and changes nothing, exactly when the id is unknown. Otherwise the matched document's log gains the one new entry at its end and its count rises by 1. The updated document is returned and other records are untouched. |
| UserLog.CreateExercise | index.cjs:55-81 | Succeeds exactly when the id exists. It then appends exactly `{description, duration, date}` to that log, raises count by 1 and leaves other records and the key set unchanged. The reply carries id, stored username, the reformatted date, duration and description. An unknown id is a null-dereference error with the store unchanged. |
| UserLog.FilterByDate | index.cjs:87-94 | The result is an order-preserving subsequence of the log. Every kept entry's parsed date lies in [lo, hi], and a NaN on either side excludes it. Each in-range entry is kept as often as it occurs in the log; out-of-range entries never are. |
| UserLog.Limit | index.cjs:96-98 | Length is `min(limit, length)` and entries are the log's own, from the start, in order. |
| UserLog.GetAllExercisesByUserId | index.cjs:83-104 | For a known id it returns the record with the stored count and username. Its log is a subsequence of the stored log. A date filter is applied only when both bounds are non-empty, and then exactly the in-range entries are kept. A limit bounds the length. With no bounds and no limit the full log is returned in order. An unknown id errors when a filter or limit is applied and otherwise replies with no data. |
| Routes.Respond | index.cjs:141-145 | A callback error becomes the response error. A reply with neither error nor data becomes a "no data" error, never a success. Only a reply with data succeeds, with that data. |
| Routes.GetLogs | index.cjs:137-146 | The log route succeeds exactly when the user exists, returning the stored count. A missing user yields `NoData` or the null-dereference error, never an empty success. |
| Routes.PostExercise | index.cjs:148-157 | Succeeds exactly when the user exists. The stored entry's date is the body date when non-empty, otherwise the current date. A failure leaves the store unchanged. |
| Properties.CreateUserKeepsCountInvariant | index.cjs:28-32 | `count == |log|` for every record survives `createUser`. |
| Properties.CreateExerciseKeepsCountInvariant | index.cjs:60-67 | `count == |log|` for every record survives `createExercise`, because `$push` and `$inc` happen together. |
| Properties.LogAllAppends | index.cjs:57-70 | A run of exercise creations for one user appends exactly those entries in call order. It raises count by their number and leaves the username and other records alone. |
| Properties.CountAfterExercises | index.cjs:28-67 | A user created fresh and then given N exercises has count N and a log equal to those N entries. |
| Properties.ListedExactlyOnce | index.cjs:43-49 | After `createUser`, any listing of the store contains `{id, username}` for the new user, at exactly one position. |
| Properties.FilterByDateAppend | index.cjs:90-93 | The date filter is per entry: filtering a concatenation equals concatenating the filtered parts. |
| Properties.QueryAfterExercise | index.cjs:57-94 | After one more exercise, the date-filtered log query returns the previous result plus the new entry exactly when its date is in range. The count rises by 1. |
| Properties.LoneBoundIgnored | index.cjs:87 | Supplying only one of `from` and `to` gives the same answer as supplying neither. |
| Properties.LimitTakesPrefix | index.cjs:96-98 | With limit n the query returns the first `min(n, length)` entries of the unlimited query's (possibly date-filtered) log, with the same count. |
| Properties.CountIsStoredTotal | index.cjs:83-100 | On a well-formed store the reported count is the stored log length. That is never less than the returned log length. |
| Properties.UnknownIdFails | index.cjs:137-157 | For an id not in the store, the exercise route fails with the null-dereference error and the store unchanged. The log route fails as well. |
| Properties.AliceScenario | index.cjs:128-157 | alice logs a run and then a swim without a date, so the current date is used. The full query shows both in order with count 2. The limit-1 query shows only the run, still with count 2. |

## Left out

- HTTP plumbing is not modelled, because it is I/O: app setup, body parsing, CORS, static files, request logging, the index page and `listen` (index.cjs:1-3, 106-118, 165-167).
- The mongoose connection, schema and environment configuration are not modelled (index.cjs:4-24). They are replaced by the in-memory map, and the id generator is replaced by an id parameter.
- Persistence failures other than a clashing id are not modelled: connection loss, and cast errors for malformed ids (an unparseable id behaves like an unknown one).
- Date parsing and `toDateString()` are kept abstract as the parameters `parse` and `display`. So is the current date used at index.cjs:151, which is the parameter `today`.
- `Number(duration)` coercion is not modelled (index.cjs:75). Durations are integers already.
- `limit` coercion by `slice` is not modelled: negative, fractional or non-numeric limits (index.cjs:97). A limit is absent (`None`, the empty string) or a natural number.
- Query parameters that arrive as arrays are not modelled. `from`, `to` and `limit` are single strings.
- Atomicity and concurrency of `findOneAndUpdate` are not modelled: it is one indivisible step.
- The error middleware's status and message mapping is not modelled (index.cjs:160-163). Errors stay as the `Error` datatype.
- The `__v` version field and the MongoDB ids of embedded log entries are not part of the model.
