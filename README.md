# Nutrition logger: a model of its store routes

This project models the server side of a single-user nutrition logger. The server keeps three Postgres tables:

- `nutrition_entries`: logged foods with calories, protein, fiber and a provenance tag;
- `preset_foods`: reusable food templates;
- `user_settings`: one row of daily targets.

The Express handlers in `server/src/routes/` issue SQL through an ORM. In the model each table is an in-memory object (`Tables.Table<T>`) holding a sequence of rows and the next value of its serial id. The handlers are methods that issue the same statements against that object: SELECT, INSERT ... RETURNING, UPDATE ... WHERE id, and DELETE ... WHERE id.

Modules:

- `Tables` (`tables.dfy`) holds the rows, the serial counter and the table integrity `WellFormed`: ids are positive, below the counter and unique. It also holds the four statements as pure functions on a table value (`Store<T>`), and the class whose methods apply them in place.
- `Settings` (`settings.dfy`) covers get-or-create and update-or-create of the settings row. It also models sequences of calls, with the singleton invariant and the stability of the row's id across calls.
- `Entries` (`entries.dfy`) covers three things:
  - the offset arithmetic of `getTodayRange`;
  - the half-open range query ordered by `created_at`;
  - insertion, where `type` becomes `"manual"` when absent or empty, and deletion by id.
- `Presets` (`presets.dfy`) covers the name-ordered listing, insertion and deletion. `StringOrder` (`string_order.dfy`) is the lexicographic order used for names, with proofs that it is reflexive, total, transitive and antisymmetric.
- `Database` (`database.dfy`) shows the tables side by side: deleting a preset touches no other table.

Inputs from outside the program are parameters:

- the clock reading `now`;
- the database's `now()` default for `created_at`;
- the result of the `America/New_York` conversion, as an `EasternClock` holding the Eastern reading and its two local midnights;
- the request body, with each field absent or null as `None`.

Where the code departs from its evident intent, the model follows the code:

- GET `/api/entries` ignores any `date` parameter and always uses today's range (server/src/routes/entries.ts:25-27);
- the list is ordered by `created_at` ascending, not descending (server/src/routes/entries.ts:37);
- POST `/api/entries` and POST `/api/presets` do not check that the description or name is non-empty (server/src/routes/entries.ts:48-51, server/src/routes/presets.ts:25-28);
- PUT `/api/settings` passes the three body targets straight to the insert or the update, and the handler itself defaults nothing (server/src/routes/settings.ts:29-43). A missing target takes the column default when the row is inserted, and keeps its old value when the row is updated. If all three are missing on a non-empty table, the `SET` list is empty, the update is refused and the handler answers 500 (server/src/routes/settings.ts:45-47). That in turn is not modelled; see "## Left out".

`getTodayRange` reads the clock twice: once inside the Eastern conversion (line 11) and once for `offsetMs` (line 18). The model's `now` is the second reading. The first reading only feeds the abstract `EasternClock`. All properties of `TodayRange` hold whichever instant that conversion started from.

## Model

| member | source | states |
|---|---|---|
| Tables.Insert | server/src/db/schema.ts:11 | An insert appends one row under the counter's id, leaves every existing row in place, keeps the table well formed, and the new id is not already present. |
| Tables.WithoutId | server/src/routes/entries.ts:64 | A delete by id keeps each row with another id exactly as often as before and no row with that id; the table never grows. |
| Tables.WithId | server/src/routes/settings.ts:42-43 | The rows a `RETURNING` after `WHERE id = …` yields are exactly the rows holding that id. |
| Tables.SetWhereId | server/src/routes/settings.ts:39-43 | An update by id keeps the row count and every row's id, rewrites the rows with that id and leaves all others as they were. |
| Tables.WithoutIdIdempotent | server/src/routes/presets.ts:40-42 | Deleting the same id a second time leaves the table as the first delete left it. |
| Tables.WithoutAbsentId | server/src/routes/entries.ts:63-65 | Deleting an id the table does not hold changes nothing. |
| Tables.WithoutIdWellFormed | server/src/routes/entries.ts:64 | A delete keeps the table's integrity (ids still in range and unique). |
| Tables.ConsWellFormed | server/src/db/schema.ts:11 | Putting a row with an unused, in-range id in front of a well-formed table keeps it well formed. |
| Tables.SetWhereIdOneRow | server/src/routes/settings.ts:39-43 | With unique ids, updating by row k's id rewrites row k alone: the row count and every other row are unchanged. |
| Tables.Table.InsertValues | server/src/routes/entries.ts:49-52 | INSERT ... RETURNING in place: the table becomes `Insert` of its old value, and the returned row has the old counter as its fresh id. |
| Tables.Table.DeleteWhereId | server/src/routes/entries.ts:64 | DELETE in place: the statement succeeds exactly when the id lies in the 32-bit range of the `integer` key. Then the rows become `WithoutId` of the old rows; otherwise they are unchanged. The counter is unchanged and integrity is kept. |
| Tables.Table.UpdateWhereId | server/src/routes/settings.ts:39-43 | UPDATE ... RETURNING in place: the rows become `SetWhereId` of the old rows, and the returned rows are the rows holding the id afterwards. |
| Settings.GetOrCreate | server/src/routes/settings.ts:11-19 | On an empty table, one row with 2000/150/30 is inserted under a fresh id and returned. Otherwise the table is unchanged. Either way the table is non-empty afterwards and the returned row is its first row. |
| Settings.UpdateOrCreate | server/src/routes/settings.ts:31-44 | The returned row holds the supplied targets. An empty table gets exactly that row under a fresh id. On a non-empty table the row count and counter are unchanged, and the first row keeps its id, which is also the returned row's id. |
| Settings.UpdateRewritesOnlyFirstRow | server/src/routes/settings.ts:39-44 | With unique ids, an update of a non-empty table changes only the row whose id is `rows[0].id`, and the returned row is that row with the new targets. |
| Settings.Get | server/src/routes/settings.ts:9-24 | The GET handler leaves the table and returns the row that `GetOrCreate` prescribes, and keeps the table well formed. |
| Settings.Put | server/src/routes/settings.ts:27-49 | The PUT handler leaves the table and returns the row that `UpdateOrCreate` prescribes for the three body targets, and keeps the table well formed. |
| Settings.RunWellFormed | server/src/routes/settings.ts:12-44 | Any sequence of GET/PUT calls keeps the settings table well formed. |
| Settings.RunRowCount | server/src/routes/settings.ts:12-44 | Calls never remove a row. A non-empty table keeps its row count. An empty table holds exactly one row after one or more calls. |
| Settings.SingletonAfterAnyCalls | server/src/routes/settings.ts:12-44 | Starting from at most one row, any non-empty sequence of GET/PUT calls leaves exactly one row. |
| Settings.RunKeepsFirstId | server/src/routes/settings.ts:19 | Once the table holds its single row, no sequence of calls changes that row's id. |
| Settings.ReadsAgree | server/src/routes/settings.ts:12-19 | From a table of at most one row, every GET after a first GET, with any calls in between, returns a row with the first GET's id. Two GETs in a row also leave the same table. |
| Entries.TodayRange | server/src/routes/entries.ts:8-21 | Both bounds are the Eastern midnights shifted by the same `offsetMs`. So the range is as wide as the Eastern day, and `now` lies as far past `start` as the Eastern reading lies past its midnight. The range contains `now` if and only if that reading lies in `[startET, endET)`. |
| Entries.InRange | server/src/routes/entries.ts:31-36 | The `gte`/`lt` filter keeps each entry with `start <= createdAt < end` as often as the table holds it, and no other entry. |
| Entries.InsertByCreatedAt | server/src/routes/entries.ts:37 | Inserting into a `createdAt`-ordered sequence keeps it ordered and adds exactly the one entry. |
| Entries.SortByCreatedAt | server/src/routes/entries.ts:37 | The ascending `createdAt` ordering is sorted non-decreasing by `createdAt` and is a permutation of its input. |
| Entries.ConsSorted | server/src/routes/entries.ts:37 | An entry no later than all entries of an ordered sequence can be put in front of it. |
| Entries.ListRange | server/src/routes/entries.ts:28-37 | The query result is sorted by `createdAt` and is a permutation of the rows inside `[start, end)`; an entry is in it if and only if it is in the table and inside the range. |
| Entries.GetToday | server/src/routes/entries.ts:25-37 | The GET handler returns the range listing for today's range; it has no date parameter and may modify no state. |
| Entries.TypeOrManual | server/src/routes/entries.ts:51 | The stored type is never empty. An absent or empty type becomes `"manual"`, and any other given type is kept. |
| Entries.EntryValues | server/src/routes/entries.ts:48-51 | The inserted values succeed exactly when description, calories, protein and fiber are all present. On success they carry the given values, `createdAt = now` and the defaulted type. An empty description is accepted. Otherwise the result is a NOT NULL violation. |
| Entries.Add | server/src/routes/entries.ts:46-58 | On success, POST appends exactly one entry with a fresh id and the given values, and returns it; existing rows are unchanged. When a field is missing it fails and the table is unchanged. |
| Entries.Delete | server/src/routes/entries.ts:61-69 | For a parsed id in the 32-bit key range, DELETE removes exactly the rows with that id, leaves all others and the counter, and reports success whether or not the id existed. For `NaN` or an out-of-range id the statement fails, the table is unchanged and the handler answers 500 (`success` false). |
| Entries.AddedEntryListedToday | server/src/routes/entries.ts:25-52 | An entry added at `now` appears in the listing a GET at that same instant returns, when the Eastern reading lies within its day. |
| Entries.DeletedEntryNotListed | server/src/routes/entries.ts:28-37 | After a delete by id, no listing contains an entry with that id. |
| StringOrder.LexLeReflexive | server/src/routes/presets.ts:14 | Every name sorts no later than itself. |
| StringOrder.LexLeTotal | server/src/routes/presets.ts:14 | Any two names are ordered one way or the other. |
| StringOrder.LexLeTransitive | server/src/routes/presets.ts:14 | The name order is transitive. |
| StringOrder.LexLeAntisymmetric | server/src/routes/presets.ts:14 | Two names that sort no later than each other are equal. |
| Presets.ConsSortedByName | server/src/routes/presets.ts:14 | A preset whose name sorts first can be put in front of a name-ordered sequence. |
| Presets.InsertByName | server/src/routes/presets.ts:14 | Inserting into a name-ordered sequence keeps it ordered and adds exactly the one preset. |
| Presets.SortByName | server/src/routes/presets.ts:11-14 | The `ORDER BY name` result is sorted non-decreasing by name and is a permutation of its input. |
| Presets.List | server/src/routes/presets.ts:9-15 | GET returns every preset row, as a permutation of the table, in non-decreasing name order, and modifies nothing. |
| Presets.PresetValues | server/src/routes/presets.ts:25-28 | The inserted values succeed exactly when name, calories, protein and fiber are all present, and then equal them (an empty name is accepted). Otherwise the result is a NOT NULL violation. |
| Presets.Add | server/src/routes/presets.ts:23-30 | On success, POST appends exactly one preset with a fresh id and the given values, and returns it. Existing rows are unchanged and the count grows by one. When a field is missing it fails and the table is unchanged. |
| Presets.Delete | server/src/routes/presets.ts:38-46 | For a parsed id in the 32-bit key range, DELETE removes exactly the rows with that id, leaves every other row and the counter, and reports success whether or not the id existed. For `NaN` or an out-of-range id it answers 500 (`success` false) and changes nothing. |
| Presets.DeleteTwice | server/src/routes/presets.ts:40-42 | Two deletes of the same id give the same answer. Their rows and counter together are exactly what one delete leaves. |
| Database.DeletePreset | server/src/db/schema.ts:20-26 | Deleting a preset succeeds exactly for a parsed id in the 32-bit key range, and then removes exactly the preset rows with that id; otherwise the preset rows are unchanged. The preset counter is kept. Either way the entries table and the settings table are unchanged. There is no foreign key, and entries copy a preset's values. |

## Left out

- Database I/O, connection handling, migrations and server start-up (server/src/db/index.ts, server/src/db/migrate.ts, server/src/index.ts) are not part of this model. A storage failure that makes a handler answer 500 is not modelled. The failures modelled are the NOT NULL rejection of an absent field, and the rejection by DELETE of a `NaN` id or one outside the 32-bit `integer` range.
- settings.ts and presets.ts import a `db` handle, while server/src/db/index.ts exports only `getDb`. As written, `db` is undefined: under a transpile-only build every settings and presets handler throws at its first `db.` call inside its `try` and answers 500, and under `tsc` the server does not compile. The model follows the evident intent instead: all three route files reach the same database.
- The conversion inside `getTodayRange` is not modelled: `toLocaleString` with `America/New_York`, parsing in the host time zone, and `setDate`. Its results are the inputs `eastern`, `startET` and `endET`. So the model proves nothing about DST or day length, and nothing about second-precision truncation.
- The mismatch between JavaScript `Date` bound values and the time-zone-less `TIMESTAMP` column is not modelled: timestamps and bounds are integer milliseconds on one scale.
- Serial ids are modelled only as fresh and distinct. A sequence value that a failed insert may consume is not modelled: the counter does not move on failure.
- Tables.Insert: the serial sequence's maximum of 2147483647 is not modelled; an insert after the last id is exhausted would fail, while the model keeps counting.
- `parseInt` itself is not modelled. The delete handlers take its result: an integer, or `None` for `NaN`.
- Nutrient values are `real`, not single-precision floats. JSON values of the wrong type, which Postgres may coerce or reject, are not modelled.
- Entries.Add and Presets.Add: a body field that is present but of the wrong JSON type is treated as present.
- StringOrder.LexLe: names are ordered by character code point, not by the database's collation.
- The order of an unordered SELECT is taken to be the table sequence's order, and an update is taken to keep a row's position. The database promises neither. For the settings table this is harmless only while it holds at most one row, so Settings.RunKeepsFirstId requires exactly one row and Settings.ReadsAgree at most one. The model claims nothing about which row a GET returns from a table of two or more rows, which the routes alone never create (Settings.SingletonAfterAnyCalls).
- Ties: rows with equal `createdAt`, or presets with equal names, come out in an order the model fixes but the database does not promise.
- Settings.Put: the targets are exact integers. A missing target is not modelled: it would take the column default on insert and keep its old value on update, where the ORM drops missing keys from the `SET` list; with all three missing on a non-empty table the `SET` list is empty, the update is refused and PUT answers 500. Null and non-numeric body values are not modelled, and neither is the 32-bit range of `INTEGER`.
- Concurrency: the race in which two concurrent first GETs both insert a settings row is not modelled. Calls are sequential.
- server/src/routes/parse.ts is not modelled: it makes a network call to a language model, JSON-parses its output and rounds floats.
- The client (React state, fetch wrappers, floating-point totals and percentages, build configuration) is not part of this model.
