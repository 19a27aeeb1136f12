# Task and user services over an insertion-ordered row store

This project models the record-service layer of the `tinybase-mockup` app.
`TaskService` and `UserService` each keep one kind of record (a task or a
user) in one table of a row store. Each offers the following:

- create a record under a freshly generated id;
- read one record by id, or all records in table order;
- merge a partial update into an existing record;
- delete a record, reporting whether anything was removed;
- query the table: status filter, case-insensitive text search, first
  match by e-mail, most recent users.

`TaskService` also has two batch operations and a bulk delete of the
completed tasks.

## Layout

- `options.dfy` (`Options`): the `Option` type, used for absent rows and
  for absent patch fields.
- `text.dfy` (`Text`): ASCII `toLowerCase` and `String.prototype.includes`,
  and the case-insensitive field test both searches use.
- `seqs.dfy` (`Seqs`): `Array.prototype.filter`, and `find` as indexing at the
  first passing position (`FindIndex`, which `UserByEmail` indexes with), with their
  order facts.
- `row_store.dfy` (`RowStore`): the store's table as a sequence of
  `Entry(key, row)` kept in insertion order.
  - `Put` models `setRow`: it replaces a row in place, or appends one.
  - `Remove` models `delRow`.
  - `Lookup` models `getRow`.
  - `Values` models `Object.values(getTable(...))`.
  - The class `Table` owns the sequence, and its `SetRow`/`DelRow` methods
    update it in place.
- `records.dfy` (`Records`): the `Task` and `User` records.
- `tasks.dfy` (`Tasks`) and `users.dfy` (`Users`): the two services.
  - Each is a class over its `Table`. `Valid()` says the table holds no id
    twice and every row is stored under its own id.
  - The writing operations are methods. Each single-record operation states
    its new table as a `Put` or `Remove` of the old one. Each batch operation
    states it as a fold of its single-record operation over the inputs
    (`StoreTasks`, `UpdateAll`). The lemmas about `Put`, `Remove` and the
    folds then say which rows changed.
  - The queries are functions over the rows (`GetAllTasks()`,
    `GetAllUsers()`).

`Date.now()` and `generateId()` are parameters: `now` and `freshId`, or the
sequences `clock` and `freshIds` for the batch operations. The model makes
no assumption about them. In particular, it does not assume that ids are
fresh or that the clock never goes backwards.

## Model

| member | source | states |
|---|---|---|
| Text.Lower | tinybase-mockup/lib/taskService.ts:40 | lower-casing keeps the length and maps each character by itself: ASCII capitals to their small letter, everything else unchanged |
| Text.LowerIdempotent | tinybase-mockup/lib/userService.ts:35 | lower-casing an already lower-cased string changes nothing |
| Text.Includes | tinybase-mockup/lib/taskService.ts:43 | `includes` is true exactly when the query occurs at some position of the string |
| Text.EmptyQueryMatches | tinybase-mockup/lib/taskService.ts:42-45 | the empty query is contained in every field |
| Text.QueryCaseIrrelevant | tinybase-mockup/lib/taskService.ts:40 | lower-casing the query first gives the same match result as the query itself |
| Seqs.Filter | tinybase-mockup/lib/taskService.ts:35 | `filter` returns every element that passes the test and nothing else, as an order-preserving subsequence no longer than the input |
| Seqs.FilterCounts | tinybase-mockup/lib/taskService.ts:35 | `filter` keeps every occurrence of a passing value, repeats included, and no occurrence of a failing one |
| Seqs.FilterAppend | tinybase-mockup/lib/taskService.ts:104-106 | filtering a concatenation is concatenating the filtered parts |
| Seqs.FilterKeepsAll | tinybase-mockup/lib/taskService.ts:35 | when every element passes, filter returns the input unchanged |
| Seqs.FilterDropsAll | tinybase-mockup/lib/taskService.ts:35 | when no element passes, filter returns the empty sequence |
| Seqs.FindIndex | tinybase-mockup/lib/userService.ts:35 | `find` picks the first position whose element passes the test, and finds nothing exactly when no element passes |
| RowStore.Values | tinybase-mockup/lib/taskService.ts:25-26 | `Object.values(getTable(...))` gives one row per held id, the i-th being the row stored i-th |
| RowStore.Lookup | tinybase-mockup/lib/taskService.ts:30-31 | `getRow` finds a row exactly for the ids the table holds |
| RowStore.LookupIsStored | tinybase-mockup/lib/taskService.ts:30 | the row `getRow` finds is stored in the table under the id asked for |
| RowStore.LookupInValues | tinybase-mockup/lib/taskService.ts:24-31 | the row found by id is one of the rows `getAllTasks` returns |
| RowStore.LookupFindsStoredRow | tinybase-mockup/lib/taskService.ts:30 | with ids unique, looking up a stored row's id returns that row |
| RowStore.Put | tinybase-mockup/lib/taskService.ts:19 | after `setRow(k, v)`, k finds v; the rest of its behaviour is stated by `PutKeys` and `PutLookup` |
| RowStore.PutKeys | tinybase-mockup/lib/taskService.ts:19 | `setRow` on a held id keeps the table's ids and their order; on a new id it appends the row at the end |
| RowStore.PutLookup | tinybase-mockup/lib/taskService.ts:61 | after `setRow(k, v)`, k finds v and every other id finds what it found before |
| RowStore.PutEntries | tinybase-mockup/lib/taskService.ts:61 | after `setRow(k, v)`, every row is the new one or was already in the table |
| RowStore.PutKeepsKeysDistinct | tinybase-mockup/lib/taskService.ts:19 | `setRow` never creates a second row under an id |
| RowStore.WithoutLookup | tinybase-mockup/lib/taskService.ts:81 | after deleting a set of ids, those ids find nothing and every other id finds what it found before |
| RowStore.WithoutKeepsKeysDistinct | tinybase-mockup/lib/taskService.ts:81 | deleting rows keeps ids unique |
| RowStore.Remove | tinybase-mockup/lib/taskService.ts:81 | after `delRow(k)`, k finds nothing, every other id finds what it found before, and ids stay unique; so a second delete of the same id finds no row |
| RowStore.WithoutNothing | tinybase-mockup/lib/taskService.ts:85-87 | deleting no ids leaves the table unchanged |
| RowStore.WithoutTwice | tinybase-mockup/lib/taskService.ts:89-93 | deleting ids one after another equals deleting them all at once |
| RowStore.DistinctKeysCount | tinybase-mockup/lib/userService.ts:76-78 | with ids unique, the number of rows is the number of distinct ids held |
| RowStore.PutSize | tinybase-mockup/lib/userService.ts:18 | `setRow` adds one row for a new id and none for a held id |
| RowStore.RemoveSize | tinybase-mockup/lib/userService.ts:71 | with ids unique, `delRow` removes one row for a held id and none otherwise |
| RowStore.KeyedByAt | tinybase-mockup/lib/taskService.ts:19 | in a table whose rows are stored under their own ids, the row at each position carries that position's id |
| RowStore.FoundUnderOwnKey | tinybase-mockup/lib/taskService.ts:29-32 | in such a table, the row found under an id has that id |
| RowStore.PutKeepsKeyedBy | tinybase-mockup/lib/taskService.ts:19 | writing a row under its own id keeps every row under its own id |
| RowStore.WithoutKeepsKeyedBy | tinybase-mockup/lib/taskService.ts:81 | deleting rows keeps every remaining row under its own id |
| RowStore.Table.GetRow | tinybase-mockup/lib/taskService.ts:30 | `getRow(k)` finds a row exactly when k is held, and the row found is stored under k |
| RowStore.Table.GetTable | tinybase-mockup/lib/taskService.ts:25-26 | in a table without repeated ids, the table's values are one row per held id, in table order, each the row `getRow` finds under that id |
| RowStore.Table.SetRow | tinybase-mockup/lib/taskService.ts:19 | `setRow` replaces the table by `Put` of the old one and keeps ids unique |
| RowStore.Table.DelRow | tinybase-mockup/lib/taskService.ts:81 | `delRow` replaces the table by `Remove` of the old one and keeps ids unique |
| Tasks.NewTask | tinybase-mockup/lib/taskService.ts:12-17 | a new task takes the given id, `createdAt = updatedAt = now`, and the input's title, description and completed |
| Tasks.MergeTask | tinybase-mockup/lib/taskService.ts:55-59 | an update keeps id and createdAt, sets updatedAt to now whatever the patch says, and takes title, description and completed from the patch where given and from the old task otherwise |
| Tasks.EmptyPatchOnlyStamps | tinybase-mockup/lib/taskService.ts:55-59 | an empty patch changes nothing but updatedAt |
| Tasks.MergeIdempotent | tinybase-mockup/lib/taskService.ts:55-59 | applying a patch twice equals applying it once at the later time |
| Tasks.TasksByStatus | tinybase-mockup/lib/taskService.ts:34-36 | `getTasksByStatus(c)` returns exactly the tasks whose completed flag is c, in table order |
| Tasks.SearchTasks | tinybase-mockup/lib/taskService.ts:38-46 | `searchTasks(q)` returns exactly the tasks whose lower-cased title or description contains the lower-cased q, in table order |
| Tasks.EmptySearchReturnsAll | tinybase-mockup/lib/taskService.ts:38-46 | searching for the empty string returns every task, in order |
| Tasks.IdsAppend | tinybase-mockup/lib/taskService.ts:104-106 | the ids of a list with one task appended are the old ids followed by that task's id |
| Tasks.IdSetPrefix | tinybase-mockup/lib/taskService.ts:89-93 | the ids seen after one more loop step are those seen before plus the current task's |
| Tasks.IdNotBefore | tinybase-mockup/lib/taskService.ts:89-93 | with unique ids, the task the loop reaches has not had its id deleted by an earlier step |
| Tasks.PresentIdsStep | tinybase-mockup/lib/taskService.ts:105-106 | one more update request adds its id to the present ids exactly when the id is held |
| Tasks.PresentIdsAreFiltered | tinybase-mockup/lib/taskService.ts:104-106 | the ids of the tasks `updateMultipleTasks` keeps are the requested ids that the table holds, in request order |
| Tasks.UpdateAllStep | tinybase-mockup/lib/taskService.ts:104-106 | one more update request is one more `updateTask` on the batch so far |
| Tasks.UpdateAllKeepsOthers | tinybase-mockup/lib/taskService.ts:104-106 | update requests for other ids leave the row at an id as it was |
| Tasks.UpdateAllMergesOnce | tinybase-mockup/lib/taskService.ts:104-106 | a request whose id no other request names leaves, under that id, the row held before the call merged with its patch at its own time, or still nothing when the id was not held |
| Tasks.UpdateAllReturnsMerged | tinybase-mockup/lib/taskService.ts:103-107 | with no id requested twice, the tasks returned are, in request order, the merge of each held row with its request's patch, read against the table as it was before the call |
| Tasks.BuiltExtend | tinybase-mockup/lib/taskService.ts:100 | the next created task extends the tasks created so far, one per input, in input order |
| Tasks.StoreTasksAppend | tinybase-mockup/lib/taskService.ts:100 | creating one more task is one more `setRow` on the table created so far |
| Tasks.StoreTasksRows | tinybase-mockup/lib/taskService.ts:99-101 | after creating a batch, each id holds the last task created under it, and every id not used by the batch holds what it held before |
| Tasks.StoreTasksKeepsOthers | tinybase-mockup/lib/taskService.ts:99-101 | creating tasks under other ids does not disturb the row at an id |
| Tasks.StoreTasksFindsLast | tinybase-mockup/lib/taskService.ts:99-101 | the last task created under an id is the one found there |
| Tasks.RowIdsAreKeys | tinybase-mockup/lib/taskService.ts:24-27 | in a table where every row is stored under its own id, the rows' ids are the table's ids in table order, and they are unique |
| Tasks.RowIdsStored | tinybase-mockup/lib/taskService.ts:86-90 | every listed task's id is held by the table |
| Tasks.FilterKeepsIdsDistinct | tinybase-mockup/lib/taskService.ts:86 | a filtered task list with unique ids keeps them unique |
| Tasks.CompletedIsListed | tinybase-mockup/lib/taskService.ts:86 | every completed task is among the completed tasks |
| Tasks.OthersHaveOtherIds | tinybase-mockup/lib/taskService.ts:86 | with unique ids, every other task has a different id |
| Tasks.IncompleteNotListed | tinybase-mockup/lib/taskService.ts:86 | an incomplete task whose id no other task shares is not among the ids of the completed tasks |
| Tasks.CompletedIds | tinybase-mockup/lib/taskService.ts:86-93 | with unique ids, a task's id is deleted by the loop exactly when the task is completed |
| Tasks.CompletedIdsAreCompletedKeys | tinybase-mockup/lib/taskService.ts:86-93 | an id of the table is among the completed tasks' ids exactly when its row is completed |
| Tasks.OnlyIncompleteRemain | tinybase-mockup/lib/taskService.ts:85-96 | among the incomplete tasks, none is completed |
| Tasks.RemainingAreIncomplete | tinybase-mockup/lib/taskService.ts:85-96 | deleting exactly the ids of the completed rows leaves the incomplete rows, unchanged and in table order |
| Tasks.TaskService.GetAllTasks | tinybase-mockup/lib/taskService.ts:24-27 | `getAllTasks` returns the stored rows themselves, one per stored id, in table order, with the rows' ids equal to the table's ids and unique |
| Tasks.TaskService.GetTaskById | tinybase-mockup/lib/taskService.ts:29-32 | `getTaskById` finds a task exactly when the id is held; the task found is the row stored under that id, and it carries that id; it reads only |
| Tasks.TaskService.CreateTask | tinybase-mockup/lib/taskService.ts:8-21 | the task returned has the given id, `createdAt = updatedAt = now` and the input's title, description and completed, and it is written at that id |
| Tasks.TaskService.UpdateTask | tinybase-mockup/lib/taskService.ts:49-63 | an absent id returns null and writes nothing; a held id returns the merged task, which is written at that id; the table's ids do not change |
| Tasks.TaskService.ToggleTaskCompletion | tinybase-mockup/lib/taskService.ts:65-72 | an absent id returns null and writes nothing; a held id returns and writes the same task with completed negated and updatedAt = now |
| Tasks.TaskService.DeleteTask | tinybase-mockup/lib/taskService.ts:75-83 | returns true exactly when the id was held; then the row is removed, otherwise the table is unchanged |
| Tasks.TaskService.DeleteAllCompletedTasks | tinybase-mockup/lib/taskService.ts:85-96 | returns the number of completed tasks at call time; afterwards the tasks are exactly the incomplete ones, unchanged and in order, and none is completed |
| Tasks.TaskService.CreateMultipleTasks | tinybase-mockup/lib/taskService.ts:99-101 | returns one task per input, in input order, each built as `createTask` builds it; the table is the old one with those tasks written in turn |
| Tasks.TaskService.UpdateMultipleTasks | tinybase-mockup/lib/taskService.ts:103-107 | the new table and the tasks returned are those of `updateTask` run on each request in turn (`UpdateAll`); the tasks returned are, in request order, those of exactly the requested ids that were held, so never more than the requests; the table's ids do not change |
| Users.NewUser | tinybase-mockup/lib/userService.ts:12-16 | a new user takes the given id, `createdAt = now`, and the input's name, e-mail and avatar |
| Users.MergeUser | tinybase-mockup/lib/userService.ts:55-58 | an update keeps id and createdAt and takes name, e-mail and avatar from the patch where given and from the old user otherwise; no timestamp is touched |
| Users.EmptyPatchChangesNothing | tinybase-mockup/lib/userService.ts:55-58 | an empty patch leaves the user unchanged |
| Users.MergeUserIdempotent | tinybase-mockup/lib/userService.ts:55-58 | applying a patch twice equals applying it once |
| Users.UserByEmail | tinybase-mockup/lib/userService.ts:33-36 | `getUserByEmail(e)` returns a user whose lower-cased e-mail equals the lower-cased e, and no earlier user matches; it finds nothing exactly when no user matches |
| Users.EmailCaseIrrelevant | tinybase-mockup/lib/userService.ts:35 | the case of the e-mail argument does not change the result |
| Users.SearchUsers | tinybase-mockup/lib/userService.ts:38-46 | `searchUsers(q)` returns exactly the users whose lower-cased name or e-mail contains the lower-cased q, in table order |
| Users.EmptySearchReturnsAll | tinybase-mockup/lib/userService.ts:38-46 | searching for the empty string returns every user, in order |
| Users.NewestFirstAt | tinybase-mockup/lib/userService.ts:82 | in a newest-first list, no later user is newer than an earlier one |
| Users.NewestFirstPrefix | tinybase-mockup/lib/userService.ts:83 | a prefix of a newest-first list is newest first |
| Users.Insert | tinybase-mockup/lib/userService.ts:82 | one insertion step of the sort adds exactly that user to the list |
| Users.InsertKeepsOrder | tinybase-mockup/lib/userService.ts:82 | inserting into a newest-first list keeps it newest first |
| Users.InsertIsStable | tinybase-mockup/lib/userService.ts:82 | inserting a user changes no other creation time's users and puts it first among its own |
| Users.SortByRecency | tinybase-mockup/lib/userService.ts:82 | the sort is a permutation of the users |
| Users.SortIsNewestFirst | tinybase-mockup/lib/userService.ts:82 | the sort orders users by non-increasing createdAt |
| Users.SortIsStable | tinybase-mockup/lib/userService.ts:82 | the sort is stable: users with the same createdAt keep their table order |
| Users.RecentUsers | tinybase-mockup/lib/userService.ts:80-84 | `getRecentUsers(limit)` returns min(limit, number of users) users, all from the table, newest first |
| Users.DefaultRecentUsers | tinybase-mockup/lib/userService.ts:80-84 | `getRecentUsers()` with the default limit of 5 returns five users when the table holds five or more, all of them otherwise, all from the table, newest first |
| Users.HeadNotOlderThanTail | tinybase-mockup/lib/userService.ts:82-83 | in a newest-first list, no user after a cut is newer than one before it |
| Users.SplitLeavesTail | tinybase-mockup/lib/userService.ts:83 | what `slice(0, n)` leaves out of a list is its tail |
| Users.OmittedAreNotNewer | tinybase-mockup/lib/userService.ts:80-84 | no user left out of `getRecentUsers(limit)` was created later than any user returned |
| Users.UserService.GetAllUsers | tinybase-mockup/lib/userService.ts:23-26 | `getAllUsers` returns the rows in table order, each carrying the id it is stored under |
| Users.UserService.GetUserById | tinybase-mockup/lib/userService.ts:28-31 | `getUserById` finds a user exactly when the id is held; the user found is the row stored under that id, and it carries that id; it reads only |
| Users.UserService.GetUsersCount | tinybase-mockup/lib/userService.ts:76-78 | `getUsersCount` is the number of distinct ids in the users table |
| Users.UserService.CreateUser | tinybase-mockup/lib/userService.ts:8-20 | the user returned has the given id, `createdAt = now` and the input's name, e-mail and avatar, which stays absent when not given; it is written at that id |
| Users.UserService.UpdateUser | tinybase-mockup/lib/userService.ts:49-62 | an absent id returns null and writes nothing; a held id returns the merged user, which is written at that id; the table's ids do not change |
| Users.UserService.DeleteUser | tinybase-mockup/lib/userService.ts:65-73 | returns true exactly when the id was held; then the row is removed, otherwise the table is unchanged |

## Left out

- Persistence (`tinybase-mockup/lib/persistence.ts`) is not modelled. It is asynchronous storage I/O, JSON (de)serialisation and a debounce timer.
- The lazy store singleton, its load-then-seed start-up (`tinybase-mockup/lib/store.ts:25-92`) and the React hooks and screens are not modelled.
- `generateId` and `Date.now` are not modelled. They become the parameters `freshId` and `now`.
- The TinyBase library is not part of this model. Its table is abstracted as an insertion-ordered sequence of rows. Listeners are not modelled, nor is the order `Object.values` gives integer-like ids.
- A missing row is `None`, and the services treat it as not found. This is what the repository's tests expect (`tinybase-mockup/lib/__tests__/taskService.test.ts:97-103`). It is not what the code does on a real TinyBase store. There, `getRow` returns an empty object for a missing row, and the truthiness tests at `tinybase-mockup/lib/taskService.ts:31` and `tinybase-mockup/lib/userService.ts:30` count that object as found. On a missing id, `getTaskById` would then return `{}`, `updateTask` would write a row there, and `deleteTask` would return true. The model follows the intended behaviour, not that one.
- `toLowerCase` is modelled for ASCII only. Other Unicode case mappings are not modelled.
- `getRecentUsers` with a negative `limit` is not modelled, because `slice(0, -k)` drops from the end; `limit` is a `nat`. The default of 5 is the constant `DefaultRecentLimit`, used by `DefaultRecentUsers`.
- The sort's algorithm is not modelled. `Users.SortByRecency` models only its result: a stable sort, as the engine's `Array.prototype.sort` is.
- Each service requires that every row is stored under its own id (`Valid()` in `Tasks.TaskService` and `Users.UserService`). The source never checks this. Every writer in the repository keeps it: the services' own writes and the seed data (`tinybase-mockup/lib/store.ts:40-83`). A table that broke it, say through imported data, is not modelled. On such a table, `deleteAllCompletedTasks` deletes by `task.id` (`tinybase-mockup/lib/taskService.ts:90`), so it would skip, and not count, a completed row whose id differs from its key.
- A patch that sets a field to `undefined` explicitly is not modelled. In a patch, a field is either absent (`None`) or given (`Some`).
- The design rule that a task's updatedAt is never earlier than its createdAt is not proved. The services never check it, and the clock is a parameter that may go backwards.
