# Verified model of the Supernote task service

This project models the logic of the Supernote task service in Dafny and proves properties
of it for all inputs, all runs and all interleavings. It covers five parts of the service.

- **Incremental sync.** A client keeps a replica and a cursor. A poll with `since` runs a
  page query, a drain query when the full page sits on one millisecond, and returns a new
  cursor. `SyncProtocol` is a state machine in which the clock reading, the page query, the
  drain query and the delivery of one poll are separate steps and writes fall between any
  two of them; responses may be lost, the client may take a new snapshot at any time,
  and it may filter by list or by Inbox.
- **The store.** Tables of tasks and lists, the statements built with positional
  placeholders, compare-and-set on `last_modified`, soft deletes, positions of appended
  tasks, and the outcome of the write endpoints.
- **The text codec.** The printer of `[U+XXXX]` tokens, the scanner that reads them, and
  the truncation of the detail column.
- **The rate limiter.** Fixed windows with lazy eviction.
- **The connection pool and the cached user id.** Threads interleaving at the granularity
  of the locks and of the queue.

Objects with fields are classes (`Repository`, `RateLimiter`, `Database`, `Cache`); each of
their methods is proved against a function of the old state, and the theorems are about
that function; what an operation stores or returns is also stated column by column. `dafny verify dfyconfig.toml` checks the whole project.

## Where the code and its documentation differ

- The comment at repository.py:161-163 says that after a drain there is "definitively no
  more". `DeltaPage.HasMoreExact` gives the exact condition and
  `DeltaPage.DrainedFalseHidesRows` a call in which rows remain. With limit 1 `has_more` is
  never true (`DeltaPage.LimitOneNeverHasMore`).
- README.md:287-288 of the repository promises every row of the closed window up to the
  cursor. `DeltaPage.WindowDelivered` proves the half-open window. The closed one fails with
  limit 2 and rows at 1000, 2000, 2000 (`DeltaPage.ClosedWindowMissesRows`);
  `DeltaPage.ClosedWindowIff` says for which rows, before the call, it is delivered.
- README.md:290-293 promises that no change is missed. This needs the drained millisecond
  to lie before the clock: `SyncExact.SameMillisecondSkips` is a run that skips a task, and
  `SyncExact.QuerySafeIff` shows that this guard (and its counterpart for a full snapshot)
  is exactly what safety needs. In a store that only the service writes the drain guard
  alone is enough (`SyncExact.GuardedIsPrudent`).
- It also needs each write to be one step. A write that read the clock earlier may lie below
  the cursor of a response that is still on its way (`SyncExact.ResponsePassesLateWrite`), and
  a late deletion may leave a row live at a client (`SyncExact.LateDeleteIsMissed`);
  `SyncExact.LateWriteSafeIff` says exactly when every continuation stays safe.
- The snapshot of lists is ordered by title but takes its cursor from the last row of a full
  page. `ListSnapshot.ListBootstrapSafeIff` says for which lists it is a sound start, and
  `ListSnapshot.SkippedListStaysOut` that a skipped list never arrives in delta mode.
- A client that filters by list is not told when a task leaves that list: it keeps its last
  version of the task (`FilteredSync.LeftRowStays`). `SyncProtocol.SyncSafety` shows that
  nothing else below its cursor is stale.
- README.md:249-256 presents `If-Unmodified-Since` as protection against a lost update.
  `ServiceRuns.LostUpdateIff` shows that two writes carrying the same version can both win
  exactly if the first is an update and the clock has not passed the version, as for a task
  created in the same millisecond (`ServiceRuns.LostUpdateReached`), and
  `ServiceRuns.CompareAndSetOnce` that nothing breaks it afterwards.
- A 404 can follow an update that took effect (`WriteOutcomes.EffectiveUpdateNotFound`):
  `WriteOutcomes.AnswerAmongOthers` shows that this happens exactly if another request
  deletes the task before the re-read (routers/tasks.py:91-103).

## Assumptions

- The clock never goes back. An operation of the service is one step of a run, at one
  reading of the clock. Other writers stamp rows with the clock or later.
- `task_id` and `task_list_id` are primary keys, 32 lower-case hexadecimal digits each, and
  are modelled by the numbers they spell. `last_modified` is never NULL.
- `CURSOR_MAX_AGE_MS` is 0, its default. The pool size is at least 1, and a ping fails only
  with the driver's own error. The limiter sees its calls in the order of their times.
- Whether the driver reports rows found or rows changed by an UPDATE is a parameter.
- Time in the limiter is a real number; floating-point rounding is not modelled.

## Model

| member | source | states |
|---|---|---|
| Codec.EncodeEmoji | src/supernote_task_service/encoding.py:56-66 | the loop prints each character in order, those above U+FFFF as tokens |
| Codec.DecodeEmoji | src/supernote_task_service/encoding.py:69-85 | the early exit for texts without `[U+` gives what the substitution would give |
| Codec.HexUpper | src/supernote_task_service/encoding.py:63-63 | upper-case hexadecimal digits without a leading zero |
| Codec.HexRoundTrip | src/supernote_task_service/encoding.py:63-76 | a number printed with `X` and read with `int(_, 16)` is itself |
| Codec.CharPrints | src/supernote_task_service/encoding.py:56-66 | a character up to U+FFFF is printed as itself, any other as `[U+`, its upper-case digits without a leading zero, and `]` |
| Codec.TokenReads | src/supernote_task_service/encoding.py:17-83 | a token with any run of digits, either case, leading zeros included, is read as its character if that is at most U+10FFFF and no surrogate, and copied otherwise; then the rest is read |
| Codec.OtherwiseCopied | src/supernote_task_service/encoding.py:69-85 | where no token begins, one character is copied and the rest is read |
| Codec.EncodingIsInvisible | src/supernote_task_service/encoding.py:56-85 | decoding an encoded text gives what decoding the text itself gives, for every text, tokens and fragments of tokens included |
| Codec.RoundTripExact | src/supernote_task_service/encoding.py:56-85 | a text survives storing and reading exactly when no position of it holds a decodable token |
| Codec.DecodeShrinks | src/supernote_task_service/encoding.py:69-85 | decoding never lengthens a text and shortens it if it holds a token anywhere |
| Codec.NoNewSurrogates | src/supernote_task_service/encoding.py:79-83 | every surrogate in a decoded text was in the text already, so decoding cannot break serialization |
| Codec.EncodedIsThreeByte | src/supernote_task_service/encoding.py:56-66 | no code point above U+FFFF is left, as the 3-byte columns need |
| Codec.EncodeIdempotent | src/supernote_task_service/encoding.py:56-66 | encoding an encoded text changes nothing |
| Codec.EncodeDetail | src/supernote_task_service/encoding.py:88-104 | the result is the encoding of a whole prefix, so no token that it emits is split (a token typed literally can be) |
| Codec.FitLengthIsLongest | src/supernote_task_service/encoding.py:97-103 | that prefix is the longest one: a prefix fits the column if and only if it is no longer |
| Codec.DetailKeepsAPrefix | src/supernote_task_service/encoding.py:88-104 | it fits 255 columns, keeps at least 25 characters (or all), and reads back as the prefix would |
| Codec.DetailReadsBack | src/supernote_task_service/encoding.py:69-104 | a stored detail reads back as sent exactly if it holds no token and its encoding fits |
| RateLimiting.RateLimiter.CheckCall | src/supernote_task_service/ratelimit.py:42-64 | one call evicts, opens or reuses a window, and counts, as the specification says |
| RateLimiting.RateLimiter.EvictExpired | src/supernote_task_service/ratelimit.py:66-71 | below 1024 buckets nothing goes; otherwise exactly the windows that have ended, and the rest stay as they are |
| RateLimiting.EvictionInvisible | src/supernote_task_service/ratelimit.py:42-71 | on every time-ordered run the answers are those of a limiter that never evicts |
| RateLimiting.MemoryBounded | src/supernote_task_service/ratelimit.py:42-71 | after any call there are at most 1024 buckets or all are unexpired |
| RateLimiting.SlidingBound | src/supernote_task_service/ratelimit.py:36-64 | any stretch of k windows' length holds fewer than (k + 1) * limit allowed calls of a key, whatever other keys and eviction do |
| RateLimiting.BlockedOnlyWhenFull | src/supernote_task_service/ratelimit.py:42-64 | conversely, a call is blocked only if limit calls of its key were allowed within the last window's length |
| RateLimiting.Round | src/supernote_task_service/ratelimit.py:51-51 | the remaining time is rounded to the nearest second, halves to even |
| RateLimiting.SlidingBoundReached | src/supernote_task_service/ratelimit.py:36-64 | the bound is sharp for every limit, window length and k: a run allows (k + 1) * limit - 1 calls within k windows' length |
| RateLimiting.AnswersInBounds | src/supernote_task_service/ratelimit.py:51-64 | in every run a blocked answer asks for a wait between 1 and the window length, an allowed one reports between 0 and limit - 1 left |
| RateLimiting.AnswerExact | src/supernote_task_service/ratelimit.py:42-64 | every answer from the history alone: a window begins at a call and lasts the window's length, a call is allowed exactly if fewer than limit were since it began and told how many are left, otherwise told the time to the window's end, to the nearest second and at least one |
| ConnectionPool.Database.AcquireNowait | src/supernote_task_service/db.py:87-92 | takes the connection returned last, or goes on to reserve a slot |
| ConnectionPool.Database.AwaitIdle | src/supernote_task_service/db.py:93-100 | the bounded wait takes a returned connection, or times out on an empty queue |
| ConnectionPool.Database.Ping | src/supernote_task_service/db.py:101-113 | a connection that answers is handed out; with one that does not the thread goes on to open another under the same slot |
| ConnectionPool.Database.Connect | src/supernote_task_service/db.py:77-85 | an opened connection is handed out; a failure leads to giving the slot back, first time or reopening |
| ConnectionPool.Database.UnreserveSlot | src/supernote_task_service/db.py:73-75 | decrements the count |
| ConnectionPool.Database.CloseOne | src/supernote_task_service/db.py:201-209 | takes one idle connection out, without touching the count, until none is left |
| ConnectionPool.Database.TryReserveSlot | src/supernote_task_service/db.py:61-71 | tests and increments the count in one step |
| ConnectionPool.Database.ReleaseConn | src/supernote_task_service/db.py:115-122 | puts the connection back, or gives up its slot if the queue is full |
| ConnectionPool.PoolInvariant | src/supernote_task_service/db.py:61-122 | in every interleaving the count equals idle connections, slots held by threads and connections closed for good; it never exceeds the size, and no connection is in two places |
| ConnectionPool.CapacityConserved | src/supernote_task_service/db.py:77-113 | available, held and closed slots always add up to the size, so failures never shrink the pool |
| ConnectionPool.ReleaseNeverFull | src/supernote_task_service/db.py:115-122 | in every interleaving a returned connection finds room in the queue |
| ConnectionPool.AcquireSucceedsIffAvailable | src/supernote_task_service/db.py:87-113 | an undisturbed acquire that meets no failure succeeds exactly when a connection or a slot is available |
| ConnectionPool.DeadNeverReturns | src/supernote_task_service/db.py:101-113 | in every continuation of a failed ping the connection is neither idle nor in any hand; its thread goes on with one opened later, the count unchanged, or gives the slot back |
| ConnectionPool.LastReturnedFirst | src/supernote_task_service/db.py:87-122 | the connection returned last is validated first |
| ConnectionPool.FailedAcquireUndone | src/supernote_task_service/db.py:77-100 | an acquire that cannot connect, or waits in vain, leaves queue and count as they were |
| ConnectionPool.CloseEmpties | src/supernote_task_service/db.py:201-209 | close takes out every idle connection and leaves the count |
| UserCache.CallersAgree | src/supernote_task_service/db.py:140-150 | in every interleaving at most one resolution is stored and every returned id is that one |
| UserCache.CachedForGood | src/supernote_task_service/db.py:140-150 | once an id is cached it stays, whatever threads do next |
| UserCache.FailureAllowsRetry | src/supernote_task_service/db.py:146-150 | after a failed resolution the cache is empty, the lock free, and any waiting or new caller can resolve |
| UserCache.CachedNeedsNoLock | src/supernote_task_service/db.py:142-143 | a caller that comes when the id is cached gets it without the lock, whoever holds that |
| Table.SortedIsUnique | src/supernote_task_service/repository.py:151-155 | the ordering by `last_modified, task_id` leaves no choice: the rows determine the answer |
| DeltaPage.DrainRefinesOnePass | tests/conftest.py:47-78 | page query plus drain query return what the in-memory repository returns in one pass, cursor and flag included |
| DeltaPage.DrainIsTheRest | src/supernote_task_service/repository.py:178-200 | the drain returns exactly the rows behind the page at its millisecond, in order, none twice |
| DeltaPage.DeltaIsPrefix | src/supernote_task_service/repository.py:147-176 | a page is a prefix of the sorted window with nothing below its cursor left; a full one moves the cursor past its first row |
| DeltaPage.ClampLimit | src/supernote_task_service/repository.py:53-56 | the limit is taken as given between 1 and 1000, moved to the nearer end otherwise, 500 if absent |
| DeltaPage.PageSize | src/supernote_task_service/repository.py:148-176 | a page exceeds the limit only if all of it sits on the millisecond before the cursor |
| DeltaPage.PageLeaves | src/supernote_task_service/repository.py:147-176 | a row of the window that a page leaves comes after its last row and not below its cursor |
| DeltaPage.PageSignals | src/supernote_task_service/repository.py:160-225 | cursor and flag from the rows returned: below the limit the server's time and False; full on one millisecond the next one and False; otherwise full, the last stamp and True |
| DeltaPage.WindowDelivered | src/supernote_task_service/repository.py:129-176 | every row with `since <= last_modified < cursor` is returned |
| DeltaPage.ClosedWindowIff | README.md:287-299 | the documented closed window is delivered exactly if the window holds fewer rows than the limit; or its first `limit` rows share a millisecond and none lies in the next one; or they do not, and none behind them shares the last one's millisecond |
| DeltaPage.ClosedWindowMissesRows | README.md:287-288 | limit 2 and rows at 1000, 2000, 2000 give cursor 2000 without the third row |
| DeltaPage.HasMoreExact | src/supernote_task_service/repository.py:160-176 | `has_more == False` hides rows exactly when the call drained and the window holds a later millisecond |
| DeltaPage.DrainedFalseHidesRows | src/supernote_task_service/repository.py:160-173 | limit 2 and rows at 1000, 1000, 2000 give cursor 1001, False, and a row left |
| SyncProtocol.SyncSafety | src/supernote_task_service/repository.py:114-176 | for every filter a client sends: in every prudent run each stored row of the user below the cursor that passes the filter is in the replica as stored, whatever writes fall inside a poll, and what is stale below the cursor are only rows that left the filter |
| SyncProtocol.QueryKeepsInv | src/supernote_task_service/repository.py:123-176 | the page query keeps what a poll in flight must cover |
| SyncProtocol.DrainKeepsInv | src/supernote_task_service/repository.py:178-200 | so does a drain query that runs after further writes |
| SyncExact.QuerySafeIff | src/supernote_task_service/repository.py:160-176 | every prudent continuation of a query is safe if and only if the drained millisecond is before the clock and a full snapshot's cursor not after it |
| SyncExact.SameMillisecondSkips | src/supernote_task_service/repository.py:160-173 | a client with nothing, one task in the current millisecond and a page of one break that guard, and the next task of the millisecond is skipped |
| SyncExact.LateWriteSafeIff | src/supernote_task_service/repository.py:243-290 | a create, update or delete that read the clock earlier leaves every prudent continuation safe exactly if the client does not ask for the row; or neither its cursor nor the response in flight has passed it; or the write is a deletion, the client took a snapshot, and it neither holds the row nor is being sent it |
| SyncExact.LateDeleteIsMissed | src/supernote_task_service/repository.py:384-393 | after a snapshot, a deletion that lands below the cursor leaves the row live in the replica |
| SyncExact.ResponsePassesLateWrite | src/supernote_task_service/repository.py:243-290 | a run in which such a write lies above the client's cursor and is skipped by the next delivery |
| SyncExact.SnapshotPrudent | src/supernote_task_service/repository.py:136-139 | where no row is stamped after the clock, a task snapshot is always a sound start |
| SyncExact.GuardedIsPrudent | src/supernote_task_service/repository.py:136-176 | where writes are stamped with the clock, draining only milliseconds before the clock makes the whole run prudent, snapshots included |
| ListSnapshot.ListBootstrapSafeIff | src/supernote_task_service/repository.py:422-441 | every prudent run that goes on in delta mode is safe exactly if fewer than `limit` lists are active, or the limit-th by title is stamped at or before the clock and none behind it by title has a smaller stamp |
| ListSnapshot.SkippedListStaysOut | src/supernote_task_service/repository.py:406-441 | a list behind a full page with a smaller stamp, before the clock, is in no replica of any later delta-only run that does not write it |
| ListSnapshot.ListAheadSkips | src/supernote_task_service/repository.py:436-440 | limit 1 and one list that a device stamped ahead of the clock: some delta run skips a list |
| ListSnapshot.FullListBootstrapSkips | src/supernote_task_service/repository.py:422-441 | limit 1 and two lists: the second is never seen in any such run |
| SyncConvergence.PollIsDelta | src/supernote_task_service/repository.py:114-176 | a poll that nothing interrupts delivers the page and cursor of one call |
| SyncConvergence.PollProgress | src/supernote_task_service/repository.py:160-225 | a quiet poll finishes or strictly shrinks the set of rows ahead, and undoes nothing |
| SyncConvergence.Converges | src/supernote_task_service/repository.py:202-225 | more polls than rows ahead always suffice |
| SyncConvergence.EventuallyEqual | src/supernote_task_service/repository.py:114-225 | after any run, snapshots and lost responses included, enough quiet polls leave exactly the active rows of the filter live in the replica, all its rows if no snapshot was taken, and beyond these only rows that left the filter; without a filter that is the whole replica |
| FilteredSync.LeftRowStays | src/supernote_task_service/repository.py:129-145 | a row that leaves the filter of a client stays in its replica as it was, however long the client goes on in delta mode, until the row is written again |
| FilteredSync.MovedRowStaysStale | src/supernote_task_service/repository.py:129-145 | a row the client holds moves out of the filter, and the client keeps the old version in every such run |
| Sql.WhereSnoc | src/supernote_task_service/repository.py:126-147 | appending a clause with its parameters narrows the answer by that clause, parameters bound by position |
| Sql.BuildPageQuery | src/supernote_task_service/repository.py:126-155 | for every combination of filters the clauses, bound by position, hold of exactly the user's rows in the Inbox, in the one list, or in any; stamped from `since` to now, or else not deleted and open if completed ones are not wanted; the limit comes last |
| Sql.BuildDrainQuery | src/supernote_task_service/repository.py:182-196 | the clauses hold of exactly the user's rows at the boundary, behind the last id, in the Inbox, in the one list, or in any |
| Sql.DrainStaysInWindow | src/supernote_task_service/repository.py:126-196 | the drain selects the page's own window at the boundary behind the last id, and nothing else |
| Sql.BuildSets | src/supernote_task_service/repository.py:311-344 | bound by position the SET fragments store given texts printed and fit for their columns and other given fields as sent; null clears importance, list and link, sets due to 0 and leaves the rest; omitted columns stay; there are none exactly if no field has effect |
| Sql.BuildTarget | src/supernote_task_service/repository.py:353-358 | the WHERE fragments select the one active row of the user, at the version if one is supplied |
| Sql.UpdateMeans | src/supernote_task_service/repository.py:351-364 | the built statement changes that row as asked and no other |
| Repository.Repository.ListTasks | src/supernote_task_service/repository.py:114-176 | by the rows' own columns: only rows of the user in the requested scope and window, in order; any other such row comes behind the page, and not below a delta's cursor; cursor and flag by the rows returned |
| Repository.Repository.DrainTasksAt | src/supernote_task_service/repository.py:178-200 | returns exactly the user's rows at the boundary in the requested scope behind the id, in order |
| Repository.CallsAreQueries | src/supernote_task_service/repository.py:114-155 | the queries of a call with or without `since`, filters by list or Inbox included, are the query steps of the sync protocol for a client with that filter |
| Repository.Repository.ListLists | src/supernote_task_service/repository.py:406-444 | the delta mode returns the specified page; the snapshot the first rows by title, a cursor from the last of a full page, and the Inbox in front |
| Repository.Repository.CreateTask | src/supernote_task_service/repository.py:241-291 | inserts a row with every column as sent or defaulted: texts printed, completion time, due 0, and a position beyond all of its list unless one is given; or nothing if the key is taken |
| Repository.Repository.UpdateTask | src/supernote_task_service/repository.py:308-364 | changes exactly the user's undeleted row at the version, column by column as asked, and stamps it; with no effective field it is only a version check |
| Repository.Repository.UpdateWhere | src/supernote_task_service/repository.py:351-364 | a built statement changes the one matching row, and success is reported for it alone |
| Repository.Repository.SetStatus | src/supernote_task_service/repository.py:377-382 | changes status, completion time and stamp, and no other column |
| Repository.Repository.DeleteTask | src/supernote_task_service/repository.py:384-393 | marks and stamps exactly the matching row and keeps its columns |
| Repository.Repository.CreateList | src/supernote_task_service/repository.py:494-505 | inserts the list with its title printed, or nothing if the key is taken |
| Repository.Repository.DeleteList | src/supernote_task_service/repository.py:520-529 | success exactly if the list is the user's, not deleted and at the version; then it is marked and stamped, its title kept, and no other row touched |
| Repository.Repository.UpdateList | src/supernote_task_service/repository.py:507-518 | stores the printed title and stamps exactly the matching list; a driver that counts changed rows misses a rename to the same title in the row's own millisecond |
| Handlers.UpdateTaskHandler | src/supernote_task_service/routers/tasks.py:91-103 | succeeds exactly if the row is active at the version, the list exists and the driver notices the update; 409 exactly if the request is conditional and the row is active, at another version or with an update the driver overlooks; otherwise 404, and nothing is written |
| Handlers.DeleteTaskHandler | src/supernote_task_service/routers/tasks.py:111-119 | the same for a delete, after which the row is there but not active |
| Handlers.SetStatusHandler | src/supernote_task_service/routers/tasks.py:123-145 | the same for completing and reopening, the overlooked update included, with the completion time set or cleared |
| WriteOutcomes.AnswerAmongOthers | src/supernote_task_service/routers/tasks.py:36-119 | whatever runs between the list check, the write and the check after it: a success means the row matched, a conflict that nothing was written and a row that was there was stale; a write that reports success is answered with 404 exactly if it was an update whose task was deleted meanwhile |
| WriteOutcomes.EffectiveUpdateNotFound | src/supernote_task_service/routers/tasks.py:91-103 | a run in which that happens |
| ServiceRuns.TaskRunRefines | src/supernote_task_service/repository.py:241-393 | every run of task operations and polls is a run of the sync protocol |
| ServiceRuns.TaskSyncSafety | src/supernote_task_service/repository.py:114-393 | so no task change below the cursor is ever skipped |
| ServiceRuns.TaskSyncConverges | src/supernote_task_service/repository.py:114-393 | and enough quiet polls bring replica and task table in step, for every filter; without one they are equal |
| ServiceRuns.TaskBootstrapConverges | src/supernote_task_service/repository.py:114-393 | where writes are stamped with the clock this holds from any snapshot, full or not, with the drain guard as the only condition |
| ServiceRuns.ListSyncSafety | src/supernote_task_service/repository.py:406-529 | the same safety for lists in delta mode |
| ServiceRuns.ListSyncConverges | src/supernote_task_service/repository.py:406-529 | and the same convergence |
| ServiceRuns.ListBootstrapConverges | src/supernote_task_service/repository.py:406-529 | a sound list snapshot, one below the limit in particular, then any delta run and enough quiet polls leave exactly the active lists in the replica |
| ServiceRuns.TaskHistory | src/supernote_task_service/repository.py:241-393 | rows never disappear, deleted rows and other users' rows never change, stamps the clock has reached never go back |
| ServiceRuns.ListHistory | src/supernote_task_service/repository.py:494-529 | the same for lists |
| ServiceRuns.DeletedTaskStays | src/supernote_task_service/repository.py:384-393 | a deleted task keeps its columns, is marked and stamped, and stays so in every run of the service |
| ServiceRuns.DeletedListStays | src/supernote_task_service/repository.py:422-529 | so does a list, and it is in no later list snapshot |
| ServiceRuns.CompareAndSetOnce | src/supernote_task_service/repository.py:346-393 | once the clock has passed v, a successful write carrying v is the last, in every continuation |
| ServiceRuns.LostUpdateIff | src/supernote_task_service/repository.py:351-393 | after a write carrying v has won, a second one can win in some run of the service exactly if the first was an update and the clock had not passed v |
| ServiceRuns.LostUpdateReached | src/supernote_task_service/repository.py:241-364 | in the millisecond a task is created, two updates that both carry its version win |
| ServiceRuns.BackToBackIff | src/supernote_task_service/repository.py:351-364 | of two updates in a row carrying v the second wins exactly in v's own millisecond |
| ServiceRuns.NextSortIsLast | src/supernote_task_service/repository.py:294-306 | the next position is beyond every active task of the list |
| ServiceRuns.NextSortIsTight | src/supernote_task_service/repository.py:300-306 | and right after one of them, unless it is 0 |
| ServiceRuns.AppendOrder | src/supernote_task_service/repository.py:269-306 | over appends, deletes and other updates positions stay distinct, and a new task goes last in its list |
| Store.NewStored | src/supernote_task_service/repository.py:241-306 | a new row column by column: texts printed and fit, what is sent as sent, defaults, completion time, and its place |
| Store.PatchStored | src/supernote_task_service/repository.py:311-344 | a partial update column by column |
| ServiceRuns.CreatedTextReadsBack | src/supernote_task_service/repository.py:279-280 | a created title reads back as sent exactly if it holds no token, a detail exactly if it also fits; otherwise the detail reads back as the longest prefix that fits, of 25 characters or more |

## Left out

- FastAPI wiring, authentication, settings, logging, health endpoints and error bodies hold no hard state.
- SQL text, collation and NULL `last_modified`: clauses are a datatype with positional placeholders, tables are maps.
- `category` comes from a join with the list table and is not part of a task row here; renaming a list does not touch its tasks.
- The snapshot with `include_completed=false`: only its selection is modelled, not its use as a start for sync.
- `get_list_by_title` and the find-or-create of lists.
- The database's answer to the list query by title is a parameter of the model: any ordering of the active lists by a collation, ties in any order.
- Document links, datetime conversion and the text form of importance are opaque values that are stored and returned.
- The device-only columns of a new task (`sort_completed`, `planer_sort`, `all_sort` and their times) are constants.
- Repository.UpdateTask: the two clock readings of an update are separate parameters of the method, but in runs of `ServiceRuns` both are the time of the step.
- Handlers.UpdateTaskHandler: one step here; `WriteOutcomes` lets other requests run between the list check, the write and the check or re-read after it.
- Repository.UpdateList: the static statements on lists, those of `ListLists` included, are executed directly, not through the clause datatype.
- Repository.DeleteTask: the literal 'Y' of its SET list is bound as a parameter.
- Waiting times, fairness and wake-ups of the pool, and any promise that waiting `retry_after` seconds suffices (the value is rounded and may be short).
- Resolution of the user id from the user and task tables: its outcome is a parameter.
