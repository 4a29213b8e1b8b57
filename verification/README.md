# todo_list task core in Dafny

A model of the task core of the `todo_list` Go service: the task service
that validates input and merges updates, the GORM/Postgres task repository
(search, filters, tags, bulk operations, archiving, statistics, due-date
windows), the bearer-token gate in front of the routes, the JSON view of a
task, the task entity with its create hook, and the database settings check.

The database is modelled as an immutable `TaskRepo.Store`: the task rows
(each with its preloaded tags), the tag table (name to id, the name being a
unique index) and the next tag id. Every mutation and every read by id is a
pure function from a store to a `Result`, and an `Err` leaves the store as it
was. The list queries (`FindByStatus`, `FindByPriority`, `FindByTag`,
`Search`, `GetToday`, `GetOverdue`) and `Stats` are pure functions from a
store to a plain value. Ids arrive
as strings and are read the way Postgres reads a `uuid` literal: a string
that is not a UUID is an `InvalidUuidSyntax` error, a well-formed id with no
row is `RecordNotFound`. The store invariant `TaskRepo.Valid` has these parts,
each with its source:

- unique task ids: the primary key;
- non-nil task ids: the `BeforeCreate` hook in `internal/domain/model/task.go`;
- tag ids unique and below the counter: the tag table's serial key;
- every tag on a task a tag-table row: the link table's foreign keys;
- a tag linked to a task at most once: the link table's composite key;
- every stored row fitting its columns: the column types.

Every mutation is proved to keep it.

Column types are part of the model (`TaskModel.StoreRow`). A NUL character
in any text value is refused before a statement runs (SQLSTATE 22021).
Title, status and priority are `varchar(255)`, `varchar(50)` and
`varchar(50)`, a tag name `varchar(100)`, content is unbounded `text`.
Assigning a longer value cuts it to the width when everything past the width
is a space, and is a value-too-long error (SQLSTATE 22001) otherwise. The
services return the task as the caller built it, while the store holds the
stored form.

Inputs the code takes from its environment are parameters:

- the clock: `now`, in nanoseconds since the Unix epoch (UTC);
- `uuid.New()`: `newId`, any UUID other than the nil one;
- the collation's case folding for `ILIKE`: `fold: char -> char`;
- JWT parsing and signature checking: `verify: string -> Verdict`;
- the driver that opens a connection: `open: DatabaseConfig -> Result<C>`.

Modules, one per source concern: `Results` (errors and their messages,
`Option`, `Result`), `Uuids` (the UUID text form and its parser), `Text`
(Go's `TrimSpace`/`HasPrefix`/`TrimPrefix` and the `ILIKE` matcher),
`TaskModel`, `TaskRepo`, `TaskRepoLemmas`, `TaskService`, `Auth`,
`ResponseDto`, `DbConfig`.

Where the repository's own tests and the code disagree, the model follows the
code: `internal/infrastructure/repository/task_repo_test.go` calls repository
methods with a user id and sets a `UserID` field that neither
`internal/infrastructure/repository/task_repo.go` nor
`internal/domain/model/task.go` has, so no per-user filtering is modelled.

Search does not escape the query: a `%` or `_` typed by the user acts as a
wildcard (`Text.UnderscoreIsWildcard`); for queries free of `%`, `_` and `\`
search is exactly a case-insensitive substring test on title or content
(`TaskRepo.SearchFindsContaining`).

## Model

| member | source | states |
|---|---|---|
| Results.Message | internal/domain/service/task_service.go:13-14 | a driver error passes the driver's own text on; every other error has a non-empty description |
| Results.MessagesDistinct | internal/domain/service/task_service.go:13-14 | no two errors other than driver errors share a description |
| TaskModel.BeforeCreate | internal/domain/model/task.go:30-35 | the nil id is replaced by the new (non-nil) id, a set id is kept, no other field changes |
| TaskModel.BeforeCreateIdempotent | internal/domain/model/task.go:30-35 | running the hook a second time, with any id, changes nothing |
| TaskModel.WithColumnDefaults | internal/domain/model/task.go:14-15 | an empty status is stored as "todo", an empty priority as "medium", any given value is kept, nothing else changes |
| TaskModel.FitVarchar | internal/domain/model/task.go:12-15 | a value within the width is kept; a wider one is cut to exactly the width when only spaces lie beyond it, and is a value-too-long error otherwise; a kept value is a prefix of the input with only spaces after it |
| TaskModel.FitVarcharIdempotent | internal/domain/model/task.go:12-15 | assigning a stored value to the same column again stores it unchanged |
| TaskModel.StoreRow | internal/domain/model/task.go:12-15 | a NUL in any text column is refused before anything else; the row is stored unchanged exactly when every column fits; otherwise it succeeds exactly when title, status and priority each fit their width after dropping trailing spaces, and the stored row carries the fitted values |
| TaskModel.StoreRowIdempotent | internal/domain/model/task.go:12-15 | storing a stored row again stores it unchanged |
| Uuids.ToString | internal/api/dto/response.go:27 | the text form is 36 characters, hyphens exactly at 8, 13, 18, 23 and lower-case hex elsewhere |
| Uuids.ParseToString | internal/api/dto/response.go:27 | the text form of every UUID parses back to that UUID |
| Uuids.ToStringInjective | internal/api/dto/response.go:27 | distinct tasks get distinct text ids |
| Uuids.Parse | internal/infrastructure/repository/task_repo.go:38 | an id is accepted exactly when it has 36 characters, hyphens at 8, 13, 18 and 23 and hex digits of either case elsewhere; the UUID it stands for has as canonical text the id with its hex letters lowered |
| Uuids.ParseMeaning | internal/infrastructure/repository/task_repo.go:38 | an id names a given UUID exactly when lowering its hex letters gives that UUID's canonical text, so ids differing only in letter case name the same task |
| Text.TrimSpace | internal/infrastructure/repository/task_repo.go:82 | the result is a slice of the input with only white space around it, has no white space at either end, and is empty exactly when the input is blank |
| Text.TrimSpaceIdempotent | internal/infrastructure/repository/task_repo.go:82 | trimming a trimmed string changes nothing |
| Text.TrimPrefix | internal/api/middleware/auth.go:18 | with the prefix present, prefix plus result is the input; otherwise the input is returned |
| Text.TrimPrefixOfConcat | internal/api/middleware/auth.go:18 | removing a prefix that was just prepended gives back exactly the rest |
| Text.HasPrefix | internal/api/middleware/auth.go:14 | holds exactly when the string is the prefix followed by the rest of the string |
| Text.Like | internal/infrastructure/repository/task_repo.go:89 | a pattern free of LIKE metacharacters matches exactly the strings equal to it up to case |
| Text.LikeLiteralThen | internal/infrastructure/repository/task_repo.go:86-89 | putting the same literal text in front of a matching string and of its pattern keeps the match |
| Text.LikeContains | internal/infrastructure/repository/task_repo.go:86-89 | for a query without LIKE metacharacters, `s ILIKE %q%` holds exactly when `q` occurs in `s` up to case |
| Text.UnderscoreIsWildcard | internal/infrastructure/repository/task_repo.go:86-89 | for literal pieces `a` and `b`, the pattern `%a_b%` matches every text that holds `a`, then any one character, then `b`; so "a_c" finds "abc" |
| TaskRepo.Find | internal/infrastructure/repository/task_repo.go:36-42 | the row found has the id asked for, and none is found exactly when no row has it |
| TaskRepo.FindUnique | internal/infrastructure/repository/task_repo.go:36-42 | with unique ids the row found is the one stored under that id |
| TaskRepo.ResolveId | internal/infrastructure/repository/task_repo.go:38 | an id is accepted exactly when it parses as a UUID and then stands for that UUID; otherwise it is a syntax error |
| TaskRepo.Create | internal/infrastructure/repository/task_repo.go:24-26 | a NUL in a text column or a value too wide for its varchar column fails first; then an id already stored is a duplicate-key error; otherwise the hook and column defaults are applied and the row is appended in the form its columns store it |
| TaskRepo.GetByID | internal/infrastructure/repository/task_repo.go:36-42 | a malformed id is a syntax error, an absent one not-found; a found task is stored and carries the id asked for |
| TaskRepo.GetByIDOfStored | internal/infrastructure/repository/task_repo.go:36-42 | every stored task is found by its own text id |
| TaskRepo.Update | internal/infrastructure/repository/task_repo.go:44-46 | column errors come first, then an absent id is not-found, and any stored id succeeds; the row with the task's id takes the stored form of the task's columns and keeps its tag links; other rows and the tag table stay |
| TaskRepo.Delete | internal/infrastructure/repository/task_repo.go:48-50 | a malformed id is the only error; afterwards exactly the other tasks remain, and a missing id is no error |
| TaskRepo.FindByStatus | internal/infrastructure/repository/task_repo.go:52-58 | a task is listed exactly when it is stored with that status |
| TaskRepo.FindByPriority | internal/infrastructure/repository/task_repo.go:60-66 | a task is listed exactly when it is stored with that priority |
| TaskRepo.FindByTag | internal/infrastructure/repository/task_repo.go:68-78 | a task is listed exactly when it is stored and linked to a tag of that exact name |
| TaskRepo.Search | internal/infrastructure/repository/task_repo.go:80-94 | a blank query finds nothing; otherwise a task is listed exactly when its title or content is `ILIKE %q%` for the trimmed query |
| TaskRepo.SearchPattern | internal/infrastructure/repository/task_repo.go:86 | the pattern is the query, unchanged and unescaped, between one leading and one trailing `%` |
| TaskRepo.Matches | internal/infrastructure/repository/task_repo.go:89 | for a query without LIKE metacharacters a task matches exactly when its title or its content contains the query up to case |
| TaskRepo.SearchFindsContaining | internal/infrastructure/repository/task_repo.go:80-94 | for a literal trimmed query, a task is found exactly when its title or content contains the query up to case |
| TaskRepo.DayStart | internal/infrastructure/repository/task_repo.go:98 | truncation to 24 hours yields the midnight at or before `now`, a whole number of days since the epoch |
| TaskRepo.SameDayWindow | internal/infrastructure/repository/task_repo.go:98-100 | the window from midnight to midnight plus a day less one nanosecond holds exactly the instants of the same day |
| TaskRepo.GetToday | internal/infrastructure/repository/task_repo.go:96-104 | a task is listed exactly when it has a due date on the same UTC day as `now` |
| TaskRepo.GetOverdue | internal/infrastructure/repository/task_repo.go:106-112 | a task is listed exactly when it has a due date before `now` and is not done |
| TaskRepo.TodayAndOverdue | internal/infrastructure/repository/task_repo.go:96-112 | a task due earlier today that is not done is also overdue |
| TaskRepo.TagFor | internal/infrastructure/repository/task_repo.go:124-126 | a name with a NUL fails; a name already in the tag table is reused; a new name wider than the 100-character column fails, and any other is created with the next id; these are the only outcomes |
| TaskRepo.AppendTag | internal/infrastructure/repository/task_repo.go:127-129 | the tag is linked afterwards, existing links stay, and nothing else is linked |
| TaskRepo.AddTag | internal/infrastructure/repository/task_repo.go:114-134 | a blank name fails before any lookup; a bad or absent id fails; for a stored task the call succeeds exactly when the tag row can be found or created and otherwise returns that error; on success only the task's row changes, its columns are as read, it carries the trimmed name, and the tag table gained exactly that name |
| TaskRepo.LinkTag | internal/infrastructure/repository/task_repo.go:123-133 | succeeds exactly when the tag row can be found or created; then the task carries the tag, keeps its other links and columns, only its own row in the store changes, and the tag table gained exactly that name |
| TaskRepo.RemoveTag | internal/infrastructure/repository/task_repo.go:136-152 | a bad or absent id fails first, then a name with a NUL, then an unknown name is not-found, and a known name succeeds; on success only the task's row changes, its columns stay, its links are exactly the old ones without that tag's id, and the tag table is unchanged |
| TaskRepo.SelectTags | internal/infrastructure/repository/task_repo.go:145 | exactly the links that pass the filter remain |
| TaskRepo.ResolveIds | internal/infrastructure/repository/task_repo.go:158 | an `IN` list is read entry by entry; one malformed id fails the whole list |
| TaskRepo.BulkDelete | internal/infrastructure/repository/task_repo.go:154-159 | an empty list changes nothing; a malformed id fails; otherwise exactly the unlisted tasks remain |
| TaskRepo.BulkUpdateStatus | internal/infrastructure/repository/task_repo.go:161-166 | an empty list changes nothing; then a NUL in the status fails, then a malformed id; with every id well formed it succeeds exactly when the status fits varchar(50), and then exactly the listed tasks take the stored form of the status |
| TaskRepo.SetArchived | internal/infrastructure/repository/task_repo.go:168-190 | the stored task named by the id comes back with only the archived flag set as asked, and exactly its row in the store is overwritten with it; tag table unchanged |
| TaskRepo.Archive | internal/infrastructure/repository/task_repo.go:168-178 | a bad or absent id fails; otherwise the read task comes back archived with nothing else changed, and only its row in the store is overwritten |
| TaskRepo.Unarchive | internal/infrastructure/repository/task_repo.go:180-190 | a bad or absent id fails; otherwise the read task comes back not archived with nothing else changed, and only its row in the store is overwritten |
| TaskRepo.Stats | internal/infrastructure/repository/task_repo.go:192-208 | exactly the keys todo, in_progress, done, blocked and total; total is the task count, each status key its count, and the four together never exceed total |
| TaskRepo.StatusCountsBounded | internal/infrastructure/repository/task_repo.go:194-206 | the per-status counts sum to at most the number of tasks |
| TaskRepo.EmptyValid | internal/domain/model/task.go:10-35 | the empty database satisfies the store invariant |
| TaskRepoLemmas.SelectKeepsValid | internal/infrastructure/repository/task_repo.go:48-50 | removing any set of rows keeps the store invariant |
| TaskRepoLemmas.CreateKeepsValid | internal/infrastructure/repository/task_repo.go:24-26 | a successful create keeps the store invariant |
| TaskRepoLemmas.UpdateKeepsValid | internal/infrastructure/repository/task_repo.go:44-46 | a successful update keeps the store invariant |
| TaskRepoLemmas.DeleteKeepsValid | internal/infrastructure/repository/task_repo.go:48-50 | a successful delete keeps the store invariant |
| TaskRepoLemmas.BulkDeleteKeepsValid | internal/infrastructure/repository/task_repo.go:154-159 | a successful bulk delete keeps the store invariant |
| TaskRepoLemmas.BulkUpdateStatusKeepsValid | internal/infrastructure/repository/task_repo.go:161-166 | a successful bulk status change keeps the store invariant |
| TaskRepoLemmas.SetArchivedKeepsValid | internal/infrastructure/repository/task_repo.go:168-190 | archiving and unarchiving keep the store invariant |
| TaskRepoLemmas.AddTagLinks | internal/infrastructure/repository/task_repo.go:114-134 | a successful add-tag links the trimmed name to the stored row the id names |
| TaskRepoLemmas.LinkTagKeepsValid | internal/infrastructure/repository/task_repo.go:123-129 | linking a tag keeps tag ids unique and every link pointing at a tag-table row |
| TaskRepoLemmas.AddTagKeepsValid | internal/infrastructure/repository/task_repo.go:114-134 | a successful add-tag keeps the store invariant |
| TaskRepoLemmas.RemoveTagKeepsValid | internal/infrastructure/repository/task_repo.go:136-152 | a successful remove-tag keeps the store invariant |
| TaskRepoLemmas.SelectTagsKeepsTagsOk | internal/infrastructure/repository/task_repo.go:145 | dropping links keeps the remaining links valid |
| TaskRepoLemmas.RemoveTagDropsName | internal/infrastructure/repository/task_repo.go:136-152 | after removal the task carries no tag of that name and the tag row itself remains |
| TaskRepoLemmas.AddTagToUntagged | internal/infrastructure/repository/task_repo.go:114-134 | a task without tags carries exactly the one new tag afterwards |
| TaskRepoLemmas.LinkTagAgain | internal/infrastructure/repository/task_repo.go:124-127 | linking a tag already linked changes neither the task nor the store |
| TaskRepoLemmas.AddTagIdempotent | internal/infrastructure/repository/task_repo.go:114-134 | adding the same tag twice gives the same task and store as adding it once |
| TaskRepoLemmas.LinkThenUnlink | internal/infrastructure/repository/task_repo.go:123-147 | linking a new tag to a row and unlinking it gives the row back |
| TaskRepoLemmas.AddThenRemoveTag | internal/infrastructure/repository/task_repo.go:114-152 | adding a tag the task lacked and removing it by its trimmed name gives the task back as it was |
| TaskRepoLemmas.SelectTagsAllButLast | internal/infrastructure/repository/task_repo.go:145 | filtering out only the last link gives the earlier links back |
| TaskRepoLemmas.DeleteThenGet | internal/infrastructure/repository/task_repo.go:36-50 | after a delete the task is no longer found by its id |
| TaskRepoLemmas.AddTagThenFindByTag | internal/infrastructure/repository/task_repo.go:68-78 | after adding a tag the task is found under the trimmed tag name |
| TaskRepoLemmas.BulkDeleteThenGet | internal/infrastructure/repository/task_repo.go:154-159 | after a bulk delete no listed id is found any more |
| TaskRepoLemmas.BulkUpdateStatusThenFind | internal/infrastructure/repository/task_repo.go:161-166 | after a successful bulk change the status fits its column, and every stored, listed task is found under the stored form of the status, and under the status itself when it is no wider than the column |
| TaskRepoLemmas.SearchIgnoresSurroundingSpace | internal/infrastructure/repository/task_repo.go:80-94 | a query and its trimmed form give the same results |
| TaskRepoLemmas.ArchiveUnarchive | internal/infrastructure/repository/task_repo.go:168-190 | archive then unarchive gives the task back unarchived with all else equal, and restores the whole store when it was not archived |
| TaskRepoLemmas.CountIsFindByStatus | internal/infrastructure/repository/task_repo.go:196-200 | the count for a status is the number of tasks listed for it |
| TaskRepoLemmas.StatsAgreeWithFindByStatus | internal/infrastructure/repository/task_repo.go:192-208 | each status entry of the statistics equals the size of the status filter's answer |
| TaskRepoLemmas.SelectCount | internal/infrastructure/repository/task_repo.go:52-58 | a filter keeps every copy of a row that passes it and no copy of a row that fails it |
| TaskRepoLemmas.FiltersListRowsOnce | internal/infrastructure/repository/task_repo.go:52-78 | the status, priority and tag filters list each matching row exactly as often as it is stored and a non-matching row not at all |
| TaskRepoLemmas.SearchListsRowsOnce | internal/infrastructure/repository/task_repo.go:80-94 | search lists each matching row exactly as often as it is stored, and nothing for a blank query |
| TaskRepoLemmas.TodayListsRowsOnce | internal/infrastructure/repository/task_repo.go:96-104 | today's list holds each row due on the day of `now` exactly as often as it is stored, and no other row |
| TaskRepoLemmas.OverdueListsRowsOnce | internal/infrastructure/repository/task_repo.go:106-112 | the overdue list holds each late row not done exactly as often as it is stored, and no other row |
| TaskRepoLemmas.StoredRowOnce | internal/domain/model/task.go:11 | with unique ids every row is stored once, so together with the lemmas above no query lists a row twice |
| TaskService.ValidateTaskData | internal/domain/service/task_service.go:52-60 | an empty title is reported before an empty content; both present is the only success |
| TaskService.CreateTask | internal/domain/service/task_service.go:62-83 | invalid input fails with the validation error; then column errors of the new row, then a duplicate id; otherwise a task with the given fields, defaulted status and priority, no tags and not archived is returned and its stored form appended |
| TaskService.CreateThenGet | internal/domain/service/task_service.go:62-83 | a created task reads back by its text id as the database stored it, which is the task as returned when every column fits, and the store invariant holds |
| TaskService.UpdateTask | internal/domain/service/task_service.go:93-118 | the id is checked before the input; for a found task and valid input the merged row's column error is returned and otherwise the update succeeds; title and content are replaced, status and priority only when given, due always, everything else kept; the returned store is exactly what the repository's `Update` makes of the new task: that task's row takes its stored form, and every other row, the tag table and the tag counter are unchanged |
| TaskService.UpdateStoredRow | internal/infrastructure/repository/task_repo.go:44-46 | a task whose columns do not fit fails with that column error; otherwise updating a stored row with its own links replaces only that row, with the stored form of the task |
| TaskService.UpdateIdempotent | internal/infrastructure/repository/task_repo.go:44-46 | saving the same storable task over its own row twice gives the same store as saving it once |
| TaskService.UpdateTaskThenGet | internal/domain/service/task_service.go:93-118 | the updated task reads back as the database stored it, which is the task as returned when it fits; no other task and no tag changes, and the invariant holds |
| TaskService.ChangeStatus | internal/domain/service/task_service.go:124-137 | an empty status fails before any lookup; for a found task a status that does not fit its column fails and any other succeeds; only the status changes; the returned store is exactly what the repository's `Update` makes of the new task: that task's row takes its stored form, and every other row, the tag table and the tag counter are unchanged |
| TaskService.ChangeStatusThenFind | internal/domain/service/task_service.go:124-141 | the changed task reads back in its stored form and is listed under the stored form of the new status, and under the status itself when it fits the column |
| TaskService.ChangeStatusIdempotent | internal/domain/service/task_service.go:124-137 | setting the same status again changes nothing |
| TaskService.ChangePriority | internal/domain/service/task_service.go:163-176 | an empty priority fails before any lookup; for a found task a priority that does not fit its column fails and any other succeeds; only the priority changes; the returned store is exactly what the repository's `Update` makes of the new task: that task's row takes its stored form, and every other row, the tag table and the tag counter are unchanged |
| TaskService.ChangePriorityThenFind | internal/domain/service/task_service.go:163-180 | the changed task reads back in its stored form and is listed under the stored form of the new priority, and under the priority itself when it fits the column |
| Auth.Subject | internal/api/middleware/auth.go:32 | the `sub` claim, or null when the claim map has none |
| Auth.Decide | internal/api/middleware/auth.go:13-33 | no exact `Bearer ` prefix gives 401 "missing or invalid token"; a failed or invalid token 401 "unauthorized"; non-map claims 401 "invalid token claims"; otherwise admission with the `sub` claim |
| Auth.AuthMiddleware | internal/api/middleware/auth.go:10-36 | a refusal replies 401 with an `error` body and never runs the handler; an admission runs the handler once with `user_id` set and returns its reply |
| Auth.AdmittedIff | internal/api/middleware/auth.go:13-33 | admission holds exactly when the prefix is present and the token verifies as valid with map claims |
| Auth.NoPrefixIgnoresVerifier | internal/api/middleware/auth.go:14-16 | without the prefix the verifier's answer does not matter: the request is refused |
| Auth.TokenIsHeaderTail | internal/api/middleware/auth.go:18-19 | the verifier sees exactly what follows the prefix |
| Auth.LowerCaseSchemeRefused | internal/api/middleware/auth.go:14 | the scheme is case-sensitive: "bearer " is refused as a missing token |
| Auth.OnlyOnePrefixRemoved | internal/api/middleware/auth.go:18 | a doubled prefix hands the verifier a token that still starts with "Bearer " |
| ResponseDto.ToTaskResponse | internal/api/dto/response.go:22-37 | tag names in order and nil exactly for a task without tags; the id is the lower-case canonical text of the task's id and parses back to it; every other field copied |
| DbConfig.ValidateConfig | internal/infrastructure/database/postgres/db.go:74-79 | succeeds exactly when host, port, user, password and database name are all set; the one error reads "invalid database config" |
| DbConfig.ValidationIgnoresPool | internal/infrastructure/database/postgres/db.go:75 | TLS mode and pool settings do not affect validation |
| DbConfig.AnyNonZeroPortPasses | internal/infrastructure/database/postgres/db.go:75 | only the zero port is refused, negative ports pass |
| DbConfig.CreateConnection | internal/infrastructure/database/postgres/db.go:22-47 | an invalid config is refused without reaching the driver; a valid one gets the driver's answer |
| DbConfig.InvalidConfigNeverOpens | internal/infrastructure/database/postgres/db.go:22-25 | for an invalid config the driver's behaviour makes no difference |

## Left out

- Timestamps: `created_at`/`updated_at` are set by the ORM from the clock and are carried through unchanged; `BulkUpdateStatus` also stamps `updated_at`, which is not modelled.
- TaskRepo.Update: GORM's `Save` inserts a row whose id is absent; the model reports not-found instead, the only case the service reaches being a row it has just read. The `FullSaveAssociations` session does not change links the service does not touch.
- TaskRepo.Create: the task's tag associations are not inserted; the service always creates tasks without tags.
- TaskRepo.Search: the collation's case folding is the parameter `fold`; Unicode case mapping (for instance of Cyrillic text) is not modelled.
- TaskRepo.GetToday and TaskRepo.GetOverdue: Postgres keeps microseconds, the model compares nanoseconds; the clock is the parameter `now`.
- Uuids.Parse: accepts only the canonical 8-4-4-4-12 layout (hex of either case); Postgres's other accepted forms (braces, no hyphens) are not modelled.
- Driver, network and context errors from any repository call. The errors the stored data and the column types determine are modelled: a malformed id, a missing row, a duplicate key, a value too wide for its column and a NUL in text.
- TaskRepo.FindByStatus: a NUL in the status asked for is refused by the database's encoding check; the model answers the query as if the NUL were an ordinary character.
- TaskRepo.FindByPriority: a NUL in the priority asked for is refused by the encoding check; the model answers the query.
- TaskRepo.FindByTag: a NUL in the tag name asked for is refused by the encoding check; the model answers the query.
- TaskRepo.Search: a NUL in the trimmed query is refused by the encoding check; the model answers the query.
- TaskRepo.ResolveId: an id holding a NUL is refused by the encoding check (SQLSTATE 22021) before it is read as a UUID; the model reports the syntax error for it.
- TaskRepo.TagFor: a new name wider than 100 characters whose excess is all spaces would be stored cut to 100 characters; the model refuses every new name over the width. `AddTag` passes only trimmed, non-blank names, which never end in a space, so through it the two agree.
- TaskRepo.BulkUpdateStatus: whether a status too wide for its column fails when no listed id names a row depends on the database's plan; the model always refuses it.
- Row and tag order: no query has an `ORDER BY` and the tag preload is unordered, so the code fixes no order of the rows returned or of a task's tags. The model keeps insertion order; the filters are stated as "listed exactly when", which does not depend on it.
- TaskRepoLemmas.LinkThenUnlink: the tags come back in the same order only because the model appends a link and filtering keeps order; for the database the equality holds up to the order of the tags.
- TaskRepoLemmas.AddThenRemoveTag: the task comes back with its tags in the same order for the same reason; for the database it holds up to the order of the tags.
- Soft deletion: a deleted row is simply absent; the `deleted_at` column is not modelled.
- `GetAll` and the service calls that only forward to the repository (`GetAllTasks`, `GetTaskByID`, `DeleteTask`, `GetTasksByStatus`, `SearchTasks`, `GetTodayTasks`, `GetOverdueTasks`, `ArchiveTask`, `UnarchiveTask`, `GetTasksByPriority`, `AddTag`, `RemoveTag`, `GetTasksByTag`, `BulkDelete`, `BulkUpdateStatus`, `Stats`): forwarding adds nothing, so the repository members stand for them.
- JWT parsing, signature and expiry checks, and the key function: a parameter `verify`; algorithm pinning and a required `sub` are not part of the code.
- Password hashing, registration and login, the HTTP handlers, the router and the rate limiter: outside the task core (the rate limiter's implementation is not part of this model).
- Opening the connection, pool configuration, ping, migration and the once-only client: the driver is the parameter `open` of `DbConfig.CreateConnection`.
- Redis cache client: outside the task core.
