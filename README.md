# Tasks API core in Dafny

A model of the core of a Laravel task-management application: authenticated
users create, show, update, delete, list and summarise their own tasks, and
administrators list, edit and delete user accounts. The model covers

- the two closed vocabularies `TaskStatus` (`pendiente`, `en progreso`,
  `completada`) and `TaskCategory` (nine values, `trabajo` … `tecnología`),
  their `label()` (first character capitalised) and `values()`;
- the `Task` record and its model hooks, which derive `is_urgent` on create
  and, when the due date or the status changed, on update;
- `TaskController`: the owner-scoped table of tasks (`store`, `show`,
  `update`, `destroy`), the listing query of `index` (search terms, status,
  category and urgency filters, urgent-first order) and the counts of
  `summary`;
- `TaskResource::toArray`, the eight-key projection in which a task leaves
  the API;
- `AdminUserController`: the user table (`getAllUsers`, `getUserById`,
  `editUser`, `deleteUser`), with the cascade that deletes a user's tasks.

The authenticated user is a `requester` parameter and the clock a `now`
parameter (seconds since the epoch); a due date is a day number whose
instant is 00:00 of that day. Request bodies are values of `TaskInput` /
`UserInput`, whose fields distinguish a missing key, an explicit `null`
and a value; the framework's `date`, `boolean` and `email` rules are
encoded in the field types (`RawDate`, `RawBool`, `RawEmail`). Responses
are `Reply` values: 200, 201, 404, or 422 with the set of failing fields.

Files: `wrappers.dfy` (Option), `text.dfy` (the string primitives the
controllers use: `strtolower`, `ucfirst`, blank test of `trim`,
`explode`/`implode`, `LIKE '%…%'`), `task_status.dfy`, `task_category.dfy`,
`http.dfy`, `task_model.dfy`, `task_resource.dfy`, `task_query.dfy`,
`task_summary.dfy`, `task_requests.dfy`, `task_controller.dfy`,
`admin_user_controller.dfy`.

Four behaviours of the code that a reader might not expect, all kept in
the model:

- the `is_urgent` listing filter applies whenever the parameter is filled,
  keeping tasks whose flag equals `(value == "true")`, so `is_urgent=false`
  lists only tasks that are not urgent;
- the search string is split on single spaces with `explode`, so two
  spaces in a row yield an empty term, which matches every task;
- `is_urgent` is recomputed on update only when the value of `due_date` or
  `status` actually changed; otherwise a client-supplied `is_urgent` is
  stored as sent, so a completed task can be stored as urgent;
- `editUser` checks `unique:users` against every user, the edited one
  included, so re-sending a user's own address is rejected.

Request bodies are modelled as the client sends them, read the way the
framework's default request normalisation leaves them: a blank string
arrives as `null`.

## Model

| member | source | states |
|---|---|---|
| `Text.Lower` | app/Http/Controllers/Api/TaskController.php:32 | lower-casing keeps the length, maps each character by ASCII case folding and leaves no capital |
| `Text.UcFirst` | app/Enums/TaskStatus.php:11-13 | `ucfirst` upper-cases the first character and keeps the rest and the length |
| `Text.LowerUndoesUcFirst` | resources/js/components/task-form.tsx:71-75 | lower-casing the `ucfirst` of a string without capitals gives the string back |
| `Text.ContainsSlice` | app/Http/Controllers/Api/TaskController.php:32 | `LIKE '%n%'` holds whenever `n` is a slice of the haystack |
| `Text.ContainsIsSlice` | app/Http/Controllers/Api/TaskController.php:32 | conversely, a match exhibits the position where `n` occurs |
| `Text.Explode` | app/Http/Controllers/Api/TaskController.php:25 | `explode(' ', s)` yields at least one piece, no piece holds a space, and joining the pieces with single spaces gives `s` |
| `Text.ExplodeJoin` | app/Http/Controllers/Api/TaskController.php:25 | `explode` undoes joining space-free pieces: the two are inverse |
| `TaskStatus.Status.Value` | app/Enums/TaskStatus.php:7-9 | each raw value is non-empty and has no capital letter |
| `TaskStatus.Status.Label` | app/Enums/TaskStatus.php:11-13 | the label capitalises only the first character of the raw value, and lower-casing it gives the raw value back |
| `TaskStatus.All` | app/Enums/TaskStatus.php:5-9 | `cases()` has exactly three entries |
| `TaskStatus.AllComplete` | app/Enums/TaskStatus.php:5-9 | every status is one of `cases()` |
| `TaskStatus.Values` | app/Enums/TaskStatus.php:15-17 | `values()` is the raw value of each case, in declaration order |
| `TaskStatus.ValuesDistinct` | app/Enums/TaskStatus.php:15-17 | `values()` has no duplicates |
| `TaskStatus.ValueInjective` | app/Enums/TaskStatus.php:7-9 | two statuses with the same raw value are the same status |
| `TaskStatus.FromValue` | app/Http/Controllers/Api/TaskController.php:90 | a string names a status exactly when it is one of `values()`, and then it names the status with that raw value |
| `TaskStatus.FromValueOfValue` | app/Enums/TaskStatus.php:5-9 | reading a status's raw value gives that status: raw value and case are a bijection |
| `TaskStatus.FromLoweredLabel` | resources/js/components/task-form.tsx:73 | the lower-cased label a form submits is accepted as the same status |
| `TaskCategory.Category.Value` | app/Enums/TaskCategory.php:7-15 | each raw value is non-empty and has no capital letter |
| `TaskCategory.Category.Label` | app/Enums/TaskCategory.php:17-19 | the label capitalises only the first character (`tecnología` gives `Tecnología`), and lower-casing it gives the raw value back |
| `TaskCategory.All` | app/Enums/TaskCategory.php:5-15 | `cases()` has exactly nine entries |
| `TaskCategory.AllComplete` | app/Enums/TaskCategory.php:5-15 | every category is one of `cases()` |
| `TaskCategory.AllDistinct` | app/Enums/TaskCategory.php:5-15 | no category is listed twice in `cases()` |
| `TaskCategory.Values` | app/Enums/TaskCategory.php:21-23 | `values()` is the raw value of each case, in declaration order |
| `TaskCategory.ValuesDistinct` | app/Enums/TaskCategory.php:21-23 | `values()` has no duplicates |
| `TaskCategory.ValueInjective` | app/Enums/TaskCategory.php:7-15 | two categories with the same raw value are the same category |
| `TaskCategory.FromValue` | app/Http/Controllers/Api/TaskController.php:92 | a string names a category exactly when it is one of `values()`, and then it names the category with that raw value |
| `TaskCategory.FromValueOfValue` | app/Enums/TaskCategory.php:5-15 | raw value and category are a bijection |
| `TaskCategory.FromLoweredLabel` | resources/js/components/task-form.tsx:74 | the lower-cased label a form submits is accepted as the same category |
| `Http.Reply.Code` | app/Http/Controllers/Api/TaskController.php:105-108 | each outcome has one status code; 404 and 422 correspond exactly to not-found and validation failure |
| `Http.FailuresByField` | app/Http/Controllers/Api/TaskController.php:86-93 | with distinct field names, validation reports a field exactly when that field's own rule fails, whatever the other fields hold |
| `TaskModel.Urgent` | app/Models/Task.php:34-36 | an urgent task has a due date and is not completed |
| `TaskModel.UrgentByDay` | app/Models/Task.php:23 | counted in days, a dated, uncompleted task is urgent exactly when its day is no later than the day of `now + 48h` |
| `TaskModel.UrgentLater` | app/Models/Task.php:34-36 | a flag true at the moment of the write would still be true if recomputed at any later moment |
| `TaskModel.NotUrgentGoesStale` | app/Models/Task.php:30-45 | for every uncompleted task with a due date, the rule turns from false to true as time passes, while the hooks recompute the flag only on a write: a stored `false` can go stale |
| `TaskModel.Creating` | app/Models/Task.php:40-44 | the creating hook sets the flag from the rule and changes nothing else |
| `TaskModel.Updating` | app/Models/Task.php:32-37 | the updating hook recomputes the flag from the new values exactly when due date or status changed, keeps the record otherwise, and changes nothing but the flag |
| `TaskModel.HooksClearCompletedAndUndated` | app/Models/Task.php:32-44 | whenever a hook computes the flag, a completed or undated task ends up not urgent |
| `TaskResource.ToArray` | app/Http/Resources/TaskResource.php:17-26 | exactly eight keys; `user_id` and `updated_at` absent; status and category as labels; the other six attributes copied |
| `TaskResource.Collection` | app/Http/Controllers/Api/TaskController.php:52 | the collection projects each task in order |
| `TaskResource.ToArrayForgetsOnlyOwnerAndUpdate` | app/Http/Resources/TaskResource.php:17-26 | two tasks have equal resources exactly when they agree on everything but owner and update time |
| `TaskQuery.Where` | app/Http/Controllers/Api/TaskController.php:37-45 | a `where` keeps exactly the tasks meeting its condition, each no more often than it was given |
| `TaskQuery.UrgencySplit` | app/Http/Controllers/Api/TaskController.php:47 | the urgent and the non-urgent tasks together are the original tasks: ordering by urgency neither loses nor duplicates a task |
| `TaskQuery.WhereAll` | app/Http/Controllers/Api/TaskController.php:24 | a condition every task meets keeps the sequence unchanged |
| `TaskQuery.QueryMembership` | app/Http/Controllers/Api/TaskController.php:24-49 | a task is listed exactly when it is one of the owner's tasks and meets every filled filter (the filters are conjunctive) |
| `TaskQuery.QueryPermutation` | app/Http/Controllers/Api/TaskController.php:47-49 | the listing is a permutation of the matching tasks |
| `TaskQuery.QueryUrgentFirst` | app/Http/Controllers/Api/TaskController.php:47 | no non-urgent task precedes an urgent one |
| `TaskQuery.QueryUnfiltered` | app/Http/Controllers/Api/TaskController.php:49 | with no parameter filled, every task of the owner is listed, each once |
| `TaskQuery.QueryUrgencyParameter` | app/Http/Controllers/Api/TaskController.php:43-45 | a filled `is_urgent` keeps the urgent tasks for `"true"` and only the non-urgent ones for any other value |
| `TaskQuery.QueryUnknownValue` | app/Http/Controllers/Api/TaskController.php:37-42 | a status or category that is no raw value of its enum lists nothing |
| `TaskQuery.EmptyTermMatches` | app/Http/Controllers/Api/TaskController.php:29-34 | an empty search term matches every task |
| `TaskQuery.SearchByTerms` | app/Http/Controllers/Api/TaskController.php:25-36 | a search made of space-separated terms keeps a task exactly when every term occurs, case-insensitively, in its title or non-null description, and the other filters hold |
| `TaskQuery.BlankSearchIgnored` | app/Http/Controllers/Api/TaskController.php:28 | a whitespace-only search applies no text filter |
| `TaskSummary.CategoryCounts` | app/Http/Controllers/Api/TaskController.php:190-194 | one entry per listed category, keyed by its raw value, holding its count |
| `TaskController.OwnedCounts` | app/Http/Controllers/Api/TaskController.php:184-193 | counting the owner's tasks that meet a condition gives the number of the owner's rows that meet it |
| `TaskSummary.StatusCountsAddUp` | app/Http/Controllers/Api/TaskController.php:184-187 | completed, in-progress and pending counts add up to the total |
| `TaskSummary.UrgentCountBounded` | app/Http/Controllers/Api/TaskController.php:188 | the urgent count does not exceed the total |
| `TaskSummary.CategoryTableComplete` | app/Http/Controllers/Api/TaskController.php:190-194 | the category table has nine entries, keyed by `values()` in order, zero counts included |
| `TaskSummary.CategoryCountsAddUp` | app/Http/Controllers/Api/TaskController.php:190-194 | the nine category counts add up to the total |
| `TaskRequests.StoreErrors` | app/Http/Controllers/Api/TaskController.php:86-93 | `store` rejects a missing, blank or over-255 title, a status or category outside its enum, a non-date due date and a non-boolean flag, and nothing else |
| `TaskRequests.NewTask` | app/Http/Controllers/Api/TaskController.php:96-103 | the inserted row holds the requester, the sent fields (a missing, null or blank description stored as null), both timestamps `now`, and the flag given by the urgency rule |
| `TaskRequests.StoreIgnoresClientFlag` | app/Http/Controllers/Api/TaskController.php:101 | the `is_urgent` a client sends to `store` has no effect on the row |
| `TaskRequests.UpdateErrors` | app/Http/Controllers/Api/TaskController.php:118-125 | every key may be missing and an empty body passes; an explicit null or a blank string fails its key; a title over 255 characters, a non-date, a non-boolean, or a status or category outside its enum fails; nothing else does |
| `TaskRequests.Saved` | app/Http/Controllers/Api/TaskController.php:136-143 | only supplied keys change; the flag is recomputed when due date or status changed and otherwise is the sent or stored flag; `updated_at` moves only when something changed |
| `TaskRequests.UnchangedInputsKeepFlag` | app/Models/Task.php:33 | re-sending the stored due date and status does not recompute the flag |
| `TaskRequests.ClientFlagCanOutliveRule` | app/Models/Task.php:32-37 | sending only `is_urgent: true` for a completed task stores a completed, urgent task |
| `TaskRequests.CreateUrgentThenComplete` | app/Models/Task.php:32-44 | a pending task due within a day is created urgent and is not urgent once completed |
| `TaskController.OwnedBelowContents` | app/Http/Controllers/Api/TaskController.php:24 | the owner scan lists exactly the owner's rows, each once, by ascending id |
| `TaskController.TaskStore.Owned` | app/Http/Controllers/Api/TaskController.php:24 | the requester's tasks are exactly the stored rows they own, each once |
| `TaskController.TaskStore.Listed` | app/Http/Controllers/Api/TaskController.php:16-49 | `index` lists only the requester's rows, exactly those matching the filters, as a permutation, urgent first; all of them when nothing is filled |
| `TaskController.TaskStore.Index` | app/Http/Controllers/Api/TaskController.php:51-54 | the response is 200 with each listed task as a resource, in order |
| `TaskController.TaskStore.Find` | app/Http/Controllers/Api/TaskController.php:65-67 | a row is found exactly when it exists and the requester owns it |
| `TaskController.TaskStore.Show` | app/Http/Controllers/Api/TaskController.php:62-76 | an owned row is shown as its resource; an absent or foreign row is 404 |
| `TaskController.TaskStore.Summary` | app/Http/Controllers/Api/TaskController.php:179-206 | the total is the number of the requester's rows; each status count, the urgent count and each of the nine category counts is the number of the requester's rows with that status, flag or category; the status and category counts add up to the total |
| `TaskController.TaskStore.Store` | app/Http/Controllers/Api/TaskController.php:84-108 | invalid requests write nothing and answer 422; valid ones insert the new row under a fresh id and answer 201 |
| `TaskController.TaskStore.Update` | app/Http/Controllers/Api/TaskController.php:116-148 | 422 before any lookup; 404 for absent or foreign rows with nothing changed; otherwise only that row is replaced by its saved version |
| `TaskController.TaskStore.Destroy` | app/Http/Controllers/Api/TaskController.php:156-171 | an owned row is removed and nothing else; otherwise 404 with nothing changed |
| `TaskController.TaskStore.DeleteOwnedBy` | database/migrations/2025_04_05_233954_create_tasks_table.php:22 | the cascade removes exactly the rows of the deleted owner |
| `TaskController.StoreThenShow` | tests/Feature/TaskApiTest.php:156-174 | a stored task is shown to its owner as created and is 404 to anyone else |
| `TaskController.DestroyTwice` | tests/Feature/TaskApiTest.php:124-142 | destroying an owned task succeeds once; the second destroy and a later show answer 404 |
| `AdminUserController.RoleFromValue` | app/Http/Controllers/Api/AdminUserController.php:55 | a role string is accepted exactly when it is `admin` or `user` |
| `AdminUserController.EditErrors` | app/Http/Controllers/Api/AdminUserController.php:52-56 | every key may be missing; a sent name passes exactly when it is non-blank and at most 255 characters, an email exactly when it is a non-blank address held by no user, a role exactly when it is `admin` or `user`; an explicit null fails |
| `AdminUserController.Edited` | app/Http/Controllers/Api/AdminUserController.php:67 | only the supplied name, email and role change; id and password are kept |
| `AdminUserController.OwnEmailRejected` | app/Http/Controllers/Api/AdminUserController.php:54 | re-sending the edited user's own address is rejected |
| `AdminUserController.UsersBelowContents` | app/Http/Controllers/Api/AdminUserController.php:15 | the user scan lists every user below the bound, each once, by ascending id |
| `AdminUserController.UserStore.AllUsers` | app/Http/Controllers/Api/AdminUserController.php:12-20 | every user is listed, each once |
| `AdminUserController.UserStore.UserById` | app/Http/Controllers/Api/AdminUserController.php:28-42 | the user is returned exactly when the id exists, otherwise 404 |
| `AdminUserController.UserStore.EditUser` | app/Http/Controllers/Api/AdminUserController.php:50-72 | 422 before any lookup; 404 for a missing id; otherwise only that user's supplied keys change, and emails stay unique |
| `AdminUserController.UserStore.DeleteUser` | app/Http/Controllers/Api/AdminUserController.php:80-95 | a missing id is 404 with nothing changed; otherwise the user and exactly their tasks are removed |

## Left out

- Authentication (token issuance, register, login, logout), the admin gate and routing are outside the controllers: the requester is a parameter, and admin actions are modelled as already admitted. The 401 and 403 answers are therefore not modelled.
- The `catch (\Exception)` paths answering 500, and the response message strings.
- The framework's request normalisation runs before the controllers. Inputs are taken as the client sends them. A blank string is read as the `null` normalisation makes of it. The trimming of non-blank strings is not modelled, so a title is measured and stored untrimmed.
- TaskRequests.UpdateErrors: a blank title, description, status or category fails as the `null` normalisation turns it into. Without that normalisation Laravel would skip the non-implicit rules for a blank value. A blank status or category would then fail later, when the enum cast rejects it. The model does not capture that path.
- The `date`, `boolean` and `email` rules are taken as given through the field types; the `string` rule's rejection of non-string JSON values is not modelled (fields carry strings or null).
- SQL `LIKE` wildcards (`%`, `_` in a term are not escaped) and Unicode case folding: matching is plain substring on ASCII-lower-cased strings.
- Wall clock, timezones and date parsing: `now` is seconds, a due date is a day number, and JSON dates are kept as those numbers.
- TaskController.TaskStore.Owned: `Auth::user()->tasks` has no `ORDER BY`, so the database decides the order of the rows; the ascending-id order this member ensures is the model's choice, not a promise of the source.
- AdminUserController.UserStore.AllUsers: `User::all()` has no `ORDER BY`, so the database decides the order of the users; the ascending-id order this member ensures is the model's choice, not a promise of the source.
- TaskController.TaskStore.Listed: the order among tasks of equal urgency, which the database decides, is fixed here to ascending id; the contract states only what the source promises (membership, permutation, urgent first).
- The second ownership test in `show`, `update` and `destroy` repeats the owner-scoped lookup and is folded into one guard (`Find`).
- The hooks of `Task` are modelled as functions on the record; the in-place write they feed is the replacement of the row in `TaskStore`'s map.
- `summary` counts categories by comparing each task's enum-cast category with a raw value; the model counts by category, which is what that comparison does when the framework compares a backed enum by its value.
- `UserResource` is not part of this model: `getAllUsers` and `getUserById` return the stored user rows, password hash included, so what the resource hides is not stated.
- Deleting a user does not model the revocation of that user's tokens, which belongs to the authentication layer.
- Registration is outside the model, so the user table is given at construction; that every task's owner is an existing user is not kept as an invariant.
- Concurrent requests: each action runs alone; last-write-wins is not modelled.
- Seeders and factories: fixture data only.
