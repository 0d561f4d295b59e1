# Tek_innov8ers project/task tracker, modelled in Dafny

This project models the core of a small project and task tracker built with
Next.js. It has four parts:

- **The domain service** (`lib/services.ts`). Projects belong to users, tasks
  belong to projects, and every task carries a status from a seeded catalog.
  The model is a `Store` class that holds the project and task tables as
  sequences, in storage order, plus an integer clock that stands for
  `new Date()`.
  - The reads are functions over that state: list, search, fetch one
    project with its tasks, and list the statuses.
  - The writes are methods that change the tables step by step. They
    create, partially update and delete projects and tasks. After every
    task write, the parent project's `updatedAt` is set to the present
    time.
- **The access gate** (`middleware.ts`). It is a pure function that takes
  the pathname and the session cookie, and decides whether the request
  passes, is sent to sign-in with a callback URL, or is sent home. The
  `config.matcher` pattern is modelled as the pre-filter that decides which
  requests reach the gate at all.
- **`removeUndefinedProperties`** (`lib/utils.ts`). It is modelled over an
  ordered list of entries whose values are `undefined`, `null` or a value,
  which is what `Object.entries` yields.
- **The create-task dialog** (`components/create-task-dialog.tsx`). This
  covers two things:
  - the rule that picks the initially selected status;
  - the `open`/`isLoading`/`status` state changes of `handleSubmit`, as a
    class.

Files:

| file | contents |
|---|---|
| `wrappers.dfy` | `Option` and `Result` |
| `seqs.dfy` | generic sequence operations, with their lemmas: filter, find-first, key lookup, key uniqueness, stable insertion sort |
| `utils.dfy` | JavaScript property values and `removeUndefinedProperties` |
| `services.dfy` | the entities, the table invariant, the queries and the `Store` class |
| `middleware.dfy` | the gate and the matcher |
| `create_task_dialog.dfy` | the default-status rule and the dialog state |

The store keeps `Store.Valid()` as an invariant. It has three parts:

- ids are unique in every table;
- every foreign key resolves: a project's user, a task's project and a
  task's status;
- `createdAt <= updatedAt <= clock` on every row.

Every write method requires the invariant and re-establishes it. Each
Prisma failure is a `Failure` result, and then the tables are left
unchanged:

| failure | when |
|---|---|
| `RecordNotFound` | `update`/`delete` of a missing row |
| `ForeignKeyViolation` | a dangling reference |
| `UniqueViolation` | a duplicate id |
| `TaskNotFound` | the `Error('Task not found')` thrown by `deleteTask` |

## Model

| member | source | states |
|---|---|---|
| Services.Store.GetAllProjects | lib/services.ts:101-118 | the rows are exactly the caller's projects, never another user's; each carries the number of tasks whose `projectId` is its id; `updatedAt` does not increase along the list; there is one row per owned project |
| Services.Store.SearchProjects | lib/services.ts:43-56 | the rows are exactly the caller's projects whose title contains the query, each with its task count, one row per matching project |
| Services.Store.SearchWithEmptyQuery | lib/services.ts:43-56 | with the empty query, the search returns the same rows as `getAllProjects`, up to order |
| Services.Store.GetAllTaskStatuses | lib/services.ts:94-98 | the result is a permutation of the catalog, sorted by `sortOrder` ascending |
| Services.Store.GetProjectById | lib/services.ts:121-137 | gives `None` exactly for an unknown id; otherwise gives that project, whose tasks are exactly the tasks with that `projectId`, each paired with the status its `statusId` names, ordered by status `sortOrder` ascending and then `createdAt` descending |
| Services.Store.CreateProject | lib/services.ts:140-149 | fails on a duplicate id or an unknown user and leaves the table unchanged; otherwise appends the row, stamped with the present time for both timestamps, and keeps the invariant |
| Services.Store.UpdateProject | lib/services.ts:151-167 | fails with `RecordNotFound` on an unknown id and changes nothing; otherwise the row becomes the patched project with `updatedAt` equal to now, and no other project's lookup changes |
| Services.Store.DeleteProject | lib/services.ts:169-173 | fails with `RecordNotFound` on an unknown id; otherwise the project row goes, its tasks go with it, and every other row stays |
| Services.Store.CreateTask | lib/services.ts:175-193 | fails on a duplicate id or a dangling project or status and changes nothing; otherwise appends the task with its status joined, sets the parent's `updatedAt` to now (so it does not decrease), and leaves every other project unchanged |
| Services.Store.UpdateTask | lib/services.ts:195-219 | fails on an unknown task or an unknown new status and changes nothing; otherwise writes the patched row with its status joined, and touches the parent named by the updated row; other projects are unchanged |
| Services.Store.DeleteTask | lib/services.ts:221-241 | an unknown id fails with `TaskNotFound` and leaves both tables unchanged; otherwise the row is removed and the parent, read before the delete, is touched to now; other projects are unchanged |
| Services.ProjectUpdateIsPartial | lib/services.ts:151-167 | the update writes `title`/`description` exactly where the patch defines them, keeps them elsewhere, stamps `updatedAt` even for an empty patch, and changes nothing else in the row |
| Services.TaskUpdateIsPartial | lib/services.ts:195-210 | likewise for `title`, `description` and `statusId` of a task, keeping `id`, `createdAt` and `projectId` |
| Services.ApplyProjectData | lib/services.ts:161-164 | the `{ ...data }` spread into a project row; `ProjectUpdateIsPartial` states its effect |
| Services.ApplyTaskData | lib/services.ts:205-208 | the spread into a task row; `TaskUpdateIsPartial` states its effect |
| Services.OwnedProjects | lib/services.ts:103 | `where: { userId }`, the caller's rows; see `Store.GetAllProjects` |
| Services.MatchingProjects | lib/services.ts:44-48 | `where: { userId, title: { contains } }`; see `Store.SearchProjects` |
| Services.TasksOf | lib/services.ts:112-114 | the rows of the `tasks` relation of one project |
| Services.TaskCount | lib/services.ts:112-114 | `_count.tasks`; `TaskCountCountsRows` states what it counts |
| Services.NewerOrSame | lib/services.ts:104 | `orderBy: { updatedAt: "desc" }` as a comparison; see `OrdersArePreorders` |
| Services.SortOrderAsc | lib/services.ts:96 | `orderBy: { sortOrder: "asc" }` as a comparison |
| Services.StatusThenNewest | lib/services.ts:129-132 | status `sortOrder` ascending, then `createdAt` descending |
| Services.JoinStatuses | lib/services.ts:124-128 | `include: { status: true }` on every task; one joined row per task, `JoinStatusesMembers` states which |
| Services.ProjectPatchEntries | lib/services.ts:157 | the `updateProject` argument as entries: every patchable field, in declaration order, an absent one as an `undefined` entry; the undefined entries write nothing in the spread, so the result matches the caller's object once `removeUndefinedProperties` has run (`ProjectDataSkipsUndefined`) |
| Services.TaskPatchEntries | lib/services.ts:201 | the `updateTask` argument as entries, in the same form: every patchable field, in declaration order, an absent one as an `undefined` entry |
| Services.SetProjectColumn | lib/services.ts:161-164 | one entry of the spread written into a project row |
| Services.SetTaskColumn | lib/services.ts:205-208 | one entry of the spread written into a task row |
| Services.ReplaceProject | lib/services.ts:159-165 | `project.update` by id, as `Seqs.ReplaceByKey`; see `ReplaceByKeyLookup` |
| Services.ReplaceTask | lib/services.ts:203-210 | `task.update` by id, as `Seqs.ReplaceByKey` |
| Services.TouchProject | lib/services.ts:187-190 | the touch step: the parent's `updatedAt` becomes the present time; see `TouchProjectLookup` |
| Services.RemoveProject | lib/services.ts:170-172 | `project.delete` by id; see `DeleteProjectKeepsValid` |
| Services.RemoveTasksOf | lib/services.ts:169-173 | the cascade of a project delete: that project's tasks go |
| Services.RemoveTask | lib/services.ts:232-234 | `task.delete` by id |
| Services.WithTaskCounts | lib/services.ts:112-114 | the `_count: { select: { tasks: true } }` annotation: one row per project, in order; `WithTaskCountsMembers` states which |
| Services.ProjectById | lib/services.ts:122-123 | `project.findUnique({ where: { id } })`, a lookup by primary key through `Seqs.FindByKey` |
| Services.TaskById | lib/services.ts:223-226 | `task.findUnique({ where: { id: taskId } })`, the lookup step of `deleteTask` |
| Services.Contains | lib/services.ts:47 | `title: { contains: searchQuery }` as substring containment; every title contains `""` (`ContainsEmpty`) |
| Services.ContainsEmpty | lib/services.ts:47 | every title contains the empty query |
| Services.Store.Tick | lib/services.ts:155 | time between operations: `new Date()` never goes backwards, and the invariant survives |
| Services.ProjectDataSkipsUndefined | lib/services.ts:157-164 | spreading the filtered patch into the row equals spreading the unfiltered patch while skipping `undefined` values |
| Services.TaskDataSkipsUndefined | lib/services.ts:201-208 | the same for a task row |
| Services.TaskCountCountsRows | lib/services.ts:112-114 | `_count.tasks` equals the number of task rows whose `projectId` is the project's id, counted one row at a time |
| Services.WithTaskCountsMembers | lib/services.ts:50-54 | annotation keeps exactly the given projects, each paired with its own task count |
| Services.JoinStatusesMembers | lib/services.ts:124-128 | with unique status ids, the joined rows are exactly the tasks, each paired with the status its `statusId` names |
| Services.JoinStatus | lib/services.ts:183 | the joined status is a catalog row whose id is the task's `statusId` |
| Services.OrdersArePreorders | lib/services.ts:94-132 | the three `orderBy` clauses are total preorders, so sorting by them is defined |
| Services.TouchProjectLookup | lib/services.ts:187-190 | a touch sets the parent's `updatedAt` and leaves every other lookup unchanged |
| Seqs.ReplaceByKeyLookup | lib/services.ts:159-210 | an update by primary key changes the lookup of that key only, to the new row; every other key, and every missing key, looks up as before |
| Seqs.ReplaceByKey | lib/services.ts:159-210 | an update by primary key keeps the length of the table and the key at every position |
| Services.TouchKeepsValid | lib/services.ts:187-190 | touching a project keeps the table invariant |
| Services.ReplaceProjectKeepsValid | lib/services.ts:159-165 | a project update keeps the invariant |
| Services.ReplaceTaskKeepsValid | lib/services.ts:203-210 | a task update, when its status exists, keeps the invariant |
| Services.CreateProjectKeepsValid | lib/services.ts:145-147 | inserting a fresh, owned, stamped project keeps the invariant |
| Services.CreateTaskKeepsValid | lib/services.ts:181-184 | inserting a fresh task with resolving references keeps the invariant |
| Services.DeleteTaskKeepsValid | lib/services.ts:232-234 | deleting a task keeps the invariant |
| Services.DeleteProjectKeepsValid | lib/services.ts:169-173 | deleting a project together with its tasks keeps the invariant, and no task refers to it afterwards |
| Utils.RemoveUndefinedProperties | lib/utils.ts:9-13 | an entry is in the result exactly when it is in the input and its value is not `undefined` |
| Utils.IsDefined | lib/utils.ts:11 | the filter callback `([, v]) => v !== undefined` |
| Utils.NullKept | lib/utils.ts:11 | `null`-valued entries are kept |
| Utils.RemoveUndefinedIsObject | lib/utils.ts:9-13 | the result has no key twice, and its keys are among the input's |
| Utils.RemoveUndefinedIdempotent | lib/utils.ts:9-13 | applying it twice equals applying it once |
| Utils.RemoveUndefinedPreservesReads | lib/utils.ts:9-13 | every property reads the same value before and after; the result has a property exactly when the input's value there is defined |
| Middleware.Gate | middleware.ts:4-29 | `middleware` itself: its three outcomes are characterised by `GateDecisionTable` and the lemmas below |
| Middleware.IsPublicRoute | middleware.ts:11-14 | `publicRoutes.some(route => pathname.startsWith(route))` over the three prefixes; see `PublicNeverSentToSignIn` |
| Middleware.HasSession | middleware.ts:8-17 | truthiness of the cookie value: an absent cookie and `""` are both falsy; see `OnlyPresenceMatters` |
| Middleware.IsAuthPage | middleware.ts:24 | exact equality with `/sign-in` or `/sign-up`; see `AuthenticatedOnAuthPageSentHome` |
| Middleware.Target | middleware.ts:18-25 | the redirect destinations `new URL("/sign-in", …)` and `new URL("/", …)`; used by `NoRedirectLoop` |
| Middleware.MatcherSelects | middleware.ts:31-40 | the `config.matcher` pattern: `/` followed by a remainder that none of the three alternatives matches at its start (see `ExcludedPathsPass`) |
| Middleware.Handle | middleware.ts:31-40 | the gate runs only on requests the matcher selects; others pass untouched (see `ExcludedPathsPass`, `HomeWithoutSessionIsGated`) |
| Middleware.GateDecisionTable | middleware.ts:4-29 | the gate passes exactly when the route is public or there is a session, except for an authenticated request for `/sign-in` or `/sign-up`; it sends to sign-in, with the pathname as callback, exactly when the route is not public and there is no session; it sends home exactly for an authenticated request for an auth page |
| Middleware.PublicNeverSentToSignIn | middleware.ts:11-17 | a pathname starting with `/sign-in`, `/sign-up` or `/api/auth` is never sent to sign-in |
| Middleware.UnauthenticatedSentToSignIn | middleware.ts:8-21 | without a cookie, or with an empty one, a non-public pathname is sent to sign-in with itself as `callbackUrl` |
| Middleware.AuthenticatedOnAuthPageSentHome | middleware.ts:24-26 | with a session, the gate sends home exactly for `/sign-in` and `/sign-up` |
| Middleware.AuthenticatedOtherwisePasses | middleware.ts:24-28 | with a session, every other pathname passes |
| Middleware.SignInPrefixVariantPasses | middleware.ts:14-24 | `/sign-in/x` passes both with and without a session |
| Middleware.OnlyPresenceMatters | middleware.ts:17-24 | the decision depends on whether the session token is truthy, not on its value |
| Middleware.NoRedirectLoop | middleware.ts:11-40 | the target of either redirect is selected by the matcher, and following the redirect with the same cookie passes |
| Middleware.PublicPrefixIsNotSegmentAware | middleware.ts:14 | `/sign-inbox` counts as public |
| Middleware.ExcludedPathsPass | middleware.ts:31-40 | a path whose remainder after `/` begins with `_next/static`, `_next/image` or `favicon.ico` never reaches the gate |
| Middleware.FaviconDotIsWildcard | middleware.ts:39 | the `.` of `favicon.ico` matches any character: every remainder beginning with `favicon`, one character and `ico` never reaches the gate |
| Middleware.HomeWithoutSessionIsGated | middleware.ts:17-39 | `/` does reach the gate, and without a session it is sent to sign-in |
| CreateTaskDialog.DefaultStatusId | components/create-task-dialog.tsx:35-36 | `defaultStatus?.id || taskStatuses[0]?.id || ""`, characterised by the five lemmas below |
| CreateTaskDialog.NamedIncomplete | components/create-task-dialog.tsx:35 | the `find` test `s.name === "Incomplete"` |
| CreateTaskDialog.OrElse | components/create-task-dialog.tsx:36 | `a || b` on an optional string: `undefined` and `""` fall through; see `EmptyIncompleteIdFallsThrough` |
| Seqs.Find | components/create-task-dialog.tsx:35 | `Array.prototype.find`: the result is an element satisfying the predicate, and `None` exactly when none does |
| Seqs.FindIsFirst | components/create-task-dialog.tsx:35 | the element found is the first, in list order, that satisfies the predicate |
| CreateTaskDialog.DefaultIsFirstIncomplete | components/create-task-dialog.tsx:35-36 | the first status named "Incomplete", in list order, is selected when its id is non-empty |
| CreateTaskDialog.DefaultWithoutIncompleteIsFirst | components/create-task-dialog.tsx:36 | with no "Incomplete" status, the first status is selected |
| CreateTaskDialog.DefaultOfEmptyCatalog | components/create-task-dialog.tsx:36 | with no statuses, the selection is `""` |
| CreateTaskDialog.EmptyIncompleteIdFallsThrough | components/create-task-dialog.tsx:36 | an "Incomplete" status with an empty id falls through to the first status |
| CreateTaskDialog.DefaultIsListedOrEmpty | components/create-task-dialog.tsx:35-36 | the default is `""` or the id of a listed status |
| CreateTaskDialog.Dialog.constructor | components/create-task-dialog.tsx:33-36 | the dialog starts closed and idle, with the default status selected |
| CreateTaskDialog.Dialog.SetOpen | components/create-task-dialog.tsx:58 | `onOpenChange` sets `open` and nothing else |
| CreateTaskDialog.Dialog.SetStatus | components/create-task-dialog.tsx:100 | choosing a status sets the selection and nothing else |
| CreateTaskDialog.Dialog.HandleSubmit | components/create-task-dialog.tsx:38-55 | the submitted form carries the dialog's `projectId` and the status selected at submission; on success the dialog closes and the selection resets to the default; on failure both are kept; `isLoading` is false afterwards |
| Seqs.Filter | lib/utils.ts:11 | the result keeps exactly the elements that satisfy the predicate, and is no longer than its input; `FilterMultiplicity` states the occurrences |
| Seqs.FilterMultiplicity | lib/utils.ts:11 | each element occurs in the result as often as in the input when it satisfies the predicate, and not at all otherwise |
| Seqs.SortBySorted | lib/services.ts:94-132 | sorting by a total preorder yields a sorted sequence |
| Seqs.SortBy | lib/services.ts:94-132 | sorting yields a permutation of its input |
| Seqs.FindByKey | lib/services.ts:122-123 | `findUnique` yields a row with the key, and yields `None` exactly when no row has it |
| Seqs.FilterPreservesDistinct | lib/utils.ts:11 | filtering keeps keys unique |

## Left out

- Prisma, SQLite and the network are replaced by the in-memory tables.
  Every `await` is a plain sequential step.
- Atomicity and concurrency are not modelled. Each task write and the
  touch of its parent are two steps of one method, and no other caller
  interleaves between them.
- Each operation reads the clock once, so instants that the source takes
  separately are merged into one:
  - `createTask`: the task row's timestamps come from the schema defaults
    inside `task.create` (lib/services.ts:181-184); the parent touch reads
    `new Date()` again (lib/services.ts:189).
  - `updateTask`: `now` is read at lib/services.ts:199 and copied into the
    task row at line 207; the parent touch reads `new Date()` again at
    line 215.
  - `createProject` (schema defaults), `updateProject` (line 155) and
    `deleteTask` (line 239) take a single instant, as in the model.

  `Store.Tick` models time passing between operations.
- The ids of new rows (Prisma's generated default) are parameters of
  `CreateProject` and `CreateTask`. A duplicate id gives
  `UniqueViolation`.
- The users table is a read-only set of ids, used only as the target of
  `Project.userId`. The status catalog is read-only (it is seeded).
- Case sensitivity of Prisma's `contains` depends on the provider. It is
  modelled as case-sensitive substring containment.
- Seqs.Filter: its contract and `FilterMultiplicity` state which elements
  are kept and how often, but not that the kept elements stay in input
  order, which `Array.prototype.filter` also guarantees. No property of
  the model depends on that order.
- Prisma does not promise an order among rows whose sort keys tie. The
  model sorts stably (insertion sort) and states only sortedness and
  permutation.
- The order in which Prisma checks several failing conditions of one call
  is not documented. The two create methods check uniqueness first, then
  foreign keys. `UpdateTask` checks that the row exists (`RecordNotFound`)
  before it checks the new status's foreign key.
- `Services.Store.SearchProjects` promises no order, because the source
  has none; its contract states membership and the number of rows.
- The Prisma schema, including the `onDelete: Cascade` configuration, is
  not part of this model. `deleteProject` removing the project's tasks is
  taken as the cascade the application describes.
- The commented-out raw-SQL versions of `searchProjects`
  (lib/services.ts:6-40) are dead code.
- `cn` and `sanitizeHtml` in lib/utils.ts are thin wrappers over external
  libraries.
- The URL encoding of `callbackUrl` and the resolution of redirect URLs
  against the request URL are not modelled. A redirect is carried as its
  target pathname and callback.
- The three alternatives of the negative lookahead are matched only at
  the start of the path remainder, as the lookahead does. Regular-expression
  matching in general is not modelled.
- The JSX, `console.error`, `e.preventDefault()` and the `createTaskAction`
  server action are not modelled. The action's outcome is the
  `actionSucceeds` parameter of `HandleSubmit`. The title and description
  fields of the form are parameters.
- `CreateTaskDialog.Dialog.HandleSubmit`: user events during the awaited
  `createTaskAction` (create-task-dialog.tsx:47) are not modelled. The
  submit is one atomic step, so an `onOpenChange` or `onValueChange` that
  runs while the action is pending, and that changes `open` or `status`
  before a failure, is not captured.
- lib/auth.ts, app/page.tsx, components/edit-project-dialog.tsx and the
  seed scripts are not part of this model.
- Where the behaviour of the code differs from its documentation, the
  model follows the code:
  - `createTask` requires a `statusId` and applies no default;
  - no operation validates titles;
  - `getProjectById` makes no ownership check;
  - the task write and the parent touch are not transactional.
