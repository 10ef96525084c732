# Task tracker core: validation, repository and form action

A Dafny model of the part of a small Remix/React Router task tracker that has
behaviour of its own. It covers three pieces.

- **The creation validator** `taskCreateSchema` (module `TaskSchema`). Each raw
  form value is coerced: a non-string becomes `''` and a string is trimmed the
  way ECMAScript's `String.prototype.trim` trims it. The title must then be
  non-empty. An empty description becomes absent. `SafeParse` returns the
  payload or the list of Zod issues.
- **The SQLite repository** `sqliteTaskRepository` (module `TasksRepository`).
  The `tasks` table is the field `tasks: seq<Row>` of the class
  `SqliteTaskRepository`.
  - `Create` inserts one row. That row has the supplied fresh id, status
    `'todo'`, priority `'medium'`, NULL for a missing description, and one
    clock value for both timestamps.
  - `ListAll` maps every row to a `Task`, newest first.
  - The row-to-Task mapping is shared by both.
- **The route's server functions** (module `TasksRoute`).
  - `Loader` passes `listAll` through.
  - `Action` validates the two form fields. On failure it folds the issues
    into a `fieldErrors` record with the source's `for` loop
    (`CollectFieldErrors`) and leaves the table alone. On success it calls
    `Create` once.

`TaskTypes` holds the `Task` record and the status and priority enumerations
with their stored texts.

Where the model stands in for the environment:
- `crypto.randomUUID()` is the `id` parameter of `Create` and `Action`. The
  parameter must not be in use yet.
- SQLite's `CURRENT_TIMESTAMP` is the `now` parameter.
- `request.formData()` is the `FormData` parameter. It holds what
  `formData.get` returned for each field: `Str(s)`, or `NonString` for `null`
  or a `File`.

Notes on the source:
- `app/routes/tasks.tsx:11` and `app/core/tasks/tasks.port.ts:4` import
  `taskSchema`, but `app/core/tasks/task.schema.ts` exports no `taskSchema`:
  it exports the schema `taskCreateSchema` and the type `TaskCreateInput`. The model takes `taskCreateSchema` to be the schema
  both refer to. It also takes the port's `TaskInput` to be its payload,
  `TaskCreateInput`.
- The validator has no length limit on the description, so none is modelled.
- The table has no CHECK constraints on `status` and `priority`. The model
  stores them as text. The invariant `ValidTable`, kept by `Create`, is what
  makes the unchecked `as` casts of the mapping sound.
- `createdAt` is declared as `Date` in `tasks.types.ts`, but the column is
  text (`schema.ts:21`). The model orders timestamps as integers. This matches
  the order of the fixed-width `'YYYY-MM-DD HH:MM:SS'` text.

## Model

| member | source | states |
|---|---|---|
| `TaskTypes.ParseStatus` | app/infra/tasks/tasks.repository.sqlite.ts:16 | reading a valid status text back as a status gives the status stored as exactly that text |
| `TaskTypes.ParsePriority` | app/infra/tasks/tasks.repository.sqlite.ts:17 | reading a valid priority text back as a priority gives the priority stored as exactly that text |
| `TaskTypes.StatusTextRoundTrip` | app/core/tasks/tasks.types.ts:2 | each of `todo`, `in-progress` and `done` is stored as a text the cast accepts, and reads back as itself |
| `TaskTypes.PriorityTextRoundTrip` | app/core/tasks/tasks.types.ts:3 | each of `low`, `medium` and `high` is stored as a text the cast accepts, and reads back as itself |
| `TaskSchema.TrimStart` | app/core/tasks/task.schema.ts:6 | the result is a suffix of the input, what it drops is all whitespace, and it does not start with whitespace |
| `TaskSchema.TrimEnd` | app/core/tasks/task.schema.ts:6 | the result is a prefix of the input, what it drops is all whitespace, and it does not end with whitespace |
| `TaskSchema.Trim` | app/core/tasks/task.schema.ts:6 | `v.trim()` has no whitespace at either end and is no longer than `v` |
| `TaskSchema.TrimIsInfix` | app/core/tasks/task.schema.ts:6 | `v.trim()` is a slice `v[i..j]` of `v` with only whitespace before `i` and from `j` on |
| `TaskSchema.TrimOfPadded` | app/core/tasks/task.schema.ts:6 | a trimmed string padded with whitespace on both sides trims back to itself, so trim is determined by the shape above |
| `TaskSchema.TrimIdempotent` | app/core/tasks/task.schema.ts:6 | trimming twice is trimming once |
| `TaskSchema.TrimEmptyIffAllWhitespace` | app/core/tasks/task.schema.ts:6-7 | a value trims to `''` exactly when it is whitespace only |
| `TaskSchema.Coerce` | app/core/tasks/task.schema.ts:5-11 | the preprocess step gives a string with no surrounding whitespace, no longer than a string input |
| `TaskSchema.SafeParse` | app/core/tasks/task.schema.ts:3-17 | a failure carries the single issue at path `['title']` with message `'El título es obligatorio'`, so the description never produces one; a success has a non-empty trimmed title and a description that is absent or non-empty and trimmed, never `''` |
| `TaskSchema.SafeParseFailsIffBlankTitle` | app/core/tasks/task.schema.ts:5-8 | validation fails exactly when the title is not a string (absent field, `null`, file) or is whitespace only, whatever the description |
| `TaskSchema.SafeParseTitle` | app/core/tasks/task.schema.ts:6-15 | on success the raw title was a string and the payload title is its trim |
| `TaskSchema.SafeParseDescription` | app/core/tasks/task.schema.ts:9-16 | on success the description is absent exactly when the raw one is not a string or is whitespace only; otherwise it is the trimmed raw description, with no length cap |
| `TaskSchema.SafeParseIdempotent` | app/core/tasks/task.schema.ts:6-16 | resubmitting a validated payload (an absent description as a missing field) validates to the same payload |
| `TasksRepository.NewRow` | app/infra/tasks/tasks.repository.sqlite.ts:26-34 | the row `create` inserts has status and priority texts inside the enumerations, although the table does not enforce them |
| `TasksRepository.ToTaskRoundTrip` | app/infra/tasks/tasks.repository.sqlite.ts:12-20 | the row-to-Task mapping `ToTask`, shared by `listAll` (lines 12-20) and `create` (lines 38-46), loses nothing: it is inverted by the row layout of a Task on well-formed rows, and NULL description maps to absent |
| `TasksRepository.CreatedTask` | app/infra/tasks/tasks.repository.sqlite.ts:24-46 | the created Task has the fresh id, the input title and description (absent stays absent), status `todo`, priority `medium` whatever the input, and `createdAt == updatedAt == now` |
| `TasksRepository.MapRows` | app/infra/tasks/tasks.repository.sqlite.ts:12-20 | `rows.map(...)` gives one Task per row, the i-th being the i-th row mapped |
| `TasksRepository.InsertNewestFirst` | app/infra/tasks/tasks.repository.sqlite.ts:10 | inserting into a newest-first list keeps it newest first and adds exactly the one task |
| `TasksRepository.SortNewestFirst` | app/infra/tasks/tasks.repository.sqlite.ts:10 | `ORDER BY created_at DESC` yields a permutation of the rows, ordered non-increasing by `createdAt` |
| `TasksRepository.LaterComesFirst` | app/infra/tasks/tasks.repository.sqlite.ts:10 | in the listing, a task created strictly later comes strictly earlier |
| `TasksRepository.InsertKeepsValid` | app/infra/tasks/tasks.repository.sqlite.ts:24-36 | inserting a row with an unused id keeps ids unique (the primary key), keeps statuses and priorities valid and `createdAt <= updatedAt`, adds exactly that id, and lists the new Task |
| `TasksRepository.ListedAfterInsert` | app/infra/tasks/tasks.repository.sqlite.ts:12-46 | the Task `create` returns equals its entry in the next `listAll` |
| `TasksRepository.ListingGrows` | app/infra/tasks/tasks.repository.sqlite.ts:9-47 | appending rows never drops a Task from `listAll`, so a created Task equals its entry in every later listing, not just the next |
| `TasksRepository.SqliteTaskRepository.constructor` | app/infra/db/schema.ts:5-28 | a fresh `tasks` table is empty and valid |
| `TasksRepository.SqliteTaskRepository.ListAll` | app/infra/tasks/tasks.repository.sqlite.ts:9-21 | `listAll` returns one mapped Task per row (the same multiset), newest first, and `[]` for an empty table |
| `TasksRepository.SqliteTaskRepository.Create` | app/infra/tasks/tasks.repository.sqlite.ts:23-47 | `create` appends exactly one row, the one built from the input, the fresh id and one clock value, leaving every earlier row unchanged; the ids grow by the fresh one; it returns that row mapped, which `listAll` now lists, and every Task listed before is still listed |
| `TasksRoute.CollectFieldErrors` | app/routes/tasks.tsx:33-40 | `fieldErrors` has a key exactly for each string first path element of some issue (the `typeof path === 'string'` test of lines 36-37, defined by `FieldOf`), holding the message of the last issue with that key |
| `TasksRoute.ReportsIsFunctional` | app/routes/tasks.tsx:35-40 | the issues determine the `fieldErrors` record uniquely |
| `TasksRoute.TitleOnlyFieldErrors` | app/routes/tasks.tsx:27-42 | with this validator, a failing submission's `fieldErrors` is exactly `{ title: 'El título es obligatorio' }` |
| `TasksRoute.InsertKeepsTitles` | app/routes/tasks.tsx:45 | creating a validated payload keeps every stored title non-empty and free of surrounding whitespace |
| `TasksRoute.Loader` | app/routes/tasks.tsx:19-22 | `loader` returns exactly the sequence `listAll` produced, newest first, one per row |
| `TasksRoute.Action` | app/routes/tasks.tsx:24-48 | on a failed validation returns `success: false` with `{ title: … }` and leaves the table as it was (no `create`); on success adds exactly the validated payload's row (one `create`) and returns `success: true`; keeps the table valid and every stored title non-empty and trimmed |

## Left out

- The React component `TasksPage` (`app/routes/tasks.tsx:50-129`) is rendering only.
- Opening the database (`app/infra/db/client.sqlite.ts`) is I/O on a path taken from the environment.
- `drizzle.config.ts` is migration configuration and has no behaviour.
- `app/infra/tasks/tasks.repository.ts` only chooses the SQLite backend. The model passes the repository object in directly.
- The `TaskRepository` interface (`app/core/tasks/tasks.port.ts:9-12`) has one implementation, so the class implements its two operations directly.
- `Promise` and `await` are not modelled. Concurrent requests are not modelled either: each call is one sequential step.
- Failures of the storage medium are not modelled. These are an unreachable database, a failed write, and a duplicate primary key.
- `TasksRepository.SqliteTaskRepository.Create` requires an unused `id`. It stands in for `crypto.randomUUID()`, so the UNIQUE-constraint error on a repeated UUID is not modelled.
- `TasksRepository.SqliteTaskRepository.ListAll` fixes one order for tasks with equal `created_at`: table order. SQLite promises no particular order for ties. `CURRENT_TIMESTAMP` has one-second resolution, so two tasks created in the same second can be listed either way. Only strictly later tasks are proved to come first.
- `CURRENT_TIMESTAMP` is a parameter. The model does not assume the clock only moves forward.
- The model's strings are sequences of Unicode scalar values, while JavaScript strings are UTF-16. Unpaired surrogates cannot be represented. `min(1)` counts UTF-16 code units, but that gives the same empty/non-empty verdict.
- `TasksRoute.CollectFieldErrors` treats every string key as an ordinary key. In JavaScript, assigning a string to the key `__proto__` of a plain object adds no entry. No issue of this validator has that path.
- The `Task` type allows `description: null`. The mapping never produces it, so the model has only absent or a string.
