# Task-list API: validated CRUD and auth over two tables

This project models the core of a small task-list REST API (Express over
SQLite) in Dafny. The API has two tables, `users` and `tasks`. Every task
belongs to one user. Every task read, update and delete by id is scoped to
the caller's own rows; `createTask` inserts for the caller and reads its new
row back by id alone. Three pieces are modelled:

- **Validation rules** (`validation.dfy`, module `Validation`). The four
  express-validator rule sets are written as data: a list of chains per
  endpoint, each chain a body field with its validators and their messages.
  Every validator runs, each failing one adds a violation, and
  `handleValidationErrors` either calls the next handler or answers 400 with
  the whole list.
- **Task handlers** (`tasks.dfy`, module `Tasks`). `getTasks` and
  `getTaskById` are functions over the table value. The WHERE clause is a
  list of conditions, `db.get` is "first matching row", and
  `ORDER BY createdAt DESC` is an insertion sort. `createTask`, `updateTask`
  and `deleteTask` are methods of the class `TaskTable`, which holds the rows
  and the AUTOINCREMENT counter. `updateTask` builds its SET list by pushing
  one assignment per supplied field, as the handler does.
- **Auth handlers** (`auth.dfy`, module `Auth`). `register` is a method of
  the class `UserTable`. `login` is a function of the table.

`schema.dfy` holds the row types and the key invariants of the two
`CREATE TABLE` statements. `common.dfy` holds the shared value types: a
request body field is `Absent` (undefined), `Null`, or `Str`.

Storage constraints are part of the model. A NULL title breaks
`title NOT NULL`. A status string other than "pending" or "completed" breaks
the CHECK constraint. Either one makes the statement fail with the handler's
500 error, and nothing is written. A JSON `null` status passes the CHECK
(SQL's CHECK accepts NULL), so `Task.status` is nullable. The model also
proves that a body accepted by the validation rules never triggers either
constraint.

Library and middleware collaborators are passed in as values:

- `Validation.Validators` holds `isEmail`, `isISO8601` and `normalizeEmail`.
- `Auth.Crypto` holds bcrypt's `hash` and `compare` and JWT `sign`. The salt
  bcrypt draws at random is a parameter of `hash`.
- The clock (`CURRENT_TIMESTAMP`) is a `Timestamp` parameter `now`.
- The caller id set by the auth middleware is a parameter `userId`.

## Model

| member | source | states |
|---|---|---|
| `Schema.ParseStatus` | src/database.js:40 | a text is accepted exactly when it is "pending" or "completed", and maps back to the same text |
| `Schema.StatusRoundTrip` | src/database.js:40 | parsing the text of a status gives that status back |
| `Tasks.TaskTable.constructor` | src/database.js:35-46 | the tasks table starts empty, with the first id 1 and the key invariants holding |
| `Auth.UserTable.constructor` | src/database.js:24-32 | the users table starts empty, with the first id 1, unique ids and unique emails |
| `Validation.RuleViolations` | src/middleware/validation.js:16-21 | a chain yields no violation exactly when every one of its validators passes; each violation names the chain's field; there are no more violations than validators |
| `Validation.AllViolations` | src/middleware/validation.js:16-33 | a rule set yields no violation exactly when every one of its chains yields none |
| `Validation.RuleViolationsReport` | src/middleware/validation.js:16-21 | every failing validator of a chain contributes a violation carrying the chain's field and that validator's `withMessage` text, and every violation comes from a failing validator |
| `Validation.AllViolationsReport` | src/middleware/validation.js:16-33 | a violation is in a rule set's list exactly when some chain of the set reports it |
| `Validation.HandleValidationErrors` | src/middleware/validation.js:4-13 | `next()` runs exactly when the violation list is empty; otherwise the response is 400 "Dados inválidos" carrying the whole list |
| `Validation.ValidateUserRegistration` | src/middleware/validation.js:16-33 | the request reaches `register` exactly when the name has at least 2 characters, the email passes `isEmail` and the password has at least 6 characters; otherwise the answer is 400 "Dados inválidos" with every violation of the three chains |
| `Validation.ValidateUserLogin` | src/middleware/validation.js:36-47 | the request reaches `login` exactly when the email passes `isEmail` and the password is not empty; otherwise 400 with every violation of the two chains |
| `Validation.ValidateTaskCreation` | src/middleware/validation.js:50-68 | the request reaches `createTask` exactly when the title has 1 to 255 characters, a description that is not undefined has at most 1000 and a due date that is not undefined passes `isISO8601`; otherwise 400 with every violation |
| `Validation.ValidateTaskUpdate` | src/middleware/validation.js:71-93 | the request reaches `updateTask` exactly when each field that is not undefined (null included, read as "") meets its rule: title 1..255, description at most 1000, status "pending" or "completed", due date ISO 8601; otherwise 400 with every violation |
| `Validation.SanitizeRegistration` | src/middleware/validation.js:22-25 | `normalizeEmail` rewrites the email field in place, and the name and password reach the handler untouched |
| `Validation.RegistrationAccepted` | src/middleware/validation.js:16-33 | the registration chains report no violation exactly when the name has at least 2 characters, the email passes `isEmail` and the password has at least 6 characters |
| `Validation.EmptyNameReportsBothRules` | src/middleware/validation.js:17-21 | an empty name is reported by both of its validators, first "Nome é obrigatório" and then the minimum-length message |
| `Validation.LoginAccepted` | src/middleware/validation.js:36-47 | the login chains report no violation exactly when the email passes `isEmail` and the password is not empty |
| `Validation.TaskCreationAccepted` | src/middleware/validation.js:50-68 | the creation chains report no violation exactly when the title has 1 to 255 characters, a present description has at most 1000, and a present due date passes `isISO8601` |
| `Validation.TaskUpdateAccepted` | src/middleware/validation.js:71-93 | the update chains report no violation exactly when each present field meets its rule: title 1..255, description at most 1000, status "pending" or "completed", due date ISO 8601 |
| `Validation.EmptyPatchPassesValidation` | src/middleware/validation.js:71-93 | an update body with no field passes validation, because every chain is optional |
| `Tasks.Select` | src/controllers/tasksController.js:8-15 | a SELECT returns every row that meets all conditions of the WHERE clause, as many times as it occurs, and no other row |
| `Tasks.First` | src/controllers/tasksController.js:36-38 | `db.get` finds a row exactly when some row matches, and the row it finds matches |
| `Tasks.ListFilter` | src/controllers/tasksController.js:8-15 | the WHERE clause of `getTasks` holds for a row exactly when the row is the caller's and, if the status query is "pending" or "completed", has that status |
| `Tasks.InsertNewestFirst` | src/controllers/tasksController.js:17 | inserting into a newest-first list keeps it newest first and adds exactly that row |
| `Tasks.SortNewestFirst` | src/controllers/tasksController.js:17 | `ORDER BY createdAt DESC` gives a permutation of its input with non-increasing createdAt |
| `Tasks.GetTasks` | src/controllers/tasksController.js:4-28 | the list holds exactly the caller's rows, narrowed to one status only for "pending" or "completed"; it is newest first; `total` is its length |
| `Tasks.UnknownStatusIgnored` | src/controllers/tasksController.js:12-15 | a status filter other than "pending" or "completed" gives the same answer as no filter |
| `Tasks.GetTasksSeesOnlyOwnRows` | src/controllers/tasksController.js:8-9 | the caller's list is the same when computed from the caller's own rows alone |
| `Tasks.GetTaskById` | src/controllers/tasksController.js:32-51 | the answer is a row exactly when one has that id and the caller's userId; otherwise it is 404 "Tarefa não encontrada" |
| `Tasks.GetTaskByIdSeesOnlyOwnRows` | src/controllers/tasksController.js:36-46 | the answer is the same when computed from the caller's own rows alone, so another user's task is indistinguishable from a missing one |
| `Tasks.OrNull` | src/controllers/tasksController.js:61 | the `or null` fallback stores a string only when it is present and not empty |
| `Tasks.Patched` | src/controllers/tasksController.js:109-133 | the UPDATE succeeds exactly when the patch meets the storage constraints; otherwise it fails with "Erro ao atualizar tarefa" |
| `Tasks.PatchedChangesOnlySupplied` | src/controllers/tasksController.js:109-133 | a patch sets each supplied field (an explicit null included) and updatedAt; id, owner, createdAt and every field left out stay as they were |
| `Tasks.AssignmentsPatch` | src/controllers/tasksController.js:106-133 | the SET list pushed field by field, followed by `updatedAt = CURRENT_TIMESTAMP`, produces exactly the patched row |
| `Tasks.LaterAssignmentsPatch` | src/controllers/tasksController.js:109-133 | once the title assignment has succeeded, the description, status, due date and `updatedAt` assignments complete the patched row, or fail on a status the CHECK rejects |
| `Tasks.TaskTable.BuildSetList` | src/controllers/tasksController.js:104-122 | the SET list holds one assignment per supplied field, in the order title, description, status, due date, and is empty exactly when no field is supplied |
| `Tasks.ValidatedPatchIsStorable` | src/middleware/validation.js:71-93 | a patch that passed `validateTaskUpdate` meets the title NOT NULL and status CHECK constraints |
| `Tasks.ValidatedTitleIsStorable` | src/middleware/validation.js:50-56 | a creation body that passed `validateTaskCreation` has a non-empty string title, so the insert meets `title NOT NULL` |
| `Tasks.LookupAt` | src/controllers/tasksController.js:93-103 | the first lookup of update and delete finds the row at the first position matching id and owner, or answers 404 |
| `Tasks.ReplaceRow` | src/controllers/tasksController.js:133-144 | writing the patched row back changes only the row with that id, keeps ids unique, and the row reads back |
| `Tasks.RemoveRow` | src/controllers/tasksController.js:179-181 | the DELETE removes exactly the rows with that id, keeps ids unique, and a later lookup answers 404 |
| `Tasks.TaskTable.CreateTask` | src/controllers/tasksController.js:54-84 | a row with a string title is inserted with the next id, the caller's userId, status pending, empty or missing description and due date as NULL, both timestamps now; it reads back by id; a missing or null title writes nothing and answers 500 |
| `Tasks.TaskTable.UpdateTask` | src/controllers/tasksController.js:87-158 | a missing or not-owned task answers 404 with the table unchanged; otherwise an empty patch answers 400 with nothing written; otherwise the row becomes the patched row, all other rows stay as they were, and the answer is the row read back |
| `Tasks.TaskTable.DeleteTask` | src/controllers/tasksController.js:161-195 | a missing or not-owned task answers 404 with the table unchanged; otherwise exactly that row is removed and the answer is its snapshot from before the delete |
| `Auth.FindByEmail` | src/controllers/authController.js:11 | the lookup finds a user exactly when one has that email, and the user it finds has it |
| `Auth.FindsTheOwner` | src/database.js:28 | with unique emails, the lookup finds the one user holding the email |
| `Auth.AppendKeepsEmailsUnique` | src/database.js:28 | adding a user whose email is not taken keeps emails unique |
| `Auth.Login` | src/controllers/authController.js:49-93 | failure is always 401 "Email ou senha incorretos"; success happens exactly when a user with that email has a matching password; the token signs exactly that user's id, email and name, and the user part holds no password |
| `Auth.LoginFailuresAlike` | src/controllers/authController.js:59-67 | an unknown email and a wrong password give the same answer |
| `Auth.LoginAfterRegister` | src/controllers/authController.js:21-26 | after the insert made by register, logging in with the same password succeeds for that user, provided bcrypt's compare accepts its own hash |
| `Auth.UserTable.Register` | src/controllers/authController.js:6-46 | a taken email answers 400 "Email já está em uso" and writes nothing; otherwise it adds one user holding hash(password) under the next id and answers with only id, name and email; emails stay unique |
| `Auth.UserTable.RegisterRoute` | src/routes/tasks.js:8 | a body that fails `validateUserRegistration` is rejected and nothing is written; otherwise `register` runs on the normalized email: a taken email answers 400 with the users and the id counter unchanged, and a new email adds its user under the old counter, which advances by one |

## Left out

- Storage failures other than the title and status constraints (the `err` → 500 branches for I/O errors) are not modelled. The same goes for the outer try/catch of the auth handlers.
- The check-then-insert race in `register` and any other interleaving of concurrent requests are not modelled. Requests run one at a time. This is where SQLite's UNIQUE constraint would decide between two racing registrations.
- bcrypt, JWT signing with its secret and 24-hour expiry, and the express-validator internals `isEmail`, `isISO8601` and `normalizeEmail` are uninterpreted values (`Auth.Crypto`, `Validation.Validators`).
- The auth middleware that sets `req.user` is not part of this model. The caller id is a parameter.
- `src/routes/tasks.js:8` composes only POST /register with its rule set. The module that mounts login and the task endpoints (imported at `src/server.js:5`) is outside this model, so `Auth.UserTable.RegisterRoute` is the only composition of validation with a handler. For tasks, the link between validation and the handlers is stated by `Tasks.ValidatedPatchIsStorable` and `Tasks.ValidatedTitleIsStorable`.
- JSON body values other than strings and null (numbers, booleans, arrays, objects), and a repeated query parameter arriving as an array, are not modelled.
- `Validation.Passes` counts length as the number of characters. It does not model validator.js leaving variation selectors out of `isLength`.
- A validation error entry carries only the field name and the message. express-validator also reports the value, the location and the type.
- Success messages ("Tarefa criada com sucesso" and the like) and the success status codes (201 and 200) are not part of the results. A result is the task, the task list, or the public user.
- Timestamps are integers. SQLite stores CURRENT_TIMESTAMP as text with one-second resolution, so equal timestamps are common; `GetTasks` promises no order among them.
- `Tasks.PatchedChangesOnlySupplied` and `Tasks.TaskTable.CreateTask` keep a due date as the string supplied. `dueDate` is a DATETIME column, which SQLite gives NUMERIC affinity, so a due date whose text is a well-formed number ("2024", "20240101") is stored and returned as an integer.
- Route `:id` values are integers. SQLite's conversion of the path string to an integer is not modelled; a non-numeric id matches no row, like any missing id.
- `Tasks.TaskTable.UpdateTask` and `Tasks.TaskTable.DeleteTask` act on the one row found by the first lookup. The SQL statements act on every row matching `id = ? AND userId = ?`. Because ids are unique, those are the same row; `Tasks.ReplaceRow` and `Tasks.RemoveRow` state this.
- The foreign key from `tasks.userId` to `users.id` is not modelled. SQLite enforces foreign keys only when they are switched on, and the source does not switch them on.
