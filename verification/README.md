# Access control of the dev-flow task back end, in Dafny

This project models the part of the dev-flow back end (a NestJS service) that
decides who may do what:

- **Request authentication** (`JwtStrategy`, from `jwt.strategy.ts`). The
  access token is read from an `Authorization: Bearer <token>` header. Its
  signature is checked by an abstract verifier, and a token whose `exp` has
  passed is refused. The verified claims `{sub, email, memberId, role}` become
  the request's principal `{userId, email, memberId, role}`.
- **The task routes** (`TasksController`, from `tasks.controller.ts`). The
  guards run in the order `JwtAuthGuard, RolesGuard`. A lookup table gives the
  roles each route admits. The dispatcher passes the logged-in user's id, and
  the right path or body identifiers, to the service.
- **The task service** (`TasksService`, from `tasks.service.ts`). It creates,
  lists, fetches, deletes, bulk-deletes and updates tasks. Ownership rules
  apply:
  - only the author may delete a task, and anyone else is refused with
    Forbidden;
  - a bulk delete silently skips tasks the caller did not write;
  - the author or the assignee may update a task;
  - an update never moves a task to another project and never changes its
    author.
- **The refresh-token store** (`TokensService`, from `tokens.service.ts`).
  Each user has one row, replaced on every save. Rows are looked up and
  deleted by token value.

The databases are immutable maps: tasks keyed by task id, refresh tokens keyed
by user id. Every operation is a pure function or method that returns the new
map together with its output. Errors are the datatype
`Err = BadRequest | NotFound | Forbidden | Unauthenticated`. A failed operation
returns no store, so a failure never changes state. The clock, the fresh task
id chosen by the database, and the signature check are explicit parameters.

Files: `common.dfy` (Option, Err, Result, JavaScript truthiness),
`jwt_strategy.dfy`, `tasks_controller.dfy`, `tasks_service.dfy` and
`tokens_service.dfy`.

## Model

| member | source | states |
|---|---|---|
| TasksService.Create | src/tasks/tasks.service.ts:15-30 | An empty user id or a missing body is BadRequest, with nothing stored. Otherwise the one new task is stored under the database's fresh id. Its author is the caller, and its workspace, project and creation time are the given ones. It has an assignee exactly when the body's `assigneeId` is truthy, and a due date exactly when `dueDate` is truthy. The store invariant is kept. |
| TasksService.CreateThenGet | src/tasks/tasks.service.ts:15-30 | A task that was just created can be fetched back, unchanged, by its new id. |
| TasksService.InsertNewestFirst | src/tasks/tasks.service.ts:66 | Inserting into a newest-first list keeps it newest first. The result is a permutation of the old list plus the new task: same multiset, one element longer. |
| TasksService.ListedStep | src/tasks/tasks.service.ts:47-66 | Visiting one more stored key keeps the listing exact: the visited tasks of the project, each once, newest first. |
| TasksService.CollectProject | src/tasks/tasks.service.ts:47-66 | After visiting every key, the list holds each task of the project exactly once, newest first. |
| TasksService.GetAll | src/tasks/tasks.service.ts:45-67 | An empty project id is BadRequest, and any other id succeeds. The result is sorted by `createdAt`, newest first. Every listed task is a stored task of that project. Every stored task of that project is listed. The length equals the number of such tasks, so none appears twice. |
| TasksService.Get | src/tasks/tasks.service.ts:69-102 | An empty id is BadRequest and an unknown id is NotFound. Otherwise the result is the stored task with that id. |
| TasksService.Delete | src/tasks/tasks.service.ts:103-115 | Succeeds iff the task exists and the caller is its author. A missing task is NotFound and any other caller is Forbidden. On success exactly that key is removed and every other task is unchanged. |
| TasksService.AssigneeCannotDelete | src/tasks/tasks.service.ts:108-111 | Being the assignee, without being the author, gives Forbidden on delete. |
| TasksService.DeleteThenGet | src/tasks/tasks.service.ts:112-114 | After a successful delete the task is NotFound. |
| TasksService.RemoveOwned | src/tasks/tasks.service.ts:118-124 | Removing the requested ids one at a time agrees with the set-based filter. That filter is: id listed, task in the project, task written by the caller. The count equals the number of rows matched. |
| TasksService.DeleteMany | src/tasks/tasks.service.ts:117-131 | Exactly the listed tasks of the project written by the caller are removed, and all others stay unchanged. It never fails. The reported count equals the number of rows removed. Zero rows yields the "No tasks were deleted" message instead of a count. |
| TasksService.DeleteAllOwned | src/tasks/tasks.service.ts:118-131 | With the id filter dropped, exactly the caller's tasks in the project are removed and every other task is unchanged. The count equals the number removed, and zero rows yields the message. |
| TasksService.DeleteManyAsWritten | src/tasks/tasks.service.ts:117-131 | The bulk delete as the code is written. With `ids` it is `DeleteMany`. Without `ids`, every task of the caller in the project is removed. Either way only the caller's tasks of that project can go, the rest stay unchanged, the count equals the number removed, and the store invariant is kept. |
| TasksService.MissingIdsDeletesUnrequestedTask | src/tasks/tasks.service.ts:118-124 | A store with one task of user `u` in project `p` and a body without `ids`: that task is deleted, count 1. |
| TasksService.DeleteManyRequested | src/tasks/tasks.service.ts:117-131 | Corrected bulk delete: only listed tasks of the project written by the caller can be removed. A missing list removes nothing and yields the message. |
| TasksService.NewAssignee | src/tasks/tasks.service.ts:154-158 | An absent `assigneeId` keeps the assignee. `null` or the empty string disconnects it. A non-empty id connects that user. |
| TasksService.ApplyUpdate | src/tasks/tasks.service.ts:146-159 | The project never changes, because `projectId` is taken out of the body. Id, author, workspace and creation time are not fields of the update body and stay as they were. The assignee follows `NewAssignee`. A falsy due date keeps the old one. Description, status and priority follow `Patched`: absent keeps, `null` clears, a value replaces. An absent title keeps the old one. |
| TasksService.Update | src/tasks/tasks.service.ts:132-165 | Succeeds iff the task exists and the caller is its author or its assignee. A missing task is NotFound and any other caller is Forbidden. On success only that task changes, to `ApplyUpdate` of it, and the store invariant is kept. |
| TasksService.UpdateIgnoresProjectId | src/tasks/tasks.service.ts:146 | The `projectId` of an update body has no effect at all. |
| TasksService.ApplyUpdateIdempotent | src/tasks/tasks.service.ts:148-159 | Applying the same update body twice gives the same task as applying it once. |
| TasksService.AssigneeHandOff | src/tasks/tasks.service.ts:138-158 | Take an assignee who is not the author. If they reassign the task to someone else, their next update of it is Forbidden. |
| TasksService.EmptyCallerOwnsNothing | src/tasks/tasks.service.ts:103-144 | In a store built by these operations, a caller with an empty id can neither delete nor update any task. |
| TokensService.Save | src/tokens/tokens.service.ts:8-21 | Upsert keyed by user. The user's row holds the new token and expires 1296000000 ms (15 days) after `now`, on both the insert and the replace path. The row count grows only for a new user. Every other user's row is unchanged. |
| TokensService.Find | src/tokens/tokens.service.ts:22-30 | NotFound iff no row holds the token. Otherwise the result is one of the stored rows holding it. |
| TokensService.DeleteByToken | src/tokens/tokens.service.ts:31-37 | Removes exactly the rows holding the token and leaves every other row unchanged. The reported count is the number of rows removed. Afterwards no row holds the token. |
| TokensService.DeleteIdempotent | src/tokens/tokens.service.ts:31-37 | Deleting a token twice leaves the same store as deleting it once, and the second call reports 0. |
| TokensService.Rotation | src/tokens/tokens.service.ts:8-30 | Assume no other user holds `t1`. After saving `t1` and then a different `t2` for a user, a lookup of `t1` is NotFound and a lookup of `t2` finds a row. If nobody else holds `t2`, that row is exactly the user's new row. |
| TokensService.DeleteThenFind | src/tokens/tokens.service.ts:22-37 | After a delete by value, looking that value up is NotFound. |
| JwtStrategy.Validate | src/jwt-auth/jwt.strategy.ts:22-29 | The principal's `userId` is the payload's `sub`. `email`, `memberId` and `role` are copied unchanged. |
| JwtStrategy.ToPayload | src/jwt-auth/jwt.strategy.ts:22-29 | The payload rebuilt from a principal maps back to that principal under `Validate`, so every principal comes from some payload. |
| JwtStrategy.ValidateLosesNothing | src/jwt-auth/jwt.strategy.ts:22-29 | Rebuilding the payload from the principal gives back the original payload. |
| JwtStrategy.IndexOfSpace | src/jwt-auth/jwt.strategy.ts:16 | Finds the first space of the header, which separates the scheme from the token. |
| JwtStrategy.ParseBearer | src/jwt-auth/jwt.strategy.ts:16 | A missing header yields no token. Any token extracted is well formed and comes from a header of the form `<bearer scheme> <token>`. |
| JwtStrategy.BearerFormParses | src/jwt-auth/jwt.strategy.ts:16 | Conversely, every header of that form is accepted and yields its own token. |
| JwtStrategy.BearerHeaderRoundTrip | src/jwt-auth/jwt.strategy.ts:16 | `Bearer <token>` parses back to `<token>`. |
| JwtStrategy.Authenticate | src/jwt-auth/jwt.strategy.ts:15-29 | Succeeds iff a bearer token is present, its signature verifies and it is not expired (exp at or before now). Every failure is Unauthenticated. On success the principal is `Validate` of the verified claims. |
| JwtStrategy.ExpiredIsRejected | src/jwt-auth/jwt.strategy.ts:17 | An expired token is Unauthenticated even with a valid signature. |
| JwtStrategy.ValidTokenAuthenticates | src/jwt-auth/jwt.strategy.ts:15-29 | A valid unexpired bearer token authenticates as the principal of its claims. |
| TasksController.ParseRole | src/tasks/tasks.controller.ts:36 | A role claim names a role only when it is spelled as that role's name. |
| TasksController.RequiredRoles | src/tasks/tasks.controller.ts:35-84 | Only the bulk delete declares no roles. Every other route admits OWNER and ADMIN, and admits MEMBER exactly when it is not create. |
| TasksController.RolesGate | src/tasks/tasks.controller.ts:35-36 | Admits the principal iff the route declares no roles or its role claim names a declared role. Refusal is Forbidden. |
| TasksController.Guard | src/tasks/tasks.controller.ts:31 | Authentication runs first. A failed authentication is Unauthenticated and never reaches the roles guard. Success requires both guards, and the principal passes through unchanged. |
| TasksController.RoleTable | src/tasks/tasks.controller.ts:35-84 | Create admits OWNER and ADMIN but not MEMBER. List, get, single delete and update admit all three roles. |
| TasksController.BulkDeleteDeclaresNoRoles | src/tasks/tasks.controller.ts:62-70 | The bulk delete admits every authenticated principal. |
| TasksController.UnknownRoleReachesOnlyBulkDelete | src/tasks/tasks.controller.ts:62-84 | A role claim that names no role passes the roles guard only on the bulk delete. |
| TasksController.Handle | src/tasks/tasks.controller.ts:31-93 | Unauthenticated or role-refused requests fail before the service runs. Each route calls the service with the logged-in user's id. Create takes the path's workspace and the body's project. Bulk delete takes the path's project and dispatches to the bulk delete as written. List returns exactly the project's tasks, newest first. Across all routes: only a task's author ever removes it, author and project never change, a task changes only for its author or assignee, and a new task is authored by the caller. |

## Left out

- Database internals. The `include`/`select` projections are not modelled; operations return whole tasks.
- Referential integrity. The model does not check that projects, workspaces, authors and assignees exist, or the errors the database raises when they do not.
- Schema defaults for `status` and `priority`. These stay the opaque optional values of the body.
- TasksService.Create: the fresh id and creation time are parameters supplied by the database, with the id assumed unused.
- Date parsing of `dueDate`. The client's date string is stored as is, and only its truthiness is modelled.
- JWT signing and signature verification, including the secret taken from the configuration. Verification is an abstract function from token to claims.
- The `nbf` and other claim checks of the JWT library. The model checks only expiry.
- The access-token issuer (short and long expiry at login). It is not part of this model.
- JwtStrategy.ParseBearer: stricter than the library's header regex. The model accepts exactly one space between scheme and token, and a token with no JavaScript whitespace character in it. The library also accepts other whitespace as the separator, leading blanks, and trailing words after the token; on such headers the model yields no token where the library yields the first word after the scheme.
- TasksService.ApplyUpdate: assumes the update body carries only the fields of `UpdateTaskInput`. The service spreads every other body field into the write as well, so a body with an `authorId` or `workspaceId` field would change those columns; the update DTO class and the validation pipe that would strip such fields are not part of this model. A `null` title is not modelled either: the column is required, and the database would refuse it.
- The bodies of `RolesGuard`, `JwtAuthGuard` and `LoggedUser` are not part of this model. The roles guard is modelled as "no declared roles admits everyone; otherwise the role claim must name a declared role".
- Request body validation (`create-user.dto.ts`, `login-user.dto.ts`) and the module wiring files. These are library behaviour and dependency injection.
- TasksService.GetAll: tasks with equal `createdAt` appear in an order the model leaves open. The database's tie order is unspecified.
- TokensService.Find: which of several rows holding the same token is returned is left open. The database's `findFirst` order is unspecified.
- Concurrency. Each call is one atomic step, including the upsert.
- HTTP status codes and API documentation metadata.

## Findings

| source | as written | input that shows it | evidently intended | confidence | as-written member | corrected member |
|---|---|---|---|---|---|---|
| src/tasks/tasks.service.ts:117-124 | The bulk-delete route reads `ids` from the body (src/tasks/tasks.controller.ts:67) and passes it unchecked into an `id: { in: ids }` filter. When the body has no `ids` the filter value is `undefined`, which the ORM ignores. Every task of the caller in the project then matches. | A `DELETE` on the project's tasks with body `{}`, by a user who wrote task `t1` in that project: `t1` is deleted and the count is 1. | Only the listed tasks may be deleted. A missing list deletes nothing. | medium (not executed; rests on the ORM dropping `undefined` filters) | TasksService.DeleteManyAsWritten, TasksService.MissingIdsDeletesUnrequestedTask | TasksService.DeleteManyRequested |

The dispatcher `TasksController.Handle` follows the code as written and calls
`TasksService.DeleteManyAsWritten`. Its system-wide contract holds even so:
a body without `ids` removes only tasks the caller wrote. The corrected
`TasksService.DeleteManyRequested` stands alongside it.

The single-task routes (get, delete, update) ignore the path's workspace and
project ids, and create takes its project from the body rather than the path.
The model keeps this behaviour, and `TasksController.Handle` states it in its
contract.
