# tasksapi core in Dafny

This project models the request-handling core of a small task-tracking web backend.

- **Task endpoints.** List, create, fetch, update and delete tasks (`TaskController`). Each one sits behind a role gate taken from its `@PreAuthorize` annotation.
- **Auth endpoints.** Sign-up and sign-in (`AuthController`).
- **The `Task` entity.** A mutable record with four fields and their getters and setters.

## Layout

| file | module | what it holds |
|---|---|---|
| `optional.dfy` | `Optional` | `Option`, for Java's nullable references and `Optional` |
| `task.dfy` | `TaskModel` | `TaskRecord`, a task's state as a value; class `Task` with its getters and setters |
| `task_store.dfy` | `TaskStore` | `TaskTable`, the task table as a value: a map from key to row plus the identity column's next key. Also class `TaskRepository`, the repository object that updates it in place, and the lemmas about key assignment |
| `access.dfy` | `Access` | the gate: each handler's annotation as an expression, its evaluation over the caller's authorities, and the static role table it encodes |
| `task_controller.dfy` | `TaskApi` | class `TaskController` with the five handlers |
| `user_store.dfy` | `UserStore` | `UserTable`, the user table with its two existence queries and save; class `UserRepository`; the uniqueness invariant |
| `auth_controller.dfy` | `Auth` | class `AuthController` (sign-in and sign-up), the sign-up function `Register` and its lemmas |

## Modelling choices

- **Tables.**
  - Each repository is a class holding a `map` from primary key to row and the next key its identity column will hand out.
  - Keys start at 1. Each class's `Valid()` says that every key lies below the next key. For tasks it also says that every row carries its own key as its id.
  - Read-only queries are functions of the table value `Table()`.
  - `save` and `deleteById` are methods whose `ensures` tie the new table to a function of the old one.
- **Saving a task.**
  - `save` follows the JPA contract: a task with no id is inserted under the next key and comes back with that id, and a task whose id has a row overwrites that row.
  - So `createTask` with a body whose id names an existing row overwrites that row, because the handler passes the body straight to `save`.
- **Updating a task.**
  - `updateTask` loads the row into a fresh `Task` object (`TaskRepository.FindEntityById`).
  - It then calls the three setters on that object in place and saves the object's state.
- **Listing tasks.** `getAllTasks` passes the repository's list through unchanged, order included. The model answers with the set of stored rows, so it captures which tasks are listed and how many, but not their order.
- **Callers.**
  - A caller is `Anonymous` when the request has no token or one that did not validate.
  - Otherwise it is `Authenticated(authorities)`, where the authorities are the principal's granted authority strings.
  - `hasRole('X')` holds when the authorities contain `"ROLE_X"`.
- **Collaborators.** The password encoder, the authentication manager and the token generator are function-valued fields of `AuthController` with no properties assumed. The authentication manager returns `None` when it rejects the credentials.
- **Sign-in.** Sign-in hands the username and password to the authentication manager and does not look the user up itself. The reported role is the principal's first authority string, or `"ROLE_MEMBER"` when it has none.
- **Sign-up.** Sign-up stores the username, the email and the encoded password. The user's role column is not modelled.

## Model

| member | source | states |
|---|---|---|
| `TaskModel.Task.constructor` | src/main/java/com/example/tasksapi/model/Task.java:7-14 | a new task has a null id, null title and description, and `completed` false |
| `TaskModel.Task.SetId` | src/main/java/com/example/tasksapi/model/Task.java:17-22 | `GetId` then returns the value passed; only the id changes |
| `TaskModel.Task.SetTitle` | src/main/java/com/example/tasksapi/model/Task.java:24-29 | `GetTitle` then returns the value passed; only the title changes |
| `TaskModel.Task.SetDescription` | src/main/java/com/example/tasksapi/model/Task.java:31-32 | `GetDescription` then returns the value passed; only the description changes |
| `TaskModel.Task.SetCompleted` | src/main/java/com/example/tasksapi/model/Task.java:34-35 | `IsCompleted` then returns the value passed; only the flag changes |
| `TaskStore.TaskTable.FindAll` | src/main/java/com/example/tasksapi/controller/TaskController.java:25 | a task is in the result exactly when it is stored under its own id, and there are as many results as rows |
| `TaskStore.TaskTable.FindById` | src/main/java/com/example/tasksapi/controller/TaskController.java:37 | a result exactly when the key has a row; that row carries the key as its id |
| `TaskStore.TaskTable.Save` | src/main/java/com/example/tasksapi/model/Task.java:8-10 | a task without an id, or whose id has no row, gets the next key and the identity column advances; one whose id has a row overwrites it and keeps its id; title, description and flag come back as given; every other row is unchanged |
| `TaskStore.TaskTable.DeleteById` | src/main/java/com/example/tasksapi/controller/TaskController.java:59 | exactly that key is removed; every remaining row is unchanged |
| `TaskStore.RowCountBelow` | src/main/java/com/example/tasksapi/controller/TaskController.java:24-26 | since each row carries its own key, no two keys hold the same row, so the listing has one entry per row |
| `TaskStore.FreshSaveTakesNextKey` | src/main/java/com/example/tasksapi/controller/TaskController.java:30-32 | saving a new task gives it the next key, leaves its other fields as submitted, and grows the table by exactly one row |
| `TaskStore.FreshSavesNumberConsecutively` | src/main/java/com/example/tasksapi/model/Task.java:8-10 | new tasks saved one after another get the keys n, n+1, ..., so the ids are distinct and increasing |
| `TaskStore.FreshSavesGrowTable` | src/main/java/com/example/tasksapi/model/Task.java:8-10 | saving k new tasks grows the table by k rows and advances the identity column by k |
| `TaskStore.FreshSavesKeepRows` | src/main/java/com/example/tasksapi/model/Task.java:8-10 | inserting new tasks never touches an existing row |
| `TaskStore.TaskRepository.constructor` | src/main/java/com/example/tasksapi/model/Task.java:8-10 | an empty table whose identity column starts at 1 |
| `TaskStore.TaskRepository.Save` | src/main/java/com/example/tasksapi/controller/TaskController.java:31 | the table becomes exactly what `TaskTable.Save` gives, and the saved task is returned |
| `TaskStore.TaskRepository.DeleteById` | src/main/java/com/example/tasksapi/controller/TaskController.java:59 | the table becomes exactly what `TaskTable.DeleteById` gives |
| `TaskStore.TaskRepository.FindEntityById` | src/main/java/com/example/tasksapi/controller/TaskController.java:45 | null exactly when the key has no row; otherwise a fresh entity whose state is that row |
| `Access.Authority` | src/main/java/com/example/tasksapi/controller/TaskController.java:23 | `hasRole('X')` is met by the authority `"ROLE_" + X` |
| `Access.Gate` | src/main/java/com/example/tasksapi/controller/TaskController.java:23-56 | no caller gives Unauthenticated (401); an authenticated caller is allowed exactly when it holds one of the operation's roles, and refused with LacksRole (403) otherwise |
| `Access.AnnotationMatchesTable` | src/main/java/com/example/tasksapi/controller/TaskController.java:23-56 | each annotation's `hasRole ... or hasRole ...` expression holds exactly when the static table grants the caller a listed role: MEMBER or ADMIN for read, create and update, ADMIN only for delete |
| `Access.OnlyAdminsDelete` | src/main/java/com/example/tasksapi/controller/TaskController.java:56 | a caller without `ROLE_ADMIN` is never allowed to delete: 401 if anonymous, 403 otherwise |
| `Access.MembersReadAndWrite` | src/main/java/com/example/tasksapi/controller/TaskController.java:23-43 | `ROLE_MEMBER` allows read, create and update; `ROLE_ADMIN` allows every operation |
| `TaskApi.Denied` | src/test/java/com/example/tasksapi/integration/TaskApiIntegrationTest.java:247-257 | the gate's Unauthenticated becomes 401 and its LacksRole becomes 403 |
| `TaskApi.TaskController.constructor` | src/main/java/com/example/tasksapi/controller/TaskController.java:18-20 | the controller works on the repository it is given |
| `TaskApi.TaskController.GetAllTasks` | src/main/java/com/example/tasksapi/controller/TaskController.java:22-26 | when the gate allows, the body holds exactly the stored tasks, one per row; otherwise 401 or 403; reads the table without changing it |
| `TaskApi.TaskController.GetTaskById` | src/main/java/com/example/tasksapi/controller/TaskController.java:34-40 | when allowed: 200 with the stored row, whose id is the requested one, exactly when the key has a row, and 404 otherwise; the table is not changed |
| `TaskApi.TaskController.CreateTask` | src/main/java/com/example/tasksapi/controller/TaskController.java:28-32 | when allowed, the body is saved; a body without an id comes back with the next key and its submitted fields, and that one row is added; when refused, nothing changes |
| `TaskApi.TaskController.UpdateTask` | src/main/java/com/example/tasksapi/controller/TaskController.java:42-53 | when allowed and the key has a row: that row's title, description and flag become the body's, its id stays, and no other row and not the identity column changes. A missing key gives 404 and no change, and a refusal gives no change |
| `TaskApi.TaskController.DeleteTask` | src/main/java/com/example/tasksapi/controller/TaskController.java:55-64 | when allowed and the key has a row: exactly that row is removed and 200 is returned. A missing key gives 404 and no change, and a refusal gives no change |
| `TaskApi.NonAdminDeleteIsRefused` | src/main/java/com/example/tasksapi/controller/TaskController.java:55-57 | a delete from any caller without `ROLE_ADMIN` gets 401 when there is no caller and 403 otherwise, and the repository is unchanged |
| `TaskApi.MemberDeleteIsForbidden` | src/test/java/com/example/tasksapi/controller/TaskControllerTest.java:195-212 | a MEMBER's delete gets 403 and no row is deleted |
| `UserStore.UserTable.Save` | src/main/java/com/example/tasksapi/controller/AuthController.java:78 | the new user goes in under the next key, which was free, and every existing user is kept: the table grows by exactly one |
| `UserStore.UserRepository.constructor` | src/main/java/com/example/tasksapi/controller/AuthController.java:28-29 | an empty user table whose identity column starts at 1 |
| `UserStore.UserRepository.Save` | src/main/java/com/example/tasksapi/controller/AuthController.java:78 | the table becomes exactly what `UserTable.Save` gives |
| `Auth.FirstAuthority` | src/main/java/com/example/tasksapi/controller/AuthController.java:47-50 | the reported role is the first authority when there is one, and `"ROLE_MEMBER"` only when there are none |
| `Auth.Register` | src/main/java/com/example/tasksapi/controller/AuthController.java:60-81 | a taken username gives `"Error: Username is already taken!"` whatever the email. Otherwise a taken email gives `"Error: Email is already in use!"`. Either refusal leaves the table unchanged. Otherwise `"User registered successfully!"` and exactly one new user with the given username and email and the encoded password |
| `Auth.RegisterPreservesUniqueness` | src/main/java/com/example/tasksapi/controller/AuthController.java:61-78 | if usernames and emails are unique before a sign-up, they are unique after it |
| `Auth.RegistrationsPreserveUniqueness` | src/main/java/com/example/tasksapi/controller/AuthController.java:61-78 | usernames and emails stay unique across any sequence of sign-ups |
| `Auth.RepeatedSignUpIsRefused` | src/main/java/com/example/tasksapi/controller/AuthController.java:61-71 | after a successful sign-up, the same username is refused with the username message whatever the email, and a new username with the same email is refused with the email message |
| `Auth.AuthController.constructor` | src/main/java/com/example/tasksapi/controller/AuthController.java:25-35 | the controller uses the repository, encoder, authentication manager and token generator it is given |
| `Auth.AuthController.AuthenticateUser` | src/main/java/com/example/tasksapi/controller/AuthController.java:38-57 | 401 exactly when the authentication manager rejects the credentials. Otherwise the response carries the generated token and the principal's id, username and email unchanged, and as its role the principal's first authority or `"ROLE_MEMBER"` when it has none |
| `Auth.AuthController.RegisterUser` | src/main/java/com/example/tasksapi/controller/AuthController.java:60-81 | the checks run in order and at most one save happens; the response and the new table are exactly `Register`'s. The response type has no token field and the token generator is not used |

## Left out

- Token generation, validation and subject extraction are not part of this model, because they rest on a JWT/HMAC signing library whose behaviour is not modelled. The token generator is an uninterpreted function. A missing or invalid token appears only as an `Anonymous` caller.
- Password encoding and the authentication manager are uninterpreted functions, because they are framework and cryptographic code.
- Storing the authentication in the security context during sign-in is left out. It is per-thread ambient state with no effect visible in these handlers.
- Routing, CORS, JSON mapping and `@Valid` request validation are left out. The validation rules live in request classes that are not part of this model.
- The `User` entity is not part of this model, and its role column is not modelled. A user is its username, email and encoded password.
- The race between sign-up's existence checks and its save under concurrent requests is left out. It is a concurrency concern, and only a database unique constraint would close it.
- Primary keys are unbounded integers. The 64-bit limit of `Long` keys is not modelled.
- `TaskStore.TaskTable.Save`: a task whose id has no row is inserted under the next key, which is what merging a detached entity did in older persistence providers. Providers that reject such a merge are not modelled.
- Request and response bodies are values. Whether `save` returns the same object it was given, and aliasing between that object and the caller's, are not modelled. Only the in-place setter calls in `updateTask` act on an entity object.
- `TaskApi.TaskController.GetAllTasks` answers with a set, so it does not promise that the response keeps the order of the repository's list.
