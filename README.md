# User repository and user use cases, in Dafny

This project models the user side of an Express/MySQL back end. It has two layers.

- **`UserRepository`** stores users in a MySQL `users` table. It offers `findAll`, `findById`, `create`, `update`, `delete`, `exists` and the row mapping `mapRowToUser`.
- **Five use cases** sit on top of the repository: create a user, activate one, deactivate one, update a profile and update a user.

The `users` table is modelled in memory. It is a map from id to row plus the next AUTO_INCREMENT value (`UserTable.Store`). The table keeps its constraints as an invariant (`UserTable.Consistent`): every key is below the counter and is its row's id, and email and username are unique.

Each repository operation has a rule stated on values: `CreateStep`, `UpdateStep` and `DeleteStep`. A class `Repositories.UserRepository` holds the table in fields. Its methods work step by step, as the JavaScript does, and each one is proved to do exactly what its rule says.

`update` works in three stages:

1. It collects the SET clause and its bound values field by field (`UpdateStatement.CollectFields`).
2. It appends `updatedAt = CURRENT_TIMESTAMP` and binds the id last.
3. It executes the statement (`UpdateStatement.ApplySet`).

The statement it executes is proved to be the field-wise partial update (`UpdateStatement.Patched`).

Each use case is a class holding the repository. Its `Execute` method is proved equal to a pure description of the whole run (`CreateUserRun`, `SetActiveRun` or `ProfileUpdateRun`). A run records three things: the result, the table afterwards, and the repository calls made, in order. Each description states the guard order, the exact error for each failed guard, "nothing written on error", "at most one write, and it is the last call", and what the write does.

The repository records its calls in a ghost log, `calls`. Only calls made from outside are logged: the `findById` inside `create`/`update`/`delete` is part of those operations.

Parameters stand for the parts that are not shown or are external:

- the store's clock, `now`;
- `bcrypt.hash(_, 12)`, as `hash`;
- the entity methods `hasPermission` and `updateProfile`, which are not part of this model.

`activate()` and `deactivate()` are taken to set `isActive` to true and false. This is an assumption from the method names, because `src/domain/entities/User.js` is not part of this model. `new User(data)` is taken to copy the attributes it is given.

Three behaviours of the code differ from what a caller might expect; the model follows the code:

- **Unknown id.** `update` and `delete` on an unknown id do not fail with "not found". The `'User not found'` they throw inside their own `try` is caught and replaced by the generic `'Database error while updating user'` / `'Database error while deleting user'`. See `UserTable.UpdateStep` and `UserTable.DeleteStep`.
- **Updates always write.** The two profile use cases hand the whole entity to `update`. So all six writable columns and `updatedAt` are written even when `updateProfile` changes nothing, and a "no fields" update never arises from them. See `ProfileUpdate.UnchangedProfileStillWrites`.
- **Default role.** The `role = 'author'` default destructured in `CreateUserUseCase.execute` is never used. The default comes from `create`, which stores `'author'` for any falsy role.

## Model

| member | source | states |
|---|---|---|
| UserEntity.User.AsUserData | src/application/usecases/UserUseCases/UpdateUserProfileUseCase.js:24 | the entity handed to `update` supplies every writable attribute with the entity's value and no password; an assumption about the entity, whose own file is not part of this model |
| UserRow.MapRowToUser | src/infrastructure/repositories/UserRepository.js:235-247 | the user has the row's id, username, email, names, role and timestamps, and is active exactly when the stored flag is non-zero |
| UserRow.MapRowToUserIgnoresPassword | src/infrastructure/repositories/UserRepository.js:235-247 | the mapped user carries no password: rows differing only in password map to the same user |
| UserRow.ActiveFlagRoundTrip | src/infrastructure/repositories/UserRepository.js:243 | a boolean stored in the TINYINT column reads back, through `Boolean(row.isActive)`, as the same boolean |
| UpdateStatement.PresentColumns | src/infrastructure/repositories/UserRepository.js:138-164 | the SET columns are exactly the writable columns whose input is not `undefined` (never `password`, never `updatedAt`), in the order username, email, firstName, lastName, role, isActive; empty exactly when no such column is supplied |
| UpdateStatement.PresentValues | src/infrastructure/repositories/UserRepository.js:141-164 | one bound value per SET column, the input's value for that column, in the same order |
| UpdateStatement.CollectFields | src/infrastructure/repositories/UserRepository.js:138-164 | the six conditional pushes build exactly `PresentColumns` and `PresentValues` |
| UpdateStatement.Patched | src/infrastructure/repositories/UserRepository.js:141-171 | the partial update: each supplied attribute replaces the stored one, each absent one keeps it; id, password and createdAt never change; updatedAt becomes the current time |
| UpdateStatement.ApplySet | src/infrastructure/repositories/UserRepository.js:174-176 | executing a SET list never changes id or createdAt, leaves the password unless it is listed, and sets updatedAt to the current time exactly when `updatedAt` is listed |
| UpdateStatement.SetClauseIsPatch | src/infrastructure/repositories/UserRepository.js:170-176 | the placeholders of `SET <columns>, updatedAt = CURRENT_TIMESTAMP` match the bound values, and executing it on a row gives `Patched` |
| UpdateStatement.WhereBindsIdLast | src/infrastructure/repositories/UserRepository.js:170-174 | after the timestamp is appended, every SET placeholder takes a data value and the id is the last value, the one bound to `WHERE id = ?` |
| UserTable.CreateErrorFor | src/infrastructure/repositories/UserRepository.js:112-122 | the `catch` of `create`: an email duplicate, and only that, gives "Email already exists"; a username duplicate "Username already exists"; a primary-key duplicate "User with this email or username already exists"; an error without the code the generic create error |
| UserTable.UpdateErrorFor | src/infrastructure/repositories/UserRepository.js:184-193 | the `catch` of `update`: an email duplicate gives "Email already exists", a username duplicate "Username already exists", and everything else, a primary-key duplicate included, the generic update error |
| UserTable.FindUser | src/infrastructure/repositories/UserRepository.js:30-39 | no user exactly when no row has the id, otherwise the mapped row |
| UserTable.ExistsIn | src/infrastructure/repositories/UserRepository.js:222-227 | true exactly when the email is taken or the username is taken |
| UserTable.InsertedRow | src/infrastructure/repositories/UserRepository.js:94-102 | the inserted row holds the five required attributes as given, the password unchanged, `'author'` for a falsy role, the flag 1 unless `isActive` is an explicit `false` and 0 then, and the current time in both timestamps |
| UserTable.ErrorMappingsAgreeOnNamedColumns | src/infrastructure/repositories/UserRepository.js:112-122 | the `catch` of `create` and that of `update` give the same error exactly for duplicates of email or username; they differ on a primary-key duplicate and on errors without a code |
| UserTable.Conflict | src/infrastructure/repositories/UserRepository.js:112-119 | a write clashes exactly when another row has its email or username; the email index is reported first; never the primary key |
| UserTable.CreateStep | src/infrastructure/repositories/UserRepository.js:87-124 | on success: one new row at the next id, all other rows kept, the password stored exactly as received, a falsy role stored as `'author'`, `isActive` true unless an explicit `false` was given, the re-read row returned. An `undefined` required attribute gives the generic create error. A clash gives the error for the email, username or id. The table is unchanged on error and stays consistent. On a consistent table the operation fails exactly when `exists` would be true; an email clash gives "Email already exists", and a username clash without an email clash gives "Username already exists" |
| UserTable.UpdateStep | src/infrastructure/repositories/UserRepository.js:127-195 | unknown id gives the generic update error, not "not found". No supplied field returns the stored user with no write. Otherwise the write succeeds exactly when no other row has the new email or username; then only row `id` changes, to `Patched`, and the re-read row is returned. An email clash gives "Email already exists", a username clash without an email clash "Username already exists", and the table is then unchanged. Ids and the counter never change, and consistency is kept |
| UserTable.DeleteStep | src/infrastructure/repositories/UserRepository.js:198-216 | a known id is removed and the result is true; an unknown id gives the generic delete error, not "not found", with no change; other rows are kept; consistency is kept |
| UserTable.RewriteKeepsConsistent | src/infrastructure/repositories/UserRepository.js:174-176 | rewriting one row with a row that keeps its id and clashes with no other row keeps the table's constraints |
| UserTable.OwnValuesNeverClash | src/infrastructure/repositories/UserRepository.js:184-190 | a write keeping a user's own email and username never meets a duplicate-key error |
| UserTable.InsertByCreatedDesc | src/infrastructure/repositories/UserRepository.js:16 | inserting into a list ordered by createdAt descending keeps it ordered and adds exactly the new user (as a multiset) |
| UserTable.InsertMembers | src/infrastructure/repositories/UserRepository.js:16-19 | the list after insertion holds the old users and the new one, nothing else |
| UserTable.InsertKeepsIdsDistinct | src/infrastructure/repositories/UserRepository.js:16-19 | inserting a user with a new id keeps ids distinct |
| DuplicateMessage.CreateErrorAsWritten | src/infrastructure/repositories/UserRepository.js:113-119 | as written: "Email already exists" exactly when the message contains `email` anywhere; else "Username already exists" exactly when it contains `username`; else the combined message |
| DuplicateMessage.UpdateErrorAsWritten | src/infrastructure/repositories/UserRepository.js:185-190 | as written: the same substring tests, with the generic update error when neither is found |
| DuplicateMessage.DuplicateValueMisread | src/infrastructure/repositories/UserRepository.js:113-117 | as written, a username duplicate whose value contains `email` is reported as "Email already exists", by `create` and by `update` |
| DuplicateMessage.DuplicatedIndex | src/infrastructure/repositories/UserRepository.js:113-117 | the corrected reading: the email index exactly when the message ends with `for key 'users.email'`, the username index exactly when it ends with the username index instead, the primary key otherwise |
| DuplicateMessage.DuplicatedIndexReadsIndex | src/infrastructure/repositories/UserRepository.js:112-119 | reading the index name at the end of the driver message recovers the violated index, whatever the duplicated value |
| DuplicateMessage.ReadingTheIndexIsCorrect | src/infrastructure/repositories/UserRepository.js:184-190 | with the index read from the message's end, both `catch` blocks report the violated index |
| Repositories.UserRepository.constructor | src/infrastructure/repositories/UserRepository.js:7-9 | an empty, consistent table |
| Repositories.UserRepository.FindAll | src/infrastructure/repositories/UserRepository.js:12-24 | every row, mapped, each once, newest created first; the table is not changed |
| Repositories.UserRepository.FindById | src/infrastructure/repositories/UserRepository.js:27-44 | `null` exactly when no row has the id, otherwise the mapped row |
| Repositories.UserRepository.Exists | src/infrastructure/repositories/UserRepository.js:219-232 | true exactly when some row has the email or the username |
| Repositories.UserRepository.Create | src/infrastructure/repositories/UserRepository.js:87-124 | result and new table are those of `CreateStep`; the table stays consistent |
| Repositories.UserRepository.Update | src/infrastructure/repositories/UserRepository.js:127-195 | result and new table are those of `UpdateStep`; the table stays consistent |
| Repositories.UserRepository.Delete | src/infrastructure/repositories/UserRepository.js:198-216 | result and new table are those of `DeleteStep`; the table stays consistent |
| EmailFormat.EmailPatternIsShape | src/application/usecases/UserUseCases/CreateUserUseCase.js:15-18 | `^[^\s@]+@[^\s@]+\.[^\s@]+$` accepts exactly the strings with no white space, exactly one `@` not at the start, and a `.` after the character that follows the `@` and before the last character |
| EmailFormat.NoAtRefused | src/application/usecases/UserUseCases/CreateUserUseCase.js:15-18 | a string without `@` is refused |
| EmailFormat.WhitespaceRefused | src/application/usecases/UserUseCases/CreateUserUseCase.js:15-18 | a string with a white-space character anywhere is refused |
| EmailFormat.AcceptsAddress | src/application/usecases/UserUseCases/CreateUserUseCase.js:15-18 | a plain address is accepted |
| EmailFormat.RefusesTruncated | src/application/usecases/UserUseCases/CreateUserUseCase.js:15-18 | three truncated addresses are refused: `ana@blog.` (nothing after the only `.`), `@blog.es` (empty local part) and `ana@.es` (nothing between `@` and `.`) |
| EmailFormat.AcceptsEmptyLabels | src/application/usecases/UserUseCases/CreateUserUseCase.js:15-18 | the pattern does not check labels: `a@.b.c` and `a@b..c` are accepted, since backtracking lets the `\.` match a later dot |
| EmailFormat.IsValidEmail | src/application/usecases/UserUseCases/CreateUserUseCase.js:15-16 | an accepted address has at least five characters, an `@` and a `.`, and starts and ends with a character other than white space and `@` |
| CreateUser.RequiredPresent | src/application/usecases/UserUseCases/CreateUserUseCase.js:10 | passing the check means all five required attributes are present and non-empty, so `create` binds every parameter; any of the five missing or empty fails it |
| CreateUser.WithHashedPassword | src/application/usecases/UserUseCases/CreateUserUseCase.js:31-34 | the record handed to `create` is the input with the password replaced by its hash and every other attribute unchanged |
| CreateUser.CreateUserRun | src/application/usecases/UserUseCases/CreateUserUseCase.js:6-37 | a falsy required field fails first, with no call; then a bad email, with no call; then an existing email or username, after one `exists` call and with no write. Each error leaves the table unchanged. The only write is the last call, a `create` of the input with only the password replaced by its hash. When all three guards pass, the result and the table are exactly those of the repository's `create` (`CreateStep`) on that record. On a consistent table the run succeeds exactly when the three guards pass; the new user then has the next id, the input's username, email and names, the `'author'` and `isActive` defaults, the hashed password, and every other row is kept |
| CreateUser.RegisterBob | src/application/usecases/UserUseCases/CreateUserUseCase.js:6-37 | registering `bob`/`bob@x.com` on a table where neither is taken yields an active `'author'` with the next id whose stored password is not `secret`, since a bcrypt hash is 60 characters long |
| CreateUser.CreateUserUseCase.constructor | src/application/usecases/UserUseCases/CreateUserUseCase.js:2-4 | keeps the repository it is given |
| CreateUser.CreateUserUseCase.Execute | src/application/usecases/UserUseCases/CreateUserUseCase.js:6-37 | result, new table and calls are those of `CreateUserRun`; the table stays consistent |
| Activation.Flagged | src/application/usecases/UserUseCases/ActivateUserUseCase.js:29-30 | `activate()`/`deactivate()` change only the flag |
| Activation.SetActiveRun | src/application/usecases/UserUseCases/ActivateUserUseCase.js:6-37 | a missing requester fails first, after one lookup. A requester without `manage_users` fails with the error for the operation, with no target lookup. A missing target fails after two lookups. No write happens on error, and the table is then unchanged. The only write is the last call, an `update` keyed by `userId`. On success the calls are exactly the requester lookup, the target lookup and one `update` of the target with its flag set to true or false. On a consistent table the run succeeds exactly when the three guards pass; only row `userId` changes, to the same row with the flag set and the timestamp renewed |
| Activation.FlagWriteIsFlagOnly | src/application/usecases/UserUseCases/ActivateUserUseCase.js:27-36 | writing back the loaded user with its flag changed supplies fields, rewrites only flag and timestamp, and on a consistent table never clashes |
| Activation.ActivateThenDeactivate | src/application/usecases/UserUseCases/DeactivateUserUseCase.js:8-36 | activating and then deactivating, with a different privileged requester, both succeed; the user ends inactive and the requester's row is untouched |
| Activation.ActivateThenDeactivateSelf | src/application/usecases/UserUseCases/DeactivateUserUseCase.js:8-36 | a privileged user activating and then deactivating themselves: when the permission check ignores the flag and the timestamp, both runs succeed and only their own flag and timestamp change |
| Activation.ActivateIdempotent | src/application/usecases/UserUseCases/ActivateUserUseCase.js:6-37 | by a requester other than the target, activating twice succeeds exactly when activating once does, and differs only in the timestamp |
| ActivateUser.ActivateUserUseCase.constructor | src/application/usecases/UserUseCases/ActivateUserUseCase.js:2-4 | keeps the repository it is given |
| ActivateUser.ActivateUserUseCase.Execute | src/application/usecases/UserUseCases/ActivateUserUseCase.js:6-37 | result, new table and calls are those of `SetActiveRun` with the flag true |
| DeactivateUser.DeactivateUserUseCase.constructor | src/application/usecases/UserUseCases/DeactivateUserUseCase.js:2-4 | keeps the repository it is given |
| DeactivateUser.DeactivateUserUseCase.Execute | src/application/usecases/UserUseCases/DeactivateUserUseCase.js:6-37 | result, new table and calls are those of `SetActiveRun` with the flag false |
| ProfileUpdate.ProfileUpdateRun | src/application/usecases/UserUseCases/UpdateUserProfileUseCase.js:6-25 | an unknown user fails with "User not found" after the single lookup, with no write. Otherwise there is exactly one lookup then one `update`, keyed by `userId`, of the user as `updateProfile` left it. The result and the table are exactly those of the repository's `update` (`UpdateStep`) on the edited user. It succeeds exactly when no other row has the edited email or username; an email clash gives "Email already exists", a username clash without an email clash "Username already exists". On success only that row changes, to the edited attributes with a new timestamp, and the re-read row is returned. On error the table is unchanged. Consistency is kept |
| ProfileUpdate.KeepingIdentitySucceeds | src/application/usecases/UserUseCases/UpdateUserProfileUseCase.js:15-24 | an edit keeping username and email always succeeds on a consistent table |
| ProfileUpdate.UnchangedProfileStillWrites | src/application/usecases/UserUseCases/UpdateUserProfileUseCase.js:18-24 | an edit that changes nothing still succeeds, issues the `update` call and rewrites the row with a new timestamp (and the flag normalised to 0/1) |
| ProfileUpdate.TakenEmailRefused | src/application/usecases/UserUseCases/UpdateUserProfileUseCase.js:18-24 | an edit taking another user's email fails with "Email already exists" and changes nothing |
| UpdateUserProfile.UpdateUserProfileUseCase.constructor | src/application/usecases/UserUseCases/UpdateUserProfileUseCase.js:2-4 | keeps the repository it is given |
| UpdateUserProfile.UpdateUserProfileUseCase.Execute | src/application/usecases/UserUseCases/UpdateUserProfileUseCase.js:6-25 | result, new table and calls are those of `ProfileUpdateRun` |
| UpdateUser.UpdateUserUseCase.constructor | src/application/usecases/UserUseCases/UpdateUserUseCase.js:2-4 | keeps the repository it is given |
| UpdateUser.UpdateUserUseCase.Execute | src/application/usecases/UserUseCases/UpdateUserUseCase.js:6-22 | result, new table and calls are those of `ProfileUpdateRun`, the same as `UpdateUserProfileUseCase.Execute` on equal inputs |

## Left out

- **I/O failures of the pool or driver.** These are the "Database error while fetching …" and "… checking user existence" errors of `findAll`, `findById` and `exists`, and the same errors from other operations. The in-memory table cannot fail.
- **`findByEmail` and `findByUsername`.** No modelled operation uses them.
- **Logging.** `console.log` and `console.error` do not affect control flow.
- **`DatabaseConnection` and the dependency-injection wiring.** They are resource plumbing.
- **JavaScript values other than strings and booleans.** `null`, numbers and objects in the input are not modelled. An attribute is either `undefined` or a value of its column's type.
- **Unicode detail of the regular expression.** The email pattern is taken over Unicode code points, not UTF-16 code units. The two agree for this pattern because white space and `@` are single code units.
- **The `User` entity's internals.** `hasPermission` and `updateProfile` are parameters. `activate`/`deactivate` are assumed to set the flag.
- **Mutating the entity in place.** This is modelled by rebinding a local to a new value. Each use case builds a fresh entity with `new User(...)`, so no other reference can observe the change.
- **Async interleaving and concurrent use cases.** Each call runs to completion.
- **Driver behaviour the code relies on.**
  - An `undefined` bind parameter makes `create` fail. The model assumes this, and maps it to the generic create error.
  - A primary-key clash is reported before a unique-index clash.
  - An email clash is reported before a username clash.
  - `createdAt` and `updatedAt` both take the current timestamp on INSERT.
- UserTable.CreateStep: a failed INSERT leaves the counter as it was. InnoDB may consume the AUTO_INCREMENT value on a duplicate-key failure; the model simplifies this away, and no contract relies on ids being contiguous.
- Activation.ActivateThenDeactivate: proved only for a requester other than the target, for the same reason as below. With a permission check that reads the flag (say, one that grants `manage_users` only to inactive users), a user who activates and then deactivates themselves is refused the second time. `Activation.ActivateThenDeactivateSelf` covers the self case for a check that ignores the flag.
- Activation.ActivateIdempotent: proved only for a requester other than the target. When they are the same user, the first activation rewrites the requester's own row, and `hasPermission`, a parameter of the model, may then answer differently for the updated requester.
- **String comparison.** `ExistsIn` and `Conflict` compare email and username exactly, as a binary collation does. The table definition is not part of this model; under MySQL's default case- and accent-insensitive collation, `exists('BOB@x.com', 'zed')` is true when `bob@x.com` is stored, where the model says false.
- **Failures of external calls.** `bcrypt.hash`, `new User(...)`, `hasPermission` and `updateProfile` are taken never to throw. An exception from one of them would propagate out of `execute` before any write.
- Repositories.UserRepository.FindAll: the order among users with equal `createdAt` is one particular order. The SQL leaves it unspecified, so the contract states only the ordering and the contents.
- CreateUser.CreateUserUseCase.Execute: requires a consistent table, the repository's class invariant; the source has no such precondition, because a real MySQL table always keeps its constraints.
- ActivateUser.ActivateUserUseCase.Execute: requires a consistent table, the repository's class invariant; the source has no such precondition, because a real MySQL table always keeps its constraints.
- DeactivateUser.DeactivateUserUseCase.Execute: requires a consistent table, the repository's class invariant; the source has no such precondition, because a real MySQL table always keeps its constraints.
- UpdateUserProfile.UpdateUserProfileUseCase.Execute: requires a consistent table, the repository's class invariant; the source has no such precondition, because a real MySQL table always keeps its constraints.
- UpdateUser.UpdateUserUseCase.Execute: requires a consistent table, the repository's class invariant; the source has no such precondition, because a real MySQL table always keeps its constraints.
- UserTable.CreateStep / UserTable.UpdateStep: a duplicate is classified by the index the driver names, which is the corrected reading. The code as written searches the whole message for `email` and `username`; that reading is modelled separately by `DuplicateMessage.CreateErrorAsWritten` and `DuplicateMessage.UpdateErrorAsWritten` (see "## Findings"). The repository methods inherit this from the two steps.
- **Calls inside operations.** The call log records only calls made from outside the repository, not the `findById` that `create`, `update` and `delete` make internally.

## Findings

| source | as written | input that shows it | evidently intended | confidence | as-written member | corrected member |
|---|---|---|---|---|---|---|
| src/infrastructure/repositories/UserRepository.js:113-117 | `create` searches the whole driver message for `email`, and the message contains the duplicated value | a stored username `email_fan`, then `create` with that username and a new email: reported as "Email already exists" | report the index the driver names, "Username already exists" | medium (assumes the MySQL 8 `Duplicate entry '<value>' for key '<index>'` text; not executed) | DuplicateMessage.DuplicateValueMisread | DuplicateMessage.ReadingTheIndexIsCorrect |
| src/infrastructure/repositories/UserRepository.js:185-189 | `update` has the same substring test | updating a user's username to another user's username `email_fan`: reported as "Email already exists" | "Username already exists" | medium (same assumption; not executed) | DuplicateMessage.DuplicateValueMisread | DuplicateMessage.ReadingTheIndexIsCorrect |

The rest of the model identifies a duplicate by its index (`UserTable.Thrown`), which is the corrected reading.
