# User-account service, modelled in Dafny

This project models the user-account service of a small Spring/MongoDB
backend (`UserService`): sign-in, self-registration, administrative creation,
delete, read, partial update with a role-change permission gate, and the
legacy password change. The repository behind the service is a key-indexed
user store: a map from record identifier to a record
`{username, passwordHash, roles, img}`, with roles drawn from the closed
enumeration `{ROLE_USER, ROLE_ADMIN}`.

Each operation looks a record up by identifier or by username, checks its
preconditions in a fixed order, and then either fails with one of the typed
errors `NotFound("User")`, `FormError("Password")`, `DuplicatedError("User")`,
`Forbidden`, or changes the store. The store-wide invariant is that no two
records share a username.

Files:

- `user_model.dfy` (module `UserModel`): records, roles, errors, results,
  the username query, and the uniqueness invariant.
- `user_rules.dfy` (module `UserRules`): every operation as a function from
  the store (and, for an insertion, the identifier the repository assigns) to
  its result and the store it leaves behind. It also holds the lemmas that
  relate operations: sign-in after registration, read after delete, and
  preservation of the invariant along any sequence of requests served one
  at a time.
- `user_service.dfy` (module `Service`): the class `UserService`. It holds the
  user map and the next identifier, and runs the state-changing operations in
  place. Each method's postcondition equates its result and new store with
  the corresponding `UserRules` function of the old store. Sign-in and reads
  change nothing, so they are the functions `UserRules.Login` and
  `UserRules.DetailUser` applied to `users`.

Abstractions:

- The password hash and the token signer are parameters of function type
  (`Hasher`, `Signer`). Every contract therefore holds for any deterministic
  hash and any signer.
- The real signer also embeds the issue and expiry time, so two signings of
  the same record differ. The clock is abstracted away: `sign(i, u, addr)`
  stands for "a token signed for record `i` with contents `u` at address
  `addr`", not for one particular string.
- The acting principal's admin status is the explicit parameter `isAdmin` of
  `UpdateUser`. The code reads it from the ambient current user.
- The caller's network address is the string parameter `addr`.
- The repository assigns MongoDB object identifiers to new records. Here
  identifiers are natural numbers drawn from a counter `nextId`, and the
  invariant keeps every stored identifier below it. So a new record always
  gets an identifier that is not yet in the store.

Two behaviours of the code are worth stating plainly:

- `updateUser` signs a token for the updated record after every success,
  whoever the principal is and whichever record was updated.
- The only authorization check is the role gate. Any caller may change
  another record's password or image (`UngatedFieldsAlwaysUpdate`) and may
  rename it to any username no other record holds (`RenameToFreeNameSucceeds`).

## Model

| member | source | states |
|---|---|---|
| `UserModel.FindByUsername` | src/main/java/com/backend/user/UserService.java:42-43 | the username query finds a record exactly when some record holds the name; under unique usernames it finds the only holder |
| `UserRules.Login` | src/main/java/com/backend/user/UserService.java:41-51 | `NotFound("User")` exactly when no record has the username; for the (unique) holder, `FormError("Password")` when `hash(password)` differs from the stored hash, else the token `sign(id, record, addr)`; as a function of the store it changes nothing |
| `UserRules.Register` | src/main/java/com/backend/user/UserService.java:54-64 | `DuplicatedError("User")` exactly when the username is taken, store unchanged; otherwise exactly one new record under the new identifier with `hash(password)`, roles `{ROLE_USER}`, image `""`, all other records intact; unique usernames preserved |
| `UserRules.RolesFor` | src/main/java/com/backend/user/UserService.java:143-148 | the role set for creation is a singleton containing ADMIN iff the admin flag is set |
| `UserRules.Create` | src/main/java/com/backend/user/UserService.java:142-163 | as for registration, with roles `{ROLE_ADMIN}` when the flag is set and `{ROLE_USER}` otherwise; unique usernames preserved |
| `UserRules.Delete` | src/main/java/com/backend/user/UserService.java:72-81 | `NotFound("User")` exactly when the identifier is absent, store unchanged; otherwise `true`, exactly that identifier removed, all other records intact |
| `UserRules.DetailUser` | src/main/java/com/backend/user/UserService.java:83-91 | returns the stored record with its identifier exactly when it exists, else `NotFound("User")` |
| `UserRules.RoleSet` | src/main/java/com/backend/user/UserService.java:111-116 | a requested role installs the singleton set of that role |
| `UserRules.Patch` | src/main/java/com/backend/user/UserService.java:105-135 | partial update: an absent field keeps its value, a supplied role replaces the role set by its singleton, a supplied password is stored as its hash, supplied username and image are stored as given |
| `UserRules.UpdateUser` | src/main/java/com/backend/user/UserService.java:98-138 | error precedence: `NotFound` iff the record is absent; then `Forbidden` iff a role is supplied by a non-admin; then (under unique usernames) `DuplicatedError` iff the new username is held by a different record; no other error occurs, and (under unique usernames) the update succeeds exactly when all three checks pass; on any error the store is unchanged; on success only record `id` changes, to the patched record, and the result is the token signed for it |
| `UserRules.ChangePassword` | src/main/java/com/backend/user/UserService.java:172-186 | `NotFound("User")` iff the identifier is absent; `FormError("Password")` iff `hash(old)` differs from the stored hash; success iff the record exists and `hash(old)` matches; store unchanged on error; on success only that record's hash changes, to `hash(new)`, and the updated record is returned |
| `UserRules.UpdateKeepsUsernamesUnique` | src/main/java/com/backend/user/UserService.java:126-132 | an update never makes two records share a username |
| `UserRules.RenameToOwnNameSucceeds` | src/main/java/com/backend/user/UserService.java:128-131 | renaming a record to its own current username is not a duplicate: the update succeeds when the role gate passes |
| `UserRules.RenameToFreeNameSucceeds` | src/main/java/com/backend/user/UserService.java:126-131 | renaming a record to a username no other record holds succeeds for any principal once the role gate passes, and usernames stay unique |
| `UserRules.UngatedFieldsAlwaysUpdate` | src/main/java/com/backend/user/UserService.java:105-135 | an update that supplies neither role nor username succeeds on any existing record for any principal, and keeps username and roles |
| `UserRules.DetailAfterDeleteFails` | src/main/java/com/backend/user/UserService.java:72-91 | after a successful delete, reading the same identifier gives `NotFound("User")` |
| `UserRules.LoginAfterRegister` | src/main/java/com/backend/user/UserService.java:41-64 | a freshly registered account signs in with its password, and the token is signed for the new record |
| `UserRules.RegisterTwice` | src/main/java/com/backend/user/UserService.java:54-64 | registering a username a second time gives `DuplicatedError("User")`; two different free usernames both register |
| `UserRules.LoginAfterChangePassword` | src/main/java/com/backend/user/UserService.java:172-186 | after a password change the new password signs in, and the old one is refused when the two hash differently |
| `UserRules.StepKeepsConsistent` | src/main/java/com/backend/user/UserService.java:54-186 | every state-changing request keeps usernames unique and stored identifiers below the next one |
| `UserRules.RunKeepsConsistent` | src/main/java/com/backend/user/UserService.java:54-186 | any sequence of requests served one at a time keeps the store consistent |
| `UserRules.AliceAndBob` | src/main/java/com/backend/user/UserService.java:41-163 | the register, sign-in, create-admin and role-change session: wrong password refused, non-admin role change forbidden, admin role change applied |
| `Service.UserService.constructor` | src/main/java/com/backend/user/UserService.java:22-39 | the service starts over an empty, consistent store with the given hash and signer |
| `Service.UserService.LookupUsername` | src/main/java/com/backend/user/UserService.java:57-57 | the repository query returns the record the model's username query names |
| `Service.UserService.SaveNew` | src/main/java/com/backend/user/UserService.java:63-63 | a new record is stored under the next identifier, which then advances; the store stays consistent |
| `Service.UserService.Register` | src/main/java/com/backend/user/UserService.java:54-64 | result and new store are those of `UserRules.Register` on the old store; the store stays consistent |
| `Service.UserService.Create` | src/main/java/com/backend/user/UserService.java:142-163 | result and new store are those of `UserRules.Create`; the store stays consistent |
| `Service.UserService.Delete` | src/main/java/com/backend/user/UserService.java:72-81 | result and new store are those of `UserRules.Delete`; the store stays consistent |
| `Service.UserService.UpdateUser` | src/main/java/com/backend/user/UserService.java:98-138 | the record is patched setter by setter and saved once; result and new store are those of `UserRules.UpdateUser`; the store stays consistent |
| `Service.UserService.ChangePassword` | src/main/java/com/backend/user/UserService.java:172-186 | result and new store are those of `UserRules.ChangePassword`; the store stays consistent |

## Left out

- `getAll` (lines 67-69) returns the whole store; it is the `users` field itself and has no logic.
- The deprecated `update` (lines 165-169) returns null and is dead code.
- The internals of the password hash and the token signer are foreign cryptographic and token code; they are uninterpreted function parameters.
- The `NoSuchAlgorithmException` path of the hash is an environment fault, not a request outcome.
- How the current principal is resolved from the request; its admin status is a parameter.
- The HTTP status carried by the `Forbidden` failure (line 109); it is the `Forbidden` error only.
- Spring wiring, `MongoTemplate`, the injected but unused image repository, and the servlet request (its remote address is the string `addr`).
- Concurrency: the check-then-save of username uniqueness is not atomic in the source. The model serves requests one at a time, which is why uniqueness holds in it.
- UserRules.Login: the result is characterised record by record only when usernames are unique; with duplicate usernames the repository query's choice is left unspecified.
- UserRules.UpdateUser: the duplicate-username case is characterised only when usernames are unique, for the same reason.
