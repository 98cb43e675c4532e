# Role bookkeeping, account management and role-based login

This project models the decision logic of a role-gated administration
application (Laravel/PHP). It has four parts:
- Each user holds roles through a shared `user_roles` table of
  `(user_id, role)` rows, and the role queries are answered from that table.
- Administrators create, edit, delete and (de)activate accounts, and an edit
  reconciles the user's roles with the submitted list.
- A login goes through an ordered chain of checks and leads to the dashboard
  of the role chosen on the login form.
- The session moves between anonymous and authenticated.

Modules:
- `Wrappers` (`wrappers.dfy`): `Option` (PHP `null`) and `Result`.
- `UserModel` (`user_model.dfy`) stands for `app/Models/User.php`. Roles are
  strings, as in the `role` column, so the primary-role fallback for an
  unknown label is kept. The queries `Roles`, `HasRole`, `HasAnyRole` and
  `GetPrimaryRole` read the role table's contents. The class `RoleTable`
  holds the table as a `seq<RoleRow>`. Its methods `AssignRole` and
  `RemoveRole` insert or delete rows, and they are specified by the functions
  `Assigned` and `Removed`. The class `UserStore` holds the `users` and
  `user_photos` tables and the next auto-increment id. Its invariant says that
  ids, emails and usernames are unique, that every id was handed out before,
  and that no photo is orphaned.
- `UserManagement` (`user_management.dfy`) stands for
  `app/Http/Controllers/Admin/UserManagementController.php`: validation
  outcome, `Store`, `Update` with role reconciliation, `Destroy` and
  `ToggleActive`. The acting administrator (`auth()->user()`) is a parameter.
  The loops of `update` are specified by `RemoveEach`, `AssignEach` and
  `Reconciled`. Each of these folds the loop from the end of its list.
- `Login` (`login.dfy`) stands for
  `app/Http/Controllers/Auth/LoginController.php`:
  - `ShowLoginForm`;
  - the pure decision `Attempt`;
  - `RedirectToDashboard`, paired with `RequiredRole`. `RequiredRole` encodes
    the dashboard routes' `role:` middleware (routes/web.php:19-33).
  - the `Session` class, with `Login` and `Logout`.

External parts become parameters:
- `Hash::check` is the predicate `check`.
- `bcrypt` is the function `bcrypt`.
- The validator's email-format test and its `exists:` lookups are the three
  functions of `Checks`.

Three modelling choices follow the code directly:
- Roles are free strings, not a closed enumeration. The `role` column is a
  string, `assignRole` accepts any string, and `getPrimaryRole` falls back to
  the first stored role when none of the four labels is held.
- A refused delete or toggle is an error value, not an exception. The
  controller answers with a redirect and a flash message, and changes nothing.
- `store` and `update` run their steps one after another. Neither action opens
  a database transaction.

## Model

| member | source | states |
|---|---|---|
| `UserModel.Roles` | app/Models/User.php:65-68 | the user's roles are exactly the roles of the table rows carrying the user's id, and there are no more of them than rows |
| `UserModel.HasRole` | app/Models/User.php:73-76 | true exactly when the table holds the row (user, role) |
| `UserModel.HasAnyRole` | app/Models/User.php:81-90 | true exactly when some listed role is held; false for an empty list |
| `UserModel.GetPrimaryRole` | app/Models/User.php:119-131 | the first role of admin, director, dean, faculty that is held; admin whenever admin is held; otherwise the first stored role; null exactly when the user holds no role; a returned role is always held |
| `UserModel.Assigned` | app/Models/User.php:95-103 | assigning keeps every old row in place, appends at most one row, makes the role held, and changes nothing when the role was already held |
| `UserModel.Removed` | app/Models/User.php:108-113 | removing deletes exactly the rows (user, role), so the role is no longer held; every other row stays; when the role was not held the table does not change |
| `UserModel.AssignIdempotent` | app/Models/User.php:95-103 | assigning the same role twice gives the same table as assigning it once |
| `UserModel.AssignedNoDuplicates` | app/Models/User.php:97-102 | assigning keeps the table free of duplicate (user, role) rows |
| `UserModel.RemovedNoDuplicates` | app/Models/User.php:110-112 | removing keeps the table free of duplicate rows |
| `UserModel.AssignedKeepsOtherUsers` | app/Models/User.php:97-102 | every other user's role list, in order, is unchanged by an assignment |
| `UserModel.RemovedKeepsOtherUsers` | app/Models/User.php:110-112 | every other user's role list, in order, is unchanged by a removal |
| `UserModel.RoleTable.AssignRole` | app/Models/User.php:95-103 | the table becomes `Assigned` of the old table and stays free of duplicates |
| `UserModel.RoleTable.RemoveRole` | app/Models/User.php:108-113 | the table becomes `Removed` of the old table and stays free of duplicates |
| `UserModel.UserById` | app/Http/Controllers/Admin/UserManagementController.php:102 | the record bound to the route's user id is a row of the table with that id |
| `UserModel.Replaced` | app/Http/Controllers/Admin/UserManagementController.php:130 | saving a record overwrites the row with the same id and leaves every other row alone |
| `UserModel.ReplacedKeepsKeys` | app/Http/Controllers/Admin/UserManagementController.php:106-107 | saving a record whose email and username no other user has keeps ids, emails and usernames unique and keeps the set of ids |
| `UserModel.ToggledChangesOnlyTheFlag` | app/Http/Controllers/Admin/UserManagementController.php:179 | toggling negates the target's `is_active` and changes no other field of any user, and keys stay unique |
| `UserModel.Toggled` | app/Http/Controllers/Admin/UserManagementController.php:179 | toggling negates the flag of every row with the target's id and leaves every other row as it was; `ToggledChangesOnlyTheFlag` adds that keys and ids are kept |
| `UserModel.ToggleTwiceRestores` | app/Http/Controllers/Admin/UserManagementController.php:179 | toggling the same user twice restores the users table |
| `UserModel.UsersWithout` | app/Http/Controllers/Admin/UserManagementController.php:165 | after deletion the table holds exactly the users with another id |
| `UserModel.PhotosWithout` | app/Http/Controllers/Admin/UserManagementController.php:163 | after deleting a user's photos, exactly the photos of other owners remain |
| `UserModel.UserStore.Create` | app/Http/Controllers/Admin/UserManagementController.php:68 | inserts the record under the next id, so ids are never reused, and keeps the table invariant |
| `UserModel.UserStore.Save` | app/Http/Controllers/Admin/UserManagementController.php:130 | the users table becomes `Replaced` of the old one; photos and the id counter are unchanged |
| `UserModel.UserStore.DeleteAllUserPhotos` | app/Http/Controllers/Admin/UserManagementController.php:163 | the photo table loses exactly the owner's photos; users are unchanged |
| `UserModel.UserStore.Delete` | app/Http/Controllers/Admin/UserManagementController.php:165 | the user row is deleted, but only once the user owns no photo, so no photo is orphaned |
| `UserManagement.StoreRejectsTakenEmail` | app/Http/Controllers/Admin/UserManagementController.php:49 | creating a user with an email already in use fails validation on the email field |
| `UserManagement.UpdateIgnoresOwnRecord` | app/Http/Controllers/Admin/UserManagementController.php:106-107 | on update, the user's own email and username do not count as taken, while the same values count as taken for store |
| `UserManagement.SharedErrors` | app/Http/Controllers/Admin/UserManagementController.php:47-58 | passing the shared rules means a non-empty, well-formed email and a non-empty username that no other user has, and a non-empty role list of the four labels; the password is not among these rules |
| `UserManagement.StoreErrors` | app/Http/Controllers/Admin/UserManagementController.php:47-58 | `store` fails on the password exactly when it is shorter than 8 characters or does not match its confirmation; the form passes exactly when the shared rules pass with no record ignored and the password is acceptable |
| `UserManagement.UpdateErrors` | app/Http/Controllers/Admin/UserManagementController.php:104-115 | `update` fails on the password exactly when a non-empty password is not acceptable; an empty password adds no error, so only the shared rules, ignoring the edited user, decide |
| `UserManagement.UpdateNoStricterThanStore` | app/Http/Controllers/Admin/UserManagementController.php:104-115 | every field `update` rejects, `store` rejects for the same form |
| `UserManagement.NewUser` | app/Http/Controllers/Admin/UserManagementController.php:60-68 | the inserted record carries the submitted fields, the hashed password in place of the plain one, and `is_active` set from the field's presence |
| `UserManagement.UpdatedUser` | app/Http/Controllers/Admin/UserManagementController.php:117-123 | an empty password keeps the stored hash and a non-empty one is replaced by its hash; `is_active` is whether the field was sent; the id stays |
| `UserManagement.RemoveEach` | app/Http/Controllers/Admin/UserManagementController.php:136-140 | the first loop deletes exactly the user's rows whose role is current and not submitted |
| `UserManagement.AssignEach` | app/Http/Controllers/Admin/UserManagementController.php:143-147 | the second loop only appends rows; it adds exactly the missing rows for roles that were submitted and are not skipped |
| `UserManagement.Reconciled` | app/Http/Controllers/Admin/UserManagementController.php:133-147 | afterwards the user holds exactly the submitted roles; other users hold what they held; no row of another user is added; rows for roles both current and submitted stay in the untouched prefix and are not re-added |
| `UserManagement.RemoveEachKeepsOtherUsers` | app/Http/Controllers/Admin/UserManagementController.php:136-140 | the removal loop leaves every other user's role list, in order, unchanged |
| `UserManagement.AssignEachKeepsOtherUsers` | app/Http/Controllers/Admin/UserManagementController.php:143-147 | the assignment loop leaves every other user's role list, in order, unchanged |
| `UserManagement.ReconciledKeepsOtherUsers` | app/Http/Controllers/Admin/UserManagementController.php:133-147 | reconciling one user's roles leaves every other user's role list, in order, unchanged |
| `UserManagement.RemoveEachAllKept` | app/Http/Controllers/Admin/UserManagementController.php:137 | when every current role is also submitted, the removal loop changes nothing |
| `UserManagement.AssignEachAllSkipped` | app/Http/Controllers/Admin/UserManagementController.php:144 | when every submitted role is already current, the assignment loop changes nothing |
| `UserManagement.ResubmittingSameRolesChangesNothing` | app/Http/Controllers/Admin/UserManagementController.php:133-147 | submitting exactly the roles already held leaves the role table as it was |
| `UserManagement.AssignRoles` | app/Http/Controllers/Admin/UserManagementController.php:71-73 | the store loop leaves the table equal to assigning each submitted role in order |
| `UserManagement.Store` | app/Http/Controllers/Admin/UserManagementController.php:45-76 | a failed validation changes nothing. Otherwise the user is inserted under a fresh id, the id counter advances by one, and the record has the hashed password and `is_active` set from the field's presence. The new user then holds exactly the submitted roles, which are a non-empty list of the four labels. The table invariants are kept. |
| `UserManagement.ReconcileRoles` | app/Http/Controllers/Admin/UserManagementController.php:133-147 | the two loops leave the table equal to `Reconciled` of the old table, free of duplicates |
| `UserManagement.Update` | app/Http/Controllers/Admin/UserManagementController.php:102-150 | a failed validation changes nothing. Otherwise the record is saved with the password rule of `UpdatedUser`, and afterwards the user's roles are exactly the submitted ones. Photos and ids stay unchanged, and the table invariants are kept. |
| `UserManagement.Destroy` | app/Http/Controllers/Admin/UserManagementController.php:155-168 | deleting oneself is refused and changes nothing. Otherwise the target's photos are deleted first, then the target's row, and no photo is left orphaned. |
| `UserManagement.ToggleActive` | app/Http/Controllers/Admin/UserManagementController.php:173-183 | toggling oneself is refused and changes nothing; otherwise only the target's `is_active` is negated and the new value is reported |
| `Login.ShowLoginForm` | app/Http/Controllers/Auth/LoginController.php:24-33 | the login form is shown exactly for the four role labels; any other value goes back to the selection with "Invalid role selected" |
| `Login.RedirectToDashboard` | app/Http/Controllers/Auth/LoginController.php:81-95 | a role label leads to the dashboard whose `role:` middleware requires exactly that label; anything else leads to the login selection |
| `Login.RequiredRole` | routes/web.php:19-33 | each of the four dashboard routes requires one of the four role labels, and the login selection requires none |
| `Login.DashboardsAreDistinct` | app/Http/Controllers/Auth/LoginController.php:81-95 | distinct role labels lead to distinct dashboards |
| `Login.CredentialErrors` | app/Http/Controllers/Auth/LoginController.php:40-44 | the login form validates exactly when username and password are non-empty and the role is one of the four labels |
| `Login.FirstWithUsername` | app/Http/Controllers/Auth/LoginController.php:47 | a found user has this username; nothing is found exactly when no user has it |
| `Login.Attempt` | app/Http/Controllers/Auth/LoginController.php:38-76 | success means a user with that username exists, the password matches, the account is active and the selected role is held, and it leads to that role's dashboard. The inactive error means the credentials were right. The missing-role error means the credentials were right and the account active. |
| `Login.LoginSucceedsIff` | app/Http/Controllers/Auth/LoginController.php:47-75 | with unique usernames, login succeeds if and only if the form is valid and some user with that username has a matching password, is active and holds the selected role; the session is then that user's |
| `Login.UnknownUserAndWrongPasswordLookAlike` | app/Http/Controllers/Auth/LoginController.php:50-54 | an unknown username and a wrong password give the same error, "Invalid username or password" |
| `Login.InactiveCheckedBeforeRole` | app/Http/Controllers/Auth/LoginController.php:56-68 | an inactive user with the right password gets the inactive error whatever the role table holds |
| `Login.MissingRoleReported` | app/Http/Controllers/Auth/LoginController.php:63-68 | an active user with the right password who does not hold the selected role gets "You do not have the <Role> role" |
| `Login.DeactivatedUserCannotLogin` | app/Http/Controllers/Auth/LoginController.php:56-61 | after an administrator toggles an active user off, that user's correct credentials fail with the inactive error |
| `Login.Ucfirst` | app/Http/Controllers/Auth/LoginController.php:66 | the first character is upper-cased when it is an ASCII lower-case letter; the length and the rest are kept |
| `Login.Message` | app/Http/Controllers/Auth/LoginController.php:50-68 | the texts reported under the username field for a wrong username or password, an inactive account and a missing role; a validation failure has no such text |
| `Login.MessagesDistinct` | app/Http/Controllers/Auth/LoginController.php:50-68 | the three texts differ from one another for every role, so the user can tell the failures apart |
| `Login.Session.Login` | app/Http/Controllers/Auth/LoginController.php:70-75 | on a guest session, only a successful attempt authenticates the session, for the user found; every failure leaves it anonymous |
| `Login.Session.Logout` | app/Http/Controllers/Auth/LoginController.php:100-107 | logging out always leaves the session anonymous and leads to the login selection |

## Left out

- Profile photo URL and existence checks (`getProfilePhotoUrlAttribute`, `hasProfilePhoto`): these are file-system calls and swallowed exceptions.
- `PhotoService` is not part of this model. `deleteAllUserPhotos` is modelled only as deleting the owner's photo rows. The rule of at most one profile photo per user is that service's concern, so it is not part of the store invariant.
- bcrypt and `Hash::check` are cryptographic library calls. They are the parameters `bcrypt` and `check`, with no property assumed.
- Listing, show, create and edit actions only render views, paginate or load relations.
- Eloquent relationships (`department`, `designation`, `photos`, `profilePhoto`) are ORM wiring. The `exists:` checks are the abstract `Checks.departmentExists` and `Checks.designationExists`.
- Validation internals are left out: the email format (abstract `Checks.isEmail`), string trimming and conversion of empty strings to null, the `string` type rules, and the value check of the `boolean` rule on `is_active`. A field is modelled as left empty by an empty string, and the validator's outcome is modelled as the set of failing fields. The texts of Laravel's validation messages are not modelled.
- `Update`: a nullable field missing from the request entirely (not just empty) leaves the stored value in place in Laravel. The model treats every submitted form as carrying all fields.
- Uniqueness and username lookup compare strings exactly. Case-insensitive database collations are not modelled.
- `HasRole`, `HasAnyRole`, `GetPrimaryRole`: PHP's `in_array` compares loosely. The model uses string equality, which agrees for the non-numeric labels the application stores.
- Success flash messages of the admin actions ("User created successfully" and the like) are not modelled. Refusals are the error values `SelfDeletionForbidden` and `SelfToggleForbidden`, and `ToggleActive` reports the new flag, which picks "activated" or "deactivated".
- `Destroy`: the controller does not delete the user's `user_roles` rows. Whether the database cascades that deletion depends on a migration that is not part of this model, so the model keeps the rows. Ids are never reused (`UserStore.nextId`), so such rows never attach to a later user.
- Session id regeneration, token regeneration and CSRF are framework I/O. The session is the two-state `AuthState`.
- The `guest` middleware on the login route (routes/web.php:15) is the precondition of `Session.Login` that the session is anonymous.
- The `role:` and `auth` middleware is not part of this model. Only its dashboard-to-role pairs are encoded (`RequiredRole`). So the gap between the role chosen at login and the roles checked by route middleware is not modelled.
- Transactions and concurrent requests are left out: the code has neither. Each action runs alone, and a failure in the middle of an action is not modelled.
- `Update`, `Destroy`, `ToggleActive` require that the user id is in the table. This stands for Laravel's route-model binding of `User $user` (app/Http/Controllers/Admin/UserManagementController.php:102, :155, :173), which answers 404 before the controller runs.
- A failed login validation (app/Http/Controllers/Auth/LoginController.php:40-44) redirects back with the validator's own message for each failing field. The model reports the set of failing fields (`ValidationFailed`) and has no text for it.
- `routes/web.php` is otherwise a declarative route table with no logic to verify.
