/**
 * The administrator's account management: creating a user with its roles,
 * updating a user and reconciling its roles against the submitted list,
 * deleting a user after its photos, and toggling the active flag. The acting
 * administrator is an explicit parameter.
 */
module UserManagement {
  import opened Wrappers
  import opened UserModel

  /** A form field the validator can reject. */
  datatype Field =
    | NameField | EmailField | UsernameField | PhoneField | PasswordField
    | RolesField | DepartmentField | DesignationField

  /**
   * The submitted create or edit form. An empty string stands for a field left
   * empty; `isActivePresent` says whether the request carries `is_active` at all.
   */
  datatype UserForm = UserForm(
    name: string,
    email: string,
    username: string,
    phone: Option<string>,
    password: string,
    passwordConfirmation: string,
    roles: seq<Role>,
    isActivePresent: bool,
    departmentId: Option<nat>,
    designationId: Option<nat>)

  /** What the validator asks outside this model: the email format and the `exists:` lookups. */
  datatype Checks = Checks(
    isEmail: string -> bool,
    departmentExists: nat -> bool,
    designationExists: nat -> bool)

  datatype AdminError = ValidationFailed(fields: set<Field>) | SelfDeletionForbidden | SelfToggleForbidden

  datatype Outcome = Done | Refused(error: AdminError)

  /** The password is long enough and matches its confirmation (`min:8|confirmed`). */
  predicate PasswordAcceptable(f: UserForm) {
    |f.password| >= 8 && f.password == f.passwordConfirmation
  }

  /**
   * The rules store and update share. `except` is the record whose own email
   * and username do not count as taken: none for store, the edited user for update.
   */
  function SharedErrors(users: seq<User>, f: UserForm, c: Checks, except: Option<UserId>): (errs: set<Field>)
    ensures PasswordField !in errs
    ensures EmailField !in errs ==> f.email != [] && c.isEmail(f.email) && !EmailTaken(users, f.email, except)
    ensures UsernameField !in errs ==> f.username != [] && !UsernameTaken(users, f.username, except)
    ensures RolesField !in errs <==> f.roles != [] && forall r :: r in f.roles ==> IsRoleLabel(r)
  {
    (if f.name == [] || |f.name| > 255 then {NameField} else {})
    + (if f.email == [] || !c.isEmail(f.email) || EmailTaken(users, f.email, except) then {EmailField} else {})
    + (if f.username == [] || UsernameTaken(users, f.username, except) then {UsernameField} else {})
    + (if f.phone.Some? && |f.phone.value| > 20 then {PhoneField} else {})
    + (if f.roles == [] || (exists r :: r in f.roles && !IsRoleLabel(r)) then {RolesField} else {})
    + (if f.departmentId.Some? && !c.departmentExists(f.departmentId.value) then {DepartmentField} else {})
    + (if f.designationId.Some? && !c.designationExists(f.designationId.value) then {DesignationField} else {})
  }

  /** Validation of `store`: the password is required. */
  function StoreErrors(users: seq<User>, f: UserForm, c: Checks): (errs: set<Field>)
    ensures PasswordField in errs <==> !PasswordAcceptable(f)
    ensures errs == {} <==> SharedErrors(users, f, c, None) == {} && PasswordAcceptable(f)
  {
    SharedErrors(users, f, c, None) + (if !PasswordAcceptable(f) then {PasswordField} else {})
  }

  /** Validation of `update` of user `id`: an empty password is allowed. */
  function UpdateErrors(users: seq<User>, id: UserId, f: UserForm, c: Checks): (errs: set<Field>)
    ensures PasswordField in errs <==> f.password != [] && !PasswordAcceptable(f)
    ensures f.password == [] ==> errs == SharedErrors(users, f, c, Some(id))
  {
    SharedErrors(users, f, c, Some(id)) + (if f.password != [] && !PasswordAcceptable(f) then {PasswordField} else {})
  }

  /** An email already in use makes `store` fail on the email field. */
  lemma StoreRejectsTakenEmail(users: seq<User>, f: UserForm, c: Checks)
    requires exists x :: x in users && x.email == f.email
    ensures EmailField in StoreErrors(users, f, c)
  {
    var x :| x in users && x.email == f.email;
    assert EmailTaken(users, f.email, None);
  }

  /**
   * Keeping one's own email and username passes `update`'s uniqueness rules,
   * while the same values would fail `store`.
   */
  lemma UpdateIgnoresOwnRecord(users: seq<User>, id: UserId, f: UserForm)
    requires UniqueKeys(users) && id in Ids(users)
    requires f.email == UserById(users, id).email && f.username == UserById(users, id).username
    ensures !EmailTaken(users, f.email, Some(id)) && !UsernameTaken(users, f.username, Some(id))
    ensures EmailTaken(users, f.email, None) && UsernameTaken(users, f.username, None)
  {
    var me := UserById(users, id);
    assert Some(me.id) != None;
  }

  /**
   * Whatever `update` rejects, `store` rejects too: ignoring the user's own
   * record only loosens the uniqueness rules, and `update` adds a password
   * error only where `store` has one.
   */
  lemma UpdateNoStricterThanStore(users: seq<User>, id: UserId, f: UserForm, c: Checks)
    ensures UpdateErrors(users, id, f, c) <= StoreErrors(users, f, c)
  {
    assert EmailTaken(users, f.email, Some(id)) ==> EmailTaken(users, f.email, None);
    assert UsernameTaken(users, f.username, Some(id)) ==> UsernameTaken(users, f.username, None);
  }

  /** The record `store` inserts; the table assigns its id. */
  function NewUser(f: UserForm, bcrypt: string -> PasswordHash): (v: User)
    ensures v.name == f.name && v.email == f.email && v.username == f.username && v.phone == f.phone
    ensures v.password == bcrypt(f.password) && v.isActive == f.isActivePresent
    ensures v.departmentId == f.departmentId && v.designationId == f.designationId
  {
    User(0, f.name, f.email, f.username, f.phone, bcrypt(f.password), f.isActivePresent,
         f.departmentId, f.designationId)
  }

  /** The record `update` saves over `u`. */
  function UpdatedUser(u: User, f: UserForm, bcrypt: string -> PasswordHash): (v: User)
    ensures v.id == u.id && v.isActive == f.isActivePresent
    ensures f.password == [] ==> v.password == u.password
    ensures f.password != [] ==> v.password == bcrypt(f.password)
  {
    var password := if f.password != [] then bcrypt(f.password) else u.password;
    u.(name := f.name, email := f.email, username := f.username, phone := f.phone,
       password := password, isActive := f.isActivePresent,
       departmentId := f.departmentId, designationId := f.designationId)
  }

  // ---------------------------------------------------------------------------
  // Role reconciliation
  // ---------------------------------------------------------------------------

  /** The table after calling `removeRole(r)` for each `r` of `rs`, in order, that is not in `keep`. */
  function RemoveEach(rows: seq<RoleRow>, u: UserId, rs: seq<Role>, keep: seq<Role>): (res: seq<RoleRow>)
    ensures forall row :: row in res <==> row in rows && !(row.userId == u && row.role in rs && row.role !in keep)
    decreases |rs|
  {
    if rs == [] then rows
    else
      var init, r := rs[..|rs| - 1], rs[|rs| - 1];
      assert rs == init + [r];
      var before := RemoveEach(rows, u, init, keep);
      if r in keep then before else Removed(before, u, r)
  }

  /** The table after calling `assignRole(r)` for each `r` of `rs`, in order, that is not in `skip`. */
  function AssignEach(rows: seq<RoleRow>, u: UserId, rs: seq<Role>, skip: seq<Role>): (res: seq<RoleRow>)
    ensures rows <= res
    ensures forall row :: row in res <==> row in rows || (row.userId == u && row.role in rs && row.role !in skip)
    ensures forall i :: |rows| <= i < |res| ==> res[i].userId == u && res[i].role in rs && res[i].role !in skip
    decreases |rs|
  {
    if rs == [] then rows
    else
      var init, r := rs[..|rs| - 1], rs[|rs| - 1];
      assert rs == init + [r];
      var before := AssignEach(rows, u, init, skip);
      if r in skip then before else Assigned(before, u, r)
  }

  /**
   * The role table after `update`: the user's current roles that were not
   * submitted are removed, then the submitted roles not currently held are assigned.
   */
  function Reconciled(rows: seq<RoleRow>, u: UserId, newRoles: seq<Role>): (res: seq<RoleRow>)
    ensures forall r :: HasRole(res, u, r) <==> r in newRoles
    ensures forall v, r :: v != u ==> (HasRole(res, v, r) <==> HasRole(rows, v, r))
    ensures forall row :: row in res ==> row in rows || row.userId == u
    ensures var kept := RemoveEach(rows, u, Roles(rows, u), newRoles);
            && kept <= res
            && (forall row :: row in rows && (row.userId != u || row.role in newRoles) ==> row in kept)
            && (forall i :: |kept| <= i < |res| ==>
                  res[i].userId == u && res[i].role in newRoles && !HasRole(rows, u, res[i].role))
  {
    var current := Roles(rows, u);
    AssignEach(RemoveEach(rows, u, current, newRoles), u, newRoles, current)
  }

  lemma {:induction false} RemoveEachKeepsOtherUsers(rows: seq<RoleRow>, u: UserId, rs: seq<Role>, keep: seq<Role>, v: UserId)
    requires v != u
    ensures Roles(RemoveEach(rows, u, rs, keep), v) == Roles(rows, v)
    decreases |rs|
  {
    if rs != [] {
      var init, r := rs[..|rs| - 1], rs[|rs| - 1];
      RemoveEachKeepsOtherUsers(rows, u, init, keep, v);
      RemovedKeepsOtherUsers(RemoveEach(rows, u, init, keep), u, r, v);
    }
  }

  lemma {:induction false} AssignEachKeepsOtherUsers(rows: seq<RoleRow>, u: UserId, rs: seq<Role>, skip: seq<Role>, v: UserId)
    requires v != u
    ensures Roles(AssignEach(rows, u, rs, skip), v) == Roles(rows, v)
    decreases |rs|
  {
    if rs != [] {
      var init, r := rs[..|rs| - 1], rs[|rs| - 1];
      AssignEachKeepsOtherUsers(rows, u, init, skip, v);
      AssignedKeepsOtherUsers(AssignEach(rows, u, init, skip), u, r, v);
    }
  }

  /** Reconciling the roles of `u` leaves the roles of every other user, in order, as they were. */
  lemma ReconciledKeepsOtherUsers(rows: seq<RoleRow>, u: UserId, newRoles: seq<Role>, v: UserId)
    requires v != u
    ensures Roles(Reconciled(rows, u, newRoles), v) == Roles(rows, v)
  {
    var current := Roles(rows, u);
    RemoveEachKeepsOtherUsers(rows, u, current, newRoles, v);
    AssignEachKeepsOtherUsers(RemoveEach(rows, u, current, newRoles), u, newRoles, current, v);
  }

  lemma {:induction false} RemoveEachAllKept(rows: seq<RoleRow>, u: UserId, rs: seq<Role>, keep: seq<Role>)
    requires forall r :: r in rs ==> r in keep
    ensures RemoveEach(rows, u, rs, keep) == rows
    decreases |rs|
  {
    if rs != [] {
      var init := rs[..|rs| - 1];
      assert rs[|rs| - 1] in rs;
      RemoveEachAllKept(rows, u, init, keep);
    }
  }

  lemma {:induction false} AssignEachAllSkipped(rows: seq<RoleRow>, u: UserId, rs: seq<Role>, skip: seq<Role>)
    requires forall r :: r in rs ==> r in skip
    ensures AssignEach(rows, u, rs, skip) == rows
    decreases |rs|
  {
    if rs != [] {
      var init := rs[..|rs| - 1];
      assert rs[|rs| - 1] in rs;
      AssignEachAllSkipped(rows, u, init, skip);
    }
  }

  /** Submitting exactly the roles the user already holds leaves the table untouched. */
  lemma ResubmittingSameRolesChangesNothing(rows: seq<RoleRow>, u: UserId, newRoles: seq<Role>)
    requires forall r :: r in newRoles <==> HasRole(rows, u, r)
    ensures Reconciled(rows, u, newRoles) == rows
  {
    var current := Roles(rows, u);
    RemoveEachAllKept(rows, u, current, newRoles);
    AssignEachAllSkipped(rows, u, newRoles, current);
  }

  // ---------------------------------------------------------------------------
  // Controller actions
  // ---------------------------------------------------------------------------

  /** The invariant the actions keep across the users and role tables. */
  ghost predicate Consistent(store: UserStore, table: RoleTable)
    reads store, table
  {
    store.Valid() && table.Valid() && RowsBelow(table.rows, store.nextId)
  }

  /** The loop of `store`: assign every role of `roles`, in order. */
  method AssignRoles(table: RoleTable, u: UserId, roles: seq<Role>)
    requires table.Valid()
    modifies table
    ensures table.Valid() && table.rows == AssignEach(old(table.rows), u, roles, [])
  {
    ghost var rows0 := table.rows;
    for i := 0 to |roles|
      invariant table.Valid()
      invariant table.rows == AssignEach(rows0, u, roles[..i], [])
    {
      assert roles[..i + 1][..i] == roles[..i];
      table.AssignRole(u, roles[i]);
    }
    assert roles[..|roles|] == roles;
  }

  /** `store`: validate, insert the user, then assign every submitted role. */
  method Store(store: UserStore, table: RoleTable, f: UserForm, c: Checks, bcrypt: string -> PasswordHash)
    returns (r: Result<UserId, AdminError>)
    requires Consistent(store, table)
    modifies store, table
    ensures Consistent(store, table)
    ensures var errs := StoreErrors(old(store.users), f, c);
            if errs != {} then
              r == Err(ValidationFailed(errs)) && unchanged(store, table)
            else
              && r == Ok(old(store.nextId))
              && store.nextId == old(store.nextId) + 1
              && store.users == old(store.users) + [NewUser(f, bcrypt).(id := r.value)]
              && store.photos == old(store.photos)
              && table.rows == AssignEach(old(table.rows), r.value, f.roles, [])
    ensures r.Ok? ==> var x := store.users[|store.users| - 1];
                      x.id == r.value && x.isActive == f.isActivePresent && x.password == bcrypt(f.password)
    ensures r.Ok? ==> (forall role :: HasRole(table.rows, r.value, role) <==> role in f.roles)
    ensures r.Ok? ==> f.roles != [] && forall role :: role in f.roles ==> IsRoleLabel(role)
  {
    var errs := StoreErrors(store.users, f, c);
    if errs != {} {
      return Err(ValidationFailed(errs));
    }
    var id := store.Create(NewUser(f, bcrypt));
    AssignRoles(table, id, f.roles);
    return Ok(id);
  }

  /** The two loops of `update`: remove the current roles not in `newRoles`, then assign the new ones. */
  method ReconcileRoles(table: RoleTable, u: UserId, newRoles: seq<Role>)
    requires table.Valid()
    modifies table
    ensures table.Valid() && table.rows == Reconciled(old(table.rows), u, newRoles)
  {
    var current := Roles(table.rows, u);
    ghost var rows0 := table.rows;
    for i := 0 to |current|
      invariant table.Valid()
      invariant table.rows == RemoveEach(rows0, u, current[..i], newRoles)
    {
      assert current[..i + 1][..i] == current[..i];
      if current[i] !in newRoles {
        table.RemoveRole(u, current[i]);
      }
    }
    assert current[..|current|] == current;

    ghost var rows1 := table.rows;
    for i := 0 to |newRoles|
      invariant table.Valid()
      invariant table.rows == AssignEach(rows1, u, newRoles[..i], current)
    {
      assert newRoles[..i + 1][..i] == newRoles[..i];
      if newRoles[i] !in current {
        table.AssignRole(u, newRoles[i]);
      }
    }
    assert newRoles[..|newRoles|] == newRoles;
  }

  /**
   * `update`: validate, save the fields (keeping the stored password hash when
   * the password is left empty), then reconcile the roles with the submitted list.
   */
  method Update(store: UserStore, table: RoleTable, id: UserId, f: UserForm, c: Checks, bcrypt: string -> PasswordHash)
    returns (r: Outcome)
    requires Consistent(store, table) && id in Ids(store.users)
    modifies store, table
    ensures Consistent(store, table)
    ensures var errs := UpdateErrors(old(store.users), id, f, c);
            if errs != {} then
              r == Refused(ValidationFailed(errs)) && unchanged(store, table)
            else
              && r == Done
              && store.users == Replaced(old(store.users), UpdatedUser(old(UserById(store.users, id)), f, bcrypt))
              && store.photos == old(store.photos) && store.nextId == old(store.nextId)
              && table.rows == Reconciled(old(table.rows), id, f.roles)
    ensures r == Done ==> forall role :: HasRole(table.rows, id, role) <==> role in f.roles
  {
    var errs := UpdateErrors(store.users, id, f, c);
    if errs != {} {
      return Refused(ValidationFailed(errs));
    }
    var user := UserById(store.users, id);
    store.Save(UpdatedUser(user, f, bcrypt));

    ReconcileRoles(table, id, f.roles);
    return Done;
  }

  /** `destroy`: refuse to delete oneself; otherwise delete the user's photos, then the user. */
  method Destroy(store: UserStore, acting: UserId, id: UserId) returns (r: Outcome)
    requires store.Valid() && id in Ids(store.users)
    modifies store
    ensures store.Valid()
    ensures acting == id ==> r == Refused(SelfDeletionForbidden) && unchanged(store)
    ensures acting != id ==>
              && r == Done
              && store.photos == PhotosWithout(old(store.photos), id)
              && store.users == UsersWithout(old(store.users), id)
              && store.nextId == old(store.nextId)
  {
    if acting == id {
      return Refused(SelfDeletionForbidden);
    }
    store.DeleteAllUserPhotos(id);
    store.Delete(id);
    return Done;
  }

  /**
   * `toggleActive`: refuse to toggle oneself; otherwise negate the user's
   * `is_active` flag and report the new value.
   */
  method ToggleActive(store: UserStore, acting: UserId, id: UserId) returns (r: Result<bool, AdminError>)
    requires store.Valid() && id in Ids(store.users)
    modifies store
    ensures store.Valid()
    ensures acting == id ==> r == Err(SelfToggleForbidden) && unchanged(store)
    ensures acting != id ==>
              && r == Ok(!old(UserById(store.users, id)).isActive)
              && store.users == Toggled(old(store.users), id)
              && store.photos == old(store.photos) && store.nextId == old(store.nextId)
  {
    if acting == id {
      return Err(SelfToggleForbidden);
    }
    var user := UserById(store.users, id);
    var flipped := user.(isActive := !user.isActive);
    assert !EmailTaken(store.users, flipped.email, Some(id)) && !UsernameTaken(store.users, flipped.username, Some(id));
    store.Save(flipped);
    return Ok(flipped.isActive);
  }
}
