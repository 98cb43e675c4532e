/**
 * Role-based login: the login form for a chosen role, the ordered chain of
 * checks a login goes through, the dashboard a successful login leads to,
 * and the session that moves between anonymous and authenticated.
 *
 * `Hash::check` is the parameter `check`, an arbitrary predicate on the
 * submitted password and the stored hash.
 */
module Login {
  import opened Wrappers
  import opened UserModel

  /** The submitted login form; an empty string is a field left empty. */
  datatype Credentials = Credentials(username: string, password: string, role: string)

  datatype LoginField = UsernameInput | PasswordInput | RoleInput

  datatype LoginError =
    | ValidationFailed(fields: set<LoginField>)
    | InvalidCredentials
    | AccountInactive
    | RoleNotHeld(role: Role)

  /** The named routes a response can redirect to. */
  datatype Route = LoginSelection | AdminDashboard | DirectorDashboard | DeanDashboard | FacultyDashboard

  datatype LoginResult = LoggedIn(user: UserId, target: Route) | Rejected(error: LoginError)

  /** Who the session belongs to. */
  datatype AuthState = Anonymous | Authenticated(user: UserId)

  /** What `showLoginForm` answers: the form for a role, or a redirect back with a message. */
  datatype FormView = LoginForm(role: Role) | BackToSelection(message: string)

  /** `showLoginForm`: only the four role labels get a login form. */
  function ShowLoginForm(role: string): (v: FormView)
    ensures v.LoginForm? <==> IsRoleLabel(role)
    ensures v.LoginForm? ==> v.role == role
    ensures v.BackToSelection? ==> v.message == "Invalid role selected"
  {
    if IsRoleLabel(role) then LoginForm(role) else BackToSelection("Invalid role selected")
  }

  /** The role each dashboard route requires through its `role:` middleware. */
  function RequiredRole(t: Route): (r: Option<Role>)
    ensures r.Some? <==> t != LoginSelection
    ensures r.Some? ==> IsRoleLabel(r.value)
  {
    match t
    case FacultyDashboard => Some(FACULTY)
    case DeanDashboard => Some(DEAN)
    case DirectorDashboard => Some(DIRECTOR)
    case AdminDashboard => Some(ADMIN)
    case LoginSelection => None
  }

  /**
   * `redirectToDashboard`: a role label leads to the dashboard that requires
   * exactly that role; anything else leads back to the role selection.
   */
  function RedirectToDashboard(role: string): (t: Route)
    ensures IsRoleLabel(role) ==> RequiredRole(t) == Some(role)
    ensures !IsRoleLabel(role) ==> t == LoginSelection
  {
    if role == ADMIN then AdminDashboard
    else if role == DIRECTOR then DirectorDashboard
    else if role == DEAN then DeanDashboard
    else if role == FACULTY then FacultyDashboard
    else LoginSelection
  }

  /** Distinct role labels lead to distinct dashboards. */
  lemma DashboardsAreDistinct(r1: Role, r2: Role)
    requires IsRoleLabel(r1) && IsRoleLabel(r2) && r1 != r2
    ensures RedirectToDashboard(r1) != RedirectToDashboard(r2)
  {
    assert RequiredRole(RedirectToDashboard(r1)) != RequiredRole(RedirectToDashboard(r2));
  }

  /** The login form's validation: all three fields are required, the role must be a label. */
  function CredentialErrors(c: Credentials): (errs: set<LoginField>)
    ensures errs == {} <==> c.username != [] && c.password != [] && IsRoleLabel(c.role)
  {
    (if c.username == [] then {UsernameInput} else {})
    + (if c.password == [] then {PasswordInput} else {})
    + (if !IsRoleLabel(c.role) then {RoleInput} else {})
  }

  /** `User::where('username', name)->first()`. */
  function FirstWithUsername(users: seq<User>, name: string): (r: Option<User>)
    ensures r.Some? ==> r.value in users && r.value.username == name
    ensures r.None? <==> forall x :: x in users ==> x.username != name
  {
    if users == [] then None
    else
      assert users == [users[0]] + users[1..];
      if users[0].username == name then Some(users[0])
      else FirstWithUsername(users[1..], name)
  }

  /**
   * `login`: validation, then user and password, then the active flag, then the
   * selected role; success leads to the dashboard of the selected role.
   */
  function Attempt(users: seq<User>, rows: seq<RoleRow>, c: Credentials, check: (string, PasswordHash) -> bool)
    : (r: LoginResult)
    ensures r.LoggedIn? ==>
              && CredentialErrors(c) == {}
              && (exists x :: x in users && x.id == r.user && x.username == c.username &&
                              check(c.password, x.password) && x.isActive)
              && HasRole(rows, r.user, c.role)
              && r.target == RedirectToDashboard(c.role) && RequiredRole(r.target) == Some(c.role)
    ensures r == Rejected(AccountInactive) ==>
              exists x :: x in users && x.username == c.username && check(c.password, x.password) && !x.isActive
    ensures r.Rejected? && r.error.RoleNotHeld? ==>
              && r.error.role == c.role
              && exists x :: x in users && x.username == c.username && check(c.password, x.password) &&
                             x.isActive && !HasRole(rows, x.id, c.role)
  {
    var errs := CredentialErrors(c);
    if errs != {} then Rejected(ValidationFailed(errs))
    else
      match FirstWithUsername(users, c.username)
      case None => Rejected(InvalidCredentials)
      case Some(x) =>
        if !check(c.password, x.password) then Rejected(InvalidCredentials)
        else if !x.isActive then Rejected(AccountInactive)
        else if !HasRole(rows, x.id, c.role) then Rejected(RoleNotHeld(c.role))
        else LoggedIn(x.id, RedirectToDashboard(c.role))
  }

  /**
   * With unique usernames, a login succeeds exactly when the form is valid and
   * some user with that username has a matching password, is active and holds
   * the selected role; the session then belongs to that user.
   */
  lemma LoginSucceedsIff(users: seq<User>, rows: seq<RoleRow>, c: Credentials, check: (string, PasswordHash) -> bool)
    requires UniqueKeys(users)
    ensures Attempt(users, rows, c, check).LoggedIn? <==>
              && c.username != [] && c.password != [] && IsRoleLabel(c.role)
              && exists x :: x in users && x.username == c.username && check(c.password, x.password) &&
                             x.isActive && RoleRow(x.id, c.role) in rows
    ensures forall x :: x in users && x.username == c.username && Attempt(users, rows, c, check).LoggedIn? ==>
              Attempt(users, rows, c, check).user == x.id
  {
    var r := Attempt(users, rows, c, check);
    var m := FirstWithUsername(users, c.username);
    if m.Some? {
      forall x | x in users && x.username == c.username ensures x == m.value {
      }
    }
  }

  /** An unknown username and a wrong password are reported with the same error. */
  lemma UnknownUserAndWrongPasswordLookAlike(users: seq<User>, rows: seq<RoleRow>, c: Credentials,
                                             check: (string, PasswordHash) -> bool)
    requires UniqueKeys(users) && CredentialErrors(c) == {}
    ensures (forall x :: x in users ==> x.username != c.username) ==>
              Attempt(users, rows, c, check) == Rejected(InvalidCredentials)
    ensures (exists x :: x in users && x.username == c.username && !check(c.password, x.password)) ==>
              Attempt(users, rows, c, check) == Rejected(InvalidCredentials)
    ensures Message(InvalidCredentials) == "Invalid username or password"
  {
    var m := FirstWithUsername(users, c.username);
    if x :| x in users && x.username == c.username && !check(c.password, x.password) {
      assert m.Some? && m.value == x;
    }
  }

  /**
   * An inactive user with the right password is told the account is inactive,
   * whatever roles the user holds: the active check comes before the role check.
   */
  lemma InactiveCheckedBeforeRole(users: seq<User>, rows: seq<RoleRow>, c: Credentials,
                                  check: (string, PasswordHash) -> bool, x: User)
    requires UniqueKeys(users) && CredentialErrors(c) == {}
    requires x in users && x.username == c.username && check(c.password, x.password) && !x.isActive
    ensures Attempt(users, rows, c, check) == Rejected(AccountInactive)
  {
    var m := FirstWithUsername(users, c.username);
    assert m.Some? && m.value == x;
  }

  /**
   * An active user with the right password who does not hold the selected role
   * is told which role is missing.
   */
  lemma MissingRoleReported(users: seq<User>, rows: seq<RoleRow>, c: Credentials,
                            check: (string, PasswordHash) -> bool, x: User)
    requires UniqueKeys(users) && CredentialErrors(c) == {}
    requires x in users && x.username == c.username && check(c.password, x.password) && x.isActive
    requires RoleRow(x.id, c.role) !in rows
    ensures Attempt(users, rows, c, check) == Rejected(RoleNotHeld(c.role))
    ensures Message(RoleNotHeld(c.role)) == "You do not have the " + Ucfirst(c.role) + " role"
  {
    var m := FirstWithUsername(users, c.username);
    assert m.Some? && m.value == x;
  }

  /**
   * After an administrator deactivates an active user, that user's correct
   * credentials no longer log in: the attempt fails as inactive.
   */
  lemma DeactivatedUserCannotLogin(users: seq<User>, rows: seq<RoleRow>, id: UserId, c: Credentials,
                                   check: (string, PasswordHash) -> bool)
    requires UniqueKeys(users) && id in Ids(users) && UserById(users, id).isActive
    requires CredentialErrors(c) == {}
    requires c.username == UserById(users, id).username && check(c.password, UserById(users, id).password)
    ensures Attempt(Toggled(users, id), rows, c, check) == Rejected(AccountInactive)
  {
    var x := UserById(users, id);
    ToggledChangesOnlyTheFlag(users, id);
    var after := Toggled(users, id);
    var i :| 0 <= i < |users| && users[i] == x;
    assert after[i] == x.(isActive := false);
    assert after[i] in after;
    InactiveCheckedBeforeRole(after, rows, c, check, after[i]);
  }

  /** PHP's `ucfirst`: the first character upper-cased when it is an ASCII letter. */
  function Ucfirst(s: string): (t: string)
    ensures |t| == |s| && (s != [] ==> t[1..] == s[1..])
    ensures s != [] && 'a' <= s[0] <= 'z' ==> t[0] as int == s[0] as int - 32
    ensures s != [] && !('a' <= s[0] <= 'z') ==> t == s
  {
    if s != [] && 'a' <= s[0] <= 'z' then [(s[0] as int - 32) as char] + s[1..] else s
  }

  /**
   * The message shown under the username field when a check after validation
   * fails. A failed validation instead reports each failing field with the
   * validator's own texts.
   */
  function Message(e: LoginError): (m: string)
    requires !e.ValidationFailed?
    ensures e == InvalidCredentials ==> m == "Invalid username or password"
    ensures e == AccountInactive ==> m == "Your account is inactive"
    ensures e.RoleNotHeld? ==> m == "You do not have the " + Ucfirst(e.role) + " role"
  {
    match e
    case InvalidCredentials => "Invalid username or password"
    case AccountInactive => "Your account is inactive"
    case RoleNotHeld(role) => "You do not have the " + Ucfirst(role) + " role"
  }

  /** The three failures after validation are told apart by their messages, whatever the role. */
  lemma MessagesDistinct(role: Role)
    ensures Message(InvalidCredentials) != Message(AccountInactive)
    ensures Message(RoleNotHeld(role)) != Message(InvalidCredentials)
    ensures Message(RoleNotHeld(role)) != Message(AccountInactive)
  {
    var m := Message(RoleNotHeld(role));
    assert m[0] == 'Y' && m[3] == ' ';
    assert Message(InvalidCredentials)[0] == 'I';
    assert Message(AccountInactive)[3] == 'r';
  }

  /** The session of one browser. */
  class Session {
    var state: AuthState

    constructor ()
      ensures state == Anonymous
    {
      state := Anonymous;
    }

    /**
     * `login` on a guest session: only a successful attempt authenticates the
     * session, for the user it found; every failure leaves it anonymous.
     */
    method Login(users: seq<User>, rows: seq<RoleRow>, c: Credentials, check: (string, PasswordHash) -> bool)
      returns (r: LoginResult)
      requires state == Anonymous
      modifies this
      ensures r == Attempt(users, rows, c, check)
      ensures state == if r.LoggedIn? then Authenticated(r.user) else Anonymous
    {
      r := Attempt(users, rows, c, check);
      if r.LoggedIn? {
        state := Authenticated(r.user);
      }
    }

    /** `logout`: the session is anonymous again, and the browser returns to the role selection. */
    method Logout() returns (t: Route)
      modifies this
      ensures state == Anonymous && t == LoginSelection
    {
      state := Anonymous;
      t := LoginSelection;
    }
  }
}
