/**
 * The user entity and the tables it works with: the `user_roles` table of
 * (user id, role) rows, the role queries a user answers from it, and the
 * `users` and `user_photos` tables.
 *
 * Queries are functions of the table contents; the operations that insert or
 * delete rows are methods of the classes that hold the tables.
 */
module UserModel {
  import opened Wrappers

  type UserId = nat

  /** A role label as stored in the `role` column: any string. */
  type Role = string

  /** The stored result of hashing a password; hashing itself is a parameter. */
  type PasswordHash = string

  const ADMIN: Role := "admin"
  const DIRECTOR: Role := "director"
  const DEAN: Role := "dean"
  const FACULTY: Role := "faculty"

  /** The order in which the primary role is chosen. */
  const PRIORITY: seq<Role> := [ADMIN, DIRECTOR, DEAN, FACULTY]

  /** One of the four labels the application accepts. */
  predicate IsRoleLabel(r: Role) {
    r == ADMIN || r == DIRECTOR || r == DEAN || r == FACULTY
  }

  // ---------------------------------------------------------------------------
  // The user_roles table
  // ---------------------------------------------------------------------------

  datatype RoleRow = RoleRow(userId: UserId, role: Role)

  /** No (user id, role) pair is stored twice. */
  ghost predicate NoDuplicateRows(rows: seq<RoleRow>) {
    forall i, j :: 0 <= i < j < |rows| ==> rows[i] != rows[j]
  }

  /** Every row belongs to a user id below `bound`. */
  ghost predicate RowsBelow(rows: seq<RoleRow>, bound: nat) {
    forall row :: row in rows ==> row.userId < bound
  }

  /** `roles()`: the role column of the user's rows, in table order. */
  function Roles(rows: seq<RoleRow>, u: UserId): (rs: seq<Role>)
    ensures |rs| <= |rows|
    ensures forall r :: r in rs <==> RoleRow(u, r) in rows
  {
    if rows == [] then []
    else
      assert rows == [rows[0]] + rows[1..];
      (if rows[0].userId == u then [rows[0].role] else []) + Roles(rows[1..], u)
  }

  /** `hasRole`: the user holds `r` exactly when the table has the row (u, r). */
  function HasRole(rows: seq<RoleRow>, u: UserId, r: Role): (b: bool)
    ensures b <==> RoleRow(u, r) in rows
  {
    r in Roles(rows, u)
  }

  /** `hasAnyRole`: true as soon as one of `rs` is held; false for an empty `rs`. */
  method HasAnyRole(rows: seq<RoleRow>, u: UserId, rs: seq<Role>) returns (b: bool)
    ensures b <==> exists r :: r in rs && RoleRow(u, r) in rows
    ensures rs == [] ==> !b
  {
    var userRoles := Roles(rows, u);
    for i := 0 to |rs|
      invariant forall j :: 0 <= j < i ==> RoleRow(u, rs[j]) !in rows
    {
      if rs[i] in userRoles {
        return true;
      }
    }
    return false;
  }

  /**
   * `getPrimaryRole`: the first role of PRIORITY that the user holds; when none
   * of them is held, the first stored role; `None` when the user has no role.
   */
  method GetPrimaryRole(rows: seq<RoleRow>, u: UserId) returns (p: Option<Role>)
    ensures p == None <==> Roles(rows, u) == []
    ensures p.Some? ==> HasRole(rows, u, p.value)
    ensures forall k :: 0 <= k < |PRIORITY| && HasRole(rows, u, PRIORITY[k]) &&
                        (forall j :: 0 <= j < k ==> !HasRole(rows, u, PRIORITY[j])) ==>
                        p == Some(PRIORITY[k])
    ensures ((forall k :: 0 <= k < |PRIORITY| ==> !HasRole(rows, u, PRIORITY[k])) && Roles(rows, u) != [])
            ==> p == Some(Roles(rows, u)[0])
    ensures HasRole(rows, u, ADMIN) ==> p == Some(ADMIN)
  {
    var roles := Roles(rows, u);
    for i := 0 to |PRIORITY|
      invariant forall j :: 0 <= j < i ==> !HasRole(rows, u, PRIORITY[j])
    {
      if PRIORITY[i] in roles {
        assert i > 0 ==> PRIORITY[0] == ADMIN && !HasRole(rows, u, ADMIN);
        return Some(PRIORITY[i]);
      }
    }
    return if |roles| > 0 then Some(roles[0]) else None;
  }

  /** The table after `assignRole(r)`: a row (u, r) is appended unless the user already holds r. */
  function Assigned(rows: seq<RoleRow>, u: UserId, r: Role): (res: seq<RoleRow>)
    ensures rows <= res && |res| <= |rows| + 1
    ensures forall row :: row in res <==> row in rows || row == RoleRow(u, r)
    ensures HasRole(res, u, r)
    ensures HasRole(rows, u, r) ==> res == rows
  {
    if HasRole(rows, u, r) then rows else rows + [RoleRow(u, r)]
  }

  /** The table after `removeRole(r)`: every row (u, r) is deleted, the others stay in order. */
  function Removed(rows: seq<RoleRow>, u: UserId, r: Role): (res: seq<RoleRow>)
    ensures |res| <= |rows|
    ensures forall row :: row in res <==> row in rows && row != RoleRow(u, r)
    ensures !HasRole(res, u, r)
    ensures !HasRole(rows, u, r) ==> res == rows
  {
    if rows == [] then []
    else
      assert rows == [rows[0]] + rows[1..];
      if rows[0] == RoleRow(u, r) then Removed(rows[1..], u, r)
      else [rows[0]] + Removed(rows[1..], u, r)
  }

  lemma {:induction false} RolesAppend(a: seq<RoleRow>, b: seq<RoleRow>, u: UserId)
    ensures Roles(a + b, u) == Roles(a, u) + Roles(b, u)
  {
    if a == [] {
      assert a + b == b;
    } else {
      assert (a + b)[0] == a[0];
      assert (a + b)[1..] == a[1..] + b;
      RolesAppend(a[1..], b, u);
    }
  }

  /** Assigning twice is the same as assigning once. */
  lemma AssignIdempotent(rows: seq<RoleRow>, u: UserId, r: Role)
    ensures Assigned(Assigned(rows, u, r), u, r) == Assigned(rows, u, r)
  {
  }

  /** Assigning keeps the table free of duplicate rows. */
  lemma AssignedNoDuplicates(rows: seq<RoleRow>, u: UserId, r: Role)
    requires NoDuplicateRows(rows)
    ensures NoDuplicateRows(Assigned(rows, u, r))
  {
  }

  /** Removing keeps the table free of duplicate rows. */
  lemma {:induction false} RemovedNoDuplicates(rows: seq<RoleRow>, u: UserId, r: Role)
    requires NoDuplicateRows(rows)
    ensures NoDuplicateRows(Removed(rows, u, r))
  {
    if rows != [] {
      var tail := rows[1..];
      assert NoDuplicateRows(tail) by {
        forall i, j | 0 <= i < j < |tail| ensures tail[i] != tail[j] {
          assert tail[i] == rows[i + 1] && tail[j] == rows[j + 1];
        }
      }
      RemovedNoDuplicates(tail, u, r);
      if rows[0] != RoleRow(u, r) {
        var rest := Removed(tail, u, r);
        assert rows[0] !in tail by {
          forall k | 0 <= k < |tail| ensures tail[k] != rows[0] {
            assert tail[k] == rows[k + 1];
          }
        }
        var res := [rows[0]] + rest;
        forall i, j | 0 <= i < j < |res| ensures res[i] != res[j] {
          if i == 0 {
            assert res[j] == rest[j - 1];
            assert res[j] in rest;
          } else {
            assert res[i] == rest[i - 1] && res[j] == rest[j - 1];
          }
        }
      }
    }
  }

  /** Assigning a role to `u` leaves every other user's roles, in order, as they were. */
  lemma AssignedKeepsOtherUsers(rows: seq<RoleRow>, u: UserId, r: Role, v: UserId)
    requires v != u
    ensures Roles(Assigned(rows, u, r), v) == Roles(rows, v)
  {
    if !HasRole(rows, u, r) {
      RolesAppend(rows, [RoleRow(u, r)], v);
      assert Roles([RoleRow(u, r)], v) == [];
    }
  }

  /** Removing a role from `u` leaves every other user's roles, in order, as they were. */
  lemma {:induction false} RemovedKeepsOtherUsers(rows: seq<RoleRow>, u: UserId, r: Role, v: UserId)
    requires v != u
    ensures Roles(Removed(rows, u, r), v) == Roles(rows, v)
  {
    if rows != [] {
      RemovedKeepsOtherUsers(rows[1..], u, r, v);
      if rows[0] != RoleRow(u, r) {
        var rest := Removed(rows[1..], u, r);
        assert ([rows[0]] + rest)[0] == rows[0];
        assert ([rows[0]] + rest)[1..] == rest;
      }
    }
  }

  /** The `user_roles` table, shared by all users. */
  class RoleTable {
    var rows: seq<RoleRow>

    ghost predicate Valid()
      reads this
    {
      NoDuplicateRows(rows)
    }

    constructor ()
      ensures Valid() && rows == []
    {
      rows := [];
    }

    /** `assignRole`: insert (u, r) unless the user already holds r. */
    method AssignRole(u: UserId, r: Role)
      requires Valid()
      modifies this
      ensures Valid()
      ensures rows == Assigned(old(rows), u, r)
    {
      AssignedNoDuplicates(rows, u, r);
      if !HasRole(rows, u, r) {
        rows := rows + [RoleRow(u, r)];
      }
    }

    /** `removeRole`: delete every row (u, r). */
    method RemoveRole(u: UserId, r: Role)
      requires Valid()
      modifies this
      ensures Valid()
      ensures rows == Removed(old(rows), u, r)
    {
      RemovedNoDuplicates(rows, u, r);
      rows := Removed(rows, u, r);
    }
  }

  // ---------------------------------------------------------------------------
  // The users and user_photos tables
  // ---------------------------------------------------------------------------

  /** A row of the `users` table (the fillable attributes plus the id). */
  datatype User = User(
    id: UserId,
    name: string,
    email: string,
    username: string,
    phone: Option<string>,
    password: PasswordHash,
    isActive: bool,
    departmentId: Option<nat>,
    designationId: Option<nat>)

  /** A row of the `user_photos` table. */
  datatype Photo = Photo(owner: UserId, path: string, isProfilePhoto: bool)

  function Ids(users: seq<User>): set<UserId> {
    set x | x in users :: x.id
  }

  /** Id, email and username each identify at most one user. */
  ghost predicate UniqueKeys(users: seq<User>) {
    forall x, y ::
      (x in users && y in users && (x.id == y.id || x.email == y.email || x.username == y.username))
      ==> x == y
  }

  /** The user with the given id. */
  function UserById(users: seq<User>, id: UserId): (x: User)
    requires id in Ids(users)
    ensures x in users && x.id == id
  {
    if users[0].id == id then users[0] else UserById(users[1..], id)
  }

  /** Some user other than `except` already has this email (`unique:users,email[,id]`). */
  predicate EmailTaken(users: seq<User>, email: string, except: Option<UserId>) {
    exists x :: x in users && x.email == email && Some(x.id) != except
  }

  /** Some user other than `except` already has this username. */
  predicate UsernameTaken(users: seq<User>, username: string, except: Option<UserId>) {
    exists x :: x in users && x.username == username && Some(x.id) != except
  }

  /** The table after saving `rec` over the row with the same id. */
  function Replaced(users: seq<User>, rec: User): (res: seq<User>)
    ensures |res| == |users|
    ensures forall i :: 0 <= i < |users| ==> res[i] == (if users[i].id == rec.id then rec else users[i])
  {
    seq(|users|, i requires 0 <= i < |users| => if users[i].id == rec.id then rec else users[i])
  }

  /** The table after the `is_active` flag of user `id` is negated. */
  function Toggled(users: seq<User>, id: UserId): (res: seq<User>)
    requires id in Ids(users)
    ensures |res| == |users|
    ensures forall i :: 0 <= i < |users| && users[i].id != id ==> res[i] == users[i]
    ensures forall i :: 0 <= i < |users| && users[i].id == id ==>
              res[i] == UserById(users, id).(isActive := !UserById(users, id).isActive)
  {
    var x := UserById(users, id);
    Replaced(users, x.(isActive := !x.isActive))
  }

  /**
   * Saving a record whose email and username no other user has keeps the keys
   * unique and the set of ids as it was.
   */
  lemma ReplacedKeepsKeys(users: seq<User>, rec: User)
    requires UniqueKeys(users) && rec.id in Ids(users)
    requires !EmailTaken(users, rec.email, Some(rec.id)) && !UsernameTaken(users, rec.username, Some(rec.id))
    ensures rec in Replaced(users, rec)
    ensures UniqueKeys(Replaced(users, rec)) && Ids(Replaced(users, rec)) == Ids(users)
  {
    var res := Replaced(users, rec);
    assert rec in res by {
      var y :| y in users && y.id == rec.id;
      var i :| 0 <= i < |users| && users[i] == y;
    }
    forall y | y in res ensures y == rec || (y in users && y.id != rec.id) {
      var i :| 0 <= i < |res| && res[i] == y;
    }
    forall k | k in Ids(users) ensures k in Ids(res) {
      var y :| y in users && y.id == k;
      var i :| 0 <= i < |users| && users[i] == y;
      assert res[i] in res;
    }
  }

  /** Toggling changes the flag of `id` and no other field of any user. */
  lemma ToggledChangesOnlyTheFlag(users: seq<User>, id: UserId)
    requires UniqueKeys(users) && id in Ids(users)
    ensures |Toggled(users, id)| == |users|
    ensures forall i :: 0 <= i < |users| ==>
      Toggled(users, id)[i] == (if users[i].id == id then users[i].(isActive := !users[i].isActive) else users[i])
    ensures UniqueKeys(Toggled(users, id)) && Ids(Toggled(users, id)) == Ids(users)
  {
    var x := UserById(users, id);
    forall i | 0 <= i < |users| && users[i].id == id ensures users[i] == x {
      assert users[i] in users;
    }
    ReplacedKeepsKeys(users, x.(isActive := !x.isActive));
  }

  /** Toggling twice restores the table. */
  lemma ToggleTwiceRestores(users: seq<User>, id: UserId)
    requires UniqueKeys(users) && id in Ids(users)
    ensures id in Ids(Toggled(users, id)) && Toggled(Toggled(users, id), id) == users
  {
    ToggledChangesOnlyTheFlag(users, id);
    var once := Toggled(users, id);
    ToggledChangesOnlyTheFlag(once, id);
    var twice := Toggled(once, id);
    assert |twice| == |users|;
    forall i | 0 <= i < |users| ensures twice[i] == users[i] {
    }
  }

  /** The table with every user of the given id deleted. */
  function UsersWithout(users: seq<User>, id: UserId): (res: seq<User>)
    ensures forall x :: x in res <==> x in users && x.id != id
  {
    if users == [] then []
    else
      assert users == [users[0]] + users[1..];
      (if users[0].id == id then [] else [users[0]]) + UsersWithout(users[1..], id)
  }

  /** The photo table with every photo of `owner` deleted. */
  function PhotosWithout(photos: seq<Photo>, owner: UserId): (res: seq<Photo>)
    ensures forall p :: p in res <==> p in photos && p.owner != owner
  {
    if photos == [] then []
    else
      assert photos == [photos[0]] + photos[1..];
      (if photos[0].owner == owner then [] else [photos[0]]) + PhotosWithout(photos[1..], owner)
  }

  /** The `users` and `user_photos` tables, with the next auto-increment id. */
  class UserStore {
    var users: seq<User>
    var photos: seq<Photo>
    var nextId: nat

    /** Keys are unique, ids were all handed out already, and no photo is orphaned. */
    ghost predicate Valid()
      reads this
    {
      && UniqueKeys(users)
      && (forall x :: x in users ==> x.id < nextId)
      && (forall p :: p in photos ==> p.owner in Ids(users))
    }

    constructor ()
      ensures Valid() && users == [] && photos == [] && nextId == 0
    {
      users, photos, nextId := [], [], 0;
    }

    /** `User::create`: insert `rec` under the next id. */
    method Create(rec: User) returns (id: UserId)
      requires Valid()
      requires !EmailTaken(users, rec.email, None) && !UsernameTaken(users, rec.username, None)
      modifies this
      ensures Valid()
      ensures id == old(nextId) && nextId == old(nextId) + 1
      ensures users == old(users) + [rec.(id := id)] && photos == old(photos)
    {
      id := nextId;
      users := users + [rec.(id := id)];
      nextId := nextId + 1;
    }

    /** `$user->update(...)`: overwrite the row whose id is `rec.id`. */
    method Save(rec: User)
      requires Valid() && rec.id in Ids(users)
      requires !EmailTaken(users, rec.email, Some(rec.id)) && !UsernameTaken(users, rec.username, Some(rec.id))
      modifies this
      ensures Valid()
      ensures users == Replaced(old(users), rec) && photos == old(photos) && nextId == old(nextId)
    {
      ReplacedKeepsKeys(users, rec);
      var res := Replaced(users, rec);
      users := res;
    }

    /** `PhotoService::deleteAllUserPhotos`: delete the photo rows of `owner`. */
    method DeleteAllUserPhotos(owner: UserId)
      requires Valid()
      modifies this
      ensures Valid()
      ensures photos == PhotosWithout(old(photos), owner) && users == old(users) && nextId == old(nextId)
    {
      photos := PhotosWithout(photos, owner);
    }

    /** `$user->delete()`: delete the user row; the user may no longer own photos. */
    method Delete(id: UserId)
      requires Valid()
      requires forall p :: p in photos ==> p.owner != id
      modifies this
      ensures Valid()
      ensures users == UsersWithout(old(users), id) && photos == old(photos) && nextId == old(nextId)
    {
      var res := UsersWithout(users, id);
      forall p | p in photos ensures p.owner in Ids(res) {
        var y :| y in users && y.id == p.owner;
      }
      users := res;
    }
  }
}
