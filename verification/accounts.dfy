/**
 * The `User` row of app/models.py and the lookups the views perform on the
 * user table.
 *
 * Password hashing is a library call; it is represented by `HashOf(pw)`, an
 * injective tag, so that `verify_password(pw)` holds exactly for the
 * password last set. Salting is not represented.
 */
module Accounts {
  import opened Wrappers
  import opened Permissions

  datatype PasswordHash = NoPassword | HashOf(password: string)

  /**
   * A user row. `roleId` is a position in the role table; ids of users are
   * their position in the user table plus one.
   */
  datatype User = User(
    id: nat,
    email: string,
    username: string,
    passwordHash: PasswordHash,
    confirmed: bool,
    roleId: Option<nat>,
    name: string,
    location: string,
    aboutMe: string)

  /** `User.verify_password`. */
  predicate VerifyPassword(u: User, password: string) {
    u.passwordHash == HashOf(password)
  }

  /** The `password` setter: stores the hash of the new password. */
  function SetPassword(u: User, password: string): (r: User)
    ensures VerifyPassword(r, password)
    ensures forall other :: other != password ==> !VerifyPassword(r, other)
    ensures r.(passwordHash := u.passwordHash) == u
  {
    u.(passwordHash := HashOf(password))
  }

  /** `User.role`, resolved through the role table. */
  function RoleOf(roles: seq<Role>, u: User): (r: Option<Role>)
    ensures r.Some? <==> u.roleId.Some? && u.roleId.value < |roles|
    ensures r.Some? ==> r.value == roles[u.roleId.value]
  {
    if u.roleId.Some? && u.roleId.value < |roles| then Some(roles[u.roleId.value]) else None
  }

  /** `User.can`: the role the user's role id refers to grants every bit of `p`. */
  predicate UserCan(roles: seq<Role>, u: User, p: Mask) {
    Can(RoleOf(roles, u), p)
  }

  /** `User.is_administrator`. */
  predicate UserIsAdministrator(roles: seq<Role>, u: User) {
    UserCan(roles, u, ADMINISTER)
  }

  /** A user whose role id is unset or refers to no role is refused every permission. */
  lemma NoRoleRowNoPermission(roles: seq<Role>, u: User, p: Mask)
    requires u.roleId.None? || u.roleId.value >= |roles|
    ensures !UserCan(roles, u, p) && !UserIsAdministrator(roles, u)
  {
  }

  /** `User.query.filter_by(email=...).first()`, as a position in the table. */
  function FindByEmail(users: seq<User>, email: string): (r: Option<nat>)
    ensures r.Some? ==> r.value < |users| && users[r.value].email == email
    ensures r.Some? ==> forall j :: 0 <= j < r.value ==> users[j].email != email
    ensures r.None? <==> forall j :: 0 <= j < |users| ==> users[j].email != email
  {
    if |users| == 0 then None
    else if users[0].email == email then Some(0)
    else match FindByEmail(users[1..], email)
      case None => None
      case Some(i) => Some(i + 1)
  }

  /** `User.query.filter_by(username=...).first()`, as a position in the table. */
  function FindByUsername(users: seq<User>, username: string): (r: Option<nat>)
    ensures r.Some? ==> r.value < |users| && users[r.value].username == username
    ensures r.Some? ==> forall j :: 0 <= j < r.value ==> users[j].username != username
    ensures r.None? <==> forall j :: 0 <= j < |users| ==> users[j].username != username
  {
    if |users| == 0 then None
    else if users[0].username == username then Some(0)
    else match FindByUsername(users[1..], username)
      case None => None
      case Some(i) => Some(i + 1)
  }

  predicate EmailTaken(users: seq<User>, email: string) {
    FindByEmail(users, email).Some?
  }

  predicate UsernameTaken(users: seq<User>, username: string) {
    FindByUsername(users, username).Some?
  }

  /**
   * The role `User.__init__` gives a new user: the explicitly passed role
   * if any; otherwise the `admin` role when the email is the configured
   * administrator address and that role exists; otherwise the first role
   * marked default, if one exists.
   */
  function InitialRole(roles: seq<Role>, explicit: Option<nat>, email: string, adminEmail: string): (r: Option<nat>)
    ensures explicit.Some? ==> r == explicit
    ensures explicit.None? && email == adminEmail && FindRole(roles, "admin").Some? ==> r == FindRole(roles, "admin")
    ensures explicit.None? && (email != adminEmail || FindRole(roles, "admin").None?) ==> r == FindDefaultRole(roles)
  {
    if explicit.Some? then explicit
    else
      var fromAdmin := if email == adminEmail then FindRole(roles, "admin") else None;
      if fromAdmin.Some? then fromAdmin else FindDefaultRole(roles)
  }

  /**
   * On a freshly seeded table (where no role was marked default before),
   * whichever order the roles were seeded in, a new user without an
   * explicit role gets the `user` role, and so may USE, unless their email
   * is the administrator's, in which case they get `admin` and may
   * ADMINISTER.
   */
  lemma InitialRoleAfterSeeding(roles: seq<Role>, specs: seq<RoleSpec>, u: User, adminEmail: string)
    requires UniqueNames(roles)
    requires forall j :: 0 <= j < |roles| ==> !roles[j].default
    requires IsSeedOrder(specs)
    ensures var seeded := InsertRoles(roles, specs);
      var nu := u.(roleId := InitialRole(seeded, None, u.email, adminEmail));
      && RoleOf(seeded, nu).Some?
      && RoleOf(seeded, nu).value.name == (if u.email == adminEmail then "admin" else "user")
      && (u.email == adminEmail <==> UserIsAdministrator(seeded, nu))
      && (u.email != adminEmail <==> UserCan(seeded, nu, USE))
  {
    var seeded := InsertRoles(roles, specs);
    SeedingGrantsRoles(roles, specs);
    var v := FindRole(seeded, "user").value;
    forall j | 0 <= j < |seeded| && seeded[j].default
      ensures j == v
    {
      SeededDefaultIsUser(roles, specs, j);
    }
    assert FindDefaultRole(seeded) == Some(v);
  }

  /** After seeding a table without defaults, only a role named `user` is default. */
  lemma SeededDefaultIsUser(roles: seq<Role>, specs: seq<RoleSpec>, j: nat)
    requires UniqueNames(roles)
    requires forall j :: 0 <= j < |roles| ==> !roles[j].default
    requires IsSeedOrder(specs)
    requires j < |InsertRoles(roles, specs)| && InsertRoles(roles, specs)[j].default
    ensures InsertRoles(roles, specs)[j].name == "user"
  {
    var r := InsertRoles(roles, specs);
    SeedingGrantsRoles(roles, specs);
    if j >= |roles| {
      SeededTail(roles, specs, j);
    } else {
      assert r[j] != roles[j];
      assert specs[0].name in {"user", "admin"} && specs[1].name in {"user", "admin"};
    }
    assert forall i :: 0 <= i < |r| && r[i].name == "admin" ==> i == FindRole(r, "admin").value;
  }

  /** A role `insert_roles` appends is one of the seeded names. */
  lemma SeededTail(roles: seq<Role>, specs: seq<RoleSpec>, j: nat)
    requires IsSeedOrder(specs)
    requires |roles| <= j < |InsertRoles(roles, specs)|
    ensures InsertRoles(roles, specs)[j].name in {"user", "admin"}
  {
    var r1 := Upsert(roles, specs[0]);
    var r2 := Upsert(r1, specs[1]);
    assert InsertRoles(roles, specs) == InsertRoles(r1, specs[1..]);
    assert specs[1..][1..] == [];
    assert InsertRoles(r1, specs[1..]) == r2;
  }
}
