/**
 * Roles and permission bits (app/models.py): `Permission`, `Role`,
 * `Role.insert_roles`, `User.can`, `User.is_administrator` and
 * `AnonymousUser`.
 *
 * The role table is a sequence; a role's id is its position in it. Role
 * names are unique in the schema, and every lemma about the table assumes so.
 */
module Permissions {
  import opened Wrappers

  /** The permission mask the source stores in an integer column; every value it stores fits in 8 bits. */
  type Mask = bv8

  const USE: Mask := 0x01
  const ADMINISTER: Mask := 0x80

  datatype Role = Role(name: string, default: bool, permissions: Mask)

  /** One entry of the role dictionary `insert_roles` seeds. */
  datatype RoleSpec = RoleSpec(name: string, permissions: Mask, default: bool)

  /** The seeded roles: `user` may USE and is the default, `admin` may ADMINISTER. */
  const SeededRoles: seq<RoleSpec> := [RoleSpec("user", USE, true), RoleSpec("admin", ADMINISTER, false)]

  /**
   * The orders in which `insert_roles` may visit its two-entry dictionary:
   * Python 2 does not fix a dictionary's iteration order.
   */
  predicate IsSeedOrder(specs: seq<RoleSpec>) {
    specs == SeededRoles || specs == [SeededRoles[1], SeededRoles[0]]
  }

  // ---------------------------------------------------------------- can

  /** Bit `k` of `m` is set. */
  predicate HasBit(m: Mask, k: nat)
    requires k < 8
  {
    (m >> k) & 1 == 1
  }

  /** `User.can`: the user has a role whose mask contains every bit of `p`. */
  predicate Can(role: Option<Role>, p: Mask) {
    role.Some? && role.value.permissions & p == p
  }

  /** `User.is_administrator`. */
  predicate IsAdministrator(role: Option<Role>) {
    Can(role, ADMINISTER)
  }

  /** The bitmask test is exactly bit-set inclusion. */
  lemma CanIsBitInclusion(role: Option<Role>, p: Mask)
    ensures Can(role, p) <==> role.Some? && forall k: nat :: k < 8 && HasBit(p, k) ==> HasBit(role.value.permissions, k)
  {
    if role.Some? {
      var m := role.value.permissions;
      if forall k: nat :: k < 8 && HasBit(p, k) ==> HasBit(m, k) {
        assert HasBit(p, 0) ==> HasBit(m, 0);
        assert HasBit(p, 1) ==> HasBit(m, 1);
        assert HasBit(p, 2) ==> HasBit(m, 2);
        assert HasBit(p, 3) ==> HasBit(m, 3);
        assert HasBit(p, 4) ==> HasBit(m, 4);
        assert HasBit(p, 5) ==> HasBit(m, 5);
        assert HasBit(p, 6) ==> HasBit(m, 6);
        assert HasBit(p, 7) ==> HasBit(m, 7);
        BitsDetermineMask(m & p, p);
      }
    }
  }

  lemma BitsDetermineMask(a: Mask, b: Mask)
    requires forall k: nat :: k < 8 ==> (HasBit(a, k) <==> HasBit(b, k))
    ensures a == b
  {
    assert HasBit(a, 0) == HasBit(b, 0);
    assert HasBit(a, 1) == HasBit(b, 1);
    assert HasBit(a, 2) == HasBit(b, 2);
    assert HasBit(a, 3) == HasBit(b, 3);
    assert HasBit(a, 4) == HasBit(b, 4);
    assert HasBit(a, 5) == HasBit(b, 5);
    assert HasBit(a, 6) == HasBit(b, 6);
    assert HasBit(a, 7) == HasBit(b, 7);
  }

  /** The seeded roles grant exactly their own bit: an admin cannot USE, a user cannot ADMINISTER. */
  lemma SeededRoleCapabilities(name: string)
    ensures IsAdministrator(Some(Role(name, false, ADMINISTER)))
    ensures !Can(Some(Role(name, false, ADMINISTER)), USE)
    ensures Can(Some(Role(name, true, USE)), USE)
    ensures !IsAdministrator(Some(Role(name, true, USE)))
  {
  }

  /** A user without a role can do nothing, not even the empty permission set. */
  lemma NoRoleNoPermission(p: Mask)
    ensures !Can(None, p)
  {
  }

  // ---------------------------------------------------------------- principals

  /** Who makes a request: the anonymous user, or a signed-in user with their role. */
  datatype Principal = Anonymous | Authenticated(role: Option<Role>)

  /** `can` as dispatched on the principal; `AnonymousUser.can` always refuses. */
  function PrincipalCan(who: Principal, p: Mask): (r: bool)
    ensures who.Anonymous? ==> !r
    ensures who.Authenticated? ==> (r <==> who.role.Some? && who.role.value.permissions & p == p)
  {
    match who
    case Anonymous => false
    case Authenticated(role) => Can(role, p)
  }

  /** `is_administrator` as dispatched on the principal. */
  function PrincipalIsAdministrator(who: Principal): (r: bool)
    ensures r <==> PrincipalCan(who, ADMINISTER)
    ensures who.Anonymous? ==> !r
  {
    match who
    case Anonymous => false
    case Authenticated(role) => IsAdministrator(role)
  }

  // ---------------------------------------------------------------- insert_roles

  /** `Role.query.filter_by(name=...).first()`: the first position holding that name. */
  function FindRole(roles: seq<Role>, name: string): (r: Option<nat>)
    ensures r.Some? ==> r.value < |roles| && roles[r.value].name == name
    ensures r.Some? ==> forall j :: 0 <= j < r.value ==> roles[j].name != name
    ensures r.None? ==> forall j :: 0 <= j < |roles| ==> roles[j].name != name
  {
    if |roles| == 0 then None
    else if roles[0].name == name then Some(0)
    else match FindRole(roles[1..], name)
      case None => None
      case Some(i) => Some(i + 1)
  }

  /** `Role.query.filter_by(default=True).first()`. */
  function FindDefaultRole(roles: seq<Role>): (r: Option<nat>)
    ensures r.Some? ==> r.value < |roles| && roles[r.value].default
    ensures r.Some? ==> forall j :: 0 <= j < r.value ==> !roles[j].default
    ensures r.None? ==> forall j :: 0 <= j < |roles| ==> !roles[j].default
  {
    if |roles| == 0 then None
    else if roles[0].default then Some(0)
    else match FindDefaultRole(roles[1..])
      case None => None
      case Some(i) => Some(i + 1)
  }

  ghost predicate UniqueNames(roles: seq<Role>) {
    forall i, j :: 0 <= i < j < |roles| ==> roles[i].name != roles[j].name
  }

  ghost predicate DistinctSpecNames(specs: seq<RoleSpec>) {
    forall i, j :: 0 <= i < j < |specs| ==> specs[i].name != specs[j].name
  }

  /** The role named `s.name` exists and carries the permissions and default flag of `s`. */
  ghost predicate Holds(roles: seq<Role>, s: RoleSpec) {
    var i := FindRole(roles, s.name);
    i.Some? && roles[i.value].permissions == s.permissions && roles[i.value].default == s.default
  }

  /** One iteration of `insert_roles`: update the named role in place, or append it. */
  function Upsert(roles: seq<Role>, s: RoleSpec): (r: seq<Role>)
    ensures Holds(r, s)
    ensures |r| == if FindRole(roles, s.name).Some? then |roles| else |roles| + 1
    ensures forall j :: 0 <= j < |roles| && roles[j].name != s.name ==> r[j] == roles[j]
    ensures forall j :: 0 <= j < |roles| ==> r[j].name == roles[j].name
    ensures UniqueNames(roles) ==> UniqueNames(r)
  {
    match FindRole(roles, s.name)
    case Some(i) =>
      var r := roles[i := roles[i].(permissions := s.permissions, default := s.default)];
      FindRoleSameNames(roles, r, s.name, i);
      r
    case None =>
      var r := roles + [Role(s.name, s.default, s.permissions)];
      assert FindRole(r, s.name) == Some(|roles|) by { FindRoleAppend(roles, Role(s.name, s.default, s.permissions)); }
      r
  }

  lemma {:induction false} FindRoleAppend(roles: seq<Role>, x: Role)
    requires FindRole(roles, x.name).None?
    ensures FindRole(roles + [x], x.name) == Some(|roles|)
    decreases |roles|
  {
    if |roles| > 0 {
      assert (roles + [x])[1..] == roles[1..] + [x];
      FindRoleAppend(roles[1..], x);
    }
  }

  /** `Role.insert_roles`: upsert every seeded role in turn. */
  function InsertRoles(roles: seq<Role>, specs: seq<RoleSpec>): (r: seq<Role>)
    ensures |r| >= |roles|
    ensures forall j :: 0 <= j < |roles| ==> r[j].name == roles[j].name
    ensures forall j :: 0 <= j < |roles| && (forall i :: 0 <= i < |specs| ==> specs[i].name != roles[j].name) ==> r[j] == roles[j]
    ensures UniqueNames(roles) ==> UniqueNames(r)
    decreases |specs|
  {
    if |specs| == 0 then roles else InsertRoles(Upsert(roles, specs[0]), specs[1..])
  }

  /** Upserting one role keeps every other role's name at the position it had. */
  lemma UpsertKeepsOthers(roles: seq<Role>, s: RoleSpec, t: RoleSpec)
    requires s.name != t.name && Holds(roles, t)
    ensures Holds(Upsert(roles, s), t)
  {
    var r := Upsert(roles, s);
    var i := FindRole(roles, t.name).value;
    assert r[i] == roles[i];
    assert FindRole(r, t.name) == Some(i) by {
      FindRoleSameNames(roles, r, t.name, i);
    }
  }

  lemma FindRoleSameNames(roles: seq<Role>, r: seq<Role>, name: string, i: nat)
    requires |r| >= |roles| && forall j :: 0 <= j < |roles| ==> r[j].name == roles[j].name
    requires FindRole(roles, name) == Some(i)
    ensures FindRole(r, name) == Some(i)
  {
    assert r[i].name == name;
  }

  /** After `insert_roles` every seeded role holds its seeded values, whatever the iteration order. */
  lemma {:induction false} InsertRolesEstablishes(roles: seq<Role>, specs: seq<RoleSpec>)
    requires DistinctSpecNames(specs)
    ensures forall i :: 0 <= i < |specs| ==> Holds(InsertRoles(roles, specs), specs[i])
    decreases |specs|
  {
    if |specs| > 0 {
      var r1 := Upsert(roles, specs[0]);
      InsertRolesEstablishes(r1, specs[1..]);
      assert forall i :: 1 <= i < |specs| ==> specs[i] == specs[1..][i - 1];
      InsertRolesKeeps(r1, specs[1..], specs[0]);
    }
  }

  lemma {:induction false} InsertRolesKeeps(roles: seq<Role>, specs: seq<RoleSpec>, t: RoleSpec)
    requires Holds(roles, t)
    requires forall i :: 0 <= i < |specs| ==> specs[i].name != t.name
    ensures Holds(InsertRoles(roles, specs), t)
    decreases |specs|
  {
    if |specs| > 0 {
      UpsertKeepsOthers(roles, specs[0], t);
      InsertRolesKeeps(Upsert(roles, specs[0]), specs[1..], t);
    }
  }

  /** Upserting a role that already holds its values changes nothing. */
  lemma UpsertNoChange(roles: seq<Role>, s: RoleSpec)
    requires Holds(roles, s)
    ensures Upsert(roles, s) == roles
  {
  }

  lemma {:induction false} InsertRolesNoChange(roles: seq<Role>, specs: seq<RoleSpec>)
    requires forall i :: 0 <= i < |specs| ==> Holds(roles, specs[i])
    ensures InsertRoles(roles, specs) == roles
    decreases |specs|
  {
    if |specs| > 0 {
      UpsertNoChange(roles, specs[0]);
      InsertRolesNoChange(roles, specs[1..]);
    }
  }

  /** `insert_roles` is idempotent: seeding twice leaves the table as seeding once does. */
  lemma InsertRolesIdempotent(roles: seq<Role>, specs: seq<RoleSpec>)
    requires DistinctSpecNames(specs)
    ensures InsertRoles(InsertRoles(roles, specs), specs) == InsertRoles(roles, specs)
  {
    InsertRolesEstablishes(roles, specs);
    InsertRolesNoChange(InsertRoles(roles, specs), specs);
  }

  /** The seeded table, in either iteration order: `user` may USE and is default, `admin` may ADMINISTER and is not. */
  lemma SeedingGrantsRoles(roles: seq<Role>, specs: seq<RoleSpec>)
    requires IsSeedOrder(specs)
    ensures var r := InsertRoles(roles, specs);
      && Holds(r, RoleSpec("user", USE, true))
      && Holds(r, RoleSpec("admin", ADMINISTER, false))
      && Can(Some(r[FindRole(r, "user").value]), USE)
      && !IsAdministrator(Some(r[FindRole(r, "user").value]))
      && IsAdministrator(Some(r[FindRole(r, "admin").value]))
      && !Can(Some(r[FindRole(r, "admin").value]), USE)
  {
    InsertRolesEstablishes(roles, specs);
    if specs == SeededRoles {
      assert specs[0] == RoleSpec("user", USE, true);
      assert specs[1] == RoleSpec("admin", ADMINISTER, false);
    } else {
      assert specs[0] == RoleSpec("admin", ADMINISTER, false);
      assert specs[1] == RoleSpec("user", USE, true);
    }
  }
}
