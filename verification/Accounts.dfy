/**
 The multi-tenant account directory as a value, and each operation on it: tenants with their users,
 role lists, activity flags, quotas, and the two lookup indexes. AccountService does the same work
 on objects. Passwords, tokens and profile fields are not part of this model.
 */
module Accounts {
  import opened Basics

  /** A generated identifier; only equality matters. */
  datatype Id = Id(text: string)

  /** What a tenant signed up for; plans the service does not know are kept by name. */
  datatype Plan = Basic | Premium | Other(name: string)

  datatype Permission =
    | ReadContexts | CreateContext | DeleteContext | RunInference
    | ManageUsers | ManageRoles | ManageTenant | ViewMetrics

  datatype Role = ADMIN | USER | MANAGER | VIEWER

  function RolePermissions(role: Role): set<Permission> {
    match role
    case ADMIN => {ReadContexts, CreateContext, DeleteContext, RunInference,
                   ManageUsers, ManageRoles, ManageTenant, ViewMetrics}
    case MANAGER => {ReadContexts, CreateContext, DeleteContext, RunInference, ManageUsers, ViewMetrics}
    case USER => {ReadContexts, CreateContext, RunInference}
    case VIEWER => {ReadContexts, ViewMetrics}
  }

  datatype Member = Member(email: string, tenant: Id, roles: seq<Role>, active: bool) {

    /** Everything some role of the member permits. */
    function Permissions(): set<Permission> {
      PermissionsOf(roles)
    }

    predicate Has(permission: Permission) {
      permission in Permissions()
    }
  }

  function PermissionsOf(roles: seq<Role>): set<Permission> {
    if roles == [] then {} else PermissionsOf(roles[..|roles| - 1]) + RolePermissions(roles[|roles| - 1])
  }

  /** A member may do exactly what at least one of its roles allows. */
  lemma {:induction false} PermissionsAreTheUnion(roles: seq<Role>, p: Permission)
    ensures p in PermissionsOf(roles) <==> exists role :: role in roles && p in RolePermissions(role)
  {
    if roles != [] {
      var front, last := roles[..|roles| - 1], roles[|roles| - 1];
      PermissionsAreTheUnion(front, p);
      assert roles == front + [last];
    }
  }

  datatype Tenancy = Tenancy(name: string, plan: Plan, active: bool, maxContexts: int, maxUsers: int)

  /** What a plan grants; plans the service does not know get the defaults. */
  function NewTenancy(name: string, plan: Plan): Tenancy {
    match plan
    case Basic => Tenancy(name, plan, true, 10, 25)
    case Premium => Tenancy(name, plan, true, 50, 100)
    case Other(_) => Tenancy(name, plan, true, 5, 10)
  }

  /** What the email index is keyed by. */
  datatype Address = Address(tenant: Id, email: string)

  datatype Directory = Directory(
    users: map<Id, Member>, tenants: map<Id, Tenancy>,
    emails: map<Address, Id>, names: map<string, Id>)

  datatype Error =
    | TenantExists | TenantNotFound | UserExists | UserLimitReached
    | UserNotFound | InsufficientPermissions | OtherTenant | LastAdmin

  datatype Outcome = Ok | Err(error: Error)

  // ----- counting -----

  function UsersOf(users: map<Id, Member>, tenant: Id): set<Id> {
    set id | id in users && users[id].tenant == tenant
  }

  function ActiveUsersOf(users: map<Id, Member>, tenant: Id): set<Id> {
    set id | id in users && users[id].tenant == tenant && users[id].active
  }

  predicate IsAdmin(m: Member) {
    ADMIN in m.roles && m.active
  }

  /** The active admins of a tenant. */
  function Admins(users: map<Id, Member>, tenant: Id): set<Id> {
    set id | id in users && users[id].tenant == tenant && IsAdmin(users[id])
  }

  // ----- operations -----

  function RegisterTenant(d: Directory, name: string, plan: Plan, email: string, tenant: Id,
                          admin: Id): (Directory, Outcome) {
    if name in d.names then (d, Err(TenantExists))
    else
      (Directory(d.users[admin := Member(email, tenant, [ADMIN], true)],
                 d.tenants[tenant := NewTenancy(name, plan)],
                 d.emails[Address(tenant, email) := admin],
                 d.names[name := tenant]), Ok)
  }

  function RegisterUser(d: Directory, tenant: Id, email: string, user: Id): (Directory, Outcome) {
    if tenant !in d.tenants then (d, Err(TenantNotFound))
    else if Address(tenant, email) in d.emails then (d, Err(UserExists))
    else if |UsersOf(d.users, tenant)| >= d.tenants[tenant].maxUsers then (d, Err(UserLimitReached))
    else
      (d.(users := d.users[user := Member(email, tenant, [USER], true)],
          emails := d.emails[Address(tenant, email) := user]), Ok)
  }

  /** What every managing operation checks first: the right, the target, the same tenant. */
  function Guard(d: Directory, actor: Member, permission: Permission, target: Id): Outcome {
    if !actor.Has(permission) then Err(InsufficientPermissions)
    else if target !in d.users then Err(UserNotFound)
    else if d.users[target].tenant != actor.tenant then Err(OtherTenant)
    else Ok
  }

  function Update(d: Directory, target: Id, m: Member): Directory {
    d.(users := d.users[target := m])
  }

  function AssignRole(d: Directory, actor: Member, target: Id, role: Role): (Directory, Outcome) {
    var guard := Guard(d, actor, ManageRoles, target);
    if guard.Err? then (d, guard)
    else
      var m := d.users[target];
      (if role in m.roles then d else Update(d, target, m.(roles := m.roles + [role])), Ok)
  }

  function RemoveRole(d: Directory, actor: Member, target: Id, role: Role): (Directory, Outcome) {
    var guard := Guard(d, actor, ManageRoles, target);
    if guard.Err? then (d, guard)
    else
      var m := d.users[target];
      if role == ADMIN && role in m.roles && |Admins(d.users, m.tenant)| <= 1 then (d, Err(LastAdmin))
      else (if role in m.roles then Update(d, target, m.(roles := RemoveFirst(m.roles, role))) else d, Ok)
  }

  function DeactivateUser(d: Directory, actor: Member, target: Id): (Directory, Outcome) {
    var guard := Guard(d, actor, ManageUsers, target);
    if guard.Err? then (d, guard)
    else
      var m := d.users[target];
      if ADMIN in m.roles && |Admins(d.users, m.tenant)| <= 1 then (d, Err(LastAdmin))
      else (Update(d, target, m.(active := false)), Ok)
  }

  function ReactivateUser(d: Directory, actor: Member, target: Id): (Directory, Outcome) {
    var guard := Guard(d, actor, ManageUsers, target);
    if guard.Err? then (d, guard)
    else
      var m := d.users[target];
      if !m.active && m.tenant in d.tenants
         && |ActiveUsersOf(d.users, m.tenant)| >= d.tenants[m.tenant].maxUsers then (d, Err(UserLimitReached))
      else (Update(d, target, m.(active := true)), Ok)
  }

  function DeactivateTenant(d: Directory, actor: Member, tenant: Id): (Directory, Outcome) {
    if !actor.Has(ManageTenant) then (d, Err(InsufficientPermissions))
    else if tenant !in d.tenants then (d, Err(TenantNotFound))
    else if actor.tenant != tenant && ADMIN !in actor.roles then (d, Err(InsufficientPermissions))
    else (d.(tenants := d.tenants[tenant := d.tenants[tenant].(active := false)]), Ok)
  }

  predicate CheckPermission(d: Directory, user: Id, permission: Permission) {
    && user in d.users && d.users[user].active
    && d.users[user].tenant in d.tenants && d.tenants[d.users[user].tenant].active
    && d.users[user].Has(permission)
  }

  // ----- what every operation keeps -----

  predicate NoDuplicates(roles: seq<Role>) {
    forall i, j :: 0 <= i < j < |roles| ==> roles[i] != roles[j]
  }

  /** The email index is in exact correspondence with the users. */
  ghost predicate EmailsExact(users: map<Id, Member>, emails: map<Address, Id>) {
    && (forall key :: key in emails ==> emails[key] in users && AddressOf(users[emails[key]]) == key)
    && (forall id :: id in users ==> AddressOf(users[id]) in emails && emails[AddressOf(users[id])] == id)
  }

  function AddressOf(m: Member): Address {
    Address(m.tenant, m.email)
  }

  /** The name index is in exact correspondence with the tenants. */
  ghost predicate NamesExact(tenants: map<Id, Tenancy>, names: map<string, Id>) {
    && (forall name :: name in names ==> names[name] in tenants && tenants[names[name]].name == name)
    && (forall t :: t in tenants ==> tenants[t].name in names && names[tenants[t].name] == t)
  }

  ghost predicate WellFormed(d: Directory) {
    && (forall id :: id in d.users ==> d.users[id].tenant in d.tenants && NoDuplicates(d.users[id].roles))
    && EmailsExact(d.users, d.emails) && NamesExact(d.tenants, d.names)
  }

  /** Every tenant has an active admin, and no more users than its plan allows, active or not. */
  ghost predicate TenantSound(users: map<Id, Member>, tenant: Id, maxUsers: int) {
    Admins(users, tenant) != {} && |UsersOf(users, tenant)| <= maxUsers
  }

  ghost predicate AllTenantsSound(users: map<Id, Member>, tenants: map<Id, Tenancy>) {
    forall t :: t in tenants ==> TenantSound(users, t, tenants[t].maxUsers)
  }

  ghost predicate Invariant(d: Directory) {
    WellFormed(d) && AllTenantsSound(d.users, d.tenants)
  }

  lemma {:induction false} RemoveFirstRemoves(roles: seq<Role>, role: Role)
    requires NoDuplicates(roles)
    ensures NoDuplicates(RemoveFirst(roles, role))
    ensures forall r :: r in RemoveFirst(roles, role) <==> r in roles && r != role
  {
    if roles != [] {
      assert roles == [roles[0]] + roles[1..];
      if roles[0] == role {
        assert forall r :: r in roles[1..] ==> r in roles;
        assert role !in roles[1..];
      } else {
        RemoveFirstRemoves(roles[1..], role);
        var rest := RemoveFirst(roles[1..], role);
        forall i | 0 <= i < |rest| ensures rest[i] != roles[0] {
          assert rest[i] in roles[1..];
        }
      }
    }
  }

  lemma SubsetSize<T>(a: set<T>, b: set<T>)
    requires a <= b
    ensures |a| <= |b|
    ensures |a| == |b| ==> a == b
  {
    assert b == a + (b - a);
  }
}
