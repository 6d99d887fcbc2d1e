/**
 The account service on objects: users and tenants whose fields are updated in place, and the two
 indexes. Each method is tied to the operation of Accounts on the directory the objects stand for.
 Acting admins are passed as user objects, as the service's callers do.
 */
module AccountService {
  import opened Basics
  import opened Accounts

  class User {
    const id: Id
    const email: string
    const tenantId: Id
    var roles: seq<Role>
    var isActive: bool

    constructor (id: Id, email: string, tenantId: Id, roles: seq<Role>)
      ensures this.id == id && Value() == Member(email, tenantId, roles, true)
    {
      this.id, this.email, this.tenantId, this.roles, this.isActive := id, email, tenantId, roles, true;
    }

    function Value(): Member
      reads this
    {
      Member(email, tenantId, roles, isActive)
    }

    /** The union of what each role allows, built up role by role. */
    method HasPermission(permission: Permission) returns (has: bool)
      ensures has == Value().Has(permission)
    {
      var all: set<Permission> := {};
      for i := 0 to |roles|
        invariant all == PermissionsOf(roles[..i])
      {
        assert roles[..i + 1][..i] == roles[..i];
        all := all + RolePermissions(roles[i]);
      }
      assert roles[..|roles|] == roles;
      has := permission in all;
    }
  }

  class Tenant {
    const id: Id
    const name: string
    const plan: Plan
    var isActive: bool
    var maxContexts: int
    var maxUsers: int

    constructor (id: Id, name: string, plan: Plan)
      ensures this.id == id && Value() == NewTenancy(name, plan)
    {
      this.id, this.name, this.plan, this.isActive := id, name, plan, true;
      maxContexts, maxUsers := 5, 10;
      if plan == Basic {
        maxContexts, maxUsers := 10, 25;
      } else if plan == Premium {
        maxContexts, maxUsers := 50, 100;
      }
    }

    function Value(): Tenancy
      reads this
    {
      Tenancy(name, plan, isActive, maxContexts, maxUsers)
    }
  }

  class AuthService {
    var users: map<Id, User>
    var tenants: map<Id, Tenant>
    var userEmailIndex: map<Address, Id>
    var tenantNameIndex: map<string, Id>

    constructor ()
      ensures Valid() && users == map[] && tenants == map[]
      ensures Directory() == Accounts.Directory(map[], map[], map[], map[])
    {
      users, tenants, userEmailIndex, tenantNameIndex := map[], map[], map[], map[];
    }

    /** Every record is stored under its own id, so no two ids share a record. */
    ghost predicate Valid()
      reads this
    {
      && (forall id :: id in users ==> users[id].id == id)
      && (forall id :: id in tenants ==> tenants[id].id == id)
    }

    function Directory(): Accounts.Directory
      reads this, users.Values, tenants.Values
    {
      Accounts.Directory(map id | id in users :: users[id].Value(), map id | id in tenants :: tenants[id].Value(),
                         userEmailIndex, tenantNameIndex)
    }

    method RegisterTenant(name: string, plan: Plan, adminEmail: string, tenantId: Id, adminId: Id)
      returns (outcome: Outcome)
      requires Valid()
      modifies this
      ensures Valid()
      ensures (Directory(), outcome)
           == Accounts.RegisterTenant(old(Directory()), name, plan, adminEmail, tenantId, adminId)
    {
      if name in tenantNameIndex {
        return Err(TenantExists);
      }
      var tenant := new Tenant(tenantId, name, plan);
      var adminUser := new User(adminId, adminEmail, tenantId, [ADMIN]);
      StoreTenant(tenant);
      StoreUser(adminUser);
      return Ok;
    }

    method RegisterUser(tenantId: Id, email: string, userId: Id) returns (outcome: Outcome)
      requires Valid()
      modifies this
      ensures Valid()
      ensures (Directory(), outcome) == Accounts.RegisterUser(old(Directory()), tenantId, email, userId)
    {
      outcome := CheckRegistration(tenantId, email);
      if outcome.Err? {
        return;
      }
      var user := new User(userId, email, tenantId, [USER]);
      StoreUser(user);
    }

    /** The refusals of a user registration, in the order they are tried. */
    method CheckRegistration(tenantId: Id, email: string) returns (outcome: Outcome)
      ensures forall userId :: outcome == Accounts.RegisterUser(Directory(), tenantId, email, userId).1
    {
      if tenantId !in tenants {
        return Err(TenantNotFound);
      }
      if Address(tenantId, email) in userEmailIndex {
        return Err(UserExists);
      }
      var tenantUsersCount := CountUsers(tenantId);
      if tenantUsersCount >= tenants[tenantId].maxUsers {
        return Err(UserLimitReached);
      }
      return Ok;
    }

    method StoreTenant(tenant: Tenant)
      requires Valid()
      modifies `tenants, `tenantNameIndex
      ensures Valid()
      ensures var d, t := old(Directory()), tenant.Value();
        Directory() == d.(tenants := d.tenants[tenant.id := t], names := d.names[t.name := tenant.id])
    {
      ghost var before := Directory();
      tenants := tenants[tenant.id := tenant];
      tenantNameIndex := tenantNameIndex[tenant.name := tenant.id];
      assert Directory().tenants == before.tenants[tenant.id := tenant.Value()];
    }

    method StoreUser(user: User)
      requires Valid()
      modifies `users, `userEmailIndex
      ensures Valid()
      ensures var d, m := old(Directory()), user.Value();
        Directory() == d.(users := d.users[user.id := m], emails := d.emails[AddressOf(m) := user.id])
    {
      ghost var before := Directory();
      users := users[user.id := user];
      userEmailIndex := userEmailIndex[Address(user.tenantId, user.email) := user.id];
      assert Directory().users == before.users[user.id := user.Value()];
    }

    method AssignRole(userId: Id, role: Role, adminUser: User) returns (outcome: Outcome)
      requires Valid()
      modifies users.Values
      ensures Valid()
      ensures (Directory(), outcome) == Accounts.AssignRole(old(Directory()), old(adminUser.Value()), userId, role)
    {
      outcome := CheckGuard(userId, ManageRoles, adminUser);
      if outcome.Err? {
        return;
      }
      var user := users[userId];
      if role !in user.roles {
        SetRoles(userId, user.roles + [role]);
      }
    }

    method RemoveRole(userId: Id, role: Role, adminUser: User) returns (outcome: Outcome)
      requires Valid()
      modifies users.Values
      ensures Valid()
      ensures (Directory(), outcome) == Accounts.RemoveRole(old(Directory()), old(adminUser.Value()), userId, role)
    {
      outcome := CheckRemoval(userId, role, adminUser);
      if outcome.Err? {
        return;
      }
      var user := users[userId];
      if role in user.roles {
        SetRoles(userId, RemoveFirst(user.roles, role));
      }
    }

    method CheckRemoval(userId: Id, role: Role, adminUser: User) returns (outcome: Outcome)
      ensures outcome == Accounts.RemoveRole(Directory(), adminUser.Value(), userId, role).1
    {
      outcome := CheckGuard(userId, ManageRoles, adminUser);
      if outcome.Ok? && role == ADMIN && role in users[userId].roles {
        var tenantAdmins := CountAdmins(users[userId].tenantId);
        if tenantAdmins <= 1 {
          outcome := Err(LastAdmin);
        }
      }
    }

    method DeactivateUser(userId: Id, adminUser: User) returns (outcome: Outcome)
      requires Valid()
      modifies users.Values
      ensures Valid()
      ensures (Directory(), outcome) == Accounts.DeactivateUser(old(Directory()), old(adminUser.Value()), userId)
    {
      outcome := CheckDeactivation(userId, adminUser);
      if outcome.Ok? {
        SetActive(userId, false);
      }
    }

    method CheckDeactivation(userId: Id, adminUser: User) returns (outcome: Outcome)
      ensures outcome == Accounts.DeactivateUser(Directory(), adminUser.Value(), userId).1
    {
      outcome := CheckGuard(userId, ManageUsers, adminUser);
      if outcome.Ok? && ADMIN in users[userId].roles {
        var tenantAdmins := CountAdmins(users[userId].tenantId);
        if tenantAdmins <= 1 {
          outcome := Err(LastAdmin);
        }
      }
    }

    method ReactivateUser(userId: Id, adminUser: User) returns (outcome: Outcome)
      requires Valid()
      modifies users.Values
      ensures Valid()
      ensures (Directory(), outcome) == Accounts.ReactivateUser(old(Directory()), old(adminUser.Value()), userId)
    {
      outcome := CheckReactivation(userId, adminUser);
      if outcome.Ok? {
        SetActive(userId, true);
      }
    }

    /** A user's tenant is always stored; AccountRuns shows why its look-up cannot fail. */
    method CheckReactivation(userId: Id, adminUser: User) returns (outcome: Outcome)
      ensures outcome == Accounts.ReactivateUser(Directory(), adminUser.Value(), userId).1
    {
      outcome := CheckGuard(userId, ManageUsers, adminUser);
      if outcome.Ok? && !users[userId].isActive && users[userId].tenantId in tenants {
        var activeTenantUsers := CountActiveUsers(users[userId].tenantId);
        if activeTenantUsers >= tenants[users[userId].tenantId].maxUsers {
          outcome := Err(UserLimitReached);
        }
      }
    }

    method SetRoles(userId: Id, roles: seq<Role>)
      requires Valid() && userId in users
      modifies users[userId]
      ensures Directory() == Update(old(Directory()), userId, old(users[userId].Value()).(roles := roles))
    {
      ghost var before := Directory();
      users[userId].roles := roles;
      UserUpdated(userId, before);
    }

    method SetActive(userId: Id, active: bool)
      requires Valid() && userId in users
      modifies users[userId]
      ensures Directory() == Update(old(Directory()), userId, old(users[userId].Value()).(active := active))
    {
      ghost var before := Directory();
      users[userId].isActive := active;
      UserUpdated(userId, before);
    }

    method DeactivateTenant(tenantId: Id, adminUser: User) returns (outcome: Outcome)
      requires Valid()
      modifies tenants.Values
      ensures Valid()
      ensures (Directory(), outcome) == Accounts.DeactivateTenant(old(Directory()), old(adminUser.Value()), tenantId)
    {
      var permitted := adminUser.HasPermission(ManageTenant);
      if !permitted {
        return Err(InsufficientPermissions);
      }
      if tenantId !in tenants {
        return Err(TenantNotFound);
      }
      if adminUser.tenantId != tenantId && ADMIN !in adminUser.roles {
        return Err(InsufficientPermissions);
      }
      ghost var before := Directory();
      tenants[tenantId].isActive := false;
      assert Directory().users == before.users;
      assert Directory().tenants == before.tenants[tenantId := tenants[tenantId].Value()];
      return Ok;
    }

    method CheckPermission(userId: Id, permission: Permission) returns (ok: bool)
      requires Valid()
      ensures ok == Accounts.CheckPermission(Directory(), userId, permission)
    {
      if userId !in users || !users[userId].isActive {
        return false;
      }
      var user := users[userId];
      if user.tenantId !in tenants || !tenants[user.tenantId].isActive {
        return false;
      }
      ok := user.HasPermission(permission);
    }

    /** Changing at most one user object changes at most that record of the directory. */
    lemma UserUpdated(userId: Id, before: Accounts.Directory)
      requires userId in users && before.users.Keys == users.Keys && before.tenants == Directory().tenants
      requires forall id :: id in users && id != userId ==> users[id].Value() == before.users[id]
      ensures Directory().users == before.users[userId := users[userId].Value()]
    {
    }

    /** The three checks every managing operation makes first. */
    method CheckGuard(userId: Id, permission: Permission, adminUser: User) returns (outcome: Outcome)
      ensures outcome == Guard(Directory(), adminUser.Value(), permission, userId)
    {
      var permitted := adminUser.HasPermission(permission);
      if !permitted {
        return Err(InsufficientPermissions);
      }
      if userId !in users {
        return Err(UserNotFound);
      }
      if users[userId].tenantId != adminUser.tenantId {
        return Err(OtherTenant);
      }
      return Ok;
    }

    method CountUsers(tenantId: Id) returns (count: nat)
      ensures count == |UsersOf(Directory().users, tenantId)|
    {
      count := 0;
      ghost var counted: set<Id> := {};
      var rest := users.Keys;
      while rest != {}
        invariant rest <= users.Keys
        invariant counted == set id | id in users && id !in rest && users[id].tenantId == tenantId
        invariant count == |counted|
        decreases rest
      {
        var id :| id in rest;
        rest := rest - {id};
        if users[id].tenantId == tenantId {
          count := count + 1;
          counted := counted + {id};
        }
      }
      assert counted == UsersOf(Directory().users, tenantId);
    }

    method CountActiveUsers(tenantId: Id) returns (count: nat)
      ensures count == |ActiveUsersOf(Directory().users, tenantId)|
    {
      count := 0;
      ghost var counted: set<Id> := {};
      var rest := users.Keys;
      while rest != {}
        invariant rest <= users.Keys
        invariant counted == set id | id in users && id !in rest && users[id].tenantId == tenantId && users[id].isActive
        invariant count == |counted|
        decreases rest
      {
        var id :| id in rest;
        rest := rest - {id};
        if users[id].tenantId == tenantId && users[id].isActive {
          count := count + 1;
          counted := counted + {id};
        }
      }
      assert counted == ActiveUsersOf(Directory().users, tenantId);
    }

    method CountAdmins(tenantId: Id) returns (count: nat)
      ensures count == |Admins(Directory().users, tenantId)|
    {
      count := 0;
      ghost var counted: set<Id> := {};
      var rest := users.Keys;
      while rest != {}
        invariant rest <= users.Keys
        invariant counted == set id |
            id in users && id !in rest && users[id].tenantId == tenantId
            && ADMIN in users[id].roles && users[id].isActive
        invariant count == |counted|
        decreases rest
      {
        var id :| id in rest;
        rest := rest - {id};
        if users[id].tenantId == tenantId && ADMIN in users[id].roles && users[id].isActive {
          count := count + 1;
          counted := counted + {id};
        }
      }
      assert counted == Admins(Directory().users, tenantId);
    }
  }
}
