/**
 Who may change what in the account directory: which roles carry a permission, exactly when each
 operation succeeds and what it then leaves, and which decisions the roles and the activity of every
 stored user go back to.
 */
module AccountAuthority {
  import opened Basics
  import opened Accounts
  import opened AccountRuns
  import opened AccountClosure

  // ----- the permission table by its columns -----

  /** The roles that carry a permission. */
  function RolesWith(p: Permission): set<Role> {
    match p
    case ReadContexts => {ADMIN, MANAGER, USER, VIEWER}
    case CreateContext => {ADMIN, MANAGER, USER}
    case RunInference => {ADMIN, MANAGER, USER}
    case ViewMetrics => {ADMIN, MANAGER, VIEWER}
    case DeleteContext => {ADMIN, MANAGER}
    case ManageUsers => {ADMIN, MANAGER}
    case ManageRoles => {ADMIN}
    case ManageTenant => {ADMIN}
  }

  /** A member may do exactly what one of its roles carries. */
  lemma PermittedExactly(m: Member, p: Permission)
    ensures m.Has(p) <==> exists role :: role in m.roles && role in RolesWith(p)
  {
    PermissionsAreTheUnion(m.roles, p);
    forall role: Role ensures p in RolePermissions(role) <==> role in RolesWith(p) {
    }
  }

  lemma AdminsManageRoles(m: Member)
    ensures m.Has(ManageRoles) <==> ADMIN in m.roles
  {
    PermittedExactly(m, ManageRoles);
  }

  predicate Manages(m: Member) {
    ADMIN in m.roles || MANAGER in m.roles
  }

  lemma ManagersManageUsers(m: Member)
    ensures m.Has(ManageUsers) <==> Manages(m)
  {
    PermittedExactly(m, ManageUsers);
    assert Manages(m) ==> exists role :: role in m.roles && role in RolesWith(ManageUsers);
  }

  /** A check is answered yes exactly for an active user of an active tenant with a role that carries the permission. */
  lemma CheckedExactly(d: Directory, user: Id, p: Permission)
    ensures CheckPermission(d, user, p) <==>
      && user in d.users && d.users[user].active
      && d.users[user].tenant in d.tenants && d.tenants[d.users[user].tenant].active
      && exists role :: role in d.users[user].roles && role in RolesWith(p)
  {
    if user in d.users {
      PermittedExactly(d.users[user], p);
    }
  }

  // ----- what each operation needs and leaves -----

  predicate IsActiveAdmin(users: map<Id, Member>, id: Id, tenant: Id) {
    id in users && users[id].tenant == tenant && users[id].active && ADMIN in users[id].roles
  }

  /** Somebody could go and an active admin would be left. */
  ghost predicate TwoAdmins(users: map<Id, Member>, tenant: Id) {
    exists a, b :: a != b && IsActiveAdmin(users, a, tenant) && IsActiveAdmin(users, b, tenant)
  }

  lemma TwoAdminsCounted(users: map<Id, Member>, tenant: Id)
    ensures |Admins(users, tenant)| > 1 <==> TwoAdmins(users, tenant)
  {
    var admins := Admins(users, tenant);
    if a, b :| a != b && IsActiveAdmin(users, a, tenant) && IsActiveAdmin(users, b, tenant) {
      SubsetSize({a, b}, admins);
    }
    if |admins| > 1 {
      var a :| a in admins;
      assert |admins - {a}| == |admins| - 1;
      var b :| b in admins - {a};
      assert IsActiveAdmin(users, a, tenant) && IsActiveAdmin(users, b, tenant);
    }
  }

  predicate InReach(d: Directory, actor: Member, target: Id) {
    target in d.users && d.users[target].tenant == actor.tenant
  }

  /** Nothing but this user's roles and activity differs. */
  ghost predicate OnlyChanges(d: Directory, d': Directory, target: Id) {
    && target in d.users && d' == d.(users := d'.users) && d'.users.Keys == d.users.Keys
    && (forall id :: id in d.users && id != target ==> d'.users[id] == d.users[id])
    && d'.users[target].tenant == d.users[target].tenant && d'.users[target].email == d.users[target].email
  }

  /** The refusals of a managing operation come in this order, with its own last, and change nothing. */
  ghost predicate Refuses(d: Directory, actor: Member, target: Id, permitted: bool, own: set<Error>,
                          after: (Directory, Outcome)) {
    && (after.1.Err? ==> after.0 == d)
    && (after.1.Err? ==> after.1.error in {InsufficientPermissions, UserNotFound, OtherTenant} + own)
    && (after.1 == Err(InsufficientPermissions) <==> !permitted)
    && (after.1 == Err(UserNotFound) <==> permitted && target !in d.users)
    && (after.1 == Err(OtherTenant) <==> permitted && target in d.users && d.users[target].tenant != actor.tenant)
  }

  /** Only an ADMIN of the user's tenant assigns roles; the user then has the role too, and nothing else changes. */
  lemma AssignsExactly(d: Directory, actor: Member, target: Id, role: Role)
    ensures var (d', outcome) := AssignRole(d, actor, target, role);
      && Refuses(d, actor, target, ADMIN in actor.roles, {}, (d', outcome))
      && (outcome == Ok <==> ADMIN in actor.roles && InReach(d, actor, target))
      && (outcome == Ok ==>
            && OnlyChanges(d, d', target) && d'.users[target].active == d.users[target].active
            && forall r :: r in d'.users[target].roles <==> r in d.users[target].roles || r == role)
  {
    AdminsManageRoles(actor);
  }

  /** Only an ADMIN of the tenant removes roles, and the ADMIN role only while the tenant has two active admins. */
  lemma RemovesExactly(d: Directory, actor: Member, target: Id, role: Role)
    requires WellFormed(d)
    ensures var (d', outcome) := RemoveRole(d, actor, target, role);
      && Refuses(d, actor, target, ADMIN in actor.roles, {LastAdmin}, (d', outcome))
      && (outcome == Ok <==>
            && ADMIN in actor.roles && InReach(d, actor, target)
            && (role == ADMIN && ADMIN in d.users[target].roles ==> TwoAdmins(d.users, actor.tenant)))
      && (outcome == Ok ==>
            && OnlyChanges(d, d', target) && d'.users[target].active == d.users[target].active
            && forall r :: r in d'.users[target].roles <==> r in d.users[target].roles && r != role)
  {
    AdminsManageRoles(actor);
    TwoAdminsCounted(d.users, actor.tenant);
    if target in d.users {
      RemoveFirstRemoves(d.users[target].roles, role);
    }
  }

  /** Only an ADMIN or MANAGER of the tenant deactivates users, and an ADMIN only while there are two active admins. */
  lemma DeactivatesExactly(d: Directory, actor: Member, target: Id)
    ensures var (d', outcome) := DeactivateUser(d, actor, target);
      && Refuses(d, actor, target, Manages(actor), {LastAdmin}, (d', outcome))
      && (outcome == Ok <==>
            && Manages(actor) && InReach(d, actor, target)
            && (ADMIN in d.users[target].roles ==> TwoAdmins(d.users, actor.tenant)))
      && (outcome == Ok ==>
            && OnlyChanges(d, d', target) && d'.users[target].roles == d.users[target].roles
            && !d'.users[target].active)
  {
    ManagersManageUsers(actor);
    TwoAdminsCounted(d.users, actor.tenant);
  }

  /** Only an ADMIN or MANAGER of the tenant reactivates users, and an inactive one only below the tenant's quota. */
  lemma ReactivatesExactly(d: Directory, actor: Member, target: Id)
    ensures var (d', outcome) := ReactivateUser(d, actor, target);
      && Refuses(d, actor, target, Manages(actor), {UserLimitReached}, (d', outcome))
      && (outcome == Ok <==>
            && Manages(actor) && InReach(d, actor, target)
            && (d.users[target].active || actor.tenant !in d.tenants
                || |ActiveUsersOf(d.users, actor.tenant)| < d.tenants[actor.tenant].maxUsers))
      && (outcome == Ok ==>
            && OnlyChanges(d, d', target) && d'.users[target].roles == d.users[target].roles
            && d'.users[target].active)
  {
    ManagersManageUsers(actor);
  }

  lemma AddressFree(d: Directory, tenant: Id, email: string)
    requires Invariant(d)
    ensures Address(tenant, email) !in d.emails <==>
      forall id :: id in UsersOf(d.users, tenant) ==> d.users[id].email != email
  {
    var address := Address(tenant, email);
    if address in d.emails {
      assert d.emails[address] in UsersOf(d.users, tenant) && AddressOf(d.users[d.emails[address]]) == address;
    } else {
      forall id | id in UsersOf(d.users, tenant) ensures d.users[id].email != email {
        assert AddressOf(d.users[id]) in d.emails;
      }
    }
  }

  /** A new user needs a stored tenant that has nobody under that address and is below its quota. */
  lemma EnrolsExactly(d: Directory, tenant: Id, email: string, user: Id)
    requires Invariant(d) && user !in d.users
    ensures var (d', outcome) := RegisterUser(d, tenant, email, user);
      var free := forall id :: id in UsersOf(d.users, tenant) ==> d.users[id].email != email;
      && (outcome == Ok <==> tenant in d.tenants && free && |UsersOf(d.users, tenant)| < d.tenants[tenant].maxUsers)
      && (outcome == Err(TenantNotFound) <==> tenant !in d.tenants)
      && (outcome == Err(UserExists) <==> tenant in d.tenants && !free)
      && (outcome.Err? ==> d' == d && outcome.error in {TenantNotFound, UserExists, UserLimitReached})
      && (outcome == Ok ==>
            && d'.users.Keys == d.users.Keys + {user} && d'.tenants == d.tenants
            && (forall id :: id in d.users ==> d'.users[id] == d.users[id])
            && d'.users[user].email == email && d'.users[user].tenant == tenant && d'.users[user].active
            && forall r :: r in d'.users[user].roles <==> r == USER)
  {
    AddressFree(d, tenant, email);
    assert forall r :: r in [USER] <==> r == USER;
  }

  lemma NameFree(d: Directory, name: string)
    requires Invariant(d)
    ensures name !in d.names <==> forall t :: t in d.tenants ==> d.tenants[t].name != name
  {
    if name in d.names {
      assert d.tenants[d.names[name]].name == name;
    }
  }

  /** A new tenant needs an unused name; it is active, and so is its one user, an ADMIN. */
  lemma FoundsExactly(d: Directory, name: string, plan: Plan, email: string, tenant: Id, admin: Id)
    requires Invariant(d) && tenant !in d.tenants && admin !in d.users
    ensures var (d', outcome) := RegisterTenant(d, name, plan, email, tenant, admin);
      && (outcome == Ok <==> forall t :: t in d.tenants ==> d.tenants[t].name != name)
      && (outcome.Err? ==> d' == d && outcome == Err(TenantExists))
      && (outcome == Ok ==> Founded(d, d', name, plan, email, tenant, admin))
  {
    NameFree(d, name);
    if name !in d.names {
      NewTenantFounded(d, name, plan, email, tenant, admin);
    }
  }

  ghost predicate Founded(d: Directory, d': Directory, name: string, plan: Plan, email: string, tenant: Id, admin: Id) {
    && d'.users.Keys == d.users.Keys + {admin} && d'.tenants.Keys == d.tenants.Keys + {tenant}
    && (forall id :: id in d.users ==> d'.users[id] == d.users[id])
    && (forall t :: t in d.tenants ==> d'.tenants[t] == d.tenants[t])
    && d'.users[admin].email == email && d'.users[admin].tenant == tenant && d'.users[admin].active
    && (forall r :: r in d'.users[admin].roles <==> r == ADMIN)
    && d'.tenants[tenant].name == name && d'.tenants[tenant].plan == plan && d'.tenants[tenant].active
  }

  lemma NewTenantFounded(d: Directory, name: string, plan: Plan, email: string, tenant: Id, admin: Id)
    requires tenant !in d.tenants && admin !in d.users && name !in d.names
    ensures Founded(d, RegisterTenant(d, name, plan, email, tenant, admin).0, name, plan, email, tenant, admin)
  {
    assert forall r :: r in [ADMIN] <==> r == ADMIN;
  }

  /**
   An ADMIN of any tenant closes any that is stored, and nobody else does: the second guard, for actors of
   another tenant, never refuses. The tenant is inactive then, and nothing else changes.
   */
  lemma ClosesExactly(d: Directory, actor: Member, tenant: Id)
    ensures var (d', outcome) := DeactivateTenant(d, actor, tenant);
      && (outcome == Ok <==> ADMIN in actor.roles && tenant in d.tenants)
      && (outcome == Err(InsufficientPermissions) <==> ADMIN !in actor.roles)
      && (outcome.Err? ==> d' == d && outcome.error in {InsufficientPermissions, TenantNotFound})
      && (outcome == Ok ==>
            && d' == d.(tenants := d'.tenants) && d'.tenants.Keys == d.tenants.Keys && !d'.tenants[tenant].active
            && forall t :: t in d.tenants ==>
                 d'.tenants[t].(active := true) == d.tenants[t].(active := true)
                 && (t != tenant ==> d'.tenants[t] == d.tenants[t]))
  {
    PermittedExactly(actor, ManageTenant);
  }

  // ----- where the present comes from -----

  /** What a stored user can be: in a role, or active. */
  datatype Standing = InRole(role: Role) | BeingActive

  predicate Has(d: Directory, user: Id, standing: Standing) {
    && user in d.users
    && match standing
       case InRole(role) => role in d.users[user].roles
       case BeingActive => d.users[user].active
  }

  predicate AdminOver(d: Directory, actor: Id, user: Id) {
    && actor in d.users && ADMIN in d.users[actor].roles
    && user in d.users && d.users[user].tenant == d.users[actor].tenant
  }

  predicate ManagerOver(d: Directory, actor: Id, user: Id) {
    actor in d.users && Manages(d.users[actor]) && user in d.users && d.users[user].tenant == d.users[actor].tenant
  }

  /** The registration of the user, which makes it active and an ADMIN or a USER. */
  predicate Enrols(d: Directory, op: Op, user: Id, standing: Standing) {
    && Apply(d, op).1 == Ok
    && ((op.NewTenant? && op.admin == user && standing in {InRole(ADMIN), BeingActive})
        || (op.NewUser? && op.user == user && standing in {InRole(USER), BeingActive}))
  }

  /** The registration, an ADMIN of the tenant who assigns the role, or an ADMIN or MANAGER who reactivates. */
  predicate Gives(d: Directory, op: Op, user: Id, standing: Standing) {
    || Enrols(d, op, user, standing)
    || (op.Assign? && op.target == user && standing == InRole(op.role) && AdminOver(d, op.actor, user))
    || (op.Reactivate? && op.target == user && standing == BeingActive && ManagerOver(d, op.actor, user))
  }

  /** An ADMIN who removes the role, or an ADMIN or MANAGER who deactivates, with an active admin to spare. */
  ghost predicate Takes(d: Directory, op: Op, user: Id, standing: Standing) {
    || (op.Remove? && op.target == user && standing == InRole(op.role) && AdminOver(d, op.actor, user)
        && (op.role == ADMIN && ADMIN in d.users[user].roles ==> TwoAdmins(d.users, d.users[user].tenant)))
    || (op.Deactivate? && op.target == user && standing == BeingActive && ManagerOver(d, op.actor, user)
        && (ADMIN in d.users[user].roles ==> TwoAdmins(d.users, d.users[user].tenant)))
  }

  /** The step gives the user the standing, or leaves it where it was without taking it. */
  ghost predicate Decides(d: Directory, op: Op, user: Id, standing: Standing) {
    Has(Apply(d, op).0, user, standing) <==>
      Gives(d, op, user, standing) || (Has(d, user, standing) && !Takes(d, op, user, standing))
  }

  lemma AssignMoves(d: Directory, d': Directory, ok: bool, actor: Id, target: Id, role: Role, user: Id,
                    standing: Standing)
    requires actor in d.users && if ok then OnlyChanges(d, d', target) else d' == d
    requires ok <==> ADMIN in d.users[actor].roles && InReach(d, d.users[actor], target)
    requires ok ==> d'.users[target].active == d.users[target].active
    requires ok ==> forall r :: r in d'.users[target].roles <==> r in d.users[target].roles || r == role
    ensures Has(d', user, standing) <==>
      Has(d, user, standing) || (target == user && standing == InRole(role) && AdminOver(d, actor, user))
  {
  }

  lemma RemoveMoves(d: Directory, d': Directory, ok: bool, actor: Id, target: Id, role: Role, user: Id,
                    standing: Standing)
    requires actor in d.users && if ok then OnlyChanges(d, d', target) else d' == d
    requires ok ==> ADMIN in d.users[actor].roles && InReach(d, d.users[actor], target)
    requires ok ==> d'.users[target].active == d.users[target].active
    requires ok ==> forall r :: r in d'.users[target].roles <==> r in d.users[target].roles && r != role
    ensures Has(d', user, standing) <==> Has(d, user, standing) && !(ok && target == user && standing == InRole(role))
  {
  }

  lemma ActivityMoves(d: Directory, d': Directory, ok: bool, target: Id, active: bool, user: Id, standing: Standing)
    requires if ok then OnlyChanges(d, d', target) else d' == d
    requires ok ==> d'.users[target].roles == d.users[target].roles && d'.users[target].active == active
    ensures Has(d', user, standing) <==>
      if ok && target == user && standing == BeingActive then active else Has(d, user, standing)
  {
  }

  lemma AssignStep(d: Directory, op: Op, user: Id, standing: Standing)
    requires op.Assign? && op.actor in d.users
    ensures Decides(d, op, user, standing)
  {
    var actor := d.users[op.actor];
    var after := AssignRole(d, actor, op.target, op.role);
    assert Apply(d, op) == after;
    AssignsExactly(d, actor, op.target, op.role);
    AssignMoves(d, after.0, after.1 == Ok, op.actor, op.target, op.role, user, standing);
  }

  lemma RemoveStep(d: Directory, op: Op, user: Id, standing: Standing)
    requires WellFormed(d) && op.Remove? && op.actor in d.users
    ensures Decides(d, op, user, standing)
  {
    var actor := d.users[op.actor];
    var after := RemoveRole(d, actor, op.target, op.role);
    assert Apply(d, op) == after;
    RemovesExactly(d, actor, op.target, op.role);
    RemoveMoves(d, after.0, after.1 == Ok, op.actor, op.target, op.role, user, standing);
  }

  lemma DeactivateStep(d: Directory, op: Op, user: Id, standing: Standing)
    requires op.Deactivate? && op.actor in d.users
    ensures Decides(d, op, user, standing)
  {
    var actor := d.users[op.actor];
    var after := DeactivateUser(d, actor, op.target);
    assert Apply(d, op) == after;
    DeactivatesExactly(d, actor, op.target);
    ActivityMoves(d, after.0, after.1 == Ok, op.target, false, user, standing);
  }

  lemma ReactivateStep(d: Directory, op: Op, user: Id, standing: Standing)
    requires Invariant(d) && op.Reactivate? && op.actor in d.users
    ensures Decides(d, op, user, standing)
  {
    var actor := d.users[op.actor];
    var after := ReactivateUser(d, actor, op.target);
    assert Apply(d, op) == after;
    assert after.1 == Ok <==> ManagerOver(d, op.actor, op.target) by {
      ReactivatesExactly(d, actor, op.target);
      InactiveTargetHoldsAPlace(d, actor, op.target);
    }
    ReactivatesExactly(d, actor, op.target);
    ActivityMoves(d, after.0, after.1 == Ok, op.target, true, user, standing);
  }

  /** A registration gives the new user its standing and leaves everybody else's. */
  lemma RegisterMoves(d: Directory, d': Directory, ok: bool, id: Id, role: Role, user: Id, standing: Standing)
    requires id !in d.users && if ok then d'.users.Keys == d.users.Keys + {id} else d' == d
    requires ok ==> forall other :: other in d.users ==> d'.users[other] == d.users[other]
    requires ok ==> d'.users[id].active && forall r :: r in d'.users[id].roles <==> r == role
    ensures Has(d', user, standing) <==>
      Has(d, user, standing) || (ok && user == id && standing in {InRole(role), BeingActive})
  {
  }

  lemma FoundingStep(d: Directory, op: Op, user: Id, standing: Standing)
    requires Invariant(d) && op.NewTenant? && Fresh(d, op)
    ensures Decides(d, op, user, standing)
  {
    var after := RegisterTenant(d, op.name, op.plan, op.email, op.tenant, op.admin);
    assert Apply(d, op) == after;
    FoundsExactly(d, op.name, op.plan, op.email, op.tenant, op.admin);
    RegisterMoves(d, after.0, after.1 == Ok, op.admin, ADMIN, user, standing);
  }

  lemma EnrollingStep(d: Directory, op: Op, user: Id, standing: Standing)
    requires Invariant(d) && op.NewUser? && Fresh(d, op)
    ensures Decides(d, op, user, standing)
  {
    var after := RegisterUser(d, op.tenant, op.email, op.user);
    assert Apply(d, op) == after;
    EnrolsExactly(d, op.tenant, op.email, op.user);
    RegisterMoves(d, after.0, after.1 == Ok, op.user, USER, user, standing);
  }

  /** Closing a tenant, and an operation nobody stored makes, move nobody. */
  lemma IdleStep(d: Directory, op: Op, user: Id, standing: Standing)
    requires !Registers(op) && (op.actor in d.users ==> op.CloseTenant?)
    ensures Decides(d, op, user, standing)
  {
    assert Apply(d, op).0.users == d.users;
  }

  lemma StepDecides(d: Directory, op: Op, user: Id, standing: Standing)
    requires Invariant(d) && Fresh(d, op)
    ensures Decides(d, op, user, standing)
  {
    if !Registers(op) && (op.actor !in d.users || op.CloseTenant?) {
      IdleStep(d, op, user, standing);
    } else {
      match op {
        case NewTenant(_, _, _, _, _) => FoundingStep(d, op, user, standing);
        case NewUser(_, _, _) => EnrollingStep(d, op, user, standing);
        case Assign(_, _, _) => AssignStep(d, op, user, standing);
        case Remove(_, _, _) => RemoveStep(d, op, user, standing);
        case Deactivate(_, _) => DeactivateStep(d, op, user, standing);
        case Reactivate(_, _) => ReactivateStep(d, op, user, standing);
      }
    }
  }

  predicate GivenAt(ops: seq<Op>, user: Id, standing: Standing, k: int) {
    0 <= k < |ops| && Gives(RunFrom(EMPTY, ops[..k]), ops[k], user, standing)
  }

  ghost predicate TakenAt(ops: seq<Op>, user: Id, standing: Standing, k: int) {
    0 <= k < |ops| && Takes(RunFrom(EMPTY, ops[..k]), ops[k], user, standing)
  }

  /** Given, and not taken since. */
  ghost predicate StandsSince(ops: seq<Op>, user: Id, standing: Standing, k: int) {
    GivenAt(ops, user, standing, k) && forall j :: k < j < |ops| ==> !TakenAt(ops, user, standing, j)
  }

  lemma PrefixRuns(before: seq<Op>, op: Op)
    requires FreshRun(EMPTY, before + [op])
    ensures FreshRun(EMPTY, before) && Fresh(RunFrom(EMPTY, before), op)
    ensures RunFrom(EMPTY, before + [op]) == Apply(RunFrom(EMPTY, before), op).0
  {
    var ops := before + [op];
    assert FreshRun(EMPTY, before) by {
      assert forall i :: 0 <= i < |before| ==> before[i] == ops[i];
    }
    FreshTail(EMPTY, before, [op]);
    FreshRunTail(RunFrom(EMPTY, before), [op]);
    RunJoins(EMPTY, before, [op]);
    assert [op][1..] == [];
  }

  lemma StandsSinceGrows(before: seq<Op>, op: Op, user: Id, standing: Standing, k: int)
    ensures var ops := before + [op];
      StandsSince(ops, user, standing, k) <==>
        if k == |before| then Gives(RunFrom(EMPTY, before), op, user, standing)
        else StandsSince(before, user, standing, k) && !Takes(RunFrom(EMPTY, before), op, user, standing)
  {
    var ops, n := before + [op], |before|;
    assert ops[..n] == before;
    forall j | 0 <= j < n
      ensures TakenAt(ops, user, standing, j) <==> TakenAt(before, user, standing, j)
      ensures GivenAt(ops, user, standing, j) <==> GivenAt(before, user, standing, j)
    {
      assert ops[..j] == before[..j];
    }
    assert TakenAt(ops, user, standing, n) <==> Takes(RunFrom(EMPTY, before), op, user, standing);
  }

  /**
   In every reachable state a user has a role, or is active, exactly if that was given to it and not taken
   since: a role by its registration or by an ADMIN of its tenant, activity by its registration or by an
   ADMIN or MANAGER of its tenant, and both are only ever taken by the same people.
   */
  lemma {:induction false} StandingIsDecided(ops: seq<Op>, user: Id, standing: Standing)
    requires FreshRun(EMPTY, ops)
    ensures Has(RunFrom(EMPTY, ops), user, standing) <==> exists k :: StandsSince(ops, user, standing, k)
  {
    if ops == [] {
    } else {
      var before, op := ops[..|ops| - 1], ops[|ops| - 1];
      assert ops == before + [op];
      PrefixRuns(before, op);
      RunKeepsInvariant(EMPTY, before);
      StandingIsDecided(before, user, standing);
      StepDecides(RunFrom(EMPTY, before), op, user, standing);
      StandsSinceGrows(before, op, user, standing, |before|);
      if k :| StandsSince(before, user, standing, k) {
        StandsSinceGrows(before, op, user, standing, k);
      }
      if k :| StandsSince(ops, user, standing, k) {
        StandsSinceGrows(before, op, user, standing, k);
      }
    }
  }

  // ----- quotas -----

  /** Users and contexts a plan allows. */
  predicate HasQuotas(t: Tenancy) {
    match t.plan
    case Basic => t.maxUsers == 25 && t.maxContexts == 10
    case Premium => t.maxUsers == 100 && t.maxContexts == 50
    case Other(_) => t.maxUsers == 10 && t.maxContexts == 5
  }

  ghost predicate AllHaveQuotas(d: Directory) {
    forall t :: t in d.tenants ==> HasQuotas(d.tenants[t])
  }

  lemma StepKeepsQuotas(d: Directory, op: Op)
    requires AllHaveQuotas(d)
    ensures AllHaveQuotas(Apply(d, op).0)
  {
  }

  lemma {:induction false} RunKeepsQuotas(d: Directory, ops: seq<Op>)
    requires AllHaveQuotas(d)
    ensures AllHaveQuotas(RunFrom(d, ops))
    decreases |ops|
  {
    if ops == [] {
    } else {
      StepKeepsQuotas(d, ops[0]);
      RunKeepsQuotas(Apply(d, ops[0]).0, ops[1..]);
    }
  }

  /** In every reachable state a tenant has at most its plan's users, and a new address is refused exactly then. */
  lemma PlanDecidesRoom(ops: seq<Op>, tenant: Id, email: string, user: Id)
    requires FreshRun(EMPTY, ops) && tenant in RunFrom(EMPTY, ops).tenants && user !in RunFrom(EMPTY, ops).users
    requires forall id :: id in UsersOf(RunFrom(EMPTY, ops).users, tenant) ==>
      RunFrom(EMPTY, ops).users[id].email != email
    ensures var d := RunFrom(EMPTY, ops);
      var most := match d.tenants[tenant].plan case Basic => 25 case Premium => 100 case Other(_) => 10;
      && |UsersOf(d.users, tenant)| <= most
      && (RegisterUser(d, tenant, email, user).1 == Err(UserLimitReached) <==> |UsersOf(d.users, tenant)| == most)
  {
    RunKeepsInvariant(EMPTY, ops);
    RunKeepsQuotas(EMPTY, ops);
    EveryTenantStaysAdministered(ops, tenant);
    var d := RunFrom(EMPTY, ops);
    assert HasQuotas(d.tenants[tenant]);
    EnrolsExactly(d, tenant, email, user);
  }
}
