/**
 Runs of the account service. Acting admins are taken from the stored users; ids handed out by
 registrations are unused.
 */
module AccountRuns {
  import opened Basics
  import opened Accounts

  datatype Op =
    | NewTenant(name: string, plan: Plan, email: string, tenant: Id, admin: Id)
    | NewUser(tenant: Id, email: string, user: Id)
    | Assign(actor: Id, target: Id, role: Role)
    | Remove(actor: Id, target: Id, role: Role)
    | Deactivate(actor: Id, target: Id)
    | Reactivate(actor: Id, target: Id)
    | CloseTenant(actor: Id, tenant: Id)

  predicate Registers(op: Op) {
    op.NewTenant? || op.NewUser?
  }

  /** What an acting admin does. */
  function Manage(d: Directory, actor: Member, op: Op): (Directory, Outcome)
    requires !Registers(op)
  {
    match op
    case Assign(_, target, role) => AssignRole(d, actor, target, role)
    case Remove(_, target, role) => RemoveRole(d, actor, target, role)
    case Deactivate(_, target) => DeactivateUser(d, actor, target)
    case Reactivate(_, target) => ReactivateUser(d, actor, target)
    case CloseTenant(_, tenant) => DeactivateTenant(d, actor, tenant)
  }

  /** An operation whose actor is not stored cannot be made; it changes nothing. */
  function Apply(d: Directory, op: Op): (Directory, Outcome) {
    match op
    case NewTenant(name, plan, email, tenant, admin) => RegisterTenant(d, name, plan, email, tenant, admin)
    case NewUser(tenant, email, user) => RegisterUser(d, tenant, email, user)
    case _ => if op.actor !in d.users then (d, Err(UserNotFound)) else Manage(d, d.users[op.actor], op)
  }

  /** The ids a registration hands out are unused. */
  ghost predicate Fresh(d: Directory, op: Op) {
    match op
    case NewTenant(_, _, _, tenant, admin) => tenant !in d.tenants && admin !in d.users
    case NewUser(_, _, user) => user !in d.users
    case _ => true
  }

  const EMPTY := Directory(map[], map[], map[], map[])

  // ----- the invariant -----

  lemma CountsAfterUpdate(users: map<Id, Member>, id: Id, m: Member, tenant: Id)
    ensures UsersOf(users[id := m], tenant)
         == if m.tenant == tenant then UsersOf(users, tenant) + {id} else UsersOf(users, tenant) - {id}
    ensures Admins(users[id := m], tenant)
         == if m.tenant == tenant && IsAdmin(m) then Admins(users, tenant) + {id} else Admins(users, tenant) - {id}
  {
  }

  /** Setting one member of a tenant matters to no other tenant. */
  lemma OtherTenantSound(users: map<Id, Member>, id: Id, m: Member, tenant: Id, maxUsers: int)
    requires TenantSound(users, tenant, maxUsers) && m.tenant != tenant
    requires id in users ==> users[id].tenant == m.tenant
    ensures TenantSound(users[id := m], tenant, maxUsers)
  {
    CountsAfterUpdate(users, id, m, tenant);
    assert id !in Admins(users, tenant) && id !in UsersOf(users, tenant);
  }

  lemma SoundAfterSetting(users: map<Id, Member>, tenants: map<Id, Tenancy>, id: Id, m: Member)
    requires id in users ==> users[id].tenant == m.tenant
    requires forall t :: t in tenants && t != m.tenant ==> TenantSound(users, t, tenants[t].maxUsers)
    requires m.tenant in tenants && TenantSound(users[id := m], m.tenant, tenants[m.tenant].maxUsers)
    ensures AllTenantsSound(users[id := m], tenants)
  {
    forall t | t in tenants ensures TenantSound(users[id := m], t, tenants[t].maxUsers) {
      if t != m.tenant {
        OtherTenantSound(users, id, m, t, tenants[t].maxUsers);
      }
    }
  }

  lemma FirstAdminSound(users: map<Id, Member>, id: Id, m: Member, maxUsers: int)
    requires IsAdmin(m) && maxUsers >= 1
    requires forall other :: other in users ==> users[other].tenant != m.tenant
    ensures TenantSound(users[id := m], m.tenant, maxUsers)
  {
    CountsAfterUpdate(users, id, m, m.tenant);
    assert UsersOf(users, m.tenant) == {};
  }

  lemma AddedUserSound(users: map<Id, Member>, id: Id, m: Member, maxUsers: int)
    requires TenantSound(users, m.tenant, maxUsers) && id !in users
    requires |UsersOf(users, m.tenant)| < maxUsers
    ensures TenantSound(users[id := m], m.tenant, maxUsers)
  {
    CountsAfterUpdate(users, id, m, m.tenant);
    assert id !in Admins(users, m.tenant);
  }

  lemma AddedUserWellFormed(d: Directory, id: Id, m: Member)
    requires WellFormed(d) && id !in d.users && AddressOf(m) !in d.emails
    requires m.tenant in d.tenants && NoDuplicates(m.roles)
    ensures WellFormed(d.(users := d.users[id := m], emails := d.emails[AddressOf(m) := id]))
  {
  }

  lemma AddedTenantWellFormed(d: Directory, id: Id, t: Tenancy)
    requires WellFormed(d) && id !in d.tenants && t.name !in d.names
    ensures WellFormed(d.(tenants := d.tenants[id := t], names := d.names[t.name := id]))
  {
  }

  lemma RegisterTenantKeeps(d: Directory, name: string, plan: Plan, email: string, tenant: Id, admin: Id)
    requires Invariant(d) && tenant !in d.tenants && admin !in d.users
    ensures Invariant(RegisterTenant(d, name, plan, email, tenant, admin).0)
  {
    if name !in d.names {
      var m, t := Member(email, tenant, [ADMIN], true), NewTenancy(name, plan);
      var d1 := d.(tenants := d.tenants[tenant := t], names := d.names[name := tenant]);
      assert WellFormed(d1) by { AddedTenantWellFormed(d, tenant, t); }
      assert WellFormed(d1.(users := d.users[admin := m], emails := d.emails[AddressOf(m) := admin])) by {
        AddedUserWellFormed(d1, admin, m);
      }
      assert TenantSound(d.users[admin := m], tenant, t.maxUsers) by {
        assert m.roles[0] == ADMIN;
        FirstAdminSound(d.users, admin, m, t.maxUsers);
      }
      SoundAfterSetting(d.users, d1.tenants, admin, m);
    }
  }

  lemma RegisterUserKeeps(d: Directory, tenant: Id, email: string, user: Id)
    requires Invariant(d) && user !in d.users
    ensures Invariant(RegisterUser(d, tenant, email, user).0)
  {
    if RegisterUser(d, tenant, email, user).1.Ok? {
      var m := Member(email, tenant, [USER], true);
      AddedUserWellFormed(d, user, m);
      AddedUserSound(d.users, user, m, d.tenants[tenant].maxUsers);
      SoundAfterSetting(d.users, d.tenants, user, m);
    }
  }

  /** Taking one admin out of at least two leaves somebody. */
  lemma SomebodyLeft(users: map<Id, Member>, target: Id, m: Member)
    requires |Admins(users, m.tenant)| > 1
    ensures Admins(users[target := m], m.tenant) != {}
  {
    CountsAfterUpdate(users, target, m, m.tenant);
    var before := Admins(users, m.tenant);
    if before - {target} == {} {
      SubsetSize(before, {target});
    }
  }

  /**
   Replacing a member's roles and activity keeps its tenant sound when it stays an active admin, was
   none, or is not the last one: the condition the two shrinking operations guard.
   */
  lemma ChangedMemberSound(users: map<Id, Member>, target: Id, m: Member, maxUsers: int)
    requires target in users && m.tenant == users[target].tenant && TenantSound(users, m.tenant, maxUsers)
    requires || IsAdmin(m) || !IsAdmin(users[target])
             || |Admins(users, m.tenant)| > 1
    ensures TenantSound(users[target := m], m.tenant, maxUsers)
  {
    var t := m.tenant;
    CountsAfterUpdate(users, target, m, t);
    assert target in UsersOf(users, t);
    assert UsersOf(users[target := m], t) == UsersOf(users, t);
    if IsAdmin(m) || !IsAdmin(users[target]) {
      CountsAfterUpdate(users, target, m, t);
      assert !IsAdmin(users[target]) ==> target !in Admins(users, t);
    } else {
      SomebodyLeft(users, target, m);
    }
  }

  lemma UpdatedWellFormed(d: Directory, target: Id, m: Member)
    requires WellFormed(d) && target in d.users
    requires AddressOf(m) == AddressOf(d.users[target]) && NoDuplicates(m.roles)
    ensures WellFormed(Update(d, target, m))
  {
  }

  lemma UpdateKeeps(d: Directory, target: Id, m: Member)
    requires Invariant(d) && target in d.users
    requires AddressOf(m) == AddressOf(d.users[target]) && NoDuplicates(m.roles)
    requires || IsAdmin(m) || !IsAdmin(d.users[target])
             || |Admins(d.users, m.tenant)| > 1
    ensures Invariant(Update(d, target, m))
  {
    ChangedMemberSound(d.users, target, m, d.tenants[m.tenant].maxUsers);
    SoundAfterSetting(d.users, d.tenants, target, m);
    UpdatedWellFormed(d, target, m);
  }

  lemma AssignRoleKeeps(d: Directory, actor: Member, target: Id, role: Role)
    requires Invariant(d)
    ensures Invariant(AssignRole(d, actor, target, role).0)
  {
    if AssignRole(d, actor, target, role).0 != d {
      var m := d.users[target];
      UpdateKeeps(d, target, m.(roles := m.roles + [role]));
    }
  }

  lemma RemoveRoleKeeps(d: Directory, actor: Member, target: Id, role: Role)
    requires Invariant(d)
    ensures Invariant(RemoveRole(d, actor, target, role).0)
  {
    if RemoveRole(d, actor, target, role).0 != d {
      var m := d.users[target];
      RemoveFirstRemoves(m.roles, role);
      UpdateKeeps(d, target, m.(roles := RemoveFirst(m.roles, role)));
    }
  }

  lemma DeactivateUserKeeps(d: Directory, actor: Member, target: Id)
    requires Invariant(d)
    ensures Invariant(DeactivateUser(d, actor, target).0)
  {
    if DeactivateUser(d, actor, target).0 != d {
      UpdateKeeps(d, target, d.users[target].(active := false));
    }
  }

  lemma ReactivateUserKeeps(d: Directory, actor: Member, target: Id)
    requires Invariant(d)
    ensures Invariant(ReactivateUser(d, actor, target).0)
  {
    if ReactivateUser(d, actor, target).0 != d {
      UpdateKeeps(d, target, d.users[target].(active := true));
    }
  }

  lemma ClosedNamesExact(tenants: map<Id, Tenancy>, names: map<string, Id>, tenant: Id)
    requires NamesExact(tenants, names) && tenant in tenants
    ensures NamesExact(tenants[tenant := tenants[tenant].(active := false)], names)
  {
  }

  lemma ClosedTenantsSound(users: map<Id, Member>, tenants: map<Id, Tenancy>, tenant: Id)
    requires AllTenantsSound(users, tenants) && tenant in tenants
    ensures AllTenantsSound(users, tenants[tenant := tenants[tenant].(active := false)])
  {
    var tenants' := tenants[tenant := tenants[tenant].(active := false)];
    forall t | t in tenants' ensures TenantSound(users, t, tenants'[t].maxUsers) {
      assert TenantSound(users, t, tenants[t].maxUsers);
    }
  }

  lemma DeactivateTenantKeeps(d: Directory, actor: Member, tenant: Id)
    requires Invariant(d)
    ensures Invariant(DeactivateTenant(d, actor, tenant).0)
  {
    if DeactivateTenant(d, actor, tenant).0 != d {
      ClosedNamesExact(d.tenants, d.names, tenant);
      ClosedTenantsSound(d.users, d.tenants, tenant);
    }
  }

  lemma ManageKeepsInvariant(d: Directory, actor: Member, op: Op)
    requires Invariant(d) && !Registers(op)
    ensures Invariant(Manage(d, actor, op).0)
  {
    match op {
      case Assign(_, target, role) => AssignRoleKeeps(d, actor, target, role);
      case Remove(_, target, role) => RemoveRoleKeeps(d, actor, target, role);
      case Deactivate(_, target) => DeactivateUserKeeps(d, actor, target);
      case Reactivate(_, target) => ReactivateUserKeeps(d, actor, target);
      case CloseTenant(_, tenant) => DeactivateTenantKeeps(d, actor, tenant);
    }
  }

  /** Every operation keeps the invariant. */
  lemma ApplyKeepsInvariant(d: Directory, op: Op)
    requires Invariant(d) && Fresh(d, op)
    ensures Invariant(Apply(d, op).0)
  {
    match op {
      case NewTenant(name, plan, email, tenant, admin) => RegisterTenantKeeps(d, name, plan, email, tenant, admin);
      case NewUser(tenant, email, user) => RegisterUserKeeps(d, tenant, email, user);
      case _ =>
        if op.actor in d.users {
          ManageKeepsInvariant(d, d.users[op.actor], op);
        }
    }
  }

  // ----- runs -----

  function RunFrom(d: Directory, ops: seq<Op>): Directory
    decreases |ops|
  {
    if ops == [] then d else RunFrom(Apply(d, ops[0]).0, ops[1..])
  }

  function NewTenantId(op: Op): set<Id> {
    if op.NewTenant? then {op.tenant} else {}
  }

  function NewUserId(op: Op): set<Id> {
    if op.NewTenant? then {op.admin} else if op.NewUser? then {op.user} else {}
  }

  /** Every id handed out along the run is unused then, and handed out once. */
  ghost predicate FreshRun(d: Directory, ops: seq<Op>) {
    && (forall i :: 0 <= i < |ops| ==> NewTenantId(ops[i]) !! d.tenants.Keys && NewUserId(ops[i]) !! d.users.Keys)
    && (forall i, j :: 0 <= i < j < |ops| ==>
          NewTenantId(ops[i]) !! NewTenantId(ops[j]) && NewUserId(ops[i]) !! NewUserId(ops[j]))
  }

  lemma ManageAddsNobody(d: Directory, actor: Member, op: Op)
    requires !Registers(op)
    ensures Manage(d, actor, op).0.tenants.Keys == d.tenants.Keys && Manage(d, actor, op).0.users.Keys == d.users.Keys
  {
  }

  lemma ApplyAddsOnlyNewIds(d: Directory, op: Op)
    ensures d.tenants.Keys <= Apply(d, op).0.tenants.Keys <= d.tenants.Keys + NewTenantId(op)
    ensures d.users.Keys <= Apply(d, op).0.users.Keys <= d.users.Keys + NewUserId(op)
  {
    if !Registers(op) && op.actor in d.users {
      ManageAddsNobody(d, d.users[op.actor], op);
    }
  }

  lemma FreshRunTail(d: Directory, ops: seq<Op>)
    requires FreshRun(d, ops) && ops != []
    ensures Fresh(d, ops[0]) && FreshRun(Apply(d, ops[0]).0, ops[1..])
  {
    ApplyAddsOnlyNewIds(d, ops[0]);
    var tail := ops[1..];
    assert NewTenantId(ops[0]) !! d.tenants.Keys && NewUserId(ops[0]) !! d.users.Keys;
    if ops[0].NewTenant? {
      assert ops[0].tenant in NewTenantId(ops[0]) && ops[0].admin in NewUserId(ops[0]);
    } else if ops[0].NewUser? {
      assert ops[0].user in NewUserId(ops[0]);
    }
    forall i | 0 <= i < |tail|
      ensures NewTenantId(tail[i]) !! Apply(d, ops[0]).0.tenants.Keys
          && NewUserId(tail[i]) !! Apply(d, ops[0]).0.users.Keys
    {
      assert tail[i] == ops[i + 1];
      assert NewTenantId(ops[0]) !! NewTenantId(ops[i + 1]) && NewUserId(ops[0]) !! NewUserId(ops[i + 1]);
      assert NewTenantId(ops[i + 1]) !! d.tenants.Keys && NewUserId(ops[i + 1]) !! d.users.Keys;
    }
    forall i, j | 0 <= i < j < |tail|
      ensures NewTenantId(tail[i]) !! NewTenantId(tail[j]) && NewUserId(tail[i]) !! NewUserId(tail[j])
    {
      assert tail[i] == ops[i + 1] && tail[j] == ops[j + 1];
    }
  }

  lemma {:induction false} RunKeepsInvariant(d: Directory, ops: seq<Op>)
    requires Invariant(d) && FreshRun(d, ops)
    ensures Invariant(RunFrom(d, ops))
    decreases |ops|
  {
    if ops != [] {
      FreshRunTail(d, ops);
      ApplyKeepsInvariant(d, ops[0]);
      RunKeepsInvariant(Apply(d, ops[0]).0, ops[1..]);
    }
  }

  /** In every reachable state each tenant has an active admin and at most its plan's users, active or not. */
  lemma EveryTenantStaysAdministered(ops: seq<Op>, tenant: Id)
    requires FreshRun(EMPTY, ops) && tenant in RunFrom(EMPTY, ops).tenants
    ensures var d := RunFrom(EMPTY, ops);
      && (exists id ::
            id in d.users && d.users[id].tenant == tenant && ADMIN in d.users[id].roles && d.users[id].active)
      && |UsersOf(d.users, tenant)| <= d.tenants[tenant].maxUsers
  {
    RunKeepsInvariant(EMPTY, ops);
    var d := RunFrom(EMPTY, ops);
    assert TenantSound(d.users, tenant, d.tenants[tenant].maxUsers);
    var id :| id in Admins(d.users, tenant);
    assert id in d.users && d.users[id].tenant == tenant && ADMIN in d.users[id].roles && d.users[id].active;
  }

  /** The indexes answer exactly as a search through the users and tenants would, in every reachable state. */
  lemma IndexesStayExact(ops: seq<Op>)
    requires FreshRun(EMPTY, ops)
    ensures var d := RunFrom(EMPTY, ops);
      EmailsExact(d.users, d.emails) && NamesExact(d.tenants, d.names)
  {
    RunKeepsInvariant(EMPTY, ops);
  }

  /** Role lists stay free of duplicates, so removing one occurrence removes the role and nothing else. */
  lemma RemovedRoleIsGone(ops: seq<Op>, actor: Member, target: Id, role: Role)
    requires FreshRun(EMPTY, ops)
    requires RemoveRole(RunFrom(EMPTY, ops), actor, target, role).1.Ok?
    ensures var d := RunFrom(EMPTY, ops);
      var d' := RemoveRole(d, actor, target, role).0;
      && target in d'.users && target in d.users
      && (forall r :: r in d'.users[target].roles <==> r in d.users[target].roles && r != role)
      && d' == Update(d, target, d.users[target].(roles := d'.users[target].roles))
  {
    RunKeepsInvariant(EMPTY, ops);
    RoleIsGone(RunFrom(EMPTY, ops), actor, target, role);
  }

  lemma RoleIsGone(d: Directory, actor: Member, target: Id, role: Role)
    requires WellFormed(d) && RemoveRole(d, actor, target, role).1.Ok?
    ensures var d' := RemoveRole(d, actor, target, role).0;
      && target in d'.users && target in d.users
      && (forall r :: r in d'.users[target].roles <==> r in d.users[target].roles && r != role)
      && d' == Update(d, target, d.users[target].(roles := d'.users[target].roles))
  {
    RemoveFirstRemoves(d.users[target].roles, role);
    assert d.users[target := d.users[target]] == d.users;
  }

  /** Reactivation is never refused for lack of room: the inactive target already holds a place. */
  lemma ReactivationAlwaysHasRoom(ops: seq<Op>, actor: Member, target: Id)
    requires FreshRun(EMPTY, ops)
    ensures ReactivateUser(RunFrom(EMPTY, ops), actor, target).1 != Err(UserLimitReached)
  {
    RunKeepsInvariant(EMPTY, ops);
    InactiveTargetHoldsAPlace(RunFrom(EMPTY, ops), actor, target);
  }

  lemma InactiveTargetHoldsAPlace(d: Directory, actor: Member, target: Id)
    requires Invariant(d)
    ensures ReactivateUser(d, actor, target).1 != Err(UserLimitReached)
  {
    if target in d.users && !d.users[target].active {
      var t := d.users[target].tenant;
      assert TenantSound(d.users, t, d.tenants[t].maxUsers);
      var active, all := ActiveUsersOf(d.users, t), UsersOf(d.users, t);
      assert target in all && target !in active;
      assert active <= all;
      SubsetSize(active, all);
    }
  }
}
