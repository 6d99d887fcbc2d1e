/**
 Tenant isolation over whole runs: what a tenant's user records depend on, and the one way in which
 another tenant can change them. What permission checks answer also depends on who closes a tenant:
 see AccountClosure.
 */
module AccountIsolation {
  import opened Basics
  import opened Accounts
  import opened AccountRuns

  /** The user records of one tenant. */
  function MembersOf(users: map<Id, Member>, tenant: Id): map<Id, Member> {
    map id | id in users && users[id].tenant == tenant :: users[id]
  }

  /** Whether the operation is made for the tenant: by registration, or by one of its own members. */
  predicate Belongs(d: Directory, op: Op, tenant: Id) {
    if Registers(op) then op.tenant == tenant
    else op.actor in d.users && d.users[op.actor].tenant == tenant
  }

  /** The run with every other tenant's operations removed. */
  function Project(d: Directory, ops: seq<Op>, tenant: Id): seq<Op>
    decreases |ops|
  {
    if ops == [] then []
    else
      var rest := Project(Apply(d, ops[0]).0, ops[1..], tenant);
      if Belongs(d, ops[0], tenant) then [ops[0]] + rest else rest
  }

  /** The tenant's registration met a name some earlier tenant holds. */
  predicate NameRefused(d: Directory, ops: seq<Op>, tenant: Id)
    decreases |ops|
  {
    ops != [] && (RefusedByName(d, ops[0], tenant) || NameRefused(Apply(d, ops[0]).0, ops[1..], tenant))
  }

  predicate RefusedByName(d: Directory, op: Op, tenant: Id) {
    op.NewTenant? && op.tenant == tenant && op.name in d.names
  }

  /** `p` knows only the tenant, and agrees with `d` about it. */
  ghost predicate Mirrors(d: Directory, p: Directory, tenant: Id) {
    && p.tenants.Keys <= {tenant} && (forall id :: id in p.users ==> p.users[id].tenant == tenant)
    && (tenant in d.tenants <==> tenant in p.tenants)
    && (tenant in d.tenants ==> d.tenants[tenant].maxUsers == p.tenants[tenant].maxUsers)
    && MembersOf(d.users, tenant) == MembersOf(p.users, tenant)
  }

  /** The counts the guards make depend on the tenant's own members only. */
  lemma CountsOfMembers(users: map<Id, Member>, tenant: Id)
    ensures UsersOf(users, tenant) == MembersOf(users, tenant).Keys
    ensures ActiveUsersOf(users, tenant) == ActiveUsersOf(MembersOf(users, tenant), tenant)
    ensures Admins(users, tenant) == Admins(MembersOf(users, tenant), tenant)
  {
  }

  lemma SameCounts(d: Directory, p: Directory, tenant: Id)
    requires Mirrors(d, p, tenant)
    ensures UsersOf(d.users, tenant) == UsersOf(p.users, tenant)
    ensures ActiveUsersOf(d.users, tenant) == ActiveUsersOf(p.users, tenant)
    ensures Admins(d.users, tenant) == Admins(p.users, tenant)
  {
    CountsOfMembers(d.users, tenant);
    CountsOfMembers(p.users, tenant);
  }

  lemma MembersAfterUpdate(users: map<Id, Member>, id: Id, m: Member, tenant: Id)
    requires id in users ==> users[id].tenant == m.tenant
    ensures MembersOf(users[id := m], tenant)
         == if m.tenant == tenant then MembersOf(users, tenant)[id := m] else MembersOf(users, tenant)
  {
  }

  lemma MirroredMember(d: Directory, p: Directory, tenant: Id, id: Id)
    requires Mirrors(d, p, tenant)
    ensures id in p.users <==> id in d.users && d.users[id].tenant == tenant
    ensures id in p.users ==> p.users[id] == d.users[id]
  {
    assert id in MembersOf(d.users, tenant) <==> id in MembersOf(p.users, tenant);
    assert id in p.users ==> p.users[id].tenant == tenant;
    if id in p.users {
      assert MembersOf(d.users, tenant)[id] == MembersOf(p.users, tenant)[id];
    }
  }

  lemma MirroredAddress(d: Directory, p: Directory, tenant: Id, email: string)
    requires Mirrors(d, p, tenant) && EmailsExact(d.users, d.emails) && EmailsExact(p.users, p.emails)
    ensures Address(tenant, email) in d.emails <==> Address(tenant, email) in p.emails
  {
    var key := Address(tenant, email);
    if key in d.emails {
      MirroredMember(d, p, tenant, d.emails[key]);
      assert AddressOf(p.users[d.emails[key]]) in p.emails;
    }
    if key in p.emails {
      MirroredMember(d, p, tenant, p.emails[key]);
      assert AddressOf(d.users[p.emails[key]]) in d.emails;
    }
  }

  // ----- one's own operations -----

  /** The same change to the same member keeps the two directories mirrored. */
  lemma UpdateMirrors(d: Directory, p: Directory, tenant: Id, target: Id, m: Member)
    requires Mirrors(d, p, tenant) && target in p.users && m.tenant == tenant
    ensures Mirrors(Update(d, target, m), Update(p, target, m), tenant)
  {
    MirroredMember(d, p, tenant, target);
    MembersAfterUpdate(d.users, target, m, tenant);
    MembersAfterUpdate(p.users, target, m, tenant);
  }

  lemma AssignMirrors(d: Directory, p: Directory, tenant: Id, actor: Member, target: Id, role: Role)
    requires Mirrors(d, p, tenant) && actor.tenant == tenant
    ensures Mirrors(AssignRole(d, actor, target, role).0, AssignRole(p, actor, target, role).0, tenant)
  {
    MirroredMember(d, p, tenant, target);
    if AssignRole(p, actor, target, role).0 != p {
      var m := p.users[target];
      UpdateMirrors(d, p, tenant, target, m.(roles := m.roles + [role]));
    }
  }

  lemma RemoveMirrors(d: Directory, p: Directory, tenant: Id, actor: Member, target: Id, role: Role)
    requires Mirrors(d, p, tenant) && actor.tenant == tenant
    ensures Mirrors(RemoveRole(d, actor, target, role).0, RemoveRole(p, actor, target, role).0, tenant)
  {
    MirroredMember(d, p, tenant, target);
    SameCounts(d, p, tenant);
    if RemoveRole(p, actor, target, role).1.Ok? && target in p.users && role in p.users[target].roles {
      var m := p.users[target];
      UpdateMirrors(d, p, tenant, target, m.(roles := RemoveFirst(m.roles, role)));
    }
  }

  lemma DeactivateMirrors(d: Directory, p: Directory, tenant: Id, actor: Member, target: Id)
    requires Mirrors(d, p, tenant) && actor.tenant == tenant
    ensures Mirrors(DeactivateUser(d, actor, target).0, DeactivateUser(p, actor, target).0, tenant)
  {
    MirroredMember(d, p, tenant, target);
    SameCounts(d, p, tenant);
    if DeactivateUser(p, actor, target).1.Ok? {
      UpdateMirrors(d, p, tenant, target, p.users[target].(active := false));
    }
  }

  lemma ReactivateMirrors(d: Directory, p: Directory, tenant: Id, actor: Member, target: Id)
    requires Mirrors(d, p, tenant) && actor.tenant == tenant
    ensures Mirrors(ReactivateUser(d, actor, target).0, ReactivateUser(p, actor, target).0, tenant)
  {
    MirroredMember(d, p, tenant, target);
    SameCounts(d, p, tenant);
    if ReactivateUser(p, actor, target).1.Ok? {
      UpdateMirrors(d, p, tenant, target, p.users[target].(active := true));
    }
  }

  lemma RegisterUserMirrors(d: Directory, p: Directory, tenant: Id, email: string, user: Id)
    requires Mirrors(d, p, tenant) && user !in d.users
    requires EmailsExact(d.users, d.emails) && EmailsExact(p.users, p.emails)
    ensures Mirrors(RegisterUser(d, tenant, email, user).0, RegisterUser(p, tenant, email, user).0, tenant)
  {
    MirroredMember(d, p, tenant, user);
    MirroredAddress(d, p, tenant, email);
    SameCounts(d, p, tenant);
    var m := Member(email, tenant, [USER], true);
    MembersAfterUpdate(d.users, user, m, tenant);
    MembersAfterUpdate(p.users, user, m, tenant);
  }

  lemma RegisterTenantMirrors(d: Directory, p: Directory, op: Op)
    requires op.NewTenant? && Mirrors(d, p, op.tenant) && Fresh(d, op) && op.name !in d.names
    requires NamesExact(p.tenants, p.names)
    ensures Mirrors(Apply(d, op).0, Apply(p, op).0, op.tenant)
  {
    MirroredMember(d, p, op.tenant, op.admin);
    assert op.name !in p.names;
    var m := Member(op.email, op.tenant, [ADMIN], true);
    MembersAfterUpdate(d.users, op.admin, m, op.tenant);
    MembersAfterUpdate(p.users, op.admin, m, op.tenant);
  }

  lemma CloseTenantMirrors(d: Directory, p: Directory, tenant: Id, actor: Member, closed: Id)
    requires Mirrors(d, p, tenant)
    ensures Mirrors(DeactivateTenant(d, actor, closed).0, DeactivateTenant(p, actor, closed).0, tenant)
    ensures Mirrors(DeactivateTenant(d, actor, closed).0, p, tenant)
  {
  }

  lemma OwnStepMirrors(d: Directory, p: Directory, op: Op, tenant: Id)
    requires Mirrors(d, p, tenant) && Fresh(d, op) && Belongs(d, op, tenant) && !RefusedByName(d, op, tenant)
    requires WellFormed(d) && WellFormed(p)
    ensures Mirrors(Apply(d, op).0, Apply(p, op).0, tenant)
  {
    match op {
      case NewTenant(_, _, _, _, _) => RegisterTenantMirrors(d, p, op);
      case NewUser(_, email, user) => RegisterUserMirrors(d, p, tenant, email, user);
      case _ =>
        MirroredMember(d, p, tenant, op.actor);
        var actor := d.users[op.actor];
        match op {
          case Assign(_, target, role) => AssignMirrors(d, p, tenant, actor, target, role);
          case Remove(_, target, role) => RemoveMirrors(d, p, tenant, actor, target, role);
          case Deactivate(_, target) => DeactivateMirrors(d, p, tenant, actor, target);
          case Reactivate(_, target) => ReactivateMirrors(d, p, tenant, actor, target);
          case CloseTenant(_, closed) => CloseTenantMirrors(d, p, tenant, actor, closed);
        }
    }
  }

  // ----- everybody else's -----

  /** Setting a member of another tenant leaves this tenant's records alone. */
  lemma ForeignUpdateMirrors(d: Directory, p: Directory, tenant: Id, d': Directory, id: Id, m: Member)
    requires Mirrors(d, p, tenant) && m.tenant != tenant
    requires id in d.users ==> d.users[id].tenant == m.tenant
    requires d'.users == d.users[id := m]
    requires tenant in d.tenants ==> tenant in d'.tenants && d'.tenants[tenant] == d.tenants[tenant]
    requires tenant !in d.tenants ==> tenant !in d'.tenants
    ensures Mirrors(d', p, tenant)
  {
    MembersAfterUpdate(d.users, id, m, tenant);
  }

  lemma ForeignStepMirrors(d: Directory, p: Directory, op: Op, tenant: Id)
    requires Mirrors(d, p, tenant) && Fresh(d, op) && !Belongs(d, op, tenant)
    ensures Mirrors(Apply(d, op).0, p, tenant)
  {
    var d' := Apply(d, op).0;
    if d' != d {
      match op {
        case NewTenant(_, _, email, t, admin) =>
          ForeignUpdateMirrors(d, p, tenant, d', admin, Member(email, t, [ADMIN], true));
        case NewUser(t, email, user) =>
          ForeignUpdateMirrors(d, p, tenant, d', user, Member(email, t, [USER], true));
        case CloseTenant(actor, closed) => CloseTenantMirrors(d, p, tenant, d.users[actor], closed);
        case _ => ForeignUpdateMirrors(d, p, tenant, d', op.target, d'.users[op.target]);
      }
    }
  }

  // ----- whole runs -----

  /** What one's own operations hand out is unused in the mirror too. */
  lemma MirrorIsFresh(d: Directory, p: Directory, op: Op, tenant: Id)
    requires Mirrors(d, p, tenant) && Fresh(d, op) && Belongs(d, op, tenant)
    ensures Fresh(p, op)
  {
    if op.NewTenant? {
      MirroredMember(d, p, tenant, op.admin);
    } else if op.NewUser? {
      MirroredMember(d, p, tenant, op.user);
    }
  }

  lemma {:induction false} RunsMirror(d: Directory, p: Directory, ops: seq<Op>, tenant: Id)
    requires Mirrors(d, p, tenant) && Invariant(d) && Invariant(p)
    requires FreshRun(d, ops) && !NameRefused(d, ops, tenant)
    ensures Mirrors(RunFrom(d, ops), RunFrom(p, Project(d, ops, tenant)), tenant)
    decreases |ops|
  {
    if ops != [] {
      FreshRunTail(d, ops);
      ApplyKeepsInvariant(d, ops[0]);
      var d', rest := Apply(d, ops[0]).0, Project(Apply(d, ops[0]).0, ops[1..], tenant);
      if Belongs(d, ops[0], tenant) {
        OwnStepMirrors(d, p, ops[0], tenant);
        MirrorIsFresh(d, p, ops[0], tenant);
        ApplyKeepsInvariant(p, ops[0]);
        RunsMirror(d', Apply(p, ops[0]).0, ops[1..], tenant);
        assert ([ops[0]] + rest)[1..] == rest;
      } else {
        ForeignStepMirrors(d, p, ops[0], tenant);
        RunsMirror(d', p, ops[1..], tenant);
      }
    }
  }

  /** A tenant whose id is never handed out again stays unregistered. */
  lemma {:induction false} NeverRegistered(d: Directory, ops: seq<Op>, tenant: Id)
    requires Invariant(d) && FreshRun(d, ops) && tenant !in d.tenants
    requires forall i :: 0 <= i < |ops| ==> tenant !in NewTenantId(ops[i])
    ensures tenant !in RunFrom(d, ops).tenants && Invariant(RunFrom(d, ops))
    decreases |ops|
  {
    if ops != [] {
      FreshRunTail(d, ops);
      ApplyKeepsInvariant(d, ops[0]);
      ApplyAddsOnlyNewIds(d, ops[0]);
      assert tenant !in NewTenantId(ops[0]);
      forall i | 0 <= i < |ops[1..]| ensures tenant !in NewTenantId(ops[1..][i]) {
        assert ops[1..][i] == ops[i + 1];
      }
      NeverRegistered(Apply(d, ops[0]).0, ops[1..], tenant);
    }
  }

  lemma {:induction false} RegisteredStays(d: Directory, ops: seq<Op>, tenant: Id)
    requires tenant in d.tenants
    ensures tenant in RunFrom(d, ops).tenants
    decreases |ops|
  {
    if ops != [] {
      ApplyAddsOnlyNewIds(d, ops[0]);
      RegisteredStays(Apply(d, ops[0]).0, ops[1..], tenant);
    }
  }

  lemma {:induction false} ProjectIsFresh(d: Directory, ops: seq<Op>, tenant: Id)
    requires FreshRun(d, ops)
    ensures FreshRun(d, Project(d, ops, tenant))
    ensures forall op :: op in Project(d, ops, tenant) ==> op in ops
    decreases |ops|
  {
    if ops != [] {
      FreshRunTail(d, ops);
      var d', tail := Apply(d, ops[0]).0, ops[1..];
      ProjectIsFresh(d', tail, tenant);
      ApplyAddsOnlyNewIds(d, ops[0]);
      var rest := Project(d', tail, tenant);
      forall i | 0 <= i < |rest|
        ensures NewTenantId(rest[i]) !! NewTenantId(ops[0]) && NewUserId(rest[i]) !! NewUserId(ops[0])
      {
        assert rest[i] in rest;
        var j :| 0 <= j < |tail| && tail[j] == rest[i];
        assert tail[j] == ops[j + 1];
      }
    }
  }

  /** Mirrored directories draw on ids the full one has not used. */
  lemma MirrorRunIsFresh(d: Directory, p: Directory, op: Op, rest: seq<Op>, tenant: Id)
    requires Mirrors(d, p, tenant) && Fresh(d, op) && op.NewTenant? && op.tenant == tenant
    requires FreshRun(d, rest)
    requires forall i :: 0 <= i < |rest| ==>
        NewTenantId(rest[i]) !! NewTenantId(op) && NewUserId(rest[i]) !! NewUserId(op)
    ensures FreshRun(Apply(p, op).0, rest)
  {
    ApplyAddsOnlyNewIds(p, op);
    forall id | id in p.users ensures id in d.users {
      MirroredMember(d, p, tenant, id);
    }
    assert p.users.Keys <= d.users.Keys && p.tenants.Keys <= {tenant};
    forall i | 0 <= i < |rest|
      ensures NewTenantId(rest[i]) !! Apply(p, op).0.tenants.Keys && NewUserId(rest[i]) !! Apply(p, op).0.users.Keys
    {
      assert tenant in NewTenantId(op);
    }
  }

  lemma RefusedSideStaysEmpty(d: Directory, op: Op, tail: seq<Op>, tenant: Id)
    requires Invariant(d) && FreshRun(d, [op] + tail) && RefusedByName(d, op, tenant)
    ensures FreshRun(d, tail)
    ensures forall i :: 0 <= i < |tail| ==>
        NewTenantId(tail[i]) !! NewTenantId(op) && NewUserId(tail[i]) !! NewUserId(op)
    ensures MembersOf(RunFrom(d, tail).users, tenant) == map[]
  {
    var ops := [op] + tail;
    FreshRunTail(d, ops);
    assert ops[1..] == tail;
    forall i | 0 <= i < |tail|
      ensures tenant !in NewTenantId(tail[i])
      ensures NewTenantId(tail[i]) !! NewTenantId(op) && NewUserId(tail[i]) !! NewUserId(op)
    {
      assert tail[i] == ops[i + 1] && op == ops[0] && tenant in NewTenantId(op);
    }
    NeverRegistered(d, tail, tenant);
  }

  lemma AcceptedSideHasMembers(p: Directory, op: Op, rest: seq<Op>)
    requires Invariant(p) && Fresh(p, op) && op.NewTenant? && op.name !in p.names
    requires FreshRun(Apply(p, op).0, rest)
    ensures MembersOf(RunFrom(Apply(p, op).0, rest).users, op.tenant) != map[]
  {
    var p' := Apply(p, op).0;
    ApplyKeepsInvariant(p, op);
    RegisteredStays(p', rest, op.tenant);
    RunKeepsInvariant(p', rest);
    var final := RunFrom(p', rest);
    assert TenantSound(final.users, op.tenant, final.tenants[op.tenant].maxUsers);
    var admin :| admin in Admins(final.users, op.tenant);
    assert admin in MembersOf(final.users, op.tenant);
  }

  /** Refused in the full run, accepted in the projection: from then on the records differ for good. */
  lemma RefusalSeparates(d: Directory, p: Directory, ops: seq<Op>, tenant: Id)
    requires Mirrors(d, p, tenant) && Invariant(d) && Invariant(p) && FreshRun(d, ops)
    requires ops != [] && RefusedByName(d, ops[0], tenant)
    ensures MembersOf(RunFrom(d, ops).users, tenant) != MembersOf(RunFrom(p, Project(d, ops, tenant)).users, tenant)
  {
    var op, tail := ops[0], ops[1..];
    assert ops == [op] + tail;
    FreshRunTail(d, ops);
    assert MembersOf(RunFrom(d, ops).users, tenant) == map[] by {
      RefusedSideStaysEmpty(d, op, tail, tenant);
    }
    var rest := Project(d, tail, tenant);
    assert FreshRun(Apply(p, op).0, rest) by {
      AcceptedRunIsFresh(d, p, op, tail, tenant);
    }
    MirrorIsFresh(d, p, op, tenant);
    AcceptedSideHasMembers(p, op, rest);
    assert ([op] + rest)[1..] == rest;
  }

  lemma AcceptedRunIsFresh(d: Directory, p: Directory, op: Op, tail: seq<Op>, tenant: Id)
    requires Mirrors(d, p, tenant) && Invariant(d) && FreshRun(d, [op] + tail) && RefusedByName(d, op, tenant)
    ensures FreshRun(Apply(p, op).0, Project(d, tail, tenant))
  {
    FreshRunTail(d, [op] + tail);
    RefusedSideStaysEmpty(d, op, tail, tenant);
    var rest := Project(d, tail, tenant);
    ProjectIsFresh(d, tail, tenant);
    forall i | 0 <= i < |rest|
      ensures NewTenantId(rest[i]) !! NewTenantId(op) && NewUserId(rest[i]) !! NewUserId(op)
    {
      assert rest[i] in tail;
    }
    MirrorRunIsFresh(d, p, op, rest, tenant);
  }

  lemma {:induction false} RefusedRunsDiffer(d: Directory, p: Directory, ops: seq<Op>, tenant: Id)
    requires Mirrors(d, p, tenant) && Invariant(d) && Invariant(p) && FreshRun(d, ops)
    requires NameRefused(d, ops, tenant)
    ensures MembersOf(RunFrom(d, ops).users, tenant) != MembersOf(RunFrom(p, Project(d, ops, tenant)).users, tenant)
    decreases |ops|
  {
    if RefusedByName(d, ops[0], tenant) {
      RefusalSeparates(d, p, ops, tenant);
    } else {
      FreshRunTail(d, ops);
      ApplyKeepsInvariant(d, ops[0]);
      var d', rest := Apply(d, ops[0]).0, Project(Apply(d, ops[0]).0, ops[1..], tenant);
      if Belongs(d, ops[0], tenant) {
        OwnStepMirrors(d, p, ops[0], tenant);
        MirrorIsFresh(d, p, ops[0], tenant);
        ApplyKeepsInvariant(p, ops[0]);
        RefusedRunsDiffer(d', Apply(p, ops[0]).0, ops[1..], tenant);
        assert ([ops[0]] + rest)[1..] == rest;
      } else {
        ForeignStepMirrors(d, p, ops[0], tenant);
        RefusedRunsDiffer(d', p, ops[1..], tenant);
      }
    }
  }

  /**
   Isolation of user records: a tenant's user records after a run are those of the run with everybody else's
   operations removed, if and only if its own registration was not refused for a name already taken.
   */
  lemma RecordsMeetOnlyInNames(ops: seq<Op>, tenant: Id)
    requires FreshRun(EMPTY, ops)
    ensures MembersOf(RunFrom(EMPTY, ops).users, tenant)
              == MembersOf(RunFrom(EMPTY, Project(EMPTY, ops, tenant)).users, tenant)
       <==> !NameRefused(EMPTY, ops, tenant)
  {
    assert Invariant(EMPTY) && Mirrors(EMPTY, EMPTY, tenant);
    if NameRefused(EMPTY, ops, tenant) {
      RefusedRunsDiffer(EMPTY, EMPTY, ops, tenant);
    } else {
      RunsMirror(EMPTY, EMPTY, ops, tenant);
    }
  }

  /** The condition is not vacuous: two tenants can ask for one name. */
  lemma ANameCanBeTaken(a: Id, b: Id, u: Id, v: Id, name: string)
    requires a != b && u != v
    ensures var ops := [NewTenant(name, Basic, "a", a, u), NewTenant(name, Basic, "b", b, v)];
      FreshRun(EMPTY, ops) && NameRefused(EMPTY, ops, b)
  {
    var ops := [NewTenant(name, Basic, "a", a, u), NewTenant(name, Basic, "b", b, v)];
    var d := Apply(EMPTY, ops[0]).0;
    assert ops[1..] == [ops[1]];
    assert RefusedByName(d, ops[1..][0], b);
  }
}
