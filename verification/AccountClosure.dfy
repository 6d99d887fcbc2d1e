/**
 Closing a tenant: what it does to the tenant's users, that it is for good, and how far the answers of
 permission checks depend on other tenants, whose admins may close any tenant.
 */
module AccountClosure {
  import opened Basics
  import opened Accounts
  import opened AccountRuns
  import opened AccountIsolation

  /** A member of the tenant closes it. */
  predicate OwnClose(d: Directory, op: Op, tenant: Id) {
    && op.CloseTenant? && op.tenant == tenant && tenant in d.tenants && op.actor in d.users
    && d.users[op.actor].tenant == tenant && d.users[op.actor].Has(ManageTenant)
  }

  /** An ADMIN of another tenant closes it. */
  predicate ForeignClose(d: Directory, op: Op, tenant: Id) {
    && op.CloseTenant? && op.tenant == tenant && tenant in d.tenants && op.actor in d.users
    && d.users[op.actor].tenant != tenant && ADMIN in d.users[op.actor].roles
  }

  predicate OwnClosed(d: Directory, ops: seq<Op>, tenant: Id)
    decreases |ops|
  {
    ops != [] && (OwnClose(d, ops[0], tenant) || OwnClosed(Apply(d, ops[0]).0, ops[1..], tenant))
  }

  predicate ForeignClosed(d: Directory, ops: seq<Op>, tenant: Id)
    decreases |ops|
  {
    ops != [] && (ForeignClose(d, ops[0], tenant) || ForeignClosed(Apply(d, ops[0]).0, ops[1..], tenant))
  }

  predicate Open(d: Directory, tenant: Id) {
    tenant in d.tenants && d.tenants[tenant].active
  }

  predicate Closed(d: Directory, tenant: Id) {
    tenant in d.tenants && !d.tenants[tenant].active
  }

  lemma AdminsManage(m: Member)
    ensures ADMIN in m.roles ==> m.Has(ManageTenant)
  {
    if ADMIN in m.roles {
      PermissionsAreTheUnion(m.roles, ManageTenant);
      assert ManageTenant in RolePermissions(ADMIN);
    }
  }

  /** One step closes a registered tenant exactly by one of the two guards, and no step opens it again. */
  lemma StepCloses(d: Directory, op: Op, tenant: Id)
    requires Fresh(d, op)
    ensures var d' := Apply(d, op).0;
      && (tenant in d.tenants ==> tenant in d'.tenants)
      && (tenant in d.tenants ==>
            (Open(d', tenant) <==> Open(d, tenant) && !OwnClose(d, op, tenant) && !ForeignClose(d, op, tenant)))
      && (tenant !in d.tenants && tenant in d'.tenants ==> Open(d', tenant))
  {
    if op.CloseTenant? && op.actor in d.users {
      AdminsManage(d.users[op.actor]);
    }
  }

  lemma {:induction false} OpenUnlessClosed(d: Directory, ops: seq<Op>, tenant: Id)
    requires FreshRun(d, ops) && tenant in RunFrom(d, ops).tenants
    ensures Open(RunFrom(d, ops), tenant) <==>
      !Closed(d, tenant) && !OwnClosed(d, ops, tenant) && !ForeignClosed(d, ops, tenant)
    decreases |ops|
  {
    if ops != [] {
      FreshRunTail(d, ops);
      StepCloses(d, ops[0], tenant);
      OpenUnlessClosed(Apply(d, ops[0]).0, ops[1..], tenant);
    }
  }

  /** In the run with everybody else's operations removed only the tenant's own closes are left. */
  lemma {:induction false} ProjectedOpenUnlessClosed(d: Directory, p: Directory, ops: seq<Op>, tenant: Id)
    requires Mirrors(d, p, tenant) && Invariant(d) && Invariant(p)
    requires FreshRun(d, ops) && !NameRefused(d, ops, tenant)
    requires tenant in RunFrom(p, Project(d, ops, tenant)).tenants
    ensures Open(RunFrom(p, Project(d, ops, tenant)), tenant) <==> !Closed(p, tenant) && !OwnClosed(d, ops, tenant)
    decreases |ops|
  {
    if ops != [] {
      FreshRunTail(d, ops);
      ApplyKeepsInvariant(d, ops[0]);
      var d', rest := Apply(d, ops[0]).0, Project(Apply(d, ops[0]).0, ops[1..], tenant);
      if Belongs(d, ops[0], tenant) {
        OwnStepMirrors(d, p, ops[0], tenant);
        MirrorIsFresh(d, p, ops[0], tenant);
        ApplyKeepsInvariant(p, ops[0]);
        StepCloses(p, ops[0], tenant);
        OwnCloseMirrors(d, p, ops[0], tenant);
        assert ([ops[0]] + rest)[1..] == rest;
        ProjectedOpenUnlessClosed(d', Apply(p, ops[0]).0, ops[1..], tenant);
      } else {
        ForeignStepMirrors(d, p, ops[0], tenant);
        ProjectedOpenUnlessClosed(d', p, ops[1..], tenant);
      }
    }
  }

  lemma OwnCloseMirrors(d: Directory, p: Directory, op: Op, tenant: Id)
    requires Mirrors(d, p, tenant)
    ensures OwnClose(p, op, tenant) <==> OwnClose(d, op, tenant)
    ensures !ForeignClose(p, op, tenant)
  {
    if op.CloseTenant? {
      MirroredMember(d, p, tenant, op.actor);
    }
  }

  // ----- what permission checks answer -----

  /** Every check on a user of the tenant is answered alike. */
  ghost predicate SameAnswers(d: Directory, p: Directory, tenant: Id) {
    forall user, permission :: user in MembersOf(d.users, tenant) || user in MembersOf(p.users, tenant) ==>
      CheckPermission(d, user, permission) == CheckPermission(p, user, permission)
  }

  lemma SomebodyManages(d: Directory, tenant: Id) returns (admin: Id)
    requires Invariant(d) && tenant in d.tenants
    ensures admin in d.users && d.users[admin].tenant == tenant && d.users[admin].active
        && d.users[admin].Has(ManageTenant)
  {
    assert TenantSound(d.users, tenant, d.tenants[tenant].maxUsers);
    admin :| admin in Admins(d.users, tenant);
    AdminsManage(d.users[admin]);
  }

  lemma CheckReadsTheRecord(d: Directory, p: Directory, tenant: Id, user: Id, permission: Permission)
    requires Mirrors(d, p, tenant) && tenant in d.tenants && user in d.users && d.users[user].tenant == tenant
    ensures user in p.users
    ensures CheckPermission(d, user, permission) <==>
      Open(d, tenant) && d.users[user].active && d.users[user].Has(permission)
    ensures CheckPermission(p, user, permission) <==>
      Open(p, tenant) && d.users[user].active && d.users[user].Has(permission)
  {
    MirroredMember(d, p, tenant, user);
  }

  lemma AnswersFollowTheFlag(d: Directory, p: Directory, tenant: Id)
    requires Mirrors(d, p, tenant) && Invariant(d) && tenant in d.tenants
    ensures SameAnswers(d, p, tenant) <==> (Open(d, tenant) <==> Open(p, tenant))
  {
    var admin := SomebodyManages(d, tenant);
    CheckReadsTheRecord(d, p, tenant, admin, ManageTenant);
    assert admin in MembersOf(d.users, tenant);
    if Open(d, tenant) != Open(p, tenant) {
      assert CheckPermission(d, admin, ManageTenant) != CheckPermission(p, admin, ManageTenant);
    } else {
      forall user, permission | user in MembersOf(d.users, tenant) || user in MembersOf(p.users, tenant)
        ensures CheckPermission(d, user, permission) == CheckPermission(p, user, permission)
      {
        MirroredMember(d, p, tenant, user);
        CheckReadsTheRecord(d, p, tenant, user, permission);
      }
    }
  }

  /**
   Isolation of permission checks: for a tenant whose registration was not refused, every check on its
   users is answered as in the run with everybody else's operations removed, if and only if no ADMIN of
   another tenant closed it or it was closed by a member of its own too.
   */
  lemma AnswersMeetInForeignCloses(ops: seq<Op>, tenant: Id)
    requires FreshRun(EMPTY, ops) && !NameRefused(EMPTY, ops, tenant)
    ensures SameAnswers(RunFrom(EMPTY, ops), RunFrom(EMPTY, Project(EMPTY, ops, tenant)), tenant)
       <==> !ForeignClosed(EMPTY, ops, tenant) || OwnClosed(EMPTY, ops, tenant)
    ensures var d, p := RunFrom(EMPTY, ops), RunFrom(EMPTY, Project(EMPTY, ops, tenant));
      SameAnswers(d, p, tenant) <==> !Closed(d, tenant) || Closed(p, tenant)
  {
    assert Invariant(EMPTY) && Mirrors(EMPTY, EMPTY, tenant);
    var d, p := RunFrom(EMPTY, ops), RunFrom(EMPTY, Project(EMPTY, ops, tenant));
    RunsMirror(EMPTY, EMPTY, ops, tenant);
    BothInvariant(EMPTY, EMPTY, ops, tenant);
    if tenant in d.tenants {
      OpenUnlessClosed(EMPTY, ops, tenant);
      ProjectedOpenUnlessClosed(EMPTY, EMPTY, ops, tenant);
      AnswersFollowTheFlag(d, p, tenant);
    } else {
      NeverClosed(EMPTY, ops, tenant);
      assert MembersOf(d.users, tenant) == map[] by {
        assert forall id :: id in d.users ==> d.users[id].tenant in d.tenants;
      }
    }
  }

  lemma {:induction false} BothInvariant(d: Directory, p: Directory, ops: seq<Op>, tenant: Id)
    requires Mirrors(d, p, tenant) && Invariant(d) && Invariant(p)
    requires FreshRun(d, ops) && !NameRefused(d, ops, tenant)
    ensures Invariant(RunFrom(d, ops)) && Invariant(RunFrom(p, Project(d, ops, tenant)))
    decreases |ops|
  {
    if ops != [] {
      FreshRunTail(d, ops);
      ApplyKeepsInvariant(d, ops[0]);
      var d', rest := Apply(d, ops[0]).0, Project(Apply(d, ops[0]).0, ops[1..], tenant);
      if Belongs(d, ops[0], tenant) {
        OwnStepMirrors(d, p, ops[0], tenant);
        MirrorIsFresh(d, p, ops[0], tenant);
        ApplyKeepsInvariant(p, ops[0]);
        BothInvariant(d', Apply(p, ops[0]).0, ops[1..], tenant);
        assert ([ops[0]] + rest)[1..] == rest;
      } else {
        ForeignStepMirrors(d, p, ops[0], tenant);
        BothInvariant(d', p, ops[1..], tenant);
      }
    }
  }

  /** A tenant that is not registered at the end was never closed. */
  lemma {:induction false} NeverClosed(d: Directory, ops: seq<Op>, tenant: Id)
    requires FreshRun(d, ops) && tenant !in RunFrom(d, ops).tenants
    ensures tenant !in d.tenants && !OwnClosed(d, ops, tenant) && !ForeignClosed(d, ops, tenant)
    decreases |ops|
  {
    if ops != [] {
      FreshRunTail(d, ops);
      StepCloses(d, ops[0], tenant);
      NeverClosed(Apply(d, ops[0]).0, ops[1..], tenant);
    }
  }

  // ----- what closing does -----

  lemma {:induction false} RunJoins(d: Directory, ops: seq<Op>, more: seq<Op>)
    ensures RunFrom(d, ops + more) == RunFrom(RunFrom(d, ops), more)
    decreases |ops|
  {
    if ops == [] {
      assert ops + more == more;
    } else {
      assert (ops + more)[1..] == ops[1..] + more;
      RunJoins(Apply(d, ops[0]).0, ops[1..], more);
    }
  }

  ghost predicate AllInactive(d: Directory, tenant: Id) {
    forall id :: id in d.users && d.users[id].tenant == tenant ==> !d.users[id].active
  }

  /**
   Closing a tenant deactivates nobody: its users are all inactive afterwards exactly if they were
   before, and in a reachable state they never are.
   */
  lemma CloseDeactivatesNobody(ops: seq<Op>, actor: Member, tenant: Id)
    requires FreshRun(EMPTY, ops) && DeactivateTenant(RunFrom(EMPTY, ops), actor, tenant).1.Ok?
    ensures var d := RunFrom(EMPTY, ops);
      var d' := DeactivateTenant(d, actor, tenant).0;
      && Closed(d', tenant) && d'.users == d.users
      && (AllInactive(d', tenant) <==> AllInactive(d, tenant)) && !AllInactive(d', tenant)
  {
    EveryTenantStaysAdministered(ops, tenant);
  }

  lemma {:induction false} FreshTail(d: Directory, ops: seq<Op>, more: seq<Op>)
    requires FreshRun(d, ops + more)
    ensures FreshRun(RunFrom(d, ops), more)
    decreases |ops|
  {
    if ops == [] {
      assert ops + more == more;
    } else {
      FreshRunTail(d, ops + more);
      assert (ops + more)[0] == ops[0] && (ops + more)[1..] == ops[1..] + more;
      FreshTail(Apply(d, ops[0]).0, ops[1..], more);
    }
  }

  lemma {:induction false} StaysClosed(d: Directory, more: seq<Op>, tenant: Id)
    requires FreshRun(d, more) && Closed(d, tenant)
    ensures Closed(RunFrom(d, more), tenant)
    decreases |more|
  {
    if more != [] {
      FreshRunTail(d, more);
      StepCloses(d, more[0], tenant);
      StaysClosed(Apply(d, more[0]).0, more[1..], tenant);
    }
  }

  /**
   Closing is for good over the modelled operations: however a run of them goes on, every check on a user
   of the tenant answers no. `reactivate_tenant`, documented to reopen the tenant, is not one of them: its
   text breaks off before it writes anything.
   */
  lemma ClosedForGood(ops: seq<Op>, more: seq<Op>, tenant: Id, user: Id, permission: Permission)
    requires FreshRun(EMPTY, ops + more) && Closed(RunFrom(EMPTY, ops), tenant)
    ensures var d := RunFrom(EMPTY, ops + more);
      Closed(d, tenant) && (user in d.users && d.users[user].tenant == tenant ==> !CheckPermission(d, user, permission))
  {
    FreshTail(EMPTY, ops, more);
    StaysClosed(RunFrom(EMPTY, ops), more, tenant);
    RunJoins(EMPTY, ops, more);
  }

  // ----- runs that show it -----

  lemma RunOfTwo(a: Op, b: Op)
    ensures RunFrom(EMPTY, [a, b]) == Apply(Apply(EMPTY, a).0, b).0
  {
    var d := Apply(EMPTY, a).0;
    assert [a, b][1..] == [b] && [b][1..] == [];
    assert RunFrom(d, [b]) == RunFrom(Apply(d, b).0, []);
  }

  /** A tenant closed by its own admin: the admin stays active, and may do nothing. */
  lemma ClosedAdminStaysActive(name: string, tenant: Id, admin: Id, permission: Permission)
    ensures var ops := [NewTenant(name, Basic, "a", tenant, admin), CloseTenant(admin, tenant)];
      var d := RunFrom(EMPTY, ops);
      && FreshRun(EMPTY, ops) && Closed(d, tenant)
      && admin in d.users && d.users[admin].active && ADMIN in d.users[admin].roles
      && !CheckPermission(d, admin, permission)
  {
    var open, close := NewTenant(name, Basic, "a", tenant, admin), CloseTenant(admin, tenant);
    var d := Apply(EMPTY, open).0;
    RunOfTwo(open, close);
    assert d.users[admin] == Member("a", tenant, [ADMIN], true) && d.users[admin].roles[0] == ADMIN;
    AdminsManage(d.users[admin]);
  }

  /** Two tenants with different names; the first one's admin closes the second. */
  function Intrusion(name: string, other: string, a: Id, b: Id, u: Id, v: Id): seq<Op> {
    [NewTenant(name, Basic, "a", a, u), NewTenant(other, Basic, "b", b, v), CloseTenant(u, b)]
  }

  lemma AnotherAdminCloses(name: string, other: string, a: Id, b: Id, u: Id, v: Id)
    requires a != b && u != v && name != other
    ensures var ops := Intrusion(name, other, a, b, u, v);
      && FreshRun(EMPTY, ops) && !NameRefused(EMPTY, ops, b)
      && !SameAnswers(RunFrom(EMPTY, ops), RunFrom(EMPTY, Project(EMPTY, ops, b)), b)
  {
    var ops := Intrusion(name, other, a, b, u, v);
    var d := Apply(EMPTY, ops[0]).0;
    var e := Apply(d, ops[1]).0;
    assert ops[1..] == [ops[1], ops[2]] && ops[1..][0] == ops[1] && ops[1..][1..] == [ops[2]] && [ops[2]][1..] == [];
    assert d.names == map[name := a] && !RefusedByName(d, ops[1], b);
    assert e.users[u] == Member("a", a, [ADMIN], true) && e.users[u].roles[0] == ADMIN;
    assert ForeignClose(e, ops[2], b) && !OwnClose(e, ops[2], b);
    LastOfThree(ops, d, e, b);
    AnswersMeetInForeignCloses(ops, b);
  }

  lemma LastOfThree(ops: seq<Op>, d: Directory, e: Directory, tenant: Id)
    requires |ops| == 3 && d == Apply(EMPTY, ops[0]).0 && e == Apply(d, ops[1]).0
    ensures NameRefused(EMPTY, ops, tenant) <==>
      RefusedByName(EMPTY, ops[0], tenant) || RefusedByName(d, ops[1], tenant) || RefusedByName(e, ops[2], tenant)
    ensures OwnClosed(EMPTY, ops, tenant) <==>
      OwnClose(EMPTY, ops[0], tenant) || OwnClose(d, ops[1], tenant) || OwnClose(e, ops[2], tenant)
    ensures ForeignClosed(EMPTY, ops, tenant) <==>
      ForeignClose(EMPTY, ops[0], tenant) || ForeignClose(d, ops[1], tenant) || ForeignClose(e, ops[2], tenant)
  {
    var two, one := ops[1..], ops[1..][1..];
    assert two[0] == ops[1] && one[0] == ops[2] && one[1..] == [];
    assert NameRefused(d, two, tenant) <==> RefusedByName(d, ops[1], tenant) || NameRefused(e, one, tenant);
    assert OwnClosed(d, two, tenant) <==> OwnClose(d, ops[1], tenant) || OwnClosed(e, one, tenant);
    assert ForeignClosed(d, two, tenant) <==> ForeignClose(d, ops[1], tenant) || ForeignClosed(e, one, tenant);
    var last := Apply(e, ops[2]).0;
    assert !NameRefused(last, [], tenant) && !OwnClosed(last, [], tenant) && !ForeignClosed(last, [], tenant);
  }
}
