/**
 The indexed context table: contexts by id, and for each tenant the ids created for it. A context is
 loaded in the background: the load looks the context up, waits, and then stores the object it looked
 up again, whatever has happened to the table in the meantime.
 */
module ContextTable {
  import opened Basics

  datatype Tenant = Tenant(text: string)

  datatype ContextId = ContextId(text: string)

  datatype Status = Initializing | Running | Error

  datatype Record = Record(tenant: Tenant, expires: Option<real>, status: Status)

  datatype Table = Table(contexts: map<ContextId, Record>, index: map<Tenant, seq<ContextId>>)

  function IndexOf(t: Table, tenant: Tenant): seq<ContextId> {
    if tenant in t.index then t.index[tenant] else []
  }

  function Create(t: Table, tenant: Tenant, id: ContextId, expires: Option<real>): Table {
    Table(t.contexts[id := Record(tenant, expires, Initializing)], t.index[tenant := IndexOf(t, tenant) + [id]])
  }

  /** A finished load puts its own record back, present or not. */
  function Finish(t: Table, id: ContextId, held: Record, ok: bool): Table {
    t.(contexts := t.contexts[id := held.(status := if ok then Running else Error)])
  }

  function Delete(t: Table, id: ContextId): Table {
    if id !in t.contexts then t
    else
      var tenant := t.contexts[id].tenant;
      Table(t.contexts - {id},
            if tenant in t.index then t.index[tenant := RemoveFirst(t.index[tenant], id)] else t.index)
  }

  function DeleteAll(t: Table, ids: seq<ContextId>): Table {
    if ids == [] then t else Delete(DeleteAll(t, ids[..|ids| - 1]), ids[|ids| - 1])
  }

  function Present(t: Table, ids: seq<ContextId>): seq<ContextId> {
    if ids == [] then []
    else
      var rest := Present(t, ids[..|ids| - 1]);
      if ids[|ids| - 1] in t.contexts then rest + [ids[|ids| - 1]] else rest
  }

  /** What a tenant is told it has. */
  function Listing(t: Table, tenant: Tenant): seq<ContextId> {
    Present(t, IndexOf(t, tenant))
  }

  predicate Expired(t: Table, id: ContextId, now: real) {
    id in t.contexts && t.contexts[id].expires.Some? && t.contexts[id].expires.value < now
  }

  lemma {:induction false} DeletesExactly(t: Table, ids: seq<ContextId>)
    ensures DeleteAll(t, ids).contexts == map id | id in t.contexts && id !in ids :: t.contexts[id]
  {
    if ids != [] {
      DeletesExactly(t, ids[..|ids| - 1]);
      assert ids == ids[..|ids| - 1] + [ids[|ids| - 1]];
    }
  }

  /** A context survives a sweep exactly if it has no time to live or that has not run out before now. */
  predicate Survives(t: Table, id: ContextId, now: real) {
    id in t.contexts && (t.contexts[id].expires.None? || now <= t.contexts[id].expires.value)
  }

  lemma SweepLeavesExactly(t: Table, expired: seq<ContextId>, now: real)
    requires forall id :: id in expired <==> Expired(t, id, now)
    ensures DeleteAll(t, expired).contexts == map id | id in t.contexts && Survives(t, id, now) :: t.contexts[id]
  {
    DeletesExactly(t, expired);
  }

  predicate Distinct(ids: seq<ContextId>) {
    forall i, j :: 0 <= i < j < |ids| ==> ids[i] != ids[j]
  }

  // ----- the manager -----

  class ModelContext {
    const id: ContextId
    const tenant: Tenant
    var expires: Option<real>
    var status: Status

    constructor (id: ContextId, tenant: Tenant)
      ensures this.id == id && this.tenant == tenant && expires == None && status == Initializing
    {
      this.id, this.tenant, expires, status := id, tenant, None, Initializing;
    }

    function Value(): Record
      reads this
    {
      Record(tenant, expires, status)
    }
  }

  class ContextManager {
    var contexts: map<ContextId, ModelContext>
    var tenantContexts: map<Tenant, seq<ContextId>>

    constructor ()
      ensures Valid() && Contents() == Table(map[], map[])
    {
      contexts, tenantContexts := map[], map[];
    }

    ghost predicate Valid()
      reads this
    {
      forall id :: id in contexts ==> contexts[id].id == id
    }

    ghost function Contents(): Table
      reads this, contexts.Values
    {
      Table(map id | id in contexts :: contexts[id].Value(), tenantContexts)
    }

    method CreateContext(tenant: Tenant, id: ContextId, ttl: Option<real>, now: real) returns (context: ModelContext)
      requires Valid() && id !in contexts
      modifies this
      ensures Valid() && fresh(context) && context.id == id && id in contexts && contexts[id] == context
      ensures Contents() == Create(old(Contents()), tenant, id, if ttl.Some? then Some(now + ttl.value) else None)
    {
      context := new ModelContext(id, tenant);
      if ttl.Some? {
        context.expires := Some(now + ttl.value);
      }
      Store(context);
    }

    method Store(context: ModelContext)
      requires Valid() && context.id !in contexts && context.status == Initializing
      modifies this
      ensures Valid() && contexts == old(contexts)[context.id := context]
      ensures Contents() == Create(old(Contents()), context.tenant, context.id, context.expires)
    {
      contexts := contexts[context.id := context];
      if context.tenant !in tenantContexts {
        tenantContexts := tenantContexts[context.tenant := []];
      }
      tenantContexts := tenantContexts[context.tenant := tenantContexts[context.tenant] + [context.id]];
      assert tenantContexts ==
        old(tenantContexts)[context.tenant := IndexOf(old(Contents()), context.tenant) + [context.id]];
    }

    method GetContext(id: ContextId) returns (context: ModelContext?)
      ensures context == if id in contexts then contexts[id] else null
    {
      if id in contexts {
        return contexts[id];
      }
      return null;
    }

    /** The end of a load that looked `context` up some time ago. */
    method FinishInitialization(context: ModelContext, ok: bool)
      requires Valid() && (context.id in contexts ==> contexts[context.id] == context)
      modifies this, context
      ensures Valid() && context.id in contexts && contexts[context.id] == context
      ensures Contents() == Finish(old(Contents()), context.id, old(context.Value()), ok)
    {
      ghost var before := Contents();
      context.status := if ok then Running else Error;
      contexts := contexts[context.id := context];
      assert Contents().contexts == before.contexts[context.id := context.Value()];
    }

    method GetTenantContexts(tenant: Tenant) returns (found: seq<ModelContext>)
      requires Valid()
      ensures |found| == |Listing(Contents(), tenant)|
      ensures forall i :: 0 <= i < |found| ==>
          found[i].id == Listing(Contents(), tenant)[i] && found[i] in contexts.Values
    {
      var ids: seq<ContextId> := [];
      if tenant in tenantContexts {
        ids := tenantContexts[tenant];
      }
      found := [];
      for i := 0 to |ids|
        invariant |found| == |Present(Contents(), ids[..i])|
        invariant forall k :: 0 <= k < |found| ==>
            found[k].id == Present(Contents(), ids[..i])[k] && found[k] in contexts.Values
      {
        assert ids[..i + 1][..i] == ids[..i];
        if ids[i] in contexts {
          found := found + [contexts[ids[i]]];
        }
      }
      assert ids[..|ids|] == ids;
    }

    method DeleteContext(id: ContextId) returns (deleted: bool)
      requires Valid()
      modifies this
      ensures Valid() && deleted == (id in old(contexts))
      ensures Contents() == Delete(old(Contents()), id) && contexts == old(contexts) - {id}
    {
      if id !in contexts {
        return false;
      }
      var context := contexts[id];
      contexts := contexts - {id};
      var tenant := context.tenant;
      if tenant in tenantContexts {
        tenantContexts := tenantContexts[tenant := RemoveFirst(tenantContexts[tenant], id)];
      }
      return true;
    }

    method ScanExpired(now: real) returns (expired: seq<ContextId>)
      requires Valid()
      ensures forall id :: id in expired <==> Expired(Contents(), id, now)
      ensures Distinct(expired)
    {
      expired := [];
      var ids := contexts.Keys;
      while ids != {}
        invariant ids <= contexts.Keys && Distinct(expired)
        invariant forall id :: id in expired <==> Expired(Contents(), id, now) && id !in ids
        decreases ids
      {
        var id :| id in ids;
        ids := ids - {id};
        if contexts[id].expires.Some? && contexts[id].expires.value < now {
          expired := expired + [id];
        }
      }
    }

    /** Undisturbed: others may run between the scan and each deletion. */
    method CleanupExpiredContexts(now: real) returns (count: nat, ghost expired: seq<ContextId>)
      requires Valid()
      modifies this
      ensures Valid() && Distinct(expired) && count == |expired|
      ensures forall id :: id in expired <==> Expired(old(Contents()), id, now)
      ensures Contents() == DeleteAll(old(Contents()), expired)
      ensures forall id :: id in contexts <==> Survives(old(Contents()), id, now)
    {
      var found := ScanExpired(now);
      expired := found;
      count := 0;
      assert forall k :: 0 <= k < |found| ==> Expired(Contents(), found[k], now);
      for i := 0 to |found|
        invariant Valid() && count == i && Contents() == DeleteAll(old(Contents()), found[..i])
        invariant forall k :: i <= k < |found| ==> found[k] in contexts
      {
        var deleted := DeleteContext(found[i]);
        if deleted {
          count := count + 1;
        }
        assert found[..i + 1][..i] == found[..i];
      }
      assert found[..|found|] == found;
      SweepLeavesExactly(old(Contents()), found, now);
      assert contexts.Keys == Contents().contexts.Keys;
    }
  }
}
