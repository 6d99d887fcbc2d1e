/**
 The per-tenant context manager with its background reaper: contexts, their metadata and the resource
 counters of each tenant, as one state and the steps that change it. The reaper scans in one step and
 removes what it found one context at a time, with other operations in between.
 */
module ContextReaper {
  import opened Basics

  datatype Tenant = Tenant(text: string)

  datatype ContextId = ContextId(text: string)

  datatype Key = Key(tenant: Tenant, id: ContextId)

  datatype Status = Initializing | Ready | Deleted

  datatype Metadata = Metadata(model: string, created: real, lastAccessed: real, status: Status)

  datatype Context = Context(id: ContextId, model: string)

  datatype Resources = Resources(maxContexts: int, current: int, memory: int, maxMemory: int)

  const FRESH_RESOURCES := Resources(10, 0, 0, 1000)
  const CONTEXT_MEMORY := 100
  const EXPIRATION := 3600.0

  datatype State = State(
    contexts: map<Tenant, map<ContextId, Context>>,
    metadata: map<Tenant, map<ContextId, Metadata>>,
    resources: map<Tenant, Resources>)

  const NOTHING := State(map[], map[], map[])

  datatype Outcome = Done | Exhausted | TenantNotFound | ContextNotFound | Failed

  predicate Live(s: State, key: Key) {
    key.tenant in s.contexts && key.id in s.contexts[key.tenant]
  }

  function ContextsOf(s: State, tenant: Tenant): map<ContextId, Context> {
    if tenant in s.contexts then s.contexts[tenant] else map[]
  }

  function MetadataOf(s: State, tenant: Tenant): map<ContextId, Metadata> {
    if tenant in s.metadata then s.metadata[tenant] else map[]
  }

  function ResourcesOf(s: State, tenant: Tenant): Resources {
    if tenant in s.resources then s.resources[tenant] else FRESH_RESOURCES
  }

  /**
   A refused creation leaves the tenant's counters behind, if it had none. A tenant new to the context
   table gets a new metadata table too; one that is missing only its metadata makes the creation fail.
   */
  function Create(s: State, key: Key, model: string, now: real): (State, Outcome) {
    var r := ResourcesOf(s, key.tenant);
    var counted := s.(resources := s.resources[key.tenant := r]);
    if |ContextsOf(s, key.tenant)| >= r.maxContexts || r.memory + CONTEXT_MEMORY > r.maxMemory then (counted, Exhausted)
    else if key.tenant in s.contexts && key.tenant !in s.metadata then (counted, Failed)
    else
      var records := if key.tenant in s.contexts then s.metadata[key.tenant] else map[];
      (State(s.contexts[key.tenant := ContextsOf(s, key.tenant)[key.id := Context(key.id, model)]],
             s.metadata[key.tenant := records[key.id := Metadata(model, now, now, Ready)]],
             s.resources[key.tenant := r.(current := r.current + 1, memory := r.memory + CONTEXT_MEMORY)]), Done)
  }

  function Find(s: State, key: Key): Outcome {
    if key.tenant !in s.contexts then TenantNotFound
    else if key.id !in s.contexts[key.tenant] then ContextNotFound
    else Done
  }

  /** Looking a context up refreshes it; it fails on a context without metadata. */
  function Touch(s: State, key: Key, now: real): (State, Outcome) {
    if Find(s, key) != Done then (s, Find(s, key))
    else if key.tenant !in s.metadata || key.id !in s.metadata[key.tenant] then (s, Failed)
    else
      var m := s.metadata[key.tenant][key.id];
      (s.(metadata := s.metadata[key.tenant := s.metadata[key.tenant][key.id := m.(lastAccessed := now)]]), Done)
  }

  /** Take a live context out of the tables; the counters are clamped at zero. */
  function Discard(s: State, key: Key): State
    requires Live(s, key)
  {
    var r := ResourcesOf(s, key.tenant);
    State(s.contexts[key.tenant := s.contexts[key.tenant] - {key.id}],
          if key.tenant in s.metadata then s.metadata[key.tenant := s.metadata[key.tenant] - {key.id}] else s.metadata,
          s.resources[key.tenant := r.(current := Max(0, r.current - 1), memory := Max(0, r.memory - CONTEXT_MEMORY))])
  }

  function Delete(s: State, key: Key): (State, Outcome) {
    if Live(s, key) then (Discard(s, key), Done) else (s, Find(s, key))
  }

  predicate Expired(s: State, key: Key, now: real) {
    key.tenant in s.metadata && key.id in s.metadata[key.tenant]
    && now - s.metadata[key.tenant][key.id].lastAccessed > EXPIRATION
  }

  /** What the reaper does with one context it found: it may be gone already. */
  function Reap(s: State, key: Key): State {
    if Live(s, key) then Discard(s, key) else s
  }

  /** Describing a context twice leaves the second description. */
  lemma DescribedTwice(metadata: map<Tenant, map<ContextId, Metadata>>, tenant: Tenant, id: ContextId, a: Metadata,
                       b: Metadata)
    requires tenant in metadata
    ensures metadata[tenant := metadata[tenant][id := a]][tenant := metadata[tenant][id := a][id := b]]
         == metadata[tenant := metadata[tenant][id := b]]
  {
    assert metadata[tenant][id := a][id := b] == metadata[tenant][id := b];
  }

  // ----- the manager -----

  class ContextManager {
    var contexts: map<Tenant, map<ContextId, Context>>
    var metadata: map<Tenant, map<ContextId, Metadata>>
    var tenantResources: map<Tenant, Resources>
    /** Every release of a context's resources, in order. */
    ghost var released: seq<Key>

    constructor ()
      ensures Contents() == NOTHING && released == []
    {
      contexts, metadata, tenantResources, released := map[], map[], map[], [];
    }

    function Contents(): State
      reads `contexts, `metadata, `tenantResources
    {
      State(contexts, metadata, tenantResources)
    }

    method CreateContext(tenant: Tenant, id: ContextId, model: string, now: real) returns (outcome: Outcome)
      modifies this
      ensures (Contents(), outcome) == Create(old(Contents()), Key(tenant, id), model, now)
      ensures released == old(released)
    {
      var ok := CheckResourceLimits(tenant);
      if !ok {
        return Exhausted;
      }
      if tenant in contexts && tenant !in metadata {
        return Failed;
      }
      Store(tenant, id, model, now);
      UpdateTenantResources(tenant, true);
      var r := ResourcesOf(old(Contents()), tenant);
      assert tenantResources
          == old(tenantResources)[tenant := r.(current := r.current + 1, memory := r.memory + CONTEXT_MEMORY)];
      return Done;
    }

    /** The metadata goes in as initializing and is marked ready once the context is stored. */
    method Store(tenant: Tenant, id: ContextId, model: string, now: real)
      requires tenant in contexts ==> tenant in metadata
      modifies `contexts, `metadata
      ensures contexts == old(contexts)[tenant := ContextsOf(old(Contents()), tenant)[id := Context(id, model)]]
      ensures var records := if tenant in old(contexts) then old(metadata)[tenant] else map[];
        metadata == old(metadata)[tenant := records[id := Metadata(model, now, now, Ready)]]
    {
      OpenTables(tenant);
      ghost var tables := metadata;
      var record := Metadata(model, now, now, Initializing);
      Describe(tenant, id, record);
      contexts := contexts[tenant := contexts[tenant][id := Context(id, model)]];
      Describe(tenant, id, record.(status := Ready));
      DescribedTwice(tables, tenant, id, record, record.(status := Ready));
    }

    method Describe(tenant: Tenant, id: ContextId, record: Metadata)
      requires tenant in metadata
      modifies `metadata
      ensures metadata == old(metadata)[tenant := old(metadata)[tenant][id := record]]
    {
      metadata := metadata[tenant := metadata[tenant][id := record]];
    }

    method OpenTables(tenant: Tenant)
      requires tenant in contexts ==> tenant in metadata
      modifies `contexts, `metadata
      ensures contexts == old(contexts)[tenant := ContextsOf(old(Contents()), tenant)]
      ensures metadata == old(metadata)[tenant := if tenant in old(contexts) then old(metadata)[tenant] else map[]]
    {
      if tenant !in contexts {
        contexts := contexts[tenant := map[]];
        metadata := metadata[tenant := map[]];
      }
    }

    method CheckResourceLimits(tenant: Tenant) returns (ok: bool)
      modifies `tenantResources
      ensures tenantResources == old(tenantResources)[tenant := ResourcesOf(old(Contents()), tenant)]
      ensures var r := ResourcesOf(old(Contents()), tenant);
        ok == (|ContextsOf(old(Contents()), tenant)| < r.maxContexts && r.memory + CONTEXT_MEMORY <= r.maxMemory)
    {
      if tenant !in tenantResources {
        tenantResources := tenantResources[tenant := Resources(10, 0, 0, 1000)];
      }
      var currentContexts := 0;
      if tenant in contexts {
        currentContexts := |contexts[tenant]|;
      }
      if currentContexts >= tenantResources[tenant].maxContexts {
        return false;
      }
      if tenantResources[tenant].memory + 100 > tenantResources[tenant].maxMemory {
        return false;
      }
      return true;
    }

    method UpdateTenantResources(tenant: Tenant, adding: bool)
      modifies `tenantResources
      ensures var r := ResourcesOf(old(Contents()), tenant);
        tenantResources == old(tenantResources)[tenant :=
          if adding then r.(current := r.current + 1, memory := r.memory + CONTEXT_MEMORY)
          else r.(current := Max(0, r.current - 1), memory := Max(0, r.memory - CONTEXT_MEMORY))]
    {
      if tenant !in tenantResources {
        tenantResources := tenantResources[tenant := Resources(10, 0, 0, 1000)];
      }
      var r := tenantResources[tenant];
      if adding {
        r := r.(current := r.current + 1);
        r := r.(memory := r.memory + 100);
      } else {
        r := r.(current := Max(0, r.current - 1));
        r := r.(memory := Max(0, r.memory - 100));
      }
      tenantResources := tenantResources[tenant := r];
    }

    method GetContext(tenant: Tenant, id: ContextId, now: real) returns (outcome: Outcome)
      modifies `metadata
      ensures (Contents(), outcome) == Touch(old(Contents()), Key(tenant, id), now)
    {
      if tenant !in contexts {
        return TenantNotFound;
      }
      if id !in contexts[tenant] {
        return ContextNotFound;
      }
      if tenant in metadata && id in metadata[tenant] {
        metadata := metadata[tenant := metadata[tenant][id := metadata[tenant][id].(lastAccessed := now)]];
      }
      if tenant !in metadata || id !in metadata[tenant] {
        return Failed;
      }
      return Done;
    }

    method DeleteContext(tenant: Tenant, id: ContextId) returns (outcome: Outcome)
      modifies this
      ensures (Contents(), outcome) == Delete(old(Contents()), Key(tenant, id))
      ensures released == if outcome == Done then old(released) + [Key(tenant, id)] else old(released)
    {
      if tenant !in contexts {
        return TenantNotFound;
      }
      if id !in contexts[tenant] {
        return ContextNotFound;
      }
      Remove(tenant, id);
      return Done;
    }

    /** The reaper's step for one context it found expired earlier. */
    method ReapContext(tenant: Tenant, id: ContextId) returns (removed: bool)
      modifies this
      ensures removed == Live(old(Contents()), Key(tenant, id))
      ensures Contents() == Reap(old(Contents()), Key(tenant, id))
      ensures released == if removed then old(released) + [Key(tenant, id)] else old(released)
    {
      if tenant in contexts && id in contexts[tenant] {
        Remove(tenant, id);
        return true;
      }
      return false;
    }

    method Remove(tenant: Tenant, id: ContextId)
      requires Live(Contents(), Key(tenant, id))
      modifies this
      ensures Contents() == Discard(old(Contents()), Key(tenant, id))
      ensures released == old(released) + [Key(tenant, id)]
    {
      if tenant in metadata && id in metadata[tenant] {
        metadata := metadata[tenant := metadata[tenant][id := metadata[tenant][id].(status := Deleted)]];
      }
      released := released + [Key(tenant, id)];
      contexts := contexts[tenant := contexts[tenant] - {id}];
      if tenant in metadata && id in metadata[tenant] {
        metadata := metadata[tenant := metadata[tenant] - {id}];
      }
      UpdateTenantResources(tenant, false);
      if tenant in metadata {
        assert metadata[tenant] == old(metadata)[tenant] - {id};
        assert metadata == old(metadata)[tenant := old(metadata)[tenant] - {id}];
      }
    }

    /** The reaper's scan: what has been idle for more than an hour, each once. */
    method ScanExpired(now: real) returns (expired: seq<Key>)
      ensures forall key :: key in expired <==> Expired(Contents(), key, now)
      ensures forall i, j :: 0 <= i < j < |expired| ==> expired[i] != expired[j]
    {
      expired := [];
      var tenants := metadata.Keys;
      while tenants != {}
        invariant tenants <= metadata.Keys
        invariant forall key :: key in expired <==> Expired(Contents(), key, now) && key.tenant !in tenants
        invariant forall i, j :: 0 <= i < j < |expired| ==> expired[i] != expired[j]
        decreases tenants
      {
        var tenant :| tenant in tenants;
        tenants := tenants - {tenant};
        var ids := metadata[tenant].Keys;
        while ids != {}
          invariant ids <= metadata[tenant].Keys
          invariant forall key :: key in expired <==>
            Expired(Contents(), key, now) && key.tenant !in tenants && (key.tenant == tenant ==> key.id !in ids)
          invariant forall i, j :: 0 <= i < j < |expired| ==> expired[i] != expired[j]
          decreases ids
        {
          var id :| id in ids;
          ids := ids - {id};
          var elapsed := now - metadata[tenant][id].lastAccessed;
          assert Key(tenant, id) !in expired;
          if elapsed > 3600.0 {
            expired := expired + [Key(tenant, id)];
          }
        }
      }
    }
  }

  // ----- runs -----

  datatype Step =
    | DoCreate(key: Key, model: string, now: real)
    | DoTouch(key: Key, now: real)
    | DoDelete(key: Key)
    /** The reaper looks for idle contexts; `found` is its list, in some order. */
    | DoScan(found: seq<Key>, now: real)
    /** The reaper deals with the next entry of its list. */
    | DoReap

  /** The tables, the reaper's list, every key ever created and every release made. */
  datatype World = World(s: State, pending: seq<Key>, created: set<Key>, released: seq<Key>)

  const START := World(NOTHING, [], {}, [])

  function Next(w: World, step: Step): World {
    match step
    case DoCreate(key, model, now) =>
      var (s, outcome) := Create(w.s, key, model, now);
      w.(s := s, created := if outcome == Done then w.created + {key} else w.created)
    case DoTouch(key, now) => w.(s := Touch(w.s, key, now).0)
    case DoDelete(key) =>
      w.(s := Delete(w.s, key).0, released := if Live(w.s, key) then w.released + [key] else w.released)
    case DoScan(found, now) => w.(pending := found)
    case DoReap =>
      if w.pending == [] then w
      else
        var key := w.pending[0];
        w.(s := Reap(w.s, key), pending := w.pending[1..],
           released := if Live(w.s, key) then w.released + [key] else w.released)
  }

  /** New contexts get unused ids; the reaper starts over only when its list is done, and lists what it saw. */
  ghost predicate Enabled(w: World, step: Step) {
    match step
    case DoCreate(key, _, _) => forall other :: other in w.created ==> other.id != key.id
    case DoScan(found, now) => w.pending == [] && forall key :: key in found <==> Expired(w.s, key, now)
    case _ => true
  }

  function Run(steps: seq<Step>): World {
    if steps == [] then START else Next(Run(steps[..|steps| - 1]), steps[|steps| - 1])
  }

  ghost predicate IsRun(steps: seq<Step>) {
    steps == [] || (IsRun(steps[..|steps| - 1]) && Enabled(Run(steps[..|steps| - 1]), steps[|steps| - 1]))
  }

  // ----- the invariant -----

  /** One tenant's tables and counters tell the same story, within bounds. */
  ghost predicate TenantSound(s: State, tenant: Tenant) {
    var r, n := ResourcesOf(s, tenant), |ContextsOf(s, tenant)|;
    && (tenant in s.contexts <==> tenant in s.metadata) && (tenant in s.contexts ==> tenant in s.resources)
    && ContextsOf(s, tenant).Keys == MetadataOf(s, tenant).Keys
    && r.maxContexts == 10 && r.maxMemory == 1000
    && r.current == n <= 10 && r.memory == 100 * n
  }

  ghost predicate Sound(s: State) {
    forall tenant :: TenantSound(s, tenant)
  }

  /** A key has been released once if it was created and is no longer live, and never otherwise. */
  ghost predicate ReleasedOnce(w: World) {
    forall key :: multiset(w.released)[key] == if key in w.created && !Live(w.s, key) then 1 else 0
  }

  ghost predicate LiveWereCreated(w: World) {
    forall key :: Live(w.s, key) ==> key in w.created
  }

  ghost predicate Invariant(w: World) {
    Sound(w.s) && ReleasedOnce(w) && LiveWereCreated(w)
  }

  lemma CreateKeepsSound(s: State, key: Key, model: string, now: real)
    requires Sound(s) && !Live(s, key)
    ensures Sound(Create(s, key, model, now).0)
  {
    var s' := Create(s, key, model, now).0;
    assert TenantSound(s, key.tenant);
    forall tenant ensures TenantSound(s', tenant) {
      assert TenantSound(s, tenant);
    }
  }

  /** Discarding a live context takes exactly one from each counter: the clamps do not bind. */
  lemma DiscardKeepsSound(s: State, key: Key)
    requires Sound(s) && Live(s, key)
    ensures Sound(Discard(s, key))
    ensures var r, r' := ResourcesOf(s, key.tenant), ResourcesOf(Discard(s, key), key.tenant);
      r'.current == r.current - 1 >= 0 && r'.memory == r.memory - CONTEXT_MEMORY >= 0
  {
    var s' := Discard(s, key);
    assert TenantSound(s, key.tenant);
    var before, after := s.contexts[key.tenant], s'.contexts[key.tenant];
    assert before.Keys == after.Keys + {key.id} && |before.Keys| == |after.Keys| + 1;
    assert |before| == |before.Keys| && |after| == |after.Keys|;
    forall tenant ensures TenantSound(s', tenant) {
      assert TenantSound(s, tenant);
    }
  }

  lemma TouchKeepsSound(s: State, key: Key, now: real)
    requires Sound(s)
    ensures Sound(Touch(s, key, now).0)
  {
    var s' := Touch(s, key, now).0;
    forall tenant ensures TenantSound(s', tenant) {
      assert TenantSound(s, tenant);
    }
  }

  /** Discarding a live context releases it for the first and only time. */
  lemma DiscardReleasesOnce(w: World, key: Key)
    requires ReleasedOnce(w) && LiveWereCreated(w) && Live(w.s, key)
    ensures ReleasedOnce(w.(s := Discard(w.s, key), released := w.released + [key]))
    ensures LiveWereCreated(w.(s := Discard(w.s, key), released := w.released + [key]))
  {
    var w' := w.(s := Discard(w.s, key), released := w.released + [key]);
    assert Live(w.s, key) && key in w.created;
    forall other ensures multiset(w'.released)[other] == if other in w'.created && !Live(w'.s, other) then 1 else 0 {
      assert Live(w'.s, other) <==> Live(w.s, other) && other != key;
      assert multiset(w.released)[other] == if other in w.created && !Live(w.s, other) then 1 else 0;
    }
    forall other | Live(w'.s, other) ensures other in w'.created {
      assert Live(w.s, other);
    }
  }

  lemma CreateKeepsReleases(w: World, key: Key, model: string, now: real)
    requires ReleasedOnce(w) && LiveWereCreated(w) && key !in w.created
    ensures ReleasedOnce(Next(w, DoCreate(key, model, now))) && LiveWereCreated(Next(w, DoCreate(key, model, now)))
  {
    var w' := Next(w, DoCreate(key, model, now));
    var done := Create(w.s, key, model, now).1 == Done;
    forall other
      ensures multiset(w'.released)[other] == if other in w'.created && !Live(w'.s, other) then 1 else 0
      ensures Live(w'.s, other) ==> other in w'.created
    {
      assert Live(w'.s, other) <==> Live(w.s, other) || (done && other == key);
      assert multiset(w.released)[other] == if other in w.created && !Live(w.s, other) then 1 else 0;
    }
  }

  lemma NextKeepsInvariant(w: World, step: Step)
    requires Invariant(w) && Enabled(w, step)
    ensures Invariant(Next(w, step))
  {
    match step {
      case DoCreate(key, model, now) =>
        assert key !in w.created;
        CreateKeepsSound(w.s, key, model, now);
        CreateKeepsReleases(w, key, model, now);
      case DoTouch(key, now) =>
        TouchKeepsSound(w.s, key, now);
        assert Touch(w.s, key, now).0.contexts == w.s.contexts;
      case DoDelete(key) =>
        if Live(w.s, key) {
          DiscardKeepsSound(w.s, key);
          DiscardReleasesOnce(w, key);
        }
      case DoScan(_, _) =>
      case DoReap =>
        if w.pending != [] && Live(w.s, w.pending[0]) {
          DiscardKeepsSound(w.s, w.pending[0]);
          DiscardReleasesOnce(w, w.pending[0]);
        }
    }
  }

  /**
   Under any interleaving, each tenant's two maps have the same keys, its counters are the number of
   contexts and a hundred times that, both within their maxima, and every context is released
   exactly once after it goes.
   */
  lemma {:induction false} EveryRunKeepsAccount(steps: seq<Step>)
    requires IsRun(steps)
    ensures Invariant(Run(steps))
  {
    if steps == [] {
      forall key ensures !Live(NOTHING, key) {
      }
    } else {
      EveryRunKeepsAccount(steps[..|steps| - 1]);
      NextKeepsInvariant(Run(steps[..|steps| - 1]), steps[|steps| - 1]);
    }
  }

  /** In every reachable state the count alone decides a creation: the memory refusal is never the reason. */
  lemma CreationRefusedExactly(steps: seq<Step>, key: Key, model: string, now: real)
    requires IsRun(steps)
    ensures var s := Run(steps).s;
      Create(s, key, model, now).1 == if |ContextsOf(s, key.tenant)| >= 10 then Exhausted else Done
  {
    EveryRunKeepsAccount(steps);
    assert TenantSound(Run(steps).s, key.tenant);
  }

  /** In every reachable state a removal lowers both counters exactly: no clamp is ever needed. */
  lemma ClampsNeverBind(steps: seq<Step>, key: Key)
    requires IsRun(steps) && Live(Run(steps).s, key)
    ensures var s := Run(steps).s;
      && ResourcesOf(s, key.tenant).current - 1 >= 0 && ResourcesOf(s, key.tenant).memory - CONTEXT_MEMORY >= 0
      && ResourcesOf(Discard(s, key), key.tenant)
           == FRESH_RESOURCES.(current := |ContextsOf(s, key.tenant)| - 1,
                              memory := CONTEXT_MEMORY * (|ContextsOf(s, key.tenant)| - 1))
  {
    EveryRunKeepsAccount(steps);
    var s := Run(steps).s;
    DiscardKeepsSound(s, key);
    assert TenantSound(s, key.tenant);
  }

  /** In every reachable state no operation meets a context without metadata: the internal failure never happens. */
  lemma NeverFails(steps: seq<Step>, key: Key, model: string, now: real)
    requires IsRun(steps)
    ensures Create(Run(steps).s, key, model, now).1 in {Done, Exhausted}
    ensures Touch(Run(steps).s, key, now).1 == Find(Run(steps).s, key)
  {
    EveryRunKeepsAccount(steps);
    assert TenantSound(Run(steps).s, key.tenant);
  }

  // ----- what callers find -----

  /** A tenant is known once a context was ever created for it. */
  ghost predicate TenantsKnown(w: World) {
    forall tenant :: tenant in w.s.contexts <==> exists key :: key in w.created && key.tenant == tenant
  }

  lemma StepKeepsTenants(w: World, step: Step)
    requires TenantsKnown(w)
    ensures TenantsKnown(Next(w, step))
  {
    var w' := Next(w, step);
    forall tenant ensures tenant in w'.s.contexts <==> exists key :: key in w'.created && key.tenant == tenant {
      if key :| key in w.created && key.tenant == tenant {
        assert key in w'.created;
      }
      if step.DoCreate? && w'.created != w.created {
        assert step.key in w'.created;
      }
    }
  }

  lemma {:induction false} RunKeepsTenants(steps: seq<Step>)
    ensures TenantsKnown(Run(steps))
  {
    if steps == [] {
    } else {
      RunKeepsTenants(steps[..|steps| - 1]);
      StepKeepsTenants(Run(steps[..|steps| - 1]), steps[|steps| - 1]);
    }
  }

  /**
   In every reachable state looking a context up and deleting it find it exactly if it was created and
   not released since; what else they say tells whether the tenant ever had a context.
   */
  lemma LookupTells(steps: seq<Step>, key: Key, now: real)
    requires IsRun(steps)
    ensures var w := Run(steps);
      var known := exists other :: other in w.created && other.tenant == key.tenant;
      var found := if key in w.created && key !in w.released then Done
                   else if known then ContextNotFound
                   else TenantNotFound;
      Touch(w.s, key, now).1 == found && Delete(w.s, key).1 == found
  {
    var w := Run(steps);
    EveryRunKeepsAccount(steps);
    RunKeepsTenants(steps);
    NeverFails(steps, key, "", now);
    assert multiset(w.released)[key] == if key in w.created && !Live(w.s, key) then 1 else 0;
    assert key in w.released <==> multiset(w.released)[key] > 0;
    assert key.tenant in w.s.contexts <==> exists other :: other in w.created && other.tenant == key.tenant;
    assert Live(w.s, key) ==> key in w.created;
  }

  /** The step that created the context. */
  function BirthOf(steps: seq<Step>, key: Key): Option<Step> {
    if steps == [] then None
    else
      var before, step := steps[..|steps| - 1], steps[|steps| - 1];
      if Creates(Run(before), step, key) then Some(step) else BirthOf(before, key)
  }

  predicate Creates(w: World, step: Step, key: Key) {
    step.DoCreate? && step.key == key && Create(w.s, key, step.model, step.now).1 == Done
  }

  /** When the context was last looked up, or created. */
  function LastUse(steps: seq<Step>, key: Key): Option<real> {
    if steps == [] then None
    else
      var before, step := steps[..|steps| - 1], steps[|steps| - 1];
      if Creates(Run(before), step, key) || (step.DoTouch? && step.key == key) then Some(step.now)
      else LastUse(before, key)
  }

  /** A live context and its metadata are those of its creation, ready, and date from its last use. */
  ghost predicate RecordRight(s: State, key: Key, birth: Option<Step>, use: Option<real>) {
    Live(s, key) ==>
      && birth.Some? && birth.value.DoCreate? && use.Some?
      && s.contexts[key.tenant][key.id] == Context(key.id, birth.value.model)
      && key.tenant in s.metadata && key.id in s.metadata[key.tenant]
      && s.metadata[key.tenant][key.id] == Metadata(birth.value.model, birth.value.now, use.value, Ready)
  }

  lemma StepKeepsRecord(w: World, step: Step, key: Key, birth: Option<Step>, use: Option<real>)
    requires RecordRight(w.s, key, birth, use)
    ensures RecordRight(Next(w, step).s, key, if Creates(w, step, key) then Some(step) else birth,
      if Creates(w, step, key) || (step.DoTouch? && step.key == key) then Some(step.now) else use)
  {
  }

  /**
   Under any interleaving a live context is the one that was created, with its model, and its metadata
   tell that model, when it was created, and when it was last looked up.
   */
  lemma {:induction false} RecordFollowsRun(steps: seq<Step>, key: Key)
    requires IsRun(steps)
    ensures RecordRight(Run(steps).s, key, BirthOf(steps, key), LastUse(steps, key))
  {
    if steps == [] {
    } else {
      var before := steps[..|steps| - 1];
      RecordFollowsRun(before, key);
      StepKeepsRecord(Run(before), steps[|steps| - 1], key, BirthOf(before, key), LastUse(before, key));
    }
  }

  // ----- what the reaper removes -----

  predicate Refreshes(step: Step, key: Key, reap: real) {
    step.DoTouch? && step.key == key && reap - step.now <= 60.0 * 60.0
  }

  /** From step `from` on, somebody looks the context up within the hour before `reap`. */
  predicate RefreshedSince(steps: seq<Step>, key: Key, from: nat, reap: real) {
    exists k :: from <= k < |steps| && Refreshes(steps[k], key, reap)
  }

  /** A step leaves a live context's idleness alone, or is a look-up that decides it. */
  lemma StepLeavesRecord(w: World, step: Step, key: Key, reap: real)
    requires Invariant(w) && Enabled(w, step) && key in w.created && Live(Next(w, step).s, key)
    ensures Live(w.s, key)
    ensures Expired(Next(w, step).s, key, reap) <==>
      if step.DoTouch? && step.key == key then !Refreshes(step, key, reap) else Expired(w.s, key, reap)
  {
    assert TenantSound(w.s, key.tenant);
  }

  lemma ExpiredWasCreated(w: World, key: Key, now: real)
    requires Invariant(w) && Expired(w.s, key, now)
    ensures Live(w.s, key) && key in w.created
  {
    assert TenantSound(w.s, key.tenant);
    assert Live(w.s, key);
  }

  lemma CreatedGrows(w: World, step: Step)
    ensures w.created <= Next(w, step).created
  {
  }

  lemma {:induction false} FoundWasCreated(steps: seq<Step>, scan: nat, key: Key)
    requires IsRun(steps) && scan < |steps| && steps[scan].DoScan? && key in steps[scan].found
    ensures key in Run(steps).created
  {
    var before := steps[..|steps| - 1];
    CreatedGrows(Run(before), steps[|steps| - 1]);
    if |steps| == scan + 1 {
      EveryRunKeepsAccount(before);
      ExpiredWasCreated(Run(before), key, steps[scan].now);
    } else {
      assert before[scan] == steps[scan];
      FoundWasCreated(before, scan, key);
    }
  }

  lemma RefreshesGrow(steps: seq<Step>, key: Key, from: nat, reap: real)
    requires from < |steps|
    ensures RefreshedSince(steps, key, from, reap) <==>
      RefreshedSince(steps[..|steps| - 1], key, from, reap) || Refreshes(steps[|steps| - 1], key, reap)
  {
    var before := steps[..|steps| - 1];
    if k :| from <= k < |before| && Refreshes(before[k], key, reap) {
      assert steps[k] == before[k];
    }
    if k :| from <= k < |steps| && Refreshes(steps[k], key, reap) {
      assert k < |before| ==> before[k] == steps[k];
    }
  }

  /** Look-ups since the scan read a clock that does not go back. */
  ghost predicate TouchesInOrder(steps: seq<Step>, scan: nat) {
    forall i, j :: scan < i < j < |steps| && steps[i].DoTouch? && steps[j].DoTouch? ==> steps[i].now <= steps[j].now
  }

  /**
   A context that the scan found idle is idle at the instant `reap` at which the reaper gets to it if and
   only if nobody has looked it up since the scan within the hour before; the reaper removes it either way.
   */
  lemma {:induction false} FoundStaysIdleExactly(steps: seq<Step>, scan: nat, key: Key, reap: real)
    requires IsRun(steps) && scan < |steps| && steps[scan].DoScan? && key in steps[scan].found
    requires steps[scan].now <= reap && TouchesInOrder(steps, scan) && Live(Run(steps).s, key)
    ensures Expired(Run(steps).s, key, reap) <==> !RefreshedSince(steps, key, scan + 1, reap)
    ensures !Live(Reap(Run(steps).s, key), key)
  {
    var before, step := steps[..|steps| - 1], steps[|steps| - 1];
    EveryRunKeepsAccount(before);
    if |steps| == scan + 1 {
      assert Expired(Run(before).s, key, step.now);
    } else {
      assert before[scan] == steps[scan];
      FoundWasCreated(before, scan, key);
      StepLeavesRecord(Run(before), step, key, reap);
      FoundStaysIdleExactly(before, scan, key, reap);
      RefreshesGrow(steps, key, scan + 1, reap);
      if step.DoTouch? && step.key == key && RefreshedSince(before, key, scan + 1, reap) {
        var k :| scan + 1 <= k < |before| && Refreshes(before[k], key, reap);
        assert steps[k] == before[k] && steps[k].now <= step.now;
      }
    }
  }

  /** The run that shows it: looked up after the scan, no longer idle, and reaped all the same. */
  lemma RefreshedContextIsReaped(key: Key, model: string)
    ensures var steps := [DoCreate(key, model, 0.0), DoScan([key], 3601.0), DoTouch(key, 3601.0)];
      var w := Run(steps);
      && IsRun(steps) && w.pending == [key] && Live(w.s, key) && !Expired(w.s, key, 3601.0)
      && !Live(Next(w, DoReap).s, key)
  {
    var one := [DoCreate(key, model, 0.0)];
    var two := one + [DoScan([key], 3601.0)];
    var three := two + [DoTouch(key, 3601.0)];
    assert one[..0] == [] && two[..1] == one && three[..2] == two;
    assert three == [DoCreate(key, model, 0.0), DoScan([key], 3601.0), DoTouch(key, 3601.0)];
    var record := Metadata(model, 0.0, 0.0, Ready);
    assert Run(one).s.metadata == map[key.tenant := map[key.id := record]];
    assert IsRun([]) && IsRun(one);
    forall other ensures other in [key] <==> Expired(Run(one).s, other, 3601.0) {
      assert other == Key(other.tenant, other.id);
    }
    assert IsRun(two) && IsRun(three);
    assert Run(two).pending == [key] && Run(three).pending == [key];
  }

  /** Looked up after the scan and idle once more when a late reaper gets to it: a look-up alone does not decide it. */
  lemma RefreshedContextGrowsIdleAgain(key: Key, model: string)
    ensures var steps := [DoCreate(key, model, 0.0), DoScan([key], 3601.0), DoTouch(key, 3601.0)];
      IsRun(steps) && Live(Run(steps).s, key) && Expired(Run(steps).s, key, 7202.0)
  {
    var steps := [DoCreate(key, model, 0.0), DoScan([key], 3601.0), DoTouch(key, 3601.0)];
    RefreshedContextIsReaped(key, model);
    forall k | 2 <= k < |steps| ensures !Refreshes(steps[k], key, 7202.0) {
    }
    FoundStaysIdleExactly(steps, 1, key, 7202.0);
  }
}
