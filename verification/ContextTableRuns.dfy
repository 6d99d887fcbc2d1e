/**
 Runs of the indexed context table in which creations, deletions, expiry sweeps and background loads
 interleave freely. A sweep is its deletions, wherever they fall.
 */
module ContextTableRuns {
  import opened Basics
  import opened ContextTable

  datatype Birth = Birth(tenant: Tenant, id: ContextId)

  datatype Step =
    | DoCreate(tenant: Tenant, id: ContextId, expires: Option<real>)
    /** The load of a context starts by looking it up; it gives up when the context is not there. */
    | DoBegin(id: ContextId)
    /** The load ends and stores what it looked up. */
    | DoFinish(id: ContextId, ok: bool)
    | DoDelete(id: ContextId)

  /**
   The table, the loads that have not started, the records held by loads under way, and the history:
   every creation in order, and every id that was ever deleted.
   */
  datatype World = World(
    table: Table, waiting: set<ContextId>, held: map<ContextId, Record>,
    births: seq<Birth>, gone: set<ContextId>)

  const START := World(Table(map[], map[]), {}, map[], [], {})

  ghost predicate Made(w: World, id: ContextId) {
    exists tenant :: Birth(tenant, id) in w.births
  }

  function Next(w: World, step: Step): World {
    match step
    case DoCreate(tenant, id, expires) =>
      w.(table := Create(w.table, tenant, id, expires), waiting := w.waiting + {id},
          births := w.births + [Birth(tenant, id)])
    case DoBegin(id) =>
      if id in w.table.contexts then w.(waiting := w.waiting - {id}, held := w.held[id := w.table.contexts[id]])
      else w.(waiting := w.waiting - {id})
    case DoFinish(id, ok) =>
      if id in w.held then w.(table := Finish(w.table, id, w.held[id], ok), held := w.held - {id}) else w
    case DoDelete(id) =>
      w.(table := Delete(w.table, id), gone := if id in w.table.contexts then w.gone + {id} else w.gone)
  }

  /** Ids are fresh, and each context is loaded once. */
  ghost predicate Enabled(w: World, step: Step) {
    match step
    case DoCreate(_, id, _) => !Made(w, id)
    case DoBegin(id) => id in w.waiting
    case DoFinish(id, _) => id in w.held
    case DoDelete(_) => true
  }

  function Run(steps: seq<Step>): World {
    if steps == [] then START else Next(Run(steps[..|steps| - 1]), steps[|steps| - 1])
  }

  ghost predicate IsRun(steps: seq<Step>) {
    steps == [] || (IsRun(steps[..|steps| - 1]) && Enabled(Run(steps[..|steps| - 1]), steps[|steps| - 1]))
  }

  /** The contexts created for a tenant and not deleted since, in the order of their creation. */
  function Owned(births: seq<Birth>, gone: set<ContextId>, tenant: Tenant): seq<ContextId> {
    if births == [] then []
    else
      var rest, last := Owned(births[..|births| - 1], gone, tenant), births[|births| - 1];
      if last.tenant == tenant && last.id !in gone then rest + [last.id] else rest
  }

  // ----- the two sequences -----

  lemma {:induction false} RemoveFromEnd(ids: seq<ContextId>, last: ContextId, id: ContextId)
    ensures RemoveFirst(ids + [last], id) ==
      if id in ids then RemoveFirst(ids, id) + [last] else if id == last then ids else ids + [last]
  {
    if ids == [] {
    } else {
      assert (ids + [last])[1..] == ids[1..] + [last];
      RemoveFromEnd(ids[1..], last, id);
    }
  }

  lemma {:induction false} OwnedWereBorn(births: seq<Birth>, gone: set<ContextId>, tenant: Tenant, id: ContextId)
    ensures id in Owned(births, gone, tenant) <==> Birth(tenant, id) in births && id !in gone
  {
    if births == [] {
    } else {
      var last := births[|births| - 1];
      assert births == births[..|births| - 1] + [last];
      OwnedWereBorn(births[..|births| - 1], gone, tenant, id);
    }
  }

  ghost predicate BornOnce(births: seq<Birth>) {
    forall i, j :: 0 <= i < j < |births| ==> births[i].id != births[j].id
  }

  lemma {:induction false} OwnedOnce(births: seq<Birth>, gone: set<ContextId>, tenant: Tenant)
    requires BornOnce(births)
    ensures Distinct(Owned(births, gone, tenant))
  {
    if births == [] {
    } else {
      var before, last := births[..|births| - 1], births[|births| - 1];
      OwnedOnce(before, gone, tenant);
      OwnedWereBorn(before, gone, tenant, last.id);
      assert Birth(tenant, last.id) !in before;
    }
  }

  /** Deleting a context takes it out of its owner's sequence, and out of no other. */
  lemma {:induction false} OwnedAfterDelete(births: seq<Birth>, gone: set<ContextId>, tenant: Tenant, id: ContextId)
    requires BornOnce(births)
    ensures Owned(births, gone + {id}, tenant) == RemoveFirst(Owned(births, gone, tenant), id)
  {
    if births == [] {
    } else {
      var before, last := births[..|births| - 1], births[|births| - 1];
      OwnedAfterDelete(before, gone, tenant, id);
      OwnedWereBorn(before, gone, tenant, id);
      if last.tenant == tenant && last.id !in gone {
        var rest := Owned(before, gone, tenant);
        RemoveFromEnd(rest, last.id, id);
        assert last.id == id ==> Birth(tenant, id) !in before;
        if id !in rest {
          RemoveAbsent(rest, id);
        }
      }
    }
  }

  lemma {:induction false} RemoveAbsent(ids: seq<ContextId>, id: ContextId)
    requires id !in ids
    ensures RemoveFirst(ids, id) == ids
  {
    if ids == [] {
    } else {
      RemoveAbsent(ids[1..], id);
    }
  }

  lemma {:induction false} AllPresent(t: Table, ids: seq<ContextId>)
    requires forall id :: id in ids ==> id in t.contexts
    ensures Present(t, ids) == ids
  {
    if ids == [] {
    } else {
      AllPresent(t, ids[..|ids| - 1]);
      assert ids == ids[..|ids| - 1] + [ids[|ids| - 1]];
    }
  }

  // ----- the invariant -----

  ghost predicate IndexIsOwned(w: World) {
    forall tenant :: IndexOf(w.table, tenant) == Owned(w.births, w.gone, tenant)
  }

  /** Every record that is stored or held belongs to the tenant it was created for. */
  ghost predicate OwnersRight(w: World) {
    && (forall id :: id in w.table.contexts ==> Birth(w.table.contexts[id].tenant, id) in w.births)
    && (forall id :: id in w.held ==> Birth(w.held[id].tenant, id) in w.births)
    && (forall id :: id in w.gone || id in w.waiting ==> Made(w, id))
    && w.held.Keys !! w.waiting
  }

  ghost predicate OwnedAreStored(w: World) {
    forall birth :: birth in w.births && birth.id !in w.gone ==> birth.id in w.table.contexts
  }

  ghost predicate Invariant(w: World) {
    BornOnce(w.births) && OwnersRight(w) && OwnedAreStored(w) && IndexIsOwned(w)
  }

  lemma CreateKeepsIndex(w: World, tenant: Tenant, id: ContextId, expires: Option<real>)
    requires IndexIsOwned(w) && OwnersRight(w) && !Made(w, id)
    ensures IndexIsOwned(Next(w, DoCreate(tenant, id, expires)))
  {
    var w' := Next(w, DoCreate(tenant, id, expires));
    assert w'.births[..|w'.births| - 1] == w.births;
    forall other ensures IndexOf(w'.table, other) == Owned(w'.births, w'.gone, other) {
      assert IndexOf(w.table, other) == Owned(w.births, w.gone, other);
    }
  }

  lemma CreateKeepsInvariant(w: World, tenant: Tenant, id: ContextId, expires: Option<real>)
    requires Invariant(w) && !Made(w, id)
    ensures Invariant(Next(w, DoCreate(tenant, id, expires)))
  {
    CreateKeepsIndex(w, tenant, id, expires);
    var w' := Next(w, DoCreate(tenant, id, expires));
    forall i | 0 <= i < |w.births| ensures w.births[i].id != id {
      assert w.births[i] == Birth(w.births[i].tenant, w.births[i].id);
    }
    assert Birth(tenant, id) in w'.births;
    forall other | Made(w, other) ensures Made(w', other) {
      var owner :| Birth(owner, other) in w.births;
      assert Birth(owner, other) in w'.births;
    }
  }

  lemma FinishKeepsInvariant(w: World, id: ContextId, ok: bool)
    requires Invariant(w) && id in w.held
    ensures Invariant(Next(w, DoFinish(id, ok)))
  {
    var w' := Next(w, DoFinish(id, ok));
    assert w'.table.index == w.table.index;
    assert forall tenant :: IndexOf(w'.table, tenant) == IndexOf(w.table, tenant);
    assert forall other :: Made(w, other) ==> Made(w', other);
  }

  lemma DeleteKeepsInvariant(w: World, id: ContextId)
    requires Invariant(w)
    ensures Invariant(Next(w, DoDelete(id)))
  {
    var w' := Next(w, DoDelete(id));
    if id in w.table.contexts {
      var owner := w.table.contexts[id].tenant;
      assert Birth(owner, id) in w.births;
      assert Made(w, id);
      forall tenant ensures IndexOf(w'.table, tenant) == Owned(w'.births, w'.gone, tenant) {
        OwnedAfterDelete(w.births, w.gone, tenant, id);
        OwnedWereBorn(w.births, w.gone, tenant, id);
        if tenant != owner {
          assert Birth(tenant, id) !in w.births;
          RemoveAbsent(Owned(w.births, w.gone, tenant), id);
        }
      }
      assert forall other :: Made(w, other) ==> Made(w', other);
    }
  }

  lemma NextKeepsInvariant(w: World, step: Step)
    requires Invariant(w) && Enabled(w, step)
    ensures Invariant(Next(w, step))
  {
    match step {
      case DoCreate(tenant, id, expires) => CreateKeepsInvariant(w, tenant, id, expires);
      case DoBegin(id) =>
        var w' := Next(w, step);
        assert forall other :: Made(w, other) ==> Made(w', other);
      case DoFinish(id, ok) => FinishKeepsInvariant(w, id, ok);
      case DoDelete(id) => DeleteKeepsInvariant(w, id);
    }
  }

  lemma {:induction false} RunKeepsInvariant(steps: seq<Step>)
    requires IsRun(steps)
    ensures Invariant(Run(steps))
  {
    if steps == [] {
    } else {
      RunKeepsInvariant(steps[..|steps| - 1]);
      NextKeepsInvariant(Run(steps[..|steps| - 1]), steps[|steps| - 1]);
    }
  }

  /**
   Under any interleaving, a tenant is listed exactly the contexts created for it and not yet deleted,
   once each and in creation order; loads that finish after a deletion do not bring one back here.
   */
  lemma ListingIsExact(steps: seq<Step>, tenant: Tenant)
    requires IsRun(steps)
    ensures var w := Run(steps);
      Listing(w.table, tenant) == Owned(w.births, w.gone, tenant) && Distinct(Listing(w.table, tenant))
  {
    RunKeepsInvariant(steps);
    var w := Run(steps);
    forall id | id in IndexOf(w.table, tenant) ensures id in w.table.contexts {
      OwnedWereBorn(w.births, w.gone, tenant, id);
    }
    AllPresent(w.table, IndexOf(w.table, tenant));
    OwnedOnce(w.births, w.gone, tenant);
  }

  // ----- looking a context up by id -----

  /** Step `k` stores the context and no later step deletes it. */
  predicate LastWord(steps: seq<Step>, id: ContextId, k: int) {
    && 0 <= k < |steps| && ((steps[k].DoCreate? && steps[k].id == id) || (steps[k].DoFinish? && steps[k].id == id))
    && forall j :: k < j < |steps| ==> steps[j] != DoDelete(id)
  }

  lemma LastWordGrows(steps: seq<Step>, id: ContextId)
    requires steps != []
    ensures var before, step := steps[..|steps| - 1], steps[|steps| - 1];
      (exists k :: LastWord(steps, id, k)) <==>
        (step.DoCreate? && step.id == id) || (step.DoFinish? && step.id == id)
        || (step != DoDelete(id) && exists k :: LastWord(before, id, k))
  {
    var before, step := steps[..|steps| - 1], steps[|steps| - 1];
    if k :| LastWord(steps, id, k) {
      assert k < |before| ==> LastWord(before, id, k);
    }
    if k :| LastWord(before, id, k) {
      assert step != DoDelete(id) ==> LastWord(steps, id, k);
    }
    if (step.DoCreate? && step.id == id) || (step.DoFinish? && step.id == id) {
      assert LastWord(steps, id, |steps| - 1);
    }
  }

  /** A context is found by its id exactly when its creation or the end of its load comes after every deletion of it. */
  lemma {:induction false} FoundExactly(steps: seq<Step>, id: ContextId)
    requires IsRun(steps)
    ensures id in Run(steps).table.contexts <==> exists k :: LastWord(steps, id, k)
  {
    if steps == [] {
    } else {
      FoundExactly(steps[..|steps| - 1], id);
      LastWordGrows(steps, id);
    }
  }

  // ----- what a stored record says -----

  /** The step that created the context. */
  function CreationOf(steps: seq<Step>, id: ContextId): Option<Step> {
    if steps == [] then None
    else
      var last := steps[|steps| - 1];
      if last.DoCreate? && last.id == id then Some(last) else CreationOf(steps[..|steps| - 1], id)
  }

  /** How the load of the context ended, if it has. */
  function EndOf(steps: seq<Step>, id: ContextId): Option<bool> {
    if steps == [] then None
    else
      var last := steps[|steps| - 1];
      if last.DoFinish? && last.id == id then Some(last.ok) else EndOf(steps[..|steps| - 1], id)
  }

  /** The record was created so, and its load has come to this. */
  predicate Reads(record: Record, creation: Option<Step>, end: Option<bool>) {
    && creation.Some? && creation.value.DoCreate?
    && record.tenant == creation.value.tenant && record.expires == creation.value.expires
    && match end
       case None => record.status == Initializing
       case Some(ok) => if ok then record.status == Running else record.status == Error
  }

  ghost predicate RecordsRight(w: World, id: ContextId, creation: Option<Step>, end: Option<bool>) {
    && (id in w.table.contexts ==> Reads(w.table.contexts[id], creation, end))
    && (id in w.held ==> Reads(w.held[id], creation, None) && end == None)
    && (id in w.waiting ==> end == None) && (creation.Some? ==> Made(w, id)) && (end.Some? ==> creation.Some?)
  }

  lemma StepKeepsRecords(w: World, step: Step, id: ContextId, creation: Option<Step>, end: Option<bool>)
    requires RecordsRight(w, id, creation, end) && Enabled(w, step) && w.held.Keys !! w.waiting
    ensures RecordsRight(Next(w, step), id, if step.DoCreate? && step.id == id then Some(step) else creation,
                         if step.DoFinish? && step.id == id then Some(step.ok) else end)
  {
    var w' := Next(w, step);
    if tenant :| Birth(tenant, id) in w.births {
      assert Birth(tenant, id) in w'.births;
    }
    if step.DoCreate? {
      assert w'.births[|w.births|] == Birth(step.tenant, step.id);
    }
  }

  /**
   Under any interleaving a stored record has the tenant and the time to live it was created with, and
   says exactly how far its load has come: not ended, ended well, or failed.
   */
  lemma {:induction false} RecordFollowsRun(steps: seq<Step>, id: ContextId)
    requires IsRun(steps)
    ensures RecordsRight(Run(steps), id, CreationOf(steps, id), EndOf(steps, id))
  {
    if steps == [] {
    } else {
      var before := steps[..|steps| - 1];
      RecordFollowsRun(before, id);
      RunKeepsInvariant(before);
      StepKeepsRecords(Run(before), steps[|steps| - 1], id, CreationOf(before, id), EndOf(before, id));
    }
  }

  ghost predicate ComesBack(steps: seq<Step>, more: seq<Step>, id: ContextId) {
    IsRun(steps + more) && id in Run(steps + more).table.contexts
  }

  lemma StepStaysAway(w: World, step: Step, id: ContextId)
    requires Made(w, id) && id !in w.table.contexts && id !in w.held && Enabled(w, step)
    ensures var w' := Next(w, step); Made(w', id) && id !in w'.table.contexts && id !in w'.held
  {
    var tenant :| Birth(tenant, id) in w.births;
    assert Birth(tenant, id) in Next(w, step).births;
  }

  lemma {:induction false} StaysAway(steps: seq<Step>, more: seq<Step>, id: ContextId)
    requires IsRun(steps + more) && Made(Run(steps), id)
    requires id !in Run(steps).table.contexts && id !in Run(steps).held
    ensures var w := Run(steps + more); Made(w, id) && id !in w.table.contexts && id !in w.held
  {
    if more == [] {
      assert steps + more == steps;
    } else {
      var all := steps + more;
      assert all[..|all| - 1] == steps + more[..|more| - 1];
      StaysAway(steps, more[..|more| - 1], id);
      StepStaysAway(Run(all[..|all| - 1]), all[|all| - 1], id);
    }
  }

  /**
   A deleted context can be found by its id again if and only if its load was under way when it was
   deleted: deleting it before the load starts or after it has ended is final.
   */
  lemma DeletionIsFinalExactly(steps: seq<Step>, id: ContextId)
    requires IsRun(steps) && id in Run(steps).gone && id !in Run(steps).table.contexts
    ensures (exists more :: ComesBack(steps, more, id)) <==> id in Run(steps).held
  {
    RunKeepsInvariant(steps);
    if id in Run(steps).held {
      var more := [DoFinish(id, true)];
      assert (steps + more)[..|steps|] == steps;
      assert ComesBack(steps, more, id);
    } else {
      forall more | ComesBack(steps, more, id) ensures false {
        StaysAway(steps, more, id);
      }
    }
  }

  /** The run that shows it: deleted while its load is under way, a context is found by id again, but not listed. */
  lemma DeletedContextComesBack(tenant: Tenant, id: ContextId)
    ensures var steps := [DoCreate(tenant, id, None), DoBegin(id), DoDelete(id), DoFinish(id, true)];
      var w := Run(steps);
      IsRun(steps) && id in w.gone && id in w.table.contexts && Listing(w.table, tenant) == []
  {
    var one := [DoCreate(tenant, id, None)];
    var two := one + [DoBegin(id)];
    var three := two + [DoDelete(id)];
    var four := three + [DoFinish(id, true)];
    assert one[..0] == [] && two[..1] == one && three[..2] == two && four[..3] == three;
    assert four == [DoCreate(tenant, id, None), DoBegin(id), DoDelete(id), DoFinish(id, true)];
    assert IsRun([]) && IsRun(one);
    assert IndexOf(Run(one).table, tenant) == [id] && id in Run(one).waiting;
    assert IsRun(two) && id in Run(two).held && IndexOf(Run(two).table, tenant) == [id];
    assert RemoveFirst([id], id) == [];
    assert IsRun(three) && IndexOf(Run(three).table, tenant) == [] && id in Run(three).held;
    assert IsRun(four);
  }
}
