/**
 Unloads of the versioned loader as they happen: one version popped at a time, with its cleanup hook
 awaited in between. The model's lock keeps loads, switches and other unloads out meanwhile, but asking
 for the active model takes no lock and may look at any of the states in between.
 */
module VersionUnloads {
  import opened Basics
  import opened VersionLoader

  // ----- between completed operations -----

  /** On sound tables the active version is returned at once, and nothing changes. */
  lemma SoundIsNeverAstray(s: State, id: ModelId, world: World, now: real)
    requires Sound(s)
    ensures !Astray(s, id)
    ensures id in s.active ==>
      GetActive(s, id, world, now) == (s, Active(InstanceOf(Slots(s, id), s.active[id]).value, Some(s.active[id])))
  {
    assert SoundFor(s, id);
    InstanceFound(Slots(s, id), if id in s.active then s.active[id] else Version(""));
  }

  /** A single version's unload leaves no model astray, whether its hook raises or not. */
  lemma SingleUnloadNeverStrays(s: State, id: ModelId, version: Version, hookRaises: bool, other: ModelId)
    requires Sound(s)
    ensures !Astray(UnloadVersion(s, id, version, hookRaises).0, other)
  {
    assert SoundFor(s, id) && SoundFor(s, other);
    var s' := UnloadVersion(s, id, version, hookRaises).0;
    InstanceFound(Slots(s, other), if other in s.active then s.active[other] else version);
    if other == id && s' != s {
      DropVersionDrops(s.loaded[id], version);
      InstanceFound(Slots(s', id), if id in s'.active then s'.active[id] else version);
      var rest := DropVersion(s.loaded[id], version);
      assert rest != [] ==> rest[0] in rest && rest[0].version in Versions(rest);
    }
  }

  predicate StandsAt(slots: seq<Slot>, version: Version, i: nat) {
    i < |slots| && slots[i].version == version
  }

  lemma VersionGone(slots: seq<Slot>, version: Version, n: nat, i: nat)
    requires DistinctVersions(slots) && n <= |slots| && StandsAt(slots, version, i)
    ensures InstanceOf(slots[n..], version).None? <==> i < n
  {
    InstanceFound(slots[n..], version);
    if i >= n {
      assert slots[n..][i - n] == slots[i] && slots[i] in slots[n..];
    } else {
      forall slot | slot in slots[n..] ensures slot.version != version {
        var k :| 0 <= k < |slots[n..]| && slots[n..][k] == slot;
        assert slots[n + k] == slot;
      }
    }
  }

  /**
   Unloading a whole model leaves it astray if and only if some hook raises and the active version
   stands at the raising hook's position or before it.
   */
  lemma CutShortStraysExactly(s: State, id: ModelId, raises: Version -> bool, i: nat)
    requires Sound(s) && id in s.loaded && id in s.active && StandsAt(s.loaded[id], s.active[id], i)
    ensures var n := Released(s.loaded[id], raises);
      Astray(UnloadAll(s, id, raises).0, id) <==> n < |s.loaded[id]| && i <= n
  {
    assert SoundFor(s, id);
    var n := Released(s.loaded[id], raises);
    if n < |s.loaded[id]| {
      VersionGone(s.loaded[id], s.active[id], n + 1, i);
    }
  }

  /** The reload that an astray model gets, when it succeeds, puts the active version back among the loaded. */
  lemma ReloadHeals(s: State, id: ModelId, world: World, now: real)
    requires Astray(s, id) && GetActive(s, id, world, now).1.Active?
    ensures var s' := GetActive(s, id, world, now).0;
      && s'.active == s.active && !Astray(s', id)
      && GetActive(s, id, world, now).1 == Active(InstanceOf(Slots(s', id), s.active[id]).value, Some(s.active[id]))
  {
    var version := s.active[id];
    InstanceAppended(Slots(s, id), Slot(version, world.instance.value));
  }

  lemma {:induction false} InstanceAppended(slots: seq<Slot>, slot: Slot)
    requires InstanceOf(slots, slot.version).None?
    ensures InstanceOf(slots + [slot], slot.version) == Some(slot.instance)
  {
    if slots == [] {
      assert slots + [slot] == [slot];
    } else {
      assert (slots + [slot])[1..] == slots[1..] + [slot];
      InstanceAppended(slots[1..], slot);
    }
  }

  // ----- unloads step by step -----

  /** An unload under way: of all of `slots`, `done` of them popped; or of one version, popped already. */
  datatype Unload = All(slots: seq<Slot>, done: nat) | One(version: Version)

  datatype Moment = Moment(s: State, unloads: map<ModelId, Unload>)

  datatype Step =
    | DoLoad(id: ModelId, wanted: Option<Version>, world: World, now: real)
    | DoSwitch(id: ModelId, version: Version, world: World, now: real)
    | BeginOne(id: ModelId, version: Version)
    | EndOne(id: ModelId)
    | BeginAll(id: ModelId)
    /** The next version is popped; its hook is awaited after that. */
    | Pop(id: ModelId)
    | EndAll(id: ModelId)
    /** The hook awaited last raises, and the unload is over. */
    | Raise(id: ModelId)

  function EndVersion(s: State, id: ModelId, version: Version): State {
    var left := Metrics(s, id) - {version};
    State(Prune(s.loaded, id, Slots(s, id) == []), s.active,
          if id in s.metrics then Prune(s.metrics[id := left], id, left == map[]) else s.metrics)
  }

  function Next(w: Moment, step: Step): Moment {
    var s, id := w.s, step.id;
    match step
    case DoLoad(_, wanted, world, now) => w.(s := Load(s, id, wanted, world, now).0)
    case DoSwitch(_, version, world, now) => w.(s := Switch(s, id, version, world, now).0)
    case BeginOne(_, version) =>
      if InstanceOf(Slots(s, id), version).None? then w
      else Moment(UnloadVersion(s, id, version, true).0, w.unloads[id := One(version)])
    case EndOne(_) =>
      if id in w.unloads && w.unloads[id].One? then
        Moment(EndVersion(s, id, w.unloads[id].version), w.unloads - {id})
      else w
    case BeginAll(_) => if id in s.loaded then w.(unloads := w.unloads[id := All(s.loaded[id], 0)]) else w
    case Pop(_) =>
      if id in w.unloads && w.unloads[id].All? && w.unloads[id].done < |w.unloads[id].slots| then
        var u := w.unloads[id];
        Moment(s.(loaded := s.loaded[id := u.slots[u.done + 1..]]), w.unloads[id := u.(done := u.done + 1)])
      else w
    case EndAll(_) => Moment(State(s.loaded - {id}, s.active - {id}, s.metrics - {id}), w.unloads - {id})
    case Raise(_) => w.(unloads := w.unloads - {id})
  }

  /** Loads, switches and new unloads wait for the model's lock; an unload's own steps follow each other. */
  predicate Enabled(w: Moment, step: Step) {
    match step
    case DoLoad(id, _, _, _) => id !in w.unloads
    case DoSwitch(id, _, _, _) => id !in w.unloads
    case BeginOne(id, _) => id !in w.unloads
    case BeginAll(id) => id !in w.unloads
    case EndOne(id) => id in w.unloads && w.unloads[id].One?
    case Pop(id) => id in w.unloads && w.unloads[id].All? && w.unloads[id].done < |w.unloads[id].slots|
    case EndAll(id) => id in w.unloads && w.unloads[id].All? && w.unloads[id].done == |w.unloads[id].slots|
    case Raise(id) => id in w.unloads && (w.unloads[id].One? || w.unloads[id].done > 0)
  }

  const START := Moment(NOTHING, map[])

  function Run(steps: seq<Step>): Moment {
    if steps == [] then START else Next(Run(steps[..|steps| - 1]), steps[|steps| - 1])
  }

  predicate IsRun(steps: seq<Step>) {
    steps == [] || (IsRun(steps[..|steps| - 1]) && Enabled(Run(steps[..|steps| - 1]), steps[|steps| - 1]))
  }

  // ----- the steps are the operations -----

  /** Popping the first `k` versions one by one. */
  function Pops(w: Moment, id: ModelId, k: nat): Moment {
    if k == 0 then w else Next(Pops(w, id, k - 1), Pop(id))
  }

  function Begun(s: State, id: ModelId, unloads: map<ModelId, Unload>): Moment {
    Next(Moment(s, unloads), BeginAll(id))
  }

  /** An unload of all versions with `k` of them popped. */
  function Popped(s: State, id: ModelId, unloads: map<ModelId, Unload>, k: nat): Moment
    requires id in s.loaded && k <= |s.loaded[id]|
  {
    Moment(s.(loaded := s.loaded[id := s.loaded[id][k..]]), unloads[id := All(s.loaded[id], k)])
  }

  lemma PopOnce(s: State, id: ModelId, unloads: map<ModelId, Unload>, k: nat)
    requires id in s.loaded && k < |s.loaded[id]|
    ensures Next(Popped(s, id, unloads, k), Pop(id)) == Popped(s, id, unloads, k + 1)
  {
    var slots := s.loaded[id];
    assert s.loaded[id := slots[k..]][id := slots[k + 1..]] == s.loaded[id := slots[k + 1..]];
    assert unloads[id := All(slots, k)][id := All(slots, k + 1)] == unloads[id := All(slots, k + 1)];
  }

  lemma {:induction false} PopsTake(s: State, id: ModelId, unloads: map<ModelId, Unload>, k: nat)
    requires id in s.loaded && id !in unloads && k <= |s.loaded[id]|
    ensures Pops(Begun(s, id, unloads), id, k) == Popped(s, id, unloads, k)
  {
    if k == 0 {
      assert s.loaded[id := s.loaded[id][0..]] == s.loaded;
    } else {
      PopsTake(s, id, unloads, k - 1);
      PopOnce(s, id, unloads, k - 1);
    }
  }

  lemma BrokenOff(s: State, id: ModelId, unloads: map<ModelId, Unload>, k: nat)
    requires id in s.loaded && id !in unloads && k <= |s.loaded[id]|
    ensures Next(Popped(s, id, unloads, k), Raise(id))
        == Moment(s.(loaded := s.loaded[id := s.loaded[id][k..]]), unloads)
    ensures Next(Popped(s, id, unloads, k), EndAll(id))
         == Moment(State(s.loaded - {id}, s.active - {id}, s.metrics - {id}), unloads)
  {
    assert unloads[id := All(s.loaded[id], k)] - {id} == unloads;
    assert s.loaded[id := s.loaded[id][k..]] - {id} == s.loaded - {id};
  }

  /** An unload of all versions that ends with `last` after `pops` pops. */
  function Stepwise(s: State, id: ModelId, unloads: map<ModelId, Unload>, pops: nat, last: Step): Moment {
    Next(Pops(Begun(s, id, unloads), id, pops), last)
  }

  lemma EndedOrBrokenOff(s: State, id: ModelId, unloads: map<ModelId, Unload>, k: nat, last: Step)
    requires id in s.loaded && id !in unloads && k <= |s.loaded[id]| && last in {Raise(id), EndAll(id)}
    ensures Stepwise(s, id, unloads, k, last) ==
      Moment(if last.Raise? then s.(loaded := s.loaded[id := s.loaded[id][k..]])
             else State(s.loaded - {id}, s.active - {id}, s.metrics - {id}), unloads)
  {
    PopsTake(s, id, unloads, k);
    var popped := Pops(Begun(s, id, unloads), id, k);
    assert popped == Popped(s, id, unloads, k);
    BrokenOff(s, id, unloads, k);
  }

  /** Begun, popped as far as the hooks let it, and ended or broken off, an unload of all versions is UnloadAll. */
  lemma StepsAreUnloadAll(s: State, id: ModelId, unloads: map<ModelId, Unload>, raises: Version -> bool)
    requires id in s.loaded && id !in unloads
    ensures var n, after := Released(s.loaded[id], raises), Moment(UnloadAll(s, id, raises).0, unloads);
      && (n < |s.loaded[id]| ==> Stepwise(s, id, unloads, n + 1, Raise(id)) == after)
      && (n == |s.loaded[id]| ==> Stepwise(s, id, unloads, n, EndAll(id)) == after)
  {
    var n := Released(s.loaded[id], raises);
    if n < |s.loaded[id]| {
      EndedOrBrokenOff(s, id, unloads, n + 1, Raise(id));
    } else {
      EndedOrBrokenOff(s, id, unloads, n, EndAll(id));
    }
  }

  /** Begun and ended or broken off, an unload of one version is UnloadVersion. */
  lemma StepsAreUnloadVersion(s: State, id: ModelId, unloads: map<ModelId, Unload>, version: Version, hookRaises: bool)
    requires id in s.loaded && InstanceOf(s.loaded[id], version).Some? && id !in unloads
    ensures Moment(UnloadVersion(s, id, version, hookRaises).0, unloads)
         == Next(Next(Moment(s, unloads), BeginOne(id, version)), if hookRaises then Raise(id) else EndOne(id))
  {
    assert unloads[id := One(version)] - {id} == unloads;
  }

  // ----- what asking for the active model can find -----

  /** The tables of one model while nothing raised. */
  ghost predicate Phase(w: Moment, id: ModelId) {
    if id !in w.unloads then SoundFor(w.s, id)
    else
      match w.unloads[id]
      case All(slots, done) =>
        && slots != [] && DistinctVersions(slots) && done <= |slots|
        && id in w.s.loaded && w.s.loaded[id] == slots[done..]
        && id in w.s.active && w.s.active[id] in Versions(slots)
        && id in w.s.metrics && w.s.metrics[id].Keys == Versions(slots)
      case One(version) =>
        && id in w.s.loaded && DistinctVersions(w.s.loaded[id]) && version !in Versions(w.s.loaded[id])
        && id in w.s.metrics && w.s.metrics[id].Keys == Versions(w.s.loaded[id]) + {version}
        && (id in w.s.active <==> w.s.loaded[id] != [])
        && (id in w.s.active ==> w.s.active[id] in Versions(w.s.loaded[id]))
  }

  /** One model's tables are the same in both. */
  predicate SameTables(s: State, t: State, id: ModelId) {
    && (id in t.loaded <==> id in s.loaded) && (id in s.loaded ==> t.loaded[id] == s.loaded[id])
    && (id in t.active <==> id in s.active) && (id in s.active ==> t.active[id] == s.active[id])
    && (id in t.metrics <==> id in s.metrics) && (id in s.metrics ==> t.metrics[id] == s.metrics[id])
  }

  lemma LoadElsewhere(s: State, at: ModelId, version: Option<Version>, world: World, now: real, id: ModelId)
    requires at != id
    ensures SameTables(s, Load(s, at, version, world, now).0, id)
  {
  }

  lemma SwitchElsewhere(s: State, at: ModelId, version: Version, world: World, now: real, id: ModelId)
    requires at != id
    ensures SameTables(s, Switch(s, at, version, world, now).0, id)
  {
    LoadElsewhere(s, at, Some(version), world, now, id);
  }

  lemma ElsewhereUntouched(w: Moment, step: Step, id: ModelId)
    requires step.id != id
    ensures var w' := Next(w, step);
      && (id in w'.unloads <==> id in w.unloads) && (id in w.unloads ==> w'.unloads[id] == w.unloads[id])
      && SameTables(w.s, w'.s, id)
  {
    match step {
      case DoLoad(at, wanted, world, now) => LoadElsewhere(w.s, at, wanted, world, now, id);
      case DoSwitch(at, version, world, now) => SwitchElsewhere(w.s, at, version, world, now, id);
      case _ =>
    }
  }

  lemma BeginOneKeepsPhase(w: Moment, id: ModelId, version: Version)
    requires Phase(w, id) && id !in w.unloads
    ensures Phase(Next(w, BeginOne(id, version)), id)
  {
    InstanceFound(Slots(w.s, id), version);
    if InstanceOf(Slots(w.s, id), version).Some? {
      DropVersionDrops(w.s.loaded[id], version);
      var rest := DropVersion(w.s.loaded[id], version);
      assert rest == [] ==> Versions(rest) == {};
      assert rest != [] ==> rest[0] in rest && rest[0].version in Versions(rest);
    }
  }

  lemma EndOneKeepsPhase(w: Moment, id: ModelId)
    requires Phase(w, id) && id in w.unloads && w.unloads[id].One?
    ensures Phase(Next(w, EndOne(id)), id)
  {
    var version := w.unloads[id].version;
    assert (Metrics(w.s, id) - {version}).Keys == Versions(w.s.loaded[id]);
    assert w.s.loaded[id] == [] ==> Versions(w.s.loaded[id]) == {};
  }

  lemma StepKeepsPhase(w: Moment, step: Step, id: ModelId)
    requires Phase(w, id) && Enabled(w, step) && step != Raise(id)
    ensures Phase(Next(w, step), id)
  {
    if step.id != id {
      ElsewhereUntouched(w, step, id);
    } else {
      match step {
        case DoLoad(_, wanted, world, now) => LoadKeepsSoundFor(w.s, id, wanted, world, now, id);
        case DoSwitch(_, version, world, now) => SwitchKeepsSoundFor(w.s, id, version, world, now, id);
        case BeginOne(_, version) => BeginOneKeepsPhase(w, id, version);
        case EndOne(_) => EndOneKeepsPhase(w, id);
        case BeginAll(_) =>
          if id in w.s.loaded {
            assert w.s.loaded[id][0..] == w.s.loaded[id];
          }
        case Pop(_) =>
        case EndAll(_) =>
        case Raise(_) =>
      }
    }
  }

  lemma {:induction false} RunKeepsPhase(steps: seq<Step>, id: ModelId)
    requires IsRun(steps) && Raise(id) !in steps
    ensures Phase(Run(steps), id)
  {
    if steps != [] {
      var front, last := steps[..|steps| - 1], steps[|steps| - 1];
      assert last in steps && forall step :: step in front ==> step in steps;
      RunKeepsPhase(front, id);
      StepKeepsPhase(Run(front), last, id);
    }
  }

  /**
   In any interleaving in which the model's hooks suspend but do not raise, asking for its active model
   finds it astray if and only if an unload of all its versions is under way and has popped the active
   one; and it never finds a loaded version without metrics.
   */
  lemma AstrayExactlyMidUnload(steps: seq<Step>, id: ModelId)
    requires IsRun(steps) && Raise(id) !in steps
    ensures var w := Run(steps);
      Astray(w.s, id) <==>
        && id in w.unloads && w.unloads[id].All? && id in w.s.active
        && exists i :: 0 <= i < w.unloads[id].done && i < |w.unloads[id].slots|
            && w.unloads[id].slots[i].version == w.s.active[id]
    ensures forall world, now :: GetActive(Run(steps).s, id, world, now).1 != MissingMetrics
  {
    var w := Run(steps);
    RunKeepsPhase(steps, id);
    if id in w.s.active {
      var version := w.s.active[id];
      InstanceFound(Slots(w.s, id), version);
      if id in w.unloads && w.unloads[id].All? {
        var slots, done := w.unloads[id].slots, w.unloads[id].done;
        var slot :| slot in slots && slot.version == version;
        var i :| 0 <= i < |slots| && slots[i] == slot;
        VersionGone(slots, version, done, i);
      }
    }
  }

  // ----- runs in which hooks raise -----

  /** What holds of a model's versions whatever its hooks do. */
  ghost predicate Orderly(w: Moment, id: ModelId) {
    && DistinctVersions(Slots(w.s, id))
    && (id in w.unloads && w.unloads[id].All? ==>
          var u := w.unloads[id];
          && u.done <= |u.slots| && DistinctVersions(u.slots) && id in w.s.loaded
          && w.s.loaded[id] == u.slots[u.done..])
  }

  /** The step pops the active version in an unload of all versions. */
  predicate PopsActive(w: Moment, step: Step, id: ModelId) {
    && step == Pop(id) && id in w.unloads && w.unloads[id].All? && w.unloads[id].done < |w.unloads[id].slots|
    && id in w.s.active && w.unloads[id].slots[w.unloads[id].done].version == w.s.active[id]
  }

  /** The step stores the active version, switches successfully, or completes an unload of all versions. */
  predicate Restores(w: Moment, step: Step, id: ModelId) {
    match step
    case DoLoad(at, wanted, world, _) => at == id && StoresActive(w.s, id, Resolve(world, wanted), world)
    case DoSwitch(at, version, world, now) =>
      at == id && (Switch(w.s, id, version, world, now).1
                   || (world.versionExists && StoresActive(w.s, id, Resolve(world, Some(version)), world)))
    case EndAll(at) => at == id
    case _ => false
  }

  /** A load that resolves to the active version comes up. */
  predicate StoresActive(s: State, id: ModelId, resolved: Option<Version>, world: World) {
    id in s.active && resolved == Some(s.active[id]) && world.instance.Some?
  }

  lemma {:induction false} InstanceOfAppend(slots: seq<Slot>, slot: Slot, version: Version)
    ensures InstanceOf(slots + [slot], version).Some? <==> InstanceOf(slots, version).Some? || slot.version == version
  {
    if slots == [] {
      assert slots + [slot] == [slot];
    } else {
      assert (slots + [slot])[1..] == slots[1..] + [slot];
      InstanceOfAppend(slots[1..], slot, version);
    }
  }

  lemma StoreStaysDistinct(s: State, id: ModelId, version: Version, instance: nat, now: real)
    requires DistinctVersions(Slots(s, id)) && InstanceOf(Slots(s, id), version).None?
    ensures DistinctVersions(Slots(Store(s, id, version, instance, now), id))
  {
    var slots := Slots(s, id);
    InstanceFound(slots, version);
    forall i | 0 <= i < |slots| ensures slots[i].version != version {
      assert slots[i] in slots;
    }
  }

  lemma LoadAstray(s: State, id: ModelId, wanted: Option<Version>, world: World, now: real)
    requires DistinctVersions(Slots(s, id))
    ensures var s' := Load(s, id, wanted, world, now).0;
      && DistinctVersions(Slots(s', id))
      && (Astray(s', id) <==> Astray(s, id) && !StoresActive(s, id, Resolve(world, wanted), world))
  {
    var resolved := Resolve(world, wanted);
    if resolved.Some? && InstanceOf(Slots(s, id), resolved.value).None? && world.instance.Some? {
      StoreStaysDistinct(s, id, resolved.value, world.instance.value, now);
      var slot := Slot(resolved.value, world.instance.value);
      InstanceOfAppend(Slots(s, id), slot, if id in s.active then s.active[id] else resolved.value);
    }
  }

  lemma SwitchAstray(s: State, id: ModelId, version: Version, world: World, now: real)
    requires DistinctVersions(Slots(s, id))
    ensures var (s', ok) := Switch(s, id, version, world, now);
      && DistinctVersions(Slots(s', id))
      && (Astray(s', id) <==>
            Astray(s, id) && !ok && !(world.versionExists && StoresActive(s, id, Resolve(world, Some(version)), world)))
  {
    LoadAstray(s, id, Some(version), world, now);
    if InstanceOf(Slots(s, id), version).None? && world.instance.Some? {
      InstanceOfAppend(Slots(s, id), Slot(version, world.instance.value), version);
    }
  }

  lemma BeginOneAstray(s: State, id: ModelId, version: Version)
    requires DistinctVersions(Slots(s, id)) && InstanceOf(Slots(s, id), version).Some?
    ensures var s' := UnloadVersion(s, id, version, true).0;
      DistinctVersions(Slots(s', id)) && (Astray(s', id) <==> Astray(s, id))
  {
    var slots, s' := Slots(s, id), UnloadVersion(s, id, version, true).0;
    InstanceFound(slots, version);
    DropVersionDrops(slots, version);
    var rest := DropVersion(slots, version);
    assert rest != [] ==> rest[0] in rest && rest[0].version in Versions(rest);
    InstanceFound(slots, if id in s.active then s.active[id] else version);
    InstanceFound(rest, if id in s'.active then s'.active[id] else version);
  }

  /** Popping a version takes away that one and no other. */
  lemma PoppedOne(slots: seq<Slot>, done: nat, version: Version)
    requires DistinctVersions(slots) && done < |slots|
    ensures InstanceOf(slots[done + 1..], version).None?
       <==> InstanceOf(slots[done..], version).None? || slots[done].version == version
  {
    var rest := slots[done + 1..];
    assert slots[done..][0] == slots[done] && slots[done..][1..] == rest;
    InstanceFound(rest, version);
    forall slot | slot in rest ensures slot.version != slots[done].version {
      var k :| 0 <= k < |rest| && rest[k] == slot;
      assert slots[done + 1 + k] == slot;
    }
  }

  lemma PopAstray(w: Moment, id: ModelId)
    requires Orderly(w, id) && Enabled(w, Pop(id))
    ensures Orderly(Next(w, Pop(id)), id)
    ensures Astray(Next(w, Pop(id)).s, id) <==> PopsActive(w, Pop(id), id) || Astray(w.s, id)
  {
    var u := w.unloads[id];
    if id in w.s.active {
      PoppedOne(u.slots, u.done, w.s.active[id]);
    }
  }

  /** One step, raising hooks included, strays exactly if it pops the active version or does not restore it. */
  lemma StepAstray(w: Moment, step: Step, id: ModelId)
    requires Orderly(w, id) && Enabled(w, step)
    ensures Orderly(Next(w, step), id)
    ensures Astray(Next(w, step).s, id) <==> PopsActive(w, step, id) || (Astray(w.s, id) && !Restores(w, step, id))
  {
    if step.id != id {
      ElsewhereUntouched(w, step, id);
    } else {
      match step {
        case DoLoad(_, wanted, world, now) => LoadAstray(w.s, id, wanted, world, now);
        case DoSwitch(_, version, world, now) => SwitchAstray(w.s, id, version, world, now);
        case BeginOne(_, version) =>
          if InstanceOf(Slots(w.s, id), version).Some? {
            BeginOneAstray(w.s, id, version);
          }
        case EndOne(_) =>
        case BeginAll(_) =>
          if id in w.s.loaded {
            assert w.s.loaded[id][0..] == w.s.loaded[id];
          }
        case Pop(_) => PopAstray(w, id);
        case EndAll(_) =>
        case Raise(_) =>
      }
    }
  }

  /** Step `k` popped the active version, and nothing since has restored it. */
  predicate PoppedAt(steps: seq<Step>, id: ModelId, k: int) {
    && 0 <= k < |steps| && PopsActive(Run(steps[..k]), steps[k], id)
    && forall j :: k < j < |steps| ==> !RestoredAt(steps, id, j)
  }

  predicate RestoredAt(steps: seq<Step>, id: ModelId, j: int)
    requires 0 <= j < |steps|
  {
    Restores(Run(steps[..j]), steps[j], id)
  }

  lemma PoppedAtPrefix(steps: seq<Step>, id: ModelId, k: int)
    requires 0 <= k < |steps| - 1
    ensures var before, step := steps[..|steps| - 1], steps[|steps| - 1];
      PoppedAt(steps, id, k) <==> PoppedAt(before, id, k) && !Restores(Run(before), step, id)
  {
    var n, before := |steps| - 1, steps[..|steps| - 1];
    assert steps[..k] == before[..k] && steps[..n] == before;
    forall j | 0 <= j < n ensures RestoredAt(steps, id, j) <==> RestoredAt(before, id, j) {
      assert steps[..j] == before[..j];
    }
    assert RestoredAt(steps, id, n) <==> Restores(Run(before), steps[n], id);
  }

  lemma PoppedGrows(steps: seq<Step>, id: ModelId)
    requires steps != []
    ensures var before, step := steps[..|steps| - 1], steps[|steps| - 1];
      (exists k :: PoppedAt(steps, id, k)) <==>
        || PopsActive(Run(before), step, id)
        || ((exists k :: PoppedAt(before, id, k)) && !Restores(Run(before), step, id))
  {
    var n, before := |steps| - 1, steps[..|steps| - 1];
    assert PoppedAt(steps, id, n) <==> PopsActive(Run(before), steps[n], id);
    if k :| PoppedAt(steps, id, k) {
      if k < n {
        PoppedAtPrefix(steps, id, k);
      }
    }
    if k :| PoppedAt(before, id, k) {
      PoppedAtPrefix(steps, id, k);
    }
  }

  lemma {:induction false} RunStaysOrderly(steps: seq<Step>, id: ModelId)
    requires IsRun(steps)
    ensures Orderly(Run(steps), id)
  {
    if steps != [] {
      RunStaysOrderly(steps[..|steps| - 1], id);
      StepAstray(Run(steps[..|steps| - 1]), steps[|steps| - 1], id);
    }
  }

  /**
   In any interleaving, whatever hooks raise, asking for the active model finds it astray if and only if
   an unload of all versions popped the active version and since then it has not been stored again, no
   switch has succeeded, and no unload of all versions has completed.
   */
  lemma {:induction false} AstrayExactly(steps: seq<Step>, id: ModelId)
    requires IsRun(steps)
    ensures Astray(Run(steps).s, id) <==> exists k :: PoppedAt(steps, id, k)
  {
    if steps != [] {
      var before := steps[..|steps| - 1];
      AstrayExactly(before, id);
      RunStaysOrderly(before, id);
      StepAstray(Run(before), steps[|steps| - 1], id);
      PoppedGrows(steps, id);
    }
  }

  // ----- the run that shows it -----

  function Comes(instance: nat): World {
    World(true, None, true, Some(instance), true)
  }

  lemma RunAppend(steps: seq<Step>, step: Step)
    ensures Run(steps + [step]) == Next(Run(steps), step)
    ensures IsRun(steps + [step]) <==> IsRun(steps) && Enabled(Run(steps), step)
  {
    assert (steps + [step])[..|steps|] == steps;
  }

  lemma FirstLoaded(id: ModelId, a: Version)
    ensures Next(START, Step.DoLoad(id, Some(a), Comes(0), 0.0))
         == Moment(State(map[id := [Slot(a, 0)]], map[id := a], map[id := map[a := 0.0]]), map[])
  {
    assert Slots(NOTHING, id) == [] && InstanceOf([], a) == None && [] + [Slot(a, 0)] == [Slot(a, 0)];
  }

  lemma SecondLoaded(id: ModelId, a: Version, b: Version)
    requires a != b
    ensures var one := Moment(State(map[id := [Slot(a, 0)]], map[id := a], map[id := map[a := 0.0]]), map[]);
      var two := Next(one, Step.DoLoad(id, Some(b), Comes(1), 1.0));
      two.unloads == map[] && two.s.loaded == map[id := [Slot(a, 0), Slot(b, 1)]] && two.s.active == map[id := a]
  {
    assert [Slot(a, 0)][1..] == [] && InstanceOf([], b) == None && InstanceOf([Slot(a, 0)], b) == None;
    assert [Slot(a, 0)] + [Slot(b, 1)] == [Slot(a, 0), Slot(b, 1)];
  }

  lemma FirstPopped(w: Moment, id: ModelId, a: Version, b: Version)
    requires a != b && w.unloads == map[] && w.s.loaded == map[id := [Slot(a, 0), Slot(b, 1)]]
        && w.s.active == map[id := a]
    ensures var begun := Next(w, BeginAll(id));
      var popped := Next(begun, Pop(id));
      Enabled(begun, Pop(id)) && Astray(popped.s, id) && Slots(popped.s, id) == [Slot(b, 1)]
  {
    assert [Slot(a, 0), Slot(b, 1)][1..] == [Slot(b, 1)];
    assert [Slot(b, 1)][1..] == [] && InstanceOf([], a) == None && InstanceOf([Slot(b, 1)], a) == None;
  }

  /** Two versions loaded, all being unloaded, the first and active one popped: the model is astray. */
  lemma AstrayBetweenPops(id: ModelId, a: Version, b: Version)
    requires a != b
    ensures var steps :=
        [Step.DoLoad(id, Some(a), Comes(0), 0.0), Step.DoLoad(id, Some(b), Comes(1), 1.0), BeginAll(id), Pop(id)];
      IsRun(steps) && Astray(Run(steps).s, id) && Slots(Run(steps).s, id) == [Slot(b, 1)]
  {
    var first, second := Step.DoLoad(id, Some(a), Comes(0), 0.0), Step.DoLoad(id, Some(b), Comes(1), 1.0);
    RunAppend([], first);
    FirstLoaded(id, a);
    RunAppend([first], second);
    SecondLoaded(id, a, b);
    RunAppend([first, second], BeginAll(id));
    RunAppend([first, second, BeginAll(id)], Pop(id));
    assert [] + [first] == [first] && [first] + [second] == [first, second];
    assert [first, second] + [BeginAll(id)] == [first, second, BeginAll(id)];
    assert [first, second, BeginAll(id)] + [Pop(id)] == [first, second, BeginAll(id), Pop(id)];
    FirstPopped(Run([first, second]), id, a, b);
  }
}
