/**
 The versioned model loader: several loaded versions per model, one of them active. What the
 registry answers, whether an artifact loads and validates, and which cleanup hooks raise, are
 inputs. Each public operation is one atomic step here; VersionUnloads takes the unloads apart. Taken
 literally, switching versions waits for the lock it already holds when it has to load.
 */
module VersionLoader {
  import opened Basics

  datatype ModelId = ModelId(text: string)

  datatype Version = Version(text: string)

  datatype Slot = Slot(version: Version, instance: nat)

  /** Per model: the loaded versions in loading order, the active one, and when each was last used. */
  datatype State = State(
    loaded: map<ModelId, seq<Slot>>, active: map<ModelId, Version>, metrics: map<ModelId, map<Version, real>>)

  const NOTHING := State(map[], map[], map[])

  function Versions(slots: seq<Slot>): set<Version> {
    set slot | slot in slots :: slot.version
  }

  function Slots(s: State, id: ModelId): seq<Slot> {
    if id in s.loaded then s.loaded[id] else []
  }

  function Metrics(s: State, id: ModelId): map<Version, real> {
    if id in s.metrics then s.metrics[id] else map[]
  }

  ghost predicate DistinctVersions(slots: seq<Slot>) {
    forall i, j :: 0 <= i < j < |slots| ==> slots[i].version != slots[j].version
  }

  /** The active version is loaded, no model is left without versions, and the tables name the same models. */
  ghost predicate SoundFor(s: State, id: ModelId) {
    && (id in s.loaded <==> id in s.active) && (id in s.loaded <==> id in s.metrics)
    && (id in s.loaded ==>
          && s.loaded[id] != [] && DistinctVersions(s.loaded[id])
          && s.active[id] in Versions(s.loaded[id])
          && s.metrics[id].Keys == Versions(s.loaded[id]))
  }

  ghost predicate Sound(s: State) {
    forall id :: SoundFor(s, id)
  }

  // ----- loading -----

  /** What the outside world answers while a model is loaded. */
  datatype World = World(known: bool, latest: Option<Version>, versionExists: bool, instance: Option<nat>, valid: bool)

  datatype LoadResult = Loaded(instance: nat) | LoadError

  /** The version a request resolves to. */
  function Resolve(world: World, version: Option<Version>): Option<Version> {
    if !world.known then None
    else
      match version
      case None => world.latest
      case Some(v) => if world.versionExists then Some(v) else None
  }

  function Store(s: State, id: ModelId, version: Version, instance: nat, now: real): State {
    State(s.loaded[id := Slots(s, id) + [Slot(version, instance)]],
          if id in s.active then s.active else s.active[id := version],
          s.metrics[id := Metrics(s, id)[version := now]])
  }

  function InstanceOf(slots: seq<Slot>, version: Version): Option<nat> {
    if slots == [] then None
    else if slots[0].version == version then Some(slots[0].instance)
    else InstanceOf(slots[1..], version)
  }

  /** A model that fails validation stays loaded although the caller is told that loading failed. */
  function Load(s: State, id: ModelId, version: Option<Version>, world: World, now: real): (State, LoadResult) {
    match Resolve(world, version)
    case None => (s, LoadError)
    case Some(v) =>
      match InstanceOf(Slots(s, id), v)
      case Some(instance) =>
        if v in Metrics(s, id) then (s.(metrics := s.metrics[id := Metrics(s, id)[v := now]]), Loaded(instance))
        else (s, LoadError)
      case None =>
        if world.instance.None? then (s, LoadError)
        else (Store(s, id, v, world.instance.value, now),
              if world.valid then Loaded(world.instance.value) else LoadError)
  }

  // ----- unloading -----

  function DropVersion(slots: seq<Slot>, version: Version): seq<Slot> {
    if slots == [] then []
    else if slots[0].version == version then slots[1..]
    else [slots[0]] + DropVersion(slots[1..], version)
  }

  /** The active versions once `version` is about to go: the earliest loaded other one takes over. */
  function Succeed(s: State, id: ModelId, version: Version): map<ModelId, Version> {
    if id !in s.active || s.active[id] != version then s.active
    else
      var others := DropVersion(Slots(s, id), version);
      if others != [] then s.active[id := others[0].version] else s.active - {id}
  }

  /** Remove a model's entry when nothing is left under it. */
  function Prune<V>(table: map<ModelId, V>, id: ModelId, empty: bool): map<ModelId, V> {
    if empty then table - {id} else table
  }

  function UnloadVersion(s: State, id: ModelId, version: Version, hookRaises: bool): (State, bool) {
    if id !in s.loaded || InstanceOf(s.loaded[id], version).None? then (s, false)
    else
      var rest := DropVersion(s.loaded[id], version);
      var active := Succeed(s, id, version);
      if hookRaises then (State(s.loaded[id := rest], active, s.metrics), false)
      else
        var left := Metrics(s, id) - {version};
        (State(Prune(s.loaded[id := rest], id, rest == []), active,
               if id in s.metrics then Prune(s.metrics[id := left], id, left == map[]) else s.metrics), true)
  }

  /** How many versions are released before a hook raises; all of them when none does. */
  function Released(slots: seq<Slot>, raises: Version -> bool): (n: nat)
    ensures n <= |slots|
    ensures n < |slots| ==> raises(slots[n].version)
    ensures forall i :: 0 <= i < n ==> !raises(slots[i].version)
  {
    if slots == [] || raises(slots[0].version) then 0
    else
      var n := 1 + Released(slots[1..], raises);
      assert forall i :: 1 <= i < n ==> slots[i] == slots[1..][i - 1];
      n
  }

  function UnloadAll(s: State, id: ModelId, raises: Version -> bool): (State, bool) {
    if id !in s.loaded then (s, false)
    else
      var n := Released(s.loaded[id], raises);
      if n < |s.loaded[id]| then (s.(loaded := s.loaded[id := s.loaded[id][n + 1..]]), false)
      else (State(s.loaded - {id}, s.active - {id}, s.metrics - {id}), true)
  }

  // ----- switching -----

  function Switch(s: State, id: ModelId, version: Version, world: World, now: real): (State, bool) {
    if !world.versionExists then (s, false)
    else if InstanceOf(Slots(s, id), version).Some? then (s.(active := s.active[id := version]), true)
    else
      var (s', result) := Load(s, id, Some(version), world, now);
      if result.LoadError? then (s', false) else (s'.(active := s'.active[id := version]), true)
  }

  // ----- the loader -----

  datatype Active = Active(instance: nat, version: Option<Version>) | NoActive | MissingMetrics

  /** The active version is not among the loaded ones. */
  predicate Astray(s: State, id: ModelId) {
    id in s.active && InstanceOf(Slots(s, id), s.active[id]).None?
  }

  /** Asking for the active model loads the latest version when none is active, and the active one when it is astray. */
  function GetActive(s: State, id: ModelId, world: World, now: real): (State, Active) {
    if id !in s.active then
      var (s', result) := Load(s, id, None, world, now);
      (s', match result
           case LoadError => NoActive
           case Loaded(instance) => Active(instance, if id in s'.active then Some(s'.active[id]) else None))
    else
      var version := s.active[id];
      if Astray(s, id) then
        var (s', result) := Load(s, id, Some(version), world, now);
        (s', match result case LoadError => NoActive case Loaded(instance) => Active(instance, Some(version)))
      else if version !in Metrics(s, id) then (s, MissingMetrics)
      else (s, Active(InstanceOf(Slots(s, id), version).value, Some(version)))
  }

  class ModelLoader {
    var loadedModels: map<ModelId, seq<Slot>>
    var activeVersions: map<ModelId, Version>
    var modelMetrics: map<ModelId, map<Version, real>>

    constructor ()
      ensures Contents() == NOTHING
    {
      loadedModels, activeVersions, modelMetrics := map[], map[], map[];
    }

    function Contents(): State
      reads this
    {
      State(loadedModels, activeVersions, modelMetrics)
    }

    method LoadModel(id: ModelId, version: Option<Version>, world: World, now: real) returns (result: LoadResult)
      modifies this
      ensures (Contents(), result) == Load(old(Contents()), id, version, world, now)
    {
      if !world.known {
        return LoadError;
      }
      var wanted;
      if version == None {
        if world.latest == None {
          return LoadError;
        }
        wanted := world.latest.value;
      } else {
        if !world.versionExists {
          return LoadError;
        }
        wanted := version.value;
      }
      var slots := if id in loadedModels then loadedModels[id] else [];
      var found := InstanceOf(slots, wanted);
      if found != None {
        if id in modelMetrics && wanted in modelMetrics[id] {
          modelMetrics := modelMetrics[id := modelMetrics[id][wanted := now]];
          return Loaded(found.value);
        }
        return LoadError;
      }
      if world.instance == None {
        return LoadError;
      }
      var instance := world.instance.value;
      loadedModels := loadedModels[id := slots + [Slot(wanted, instance)]];
      var metrics := if id in modelMetrics then modelMetrics[id] else map[];
      modelMetrics := modelMetrics[id := metrics[wanted := now]];
      if id !in activeVersions {
        activeVersions := activeVersions[id := wanted];
      }
      if !world.valid {
        return LoadError;
      }
      return Loaded(instance);
    }

    method UnloadModelVersion(id: ModelId, version: Version, hookRaises: bool) returns (ok: bool)
      modifies this
      ensures (Contents(), ok) == UnloadVersion(old(Contents()), id, version, hookRaises)
    {
      if id !in loadedModels {
        return false;
      }
      if InstanceOf(loadedModels[id], version) == None {
        return false;
      }
      var rest := DropVersion(loadedModels[id], version);
      if id in activeVersions && activeVersions[id] == version {
        if rest != [] {
          activeVersions := activeVersions[id := rest[0].version];
        } else {
          activeVersions := activeVersions - {id};
        }
      }
      loadedModels := loadedModels[id := rest];
      if hookRaises {
        return false;
      }
      if id in modelMetrics {
        modelMetrics := modelMetrics[id := modelMetrics[id] - {version}];
      }
      if loadedModels[id] == [] {
        loadedModels := loadedModels - {id};
      }
      if id in modelMetrics && modelMetrics[id] == map[] {
        modelMetrics := modelMetrics - {id};
      }
      return true;
    }

    method UnloadModel(id: ModelId, raises: Version -> bool) returns (ok: bool)
      modifies this
      ensures (Contents(), ok) == UnloadAll(old(Contents()), id, raises)
    {
      if id !in loadedModels {
        return false;
      }
      var versions := loadedModels[id];
      ghost var n := Released(versions, raises);
      for i := 0 to |versions|
        invariant i <= n
        invariant id in loadedModels && loadedModels == old(loadedModels)[id := versions[i..]]
        invariant activeVersions == old(activeVersions) && modelMetrics == old(modelMetrics)
      {
        loadedModels := loadedModels[id := versions[i + 1..]];
        if raises(versions[i].version) {
          assert n == i && loadedModels == old(loadedModels)[id := versions[n + 1..]];
          return false;
        }
      }
      modelMetrics := modelMetrics - {id};
      activeVersions := activeVersions - {id};
      loadedModels := loadedModels - {id};
      assert loadedModels == old(loadedModels) - {id};
      return true;
    }

    method SwitchModelVersion(id: ModelId, version: Version, world: World, now: real) returns (ok: bool)
      modifies this
      ensures (Contents(), ok) == Switch(old(Contents()), id, version, world, now)
    {
      if !world.versionExists {
        return false;
      }
      if id !in loadedModels || InstanceOf(loadedModels[id], version) == None {
        var result := LoadModel(id, Some(version), world, now);
        if result == LoadError {
          return false;
        }
      }
      activeVersions := activeVersions[id := version];
      return true;
    }

    method GetActiveModel(id: ModelId, world: World, now: real) returns (active: Active)
      modifies this
      ensures (Contents(), active) == GetActive(old(Contents()), id, world, now)
    {
      if id !in activeVersions {
        var result := LoadModel(id, None, world, now);
        if result == LoadError {
          return NoActive;
        }
        return Active(result.instance, if id in activeVersions then Some(activeVersions[id]) else None);
      }
      var version := activeVersions[id];
      if id !in loadedModels || InstanceOf(loadedModels[id], version) == None {
        var result := LoadModel(id, Some(version), world, now);
        if result == LoadError {
          return NoActive;
        }
        return Active(result.instance, Some(version));
      }
      if id !in modelMetrics || version !in modelMetrics[id] {
        return MissingMetrics;
      }
      return Active(InstanceOf(loadedModels[id], version).value, Some(version));
    }
  }

  // ----- what every operation keeps -----

  lemma {:induction false} InstanceFound(slots: seq<Slot>, version: Version)
    ensures InstanceOf(slots, version).Some? <==> version in Versions(slots)
  {
    if slots != [] {
      InstanceFound(slots[1..], version);
      assert slots == [slots[0]] + slots[1..];
      if version in Versions(slots) {
        var slot :| slot in slots && slot.version == version;
        assert slot == slots[0] || slot in slots[1..];
      }
      if version in Versions(slots[1..]) {
        var slot :| slot in slots[1..] && slot.version == version;
        assert slot in slots;
      }
    }
  }

  lemma {:induction false} DropVersionDrops(slots: seq<Slot>, version: Version)
    requires DistinctVersions(slots)
    ensures DistinctVersions(DropVersion(slots, version))
    ensures Versions(DropVersion(slots, version)) == Versions(slots) - {version}
    ensures forall slot :: slot in DropVersion(slots, version) ==> slot in slots
  {
    if slots != [] {
      var rest := slots[1..];
      assert slots == [slots[0]] + rest;
      if slots[0].version == version {
        VersionsCons(slots);
        assert version !in Versions(rest);
      } else {
        DropVersionDrops(rest, version);
        VersionsCons(slots);
        var dropped := DropVersion(rest, version);
        VersionsCons([slots[0]] + dropped);
        assert ([slots[0]] + dropped)[1..] == dropped;
        forall i | 0 <= i < |dropped| ensures dropped[i].version != slots[0].version {
          assert dropped[i] in rest;
        }
      }
    }
  }

  lemma VersionsCons(slots: seq<Slot>)
    requires slots != []
    ensures Versions(slots) == {slots[0].version} + Versions(slots[1..])
  {
    assert slots == [slots[0]] + slots[1..];
    forall v | v in Versions(slots) ensures v in {slots[0].version} + Versions(slots[1..]) {
      var slot :| slot in slots && slot.version == v;
      assert slot == slots[0] || slot in slots[1..];
    }
  }

  lemma VersionsAppend(slots: seq<Slot>, slot: Slot)
    ensures Versions(slots + [slot]) == Versions(slots) + {slot.version}
  {
    assert slot in slots + [slot];
    forall other | other in slots ensures other in slots + [slot] {
    }
  }

  /** Storing a version that is not loaded keeps the tables of every model sound. */
  lemma StoreKeepsSoundFor(s: State, id: ModelId, version: Version, instance: nat, now: real, other: ModelId)
    requires SoundFor(s, id) && SoundFor(s, other) && version !in Versions(Slots(s, id))
    ensures SoundFor(Store(s, id, version, instance, now), other)
  {
    if other == id {
      var slots := Slots(s, id);
      VersionsAppend(slots, Slot(version, instance));
      assert Versions([]) == {};
      forall i | 0 <= i < |slots| ensures slots[i].version != version {
        assert slots[i] in slots;
      }
    }
  }

  lemma LoadKeepsSoundFor(s: State, id: ModelId, version: Option<Version>, world: World, now: real, other: ModelId)
    requires SoundFor(s, id) && SoundFor(s, other)
    ensures SoundFor(Load(s, id, version, world, now).0, other)
  {
    if Load(s, id, version, world, now).0 != s {
      var v := Resolve(world, version).value;
      InstanceFound(Slots(s, id), v);
      if InstanceOf(Slots(s, id), v).None? {
        StoreKeepsSoundFor(s, id, v, world.instance.value, now, other);
      }
    }
  }

  lemma LoadKeepsSound(s: State, id: ModelId, version: Option<Version>, world: World, now: real)
    requires Sound(s)
    ensures Sound(Load(s, id, version, world, now).0)
  {
    forall other ensures SoundFor(Load(s, id, version, world, now).0, other) {
      LoadKeepsSoundFor(s, id, version, world, now, other);
    }
  }

  lemma SwitchKeepsSoundFor(s: State, id: ModelId, version: Version, world: World, now: real, other: ModelId)
    requires SoundFor(s, id) && SoundFor(s, other)
    ensures SoundFor(Switch(s, id, version, world, now).0, other)
  {
    LoadKeepsSoundFor(s, id, Some(version), world, now, id);
    LoadKeepsSoundFor(s, id, Some(version), world, now, other);
    var loaded := if InstanceOf(Slots(s, id), version).Some? then s else Load(s, id, Some(version), world, now).0;
    if Switch(s, id, version, world, now).1 {
      InstanceFound(Slots(s, id), version);
      if InstanceOf(Slots(s, id), version).None? {
        VersionsAppend(Slots(s, id), Slot(version, world.instance.value));
      }
      assert version in Versions(Slots(loaded, id));
    }
  }

  lemma SwitchKeepsSound(s: State, id: ModelId, version: Version, world: World, now: real)
    requires Sound(s)
    ensures Sound(Switch(s, id, version, world, now).0)
    ensures Switch(s, id, version, world, now).1 ==>
      var s' := Switch(s, id, version, world, now).0; id in s'.active && s'.active[id] == version
  {
    forall other ensures SoundFor(Switch(s, id, version, world, now).0, other) {
      SwitchKeepsSoundFor(s, id, version, world, now, other);
    }
  }

  /** Unloading a loaded version keeps the tables sound exactly when its cleanup hook does not raise. */
  lemma UnloadVersionSoundExactly(s: State, id: ModelId, version: Version, hookRaises: bool)
    requires Sound(s) && id in s.loaded && InstanceOf(s.loaded[id], version).Some?
    ensures Sound(UnloadVersion(s, id, version, hookRaises).0) <==> !hookRaises
  {
    var s' := UnloadVersion(s, id, version, hookRaises).0;
    assert SoundFor(s, id);
    InstanceFound(s.loaded[id], version);
    DropVersionDrops(s.loaded[id], version);
    var rest := DropVersion(s.loaded[id], version);
    assert rest == [] ==> Versions(rest) == {};
    assert rest != [] ==> rest[0] in rest && rest[0].version in Versions(rest);
    if hookRaises {
      assert version in s'.metrics[id] && version !in Versions(s'.loaded[id]);
      assert !SoundFor(s', id);
    } else {
      assert SoundFor(s', id) by {
        assert (Metrics(s, id) - {version}).Keys == Versions(rest);
      }
      forall other ensures SoundFor(s', other) {
        assert SoundFor(s, other);
      }
    }
  }

  /** Unloading a whole model keeps the tables sound exactly when none of its hooks raises. */
  lemma UnloadAllSoundExactly(s: State, id: ModelId, raises: Version -> bool)
    requires Sound(s) && id in s.loaded
    ensures Sound(UnloadAll(s, id, raises).0) <==> forall slot :: slot in s.loaded[id] ==> !raises(slot.version)
  {
    var slots, s' := s.loaded[id], UnloadAll(s, id, raises).0;
    var n := Released(slots, raises);
    assert SoundFor(s, id);
    if n < |slots| {
      var gone := slots[n];
      assert gone in slots && raises(gone.version);
      assert gone.version in Versions(slots) && gone.version in s'.metrics[id];
      assert gone.version !in Versions(slots[n + 1..]) by {
        forall slot | slot in slots[n + 1..] ensures slot.version != gone.version {
          var i :| 0 <= i < |slots[n + 1..]| && slots[n + 1..][i] == slot;
          assert slots[n + 1 + i] == slot;
        }
      }
      assert !SoundFor(s', id);
    } else {
      forall other ensures SoundFor(s', other) {
        assert SoundFor(s, other);
      }
      forall slot | slot in slots ensures !raises(slot.version) {
        var i :| 0 <= i < |slots| && slots[i] == slot;
      }
    }
  }

  // ----- runs -----

  datatype Op =
    | DoLoad(id: ModelId, wanted: Option<Version>, world: World, now: real)
    | DoUnload(id: ModelId, version: Version)
    | DoUnloadAll(id: ModelId)
    | DoSwitch(id: ModelId, version: Version, world: World, now: real)

  /** An operation whose cleanup hooks do not raise. */
  function Apply(s: State, op: Op): State {
    match op
    case DoLoad(id, wanted, world, now) => Load(s, id, wanted, world, now).0
    case DoUnload(id, version) => UnloadVersion(s, id, version, false).0
    case DoUnloadAll(id) => UnloadAll(s, id, _ => false).0
    case DoSwitch(id, version, world, now) => Switch(s, id, version, world, now).0
  }

  function Run(ops: seq<Op>): State {
    if ops == [] then NOTHING else Apply(Run(ops[..|ops| - 1]), ops[|ops| - 1])
  }

  /** In every reachable state the active version is loaded and the three tables agree. */
  lemma {:induction false} RunStaysSound(ops: seq<Op>)
    ensures Sound(Run(ops))
  {
    if ops != [] {
      var s := Run(ops[..|ops| - 1]);
      RunStaysSound(ops[..|ops| - 1]);
      match ops[|ops| - 1] {
        case DoLoad(id, wanted, world, now) => LoadKeepsSound(s, id, wanted, world, now);
        case DoUnload(id, version) =>
          if id in s.loaded && InstanceOf(s.loaded[id], version).Some? {
            UnloadVersionSoundExactly(s, id, version, false);
          }
        case DoUnloadAll(id) =>
          if id in s.loaded {
            UnloadAllSoundExactly(s, id, _ => false);
          }
        case DoSwitch(id, version, world, now) => SwitchKeepsSound(s, id, version, world, now);
      }
    }
  }

  /** When the active version goes, the earliest loaded other version takes over; the last one takes the model along. */
  lemma NextActive(ops: seq<Op>, id: ModelId)
    requires id in Run(ops).active
    ensures var s := Run(ops);
      var s' := UnloadVersion(s, id, s.active[id], false).0;
      var others := DropVersion(Slots(s, id), s.active[id]);
      if others == [] then id !in s'.loaded && id !in s'.active && id !in s'.metrics
      else id in s'.active && s'.active[id] == others[0].version && s'.loaded[id] == others
  {
    var s := Run(ops);
    RunStaysSound(ops);
    assert SoundFor(s, id);
    InstanceFound(s.loaded[id], s.active[id]);
    DropVersionDrops(s.loaded[id], s.active[id]);
    var others := DropVersion(Slots(s, id), s.active[id]);
    assert others == [] ==> Versions(others) == {};
    assert others != [] ==> others[0].version in Versions(others);
    assert (Metrics(s, id) - {s.active[id]}).Keys == Versions(others);
  }

  // ----- loads that fail -----

  /**
   A load that fails leaves the tables as they were if and only if the version does not resolve, is
   already loaded, or does not come up; one that comes up and fails validation stays.
   */
  lemma FailedLoadLeavesTablesExactly(s: State, id: ModelId, version: Option<Version>, world: World, now: real)
    requires Load(s, id, version, world, now).1.LoadError?
    ensures Load(s, id, version, world, now).0 == s <==>
      || Resolve(world, version).None?
      || InstanceOf(Slots(s, id), Resolve(world, version).value).Some?
      || world.instance.None?
  {
    var s' := Load(s, id, version, world, now).0;
    if Resolve(world, version).Some? && InstanceOf(Slots(s, id), Resolve(world, version).value).None?
        && world.instance.Some? {
      assert |Slots(s', id)| == |Slots(s, id)| + 1;
    }
  }

  /** The load that shows it: the caller is told of an error, and the invalid model is loaded and active. */
  lemma InvalidModelStays(id: ModelId, version: Version, instance: nat, now: real)
    ensures var world := World(true, Some(version), true, Some(instance), false);
      var (s, result) := Load(NOTHING, id, None, world, now);
      && result == LoadError && s.active == map[id := version] && s.loaded == map[id := [Slot(version, instance)]]
      && GetActive(s, id, world, now).1 == Active(instance, Some(version))
  {
    var world := World(true, Some(version), true, Some(instance), false);
    var slots := [Slot(version, instance)];
    assert Slots(NOTHING, id) == [] && [] + slots == slots;
    assert InstanceOf([], version) == None && InstanceOf(slots, version) == Some(instance);
    assert Load(NOTHING, id, None, world, now).0 == Store(NOTHING, id, version, instance, now);
  }
}
