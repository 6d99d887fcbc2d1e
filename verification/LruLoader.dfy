/**
 The first model loader: a bounded table of loaded models that makes room by unloading the least
 recently used. Model objects, metrics and health records are not part of this model; memory
 readings and the file system are inputs. Each public operation is one atomic step: taken literally,
 loading waits for the lock it already holds whenever it has to unload.
 */
module LruLoader {
  import opened Basics

  datatype ModelId = ModelId(text: string)

  datatype Version = Version(text: string)

  datatype Catalog = Catalog(active: Version, available: seq<Version>)

  datatype Result =
    | Loaded(version: Version)
    | ModelNotFound
    | VersionNotFound
    | MemoryExhausted
    | LoadFailed

  /** What is loaded, in which version, and when each was last asked for. */
  datatype Cache = Cache(loaded: map<ModelId, Version>, accessed: map<ModelId, real>) {

    ghost predicate Valid() {
      loaded.Keys == accessed.Keys
    }

    function Unload(id: ModelId): Cache {
      Cache(loaded - {id}, accessed - {id})
    }

    /** Unload the first `count` of the ids. */
    function UnloadFirst(ids: seq<ModelId>, count: nat): Cache
      requires count <= |ids|
    {
      if count == 0 then this else UnloadFirst(ids, count - 1).Unload(ids[count - 1])
    }

    function Store(id: ModelId, version: Version, now: real): Cache {
      Cache(loaded[id := version], accessed[id := now])
    }
  }

  ghost predicate Distinct(ids: seq<ModelId>) {
    forall i, j :: 0 <= i < j < |ids| ==> ids[i] != ids[j]
  }

  /** Distinct ids, exactly those of the table, longest unused first. */
  ghost predicate ByTime(ids: seq<ModelId>, times: map<ModelId, real>) {
    && (forall id :: id in times <==> id in ids)
    && (forall i, j :: 0 <= i < j < |ids| ==> ids[i] != ids[j])
    && (forall i, j :: 0 <= i < j < |ids| ==> ids[i] in times && ids[j] in times && times[ids[i]] <= times[ids[j]])
  }

  /** `after` is `before` without its `count` longest unused models. */
  ghost predicate EvictsOldest(before: Cache, after: Cache, count: nat) {
    exists ids :: ByTime(ids, before.accessed)
        && after == before.UnloadFirst(ids, if count <= |ids| then count else |ids|)
  }

  /** Which version a request for a known model resolves to. */
  function Resolve(catalog: Catalog, version: Option<Version>): Option<Version> {
    match version
    case None => Some(catalog.active)
    case Some(v) => if v in catalog.available then Some(v) else None
  }

  /** What is left once a request has dropped the copy whose version it does not want. */
  function Relinquish(cache: Cache, id: ModelId, version: Option<Version>): Cache {
    if id in cache.loaded && version.Some? && version.value != cache.loaded[id] then cache.Unload(id) else cache
  }

  /** Room is made for one more model when the table is at its bound. */
  ghost predicate MakesRoom(cap: int, before: Cache, after: Cache) {
    if |before.loaded| >= cap then EvictsOldest(before, after, 1) else after == before
  }

  /** What the table looks like once room has been made and, when memory is short, two more have gone. */
  ghost predicate Prepares(cap: int, roomy: bool, before: Cache, after: Cache) {
    exists bounded :: MakesRoom(cap, before, bounded)
        && if roomy then after == bounded else EvictsOldest(bounded, after, 2)
  }

  /** How a load that is not answered from the table ends. */
  function Ending(version: Version, roomy: bool, roomyAfterCleanup: bool, pathExists: bool): Result {
    if !roomy && !roomyAfterCleanup then MemoryExhausted else if pathExists then Loaded(version) else LoadFailed
  }

  /** What has gone stays gone even when the load fails afterwards. */
  ghost predicate Ends(cap: int, roomy: bool, before: Cache, result: Result, id: ModelId, now: real, after: Cache) {
    exists room :: Prepares(cap, roomy, before, room)
        && after == if result.Loaded? then room.Store(id, result.version, now) else room
  }

  /** The two memory readings, and whether the artifact is there. */
  datatype Surroundings = Surroundings(roomy: bool, roomyAfterCleanup: bool, pathExists: bool)

  /** What a request may answer, and the table it may leave. */
  ghost predicate Serves(cap: int, catalogs: map<ModelId, Catalog>, before: Cache, id: ModelId,
                         version: Option<Version>,
                         now: real, around: Surroundings, result: Result, after: Cache) {
    var kept := Relinquish(before, id, version);
    if id in kept.loaded then result == Loaded(kept.loaded[id]) && after == kept.(accessed := kept.accessed[id := now])
    else if id !in catalogs then result == ModelNotFound && after == kept
    else
      match Resolve(catalogs[id], version)
      case None => result == VersionNotFound && after == kept
      case Some(v) =>
        && result == Ending(v, around.roomy, around.roomyAfterCleanup, around.pathExists)
        && Ends(cap, around.roomy, kept, result, id, now, after)
  }

  /** A load that memory and the file system do not get in the way of. */
  ghost predicate LoadStep(cap: int, before: Cache, id: ModelId, version: Option<Version>, resolved: Version,
                           now: real, after: Cache) {
    var kept := Relinquish(before, id, version);
    if id in kept.loaded then after == kept.(accessed := kept.accessed[id := now])
    else exists room: Cache :: MakesRoom(cap, kept, room) && after == room.Store(id, resolved, now)
  }

  class ModelLoader {
    const maxModelsLoaded: int
    var loadedModels: map<ModelId, Version>
    var lastAccessed: map<ModelId, real>
    var modelVersions: map<ModelId, Catalog>

    constructor (maxModelsLoaded: int, modelVersions: map<ModelId, Catalog>)
      ensures this.maxModelsLoaded == maxModelsLoaded && this.modelVersions == modelVersions
      ensures Contents() == Cache(map[], map[])
    {
      this.maxModelsLoaded, this.modelVersions := maxModelsLoaded, modelVersions;
      loadedModels, lastAccessed := map[], map[];
    }

    function Contents(): Cache
      reads `loadedModels, `lastAccessed
    {
      Cache(loadedModels, lastAccessed)
    }

    /**
     `roomy` and `roomyAfterCleanup` are the two memory readings, `pathExists` whether the artifact is
     there.
     */
    method LoadModel(id: ModelId, version: Option<Version>, now: real,
                     roomy: bool, roomyAfterCleanup: bool, pathExists: bool) returns (result: Result)
      requires Contents().Valid()
      modifies `loadedModels, `lastAccessed
      ensures Contents().Valid()
      ensures Serves(maxModelsLoaded, modelVersions, old(Contents()), id, version, now,
                     Surroundings(roomy, roomyAfterCleanup, pathExists), result, Contents())
      ensures result.Loaded? && roomy ==>
        LoadStep(maxModelsLoaded, old(Contents()), id, version, result.version, now, Contents())
    {
      if id in loadedModels {
        var loadedVersion := loadedModels[id];
        if version == None || version.value == loadedVersion {
          lastAccessed := lastAccessed[id := now];
          return Loaded(loadedModels[id]);
        }
        var _ := UnloadModel(id);
      }
      if id !in modelVersions {
        return ModelNotFound;
      }
      var wanted := Resolve(modelVersions[id], version);
      if wanted == None {
        return VersionNotFound;
      }
      result := LoadInto(id, wanted.value, now, roomy, roomyAfterCleanup, pathExists);
    }

    /** Make room, look at memory, and load. */
    method LoadInto(id: ModelId, version: Version, now: real, roomy: bool, roomyAfterCleanup: bool, pathExists: bool)
      returns (result: Result)
      requires Contents().Valid()
      modifies `loadedModels, `lastAccessed
      ensures Contents().Valid() && result == Ending(version, roomy, roomyAfterCleanup, pathExists)
      ensures Ends(maxModelsLoaded, roomy, old(Contents()), result, id, now, Contents())
    {
      var ok := MakeRoom(roomy, roomyAfterCleanup);
      ghost var room := Contents();
      if !ok {
        return MemoryExhausted;
      }
      if !pathExists {
        return LoadFailed;
      }
      loadedModels := loadedModels[id := version];
      lastAccessed := lastAccessed[id := now];
      assert Contents() == room.Store(id, version, now);
      return Loaded(version);
    }

    method MakeRoom(roomy: bool, roomyAfterCleanup: bool) returns (ok: bool)
      requires Contents().Valid()
      modifies `loadedModels, `lastAccessed
      ensures Contents().Valid() && ok == (roomy || roomyAfterCleanup)
      ensures Prepares(maxModelsLoaded, roomy, old(Contents()), Contents())
    {
      if |loadedModels| >= maxModelsLoaded {
        var _ := CleanupLeastUsedModels(1);
      }
      ghost var bounded := Contents();
      assert MakesRoom(maxModelsLoaded, old(Contents()), bounded);
      if !roomy {
        var _ := CleanupLeastUsedModels(2);
        return roomyAfterCleanup;
      }
      return true;
    }

    method UnloadModel(id: ModelId) returns (unloaded: bool)
      requires Contents().Valid()
      modifies `loadedModels, `lastAccessed
      ensures unloaded == (id in old(loadedModels))
      ensures Contents() == old(Contents()).Unload(id)
    {
      if id !in loadedModels {
        return false;
      }
      loadedModels := loadedModels - {id};
      if id in lastAccessed {
        lastAccessed := lastAccessed - {id};
      }
      return true;
    }

    method CleanupLeastUsedModels(count: nat) returns (unloadedCount: nat)
      requires Contents().Valid()
      modifies `loadedModels, `lastAccessed
      ensures Contents().Valid() && EvictsOldest(old(Contents()), Contents(), count)
      ensures unloadedCount == if count <= |old(loadedModels)| then count else |old(loadedModels)|
    {
      ghost var before := Contents();
      var modelsByTime := SortedByTime(lastAccessed);
      DistinctCount(modelsByTime, loadedModels.Keys);
      var take := if count <= |modelsByTime| then count else |modelsByTime|;
      unloadedCount := 0;
      for i := 0 to take
        invariant Contents().Valid() && Contents() == before.UnloadFirst(modelsByTime, i)
        invariant unloadedCount == i
      {
        UnloadCounts(before, modelsByTime, i);
        var unloaded := UnloadModel(modelsByTime[i]);
        if unloaded {
          unloadedCount := unloadedCount + 1;
        }
      }
    }
  }

  lemma UnloadOne(cache: Cache, id: ModelId)
    requires cache.Valid() && id in cache.loaded
    ensures cache.Unload(id).Valid() && |cache.Unload(id).loaded| == |cache.loaded| - 1
  {
    assert cache.loaded.Keys == cache.Unload(id).loaded.Keys + {id};
  }

  /** Unloading the first `count` of the ids takes exactly that many, and none of the others. */
  lemma {:induction false} UnloadCounts(cache: Cache, ids: seq<ModelId>, count: nat)
    requires cache.Valid() && Distinct(ids) && count <= |ids|
    requires forall k :: 0 <= k < |ids| ==> ids[k] in cache.loaded
    ensures var left := cache.UnloadFirst(ids, count);
      && left.Valid() && |left.loaded| == |cache.loaded| - count && left.loaded.Keys <= cache.loaded.Keys
      && forall k :: count <= k < |ids| ==> ids[k] in left.loaded
  {
    if count > 0 {
      UnloadCounts(cache, ids, count - 1);
      UnloadOne(cache.UnloadFirst(ids, count - 1), ids[count - 1]);
    }
  }

  /** `sorted(items, key=time)`: the ids in order of time. */
  method SortedByTime(times: map<ModelId, real>) returns (ids: seq<ModelId>)
    ensures ByTime(ids, times)
  {
    ids := [];
    var rest := times.Keys;
    while rest != {}
      invariant rest <= times.Keys
      invariant forall id :: id in ids <==> id in times && id !in rest
      invariant forall i, j :: 0 <= i < j < |ids| ==> ids[i] != ids[j] && times[ids[i]] <= times[ids[j]]
      invariant forall i, id :: 0 <= i < |ids| && id in rest ==> times[ids[i]] <= times[id]
      decreases rest
    {
      OldestExists(rest, times);
      var id :| id in rest && forall other :: other in rest ==> times[id] <= times[other];
      ids := ids + [id];
      rest := rest - {id};
    }
  }

  lemma {:induction false} DistinctCount(ids: seq<ModelId>, s: set<ModelId>)
    requires Distinct(ids) && forall id :: id in s <==> id in ids
    ensures |s| == |ids|
  {
    if ids == [] {
      assert s == {};
    } else {
      var front, last := ids[..|ids| - 1], ids[|ids| - 1];
      assert ids == front + [last];
      DistinctCount(front, s - {last});
    }
  }

  lemma {:induction false} OldestExists(rest: set<ModelId>, times: map<ModelId, real>)
    requires rest != {} && rest <= times.Keys
    ensures exists id :: id in rest && forall other :: other in rest ==> times[id] <= times[other]
    decreases rest
  {
    var id :| id in rest;
    if rest == {id} {
    } else {
      OldestExists(rest - {id}, times);
      var oldest :| oldest in rest - {id} && forall other :: other in rest - {id} ==> times[oldest] <= times[other];
      var least := if times[id] <= times[oldest] then id else oldest;
      forall other | other in rest ensures times[least] <= times[other] {
        assert other == id || other in rest - {id};
      }
    }
  }
}
