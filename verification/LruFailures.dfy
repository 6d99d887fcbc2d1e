/**
 What a request to the bounded model table costs when the model does not get loaded: the copy of
 another version that it dropped, and the models evicted to make room for it, do not come back.
 */
module LruFailures {
  import opened Basics
  import opened LruLoader

  function Least(a: nat, b: nat): nat {
    if a <= b then a else b
  }

  lemma EvictedCounts(before: Cache, ids: seq<ModelId>, count: nat)
    requires before.Valid() && ByTime(ids, before.accessed) && |ids| == |before.loaded|
    ensures var after := before.UnloadFirst(ids, Least(count, |ids|));
      && after.Valid() && after.loaded.Keys <= before.loaded.Keys
      && |after.loaded| == |before.loaded| - Least(count, |before.loaded|)
  {
    UnloadCounts(before, ids, Least(count, |ids|));
  }

  lemma AsManyIds(before: Cache, ids: seq<ModelId>)
    requires before.Valid() && ByTime(ids, before.accessed)
    ensures |ids| == |before.loaded|
  {
    DistinctCount(ids, before.loaded.Keys);
  }

  /** Making room takes exactly as many models as were asked for, as far as there are any. */
  lemma EvictionCounts(before: Cache, after: Cache, count: nat)
    requires before.Valid() && EvictsOldest(before, after, count)
    ensures after.Valid() && after.loaded.Keys <= before.loaded.Keys
    ensures |after.loaded| == |before.loaded| - Least(count, |before.loaded|)
    ensures |before.loaded| == 0 ==> after == before
  {
    var ids :| ByTime(ids, before.accessed) &&
        after == before.UnloadFirst(ids, if count <= |ids| then count else |ids|);
    AsManyIds(before, ids);
    EvictedCounts(before, ids, count);
  }

  /** How many models a load takes out of a table of `n` before it looks at the file system. */
  function Sacrificed(cap: int, roomy: bool, n: nat): nat {
    var bounded := if n >= cap then Least(1, n) else 0;
    bounded + if roomy then 0 else Least(2, n - bounded)
  }

  lemma RoomCounts(cap: int, before: Cache, after: Cache)
    requires before.Valid() && MakesRoom(cap, before, after)
    ensures after.Valid() && after.loaded.Keys <= before.loaded.Keys
    ensures |after.loaded| == |before.loaded| - (if |before.loaded| >= cap then Least(1, |before.loaded|) else 0)
    ensures |before.loaded| == 0 || |before.loaded| < cap ==> after == before
  {
    if |before.loaded| >= cap {
      EvictionCounts(before, after, 1);
    }
  }

  lemma StagesCount(cap: int, roomy: bool, before: Cache, bounded: Cache, after: Cache)
    requires before.Valid() && MakesRoom(cap, before, bounded)
    requires if roomy then after == bounded else EvictsOldest(bounded, after, 2)
    ensures after.Valid() && after.loaded.Keys <= before.loaded.Keys
    ensures |after.loaded| == |before.loaded| - Sacrificed(cap, roomy, |before.loaded|)
    ensures |before.loaded| == 0 || (|before.loaded| < cap && roomy) ==> after == before
  {
    RoomCounts(cap, before, bounded);
    if !roomy {
      EvictionCounts(bounded, after, 2);
    }
  }

  lemma PreparingCounts(cap: int, roomy: bool, before: Cache, after: Cache)
    requires before.Valid() && Prepares(cap, roomy, before, after)
    ensures after.Valid() && after.loaded.Keys <= before.loaded.Keys
    ensures |after.loaded| == |before.loaded| - Sacrificed(cap, roomy, |before.loaded|)
    ensures |before.loaded| == 0 || (|before.loaded| < cap && roomy) ==> after == before
  {
    var bounded :| MakesRoom(cap, before, bounded)
        && if roomy then after == bounded else EvictsOldest(bounded, after, 2);
    StagesCount(cap, roomy, before, bounded, after);
  }

  /** The request names a version other than the loaded one. */
  predicate Displaces(cache: Cache, id: ModelId, version: Option<Version>) {
    id in cache.loaded && version.Some? && version.value != cache.loaded[id]
  }

  /** The request gets as far as making room. */
  predicate Resolves(catalogs: map<ModelId, Catalog>, id: ModelId, version: Option<Version>) {
    id in catalogs && Resolve(catalogs[id], version).Some?
  }

  /** A failed load loses exactly this many models: a displaced copy, and those that made room for nothing. */
  lemma FailedLoadLoses(cap: int, catalogs: map<ModelId, Catalog>, before: Cache, id: ModelId, version: Option<Version>,
                        now: real, around: Surroundings, result: Result, after: Cache)
    requires before.Valid() && Serves(cap, catalogs, before, id, version, now, around, result, after) && !result.Loaded?
    ensures after.loaded.Keys <= before.loaded.Keys
    ensures var dropped := if Displaces(before, id, version) then 1 else 0;
      var evicted :=
        if Resolves(catalogs, id, version) then Sacrificed(cap, around.roomy, |before.loaded| - dropped) else 0;
      |after.loaded| == |before.loaded| - dropped - evicted
  {
    var kept := Relinquish(before, id, version);
    if Displaces(before, id, version) {
      UnloadOne(before, id);
    }
    if Resolves(catalogs, id, version) {
      assert Prepares(cap, around.roomy, kept, after);
      PreparingCounts(cap, around.roomy, kept, after);
    }
  }

  /**
   A load that fails leaves the table as it was if and only if no other version of the model was loaded
   and, where the version resolved, the table was empty or had room both by number and by memory.
   */
  lemma FailedLoadLeavesTableExactly(cap: int, catalogs: map<ModelId, Catalog>, before: Cache, id: ModelId,
                                     version: Option<Version>, now: real, around: Surroundings, result: Result,
                                     after: Cache)
    requires before.Valid() && Serves(cap, catalogs, before, id, version, now, around, result, after) && !result.Loaded?
    ensures after == before <==>
      && !Displaces(before, id, version)
      && (Resolves(catalogs, id, version) ==> |before.loaded| == 0 || (|before.loaded| < cap && around.roomy))
  {
    FailedLoadLoses(cap, catalogs, before, id, version, now, around, result, after);
    if !Displaces(before, id, version) && Resolves(catalogs, id, version) {
      var room :| Prepares(cap, around.roomy, before, room) && after == room;
      PreparingCounts(cap, around.roomy, before, room);
    }
  }

  /**
   The run that shows it: from the empty table a model is loaded in its active version, and an upgrade
   whose artifact is missing then takes the working version along.
   */
  lemma FailedUpgradeDropsCopy(id: ModelId, current: Version, next: Version, loaded: real, now: real)
    requires current != next
    ensures var catalogs := map[id := Catalog(current, [current, next])];
      var working := Cache(map[id := current], map[id := loaded]);
      && Serves(10, catalogs, Cache(map[], map[]), id, None, loaded, Surroundings(true, true, true),
          Loaded(current), working)
      && Serves(10, catalogs, working, id, Some(next), now, Surroundings(true, true, false), LoadFailed,
          Cache(map[], map[]))
  {
    var nothing := Cache(map[], map[]);
    assert Relinquish(Cache(map[id := current], map[id := loaded]), id, Some(next)) == nothing;
    assert next in [current, next] by {
      assert [current, next][1] == next;
    }
    assert MakesRoom(10, nothing, nothing) && Prepares(10, true, nothing, nothing);
    assert nothing.Store(id, current, loaded) == Cache(map[id := current], map[id := loaded]);
  }

  // ----- how a load ends -----

  /** The model is loaded in a version that will do. */
  predicate Cached(cache: Cache, id: ModelId, version: Option<Version>) {
    id in cache.loaded && (version.None? || version.value == cache.loaded[id])
  }

  /** The catalog names this version: the one asked for if it is available, or the active one. */
  predicate Offered(catalogs: map<ModelId, Catalog>, id: ModelId, version: Option<Version>, v: Version) {
    && id in catalogs
    && if version.Some? then version.value == v && v in catalogs[id].available else v == catalogs[id].active
  }

  /**
   A load succeeds exactly from the table, or when the catalog names a version, memory is short at neither
   or only at the first reading, and the artifact is there. It then answers with the version the table or
   the catalog names, which the table has from then on, last asked for now.
   */
  lemma LoadSucceedsExactly(cap: int, catalogs: map<ModelId, Catalog>, before: Cache, id: ModelId,
                            version: Option<Version>, now: real, around: Surroundings, result: Result, after: Cache)
    requires before.Valid() && Serves(cap, catalogs, before, id, version, now, around, result, after)
    ensures result.Loaded? <==>
      || Cached(before, id, version)
      || ((exists v :: Offered(catalogs, id, version, v)) && (around.roomy || around.roomyAfterCleanup)
          && around.pathExists)
    ensures result.Loaded? ==>
      && (if Cached(before, id, version) then result.version == before.loaded[id]
          else Offered(catalogs, id, version, result.version))
      && id in after.loaded && after.loaded[id] == result.version && id in after.accessed && after.accessed[id] == now
  {
    if !Cached(before, id, version) && id in catalogs {
      var offered := if version.Some? then version.value else catalogs[id].active;
      assert Resolve(catalogs[id], version).Some? <==> Offered(catalogs, id, version, offered);
      assert forall v :: Offered(catalogs, id, version, v) ==> v == offered;
    }
  }

  /** What a load that fails is told: no model, no such version, no memory, or no artifact, in that order. */
  lemma RefusalTells(cap: int, catalogs: map<ModelId, Catalog>, before: Cache, id: ModelId, version: Option<Version>,
                     now: real, around: Surroundings, result: Result, after: Cache)
    requires before.Valid() && Serves(cap, catalogs, before, id, version, now, around, result, after)
    requires !Cached(before, id, version)
    ensures result == ModelNotFound <==> id !in catalogs
    ensures result == VersionNotFound <==>
      id in catalogs && version.Some? && version.value !in catalogs[id].available
    ensures result == MemoryExhausted <==>
      (exists v :: Offered(catalogs, id, version, v)) && !around.roomy && !around.roomyAfterCleanup
    ensures result == LoadFailed <==>
      && (exists v :: Offered(catalogs, id, version, v)) && (around.roomy || around.roomyAfterCleanup)
      && !around.pathExists
  {
    if id in catalogs {
      var offered := if version.Some? then version.value else catalogs[id].active;
      assert Resolve(catalogs[id], version).Some? <==> Offered(catalogs, id, version, offered);
      assert forall v :: Offered(catalogs, id, version, v) ==> v == offered;
    }
  }
}
