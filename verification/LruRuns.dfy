/**
 Runs of the bounded model table: after any sequence of loads of available models, with memory to
 spare and distinct access times, it holds exactly the most recently requested distinct models.
 */
module LruRuns {
  import opened Basics
  import opened LruLoader

  datatype Request = Request(id: ModelId, version: Option<Version>, resolved: Version, now: real)

  /** The distinct ids requested, latest first. */
  function Recent(ids: seq<ModelId>): (recent: seq<ModelId>) {
    if ids == [] then []
    else
      var last := ids[|ids| - 1];
      [last] + Without(Recent(ids[..|ids| - 1]), last)
  }

  function Without(ids: seq<ModelId>, id: ModelId): seq<ModelId> {
    if ids == [] then []
    else
      var rest := Without(ids[1..], id);
      if ids[0] == id then rest else [ids[0]] + rest
  }

  lemma {:induction false} WithoutDistinct(ids: seq<ModelId>, id: ModelId)
    requires Distinct(ids)
    ensures Distinct(Without(ids, id))
    ensures forall other :: other in Without(ids, id) <==> other in ids && other != id
    ensures id !in ids ==> Without(ids, id) == ids
  {
    if ids != [] {
      var rest := ids[1..];
      assert ids == [ids[0]] + rest;
      WithoutDistinct(rest, id);
      assert ids[0] !in Without(rest, id);
    }
  }

  lemma GapInTail(ids: seq<ModelId>, p: nat)
    requires 0 < p < |ids|
    ensures ids[..p] + ids[p + 1..] == [ids[0]] + (ids[1..][..p - 1] + ids[1..][p..])
  {
    assert ids[..p] == [ids[0]] + ids[1..][..p - 1] && ids[p + 1..] == ids[1..][p..];
  }

  /** Removing the element at `p` closes the gap and keeps the order. */
  lemma {:induction false} WithoutAt(ids: seq<ModelId>, p: nat)
    requires Distinct(ids) && p < |ids|
    ensures Without(ids, ids[p]) == ids[..p] + ids[p + 1..]
  {
    var rest := ids[1..];
    assert ids == [ids[0]] + rest;
    if p == 0 {
      WithoutDistinct(rest, ids[0]);
    } else {
      assert rest[p - 1] == ids[p];
      WithoutAt(rest, p - 1);
      GapInTail(ids, p);
    }
  }

  lemma {:induction false} RecentDistinct(ids: seq<ModelId>)
    ensures Distinct(Recent(ids))
    ensures forall id :: id in Recent(ids) <==> id in ids
  {
    if ids != [] {
      var front, last := ids[..|ids| - 1], ids[|ids| - 1];
      RecentDistinct(front);
      WithoutDistinct(Recent(front), last);
      assert ids == front + [last];
    }
  }

  /** A bound below one still lets a single model in. */
  function Capacity(cap: int): nat {
    if cap < 1 then 1 else cap
  }

  function Top(ids: seq<ModelId>, k: nat): seq<ModelId> {
    if k <= |ids| then ids[..k] else ids
  }

  /** Distinct ids, exactly those with an access time, latest first. */
  ghost predicate LatestFirst(held: seq<ModelId>, times: map<ModelId, real>) {
    && Distinct(held)
    && (forall id :: id in times <==> id in held)
    && (forall i, j :: 0 <= i < j < |held| ==> held[i] in times && held[j] in times && times[held[i]] > times[held[j]])
  }

  /** The table holds exactly `held`, which is in order of access, latest first. */
  ghost predicate Holds(cache: Cache, held: seq<ModelId>, now: real) {
    && cache.Valid() && LatestFirst(held, cache.accessed)
    && (forall id :: id in cache.accessed ==> cache.accessed[id] < now)
  }

  lemma FirstByTime(ids: seq<ModelId>, times: map<ModelId, real>)
    requires ByTime(ids, times)
    ensures ids != [] ==> ids[0] in times && forall id :: id in times ==> times[ids[0]] <= times[id]
    ensures ids == [] ==> times.Keys == {}
  {
    if ids != [] {
      assert ids[0] in ids;
      forall id | id in times ensures times[ids[0]] <= times[id] {
        var i :| 0 <= i < |ids| && ids[i] == id;
      }
    }
  }

  lemma LastIsOldest(held: seq<ModelId>, times: map<ModelId, real>)
    requires LatestFirst(held, times)
    ensures held == [] ==> times.Keys == {}
    ensures held != [] ==>
      var last := held[|held| - 1];
      last in times && forall id :: id in times && id != last ==> times[last] < times[id]
  {
    if held != [] {
      assert held[|held| - 1] in held;
      forall id | id in times && id != held[|held| - 1] ensures times[held[|held| - 1]] < times[id] {
        var j :| 0 <= j < |held| && held[j] == id;
      }
    }
  }

  /** With distinct times the longest unused model is the last of the order. */
  lemma OldestIsLast(before: Cache, after: Cache, held: seq<ModelId>, now: real)
    requires Holds(before, held, now) && EvictsOldest(before, after, 1)
    ensures held == [] ==> after == before
    ensures held != [] ==> after == before.Unload(held[|held| - 1])
  {
    var ids :| ByTime(ids, before.accessed) && after == before.UnloadFirst(ids, if 1 <= |ids| then 1 else |ids|);
    FirstByTime(ids, before.accessed);
    LastIsOldest(held, before.accessed);
    if ids != [] {
      assert before.UnloadFirst(ids, 1) == before.UnloadFirst(ids, 0).Unload(ids[0]);
    }
  }

  /** Storing the requested model in front of what remains. */
  lemma StoreInFront(cache: Cache, held: seq<ModelId>, id: ModelId, version: Version, now: real, later: real)
    requires Holds(cache, held, now) && id !in held && now < later
    ensures Holds(cache.Store(id, version, now), [id] + held, later)
  {
    LatestInFront(held, cache.accessed, id, now);
  }

  lemma LatestInFront(held: seq<ModelId>, times: map<ModelId, real>, id: ModelId, now: real)
    requires LatestFirst(held, times) && id !in held && forall other :: other in times ==> times[other] < now
    ensures LatestFirst([id] + held, times[id := now])
  {
    var all, times' := [id] + held, times[id := now];
    assert forall other :: other in all <==> other == id || other in held;
    forall i, j | 0 <= i < j < |all|
      ensures all[i] != all[j] && all[i] in times' && all[j] in times' && times'[all[i]] > times'[all[j]]
    {
      assert all[j] == held[j - 1] && all[j] in held;
      assert i > 0 ==> all[i] == held[i - 1] && all[i] in held;
    }
  }

  lemma DescendingWithout(held: seq<ModelId>, times: map<ModelId, real>, p: nat, i: nat, j: nat)
    requires LatestFirst(held, times) && p < |held| && i < j < |held| - 1
    ensures var rest := held[..p] + held[p + 1..];
      && rest[i] in times && rest[i] != held[p] && rest[j] in times && rest[j] != held[p]
      && times[rest[i]] > times[rest[j]]
  {
    var i', j' := if i < p then i else i + 1, if j < p then j else j + 1;
    var rest := held[..p] + held[p + 1..];
    assert rest[i] == held[i'] && rest[j] == held[j'];
  }

  lemma OrderWithout(held: seq<ModelId>, times: map<ModelId, real>, p: nat)
    requires LatestFirst(held, times) && p < |held|
    ensures LatestFirst(held[..p] + held[p + 1..], times - {held[p]})
  {
    var rest, fewer := held[..p] + held[p + 1..], times - {held[p]};
    WithoutAt(held, p);
    WithoutDistinct(held, held[p]);
    forall i, j | 0 <= i < j < |rest|
      ensures rest[i] in fewer && rest[j] in fewer && fewer[rest[i]] > fewer[rest[j]]
    {
      DescendingWithout(held, times, p, i, j);
    }
  }

  lemma DropFromHeld(cache: Cache, held: seq<ModelId>, p: nat, now: real)
    requires Holds(cache, held, now) && p < |held|
    ensures Holds(cache.Unload(held[p]), held[..p] + held[p + 1..], now)
    ensures held[p] in cache.loaded && held[p] !in held[..p] + held[p + 1..]
  {
    assert held[p] in held;
    OrderWithout(held, cache.accessed, p);
    assert held[p] !in cache.Unload(held[p]).accessed;
  }

  /** A request for a held model moves it to the front and evicts nothing. */
  lemma HitStep(cap: int, before: Cache, held: seq<ModelId>, r: Request, after: Cache, p: nat, later: real)
    requires LoadStep(cap, before, r.id, r.version, r.resolved, r.now, after)
    requires Holds(before, held, r.now) && p < |held| && held[p] == r.id && r.now < later
    requires |held| <= Capacity(cap)
    ensures Holds(after, [r.id] + (held[..p] + held[p + 1..]), later)
  {
    var rest, without := held[..p] + held[p + 1..], before.Unload(r.id);
    DropFromHeld(before, held, p, r.now);
    var version := if r.id in Relinquish(before, r.id, r.version).loaded then before.loaded[r.id] else r.resolved;
    assert after == without.Store(r.id, version, r.now) by { HitStores(cap, before, r, after, rest); }
    StoreInFront(without, rest, r.id, version, r.now, later);
  }

  /** Either way the requested model is stored again, and nothing else changes. */
  lemma HitStores(cap: int, before: Cache, r: Request, after: Cache, rest: seq<ModelId>)
    requires LoadStep(cap, before, r.id, r.version, r.resolved, r.now, after)
    requires r.id in before.loaded && before.Valid() && Holds(before.Unload(r.id), rest, r.now)
        && |rest| < Capacity(cap)
    ensures after == before.Unload(r.id).Store(r.id,
      if r.id in Relinquish(before, r.id, r.version).loaded then before.loaded[r.id] else r.resolved, r.now)
  {
    var without := before.Unload(r.id);
    if r.id !in Relinquish(before, r.id, r.version).loaded {
      var room :| MakesRoom(cap, without, room) && after == room.Store(r.id, r.resolved, r.now);
      NothingToEvict(cap, without, room, rest, r.now);
    }
  }

  /** Having just dropped the copy it does not want, the table has room again. */
  lemma NothingToEvict(cap: int, before: Cache, room: Cache, held: seq<ModelId>, now: real)
    requires Holds(before, held, now) && |held| < Capacity(cap) && MakesRoom(cap, before, room)
    ensures room == before
  {
    DistinctCount(held, before.loaded.Keys);
    if |before.loaded| >= cap {
      OldestIsLast(before, room, held, now);
    }
  }

  lemma TopIsHeld(held: seq<ModelId>, k: nat)
    ensures forall id :: id in Top(held, k) ==> id in held
  {
    assert forall i :: 0 <= i < |Top(held, k)| ==> Top(held, k)[i] == held[i];
  }

  /** A request for a model that is not held puts it in front, and drops the last if the table is full. */
  lemma MissStep(cap: int, before: Cache, held: seq<ModelId>, r: Request, after: Cache, later: real)
    requires LoadStep(cap, before, r.id, r.version, r.resolved, r.now, after)
    requires Holds(before, held, r.now) && r.id !in held && r.now < later
    requires |held| <= Capacity(cap)
    ensures Holds(after, [r.id] + Top(held, Capacity(cap) - 1), later)
  {
    assert r.id !in before.accessed && Relinquish(before, r.id, r.version) == before;
    var room :| MakesRoom(cap, before, room) && after == room.Store(r.id, r.resolved, r.now);
    var top := Top(held, Capacity(cap) - 1);
    assert Holds(room, top, r.now) by { RoomAfterEviction(cap, before, room, held, r.now); }
    assert r.id !in top by { TopIsHeld(held, Capacity(cap) - 1); }
    StoreInFront(room, top, r.id, r.resolved, r.now, later);
  }

  lemma RoomAfterEviction(cap: int, before: Cache, room: Cache, held: seq<ModelId>, now: real)
    requires Holds(before, held, now) && |held| <= Capacity(cap) && MakesRoom(cap, before, room)
    ensures Holds(room, Top(held, Capacity(cap) - 1), now)
  {
    DistinctCount(held, before.loaded.Keys);
    if |held| < Capacity(cap) {
      NothingToEvict(cap, before, room, held, now);
      assert Top(held, Capacity(cap) - 1) == held;
    } else {
      var n := |held| - 1;
      OldestIsLast(before, room, held, now);
      DropFromHeld(before, held, n, now);
      assert held[..n] + held[n + 1..] == held[..n] == Top(held, Capacity(cap) - 1);
    }
  }

  /** The states a run of loads goes through, with the clock strictly advancing. */
  ghost predicate IsRun(cap: int, states: seq<Cache>, requests: seq<Request>) {
    && |states| == |requests| + 1 && states[0] == Cache(map[], map[])
    && (forall i :: 0 <= i < |requests| ==>
          LoadStep(cap, states[i], requests[i].id, requests[i].version, requests[i].resolved, requests[i].now,
                   states[i + 1]))
    && (forall i, j :: 0 <= i < j < |requests| ==> requests[i].now < requests[j].now)
  }

  function Ids(requests: seq<Request>): (ids: seq<ModelId>)
    ensures |ids| == |requests|
    ensures forall i :: 0 <= i < |ids| ==> ids[i] == requests[i].id
  {
    seq(|requests|, i requires 0 <= i < |requests| => requests[i].id)
  }

  /** The top of the recency order moves exactly as the table does: on a hit the model moves to the front. */
  lemma TopHit(recent: seq<ModelId>, id: ModelId, k: nat, p: nat)
    requires Distinct(recent) && p < |Top(recent, k)| && Top(recent, k)[p] == id
    ensures Top([id] + Without(recent, id), k) == [id] + (Top(recent, k)[..p] + Top(recent, k)[p + 1..])
  {
    WithoutAt(recent, p);
    MovedToFront(recent, id, k, p);
  }

  lemma MovedToFront(recent: seq<ModelId>, id: ModelId, k: nat, p: nat)
    requires p < |Top(recent, k)|
    ensures Top([id] + (recent[..p] + recent[p + 1..]), k) == [id] + (Top(recent, k)[..p] + Top(recent, k)[p + 1..])
  {
    if k <= |recent| {
      assert recent[..k][..p] == recent[..p] && recent[..k][p + 1..] == recent[p + 1..k];
      assert (recent[..p] + recent[p + 1..])[..k - 1] == recent[..p] + recent[p + 1..k];
    }
  }

  /** On a miss it comes in at the front, and the last one makes room. */
  lemma TopMiss(recent: seq<ModelId>, id: ModelId, k: nat)
    requires Distinct(recent) && k >= 1 && id !in Top(recent, k)
    ensures Top([id] + Without(recent, id), k) == [id] + Top(Top(recent, k), k - 1)
  {
    if id in recent {
      var p :| 0 <= p < |recent| && recent[p] == id;
      assert forall q :: 0 <= q < |Top(recent, k)| ==> Top(recent, k)[q] != id && Top(recent, k)[q] == recent[q];
      WithoutAt(recent, p);
    } else {
      WithoutDistinct(recent, id);
    }
  }

  lemma RunPrefix(cap: int, states: seq<Cache>, requests: seq<Request>)
    requires IsRun(cap, states, requests) && requests != []
    ensures IsRun(cap, states[..|requests|], requests[..|requests| - 1])
  {
  }

  /** After every load the table holds exactly the most recently requested distinct models. */
  lemma {:induction false} HoldsMostRecent(cap: int, states: seq<Cache>, requests: seq<Request>, later: real)
    requires IsRun(cap, states, requests)
    requires forall i :: 0 <= i < |requests| ==> requests[i].now < later
    ensures Holds(states[|requests|], Top(Recent(Ids(requests)), Capacity(cap)), later)
  {
    if requests != [] {
      var n := |requests| - 1;
      var front, last := requests[..n], requests[n];
      assert Ids(requests)[..n] == Ids(front);
      RunPrefix(cap, states, requests);
      HoldsMostRecent(cap, states[..n + 1], front, last.now);
      var recent, k := Recent(Ids(front)), Capacity(cap);
      var top := Top(recent, k);
      RecentDistinct(Ids(front));
      if last.id in top {
        var p :| 0 <= p < |top| && top[p] == last.id;
        TopHit(recent, last.id, k, p);
        HitStep(cap, states[n], top, last, states[n + 1], p, later);
      } else {
        TopMiss(recent, last.id, k);
        MissStep(cap, states[n], top, last, states[n + 1], later);
      }
    }
  }

  /** The keys of the table are the `max(1, bound)` most recently requested distinct ids. */
  lemma LoadedAreMostRecent(cap: int, states: seq<Cache>, requests: seq<Request>)
    requires IsRun(cap, states, requests)
    ensures forall id :: id in states[|requests|].loaded <==> id in Top(Recent(Ids(requests)), Capacity(cap))
  {
    var later := if requests == [] then 0.0 else requests[|requests| - 1].now + 1.0;
    HoldsMostRecent(cap, states, requests, later);
    var last := states[|requests|];
    assert last.loaded.Keys == last.accessed.Keys;
  }

  /** A larger table always holds everything a smaller one does. */
  lemma LargerHoldsMore(small: int, large: int, few: seq<Cache>, many: seq<Cache>, requests: seq<Request>)
    requires small <= large && IsRun(small, few, requests) && IsRun(large, many, requests)
    ensures few[|requests|].loaded.Keys <= many[|requests|].loaded.Keys
  {
    LoadedAreMostRecent(small, few, requests);
    LoadedAreMostRecent(large, many, requests);
    var recent := Recent(Ids(requests));
    forall id | id in few[|requests|].loaded ensures id in many[|requests|].loaded {
      var i :| 0 <= i < |Top(recent, Capacity(small))| && Top(recent, Capacity(small))[i] == id;
      assert Top(recent, Capacity(large))[i] == id;
    }
  }

  /** How many requests found their model not loaded. */
  function Misses(states: seq<Cache>, requests: seq<Request>): nat
    requires |states| == |requests| + 1
  {
    if requests == [] then 0
    else
      var n := |requests| - 1;
      Misses(states[..n + 1], requests[..n]) + if requests[n].id in states[n].loaded then 0 else 1
  }

  /** A larger table never misses more. */
  lemma {:induction false} LargerMissesNoMore(small: int, large: int, few: seq<Cache>, many: seq<Cache>,
                                              requests: seq<Request>)
    requires small <= large && IsRun(small, few, requests) && IsRun(large, many, requests)
    ensures Misses(many, requests) <= Misses(few, requests)
  {
    if requests != [] {
      var n := |requests| - 1;
      RunPrefix(small, few, requests);
      RunPrefix(large, many, requests);
      LargerMissesNoMore(small, large, few[..n + 1], many[..n + 1], requests[..n]);
      assert requests[n].id in few[n].loaded ==> requests[n].id in many[n].loaded by {
        LargerHoldsMore(small, large, few[..n + 1], many[..n + 1], requests[..n]);
      }
    }
  }
}
