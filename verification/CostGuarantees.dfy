/**
 What the variable-cost limiter promises about whole runs: the closed form of its lazily stored
 pair, the bound on any interval, when evicting idle entries can be noticed, and what its retry
 hints and headers mean.
 */
module CostGuarantees {
  import opened Basics
  import opened CostLimiter
  import opened CostRuns
  import Bucket

  // ----- replies depend on the ledger only -----

  function VerdictAt(config: Config, tokens: real, cost: real): Verdict
    requires config.windowSeconds != 0
  {
    if tokens >= cost then Allowed
    else if config.requestsPerWindow == 0 then ZeroDivision
    else Limited(Max(1, Truncate((cost - tokens) / config.Rate())))
  }

  lemma VerdictFromStored(config: Config, status: Option<Status>, ask: Ask)
    requires config.Sane() && ask.Proper() && Tidy(config, status, ask.created)
    ensures VerdictOn(config, status, ask) == VerdictAt(config, Stored(config, status, ask.now), ask.cost)
  {
    SaneParams(config);
    var full := Bucket.Level(config.BurstLimit() as real, ask.created);
    assert Bucket.Available(config.Params(), full, ask.created) == full.tokens;
    Bucket.AvailableGrows(config.Params(), full, ask.created, ask.now);
  }

  ghost predicate NoSweeps(events: seq<Event>) {
    forall i :: 0 <= i < |events| ==> events[i].Check?
  }

  function ReplyAt(cfgs: string -> Config, events: seq<Event>, key: Key, ask: Ask): Verdict {
    VerdictOn(cfgs(key.0), Look(Run(cfgs, events).table, key), ask)
  }

  lemma ReplyFromLedger(cfgs: string -> Config, events: seq<Event>, key: Key, ask: Ask)
    requires Timed(events) && Over(events, ask.created) && ask.Proper() && cfgs(key.0).Sane()
    requires Lasting(cfgs(key.0)) || NoSweeps(events)
    ensures ReplyAt(cfgs, events, key, ask)
         == VerdictAt(cfgs(key.0), Balance(cfgs(key.0), LedgerOf(cfgs, events, key), ask.now), ask.cost)
  {
    var config, status, ledger := cfgs(key.0), Look(Run(cfgs, events).table, key), LedgerOf(cfgs, events, key);
    StoredFollowsLedger(cfgs, events, key, ask.created);
    AgreesLater(config, status, ledger, ask.created, ask.now);
    VerdictFromStored(config, status, ask);
  }

  // ----- closed form and interval bound -----

  /** `v` is the least of the capacity and, for each grant, the balance had the bucket been full just before it. */
  ghost predicate LeastBalance(p: Bucket.Params, grants: seq<Bucket.Grant>, t: real, v: real) {
    && v <= p.capacity
    && (forall i :: 0 <= i < |grants| ==> v <= Bucket.FullAt(p, grants, i, t))
    && (v == p.capacity || exists i :: 0 <= i < |grants| && v == Bucket.FullAt(p, grants, i, t))
  }

  /** A bucket that starts full needs no never-full term. */
  lemma FullStartClosedForm(p: Bucket.Params, start: Bucket.Level, grants: seq<Bucket.Grant>, t: real)
    requires p.rate >= 0.0 && start.tokens == p.capacity && start.at <= t
    requires Bucket.Chronological(start, grants)
    ensures LeastBalance(p, grants, t, Bucket.Available(p, Bucket.Replay(p, start, grants), t))
  {
    Bucket.LazyPairIsClosedForm(p, start, grants, t);
    Bucket.EarnedGrows(p, start.at, start.at, t, t);
    if grants != [] {
      assert grants[0..] == grants;
      Bucket.EarnedAdds(p, start.at, grants[0].at, t);
      Bucket.EarnedGrows(p, start.at, start.at, grants[0].at, grants[0].at);
      assert Bucket.FullAt(p, grants, 0, t) <= Bucket.NeverFull(p, start, grants, t);
    }
  }

  function GrantsOf(cfgs: string -> Config, events: seq<Event>, key: Key): seq<Bucket.Grant> {
    match LedgerOf(cfgs, events, key) case None => [] case Some(l) => l.grants
  }

  /** The tokens the stored pair yields at any later instant are the closed form over all the key's grants. */
  lemma StoredPairIsClosedForm(cfgs: string -> Config, events: seq<Event>, key: Key, t: real)
    requires Timed(events) && Over(events, t) && cfgs(key.0).Sane()
    requires Lasting(cfgs(key.0)) || NoSweeps(events)
    ensures LeastBalance(cfgs(key.0).Params(), GrantsOf(cfgs, events, key), t,
                         Stored(cfgs(key.0), Look(Run(cfgs, events).table, key), t))
  {
    var config, ledger := cfgs(key.0), LedgerOf(cfgs, events, key);
    SaneParams(config);
    StoredFollowsLedger(cfgs, events, key, t);
    if ledger.Some? {
      FullStartClosedForm(config.Params(), ledger.value.start, ledger.value.grants, t);
    }
  }

  /** Whatever the costs, any interval [s, u] admits at most the burst plus what it refills. */
  lemma EveryIntervalWithinBudget(cfgs: string -> Config, events: seq<Event>, key: Key, t: real, s: real, u: real)
    requires Timed(events) && Over(events, t) && cfgs(key.0).Sane() && s <= u
    requires Lasting(cfgs(key.0)) || NoSweeps(events)
    ensures Bucket.CostBetween(GrantsOf(cfgs, events, key), s, u)
         <= cfgs(key.0).BurstLimit() as real + Bucket.Earned(cfgs(key.0).Params(), s, u)
  {
    var config, ledger := cfgs(key.0), LedgerOf(cfgs, events, key);
    SaneParams(config);
    StoredFollowsLedger(cfgs, events, key, t);
    if ledger.Some? {
      Bucket.IntervalBound(config.Params(), ledger.value.start, ledger.value.grants, s, u);
    } else {
      Bucket.EarnedGrows(config.Params(), s, s, u, u);
    }
  }

  // ----- eviction -----

  function WithoutSweeps(events: seq<Event>): seq<Event> {
    if events == [] then []
    else
      var last, rest := events[|events| - 1], WithoutSweeps(events[..|events| - 1]);
      if last.Check? then rest + [last] else rest
  }

  lemma {:induction false} WithoutSweepsStaysTimed(events: seq<Event>, t: real)
    requires Timed(events) && Over(events, t)
    ensures Timed(WithoutSweeps(events)) && Over(WithoutSweeps(events), t) && NoSweeps(WithoutSweeps(events))
  {
    if events != [] {
      TimedPrefix(events);
      WithoutSweepsStaysTimed(events[..|events| - 1], events[|events| - 1].Start());
    }
  }

  /** One reply is the same with and without the sweeps before it, if the ledgers are. */
  lemma SameReply(cfgs: string -> Config, events: seq<Event>, key: Key, ask: Ask)
    requires Timed(events) && Over(events, ask.created) && ask.Proper() && Lasting(cfgs(key.0))
    requires LedgerOf(cfgs, WithoutSweeps(events), key) == LedgerOf(cfgs, events, key)
    ensures ReplyAt(cfgs, WithoutSweeps(events), key, ask) == ReplyAt(cfgs, events, key, ask)
  {
    WithoutSweepsStaysTimed(events, ask.created);
    ReplyFromLedger(cfgs, events, key, ask);
    ReplyFromLedger(cfgs, WithoutSweeps(events), key, ask);
  }

  lemma {:induction false} LedgersSurviveSweeps(cfgs: string -> Config, events: seq<Event>, key: Key)
    requires Timed(events) && Lasting(cfgs(key.0))
    ensures LedgerOf(cfgs, WithoutSweeps(events), key) == LedgerOf(cfgs, events, key)
  {
    if events != [] {
      TimedPrefix(events);
      var front, last := events[..|events| - 1], events[|events| - 1];
      LedgersSurviveSweeps(cfgs, front, key);
      if last.Check? {
        var rest := WithoutSweeps(front);
        assert (rest + [last])[..|rest|] == rest;
        if last.key == key {
          SameReply(cfgs, front, key, last.ask);
        }
      }
    }
  }

  /** When a day earns at least a full bucket, removing every sweep changes no reply. */
  lemma {:induction false} SweepsChangeNothing(cfgs: string -> Config, events: seq<Event>)
    requires Timed(events) && forall tenant :: Lasting(cfgs(tenant))
    ensures Run(cfgs, WithoutSweeps(events)).replies == Run(cfgs, events).replies
  {
    if events != [] {
      TimedPrefix(events);
      var front, last := events[..|events| - 1], events[|events| - 1];
      SweepsChangeNothing(cfgs, front);
      if last.Check? {
        var rest := WithoutSweeps(front);
        assert (rest + [last])[..|rest|] == rest;
        LedgersSurviveSweeps(cfgs, front, last.key);
        SameReply(cfgs, front, last.key, last.ask);
      }
    }
  }

  function Uniform(config: Config): string -> Config {
    _ => config
  }

  /** No run of a limiter that uses `config` for every tenant can tell whether idle entries are evicted. */
  ghost predicate EvictionUnnoticed(config: Config) {
    forall events :: Timed(events) ==>
      Run(Uniform(config), WithoutSweeps(events)).replies == Run(Uniform(config), events).replies
  }

  lemma RunAppend(cfgs: string -> Config, events: seq<Event>, event: Event)
    ensures Run(cfgs, events + [event]) == Step(cfgs, Run(cfgs, events), event)
  {
    assert (events + [event])[..|events|] == events;
  }

  lemma WithoutSweepsAppend(events: seq<Event>, event: Event)
    ensures WithoutSweeps(events + [event])
         == if event.Check? then WithoutSweeps(events) + [event] else WithoutSweeps(events)
  {
    assert (events + [event])[..|events|] == events;
  }

  lemma WithoutMiddleSweep(first: Event, sweep: Event, again: Event)
    requires first.Check? && sweep.Sweep? && again.Check?
    ensures WithoutSweeps([first, sweep, again]) == [first, again]
  {
    WithoutSweepsAppend([], first);
    WithoutSweepsAppend([first], sweep);
    WithoutSweepsAppend([first, sweep], again);
    assert [] + [first] == [first] && [first] + [sweep] == [first, sweep]
        && [first, sweep] + [again] == [first, sweep, again];
  }

  /** Spending a full bucket leaves it empty. */
  lemma SpendAll(config: Config, key: Key)
    requires config.Sane()
    ensures Run(Uniform(config), [Check(key, Ask(config.BurstLimit() as real, 0.0, 0.0))])
         == State(map[key := Status(0.0, 0.0, config)], [Reply(key, Allowed)])
  {
    RunAppend(Uniform(config), [], Check(key, Ask(config.BurstLimit() as real, 0.0, 0.0)));
    FullBucketPays(config, 0.0);
    assert [] + [Check(key, Ask(config.BurstLimit() as real, 0.0, 0.0))]
        == [Check(key, Ask(config.BurstLimit() as real, 0.0, 0.0))];
  }

  lemma SweptBucketPaysAgain(config: Config, key: Key, later: real)
    requires config.Sane() && later > DAY
    ensures var burst := config.BurstLimit() as real;
      var events := [Check(key, Ask(burst, 0.0, 0.0)), Sweep(later), Check(key, Ask(burst, later, later))];
      Run(Uniform(config), events).replies == [Reply(key, Allowed), Reply(key, Allowed)]
  {
    var burst, cfgs := config.BurstLimit() as real, Uniform(config);
    var first, sweep, again := Check(key, Ask(burst, 0.0, 0.0)), Sweep(later), Check(key, Ask(burst, later, later));
    SpendAll(config, key);
    RunAppend(cfgs, [first], sweep);
    assert Run(cfgs, [first] + [sweep]).table == map[];
    RunAppend(cfgs, [first] + [sweep], again);
    FullBucketPays(config, later);
    assert [first] + [sweep] + [again] == [first, sweep, again];
  }

  lemma UnsweptBucketIsStillRefilling(config: Config, key: Key, later: real)
    requires config.Sane() && later >= 0.0
    requires Bucket.Earned(config.Params(), 0.0, later) < config.BurstLimit() as real
    ensures var burst := config.BurstLimit() as real;
      var events := [Check(key, Ask(burst, 0.0, 0.0)), Check(key, Ask(burst, later, later))];
      |Run(Uniform(config), events).replies| == 2 && Run(Uniform(config), events).replies[1].verdict != Allowed
  {
    var burst, cfgs := config.BurstLimit() as real, Uniform(config);
    var first, again := Check(key, Ask(burst, 0.0, 0.0)), Check(key, Ask(burst, later, later));
    SpendAll(config, key);
    RunAppend(cfgs, [first], again);
    assert Tokens(Status(0.0, 0.0, config), later) < burst;
    assert [first] + [again] == [first, again];
  }

  /** The witness: spend the whole bucket, sweep just over a day later, and ask for it all again. */
  lemma SweepNoticed(config: Config, key: Key, later: real)
    requires config.Sane() && later > DAY
    requires Bucket.Earned(config.Params(), 0.0, later) < config.BurstLimit() as real
    ensures !EvictionUnnoticed(config)
  {
    var burst, cfgs := config.BurstLimit() as real, Uniform(config);
    var first, sweep, again := Check(key, Ask(burst, 0.0, 0.0)), Sweep(later), Check(key, Ask(burst, later, later));
    var swept, unswept := Run(cfgs, [first, sweep, again]).replies, Run(cfgs, [first, again]).replies;
    assert swept != unswept by {
      SweptBucketPaysAgain(config, key, later);
      UnsweptBucketIsStillRefilling(config, key, later);
    }
    WithoutMiddleSweep(first, sweep, again);
    assert burst >= 0.0 by { SaneParams(config); }
    assert Timed([first, sweep, again]);
  }

  lemma SlowBucketNoticesEviction(config: Config, key: Key)
    requires config.Sane() && !Lasting(config)
    ensures !EvictionUnnoticed(config)
  {
    SaneParams(config);
    var burst, rate := config.BurstLimit() as real, config.Rate();
    var later := (DAY + burst / rate) / 2.0;
    LaterIsTooSoon(burst, rate, later);
    SweepNoticed(config, key, later);
  }

  lemma LaterIsTooSoon(burst: real, rate: real, later: real)
    requires rate > 0.0 && burst > DAY * rate && later == (DAY + burst / rate) / 2.0
    ensures later > DAY && (later - 0.0) * rate < burst
  {
    assert burst / rate * rate == burst;
    assert (burst / rate - DAY) * rate > 0.0;
    assert burst / rate > DAY;
    assert (burst / rate - later) * rate > 0.0;
  }

  lemma FullBucketPays(config: Config, now: real)
    requires config.Sane()
    ensures Judge(Full(config, now), config.BurstLimit() as real, now) == Allowed
    ensures After(Full(config, now), config.BurstLimit() as real, now) == Status(0.0, now, config)
  {
  }

  /** Eviction goes unnoticed in every run exactly when a day earns at least a full bucket. */
  lemma EvictionUnnoticedExactly(config: Config)
    requires config.Sane()
    ensures EvictionUnnoticed(config) <==> config.BurstLimit() as real <= DAY * config.Rate()
  {
    if Lasting(config) {
      forall events | Timed(events)
        ensures Run(Uniform(config), WithoutSweeps(events)).replies == Run(Uniform(config), events).replies
      {
        SweepsChangeNothing(Uniform(config), events);
      }
    } else {
      SlowBucketNoticesEviction(config, ("", ""));
    }
  }

  // ----- retry hints -----

  /** The time the refused cost still needed when it was refused. */
  function Wait(config: Config, tokens: real, cost: real): real
    requires config.Sane()
  {
    (cost - tokens) / config.Rate()
  }

  /**
   With nothing admitted on the key in between, whatever else happens, a refused check of cost
   `ask.cost` first succeeds exactly `Wait` later, and never if the cost exceeds the burst.
   */
  lemma RetryInstant(cfgs: string -> Config, events: seq<Event>, key: Key, ask: Ask, between: seq<Event>, later: Ask)
    requires cfgs(key.0).Sane() && Timed(events) && Over(events, ask.created) && ask.Proper()
    requires Lasting(cfgs(key.0)) || NoSweeps(events + [Check(key, ask)] + between)
    requires ReplyAt(cfgs, events, key, ask).Limited?
    requires var upTo := events + [Check(key, ask)] + between;
      && Timed(upTo) && Over(upTo, later.created) && later.Proper() && later.cost == ask.cost
      && GrantsOf(cfgs, upTo, key) == GrantsOf(cfgs, events, key)
    ensures var upTo := events + [Check(key, ask)] + between;
      var wait := Wait(cfgs(key.0), Balance(cfgs(key.0), LedgerOf(cfgs, events, key), ask.now), ask.cost);
      var due := ask.cost <= cfgs(key.0).BurstLimit() as real && later.now - ask.now >= wait;
      ReplyAt(cfgs, upTo, key, later).Allowed? <==> due
  {
    var config, upTo := cfgs(key.0), events + [Check(key, ask)] + between;
    assert ask.now <= later.created by { assert upTo[|events|] == Check(key, ask); }
    assert NoSweeps(upTo) ==> NoSweeps(events) by { assert upTo[..|events|] == events; }
    var start := Opened(config, LedgerOf(cfgs, events, key), ask).start;
    var grants := GrantsOf(cfgs, events, key);
    assert Balance(config, LedgerOf(cfgs, upTo, key), later.now)
        == GrantedBalance(config, start, grants, later.now) by {
      LedgerStart(cfgs, events, key, ask, between);
    }
    assert Balance(config, LedgerOf(cfgs, events, key), ask.now) == GrantedBalance(config, start, grants, ask.now) by {
      StoredFollowsLedger(cfgs, events, key, ask.created);
      FullBalance(config, start, ask.now);
    }
    assert ReplyAt(cfgs, events, key, ask)
        == VerdictAt(config, GrantedBalance(config, start, grants, ask.now), ask.cost) by {
      ReplyFromLedger(cfgs, events, key, ask);
    }
    assert ReplyAt(cfgs, upTo, key, later)
        == VerdictAt(config, GrantedBalance(config, start, grants, later.now), ask.cost) by {
      ReplyFromLedger(cfgs, upTo, key, later);
    }
    RefusedThenRetried(config, start, grants, ask.cost, ask.now, later.now);
  }

  function GrantedBalance(config: Config, start: Bucket.Level, grants: seq<Bucket.Grant>, t: real): real
    requires config.windowSeconds != 0
  {
    Bucket.Available(config.Params(), Bucket.Replay(config.Params(), start, grants), t)
  }

  lemma RefusedThenRetried(config: Config, start: Bucket.Level, grants: seq<Bucket.Grant>, cost: real, now: real,
                           retry: real)
    requires config.Sane() && now <= retry
    requires VerdictAt(config, GrantedBalance(config, start, grants, now), cost).Limited?
    ensures var wait := Wait(config, GrantedBalance(config, start, grants, now), cost);
      var due := cost <= config.BurstLimit() as real && retry - now >= wait;
      VerdictAt(config, GrantedBalance(config, start, grants, retry), cost).Allowed? <==> due
  {
    SaneParams(config);
    Bucket.FirstAffordableInstant(config.Params(), Bucket.Replay(config.Params(), start, grants), cost, now, retry);
  }

  lemma FullBalance(config: Config, start: Bucket.Level, now: real)
    requires config.Sane() && start.tokens == config.BurstLimit() as real && start.at <= now
    ensures Bucket.Available(config.Params(), start, now) == config.BurstLimit() as real
  {
    SaneParams(config);
    Bucket.EarnedGrows(config.Params(), start.at, start.at, now, now);
  }

  lemma {:induction false} LedgerStart(cfgs: string -> Config, events: seq<Event>, key: Key, ask: Ask,
                                       between: seq<Event>)
    ensures var upTo := events + [Check(key, ask)] + between;
      && LedgerOf(cfgs, upTo, key).Some?
      && LedgerOf(cfgs, upTo, key).value.start == Opened(cfgs(key.0), LedgerOf(cfgs, events, key), ask).start
  {
    var upTo := events + [Check(key, ask)] + between;
    if between == [] {
      assert upTo[..|upTo| - 1] == events;
    } else {
      LedgerStart(cfgs, events, key, ask, between[..|between| - 1]);
      assert upTo[..|upTo| - 1] == events + [Check(key, ask)] + between[..|between| - 1];
    }
  }

  /**
   What the truncated hint is worth: a retry one second after it always succeeds when the bucket can
   hold the cost; before it a retry never succeeds, unless the wait was under the one second it is rounded up to; and
   a retry exactly at it succeeds if and only if the wait was a whole number of seconds or at most one.
   */
  lemma HintIsWithinOneSecond(cfgs: string -> Config, events: seq<Event>, key: Key, ask: Ask, between: seq<Event>,
                              later: Ask)
    requires cfgs(key.0).Sane() && Timed(events) && Over(events, ask.created) && ask.Proper()
    requires Lasting(cfgs(key.0)) || NoSweeps(events + [Check(key, ask)] + between)
    requires ReplyAt(cfgs, events, key, ask).Limited? && ask.cost <= cfgs(key.0).BurstLimit() as real
    requires var upTo := events + [Check(key, ask)] + between;
      && Timed(upTo) && Over(upTo, later.created) && later.Proper() && later.cost == ask.cost
      && GrantsOf(cfgs, upTo, key) == GrantsOf(cfgs, events, key)
    ensures var upTo := events + [Check(key, ask)] + between;
      var hint := ReplyAt(cfgs, events, key, ask).retryAfter as real;
      var wait := Wait(cfgs(key.0), Balance(cfgs(key.0), LedgerOf(cfgs, events, key), ask.now), ask.cost);
      && (later.now >= ask.now + hint + 1.0 ==> ReplyAt(cfgs, upTo, key, later).Allowed?)
      && (later.now < ask.now + hint && wait >= 1.0 ==> !ReplyAt(cfgs, upTo, key, later).Allowed?)
      && (later.now == ask.now + hint ==>
            (ReplyAt(cfgs, upTo, key, later).Allowed? <==> (wait <= 1.0 || wait == wait.Floor as real)))
  {
    var config := cfgs(key.0);
    SaneParams(config);
    RetryInstant(cfgs, events, key, ask, between, later);
    var upTo := events + [Check(key, ask)] + between;
    assert NoSweeps(upTo) ==> NoSweeps(events) by { assert upTo[..|events|] == events; }
    ReplyFromLedger(cfgs, events, key, ask);
    var short := ask.cost - Balance(config, LedgerOf(cfgs, events, key), ask.now);
    WaitPositive(short, config.Rate());
  }

  lemma WaitPositive(short: real, rate: real)
    requires short > 0.0 && rate > 0.0
    ensures short / rate > 0.0
  {
  }

  // ----- headers -----

  /** The entry after up to `n` unit checks at one instant; a refused check leaves it alone. */
  function UnitChecks(s: Status, now: real, n: nat): Status {
    if n == 0 then s else After(UnitChecks(s, now, n - 1), 1.0, now)
  }

  /** Exactly the first `k` of any number of unit checks at this instant succeed. */
  ghost predicate ExactlySucceed(s: Status, now: real, k: int) {
    forall n: nat :: Judge(UnitChecks(s, now, n), 1.0, now).Allowed? <==> n < k
  }

  lemma {:induction false} UnitChecksSpend(s: Status, now: real, n: nat)
    requires s.config.Sane() && Tokens(s, now) >= 0.0
    ensures UnitChecks(s, now, n).config == s.config
    ensures var k := Tokens(s, now).Floor;
      Tokens(UnitChecks(s, now, n), now) == Tokens(s, now) - (if n <= k then n else k) as real
  {
    if n > 0 {
      UnitChecksSpend(s, now, n - 1);
      var before := UnitChecks(s, now, n - 1);
      assert Bucket.Earned(s.config.Params(), now, now) == 0.0;
    }
  }

  lemma FloorOfTokensSucceed(s: Status, now: real)
    requires s.config.Sane() && Tokens(s, now) >= 0.0
    ensures ExactlySucceed(s, now, Tokens(s, now).Floor)
  {
    forall n: nat ensures Judge(UnitChecks(s, now, n), 1.0, now).Allowed? <==> n < Tokens(s, now).Floor {
      UnitChecksSpend(s, now, n);
    }
  }

  /** For a tracked key the Remaining header is exactly the number of unit checks that would now succeed. */
  lemma RemainingIsExact(cfgs: string -> Config, events: seq<Event>, key: Key, now: real)
    requires Timed(events) && Over(events, now) && cfgs(key.0).Sane() && key in Run(cfgs, events).table
    ensures var s := Run(cfgs, events).table[key];
      && TrackedHeaders(s, now).Some? && ExactlySucceed(s, now, TrackedHeaders(s, now).value.remaining)
      && TrackedHeaders(s, now).value.limit == cfgs(key.0).requestsPerWindow
  {
    var s := Run(cfgs, events).table[key];
    EntriesStayTidy(cfgs, events, key, now);
    SaneParams(s.config);
    Bucket.EarnedGrows(s.config.Params(), s.lastRefill, s.lastRefill, now, now);
    FloorOfTokensSucceed(s, now);
  }

  /**
   For an untracked key the Remaining header is right exactly when the burst limit is the window's limit,
   and Reset is the last whole second of a window that starts now.
   */
  lemma UntrackedRemainingIsExactWhen(config: Config, now: real)
    requires config.Sane()
    ensures ExactlySucceed(Full(config, now), now, UntrackedHeaders(config, now).remaining)
       <==> config.BurstLimit() == config.requestsPerWindow
    ensures UntrackedHeaders(config, now).limit == config.requestsPerWindow
    ensures now >= 0.0 ==>
      var end := now + config.windowSeconds as real;
      UntrackedHeaders(config, now).reset as real <= end < UntrackedHeaders(config, now).reset as real + 1.0
  {
    SaneParams(config);
    var s := Full(config, now);
    assert Tokens(s, now) == config.BurstLimit() as real;
    FloorOfTokensSucceed(s, now);
    var burst, told := config.BurstLimit(), config.requestsPerWindow;
    if burst != told {
      var n := if burst < told then burst else told;
      assert Judge(UnitChecks(s, now, n), 1.0, now).Allowed? <==> n < burst;
    }
  }

  /**
   One second after the Reset header an untouched bucket is full, and before it it is not, unless it is
   full already; Reset is never a whole second in the past, and not in the future when the bucket is full.
   */
  lemma ResetMeansFull(s: Status, now: real, u: real)
    requires s.config.Sane() && now <= u && now >= 0.0 && s.lastRefill <= now
    ensures TrackedHeaders(s, now).Some?
    ensures now < TrackedHeaders(s, now).value.reset as real + 1.0
    ensures Tokens(s, now) == s.config.BurstLimit() as real ==> TrackedHeaders(s, now).value.reset as real <= now
    ensures u >= TrackedHeaders(s, now).value.reset as real + 1.0 ==> Tokens(s, u) == s.config.BurstLimit() as real
    ensures u < TrackedHeaders(s, now).value.reset as real ==> Tokens(s, u) < s.config.BurstLimit() as real
  {
    SaneParams(s.config);
    var short := s.config.BurstLimit() as real - Tokens(s, now);
    if short > 0.0 {
      WaitPositive(short, s.config.Rate());
      Bucket.FirstAffordableInstant(s.config.Params(), s.Level(), s.config.BurstLimit() as real, now, u);
    } else {
      assert short / s.config.Rate() == 0.0;
      Bucket.AvailableGrows(s.config.Params(), s.Level(), now, u);
    }
  }
}
