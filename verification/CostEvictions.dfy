/**
 The variable-cost limiter with evictions at any time and no condition on how fast buckets refill:
 which promises survive, and exactly when the budget does.
 */
module CostEvictions {
  import opened Basics
  import opened CostLimiter
  import opened CostRuns
  import opened CostGuarantees
  import Bucket

  // ----- the budget -----

  /** No run of a limiter that uses `config` for every tenant ever exceeds the budget of an interval. */
  ghost predicate BudgetHolds(config: Config)
    requires config.windowSeconds != 0
  {
    forall events, key, s, u :: Timed(events) && s <= u ==>
      Bucket.CostBetween(GrantsOf(Uniform(config), events, key), s, u)
        <= config.BurstLimit() as real + Bucket.Earned(config.Params(), s, u)
  }

  lemma OverLast(events: seq<Event>)
    requires Timed(events)
    ensures Over(events, if events == [] then 0.0 else events[|events| - 1].End())
  {
    if events != [] {
      TimedPrefix(events);
    }
  }

  lemma LedgerAppend(cfgs: string -> Config, events: seq<Event>, key: Key, ask: Ask)
    requires VerdictOn(cfgs(key.0), Look(Run(cfgs, events).table, key), ask).Allowed?
    ensures GrantsOf(cfgs, events + [Check(key, ask)], key)
         == GrantsOf(cfgs, events, key) + [Bucket.Grant(ask.now, ask.cost)]
  {
    assert (events + [Check(key, ask)])[..|events|] == events;
  }

  /** Spend a full bucket, evict it, and spend it again. */
  lemma SweptLedger(config: Config, key: Key, later: real)
    requires config.Sane() && later > DAY
    ensures var burst := config.BurstLimit() as real;
      GrantsOf(Uniform(config),
               [Check(key, Ask(burst, 0.0, 0.0)), Sweep(later), Check(key, Ask(burst, later, later))], key)
        == [Bucket.Grant(0.0, burst), Bucket.Grant(later, burst)]
  {
    var burst, cfgs := config.BurstLimit() as real, Uniform(config);
    var first, sweep, again := Check(key, Ask(burst, 0.0, 0.0)), Sweep(later), Check(key, Ask(burst, later, later));
    FullBucketPays(config, 0.0);
    FullBucketPays(config, later);
    LedgerAppend(cfgs, [], key, first.ask);
    assert [] + [first] == [first];
    SpendAll(config, key);
    RunAppend(cfgs, [first], sweep);
    assert [first, sweep][..1] == [first] && [first] + [sweep] == [first, sweep];
    assert Run(cfgs, [first, sweep]).table == map[];
    assert GrantsOf(cfgs, [first, sweep], key) == GrantsOf(cfgs, [first], key);
    LedgerAppend(cfgs, [first, sweep], key, again.ask);
    assert [first, sweep] + [again] == [first, sweep, again];
  }

  lemma TwoGrantsBetween(cost: real, later: real)
    requires later >= 0.0
    ensures Bucket.CostBetween([Bucket.Grant(0.0, cost), Bucket.Grant(later, cost)], 0.0, later) == cost + cost
  {
    var one, two := [Bucket.Grant(0.0, cost)], [Bucket.Grant(0.0, cost), Bucket.Grant(later, cost)];
    assert two[..1] == one && one[..0] == [];
    assert Bucket.CostBetween([], 0.0, later) == 0.0;
    assert Bucket.CostBetween(one, 0.0, later) == cost;
  }

  lemma SweptBucketOverspends(config: Config, key: Key, later: real)
    requires config.Sane() && later > DAY
    requires Bucket.Earned(config.Params(), 0.0, later) < config.BurstLimit() as real
    ensures !BudgetHolds(config)
  {
    var burst := config.BurstLimit() as real;
    var events := [Check(key, Ask(burst, 0.0, 0.0)), Sweep(later), Check(key, Ask(burst, later, later))];
    assert burst >= 0.0 by { SaneParams(config); }
    assert Timed(events);
    assert Bucket.CostBetween(GrantsOf(Uniform(config), events, key), 0.0, later) == burst + burst by {
      SweptLedger(config, key, later);
      TwoGrantsBetween(burst, later);
    }
  }

  lemma LastingKeepsBudget(config: Config)
    requires Lasting(config)
    ensures BudgetHolds(config)
  {
    forall events: seq<Event>, key, s, u | Timed(events) && s <= u
      ensures Bucket.CostBetween(GrantsOf(Uniform(config), events, key), s, u)
           <= config.BurstLimit() as real + Bucket.Earned(config.Params(), s, u)
    {
      OverLast(events);
      var end := if events == [] then 0.0 else events[|events| - 1].End();
      EveryIntervalWithinBudget(Uniform(config), events, key, end, s, u);
    }
  }

  /** With evictions the budget of every interval holds in every run exactly when a day earns at least a full bucket. */
  lemma BudgetHoldsExactly(config: Config)
    requires config.Sane()
    ensures BudgetHolds(config) <==> config.BurstLimit() as real <= DAY * config.Rate()
  {
    if Lasting(config) {
      LastingKeepsBudget(config);
    } else {
      SaneParams(config);
      var burst, rate := config.BurstLimit() as real, config.Rate();
      LaterIsTooSoon(burst, rate, (DAY + burst / rate) / 2.0);
      SweptBucketOverspends(config, ("", ""), (DAY + burst / rate) / 2.0);
    }
  }

  // ----- the hint -----

  /** Nobody is allowed anything on the key. */
  ghost predicate NothingAllowed(cfgs: string -> Config, events: seq<Event>, from: nat, key: Key)
    requires from <= |events|
  {
    forall k :: from <= k < |events| && events[k].Check? && events[k].key == key
      ==> !ReplyAt(cfgs, events[..k], key, events[k].ask).Allowed?
  }

  lemma NothingAllowedBefore(cfgs: string -> Config, events: seq<Event>, from: nat, key: Key)
    requires from < |events| && NothingAllowed(cfgs, events, from, key)
    ensures NothingAllowed(cfgs, events[..|events| - 1], from, key)
  {
    var front := events[..|events| - 1];
    forall k | from <= k < |front| && front[k].Check? && front[k].key == key
      ensures !ReplyAt(cfgs, front[..k], key, front[k].ask).Allowed?
    {
      assert front[k] == events[k] && front[..k] == events[..k];
    }
  }

  /** Without admissions on a key, what its entry makes available at a later instant never shrinks. */
  lemma {:induction false} OnlyGrows(cfgs: string -> Config, events: seq<Event>, more: seq<Event>, key: Key, t: real)
    requires Timed(events + more) && Over(events + more, t) && cfgs(key.0).Sane()
    requires NothingAllowed(cfgs, events + more, |events|, key)
    ensures Stored(cfgs(key.0), Look(Run(cfgs, events).table, key), t)
         <= Stored(cfgs(key.0), Look(Run(cfgs, events + more).table, key), t)
  {
    var config := cfgs(key.0);
    if more == [] {
      assert events + more == events;
    } else {
      var all, fewer := events + more, more[..|more| - 1];
      var front, last := all[..|all| - 1], all[|all| - 1];
      TimedPrefix(all);
      assert front == events + fewer;
      NothingAllowedBefore(cfgs, all, |events|, key);
      OnlyGrows(cfgs, events, fewer, key, t);
      StepOnlyGrows(cfgs, Run(cfgs, front), last, key, t);
    }
  }

  lemma StepOnlyGrows(cfgs: string -> Config, s: State, event: Event, key: Key, t: real)
    requires cfgs(key.0).Sane() && event.Proper() && event.Start() <= event.End() <= t
    requires event.Check? && event.key == key ==> !VerdictOn(cfgs(key.0), Look(s.table, key), event.ask).Allowed?
    ensures Stored(cfgs(key.0), Look(s.table, key), t) <= Stored(cfgs(key.0), Look(Step(cfgs, s, event).table, key), t)
  {
    var config := cfgs(key.0);
    if event.Check? && event.key == key && key !in s.table {
      FullBalance(config, Bucket.Level(config.BurstLimit() as real, event.ask.created), t);
    }
  }

  /**
   The truncated hint is never a full second too early: in any run, whatever is evicted meanwhile, a
   retry one second after it succeeds when the bucket can hold the cost and nothing more was admitted.
   */
  lemma HintPlusOneAlwaysSucceeds(cfgs: string -> Config, events: seq<Event>, key: Key, ask: Ask, more: seq<Event>,
                                  later: Ask)
    requires var upTo := events + more;
      && more != [] && more[0] == Check(key, ask) && Timed(upTo) && Over(upTo, later.created) && later.Proper()
      && cfgs(key.0).Sane() && NothingAllowed(cfgs, upTo, |events|, key)
    requires ReplyAt(cfgs, events, key, ask).Limited?
    requires later.cost == ask.cost <= cfgs(key.0).BurstLimit() as real
    requires later.now >= ask.now + ReplyAt(cfgs, events, key, ask).retryAfter as real + 1.0
    ensures ReplyAt(cfgs, events + more, key, later).Allowed?
  {
    var config, upTo := cfgs(key.0), events + more;
    assert upTo[|events|] == Check(key, ask) && upTo[..|events|] == events;
    assert Over(events, ask.created) by {
      forall i | 0 <= i < |events| ensures events[i].End() <= ask.created {
        assert upTo[i] == events[i] && upTo[i].End() <= upTo[|events|].Start();
      }
    }
    assert Timed(events) by {
      forall i, j | 0 <= i < j < |events| ensures events[i].End() <= events[j].Start() {
        assert upTo[i] == events[i] && upTo[j] == events[j];
      }
      forall i | 0 <= i < |events| ensures events[i].Proper() {
        assert upTo[i] == events[i];
      }
    }
    var before, after := Look(Run(cfgs, events).table, key), Look(Run(cfgs, upTo).table, key);
    EntriesStayTidy(cfgs, events, key, ask.created);
    EntriesStayTidy(cfgs, upTo, key, later.created);
    VerdictFromStored(config, before, ask);
    VerdictFromStored(config, after, later);
    assert Over(upTo, later.now);
    OnlyGrows(cfgs, events, more, key, later.now);
    RefusedCatchesUp(config, before, ask, later.now);
  }

  lemma RefusedCatchesUp(config: Config, status: Option<Status>, ask: Ask, now: real)
    requires config.Sane() && ask.Proper() && Tidy(config, status, ask.created)
    requires VerdictAt(config, Stored(config, status, ask.now), ask.cost).Limited?
    requires ask.cost <= config.BurstLimit() as real
    requires now >= ask.now + VerdictAt(config, Stored(config, status, ask.now), ask.cost).retryAfter as real + 1.0
    ensures Stored(config, status, now) >= ask.cost
  {
    SaneParams(config);
    var short := ask.cost - Stored(config, status, ask.now);
    WaitPositive(short, config.Rate());
    if status.Some? {
      Bucket.FirstAffordableInstant(config.Params(), status.value.Level(), ask.cost, ask.now, now);
    }
  }
}
