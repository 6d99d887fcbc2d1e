/**
 The strategy-based limiter in a configuration's own numbers: when a check passes and what a refusal
 tells the caller, what an entry shows, when cleanup drops it, and whose configuration counts.
 */
module UsageFigures {
  import opened Basics
  import opened Usage
  import opened UsageRuns
  import opened UsageGuarantees
  import opened UsageLimiter
  import SlidingLog
  import Bucket

  // ----- the window in seconds -----

  /**
   A check passes exactly if fewer than the limit were ever allowed on the key, or the limit-th latest of
   them lies at least the window's seconds back.
   */
  lemma {:induction false} WindowPassesExactly(cfgs: Key -> Config, events: seq<Event>, key: Key, clock: Clock)
    requires Timed(events) && clock.Monotone() && Over(events, clock.created) && cfgs(key).limit >= 1
    ensures var stamps, limit := Stamps(SlidingWindow, cfgs, events, key), cfgs(key).limit;
      ReplyAt(SlidingWindow, cfgs, events, key, clock).Allowed? <==>
        |stamps| < limit || clock.seen - stamps[|stamps| - limit] >= cfgs(key).window as real
  {
    var rule, stamps := cfgs(key).Rule(), Stamps(SlidingWindow, cfgs, events, key);
    WindowReplyFromStamps(cfgs, events, key, clock);
    StampsOrdered(cfgs, events, key, clock.created);
    SlidingLog.AdmittedByGap(rule, stamps, clock.seen);
  }

  lemma {:induction false} StampsOrdered(cfgs: Key -> Config, events: seq<Event>, key: Key, t: real)
    requires Timed(events) && Over(events, t)
    ensures SlidingLog.Ordered(Stamps(SlidingWindow, cfgs, events, key))
  {
    var clocks := ClocksAt(events, key);
    StampsAreAdmitted(cfgs, events, key, t);
    SlidingLog.AdmittedNotAfter(cfgs(key).Rule(), Asks(clocks), t);
  }

  lemma {:induction false} StampsAreAdmitted(cfgs: Key -> Config, events: seq<Event>, key: Key, t: real)
    requires Timed(events) && Over(events, t)
    ensures var clocks := ClocksAt(events, key);
      && SlidingLog.Timed(Asks(clocks)) && (forall i :: 0 <= i < |Asks(clocks)| ==> Asks(clocks)[i].stamp <= t)
      && Stamps(SlidingWindow, cfgs, events, key) == SlidingLog.Admitted(cfgs(key).Rule(), Asks(clocks))
  {
    var clocks := ClocksAt(events, key);
    ClocksAtTimed(events, key, t);
    StampsAreKeyStamps(SlidingWindow, cfgs, events, key, t);
    LogFollowsHistory(cfgs(key), clocks, t);
    AsksTimed(clocks);
    assert forall i :: 0 <= i < |clocks| ==> clocks[i].Monotone();
  }

  lemma ApartInSeconds(cfg: Config, stamps: seq<real>)
    requires cfg.limit >= 1 && SlidingLog.SpacedOut(cfg.Rule(), stamps)
    ensures forall i :: 0 <= i < |stamps| - cfg.limit ==> stamps[i + cfg.limit] - stamps[i] >= cfg.window as real
  {
    forall i | 0 <= i < |stamps| - cfg.limit ensures stamps[i + cfg.limit] - stamps[i] >= cfg.window as real {
      assert SlidingLog.Apart(cfg.Rule(), stamps[i + cfg.limit] - stamps[i]);
    }
  }

  /** Whatever is allowed on a key lies at least the window's seconds from what is allowed the limit later. */
  lemma {:induction false} AllowedAreApart(cfgs: Key -> Config, events: seq<Event>, key: Key, t: real)
    requires Timed(events) && Over(events, t) && cfgs(key).limit >= 1
    ensures var stamps, limit := Stamps(SlidingWindow, cfgs, events, key), cfgs(key).limit;
      forall i :: 0 <= i < |stamps| - limit ==> stamps[i + limit] - stamps[i] >= cfgs(key).window as real
  {
    var rule, asks := cfgs(key).Rule(), Asks(ClocksAt(events, key));
    assert SlidingLog.SpacedOut(rule, Stamps(SlidingWindow, cfgs, events, key)) by {
      StampsAreAdmitted(cfgs, events, key, t);
      SlidingLog.AdmissionsAreApart(rule, asks);
    }
    ApartInSeconds(cfgs(key), Stamps(SlidingWindow, cfgs, events, key));
  }

  /** A limit below one refuses every check, with the whole window as its hint. */
  lemma {:induction false} NoLimitRefusesAll(cfgs: Key -> Config, events: seq<Event>, key: Key, clock: Clock)
    requires Timed(events) && clock.Monotone() && Over(events, clock.created) && cfgs(key).limit < 1
    ensures Stamps(SlidingWindow, cfgs, events, key) == []
    ensures var hint := ReplyAt(SlidingWindow, cfgs, events, key, clock);
      hint == Refused(if cfgs(key).window >= 0 then cfgs(key).window as real else 0.0)
  {
    StampsAreAdmitted(cfgs, events, key, clock.created);
    NothingAdmitted(cfgs(key).Rule(), Asks(ClocksAt(events, key)));
    WindowReplyFromStamps(cfgs, events, key, clock);
  }

  lemma {:induction false} NothingAdmitted(rule: SlidingLog.Rule, asks: seq<SlidingLog.Ask>)
    requires rule.limit < 1
    ensures SlidingLog.Admitted(rule, asks) == []
  {
    if asks != [] {
      NothingAdmitted(rule, asks[..|asks| - 1]);
    }
  }

  // ----- what a refused caller is told -----

  /** The outcome of a check made right after the run. */
  function ToldAt(strategy: Strategy, cfgs: Key -> Config, events: seq<Event>, key: Key, clock: Clock): Outcome {
    Told(strategy, cfgs(key), Present(Look(Run(strategy, cfgs, events).table, key), clock.created), clock)
  }

  /**
   Under the window a refusal tells the configured limit, the hint, and how many checks were allowed on
   the key in the window that ends when the error is built.
   */
  lemma {:induction false} WindowRefusalTells(cfgs: Key -> Config, events: seq<Event>, key: Key, clock: Clock)
    requires Timed(events) && clock.Monotone() && Over(events, clock.created)
    ensures var reply := ReplyAt(SlidingWindow, cfgs, events, key, clock);
      var used := SlidingLog.WindowCount(cfgs(key).Rule(), Stamps(SlidingWindow, cfgs, events, key), clock.gauge);
      ToldAt(SlidingWindow, cfgs, events, key, clock) ==
        if reply.Allowed? then Granted else Exceeded(used, cfgs(key).limit, reply.retryAfter)
  {
    var cfg, stamps := cfgs(key), Stamps(SlidingWindow, cfgs, events, key);
    var held := Look(Run(SlidingWindow, cfgs, events).table, key);
    var e := Present(held, clock.created);
    assert SlidingLog.Keep(cfg.Rule(), e.requests, clock.seen) == SlidingLog.Keep(cfg.Rule(), stamps, clock.seen) by {
      TableStamps(cfgs, events, key, clock.created);
      SlidingLog.KeepComposes(cfg.Rule(), Log(held), clock.created, clock.seen);
      SlidingLog.KeepComposes(cfg.Rule(), stamps, clock.created, clock.seen);
    }
    SlidingLog.KeepComposes(cfg.Rule(), e.requests, clock.seen, clock.gauge);
    SlidingLog.KeepComposes(cfg.Rule(), stamps, clock.seen, clock.gauge);
    assert |SlidingLog.Keep(cfg.Rule(), stamps, clock.gauge)|
        == SlidingLog.WindowCount(cfg.Rule(), stamps, clock.gauge) by {
      StampsAreAdmitted(cfgs, events, key, clock.created);
      SlidingLog.AdmittedNotAfter(cfg.Rule(), Asks(ClocksAt(events, key)), clock.created);
      SlidingLog.KeepIsWindowCount(cfg.Rule(), stamps, clock.gauge);
    }
  }

  lemma {:induction false} TableStamps(cfgs: Key -> Config, events: seq<Event>, key: Key, t: real)
    requires Timed(events) && Over(events, t)
    ensures SlidingLog.Keep(cfgs(key).Rule(), Log(Look(Run(SlidingWindow, cfgs, events).table, key)), t)
         == SlidingLog.Keep(cfgs(key).Rule(), Stamps(SlidingWindow, cfgs, events, key), t)
  {
    TableFollowsKeys(SlidingWindow, cfgs, events, key, t);
    ClocksAtTimed(events, key, t);
    StampsAreKeyStamps(SlidingWindow, cfgs, events, key, t);
    LogFollowsHistory(cfgs(key), ClocksAt(events, key), t);
  }

  /**
   On a bucket holding no less than nothing a refusal tells the configured limit, the hint, and the least
   whole number of tokens that would fill the stored balance up to the burst.
   */
  lemma BucketRefusalTells(cfg: Config, e: Entry, clock: Clock, n: nat)
    requires e.current >= 0.0 && ReplyTo(TokenBucket, cfg, e, clock).Refused?
    ensures var told := Told(TokenBucket, cfg, e, clock);
      && told.Exceeded? && told.limit == cfg.limit && told.retryAfter == ReplyTo(TokenBucket, cfg, e, clock).retryAfter
      && told.current >= 0 && (n >= told.current <==> e.current + n as real >= cfg.burst as real)
  {
    TruncateTowardZero(e.current, cfg.burst - n);
  }

  /** A bucket that never refills answers a shortage with a division by zero, and with nothing else. */
  lemma BucketDividesExactly(cfg: Config, e: Entry, clock: Clock)
    ensures Told(TokenBucket, cfg, e, clock) == ZeroDivision
       <==> cfg.refillRate == 0.0 && (cfg.burst < 1 || e.current < 1.0)
  {
    if cfg.refillRate == 0.0 {
      assert Bucket.Earned(cfg.Params(), e.lastUpdated, clock.seen) == 0.0;
    }
  }

  // ----- what an entry shows -----

  /** The count is the number of stamps, and the entry dates from the last of them. */
  ghost predicate Shows(e: Entry, t: real) {
    && e.current == |e.requests| as real && e.lastUpdated <= t
    && SlidingLog.Ordered(e.requests) && SlidingLog.NotAfter(e.requests, e.lastUpdated)
    && (e.requests != [] ==> e.requests[|e.requests| - 1] == e.lastUpdated)
  }

  lemma {:induction false} KeepKeepsLast(rule: SlidingLog.Rule, log: seq<real>, now: real)
    requires SlidingLog.Ordered(log) && SlidingLog.Keep(rule, log, now) != []
    ensures log != [] && SlidingLog.Keep(rule, log, now)[|SlidingLog.Keep(rule, log, now)| - 1] == log[|log| - 1]
  {
    var kept := SlidingLog.Keep(rule, log, now);
    SlidingLog.KeptIsLiveAndLogged(rule, log, now);
    var i :| 0 <= i < |log| && log[i] == kept[0];
    assert log[i] <= log[|log| - 1];
    assert rule.Live(log[|log| - 1], now);
  }

  lemma PrunedShows(cfg: Config, e: Entry, now: real, t: real)
    requires Shows(e, t)
    ensures Shows(Expire(SlidingWindow, cfg, e, now), t)
  {
    SlidingLog.KeepOrdered(cfg.Rule(), e.requests, now);
    SlidingLog.KeptIsLiveAndLogged(cfg.Rule(), e.requests, now);
    var kept := SlidingLog.Keep(cfg.Rule(), e.requests, now);
    forall i | 0 <= i < |kept| ensures kept[i] <= e.lastUpdated {
      assert kept[i] in e.requests;
    }
    if kept != [] {
      KeepKeepsLast(cfg.Rule(), e.requests, now);
    }
  }

  lemma RecordedShows(cfg: Config, e: Entry, stamp: real, t: real)
    requires Shows(e, t) && t <= stamp
    ensures Shows(Record(SlidingWindow, cfg, e, stamp), stamp)
  {
  }

  lemma CheckedShows(cfg: Config, entry: Option<Entry>, clock: Clock)
    requires clock.Monotone() && Shows(Present(entry, clock.created), clock.created)
    ensures Shows(CheckEntry(SlidingWindow, cfg, entry, clock), clock.gauge)
  {
    var pruned := Pruned(SlidingWindow, cfg, Present(entry, clock.created), clock.seen);
    PrunedShows(cfg, Present(entry, clock.created), clock.seen, clock.created);
    RecordedShows(cfg, pruned, clock.stamp, clock.created);
    PrunedShows(cfg, Record(SlidingWindow, cfg, pruned, clock.stamp), clock.gauge, clock.stamp);
    PrunedShows(cfg, pruned, clock.gauge, clock.created);
  }

  lemma StepShows(cfgs: Key -> Config, table: Table, event: Event, key: Key)
    requires event.Monotone() && (key in table ==> Shows(table[key], event.Start()))
    requires key in Step(SlidingWindow, cfgs, State(table, []), event).table
    ensures Shows(Step(SlidingWindow, cfgs, State(table, []), event).table[key], event.End())
  {
    match event {
      case Check(at, clock) =>
        if at == key {
          CheckedShows(cfgs(key), Look(table, key), clock);
        }
      case Tidy(at, seen, aged) =>
        if at == key && key in table {
          PrunedShows(cfgs(key), table[key], seen, seen);
        }
    }
  }

  lemma StepTable(cfgs: Key -> Config, s: State, event: Event)
    ensures Step(SlidingWindow, cfgs, s, event).table == Step(SlidingWindow, cfgs, State(s.table, []), event).table
  {
  }

  /**
   In every run mixing keys and cleanups a window's entry counts the stamps it holds, which are in order,
   and dates from the last of them.
   */
  lemma {:induction false} EntriesShowTheirStamps(cfgs: Key -> Config, events: seq<Event>, key: Key, t: real)
    requires Timed(events) && Over(events, t) && key in Run(SlidingWindow, cfgs, events).table
    ensures Shows(Run(SlidingWindow, cfgs, events).table[key], t)
  {
    if events == [] {
    } else {
      TimedPrefix(events);
      var front, last := events[..|events| - 1], events[|events| - 1];
      var table := Run(SlidingWindow, cfgs, front).table;
      if key in table {
        EntriesShowTheirStamps(cfgs, front, key, last.Start());
      }
      StepTable(cfgs, Run(SlidingWindow, cfgs, front), last);
      StepShows(cfgs, table, last, key);
    }
  }

  // ----- what cleanup does -----

  /**
   Cleanup drops a window's entry exactly if all its stamps are at least a window old and nothing was
   recorded in it, nor it created, for more than two windows; otherwise it keeps exactly the newer stamps.
   */
  lemma WindowTidiedExactly(cfg: Config, e: Entry, seen: real, aged: real)
    ensures var tidied := TidyEntry(SlidingWindow, cfg, e, seen, aged);
      && (tidied.None? <==>
            && (forall i :: 0 <= i < |e.requests| ==> seen - e.requests[i] >= cfg.window as real)
            && aged - e.lastUpdated > 2.0 * cfg.window as real)
      && (tidied.Some? ==>
            && tidied.value.lastUpdated == e.lastUpdated && tidied.value.current == |tidied.value.requests| as real
            && forall stamp :: stamp in tidied.value.requests
                 <==> stamp in e.requests && seen - stamp < cfg.window as real)
  {
    KeptExactly(cfg.Rule(), e.requests, seen);
    assert (cfg.window * 2) as real == 2.0 * cfg.window as real;
    var kept := SlidingLog.Keep(cfg.Rule(), e.requests, seen);
    if kept != [] {
      SlidingLog.KeptIsLiveAndLogged(cfg.Rule(), e.requests, seen);
      var i :| 0 <= i < |e.requests| && e.requests[i] == kept[0];
      assert seen - e.requests[i] < cfg.window as real;
    }
    assert forall i :: 0 <= i < |e.requests| ==> e.requests[i] in e.requests;
  }

  lemma {:induction false} KeptExactly(rule: SlidingLog.Rule, log: seq<real>, now: real)
    ensures forall stamp :: stamp in SlidingLog.Keep(rule, log, now) <==>
      stamp in log && !SlidingLog.Apart(rule, now - stamp)
  {
    if log != [] {
      KeptExactly(rule, log[..|log| - 1], now);
      assert log == log[..|log| - 1] + [log[|log| - 1]];
    }
  }

  /** Cleanup never drops a bucket; it brings the balance up to the instant, at the refill rate and up to the burst. */
  lemma BucketTidiedExactly(cfg: Config, e: Entry, seen: real, aged: real)
    ensures var tidied := TidyEntry(TokenBucket, cfg, e, seen, aged);
      var filled := e.current + (seen - e.lastUpdated) * cfg.refillRate;
      && tidied.Some? && tidied.value.lastUpdated == seen
      && tidied.value.current <= filled && tidied.value.current <= cfg.burst as real
      && tidied.value.current in {filled, cfg.burst as real}
  {
  }

  // ----- whose configuration counts -----

  /** The configuration a limiter holds for a tenant and a resource: the tenant's own where it has one. */
  predicate Configured(limiter: RateLimiter, tenant: string, resource: Resource, cfg: Config) {
    && resource in limiter.defaults
    && if tenant in limiter.tenantConfigs && resource in limiter.tenantConfigs[tenant]
       then limiter.tenantConfigs[tenant][resource] == cfg
       else limiter.defaults[resource] == cfg
  }

  /**
   A limiter's own configurations, and no other, decide in every run: a check passes exactly if fewer than
   the tenant's own limit for the resource were allowed, or the default's where it has none, or the
   limit-th latest of them lies at least that configuration's window back.
   */
  lemma {:induction false} OwnLimitDecides(limiter: RateLimiter, events: seq<Event>, tenant: string,
                                           resource: Resource, cfg: Config, clock: Clock)
    requires Configured(limiter, tenant, resource, cfg) && cfg.limit >= 1
    requires Timed(events) && clock.Monotone() && Over(events, clock.created)
    ensures var stamps := Stamps(SlidingWindow, limiter.ConfigOf, events, (tenant, resource));
      ReplyAt(SlidingWindow, limiter.ConfigOf, events, (tenant, resource), clock).Allowed? <==>
        |stamps| < cfg.limit || clock.seen - stamps[|stamps| - cfg.limit] >= cfg.window as real
  {
    WindowPassesExactly(limiter.ConfigOf, events, (tenant, resource), clock);
  }
}
