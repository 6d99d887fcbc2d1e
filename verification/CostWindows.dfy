/**
 The variable-cost limiter in a configuration's own numbers: requests per window, seconds, and the
 burst multiplier. Nothing here mentions a refill rate; CostGuarantees and CostEvictions are stated
 through one.
 */
module CostWindows {
  import opened Basics
  import opened CostLimiter
  import opened CostRuns
  import opened CostGuarantees
  import opened CostEvictions
  import Bucket

  // ----- what the numbers mean -----

  /** The burst limit is the most whole requests not above the window's requests times the multiplier. */
  lemma BurstIsWholePart(config: Config, n: int)
    requires config.Sane()
    ensures n <= config.BurstLimit() <==> n as real <= config.requestsPerWindow as real * config.burstMultiplier
  {
    assert config.requestsPerWindow as real * config.burstMultiplier >= 0.0 by { SaneParams(config); }
    TruncateTowardZero(config.requestsPerWindow as real * config.burstMultiplier, n);
  }

  /** Any number of windows earns that many times the window's requests. */
  lemma WindowsEarnTheirRequests(config: Config, s: real, windows: int)
    requires config.Sane()
    ensures Bucket.Earned(config.Params(), s, s + (windows * config.windowSeconds) as real)
         == (windows * config.requestsPerWindow) as real
  {
    var length, requests := config.windowSeconds as real, config.requestsPerWindow as real;
    assert (windows * config.windowSeconds) as real == windows as real * length;
    assert (windows * config.requestsPerWindow) as real == windows as real * requests;
    assert windows as real * length * (requests / length) == windows as real * requests;
  }

  /** At the window's requests every window, so many seconds earn the need. */
  predicate Earns(config: Config, seconds: real, need: real) {
    need * config.windowSeconds as real <= config.requestsPerWindow as real * seconds
  }

  /** What an interval earns covers a need exactly when it earns the need's worth of seconds. */
  lemma EarnedCovers(config: Config, since: real, now: real, need: real)
    requires config.Sane()
    ensures Bucket.Earned(config.Params(), since, now) >= need <==> Earns(config, now - since, need)
  {
    RateTimesSeconds(now - since, config.requestsPerWindow as real, config.windowSeconds as real, need);
  }

  lemma RateTimesSeconds(seconds: real, requests: real, length: real, need: real)
    requires length > 0.0
    ensures seconds * (requests / length) >= need <==> need * length <= requests * seconds
  {
    var earned := seconds * (requests / length);
    assert earned * length == requests * seconds;
    assert (earned - need) * length == requests * seconds - need * length;
    if earned >= need {
      assert (earned - need) * length >= 0.0;
    } else {
      assert (need - earned) * length > 0.0;
    }
  }

  lemma WindowEarnsExactly(config: Config, seconds: real)
    requires config.Sane()
    ensures Earns(config, seconds, config.requestsPerWindow as real) <==> seconds >= config.windowSeconds as real
  {
    var length, requests := config.windowSeconds as real, config.requestsPerWindow as real;
    assert requests * seconds - requests * length == requests * (seconds - length);
    if seconds >= length {
      assert requests * (seconds - length) >= 0.0;
    } else {
      assert requests * (length - seconds) > 0.0;
    }
  }

  // ----- what is admitted -----

  lemma AvailableCovers(config: Config, s: Status, cost: real, now: real)
    requires config.Sane() && s.config == config
    ensures Tokens(s, now) >= cost
       <==> cost <= config.BurstLimit() as real && Earns(config, now - s.lastRefill, cost - s.tokens)
  {
    EarnedCovers(config, s.lastRefill, now, cost - s.tokens);
  }

  lemma JudgedBySeconds(config: Config, status: Option<Status>, ask: Ask)
    requires config.Sane() && ask.Proper() && Tidy(config, status, ask.created)
    ensures VerdictOn(config, status, ask).Allowed? <==>
      && ask.cost <= config.BurstLimit() as real
      && (status.Some? ==> Earns(config, ask.now - status.value.lastRefill, ask.cost - status.value.tokens))
    ensures VerdictOn(config, status, ask) != ZeroDivision
  {
    if status.None? {
      FullBalance(config, Full(config, ask.created).Level(), ask.now);
    } else {
      AvailableCovers(config, status.value, ask.cost, ask.now);
    }
  }

  /**
   In every run, evictions and all, a check is admitted exactly when its cost is at most the burst limit
   and what it costs beyond the stored tokens has been earned since they were stored, at the window's
   requests every window; for a key that is not tracked the burst limit alone decides.
   */
  lemma AdmittedExactly(cfgs: string -> Config, events: seq<Event>, key: Key, ask: Ask)
    requires Timed(events) && Over(events, ask.created) && ask.Proper() && cfgs(key.0).Sane()
    ensures var config, status := cfgs(key.0), Look(Run(cfgs, events).table, key);
      ReplyAt(cfgs, events, key, ask).Allowed? <==>
        && ask.cost <= config.BurstLimit() as real
        && (status.Some? ==> Earns(config, ask.now - status.value.lastRefill, ask.cost - status.value.tokens))
    ensures ReplyAt(cfgs, events, key, ask) != ZeroDivision
  {
    EntriesStayTidy(cfgs, events, key, ask.created);
    JudgedBySeconds(cfgs(key.0), Look(Run(cfgs, events).table, key), ask);
  }

  /**
   A bucket spent to the last token covers a cost up to the burst limit exactly once that cost's share of
   a window has passed, and the window's own requests exactly a window later.
   */
  lemma SpentBucketEarnsBack(cfgs: string -> Config, events: seq<Event>, key: Key, ask: Ask)
    requires Timed(events) && Over(events, ask.created) && ask.Proper() && cfgs(key.0).Sane()
    requires key in Run(cfgs, events).table && Run(cfgs, events).table[key].tokens == 0.0
    requires ask.cost <= cfgs(key.0).BurstLimit() as real
    ensures var config, passed := cfgs(key.0), ask.now - Run(cfgs, events).table[key].lastRefill;
      && (ReplyAt(cfgs, events, key, ask).Allowed? <==> Earns(config, passed, ask.cost))
      && (ask.cost == config.requestsPerWindow as real ==>
            (ReplyAt(cfgs, events, key, ask).Allowed? <==> passed >= config.windowSeconds as real))
  {
    AdmittedExactly(cfgs, events, key, ask);
    WindowEarnsExactly(cfgs(key.0), ask.now - Run(cfgs, events).table[key].lastRefill);
  }

  /**
   Any stretch of so many windows admits at most the burst limit and so many times the window's requests,
   when nothing is evicted or evictions go unnoticed.
   */
  lemma EveryWindowWithinBudget(cfgs: string -> Config, events: seq<Event>, key: Key, t: real, s: real, windows: nat)
    requires Timed(events) && Over(events, t) && cfgs(key.0).Sane()
    requires Lasting(cfgs(key.0)) || NoSweeps(events)
    ensures var config := cfgs(key.0);
      Bucket.CostBetween(GrantsOf(cfgs, events, key), s, s + (windows * config.windowSeconds) as real)
        <= (config.BurstLimit() + windows * config.requestsPerWindow) as real
  {
    var config := cfgs(key.0);
    assert windows * config.windowSeconds >= 0;
    EveryIntervalWithinBudget(cfgs, events, key, t, s, s + (windows * config.windowSeconds) as real);
    WindowsEarnTheirRequests(config, s, windows);
  }

  /** When a division by zero answers a check instead: no window at all, or a shortage that nothing ever refills. */
  lemma ZeroDivisionExactly(config: Config, s: Status, cost: real, now: real)
    requires s.config == config
    ensures Judge(s, cost, now) == ZeroDivision <==>
      config.windowSeconds == 0 || (config.requestsPerWindow == 0 && cost > Bucket.Min(0.0, s.tokens))
  {
    if config.windowSeconds != 0 && config.requestsPerWindow == 0 {
      assert config.requestsPerWindow as real * config.burstMultiplier == 0.0;
      assert config.Rate() == 0.0;
      assert Bucket.Earned(config.Params(), s.lastRefill, now) == 0.0;
    }
  }

  // ----- what a day is -----

  /** A sweep drops exactly the entries last written more than twenty-four hours ago, and changes none. */
  lemma SweepDropsExactly(table: Table, now: real, key: Key)
    ensures key in Evict(table, now) <==> key in table && now - table[key].lastRefill <= 24.0 * 60.0 * 60.0
    ensures key in Evict(table, now) ==> Evict(table, now)[key] == table[key]
  {
  }

  /**
   Sweeps change no reply in any run, and the budget of an interval holds in every run with sweeps,
   exactly when the burst limit times the window's seconds is at most the day's seconds times its requests.
   */
  lemma SweepsMatterExactly(config: Config)
    requires config.Sane()
    ensures EvictionUnnoticed(config) <==>
      config.BurstLimit() * config.windowSeconds <= 86400 * config.requestsPerWindow
    ensures BudgetHolds(config) <==>
      config.BurstLimit() * config.windowSeconds <= 86400 * config.requestsPerWindow
  {
    DayEarnsExactly(config);
    EvictionUnnoticedExactly(config);
    BudgetHoldsExactly(config);
  }

  lemma DayEarnsExactly(config: Config)
    requires config.Sane()
    ensures config.BurstLimit() as real <= DAY * config.Rate()
       <==> config.BurstLimit() * config.windowSeconds <= 86400 * config.requestsPerWindow
  {
    EarnedCovers(config, 0.0, DAY, config.BurstLimit() as real);
    var burst, length, requests := config.BurstLimit(), config.windowSeconds, config.requestsPerWindow;
    assert (burst * length) as real == burst as real * length as real;
    assert (86400 * requests) as real == requests as real * 86400.0;
  }
}
