/**
 What a tenant is promised, for one (tenant, resource) key inside any run that mixes keys and
 cleanup passes: the window limit, optimality, the bucket's interval bound, and exact retry hints.
 Each is stated about the stamps the run itself recorded for the key.
 */
module UsageGuarantees {
  import opened Basics
  import opened Usage
  import opened UsageRuns
  import SlidingLog
  import Bucket

  /** The recorded instants of the allowed checks. */
  function StampsOf(clocks: seq<Clock>, answers: seq<Answer>): seq<real>
    requires |clocks| == |answers|
  {
    if clocks == [] then []
    else
      var n := |clocks| - 1;
      var stamps := StampsOf(clocks[..n], answers[..n]);
      if answers[n].Allowed? then stamps + [clocks[n].stamp] else stamps
  }

  /** The instants at which a run allowed a check on the key. */
  function Stamps(strategy: Strategy, cfgs: Key -> Config, events: seq<Event>, key: Key): seq<real> {
    var clocks, answers := ClocksAt(events, key), AnswersAt(Run(strategy, cfgs, events).replies, key);
    if |clocks| == |answers| then StampsOf(clocks, answers) else []
  }

  /** What a check on the key would be told right after the run. */
  function ReplyAt(strategy: Strategy, cfgs: Key -> Config, events: seq<Event>, key: Key, clock: Clock): Answer {
    CheckReply(strategy, cfgs(key), Look(Run(strategy, cfgs, events).table, key), clock)
  }

  function KeyStamps(strategy: Strategy, cfg: Config, clocks: seq<Clock>): seq<real> {
    StampsOf(clocks, KeyRun(strategy, cfg, clocks).answers)
  }

  lemma KeyStampsAppend(strategy: Strategy, cfg: Config, clocks: seq<Clock>, clock: Clock)
    ensures var stamps := KeyStamps(strategy, cfg, clocks);
      var reply := CheckReply(strategy, cfg, KeyRun(strategy, cfg, clocks).entry, clock);
      KeyStamps(strategy, cfg, clocks + [clock]) == if reply.Allowed? then stamps + [clock.stamp] else stamps
  {
    KeyRunAppend(strategy, cfg, clocks, clock);
    var answers := KeyRun(strategy, cfg, clocks).answers;
    assert (clocks + [clock])[..|clocks|] == clocks;
    assert KeyRun(strategy, cfg, clocks + [clock]).answers[..|clocks|] == answers;
  }

  lemma StampsAreKeyStamps(strategy: Strategy, cfgs: Key -> Config, events: seq<Event>, key: Key, t: real)
    requires Timed(events) && Sane(strategy, cfgs(key)) && Over(events, t)
    ensures Stamps(strategy, cfgs, events, key) == KeyStamps(strategy, cfgs(key), ClocksAt(events, key))
  {
    TableFollowsKeys(strategy, cfgs, events, key, t);
  }

  ghost predicate TimedClocks(clocks: seq<Clock>) {
    && (forall i :: 0 <= i < |clocks| ==> clocks[i].Monotone())
    && (forall i, j :: 0 <= i < j < |clocks| ==> clocks[i].gauge <= clocks[j].created)
  }

  lemma {:induction false} ClocksAtTimed(events: seq<Event>, key: Key, t: real)
    requires Timed(events) && Over(events, t)
    ensures TimedClocks(ClocksAt(events, key))
    ensures forall i :: 0 <= i < |ClocksAt(events, key)| ==> ClocksAt(events, key)[i].gauge <= t
  {
    if events != [] {
      TimedPrefix(events);
      ClocksAtTimed(events[..|events| - 1], key, events[|events| - 1].Start());
    }
  }

  // ----- sliding window -----

  function Asks(clocks: seq<Clock>): (asks: seq<SlidingLog.Ask>)
    ensures |asks| == |clocks|
    ensures forall i :: 0 <= i < |asks| ==> asks[i] == SlidingLog.Ask(clocks[i].seen, clocks[i].stamp)
  {
    seq(|clocks|, i requires 0 <= i < |clocks| => SlidingLog.Ask(clocks[i].seen, clocks[i].stamp))
  }

  /** The pruned log answers as the unpruned history would, and records exactly what it admits. */
  lemma {:induction false} LogFollowsHistory(cfg: Config, clocks: seq<Clock>, t: real)
    requires TimedClocks(clocks)
    requires forall i :: 0 <= i < |clocks| ==> clocks[i].gauge <= t
    ensures KeyStamps(SlidingWindow, cfg, clocks) == SlidingLog.Admitted(cfg.Rule(), Asks(clocks))
    ensures SlidingLog.Keep(cfg.Rule(), Log(KeyRun(SlidingWindow, cfg, clocks).entry), t)
         == SlidingLog.Keep(cfg.Rule(), KeyStamps(SlidingWindow, cfg, clocks), t)
  {
    if clocks != [] {
      var n := |clocks| - 1;
      var front, last := clocks[..n], clocks[n];
      assert clocks == front + [last] && Asks(clocks)[..n] == Asks(front);
      LogFollowsHistory(cfg, front, last.created);
      LogStep(cfg, KeyRun(SlidingWindow, cfg, front).entry, KeyStamps(SlidingWindow, cfg, front), last, t);
      KeyStampsAppend(SlidingWindow, cfg, front, last);
      KeyRunAppend(SlidingWindow, cfg, front, last);
    }
  }

  lemma LogStep(cfg: Config, entry: Option<Entry>, history: seq<real>, clock: Clock, t: real)
    requires clock.Monotone() && clock.gauge <= t
    requires SlidingLog.Keep(cfg.Rule(), Log(entry), clock.created) ==
        SlidingLog.Keep(cfg.Rule(), history, clock.created)
    ensures CheckReply(SlidingWindow, cfg, entry, clock).Allowed? <==>
        SlidingLog.Admits(cfg.Rule(), history, clock.seen)
    ensures var history' :=
        if CheckReply(SlidingWindow, cfg, entry, clock).Allowed? then history + [clock.stamp] else history;
      SlidingLog.Keep(cfg.Rule(), CheckEntry(SlidingWindow, cfg, entry, clock).requests, t)
        == SlidingLog.Keep(cfg.Rule(), history', t)
  {
    var rule := cfg.Rule();
    SlidingLog.KeepComposes(rule, Log(entry), clock.created, clock.seen);
    SlidingLog.KeepComposes(rule, history, clock.created, clock.seen);
    var live := SlidingLog.Keep(rule, history, clock.seen);
    SlidingLog.KeepComposes(rule, history, clock.seen, t);
    SlidingLog.KeepAppend(rule, live, clock.stamp, t);
    SlidingLog.KeepAppend(rule, history, clock.stamp, t);
    SlidingLog.KeepComposes(rule, live, clock.gauge, t);
    SlidingLog.KeepComposes(rule, live + [clock.stamp], clock.gauge, t);
  }

  lemma AsksTimed(clocks: seq<Clock>)
    requires TimedClocks(clocks)
    ensures SlidingLog.Timed(Asks(clocks))
  {
    forall i, j | 0 <= i < j < |clocks| ensures Asks(clocks)[i].stamp <= Asks(clocks)[j].seen {
      assert clocks[i].Monotone() && clocks[j].Monotone() && clocks[i].gauge <= clocks[j].created;
    }
  }

  /** In every run and for every key, no window of the key's allowed stamps exceeds its limit. */
  lemma EveryWindowWithinLimit(cfgs: Key -> Config, events: seq<Event>, key: Key, t: real)
    requires Timed(events) && Over(events, t)
    ensures SlidingLog.WithinLimit(cfgs(key).Rule(), Stamps(SlidingWindow, cfgs, events, key))
  {
    var clocks := ClocksAt(events, key);
    ClocksAtTimed(events, key, t);
    StampsAreKeyStamps(SlidingWindow, cfgs, events, key, t);
    LogFollowsHistory(cfgs(key), clocks, t);
    AsksTimed(clocks);
    SlidingLog.AdmittedWithinLimit(cfgs(key).Rule(), Asks(clocks));
  }

  function Arrivals(clocks: seq<Clock>): seq<real> {
    seq(|clocks|, i requires 0 <= i < |clocks| => clocks[i].seen)
  }

  /**
   When each check reads the clock once, no subset of the key's arrivals that respects the limit is
   ever larger than, or at any point ahead of, what the run allowed.
   */
  lemma RunAdmitsOptimally(cfgs: Key -> Config, events: seq<Event>, key: Key, t: real, choice: seq<bool>)
    requires Timed(events) && Over(events, t) && cfgs(key).limit >= 1
    requires forall i :: 0 <= i < |ClocksAt(events, key)| ==>
        ClocksAt(events, key)[i].seen == ClocksAt(events, key)[i].stamp
    requires |choice| == |ClocksAt(events, key)|
    requires SlidingLog.WithinLimit(cfgs(key).Rule(), SlidingLog.Select(Arrivals(ClocksAt(events, key)), choice))
    ensures SlidingLog.NeverBehind(Stamps(SlidingWindow, cfgs, events, key),
                                   SlidingLog.Select(Arrivals(ClocksAt(events, key)), choice))
  {
    var clocks := ClocksAt(events, key);
    ClocksAtTimed(events, key, t);
    StampsAreKeyStamps(SlidingWindow, cfgs, events, key, t);
    LogFollowsHistory(cfgs(key), clocks, t);
    AsksTimed(clocks);
    assert Asks(clocks) == SlidingLog.Instants(Arrivals(clocks));
    forall i, j | 0 <= i < j < |clocks| ensures Arrivals(clocks)[i] <= Arrivals(clocks)[j] {
      assert Asks(clocks)[i].stamp <= Asks(clocks)[j].seen;
    }
    SlidingLog.AdmissionIsOptimal(cfgs(key).Rule(), Arrivals(clocks), choice);
  }

  lemma WindowReplyReadsLiveStamps(cfg: Config, entry: Option<Entry>, clock: Clock, live: seq<real>)
    requires live == SlidingLog.Keep(cfg.Rule(), Log(entry), clock.seen)
    ensures CheckReply(SlidingWindow, cfg, entry, clock)
         == Usage.Reply(SlidingWindow, cfg, Entry(0.0, 0.0, live), clock.now, clock.seen)
  {
    assert Pruned(SlidingWindow, cfg, Present(entry, clock.created), clock.seen).requests == live;
  }

  lemma LiveStamps(cfg: Config, clocks: seq<Clock>, created: real, seen: real)
    requires TimedClocks(clocks) && created <= seen
    requires forall i :: 0 <= i < |clocks| ==> clocks[i].gauge <= created
    ensures SlidingLog.Keep(cfg.Rule(), Log(KeyRun(SlidingWindow, cfg, clocks).entry), seen)
         == SlidingLog.Keep(cfg.Rule(), KeyStamps(SlidingWindow, cfg, clocks), seen)
  {
    LogFollowsHistory(cfg, clocks, created);
    SlidingLog.KeepComposes(cfg.Rule(), Log(KeyRun(SlidingWindow, cfg, clocks).entry), created, seen);
    SlidingLog.KeepComposes(cfg.Rule(), KeyStamps(SlidingWindow, cfg, clocks), created, seen);
  }

  /** The reply to a check is a function of the key's allowed stamps alone. */
  lemma WindowReplyFromStamps(cfgs: Key -> Config, events: seq<Event>, key: Key, clock: Clock)
    requires Timed(events) && clock.Monotone() && Over(events, clock.created)
    ensures var live := SlidingLog.Keep(cfgs(key).Rule(), Stamps(SlidingWindow, cfgs, events, key), clock.seen);
      ReplyAt(SlidingWindow, cfgs, events, key, clock)
        == Usage.Reply(SlidingWindow, cfgs(key), Entry(0.0, 0.0, live), clock.now, clock.seen)
  {
    ReplyFollowsKey(SlidingWindow, cfgs, events, key, clock);
    ClocksAtTimed(events, key, clock.created);
    StampsAreKeyStamps(SlidingWindow, cfgs, events, key, clock.created);
    LiveStamps(cfgs(key), ClocksAt(events, key), clock.created, clock.seen);
    WindowReplyReadsLiveStamps(cfgs(key), KeyRun(SlidingWindow, cfgs(key), ClocksAt(events, key)).entry, clock,
      SlidingLog.Keep(cfgs(key).Rule(), Stamps(SlidingWindow, cfgs, events, key), clock.seen));
  }

  /**
   The window's retry hint is exact: as long as nothing more is allowed on the key, whatever else
   happens, a later check succeeds exactly when it decides at or after the hinted instant.
   */
  lemma WindowHintIsExact(cfgs: Key -> Config, events: seq<Event>, key: Key, clock: Clock, between: seq<Event>,
                          later: Clock)
    requires cfgs(key).limit >= 1
    requires Timed(events) && clock.Monotone() && Over(events, clock.created)
    requires ReplyAt(SlidingWindow, cfgs, events, key, clock).Refused?
    requires var upTo := events + [Check(key, clock)] + between;
      && Timed(upTo) && later.Monotone() && Over(upTo, later.created)
      && Stamps(SlidingWindow, cfgs, upTo, key) == Stamps(SlidingWindow, cfgs, events, key)
    ensures var due := clock.now + ReplyAt(SlidingWindow, cfgs, events, key, clock).retryAfter;
      var upTo := events + [Check(key, clock)] + between;
      ReplyAt(SlidingWindow, cfgs, upTo, key, later).Allowed? <==> later.seen >= due
  {
    var upTo := events + [Check(key, clock)] + between;
    var cfg, rule, clocks := cfgs(key), cfgs(key).Rule(), ClocksAt(events, key);
    WindowReplyFromStamps(cfgs, events, key, clock);
    WindowReplyFromStamps(cfgs, upTo, key, later);
    assert upTo[|events|] == Check(key, clock);
    assert clock.gauge <= later.created;
    ClocksAtTimed(events, key, clock.created);
    StampsAreKeyStamps(SlidingWindow, cfgs, events, key, clock.created);
    LogFollowsHistory(cfg, clocks, clock.created);
    AsksTimed(clocks);
    SlidingLog.OldestStampDecidesRetry(rule, Asks(clocks), clock.seen, later.seen);
  }

  // ----- token bucket -----

  function Grants(stamps: seq<real>): (grants: seq<Bucket.Grant>)
    ensures |grants| == |stamps|
    ensures forall i :: 0 <= i < |grants| ==> grants[i] == Bucket.Grant(stamps[i], 1.0)
  {
    seq(|stamps|, i requires 0 <= i < |stamps| => Bucket.Grant(stamps[i], 1.0))
  }

  /** A bucket is created empty by the first check made on it. */
  function Start(clocks: seq<Clock>): Bucket.Level
    requires clocks != []
  {
    Bucket.Level(0.0, clocks[0].created)
  }

  /** The balance `entry` holds is the replay of unit grants at `stamps`, each of which was covered. */
  ghost predicate Replays(cfg: Config, entry: Option<Entry>, start: Bucket.Level, stamps: seq<real>, t: real) {
    && entry.Some?
    && entry.value.Level() == Bucket.Replay(cfg.Params(), start, Grants(stamps))
    && Bucket.Affordable(cfg.Params(), start, Grants(stamps))
    && Bucket.Chronological(start, Grants(stamps))
    && start.at <= t && SlidingLog.NotAfter(stamps, t)
  }

  lemma BalanceStep(cfg: Config, e: Entry, start: Bucket.Level, stamps: seq<real>, clock: Clock)
    requires Sane(TokenBucket, cfg) && clock.Monotone() && Replays(cfg, Some(e), start, stamps, clock.seen)
    requires Bucket.Available(cfg.Params(), e.Level(), clock.seen) >= 1.0
    ensures Replays(cfg, Some(Record(TokenBucket, cfg, e, clock.stamp)), start, stamps + [clock.stamp], clock.gauge)
  {
    var grants := Grants(stamps + [clock.stamp]);
    assert grants[..|stamps|] == Grants(stamps);
    Bucket.AvailableGrows(cfg.Params(), e.Level(), clock.seen, clock.stamp);
  }

  lemma BalanceCheck(cfg: Config, entry: Option<Entry>, start: Bucket.Level, stamps: seq<real>, clock: Clock, t: real)
    requires Sane(TokenBucket, cfg) && clock.Monotone() && clock.gauge <= t
    requires Replays(cfg, Some(Present(entry, clock.created)), start, stamps, clock.created)
    ensures var stamps' :=
        if CheckReply(TokenBucket, cfg, entry, clock).Allowed? then stamps + [clock.stamp] else stamps;
      Replays(cfg, Some(CheckEntry(TokenBucket, cfg, entry, clock)), start, stamps', t)
  {
    if CheckReply(TokenBucket, cfg, entry, clock).Allowed? {
      BalanceStep(cfg, Present(entry, clock.created), start, stamps, clock);
    }
  }

  lemma {:induction false} BalanceFollowsGrants(cfg: Config, clocks: seq<Clock>, t: real)
    requires TimedClocks(clocks) && Sane(TokenBucket, cfg)
    requires forall i :: 0 <= i < |clocks| ==> clocks[i].gauge <= t
    ensures clocks == [] ==> KeyStamps(TokenBucket, cfg, clocks) == []
    ensures clocks != [] ==>
      Replays(cfg, KeyRun(TokenBucket, cfg, clocks).entry, Start(clocks), KeyStamps(TokenBucket, cfg, clocks), t)
  {
    if clocks != [] {
      var n := |clocks| - 1;
      var front, last := clocks[..n], clocks[n];
      assert clocks == front + [last];
      BalanceFollowsGrants(cfg, front, last.created);
      KeyRunAppend(TokenBucket, cfg, front, last);
      KeyStampsAppend(TokenBucket, cfg, front, last);
      BalanceCheck(cfg, KeyRun(TokenBucket, cfg, front).entry, Start(clocks),
                   KeyStamps(TokenBucket, cfg, front), last, t);
    }
  }

  lemma {:induction false} KeyIntervalWithinBudget(cfg: Config, clocks: seq<Clock>, t: real, s: real, u: real)
    requires TimedClocks(clocks) && Sane(TokenBucket, cfg) && cfg.burst >= 0 && s <= u
    requires forall i :: 0 <= i < |clocks| ==> clocks[i].gauge <= t
    ensures Bucket.CostBetween(Grants(KeyStamps(TokenBucket, cfg, clocks)), s, u)
         <= cfg.burst as real + Bucket.Earned(cfg.Params(), s, u)
  {
    BalanceFollowsGrants(cfg, clocks, t);
    if clocks == [] {
      Bucket.EarnedGrows(cfg.Params(), s, s, u, u);
    } else {
      Bucket.IntervalBound(cfg.Params(), Start(clocks), Grants(KeyStamps(TokenBucket, cfg, clocks)), s, u);
    }
  }

  lemma {:induction false} StampsWithinBudget(cfgs: Key -> Config, events: seq<Event>, key: Key, t: real,
                                              s: real, u: real)
    requires Timed(events) && Sane(TokenBucket, cfgs(key)) && Over(events, t) && cfgs(key).burst >= 0 && s <= u
    ensures Bucket.CostBetween(Grants(Stamps(TokenBucket, cfgs, events, key)), s, u)
         <= cfgs(key).burst as real + Bucket.Earned(cfgs(key).Params(), s, u)
  {
    assert TimedClocks(ClocksAt(events, key)) by { ClocksAtTimed(events, key, t); }
    StampsAreKeyStamps(TokenBucket, cfgs, events, key, t);
    ClocksAtTimed(events, key, t);
    KeyIntervalWithinBudget(cfgs(key), ClocksAt(events, key), t, s, u);
  }

  lemma EarnedInSeconds(cfg: Config, s: real, u: real)
    ensures Bucket.Earned(cfg.Params(), s, u) == (u - s) * cfg.refillRate
  {
  }

  /** In every run and for every key, any interval [s, u] grants at most burst plus what it refills. */
  lemma {:induction false} EveryIntervalWithinBudget(cfgs: Key -> Config, events: seq<Event>, key: Key, t: real,
                                                     s: real, u: real)
    requires Timed(events) && Sane(TokenBucket, cfgs(key)) && Over(events, t) && cfgs(key).burst >= 0 && s <= u
    ensures Bucket.CostBetween(Grants(Stamps(TokenBucket, cfgs, events, key)), s, u)
         <= cfgs(key).burst as real + (u - s) * cfgs(key).refillRate
  {
    StampsWithinBudget(cfgs, events, key, t, s, u);
    EarnedInSeconds(cfgs(key), s, u);
  }

  /** When the bucket a check sees was created: by the key's first check, which may be this one. */
  function StartFor(clocks: seq<Clock>, clock: Clock): Bucket.Level {
    if clocks == [] then Bucket.Level(0.0, clock.created) else Start(clocks)
  }

  /** The balance of the key, replayed from its grants. */
  function LevelAt(cfgs: Key -> Config, events: seq<Event>, key: Key, clock: Clock): Bucket.Level {
    Bucket.Replay(cfgs(key).Params(), StartFor(ClocksAt(events, key), clock),
                  Grants(Stamps(TokenBucket, cfgs, events, key)))
  }

  /** The reply to a check is a function of when the key was first checked and of its grants. */
  lemma BucketReplyFromGrants(cfgs: Key -> Config, events: seq<Event>, key: Key, clock: Clock)
    requires Timed(events) && Sane(TokenBucket, cfgs(key)) && clock.Monotone() && Over(events, clock.created)
    ensures var level := LevelAt(cfgs, events, key, clock);
      ReplyAt(TokenBucket, cfgs, events, key, clock)
        == Usage.Reply(TokenBucket, cfgs(key), Entry(level.tokens, level.at, []), clock.now, clock.seen)
  {
    var clocks := ClocksAt(events, key);
    ReplyFollowsKey(TokenBucket, cfgs, events, key, clock);
    ClocksAtTimed(events, key, clock.created);
    StampsAreKeyStamps(TokenBucket, cfgs, events, key, clock.created);
    BalanceFollowsGrants(cfgs(key), clocks, clock.created);
  }

  lemma RefusedBucketRetry(cfg: Config, level: Bucket.Level, clock: Clock, later: Clock)
    requires cfg.refillRate > 0.0 && cfg.burst >= 1 && clock.seen <= later.seen
    requires Usage.Reply(TokenBucket, cfg, Entry(level.tokens, level.at, []), clock.now, clock.seen).Refused?
    ensures var e := Entry(level.tokens, level.at, []);
      var due := clock.seen + Usage.Reply(TokenBucket, cfg, e, clock.now, clock.seen).retryAfter;
      Usage.Reply(TokenBucket, cfg, e, later.now, later.seen).Allowed? <==> later.seen >= due
  {
    Bucket.FirstAffordableInstant(cfg.Params(), level, 1.0, clock.seen, later.seen);
  }

  /** The bucket's retry hint is exact under the same conditions. */
  lemma BucketHintIsExact(cfgs: Key -> Config, events: seq<Event>, key: Key, clock: Clock, between: seq<Event>,
                          later: Clock)
    requires cfgs(key).refillRate > 0.0 && cfgs(key).burst >= 1
    requires Timed(events) && clock.Monotone() && Over(events, clock.created)
    requires ReplyAt(TokenBucket, cfgs, events, key, clock).Refused?
    requires var upTo := events + [Check(key, clock)] + between;
      && Timed(upTo) && later.Monotone() && Over(upTo, later.created)
      && Stamps(TokenBucket, cfgs, upTo, key) == Stamps(TokenBucket, cfgs, events, key)
    ensures var due := clock.seen + ReplyAt(TokenBucket, cfgs, events, key, clock).retryAfter;
      var upTo := events + [Check(key, clock)] + between;
      ReplyAt(TokenBucket, cfgs, upTo, key, later).Allowed? <==> later.seen >= due
  {
    var upTo := events + [Check(key, clock)] + between;
    assert clock.gauge <= later.created by { assert upTo[|events|] == Check(key, clock); }
    assert LevelAt(cfgs, upTo, key, later) == LevelAt(cfgs, events, key, clock) by {
      FirstClockStays(events + [Check(key, clock)], between, key);
      assert (events + [Check(key, clock)])[..|events|] == events;
    }
    assert ReplyAt(TokenBucket, cfgs, upTo, key, later)
        == Usage.Reply(TokenBucket, cfgs(key),
            Entry(LevelAt(cfgs, events, key, clock).tokens, LevelAt(cfgs, events, key, clock).at, []),
            later.now, later.seen) by {
      BucketReplyFromGrants(cfgs, upTo, key, later);
    }
    BucketReplyFromGrants(cfgs, events, key, clock);
    RefusedBucketRetry(cfgs(key), LevelAt(cfgs, events, key, clock), clock, later);
  }

  lemma {:induction false} FirstClockStays(events: seq<Event>, more: seq<Event>, key: Key)
    ensures ClocksAt(events, key) <= ClocksAt(events + more, key)
  {
    if more == [] {
      assert events + more == events;
    } else {
      var n := |more| - 1;
      FirstClockStays(events, more[..n], key);
      assert (events + more)[..|events| + n] == events + more[..n];
    }
  }
}
