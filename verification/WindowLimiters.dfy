/**
 The three small sliding windows of the repository: the monitoring server's closed window, the
 gateway's registration window, and the authentication service's window over whole seconds. Each
 keeps one list of stamps per caller, pruned and extended by every check.
 */
module WindowLimiters {
  import opened SlidingLog

  datatype Log = Log(stamps: seq<real>, answers: seq<bool>)

  /** One check on a list of stamps: prune, compare, record. */
  function Check(rule: Rule, stamps: seq<real>, now: real): (r: (seq<real>, bool)) {
    var kept := Keep(rule, stamps, now);
    if |kept| >= rule.limit then (kept, false) else (kept + [now], true)
  }

  /** Everything one caller's checks leave behind, starting from no stamps. */
  function Drive(rule: Rule, arrivals: seq<real>): (log: Log)
    ensures |log.answers| == |arrivals|
  {
    if arrivals == [] then Log([], [])
    else
      var log := Drive(rule, arrivals[..|arrivals| - 1]);
      var (stamps, ok) := Check(rule, log.stamps, arrivals[|arrivals| - 1]);
      Log(stamps, log.answers + [ok])
  }

  lemma CheckFollowsHistory(rule: Rule, stamps: seq<real>, history: seq<real>, now: real, t: real)
    requires Keep(rule, stamps, now) == Keep(rule, history, now) && now <= t
    ensures var (stamps', ok) := Check(rule, stamps, now);
      && ok == Admits(rule, history, now)
      && Keep(rule, stamps', t) == Keep(rule, if ok then history + [now] else history, t)
  {
    var kept := Keep(rule, stamps, now);
    KeepComposes(rule, history, now, t);
    KeepAppend(rule, kept, now, t);
    KeepAppend(rule, history, now, t);
  }

  /** The pruned list gives the answers, and keeps the live stamps, of the unpruned history. */
  lemma {:induction false} DriveFollowsHistory(rule: Rule, arrivals: seq<real>, t: real)
    requires Ordered(arrivals) && NotAfter(arrivals, t)
    ensures Drive(rule, arrivals).answers == Answers(rule, arrivals)
    ensures Keep(rule, Drive(rule, arrivals).stamps, t) == Keep(rule, Admitted(rule, Instants(arrivals)), t)
  {
    if arrivals != [] {
      var n := |arrivals| - 1;
      var front, now := arrivals[..n], arrivals[n];
      assert arrivals == front + [now];
      assert NotAfter(front, now);
      DriveFollowsHistory(rule, front, now);
      AdmittedStep(rule, front, now);
      CheckFollowsHistory(rule, Drive(rule, front).stamps, Admitted(rule, Instants(front)), now, t);
    }
  }

  /**
   What each of the three windows promises, whatever its boundary convention: no window of admitted
   instants exceeds the limit, and no rival choice of arrivals that respects the limit is ever ahead.
   */
  lemma WindowPromise(rule: Rule, arrivals: seq<real>, choice: seq<bool>)
    requires Ordered(arrivals) && |choice| == |arrivals| && rule.limit >= 1
    requires WithinLimit(rule, Select(arrivals, choice))
    ensures WithinLimit(rule, Select(arrivals, Drive(rule, arrivals).answers))
    ensures NeverBehind(Select(arrivals, Drive(rule, arrivals).answers), Select(arrivals, choice))
  {
    DriveFollowsHistory(rule, arrivals, if arrivals == [] then 0.0 else arrivals[|arrivals| - 1]);
    AdmittedWithinLimit(rule, Instants(arrivals));
    AdmissionIsOptimal(rule, arrivals, choice);
  }

  // ----- many callers -----

  type Table = map<string, seq<real>>

  datatype Visit = Visit(caller: string, now: real)

  function StampsAt(table: Table, caller: string): seq<real> {
    if caller in table then table[caller] else []
  }

  datatype State = State(table: Table, answers: seq<bool>)

  /** A run over all callers, each under its own rule. */
  function Serve(rules: string -> Rule, visits: seq<Visit>): (s: State)
    ensures |s.answers| == |visits|
  {
    if visits == [] then State(map[], [])
    else
      var s, visit := Serve(rules, visits[..|visits| - 1]), visits[|visits| - 1];
      var (stamps, ok) := Check(rules(visit.caller), StampsAt(s.table, visit.caller), visit.now);
      State(s.table[visit.caller := stamps], s.answers + [ok])
  }

  function ArrivalsOf(visits: seq<Visit>, caller: string): seq<real> {
    if visits == [] then []
    else
      var rest, visit := ArrivalsOf(visits[..|visits| - 1], caller), visits[|visits| - 1];
      if visit.caller == caller then rest + [visit.now] else rest
  }

  function AnswersOf(visits: seq<Visit>, answers: seq<bool>, caller: string): (r: seq<bool>)
    requires |visits| == |answers|
    ensures |r| == |ArrivalsOf(visits, caller)|
  {
    if visits == [] then []
    else
      var n := |visits| - 1;
      var rest := AnswersOf(visits[..n], answers[..n], caller);
      if visits[n].caller == caller then rest + [answers[n]] else rest
  }

  /** No caller's stamps or answers depend on any other caller. */
  lemma {:induction false} CallersAreIndependent(rules: string -> Rule, visits: seq<Visit>, caller: string)
    ensures StampsAt(Serve(rules, visits).table, caller) == Drive(rules(caller), ArrivalsOf(visits, caller)).stamps
    ensures AnswersOf(visits, Serve(rules, visits).answers, caller)
         == Drive(rules(caller), ArrivalsOf(visits, caller)).answers
  {
    if visits != [] {
      var n := |visits| - 1;
      var front, visit := visits[..n], visits[n];
      CallersAreIndependent(rules, front, caller);
      assert Serve(rules, visits).answers[..n] == Serve(rules, front).answers;
      if visit.caller == caller {
        var arrivals := ArrivalsOf(front, caller) + [visit.now];
        assert arrivals[..|arrivals| - 1] == ArrivalsOf(front, caller);
      }
    }
  }

  // ----- the three limiters -----

  /** server.py: a stamp exactly one window old still counts. */
  class MonitorLimiter {
    const limits: map<string, int>
    const defaultLimit: int
    var stamps: Table

    constructor (limits: map<string, int>, defaultLimit: int)
      ensures this.limits == limits && this.defaultLimit == defaultLimit && stamps == map[]
    {
      this.limits, this.defaultLimit, stamps := limits, defaultLimit, map[];
    }

    function RuleFor(tenant: string, windowSeconds: int): Rule {
      Rule(if tenant in limits then limits[tenant] else defaultLimit, windowSeconds as real, Closed)
    }

    method CheckRateLimit(tenant: string, windowSeconds: int, now: real) returns (ok: bool)
      modifies `stamps
      ensures var r := Check(RuleFor(tenant, windowSeconds), StampsAt(old(stamps), tenant), now);
        stamps == old(stamps)[tenant := r.0] && ok == r.1
    {
      if tenant !in stamps {
        stamps := stamps[tenant := []];
      }
      var limit := if tenant in limits then limits[tenant] else defaultLimit;
      var kept := Prune(RuleFor(tenant, windowSeconds), stamps[tenant], now);
      stamps := stamps[tenant := kept];
      if |stamps[tenant]| >= limit {
        return false;
      }
      stamps := stamps[tenant := stamps[tenant] + [now]];
      return true;
    }
  }

  /** The list comprehension every limiter prunes with. */
  method Prune(rule: Rule, stamps: seq<real>, now: real) returns (kept: seq<real>)
    ensures kept == Keep(rule, stamps, now)
  {
    kept := [];
    for i := 0 to |stamps|
      invariant kept == Keep(rule, stamps[..i], now)
    {
      KeepAppend(rule, stamps[..i], stamps[i], now);
      assert stamps[..i + 1] == stamps[..i] + [stamps[i]];
      if rule.Live(stamps[i], now) {
        kept := kept + [stamps[i]];
      }
    }
    assert stamps[..|stamps|] == stamps;
  }

  const AGENT_REGISTER_LIMIT := 5
  const AGENT_REGISTER_WINDOW := 3600.0

  /** src/mcp_gateway/api.py: five registrations per hour and address, on the monotonic clock. */
  class RegistrationLimiter {
    var stamps: Table

    constructor ()
      ensures stamps == map[]
    {
      stamps := map[];
    }

    method CheckRegistration(address: string, now: real) returns (ok: bool)
      modifies `stamps
      ensures var r := Check(Rule(5, 3600.0, Open), StampsAt(old(stamps), address), now);
        stamps == old(stamps)[address := r.0] && ok == r.1
    {
      var window := Prune(Rule(AGENT_REGISTER_LIMIT, AGENT_REGISTER_WINDOW, Open), StampsAt(stamps, address), now);
      stamps := stamps[address := window];
      if |window| >= AGENT_REGISTER_LIMIT {
        return false;
      }
      stamps := stamps[address := window + [now]];
      return true;
    }
  }

  datatype Quota = Quota(limit: int, period: int)

  function Second(now: real): real {
    now.Floor as real
  }

  /** src/mcp/services/auth.py: actions with a quota, counted on a clock truncated to whole seconds. */
  class ActionLimiter {
    const quotas: map<string, Quota>
    var stamps: Table

    constructor (quotas: map<string, Quota>)
      ensures this.quotas == quotas && stamps == map[]
    {
      this.quotas, stamps := quotas, map[];
    }

    method RateLimitCheck(action: string, identifier: string, now: real) returns (ok: bool)
      requires now >= 0.0
      modifies `stamps
      ensures action !in quotas ==> ok && stamps == old(stamps)
      ensures action in quotas ==>
        var key, quota := action + ":" + identifier, quotas[action];
        var r := Check(Rule(quota.limit, quota.period as real, Open), StampsAt(old(stamps), key), Second(now));
        stamps == old(stamps)[key := r.0] && ok == r.1
    {
      if action !in quotas {
        return true;
      }
      var limit, period := quotas[action].limit, quotas[action].period;
      var cacheKey := action + ":" + identifier;
      var currentTime := now.Floor as real;
      if cacheKey !in stamps {
        stamps := stamps[cacheKey := []];
      }
      var kept := Prune(Rule(limit, period as real, Open), stamps[cacheKey], currentTime);
      stamps := stamps[cacheKey := kept];
      if |stamps[cacheKey]| >= limit {
        return false;
      }
      stamps := stamps[cacheKey := stamps[cacheKey] + [currentTime]];
      return true;
    }
  }

  // ----- in the limiters' own numbers -----

  lemma CheckedByGap(rule: Rule, stamps: seq<real>, history: seq<real>, now: real)
    requires Ordered(history) && rule.limit >= 1 && Keep(rule, stamps, now) == Keep(rule, history, now)
    ensures Check(rule, stamps, now).1 <==>
      |history| < rule.limit || Apart(rule, now - history[|history| - rule.limit])
  {
    AdmittedByGap(rule, history, now);
  }

  lemma DriveAdmits(rule: Rule, arrivals: seq<real>, now: real)
    requires Ordered(arrivals) && NotAfter(arrivals, now)
    ensures Select(arrivals, Drive(rule, arrivals).answers) == Admitted(rule, Instants(arrivals))
    ensures Keep(rule, Drive(rule, arrivals).stamps, now) == Keep(rule, Admitted(rule, Instants(arrivals)), now)
    ensures Ordered(Admitted(rule, Instants(arrivals)))
  {
    DriveFollowsHistory(rule, arrivals, now);
    AdmittedNotAfter(rule, Instants(arrivals), now);
  }

  /** The instants that passed among a caller's arrivals. */
  function Passed(rule: Rule, arrivals: seq<real>): seq<real> {
    Select(arrivals, Drive(rule, arrivals).answers)
  }

  /** After any ordered arrivals one more passes exactly by the gap to the limit-th latest that passed. */
  lemma {:induction false} PassesByGap(rule: Rule, arrivals: seq<real>, passed: seq<real>, stamps: seq<real>, now: real)
    requires Ordered(arrivals) && NotAfter(arrivals, now) && rule.limit >= 1
    requires passed == Passed(rule, arrivals) && stamps == Drive(rule, arrivals).stamps
    ensures Check(rule, stamps, now).1 <==> |passed| < rule.limit || Apart(rule, now - passed[|passed| - rule.limit])
  {
    DriveAdmits(rule, arrivals, now);
    CheckedByGap(rule, stamps, passed, now);
  }

  /** The visits of a caller that a run let pass. */
  function PassedOf(rules: string -> Rule, visits: seq<Visit>, caller: string): seq<real> {
    Select(ArrivalsOf(visits, caller), AnswersOf(visits, Serve(rules, visits).answers, caller))
  }

  lemma CallersPassed(rules: string -> Rule, visits: seq<Visit>, caller: string)
    ensures StampsAt(Serve(rules, visits).table, caller) == Drive(rules(caller), ArrivalsOf(visits, caller)).stamps
    ensures PassedOf(rules, visits, caller) == Passed(rules(caller), ArrivalsOf(visits, caller))
  {
    CallersAreIndependent(rules, visits, caller);
  }

  /** What the table of a run answers a caller's next visit. */
  predicate Passes(rules: string -> Rule, visits: seq<Visit>, caller: string, now: real) {
    Check(rules(caller), StampsAt(Serve(rules, visits).table, caller), now).1
  }

  lemma {:induction false} VisitPassesByGap(rules: string -> Rule, visits: seq<Visit>, caller: string, now: real)
    requires Ordered(ArrivalsOf(visits, caller)) && NotAfter(ArrivalsOf(visits, caller), now)
    requires rules(caller).limit >= 1
    ensures var passed := PassedOf(rules, visits, caller);
      Passes(rules, visits, caller, now) <==>
        |passed| < rules(caller).limit || Apart(rules(caller), now - passed[|passed| - rules(caller).limit])
  {
    CallersPassed(rules, visits, caller);
    PassesByGap(rules(caller), ArrivalsOf(visits, caller), PassedOf(rules, visits, caller),
                StampsAt(Serve(rules, visits).table, caller), now);
  }

  /** The monitoring server's rules while every request is over the same window. */
  function MonitorRules(limiter: MonitorLimiter, windowSeconds: int): string -> Rule {
    tenant => limiter.RuleFor(tenant, windowSeconds)
  }

  /**
   In any run of the monitoring server over one window, with visits of anybody else in between, a tenant's
   request passes exactly if fewer than its own limit passed before, or than the default when it has none,
   or the limit-th latest of them lies more than the window back.
   */
  lemma {:induction false} MonitorPassesExactly(limiter: MonitorLimiter, windowSeconds: int, visits: seq<Visit>,
                                                tenant: string, now: real, limit: int)
    requires Ordered(ArrivalsOf(visits, tenant)) && NotAfter(ArrivalsOf(visits, tenant), now)
    requires limit == (if tenant in limiter.limits then limiter.limits[tenant] else limiter.defaultLimit) >= 1
    ensures var rules := MonitorRules(limiter, windowSeconds);
      var passed := PassedOf(rules, visits, tenant);
      Passes(rules, visits, tenant, now) <==>
        |passed| < limit || now - passed[|passed| - limit] > windowSeconds as real
  {
    var rules := MonitorRules(limiter, windowSeconds);
    assert rules(tenant) == Rule(limit, windowSeconds as real, Closed);
    VisitPassesByGap(rules, visits, tenant, now);
  }

  // ----- what whole seconds cost -----

  function Seconds(arrivals: seq<real>): (seconds: seq<real>)
    ensures |seconds| == |arrivals|
  {
    seq(|arrivals|, i requires 0 <= i < |arrivals| => Second(arrivals[i]))
  }

  /** The real instants a whole-second window admits. */
  function AdmittedInstants(quota: Quota, arrivals: seq<real>): seq<real> {
    Select(arrivals, Answers(Rule(quota.limit, quota.period as real, Open), Seconds(arrivals)))
  }

  ghost predicate ClockReadings(arrivals: seq<real>) {
    Ordered(arrivals) && forall i :: 0 <= i < |arrivals| ==> arrivals[i] >= 0.0
  }

  /** In every run, no real window of `length` seconds holds more admissions than the quota. */
  ghost predicate HoldsOver(quota: Quota, length: real) {
    forall arrivals :: ClockReadings(arrivals) ==>
      WithinLimit(Rule(quota.limit, length, Open), AdmittedInstants(quota, arrivals))
  }

  lemma {:induction false} SecondsOfSelect(arrivals: seq<real>, choice: seq<bool>)
    requires |arrivals| == |choice|
    ensures Seconds(Select(arrivals, choice)) == Select(Seconds(arrivals), choice)
  {
    if arrivals != [] {
      var n := |arrivals| - 1;
      SecondsOfSelect(arrivals[..n], choice[..n]);
      assert Seconds(arrivals)[..n] == Seconds(arrivals[..n]);
      assert Seconds(Select(arrivals[..n], choice[..n]) + [arrivals[n]])
          == Seconds(Select(arrivals[..n], choice[..n])) + [Second(arrivals[n])];
    }
  }

  /** A real window shorter than the period by a second sits inside a whole-second window. */
  lemma {:induction false} RealWindowInsideSeconds(quota: Quota, length: real, stamps: seq<real>, t: real)
    requires length <= (quota.period - 1) as real
    ensures WindowCount(Rule(quota.limit, length, Open), stamps, t)
         <= WindowCount(Rule(quota.limit, quota.period as real, Open), Seconds(stamps), Second(t))
  {
    if stamps != [] {
      var n := |stamps| - 1;
      RealWindowInsideSeconds(quota, length, stamps[..n], t);
      SecondsApart(stamps[n], t);
      assert Seconds(stamps)[..n] == Seconds(stamps[..n]);
    }
  }

  lemma SecondsApart(x: real, t: real)
    ensures x <= t ==> Second(x) <= Second(t)
    ensures Second(t) - Second(x) < t - x + 1.0
  {
    var a, b := x.Floor, t.Floor;
    assert a as real <= x < a as real + 1.0 && b as real <= t < b as real + 1.0;
    if b < a {
      assert (b + 1) as real <= a as real;
    }
  }

  lemma SecondsOrdered(arrivals: seq<real>)
    requires Ordered(arrivals)
    ensures Ordered(Seconds(arrivals))
  {
    forall i, j | 0 <= i < j < |arrivals| ensures Seconds(arrivals)[i] <= Seconds(arrivals)[j] {
      SecondsApart(arrivals[i], arrivals[j]);
    }
  }

  lemma ShorterWindowsHold(quota: Quota, length: real, arrivals: seq<real>)
    requires length <= (quota.period - 1) as real && Ordered(arrivals)
    ensures WithinLimit(Rule(quota.limit, length, Open), AdmittedInstants(quota, arrivals))
  {
    var whole := Rule(quota.limit, quota.period as real, Open);
    var admitted := AdmittedInstants(quota, arrivals);
    SecondsOrdered(arrivals);
    SecondsOfSelect(arrivals, Answers(whole, Seconds(arrivals)));
    AdmittedWithinLimit(whole, Instants(Seconds(arrivals)));
    forall t: real ensures WindowCount(Rule(quota.limit, length, Open), admitted, t) <= whole.Cap() {
      RealWindowInsideSeconds(quota, length, admitted, t);
      assert WindowCount(whole, Seconds(admitted), Second(t)) <= whole.Cap();
    }
  }

  /** A full quota just before a second ends, and one more when the period has passed. */
  function Burst(quota: Quota, early: real): seq<real>
    requires quota.limit >= 0
  {
    seq(quota.limit, _ => early) + [quota.period as real]
  }

  lemma {:induction false} CopiesAreAdmitted(rule: Rule, at: real, n: nat)
    requires n <= rule.limit
    ensures Admitted(rule, Instants(seq(n, _ => at))) == seq(n, _ => at)
  {
    if n > 0 {
      CopiesAreAdmitted(rule, at, n - 1);
      assert seq(n, _ => at) == seq(n - 1, _ => at) + [at];
      AdmittedStep(rule, seq(n - 1, _ => at), at);
    }
  }

  lemma {:induction false} CopiesExpire(rule: Rule, at: real, n: nat, now: real)
    requires !rule.Live(at, now)
    ensures Keep(rule, seq(n, _ => at), now) == []
  {
    if n > 0 {
      CopiesExpire(rule, at, n - 1, now);
      assert seq(n, _ => at)[..n - 1] == seq(n - 1, _ => at);
    }
  }

  lemma {:induction false} CopiesCount(rule: Rule, at: real, n: nat, t: real)
    requires at <= t && rule.Live(at, t)
    ensures WindowCount(rule, seq(n, _ => at), t) == n
  {
    if n > 0 {
      CopiesCount(rule, at, n - 1, t);
      assert seq(n, _ => at)[..n - 1] == seq(n - 1, _ => at);
    }
  }

  lemma {:induction false} AllSelected(arrivals: seq<real>, choice: seq<bool>)
    requires |arrivals| == |choice| && |Select(arrivals, choice)| == |arrivals|
    ensures Select(arrivals, choice) == arrivals
  {
    if arrivals != [] {
      var n := |arrivals| - 1;
      AllSelected(arrivals[..n], choice[..n]);
    }
  }

  /** The witness that longer real windows can be exceeded: all of a burst is admitted. */
  lemma BurstIsAdmitted(quota: Quota, early: real)
    requires quota.limit >= 1 && 0.0 <= early < 1.0 && quota.period >= 1
    ensures AdmittedInstants(quota, Burst(quota, early)) == Burst(quota, early)
  {
    var rule := Rule(quota.limit, quota.period as real, Open);
    var n, burst := quota.limit, Burst(quota, early);
    var copies := seq(n, _ => 0.0);
    assert Seconds(burst) == copies + [quota.period as real];
    CopiesAreAdmitted(rule, 0.0, n);
    CopiesExpire(rule, 0.0, n, quota.period as real);
    AdmittedStep(rule, copies, quota.period as real);
    AllSelected(Seconds(burst), Answers(rule, Seconds(burst)));
    AllChosen(Seconds(burst), burst, Answers(rule, Seconds(burst)));
  }

  lemma {:induction false} AllChosen(arrivals: seq<real>, others: seq<real>, choice: seq<bool>)
    requires |arrivals| == |choice| == |others| && |Select(arrivals, choice)| == |arrivals|
    ensures Select(others, choice) == others
  {
    if arrivals != [] {
      var n := |arrivals| - 1;
      AllChosen(arrivals[..n], others[..n], choice[..n]);
    }
  }

  /**
   Counting on whole seconds keeps the quota over real windows of a given length, in every run,
   exactly when the length is at least one second shorter than the period.
   */
  lemma WholeSecondsHoldExactly(quota: Quota, length: real)
    requires quota.limit >= 1 && quota.period >= 1
    ensures HoldsOver(quota, length) <==> length <= (quota.period - 1) as real
  {
    if length <= (quota.period - 1) as real {
      forall arrivals | ClockReadings(arrivals)
        ensures WithinLimit(Rule(quota.limit, length, Open), AdmittedInstants(quota, arrivals))
      {
        ShorterWindowsHold(quota, length, arrivals);
      }
    } else {
      var gap := length - (quota.period - 1) as real;
      var early := if gap < 1.0 then 1.0 - gap / 2.0 else 0.5;
      var burst, rule, end := Burst(quota, early), Rule(quota.limit, length, Open), quota.period as real;
      BurstIsAdmitted(quota, early);
      CopiesCount(rule, early, quota.limit, end);
      assert burst[..quota.limit] == seq(quota.limit, _ => early);
      assert WindowCount(rule, burst, end) == quota.limit + 1;
      assert ClockReadings(burst);
    }
  }
}
