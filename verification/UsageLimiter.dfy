/**
 The strategy-based limiter itself: usage objects updated in place inside a nested table, one check
 at a time, and a cleanup pass that prunes and deletes entries. Each method is tied to the
 functions of Usage and UsageRuns, where the promises are proved.

 Each public operation is one atomic step: the lock that guards it is not modelled.
 */
module UsageLimiter {
  import opened Basics
  import opened Usage
  import opened UsageRuns
  import SlidingLog
  import Bucket

  class ResourceUsage {
    var current: real
    var lastUpdated: real
    var requests: seq<real>

    constructor (created: real)
      ensures Value() == NewEntry(created)
    {
      current, lastUpdated, requests := 0.0, created, [];
    }

    function Value(): Entry
      reads this
    {
      Entry(current, lastUpdated, requests)
    }
  }

  class SlidingWindowStrategy {
    constructor () {}

    method CheckLimit(usage: ResourceUsage, cfg: Config, now: real, seen: real) returns (answer: Answer)
      modifies usage
      ensures usage.Value() == Expire(SlidingWindow, cfg, old(usage.Value()), seen)
      ensures answer == Usage.Reply(SlidingWindow, cfg, usage.Value(), now, seen)
    {
      CleanupExpired(usage, cfg, seen);
      var count := |usage.requests|;
      if count >= cfg.limit {
        var retryAfter;
        if usage.requests != [] {
          retryAfter := usage.requests[0] + cfg.window as real - now;
        } else {
          retryAfter := cfg.window as real;
        }
        return Refused(NonNegative(retryAfter));
      }
      return Allowed;
    }

    method UpdateUsage(usage: ResourceUsage, cfg: Config, stamp: real)
      modifies usage
      ensures usage.Value() == Record(SlidingWindow, cfg, old(usage.Value()), stamp)
    {
      usage.requests := usage.requests + [stamp];
      usage.current := |usage.requests| as real;
      usage.lastUpdated := stamp;
    }

    method CleanupExpired(usage: ResourceUsage, cfg: Config, now: real)
      modifies usage
      ensures usage.Value() == Expire(SlidingWindow, cfg, old(usage.Value()), now)
    {
      var windowStart := now - cfg.window as real;
      var kept := [];
      for i := 0 to |usage.requests|
        invariant usage.Value() == old(usage.Value())
        invariant kept == SlidingLog.Keep(cfg.Rule(), usage.requests[..i], now)
      {
        SlidingLog.KeepAppend(cfg.Rule(), usage.requests[..i], usage.requests[i], now);
        assert usage.requests[..i + 1] == usage.requests[..i] + [usage.requests[i]];
        if usage.requests[i] > windowStart {
          kept := kept + [usage.requests[i]];
        }
      }
      assert usage.requests[..|usage.requests|] == usage.requests;
      usage.requests := kept;
      usage.current := |kept| as real;
    }
  }

  class TokenBucketStrategy {
    constructor () {}

    method CheckLimit(usage: ResourceUsage, cfg: Config, now: real, seen: real) returns (answer: Answer)
      ensures answer == Usage.Reply(TokenBucket, cfg, usage.Value(), now, seen)
    {
      var elapsed := seen - usage.lastUpdated;
      var newTokens := elapsed * cfg.refillRate;
      var currentTokens := Bucket.Min(cfg.burst as real, usage.current + newTokens);
      if currentTokens < 1.0 {
        if cfg.refillRate == 0.0 {
          return DivisionByZero;
        }
        return Refused((1.0 - currentTokens) / cfg.refillRate);
      }
      return Allowed;
    }

    method UpdateUsage(usage: ResourceUsage, cfg: Config, stamp: real)
      modifies usage
      ensures usage.Value() == Record(TokenBucket, cfg, old(usage.Value()), stamp)
    {
      var elapsed := stamp - usage.lastUpdated;
      var newTokens := elapsed * cfg.refillRate;
      usage.current := Bucket.Min(cfg.burst as real, usage.current + newTokens) - 1.0;
      usage.lastUpdated := stamp;
    }

    method CleanupExpired(usage: ResourceUsage, cfg: Config, now: real)
      modifies usage
      ensures usage.Value() == Expire(TokenBucket, cfg, old(usage.Value()), now)
    {
      var elapsed := now - usage.lastUpdated;
      var newTokens := elapsed * cfg.refillRate;
      usage.current := Bucket.Min(cfg.burst as real, usage.current + newTokens);
      usage.lastUpdated := now;
    }
  }

  datatype Outcome =
    | Granted
    | Exceeded(current: int, limit: int, retryAfter: real)
    | UnknownResource
    | ZeroDivision

  /** The usage figure reported next to a refusal. */
  function Reported(strategy: Strategy, cfg: Config, e: Entry): int {
    match strategy
    case SlidingWindow => |e.requests|
    case TokenBucket => var used := cfg.burst - Truncate(e.current); if used < 0 then 0 else used
  }

  /** What the caller of a check on a held entry is told. */
  function Told(strategy: Strategy, cfg: Config, e: Entry, clock: Clock): Outcome {
    match ReplyTo(strategy, cfg, e, clock)
    case Allowed => Granted
    case Refused(hint) => Exceeded(Reported(strategy, cfg, EntryAfter(strategy, cfg, e, clock)), cfg.limit, hint)
    case DivisionByZero => ZeroDivision
  }

  /** Creating the entry that is missing and then checking it is one update of the table. */
  lemma CheckIsOneUpdate(strategy: Strategy, cfg: Config, table: Table, key: Key, clock: Clock)
    ensures var held := Present(Look(table, key), clock.created);
      table[key := held][key := EntryAfter(strategy, cfg, held, clock)]
        == table[key := CheckEntry(strategy, cfg, Look(table, key), clock)]
  {
  }

  class RateLimiter {
    const strategy: Strategy
    const defaults: map<Resource, Config>
    const tenantConfigs: map<string, map<Resource, Config>>
    /** The usage of each tenant and resource; the nested dictionaries are one map keyed by the pair. */
    var usage: map<Key, ResourceUsage>
    const sliding: SlidingWindowStrategy
    const bucket: TokenBucketStrategy

    /** The table as values. */
    ghost var contents: Table
    /** The usage objects the limiter may write, and which key each belongs to. */
    ghost var owner: map<ResourceUsage, Key>

    constructor (strategy: Strategy, defaults: map<Resource, Config>, tenantConfigs: map<string, map<Resource, Config>>)
      ensures Valid() && contents == map[] && owner == map[]
      ensures this.strategy == strategy && this.defaults == defaults && this.tenantConfigs == tenantConfigs
    {
      this.strategy, this.defaults, this.tenantConfigs := strategy, defaults, tenantConfigs;
      usage, contents, owner := map[], map[], map[];
      sliding := new SlidingWindowStrategy();
      bucket := new TokenBucketStrategy();
    }

    function GetConfig(tenant: string, resource: Resource): Config
      requires resource in defaults
    {
      if tenant in tenantConfigs && resource in tenantConfigs[tenant] then tenantConfigs[tenant][resource]
      else defaults[resource]
    }

    /** The configuration of every key; a resource without a default never gets an entry. */
    function ConfigOf(key: Key): Config {
      if key.1 in defaults then GetConfig(key.0, key.1) else Config(0, 0, 0.0, 0)
    }

    ghost predicate Valid()
      reads this, owner.Keys
    {
      usage.Keys == contents.Keys && forall key :: key in usage ==> Owned(key)
    }

    ghost predicate Owned(key: Key)
      requires key in usage
      reads this, owner.Keys
    {
      && key in contents && key.1 in defaults
      && usage[key] in owner && owner[usage[key]] == key
      && usage[key].current == contents[key].current && usage[key].lastUpdated == contents[key].lastUpdated
      && usage[key].requests == contents[key].requests
    }

    twostate predicate OnlyFreshAdded(before: map<ResourceUsage, Key>)
      reads this
    {
      forall entry :: entry in owner && entry !in before ==> fresh(entry)
    }

    method CheckRateLimit(tenant: string, resource: Resource, clock: Clock) returns (outcome: Outcome)
      requires Valid()
      modifies this, owner.Keys
      ensures Valid() && OnlyFreshAdded(old(owner))
      ensures resource !in defaults ==> outcome == UnknownResource && contents == old(contents)
      ensures resource in defaults ==>
        var key, cfg := (tenant, resource), ConfigOf((tenant, resource));
        && contents == old(contents)[key := CheckEntry(strategy, cfg, Look(old(contents), key), clock)]
        && outcome == Told(strategy, cfg, Present(Look(old(contents), key), clock.created), clock)
    {
      if resource !in defaults {
        return UnknownResource;
      }
      outcome := CheckKey((tenant, resource), clock);
    }

    method CheckKey(key: Key, clock: Clock) returns (outcome: Outcome)
      requires Valid() && key.1 in defaults
      modifies this, owner.Keys
      ensures Valid() && OnlyFreshAdded(old(owner))
      ensures contents == old(contents)[key := CheckEntry(strategy, ConfigOf(key), Look(old(contents), key), clock)]
      ensures outcome == Told(strategy, ConfigOf(key), Present(Look(old(contents), key), clock.created), clock)
    {
      ghost var before := contents;
      GetOrCreate(key, clock.created);
      outcome := CheckHeld(key, clock);
      CheckIsOneUpdate(strategy, ConfigOf(key), before, key, clock);
    }

    method GetOrCreate(key: Key, created: real)
      requires Valid() && key.1 in defaults
      modifies this
      ensures Valid() && OnlyFreshAdded(old(owner))
      ensures key in contents && (usage[key] in old(owner) || fresh(usage[key]))
      ensures contents == old(contents)[key := Present(Look(old(contents), key), created)]
    {
      if key !in usage {
        var entry := new ResourceUsage(created);
        usage := usage[key := entry];
        contents := contents[key := entry.Value()];
        owner := owner[entry := key];
      }
    }

    method CheckHeld(key: Key, clock: Clock) returns (outcome: Outcome)
      requires Valid() && key in contents
      modifies `contents, usage[key]
      ensures Valid()
      ensures contents == old(contents)[key := EntryAfter(strategy, ConfigOf(key), old(contents)[key], clock)]
      ensures outcome == Told(strategy, ConfigOf(key), old(contents)[key], clock)
    {
      assert usage[key].Value() == contents[key];
      outcome := CheckAndReport(usage[key], GetConfig(key.0, key.1), clock);
      contents := contents[key := usage[key].Value()];
    }

    method CheckAndReport(entry: ResourceUsage, cfg: Config, clock: Clock) returns (outcome: Outcome)
      modifies entry
      ensures entry.Value() == EntryAfter(strategy, cfg, old(entry.Value()), clock)
      ensures outcome == Told(strategy, cfg, old(entry.Value()), clock)
    {
      var answer := CheckLocal(entry, cfg, clock);
      match answer {
        case DivisionByZero => outcome := ZeroDivision;
        case Refused(hint) =>
          var current := CurrentUsage(entry, cfg, clock.gauge);
          outcome := Exceeded(current, cfg.limit, hint);
        case Allowed => outcome := Granted;
      }
    }

    /** Everything but the pruning that building the refusal's error message does. */
    method CheckLocal(entry: ResourceUsage, cfg: Config, clock: Clock) returns (answer: Answer)
      modifies entry
      ensures var e := old(entry.Value());
        && answer == ReplyTo(strategy, cfg, e, clock)
        && entry.Value() ==
            if answer.Allowed? then EntryAfter(strategy, cfg, e, clock) else Pruned(strategy, cfg, e, clock.seen)
    {
      match strategy {
        case SlidingWindow => answer := sliding.CheckLimit(entry, cfg, clock.now, clock.seen);
        case TokenBucket => answer := bucket.CheckLimit(entry, cfg, clock.now, clock.seen);
      }
      if answer.Allowed? {
        match strategy {
          case SlidingWindow => sliding.UpdateUsage(entry, cfg, clock.stamp);
          case TokenBucket => bucket.UpdateUsage(entry, cfg, clock.stamp);
        }
        var _ := CurrentUsage(entry, cfg, clock.gauge);
      }
    }

    /** The usage figure of an entry; for a window, reading it prunes the log. */
    method CurrentUsage(entry: ResourceUsage, cfg: Config, gauge: real) returns (current: int)
      modifies entry
      ensures var e := old(entry.Value());
        entry.Value() == Pruned(strategy, cfg, e, gauge)
      ensures current == Reported(strategy, cfg, entry.Value())
    {
      if strategy.TokenBucket? {
        var used := cfg.burst - Truncate(entry.current);
        current := if used < 0 then 0 else used;
      } else {
        sliding.CleanupExpired(entry, cfg, gauge);
        current := |entry.requests|;
      }
    }

    /** What one cleanup pass does to one entry. */
    method TidyOne(key: Key, seen: real, aged: real)
      requires Valid() && key in contents
      modifies this, usage[key]
      ensures Valid() && owner == old(owner)
      ensures contents == TidyTable(strategy, ConfigOf(key), old(contents), key, seen, aged)
    {
      CleanupExpired(key, seen);
      var entry := usage[key];
      if strategy.SlidingWindow? && entry.requests == []
          && aged - entry.lastUpdated > (ConfigOf(key).window * 2) as real {
        Drop(key);
      }
    }

    method CleanupExpired(key: Key, seen: real)
      requires Valid() && key in contents
      modifies `contents, usage[key]
      ensures Valid() && contents == old(contents)[key := Expire(strategy, ConfigOf(key), old(contents)[key], seen)]
    {
      var entry, cfg := usage[key], GetConfig(key.0, key.1);
      assert entry.Value() == contents[key];
      match strategy {
        case SlidingWindow => sliding.CleanupExpired(entry, cfg, seen);
        case TokenBucket => bucket.CleanupExpired(entry, cfg, seen);
      }
      contents := contents[key := entry.Value()];
    }

    method Drop(key: Key)
      requires Valid()
      modifies `contents, `usage
      ensures Valid() && contents == old(contents) - {key}
    {
      usage := usage - {key};
      contents := contents - {key};
    }

    /** One cleanup pass; every entry is read at its own instants. */
    method PeriodicCleanup(seen: Key -> real, aged: Key -> real)
      requires Valid()
      modifies this, owner.Keys
      ensures Valid() && owner == old(owner)
      ensures contents == TidyAll(strategy, ConfigOf, old(contents), old(contents).Keys, seen, aged)
    {
      ghost var before := contents;
      var keys := usage.Keys;
      while keys != {}
        invariant Valid() && owner == old(owner) && keys <= before.Keys && keys <= usage.Keys
        invariant contents == TidyAll(strategy, ConfigOf, before, before.Keys - keys, seen, aged)
        decreases keys
      {
        var key :| key in keys;
        TidyAllStep(strategy, ConfigOf, before, before.Keys - keys, key, seen, aged);
        TidyOne(key, seen(key), aged(key));
        assert before.Keys - keys + {key} == before.Keys - (keys - {key});
        keys := keys - {key};
      }
    }
  }

  /** A cleanup pass that has dealt with the keys of `done`. */
  ghost function TidyAll(strategy: Strategy, cfgs: Key -> Config, table: Table, done: set<Key>,
                         seen: Key -> real, aged: Key -> real): Table {
    map key | key in table &&
        (key in done ==> TidyEntry(strategy, cfgs(key), table[key], seen(key), aged(key)).Some?) ::
      if key in done then TidyEntry(strategy, cfgs(key), table[key], seen(key), aged(key)).value else table[key]
  }

  /** A cleanup pass is one Tidy event of UsageRuns per key, in any order. */
  lemma TidyAllStep(strategy: Strategy, cfgs: Key -> Config, table: Table, done: set<Key>, key: Key,
                    seen: Key -> real, aged: Key -> real)
    requires key !in done
    ensures TidyAll(strategy, cfgs, table, done + {key}, seen, aged)
         == TidyTable(strategy, cfgs(key), TidyAll(strategy, cfgs, table, done, seen, aged), key, seen(key), aged(key))
  {
  }
}
