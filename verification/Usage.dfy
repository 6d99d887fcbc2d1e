/**
 What one (tenant, resource) entry of the strategy-based limiter holds and how the two strategies
 read and write it, as functions on values. The class in UsageLimiter does the same work in place.
 */
module Usage {
  import opened Basics
  import SlidingLog
  import Bucket

  datatype Strategy = SlidingWindow | TokenBucket

  datatype Resource = ApiCall | ModelInference | ContextCreation | DatabaseWrite | Authentication

  type Key = (string, Resource)

  datatype Config = Config(limit: int, window: int, refillRate: real, burst: int) {

    function Rule(): SlidingLog.Rule {
      SlidingLog.Rule(limit, window as real, SlidingLog.Open)
    }

    function Params(): Bucket.Params {
      Bucket.Params(burst as real, refillRate)
    }
  }

  /** An entry; `current` is a token balance or a request count, depending on the strategy. */
  datatype Entry = Entry(current: real, lastUpdated: real, requests: seq<real>) {
    function Level(): Bucket.Level {
      Bucket.Level(current, lastUpdated)
    }
  }

  datatype Answer = Allowed | Refused(retryAfter: real) | DivisionByZero

  /**
   The clock readings one check makes, in the order it makes them: when a missing entry is created,
   the one the sliding window's hint is computed from, the one that decides, the one that is
   recorded, and the one the usage gauge prunes by.
   */
  datatype Clock = Clock(created: real, now: real, seen: real, stamp: real, gauge: real) {
    predicate Monotone() {
      created <= now <= seen <= stamp <= gauge
    }
  }

  function NewEntry(created: real): Entry {
    Entry(0.0, created, [])
  }

  function Expire(strategy: Strategy, cfg: Config, e: Entry, now: real): Entry {
    match strategy
    case SlidingWindow =>
      var kept := SlidingLog.Keep(cfg.Rule(), e.requests, now);
      e.(requests := kept, current := |kept| as real)
    case TokenBucket =>
      e.(current := Bucket.Available(cfg.Params(), e.Level(), now), lastUpdated := now)
  }

  function Record(strategy: Strategy, cfg: Config, e: Entry, stamp: real): Entry {
    match strategy
    case SlidingWindow => Entry((|e.requests| + 1) as real, stamp, e.requests + [stamp])
    case TokenBucket =>
      e.(current := Bucket.Available(cfg.Params(), e.Level(), stamp) - 1.0, lastUpdated := stamp)
  }

  function NonNegative(x: real): real {
    if x >= 0.0 then x else 0.0
  }

  /** The answer to a check on an entry; the sliding window looks at an already pruned log. */
  function Reply(strategy: Strategy, cfg: Config, e: Entry, now: real, seen: real): Answer {
    match strategy
    case SlidingWindow =>
      if |e.requests| < cfg.limit then Allowed
      else if e.requests != [] then Refused(NonNegative(e.requests[0] + cfg.window as real - now))
      else Refused(NonNegative(cfg.window as real))
    case TokenBucket =>
      var tokens := Bucket.Available(cfg.Params(), e.Level(), seen);
      if tokens >= 1.0 then Allowed
      else if cfg.refillRate == 0.0 then DivisionByZero
      else Refused((1.0 - tokens) / cfg.refillRate)
  }

  /** A check creates the entry it does not find. */
  function Present(entry: Option<Entry>, created: real): Entry {
    match entry case None => NewEntry(created) case Some(e) => e
  }

  /** A window prunes the entry before looking at it. */
  function Pruned(strategy: Strategy, cfg: Config, e: Entry, seen: real): Entry {
    if strategy.SlidingWindow? then Expire(strategy, cfg, e, seen) else e
  }

  function ReplyTo(strategy: Strategy, cfg: Config, e: Entry, clock: Clock): Answer {
    Reply(strategy, cfg, Pruned(strategy, cfg, e, clock.seen), clock.now, clock.seen)
  }

  /** A held entry after a check, including the pruning done for the gauge or the error message. */
  function EntryAfter(strategy: Strategy, cfg: Config, e: Entry, clock: Clock): Entry {
    var e' := Pruned(strategy, cfg, e, clock.seen);
    match ReplyTo(strategy, cfg, e, clock)
    case Allowed => Pruned(strategy, cfg, Record(strategy, cfg, e', clock.stamp), clock.gauge)
    case Refused(_) => Pruned(strategy, cfg, e', clock.gauge)
    case DivisionByZero => e'
  }

  function CheckReply(strategy: Strategy, cfg: Config, entry: Option<Entry>, clock: Clock): Answer {
    ReplyTo(strategy, cfg, Present(entry, clock.created), clock)
  }

  function CheckEntry(strategy: Strategy, cfg: Config, entry: Option<Entry>, clock: Clock): Entry {
    EntryAfter(strategy, cfg, Present(entry, clock.created), clock)
  }

  /** What a cleanup pass makes of one entry: None when the entry is dropped. */
  function TidyEntry(strategy: Strategy, cfg: Config, e: Entry, seen: real, aged: real): Option<Entry> {
    var e' := Expire(strategy, cfg, e, seen);
    if strategy.SlidingWindow? && e'.requests == [] && aged - e'.lastUpdated > (cfg.window * 2) as real then None
    else Some(e')
  }
}
