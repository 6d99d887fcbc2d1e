/**
 The per-tenant token bucket with variable costs: refilled only when a request is admitted, dropped
 after a day without admissions, and reporting truncated hints and headers.

 Each public operation is one atomic step; the lock that guards it is not modelled. The nested
 dictionaries tenant -> endpoint are one map keyed by the pair.
 */
module CostLimiter {
  import opened Basics
  import Bucket

  datatype Config = Config(requestsPerWindow: int, windowSeconds: int, burstMultiplier: real) {

    /** `int(x)` truncates toward zero. */
    function BurstLimit(): int {
      Truncate(requestsPerWindow as real * burstMultiplier)
    }

    function Rate(): real
      requires windowSeconds != 0
    {
      requestsPerWindow as real / windowSeconds as real
    }

    /** A bucket that refills and holds a non-negative number of tokens. */
    ghost predicate Sane() {
      requestsPerWindow > 0 && windowSeconds > 0 && burstMultiplier >= 0.0
    }

    function Params(): Bucket.Params
      requires windowSeconds != 0
    {
      Bucket.Params(BurstLimit() as real, Rate())
    }
  }

  datatype Status = Status(tokens: real, lastRefill: real, config: Config) {
    function Level(): Bucket.Level {
      Bucket.Level(tokens, lastRefill)
    }
  }

  /** Tenant, and endpoint with the optional address appended. */
  type Key = (string, string)

  type Table = map<Key, Status>

  function KeyOf(tenant: string, endpoint: string, address: Option<string>): Key {
    (tenant, if address.Some? && address.value != "" then endpoint + ":" + address.value else endpoint)
  }

  datatype Verdict = Allowed | Limited(retryAfter: int) | ZeroDivision

  function Full(config: Config, created: real): Status {
    Status(config.BurstLimit() as real, created, config)
  }

  /** The entry a check works on: a full bucket when the key is not tracked. */
  function Present(status: Option<Status>, config: Config, created: real): Status {
    match status case None => Full(config, created) case Some(s) => s
  }

  function Tokens(s: Status, now: real): real
    requires s.config.windowSeconds != 0
  {
    Bucket.Available(s.config.Params(), s.Level(), now)
  }

  function Judge(s: Status, cost: real, now: real): Verdict {
    if s.config.windowSeconds == 0 then ZeroDivision
    else if Tokens(s, now) >= cost then Allowed
    else if s.config.requestsPerWindow == 0 then ZeroDivision
    else Limited(Max(1, Truncate((cost - Tokens(s, now)) / s.config.Rate())))
  }

  /** Only an admission writes the stored pair. */
  function After(s: Status, cost: real, now: real): Status {
    if Judge(s, cost, now).Allowed? then s.(tokens := Tokens(s, now) - cost, lastRefill := now) else s
  }

  const DAY: real := 86400.0

  /** Entries whose last admission is more than a day old are dropped. */
  function Evict(table: Table, now: real): Table {
    map key | key in table && table[key].lastRefill >= now - DAY :: table[key]
  }

  datatype Headers = Headers(limit: int, remaining: int, reset: int)

  class RateLimiter {
    const defaultConfig: Config
    var tenantConfigs: map<string, Config>
    var tenantLimits: Table
    var totalAllowed: nat
    var totalLimited: nat
    var limitedTenants: set<string>

    constructor (defaultConfig: Config)
      ensures this.defaultConfig == defaultConfig && tenantConfigs == map[] && tenantLimits == map[]
      ensures totalAllowed == totalLimited == 0 && limitedTenants == {}
    {
      this.defaultConfig := defaultConfig;
      tenantConfigs, tenantLimits := map[], map[];
      totalAllowed, totalLimited, limitedTenants := 0, 0, {};
    }

    method SetTenantConfig(tenant: string, config: Config)
      modifies `tenantConfigs
      ensures forall t :: TenantConfig(t) == if t == tenant then config else old(TenantConfig(t))
    {
      tenantConfigs := tenantConfigs[tenant := config];
    }

    function TenantConfig(tenant: string): Config
      reads `tenantConfigs
    {
      if tenant in tenantConfigs then tenantConfigs[tenant] else defaultConfig
    }

    function Look(key: Key): Option<Status>
      reads `tenantLimits
    {
      if key in tenantLimits then Some(tenantLimits[key]) else None
    }

    method CheckRateLimit(tenant: string, endpoint: string, address: Option<string>, cost: real, created: real,
                          now: real)
      returns (verdict: Verdict)
      modifies this
      ensures tenantConfigs == old(tenantConfigs)
      ensures var key := KeyOf(tenant, endpoint, address);
        var s := Present(old(Look(key)), TenantConfig(tenant), created);
        && verdict == Judge(s, cost, now)
        && tenantLimits == old(tenantLimits)[key := After(s, cost, now)]
      ensures totalAllowed == old(totalAllowed) + if verdict.Allowed? then 1 else 0
      ensures totalLimited == old(totalLimited) + if verdict.Limited? then 1 else 0
      ensures limitedTenants == old(limitedTenants) + if verdict.Limited? then {tenant} else {}
    {
      var key := KeyOf(tenant, endpoint, address);
      var config := TenantConfig(tenant);
      if key !in tenantLimits {
        tenantLimits := tenantLimits[key := Status(config.BurstLimit() as real, created, config)];
      }
      var status := tenantLimits[key];
      if status.config.windowSeconds == 0 {
        return ZeroDivision;
      }
      var newTokens := Refilled(status, now);
      if newTokens < cost {
        if status.config.requestsPerWindow == 0 {
          return ZeroDivision;
        }
        var tokensNeeded := cost - newTokens;
        var retryAfter := Truncate(tokensNeeded / status.config.Rate());
        totalLimited := totalLimited + 1;
        limitedTenants := limitedTenants + {tenant};
        return Limited(Max(1, retryAfter));
      }
      tenantLimits := tenantLimits[key := status.(tokens := newTokens - cost, lastRefill := now)];
      totalAllowed := totalAllowed + 1;
      return Allowed;
    }

    method Refilled(status: Status, now: real) returns (newTokens: real)
      requires status.config.windowSeconds != 0
      ensures newTokens == Tokens(status, now)
    {
      var rate := status.config.requestsPerWindow as real / status.config.windowSeconds as real;
      var timePassed := now - status.lastRefill;
      var refillAmount := timePassed * rate;
      newTokens := Bucket.Min(status.tokens + refillAmount, status.config.BurstLimit() as real);
    }

    /** None when a zero-width window makes the refill rate undefined. */
    method RateLimitHeaders(tenant: string, endpoint: string, address: Option<string>, now: real)
      returns (headers: Option<Headers>)
      ensures var key := KeyOf(tenant, endpoint, address);
        key in tenantLimits ==> headers == TrackedHeaders(tenantLimits[key], now)
      ensures var key := KeyOf(tenant, endpoint, address);
        key !in tenantLimits ==> headers == Some(UntrackedHeaders(TenantConfig(tenant), now))
    {
      var key := KeyOf(tenant, endpoint, address);
      if key in tenantLimits {
        var status := tenantLimits[key];
        var config := status.config;
        if config.windowSeconds == 0 || config.requestsPerWindow == 0 {
          return None;
        }
        var tokens := Tokens(status, now);
        var secondsToFull := (config.BurstLimit() as real - tokens) / config.Rate();
        var resetTime := Truncate(now + if secondsToFull > 0.0 then secondsToFull else 0.0);
        return Some(Headers(config.requestsPerWindow, Truncate(tokens), resetTime));
      }
      var config := TenantConfig(tenant);
      return Some(Headers(config.requestsPerWindow, config.requestsPerWindow,
          Truncate(now + config.windowSeconds as real)));
    }

    method CleanupOldEntries(now: real)
      modifies `tenantLimits
      ensures tenantLimits == Evict(old(tenantLimits), now)
    {
      var staleThreshold := now - 24.0 * 3600.0;
      var keys := tenantLimits.Keys;
      while keys != {}
        invariant keys <= tenantLimits.Keys
        invariant tenantLimits == map key | key in old(tenantLimits)
          && (key in keys || old(tenantLimits)[key].lastRefill >= now - DAY) :: old(tenantLimits)[key]
        decreases keys
      {
        var key :| key in keys;
        keys := keys - {key};
        if tenantLimits[key].lastRefill < staleThreshold {
          tenantLimits := tenantLimits - {key};
        }
      }
    }
  }

  function TrackedHeaders(s: Status, now: real): Option<Headers> {
    if s.config.windowSeconds == 0 || s.config.requestsPerWindow == 0 then None
    else
      var toFull := (s.config.BurstLimit() as real - Tokens(s, now)) / s.config.Rate();
      Some(Headers(s.config.requestsPerWindow, Truncate(Tokens(s, now)),
                   Truncate(now + if toFull > 0.0 then toFull else 0.0)))
  }

  function UntrackedHeaders(config: Config, now: real): Headers {
    Headers(config.requestsPerWindow, config.requestsPerWindow, Truncate(now + config.windowSeconds as real))
  }

  // ----- who shares a bucket -----

  predicate IsPrefix(a: string, b: string) {
    |a| <= |b| && b[..|a|] == a
  }

  /**
   Requests of one tenant to two different endpoints can meet in one bucket, for some addresses, if and
   only if one endpoint is the other followed by a colon and whatever comes after; of different tenants
   they never do.
   */
  lemma EndpointsShareExactly(tenant: string, e: string, f: string)
    requires e != f
    ensures (exists a, b :: KeyOf(tenant, e, a) == KeyOf(tenant, f, b)) <==>
        IsPrefix(e + ":", f) || IsPrefix(f + ":", e)
  {
    forall a, b | KeyOf(tenant, e, a) == KeyOf(tenant, f, b) ensures IsPrefix(e + ":", f) || IsPrefix(f + ":", e) {
      var name := KeyOf(tenant, e, a).1;
      assert IsPrefix(e, name) && IsPrefix(f, name);
      assert |e| < |f| ==> name[..|e| + 1] == e + ":" && f == name[..|f|];
      assert |f| < |e| ==> name[..|f| + 1] == f + ":" && e == name[..|e|];
      assert |e| == |f| ==> e == f;
    }
    if IsPrefix(e + ":", f) {
      MeetBelow(tenant, e, f);
    } else if IsPrefix(f + ":", e) {
      MeetBelow(tenant, f, e);
    }
  }

  lemma MeetBelow(tenant: string, e: string, f: string)
    requires IsPrefix(e + ":", f)
    ensures KeyOf(tenant, f, Some("x")) == KeyOf(tenant, e, Some(f[|e| + 1..] + ":x"))
  {
    var rest := f[|e| + 1..];
    assert f == e + ":" + rest;
    assert f + ":" + "x" == e + ":" + (rest + ":x");
  }

  /** At one endpoint, callers share a bucket exactly when they give the same address; an empty one is none. */
  lemma AddressesShareExactly(tenant: string, e: string, a: Option<string>, b: Option<string>)
    ensures KeyOf(tenant, e, a) == KeyOf(tenant, e, b) <==> Effective(a) == Effective(b)
  {
    if Effective(a).Some? && Effective(b).Some? {
      var x, y := e + ":" + a.value, e + ":" + b.value;
      if x == y {
        assert x[|e| + 1..] == a.value && y[|e| + 1..] == b.value;
      }
    }
  }

  function Effective(address: Option<string>): Option<string> {
    if address.Some? && address.value != "" then address else None
  }
}
