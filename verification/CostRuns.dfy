/**
 Whole runs of the variable-cost bucket: checks of any non-negative cost on any keys, mixed with
 eviction sweeps, under fixed tenant configurations.
 */
module CostRuns {
  import opened Basics
  import opened CostLimiter
  import Bucket

  datatype Event =
    | Check(key: Key, ask: Ask)
    | Sweep(now: real)
  {
    function Start(): real {
      match this case Check(_, ask) => ask.created case Sweep(now) => now
    }
    function End(): real {
      match this case Check(_, ask) => ask.now case Sweep(now) => now
    }
    predicate Proper() {
      Check? ==> ask.Proper()
    }
  }

  /** One check: its cost, and the two clock readings it makes. */
  datatype Ask = Ask(cost: real, created: real, now: real) {
    predicate Proper() {
      cost >= 0.0 && created <= now
    }
  }

  datatype Reply = Reply(key: Key, verdict: Verdict)

  datatype State = State(table: Table, replies: seq<Reply>)

  function Look(table: Table, key: Key): Option<Status> {
    if key in table then Some(table[key]) else None
  }

  function VerdictOn(config: Config, status: Option<Status>, ask: Ask): Verdict {
    Judge(Present(status, config, ask.created), ask.cost, ask.now)
  }

  function StatusAfter(config: Config, status: Option<Status>, ask: Ask): Status {
    After(Present(status, config, ask.created), ask.cost, ask.now)
  }

  function Step(cfgs: string -> Config, s: State, event: Event): State {
    match event
    case Check(key, ask) =>
      State(s.table[key := StatusAfter(cfgs(key.0), Look(s.table, key), ask)],
            s.replies + [Reply(key, VerdictOn(cfgs(key.0), Look(s.table, key), ask))])
    case Sweep(now) => s.(table := Evict(s.table, now))
  }

  function Run(cfgs: string -> Config, events: seq<Event>): State {
    if events == [] then State(map[], [])
    else Step(cfgs, Run(cfgs, events[..|events| - 1]), events[|events| - 1])
  }

  ghost predicate Timed(events: seq<Event>) {
    && (forall i :: 0 <= i < |events| ==> events[i].Proper())
    && (forall i, j :: 0 <= i < j < |events| ==> events[i].End() <= events[j].Start())
  }

  ghost predicate Over(events: seq<Event>, t: real) {
    forall i :: 0 <= i < |events| ==> events[i].End() <= t
  }

  lemma TimedPrefix(events: seq<Event>)
    requires Timed(events) && events != []
    ensures var front, last := events[..|events| - 1], events[|events| - 1];
      Timed(front) && Over(front, last.Start()) && last.Proper() && last.Start() <= last.End()
  {
    var front, last := events[..|events| - 1], events[|events| - 1];
    forall i | 0 <= i < |front| ensures front[i].Proper() && front[i].End() <= last.Start() {
      assert front[i] == events[i];
    }
    forall i, j | 0 <= i < j < |front| ensures front[i].End() <= front[j].Start() {
      assert front[i] == events[i] && front[j] == events[j];
    }
  }

  // ----- one key, with its grants remembered -----

  /** What one key's checks amount to: when it was first checked, and what it was granted. */
  datatype Ledger = Ledger(start: Bucket.Level, grants: seq<Bucket.Grant>)

  /** A key starts full, at its first check. */
  function Opened(config: Config, ledger: Option<Ledger>, ask: Ask): Ledger {
    match ledger
    case None => Ledger(Bucket.Level(config.BurstLimit() as real, ask.created), [])
    case Some(l) => l
  }

  /** A verdict that allows a check adds a grant of its cost. */
  function Granted(book: Ledger, verdict: Verdict, cost: real, now: real): Ledger {
    if verdict.Allowed? then book.(grants := book.grants + [Bucket.Grant(now, cost)]) else book
  }

  /** The ledger of a key: each reply that allowed a check adds a grant of that check's cost. */
  function LedgerOf(cfgs: string -> Config, events: seq<Event>, key: Key): Option<Ledger> {
    if events == [] then None
    else
      var front, last := events[..|events| - 1], events[|events| - 1];
      var ledger := LedgerOf(cfgs, front, key);
      if !last.Check? || last.key != key then ledger
      else
        var verdict := VerdictOn(cfgs(key.0), Look(Run(cfgs, front).table, key), last.ask);
        Some(Granted(Opened(cfgs(key.0), ledger, last.ask), verdict, last.ask.cost, last.ask.now))
  }

  /** What the ledger says is available; an untracked key is full. */
  function Balance(config: Config, ledger: Option<Ledger>, t: real): real
    requires config.windowSeconds != 0
  {
    match ledger
    case None => config.BurstLimit() as real
    case Some(l) => Bucket.Available(config.Params(), Bucket.Replay(config.Params(), l.start, l.grants), t)
  }

  function Stored(config: Config, status: Option<Status>, t: real): real
    requires config.windowSeconds != 0
  {
    match status
    case None => config.BurstLimit() as real
    case Some(s) => Bucket.Available(config.Params(), s.Level(), t)
  }

  /** Evicted entries would have refilled by then: a day earns at least a full bucket. */
  ghost predicate Lasting(config: Config) {
    config.Sane() && config.BurstLimit() as real <= DAY * config.Rate()
  }

  ghost predicate Tidy(config: Config, status: Option<Status>, t: real) {
    status.Some? ==> status.value.config == config && status.value.tokens >= 0.0 && status.value.lastRefill <= t
  }

  /** A stored entry always holds a non-negative balance from no later than now, as its tenant is configured. */
  lemma {:induction false} EntriesStayTidy(cfgs: string -> Config, events: seq<Event>, key: Key, t: real)
    requires Timed(events) && Over(events, t) && cfgs(key.0).Sane()
    ensures Tidy(cfgs(key.0), Look(Run(cfgs, events).table, key), t)
  {
    if events != [] {
      TimedPrefix(events);
      var front, last := events[..|events| - 1], events[|events| - 1];
      EntriesStayTidy(cfgs, front, key, last.Start());
      SaneParams(cfgs(key.0));
    }
  }

  /** The ledger is a chronological history of grants, each covered when it was made. */
  ghost predicate Sound(config: Config, ledger: Option<Ledger>, t: real)
    requires config.windowSeconds != 0
  {
    ledger.Some? ==>
      var l := ledger.value;
      && l.start.tokens == config.BurstLimit() as real && l.start.at <= t
      && Bucket.Affordable(config.Params(), l.start, l.grants)
      && Bucket.Chronological(l.start, l.grants)
      && forall i :: 0 <= i < |l.grants| ==> l.grants[i].at <= t
  }

  /** The stored entry tells the same balance as the ledger. */
  ghost predicate Agrees(config: Config, status: Option<Status>, ledger: Option<Ledger>, t: real)
    requires config.windowSeconds != 0
  {
    && Tidy(config, status, t) && Sound(config, ledger, t)
    && Stored(config, status, t) == Balance(config, ledger, t)
  }

  lemma AgreesLater(config: Config, status: Option<Status>, ledger: Option<Ledger>, t: real, later: real)
    requires config.Sane() && t <= later && Agrees(config, status, ledger, t)
    ensures Agrees(config, status, ledger, later)
  {
    SaneParams(config);
    var full := Bucket.Level(config.BurstLimit() as real, t);
    assert Bucket.Available(config.Params(), full, t) == full.tokens;
    var a := match status case None => full case Some(s) => s.Level();
    var b := match ledger case None => full case Some(l) => Bucket.Replay(config.Params(), l.start, l.grants);
    Bucket.RefillComposes(config.Params(), a, t, later);
    Bucket.RefillComposes(config.Params(), b, t, later);
    Bucket.AvailableGrows(config.Params(), full, t, later);
  }

  lemma SaneParams(config: Config)
    requires config.Sane()
    ensures config.Params().rate > 0.0 && config.Params().capacity >= 0.0
  {
    assert config.requestsPerWindow as real * config.burstMultiplier >= 0.0;
  }

  /** Opening the entry and the ledger at a check leaves them agreeing. */
  lemma OpenedAgrees(config: Config, status: Option<Status>, ledger: Option<Ledger>, ask: Ask)
    requires config.Sane() && ask.Proper() && Agrees(config, status, ledger, ask.created)
    ensures Agrees(config, Some(Present(status, config, ask.created)), Some(Opened(config, ledger, ask)), ask.now)
  {
    SaneParams(config);
    var s := Present(status, config, ask.created);
    var book := Opened(config, ledger, ask);
    var full := Bucket.Level(config.BurstLimit() as real, ask.created);
    assert Bucket.Available(config.Params(), full, ask.created) == full.tokens;
    assert Agrees(config, Some(s), Some(book), ask.created);
    AgreesLater(config, Some(s), Some(book), ask.created, ask.now);
  }

  /** Spending a covered cost from the entry is granting it in the ledger. */
  lemma GrantAgrees(config: Config, s: Status, book: Ledger, cost: real, now: real)
    requires config.Sane() && Agrees(config, Some(s), Some(book), now) && 0.0 <= cost <= Tokens(s, now)
    ensures Agrees(config, Some(s.(tokens := Tokens(s, now) - cost, lastRefill := now)),
                   Some(book.(grants := book.grants + [Bucket.Grant(now, cost)])), now)
  {
    SaneParams(config);
    var grants := book.grants + [Bucket.Grant(now, cost)];
    assert grants[..|book.grants|] == book.grants;
    assert Bucket.Replay(config.Params(), book.start, grants) == Bucket.Level(Tokens(s, now) - cost, now);
  }

  lemma JudgedAgrees(config: Config, s: Status, book: Ledger, cost: real, now: real)
    requires config.Sane() && cost >= 0.0 && Agrees(config, Some(s), Some(book), now)
    ensures Agrees(config, Some(After(s, cost, now)), Some(Granted(book, Judge(s, cost, now), cost, now)), now)
  {
    if Judge(s, cost, now).Allowed? {
      GrantAgrees(config, s, book, cost, now);
    }
  }

  /** A check on an agreeing entry leaves entry and ledger agreeing. */
  lemma CheckAgrees(config: Config, status: Option<Status>, ledger: Option<Ledger>, ask: Ask)
    requires config.Sane() && ask.Proper() && Agrees(config, status, ledger, ask.created)
    ensures Agrees(config, Some(StatusAfter(config, status, ask)),
                   Some(Granted(Opened(config, ledger, ask), VerdictOn(config, status, ask), ask.cost, ask.now)),
                   ask.now)
  {
    OpenedAgrees(config, status, ledger, ask);
    JudgedAgrees(config, Present(status, config, ask.created), Opened(config, ledger, ask), ask.cost, ask.now);
  }

  /** Dropping an entry a day after its last admission changes no balance. */
  lemma EvictAgrees(config: Config, s: Status, ledger: Option<Ledger>, now: real)
    requires Lasting(config) && Agrees(config, Some(s), ledger, now) && s.lastRefill < now - DAY
    ensures Agrees(config, None, ledger, now)
  {
    SaneParams(config);
    Bucket.FullAfterIdling(config.Params(), s.Level(), DAY, now);
  }

  /**
   In every run, each key's stored balance is the one its ledger of grants gives; sweeps need the
   bucket to refill within a day.
   */
  lemma {:induction false} StoredFollowsLedger(cfgs: string -> Config, events: seq<Event>, key: Key, t: real)
    requires Timed(events) && Over(events, t) && cfgs(key.0).Sane()
    requires Lasting(cfgs(key.0)) || forall i :: 0 <= i < |events| ==> events[i].Check?
    ensures Agrees(cfgs(key.0), Look(Run(cfgs, events).table, key), LedgerOf(cfgs, events, key), t)
  {
    var config := cfgs(key.0);
    if events != [] {
      TimedPrefix(events);
      var front, last := events[..|events| - 1], events[|events| - 1];
      assert last == events[|events| - 1];
      var table, ledger := Run(cfgs, front).table, LedgerOf(cfgs, front, key);
      StoredFollowsLedger(cfgs, front, key, last.Start());
      AgreesLater(config, Look(table, key), ledger, last.Start(), last.End());
      match last {
        case Check(at, ask) =>
          if at == key { CheckAgrees(config, Look(table, key), ledger, ask); }
        case Sweep(now) =>
          if key in table && table[key].lastRefill < now - DAY { EvictAgrees(config, table[key], ledger, now); }
      }
      AgreesLater(config, Look(Run(cfgs, events).table, key), LedgerOf(cfgs, events, key), last.End(), t);
    }
  }
}
