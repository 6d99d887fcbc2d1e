/**
 Whole runs of the strategy-based limiter: checks on any tenants and resources, mixed with cleanup
 passes that touch the entries at arbitrary instants.
 */
module UsageRuns {
  import opened Basics
  import opened Usage
  import SlidingLog
  import Bucket

  /** A check, or what one cleanup pass does to one entry. */
  datatype Event =
    | Check(key: Key, clock: Clock)
    | Tidy(key: Key, seen: real, aged: real)
  {
    function Start(): real {
      match this case Check(_, clock) => clock.created case Tidy(_, seen, _) => seen
    }
    function End(): real {
      match this case Check(_, clock) => clock.gauge case Tidy(_, _, aged) => aged
    }
    predicate Monotone() {
      match this case Check(_, clock) => clock.Monotone() case Tidy(_, seen, aged) => seen <= aged
    }
  }

  type Table = map<Key, Entry>

  datatype Reply = Reply(key: Key, answer: Answer)

  datatype State = State(table: Table, replies: seq<Reply>)

  function Look(table: Table, key: Key): Option<Entry> {
    if key in table then Some(table[key]) else None
  }

  function TidyTable(strategy: Strategy, cfg: Config, table: Table, key: Key, seen: real, aged: real): Table {
    if key !in table then table
    else
      match TidyEntry(strategy, cfg, table[key], seen, aged)
      case None => table - {key}
      case Some(e) => table[key := e]
  }

  function Step(strategy: Strategy, cfgs: Key -> Config, s: State, event: Event): State {
    match event
    case Check(key, clock) =>
      State(s.table[key := CheckEntry(strategy, cfgs(key), Look(s.table, key), clock)],
            s.replies + [Reply(key, CheckReply(strategy, cfgs(key), Look(s.table, key), clock))])
    case Tidy(key, seen, aged) =>
      s.(table := TidyTable(strategy, cfgs(key), s.table, key, seen, aged))
  }

  function Run(strategy: Strategy, cfgs: Key -> Config, events: seq<Event>): State {
    if events == [] then State(map[], [])
    else Step(strategy, cfgs, Run(strategy, cfgs, events[..|events| - 1]), events[|events| - 1])
  }

  ghost predicate Timed(events: seq<Event>) {
    && (forall i :: 0 <= i < |events| ==> events[i].Monotone())
    && (forall i, j :: 0 <= i < j < |events| ==> events[i].End() <= events[j].Start())
  }

  /** All of the run is over by `t`. */
  ghost predicate Over(events: seq<Event>, t: real) {
    forall i :: 0 <= i < |events| ==> events[i].End() <= t
  }

  lemma TimedPrefix(events: seq<Event>)
    requires Timed(events) && events != []
    ensures var front, last := events[..|events| - 1], events[|events| - 1];
      Timed(front) && Over(front, last.Start()) && last.Monotone() && last.Start() <= last.End()
  {
    var front, last := events[..|events| - 1], events[|events| - 1];
    forall i | 0 <= i < |front| ensures front[i].Monotone() && front[i].End() <= last.Start() {
      assert front[i] == events[i];
    }
    forall i, j | 0 <= i < j < |front| ensures front[i].End() <= front[j].Start() {
      assert front[i] == events[i] && front[j] == events[j];
    }
  }

  // ----- one key on its own, with no cleanup -----

  datatype KeyState = KeyState(entry: Option<Entry>, answers: seq<Answer>)

  function KeyRun(strategy: Strategy, cfg: Config, clocks: seq<Clock>): (s: KeyState)
    ensures |s.answers| == |clocks|
  {
    if clocks == [] then KeyState(None, [])
    else KeyStep(strategy, cfg, KeyRun(strategy, cfg, clocks[..|clocks| - 1]), clocks[|clocks| - 1])
  }

  function KeyStep(strategy: Strategy, cfg: Config, s: KeyState, clock: Clock): KeyState {
    KeyState(Some(CheckEntry(strategy, cfg, s.entry, clock)),
             s.answers + [CheckReply(strategy, cfg, s.entry, clock)])
  }

  /** The clocks of the checks made on one key. */
  function ClocksAt(events: seq<Event>, key: Key): (clocks: seq<Clock>) {
    if events == [] then []
    else
      var last := events[|events| - 1];
      var clocks := ClocksAt(events[..|events| - 1], key);
      if last.Check? && last.key == key then clocks + [last.clock] else clocks
  }

  function AnswersAt(replies: seq<Reply>, key: Key): seq<Answer> {
    if replies == [] then []
    else
      var last := replies[|replies| - 1];
      var answers := AnswersAt(replies[..|replies| - 1], key);
      if last.key == key then answers + [last.answer] else answers
  }

  /** Two entries no later check can tell apart. */
  ghost predicate Alike(strategy: Strategy, cfg: Config, a: Option<Entry>, b: Option<Entry>, t: real) {
    match strategy
    case SlidingWindow => SlidingLog.Keep(cfg.Rule(), Log(a), t) == SlidingLog.Keep(cfg.Rule(), Log(b), t)
    case TokenBucket =>
      && (a.None? <==> b.None?)
      && (a.Some? ==> Tokens(cfg, a.value, t) == Tokens(cfg, b.value, t))
  }

  function Tokens(cfg: Config, e: Entry, t: real): real {
    Bucket.Available(cfg.Params(), e.Level(), t)
  }

  function Log(entry: Option<Entry>): seq<real> {
    match entry case None => [] case Some(e) => e.requests
  }

  /** A bucket does not drain by itself; a window never looks at the refill rate. */
  ghost predicate Sane(strategy: Strategy, cfg: Config) {
    strategy.TokenBucket? ==> cfg.refillRate >= 0.0
  }

  lemma AlikeLater(strategy: Strategy, cfg: Config, a: Option<Entry>, b: Option<Entry>, t: real, later: real)
    requires Sane(strategy, cfg) && t <= later && Alike(strategy, cfg, a, b, t)
    ensures Alike(strategy, cfg, a, b, later)
  {
    match strategy {
      case SlidingWindow =>
        SlidingLog.KeepComposes(cfg.Rule(), Log(a), t, later);
        SlidingLog.KeepComposes(cfg.Rule(), Log(b), t, later);
      case TokenBucket =>
        if a.Some? {
          Bucket.RefillComposes(cfg.Params(), a.value.Level(), t, later);
          Bucket.RefillComposes(cfg.Params(), b.value.Level(), t, later);
        }
    }
  }

  /** A check answers alike entries alike and leaves them alike. */
  lemma CheckAlike(strategy: Strategy, cfg: Config, a: Option<Entry>, b: Option<Entry>, clock: Clock)
    requires Sane(strategy, cfg) && clock.Monotone() && Alike(strategy, cfg, a, b, clock.created)
    ensures CheckReply(strategy, cfg, a, clock) == CheckReply(strategy, cfg, b, clock)
    ensures Alike(strategy, cfg, Some(CheckEntry(strategy, cfg, a, clock)),
                  Some(CheckEntry(strategy, cfg, b, clock)), clock.gauge)
  {
    AlikeLater(strategy, cfg, a, b, clock.created, clock.seen);
    if strategy.TokenBucket? {
      AlikeLater(strategy, cfg, a, b, clock.created, clock.stamp);
      AlikeLater(strategy, cfg, a, b, clock.created, clock.gauge);
    }
  }

  /** What cleanup does to an entry, including dropping it, no later check can notice. */
  lemma TidyAlike(strategy: Strategy, cfg: Config, a: Entry, b: Option<Entry>, seen: real, aged: real)
    requires Sane(strategy, cfg) && seen <= aged && Alike(strategy, cfg, Some(a), b, seen)
    ensures Alike(strategy, cfg, TidyEntry(strategy, cfg, a, seen, aged), b, aged)
  {
    AlikeLater(strategy, cfg, Some(a), b, seen, aged);
    match strategy {
      case SlidingWindow => SlidingLog.KeepComposes(cfg.Rule(), a.requests, seen, aged);
      case TokenBucket => Bucket.RefillComposes(cfg.Params(), a.Level(), seen, aged);
    }
  }

  lemma AnswersAtAppend(replies: seq<Reply>, reply: Reply, key: Key)
    ensures AnswersAt(replies + [reply], key)
         == if reply.key == key then AnswersAt(replies, key) + [reply.answer] else AnswersAt(replies, key)
  {
    assert (replies + [reply])[..|replies|] == replies;
  }

  lemma KeyRunAppend(strategy: Strategy, cfg: Config, clocks: seq<Clock>, clock: Clock)
    ensures KeyRun(strategy, cfg, clocks + [clock]) == KeyStep(strategy, cfg, KeyRun(strategy, cfg, clocks), clock)
  {
    assert (clocks + [clock])[..|clocks|] == clocks;
  }

  /** One event keeps a key's entry and answers in step with the key's own run. */
  lemma StepFollowsKey(strategy: Strategy, cfgs: Key -> Config, s: State, own: KeyState, event: Event, key: Key)
    requires Sane(strategy, cfgs(key)) && event.Monotone()
    requires Alike(strategy, cfgs(key), Look(s.table, key), own.entry, event.Start())
    requires AnswersAt(s.replies, key) == own.answers
    ensures var s' := Step(strategy, cfgs, s, event);
      var own' := if event.Check? && event.key == key then KeyStep(strategy, cfgs(key), own, event.clock) else own;
      && Alike(strategy, cfgs(key), Look(s'.table, key), own'.entry, event.End())
      && AnswersAt(s'.replies, key) == own'.answers
  {
    var s' := Step(strategy, cfgs, s, event);
    var cfg, entry := cfgs(key), Look(s.table, key);
    AlikeLater(strategy, cfg, entry, own.entry, event.Start(), event.End());
    match event {
      case Check(at, clock) =>
        AnswersAtAppend(s.replies, Reply(at, CheckReply(strategy, cfgs(at), Look(s.table, at), clock)), key);
        if at == key {
          CheckAlike(strategy, cfg, entry, own.entry, clock);
        } else {
          assert Look(s'.table, key) == entry;
        }
      case Tidy(at, seen, aged) =>
        if at == key && entry.Some? {
          TidyAlike(strategy, cfg, entry.value, own.entry, seen, aged);
          assert Look(s'.table, key) == TidyEntry(strategy, cfg, entry.value, seen, aged);
        } else {
          assert Look(s'.table, key) == entry;
        }
    }
  }

  /** Every entry of a mixed run is alike to the one its own checks alone would have left. */
  lemma {:induction false} TableFollowsKeys(strategy: Strategy, cfgs: Key -> Config, events: seq<Event>, key: Key,
                                            t: real)
    requires Timed(events) && Sane(strategy, cfgs(key))
    requires Over(events, t)
    ensures Alike(strategy, cfgs(key), Look(Run(strategy, cfgs, events).table, key),
                  KeyRun(strategy, cfgs(key), ClocksAt(events, key)).entry, t)
    ensures AnswersAt(Run(strategy, cfgs, events).replies, key)
         == KeyRun(strategy, cfgs(key), ClocksAt(events, key)).answers
  {
    if events != [] {
      var front, last := events[..|events| - 1], events[|events| - 1];
      TimedPrefix(events);
      var own := KeyRun(strategy, cfgs(key), ClocksAt(front, key));
      TableFollowsKeys(strategy, cfgs, front, key, last.Start());
      StepFollowsKey(strategy, cfgs, Run(strategy, cfgs, front), own, last, key);
      if last.Check? {
        KeyRunAppend(strategy, cfgs(key), ClocksAt(front, key), last.clock);
      }
      AlikeLater(strategy, cfgs(key), Look(Run(strategy, cfgs, events).table, key),
                 KeyRun(strategy, cfgs(key), ClocksAt(events, key)).entry, last.End(), t);
    }
  }

  // ----- cleanup transparency -----

  function WithoutTidying(events: seq<Event>): seq<Event> {
    if events == [] then []
    else
      var last := events[|events| - 1];
      var rest := WithoutTidying(events[..|events| - 1]);
      if last.Check? then rest + [last] else rest
  }

  lemma {:induction false} WithoutTidyingStaysTimed(events: seq<Event>, t: real)
    requires Timed(events)
    requires Over(events, t)
    ensures Timed(WithoutTidying(events))
    ensures Over(WithoutTidying(events), t)
  {
    if events != [] {
      TimedPrefix(events);
      WithoutTidyingStaysTimed(events[..|events| - 1], events[|events| - 1].Start());
    }
  }

  lemma {:induction false} WithoutTidyingKeepsClocks(events: seq<Event>, key: Key)
    ensures ClocksAt(WithoutTidying(events), key) == ClocksAt(events, key)
  {
    if events != [] {
      var front, last := events[..|events| - 1], events[|events| - 1];
      WithoutTidyingKeepsClocks(front, key);
      var rest := WithoutTidying(front);
      assert (rest + [last])[..|rest|] == rest;
    }
  }

  /** The reply to one more check depends on the key's own earlier checks only. */
  lemma ReplyFollowsKey(strategy: Strategy, cfgs: Key -> Config, events: seq<Event>, key: Key, clock: Clock)
    requires Timed(events) && Sane(strategy, cfgs(key)) && clock.Monotone()
    requires Over(events, clock.created)
    ensures CheckReply(strategy, cfgs(key), Look(Run(strategy, cfgs, events).table, key), clock)
         == CheckReply(strategy, cfgs(key), KeyRun(strategy, cfgs(key), ClocksAt(events, key)).entry, clock)
  {
    TableFollowsKeys(strategy, cfgs, events, key, clock.created);
    CheckAlike(strategy, cfgs(key), Look(Run(strategy, cfgs, events).table, key),
               KeyRun(strategy, cfgs(key), ClocksAt(events, key)).entry, clock);
  }

  /** Removing every cleanup pass from a run changes no answer, for either strategy. */
  lemma {:induction false} CleanupIsTransparent(strategy: Strategy, cfgs: Key -> Config, events: seq<Event>)
    requires Timed(events) && forall key :: Sane(strategy, cfgs(key))
    ensures Run(strategy, cfgs, WithoutTidying(events)).replies == Run(strategy, cfgs, events).replies
  {
    if events != [] {
      var front, last := events[..|events| - 1], events[|events| - 1];
      TimedPrefix(events);
      CleanupIsTransparent(strategy, cfgs, front);
      if last.Check? {
        var rest := WithoutTidying(front);
        assert (rest + [last])[..|rest|] == rest;
        WithoutTidyingStaysTimed(front, last.Start());
        WithoutTidyingKeepsClocks(front, last.key);
        ReplyFollowsKey(strategy, cfgs, front, last.key, last.clock);
        ReplyFollowsKey(strategy, cfgs, rest, last.key, last.clock);
      }
    }
  }
}
