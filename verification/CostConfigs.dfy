/**
 The variable-cost limiter while tenants' configurations change. An entry captures its tenant's
 configuration when it is created; a change reaches it only through its eviction.
 */
module CostConfigs {
  import opened Basics
  import opened CostLimiter
  import opened CostRuns
  import opened CostGuarantees
  import Bucket

  datatype Change =
    | Checked(key: Key, ask: Ask)
    | Swept(now: real)
    | Configured(tenant: string, config: Config)

  datatype World = World(table: Table, configs: map<string, Config>)

  /** The configurations in force, as the limiter looks them up. */
  function ConfigIn(initial: Config, configs: map<string, Config>, tenant: string): Config {
    if tenant in configs then configs[tenant] else initial
  }

  function Next(initial: Config, w: World, change: Change): World {
    match change
    case Checked(key, ask) =>
      w.(table := w.table[key := StatusAfter(ConfigIn(initial, w.configs, key.0), Look(w.table, key), ask)])
    case Swept(now) => w.(table := Evict(w.table, now))
    case Configured(tenant, config) => w.(configs := w.configs[tenant := config])
  }

  function Trace(initial: Config, changes: seq<Change>): World {
    if changes == [] then World(map[], map[])
    else Next(initial, Trace(initial, changes[..|changes| - 1]), changes[|changes| - 1])
  }

  function Entry(initial: Config, changes: seq<Change>, key: Key): Option<Status> {
    Look(Trace(initial, changes).table, key)
  }

  /** What was last set for the tenant. */
  function ConfigSet(initial: Config, changes: seq<Change>, tenant: string): Config {
    if changes == [] then initial
    else
      var last := changes[|changes| - 1];
      if last.Configured? && last.tenant == tenant then last.config
      else ConfigSet(initial, changes[..|changes| - 1], tenant)
  }

  lemma {:induction false} ConfigFollowsSetting(initial: Config, changes: seq<Change>, tenant: string)
    ensures ConfigIn(initial, Trace(initial, changes).configs, tenant) == ConfigSet(initial, changes, tenant)
  {
    if changes != [] {
      ConfigFollowsSetting(initial, changes[..|changes| - 1], tenant);
    }
  }

  // ----- the configuration an entry has -----

  /** The last check that found the key untracked; the length of the run when there is none. */
  function Birth(initial: Config, changes: seq<Change>, key: Key): (b: nat)
    ensures b <= |changes|
  {
    if changes == [] then 0
    else
      var before, last := changes[..|changes| - 1], changes[|changes| - 1];
      if last.Checked? && last.key == key && Entry(initial, before, key).None? then |before|
      else
        var b := Birth(initial, before, key);
        if b == |before| then |changes| else b
  }

  /** One change evicts a tracked key exactly if it is a sweep more than a day after the key was last written. */
  predicate Evicts(s: Status, change: Change) {
    change.Swept? && s.lastRefill < change.now - DAY
  }

  lemma OneChange(initial: Config, changes: seq<Change>, change: Change, key: Key)
    ensures var before, after := Entry(initial, changes, key), Entry(initial, changes + [change], key);
      && (before.Some? ==> (after.None? <==> Evicts(before.value, change)))
      && (before.Some? && after.Some? ==> after.value.config == before.value.config)
      && (before.None? ==> (after.Some? <==> change.Checked? && change.key == key))
      && (before.None? && after.Some? ==> after.value.config == ConfigSet(initial, changes, key.0))
  {
    assert (changes + [change])[..|changes|] == changes;
    ConfigFollowsSetting(initial, changes, key.0);
  }

  /** A tracked key has the configuration that was set when it was last created. */
  lemma {:induction false} CapturedAtBirth(initial: Config, changes: seq<Change>, key: Key)
    requires Entry(initial, changes, key).Some?
    ensures Birth(initial, changes, key) < |changes|
    ensures Entry(initial, changes, key).value.config
         == ConfigSet(initial, changes[..Birth(initial, changes, key)], key.0)
  {
    var before, last := changes[..|changes| - 1], changes[|changes| - 1];
    assert changes == before + [last];
    OneChange(initial, before, last, key);
    if Entry(initial, before, key).Some? {
      CapturedAtBirth(initial, before, key);
      assert changes[..Birth(initial, before, key)] == before[..Birth(initial, before, key)];
    }
  }

  predicate EvictedAt(initial: Config, changes: seq<Change>, k: int, key: Key) {
    0 <= k < |changes| && Entry(initial, changes[..k], key).Some? && Entry(initial, changes[..k + 1], key).None?
  }

  /** From `from` on, the key is tracked at some point and then is not. */
  predicate EvictedSince(initial: Config, changes: seq<Change>, from: nat, key: Key) {
    exists k :: from <= k < |changes| && EvictedAt(initial, changes, k, key)
  }

  lemma EvictedGrows(initial: Config, changes: seq<Change>, change: Change, from: nat, key: Key)
    requires from <= |changes|
    ensures EvictedSince(initial, changes + [change], from, key) <==>
      EvictedSince(initial, changes, from, key) || EvictedAt(initial, changes + [change], |changes|, key)
  {
    var all := changes + [change];
    forall k | 0 <= k < |changes| ensures EvictedAt(initial, all, k, key) <==> EvictedAt(initial, changes, k, key) {
      assert all[..k] == changes[..k] && all[..k + 1] == changes[..k + 1];
    }
    if k :| from <= k < |changes| && EvictedAt(initial, changes, k, key) {
      assert EvictedAt(initial, all, k, key);
    }
  }

  lemma BirthAppend(initial: Config, changes: seq<Change>, change: Change, key: Key)
    ensures Birth(initial, changes + [change], key) ==
      if change.Checked? && change.key == key && Entry(initial, changes, key).None? then |changes|
      else if Birth(initial, changes, key) == |changes| then |changes| + 1
      else Birth(initial, changes, key)
  {
    assert (changes + [change])[..|changes|] == changes;
  }

  lemma EvictedLast(initial: Config, changes: seq<Change>, change: Change, key: Key)
    ensures EvictedAt(initial, changes + [change], |changes|, key) <==>
      Entry(initial, changes, key).Some? && Entry(initial, changes + [change], key).None?
  {
    var all := changes + [change];
    assert all[..|changes|] == changes && all[..|changes| + 1] == all;
  }

  lemma {:induction false} BornLaterExactly(initial: Config, changes: seq<Change>, more: seq<Change>, key: Key)
    requires Entry(initial, changes, key).Some?
    ensures var all, n := changes + more, |changes|;
      var b, evicted := Birth(initial, all, key), EvictedSince(initial, all, n, key);
      && (Entry(initial, all, key).Some? ==> (b >= n <==> evicted))
      && (Entry(initial, all, key).None? ==> evicted)
      && (b == Birth(initial, changes, key) || evicted)
  {
    if more == [] {
      assert changes + more == changes;
      CapturedAtBirth(initial, changes, key);
    } else {
      var fewer, last := more[..|more| - 1], more[|more| - 1];
      var before := changes + fewer;
      assert changes + more == before + [last];
      BornLaterExactly(initial, changes, fewer, key);
      OneChange(initial, before, last, key);
      BirthAppend(initial, before, last, key);
      EvictedGrows(initial, before, last, |changes|, key);
      EvictedLast(initial, before, last, key);
      if Entry(initial, before, key).Some? {
        CapturedAtBirth(initial, before, key);
      }
      CapturedAtBirth(initial, changes, key);
    }
  }

  /**
   A change of configuration reaches a tracked key exactly when the key is evicted: until then it keeps
   the configuration it has, and once evicted and tracked again it has the one set when it came back.
   */
  lemma ChangeReachesExactly(initial: Config, changes: seq<Change>, more: seq<Change>, key: Key)
    requires Entry(initial, changes, key).Some? && Entry(initial, changes + more, key).Some?
    ensures var b := Birth(initial, changes + more, key);
      var evicted := EvictedSince(initial, changes + more, |changes|, key);
      && b < |changes + more| && (b >= |changes| <==> evicted)
      && Entry(initial, changes + more, key).value.config == ConfigSet(initial, (changes + more)[..b], key.0)
      && (!evicted ==> Entry(initial, changes + more, key).value.config == Entry(initial, changes, key).value.config)
  {
    BornLaterExactly(initial, changes, more, key);
    CapturedAtBirth(initial, changes, key);
    CapturedAtBirth(initial, changes + more, key);
    var b := Birth(initial, changes, key);
    assert (changes + more)[..b] == changes[..b];
  }

  // ----- the closed form over the captured configuration -----

  /** What a tracked key has been through since its last creation: its configuration, instant and grants. */
  datatype Life = Life(config: Config, start: Bucket.Level, grants: seq<Bucket.Grant>) {

    function Params(): Bucket.Params
      requires config.windowSeconds != 0
    {
      config.Params()
    }

    /** A full start under a sane configuration, and grants in order since, none later than `t`. */
    ghost predicate Proper(t: real) {
      && config.Sane() && start.tokens == config.BurstLimit() as real && start.at <= t
      && Bucket.Chronological(start, grants) && forall i :: 0 <= i < |grants| ==> grants[i].at <= t
    }
  }

  /** The life a check works on: a new one, full, when the key is not tracked. */
  function LifeFor(config: Config, life: Option<Life>, ask: Ask): Life {
    if life.Some? then life.value else Life(config, Bucket.Level(config.BurstLimit() as real, ask.created), [])
  }

  function Extended(life: Life, verdict: Verdict, ask: Ask): Life {
    if verdict.Allowed? then life.(grants := life.grants + [Bucket.Grant(ask.now, ask.cost)]) else life
  }

  function LifeOf(initial: Config, changes: seq<Change>, key: Key): Option<Life> {
    if changes == [] then None
    else
      var before := changes[..|changes| - 1];
      var life, entry := LifeOf(initial, before, key), Entry(initial, before, key);
      var config := ConfigSet(initial, before, key.0);
      match changes[|changes| - 1]
      case Checked(at, ask) =>
        if at != key then life
        else Some(Extended(LifeFor(config, life, ask), VerdictOn(config, entry, ask), ask))
      case Swept(now) => if entry.Some? && Evicts(entry.value, Swept(now)) then None else life
      case Configured(_, _) => life
  }

  function Begins(change: Change, t: real): real {
    match change case Checked(_, ask) => ask.created case Swept(now) => now case Configured(_, _) => t
  }

  function Ends(change: Change, t: real): real {
    match change case Checked(_, ask) => ask.now case Swept(now) => now case Configured(_, _) => t
  }

  /** A run whose clock never goes back, is no later than `t`, and sets sane configurations only. */
  ghost predicate Orderly(initial: Config, changes: seq<Change>, t: real) {
    if changes == [] then initial.Sane()
    else
      var last := changes[|changes| - 1];
      && (last.Checked? ==> last.ask.Proper()) && (last.Configured? ==> last.config.Sane())
      && Ends(last, t) <= t && Orderly(initial, changes[..|changes| - 1], Begins(last, t))
  }

  lemma {:induction false} SettingsAreSane(initial: Config, changes: seq<Change>, t: real, tenant: string)
    requires Orderly(initial, changes, t)
    ensures ConfigSet(initial, changes, tenant).Sane()
  {
    if changes != [] {
      SettingsAreSane(initial, changes[..|changes| - 1], Begins(changes[|changes| - 1], t), tenant);
    }
  }

  /** The entry is what the life's grants leave of a full start. */
  ghost predicate Lives(entry: Option<Status>, life: Option<Life>, t: real) {
    && (entry.Some? <==> life.Some?)
    && (life.Some? ==>
          && life.value.Proper(t) && entry.value.config == life.value.config
          && Bucket.Affordable(life.value.Params(), life.value.start, life.value.grants)
          && entry.value.Level() == Bucket.Replay(life.value.Params(), life.value.start, life.value.grants))
  }

  lemma OpenedLives(config: Config, entry: Option<Status>, life: Option<Life>, ask: Ask)
    requires config.Sane() && ask.Proper() && Lives(entry, life, ask.created)
    ensures Lives(Some(Present(entry, config, ask.created)), Some(LifeFor(config, life, ask)), ask.now)
  {
  }

  lemma SpentLives(s: Status, life: Life, ask: Ask)
    requires Lives(Some(s), Some(life), ask.now) && 0.0 <= ask.cost <= Tokens(s, ask.now)
    ensures Lives(Some(s.(tokens := Tokens(s, ask.now) - ask.cost, lastRefill := ask.now)),
                  Some(Extended(life, Allowed, ask)), ask.now)
  {
    var grants := life.grants + [Bucket.Grant(ask.now, ask.cost)];
    assert grants[..|life.grants|] == life.grants;
  }

  lemma JudgedLives(s: Status, life: Life, ask: Ask)
    requires Lives(Some(s), Some(life), ask.now) && ask.cost >= 0.0
    ensures Lives(Some(After(s, ask.cost, ask.now)), Some(Extended(life, Judge(s, ask.cost, ask.now), ask)), ask.now)
  {
    if Judge(s, ask.cost, ask.now).Allowed? {
      SpentLives(s, life, ask);
    }
  }

  lemma CheckLives(config: Config, entry: Option<Status>, life: Option<Life>, ask: Ask)
    requires config.Sane() && ask.Proper() && Lives(entry, life, ask.created)
    ensures Lives(Some(StatusAfter(config, entry, ask)),
                  Some(Extended(LifeFor(config, life, ask), VerdictOn(config, entry, ask), ask)), ask.now)
  {
    OpenedLives(config, entry, life, ask);
    JudgedLives(Present(entry, config, ask.created), LifeFor(config, life, ask), ask);
  }

  /** In every orderly run, whatever is swept and however configurations change, each entry is what its life says. */
  lemma {:induction false} EntryFollowsLife(initial: Config, changes: seq<Change>, key: Key, t: real)
    requires Orderly(initial, changes, t)
    ensures Lives(Entry(initial, changes, key), LifeOf(initial, changes, key), t)
  {
    if changes != [] {
      var before, last := changes[..|changes| - 1], changes[|changes| - 1];
      EntryFollowsLife(initial, before, key, Begins(last, t));
      SettingsAreSane(initial, before, Begins(last, t), key.0);
      ConfigFollowsSetting(initial, before, key.0);
      assert changes == before + [last];
      OneChange(initial, before, last, key);
      if last.Checked? && last.key == key {
        CheckLives(ConfigSet(initial, before, key.0), Entry(initial, before, key),
                   LifeOf(initial, before, key), last.ask);
      }
    }
  }

  /**
   Whatever is swept and however configurations change, the tokens of a tracked entry are the closed form
   over the grants of its life, under the configuration it captured; and that life began full.
   */
  lemma CapturedClosedForm(initial: Config, changes: seq<Change>, key: Key, t: real)
    requires Orderly(initial, changes, t) && Entry(initial, changes, key).Some?
    ensures var entry, life := Entry(initial, changes, key).value, LifeOf(initial, changes, key);
      && life.Some? && life.value.config == entry.config && entry.config.Sane()
      && LeastBalance(entry.config.Params(), life.value.grants, t, Tokens(entry, t))
  {
    EntryFollowsLife(initial, changes, key, t);
    var life := LifeOf(initial, changes, key).value;
    SaneParams(life.config);
    FullStartClosedForm(life.Params(), life.start, life.grants, t);
  }

  /**
   Within one life of a key, whatever is swept elsewhere and however configurations change, any interval
   admits at most the captured burst plus what it refills at the captured rate.
   */
  lemma CapturedBudget(initial: Config, changes: seq<Change>, key: Key, t: real, from: real, to: real)
    requires Orderly(initial, changes, t) && Entry(initial, changes, key).Some? && from <= to
    ensures var config, life := Entry(initial, changes, key).value.config, LifeOf(initial, changes, key);
      && life.Some? && config.Sane()
      && Bucket.CostBetween(life.value.grants, from, to)
           <= config.BurstLimit() as real + Bucket.Earned(config.Params(), from, to)
  {
    EntryFollowsLife(initial, changes, key, t);
    var life := LifeOf(initial, changes, key).value;
    SaneParams(life.config);
    Bucket.IntervalBound(life.Params(), life.start, life.grants, from, to);
  }
}
