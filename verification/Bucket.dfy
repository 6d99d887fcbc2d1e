/**
 The lazily refilled token bucket shared by both bucket limiters of the repository. The stored pair
 (tokens, instant) is only brought up to date when something is written; this module relates that
 pair to the whole history of grants.
 */
module Bucket {

  datatype Params = Params(capacity: real, rate: real)

  /** The stored pair: how many tokens there were, and when that was true. */
  datatype Level = Level(tokens: real, at: real)

  datatype Grant = Grant(at: real, cost: real)

  function Min(a: real, b: real): real {
    if a <= b then a else b
  }

  /** Tokens earned between two instants. */
  function Earned(p: Params, since: real, now: real): real {
    (now - since) * p.rate
  }

  /** Tokens available at `now`: what was stored plus what was earned, capped. */
  function Available(p: Params, level: Level, now: real): real {
    Min(p.capacity, level.tokens + Earned(p, level.at, now))
  }

  function Spend(p: Params, level: Level, grant: Grant): Level {
    Level(Available(p, level, grant.at) - grant.cost, grant.at)
  }

  /** The stored pair after a history of grants; nothing is written in between. */
  function Replay(p: Params, start: Level, grants: seq<Grant>): Level {
    if grants == [] then start
    else Spend(p, Replay(p, start, grants[..|grants| - 1]), grants[|grants| - 1])
  }

  function Cost(grants: seq<Grant>): real {
    if grants == [] then 0.0
    else Cost(grants[..|grants| - 1]) + grants[|grants| - 1].cost
  }

  ghost predicate Chronological(start: Level, grants: seq<Grant>) {
    && (forall i :: 0 <= i < |grants| ==> start.at <= grants[i].at)
    && (forall i, j :: 0 <= i < j < |grants| ==> grants[i].at <= grants[j].at)
  }

  /** Every grant of the history was covered by the tokens available when it was made. */
  predicate Affordable(p: Params, start: Level, grants: seq<Grant>) {
    grants == []
    || (var front, grant := grants[..|grants| - 1], grants[|grants| - 1];
        && Affordable(p, start, front)
        && 0.0 <= grant.cost <= Available(p, Replay(p, start, front), grant.at))
  }

  lemma EarnedAdds(p: Params, a: real, b: real, c: real)
    ensures Earned(p, a, c) == Earned(p, a, b) + Earned(p, b, c)
  {
  }

  lemma EarnedGrows(p: Params, s: real, a: real, b: real, t: real)
    requires p.rate >= 0.0 && s <= a <= b <= t
    ensures 0.0 <= Earned(p, a, b) <= Earned(p, s, t)
  {
    EarnedAdds(p, s, a, t);
    EarnedAdds(p, a, b, t);
    assert Earned(p, s, a) >= 0.0 && Earned(p, a, b) >= 0.0 && Earned(p, b, t) >= 0.0;
  }

  /** Bringing the pair up to date early does not change what is available later. */
  lemma RefillComposes(p: Params, level: Level, mid: real, late: real)
    requires p.rate >= 0.0 && mid <= late
    ensures Available(p, Level(Available(p, level, mid), mid), late) == Available(p, level, late)
  {
    EarnedAdds(p, level.at, mid, late);
    EarnedGrows(p, mid, mid, late, late);
  }

  lemma AvailableGrows(p: Params, level: Level, early: real, late: real)
    requires p.rate >= 0.0 && early <= late
    ensures Available(p, level, early) <= Available(p, level, late)
  {
    EarnedAdds(p, level.at, early, late);
    EarnedGrows(p, early, early, late, late);
  }

  /** A bucket left alone long enough is full. */
  lemma FullAfterIdling(p: Params, level: Level, idle: real, now: real)
    requires p.rate >= 0.0 && level.tokens >= 0.0 && level.at + idle <= now
    requires p.capacity <= idle * p.rate
    ensures Available(p, level, now) == p.capacity
  {
    assert Earned(p, level.at, now) - idle * p.rate == (now - level.at - idle) * p.rate;
  }

  // ----- closed form -----

  /** The bucket had been full just before grant `i`, and nothing was lost since. */
  function FullAt(p: Params, grants: seq<Grant>, i: nat, t: real): real
    requires i < |grants|
  {
    p.capacity + Earned(p, grants[i].at, t) - Cost(grants[i..])
  }

  /** The bucket never filled up since it was created. */
  function NeverFull(p: Params, start: Level, grants: seq<Grant>, t: real): real {
    start.tokens + Earned(p, start.at, t) - Cost(grants)
  }

  /** `v` is the least of: the capacity, the never-full balance, and the full-at-grant-i balances. */
  ghost predicate IsClosedForm(p: Params, start: Level, grants: seq<Grant>, t: real, v: real) {
    && v <= p.capacity
    && v <= NeverFull(p, start, grants, t)
    && (forall i :: 0 <= i < |grants| ==> v <= FullAt(p, grants, i, t))
    && (|| v == p.capacity
        || v == NeverFull(p, start, grants, t)
        || exists i :: 0 <= i < |grants| && v == FullAt(p, grants, i, t))
  }

  lemma FullAtStep(p: Params, front: seq<Grant>, grant: Grant, i: nat, t: real)
    requires i < |front|
    ensures FullAt(p, front + [grant], i, t)
         == FullAt(p, front, i, grant.at) + Earned(p, grant.at, t) - grant.cost
  {
    assert (front + [grant])[i..] == front[i..] + [grant];
    CostAppend(front[i..], grant);
    EarnedAdds(p, front[i].at, grant.at, t);
  }

  lemma CostAppend(front: seq<Grant>, grant: Grant)
    ensures Cost(front + [grant]) == Cost(front) + grant.cost
  {
    assert (front + [grant])[..|front|] == front;
  }

  /** The lazy pair always equals the closed form over the whole history. */
  lemma {:induction false} LazyPairIsClosedForm(p: Params, start: Level, grants: seq<Grant>, t: real)
    requires p.rate >= 0.0
    ensures IsClosedForm(p, start, grants, t, Available(p, Replay(p, start, grants), t))
  {
    if grants != [] {
      var front, grant := grants[..|grants| - 1], grants[|grants| - 1];
      assert grants == front + [grant];
      var before := Available(p, Replay(p, start, front), grant.at);
      LazyPairIsClosedForm(p, start, front, grant.at);
      var v := Available(p, Replay(p, start, grants), t);
      var gain := Earned(p, grant.at, t) - grant.cost;
      assert v == Min(p.capacity, before + gain);
      assert NeverFull(p, start, grants, t) == NeverFull(p, start, front, grant.at) + gain by {
        CostAppend(front, grant);
        EarnedAdds(p, start.at, grant.at, t);
      }
      assert FullAt(p, grants, |front|, t) == p.capacity + gain by {
        assert grants[|front|..] == [grant];
        CostAppend([], grant);
      }
      forall i | 0 <= i < |front|
        ensures FullAt(p, grants, i, t) == FullAt(p, front, i, grant.at) + gain
      {
        FullAtStep(p, front, grant, i, t);
      }
      ClosedFormStep(p, start, front, grant, t, before, v);
    }
  }

  lemma ClosedFormStep(p: Params, start: Level, front: seq<Grant>, grant: Grant, t: real, before: real, v: real)
    requires IsClosedForm(p, start, front, grant.at, before)
    requires var gain := Earned(p, grant.at, t) - grant.cost;
      var grants := front + [grant];
      && v == Min(p.capacity, before + gain)
      && NeverFull(p, start, grants, t) == NeverFull(p, start, front, grant.at) + gain
      && FullAt(p, grants, |front|, t) == p.capacity + gain
      && forall i :: 0 <= i < |front| ==> FullAt(p, grants, i, t) == FullAt(p, front, i, grant.at) + gain
    ensures IsClosedForm(p, start, front + [grant], t, v)
  {
    var gain := Earned(p, grant.at, t) - grant.cost;
    var grants := front + [grant];
    if v != p.capacity && v != NeverFull(p, start, grants, t) {
      if before == p.capacity {
        assert v == FullAt(p, grants, |front|, t);
      } else {
        var i :| 0 <= i < |front| && before == FullAt(p, front, i, grant.at);
        assert v == FullAt(p, grants, i, t);
      }
    }
  }

  // ----- what an interval may be granted -----

  /** The cost of the grants made in the closed interval [s, t]. */
  function CostBetween(grants: seq<Grant>, s: real, t: real): real {
    if grants == [] then 0.0
    else
      var grant := grants[|grants| - 1];
      CostBetween(grants[..|grants| - 1], s, t) + if s <= grant.at <= t then grant.cost else 0.0
  }

  /** The first grant at or after `s`. */
  function FirstFrom(grants: seq<Grant>, s: real): (i: nat)
    ensures i <= |grants|
    ensures i < |grants| ==> grants[i].at >= s
    ensures forall j :: 0 <= j < i ==> grants[j].at < s
  {
    if grants == [] then 0
    else
      var i := FirstFrom(grants[..|grants| - 1], s);
      if i == |grants| - 1 && grants[i].at < s then i + 1 else i
  }

  lemma {:induction false} CostBetweenIsSuffix(grants: seq<Grant>, s: real, t: real)
    requires forall i, j :: 0 <= i < j < |grants| ==> grants[i].at <= grants[j].at
    requires forall j :: 0 <= j < |grants| ==> grants[j].at <= t
    ensures CostBetween(grants, s, t) == Cost(grants[FirstFrom(grants, s)..])
  {
    if grants != [] {
      var front, grant := grants[..|grants| - 1], grants[|grants| - 1];
      var i := FirstFrom(front, s);
      assert CostBetween(front, s, t) == Cost(front[i..]) by { CostBetweenIsSuffix(front, s, t); }
      assert i < |front| ==> grants[i].at <= grant.at;
      if grant.at >= s {
        assert FirstFrom(grants, s) == i && grants[i..] == front[i..] + [grant];
        CostAppend(front[i..], grant);
      } else {
        assert grants[FirstFrom(grants, s)..] == [] && front[i..] == [];
      }
    }
  }

  /** Over any interval, whatever the costs, at most the capacity plus what the interval earns is granted. */
  lemma {:induction false} IntervalBound(p: Params, start: Level, grants: seq<Grant>, s: real, t: real)
    requires p.rate >= 0.0 && p.capacity >= 0.0 && s <= t
    requires Chronological(start, grants) && Affordable(p, start, grants)
    ensures CostBetween(grants, s, t) <= p.capacity + Earned(p, s, t)
  {
    EarnedGrows(p, s, s, t, t);
    if grants != [] {
      var front, grant := grants[..|grants| - 1], grants[|grants| - 1];
      if s <= grant.at <= t {
        CostBetweenIsSuffix(grants, s, t);
        SuffixBound(p, start, grants, FirstFrom(grants, s));
        EarnedGrows(p, s, grants[FirstFrom(grants, s)].at, grant.at, t);
      } else {
        IntervalBound(p, start, front, s, t);
      }
    }
  }

  lemma SuffixBound(p: Params, start: Level, grants: seq<Grant>, i: nat)
    requires p.rate >= 0.0 && i < |grants| && Affordable(p, start, grants)
    ensures Cost(grants[i..]) <= p.capacity + Earned(p, grants[i].at, grants[|grants| - 1].at)
  {
    var front, grant := grants[..|grants| - 1], grants[|grants| - 1];
    var available := Available(p, Replay(p, start, front), grant.at);
    assert grant.cost <= available <= p.capacity;
    assert Cost(grants[i..]) == Cost(front[i..]) + grant.cost by {
      assert grants[i..] == front[i..] + [grant];
      CostAppend(front[i..], grant);
    }
    if i < |front| {
      assert available <= FullAt(p, front, i, grant.at) by {
        LazyPairIsClosedForm(p, start, front, grant.at);
      }
      assert front[i] == grants[i];
    } else {
      assert front[i..] == [] && grants[i] == grant;
      assert Earned(p, grant.at, grant.at) == 0.0;
    }
  }

  // ----- retries -----

  /** The exact first instant at which a refused cost becomes affordable, if it ever does. */
  lemma FirstAffordableInstant(p: Params, level: Level, cost: real, now: real, retry: real)
    requires p.rate > 0.0 && now <= retry && Available(p, level, now) < cost
    ensures Available(p, level, retry) >= cost
       <==> cost <= p.capacity && retry - now >= (cost - Available(p, level, now)) / p.rate
  {
    var short := cost - Available(p, level, now);
    RefillComposes(p, level, now, retry);
    DivisionMeetsProduct(retry - now, p.rate, short);
  }

  lemma DivisionMeetsProduct(x: real, rate: real, need: real)
    requires rate > 0.0
    ensures x * rate >= need <==> x >= need / rate
  {
    var q := need / rate;
    assert q * rate == need;
    if x >= q {
      assert x * rate - need == (x - q) * rate;
    } else {
      assert need - x * rate == (q - x) * rate;
    }
  }
}
