/**
 The sliding-window request log that every window limiter of the repository keeps:
 a list of admission stamps, pruned to the live ones before each decision.

 The log the code keeps is pruned at arbitrary moments. Everything here is stated about
 the unpruned history of admissions; KeepComposes is what lets the pruned log stand in for it.
 */
module SlidingLog {

  /** Whether a stamp exactly one window old still counts. */
  datatype Edge = Open | Closed

  datatype Rule = Rule(limit: int, window: real, edge: Edge) {

    predicate Live(stamp: real, now: real) {
      match edge
      case Open => now - stamp < window
      case Closed => now - stamp <= window
    }

    /** The most admissions a window may hold: a negative limit admits nothing. */
    function Cap(): nat {
      if limit < 0 then 0 else limit
    }
  }

  /** The stamps still inside the window ending at `now`, in their original order. */
  function Keep(rule: Rule, log: seq<real>, now: real): (kept: seq<real>)
    ensures |kept| <= |log|
  {
    if log == [] then []
    else
      var last := log[|log| - 1];
      var rest := Keep(rule, log[..|log| - 1], now);
      if rule.Live(last, now) then rest + [last] else rest
  }

  /** How many of the stamps lie in the window ending at `t`; later stamps do not count. */
  function WindowCount(rule: Rule, log: seq<real>, t: real): nat {
    if log == [] then 0
    else
      var last := log[|log| - 1];
      WindowCount(rule, log[..|log| - 1], t) + if last <= t && rule.Live(last, t) then 1 else 0
  }

  /** The promise of a window limiter: no window, wherever it ends, holds more than the limit. */
  ghost predicate WithinLimit(rule: Rule, log: seq<real>) {
    forall t: real :: WindowCount(rule, log, t) <= rule.Cap()
  }

  ghost predicate Ordered(log: seq<real>) {
    forall i, j :: 0 <= i < j < |log| ==> log[i] <= log[j]
  }

  ghost predicate NotAfter(log: seq<real>, t: real) {
    forall i :: 0 <= i < |log| ==> log[i] <= t
  }

  // ----- pruning -----

  lemma {:induction false} KeptIsLiveAndLogged(rule: Rule, log: seq<real>, now: real)
    ensures forall i :: 0 <= i < |Keep(rule, log, now)| ==>
      Keep(rule, log, now)[i] in log && rule.Live(Keep(rule, log, now)[i], now)
  {
    if log != [] {
      KeptIsLiveAndLogged(rule, log[..|log| - 1], now);
    }
  }

  lemma {:induction false} KeepAppend(rule: Rule, log: seq<real>, stamp: real, now: real)
    ensures Keep(rule, log + [stamp], now)
         == Keep(rule, log, now) + if rule.Live(stamp, now) then [stamp] else []
  {
    assert (log + [stamp])[..|log|] == log;
  }

  /** Pruning early loses nothing: what a later prune would keep is still there. */
  lemma {:induction false} KeepComposes(rule: Rule, log: seq<real>, early: real, late: real)
    requires early <= late
    ensures Keep(rule, Keep(rule, log, early), late) == Keep(rule, log, late)
  {
    if log != [] {
      var front, last := log[..|log| - 1], log[|log| - 1];
      KeepComposes(rule, front, early, late);
      assert log == front + [last];
      KeepAppend(rule, front, last, early);
      KeepAppend(rule, front, last, late);
      KeepAppend(rule, Keep(rule, front, early), last, late);
    }
  }

  lemma {:induction false} KeepShrinks(rule: Rule, log: seq<real>, early: real, late: real)
    requires early <= late
    ensures |Keep(rule, log, late)| <= |Keep(rule, log, early)|
  {
    KeepComposes(rule, log, early, late);
  }

  lemma {:induction false} KeepIsWindowCount(rule: Rule, log: seq<real>, t: real)
    requires NotAfter(log, t)
    ensures |Keep(rule, log, t)| == WindowCount(rule, log, t)
  {
    if log != [] {
      var front := log[..|log| - 1];
      assert NotAfter(front, t) by {
        forall i | 0 <= i < |front| ensures front[i] <= t { assert front[i] == log[i]; }
      }
      KeepIsWindowCount(rule, front, t);
    }
  }

  lemma {:induction false} KeepOrdered(rule: Rule, log: seq<real>, now: real)
    requires Ordered(log)
    ensures Ordered(Keep(rule, log, now))
  {
    if log != [] {
      var front, last := log[..|log| - 1], log[|log| - 1];
      KeepOrdered(rule, front, now);
      var rest := Keep(rule, front, now);
      KeptIsLiveAndLogged(rule, front, now);
      forall i | 0 <= i < |rest| ensures rest[i] <= last {
        assert rest[i] in front;
      }
    }
  }

  // ----- admissions over a whole run -----

  /** One request: the clock reading the decision uses, and the later one the log records. */
  datatype Ask = Ask(seen: real, stamp: real)

  predicate Admits(rule: Rule, history: seq<real>, seen: real) {
    |Keep(rule, history, seen)| < rule.limit
  }

  /** The stamps admitted over a run of requests, when nothing is ever pruned. */
  function Admitted(rule: Rule, asks: seq<Ask>): (history: seq<real>)
    ensures |history| <= |asks|
  {
    if asks == [] then []
    else
      var history := Admitted(rule, asks[..|asks| - 1]);
      var ask := asks[|asks| - 1];
      if Admits(rule, history, ask.seen) then history + [ask.stamp] else history
  }

  /** The clock never runs backwards within a request or between requests. */
  ghost predicate Timed(asks: seq<Ask>) {
    && (forall i :: 0 <= i < |asks| ==> asks[i].seen <= asks[i].stamp)
    && (forall i, j :: 0 <= i < j < |asks| ==> asks[i].stamp <= asks[j].seen)
  }

  lemma {:induction false} AdmittedNotAfter(rule: Rule, asks: seq<Ask>, t: real)
    requires Timed(asks)
    requires forall i :: 0 <= i < |asks| ==> asks[i].stamp <= t
    ensures NotAfter(Admitted(rule, asks), t) && Ordered(Admitted(rule, asks))
  {
    if asks != [] {
      var front, ask := asks[..|asks| - 1], asks[|asks| - 1];
      AdmittedNotAfter(rule, front, ask.seen);
    }
  }

  lemma {:induction false} AppendStaysWithinLimit(rule: Rule, log: seq<real>, seen: real, stamp: real)
    requires WithinLimit(rule, log) && NotAfter(log, seen) && seen <= stamp
    requires Admits(rule, log, seen)
    ensures WithinLimit(rule, log + [stamp])
  {
    forall t: real ensures WindowCount(rule, log + [stamp], t) <= rule.Cap() {
      assert (log + [stamp])[..|log|] == log;
      if stamp <= t {
        KeepShrinks(rule, log, seen, t);
        KeepIsWindowCount(rule, log, t);
      } else {
        assert WindowCount(rule, log, t) <= rule.Cap();
      }
    }
  }

  /** Safety over every run: no window ever holds more than the limit. */
  lemma {:induction false} AdmittedWithinLimit(rule: Rule, asks: seq<Ask>)
    requires Timed(asks)
    ensures WithinLimit(rule, Admitted(rule, asks))
  {
    if asks != [] {
      var front, ask := asks[..|asks| - 1], asks[|asks| - 1];
      AdmittedWithinLimit(rule, front);
      AdmittedNotAfter(rule, front, ask.seen);
      var history := Admitted(rule, front);
      if Admits(rule, history, ask.seen) {
        AppendStaysWithinLimit(rule, history, ask.seen, ask.stamp);
      }
    }
  }

  /**
   The instant a refused request may first succeed: as long as nothing else is admitted,
   a retry succeeds exactly when the oldest live stamp has left the window.
   */
  lemma {:induction false} OldestStampDecidesRetry(rule: Rule, asks: seq<Ask>, seen: real, retry: real)
    requires Timed(asks) && seen <= retry && rule.limit >= 1
    requires forall i :: 0 <= i < |asks| ==> asks[i].stamp <= seen
    requires !Admits(rule, Admitted(rule, asks), seen)
    ensures var history := Admitted(rule, asks);
      var live := Keep(rule, history, seen);
      && live != [] && (forall i :: 0 <= i < |live| ==> live[0] <= live[i])
      && (Admits(rule, history, retry) <==> !rule.Live(live[0], retry))
  {
    var history := Admitted(rule, asks);
    var live := Keep(rule, history, seen);
    assert Ordered(live) && |live| == rule.limit by {
      AdmittedNotAfter(rule, asks, seen);
      AdmittedWithinLimit(rule, asks);
      KeepIsWindowCount(rule, history, seen);
      KeepOrdered(rule, history, seen);
    }
    KeepComposes(rule, history, seen, retry);
    KeptIsLiveAndLogged(rule, history, seen);
    if rule.Live(live[0], retry) {
      KeepAll(rule, live, retry);
    } else {
      KeepDropsHead(rule, live, retry);
    }
  }

  lemma {:induction false} KeepAll(rule: Rule, log: seq<real>, now: real)
    requires forall i :: 0 <= i < |log| ==> rule.Live(log[i], now)
    ensures Keep(rule, log, now) == log
  {
    if log != [] {
      KeepAll(rule, log[..|log| - 1], now);
    }
  }

  lemma {:induction false} KeepDropsHead(rule: Rule, log: seq<real>, now: real)
    requires log != [] && !rule.Live(log[0], now)
    ensures |Keep(rule, log, now)| < |log|
  {
    if |log| > 1 {
      KeepDropsHead(rule, log[..|log| - 1], now);
    }
  }

  // ----- in seconds -----

  /** Two stamps this far apart never count in one window. */
  predicate Apart(rule: Rule, gap: real) {
    match rule.edge
    case Open => gap >= rule.window
    case Closed => gap > rule.window
  }

  lemma {:induction false} KeepFromExpired(rule: Rule, log: seq<real>, now: real, m: nat)
    requires m <= |log| && forall i :: 0 <= i < m ==> Apart(rule, now - log[i])
    requires forall i :: m <= i < |log| ==> !Apart(rule, now - log[i])
    ensures |Keep(rule, log, now)| == |log| - m
  {
    if log != [] {
      KeepFromExpired(rule, log[..|log| - 1], now, if m == |log| then m - 1 else m);
    }
  }

  /** The stamps of an ordered log that have left the window are its first so many. */
  lemma {:induction false} ExpiredAreFirst(rule: Rule, log: seq<real>, now: real) returns (m: nat)
    requires Ordered(log)
    ensures m <= |log| && forall i :: 0 <= i < m ==> Apart(rule, now - log[i])
    ensures forall i :: m <= i < |log| ==> !Apart(rule, now - log[i])
  {
    m := 0;
    if log != [] && Apart(rule, now - log[|log| - 1]) {
      m := |log|;
    } else if log != [] {
      m := ExpiredAreFirst(rule, log[..|log| - 1], now);
    }
  }

  /**
   A request is admitted exactly if fewer than the limit have been, or the limit-th latest admission lies
   a window back: at least a window where a stamp of that age no longer counts, more than one where it does.
   */
  lemma AdmittedByGap(rule: Rule, history: seq<real>, now: real)
    requires Ordered(history) && rule.limit >= 1
    ensures Admits(rule, history, now) <==>
      |history| < rule.limit || Apart(rule, now - history[|history| - rule.limit])
  {
    var m := ExpiredAreFirst(rule, history, now);
    KeepFromExpired(rule, history, now, m);
  }

  /** Any stamp and the one that comes the limit later lie a window apart. */
  ghost predicate SpacedOut(rule: Rule, history: seq<real>)
    requires rule.limit >= 1
  {
    forall i :: 0 <= i < |history| - rule.limit ==> Apart(rule, history[i + rule.limit] - history[i])
  }

  lemma NextIsApart(rule: Rule, history: seq<real>, seen: real, stamp: real)
    requires rule.limit >= 1 && SpacedOut(rule, history)
    requires Ordered(history) && seen <= stamp && Admits(rule, history, seen)
    ensures SpacedOut(rule, history + [stamp])
  {
    AdmittedByGap(rule, history, seen);
  }

  /** In every timed run any admission and the one that comes the limit later lie a window apart. */
  lemma {:induction false} AdmissionsAreApart(rule: Rule, asks: seq<Ask>)
    requires Timed(asks) && rule.limit >= 1
    ensures SpacedOut(rule, Admitted(rule, asks))
  {
    if asks != [] {
      var front, ask := asks[..|asks| - 1], asks[|asks| - 1];
      var before := Admitted(rule, front);
      AdmissionsAreApart(rule, front);
      assert Ordered(before) by { AdmittedNotAfter(rule, front, ask.seen); }
      if Admits(rule, before, ask.seen) {
        NextIsApart(rule, before, ask.seen, ask.stamp);
      }
    }
  }

  // ----- optimality -----

  /** The arrivals picked out by `choice`, in order. */
  function Select(arrivals: seq<real>, choice: seq<bool>): (picked: seq<real>)
    requires |arrivals| == |choice|
    ensures |picked| <= |arrivals|
  {
    if arrivals == [] then []
    else
      var n := |arrivals| - 1;
      Select(arrivals[..n], choice[..n]) + if choice[n] then [arrivals[n]] else []
  }

  /** Requests that read the clock once each. */
  function Instants(arrivals: seq<real>): (asks: seq<Ask>)
    ensures |asks| == |arrivals|
    ensures forall i :: 0 <= i < |asks| ==> asks[i] == Ask(arrivals[i], arrivals[i])
  {
    seq(|arrivals|, i requires 0 <= i < |arrivals| => Ask(arrivals[i], arrivals[i]))
  }

  /** The limiter's own answers, as a choice among the arrivals. */
  function Answers(rule: Rule, arrivals: seq<real>): (choice: seq<bool>)
    ensures |choice| == |arrivals|
    ensures Select(arrivals, choice) == Admitted(rule, Instants(arrivals))
  {
    if arrivals == [] then []
    else
      var n := |arrivals| - 1;
      var choice := Answers(rule, arrivals[..n]);
      assert Instants(arrivals)[..n] == Instants(arrivals[..n]);
      var answer := Admits(rule, Admitted(rule, Instants(arrivals[..n])), arrivals[n]);
      assert (choice + [answer])[..n] == choice;
      choice + [answer]
  }

  /** How many of the arrivals are already outside the window ending at `t`. */
  function Expired(rule: Rule, arrivals: seq<real>, t: real): (p: nat)
    requires Ordered(arrivals)
    ensures p <= |arrivals|
    ensures forall i :: 0 <= i < p ==> !rule.Live(arrivals[i], t)
    ensures forall i :: p <= i < |arrivals| ==> rule.Live(arrivals[i], t)
  {
    if arrivals == [] || !rule.Live(arrivals[|arrivals| - 1], t) then |arrivals|
    else Expired(rule, arrivals[..|arrivals| - 1], t)
  }

  lemma {:induction false} NothingLive(rule: Rule, arrivals: seq<real>, choice: seq<bool>, t: real)
    requires |arrivals| == |choice|
    requires forall i :: 0 <= i < |arrivals| ==> !rule.Live(arrivals[i], t)
    ensures WindowCount(rule, Select(arrivals, choice), t) == 0
  {
    if arrivals != [] {
      var n := |arrivals| - 1;
      var front := Select(arrivals[..n], choice[..n]);
      NothingLive(rule, arrivals[..n], choice[..n], t);
      SelectLast(arrivals, choice);
      assert (front + [arrivals[n]])[..|front|] == front;
    }
  }

  lemma SelectLast(arrivals: seq<real>, choice: seq<bool>)
    requires |arrivals| == |choice| > 0
    ensures var n := |arrivals| - 1;
      var front := Select(arrivals[..n], choice[..n]);
      Select(arrivals, choice) == if choice[n] then front + [arrivals[n]] else front
  {
  }

  /** Over ordered arrivals the window holds a suffix of any choice. */
  lemma {:induction false} WindowCountOfSelect(rule: Rule, arrivals: seq<real>, choice: seq<bool>, t: real, p: nat)
    requires |arrivals| == |choice| && NotAfter(arrivals, t) && p <= |arrivals|
    requires forall i :: 0 <= i < p ==> !rule.Live(arrivals[i], t)
    requires forall i :: p <= i < |arrivals| ==> rule.Live(arrivals[i], t)
    ensures WindowCount(rule, Select(arrivals, choice), t)
         == |Select(arrivals, choice)| - |Select(arrivals[..p], choice[..p])|
  {
    if p == |arrivals| {
      NothingLive(rule, arrivals, choice, t);
      assert arrivals[..p] == arrivals && choice[..p] == choice;
    } else {
      var n := |arrivals| - 1;
      var front := Select(arrivals[..n], choice[..n]);
      WindowCountOfSelect(rule, arrivals[..n], choice[..n], t, p);
      assert arrivals[..n][..p] == arrivals[..p] && choice[..n][..p] == choice[..p];
      SelectLast(arrivals, choice);
      assert (front + [arrivals[n]])[..|front|] == front;
    }
  }

  lemma {:induction false} SelectPrefix(arrivals: seq<real>, choice: seq<bool>, n: nat)
    requires |arrivals| == |choice| && n <= |arrivals|
    ensures Select(arrivals[..n], choice[..n]) <= Select(arrivals, choice)
  {
    if n < |arrivals| {
      var m := |arrivals| - 1;
      SelectPrefix(arrivals[..m], choice[..m], n);
      assert arrivals[..m][..n] == arrivals[..n] && choice[..m][..n] == choice[..n];
    } else {
      assert arrivals[..n] == arrivals && choice[..n] == choice;
    }
  }

  lemma {:induction false} WindowCountOfPrefix(rule: Rule, prefix: seq<real>, log: seq<real>, t: real)
    requires prefix <= log
    ensures WindowCount(rule, prefix, t) <= WindowCount(rule, log, t)
  {
    if |prefix| < |log| {
      WindowCountOfPrefix(rule, prefix, log[..|log| - 1], t);
    } else {
      assert prefix == log;
    }
  }

  lemma {:induction false} RivalPrefix(rule: Rule, arrivals: seq<real>, choice: seq<bool>, n: nat)
    requires |choice| == |arrivals| && n <= |arrivals|
    requires WithinLimit(rule, Select(arrivals, choice))
    ensures WithinLimit(rule, Select(arrivals[..n], choice[..n]))
  {
    SelectPrefix(arrivals, choice, n);
    forall t: real ensures WindowCount(rule, Select(arrivals[..n], choice[..n]), t) <= rule.Cap() {
      WindowCountOfPrefix(rule, Select(arrivals[..n], choice[..n]), Select(arrivals, choice), t);
      assert WindowCount(rule, Select(arrivals, choice), t) <= rule.Cap();
    }
  }

  lemma AnswersFront(rule: Rule, arrivals: seq<real>)
    requires arrivals != []
    ensures Answers(rule, arrivals)[..|arrivals| - 1] == Answers(rule, arrivals[..|arrivals| - 1])
  {
  }

  lemma {:induction false} AnswersPrefix(rule: Rule, arrivals: seq<real>, n: nat)
    requires n <= |arrivals|
    ensures Answers(rule, arrivals[..n]) == Answers(rule, arrivals)[..n]
  {
    if n < |arrivals| {
      var m := |arrivals| - 1;
      var all, fewer := Answers(rule, arrivals), Answers(rule, arrivals[..m]);
      assert Answers(rule, arrivals[..n]) == fewer[..n] by {
        assert arrivals[..m][..n] == arrivals[..n];
        AnswersPrefix(rule, arrivals[..m], n);
      }
      assert all[..m] == fewer by {
        AnswersFront(rule, arrivals);
      }
      assert all[..m][..n] == all[..n];
    } else {
      assert arrivals[..n] == arrivals;
    }
  }

  /** Adding one arrival to a run adds its stamp exactly when the limiter admits it. */
  lemma {:induction false} AdmittedStep(rule: Rule, arrivals: seq<real>, now: real)
    ensures var history := Admitted(rule, Instants(arrivals));
      Admitted(rule, Instants(arrivals + [now])) == if Admits(rule, history, now) then history + [now] else history
  {
    assert Instants(arrivals + [now])[..|arrivals|] == Instants(arrivals);
  }

  /** The window of a refusing limiter is full of admissions made since the first `p` arrivals expired. */
  lemma {:induction false} RefusalMeansFullWindow(rule: Rule, arrivals: seq<real>, now: real, p: nat)
    requires Ordered(arrivals) && NotAfter(arrivals, now) && rule.limit >= 1
    requires p == Expired(rule, arrivals, now)
    requires !Admits(rule, Admitted(rule, Instants(arrivals)), now)
    ensures rule.Live(now, now)
    ensures |Admitted(rule, Instants(arrivals))| >= rule.limit + |Admitted(rule, Instants(arrivals[..p]))|
  {
    var history := Admitted(rule, Instants(arrivals));
    AdmittedNotAfter(rule, Instants(arrivals), now);
    KeepIsWindowCount(rule, history, now);
    WindowCountOfSelect(rule, arrivals, Answers(rule, arrivals), now, p);
    AnswersPrefix(rule, arrivals, p);
    KeptStampIsLive(rule, history, now);
  }

  lemma KeptStampIsLive(rule: Rule, log: seq<real>, now: real)
    requires NotAfter(log, now) && Keep(rule, log, now) != []
    ensures rule.Live(now, now)
  {
    KeptIsLiveAndLogged(rule, log, now);
    assert Keep(rule, log, now)[0] in log;
  }

  /** A compliant rival that takes the latest arrival took at most `limit` since the first `p` expired. */
  lemma {:induction false} RivalWindow(rule: Rule, arrivals: seq<real>, choice: seq<bool>, now: real, p: nat)
    requires Ordered(arrivals) && NotAfter(arrivals, now) && |choice| == |arrivals|
    requires p == Expired(rule, arrivals, now) && rule.Live(now, now) && rule.limit >= 1
    requires WithinLimit(rule, Select(arrivals, choice) + [now])
    ensures |Select(arrivals, choice)| + 1 <= rule.limit + |Select(arrivals[..p], choice[..p])|
  {
    var picked := Select(arrivals, choice);
    WindowCountOfSelect(rule, arrivals, choice, now, p);
    assert (picked + [now])[..|picked|] == picked;
    assert WindowCount(rule, picked + [now], now) <= rule.Cap();
  }

  /** If the rival was not ahead when the window opened, it cannot get ahead by taking a refused arrival. */
  lemma RefusedArrivalGainsNothing(rule: Rule, arrivals: seq<real>, choice: seq<bool>, now: real, p: nat)
    requires Ordered(arrivals) && NotAfter(arrivals, now) && |choice| == |arrivals|
    requires p == Expired(rule, arrivals, now) && rule.limit >= 1
    requires WithinLimit(rule, Select(arrivals, choice) + [now])
    requires !Admits(rule, Admitted(rule, Instants(arrivals)), now)
    requires |Select(arrivals[..p], choice[..p])| <= |Admitted(rule, Instants(arrivals[..p]))|
    ensures |Select(arrivals, choice)| + 1 <= |Admitted(rule, Instants(arrivals))|
  {
    RefusalMeansFullWindow(rule, arrivals, now, p);
    RivalWindow(rule, arrivals, choice, now, p);
  }

  /** One more arrival, taken by the rival or not, leaves the limiter at least as far ahead. */
  lemma OneMoreArrival(rule: Rule, front: seq<real>, choice: seq<bool>, now: real, takes: bool, p: nat)
    requires Ordered(front) && NotAfter(front, now) && |choice| == |front| && rule.limit >= 1
    requires takes ==> WithinLimit(rule, Select(front, choice) + [now])
    requires |Select(front, choice)| <= |Admitted(rule, Instants(front))|
    requires p == Expired(rule, front, now)
    requires |Select(front[..p], choice[..p])| <= |Admitted(rule, Instants(front[..p]))|
    ensures var taken := if takes then |Select(front, choice)| + 1 else |Select(front, choice)|;
      taken <= |Admitted(rule, Instants(front + [now]))|
  {
    AdmittedStep(rule, front, now);
    if takes && !Admits(rule, Admitted(rule, Instants(front)), now) {
      RefusedArrivalGainsNothing(rule, front, choice, now, p);
    }
  }

  /** The exchange argument: after every arrival the limiter is at least as far ahead as any rival. */
  lemma {:induction false} NoRivalGetsAhead(rule: Rule, arrivals: seq<real>, choice: seq<bool>)
    requires Ordered(arrivals) && |choice| == |arrivals| && rule.limit >= 1
    requires WithinLimit(rule, Select(arrivals, choice))
    ensures |Select(arrivals, choice)| <= |Admitted(rule, Instants(arrivals))|
    decreases |arrivals|
  {
    if arrivals != [] {
      var n := |arrivals| - 1;
      var front, front', now := arrivals[..n], choice[..n], arrivals[n];
      assert arrivals == front + [now];
      assert WithinLimit(rule, Select(front, front')) by { RivalPrefix(rule, arrivals, choice, n); }
      NoRivalGetsAhead(rule, front, front');
      var p := Expired(rule, front, now);
      assert |Select(front[..p], front'[..p])| <= |Admitted(rule, Instants(front[..p]))| by {
        RivalPrefix(rule, front, front', p);
        NoRivalGetsAhead(rule, front[..p], front'[..p]);
      }
      SelectLast(arrivals, choice);
      OneMoreArrival(rule, front, front', now, choice[n], p);
    }
  }

  /** The k-th of ours is never later than the k-th of theirs, and we never run out first. */
  ghost predicate NeverBehind(ours: seq<real>, theirs: seq<real>) {
    |theirs| <= |ours| && forall k :: 0 <= k < |theirs| ==> ours[k] <= theirs[k]
  }

  lemma ExtendPointwise(ours: seq<real>, theirs: seq<real>, ours': seq<real>, more: seq<real>, now: real)
    requires NeverBehind(ours, theirs) && ours <= ours' && NotAfter(ours', now)
    requires |theirs| + |more| <= |ours'| && more in {[], [now]}
    ensures NeverBehind(ours', theirs + more)
  {
  }

  /**
   Sliding-window admission is optimal: no subset of the arrivals that respects the limit in every
   window is larger than the admitted set, and the k-th admission is never later than the k-th
   member of any such subset.
   */
  lemma {:induction false} AdmissionIsOptimal(rule: Rule, arrivals: seq<real>, choice: seq<bool>)
    requires Ordered(arrivals) && |choice| == |arrivals| && rule.limit >= 1
    requires WithinLimit(rule, Select(arrivals, choice))
    ensures NeverBehind(Admitted(rule, Instants(arrivals)), Select(arrivals, choice))
  {
    if arrivals != [] {
      var n := |arrivals| - 1;
      var front, now := arrivals[..n], arrivals[n];
      assert arrivals == front + [now];
      var ours := Admitted(rule, Instants(arrivals));
      assert |Select(arrivals, choice)| <= |ours| by { NoRivalGetsAhead(rule, arrivals, choice); }
      assert NeverBehind(Admitted(rule, Instants(front)), Select(front, choice[..n])) by {
        RivalPrefix(rule, arrivals, choice, n);
        AdmissionIsOptimal(rule, front, choice[..n]);
      }
      assert Admitted(rule, Instants(front)) <= ours by { AdmittedStep(rule, front, now); }
      assert NotAfter(ours, now) by { AdmittedNotAfter(rule, Instants(arrivals), now); }
      ExtendPointwise(Admitted(rule, Instants(front)), Select(front, choice[..n]), ours,
                      if choice[n] then [now] else [], now);
    }
  }
}
