/**
 The monitoring server's limiter takes its window from each call. A call prunes by its own window, so a
 short one can forget stamps that a later, longer one would have counted.
 */
module MixedWindows {
  import opened SlidingLog
  import opened WindowLimiters

  datatype Call = Call(window: real, now: real) {

    /** Where the call's window begins. */
    function Since(): real {
      now - window
    }

    function RuleOf(limit: int, edge: Edge): Rule {
      Rule(limit, window, edge)
    }
  }

  lemma {:induction false} PruningComposes(limit: int, edge: Edge, first: Call, second: Call, log: seq<real>)
    requires first.Since() <= second.Since()
    ensures Keep(second.RuleOf(limit, edge), Keep(first.RuleOf(limit, edge), log, first.now), second.now)
         == Keep(second.RuleOf(limit, edge), log, second.now)
  {
    if log != [] {
      var front, last := log[..|log| - 1], log[|log| - 1];
      PruningComposes(limit, edge, first, second, front);
      KeepAppend(second.RuleOf(limit, edge), Keep(first.RuleOf(limit, edge), front, first.now), last, second.now);
    }
  }

  ghost predicate PruningUnnoticed(limit: int, edge: Edge, first: Call, second: Call) {
    forall log :: Keep(second.RuleOf(limit, edge), Keep(first.RuleOf(limit, edge), log, first.now), second.now)
               == Keep(second.RuleOf(limit, edge), log, second.now)
  }

  /**
   Of any list whatever, what one call prunes leaves another the same live stamps if and only if the
   other's window begins no earlier. Whether a run's answers ever show it is another matter: see below.
   */
  lemma PruningUnnoticedExactly(limit: int, edge: Edge, first: Call, second: Call)
    ensures PruningUnnoticed(limit, edge, first, second) <==> first.Since() <= second.Since()
  {
    if first.Since() <= second.Since() {
      forall log ensures Keep(second.RuleOf(limit, edge), Keep(first.RuleOf(limit, edge), log, first.now), second.now)
                      == Keep(second.RuleOf(limit, edge), log, second.now)
      {
        PruningComposes(limit, edge, first, second, log);
      }
    } else {
      var stamp := if edge == Open then first.Since() else second.Since();
      KeepAppend(first.RuleOf(limit, edge), [], stamp, first.now);
      KeepAppend(second.RuleOf(limit, edge), [], stamp, second.now);
      assert [] + [stamp] == [stamp];
      assert Keep(first.RuleOf(limit, edge), [stamp], first.now) == [];
      assert Keep(second.RuleOf(limit, edge), [stamp], second.now) == [stamp];
    }
  }

  // ----- runs of calls with windows of their own -----

  /** A call on the pruned list. */
  function DriveOne(limit: int, edge: Edge, log: Log, call: Call): Log {
    var (stamps, ok) := Check(call.RuleOf(limit, edge), log.stamps, call.now);
    Log(stamps, log.answers + [ok])
  }

  /** A call on a list that is never pruned: it is answered from all that was admitted in its window. */
  function RememberOne(limit: int, edge: Edge, log: Log, call: Call): Log {
    var ok := |Keep(call.RuleOf(limit, edge), log.stamps, call.now)| < limit;
    Log(if ok then log.stamps + [call.now] else log.stamps, log.answers + [ok])
  }

  function Drive(limit: int, edge: Edge, calls: seq<Call>): (log: Log)
    ensures |log.answers| == |calls|
  {
    if calls == [] then Log([], [])
    else DriveOne(limit, edge, Drive(limit, edge, calls[..|calls| - 1]), calls[|calls| - 1])
  }

  function Remember(limit: int, edge: Edge, calls: seq<Call>): (log: Log)
    ensures |log.answers| == |calls|
  {
    if calls == [] then Log([], [])
    else RememberOne(limit, edge, Remember(limit, edge, calls[..|calls| - 1]), calls[|calls| - 1])
  }

  lemma DriveAppend(limit: int, edge: Edge, calls: seq<Call>, call: Call)
    ensures Drive(limit, edge, calls + [call]) == DriveOne(limit, edge, Drive(limit, edge, calls), call)
  {
    assert (calls + [call])[..|calls|] == calls;
  }

  lemma RememberAppend(limit: int, edge: Edge, calls: seq<Call>, call: Call)
    ensures Remember(limit, edge, calls + [call]) == RememberOne(limit, edge, Remember(limit, edge, calls), call)
  {
    assert (calls + [call])[..|calls|] == calls;
  }

  ghost predicate WindowsAdvance(calls: seq<Call>) {
    forall i, j :: 0 <= i < j < |calls| ==> calls[i].Since() <= calls[j].Since()
  }

  /** When no window begins before an earlier one did, every call is answered as if nothing were ever pruned. */
  lemma {:induction false} AdvancingWindowsForgetNothing(limit: int, edge: Edge, calls: seq<Call>, next: Call)
    requires WindowsAdvance(calls + [next])
    ensures Drive(limit, edge, calls).answers == Remember(limit, edge, calls).answers
    ensures Keep(next.RuleOf(limit, edge), Drive(limit, edge, calls).stamps, next.now)
         == Keep(next.RuleOf(limit, edge), Remember(limit, edge, calls).stamps, next.now)
  {
    if calls != [] {
      var front, last := calls[..|calls| - 1], calls[|calls| - 1];
      var all := calls + [next];
      assert front + [last] == calls == all[..|calls|];
      assert WindowsAdvance(front + [last]);
      assert all[|calls| - 1] == last && all[|calls|] == next;
      AdvancingWindowsForgetNothing(limit, edge, front, last);
      var pruned, full := Drive(limit, edge, front).stamps, Remember(limit, edge, front).stamps;
      var kept := Keep(last.RuleOf(limit, edge), pruned, last.now);
      PruningComposes(limit, edge, last, next, full);
      KeepAppend(next.RuleOf(limit, edge), kept, last.now, next.now);
      KeepAppend(next.RuleOf(limit, edge), full, last.now, next.now);
    }
  }

  lemma KeepOne(rule: Rule, stamp: real, now: real)
    ensures Keep(rule, [stamp], now) == if rule.Live(stamp, now) then [stamp] else []
  {
    KeepAppend(rule, [], stamp, now);
    assert [] + [stamp] == [stamp];
  }

  /** Two in a minute, with a one-second window in between. */
  const MINUTE := Call(60.0, 0.0)
  const SHORT := Call(1.0, 10.0)
  const AGAIN := Call(60.0, 20.0)

  lemma ShortDrive()
    ensures Drive(2, Closed, [MINUTE, SHORT]) == Log([10.0], [true, true])
  {
    assert [] + [MINUTE] == [MINUTE] && [MINUTE] + [SHORT] == [MINUTE, SHORT];
    DriveAppend(2, Closed, [], MINUTE);
    assert Drive(2, Closed, [MINUTE]) == Log([0.0], [true]);
    DriveAppend(2, Closed, [MINUTE], SHORT);
    KeepOne(SHORT.RuleOf(2, Closed), 0.0, 10.0);
  }

  lemma FullMemory()
    ensures Remember(2, Closed, [MINUTE, SHORT]) == Log([0.0, 10.0], [true, true])
  {
    assert [] + [MINUTE] == [MINUTE] && [MINUTE] + [SHORT] == [MINUTE, SHORT];
    RememberAppend(2, Closed, [], MINUTE);
    assert Remember(2, Closed, [MINUTE]) == Log([0.0], [true]);
    RememberAppend(2, Closed, [MINUTE], SHORT);
    KeepOne(SHORT.RuleOf(2, Closed), 0.0, 10.0);
    assert [0.0] + [10.0] == [0.0, 10.0];
  }

  /** The run that shows it: the third request of that minute is let in, where a full memory would refuse it. */
  lemma ShortWindowForgets()
    ensures Drive(2, Closed, [MINUTE, SHORT, AGAIN]).answers == [true, true, true]
    ensures Remember(2, Closed, [MINUTE, SHORT, AGAIN]).answers == [true, true, false]
  {
    assert [MINUTE, SHORT] + [AGAIN] == [MINUTE, SHORT, AGAIN];
    ShortDrive();
    FullMemory();
    DriveAppend(2, Closed, [MINUTE, SHORT], AGAIN);
    RememberAppend(2, Closed, [MINUTE, SHORT], AGAIN);
    KeepOne(AGAIN.RuleOf(2, Closed), 10.0, 20.0);
    KeepOne(AGAIN.RuleOf(2, Closed), 0.0, 20.0);
    KeepAppend(AGAIN.RuleOf(2, Closed), [0.0], 10.0, 20.0);
    assert [0.0] + [10.0] == [0.0, 10.0];
  }

  // ----- when the answers of a run can show it -----

  /** The clock does not go back, and every call's window is one of `windows`. */
  ghost predicate RunOver(calls: seq<Call>, windows: set<real>) {
    && (forall i, j :: 0 <= i < j < |calls| ==> calls[i].now <= calls[j].now)
    && forall i :: 0 <= i < |calls| ==> calls[i].window in windows
  }

  /** A window of that length counts a stamp made at the same instant. */
  predicate CountsNow(edge: Edge, window: real) {
    match edge case Open => window > 0.0 case Closed => window >= 0.0
  }

  ghost predicate NeverShows(limit: int, edge: Edge, windows: set<real>) {
    forall calls :: RunOver(calls, windows) ==>
        Drive(limit, edge, calls).answers == Remember(limit, edge, calls).answers
  }

  lemma {:induction false} NothingAdmitted(limit: int, edge: Edge, calls: seq<Call>)
    requires limit <= 0
    ensures Drive(limit, edge, calls).answers == Remember(limit, edge, calls).answers
  {
    if calls != [] {
      NothingAdmitted(limit, edge, calls[..|calls| - 1]);
    }
  }

  /** Over ordered stamps a window holds something exactly when it holds the last. */
  lemma {:induction false} LastDecides(rule: Rule, log: seq<real>, now: real)
    requires log != [] && Ordered(log)
    ensures Keep(rule, log, now) == [] <==> !rule.Live(log[|log| - 1], now)
  {
    var front, last := log[..|log| - 1], log[|log| - 1];
    if front != [] && !rule.Live(last, now) {
      LastDecides(rule, front, now);
    }
  }

  function LastOnly(log: seq<real>): seq<real> {
    if log == [] then [] else [log[|log| - 1]]
  }

  /** The pruned list holds just the last of all admissions, and the answers were the same. */
  ghost predicate HoldsTheLast(pruned: Log, full: Log, t: real) {
    && pruned.answers == full.answers && pruned.stamps == LastOnly(full.stamps)
    && Ordered(full.stamps) && NotAfter(full.stamps, t)
  }

  /** With a limit of one the last admission alone decides the next call. */
  lemma OneStep(edge: Edge, pruned: Log, full: Log, call: Call, t: real)
    requires HoldsTheLast(pruned, full, call.now) && call.now <= t
    ensures HoldsTheLast(DriveOne(1, edge, pruned, call), RememberOne(1, edge, full, call), t)
  {
    SameAnswer(call.RuleOf(1, edge), full.stamps, call.now);
    var kept := Keep(call.RuleOf(1, edge), pruned.stamps, call.now);
    var ok := |Keep(call.RuleOf(1, edge), full.stamps, call.now)| < 1;
    assert DriveOne(1, edge, pruned, call) == Log(if ok then [call.now] else kept, pruned.answers + [ok]);
    assert RememberOne(1, edge, full, call)
        == Log(if ok then full.stamps + [call.now] else full.stamps, full.answers + [ok]);
  }

  lemma SameAnswer(rule: Rule, full: seq<real>, now: real)
    requires Ordered(full)
    ensures Keep(rule, LastOnly(full), now) == if Keep(rule, full, now) == [] then [] else LastOnly(full)
  {
    if full != [] {
      LastDecides(rule, full, now);
      KeepOne(rule, full[|full| - 1], now);
    }
  }

  lemma {:induction false} OneRemembersTheLast(edge: Edge, calls: seq<Call>, windows: set<real>, t: real)
    requires RunOver(calls, windows) && forall i :: 0 <= i < |calls| ==> calls[i].now <= t
    ensures HoldsTheLast(Drive(1, edge, calls), Remember(1, edge, calls), t)
  {
    if calls != [] {
      var front, call := calls[..|calls| - 1], calls[|calls| - 1];
      assert forall i :: 0 <= i < |front| ==> front[i].now <= call.now;
      OneRemembersTheLast(edge, front, windows, call.now);
      OneStep(edge, Drive(1, edge, front), Remember(1, edge, front), call, t);
    }
  }

  lemma AlikeWindowsAdvance(limit: int, edge: Edge, calls: seq<Call>, windows: set<real>)
    requires RunOver(calls, windows) && forall a, b :: a in windows && b in windows ==> a == b
    ensures Drive(limit, edge, calls).answers == Remember(limit, edge, calls).answers
  {
    if calls != [] {
      var last := calls[|calls| - 1];
      AdvancingWindowsForgetNothing(limit, edge, calls, last);
    }
  }

  // The witness for two windows of different lengths and a limit of two or more.

  function Zeros(n: nat): seq<real> {
    seq(n, _ => 0.0)
  }

  lemma {:induction false} CopiesKept(rule: Rule, n: nat, now: real)
    ensures Keep(rule, Zeros(n), now) == if rule.Live(0.0, now) then Zeros(n) else []
  {
    if n > 0 {
      CopiesKept(rule, n - 1, now);
      KeepAppend(rule, Zeros(n - 1), 0.0, now);
      assert Zeros(n) == Zeros(n - 1) + [0.0];
    }
  }

  function Trues(n: nat): seq<bool> {
    seq(n, _ => true)
  }

  function Fill(long: real, n: nat): seq<Call> {
    seq(n, _ => Call(long, 0.0))
  }

  lemma OneMore(long: real, n: nat)
    ensures Fill(long, n + 1) == Fill(long, n) + [Call(long, 0.0)]
    ensures Zeros(n + 1) == Zeros(n) + [0.0] && Trues(n + 1) == Trues(n) + [true]
  {
  }

  lemma {:induction false} FillUp(limit: int, edge: Edge, long: real, n: nat)
    requires CountsNow(edge, long) && n < limit
    ensures Drive(limit, edge, Fill(long, n)) == Log(Zeros(n), Trues(n)) == Remember(limit, edge, Fill(long, n))
  {
    if n > 0 {
      FillUp(limit, edge, long, n - 1);
      CopiesKept(Call(long, 0.0).RuleOf(limit, edge), n - 1, 0.0);
      OneMore(long, n - 1);
      DriveAppend(limit, edge, Fill(long, n - 1), Call(long, 0.0));
      RememberAppend(limit, edge, Fill(long, n - 1), Call(long, 0.0));
    }
  }

  /** An instant that has left the short window and not the long one. */
  function Between(edge: Edge, short: real, long: real): real {
    match edge case Open => short case Closed => long
  }

  function Witness(limit: int, edge: Edge, short: real, long: real): seq<Call>
    requires limit >= 1
  {
    var t := Between(edge, short, long);
    Fill(long, limit - 1) + [Call(short, t)] + [Call(long, t)]
  }

  lemma QuickForgets(limit: int, edge: Edge, short: real, long: real)
    requires limit >= 2 && CountsNow(edge, short) && short < long
    ensures var t := Between(edge, short, long);
      Drive(limit, edge, Fill(long, limit - 1) + [Call(short, t)]) == Log([t], Trues(limit - 1) + [true])
  {
    var t, n := Between(edge, short, long), limit - 1;
    FillUp(limit, edge, long, n);
    DriveAppend(limit, edge, Fill(long, n), Call(short, t));
    CopiesKept(Call(short, t).RuleOf(limit, edge), n, t);
  }

  lemma DriveForgets(limit: int, edge: Edge, short: real, long: real)
    requires limit >= 2 && CountsNow(edge, short) && short < long
    ensures Drive(limit, edge, Witness(limit, edge, short, long)).answers == Trues(limit - 1) + [true] + [true]
  {
    var t, n := Between(edge, short, long), limit - 1;
    var quick, again := Call(short, t), Call(long, t);
    QuickForgets(limit, edge, short, long);
    DriveAppend(limit, edge, Fill(long, n) + [quick], again);
    KeepOne(again.RuleOf(limit, edge), t, t);
  }

  lemma FullMemoryRefuses(limit: int, edge: Edge, short: real, long: real)
    requires limit >= 2 && CountsNow(edge, short) && short < long
    ensures Remember(limit, edge, Witness(limit, edge, short, long)).answers == Trues(limit - 1) + [true] + [false]
  {
    var t, n := Between(edge, short, long), limit - 1;
    var quick, again := Call(short, t), Call(long, t);
    FillUp(limit, edge, long, n);
    CopiesKept(quick.RuleOf(limit, edge), n, t);
    RememberAppend(limit, edge, Fill(long, n), quick);
    assert Remember(limit, edge, Fill(long, n) + [quick]) == Log(Zeros(n) + [t], Trues(n) + [true]);
    RememberAppend(limit, edge, Fill(long, n) + [quick], again);
    CopiesKept(again.RuleOf(limit, edge), n, t);
    KeepAppend(again.RuleOf(limit, edge), Zeros(n), t, t);
  }

  lemma LongWindowNotices(limit: int, edge: Edge, short: real, long: real)
    requires limit >= 2 && CountsNow(edge, short) && short < long
    ensures Drive(limit, edge, Witness(limit, edge, short, long)).answers
         != Remember(limit, edge, Witness(limit, edge, short, long)).answers
  {
    DriveForgets(limit, edge, short, long);
    FullMemoryRefuses(limit, edge, short, long);
    assert (Trues(limit - 1) + [true] + [true])[limit] != (Trues(limit - 1) + [true] + [false])[limit];
  }

  lemma OneNeverShows(edge: Edge, windows: set<real>)
    ensures NeverShows(1, edge, windows)
  {
    forall calls: seq<Call> | RunOver(calls, windows)
      ensures Drive(1, edge, calls).answers == Remember(1, edge, calls).answers
    {
      OneRemembersTheLast(edge, calls, windows, if calls == [] then 0.0 else calls[|calls| - 1].now);
    }
  }

  lemma AlikeNeverShow(limit: int, edge: Edge, windows: set<real>)
    requires forall a, b :: a in windows && b in windows ==> a == b
    ensures NeverShows(limit, edge, windows)
  {
    forall calls | RunOver(calls, windows)
      ensures Drive(limit, edge, calls).answers == Remember(limit, edge, calls).answers
    {
      AlikeWindowsAdvance(limit, edge, calls, windows);
    }
  }

  lemma NoneNeverShows(limit: int, edge: Edge, windows: set<real>)
    requires limit <= 0
    ensures NeverShows(limit, edge, windows)
  {
    forall calls | RunOver(calls, windows)
      ensures Drive(limit, edge, calls).answers == Remember(limit, edge, calls).answers
    {
      NothingAdmitted(limit, edge, calls);
    }
  }

  lemma UnlikeShow(limit: int, edge: Edge, windows: set<real>, short: real, long: real)
    requires limit >= 2 && short in windows && long in windows && short < long && CountsNow(edge, short)
    ensures !NeverShows(limit, edge, windows)
  {
    LongWindowNotices(limit, edge, short, long);
    assert RunOver(Witness(limit, edge, short, long), windows);
  }

  /**
   For windows each of which counts a stamp made at the same instant, every run over them with a clock
   that does not go back is answered as if nothing were ever pruned, if and only if the limit is at most
   one or the windows are all the same.
   */
  lemma PruningNeverShowsExactly(limit: int, edge: Edge, windows: set<real>)
    requires forall w :: w in windows ==> CountsNow(edge, w)
    ensures NeverShows(limit, edge, windows) <==> limit <= 1 || forall a, b :: a in windows && b in windows ==> a == b
  {
    if limit <= 0 {
      NoneNeverShows(limit, edge, windows);
    } else if limit == 1 {
      OneNeverShows(edge, windows);
    } else if a, b :| a in windows && b in windows && a < b {
      UnlikeShow(limit, edge, windows, a, b);
    } else {
      AlikeNeverShow(limit, edge, windows);
    }
  }
}
