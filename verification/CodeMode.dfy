/**
 Code Mode: submitted code is refused, run at once, or kept until somebody approves it, and the audit
 table records which. The execution itself is foreign; what it comes back with is an input. A result
 that cannot be written as JSON makes the handler raise after the code has run.
 */
module CodeMode {
  import opened Basics
  import P = Policy

  datatype EventId = EventId(text: string)

  datatype Mark = AllowedMark | DeniedMark | PendingMark

  datatype Status = Completed | Pending | Refused

  datatype Event = Event(
    tenant: string, subject: string, code: string, result: Option<string>, error: Option<string>, mark: Mark,
    status: Status)

  /** What an execution comes back with: JSON text, an output with no JSON text, or an error. */
  datatype Outcome = Json(text: string) | NotJson | Failure(error: string)

  datatype Submission = Submission(code: string, tenant: string, subject: string, server: string)

  datatype Execution = Execution(id: EventId, code: string, tenant: string)

  datatype Reply =
    | PolicyDenied | AwaitingApproval | Ran(outcome: Outcome) | Raised | NotFound | NotPending(status: Status)

  type Events = map<EventId, Event>

  /** Only the letters A to Z lower to a letter of "approval". */
  function Lower(c: char): char {
    if 'A' <= c <= 'Z' then c - 'A' + 'a' else c
  }

  predicate AsksApproval(name: string) {
    exists i :: 0 <= i <= |name| - 8 && ApprovalAt(name, i)
  }

  predicate ApprovalAt(name: string, i: nat)
    requires i + 8 <= |name|
  {
    LowerText(name[i..i + 8]) == "approval"
  }

  function LowerText(s: string): string {
    if s == [] then [] else [Lower(s[0])] + LowerText(s[1..])
  }

  predicate NeedsApproval(evaluation: P.Evaluation) {
    evaluation.matched.Some? && AsksApproval(evaluation.matched.value.text)
  }

  function RequestOf(s: Submission): P.Request {
    P.Request("codemode:execute", "gateway.server." + s.server, Some(s.tenant))
  }

  function ResultOf(outcome: Outcome): Option<string> {
    if outcome.Json? then Some(outcome.text) else None
  }

  function ErrorOf(outcome: Outcome): Option<string> {
    if outcome.Failure? then Some(outcome.error) else None
  }

  /** The audit table and every execution so far, in order. */
  datatype State = State(events: Events, ran: seq<Execution>)

  function Submit(s: State, id: EventId, submission: Submission, evaluation: P.Evaluation,
                  outcome: Outcome): (State, Reply) {
    var event := Event(submission.tenant, submission.subject, submission.code, None, None, AllowedMark, Completed);
    if evaluation.decision == P.Deny then
      (s.(events := s.events[id := event.(mark := DeniedMark, status := Refused)]), PolicyDenied)
    else if NeedsApproval(evaluation) then
      (s.(events := s.events[id := event.(mark := PendingMark, status := Pending)]), AwaitingApproval)
    else
      var run := s.(ran := s.ran + [Execution(id, submission.code, submission.tenant)]);
      if outcome == NotJson then (run, Raised)
      else (run.(events := s.events[id := event.(result := ResultOf(outcome), error := ErrorOf(outcome))]),
          Ran(outcome))
  }

  function Approve(s: State, id: EventId, outcome: Outcome): (State, Reply) {
    if id !in s.events then (s, NotFound)
    else if s.events[id].status != Pending then (s, NotPending(s.events[id].status))
    else
      var event := s.events[id];
      var run := s.(ran := s.ran + [Execution(id, event.code, event.tenant)]);
      if outcome == NotJson then (run, Raised)
      else
        var text := if outcome.Json? then outcome.text else outcome.error;
        (run.(events := s.events[id := event.(status := Completed, result := Some(text))]), Ran(outcome))
  }

  // ----- the audit table and the handler -----

  class AuditLogger {
    var events: Events

    constructor ()
      ensures events == map[]
    {
      events := map[];
    }

    method Log(id: EventId, event: Event)
      requires id !in events
      modifies this
      ensures events == old(events)[id := event]
    {
      events := events[id := event];
    }

    method GetEvent(id: EventId) returns (event: Option<Event>)
      ensures event == if id in events then Some(events[id]) else None
    {
      return if id in events then Some(events[id]) else None;
    }

    method UpdateStatus(id: EventId, status: Status, result: Option<string>)
      modifies this
      ensures events == Update(old(events), id, status, result)
    {
      if id in events {
        if result.Some? {
          events := events[id := events[id].(status := status, result := result)];
        } else {
          events := events[id := events[id].(status := status)];
        }
      }
    }
  }

  class CodeModeToolHandler {
    const policy: P.PolicyEngine
    const audit: AuditLogger
    ghost var ran: seq<Execution>

    constructor (policy: P.PolicyEngine, audit: AuditLogger)
      ensures this.policy == policy && this.audit == audit && ran == []
    {
      this.policy, this.audit, ran := policy, audit, [];
    }

    ghost function Contents(): State
      reads this, audit
    {
      State(audit.events, ran)
    }

    /** `id` is the unused id the audit table would give the event; `outcome` what the code does if it is run. */
    method HandleExecute(submission: Submission, id: EventId, outcome: Outcome) returns (reply: Reply)
      requires id !in audit.events
      modifies this, audit
      ensures (Contents(), reply) == Submit(old(Contents()), id, submission,
        P.Evaluate(policy.rules, policy.fallback, RequestOf(submission)), outcome)
    {
      var evaluation := policy.Decide(RequestOf(submission));
      var event := Event(submission.tenant, submission.subject, submission.code, None, None, AllowedMark, Completed);
      if evaluation.decision == P.Deny {
        audit.Log(id, event.(mark := DeniedMark, status := Refused));
        return PolicyDenied;
      }
      if NeedsApproval(evaluation) {
        audit.Log(id, event.(mark := PendingMark, status := Pending));
        return AwaitingApproval;
      }
      ran := ran + [Execution(id, submission.code, submission.tenant)];
      if outcome == NotJson {
        return Raised;
      }
      audit.Log(id, event.(result := ResultOf(outcome), error := ErrorOf(outcome)));
      return Ran(outcome);
    }

    method ApproveAndExecute(id: EventId, outcome: Outcome) returns (reply: Reply)
      modifies this, audit
      ensures (Contents(), reply) == Approve(old(Contents()), id, outcome)
    {
      var event := audit.GetEvent(id);
      if event.None? {
        return NotFound;
      }
      if event.value.status != Pending {
        return NotPending(event.value.status);
      }
      ran := ran + [Execution(id, event.value.code, event.value.tenant)];
      if outcome == NotJson {
        return Raised;
      }
      audit.UpdateStatus(id, Completed, Some(if outcome.Json? then outcome.text else outcome.error));
      return Ran(outcome);
    }
  }

  // ----- the audit table over time -----

  datatype Write = Logged(id: EventId, event: Event) | Updated(id: EventId, status: Status, result: Option<string>)

  function Update(events: Events, id: EventId, status: Status, result: Option<string>): Events {
    if id !in events then events
    else if result.Some? then events[id := events[id].(status := status, result := result)]
    else events[id := events[id].(status := status)]
  }

  function Replay(history: seq<Write>): Events {
    if history == [] then map[]
    else
      var before := Replay(history[..|history| - 1]);
      match history[|history| - 1]
      case Logged(id, event) => before[id := event]
      case Updated(id, status, result) => Update(before, id, status, result)
  }

  function FirstLogged(history: seq<Write>, id: EventId): Option<Event> {
    if history == [] then None
    else
      var earlier, last := FirstLogged(history[..|history| - 1], id), history[|history| - 1];
      if earlier.None? && last.Logged? && last.id == id then Some(last.event) else earlier
  }

  /** The status last given to an event after it was logged. */
  function LastStatus(history: seq<Write>, id: EventId): Option<Status> {
    if history == [] then None
    else
      var before, last := history[..|history| - 1], history[|history| - 1];
      if last.Updated? && last.id == id && FirstLogged(before, id).Some? then Some(last.status)
      else LastStatus(before, id)
  }

  /** The last result given to an event after it was logged; an update without one keeps the earlier. */
  function LastResult(history: seq<Write>, id: EventId): Option<string> {
    if history == [] then None
    else
      var before, last := history[..|history| - 1], history[|history| - 1];
      if last.Updated? && last.id == id && last.result.Some? && FirstLogged(before, id).Some? then last.result
      else LastResult(before, id)
  }

  /** Every event is logged under an id of its own. */
  predicate LoggedOnce(history: seq<Write>) {
    if history == [] then true
    else
      var before, last := history[..|history| - 1], history[|history| - 1];
      LoggedOnce(before) && (last.Logged? ==> FirstLogged(before, last.id).None?)
  }

  /**
   After any history of entries and updates the table has an event exactly if it was logged, as it was
   logged, but for the status and the result last given to it.
   */
  lemma {:induction false} TableFollowsHistory(history: seq<Write>, id: EventId)
    requires LoggedOnce(history)
    ensures id in Replay(history) <==> FirstLogged(history, id).Some?
    ensures id in Replay(history) ==>
      var event, logged := Replay(history)[id], FirstLogged(history, id).value;
      var status, result := LastStatus(history, id), LastResult(history, id);
      event == logged.(status := if status.Some? then status.value else logged.status,
                       result := if result.Some? then result else logged.result)
    ensures FirstLogged(history, id).None? ==> LastStatus(history, id).None? && LastResult(history, id).None?
  {
    if history != [] {
      TableFollowsHistory(history[..|history| - 1], id);
    }
  }

  // ----- runs -----

  datatype Step =
    | DoSubmit(id: EventId, submission: Submission, evaluation: P.Evaluation, outcome: Outcome)
    | DoApprove(id: EventId, outcome: Outcome)

  function Next(s: State, step: Step): State {
    match step
    case DoSubmit(id, submission, evaluation, outcome) => Submit(s, id, submission, evaluation, outcome).0
    case DoApprove(id, outcome) => Approve(s, id, outcome).0
  }

  function Run(steps: seq<Step>): State {
    if steps == [] then State(map[], []) else Next(Run(steps[..|steps| - 1]), steps[|steps| - 1])
  }

  /** The step that submitted the event. */
  function Submitted(steps: seq<Step>, id: EventId): Option<Step> {
    if steps == [] then None
    else
      var step := steps[|steps| - 1];
      if step.DoSubmit? && step.id == id then Some(step) else Submitted(steps[..|steps| - 1], id)
  }

  /** Every submission gets an id that no earlier one has. */
  predicate IsRun(steps: seq<Step>) {
    if steps == [] then true
    else
      var before, step := steps[..|steps| - 1], steps[|steps| - 1];
      IsRun(before) && (step.DoSubmit? ==> Submitted(before, step.id) == None)
  }

  predicate Awaits(s: State, id: EventId) {
    id in s.events && s.events[id].status == Pending
  }

  function Times(ran: seq<Execution>, id: EventId): nat {
    if ran == [] then 0
    else
      var before := Times(ran[..|ran| - 1], id);
      if ran[|ran| - 1].id == id then before + 1 else before
  }

  lemma TimesGrow(ran: seq<Execution>, e: Execution, id: EventId)
    ensures Times(ran + [e], id) == if e.id == id then Times(ran, id) + 1 else Times(ran, id)
  {
    assert (ran + [e])[..|ran|] == ran;
  }

  // ----- what is run is what was submitted -----

  predicate EventAsSubmitted(event: Event, submitted: Option<Step>) {
    && submitted.Some? && submitted.value.DoSubmit?
    && event.code == submitted.value.submission.code && event.tenant == submitted.value.submission.tenant
    && (event.status == Refused <==> submitted.value.evaluation.decision == P.Deny)
  }

  predicate RunAsSubmitted(e: Execution, submitted: Option<Step>) {
    && submitted.Some? && submitted.value.DoSubmit?
    && e.code == submitted.value.submission.code && e.tenant == submitted.value.submission.tenant
    && submitted.value.evaluation.decision == P.Allow
  }

  ghost predicate AllAsSubmitted(s: State, steps: seq<Step>) {
    && (forall id :: id in s.events ==> EventAsSubmitted(s.events[id], Submitted(steps, id)))
    && (forall e :: e in s.ran ==> RunAsSubmitted(e, Submitted(steps, e.id)))
  }

  lemma EventStaysAsSubmitted(s: State, before: seq<Step>, step: Step, id: EventId)
    requires AllAsSubmitted(s, before) && id in Next(s, step).events
    requires step.DoSubmit? ==> Submitted(before, step.id) == None
    ensures var submitted := if step.DoSubmit? && step.id == id then Some(step) else Submitted(before, id);
      EventAsSubmitted(Next(s, step).events[id], submitted)
  {
  }

  lemma StepStaysAsSubmitted(s: State, before: seq<Step>, step: Step)
    requires AllAsSubmitted(s, before) && (step.DoSubmit? ==> Submitted(before, step.id) == None)
    ensures AllAsSubmitted(Next(s, step), before + [step])
  {
    var steps, s' := before + [step], Next(s, step);
    assert steps[..|before|] == before;
    assert forall id ::
        Submitted(steps, id) == if step.DoSubmit? && step.id == id then Some(step) else Submitted(before, id);
    forall id | id in s'.events ensures EventAsSubmitted(s'.events[id], Submitted(steps, id)) {
      EventStaysAsSubmitted(s, before, step, id);
    }
    forall e | e in s'.ran ensures RunAsSubmitted(e, Submitted(steps, e.id)) {
      if e in s.ran {
        assert RunAsSubmitted(e, Submitted(before, e.id));
      }
    }
  }

  /**
   Whatever runs, runs with exactly the code and the tenant first submitted under its id, and was not
   denied; the audit table keeps that code and tenant, and shows a submission as denied exactly when it was.
   */
  lemma {:induction false} EverythingAsSubmitted(steps: seq<Step>)
    requires IsRun(steps)
    ensures AllAsSubmitted(Run(steps), steps)
  {
    if steps == [] {
    } else {
      var before, step := steps[..|steps| - 1], steps[|steps| - 1];
      EverythingAsSubmitted(before);
      StepStaysAsSubmitted(Run(before), before, step);
      assert steps == before + [step];
    }
  }

  lemma StepOnlyCompletes(s: State, step: Step, id: EventId)
    requires id in s.events && !(step.DoSubmit? && step.id == id)
    ensures var s' := Next(s, step);
      && id in s'.events && (s'.events[id] == s.events[id] || (Awaits(s, id) && s'.events[id].status == Completed))
      && s'.events[id].(status := Completed, result := None) == s.events[id].(status := Completed, result := None)
  {
  }

  /** However a run goes on, an event stays as it is or goes from pending to completed; only its result is filled in. */
  lemma {:induction false} StatusOnlyCompletes(steps: seq<Step>, more: seq<Step>, id: EventId)
    requires IsRun(steps + more) && id in Run(steps).events
    ensures IsRun(steps) && Submitted(steps + more, id) == Submitted(steps, id)
    ensures var s, s' := Run(steps), Run(steps + more);
      && id in s'.events && (s'.events[id] == s.events[id] || (Awaits(s, id) && s'.events[id].status == Completed))
      && s'.events[id].(status := Completed, result := None) == s.events[id].(status := Completed, result := None)
  {
    if more == [] {
      assert steps + more == steps;
      EverythingAsSubmitted(steps);
    } else {
      var all := steps + more;
      assert all[..|all| - 1] == steps + more[..|more| - 1];
      StatusOnlyCompletes(steps, more[..|more| - 1], id);
      EverythingAsSubmitted(steps);
      StepOnlyCompletes(Run(all[..|all| - 1]), all[|all| - 1], id);
    }
  }

  // ----- at most once -----

  /** Some approval of the event ran its code and then raised. */
  predicate HasRaised(steps: seq<Step>, id: EventId) {
    if steps == [] then false
    else
      var before := steps[..|steps| - 1];
      HasRaised(before, id) || (steps[|steps| - 1] == DoApprove(id, NotJson) && Awaits(Run(before), id))
  }

  /** Some approval of the event came after one that raised. */
  predicate ApprovedAgain(steps: seq<Step>, id: EventId) {
    if steps == [] then false
    else
      var before, step := steps[..|steps| - 1], steps[|steps| - 1];
      ApprovedAgain(before, id) || (step.DoApprove? && step.id == id && HasRaised(before, id))
  }

  /** How often an event's code has run, by where the event stands. */
  ghost predicate Counted(steps: seq<Step>, id: EventId) {
    var s := Run(steps);
    var n := Times(s.ran, id);
    && (n >= 2 <==> ApprovedAgain(steps, id))
    && (Awaits(s, id) ==> (n >= 1 <==> HasRaised(steps, id)))
    && (!Awaits(s, id) && HasRaised(steps, id) ==> ApprovedAgain(steps, id))
    && (Submitted(steps, id) == None ==> n == 0 && id !in s.events)
  }

  /** Whether a step runs the event's code. */
  predicate Executes(s: State, step: Step, id: EventId) {
    step.id == id && if step.DoApprove? then Awaits(s, id)
                     else step.evaluation.decision == P.Allow && !NeedsApproval(step.evaluation)
  }

  lemma StepCounts(s: State, step: Step, id: EventId)
    ensures Times(Next(s, step).ran, id) == if Executes(s, step, id) then Times(s.ran, id) + 1 else Times(s.ran, id)
  {
    var s' := Next(s, step);
    if s'.ran != s.ran {
      var e := s'.ran[|s.ran|];
      assert s'.ran == s.ran + [e] && e.id == step.id;
      TimesGrow(s.ran, e, id);
    }
  }

  lemma StepAwaits(s: State, step: Step, id: EventId)
    requires step.DoSubmit? && step.id == id ==> id !in s.events
    ensures var s' := Next(s, step);
      && (step.id != id ==> (Awaits(s', id) <==> Awaits(s, id)) && (id in s'.events <==> id in s.events))
      && (step.DoApprove? && step.id == id ==> (Awaits(s', id) <==> Awaits(s, id) && step.outcome == NotJson))
      && (step.DoSubmit? && step.id == id ==> (Awaits(s', id) ==> !Executes(s, step, id)))
      && (id in s.events ==> id in s'.events) && (step.DoApprove? && id !in s.events ==> id !in s'.events)
  {
  }

  lemma StepStaysCounted(before: seq<Step>, step: Step, id: EventId)
    requires Counted(before, id) && (step.DoSubmit? ==> Submitted(before, step.id) == None)
    ensures Counted(before + [step], id)
  {
    var steps, s := before + [step], Run(before);
    assert steps[..|before|] == before && steps[|steps| - 1] == step;
    var n, awaits, raised, again := Times(s.ran, id), Awaits(s, id), HasRaised(before, id), ApprovedAgain(before, id);
    StepCounts(s, step, id);
    StepAwaits(s, step, id);
    var s' := Next(s, step);
    assert Run(steps) == s';
    assert HasRaised(steps, id) <==> raised || (step == DoApprove(id, NotJson) && awaits);
    assert ApprovedAgain(steps, id) <==> again || (step.DoApprove? && step.id == id && raised);
    assert Submitted(steps, id) == if step.DoSubmit? && step.id == id then Some(step) else Submitted(before, id);
  }

  lemma {:induction false} EveryRunCounted(steps: seq<Step>, id: EventId)
    requires IsRun(steps)
    ensures Counted(steps, id)
  {
    if steps == [] {
    } else {
      EveryRunCounted(steps[..|steps| - 1], id);
      StepStaysCounted(steps[..|steps| - 1], steps[|steps| - 1], id);
      assert steps == steps[..|steps| - 1] + [steps[|steps| - 1]];
    }
  }

  /**
   A submission runs more than once if and only if it is approved again after an approval whose result
   could not be written as JSON; code still pending has run only if that happened.
   */
  lemma RunsTwiceExactly(steps: seq<Step>, id: EventId)
    requires IsRun(steps)
    ensures Times(Run(steps).ran, id) >= 2 <==> ApprovedAgain(steps, id)
    ensures Awaits(Run(steps), id) ==> (Times(Run(steps).ran, id) >= 1 <==> HasRaised(steps, id))
  {
    EveryRunCounted(steps, id);
  }

  /** With results that can all be written as JSON, every submission runs at most once, and not before its approval. */
  lemma {:induction false} AtMostOnce(steps: seq<Step>, id: EventId)
    requires IsRun(steps) && forall i :: 0 <= i < |steps| ==> steps[i] != DoApprove(id, NotJson)
    ensures Times(Run(steps).ran, id) <= 1
    ensures Awaits(Run(steps), id) ==> Times(Run(steps).ran, id) == 0
  {
    EveryRunCounted(steps, id);
    NeverRaised(steps, id);
  }

  lemma {:induction false} NeverRaised(steps: seq<Step>, id: EventId)
    requires forall i :: 0 <= i < |steps| ==> steps[i] != DoApprove(id, NotJson)
    ensures !HasRaised(steps, id) && !ApprovedAgain(steps, id)
  {
    if steps == [] {
    } else {
      NeverRaised(steps[..|steps| - 1], id);
    }
  }

  /** The run that shows it: approve, raise, approve again. */
  lemma RaisedThenApprovedRunsTwice(id: EventId, submission: Submission, evaluation: P.Evaluation, text: string)
    requires evaluation.decision == P.Allow && NeedsApproval(evaluation)
    ensures var steps :=
        [DoSubmit(id, submission, evaluation, NotJson), DoApprove(id, NotJson), DoApprove(id, Json(text))];
      IsRun(steps) && Times(Run(steps).ran, id) == 2
  {
    var one := [DoSubmit(id, submission, evaluation, NotJson)];
    var two := one + [DoApprove(id, NotJson)];
    var three := two + [DoApprove(id, Json(text))];
    assert one[..0] == [] && two[..1] == one && three[..2] == two;
    assert three == [DoSubmit(id, submission, evaluation, NotJson), DoApprove(id, NotJson), DoApprove(id, Json(text))];
    assert Submitted([], id) == None && IsRun([]) && IsRun(one) && IsRun(two) && IsRun(three);
    assert Awaits(Run(one), id) && Run(one).ran == [];
    var e := Execution(id, submission.code, submission.tenant);
    TimesGrow([], e, id);
    TimesGrow([e], e, id);
    assert Run(two).ran == [] + [e] && Run(three).ran == [e] + [e];
  }

  // ----- what is asked for, and what is recorded -----

  const SMALL := "approval"
  const LARGE := "APPROVAL"

  predicate Spells(name: string, i: int) {
    0 <= i <= |name| - 8 && forall j :: 0 <= j < 8 ==> name[i + j] in {SMALL[j], LARGE[j]}
  }

  lemma {:induction false} LowerTextAt(s: string, t: string)
    requires |s| == |t|
    ensures LowerText(s) == t <==> forall j :: 0 <= j < |s| ==> Lower(s[j]) == t[j]
  {
    if s == [] {
    } else {
      LowerTextAt(s[1..], t[1..]);
      assert LowerText(s) == [Lower(s[0])] + LowerText(s[1..]) && t == [t[0]] + t[1..];
      LowerKeepsLength(s[1..]);
      assert forall j :: 0 <= j < |s| - 1 ==> s[1..][j] == s[j + 1] && t[1..][j] == t[j + 1];
      if forall j :: 0 <= j < |s| ==> Lower(s[j]) == t[j] {
        forall j | 0 <= j < |s| - 1 ensures Lower(s[1..][j]) == t[1..][j] {
          assert Lower(s[j + 1]) == t[j + 1];
        }
      }
    }
  }

  lemma {:induction false} LowerKeepsLength(s: string)
    ensures |LowerText(s)| == |s|
  {
    if s != [] {
      LowerKeepsLength(s[1..]);
    }
  }

  /** A rule asks for approval exactly if its name has the word somewhere, each letter small or large. */
  lemma AsksApprovalExactly(name: string)
    ensures AsksApproval(name) <==> exists i :: Spells(name, i)
  {
    forall i | 0 <= i <= |name| - 8 ensures ApprovalAt(name, i) <==> Spells(name, i) {
      var part := name[i..i + 8];
      LowerTextAt(part, SMALL);
      assert forall j :: 0 <= j < 8 ==> part[j] == name[i + j];
    }
  }

  /**
   A submission is refused exactly if the policy denies it, and waits for approval exactly if the policy
   allows it by a rule whose name has the word in it.
   */
  lemma WaitsExactly(s: State, id: EventId, submission: Submission, evaluation: P.Evaluation, outcome: Outcome)
    ensures var reply := Submit(s, id, submission, evaluation, outcome).1;
      && (reply == PolicyDenied <==> evaluation.decision == P.Deny)
      && (reply == AwaitingApproval <==>
            && evaluation.decision == P.Allow && evaluation.matched.Some?
            && exists i :: Spells(evaluation.matched.value.text, i))
  {
    if evaluation.matched.Some? {
      AsksApprovalExactly(evaluation.matched.value.text);
    }
  }

  /** With one grant and nothing else, exactly the code to execute on that server for that tenant is let through. */
  lemma GrantAdmitsExactly(s: State, id: EventId, submission: Submission, outcome: Outcome, name: P.Name,
                           action: string, server: string, tenant: string)
    ensures var rules := [P.Grant(name, action, "gateway.server." + server, tenant)];
      Submit(s, id, submission, P.Evaluate(rules, P.Deny, RequestOf(submission)), outcome).1 != PolicyDenied <==>
        action in {"codemode:execute", "*"} && submission.server == server && submission.tenant == tenant
  {
    var prefix := "gateway.server.";
    P.GrantDecides(name, action, prefix + server, tenant, RequestOf(submission));
    assert (prefix + server)[|prefix|..] == server && (prefix + submission.server)[|prefix|..] == submission.server;
    assert |prefix| == 15 && |prefix + server| >= 15;
  }

  /** The outcome of the approval that completed the event. */
  function ApprovedWith(steps: seq<Step>, id: EventId): Option<Outcome> {
    if steps == [] then None
    else
      var before, step := steps[..|steps| - 1], steps[|steps| - 1];
      if step.DoApprove? && step.id == id && step.outcome != NotJson && Awaits(Run(before), id) then Some(step.outcome)
      else ApprovedWith(before, id)
  }

  /** What the record of a submission says: who asked, what the policy said of it, and what came of the run. */
  predicate Tells(event: Event, submission: Submission, evaluation: P.Evaluation, outcome: Outcome,
                  approved: Option<Outcome>) {
    && event.tenant == submission.tenant && event.subject == submission.subject && event.code == submission.code
    && if evaluation.decision == P.Deny then
         event.mark == DeniedMark && event.status == Refused && event.result == None && event.error == None
       else if NeedsApproval(evaluation) then
         && event.mark == PendingMark && event.error == None
         && match approved
            case None => event.status == Pending && event.result == None
            case Some(Json(text)) => event.status == Completed && event.result == Some(text)
            case Some(Failure(error)) => event.status == Completed && event.result == Some(error)
            case Some(NotJson) => false
       else
         && event.mark == AllowedMark && event.status == Completed
         && match outcome
            case Json(text) => event.result == Some(text) && event.error == None
            case Failure(error) => event.result == None && event.error == Some(error)
            case NotJson => false
  }

  /** A submission leaves a record unless its code ran at once and came back with something that is not JSON. */
  predicate LeavesRecord(submitted: Option<Step>) {
    && submitted.Some? && submitted.value.DoSubmit?
    && (submitted.value.evaluation.decision == P.Allow && !NeedsApproval(submitted.value.evaluation)
        ==> submitted.value.outcome != NotJson)
  }

  ghost predicate Recorded(s: State, submitted: Option<Step>, approved: Option<Outcome>, id: EventId) {
    && (id in s.events <==> LeavesRecord(submitted))
    && (id in s.events ==>
          var DoSubmit(_, submission, evaluation, outcome) := submitted.value;
          Tells(s.events[id], submission, evaluation, outcome, approved))
    && (approved.Some? ==> id in s.events)
  }

  lemma StepStaysRecorded(s: State, step: Step, submitted: Option<Step>, approved: Option<Outcome>, id: EventId)
    requires Recorded(s, submitted, approved, id) && (step.DoSubmit? && step.id == id ==> submitted == None)
    ensures var submitted' := if step.DoSubmit? && step.id == id then Some(step) else submitted;
      var completes := step.DoApprove? && step.id == id && step.outcome != NotJson && Awaits(s, id);
      Recorded(Next(s, step), submitted', if completes then Some(step.outcome) else approved, id)
  {
  }

  /**
   In every run an event has a record exactly if its submission leaves one, and the record says who asked
   for what, what the policy said, and what came back from the run: its own, or the one that completed it.
   */
  lemma {:induction false} RecordFollowsRun(steps: seq<Step>, id: EventId)
    requires IsRun(steps)
    ensures Recorded(Run(steps), Submitted(steps, id), ApprovedWith(steps, id), id)
  {
    if steps == [] {
    } else {
      var before, step := steps[..|steps| - 1], steps[|steps| - 1];
      RecordFollowsRun(before, id);
      StepStaysRecorded(Run(before), step, Submitted(before, id), ApprovedWith(before, id), id);
    }
  }
}
