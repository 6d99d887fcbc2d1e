/**
 The gateway's policy store: rules in the order they were first added, the first that matches a request
 decides it, and a default decides the rest.
 */
module Policy {
  import opened Basics

  datatype Decision = Allow | Deny

  datatype Name = Name(text: string)

  /** No tenant set means any tenant; an empty one means none. */
  datatype Rule = Rule(
    name: Name, effect: Decision, actions: set<string>, resources: set<string>, tenants: Option<set<string>>)

  datatype Request = Request(action: string, resource: string, tenant: Option<string>)

  datatype Evaluation = Evaluation(decision: Decision, matched: Option<Name>)

  predicate Matches(rule: Rule, request: Request) {
    && (request.action in rule.actions || "*" in rule.actions)
    && (request.resource in rule.resources || "*" in rule.resources)
    && (rule.tenants.None? || (request.tenant.Some? && request.tenant.value in rule.tenants.value))
  }

  function Evaluate(rules: seq<Rule>, fallback: Decision, request: Request): Evaluation {
    if rules == [] then Evaluation(fallback, None)
    else if Matches(rules[0], request) then Evaluation(rules[0].effect, Some(rules[0].name))
    else Evaluate(rules[1..], fallback, request)
  }

  /** Where the rule of that name stands; the end when there is none. */
  function Position(rules: seq<Rule>, name: Name): (k: nat)
    ensures k <= |rules| && (k < |rules| ==> rules[k].name == name)
    ensures forall i :: 0 <= i < k ==> rules[i].name != name
  {
    if rules == [] || rules[0].name == name then 0 else 1 + Position(rules[1..], name)
  }

  /** A rule whose name is taken replaces the old one where it stands; a new name goes last. */
  function Upsert(rules: seq<Rule>, rule: Rule): seq<Rule> {
    var k := Position(rules, rule.name);
    if k < |rules| then rules[k := rule] else rules + [rule]
  }

  function Remove(rules: seq<Rule>, name: Name): seq<Rule> {
    var k := Position(rules, name);
    if k < |rules| then rules[..k] + rules[k + 1..] else rules
  }

  ghost predicate NamesDistinct(rules: seq<Rule>) {
    forall i, j :: 0 <= i < j < |rules| ==> rules[i].name != rules[j].name
  }

  // ----- the engine -----

  class PolicyEngine {
    /** The rows of the rule table, in row order. */
    var rules: seq<Rule>
    const fallback: Decision

    constructor (initial: seq<Rule>, fallback: Decision)
      ensures rules == Apply([], Puts(initial)) && this.fallback == fallback
    {
      rules := [];
      this.fallback := fallback;
      new;
      for i := 0 to |initial|
        invariant rules == Apply([], Puts(initial[..i]))
      {
        AddRule(initial[i]);
        assert initial[..i + 1][..i] == initial[..i];
      }
      assert initial[..|initial|] == initial;
    }

    method AddRule(rule: Rule)
      modifies this
      ensures rules == Upsert(old(rules), rule)
    {
      var k := Position(rules, rule.name);
      if k < |rules| {
        rules := rules[k := rule];
      } else {
        rules := rules + [rule];
      }
    }

    method RemoveRule(name: Name)
      modifies this
      ensures rules == Remove(old(rules), name)
    {
      var k := Position(rules, name);
      if k < |rules| {
        rules := rules[..k] + rules[k + 1..];
      }
    }

    method Decide(request: Request) returns (evaluation: Evaluation)
      ensures evaluation == Evaluate(rules, fallback, request)
    {
      for i := 0 to |rules|
        invariant Evaluate(rules, fallback, request) == Evaluate(rules[i..], fallback, request)
      {
        if Matches(rules[i], request) {
          return Evaluation(rules[i].effect, Some(rules[i].name));
        }
      }
      return Evaluation(fallback, None);
    }

    method IsAllowed(request: Request) returns (allowed: bool)
      ensures allowed <==> Evaluate(rules, fallback, request).decision == Allow
    {
      var evaluation := Decide(request);
      return evaluation.decision == Allow;
    }
  }

  // ----- histories -----

  datatype Change = Put(rule: Rule) | Drop(name: Name)

  function NameOf(change: Change): Name {
    if change.Put? then change.rule.name else change.name
  }

  function Puts(rules: seq<Rule>): seq<Change> {
    if rules == [] then [] else Puts(rules[..|rules| - 1]) + [Put(rules[|rules| - 1])]
  }

  function ApplyOne(rules: seq<Rule>, change: Change): seq<Rule> {
    match change
    case Put(rule) => Upsert(rules, rule)
    case Drop(name) => Remove(rules, name)
  }

  function Apply(rules: seq<Rule>, changes: seq<Change>): seq<Rule> {
    if changes == [] then rules else ApplyOne(Apply(rules, changes[..|changes| - 1]), changes[|changes| - 1])
  }

  /** The rule that a history leaves under a name: the last one put there and not dropped since. */
  function Latest(changes: seq<Change>, name: Name): Option<Rule> {
    if changes == [] then None
    else
      var change := changes[|changes| - 1];
      if NameOf(change) != name then Latest(changes[..|changes| - 1], name)
      else if change.Put? then Some(change.rule)
      else None
  }

  /** When the name last came into the store: replacing a rule does not count. */
  function Arrival(changes: seq<Change>, name: Name): int {
    if changes == [] then -1
    else
      var before, change := changes[..|changes| - 1], changes[|changes| - 1];
      if NameOf(change) != name || Latest(before, name).Some? then Arrival(before, name) else |before|
  }

  lemma {:induction false} ArrivalBound(changes: seq<Change>, name: Name)
    ensures Arrival(changes, name) < |changes|
    ensures Latest(changes, name).Some? ==> 0 <= Arrival(changes, name) && Latest(changes, name).value.name == name
  {
    if changes == [] {
    } else {
      ArrivalBound(changes[..|changes| - 1], name);
    }
  }

  predicate LatestMatches(changes: seq<Change>, name: Name, request: Request) {
    Latest(changes, name).Some? && Matches(Latest(changes, name).value, request)
  }

  /** The table holds exactly the latest rules, in order of arrival. */
  ghost predicate Follows(rules: seq<Rule>, changes: seq<Change>) {
    HoldsLatest(rules, changes) && InArrivalOrder(rules, changes)
  }

  ghost predicate HoldsLatest(rules: seq<Rule>, changes: seq<Change>) {
    forall r :: r in rules <==> Latest(changes, r.name) == Some(r)
  }

  ghost predicate InArrivalOrder(rules: seq<Rule>, changes: seq<Change>) {
    forall i, j :: 0 <= i < j < |rules| ==> Arrival(changes, rules[i].name) < Arrival(changes, rules[j].name)
  }

  lemma PutKeepsFollowing(rules: seq<Rule>, changes: seq<Change>, rule: Rule)
    requires Follows(rules, changes)
    ensures Follows(Upsert(rules, rule), changes + [Put(rule)])
  {
    var after, k := Upsert(rules, rule), Position(rules, rule.name);
    assert (changes + [Put(rule)])[..|changes|] == changes;
    ArrivalBound(changes, rule.name);
    forall i | 0 <= i < |rules| ensures Arrival(changes, rules[i].name) < |changes| {
      ArrivalBound(changes, rules[i].name);
    }
    assert Latest(changes, rule.name).Some? <==> k < |rules| by {
      if k < |rules| {
        assert rules[k] in rules;
      }
      var latest := Latest(changes, rule.name);
      assert latest.Some? ==> (latest.value in rules <==> Latest(changes, latest.value.name) == latest);
    }
    forall r ensures r in after <==> Latest(changes + [Put(rule)], r.name) == Some(r) {
      if r.name == rule.name {
        if k < |rules| {
          assert after[k] == rule;
          assert forall i :: 0 <= i < |rules| && i != k ==> after[i].name != rule.name;
        } else {
          assert after[|rules|] == rule;
        }
      } else {
        assert r in rules <==> Latest(changes, r.name) == Some(r);
        assert r in after <==> r in rules by {
          if r in rules {
            var i :| 0 <= i < |rules| && rules[i] == r;
            assert after[i] == r;
          }
        }
      }
    }
  }

  lemma RemoveTakesOne(rules: seq<Rule>, name: Name)
    requires NamesDistinct(rules)
    ensures forall r :: r in Remove(rules, name) <==> r in rules && r.name != name
  {
    var after, k := Remove(rules, name), Position(rules, name);
    forall r | r in rules && r.name != name ensures r in after {
      var i :| 0 <= i < |rules| && rules[i] == r;
      assert after[if i < k then i else i - 1] == r;
    }
  }

  lemma DropKeepsOrder(rules: seq<Rule>, changes: seq<Change>, name: Name)
    requires InArrivalOrder(rules, changes)
    ensures InArrivalOrder(Remove(rules, name), changes + [Drop(name)])
  {
    var after, k, longer := Remove(rules, name), Position(rules, name), changes + [Drop(name)];
    assert longer[..|changes|] == changes;
    forall i, j | 0 <= i < j < |after| ensures Arrival(longer, after[i].name) < Arrival(longer, after[j].name) {
      var p, q := if i < k then i else i + 1, if j < k then j else j + 1;
      assert after[i] == rules[p] && after[j] == rules[q];
      assert rules[p].name != name && rules[q].name != name;
    }
  }

  lemma DropKeepsFollowing(rules: seq<Rule>, changes: seq<Change>, name: Name)
    requires Follows(rules, changes)
    ensures Follows(Remove(rules, name), changes + [Drop(name)])
  {
    DropKeepsOrder(rules, changes, name);
    RemoveTakesOne(rules, name);
    assert (changes + [Drop(name)])[..|changes|] == changes;
    forall r ensures r in Remove(rules, name) <==> Latest(changes + [Drop(name)], r.name) == Some(r) {
      assert r in rules <==> Latest(changes, r.name) == Some(r);
    }
  }

  /** After any history of upserts and removals the table holds the latest rule of every name, in order of arrival. */
  lemma {:induction false} TableFollowsHistory(changes: seq<Change>)
    ensures Follows(Apply([], changes), changes)
  {
    if changes == [] {
    } else {
      var before, change := changes[..|changes| - 1], changes[|changes| - 1];
      TableFollowsHistory(before);
      assert changes == before + [change];
      match change {
        case Put(rule) => PutKeepsFollowing(Apply([], before), before, rule);
        case Drop(name) => DropKeepsFollowing(Apply([], before), before, name);
      }
    }
  }

  lemma {:induction false} FirstMatchDecides(rules: seq<Rule>, fallback: Decision, request: Request)
    returns (k: nat)
    ensures k <= |rules| && forall i :: 0 <= i < k ==> !Matches(rules[i], request)
    ensures Evaluate(rules, fallback, request)
        == if k < |rules| then Evaluation(rules[k].effect, Some(rules[k].name)) else Evaluation(fallback, None)
    ensures k < |rules| ==> Matches(rules[k], request)
  {
    if rules == [] || Matches(rules[0], request) {
      k := 0;
    } else {
      k := FirstMatchDecides(rules[1..], fallback, request);
      k := k + 1;
    }
  }

  /**
   A request is decided by the oldest arrival among the latest rules that match it, as that rule now
   reads, and by the default exactly when none matches.
   */
  lemma DecisionFollowsHistory(changes: seq<Change>, fallback: Decision, request: Request)
    ensures var e := Evaluate(Apply([], changes), fallback, request);
      && (e.matched.None? <==> forall name :: !LatestMatches(changes, name, request))
      && (e.matched.None? ==> e.decision == fallback)
      && (e.matched.Some? ==> LatestMatches(changes, e.matched.value, request)
                              && e.decision == Latest(changes, e.matched.value).value.effect)
      && forall name :: e.matched.Some? && LatestMatches(changes, name, request)
                        ==> Arrival(changes, e.matched.value) <= Arrival(changes, name)
  {
    var rules := Apply([], changes);
    TableFollowsHistory(changes);
    var k := FirstMatchDecides(rules, fallback, request);
    forall name | LatestMatches(changes, name, request)
      ensures k < |rules| && Arrival(changes, rules[k].name) <= Arrival(changes, name)
    {
      ArrivalBound(changes, name);
      var r := Latest(changes, name).value;
      assert r in rules;
      var i :| 0 <= i < |rules| && rules[i] == r;
      assert i >= k;
    }
    if k < |rules| {
      assert rules[k] in rules;
      assert LatestMatches(changes, rules[k].name, request);
    }
  }

  // ----- what a rule's fields do -----

  function Insert(rules: seq<Rule>, i: nat, rule: Rule): seq<Rule>
    requires i <= |rules|
  {
    rules[..i] + [rule] + rules[i..]
  }

  lemma InsertTail(rules: seq<Rule>, i: nat, rule: Rule)
    requires 0 < i <= |rules|
    ensures Insert(rules, i, rule)[0] == rules[0] && Insert(rules, i, rule)[1..] == Insert(rules[1..], i - 1, rule)
  {
    assert rules[..i][1..] == rules[1..][..i - 1];
  }

  /**
   A rule that lists neither the request's action nor the asterisk, or neither its resource nor the
   asterisk, or has tenants of which the request's is none, decides nothing wherever it stands.
   */
  lemma {:induction false} OutOfScopeDecidesNothing(rules: seq<Rule>, i: nat, rule: Rule, fallback: Decision,
                                                    request: Request)
    requires i <= |rules|
    requires || rule.actions !! {request.action, "*"} || rule.resources !! {request.resource, "*"}
             || (rule.tenants.Some? && forall t :: t in rule.tenants.value ==> request.tenant != Some(t))
    ensures Evaluate(Insert(rules, i, rule), fallback, request) == Evaluate(rules, fallback, request)
  {
    if i == 0 {
      assert Insert(rules, 0, rule)[1..] == rules;
      assert request.action in {request.action, "*"} && "*" in {request.action, "*"};
      assert request.resource in {request.resource, "*"} && "*" in {request.resource, "*"};
    } else {
      InsertTail(rules, i, rule);
      OutOfScopeDecidesNothing(rules[1..], i - 1, rule, fallback, request);
    }
  }

  /**
   A rule that lists the request's action or the asterisk, its resource or the asterisk, and any or its
   tenant, decides the request wherever no rule before it does.
   */
  lemma {:induction false} InScopeDecides(rules: seq<Rule>, i: nat, rule: Rule, fallback: Decision, request: Request)
    requires i <= |rules| && Evaluate(rules[..i], fallback, request).matched.None?
    requires !(rule.actions !! {request.action, "*"}) && !(rule.resources !! {request.resource, "*"})
    requires rule.tenants.None? || exists t :: t in rule.tenants.value && request.tenant == Some(t)
    ensures Evaluate(Insert(rules, i, rule), fallback, request) == Evaluation(rule.effect, Some(rule.name))
  {
    if i > 0 {
      assert rules[..i][1..] == rules[1..][..i - 1] && rules[..i][0] == rules[0];
      InsertTail(rules, i, rule);
      InScopeDecides(rules[1..], i - 1, rule, fallback, request);
    } else {
      assert Insert(rules, 0, rule)[0] == rule;
    }
  }

  /** The rule that lets one tenant do one thing to one resource. */
  function Grant(name: Name, action: string, resource: string, tenant: string): Rule {
    Rule(name, Allow, {action}, {resource}, Some({tenant}))
  }

  lemma PolicyOfOne(rule: Rule, fallback: Decision, request: Request)
    ensures Evaluate([rule], fallback, request)
        == if Matches(rule, request) then Evaluation(rule.effect, Some(rule.name)) else Evaluation(fallback, None)
  {
    assert Evaluate([rule], fallback, request)
        == if Matches(rule, request) then Evaluation(rule.effect, Some(rule.name))
            else Evaluate([rule][1..], fallback, request);
  }

  /** One grant on its own allows exactly what it names, an asterisk standing for anything but a tenant. */
  lemma GrantDecides(name: Name, action: string, resource: string, tenant: string, request: Request)
    ensures Evaluate([Grant(name, action, resource, tenant)], Deny, request).decision == Allow <==>
      action in {request.action, "*"} && resource in {request.resource, "*"} && request.tenant == Some(tenant)
  {
    PolicyOfOne(Grant(name, action, resource, tenant), Deny, request);
  }

  lemma {:induction false} PrefixDecides(rules: seq<Rule>, others: seq<Rule>, fallback: Decision, request: Request,
                                         k: nat)
    requires k < |rules| && k < |others| && rules[..k + 1] == others[..k + 1]
    requires Matches(rules[k], request)
    ensures Evaluate(rules, fallback, request) == Evaluate(others, fallback, request)
  {
    assert rules[0] == rules[..k + 1][0] && others[0] == others[..k + 1][0];
    if k > 0 {
      assert rules[1..][..k] == rules[..k + 1][1..] && others[1..][..k] == others[..k + 1][1..];
      PrefixDecides(rules[1..], others[1..], fallback, request, k - 1);
    }
  }

  lemma {:induction false} ChangesKeepPrefix(rules: seq<Rule>, changes: seq<Change>, k: nat)
    requires k <= |rules|
    requires forall i, c :: 0 <= i < k && c in changes ==> NameOf(c) != rules[i].name
    ensures k <= |Apply(rules, changes)| && Apply(rules, changes)[..k] == rules[..k]
  {
    if changes == [] {
    } else {
      var before, change := changes[..|changes| - 1], changes[|changes| - 1];
      ChangesKeepPrefix(rules, before, k);
      var middle := Apply(rules, before);
      assert change in changes;
      assert forall i :: 0 <= i < k ==> middle[i] == middle[..k][i] == rules[..k][i];
      assert Position(middle, NameOf(change)) >= k;
    }
  }

  /**
   Once a request is decided by a rule, no run of changes that leaves that rule and the ones before it
   alone changes the decision: added rules in particular never do.
   */
  lemma LaterChangesDoNotMatter(rules: seq<Rule>, changes: seq<Change>, fallback: Decision, request: Request, k: nat)
    requires k < |rules| && Matches(rules[k], request) && forall i :: 0 <= i < k ==> !Matches(rules[i], request)
    requires forall i, c :: 0 <= i <= k && c in changes ==> NameOf(c) != rules[i].name
    ensures Evaluate(Apply(rules, changes), fallback, request) == Evaluate(rules, fallback, request)
        == Evaluation(rules[k].effect, Some(rules[k].name))
  {
    ChangesKeepPrefix(rules, changes, k + 1);
    PrefixDecides(Apply(rules, changes), rules, fallback, request, k);
    var found := FirstMatchDecides(rules, fallback, request);
  }

  /** A replaced rule keeps its precedence: the name decides the same requests, as long as it still matches them. */
  lemma ReplacementKeepsPrecedence(rules: seq<Rule>, rule: Rule, fallback: Decision, request: Request)
    requires Evaluate(rules, fallback, request).matched == Some(rule.name) && Matches(rule, request)
    ensures Evaluate(Upsert(rules, rule), fallback, request) == Evaluation(rule.effect, Some(rule.name))
  {
    var k := FirstMatchDecides(rules, fallback, request);
    var after, p := Upsert(rules, rule), Position(rules, rule.name);
    assert p <= k;
    var found := FirstMatchDecides(after, fallback, request);
    assert after[p] == rule;
    assert forall i :: 0 <= i < p ==> after[i] == rules[i];
  }
}
