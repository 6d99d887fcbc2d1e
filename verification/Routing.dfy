/**
 The gateway's two routing decisions: the dry run, which says whether a request would go through and to
 which server, and the execution itself.
 */
module Routing {
  import opened Basics
  import P = Policy
  import R = Registry

  /** Why a dry run answers as it does. */
  datatype Reason = NotRegistered | Unhealthy | NoServer | ByPolicy(evaluation: P.Evaluation)

  datatype DryRunResult = DryRunResult(
    allowed: bool, reason: Reason, selected: Option<R.ServerId>, healthy: Option<bool>)

  datatype DryRunRequest = DryRunRequest(
    tenant: R.Tenant, action: string, server: Option<R.ServerId>, preferred: Option<R.ServerId>, strategy: R.Strategy)

  /** How the transport fares once the policy has let a request through. */
  datatype Transport = NoAdapter | CallFailed | CallAnswered

  datatype Status =
    | NotFound
    | Denied(evaluation: P.Evaluation)
    | Allowed(evaluation: P.Evaluation)
    | Failed(evaluation: P.Evaluation)

  datatype Entry = DryRunEntry(result: DryRunResult) | ExecuteEntry(server: R.ServerId, action: string, status: Status)

  function ResourceOf(id: R.ServerId): string {
    "gateway.server." + id.text
  }

  function TenantOf(tenant: Option<R.Tenant>): Option<string> {
    if tenant.Some? then Some(tenant.value.text) else None
  }

  function Evaluate(rules: seq<P.Rule>, fallback: P.Decision, id: R.ServerId, tenant: Option<R.Tenant>,
                    action: string): P.Evaluation {
    P.Evaluate(rules, fallback, P.Request(action, ResourceOf(id), TenantOf(tenant)))
  }

  /** The policy's word on a server, asked for the tenant of the request. */
  function Planned(rules: seq<P.Rule>, fallback: P.Decision, server: R.Server, request: DryRunRequest): DryRunResult {
    var evaluation := Evaluate(rules, fallback, server.id, Some(request.tenant), request.action);
    DryRunResult(evaluation.decision == P.Allow, ByPolicy(evaluation), Some(server.id), Some(server.healthy))
  }

  /** `picked` is what the registry would pick for the request when it names no server. */
  function DryRun(rows: R.Rows, rules: seq<P.Rule>, fallback: P.Decision, request: DryRunRequest,
                  picked: Option<R.Server>): DryRunResult {
    if R.Given(request.server) then
      var id := request.server.value;
      if id !in rows then DryRunResult(false, NotRegistered, None, None)
      else if !rows[id].healthy then DryRunResult(false, Unhealthy, Some(rows[id].id), Some(false))
      else Planned(rules, fallback, rows[id], request)
    else if picked.None? then DryRunResult(false, NoServer, None, None)
    else Planned(rules, fallback, picked.value, request)
  }

  /** An execution asks the policy for the server's own tenant, and pays no attention to its health. */
  function Execute(rows: R.Rows, rules: seq<P.Rule>, fallback: P.Decision, id: R.ServerId, action: string,
                   dryRun: bool, transport: Transport): Status {
    if id !in rows then NotFound
    else
      var evaluation := Evaluate(rules, fallback, rows[id].id, rows[id].tenant, action);
      if evaluation.decision != P.Allow then Denied(evaluation)
      else if dryRun || transport == CallAnswered then Allowed(evaluation)
      else Failed(evaluation)
  }

  // ----- the handlers -----

  class Gateway {
    const registry: R.GatewayRegistry
    const policy: P.PolicyEngine
    var log: seq<Entry>

    constructor (registry: R.GatewayRegistry, policy: P.PolicyEngine)
      ensures this.registry == registry && this.policy == policy && log == []
    {
      this.registry, this.policy, log := registry, policy, [];
    }

    method RouteDryRun(request: DryRunRequest)
      returns (result: DryRunResult, ghost picked: Option<R.Server>, ghost servers: seq<R.Server>, ghost draw: int)
      requires registry.Valid()
      modifies `log
      ensures result == DryRun(registry.rows, policy.rules, policy.fallback, request, picked)
      ensures log == old(log) + [DryRunEntry(result)]
      ensures !R.Given(request.server) ==>
        && R.IsListing(servers, registry.rows, Some(request.tenant), true)
        && (request.strategy == R.Weighted && servers != [] ==> 1 <= draw <= R.Total(servers))
        && picked == R.Choose(servers, request.strategy, request.preferred, draw)
    {
      var selected: Option<R.Server> := None;
      picked, servers, draw := None, [], 0;
      if R.Given(request.server) {
        if request.server.value !in registry.rows {
          result := DryRunResult(false, NotRegistered, None, None);
          log := log + [DryRunEntry(result)];
          return;
        }
        selected := Some(registry.rows[request.server.value]);
        if !selected.value.healthy {
          result := DryRunResult(false, Unhealthy, Some(selected.value.id), Some(false));
          log := log + [DryRunEntry(result)];
          return;
        }
      } else {
        selected, servers, draw := registry.PickServer(request.tenant, request.strategy, request.preferred, true);
        picked := selected;
      }
      if selected.None? {
        result := DryRunResult(false, NoServer, None, None);
      } else {
        var s := selected.value;
        var evaluation := policy.Decide(P.Request(request.action, ResourceOf(s.id), Some(request.tenant.text)));
        result := DryRunResult(evaluation.decision == P.Allow, ByPolicy(evaluation), Some(s.id), Some(s.healthy));
      }
      log := log + [DryRunEntry(result)];
    }

    /** An unknown server is refused without an entry in the log; `called` tells whether the transport was used. */
    method RouteExecute(id: R.ServerId, action: string, dryRun: bool, transport: Transport)
      returns (status: Status, called: bool)
      requires registry.Valid()
      modifies `log
      ensures status == Execute(registry.rows, policy.rules, policy.fallback, id, action, dryRun, transport)
      ensures called <==> !dryRun && transport != NoAdapter && (status.Allowed? || status.Failed?)
      ensures log == if status.NotFound? then old(log) else old(log) + [ExecuteEntry(id, action, status)]
    {
      if id !in registry.rows {
        return NotFound, false;
      }
      var server := registry.rows[id];
      var evaluation := policy.Decide(P.Request(action, ResourceOf(server.id), TenantOf(server.tenant)));
      called := false;
      if evaluation.decision != P.Allow {
        status := Denied(evaluation);
      } else if dryRun {
        status := Allowed(evaluation);
      } else if transport == NoAdapter {
        status := Failed(evaluation);
      } else {
        called := true;
        status := if transport == CallFailed then Failed(evaluation) else Allowed(evaluation);
      }
      log := log + [ExecuteEntry(id, action, status)];
    }
  }

  // ----- how the two decisions relate -----

  predicate Passes(status: Status) {
    status.Allowed? || status.Failed?
  }

  /** For a server that the registry picks, the plan and the execution agree under every rule store. */
  lemma PickedPlanIsExecution(servers: seq<R.Server>, rows: R.Rows, rules: seq<P.Rule>, fallback: P.Decision,
                              request: DryRunRequest, draw: int, dryRun: bool, transport: Transport)
    requires R.IsListing(servers, rows, Some(request.tenant), true) && !R.Given(request.server)
    requires request.strategy == R.Weighted && servers != [] ==> 1 <= draw <= R.Total(servers)
    ensures var picked := R.Choose(servers, request.strategy, request.preferred, draw);
      var plan := DryRun(rows, rules, fallback, request, picked);
      && (plan.reason == NoServer <==> servers == [])
      && (plan.selected.Some? ==>
            (plan.allowed <==>
              Passes(Execute(rows, rules, fallback, plan.selected.value, request.action, dryRun, transport))))
  {
    R.ChoiceIsEligible(servers, rows, request.tenant, true, request.strategy, request.preferred, draw);
  }

  predicate Agree(rows: R.Rows, rules: seq<P.Rule>, fallback: P.Decision, request: DryRunRequest, transport: Transport)
    requires R.Given(request.server)
  {
    DryRun(rows, rules, fallback, request, None).allowed
    <==> Passes(Execute(rows, rules, fallback, request.server.value, request.action, false, transport))
  }

  /** The rule that lets one tenant do everything. */
  function Only(tenant: R.Tenant): P.Rule {
    P.Rule(P.Name("only"), P.Allow, {"*"}, {"*"}, Some({tenant.text}))
  }

  /**
   For a named, registered server the plan and the execution agree under every rule store if and only if
   the server is healthy and belongs to the tenant of the request.
   */
  lemma PlanAgreesExactly(rows: R.Rows, request: DryRunRequest, transport: Transport)
    requires R.Given(request.server) && request.server.value in rows
    ensures (forall rules, fallback :: Agree(rows, rules, fallback, request, transport)) <==>
      rows[request.server.value].healthy && rows[request.server.value].tenant == Some(request.tenant)
  {
    var s := rows[request.server.value];
    if s.tenant != Some(request.tenant) {
      var rules := [Only(request.tenant)];
      if s.healthy {
        assert !Agree(rows, rules, P.Deny, request, transport) by {
          P.PolicyOfOne(Only(request.tenant), P.Deny,
                      P.Request(request.action, ResourceOf(s.id), Some(request.tenant.text)));
          P.PolicyOfOne(Only(request.tenant), P.Deny, P.Request(request.action, ResourceOf(s.id), TenantOf(s.tenant)));
        }
      }
    }
    if !s.healthy {
      assert !Agree(rows, [], P.Allow, request, transport);
    }
  }

  // ----- what is asked and what is told -----

  /** The request names a server; an empty name is none. */
  predicate NamesServer(request: DryRunRequest) {
    request.server.Some? && |request.server.value.text| > 0
  }

  /**
   A plan says why it is one exactly: a named server that is not registered or not healthy, no server to
   pick, or the policy's word; it tells the server it is about and that server's health, and allows only
   what the policy allows.
   */
  lemma PlanTells(rows: R.Rows, rules: seq<P.Rule>, fallback: P.Decision, request: DryRunRequest,
                  picked: Option<R.Server>)
    requires forall id :: id in rows ==> rows[id].id == id
    ensures var plan, named, known := DryRun(rows, rules, fallback, request, picked), NamesServer(request),
        NamesServer(request) && request.server.value in rows;
      && (plan.reason == NotRegistered <==> named && !known)
      && (plan.reason == Unhealthy <==> known && !rows[request.server.value].healthy)
      && (plan.reason == NoServer <==> !named && picked.None?)
      && (known ==> plan.selected == request.server && plan.healthy == Some(rows[request.server.value].healthy))
      && (!named && picked.Some? ==>
            plan.selected == Some(picked.value.id) && plan.healthy == Some(picked.value.healthy))
      && (plan.allowed <==> plan.reason.ByPolicy? && plan.reason.evaluation.decision == P.Allow)
  {
  }

  /**
   An execution is unknown exactly for a server that is not registered; otherwise the policy's word alone
   decides whether it is denied, and the transport whether what is let through fails.
   */
  lemma ExecutionTells(rows: R.Rows, rules: seq<P.Rule>, fallback: P.Decision, id: R.ServerId, action: string,
                       dryRun: bool, transport: Transport)
    ensures var status := Execute(rows, rules, fallback, id, action, dryRun, transport);
      && (status == NotFound <==> id !in rows)
      && (status.Denied? ==> status.evaluation.decision == P.Deny)
      && (status.Allowed? || status.Failed? ==> status.evaluation.decision == P.Allow)
      && (status.Failed? ==> !dryRun && transport in {NoAdapter, CallFailed})
      && (status.Allowed? ==> dryRun || transport == CallAnswered)
  {
  }

  lemma ResourceNamesServer(id: R.ServerId, server: string)
    ensures ResourceOf(id) == "gateway.server." + server <==> id.text == server
    ensures ResourceOf(id) != "*" && "gateway.server." + server != "*"
  {
    var prefix := "gateway.server.";
    assert (prefix + id.text)[|prefix|..] == id.text && (prefix + server)[|prefix|..] == server;
    assert |prefix| == 15 && |prefix + server| >= 15;
  }

  /**
   With one grant and nothing else, an execution goes through exactly for that action, on that server, when
   the server belongs to that tenant; and the plan for a named healthy server exactly for that action, on
   that server, when that tenant asks.
   */
  lemma GrantReachesExactly(rows: R.Rows, action: string, server: string, tenant: string, request: DryRunRequest,
                            dryRun: bool, transport: Transport)
    requires forall id :: id in rows ==> rows[id].id == id
    requires NamesServer(request) && request.server.value in rows
    ensures var id := request.server.value;
      var rules := [P.Grant(P.Name("grant"), action, "gateway.server." + server, tenant)];
      && (Passes(Execute(rows, rules, P.Deny, id, request.action, dryRun, transport)) <==>
            action in {request.action, "*"} && id.text == server && rows[id].tenant == Some(R.Tenant(tenant)))
      && (rows[id].healthy ==>
            (DryRun(rows, rules, P.Deny, request, None).allowed <==>
               action in {request.action, "*"} && id.text == server && request.tenant == R.Tenant(tenant)))
  {
    var id, name, resource := request.server.value, P.Name("grant"), "gateway.server." + server;
    var at := ResourceOf(id);
    ResourceNamesServer(id, server);
    P.GrantDecides(name, action, resource, tenant, P.Request(request.action, at, TenantOf(rows[id].tenant)));
    P.GrantDecides(name, action, resource, tenant, P.Request(request.action, at, Some(request.tenant.text)));
  }
}
