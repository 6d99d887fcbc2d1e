/**
 The gateway's server registry: one row per server id, listed in id order, and the choice of a server
 for a tenant. The random draw of the weighted strategy is any number in its range.
 */
module Registry {
  import opened Basics

  datatype ServerId = ServerId(text: string)

  datatype Tenant = Tenant(text: string)

  datatype Server = Server(
    id: ServerId, tenant: Option<Tenant>, endpoint: string, healthy: bool, weight: int, priority: int,
    registeredAt: real)

  datatype Strategy = Failover | Weighted | Preferred

  type Rows = map<ServerId, Server>

  function WeightOf(server: Server): (w: int) {
    Max(1, server.weight)
  }

  /** A registration replaces everything but the time of the first one, and raises the weight to one. */
  function Register(rows: Rows, server: Server): Rows {
    var stored := server.(weight := Max(1, server.weight));
    rows[server.id := if server.id in rows then stored.(registeredAt := rows[server.id].registeredAt) else stored]
  }

  function SetHealth(rows: Rows, id: ServerId, healthy: bool): Rows {
    if id in rows then rows[id := rows[id].(healthy := healthy)] else rows
  }

  // ----- the order of ids -----

  predicate TextAtMost(a: string, b: string) {
    a == [] || (b != [] && (a[0] < b[0] || (a[0] == b[0] && TextAtMost(a[1..], b[1..]))))
  }

  predicate AtMost(a: ServerId, b: ServerId) {
    TextAtMost(a.text, b.text)
  }

  lemma {:induction false} TextOrderTotal(a: string, b: string)
    ensures TextAtMost(a, b) || TextAtMost(b, a)
    ensures TextAtMost(a, b) && TextAtMost(b, a) <==> a == b
  {
    if a == [] || b == [] {
    } else {
      TextOrderTotal(a[1..], b[1..]);
      assert a == [a[0]] + a[1..] && b == [b[0]] + b[1..];
    }
  }

  lemma {:induction false} TextOrderTransitive(a: string, b: string, c: string)
    requires TextAtMost(a, b) && TextAtMost(b, c)
    ensures TextAtMost(a, c)
  {
    if a == [] {
    } else if a[0] == b[0] && b[0] == c[0] {
      TextOrderTransitive(a[1..], b[1..], c[1..]);
    }
  }

  predicate DiffersFirstAt(a: string, b: string, k: int) {
    0 <= k < |a| && k < |b| && a[..k] == b[..k] && a[k] < b[k]
  }

  lemma SameUpTo(a: string, b: string, k: int)
    requires DiffersFirstAt(a, b, k)
    ensures k > 0 ==> a[0] == b[0]
  {
    assert k > 0 ==> a[..k][0] == a[0] && b[..k][0] == b[0];
  }

  /** The order of texts: a text comes before its continuations, and otherwise the first difference decides. */
  lemma {:induction false} TextOrderExactly(a: string, b: string)
    ensures TextAtMost(a, b) <==> a <= b || exists k :: DiffersFirstAt(a, b, k)
  {
    if a == [] || b == [] {
    } else {
      TextOrderExactly(a[1..], b[1..]);
      assert a == [a[0]] + a[1..] && b == [b[0]] + b[1..];
      if a[0] == b[0] {
        assert a <= b <==> a[1..] <= b[1..];
        if k :| DiffersFirstAt(a, b, k) {
          assert k > 0 && a[1..][..k - 1] == a[..k][1..] && b[1..][..k - 1] == b[..k][1..];
          assert DiffersFirstAt(a[1..], b[1..], k - 1);
        }
        if k :| DiffersFirstAt(a[1..], b[1..], k) {
          assert a[..k + 1] == [a[0]] + a[1..][..k] && b[..k + 1] == [b[0]] + b[1..][..k];
          assert DiffersFirstAt(a, b, k + 1);
        }
      } else {
        assert DiffersFirstAt(a, b, 0) <==> a[0] < b[0];
        forall k | DiffersFirstAt(a, b, k) ensures k == 0 {
          SameUpTo(a, b, k);
        }
      }
    }
  }

  /** The two sort keys in use: the id alone, or the priority and then the id. */
  datatype Order = ById | ByPriority

  predicate Precedes(order: Order, a: Server, b: Server) {
    match order
    case ById => AtMost(a.id, b.id)
    case ByPriority => a.priority < b.priority || (a.priority == b.priority && AtMost(a.id, b.id))
  }

  lemma OrderTotal(order: Order, a: Server, b: Server)
    ensures Precedes(order, a, b) || Precedes(order, b, a)
    ensures Precedes(order, a, b) && Precedes(order, b, a) ==> a.id == b.id
  {
    TextOrderTotal(a.id.text, b.id.text);
  }

  lemma OrderTransitive(order: Order, a: Server, b: Server, c: Server)
    requires Precedes(order, a, b) && Precedes(order, b, c)
    ensures Precedes(order, a, c)
  {
    if AtMost(a.id, b.id) && AtMost(b.id, c.id) {
      TextOrderTransitive(a.id.text, b.id.text, c.id.text);
    }
  }

  /** The first of a list in sorted order. */
  function First(order: Order, servers: seq<Server>): Server
    requires servers != []
  {
    if |servers| == 1 then servers[0]
    else
      var rest := First(order, servers[1..]);
      if Precedes(order, servers[0], rest) then servers[0] else rest
  }

  lemma {:induction false} FirstIsLeast(order: Order, servers: seq<Server>)
    requires servers != []
    ensures First(order, servers) in servers
    ensures forall s :: s in servers ==> Precedes(order, First(order, servers), s)
  {
    OrderTotal(order, servers[0], servers[0]);
    if |servers| == 1 {
    } else {
      var rest := First(order, servers[1..]);
      FirstIsLeast(order, servers[1..]);
      OrderTotal(order, servers[0], rest);
      assert servers == [servers[0]] + servers[1..];
      forall s | s in servers ensures Precedes(order, First(order, servers), s) {
        if s in servers[1..] && Precedes(order, servers[0], rest) {
          OrderTransitive(order, servers[0], rest, s);
        }
      }
    }
  }

  // ----- listing and choosing -----

  predicate Eligible(rows: Rows, id: ServerId, tenant: Tenant, requireHealthy: bool) {
    id in rows && rows[id].id == id && rows[id].tenant == Some(tenant) && (requireHealthy ==> rows[id].healthy)
  }

  predicate Matches(server: Server, tenant: Option<Tenant>, requireHealthy: bool) {
    (tenant.Some? ==> server.tenant == tenant) && (requireHealthy ==> server.healthy)
  }

  /** The matching rows, each once, in the order of their ids. */
  ghost predicate IsListing(servers: seq<Server>, rows: Rows, tenant: Option<Tenant>, requireHealthy: bool) {
    && (forall s :: s in servers <==> s.id in rows && rows[s.id] == s && Matches(s, tenant, requireHealthy))
    && Sorted(servers)
  }

  ghost predicate Sorted(servers: seq<Server>) {
    forall i, j :: 0 <= i < j < |servers| ==> AtMost(servers[i].id, servers[j].id) && servers[i].id != servers[j].id
  }

  function Total(servers: seq<Server>): nat {
    if servers == [] then 0 else WeightOf(servers[0]) + Total(servers[1..])
  }

  /** The server in whose share of 1..Total the draw falls. */
  function WeightedChoice(servers: seq<Server>, draw: int): Server
    requires 1 <= draw <= Total(servers)
  {
    if draw <= WeightOf(servers[0]) then servers[0] else WeightedChoice(servers[1..], draw - WeightOf(servers[0]))
  }

  predicate Given(preferred: Option<ServerId>) {
    preferred.Some? && preferred.value.text != ""
  }

  function Find(servers: seq<Server>, id: ServerId): Option<Server> {
    if servers == [] then None else if servers[0].id == id then Some(servers[0]) else Find(servers[1..], id)
  }

  function Choose(servers: seq<Server>, strategy: Strategy, preferred: Option<ServerId>, draw: int): Option<Server>
    requires strategy == Weighted && servers != [] ==> 1 <= draw <= Total(servers)
  {
    if servers == [] then None
    else if Given(preferred) && Find(servers, preferred.value).Some? then Find(servers, preferred.value)
    else match strategy
      case Failover => Some(First(ByPriority, servers))
      case Weighted => Some(WeightedChoice(servers, draw))
      case Preferred => Some(First(ById, servers))
  }

  // ----- the registry -----

  lemma {:induction false} TotalSplits(servers: seq<Server>, i: nat)
    requires i < |servers|
    ensures Total(servers[..i + 1]) == Total(servers[..i]) + WeightOf(servers[i])
    ensures Total(servers[..i + 1]) <= Total(servers)
  {
    if i == 0 {
      assert servers[..1] == [servers[0]];
    } else {
      TotalSplits(servers[1..], i - 1);
      assert servers[..i + 1][1..] == servers[1..][..i];
      assert servers[..i][1..] == servers[1..][..i - 1];
    }
  }

  lemma TotalAtLeastOne(servers: seq<Server>)
    ensures servers != [] ==> Total(servers) >= 1
  {
    if servers != [] {
      TotalSplits(servers, 0);
    }
  }

  /** A draw falls to the server at `i` exactly when it lies in that server's share. */
  lemma {:induction false} ChoiceIsByShare(servers: seq<Server>, i: nat, draw: int)
    requires i < |servers| && 1 <= draw <= Total(servers)
    requires forall j, k :: 0 <= j < k < |servers| ==> servers[j].id != servers[k].id
    ensures WeightedChoice(servers, draw) in servers
    ensures WeightedChoice(servers, draw) == servers[i]
        <==> Total(servers[..i]) < draw <= Total(servers[..i]) + WeightOf(servers[i])
  {
    var w := WeightOf(servers[0]);
    if draw <= w {
      assert i > 0 ==> servers[i] != servers[0] && Total(servers[..i]) >= w;
    } else {
      var rest := servers[1..];
      if i == 0 {
        ChoiceIsByShare(rest, 0, draw - w);
        var k :| 0 <= k < |rest| && rest[k] == WeightedChoice(rest, draw - w);
        assert servers[k + 1] == rest[k];
      } else {
        ChoiceIsByShare(rest, i - 1, draw - w);
        assert servers[..i][1..] == rest[..i - 1];
      }
    }
  }

  class GatewayRegistry {
    var rows: Rows

    constructor ()
      ensures rows == map[]
    {
      rows := map[];
    }

    ghost predicate Valid()
      reads this
    {
      forall id :: id in rows ==> rows[id].id == id
    }

    method RegisterServer(server: Server)
      requires Valid()
      modifies this
      ensures Valid() && rows == Register(old(rows), server)
    {
      var registeredAt := if server.id in rows then rows[server.id].registeredAt else server.registeredAt;
      rows := rows[server.id := server.(weight := Max(1, server.weight), registeredAt := registeredAt)];
    }

    method MarkHealth(id: ServerId, healthy: bool)
      requires Valid()
      modifies this
      ensures Valid() && rows == SetHealth(old(rows), id, healthy)
    {
      if id in rows {
        rows := rows[id := rows[id].(healthy := healthy)];
      }
    }

    method ListServers(tenant: Option<Tenant>) returns (servers: seq<Server>)
      requires Valid()
      ensures IsListing(servers, rows, tenant, false)
    {
      servers := [];
      var left := rows.Keys;
      while left != {}
        invariant left <= rows.Keys && Sorted(servers)
        invariant forall s, id :: s in servers && id in left ==> AtMost(s.id, id) && s.id != id
        invariant forall s :: s in servers <==>
          s.id in rows && s.id !in left && rows[s.id] == s && Matches(s, tenant, false)
        decreases left
      {
        LeastExists(left);
        var id :| id in left && forall other :: other in left ==> AtMost(id, other);
        left := left - {id};
        if tenant.None? || rows[id].tenant == tenant {
          servers := servers + [rows[id]];
        }
      }
    }

    method PickServer(tenant: Tenant, strategy: Strategy, preferred: Option<ServerId>, requireHealthy: bool)
      returns (chosen: Option<Server>, ghost servers: seq<Server>, ghost draw: int)
      requires Valid()
      ensures IsListing(servers, rows, Some(tenant), requireHealthy)
      ensures strategy == Weighted && servers != [] ==> 1 <= draw <= Total(servers)
      ensures chosen == Choose(servers, strategy, preferred, draw)
      ensures chosen.Some? <==> exists id :: Eligible(rows, id, tenant, requireHealthy)
      ensures chosen.Some? ==>
          Eligible(rows, chosen.value.id, tenant, requireHealthy) && rows[chosen.value.id] == chosen.value
      ensures Wanted(rows, tenant, requireHealthy, preferred) ==> chosen == Some(rows[preferred.value])
      ensures chosen.Some? && !Wanted(rows, tenant, requireHealthy, preferred) ==>
          forall id :: Eligible(rows, id, tenant, requireHealthy) ==> ComesFirst(strategy, chosen.value, rows[id])
    {
      var listed := ListServers(Some(tenant));
      if requireHealthy {
        listed := Healthy(listed);
      }
      servers, draw := listed, 1;
      TotalAtLeastOne(listed);
      var favourite := if Given(preferred) then Find(listed, preferred.value) else None;
      if listed == [] {
        chosen := None;
      } else if favourite.Some? {
        chosen := favourite;
      } else {
        match strategy {
          case Failover => chosen := Some(First(ByPriority, listed));
          case Preferred => chosen := Some(First(ById, listed));
          case Weighted =>
            var pick := RandInt(1, Total(listed));
            draw := pick;
            var server := Walk(listed, pick);
            chosen := Some(server);
        }
      }
      ChoiceIsEligible(servers, rows, tenant, requireHealthy, strategy, preferred, draw);
    }

    method RandInt(low: int, high: int) returns (r: int)
      requires low <= high
      ensures low <= r <= high
    {
      assert low <= low <= high;
      r :| low <= r <= high;
    }
  }

  /** The accumulating walk of the weighted strategy: it always returns from inside its loop. */
  method Walk(servers: seq<Server>, pick: int) returns (server: Server)
    requires Sorted(servers) && 1 <= pick <= Total(servers)
    ensures server == WeightedChoice(servers, pick)
  {
    var cur := 0;
    assert servers[..|servers|] == servers;
    for i := 0 to |servers|
      invariant cur == Total(servers[..i]) < pick
    {
      TotalSplits(servers, i);
      cur := cur + Max(1, servers[i].weight);
      if pick <= cur {
        ChoiceIsByShare(servers, i, pick);
        return servers[i];
      }
    }
    assert false;
  }

  method Healthy(servers: seq<Server>) returns (healthy: seq<Server>)
    requires Sorted(servers)
    ensures Sorted(healthy) && forall s :: s in healthy <==> s in servers && s.healthy
  {
    healthy := [];
    for i := 0 to |servers|
      invariant Sorted(healthy) && forall s :: s in healthy <==> s in servers[..i] && s.healthy
    {
      if servers[i].healthy {
        healthy := healthy + [servers[i]];
      }
    }
  }

  lemma {:induction false} LeastExists(ids: set<ServerId>)
    requires ids != {}
    ensures exists id :: id in ids && forall other :: other in ids ==> AtMost(id, other)
    decreases ids
  {
    var id :| id in ids;
    TextOrderTotal(id.text, id.text);
    if ids == {id} {
    } else {
      LeastExists(ids - {id});
      var least :| least in ids - {id} && forall other :: other in ids - {id} ==> AtMost(least, other);
      TextOrderTotal(id.text, least.text);
      if AtMost(id, least) {
        forall other | other in ids ensures AtMost(id, other) {
          if other != id {
            assert other in ids - {id} && AtMost(least, other);
            TextOrderTransitive(id.text, least.text, other.text);
          }
        }
      } else {
        assert forall other :: other in ids ==> AtMost(least, other);
      }
    }
  }

  // ----- what the choice guarantees -----

  lemma {:induction false} SortedListsAgree(a: seq<Server>, b: seq<Server>)
    requires Sorted(a) && Sorted(b) && forall s :: s in a <==> s in b
    ensures a == b
  {
    assert (a == [] || a[0] in a) && (b == [] || b[0] in b);
    if a == [] {
    } else {
      assert a[0] in b && b[0] in a;
      TextOrderTotal(a[0].id.text, b[0].id.text);
      assert a[0] == b[0];
      assert a == [a[0]] + a[1..] && b == [b[0]] + b[1..];
      forall s ensures s in a[1..] <==> s in b[1..] {
        assert s in a <==> s in b;
      }
      SortedListsAgree(a[1..], b[1..]);
    }
  }

  lemma {:induction false} FindIsExact(servers: seq<Server>, id: ServerId)
    ensures Find(servers, id).Some? <==> exists s :: s in servers && s.id == id
    ensures Find(servers, id).Some? ==> Find(servers, id).value in servers && Find(servers, id).value.id == id
  {
    if servers == [] {
    } else {
      assert servers == [servers[0]] + servers[1..];
      FindIsExact(servers[1..], id);
      if s :| s in servers && s.id == id {
        assert s == servers[0] || s in servers[1..];
      }
    }
  }

  /** The preferred server is named and eligible; an empty name is none. */
  predicate Wanted(rows: Rows, tenant: Tenant, requireHealthy: bool, preferred: Option<ServerId>) {
    preferred.Some? && |preferred.value.text| > 0 && Eligible(rows, preferred.value, tenant, requireHealthy)
  }

  /** What a strategy without a draw looks for: the lowest priority number and then the id, or the id alone. */
  predicate ComesFirst(strategy: Strategy, s: Server, t: Server) {
    match strategy
    case Failover => s.priority <= t.priority && (s.priority == t.priority ==> TextAtMost(s.id.text, t.id.text))
    case Preferred => TextAtMost(s.id.text, t.id.text)
    case Weighted => true
  }

  /**
   A server is chosen exactly when the tenant has an eligible one, and it is one of them: the preferred
   one when that is eligible, and otherwise the first by priority and id under failover, and the first by
   id where a preference was to decide. WeightedIsProportional says what the third strategy does.
   */
  lemma ChoiceIsEligible(servers: seq<Server>, rows: Rows, tenant: Tenant, requireHealthy: bool,
                         strategy: Strategy, preferred: Option<ServerId>, draw: int)
    requires IsListing(servers, rows, Some(tenant), requireHealthy)
    requires strategy == Weighted && servers != [] ==> 1 <= draw <= Total(servers)
    ensures Choose(servers, strategy, preferred, draw).Some? <==>
        exists id :: Eligible(rows, id, tenant, requireHealthy)
    ensures var choice := Choose(servers, strategy, preferred, draw);
      choice.Some? ==>
        var s, wanted := choice.value, Wanted(rows, tenant, requireHealthy, preferred);
        && Eligible(rows, s.id, tenant, requireHealthy) && rows[s.id] == s
        && (wanted ==> s.id == preferred.value)
        && (!wanted ==> forall id :: Eligible(rows, id, tenant, requireHealthy) ==> ComesFirst(strategy, s, rows[id]))
  {
    ListsEligible(servers, rows, tenant, requireHealthy);
    if servers != [] {
      assert servers[0] in servers;
      FirstIsLeast(ById, servers);
      FirstIsLeast(ByPriority, servers);
      if strategy == Weighted {
        ChoiceIsByShare(servers, 0, draw);
      }
      if Given(preferred) {
        FindIsExact(servers, preferred.value);
      }
    }
  }

  lemma ListsEligible(servers: seq<Server>, rows: Rows, tenant: Tenant, requireHealthy: bool)
    requires IsListing(servers, rows, Some(tenant), requireHealthy)
    ensures forall s :: s in servers ==> Eligible(rows, s.id, tenant, requireHealthy) && rows[s.id] == s
    ensures forall id :: Eligible(rows, id, tenant, requireHealthy) ==> rows[id] in servers
  {
  }

  /** A listing has every row of the tenant, or of all tenants, each exactly once, in the order of the ids' texts. */
  lemma ListingIsComplete(servers: seq<Server>, rows: Rows, tenant: Option<Tenant>, requireHealthy: bool)
    requires IsListing(servers, rows, tenant, requireHealthy) && forall id :: id in rows ==> rows[id].id == id
    ensures forall id :: id in rows ==>
      (rows[id] in servers <==> (tenant.None? || rows[id].tenant == tenant) && (!requireHealthy || rows[id].healthy))
    ensures forall s :: s in servers ==> s.id in rows && rows[s.id] == s
    ensures forall i, j :: 0 <= i < j < |servers| ==>
      servers[i].id != servers[j].id && TextAtMost(servers[i].id.text, servers[j].id.text)
  {
  }

  /** The whole numbers above `low` up to `high`. */
  function Range(low: int, high: int): (r: set<int>)
    requires low <= high
    ensures |r| == high - low && forall d :: d in r <==> low < d <= high
    decreases high - low
  {
    if low == high then {} else Range(low, high - 1) + {high}
  }

  /** The draws by which the weighted strategy chooses a server when no preferred one is listed. */
  function DrawsFor(servers: seq<Server>, preferred: Option<ServerId>, server: Server): set<int> {
    set d | 1 <= d <= Total(servers) && Choose(servers, Weighted, preferred, d) == Some(server)
  }

  /** Over all draws of the range, each eligible server is chosen by exactly as many as its weight, one at least. */
  lemma WeightedIsProportional(servers: seq<Server>, preferred: Option<ServerId>, i: nat)
    requires Sorted(servers) && i < |servers| && forall s :: s in servers ==> preferred != Some(s.id)
    ensures |DrawsFor(servers, preferred, servers[i])| == Max(1, servers[i].weight)
  {
    TotalSplits(servers, i);
    if Given(preferred) {
      FindIsExact(servers, preferred.value);
    }
    var low, w := Total(servers[..i]), WeightOf(servers[i]);
    var draws, share := DrawsFor(servers, preferred, servers[i]), Range(low, low + w);
    forall d ensures d in draws <==> d in share {
      if 1 <= d <= Total(servers) {
        ChoiceIsByShare(servers, i, d);
      }
    }
    assert draws == share;
  }

  lemma FirstAmongFewer(order: Order, before: seq<Server>, after: seq<Server>)
    requires before != [] && First(order, before) in after
    requires forall s :: s in after ==> s in before
    requires forall s, t :: s in before && t in before && s.id == t.id ==> s == t
    ensures First(order, after) == First(order, before)
  {
    FirstIsLeast(order, before);
    FirstIsLeast(order, after);
    OrderTotal(order, First(order, before), First(order, after));
  }

  /**
   Marking a server unhealthy changes the choice of every strategy without a draw if and only if it was
   the chosen one.
   */
  lemma UnchosenHealthIsIrrelevant(before: seq<Server>, after: seq<Server>, rows: Rows, tenant: Tenant,
                                   strategy: Strategy, preferred: Option<ServerId>, other: ServerId)
    requires forall id :: id in rows ==> rows[id].id == id
    requires IsListing(before, rows, Some(tenant), true) && before != [] && strategy != Weighted
    requires IsListing(after, SetHealth(rows, other, false), Some(tenant), true)
    ensures Choose(after, strategy, preferred, 1) == Choose(before, strategy, preferred, 1)
        <==> other != Choose(before, strategy, preferred, 1).value.id
  {
    var s := Choose(before, strategy, preferred, 1).value;
    FirstIsLeast(ById, before);
    FirstIsLeast(ByPriority, before);
    forall t ensures t in after <==> t in before && t.id != other {
    }
    if Given(preferred) {
      FindIsExact(before, preferred.value);
      FindIsExact(after, preferred.value);
    }
    if other != s.id {
      assert s in after;
      if !(Given(preferred) && Find(before, preferred.value).Some?) {
        FirstAmongFewer(if strategy == Failover then ByPriority else ById, before, after);
      }
    } else if after != [] {
      FirstIsLeast(ById, after);
      FirstIsLeast(ByPriority, after);
    }
  }

  /** A listing is determined by the rows, so a choice is determined by the rows and the draw. */
  lemma ChoiceIsDetermined(a: seq<Server>, b: seq<Server>, rows: Rows, tenant: Tenant, requireHealthy: bool,
                           strategy: Strategy, preferred: Option<ServerId>, draw: int)
    requires IsListing(a, rows, Some(tenant), requireHealthy) && IsListing(b, rows, Some(tenant), requireHealthy)
    requires strategy == Weighted && a != [] ==> 1 <= draw <= Total(a)
    ensures a == b && Choose(a, strategy, preferred, draw) == Choose(b, strategy, preferred, draw)
  {
    SortedListsAgree(a, b);
  }

  // ----- histories -----

  /** What is written to the table: a registration, or a health mark. */
  datatype Write = Enrol(server: Server) | Mark(id: ServerId, healthy: bool)

  function Rewrite(rows: Rows, write: Write): Rows {
    match write
    case Enrol(server) => Register(rows, server)
    case Mark(id, healthy) => SetHealth(rows, id, healthy)
  }

  function Replay(history: seq<Write>): Rows {
    if history == [] then map[] else Rewrite(Replay(history[..|history| - 1]), history[|history| - 1])
  }

  function FirstEnrolled(history: seq<Write>, id: ServerId): Option<Server> {
    if history == [] then None
    else if history[0].Enrol? && history[0].server.id == id then Some(history[0].server)
    else FirstEnrolled(history[1..], id)
  }

  function LastEnrolled(history: seq<Write>, id: ServerId): Option<Server> {
    if history == [] then None
    else
      var last := history[|history| - 1];
      if last.Enrol? && last.server.id == id then Some(last.server) else LastEnrolled(history[..|history| - 1], id)
  }

  /** The health last said of the server, by a registration or a mark. */
  function LastHealth(history: seq<Write>, id: ServerId): Option<bool> {
    if history == [] then None
    else
      match history[|history| - 1]
      case Enrol(server) => if server.id == id then Some(server.healthy) else LastHealth(history[..|history| - 1], id)
      case Mark(at, healthy) => if at == id then Some(healthy) else LastHealth(history[..|history| - 1], id)
  }

  lemma {:induction false} FirstEnrolledAppend(history: seq<Write>, write: Write, id: ServerId)
    ensures FirstEnrolled(history + [write], id) ==
      if FirstEnrolled(history, id).Some? then FirstEnrolled(history, id)
      else if write.Enrol? && write.server.id == id then Some(write.server)
      else None
  {
    if history == [] {
      assert history + [write] == [write] && [write][1..] == [];
    } else {
      assert (history + [write])[1..] == history[1..] + [write] && (history + [write])[0] == history[0];
      FirstEnrolledAppend(history[1..], write, id);
    }
  }

  /**
   After any history of registrations and health marks a server has a row exactly if it was ever
   registered; the row is under its own id, weighs at least one, dates from the first registration,
   has the health last said of it, and is otherwise the last registration.
   */
  lemma {:induction false} RowsFollowHistory(history: seq<Write>, id: ServerId)
    ensures id in Replay(history) <==> LastEnrolled(history, id).Some?
    ensures LastEnrolled(history, id).Some? <==> FirstEnrolled(history, id).Some?
    ensures id in Replay(history) ==>
      var row, last := Replay(history)[id], LastEnrolled(history, id).value;
      && row.id == id && row.weight == Max(1, last.weight) >= 1
      && row.registeredAt == FirstEnrolled(history, id).value.registeredAt
      && Some(row.healthy) == LastHealth(history, id)
      && row == last.(weight := row.weight, registeredAt := row.registeredAt, healthy := row.healthy)
  {
    if history != [] {
      var front, last := history[..|history| - 1], history[|history| - 1];
      assert history == front + [last];
      RowsFollowHistory(front, id);
      FirstEnrolledAppend(front, last, id);
    }
  }
}
