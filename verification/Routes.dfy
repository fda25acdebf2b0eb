/** The route table and the routes a tunnel session owns in it. Operating-system calls may fail. */
module Routes {

  import opened Common

  datatype DomainRoute = DomainRoute(handle: nat, expiresAt: nat, target: RouteTarget)

  /** The parts of a compiled policy that the routes depend on. */
  datatype RoutePolicy = RoutePolicy(tunnelIf: Option<nat>, physicalIf: Option<nat>, bypassCidrs: seq<string>,
                                     dynamicTunnelHosts: seq<string>)

  class RouteTable {
    var routes: map<nat, IpNet>
    var next: nat
    /** The interface and metric the operating system accepted for each handle. */
    ghost var accepted: map<nat, (nat, nat)>
    /** How many calls the operating system has refused so far. */
    ghost var refusals: nat

    ghost predicate Valid()
      reads this
    {
      (forall h | h in routes :: h < next) && routes.Keys <= accepted.Keys
    }

    constructor ()
      ensures Valid() && routes == map[]
    {
      routes, next, accepted, refusals := map[], 1, map[], 0;
    }

    /** A call into the operating system: nothing is known about its outcome. */
    method OsCall() returns (ok: bool)
      modifies this`refusals
      ensures refusals == old(refusals) + if ok then 0 else 1
    {
      ok := *;
      if !ok { refusals := refusals + 1; }
    }

    method AddRoute(net: IpNet, ifIndex: nat, metric: nat) returns (r: Result<nat>)
      requires Valid()
      modifies this
      ensures Valid() && next >= old(next)
      ensures refusals == old(refusals) + if r.Ok? then 0 else 1
      ensures r.Err? ==> routes == old(routes) && accepted == old(accepted)
      ensures r.Ok? ==> old(next) <= r.value && r.value !in old(routes)
      ensures SameAccepted(old(routes), old(accepted), accepted)
      ensures r.Ok? ==> routes == old(routes)[r.value := net] && accepted == old(accepted)[r.value := (ifIndex, metric)]
    {
      var handle := next;
      next := next + 1;
      var ok := OsCall();
      if !ok { return Err("CreateIpForwardEntry2 failed"); }
      routes := routes[handle := net];
      accepted := accepted[handle := (ifIndex, metric)];
      return Ok(handle);
    }

    /** The handle is forgotten even when the operating system refuses the deletion. */
    method RemoveRoute(handle: nat) returns (r: Result<()>)
      requires Valid()
      modifies this`routes, this`refusals
      ensures Valid() && routes == old(routes) - {handle}
      ensures refusals == old(refusals) + if r.Ok? then 0 else 1
      ensures handle !in old(routes) ==> r.Ok?
    {
      if handle in routes {
        routes := routes - {handle};
        var ok := OsCall();
        if !ok { return Err("DeleteIpForwardEntry2 failed"); }
      }
      return Ok(());
    }
  }

  /** The operating system's record of the live handles is as it was. */
  ghost predicate SameAccepted(live: map<nat, IpNet>, before: map<nat, (nat, nat)>, after: map<nat, (nat, nat)>)
  {
    forall h | h in live && h in before :: h in after && after[h] == before[h]
  }

  // ----- Handles on values -----

  ghost predicate Distinct(hs: seq<nat>)
  {
    forall i, j | 0 <= i < j < |hs| :: hs[i] != hs[j]
  }

  function Handles(hs: seq<nat>): set<nat>
  {
    set h | h in hs
  }

  function DomainHandles(m: map<IpAddr, DomainRoute>): set<nat>
  {
    set ip | ip in m :: m[ip].handle
  }

  ghost predicate Injective(m: map<IpAddr, DomainRoute>)
  {
    forall ip, other | ip in m && other in m && ip != other :: m[ip].handle != m[other].handle
  }

  lemma HandlesAppend(hs: seq<nat>, h: nat)
    ensures Handles(hs + [h]) == Handles(hs) + {h}
  {
  }

  /** The handles a session owns: for WireGuard's routes, for split routes, for domain routes. */
  function Own(wg: seq<nat>, split: seq<nat>, dom: map<IpAddr, DomainRoute>): set<nat>
  {
    Handles(wg) + Handles(split) + DomainHandles(dom)
  }

  /** The three kinds never share a handle, every handle is live, and domain routes are host routes, never for Block. */
  ghost predicate Holds(wg: seq<nat>, split: seq<nat>, dom: map<IpAddr, DomainRoute>, routes: map<nat, IpNet>)
  {
    && Own(wg, split, dom) <= routes.Keys
    && Distinct(wg) && Distinct(split) && Injective(dom)
    && Handles(wg) !! Handles(split) !! DomainHandles(dom)
    && forall ip | ip in dom :: routes[dom[ip].handle] == HostNet(ip) && dom[ip].target != Block
  }

  lemma OwnIsLive(wg: seq<nat>, split: seq<nat>, dom: map<IpAddr, DomainRoute>, routes: map<nat, IpNet>)
    requires Holds(wg, split, dom, routes)
    ensures Own(wg, split, dom) <= routes.Keys
  {
  }

  lemma HeldIsLive(wg: seq<nat>, split: seq<nat>, dom: map<IpAddr, DomainRoute>, routes: map<nat, IpNet>)
    requires Holds(wg, split, dom, routes)
    ensures forall ip | ip in dom :: dom[ip].handle in routes
  {
    forall ip | ip in dom ensures dom[ip].handle in routes {
      assert dom[ip].handle in DomainHandles(dom);
    }
  }

  lemma HeldIsNotBlock(wg: seq<nat>, split: seq<nat>, dom: map<IpAddr, DomainRoute>, routes: map<nat, IpNet>,
                       ip: IpAddr)
    requires Holds(wg, split, dom, routes) && ip in dom
    ensures dom[ip].target != Block
  {
  }

  lemma GainWg(wg: seq<nat>, split: seq<nat>, dom: map<IpAddr, DomainRoute>, routes: map<nat, IpNet>, h: nat,
               net: IpNet)
    requires Holds(wg, split, dom, routes) && h !in routes
    ensures Holds(wg + [h], split, dom, routes[h := net])
    ensures routes[h := net] - Own(wg + [h], split, dom) == routes - Own(wg, split, dom)
  {
    HandlesAppend(wg, h);
    OnlyHandles(dom, routes, routes[h := net]);
  }

  lemma GainSplit(wg: seq<nat>, split: seq<nat>, dom: map<IpAddr, DomainRoute>, routes: map<nat, IpNet>, h: nat,
                  net: IpNet)
    requires Holds(wg, split, dom, routes) && h !in routes
    ensures Holds(wg, split + [h], dom, routes[h := net])
    ensures routes[h := net] - Own(wg, split + [h], dom) == routes - Own(wg, split, dom)
  {
    HandlesAppend(split, h);
    OnlyHandles(dom, routes, routes[h := net]);
  }

  /** Host routes stay what they are when only other handles change. */
  lemma OnlyHandles(dom: map<IpAddr, DomainRoute>, routes: map<nat, IpNet>, routes': map<nat, IpNet>)
    requires DomainHandles(dom) <= routes.Keys && DomainHandles(dom) <= routes'.Keys
    requires forall h | h in DomainHandles(dom) :: routes'[h] == routes[h]
    ensures forall ip | ip in dom :: routes'[dom[ip].handle] == routes[dom[ip].handle]
  {
    forall ip | ip in dom ensures routes'[dom[ip].handle] == routes[dom[ip].handle] {
      assert dom[ip].handle in DomainHandles(dom);
    }
  }

  lemma GainDomain(wg: seq<nat>, split: seq<nat>, dom: map<IpAddr, DomainRoute>, routes: map<nat, IpNet>, ip: IpAddr,
                   r: DomainRoute)
    requires Holds(wg, split, dom, routes) && ip !in dom && r.handle !in routes && r.target != Block
    ensures Holds(wg, split, dom[ip := r], routes[r.handle := HostNet(ip)])
    ensures routes[r.handle := HostNet(ip)] - Own(wg, split, dom[ip := r]) == routes - Own(wg, split, dom)
  {
    var dom', routes' := dom[ip := r], routes[r.handle := HostNet(ip)];
    OnlyHandles(dom, routes, routes');
    forall h | h in DomainHandles(dom) + {r.handle} ensures h in DomainHandles(dom') {
      if h == r.handle {
        assert dom'[ip].handle == h;
      } else {
        var other :| other in dom && dom[other].handle == h;
        assert dom'[other].handle == h;
      }
    }
    assert DomainHandles(dom') == DomainHandles(dom) + {r.handle};
  }

  lemma LoseDomain(wg: seq<nat>, split: seq<nat>, dom: map<IpAddr, DomainRoute>, routes: map<nat, IpNet>, ip: IpAddr)
    requires Holds(wg, split, dom, routes) && ip in dom
    ensures Holds(wg, split, dom - {ip}, routes - {dom[ip].handle})
    ensures routes - {dom[ip].handle} - Own(wg, split, dom - {ip}) == routes - Own(wg, split, dom)
  {
    forall h | h in DomainHandles(dom) - {dom[ip].handle} ensures h in DomainHandles(dom - {ip}) {
      var other :| other in dom && dom[other].handle == h;
      assert other in dom - {ip};
    }
    assert DomainHandles(dom - {ip}) == DomainHandles(dom) - {dom[ip].handle};
    OnlyHandles(dom - {ip}, routes, routes - {dom[ip].handle});
  }

  /** Deleting a list of handles up to position `k` leaves exactly the later ones live but unowned. */
  lemma SplitAt(hs: seq<nat>, k: nat)
    requires Distinct(hs) && k <= |hs|
    ensures Handles(hs) == Handles(hs[..k]) + Handles(hs[k..]) && Handles(hs[..k]) !! Handles(hs[k..])
  {
    var gone, tail := hs[..k], hs[k..];
    assert hs == gone + tail;
    forall h | h in gone ensures h !in tail {
      var i :| 0 <= i < k && hs[i] == h;
      assert forall j | k <= j < |hs| :: hs[j] != h;
    }
  }

  lemma LoseSplit(wg: seq<nat>, split: seq<nat>, dom: map<IpAddr, DomainRoute>, routes: map<nat, IpNet>, k: nat)
    requires Holds(wg, split, dom, routes) && k <= |split|
    ensures var left := routes - Handles(split[..k]);
            && Holds(wg, [], dom, left)
            && left - Own(wg, [], dom) == (routes - Own(wg, split, dom)) + Restrict(routes, Handles(split[k..]))
    ensures Handles(split[k..]) <= Handles(split) <= routes.Keys && Handles(split) <= Own(wg, split, dom)
  {
    SplitAt(split, k);
    OnlyHandles(dom, routes, routes - Handles(split[..k]));
  }

  lemma LoseWg(wg: seq<nat>, split: seq<nat>, dom: map<IpAddr, DomainRoute>, routes: map<nat, IpNet>, k: nat)
    requires Holds(wg, split, dom, routes) && k <= |wg|
    ensures var left := routes - Handles(wg[..k]);
            && Holds([], split, dom, left)
            && left - Own([], split, dom) == (routes - Own(wg, split, dom)) + Restrict(routes, Handles(wg[k..]))
    ensures Handles(wg[k..]) <= Handles(wg) <= routes.Keys && Handles(wg) <= Own(wg, split, dom)
  {
    SplitAt(wg, k);
    OnlyHandles(dom, routes, routes - Handles(wg[..k]));
  }

  function Restrict(routes: map<nat, IpNet>, hs: set<nat>): map<nat, IpNet>
  {
    map h | h in routes && h in hs :: routes[h]
  }

  /** Routes only went. */
  ghost predicate Shrinks(before: map<nat, IpNet>, after: map<nat, IpNet>)
  {
    forall h | h in after :: h in before && after[h] == before[h]
  }

  /** `lost` are the handles of `hs` after position `k`. */
  ghost predicate IsTail(lost: set<nat>, hs: seq<nat>, k: nat)
  {
    k < |hs| && lost == Handles(hs[k + 1..])
  }

  /** The refused deletion that ended a call early: none, one of a domain route, or that of a listed handle. */
  datatype Refusal = Nothing | DomainDeletion | SplitDeletion(at: nat) | WgDeletion(at: nat)

  // ----- What a session plans to install -----

  const V4_DEFAULT := IpNet(V4([0, 0, 0, 0]), 0)
  const V6_DEFAULT := IpNet(V6([0, 0, 0, 0, 0, 0, 0, 0, 0, 0, 0, 0, 0, 0, 0, 0]), 0)

  /** A route to install: the network if its text parses, the interface, the metric. */
  type Row = (Option<IpNet>, nat, nat)

  function Rows(cidrs: seq<string>, parse: string -> Option<IpNet>, ifIndex: nat, metric: nat): (rows: seq<Row>)
    ensures |rows| == |cidrs|
  {
    seq(|cidrs|, i requires 0 <= i < |cidrs| => (parse(cidrs[i]), ifIndex, metric))
  }

  /** Both default routes on both interfaces, then the bypass networks, then the tunnel hosts. */
  function Plan(policy: RoutePolicy, parse: string -> Option<IpNet>): seq<Row>
  {
    if policy.tunnelIf.None? || policy.physicalIf.None? then []
    else
      var tunnel, physical := policy.tunnelIf.value, policy.physicalIf.value;
      [(Some(V4_DEFAULT), physical, 1), (Some(V4_DEFAULT), tunnel, 100),
       (Some(V6_DEFAULT), physical, 1), (Some(V6_DEFAULT), tunnel, 100)]
      + Rows(policy.bypassCidrs, parse, physical, 1) + Rows(policy.dynamicTunnelHosts, parse, tunnel, 100)
  }

  predicate RowCovers(row: Row, ip: IpAddr)
  {
    row.0.Some? && Contains(row.0.value, ip)
  }

  /** The row that traffic to an address follows: the longest prefix that contains it, then the smallest metric. */
  ghost predicate IsFollowed(rows: seq<Row>, ip: IpAddr, i: nat)
  {
    && i < |rows| && RowCovers(rows[i], ip)
    && forall j | 0 <= j < |rows| && RowCovers(rows[j], ip) :: Precedes(rows[i], rows[j])
  }

  predicate Precedes(row: Row, other: Row)
    requires row.0.Some? && other.0.Some?
  {
    || other.0.value.prefixLen < row.0.value.prefixLen
    || (other.0.value.prefixLen == row.0.value.prefixLen && row.2 <= other.2)
  }

  lemma {:induction false} SomethingIsFollowed(rows: seq<Row>, ip: IpAddr)
    requires exists i | 0 <= i < |rows| :: RowCovers(rows[i], ip)
    ensures exists i: nat :: IsFollowed(rows, ip, i)
  {
    var init, last := rows[..|rows| - 1], rows[|rows| - 1];
    var c :| 0 <= c < |rows| && RowCovers(rows[c], ip);
    if exists i | 0 <= i < |init| :: RowCovers(init[i], ip) {
      SomethingIsFollowed(init, ip);
      var i: nat :| IsFollowed(init, ip, i);
      assert forall j | 0 <= j < |init| :: rows[j] == init[j];
      assert IsFollowed(rows, ip, if !RowCovers(last, ip) || Precedes(rows[i], last) then i else |rows| - 1);
    } else {
      assert forall j | 0 <= j < |init| :: rows[j] == init[j];
      assert IsFollowed(rows, ip, |rows| - 1);
    }
  }

  /** A tunnel host contains the address more closely than the default routes and every bypass network do. */
  ghost predicate ViaTunnel(policy: RoutePolicy, parse: string -> Option<IpNet>, ip: IpAddr)
  {
    exists h | h in policy.dynamicTunnelHosts && parse(h).Some? && Contains(parse(h).value, ip) ::
      && parse(h).value.prefixLen > 0
      && forall b | b in policy.bypassCidrs && parse(b).Some? && Contains(parse(b).value, ip) ::
           parse(b).value.prefixLen < parse(h).value.prefixLen
  }

  /** Row by row: the defaults, then a row for each bypass network, then one for each tunnel host. */
  lemma PlanRows(policy: RoutePolicy, parse: string -> Option<IpNet>)
    requires policy.tunnelIf.Some? && policy.physicalIf.Some?
    ensures var plan, tunnel, physical := Plan(policy, parse), policy.tunnelIf.value, policy.physicalIf.value;
            var n, k := |policy.bypassCidrs|, |policy.dynamicTunnelHosts|;
            && |plan| == 4 + n + k
            && plan[..4] == [(Some(V4_DEFAULT), physical, 1), (Some(V4_DEFAULT), tunnel, 100),
                             (Some(V6_DEFAULT), physical, 1), (Some(V6_DEFAULT), tunnel, 100)]
            && (forall i | 4 <= i < 4 + n :: plan[i] == (parse(policy.bypassCidrs[i - 4]), physical, 1))
            && forall i | 4 + n <= i < 4 + n + k ::
                 plan[i] == (parse(policy.dynamicTunnelHosts[i - 4 - n]), tunnel, 100)
  {
  }

  /** Each family has both default rows. */
  lemma DefaultRow(policy: RoutePolicy, parse: string -> Option<IpNet>, ip: IpAddr) returns (d: nat)
    requires policy.tunnelIf.Some? && policy.physicalIf.Some?
    ensures var plan := Plan(policy, parse);
            d < |plan| && RowCovers(plan[d], ip) && plan[d].0.value.prefixLen == 0 && plan[d].2 == 1
  {
    d := if ip.V4? then 0 else 2;
  }

  /** The row of a listed network or host. */
  lemma ListedRow(policy: RoutePolicy, parse: string -> Option<IpNet>, c: string) returns (i: nat)
    requires policy.tunnelIf.Some? && policy.physicalIf.Some?
    requires c in policy.bypassCidrs + policy.dynamicTunnelHosts
    ensures var plan := Plan(policy, parse);
            && i < |plan| && plan[i].0 == parse(c)
            && (c in policy.bypassCidrs ==> plan[i].2 == 1)
  {
    PlanRows(policy, parse);
    hide Plan;
    var all := policy.bypassCidrs + policy.dynamicTunnelHosts;
    if c in policy.bypassCidrs {
      var k :| 0 <= k < |policy.bypassCidrs| && policy.bypassCidrs[k] == c;
      i := 4 + k;
    } else {
      var k :| 0 <= k < |policy.dynamicTunnelHosts| && policy.dynamicTunnelHosts[k] == c;
      i := 4 + |policy.bypassCidrs| + k;
    }
  }

  lemma ViaTunnelIsTunnel(policy: RoutePolicy, parse: string -> Option<IpNet>, ip: IpAddr, i: nat)
    requires policy.tunnelIf.Some? && policy.physicalIf.Some? && IsFollowed(Plan(policy, parse), ip, i)
    requires ViaTunnel(policy, parse, ip)
    ensures Plan(policy, parse)[i].1 == policy.tunnelIf.value
  {
    var h :| h in policy.dynamicTunnelHosts && parse(h).Some? && Contains(parse(h).value, ip)
             && parse(h).value.prefixLen > 0
             && forall b | b in policy.bypassCidrs && parse(b).Some? && Contains(parse(b).value, ip) ::
                  parse(b).value.prefixLen < parse(h).value.prefixLen;
    var k := ListedRow(policy, parse, h);
    PlanRows(policy, parse);
    hide Plan, Contains;
    var plan := Plan(policy, parse);
    assert Precedes(plan[i], plan[k]);
    assert forall j | 0 <= j < |policy.bypassCidrs| :: policy.bypassCidrs[j] in policy.bypassCidrs;
    assert i < 4 ==> plan[..4][i] == plan[i];
  }

  lemma OtherwisePhysical(policy: RoutePolicy, parse: string -> Option<IpNet>, ip: IpAddr, i: nat)
    requires policy.tunnelIf.Some? && policy.physicalIf.Some? && IsFollowed(Plan(policy, parse), ip, i)
    requires !ViaTunnel(policy, parse, ip)
    ensures Plan(policy, parse)[i].1 == policy.physicalIf.value
  {
    var d := DefaultRow(policy, parse, ip);
    PlanRows(policy, parse);
    var plan := Plan(policy, parse);
    hide Plan, Contains;
    assert Precedes(plan[i], plan[d]);
    if i < 4 {
      assert plan[..4][i] == plan[i];
    } else if i >= 4 + |policy.bypassCidrs| {
      var h := policy.dynamicTunnelHosts[i - 4 - |policy.bypassCidrs|];
      assert h in policy.dynamicTunnelHosts;
      if parse(h).value.prefixLen > 0 {
        var b :| b in policy.bypassCidrs && parse(b).Some? && Contains(parse(b).value, ip)
                 && parse(b).value.prefixLen >= parse(h).value.prefixLen;
        var k := ListedRow(policy, parse, b);
        assert false;
      }
    }
  }

  /**
    What the planned routes do: every address has a row to follow, on the tunnel
    exactly if some tunnel host contains it more closely than the defaults and
    every bypass network do, and otherwise on the physical interface.
  */
  lemma PlanDivides(policy: RoutePolicy, parse: string -> Option<IpNet>, ip: IpAddr)
    requires policy.tunnelIf.Some? && policy.physicalIf.Some?
    ensures exists i: nat :: IsFollowed(Plan(policy, parse), ip, i)
    ensures forall i: nat | IsFollowed(Plan(policy, parse), ip, i) ::
              Plan(policy, parse)[i].1 == if ViaTunnel(policy, parse, ip) then policy.tunnelIf.value
                                          else policy.physicalIf.value
  {
    hide Plan, ViaTunnel;
    var d := DefaultRow(policy, parse, ip);
    SomethingIsFollowed(Plan(policy, parse), ip);
    forall i: nat | IsFollowed(Plan(policy, parse), ip, i)
      ensures Plan(policy, parse)[i].1 == if ViaTunnel(policy, parse, ip) then policy.tunnelIf.value
                                          else policy.physicalIf.value
    {
      if ViaTunnel(policy, parse, ip) {
        ViaTunnelIsTunnel(policy, parse, ip, i);
      } else {
        OtherwisePhysical(policy, parse, ip, i);
      }
    }
  }

  class SessionRoutes {
    var wgHandles: seq<nat>
    var splitHandles: seq<nat>
    var domainRoutes: map<IpAddr, DomainRoute>
    var wfpFilterIds: seq<nat>

    ghost function Owned(): set<nat>
      reads this
    {
      Own(wgHandles, splitHandles, domainRoutes)
    }

    ghost predicate Valid(table: RouteTable)
      reads this, table
    {
      table.Valid() && Holds(wgHandles, splitHandles, domainRoutes, table.routes)
    }

    /** What the table holds for anyone else. */
    ghost function Foreign(table: RouteTable): map<nat, IpNet>
      reads this, table
    {
      table.routes - Owned()
    }

    constructor ()
      ensures Owned() == {} && domainRoutes == map[] && wfpFilterIds == []
      ensures forall table: RouteTable :: table.Valid() ==> Valid(table)
    {
      wgHandles, splitHandles, domainRoutes, wfpFilterIds := [], [], map[], [];
    }

    /** The session's newest WireGuard route is this one, after all its older ones. */
    ghost predicate PushedWg(table: RouteTable, before: seq<nat>, net: IpNet, ifIndex: nat, metric: nat)
      reads this, table
    {
      && |wgHandles| == |before| + 1 && before <= wgHandles
      && var h := wgHandles[|before|];
         h in table.routes && table.routes[h] == net && h in table.accepted && table.accepted[h] == (ifIndex, metric)
    }

    method PushWg(table: RouteTable, net: IpNet, ifIndex: nat, metric: nat) returns (r: Result<()>)
      requires Valid(table)
      modifies this`wgHandles, table
      ensures table.refusals >= old(table.refusals) && (r.Err? <==> table.refusals > old(table.refusals))
      ensures Valid(table) && Foreign(table) == old(Foreign(table))
      ensures r.Err? ==> wgHandles == old(wgHandles)
      ensures r.Ok? ==> PushedWg(table, old(wgHandles), net, ifIndex, metric)
    {
      var h := table.AddRoute(net, ifIndex, metric);
      if h.Err? { return Err(h.reason); }
      GainWg(wgHandles, splitHandles, domainRoutes, old(table.routes), h.value, net);
      wgHandles := wgHandles + [h.value];
      return Ok(());
    }

    method AddDefaultRoute(table: RouteTable, net: IpNet, ifIndex: nat) returns (r: Result<()>)
      requires Valid(table)
      modifies this`wgHandles, table
      ensures table.refusals >= old(table.refusals) && (r.Err? <==> table.refusals > old(table.refusals))
      ensures Valid(table) && Foreign(table) == old(Foreign(table))
      ensures r.Err? ==> wgHandles == old(wgHandles)
      ensures r.Ok? ==> PushedWg(table, old(wgHandles), net, ifIndex, 100)
    {
      r := PushWg(table, net, ifIndex, 100);
    }

    method AddBypass(table: RouteTable, net: IpNet, ifIndex: nat) returns (r: Result<()>)
      requires Valid(table)
      modifies this`wgHandles, table
      ensures table.refusals >= old(table.refusals) && (r.Err? <==> table.refusals > old(table.refusals))
      ensures Valid(table) && Foreign(table) == old(Foreign(table))
      ensures r.Err? ==> wgHandles == old(wgHandles)
      ensures r.Ok? ==> PushedWg(table, old(wgHandles), net, ifIndex, 5)
    {
      r := PushWg(table, net, ifIndex, 5);
    }

    method AddEndpointBypass(table: RouteTable, endpoint: IpAddr, tunnelIf: nat) returns (r: Result<()>)
      requires Valid(table)
      modifies this`wgHandles, table
      ensures table.refusals >= old(table.refusals) && (r.Err? <==> table.refusals > old(table.refusals))
      ensures Valid(table) && Foreign(table) == old(Foreign(table))
      ensures r.Err? ==> wgHandles == old(wgHandles)
      ensures r.Ok? ==> PushedWg(table, old(wgHandles), HostNet(endpoint), tunnelIf, 0)
    {
      r := PushWg(table, HostNet(endpoint), tunnelIf, 0);
    }

    /** The split handles are the planned rows in order, as far as installation got. */
    ghost predicate FollowsPlan(table: RouteTable, plan: seq<Row>)
      reads this, table
    {
      && |splitHandles| <= |plan|
      && forall i | 0 <= i < |splitHandles| ::
           && splitHandles[i] in table.routes && splitHandles[i] in table.accepted
           && plan[i] == (Some(table.routes[splitHandles[i]]), table.accepted[splitHandles[i]].0,
                table.accepted[splitHandles[i]].1)
    }

    method PushSplit(table: RouteTable, row: Row, ghost plan: seq<Row>) returns (r: Result<()>)
      requires Valid(table) && FollowsPlan(table, plan)
      requires |splitHandles| < |plan| && plan[|splitHandles|] == row
      modifies this`splitHandles, table
      ensures table.refusals >= old(table.refusals)
      ensures r.Err? <==> row.0.None? || table.refusals > old(table.refusals)
      ensures Valid(table) && Foreign(table) == old(Foreign(table)) && FollowsPlan(table, plan)
      ensures |splitHandles| == |old(splitHandles)| + if r.Ok? then 1 else 0
    {
      if row.0.None? { return Err("bad cidr"); }
      var h := table.AddRoute(row.0.value, row.1, row.2);
      if h.Err? { return Err(h.reason); }
      GainSplit(wgHandles, splitHandles, domainRoutes, old(table.routes), h.value, row.0.value);
      splitHandles := splitHandles + [h.value];
      return Ok(());
    }

    /** Installs rows `from..to` of the plan, stopping at the first that fails. */
    method PushRows(table: RouteTable, ghost plan: seq<Row>, rows: seq<Row>, ghost from: nat) returns (r: Result<()>)
      requires Valid(table) && FollowsPlan(table, plan)
      requires |splitHandles| == from && from + |rows| <= |plan| && plan[from..from + |rows|] == rows
      modifies this`splitHandles, table
      ensures table.refusals >= old(table.refusals)
      ensures r.Err? ==> table.refusals > old(table.refusals) || exists i | 0 <= i < |rows| :: rows[i].0.None?
      ensures r.Ok? ==> table.refusals == old(table.refusals) && forall i | 0 <= i < |rows| :: rows[i].0.Some?
      ensures Valid(table) && Foreign(table) == old(Foreign(table)) && FollowsPlan(table, plan)
      ensures r.Ok? ==> |splitHandles| == from + |rows|
    {
      for i := 0 to |rows|
        invariant Valid(table) && Foreign(table) == old(Foreign(table)) && FollowsPlan(table, plan)
        invariant |splitHandles| == from + i && table.refusals == old(table.refusals)
        invariant forall j | 0 <= j < i :: rows[j].0.Some?
      {
        assert plan[from..from + |rows|][i] == plan[from + i];
        var pushed := PushSplit(table, rows[i], plan);
        if pushed.Err? { return pushed; }
      }
      return Ok(());
    }

    /**
      Replaces the session's split routes by the planned ones. Nothing else in
      the table changes; a failed addition or an unparsable network leaves a
      prefix of the plan installed and owned; only a refused deletion of an old
      route loses handles (see `ClearSplit`).
    */
    method InstallSplitRoutes(table: RouteTable, policy: RoutePolicy, parse: string -> Option<IpNet>)
      returns (r: Result<()>, ghost lost: map<nat, IpNet>, ghost refusal: Refusal)
      requires Valid(table)
      modifies this`splitHandles, table
      ensures table.refusals >= old(table.refusals)
      ensures r.Err? <==>
                || table.refusals > old(table.refusals)
                || exists i | 0 <= i < |Plan(policy, parse)| :: Plan(policy, parse)[i].0.None?
      ensures Valid(table) && Foreign(table) == old(Foreign(table)) + lost && lost.Keys <= old(Owned())
      ensures refusal == Nothing ==> lost == map[]
      ensures refusal != Nothing ==>
                && refusal.SplitDeletion? && IsTail(lost.Keys, old(splitHandles), refusal.at)
                && r.Err? && table.refusals > old(table.refusals) && splitHandles == []
      ensures FollowsPlan(table, Plan(policy, parse))
      ensures r.Ok? ==> |splitHandles| == |Plan(policy, parse)|
    {
      hide Holds, Own;
      r, lost, refusal := ClearSplit(table);
      if r.Err? { return; }
      if policy.tunnelIf.None? || policy.physicalIf.None? { return; }
      var tunnel, physical := policy.tunnelIf.value, policy.physicalIf.value;
      ghost var plan := Plan(policy, parse);
      var defaults := [(Some(V4_DEFAULT), physical, 1), (Some(V4_DEFAULT), tunnel, 100),
                       (Some(V6_DEFAULT), physical, 1), (Some(V6_DEFAULT), tunnel, 100)];
      var bypass := Rows(policy.bypassCidrs, parse, physical, 1);
      var hosts := Rows(policy.dynamicTunnelHosts, parse, tunnel, 100);
      assert plan[0..4] == defaults && plan[4..4 + |bypass|] == bypass && plan[4 + |bypass|..] == hosts;
      r := PushRows(table, plan, defaults, 0);
      if r.Err? { return; }
      r := PushRows(table, plan, bypass, 4);
      if r.Err? { return; }
      assert plan[4 + |bypass|..4 + |bypass| + |hosts|] == hosts;
      r := PushRows(table, plan, hosts, 4 + |bypass|);
    }

    method RemoveDomainRoute(table: RouteTable, ip: IpAddr) returns (r: Result<()>)
      requires Valid(table)
      modifies this`domainRoutes, table`routes, table`refusals
      ensures Shrinks(old(table.routes), table.routes)
      ensures table.refusals >= old(table.refusals) && (r.Err? <==> table.refusals > old(table.refusals))
      ensures Valid(table) && Foreign(table) == old(Foreign(table))
      ensures domainRoutes == old(domainRoutes) - {ip}
      ensures r.Ok? || ip in old(domainRoutes)
    {
      hide Holds, Own;
      if ip !in domainRoutes { return Ok(()); }
      var entry := domainRoutes[ip];
      LoseDomain(wgHandles, splitHandles, domainRoutes, table.routes, ip);
      domainRoutes := domainRoutes - {ip};
      r := table.RemoveRoute(entry.handle);
    }

    /** Installs or refreshes the host route of a resolved address; Block targets get none. */
    method InstallDomainRoute(table: RouteTable, ip: IpAddr, target: RouteTarget, tunnelIf: nat, physicalIf: nat,
                              expiresAt: nat) returns (r: Result<()>)
      requires Valid(table)
      modifies this`domainRoutes, table
      ensures table.refusals >= old(table.refusals) && (r.Err? <==> table.refusals > old(table.refusals))
      ensures Valid(table) && Foreign(table) == old(Foreign(table))
      ensures domainRoutes - {ip} == old(domainRoutes) - {ip}
      ensures ip in domainRoutes ==> domainRoutes[ip].target == target && domainRoutes[ip].expiresAt >= expiresAt
      ensures r.Ok? ==> (ip in domainRoutes <==> target != Block)
      ensures r.Err? ==> ip !in domainRoutes
      ensures ip in domainRoutes && (ip !in old(domainRoutes) || domainRoutes[ip] != old(domainRoutes)[ip]) ==>
                && domainRoutes[ip].expiresAt == expiresAt && domainRoutes[ip].handle in table.accepted
                && table.accepted[domainRoutes[ip].handle] == if target == Bypass then (physicalIf, 1)
                     else (tunnelIf, 100)
      ensures SameAccepted(old(table.routes), old(table.accepted), table.accepted)
    {
      hide Holds, Own;
      if ip in domainRoutes {
        var existing := domainRoutes[ip];
        HeldIsNotBlock(wgHandles, splitHandles, domainRoutes, table.routes, ip);
        if existing.expiresAt >= expiresAt && existing.target == target { return Ok(()); }
        r := RemoveDomainRoute(table, ip);
        if r.Err? { return; }
      }
      if target == Block { return Ok(()); }
      var ifIndex := if target == Bypass then physicalIf else tunnelIf;
      var metric := if target == Tunnel then 100 else 1;
      ghost var before := table.routes;
      var h := table.AddRoute(HostNet(ip), ifIndex, metric);
      if h.Err? { return Err(h.reason); }
      GainDomain(wgHandles, splitHandles, domainRoutes, before, ip, DomainRoute(h.value, expiresAt, target));
      domainRoutes := domainRoutes[ip := DomainRoute(h.value, expiresAt, target)];
      return Ok(());
    }

    /** Removes the routes of some addresses in any order, stopping at the first refused deletion. */
    method RemoveDomainRoutes(table: RouteTable, ips: set<IpAddr>) returns (r: Result<()>, ghost gone: set<IpAddr>)
      requires Valid(table) && ips <= domainRoutes.Keys
      modifies this`domainRoutes, table`routes, table`refusals
      ensures Shrinks(old(table.routes), table.routes)
      ensures table.refusals >= old(table.refusals) && (r.Err? <==> table.refusals > old(table.refusals))
      ensures Valid(table) && Foreign(table) == old(Foreign(table))
      ensures gone <= ips && domainRoutes == old(domainRoutes) - gone && (r.Ok? ==> gone == ips)
    {
      hide Holds, Own;
      var rest := ips;
      while rest != {}
        invariant rest <= ips && Valid(table) && Foreign(table) == old(Foreign(table)) &&
            table.refusals == old(table.refusals)
        invariant domainRoutes == old(domainRoutes) - (ips - rest) && Shrinks(old(table.routes), table.routes)
        decreases rest
      {
        var ip :| ip in rest;
        r := RemoveDomainRoute(table, ip);
        assert ips - (rest - {ip}) == (ips - rest) + {ip};
        rest := rest - {ip};
        if r.Err? { return r, ips - rest; }
      }
      return Ok(()), ips;
    }

    method PurgeExpiredDomainRoutes(table: RouteTable, now: nat) returns (r: Result<set<IpAddr>>)
      requires Valid(table)
      modifies this`domainRoutes, table`routes, table`refusals
      ensures Shrinks(old(table.routes), table.routes)
      ensures table.refusals >= old(table.refusals) && (r.Err? <==> table.refusals > old(table.refusals))
      ensures Valid(table) && Foreign(table) == old(Foreign(table))
      ensures forall ip | ip in domainRoutes :: ip in old(domainRoutes) && domainRoutes[ip] == old(domainRoutes)[ip]
      ensures forall ip | ip in old(domainRoutes) && old(domainRoutes)[ip].expiresAt > now :: ip in domainRoutes
      ensures r.Ok? ==> r.value == old(domainRoutes).Keys - domainRoutes.Keys
      ensures r.Ok? ==> forall ip | ip in domainRoutes :: domainRoutes[ip].expiresAt > now
    {
      var expired := set ip | ip in domainRoutes && domainRoutes[ip].expiresAt <= now;
      var removed, _ := RemoveDomainRoutes(table, expired);
      if removed.Err? { return Err(removed.reason); }
      return Ok(expired);
    }

    method ClearDomainRoutes(table: RouteTable) returns (r: Result<()>)
      requires Valid(table)
      modifies this`domainRoutes, table`routes, table`refusals
      ensures Shrinks(old(table.routes), table.routes)
      ensures table.refusals >= old(table.refusals) && (r.Err? <==> table.refusals > old(table.refusals))
      ensures Valid(table) && Foreign(table) == old(Foreign(table))
      ensures forall ip | ip in domainRoutes :: ip in old(domainRoutes) && domainRoutes[ip] == old(domainRoutes)[ip]
      ensures r.Ok? ==> domainRoutes == map[]
    {
      ghost var gone;
      r, gone := RemoveDomainRoutes(table, domainRoutes.Keys);
    }

    /**
      Deletes the split routes. The list is emptied whatever happens: when a
      deletion is refused, exactly the handles after it stay live but unowned.
    */
    method ClearSplit(table: RouteTable) returns (r: Result<()>, ghost lost: map<nat, IpNet>, ghost refusal: Refusal)
      requires Valid(table)
      modifies this`splitHandles, table`routes, table`refusals
      ensures table.refusals >= old(table.refusals) && (r.Err? <==> table.refusals > old(table.refusals))
      ensures Valid(table) && splitHandles == [] && Foreign(table) == old(Foreign(table)) + lost
      ensures r.Ok? ==> refusal == Nothing && lost == map[]
      ensures r.Err? ==> refusal.SplitDeletion? && IsTail(lost.Keys, old(splitHandles), refusal.at)
      ensures Shrinks(old(table.routes), table.routes) && lost.Keys <= old(Owned())
    {
      hide Holds, Own;
      var hs := splitHandles;
      ghost var before := table.routes;
      var refused := DeleteAll(table, hs);
      ghost var k := if refused.Some? then refused.value + 1 else |hs|;
      assert hs[..|hs|] == hs;
      LoseSplit(wgHandles, splitHandles, domainRoutes, before, k);
      splitHandles := [];
      lost := Restrict(before, Handles(hs[k..]));
      if refused.Some? {
        return Err("DeleteIpForwardEntry2 failed"), lost, SplitDeletion(refused.value);
      }
      assert lost == map[];
      return Ok(()), lost, Nothing;
    }

    /** Deletes handles in order up to and including the first refused one, whose position is returned. */
    static method DeleteAll(table: RouteTable, hs: seq<nat>) returns (refused: Option<nat>)
      requires table.Valid()
      modifies table`routes, table`refusals
      ensures table.refusals >= old(table.refusals) && (refused.Some? <==> table.refusals > old(table.refusals))
      ensures table.Valid()
      ensures refused.Some? ==> refused.value < |hs|
      ensures table.routes == old(table.routes) - Handles(if refused.Some? then hs[..refused.value + 1] else hs)
    {
      for i := 0 to |hs|
        invariant table.Valid() && table.routes == old(table.routes) - Handles(hs[..i]) &&
            table.refusals == old(table.refusals)
      {
        var r := table.RemoveRoute(hs[i]);
        TakeStep(hs, i + 1);
        HandlesAppend(hs[..i], hs[i]);
        if r.Err? { return Some(i); }
      }
      assert hs[..|hs|] == hs;
      return None;
    }

    /** The last loop of `Clear`, over WireGuard's handles, likewise. */
    method ClearWg(table: RouteTable) returns (r: Result<()>, ghost lost: map<nat, IpNet>, ghost refusal: Refusal)
      requires Valid(table)
      modifies this`wgHandles, table`routes, table`refusals
      ensures table.refusals >= old(table.refusals) && (r.Err? <==> table.refusals > old(table.refusals))
      ensures Valid(table) && wgHandles == [] && Foreign(table) == old(Foreign(table)) + lost
      ensures r.Ok? ==> refusal == Nothing && lost == map[]
      ensures r.Err? ==> refusal.WgDeletion? && IsTail(lost.Keys, old(wgHandles), refusal.at)
      ensures Shrinks(old(table.routes), table.routes) && lost.Keys <= old(Owned())
    {
      hide Holds, Own;
      var hs := wgHandles;
      ghost var before := table.routes;
      var refused := DeleteAll(table, hs);
      ghost var k := if refused.Some? then refused.value + 1 else |hs|;
      assert hs[..|hs|] == hs;
      LoseWg(wgHandles, splitHandles, domainRoutes, before, k);
      wgHandles := [];
      lost := Restrict(before, Handles(hs[k..]));
      if refused.Some? {
        return Err("DeleteIpForwardEntry2 failed"), lost, WgDeletion(refused.value);
      }
      assert lost == map[];
      return Ok(()), lost, Nothing;
    }

    /**
      Ends the session's routes. If no deletion is refused, exactly its own
      handles leave the table. A refused deletion ends the call: of a domain
      route, with everything else still owned; of a split or WireGuard route,
      with exactly the later handles of its list live but unowned.
    */
    method Clear(table: RouteTable) returns (r: Result<()>, ghost lost: map<nat, IpNet>, ghost refusal: Refusal)
      requires Valid(table)
      modifies this, table`routes, table`refusals
      ensures table.refusals >= old(table.refusals) && (r.Err? <==> table.refusals > old(table.refusals))
      ensures Valid(table) && Foreign(table) == old(Foreign(table)) + lost
      ensures Shrinks(old(table.routes), table.routes) && lost.Keys <= old(Owned())
      ensures r.Ok? <==> refusal == Nothing
      ensures r.Ok? ==> && lost == map[] && Owned() == {} && wfpFilterIds == []
                        && table.routes == old(table.routes) - old(Owned())
      ensures r.Err? ==> wfpFilterIds == old(wfpFilterIds)
      ensures refusal.DomainDeletion? ==>
                && lost == map[] && wgHandles == old(wgHandles) && splitHandles == old(splitHandles)
                && forall ip | ip in domainRoutes :: ip in old(domainRoutes) &&
                     domainRoutes[ip] == old(domainRoutes)[ip]
      ensures refusal.SplitDeletion? ==>
                && IsTail(lost.Keys, old(splitHandles), refusal.at)
                && domainRoutes == map[] && splitHandles == [] && wgHandles == old(wgHandles)
      ensures refusal.WgDeletion? ==>
                && IsTail(lost.Keys, old(wgHandles), refusal.at)
                && domainRoutes == map[] && splitHandles == [] && wgHandles == []
    {
      hide Holds, Own, IsTail;
      lost, refusal := map[], Nothing;
      r := ClearDomainRoutes(table);
      if r.Err? { return r, lost, DomainDeletion; }
      r, lost, refusal := ClearSplit(table);
      if r.Err? { return; }
      r, lost, refusal := ClearWg(table);
      if r.Err? { return; }
      wfpFilterIds := [];
      NothingOwned(table.routes);
    }
  }

  // ----- Several sessions on one table -----

  /** Every live handle belongs to exactly one session. */
  ghost predicate Partition(live: set<nat>, owned: seq<set<nat>>)
  {
    && (forall i | 0 <= i < |owned| :: owned[i] <= live)
    && (forall i, j | 0 <= i < j < |owned| :: owned[i] !! owned[j])
    && forall h | h in live :: exists i | 0 <= i < |owned| :: h in owned[i]
  }

  lemma PartsAreDisjoint(live: set<nat>, owned: seq<set<nat>>, i: nat, j: nat)
    requires Partition(live, owned) && i < |owned| && j < |owned| && i != j
    ensures owned[i] !! owned[j]
  {
    var first, second := if i < j then i else j, if i < j then j else i;
    assert owned[first] !! owned[second];
  }

  /**
    One session changed its own handles and left some of them unowned; the last
    set collects those of every session.
  */
  lemma StepKeepsPartition(live: set<nat>, owned: seq<set<nat>>, i: nat, live': set<nat>, own': set<nat>,
                           lost: set<nat>)
    requires i < |owned| - 1 && Partition(live, owned)
    requires own' <= live' && live' - own' == (live - owned[i]) + lost && lost <= owned[i]
    ensures Partition(live', owned[i := own'][|owned| - 1 := owned[|owned| - 1] + lost])
  {
    var last := |owned| - 1;
    var owned' := owned[i := own'][last := owned[last] + lost];
    forall j | 0 <= j < |owned| && j != i ensures owned'[j] <= live' - own' {
      assert owned[j] <= live - owned[i];
    }
    forall h | h in live' ensures exists j | 0 <= j < |owned'| :: h in owned'[j] {
      if h in own' {
        assert h in owned'[i];
      } else if h in lost {
        assert h in owned'[last];
      } else {
        var j :| 0 <= j < |owned| && h in owned[j];
        assert h in owned'[j];
      }
    }
    forall j, k | 0 <= j < k < |owned'| ensures owned'[j] !! owned'[k] {
      PartsAreDisjoint(live, owned, j, k);
      if j != i { PartsAreDisjoint(live, owned, i, j); }
    }
  }

  /** What another session may do to the table without disturbing this one. */
  lemma OthersKeepHolds(wg: seq<nat>, split: seq<nat>, dom: map<IpAddr, DomainRoute>, routes: map<nat, IpNet>,
                        other: set<nat>, routes': map<nat, IpNet>, other': set<nat>, lost: map<nat, IpNet>)
    requires Holds(wg, split, dom, routes) && Own(wg, split, dom) !! other
    requires routes' - other' == (routes - other) + lost && lost.Keys <= other
    ensures Holds(wg, split, dom, routes') && Own(wg, split, dom) !! other'
  {
    forall h | h in Own(wg, split, dom) ensures h in routes' && h !in other' && routes'[h] == routes[h] {
      assert h in routes - other && h !in lost.Keys;
      assert h in (routes - other) + lost;
      assert h in routes' - other' && (routes' - other')[h] == ((routes - other) + lost)[h];
    }
    OnlyHandles(dom, routes, routes');
  }

  /** What a session can be asked to do. */
  datatype Action =
    | AddDefault(net: IpNet, ifIndex: nat)
    | AddBypassNet(net: IpNet, ifIndex: nat)
    | AddEndpoint(endpoint: IpAddr, tunnelIf: nat)
    | InstallSplit(policy: RoutePolicy)
    | InstallDomain(ip: IpAddr, target: RouteTarget, tunnelIf: nat, physicalIf: nat, expiresAt: nat)
    | RemoveDomain(ip: IpAddr)
    | PurgeDomains(now: nat)
    | ClearDomains
    | ClearSplits
    | ClearAll

  /** One action of one session: what it leaves unowned is the tail after a refused split or WireGuard deletion. */
  method Act(session: SessionRoutes, table: RouteTable, action: Action, parse: string -> Option<IpNet>)
    returns (ghost lost: map<nat, IpNet>, ghost refusal: Refusal)
    requires session.Valid(table)
    modifies session, table
    ensures session.Valid(table) && session.Foreign(table) == old(session.Foreign(table)) + lost
    ensures lost.Keys <= old(session.Owned())
    ensures refusal == Nothing || refusal == DomainDeletion ==> lost == map[]
    ensures refusal.SplitDeletion? ==> IsTail(lost.Keys, old(session.splitHandles), refusal.at)
    ensures refusal.WgDeletion? ==> IsTail(lost.Keys, old(session.wgHandles), refusal.at)
    ensures table.refusals >= old(table.refusals) && (refusal != Nothing ==> table.refusals > old(table.refusals))
  {
    hide Holds, Own, IsTail;
    lost, refusal := map[], Nothing;
    match action
    case AddDefault(net, ifIndex) => var _ := session.AddDefaultRoute(table, net, ifIndex);
    case AddBypassNet(net, ifIndex) => var _ := session.AddBypass(table, net, ifIndex);
    case AddEndpoint(endpoint, tunnelIf) => var _ := session.AddEndpointBypass(table, endpoint, tunnelIf);
    case InstallSplit(policy) =>
      var _, lost', refusal' := session.InstallSplitRoutes(table, policy, parse);
      lost, refusal := lost', refusal';
    case InstallDomain(ip, target, tunnelIf, physicalIf, expiresAt) =>
      var _ := session.InstallDomainRoute(table, ip, target, tunnelIf, physicalIf, expiresAt);
    case RemoveDomain(ip) =>
      var r := session.RemoveDomainRoute(table, ip);
      refusal := if r.Err? then DomainDeletion else Nothing;
    case PurgeDomains(now) =>
      var r := session.PurgeExpiredDomainRoutes(table, now);
      refusal := if r.Err? then DomainDeletion else Nothing;
    case ClearDomains =>
      var r := session.ClearDomainRoutes(table);
      refusal := if r.Err? then DomainDeletion else Nothing;
    case ClearSplits =>
      var _, lost', refusal' := session.ClearSplit(table);
      lost, refusal := lost', refusal';
    case ClearAll =>
      var _, lost', refusal' := session.Clear(table);
      lost, refusal := lost', refusal';
  }

  /** The handles of each session. */
  ghost function OwnedBy(sessions: seq<SessionRoutes>): (owned: seq<set<nat>>)
    reads sessions
    ensures |owned| == |sessions|
  {
    seq(|sessions|, i requires 0 <= i < |sessions| reads sessions => sessions[i].Owned())
  }

  ghost predicate AllValid(sessions: seq<SessionRoutes>, table: RouteTable)
    reads sessions, table
  {
    forall i | 0 <= i < |sessions| :: sessions[i].Valid(table)
  }

  /**
    Several sessions on one table, acting in any order, with any call refused and
    any network unparsable: every session stays valid, no two share a handle, and
    every live handle is owned by a session or lost. Nothing is lost as long as
    no split or WireGuard deletion is refused: then the sessions partition the
    table.
  */
  method RunSessions(sessions: seq<SessionRoutes>, table: RouteTable, turns: seq<(nat, Action)>,
                     parse: string -> Option<IpNet>)
    returns (ghost lost: set<nat>, ghost refusals: seq<Refusal>)
    requires forall i, j | 0 <= i < j < |sessions| :: sessions[i] != sessions[j]
    requires AllValid(sessions, table) && Partition(table.routes.Keys, OwnedBy(sessions))
    requires forall t | t in turns :: t.0 < |sessions|
    modifies sessions, table
    ensures AllValid(sessions, table) && Partition(table.routes.Keys, OwnedBy(sessions) + [lost])
    ensures |refusals| == |turns|
    ensures (forall r | r in refusals :: r == Nothing || r == DomainDeletion) ==>
              lost == {} && Partition(table.routes.Keys, OwnedBy(sessions))
    ensures table.refusals == old(table.refusals) ==> forall r | r in refusals :: r == Nothing
  {
    lost, refusals := {}, [];
    NobodyOwnsNothing(table.routes.Keys, OwnedBy(sessions));
    for k := 0 to |turns|
      invariant AllValid(sessions, table) && Partition(table.routes.Keys, OwnedBy(sessions) + [lost])
      invariant |refusals| == k && table.refusals >= old(table.refusals)
      invariant (forall r | r in refusals :: r == Nothing || r == DomainDeletion) ==> lost == {}
      invariant table.refusals == old(table.refusals) ==> forall r | r in refusals :: r == Nothing
    {
      hide Holds, Own, IsTail, Partition;
      assert turns[k] in turns;
      var more, refusal := TakeTurn(sessions, table, turns[k].0, turns[k].1, parse, lost);
      lost := lost + more;
      ghost var sofar := refusals;
      refusals := sofar + [refusal];
      assert refusal in refusals && forall r | r in sofar :: r in refusals;
    }
    NobodyOwnsNothing(table.routes.Keys, OwnedBy(sessions));
  }

  lemma NobodyOwnsNothing(live: set<nat>, owned: seq<set<nat>>)
    ensures Partition(live, owned + [{}]) <==> Partition(live, owned)
  {
    var all := owned + [{}];
    assert forall i | 0 <= i < |owned| :: all[i] == owned[i];
  }

  /** One turn of a run: the acting session's effect, seen by all of them. */
  method TakeTurn(sessions: seq<SessionRoutes>, table: RouteTable, i: nat, action: Action,
                  parse: string -> Option<IpNet>, ghost lost: set<nat>)
    returns (ghost more: set<nat>, ghost refusal: Refusal)
    requires i < |sessions| && forall j, k | 0 <= j < k < |sessions| :: sessions[j] != sessions[k]
    requires AllValid(sessions, table) && Partition(table.routes.Keys, OwnedBy(sessions) + [lost])
    modifies sessions, table
    ensures AllValid(sessions, table) && Partition(table.routes.Keys, OwnedBy(sessions) + [lost + more])
    ensures refusal == Nothing || refusal == DomainDeletion ==> more == {}
    ensures table.refusals >= old(table.refusals) && (refusal != Nothing ==> table.refusals > old(table.refusals))
  {
    hide Own, Holds, Partition, IsTail;
    var session := sessions[i];
    ghost var owned, before := OwnedBy(sessions), table.routes;
    ghost var gone;
    gone, refusal := Act(session, table, action, parse);
    more := gone.Keys;
    forall j | 0 <= j < |sessions| && j != i ensures sessions[j].Valid(table) && sessions[j].Owned() == owned[j] {
      var s := sessions[j];
      PartsAreDisjoint(before.Keys, owned + [lost], i, j);
      assert (owned + [lost])[j] == owned[j] && (owned + [lost])[i] == owned[i];
      OthersKeepHolds(s.wgHandles, s.splitHandles, s.domainRoutes, before, owned[i], table.routes, session.Owned(),
          gone);
    }
    OwnIsLive(session.wgHandles, session.splitHandles, session.domainRoutes, table.routes);
    assert (table.routes - session.Owned()).Keys == table.routes.Keys - session.Owned();
    assert (before - owned[i]).Keys == before.Keys - owned[i];
    assert OwnedBy(sessions) == owned[i := session.Owned()];
    StepKeepsPartition(before.Keys, owned + [lost], i, table.routes.Keys, session.Owned(), more);
    assert (owned + [lost])[i := session.Owned()][|sessions| := lost + more] == OwnedBy(sessions) + [lost + more];
  }

  lemma NothingOwned(routes: map<nat, IpNet>)
    ensures Own([], [], map[]) == {} && routes - Own([], [], map[]) == routes
  {
  }
}
