/**
  The routing decision, and the policy compiled from the same configuration for the
  packet filter and the route table.
*/
module Policy {

  import opened Common
  import opened Priority
  import opened AppRules
  import opened Networks
  import opened DomainNames
  import opened DomainStoreSpec
  import opened DomainStore
  import DC = DomainCache

  /** Reading and writing networks as text; the two are assumed to be inverse (`IsFaithful`). */
  datatype CidrSyntax = CidrSyntax(parse: string -> Option<IpNet>, print_: IpNet -> string)

  ghost predicate IsFaithful(syn: CidrSyntax)
  {
    forall net :: syn.parse(syn.print_(net)) == Some(net)
  }

  datatype IpRule = IpRule(priority: nat, cidr: string, target: RouteTarget)

  datatype IpRuleEntry = IpRuleEntry(priority: nat, net: IpNet, target: RouteTarget)

  datatype AppConfig = AppConfig(mode: RoutingMode, ipRules: seq<IpRule>, appRules: seq<AppRule>,
                                 domainRules: seq<Rule>)

  // ----- The IP rule table -----

  const BY_IP_PRIORITY := (e: IpRuleEntry) => e.priority

  predicate AllParse(rules: seq<IpRule>, syn: CidrSyntax)
  {
    forall i | 0 <= i < |rules| :: syn.parse(rules[i].cidr).Some?
  }

  /** The rules with their networks, in configuration order. */
  function EntriesOf(rules: seq<IpRule>, syn: CidrSyntax): (es: seq<IpRuleEntry>)
    requires AllParse(rules, syn)
    ensures |es| == |rules|
  {
    seq(|rules|, i requires 0 <= i < |rules| =>
      IpRuleEntry(rules[i].priority, syn.parse(rules[i].cidr).value, rules[i].target))
  }

  method TableFromRules(rules: seq<IpRule>, syn: CidrSyntax) returns (r: Result<seq<IpRuleEntry>>)
    ensures r.Ok? <==> AllParse(rules, syn)
    ensures r.Ok? ==> r.value == StableSort(EntriesOf(rules, syn), BY_IP_PRIORITY)
  {
    var entries := [];
    for i := 0 to |rules|
      invariant AllParse(rules[..i], syn) && entries == EntriesOf(rules[..i], syn)
    {
      var net := syn.parse(rules[i].cidr);
      if net.None? { return Err("invalid cidr"); }
      assert rules[..i + 1] == rules[..i] + [rules[i]];
      entries := entries + [IpRuleEntry(rules[i].priority, net.value, rules[i].target)];
    }
    assert rules[..|rules|] == rules;
    return Ok(StableSort(entries, BY_IP_PRIORITY));
  }

  function HoldsIp(ip: IpAddr): IpRuleEntry -> bool
  {
    (e: IpRuleEntry) => Contains(e.net, ip)
  }

  function LookupRule(table: seq<IpRuleEntry>, ip: IpAddr): Option<IpRuleEntry>
  {
    FirstMatch(table, HoldsIp(ip))
  }

  /** The rule used for an address is the one of least priority that contains it, earliest in the configuration. */
  lemma RuleUsedIsLeast(rules: seq<IpRule>, syn: CidrSyntax, ip: IpAddr)
    requires AllParse(rules, syn)
    ensures IsLeast(EntriesOf(rules, syn), BY_IP_PRIORITY, HoldsIp(ip),
                    LookupRule(StableSort(EntriesOf(rules, syn), BY_IP_PRIORITY), ip))
  {
    SortedSearchIsLeast(EntriesOf(rules, syn), BY_IP_PRIORITY, HoldsIp(ip));
  }

  /** `all_bypass_cidrs` and `all_block_cidrs`. */
  function NetsFor(table: seq<IpRuleEntry>, target: RouteTarget): seq<IpNet>
  {
    if table == [] then []
    else (if table[0].target == target then [table[0].net] else []) + NetsFor(table[1..], target)
  }

  lemma {:induction false} NetsForMembers(table: seq<IpRuleEntry>, target: RouteTarget)
    ensures forall net :: net in NetsFor(table, target) <==> exists e | e in table :: e.target == target && e.net == net
  {
    if table != [] {
      NetsForMembers(table[1..], target);
      assert table == [table[0]] + table[1..];
    }
  }

  // ----- Decisions -----

  datatype Flow = Flow(appPath: Option<string>, remoteIp: IpAddr, domain: Option<string>)

  datatype Reason =
    | IpBlock(priority: nat) | ResolvedBlock | DomainBlock(pattern: string)
    | AppExclude(priority: nat) | AppInclude(priority: nat) | AppDefault
    | IpRuleReason(priority: nat) | DomainRuleReason(pattern: string) | ResolvedIp
    | DefaultTunnel | DefaultBypass

  datatype RouteDecision = RouteDecision(target: RouteTarget, reason: Reason)

  datatype Snapshot = Snapshot(mode: RoutingMode, apps: AppRuleSet, table: seq<IpRuleEntry>, domainRules: seq<Rule>,
                               cache: DC.CacheState)

  function DomainRuleFor(s: Snapshot, flow: Flow): Option<Rule>
  {
    if flow.domain.None? then None else MinByKey(s.domainRules, DomainNames.BY_PRIORITY, Covers(flow.domain.value))
  }

  function AppRuleFor(s: Snapshot, flow: Flow): Option<(RuleMode, nat)>
  {
    if flow.appPath.None? then None
    else
      var hit := FirstMatch(if s.mode.FullTunnel? then s.apps.excludes else s.apps.includes,
                            AppliesTo(NormalizePath(flow.appPath.value)));
      if hit.None? then None else Some((Consulted(s.mode), hit.value.priority))
  }

  /** Blocks first, then application rules, IP rules, domain rules, resolved addresses, and the mode's default. */
  function Decision(s: Snapshot, flow: Flow, now: nat): RouteDecision
  {
    var rule, resolved := LookupRule(s.table, flow.remoteIp), DC.Lookup(s.cache, flow.remoteIp, now);
    var domain, app := DomainRuleFor(s, flow), AppRuleFor(s, flow);
    if rule.Some? && rule.value.target == Block then RouteDecision(Block, IpBlock(rule.value.priority))
    else if resolved == Some(Block) then RouteDecision(Block, ResolvedBlock)
    else if domain.Some? && domain.value.target == Block then RouteDecision(Block, DomainBlock(domain.value.pattern))
    else if app.Some? then
      match (s.mode, app.value.0)
      case (FullTunnel, Exclude) => RouteDecision(Bypass, AppExclude(app.value.1))
      case (SplitInclude, Include) => RouteDecision(Tunnel, AppInclude(app.value.1))
      case _ => RouteDecision(Tunnel, AppDefault)
    else if rule.Some? then RouteDecision(rule.value.target, IpRuleReason(rule.value.priority))
    else if domain.Some? then RouteDecision(domain.value.target, DomainRuleReason(domain.value.pattern))
    else if resolved.Some? then RouteDecision(resolved.value, ResolvedIp)
    else if s.mode.FullTunnel? then RouteDecision(Tunnel, DefaultTunnel)
    else RouteDecision(Bypass, DefaultBypass)
  }

  /**
    A flow is blocked exactly when an IP rule, a resolved address or a domain rule
    says so; application rules never unblock it.
  */
  lemma BlockedIff(s: Snapshot, flow: Flow, now: nat)
    ensures Decision(s, flow, now).target == Block <==>
            || (LookupRule(s.table, flow.remoteIp).Some? && LookupRule(s.table, flow.remoteIp).value.target == Block)
            || DC.Lookup(s.cache, flow.remoteIp, now) == Some(Block)
            || (DomainRuleFor(s, flow).Some? && DomainRuleFor(s, flow).value.target == Block)
  {
    hide LookupRule, DomainRuleFor, AppRuleFor;
  }

  // ----- What is decided, in terms of the configuration -----

  const BY_RULE := (r: IpRule) => r.priority

  function RuleHolds(syn: CidrSyntax, ip: IpAddr): IpRule -> bool
  {
    (r: IpRule) => syn.parse(r.cidr).Some? && Contains(syn.parse(r.cidr).value, ip)
  }

  /** Choosing among the table's entries is choosing among the configured rules. */
  lemma {:induction false} EntriesMin(rules: seq<IpRule>, syn: CidrSyntax, ip: IpAddr)
    requires AllParse(rules, syn)
    ensures var best := MinByKey(rules, BY_RULE, RuleHolds(syn, ip));
            && (best.Some? ==> syn.parse(best.value.cidr).Some?)
            && MinByKey(EntriesOf(rules, syn), BY_IP_PRIORITY, HoldsIp(ip))
               == if best.None? then None
                  else Some(IpRuleEntry(best.value.priority, syn.parse(best.value.cidr).value, best.value.target))
  {
    if rules != [] {
      hide Contains;
      var k := |rules| - 1;
      EntriesMin(rules[..k], syn, ip);
      assert EntriesOf(rules, syn)[..k] == EntriesOf(rules[..k], syn);
    }
  }

  /** The rules, mode and table of a snapshot are those of a configuration. */
  ghost predicate FromConfig(s: Snapshot, cfg: AppConfig, syn: CidrSyntax)
  {
    && AllParse(cfg.ipRules, syn) && s.table == StableSort(EntriesOf(cfg.ipRules, syn), BY_IP_PRIORITY)
    && s.mode == cfg.mode && s.domainRules == StableSort(cfg.domainRules, DomainNames.BY_PRIORITY)
    && s.apps.excludes == StableSort(OfMode(cfg.appRules, Exclude), AppRules.BY_PRIORITY)
    && s.apps.includes == StableSort(OfMode(cfg.appRules, Include), AppRules.BY_PRIORITY)
  }

  /** The configured rules that apply to a flow, each of least priority, earliest among equals; none if none applies. */
  ghost predicate RulesApply(cfg: AppConfig, syn: CidrSyntax, flow: Flow, app: Option<AppRule>, rule: Option<IpRule>,
                             domain: Option<Rule>)
  {
    && IsLeast(cfg.ipRules, BY_RULE, RuleHolds(syn, flow.remoteIp), rule)
    && (if flow.appPath.None? then app.None?
        else IsLeast(cfg.appRules, BY_RULE_PRIORITY, Considered(cfg.mode, flow.appPath.value), app))
    && (if flow.domain.None? then domain.None?
        else IsLeast(cfg.domainRules, DomainNames.BY_PRIORITY, Covers(flow.domain.value), domain))
  }

  /**
    The decision that the rules applying to a flow and the target of its address
    call for. A block wins over everything: of the IP rule, of the address, of the
    domain rule. Otherwise an application goes around the tunnel if excluded from
    it and into it if included; then the IP rule decides, the domain rule, the
    address, and last the mode.
  */
  ghost predicate Decides(mode: RoutingMode, app: Option<AppRule>, rule: Option<IpRule>, domain: Option<Rule>,
                          resolved: Option<RouteTarget>, d: RouteDecision)
  {
    var ruleBlocks := rule.Some? && rule.value.target == Block;
    var domainBlocks := domain.Some? && domain.value.target == Block;
    var open := !ruleBlocks && resolved != Some(Block) && !domainBlocks;
    && (ruleBlocks ==> d == RouteDecision(Block, IpBlock(rule.value.priority)))
    && (!ruleBlocks && resolved == Some(Block) ==> d == RouteDecision(Block, ResolvedBlock))
    && (!ruleBlocks && resolved != Some(Block) && domainBlocks ==>
          d == RouteDecision(Block, DomainBlock(domain.value.pattern)))
    && (open && app.Some? && mode == FullTunnel ==> d == RouteDecision(Bypass, AppExclude(app.value.priority)))
    && (open && app.Some? && mode == SplitInclude ==> d == RouteDecision(Tunnel, AppInclude(app.value.priority)))
    && (open && app.None? && rule.Some? ==> d == RouteDecision(rule.value.target, IpRuleReason(rule.value.priority)))
    && (open && app.None? && rule.None? && domain.Some? ==>
          d == RouteDecision(domain.value.target, DomainRuleReason(domain.value.pattern)))
    && (open && app.None? && rule.None? && domain.None? && resolved.Some? ==>
          d == RouteDecision(resolved.value, ResolvedIp))
    && (open && app.None? && rule.None? && domain.None? && resolved.None? && mode == FullTunnel ==>
          d == RouteDecision(Tunnel, DefaultTunnel))
    && (open && app.None? && rule.None? && domain.None? && resolved.None? && mode == SplitInclude ==>
          d == RouteDecision(Bypass, DefaultBypass))
  }

  lemma IpRuleFound(cfg: AppConfig, syn: CidrSyntax, table: seq<IpRuleEntry>, ip: IpAddr, rule: Option<IpRule>)
    requires AllParse(cfg.ipRules, syn) && table == StableSort(EntriesOf(cfg.ipRules, syn), BY_IP_PRIORITY)
    requires IsLeast(cfg.ipRules, BY_RULE, RuleHolds(syn, ip), rule)
    ensures var found := LookupRule(table, ip);
            && found.Some? == rule.Some?
            && (rule.Some? ==> found.value.priority == rule.value.priority && found.value.target == rule.value.target)
  {
    hide StableSort, Contains;
    EntriesMin(cfg.ipRules, syn, ip);
    SortedSearchIsMinByKey(EntriesOf(cfg.ipRules, syn), BY_IP_PRIORITY, HoldsIp(ip));
    MinByKeyIsLeast(cfg.ipRules, BY_RULE, RuleHolds(syn, ip));
    LeastIsUnique(cfg.ipRules, BY_RULE, RuleHolds(syn, ip), rule, MinByKey(cfg.ipRules, BY_RULE, RuleHolds(syn, ip)));
    hide MinByKey, IsLeast, FirstMatch;
  }

  lemma AppRuleFound(cfg: AppConfig, s: Snapshot, syn: CidrSyntax, flow: Flow, app: Option<AppRule>)
    requires FromConfig(s, cfg, syn) && flow.appPath.Some?
    requires IsLeast(cfg.appRules, BY_RULE_PRIORITY, Considered(cfg.mode, flow.appPath.value), app)
    ensures var found := AppRuleFor(s, flow);
            && found.Some? == app.Some?
            && (app.Some? ==> found == Some((Consulted(cfg.mode), app.value.priority)))
  {
    hide StableSort, EntriesOf, OfMode, IsLeast, NormalizePath;
    var best := FoundIsLeast(cfg.appRules, cfg.mode, flow.appPath.value);
    LeastIsUnique(cfg.appRules, BY_RULE_PRIORITY, Considered(cfg.mode, flow.appPath.value), app, best);
    hide FirstMatch;
  }

  lemma DomainRuleFound(cfg: AppConfig, s: Snapshot, syn: CidrSyntax, flow: Flow, domain: Option<Rule>)
    requires FromConfig(s, cfg, syn) && flow.domain.Some?
    requires IsLeast(cfg.domainRules, DomainNames.BY_PRIORITY, Covers(flow.domain.value), domain)
    ensures DomainRuleFor(s, flow) == domain
  {
    hide StableSort, EntriesOf, OfMode, IsLeast, MinByKey;
    SortedSearchIsLeast(cfg.domainRules, DomainNames.BY_PRIORITY, Covers(flow.domain.value));
    LeastIsUnique(cfg.domainRules, DomainNames.BY_PRIORITY, Covers(flow.domain.value), domain,
                  DomainRuleFor(s, flow));
  }

  /** The decision in terms of the configured rules, for every flow. */
  lemma DecisionIs(cfg: AppConfig, syn: CidrSyntax, s: Snapshot, flow: Flow, now: nat, app: Option<AppRule>,
                   rule: Option<IpRule>, domain: Option<Rule>)
    requires FromConfig(s, cfg, syn) && RulesApply(cfg, syn, flow, app, rule, domain)
    ensures Decides(cfg.mode, app, rule, domain, DC.Lookup(s.cache, flow.remoteIp, now), Decision(s, flow, now))
  {
    IpRuleFound(cfg, syn, s.table, flow.remoteIp, rule);
    if flow.appPath.Some? { AppRuleFound(cfg, s, syn, flow, app); }
    if flow.domain.Some? { DomainRuleFound(cfg, s, syn, flow, domain); }
    hide LookupRule, DC.Lookup, IsLeast, StableSort, EntriesOf, OfMode, MinByKey, FirstMatch;
  }

  /** What applying means, rule by rule: it concerns the flow, and no rule that does has a smaller priority. */
  lemma RulesApplyMeans(cfg: AppConfig, syn: CidrSyntax, flow: Flow, app: Option<AppRule>, rule: Option<IpRule>,
                        domain: Option<Rule>)
    requires AllParse(cfg.ipRules, syn) && RulesApply(cfg, syn, flow, app, rule, domain)
    ensures rule.Some? ==> rule.value in cfg.ipRules
    ensures forall i | 0 <= i < |cfg.ipRules| && Contains(syn.parse(cfg.ipRules[i].cidr).value, flow.remoteIp) ::
              rule.Some? && rule.value.priority <= cfg.ipRules[i].priority
    ensures rule.Some? ==>
              syn.parse(rule.value.cidr).Some? && Contains(syn.parse(rule.value.cidr).value, flow.remoteIp)
    ensures flow.appPath.Some? ==> AppRules.IsChosen(cfg.appRules, cfg.mode, flow.appPath.value, app)
    ensures flow.domain.Some? ==> DomainNames.IsChosen(cfg.domainRules, flow.domain.value, domain)
  {
    hide Contains;
    if flow.appPath.Some? { AppRules.LeastIsChosen(cfg.appRules, cfg.mode, flow.appPath.value, app); }
    if flow.domain.Some? { DomainNames.LeastIsChosen(cfg.domainRules, flow.domain.value, domain); }
    hide AppRules.IsChosen, DomainNames.IsChosen, Considered, Covers;
    var p := RuleHolds(syn, flow.remoteIp);
    forall i | 0 <= i < |cfg.ipRules| && Contains(syn.parse(cfg.ipRules[i].cidr).value, flow.remoteIp)
      ensures rule.Some? && rule.value.priority <= cfg.ipRules[i].priority
    {
      assert p(cfg.ipRules[i]);
    }
  }

  /** Rules that apply always exist, so that says something of every flow. */
  lemma SomeRulesApply(cfg: AppConfig, syn: CidrSyntax, flow: Flow)
    ensures exists app, rule, domain :: RulesApply(cfg, syn, flow, app, rule, domain)
  {
    var app := if flow.appPath.None? then None
               else MinByKey(cfg.appRules, BY_RULE_PRIORITY, Considered(cfg.mode, flow.appPath.value));
    var domain := if flow.domain.None? then None
                  else MinByKey(cfg.domainRules, DomainNames.BY_PRIORITY, Covers(flow.domain.value));
    var rule := MinByKey(cfg.ipRules, BY_RULE, RuleHolds(syn, flow.remoteIp));
    MinByKeyIsLeast(cfg.ipRules, BY_RULE, RuleHolds(syn, flow.remoteIp));
    if flow.appPath.Some? {
      MinByKeyIsLeast(cfg.appRules, BY_RULE_PRIORITY, Considered(cfg.mode, flow.appPath.value));
    }
    if flow.domain.Some? {
      MinByKeyIsLeast(cfg.domainRules, DomainNames.BY_PRIORITY, Covers(flow.domain.value));
    }
    hide MinByKey, IsLeast;
    assert RulesApply(cfg, syn, flow, app, rule, domain);
  }

  class RoutingEngine {
    var mode: RoutingMode
    var apps: AppRuleSet
    var table: seq<IpRuleEntry>
    const cache: DC.DomainCache

    ghost function State(): Snapshot
      reads this, cache
    {
      Snapshot(mode, apps, table, cache.rules, cache.State())
    }

    constructor (cfg: AppConfig, table: seq<IpRuleEntry>)
      ensures fresh(cache) && this.table == table && mode == cfg.mode && cache.State() == DC.EMPTY_CACHE
      ensures cache.rules == StableSort(cfg.domainRules, DomainNames.BY_PRIORITY)
      ensures apps.excludes == StableSort(OfMode(cfg.appRules, Exclude), AppRules.BY_PRIORITY)
      ensures apps.includes == StableSort(OfMode(cfg.appRules, Include), AppRules.BY_PRIORITY)
    {
      mode := cfg.mode;
      var set_ := FromRules(cfg.appRules);
      apps := set_;
      this.table := table;
      cache := new DC.DomainCache(cfg.domainRules);
    }

    method SyncDomainStore(store: DomainRouteStore, order: seq<IpAddr>, now: nat)
      requires DC.Enumerates(order, store.byIp.Keys)
      modifies cache`resolved, cache`ipIndex
      ensures cache.State() == DC.Synced(store.byIp, order, now)
    {
      DC.SyncDomainCache(store, cache, order, now);
    }

    method Decide(flow: Flow, now: nat) returns (r: RouteDecision)
      ensures r == Decision(State(), flow, now)
      ensures forall cfg, syn, app, rule, domain |
                FromConfig(State(), cfg, syn) && RulesApply(cfg, syn, flow, app, rule, domain) ::
                Decides(cfg.mode, app, rule, domain, DC.Lookup(State().cache, flow.remoteIp, now), r)
    {
      hide FirstMatch, MinByKey, FromConfig, RulesApply, Decides;
      forall cfg, syn, app, rule, domain |
        FromConfig(State(), cfg, syn) && RulesApply(cfg, syn, flow, app, rule, domain)
        ensures Decides(cfg.mode, app, rule, domain, DC.Lookup(State().cache, flow.remoteIp, now),
                        Decision(State(), flow, now))
      {
        DecisionIs(cfg, syn, State(), flow, now, app, rule, domain);
      }
      var rule := LookupRule(table, flow.remoteIp);
      if rule.Some? && rule.value.target == Block { return RouteDecision(Block, IpBlock(rule.value.priority)); }
      var resolved := cache.LookupIp(flow.remoteIp, now);
      if resolved == Some(Block) { return RouteDecision(Block, ResolvedBlock); }
      var domain := if flow.domain.Some? then cache.MatchDomain(flow.domain.value) else None;
      if domain.Some? && domain.value.target == Block {
        return RouteDecision(Block, DomainBlock(domain.value.pattern));
      }
      if flow.appPath.Some? {
        var entries := if mode.FullTunnel? then apps.excludes else apps.includes;
        var hit := FirstApplicable(entries, NormalizePath(flow.appPath.value));
        if hit.Some? {
          match mode
          case FullTunnel => return RouteDecision(Bypass, AppExclude(hit.value.priority));
          case SplitInclude => return RouteDecision(Tunnel, AppInclude(hit.value.priority));
        }
      }
      if rule.Some? { return RouteDecision(rule.value.target, IpRuleReason(rule.value.priority)); }
      if domain.Some? { return RouteDecision(domain.value.target, DomainRuleReason(domain.value.pattern)); }
      if resolved.Some? { return RouteDecision(resolved.value, ResolvedIp); }
      match mode
      case FullTunnel => return RouteDecision(Tunnel, DefaultTunnel);
      case SplitInclude => return RouteDecision(Bypass, DefaultBypass);
    }
  }

  // ----- The compiled policy -----

  datatype AppFilter = AppFilter(path: string, priority: nat, mode: RuleMode)

  datatype PolicySnapshot = PolicySnapshot(bypassCidrs: seq<string>, blockCidrs: seq<string>,
                                           bypassApps: seq<AppFilter>, tunnelApps: seq<AppFilter>,
                                           appPermits: seq<string>, bypassHosts: seq<string>, tunnelHosts: seq<string>,
                                           generation: nat)

  const BY_FILTER_PRIORITY := (f: AppFilter) => f.priority

  /** The texts of the configured rules with a target, in order. */
  function RawFor(rules: seq<IpRule>, target: RouteTarget): seq<string>
  {
    if rules == [] then []
    else RawFor(rules[..|rules| - 1], target)
         + if rules[|rules| - 1].target == target then [rules[|rules| - 1].cidr] else []
  }

  /** Every item is in the list; nothing else was added to it. */
  ghost predicate Extends(before: seq<string>, items: seq<string>, after: seq<string>)
  {
    before <= after && (forall x | x in items :: x in after) && forall x | x in after :: x in before || x in items
  }

  method AppendNew(list: seq<string>, items: seq<string>) returns (r: seq<string>)
    ensures Extends(list, items, r)
  {
    r := list;
    for i := 0 to |items|
      invariant Extends(list, items[..i], r)
    {
      TakeStep(items, i + 1);
      if items[i] !in r { r := r + [items[i]]; }
    }
    assert items[..|items|] == items;
  }

  function Printed(nets: seq<IpNet>, syn: CidrSyntax): (r: seq<string>)
    ensures |r| == |nets|
  {
    seq(|nets|, i requires 0 <= i < |nets| => syn.print_(nets[i]))
  }

  /** The live addresses held for a target. */
  function HostsFor(m: IpMap, target: RouteTarget, now: nat): set<IpAddr>
  {
    set ip | ip in m && m[ip].target == target && m[ip].expiresAt > now
  }

  /** The host networks of some addresses, each once, in any order. */
  ghost predicate ListsHosts(hosts: seq<string>, ips: set<IpAddr>, syn: CidrSyntax)
  {
    && |hosts| == |ips|
    && (forall ip | ip in ips :: syn.print_(HostNet(ip)) in hosts)
    && forall h | h in hosts :: exists ip | ip in ips :: h == syn.print_(HostNet(ip))
  }

  method HostCidrsForTarget(store: DomainRouteStore, target: RouteTarget, syn: CidrSyntax, now: nat)
    returns (hosts: seq<string>)
    ensures ListsHosts(hosts, HostsFor(store.byIp, target, now), syn)
  {
    hide ListsHosts;
    NoHosts(syn, now);
    hosts := [];
    var rest := set ip | ip in store.byIp && store.byIp[ip].target == target && store.byIp[ip].expiresAt > now;
    ghost var all := rest;
    assert all == HostsFor(store.byIp, target, now) && all - rest == {};
    while rest != {}
      invariant rest <= all && ListsHosts(hosts, all - rest, syn)
      decreases rest
    {
      var ip :| ip in rest;
      HostsNext(hosts, all - rest, ip, syn);
      assert all - (rest - {ip}) == (all - rest) + {ip};
      hosts := hosts + [syn.print_(HostNet(ip))];
      rest := rest - {ip};
    }
    assert all - rest == all;
  }

  lemma HostsNext(hosts: seq<string>, ips: set<IpAddr>, ip: IpAddr, syn: CidrSyntax)
    requires ListsHosts(hosts, ips, syn) && ip !in ips
    ensures ListsHosts(hosts + [syn.print_(HostNet(ip))], ips + {ip}, syn)
  {
  }

  /** The filters of the application rules the mode consults, in configuration order. */
  function FiltersFor(rules: seq<AppRule>, mode: RuleMode): seq<AppFilter>
  {
    if rules == [] then []
    else
      var last := rules[|rules| - 1];
      FiltersFor(rules[..|rules| - 1], mode)
      + if last.mode == mode then [AppFilter(NormalizePath(last.path), last.priority, last.mode)] else []
  }

  function Paths(filters: seq<AppFilter>): seq<string>
  {
    seq(|filters|, i requires 0 <= i < |filters| => filters[i].path)
  }

  /** What a policy compiled from a configuration, a rule table and a store contains. */
  ghost predicate Compiled(cfg: AppConfig, table: seq<IpRuleEntry>, m: IpMap, generation: nat, syn: CidrSyntax,
                           now: nat, p: PolicySnapshot)
  {
    && (exists static_ :: Extends(RawFor(cfg.ipRules, Bypass), Printed(NetsFor(table, Bypass), syn), static_)
                          && Extends(static_, p.bypassHosts, p.bypassCidrs))
    && Extends(RawFor(cfg.ipRules, Block), Printed(NetsFor(table, Block), syn), p.blockCidrs)
    && ListsHosts(p.bypassHosts, HostsFor(m, Bypass, now), syn)
    && ListsHosts(p.tunnelHosts, HostsFor(m, Tunnel, now), syn)
    && p.generation == generation
    && p.bypassApps == StableSort(if cfg.mode.FullTunnel? then FiltersFor(cfg.appRules, Exclude) else [],
                                  BY_FILTER_PRIORITY)
    && p.tunnelApps == StableSort(if cfg.mode.SplitInclude? then FiltersFor(cfg.appRules, Include) else [],
                                  BY_FILTER_PRIORITY)
    && p.appPermits == Paths(if cfg.mode.FullTunnel? then FiltersFor(cfg.appRules, Exclude) else [])
  }

  method CompileApps(cfg: AppConfig) returns (bypass: seq<AppFilter>, tunnel: seq<AppFilter>, permits: seq<string>)
    ensures bypass == StableSort(if cfg.mode.FullTunnel? then FiltersFor(cfg.appRules, Exclude) else [],
                                 BY_FILTER_PRIORITY)
    ensures tunnel == StableSort(if cfg.mode.SplitInclude? then FiltersFor(cfg.appRules, Include) else [],
                                 BY_FILTER_PRIORITY)
    ensures permits == Paths(if cfg.mode.FullTunnel? then FiltersFor(cfg.appRules, Exclude) else [])
  {
    bypass, tunnel, permits := [], [], [];
    for i := 0 to |cfg.appRules|
      invariant bypass == if cfg.mode.FullTunnel? then FiltersFor(cfg.appRules[..i], Exclude) else []
      invariant tunnel == if cfg.mode.SplitInclude? then FiltersFor(cfg.appRules[..i], Include) else []
      invariant permits == Paths(bypass)
    {
      TakeStep(cfg.appRules, i + 1);
      var rule := cfg.appRules[i];
      var entry := AppFilter(NormalizePath(rule.path), rule.priority, rule.mode);
      match (cfg.mode, rule.mode)
      case (FullTunnel, Exclude) =>
        bypass := bypass + [entry];
        permits := permits + [entry.path];
      case (SplitInclude, Include) => tunnel := tunnel + [entry];
      case _ =>
    }
    assert cfg.appRules[..|cfg.appRules|] == cfg.appRules;
    bypass, tunnel := StableSort(bypass, BY_FILTER_PRIORITY), StableSort(tunnel, BY_FILTER_PRIORITY);
  }

  method RawCidrs(rules: seq<IpRule>) returns (bypass: seq<string>, blocked: seq<string>)
    ensures bypass == RawFor(rules, Bypass) && blocked == RawFor(rules, Block)
  {
    bypass, blocked := [], [];
    for i := 0 to |rules|
      invariant bypass == RawFor(rules[..i], Bypass) && blocked == RawFor(rules[..i], Block)
    {
      TakeStep(rules, i + 1);
      match rules[i].target
      case Bypass => bypass := bypass + [rules[i].cidr];
      case Block => blocked := blocked + [rules[i].cidr];
      case Tunnel =>
    }
    assert rules[..|rules|] == rules;
  }

  /** Compiles the policy; without a store the host lists are empty. */
  method CompileWithDomainStore(cfg: AppConfig, engine: RoutingEngine, store: Option<DomainRouteStore>, syn: CidrSyntax,
                                now: nat) returns (p: PolicySnapshot)
    ensures Compiled(cfg, engine.table, if store.Some? then store.value.byIp else map[],
                     if store.Some? then store.value.generation else 0, syn, now, p)
  {
    hide StableSort, NetsFor, ListsHosts, Extends, FiltersFor, RawFor, Printed, Paths;
    var bypass, blocked := RawCidrs(cfg.ipRules);
    bypass := AppendNew(bypass, Printed(NetsFor(engine.table, Bypass), syn));
    blocked := AppendNew(blocked, Printed(NetsFor(engine.table, Block), syn));
    var bypassApps, tunnelApps, permits := CompileApps(cfg);
    var bypassHosts: seq<string>, tunnelHosts: seq<string>, generation := [], [], 0;
    if store.Some? {
      bypassHosts := HostCidrsForTarget(store.value, Bypass, syn, now);
      tunnelHosts := HostCidrsForTarget(store.value, Tunnel, syn, now);
      generation := store.value.generation;
    } else {
      NoHosts(syn, now);
    }
    var all := AppendNew(bypass, bypassHosts);
    p := PolicySnapshot(all, blocked, bypassApps, tunnelApps, permits, bypassHosts, tunnelHosts, generation);
  }

  lemma NoHosts(syn: CidrSyntax, now: nat)
    ensures ListsHosts([], {}, syn)
    ensures ListsHosts([], HostsFor(map[], Bypass, now), syn) && ListsHosts([], HostsFor(map[], Tunnel, now), syn)
  {
  }

  // ----- What the compiled lists contain, in terms of the configuration -----

  /** The filters are those of the rules of a mode, at the positions `at`, in order, their paths normalised. */
  ghost predicate FiltersAt(rules: seq<AppRule>, mode: RuleMode, at: seq<nat>, filters: seq<AppFilter>)
  {
    && |at| == |filters| && (forall i, j | 0 <= i < j < |at| :: at[i] < at[j])
    && (forall k: nat :: k in at <==> k < |rules| && rules[k].mode == mode)
    && forall i | 0 <= i < |at| ::
         at[i] < |rules| && filters[i] == AppFilter(NormalizePath(rules[at[i]].path), rules[at[i]].priority, mode)
  }

  lemma FiltersNext(rules: seq<AppRule>, last: AppRule, mode: RuleMode, at: seq<nat>, filters: seq<AppFilter>)
    requires FiltersAt(rules, mode, at, filters)
    ensures last.mode != mode ==> FiltersAt(rules + [last], mode, at, filters)
    ensures last.mode == mode ==>
              FiltersAt(rules + [last], mode, at + [|rules|],
                        filters + [AppFilter(NormalizePath(last.path), last.priority, mode)])
  {
    hide NormalizePath;
    var all := rules + [last];
    assert forall k | 0 <= k < |rules| :: all[k] == rules[k];
    assert forall k: nat :: k in at + [|rules|] <==> k in at || k == |rules|;
  }

  lemma {:induction false} FiltersAre(rules: seq<AppRule>, mode: RuleMode) returns (at: seq<nat>)
    ensures FiltersAt(rules, mode, at, FiltersFor(rules, mode))
  {
    if rules == [] {
      at := [];
    } else {
      var init, last := rules[..|rules| - 1], rules[|rules| - 1];
      at := FiltersAre(init, mode);
      assert rules == init + [last];
      FiltersNext(init, last, mode, at, FiltersFor(init, mode));
      hide FiltersAt, NormalizePath;
      if last.mode == mode {
        at := at + [|init|];
      } else {
        assert FiltersFor(init, mode) + [] == FiltersFor(init, mode);
      }
    }
  }

  /** Exactly the rules of a mode have a filter. */
  ghost predicate FiltersOf(filters: seq<AppFilter>, rules: seq<AppRule>, mode: RuleMode)
  {
    forall f :: f in filters <==>
        exists r | r in rules :: r.mode == mode && f == AppFilter(NormalizePath(r.path), r.priority, mode)
  }

  lemma FiltersAreOf(rules: seq<AppRule>, mode: RuleMode)
    ensures FiltersOf(FiltersFor(rules, mode), rules, mode)
  {
    var at := FiltersAre(rules, mode);
    var filters := FiltersFor(rules, mode);
    hide FiltersFor, NormalizePath;
    forall f ensures f in filters <==>
        exists r | r in rules :: r.mode == mode && f == AppFilter(NormalizePath(r.path), r.priority, mode)
    {
      if f in filters {
        var i :| 0 <= i < |filters| && filters[i] == f;
        assert at[i] in at && rules[at[i]] in rules;
      }
      if r :| r in rules && r.mode == mode && f == AppFilter(NormalizePath(r.path), r.priority, mode) {
        var k: nat :| k < |rules| && rules[k] == r;
        assert k in at;
        var i :| 0 <= i < |at| && at[i] == k;
        assert filters[i] == f;
      }
    }
  }

  /** The listed host networks are those of the addresses held for a target that have not expired. */
  ghost predicate HostsOf(hosts: seq<string>, m: IpMap, target: RouteTarget, syn: CidrSyntax, now: nat)
  {
    forall h :: h in hosts <==>
        exists ip | ip in m :: m[ip].target == target && now < m[ip].expiresAt && h == syn.print_(HostNet(ip))
  }

  lemma HostsAreOf(hosts: seq<string>, m: IpMap, target: RouteTarget, syn: CidrSyntax, now: nat)
    requires ListsHosts(hosts, HostsFor(m, target, now), syn)
    ensures HostsOf(hosts, m, target, syn, now)
  {
    hide HostNet;
    assert forall ip :: ip in HostsFor(m, target, now) <==> ip in m && m[ip].target == target && now < m[ip].expiresAt;
    hide HostsFor;
  }

  /**
    A compiled policy, list by list: full-tunnel mode has a bypass filter and a
    permit for each exclusion, split-include mode a tunnel filter for each
    inclusion, sorted by priority; the host lists have exactly the addresses held
    live for their target.
  */
  lemma CompiledMeans(cfg: AppConfig, table: seq<IpRuleEntry>, m: IpMap, generation: nat, syn: CidrSyntax, now: nat,
                      p: PolicySnapshot)
    requires Compiled(cfg, table, m, generation, syn, now, p)
    ensures forall i, j | 0 <= i < j < |p.bypassApps| :: p.bypassApps[i].priority <= p.bypassApps[j].priority
    ensures forall i, j | 0 <= i < j < |p.tunnelApps| :: p.tunnelApps[i].priority <= p.tunnelApps[j].priority
    ensures if cfg.mode == FullTunnel then FiltersOf(p.bypassApps, cfg.appRules, Exclude) else p.bypassApps == []
    ensures if cfg.mode == SplitInclude then FiltersOf(p.tunnelApps, cfg.appRules, Include) else p.tunnelApps == []
    ensures cfg.mode == SplitInclude ==> p.appPermits == []
    ensures cfg.mode == FullTunnel ==>
              exists at, filters :: FiltersAt(cfg.appRules, Exclude, at, filters) && p.appPermits == Paths(filters)
    ensures HostsOf(p.bypassHosts, m, Bypass, syn, now) && HostsOf(p.tunnelHosts, m, Tunnel, syn, now)
    ensures p.generation == generation
  {
    hide StableSort, FiltersFor, ListsHosts, Extends, RawFor, Printed, NetsFor, HostsFor, Paths, FiltersOf, FiltersAt,
        HostsOf, NormalizePath;
    HostsAreOf(p.bypassHosts, m, Bypass, syn, now);
    HostsAreOf(p.tunnelHosts, m, Tunnel, syn, now);
    FiltersSorted(cfg.appRules, Exclude);
    FiltersSorted(cfg.appRules, Include);
    NothingSorted();
    var _ := FiltersAre(cfg.appRules, Exclude);
  }

  lemma FiltersSorted(rules: seq<AppRule>, mode: RuleMode)
    ensures var sorted := StableSort(FiltersFor(rules, mode), BY_FILTER_PRIORITY);
            && (forall i, j | 0 <= i < j < |sorted| :: sorted[i].priority <= sorted[j].priority)
            && FiltersOf(sorted, rules, mode)
  {
    SortIsSorted(FiltersFor(rules, mode), BY_FILTER_PRIORITY);
    FiltersAreOf(rules, mode);
    hide StableSort, FiltersFor, NormalizePath;
  }

  lemma NothingSorted()
    ensures StableSort([], BY_FILTER_PRIORITY) == [] && Paths([]) == []
  {
  }

  // ----- The compiled lists cover the decisions -----

  /** Some listed network contains the address. */
  ghost predicate CoveredBy(cidrs: seq<string>, ip: IpAddr, syn: CidrSyntax)
  {
    exists c | c in cidrs :: syn.parse(c).Some? && Contains(syn.parse(c).value, ip)
  }

  lemma RuleIsListed(table: seq<IpRuleEntry>, ip: IpAddr, syn: CidrSyntax, cidrs: seq<string>, before: seq<string>)
    requires IsFaithful(syn) && LookupRule(table, ip).Some?
    requires Extends(before, Printed(NetsFor(table, LookupRule(table, ip).value.target), syn), cidrs)
    ensures CoveredBy(cidrs, ip, syn)
  {
    var e := LookupRule(table, ip).value;
    FirstMatchIsMember(table, HoldsIp(ip));
    NetsForMembers(table, e.target);
    var nets := NetsFor(table, e.target);
    assert e.net in nets;
    var i :| 0 <= i < |nets| && nets[i] == e.net;
    assert Printed(nets, syn)[i] in cidrs;
  }

  lemma HostCovers(ip: IpAddr, syn: CidrSyntax, cidrs: seq<string>)
    requires IsFaithful(syn) && syn.print_(HostNet(ip)) in cidrs
    ensures CoveredBy(cidrs, ip, syn)
  {
    assert syn.parse(syn.print_(HostNet(ip))) == Some(HostNet(ip));
    assert Contains(HostNet(ip), ip);
  }

  lemma CoverageGrows(before: seq<string>, items: seq<string>, after: seq<string>, ip: IpAddr, syn: CidrSyntax)
    requires Extends(before, items, after) && CoveredBy(before, ip, syn)
    ensures CoveredBy(after, ip, syn)
  {
    var c :| c in before && syn.parse(c).Some? && Contains(syn.parse(c).value, ip);
    assert c in after[..|before|];
  }

  /**
    With the engine's cache copied from the store when the policy was compiled,
    every later Bypass decision for a flow without application or domain is
    covered by a compiled bypass network, unless it is the default of the
    split-include mode; in full-tunnel mode there is no such exception.
  */
  lemma BypassIsCovered(cfg: AppConfig, s: Snapshot, m: IpMap, order: seq<IpAddr>, generation: nat, syn: CidrSyntax,
                        compiled: nat, p: PolicySnapshot, flow: Flow, now: nat)
    requires IsFaithful(syn) && Keyed(m) && DC.Enumerates(order, m.Keys) && s.cache == DC.Synced(m, order, compiled)
    requires Compiled(cfg, s.table, m, generation, syn, compiled, p)
    requires flow.appPath.None? && flow.domain.None? && Decision(s, flow, now).target == Bypass
    ensures CoveredBy(p.bypassCidrs, flow.remoteIp, syn) ||
        (s.mode.SplitInclude? && Decision(s, flow, now).reason == DefaultBypass)
  {
    hide StableSort, FiltersFor, ListsHosts, Contains, CoveredBy, MinByKey, Printed, NetsFor, Extends;
    var ip := flow.remoteIp;
    var static_ :| Extends(RawFor(cfg.ipRules, Bypass), Printed(NetsFor(s.table, Bypass), syn), static_)
                   && Extends(static_, p.bypassHosts, p.bypassCidrs);
    if LookupRule(s.table, ip).Some? {
      RuleIsListed(s.table, ip, syn, static_, RawFor(cfg.ipRules, Bypass));
      CoverageGrows(static_, p.bypassHosts, p.bypassCidrs, ip, syn);
    } else if DC.Lookup(s.cache, ip, now).Some? {
      ResolvedIsHeld(m, order, compiled, ip, now);
      HostIsListed(m, compiled, syn, p, static_, ip);
      HostCovers(ip, syn, p.bypassCidrs);
    }
  }

  lemma ResolvedIsHeld(m: IpMap, order: seq<IpAddr>, synced: nat, ip: IpAddr, now: nat)
    requires Keyed(m) && DC.Enumerates(order, m.Keys)
    ensures var r := DC.Lookup(DC.Synced(m, order, synced), ip, now);
            r.Some? ==> ip in HostsFor(m, r.value, synced)
  {
    DC.SyncedIps(m, order, synced);
  }

  lemma HostIsListed(m: IpMap, compiled: nat, syn: CidrSyntax, p: PolicySnapshot, static_: seq<string>, ip: IpAddr)
    requires ListsHosts(p.bypassHosts, HostsFor(m, Bypass, compiled), syn) &&
        Extends(static_, p.bypassHosts, p.bypassCidrs)
    requires ip in HostsFor(m, Bypass, compiled)
    ensures syn.print_(HostNet(ip)) in p.bypassCidrs
  {
  }

  /** Every Block decided by an IP rule is covered by a compiled block network, whatever else the flow carries. */
  lemma IpBlockIsCovered(cfg: AppConfig, s: Snapshot, m: IpMap, generation: nat, syn: CidrSyntax, compiled: nat,
                         p: PolicySnapshot, flow: Flow, now: nat)
    requires IsFaithful(syn) && Compiled(cfg, s.table, m, generation, syn, compiled, p)
    requires Decision(s, flow, now).reason.IpBlock?
    ensures Decision(s, flow, now).target == Block && CoveredBy(p.blockCidrs, flow.remoteIp, syn)
  {
    hide StableSort, FiltersFor, ListsHosts, Contains, CoveredBy, MinByKey, Printed, NetsFor, Extends;
    RuleIsListed(s.table, flow.remoteIp, syn, p.blockCidrs, RawFor(cfg.ipRules, Block));
  }

  lemma {:induction false} RawForMembers(rules: seq<IpRule>, target: RouteTarget)
    ensures forall c :: c in RawFor(rules, target) <==>
        exists i | 0 <= i < |rules| :: rules[i].target == target && rules[i].cidr == c
  {
    if rules != [] {
      var init, last := rules[..|rules| - 1], rules[|rules| - 1];
      RawForMembers(init, target);
      assert forall i | 0 <= i < |init| :: init[i] == rules[i];
    }
  }

  /** Some configured rule with the target contains the address. */
  ghost predicate RuleContains(rules: seq<IpRule>, syn: CidrSyntax, target: RouteTarget, ip: IpAddr)
    requires AllParse(rules, syn)
  {
    exists i | 0 <= i < |rules| :: rules[i].target == target && Contains(syn.parse(rules[i].cidr).value, ip)
  }

  /** A network compiled from the rules is that of a configured rule with the target. */
  lemma CidrIsConfigured(cfg: AppConfig, table: seq<IpRuleEntry>, syn: CidrSyntax, target: RouteTarget,
                         list: seq<string>, c: string)
    requires IsFaithful(syn) && AllParse(cfg.ipRules, syn)
    requires table == StableSort(EntriesOf(cfg.ipRules, syn), BY_IP_PRIORITY)
    requires Extends(RawFor(cfg.ipRules, target), Printed(NetsFor(table, target), syn), list) && c in list
    ensures exists i | 0 <= i < |cfg.ipRules| ::
              cfg.ipRules[i].target == target && syn.parse(cfg.ipRules[i].cidr) == syn.parse(c)
  {
    RawForMembers(cfg.ipRules, target);
    if c !in RawFor(cfg.ipRules, target) {
      var nets, entries := NetsFor(table, target), EntriesOf(cfg.ipRules, syn);
      NetsForMembers(table, target);
      SortIsSorted(entries, BY_IP_PRIORITY);
      var k :| 0 <= k < |nets| && Printed(nets, syn)[k] == c;
      assert nets[k] in nets;
      var e :| e in table && e.target == target && e.net == nets[k];
      var i :| 0 <= i < |entries| && entries[i] == e;
      assert cfg.ipRules[i].target == target && syn.parse(cfg.ipRules[i].cidr) == Some(nets[k]);
    }
  }

  /** The networks compiled from the rules cover exactly the addresses that a rule with the target contains. */
  lemma RuleCoverageIff(cfg: AppConfig, table: seq<IpRuleEntry>, syn: CidrSyntax, target: RouteTarget,
                        list: seq<string>, ip: IpAddr)
    requires IsFaithful(syn) && AllParse(cfg.ipRules, syn)
    requires table == StableSort(EntriesOf(cfg.ipRules, syn), BY_IP_PRIORITY)
    requires Extends(RawFor(cfg.ipRules, target), Printed(NetsFor(table, target), syn), list)
    ensures CoveredBy(list, ip, syn) <==> RuleContains(cfg.ipRules, syn, target, ip)
  {
    hide StableSort, Contains, Printed, NetsFor, RawFor, EntriesOf;
    if CoveredBy(list, ip, syn) {
      var c :| c in list && syn.parse(c).Some? && Contains(syn.parse(c).value, ip);
      CidrIsConfigured(cfg, table, syn, target, list, c);
      var i :| 0 <= i < |cfg.ipRules| && cfg.ipRules[i].target == target
               && syn.parse(cfg.ipRules[i].cidr) == syn.parse(c);
      assert Contains(syn.parse(cfg.ipRules[i].cidr).value, ip);
    }
    if RuleContains(cfg.ipRules, syn, target, ip) {
      var i :| 0 <= i < |cfg.ipRules| && cfg.ipRules[i].target == target
               && Contains(syn.parse(cfg.ipRules[i].cidr).value, ip);
      var c, raw := cfg.ipRules[i].cidr, RawFor(cfg.ipRules, target);
      RawForMembers(cfg.ipRules, target);
      assert cfg.ipRules[i].target == target && cfg.ipRules[i].cidr == c;
      assert c in raw;
      var k :| 0 <= k < |raw| && raw[k] == c;
      assert list[k] == c;
      assert syn.parse(cfg.ipRules[i].cidr).Some?;
    }
  }

  /** Which addresses a compiled policy blocks: exactly those that some configured Block rule contains. */
  lemma BlockCoverageIff(cfg: AppConfig, s: Snapshot, m: IpMap, generation: nat, syn: CidrSyntax, compiled: nat,
                         p: PolicySnapshot, ip: IpAddr)
    requires IsFaithful(syn) && AllParse(cfg.ipRules, syn)
    requires s.table == StableSort(EntriesOf(cfg.ipRules, syn), BY_IP_PRIORITY)
    requires Compiled(cfg, s.table, m, generation, syn, compiled, p)
    ensures CoveredBy(p.blockCidrs, ip, syn) <==> RuleContains(cfg.ipRules, syn, Block, ip)
  {
    RuleCoverageIff(cfg, s.table, syn, Block, p.blockCidrs, ip);
  }

  // ----- Host networks -----

  lemma HostCoverageIff(hosts: seq<string>, ips: set<IpAddr>, syn: CidrSyntax, ip: IpAddr)
    requires IsFaithful(syn) && ListsHosts(hosts, ips, syn) && IsIp(ip) && forall other | other in ips :: IsIp(other)
    ensures CoveredBy(hosts, ip, syn) <==> ip in ips
  {
    hide Contains, HostNet;
    if CoveredBy(hosts, ip, syn) {
      var c :| c in hosts && syn.parse(c).Some? && Contains(syn.parse(c).value, ip);
      var other :| other in ips && c == syn.print_(HostNet(other));
      HostNetIsOne(other, ip);
    }
    if ip in ips {
      HostNetIsOne(ip, ip);
      assert syn.parse(syn.print_(HostNet(ip))) == Some(HostNet(ip));
    }
  }

  lemma CoverageSplits(before: seq<string>, items: seq<string>, after: seq<string>, ip: IpAddr, syn: CidrSyntax)
    requires Extends(before, items, after)
    ensures CoveredBy(after, ip, syn) <==> CoveredBy(before, ip, syn) || CoveredBy(items, ip, syn)
  {
    if CoveredBy(before, ip, syn) { CoverageGrows(before, items, after, ip, syn); }
  }

  /**
    Which addresses a compiled policy sends around the tunnel: exactly those that
    some configured Bypass rule contains and those held live for Bypass when it
    was compiled.
  */
  lemma BypassCoverageIff(cfg: AppConfig, s: Snapshot, m: IpMap, generation: nat, syn: CidrSyntax, compiled: nat,
                          p: PolicySnapshot, ip: IpAddr)
    requires IsFaithful(syn) && AllParse(cfg.ipRules, syn)
    requires s.table == StableSort(EntriesOf(cfg.ipRules, syn), BY_IP_PRIORITY)
    requires Compiled(cfg, s.table, m, generation, syn, compiled, p)
    requires IsIp(ip) && forall other | other in m :: IsIp(other)
    ensures CoveredBy(p.bypassCidrs, ip, syn) <==>
            RuleContains(cfg.ipRules, syn, Bypass, ip) || ip in HostsFor(m, Bypass, compiled)
  {
    hide StableSort, FiltersFor, ListsHosts, Contains, CoveredBy, Printed, NetsFor, Extends, RuleContains, RawFor;
    hide Paths;
    var static_ :| Extends(RawFor(cfg.ipRules, Bypass), Printed(NetsFor(s.table, Bypass), syn), static_)
                   && Extends(static_, p.bypassHosts, p.bypassCidrs);
    RuleCoverageIff(cfg, s.table, syn, Bypass, static_, ip);
    HostCoverageIff(p.bypassHosts, HostsFor(m, Bypass, compiled), syn, ip);
    CoverageSplits(static_, p.bypassHosts, p.bypassCidrs, ip, syn);
  }

  /**
    When the one Bypass decision that needs no rule and no entry, the default of
    the split-include mode, is covered: exactly for an address that was held live
    for Bypass at compilation. At that instant the address would not get the
    default, so the default is never covered then.
  */
  lemma DefaultBypassCoveredIff(cfg: AppConfig, s: Snapshot, m: IpMap, order: seq<IpAddr>, generation: nat,
                                syn: CidrSyntax, compiled: nat, p: PolicySnapshot, flow: Flow, now: nat)
    requires IsFaithful(syn) && AllParse(cfg.ipRules, syn)
    requires s.table == StableSort(EntriesOf(cfg.ipRules, syn), BY_IP_PRIORITY)
    requires Keyed(m) && DC.Enumerates(order, m.Keys) && s.cache == DC.Synced(m, order, compiled)
    requires Compiled(cfg, s.table, m, generation, syn, compiled, p)
    requires IsIp(flow.remoteIp) && forall other | other in m :: IsIp(other)
    requires Decision(s, flow, now).reason == DefaultBypass
    ensures Decision(s, flow, now).target == Bypass
    ensures CoveredBy(p.bypassCidrs, flow.remoteIp, syn) <==> flow.remoteIp in HostsFor(m, Bypass, compiled)
    ensures now == compiled ==> !CoveredBy(p.bypassCidrs, flow.remoteIp, syn)
  {
    var ip := flow.remoteIp;
    hide StableSort, FiltersFor, ListsHosts, Contains, CoveredBy, MinByKey, Printed, NetsFor, Extends, RawFor, Paths;
    hide EntriesOf;
    BypassCoverageIff(cfg, s, m, generation, syn, compiled, p, ip);
    NoRuleContains(cfg.ipRules, s.table, syn, Bypass, ip);
    if now == compiled { DC.SyncAgreesAtOnce(m, order, now, ip); }
  }

  /** An address without a rule in the table is in no configured rule. */
  lemma NoRuleContains(rules: seq<IpRule>, table: seq<IpRuleEntry>, syn: CidrSyntax, target: RouteTarget, ip: IpAddr)
    requires AllParse(rules, syn) && table == StableSort(EntriesOf(rules, syn), BY_IP_PRIORITY)
    requires LookupRule(table, ip).None?
    ensures !RuleContains(rules, syn, target, ip)
  {
    hide StableSort, Contains;
    var entries := EntriesOf(rules, syn);
    FirstMatchIsMember(table, HoldsIp(ip));
    SortIsSorted(entries, BY_IP_PRIORITY);
    forall i | 0 <= i < |rules| ensures !Contains(syn.parse(rules[i].cidr).value, ip) {
      assert entries[i] in table;
    }
  }

  /**
    Which Block decisions the compiled block list covers: every one of an IP rule,
    and one of a resolved address or a domain rule exactly when a Block rule of
    the configuration contains the address too, hidden behind a rule of a smaller
    priority or an earlier place.
  */
  lemma BlockDecisionCoveredIff(cfg: AppConfig, s: Snapshot, m: IpMap, generation: nat, syn: CidrSyntax, compiled: nat,
                                p: PolicySnapshot, flow: Flow, now: nat)
    requires IsFaithful(syn) && AllParse(cfg.ipRules, syn) &&
        s.table == StableSort(EntriesOf(cfg.ipRules, syn), BY_IP_PRIORITY)
    requires Compiled(cfg, s.table, m, generation, syn, compiled, p) && Decision(s, flow, now).target == Block
    ensures CoveredBy(p.blockCidrs, flow.remoteIp, syn) <==>
            Decision(s, flow, now).reason.IpBlock? || RuleContains(cfg.ipRules, syn, Block, flow.remoteIp)
  {
    BlockCoverageIff(cfg, s, m, generation, syn, compiled, p, flow.remoteIp);
    if Decision(s, flow, now).reason.IpBlock? {
      IpBlockIsCovered(cfg, s, m, generation, syn, compiled, p, flow, now);
    }
  }

  /**
    So for any address, without IP rules: with one store entry that blocks it and
    the cache copied from that store, its flow is blocked as a resolved address,
    and no policy compiled from the configuration and the store covers it.
  */
  lemma ResolvedBlockIsNotCompiled(cfg: AppConfig, ip: IpAddr, domain: string, pattern: string, generation: nat,
                                   syn: CidrSyntax, now: nat, p: PolicySnapshot)
    requires IsFaithful(syn) && cfg.ipRules == []
    requires Compiled(cfg, [], map[ip := Entry(ip, domain, pattern, Block, now + 1, 1)], generation, syn, now, p)
    ensures var m := map[ip := Entry(ip, domain, pattern, Block, now + 1, 1)];
            var s := Snapshot(cfg.mode, AppRuleSet([], []), [], [], DC.Synced(m, [ip], now));
            && DC.Enumerates([ip], m.Keys)
            && Decision(s, Flow(None, ip, None), now) == RouteDecision(Block, ResolvedBlock)
            && !CoveredBy(p.blockCidrs, ip, syn)
  {
    var m := map[ip := Entry(ip, domain, pattern, Block, now + 1, 1)];
    var s := Snapshot(cfg.mode, AppRuleSet([], []), [], [], DC.Synced(m, [ip], now));
    assert Keyed(m) && DC.Enumerates([ip], m.Keys);
    DC.SyncAgreesAtOnce(m, [ip], now, ip);
    hide DC.Synced, DC.Lookup;
    BlockDecisionCoveredIff(cfg, s, m, generation, syn, now, p, Flow(None, ip, None), now);
  }
}
