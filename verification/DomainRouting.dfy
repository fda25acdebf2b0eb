/** The manager that turns DNS answers into store entries, engine lookups and host routes. */
module DomainRouting {

  import opened Common
  import opened DomainNames
  import opened Priority
  import opened DomainStoreSpec
  import opened DomainStore
  import opened DomainCache
  import opened Routes

  /** Every address that is both held and routed has the same target in both. */
  ghost predicate Agreement(m: IpMap, routes: map<IpAddr, DomainRoute>)
  {
    forall ip | ip in m && ip in routes :: m[ip].target == routes[ip].target
  }

  /** The routes after installing some entries: other addresses keep theirs, these have none or the right target. */
  ghost predicate Installed(before: map<IpAddr, DomainRoute>, after: map<IpAddr, DomainRoute>, es: seq<Entry>)
  {
    && (forall ip | ip in after && ip !in IpsIn(es) :: ip in before && after[ip] == before[ip])
    && forall ip | ip in after && ip in IpsIn(es) :: exists e | e in es :: e.ip == ip && after[ip].target == e.target
  }

  lemma InstalledNext(before: map<IpAddr, DomainRoute>, now: map<IpAddr, DomainRoute>, after: map<IpAddr, DomainRoute>,
                      es: seq<Entry>, e: Entry)
    requires Installed(before, now, es)
    requires after - {e.ip} == now - {e.ip} && (e.ip in after ==> after[e.ip].target == e.target)
    ensures Installed(before, after, es + [e])
  {
    IpsInAppend(es, e);
    forall ip | ip in after && ip != e.ip ensures ip in now && after[ip] == now[ip] {
      assert ip in after - {e.ip} && (after - {e.ip})[ip] == after[ip];
      assert ip in now - {e.ip} && (now - {e.ip})[ip] == now[ip];
    }
    forall ip | ip in after && ip in IpsIn(es + [e])
      ensures exists x | x in es + [e] :: x.ip == ip && after[ip].target == x.target
    {
      if ip == e.ip {
        assert e in es + [e];
      } else {
        var x :| x in es && x.ip == ip && now[ip].target == x.target;
        assert x in es + [e];
      }
    }
  }

  /** The interface and metric that a policy's indexes give a host route of a target. */
  predicate IsPlaced(target: RouteTarget, place: (nat, nat), tunnelIf: nat, physicalIf: nat)
  {
    match target
    case Bypass => place == (physicalIf, 1)
    case Tunnel => place == (tunnelIf, 100)
    case Block => false
  }

  /** The host routes of a session with the interface and metric that the operating system accepted for each handle. */
  datatype Placement = Placement(routes: map<IpAddr, DomainRoute>, accepted: map<nat, (nat, nat)>)

  ghost predicate AllPlaced(p: Placement)
  {
    forall ip | ip in p.routes :: p.routes[ip].handle in p.accepted
  }

  /** The address is routed as before: same handle, expiry and target, on the same interface with the same metric. */
  ghost predicate KeepsRoute(before: Placement, after: Placement, ip: IpAddr)
    requires ip in after.routes
  {
    && ip in before.routes && after.routes[ip] == before.routes[ip]
    && var h := after.routes[ip].handle;
       h in before.accepted && h in after.accepted && after.accepted[h] == before.accepted[h]
  }

  /** The address is routed for a target until some time, on the interface and with the metric of the target. */
  ghost predicate RoutesFor(after: Placement, ip: IpAddr, target: RouteTarget, expiresAt: nat, tunnelIf: nat,
                            physicalIf: nat)
    requires ip in after.routes
  {
    var r := after.routes[ip];
    && r.target == target && r.expiresAt == expiresAt
    && r.handle in after.accepted && IsPlaced(target, after.accepted[r.handle], tunnelIf, physicalIf)
  }

  ghost predicate ServesEntry(after: Placement, ip: IpAddr, e: Entry, tunnelIf: nat, physicalIf: nat)
    requires ip in after.routes
  {
    e.ip == ip && RoutesFor(after, ip, e.target, e.expiresAt, tunnelIf, physicalIf)
  }

  /** Every route is one from before, or serves an entry of the list. */
  ghost predicate Places(before: Placement, after: Placement, es: seq<Entry>, tunnelIf: nat, physicalIf: nat)
  {
    forall ip | ip in after.routes ::
      KeepsRoute(before, after, ip) || exists e | e in es :: ServesEntry(after, ip, e, tunnelIf, physicalIf)
  }

  lemma PlacesNothing(p: Placement, tunnelIf: nat, physicalIf: nat)
    requires AllPlaced(p)
    ensures Places(p, p, [], tunnelIf, physicalIf)
  {
  }

  lemma PlacesNext(before: Placement, now: Placement, after: Placement, live: map<nat, IpNet>, es: seq<Entry>, e: Entry,
                   tunnelIf: nat, physicalIf: nat)
    requires Places(before, now, es, tunnelIf, physicalIf) && SameAccepted(live, now.accepted, after.accepted)
    requires forall ip | ip in now.routes :: now.routes[ip].handle in live
    requires after.routes - {e.ip} == now.routes - {e.ip} && AllPlaced(now)
    requires e.ip in after.routes && (e.ip !in now.routes || after.routes[e.ip] != now.routes[e.ip]) ==>
               ServesEntry(after, e.ip, e, tunnelIf, physicalIf)
    ensures Places(before, after, es + [e], tunnelIf, physicalIf)
  {
    forall ip | ip in after.routes && (ip != e.ip || (ip in now.routes && after.routes[ip] == now.routes[ip]))
      ensures KeepsRoute(now, after, ip)
    {
      if ip != e.ip {
        assert ip in after.routes - {e.ip} && (after.routes - {e.ip})[ip] == after.routes[ip];
        assert ip in now.routes - {e.ip} && (now.routes - {e.ip})[ip] == now.routes[ip];
      }
    }
    forall ip | ip in after.routes
      ensures KeepsRoute(before, after, ip)
              || exists x | x in es + [e] :: ServesEntry(after, ip, x, tunnelIf, physicalIf)
    {
      if KeepsRoute(now, after, ip) {
        if !KeepsRoute(before, now, ip) {
          var x :| x in es && ServesEntry(now, ip, x, tunnelIf, physicalIf);
          assert x in es + [e] && ServesEntry(after, ip, x, tunnelIf, physicalIf);
        }
      } else {
        assert e in es + [e];
      }
    }
  }

  /** Every address of a list is routed exactly if the last entry for it does not block. */
  ghost predicate Routed(routes: map<IpAddr, DomainRoute>, es: seq<Entry>)
  {
    forall ip, i: int | LastFor(es, ip, i) :: ip in routes <==> es[i].target != Block
  }

  lemma RoutedNext(now: map<IpAddr, DomainRoute>, after: map<IpAddr, DomainRoute>, es: seq<Entry>, e: Entry)
    requires Routed(now, es) && after - {e.ip} == now - {e.ip} && (e.ip in after <==> e.target != Block)
    ensures Routed(after, es + [e])
  {
    forall ip, i: int | LastFor(es + [e], ip, i) ensures ip in after <==> (es + [e])[i].target != Block {
      if i < |es| {
        assert (es + [e])[|es|].ip != ip;
        assert forall j | i < j < |es| :: es[j].ip == (es + [e])[j].ip;
        assert LastFor(es, ip, i);
        assert ip in after <==> ip in after - {e.ip};
        assert ip in now <==> ip in now - {e.ip};
      }
    }
  }

  lemma {:induction false} LastExists(es: seq<Entry>, ip: IpAddr)
    requires ip in IpsIn(es)
    ensures exists i :: LastFor(es, ip, i)
    decreases |es|
  {
    var init, last := es[..|es| - 1], es[|es| - 1];
    assert es == init + [last];
    if last.ip == ip {
      assert LastFor(es, ip, |es| - 1);
    } else {
      IpsInAppend(init, last);
      LastExists(init, ip);
      var i :| LastFor(init, ip, i);
      assert LastFor(es, ip, i);
    }
  }

  /** An answer applied to the store, and its diff applied to the routes, keep them in agreement, evictions or not. */
  lemma AnswerKeepsAgreement(m: IpMap, m': IpMap, es: seq<Entry>, domain: string, rule: Rule, added: seq<Entry>,
                             before: map<IpAddr, DomainRoute>, after: map<IpAddr, DomainRoute>)
    requires Agreement(m, before) && Uniform(es, domain, rule)
    requires Tracked(m, m', es, added, rule.target, |es|) && forall e | e in added :: e in es
    requires Installed(before, after, added)
    ensures Agreement(m', after)
  {
    assert es[..|es|] == es;
    forall ip | ip in m' && ip in after ensures m'[ip].target == after[ip].target {
      if ip in IpsIn(added) {
        var e :| e in added && e.ip == ip && after[ip].target == e.target;
        var i :| 0 <= i < |es| && es[i] == e;
        assert ip in IpsIn(es);
      }
    }
  }

  /** Agreement survives when both sides only lose entries. */
  lemma ShrinkingKeepsAgreement(m: IpMap, m': IpMap, before: map<IpAddr, DomainRoute>, after: map<IpAddr, DomainRoute>)
    requires Agreement(m, before) && Submap(m', m)
    requires forall ip | ip in after :: ip in before && after[ip] == before[ip]
    ensures Agreement(m', after)
  {
  }

  /**
    Why an interface is needed: without one the routes stay as they are, and an
    answer within the caps leaves them in agreement exactly when every answered
    address that is routed is already routed to the rule's target.
  */
  lemma WithoutInterfaceAgreesIff(m: IpMap, domain: string, rule: Rule, es: seq<Entry>,
                                  routes: map<IpAddr, DomainRoute>)
    requires Keyed(m) && Uniform(es, domain, rule) && Agreement(m, routes)
    ensures Agreement(LatestAnswer(m, domain, es), routes) <==>
            forall ip | ip in IpsIn(es) && ip in routes :: routes[ip].target == rule.target
  {
    LatestAnswerReplaces(m, domain, es);
    var m' := LatestAnswer(m, domain, es);
    forall ip | ip in IpsIn(es) ensures ip in m' && m'[ip].target == rule.target {
      assert ip in IpsOf(m', domain);
      var i :| LastFor(es, ip, i) && m'[ip] == es[i];
      assert es[i] in es;
    }
  }

  /** The rule that the store's sorted rules give a domain. */
  function RuleFor(rules: seq<Rule>, domain: string): Option<Rule>
  {
    MinByKey(rules, DomainNames.BY_PRIORITY, Covers(Normalize(domain)))
  }

  lemma RuleForIsLeast(rules: seq<Rule>, domain: string)
    ensures forall configured: seq<Rule> | rules == StableSort(configured, DomainNames.BY_PRIORITY) ::
              IsLeast(configured, DomainNames.BY_PRIORITY, Covers(Normalize(domain)), RuleFor(rules, domain))
    ensures IsChosen(rules, domain, RuleFor(rules, domain))
  {
    NormalizeTwice(domain);
    MinByKeyIsLeast(rules, DomainNames.BY_PRIORITY, Covers(Normalize(domain)));
    LeastIsChosen(rules, Normalize(domain), RuleFor(rules, domain));
    forall configured: seq<Rule> | rules == StableSort(configured, DomainNames.BY_PRIORITY)
      ensures IsLeast(configured, DomainNames.BY_PRIORITY, Covers(Normalize(domain)), RuleFor(rules, domain))
    {
      SortedSearchIsLeast(configured, DomainNames.BY_PRIORITY, Covers(Normalize(domain)));
    }
  }

  /** Without an interface, an answered address is routed against the rule that covers its domain. */
  ghost predicate Clashes(rules: seq<Rule>, domain: string, records: Answer, policy: RoutePolicy,
                          routes: map<IpAddr, DomainRoute>)
  {
    && !HasInterface(policy) && RuleFor(rules, domain).Some?
    && exists ip :: Answered(records, ip) && ip in routes && routes[ip].target != RuleFor(rules, domain).value.target
  }

  /** A rule covers the domain, no prefix of the answer exceeds a cap, and no other domain is listed empty. */
  ghost predicate Uncapped(cfg: Config, s: StoreState, domain: string, records: Answer, now: nat)
  {
    RuleFor(s.rules, domain).Some? && MeetsNoCap(cfg, s, domain, records, RuleFor(s.rules, domain).value, now)
  }

  /**
    Routes that no answer touches stay in agreement with the store unless the answer
    clashes with them, evictions or not.
  */
  lemma UntouchedKeepsAgreement(cfg: Config, s: StoreState, domain: string, ips: Answer, rule: Rule, now: nat,
                                s': StoreState, diff: Diff, routes: map<IpAddr, DomainRoute>)
    requires DiffIsRight(cfg, s, domain, ips, rule, now, s', diff) && Agreement(s.byIp, routes)
    requires forall ip | Answered(ips, ip) && ip in routes :: routes[ip].target == rule.target
    ensures Agreement(s'.byIp, routes)
  {
    var es := Wanted(domain, ips, rule, cfg, now);
    assert es[..|es|] == es;
    forall ip | ip in s'.byIp && ip in routes ensures s'.byIp[ip].target == routes[ip].target {
      if ip in IpsIn(es) {
        var i :| 0 <= i < |es| && es[i].ip == ip;
        assert ips[i].0 == ip;
        assert s'.byIp[ip] in es;
      }
    }
  }

  /** Within the caps the clash is exactly what breaks the agreement. */
  lemma ClashBreaksAgreement(cfg: Config, s: StoreState, domain: string, ips: Answer, rule: Rule, now: nat,
                             s': StoreState, diff: Diff, routes: map<IpAddr, DomainRoute>)
    requires Agree(s.byIp, s.byDomain) && DiffIsRight(cfg, s, domain, ips, rule, now, s', diff)
    requires Agreement(s.byIp, routes) && Uncapped(cfg, s, domain, ips, now) && RuleFor(s.rules, domain) == Some(rule)
    ensures Agreement(s'.byIp, routes) <==>
        forall ip | Answered(ips, ip) && ip in routes :: routes[ip].target == rule.target
  {
    var es := Wanted(domain, ips, rule, cfg, now);
    WithoutInterfaceAgreesIff(s.byIp, Normalize(domain), rule, es, routes);
    forall ip ensures ip in IpsIn(es) <==> Answered(ips, ip) {
      if Answered(ips, ip) {
        var i :| 0 <= i < |ips| && ips[i].0 == ip;
        assert es[i].ip == ip;
      }
      if ip in IpsIn(es) {
        var i :| 0 <= i < |es| && es[i].ip == ip;
        assert ips[i].0 == ip;
      }
    }
  }

  /** The address is routed for the target as long as one of its answered TTLs, brought into the bounds, lasts. */
  ghost predicate ServesAnswer(after: Placement, ip: IpAddr, records: Answer, target: RouteTarget, cfg: Config,
                               now: nat, tunnelIf: nat, physicalIf: nat)
    requires ip in after.routes
  {
    var expiresAt := after.routes[ip].expiresAt;
    && expiresAt >= now && RoutesFor(after, ip, target, expiresAt, tunnelIf, physicalIf)
    && exists i | 0 <= i < |records| ::
         records[i].0 == ip && IsBounded(records[i].1, cfg.minTtl, cfg.maxTtl, expiresAt - now)
  }

  /** Every route is one from before, or serves the answer. */
  ghost predicate PlacesAnswer(before: Placement, after: Placement, records: Answer, target: RouteTarget, cfg: Config,
                               now: nat, tunnelIf: nat, physicalIf: nat)
  {
    forall ip | ip in after.routes ::
      KeepsRoute(before, after, ip) || ServesAnswer(after, ip, records, target, cfg, now, tunnelIf, physicalIf)
  }

  lemma InstalledServesAnswer(cfg: Config, s: StoreState, domain: string, ips: Answer, rule: Rule, now: nat,
                              s': StoreState, diff: Diff, before: Placement, installed: Placement, after: Placement,
                              tunnelIf: nat, physicalIf: nat)
    requires DiffIsRight(cfg, s, domain, ips, rule, now, s', diff)
    requires Places(before, installed, diff.added, tunnelIf, physicalIf)
    requires after == Placement(installed.routes - IpsIn(diff.removed), installed.accepted)
    ensures PlacesAnswer(before, after, ips, rule.target, cfg, now, tunnelIf, physicalIf)
  {
    var es := Wanted(domain, ips, rule, cfg, now);
    WantedMeans(domain, ips, rule, cfg, now);
    hide Wanted, IpsIn, Clamp;
    forall ip | ip in after.routes && !KeepsRoute(before, after, ip)
      ensures ServesAnswer(after, ip, ips, rule.target, cfg, now, tunnelIf, physicalIf)
    {
      assert !KeepsRoute(before, installed, ip);
      var e :| e in diff.added && ServesEntry(installed, ip, e, tunnelIf, physicalIf);
      assert e in multiset(diff.added) + multiset(diff.refreshed);
      assert e in multiset(es);
      var i :| 0 <= i < |es| && es[i] == e;
      assert ips[i].0 == ip;
    }
  }

  /** Every route is one from before, or serves the entry held for its address. */
  ghost predicate PlacesHeld(before: Placement, after: Placement, m: IpMap, tunnelIf: nat, physicalIf: nat)
  {
    forall ip | ip in after.routes ::
      || KeepsRoute(before, after, ip)
      || (ip in m && RoutesFor(after, ip, m[ip].target, m[ip].expiresAt, tunnelIf, physicalIf))
  }

  lemma ListedServesHeld(m: IpMap, entries: seq<Entry>, before: Placement, after: Placement, tunnelIf: nat,
                         physicalIf: nat)
    requires Lists(entries, m) && Places(before, after, entries, tunnelIf, physicalIf)
    ensures PlacesHeld(before, after, m, tunnelIf, physicalIf)
  {
    forall ip | ip in after.routes && !KeepsRoute(before, after, ip)
      ensures ip in m && RoutesFor(after, ip, m[ip].target, m[ip].expiresAt, tunnelIf, physicalIf)
    {
      var e :| e in entries && ServesEntry(after, ip, e, tunnelIf, physicalIf);
      var i :| 0 <= i < |entries| && entries[i] == e;
    }
  }

  /** The index an interface is given, zero for none. */
  function IndexOr0(index: Option<nat>): (r: nat)
    ensures index == Some(r) || (index.None? && r == 0)
  {
    if index.Some? then index.value else 0
  }

  /**
    When nothing was refused, an answered address that was not held before for the
    same target is routed unless it is blocked.
  */
  lemma AnsweredAreRouted(cfg: Config, s: StoreState, domain: string, ips: Answer, rule: Rule, now: nat, s': StoreState,
                          diff: Diff, installed: map<IpAddr, DomainRoute>, after: map<IpAddr, DomainRoute>)
    requires DiffIsRight(cfg, s, domain, ips, rule, now, s', diff)
    requires Routed(installed, diff.added) && after == installed - IpsIn(diff.removed)
    ensures NewlyRouted(s.byIp, ips, rule.target, after)
  {
    var es, d := Wanted(domain, ips, rule, cfg, now), Normalize(domain);
    forall ip | Answered(ips, ip) && (ip !in s.byIp || s.byIp[ip].target != rule.target)
      ensures ip in after <==> rule.target != Block
    {
      var i :| 0 <= i < |ips| && ips[i].0 == ip;
      assert es[i].ip == ip && es[..|es|] == es;
      LastExists(diff.added, ip);
      var k :| LastFor(diff.added, ip, k);
      assert diff.added[k] in multiset(diff.added) + multiset(diff.refreshed);
      assert diff.added[k] in multiset(es);
      assert forall j | 0 <= j < |diff.removed| :: diff.removed[j].ip in Withdrawn(s.byIp, d, es);
    }
  }

  ghost predicate NewlyRouted(m: IpMap, ips: Answer, target: RouteTarget, routes: map<IpAddr, DomainRoute>)
  {
    forall ip | Answered(ips, ip) && (ip !in m || m[ip].target != target) :: ip in routes <==> target != Block
  }

  lemma ListedAreRouted(m: IpMap, entries: seq<Entry>, routes: map<IpAddr, DomainRoute>)
    requires Keyed(m) && Lists(entries, m) && Routed(routes, entries)
    ensures forall ip | ip in m :: ip in routes <==> m[ip].target != Block
  {
    forall ip | ip in m ensures ip in routes <==> m[ip].target != Block {
      var i :| 0 <= i < |entries| && entries[i] == m[ip];
      assert LastFor(entries, ip, i);
    }
  }

  lemma WithdrawnAreRemoved(cfg: Config, s: StoreState, domain: string, ips: Answer, rule: Rule, now: nat,
                            s': StoreState, diff: Diff)
    requires Agree(s.byIp, s.byDomain) && DiffIsRight(cfg, s, domain, ips, rule, now, s', diff)
    ensures forall ip | ip in IpsOf(s.byIp, Normalize(domain)) && !Answered(ips, ip) :: ip in IpsIn(diff.removed)
  {
    var es, d := Wanted(domain, ips, rule, cfg, now), Normalize(domain);
    forall ip | ip in IpsOf(s.byIp, d) && !Answered(ips, ip) ensures ip in IpsIn(diff.removed) {
      assert forall i | 0 <= i < |es| :: es[i].ip == ips[i].0;
      assert ip in Only(s.byIp, Withdrawn(s.byIp, d, es));
      var i :| 0 <= i < |diff.removed| && diff.removed[i] == s.byIp[ip];
    }
  }

  lemma ExpiredAreListed(expired: seq<Entry>, m: IpMap, now: nat)
    requires Keyed(m) && Lists(expired, Only(m, m.Keys - Live(m, now).Keys))
    ensures forall ip | ip in m && ip !in Live(m, now) :: ip in IpsIn(expired)
  {
    forall ip | ip in m && ip !in Live(m, now) ensures ip in IpsIn(expired) {
      assert ip in Only(m, m.Keys - Live(m, now).Keys);
      var i :| 0 <= i < |expired| && expired[i] == m[ip];
    }
  }

  lemma NothingExpired(m: IpMap, now: nat)
    requires m.Keys - Live(m, now).Keys == {}
    ensures Live(m, now) == m
  {
    forall ip | ip in m ensures ip in Live(m, now) {
      assert ip !in m.Keys - Live(m, now).Keys;
    }
  }

  ghost function PlacementOf(session: SessionRoutes, table: RouteTable): Placement
    reads session, table
  {
    Placement(session.domainRoutes, table.accepted)
  }

  lemma RoutesAreLive(session: SessionRoutes, table: RouteTable)
    requires session.Valid(table)
    ensures AllPlaced(PlacementOf(session, table))
    ensures forall ip | ip in session.domainRoutes :: session.domainRoutes[ip].handle in table.routes
  {
    HeldIsLive(session.wgHandles, session.splitHandles, session.domainRoutes, table.routes);
  }

  lemma AnswerPlacesNothing(session: SessionRoutes, table: RouteTable, records: Answer, rule: Option<Rule>, cfg: Config,
                            now: nat, policy: RoutePolicy)
    requires session.Valid(table)
    ensures var p := PlacementOf(session, table);
            rule.Some? ==> PlacesAnswer(p, p, records, rule.value.target, cfg, now, IndexOr0(policy.tunnelIf),
                                        IndexOr0(policy.physicalIf))
  {
    RoutesAreLive(session, table);
  }

  class DomainRoutingManager {
    var store: DomainRouteStore
    const cache: DomainCache

    /** What every call keeps, whatever its arguments. */
    ghost predicate Sound(session: SessionRoutes, table: RouteTable)
      reads this, store, session, table
    {
      store.Indexed() && session.Valid(table)
    }

    /** Store and routes are in agreement besides. */
    ghost predicate Valid(session: SessionRoutes, table: RouteTable)
      reads this, store, session, table
    {
      Sound(session, table) && Agreement(store.byIp, session.domainRoutes)
    }

    /** Starts from what a previous run persisted, if it can be loaded, and then tells the engine. */
    constructor (config: Config, rules: seq<Rule>, persisted: Option<Persisted>, engineFree: bool, now: nat)
      ensures fresh(store) && fresh(cache) && store.Indexed() && store.config == config
      ensures persisted.Some? && persisted.value.version == 1 ==>
                forall before :: Step(config, before, Load(persisted.value, now), store.State())
      ensures persisted.Some? && persisted.value.version == 1 && engineFree ==>
                forall ip :: Lookup(cache.State(), ip, now) == StoreLookup(store.byIp, ip, now)
      ensures !(persisted.Some? && persisted.value.version == 1) ==>
                store.State() == StoreState([], map[], map[], 0) && cache.State() == EMPTY_CACHE
    {
      store := new DomainRouteStore(config);
      cache := new DomainCache(rules);
      new;
      if persisted.Some? {
        var loaded := DomainRouteStore.LoadPersisted(persisted.value, config, now);
        if loaded.Ok? {
          store := loaded.value;
          SyncEngine(engineFree, now);
        }
      }
    }

    /** Copies the store into the engine's cache, unless the engine is busy. */
    method SyncEngine(engineFree: bool, now: nat)
      requires store.Indexed()
      modifies cache`resolved, cache`ipIndex
      ensures engineFree ==> forall ip :: Lookup(cache.State(), ip, now) == StoreLookup(store.byIp, ip, now)
    {
      if engineFree {
        var order := AnyOrder(store.byIp.Keys);
        SyncDomainCache(store, cache, order, now);
        forall ip ensures Lookup(cache.State(), ip, now) == StoreLookup(store.byIp, ip, now) {
          SyncAgreesAtOnce(store.byIp, order, now, ip);
        }
      }
    }

    method RebuildRules(rules: seq<Rule>, session: SessionRoutes, table: RouteTable, engineFree: bool, now: nat)
      requires Sound(session, table)
      modifies store, cache
      ensures Sound(session, table) && (old(Valid(session, table)) ==> Valid(session, table))
      ensures store.rules == StableSort(rules, BY_PRIORITY)
      ensures store.byIp == Ruled(store.rules, old(store.byIp))
      ensures engineFree ==> forall ip :: Lookup(cache.State(), ip, now) == StoreLookup(store.byIp, ip, now)
    {
      store.SetRules(rules);
      var _ := store.PruneUnmatchedRules();
      SyncEngine(engineFree, now);
    }

    /** Installs routes for entries, ignoring failures, as far as the session goes. */
    method InstallAll(entries: seq<Entry>, session: SessionRoutes, table: RouteTable, tunnelIf: nat, physicalIf: nat)
      requires session.Valid(table)
      modifies session`domainRoutes, table
      ensures session.Valid(table) && session.Foreign(table) == old(session.Foreign(table))
      ensures Installed(old(session.domainRoutes), session.domainRoutes, entries)
      ensures Places(old(PlacementOf(session, table)), PlacementOf(session, table), entries, tunnelIf, physicalIf)
      ensures table.refusals >= old(table.refusals)
      ensures table.refusals == old(table.refusals) ==> Routed(session.domainRoutes, entries)
    {
      hide Holds, Own, Installed, IpsIn, Places, AllPlaced;
      InstalledNothing(session.domainRoutes);
      RoutesAreLive(session, table);
      PlacesNothing(PlacementOf(session, table), tunnelIf, physicalIf);
      for k := 0 to |entries|
        invariant session.Valid(table) && session.Foreign(table) == old(session.Foreign(table))
        invariant Installed(old(session.domainRoutes), session.domainRoutes, entries[..k])
        invariant Places(old(PlacementOf(session, table)), PlacementOf(session, table), entries[..k], tunnelIf,
                         physicalIf)
        invariant table.refusals >= old(table.refusals)
        invariant table.refusals == old(table.refusals) ==> Routed(session.domainRoutes, entries[..k])
      {
        hide Routed, SameAccepted;
        ghost var before, placed, live := session.domainRoutes, PlacementOf(session, table), table.routes;
        var e := entries[k];
        RoutesAreLive(session, table);
        var _ := session.InstallDomainRoute(table, e.ip, e.target, tunnelIf, physicalIf, e.expiresAt);
        TakeStep(entries, k + 1);
        InstalledNext(old(session.domainRoutes), before, session.domainRoutes, entries[..k], e);
        PlacesNext(old(PlacementOf(session, table)), placed, PlacementOf(session, table), live, entries[..k], e,
                   tunnelIf, physicalIf);
        if table.refusals == old(table.refusals) {
          RoutedNext(before, session.domainRoutes, entries[..k], e);
        }
      }
      assert entries[..|entries|] == entries;
    }

    method RemoveAll(entries: seq<Entry>, session: SessionRoutes, table: RouteTable)
      requires session.Valid(table)
      modifies session`domainRoutes, table`routes, table`refusals
      ensures session.Valid(table) && session.Foreign(table) == old(session.Foreign(table))
      ensures session.domainRoutes == old(session.domainRoutes) - IpsIn(entries)
      ensures table.refusals >= old(table.refusals)
    {
      hide Holds, Own;
      for k := 0 to |entries|
        invariant session.Valid(table) && session.Foreign(table) == old(session.Foreign(table))
        invariant session.domainRoutes == old(session.domainRoutes) - IpsIn(entries[..k])
        invariant table.refusals >= old(table.refusals)
      {
        var _ := session.RemoveDomainRoute(table, entries[k].ip);
        TakeStep(entries, k + 1);
        IpsInAppend(entries[..k], entries[k]);
      }
      assert entries[..|entries|] == entries;
    }

    /** A DNS answer: cached if a rule covers the domain, copied to the engine, and turned into host routes. */
    method OnDnsResponse(domain: string, records: Answer, session: SessionRoutes, table: RouteTable,
                         policy: RoutePolicy, engineFree: bool, now: nat)
      requires Sound(session, table)
      modifies store, cache, session`domainRoutes, table
      ensures Sound(session, table) && session.Foreign(table) == old(session.Foreign(table))
      ensures forall configured: seq<Rule> | old(store.rules) == StableSort(configured, DomainNames.BY_PRIORITY) ::
                IsLeast(configured, DomainNames.BY_PRIORITY, Covers(Normalize(domain)),
                        RuleFor(old(store.rules), domain))
      ensures IsChosen(old(store.rules), domain, RuleFor(old(store.rules), domain))
      ensures records == [] || RuleFor(old(store.rules), domain).None? ==>
                store.State() == old(store.State()) && PlacementOf(session, table) == old(PlacementOf(session, table))
      ensures records != [] && RuleFor(old(store.rules), domain).Some? ==>
                var rule := RuleFor(old(store.rules), domain).value;
                && Step(store.config, old(store.State()), Resolve(domain, records, rule, now), store.State())
                && (engineFree ==> forall ip :: Lookup(cache.State(), ip, now) == StoreLookup(store.byIp, ip, now))
                && (HasInterface(policy) && table.refusals == old(table.refusals) ==>
                      NewlyRouted(old(store.byIp), records, rule.target, session.domainRoutes))
                && (HasInterface(policy) ==>
                      forall ip | ip in IpsOf(old(store.byIp), Normalize(domain)) && !Answered(records, ip) ::
                        ip !in session.domainRoutes)
      ensures !HasInterface(policy) ==> PlacementOf(session, table) == old(PlacementOf(session, table))
      ensures RuleFor(old(store.rules), domain).Some? ==>
                PlacesAnswer(old(PlacementOf(session, table)), PlacementOf(session, table), records,
                             RuleFor(old(store.rules), domain).value.target, store.config, now,
                             IndexOr0(policy.tunnelIf), IndexOr0(policy.physicalIf))
      ensures var clash := old(Clashes(store.rules, domain, records, policy, session.domainRoutes));
              old(Valid(session, table)) ==>
                && (!clash ==> Valid(session, table))
                && (clash && Uncapped(store.config, old(store.State()), domain, records, now) ==>
                      !Valid(session, table))
    {
      hide Agree, Holds, Own, Step, DiffIsRight, Agreement, Installed, IsLeast, StableSort, Routed, NewlyRouted,
          Uncapped, Places, PlacesAnswer, IsChosen;
      hide MinByKey;
      AnswerPlacesNothing(session, table, records, RuleFor(store.rules, domain), store.config, now, policy);
      RuleForIsLeast(store.rules, domain);
      if records == [] { return; }
      var matched := store.MatchDomain(domain);
      if matched.None? { return; }
      var rule := matched.value;
      var diff := store.ApplyResolved(domain, records, rule, now);
      ghost var held, now' := old(store.State()), store.State();
      SyncEngine(engineFree, now);
      var tunnelIf := if policy.tunnelIf.Some? then policy.tunnelIf.value else 0;
      var physicalIf := if policy.physicalIf.Some? then policy.physicalIf.value else 0;
      if tunnelIf != 0 || physicalIf != 0 {
        InstallAll(diff.added, session, table, tunnelIf, physicalIf);
        ghost var installed := session.domainRoutes;
        RemoveAll(diff.removed, session, table);
        WithdrawnAreRemoved(store.config, held, domain, records, rule, now, now', diff);
        InstalledServesAnswer(store.config, held, domain, records, rule, now, now', diff,
                              old(PlacementOf(session, table)), Placement(installed, table.accepted),
                              PlacementOf(session, table), tunnelIf, physicalIf);
        if table.refusals == old(table.refusals) {
          AnsweredAreRouted(store.config, held, domain, records, rule, now, now', diff, installed,
                            session.domainRoutes);
        }
        if old(Valid(session, table)) {
          ResolvedKeepsAgreement(store.config, held, domain, records, rule, now, now', diff,
                                 old(session.domainRoutes), installed, session.domainRoutes);
        }
      } else if old(Valid(session, table)) {
        if !Clashes(held.rules, domain, records, policy, session.domainRoutes) {
          UntouchedKeepsAgreement(store.config, held, domain, records, rule, now, now', diff, session.domainRoutes);
        }
        if Uncapped(store.config, held, domain, records, now) {
          ClashBreaksAgreement(store.config, held, domain, records, rule, now, now', diff, session.domainRoutes);
        }
      }
    }

    method PurgeExpired(session: SessionRoutes, table: RouteTable, engineFree: bool, now: nat)
      requires Sound(session, table)
      modifies store, cache, session`domainRoutes, table`routes, table`refusals
      ensures Sound(session, table) && (old(Valid(session, table)) ==> Valid(session, table))
      ensures session.Foreign(table) == old(session.Foreign(table))
      ensures store.byIp == Live(old(store.byIp), now)
      ensures forall ip | ip in session.domainRoutes ::
                && ip in old(session.domainRoutes) && session.domainRoutes[ip] == old(session.domainRoutes)[ip]
                && (ip in old(store.byIp) ==> ip in store.byIp)
      ensures store.byIp == old(store.byIp) && table.refusals == old(table.refusals) ==>
                forall ip | ip in session.domainRoutes :: session.domainRoutes[ip].expiresAt > now
      ensures engineFree && store.byIp != old(store.byIp) ==>
                forall ip :: Lookup(cache.State(), ip, now) == StoreLookup(store.byIp, ip, now)
    {
      hide Holds, Own;
      var expired := store.PurgeExpired(now);
      if expired != [] {
        assert expired[0].ip in old(store.byIp) && expired[0].ip !in store.byIp;
        RemoveAll(expired, session, table);
        ExpiredAreListed(expired, old(store.byIp), now);
        SyncEngine(engineFree, now);
      } else {
        ListsNothing([], old(store.byIp), old(store.byIp).Keys - Live(old(store.byIp), now).Keys);
        NothingExpired(old(store.byIp), now);
        var _ := session.PurgeExpiredDomainRoutes(table, now);
      }
    }

    method Clear(session: SessionRoutes, table: RouteTable, engineFree: bool, now: nat)
      requires Sound(session, table)
      modifies store, cache, session`domainRoutes, table`routes, table`refusals
      ensures Valid(session, table) && session.Foreign(table) == old(session.Foreign(table))
      ensures store.byIp == map[]
      ensures forall ip | ip in session.domainRoutes ::
                ip in old(session.domainRoutes) && session.domainRoutes[ip] == old(session.domainRoutes)[ip]
      ensures table.refusals == old(table.refusals) ==> session.domainRoutes == map[]
      ensures engineFree ==> forall ip :: Lookup(cache.State(), ip, now) == None
    {
      hide Holds, Own;
      store.Clear();
      var _ := session.ClearDomainRoutes(table);
      SyncEngine(engineFree, now);
    }

    method ReinstallRoutesFromCache(session: SessionRoutes, table: RouteTable, policy: RoutePolicy)
      requires Sound(session, table)
      modifies session`domainRoutes, table
      ensures Sound(session, table) && (HasInterface(policy) || old(Valid(session, table)) ==> Valid(session, table))
      ensures session.Foreign(table) == old(session.Foreign(table))
      ensures !HasInterface(policy) ==> session.domainRoutes == old(session.domainRoutes)
      ensures HasInterface(policy) ==>
                exists entries :: Lists(entries, store.byIp) &&
                    Installed(old(session.domainRoutes), session.domainRoutes, entries)
      ensures PlacesHeld(old(PlacementOf(session, table)), PlacementOf(session, table), store.byIp,
                         IndexOr0(policy.tunnelIf), IndexOr0(policy.physicalIf))
      ensures HasInterface(policy) && table.refusals == old(table.refusals) ==>
                forall ip | ip in store.byIp :: ip in session.domainRoutes <==> store.byIp[ip].target != Block
    {
      hide Holds, Own;
      var tunnelIf := if policy.tunnelIf.Some? then policy.tunnelIf.value else 0;
      var physicalIf := if policy.physicalIf.Some? then policy.physicalIf.value else 0;
      RoutesAreLive(session, table);
      if tunnelIf == 0 && physicalIf == 0 { return; }
      hide Places, PlacesHeld;
      var entries := store.Entries();
      InstallAll(entries, session, table, tunnelIf, physicalIf);
      ListedServesHeld(store.byIp, entries, old(PlacementOf(session, table)), PlacementOf(session, table), tunnelIf,
                       physicalIf);
      ReinstallBringsAgreement(store.byIp, entries, old(session.domainRoutes), session.domainRoutes);
      if table.refusals == old(table.refusals) {
        ListedAreRouted(store.byIp, entries, session.domainRoutes);
      }
    }
  }

  /** What can happen to a manager, in any order. */
  datatype Event =
    | DnsResponse(domain: string, records: Answer, policy: RoutePolicy)
    | Purge
    | ClearAll
    | Rebuild(rules: seq<Rule>)
    | Reinstall(policy: RoutePolicy)

  /** The event came with a policy whose indexes give the route of the address its interface and metric. */
  ghost predicate PlacedBy(event: Event, after: Placement, ip: IpAddr)
    requires ip in after.routes
  {
    && (event.DnsResponse? || event.Reinstall?)
    && var r, policy := after.routes[ip], event.policy;
       r.handle in after.accepted
       && IsPlaced(r.target, after.accepted[r.handle], IndexOr0(policy.tunnelIf), IndexOr0(policy.physicalIf))
  }

  ghost predicate PlacesByEvent(before: Placement, after: Placement, event: Event)
  {
    forall ip | ip in after.routes :: KeepsRoute(before, after, ip) || PlacedBy(event, after, ip)
  }

  /** Every route is one from the start, or was placed by one of the events. */
  ghost predicate PlacesByEvents(start: Placement, after: Placement, events: seq<Event>)
  {
    forall ip | ip in after.routes ::
      KeepsRoute(start, after, ip) || exists k | 0 <= k < |events| :: PlacedBy(events[k], after, ip)
  }

  lemma PlacesByNext(start: Placement, now: Placement, after: Placement, events: seq<Event>, k: nat)
    requires k < |events| && PlacesByEvents(start, now, events[..k]) && PlacesByEvent(now, after, events[k])
    ensures PlacesByEvents(start, after, events[..k + 1])
  {
    var sofar := events[..k + 1];
    forall ip | ip in after.routes && !KeepsRoute(start, after, ip)
      ensures exists j | 0 <= j < |sofar| :: PlacedBy(sofar[j], after, ip)
    {
      if KeepsRoute(now, after, ip) {
        assert !KeepsRoute(start, now, ip);
        var j :| 0 <= j < k && PlacedBy(events[..k][j], now, ip);
        assert PlacedBy(sofar[j], after, ip);
      } else {
        assert PlacedBy(sofar[k], after, ip);
      }
    }
  }

  lemma AnswerIsEvent(before: Placement, after: Placement, event: Event, records: Answer, target: RouteTarget,
                      cfg: Config, now: nat)
    requires event.DnsResponse?
    requires PlacesAnswer(before, after, records, target, cfg, now, IndexOr0(event.policy.tunnelIf),
                          IndexOr0(event.policy.physicalIf))
    ensures PlacesByEvent(before, after, event)
  {
  }

  /** One event, and whether it was an answer that clashed with the routes. */
  method Handle(manager: DomainRoutingManager, session: SessionRoutes, table: RouteTable, event: Event,
                engineFree: bool, now: nat)
    returns (ghost clash: bool)
    requires manager.Sound(session, table)
    modifies manager.store, manager.cache, session`domainRoutes, table
    ensures manager.Sound(session, table) && session.Foreign(table) == old(session.Foreign(table))
    ensures clash ==
            (&& event.DnsResponse?
             && old(Clashes(manager.store.rules, event.domain, event.records, event.policy, session.domainRoutes)))
    ensures clash ==> event.DnsResponse? && !HasInterface(event.policy)
    ensures old(manager.Valid(session, table)) && !clash ==> manager.Valid(session, table)
    ensures PlacesByEvent(old(PlacementOf(session, table)), PlacementOf(session, table), event)
    ensures event.ClearAll? || (event.Reinstall? && HasInterface(event.policy)) ==> manager.Valid(session, table)
  {
    hide Holds, Own, Agree, Agreement, Step, StableSort, IsLeast, Uncapped, NewlyRouted, Routed, MinByKey, Installed,
        PlacesAnswer;
    clash := false;
    RoutesAreLive(session, table);
    ghost var rule, placed := if event.DnsResponse? then RuleFor(manager.store.rules, event.domain) else None,
        PlacementOf(session, table);
    match event
    case DnsResponse(domain, records, policy) =>
      clash := Clashes(manager.store.rules, domain, records, policy, session.domainRoutes);
      manager.OnDnsResponse(domain, records, session, table, policy, engineFree, now);
      if rule.Some? {
        AnswerIsEvent(placed, PlacementOf(session, table), event, records, rule.value.target, manager.store.config,
                      now);
      }
    case Purge => manager.PurgeExpired(session, table, engineFree, now);
    case ClearAll => manager.Clear(session, table, engineFree, now);
    case Rebuild(rules) => manager.RebuildRules(rules, session, table, engineFree, now);
    case Reinstall(policy) => manager.ReinstallRoutesFromCache(session, table, policy);
  }

  /** Some clash has happened since the store was last emptied or the routes last reinstalled. */
  predicate Unsettled(events: seq<Event>, clashes: seq<bool>)
    requires |events| == |clashes|
  {
    if events == [] then false
    else
      var n := |events| - 1;
      match events[n]
      case DnsResponse(_, _, _) => Unsettled(events[..n], clashes[..n]) || clashes[n]
      case ClearAll => false
      case Reinstall(policy) => !HasInterface(policy) && Unsettled(events[..n], clashes[..n])
      case _ => Unsettled(events[..n], clashes[..n])
  }

  /**
    Every run: no Block route exists and nobody else's routes change, whatever is
    evicted and whichever calls fail; every route is one from the start or is on
    the interface and has the metric that the policy of some event gives its
    target; and an address both held and routed has one target, unless an answer
    without an interface clashed with the routes and nothing has settled it since.
    An answer with an interface never clashes.
  */
  method Run(manager: DomainRoutingManager, session: SessionRoutes, table: RouteTable, events: seq<Event>,
             times: seq<nat>, busy: seq<bool>) returns (ghost clashes: seq<bool>)
    requires |events| == |times| == |busy| && manager.Valid(session, table)
    modifies manager.store, manager.cache, session`domainRoutes, table
    ensures manager.Sound(session, table) && session.Foreign(table) == old(session.Foreign(table))
    ensures forall ip | ip in session.domainRoutes :: session.domainRoutes[ip].target != Block
    ensures PlacesByEvents(old(PlacementOf(session, table)), PlacementOf(session, table), events)
    ensures |clashes| == |events| && (!Unsettled(events, clashes) ==> manager.Valid(session, table))
    ensures forall k | 0 <= k < |events| && clashes[k] :: events[k].DnsResponse? && !HasInterface(events[k].policy)
    ensures (forall k | 0 <= k < |events| && events[k].DnsResponse? :: HasInterface(events[k].policy)) ==>
              manager.Valid(session, table)
  {
    hide *;
    RunStarts(manager, session, table);
    clashes := [];
    assert events[..0] == [];
    for k := 0 to |events|
      invariant manager.Sound(session, table) && session.Foreign(table) == old(session.Foreign(table))
      invariant PlacesByEvents(old(PlacementOf(session, table)), PlacementOf(session, table), events[..k])
      invariant |clashes| == k && (!Unsettled(events[..k], clashes) ==> manager.Valid(session, table))
      invariant forall j | 0 <= j < k && clashes[j] :: events[j].DnsResponse? && !HasInterface(events[j].policy)
    {
      TakeStep(events, k + 1);
      ghost var placed := PlacementOf(session, table);
      ghost var clash := Handle(manager, session, table, events[k], !busy[k], times[k]);
      PlacesByNext(old(PlacementOf(session, table)), placed, PlacementOf(session, table), events, k);
      UnsettledNext(events[..k], clashes, events[k], clash);
      clashes := clashes + [clash];
    }
    assert events[..|events|] == events;
    QuietIsSettled(events, clashes);
    NeverBlock(manager, session, table);
  }

  lemma RunStarts(manager: DomainRoutingManager, session: SessionRoutes, table: RouteTable)
    requires manager.Valid(session, table)
    ensures manager.Sound(session, table) && !Unsettled([], [])
    ensures PlacesByEvents(PlacementOf(session, table), PlacementOf(session, table), [])
  {
    RoutesAreLive(session, table);
  }

  lemma NeverBlock(manager: DomainRoutingManager, session: SessionRoutes, table: RouteTable)
    requires manager.Sound(session, table)
    ensures forall ip | ip in session.domainRoutes :: session.domainRoutes[ip].target != Block
  {
  }

  lemma UnsettledNext(events: seq<Event>, clashes: seq<bool>, event: Event, clash: bool)
    requires |events| == |clashes|
    requires clash ==> event.DnsResponse?
    ensures Unsettled(events + [event], clashes + [clash]) <==>
            || clash
            || (!event.ClearAll? && !(event.Reinstall? && HasInterface(event.policy)) && Unsettled(events, clashes))
  {
    assert (events + [event])[..|events|] == events && (clashes + [clash])[..|clashes|] == clashes;
  }

  lemma {:induction false} QuietIsSettled(events: seq<Event>, clashes: seq<bool>)
    requires |events| == |clashes|
    requires forall k | 0 <= k < |events| && clashes[k] :: events[k].DnsResponse? && !HasInterface(events[k].policy)
    ensures (forall k | 0 <= k < |events| && events[k].DnsResponse? :: HasInterface(events[k].policy)) ==>
        !Unsettled(events, clashes)
  {
    if events != [] { QuietIsSettled(events[..|events| - 1], clashes[..|events| - 1]); }
  }

  lemma HasInterfaceIff(policy: RoutePolicy)
    ensures HasInterface(policy) <==>
            exists i: nat :: i > 0 && (policy.tunnelIf == Some(i) || policy.physicalIf == Some(i))
  {
    if policy.tunnelIf.Some? { assert policy.tunnelIf == Some(policy.tunnelIf.value); }
    if policy.physicalIf.Some? { assert policy.physicalIf == Some(policy.physicalIf.value); }
  }

  predicate HasInterface(policy: RoutePolicy)
  {
    (policy.tunnelIf.Some? && policy.tunnelIf.value != 0) || (policy.physicalIf.Some? && policy.physicalIf.value != 0)
  }

  lemma InstalledNothing(routes: map<IpAddr, DomainRoute>)
    ensures Installed(routes, routes, [])
  {
    assert IpsIn([]) == {};
  }

  /** Reinstalling everything held brings the routes into agreement, whatever they were before. */
  lemma ReinstallBringsAgreement(m: IpMap, entries: seq<Entry>, before: map<IpAddr, DomainRoute>,
                                 after: map<IpAddr, DomainRoute>)
    requires Keyed(m) && Lists(entries, m) && Installed(before, after, entries)
    ensures Agreement(m, after)
  {
    forall ip | ip in m && ip in after ensures m[ip].target == after[ip].target {
      var k :| 0 <= k < |entries| && entries[k] == m[ip];
      assert ip in IpsIn(entries);
      var e :| e in entries && e.ip == ip && after[ip].target == e.target;
      var i :| 0 <= i < |entries| && entries[i] == e;
    }
  }

  lemma ResolvedKeepsAgreement(cfg: Config, s: StoreState, domain: string, ips: Answer, rule: Rule, now: nat,
                               s': StoreState, diff: Diff, before: map<IpAddr, DomainRoute>,
                               installed: map<IpAddr, DomainRoute>, after: map<IpAddr, DomainRoute>)
    requires DiffIsRight(cfg, s, domain, ips, rule, now, s', diff) && Agreement(s.byIp, before)
    requires Installed(before, installed, diff.added) && after == installed - IpsIn(diff.removed)
    ensures Agreement(s'.byIp, after)
  {
    var es, d := Wanted(domain, ips, rule, cfg, now), Normalize(domain);
    forall e | e in diff.added ensures e in es {
      assert e in multiset(diff.added) + multiset(diff.refreshed);
      assert e in multiset(es);
    }
    AnswerKeepsAgreement(s.byIp, s'.byIp, es, d, rule, diff.added, before, installed);
    ShrinkingKeepsAgreement(s'.byIp, s'.byIp, installed, after);
  }
}
