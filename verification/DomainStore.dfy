/** The domain route store: a TTL cache of resolved addresses under two caps. */
module DomainStore {

  import opened Common
  import opened DomainNames
  import opened Priority
  import opened DomainStoreSpec

  class DomainRouteStore {
    var rules: seq<Rule>
    var byIp: IpMap
    var byDomain: DomainMap
    var generation: nat
    const config: Config

    ghost function State(): StoreState
      reads this
    {
      StoreState(rules, byIp, byDomain, generation)
    }

    /** The two indexes agree; this much survives every call, whatever its arguments. */
    ghost predicate Indexed()
      reads this
    {
      Agree(byIp, byDomain)
    }

    constructor (config: Config)
      ensures this.config == config && State() == StoreState([], map[], map[], 0)
      ensures Indexed() && Inv(config, State())
    {
      this.config := config;
      rules, byIp, byDomain, generation := [], map[], map[], 0;
      new;
      assert Domains(byIp) == {};
    }

    method BumpGeneration()
      modifies this`generation
      ensures generation == Bumped(old(generation))
      ensures old(generation) < 0xFFFF_FFFF_FFFF_FFFF ==> generation == old(generation) + 1
      ensures old(generation) >= 0xFFFF_FFFF_FFFF_FFFF ==> generation == old(generation)
    {
      generation := Bumped(generation);
    }

    method SetRules(rules: seq<Rule>)
      modifies this`rules, this`generation
      ensures Step(config, old(State()), Op.SetRules(rules), State())
    {
      this.rules := StableSort(rules, BY_PRIORITY);
      BumpGeneration();
    }

    /**
      Whatever configuration the rules were set from: its rule of least priority that
      covers the domain, earliest in it.
    */
    method MatchDomain(domain: string) returns (r: Option<Rule>)
      ensures r == MinByKey(rules, BY_PRIORITY, Covers(Normalize(domain)))
      ensures forall configured: seq<Rule> | rules == StableSort(configured, BY_PRIORITY) ::
                IsLeast(configured, BY_PRIORITY, Covers(Normalize(domain)), r)
      ensures IsChosen(rules, domain, r)
    {
      NormalizeTwice(domain);
      r := MinByKey(rules, BY_PRIORITY, Covers(Normalize(domain)));
      MinByKeyIsLeast(rules, BY_PRIORITY, Covers(Normalize(domain)));
      LeastIsChosen(rules, Normalize(domain), r);
      forall configured: seq<Rule> | rules == StableSort(configured, BY_PRIORITY)
        ensures IsLeast(configured, BY_PRIORITY, Covers(Normalize(domain)), r)
      {
        SortedSearchIsLeast(configured, BY_PRIORITY, Covers(Normalize(domain)));
      }
    }

    function EntryForIp(ip: IpAddr, now: nat): (r: Option<Entry>)
      reads this
      ensures r.Some? <==> ip in Live(byIp, now)
      ensures r.Some? ==> r.value == Live(byIp, now)[ip]
    {
      if ip in byIp && byIp[ip].expiresAt > now then Some(byIp[ip]) else None
    }

    function LookupIp(ip: IpAddr, now: nat): (r: Option<RouteTarget>)
      reads this
      ensures r == if ip in Live(byIp, now) then Some(Live(byIp, now)[ip].target) else None
    {
      if ip in byIp && byIp[ip].expiresAt > now then Some(byIp[ip].target) else None
    }

    method RemoveIp(ip: IpAddr) returns (r: Option<Entry>)
      requires Indexed()
      modifies this`byIp, this`byDomain
      ensures Indexed() && Empties(byDomain) == old(Empties(byDomain))
      ensures byIp == old(byIp) - {ip}
      ensures r == if ip in old(byIp) then Some(old(byIp)[ip]) else None
      ensures ip in old(byIp) ==> |byIp| == |old(byIp)| - 1
    {
      if ip !in byIp { return None; }
      var entry := byIp[ip];
      UnlistedAgrees(byIp, byDomain, ip);
      byIp := byIp - {ip};
      byDomain := Unlisted(byDomain, entry.domain, ip);
      return Some(entry);
    }

    /** Removes each of a set of addresses, in any order, and reports what was removed. */
    method RemoveEach(victims: set<IpAddr>) returns (removed: seq<Entry>)
      requires Indexed() && victims <= byIp.Keys
      modifies this`byIp, this`byDomain
      ensures Indexed() && Empties(byDomain) == old(Empties(byDomain))
      ensures byIp == old(byIp) - victims
      ensures Lists(removed, Only(old(byIp), victims))
    {
      removed := [];
      var rest := victims;
      while rest != {}
        invariant rest <= victims && Indexed() && Empties(byDomain) == old(Empties(byDomain))
        invariant byIp == old(byIp) - (victims - rest)
        invariant Lists(removed, Only(old(byIp), victims - rest))
        decreases rest
      {
        var ip :| ip in rest;
        var entry := RemoveIp(ip);
        ListsNext(removed, old(byIp), victims - rest, ip);
        RemoveOneMore(old(byIp), victims, rest, ip);
        rest := rest - {ip};
        removed := removed + [entry.value];
      }
      assert victims - rest == victims;
    }

    method PurgeExpired(now: nat) returns (removed: seq<Entry>)
      requires Indexed()
      modifies this`byIp, this`byDomain
      ensures Indexed() && Step(config, old(State()), Purge(now), State())
      ensures forall ip :: ip in byIp <==> ip in old(byIp) && now < old(byIp)[ip].expiresAt
      ensures Lists(removed, Only(old(byIp), old(byIp).Keys - Live(old(byIp), now).Keys))
    {
      var expired := set ip | ip in byIp && byIp[ip].expiresAt <= now;
      removed := RemoveEach(expired);
      assert expired == old(byIp).Keys - Live(old(byIp), now).Keys;
      assert byIp == Live(old(byIp), now);
    }

    /** Drops entries whose pattern and target no longer belong to any rule. */
    method PruneUnmatchedRules() returns (removed: seq<Entry>)
      requires Indexed()
      modifies this`byIp, this`byDomain
      ensures Indexed() && Step(config, old(State()), Prune, State())
      ensures forall ip :: ip in byIp <==>
                && ip in old(byIp)
                && exists r | r in rules :: r.pattern == old(byIp)[ip].pattern && r.target == old(byIp)[ip].target
      ensures Lists(removed, Only(old(byIp), old(byIp).Keys - Ruled(rules, old(byIp)).Keys))
    {
      var stale := set ip | ip in byIp && !StillRuled(rules, byIp[ip]);
      removed := RemoveEach(stale);
      assert stale == old(byIp).Keys - Ruled(rules, old(byIp)).Keys;
      assert byIp == Ruled(rules, old(byIp));
      forall e: Entry ensures StillRuled(rules, e) <==>
          exists r | r in rules :: r.pattern == e.pattern && r.target == e.target
      {
        if r :| r in rules && r.pattern == e.pattern && r.target == e.target {
          var i :| 0 <= i < |rules| && rules[i] == r;
        }
      }
    }

    method Clear()
      modifies this`byIp, this`byDomain, this`generation
      ensures Indexed() && Step(config, old(State()), Op.Clear, State())
    {
      byIp := map[];
      byDomain := map[];
      BumpGeneration();
    }

    /** Takes a domain out of both indexes. */
    method DropDomain(name: string)
      requires Indexed() && name in byDomain && byDomain[name] != {}
      modifies this`byIp, this`byDomain
      ensures Indexed() && Empties(byDomain) == old(Empties(byDomain))
      ensures byIp == old(byIp) - IpsOf(old(byIp), name)
      ensures byDomain == old(byDomain) - {name} && |byDomain| == |old(byDomain)| - 1
    {
      DropAgrees(byIp, byDomain, name);
      hide Agree, Empties, IpsOf;
      var ips := byDomain[name];
      byDomain := byDomain - {name};
      var rest := ips;
      while rest != {}
        invariant rest <= ips && byIp == old(byIp) - (ips - rest) && byDomain == old(byDomain) - {name}
        decreases rest
      {
        var ip :| ip in rest;
        byIp := byIp - {ip};
        rest := rest - {ip};
      }
    }

    /** First loop of the eviction: by address. Which of several earliest entries goes is left open. */
    method EnforceIpCap()
      requires Indexed()
      modifies this`byIp, this`byDomain
      ensures Indexed() && Empties(byDomain) == old(Empties(byDomain))
      ensures IpsEvicted(config.maxIps, old(byIp), byIp)
    {
      hide Agree, Empties;
      while |byIp| > config.maxIps
        invariant Indexed() && Empties(byDomain) == old(Empties(byDomain))
        invariant Submap(byIp, old(byIp))
        invariant byIp == old(byIp) || |byIp| >= config.maxIps
        invariant forall ip, other | ip in old(byIp) && ip !in byIp && other in byIp ::
                    old(byIp)[ip].expiresAt <= byIp[other].expiresAt
        decreases |byIp|
      {
        SomethingExpiresFirst(byIp);
        var oldest :| oldest in byIp && forall other | other in byIp :: byIp[oldest].expiresAt <= byIp[other].expiresAt;
        var _ := RemoveIp(oldest);
      }
      SubmapCounts(byIp, old(byIp));
    }

    /** Second loop: by domain; it gives up when no listed domain has an address left. */
    method EnforceDomainCap()
      requires Indexed()
      modifies this`byIp, this`byDomain
      ensures Indexed() && Empties(byDomain) == old(Empties(byDomain))
      ensures DomainsEvicted(config.maxDomains, |Empties(byDomain)|, old(byIp), byIp)
    {
      while |byDomain| > config.maxDomains
        invariant Indexed() && Empties(byDomain) == old(Empties(byDomain))
        invariant Submap(byIp, old(byIp))
        invariant forall ip | ip in old(byIp) && old(byIp)[ip].domain in Domains(byIp) :: ip in byIp
        invariant byIp == old(byIp) || |byDomain| >= config.maxDomains
        invariant forall name | name in Domains(old(byIp)) &&
            name !in Domains(byIp) :: OwnsEarlier(old(byIp), name, byIp)
        decreases |byDomain|
      {
        if byIp == map[] { break; }
        ghost var before := byIp;
        EarliestDomainExists(byIp, byDomain);
        var victim :| victim in byDomain && exists ip | ip in byDomain[victim] ::
                        forall other | other in byIp :: byIp[ip].expiresAt <= byIp[other].expiresAt;
        ghost var first :| first in byDomain[victim] && ExpiresFirst(byIp, first);
        DropDomain(victim);
        DropKeepsOrder(old(byIp), before, byIp, victim, first);
      }
      DomainCount(byIp, byDomain);
    }

    method EnforceCaps()
      requires Indexed()
      modifies this`byIp, this`byDomain
      ensures Indexed() && Empties(byDomain) == old(Empties(byDomain))
      ensures Evicted(config, |Empties(byDomain)|, old(byIp), byIp)
    {
      EnforceIpCap();
      EnforceDomainCap();
    }

    method InsertEntry(entry: Entry)
      requires Indexed()
      modifies this`byIp, this`byDomain
      ensures Indexed() && Empties(byDomain) == old(Empties(byDomain)) - {entry.domain}
      ensures Evicted(config, |Empties(byDomain)|, old(byIp)[entry.ip := entry], byIp)
    {
      var ip, domain := entry.ip, entry.domain;
      if ip in byIp {
        UnlistedAgrees(byIp, byDomain, ip);
        var displaced := byIp[ip];
        byIp := byIp - {ip};
        byDomain := Unlisted(byDomain, displaced.domain, ip);
      }
      ListedAgrees(byIp, byDomain, entry);
      byIp := byIp[ip := entry];
      byDomain := Listed(byDomain, domain, ip);
      assert byIp == old(byIp)[ip := entry];
      EnforceCaps();
    }

    /** One address of an answer. */
    method ApplyOne(e: Entry) returns (isNew: bool)
      requires Indexed()
      modifies this`byIp, this`byDomain
      ensures Indexed() && Empties(byDomain) == old(Empties(byDomain)) - {e.domain}
      ensures AnswerStep(config, |Empties(byDomain)|, old(byIp), e, byIp)
      ensures isNew <==> !Refreshes(old(byIp), e)
    {
      if Refreshes(byIp, e) {
        byIp := byIp[e.ip := e];
        isNew := false;
      } else {
        InsertEntry(e);
        isNew := true;
      }
    }

    /** Applies a DNS answer for a domain. */
    method ApplyResolved(domain: string, ips: Answer, rule: Rule, now: nat) returns (diff: Diff)
      requires Indexed()
      modifies this`byIp, this`byDomain
      ensures Indexed() && Step(config, old(State()), Resolve(domain, ips, rule, now), State())
      ensures DiffIsRight(config, old(State()), domain, ips, rule, now, State(), diff)
      ensures HeldAsAnswered(config, byIp, domain, ips, rule, now)
      ensures MeetsNoCap(config, old(State()), domain, ips, rule, now) ==>
                forall ip, i: int, ttl: nat, later: nat |
                  LastAnswered(ips, ip, i) && IsBounded(ips[i].1, config.minTtl, config.maxTtl, ttl) ::
                  LookupIp(ip, later) == if later < now + ttl then Some(rule.target) else None
    {
      hide Agree, Progress, Step, DiffIsRight, Lists, Empties, IpsOf, IpsIn, Withdrawn, Wanted, Uniform,
          HeldAsAnswered, MeetsNoCap, LastAnswered, IsBounded;
      var name := Normalize(domain);
      var resolved := Wanted(domain, ips, rule, config, now);
      var newIps := IpsIn(resolved);
      var previous := if name in byDomain then byDomain[name] else {};
      PreviousIsIpsOf(byIp, byDomain, name);
      var removed := RemoveEach(previous - newIps);
      WithdrawnIs(old(byIp), name, resolved);
      WantedIsUniform(domain, ips, rule, config, now);
      var added, refreshed, trace := ApplyEach(resolved, name, rule, old(byIp));
      diff := Diff(added, removed, refreshed);
      ghost var applied := State();
      ghost var quiet := added == [] && removed == [] && refreshed == [];
      if added == [] && removed == [] && refreshed == [] {
        if name !in byDomain {
          byDomain := byDomain[name := {}];
        }
      }
      ResolveDone(config, old(State()), domain, ips, rule, now, trace, applied, diff, State());
      ResolvedMeans(config, old(State()), domain, ips, rule, now, State(), diff);
      assert old(State()).byIp == old(byIp) && State().byIp == byIp;
    }

    /** The loop of `ApplyResolved` over the answered addresses; `held` is the address index before the answer. */
    method ApplyEach(resolved: seq<Entry>, name: string, ghost rule: Rule, ghost held: IpMap)
      returns (added: seq<Entry>, refreshed: seq<Entry>, ghost trace: seq<IpMap>)
      requires Indexed() && byIp == held - Withdrawn(held, name, resolved) && Uniform(resolved, name, rule)
      modifies this`byIp, this`byDomain
      ensures Indexed() &&
          Empties(byDomain) == if resolved == [] then old(Empties(byDomain)) else old(Empties(byDomain)) - {name}
      ensures |trace| == |resolved| + 1 && trace[|resolved|] == byIp
      ensures Progress(config, |old(Empties(byDomain)) - {name}|, held, name, rule, resolved, trace, added, refreshed)
    {
      hide *;
      trace := [byIp];
      ghost var empties := Empties(byDomain);
      added, refreshed := [], [];
      ProgressStart(config, |empties - {name}|, held, name, rule, resolved);
      for k := 0 to |resolved|
        invariant Indexed() && Empties(byDomain) == if k == 0 then empties else empties - {name}
        invariant |trace| == k + 1 && trace[k] == byIp
        invariant Progress(config, |empties - {name}|, held, name, rule, resolved, trace, added, refreshed)
      {
        ghost var sofar := (added, refreshed);
        UniformAt(resolved, name, rule, k);
        var isNew := ApplyOne(resolved[k]);
        assert Empties(byDomain) == empties - {name};
        if isNew {
          added := added + [resolved[k]];
        } else {
          refreshed := refreshed + [resolved[k]];
        }
        ProgressNext(config, |empties - {name}|, held, name, rule, resolved, trace, byIp, sofar, (added, refreshed));
        trace := trace + [byIp];
      }
    }

    /** The entries; a hash map yields them in any order. */
    method Entries() returns (entries: seq<Entry>)
      requires Indexed()
      ensures Lists(entries, byIp)
    {
      var rest := byIp.Keys;
      entries := [];
      while rest != {}
        invariant rest <= byIp.Keys && Lists(entries, Only(byIp, byIp.Keys - rest))
        decreases rest
      {
        var ip :| ip in rest;
        ListsNext(entries, byIp, byIp.Keys - rest, ip);
        RemoveOneMore(byIp, byIp.Keys, rest, ip);
        entries := entries + [byIp[ip]];
        rest := rest - {ip};
      }
      assert Only(byIp, byIp.Keys - {}) == byIp;
    }

    method ToPersisted() returns (p: Persisted)
      requires Indexed()
      ensures p.version == 1 && p.generation == generation && Lists(p.entries, byIp)
    {
      var entries := Entries();
      p := Persisted(1, generation, entries);
    }

    static method LoadPersisted(p: Persisted, config: Config, now: nat) returns (r: Result<DomainRouteStore>)
      ensures r.Err? <==> p.version != 1
      ensures r.Ok? ==>
                && fresh(r.value) && r.value.config == config && r.value.Indexed()
                && forall before :: Step(config, before, Load(p, now), r.value.State())
    {
      hide Agree, Evicted, Empties, Unexpired, InsertStepAt, Step, Inv, IndexOf, Domains;
      if p.version != 1 { return Err("unsupported domain cache version"); }
      var store := new DomainRouteStore(config);
      store.generation := p.generation;
      ghost var trace: seq<IpMap> := [map[]];
      LoadStart(config, now);
      assert p.entries[..0] == [];
      for k := 0 to |p.entries|
        invariant fresh(store) && store.config == config && store.rules == [] && store.generation == p.generation
        invariant store.Indexed() && Empties(store.byDomain) == {}
        invariant InsertTrace(config, trace, Unexpired(p.entries[..k], now))
        invariant trace[0] == map[] && trace[|trace| - 1] == store.byIp
      {
        UnexpiredNext(p.entries, k, now);
        if p.entries[k].expiresAt > now {
          store.InsertEntry(p.entries[k]);
          assert Empties(store.byDomain) == {};
          InsertTraceNext(config, trace, Unexpired(p.entries[..k], now), p.entries[k], store.byIp);
          trace := trace + [store.byIp];
        }
      }
      assert p.entries[..|p.entries|] == p.entries;
      LoadDone(config, p, now, trace, store.State());
      return Ok(store);
    }
  }

  lemma LoadStart(cfg: Config, now: nat)
    ensures Unexpired([], now) == [] && InsertTrace(cfg, [map[]], []) && Empties(map[]) == {} && IndexOf(map[]) == map[]
  {
    assert Domains(map[]) == {};
  }

  lemma LoadDone(cfg: Config, p: Persisted, now: nat, trace: seq<IpMap>, s: StoreState)
    requires InsertTrace(cfg, trace, Unexpired(p.entries, now)) && trace[0] == map[] && trace[|trace| - 1] == s.byIp
    requires Agree(s.byIp, s.byDomain) && Empties(s.byDomain) == {} && s.rules == [] && s.generation == p.generation
    ensures forall before :: Step(cfg, before, Load(p, now), s)
  {
    hide Agree, Evicted, Empties, Unexpired, InsertStepAt;
  }

  lemma UnexpiredNext(es: seq<Entry>, k: nat, now: nat)
    requires k < |es|
    ensures Unexpired(es[..k + 1], now) ==
            if es[k].expiresAt > now then Unexpired(es[..k], now) + [es[k]] else Unexpired(es[..k], now)
  {
    TakeStep(es, k + 1);
  }

  /** Everything promised of an answer, after some of its addresses: the trace tells how many. */
  ghost predicate Progress(cfg: Config, listed: nat, held: IpMap, name: string, rule: Rule, es: seq<Entry>,
                           trace: seq<IpMap>, added: seq<Entry>, refreshed: seq<Entry>)
  {
    && AnswerTrace(cfg, listed, trace, es) && trace[0] == held - Withdrawn(held, name, es)
    && var k := |trace| - 1;
       && Tracked(held, trace[k], es, added, rule.target, k)
       && multiset(added) + multiset(refreshed) == multiset(es[..k])
       && (listed == 0 && NeverOverCaps(cfg, held, name, es) ==> Exactly(held, name, es, k, trace[k], added, refreshed))
  }

  lemma ProgressStart(cfg: Config, listed: nat, held: IpMap, name: string, rule: Rule, es: seq<Entry>)
    ensures Progress(cfg, listed, held, name, rule, es, [held - Withdrawn(held, name, es)], [], [])
  {
    assert es[..0] == [] && IpsIn([]) == {};
  }

  lemma ProgressNext(cfg: Config, listed: nat, held: IpMap, name: string, rule: Rule, es: seq<Entry>, trace: seq<IpMap>,
                     after: IpMap, sofar: (seq<Entry>, seq<Entry>), now: (seq<Entry>, seq<Entry>))
    requires Progress(cfg, listed, held, name, rule, es, trace, sofar.0, sofar.1) && Uniform(es, name, rule)
    requires |trace| <= |es|
    requires var k := |trace| - 1;
             && AnswerStep(cfg, listed, trace[k], es[k], after)
             && now == if Refreshes(trace[k], es[k]) then (sofar.0, sofar.1 + [es[k]]) else (sofar.0 + [es[k]], sofar.1)
    ensures Progress(cfg, listed, held, name, rule, es, trace + [after], now.0, now.1)
  {
    var k := |trace| - 1;
    TraceNext(cfg, listed, trace, es, after);
    PartsNext(es, k, sofar, now);
    if !Refreshes(trace[k], es[k]) { EvictionOnlyRemoves(cfg, listed, trace[k][es[k].ip := es[k]], after); }
    TrackedNext(held, trace[k], after, es, sofar.0, name, rule, k);
    if listed == 0 && NeverOverCaps(cfg, held, name, es) {
      ExactlyNext(cfg, held, name, rule, es, k, trace[k], after, sofar, now);
    }
  }

  /**
    The diff of an answer: the removed entries are the withdrawn ones; added and
    refreshed entries cover the answer; what is held afterwards is accounted for;
    and when no cap is met along the way, index and diff are exactly those of
    the newest answer replacing the old one.
  */
  ghost predicate DiffIsRight(cfg: Config, s: StoreState, domain: string, ips: Answer, rule: Rule, now: nat,
                              s': StoreState, diff: Diff)
  {
    var es, d := Wanted(domain, ips, rule, cfg, now), Normalize(domain);
    && Lists(diff.removed, Only(s.byIp, Withdrawn(s.byIp, d, es)))
    && Covered(diff, es)
    && Tracked(s.byIp, s'.byIp, es, diff.added, rule.target, |es|)
    && (NeverOverCaps(cfg, s.byIp, d, es) && Empties(s.byDomain) <= {d} ==>
          && s'.byIp == LatestAnswer(s.byIp, d, es)
          && diff.added == AddedOf(s.byIp, es) && diff.refreshed == RefreshedOf(s.byIp, es))
  }

  /** What a right diff says in terms of the answer itself. */
  lemma ResolvedMeans(cfg: Config, s: StoreState, domain: string, ips: Answer, rule: Rule, now: nat, s': StoreState,
                      diff: Diff)
    requires DiffIsRight(cfg, s, domain, ips, rule, now, s', diff)
    requires Agree(s.byIp, s.byDomain) && Agree(s'.byIp, s'.byDomain)
    ensures HeldAsAnswered(cfg, s'.byIp, domain, ips, rule, now)
    ensures MeetsNoCap(cfg, s, domain, ips, rule, now) ==>
              forall ip, i: int, ttl: nat |
                LastAnswered(ips, ip, i) && IsBounded(ips[i].1, cfg.minTtl, cfg.maxTtl, ttl) ::
                ip in s'.byIp && s'.byIp[ip].target == rule.target && s'.byIp[ip].expiresAt == now + ttl
  {
    hide Wanted, LatestAnswer, HeldAsAnswered, NeverOverCaps, Tracked, Empties;
    TrackedIsAnswered(cfg, s.byIp, s'.byIp, domain, ips, rule, now, diff.added);
    if MeetsNoCap(cfg, s, domain, ips, rule, now) {
      forall ip, i: int, ttl: nat | LastAnswered(ips, ip, i) && IsBounded(ips[i].1, cfg.minTtl, cfg.maxTtl, ttl)
        ensures ip in s'.byIp && s'.byIp[ip].target == rule.target && s'.byIp[ip].expiresAt == now + ttl
      {
        AnsweredUntil(cfg, s.byIp, domain, ips, rule, now, ip, i, ttl);
      }
    }
  }

  lemma PreviousIsIpsOf(m: IpMap, d: DomainMap, name: string)
    requires Agree(m, d)
    ensures (if name in d then d[name] else {}) == IpsOf(m, name)
    ensures IpsOf(m, name) <= m.Keys
  {
  }

  lemma WithdrawnIs(m: IpMap, name: string, es: seq<Entry>)
    ensures Withdrawn(m, name, es) == IpsOf(m, name) - IpsIn(es)
  {
  }

  lemma WantedIsUniform(domain: string, ips: Answer, rule: Rule, cfg: Config, now: nat)
    ensures Uniform(Wanted(domain, ips, rule, cfg, now), Normalize(domain), rule)
  {
  }

  lemma UniformAt(es: seq<Entry>, name: string, rule: Rule, k: nat)
    requires Uniform(es, name, rule) && k < |es|
    ensures es[k].domain == name
  {
    assert es[k] in es;
  }

  /** From the loop's progress and the final listing of a domain nobody answered for. */
  lemma ResolveDone(cfg: Config, s: StoreState, domain: string, ips: Answer, rule: Rule, now: nat, trace: seq<IpMap>,
                    applied: StoreState, diff: Diff, s': StoreState)
    requires var es, d := Wanted(domain, ips, rule, cfg, now), Normalize(domain);
             && Agree(applied.byIp, applied.byDomain)
             && Empties(applied.byDomain) == (if es == [] then Empties(s.byDomain) else Empties(s.byDomain) - {d})
             && |trace| == |es| + 1 && trace[|es|] == applied.byIp
             && Progress(cfg, |Empties(s.byDomain) - {d}|, s.byIp, d, rule, es, trace, diff.added, diff.refreshed)
             && Lists(diff.removed, Only(s.byIp, Withdrawn(s.byIp, d, es)))
    requires applied.rules == s.rules && applied.generation == s.generation
    requires var d := Normalize(domain);
             s' == if diff.added == [] && diff.removed == [] && diff.refreshed == [] && d !in applied.byDomain
                   then applied.(byDomain := applied.byDomain[d := {}]) else applied
    ensures Agree(s'.byIp, s'.byDomain)
    ensures Step(cfg, s, Resolve(domain, ips, rule, now), s')
    ensures DiffIsRight(cfg, s, domain, ips, rule, now, s', diff)
  {
    hide Agree, Empties, Tracked, AnswerTrace, NeverOverCaps, LatestAnswer, AddedOf, RefreshedOf, IpsOf, Withdrawn,
        IpsIn, Lists, Wanted;
    var es, d := Wanted(domain, ips, rule, cfg, now), Normalize(domain);
    var listed := |Empties(s.byDomain) - {d}|;
    ProgressDone(cfg, listed, s.byIp, d, rule, es, trace, diff.added, diff.refreshed);
    QuietIff(s.byIp, d, es, diff.removed);
    if s' != applied { ListedEmptyAgrees(applied.byIp, applied.byDomain, d); }
    ResolvedEmpties(s, d, es, trace, applied, s', diff);
  }

  lemma QuietIff(m: IpMap, d: string, es: seq<Entry>, removed: seq<Entry>)
    requires Lists(removed, Only(m, Withdrawn(m, d, es)))
    ensures es == [] ==> (removed == [] <==> d !in Domains(m))
  {
    ListsNothing(removed, m, Withdrawn(m, d, es));
    if es == [] {
      assert IpsIn(es) == {};
      if d in Domains(m) {
        var ip :| ip in m && m[ip].domain == d;
        assert ip in Withdrawn(m, d, es);
      }
    }
  }

  lemma ResolvedEmpties(s: StoreState, d: string, es: seq<Entry>, trace: seq<IpMap>, applied: StoreState,
                        s': StoreState, diff: Diff)
    requires Agree(applied.byIp, applied.byDomain)
    requires Empties(applied.byDomain) == if es == [] then Empties(s.byDomain) else Empties(s.byDomain) - {d}
    requires es == [] ==> (diff.removed == [] <==> d !in Domains(s.byIp))
    requires es == [] ==> Submap(applied.byIp, s.byIp)
    requires diff.added == [] && diff.refreshed == [] <==> es == []
    requires s' == if diff.added == [] && diff.removed == [] && diff.refreshed == [] && d !in applied.byDomain
                   then applied.(byDomain := applied.byDomain[d := {}]) else applied
    ensures Empties(s'.byDomain) == if es != [] then Empties(s.byDomain) - {d}
                                    else if d in Domains(s.byIp) then Empties(s.byDomain)
                                    else Empties(s.byDomain) + {d}
  {
    if s' != applied {
      ListedEmptyAgrees(applied.byIp, applied.byDomain, d);
    } else if es == [] && d !in Domains(s.byIp) {
      SubmapCounts(applied.byIp, s.byIp);
      DomainCount(applied.byIp, applied.byDomain);
    }
  }

  lemma ProgressDone(cfg: Config, listed: nat, held: IpMap, name: string, rule: Rule, es: seq<Entry>, trace: seq<IpMap>,
                     added: seq<Entry>, refreshed: seq<Entry>)
    requires Progress(cfg, listed, held, name, rule, es, trace, added, refreshed) && |trace| == |es| + 1
    ensures multiset(added) + multiset(refreshed) == multiset(es)
    ensures added == [] && refreshed == [] <==> es == []
    ensures listed == 0 && NeverOverCaps(cfg, held, name, es) ==>
              && trace[|es|] == LatestAnswer(held, name, es)
              && added == AddedOf(held, es) && refreshed == RefreshedOf(held, es)
  {
    assert es[..|es|] == es;
    if added == [] && refreshed == [] {
      assert |multiset(es)| == 0;
    }
  }

  lemma PartsNext(es: seq<Entry>, k: nat, sofar: (seq<Entry>, seq<Entry>), now: (seq<Entry>, seq<Entry>))
    requires k < |es| && multiset(sofar.0) + multiset(sofar.1) == multiset(es[..k])
    requires now == (sofar.0 + [es[k]], sofar.1) || now == (sofar.0, sofar.1 + [es[k]])
    ensures multiset(now.0) + multiset(now.1) == multiset(es[..k + 1])
  {
    TakeStep(es, k + 1);
  }

  /** What holds after `k` addresses of an answer that meets no cap. */
  ghost predicate Exactly(held: IpMap, name: string, es: seq<Entry>, k: nat, m: IpMap, added: seq<Entry>,
                          refreshed: seq<Entry>)
    requires k <= |es|
  {
    && m == Overlay(held - Withdrawn(held, name, es), es[..k])
    && added == AddedOf(held, es[..k]) && refreshed == RefreshedOf(held, es[..k])
  }

  lemma ExactlyNext(cfg: Config, held: IpMap, name: string, rule: Rule, es: seq<Entry>, k: nat, before: IpMap,
                    after: IpMap, sofar: (seq<Entry>, seq<Entry>), now: (seq<Entry>, seq<Entry>))
    requires k < |es| && NeverOverCaps(cfg, held, name, es) && Uniform(es, name, rule)
    requires AnswerStep(cfg, 0, before, es[k], after)
    requires now == if Refreshes(before, es[k]) then (sofar.0, sofar.1 + [es[k]]) else (sofar.0 + [es[k]], sofar.1)
    requires Exactly(held, name, es, k, before, sofar.0, sofar.1)
    ensures Exactly(held, name, es, k + 1, after, now.0, now.1)
  {
    TakeStep(es, k + 1);
    RefreshOfOverlay(held, name, rule, es, k);
    var base := held - Withdrawn(held, name, es);
    OverlayNext(base, es, k);
    assert WithinCaps(cfg, Overlay(base, es[..k + 1]));
    if !Refreshes(before, es[k]) { NothingEvictedWithinCaps(cfg, before[es[k].ip := es[k]], after); }
  }

  lemma OverlayNext(base: IpMap, es: seq<Entry>, k: nat)
    requires k < |es|
    ensures Overlay(base, es[..k + 1]) == Overlay(base, es[..k])[es[k].ip := es[k]]
  {
    TakeStep(es, k + 1);
  }

  lemma DropAgrees(m: IpMap, d: DomainMap, name: string)
    requires Agree(m, d) && name in d && d[name] != {}
    ensures d[name] == IpsOf(m, name) && Agree(m - IpsOf(m, name), d - {name})
    ensures Empties(d - {name}) == Empties(d) && |d - {name}| == |d| - 1
  {
    assert d[name] == IpsOf(m, name);
    assert d.Keys == (d - {name}).Keys + {name};
  }

  lemma EarliestDomainExists(m: IpMap, d: DomainMap)
    requires Agree(m, d) && m != map[]
    ensures exists name | name in d :: exists ip | ip in d[name] ::
              forall other | other in m :: m[ip].expiresAt <= m[other].expiresAt
  {
    SomethingExpiresFirst(m);
    var ip :| ExpiresFirst(m, ip);
    assert ip in d[m[ip].domain];
  }

  lemma DropKeepsOrder(m: IpMap, before: IpMap, after: IpMap, victim: string, first: IpAddr)
    requires Submap(before, m) && after == before - IpsOf(before, victim)
    requires ExpiresFirst(before, first) && before[first].domain == victim
    requires forall name | name in Domains(m) && name !in Domains(before) :: OwnsEarlier(m, name, before)
    ensures Domains(after) == Domains(before) - {victim}
    ensures forall name | name in Domains(m) && name !in Domains(after) :: OwnsEarlier(m, name, after)
  {
    forall name | name in Domains(before) - {victim} ensures name in Domains(after) {
      var ip :| ip in before && before[ip].domain == name;
      assert after[ip].domain == name;
    }
    forall name | name in Domains(m) && name !in Domains(after) ensures OwnsEarlier(m, name, after) {
      if name == victim {
        assert first in m && m[first].domain == victim;
      } else {
        var ip :| ip in m && m[ip].domain == name &&
            forall other | other in before :: m[ip].expiresAt <= before[other].expiresAt;
      }
    }
  }
}
