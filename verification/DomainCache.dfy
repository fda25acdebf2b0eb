/** The engine's own cache of resolved addresses, and how the store is copied into it. */
module DomainCache {

  import opened Common
  import opened DomainNames
  import opened Priority
  import opened DomainStoreSpec
  import opened DomainStore

  datatype CachedIp = CachedIp(ips: seq<IpAddr>, expires: nat, target: RouteTarget)

  datatype CacheState = CacheState(resolved: map<string, CachedIp>, ipIndex: map<IpAddr, RouteTarget>)

  const EMPTY_CACHE := CacheState(map[], map[])

  /** Some unexpired domain lists the address. */
  predicate ListedLive(resolved: map<string, CachedIp>, ip: IpAddr, now: nat)
  {
    exists name | name in resolved :: resolved[name].expires > now && ip in resolved[name].ips
  }

  function Lookup(s: CacheState, ip: IpAddr, now: nat): Option<RouteTarget>
  {
    if ip in s.ipIndex && ListedLive(s.resolved, ip, now) then Some(s.ipIndex[ip]) else None
  }

  /** One address copied into the cache: the domain's expiry and target are overwritten. */
  function Inserted(s: CacheState, domain: string, ip: IpAddr, target: RouteTarget, expiresAt: nat,
                    now: nat): CacheState
  {
    if expiresAt <= now then s
    else
      var name := Normalize(domain);
      var ips := if name !in s.resolved then [ip]
                 else if ip in s.resolved[name].ips then s.resolved[name].ips
                 else s.resolved[name].ips + [ip];
      CacheState(s.resolved[name := CachedIp(ips, expiresAt, target)], s.ipIndex[ip := target])
  }

  function Pointing(ips: seq<IpAddr>, target: RouteTarget): map<IpAddr, RouteTarget>
  {
    map ip | ip in ips :: target
  }

  lemma PointingNext(ips: seq<IpAddr>, i: nat, target: RouteTarget)
    ensures Pointing(ips[..0], target) == map[]
    ensures i < |ips| ==> Pointing(ips[..i + 1], target) == Pointing(ips[..i], target)[ips[i] := target]
  {
    if i < |ips| { TakeStep(ips, i + 1); }
  }

  /** The answer for a host takes the place of its previous one; the address index only grows. */
  function Resolved(s: CacheState, rule: Option<Rule>, host: string, ips: seq<IpAddr>, ttl: nat, now: nat): CacheState
  {
    if rule.None? then s
    else
      var expires := now + if ttl < MIN_TTL then MIN_TTL else ttl;
      CacheState(s.resolved[Normalize(host) := CachedIp(ips, expires, rule.value.target)],
                 s.ipIndex + Pointing(ips, rule.value.target))
  }

  const MIN_TTL := 30

  function LiveNames(resolved: map<string, CachedIp>, now: nat): map<string, CachedIp>
  {
    map name | name in resolved && resolved[name].expires > now :: resolved[name]
  }

  /** The address index rebuilt from the listed names, a later name overriding an earlier one. */
  function Reindexed(resolved: map<string, CachedIp>, order: seq<string>): map<IpAddr, RouteTarget>
    requires forall name | name in order :: name in resolved
  {
    if order == [] then map[]
    else
      var last := resolved[order[|order| - 1]];
      Reindexed(resolved, order[..|order| - 1]) + Pointing(last.ips, last.target)
  }

  /** The cache without its expired names. */
  function Purged(s: CacheState, order: seq<string>, now: nat): CacheState
    requires forall name | name in order :: name in LiveNames(s.resolved, now)
  {
    CacheState(LiveNames(s.resolved, now), Reindexed(LiveNames(s.resolved, now), order))
  }

  class DomainCache {
    var rules: seq<Rule>
    var resolved: map<string, CachedIp>
    var ipIndex: map<IpAddr, RouteTarget>

    ghost function State(): CacheState
      reads this
    {
      CacheState(resolved, ipIndex)
    }

    constructor (rules: seq<Rule>)
      ensures this.rules == StableSort(rules, BY_PRIORITY) && State() == EMPTY_CACHE
    {
      this.rules := StableSort(rules, BY_PRIORITY);
      resolved := map[];
      ipIndex := map[];
    }

    /** Whatever configuration the rules came from: its rule of least priority that covers the host, earliest in it. */
    function MatchDomain(host: string): (r: Option<Rule>)
      reads this`rules
      ensures forall configured: seq<Rule> | rules == StableSort(configured, BY_PRIORITY) ::
                IsLeast(configured, BY_PRIORITY, Covers(host), r)
      ensures IsChosen(rules, host, r)
    {
      MinByKeyIsLeast(rules, BY_PRIORITY, Covers(host));
      LeastIsChosen(rules, host, MinByKey(rules, BY_PRIORITY, Covers(host)));
      assert forall configured: seq<Rule> | rules == StableSort(configured, BY_PRIORITY) ::
          IsLeast(configured, BY_PRIORITY, Covers(host), MinByKey(rules, BY_PRIORITY, Covers(host))) by {
        forall configured: seq<Rule> | rules == StableSort(configured, BY_PRIORITY)
          ensures IsLeast(configured, BY_PRIORITY, Covers(host), MinByKey(rules, BY_PRIORITY, Covers(host)))
        {
          SortedSearchIsLeast(configured, BY_PRIORITY, Covers(host));
        }
      }
      MinByKey(rules, BY_PRIORITY, Covers(host))
    }

    method ClearResolved()
      modifies this`resolved, this`ipIndex
      ensures State() == EMPTY_CACHE
    {
      resolved := map[];
      ipIndex := map[];
    }

    method InsertResolved(domain: string, ip: IpAddr, target: RouteTarget, expiresAt: nat, now: nat)
      modifies this`resolved, this`ipIndex
      ensures State() == Inserted(old(State()), domain, ip, target, expiresAt, now)
    {
      if expiresAt <= now { return; }
      ipIndex := ipIndex[ip := target];
      var name := Normalize(domain);
      if name in resolved {
        var cached := resolved[name];
        var ips := if ip in cached.ips then cached.ips else cached.ips + [ip];
        resolved := resolved[name := CachedIp(ips, expiresAt, target)];
      } else {
        resolved := resolved[name := CachedIp([ip], expiresAt, target)];
      }
    }

    /** Points each of some addresses to a target. */
    method Point(ips: seq<IpAddr>, target: RouteTarget)
      modifies this`ipIndex
      ensures ipIndex == old(ipIndex) + Pointing(ips, target)
    {
      hide Pointing;
      PointingNext(ips, 0, target);
      for i := 0 to |ips|
        invariant ipIndex == old(ipIndex) + Pointing(ips[..i], target)
      {
        PointingNext(ips, i, target);
        ipIndex := ipIndex[ips[i] := target];
      }
      assert ips[..|ips|] == ips;
    }

    method OnResolved(host: string, ips: seq<IpAddr>, ttl: nat, now: nat)
      modifies this`resolved, this`ipIndex
      ensures State() == Resolved(old(State()), MatchDomain(host), host, ips, ttl, now)
    {
      hide Pointing;
      var rule := MatchDomain(host);
      if rule.Some? {
        Point(ips, rule.value.target);
        var expires := now + if ttl < MIN_TTL then MIN_TTL else ttl;
        resolved := resolved[Normalize(host) := CachedIp(ips, expires, rule.value.target)];
      }
    }

    /** Drops the expired names and rebuilds the address index from the others, in the map's order. */
    method PurgeExpired(order: seq<string>, now: nat)
      requires Enumerates(order, LiveNames(resolved, now).Keys)
      modifies this`resolved, this`ipIndex
      ensures State() == Purged(old(State()), order, now)
      ensures forall name :: name in resolved <==> name in old(resolved) && now < old(resolved)[name].expires
      ensures forall name | name in resolved :: resolved[name] == old(resolved)[name]
    {
      hide Pointing;
      var live := LiveNames(resolved, now);
      resolved := live;
      ipIndex := map[];
      for k := 0 to |order|
        invariant resolved == live && ipIndex == Reindexed(live, order[..k])
      {
        TakeStep(order, k + 1);
        assert order[k] in order;
        Point(live[order[k]].ips, live[order[k]].target);
      }
      assert order[..|order|] == order;
    }

    method LookupIp(ip: IpAddr, now: nat) returns (r: Option<RouteTarget>)
      ensures r == Lookup(State(), ip, now)
    {
      if ip !in ipIndex { return None; }
      var rest := resolved.Keys;
      while rest != {}
        invariant rest <= resolved.Keys
        invariant forall name | name in resolved.Keys - rest ::
            !(resolved[name].expires > now && ip in resolved[name].ips)
        decreases rest
      {
        var name :| name in rest;
        if resolved[name].expires > now && ip in resolved[name].ips { return Some(ipIndex[ip]); }
        rest := rest - {name};
      }
      return None;
    }
  }

  // ----- Copying the store -----

  /** A hash map yields each of its keys once, in some order. */
  ghost predicate Enumerates<K(!new)>(order: seq<K>, keys: set<K>)
  {
    && (forall k :: k in order <==> k in keys)
    && forall i, j | 0 <= i < j < |order| :: order[i] != order[j]
  }

  /** Some order of a set of keys. */
  method AnyOrder<K(==,!new)>(keys: set<K>) returns (order: seq<K>)
    ensures Enumerates(order, keys)
  {
    var rest := keys;
    order := [];
    while rest != {}
      invariant rest <= keys && Enumerates(order, keys - rest)
      decreases rest
    {
      var ip :| ip in rest;
      order := order + [ip];
      rest := rest - {ip};
    }
  }

  /** The cache after copying the live entries of `m` in a given order. */
  function Synced(m: IpMap, order: seq<IpAddr>, now: nat): CacheState
    requires forall ip | ip in order :: ip in m
  {
    if order == [] then EMPTY_CACHE
    else
      var s, e := Synced(m, order[..|order| - 1], now), m[order[|order| - 1]];
      if e.expiresAt > now then Inserted(s, e.domain, e.ip, e.target, e.expiresAt, now) else s
  }

  method SyncDomainCache(store: DomainRouteStore, cache: DomainCache, order: seq<IpAddr>, now: nat)
    requires Enumerates(order, store.byIp.Keys)
    modifies cache`resolved, cache`ipIndex
    ensures cache.State() == Synced(store.byIp, order, now)
  {
    cache.ClearResolved();
    for k := 0 to |order|
      invariant cache.State() == Synced(store.byIp, order[..k], now)
    {
      TakeStep(order, k + 1);
      var entry := store.byIp[order[k]];
      if entry.expiresAt > now {
        cache.InsertResolved(entry.domain, entry.ip, entry.target, entry.expiresAt, now);
      }
    }
    assert order[..|order|] == order;
  }

  /** The name under which the cache files an entry of the store. */
  function NameOf(m: IpMap, ip: IpAddr): string
    requires ip in m
  {
    Normalize(m[ip].domain)
  }

  /** Position `i` of the order holds the last live entry filed under `name`. */
  ghost predicate LastFiled(m: IpMap, order: seq<IpAddr>, now: nat, name: string, i: int)
    requires forall ip | ip in order :: ip in m
  {
    && 0 <= i < |order| && m[order[i]].expiresAt > now && NameOf(m, order[i]) == name
    && forall j | i < j < |order| :: m[order[j]].expiresAt > now ==> NameOf(m, order[j]) != name
  }

  function LiveIn(m: IpMap, order: seq<IpAddr>, now: nat): set<IpAddr>
  {
    set ip | ip in order && ip in m && m[ip].expiresAt > now
  }

  /** What the copy contains: every live address, under its own name ... */
  ghost predicate CopiedIps(m: IpMap, live: set<IpAddr>, s: CacheState)
    requires live <= m.Keys
  {
    && s.ipIndex.Keys == live
    && (forall ip | ip in live :: s.ipIndex[ip] == m[ip].target)
    && CopiedNames(m, live, s.resolved)
  }

  ghost predicate CopiedNames(m: IpMap, live: set<IpAddr>, resolved: map<string, CachedIp>)
    requires live <= m.Keys
  {
    && (forall ip | ip in live :: NameOf(m, ip) in resolved && ip in resolved[NameOf(m, ip)].ips)
    && (forall name, ip | name in resolved && ip in resolved[name].ips :: ip in live && NameOf(m, ip) == name)
  }

  /** ... and for each name the expiry of the last entry filed there. */
  ghost predicate CopiedExpiry(m: IpMap, order: seq<IpAddr>, now: nat, s: CacheState, name: string)
    requires (forall ip | ip in order :: ip in m) && name in s.resolved
  {
    exists i :: LastFiled(m, order, now, name, i) && s.resolved[name].expires == m[order[i]].expiresAt
  }

  lemma {:induction false} SyncedIps(m: IpMap, order: seq<IpAddr>, now: nat)
    requires Keyed(m) && forall ip | ip in order :: ip in m
    ensures CopiedIps(m, LiveIn(m, order, now), Synced(m, order, now))
  {
    if order != [] {
      var init, last := order[..|order| - 1], order[|order| - 1];
      SyncedIps(m, init, now);
      assert order == init + [last];
      assert LiveIn(m, order, now) == LiveIn(m, init, now) + if m[last].expiresAt > now then {last} else {};
      if m[last].expiresAt > now {
        InsertedIps(m, LiveIn(m, init, now), last, now, Synced(m, init, now));
      }
    }
  }

  lemma InsertedIps(m: IpMap, live: set<IpAddr>, last: IpAddr, now: nat, s: CacheState)
    requires Keyed(m) && live <= m.Keys && last in m && m[last].expiresAt > now && CopiedIps(m, live, s)
    ensures CopiedIps(m, live + {last}, Inserted(s, m[last].domain, last, m[last].target, m[last].expiresAt, now))
  {
    hide CopiedNames, Normalize;
    var s' := Inserted(s, m[last].domain, last, m[last].target, m[last].expiresAt, now);
    assert s'.ipIndex == s.ipIndex[last := m[last].target];
    InsertedNames(m, live, last, now, s);
  }

  lemma InsertedNames(m: IpMap, live: set<IpAddr>, last: IpAddr, now: nat, s: CacheState)
    requires live <= m.Keys && last in m && m[last].expiresAt > now && CopiedNames(m, live, s.resolved)
    ensures CopiedNames(m, live + {last},
                        Inserted(s, m[last].domain, last, m[last].target, m[last].expiresAt, now).resolved)
  {
    hide Normalize;
    var after := Inserted(s, m[last].domain, last, m[last].target, m[last].expiresAt, now).resolved;
    var name := NameOf(m, last);
    var before := if name in s.resolved then s.resolved[name].ips else [];
    assert forall ip :: ip in after[name].ips <==> ip in before || ip == last;
    assert forall other | other in after && other != name :: other in s.resolved && after[other] == s.resolved[other];
  }

  lemma {:induction false} SyncedExpiry(m: IpMap, order: seq<IpAddr>, now: nat, name: string)
    requires Keyed(m) && (forall ip | ip in order :: ip in m) && name in Synced(m, order, now).resolved
    ensures CopiedExpiry(m, order, now, Synced(m, order, now), name)
  {
    var init, last := order[..|order| - 1], order[|order| - 1];
    assert order == init + [last];
    if m[last].expiresAt > now && NameOf(m, last) == name {
      assert LastFiled(m, order, now, name, |order| - 1);
    } else {
      SyncedExpiry(m, init, now, name);
      var s := Synced(m, init, now);
      var i :| LastFiled(m, init, now, name, i) && s.resolved[name].expires == m[init[i]].expiresAt;
      assert LastFiled(m, order, now, name, i);
    }
  }

  /** The store's own answer. */
  function StoreLookup(m: IpMap, ip: IpAddr, now: nat): Option<RouteTarget>
  {
    if ip in m && m[ip].expiresAt > now then Some(m[ip].target) else None
  }

  /** The copy answers for a live address until the last entry filed under its name expires. */
  lemma CopyLookup(m: IpMap, order: seq<IpAddr>, synced: nat, ip: IpAddr, i: int, now: nat)
    requires Keyed(m) && Enumerates(order, m.Keys)
    requires ip in m && m[ip].expiresAt > synced && LastFiled(m, order, synced, NameOf(m, ip), i)
    ensures Lookup(Synced(m, order, synced), ip, now) ==
            if m[order[i]].expiresAt > now then Some(m[ip].target) else None
  {
    SyncedIps(m, order, synced);
    var s, name := Synced(m, order, synced), NameOf(m, ip);
    SyncedExpiry(m, order, synced, name);
    var j :| LastFiled(m, order, synced, name, j) && s.resolved[name].expires == m[order[j]].expiresAt;
    assert i == j;
    if m[order[i]].expiresAt > now {
      assert s.resolved[name].expires > now && ip in s.resolved[name].ips;
    }
  }

  lemma DeadLookup(m: IpMap, order: seq<IpAddr>, synced: nat, ip: IpAddr, now: nat)
    requires Keyed(m) && Enumerates(order, m.Keys) && !(ip in m && m[ip].expiresAt > synced)
    ensures Lookup(Synced(m, order, synced), ip, now) == None
  {
    SyncedIps(m, order, synced);
  }

  lemma {:induction false} SomeLastFiled(m: IpMap, order: seq<IpAddr>, synced: nat, ip: IpAddr)
    requires (forall x | x in order :: x in m) && ip in order && m[ip].expiresAt > synced
    ensures exists i :: LastFiled(m, order, synced, NameOf(m, ip), i)
  {
    var init, last := order[..|order| - 1], order[|order| - 1];
    assert order == init + [last];
    if m[last].expiresAt > synced && NameOf(m, last) == NameOf(m, ip) {
      assert LastFiled(m, order, synced, NameOf(m, ip), |order| - 1);
    } else {
      SomeLastFiled(m, init, synced, ip);
      var i :| LastFiled(m, init, synced, NameOf(m, ip), i);
      assert LastFiled(m, order, synced, NameOf(m, ip), i);
    }
  }

  lemma {:induction false} OrderEndingWith<K(!new)>(keys: set<K>, last: K) returns (order: seq<K>)
    requires last in keys
    ensures Enumerates(order, keys) && order[|order| - 1] == last
    decreases keys
  {
    if keys == {last} {
      order := [last];
    } else {
      assert keys == {last} + (keys - {last});
      var first :| first in keys - {last};
      var rest := OrderEndingWith(keys - {first}, last);
      order := [first] + rest;
      assert order[1..] == rest;
    }
  }

  /** At the instant of the copy both lookups agree, for every address and every order. */
  lemma SyncAgreesAtOnce(m: IpMap, order: seq<IpAddr>, now: nat, ip: IpAddr)
    requires Keyed(m) && Enumerates(order, m.Keys)
    ensures Lookup(Synced(m, order, now), ip, now) == StoreLookup(m, ip, now)
  {
    if ip in m && m[ip].expiresAt > now {
      SomeLastFiled(m, order, now, ip);
      var i :| LastFiled(m, order, now, NameOf(m, ip), i);
      CopyLookup(m, order, now, ip, i, now);
    } else {
      DeadLookup(m, order, now, ip, now);
    }
  }

  /** The entries live at the copy that share the address's name have all expired by `now`, or all not. */
  ghost predicate ExpireTogether(m: IpMap, synced: nat, ip: IpAddr, now: nat)
    requires ip in m
  {
    forall other | other in m && m[other].expiresAt > synced && NameOf(m, other) == NameOf(m, ip) ::
      m[other].expiresAt > now <==> m[ip].expiresAt > now
  }

  /**
    Later on, with the store unchanged, the lookups agree whatever the iteration
    order was if and only if no live entry filed under the address's name is on
    the other side of its expiry.
  */
  lemma SyncAgreesIff(m: IpMap, synced: nat, ip: IpAddr, now: nat)
    requires Keyed(m) && synced <= now
    ensures (forall order | Enumerates(order, m.Keys) ::
               Lookup(Synced(m, order, synced), ip, now) == StoreLookup(m, ip, now))
            <==> (ip in m && m[ip].expiresAt > synced ==> ExpireTogether(m, synced, ip, now))
  {
    if ip !in m || m[ip].expiresAt <= synced {
      forall order | Enumerates(order, m.Keys)
        ensures Lookup(Synced(m, order, synced), ip, now) == StoreLookup(m, ip, now)
      {
        DeadLookup(m, order, synced, ip, now);
      }
    } else if ExpireTogether(m, synced, ip, now) {
      forall order | Enumerates(order, m.Keys)
        ensures Lookup(Synced(m, order, synced), ip, now) == StoreLookup(m, ip, now)
      {
        SomeLastFiled(m, order, synced, ip);
        var i :| LastFiled(m, order, synced, NameOf(m, ip), i);
        CopyLookup(m, order, synced, ip, i, now);
      }
    } else {
      var other :| other in m && m[other].expiresAt > synced && NameOf(m, other) == NameOf(m, ip)
                   && !(m[other].expiresAt > now <==> m[ip].expiresAt > now);
      var order := OrderEndingWith(m.Keys, other);
      assert LastFiled(m, order, synced, NameOf(m, ip), |order| - 1);
      CopyLookup(m, order, synced, ip, |order| - 1, now);
    }
  }

  /** In particular before the first and from the last of those expiries on. */
  lemma SyncAgreesOutsideExpiries(m: IpMap, order: seq<IpAddr>, synced: nat, ip: IpAddr, now: nat)
    requires Keyed(m) && Enumerates(order, m.Keys) && synced <= now && ip in m
    requires var filed := set other | other in m && m[other].expiresAt > synced && NameOf(m, other) == NameOf(m, ip);
             (forall other | other in filed :: now < m[other].expiresAt) ||
                 (forall other | other in filed :: m[other].expiresAt <= now)
    ensures Lookup(Synced(m, order, synced), ip, now) == StoreLookup(m, ip, now)
  {
    SyncAgreesIff(m, synced, ip, now);
  }

  // ----- Answers and purges of the cache itself -----

  /**
    After an answer for a host: an answered address has the rule's target for as
    long as the answer, or any other name listing it, lives; any other address
    keeps its answer as far as other names list it.
  */
  lemma ResolvedLookup(s: CacheState, rule: Rule, host: string, ips: seq<IpAddr>, ttl: nat, now: nat, ip: IpAddr,
                       later: nat)
    ensures var others, expires := s.resolved - {Normalize(host)}, now + if ttl < 30 then 30 else ttl;
            Lookup(Resolved(s, Some(rule), host, ips, ttl, now), ip, later) ==
            if ip in ips then (if later < expires || ListedLive(others, ip, later) then Some(rule.target) else None)
            else Lookup(CacheState(others, s.ipIndex), ip, later)
  {
    var name, others := Normalize(host), s.resolved - {Normalize(host)};
    var r := Resolved(s, Some(rule), host, ips, ttl, now).resolved;
    assert forall n | n in r :: n == name || (n in others && others[n] == r[n]);
    assert forall n | n in others :: r[n] == others[n];
    assert name in r && r[name].ips == ips;
  }

  lemma {:induction false} ReindexedMeaning(resolved: map<string, CachedIp>, order: seq<string>, ip: IpAddr)
    requires forall name | name in order :: name in resolved
    ensures ip in Reindexed(resolved, order) <==> exists name | name in order :: ip in resolved[name].ips
    ensures ip in Reindexed(resolved, order) ==>
              exists name | name in order :: ip in resolved[name].ips &&
                  resolved[name].target == Reindexed(resolved, order)[ip]
  {
    if order != [] {
      var init, last := order[..|order| - 1], order[|order| - 1];
      assert order == init + [last];
      ReindexedMeaning(resolved, init, ip);
    }
  }

  /** Every live name gives its addresses the target that the address index holds. */
  ghost predicate Consistent(s: CacheState, now: nat)
  {
    forall name, ip | name in LiveNames(s.resolved, now) && ip in s.resolved[name].ips ::
      ip in s.ipIndex && s.ipIndex[ip] == s.resolved[name].target
  }

  lemma PurgedLookup(s: CacheState, order: seq<string>, now: nat, ip: IpAddr, later: nat)
    requires Enumerates(order, LiveNames(s.resolved, now).Keys) && now <= later && Consistent(s, now)
    ensures Lookup(Purged(s, order, now), ip, later) == Lookup(s, ip, later)
  {
    var live := LiveNames(s.resolved, now);
    ReindexedMeaning(live, order, ip);
    assert forall name | name in s.resolved && s.resolved[name].expires > later :: name in live;
    if ListedLive(s.resolved, ip, later) {
      var name :| name in s.resolved && s.resolved[name].expires > later && ip in s.resolved[name].ips;
      assert name in order && live[name] == s.resolved[name];
    }
  }

  /**
    Purging drops only what no lookup would find, whatever the order, if and only
    if the address index agrees with every live name.
  */
  lemma PurgeKeepsLookupsIff(s: CacheState, now: nat)
    ensures (forall order, ip, later | Enumerates(order, LiveNames(s.resolved, now).Keys) && now <= later ::
               Lookup(Purged(s, order, now), ip, later) == Lookup(s, ip, later))
            <==> Consistent(s, now)
  {
    if Consistent(s, now) {
      forall order, ip, later | Enumerates(order, LiveNames(s.resolved, now).Keys) && now <= later
        ensures Lookup(Purged(s, order, now), ip, later) == Lookup(s, ip, later)
      {
        PurgedLookup(s, order, now, ip, later);
      }
    } else {
      var live := LiveNames(s.resolved, now);
      var name, ip :| name in live && ip in s.resolved[name].ips
                      && !(ip in s.ipIndex && s.ipIndex[ip] == s.resolved[name].target);
      var order := OrderEndingWith(live.Keys, name);
      assert Purged(s, order, now).ipIndex[ip] == live[name].target;
      assert ListedLive(live, ip, now);
      assert Lookup(Purged(s, order, now), ip, now) != Lookup(s, ip, now);
    }
  }

  /** A copied store is consistent when the entries filed under one name share one target. */
  lemma SyncedIsConsistent(m: IpMap, order: seq<IpAddr>, synced: nat, now: nat)
    requires Keyed(m) && (forall ip | ip in order :: ip in m) && synced <= now
    requires forall x, y | x in order && y in order && NameOf(m, x) == NameOf(m, y) :: m[x].target == m[y].target
    ensures Consistent(Synced(m, order, synced), now)
  {
    hide Synced, Normalize;
    var s, live := Synced(m, order, synced), LiveIn(m, order, synced);
    SyncedIps(m, order, synced);
    SyncedTargets(m, order, synced);
    assert CopiedNames(m, live, s.resolved);
    forall name, ip | name in LiveNames(s.resolved, now) && ip in s.resolved[name].ips
      ensures ip in s.ipIndex && s.ipIndex[ip] == s.resolved[name].target
    {
      var x :| x in order && NameOf(m, x) == name && m[x].target == s.resolved[name].target;
      assert ip in live && ip in order;
      assert NameOf(m, ip) == NameOf(m, x);
    }
  }

  lemma {:induction false} SyncedTargets(m: IpMap, order: seq<IpAddr>, synced: nat)
    requires Keyed(m) && forall ip | ip in order :: ip in m
    ensures forall name | name in Synced(m, order, synced).resolved ::
              exists ip | ip in order :: NameOf(m, ip) == name &&
                  m[ip].target == Synced(m, order, synced).resolved[name].target
  {
    if order != [] {
      var init, last := order[..|order| - 1], order[|order| - 1];
      assert order == init + [last];
      SyncedTargets(m, init, synced);
    }
  }
}
