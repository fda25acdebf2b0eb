/**
  What the domain route store promises, on values.

  The store keeps resolved addresses under two indexes: by address and by
  domain. The address index alone determines the domain index (`IndexOf`), so
  every operation is specified by what it does to the address index; evictions
  and iteration orders, which a hash map leaves open, appear as relations.
*/
module DomainStoreSpec {

  import opened Common
  import opened DomainNames
  import opened Priority

  datatype Entry = Entry(ip: IpAddr, domain: string, pattern: string, target: RouteTarget, expiresAt: nat, ttl: nat)

  datatype Config = Config(maxIps: nat, maxDomains: nat, minTtl: nat, maxTtl: nat)

  datatype Diff = Diff(added: seq<Entry>, removed: seq<Entry>, refreshed: seq<Entry>)

  /** The persisted form of a store: its entries in whatever order the map yields them. */
  datatype Persisted = Persisted(version: nat, generation: nat, entries: seq<Entry>)

  type IpMap = map<IpAddr, Entry>

  type DomainMap = map<string, set<IpAddr>>

  /** A DNS answer: addresses with their TTLs, in the order of the response. */
  type Answer = seq<(IpAddr, nat)>

  // ----- The two indexes -----

  ghost predicate Keyed(m: IpMap)
  {
    forall ip | ip in m :: m[ip].ip == ip
  }

  function Domains(m: IpMap): set<string>
  {
    set ip | ip in m :: m[ip].domain
  }

  function IpsOf(m: IpMap, domain: string): set<IpAddr>
  {
    set ip | ip in m && m[ip].domain == domain
  }

  /** The domain index that belongs to an address index. */
  function IndexOf(m: IpMap): DomainMap
  {
    map domain | domain in Domains(m) :: IpsOf(m, domain)
  }

  /** Domains listed without any address. */
  function Empties(d: DomainMap): set<string>
  {
    set domain | domain in d && d[domain] == {}
  }

  /** Each index lists exactly what the other one does; a domain may be listed with no address. */
  ghost predicate Agree(m: IpMap, d: DomainMap)
  {
    && Keyed(m)
    && (forall ip | ip in m :: m[ip].domain in d && ip in d[m[ip].domain])
    && (forall domain, ip | domain in d && ip in d[domain] :: ip in m && m[ip].domain == domain)
  }

  ghost predicate WithinCaps(cfg: Config, m: IpMap)
  {
    |m| <= cfg.maxIps && |Domains(m)| <= cfg.maxDomains
  }

  lemma AgreeMeansIndex(m: IpMap, d: DomainMap)
    ensures Agree(m, d) && Empties(d) == {} <==> Keyed(m) && d == IndexOf(m)
  {
    if Agree(m, d) && Empties(d) == {} {
      forall domain | domain in d ensures domain in Domains(m) && d[domain] == IpsOf(m, domain) {
        assert domain !in Empties(d);
        var ip :| ip in d[domain];
        assert m[ip].domain == domain;
      }
      assert d.Keys == Domains(m);
    }
    if Keyed(m) && d == IndexOf(m) {
      forall domain | domain in d ensures d[domain] != {} {
        var ip :| ip in m && m[ip].domain == domain;
        assert ip in d[domain];
      }
    }
  }

  lemma DomainCount(m: IpMap, d: DomainMap)
    requires Agree(m, d)
    ensures d.Keys == Domains(m) + Empties(d)
    ensures |d| == |Domains(m)| + |Empties(d)|
  {
    forall domain | domain in d ensures domain in Domains(m) + Empties(d) {
      if d[domain] != {} {
        var ip :| ip in d[domain];
        assert m[ip].domain == domain;
      }
    }
    assert Domains(m) !! Empties(d);
    assert d.Keys == Domains(m) + Empties(d);
  }

  lemma SubsetCount<T>(a: set<T>, b: set<T>)
    requires a <= b
    ensures |a| <= |b|
    ensures |a| == |b| ==> a == b
  {
    assert b == a + (b - a);
  }

  /** The domain index after an address has left a domain. */
  function Unlisted(d: DomainMap, domain: string, ip: IpAddr): DomainMap
  {
    if domain !in d then d
    else if d[domain] - {ip} == {} then d - {domain}
    else d[domain := d[domain] - {ip}]
  }

  /** The domain index after an address has joined a domain. */
  function Listed(d: DomainMap, domain: string, ip: IpAddr): DomainMap
  {
    d[domain := (if domain in d then d[domain] else {}) + {ip}]
  }

  lemma UnlistedAgrees(m: IpMap, d: DomainMap, ip: IpAddr)
    requires Agree(m, d) && ip in m
    ensures Agree(m - {ip}, Unlisted(d, m[ip].domain, ip))
    ensures Empties(Unlisted(d, m[ip].domain, ip)) == Empties(d)
    ensures |m - {ip}| == |m| - 1
  {
    var domain := m[ip].domain;
    var d' := Unlisted(d, domain, ip);
    UnlistedEmpties(d, domain, ip);
    hide Empties;
    assert m.Keys == (m - {ip}).Keys + {ip};
    forall other | other in m - {ip} ensures m[other].domain in d' && other in d'[m[other].domain] {
      assert other in d[m[other].domain];
      if m[other].domain == domain { assert other in d[domain] - {ip}; }
    }
  }

  lemma UnlistedEmpties(d: DomainMap, domain: string, ip: IpAddr)
    requires domain in d && d[domain] != {}
    ensures Empties(Unlisted(d, domain, ip)) == Empties(d)
  {
  }

  lemma ListedAgrees(m: IpMap, d: DomainMap, e: Entry)
    requires Agree(m, d) && e.ip !in m
    ensures Agree(m[e.ip := e], Listed(d, e.domain, e.ip))
    ensures Empties(Listed(d, e.domain, e.ip)) == Empties(d) - {e.domain}
  {
    assert e.ip in Listed(d, e.domain, e.ip)[e.domain];
  }

  lemma ListedEmptyAgrees(m: IpMap, d: DomainMap, domain: string)
    requires Agree(m, d) && domain !in d
    ensures Agree(m, d[domain := {}]) && Empties(d[domain := {}]) == Empties(d) + {domain}
  {
  }

  lemma RemoveOneMore(m: IpMap, victims: set<IpAddr>, rest: set<IpAddr>, ip: IpAddr)
    requires ip in rest && rest <= victims
    ensures m - (victims - rest) - {ip} == m - (victims - (rest - {ip}))
    ensures victims - (rest - {ip}) == (victims - rest) + {ip}
  {
  }

  // ----- Eviction -----

  ghost predicate ExpiresFirst(m: IpMap, ip: IpAddr)
  {
    ip in m && forall other | other in m :: m[ip].expiresAt <= m[other].expiresAt
  }

  lemma {:induction false} SomethingExpiresFirst(m: IpMap)
    requires m != map[]
    ensures exists ip :: ExpiresFirst(m, ip)
  {
    var ip :| ip in m;
    var rest := m - {ip};
    if rest == map[] {
      assert m.Keys == rest.Keys + {ip};
      assert ExpiresFirst(m, ip);
    } else {
      SomethingExpiresFirst(rest);
      var best :| ExpiresFirst(rest, best);
      var winner := if m[ip].expiresAt <= m[best].expiresAt then ip else best;
      forall other | other in m ensures m[winner].expiresAt <= m[other].expiresAt {
        if other != ip { assert other in rest; }
      }
      assert ExpiresFirst(m, winner);
    }
  }

  ghost predicate Submap(a: IpMap, b: IpMap)
  {
    forall ip | ip in a :: ip in b && a[ip] == b[ip]
  }

  /**
    Eviction by address: just enough entries go, and whatever goes expires no
    later than whatever stays.
  */
  ghost predicate IpsEvicted(cap: nat, m: IpMap, kept: IpMap)
  {
    && Submap(kept, m)
    && |kept| == (if |m| <= cap then |m| else cap)
    && forall ip, other | ip in m && ip !in kept && other in kept :: m[ip].expiresAt <= m[other].expiresAt
  }

  /**
    Eviction by domain: whole domains go, just enough of them, and every domain
    that goes owns an entry that expires no later than anything that stays.
    `listed` counts the domains listed without an address.
  */
  ghost predicate DomainsEvicted(cap: nat, listed: nat, m: IpMap, kept: IpMap)
  {
    && Submap(kept, m)
    && (forall ip | ip in m && m[ip].domain in Domains(kept) :: ip in kept)
    && (|Domains(kept)| + listed <= cap || kept == map[])
    && (kept != m ==> |Domains(kept)| + listed >= cap)
    && forall domain | domain in Domains(m) && domain !in Domains(kept) :: OwnsEarlier(m, domain, kept)
  }

  /** Some entry of the domain expires no later than anything kept. */
  ghost predicate OwnsEarlier(m: IpMap, domain: string, kept: IpMap)
  {
    exists ip | ip in m && m[ip].domain == domain ::
      forall other | other in kept :: m[ip].expiresAt <= kept[other].expiresAt
  }

  ghost predicate Evicted(cfg: Config, listed: nat, m: IpMap, kept: IpMap)
  {
    exists mid :: IpsEvicted(cfg.maxIps, m, mid) && DomainsEvicted(cfg.maxDomains, listed, mid, kept)
  }

  lemma SubmapCounts(a: IpMap, b: IpMap)
    requires Submap(a, b)
    ensures |a| <= |b| && Domains(a) <= Domains(b) && |Domains(a)| <= |Domains(b)|
  {
    SubsetCount(a.Keys, b.Keys);
    SubsetCount(Domains(a), Domains(b));
  }

  lemma PartWithinCaps(cfg: Config, part: IpMap, m: IpMap)
    requires Submap(part, m) && WithinCaps(cfg, m)
    ensures WithinCaps(cfg, part)
  {
    SubmapCounts(part, m);
  }

  lemma SameSizeSubmap(a: IpMap, b: IpMap)
    requires Submap(a, b) && |a| == |b|
    ensures a == b
  {
    SubsetCount(a.Keys, b.Keys);
  }

  /** No eviction happens below the caps. */
  lemma NothingEvictedWithinCaps(cfg: Config, m: IpMap, kept: IpMap)
    requires WithinCaps(cfg, m)
    requires Evicted(cfg, 0, m, kept)
    ensures kept == m
  {
    var mid :| IpsEvicted(cfg.maxIps, m, mid) && DomainsEvicted(cfg.maxDomains, 0, mid, kept);
    SameSizeSubmap(mid, m);
    if kept != m {
      SubmapCounts(kept, m);
      SubsetCount(Domains(kept), Domains(m));
      forall ip | ip in m ensures ip in kept {
        assert m[ip].domain in Domains(m);
      }
      SameKeys(kept, m);
    }
  }

  lemma SameKeys(a: IpMap, b: IpMap)
    requires Submap(a, b) && forall ip | ip in b :: ip in a
    ensures a == b
  {
  }

  lemma EvictionMeetsCaps(cfg: Config, m: IpMap, kept: IpMap)
    requires Evicted(cfg, 0, m, kept)
    ensures WithinCaps(cfg, kept) && Submap(kept, m)
  {
    var mid :| IpsEvicted(cfg.maxIps, m, mid) && DomainsEvicted(cfg.maxDomains, 0, mid, kept);
    SubmapCounts(kept, mid);
  }

  // ----- Resolving -----

  /** The entries an answer asks for, one per address in the answer, duplicates included. */
  function Wanted(domain: string, answer: Answer, rule: Rule, cfg: Config, now: nat): (es: seq<Entry>)
    ensures |es| == |answer|
  {
    seq(|answer|, i requires 0 <= i < |answer| =>
      var ttl := Clamp(answer[i].1, cfg.minTtl, cfg.maxTtl);
      Entry(answer[i].0, Normalize(domain), rule.pattern, rule.target, now + ttl, ttl))
  }

  /**
    What an answer asks for: each answered address under the rule's pattern and
    target, for the answered TTL brought into the configured bounds, from now on.
  */
  lemma WantedMeans(domain: string, answer: Answer, rule: Rule, cfg: Config, now: nat)
    ensures var es := Wanted(domain, answer, rule, cfg, now);
            && |es| == |answer|
            && forall i | 0 <= i < |es| ::
                 && es[i].ip == answer[i].0 && es[i].domain == Normalize(domain)
                 && es[i].pattern == rule.pattern && es[i].target == rule.target
                 && es[i].expiresAt == now + es[i].ttl
                 && IsBounded(answer[i].1, cfg.minTtl, cfg.maxTtl, es[i].ttl)
  {
  }

  function IpsIn(es: seq<Entry>): set<IpAddr>
  {
    set i | 0 <= i < |es| :: es[i].ip
  }

  /** The entries of a domain that its new answer no longer names. */
  function Withdrawn(m: IpMap, domain: string, es: seq<Entry>): set<IpAddr>
  {
    IpsOf(m, domain) - IpsIn(es)
  }

  /** An address already held for the same domain, pattern and target is refreshed, not added. */
  predicate Refreshes(m: IpMap, e: Entry)
  {
    e.ip in m && m[e.ip].domain == e.domain && m[e.ip].pattern == e.pattern && m[e.ip].target == e.target
  }

  /** One address of an answer: a refresh in place, or an insertion followed by eviction. */
  ghost predicate AnswerStep(cfg: Config, listed: nat, m: IpMap, e: Entry, m': IpMap)
  {
    if Refreshes(m, e) then m' == m[e.ip := e] else Evicted(cfg, listed, m[e.ip := e], m')
  }

  /** The address index before, and after each address of, an answer or a part of it. */
  ghost predicate AnswerTrace(cfg: Config, listed: nat, trace: seq<IpMap>, es: seq<Entry>)
  {
    && 0 < |trace| <= |es| + 1
    && forall k: nat | k < |trace| - 1 :: AnswerStepAt(cfg, listed, trace, es, k)
  }

  ghost predicate AnswerStepAt(cfg: Config, listed: nat, trace: seq<IpMap>, es: seq<Entry>, k: nat)
    requires k < |trace| - 1 && k < |es|
  {
    AnswerStep(cfg, listed, trace[k], es[k], trace[k + 1])
  }

  lemma TraceNext(cfg: Config, listed: nat, trace: seq<IpMap>, es: seq<Entry>, m: IpMap)
    requires AnswerTrace(cfg, listed, trace, es) && |trace| <= |es|
    requires AnswerStep(cfg, listed, trace[|trace| - 1], es[|trace| - 1], m)
    ensures AnswerTrace(cfg, listed, trace + [m], es)
  {
    forall k: nat | k < |trace| ensures AnswerStepAt(cfg, listed, trace + [m], es, k) {
      if k < |trace| - 1 { assert AnswerStepAt(cfg, listed, trace, es, k); }
    }
  }

  /** Entries overlaid in order: a later entry for the same address wins. */
  function Overlay(m: IpMap, es: seq<Entry>): IpMap
  {
    if es == [] then m else Overlay(m, es[..|es| - 1])[es[|es| - 1].ip := es[|es| - 1]]
  }

  predicate Answered(records: Answer, ip: IpAddr)
  {
    exists i | 0 <= i < |records| :: records[i].0 == ip
  }

  /** Position `i` is the last one of an address in an answer. */
  ghost predicate LastAnswered(answer: Answer, ip: IpAddr, i: int)
  {
    0 <= i < |answer| && answer[i].0 == ip && forall j | i < j < |answer| :: answer[j].0 != ip
  }

  /** No prefix of the answer takes the store over a cap, and no other domain is listed without an address. */
  ghost predicate MeetsNoCap(cfg: Config, s: StoreState, domain: string, answer: Answer, rule: Rule, now: nat)
  {
    && Empties(s.byDomain) <= {Normalize(domain)}
    && NeverOverCaps(cfg, s.byIp, Normalize(domain), Wanted(domain, answer, rule, cfg, now))
  }

  /**
    An answer that meets no cap: each answered address is then held for the
    rule's target until the TTL of its last occurrence, brought into the bounds,
    has passed.
  */
  lemma AnsweredUntil(cfg: Config, m: IpMap, domain: string, answer: Answer, rule: Rule, now: nat, ip: IpAddr, i: int,
                      ttl: nat)
    requires Keyed(m) && LastAnswered(answer, ip, i) && IsBounded(answer[i].1, cfg.minTtl, cfg.maxTtl, ttl)
    ensures var m' := LatestAnswer(m, Normalize(domain), Wanted(domain, answer, rule, cfg, now));
            ip in m' && m'[ip] == Entry(ip, Normalize(domain), rule.pattern, rule.target, now + ttl, ttl)
  {
    var es, d := Wanted(domain, answer, rule, cfg, now), Normalize(domain);
    WantedMeans(domain, answer, rule, cfg, now);
    hide Wanted, Clamp, LatestAnswer, Normalize;
    forall e | e in es ensures e.domain == d {
      var k :| 0 <= k < |es| && es[k] == e;
    }
    LatestAnswerReplaces(m, d, es);
    assert es[i].ip == ip && ip in IpsOf(LatestAnswer(m, d, es), d);
    var k :| LastFor(es, ip, k) && LatestAnswer(m, d, es)[ip] == es[k];
    assert answer[k].0 == ip && es[k].ip == ip;
    assert k == i;
  }

  /** Whatever is evicted: an answered address that is still held has the rule's target and one of its answered TTLs. */
  ghost predicate HeldAsAnswered(cfg: Config, m: IpMap, domain: string, answer: Answer, rule: Rule, now: nat)
  {
    forall ip | ip in m && Answered(answer, ip) ::
      && m[ip].domain == Normalize(domain) && m[ip].pattern == rule.pattern && m[ip].target == rule.target
      && m[ip].expiresAt >= now
      && exists i | 0 <= i < |answer| ::
           answer[i].0 == ip && IsBounded(answer[i].1, cfg.minTtl, cfg.maxTtl, m[ip].expiresAt - now)
  }

  lemma TrackedIsAnswered(cfg: Config, m: IpMap, m': IpMap, domain: string, answer: Answer, rule: Rule, now: nat,
                          added: seq<Entry>)
    requires Keyed(m')
    requires var es := Wanted(domain, answer, rule, cfg, now); Tracked(m, m', es, added, rule.target, |es|)
    ensures HeldAsAnswered(cfg, m', domain, answer, rule, now)
  {
    var es := Wanted(domain, answer, rule, cfg, now);
    WantedMeans(domain, answer, rule, cfg, now);
    hide Wanted, Clamp, Normalize;
    assert es[..|es|] == es;
    forall ip | ip in m' && Answered(answer, ip)
      ensures m'[ip].domain == Normalize(domain) && m'[ip].pattern == rule.pattern && m'[ip].target == rule.target
      ensures m'[ip].expiresAt >= now && exists i | 0 <= i < |answer| ::
                answer[i].0 == ip && IsBounded(answer[i].1, cfg.minTtl, cfg.maxTtl, m'[ip].expiresAt - now)
    {
      var j :| 0 <= j < |answer| && answer[j].0 == ip;
      assert es[j].ip == ip;
      assert m'[ip] in es;
      var i :| 0 <= i < |es| && es[i] == m'[ip];
      assert answer[i].0 == ip;
    }
  }

  /** The newest answer replaces the domain's old one. */
  function LatestAnswer(m: IpMap, domain: string, es: seq<Entry>): IpMap
  {
    Overlay(m - Withdrawn(m, domain, es), es)
  }

  /** No prefix of the answer takes the store over a cap. */
  ghost predicate NeverOverCaps(cfg: Config, m: IpMap, domain: string, es: seq<Entry>)
  {
    forall k | 0 <= k <= |es| :: WithinCaps(cfg, Overlay(m - Withdrawn(m, domain, es), es[..k]))
  }

  /** Position `i` is the last one of an address in a list of entries. */
  ghost predicate LastFor(es: seq<Entry>, ip: IpAddr, i: int)
  {
    0 <= i < |es| && es[i].ip == ip && forall j | i < j < |es| :: es[j].ip != ip
  }

  lemma IpsInAppend(es: seq<Entry>, e: Entry)
    ensures IpsIn(es + [e]) == IpsIn(es) + {e.ip}
  {
    forall ip | ip in IpsIn(es) + {e.ip} ensures ip in IpsIn(es + [e]) {
      if ip in IpsIn(es) {
        var i :| 0 <= i < |es| && es[i].ip == ip;
        assert (es + [e])[i].ip == ip;
      } else {
        assert (es + [e])[|es|].ip == ip;
      }
    }
  }

  /** The winner for an address, after one more entry. */
  lemma WinnerNext(init: seq<Entry>, last: Entry, ip: IpAddr)
    requires ip == last.ip || exists i :: LastFor(init, ip, i)
    ensures ip == last.ip ==> LastFor(init + [last], ip, |init|)
    ensures ip != last.ip ==> forall i | LastFor(init, ip, i) :: LastFor(init + [last], ip, i)
  {
  }

  lemma OverlaySnoc(m: IpMap, init: seq<Entry>, last: Entry)
    ensures Overlay(m, init + [last]) == Overlay(m, init)[last.ip := last]
  {
    assert (init + [last])[..|init|] == init;
  }

  lemma {:induction false} OverlayMeaning(m: IpMap, es: seq<Entry>)
    ensures Keyed(m) ==> Keyed(Overlay(m, es))
    ensures Overlay(m, es).Keys == m.Keys + IpsIn(es)
    ensures forall ip | ip in m && ip !in IpsIn(es) :: Overlay(m, es)[ip] == m[ip]
    ensures forall ip | ip in IpsIn(es) :: exists i :: LastFor(es, ip, i) && Overlay(m, es)[ip] == es[i]
  {
    if es != [] {
      hide IpsIn, LastFor, Overlay;
      var init, last := es[..|es| - 1], es[|es| - 1];
      assert es == init + [last];
      OverlayMeaning(m, init);
      IpsInAppend(init, last);
      OverlaySnoc(m, init, last);
      forall ip | ip in IpsIn(es) ensures exists i :: LastFor(es, ip, i) && Overlay(m, es)[ip] == es[i] {
        if ip == last.ip {
          WinnerNext(init, last, ip);
        } else {
          var i :| LastFor(init, ip, i) && Overlay(m, init)[ip] == init[i];
          WinnerNext(init, last, ip);
          assert LastFor(es, ip, i) && es[i] == init[i];
        }
      }
    } else {
      NothingOverlaid(m);
    }
  }

  lemma NothingOverlaid(m: IpMap)
    ensures Overlay(m, []) == m && IpsIn([]) == {}
  {
  }

  /**
    Below the caps an answer is applied exactly: the address index becomes the
    old one with the domain's withdrawn addresses gone and the answered ones
    overlaid, whatever order anything was iterated in.
  */
  lemma {:induction false} UncappedAnswerIsExact(cfg: Config, m: IpMap, domain: string, es: seq<Entry>,
                                                 trace: seq<IpMap>, k: nat)
    requires |trace| == |es| + 1 && AnswerTrace(cfg, 0, trace, es) && trace[0] == m - Withdrawn(m, domain, es)
    requires NeverOverCaps(cfg, m, domain, es) && k <= |es|
    ensures trace[k] == Overlay(trace[0], es[..k])
  {
    if k > 0 {
      UncappedAnswerIsExact(cfg, m, domain, es, trace, k - 1);
      TakeStep(es, k);
      assert Overlay(trace[0], es[..k]) == trace[k - 1][es[k - 1].ip := es[k - 1]];
      assert AnswerStepAt(cfg, 0, trace, es, k - 1);
      assert WithinCaps(cfg, Overlay(trace[0], es[..k]));
      if !Refreshes(trace[k - 1], es[k - 1]) {
        NothingEvictedWithinCaps(cfg, Overlay(trace[0], es[..k]), trace[k]);
      }
    }
  }

  /**
    What `LatestAnswer` means: the domain holds exactly the answered addresses,
    each with the data of its last occurrence in the answer, and other domains
    lose only addresses they share with it.
  */
  lemma LatestAnswerReplaces(m: IpMap, domain: string, es: seq<Entry>)
    requires Keyed(m) && forall e | e in es :: e.domain == domain
    ensures Keyed(LatestAnswer(m, domain, es))
    ensures IpsOf(LatestAnswer(m, domain, es), domain) == IpsIn(es)
    ensures forall other | other != domain :: IpsOf(LatestAnswer(m, domain, es), other) == IpsOf(m, other) - IpsIn(es)
    ensures forall ip | ip in LatestAnswer(m, domain, es) && ip !in IpsIn(es) ::
              ip in m && LatestAnswer(m, domain, es)[ip] == m[ip]
    ensures forall ip | ip in IpsIn(es) ::
              exists i :: LastFor(es, ip, i) && LatestAnswer(m, domain, es)[ip] == es[i]
  {
    OverlayMeaning(m - Withdrawn(m, domain, es), es);
    var r := LatestAnswer(m, domain, es);
    forall ip | ip in IpsIn(es) ensures r[ip].domain == domain {
      var i :| LastFor(es, ip, i) && r[ip] == es[i];
    }
  }

  /** Caps that leave room for the whole answer and the domain itself are never exceeded on the way. */
  lemma RoomMeansNeverOverCaps(cfg: Config, m: IpMap, domain: string, es: seq<Entry>)
    requires Keyed(m) && forall e | e in es :: e.domain == domain
    requires |m.Keys + IpsIn(es)| <= cfg.maxIps && |Domains(m) + {domain}| <= cfg.maxDomains
    ensures NeverOverCaps(cfg, m, domain, es)
  {
    var base := m - Withdrawn(m, domain, es);
    forall k | 0 <= k <= |es| ensures WithinCaps(cfg, Overlay(base, es[..k])) {
      PrefixIps(es, k);
      OverlayWithinCaps(cfg, m, base, domain, IpsIn(es), es[..k]);
    }
  }

  lemma OverlayWithinCaps(cfg: Config, m: IpMap, base: IpMap, domain: string, ips: set<IpAddr>, es: seq<Entry>)
    requires Submap(base, m) && IpsIn(es) <= ips && forall e | e in es :: e.domain == domain
    requires |m.Keys + ips| <= cfg.maxIps && |Domains(m) + {domain}| <= cfg.maxDomains
    ensures WithinCaps(cfg, Overlay(base, es))
  {
    var r := Overlay(base, es);
    OverlayMeaning(base, es);
    SubsetCount(r.Keys, m.Keys + ips);
    forall ip | ip in r ensures r[ip].domain in Domains(m) + {domain} {
      if ip in IpsIn(es) {
        var i :| LastFor(es, ip, i) && r[ip] == es[i];
      } else {
        assert r[ip] == m[ip];
      }
    }
    SubsetCount(Domains(r), Domains(m) + {domain});
  }

  lemma PrefixIps(es: seq<Entry>, k: nat)
    requires k <= |es|
    ensures IpsIn(es[..k]) <= IpsIn(es)
  {
    forall ip | ip in IpsIn(es[..k]) ensures ip in IpsIn(es) {
      var i :| 0 <= i < k && es[..k][i].ip == ip;
      assert es[i].ip == ip;
    }
  }

  // ----- Diffs -----

  /** The part of an address index under some addresses. */
  function Only(m: IpMap, ips: set<IpAddr>): IpMap
  {
    map ip | ip in m && ip in ips :: m[ip]
  }

  /** `es` lists the values of `m`, each once. */
  ghost predicate Lists(es: seq<Entry>, m: IpMap)
  {
    && (forall i | 0 <= i < |es| :: es[i].ip in m && m[es[i].ip] == es[i])
    && (forall ip | ip in m :: m[ip] in es)
    && (forall i, j | 0 <= i < j < |es| :: es[i].ip != es[j].ip)
  }

  lemma ListsNothing(es: seq<Entry>, m: IpMap, ips: set<IpAddr>)
    requires Lists(es, Only(m, ips)) && ips <= m.Keys
    ensures es == [] <==> ips == {}
  {
    if ips != {} {
      var ip :| ip in ips;
      assert ip in Only(m, ips);
    }
    if es != [] { assert es[0].ip in Only(m, ips); }
  }

  lemma ListsNext(es: seq<Entry>, m: IpMap, done: set<IpAddr>, ip: IpAddr)
    requires Keyed(m) && Lists(es, Only(m, done)) && ip in m && ip !in done
    ensures Lists(es + [m[ip]], Only(m, done + {ip}))
  {
    var es', part := es + [m[ip]], Only(m, done + {ip});
    forall other | other in part ensures part[other] in es' {
      if other != ip { assert other in Only(m, done); }
    }
  }

  /** Which answered entries are reported as added: not a refresh of what was held, nor of an earlier duplicate. */
  function AddedOf(m: IpMap, es: seq<Entry>): seq<Entry>
  {
    if es == [] then []
    else
      var init, last := es[..|es| - 1], es[|es| - 1];
      AddedOf(m, init) + if Refreshes(m, last) || last.ip in IpsIn(init) then [] else [last]
  }

  function RefreshedOf(m: IpMap, es: seq<Entry>): seq<Entry>
  {
    if es == [] then []
    else
      var init, last := es[..|es| - 1], es[|es| - 1];
      RefreshedOf(m, init) + if Refreshes(m, last) || last.ip in IpsIn(init) then [last] else []
  }

  /** An answered entry is new: the first for its address, which is not held for the same name, pattern and target. */
  ghost predicate IsNew(m: IpMap, es: seq<Entry>, k: nat)
    requires k < |es|
  {
    var e := es[k];
    && (forall j | 0 <= j < k :: es[j].ip != e.ip)
    && !(e.ip in m && m[e.ip].domain == e.domain && m[e.ip].pattern == e.pattern && m[e.ip].target == e.target)
  }

  ghost predicate AddedAt(m: IpMap, es: seq<Entry>, at: seq<nat>)
  {
    Picks(at, es, AddedOf(m, es)) && forall k: nat | k < |es| :: k in at <==> IsNew(m, es, k)
  }

  ghost predicate RefreshedAt(m: IpMap, es: seq<Entry>, at: seq<nat>)
  {
    Picks(at, es, RefreshedOf(m, es)) && forall k: nat | k < |es| :: k in at <==> !IsNew(m, es, k)
  }

  lemma NewAppend(m: IpMap, init: seq<Entry>, last: Entry)
    ensures forall k: nat | k < |init| :: IsNew(m, init + [last], k) <==> IsNew(m, init, k)
    ensures IsNew(m, init + [last], |init|) <==> !(Refreshes(m, last) || last.ip in IpsIn(init))
  {
    var es := init + [last];
    assert forall j | 0 <= j < |init| :: es[j] == init[j];
    assert es[|init|] == last;
    assert last.ip in IpsIn(init) <==> exists j | 0 <= j < |init| :: es[j].ip == last.ip;
  }

  lemma AddedSnoc(m: IpMap, init: seq<Entry>, last: Entry)
    ensures AddedOf(m, init + [last])
            == if Refreshes(m, last) || last.ip in IpsIn(init) then AddedOf(m, init) else AddedOf(m, init) + [last]
    ensures RefreshedOf(m, init + [last])
            == if Refreshes(m, last) || last.ip in IpsIn(init) then RefreshedOf(m, init) + [last]
               else RefreshedOf(m, init)
  {
    assert (init + [last])[..|init|] == init;
    hide Refreshes, IpsIn;
  }

  lemma AddedNext(m: IpMap, init: seq<Entry>, last: Entry, at: seq<nat>)
    requires AddedAt(m, init, at)
    ensures AddedAt(m, init + [last], if IsNew(m, init + [last], |init|) then at + [|init|] else at)
  {
    NewAppend(m, init, last);
    AddedSnoc(m, init, last);
    PicksNext(at, init, AddedOf(m, init), last);
    hide IsNew, Refreshes, IpsIn, AddedOf, Picks;
  }

  lemma RefreshedNext(m: IpMap, init: seq<Entry>, last: Entry, at: seq<nat>)
    requires RefreshedAt(m, init, at)
    ensures RefreshedAt(m, init + [last], if IsNew(m, init + [last], |init|) then at else at + [|init|])
  {
    NewAppend(m, init, last);
    AddedSnoc(m, init, last);
    PicksNext(at, init, RefreshedOf(m, init), last);
    hide IsNew, Refreshes, IpsIn, RefreshedOf, Picks;
  }

  /** The new entries are reported as added, the others as refreshed, both in the order of the answer. */
  lemma {:induction false} ReportedIff(m: IpMap, es: seq<Entry>) returns (added: seq<nat>, refreshed: seq<nat>)
    ensures AddedAt(m, es, added) && RefreshedAt(m, es, refreshed)
  {
    if es == [] {
      added, refreshed := [], [];
    } else {
      var init, last := es[..|es| - 1], es[|es| - 1];
      added, refreshed := ReportedIff(m, init);
      assert es == init + [last];
      hide AddedAt, RefreshedAt, IsNew;
      AddedNext(m, init, last, added);
      RefreshedNext(m, init, last, refreshed);
      if IsNew(m, es, |init|) {
        added := added + [|init|];
      } else {
        refreshed := refreshed + [|init|];
      }
    }
  }

  /** Added and refreshed entries together are the answer, duplicates included. */
  ghost predicate Covered(diff: Diff, es: seq<Entry>)
  {
    multiset(diff.added) + multiset(diff.refreshed) == multiset(es)
  }

  /**
    After `k` addresses of an answer: an answered address that is held carries
    one of the answer's entries, any other one is as before; and an answered
    address not reported as added was held before for the same target.
  */
  ghost predicate Tracked(m: IpMap, m': IpMap, es: seq<Entry>, added: seq<Entry>, target: RouteTarget, k: nat)
    requires k <= |es|
  {
    && Explained(m, m', es, IpsIn(es[..k]))
    && forall ip | ip in IpsIn(es[..k]) - IpsIn(added) :: ip in m && m[ip].target == target
  }

  ghost predicate Explained(m: IpMap, m': IpMap, es: seq<Entry>, answered: set<IpAddr>)
  {
    forall ip | ip in m' :: if ip in answered then m'[ip] in es else ip in m && m'[ip] == m[ip]
  }

  /** Every entry of an answer carries the same domain, pattern and target. */
  ghost predicate Uniform(es: seq<Entry>, domain: string, rule: Rule)
  {
    forall e | e in es :: e.domain == domain && e.pattern == rule.pattern && e.target == rule.target
  }

  /** One more address of an answer, in terms of what has been reported so far, whatever is then evicted. */
  lemma TrackedNext(m: IpMap, before: IpMap, after: IpMap, es: seq<Entry>, added: seq<Entry>, domain: string,
                    rule: Rule, k: nat)
    requires k < |es| && Uniform(es, domain, rule)
    requires Tracked(m, before, es, added, rule.target, k) && Submap(after, before[es[k].ip := es[k]])
    ensures Tracked(m, after, es, if Refreshes(before, es[k]) then added else added + [es[k]], rule.target, k + 1)
  {
    var e := es[k];
    TakeStep(es, k + 1);
    IpsInAppend(es[..k], e);
    IpsInAppend(added, e);
    assert e in es;
    ExplainedNext(m, before, after, es, IpsIn(es[..k]), e);
  }

  lemma ExplainedNext(m: IpMap, before: IpMap, after: IpMap, es: seq<Entry>, answered: set<IpAddr>, e: Entry)
    requires e in es && Explained(m, before, es, answered) && Submap(after, before[e.ip := e])
    ensures Explained(m, after, es, answered + {e.ip})
  {
  }

  lemma EvictionOnlyRemoves(cfg: Config, listed: nat, m: IpMap, kept: IpMap)
    requires Evicted(cfg, listed, m, kept)
    ensures Submap(kept, m)
  {
  }

  /** Whether an answered address is a refresh depends only on the state before the answer and its duplicates. */
  lemma RefreshOfOverlay(m: IpMap, domain: string, rule: Rule, es: seq<Entry>, k: nat)
    requires k < |es| && Uniform(es, domain, rule)
    ensures Refreshes(Overlay(m - Withdrawn(m, domain, es), es[..k]), es[k]) <==>
            Refreshes(m, es[k]) || es[k].ip in IpsIn(es[..k])
  {
    var base := m - Withdrawn(m, domain, es);
    OverlayMeaning(base, es[..k]);
    assert es[k].ip in IpsIn(es) && es[k] in es;
    if es[k].ip in IpsIn(es[..k]) {
      var i :| LastFor(es[..k], es[k].ip, i) && Overlay(base, es[..k])[es[k].ip] == es[..k][i];
      assert es[i] in es;
    }
  }

  // ----- Whole runs -----

  datatype StoreState = StoreState(rules: seq<Rule>, byIp: IpMap, byDomain: DomainMap, generation: nat)

  datatype Op =
    | SetRules(rules: seq<Rule>)
    | Resolve(domain: string, answer: Answer, rule: Rule, now: nat)
    | Purge(now: nat)
    | Prune
    | Clear
    | Load(persisted: Persisted, now: nat)

  const U64_MAX: nat := 0xFFFF_FFFF_FFFF_FFFF

  function Bumped(generation: nat): nat
  {
    if generation < U64_MAX then generation + 1 else generation
  }

  function Live(m: IpMap, now: nat): IpMap
  {
    map ip | ip in m && m[ip].expiresAt > now :: m[ip]
  }

  predicate StillRuled(rules: seq<Rule>, e: Entry)
  {
    exists i | 0 <= i < |rules| :: rules[i].pattern == e.pattern && rules[i].target == e.target
  }

  function Ruled(rules: seq<Rule>, m: IpMap): IpMap
  {
    map ip | ip in m && StillRuled(rules, m[ip]) :: m[ip]
  }

  /** The entries of a persisted cache that have not expired, in their persisted order. */
  function Unexpired(es: seq<Entry>, now: nat): seq<Entry>
  {
    if es == [] then []
    else Unexpired(es[..|es| - 1], now) + if es[|es| - 1].expiresAt > now then [es[|es| - 1]] else []
  }

  /** The address index after each insertion of a list of entries. */
  ghost predicate InsertTrace(cfg: Config, trace: seq<IpMap>, es: seq<Entry>)
  {
    && |trace| == |es| + 1
    && forall k: nat | k < |es| :: InsertStepAt(cfg, trace, es, k)
  }

  ghost predicate InsertStepAt(cfg: Config, trace: seq<IpMap>, es: seq<Entry>, k: nat)
    requires |trace| == |es| + 1 && k < |es|
  {
    Evicted(cfg, 0, trace[k][es[k].ip := es[k]], trace[k + 1])
  }

  lemma InsertTraceNext(cfg: Config, trace: seq<IpMap>, es: seq<Entry>, e: Entry, m: IpMap)
    requires InsertTrace(cfg, trace, es) && Evicted(cfg, 0, trace[|es|][e.ip := e], m)
    ensures InsertTrace(cfg, trace + [m], es + [e])
  {
    forall k: nat | k < |es + [e]| ensures InsertStepAt(cfg, trace + [m], es + [e], k) {
      if k < |es| { assert InsertStepAt(cfg, trace, es, k); }
    }
  }

  /** One operation of the store, as a relation between the states before and after. */
  ghost predicate Step(cfg: Config, s: StoreState, op: Op, s': StoreState)
  {
    match op
    case SetRules(rules) =>
      s' == s.(rules := StableSort(rules, BY_PRIORITY), generation := Bumped(s.generation))
    case Resolve(domain, answer, rule, now) =>
      var es, d := Wanted(domain, answer, rule, cfg, now), Normalize(domain);
      && s'.rules == s.rules && s'.generation == s.generation
      && Agree(s'.byIp, s'.byDomain)
      && Empties(s'.byDomain) == (if es != [] then Empties(s.byDomain) - {d}
                                  else if d in Domains(s.byIp) then Empties(s.byDomain)
                                  else Empties(s.byDomain) + {d})
      && exists trace ::
           && |trace| == |es| + 1 && AnswerTrace(cfg, |Empties(s.byDomain) - {d}|, trace, es)
           && trace[0] == s.byIp - Withdrawn(s.byIp, d, es) && trace[|es|] == s'.byIp
    case Purge(now) =>
      && s'.rules == s.rules && s'.generation == s.generation && s'.byIp == Live(s.byIp, now)
      && Agree(s'.byIp, s'.byDomain) && Empties(s'.byDomain) == Empties(s.byDomain)
    case Prune =>
      && s'.rules == s.rules && s'.generation == s.generation && s'.byIp == Ruled(s.rules, s.byIp)
      && Agree(s'.byIp, s'.byDomain) && Empties(s'.byDomain) == Empties(s.byDomain)
    case Clear =>
      s' == s.(byIp := map[], byDomain := map[], generation := Bumped(s.generation))
    case Load(p, now) =>
      var es := Unexpired(p.entries, now);
      && s'.rules == [] && s'.generation == p.generation
      && Agree(s'.byIp, s'.byDomain) && Empties(s'.byDomain) == {}
      && exists trace :: InsertTrace(cfg, trace, es) && trace[0] == map[] && trace[|es|] == s'.byIp
  }

  /** The store's invariant: exact inverses, no empty domain, both caps. */
  ghost predicate Inv(cfg: Config, s: StoreState)
  {
    Keyed(s.byIp) && s.byDomain == IndexOf(s.byIp) && WithinCaps(cfg, s.byIp)
  }

  lemma {:induction false} TraceWithinCaps(cfg: Config, trace: seq<IpMap>, es: seq<Entry>, k: nat)
    requires |trace| == |es| + 1 && AnswerTrace(cfg, 0, trace, es) && WithinCaps(cfg, trace[0]) && k <= |es|
    ensures WithinCaps(cfg, trace[k])
  {
    if k > 0 {
      TraceWithinCaps(cfg, trace, es, k - 1);
      assert AnswerStepAt(cfg, 0, trace, es, k - 1);
      if Refreshes(trace[k - 1], es[k - 1]) {
        RefreshKeepsDomains(trace[k - 1], es[k - 1]);
      } else {
        EvictionMeetsCaps(cfg, trace[k - 1][es[k - 1].ip := es[k - 1]], trace[k]);
      }
    }
  }

  lemma RefreshKeepsDomains(m: IpMap, e: Entry)
    requires Refreshes(m, e)
    ensures m[e.ip := e].Keys == m.Keys && |m[e.ip := e]| == |m| && Domains(m[e.ip := e]) == Domains(m)
  {
    var m' := m[e.ip := e];
    assert m'.Keys == m.Keys;
    forall d | d in Domains(m) ensures d in Domains(m') {
      var ip :| ip in m && m[ip].domain == d;
      assert m'[ip].domain == d;
    }
    forall d | d in Domains(m') ensures d in Domains(m) {
      var ip :| ip in m' && m'[ip].domain == d;
      assert m[ip].domain == d;
    }
  }

  lemma {:induction false} InsertTraceWithinCaps(cfg: Config, trace: seq<IpMap>, es: seq<Entry>, k: nat)
    requires InsertTrace(cfg, trace, es) && WithinCaps(cfg, trace[0]) && k <= |es|
    ensures WithinCaps(cfg, trace[k])
  {
    if k > 0 {
      assert InsertStepAt(cfg, trace, es, k - 1);
      EvictionMeetsCaps(cfg, trace[k - 1][es[k - 1].ip := es[k - 1]], trace[k]);
    }
  }

  /**
    Resolving is the one operation that can break the invariant, and it does so
    exactly for an empty answer about a domain that is not held: that lists the
    domain with no address.
  */
  lemma ResolveKeepsInvIff(cfg: Config, s: StoreState, domain: string, answer: Answer, rule: Rule, now: nat,
                           s': StoreState)
    requires Inv(cfg, s) && Step(cfg, s, Resolve(domain, answer, rule, now), s')
    ensures Inv(cfg, s') <==> answer != [] || Normalize(domain) in s.byDomain
  {
    var es, d := Wanted(domain, answer, rule, cfg, now), Normalize(domain);
    AgreeMeansIndex(s.byIp, s.byDomain);
    AgreeMeansIndex(s'.byIp, s'.byDomain);
    var trace :| |trace| == |es| + 1 && AnswerTrace(cfg, |Empties(s.byDomain) - {d}|, trace, es)
                 && trace[0] == s.byIp - Withdrawn(s.byIp, d, es) && trace[|es|] == s'.byIp;
    assert Empties(s.byDomain) - {d} == {};
    SubmapCounts(trace[0], s.byIp);
    TraceWithinCaps(cfg, trace, es, |es|);
  }

  lemma StepKeepsInv(cfg: Config, s: StoreState, op: Op, s': StoreState)
    requires Inv(cfg, s) && Step(cfg, s, op, s')
    requires op.Resolve? ==> op.answer != []
    ensures Inv(cfg, s')
  {
    AgreeMeansIndex(s.byIp, s.byDomain);
    AgreeMeansIndex(s'.byIp, s'.byDomain);
    match op
    case SetRules(_) =>
    case Resolve(domain, answer, rule, now) => ResolveKeepsInvIff(cfg, s, domain, answer, rule, now, s');
    case Purge(_) => SubmapCounts(s'.byIp, s.byIp);
    case Prune => SubmapCounts(s'.byIp, s.byIp);
    case Clear => assert Domains(s'.byIp) == {} && IndexOf(s'.byIp) == map[];
    case Load(p, now) =>
      var es := Unexpired(p.entries, now);
      var trace :| InsertTrace(cfg, trace, es) && trace[0] == map[] && trace[|es|] == s'.byIp;
      assert Domains(trace[0]) == {};
      InsertTraceWithinCaps(cfg, trace, es, |es|);
  }

  /** Every state of every run keeps the invariant. */
  lemma {:induction false} RunKeepsInv(cfg: Config, states: seq<StoreState>, ops: seq<Op>, k: nat)
    requires |states| == |ops| + 1 && k <= |ops| && Inv(cfg, states[0])
    requires forall i | 0 <= i < |ops| :: Step(cfg, states[i], ops[i], states[i + 1])
    requires forall i | 0 <= i < |ops| :: ops[i].Resolve? ==> ops[i].answer != []
    ensures Inv(cfg, states[k])
  {
    if k > 0 {
      RunKeepsInv(cfg, states, ops, k - 1);
      StepKeepsInv(cfg, states[k - 1], ops[k - 1], states[k]);
    }
  }

  // ----- Restart -----

  lemma {:induction false} UnexpiredMembers(es: seq<Entry>, now: nat)
    ensures forall e :: e in Unexpired(es, now) <==> e in es && e.expiresAt > now
    ensures (forall i, j | 0 <= i < j < |es| :: es[i].ip != es[j].ip) ==>
              forall i, j | 0 <= i < j < |Unexpired(es, now)| :: Unexpired(es, now)[i].ip != Unexpired(es, now)[j].ip
  {
    if es != [] {
      var init, last := es[..|es| - 1], es[|es| - 1];
      UnexpiredMembers(init, now);
      assert es == init + [last];
      assert Unexpired(es, now) == Unexpired(init, now) + if last.expiresAt > now then [last] else [];
      hide Unexpired;
      if forall i, j | 0 <= i < j < |es| :: es[i].ip != es[j].ip {
        forall i, j | 0 <= i < j < |init| ensures init[i].ip != init[j].ip {
          assert init[i] == es[i] && init[j] == es[j];
        }
        forall e | e in init ensures e.ip != last.ip {
          var i :| 0 <= i < |init| && init[i] == e;
          assert es[i] == e;
        }
      }
    }
  }

  lemma InsertOnePart(cfg: Config, m: IpMap, part: IpMap, e: Entry, part': IpMap)
    requires Submap(part, m) && WithinCaps(cfg, m) && e.ip in m && m[e.ip] == e
    requires Evicted(cfg, 0, part[e.ip := e], part')
    ensures part' == part[e.ip := e] && Submap(part', m)
  {
    PartWithinCaps(cfg, part[e.ip := e], m);
    NothingEvictedWithinCaps(cfg, part[e.ip := e], part');
  }

  /** Inserting part of a store that respects the caps evicts nothing. */
  lemma {:induction false} InsertingPartOf(cfg: Config, m: IpMap, trace: seq<IpMap>, es: seq<Entry>, k: nat)
    requires WithinCaps(cfg, m) && InsertTrace(cfg, trace, es) && trace[0] == map[] && k <= |es|
    requires forall e | e in es :: e.ip in m && m[e.ip] == e
    ensures Submap(trace[k], m) && trace[k].Keys == IpsIn(es[..k])
  {
    if k > 0 {
      InsertingPartOf(cfg, m, trace, es, k - 1);
      assert InsertStepAt(cfg, trace, es, k - 1);
      InsertOnePart(cfg, m, trace[k - 1], es[k - 1], trace[k]);
      TakeStep(es, k);
      IpsInAppend(es[..k - 1], es[k - 1]);
    }
  }

  /**
    A restart keeps exactly what has not expired: persisting a store within its
    caps and loading it under the same configuration gives the unexpired
    entries, their domain index and the same generation, whatever order the
    entries were persisted in, and evicts nothing.
  */
  lemma RestartKeepsUnexpired(cfg: Config, s: StoreState, before: StoreState, p: Persisted, now: nat, s': StoreState)
    requires Inv(cfg, s)
    requires p.generation == s.generation && Lists(p.entries, s.byIp)
    requires Step(cfg, before, Load(p, now), s')
    ensures s'.byIp == Live(s.byIp, now)
    ensures s'.byDomain == IndexOf(Live(s.byIp, now))
    ensures s'.generation == s.generation
  {
    hide Unexpired, InsertStepAt, Agree, IndexOf, Empties, WithinCaps;
    var es := Unexpired(p.entries, now);
    UnexpiredMembers(p.entries, now);
    forall e | e in es ensures e.ip in s.byIp && s.byIp[e.ip] == e {
      assert e in p.entries;
    }
    var trace :| InsertTrace(cfg, trace, es) && trace[0] == map[] && trace[|es|] == s'.byIp;
    InsertingPartOf(cfg, s.byIp, trace, es, |es|);
    assert es[..|es|] == es;
    forall ip ensures ip in s'.byIp <==> ip in Live(s.byIp, now) {
      if ip in Live(s.byIp, now) {
        assert s.byIp[ip] in es;
        var i :| 0 <= i < |es| && es[i] == s.byIp[ip];
        assert es[i].ip == ip;
      }
      if ip in s'.byIp {
        var i :| 0 <= i < |es| && es[i].ip == ip;
        assert es[i] in es;
      }
    }
    assert s'.byIp == Live(s.byIp, now);
    AgreeMeansIndex(s'.byIp, s'.byDomain);
  }
}
