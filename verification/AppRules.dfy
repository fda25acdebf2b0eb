/** Application rules: path normalisation, the wildcard matcher, and the priority-ordered lookup. */
module AppRules {

  import opened Common
  import opened Priority

  datatype RuleMode = Exclude | Include

  datatype RoutingMode = FullTunnel | SplitInclude

  datatype AppRule = AppRule(priority: nat, mode: RuleMode, path: string)

  datatype AppRuleEntry = AppRuleEntry(priority: nat, path: string, normalized: string)

  datatype AppRuleSet = AppRuleSet(excludes: seq<AppRuleEntry>, includes: seq<AppRuleEntry>)

  // ----- Wildcard patterns: what they mean -----

  /** A pattern matches by backtracking: `*` stands for any text, every other character for itself. */
  predicate Matches(p: string, t: string)
    decreases |p|, |t|
  {
    if p == "" then t == ""
    else if p[0] == '*' then Matches(p[1..], t) || (t != "" && Matches(p, t[1..]))
    else t != "" && t[0] == p[0] && Matches(p[1..], t[1..])
  }

  /** `split('*')`: always at least one part. */
  function Split(p: string): (parts: seq<string>)
    ensures |parts| >= 1
    ensures |parts| == 1 <==> '*' !in p
    ensures |parts| == 1 ==> parts == [p]
  {
    if p == "" then [""]
    else
      var rest := Split(p[1..]);
      assert p == [p[0]] + p[1..];
      if p[0] == '*' then [""] + rest else [[p[0]] + rest[0]] + rest[1..]
  }

  predicate OccursAt(t: string, part: string, k: nat)
  {
    k + |part| <= |t| && t[k..k + |part|] == part
  }

  /** `str::find`: the leftmost occurrence. */
  function Find(t: string, part: string): (r: Option<nat>)
    ensures r.Some? ==> r.value + |part| <= |t|
    ensures r.Some? ==> OccursAt(t, part, r.value) && forall k: nat | OccursAt(t, part, k) :: r.value <= k
    ensures r.None? ==> forall k: nat :: !OccursAt(t, part, k)
  {
    if OccursAt(t, part, 0) then Some(0)
    else if t == "" then
      assert forall k: nat | OccursAt(t, part, k) :: k == 0;
      None
    else
      var r := Find(t[1..], part);
      assert forall k: nat | OccursAt(t, part, k) :: OccursAt(t[1..], part, k - 1) by {
        forall k: nat | OccursAt(t, part, k) ensures OccursAt(t[1..], part, k - 1) {
          assert k != 0;
          assert t[1..][k - 1..k - 1 + |part|] == t[k..k + |part|];
        }
      }
      if r.Some? then
        assert t[1..][r.value..r.value + |part|] == t[r.value + 1..r.value + 1 + |part|];
        Some(r.value + 1)
      else None
  }

  /** The parts stand in `t` from position `k` on: any text between two of them, none after the last. */
  ghost predicate PartsAt(parts: seq<string>, t: string, k: nat)
    requires parts != [] && k <= |t|
    decreases |parts|, 0
  {
    if |parts| == 1 then t[k..] == parts[0]
    else OccursAt(t, parts[0], k) && PartsWithin(parts[1..], t[k + |parts[0]|..])
  }

  /** Any text, then the parts. */
  ghost predicate PartsWithin(parts: seq<string>, t: string)
    requires parts != []
    decreases |parts|, 1
  {
    exists k: nat :: k <= |t| && PartsAt(parts, t, k)
  }

  // ----- The meaning of a pattern in terms of its parts -----

  lemma {:induction false} StarAbsorbs(q: string, t: string)
    ensures Matches("*" + q, t) <==> exists j: nat | j <= |t| :: Matches(q, t[j..])
    decreases |t|
  {
    assert ("*" + q)[1..] == q && t[0..] == t;
    if t != "" {
      StarAbsorbs(q, t[1..]);
      if j: nat :| j <= |t[1..]| && Matches(q, t[1..][j..]) {
        assert t[1..][j..] == t[j + 1..];
      }
      if j: nat :| j <= |t| && Matches(q, t[j..]) && j > 0 {
        assert t[1..][j - 1..] == t[j..];
      }
    }
  }

  lemma PartsAtShift(parts: seq<string>, t: string, j: nat, k: nat)
    requires parts != [] && j + k <= |t|
    ensures PartsAt(parts, t[j..], k) <==> PartsAt(parts, t, j + k)
  {
    assert t[j..][k..] == t[j + k..];
    if |parts| > 1 && j + k + |parts[0]| <= |t| {
      assert t[j..][k..k + |parts[0]|] == t[j + k..j + k + |parts[0]|];
      assert t[j..][k + |parts[0]|..] == t[j + k + |parts[0]|..];
    }
  }

  lemma {:induction false} MatchesByParts(p: string, t: string)
    ensures Matches(p, t) <==> PartsAt(Split(p), t, 0)
    decreases |p|, 1
  {
    if p != "" {
      var q := p[1..];
      assert p == [p[0]] + q;
      if p[0] == '*' {
        MatchesStar(q, t);
      } else if t != "" && t[0] == p[0] {
        MatchesByParts(q, t[1..]);
        PartsAtCons(p[0], Split(q), t);
      }
    }
  }

  lemma {:induction false} MatchesStar(q: string, t: string)
    ensures Matches("*" + q, t) <==> PartsAt([""] + Split(q), t, 0)
    decreases |q| + 1, 0
  {
    StarAbsorbs(q, t);
    forall j: nat | j <= |t| ensures Matches(q, t[j..]) <==> PartsAt(Split(q), t, j) {
      MatchesByParts(q, t[j..]);
      PartsAtShift(Split(q), t, j, 0);
    }
    assert t[0..] == t && ([""] + Split(q))[1..] == Split(q);
    assert PartsWithin(Split(q), t) <==> exists j: nat | j <= |t| :: PartsAt(Split(q), t, j);
  }

  lemma PartsAtCons(c: char, parts: seq<string>, t: string)
    requires parts != [] && t != "" && t[0] == c
    ensures PartsAt(parts, t[1..], 0) <==> PartsAt([[c] + parts[0]] + parts[1..], t, 0)
  {
    assert t == [c] + t[1..] && t[0..] == t && t[1..][0..] == t[1..];
    if |parts| > 1 && |parts[0]| < |t| {
      assert t[0..1 + |parts[0]|] == [c] + t[1..][0..|parts[0]|];
      assert t[1..][|parts[0]|..] == t[1 + |parts[0]|..];
      assert ([[c] + parts[0]] + parts[1..])[1..] == parts[1..];
    }
  }

  // ----- Why the leftmost occurrence is always good enough -----

  lemma Position(parts: seq<string>, t: string) returns (k: nat)
    requires parts != [] && PartsWithin(parts, t)
    ensures k <= |t| && PartsAt(parts, t, k)
  {
    k :| k <= |t| && PartsAt(parts, t, k);
  }

  lemma LongerTextStillMatches(parts: seq<string>, t: string, j: nat)
    requires parts != [] && j <= |t| && PartsWithin(parts, t[j..])
    ensures PartsWithin(parts, t)
  {
    var k := Position(parts, t[j..]);
    PartsAtShift(parts, t, j, k);
  }

  /** The exchange argument: if any occurrence of the first part leads to a match, the leftmost does. */
  lemma LeftmostSuffices(parts: seq<string>, t: string)
    requires |parts| >= 2
    ensures PartsWithin(parts, t) <==>
            var r := Find(t, parts[0]); r.Some? && PartsWithin(parts[1..], t[r.value + |parts[0]|..])
  {
    if PartsWithin(parts, t) {
      var k := Position(parts, t);
      var first, len := Find(t, parts[0]).value, |parts[0]|;
      assert t[first + len..][k - first..] == t[k + len..];
      LongerTextStillMatches(parts[1..], t[first + len..], k - first);
    } else if Find(t, parts[0]).Some? {
      assert !PartsAt(parts, t, Find(t, parts[0]).value);
    }
  }

  lemma LastPartAtEnd(part: string, t: string)
    ensures PartsWithin([part], t) <==> EndsWith(t, part)
  {
    if EndsWith(t, part) {
      assert PartsAt([part], t, |t| - |part|);
    }
  }

  lemma EmptyPartAnywhere(parts: seq<string>, t: string)
    requires |parts| >= 2 && parts[0] == ""
    ensures PartsWithin(parts, t) <==> PartsWithin(parts[1..], t)
  {
    assert OccursAt(t, "", 0) && t[0..] == t;
    LeftmostSuffices(parts, t);
  }

  lemma FirstPartAtStart(parts: seq<string>, t: string)
    requires |parts| >= 2
    ensures PartsAt(parts, t, 0) <==> StartsWith(t, parts[0]) && PartsWithin(parts[1..], t[|parts[0]|..])
  {
    assert OccursAt(t, parts[0], 0) <==> StartsWith(t, parts[0]);
  }

  /**
    The leftmost-greedy matcher. With at least one `*` it decides exactly the
    backtracking meaning; without one it would only test for a prefix, which is
    why `PathMatches` never calls it then.
  */
  method GlobMatch(pattern: string, text: string) returns (b: bool)
    ensures '*' in pattern ==> b == Matches(pattern, text)
    ensures '*' !in pattern ==> b == StartsWith(text, pattern)
  {
    hide Matches, PartsAt, PartsWithin, Split, OccursAt;
    var parts := Split(pattern);
    var pos: nat := 0;
    MatchesByParts(pattern, text);
    var i := 0;
    while i < |parts|
      invariant 0 <= i <= |parts| && pos <= |text|
      invariant i == 0 ==> pos == 0
      invariant 0 < i < |parts| ==> PartsAt(parts, text, 0) == PartsWithin(parts[i..], text[pos..])
      invariant i == |parts| > 1 ==> PartsAt(parts, text, 0)
      invariant i == |parts| == 1 ==> StartsWith(text, pattern)
    {
      var part := parts[i];
      ghost var rest := text[pos..];
      if 0 < i {
        assert parts[i..][0] == part;
        if i < |parts| - 1 {
          LeftmostSuffices(parts[i..], rest);
          if part == "" { EmptyPartAnywhere(parts[i..], rest); }
          assert parts[i..][1..] == parts[i + 1..];
        } else {
          assert parts[i..] == [part];
          LastPartAtEnd(part, rest);
        }
      } else if |parts| > 1 {
        FirstPartAtStart(parts, text);
      }
      if part == "" {
        assert text[0..] == text;
        i := i + 1;
        continue;
      }
      if i == 0 {
        if !StartsWith(text, part) { return false; }
        pos := |part|;
      } else if i == |parts| - 1 {
        if !EndsWith(text[pos..], part) { return false; }
      } else {
        var idx := Find(text[pos..], part);
        if idx.None? { return false; }
        assert rest[idx.value + |part|..] == text[pos + idx.value + |part|..];
        pos := pos + (idx.value + |part|);
      }
      i := i + 1;
    }
    return true;
  }

  // ----- Rule sets -----

  /** Backslashes for slashes, lower case. */
  function NormalizePath(path: string): string
  {
    AsciiLower(seq(|path|, i requires 0 <= i < |path| => if path[i] == '/' then '\\' else path[i]))
  }

  /** The same character up to case and the kind of slash. */
  predicate SamePathChar(c: char, d: char)
  {
    SameLetter(c, d) || (c in {'/', '\\'} && d in {'/', '\\'})
  }

  predicate SamePath(p: string, q: string)
  {
    |p| == |q| && forall i | 0 <= i < |p| :: SamePathChar(p[i], q[i])
  }

  /** Normalising forgets case and the kind of slash, and nothing else. */
  lemma NormalizePathIff(p: string, q: string)
    ensures NormalizePath(p) == NormalizePath(q) <==> SamePath(p, q)
    ensures SamePath(p, NormalizePath(p)) && ('*' in NormalizePath(p) <==> '*' in p)
    ensures forall c | c in NormalizePath(p) :: c != '/' && !('A' <= c <= 'Z')
  {
    var np, nq := NormalizePath(p), NormalizePath(q);
    assert forall i | 0 <= i < |p| :: np[i] == AsciiLowerChar(if p[i] == '/' then '\\' else p[i]);
    assert forall i | 0 <= i < |q| :: nq[i] == AsciiLowerChar(if q[i] == '/' then '\\' else q[i]);
    assert |np| == |p| && |nq| == |q|;
    hide NormalizePath;
    if SamePath(p, q) {
      forall i | 0 <= i < |p| ensures np[i] == nq[i] {
        assert SamePathChar(p[i], q[i]);
      }
    }
    if np == nq {
      forall i | 0 <= i < |p| ensures SamePathChar(p[i], q[i]) {
        assert np[i] == nq[i];
      }
    }
    if '*' in p {
      var i :| 0 <= i < |p| && p[i] == '*';
      assert np[i] == '*';
    }
    if '*' in np {
      var i :| 0 <= i < |np| && np[i] == '*';
      assert p[i] == '*';
    }
  }

  /** When a normalised rule applies to a normalised executable path. */
  predicate RuleApplies(rule: string, candidate: string)
  {
    if '*' in rule then Matches(rule, candidate) else EndsWith(candidate, rule)
  }

  method PathMatches(rule: string, candidate: string) returns (b: bool)
    ensures b == RuleApplies(rule, candidate)
    ensures '*' in rule ==> b == PartsAt(Split(rule), candidate, 0)
    ensures '*' !in rule ==> (b <==> exists k: nat | k <= |candidate| :: candidate[k..] == rule)
  {
    MatchesByParts(rule, candidate);
    if '*' in rule {
      b := GlobMatch(rule, candidate);
    } else {
      b := candidate == rule || EndsWith(candidate, rule);
      assert candidate == rule ==> candidate[|candidate| - |rule|..] == rule;
      if k: nat :| k <= |candidate| && candidate[k..] == rule { assert k == |candidate| - |rule|; }
    }
  }

  /**
    A rule applies to a path, case and the kind of slash aside, as a wildcard
    pattern if it has a `*`, and otherwise if the path ends with it.
  */
  lemma AppliesIff(rule: string, path: string)
    ensures RuleApplies(NormalizePath(rule), NormalizePath(path)) <==>
            if '*' in rule then PartsAt(Split(NormalizePath(rule)), NormalizePath(path), 0)
            else exists k: nat | k <= |path| :: SamePath(rule, path[k..])
  {
    hide PartsAt;
    var r, p := NormalizePath(rule), NormalizePath(path);
    NormalizePathIff(rule, path);
    MatchesByParts(r, p);
    assert |r| == |rule| && |p| == |path|;
    if '*' !in rule {
      forall k: nat | k <= |path| ensures p[k..] == r <==> SamePath(rule, path[k..]) {
        NormalizePathIff(rule, path[k..]);
        assert NormalizePath(path[k..]) == p[k..];
      }
      hide NormalizePath, SamePath;
      if EndsWith(p, r) { assert p[|p| - |r|..] == r; }
      if k: nat :| k <= |path| && SamePath(rule, path[k..]) { assert p[k..] == r && k == |p| - |r|; }
    }
  }

  function ToEntry(r: AppRule): AppRuleEntry
  {
    AppRuleEntry(r.priority, r.path, NormalizePath(r.path))
  }

  /** The entries of one mode, in configuration order. */
  function OfMode(rules: seq<AppRule>, mode: RuleMode): seq<AppRuleEntry>
  {
    if rules == [] then []
    else
      var init, last := rules[..|rules| - 1], rules[|rules| - 1];
      OfMode(init, mode) + if last.mode == mode then [ToEntry(last)] else []
  }

  const BY_PRIORITY := (e: AppRuleEntry) => e.priority

  method FromRules(rules: seq<AppRule>) returns (r: AppRuleSet)
    ensures r.excludes == StableSort(OfMode(rules, Exclude), BY_PRIORITY)
    ensures r.includes == StableSort(OfMode(rules, Include), BY_PRIORITY)
  {
    var excludes, includes := [], [];
    for i := 0 to |rules|
      invariant excludes == OfMode(rules[..i], Exclude)
      invariant includes == OfMode(rules[..i], Include)
    {
      assert rules[..i + 1][..i] == rules[..i];
      var entry := ToEntry(rules[i]);
      match rules[i].mode
      case Exclude => excludes := excludes + [entry];
      case Include => includes := includes + [entry];
    }
    assert rules[..|rules|] == rules;
    r := AppRuleSet(StableSort(excludes, BY_PRIORITY), StableSort(includes, BY_PRIORITY));
  }

  /** Which rules a routing mode consults. */
  function Consulted(mode: RoutingMode): RuleMode
  {
    match mode
    case FullTunnel => Exclude
    case SplitInclude => Include
  }

  function AppliesTo(normalized: string): AppRuleEntry -> bool
  {
    (e: AppRuleEntry) => RuleApplies(e.normalized, normalized)
  }

  /** The first of a list of entries that applies to a path; the two loops of `match_path`. */
  method FirstApplicable(entries: seq<AppRuleEntry>, normalized: string) returns (r: Option<AppRuleEntry>)
    ensures r == FirstMatch(entries, AppliesTo(normalized))
  {
    var i := 0;
    while i < |entries|
      invariant i <= |entries|
      invariant FirstMatch(entries, AppliesTo(normalized)) == FirstMatch(entries[i..], AppliesTo(normalized))
    {
      var b := PathMatches(entries[i].normalized, normalized);
      if b { return Some(entries[i]); }
      assert entries[i..][1..] == entries[i + 1..];
      i := i + 1;
    }
    return None;
  }

  const BY_RULE_PRIORITY := (r: AppRule) => r.priority

  /** Full-tunnel mode considers the exclusions that apply to a path, split-include mode the inclusions. */
  function Considered(mode: RoutingMode, appPath: string): AppRule -> bool
  {
    (r: AppRule) => r.mode == (if mode.FullTunnel? then Exclude else Include)
                    && RuleApplies(NormalizePath(r.path), NormalizePath(appPath))
  }

  /** The chosen rule is of the mode's kind and applies to the path, and no such rule has a smaller priority. */
  ghost predicate IsChosen(rules: seq<AppRule>, mode: RoutingMode, appPath: string, r: Option<AppRule>)
  {
    var kind := if mode == FullTunnel then Exclude else Include;
    match r
    case None =>
      forall other | other in rules && other.mode == kind ::
        !RuleApplies(NormalizePath(other.path), NormalizePath(appPath))
    case Some(rule) =>
      && rule in rules && rule.mode == kind && RuleApplies(NormalizePath(rule.path), NormalizePath(appPath))
      && forall other | other in rules && other.mode == kind
                        && RuleApplies(NormalizePath(other.path), NormalizePath(appPath)) ::
           rule.priority <= other.priority
  }

  lemma LeastIsChosen(rules: seq<AppRule>, mode: RoutingMode, appPath: string, r: Option<AppRule>)
    requires IsLeast(rules, BY_RULE_PRIORITY, Considered(mode, appPath), r)
    ensures IsChosen(rules, mode, appPath, r)
  {
    hide RuleApplies, NormalizePath;
    var p := Considered(mode, appPath);
    forall other | other in rules && p(other) ensures r.Some? && r.value.priority <= other.priority {
      var j :| 0 <= j < |rules| && rules[j] == other;
    }
  }

  function EntryOf(rule: Option<AppRule>): Option<AppRuleEntry>
  {
    if rule.Some? then Some(ToEntry(rule.value)) else None
  }

  lemma OneConsidered(best: Option<AppRule>, last: AppRule, mode: RoutingMode, appPath: string)
    ensures EntryOf(Better(best, last, BY_RULE_PRIORITY, Considered(mode, appPath)))
            == if last.mode != Consulted(mode) then EntryOf(best)
               else Better(EntryOf(best), ToEntry(last), BY_PRIORITY, AppliesTo(NormalizePath(appPath)))
  {
    hide RuleApplies, NormalizePath;
  }

  lemma MinSnoc(entries: seq<AppRuleEntry>, e: AppRuleEntry, normalized: string)
    ensures MinByKey(entries + [e], BY_PRIORITY, AppliesTo(normalized))
            == Better(MinByKey(entries, BY_PRIORITY, AppliesTo(normalized)), e, BY_PRIORITY, AppliesTo(normalized))
  {
    assert (entries + [e])[..|entries|] == entries;
    hide Better, RuleApplies;
  }

  /** Choosing among the entries of a mode is choosing among the rules it considers. */
  lemma {:induction false} ConsideredMin(rules: seq<AppRule>, mode: RoutingMode, appPath: string)
    ensures MinByKey(OfMode(rules, Consulted(mode)), BY_PRIORITY, AppliesTo(NormalizePath(appPath)))
            == EntryOf(MinByKey(rules, BY_RULE_PRIORITY, Considered(mode, appPath)))
  {
    hide RuleApplies, NormalizePath, Better;
    if rules != [] {
      var init, last := rules[..|rules| - 1], rules[|rules| - 1];
      var entries := OfMode(init, Consulted(mode));
      ConsideredMin(init, mode, appPath);
      OneConsidered(MinByKey(init, BY_RULE_PRIORITY, Considered(mode, appPath)), last, mode, appPath);
      MinSnoc(entries, ToEntry(last), NormalizePath(appPath));
      assert entries + [] == entries;
      hide ToEntry, EntryOf, Consulted;
    }
  }

  /** What searching the mode's sorted entries finds: the considered rule of least priority, the earliest of them. */
  lemma FoundIsLeast(rules: seq<AppRule>, mode: RoutingMode, appPath: string) returns (best: Option<AppRule>)
    ensures IsLeast(rules, BY_RULE_PRIORITY, Considered(mode, appPath), best)
    ensures FirstMatch(StableSort(OfMode(rules, if mode.FullTunnel? then Exclude else Include), BY_PRIORITY),
                       AppliesTo(NormalizePath(appPath)))
            == if best.None? then None
               else Some(AppRuleEntry(best.value.priority, best.value.path, NormalizePath(best.value.path)))
  {
    best := MinByKey(rules, BY_RULE_PRIORITY, Considered(mode, appPath));
    MinByKeyIsLeast(rules, BY_RULE_PRIORITY, Considered(mode, appPath));
    SortedSearchIsMinByKey(OfMode(rules, Consulted(mode)), BY_PRIORITY, AppliesTo(NormalizePath(appPath)));
    ConsideredMin(rules, mode, appPath);
  }

  /**
    For a set built from the configured rules, the considered rule of least
    priority, earliest in configuration order, is the one reported.
  */
  method MatchPath(set_: AppRuleSet, rules: seq<AppRule>, appPath: string, mode: RoutingMode)
    returns (r: Option<(RuleMode, nat)>)
    requires set_.excludes == StableSort(OfMode(rules, Exclude), BY_PRIORITY)
    requires set_.includes == StableSort(OfMode(rules, Include), BY_PRIORITY)
    ensures exists best ::
              && IsLeast(rules, BY_RULE_PRIORITY, Considered(mode, appPath), best)
              && IsChosen(rules, mode, appPath, best)
              && r == if best.None? then None
                      else Some((if mode.FullTunnel? then Exclude else Include, best.value.priority))
  {
    var normalized := NormalizePath(appPath);
    var hit := FirstApplicable(if mode.FullTunnel? then set_.excludes else set_.includes, normalized);
    var best := FoundIsLeast(rules, mode, appPath);
    LeastIsChosen(rules, mode, appPath, best);
    r := if hit.Some? then Some((Consulted(mode), hit.value.priority)) else None;
  }
}
