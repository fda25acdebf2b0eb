/** Domain names and domain rules. */
module DomainNames {

  import opened Common
  import opened Priority

  /** A configured domain rule: a plain name or `*.name`, with its priority and target. */
  datatype Rule = Rule(priority: nat, pattern: string, target: RouteTarget)

  const BY_PRIORITY := (r: Rule) => r.priority

  function TrimEndDots(s: string): string
  {
    if s != "" && s[|s| - 1] == '.' then TrimEndDots(s[..|s| - 1]) else s
  }

  /** Lower case, without trailing dots. */
  function Normalize(domain: string): string
  {
    AsciiLower(TrimEndDots(domain))
  }

  /** The name without the dots it ends in has length `n`. */
  predicate DotsFrom(s: string, n: nat)
  {
    n <= |s| && (forall i | n <= i < |s| :: s[i] == '.') && (n == 0 || s[n - 1] != '.')
  }

  lemma {:induction false} TrimmedDots(s: string, n: nat)
    requires DotsFrom(s, n)
    ensures TrimEndDots(s) == s[..n]
    decreases |s|
  {
    if n < |s| {
      TrimmedDots(s[..|s| - 1], n);
      assert s[..|s| - 1][..n] == s[..n];
    } else {
      assert s[..n] == s;
    }
  }

  /** Normalising forgets the dots a name ends in and the case of its letters, and nothing else. */
  lemma NormalizeIff(s: string, t: string, n: nat, k: nat)
    requires DotsFrom(s, n) && DotsFrom(t, k)
    ensures Normalize(s) == Normalize(t) <==> SameButCase(s[..n], t[..k])
    ensures SameButCase(s[..n], Normalize(s)) && forall c | c in Normalize(s) :: !('A' <= c <= 'Z')
  {
    TrimmedDots(s, n);
    TrimmedDots(t, k);
    LowerIff(s[..n], t[..k]);
  }

  /** `*.x` covers the proper subdomains of `x`; `x` covers itself and its subdomains. */
  predicate DomainMatches(pattern: string, host: string)
  {
    var h, p := Normalize(host), Normalize(pattern);
    if StartsWith(p, "*.") then
      EndsWith(h, p[1..]) && |h| > |p[1..]|
    else
      h == p || EndsWith(h, "." + p)
  }

  function Covers(domain: string): Rule -> bool
  {
    (r: Rule) => DomainMatches(r.pattern, domain)
  }

  /** The chosen rule covers the domain, and none that does has a smaller priority; there is none if none covers. */
  ghost predicate IsChosen(rules: seq<Rule>, domain: string, r: Option<Rule>)
  {
    match r
    case None => forall other | other in rules :: !DomainMatches(other.pattern, domain)
    case Some(rule) =>
      && rule in rules && DomainMatches(rule.pattern, domain)
      && forall other | other in rules && DomainMatches(other.pattern, domain) :: rule.priority <= other.priority
  }

  lemma LeastIsChosen(rules: seq<Rule>, domain: string, r: Option<Rule>)
    requires IsLeast(rules, BY_PRIORITY, Covers(domain), r)
    ensures IsChosen(rules, domain, r)
  {
    hide DomainMatches;
    forall other | other in rules && DomainMatches(other.pattern, domain)
      ensures r.Some? && r.value.priority <= other.priority
    {
      var j :| 0 <= j < |rules| && rules[j] == other;
    }
  }

  /** Normalising a second time changes nothing. */
  lemma NormalizeTwice(s: string)
    ensures Normalize(Normalize(s)) == Normalize(s)
  {
    var n := LastDot(s);
    var t := Normalize(s);
    NormalizeIff(s, s, n, n);
    assert DotsFrom(t, n) by {
      assert |t| == n;
      if n > 0 { assert SameLetter(s[..n][n - 1], t[n - 1]); }
    }
    NormalizeIff(t, s, n, n);
    LowerIff(s[..n], t);
    assert t[..n] == t;
    assert forall i | 0 <= i < n :: SameLetter(s[..n][i], t[i]);
  }

  lemma {:induction false} LastDot(s: string) returns (n: nat)
    ensures DotsFrom(s, n)
    decreases |s|
  {
    if s != "" && s[|s| - 1] == '.' {
      n := LastDot(s[..|s| - 1]);
    } else {
      n := |s|;
    }
  }

  // ----- Matching respects label boundaries -----

  /** The labels of a name: its text split at dots, always at least one. */
  function Labels(s: string): (ls: seq<string>)
    ensures ls != []
  {
    if s == "" then [""]
    else
      var rest := Labels(s[1..]);
      if s[0] == '.' then [""] + rest else [[s[0]] + rest[0]] + rest[1..]
  }

  function JoinDots(ls: seq<string>): string
    requires ls != []
  {
    if |ls| == 1 then ls[0] else ls[0] + "." + JoinDots(ls[1..])
  }

  lemma {:induction false} LabelsConcat(u: string, x: string)
    ensures Labels(u + "." + x) == Labels(u) + Labels(x)
  {
    var all := u + "." + x;
    if u == "" {
      assert all[1..] == x;
    } else {
      assert all[0] == u[0] && all[1..] == u[1..] + "." + x;
      LabelsConcat(u[1..], x);
    }
  }

  lemma {:induction false} JoinConcat(a: seq<string>, b: seq<string>)
    requires a != [] && b != []
    ensures JoinDots(a + b) == JoinDots(a) + "." + JoinDots(b)
  {
    assert (a + b)[1..] == a[1..] + b;
    if |a| > 1 { JoinConcat(a[1..], b); }
  }

  lemma {:induction false} JoinLabels(s: string)
    ensures JoinDots(Labels(s)) == s
  {
    if s != "" {
      var rest := Labels(s[1..]);
      JoinLabels(s[1..]);
      assert s == [s[0]] + s[1..];
      if s[0] == '.' {
        assert ([""] + rest)[1..] == rest;
      } else {
        assert ([[s[0]] + rest[0]] + rest[1..])[1..] == rest[1..];
      }
    }
  }

  lemma JoinedSplit(h: string, front: seq<string>, x: string)
    requires Labels(h) == front + Labels(x)
    ensures h == if front == [] then x else JoinDots(front) + "." + x
  {
    JoinLabels(h);
    JoinLabels(x);
    if front == [] {
      assert front + Labels(x) == Labels(x);
    } else {
      JoinConcat(front, Labels(x));
    }
  }

  /** The labels in front of a name's last ones. */
  ghost predicate Under(h: string, front: seq<string>, x: string)
  {
    Labels(h) == front + Labels(x)
  }

  /** `h` ends with `.x` after some text `u` exactly when it has `x`'s labels under those of `u`. */
  lemma DotSuffix(h: string, x: string)
    ensures EndsWith(h, "." + x) <==> exists front :: front != [] && Under(h, front, x)
    ensures EndsWith(h, "." + x) && |h| > |"." + x| <==>
        exists front :: front != [] && front != [""] && Under(h, front, x)
  {
    if EndsWith(h, "." + x) {
      var u := h[..|h| - |"." + x|];
      assert h == u + "." + x;
      LabelsConcat(u, x);
      JoinLabels(u);
      assert Under(h, Labels(u), x);
    }
    forall front | front != [] && Under(h, front, x)
      ensures EndsWith(h, "." + x) && (front != [""] ==> |h| > |"." + x|)
    {
      JoinedSplit(h, front, x);
      EmptyFront(front);
      hide Labels, JoinDots;
      var u := JoinDots(front);
      assert h == u + ("." + x) && |h| == |u| + |"." + x|;
      assert h[|u|..] == "." + x;
    }
  }

  lemma EmptyFront(front: seq<string>)
    requires front != []
    ensures JoinDots(front) == "" ==> front == [""]
  {
    if |front| == 1 { assert front == [front[0]]; }
  }

  /** In normalised form, matching is a matter of labels. */
  lemma NormalizedByLabels(pattern: string, host: string)
    ensures var h, p := Normalize(host), Normalize(pattern);
            DomainMatches(pattern, host) <==>
            if StartsWith(p, "*.") then exists front :: front != [] && front != [""] && Under(h, front, p[2..])
            else exists front :: Under(h, front, p)
  {
    var h, p := Normalize(host), Normalize(pattern);
    if StartsWith(p, "*.") {
      assert p[1..] == "." + p[2..];
      DotSuffix(h, p[2..]);
    } else {
      DotSuffix(h, p);
      if h == p {
        assert Under(h, [], p);
      }
      if Under(h, [], p) {
        JoinedSplit(h, [], p);
      }
      forall front | Under(h, front, p) ensures DomainMatches(pattern, host) {
        if front == [] { JoinedSplit(h, [], p); }
      }
    }
  }
  lemma LowerCons(s: string)
    requires s != ""
    ensures AsciiLower(s)[0] == AsciiLowerChar(s[0]) && AsciiLower(s)[1..] == AsciiLower(s[1..])
    ensures AsciiLowerChar(s[0]) == '.' <==> s[0] == '.'
    ensures forall l :: AsciiLower([s[0]] + l) == [AsciiLowerChar(s[0])] + AsciiLower(l)
    ensures AsciiLower("") == ""
  {
    forall l ensures AsciiLower([s[0]] + l) == [AsciiLowerChar(s[0])] + AsciiLower(l) {
      assert ([s[0]] + l)[1..] == l;
    }
  }

  /** The labels of a lower-cased name. */
  lemma {:induction false} LabelsLower(s: string)
    ensures |Labels(AsciiLower(s))| == |Labels(s)|
    ensures forall i | 0 <= i < |Labels(s)| :: Labels(AsciiLower(s))[i] == AsciiLower(Labels(s)[i])
  {
    if s == "" {
      assert AsciiLower("") == "";
    } else {
      LabelsLower(s[1..]);
      LowerCons(s);
      hide AsciiLower, AsciiLowerChar;
    }
  }

  /** The last labels of `h` are those of `p`, whatever the case of their letters. */
  ghost predicate EndsInLabels(h: seq<string>, p: seq<string>)
  {
    |p| <= |h| && forall i | 0 <= i < |p| :: SameButCase(h[|h| - |p| + i], p[i])
  }

  /** `low` lists the lower-cased elements of `s`. */
  ghost predicate Lowers(s: seq<string>, low: seq<string>)
  {
    |low| == |s| && forall i | 0 <= i < |s| :: low[i] == AsciiLower(s[i])
  }

  lemma EndsByLower(hs: seq<string>, ps: seq<string>, low: seq<string>, lowP: seq<string>, front: seq<string>)
    requires Lowers(hs, low) && Lowers(ps, lowP) && low == front + lowP
    ensures EndsInLabels(hs, ps)
  {
    hide AsciiLower, SameButCase;
    forall i | 0 <= i < |ps| ensures SameButCase(hs[|front| + i], ps[i]) {
      assert low[|front| + i] == lowP[i];
      LowerIff(hs[|front| + i], ps[i]);
    }
  }

  lemma LowerByEnds(hs: seq<string>, ps: seq<string>, low: seq<string>, lowP: seq<string>)
    requires Lowers(hs, low) && Lowers(ps, lowP) && EndsInLabels(hs, ps)
    ensures low == low[..|hs| - |ps|] + lowP
  {
    hide AsciiLower, SameButCase;
    var n := |hs| - |ps|;
    forall i | 0 <= i < |ps| ensures low[n + i] == lowP[i] { LowerIff(hs[n + i], ps[i]); }
  }

  lemma EndsIsUnder(h: string, p: string) returns (front: seq<string>)
    requires EndsInLabels(Labels(h), Labels(p))
    ensures Under(AsciiLower(h), front, AsciiLower(p)) && |front| == |Labels(h)| - |Labels(p)|
    ensures front == [""] <==> |front| == 1 && Labels(h)[0] == ""
  {
    LabelsLower(h);
    LabelsLower(p);
    hide Labels, AsciiLower;
    LowerByEnds(Labels(h), Labels(p), Labels(AsciiLower(h)), Labels(AsciiLower(p)));
    front := Labels(AsciiLower(h))[..|Labels(h)| - |Labels(p)|];
    UnderIsEnds(h, p, front);
  }

  lemma UnderIsEnds(h: string, p: string, front: seq<string>)
    requires Under(AsciiLower(h), front, AsciiLower(p))
    ensures EndsInLabels(Labels(h), Labels(p)) && |front| == |Labels(h)| - |Labels(p)|
    ensures front == [""] <==> |front| == 1 && Labels(h)[0] == ""
  {
    LabelsLower(h);
    LabelsLower(p);
    assert |AsciiLower(Labels(h)[0])| == |Labels(h)[0]|;
    hide Labels, AsciiLower;
    EndsByLower(Labels(h), Labels(p), Labels(AsciiLower(h)), Labels(AsciiLower(p)), front);
    if |front| == 1 { assert Labels(AsciiLower(h))[0] == front[0]; }
  }

  /**
    Without the dots they end in: a plain pattern covers the names that end with
    its labels, itself included, and `*.x` those that have a non-empty name under
    `x`; letters match in either case. No pattern covers a name that merely ends
    with the same characters.
  */
  lemma MatchesByLabels(pattern: string, host: string, k: nat, n: nat)
    requires DotsFrom(pattern, k) && DotsFrom(host, n)
    ensures var h, p := Labels(host[..n]), pattern[..k];
            DomainMatches(pattern, host) <==>
            if "*." <= p then
              var x := Labels(p[2..]);
              EndsInLabels(h, x) && |h| > |x| && !(|h| == |x| + 1 && h[0] == "")
            else EndsInLabels(h, Labels(p))
  {
    var h, p := host[..n], pattern[..k];
    TrimmedDots(pattern, k);
    TrimmedDots(host, n);
    var low := AsciiLower(p);
    assert "*." <= p <==> "*." <= low by {
      if |p| >= 2 { assert low[0] == AsciiLowerChar(p[0]) && low[1] == AsciiLowerChar(p[1]); }
    }
    if "*." <= p { assert low[2..] == AsciiLower(p[2..]); }
    NormalizedByLabels(pattern, host);
    var x := if "*." <= p then p[2..] else p;
    hide Labels, Under, EndsInLabels, DomainMatches, AsciiLower, TrimEndDots;
    if EndsInLabels(Labels(h), Labels(x)) {
      var front := EndsIsUnder(h, x);
    }
    forall front | Under(AsciiLower(h), front, AsciiLower(x))
      ensures EndsInLabels(Labels(h), Labels(x)) && |front| == |Labels(h)| - |Labels(x)|
      ensures front == [""] <==> |front| == 1 && Labels(h)[0] == ""
    {
      UnderIsEnds(h, x, front);
    }
  }
}
