/** Rewriting a `.conf` for a transport, and the parsers that read the rewritten text back. */
module Conf {

  import opened Common
  import opened ConfLines

  const PEER := "[peer]"
  const INTERFACE := "[interface]"
  const ROUTEGUARD := "[routeguard]"

  function Init(ls: seq<string>): seq<string>
    requires ls != []
  {
    ls[..|ls| - 1]
  }

  function Final(ls: seq<string>): string
    requires ls != []
  {
    ls[|ls| - 1]
  }

  lemma InitLast(ls: seq<string>)
    requires ls != []
    ensures Init(ls) + [Final(ls)] == ls && |Init(ls)| < |ls|
  {
  }

  lemma Snoc(ls: seq<string>, l: string)
    ensures Init(ls + [l]) == ls && Final(ls + [l]) == l
  {
  }

  // ----- What the lines so far mean -----

  /** The section in force after these lines: the last header, or none. */
  function Section(ls: seq<string>): string
  {
    if ls == [] then "" else match LineKind(Final(ls)) case Header(s) => s case _ => Section(Init(ls))
  }

  /** An endpoint line was met in a peer section, or a peer section has ended. */
  predicate Served(ls: seq<string>)
  {
    && ls != []
    && (Served(Init(ls)) ||
         (Section(Init(ls)) == PEER && (LineKind(Final(ls)).Header? || LineKind(Final(ls)).Endpoint?)))
  }

  /** The lines end inside the first peer section, which has no endpoint line yet. */
  predicate OwesEndpoint(ls: seq<string>)
  {
    Section(ls) == PEER && !Served(ls)
  }

  /** An MTU line outside the RouteGuard section follows the last interface header. */
  predicate MtuSet(ls: seq<string>)
  {
    && ls != []
    && var k := LineKind(Final(ls));
       || (k == Mtu && Section(Init(ls)) != ROUTEGUARD)
       || (k != Header(INTERFACE) && MtuSet(Init(ls)))
  }

  /** How many headers name `section`. */
  function Headers(ls: seq<string>, section: string): nat
  {
    if ls == [] then 0
    else Headers(Init(ls), section) + if LineKind(Final(ls)) == Header(section) then 1 else 0
  }

  // ----- The same, line by line -----

  /** Line `k` stands under this header: the nearest header before it. */
  ghost predicate Under(ls: seq<string>, k: nat, header: string)
    requires k <= |ls|
  {
    exists j | 0 <= j < k :: Key(ls[j]) == header && forall m | j < m < k :: !("[" <= Key(ls[m]))
  }

  lemma UnderNext(ls: seq<string>, k: nat, header: string)
    requires k < |ls| && "[" <= header
    ensures Under(ls, k + 1, header) <==>
            if "[" <= Key(ls[k]) then Key(ls[k]) == header else Under(ls, k, header)
  {
    hide Key;
    if Under(ls, k + 1, header) {
      var j :| 0 <= j < k + 1 && Key(ls[j]) == header && forall m | j < m < k + 1 :: !("[" <= Key(ls[m]));
      assert j == k || !("[" <= Key(ls[k]));
    }
    if Under(ls, k, header) && !("[" <= Key(ls[k])) {
      var j :| 0 <= j < k && Key(ls[j]) == header && forall m | j < m < k :: !("[" <= Key(ls[m]));
      assert forall m | j < m < k + 1 :: !("[" <= Key(ls[m]));
    }
  }

  lemma SectionNext(ls: seq<string>, k: nat)
    requires k < |ls|
    ensures Section(ls[..k + 1]) == if "[" <= Key(ls[k]) then Key(ls[k]) else Section(ls[..k])
  {
    TakeStep(ls, k + 1);
    KindIs(Key(ls[k]));
    hide Key, KindOf;
  }

  lemma {:induction false} SectionIs(ls: seq<string>, k: nat, header: string)
    requires k <= |ls| && "[" <= header
    ensures Section(ls[..k]) == header <==> Under(ls, k, header)
  {
    if k > 0 {
      hide Key, Section, Under;
      SectionIs(ls, k - 1, header);
      SectionNext(ls, k - 1);
      UnderNext(ls, k - 1, header);
    } else {
      assert Section(ls[..0]) == "";
    }
  }

  /** A line of a peer section that gives an endpoint, or means to. */
  ghost predicate GivesEndpoint(ls: seq<string>, k: nat)
    requires k < |ls|
  {
    Under(ls, k, "[peer]") && "endpoint" <= Key(ls[k])
  }

  /** Somewhere before line `k` a peer section ended or gave an endpoint. */
  ghost predicate ServedBefore(ls: seq<string>, k: nat)
    requires k <= |ls|
  {
    exists j | 0 <= j < k :: Under(ls, j, "[peer]") && ("[" <= Key(ls[j]) || "endpoint" <= Key(ls[j]))
  }

  lemma ServedBeforeNext(ls: seq<string>, k: nat)
    requires k < |ls|
    ensures ServedBefore(ls, k + 1) <==>
            ServedBefore(ls, k) || (Under(ls, k, "[peer]") && ("[" <= Key(ls[k]) || "endpoint" <= Key(ls[k])))
  {
    hide Key, Under;
  }

  lemma ServedNext(ls: seq<string>, k: nat)
    requires k < |ls|
    ensures Served(ls[..k + 1]) <==>
            Served(ls[..k]) || (Section(ls[..k]) == "[peer]" && ("[" <= Key(ls[k]) || "endpoint" <= Key(ls[k])))
  {
    TakeStep(ls, k + 1);
    KindIs(Key(ls[k]));
    hide Key, KindOf, Section;
  }

  lemma {:induction false} ServedIff(ls: seq<string>, k: nat)
    requires k <= |ls|
    ensures Served(ls[..k]) <==> ServedBefore(ls, k)
  {
    if k > 0 {
      hide Key, Section, Under, Served, ServedBefore;
      ServedIff(ls, k - 1);
      SectionIs(ls, k - 1, "[peer]");
      ServedNext(ls, k - 1);
      ServedBeforeNext(ls, k - 1);
    } else {
      hide Key, Section, Under;
      assert ls[..k] == [];
    }
  }

  /** An MTU line outside the RouteGuard sections comes after every interface header. */
  ghost predicate SaysMtu(ls: seq<string>, k: nat)
    requires k <= |ls|
  {
    exists j | 0 <= j < k ::
      "mtu" <= Key(ls[j]) && !Under(ls, j, "[routeguard]") && forall m | j < m < k :: Key(ls[m]) != "[interface]"
  }

  lemma SaysMtuNext(ls: seq<string>, k: nat)
    requires k < |ls|
    ensures SaysMtu(ls, k + 1) <==>
            || ("mtu" <= Key(ls[k]) && !Under(ls, k, "[routeguard]"))
            || (SaysMtu(ls, k) && Key(ls[k]) != "[interface]")
  {
    hide Key, Under;
    if SaysMtu(ls, k + 1) {
      var j :| 0 <= j < k + 1 && "mtu" <= Key(ls[j]) && !Under(ls, j, "[routeguard]")
               && forall m | j < m < k + 1 :: Key(ls[m]) != "[interface]";
      assert j < k ==> Key(ls[k]) != "[interface]" && SaysMtu(ls, k);
    }
    if SaysMtu(ls, k) && Key(ls[k]) != "[interface]" {
      var j :| 0 <= j < k && "mtu" <= Key(ls[j]) && !Under(ls, j, "[routeguard]")
               && forall m | j < m < k :: Key(ls[m]) != "[interface]";
      assert forall m | j < m < k + 1 :: Key(ls[m]) != "[interface]";
    }
  }

  lemma MtuSetNext(ls: seq<string>, k: nat)
    requires k < |ls|
    ensures MtuSet(ls[..k + 1]) <==>
            || ("mtu" <= Key(ls[k]) && Section(ls[..k]) != "[routeguard]")
            || (MtuSet(ls[..k]) && Key(ls[k]) != "[interface]")
  {
    TakeStep(ls, k + 1);
    KindIs(Key(ls[k]));
    assert "[" <= "[interface]";
    hide Key, KindOf, Section;
  }

  lemma {:induction false} MtuSetIff(ls: seq<string>, k: nat)
    requires k <= |ls|
    ensures MtuSet(ls[..k]) <==> SaysMtu(ls, k)
  {
    if k > 0 {
      hide Key, Section, Under, MtuSet, SaysMtu;
      MtuSetIff(ls, k - 1);
      SectionIs(ls, k - 1, "[routeguard]");
      MtuSetNext(ls, k - 1);
      SaysMtuNext(ls, k - 1);
    } else {
      hide Key, Section, Under;
      assert ls[..k] == [];
    }
  }

  // ----- What the rewritten text must be -----

  /** The new endpoint as it is printed, and the MTU to write if there is one. */
  datatype Change = Change(endpoint: string, mtu: Option<nat>)

  /** A printed endpoint is one line free of outer white space. */
  predicate Printed(c: Change)
  {
    Trimmed(c.endpoint) && OneLine(c.endpoint)
  }

  /** A line of the output: original line number `at` as it stood, or one that the rewrite wrote. */
  datatype Out = Kept(at: nat, line: string) | Written(line: string)

  /** A line neither in the RouteGuard section nor replaced nor a transport key is kept. */
  predicate Survives(before: seq<string>, l: string, c: Change)
  {
    match LineKind(l)
    case Header(s) => s != ROUTEGUARD
    case Endpoint => Section(before) !in {PEER, ROUTEGUARD}
    case Transport => false
    case Mtu => c.mtu.None? && Section(before) != ROUTEGUARD
    case Other => Section(before) != ROUTEGUARD
  }

  /** The lines written when `l` is met: a missing endpoint at the end of a peer section, or a replacement. */
  function Writes(before: seq<string>, l: string, c: Change): seq<string>
  {
    var endpoint := [EndpointLine(c.endpoint)];
    match LineKind(l)
    case Header(_) => if OwesEndpoint(before) then endpoint else []
    case Endpoint => if Section(before) == PEER then endpoint else []
    case Mtu => if c.mtu.Some? && Section(before) != ROUTEGUARD then [MtuLine(c.mtu.value)] else []
    case _ => []
  }

  function Emission(before: seq<string>, l: string, c: Change): seq<Out>
  {
    var w := Writes(before, l, c);
    (if w == [] then [] else [Written(w[0])]) + if Survives(before, l, c) then [Kept(|before|, l)] else []
  }

  /** What becomes of each line, in terms of the text itself. */
  lemma LineBecomes(ls: seq<string>, i: nat, c: Change)
    requires i < |ls|
    ensures var l, key := ls[i], Key(ls[i]);
            var peer, routeGuard := Under(ls, i, "[peer]"), Under(ls, i, "[routeguard]");
            Emission(ls[..i], l, c) ==
            if "[" <= key then
              (if peer && !ServedBefore(ls, i) then [Written("Endpoint = " + c.endpoint)] else [])
              + if key == "[routeguard]" then [] else [Kept(i, l)]
            else if routeGuard then []
            else if peer && "endpoint" <= key then [Written("Endpoint = " + c.endpoint)]
            else if IsSetting(key) then []
            else if c.mtu.Some? && "mtu" <= key then [Written("MTU = " + Decimal(c.mtu.value))]
            else [Kept(i, l)]
  {
    SectionIs(ls, i, "[peer]");
    SectionIs(ls, i, "[routeguard]");
    ServedIff(ls, i);
    KindIs(Key(ls[i]));
    assert PEER != ROUTEGUARD by { assert PEER[1] != ROUTEGUARD[1]; }
    hide Key, KindOf, Section, Under, Served, ServedBefore, IsSetting, Decimal;
  }

  function Scanned(ls: seq<string>, c: Change): seq<Out>
  {
    if ls == [] then [] else Scanned(Init(ls), c) + Emission(Init(ls), Final(ls), c)
  }

  function Closed(ls: seq<string>, c: Change): seq<Out>
  {
    Scanned(ls, c) + if OwesEndpoint(ls) then [Written(EndpointLine(c.endpoint))] else []
  }

  function Render(outs: seq<Out>): (ls: seq<string>)
    ensures |ls| == |outs|
  {
    seq(|outs|, i requires 0 <= i < |outs| => outs[i].line)
  }

  lemma RenderConcat(a: seq<Out>, b: seq<Out>)
    ensures Render(a + b) == Render(a) + Render(b)
  {
  }

  /** Just after the first interface header, or at the end. */
  function InsertAt(ls: seq<string>): (p: nat)
    ensures p <= |ls|
  {
    if ls == [] then 0 else if LineKind(ls[0]) == Header(INTERFACE) then 1 else 1 + InsertAt(ls[1..])
  }

  lemma {:induction false} InsertAtIs(ls: seq<string>)
    ensures var p := InsertAt(ls);
            if exists l | l in ls :: Key(l) == "[interface]" then
              p > 0 && Key(ls[p - 1]) == "[interface]" && forall k | 0 <= k < p - 1 :: Key(ls[k]) != "[interface]"
            else p == |ls|
  {
    if ls != [] {
      KindIs(Key(ls[0]));
      assert "[interface]"[..1] == "[";
      InsertAtIs(ls[1..]);
      assert forall l | l in ls :: l == ls[0] || l in ls[1..];
      assert forall l | l in ls[1..] :: l in ls;
      hide Key, KindOf;
      var p := InsertAt(ls);
      assert forall k | 0 < k < |ls| :: ls[k] == ls[1..][k - 1];
    }
  }

  function Inserted<T>(s: seq<T>, p: nat, x: T): seq<T>
    requires p <= |s|
  {
    s[..p] + [x] + s[p..]
  }

  lemma RenderInserted(outs: seq<Out>, p: nat, l: string)
    requires p <= |outs|
    ensures Render(Inserted(outs, p, Written(l))) == Inserted(Render(outs), p, l)
  {
  }

  function Rewritten(ls: seq<string>, c: Change): seq<Out>
  {
    var body := Closed(ls, c);
    if c.mtu.Some? && !MtuSet(ls)
    then Inserted(body, InsertAt(Render(body)), Written(MtuLine(c.mtu.value)))
    else body
  }

  /** What one more line adds to the output lines. */
  function Extended(out: seq<string>, before: seq<string>, l: string, c: Change): seq<string>
  {
    var w := Writes(before, l, c);
    if Survives(before, l, c)
    then (if w == [] then out + [l] else out + [w[0], l])
    else (if w == [] then out else out + [w[0]])
  }

  lemma RenderEmission(before: seq<string>, l: string, c: Change)
    ensures Render(Scanned(before, c) + Emission(before, l, c)) == Extended(Render(Scanned(before, c)), before, l, c)
  {
    hide Survives, Writes, Scanned;
  }

  /** One more line, for every function of the lines so far. */
  lemma Step(before: seq<string>, l: string, c: Change)
    ensures var after, k := before + [l], LineKind(l);
            && Section(after) == (if k.Header? then k.section else Section(before))
            && Served(after) == (Served(before) || (Section(before) == PEER && (k.Header? || k.Endpoint?)))
            && MtuSet(after) == ((k == Mtu && Section(before) != ROUTEGUARD) ||
                 (k != Header(INTERFACE) && MtuSet(before)))
            && Render(Scanned(after, c)) == Extended(Render(Scanned(before, c)), before, l, c)
            && (Settled(after, c) <==> Settled(before, c) && Calm(before, l, c))
  {
    hide LineKind, Emission, Writes, Survives, Calm, Render, Extended;
    Snoc(before, l);
    RenderEmission(before, l, c);
  }

  lemma StepHeaders(before: seq<string>, l: string, section: string)
    ensures Headers(before + [l], section) == Headers(before, section) + if LineKind(l) == Header(section) then 1 else 0
  {
    hide LineKind;
    Snoc(before, l);
  }

  /** The rewritten text; a conf of which nothing is left is refused. */
  function Rewrite(text: string, c: Change): Result<string>
  {
    var ls := Output(Lines(text), c);
    if ls == [] then Err("empty conf") else Ok(Joined(ls))
  }

  /** The lines of the rewritten text. */
  function Output(ls: seq<string>, c: Change): seq<string>
  {
    Render(Rewritten(ls, c))
  }

  lemma AtStart(c: Change)
    ensures Section([]) == "" && !Served([]) && !MtuSet([]) && Render(Scanned([], c)) == []
  {
  }

  lemma AtEnd(ls: seq<string>, c: Change)
    ensures Render(Closed(ls, c)) ==
              if OwesEndpoint(ls) then Render(Scanned(ls, c)) + [EndpointLine(c.endpoint)] else Render(Scanned(ls, c))
    ensures Render(Rewritten(ls, c)) ==
              if c.mtu.Some? && !MtuSet(ls)
              then Inserted(Render(Closed(ls, c)), InsertAt(Render(Closed(ls, c))), MtuLine(c.mtu.value))
              else Render(Closed(ls, c))
  {
    hide Scanned, InsertAt, Section, Served, MtuSet;
    if c.mtu.Some? {
      RenderInserted(Closed(ls, c), InsertAt(Render(Closed(ls, c))), MtuLine(c.mtu.value));
    }
  }

  // ----- The source's loop -----

  method RewriteConfEndpoint(text: string, c: Change) returns (r: Result<string>)
    ensures r == Rewrite(text, c)
    ensures r.Ok? && Printed(c) ==> ReadsBack(Lines(text), Lines(r.value), c)
  {
    hide Section, Served, MtuSet, Scanned, Render, Trim, AsciiLower, Lines, EndpointLine, MtuLine, Closed, Rewritten,
        Joined, ReadsBack, IsSetting;
    AtStart(c);
    var inPeer, inRg, wroteEndpoint, wroteMtu := false, false, false, false;
    var out: seq<string> := [];
    var lines := Lines(text);
    var i := 0;
    while i < |lines|
      invariant 0 <= i <= |lines|
      invariant inPeer == (Section(lines[..i]) == PEER) && inRg == (Section(lines[..i]) == ROUTEGUARD)
      invariant wroteEndpoint == Served(lines[..i])
      invariant wroteMtu == (c.mtu.Some? && MtuSet(lines[..i]))
      invariant out == Render(Scanned(lines[..i], c))
    {
      var line := lines[i];
      ghost var was := out;
      TakeStep(lines, i + 1);
      Step(lines[..i], line, c);
      HeaderByTrim(line);
      i := i + 1;
      var trimmed := Trim(line);
      var lower := AsciiLower(trimmed);
      if StartsWith(trimmed, "[") {
        if inPeer && !wroteEndpoint {
          out := out + [EndpointLine(c.endpoint)];
          wroteEndpoint := true;
          assert out + [line] == was + [EndpointLine(c.endpoint), line];
        }
        inRg := lower == ROUTEGUARD;
        inPeer := lower == PEER;
        if lower == INTERFACE {
          wroteMtu := false;
        }
        if !inRg {
          out := out + [line];
        }
      } else if inRg {
      } else if inPeer && StartsWith(lower, "endpoint") {
        out := out + [EndpointLine(c.endpoint)];
        wroteEndpoint := true;
      } else if IsTransport(lower) {
      } else if StartsWith(lower, "mtu") && c.mtu.Some? {
        out := out + [MtuLine(c.mtu.value)];
        wroteMtu := true;
      } else {
        out := out + [line];
      }
    }
    assert lines[..i] == lines;
    AtEnd(lines, c);
    if inPeer && !wroteEndpoint {
      out := out + [EndpointLine(c.endpoint)];
    }
    if c.mtu.Some? && !wroteMtu {
      var pos := InsertAt(out);
      out := out[..pos] + [MtuLine(c.mtu.value)] + out[pos..];
    }
    r := if out == [] then Err("empty conf") else Ok(Joined(out));
    if r.Ok? && Printed(c) { ReadBack(text, c); }
  }

  // ----- Kept lines keep their order -----

  /** The kept lines of `outs` carry increasing line numbers. */
  predicate InOrder(outs: seq<Out>)
  {
    forall p, q | 0 <= p < q < |outs| && outs[p].Kept? && outs[q].Kept? :: outs[p].at < outs[q].at
  }

  /** The kept lines are exactly the surviving lines of `ls`. */
  predicate KeepsSurvivors(outs: seq<Out>, ls: seq<string>, c: Change)
  {
    && (forall p | 0 <= p < |outs| && outs[p].Kept? :: IsSurvivor(outs[p].at, outs[p].line, ls, c))
    && (forall i: nat | i < |ls| && Survives(ls[..i], ls[i], c) :: Kept(i, ls[i]) in outs)
  }

  predicate IsSurvivor(at: nat, line: string, ls: seq<string>, c: Change)
  {
    at < |ls| && line == ls[at] && Survives(ls[..at], line, c)
  }

  predicate WrittenBy(l: string, c: Change)
  {
    l == EndpointLine(c.endpoint) || (c.mtu.Some? && l == MtuLine(c.mtu.value))
  }

  predicate WritesOnly(outs: seq<Out>, c: Change)
  {
    forall p | 0 <= p < |outs| && outs[p].Written? :: WrittenBy(outs[p].line, c)
  }

  lemma EmissionShape(before: seq<string>, l: string, c: Change)
    ensures var e := Emission(before, l, c);
            && |e| <= 2 && WritesOnly(e, c)
            && (forall p | 0 <= p < |e| && e[p].Kept? :: p == |e| - 1 && e[p] == Kept(|before|, l) &&
                 Survives(before, l, c))
            && (Survives(before, l, c) ==> |e| > 0 && e[|e| - 1] == Kept(|before|, l))
  {
    hide Survives, OwesEndpoint, Section, LineKind, EndpointLine, MtuLine;
  }

  lemma ScanStepInOrder(outs: seq<Out>, before: seq<string>, l: string, c: Change)
    requires InOrder(outs) && KeepsSurvivors(outs, before, c) && WritesOnly(outs, c)
    ensures var r, ls := outs + Emission(before, l, c), before + [l];
            InOrder(r) && KeepsSurvivors(r, ls, c) && WritesOnly(r, c)
  {
    hide Survives, Emission, WrittenBy;
    var e := Emission(before, l, c);
    var r, ls := outs + e, before + [l];
    EmissionShape(before, l, c);
    assert forall i: nat | i < |before| :: ls[..i] == before[..i];
    assert ls[..|before|] == before;
    assert forall p | 0 <= p < |outs| && outs[p].Kept? :: IsSurvivor(outs[p].at, outs[p].line, before, c);
    assert forall p | |outs| <= p < |r| :: r[p] == e[p - |outs|];
    forall i: nat | i < |ls| && Survives(ls[..i], ls[i], c) ensures Kept(i, ls[i]) in r {
      if i < |before| {
        assert Kept(i, ls[i]) in outs;
      } else {
        assert e[|e| - 1] in r;
      }
    }
  }

  lemma {:induction false} ScannedInOrder(ls: seq<string>, c: Change)
    ensures InOrder(Scanned(ls, c)) && KeepsSurvivors(Scanned(ls, c), ls, c) && WritesOnly(Scanned(ls, c), c)
  {
    if ls != [] {
      ScannedInOrder(Init(ls), c);
      ScanStepInOrder(Scanned(Init(ls), c), Init(ls), Final(ls), c);
      assert ls == Init(ls) + [Final(ls)];
    }
  }

  lemma InsertedInOrder(outs: seq<Out>, p: nat, l: string)
    requires p <= |outs| && InOrder(outs)
    ensures InOrder(Inserted(outs, p, Written(l)))
  {
    var r := Inserted(outs, p, Written(l));
    assert forall k | 0 <= k < |r| && k != p :: r[k] == outs[if k < p then k else k - 1];
  }

  lemma InsertedKeeps(outs: seq<Out>, p: nat, l: string, ls: seq<string>, c: Change)
    requires p <= |outs| && WrittenBy(l, c)
    requires KeepsSurvivors(outs, ls, c) && WritesOnly(outs, c)
    ensures var r := Inserted(outs, p, Written(l)); KeepsSurvivors(r, ls, c) && WritesOnly(r, c)
  {
    hide Survives, WrittenBy, IsSurvivor;
    var r := Inserted(outs, p, Written(l));
    assert r[p] == Written(l);
    assert forall k | 0 <= k < |r| && k != p :: r[k] == outs[if k < p then k else k - 1];
    forall o | o in outs ensures o in r {
      var k :| 0 <= k < |outs| && outs[k] == o;
      assert r[if k < p then k else k + 1] == o;
    }
  }

  /** The output is exactly the surviving lines, in their order, among lines that the rewrite wrote. */
  lemma OrderKept(ls: seq<string>, c: Change)
    ensures var r := Rewritten(ls, c); InOrder(r) && KeepsSurvivors(r, ls, c) && WritesOnly(r, c)
  {
    ScannedInOrder(ls, c);
    var scanned, body := Scanned(ls, c), Closed(ls, c);
    hide InOrder, KeepsSurvivors, WritesOnly, Scanned, OwesEndpoint, MtuSet;
    if OwesEndpoint(ls) {
      assert body == Inserted(scanned, |scanned|, Written(EndpointLine(c.endpoint)));
      InsertedInOrder(scanned, |scanned|, EndpointLine(c.endpoint));
      InsertedKeeps(scanned, |scanned|, EndpointLine(c.endpoint), ls, c);
    } else {
      assert body == scanned;
    }
    if c.mtu.Some? && !MtuSet(ls) {
      InsertedInOrder(body, InsertAt(Render(body)), MtuLine(c.mtu.value));
      InsertedKeeps(body, InsertAt(Render(body)), MtuLine(c.mtu.value), ls, c);
    }
  }

  // ----- Texts that a rewrite leaves alone -----

  /** A line that the rewrite would pass on unchanged after `before`. */
  predicate Calm(before: seq<string>, l: string, c: Change)
  {
    match LineKind(l)
    case Header(s) => s != ROUTEGUARD && !OwesEndpoint(before)
    case Endpoint => Section(before) == PEER ==> l == EndpointLine(c.endpoint)
    case Transport => false
    case Mtu => c.mtu.Some? ==> l == MtuLine(c.mtu.value)
    case Other => true
  }

  predicate Settled(ls: seq<string>, c: Change)
  {
    ls == [] || (Settled(Init(ls), c) && Calm(Init(ls), Final(ls), c))
  }

  lemma {:induction false} SettledHasNoRouteGuard(ls: seq<string>, c: Change)
    requires Settled(ls, c)
    ensures Section(ls) != ROUTEGUARD && Headers(ls, ROUTEGUARD) == 0
  {
    if ls != [] {
      SettledHasNoRouteGuard(Init(ls), c);
    }
  }

  lemma {:induction false} SettledIsFixed(ls: seq<string>, c: Change)
    requires Settled(ls, c)
    ensures Render(Scanned(ls, c)) == ls
  {
    if ls != [] {
      hide Section, Served, Scanned, Render, LineKind, EndpointLine, MtuLine;
      SettledIsFixed(Init(ls), c);
      SettledHasNoRouteGuard(Init(ls), c);
      InitLast(ls);
      Step(Init(ls), Final(ls), c);
    }
  }

  /** What the scan's output `a` says about the lines `ls` it came from. */
  predicate Mirrors(a: seq<string>, ls: seq<string>, c: Change)
  {
    && Settled(a, c)
    && (Section(ls) != ROUTEGUARD ==> Section(a) == Section(ls))
    && (Section(a) == PEER ==> Section(ls) == PEER || Served(ls))
    && Served(a) == Served(ls)
    && MtuSet(a) == MtuSet(ls)
    && Headers(a, INTERFACE) == Headers(ls, INTERFACE)
    && Headers(a, PEER) == Headers(ls, PEER)
  }

  lemma MirrorStep(a: seq<string>, before: seq<string>, l: string, c: Change)
    requires Mirrors(a, before, c)
    ensures Mirrors(Extended(a, before, l, c), before + [l], c)
  {
    hide Section, Served, MtuSet, Scanned, Render, Headers, Settled, LineKind, EndpointLine, MtuLine;
    SettledHasNoRouteGuard(a, c);
    var w := Writes(before, l, c);
    Step(before, l, c);
    StepHeaders(before, l, INTERFACE);
    StepHeaders(before, l, PEER);
    EndpointLineKind(c.endpoint);
    if c.mtu.Some? {
      MtuLineKind(c.mtu.value);
    }
    var a1 := if w == [] then a else a + [w[0]];
    if w != [] {
      Step(a, w[0], c);
      StepHeaders(a, w[0], INTERFACE);
      StepHeaders(a, w[0], PEER);
    }
    if Survives(before, l, c) {
      Step(a1, l, c);
      StepHeaders(a1, l, INTERFACE);
      StepHeaders(a1, l, PEER);
      assert w != [] ==> a1 + [l] == a + [w[0], l];
    }
  }

  lemma {:induction false} ScanMirrors(ls: seq<string>, c: Change)
    ensures Mirrors(Render(Scanned(ls, c)), ls, c)
  {
    if ls != [] {
      hide *;
      ScanMirrors(Init(ls), c);
      Step(Init(ls), Final(ls), c);
      MirrorStep(Render(Scanned(Init(ls), c)), Init(ls), Final(ls), c);
      InitLast(ls);
    }
  }

  /** The closed scan owes no endpoint and keeps what the lines said about MTU and headers. */
  lemma ClosedMirrors(ls: seq<string>, c: Change)
    ensures var b := Render(Closed(ls, c));
            && Settled(b, c) && !OwesEndpoint(b) && MtuSet(b) == MtuSet(ls)
            && Headers(b, INTERFACE) == Headers(ls, INTERFACE) && Headers(b, PEER) == Headers(ls, PEER)
  {
    ScanMirrors(ls, c);
    var a := Render(Scanned(ls, c));
    RenderConcat(Scanned(ls, c), [Written(EndpointLine(c.endpoint))]);
    RenderConcat(Scanned(ls, c), []);
    if OwesEndpoint(ls) {
      EndpointLineKind(c.endpoint);
      Snoc(a, EndpointLine(c.endpoint));
      assert Render(Closed(ls, c)) == a + [EndpointLine(c.endpoint)];
    } else {
      assert Render(Closed(ls, c)) == a;
    }
  }

  // ----- Inserting the MTU line -----

  /**
    An MTU line put between `x` and `y` changes no section, owes nothing, and is the
    last word unless `y` names an interface.
  */
  lemma {:induction false} InsertedMtu(x: seq<string>, y: seq<string>, c: Change)
    requires c.mtu.Some? && Settled(x + y, c)
    ensures var m := MtuLine(c.mtu.value);
            var r := x + [m] + y;
            && Settled(r, c) && Section(r) == Section(x + y) && Served(r) == Served(x + y)
            && Headers(r, PEER) == Headers(x + y, PEER) && Headers(r, INTERFACE) == Headers(x + y, INTERFACE)
            && MtuSet(r) == (MtuSet(x + y) || Headers(y, INTERFACE) == 0)
    decreases |y|
  {
    var m := MtuLine(c.mtu.value);
    var r := x + [m] + y;
    MtuLineKind(c.mtu.value);
    SettledHasNoRouteGuard(x + y, c);
    if y == [] {
      assert x + y == x && r == x + [m];
      Snoc(x, m);
    } else {
      assert Init(r) == x + [m] + Init(y) && Final(r) == Final(y);
      assert Init(x + y) == x + Init(y) && Final(x + y) == Final(y);
      InsertedMtu(x, Init(y), c);
      SettledHasNoRouteGuard(x + Init(y), c);
    }
  }

  lemma {:induction false} HeadersConcat(x: seq<string>, y: seq<string>, s: string)
    ensures Headers(x + y, s) == Headers(x, s) + Headers(y, s)
    decreases |y|
  {
    if y == [] {
      assert x + y == x;
    } else {
      assert Init(x + y) == x + Init(y) && Final(x + y) == Final(y);
      HeadersConcat(x, Init(y), s);
    }
  }

  /** The insertion point has at most one interface header before it: the only one, if there is only one. */
  lemma {:induction false} InsertAtFirst(ls: seq<string>)
    ensures Headers(ls[..InsertAt(ls)], INTERFACE) == if Headers(ls, INTERFACE) == 0 then 0 else 1
  {
    if ls != [] {
      var p := InsertAt(ls);
      assert ls == [ls[0]] + ls[1..] && ls[..p] == [ls[0]] + ls[1..][..p - 1];
      HeadersConcat([ls[0]], ls[1..], INTERFACE);
      HeadersConcat([ls[0]], ls[1..][..p - 1], INTERFACE);
      assert Init([ls[0]]) == [] && Final([ls[0]]) == ls[0];
      if LineKind(ls[0]) != Header(INTERFACE) {
        InsertAtFirst(ls[1..]);
      } else {
        assert ls[1..][..p - 1] == [];
      }
    }
  }

  lemma InsertionSettles(b: seq<string>, c: Change)
    requires c.mtu.Some? && Settled(b, c) && !MtuSet(b)
    ensures var r := Inserted(b, InsertAt(b), MtuLine(c.mtu.value));
            && Settled(r, c) && OwesEndpoint(r) == OwesEndpoint(b) && Headers(r, PEER) == Headers(b, PEER)
            && Headers(r, INTERFACE) == Headers(b, INTERFACE)
            && (MtuSet(r) <==> Headers(b, INTERFACE) <= 1)
  {
    var p := InsertAt(b);
    assert b == b[..p] + b[p..];
    InsertedMtu(b[..p], b[p..], c);
    HeadersConcat(b[..p], b[p..], INTERFACE);
    InsertAtFirst(b);
  }

  /** When a second pass has no MTU line left to write. */
  predicate MtuStable(ls: seq<string>, c: Change)
  {
    c.mtu.None? || MtuSet(ls) || Headers(ls, INTERFACE) <= 1
  }

  lemma OutputSettles(ls: seq<string>, c: Change)
    ensures Settled(Output(ls, c), c) && !OwesEndpoint(Output(ls, c))
    ensures Headers(Output(ls, c), PEER) == Headers(ls, PEER) &&
        Headers(Output(ls, c), INTERFACE) == Headers(ls, INTERFACE)
    ensures c.mtu.Some? ==> (MtuSet(Output(ls, c)) <==> MtuStable(ls, c))
  {
    ClosedMirrors(ls, c);
    var body := Closed(ls, c);
    if c.mtu.Some? && !MtuSet(ls) {
      var p, m := InsertAt(Render(body)), MtuLine(c.mtu.value);
      InsertionSettles(Render(body), c);
      RenderInserted(body, p, m);
    }
  }

  /** A settled text that owes nothing is left alone, but for an MTU line it still lacks. */
  lemma SettledIsKept(b: seq<string>, c: Change)
    requires Settled(b, c) && !OwesEndpoint(b)
    ensures c.mtu.Some? && !MtuSet(b) ==> |Output(b, c)| == |b| + 1
    ensures c.mtu.None? || MtuSet(b) ==> Output(b, c) == b
  {
    SettledIsFixed(b, c);
    assert Closed(b, c) == Scanned(b, c);
  }

  // ----- Reading the rewritten text back -----

  /** The trimmed value of the first `key = value` line in a peer section whose key opens with `endpoint`. */
  function EndpointValue(ls: seq<string>): Option<string>
  {
    if ls == [] then None
    else if EndpointValue(Init(ls)).Some? then EndpointValue(Init(ls))
    else if Section(Init(ls)) == PEER && LineKind(Final(ls)).Endpoint? && SplitOnce(Trim(Final(ls))).Some?
    then Some(Trim(SplitOnce(Trim(Final(ls))).value.1))
    else None
  }

  /** The trimmed text after the line's first equals sign. */
  ghost predicate HasValue(l: string, v: string)
  {
    exists k, w :: Trim(l) == k + "=" + w && '=' !in k && v == Trim(w)
  }

  lemma ValueIs(l: string)
    ensures SplitOnce(Trim(l)).Some? <==> '=' in Trim(l)
    ensures SplitOnce(Trim(l)).Some? ==> HasValue(l, Trim(SplitOnce(Trim(l)).value.1))
  {
    SplitOnceIff(Trim(l));
  }

  /** The value of the first line of a peer section that gives an endpoint, among the first `n` lines. */
  ghost predicate IsPeerEndpoint(ls: seq<string>, n: nat, r: Option<string>)
    requires n <= |ls|
  {
    match r
    case None => forall k: nat | k < n && GivesEndpoint(ls, k) :: '=' !in Trim(ls[k])
    case Some(v) => exists k: nat | k < n :: FirstEndpointAt(ls, k) && HasValue(ls[k], v)
  }

  ghost predicate FirstEndpointAt(ls: seq<string>, k: nat)
    requires k < |ls|
  {
    GivesEndpoint(ls, k) && '=' in Trim(ls[k]) && forall j: nat | j < k && GivesEndpoint(ls, j) :: '=' !in Trim(ls[j])
  }

  lemma EndpointValueNext(ls: seq<string>, k: nat)
    requires k < |ls|
    ensures EndpointValue(ls[..k]).Some? ==> EndpointValue(ls[..k + 1]) == EndpointValue(ls[..k])
    ensures EndpointValue(ls[..k]).None? ==>
              var r := EndpointValue(ls[..k + 1]);
              && (r.Some? <==> GivesEndpoint(ls, k) && '=' in Trim(ls[k]))
              && (r.Some? ==> HasValue(ls[k], r.value))
  {
    TakeStep(ls, k + 1);
    ValueIs(ls[k]);
    KindIs(Key(ls[k]));
    SectionIs(ls, k, "[peer]");
    hide Key, KindOf, Section, Under, HasValue, Trim, SplitOnce;
  }

  lemma {:induction false} EndpointValueIs(ls: seq<string>, n: nat)
    requires n <= |ls|
    ensures IsPeerEndpoint(ls, n, EndpointValue(ls[..n]))
  {
    hide HasValue, Trim, GivesEndpoint;
    if n > 0 {
      hide EndpointValue;
      EndpointValueIs(ls, n - 1);
      EndpointValueNext(ls, n - 1);
    } else {
      assert ls[..n] == [];
    }
  }

  lemma {:induction false} FirstValueWins(ls: seq<string>, i: nat)
    requires i <= |ls| && EndpointValue(ls[..i]).Some?
    ensures EndpointValue(ls) == EndpointValue(ls[..i])
    decreases |ls| - i
  {
    if i < |ls| {
      TakeStep(ls, i + 1);
      FirstValueWins(ls, i + 1);
    } else {
      assert ls[..i] == ls;
    }
  }

  /** `parse` reads an address; the address type and its printed form stay abstract. */
  method ParsePeerEndpoint<A>(text: string, parse: string -> Option<A>) returns (r: Option<A>)
    ensures exists e ::
              && IsPeerEndpoint(Lines(text), |Lines(text)|, e)
              && r == match e case None => None case Some(v) => parse(v)
  {
    EndpointValueIs(Lines(text), |Lines(text)|);
    assert Lines(text)[..|Lines(text)|] == Lines(text);
    var inPeer := false;
    var lines := Lines(text);
    var i := 0;
    while i < |lines|
      invariant 0 <= i <= |lines|
      invariant inPeer == (Section(lines[..i]) == PEER) && EndpointValue(lines[..i]).None?
    {
      var trimmed := Trim(lines[i]);
      TakeStep(lines, i + 1);
      HeaderByTrim(lines[i]);
      i := i + 1;
      if StartsWith(trimmed, "[") {
        inPeer := AsciiLower(trimmed) == PEER;
      } else if inPeer && StartsWith(AsciiLower(trimmed), "endpoint") {
        var kv := SplitOnce(trimmed);
        if kv.Some? {
          FirstValueWins(lines, i);
          return parse(Trim(kv.value.1));
        }
      }
    }
    assert lines[..i] == lines;
    return None;
  }

  /** In a settled text every peer endpoint is the written one, and one was met once a peer section is served. */
  lemma {:induction false} SettledEndpoint(b: seq<string>, c: Change)
    requires Settled(b, c) && Printed(c)
    ensures EndpointValue(b) == if Served(b) then Some(c.endpoint) else None
    ensures Headers(b, PEER) > 0 <==> Served(b) || Section(b) == PEER
  {
    if b != [] {
      SettledEndpoint(Init(b), c);
      EndpointLineValue(c.endpoint);
      EndpointLineKind(c.endpoint);
    }
  }

  datatype TransportPreference = Auto | DirectUdp | Phantun | LwoTransport

  datatype RouteGuardSection = RouteGuardSection(
    transport: Option<TransportPreference>,
    remoteTcp: Option<string>,
    remoteUdp: Option<string>,
    localListen: Option<string>,
    lwoEnabled: bool,
    protocolVersion: Option<byte>
  )

  const DEFAULT := RouteGuardSection(None, None, None, None, false, None)

  function ParseTransportPref(s: string): TransportPreference
  {
    var l := AsciiLower(s);
    if l == "phantun" then Phantun
    else if l == "lwo" then LwoTransport
    else if l in {"direct_udp", "direct", "udp"} then DirectUdp
    else Auto
  }

  /** Decimal digits and nothing else; their value. */
  function ParseDigits(s: string): Option<nat>
  {
    if s == "" then Some(0)
    else
      var d := s[|s| - 1];
      match ParseDigits(s[..|s| - 1])
      case Some(n) => if '0' <= d <= '9' then Some(10 * n + (d as int - '0' as int)) else None
      case None => None
  }

  /** `str::parse::<u8>`: an optional plus sign, at least one digit, at most 255. */
  function ParseU8(s: string): Option<byte>
  {
    var digits := if StartsWith(s, "+") then s[1..] else s;
    match ParseDigits(digits)
    case Some(n) => if digits != "" && n < 256 then Some(n) else None
    case None => None
  }

  function Apply(s: RouteGuardSection, key: string, val: string): RouteGuardSection
  {
    match key
    case "transport" => s.(transport := Some(ParseTransportPref(val)))
    case "remotetcp" => s.(remoteTcp := Some(val))
    case "remoteudp" => s.(remoteUdp := Some(val))
    case "locallisten" => s.(localListen := Some(val))
    case "lwo" => s.(lwoEnabled := AsciiLower(val) in {"true", "1", "yes"})
    case "protocolversion" => s.(protocolVersion := ParseU8(val))
    case _ => s
  }

  /** The settings of every RouteGuard section, a later line overriding an earlier one. */
  function SectionValue(ls: seq<string>): RouteGuardSection
  {
    if ls == [] then DEFAULT
    else
      var s, l := SectionValue(Init(ls)), Final(ls);
      if LineKind(l).Header? || Section(Init(ls)) != ROUTEGUARD then s
      else
        match SplitOnce(Trim(l))
        case None => s
        case Some(kv) => Apply(s, Key(kv.0), Trim(kv.1))
  }

  /** Line `k` of a RouteGuard section sets `key`, whatever the case of its letters, to this text. */
  ghost predicate Sets(ls: seq<string>, k: nat, key: string, v: string)
    requires k < |ls|
  {
    && Under(ls, k, "[routeguard]") && !("[" <= Key(ls[k]))
    && exists a, w :: Trim(ls[k]) == a + "=" + w && '=' !in a && Key(a) == key && v == Trim(w)
  }

  /** The text that the last of the first `n` lines that set `key` set it to. */
  ghost predicate LastSet(ls: seq<string>, n: nat, key: string, r: Option<string>)
    requires n <= |ls|
  {
    match r
    case None => forall k: nat, v | k < n :: !Sets(ls, k, key, v)
    case Some(v) => exists k: nat | k < n :: Sets(ls, k, key, v) && forall j: nat, w | k < j < n :: !Sets(ls, j, key, w)
  }

  /** What a line sets, if anything. */
  function SettingOf(ls: seq<string>, k: nat): Option<(string, string)>
    requires k < |ls|
  {
    if LineKind(ls[k]).Header? || Section(ls[..k]) != ROUTEGUARD then None
    else
      match SplitOnce(Trim(ls[k]))
      case None => None
      case Some(kv) => Some((Key(kv.0), Trim(kv.1)))
  }

  lemma SettingIff(ls: seq<string>, k: nat, key: string, v: string)
    requires k < |ls|
    ensures Sets(ls, k, key, v) <==> SettingOf(ls, k) == Some((key, v))
  {
    SectionIs(ls, k, "[routeguard]");
    KindIs(Key(ls[k]));
    SplitOnceIff(Trim(ls[k]));
    hide Key, KindOf, Section, Under, Trim, SplitOnce;
    forall a, w | Trim(ls[k]) == a + "=" + w && '=' !in a ensures SplitOnce(Trim(ls[k])) == Some((a, w)) {
      SplitAtEquals(a, w);
    }
  }

  /** The last setting of a key, line by line. */
  function LastOf(ls: seq<string>, n: nat, key: string): Option<string>
    requires n <= |ls|
  {
    if n == 0 then None
    else
      match SettingOf(ls, n - 1)
      case Some((k, v)) => if k == key then Some(v) else LastOf(ls, n - 1, key)
      case None => LastOf(ls, n - 1, key)
  }

  lemma LastSetNext(ls: seq<string>, n: nat, key: string, r: Option<string>)
    requires n < |ls| && LastSet(ls, n, key, r)
    ensures (forall v :: !Sets(ls, n, key, v)) ==> LastSet(ls, n + 1, key, r)
    ensures forall v | Sets(ls, n, key, v) :: LastSet(ls, n + 1, key, Some(v))
  {
    hide Sets;
    if (forall v :: !Sets(ls, n, key, v)) && r.Some? {
      var k: nat :| k < n && Sets(ls, k, key, r.value) && forall j: nat, w | k < j < n :: !Sets(ls, j, key, w);
      assert forall j: nat, w | k < j < n + 1 :: !Sets(ls, j, key, w);
    }
  }

  lemma {:induction false} LastOfIs(ls: seq<string>, n: nat, key: string)
    requires n <= |ls|
    ensures LastSet(ls, n, key, LastOf(ls, n, key))
  {
    hide Sets, SettingOf;
    if n > 0 {
      hide LastSet;
      var k, set_ := n - 1, SettingOf(ls, n - 1);
      LastOfIs(ls, k, key);
      LastSetNext(ls, k, key, LastOf(ls, k, key));
      forall v ensures Sets(ls, k, key, v) <==> set_ == Some((key, v)) {
        SettingIff(ls, k, key, v);
      }
    }
  }

  predicate SaysYes(v: string)
  {
    SameButCase(v, "true") || v == "1" || SameButCase(v, "yes")
  }

  predicate HoldsTexts(s: RouteGuardSection, tcp: Option<string>, udp: Option<string>, listen: Option<string>)
  {
    s.remoteTcp == tcp && s.remoteUdp == udp && s.localListen == listen
  }

  predicate HoldsValues(s: RouteGuardSection, transport: Option<string>, lwo: Option<string>, version: Option<string>)
  {
    && s.transport == (if transport.None? then None else Some(ParseTransportPref(transport.value)))
    && (s.lwoEnabled <==> lwo.Some? && SaysYes(lwo.value))
    && s.protocolVersion == if version.None? then None else ParseU8(version.value)
  }

  /** What a section holds when its keys were last set to these texts. */
  predicate Holds(s: RouteGuardSection, transport: Option<string>, tcp: Option<string>, udp: Option<string>,
                  listen: Option<string>, lwo: Option<string>, version: Option<string>)
  {
    HoldsTexts(s, tcp, udp, listen) && HoldsValues(s, transport, lwo, version)
  }

  lemma YesIff(v: string)
    ensures AsciiLower(v) in {"true", "1", "yes"} <==> SaysYes(v)
  {
    LowerIff(v, "true");
    LowerIff(v, "1");
    LowerIff(v, "yes");
    assert AsciiLower("true") == "true" && AsciiLower("1") == "1" && AsciiLower("yes") == "yes";
    assert SameButCase(v, "1") <==> v == "1";
    hide AsciiLower, SameButCase;
  }

  lemma SectionValueNext(ls: seq<string>, k: nat)
    requires k < |ls|
    ensures SectionValue(ls[..k + 1]) == match SettingOf(ls, k)
                                         case None => SectionValue(ls[..k])
                                         case Some(kv) => Apply(SectionValue(ls[..k]), kv.0, kv.1)
  {
    TakeStep(ls, k + 1);
    hide LineKind, Section, Trim, SplitOnce, Key, Apply;
  }

  function Over(before: Option<string>, set_: (string, string), key: string): Option<string>
  {
    if set_.0 == key then Some(set_.1) else before
  }

  lemma ApplyTexts(s: RouteGuardSection, tcp: Option<string>, udp: Option<string>, listen: Option<string>,
                   set_: (string, string))
    requires HoldsTexts(s, tcp, udp, listen)
    ensures HoldsTexts(Apply(s, set_.0, set_.1), Over(tcp, set_, "remotetcp"), Over(udp, set_, "remoteudp"),
                       Over(listen, set_, "locallisten"))
  {
    KeysDiffer();
    hide ParseU8, ParseTransportPref, AsciiLower;
  }

  lemma ApplyValues(s: RouteGuardSection, transport: Option<string>, lwo: Option<string>, version: Option<string>,
                    set_: (string, string))
    requires HoldsValues(s, transport, lwo, version)
    ensures HoldsValues(Apply(s, set_.0, set_.1), Over(transport, set_, "transport"), Over(lwo, set_, "lwo"),
                        Over(version, set_, "protocolversion"))
  {
    YesIff(set_.1);
    KeysDiffer();
    hide ParseU8, ParseTransportPref, SaysYes, AsciiLower;
  }

  lemma KeysDiffer()
    ensures "transport" != "remotetcp" && "transport" != "remoteudp" && "remotetcp" != "remoteudp"
  {
    assert "transport"[0] != "remotetcp"[0] && "transport"[0] != "remoteudp"[0] && "remotetcp"[6] != "remoteudp"[6];
  }

  lemma {:induction false} SectionHolds(ls: seq<string>, n: nat)
    requires n <= |ls|
    ensures Holds(SectionValue(ls[..n]), LastOf(ls, n, "transport"), LastOf(ls, n, "remotetcp"),
                  LastOf(ls, n, "remoteudp"), LastOf(ls, n, "locallisten"), LastOf(ls, n, "lwo"),
                  LastOf(ls, n, "protocolversion"))
  {
    if n > 0 {
      hide HoldsTexts, HoldsValues, SectionValue, SettingOf, Apply;
      SectionHolds(ls, n - 1);
      SectionValueNext(ls, n - 1);
      var k := n - 1;
      if SettingOf(ls, k).Some? {
        var s, set_ := SectionValue(ls[..k]), SettingOf(ls, k).value;
        ApplyTexts(s, LastOf(ls, k, "remotetcp"), LastOf(ls, k, "remoteudp"), LastOf(ls, k, "locallisten"), set_);
        ApplyValues(s, LastOf(ls, k, "transport"), LastOf(ls, k, "lwo"), LastOf(ls, k, "protocolversion"), set_);
      }
    } else {
      assert ls[..n] == [];
    }
  }

  /** Case aside, the names of the transports; any other text leaves the choice open. */
  lemma TransportNames(s: string)
    ensures ParseTransportPref(s) == Phantun <==> SameButCase(s, "phantun")
    ensures ParseTransportPref(s) == LwoTransport <==> SameButCase(s, "lwo")
    ensures ParseTransportPref(s) == DirectUdp <==>
            SameButCase(s, "direct_udp") || SameButCase(s, "direct") || SameButCase(s, "udp")
  {
    LowerIff(s, "phantun");
    LowerIff(s, "lwo");
    LowerIff(s, "direct_udp");
    LowerIff(s, "direct");
    LowerIff(s, "udp");
    assert AsciiLower("phantun") == "phantun" && AsciiLower("lwo") == "lwo" && AsciiLower("udp") == "udp";
    assert AsciiLower("direct_udp") == "direct_udp" && AsciiLower("direct") == "direct";
    var l := AsciiLower(s);
    hide AsciiLower, SameButCase;
    assert |"lwo"| == |"udp"| && "lwo"[0] != "udp"[0];
  }

  lemma {:induction false} DigitsOfDecimal(n: nat)
    ensures ParseDigits(Decimal(n)) == Some(n)
  {
    var d := '0' + (n % 10) as char;
    if n >= 10 {
      DigitsOfDecimal(n / 10);
      assert Decimal(n)[..|Decimal(n)| - 1] == Decimal(n / 10);
    } else {
      assert Decimal(n)[..0] == "";
    }
  }

  /** A printed number is read back if it fits in an octet, with or without a plus sign, and refused otherwise. */
  lemma U8OfDecimal(n: nat)
    ensures ParseU8(Decimal(n)) == ParseU8("+" + Decimal(n)) == if n < 256 then Some(n) else None
  {
    DigitsOfDecimal(n);
    assert Decimal(n)[0] in Decimal(n);
    assert ("+" + Decimal(n))[1..] == Decimal(n);
    hide ParseDigits, Decimal;
  }

  lemma {:induction false} OnlyDigits(s: string)
    ensures ParseDigits(s).Some? <==> forall c | c in s :: '0' <= c <= '9'
  {
    if s != "" {
      var init, last := s[..|s| - 1], s[|s| - 1];
      OnlyDigits(init);
      assert forall c | c in s :: c in init || c == last;
      assert (forall c | c in init :: c in s) && last in s;
    }
  }

  method ParseRouteGuardSection(text: string) returns (section: RouteGuardSection)
    ensures section == SectionValue(Lines(text))
    ensures exists transport, tcp, udp, listen, lwo, version ::
              && Holds(section, transport, tcp, udp, listen, lwo, version)
              && var ls := Lines(text);
                 && LastSet(ls, |ls|, "transport", transport) && LastSet(ls, |ls|, "remotetcp", tcp)
                 && LastSet(ls, |ls|, "remoteudp", udp) && LastSet(ls, |ls|, "locallisten", listen)
                 && LastSet(ls, |ls|, "lwo", lwo) && LastSet(ls, |ls|, "protocolversion", version)
  {
    hide Holds, LastSet;
    var all, n := Lines(text), |Lines(text)|;
    SectionHolds(all, n);
    LastOfIs(all, n, "transport");
    LastOfIs(all, n, "remotetcp");
    LastOfIs(all, n, "remoteudp");
    LastOfIs(all, n, "locallisten");
    LastOfIs(all, n, "lwo");
    LastOfIs(all, n, "protocolversion");
    section := DEFAULT;
    var inRg := false;
    var lines := Lines(text);
    for i := 0 to |lines|
      invariant section == SectionValue(lines[..i]) && inRg == (Section(lines[..i]) == ROUTEGUARD)
    {
      var trimmed := Trim(lines[i]);
      TakeStep(lines, i + 1);
      HeaderByTrim(lines[i]);
      if StartsWith(trimmed, "[") {
        inRg := AsciiLower(trimmed) == ROUTEGUARD;
      } else if inRg {
        var kv := SplitOnce(trimmed);
        if kv.Some? {
          section := Apply(section, Key(kv.value.0), Trim(kv.value.1));
        }
      }
    }
    assert lines[..|lines|] == lines;
  }

  lemma {:induction false} SettledSection(b: seq<string>, c: Change)
    requires Settled(b, c)
    ensures SectionValue(b) == DEFAULT
  {
    if b != [] {
      SettledSection(Init(b), c);
      SettledHasNoRouteGuard(Init(b), c);
    }
  }

  // ----- From lines to texts -----

  /** A final carriage return changes no line's meaning. */
  lemma {:induction false} ChompedMeansTheSame(ls: seq<string>, c: Change)
    requires Printed(c) && Settled(ls, c)
    ensures var r := Chomped(ls);
            && Settled(r, c) && Section(r) == Section(ls) && Served(r) == Served(ls) && MtuSet(r) == MtuSet(ls)
            && Headers(r, PEER) == Headers(ls, PEER) && Headers(r, INTERFACE) == Headers(ls, INTERFACE)
  {
    if ls != [] {
      var r := Chomped(ls);
      assert Init(r) == Chomped(Init(ls)) && Final(r) == Chomp(Final(ls));
      ChompKeepsKind(Final(ls));
      ChompedMeansTheSame(Init(ls), c);
      WrittenAreChomped(c);
    }
  }

  lemma WrittenAreChomped(c: Change)
    requires Printed(c)
    ensures var e := EndpointLine(c.endpoint); Chomp(e) == e && OneLine(e)
    ensures c.mtu.Some? ==> var m := MtuLine(c.mtu.value); Chomp(m) == m && OneLine(m)
  {
    TrimmedEnds(c.endpoint);
    var e := EndpointLine(c.endpoint);
    assert e[|e| - 1] == c.endpoint[|c.endpoint| - 1];
    if c.mtu.Some? {
      var d, m := Decimal(c.mtu.value), MtuLine(c.mtu.value);
      assert m[|m| - 1] == d[|d| - 1];
      assert d[|d| - 1] in d;
    }
  }

  lemma OutputIsLines(text: string, c: Change)
    requires Printed(c)
    ensures OneLineEach(Output(Lines(text), c))
  {
    var ls := Lines(text);
    LinesAreLines(text);
    OrderKept(ls, c);
    WrittenAreChomped(c);
    var outs := Rewritten(ls, c);
    forall i | 0 <= i < |outs| ensures OneLine(outs[i].line) {
      assert outs[i] in outs;
      match outs[i]
      case Kept(at, l) =>
        assert IsSurvivor(at, l, ls, c);
        assert ls[at] in ls;
      case Written(l) => assert WrittenBy(l, c);
    }
  }

  /**
    A rewritten text, read back. The endpoint found in it is the new one if the
    text had a peer header, and there is none if it had not; every line of a peer
    section that gives an endpoint is the written one; no RouteGuard header and no
    setting is left; and every MTU line is the written one, of which there is at
    least one if there is an MTU to write.
  */
  ghost predicate ReadsBack(before: seq<string>, after: seq<string>, c: Change)
  {
    && IsPeerEndpoint(after, |after|,
                      if exists l | l in before :: Key(l) == "[peer]" then Some(c.endpoint) else None)
    && (forall k: nat | k < |after| && GivesEndpoint(after, k) :: after[k] == "Endpoint = " + c.endpoint)
    && (forall l | l in after :: Key(l) != "[routeguard]" && !IsSetting(Key(l)))
    && (c.mtu.Some? ==>
          && (forall l | l in after && "mtu" <= Key(l) :: l == "MTU = " + Decimal(c.mtu.value))
          && exists l | l in after :: "mtu" <= Key(l))
  }

  lemma {:induction false} CalmAt(b: seq<string>, c: Change, k: nat)
    requires Settled(b, c) && k < |b|
    ensures Calm(b[..k], b[k], c) && Section(b[..k]) != ROUTEGUARD
    decreases |b|
  {
    hide Calm, Section;
    if k == |b| - 1 {
      SettledHasNoRouteGuard(Init(b), c);
    } else {
      CalmAt(Init(b), c, k);
      assert Init(b)[..k] == b[..k];
    }
  }

  lemma SettledMeans(b: seq<string>, c: Change)
    requires Settled(b, c)
    ensures forall k: nat | k < |b| && GivesEndpoint(b, k) :: b[k] == "Endpoint = " + c.endpoint
    ensures forall l | l in b :: Key(l) != "[routeguard]" && !IsSetting(Key(l))
    ensures c.mtu.Some? ==> forall l | l in b && "mtu" <= Key(l) :: l == "MTU = " + Decimal(c.mtu.value)
  {
    forall k: nat | k < |b|
      ensures GivesEndpoint(b, k) ==> b[k] == "Endpoint = " + c.endpoint
      ensures Key(b[k]) != "[routeguard]" && !IsSetting(Key(b[k]))
      ensures c.mtu.Some? && "mtu" <= Key(b[k]) ==> b[k] == "MTU = " + Decimal(c.mtu.value)
    {
      CalmAt(b, c, k);
      SectionIs(b, k, "[peer]");
      KindIs(Key(b[k]));
      assert "[" <= "[routeguard]";
      hide Key, KindOf, Section, Under, IsSetting, Decimal, OwesEndpoint;
    }
  }

  lemma {:induction false} HeadersIff(ls: seq<string>)
    ensures Headers(ls, PEER) > 0 <==> exists l | l in ls :: Key(l) == "[peer]"
  {
    if ls != [] {
      HeadersIff(Init(ls));
      KindIs(Key(Final(ls)));
      assert "[" <= "[peer]";
      InitLast(ls);
      hide Key, KindOf;
      assert forall l | l in ls :: l in Init(ls) || l == Final(ls);
      assert forall l | l in Init(ls) + [Final(ls)] :: l in ls;
    }
  }

  lemma {:induction false} MtuSetHasLine(ls: seq<string>)
    requires MtuSet(ls)
    ensures exists l | l in ls :: "mtu" <= Key(l)
  {
    KindIs(Key(Final(ls)));
    hide Key, KindOf, Section;
    if !("mtu" <= Key(Final(ls))) {
      MtuSetHasLine(Init(ls));
      var l :| l in Init(ls) && "mtu" <= Key(l);
      assert l in ls;
    }
  }

  /** However it came about, a rewrite with an MTU to write leaves an MTU line. */
  lemma MtuIsWritten(ls: seq<string>, c: Change)
    requires c.mtu.Some?
    ensures exists l | l in Output(ls, c) :: "mtu" <= Key(l)
  {
    if MtuSet(ls) {
      OutputSettles(ls, c);
      MtuSetHasLine(Output(ls, c));
    } else {
      var body, m := Closed(ls, c), MtuLine(c.mtu.value);
      var p := InsertAt(Render(body));
      RenderInserted(body, p, m);
      MtuLineKind(c.mtu.value);
      KindIs(Key(m));
      hide Key, KindOf, Closed, InsertAt;
      assert Inserted(Render(body), p, m)[p] == m;
    }
  }

  lemma ChompedHasMtu(b: seq<string>)
    requires exists l | l in b :: "mtu" <= Key(l)
    ensures exists l | l in Chomped(b) :: "mtu" <= Key(l)
  {
    var l :| l in b && "mtu" <= Key(l);
    var i :| 0 <= i < |b| && b[i] == l;
    ChompKeepsKind(l);
    KindIs(Key(l));
    KindIs(Key(Chomp(l)));
    hide Key, KindOf, Chomp;
    assert Chomped(b)[i] == Chomp(l);
  }

  lemma ReadBack(text: string, c: Change)
    requires Printed(c) && Rewrite(text, c).Ok?
    ensures ReadsBack(Lines(text), Lines(Rewrite(text, c).value), c)
    ensures SectionValue(Lines(Rewrite(text, c).value)) == DEFAULT
  {
    var ls := Lines(text);
    var b := Output(ls, c);
    OutputSettles(ls, c);
    OutputIsLines(text, c);
    LinesOfJoined(b);
    ChompedMeansTheSame(b, c);
    SettledSection(Chomped(b), c);
    assert Lines(Rewrite(text, c).value) == Chomped(b);
    hide *;
    SettledReadsBack(ls, b, c);
  }

  lemma SettledFinds(ls: seq<string>, b: seq<string>, c: Change)
    requires Printed(c) && Settled(b, c) && !OwesEndpoint(b) && Headers(b, PEER) == Headers(ls, PEER)
    ensures EndpointValue(b) == if exists l | l in ls :: Key(l) == "[peer]" then Some(c.endpoint) else None
  {
    SettledEndpoint(b, c);
    HeadersIff(ls);
    hide Settled, EndpointValue, Headers, Section, Served, Key, Printed;
  }

  lemma SettledReadsBack(ls: seq<string>, b: seq<string>, c: Change)
    requires Printed(c) && b == Output(ls, c) && Settled(b, c) && Settled(Chomped(b), c) && !OwesEndpoint(b)
    requires Headers(b, PEER) == Headers(ls, PEER) == Headers(Chomped(b), PEER)
    requires Section(Chomped(b)) == Section(b) && Served(Chomped(b)) == Served(b)
    ensures ReadsBack(ls, Chomped(b), c)
  {
    var after := Chomped(b);
    assert !OwesEndpoint(after);
    assert after[..|after|] == after;
    hide *;
    SettledFinds(ls, after, c);
    EndpointValueIs(after, |after|);
    SettledMeans(after, c);
    if c.mtu.Some? {
      MtuIsWritten(ls, c);
      ChompedHasMtu(b);
    }
    ReadsBackBy(ls, after, c);
  }

  lemma ReadsBackBy(before: seq<string>, after: seq<string>, c: Change)
    requires IsPeerEndpoint(after, |after|,
                            if exists l | l in before :: Key(l) == "[peer]" then Some(c.endpoint) else None)
    requires forall k: nat | k < |after| && GivesEndpoint(after, k) :: after[k] == "Endpoint = " + c.endpoint
    requires forall l | l in after :: Key(l) != "[routeguard]" && !IsSetting(Key(l))
    requires c.mtu.Some? ==> forall l | l in after && "mtu" <= Key(l) :: l == "MTU = " + Decimal(c.mtu.value)
    requires c.mtu.Some? ==> exists l | l in after :: "mtu" <= Key(l)
    ensures ReadsBack(before, after, c)
  {
    hide IsPeerEndpoint, Key, GivesEndpoint, IsSetting, Decimal;
  }

  lemma {:induction false} SectionHasHeader(ls: seq<string>)
    ensures Section(ls) == PEER ==> Headers(ls, PEER) > 0
  {
    if ls != [] { SectionHasHeader(Init(ls)); }
  }

  predicate NothingSurvives(ls: seq<string>, c: Change)
  {
    forall i: nat | i < |ls| :: !Survives(ls[..i], ls[i], c)
  }

  /** Without a survivor there is no peer header, hence nothing to write but an MTU line. */
  lemma {:induction false} NothingToWrite(ls: seq<string>, c: Change)
    requires c.mtu.None? && NothingSurvives(ls, c)
    ensures Scanned(ls, c) == [] && Headers(ls, PEER) == 0
  {
    if ls != [] {
      assert ls[..|ls| - 1] == Init(ls);
      assert forall i: nat | i < |ls| - 1 :: Init(ls)[..i] == ls[..i];
      NothingToWrite(Init(ls), c);
      SectionHasHeader(Init(ls));
    }
  }

  lemma SomethingForMtu(ls: seq<string>, c: Change)
    requires c.mtu.Some?
    ensures Output(ls, c) != []
  {
    OutputSettles(ls, c);
  }

  /** A conf is refused exactly when no line of it survives and there is no MTU line to write. */
  lemma RefusedIff(text: string, c: Change)
    ensures Rewrite(text, c).Err? <==> c.mtu.None? && NothingSurvives(Lines(text), c)
  {
    var ls := Lines(text);
    if c.mtu.Some? {
      SomethingForMtu(ls, c);
    } else if NothingSurvives(ls, c) {
      NothingToWrite(ls, c);
      SectionHasHeader(ls);
    } else {
      hide Rewritten, Survives;
      var i: nat :| i < |ls| && Survives(ls[..i], ls[i], c);
      SurvivorIsOutput(ls, c, i);
    }
  }

  /** Some surviving line of the text ends in a carriage return of its own. */
  predicate KeepsReturn(ls: seq<string>, c: Change)
  {
    exists i: nat | i < |ls| :: EndsInReturn(ls[i]) && Survives(ls[..i], ls[i], c)
  }

  lemma OutputReturns(ls: seq<string>, c: Change)
    requires Printed(c)
    ensures (exists l | l in Output(ls, c) :: EndsInReturn(l)) <==> KeepsReturn(ls, c)
  {
    hide Rewritten, Survives;
    if l :| l in Output(ls, c) && EndsInReturn(l) {
      var p :| 0 <= p < |Output(ls, c)| && Output(ls, c)[p] == l;
      ReturnSurvives(ls, c, p);
    }
    if i: nat :| i < |ls| && EndsInReturn(ls[i]) && Survives(ls[..i], ls[i], c) {
      SurvivorIsOutput(ls, c, i);
    }
  }

  lemma ReturnSurvives(ls: seq<string>, c: Change, p: nat)
    requires Printed(c) && p < |Output(ls, c)| && EndsInReturn(Output(ls, c)[p])
    ensures KeepsReturn(ls, c)
  {
    hide Rewritten, Survives, EndpointLine, MtuLine;
    OrderKept(ls, c);
    WrittenAreChomped(c);
    var o := Rewritten(ls, c)[p];
    assert Chomp(o.line) != o.line;
    assert o.Written? ==> WrittenBy(o.line, c);
    assert IsSurvivor(o.at, o.line, ls, c);
  }

  lemma SurvivorIsOutput(ls: seq<string>, c: Change, i: nat)
    requires i < |ls| && Survives(ls[..i], ls[i], c)
    ensures ls[i] in Output(ls, c)
  {
    hide Rewritten, Survives;
    OrderKept(ls, c);
    var outs := Rewritten(ls, c);
    var p :| 0 <= p < |outs| && outs[p] == Kept(i, ls[i]);
    assert Output(ls, c)[p] == ls[i];
  }

  /**
    Rewriting a rewritten text gives it again exactly when the first pass left
    no later pass an MTU line to add, and kept no line that ends in a carriage
    return.
  */
  lemma RewritingTwiceIffStable(text: string, c: Change)
    requires Printed(c) && Rewrite(text, c).Ok?
    ensures var ls := Lines(text);
            var once := Rewrite(text, c);
            Rewrite(once.value, c) == once <==> MtuStable(ls, c) && !KeepsReturn(ls, c)
  {
    var ls := Lines(text);
    var b := Output(ls, c);
    var once := Joined(b);
    OutputSettles(ls, c);
    OutputIsLines(text, c);
    OutputReturns(ls, c);
    LinesOfJoined(b);
    var again := Chomped(b);
    ChompedMeansTheSame(b, c);
    SettledIsKept(again, c);
    ChompedIsShorter(b);
    if !MtuStable(ls, c) {
      OutputIsLines(once, c);
      LinesOfJoined(Output(again, c));
    }
  }

  /** The text after `n` rewrites. */
  function Passes(text: string, c: Change, n: nat): Result<string>
  {
    if n == 0 then Ok(text)
    else match Passes(text, c, n - 1)
      case Ok(t) => Rewrite(t, c)
      case Err(reason) => Err(reason)
  }

  /** A rewritten text that still lacks an MTU line, and whose first interface header is not the last. */
  ghost predicate Growing(b: seq<string>, c: Change)
  {
    c.mtu.Some? && Settled(b, c) && !OwesEndpoint(b) && !MtuSet(b) && Headers(b, INTERFACE) >= 2
  }

  /** Its rewrite is one line longer, and no better. */
  lemma GrowingGrows(b: seq<string>, c: Change)
    requires Growing(b, c)
    ensures |Output(b, c)| == |b| + 1 && Growing(Output(b, c), c)
  {
    SettledIsKept(b, c);
    OutputSettles(b, c);
  }

  /** Every rewrite of an unstable text leaves a growing one. */
  lemma {:induction false} UnstableGrows(text: string, c: Change, n: nat)
    requires Printed(c) && !MtuStable(Lines(text), c) && n >= 1
    ensures Passes(text, c, n).Ok? && Growing(Lines(Passes(text, c, n).value), c)
    ensures |Lines(Passes(text, c, n).value)| == |Output(Lines(text), c)| + n - 1
  {
    hide Lines, Joined, Growing, Output, MtuStable, Rewrite;
    if n == 1 {
      assert Passes(text, c, 0) == Ok(text) && Passes(text, c, 1) == Rewrite(text, c);
      FirstGrowing(text, c);
    } else {
      UnstableGrows(text, c, n - 1);
      LaterGrowing(Passes(text, c, n - 1).value, c);
    }
  }

  lemma FirstGrowing(text: string, c: Change)
    requires Printed(c) && !MtuStable(Lines(text), c)
    ensures Rewrite(text, c).Ok? && Growing(Lines(Rewrite(text, c).value), c)
    ensures |Lines(Rewrite(text, c).value)| == |Output(Lines(text), c)|
  {
    OutputSettles(Lines(text), c);
    SomethingForMtu(Lines(text), c);
    RewrittenLines(text, c);
  }

  lemma LaterGrowing(text: string, c: Change)
    requires Printed(c) && Growing(Lines(text), c)
    ensures Rewrite(text, c).Ok? && Growing(Lines(Rewrite(text, c).value), c)
    ensures |Lines(Rewrite(text, c).value)| == |Lines(text)| + 1
  {
    GrowingGrows(Lines(text), c);
    RewrittenLines(text, c);
  }

  /** Reading a rewritten text's lines changes nothing that the rewrite looks at. */
  lemma RewrittenLines(text: string, c: Change)
    requires Printed(c) && Output(Lines(text), c) != [] && Settled(Output(Lines(text), c), c)
    ensures var b, r := Output(Lines(text), c), Rewrite(text, c);
            && r.Ok? && |Lines(r.value)| == |b| && Settled(Lines(r.value), c) &&
                 OwesEndpoint(Lines(r.value)) == OwesEndpoint(b)
            && MtuSet(Lines(r.value)) == MtuSet(b) && Headers(Lines(r.value), INTERFACE) == Headers(b, INTERFACE)
  {
    hide Settled, OwesEndpoint, MtuSet, Headers, Output;
    OutputIsLines(text, c);
    LinesOfJoined(Output(Lines(text), c));
    ChompedMeansTheSame(Output(Lines(text), c), c);
    ChompedOwes(Output(Lines(text), c), c);
  }

  lemma ChompedOwes(b: seq<string>, c: Change)
    requires Printed(c) && Settled(b, c)
    ensures OwesEndpoint(Chomped(b)) == OwesEndpoint(b)
  {
    ChompedMeansTheSame(b, c);
  }

  lemma InterfaceHeader()
    ensures LineKind("[Interface]") == Header(INTERFACE)
  {
    assert Trim("[Interface]") == "[Interface]";
    assert AsciiLower("[Interface]") == INTERFACE;
    assert INTERFACE[..1] == "[";
  }

  lemma TwoHeaders(h: string, c: Change)
    requires LineKind(h) == Header(INTERFACE)
    ensures Headers([h, h], INTERFACE) == 2 && !MtuSet([h, h]) && Settled([h, h], c) && !OwesEndpoint([h, h])
  {
    hide LineKind;
    assert Init([h, h]) == [h] && Init([h]) == [];
    assert Headers([h], INTERFACE) == 1 && !MtuSet([h]) && Section([h]) == INTERFACE && Section([h, h]) == INTERFACE;
    assert INTERFACE != PEER && INTERFACE != ROUTEGUARD by {
      assert INTERFACE[1] != PEER[1] && INTERFACE[1] != ROUTEGUARD[1];
    }
    assert Section([]) == "" && !OwesEndpoint([]) && Settled([], c);
    assert Settled([h], c) && !OwesEndpoint([h]);
  }

  lemma TwoLines(h: string)
    requires OneLine(h) && !EndsInReturn(h)
    ensures Lines(h + "\n" + (h + "\n")) == [h, h]
  {
    hide Lines;
    LinesOfJoined([h, h]);
    assert Joined([]) == "" && [h][1..] == [] && [h, h][1..] == [h];
    assert Joined([h]) == h + "\n" + "" == h + "\n";
    assert Joined([h, h]) == h + "\n" + (h + "\n");
    assert Chomped([h, h]) == [h, h];
  }

  /** Two interface headers and no MTU line: every pass inserts another one, so `n` passes leave `n` lines more. */
  lemma TwoInterfacesKeepGrowing(c: Change, n: nat)
    requires Printed(c) && c.mtu.Some? && n >= 1
    ensures var text := "[Interface]\n" + "[Interface]\n";
            && |Lines(text)| == 2 && Passes(text, c, n).Ok? && |Lines(Passes(text, c, n).value)| == 2 + n
  {
    var h := "[Interface]";
    InterfaceHeader();
    TwoHeaders(h, c);
    TwoLines(h);
    var text := "[Interface]\n" + "[Interface]\n";
    assert text == h + "\n" + (h + "\n");
    hide LineKind, Lines, Output, MtuSet, Headers, Settled, OwesEndpoint, Passes;
    UnstableGrows(text, c, n);
    SettledIsKept([h, h], c);
  }
}
