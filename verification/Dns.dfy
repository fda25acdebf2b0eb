/** Reading addresses out of DNS responses. Names are kept as the octets of their labels. */
module Dns {

  import opened Common
  import opened Octets

  type Label = seq<byte>

  datatype ParsedEvent = ParsedEvent(domain: Bytes, records: seq<(IpAddr, nat)>)

  const DOT: byte := 46

  // ----- What the parser computes -----

  /** Where a name that starts at `off` ends, and whether it ends in a compression pointer. */
  function SkipName(msg: Bytes, off: nat): Option<(nat, bool)>
    decreases |msg| - off
  {
    if off >= |msg| then None
    else if msg[off] == 0 then Some((off + 1, false))
    else if msg[off] >= 0xC0 then Some((off + 2, true))
    else SkipName(msg, off + 1 + msg[off])
  }

  /** The labels of a name up to its end or its first pointer; none if one runs past the message. */
  function Labels(msg: Bytes, off: nat): Option<seq<Label>>
    decreases |msg| - off
  {
    if off >= |msg| || msg[off] == 0 || msg[off] >= 0xC0 then Some([])
    else if off + 1 + msg[off] > |msg| then None
    else
      var rest := Labels(msg, off + 1 + msg[off]);
      if rest.None? then None else Some([msg[off + 1..off + 1 + msg[off]]] + rest.value)
  }

  function Join(labels: seq<Label>): Bytes
  {
    if labels == [] then [] else if |labels| == 1 then labels[0] else labels[0] + [DOT] + Join(labels[1..])
  }

  /** A name as text; the root name and malformed names have none. */
  function NameText(msg: Bytes, off: nat): Option<Bytes>
  {
    var labels := Labels(msg, off);
    if labels.None? || labels.value == [] then None else Some(Join(labels.value))
  }

  function U16(msg: Bytes, off: nat): (n: nat)
    requires off + 2 <= |msg|
    ensures n < 0x1_0000
  {
    (msg[off] as int) * 256 + msg[off + 1]
  }

  function U32At(msg: Bytes, off: nat): (n: nat)
    requires off + 4 <= |msg|
    ensures n < 0x1_0000_0000
  {
    U16(msg, off) * 0x1_0000 + U16(msg, off + 2)
  }

  /** The address of a record, if it is an A record of four octets or an AAAA record of sixteen. */
  function AddressOf(rtype: nat, rdata: Bytes): Option<IpAddr>
  {
    if rtype == 1 && |rdata| == 4 then Some(V4(rdata))
    else if rtype == 28 && |rdata| == 16 then Some(V6(rdata))
    else None
  }

  function RecordOf(rtype: nat, ttl: nat, rdata: Bytes, minTtl: nat, maxTtl: nat): seq<(IpAddr, nat)>
  {
    var address := AddressOf(rtype, rdata);
    if address.None? then [] else [(address.value, Clamp(ttl, minTtl, maxTtl))]
  }

  /** The records of up to `n` answers from `off` on; a truncated answer ends the list. */
  function Answers(msg: Bytes, off: nat, n: nat, minTtl: nat, maxTtl: nat): seq<(IpAddr, nat)>
    decreases n
  {
    if n == 0 then []
    else
      var name := SkipName(msg, off);
      var at := if name.Some? then name.value.0 else off;
      if at + 10 > |msg| then []
      else
        var len := U16(msg, at + 8);
        if at + 10 + len > |msg| then []
        else
          RecordOf(U16(msg, at), U32At(msg, at + 4), msg[at + 10..at + 10 + len], minTtl, maxTtl)
          + Answers(msg, at + 10 + len, n - 1, minTtl, maxTtl)
  }

  function Parsed(query: Bytes, response: Bytes, minTtl: nat, maxTtl: nat): Option<ParsedEvent>
  {
    if |query| < 12 || |response| < 12 || U16(query, 4) == 0 then None
    else
      var domain, end := NameText(query, 12), SkipName(query, 12);
      if domain.None? || end.None? || end.value.0 + 4 + 10 > |response| then None
      else
        var records := Answers(response, end.value.0 + 4, U16(response, 6), minTtl, maxTtl);
        if records == [] then None else Some(ParsedEvent(domain.value, records))
  }

  // ----- The parser -----

  method SkipQname(msg: Bytes, start: nat) returns (r: Option<(nat, bool)>)
    ensures r == SkipName(msg, start)
  {
    var off := start;
    while off < |msg|
      invariant SkipName(msg, off) == SkipName(msg, start)
      decreases |msg| - off
    {
      var len := msg[off];
      if len == 0 { return Some((off + 1, false)); }
      if len >= 0xC0 { return Some((off + 2, true)); }
      off := off + 1 + len;
    }
    return None;
  }

  method ParseQname(msg: Bytes, start: nat) returns (r: Option<Bytes>)
    ensures r == NameText(msg, start)
  {
    var labels: seq<Label>, off: nat := [], start;
    assert Labels(msg, start).Some? ==> labels + Labels(msg, start).value == Labels(msg, start).value;
    while off < |msg|
      invariant off >= start
      invariant Labels(msg, start) ==
                if Labels(msg, off).None? then None else Some(labels + Labels(msg, off).value)
      decreases |msg| - off
    {
      var len := msg[off];
      if len == 0 || len >= 0xC0 { break; }
      off := off + 1;
      if off + len > |msg| { return None; }
      ghost var before, rest := labels, Labels(msg, off + len);
      labels := labels + [msg[off..off + len]];
      assert rest.Some? ==> before + ([msg[off..off + len]] + rest.value) == labels + rest.value;
      off := off + len;
    }
    assert labels + [] == labels;
    return if labels == [] then None else Some(Join(labels));
  }

  /** Following a CNAME would need another query; the source's chase yields no records. */
  method ParseCnameChain(target: Bytes) returns (r: seq<(IpAddr, nat)>)
    ensures r == []
  {
    return [];
  }

  /** The loop over the answers. */
  method ParseAnswers(response: Bytes, start: nat, count: nat, minTtl: nat, maxTtl: nat)
    returns (records: seq<(IpAddr, nat)>)
    ensures records == Answers(response, start, count, minTtl, maxTtl)
  {
    hide U16, U32At, SkipName, Clamp, NameText;
    records := [];
    var off: nat := start;
    var left := count;
    ghost var all := Answers(response, start, count, minTtl, maxTtl);
    while left > 0
      invariant all == records + Answers(response, off, left, minTtl, maxTtl)
    {
      ghost var rest := Answers(response, off, left, minTtl, maxTtl);
      var name := SkipQname(response, off);
      if name.Some? { off := name.value.0; }
      if off + 10 > |response| { break; }
      var rtype, ttl, len := U16(response, off), U32At(response, off + 4), U16(response, off + 8);
      off := off + 10;
      if off + len > |response| { break; }
      var found := ReadRecord(response, off, rtype, ttl, len, minTtl, maxTtl);
      off := off + len;
      left := left - 1;
      AppendStep(records, found, Answers(response, off, left, minTtl, maxTtl), rest);
      records := records + found;
    }
  }

  lemma AppendStep<T>(a: seq<T>, b: seq<T>, c: seq<T>, bc: seq<T>)
    requires bc == b + c
    ensures a + bc == (a + b) + c
  {
  }

  /** The body of that loop: what one answer contributes. */
  method ReadRecord(response: Bytes, off: nat, rtype: nat, ttl: nat, len: nat, minTtl: nat, maxTtl: nat)
    returns (found: seq<(IpAddr, nat)>)
    requires off + len <= |response|
    ensures found == RecordOf(rtype, ttl, response[off..off + len], minTtl, maxTtl)
    ensures |found| == if (rtype == 1 && len == 4) || (rtype == 28 && len == 16) then 1 else 0
    ensures forall r | r in found ::
              && r.0 == (if rtype == 1 then V4(response[off..off + 4]) else V6(response[off..off + 16]))
              && IsBounded(ttl, minTtl, maxTtl, r.1)
  {
    found := [];
    if rtype == 1 && len == 4 {
      found := [(V4(response[off..off + 4]), Clamp(ttl, minTtl, maxTtl))];
    } else if rtype == 28 && len == 16 {
      found := [(V6(response[off..off + 16]), Clamp(ttl, minTtl, maxTtl))];
    } else if rtype == 5 && len > 0 {
      var cname := ParseQname(response, off);
      if cname.Some? {
        found := ParseCnameChain(cname.value);
      }
    }
  }

  method ParseDnsResponse(query: Bytes, response: Bytes, minTtl: nat, maxTtl: nat) returns (r: Option<ParsedEvent>)
    ensures r == Parsed(query, response, minTtl, maxTtl)
    ensures r.Some? ==> |query| >= 12 && |response| >= 12 && !(query[4] == 0 && query[5] == 0) && r.value.records != []
  {
    hide Answers, SkipName, NameText;
    if |query| < 12 || |response| < 12 { return None; }
    if U16(query, 4) == 0 { return None; }
    var domain := ParseQname(query, 12);
    if domain.None? { return None; }
    var end := SkipQname(query, 12);
    if end.None? { return None; }
    var off: nat := end.value.0 + 4;
    if off + 10 > |response| { return None; }
    var records := ParseAnswers(response, off, U16(response, 6), minTtl, maxTtl);
    return if records == [] then None else Some(ParsedEvent(domain.value, records));
  }

  // ----- Well-formed messages (sections 4.1.1 to 4.1.4 of RFC 1035, section 2.2 of RFC 3596) -----

  /** The RFC allows 63 octets; the parser takes any length octet below those that start a pointer. */
  predicate IsLabel(l: Label)
  {
    1 <= |l| < 0xC0
  }

  /** A name: labels, then either the root or a pointer to an earlier name. */
  datatype Name = Name(labels: seq<Label>, pointer: Option<nat>)

  ghost predicate IsName(name: Name)
  {
    (forall l | l in name.labels :: IsLabel(l)) && (name.pointer.Some? ==> name.pointer.value < 0x4000)
  }

  datatype Rr = Rr(name: Name, rtype: nat, rclass: nat, ttl: nat, rdata: Bytes)

  ghost predicate IsRr(rr: Rr)
  {
    IsName(rr.name) && rr.rtype < 0x1_0000 && rr.rclass < 0x1_0000 && rr.ttl < 0x1_0000_0000 && |rr.rdata| < 0x1_0000
  }

  function PutBig16(n: nat): (b: Bytes)
    requires n < 0x1_0000
    ensures |b| == 2 && U16(b, 0) == n
  {
    [n / 256, n % 256]
  }

  function PutBig32(n: nat): (b: Bytes)
    requires n < 0x1_0000_0000
    ensures |b| == 4 && U32At(b, 0) == n
  {
    PutBig16(n / 0x1_0000) + PutBig16(n % 0x1_0000)
  }

  /** A label after its length octet. */
  function PutLabel(l: Label): (b: Bytes)
    requires IsLabel(l)
    ensures |b| == 1 + |l|
  {
    var len: byte := |l|;
    [len] + l
  }

  ghost function PutLabels(labels: seq<Label>): Bytes
    requires forall l | l in labels :: IsLabel(l)
  {
    if labels == [] then [] else PutLabel(labels[0]) + PutLabels(labels[1..])
  }

  ghost function PutName(name: Name): Bytes
    requires IsName(name)
  {
    PutLabels(name.labels)
    + if name.pointer.None? then [0] else [0xC0 + name.pointer.value / 256, name.pointer.value % 256]
  }

  ghost function PutRr(rr: Rr): Bytes
    requires IsRr(rr)
  {
    PutName(rr.name) + PutFixed(rr) + rr.rdata
  }

  ghost function PutFixed(rr: Rr): (b: Bytes)
    requires IsRr(rr)
    ensures |b| == 10 && U16(b, 0) == rr.rtype && U32At(b, 4) == rr.ttl && U16(b, 8) == |rr.rdata|
  {
    PutBig16(rr.rtype) + PutBig16(rr.rclass) + PutBig32(rr.ttl) + PutBig16(|rr.rdata|)
  }

  ghost function PutRrs(rrs: seq<Rr>): Bytes
    requires forall rr | rr in rrs :: IsRr(rr)
  {
    if rrs == [] then [] else PutRr(rrs[0]) + PutRrs(rrs[1..])
  }

  ghost function PutQuestion(labels: seq<Label>, qtype: nat, qclass: nat): Bytes
    requires (forall l | l in labels :: IsLabel(l)) && qtype < 0x1_0000 && qclass < 0x1_0000
  {
    PutName(Name(labels, None)) + PutBig16(qtype) + PutBig16(qclass)
  }

  /** An A record of four octets or an AAAA record of sixteen. */
  predicate IsAddress(rr: Rr)
  {
    (rr.rtype == 1 && |rr.rdata| == 4) || (rr.rtype == 28 && |rr.rdata| == 16)
  }

  /** A reported record: the address of an A or AAAA record, and its TTL brought into the bounds. */
  ghost predicate Reports(rr: Rr, record: (IpAddr, nat), minTtl: nat, maxTtl: nat)
  {
    record.0 == (if rr.rtype == 1 then V4(rr.rdata) else V6(rr.rdata)) && IsBounded(rr.ttl, minTtl, maxTtl, record.1)
  }

  /** The reported records are those of the address records, all of them in order, at the positions `at`. */
  ghost predicate ReportsAt(rrs: seq<Rr>, records: seq<(IpAddr, nat)>, at: seq<nat>, minTtl: nat, maxTtl: nat)
  {
    && |at| == |records| && (forall i, j | 0 <= i < j < |at| :: at[i] < at[j])
    && (forall k: nat :: k in at <==> k < |rrs| && IsAddress(rrs[k]))
    && forall i | 0 <= i < |at| :: at[i] < |rrs| && Reports(rrs[at[i]], records[i], minTtl, maxTtl)
  }

  /** The A and AAAA records of a response, in order, with clamped TTLs. */
  function RecordsOf(rrs: seq<Rr>, minTtl: nat, maxTtl: nat): seq<(IpAddr, nat)>
  {
    if rrs == [] then []
    else RecordOf(rrs[0].rtype, rrs[0].ttl, rrs[0].rdata, minTtl, maxTtl) + RecordsOf(rrs[1..], minTtl, maxTtl)
  }

  lemma OneReport(rr: Rr, minTtl: nat, maxTtl: nat)
    ensures var r := RecordOf(rr.rtype, rr.ttl, rr.rdata, minTtl, maxTtl);
            if IsAddress(rr) then |r| == 1 && Reports(rr, r[0], minTtl, maxTtl) else r == []
  {
  }

  lemma {:induction false} RecordsSnoc(init: seq<Rr>, last: Rr, minTtl: nat, maxTtl: nat)
    ensures RecordsOf(init + [last], minTtl, maxTtl)
            == RecordsOf(init, minTtl, maxTtl) + RecordOf(last.rtype, last.ttl, last.rdata, minTtl, maxTtl)
  {
    hide RecordOf;
    if init == [] {
      assert [] + [last] == [last];
    } else {
      assert (init + [last])[1..] == init[1..] + [last];
      RecordsSnoc(init[1..], last, minTtl, maxTtl);
    }
  }

  /** What was reported so far is still right with one more record. */
  lemma ReportsMore(init: seq<Rr>, last: Rr, records: seq<(IpAddr, nat)>, at: seq<nat>, minTtl: nat, maxTtl: nat)
    requires ReportsAt(init, records, at, minTtl, maxTtl)
    ensures !IsAddress(last) ==> ReportsAt(init + [last], records, at, minTtl, maxTtl)
    ensures forall r | IsAddress(last) && Reports(last, r, minTtl, maxTtl) ::
              ReportsAt(init + [last], records + [r], at + [|init|], minTtl, maxTtl)
  {
    hide Reports, IsAddress;
    var rrs := init + [last];
    assert forall k | 0 <= k < |init| :: rrs[k] == init[k];
    assert forall k: nat :: k in at + [|init|] <==> k in at || k == |init|;
  }

  lemma {:induction false} RecordsAre(rrs: seq<Rr>, minTtl: nat, maxTtl: nat) returns (at: seq<nat>)
    ensures ReportsAt(rrs, RecordsOf(rrs, minTtl, maxTtl), at, minTtl, maxTtl)
  {
    if rrs == [] {
      at := [];
    } else {
      hide RecordOf, Reports, IsAddress, ReportsAt, RecordsOf;
      var init, last := rrs[..|rrs| - 1], rrs[|rrs| - 1];
      assert rrs == init + [last];
      at := RecordsAre(init, minTtl, maxTtl);
      RecordsSnoc(init, last, minTtl, maxTtl);
      ReportsMore(init, last, RecordsOf(init, minTtl, maxTtl), at, minTtl, maxTtl);
      OneReport(last, minTtl, maxTtl);
      var one := RecordOf(last.rtype, last.ttl, last.rdata, minTtl, maxTtl);
      if IsAddress(last) {
        assert one == [one[0]];
        at := at + [|init|];
      } else {
        assert RecordsOf(init, minTtl, maxTtl) + one == RecordsOf(init, minTtl, maxTtl);
      }
    }
  }

  /** The first of two octets is the high one, here and in four. */
  lemma NetworkOrder(a: byte, b: byte, c: byte, d: byte)
    ensures U16([a, b], 0) == 256 * a + b && U32At([a, b, c, d], 0) == 0x100_0000 * a + 0x1_0000 * b + 256 * c + d
  {
  }

  /** A name is its labels with full stops (octet 46) between them. */
  lemma {:induction false} JoinIs(labels: seq<Label>, more: seq<Label>)
    requires labels != [] && more != []
    ensures Join(labels + more) == Join(labels) + [46] + Join(more)
    ensures Join([labels[0]]) == labels[0]
  {
    assert (labels + more)[1..] == labels[1..] + more;
    if |labels| > 1 { JoinIs(labels[1..], more); }
  }

  // ----- Reading back -----

  lemma AtU16(msg: Bytes, off: nat, b: Bytes, i: nat)
    requires At(msg, off, b) && i + 2 <= |b|
    ensures U16(msg, off + i) == U16(b, i)
  {
    AtIndex(msg, off, b, i);
    AtIndex(msg, off, b, i + 1);
  }

  lemma {:induction false} SkipsName(msg: Bytes, off: nat, name: Name)
    requires IsName(name) && At(msg, off, PutName(name))
    ensures SkipName(msg, off) == Some((off + |PutName(name)|, name.pointer.Some?))
    decreases |name.labels|
  {
    AtIndex(msg, off, PutName(name), 0);
    if name.labels != [] {
      var first, rest := PutLabel(name.labels[0]), Name(name.labels[1..], name.pointer);
      assert PutName(name) == first + PutName(rest);
      AtParts(msg, off, first, PutName(rest));
      SkipsName(msg, off + |first|, rest);
    }
  }

  lemma LabelsStep(msg: Bytes, off: nat, first: Label, rest: seq<Label>)
    requires IsLabel(first) && off + 1 + |first| <= |msg| && msg[off] == |first|
    requires msg[off + 1..off + 1 + |first|] == first && Labels(msg, off + 1 + |first|) == Some(rest)
    ensures Labels(msg, off) == Some([first] + rest)
  {
  }

  lemma FirstLabel(msg: Bytes, off: nat, labels: seq<Label>)
    requires labels != [] && (forall l | l in labels :: IsLabel(l)) && At(msg, off, PutName(Name(labels, None)))
    ensures var n := |labels[0]|;
            && off + 1 + n <= |msg| && msg[off] == n && msg[off + 1..off + 1 + n] == labels[0]
            && At(msg, off + 1 + n, PutName(Name(labels[1..], None)))
  {
    var first, rest := PutLabel(labels[0]), PutName(Name(labels[1..], None));
    assert PutName(Name(labels, None)) == first + rest;
    assert first == first[..1] + labels[0] && first[0] == |labels[0]|;
    hide PutName, PutLabels, PutLabel;
    AtParts(msg, off, first, rest);
    AtParts(msg, off, first[..1], labels[0]);
    AtIndex(msg, off, first, 0);
  }

  lemma {:induction false} ReadsLabels(msg: Bytes, off: nat, labels: seq<Label>)
    requires (forall l | l in labels :: IsLabel(l)) && At(msg, off, PutName(Name(labels, None)))
    ensures Labels(msg, off) == Some(labels)
    decreases |labels|
  {
    if labels == [] {
      AtIndex(msg, off, PutName(Name(labels, None)), 0);
    } else {
      hide At, PutName, PutLabels, Labels;
      FirstLabel(msg, off, labels);
      ReadsLabels(msg, off + 1 + |labels[0]|, labels[1..]);
      LabelsStep(msg, off, labels[0], labels[1..]);
      assert [labels[0]] + labels[1..] == labels;
    }
  }

  lemma ReadsFixed(msg: Bytes, off: nat, rr: Rr)
    requires IsRr(rr) && At(msg, off, PutFixed(rr))
    ensures U16(msg, off) == rr.rtype && U32At(msg, off + 4) == rr.ttl && U16(msg, off + 8) == |rr.rdata|
  {
    var fixed := PutFixed(rr);
    AtU16(msg, off, fixed, 0);
    AtU16(msg, off, fixed, 8);
    AtU16(msg, off, fixed, 4);
    AtU16(msg, off, fixed, 6);
  }

  lemma ReadsRr(msg: Bytes, off: nat, rr: Rr, n: nat, minTtl: nat, maxTtl: nat)
    requires IsRr(rr) && At(msg, off, PutRr(rr))
    ensures Answers(msg, off, n + 1, minTtl, maxTtl)
            == RecordOf(rr.rtype, rr.ttl, rr.rdata, minTtl, maxTtl)
               + Answers(msg, off + |PutRr(rr)|, n, minTtl, maxTtl)
  {
    hide U16, U32At, At, PutName, PutFixed, SkipName, IsName;
    var name, fixed := PutName(rr.name), PutFixed(rr);
    AtParts(msg, off, name + fixed, rr.rdata);
    AtParts(msg, off, name, fixed);
    SkipsName(msg, off, rr.name);
    ReadsFixed(msg, off + |name|, rr);
    assert |name + fixed| == |name| + 10;
  }

  /** Encoded records are read in order, and then whatever follows them. */
  lemma {:induction false} ReadsRrs(msg: Bytes, off: nat, rrs: seq<Rr>, more: nat, minTtl: nat, maxTtl: nat)
    requires (forall rr | rr in rrs :: IsRr(rr)) && At(msg, off, PutRrs(rrs))
    ensures Answers(msg, off, |rrs| + more, minTtl, maxTtl)
            == RecordsOf(rrs, minTtl, maxTtl) + Answers(msg, off + |PutRrs(rrs)|, more, minTtl, maxTtl)
    decreases |rrs|
  {
    hide PutRr, RecordOf, SkipName, U16, U32At, At, Answers;
    var rest := Answers(msg, off + |PutRrs(rrs)|, more, minTtl, maxTtl);
    if rrs == [] {
      assert [] + rest == rest;
    } else {
      AtParts(msg, off, PutRr(rrs[0]), PutRrs(rrs[1..]));
      ReadsRr(msg, off, rrs[0], |rrs| - 1 + more, minTtl, maxTtl);
      ReadsRrs(msg, off + |PutRr(rrs[0])|, rrs[1..], more, minTtl, maxTtl);
      AppendStep(RecordOf(rrs[0].rtype, rrs[0].ttl, rrs[0].rdata, minTtl, maxTtl),
                 RecordsOf(rrs[1..], minTtl, maxTtl), rest, RecordsOf(rrs[1..], minTtl, maxTtl) + rest);
    }
  }

  /** The message ends inside the record that starts at `off`, after its name. */
  ghost predicate CutAt(msg: Bytes, off: nat, rr: Rr)
    requires IsRr(rr)
  {
    var end := off + |PutName(rr.name)|;
    && At(msg, off, PutName(rr.name))
    && (|msg| < end + 10 || (At(msg, end, PutFixed(rr)) && |msg| < end + 10 + |rr.rdata|))
  }

  lemma NothingLeft(msg: Bytes, off: nat, n: nat, minTtl: nat, maxTtl: nat)
    requires SkipName(msg, off).Some?
    requires var end := SkipName(msg, off).value.0; end + 10 > |msg| || end + 10 + U16(msg, end + 8) > |msg|
    ensures Answers(msg, off, n, minTtl, maxTtl) == []
  {
    hide SkipName, U16, U32At;
  }

  lemma CutEnd(msg: Bytes, off: nat, cut: Rr)
    requires IsRr(cut) && CutAt(msg, off, cut)
    ensures SkipName(msg, off).Some?
    ensures var end := SkipName(msg, off).value.0; end + 10 > |msg| || end + 10 + U16(msg, end + 8) > |msg|
  {
    hide U16, U32At, PutFixed, PutName, At, SkipName;
    SkipsName(msg, off, cut.name);
    var end := off + |PutName(cut.name)|;
    if |msg| >= end + 10 { ReadsFixed(msg, end, cut); }
  }

  /** A message that ends inside a record gives the records before it, however many it announces. */
  lemma CutIsRead(msg: Bytes, off: nat, rrs: seq<Rr>, cut: Rr, announced: nat, minTtl: nat, maxTtl: nat)
    requires (forall rr | rr in rrs :: IsRr(rr)) && IsRr(cut) && announced > |rrs|
    requires At(msg, off, PutRrs(rrs)) && CutAt(msg, off + |PutRrs(rrs)|, cut)
    ensures Answers(msg, off, announced, minTtl, maxTtl) == RecordsOf(rrs, minTtl, maxTtl)
  {
    hide *;
    var at := off + |PutRrs(rrs)|;
    ReadsRrs(msg, off, rrs, announced - |rrs|, minTtl, maxTtl);
    CutEnd(msg, at, cut);
    NothingLeft(msg, at, announced - |rrs|, minTtl, maxTtl);
    assert RecordsOf(rrs, minTtl, maxTtl) + [] == RecordsOf(rrs, minTtl, maxTtl);
  }

  /** A name that runs past the message's end is no name: what stands in its place is read as the record. */
  lemma NamelessIsRead(msg: Bytes, off: nat, rr: Rr, more: nat, minTtl: nat, maxTtl: nat)
    requires IsRr(rr) && SkipName(msg, off).None? && At(msg, off, PutFixed(rr) + rr.rdata)
    ensures Answers(msg, off, more + 1, minTtl, maxTtl)
            == RecordOf(rr.rtype, rr.ttl, rr.rdata, minTtl, maxTtl)
               + Answers(msg, off + 10 + |rr.rdata|, more, minTtl, maxTtl)
  {
    hide PutFixed, U16, U32At, SkipName, RecordOf;
    AtParts(msg, off, PutFixed(rr), rr.rdata);
    assert off + 10 + |rr.rdata| <= |msg| && msg[off + 10..off + 10 + |rr.rdata|] == rr.rdata;
    hide At;
    ReadsFixed(msg, off, rr);
  }

  lemma AnswerTakesRoom(rrs: seq<Rr>)
    requires (forall rr | rr in rrs :: IsRr(rr)) && rrs != []
    ensures |PutRrs(rrs)| >= 10
  {
    assert |PutRr(rrs[0])| >= 10;
  }

  /** Where the pieces of a message stand. */
  lemma MessageParts(header: Bytes, question: Bytes, answers: Bytes, rest: Bytes)
    requires |header| == 12
    ensures var msg := header + question + answers + rest;
            && At(msg, 0, header) && At(msg, 12, question) && At(msg, 12 + |question|, answers)
            && |msg| == 12 + |question| + |answers| + |rest|
  {
    var msg := header + question + answers + rest;
    assert msg[0..|msg|] == msg;
    AtParts(msg, 0, header + question + answers, rest);
    AtParts(msg, 0, header + question, answers);
    AtParts(msg, 0, header, question);
  }

  lemma QueryIsRead(header: Bytes, labels: seq<Label>, qtype: nat, qclass: nat, rest: Bytes)
    requires |header| == 12 && (forall l | l in labels :: IsLabel(l)) && qtype < 0x1_0000 && qclass < 0x1_0000
    ensures var query, question := header + PutQuestion(labels, qtype, qclass) + rest,
        PutQuestion(labels, qtype, qclass);
            && U16(query, 4) == U16(header, 4)
            && NameText(query, 12) == (if labels == [] then None else Some(Join(labels)))
            && SkipName(query, 12) == Some((12 + |question| - 4, false))
  {
    var question, name := PutQuestion(labels, qtype, qclass), PutName(Name(labels, None));
    var query := header + question + rest;
    assert query == header + question + [] + rest;
    MessageParts(header, question, [], rest);
    AtU16(query, 0, header, 4);
    AtParts(query, 12, name + PutBig16(qtype), PutBig16(qclass));
    AtParts(query, 12, name, PutBig16(qtype));
    SkipsName(query, 12, Name(labels, None));
    ReadsLabels(query, 12, labels);
  }

  lemma NothingEncoded()
    ensures PutRrs([]) == []
    ensures forall minTtl, maxTtl :: RecordsOf([], minTtl, maxTtl) == []
    ensures forall msg, off, minTtl, maxTtl :: Answers(msg, off, 0, minTtl, maxTtl) == []
  {
  }

  /** A query that asks something, for a name that is read to its end. */
  lemma ParsedIs(query: Bytes, response: Bytes, minTtl: nat, maxTtl: nat)
    requires |query| >= 12 && |response| >= 12 && U16(query, 4) != 0 && SkipName(query, 12).Some?
    ensures var start, domain := SkipName(query, 12).value.0 + 4, NameText(query, 12);
            var records := Answers(response, start, U16(response, 6), minTtl, maxTtl);
            Parsed(query, response, minTtl, maxTtl)
            == if domain.None? || start + 10 > |response| || records == [] then None
               else Some(ParsedEvent(domain.value, records))
  {
    hide Answers, SkipName, NameText, U16;
  }

  /**
    For every query and every well-formed response that repeats its question:
    exactly the A records of four octets and the AAAA records of sixteen are
    reported, in order, each with its address and its TTL brought into the bounds,
    under the queried name; nothing when there are none or the name is the root.
    Headers are arbitrary apart from their counts, and both messages may go on
    after what is read.
  */
  lemma ResponseIsRead(queryHeader: Bytes, header: Bytes, labels: seq<Label>, qtype: nat, qclass: nat, queryRest: Bytes,
                       answers: seq<Rr>, rest: Bytes, minTtl: nat, maxTtl: nat)
    requires |queryHeader| == |header| == 12 && U16(queryHeader, 4) != 0 && U16(header, 6) == |answers|
    requires (forall l | l in labels :: IsLabel(l)) && qtype < 0x1_0000 && qclass < 0x1_0000
    requires forall rr | rr in answers :: IsRr(rr)
    ensures exists records, at ::
              && ReportsAt(answers, records, at, minTtl, maxTtl)
              && Parsed(queryHeader + PutQuestion(labels, qtype, qclass) + queryRest,
                        header + PutQuestion(labels, qtype, qclass) + PutRrs(answers) + rest, minTtl, maxTtl)
                 == if labels == [] || records == [] then None else Some(ParsedEvent(Join(labels), records))
  {
    hide *;
    var question := PutQuestion(labels, qtype, qclass);
    var response := header + question + PutRrs(answers) + rest;
    QueryIsRead(queryHeader, labels, qtype, qclass, queryRest);
    MessageParts(header, question, PutRrs(answers), rest);
    AtU16(response, 0, header, 6);
    ReadsRrs(response, 12 + |question|, answers, 0, minTtl, maxTtl);
    assert RecordsOf(answers, minTtl, maxTtl) + [] == RecordsOf(answers, minTtl, maxTtl);
    NothingEncoded();
    if answers != [] { AnswerTakesRoom(answers); }
    ParsedIs(queryHeader + question + queryRest, response, minTtl, maxTtl);
    var _ := RecordsAre(answers, minTtl, maxTtl);
  }
}
