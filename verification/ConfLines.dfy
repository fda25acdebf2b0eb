/** The text of a `.conf` file as lines: splitting, joining, trimming, and what kind of line each one is. */
module ConfLines {

  import opened Common

  // ----- Trimming -----

  function TrimEnd(s: string): string
  {
    if s != "" && IsWhitespace(s[|s| - 1]) then TrimEnd(s[..|s| - 1]) else s
  }

  function TrimStart(s: string): string
  {
    if s != "" && IsWhitespace(s[0]) then TrimStart(s[1..]) else s
  }

  function Trim(s: string): string
  {
    TrimStart(TrimEnd(s))
  }

  /** Trimming the end never reaches past a character that is not white space. */
  lemma {:induction false} TrimEndKeeps(s: string, n: nat)
    requires 0 < n <= |s| && !IsWhitespace(s[n - 1])
    ensures n <= |TrimEnd(s)| && TrimEnd(s)[..n] == s[..n]
    decreases |s|
  {
    if IsWhitespace(s[|s| - 1]) {
      TrimEndKeeps(s[..|s| - 1], n);
    }
  }

  /** A line that opens with `head`, itself free of outer white space, still does when trimmed. */
  lemma TrimKeepsHead(head: string, rest: string)
    requires head != "" && !IsWhitespace(head[0]) && !IsWhitespace(head[|head| - 1])
    ensures head <= Trim(head + rest)
  {
    TrimEndKeeps(head + rest, |head|);
    var t := TrimEnd(head + rest);
    assert t[..|head|] == head;
    assert t[0] == head[0];
  }

  /** A text that trimming leaves alone. */
  predicate Trimmed(s: string)
  {
    s != "" && Trim(s) == s
  }

  lemma {:induction false} TrimShrinks(s: string)
    ensures |TrimEnd(s)| <= |s| && |TrimStart(s)| <= |s|
    decreases |s|
  {
    if s != "" {
      TrimShrinks(s[1..]);
      TrimShrinks(s[..|s| - 1]);
    }
  }

  lemma TrimmedEnds(s: string)
    requires Trimmed(s)
    ensures !IsWhitespace(s[0]) && !IsWhitespace(s[|s| - 1])
  {
    TrimShrinks(s[1..]);
    TrimShrinks(TrimEnd(s));
    TrimShrinks(s[..|s| - 1]);
  }

  /** Nothing but the white space at both ends goes. */
  ghost predicate IsTrimOf(s: string, i: nat, j: nat)
  {
    && i <= j <= |s| && (i == j ==> j == 0)
    && (forall k | 0 <= k < i || j <= k < |s| :: IsWhitespace(s[k]))
    && (i < j ==> !IsWhitespace(s[i]) && !IsWhitespace(s[j - 1]))
  }

  lemma {:induction false} TrimEndIs(s: string) returns (j: nat)
    ensures j <= |s| && TrimEnd(s) == s[..j] && (forall k | j <= k < |s| :: IsWhitespace(s[k]))
    ensures j > 0 ==> !IsWhitespace(s[j - 1])
    decreases |s|
  {
    if s != "" && IsWhitespace(s[|s| - 1]) {
      j := TrimEndIs(s[..|s| - 1]);
      assert s[..|s| - 1][..j] == s[..j];
    } else {
      j := |s|;
      assert s[..j] == s;
    }
  }

  lemma {:induction false} TrimStartIs(s: string) returns (i: nat)
    ensures i <= |s| && TrimStart(s) == s[i..] && (forall k | 0 <= k < i :: IsWhitespace(s[k]))
    ensures i < |s| ==> !IsWhitespace(s[i])
    decreases |s|
  {
    if s != "" && IsWhitespace(s[0]) {
      i := TrimStartIs(s[1..]);
      assert s[1..][i..] == s[i + 1..] && forall k | 0 < k < i + 1 :: s[k] == s[1..][k - 1];
      i := i + 1;
    } else {
      i := 0;
      assert s[0..] == s;
    }
  }

  lemma TrimIs(s: string) returns (i: nat, j: nat)
    ensures IsTrimOf(s, i, j) && Trim(s) == s[i..j]
  {
    hide IsWhitespace;
    j := TrimEndIs(s);
    i := TrimStartIs(s[..j]);
    assert s[..j][i..] == s[i..j] && forall k | 0 <= k < j :: s[..j][k] == s[k];
    if i == j {
      assert s[i..j] == s[0..0];
      i, j := 0, 0;
    }
  }

  // ----- Lines -----

  function NewlineAt(t: string): (n: nat)
    ensures n <= |t| && '\n' !in t[..n] && (n < |t| ==> t[n] == '\n')
  {
    if t == "" || t[0] == '\n' then 0
    else
      var n := 1 + NewlineAt(t[1..]);
      assert t[..n] == [t[0]] + t[1..][..n - 1];
      n
  }

  /** A carriage return before the line feed belongs to the line ending. */
  function Chomp(l: string): string
  {
    if l != "" && l[|l| - 1] == '\r' then l[..|l| - 1] else l
  }

  /** Rust's `str::lines`: the last line may lack its line feed, and then keeps a final carriage return. */
  function Lines(t: string): seq<string>
    decreases |t|
  {
    if t == "" then []
    else
      var n := NewlineAt(t);
      if n == |t| then [t] else [Chomp(t[..n])] + Lines(t[n + 1..])
  }

  /** `join("\n") + "\n"` of at least one line. */
  function Joined(ls: seq<string>): string
  {
    if ls == [] then "" else ls[0] + "\n" + Joined(ls[1..])
  }

  function Chomped(ls: seq<string>): (r: seq<string>)
    ensures |r| == |ls|
  {
    seq(|ls|, i requires 0 <= i < |ls| => Chomp(ls[i]))
  }

  predicate OneLine(l: string)
  {
    '\n' !in l
  }

  predicate OneLineEach(ls: seq<string>)
  {
    forall l | l in ls :: OneLine(l)
  }

  predicate EndsInReturn(l: string)
  {
    l != "" && l[|l| - 1] == '\r'
  }

  lemma {:induction false} LinesAreLines(t: string)
    ensures OneLineEach(Lines(t))
    decreases |t|
  {
    if t != "" {
      var n := NewlineAt(t);
      if n == |t| {
        assert t[..n] == t;
      } else {
        LinesAreLines(t[n + 1..]);
      }
    }
  }

  lemma {:induction false} NewlineAfter(l: string, rest: string)
    requires OneLine(l)
    ensures NewlineAt(l + "\n" + rest) == |l|
  {
    if l != "" {
      assert (l + "\n" + rest)[1..] == l[1..] + "\n" + rest;
      NewlineAfter(l[1..], rest);
    }
  }

  lemma FirstLine(l: string, rest: string)
    requires OneLine(l)
    ensures Lines(l + "\n" + rest) == [Chomp(l)] + Lines(rest)
  {
    NewlineAfter(l, rest);
    var t := l + "\n" + rest;
    assert t[..|l|] == l && t[|l| + 1..] == rest;
    hide NewlineAt;
  }

  lemma ChompedCons(ls: seq<string>)
    requires ls != []
    ensures Chomped(ls) == [Chomp(ls[0])] + Chomped(ls[1..])
  {
  }

  /** Splitting joined lines gives them back, each without a final carriage return. */
  lemma {:induction false} LinesOfJoined(ls: seq<string>)
    requires OneLineEach(ls)
    ensures Lines(Joined(ls)) == Chomped(ls)
  {
    if ls != [] {
      hide Lines, Chomped, Chomp;
      FirstLine(ls[0], Joined(ls[1..]));
      LinesOfJoined(ls[1..]);
      ChompedCons(ls);
    }
  }

  lemma OnlyLine(last: string)
    requires OneLine(last) && last != ""
    ensures Lines(last) == [last]
  {
  }

  /** Splitting a text that does not end in a line feed: its last line is kept as it is. */
  lemma {:induction false} LinesOfUnterminated(ls: seq<string>, last: string)
    requires OneLineEach(ls) && OneLine(last) && last != ""
    ensures Lines(Joined(ls) + last) == Chomped(ls) + [last]
  {
    if ls == [] {
      OnlyLine(last);
      assert Joined(ls) + last == last;
    } else {
      hide Lines, Chomped, Chomp;
      var rest := Joined(ls[1..]) + last;
      assert Joined(ls) + last == ls[0] + "\n" + rest;
      FirstLine(ls[0], rest);
      LinesOfUnterminated(ls[1..], last);
      ChompedCons(ls);
    }
  }

  lemma {:induction false} ChompedIsShorter(ls: seq<string>)
    ensures |Joined(Chomped(ls))| <= |Joined(ls)|
    ensures (exists l | l in ls :: EndsInReturn(l)) ==> |Joined(Chomped(ls))| < |Joined(ls)|
    ensures !(exists l | l in ls :: EndsInReturn(l)) ==> Chomped(ls) == ls
  {
    if ls != [] {
      ChompedIsShorter(ls[1..]);
      assert Chomped(ls)[0] == Chomp(ls[0]) && Chomped(ls)[1..] == Chomped(ls[1..]);
      assert forall l | l in ls :: l == ls[0] || l in ls[1..];
      assert forall l | l in ls[1..] :: l in ls;
    }
    if !exists l | l in ls :: EndsInReturn(l) {
      forall i | 0 <= i < |ls| ensures Chomped(ls)[i] == ls[i] {
        assert ls[i] in ls;
      }
    }
  }

  // ----- Kinds of line -----

  datatype Kind = Header(section: string) | Endpoint | Transport | Mtu | Other

  /** The text every test of the source looks at. */
  function Key(l: string): string
  {
    AsciiLower(Trim(l))
  }

  predicate IsTransport(key: string)
  {
    || StartsWith(key, "transport") || StartsWith(key, "remotetcp") || StartsWith(key, "remoteudp")
    || StartsWith(key, "locallisten") || StartsWith(key, "lwo") || StartsWith(key, "protocolversion")
  }

  function KindOf(key: string): Kind
  {
    if StartsWith(key, "[") then Header(key)
    else if StartsWith(key, "endpoint") then Endpoint
    else if IsTransport(key) then Transport
    else if StartsWith(key, "mtu") then Mtu
    else Other
  }

  function LineKind(l: string): Kind
  {
    KindOf(Key(l))
  }

  /** A bracket is its own lower case. */
  lemma HeaderByTrim(l: string)
    ensures LineKind(l).Header? <==> StartsWith(Trim(l), "[")
  {
    if Trim(l) != "" {
      assert Key(l)[0] == AsciiLowerChar(Trim(l)[0]);
      assert Trim(l)[..1] == [Trim(l)[0]] && Key(l)[..1] == [Key(l)[0]];
    }
  }

  /** A key is the trimmed line in lower case. */
  lemma KeyIs(l: string)
    ensures SameButCase(Trim(l), Key(l)) && (forall c | c in Key(l) :: !('A' <= c <= 'Z'))
    ensures "[" <= Key(l) <==> "[" <= Trim(l)
  {
    LowerIff(Trim(l), Trim(l));
    HeaderByTrim(l);
  }

  /** The settings that only RouteGuard understands. */
  predicate IsSetting(key: string)
  {
    || "transport" <= key || "remotetcp" <= key || "remoteudp" <= key
    || "locallisten" <= key || "lwo" <= key || "protocolversion" <= key
  }

  /** What each kind of line starts with; no line is of two kinds. */
  lemma KindIs(key: string)
    ensures KindOf(key).Header? <==> "[" <= key
    ensures KindOf(key).Header? ==> KindOf(key).section == key
    ensures KindOf(key).Endpoint? <==> "endpoint" <= key
    ensures KindOf(key).Transport? <==> IsSetting(key)
    ensures KindOf(key).Mtu? <==> "mtu" <= key
  {
    if key != "" {
      assert "[" <= key ==> key[0] == '[';
      assert "endpoint" <= key ==> key[0] == 'e';
      assert "mtu" <= key ==> key[0] == 'm';
      assert "transport" <= key ==> key[0] == 't';
      assert "remotetcp" <= key ==> key[0] == 'r';
      assert "remoteudp" <= key ==> key[0] == 'r';
      assert "locallisten" <= key ==> key[0] == 'l';
      assert "lwo" <= key ==> key[0] == 'l';
      assert "protocolversion" <= key ==> key[0] == 'p';
    }
  }

  lemma ChompKeepsKind(l: string)
    ensures Trim(Chomp(l)) == Trim(l) && LineKind(Chomp(l)) == LineKind(l)
  {
  }

  // ----- Values -----

  /** `split_once('=')`. */
  function SplitOnce(s: string): Option<(string, string)>
  {
    if s == "" then None
    else if s[0] == '=' then Some(("", s[1..]))
    else
      match SplitOnce(s[1..])
      case None => None
      case Some(kv) => Some(([s[0]] + kv.0, kv.1))
  }

  /** The text is divided at its first equals sign, if it has one. */
  lemma {:induction false} SplitOnceIff(s: string)
    ensures SplitOnce(s).Some? <==> '=' in s
    ensures SplitOnce(s).Some? ==>
              var kv := SplitOnce(s).value; s == kv.0 + "=" + kv.1 && '=' !in kv.0
  {
    if s != "" && s[0] != '=' {
      SplitOnceIff(s[1..]);
      assert s == [s[0]] + s[1..];
    }
  }

  function Decimal(n: nat): (s: string)
    ensures s != "" && forall c | c in s :: '0' <= c <= '9'
  {
    var d := ['0' + (n % 10) as char];
    if n < 10 then d else Decimal(n / 10) + d
  }

  function EndpointLine(e: string): string
  {
    "Endpoint = " + e
  }

  function MtuLine(m: nat): string
  {
    "MTU = " + Decimal(m)
  }

  lemma LowerKeepsHead(s: string, head: string)
    requires head <= s
    ensures AsciiLower(head) <= AsciiLower(s)
  {
  }

  lemma EndpointLineKind(e: string)
    ensures LineKind(EndpointLine(e)) == Endpoint
  {
    TrimKeepsHead("Endpoint", " = " + e);
    assert EndpointLine(e) == "Endpoint" + (" = " + e);
    LowerKeepsHead(Trim(EndpointLine(e)), "Endpoint");
    assert AsciiLower("Endpoint") == "endpoint";
    assert Key(EndpointLine(e))[..8] == "endpoint";
    assert Key(EndpointLine(e))[0] == 'e';
  }

  lemma MtuLineKind(m: nat)
    ensures LineKind(MtuLine(m)) == Mtu
  {
    TrimKeepsHead("MTU", " = " + Decimal(m));
    assert MtuLine(m) == "MTU" + (" = " + Decimal(m));
    LowerKeepsHead(Trim(MtuLine(m)), "MTU");
    assert AsciiLower("MTU") == "mtu";
    assert Key(MtuLine(m))[..3] == "mtu";
    assert Key(MtuLine(m))[0] == 'm';
  }

  /** The value of a written endpoint line is the endpoint. */
  lemma EndpointLineValue(e: string)
    requires Trimmed(e)
    ensures SplitOnce(Trim(EndpointLine(e))) == Some(("Endpoint ", " " + e)) && Trim(" " + e) == e
  {
    TrimmedEnds(e);
    var l := EndpointLine(e);
    assert l[|l| - 1] == e[|e| - 1];
    assert Trim(l) == l;
    assert l == "Endpoint " + "=" + " " + e;
    SplitAtEquals("Endpoint ", " " + e);
    assert l == "Endpoint " + "=" + (" " + e);
    assert (" " + e)[1..] == e;
    assert (" " + e)[|e|] == e[|e| - 1];
  }

  lemma {:induction false} SplitAtEquals(k: string, v: string)
    requires '=' !in k
    ensures SplitOnce(k + "=" + v) == Some((k, v))
  {
    var s := k + "=" + v;
    if k == "" {
      assert s[1..] == v;
    } else {
      assert s[1..] == k[1..] + "=" + v;
      SplitAtEquals(k[1..], v);
      assert k == [k[0]] + k[1..];
    }
  }
}
