/** Value types shared by every component of the model. */
module Common {

  datatype Option<+T> = None | Some(value: T)

  datatype Result<+T> = Ok(value: T) | Err(reason: string)

  /** An unsigned octet, used where the source computes with a byte's numeric value. */
  type byte = x: int | 0 <= x < 256

  type Bytes = seq<byte>

  const U32: nat := 0x1_0000_0000

  /** `n.max(low).min(high)`: the upper bound wins when the bounds cross. */
  function Clamp(n: nat, low: nat, high: nat): nat
  {
    var raised := if n < low then low else n;
    if raised > high then high else raised
  }

  /** `r` is `n` brought into the bounds; the upper bound wins when they cross. */
  predicate IsBounded(n: nat, low: nat, high: nat, r: nat)
  {
    && (low <= n <= high ==> r == n)
    && (n < low <= high ==> r == low)
    && (high < n || high < low ==> r == high)
  }

  lemma ClampIsBounded(n: nat, low: nat, high: nat, r: nat)
    ensures IsBounded(n, low, high, r) <==> r == Clamp(n, low, high)
  {
  }

  /** An address is its octets in network order: four of them (V4) or sixteen (V6). */
  datatype IpAddr = V4(octets: seq<byte>) | V6(octets: seq<byte>)

  /** An address has as many octets as its family. */
  predicate IsIp(ip: IpAddr)
  {
    |ip.octets| == if ip.V4? then 4 else 16
  }

  /** Where the traffic of a rule or of a resolved address goes. */
  datatype RouteTarget = Tunnel | Bypass | Block

  /** A network prefix. */
  datatype IpNet = IpNet(base: IpAddr, prefixLen: nat)

  /** Bit `k` of an address, counted from the most significant bit of its first octet. */
  function Bit(octets: seq<byte>, k: nat): int
    requires k < 8 * |octets|
  {
    (octets[k / 8] / [128, 64, 32, 16, 8, 4, 2, 1][k % 8]) % 2
  }

  /** `ip` lies in `net`: same family, and the first `prefixLen` bits agree. */
  predicate Contains(net: IpNet, ip: IpAddr)
  {
    && net.base.V4? == ip.V4?
    && forall k: nat | k < net.prefixLen ::
         k < 8 * |net.base.octets| && k < 8 * |ip.octets| ==> Bit(net.base.octets, k) == Bit(ip.octets, k)
  }

  /** The /32 or /128 network of a single address. */
  function HostNet(ip: IpAddr): IpNet
  {
    IpNet(ip, if ip.V4? then 32 else 128)
  }

  /** The code points of Unicode's White_Space property, which Rust's `char::is_whitespace` tests. */
  predicate IsWhitespace(c: char)
  {
    var n := c as int;
    || 0x09 <= n <= 0x0D || n == 0x20 || n == 0x85 || n == 0xA0 || n == 0x1680
    || 0x2000 <= n <= 0x200A || n == 0x2028 || n == 0x2029 || n == 0x202F || n == 0x205F || n == 0x3000
  }

  /** One by one, those 25 code points. */
  lemma WhitespaceIs(c: char)
    ensures IsWhitespace(c) <==>
            c as int in {0x09, 0x0A, 0x0B, 0x0C, 0x0D, 0x20, 0x85, 0xA0, 0x1680, 0x2000, 0x2001, 0x2002, 0x2003, 0x2004,
                         0x2005, 0x2006, 0x2007, 0x2008, 0x2009, 0x200A, 0x2028, 0x2029, 0x202F, 0x205F, 0x3000}
  {
  }

  function AsciiLowerChar(c: char): char
  {
    if 'A' <= c <= 'Z' then c + 32 as char else c
  }

  /** Rust's `to_ascii_lowercase`. */
  function AsciiLower(s: string): (r: string)
    ensures |r| == |s|
  {
    seq(|s|, i requires 0 <= i < |s| => AsciiLowerChar(s[i]))
  }

  /** The same character, or the two cases of one ASCII letter. */
  predicate SameLetter(c: char, d: char)
  {
    || c == d
    || ('A' <= c <= 'Z' && d as int == c as int + 32)
    || ('A' <= d <= 'Z' && c as int == d as int + 32)
  }

  predicate SameButCase(s: string, t: string)
  {
    |s| == |t| && forall i | 0 <= i < |s| :: SameLetter(s[i], t[i])
  }

  /** Lower-casing forgets the case and nothing else, and leaves no capital. */
  lemma LowerIff(s: string, t: string)
    ensures AsciiLower(s) == AsciiLower(t) <==> SameButCase(s, t)
    ensures SameButCase(s, AsciiLower(s)) && forall c | c in AsciiLower(s) :: !('A' <= c <= 'Z')
  {
    assert forall i | 0 <= i < |s| :: AsciiLower(s)[i] == AsciiLowerChar(s[i]);
    assert forall i | 0 <= i < |t| :: AsciiLower(t)[i] == AsciiLowerChar(t[i]);
    if SameButCase(s, t) {
      forall i | 0 <= i < |s| ensures AsciiLower(s)[i] == AsciiLower(t)[i] {
        assert SameLetter(s[i], t[i]);
      }
    }
  }

  predicate StartsWith(s: string, prefix: string)
  {
    prefix <= s
  }

  predicate EndsWith(s: string, suffix: string)
  {
    |suffix| <= |s| && s[|s| - |suffix|..] == suffix
  }

  lemma TakeStep<T>(s: seq<T>, k: nat)
    requires 0 < k <= |s|
    ensures s[..k] == s[..k - 1] + [s[k - 1]] && s[..k][..k - 1] == s[..k - 1]
  {
  }

  /** `out` is what increasing positions of `s` hold. */
  ghost predicate Picks<T>(at: seq<nat>, s: seq<T>, out: seq<T>)
  {
    && |at| == |out| && (forall i | 0 <= i < |at| :: at[i] < |s| && out[i] == s[at[i]])
    && forall i, j | 0 <= i < j < |at| :: at[i] < at[j]
  }

  lemma PicksNext<T>(at: seq<nat>, s: seq<T>, out: seq<T>, x: T)
    requires Picks(at, s, out)
    ensures Picks(at, s + [x], out) && Picks(at + [|s|], s + [x], out + [x]) && |s| !in at
    ensures forall k: nat :: k in at + [|s|] <==> k in at || k == |s|
  {
  }

  /** What a bounded queue keeps: its newest `n` elements. */
  function Last<T>(s: seq<T>, n: nat): seq<T>
  {
    if |s| <= n then s else s[|s| - n..]
  }

  lemma LastIsSuffix<T>(s: seq<T>, n: nat)
    ensures |Last(s, n)| == if |s| <= n then |s| else n
    ensures Last(s, n) == s[|s| - |Last(s, n)|..]
  {
  }

  /** Keeping the newest elements at every step keeps the newest of all. */
  lemma LastAppend<T>(s: seq<T>, x: T, n: nat)
    ensures Last(Last(s, n) + [x], n) == Last(s + [x], n)
  {
  }
}
