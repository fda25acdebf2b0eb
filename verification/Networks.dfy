/** What it means for a network to contain an address, in octets. */
module Networks {

  import opened Common

  /** The place value of each bit of an octet, most significant first. */
  function Weight(j: nat): (w: nat)
    requires j < 8
    ensures w > 0
  {
    [128, 64, 32, 16, 8, 4, 2, 1][j]
  }

  lemma BitOf(a: seq<byte>, i: nat, j: nat)
    requires i < |a| && j < 8
    ensures Bit(a, 8 * i + j) == a[i] / Weight(j) % 2
  {
    assert (8 * i + j) / 8 == i && (8 * i + j) % 8 == j;
  }

  lemma NextBit(x: byte, j: nat)
    requires j < 8
    ensures x / Weight(j) == 2 * (if j == 0 then 0 else x / Weight(j - 1)) + x / Weight(j) % 2
  {
  }

  /** The first `r` bits of two octets agree exactly if dropping the others leaves the same. */
  lemma {:induction false} TopBits(x: byte, y: byte, r: nat)
    requires 1 <= r <= 8
    ensures (forall j: nat | j < r :: x / Weight(j) % 2 == y / Weight(j) % 2) <==>
            x / Weight(r - 1) == y / Weight(r - 1)
  {
    NextBit(x, r - 1);
    NextBit(y, r - 1);
    hide Weight;
    if r > 1 { TopBits(x, y, r - 1); }
  }

  lemma OctetsAgree(a: seq<byte>, b: seq<byte>, i: nat, r: nat)
    requires i < |a| == |b| && 1 <= r <= 8
    ensures (forall k: nat | 8 * i <= k < 8 * i + r :: Bit(a, k) == Bit(b, k)) <==>
            a[i] / Weight(r - 1) == b[i] / Weight(r - 1)
  {
    hide Bit, Weight;
    TopBits(a[i], b[i], r);
    if forall k: nat | 8 * i <= k < 8 * i + r :: Bit(a, k) == Bit(b, k) {
      forall j: nat | j < r ensures a[i] / Weight(j) % 2 == b[i] / Weight(j) % 2 {
        BitOf(a, i, j);
        BitOf(b, i, j);
      }
    }
    if forall j: nat | j < r :: a[i] / Weight(j) % 2 == b[i] / Weight(j) % 2 {
      forall k: nat | 8 * i <= k < 8 * i + r ensures Bit(a, k) == Bit(b, k) {
        BitOf(a, i, k - 8 * i);
        BitOf(b, i, k - 8 * i);
      }
    }
  }

  /** The first `n` bits of two lists of octets agree. */
  ghost predicate BitsAgree(a: seq<byte>, b: seq<byte>, n: nat)
    requires n <= 8 * |a| && |a| == |b|
  {
    forall k: nat | k < n :: Bit(a, k) == Bit(b, k)
  }

  lemma {:induction false} WholeOctets(a: seq<byte>, b: seq<byte>, q: nat)
    requires q <= |a| == |b|
    ensures BitsAgree(a, b, 8 * q) <==> a[..q] == b[..q]
  {
    if q > 0 {
      WholeOctets(a, b, q - 1);
      OctetsAgree(a, b, q - 1, 8);
      TakeStep(a, q);
      TakeStep(b, q);
      hide Bit;
      assert Weight(7) == 1;
    }
  }

  /** The same, as whole octets and what the last incomplete one shares. */
  lemma BitsAgreeIff(a: seq<byte>, b: seq<byte>, n: nat)
    requires n <= 8 * |a| && |a| == |b|
    ensures var q, r := n / 8, n % 8;
            BitsAgree(a, b, n) <==> a[..q] == b[..q] && (r > 0 ==> a[q] / Weight(r - 1) == b[q] / Weight(r - 1))
  {
    var q, r := n / 8, n % 8;
    WholeOctets(a, b, q);
    if r > 0 { OctetsAgree(a, b, q, r); }
    hide Bit, Weight;
  }

  /**
    A network of a valid prefix length contains the addresses of its family that
    share its first octets, and of the next octet as many leading bits as remain.
  */
  lemma ContainsIff(net: IpNet, ip: IpAddr)
    requires IsIp(net.base) && IsIp(ip) && net.prefixLen <= 8 * |net.base.octets|
    ensures var a, b, q, r := net.base.octets, ip.octets, net.prefixLen / 8, net.prefixLen % 8;
            Contains(net, ip) <==>
            && net.base.V4? == ip.V4? && a[..q] == b[..q]
            && (r > 0 ==> a[q] / [128, 64, 32, 16, 8, 4, 2, 1][r - 1] == b[q] / [128, 64, 32, 16, 8, 4, 2, 1][r - 1])
  {
    if net.base.V4? == ip.V4? {
      BitsAgreeIff(net.base.octets, ip.octets, net.prefixLen);
      assert Contains(net, ip) <==> BitsAgree(net.base.octets, ip.octets, net.prefixLen);
    }
    hide Bit;
  }

  /** A host network contains its own address only. */
  lemma HostNetIsOne(host: IpAddr, ip: IpAddr)
    requires IsIp(host) && IsIp(ip)
    ensures Contains(HostNet(host), ip) <==> host == ip
  {
    ContainsIff(HostNet(host), ip);
    assert host.octets[..|host.octets|] == host.octets && ip.octets[..|ip.octets|] == ip.octets;
  }
}
