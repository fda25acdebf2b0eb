/** The native WireGuard configuration buffer: laid out from a parsed configuration, walked to read statistics. */
module InterfaceBuffer {

  import opened Common
  import opened Octets

  type Key = k: Bytes | |k| == 32 witness Zeros(32)

  datatype SocketAddr = SocketAddr(ip: IpAddr, port: nat, scope: nat)

  datatype ParsedPeer = ParsedPeer(publicKey: Option<Key>, presharedKey: Option<Key>, endpoint: Option<SocketAddr>,
                                   allowedIps: seq<IpNet>, keepalive: Option<nat>)

  datatype ParsedConf = ParsedConf(privateKey: Option<Key>, listenPort: Option<nat>, peers: seq<ParsedPeer>)

  // ----- The ranges the source's types give -----

  predicate IsU16(n: Option<nat>)
  {
    n.Some? ==> n.value < 0x1_0000
  }

  /** Only IPv6 socket addresses have a scope. */
  predicate IsSocketAddr(e: SocketAddr)
  {
    IsIp(e.ip) && e.port < 0x1_0000 && e.scope < U32 && (e.ip.V4? ==> e.scope == 0)
  }

  predicate IsPeer(p: ParsedPeer)
  {
    && IsU16(p.keepalive)
    && (p.endpoint.Some? ==> IsSocketAddr(p.endpoint.value))
    && forall i | 0 <= i < |p.allowedIps| :: IsIp(p.allowedIps[i].base) && p.allowedIps[i].prefixLen < 256
  }

  predicate IsConf(conf: ParsedConf)
  {
    IsU16(conf.listenPort) && forall i | 0 <= i < |conf.peers| :: IsPeer(conf.peers[i])
  }

  // ----- Native blocks -----

  const INTERFACE_SIZE := 76
  const PEER_SIZE := 136
  const ALLOWED_IP_SIZE := 24

  const AF_INET := 2
  const AF_INET6 := 23

  function InterfaceBytes(flags: nat, listenPort: nat, privateKey: Key, peersCount: nat): (b: Bytes)
    requires flags < U32 && listenPort < 0x1_0000 && peersCount < U32
    ensures |b| == INTERFACE_SIZE && Get32(b, 72) == peersCount && b[8..40] == privateKey
  {
    Put32(flags) + Put16(listenPort) + Zeros(2) + privateKey + Zeros(32) + Put32(peersCount)
  }

  /** A peer as the driver sees it. */
  datatype RawPeer = RawPeer(flags: nat, publicKey: Key, presharedKey: Key, keepalive: nat, endpoint: Bytes,
                             txBytes: nat, rxBytes: nat, lastHandshake: nat, allowedCount: nat)

  predicate IsNative(p: RawPeer)
  {
    && p.flags < U32 && p.keepalive < 0x1_0000 && |p.endpoint| == 28 && p.allowedCount < U32
    && p.txBytes < U32 * U32 && p.rxBytes < U32 * U32 && p.lastHandshake < U32 * U32
  }

  type NativePeer = p: RawPeer | IsNative(p)
    witness RawPeer(0, Zeros(32), Zeros(32), 0, Zeros(28), 0, 0, 0, 0)

  type AllowedIp = b: Bytes | |b| == ALLOWED_IP_SIZE witness Zeros(ALLOWED_IP_SIZE)

  function PeerHead(p: NativePeer): (b: Bytes)
    ensures |b| == 104
  {
    Put32(p.flags) + Zeros(4) + p.publicKey + p.presharedKey + Put16(p.keepalive) + Zeros(2) + p.endpoint
  }

  function PeerTail(p: NativePeer): (b: Bytes)
    ensures |b| == 32
  {
    Put64(p.txBytes) + Put64(p.rxBytes) + Put64(p.lastHandshake) + Put32(p.allowedCount) + Zeros(4)
  }

  function PeerBytes(p: NativePeer): (b: Bytes)
    ensures |b| == PEER_SIZE
  {
    PeerHead(p) + PeerTail(p)
  }

  /** IPv4 addresses fill the first four of the address's sixteen octets. */
  function AllowedIpBytes(net: IpNet): AllowedIp
    requires IsIp(net.base) && net.prefixLen < 256
  {
    var len: byte := net.prefixLen;
    net.base.octets + Zeros(16 - |net.base.octets|)
    + Put16(if net.base.V4? then AF_INET else AF_INET6) + [len] + Zeros(5)
  }

  /** Family, then the port and address in network order. */
  function EndpointBytes(e: SocketAddr): (b: Bytes)
    requires IsSocketAddr(e)
    ensures |b| == 28
  {
    if e.ip.V4? then Put16(AF_INET) + [e.port / 256, e.port % 256] + e.ip.octets + Zeros(20)
    else Put16(AF_INET6) + [e.port / 256, e.port % 256] + Zeros(4) + e.ip.octets + Put32(e.scope)
  }

  // ----- From a configuration to blocks -----

  function KeyOr0(k: Option<Key>): Key
  {
    if k.Some? then k.value else Zeros(32)
  }

  function NatOr0(n: Option<nat>): nat
  {
    if n.Some? then n.value else 0
  }

  function InterfaceFlags(conf: ParsedConf): nat
  {
    8 + (if conf.privateKey.Some? then 2 else 0) + if conf.listenPort.Some? then 4 else 0
  }

  function PeerFlags(p: ParsedPeer): nat
  {
    32 + (if p.publicKey.Some? then 1 else 0) + (if p.presharedKey.Some? then 2 else 0)
    + (if p.keepalive.Some? then 4 else 0) + if p.endpoint.Some? then 8 else 0
  }

  /** A peer and its allowed addresses, each already laid out. */
  datatype PeerBlock = PeerBlock(peer: NativePeer, allowed: seq<AllowedIp>)

  predicate FlagSet(flags: nat, flag: nat)
    requires flag > 0
  {
    flags / flag % 2 == 1
  }

  lemma PeerFlagsTell(p: ParsedPeer)
    ensures PeerFlags(p) < 64 && FlagSet(PeerFlags(p), 32)
    ensures FlagSet(PeerFlags(p), 1) == p.publicKey.Some? && FlagSet(PeerFlags(p), 2) == p.presharedKey.Some?
    ensures FlagSet(PeerFlags(p), 4) == p.keepalive.Some? && FlagSet(PeerFlags(p), 8) == p.endpoint.Some?
  {
  }

  /**
    Each flag tells whether its field is meant, and a field that is meant has the
    peer's value. A count that does not fit in 32 bits is cut off, as the
    source's cast does.
  */
  function PeerToNative(p: ParsedPeer): (b: PeerBlock)
    requires IsPeer(p)
    ensures FlagSet(b.peer.flags, 1) == p.publicKey.Some? && FlagSet(b.peer.flags, 2) == p.presharedKey.Some?
    ensures FlagSet(b.peer.flags, 4) == p.keepalive.Some? && FlagSet(b.peer.flags, 8) == p.endpoint.Some?
    ensures FlagSet(b.peer.flags, 32) && b.peer.txBytes == b.peer.rxBytes == b.peer.lastHandshake == 0
    ensures p.publicKey.Some? ==> b.peer.publicKey == p.publicKey.value
    ensures p.presharedKey.Some? ==> b.peer.presharedKey == p.presharedKey.value
    ensures p.keepalive.Some? ==> b.peer.keepalive == p.keepalive.value
    ensures p.endpoint.Some? ==> b.peer.endpoint == EndpointBytes(p.endpoint.value)
    ensures |b.allowed| == |p.allowedIps| && b.peer.allowedCount == |p.allowedIps| % U32
    ensures forall i | 0 <= i < |b.allowed| :: b.allowed[i] == AllowedIpBytes(p.allowedIps[i])
  {
    PeerFlagsTell(p);
    PeerBlock(RawPeer(PeerFlags(p), KeyOr0(p.publicKey), KeyOr0(p.presharedKey), NatOr0(p.keepalive),
                      if p.endpoint.Some? then EndpointBytes(p.endpoint.value) else Zeros(28),
                      0, 0, 0, |p.allowedIps| % U32),
              seq(|p.allowedIps|, i requires 0 <= i < |p.allowedIps| => AllowedIpBytes(p.allowedIps[i])))
  }

  function Blocks(peers: seq<ParsedPeer>): (bs: seq<PeerBlock>)
    requires forall i | 0 <= i < |peers| :: IsPeer(peers[i])
    ensures |bs| == |peers| && forall i | 0 <= i < |bs| :: bs[i] == PeerToNative(peers[i])
  {
    seq(|peers|, i requires 0 <= i < |peers| => PeerToNative(peers[i]))
  }

  ghost function Flatten(parts: seq<AllowedIp>): Bytes
  {
    if parts == [] then [] else parts[0] + Flatten(parts[1..])
  }

  function BlockSize(b: PeerBlock): nat
  {
    PEER_SIZE + |b.allowed| * ALLOWED_IP_SIZE
  }

  function TotalSize(bs: seq<PeerBlock>): nat
  {
    if bs == [] then 0 else BlockSize(bs[0]) + TotalSize(bs[1..])
  }

  ghost function BlockBytes(b: PeerBlock): Bytes
  {
    PeerBytes(b.peer) + Flatten(b.allowed)
  }

  ghost function Layout(bs: seq<PeerBlock>): Bytes
  {
    if bs == [] then [] else BlockBytes(bs[0]) + Layout(bs[1..])
  }

  function IfaceOf(conf: ParsedConf): (b: Bytes)
    requires IsConf(conf)
    ensures |b| == INTERFACE_SIZE && Get32(b, 72) == |conf.peers| % U32
  {
    InterfaceBytes(InterfaceFlags(conf), NatOr0(conf.listenPort), KeyOr0(conf.privateKey), |conf.peers| % U32)
  }

  function BlocksOf(conf: ParsedConf): (bs: seq<PeerBlock>)
    requires IsConf(conf)
    ensures |bs| == |conf.peers| && forall i | 0 <= i < |bs| :: bs[i].peer.allowedCount == |bs[i].allowed| % U32
    ensures forall i | 0 <= i < |bs| :: |bs[i].allowed| == |conf.peers[i].allowedIps|
  {
    Blocks(conf.peers)
  }

  /** The native buffer of a configuration. */
  ghost function Buffer(conf: ParsedConf): Bytes
    requires IsConf(conf)
  {
    IfaceOf(conf) + Layout(BlocksOf(conf))
  }

  lemma {:induction false} FlattenSize(parts: seq<AllowedIp>)
    ensures |Flatten(parts)| == |parts| * ALLOWED_IP_SIZE
  {
    if parts != [] { FlattenSize(parts[1..]); }
  }

  lemma {:induction false} LayoutSize(bs: seq<PeerBlock>)
    ensures |Layout(bs)| == TotalSize(bs)
  {
    if bs != [] {
      FlattenSize(bs[0].allowed);
      LayoutSize(bs[1..]);
    }
  }

  // ----- Where everything stands -----

  /** An interface block, field by field. */
  lemma InterfaceAt(conf: ParsedConf)
    requires IsConf(conf)
    ensures var b := IfaceOf(conf);
            && |b| == 76 && Get32(b, 0) < 16 && FlagSet(Get32(b, 0), 8)
            && FlagSet(Get32(b, 0), 2) == conf.privateKey.Some? && FlagSet(Get32(b, 0), 4) == conf.listenPort.Some?
            && !FlagSet(Get32(b, 0), 1)
            && Get16(b, 4) == (if conf.listenPort.Some? then conf.listenPort.value else 0)
            && b[8..40] == (if conf.privateKey.Some? then conf.privateKey.value else Zeros(32))
            && b[40..72] == Zeros(32)
            && Get32(b, 72) == |conf.peers| % 0x1_0000_0000
  {
    var b, flags, port := IfaceOf(conf), Put32(InterfaceFlags(conf)), Put16(NatOr0(conf.listenPort));
    var key, count := KeyOr0(conf.privateKey), Put32(|conf.peers| % U32);
    assert b == flags + port + Zeros(2) + key + Zeros(32) + count;
    hide Put32, Put16, Zeros, Get32, Get16;
    assert b[0..4] == flags && b[4..6] == port && b[8..40] == key && b[40..72] == Zeros(32);
    At32(b, 0, flags, 0);
    At16(b, 4, port, 0);
  }

  lemma HeadAt(p: NativePeer)
    ensures var b := PeerHead(p);
            && Get32(b, 0) == p.flags && b[4..8] == Zeros(4) && b[8..40] == p.publicKey && b[40..72] == p.presharedKey
            && Get16(b, 72) == p.keepalive && b[74..76] == Zeros(2) && b[76..104] == p.endpoint
  {
    var b, flags, keepalive := PeerHead(p), Put32(p.flags), Put16(p.keepalive);
    hide Put32, Put16, Zeros, Get32, Get16;
    assert b[0..4] == flags && b[72..74] == keepalive;
    At32(b, 0, flags, 0);
    At16(b, 72, keepalive, 0);
  }

  lemma TailAt(p: NativePeer)
    ensures var b := PeerTail(p);
            && Get64(b, 0) == p.txBytes && Get64(b, 8) == p.rxBytes && Get64(b, 16) == p.lastHandshake
            && Get32(b, 24) == p.allowedCount && b[28..32] == Zeros(4)
  {
    var b := PeerTail(p);
    var tx, rx, hs, count := Put64(p.txBytes), Put64(p.rxBytes), Put64(p.lastHandshake), Put32(p.allowedCount);
    hide Put64, Put32, Zeros, Get64, Get32;
    assert b[0..8] == tx && b[8..16] == rx && b[16..24] == hs && b[24..28] == count && b[28..32] == Zeros(4);
    At64(b, 0, tx, 0);
    At64(b, 8, rx, 0);
    At64(b, 16, hs, 0);
    At32(b, 24, count, 0);
  }

  /** A peer block, field by field. */
  lemma PeerAt(p: NativePeer)
    ensures var b := PeerBytes(p);
            && |b| == 136 && Get32(b, 0) == p.flags && b[4..8] == Zeros(4)
            && b[8..40] == p.publicKey && b[40..72] == p.presharedKey
            && Get16(b, 72) == p.keepalive && b[74..76] == Zeros(2) && b[76..104] == p.endpoint
            && Get64(b, 104) == p.txBytes && Get64(b, 112) == p.rxBytes && Get64(b, 120) == p.lastHandshake
            && Get32(b, 128) == p.allowedCount && b[132..136] == Zeros(4)
  {
    HeadAt(p);
    TailAt(p);
    var b, head, tail := PeerBytes(p), PeerHead(p), PeerTail(p);
    hide Zeros, Get64, Get32, Get16, PeerHead, PeerTail;
    assert b[0..104] == head && b[104..136] == tail;
    assert b[4..8] == head[4..8] && b[8..40] == head[8..40] && b[40..72] == head[40..72];
    assert b[74..76] == head[74..76] && b[76..104] == head[76..104] && b[132..136] == tail[28..32];
    At32(b, 0, head, 0);
    At16(b, 0, head, 72);
    At64(b, 104, tail, 0);
    At64(b, 104, tail, 8);
    At64(b, 104, tail, 16);
    At32(b, 104, tail, 24);
  }

  /** A socket address: the family, the port in network order, and the address where its family has it. */
  lemma EndpointAt(e: SocketAddr)
    requires IsSocketAddr(e)
    ensures var b := EndpointBytes(e);
            && |b| == 28 && Get16(b, 0) == (if e.ip.V4? then 2 else 23) && (b[2] as int) * 256 + b[3] == e.port
            && (e.ip.V4? ==> b[4..8] == e.ip.octets && b[8..28] == Zeros(20))
            && (e.ip.V6? ==> b[4..8] == Zeros(4) && b[8..24] == e.ip.octets && Get32(b, 24) == e.scope)
  {
    var b, family := EndpointBytes(e), Put16(if e.ip.V4? then 2 else 23);
    assert b[0..2] == family;
    At16(b, 0, family, 0);
    hide Put32, Put16, Get32, Get16, Zeros;
    if e.ip.V4? {
      assert b[8..28] == Zeros(20);
    } else {
      assert b[24..28] == Put32(e.scope) && b[4..8] == Zeros(4);
      At32(b, 24, Put32(e.scope), 0);
    }
  }

  /** An allowed address: sixteen octets of room for it, the family, the prefix length. */
  lemma AllowedAt(net: IpNet)
    requires IsIp(net.base) && net.prefixLen < 256
    ensures var b, n := AllowedIpBytes(net), |net.base.octets|;
            && |b| == 24 && b[..n] == net.base.octets && b[n..16] == Zeros(16 - n)
            && Get16(b, 16) == (if net.base.V4? then 2 else 23) && b[18] == net.prefixLen && b[19..24] == Zeros(5)
  {
    var b, family := AllowedIpBytes(net), Put16(if net.base.V4? then 2 else 23);
    assert b[16..18] == family;
    At16(b, 16, family, 0);
    hide Put16, Get16;
  }

  /** The allowed addresses of a peer stand one after the other. */
  lemma {:induction false} FlattenAt(parts: seq<AllowedIp>, j: nat)
    requires j < |parts|
    ensures |Flatten(parts)| == 24 * |parts| && Flatten(parts)[24 * j..24 * j + 24] == parts[j]
  {
    FlattenSize(parts);
    FlattenSize(parts[1..]);
    if j > 0 {
      FlattenAt(parts[1..], j - 1);
      var rest := Flatten(parts[1..]);
      assert Flatten(parts)[24 * j..24 * j + 24] == rest[24 * (j - 1)..24 * (j - 1) + 24];
    }
  }

  lemma TotalSizeCons(bs: seq<PeerBlock>, i: nat)
    requires 0 < i <= |bs|
    ensures TotalSize(bs[..0]) == 0
    ensures TotalSize(bs[..i]) == 136 + 24 * |bs[0].allowed| + TotalSize(bs[1..][..i - 1])
  {
    assert bs[..i][1..] == bs[1..][..i - 1];
  }

  lemma LayoutCons(bs: seq<PeerBlock>)
    requires bs != []
    ensures Layout(bs) == BlockBytes(bs[0]) + Layout(bs[1..])
    ensures |BlockBytes(bs[0])| == 136 + 24 * |bs[0].allowed|
  {
    FlattenSize(bs[0].allowed);
    hide PeerBytes, Flatten;
  }

  lemma AtConcat(a: Bytes, b: Bytes, off: nat, part: Bytes)
    ensures At(a + b, 0, a)
    ensures At(b, off, part) ==> At(a + b, |a| + off, part)
  {
    assert (a + b)[0..|a|] == a;
    if At(b, off, part) { assert (a + b)[|a| + off..|a| + off + |part|] == b[off..off + |part|]; }
  }

  /** Where each block starts: after the blocks before it, each of 136 octets and 24 for every allowed address. */
  lemma {:induction false} BlockAt(bs: seq<PeerBlock>, i: nat)
    requires i < |bs|
    ensures At(Layout(bs), TotalSize(bs[..i]), BlockBytes(bs[i]))
    ensures TotalSize(bs[..i + 1]) == TotalSize(bs[..i]) + 136 + 24 * |bs[i].allowed|
  {
    hide At, Layout, BlockBytes, TotalSize;
    LayoutCons(bs);
    TotalSizeCons(bs, i + 1);
    if i > 0 {
      BlockAt(bs[1..], i - 1);
      TotalSizeCons(bs, i);
      AtConcat(BlockBytes(bs[0]), Layout(bs[1..]), TotalSize(bs[1..][..i - 1]), BlockBytes(bs[i]));
    } else {
      AtConcat(BlockBytes(bs[0]), Layout(bs[1..]), 0, []);
    }
  }

  // ----- Writing -----

  /** Overwrites part of the buffer; callers must stay inside it. */
  method CopyInto(buf: array<byte>, offset: nat, b: Bytes)
    requires offset + |b| <= buf.Length
    modifies buf
    ensures buf[..offset] == old(buf[..offset]) && buf[offset..offset + |b|] == b
    ensures buf[offset + |b|..] == old(buf[offset + |b|..])
  {
    for i := 0 to |b|
      invariant buf[..offset] == old(buf[..offset]) && buf[offset..offset + i] == b[..i]
      invariant buf[offset + i..] == old(buf[offset + i..])
    {
      buf[offset + i] := b[i];
      assert buf[offset..offset + i + 1] == buf[offset..offset + i] + [b[i]];
    }
  }

  /** Appends to what has been written so far. */
  method Append(buf: array<byte>, offset: nat, b: Bytes) returns (next: nat)
    requires offset + |b| <= buf.Length
    modifies buf
    ensures next == offset + |b| && buf[..next] == old(buf[..offset]) + b
  {
    CopyInto(buf, offset, b);
    next := offset + |b|;
    assert buf[..next] == buf[..offset] + buf[offset..next];
  }

  method SizeOf(bs: seq<PeerBlock>) returns (size: nat)
    ensures size == INTERFACE_SIZE + TotalSize(bs)
  {
    var allowed := 0;
    for i := 0 to |bs|
      invariant allowed * ALLOWED_IP_SIZE + i * PEER_SIZE + TotalSize(bs[i..]) == TotalSize(bs)
    {
      allowed := allowed + |bs[i].allowed|;
      assert bs[i..][1..] == bs[i + 1..];
    }
    size := INTERFACE_SIZE + |bs| * PEER_SIZE + allowed * ALLOWED_IP_SIZE;
  }

  /** Writes one peer and its allowed addresses. */
  method WriteBlock(buf: array<byte>, offset: nat, b: PeerBlock) returns (next: nat)
    requires offset + BlockSize(b) <= buf.Length
    modifies buf
    ensures next == offset + BlockSize(b) && buf[..next] == old(buf[..offset]) + BlockBytes(b)
  {
    FlattenSize(b.allowed);
    next := Append(buf, offset, PeerBytes(b.peer));
    for j := 0 to |b.allowed|
      invariant next == offset + PEER_SIZE + j * ALLOWED_IP_SIZE
      invariant buf[..next] + Flatten(b.allowed[j..]) == old(buf[..offset]) + BlockBytes(b)
    {
      ghost var before := buf[..next];
      next := Append(buf, next, b.allowed[j]);
      assert b.allowed[j..][1..] == b.allowed[j + 1..];
      assert before + (b.allowed[j] + Flatten(b.allowed[j + 1..])) == buf[..next] + Flatten(b.allowed[j + 1..]);
    }
    assert buf[..next] + [] == buf[..next];
  }

  /** Writes all peers, in order. */
  method WriteBlocks(buf: array<byte>, start: nat, blocks: seq<PeerBlock>) returns (next: nat)
    requires start + TotalSize(blocks) <= buf.Length
    modifies buf
    ensures next == start + TotalSize(blocks) && buf[..next] == old(buf[..start]) + Layout(blocks)
  {
    hide BlockBytes, BlockSize;
    next := start;
    assert blocks[0..] == blocks;
    for i := 0 to |blocks|
      invariant next + TotalSize(blocks[i..]) == start + TotalSize(blocks)
      invariant buf[..next] + Layout(blocks[i..]) == old(buf[..start]) + Layout(blocks)
    {
      ghost var before := buf[..next];
      assert blocks[i..][1..] == blocks[i + 1..] && blocks[i..][0] == blocks[i];
      next := WriteBlock(buf, next, blocks[i]);
      assert before + (BlockBytes(blocks[i]) + Layout(blocks[i + 1..])) == buf[..next] + Layout(blocks[i + 1..]);
    }
    assert buf[..next] + [] == buf[..next];
  }

  /** Every block is written once, inside the buffer, and the last one ends exactly at the computed size. */
  method SerializeInterface(conf: ParsedConf) returns (r: Result<Bytes>)
    requires IsConf(conf)
    ensures r.Err? <==> conf.peers == []
    ensures r.Ok? ==> r.value == Buffer(conf)
  {
    hide Layout, TotalSize, IsConf, Blocks;
    if conf.peers == [] { return Err("no peers defined"); }
    var blocks := BlocksOf(conf);
    var size := SizeOf(blocks);
    var buf := new byte[size](i => 0);
    var iface := IfaceOf(conf);
    var offset: nat := Append(buf, 0, iface);
    offset := WriteBlocks(buf, offset, blocks);
    assert offset == buf.Length && buf[..offset] == buf[..];
    return Ok(buf[..]);
  }

  // ----- Reading -----

  datatype PeerStats = PeerStats(rxBytes: nat, txBytes: nat, lastHandshake: Option<nat>)

  const EPOCH_DIFFERENCE: nat := 11_644_473_600_000_000_000

  /** Nanoseconds since 1970, as the source computes them in 64 bits; zero means no handshake yet. */
  function HandshakeTime(epoch: nat): Option<nat>
  {
    if epoch == 0 then None
    else Some((if epoch > EPOCH_DIFFERENCE then epoch - EPOCH_DIFFERENCE else 0) * 100 % (U32 * U32))
  }

  /** The difference between the two epochs in the stamp's own unit of 100 nanoseconds. */
  const TICKS_TO_1970: nat := 116_444_736_000_000_000

  /**
    What the wrong unit costs: every stamp up to the constant, some 36 900 years
    of them, is reported as 1970. Of the stamps whose time is meant to be counted
    from 1970 on, only that of 1970 itself is reported as intended; if earlier
    ones are meant to be cut off at 1970 too, those are reported as intended as
    well, and no later one is.
  */
  lemma HandshakeTimeIff(stamp: nat)
    requires 0 < stamp < U32 * U32
    ensures HandshakeTime(stamp).Some?
    ensures stamp > 11_644_473_600_000_000_000 ==>
              HandshakeTime(stamp).value == (stamp - 11_644_473_600_000_000_000) * 100 % 0x1_0000_0000_0000_0000
    ensures stamp <= EPOCH_DIFFERENCE ==> HandshakeTime(stamp) == Some(0)
    ensures HandshakeTime(stamp).value == (stamp - TICKS_TO_1970) * 100 <==> stamp == TICKS_TO_1970
    ensures HandshakeTime(stamp).value == (if stamp > TICKS_TO_1970 then stamp - TICKS_TO_1970 else 0) * 100
            <==> stamp <= TICKS_TO_1970
  {
    assert HandshakeTime(stamp).value < U32 * U32;
  }

  function StatsAt(bytes: Bytes, offset: nat): PeerStats
    requires offset + PEER_SIZE <= |bytes|
  {
    PeerStats(Get64(bytes, offset + 112), Get64(bytes, offset + 104), HandshakeTime(Get64(bytes, offset + 120)))
  }

  /** The offsets at which up to `n` peers are read; a peer that does not fit ends the walk. */
  function Visited(bytes: Bytes, offset: nat, n: nat): (offsets: seq<nat>)
    decreases n
    ensures |offsets| <= n && forall i | 0 <= i < |offsets| :: offsets[i] + PEER_SIZE <= |bytes|
  {
    if n == 0 || offset + PEER_SIZE > |bytes| then []
    else [offset] + Visited(bytes, offset + PEER_SIZE + Get32(bytes, offset + 128) * ALLOWED_IP_SIZE, n - 1)
  }

  function StatsOf(bytes: Bytes, offsets: seq<nat>): seq<PeerStats>
    requires forall i | 0 <= i < |offsets| :: offsets[i] + PEER_SIZE <= |bytes|
  {
    seq(|offsets|, i requires 0 <= i < |offsets| => StatsAt(bytes, offsets[i]))
  }

  method ParseConfigBuffer(bytes: Bytes) returns (peers: seq<PeerStats>)
    ensures peers == if |bytes| < INTERFACE_SIZE then []
                     else StatsOf(bytes, Visited(bytes, INTERFACE_SIZE, Get32(bytes, 72)))
  {
    if |bytes| < INTERFACE_SIZE { return []; }
    var peerCount := Get32(bytes, 72);
    var offset: nat := INTERFACE_SIZE;
    peers := [];
    ghost var seen: seq<nat> := [];
    for i := 0 to peerCount
      invariant Visited(bytes, INTERFACE_SIZE, peerCount) == seen + Visited(bytes, offset, peerCount - i)
      invariant |peers| == |seen|
      invariant forall j | 0 <= j < |seen| :: seen[j] + PEER_SIZE <= |bytes| && peers[j] == StatsAt(bytes, seen[j])
    {
      hide Get32, Get64, StatsAt;
      if offset + PEER_SIZE > |bytes| { break; }
      var allowedCount := Get32(bytes, offset + 128);
      ghost var at, rest := offset, Visited(bytes, offset, peerCount - i);
      peers := peers + [StatsAt(bytes, offset)];
      offset := offset + PEER_SIZE + allowedCount * ALLOWED_IP_SIZE;
      assert rest == [at] + Visited(bytes, offset, peerCount - i - 1);
      assert seen + rest == (seen + [at]) + Visited(bytes, offset, peerCount - i - 1);
      seen := seen + [at];
    }
  }

  // ----- Reading what was written -----

  /** Where each block starts. */
  function Starts(bs: seq<PeerBlock>, offset: nat): seq<nat>
  {
    if bs == [] then [] else [offset] + Starts(bs[1..], offset + BlockSize(bs[0]))
  }

  lemma ReadsPeer(bytes: Bytes, offset: nat, p: NativePeer)
    requires At(bytes, offset, PeerBytes(p))
    ensures Get32(bytes, offset + 128) == p.allowedCount
    ensures StatsAt(bytes, offset) == PeerStats(p.rxBytes, p.txBytes, HandshakeTime(p.lastHandshake))
  {
    hide HandshakeTime, Get32, Get64, PeerHead;
    var tx, rx, hs, count := Put64(p.txBytes), Put64(p.rxBytes), Put64(p.lastHandshake), Put32(p.allowedCount);
    AtParts(bytes, offset, PeerHead(p), PeerTail(p));
    AtParts(bytes, offset + 104, tx + rx + hs + count, Zeros(4));
    AtParts(bytes, offset + 104, tx + rx + hs, count);
    AtParts(bytes, offset + 104, tx + rx, hs);
    AtParts(bytes, offset + 104, tx, rx);
    At64(bytes, offset + 104, tx, 0);
    At64(bytes, offset + 112, rx, 0);
    At64(bytes, offset + 120, hs, 0);
    At32(bytes, offset + 128, count, 0);
  }

  ghost predicate Walkable(b: PeerBlock)
  {
    b.peer.allowedCount == |b.allowed|
  }

  /** What a peer's counters mean to the reader. */
  function StatsOfPeer(p: NativePeer): PeerStats
  {
    PeerStats(p.rxBytes, p.txBytes, HandshakeTime(p.lastHandshake))
  }

  lemma ReadsBlock(bytes: Bytes, offset: nat, b: PeerBlock)
    requires Walkable(b) && At(bytes, offset, BlockBytes(b))
    ensures |BlockBytes(b)| == BlockSize(b) && offset + PEER_SIZE <= |bytes|
    ensures offset + PEER_SIZE + Get32(bytes, offset + 128) * ALLOWED_IP_SIZE == offset + BlockSize(b)
    ensures StatsAt(bytes, offset) == StatsOfPeer(b.peer)
  {
    hide StatsAt, PeerBytes, Get32, HandshakeTime, IsNative;
    AtParts(bytes, offset, PeerBytes(b.peer), Flatten(b.allowed));
    FlattenSize(b.allowed);
    ReadsPeer(bytes, offset, b.peer);
  }

  /** Walking laid-out blocks visits every peer, each at its own offset. */
  lemma {:induction false} WalksLayout(bytes: Bytes, offset: nat, bs: seq<PeerBlock>)
    requires (forall i | 0 <= i < |bs| :: Walkable(bs[i])) && At(bytes, offset, Layout(bs))
    ensures Visited(bytes, offset, |bs|) == Starts(bs, offset) && |Starts(bs, offset)| == |bs|
    decreases |bs|
  {
    hide StatsAt, BlockBytes, Get32, StatsOfPeer, BlockSize, At, Walkable;
    if bs != [] {
      AtParts(bytes, offset, BlockBytes(bs[0]), Layout(bs[1..]));
      ReadsBlock(bytes, offset, bs[0]);
      WalksLayout(bytes, offset + BlockSize(bs[0]), bs[1..]);
    }
  }

  lemma {:induction false} ReadsLayout(bytes: Bytes, offset: nat, bs: seq<PeerBlock>, i: nat)
    requires (forall j | 0 <= j < |bs| :: Walkable(bs[j])) && At(bytes, offset, Layout(bs))
    requires i < |bs| == |Starts(bs, offset)|
    ensures Starts(bs, offset)[i] + PEER_SIZE <= |bytes|
    ensures StatsAt(bytes, Starts(bs, offset)[i]) == StatsOfPeer(bs[i].peer)
    decreases |bs|
  {
    hide StatsAt, BlockBytes, Get32, StatsOfPeer, BlockSize, At, Walkable;
    AtParts(bytes, offset, BlockBytes(bs[0]), Layout(bs[1..]));
    ReadsBlock(bytes, offset, bs[0]);
    if i > 0 { ReadsLayout(bytes, offset + BlockSize(bs[0]), bs[1..], i - 1); }
  }

  /**
    The statistics walk over a buffer laid out like a serialised configuration,
    whatever counters the driver has filled in since: one result per peer, in
    order, read at the peer's own offset; the early exit is never taken.
  */
  lemma WalkSeesEveryPeer(iface: Bytes, bs: seq<PeerBlock>)
    requires |iface| == INTERFACE_SIZE && Get32(iface, 72) == |bs|
    requires forall i | 0 <= i < |bs| :: Walkable(bs[i])
    ensures var bytes := iface + Layout(bs);
            && Visited(bytes, INTERFACE_SIZE, Get32(bytes, 72)) == Starts(bs, INTERFACE_SIZE)
            && |Visited(bytes, INTERFACE_SIZE, Get32(bytes, 72))| == |bs|
            && StatsOf(bytes, Visited(bytes, INTERFACE_SIZE, Get32(bytes, 72)))
               == seq(|bs|, i requires 0 <= i < |bs| => StatsOfPeer(bs[i].peer))
  {
    hide StatsAt, StatsOfPeer, Layout;
    var bytes := iface + Layout(bs);
    assert At(bytes, 0, iface) && At(bytes, INTERFACE_SIZE, Layout(bs));
    At32(bytes, 0, iface, 72);
    WalksLayout(bytes, INTERFACE_SIZE, bs);
    forall i | 0 <= i < |bs| ensures StatsAt(bytes, Starts(bs, INTERFACE_SIZE)[i]) == StatsOfPeer(bs[i].peer) {
      ReadsLayout(bytes, INTERFACE_SIZE, bs, i);
    }
  }

  /** In particular for a freshly serialised configuration, provided its counts fit in 32 bits. */
  lemma SerializedIsWalked(conf: ParsedConf)
    requires IsConf(conf) && |conf.peers| < U32 && forall i | 0 <= i < |conf.peers| :: |conf.peers[i].allowedIps| < U32
    ensures var bytes, bs := Buffer(conf), BlocksOf(conf);
            && |bytes| == INTERFACE_SIZE + TotalSize(bs)
            && Visited(bytes, INTERFACE_SIZE, Get32(bytes, 72)) == Starts(bs, INTERFACE_SIZE)
            && |Visited(bytes, INTERFACE_SIZE, Get32(bytes, 72))| == |conf.peers|
  {
    hide Layout, IfaceOf, BlocksOf, TotalSize, Get32, Visited, Starts;
    LayoutSize(BlocksOf(conf));
    WalkSeesEveryPeer(IfaceOf(conf), BlocksOf(conf));
  }

  // ----- Nothing is lost -----

  lemma SplitSame(a: Bytes, b: Bytes, c: Bytes, d: Bytes)
    requires a + b == c + d && (|a| == |c| || |b| == |d|)
    ensures a == c && b == d
  {
    assert a == (a + b)[..|a|] && b == (a + b)[|a|..];
    assert |a| == |c|;
    assert c == (c + d)[..|a|] && d == (c + d)[|a|..];
  }

  lemma Put64Same(m: nat, n: nat)
    requires m < U32 * U32 && n < U32 * U32 && Put64(m) == Put64(n)
    ensures m == n
  {
    assert Get64(Put64(m), 0) == m && Get64(Put64(n), 0) == n;
  }

  lemma Put32Same(m: nat, n: nat)
    requires m < U32 && n < U32 && Put32(m) == Put32(n)
    ensures m == n
  {
    assert Get32(Put32(m), 0) == m && Get32(Put32(n), 0) == n;
  }

  lemma Put16Same(m: nat, n: nat)
    requires m < 0x1_0000 && n < 0x1_0000 && Put16(m) == Put16(n)
    ensures m == n
  {
    assert Get16(Put16(m), 0) == m && Get16(Put16(n), 0) == n;
  }

  lemma HeadSame(p: NativePeer, q: NativePeer)
    requires PeerHead(p) == PeerHead(q)
    ensures p.flags == q.flags && p.publicKey == q.publicKey && p.presharedKey == q.presharedKey
    ensures p.keepalive == q.keepalive && p.endpoint == q.endpoint
  {
    hide Put32, Put16, Zeros;
    var p1, q1 := Put32(p.flags) + Zeros(4), Put32(q.flags) + Zeros(4);
    var p2, q2 := p1 + p.publicKey, q1 + q.publicKey;
    var p3, q3 := p2 + p.presharedKey, q2 + q.presharedKey;
    var p4, q4 := p3 + Put16(p.keepalive), q3 + Put16(q.keepalive);
    SplitSame(p4 + Zeros(2), p.endpoint, q4 + Zeros(2), q.endpoint);
    SplitSame(p4, Zeros(2), q4, Zeros(2));
    SplitSame(p3, Put16(p.keepalive), q3, Put16(q.keepalive));
    SplitSame(p2, p.presharedKey, q2, q.presharedKey);
    SplitSame(p1, p.publicKey, q1, q.publicKey);
    SplitSame(Put32(p.flags), Zeros(4), Put32(q.flags), Zeros(4));
    Put32Same(p.flags, q.flags);
    Put16Same(p.keepalive, q.keepalive);
  }

  lemma TailSame(p: NativePeer, q: NativePeer)
    requires PeerTail(p) == PeerTail(q)
    ensures p.txBytes == q.txBytes && p.rxBytes == q.rxBytes && p.lastHandshake == q.lastHandshake
    ensures p.allowedCount == q.allowedCount
  {
    hide Put64, Put32, Zeros;
    var p1, q1 := Put64(p.txBytes) + Put64(p.rxBytes), Put64(q.txBytes) + Put64(q.rxBytes);
    var p2, q2 := p1 + Put64(p.lastHandshake), q1 + Put64(q.lastHandshake);
    SplitSame(p2 + Put32(p.allowedCount), Zeros(4), q2 + Put32(q.allowedCount), Zeros(4));
    SplitSame(p2, Put32(p.allowedCount), q2, Put32(q.allowedCount));
    SplitSame(p1, Put64(p.lastHandshake), q1, Put64(q.lastHandshake));
    SplitSame(Put64(p.txBytes), Put64(p.rxBytes), Put64(q.txBytes), Put64(q.rxBytes));
    Put64Same(p.txBytes, q.txBytes);
    Put64Same(p.rxBytes, q.rxBytes);
    Put64Same(p.lastHandshake, q.lastHandshake);
    Put32Same(p.allowedCount, q.allowedCount);
  }

  lemma PeerBytesSame(p: NativePeer, q: NativePeer)
    requires PeerBytes(p) == PeerBytes(q)
    ensures p == q
  {
    SplitSame(PeerHead(p), PeerTail(p), PeerHead(q), PeerTail(q));
    HeadSame(p, q);
    TailSame(p, q);
  }

  lemma {:induction false} FlattenSame(a: seq<AllowedIp>, b: seq<AllowedIp>)
    requires |a| == |b| && Flatten(a) == Flatten(b)
    ensures a == b
  {
    if a != [] {
      SplitSame(a[0], Flatten(a[1..]), b[0], Flatten(b[1..]));
      FlattenSame(a[1..], b[1..]);
      assert a == [a[0]] + a[1..] && b == [b[0]] + b[1..];
    }
  }

  /** A block tells from its own octets where it ends. */
  lemma BlockSame(b: PeerBlock, bRest: Bytes, c: PeerBlock, cRest: Bytes)
    requires Walkable(b) && Walkable(c) && BlockBytes(b) + bRest == BlockBytes(c) + cRest
    ensures b == c && bRest == cRest
  {
    hide PeerBytes, Flatten;
    assert BlockBytes(b) + bRest == PeerBytes(b.peer) + (Flatten(b.allowed) + bRest);
    assert BlockBytes(c) + cRest == PeerBytes(c.peer) + (Flatten(c.allowed) + cRest);
    SplitSame(PeerBytes(b.peer), Flatten(b.allowed) + bRest, PeerBytes(c.peer), Flatten(c.allowed) + cRest);
    PeerBytesSame(b.peer, c.peer);
    FlattenSize(b.allowed);
    FlattenSize(c.allowed);
    SplitSame(Flatten(b.allowed), bRest, Flatten(c.allowed), cRest);
    FlattenSame(b.allowed, c.allowed);
  }

  /** Equally many blocks that lay out the same are the same. */
  lemma {:induction false} LayoutSame(bs: seq<PeerBlock>, cs: seq<PeerBlock>)
    requires |bs| == |cs| && (forall i | 0 <= i < |bs| :: Walkable(bs[i]) && Walkable(cs[i]))
    requires Layout(bs) == Layout(cs)
    ensures bs == cs
  {
    if bs != [] {
      hide BlockBytes, Walkable;
      BlockSame(bs[0], Layout(bs[1..]), cs[0], Layout(cs[1..]));
      LayoutSame(bs[1..], cs[1..]);
      assert bs == [bs[0]] + bs[1..] && cs == [cs[0]] + cs[1..];
    }
  }

  lemma AllowedIpSame(a: IpNet, b: IpNet)
    requires IsIp(a.base) && a.prefixLen < 256 && IsIp(b.base) && b.prefixLen < 256
    requires AllowedIpBytes(a) == AllowedIpBytes(b)
    ensures a == b
  {
    hide Put16, Zeros;
    var aLen: byte, bLen: byte := a.prefixLen, b.prefixLen;
    var aOctets, bOctets := a.base.octets + Zeros(16 - |a.base.octets|), b.base.octets + Zeros(16 - |b.base.octets|);
    var aFamily, bFamily := if a.base.V4? then AF_INET else AF_INET6, if b.base.V4? then AF_INET else AF_INET6;
    SplitSame(aOctets + Put16(aFamily) + [aLen], Zeros(5), bOctets + Put16(bFamily) + [bLen], Zeros(5));
    SplitSame(aOctets + Put16(aFamily), [aLen], bOctets + Put16(bFamily), [bLen]);
    SplitSame(aOctets, Put16(aFamily), bOctets, Put16(bFamily));
    Put16Same(aFamily, bFamily);
    SplitSame(a.base.octets, Zeros(16 - |a.base.octets|), b.base.octets, Zeros(16 - |b.base.octets|));
    assert [aLen][0] == [bLen][0];
  }

  lemma EndpointSame(a: SocketAddr, b: SocketAddr)
    requires IsSocketAddr(a) && IsSocketAddr(b) && EndpointBytes(a) == EndpointBytes(b)
    ensures a == b
  {
    hide Put16, Put32, Zeros;
    var aFamily, bFamily := if a.ip.V4? then AF_INET else AF_INET6, if b.ip.V4? then AF_INET else AF_INET6;
    var aPort: Bytes, bPort: Bytes := [a.port / 256, a.port % 256], [b.port / 256, b.port % 256];
    var aRest := if a.ip.V4? then a.ip.octets + Zeros(20) else Zeros(4) + a.ip.octets + Put32(a.scope);
    var bRest := if b.ip.V4? then b.ip.octets + Zeros(20) else Zeros(4) + b.ip.octets + Put32(b.scope);
    assert EndpointBytes(a) == Put16(aFamily) + aPort + aRest && EndpointBytes(b) == Put16(bFamily) + bPort + bRest;
    SplitSame(Put16(aFamily) + aPort, aRest, Put16(bFamily) + bPort, bRest);
    SplitSame(Put16(aFamily), aPort, Put16(bFamily), bPort);
    Put16Same(aFamily, bFamily);
    assert aPort[0] == bPort[0] && aPort[1] == bPort[1];
    if a.ip.V4? {
      SplitSame(a.ip.octets, Zeros(20), b.ip.octets, Zeros(20));
    } else {
      SplitSame(Zeros(4) + a.ip.octets, Put32(a.scope), Zeros(4) + b.ip.octets, Put32(b.scope));
      SplitSame(Zeros(4), a.ip.octets, Zeros(4), b.ip.octets);
      Put32Same(a.scope, b.scope);
    }
  }

  /** A peer can be told from its native blocks. */
  lemma PeerToNativeSame(p: ParsedPeer, q: ParsedPeer)
    requires IsPeer(p) && IsPeer(q) && PeerToNative(p) == PeerToNative(q)
    ensures p == q
  {
    var b := PeerToNative(p);
    if p.endpoint.Some? { EndpointSame(p.endpoint.value, q.endpoint.value); }
    forall i | 0 <= i < |p.allowedIps| ensures p.allowedIps[i] == q.allowedIps[i] {
      assert b.allowed[i] == AllowedIpBytes(p.allowedIps[i]) == AllowedIpBytes(q.allowedIps[i]);
      AllowedIpSame(p.allowedIps[i], q.allowedIps[i]);
    }
    assert p.allowedIps == q.allowedIps;
    hide AllowedIpBytes, EndpointBytes;
  }

  /** What the interface block holds besides the number of peers. */
  lemma InterfaceSame(flags: nat, port: nat, key: Key, count: nat, flags': nat, port': nat, key': Key, count': nat)
    requires flags < U32 && port < 0x1_0000 && count < U32 && flags' < U32 && port' < 0x1_0000 && count' < U32
    requires InterfaceBytes(flags, port, key, count) == InterfaceBytes(flags', port', key', count')
    ensures flags == flags' && port == port' && key == key' && count == count'
  {
    hide Put32, Put16, Zeros;
    var a1, b1 := Put32(flags) + Put16(port), Put32(flags') + Put16(port');
    var a2, b2 := a1 + Zeros(2) + key, b1 + Zeros(2) + key';
    SplitSame(a2 + Zeros(32), Put32(count), b2 + Zeros(32), Put32(count'));
    SplitSame(a2, Zeros(32), b2, Zeros(32));
    SplitSame(a1 + Zeros(2), key, b1 + Zeros(2), key');
    SplitSame(a1, Zeros(2), b1, Zeros(2));
    SplitSame(Put32(flags), Put16(port), Put32(flags'), Put16(port'));
    Put32Same(flags, flags');
    Put16Same(port, port');
    Put32Same(count, count');
  }

  /** Serialising loses no key, port or peer: configurations with 32-bit counts and equal buffers are equal. */
  lemma BufferLosesNothing(conf: ParsedConf, other: ParsedConf)
    requires IsConf(conf) && |conf.peers| < U32 && forall i | 0 <= i < |conf.peers| :: |conf.peers[i].allowedIps| < U32
    requires IsConf(other) && |other.peers| < U32
             && forall i | 0 <= i < |other.peers| :: |other.peers[i].allowedIps| < U32
    requires Buffer(conf) == Buffer(other)
    ensures conf == other
  {
    hide Layout, IfaceOf, BlocksOf;
    SplitSame(IfaceOf(conf), Layout(BlocksOf(conf)), IfaceOf(other), Layout(BlocksOf(other)));
    IfaceOfSame(conf, other);
    LayoutSame(BlocksOf(conf), BlocksOf(other));
    BlocksOfSame(conf, other);
  }

  lemma IfaceOfSame(conf: ParsedConf, other: ParsedConf)
    requires IsConf(conf) && IsConf(other) && |conf.peers| < U32 && |other.peers| < U32
    requires IfaceOf(conf) == IfaceOf(other)
    ensures conf.privateKey == other.privateKey && conf.listenPort == other.listenPort && |conf.peers| == |other.peers|
  {
    hide InterfaceBytes, IsPeer, InterfaceFlags, KeyOr0, NatOr0, Get32;
    assert |conf.peers| % U32 == |conf.peers| && |other.peers| % U32 == |other.peers|;
    FlagsAreSmall(conf);
    FlagsAreSmall(other);
    InterfaceSame(InterfaceFlags(conf), NatOr0(conf.listenPort), KeyOr0(conf.privateKey), |conf.peers|,
                  InterfaceFlags(other), NatOr0(other.listenPort), KeyOr0(other.privateKey), |other.peers|);
    FieldsSame(conf, other);
  }

  lemma FlagsAreSmall(conf: ParsedConf)
    ensures InterfaceFlags(conf) < U32
    ensures IsU16(conf.listenPort) ==> NatOr0(conf.listenPort) < 0x1_0000
  {
  }

  /** The flags tell an absent field from one that is zero. */
  lemma FieldsSame(conf: ParsedConf, other: ParsedConf)
    requires InterfaceFlags(conf) == InterfaceFlags(other) && NatOr0(conf.listenPort) == NatOr0(other.listenPort)
    requires KeyOr0(conf.privateKey) == KeyOr0(other.privateKey)
    ensures conf.privateKey == other.privateKey && conf.listenPort == other.listenPort
  {
    assert conf.privateKey.Some? == other.privateKey.Some? && conf.listenPort.Some? == other.listenPort.Some?;
  }

  lemma BlocksOfSame(conf: ParsedConf, other: ParsedConf)
    requires IsConf(conf) && IsConf(other) && |conf.peers| == |other.peers| && BlocksOf(conf) == BlocksOf(other)
    ensures conf.peers == other.peers
  {
    hide PeerToNative, IsPeer;
    var bs, cs := Blocks(conf.peers), Blocks(other.peers);
    forall i | 0 <= i < |conf.peers| ensures conf.peers[i] == other.peers[i] {
      assert bs[i] == PeerToNative(conf.peers[i]) && cs[i] == PeerToNative(other.peers[i]);
      PeerToNativeSame(conf.peers[i], other.peers[i]);
    }
  }
}
