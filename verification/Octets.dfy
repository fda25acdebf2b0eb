/** Octet strings standing inside longer ones, and little-endian numbers. */
module Octets {

  import opened Common

  /** The octets `b` stand in the message at `off`. */
  ghost predicate At(msg: Bytes, off: nat, b: Bytes)
  {
    off + |b| <= |msg| && msg[off..off + |b|] == b
  }

  lemma AtParts(msg: Bytes, off: nat, a: Bytes, b: Bytes)
    requires At(msg, off, a + b)
    ensures At(msg, off, a) && At(msg, off + |a|, b)
  {
    var ab := msg[off..off + |a + b|];
    assert msg[off..off + |a|] == ab[..|a|] && msg[off + |a|..off + |a| + |b|] == ab[|a|..];
  }

  lemma AtIndex(msg: Bytes, off: nat, b: Bytes, i: nat)
    requires At(msg, off, b) && i < |b|
    ensures msg[off + i] == b[i]
  {
    assert msg[off..off + |b|][i] == msg[off + i];
  }

  /** A little-endian number of 16 bits. */
  function Get16(b: Bytes, off: nat): (n: nat)
    requires off + 2 <= |b|
    ensures n < 0x1_0000
  {
    b[off] + (b[off + 1] as int) * 256
  }

  function Put16(n: nat): (b: Bytes)
    requires n < 0x1_0000
    ensures |b| == 2 && Get16(b, 0) == n
  {
    [n % 256, n / 256]
  }

  /** A little-endian number of 32 bits. */
  function Get32(b: Bytes, off: nat): (n: nat)
    requires off + 4 <= |b|
    ensures n < 0x1_0000_0000
  {
    Get16(b, off) + Get16(b, off + 2) * 0x1_0000
  }

  function Put32(n: nat): (b: Bytes)
    requires n < 0x1_0000_0000
    ensures |b| == 4 && Get32(b, 0) == n
  {
    Put16(n % 0x1_0000) + Put16(n / 0x1_0000)
  }

  /** A little-endian number of 64 bits. */
  function Get64(b: Bytes, off: nat): (n: nat)
    requires off + 8 <= |b|
  {
    Get32(b, off) + Get32(b, off + 4) * U32
  }

  function Put64(n: nat): (b: Bytes)
    requires n < U32 * U32
    ensures |b| == 8 && Get64(b, 0) == n
  {
    assert n / U32 < U32;
    var low, high := Put32(n % U32), Put32(n / U32);
    assert (low + high)[0..4] == low && (low + high)[4..8] == high;
    low + high
  }

  lemma At16(msg: Bytes, off: nat, b: Bytes, i: nat)
    requires At(msg, off, b) && i + 2 <= |b|
    ensures Get16(msg, off + i) == Get16(b, i)
  {
    AtIndex(msg, off, b, i);
    AtIndex(msg, off, b, i + 1);
  }

  lemma At32(msg: Bytes, off: nat, b: Bytes, i: nat)
    requires At(msg, off, b) && i + 4 <= |b|
    ensures Get32(msg, off + i) == Get32(b, i)
  {
    AtIndex(msg, off, b, i);
    AtIndex(msg, off, b, i + 1);
    AtIndex(msg, off, b, i + 2);
    AtIndex(msg, off, b, i + 3);
  }

  lemma At64(msg: Bytes, off: nat, b: Bytes, i: nat)
    requires At(msg, off, b) && i + 8 <= |b|
    ensures Get64(msg, off + i) == Get64(b, i)
  {
    At32(msg, off, b, i);
    At32(msg, off, b, i + 4);
  }

  /** The first octet is the low one, here and in more of them. */
  lemma HostOrder(a: byte, b: byte, c: byte, d: byte, high: Bytes)
    requires |high| == 4
    ensures Get16([a, b], 0) == a + 256 * b
    ensures Get32([a, b, c, d], 0) == a + 256 * b + 0x1_0000 * c + 0x100_0000 * d
    ensures Get64([a, b, c, d] + high, 0) == Get32([a, b, c, d], 0) + 0x1_0000_0000 * Get32(high, 0)
  {
    var all := [a, b, c, d] + high;
    assert all[0] == a && all[1] == b && all[2] == c && all[3] == d;
    assert all[4] == high[0] && all[5] == high[1] && all[6] == high[2] && all[7] == high[3];
  }

  function Zeros(n: nat): (b: Bytes)
    ensures |b| == n
  {
    seq(n, i => 0)
  }
}
