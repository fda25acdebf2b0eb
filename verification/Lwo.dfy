/** The header obfuscation of the LWO transport. Octets are bit vectors here, because they are xored. */
module Lwo {

  import opened Common

  type Packet = seq<bv8>

  type Key = k: seq<bv8> | |k| == 32 witness seq(32, _ => 0)

  const OBFUSCATION_BIT: bv8 := 0x80

  /** How much of a packet of a type is header; the types are WireGuard's four message types. */
  function HeaderSize(messageType: bv8): Option<nat>
  {
    if messageType == 1 then Some(148)
    else if messageType == 2 then Some(92)
    else if messageType == 3 then Some(64)
    else if messageType == 4 then Some(32)
    else None
  }

  /** The header of a packet whose type octet is masked with `keyByte`, if the packet is recognised and long enough. */
  function Header(packet: Packet, keyByte: bv8): (r: Option<nat>)
    ensures r.Some? ==> 32 <= r.value <= |packet|
  {
    if packet == [] then None
    else
      var size := HeaderSize(packet[0] ^ keyByte);
      if size.Some? && size.value <= |packet| then size else None
  }

  /** The first `n` octets xored with the repeated key. */
  function Xored(packet: Packet, key: Key, n: nat): (r: Packet)
    requires n <= |packet|
    ensures |r| == |packet|
  {
    seq(|packet|, i requires 0 <= i < |packet| => if i < n then packet[i] ^ key[i % 32] else packet[i])
  }

  function Obfuscated(packet: Packet, key: Key, random: bv8): Packet
  {
    var header := Header(packet, 0);
    if header.None? then packet else Xored(packet, key, header.value)[1 := random | OBFUSCATION_BIT]
  }

  function Deobfuscated(packet: Packet, key: Key): Packet
  {
    var header := Header(packet, key[0]);
    if header.None? then packet else Xored(packet, key, header.value)[1 := 0]
  }

  method XorBytes(packet: array<bv8>, n: nat, key: Key)
    requires n <= packet.Length
    modifies packet
    ensures packet[..] == Xored(old(packet[..]), key, n)
    ensures forall i | 0 <= i < packet.Length ::
              packet[i] == if i < n then old(packet[i]) ^ key[i % 32] else old(packet[i])
  {
    for i := 0 to n
      invariant forall j | 0 <= j < packet.Length ::
                  packet[j] == if j < i then old(packet[j]) ^ key[j % 32] else old(packet[j])
    {
      packet[i] := packet[i] ^ key[i % 32];
    }
  }

  /** `draw` is the generator's next 32-bit number; the octet made from it is below 255. */
  method Obfuscate(draw: nat, packet: array<bv8>, key: Key)
    requires draw < 0x1_0000_0000
    modifies packet
    ensures packet[..] == Obfuscated(old(packet[..]), key, (draw % 255) as bv8)
  {
    var header := Header(packet[..], 0);
    var random := (draw % 255) as bv8;
    if header.Some? {
      XorBytes(packet, header.value, key);
      packet[1] := random | OBFUSCATION_BIT;
    }
  }

  method Deobfuscate(packet: array<bv8>, key: Key)
    modifies packet
    ensures packet[..] == Deobfuscated(old(packet[..]), key)
  {
    var header := Header(packet[..], key[0]);
    if header.Some? {
      XorBytes(packet, header.value, key);
      packet[1] := 0;
    }
  }

  // ----- What obfuscation promises -----

  lemma XorTwice(x: bv8, k: bv8)
    ensures (x ^ k) ^ k == x && x ^ 0 == x
  {
  }

  lemma BitIsSet(random: bv8)
    ensures (random | OBFUSCATION_BIT) & OBFUSCATION_BIT == OBFUSCATION_BIT
  {
  }

  /** The four message types with the lengths of their headers; a packet of a type is recognised if it is that long. */
  lemma RecognisedIff(packet: Packet, keyByte: bv8, n: nat)
    ensures Header(packet, keyByte) == Some(n) <==>
            && n <= |packet| && packet != []
            && var t := packet[0] ^ keyByte;
               (t == 1 && n == 148) || (t == 2 && n == 92) || (t == 3 && n == 64) || (t == 4 && n == 32)
  {
    assert packet != [] ==> HeaderSize(packet[0] ^ keyByte).Some? ==> HeaderSize(packet[0] ^ keyByte).value >= 32;
  }

  /**
    In between, the header is masked octet by octet with the repeated key, its
    second octet is the drawn one with the obfuscation bit set, and nothing past
    it has changed.
  */
  lemma ObfuscationMarksHeader(packet: Packet, key: Key, random: bv8)
    requires Header(packet, 0).Some?
    ensures var hidden := Obfuscated(packet, key, random);
            && |hidden| == |packet|
            && hidden[1] & 0x80 == 0x80 && hidden[1] == random | 0x80
            && (forall i | 0 <= i < Header(packet, 0).value && i != 1 :: hidden[i] == packet[i] ^ key[i % 32])
            && hidden[Header(packet, 0).value..] == packet[Header(packet, 0).value..]
            && Header(hidden, key[0]) == Header(packet, 0)
  {
    BitIsSet(random);
    XorTwice(packet[0], key[0]);
  }

  /** Unmasking restores a recognised packet, with its second octet cleared. */
  lemma DeobfuscateRestores(packet: Packet, key: Key, random: bv8)
    requires Header(packet, 0).Some?
    ensures Deobfuscated(Obfuscated(packet, key, random), key) == packet[1 := 0]
  {
    var hidden, n := Obfuscated(packet, key, random), Header(packet, 0).value;
    ObfuscationMarksHeader(packet, key, random);
    var shown := Deobfuscated(hidden, key);
    forall i | 0 <= i < |packet| ensures shown[i] == packet[1 := 0][i] {
      if i < n && i != 1 { XorTwice(packet[i], key[i % 32]); }
    }
  }

  /**
    When the round trip is exact: for a recognised packet if and only if its
    second octet (reserved and zero in WireGuard's own packets) is zero; any
    other packet goes through unchanged if and only if the receiver does not
    take it for a masked one.
  */
  lemma RoundTripIff(packet: Packet, key: Key, random: bv8)
    ensures Deobfuscated(Obfuscated(packet, key, random), key) == packet <==>
            if Header(packet, 0).Some? then packet[1] == 0 else Header(packet, key[0]).None?
  {
    if Header(packet, 0).Some? {
      DeobfuscateRestores(packet, key, random);
    } else if Header(packet, key[0]).Some? {
      UnmaskingChangesType(packet, key);
    }
  }

  /** A packet recognised only under the key is changed in its first octet. */
  lemma UnmaskingChangesType(packet: Packet, key: Key)
    requires Header(packet, 0).None? && Header(packet, key[0]).Some?
    ensures Deobfuscated(packet, key)[0] != packet[0]
  {
    XorTwice(packet[0], key[0]);
    assert packet[0] ^ key[0] != packet[0];
  }
}
