/** Direction-independent keys of flows.  Addresses are in network byte order, as the packets carry them. */
module FlowKeys {
  import opened Bytes

  /** Number of buckets of the flow table and of the pin table. */
  const TABLE_SIZE := 16384

  datatype Tuple = Tuple(srcIp: uint32, dstIp: uint32, srcPort: uint16, dstPort: uint16)
  {
    /** The same connection seen from the other end. */
    function Swapped(): Tuple { Tuple(dstIp, srcIp, dstPort, srcPort) }
  }

  function ByteOf(x: uint32, i: nat): uint8
    requires i < 4
  {
    if i == 0 then x % 0x100
    else if i == 1 then x / 0x100 % 0x100
    else if i == 2 then x / 0x1_0000 % 0x100
    else x / 0x100_0000
  }

  /** Reverses the byte order of an address. */
  function Ntohl(x: uint32): uint32
  {
    ByteOf(x, 0) * 0x100_0000 + ByteOf(x, 1) * 0x1_0000 + ByteOf(x, 2) * 0x100 + ByteOf(x, 3)
  }

  lemma FromBytes(x: uint32)
    ensures x == ByteOf(x, 3) * 0x100_0000 + ByteOf(x, 2) * 0x1_0000 + ByteOf(x, 1) * 0x100 + ByteOf(x, 0)
  {}

  lemma BytesUnique(a0: uint8, a1: uint8, a2: uint8, a3: uint8, b0: uint8, b1: uint8, b2: uint8, b3: uint8)
    requires a0 * 0x100_0000 + a1 * 0x1_0000 + a2 * 0x100 + a3 == b0 * 0x100_0000 + b1 * 0x1_0000 + b2 * 0x100 + b3
    ensures a0 == b0 && a1 == b1 && a2 == b2 && a3 == b3
  {}

  /** Different addresses stay different. */
  lemma NtohlInjective(x: uint32, y: uint32)
    requires Ntohl(x) == Ntohl(y)
    ensures x == y
  {
    hide ByteOf;
    FromBytes(x);
    FromBytes(y);
    BytesUnique(ByteOf(x, 0), ByteOf(x, 1), ByteOf(x, 2), ByteOf(x, 3),
                ByteOf(y, 0), ByteOf(y, 1), ByteOf(y, 2), ByteOf(y, 3));
  }

  /** The end with the smaller address (then port) comes first. */
  function Normalized(t: Tuple): Tuple
  {
    var a, b := Ntohl(t.srcIp), Ntohl(t.dstIp);
    if a > b || (a == b && t.srcPort > t.dstPort) then t.Swapped() else t
  }

  /** Both directions of a connection have the same key, and no two connections share one. */
  lemma NormalizedIff(t: Tuple, u: Tuple)
    ensures Normalized(t) == Normalized(u) <==> t == u || t == u.Swapped()
  {
    hide Ntohl;
    if Ntohl(t.srcIp) == Ntohl(t.dstIp) {
      NtohlInjective(t.srcIp, t.dstIp);
    }
    if Ntohl(u.srcIp) == Ntohl(u.dstIp) {
      NtohlInjective(u.srcIp, u.dstIp);
    }
  }

  /** The address pair alone, in normal order. */
  function NormalizedIps(src: uint32, dst: uint32): (uint32, uint32)
  {
    if Ntohl(src) > Ntohl(dst) then (dst, src) else (src, dst)
  }

  lemma NormalizedIpsIff(a: uint32, b: uint32, c: uint32, d: uint32)
    ensures NormalizedIps(a, b) == NormalizedIps(c, d) <==> (a == c && b == d) || (a == d && b == c)
  {
    hide Ntohl;
    if Ntohl(a) == Ntohl(b) {
      NtohlInjective(a, b);
    }
    if Ntohl(c) == Ntohl(d) {
      NtohlInjective(c, d);
    }
  }

  // --- bucket hashes -------------------------------------------------------------------

  function Mix(h: bv32): bv32
  {
    var a := (h ^ (h >> 16)) * 0x85ebca6b;
    var b := (a ^ (a >> 13)) * 0xc2b2ae35;
    b ^ (b >> 16)
  }

  function TupleBits(t: Tuple, proto: uint8): bv32
  {
    (t.srcIp as bv32 ^ t.dstIp as bv32) ^ ((t.srcPort as bv32 << 16) | t.dstPort as bv32) ^ (proto as bv32)
  }

  function TupleHash(t: Tuple, proto: uint8): (h: nat)
    ensures h < TABLE_SIZE
  {
    Mix(TupleBits(t, proto)) as int % TABLE_SIZE
  }

  function IpsHash(a: uint32, b: uint32): (h: nat)
    ensures h < TABLE_SIZE
  {
    Mix(a as bv32 ^ b as bv32) as int % TABLE_SIZE
  }
}
