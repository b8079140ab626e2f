/** Inputs at which the code does less than one might expect, one for each exact condition proved elsewhere. */
module Limits {
  import opened Bytes
  import opened Ipv4
  import opened PacketCrypto
  import opened Tunnel
  import opened Config
  import opened Dispatch
  import opened Fragmentation
  import opened GracePeriod
  import InternetChecksum
  import Layer2
  import Layer3
  import Layer4
  import SizeBounds

  function Zeros(n: nat): (z: seq<uint8>)
    ensures |z| == n
  {
    seq(n, _ => 0)
  }

  // --- receivable packets ------------------------------------------------------------

  const ETHERNET: seq<uint8> := [2, 0, 0, 0, 0, 1, 2, 0, 0, 0, 0, 2, 8, 0]

  /** An IP header of n bytes from 10.0.0.1 to 10.0.0.2, before length and checksum are filled in. */
  function BareHeader(n: nat, proto: uint8): (h: seq<uint8>)
    requires 20 <= n <= 60
    ensures |h| == n
  {
    [0x40 + n / 4, 0, 0, 0, 0, 0, 0x40, 0, 64, proto, 0, 0, 10, 0, 0, 1, 10, 0, 0, 2] + Zeros(n - 20)
  }

  /** A packet without padding and with a valid header checksum. */
  function Packet(n: nat, proto: uint8, payload: seq<uint8>): seq<uint8>
    requires 20 <= n <= 60
  {
    ETHERNET + Patch(BareHeader(n, proto), n + |payload|) + payload
  }

  lemma PacketParts(n: nat, proto: uint8, payload: seq<uint8>)
    requires 20 <= n <= 60 && n % 4 == 0
    ensures var p := Packet(n, proto, payload);
            && Layer3.PayloadOffset(p) == Some(ETH + n) && |p| == ETH + n + |payload|
            && p[..ETH] == ETHERNET && p[ETH] == 0x40 + n / 4 && p[ETH + Layer3.PROTO_OFF] == proto
            && p[ETH + n..] == payload && InternetChecksum.Verifies(p[ETH..ETH + n])
  {
    hide Patch, InternetChecksum.Verifies;
    var h := BareHeader(n, proto);
    var g := Patch(h, n + |payload|);
    PatchKeeps(h, n + |payload|, 0);
    PatchKeeps(h, n + |payload|, Layer3.PROTO_OFF);
    PatchVerifies(h, n + |payload|);
    Cut(ETHERNET, g, payload);
    var p := Packet(n, proto, payload);
    assert p[ETH] == p[ETH..ETH + n][0] && p[ETH + Layer3.PROTO_OFF] == p[ETH..ETH + n][Layer3.PROTO_OFF];
    assert p[12] == p[..ETH][12] && p[13] == p[..ETH][13];
  }

  // --- checksums ---------------------------------------------------------------------

  /** Words of a header: length, id, TTL and protocol, addresses. */
  const START: seq<uint8> := [0x45, 0, 0, 20, 0xF9, 0x90, 0, 0, 64, 6]
  const ADDRESSES: seq<uint8> := [0xC0, 0xA8, 0, 1, 0xC0, 0xA8, 0, 2]

  /** A header whose other words add up to one's-complement zero, with 0xFFFF in its checksum field. */
  const ZERO_SUM: seq<uint8> := START + [0xFF, 0xFF] + ADDRESSES

  /** The receiver accepts it, and patching it changes it. */
  lemma ZeroSumHeader()
    ensures InternetChecksum.Verifies(ZERO_SUM) && WordAt(ZERO_SUM, 2) == |ZERO_SUM| && Patch(ZERO_SUM, 20) != ZERO_SUM
  {
    hide Patch, InternetChecksum.Verifies, InternetChecksum.WordSum;
    var z := START + [0, 0] + ADDRESSES;
    Cut(START, [0xFF, 0xFF], ADDRESSES);
    assert SetWord(ZERO_SUM, 10, 0) == z;
    assert InternetChecksum.WordSum(z) == 0x2_FFFD by {
      RowSums();
      InternetChecksum.WordSumThree(START, 0, 0, ADDRESSES);
    }
    assert InternetChecksum.Fold(0x2_FFFD) == 0xFFFF;
    assert WordAt(ZERO_SUM, 10) == 0xFFFF;
    VerifiesVersusCanonical(ZERO_SUM);
    PatchFixpoint(ZERO_SUM, 20);
  }

  lemma RowSums()
    ensures InternetChecksum.WordSum(START) == 0x1_7EAA
    ensures InternetChecksum.WordSum(ADDRESSES) == 0x1_8153
  {
    assert START[2..] == [0, 20, 0xF9, 0x90, 0, 0, 64, 6];
    assert START[2..][2..] == [0xF9, 0x90, 0, 0, 64, 6];
    assert START[2..][2..][2..] == [0, 0, 64, 6];
    assert START[2..][2..][2..][2..] == [64, 6];
    assert START[2..][2..][2..][2..][2..] == [];
    assert ADDRESSES[2..] == [0, 1, 0xC0, 0xA8, 0, 2];
    assert ADDRESSES[2..][2..] == [0xC0, 0xA8, 0, 2];
    assert ADDRESSES[2..][2..][2..] == [0, 2];
    assert ADDRESSES[2..][2..][2..][2..] == [];
  }

  // --- whole packets -----------------------------------------------------------------

  /** A packet of protocol 0x5C stays encrypted: decryption takes it for a fragment. */
  lemma FakeFragment(c: Cipher, s: Settings, ctx: CryptoCtx, nonce: seq<uint8>)
    requires c.Lawful() && s.Valid() && ctx.Valid() && |nonce| == s.nonceSize
    ensures var wire := Layer3.Encrypt(c, s, ctx, nonce, Packet(20, Layer3.FRAG_MAGIC, [0]));
            wire.Some? && Layer3.Decrypt(c, s, ctx, wire.value) == wire
  {
    hide Layer3.Encrypt, Layer3.Decrypt, Packet, Layer3.PayloadOffset, Open, Seal;
    PacketParts(20, Layer3.FRAG_MAGIC, [0]);
    AtLayer3(s, 20, Layer3.FRAG_MAGIC, [0]);
    Layer3.DecryptOfEncrypt(c, s, ctx, s, ctx, nonce, Packet(20, Layer3.FRAG_MAGIC, [0]));
  }

  /** A TCP segment between two ports 0 is lost in CTR mode. */
  lemma PortsZero(c: Cipher, s: Settings, ctx: CryptoCtx, nonce: seq<uint8>)
    requires c.Lawful() && s.Valid() && ctx.Valid() && |nonce| == s.nonceSize && s.mode == Ctr
    requires ctx.keys[0] == ctx.keys[1] == ctx.keys[2]
    ensures var wire := Layer3.Encrypt(c, s, ctx, nonce, Packet(20, PROTO_TCP, Zeros(20)));
            wire.Some? && Layer3.Decrypt(c, s, ctx, wire.value) == None
  {
    hide Layer3.Encrypt, Layer3.Decrypt, Packet, Layer3.PayloadOffset, Open, Seal;
    PacketParts(20, PROTO_TCP, Zeros(20));
    AtLayer3(s, 20, PROTO_TCP, Zeros(20));
    Layer3.DecryptOfEncrypt(c, s, ctx, s, ctx, nonce, Packet(20, PROTO_TCP, Zeros(20)));
    OpenRejects(c, s, ctx, nonce, Zeros(20), Layer3.PlausibleFor(PROTO_TCP));
  }

  /** Layer 3 encrypts a packet unless its payload looks like a fragment of its own. */
  lemma AtLayer3(s: Settings, n: nat, proto: uint8, payload: seq<uint8>)
    requires s.Valid() && 20 <= n <= 60 && n % 4 == 0
    requires |payload| >= s.nonceSize + 2 ==> payload[s.nonceSize + 1] != Layer3.FRAG_MAGIC
    ensures Layer3.ToEncrypt(s, Packet(n, proto, payload)) == Layer3.Payload(ETH + n)
  {
    hide Packet, Layer3.PayloadOffset;
    PacketParts(n, proto, payload);
    var p := Packet(n, proto, payload);
    if |payload| >= s.nonceSize + 2 {
      assert p[ETH + n + s.nonceSize + 1] == p[ETH + n..][s.nonceSize + 1];
    }
    Ipv4Of(p);
  }

  lemma Ipv4Of(p: seq<uint8>)
    requires Layer3.PayloadOffset(p).Some?
    ensures Layer3.IsIpv4(p) && |p| >= ETH + 20
  {}

  /** A TCP segment with 0x5C where a tunnelled packet has its protocol leaves layer 3 in clear. */
  lemma LeftInClear(c: Cipher, s: Settings, ctx: CryptoCtx, nonce: seq<uint8>)
    requires s.Valid() && ctx.Valid() && |nonce| == s.nonceSize
    ensures var p := Packet(20, PROTO_TCP, Zeros(s.nonceSize + 1) + [Layer3.FRAG_MAGIC] + Zeros(20));
            Layer3.Encrypt(c, s, ctx, nonce, p) == Some(p)
  {
    hide Packet, Layer3.PayloadOffset, Seal;
    var payload := Zeros(s.nonceSize + 1) + [Layer3.FRAG_MAGIC] + Zeros(20);
    var p := Packet(20, PROTO_TCP, payload);
    PacketParts(20, PROTO_TCP, payload);
    Ipv4Of(p);
    assert p[34 + s.nonceSize + 1] == p[34..][s.nonceSize + 1] == Layer3.FRAG_MAGIC;
  }

  /** What follows an IPv4 EtherType and starts with 08 00 is taken for the older format and loses these two bytes. */
  lemma OldFormat(c: Cipher, s: Settings, ctx: CryptoCtx, nonce: seq<uint8>)
    requires c.Lawful() && s.Valid() && ctx.Valid() && |nonce| == s.nonceSize && s.fakeEthertype != 0
    ensures var p := ETHERNET + [0x08, 0x00] + Zeros(20);
            var wire := Layer2.Encrypt(c, s, ctx, nonce, p);
            wire.Some? && Layer2.Decrypt(c, s, ctx, wire.value) != Some(p)
  {
    hide Layer2.Encrypt, Layer2.Decrypt;
    Layer2.PacketRoundTripIff(c, s, ctx, nonce, ETHERNET + [0x08, 0x00] + Zeros(20));
  }

  /** A PIM packet (protocol 103) is lost at layer 2 in CTR mode: its protocol is not on the list of the receiver. */
  lemma UnknownProtocol(c: Cipher, s: Settings, ctx: CryptoCtx, nonce: seq<uint8>)
    requires c.Lawful() && s.Valid() && ctx.Valid() && |nonce| == s.nonceSize && s.mode == Ctr && s.fakeEthertype != 0
    ensures var p := Packet(20, 103, []);
            var wire := Layer2.Encrypt(c, s, ctx, nonce, p);
            wire.Some? && Layer2.Decrypt(c, s, ctx, wire.value) != Some(p)
  {
    hide Layer2.Encrypt, Layer2.Decrypt, Packet, Layer3.PayloadOffset;
    PacketParts(20, 103, []);
    var p := Packet(20, 103, []);
    Ipv4Of(p);
    assert p[ETH..][9] == p[ETH + Layer3.PROTO_OFF] == 103;
    Layer2.PacketRoundTripIff(c, s, ctx, nonce, p);
  }

  // --- fragments ---------------------------------------------------------------------

  /** A UDP datagram of 1480 bytes to and from port 53; its thirteenth byte reads like the length of a TCP header. */
  function Datagram(): (d: seq<uint8>)
    ensures |d| == 1480 && d[12] == 0x50
  {
    [0, 53, 0, 53, 0x05, 0xC8, 0, 0, 0, 0, 0, 0, 0x50] + Zeros(1467)
  }

  /** Too large for one packet at layer 3, it is split, taken for TCP, and does not come back. */
  lemma DatagramTakenForTcp(c: Cipher, s: Settings, ctx: CryptoCtx, n1: seq<uint8>, n2: seq<uint8>, id: uint16,
                            e: Entry, t1: uint64, t2: uint64)
    requires c.Lawful() && s.Valid() && ctx.Valid() && |n1| == |n2| == s.nonceSize && e.Valid()
    requires !(e.valid && e.id == id)
    ensures var p := Packet(20, PROTO_UDP, Datagram());
            var r := Split(L3, c, s, ctx, n1, n2, id, p);
            && SizeBounds.NeedSplit(L3, s, |p|) && Layer3.PayloadOffset(p).Some? && r.Some?
            && var d1, d2 := DecryptHalf(L3, c, s, ctx, r.value.0), DecryptHalf(L3, c, s, ctx, r.value.1);
            && d1.Some? && d2.Some? && Readable(L3, d1.value.packet) && Readable(L3, d2.value.packet)
            && Delivered(L3, e, d1.value, d2.value, t1, t2) != Complete(Renewed(p))
  {
    hide Packet, Datagram, Split, DecryptHalf, Delivered, Renewed, Layer3.PayloadOffset, CutPoint, Readable, RoomToJoin;
    var p := Packet(20, PROTO_UDP, Datagram());
    PacketParts(20, PROTO_UDP, Datagram());
    CutOfDatagram(p);
    SizeBounds.SplitFits(L3, c, s, ctx, n1, n2, id, p);
    SplitRoundTrip(L3, c, s, ctx, n1, n2, id, p, e, t1, t2);
  }

  lemma CutOfDatagram(p: seq<uint8>)
    requires Layer3.PayloadOffset(p) == Some(34) && p[ETH + Layer3.PROTO_OFF] == PROTO_UDP && p[34..] == Datagram()
    ensures CutPoint(L3, p) == Some(34 + 744) && !GuessRight(L3, p, 34 + 744)
  {
    var first := p[34..34 + 744];
    assert first[12] == p[34..][12] == 0x50;
  }

  /** An ICMP packet of eight bytes, cut in the middle: joining would put four stale bytes between its halves. */
  lemma StaleBytes(s: Settings, e: Entry, id: uint16, now: uint64)
    requires e.Valid()
    ensures var p := Packet(20, 1, Zeros(8));
            && CutPoint(L2, p) == Some(38) && FirstKept(L2, p, 38)
            && Joined(L2, Held(L2, s, p, 38, e, id, now), p[38..]) != Renewed(p)
  {
    hide Packet, Joined, Held, Renewed, Layer3.PayloadOffset;
    var p := Packet(20, 1, Zeros(8));
    PacketParts(20, 1, Zeros(8));
    JoinWrong(L2, s, p, 38, e, id, now);
  }

  // --- the output buffer of reassembly -----------------------------------------------

  /** Two layer-3 halves of 1600 and 2496 bytes behind IP headers of 60: together within the 4096 bytes the code allows,
      but with their headers not within the 4096 bytes of the callers' buffers. */
  lemma HeadersNotCounted(e: Entry, id: uint16, t: uint64)
    requires e.Valid()
    ensures var p1 := Packet(60, PROTO_TCP, Zeros(12) + [0x50] + Zeros(1587));
            var p2 := Packet(60, PROTO_TCP, Zeros(2496));
            && Readable(L3, p1) && Readable(L3, p2)
            && var (o1, e1) := Reassemble(L3, e, p1, id, 0, t);
            && var (o2, _) := Reassemble(L3, e1, p2, id, 1, t);
            && o1 == Pending && o2.Complete? && |o2.packet| == 4170 > MAX_JOINED
  {
    hide Packet, Joined, Layer3.PayloadOffset, RestoredHdr;
    var data := Zeros(12) + [0x50] + Zeros(1587);
    var p1, p2 := Packet(60, PROTO_TCP, data), Packet(60, PROTO_TCP, Zeros(2496));
    PacketParts(60, PROTO_TCP, data);
    PacketParts(60, PROTO_TCP, Zeros(2496));
    assert TransportHdrSize(data, PROTO_TCP) == Some(20);
    var e1 := Reassemble(L3, e, p1, id, 0, t).1;
    assert e1.valid && e1.dataLen == 1600 && |e1.ip| == 60;
    RoomIff(L3, e1, p2, id, 1, t);
  }

  // --- ciphers to show a failure with ------------------------------------------------

  function MirrorByte(b: uint8): uint8 { if b <= 0xA0 then 0xA0 - b else 0x1A0 - b }

  function Mirror(d: seq<uint8>): (r: seq<uint8>)
    ensures |r| == |d|
  {
    seq(|d|, i requires 0 <= i < |d| => MirrorByte(d[i]))
  }

  lemma MirrorTwice(d: seq<uint8>)
    ensures Mirror(Mirror(d)) == d
  {}

  function TagOf(k: Key): (t: seq<uint8>)
    ensures |t| == TAG_SIZE
  {
    seq(TAG_SIZE, _ => if k == [] then 0 else k[0])
  }

  /** CTR turns 0x45 into 0x5B; GCM leaves the plaintext readable, but its tag tells keys with different first bytes
      apart. */
  function Toy(): Cipher
  {
    Cipher((k, iv, d) => Mirror(d), (k, n, d) => d, (k, n, d) => TagOf(k), (k, n, d, t) => (t == TagOf(k), d))
  }

  lemma ToyLawful()
    ensures Toy().Lawful()
  {
    forall d ensures Mirror(Mirror(d)) == d {
      MirrorTwice(d);
    }
  }

  /** When the first sealed byte happens to be 0x5B, a whole layer-2 packet is taken for a fragment. */
  lemma MarkerByChance(s: Settings, ctx: CryptoCtx, nonce: seq<uint8>)
    requires s.Valid() && ctx.Valid() && |nonce| == s.nonceSize && s.mode == Ctr && s.fakeEthertype != 0
    ensures var p := Packet(20, PROTO_TCP, Zeros(20));
            var wire := Layer2.Encrypt(Toy(), s, ctx, nonce, p);
            wire.Some? && Layer2.Decrypt(Toy(), s, ctx, wire.value) != Some(p)
  {
    hide Layer2.Decrypt, Packet, Layer3.PayloadOffset, Layer2.Marked;
    PacketParts(20, PROTO_TCP, Zeros(20));
    ToyLawful();
    var p := Packet(20, PROTO_TCP, Zeros(20));
    Ipv4Of(p);
    Layer2.PacketRoundTripIff(Toy(), s, ctx, nonce, p);
    var sealed := Seal(Toy(), s.mode, ctx.Current(), nonce, p[ETH..]);
    assert sealed[0] == 0x5B;
    Layer2.WireParts(s, p[..ETH], nonce, sealed);
    var wire := Layer2.Marked(s, p[..ETH]) + nonce + sealed;
    assert wire[Layer2.EncStart(s)] == wire[Layer2.EncStart(s)..][0];
  }

  // --- the previous policy set -------------------------------------------------------

  function Policy(key: Key): CryptoPolicy
  {
    CryptoPolicy(7, 7, 0, ACTION_L3, PROTO_ANY, -1, -1, -1, -1, true, true, false, false, 0, 0, 0, 0,
                 CRYPTO_MODE_GCM, 128, 12, key)
  }

  /** One policy with wire id 7 and a context for its key. */
  function OnePolicy(key: Key): PolicySet
  {
    PolicySet([Policy(key)], [CryptoCtx(key, [key, key, key])], [true], seq(5, _ => seq(256, _ => -1)))
  }

  /** The same wire id with a new key: the packet the old key has sealed is rejected during the grace period, too. */
  lemma NewKeyLosesPackets(s0: Settings, s: Settings, nonce: seq<uint8>)
    requires s.nonceSize == |nonce| == 12 && Marker(s0) == Marker(s) != PROTO_TCP
    ensures var before, after := OnePolicy([1]), OnePolicy([2]);
            var wire := Wire3(Toy(), s0, before, 0, nonce, Packet(20, PROTO_TCP, Zeros(20)));
            Auto(ACTION_L3, Toy(), s, after, Some(before), wire) == Rejected
  {
    hide Packet, Layer3.PayloadOffset, Auto, Layer3.ToEncrypt, Layer3.Encrypt, Layer3.Decrypt, Open, Seal, Toy;
    var before, after := OnePolicy([1]), OnePolicy([2]);
    var p := Packet(20, PROTO_TCP, Zeros(20));
    var sx, own := Applied(Policy([1]), s0), Applied(Policy([2]), s);
    ToyLawful();
    PacketParts(20, PROTO_TCP, Zeros(20));
    AtLayer3(sx, 20, PROTO_TCP, Zeros(20));
    CurrentDecides3(Toy(), s0, s, after, before, 0, nonce, p, 0);
    Layer3.DecryptOfEncrypt(Toy(), sx, before.ctx[0], own, after.ctx[0], nonce, p);
    OtherKey(own, nonce, Zeros(20));
  }

  lemma OtherKey(s: Settings, nonce: seq<uint8>, plain: seq<uint8>)
    requires |nonce| == 12 && s.mode == Gcm && plain != []
    ensures Open(Toy(), s, CryptoCtx([2], [[2], [2], [2]]), nonce, Seal(Toy(), Gcm, [1], nonce, plain),
                 Layer3.PlausibleFor(PROTO_TCP)) == None
  {
    var data := Seal(Toy(), Gcm, [1], nonce, plain);
    var n := |data| - 16;
    assert data[..n] == plain && data[n..] == TagOf([1]);
    assert TagOf([1])[0] == 1 && TagOf([2])[0] == 2;
    var order := CryptoCtx([2], [[2], [2], [2]]).TrialOrder();
    var accept := Layer3.PlausibleFor(PROTO_TCP);
    assert TrySlots(Toy(), Gcm, order, nonce, plain, plain, TagOf([1]), accept, 3) == (false, plain);
    assert TrySlots(Toy(), Gcm, order, nonce, plain, plain, TagOf([1]), accept, 2) == (false, plain);
    assert TrySlots(Toy(), Gcm, order, nonce, plain, plain, TagOf([1]), accept, 1) == (false, plain);
  }
}
