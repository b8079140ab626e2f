/** Layer-3 tunnelling: only the Ethernet and IP headers stay in clear; the protocol byte carries a fake value
    and the real one travels in the tunnel header.  Decryption recomputes the transport checksum, too. */
module Layer3 {
  import opened Bytes
  import opened Ipv4
  import opened PacketCrypto
  import InternetChecksum
  import opened TransportChecksum
  import opened Tunnel

  const MIN_ETH_PKT := 22
  const FRAG_MAGIC: uint8 := 0x5C
  const FRAG_TAG := 4
  const PROTO_OFF := 9

  /** Bytes a whole encrypted packet adds behind the IP header. */
  function Overhead(s: Settings): nat { s.TunnelHdrSize() + s.TagLen() }

  /** Bytes a fragment adds behind the IP header. */
  function FragOverhead(s: Settings): nat { s.TunnelHdrSize() + FRAG_TAG + s.TagLen() }

  predicate IsIpv4(pkt: seq<uint8>)
  {
    |pkt| >= ETH + 20 && WordAt(pkt, 12) == 0x0800
  }

  /** Where the IP payload starts, when the packet is IPv4 with a complete header. */
  function PayloadOffset(pkt: seq<uint8>): (r: Option<nat>)
    ensures r.Some? ==> IsIpv4(pkt) && r.value == ETH + HdrLen(pkt[ETH]) && ETH + 20 <= r.value <= ETH + 60
                        && r.value <= |pkt|
  {
    if !IsIpv4(pkt) then None
    else if HdrLen(pkt[ETH]) < 20 || |pkt| < ETH + HdrLen(pkt[ETH]) then None
    else Some(ETH + HdrLen(pkt[ETH]))
  }

  datatype Layout = PassOn | Malformed | Payload(tun: nat)

  /** Encryption leaves alone what already looks like one of its fragments. */
  function ToEncrypt(s: Settings, pkt: seq<uint8>): (r: Layout)
    ensures r.Payload? ==> PayloadOffset(pkt) == Some(r.tun)
  {
    if |pkt| < MIN_ETH_PKT then Malformed
    else if !IsIpv4(pkt) then PassOn
    else if PayloadOffset(pkt).None? then Malformed
    else
      var tun := PayloadOffset(pkt).value;
      if |pkt| >= tun + s.nonceSize + 2 && pkt[tun + s.nonceSize + 1] == FRAG_MAGIC then PassOn else Payload(tun)
  }

  function ToDecrypt(s: Settings, pkt: seq<uint8>): (r: Layout)
    ensures r.Payload? ==> PayloadOffset(pkt) == Some(r.tun) && r.tun + s.TunnelHdrSize() <= |pkt|
  {
    if |pkt| < MIN_ETH_PKT then Malformed
    else if PayloadOffset(pkt).None? then PassOn
    else
      var tun := PayloadOffset(pkt).value;
      if |pkt| < tun + s.TunnelHdrSize() then PassOn
      else if pkt[tun + s.nonceSize + 1] == FRAG_MAGIC then PassOn
      else if pkt[ETH + PROTO_OFF] != s.fakeProtocol then PassOn
      else Payload(tun)
  }

  /** What a CTR decryption must look like to be believed: TCP and UDP with at least one nonzero port. */
  predicate Plausible(proto: uint8, payload: seq<uint8>)
  {
    proto in {PROTO_TCP, PROTO_UDP} ==>
      |payload| >= 4 && (WordAt(payload, 0) != 0 || WordAt(payload, 2) != 0)
  }

  function PlausibleFor(proto: uint8): seq<uint8> -> bool { payload => Plausible(proto, payload) }

  /** b with the protocol byte of its IP header replaced. */
  function WithProto(b: seq<uint8>, proto: uint8): (r: seq<uint8>)
    requires |b| >= ETH + 20
    ensures |r| == |b|
  {
    b[ETH + PROTO_OFF := proto]
  }

  /** Encryption of a whole packet; None is the error return. */
  function Encrypt(c: Cipher, s: Settings, ctx: CryptoCtx, nonce: seq<uint8>, pkt: seq<uint8>): Option<seq<uint8>>
    requires s.Valid() && ctx.Valid() && |nonce| == s.nonceSize
  {
    match ToEncrypt(s, pkt)
    case PassOn => Some(pkt)
    case Malformed => None
    case Payload(tun) =>
      Some(Wrapped(WithProto(pkt, s.fakeProtocol), ETH, tun, tun, WordAt(pkt, ETH + 2) + Overhead(s),
                   TunnelHdr(nonce, s.policyId, pkt[ETH + PROTO_OFF]),
                   Seal(c, s.mode, ctx.Current(), nonce, pkt[tun..])))
  }

  /** The decrypted packet: protocol and total length restored, header and transport checksums recomputed. */
  function Rebuilt(s: Settings, b: seq<uint8>, tun: nat, proto: uint8, plain: seq<uint8>): (r: seq<uint8>)
    requires ETH + 20 <= tun <= |b| && s.Valid()
    ensures |r| == tun + |plain|
  {
    var h := Patch(WithProto(b, proto)[ETH..tun], WordAt(b, ETH + 2) + 0x1_0000 - Overhead(s));
    b[..ETH] + h + Repaired(h, proto, plain)
  }

  function DecryptAt(c: Cipher, s: Settings, ctx: CryptoCtx, b: seq<uint8>, len: nat, tun: nat): Option<seq<uint8>>
    requires s.Valid() && ctx.Valid() && ETH + 20 <= tun && tun + s.TunnelHdrSize() <= len <= |b|
  {
    var proto := b[tun + s.nonceSize + 1];
    var plain := Open(c, s, ctx, b[tun..tun + s.nonceSize], b[tun + s.TunnelHdrSize()..len], PlausibleFor(proto));
    if plain.None? then None else Some(Rebuilt(s, b, tun, proto, plain.value))
  }

  function Decrypt(c: Cipher, s: Settings, ctx: CryptoCtx, pkt: seq<uint8>): Option<seq<uint8>>
    requires s.Valid() && ctx.Valid()
  {
    match ToDecrypt(s, pkt)
    case PassOn => Some(pkt)
    case Malformed => None
    case Payload(tun) => DecryptAt(c, s, ctx, pkt, |pkt|, tun)
  }

  /** What a failed decryption leaves of the packet: the protocol byte has already been restored. */
  function Left(c: Cipher, s: Settings, ctx: CryptoCtx, pkt: seq<uint8>): seq<uint8>
    requires s.Valid() && ctx.Valid()
  {
    match ToDecrypt(s, pkt)
    case Payload(tun) => LeftAt(c, s, ctx, pkt, |pkt|, tun)
    case _ => pkt
  }

  function LeftAt(c: Cipher, s: Settings, ctx: CryptoCtx, b: seq<uint8>, len: nat, tun: nat): seq<uint8>
    requires s.Valid() && ctx.Valid() && ETH + 20 <= tun && tun + s.TunnelHdrSize() <= len <= |b|
  {
    var proto, enc := b[tun + s.nonceSize + 1], tun + s.TunnelHdrSize();
    WithProto(b, proto)[..enc] + Spoiled(c, s, ctx, b[tun..tun + s.nonceSize], b[enc..len], PlausibleFor(proto))
  }

  // --- what decryption recovers ----------------------------------------------------

  /** Behind the protocol byte and the checksums, encryption and decryption of the header cancel out. */
  lemma HeaderRoundTrip(s: Settings, h: seq<uint8>)
    requires s.Valid() && |h| >= 20
    ensures var t := WordAt(h, 2);
            var g := Patch(h[PROTO_OFF := s.fakeProtocol], t + Overhead(s));
            Patch(g[PROTO_OFF := h[PROTO_OFF]], WordAt(g, 2) + 0x1_0000 - Overhead(s)) == Patch(h, t)
  {
    hide Patch, WordAt;
    var t, f := WordAt(h, 2), h[PROTO_OFF := s.fakeProtocol];
    var g := Patch(f, t + Overhead(s));
    var r := g[PROTO_OFF := h[PROTO_OFF]];
    PatchTotal(f, t + Overhead(s));
    var n := WordAt(g, 2) + 0x1_0000 - Overhead(s);
    forall k | 0 <= k < |h| && k !in {2, 3, 10, 11} ensures r[k] == h[k] {
      PatchKeeps(f, t + Overhead(s), k);
    }
    PatchAgree(r, h, n);
    PatchModulo(h, n, t);
  }

  lemma PatchModulo(h: seq<uint8>, a: nat, b: nat)
    requires |h| >= 20 && a % 0x1_0000 == b % 0x1_0000
    ensures Patch(h, a) == Patch(h, b)
  {}

  /** What Encrypt transforms, and into what. */
  lemma EncryptForm(c: Cipher, s: Settings, ctx: CryptoCtx, nonce: seq<uint8>, pkt: seq<uint8>, tun: nat)
    requires s.Valid() && ctx.Valid() && |nonce| == s.nonceSize && ToEncrypt(s, pkt) == Payload(tun)
    ensures var h := pkt[ETH..tun];
            && WordAt(pkt, ETH + 2) == WordAt(h, 2)
            && Encrypt(c, s, ctx, nonce, pkt)
            == Some(pkt[..ETH] + Patch(h[PROTO_OFF := s.fakeProtocol], WordAt(h, 2) + Overhead(s))
                    + TunnelHdr(nonce, s.policyId, h[PROTO_OFF])
                    + Seal(c, s.mode, ctx.Current(), nonce, pkt[tun..]))
  {
    hide Patch, Seal, TunnelHdr, PayloadOffset, ToEncrypt;
    var b := WithProto(pkt, s.fakeProtocol);
    var h := pkt[ETH..tun];
    assert b[..ETH] == pkt[..ETH] && b[ETH..tun] == h[PROTO_OFF := s.fakeProtocol] && b[tun..tun] == [];
    var g := Patch(h[PROTO_OFF := s.fakeProtocol], WordAt(h, 2) + Overhead(s));
    assert WordAt(pkt, ETH + 2) == WordAt(h, 2);
    assert pkt[..ETH] + g + [] == pkt[..ETH] + g;
  }

  /** The parts of a packet of the tunnel shape. */
  lemma RebuiltForm(s: Settings, p: seq<uint8>, eth: seq<uint8>, g: seq<uint8>, proto: uint8, plain: seq<uint8>)
    requires s.Valid() && |eth| == ETH && |g| >= 20 && ETH + |g| <= |p|
    requires p[..ETH] == eth && p[ETH..ETH + |g|] == g
    ensures var h := Patch(g[PROTO_OFF := proto], WordAt(g, 2) + 0x1_0000 - Overhead(s));
            Rebuilt(s, p, ETH + |g|, proto, plain) == eth + h + Repaired(h, proto, plain)
  {
    hide Patch, Repaired;
    assert WithProto(p, proto)[ETH..ETH + |g|] == g[PROTO_OFF := proto];
    assert WordAt(p, ETH + 2) == WordAt(g, 2);
  }

  lemma ShapeParts(s: Settings, eth: seq<uint8>, g: seq<uint8>, nonce: seq<uint8>, pid: uint8, proto: uint8,
                   body: seq<uint8>)
    requires s.Valid() && |nonce| == s.nonceSize && |eth| == ETH && EthIpv4Offset(eth + g) == Some(ETH)
    requires 20 <= |g| && HdrLen(g[0]) == |g|
    ensures var p := eth + g + TunnelHdr(nonce, pid, proto) + body;
            var tun := ETH + |g|;
            && PayloadOffset(p) == Some(tun) && |p| == tun + s.TunnelHdrSize() + |body|
            && p[..ETH] == eth && p[ETH..tun] == g && p[ETH + PROTO_OFF] == g[PROTO_OFF]
            && p[tun..tun + s.nonceSize] == nonce
            && p[tun + s.nonceSize] == pid && p[tun + s.nonceSize + 1] == proto
            && p[tun + s.TunnelHdrSize()..|p|] == body
  {
    hide TunnelHdr;
    assert eth + g + [] == eth + g;
    Parts(eth, g, [], nonce, pid, proto, body);
    var p := eth + g + TunnelHdr(nonce, pid, proto) + body;
    assert p[ETH + |g| + s.TunnelHdrSize()..|p|] == p[ETH + |g| + |nonce| + 2..];
  }

  /** What Decrypt does with any packet of the tunnel shape. */
  lemma DecryptShape(c: Cipher, s: Settings, ctx: CryptoCtx, eth: seq<uint8>, g: seq<uint8>,
                     nonce: seq<uint8>, pid: uint8, proto: uint8, body: seq<uint8>)
    requires s.Valid() && ctx.Valid() && |nonce| == s.nonceSize && |eth| == ETH
    requires 20 <= |g| && HdrLen(g[0]) == |g| && g[PROTO_OFF] == s.fakeProtocol
    requires EthIpv4Offset(eth + g) == Some(ETH)
    ensures var p := eth + g + TunnelHdr(nonce, pid, proto) + body;
            var plain := Open(c, s, ctx, nonce, body, PlausibleFor(proto));
            var h := Patch(g[PROTO_OFF := proto], WordAt(g, 2) + 0x1_0000 - Overhead(s));
            Decrypt(c, s, ctx, p) == if proto == FRAG_MAGIC then Some(p)
                                     else if plain.None? then None
                                     else Some(eth + h + Repaired(h, proto, plain.value))
  {
    hide Open, Patch, EthIpv4Offset, TunnelHdr, Rebuilt, Repaired, PayloadOffset, WordAt;
    var p := eth + g + TunnelHdr(nonce, pid, proto) + body;
    ShapeParts(s, eth, g, nonce, pid, proto, body);
    var plain := Open(c, s, ctx, nonce, body, PlausibleFor(proto));
    if plain.Some? {
      RebuiltForm(s, p, eth, g, proto, plain.value);
    }
  }

  /** The packet with its header checksum and its transport checksum recomputed. */
  function Restored(pkt: seq<uint8>): seq<uint8>
    requires PayloadOffset(pkt).Some?
  {
    var tun := PayloadOffset(pkt).value;
    var h := Patch(pkt[ETH..tun], WordAt(pkt, ETH + 2));
    pkt[..ETH] + h + Repaired(h, pkt[ETH + PROTO_OFF], pkt[tun..])
  }

  /** What decrypting an encrypted packet gives, in every case, also with another context r and other settings that
      agree on nonce size and fake protocol. */
  lemma DecryptOfEncrypt(c: Cipher, s: Settings, ctx: CryptoCtx, r: Settings, rctx: CryptoCtx, nonce: seq<uint8>,
                         pkt: seq<uint8>)
    requires c.Lawful() && s.Valid() && ctx.Valid() && r.Valid() && rctx.Valid() && |nonce| == s.nonceSize
    requires s.nonceSize == r.nonceSize && s.fakeProtocol == r.fakeProtocol
    requires ToEncrypt(s, pkt).Payload?
    ensures Encrypt(c, s, ctx, nonce, pkt).Some?
    ensures var wire := Encrypt(c, s, ctx, nonce, pkt).value;
            var plain := pkt[PayloadOffset(pkt).value..];
            var proto := pkt[ETH + PROTO_OFF];
            var out := Open(c, r, rctx, nonce, Seal(c, s.mode, ctx.Current(), nonce, plain), PlausibleFor(proto));
            && (proto == FRAG_MAGIC ==> Decrypt(c, r, rctx, wire) == Some(wire))
            && (proto != FRAG_MAGIC && out == None ==> Decrypt(c, r, rctx, wire) == None)
            && (proto != FRAG_MAGIC && out.Some? ==>
                  Decrypt(c, r, rctx, wire).Some? && |Decrypt(c, r, rctx, wire).value| < |wire|)
            && (proto != FRAG_MAGIC && out == Some(plain) && s.mode == r.mode ==>
                  Decrypt(c, r, rctx, wire) == Some(Restored(pkt)))
  {
    hide Seal, Open, Patch, ToEncrypt, Encrypt, Decrypt, TunnelHdr, EthIpv4Offset, Repaired, WordAt;
    var tun := PayloadOffset(pkt).value;
    var eth, h, plain := pkt[..ETH], pkt[ETH..tun], pkt[tun..];
    var g := Patch(h[PROTO_OFF := s.fakeProtocol], WordAt(h, 2) + Overhead(s));
    var sealed := Seal(c, s.mode, ctx.Current(), nonce, plain);
    EncryptForm(c, s, ctx, nonce, pkt, tun);
    HeaderShape(s, pkt, tun, WordAt(h, 2) + Overhead(s));
    HeaderRoundTrip(s, h);
    DecryptShape(c, r, rctx, eth, g, nonce, s.policyId, h[PROTO_OFF], sealed);
    if Open(c, r, rctx, nonce, sealed, PlausibleFor(h[PROTO_OFF])).Some? {
      OpenShrinks(c, r, rctx, nonce, sealed, PlausibleFor(h[PROTO_OFF]));
    }
  }

  /** The header Encrypt writes still announces its own length, carries the fake protocol, and follows the
      Ethernet header. */
  lemma HeaderShape(s: Settings, pkt: seq<uint8>, tun: nat, total: nat)
    requires PayloadOffset(pkt) == Some(tun)
    ensures var g := Patch(pkt[ETH..tun][PROTO_OFF := s.fakeProtocol], total);
            && |g| == tun - ETH && HdrLen(g[0]) == |g| && g[PROTO_OFF] == s.fakeProtocol
            && EthIpv4Offset(pkt[..ETH] + g) == Some(ETH)
  {
    hide Patch;
    var f := pkt[ETH..tun][PROTO_OFF := s.fakeProtocol];
    PatchKeeps(f, total, 0);
    PatchKeeps(f, total, PROTO_OFF);
    assert pkt == pkt[..ETH] + pkt[ETH..];
    OffsetOfPrefix(pkt[..ETH], pkt[ETH..], Patch(f, total));
  }

  /** Where the receiver finds the tunnel header of an encrypted packet, and what it says. */
  lemma EncryptedShape(c: Cipher, s: Settings, ctx: CryptoCtx, nonce: seq<uint8>, pkt: seq<uint8>, tun: nat)
    requires c.Lawful() && s.Valid() && ctx.Valid() && |nonce| == s.nonceSize && ToEncrypt(s, pkt) == Payload(tun)
    ensures Encrypt(c, s, ctx, nonce, pkt).Some?
    ensures var wire := Encrypt(c, s, ctx, nonce, pkt).value;
            && PayloadOffset(wire) == Some(tun) && |wire| == |pkt| + Overhead(s) && tun <= |pkt|
            && wire[ETH + PROTO_OFF] == s.fakeProtocol && wire[tun + s.nonceSize] == s.policyId
            && wire[tun + s.nonceSize + 1] == pkt[ETH + PROTO_OFF]
  {
    hide Seal, Patch, ToEncrypt, Encrypt, TunnelHdr, EthIpv4Offset, PayloadOffset, WordAt;
    var h := pkt[ETH..tun];
    var g := Patch(h[PROTO_OFF := s.fakeProtocol], WordAt(h, 2) + Overhead(s));
    var sealed := Seal(c, s.mode, ctx.Current(), nonce, pkt[tun..]);
    EncryptForm(c, s, ctx, nonce, pkt, tun);
    SealLength(c, s, ctx.Current(), nonce, pkt[tun..]);
    HeaderShape(s, pkt, tun, WordAt(h, 2) + Overhead(s));
    ShapeParts(s, pkt[..ETH], g, nonce, s.policyId, h[PROTO_OFF], sealed);
  }

  /** Decryption restores an encrypted packet up to its checksums whenever the protocol byte is not the fragment
      magic and, in CTR mode, the payload looks like what decryption believes. */
  lemma PacketRoundTrip(c: Cipher, s: Settings, ctx: CryptoCtx, nonce: seq<uint8>, pkt: seq<uint8>)
    requires c.Lawful() && s.Valid() && ctx.Valid() && |nonce| == s.nonceSize
    requires ToEncrypt(s, pkt).Payload?
    requires pkt[ETH + PROTO_OFF] != FRAG_MAGIC
    requires s.mode == Ctr ==> Plausible(pkt[ETH + PROTO_OFF], pkt[PayloadOffset(pkt).value..])
    ensures Encrypt(c, s, ctx, nonce, pkt).Some?
    ensures Decrypt(c, s, ctx, Encrypt(c, s, ctx, nonce, pkt).value) == Some(Restored(pkt))
  {
    hide Seal, Open, ToEncrypt, Encrypt, Decrypt, Restored, Plausible;
    DecryptOfEncrypt(c, s, ctx, s, ctx, nonce, pkt);
    OpenSeal(c, s, ctx, nonce, pkt[PayloadOffset(pkt).value..], PlausibleFor(pkt[ETH + PROTO_OFF]));
  }

  /** And no other packet survives: with the three equal key slots packet_crypto_init derives and a payload that
      fits the backup, the two conditions are exact. */
  lemma PacketRoundTripIff(c: Cipher, s: Settings, ctx: CryptoCtx, nonce: seq<uint8>, pkt: seq<uint8>)
    requires c.Lawful() && s.Valid() && ctx.Valid() && |nonce| == s.nonceSize
    requires ctx.keys[0] == ctx.keys[1] == ctx.keys[2]
    requires ToEncrypt(s, pkt).Payload? && |pkt| - PayloadOffset(pkt).value <= BACKUP_SIZE
    ensures Encrypt(c, s, ctx, nonce, pkt).Some?
    ensures Decrypt(c, s, ctx, Encrypt(c, s, ctx, nonce, pkt).value) == Some(Restored(pkt)) <==>
              pkt[ETH + PROTO_OFF] != FRAG_MAGIC
              && (s.mode == Ctr ==> Plausible(pkt[ETH + PROTO_OFF], pkt[PayloadOffset(pkt).value..]))
  {
    hide Seal, Open, ToEncrypt, Decrypt, Plausible, Encrypt, Restored;
    var tun := PayloadOffset(pkt).value;
    var proto, plain := pkt[ETH + PROTO_OFF], pkt[tun..];
    DecryptOfEncrypt(c, s, ctx, s, ctx, nonce, pkt);
    Lengths(c, s, ctx, nonce, pkt);
    if s.mode == Ctr && !Plausible(proto, plain) {
      OpenRejects(c, s, ctx, nonce, plain, PlausibleFor(proto));
    } else {
      OpenSeal(c, s, ctx, nonce, plain, PlausibleFor(proto));
    }
  }

  lemma Lengths(c: Cipher, s: Settings, ctx: CryptoCtx, nonce: seq<uint8>, pkt: seq<uint8>)
    requires c.Lawful() && s.Valid() && ctx.Valid() && |nonce| == s.nonceSize
    requires ToEncrypt(s, pkt).Payload?
    ensures var wire := Encrypt(c, s, ctx, nonce, pkt);
            wire.Some? && |wire.value| == |pkt| + Overhead(s) > |Restored(pkt)|
  {
    hide Seal, ToEncrypt, Patch, Repaired;
    SealLength(c, s, ctx.Current(), nonce, pkt[PayloadOffset(pkt).value..]);
  }

  /** The receiver of a decrypted packet accepts its header checksum and its TCP or UDP checksum. */
  lemma RestoredVerifies(pkt: seq<uint8>)
    requires PayloadOffset(pkt).Some?
    ensures var tun := PayloadOffset(pkt).value;
            var r := Restored(pkt);
            var ip, seg := r[ETH..tun], r[tun..];
            && r[ETH + PROTO_OFF] == pkt[ETH + PROTO_OFF]
            && InternetChecksum.Verifies(ip)
            && (pkt[ETH + PROTO_OFF] == PROTO_TCP && 20 <= |seg| <= 0xFFFF ==> TcpVerifies(ip, seg))
            && (pkt[ETH + PROTO_OFF] == PROTO_UDP && 8 <= |seg| <= 0xFFFF ==> UdpVerifies(ip, seg))
  {
    hide Patch, Repaired, WordAt, TcpVerifies, UdpVerifies, InternetChecksum.Verifies;
    var tun := PayloadOffset(pkt).value;
    var h, plain := pkt[ETH..tun], pkt[tun..];
    var g := Patch(h, WordAt(pkt, ETH + 2));
    var seg := Repaired(g, pkt[ETH + PROTO_OFF], plain);
    Cut(pkt[..ETH], g, seg);
    PatchKeeps(h, WordAt(pkt, ETH + 2), PROTO_OFF);
    PatchVerifies(h, WordAt(pkt, ETH + 2));
    if pkt[ETH + PROTO_OFF] == PROTO_TCP && 20 <= |plain| <= 0xFFFF {
      RepairedTcpVerifies(g, plain);
    }
    if pkt[ETH + PROTO_OFF] == PROTO_UDP && 8 <= |plain| <= 0xFFFF {
      RepairedUdpVerifies(g, plain);
    }
  }

  /** A packet is restored exactly when its header is canonical and its transport checksum, where it has one, is the
      one the sum gives: decryption also replaces a UDP checksum of 0. */
  lemma RestoredIff(pkt: seq<uint8>)
    requires PayloadOffset(pkt).Some?
    ensures var tun := PayloadOffset(pkt).value;
            var h := pkt[ETH..tun];
            Restored(pkt) == pkt <==>
              Canonical(h, WordAt(h, 2)) && ChecksumStored(h, pkt[ETH + PROTO_OFF], pkt[tun..])
  {
    hide Patch, Repaired, WordAt, Canonical, ChecksumStored;
    var tun := PayloadOffset(pkt).value;
    var h, plain := pkt[ETH..tun], pkt[tun..];
    TotalAt(pkt, tun);
    var g := Patch(h, WordAt(h, 2));
    var seg := Repaired(g, pkt[ETH + PROTO_OFF], plain);
    PatchFixpoint(h, WordAt(h, 2));
    RepairedIff(h, pkt[ETH + PROTO_OFF], plain);
    assert pkt == pkt[..ETH] + h + plain;
    Cut(pkt[..ETH], g, seg);
    Cut(pkt[..ETH], h, plain);
  }

  lemma TotalAt(pkt: seq<uint8>, tun: nat)
    requires ETH + 20 <= tun <= |pkt|
    ensures WordAt(pkt, ETH + 2) == WordAt(pkt[ETH..tun], 2)
  {}

  // --- fragments -------------------------------------------------------------------

  /** One encrypted fragment, or None when the plaintext is empty or the result would not fit outMax bytes. */
  function EncryptFragment(c: Cipher, s: Settings, ctx: CryptoCtx, nonce: seq<uint8>,
                           eth: seq<uint8>, ip: seq<uint8>, plain: seq<uint8>,
                           id: uint16, index: uint8, outMax: nat): Option<seq<uint8>>
    requires s.Valid() && ctx.Valid() && |nonce| == s.nonceSize
    requires |eth| == ETH && 20 <= |ip| <= 60
  {
    if plain == [] || ETH + |ip| + FragOverhead(s) + |plain| > outMax then None
    else Some(eth
              + Patch(ip[PROTO_OFF := s.fakeProtocol], |ip| + FragOverhead(s) + |plain|)
              + TunnelHdr(nonce, s.policyId, FRAG_MAGIC)
              + (FragTag(id, index) + Seal(c, s.mode, ctx.Current(), nonce, plain)))
  }

  /** The tests of fragment decryption: everything that is not a complete fragment is an error. */
  function ToDecryptFragment(s: Settings, pkt: seq<uint8>): (r: Layout)
    ensures r.Payload? ==> PayloadOffset(pkt) == Some(r.tun) && r.tun + s.TunnelHdrSize() + FRAG_TAG <= |pkt|
  {
    var tun := PayloadOffset(pkt);
    if tun.None? || pkt[ETH + PROTO_OFF] != s.fakeProtocol then Malformed
    else if |pkt| < tun.value + s.TunnelHdrSize() + FRAG_TAG then Malformed
    else if pkt[tun.value + s.nonceSize + 1] != FRAG_MAGIC then Malformed
    else Payload(tun.value)
  }

  /** The protocol byte of a decrypted fragment stays fake: the tag has no room for the real one. */
  function DecryptFragment(c: Cipher, s: Settings, ctx: CryptoCtx, pkt: seq<uint8>): Option<Fragment>
    requires s.Valid() && ctx.Valid()
  {
    match ToDecryptFragment(s, pkt)
    case PassOn => None
    case Malformed => None
    case Payload(tun) =>
      var tag := tun + s.TunnelHdrSize();
      var out := OpenAt(c, s, ctx, pkt, |pkt|, ETH, tun, tun, tag + FRAG_TAG, AcceptAll);
      if out.None? then None else Some(Fragment(out.value, WordAt(pkt, tag), pkt[tag + 2]))
  }

  lemma DecryptFragmentShape(c: Cipher, s: Settings, ctx: CryptoCtx, eth: seq<uint8>, g: seq<uint8>,
                             nonce: seq<uint8>, pid: uint8, id: uint16, index: uint8,
                             body: seq<uint8>, plain: seq<uint8>)
    requires s.Valid() && ctx.Valid() && |nonce| == s.nonceSize && |eth| == ETH
    requires 20 <= |g| && HdrLen(g[0]) == |g| && g[PROTO_OFF] == s.fakeProtocol
    requires EthIpv4Offset(eth + g) == Some(ETH)
    requires Open(c, s, ctx, nonce, body, AcceptAll) == Some(plain)
    ensures DecryptFragment(c, s, ctx, eth + g + TunnelHdr(nonce, pid, FRAG_MAGIC) + (FragTag(id, index) + body))
         == Some(Fragment(eth + Patch(g, |g| + |plain|) + plain, id, index))
  {
    hide Open, Patch, EthIpv4Offset, TunnelHdr, FragTag, WordAt, Unwrapped, PayloadOffset;
    var rest := FragTag(id, index) + body;
    var p := eth + g + TunnelHdr(nonce, pid, FRAG_MAGIC) + rest;
    ShapeParts(s, eth, g, nonce, pid, FRAG_MAGIC, rest);
    var tag := ETH + |g| + s.TunnelHdrSize();
    assert p[tag..] == rest;
    TagParts(p, tag, id, index, body);
    assert p[tag + FRAG_TAG..|p|] == body;
    UnwrappedParts(p, eth, g, [], |g| + |plain|, plain);
    assert eth + Patch(g, |g| + |plain|) + [] == eth + Patch(g, |g| + |plain|);
  }

  /** Decrypting an encrypted fragment gives back the plaintext behind the IP header, the id and the index. */
  lemma FragmentRoundTrip(c: Cipher, s: Settings, ctx: CryptoCtx, nonce: seq<uint8>,
                          eth: seq<uint8>, ip: seq<uint8>, plain: seq<uint8>,
                          id: uint16, index: uint8, outMax: nat)
    requires c.Lawful() && s.Valid() && ctx.Valid() && |nonce| == s.nonceSize
    requires |eth| == ETH && EthIpv4Offset(eth + ip) == Some(ETH)
    requires 20 <= |ip| <= 60 && HdrLen(ip[0]) == |ip|
    requires EncryptFragment(c, s, ctx, nonce, eth, ip, plain, id, index, outMax).Some?
    ensures var wire := EncryptFragment(c, s, ctx, nonce, eth, ip, plain, id, index, outMax).value;
            DecryptFragment(c, s, ctx, wire)
            == Some(Fragment(eth + Patch(ip[PROTO_OFF := s.fakeProtocol], |ip| + |plain|) + plain, id, index))
  {
    hide Seal, Open, Patch, EthIpv4Offset, DecryptFragment, TunnelHdr, FragTag;
    var f := ip[PROTO_OFF := s.fakeProtocol];
    var n := |ip| + FragOverhead(s) + |plain|;
    var g := Patch(f, n);
    var sealed := Seal(c, s.mode, ctx.Current(), nonce, plain);
    OffsetOfPrefix(eth, ip, f);
    PatchedShape(eth, f, n);
    OpenSeal(c, s, ctx, nonce, plain, AcceptAll);
    PatchAbsorbs(f, n, |ip| + |plain|);
    DecryptFragmentShape(c, s, ctx, eth, g, nonce, s.policyId, id, index, sealed, plain);
  }

  /** A fragment is a valid IPv4 packet of its own length, with the addresses of the original and the fake protocol. */
  lemma FragmentHeader(c: Cipher, s: Settings, ctx: CryptoCtx, nonce: seq<uint8>,
                       eth: seq<uint8>, ip: seq<uint8>, plain: seq<uint8>, id: uint16, index: uint8, outMax: nat)
    requires c.Lawful() && s.Valid() && ctx.Valid() && |nonce| == s.nonceSize
    requires |eth| == ETH && 20 <= |ip| <= 60 && ip[0] > 0
    requires EncryptFragment(c, s, ctx, nonce, eth, ip, plain, id, index, outMax).Some?
    ensures var wire := EncryptFragment(c, s, ctx, nonce, eth, ip, plain, id, index, outMax).value;
            var tun := ETH + |ip|;
            && tun <= |wire| <= outMax && wire[..ETH] == eth
            && Announces(wire[ETH..tun], ip[PROTO_OFF := s.fakeProtocol], |wire| - ETH)
  {
    hide Seal, Patch, TunnelHdr, Announces, FragTag;
    var f := ip[PROTO_OFF := s.fakeProtocol];
    var tunnel := TunnelHdr(nonce, s.policyId, FRAG_MAGIC);
    var body := FragTag(id, index) + Seal(c, s.mode, ctx.Current(), nonce, plain);
    var g := Patch(f, |ip| + FragOverhead(s) + |plain|);
    SealLength(c, s, ctx.Current(), nonce, plain);
    PatchAnnounces(f, |ip| + FragOverhead(s) + |plain|);
    Assoc(eth + g, tunnel, body);
    Cut(eth, g, tunnel + body);
  }

  /** The header of an encrypted packet verifies; it announces the original total length plus the overhead. */
  lemma EncryptedHeader(c: Cipher, s: Settings, ctx: CryptoCtx, nonce: seq<uint8>, pkt: seq<uint8>, tun: nat)
    requires c.Lawful() && s.Valid() && ctx.Valid() && |nonce| == s.nonceSize && ToEncrypt(s, pkt) == Payload(tun)
    ensures Encrypt(c, s, ctx, nonce, pkt).Some?
    ensures var wire := Encrypt(c, s, ctx, nonce, pkt).value;
            && tun <= |pkt| && tun <= |wire| && wire[..ETH] == pkt[..ETH]
            && Announces(wire[ETH..tun], pkt[ETH..tun][PROTO_OFF := s.fakeProtocol], WordAt(pkt, ETH + 2) + Overhead(s))
  {
    hide Seal, Patch, ToEncrypt, Encrypt, TunnelHdr, WordAt, Announces;
    var h := pkt[ETH..tun];
    var f := h[PROTO_OFF := s.fakeProtocol];
    var g := Patch(f, WordAt(h, 2) + Overhead(s));
    var tunnel := TunnelHdr(nonce, s.policyId, h[PROTO_OFF]);
    var sealed := Seal(c, s.mode, ctx.Current(), nonce, pkt[tun..]);
    EncryptForm(c, s, ctx, nonce, pkt, tun);
    PatchAnnounces(f, WordAt(h, 2) + Overhead(s));
    Assoc(pkt[..ETH] + g, tunnel, sealed);
    Cut(pkt[..ETH], g, tunnel + sealed);
  }

  // --- the code, working in the packet buffer --------------------------------------

  /** Encrypts buf[..len] in place. */
  method EncryptInPlace(c: Cipher, s: Settings, ctx: CryptoCtx, counter: uint32, salt: seq<uint8>,
                        buf: array<uint8>, len: nat) returns (newLen: int)
    requires c.Lawful() && s.Valid() && ctx.Valid() && |salt| == 16
    requires len + Overhead(s) <= buf.Length
    modifies buf
    ensures var r := Encrypt(c, s, ctx, GenerateNonce(counter, salt, s.nonceSize), old(buf[..])[..len]);
            if r.None? then newLen == -1 else newLen == |r.value| && buf[..newLen] == r.value
  {
    hide Seal, Wrapped, ToEncrypt, GenerateNonce, TunnelHdr, PayloadOffset, WordAt;
    ghost var b := buf[..];
    var pkt := buf[..][..len];
    match ToEncrypt(s, pkt)
    case PassOn => newLen := len;
    case Malformed => newLen := -1;
    case Payload(tun) =>
      var proto, total := pkt[ETH + PROTO_OFF], WordAt(pkt, ETH + 2) + Overhead(s);
      var nonce := GenerateNonce(counter, salt, s.nonceSize);
      var sealed := Seal(c, s.mode, ctx.Current(), nonce, pkt[tun..]);
      SealLength(c, s, ctx.Current(), nonce, pkt[tun..]);
      var tunnel := TunnelHdr(nonce, s.policyId, proto);
      buf[ETH + PROTO_OFF] := s.fakeProtocol;
      assert buf[..] == WithProto(b, s.fakeProtocol);
      assert WithProto(b, s.fakeProtocol)[..len] == WithProto(pkt, s.fakeProtocol);
      WrappedPrefix(buf[..], len, ETH, tun, tun, total, tunnel, sealed);
      newLen := WrapInPlace(buf, ETH, tun, tun, total, tunnel, sealed);
  }

  /** Decrypts buf[..len] in place. */
  method DecryptInPlace(c: Cipher, s: Settings, ctx: CryptoCtx, buf: array<uint8>, len: nat) returns (newLen: int)
    requires c.Lawful() && s.Valid() && ctx.Valid() && len <= buf.Length && len <= 0xFFFF
    modifies buf
    ensures var pkt := old(buf[..])[..len];
            var r := Decrypt(c, s, ctx, pkt);
            if r.None? then newLen == -1 && buf[..len] == Left(c, s, ctx, pkt)
            else newLen == |r.value| <= buf.Length && buf[..newLen] == r.value
  {
    hide ToDecrypt, DecryptAt, LeftAt;
    match ToDecrypt(s, buf[..][..len])
    case PassOn => newLen := len;
    case Malformed => newLen := -1;
    case Payload(tun) =>
      DecryptAtPrefix(c, s, ctx, buf[..], len, tun);
      newLen := OpenAndRebuild(c, s, ctx, buf, len, tun);
  }

  /** Only the packet matters, not the rest of its buffer. */
  lemma DecryptAtPrefix(c: Cipher, s: Settings, ctx: CryptoCtx, b: seq<uint8>, len: nat, tun: nat)
    requires s.Valid() && ctx.Valid() && ETH + 20 <= tun && tun + s.TunnelHdrSize() <= len <= |b|
    ensures DecryptAt(c, s, ctx, b[..len], |b[..len]|, tun) == DecryptAt(c, s, ctx, b, len, tun)
    ensures LeftAt(c, s, ctx, b[..len], |b[..len]|, tun) == LeftAt(c, s, ctx, b, len, tun)
  {
    hide Open, Rebuilt, Spoiled;
    var p := b[..len];
    var enc := tun + s.TunnelHdrSize();
    assert WithProto(p, b[enc - 1])[..enc] == WithProto(b, b[enc - 1])[..enc];
    assert p[tun..tun + s.nonceSize] == b[tun..tun + s.nonceSize];
    assert p[tun + s.TunnelHdrSize()..|p|] == b[tun + s.TunnelHdrSize()..len];
    var proto := b[tun + s.nonceSize + 1];
    var plain := Open(c, s, ctx, b[tun..tun + s.nonceSize], b[tun + s.TunnelHdrSize()..len], PlausibleFor(proto));
    if plain.Some? {
      RebuiltPrefix(s, b, len, tun, proto, plain.value);
    }
  }

  lemma RebuiltPrefix(s: Settings, b: seq<uint8>, len: nat, tun: nat, proto: uint8, plain: seq<uint8>)
    requires s.Valid() && ETH + 20 <= tun <= len <= |b|
    ensures Rebuilt(s, b[..len], tun, proto, plain) == Rebuilt(s, b, tun, proto, plain)
  {
    hide Patch, Repaired;
    var p := b[..len];
    assert WithProto(p, proto)[ETH..tun] == WithProto(b, proto)[ETH..tun];
    assert WordAt(p, ETH + 2) == WordAt(b, ETH + 2) && p[..ETH] == b[..ETH];
  }

  method OpenAndRebuild(c: Cipher, s: Settings, ctx: CryptoCtx, buf: array<uint8>, len: nat, tun: nat)
    returns (newLen: int)
    requires c.Lawful() && s.Valid() && ctx.Valid()
    requires ETH + 20 <= tun <= ETH + 60 && tun + s.TunnelHdrSize() <= len <= buf.Length && len <= 0xFFFF
    modifies buf
    ensures var b := old(buf[..]);
            var r := DecryptAt(c, s, ctx, b, len, tun);
            if r.None? then newLen == -1 && buf[..len] == LeftAt(c, s, ctx, b, len, tun)
            else newLen == |r.value| <= buf.Length && buf[..newLen] == r.value
  {
    hide Open, Rebuilt, WordAt, Spoiled, WithProto, DecryptAt, LeftAt;
    ghost var b := buf[..];
    var nonce, proto := buf[tun..tun + s.nonceSize], buf[tun + s.nonceSize + 1];
    var enc := tun + s.TunnelHdrSize();
    ghost var sealed := b[enc..len];
    DecryptAtForms(c, s, ctx, b, len, tun, nonce, proto, sealed);
    buf[ETH + PROTO_OFF] := proto;
    ghost var b1 := buf[..];
    ProtoWritten(b, b1, proto, enc, len);
    ghost var rest;
    newLen, rest := OpenAndMove(c, s, ctx, nonce, buf, tun, enc, len, PlausibleFor(proto));
    if newLen >= 0 {
      PatchAndRepair(s, buf, b, tun, proto, newLen, Open(c, s, ctx, nonce, sealed, PlausibleFor(proto)).value, rest);
      newLen := tun + newLen;
    } else {
      SpoiledLength(c, s, ctx, nonce, sealed, PlausibleFor(proto));
      Prefix(b1[..enc] + Spoiled(c, s, ctx, nonce, sealed, PlausibleFor(proto)), b1[len..]);
      assert buf[..len] == buf[..][..len];
    }
  }

  lemma ProtoWritten(b: seq<uint8>, b1: seq<uint8>, proto: uint8, enc: nat, len: nat)
    requires ETH + 20 <= enc <= len <= |b| && b1 == b[ETH + PROTO_OFF := proto]
    ensures b1 == WithProto(b, proto) && b1[enc..len] == b[enc..len]
  {}

  lemma DecryptAtForms(c: Cipher, s: Settings, ctx: CryptoCtx, b: seq<uint8>, len: nat, tun: nat,
                       nonce: seq<uint8>, proto: uint8, sealed: seq<uint8>)
    requires s.Valid() && ctx.Valid() && ETH + 20 <= tun && tun + s.TunnelHdrSize() <= len <= |b|
    requires nonce == b[tun..tun + s.nonceSize] && proto == b[tun + s.nonceSize + 1]
             && sealed == b[tun + s.TunnelHdrSize()..len]
    ensures var plain := Open(c, s, ctx, nonce, sealed, PlausibleFor(proto));
            DecryptAt(c, s, ctx, b, len, tun)
            == if plain.None? then None else Some(Rebuilt(s, b, tun, proto, plain.value))
    ensures LeftAt(c, s, ctx, b, len, tun)
         == WithProto(b, proto)[..tun + s.TunnelHdrSize()] + Spoiled(c, s, ctx, nonce, sealed, PlausibleFor(proto))
  {
    hide Open, Rebuilt, Spoiled;
  }

  /** The header patch and the checksum repair of a decrypted packet. */
  method PatchAndRepair(s: Settings, buf: array<uint8>, ghost b: seq<uint8>, tun: nat, proto: uint8, plainLen: nat,
                        ghost plain: seq<uint8>, ghost rest: seq<uint8>)
    requires s.Valid() && ETH + 20 <= tun <= ETH + 60 && tun <= |b| && plainLen == |plain| <= 0xFFFF
    requires buf[..] == WithProto(b, proto)[..tun] + plain + rest
    modifies buf
    ensures tun + plainLen <= buf.Length && buf[..tun + plainLen] == Rebuilt(s, b, tun, proto, plain)
  {
    hide Patch, Repaired, WordAt, Write, Unwrapped, Rebuilt;
    ghost var b1 := WithProto(b, proto);
    assert |b1[..tun] + plain + rest| == buf.Length;
    TotalKept(b, proto, tun, plain, rest);
    var total := WordAt(buf[..], ETH + 2) + 0x1_0000 - Overhead(s);
    PatchMovedHeader(buf, b1, ETH, tun, tun, total, plain, rest);
    ghost var h := Patch(b1[ETH..tun], total);
    UnwrappedForm(b, proto, tun, total, plain, rest);
    Cut(b[..ETH], h, plain + rest);
    ghost var was := buf[..];
    assert was[tun..tun + plainLen] == plain && was[ETH..tun] == h;
    RepairInPlace(buf, buf[..][ETH..tun], proto, tun, plainLen);
    ghost var seg := Repaired(h, proto, plain);
    WriteMiddle(b[..ETH] + h, plain, rest, seg);
    Assoc(b[..ETH] + h, plain, rest);
    RebuiltAs(s, b, tun, proto, plain, total);
    Prefix(b[..ETH] + h + seg, rest);
    assert buf[..tun + plainLen] == buf[..][..tun + plainLen];
  }

  lemma TotalKept(b: seq<uint8>, proto: uint8, tun: nat, plain: seq<uint8>, rest: seq<uint8>)
    requires ETH + 20 <= tun <= |b|
    ensures WordAt(WithProto(b, proto)[..tun] + plain + rest, ETH + 2) == WordAt(b, ETH + 2)
  {}

  lemma UnwrappedForm(b: seq<uint8>, proto: uint8, tun: nat, total: nat, plain: seq<uint8>, rest: seq<uint8>)
    requires ETH + 20 <= tun <= |b|
    ensures var b1 := WithProto(b, proto);
            Unwrapped(b1, ETH, tun, tun, total, plain) + rest == b[..ETH] + Patch(b1[ETH..tun], total) + (plain + rest)
  {
    hide Patch;
    var b1 := WithProto(b, proto);
    var h := Patch(b1[ETH..tun], total);
    assert b1[..ETH] == b[..ETH] && b1[tun..tun] == [];
    assert b[..ETH] + h + [] == b[..ETH] + h;
    Assoc(b[..ETH] + h, plain, rest);
  }

  lemma RebuiltAs(s: Settings, b: seq<uint8>, tun: nat, proto: uint8, plain: seq<uint8>, total: nat)
    requires s.Valid() && ETH + 20 <= tun <= |b| && total == WordAt(b, ETH + 2) + 0x1_0000 - Overhead(s)
    ensures var h := Patch(WithProto(b, proto)[ETH..tun], total);
            Rebuilt(s, b, tun, proto, plain) == b[..ETH] + h + Repaired(h, proto, plain)
  {}

  /** Decrypts the fragment buf[..len] in place and reads its tag. */
  method DecryptFragmentInPlace(c: Cipher, s: Settings, ctx: CryptoCtx, buf: array<uint8>, len: nat)
    returns (newLen: int, id: uint16, index: uint8)
    requires c.Lawful() && s.Valid() && ctx.Valid() && len <= buf.Length
    modifies buf
    ensures var r := DecryptFragment(c, s, ctx, old(buf[..])[..len]);
            if r.None? then newLen == -1
            else newLen == |r.value.packet| <= buf.Length && buf[..newLen] == r.value.packet
                 && id == r.value.id && index == r.value.index
  {
    hide ToDecryptFragment, OpenAt, WordAt;
    newLen, id, index := -1, 0, 0;
    match ToDecryptFragment(s, buf[..][..len])
    case PassOn =>
    case Malformed =>
    case Payload(tun) =>
      var tag := tun + s.TunnelHdrSize();
      OpenAtPrefix(c, s, ctx, buf[..], len, ETH, tun, tun, tag + FRAG_TAG, AcceptAll);
      id, index := WordAt(buf[..][..len], tag), buf[tag + 2];
      newLen := OpenMovePatch(c, s, ctx, buf, len, ETH, tun, tun, tag + FRAG_TAG, AcceptAll);
  }

  /** Builds one encrypted fragment in out. */
  method EncryptFragmentInto(c: Cipher, s: Settings, ctx: CryptoCtx, counter: uint32, salt: seq<uint8>,
                             eth: seq<uint8>, ip: seq<uint8>, plain: seq<uint8>,
                             id: uint16, index: uint8, out: array<uint8>, outMax: nat) returns (outLen: int)
    requires c.Lawful() && s.Valid() && ctx.Valid() && |salt| == 16
    requires |eth| == ETH && 20 <= |ip| <= 60 && outMax <= out.Length
    modifies out
    ensures var r := EncryptFragment(c, s, ctx, GenerateNonce(counter, salt, s.nonceSize),
                                     eth, ip, plain, id, index, outMax);
            if r.None? then outLen == -1 else outLen == |r.value| <= out.Length && out[..outLen] == r.value
  {
    hide Seal, GenerateNonce, TunnelHdr, FragTag, Patch;
    if plain == [] || ETH + |ip| + FragOverhead(s) + |plain| > outMax {
      return -1;
    }
    var nonce := GenerateNonce(counter, salt, s.nonceSize);
    var tunnel, tag := TunnelHdr(nonce, s.policyId, FRAG_MAGIC), FragTag(id, index);
    var sealed := Seal(c, s.mode, ctx.Current(), nonce, plain);
    SealLength(c, s, ctx.Current(), nonce, plain);
    outLen := ETH + |ip| + |tunnel| + |tag| + |sealed|;
    BuildFragment(out, eth, ip[PROTO_OFF := s.fakeProtocol], tunnel, tag, sealed);
  }

  /** The copies that fill the output buffer, and the header patch at the end. */
  method BuildFragment(out: array<uint8>, eth: seq<uint8>, ip: seq<uint8>, tunnel: seq<uint8>,
                       tag: seq<uint8>, sealed: seq<uint8>)
    requires |eth| == ETH && 20 <= |ip| <= 60
    requires ETH + |ip| + |tunnel| + |tag| + |sealed| <= out.Length
    modifies out
    ensures var n := ETH + |ip| + |tunnel| + |tag| + |sealed|;
            out[..n] == eth + Patch(ip, n - ETH) + tunnel + (tag + sealed)
  {
    hide *;
    FillFragment(out, eth, ip, tunnel, tag, sealed);
    FragmentGrouping(eth + ip, tunnel, tag, sealed);
    var off := ETH + |ip|;
    var n := off + |tunnel| + |tag| + |sealed|;
    PatchBuiltHeader(out, eth, ip, tunnel + (tag + sealed), ETH, off, n);
    FragmentGrouping(eth + Patch(ip, n - ETH), tunnel, tag, sealed);
  }

  method FillFragment(out: array<uint8>, eth: seq<uint8>, ip: seq<uint8>, tunnel: seq<uint8>,
                      tag: seq<uint8>, sealed: seq<uint8>)
    requires |eth| == ETH && ETH + |ip| + |tunnel| + |tag| + |sealed| <= out.Length
    modifies out
    ensures out[..ETH + |ip| + |tunnel| + |tag| + |sealed|] == eth + ip + tunnel + tag + sealed
  {
    hide *;
    AppendAt(out, [], 0, eth);
    assert [] + eth == eth;
    AppendAt(out, eth, ETH, ip);
    AppendAt(out, eth + ip, ETH + |ip|, tunnel);
    AppendAt(out, eth + ip + tunnel, ETH + |ip| + |tunnel|, tag);
    AppendAt(out, eth + ip + tunnel + tag, ETH + |ip| + |tunnel| + |tag|, sealed);
  }

  /** Decryption never makes a packet longer. */
  lemma NoGrowth(c: Cipher, s: Settings, ctx: CryptoCtx, pkt: seq<uint8>)
    requires c.Lawful() && s.Valid() && ctx.Valid() && Decrypt(c, s, ctx, pkt).Some?
    ensures |Decrypt(c, s, ctx, pkt).value| <= |pkt|
  {
    hide Open, Rebuilt;
    match ToDecrypt(s, pkt)
    case Payload(tun) =>
      var enc := tun + s.TunnelHdrSize();
      OpenShrinks(c, s, ctx, pkt[tun..tun + s.nonceSize], pkt[enc..|pkt|], PlausibleFor(pkt[enc - 1]));
    case _ =>
  }

  /** Decryption depends on the mode, the nonce size and the fake protocol only. */
  lemma SettingsUsed(c: Cipher, s: Settings, r: Settings, ctx: CryptoCtx, pkt: seq<uint8>)
    requires s.Valid() && r.Valid() && ctx.Valid()
    requires s.mode == r.mode && s.nonceSize == r.nonceSize && s.fakeProtocol == r.fakeProtocol
    ensures Decrypt(c, s, ctx, pkt) == Decrypt(c, r, ctx, pkt)
  {
    hide Open, Patch, Repaired, PayloadOffset, WordAt;
    match ToDecrypt(s, pkt)
    case Payload(tun) =>
      OpenSettings(c, s, r, ctx, pkt[tun..tun + s.nonceSize], pkt[tun + s.TunnelHdrSize()..|pkt|],
                   PlausibleFor(pkt[tun + s.nonceSize + 1]));
    case _ =>
  }

  /** What a failed decryption leaves passes through any further one, unless the original protocol happens to be the
      fake one. */
  lemma LeftPassesOn(c: Cipher, s: Settings, ctx: CryptoCtx, pkt: seq<uint8>, r: Settings, rctx: CryptoCtx)
    requires s.Valid() && ctx.Valid() && r.Valid() && rctx.Valid()
    requires ToDecrypt(s, pkt).Payload? && pkt[PayloadOffset(pkt).value + s.nonceSize + 1] != r.fakeProtocol
    ensures Decrypt(c, r, rctx, Left(c, s, ctx, pkt)) == Some(Left(c, s, ctx, pkt))
  {
    hide Spoiled, DecryptAt;
    var tun := PayloadOffset(pkt).value;
    var left := Left(c, s, ctx, pkt);
    assert forall k | 0 <= k < tun && k != ETH + PROTO_OFF :: left[k] == pkt[k];
    assert left[ETH + PROTO_OFF] == pkt[tun + s.nonceSize + 1];
  }
}
