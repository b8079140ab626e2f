/** Layer-4 tunnelling: the IP header and the four port bytes stay in clear, a tunnel header follows
    them, and everything behind the ports is encrypted. */
module Layer4 {
  import opened Bytes
  import opened Ipv4
  import opened PacketCrypto
  import opened Tunnel

  const PORTS := 4
  const TUNNEL_MAGIC: uint8 := 0xA5
  const FRAG_MAGIC: uint8 := 0x5A
  const FRAG_HDR := 4

  /** Bytes a fragment adds behind the ports. */
  function FragOverhead(s: Settings): nat { s.TunnelHdrSize() + FRAG_HDR + s.TagLen() }

  /** Bytes a whole encrypted packet adds behind the ports. */
  function Overhead(s: Settings): nat { s.TunnelHdrSize() + s.TagLen() }

  // --- whole packets ---------------------------------------------------------------

  /** The announced IP header, when there is one, lies inside the packet. */
  predicate HeadersComplete(pkt: seq<uint8>)
  {
    var l3 := EthIpv4Offset(pkt);
    l3.Some? && |pkt| >= l3.value + 20 ==> |pkt| >= l3.value + HdrLen(pkt[l3.value])
  }

  /** What the tests at the head of each operation decide: pass the packet on as it is, report an error,
      or work on the transport part that starts at toff behind the IP header at l3. */
  datatype Layout = PassOn | Malformed | Transport(l3: nat, toff: nat)

  /** IPv4 carrying TCP or UDP behind a header of at least 20 bytes. */
  function Locate(pkt: seq<uint8>): (r: Layout)
    ensures r.Transport? ==> EthIpv4Offset(pkt) == Some(r.l3) && |pkt| >= r.l3 + 20
                             && pkt[r.l3 + 9] in {PROTO_TCP, PROTO_UDP}
                             && r.toff == r.l3 + HdrLen(pkt[r.l3]) && r.l3 + 20 <= r.toff <= r.l3 + 60
  {
    var l3 := EthIpv4Offset(pkt);
    if l3.None? then PassOn
    else if |pkt| < l3.value + 20 then Malformed
    else if pkt[l3.value + 9] != PROTO_TCP && pkt[l3.value + 9] != PROTO_UDP then PassOn
    else if HdrLen(pkt[l3.value]) < 20 then Malformed
    else Transport(l3.value, l3.value + HdrLen(pkt[l3.value]))
  }

  /** The tests of encryption: a complete transport header, too.  The caller's flow parser lets only packets
      through whose IP header is complete. */
  function ToEncrypt(pkt: seq<uint8>): (r: Layout)
    requires HeadersComplete(pkt)
    ensures r.Transport? ==> r == Locate(pkt) && r.toff + PORTS <= |pkt|
  {
    var at := Locate(pkt);
    if at.Transport? && TransportHdrSize(pkt[at.toff..], pkt[at.l3 + 9]).None? then PassOn else at
  }

  /** The tests of decryption: a tunnel header behind the ports, with the magic byte and the nonce flag clear. */
  function ToDecrypt(s: Settings, pkt: seq<uint8>): (r: Layout)
    ensures r.Transport? ==> r == Locate(pkt) && r.toff + PORTS + s.TunnelHdrSize() <= |pkt|
  {
    var at := Locate(pkt);
    if at.Transport? then
      var tun := at.toff + PORTS;
      if |pkt| < tun + s.TunnelHdrSize() then PassOn
      else if pkt[tun + s.nonceSize + 1] != TUNNEL_MAGIC || pkt[tun] >= 0x80 then PassOn
      else at
    else at
  }

  /** Encryption of a whole packet; None is the error return. */
  function Encrypt(c: Cipher, s: Settings, ctx: CryptoCtx, nonce: seq<uint8>, pkt: seq<uint8>): Option<seq<uint8>>
    requires s.Valid() && ctx.Valid() && |nonce| == s.nonceSize
    requires HeadersComplete(pkt)
  {
    match ToEncrypt(pkt)
    case PassOn => Some(pkt)
    case Malformed => None
    case Transport(l3, toff) =>
      Some(Wrapped(pkt, l3, toff, toff + PORTS, |pkt| + Overhead(s) - l3, TunnelHdr(nonce, s.policyId, TUNNEL_MAGIC),
                   Seal(c, s.mode, ctx.Current(), nonce, pkt[toff + PORTS..])))
  }

  function Decrypt(c: Cipher, s: Settings, ctx: CryptoCtx, pkt: seq<uint8>): Option<seq<uint8>>
    requires s.Valid() && ctx.Valid()
  {
    match ToDecrypt(s, pkt)
    case PassOn => Some(pkt)
    case Malformed => None
    case Transport(l3, toff) =>
      OpenAt(c, s, ctx, pkt, |pkt|, l3, toff, toff + PORTS, toff + PORTS + s.TunnelHdrSize(), AcceptAll)
  }

  /** What a failed decryption leaves of the packet. */
  function Left(c: Cipher, s: Settings, ctx: CryptoCtx, pkt: seq<uint8>): seq<uint8>
    requires s.Valid() && ctx.Valid()
  {
    match ToDecrypt(s, pkt)
    case Transport(l3, toff) =>
      var dst, enc := toff + PORTS, toff + PORTS + s.TunnelHdrSize();
      pkt[..enc] + Spoiled(c, s, ctx, pkt[dst..dst + s.nonceSize], pkt[enc..], AcceptAll)
    case _ => pkt
  }

  /** The packets Encrypt transforms: IPv4 with a complete TCP or UDP header. */
  predicate Handled(pkt: seq<uint8>) { HeadersComplete(pkt) && ToEncrypt(pkt).Transport? }

  /** The packet with the total length of its IP header set to the bytes present and the header checksum
      recomputed: what a receiver can at best restore. */
  function Normalized(pkt: seq<uint8>): seq<uint8>
    requires Handled(pkt)
  {
    var Transport(l3, toff) := Locate(pkt);
    pkt[..l3] + Patch(pkt[l3..toff], |pkt| - l3) + pkt[toff..]
  }

  // --- fragments -------------------------------------------------------------------

  /** One encrypted fragment, or None when the plaintext is empty or the result would not fit outMax bytes. */
  function EncryptFragment(c: Cipher, s: Settings, ctx: CryptoCtx, nonce: seq<uint8>,
                           eth: seq<uint8>, ip: seq<uint8>, ports: seq<uint8>, plain: seq<uint8>,
                           id: uint16, index: uint8, outMax: nat): Option<seq<uint8>>
    requires s.Valid() && ctx.Valid() && |nonce| == s.nonceSize
    requires |eth| == ETH && 20 <= |ip| <= 60 && |ports| == PORTS
  {
    if plain == [] then None
    else if ETH + |ip| + PORTS + FragOverhead(s) + |plain| > outMax then None
    else Some(eth
              + Patch(ip, |ip| + PORTS + FragOverhead(s) + |plain|)
              + ports
              + TunnelHdr(nonce, s.policyId, FRAG_MAGIC)
              + (FragTag(id, index) + Seal(c, s.mode, ctx.Current(), nonce, plain)))
  }

  /** The tests of fragment decryption: everything that is not a complete fragment is an error. */
  function ToDecryptFragment(s: Settings, pkt: seq<uint8>): (r: Layout)
    ensures r.Transport? ==> r == Locate(pkt) && r.toff + PORTS + s.TunnelHdrSize() + FRAG_HDR <= |pkt|
  {
    var at := Locate(pkt);
    if at.Transport? then
      var tun := at.toff + PORTS;
      if |pkt| < tun + s.TunnelHdrSize() + FRAG_HDR || pkt[tun + s.nonceSize + 1] != FRAG_MAGIC then Malformed else at
    else Malformed
  }

  function DecryptFragment(c: Cipher, s: Settings, ctx: CryptoCtx, pkt: seq<uint8>): Option<Fragment>
    requires s.Valid() && ctx.Valid()
  {
    match ToDecryptFragment(s, pkt)
    case PassOn => None
    case Malformed => None
    case Transport(l3, toff) =>
      var tag := toff + PORTS + s.TunnelHdrSize();
      var out := OpenAt(c, s, ctx, pkt, |pkt|, l3, toff, toff + PORTS, tag + FRAG_HDR, AcceptAll);
      if out.None? then None else Some(Fragment(out.value, WordAt(pkt, tag), pkt[tag + 2]))
  }

  // --- what decryption recovers ----------------------------------------------------

  /** What DecryptFragment does with any packet of the fragment shape. */
  lemma DecryptFragmentShape(c: Cipher, s: Settings, ctx: CryptoCtx, eth: seq<uint8>, h: seq<uint8>,
                             ports: seq<uint8>, nonce: seq<uint8>, pid: uint8, id: uint16, index: uint8,
                             body: seq<uint8>, plain: seq<uint8>)
    requires s.Valid() && ctx.Valid() && |nonce| == s.nonceSize && |ports| == PORTS
    requires 20 <= |h| && HdrLen(h[0]) == |h| && h[9] in {PROTO_TCP, PROTO_UDP}
    requires EthIpv4Offset(eth + h) == Some(|eth|)
    requires Open(c, s, ctx, nonce, body, AcceptAll) == Some(plain)
    ensures var wire := eth + h + ports + TunnelHdr(nonce, pid, FRAG_MAGIC) + (FragTag(id, index) + body);
            DecryptFragment(c, s, ctx, wire)
            == Some(Fragment(eth + Patch(h, |h| + PORTS + |plain|) + ports + plain, id, index))
  {
    hide Open, Patch, EthIpv4Offset, TunnelHdr, FragTag, WordAt, Unwrapped;
    var rest := FragTag(id, index) + body;
    var p := eth + h + ports + TunnelHdr(nonce, pid, FRAG_MAGIC) + rest;
    Parts(eth, h, ports, nonce, pid, FRAG_MAGIC, rest);
    var tag := |eth| + |h| + PORTS + |nonce| + 2;
    TagParts(p, tag, id, index, body);
    assert Locate(p) == Transport(|eth|, |eth| + |h|);
    assert p[tag + FRAG_HDR..|p|] == body;
    UnwrappedParts(p, eth, h, ports, |h| + PORTS + |plain|, plain);
  }

  /** Decrypting an encrypted fragment gives back the plaintext behind the ports, the id and the index. */
  lemma FragmentRoundTrip(c: Cipher, s: Settings, ctx: CryptoCtx, nonce: seq<uint8>,
                          eth: seq<uint8>, ip: seq<uint8>, ports: seq<uint8>, plain: seq<uint8>,
                          id: uint16, index: uint8, outMax: nat)
    requires c.Lawful() && s.Valid() && ctx.Valid() && |nonce| == s.nonceSize
    requires |eth| == ETH && EthIpv4Offset(eth + ip) == Some(ETH)
    requires 20 <= |ip| <= 60 && HdrLen(ip[0]) == |ip| && ip[9] in {PROTO_TCP, PROTO_UDP} && |ports| == PORTS
    requires EncryptFragment(c, s, ctx, nonce, eth, ip, ports, plain, id, index, outMax).Some?
    ensures var wire := EncryptFragment(c, s, ctx, nonce, eth, ip, ports, plain, id, index, outMax).value;
            DecryptFragment(c, s, ctx, wire)
            == Some(Fragment(eth + Patch(ip, |ip| + PORTS + |plain|) + ports + plain, id, index))
  {
    hide Seal, Open, Patch;
    var n := |ip| + PORTS + FragOverhead(s) + |plain|;
    var h := Patch(ip, n);
    var sealed := Seal(c, s.mode, ctx.Current(), nonce, plain);
    assert EncryptFragment(c, s, ctx, nonce, eth, ip, ports, plain, id, index, outMax).value
        == eth + h + ports + TunnelHdr(nonce, s.policyId, FRAG_MAGIC) + (FragTag(id, index) + sealed);
    hide *;
    PatchedShape(eth, ip, n);
    OpenSeal(c, s, ctx, nonce, plain, AcceptAll);
    PatchAbsorbs(ip, n, |ip| + PORTS + |plain|);
    DecryptFragmentShape(c, s, ctx, eth, h, ports, nonce, s.policyId, id, index, sealed, plain);
  }

  lemma DecryptShape(c: Cipher, s: Settings, ctx: CryptoCtx, eth: seq<uint8>, h: seq<uint8>,
                     ports: seq<uint8>, nonce: seq<uint8>, pid: uint8, body: seq<uint8>, plain: seq<uint8>)
    requires s.Valid() && ctx.Valid() && |nonce| == s.nonceSize && nonce[0] < 0x80 && |ports| == PORTS
    requires 20 <= |h| && HdrLen(h[0]) == |h| && h[9] in {PROTO_TCP, PROTO_UDP}
    requires EthIpv4Offset(eth + h) == Some(|eth|)
    requires Open(c, s, ctx, nonce, body, AcceptAll) == Some(plain)
    ensures Decrypt(c, s, ctx, eth + h + ports + TunnelHdr(nonce, pid, TUNNEL_MAGIC) + body)
         == Some(eth + Patch(h, |h| + PORTS + |plain|) + ports + plain)
  {
    hide Open, Patch, EthIpv4Offset, TunnelHdr, FragTag, WordAt, Unwrapped;
    var p := eth + h + ports + TunnelHdr(nonce, pid, TUNNEL_MAGIC) + body;
    Parts(eth, h, ports, nonce, pid, TUNNEL_MAGIC, body);
    var tun := |eth| + |h| + PORTS;
    assert p[tun] == p[tun..tun + |nonce|][0];
    assert Locate(p) == Transport(|eth|, |eth| + |h|);
    assert p[tun + |nonce| + 2..|p|] == body;
    UnwrappedParts(p, eth, h, ports, |h| + PORTS + |plain|, plain);
  }

  lemma Tail(pkt: seq<uint8>, l3: nat, toff: nat)
    requires l3 <= toff && toff + PORTS <= |pkt|
    ensures pkt[toff..] == pkt[toff..toff + PORTS] + pkt[toff + PORTS..] && pkt == pkt[..l3] + pkt[l3..]
  {}

  /** What Encrypt makes of a packet it transforms. */
  lemma EncryptForm(c: Cipher, s: Settings, ctx: CryptoCtx, nonce: seq<uint8>, pkt: seq<uint8>)
    requires c.Lawful() && s.Valid() && ctx.Valid() && |nonce| == s.nonceSize && Handled(pkt)
    ensures var Transport(l3, toff) := ToEncrypt(pkt);
            var eth, ip, ports, plain := pkt[..l3], pkt[l3..toff], pkt[toff..toff + PORTS], pkt[toff + PORTS..];
            var h := Patch(ip, |pkt| + Overhead(s) - l3);
            && Encrypt(c, s, ctx, nonce, pkt)
               == Some(eth + h + ports + TunnelHdr(nonce, s.policyId, TUNNEL_MAGIC)
                       + Seal(c, s.mode, ctx.Current(), nonce, plain))
            && |h| == |ip| >= 20 && HdrLen(h[0]) == |h| && h[9] in {PROTO_TCP, PROTO_UDP} && |ports| == PORTS
            && EthIpv4Offset(eth + h) == Some(|eth|)
            && Patch(h, |ip| + PORTS + |plain|) == Patch(ip, |ip| + PORTS + |plain|)
            && Normalized(pkt) == eth + Patch(ip, |ip| + PORTS + |plain|) + ports + plain
  {
    hide Seal, Patch, TransportHdrSize, EthIpv4Offset, TunnelHdr;
    var Transport(l3, toff) := ToEncrypt(pkt);
    var eth, ip, ports, plain := pkt[..l3], pkt[l3..toff], pkt[toff..toff + PORTS], pkt[toff + PORTS..];
    var n := |pkt| + Overhead(s) - l3;
    Tail(pkt, l3, toff);
    Assoc(eth + Patch(ip, |ip| + PORTS + |plain|), ports, plain);
    OffsetOfPrefix(eth, pkt[l3..], ip);
    PatchedShape(eth, ip, n);
    PatchAbsorbs(ip, n, |ip| + PORTS + |plain|);
  }

  /** What decrypting an encrypted packet gives, also with another context r and other settings that agree on the
      nonce size: what was sealed under the same mode comes back, and whatever is opened is shorter. */
  lemma DecryptOfEncrypt(c: Cipher, s: Settings, ctx: CryptoCtx, r: Settings, rctx: CryptoCtx, nonce: seq<uint8>,
                         pkt: seq<uint8>)
    requires c.Lawful() && s.Valid() && ctx.Valid() && r.Valid() && rctx.Valid()
    requires |nonce| == s.nonceSize == r.nonceSize && nonce[0] < 0x80 && Handled(pkt)
    ensures Encrypt(c, s, ctx, nonce, pkt).Some?
    ensures var wire := Encrypt(c, s, ctx, nonce, pkt).value;
            var plain := pkt[ToEncrypt(pkt).toff + PORTS..];
            var out := Open(c, r, rctx, nonce, Seal(c, s.mode, ctx.Current(), nonce, plain), AcceptAll);
            && (out.Some? ==> Decrypt(c, r, rctx, wire).Some? && |Decrypt(c, r, rctx, wire).value| < |wire|)
            && (out == Some(plain) ==> Decrypt(c, r, rctx, wire) == Some(Normalized(pkt)))
  {
    hide Seal, Open, Patch, TransportHdrSize, EthIpv4Offset, TunnelHdr, Decrypt, Encrypt, ToEncrypt, Normalized;
    EncryptForm(c, s, ctx, nonce, pkt);
    var Transport(l3, toff) := ToEncrypt(pkt);
    var plain := pkt[toff + PORTS..];
    var sealed := Seal(c, s.mode, ctx.Current(), nonce, plain);
    var out := Open(c, r, rctx, nonce, sealed, AcceptAll);
    if out.Some? {
      OpenShrinks(c, r, rctx, nonce, sealed, AcceptAll);
      DecryptShape(c, r, rctx, pkt[..l3], Patch(pkt[l3..toff], |pkt| + Overhead(s) - l3), pkt[toff..toff + PORTS],
                   nonce, s.policyId, sealed, out.value);
    }
  }

  /** Decrypting an encrypted packet gives it back with its total length and header checksum recomputed. */
  lemma PacketRoundTrip(c: Cipher, s: Settings, ctx: CryptoCtx, nonce: seq<uint8>, pkt: seq<uint8>)
    requires c.Lawful() && s.Valid() && ctx.Valid() && |nonce| == s.nonceSize && nonce[0] < 0x80
    requires Handled(pkt)
    ensures Encrypt(c, s, ctx, nonce, pkt).Some?
    ensures Decrypt(c, s, ctx, Encrypt(c, s, ctx, nonce, pkt).value) == Some(Normalized(pkt))
  {
    hide Seal, Open, Decrypt, Encrypt, ToEncrypt, Normalized;
    DecryptOfEncrypt(c, s, ctx, s, ctx, nonce, pkt);
    OpenSeal(c, s, ctx, nonce, pkt[ToEncrypt(pkt).toff + PORTS..], AcceptAll);
  }

  /** Where the receiver finds the tunnel header of an encrypted packet, and what it says. */
  lemma EncryptedShape(c: Cipher, s: Settings, ctx: CryptoCtx, nonce: seq<uint8>, pkt: seq<uint8>)
    requires c.Lawful() && s.Valid() && ctx.Valid() && |nonce| == s.nonceSize && Handled(pkt)
    ensures Encrypt(c, s, ctx, nonce, pkt).Some?
    ensures var wire := Encrypt(c, s, ctx, nonce, pkt).value;
            var at := Locate(pkt);
            var tun := at.toff + PORTS;
            && at.Transport? && Locate(wire) == at && |wire| == |pkt| + Overhead(s) && at.toff + 8 <= |pkt|
            && wire[tun + s.nonceSize] == s.policyId && wire[tun + s.nonceSize + 1] == TUNNEL_MAGIC
  {
    hide Seal, Patch, EthIpv4Offset, TunnelHdr, Encrypt, Normalized;
    EncryptForm(c, s, ctx, nonce, pkt);
    var Transport(l3, toff) := ToEncrypt(pkt);
    var h := Patch(pkt[l3..toff], |pkt| + Overhead(s) - l3);
    SealLength(c, s, ctx.Current(), nonce, pkt[toff + PORTS..]);
    Parts(pkt[..l3], h, pkt[toff..toff + PORTS], nonce, s.policyId, TUNNEL_MAGIC,
          Seal(c, s.mode, ctx.Current(), nonce, pkt[toff + PORTS..]));
  }

  /** An encrypted packet is a valid IPv4 packet of its own length, with the addresses and ports of the original. */
  lemma EncryptedHeader(c: Cipher, s: Settings, ctx: CryptoCtx, nonce: seq<uint8>, pkt: seq<uint8>)
    requires c.Lawful() && s.Valid() && ctx.Valid() && |nonce| == s.nonceSize && Handled(pkt)
    ensures Encrypt(c, s, ctx, nonce, pkt).Some?
    ensures var wire := Encrypt(c, s, ctx, nonce, pkt).value;
            var Transport(l3, toff) := Locate(pkt);
            && toff + PORTS <= |pkt| && toff + PORTS <= |wire|
            && Announces(wire[l3..toff], pkt[l3..toff], |wire| - l3)
            && wire[..l3] == pkt[..l3] && wire[toff..toff + PORTS] == pkt[toff..toff + PORTS]
  {
    hide Seal, Patch, EthIpv4Offset, TunnelHdr, Announces, TransportHdrSize;
    var Transport(l3, toff) := ToEncrypt(pkt);
    var eth, ip, ports := pkt[..l3], pkt[l3..toff], pkt[toff..toff + PORTS];
    var tunnel := TunnelHdr(nonce, s.policyId, TUNNEL_MAGIC);
    var sealed := Seal(c, s.mode, ctx.Current(), nonce, pkt[toff + PORTS..]);
    var g := Patch(ip, |pkt| + Overhead(s) - l3);
    SealLength(c, s, ctx.Current(), nonce, pkt[toff + PORTS..]);
    PatchAnnounces(ip, |pkt| + Overhead(s) - l3);
    AssocFour(eth, g, ports, tunnel, sealed);
    Assoc(eth + g + ports, tunnel, sealed);
    Cut(eth, g, ports + tunnel + sealed);
    Assoc(eth, g, ports + tunnel + sealed);
    Cut(eth + g, ports, tunnel + sealed);
  }

  /** So is a fragment. */
  lemma FragmentHeader(c: Cipher, s: Settings, ctx: CryptoCtx, nonce: seq<uint8>,
                       eth: seq<uint8>, ip: seq<uint8>, ports: seq<uint8>, plain: seq<uint8>,
                       id: uint16, index: uint8, outMax: nat)
    requires c.Lawful() && s.Valid() && ctx.Valid() && |nonce| == s.nonceSize
    requires |eth| == ETH && 20 <= |ip| <= 60 && ip[0] > 0 && |ports| == PORTS
    requires EncryptFragment(c, s, ctx, nonce, eth, ip, ports, plain, id, index, outMax).Some?
    ensures var wire := EncryptFragment(c, s, ctx, nonce, eth, ip, ports, plain, id, index, outMax).value;
            var toff := ETH + |ip|;
            && toff + PORTS <= |wire| <= outMax && Announces(wire[ETH..toff], ip, |wire| - ETH)
            && wire[..ETH] == eth && wire[toff..toff + PORTS] == ports
  {
    hide Seal, Patch, TunnelHdr, Announces, FragTag;
    var tunnel := TunnelHdr(nonce, s.policyId, FRAG_MAGIC);
    var body := FragTag(id, index) + Seal(c, s.mode, ctx.Current(), nonce, plain);
    var g := Patch(ip, |ip| + PORTS + FragOverhead(s) + |plain|);
    SealLength(c, s, ctx.Current(), nonce, plain);
    PatchAnnounces(ip, |ip| + PORTS + FragOverhead(s) + |plain|);
    AssocFour(eth, g, ports, tunnel, body);
    Cut(eth, g, ports + tunnel + body);
    Assoc(eth, g, ports + tunnel + body);
    Assoc(eth + g + ports, tunnel, body);
    Cut(eth + g, ports, tunnel + body);
  }

  lemma NormalizedLength(pkt: seq<uint8>)
    requires Handled(pkt)
    ensures |Normalized(pkt)| == |pkt|
  {
    hide Patch;
  }

  /** A packet without Ethernet padding and with the canonical header checksum is already normalized, and no other
      is. */
  lemma NormalizedIff(pkt: seq<uint8>)
    requires Handled(pkt)
    ensures var at := Locate(pkt);
            Normalized(pkt) == pkt <==> Canonical(pkt[at.l3..at.toff], |pkt| - at.l3)
  {
    var Transport(l3, toff) := Locate(pkt);
    var h := pkt[l3..toff];
    var p := Patch(h, |pkt| - l3);
    PatchFixpoint(h, |pkt| - l3);
    assert pkt == pkt[..l3] + h + pkt[toff..];
    Cut(pkt[..l3], p, pkt[toff..]);
    Cut(pkt[..l3], h, pkt[toff..]);
  }

  // --- the code, working in the packet buffer --------------------------------------

  /** Encrypts buf[..len] in place: the sealed payload moves up to make room for the tunnel header,
      then header and IP fields are written. */
  method EncryptInPlace(c: Cipher, s: Settings, ctx: CryptoCtx, counter: uint32, salt: seq<uint8>,
                        buf: array<uint8>, len: nat) returns (newLen: int)
    requires c.Lawful() && s.Valid() && ctx.Valid() && |salt| == 16
    requires len + Overhead(s) <= buf.Length
    requires HeadersComplete(buf[..len])
    modifies buf
    ensures var r := Encrypt(c, s, ctx, GenerateNonce(counter, salt, s.nonceSize), old(buf[..])[..len]);
            if r.None? then newLen == -1 else newLen == |r.value| && buf[..newLen] == r.value
  {
    hide Seal, Wrapped, ToEncrypt, GenerateNonce, TunnelHdr, HeadersComplete;
    var pkt := buf[..len];
    match ToEncrypt(pkt)
    case PassOn => newLen := len;
    case Malformed => newLen := -1;
    case Transport(l3, toff) =>
      var nonce := GenerateNonce(counter, salt, s.nonceSize);
      var sealed := Seal(c, s.mode, ctx.Current(), nonce, pkt[toff + PORTS..]);
      SealLength(c, s, ctx.Current(), nonce, pkt[toff + PORTS..]);
      var tunnel := TunnelHdr(nonce, s.policyId, TUNNEL_MAGIC);
      WrappedPrefix(buf[..], len, l3, toff, toff + PORTS, len + Overhead(s) - l3, tunnel, sealed);
      newLen := WrapInPlace(buf, l3, toff, toff + PORTS, len + Overhead(s) - l3, tunnel, sealed);
  }

  /** Decrypt and DecryptFragment past their tests, in terms of the buffer b the packet lies in. */
  lemma DecryptInBuffer(c: Cipher, s: Settings, ctx: CryptoCtx, b: seq<uint8>, len: nat, l3: nat, toff: nat)
    requires s.Valid() && ctx.Valid() && len <= |b| && ToDecrypt(s, b[..len]) == Transport(l3, toff)
    ensures Decrypt(c, s, ctx, b[..len])
         == OpenAt(c, s, ctx, b, len, l3, toff, toff + PORTS, toff + PORTS + s.TunnelHdrSize(), AcceptAll)
  {
    hide ToDecrypt, OpenAt;
    OpenAtPrefix(c, s, ctx, b, len, l3, toff, toff + PORTS, toff + PORTS + s.TunnelHdrSize(), AcceptAll);
  }

  lemma LeftInBuffer(c: Cipher, s: Settings, ctx: CryptoCtx, b: seq<uint8>, len: nat, l3: nat, toff: nat)
    requires c.Lawful() && s.Valid() && ctx.Valid() && len <= |b| && ToDecrypt(s, b[..len]) == Transport(l3, toff)
    ensures var dst, enc := toff + PORTS, toff + PORTS + s.TunnelHdrSize();
            var spoiled := Spoiled(c, s, ctx, b[dst..dst + s.nonceSize], b[enc..len], AcceptAll);
            |spoiled| == len - enc && Left(c, s, ctx, b[..len]) == b[..enc] + spoiled
  {
    hide ToDecrypt, Spoiled;
    var dst, enc := toff + PORTS, toff + PORTS + s.TunnelHdrSize();
    var pkt := b[..len];
    assert pkt[..enc] == b[..enc] && pkt[dst..dst + s.nonceSize] == b[dst..dst + s.nonceSize]
      && pkt[enc..] == b[enc..len];
    SpoiledLength(c, s, ctx, b[dst..dst + s.nonceSize], b[enc..len], AcceptAll);
  }

  lemma DecryptFragmentInBuffer(c: Cipher, s: Settings, ctx: CryptoCtx, b: seq<uint8>, len: nat, l3: nat, toff: nat)
    requires s.Valid() && ctx.Valid() && len <= |b| && ToDecryptFragment(s, b[..len]) == Transport(l3, toff)
    ensures var tag := toff + PORTS + s.TunnelHdrSize();
            var out := OpenAt(c, s, ctx, b, len, l3, toff, toff + PORTS, tag + FRAG_HDR, AcceptAll);
            DecryptFragment(c, s, ctx, b[..len])
            == if out.None? then None else Some(Fragment(out.value, WordAt(b[..len], tag), b[tag + 2]))
  {
    hide ToDecryptFragment, OpenAt, WordAt;
    OpenAtPrefix(c, s, ctx, b, len, l3, toff, toff + PORTS, toff + PORTS + s.TunnelHdrSize() + FRAG_HDR, AcceptAll);
  }

  lemma DecryptRest(c: Cipher, s: Settings, ctx: CryptoCtx, pkt: seq<uint8>)
    requires s.Valid() && ctx.Valid()
    ensures ToDecrypt(s, pkt).PassOn? ==> Decrypt(c, s, ctx, pkt) == Some(pkt)
    ensures ToDecrypt(s, pkt).Malformed? ==> Decrypt(c, s, ctx, pkt) == None && Left(c, s, ctx, pkt) == pkt
    ensures !ToDecryptFragment(s, pkt).Transport? ==> DecryptFragment(c, s, ctx, pkt) == None
  {
    hide OpenAt;
  }

  /** Decrypts buf[..len] in place. */
  method DecryptInPlace(c: Cipher, s: Settings, ctx: CryptoCtx, buf: array<uint8>, len: nat) returns (newLen: int)
    requires c.Lawful() && s.Valid() && ctx.Valid() && len <= buf.Length
    modifies buf
    ensures var pkt := old(buf[..])[..len];
            var r := Decrypt(c, s, ctx, pkt);
            if r.None? then newLen == -1 && buf[..len] == Left(c, s, ctx, pkt)
            else newLen == |r.value| <= buf.Length && buf[..newLen] == r.value
  {
    hide Decrypt, ToDecrypt, OpenAt, Left, Spoiled;
    ghost var b := buf[..];
    ghost var pkt := b[..len];
    DecryptRest(c, s, ctx, pkt);
    match ToDecrypt(s, buf[..][..len])
    case PassOn => newLen := len;
    case Malformed => newLen := -1;
    case Transport(l3, toff) =>
      DecryptInBuffer(c, s, ctx, buf[..], len, l3, toff);
      LeftInBuffer(c, s, ctx, buf[..], len, l3, toff);
      newLen := OpenMovePatch(c, s, ctx, buf, len, l3, toff, toff + PORTS, toff + PORTS + s.TunnelHdrSize(), AcceptAll);
      Prefix(Left(c, s, ctx, pkt), b[len..]);
      assert newLen == -1 ==> buf[..len] == buf[..][..len];
  }

  /** Decrypts the fragment buf[..len] in place and reads its tag. */
  method DecryptFragmentInPlace(c: Cipher, s: Settings, ctx: CryptoCtx, buf: array<uint8>, len: nat)
    returns (newLen: int, id: uint16, index: uint8)
    requires c.Lawful() && s.Valid() && ctx.Valid() && len <= buf.Length
    modifies buf
    ensures var r := DecryptFragment(c, s, ctx, old(buf[..])[..len]);
            if r.None? then newLen == -1
            else newLen == |r.value.packet| <= buf.Length && buf[..newLen] == r.value.packet
                 && id == r.value.id && index == r.value.index
  {
    hide DecryptFragment, ToDecryptFragment, OpenAt, WordAt;
    newLen, id, index := -1, 0, 0;
    DecryptRest(c, s, ctx, buf[..][..len]);
    match ToDecryptFragment(s, buf[..][..len])
    case PassOn =>
    case Malformed =>
    case Transport(l3, toff) =>
      var tag := toff + PORTS + s.TunnelHdrSize();
      DecryptFragmentInBuffer(c, s, ctx, buf[..], len, l3, toff);
      id, index := WordAt(buf[..][..len], tag), buf[tag + 2];
      newLen := OpenMovePatch(c, s, ctx, buf, len, l3, toff, toff + PORTS, tag + FRAG_HDR, AcceptAll);
  }

  /** Builds one encrypted fragment in out. */
  method EncryptFragmentInto(c: Cipher, s: Settings, ctx: CryptoCtx, counter: uint32, salt: seq<uint8>,
                             eth: seq<uint8>, ip: seq<uint8>, ports: seq<uint8>, plain: seq<uint8>,
                             id: uint16, index: uint8, out: array<uint8>, outMax: nat) returns (outLen: int)
    requires c.Lawful() && s.Valid() && ctx.Valid() && |salt| == 16
    requires |eth| == ETH && 20 <= |ip| <= 60 && |ports| == PORTS && outMax <= out.Length
    modifies out
    ensures var r := EncryptFragment(c, s, ctx, GenerateNonce(counter, salt, s.nonceSize),
                                     eth, ip, ports, plain, id, index, outMax);
            if r.None? then outLen == -1 else outLen == |r.value| <= out.Length && out[..outLen] == r.value
  {
    if plain == [] || ETH + |ip| + PORTS + FragOverhead(s) + |plain| > outMax {
      return -1;
    }
    var nonce := GenerateNonce(counter, salt, s.nonceSize);
    var tunnel, tag := TunnelHdr(nonce, s.policyId, FRAG_MAGIC), FragTag(id, index);
    var sealed := Seal(c, s.mode, ctx.Current(), nonce, plain);
    SealLength(c, s, ctx.Current(), nonce, plain);
    var off := ETH + |ip|;
    var n := off + PORTS + |tunnel| + |tag| + |sealed|;
    assert n == ETH + |ip| + PORTS + FragOverhead(s) + |plain|;
    assert EncryptFragment(c, s, ctx, nonce, eth, ip, ports, plain, id, index, outMax)
        == Some(eth + Patch(ip, n - ETH) + ports + tunnel + (tag + sealed));
    hide *;
    AppendAt(out, [], 0, eth);
    assert [] + eth == eth;
    AppendAt(out, eth, ETH, ip);
    AppendAt(out, eth + ip, off, ports);
    AppendAt(out, eth + ip + ports, off + PORTS, tunnel);
    AppendAt(out, eth + ip + ports + tunnel, off + PORTS + |tunnel|, tag);
    AppendAt(out, eth + ip + ports + tunnel + tag, off + PORTS + |tunnel| + |tag|, sealed);
    PortsGrouping(eth + ip, ports, tunnel, tag, sealed);
    PatchBuiltHeader(out, eth, ip, ports + tunnel + (tag + sealed), ETH, off, n);
    PortsGrouping(eth + Patch(ip, n - ETH), ports, tunnel, tag, sealed);
    outLen := n;
  }

  /** The same with the ports in front of the tunnel header. */
  lemma PortsGrouping(head: seq<uint8>, ports: seq<uint8>, tunnel: seq<uint8>, tag: seq<uint8>, sealed: seq<uint8>)
    ensures head + ports + tunnel + tag + sealed == head + (ports + tunnel + (tag + sealed))
    ensures head + ports + tunnel + (tag + sealed) == head + (ports + tunnel + (tag + sealed))
  {
    FragmentGrouping(head + ports, tunnel, tag, sealed);
    Assoc(ports, tunnel, tag + sealed);
    Assoc(head, ports, tunnel + (tag + sealed));
  }

  /** Decryption never makes a packet longer. */
  lemma NoGrowth(c: Cipher, s: Settings, ctx: CryptoCtx, pkt: seq<uint8>)
    requires c.Lawful() && s.Valid() && ctx.Valid() && Decrypt(c, s, ctx, pkt).Some?
    ensures |Decrypt(c, s, ctx, pkt).value| <= |pkt|
  {
    hide Open, Unwrapped;
    match ToDecrypt(s, pkt)
    case Transport(l3, toff) =>
      var dst, enc := toff + PORTS, toff + PORTS + s.TunnelHdrSize();
      OpenShrinks(c, s, ctx, pkt[dst..dst + s.nonceSize], pkt[enc..|pkt|], AcceptAll);
    case _ =>
  }

  /** Decryption depends on the mode and the nonce size only. */
  lemma SettingsUsed(c: Cipher, s: Settings, r: Settings, ctx: CryptoCtx, pkt: seq<uint8>)
    requires s.Valid() && r.Valid() && ctx.Valid() && s.mode == r.mode && s.nonceSize == r.nonceSize
    ensures Decrypt(c, s, ctx, pkt) == Decrypt(c, r, ctx, pkt)
  {
    hide Open, Unwrapped, Locate;
    match ToDecrypt(s, pkt)
    case Transport(l3, toff) =>
      var dst, enc := toff + PORTS, toff + PORTS + s.TunnelHdrSize();
      OpenSettings(c, s, r, ctx, pkt[dst..dst + s.nonceSize], pkt[enc..|pkt|], AcceptAll);
    case _ =>
  }
}
