/** Splitting a large packet into two encrypted fragments and joining them again, one table slot at a time.
    The three layers differ in what travels inside a fragment; everything else is shared. */
module Fragmentation {
  import opened Bytes
  import opened Ipv4
  import opened PacketCrypto
  import opened Tunnel
  import opened Layer3
  import Layer2
  import Layer4

  const MAX_PENDING := 1600
  const MAX_PLAIN := 2048
  const MAX_WIRE := 2048
  const MAX_JOINED := 4096
  const TIMEOUT_NS := 200 * 1000000

  datatype Layer = L2 | L3 | L4

  // --- splitting -------------------------------------------------------------------

  /** Where the second half starts: behind the transport header and half of the application bytes.  Layer 2 also
      splits other protocols, in the middle of the IP payload. */
  function CutPoint(layer: Layer, pkt: seq<uint8>): (r: Option<nat>)
    ensures r.Some? ==> PayloadOffset(pkt).Some? && PayloadOffset(pkt).value <= r.value < |pkt|
  {
    if PayloadOffset(pkt).None? then None
    else
      var toff, proto := PayloadOffset(pkt).value, pkt[ETH + PROTO_OFF];
      if proto in {PROTO_TCP, PROTO_UDP} then
        var th := TransportHdrSize(pkt[toff..], proto);
        if th.None? || toff + th.value == |pkt| then None
        else Some(toff + th.value + (|pkt| - toff - th.value) / 2)
      else if layer == L2 && toff < |pkt| then Some(toff + (|pkt| - toff) / 2)
      else None
  }

  /** Where the plaintext of the first fragment starts: layer 2 also hides the IP header. */
  function FirstStart(layer: Layer, pkt: seq<uint8>): (r: nat)
    requires PayloadOffset(pkt).Some?
    ensures r <= PayloadOffset(pkt).value
  {
    if layer == L2 then ETH else PayloadOffset(pkt).value
  }

  /** The layer's fragment encryption, applied to a part of pkt. */
  function EncryptHalf(layer: Layer, c: Cipher, s: Settings, ctx: CryptoCtx, nonce: seq<uint8>, pkt: seq<uint8>,
                       plain: seq<uint8>, id: uint16, index: uint8): Option<seq<uint8>>
    requires s.Valid() && ctx.Valid() && |nonce| == s.nonceSize && CutPoint(layer, pkt).Some?
    requires layer == L4 ==> PayloadOffset(pkt).value + Layer4.PORTS <= |pkt|
  {
    var toff := PayloadOffset(pkt).value;
    match layer
    case L2 => Layer2.EncryptFragment(c, s, ctx, nonce, pkt[..ETH], plain, id, index, MAX_WIRE)
    case L3 => EncryptFragment(c, s, ctx, nonce, pkt[..ETH], pkt[ETH..toff], plain, id, index, MAX_WIRE)
    case L4 => Layer4.EncryptFragment(c, s, ctx, nonce, pkt[..ETH], pkt[ETH..toff],
                                      pkt[toff..toff + Layer4.PORTS], plain, id, index, MAX_WIRE)
  }

  /** The two fragments of a packet, or None when it cannot be split. */
  function Split(layer: Layer, c: Cipher, s: Settings, ctx: CryptoCtx, n1: seq<uint8>, n2: seq<uint8>,
                 id: uint16, pkt: seq<uint8>): Option<(seq<uint8>, seq<uint8>)>
    requires s.Valid() && ctx.Valid() && |n1| == |n2| == s.nonceSize
  {
    var cut := CutPoint(layer, pkt);
    if cut.None? then None
    else
      PortsPresent(layer, pkt);
      var first := pkt[FirstStart(layer, pkt)..cut.value];
      if |first| > MAX_PLAIN then None
      else
        var w1 := EncryptHalf(layer, c, s, ctx, n1, pkt, first, id, 0);
        var w2 := EncryptHalf(layer, c, s, ctx, n2, pkt, pkt[cut.value..], id, 1);
        if w1.Some? && w2.Some? then Some((w1.value, w2.value)) else None
  }

  lemma PortsPresent(layer: Layer, pkt: seq<uint8>)
    requires CutPoint(layer, pkt).Some?
    ensures layer == L4 ==> PayloadOffset(pkt).value + Layer4.PORTS <= |pkt|
  {}

  function DecryptHalf(layer: Layer, c: Cipher, s: Settings, ctx: CryptoCtx, wire: seq<uint8>): Option<Fragment>
    requires s.Valid() && ctx.Valid()
  {
    match layer
    case L2 => Layer2.DecryptFragment(c, s, ctx, wire)
    case L3 => DecryptFragment(c, s, ctx, wire)
    case L4 => Layer4.DecryptFragment(c, s, ctx, wire)
  }

  // --- one slot of the reassembly table --------------------------------------------

  /** A pending first half.  data is the fixed buffer; only its first dataLen bytes belong to the half, the rest
      is whatever an earlier one left behind. */
  datatype Entry = Entry(id: uint16, data: seq<uint8>, dataLen: nat, eth: seq<uint8>, ip: seq<uint8>,
                         proto: uint8, timestamp: uint64, valid: bool)
  {
    predicate Valid()
    {
      && |data| == MAX_PENDING && dataLen <= MAX_PENDING
      && (valid ==> |eth| == ETH && 20 <= |ip| <= 60)
    }
  }

  /** The part of a decrypted first fragment that is kept. */
  datatype First = First(ip: seq<uint8>, proto: uint8, data: seq<uint8>)

  datatype Outcome = Failed | Pending | Complete(packet: seq<uint8>)

  /** Layer-4 reassembly reads the IP header without testing its length; fragment decryption has done so. */
  predicate Readable(layer: Layer, pkt: seq<uint8>)
  {
    layer == L4 && IsIpv4(pkt) ==> PayloadOffset(pkt).Some?
  }

  /** The tests at the head of the three functions. */
  predicate Accepts(layer: Layer, pkt: seq<uint8>)
  {
    match layer
    case L2 => |pkt| >= ETH + 20
    case L3 => PayloadOffset(pkt).Some?
    case L4 => IsIpv4(pkt)
  }

  /** The plaintext a decrypted fragment carries. */
  function Carried(layer: Layer, pkt: seq<uint8>): seq<uint8>
    requires Accepts(layer, pkt) && Readable(layer, pkt)
  {
    match layer
    case L2 => pkt[ETH..]
    case L3 => pkt[PayloadOffset(pkt).value..]
    case L4 =>
      var off := PayloadOffset(pkt).value + Layer4.PORTS;
      if off < |pkt| then pkt[off..] else []
  }

  /** Layer 3 has to guess the protocol: whatever passes the TCP header test is taken for TCP. */
  function GuessedProto(payload: seq<uint8>): Option<uint8>
  {
    if TransportHdrSize(payload, PROTO_TCP).Some? then Some(PROTO_TCP)
    else if TransportHdrSize(payload, PROTO_UDP).Some? then Some(PROTO_UDP)
    else None
  }

  function FirstOf(layer: Layer, pkt: seq<uint8>): (r: Option<First>)
    requires Accepts(layer, pkt) && Readable(layer, pkt)
    ensures r.Some? ==> 20 <= |r.value.ip| <= 60
  {
    var data := Carried(layer, pkt);
    match layer
    case L2 =>
      if |data| < 20 || data[0] / 0x10 != 4 || HdrLen(data[0]) < 20 || |data| < HdrLen(data[0]) then None
      else Some(First(data[..HdrLen(data[0])], data[9], data))
    case L3 =>
      if GuessedProto(data).None? then None
      else Some(First(pkt[ETH..PayloadOffset(pkt).value], GuessedProto(data).value, data))
    case L4 =>
      Some(First(pkt[ETH..PayloadOffset(pkt).value], pkt[ETH + PROTO_OFF], data))
  }

  /** The stored half is written over the old buffer contents. */
  function Stored(e: Entry, id: uint16, eth: seq<uint8>, first: First, now: uint64): (r: Entry)
    requires e.Valid() && |first.data| <= MAX_PENDING && |eth| == ETH && 20 <= |first.ip| <= 60
    ensures r.Valid()
  {
    Entry(id, first.data + e.data[|first.data|..], |first.data|, eth, first.ip, first.proto, now, true)
  }

  /** The length of the transport header the joined packet starts with; a header that cannot be recognised is
      taken to have the minimum size. */
  function RestoredHdr(transport: seq<uint8>, proto: uint8): (th: nat)
    ensures th <= 60
  {
    var th := TransportHdrSize(transport, proto);
    if th.Some? then th.value else if proto == PROTO_TCP then 20 else 8
  }

  function Max(a: nat, b: nat): nat { if a > b then a else b }

  /** How many bytes of the data buffer go into the joined packet: the pending bytes, but never fewer than the
      transport header is long. */
  function JoinedLen(layer: Layer, e: Entry): (n: nat)
    requires e.Valid() && e.valid
    ensures n <= MAX_PENDING
  {
    if layer == L2 then
      if e.dataLen <= |e.ip| then |e.ip|
      else Max(|e.ip| + RestoredHdr(e.data[|e.ip|..e.dataLen], e.proto), e.dataLen)
    else Max(RestoredHdr(e.data[..e.dataLen], e.proto), e.dataLen)
  }

  /** The joined packet: header patched to the new total length, first half, second half. */
  function Joined(layer: Layer, e: Entry, second: seq<uint8>): seq<uint8>
    requires e.Valid() && e.valid
  {
    var n := JoinedLen(layer, e);
    match layer
    case L2 =>
      e.eth[..12] + [0x08, 0x00] + Patch(e.data[..|e.ip|], n + |second|) + (e.data[|e.ip|..n] + second)
    case L3 =>
      e.eth + Patch(e.ip[PROTO_OFF := e.proto], |e.ip| + n + |second|) + (e.data[..n] + second)
    case L4 =>
      e.eth + Patch(e.ip, |e.ip| + n + |second|) + (e.data[..n] + second)
  }

  /** The length of the packet joined from the pending half and a second half of n bytes. */
  function JoinedSize(layer: Layer, e: Entry, n: nat): nat
    requires e.Valid() && e.valid
  {
    ETH + (if layer == L2 then 0 else |e.ip|) + JoinedLen(layer, e) + n
  }

  /** The code's test of the two halves; it does not count the headers copied in front of them. */
  predicate TotalOk(layer: Layer, total: nat)
  {
    total <= MAX_JOINED && (layer == L4 ==> total >= 8)
  }

  /** One call of a reassembly function, on the slot of its packet id. */
  function Reassemble(layer: Layer, e: Entry, pkt: seq<uint8>, id: uint16, index: uint8, now: uint64)
    : (r: (Outcome, Entry))
    requires e.Valid() && Readable(layer, pkt)
    ensures r.1.Valid()
  {
    if !Accepts(layer, pkt) then (Failed, e)
    else if index == 0 then
      var first := FirstOf(layer, pkt);
      if first.None? || |first.value.data| > MAX_PENDING then (Failed, e)
      else (Pending, Stored(e, id, pkt[..ETH], first.value, now))
    else if index == 1 then
      if !e.valid || e.id != id then (Failed, e)
      else if Elapsed(now, e.timestamp) > TIMEOUT_NS then (Failed, e.(valid := false))
      else if !TotalOk(layer, e.dataLen + |Carried(layer, pkt)|) then (Failed, e.(valid := false))
      else (Complete(Joined(layer, e, Carried(layer, pkt))), e.(valid := false))
    else (Failed, e)
  }

  /** The output buffer, of 4096 bytes like that of every caller, holds what this call joins, if it joins anything. */
  predicate RoomToJoin(layer: Layer, e: Entry, pkt: seq<uint8>, id: uint16, index: uint8, now: uint64)
    requires e.Valid() && Readable(layer, pkt)
  {
    index == 1 && Accepts(layer, pkt) && e.valid && e.id == id && Elapsed(now, e.timestamp) <= TIMEOUT_NS
    && TotalOk(layer, e.dataLen + |Carried(layer, pkt)|) ==>
      JoinedSize(layer, e, |Carried(layer, pkt)|) <= MAX_JOINED
  }

  /** The call needs room exactly when it completes a packet, and the packet has the announced size. */
  lemma RoomIff(layer: Layer, e: Entry, pkt: seq<uint8>, id: uint16, index: uint8, now: uint64)
    requires e.Valid() && Readable(layer, pkt)
    ensures var o := Reassemble(layer, e, pkt, id, index, now).0;
            && (RoomToJoin(layer, e, pkt, id, index, now) <==> (o.Complete? ==> |o.packet| <= MAX_JOINED))
            && (o.Complete? ==> e.valid && Accepts(layer, pkt)
                                && |o.packet| == JoinedSize(layer, e, |Carried(layer, pkt)|))
  {
    hide Accepts, Carried, TotalOk, FirstOf, Stored;
    if e.valid && Accepts(layer, pkt) {
      JoinedHasSize(layer, e, Carried(layer, pkt));
    }
  }

  lemma JoinedHasSize(layer: Layer, e: Entry, second: seq<uint8>)
    requires e.Valid() && e.valid
    ensures |Joined(layer, e, second)| == JoinedSize(layer, e, |second|)
  {
    hide Patch, RestoredHdr;
  }

  /** A second half within the size of an encrypted fragment always finds room, whatever half is pending; all that
      splitting produces is of this kind. */
  lemma FragmentsFit(layer: Layer, e: Entry, pkt: seq<uint8>, id: uint16, index: uint8, now: uint64)
    requires e.Valid() && Readable(layer, pkt) && (Accepts(layer, pkt) ==> |Carried(layer, pkt)| <= MAX_WIRE)
    ensures RoomToJoin(layer, e, pkt, id, index, now)
  {
    hide Accepts, Carried, TotalOk;
  }

  // --- a fragment's way through encryption and decryption --------------------------

  /** What the receiver holds after decrypting one half. */
  function HalfPacket(layer: Layer, s: Settings, pkt: seq<uint8>, plain: seq<uint8>): seq<uint8>
    requires CutPoint(layer, pkt).Some?
    requires layer == L4 ==> PayloadOffset(pkt).value + Layer4.PORTS <= |pkt|
  {
    var toff := PayloadOffset(pkt).value;
    var eth, ip := pkt[..ETH], pkt[ETH..toff];
    match layer
    case L2 => Layer2.Marked(s, eth) + plain
    case L3 => eth + Patch(ip[PROTO_OFF := s.fakeProtocol], |ip| + |plain|) + plain
    case L4 => eth + Patch(ip, |ip| + Layer4.PORTS + |plain|) + pkt[toff..toff + Layer4.PORTS] + plain
  }

  /** Headers of a packet that can be split. */
  lemma Headers(pkt: seq<uint8>)
    requires PayloadOffset(pkt).Some?
    ensures var toff := PayloadOffset(pkt).value;
            var ip := pkt[ETH..toff];
            && 20 <= |ip| <= 60 && HdrLen(ip[0]) == |ip| && ip[PROTO_OFF] == pkt[ETH + PROTO_OFF]
            && EthIpv4Offset(pkt[..ETH] + ip) == Some(ETH) && WordAt(pkt[..ETH], 12) == Layer2.IPV4_TYPE
            && pkt[..ETH] + ip == pkt[..toff]
  {
    var toff := PayloadOffset(pkt).value;
    assert pkt == pkt[..ETH] + pkt[ETH..];
    OffsetOfPrefix(pkt[..ETH], pkt[ETH..], pkt[ETH..toff]);
  }

  lemma HalfRoundTrip(layer: Layer, c: Cipher, s: Settings, ctx: CryptoCtx, nonce: seq<uint8>, pkt: seq<uint8>,
                      plain: seq<uint8>, id: uint16, index: uint8)
    requires c.Lawful() && s.Valid() && ctx.Valid() && |nonce| == s.nonceSize && CutPoint(layer, pkt).Some?
    requires layer == L4 ==> PayloadOffset(pkt).value + Layer4.PORTS <= |pkt|
    requires EncryptHalf(layer, c, s, ctx, nonce, pkt, plain, id, index).Some?
    ensures DecryptHalf(layer, c, s, ctx, EncryptHalf(layer, c, s, ctx, nonce, pkt, plain, id, index).value)
         == Some(Fragment(HalfPacket(layer, s, pkt, plain), id, index))
  {
    hide EncryptFragment, DecryptFragment, Layer2.EncryptFragment, Layer2.DecryptFragment,
         Layer4.EncryptFragment, Layer4.DecryptFragment, Patch, Layer2.Marked, EthIpv4Offset, WordAt, PayloadOffset;
    var toff := PayloadOffset(pkt).value;
    var eth, ip := pkt[..ETH], pkt[ETH..toff];
    Headers(pkt);
    match layer
    case L2 => Layer2.FragmentRoundTrip(c, s, ctx, nonce, eth, plain, id, index, MAX_WIRE);
    case L3 => FragmentRoundTrip(c, s, ctx, nonce, eth, ip, plain, id, index, MAX_WIRE);
    case L4 =>
      var ports := pkt[toff..toff + Layer4.PORTS];
      Layer4.FragmentRoundTrip(c, s, ctx, nonce, eth, ip, ports, plain, id, index, MAX_WIRE);
  }

  lemma HalfPartsL3(eth: seq<uint8>, g: seq<uint8>, rest: seq<uint8>)
    requires |eth| == ETH && 20 <= |g| <= 60 && HdrLen(g[0]) == |g| && EthIpv4Offset(eth + g) == Some(ETH)
    ensures var p := eth + g + rest;
            && PayloadOffset(p) == Some(ETH + |g|) && p[..ETH] == eth && p[ETH..ETH + |g|] == g
            && p[ETH + |g|..] == rest && p[ETH + PROTO_OFF] == g[PROTO_OFF]
  {
    var p := eth + g + rest;
    Cut(eth, g, rest);
    Assoc(eth, g, rest);
    OffsetOfPrefix(eth, g, g + rest);
    assert p[ETH] == p[ETH..ETH + |g|][0];
  }

  /** What reassembly reads from a decrypted half. */
  lemma HalfParts(layer: Layer, s: Settings, pkt: seq<uint8>, plain: seq<uint8>)
    requires CutPoint(layer, pkt).Some?
    requires layer == L4 ==> PayloadOffset(pkt).value + Layer4.PORTS <= |pkt|
    ensures var toff := PayloadOffset(pkt).value;
            var p := HalfPacket(layer, s, pkt, plain);
            && Readable(layer, p)
            && (Accepts(layer, p) <==> (layer == L2 ==> |plain| >= 20))
            && (Accepts(layer, p) ==> Carried(layer, p) == plain)
            && |p| >= ETH && p[..ETH] == (if layer == L2 then Layer2.Marked(s, pkt[..ETH]) else pkt[..ETH])
            && (layer != L2 ==>
                  && PayloadOffset(p) == Some(toff) && p[ETH..toff] == HalfHeader(layer, s, pkt, plain)
                  && p[ETH + PROTO_OFF] == HalfHeader(layer, s, pkt, plain)[PROTO_OFF])
            && (layer == L4 ==> p[ETH + PROTO_OFF] == pkt[ETH + PROTO_OFF])
  {
    hide Patch, Layer2.Marked, EthIpv4Offset, PayloadOffset;
    var toff := PayloadOffset(pkt).value;
    var eth, ip := pkt[..ETH], pkt[ETH..toff];
    Headers(pkt);
    match layer
    case L2 =>
      var m := Layer2.Marked(s, eth);
      Prefix(m, plain);
    case L3 =>
      var f := ip[PROTO_OFF := s.fakeProtocol];
      OffsetOfPrefix(eth, ip, f);
      PatchedShape(eth, f, |ip| + |plain|);
      HalfPartsL3(eth, HalfHeader(layer, s, pkt, plain), plain);
    case L4 =>
      var ports := pkt[toff..toff + Layer4.PORTS];
      PatchedShape(eth, ip, |ip| + Layer4.PORTS + |plain|);
      var g := HalfHeader(layer, s, pkt, plain);
      HalfPartsL3(eth, g, ports + plain);
      Assoc(eth + g, ports, plain);
      var p := eth + g + ports + plain;
      assert p[toff + Layer4.PORTS..] == p[toff..][Layer4.PORTS..] == plain;
  }

  /** The IP header a decrypted half carries in clear. */
  function HalfHeader(layer: Layer, s: Settings, pkt: seq<uint8>, plain: seq<uint8>): (g: seq<uint8>)
    requires layer != L2 && PayloadOffset(pkt).Some?
    ensures |g| == PayloadOffset(pkt).value - ETH
  {
    var ip := pkt[ETH..PayloadOffset(pkt).value];
    if layer == L3 then Patch(ip[PROTO_OFF := s.fakeProtocol], |ip| + |plain|)
    else Patch(ip, |ip| + Layer4.PORTS + |plain|)
  }

  // --- joining the halves ----------------------------------------------------------

  /** The packet with its total length set to the bytes present and its header checksum recomputed. */
  function Renewed(pkt: seq<uint8>): seq<uint8>
    requires PayloadOffset(pkt).Some?
  {
    var toff := PayloadOffset(pkt).value;
    pkt[..ETH] + Patch(pkt[ETH..toff], |pkt| - ETH) + pkt[toff..]
  }

  /** A packet without Ethernet padding and with the canonical header checksum is already renewed, and no other is. */
  lemma RenewedIff(pkt: seq<uint8>)
    requires PayloadOffset(pkt).Some?
    ensures Renewed(pkt) == pkt <==> Canonical(pkt[ETH..PayloadOffset(pkt).value], |pkt| - ETH)
  {
    hide Patch, Canonical, PayloadOffset;
    var toff := PayloadOffset(pkt).value;
    var h := pkt[ETH..toff];
    PatchFixpoint(h, |pkt| - ETH);
    assert pkt == pkt[..ETH] + h + pkt[toff..];
    Cut(pkt[..ETH], Patch(h, |pkt| - ETH), pkt[toff..]);
    Cut(pkt[..ETH], h, pkt[toff..]);
  }

  /** The transport header is complete in the first half. */
  lemma HeaderInFirst(layer: Layer, pkt: seq<uint8>, cut: nat)
    requires CutPoint(layer, pkt) == Some(cut) && pkt[ETH + PROTO_OFF] in {PROTO_TCP, PROTO_UDP}
    ensures var toff := PayloadOffset(pkt).value;
            var first := pkt[toff..cut];
            var proto := pkt[ETH + PROTO_OFF];
            && TransportHdrSize(first, proto) == TransportHdrSize(pkt[toff..], proto)
            && TransportHdrSize(first, proto).Some? && TransportHdrSize(first, proto).value <= |first|
  {
    var toff := PayloadOffset(pkt).value;
    var first, all := pkt[toff..cut], pkt[toff..];
    assert |first| > 12 ==> first[12] == all[12];
  }

  /** What the table keeps of the first half. */
  function KeptFirst(layer: Layer, s: Settings, pkt: seq<uint8>, cut: nat): (r: First)
    requires CutPoint(layer, pkt) == Some(cut)
    ensures 20 <= |r.ip| <= 60
  {
    var toff := PayloadOffset(pkt).value;
    var plain := pkt[FirstStart(layer, pkt)..cut];
    match layer
    case L2 => First(pkt[ETH..toff], pkt[ETH + PROTO_OFF], plain)
    case L3 =>
      First(HalfHeader(layer, s, pkt, plain),
            if TransportHdrSize(plain, PROTO_TCP).Some? then PROTO_TCP else PROTO_UDP, plain)
    case L4 => First(HalfHeader(layer, s, pkt, plain), pkt[ETH + PROTO_OFF], plain)
  }

  /** The first half fits the table; layer 2 also looks at the version of the IP header. */
  predicate FirstKept(layer: Layer, pkt: seq<uint8>, cut: nat)
    requires CutPoint(layer, pkt) == Some(cut)
  {
    cut - FirstStart(layer, pkt) <= MAX_PENDING && (layer == L2 ==> pkt[ETH] / 0x10 == 4)
  }

  /** At layer 2 the plaintext starts with the IP header. */
  lemma HeaderOfPlain(pkt: seq<uint8>, cut: nat, toff: nat)
    requires PayloadOffset(pkt) == Some(toff) && toff <= cut <= |pkt|
    ensures var plain := pkt[ETH..cut];
            && plain[0] == pkt[ETH] && plain[9] == pkt[ETH + PROTO_OFF]
            && HdrLen(plain[0]) == toff - ETH && plain[..toff - ETH] == pkt[ETH..toff]
  {
    SubSlice(pkt, ETH, cut, 0, toff - ETH);
  }

  lemma FirstCall(layer: Layer, s: Settings, pkt: seq<uint8>, cut: nat, e: Entry, id: uint16, now: uint64)
    requires CutPoint(layer, pkt) == Some(cut) && e.Valid()
    ensures var p := HalfPacket(layer, s, pkt, pkt[FirstStart(layer, pkt)..cut]);
            && Readable(layer, p) && |p| >= ETH
            && Reassemble(layer, e, p, id, 0, now)
            == if FirstKept(layer, pkt, cut) then (Pending, Stored(e, id, p[..ETH], KeptFirst(layer, s, pkt, cut), now))
               else (Failed, e)
  {
    hide HalfPacket, HalfHeader, PayloadOffset, Stored, Carried, Accepts, TransportHdrSize, Readable, CutPoint;
    var toff := PayloadOffset(pkt).value;
    var plain := pkt[FirstStart(layer, pkt)..cut];
    PortsPresent(layer, pkt);
    HalfParts(layer, s, pkt, plain);
    Headers(pkt);
    if layer == L2 {
      HeaderOfPlain(pkt, cut, toff);
    } else {
      TransportPresent(layer, pkt, cut);
    }
  }

  lemma TransportPresent(layer: Layer, pkt: seq<uint8>, cut: nat)
    requires CutPoint(layer, pkt) == Some(cut) && layer != L2
    ensures var first := pkt[PayloadOffset(pkt).value..cut];
            && pkt[ETH + PROTO_OFF] in {PROTO_TCP, PROTO_UDP}
            && TransportHdrSize(first, PROTO_UDP).Some?
            && (pkt[ETH + PROTO_OFF] == PROTO_TCP ==> TransportHdrSize(first, PROTO_TCP).Some?)
  {
    HeaderInFirst(layer, pkt, cut);
  }

  /** Nothing is invented between the halves: a transport header that cannot be recognised is shorter than the
      first half's payload, or there is no such payload. */
  predicate TailOk(layer: Layer, pkt: seq<uint8>, cut: nat)
    requires CutPoint(layer, pkt) == Some(cut)
  {
    var toff := PayloadOffset(pkt).value;
    layer == L2 && pkt[ETH + PROTO_OFF] !in {PROTO_TCP, PROTO_UDP} ==> cut == toff || cut >= toff + 8
  }

  /** Layer 3 recognises the protocol. */
  predicate GuessRight(layer: Layer, pkt: seq<uint8>, cut: nat)
    requires CutPoint(layer, pkt) == Some(cut)
  {
    layer == L3 && pkt[ETH + PROTO_OFF] == PROTO_UDP ==>
      TransportHdrSize(pkt[PayloadOffset(pkt).value..cut], PROTO_TCP).None?
  }

  /** The slot after the first half has been stored. */
  function Held(layer: Layer, s: Settings, pkt: seq<uint8>, cut: nat, e: Entry, id: uint16, now: uint64): (r: Entry)
    requires CutPoint(layer, pkt) == Some(cut) && FirstKept(layer, pkt, cut) && e.Valid()
    ensures r.Valid()
  {
    var eth := if layer == L2 then Layer2.Marked(s, pkt[..ETH]) else pkt[..ETH];
    Stored(e, id, eth, KeptFirst(layer, s, pkt, cut), now)
  }

  lemma HeldParts(layer: Layer, s: Settings, pkt: seq<uint8>, cut: nat, e: Entry, id: uint16, now: uint64)
    requires CutPoint(layer, pkt) == Some(cut) && FirstKept(layer, pkt, cut) && e.Valid()
    ensures var h := Held(layer, s, pkt, cut, e, id, now);
            var toff := PayloadOffset(pkt).value;
            && h.data[..h.dataLen] == pkt[FirstStart(layer, pkt)..cut] && h.dataLen == cut - FirstStart(layer, pkt)
            && |h.ip| == toff - ETH
            && (layer == L2 ==> h.data[..|h.ip|] == pkt[ETH..toff] && h.data[|h.ip|..h.dataLen] == pkt[toff..cut])
  {
    hide Layer2.Marked, HalfHeader, CutPoint, PayloadOffset, TransportHdrSize;
    var h := Held(layer, s, pkt, cut, e, id, now);
    var plain := pkt[FirstStart(layer, pkt)..cut];
    Prefix(plain, e.data[|plain|..]);
    if layer == L2 {
      var n := PayloadOffset(pkt).value - ETH;
      SliceOfPrefix(h.data, |plain|, 0, n);
      SliceOfPrefix(h.data, |plain|, n, |plain|);
      SubSlice(pkt, ETH, cut, 0, n);
      SubSlice(pkt, ETH, cut, n, |plain|);
    }
  }

  /** How much of the first half goes into the joined packet. */
  lemma HeldJoinedLen(layer: Layer, s: Settings, pkt: seq<uint8>, cut: nat, e: Entry, id: uint16, now: uint64)
    requires CutPoint(layer, pkt) == Some(cut) && FirstKept(layer, pkt, cut) && e.Valid()
    ensures var h := Held(layer, s, pkt, cut, e, id, now);
            && (GuessRight(layer, pkt, cut) && TailOk(layer, pkt, cut) ==> JoinedLen(layer, h) == h.dataLen)
            && (!TailOk(layer, pkt, cut) ==> JoinedLen(layer, h) > h.dataLen)
  {
    hide Layer2.Marked, HalfHeader, CutPoint, PayloadOffset, TransportHdrSize;
    HeldParts(layer, s, pkt, cut, e, id, now);
    if pkt[ETH + PROTO_OFF] in {PROTO_TCP, PROTO_UDP} {
      HeaderInFirst(layer, pkt, cut);
    } else {
      OtherProto(layer, pkt, cut);
    }
  }

  lemma OtherProto(layer: Layer, pkt: seq<uint8>, cut: nat)
    requires CutPoint(layer, pkt) == Some(cut) && pkt[ETH + PROTO_OFF] !in {PROTO_TCP, PROTO_UDP}
    ensures layer == L2 && TransportHdrSize(pkt[PayloadOffset(pkt).value..cut], pkt[ETH + PROTO_OFF]) == None
  {}

  /** The header of the joined packet: whatever the fragments announced, it is the original one with length and
      checksum renewed, provided the protocol byte is right. */
  lemma JoinedHeader(layer: Layer, s: Settings, pkt: seq<uint8>, plain: seq<uint8>, proto: uint8, total: nat)
    requires layer != L2 && PayloadOffset(pkt).Some?
    ensures var ip := pkt[ETH..PayloadOffset(pkt).value];
            var g := HalfHeader(layer, s, pkt, plain);
            && (layer == L4 ==> Patch(g, total) == Patch(ip, total))
            && (layer == L3 ==> Patch(g[PROTO_OFF := proto], total) == Patch(ip[PROTO_OFF := proto], total))
  {
    hide Patch, PayloadOffset;
    var ip := pkt[ETH..PayloadOffset(pkt).value];
    Headers(pkt);
    if layer == L4 {
      PatchAbsorbs(ip, |ip| + Layer4.PORTS + |plain|, total);
    } else {
      var f := ip[PROTO_OFF := s.fakeProtocol];
      var g, h := Patch(f, |ip| + |plain|)[PROTO_OFF := proto], ip[PROTO_OFF := proto];
      forall k | 0 <= k < |ip| && k !in {2, 3, 10, 11} ensures g[k] == h[k] {
        PatchKeeps(f, |ip| + |plain|, k);
      }
      PatchAgree(g, h, total);
    }
  }

  lemma JoinRightL2(s: Settings, pkt: seq<uint8>, cut: nat, e: Entry, id: uint16, now: uint64)
    requires CutPoint(L2, pkt) == Some(cut) && FirstKept(L2, pkt, cut) && e.Valid() && TailOk(L2, pkt, cut)
    ensures Joined(L2, Held(L2, s, pkt, cut, e, id, now), pkt[cut..]) == Renewed(pkt)
  {
    hide Patch, PayloadOffset, CutPoint, JoinedLen, HalfHeader, TransportHdrSize, TailOk, Layer2.Marked, FirstKept;
    HeldParts(L2, s, pkt, cut, e, id, now);
    HeldJoinedLen(L2, s, pkt, cut, e, id, now);
    MarkedRestored(s, pkt);
    TailOf(pkt, PayloadOffset(pkt).value, cut);
  }

  /** The two deeper layers differ only in where the protocol byte comes from. */
  lemma JoinRightDeep(layer: Layer, s: Settings, pkt: seq<uint8>, cut: nat, e: Entry, id: uint16, now: uint64)
    requires layer != L2 && CutPoint(layer, pkt) == Some(cut) && FirstKept(layer, pkt, cut) && e.Valid()
    requires GuessRight(layer, pkt, cut) && TailOk(layer, pkt, cut)
    ensures Joined(layer, Held(layer, s, pkt, cut, e, id, now), pkt[cut..]) == Renewed(pkt)
  {
    hide Patch, PayloadOffset, CutPoint, JoinedLen, HalfHeader, TransportHdrSize, TailOk, FirstKept;
    var toff := PayloadOffset(pkt).value;
    var h := Held(layer, s, pkt, cut, e, id, now);
    var ip := pkt[ETH..toff];
    HeldParts(layer, s, pkt, cut, e, id, now);
    HeldJoinedLen(layer, s, pkt, cut, e, id, now);
    Headers(pkt);
    TailOf(pkt, toff, cut);
    TransportPresent(layer, pkt, cut);
    assert ip[PROTO_OFF := h.proto] == ip;
    JoinedHeader(layer, s, pkt, pkt[toff..cut], h.proto, |pkt| - ETH);
  }

  lemma TailOf(pkt: seq<uint8>, toff: nat, cut: nat)
    requires toff <= cut <= |pkt|
    ensures pkt[toff..cut] + pkt[cut..] == pkt[toff..]
  {}

  /** The joined packet is the original with length and checksum renewed. */
  lemma JoinRight(layer: Layer, s: Settings, pkt: seq<uint8>, cut: nat, e: Entry, id: uint16, now: uint64)
    requires CutPoint(layer, pkt) == Some(cut) && FirstKept(layer, pkt, cut) && e.Valid()
    requires GuessRight(layer, pkt, cut) && TailOk(layer, pkt, cut)
    ensures Joined(layer, Held(layer, s, pkt, cut, e, id, now), pkt[cut..]) == Renewed(pkt)
  {
    hide CutPoint, PayloadOffset, Joined, Held, Renewed, TailOk, GuessRight, FirstKept;
    if layer == L2 {
      JoinRightL2(s, pkt, cut, e, id, now);
    } else {
      JoinRightDeep(layer, s, pkt, cut, e, id, now);
    }
  }

  lemma MarkedRestored(s: Settings, pkt: seq<uint8>)
    requires PayloadOffset(pkt).Some?
    ensures Layer2.Marked(s, pkt[..ETH])[..12] + [0x08, 0x00] == pkt[..ETH]
  {
    assert pkt[12] == 0x08 && pkt[13] == 0;
  }

  /** A wrong guess shows in the protocol byte, invented bytes show in the length. */
  lemma JoinWrong(layer: Layer, s: Settings, pkt: seq<uint8>, cut: nat, e: Entry, id: uint16, now: uint64)
    requires CutPoint(layer, pkt) == Some(cut) && FirstKept(layer, pkt, cut) && e.Valid()
    requires !GuessRight(layer, pkt, cut) || !TailOk(layer, pkt, cut)
    ensures Joined(layer, Held(layer, s, pkt, cut, e, id, now), pkt[cut..]) != Renewed(pkt)
  {
    hide Patch, PayloadOffset, CutPoint, JoinedLen, HalfHeader, TransportHdrSize, TailOk, Layer2.Marked, FirstKept;
    var toff := PayloadOffset(pkt).value;
    var h := Held(layer, s, pkt, cut, e, id, now);
    var ip := pkt[ETH..toff];
    var joined := Joined(layer, h, pkt[cut..]);
    HeldParts(layer, s, pkt, cut, e, id, now);
    HeldJoinedLen(layer, s, pkt, cut, e, id, now);
    if !TailOk(layer, pkt, cut) {
      TailFails(layer, pkt, cut);
      assert |joined| > |Renewed(pkt)|;
    } else {
      var total := |ip| + JoinedLen(layer, h) + (|pkt| - cut);
      PatchKeeps(h.ip[PROTO_OFF := PROTO_TCP], total, PROTO_OFF);
      assert joined[ETH + PROTO_OFF] == PROTO_TCP;
      PatchKeeps(ip, |pkt| - ETH, PROTO_OFF);
      assert Renewed(pkt)[ETH + PROTO_OFF] == PROTO_UDP;
    }
  }

  lemma TailFails(layer: Layer, pkt: seq<uint8>, cut: nat)
    requires CutPoint(layer, pkt) == Some(cut) && !TailOk(layer, pkt, cut)
    ensures layer == L2
  {}

  // --- the round trip --------------------------------------------------------------

  /** What a caller can check before splitting: the first half fits the table, the second half is not too short for
      layer 2, and layer 3 will recognise the protocol for what it is. */
  predicate Deliverable(layer: Layer, pkt: seq<uint8>, cut: nat)
    requires CutPoint(layer, pkt) == Some(cut)
  {
    && FirstKept(layer, pkt, cut)
    && (layer == L2 ==> |pkt| - cut >= 20)
    && GuessRight(layer, pkt, cut)
  }

  /** When the second half is that long, the first has no room for inventions. */
  lemma TailFollows(layer: Layer, pkt: seq<uint8>, cut: nat)
    requires CutPoint(layer, pkt) == Some(cut) && Deliverable(layer, pkt, cut)
    ensures TailOk(layer, pkt, cut)
  {
    hide TransportHdrSize, WordAt;
  }

  /** What the receiver's two calls return for the two halves of pkt, on a slot e. */
  function Delivered(layer: Layer, e: Entry, d1: Fragment, d2: Fragment, t1: uint64, t2: uint64): Outcome
    requires e.Valid() && Readable(layer, d1.packet) && Readable(layer, d2.packet)
  {
    var e1 := Reassemble(layer, e, d1.packet, d1.id, d1.index, t1).1;
    Reassemble(layer, e1, d2.packet, d2.id, d2.index, t2).0
  }

  lemma SecondCall(layer: Layer, s: Settings, pkt: seq<uint8>, cut: nat, e: Entry, id: uint16, now: uint64)
    requires CutPoint(layer, pkt) == Some(cut) && e.Valid()
    ensures var p := HalfPacket(layer, s, pkt, pkt[cut..]);
            && Readable(layer, p)
            && Reassemble(layer, e, p, id, 1, now).0
            == (if (layer == L2 ==> |pkt| - cut >= 20) && e.valid && e.id == id
                   && Elapsed(now, e.timestamp) <= TIMEOUT_NS && TotalOk(layer, e.dataLen + |pkt| - cut)
                then Complete(Joined(layer, e, pkt[cut..])) else Failed)
  {
    hide HalfPacket, HalfHeader, PayloadOffset, Joined, Carried, Accepts, Readable, CutPoint;
    PortsPresent(layer, pkt);
    HalfParts(layer, s, pkt, pkt[cut..]);
  }

  /** Both halves within the sizes the encryption allows fit the total limit. */
  lemma TotalFits(layer: Layer, s: Settings, pkt: seq<uint8>, cut: nat, e: Entry, id: uint16, now: uint64)
    requires CutPoint(layer, pkt) == Some(cut) && FirstKept(layer, pkt, cut) && e.Valid()
    requires |pkt| - cut <= MAX_WIRE
    ensures TotalOk(layer, Held(layer, s, pkt, cut, e, id, now).dataLen + |pkt| - cut)
  {
    HeldParts(layer, s, pkt, cut, e, id, now);
    if layer == L4 {
      HeaderInFirst(layer, pkt, cut);
    }
  }

  /** The two calls, for a pair of halves decrypted from the fragments of pkt. */
  lemma DeliveredHalves(layer: Layer, s: Settings, pkt: seq<uint8>, cut: nat, e: Entry, id: uint16,
                        t1: uint64, t2: uint64)
    requires CutPoint(layer, pkt) == Some(cut) && e.Valid() && |pkt| - cut <= MAX_WIRE
    ensures var d1 := Fragment(HalfPacket(layer, s, pkt, pkt[FirstStart(layer, pkt)..cut]), id, 0);
            var d2 := Fragment(HalfPacket(layer, s, pkt, pkt[cut..]), id, 1);
            && Readable(layer, d1.packet) && Readable(layer, d2.packet)
            && (Deliverable(layer, pkt, cut) && Elapsed(t2, t1) <= TIMEOUT_NS ==>
                  Delivered(layer, e, d1, d2, t1, t2) == Complete(Renewed(pkt)))
            && (!(e.valid && e.id == id) && !(Deliverable(layer, pkt, cut) && Elapsed(t2, t1) <= TIMEOUT_NS) ==>
                  Delivered(layer, e, d1, d2, t1, t2) != Complete(Renewed(pkt)))
  {
    hide Reassemble, HalfPacket, PayloadOffset, CutPoint, Joined, Renewed, Elapsed, FirstKept, TailOk, GuessRight,
         TotalOk, Readable, KeptFirst, HalfHeader, Layer2.Marked;
    PortsPresent(layer, pkt);
    FirstCall(layer, s, pkt, cut, e, id, t1);
    var p := HalfPacket(layer, s, pkt, pkt[FirstStart(layer, pkt)..cut]);
    SecondCall(layer, s, pkt, cut, Reassemble(layer, e, p, id, 0, t1).1, id, t2);
    if FirstKept(layer, pkt, cut) {
      HalfParts(layer, s, pkt, pkt[FirstStart(layer, pkt)..cut]);
      TotalFits(layer, s, pkt, cut, e, id, t1);
      if Deliverable(layer, pkt, cut) {
        TailFollows(layer, pkt, cut);
      }
      if GuessRight(layer, pkt, cut) && TailOk(layer, pkt, cut) {
        JoinRight(layer, s, pkt, cut, e, id, t1);
      } else {
        JoinWrong(layer, s, pkt, cut, e, id, t1);
      }
    }
  }

  lemma HalfSize(layer: Layer, c: Cipher, s: Settings, ctx: CryptoCtx, nonce: seq<uint8>, pkt: seq<uint8>,
                 plain: seq<uint8>, id: uint16, index: uint8)
    requires s.Valid() && ctx.Valid() && |nonce| == s.nonceSize && CutPoint(layer, pkt).Some?
    requires layer == L4 ==> PayloadOffset(pkt).value + Layer4.PORTS <= |pkt|
    requires EncryptHalf(layer, c, s, ctx, nonce, pkt, plain, id, index).Some?
    ensures |plain| <= MAX_WIRE
  {
    hide Patch, PayloadOffset, CutPoint, Seal;
  }

  /** What the receiver holds after decrypting the two fragments. */
  lemma SplitHalves(layer: Layer, c: Cipher, s: Settings, ctx: CryptoCtx, n1: seq<uint8>, n2: seq<uint8>,
                    id: uint16, pkt: seq<uint8>)
    requires c.Lawful() && s.Valid() && ctx.Valid() && |n1| == |n2| == s.nonceSize
    requires Split(layer, c, s, ctx, n1, n2, id, pkt).Some?
    ensures CutPoint(layer, pkt).Some?
    ensures var (w1, w2) := Split(layer, c, s, ctx, n1, n2, id, pkt).value;
            var cut := CutPoint(layer, pkt).value;
            && (layer == L4 ==> PayloadOffset(pkt).value + Layer4.PORTS <= |pkt|) && |pkt| - cut <= MAX_WIRE
            && DecryptHalf(layer, c, s, ctx, w1)
               == Some(Fragment(HalfPacket(layer, s, pkt, pkt[FirstStart(layer, pkt)..cut]), id, 0))
            && DecryptHalf(layer, c, s, ctx, w2) == Some(Fragment(HalfPacket(layer, s, pkt, pkt[cut..]), id, 1))
  {
    hide EncryptHalf, DecryptHalf, HalfPacket, CutPoint, PayloadOffset;
    var cut := CutPoint(layer, pkt).value;
    var first, second := pkt[FirstStart(layer, pkt)..cut], pkt[cut..];
    PortsPresent(layer, pkt);
    HalfRoundTrip(layer, c, s, ctx, n1, pkt, first, id, 0);
    HalfRoundTrip(layer, c, s, ctx, n2, pkt, second, id, 1);
    HalfSize(layer, c, s, ctx, n2, pkt, second, id, 1);
  }

  /** The receiver of both fragments, decrypting them with the sender's keys, gets the packet back with length and
      header checksum renewed if the packet is deliverable and the second half comes within 200 ms of the first;
      and if no other half of the same id was pending, only then.  The second half never overruns the output buffer,
      whichever half it meets. */
  lemma SplitRoundTrip(layer: Layer, c: Cipher, s: Settings, ctx: CryptoCtx, n1: seq<uint8>, n2: seq<uint8>,
                       id: uint16, pkt: seq<uint8>, e: Entry, t1: uint64, t2: uint64)
    requires c.Lawful() && s.Valid() && ctx.Valid() && |n1| == |n2| == s.nonceSize && e.Valid()
    requires Split(layer, c, s, ctx, n1, n2, id, pkt).Some?
    ensures var (w1, w2) := Split(layer, c, s, ctx, n1, n2, id, pkt).value;
            var d1, d2 := DecryptHalf(layer, c, s, ctx, w1), DecryptHalf(layer, c, s, ctx, w2);
            var good := Deliverable(layer, pkt, CutPoint(layer, pkt).value) && Elapsed(t2, t1) <= TIMEOUT_NS;
            && d1.Some? && d2.Some? && d1.value.id == d2.value.id == id
            && Readable(layer, d1.value.packet) && Readable(layer, d2.value.packet)
            && (forall h: Entry | h.Valid() :: RoomToJoin(layer, h, d2.value.packet, id, 1, t2))
            && (good ==> Delivered(layer, e, d1.value, d2.value, t1, t2) == Complete(Renewed(pkt)))
            && (!good && !(e.valid && e.id == id) ==>
                  Delivered(layer, e, d1.value, d2.value, t1, t2) != Complete(Renewed(pkt)))
  {
    hide Split, DecryptHalf, HalfPacket, Deliverable, Delivered, Renewed, Elapsed, CutPoint, PayloadOffset, Readable,
         RoomToJoin, Accepts, Carried;
    SplitHalves(layer, c, s, ctx, n1, n2, id, pkt);
    var cut := CutPoint(layer, pkt).value;
    DeliveredHalves(layer, s, pkt, cut, e, id, t1, t2);
    HalfParts(layer, s, pkt, pkt[cut..]);
    forall h: Entry | h.Valid() ensures RoomToJoin(layer, h, HalfPacket(layer, s, pkt, pkt[cut..]), id, 1, t2) {
      FragmentsFit(layer, h, HalfPacket(layer, s, pkt, pkt[cut..]), id, 1, t2);
    }
  }
}
