/** How the receiver tells fragments from whole packets, and finds the context that opens them. */
module FragmentDispatch {
  import opened Bytes
  import opened Ipv4
  import opened Config
  import opened PacketCrypto
  import opened Tunnel
  import opened Fragmentation
  import opened Dispatch
  import opened SizeBounds
  import Layer2
  import Layer3
  import Layer4

  const MIN_L2_FRAGMENT := 23
  const MIN_L4_FRAGMENT := 42
  const TAG := 4

  function ActionOf(layer: Layer): int
  {
    match layer
    case L2 => ACTION_L2
    case L3 => ACTION_L3
    case L4 => ACTION_L4
  }

  // --- the recognisers ---------------------------------------------------------------

  /** The tests in front of the scan: where the nonce of a fragment would start. */
  function NonceAt(layer: Layer, s: Settings, pkt: seq<uint8>): (r: Option<nat>)
    ensures r.Some? && layer != L2 ==> r.value + s.TunnelHdrSize() + TAG <= |pkt|
  {
    match layer
    case L2 => if |pkt| < MIN_L2_FRAGMENT || !Layer2.HasMarker(s, pkt) then None else Some(ETH)
    case L3 =>
      var tun := Layer3.PayloadOffset(pkt);
      if tun.None? || pkt[ETH + Layer3.PROTO_OFF] != s.fakeProtocol then None
      else if |pkt| < tun.value + s.TunnelHdrSize() + TAG then None
      else tun
    case L4 =>
      if |pkt| < MIN_L4_FRAGMENT || WordAt(pkt, 12) != 0x0800 then None
      else if pkt[ETH + 9] !in {PROTO_TCP, PROTO_UDP} || HdrLen(pkt[ETH]) < 20 then None
      else
        var tun := ETH + HdrLen(pkt[ETH]) + Layer4.PORTS;
        if |pkt| < tun + s.TunnelHdrSize() + TAG then None else Some(tun)
  }

  /** The marker byte of the layer's fragments, and above layer 2 the policy's id, where its nonce size says. */
  predicate Marks(layer: Layer, cp: CryptoPolicy, pkt: seq<uint8>, at: nat)
  {
    && cp.action == ActionOf(layer) && cp.nonceSize > 0
    && if layer == L2 then
         at + cp.nonceSize + 1 + TAG <= |pkt| && pkt[at + cp.nonceSize] == Layer2.FRAG_MAGIC
       else
         && at + cp.nonceSize + 1 < |pkt| && pkt[at + cp.nonceSize] == cp.WireId()
         && pkt[at + cp.nonceSize + 1] == if layer == L3 then Layer3.FRAG_MAGIC else Layer4.FRAG_MAGIC
  }

  function FirstMarked(policies: seq<CryptoPolicy>, layer: Layer, pkt: seq<uint8>, at: nat, k: nat): (r: Option<nat>)
    requires k <= |policies|
    ensures r.Some? ==> k <= r.value < |policies| && Marks(layer, policies[r.value], pkt, at)
    ensures r.None? ==> forall j | k <= j < |policies| :: !Marks(layer, policies[j], pkt, at)
    decreases |policies| - k
  {
    if k == |policies| then None
    else if Marks(layer, policies[k], pkt, at) then Some(k)
    else FirstMarked(policies, layer, pkt, at, k + 1)
  }

  /** Where the tag is read: layer 2 goes by the policy that matched, the others by the thread's own nonce size. */
  function TagAt(layer: Layer, cp: CryptoPolicy, s: Settings, at: nat): nat
    requires cp.nonceSize > 0
  {
    if layer == L2 then at + cp.nonceSize + 1 else at + s.TunnelHdrSize()
  }

  /** Packet id and index, if the packet is taken for a fragment. */
  function Recognised(layer: Layer, policies: seq<CryptoPolicy>, s: Settings, pkt: seq<uint8>): Option<(uint16, uint8)>
  {
    var at := NonceAt(layer, s, pkt);
    if at.None? then None
    else
      var k := FirstMarked(policies, layer, pkt, at.value, 0);
      if k.None? then None
      else
        var tag := TagAt(layer, policies[k.value], s, at.value);
        if pkt[tag + 2] > 1 then None else Some((WordAt(pkt, tag), pkt[tag + 2]))
  }

  /** The scan over the policies. */
  method IsFragment(layer: Layer, policies: seq<CryptoPolicy>, s: Settings, pkt: seq<uint8>)
    returns (r: Option<(uint16, uint8)>)
    ensures r == Recognised(layer, policies, s, pkt)
  {
    hide NonceAt;
    var at := NonceAt(layer, s, pkt);
    if at.None? {
      return None;
    }
    for k := 0 to |policies|
      invariant FirstMarked(policies, layer, pkt, at.value, k) == FirstMarked(policies, layer, pkt, at.value, 0)
    {
      if Marks(layer, policies[k], pkt, at.value) {
        var tag := TagAt(layer, policies[k], s, at.value);
        return if pkt[tag + 2] > 1 then None else Some((WordAt(pkt, tag), pkt[tag + 2]));
      }
    }
    r := None;
  }

  // --- the context that opens a fragment ----------------------------------------------

  /** The id byte on the wire: layer 2 has it in place of the EtherType. */
  function WireIdOf(layer: Layer, policies: seq<CryptoPolicy>, s: Settings, pkt: seq<uint8>): Option<(uint8, int)>
  {
    if layer == L2 then (if |pkt| < ETH then None else Some((pkt[13], 0)))
    else ExtractId(policies, ActionOf(layer), s, pkt)
  }

  /** Here only the index counts, there is no scan; layer 4 insists on the nonce size under which the id was found. */
  function Indexed(layer: Layer, ps: PolicySet, id: uint8, ns: int): (r: Option<nat>)
    requires ps.Valid()
    ensures r.Some? ==> r.value < |ps.policies|
  {
    var pi := ps.index[ActionOf(layer)][id];
    if 0 <= pi < |ps.policies| && ps.ready[pi] && (layer == L4 ==> ps.policies[pi].nonceSize == ns) then Some(pi)
    else None
  }

  /** The settings and the context for a fragment, of the current set or else of the previous one. */
  function Resolved(layer: Layer, cur: PolicySet, prev: Option<PolicySet>, s: Settings, pkt: seq<uint8>)
    : (r: Option<(Settings, CryptoCtx)>)
    requires cur.Valid() && (prev.Some? ==> prev.value.Valid())
    ensures r.Some? ==> r.value.0.Valid() && r.value.1.Valid()
  {
    var id := WireIdOf(layer, cur.policies, s, pkt);
    if id.None? then None
    else
      var k := Indexed(layer, cur, id.value.0, id.value.1);
      if k.Some? then Some((Applied(cur.policies[k.value], s), cur.ctx[k.value]))
      else if prev.None? then None
      else
        var pk := Indexed(layer, prev.value, id.value.0, id.value.1);
        if pk.None? then None else Some((Applied(prev.value.policies[pk.value], s), prev.value.ctx[pk.value]))
  }

  /** What becomes of an arriving packet: whole packets go on to the automatic decryption. */
  datatype Reception = NoFragment | Dropped | Received(half: Fragment)

  function Receive(layer: Layer, c: Cipher, s: Settings, cur: PolicySet, prev: Option<PolicySet>, pkt: seq<uint8>)
    : Reception
    requires cur.Valid() && (prev.Some? ==> prev.value.Valid())
  {
    if Recognised(layer, cur.policies, s, pkt).None? then NoFragment
    else
      var own := Resolved(layer, cur, prev, s, pkt);
      if own.None? then Dropped
      else
        var f := DecryptHalf(layer, c, own.value.0, own.value.1, pkt);
        if f.None? then Dropped else Received(f.value)
  }

  // --- what a fragment looks like on the wire -----------------------------------------

  function NonceStart(layer: Layer, pkt: seq<uint8>): nat
    requires CutPoint(layer, pkt).Some?
  {
    var toff := Layer3.PayloadOffset(pkt).value;
    match layer
    case L2 => ETH
    case L3 => toff
    case L4 => toff + Layer4.PORTS
  }

  /** Nonce of n bytes from at on, marker, policy id, packet id and index, where the receiver looks for them. */
  predicate Tagged(layer: Layer, wire: seq<uint8>, at: nat, n: nat, policyId: uint8, id: uint16, index: uint8)
  {
    if layer == L2 then
      && at == ETH && at + n + 1 + TAG < |wire| && wire[13] == policyId && wire[at + n] == Layer2.FRAG_MAGIC
      && WordAt(wire, at + n + 1) == id && wire[at + n + 3] == index
    else
      && at + n + 2 + TAG < |wire| && wire[at + n] == policyId
      && wire[at + n + 1] == (if layer == L3 then Layer3.FRAG_MAGIC else Layer4.FRAG_MAGIC)
      && WordAt(wire, at + n + 2) == id && wire[at + n + 4] == index
  }

  /** The clear headers in front. */
  predicate Headed(layer: Layer, s: Settings, wire: seq<uint8>, at: nat)
  {
    match layer
    case L2 => |wire| > 13 && Layer2.HasMarker(s, wire)
    case L3 => Layer3.PayloadOffset(wire) == Some(at) && wire[ETH + Layer3.PROTO_OFF] == s.fakeProtocol
    case L4 =>
      && Layer4.Locate(wire).Transport? && Layer4.Locate(wire).toff + Layer4.PORTS == at
      && |wire| > ETH + 9 && WordAt(wire, 12) == 0x0800
  }

  lemma OnWire(layer: Layer, c: Cipher, s: Settings, ctx: CryptoCtx, nonce: seq<uint8>, pkt: seq<uint8>,
               plain: seq<uint8>, id: uint16, index: uint8)
    requires c.Lawful() && s.Valid() && ctx.Valid() && |nonce| == s.nonceSize && CutPoint(layer, pkt).Some?
    requires layer == L4 ==> Layer3.PayloadOffset(pkt).value + Layer4.PORTS <= |pkt|
    requires EncryptHalf(layer, c, s, ctx, nonce, pkt, plain, id, index).Some?
    ensures var wire := EncryptHalf(layer, c, s, ctx, nonce, pkt, plain, id, index).value;
            var at := NonceStart(layer, pkt);
            Headed(layer, s, wire, at) && Tagged(layer, wire, at, s.nonceSize, s.policyId, id, index)
  {
    hide Seal, Patch, EthIpv4Offset, Layer3.PayloadOffset, CutPoint, Layer2.Marked, TunnelHdr, FragTag, WordAt,
         Layer4.Locate;
    var toff := Layer3.PayloadOffset(pkt).value;
    var eth, ip := pkt[..ETH], pkt[ETH..toff];
    var sealed := Seal(c, s.mode, ctx.Current(), nonce, plain);
    SealLength(c, s, ctx.Current(), nonce, plain);
    Headers(pkt);
    match layer
    case L2 =>
      Layer2.FragmentParts(s, eth, nonce, id, index, sealed);
      Layer2.WireParts(s, eth, nonce, [Layer2.FRAG_MAGIC] + FragTag(id, index) + sealed);
    case L3 => OnWire3(s, eth, ip, nonce, id, index, sealed, |ip| + Layer3.FragOverhead(s) + |plain|);
    case L4 =>
      TransportPresent(L4, pkt, CutPoint(L4, pkt).value);
      OnWire4(s, eth, ip, pkt[toff..toff + Layer4.PORTS], nonce, id, index, sealed,
              |ip| + Layer4.PORTS + Layer4.FragOverhead(s) + |plain|);
  }

  lemma OnWire3(s: Settings, eth: seq<uint8>, ip: seq<uint8>, nonce: seq<uint8>, id: uint16, index: uint8,
                sealed: seq<uint8>, total: nat)
    requires s.Valid() && |nonce| == s.nonceSize && |eth| == ETH && EthIpv4Offset(eth + ip) == Some(ETH)
    requires 20 <= |ip| <= 60 && HdrLen(ip[0]) == |ip| && sealed != []
    ensures var wire := eth + Patch(ip[Layer3.PROTO_OFF := s.fakeProtocol], total)
                        + TunnelHdr(nonce, s.policyId, Layer3.FRAG_MAGIC) + (FragTag(id, index) + sealed);
            Headed(L3, s, wire, ETH + |ip|) && Tagged(L3, wire, ETH + |ip|, s.nonceSize, s.policyId, id, index)
  {
    hide Patch, EthIpv4Offset, TunnelHdr, FragTag, WordAt, Layer3.PayloadOffset;
    var f := ip[Layer3.PROTO_OFF := s.fakeProtocol];
    var g := Patch(f, total);
    var rest := FragTag(id, index) + sealed;
    OffsetOfPrefix(eth, ip, f);
    PatchedShape(eth, f, total);
    Layer3.ShapeParts(s, eth, g, nonce, s.policyId, Layer3.FRAG_MAGIC, rest);
    var wire := eth + g + TunnelHdr(nonce, s.policyId, Layer3.FRAG_MAGIC) + rest;
    var tag := ETH + |ip| + s.TunnelHdrSize();
    assert wire[tag..] == rest;
    TagParts(wire, tag, id, index, sealed);
  }

  lemma OnWire4(s: Settings, eth: seq<uint8>, ip: seq<uint8>, ports: seq<uint8>, nonce: seq<uint8>, id: uint16,
                index: uint8, sealed: seq<uint8>, total: nat)
    requires s.Valid() && |nonce| == s.nonceSize && |eth| == ETH && EthIpv4Offset(eth + ip) == Some(ETH)
    requires 20 <= |ip| <= 60 && HdrLen(ip[0]) == |ip| && ip[9] in {PROTO_TCP, PROTO_UDP}
    requires |ports| == Layer4.PORTS && sealed != []
    ensures var wire := eth + Patch(ip, total) + ports + TunnelHdr(nonce, s.policyId, Layer4.FRAG_MAGIC)
                        + (FragTag(id, index) + sealed);
            var at := ETH + |ip| + Layer4.PORTS;
            Headed(L4, s, wire, at) && Tagged(L4, wire, at, s.nonceSize, s.policyId, id, index)
  {
    hide Patch, EthIpv4Offset, TunnelHdr, FragTag, WordAt;
    var g := Patch(ip, total);
    var rest := FragTag(id, index) + sealed;
    PatchedShape(eth, ip, total);
    Parts(eth, g, ports, nonce, s.policyId, Layer4.FRAG_MAGIC, rest);
    var wire := eth + g + ports + TunnelHdr(nonce, s.policyId, Layer4.FRAG_MAGIC) + rest;
    TagParts(wire, ETH + |ip| + Layer4.PORTS + s.nonceSize + 2, id, index, sealed);
    assert Layer4.Locate(wire) == Layer4.Transport(ETH, ETH + |ip|);
    EtherTypeAt(wire);
  }

  lemma EtherTypeAt(p: seq<uint8>)
    requires EthIpv4Offset(p) == Some(ETH)
    ensures |p| >= ETH && WordAt(p, 12) == 0x0800
  {}

  // --- the right policy, and the half back --------------------------------------------

  /** The receiver's situation: distinct ids, one nonce size, the index of a rebuilt runtime, and policy k ready. */
  predicate Serves(layer: Layer, ps: PolicySet, s: Settings, k: nat)
  {
    && Coherent(ps) && ps.IndexComplete() && k < |ps.policies|
    && ps.policies[k].action == ActionOf(layer) && ps.ready[k]
    && CommonNonce(ps.policies, ps.policies[k].nonceSize) && s.nonceSize == ps.policies[k].nonceSize
    && (layer == L3 ==> s.fakeProtocol != 0)
  }

  /** A tagged packet is recognised, with its id and index; at layer 2 it must have the minimum size. */
  lemma Recognises(layer: Layer, ps: PolicySet, s: Settings, k: nat, wire: seq<uint8>, at: nat, id: uint16,
                   index: uint8)
    requires Serves(layer, ps, s, k) && index <= 1
    requires Headed(layer, s, wire, at) && Tagged(layer, wire, at, s.nonceSize, ps.policies[k].WireId(), id, index)
    requires layer == L2 ==> |wire| >= MIN_L2_FRAGMENT
    ensures Recognised(layer, ps.policies, s, wire) == Some((id, index))
  {
    hide Layer3.PayloadOffset, DistinctWireIds, PolicySet.IndexOk, PolicySet.IndexComplete, CryptoPolicy.WireId, WordAt,
         EthIpv4Offset;
    if layer == L4 {
      LocatedAt14(wire);
    }
    assert NonceAt(layer, s, wire) == Some(at);
    assert Marks(layer, ps.policies[k], wire, at);
    var r := FirstMarked(ps.policies, layer, wire, at, 0);
    assert ps.policies[r.value].nonceSize == s.nonceSize;
  }

  lemma LocatedAt14(p: seq<uint8>)
    requires Layer4.Locate(p).Transport? && WordAt(p, 12) == 0x0800
    ensures Layer4.Locate(p).l3 == ETH && p[ETH + 9] in {PROTO_TCP, PROTO_UDP}
    ensures HdrLen(p[ETH]) >= 20 && Layer4.Locate(p).toff == ETH + HdrLen(p[ETH])
  {}

  /** And resolved to the settings and the context of its policy. */
  lemma Resolves(layer: Layer, cur: PolicySet, prev: Option<PolicySet>, s: Settings, k: nat, wire: seq<uint8>, at: nat,
                 id: uint16, index: uint8)
    requires Serves(layer, cur, s, k) && (prev.Some? ==> prev.value.Valid())
    requires Headed(layer, s, wire, at) && Tagged(layer, wire, at, s.nonceSize, cur.policies[k].WireId(), id, index)
    ensures Resolved(layer, cur, prev, s, wire) == Some((Applied(cur.policies[k], s), cur.ctx[k]))
  {
    hide Layer3.PayloadOffset, DistinctWireIds, PolicySet.IndexOk, CryptoPolicy.WireId, WordAt, ExtractId,
         Layer4.Locate, CommonNonce;
    if layer != L2 {
      assert TunnelAt(ActionOf(layer), s, wire) == Some(at);
      Extracts(ActionOf(layer), cur.policies, s, wire, at, k);
    }
  }

  /** A fragment written by policy k, wherever it was written with the same settings, is recognised, opened with the
      context of that policy and no other, and gives back its half. */
  lemma FragmentReceived(layer: Layer, c: Cipher, s0: Settings, s: Settings, cur: PolicySet, prev: Option<PolicySet>,
                         k: nat, nonce: seq<uint8>, pkt: seq<uint8>, plain: seq<uint8>, id: uint16, index: uint8)
    requires c.Lawful() && Serves(layer, cur, s, k) && (prev.Some? ==> prev.value.Valid())
    requires Applied(cur.policies[k], s0) == Applied(cur.policies[k], s)
    requires |nonce| == s.nonceSize && CutPoint(layer, pkt).Some? && index <= 1
    requires layer == L4 ==> Layer3.PayloadOffset(pkt).value + Layer4.PORTS <= |pkt|
    requires EncryptHalf(layer, c, Applied(cur.policies[k], s0), cur.ctx[k], nonce, pkt, plain, id, index).Some?
    requires layer == L2 ==> |plain| >= 3
    ensures var sx := Applied(cur.policies[k], s0);
            var wire := EncryptHalf(layer, c, sx, cur.ctx[k], nonce, pkt, plain, id, index).value;
            Receive(layer, c, s, cur, prev, wire) == Received(Fragment(HalfPacket(layer, sx, pkt, plain), id, index))
  {
    hide EncryptHalf, DecryptHalf, HalfPacket, CutPoint, Layer3.PayloadOffset, Recognised, Resolved, Tagged,
         PolicySet.IndexOk, PolicySet.IndexComplete, DistinctWireIds, CommonNonce, CryptoPolicy.WireId, Layer4.Locate;
    var sx := Applied(cur.policies[k], s0);
    var wire := EncryptHalf(layer, c, sx, cur.ctx[k], nonce, pkt, plain, id, index).value;
    var at := NonceStart(layer, pkt);
    OnWire(layer, c, sx, cur.ctx[k], nonce, pkt, plain, id, index);
    HalfRoundTrip(layer, c, sx, cur.ctx[k], nonce, pkt, plain, id, index);
    HalfAtLeast(layer, c, sx, cur.ctx[k], nonce, pkt, plain, id, index);
    Recognises(layer, cur, s, k, wire, at, id, index);
    Resolves(layer, cur, prev, s, k, wire, at, id, index);
  }

  lemma HalfAtLeast(layer: Layer, c: Cipher, s: Settings, ctx: CryptoCtx, nonce: seq<uint8>, pkt: seq<uint8>,
                    plain: seq<uint8>, id: uint16, index: uint8)
    requires c.Lawful() && s.Valid() && ctx.Valid() && |nonce| == s.nonceSize && CutPoint(layer, pkt).Some?
    requires layer == L4 ==> Layer3.PayloadOffset(pkt).value + Layer4.PORTS <= |pkt|
    requires EncryptHalf(layer, c, s, ctx, nonce, pkt, plain, id, index).Some?
    ensures layer == L2 && |plain| >= 3 ==>
              |EncryptHalf(layer, c, s, ctx, nonce, pkt, plain, id, index).value| >= MIN_L2_FRAGMENT
  {
    hide Patch, Layer3.PayloadOffset, CutPoint, Layer2.Marked, Seal;
    SealLength(c, s, ctx.Current(), nonce, plain);
  }

  /** End to end: both fragments of a deliverable packet, written by policy k and recognised, resolved and opened by the
      receiver, give the packet with length and header checksum renewed, if the second comes within 200 ms. */
  lemma PacketReceived(layer: Layer, c: Cipher, s0: Settings, s: Settings, cur: PolicySet, prev: Option<PolicySet>,
                       k: nat, n1: seq<uint8>, n2: seq<uint8>, pkt: seq<uint8>, id: uint16, e: Entry,
                       t1: uint64, t2: uint64)
    requires c.Lawful() && Serves(layer, cur, s, k) && (prev.Some? ==> prev.value.Valid())
    requires Applied(cur.policies[k], s0) == Applied(cur.policies[k], s)
    requires |n1| == |n2| == s.nonceSize && e.Valid() && Elapsed(t2, t1) <= TIMEOUT_NS
    requires Split(layer, c, Applied(cur.policies[k], s0), cur.ctx[k], n1, n2, id, pkt).Some?
    requires Deliverable(layer, pkt, CutPoint(layer, pkt).value)
    ensures var (w1, w2) := Split(layer, c, Applied(cur.policies[k], s0), cur.ctx[k], n1, n2, id, pkt).value;
            var r1, r2 := Receive(layer, c, s, cur, prev, w1), Receive(layer, c, s, cur, prev, w2);
            && r1.Received? && r2.Received? && Readable(layer, r1.half.packet) && Readable(layer, r2.half.packet)
            && Delivered(layer, e, r1.half, r2.half, t1, t2) == Complete(Renewed(pkt))
  {
    hide EncryptHalf, DecryptHalf, HalfPacket, CutPoint, Layer3.PayloadOffset, Receive, Delivered, Renewed, Readable,
         RoomToJoin, Deliverable, PolicySet.IndexOk, PolicySet.IndexComplete, DistinctWireIds, CommonNonce,
         CryptoPolicy.WireId;
    var sx := Applied(cur.policies[k], s0);
    var cut := CutPoint(layer, pkt).value;
    PortsPresent(layer, pkt);
    LongHalves(layer, pkt, cut);
    SplitHalves(layer, c, sx, cur.ctx[k], n1, n2, id, pkt);
    SplitRoundTrip(layer, c, sx, cur.ctx[k], n1, n2, id, pkt, e, t1, t2);
    FragmentReceived(layer, c, s0, s, cur, prev, k, n1, pkt, pkt[FirstStart(layer, pkt)..cut], id, 0);
    FragmentReceived(layer, c, s0, s, cur, prev, k, n2, pkt, pkt[cut..], id, 1);
  }

  lemma LongHalves(layer: Layer, pkt: seq<uint8>, cut: nat)
    requires CutPoint(layer, pkt) == Some(cut) && Deliverable(layer, pkt, cut)
    ensures FirstStart(layer, pkt) <= cut
    ensures layer == L2 ==> cut - FirstStart(layer, pkt) >= 3 && |pkt| - cut >= 3
  {
    hide TransportHdrSize, WordAt;
  }

  // --- whole packets -------------------------------------------------------------------

  lemma SealedLength2(c: Cipher, s: Settings, ctx: CryptoCtx, nonce: seq<uint8>, pkt: seq<uint8>)
    requires c.Lawful() && s.Valid() && ctx.Valid() && |nonce| == s.nonceSize && Layer2.Handled(s, pkt)
    ensures var wire := Layer2.Encrypt(c, s, ctx, nonce, pkt);
            wire.Some? && |wire.value| > ETH + s.nonceSize
  {
    hide Seal, Layer2.Marked;
    SealLength(c, s, ctx.Current(), nonce, pkt[ETH..]);
  }

  /** A whole packet is never taken for a fragment, except for the two collisions: a first sealed byte 0x5B at layer 2
      and the protocol 0x5C at layer 3. */
  lemma WholeIsNoFragment(layer: Layer, c: Cipher, s0: Settings, s: Settings, policies: seq<CryptoPolicy>,
                          ctx: CryptoCtx, nonce: seq<uint8>, pkt: seq<uint8>)
    requires c.Lawful() && s0.Valid() && ctx.Valid() && |nonce| == s0.nonceSize == s.nonceSize
    requires CommonNonce(policies, s.nonceSize)
    requires layer == L2 ==> Layer2.Handled(s0, pkt)
    requires layer == L3 ==> Layer3.ToEncrypt(s0, pkt).Payload? && pkt[ETH + Layer3.PROTO_OFF] != Layer3.FRAG_MAGIC
    requires layer == L4 ==> Layer4.Handled(pkt)
    ensures var wire := EncryptWhole(layer, c, s0, ctx, nonce, pkt);
            && wire.Some? && |wire.value| > ETH + s.nonceSize
            && ((layer == L2 ==> wire.value[ETH + s.nonceSize] != Layer2.FRAG_MAGIC) ==>
                  Recognised(layer, policies, s, wire.value) == None)
  {
    hide Layer2.Encrypt, Layer3.Encrypt, Layer4.Encrypt, Layer3.ToEncrypt, Layer3.PayloadOffset, Layer4.Locate,
         Layer4.ToEncrypt, WordAt, CryptoPolicy.WireId;
    match layer
    case L2 => SealedLength2(c, s0, ctx, nonce, pkt);
    case L3 => Layer3.EncryptedShape(c, s0, ctx, nonce, pkt, Layer3.PayloadOffset(pkt).value);
    case L4 =>
      Layer4.EncryptedShape(c, s0, ctx, nonce, pkt);
      var wire := Layer4.Encrypt(c, s0, ctx, nonce, pkt).value;
      if WordAt(wire, 12) == 0x0800 {
        LocatedAt14(wire);
      }
  }
}
