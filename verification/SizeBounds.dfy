/** The need-split tests against the sizes the encryption functions produce. */
module SizeBounds {
  import opened Bytes
  import opened Ipv4
  import opened PacketCrypto
  import opened Tunnel
  import opened Fragmentation
  import Layer2
  import Layer3
  import Layer4

  const MTU := 1500

  /** The largest packet whose fragments always fit the MTU, whatever its headers and the cipher settings. */
  const SPLIT_BOUND := 2783

  /** What the need-split test of each layer adds to the packet length. */
  function MetaLen(layer: Layer, s: Settings): nat
  {
    match layer
    case L2 => s.nonceSize + 1 + Layer2.FRAG_TAG + s.TagLen()
    case L3 => s.TunnelHdrSize() + Layer3.FRAG_TAG + s.TagLen()
    case L4 => Layer4.PORTS + s.TunnelHdrSize() + Layer4.FRAG_HDR + s.TagLen()
  }

  predicate NeedSplit(layer: Layer, s: Settings, len: nat) { len + MetaLen(layer, s) > MTU }

  /** The layer's whole-packet encryption. */
  function EncryptWhole(layer: Layer, c: Cipher, s: Settings, ctx: CryptoCtx, nonce: seq<uint8>, pkt: seq<uint8>)
    : Option<seq<uint8>>
    requires s.Valid() && ctx.Valid() && |nonce| == s.nonceSize
    requires layer == L4 ==> Layer4.HeadersComplete(pkt)
  {
    match layer
    case L2 => Layer2.Encrypt(c, s, ctx, nonce, pkt)
    case L3 => Layer3.Encrypt(c, s, ctx, nonce, pkt)
    case L4 => Layer4.Encrypt(c, s, ctx, nonce, pkt)
  }

  /** A packet that is not split fits the MTU after encryption. */
  lemma WholeFits(layer: Layer, c: Cipher, s: Settings, ctx: CryptoCtx, nonce: seq<uint8>, pkt: seq<uint8>)
    requires c.Lawful() && s.Valid() && ctx.Valid() && |nonce| == s.nonceSize
    requires layer == L4 ==> Layer4.HeadersComplete(pkt)
    requires !NeedSplit(layer, s, |pkt|) && EncryptWhole(layer, c, s, ctx, nonce, pkt).Some?
    ensures |EncryptWhole(layer, c, s, ctx, nonce, pkt).value| <= MTU
  {
    hide Seal, Patch, EthIpv4Offset, Layer4.ToEncrypt, Layer3.ToEncrypt, Layer4.HeadersComplete,
         Layer3.PayloadOffset, Layer2.Marked;
    match layer
    case L2 => SealLength(c, s, ctx.Current(), nonce, if |pkt| >= ETH then pkt[ETH..] else []);
    case L3 =>
      match Layer3.ToEncrypt(s, pkt) {
        case Payload(tun) => SealLength(c, s, ctx.Current(), nonce, pkt[tun..]);
        case _ =>
      }
    case L4 =>
      match Layer4.ToEncrypt(pkt) {
        case Transport(l3, toff) => SealLength(c, s, ctx.Current(), nonce, pkt[toff + Layer4.PORTS..]);
        case _ =>
      }
  }

  /** Bytes on the wire in front of a fragment's plaintext and behind it. */
  function FragmentMeta(layer: Layer, s: Settings, pkt: seq<uint8>): nat
    requires CutPoint(layer, pkt).Some?
  {
    var toff := Layer3.PayloadOffset(pkt).value;
    if layer == L2 then ETH + MetaLen(layer, s) else toff + MetaLen(layer, s)
  }

  lemma HalfLength(layer: Layer, c: Cipher, s: Settings, ctx: CryptoCtx, nonce: seq<uint8>, pkt: seq<uint8>,
                   plain: seq<uint8>, id: uint16, index: uint8)
    requires c.Lawful() && s.Valid() && ctx.Valid() && |nonce| == s.nonceSize && CutPoint(layer, pkt).Some?
    requires layer == L4 ==> Layer3.PayloadOffset(pkt).value + Layer4.PORTS <= |pkt|
    requires layer == L2 ==> s.fakeEthertype != 0
    ensures var w := EncryptHalf(layer, c, s, ctx, nonce, pkt, plain, id, index);
            var n := FragmentMeta(layer, s, pkt) + |plain|;
            && (w.Some? <==> plain != [] && n <= MAX_WIRE) && (w.Some? ==> |w.value| == n)
  {
    hide Seal, Patch, Layer3.PayloadOffset, CutPoint, Layer2.Marked, TunnelHdr, FragTag, WordAt;
    Headers(pkt);
    SealLength(c, s, ctx.Current(), nonce, plain);
  }

  /** The transport header that stays whole in the first fragment. */
  function KeptHdr(pkt: seq<uint8>): (th: nat)
    requires Layer3.PayloadOffset(pkt).Some?
    ensures th <= 60
  {
    var h := TransportHdrSize(pkt[Layer3.PayloadOffset(pkt).value..], pkt[ETH + Layer3.PROTO_OFF]);
    if h.Some? then h.value else 0
  }

  /** The sizes of the two plaintexts: the first has the transport header on top of its half. */
  lemma PlainSizes(layer: Layer, pkt: seq<uint8>)
    requires CutPoint(layer, pkt).Some?
    ensures var toff, th := Layer3.PayloadOffset(pkt).value, KeptHdr(pkt);
            && toff + th < |pkt| && CutPoint(layer, pkt).value == toff + th + (|pkt| - toff - th) / 2
            && (layer != L2 ==> th >= 8)
  {
    hide WordAt;
  }

  /** Splitting a packet of at most 2783 bytes succeeds, and both fragments fit the MTU, with any headers of up to
      60 bytes, any nonce size and either mode. */
  lemma SplitFits(layer: Layer, c: Cipher, s: Settings, ctx: CryptoCtx, n1: seq<uint8>, n2: seq<uint8>,
                  id: uint16, pkt: seq<uint8>)
    requires c.Lawful() && s.Valid() && ctx.Valid() && |n1| == |n2| == s.nonceSize
    requires CutPoint(layer, pkt).Some? && |pkt| <= SPLIT_BOUND
    requires layer == L2 ==> s.fakeEthertype != 0
    ensures var r := Split(layer, c, s, ctx, n1, n2, id, pkt);
            r.Some? && |r.value.0| <= MTU && |r.value.1| <= MTU
  {
    hide EncryptHalf, CutPoint, Layer3.PayloadOffset;
    var cut := CutPoint(layer, pkt).value;
    var first, second := pkt[FirstStart(layer, pkt)..cut], pkt[cut..];
    PortsPresent(layer, pkt);
    PlainSizes(layer, pkt);
    FirstNotEmpty(layer, pkt);
    HalfLength(layer, c, s, ctx, n1, pkt, first, id, 0);
    HalfLength(layer, c, s, ctx, n2, pkt, second, id, 1);
  }

  lemma FirstNotEmpty(layer: Layer, pkt: seq<uint8>)
    requires CutPoint(layer, pkt).Some?
    ensures FirstStart(layer, pkt) < CutPoint(layer, pkt).value
  {}

  /** The bound is tight: one byte more, with a 60-byte IP header, a 60-byte TCP header, a 16-byte nonce and GCM, and
      the first layer-4 fragment is one byte too long. */
  lemma SplitBoundTight(c: Cipher, s: Settings, ctx: CryptoCtx, n1: seq<uint8>, n2: seq<uint8>, id: uint16,
                        pkt: seq<uint8>)
    requires c.Lawful() && s.Valid() && ctx.Valid() && |n1| == |n2| == s.nonceSize
    requires |pkt| == SPLIT_BOUND + 1 && Layer3.PayloadOffset(pkt) == Some(74)
             && pkt[ETH + Layer3.PROTO_OFF] == PROTO_TCP
    requires TransportHdrSize(pkt[74..], PROTO_TCP) == Some(60) && s.nonceSize == 16 && s.mode == Gcm
    ensures var r := Split(L4, c, s, ctx, n1, n2, id, pkt);
            r.Some? && |r.value.0| == MTU + 1
  {
    hide EncryptHalf;
    var cut := CutPoint(L4, pkt).value;
    HalfLength(L4, c, s, ctx, n1, pkt, pkt[74..cut], id, 0);
    HalfLength(L4, c, s, ctx, n2, pkt, pkt[cut..], id, 1);
  }

  /** Every packet the need-split test sends to splitting, up to the bound, is deliverable, apart from what no size
      can decide: the IP version at layer 2 and the guess of the protocol at layer 3. */
  lemma SplitDelivers(layer: Layer, s: Settings, pkt: seq<uint8>)
    requires s.Valid() && CutPoint(layer, pkt).Some? && NeedSplit(layer, s, |pkt|) && |pkt| <= SPLIT_BOUND
    ensures var cut := CutPoint(layer, pkt).value;
            Deliverable(layer, pkt, cut) <==>
              (layer == L2 ==> pkt[ETH] / 0x10 == 4) && GuessRight(layer, pkt, cut)
  {
    hide CutPoint, Layer3.PayloadOffset, GuessRight;
    PlainSizes(layer, pkt);
    OffsetRange(pkt);
  }

  lemma OffsetRange(pkt: seq<uint8>)
    requires Layer3.PayloadOffset(pkt).Some?
    ensures ETH + 20 <= Layer3.PayloadOffset(pkt).value <= ETH + 60
  {}
}
