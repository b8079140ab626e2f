/** Layer-2 tunnelling: a marker and the policy id replace the EtherType, the nonce follows, and the whole IP
    packet is encrypted. */
module Layer2 {
  import opened Bytes
  import opened Ipv4
  import opened PacketCrypto
  import opened Tunnel

  const MIN_ETH_PKT := 22
  const FRAG_MAGIC: uint8 := 0x5B
  const FRAG_TAG := 4
  const IPV4_TYPE: uint16 := 0x0800

  function EncStart(s: Settings): nat { ETH + s.nonceSize }

  function FragEncStart(s: Settings): nat { ETH + s.nonceSize + 1 + FRAG_TAG }

  /** Bytes a fragment adds to the IP bytes it carries. */
  function FragOverhead(s: Settings): nat { s.nonceSize + 1 + FRAG_TAG + s.TagLen() }

  /** The marked Ethernet header: the high byte of the fake EtherType, then the policy id, where the EtherType was. */
  function Marked(s: Settings, eth: seq<uint8>): (r: seq<uint8>)
    requires |eth| == ETH
    ensures |r| == ETH
  {
    eth[..12] + [Hi(s.fakeEthertype), s.policyId]
  }

  predicate HasMarker(s: Settings, pkt: seq<uint8>)
    requires |pkt| >= 13
  {
    s.fakeEthertype != 0 && pkt[12] == Hi(s.fakeEthertype)
  }

  /** What a CTR decryption must look like to be believed: an IP header with a live TTL and a known protocol. */
  predicate PlausibleIpv4(ip: seq<uint8>)
  {
    |ip| >= 20 && ip[8] != 0 && ip[9] in {1, 2, 6, 17, 47, 50, 51, 58, 89, 132}
  }

  /** The packets encryption transforms: IPv4 without a VLAN tag, and a fake EtherType is configured. */
  predicate Handled(s: Settings, pkt: seq<uint8>)
  {
    |pkt| >= MIN_ETH_PKT && WordAt(pkt, 12) == IPV4_TYPE && s.fakeEthertype != 0
  }

  /** Encryption of a whole packet; None is the error return. */
  function Encrypt(c: Cipher, s: Settings, ctx: CryptoCtx, nonce: seq<uint8>, pkt: seq<uint8>): Option<seq<uint8>>
    requires s.Valid() && ctx.Valid() && |nonce| == s.nonceSize
  {
    if |pkt| < MIN_ETH_PKT then None
    else if !Handled(s, pkt) then Some(pkt)
    else Some(Marked(s, pkt[..ETH]) + nonce + Seal(c, s.mode, ctx.Current(), nonce, pkt[ETH..]))
  }

  /** Whole packets are opened with the current key slot only. */
  function OpenCurrent(c: Cipher, s: Settings, ctx: CryptoCtx, nonce: seq<uint8>, data: seq<uint8>): Option<seq<uint8>>
    requires ctx.Valid() && |nonce| <= IV_SIZE
  {
    if |data| < s.TagLen() then None
    else
      var n := |data| - s.TagLen();
      var (ok, out) := Attempt(c, s.mode, ctx.Current(), nonce, data[..n], data[n..], PlausibleIpv4);
      if ok then Some(out) else None
  }

  /** Packets of an older format still carried their EtherType in the encrypted part. */
  function StripEthertype(plain: seq<uint8>): seq<uint8>
  {
    if |plain| >= 2 && plain[0] == 0x08 && plain[1] == 0x00 then plain[2..] else plain
  }

  /** A packet without the marker, or with what looks like a fragment marker behind the nonce, passes on. */
  predicate PassesOn(s: Settings, pkt: seq<uint8>)
    requires s.Valid() && |pkt| >= EncStart(s)
  {
    !HasMarker(s, pkt) || (|pkt| >= EncStart(s) + 1 && pkt[EncStart(s)] == FRAG_MAGIC)
  }

  function Decrypt(c: Cipher, s: Settings, ctx: CryptoCtx, pkt: seq<uint8>): Option<seq<uint8>>
    requires s.Valid() && ctx.Valid()
  {
    if |pkt| < EncStart(s) then None
    else if PassesOn(s, pkt) then Some(pkt)
    else
      var plain := OpenCurrent(c, s, ctx, pkt[ETH..EncStart(s)], pkt[EncStart(s)..]);
      if plain.None? then None
      else Some(pkt[..12] + [Hi(IPV4_TYPE), Lo(IPV4_TYPE)] + StripEthertype(plain.value))
  }

  /** What a failed decryption leaves of the packet: the output of its one attempt, if it got that far. */
  function Left(c: Cipher, s: Settings, ctx: CryptoCtx, pkt: seq<uint8>): seq<uint8>
    requires s.Valid() && ctx.Valid()
  {
    if |pkt| < EncStart(s) + s.TagLen() || PassesOn(s, pkt) then pkt
    else
      var n := |pkt| - s.TagLen();
      var nonce, body, tag := pkt[ETH..EncStart(s)], pkt[EncStart(s)..n], pkt[n..];
      pkt[..EncStart(s)] + Attempt(c, s.mode, ctx.Current(), nonce, body, tag, PlausibleIpv4).1 + tag
  }

  // --- whole packets ---------------------------------------------------------------

  lemma WireParts(s: Settings, eth: seq<uint8>, nonce: seq<uint8>, body: seq<uint8>)
    requires s.Valid() && |eth| == ETH && |nonce| == s.nonceSize
    ensures var p := Marked(s, eth) + nonce + body;
            && p[..12] == eth[..12] && p[12] == Hi(s.fakeEthertype) && p[13] == s.policyId
            && p[ETH..EncStart(s)] == nonce && p[EncStart(s)..] == body && |p| == EncStart(s) + |body|
            && p[..ETH] == Marked(s, eth)
  {
    var m := Marked(s, eth);
    var p := m + nonce + body;
    Cut(m, nonce, body);
    assert p[..12] == p[..ETH][..12] && p[12] == p[..ETH][12] && p[13] == p[..ETH][13];
    assert m[..12] == eth[..12];
  }

  lemma OpenCurrentSeal(c: Cipher, s: Settings, ctx: CryptoCtx, nonce: seq<uint8>, plain: seq<uint8>)
    requires c.Lawful() && ctx.Valid() && |nonce| <= IV_SIZE
    ensures OpenCurrent(c, s, ctx, nonce, Seal(c, s.mode, ctx.Current(), nonce, plain))
         == if s.mode == Ctr && !PlausibleIpv4(plain) then None else Some(plain)
  {
    hide PlausibleIpv4;
    var data := Seal(c, s.mode, ctx.Current(), nonce, plain);
    var n := |data| - s.TagLen();
    match s.mode
    case Gcm =>
      var enc, tag := c.gcmEncrypt(ctx.Current(), nonce, plain), c.gcmTag(ctx.Current(), nonce, plain);
      assert data[..n] == enc && data[n..] == tag;
      assert enc == [] ==> plain == [];
    case Ctr =>
      assert data[..n] == data && c.ctr(ctx.Current(), Iv(nonce), data) == plain;
  }

  /** Exactly when a packet survives: the first sealed byte must not look like the fragment marker, CTR must find
      the IP header plausible, and the packet must not start like the old format. */
  lemma PacketRoundTripIff(c: Cipher, s: Settings, ctx: CryptoCtx, nonce: seq<uint8>, pkt: seq<uint8>)
    requires c.Lawful() && s.Valid() && ctx.Valid() && |nonce| == s.nonceSize && Handled(s, pkt)
    ensures Encrypt(c, s, ctx, nonce, pkt).Some?
    ensures Decrypt(c, s, ctx, Encrypt(c, s, ctx, nonce, pkt).value) == Some(pkt) <==>
              && Encrypt(c, s, ctx, nonce, pkt).value[EncStart(s)] != FRAG_MAGIC
              && (s.mode == Ctr ==> PlausibleIpv4(pkt[ETH..]))
              && !(pkt[ETH] == 0x08 && pkt[ETH + 1] == 0x00)
  {
    hide Seal, OpenCurrent, PlausibleIpv4, Marked;
    var eth, plain := pkt[..ETH], pkt[ETH..];
    var sealed := Seal(c, s.mode, ctx.Current(), nonce, plain);
    var wire := Marked(s, eth) + nonce + sealed;
    SealLength(c, s, ctx.Current(), nonce, plain);
    WireParts(s, eth, nonce, sealed);
    OpenCurrentSeal(c, s, ctx, nonce, plain);
    EthernetRestored(pkt);
  }

  lemma EthernetRestored(pkt: seq<uint8>)
    requires |pkt| >= MIN_ETH_PKT && WordAt(pkt, 12) == IPV4_TYPE
    ensures pkt[..ETH][..12] == pkt[..12]
    ensures pkt[..12] + [Hi(IPV4_TYPE), Lo(IPV4_TYPE)] + pkt[ETH..] == pkt
  {
    assert pkt[12] == 0x08 && pkt[13] == 0;
  }

  // --- fragments -------------------------------------------------------------------

  /** One encrypted fragment, or None when there is nothing to encrypt, no marker to write, or not enough room. */
  function EncryptFragment(c: Cipher, s: Settings, ctx: CryptoCtx, nonce: seq<uint8>, eth: seq<uint8>,
                           plain: seq<uint8>, id: uint16, index: uint8, outMax: nat): Option<seq<uint8>>
    requires s.Valid() && ctx.Valid() && |nonce| == s.nonceSize && |eth| == ETH
  {
    if plain == [] || WordAt(eth, 12) != IPV4_TYPE then None
    else if ETH + FragOverhead(s) + |plain| > outMax || s.fakeEthertype == 0 then None
    else Some(Marked(s, eth) + nonce
              + ([FRAG_MAGIC] + FragTag(id, index) + Seal(c, s.mode, ctx.Current(), nonce, plain)))
  }

  predicate IsFragment(s: Settings, pkt: seq<uint8>)
    requires s.Valid()
  {
    |pkt| >= FragEncStart(s) && HasMarker(s, pkt) && pkt[EncStart(s)] == FRAG_MAGIC
  }

  /** The decrypted fragment keeps the marked Ethernet header. */
  function DecryptFragment(c: Cipher, s: Settings, ctx: CryptoCtx, pkt: seq<uint8>): Option<Fragment>
    requires s.Valid() && ctx.Valid()
  {
    if !IsFragment(s, pkt) then None
    else
      var tag := EncStart(s) + 1;
      var plain := Open(c, s, ctx, pkt[ETH..ETH + s.nonceSize], pkt[FragEncStart(s)..], AcceptAll);
      if plain.None? then None
      else Some(Fragment(pkt[..ETH] + plain.value, WordAt(pkt, tag), pkt[tag + 2]))
  }

  lemma FragmentParts(s: Settings, eth: seq<uint8>, nonce: seq<uint8>, id: uint16, index: uint8, body: seq<uint8>)
    requires s.Valid() && |eth| == ETH && |nonce| == s.nonceSize && s.fakeEthertype != 0
    ensures var p := Marked(s, eth) + nonce + ([FRAG_MAGIC] + FragTag(id, index) + body);
            && IsFragment(s, p) && p[..ETH] == Marked(s, eth) && p[ETH..ETH + s.nonceSize] == nonce
            && WordAt(p, EncStart(s) + 1) == id && p[EncStart(s) + 3] == index && p[FragEncStart(s)..] == body
  {
    hide Marked, FragTag, WordAt;
    var tagged := FragTag(id, index) + body;
    var rest := [FRAG_MAGIC] + FragTag(id, index) + body;
    var p := Marked(s, eth) + nonce + rest;
    WireParts(s, eth, nonce, rest);
    assert p[EncStart(s)] == p[EncStart(s)..][0] == FRAG_MAGIC;
    assert rest == [FRAG_MAGIC] + tagged;
    assert p[EncStart(s) + 1..] == p[EncStart(s)..][1..] == tagged;
    TagParts(p, EncStart(s) + 1, id, index, body);
  }

  /** Decrypting an encrypted fragment gives back the plaintext, the id and the index. */
  lemma FragmentRoundTrip(c: Cipher, s: Settings, ctx: CryptoCtx, nonce: seq<uint8>, eth: seq<uint8>,
                          plain: seq<uint8>, id: uint16, index: uint8, outMax: nat)
    requires c.Lawful() && s.Valid() && ctx.Valid() && |nonce| == s.nonceSize && |eth| == ETH
    requires EncryptFragment(c, s, ctx, nonce, eth, plain, id, index, outMax).Some?
    ensures DecryptFragment(c, s, ctx, EncryptFragment(c, s, ctx, nonce, eth, plain, id, index, outMax).value)
         == Some(Fragment(Marked(s, eth) + plain, id, index))
  {
    hide Seal, Open, IsFragment, Marked, FragTag, WordAt;
    FragmentParts(s, eth, nonce, id, index, Seal(c, s.mode, ctx.Current(), nonce, plain));
    OpenSeal(c, s, ctx, nonce, plain, AcceptAll);
  }

  // --- the code, working in the packet buffer --------------------------------------

  /** Encrypts buf[..len] in place: the sealed payload moves up to make room for the nonce. */
  method EncryptInPlace(c: Cipher, s: Settings, ctx: CryptoCtx, counter: uint32, salt: seq<uint8>,
                        buf: array<uint8>, len: nat) returns (newLen: int)
    requires c.Lawful() && s.Valid() && ctx.Valid() && |salt| == 16
    requires len + s.nonceSize + s.TagLen() <= buf.Length
    modifies buf
    ensures var r := Encrypt(c, s, ctx, GenerateNonce(counter, salt, s.nonceSize), old(buf[..])[..len]);
            if r.None? then newLen == -1 else newLen == |r.value| && buf[..newLen] == r.value
  {
    hide Seal, GenerateNonce, Marked, Handled;
    var pkt := buf[..][..len];
    if len < MIN_ETH_PKT {
      return -1;
    }
    if !Handled(s, pkt) {
      return len;
    }
    var nonce := GenerateNonce(counter, salt, s.nonceSize);
    var sealed := Seal(c, s.mode, ctx.Current(), nonce, pkt[ETH..]);
    SealLength(c, s, ctx.Current(), nonce, pkt[ETH..]);
    newLen := EncStart(s) + |sealed|;
    MarkAndFill(s, buf, nonce, sealed);
    assert pkt[..ETH] == old(buf[..])[..ETH];
  }

  method MarkAndFill(s: Settings, buf: array<uint8>, nonce: seq<uint8>, sealed: seq<uint8>)
    requires ETH + |nonce| + |sealed| <= buf.Length
    modifies buf
    ensures buf[..ETH + |nonce| + |sealed|] == Marked(s, old(buf[..])[..ETH]) + nonce + sealed
  {
    hide Write, SetWord, Marked, Word;
    var n := ETH + |nonce| + |sealed|;
    ghost var b := buf[..];
    ghost var eth, n0, e0, x := b[..ETH], b[ETH..ETH + |nonce|], b[ETH + |nonce|..n], b[n..];
    FourParts(b, ETH, ETH + |nonce|, n);
    CopyInto(buf, ETH + |nonce|, sealed);
    WriteMiddle(eth + n0, e0, x, sealed);
    StoreWord(buf, 12, Word(Hi(s.fakeEthertype), s.policyId));
    Regroup(eth, n0, sealed, x);
    MarkPrefix(s, eth, n0 + (sealed + x));
    CopyInto(buf, ETH, nonce);
    ghost var m := Marked(s, eth);
    Regroup(m, n0, sealed, x);
    Assoc(m, n0, sealed + x);
    WriteMiddle(m, n0, sealed + x, nonce);
    Assoc(m + nonce, sealed, x);
    Prefix(m + nonce + sealed, x);
    assert buf[..n] == buf[..][..n];
  }

  lemma Regroup(a: seq<uint8>, b: seq<uint8>, c: seq<uint8>, d: seq<uint8>)
    ensures a + b + c + d == a + (b + (c + d))
  {
    Assoc(a + b, c, d);
    Assoc(a, b, c + d);
  }

  /** Overwriting the EtherType in front of anything. */
  lemma MarkPrefix(s: Settings, eth: seq<uint8>, rest: seq<uint8>)
    requires |eth| == ETH
    ensures SetWord(eth + rest, 12, Word(Hi(s.fakeEthertype), s.policyId)) == Marked(s, eth) + rest
  {
    hide Hi, Lo, Word;
    var all := eth + rest;
    WordRoundTrip(0, Hi(s.fakeEthertype), s.policyId);
    assert all[..12] == eth[..12] && all[14..] == rest;
  }

  /** Decrypt and Left where the tests in front decide. */
  lemma DecryptEarly(c: Cipher, s: Settings, ctx: CryptoCtx, pkt: seq<uint8>)
    requires s.Valid() && ctx.Valid()
    ensures |pkt| < EncStart(s) ==> Decrypt(c, s, ctx, pkt) == None && Left(c, s, ctx, pkt) == pkt
    ensures |pkt| >= EncStart(s) && PassesOn(s, pkt) ==> Decrypt(c, s, ctx, pkt) == Some(pkt)
    ensures |pkt| >= EncStart(s) && !PassesOn(s, pkt) && |pkt| < EncStart(s) + s.TagLen() ==>
              Decrypt(c, s, ctx, pkt) == None && Left(c, s, ctx, pkt) == pkt
  {
    hide PassesOn, Attempt;
  }

  /** Decrypt and Left past the tests in front. */
  lemma DecryptForms(c: Cipher, s: Settings, ctx: CryptoCtx, pkt: seq<uint8>, n: nat)
    requires c.Lawful() && s.Valid() && ctx.Valid() && |pkt| == EncStart(s) + n + s.TagLen() && !PassesOn(s, pkt)
    ensures var nonce, data := pkt[ETH..EncStart(s)], pkt[EncStart(s)..];
            var (ok, out) := Attempt(c, s.mode, ctx.Current(), nonce, data[..n], data[n..], PlausibleIpv4);
            && Decrypt(c, s, ctx, pkt)
               == (if ok then Some(pkt[..12] + [Hi(IPV4_TYPE), Lo(IPV4_TYPE)] + StripEthertype(out)) else None)
            && Left(c, s, ctx, pkt) == pkt[..EncStart(s)] + out + pkt[EncStart(s) + n..]
  {
    hide Attempt, StripEthertype, PassesOn;
    var data := pkt[EncStart(s)..];
    assert data[..n] == pkt[EncStart(s)..|pkt| - s.TagLen()] && data[n..] == pkt[|pkt| - s.TagLen()..];
  }

  lemma WrittenPrefix(b: seq<uint8>, len: nat, off: nat, src: seq<uint8>)
    requires off + |src| <= len <= |b|
    ensures Write(b, off, src)[..len] == b[..len][..off] + src + b[..len][off + |src|..]
  {}

  lemma AttemptLength(c: Cipher, mode: Mode, key: Key, nonce: seq<uint8>, work: seq<uint8>, tag: seq<uint8>)
    requires c.Lawful() && |nonce| <= IV_SIZE
    ensures |Attempt(c, mode, key, nonce, work, tag, PlausibleIpv4).1| == |work|
  {}

  /** Restores the EtherType and moves the IP packet down behind it. */
  method PlaceIpv4(buf: array<uint8>, plain: seq<uint8>) returns (newLen: nat)
    requires ETH + |plain| <= buf.Length
    modifies buf
    ensures newLen <= buf.Length
    ensures buf[..newLen] == old(buf[..])[..12] + [Hi(IPV4_TYPE), Lo(IPV4_TYPE)] + StripEthertype(plain)
  {
    hide Write, StripEthertype;
    ghost var b := buf[..];
    var ip := StripEthertype(plain);
    assert |ip| <= |plain| by { StripLength(plain); }
    buf[12], buf[13] := Hi(IPV4_TYPE), Lo(IPV4_TYPE);
    ghost var eth := b[..12] + [Hi(IPV4_TYPE), Lo(IPV4_TYPE)];
    newLen := ETH + |ip|;
    assert buf[..] == eth + b[ETH..newLen] + b[newLen..];
    CopyInto(buf, ETH, ip);
    WriteMiddle(eth, b[ETH..newLen], b[newLen..], ip);
    Prefix(eth + ip, b[newLen..]);
    assert buf[..newLen] == buf[..][..newLen];
  }

  lemma StripLength(plain: seq<uint8>)
    ensures |StripEthertype(plain)| <= |plain|
  {}

  /** Decrypts buf[..len] in place. */
  method DecryptInPlace(c: Cipher, s: Settings, ctx: CryptoCtx, buf: array<uint8>, len: nat) returns (newLen: int)
    requires c.Lawful() && s.Valid() && ctx.Valid() && len <= buf.Length
    modifies buf
    ensures var r := Decrypt(c, s, ctx, old(buf[..])[..len]);
            if r.None? then newLen == -1 && buf[..len] == Left(c, s, ctx, old(buf[..])[..len])
            else newLen == |r.value| <= buf.Length && buf[..newLen] == r.value
  {
    hide Attempt, Decrypt, Left, PassesOn, StripEthertype;
    DecryptEarly(c, s, ctx, buf[..][..len]);
    ghost var b := buf[..];
    var pkt := buf[..][..len];
    if len < EncStart(s) {
      return -1;
    }
    if PassesOn(s, pkt) {
      return len;
    }
    var nonce, data := pkt[ETH..EncStart(s)], pkt[EncStart(s)..];
    if |data| < s.TagLen() {
      return -1;
    }
    var n := |data| - s.TagLen();
    var (ok, out) := Attempt(c, s.mode, ctx.Current(), nonce, data[..n], data[n..], PlausibleIpv4);
    AttemptLength(c, s.mode, ctx.Current(), nonce, data[..n], data[n..]);
    DecryptForms(c, s, ctx, pkt, n);
    if !ok {
      CopyInto(buf, EncStart(s), out);
      WrittenPrefix(b, len, EncStart(s), out);
      assert buf[..len] == buf[..][..len];
      return -1;
    }
    newLen := PlaceIpv4(buf, out);
    assert b[..12] == pkt[..12];
  }

  /** Decrypts the fragment buf[..len] in place and reads its tag. */
  method DecryptFragmentInPlace(c: Cipher, s: Settings, ctx: CryptoCtx, buf: array<uint8>, len: nat)
    returns (newLen: int, id: uint16, index: uint8)
    requires c.Lawful() && s.Valid() && ctx.Valid() && len <= buf.Length
    modifies buf
    ensures var r := DecryptFragment(c, s, ctx, old(buf[..])[..len]);
            if r.None? then newLen == -1
            else newLen == |r.value.packet| <= buf.Length && buf[..newLen] == r.value.packet
                 && id == r.value.id && index == r.value.index
  {
    hide Open, IsFragment, WordAt;
    newLen, id, index := -1, 0, 0;
    if IsFragment(s, buf[..][..len]) {
      ghost var b := buf[..];
      ghost var pkt := b[..len];
      FragmentLength(s, pkt);
      var tag := EncStart(s) + 1;
      id, index := WordAt(buf[..][..len], tag), buf[tag + 2];
      var nonce := buf[ETH..ETH + s.nonceSize];
      assert nonce == pkt[ETH..ETH + s.nonceSize] && b[FragEncStart(s)..len] == pkt[FragEncStart(s)..];
      ghost var rest;
      newLen, rest := OpenAndMove(c, s, ctx, nonce, buf, ETH, FragEncStart(s), len, AcceptAll);
      if newLen >= 0 {
        ghost var plain := Open(c, s, ctx, nonce, b[FragEncStart(s)..len], AcceptAll).value;
        Prefix(b[..ETH] + plain, rest);
        newLen := ETH + newLen;
        assert buf[..newLen] == buf[..][..newLen] && b[..ETH] == pkt[..ETH];
      }
    }
  }

  lemma FragmentLength(s: Settings, pkt: seq<uint8>)
    requires s.Valid() && IsFragment(s, pkt)
    ensures |pkt| >= FragEncStart(s)
  {}

  /** Builds one encrypted fragment in out. */
  method EncryptFragmentInto(c: Cipher, s: Settings, ctx: CryptoCtx, counter: uint32, salt: seq<uint8>,
                             eth: seq<uint8>, plain: seq<uint8>, id: uint16, index: uint8,
                             out: array<uint8>, outMax: nat) returns (outLen: int)
    requires c.Lawful() && s.Valid() && ctx.Valid() && |salt| == 16
    requires |eth| == ETH && outMax <= out.Length
    modifies out
    ensures var r := EncryptFragment(c, s, ctx, GenerateNonce(counter, salt, s.nonceSize),
                                     eth, plain, id, index, outMax);
            if r.None? then outLen == -1 else outLen == |r.value| <= out.Length && out[..outLen] == r.value
  {
    hide Seal, GenerateNonce, FragTag, Marked, WordAt;
    if plain == [] || WordAt(eth, 12) != IPV4_TYPE {
      return -1;
    }
    if ETH + FragOverhead(s) + |plain| > outMax || s.fakeEthertype == 0 {
      return -1;
    }
    var nonce := GenerateNonce(counter, salt, s.nonceSize);
    var sealed := Seal(c, s.mode, ctx.Current(), nonce, plain);
    SealLength(c, s, ctx.Current(), nonce, plain);
    var head, tag := Marked(s, eth), [FRAG_MAGIC] + FragTag(id, index);
    AppendAt(out, [], 0, head);
    assert [] + head == head;
    AppendAt(out, head, ETH, nonce);
    AppendAt(out, head + nonce, EncStart(s), tag);
    AppendAt(out, head + nonce + tag, FragEncStart(s), sealed);
    Assoc(head + nonce, tag, sealed);
    outLen := FragEncStart(s) + |sealed|;
  }
}
