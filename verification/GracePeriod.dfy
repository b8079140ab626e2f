/** What the previous policy set is good for after a restart: exactly which packets that were encrypted before it still
    get through. */
module GracePeriod {
  import opened Bytes
  import opened Ipv4
  import opened Config
  import opened PacketCrypto
  import opened Dispatch
  import Layer3
  import Layer4

  /** The list has a policy of this action and wire id. */
  predicate Lists(policies: seq<CryptoPolicy>, action: int, id: uint8)
  {
    exists j | 0 <= j < |policies| :: policies[j].action == action && policies[j].WireId() == id
  }

  /** The set has such a policy, but no context for it. */
  predicate ListsUnready(ps: PolicySet, action: int, id: uint8)
    requires ps.Valid()
  {
    exists j | 0 <= j < |ps.policies| ::
      ps.policies[j].action == action && ps.policies[j].WireId() == id && !ps.ready[j]
  }

  /** It has such a policy and a context for it. */
  predicate ListsReady(ps: PolicySet, action: int, id: uint8, j: nat)
    requires ps.Valid()
  {
    j < |ps.policies| && ps.policies[j].action == action && ps.policies[j].WireId() == id && ps.ready[j]
  }

  /** With one nonce size, an id is found on the wire exactly when the list has a policy with it. */
  lemma ExtractsListed(action: int, policies: seq<CryptoPolicy>, s: Settings, wire: seq<uint8>, tun: nat, n: nat)
    requires CommonNonce(policies, n) && n > 0 && TunnelAt(action, s, wire) == Some(tun) && tun + n + 1 < |wire|
    requires action == ACTION_L4 ==> wire[tun + n + 1] in {Layer4.TUNNEL_MAGIC, Layer4.FRAG_MAGIC}
    ensures ExtractId(policies, action, s, wire)
         == if Lists(policies, action, wire[tun + n]) then Some((wire[tun + n], n)) else None
  {
    hide TunnelAt, CryptoPolicy.WireId;
    var r := FirstMatch(policies, action, wire, tun, 0);
    if Lists(policies, action, wire[tun + n]) {
      var j :| 0 <= j < |policies| && policies[j].action == action && policies[j].WireId() == wire[tun + n];
      assert IdMatches(policies[j], action, wire, tun);
    }
  }

  /** Which policy of a set with distinct ids is tried. */
  lemma TriedIff(action: int, ps: PolicySet, id: uint8, n: nat, j: nat)
    requires Coherent(ps) && CommonNonce(ps.policies, n) && action in {ACTION_L3, ACTION_L4}
    requires j < |ps.policies| && ps.policies[j].action == action && ps.policies[j].WireId() == id
    ensures Candidate(action, ps, id, n) == if ps.ready[j] then Some(j) else None
    ensures ListsUnready(ps, action, id) <==> !ps.ready[j]
  {
    hide CryptoPolicy.WireId, Candidate, DistinctWireIds;
    Resolves(action, ps, j);
    forall i | 0 <= i < |ps.policies| && ps.policies[i].WireId() == id ensures i == j {
      WireIdsDiffer(ps.policies, i, j);
    }
  }

  // --- layer 3 -------------------------------------------------------------------------

  /** The situation at layer 3: policy k of the previous set has encrypted pkt; all policies of the current set use its
      nonce size, as does the receiving thread, and both sides agree on the fake protocol. */
  ghost predicate SealedBefore3(c: Cipher, s0: Settings, s: Settings, cur: PolicySet, prev: PolicySet, k: nat,
                                nonce: seq<uint8>, pkt: seq<uint8>)
  {
    && c.Lawful() && Coherent(cur) && Coherent(prev) && cur.policies != []
    && k < |prev.policies| && prev.policies[k].action == ACTION_L3 && prev.ready[k]
    && CommonNonce(cur.policies, prev.policies[k].nonceSize)
    && s.nonceSize == prev.policies[k].nonceSize == |nonce| && Marker(s0) == Marker(s)
    && Layer3.ToEncrypt(Applied(prev.policies[k], s0), pkt).Payload?
    && pkt[ETH + Layer3.PROTO_OFF] != Layer3.FRAG_MAGIC
    && (ModeOf(prev.policies[k].cryptoMode) == Ctr ==>
          Layer3.Plausible(pkt[ETH + Layer3.PROTO_OFF], pkt[Layer3.PayloadOffset(pkt).value..]))
  }

  /** What was put on the wire. */
  function Wire3(c: Cipher, s0: Settings, prev: PolicySet, k: nat, nonce: seq<uint8>, pkt: seq<uint8>): seq<uint8>
    requires prev.Valid() && k < |prev.policies| && |nonce| == prev.policies[k].nonceSize
  {
    var wire := Layer3.Encrypt(c, Applied(prev.policies[k], s0), prev.ctx[k], nonce, pkt);
    if wire.Some? then wire.value else []
  }

  /** Where the receiver finds the id on the wire, and the protocol. */
  lemma WireShape3(c: Cipher, s0: Settings, s: Settings, cur: PolicySet, prev: PolicySet, k: nat, nonce: seq<uint8>,
                   pkt: seq<uint8>)
    requires SealedBefore3(c, s0, s, cur, prev, k, nonce, pkt)
    ensures var wire := Wire3(c, s0, prev, k, nonce, pkt);
            var id := prev.policies[k].WireId();
            && Layer3.PayloadOffset(wire).Some?
            && var tun := Layer3.PayloadOffset(wire).value;
            && tun + s.nonceSize + 1 < |wire| && wire[tun + s.nonceSize + 1] == pkt[ETH + Layer3.PROTO_OFF]
            && ExtractId(cur.policies, ACTION_L3, s, wire)
               == if Lists(cur.policies, ACTION_L3, id) then Some((id, s.nonceSize)) else None
  {
    hide Layer3.Encrypt, Layer3.ToEncrypt, Layer3.PayloadOffset, Layer3.Plausible, CryptoPolicy.WireId, ExtractId,
         PolicySet.IndexOk, DistinctWireIds, CommonNonce, Lists;
    var sx := Applied(prev.policies[k], s0);
    var tun := Layer3.PayloadOffset(pkt).value;
    Layer3.EncryptedShape(c, sx, prev.ctx[k], nonce, pkt, tun);
    ExtractsListed(ACTION_L3, cur.policies, s, Wire3(c, s0, prev, k, nonce, pkt), tun, s.nonceSize);
  }

  /** The previous policy still restores the packet. */
  lemma PrevRestores3(c: Cipher, s0: Settings, s: Settings, cur: PolicySet, prev: PolicySet, k: nat, nonce: seq<uint8>,
                      pkt: seq<uint8>)
    requires SealedBefore3(c, s0, s, cur, prev, k, nonce, pkt)
    ensures Try(ACTION_L3, c, s, prev, k, Wire3(c, s0, prev, k, nonce, pkt)).0 == Some(Layer3.Restored(pkt))
  {
    hide Layer3.Encrypt, Layer3.Decrypt, Layer3.ToEncrypt, Layer3.PayloadOffset, Layer3.Plausible, CryptoPolicy.WireId,
         Layer3.Restored, Layer3.Left, PolicySet.IndexOk, DistinctWireIds, CommonNonce;
    var sx, rx := Applied(prev.policies[k], s0), Applied(prev.policies[k], s);
    Layer3.PacketRoundTrip(c, sx, prev.ctx[k], nonce, pkt);
    Layer3.Lengths(c, sx, prev.ctx[k], nonce, pkt);
    Layer3.SettingsUsed(c, sx, rx, prev.ctx[k], Wire3(c, s0, prev, k, nonce, pkt));
  }

  /** A policy of the current set that is ready decides alone, unless the original protocol is the fake one: a failed
      attempt has already put the protocol byte back, so the packet no longer looks like a tunnel packet. */
  lemma CurrentDecides3(c: Cipher, s0: Settings, s: Settings, cur: PolicySet, prev: PolicySet, k: nat,
                        nonce: seq<uint8>, pkt: seq<uint8>, j: nat)
    requires SealedBefore3(c, s0, s, cur, prev, k, nonce, pkt)
    requires ListsReady(cur, ACTION_L3, prev.policies[k].WireId(), j) && pkt[ETH + Layer3.PROTO_OFF] != Marker(s)
    ensures var wire := Wire3(c, s0, prev, k, nonce, pkt);
            var r := Layer3.Decrypt(c, Applied(cur.policies[j], s), cur.ctx[j], wire);
            Auto(ACTION_L3, c, s, cur, Some(prev), wire) == if r.Some? then Decrypted(j, r.value) else Rejected
  {
    hide Layer3.Encrypt, Layer3.Decrypt, Layer3.ToEncrypt, Layer3.PayloadOffset, Layer3.Plausible, CryptoPolicy.WireId,
         Layer3.Restored, Layer3.Left, PolicySet.IndexOk, DistinctWireIds, CommonNonce, ExtractId, Candidate,
         Layer4.Decrypt, Layer4.Left, Layer3.ToDecrypt;
    var wire := Wire3(c, s0, prev, k, nonce, pkt);
    var sx, own := Applied(prev.policies[k], s0), Applied(cur.policies[j], s);
    assert own.nonceSize == s.nonceSize by { NonceOf(cur.policies, s.nonceSize, j); }
    WireShape3(c, s0, s, cur, prev, k, nonce, pkt);
    assert Lists(cur.policies, ACTION_L3, prev.policies[k].WireId());
    TriedIff(ACTION_L3, cur, prev.policies[k].WireId(), s.nonceSize, j);
    TriedPrev(prev, k);
    Layer3.DecryptOfEncrypt(c, sx, prev.ctx[k], own, cur.ctx[j], nonce, pkt);
    if Layer3.Decrypt(c, own, cur.ctx[j], wire).None? {
      FailedLater(c, own, cur.ctx[j], wire);
      Layer3.LeftPassesOn(c, own, cur.ctx[j], wire, Applied(prev.policies[k], own), prev.ctx[k]);
    }
  }

  lemma NonceOf(policies: seq<CryptoPolicy>, n: nat, j: nat)
    requires CommonNonce(policies, n) && j < |policies|
    ensures policies[j].nonceSize == n
  {}

  /** A previous policy is found under its own id. */
  lemma TriedPrev(prev: PolicySet, k: nat)
    requires Coherent(prev) && k < |prev.policies| && prev.policies[k].action in {ACTION_L3, ACTION_L4} && prev.ready[k]
    ensures Candidate(prev.policies[k].action, prev, prev.policies[k].WireId(), prev.policies[k].nonceSize) == Some(k)
  {
    hide Candidate, CryptoPolicy.WireId, Coherent;
    Resolves(prev.policies[k].action, prev, k);
  }

  /** A packet with an IP header that fails to decrypt has passed the tests in front. */
  lemma FailedLater(c: Cipher, s: Settings, ctx: CryptoCtx, pkt: seq<uint8>)
    requires s.Valid() && ctx.Valid() && Layer3.PayloadOffset(pkt).Some? && Layer3.Decrypt(c, s, ctx, pkt) == None
    ensures Layer3.ToDecrypt(s, pkt).Payload?
  {}

  /** Exactly when the previous set restores a packet it has encrypted at layer 3: the current configuration must still
      list the wire id, and must have no context for it.  An id it does not list is not recognised at all, and a
      context it does have is tried first and spoils the packet when its key has changed. */
  lemma RestoredByPrevIff3(c: Cipher, s0: Settings, s: Settings, cur: PolicySet, prev: PolicySet, k: nat,
                           nonce: seq<uint8>, pkt: seq<uint8>)
    requires SealedBefore3(c, s0, s, cur, prev, k, nonce, pkt)
    ensures var v := Auto(ACTION_L3, c, s, cur, Some(prev), Wire3(c, s0, prev, k, nonce, pkt));
            var id := prev.policies[k].WireId();
            && (ListsUnready(cur, ACTION_L3, id) ==> v == DecryptedByPrev(k, Layer3.Restored(pkt)))
            && (!Lists(cur.policies, ACTION_L3, id) ==> v == Passed)
            && (pkt[ETH + Layer3.PROTO_OFF] != Marker(s) ==>
                  (v == DecryptedByPrev(k, Layer3.Restored(pkt)) <==> ListsUnready(cur, ACTION_L3, id)))
  {
    hide Try, Layer3.Restored, Layer3.ToEncrypt, Layer3.Plausible, CryptoPolicy.WireId, ExtractId, Candidate,
         CommonNonce, Wire3, Layer3.PayloadOffset, PolicySet.IndexOk, DistinctWireIds, Applied;
    var id := prev.policies[k].WireId();
    WireShape3(c, s0, s, cur, prev, k, nonce, pkt);
    PrevRestores3(c, s0, s, cur, prev, k, nonce, pkt);
    TriedPrev(prev, k);
    if Lists(cur.policies, ACTION_L3, id) {
      var j :| 0 <= j < |cur.policies| && cur.policies[j].action == ACTION_L3 && cur.policies[j].WireId() == id;
      TriedIff(ACTION_L3, cur, id, s.nonceSize, j);
      if cur.ready[j] && pkt[ETH + Layer3.PROTO_OFF] != Marker(s) {
        CurrentDecides3(c, s0, s, cur, prev, k, nonce, pkt, j);
      }
    }
  }

  /** Nothing is lost when the policy has not changed: a current policy with the same context and mode restores what
      the previous one has encrypted. */
  lemma UnchangedRestores3(c: Cipher, s0: Settings, s: Settings, cur: PolicySet, prev: PolicySet, k: nat,
                           nonce: seq<uint8>, pkt: seq<uint8>, j: nat)
    requires SealedBefore3(c, s0, s, cur, prev, k, nonce, pkt)
    requires ListsReady(cur, ACTION_L3, prev.policies[k].WireId(), j) && cur.ctx[j] == prev.ctx[k]
    requires ModeOf(cur.policies[j].cryptoMode) == ModeOf(prev.policies[k].cryptoMode)
    ensures Auto(ACTION_L3, c, s, cur, Some(prev), Wire3(c, s0, prev, k, nonce, pkt))
         == Decrypted(j, Layer3.Restored(pkt))
  {
    hide Layer3.Encrypt, Layer3.Decrypt, Layer3.ToEncrypt, Layer3.PayloadOffset, Layer3.Plausible, CryptoPolicy.WireId,
         Layer3.Restored, Layer3.Left, PolicySet.IndexOk, DistinctWireIds, CommonNonce, ExtractId, Candidate,
         Layer4.Decrypt, Layer4.Left;
    var sx, own := Applied(prev.policies[k], s0), Applied(cur.policies[j], s);
    NonceOf(cur.policies, s.nonceSize, j);
    WireShape3(c, s0, s, cur, prev, k, nonce, pkt);
    assert Lists(cur.policies, ACTION_L3, prev.policies[k].WireId());
    TriedIff(ACTION_L3, cur, prev.policies[k].WireId(), s.nonceSize, j);
    Layer3.PacketRoundTrip(c, sx, prev.ctx[k], nonce, pkt);
    Layer3.Lengths(c, sx, prev.ctx[k], nonce, pkt);
    Layer3.SettingsUsed(c, sx, own, prev.ctx[k], Wire3(c, s0, prev, k, nonce, pkt));
  }

  // --- layer 4 -------------------------------------------------------------------------

  /** The situation at layer 4, where the receiving thread's settings do not matter. */
  ghost predicate SealedBefore4(c: Cipher, cur: PolicySet, prev: PolicySet, k: nat, nonce: seq<uint8>, pkt: seq<uint8>)
  {
    && c.Lawful() && Coherent(cur) && Coherent(prev) && cur.policies != []
    && k < |prev.policies| && prev.policies[k].action == ACTION_L4 && prev.ready[k]
    && CommonNonce(cur.policies, prev.policies[k].nonceSize)
    && |nonce| == prev.policies[k].nonceSize && nonce[0] < 0x80 && Layer4.Handled(pkt)
  }

  function Wire4(c: Cipher, s0: Settings, prev: PolicySet, k: nat, nonce: seq<uint8>, pkt: seq<uint8>): seq<uint8>
    requires prev.Valid() && k < |prev.policies| && |nonce| == prev.policies[k].nonceSize && Layer4.Handled(pkt)
  {
    var wire := Layer4.Encrypt(c, Applied(prev.policies[k], s0), prev.ctx[k], nonce, pkt);
    if wire.Some? then wire.value else []
  }

  lemma WireShape4(c: Cipher, s0: Settings, s: Settings, cur: PolicySet, prev: PolicySet, k: nat, nonce: seq<uint8>,
                   pkt: seq<uint8>)
    requires SealedBefore4(c, cur, prev, k, nonce, pkt)
    ensures var id := prev.policies[k].WireId();
            ExtractId(cur.policies, ACTION_L4, s, Wire4(c, s0, prev, k, nonce, pkt))
            == if Lists(cur.policies, ACTION_L4, id) then Some((id, prev.policies[k].nonceSize)) else None
  {
    hide Layer4.Encrypt, Layer4.ToEncrypt, Layer4.Locate, CryptoPolicy.WireId, ExtractId, PolicySet.IndexOk,
         DistinctWireIds, CommonNonce, Lists;
    var sx := Applied(prev.policies[k], s0);
    Layer4.EncryptedShape(c, sx, prev.ctx[k], nonce, pkt);
    ExtractsListed(ACTION_L4, cur.policies, s, Wire4(c, s0, prev, k, nonce, pkt),
                   Layer4.Locate(pkt).toff + Layer4.PORTS, prev.policies[k].nonceSize);
  }

  /** One attempt with a policy of the same nonce size: under the same context and mode it restores the packet, and in
      CTR mode it always takes it, whatever the key. */
  lemma Attempt4(c: Cipher, s0: Settings, s: Settings, cur: PolicySet, prev: PolicySet, k: nat, nonce: seq<uint8>,
                 pkt: seq<uint8>, ps: PolicySet, j: nat)
    requires SealedBefore4(c, cur, prev, k, nonce, pkt)
    requires ps.Valid() && j < |ps.policies| && ps.policies[j].nonceSize == prev.policies[k].nonceSize
    ensures var r := Try(ACTION_L4, c, s, ps, j, Wire4(c, s0, prev, k, nonce, pkt)).0;
            && (ModeOf(ps.policies[j].cryptoMode) == ModeOf(prev.policies[k].cryptoMode) && ps.ctx[j] == prev.ctx[k] ==>
                  r == Some(Layer4.Normalized(pkt)))
            && (ModeOf(ps.policies[j].cryptoMode) == Ctr ==> r.Some?)
  {
    hide Layer4.Encrypt, Layer4.Decrypt, Layer4.Left, Layer4.ToEncrypt, CryptoPolicy.WireId, Layer4.Normalized,
         PolicySet.IndexOk, DistinctWireIds, CommonNonce, Layer3.Decrypt, Layer3.Left, Open, Seal;
    var sx, rx := Applied(prev.policies[k], s0), Applied(ps.policies[j], s);
    var plain := pkt[Layer4.ToEncrypt(pkt).toff + Layer4.PORTS..];
    Layer4.DecryptOfEncrypt(c, sx, prev.ctx[k], rx, ps.ctx[j], nonce, pkt);
    if sx.mode == rx.mode && ps.ctx[j] == prev.ctx[k] {
      OpenSeal(c, rx, ps.ctx[j], nonce, plain, AcceptAll);
    }
    OpensCtr(c, rx, ps.ctx[j], nonce, Seal(c, sx.mode, prev.ctx[k].Current(), nonce, plain));
  }

  lemma OpensCtr(c: Cipher, s: Settings, ctx: CryptoCtx, nonce: seq<uint8>, data: seq<uint8>)
    requires ctx.Valid() && |nonce| <= IV_SIZE
    ensures s.mode == Ctr ==> Open(c, s, ctx, nonce, data, AcceptAll).Some?
  {}

  /** A policy of the current set that is ready comes first: it restores the packet when it has not changed, and in CTR
      mode it takes it in any case. */
  lemma CurrentFirst4(c: Cipher, s0: Settings, s: Settings, cur: PolicySet, prev: PolicySet, k: nat, nonce: seq<uint8>,
                      pkt: seq<uint8>, j: nat)
    requires SealedBefore4(c, cur, prev, k, nonce, pkt) && ListsReady(cur, ACTION_L4, prev.policies[k].WireId(), j)
    ensures var v := Auto(ACTION_L4, c, s, cur, Some(prev), Wire4(c, s0, prev, k, nonce, pkt));
            var same := ModeOf(cur.policies[j].cryptoMode) == ModeOf(prev.policies[k].cryptoMode)
                        && cur.ctx[j] == prev.ctx[k];
            && (same ==> v == Decrypted(j, Layer4.Normalized(pkt)))
            && (ModeOf(cur.policies[j].cryptoMode) == Ctr ==> v.Decrypted? && v.index == j)
  {
    hide Try, Layer4.Normalized, Layer4.ToEncrypt, Layer4.Handled, CryptoPolicy.WireId, ExtractId, Candidate,
         CommonNonce, Wire4, PolicySet.IndexOk, DistinctWireIds, Applied;
    NonceOf(cur.policies, prev.policies[k].nonceSize, j);
    WireShape4(c, s0, s, cur, prev, k, nonce, pkt);
    assert Lists(cur.policies, ACTION_L4, prev.policies[k].WireId());
    TriedIff(ACTION_L4, cur, prev.policies[k].WireId(), prev.policies[k].nonceSize, j);
    Attempt4(c, s0, s, cur, prev, k, nonce, pkt, cur, j);
  }

  /** The current policies with this id use CTR mode. */
  predicate NamedInCtr(policies: seq<CryptoPolicy>, action: int, id: uint8)
  {
    forall j | 0 <= j < |policies| && policies[j].action == action && policies[j].WireId() == id ::
      ModeOf(policies[j].cryptoMode) == Ctr
  }

  /** When the previous set restores a packet it has encrypted at layer 4: if the current configuration lists the wire
      id without a context for it.  In CTR mode that is also necessary, because a ready policy takes every packet; in
      GCM mode the cipher decides what a failed attempt leaves for the next one. */
  lemma RestoredByPrevIff4(c: Cipher, s0: Settings, s: Settings, cur: PolicySet, prev: PolicySet, k: nat,
                           nonce: seq<uint8>, pkt: seq<uint8>)
    requires SealedBefore4(c, cur, prev, k, nonce, pkt)
    ensures var v := Auto(ACTION_L4, c, s, cur, Some(prev), Wire4(c, s0, prev, k, nonce, pkt));
            var id := prev.policies[k].WireId();
            && (ListsUnready(cur, ACTION_L4, id) ==> v == DecryptedByPrev(k, Layer4.Normalized(pkt)))
            && (!Lists(cur.policies, ACTION_L4, id) ==> v == Passed)
            && (NamedInCtr(cur.policies, ACTION_L4, id) ==>
                  (v == DecryptedByPrev(k, Layer4.Normalized(pkt)) <==> ListsUnready(cur, ACTION_L4, id)))
  {
    hide Try, Layer4.Normalized, Layer4.ToEncrypt, Layer4.Handled, CryptoPolicy.WireId, ExtractId, Candidate,
         CommonNonce, Wire4, PolicySet.IndexOk, DistinctWireIds, Applied;
    var id := prev.policies[k].WireId();
    WireShape4(c, s0, s, cur, prev, k, nonce, pkt);
    Attempt4(c, s0, s, cur, prev, k, nonce, pkt, prev, k);
    TriedPrev(prev, k);
    if Lists(cur.policies, ACTION_L4, id) {
      var j :| 0 <= j < |cur.policies| && cur.policies[j].action == ACTION_L4 && cur.policies[j].WireId() == id;
      TriedIff(ACTION_L4, cur, id, prev.policies[k].nonceSize, j);
      if cur.ready[j] {
        CurrentFirst4(c, s0, s, cur, prev, k, nonce, pkt, j);
      }
    }
  }
}
