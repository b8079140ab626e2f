/** Finding the policy of an incoming packet from the id byte on the wire, and decrypting with it. */
module Dispatch {
  import opened Bytes
  import opened Ipv4
  import opened Config
  import opened PacketCrypto
  import opened Tunnel
  import Layer2
  import Layer3
  import Layer4

  const DEFAULT_FAKE_PROTO: uint8 := 99
  const CRYPTO_MODE_GCM := 1

  /** A policy list with its key contexts and the index table over (action, wire id).  -1 means no entry. */
  datatype PolicySet = PolicySet(policies: seq<CryptoPolicy>, ctx: seq<CryptoCtx>, ready: seq<bool>,
                                 index: seq<seq<int>>)
  {
    predicate Valid()
    {
      && |policies| == |ctx| == |ready| <= MAX_CRYPTO_POLICIES
      && |index| == ACTION_L4 + 1 && (forall a | 0 <= a < |index| :: |index[a]| == 0x100)
      && (forall i | 0 <= i < |ctx| :: ctx[i].Valid())
      && (forall i | 0 <= i < |policies| :: 1 <= policies[i].nonceSize <= 16)
    }

    /** Every entry of the index names a policy of the list with that action and wire id. */
    predicate IndexOk()
      requires Valid()
    {
      forall a, id | 0 <= a <= ACTION_L4 && 0 <= id < 0x100 && 0 <= index[a][id] < |policies| ::
        policies[index[a][id]].action == a && policies[index[a][id]].WireId() == id
    }

    /** And every ready policy is entered under its own id. */
    predicate IndexComplete()
      requires Valid()
    {
      forall k | 0 <= k < |policies| && ready[k] && 0 <= policies[k].action <= ACTION_L4 ::
        index[policies[k].action][policies[k].WireId()] == k
    }
  }

  /** The first policy from k on with this action and wire id. */
  function FirstWith(policies: seq<CryptoPolicy>, action: int, id: uint8, k: nat): (r: Option<nat>)
    requires k <= |policies|
    ensures r.Some? ==> k <= r.value < |policies|
                        && policies[r.value].action == action && policies[r.value].WireId() == id
                        && forall j | k <= j < r.value :: !(policies[j].action == action && policies[j].WireId() == id)
    ensures r.None? ==> forall j | k <= j < |policies| :: !(policies[j].action == action && policies[j].WireId() == id)
    decreases |policies| - k
  {
    if k == |policies| then None
    else if policies[k].action == action && policies[k].WireId() == id then Some(k)
    else FirstWith(policies, action, id, k + 1)
  }

  /** The index entry when it is in range, otherwise the first match of a scan. */
  function LookupIndex(ps: PolicySet, action: int, id: uint8): (r: Option<nat>)
    requires ps.Valid() && 0 <= action <= ACTION_L4
    ensures r.Some? ==> r.value < |ps.policies|
  {
    var pi := ps.index[action][id];
    if 0 <= pi < |ps.policies| then Some(pi) else FirstWith(ps.policies, action, id, 0)
  }

  method LookupPolicyIndex(ps: PolicySet, action: int, id: uint8) returns (r: Option<nat>)
    requires ps.Valid() && 0 <= action <= ACTION_L4
    ensures r == LookupIndex(ps, action, id)
  {
    var pi := ps.index[action][id];
    if 0 <= pi < |ps.policies| {
      return Some(pi);
    }
    for k := 0 to |ps.policies|
      invariant FirstWith(ps.policies, action, id, k) == FirstWith(ps.policies, action, id, 0)
    {
      if ps.policies[k].action == action && ps.policies[k].WireId() == id {
        return Some(k);
      }
    }
    r := None;
  }

  function ModeOf(mode: int): Mode { if mode == CRYPTO_MODE_GCM then Gcm else Ctr }

  /** The settings of a thread after a policy has been applied to it. */
  function Applied(cp: CryptoPolicy, s: Settings): (r: Settings)
    requires 1 <= cp.nonceSize <= 16
    ensures r.Valid()
  {
    Settings(ModeOf(cp.cryptoMode), cp.nonceSize, cp.WireId(),
             if cp.action == ACTION_L3 then Marker(s) else s.fakeProtocol, s.fakeEthertype)
  }

  /** The protocol byte of layer-3 tunnel packets. */
  function Marker(s: Settings): uint8 { if s.fakeProtocol == 0 then DEFAULT_FAKE_PROTO else s.fakeProtocol }

  // --- extracting the policy id ------------------------------------------------------

  /** The policy whose id byte stands where its nonce size says it would. */
  predicate IdMatches(cp: CryptoPolicy, action: int, pkt: seq<uint8>, tun: nat)
  {
    && cp.action == action && cp.nonceSize > 0 && tun + cp.nonceSize + 1 < |pkt|
    && pkt[tun + cp.nonceSize] == cp.WireId()
    && (action == ACTION_L4 ==> pkt[tun + cp.nonceSize + 1] in {Layer4.TUNNEL_MAGIC, Layer4.FRAG_MAGIC})
  }

  function FirstMatch(policies: seq<CryptoPolicy>, action: int, pkt: seq<uint8>, tun: nat, k: nat): (r: Option<nat>)
    requires k <= |policies|
    ensures r.Some? ==> k <= r.value < |policies| && IdMatches(policies[r.value], action, pkt, tun)
    ensures r.None? ==> forall j | k <= j < |policies| :: !IdMatches(policies[j], action, pkt, tun)
    decreases |policies| - k
  {
    if k == |policies| then None
    else if IdMatches(policies[k], action, pkt, tun) then Some(k)
    else FirstMatch(policies, action, pkt, tun, k + 1)
  }

  /** The tests in front of the scan: where the tunnel header of the packet would start. */
  function L3TunnelAt(s: Settings, pkt: seq<uint8>): (r: Option<nat>)
    ensures r.Some? ==> r.value + s.TunnelHdrSize() <= |pkt|
  {
    var tun := Layer3.PayloadOffset(pkt);
    if tun.None? || |pkt| < tun.value + 1 || pkt[ETH + 9] != Marker(s) then None
    else if |pkt| < tun.value + s.TunnelHdrSize() then None
    else tun
  }

  function L4TunnelAt(pkt: seq<uint8>): (r: Option<nat>)
    ensures r.Some? ==> r.value < |pkt|
  {
    var at := Layer4.Locate(pkt);
    if !at.Transport? || |pkt| < at.toff + 8 then None else Some(at.toff + Layer4.PORTS)
  }

  function TunnelAt(action: int, s: Settings, pkt: seq<uint8>): Option<nat>
  {
    if action == ACTION_L3 then L3TunnelAt(s, pkt) else L4TunnelAt(pkt)
  }

  /** The id byte found on the wire and the nonce size of the policy that located it. */
  function ExtractId(policies: seq<CryptoPolicy>, action: int, s: Settings, pkt: seq<uint8>): Option<(uint8, int)>
  {
    var tun := TunnelAt(action, s, pkt);
    if tun.None? then None
    else
      var k := FirstMatch(policies, action, pkt, tun.value, 0);
      if k.None? then None else Some((policies[k.value].WireId(), policies[k.value].nonceSize))
  }

  method ExtractPolicyId(policies: seq<CryptoPolicy>, action: int, s: Settings, pkt: seq<uint8>)
    returns (r: Option<(uint8, int)>)
    ensures r == ExtractId(policies, action, s, pkt)
  {
    var tun := TunnelAt(action, s, pkt);
    if tun.None? {
      return None;
    }
    for k := 0 to |policies|
      invariant FirstMatch(policies, action, pkt, tun.value, k) == FirstMatch(policies, action, pkt, tun.value, 0)
    {
      if IdMatches(policies[k], action, pkt, tun.value) {
        return Some((policies[k].WireId(), policies[k].nonceSize));
      }
    }
    r := None;
  }

  // --- the automatic decryption ------------------------------------------------------

  /** Index is the policy that decrypted the packet, in the current or in the previous policy set. */
  datatype Verdict =
    | Passed
    | Decrypted(index: nat, packet: seq<uint8>)
    | DecryptedByPrev(index: nat, packet: seq<uint8>)
    | ByDefault(packet: seq<uint8>)
    | Rejected

  function LayerDecrypt(action: int, c: Cipher, s: Settings, ctx: CryptoCtx, pkt: seq<uint8>): Option<seq<uint8>>
    requires s.Valid() && ctx.Valid()
  {
    if action == ACTION_L3 then Layer3.Decrypt(c, s, ctx, pkt) else Layer4.Decrypt(c, s, ctx, pkt)
  }

  /** The packet as a failed decryption leaves it. */
  function LayerLeft(action: int, c: Cipher, s: Settings, ctx: CryptoCtx, pkt: seq<uint8>): seq<uint8>
    requires s.Valid() && ctx.Valid()
  {
    if action == ACTION_L3 then Layer3.Left(c, s, ctx, pkt) else Layer4.Left(c, s, ctx, pkt)
  }

  /** The policy of the set that is tried for a wire id: it must be ready, and at layer 4 its nonce size must be the
      one under which the id was found. */
  function Candidate(action: int, ps: PolicySet, id: uint8, ns: int): (r: Option<nat>)
    requires ps.Valid() && action in {ACTION_L3, ACTION_L4}
    ensures r.Some? ==> r.value < |ps.policies|
  {
    var pi := LookupIndex(ps, action, id);
    if pi.None? || !ps.ready[pi.value] then None
    else if action == ACTION_L4 && ps.policies[pi.value].nonceSize != ns then None
    else pi
  }

  /** One attempt: the decrypted packet, if decryption made it shorter, and otherwise what is left. */
  function Try(action: int, c: Cipher, s: Settings, ps: PolicySet, pi: nat, pkt: seq<uint8>)
    : (Option<seq<uint8>>, seq<uint8>)
    requires ps.Valid() && pi < |ps.policies|
  {
    var own, ctx := Applied(ps.policies[pi], s), ps.ctx[pi];
    var r := LayerDecrypt(action, c, own, ctx, pkt);
    if r.None? then (None, LayerLeft(action, c, own, ctx, pkt))
    else if |r.value| < |pkt| then (r, r.value)
    else (None, r.value)
  }

  /** The settings with which an attempt starts: those of the policy tried before it, if there was one. */
  function SettingsAfter(ps: PolicySet, k: Option<nat>, s: Settings): (r: Settings)
    requires ps.Valid() && (k.Some? ==> k.value < |ps.policies|)
  {
    if k.Some? then Applied(ps.policies[k.value], s) else s
  }

  /** What becomes of the packet, and the settings the thread is left with.  prev is the previous policy set while its
      grace period lasts. */
  function AutoRun(action: int, c: Cipher, s: Settings, cur: PolicySet, prev: Option<PolicySet>, pkt: seq<uint8>)
    : (Verdict, Settings)
    requires cur.Valid() && (prev.Some? ==> prev.value.Valid()) && action in {ACTION_L3, ACTION_L4}
    requires cur.policies != []
  {
    var id := ExtractId(cur.policies, action, s, pkt);
    if id.None? then (Passed, s)
    else
      var k := Candidate(action, cur, id.value.0, id.value.1);
      var (r, left) := if k.Some? then Try(action, c, s, cur, k.value, pkt) else (None, pkt);
      var s1 := SettingsAfter(cur, k, s);
      if r.Some? then (Decrypted(k.value, r.value), s1)
      else
        var pk := if prev.Some? then Candidate(action, prev.value, id.value.0, id.value.1) else None;
        if pk.None? then (Rejected, s1)
        else
          var pr := Try(action, c, s1, prev.value, pk.value, left).0;
          (if pr.Some? then DecryptedByPrev(pk.value, pr.value) else Rejected, SettingsAfter(prev.value, pk, s1))
  }

  function Auto(action: int, c: Cipher, s: Settings, cur: PolicySet, prev: Option<PolicySet>, pkt: seq<uint8>): Verdict
    requires cur.Valid() && (prev.Some? ==> prev.value.Valid()) && action in {ACTION_L3, ACTION_L4}
    requires cur.policies != []
  {
    AutoRun(action, c, s, cur, prev, pkt).0
  }

  /** What is used while the configuration has no policies: one context and the global settings. */
  datatype Base = Base(layer: int, mode: int, nonceSize: nat, fakeProtocol: uint8, ctx: CryptoCtx)
  {
    predicate Valid() { ctx.Valid() && 1 <= nonceSize <= 16 }

    function Applied(s: Settings): (r: Settings)
      requires Valid()
      ensures r.Valid()
    {
      Settings(ModeOf(mode), nonceSize, 0, if layer == 3 then fakeProtocol else s.fakeProtocol, s.fakeEthertype)
    }
  }

  /** Decryption at the configured layer; there is none but these three. */
  function BaseDecrypt(c: Cipher, s: Settings, base: Base, pkt: seq<uint8>): Option<seq<uint8>>
    requires base.Valid()
  {
    match base.layer
    case 2 => Layer2.Decrypt(c, base.Applied(s), base.ctx, pkt)
    case 3 => Layer3.Decrypt(c, base.Applied(s), base.ctx, pkt)
    case 4 => Layer4.Decrypt(c, base.Applied(s), base.ctx, pkt)
    case _ => None
  }

  /** The whole dispatch. */
  function Dispatched(action: int, c: Cipher, s: Settings, cur: PolicySet, prev: Option<PolicySet>, base: Base,
                      pkt: seq<uint8>): (Verdict, Settings)
    requires cur.Valid() && (prev.Some? ==> prev.value.Valid()) && base.Valid() && action in {ACTION_L3, ACTION_L4}
  {
    if cur.policies == [] then
      var r := BaseDecrypt(c, s, base, pkt);
      (if r.None? then Rejected else ByDefault(r.value), base.Applied(s))
    else AutoRun(action, c, s, cur, prev, pkt)
  }

  /** Decryption never makes a packet longer. */
  lemma NoGrowth(action: int, c: Cipher, s: Settings, ctx: CryptoCtx, pkt: seq<uint8>)
    requires c.Lawful() && s.Valid() && ctx.Valid() && LayerDecrypt(action, c, s, ctx, pkt).Some?
    ensures |LayerDecrypt(action, c, s, ctx, pkt).value| <= |pkt|
  {
    if action == ACTION_L3 {
      Layer3.NoGrowth(c, s, ctx, pkt);
    } else {
      Layer4.NoGrowth(c, s, ctx, pkt);
    }
  }

  method TryInPlace(action: int, c: Cipher, s: Settings, ps: PolicySet, pi: nat, buf: array<uint8>, len: nat)
    returns (ok: bool, newLen: int, own: Settings)
    requires c.Lawful() && ps.Valid() && pi < |ps.policies| && action in {ACTION_L3, ACTION_L4}
    requires len <= buf.Length && len <= 0xFFFF
    modifies buf
    ensures var (r, left) := Try(action, c, s, ps, pi, old(buf[..])[..len]);
            && ok == r.Some? && own == Applied(ps.policies[pi], s)
            && (ok ==> newLen == |r.value| <= buf.Length && buf[..newLen] == r.value)
            && (!ok ==> buf[..len] == left)
  {
    hide Layer3.Decrypt, Layer4.Decrypt, Layer3.Left, Layer4.Left, Applied, PolicySet.IndexOk;
    own := Applied(ps.policies[pi], s);
    var ctx := ps.ctx[pi];
    ghost var pkt := buf[..][..len];
    if action == ACTION_L3 {
      newLen := Layer3.DecryptInPlace(c, own, ctx, buf, len);
    } else {
      newLen := Layer4.DecryptInPlace(c, own, ctx, buf, len);
    }
    ok := 0 <= newLen < len;
    if !ok && newLen >= 0 {
      NoGrowth(action, c, own, ctx, pkt);
    }
  }

  method BaseDecryptInPlace(c: Cipher, s: Settings, base: Base, buf: array<uint8>, len: nat) returns (newLen: int)
    requires c.Lawful() && base.Valid() && len <= buf.Length && len <= 0xFFFF
    modifies buf
    ensures var r := BaseDecrypt(c, s, base, old(buf[..])[..len]);
            if r.None? then newLen == -1 else newLen == |r.value| <= buf.Length && buf[..newLen] == r.value
  {
    hide Layer2.Decrypt, Layer3.Decrypt, Layer4.Decrypt, Layer3.Left, Layer4.Left;
    match base.layer
    case 2 => newLen := Layer2.DecryptInPlace(c, base.Applied(s), base.ctx, buf, len);
    case 3 => newLen := Layer3.DecryptInPlace(c, base.Applied(s), base.ctx, buf, len);
    case 4 => newLen := Layer4.DecryptInPlace(c, base.Applied(s), base.ctx, buf, len);
    case _ => newLen := -1;
  }

  /** Decrypts buf[..len] in place with whichever policy its id byte names; rc is 0 or -1, and own are the settings the
      thread has afterwards. */
  method AutoDecrypt(action: int, c: Cipher, s: Settings, cur: PolicySet, prev: Option<PolicySet>, base: Base,
                     buf: array<uint8>, len: nat) returns (rc: int, newLen: int, own: Settings)
    requires c.Lawful() && cur.Valid() && (prev.Some? ==> prev.value.Valid()) && base.Valid()
    requires action in {ACTION_L3, ACTION_L4} && len <= buf.Length && len <= 0xFFFF
    modifies buf
    ensures own == Dispatched(action, c, s, cur, prev, base, old(buf[..])[..len]).1
    ensures match Dispatched(action, c, s, cur, prev, base, old(buf[..])[..len]).0
            case Passed => rc == 0 && newLen == len && buf[..] == old(buf[..])
            case Rejected => rc == -1
            case Decrypted(_, packet) => rc == 0 && newLen == |packet| <= buf.Length && buf[..newLen] == packet
            case DecryptedByPrev(_, packet) => rc == 0 && newLen == |packet| <= buf.Length && buf[..newLen] == packet
            case ByDefault(packet) => rc == 0 && newLen == |packet| <= buf.Length && buf[..newLen] == packet
  {
    hide ExtractId, Candidate, Try, PolicySet.IndexOk, BaseDecrypt, Applied;
    rc, newLen, own := 0, len, s;
    ghost var pkt := buf[..][..len];
    if cur.policies == [] {
      own := base.Applied(s);
      newLen := BaseDecryptInPlace(c, s, base, buf, len);
      rc := if newLen < 0 then -1 else 0;
      return;
    }
    var id := ExtractPolicyId(cur.policies, action, s, buf[..][..len]);
    if id.None? {
      return;
    }
    var k := Candidate(action, cur, id.value.0, id.value.1);
    ghost var left := pkt;
    if k.Some? {
      var ok;
      ok, newLen, own := TryInPlace(action, c, s, cur, k.value, buf, len);
      if ok {
        return;
      }
      left := Try(action, c, s, cur, k.value, pkt).1;
    }
    rc := -1;
    if prev.Some? {
      var pk := Candidate(action, prev.value, id.value.0, id.value.1);
      if pk.Some? {
        assert left == buf[..][..len];
        var ok;
        ok, newLen, own := TryInPlace(action, c, own, prev.value, pk.value, buf, len);
        rc := if ok then 0 else -1;
      }
    }
  }

  // --- the right policy, and the packet back -----------------------------------------

  predicate CommonNonce(policies: seq<CryptoPolicy>, n: int)
  {
    forall i | 0 <= i < |policies| :: policies[i].nonceSize == n
  }

  /** A configuration in which every wire id names one policy and all policies use the same nonce size. */
  predicate Coherent(ps: PolicySet)
  {
    ps.Valid() && ps.IndexOk() && DistinctWireIds(ps.policies)
  }

  lemma WireIdsDiffer(policies: seq<CryptoPolicy>, i: nat, j: nat)
    requires DistinctWireIds(policies) && i < |policies| && j < |policies|
    requires policies[i].WireId() == policies[j].WireId()
    ensures i == j
  {}

  lemma CandidateAction(action: int, ps: PolicySet, id: uint8, ns: int)
    requires ps.Valid() && ps.IndexOk() && action in {ACTION_L3, ACTION_L4}
    ensures var k := Candidate(action, ps, id, ns);
            k.Some? ==> ps.ready[k.value]
                        && ps.policies[k.value].action == action && ps.policies[k.value].WireId() == id
  {}

  /** The id of a policy leads to that policy and no other. */
  lemma LooksUp(action: int, ps: PolicySet, k: nat)
    requires Coherent(ps) && action in {ACTION_L3, ACTION_L4}
    requires k < |ps.policies| && ps.policies[k].action == action
    ensures LookupIndex(ps, action, ps.policies[k].WireId()) == Some(k)
  {
    hide DistinctWireIds, CryptoPolicy.WireId;
    var id := ps.policies[k].WireId();
    var pi := ps.index[action][id];
    if 0 <= pi < |ps.policies| {
      WireIdsDiffer(ps.policies, pi, k);
    } else {
      var r := FirstWith(ps.policies, action, id, 0);
      assert r.Some?;
      WireIdsDiffer(ps.policies, r.value, k);
    }
  }

  /** It is tried if it is ready, and nothing else is. */
  lemma Resolves(action: int, ps: PolicySet, k: nat)
    requires Coherent(ps) && action in {ACTION_L3, ACTION_L4}
    requires k < |ps.policies| && ps.policies[k].action == action
    ensures Candidate(action, ps, ps.policies[k].WireId(), ps.policies[k].nonceSize)
         == if ps.ready[k] then Some(k) else None
  {
    hide Coherent, LookupIndex, CryptoPolicy.WireId;
    LooksUp(action, ps, k);
  }

  /** With one nonce size, the scan of the packet finds the id that was written. */
  lemma Extracts(action: int, policies: seq<CryptoPolicy>, s: Settings, wire: seq<uint8>, tun: nat, k: nat)
    requires DistinctWireIds(policies) && k < |policies| && CommonNonce(policies, policies[k].nonceSize)
    requires TunnelAt(action, s, wire) == Some(tun) && IdMatches(policies[k], action, wire, tun)
    ensures ExtractId(policies, action, s, wire) == Some((policies[k].WireId(), policies[k].nonceSize))
  {
    hide DistinctWireIds, TunnelAt, CryptoPolicy.WireId;
    var r := FirstMatch(policies, action, wire, tun, 0);
    assert r.Some?;
    WireIdsDiffer(policies, r.value, k);
  }

  /** Layer 4 end to end: a packet encrypted under a ready policy is resolved to exactly that policy and comes back
      with length and header checksum recomputed, whatever else the thread's settings are. */
  lemma L4RoundTrip(c: Cipher, s0: Settings, s: Settings, ps: PolicySet, prev: Option<PolicySet>, k: nat,
                    nonce: seq<uint8>, pkt: seq<uint8>)
    requires c.Lawful() && Coherent(ps) && (prev.Some? ==> prev.value.Valid())
    requires k < |ps.policies| && ps.policies[k].action == ACTION_L4 && ps.ready[k]
    requires CommonNonce(ps.policies, ps.policies[k].nonceSize)
    requires |nonce| == ps.policies[k].nonceSize && nonce[0] < 0x80 && Layer4.Handled(pkt)
    ensures var wire := Layer4.Encrypt(c, Applied(ps.policies[k], s0), ps.ctx[k], nonce, pkt);
            wire.Some? && Auto(ACTION_L4, c, s, ps, prev, wire.value) == Decrypted(k, Layer4.Normalized(pkt))
  {
    hide Layer4.Encrypt, Layer4.Decrypt, Layer4.Normalized, Layer4.Handled, Layer4.Locate, Candidate, ExtractId,
         Layer4.Left, Layer3.Left, CommonNonce;
    var cp, ctx := ps.policies[k], ps.ctx[k];
    var sx, rx := Applied(cp, s0), Applied(cp, s);
    Layer4.EncryptedShape(c, sx, ctx, nonce, pkt);
    Layer4.PacketRoundTrip(c, sx, ctx, nonce, pkt);
    var wire := Layer4.Encrypt(c, sx, ctx, nonce, pkt).value;
    Layer4.SettingsUsed(c, sx, rx, ctx, wire);
    Extracts(ACTION_L4, ps.policies, s, wire, Layer4.Locate(pkt).toff + Layer4.PORTS, k);
    Resolves(ACTION_L4, ps, k);
    Layer4.NormalizedLength(pkt);
  }

  /** Layer 3 end to end, for the packets layer 3 restores: sender and receiver agree on the fake protocol, and the
      receiving thread's nonce size is the common one. */
  lemma L3RoundTrip(c: Cipher, s0: Settings, s: Settings, ps: PolicySet, prev: Option<PolicySet>, k: nat,
                    nonce: seq<uint8>, pkt: seq<uint8>)
    requires c.Lawful() && Coherent(ps) && (prev.Some? ==> prev.value.Valid())
    requires k < |ps.policies| && ps.policies[k].action == ACTION_L3 && ps.ready[k]
    requires CommonNonce(ps.policies, ps.policies[k].nonceSize) && s.nonceSize == ps.policies[k].nonceSize
    requires Marker(s0) == Marker(s) && |nonce| == ps.policies[k].nonceSize
    requires Layer3.ToEncrypt(Applied(ps.policies[k], s0), pkt).Payload?
    requires pkt[ETH + Layer3.PROTO_OFF] != Layer3.FRAG_MAGIC
    requires ModeOf(ps.policies[k].cryptoMode) == Ctr ==>
               Layer3.Plausible(pkt[ETH + Layer3.PROTO_OFF], pkt[Layer3.PayloadOffset(pkt).value..])
    ensures var wire := Layer3.Encrypt(c, Applied(ps.policies[k], s0), ps.ctx[k], nonce, pkt);
            wire.Some? && Auto(ACTION_L3, c, s, ps, prev, wire.value) == Decrypted(k, Layer3.Restored(pkt))
  {
    hide Layer3.Encrypt, Layer3.Decrypt, Layer3.Restored, Layer3.ToEncrypt, Layer3.PayloadOffset, Layer3.Plausible,
         Candidate, ExtractId, Layer4.Left, Layer3.Left, CommonNonce;
    var cp, ctx := ps.policies[k], ps.ctx[k];
    var sx, rx := Applied(cp, s0), Applied(cp, s);
    var tun := Layer3.PayloadOffset(pkt).value;
    Layer3.EncryptedShape(c, sx, ctx, nonce, pkt, tun);
    Layer3.PacketRoundTrip(c, sx, ctx, nonce, pkt);
    Layer3.Lengths(c, sx, ctx, nonce, pkt);
    var wire := Layer3.Encrypt(c, sx, ctx, nonce, pkt).value;
    Layer3.SettingsUsed(c, sx, rx, ctx, wire);
    Extracts(ACTION_L3, ps.policies, s, wire, tun, k);
    Resolves(ACTION_L3, ps, k);
  }

  /** Whatever arrives: the current set only ever decrypts with a ready policy of the right layer whose wire id is
      the one found on the wire. */
  lemma OnlyTheNamedPolicy(action: int, c: Cipher, s: Settings, ps: PolicySet, prev: Option<PolicySet>, pkt: seq<uint8>)
    requires ps.Valid() && ps.IndexOk() && (prev.Some? ==> prev.value.Valid()) && action in {ACTION_L3, ACTION_L4}
    requires ps.policies != []
    ensures var v := Auto(action, c, s, ps, prev, pkt);
            var id := ExtractId(ps.policies, action, s, pkt);
            v.Decrypted? ==> id.Some? && v.index < |ps.policies| && ps.ready[v.index]
                             && ps.policies[v.index].action == action && ps.policies[v.index].WireId() == id.value.0
                             && |v.packet| < |pkt|
  {
    hide ExtractId, LayerDecrypt, LayerLeft, Candidate, Applied;
    var id := ExtractId(ps.policies, action, s, pkt);
    if id.Some? {
      CandidateAction(action, ps, id.value.0, id.value.1);
    }
  }
}
