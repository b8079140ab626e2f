/** Which policy of a profile a packet gets. */
module PolicySelect {
  import opened Bytes
  import opened Config

  datatype PacketKey = PacketKey(srcIp: bv32, dstIp: bv32, srcPort: uint16, dstPort: uint16, proto: uint8)
  {
    /** A packet of the same flow in the other direction. */
    function Swapped(): PacketKey { PacketKey(dstIp, srcIp, dstPort, srcPort, proto) }
  }

  predicate CidrMatch(anyFlag: bool, negate: bool, ip: bv32, net: bv32, mask: bv32)
  {
    anyFlag || (if negate then ip & mask != net & mask else ip & mask == net & mask)
  }

  /** A negative end switches the port test off. */
  predicate PortMatch(from: int, to: int, port: uint16)
  {
    from >= 0 && to >= 0 ==> from <= port <= to
  }

  predicate MatchPacket(cp: CryptoPolicy, p: PacketKey)
  {
    && CidrMatch(cp.srcAny, cp.srcNegate, p.srcIp, cp.srcNet, cp.srcMask)
    && CidrMatch(cp.dstAny, cp.dstNegate, p.dstIp, cp.dstNet, cp.dstMask)
    && PortMatch(cp.srcPortFrom, cp.srcPortTo, p.srcPort)
    && PortMatch(cp.dstPortFrom, cp.dstPortTo, p.dstPort)
    && (cp.protocol == PROTO_ANY || cp.protocol == p.proto)
  }

  /** A policy matches a flow in either direction. */
  predicate MatchEither(cp: CryptoPolicy, p: PacketKey)
  {
    MatchPacket(cp, p) || MatchPacket(cp, p.Swapped())
  }

  /** The entry is a policy of the wanted kind that matches; entries out of range are skipped. */
  predicate Fits(policies: seq<CryptoPolicy>, pi: int, p: PacketKey, specific: bool)
  {
    && 0 <= pi < |policies| && (specific <==> policies[pi].protocol != PROTO_ANY) && MatchEither(policies[pi], p)
  }

  /** One pass over the profile's entries from position k on. */
  function FirstFit(policies: seq<CryptoPolicy>, indices: seq<int>, p: PacketKey, specific: bool, k: nat)
    : (r: Option<nat>)
    requires k <= |indices|
    ensures r.Some? ==> r.value < |policies|
    decreases |indices| - k
  {
    if k == |indices| then None
    else if Fits(policies, indices[k], p, specific) then Some(indices[k])
    else FirstFit(policies, indices, p, specific, k + 1)
  }

  /** The index of the selected policy: protocol-specific entries are tried first. */
  function Select(policies: seq<CryptoPolicy>, indices: seq<int>, p: PacketKey): (r: Option<nat>)
    ensures r.Some? ==> r.value < |policies|
  {
    var specific := FirstFit(policies, indices, p, true, 0);
    if specific.Some? then specific else FirstFit(policies, indices, p, false, 0)
  }

  /** The two passes as they run. */
  method SelectPolicy(policies: seq<CryptoPolicy>, indices: seq<int>, p: PacketKey) returns (r: Option<nat>)
    ensures r == Select(policies, indices, p)
  {
    hide MatchPacket;
    for pass := 0 to 2
      invariant pass >= 1 ==> FirstFit(policies, indices, p, true, 0) == None
      invariant pass == 2 ==> FirstFit(policies, indices, p, false, 0) == None
    {
      for i := 0 to |indices|
        invariant FirstFit(policies, indices, p, pass == 0, i) == FirstFit(policies, indices, p, pass == 0, 0)
      {
        var pi := indices[i];
        if 0 <= pi < |policies| {
          var cp := policies[pi];
          if (pass == 0) == (cp.protocol != PROTO_ANY) {
            var matched := MatchPacket(cp, p);
            if !matched {
              matched := MatchPacket(cp, p.Swapped());
            }
            if matched {
              return Some(pi);
            }
          }
        }
      }
    }
    r := None;
  }

  // --- what selection means ----------------------------------------------------------------

  lemma {:induction false} FirstFitIff(policies: seq<CryptoPolicy>, indices: seq<int>, p: PacketKey, specific: bool,
                                       k: nat, pi: nat)
    requires k <= |indices|
    ensures FirstFit(policies, indices, p, specific, k) == Some(pi) <==>
              exists i | k <= i < |indices| :: indices[i] == pi && Fits(policies, pi, p, specific)
                                               && forall j | k <= j < i :: !Fits(policies, indices[j], p, specific)
    ensures FirstFit(policies, indices, p, specific, k) == None <==>
              forall i | k <= i < |indices| :: !Fits(policies, indices[i], p, specific)
    decreases |indices| - k
  {
    hide Fits;
    if k < |indices| {
      FirstFitIff(policies, indices, p, specific, k + 1, pi);
      if Fits(policies, indices[k], p, specific) {
        if indices[k] == pi {
          assert indices[k] == pi && Fits(policies, pi, p, specific);
        }
      }
    }
  }

  /** The selected policy is the first protocol-specific entry that matches the flow in either direction, or else the
      first any-protocol entry that does. */
  lemma SelectIff(policies: seq<CryptoPolicy>, indices: seq<int>, p: PacketKey, pi: nat)
    ensures Select(policies, indices, p) == Some(pi) <==>
              exists i, specific: bool | 0 <= i < |indices| ::
                && indices[i] == pi && Fits(policies, pi, p, specific)
                && (forall j | 0 <= j < i :: !Fits(policies, indices[j], p, specific))
                && (specific || forall j | 0 <= j < |indices| :: !Fits(policies, indices[j], p, true))
  {
    hide Fits;
    FirstFitIff(policies, indices, p, true, 0, pi);
    FirstFitIff(policies, indices, p, false, 0, pi);
    if Select(policies, indices, p) == Some(pi) {
      if FirstFit(policies, indices, p, true, 0).Some? {
        var i :| 0 <= i < |indices| && indices[i] == pi && Fits(policies, pi, p, true)
                 && forall j | 0 <= j < i :: !Fits(policies, indices[j], p, true);
      } else {
        var i :| 0 <= i < |indices| && indices[i] == pi && Fits(policies, pi, p, false)
                 && forall j | 0 <= j < i :: !Fits(policies, indices[j], p, false);
      }
    }
  }

  /** Both directions of a flow get the same policy. */
  lemma {:induction false} FirstFitSymmetric(policies: seq<CryptoPolicy>, indices: seq<int>, p: PacketKey,
                                             specific: bool, k: nat)
    requires k <= |indices|
    ensures FirstFit(policies, indices, p.Swapped(), specific, k) == FirstFit(policies, indices, p, specific, k)
    decreases |indices| - k
  {
    hide MatchPacket;
    assert p.Swapped().Swapped() == p;
    if k < |indices| {
      FirstFitSymmetric(policies, indices, p, specific, k + 1);
    }
  }

  lemma SelectSymmetric(policies: seq<CryptoPolicy>, indices: seq<int>, p: PacketKey)
    ensures Select(policies, indices, p.Swapped()) == Select(policies, indices, p)
  {
    FirstFitSymmetric(policies, indices, p, true, 0);
    FirstFitSymmetric(policies, indices, p, false, 0);
  }

  // --- the profile of a LAN port -------------------------------------------------------------

  /** The first enabled profile from k on that lists the local interface. */
  function FirstProfile(profiles: seq<Profile>, localIdx: int, k: nat): (r: Option<nat>)
    requires k <= |profiles|
    ensures r.Some? ==> k <= r.value < |profiles| && profiles[r.value].enabled && localIdx in profiles[r.value].locals
                        && forall j | k <= j < r.value :: !(profiles[j].enabled && localIdx in profiles[j].locals)
    ensures r.None? ==> forall j | k <= j < |profiles| :: !(profiles[j].enabled && localIdx in profiles[j].locals)
    decreases |profiles| - k
  {
    if k == |profiles| then None
    else if profiles[k].enabled && localIdx in profiles[k].locals then Some(k)
    else FirstProfile(profiles, localIdx, k + 1)
  }

  method SelectProfileForLocal(profiles: seq<Profile>, localCount: nat, localIdx: int) returns (r: Option<nat>)
    ensures r == if 0 <= localIdx < localCount then FirstProfile(profiles, localIdx, 0) else None
  {
    if localIdx < 0 || localIdx >= localCount {
      return None;
    }
    for pi := 0 to |profiles|
      invariant FirstProfile(profiles, localIdx, pi) == FirstProfile(profiles, localIdx, 0)
    {
      var p := profiles[pi];
      if p.enabled {
        for i := 0 to |p.locals|
          invariant localIdx !in p.locals[..i]
        {
          if p.locals[i] == localIdx {
            return Some(pi);
          }
        }
        assert p.locals[..|p.locals|] == p.locals;
      }
    }
    r := None;
  }
}
