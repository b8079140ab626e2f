/** The per-policy key contexts and the wire-id index, rebuilt at every start and hot reload. */
module PolicyRuntime {
  import opened Bytes
  import opened Config
  import opened PacketCrypto
  import Dispatch

  /** Key derivation with epoch 0, as an abstract function of the master key. */
  type Kdf = Key -> Key

  function KeySize(aesBits: int): nat { if aesBits == 256 then 32 else 16 }

  predicate WellFormed(policies: seq<CryptoPolicy>)
  {
    |policies| <= MAX_CRYPTO_POLICIES && forall i | 0 <= i < |policies| :: |policies[i].key| == 32
  }

  /** The context packet_crypto_init derives: all three slots hold the same key. */
  function Derived(kdf: Kdf, cp: CryptoPolicy): (ctx: CryptoCtx)
    requires |cp.key| == 32
    ensures ctx.Valid()
  {
    var master := cp.key[..KeySize(cp.aesBits)];
    CryptoCtx(master, [kdf(master), kdf(master), kdf(master)])
  }

  /** Policies that get a context at all. */
  predicate Usable(cp: CryptoPolicy)
  {
    cp.action != ACTION_BYPASS && exists k | 0 <= k < |cp.key| :: cp.key[k] != 0
  }

  /** The lowest ready policy with this action and wire id, or -1. */
  function IndexEntry(policies: seq<CryptoPolicy>, ready: seq<bool>, action: int, id: uint8): (e: int)
    requires |ready| <= |policies|
    ensures -1 <= e < |ready|
    ensures e >= 0 ==> ready[e] && policies[e].action == action && policies[e].WireId() == id
    ensures forall i | 0 <= i < |ready| && ready[i] && policies[i].action == action && policies[i].WireId() == id ::
              0 <= e <= i
    decreases |ready|
  {
    if ready == [] then -1
    else
      var n := |ready| - 1;
      var e := IndexEntry(policies, ready[..n], action, id);
      if e < 0 && ready[n] && policies[n].action == action && policies[n].WireId() == id then n else e
  }

  class Runtime {
    const ctx: array<CryptoCtx>
    const ready: array<bool>
    const index: array2<int>
    var active: seq<CryptoPolicy>

    predicate Sized()
      reads this
    {
      && ctx.Length == ready.Length == MAX_CRYPTO_POLICIES && |active| <= MAX_CRYPTO_POLICIES
      && index.Length0 == ACTION_L4 + 1 && index.Length1 == 0x100
    }

    /** Every ready context of the active list holds the keys of its own slot. */
    ghost predicate CtxOk(kdf: Kdf)
      reads this, ctx, ready
    {
      Sized() && WellFormed(active)
      && forall i | 0 <= i < |active| && ready[i] :: ctx[i] == Derived(kdf, active[i])
    }

    /** The runtime belongs to the policy list: ready contexts are its own, and the index holds, for every action and
        wire id, the lowest ready policy of the list. */
    ghost predicate Matches(kdf: Kdf, policies: seq<CryptoPolicy>)
      reads this, ctx, ready, index
    {
      && CtxOk(kdf) && active == policies
      && (forall i | 0 <= i < MAX_CRYPTO_POLICIES && ready[i] :: i < |policies| && Usable(policies[i]))
      && (forall a, id: uint8 | 0 <= a <= ACTION_L4 :: index[a, id] == IndexEntry(policies, ready[..|policies|], a, id))
    }

    constructor (kdf: Kdf)
      ensures CtxOk(kdf) && fresh(ctx) && fresh(ready) && fresh(index)
    {
      var none := CryptoCtx([], [[], [], []]);
      ctx := new CryptoCtx[MAX_CRYPTO_POLICIES](_ => none);
      ready := new bool[MAX_CRYPTO_POLICIES](_ => false);
      index := new int[ACTION_L4 + 1, 0x100]((_, _) => -1);
      active := [];
    }

    /** initOk[i] says whether creating a new context for slot i would succeed. */
    method Rebuild(kdf: Kdf, policies: seq<CryptoPolicy>, initOk: seq<bool>) returns (hasL2: bool)
      requires CtxOk(kdf) && WellFormed(policies) && |initOk| == |policies|
      modifies this, ctx, ready, index
      ensures Matches(kdf, policies)
      ensures forall i | 0 <= i < |policies| ::
                ready[i] <==> Usable(policies[i]) && (initOk[i] || Reusable(old(active), old(ready[..]), policies[i]))
      ensures hasL2 <==> exists i | 0 <= i < |policies| :: ready[i] && policies[i].action == ACTION_L2
    {
      hide Usable, Reusable, IndexEntry, Derived;
      var oldCtx, oldReady, oldActive := ctx[..], ready[..], active;
      hasL2 := false;
      ClearAll();
      for i := 0 to |policies|
        invariant Sized() && IndexUpTo(policies, i)
        invariant forall k | 0 <= k < i ::
                    ready[k] <==> Usable(policies[k]) && (initOk[k] || Reusable(oldActive, oldReady, policies[k]))
        invariant forall k | i <= k < MAX_CRYPTO_POLICIES :: !ready[k]
        invariant forall k | 0 <= k < i && ready[k] :: ctx[k] == Derived(kdf, policies[k])
        invariant hasL2 <==> exists k | 0 <= k < i :: ready[k] && policies[k].action == ACTION_L2
      {
        PrepareSlot(kdf, policies[i], i, initOk[i], oldCtx, oldReady, oldActive);
        IndexSlot(policies, i);
        if ready[i] && policies[i].action == ACTION_L2 {
          hasL2 := true;
        }
      }
      active := policies;
    }

    /** The index is right for the first n slots. */
    ghost predicate IndexUpTo(policies: seq<CryptoPolicy>, n: nat)
      reads this, ready, index
    {
      Sized() && n <= |policies| <= MAX_CRYPTO_POLICIES
      && forall a, id: uint8 | 0 <= a <= ACTION_L4 :: index[a, id] == IndexEntry(policies, ready[..n], a, id)
    }

    /** Gives slot i the context of an old slot with the same policy, or a new one. */
    method PrepareSlot(kdf: Kdf, cp: CryptoPolicy, i: nat, initOk: bool,
                       oldCtx: seq<CryptoCtx>, oldReady: seq<bool>, oldActive: seq<CryptoPolicy>)
      requires Sized() && i < MAX_CRYPTO_POLICIES && |cp.key| == 32 && !ready[i]
      requires |oldActive| <= |oldReady| == |oldCtx| && WellFormed(oldActive)
      requires forall o | 0 <= o < |oldActive| && oldReady[o] :: oldCtx[o] == Derived(kdf, oldActive[o])
      modifies ctx, ready
      ensures ready[i] <==> Usable(cp) && (initOk || Reusable(oldActive, oldReady, cp))
      ensures ready[i] ==> ctx[i] == Derived(kdf, cp)
      ensures forall k | 0 <= k < MAX_CRYPTO_POLICIES && k != i :: ready[k] == old(ready[k]) && ctx[k] == old(ctx[k])
    {
      hide Usable, Reusable, Derived;
      var usable := IsUsable(cp);
      if usable {
        var o := FindSame(oldActive, oldReady, cp);
        if o >= 0 {
          ctx[i] := oldCtx[o];
          ready[i] := true;
        } else if initOk {
          ctx[i] := Derived(kdf, cp);
          ready[i] := true;
        }
      }
    }

    /** Enters slot i into the index, unless a lower slot has the same action and id. */
    method IndexSlot(policies: seq<CryptoPolicy>, i: nat)
      requires IndexUpTo(policies, i) && i < |policies|
      modifies index
      ensures IndexUpTo(policies, i + 1)
    {
      hide CryptoPolicy.WireId;
      var cp := policies[i];
      assert ready[..i + 1][..i] == ready[..i];
      if ready[i] && 0 <= cp.action <= ACTION_L4 {
        if index[cp.action, cp.WireId()] < 0 {
          index[cp.action, cp.WireId()] := i;
        }
      }
    }

    method ClearAll()
      requires Sized()
      modifies ready, index
      ensures forall i | 0 <= i < MAX_CRYPTO_POLICIES :: !ready[i]
      ensures forall a, id | 0 <= a <= ACTION_L4 && 0 <= id < 0x100 :: index[a, id] == -1
    {
      forall i | 0 <= i < MAX_CRYPTO_POLICIES {
        ready[i] := false;
      }
      for a := 0 to ACTION_L4 + 1
        invariant forall i | 0 <= i < MAX_CRYPTO_POLICIES :: !ready[i]
        invariant forall b, id | 0 <= b < a && 0 <= id < 0x100 :: index[b, id] == -1
      {
        for id := 0 to 0x100
          invariant forall i | 0 <= i < MAX_CRYPTO_POLICIES :: !ready[i]
          invariant forall b, j | 0 <= b < a && 0 <= j < 0x100 :: index[b, j] == -1
          invariant forall j | 0 <= j < id :: index[a, j] == -1
        {
          index[a, id] := -1;
        }
      }
    }
  }

  /** An old slot whose context can be kept for cp: ready, and the same policy in every field. */
  predicate Reusable(oldActive: seq<CryptoPolicy>, oldReady: seq<bool>, cp: CryptoPolicy)
    requires |oldActive| <= |oldReady|
  {
    exists o | 0 <= o < |oldActive| :: oldReady[o] && oldActive[o] == cp
  }

  method IsUsable(cp: CryptoPolicy) returns (usable: bool)
    ensures usable <==> Usable(cp)
  {
    if cp.action == ACTION_BYPASS {
      return false;
    }
    for k := 0 to |cp.key|
      invariant forall j | 0 <= j < k :: cp.key[j] == 0
    {
      if cp.key[k] != 0 {
        return true;
      }
    }
    usable := false;
  }

  method FindSame(oldActive: seq<CryptoPolicy>, oldReady: seq<bool>, cp: CryptoPolicy) returns (o: int)
    requires |oldActive| <= |oldReady|
    ensures 0 <= o ==> o < |oldActive| && oldReady[o] && oldActive[o] == cp
    ensures o < 0 <==> !Reusable(oldActive, oldReady, cp)
  {
    for k := 0 to |oldActive|
      invariant forall j | 0 <= j < k :: !(oldReady[j] && oldActive[j] == cp)
    {
      if oldReady[k] && oldActive[k] == cp {
        return k;
      }
    }
    o := -1;
  }

  // --- start and reload --------------------------------------------------------------

  /** The part of the configuration that decides about the crypto runtime. */
  datatype CryptoConfig = CryptoConfig(enabled: bool, encryptLayer: int, mode: int, aesBits: int, nonceSize: int,
                                       fakeEthertype: uint16, fakeProtocol: uint8, policies: seq<CryptoPolicy>)

  predicate RuntimeChanged(a: CryptoConfig, b: CryptoConfig)
  {
    || a.enabled != b.enabled || a.encryptLayer != b.encryptLayer || a.mode != b.mode || a.aesBits != b.aesBits
    || a.nonceSize != b.nonceSize || a.fakeEthertype != b.fakeEthertype || a.fakeProtocol != b.fakeProtocol
    || |a.policies| != |b.policies| || exists i | 0 <= i < |a.policies| :: a.policies[i] != b.policies[i]
  }

  /** Without a change the policy lists are the same, field by field. */
  lemma UnchangedPolicies(a: CryptoConfig, b: CryptoConfig)
    requires !RuntimeChanged(a, b)
    ensures a.policies == b.policies && a.enabled == b.enabled
  {}

  class Forwarder {
    const runtime: Runtime
    var cfg: CryptoConfig
    var enabled: bool

    /** What holds between start and reloads, whatever their sequence: while crypto is enabled the runtime belongs to
        the configuration in force. */
    ghost predicate Ok(kdf: Kdf)
      reads this, runtime, runtime.ctx, runtime.ready, runtime.index
    {
      && runtime.CtxOk(kdf) && enabled == cfg.enabled && WellFormed(cfg.policies)
      && (enabled ==> runtime.Matches(kdf, cfg.policies))
    }

    constructor (kdf: Kdf, rt: Runtime, c: CryptoConfig)
      requires rt.CtxOk(kdf)
      ensures runtime == rt && cfg == c && runtime.CtxOk(kdf)
    {
      runtime := rt;
      cfg := c;
      enabled := false;
    }

    /** forwarder_init; baseOk says whether the base context can be created.  A failed start leaves the contexts alone,
        so that the next one finds them as consistent as before. */
    method Init(kdf: Kdf, c: CryptoConfig, baseOk: bool, initOk: seq<bool>) returns (ok: bool)
      requires runtime.CtxOk(kdf) && WellFormed(c.policies) && |initOk| == |c.policies|
      modifies this, runtime, runtime.ctx, runtime.ready, runtime.index
      ensures ok <==> !c.enabled || baseOk
      ensures ok ==> Ok(kdf)
      ensures runtime.CtxOk(kdf) && cfg == c && enabled == c.enabled
      ensures !ok ==> runtime.active == old(runtime.active) && runtime.ctx[..] == old(runtime.ctx[..])
                      && runtime.ready[..] == old(runtime.ready[..])
    {
      cfg := c;
      enabled := c.enabled;
      ok := true;
      if c.enabled {
        if !baseOk {
          return false;
        }
        var hasL2 := runtime.Rebuild(kdf, c.policies, initOk);
      } else {
        runtime.active := [];
      }
    }

    /** forwarder_reload_config, as one step behind its gate. */
    method Reload(kdf: Kdf, c: CryptoConfig, sameTopology: bool, forwardingChanged: bool, initOk: seq<bool>)
      returns (ok: bool, rebuilt: bool)
      requires Ok(kdf) && WellFormed(c.policies) && |initOk| == |c.policies|
      modifies this, runtime, runtime.ctx, runtime.ready, runtime.index
      ensures Ok(kdf)
      ensures ok == sameTopology && cfg == (if ok then c else old(cfg))
      ensures rebuilt <==> ok && c.enabled && RuntimeChanged(old(cfg), c)
      ensures !rebuilt ==> runtime.active == old(runtime.active) && runtime.ready[..] == old(runtime.ready[..])
    {
      rebuilt := false;
      if !sameTopology {
        return false, false;
      }
      ok := true;
      var changed := RuntimeChanged(cfg, c);
      if !changed {
        UnchangedPolicies(cfg, c);
      }
      if !changed && !forwardingChanged {
        cfg := c;
        return;
      }
      cfg := c;
      enabled := c.enabled;
      if enabled && changed {
        var hasL2 := runtime.Rebuild(kdf, c.policies, initOk);
        rebuilt := true;
      }
    }
  }

  /** What dispatch relies on: a runtime that matches a policy list with distinct wire ids and valid nonce sizes is a
      coherent policy set, and each of its ready contexts holds three equal keys derived from its own slot. */
  lemma MatchesCoherent(rt: Runtime, kdf: Kdf, ps: Dispatch.PolicySet)
    requires rt.Matches(kdf, ps.policies) && DistinctWireIds(ps.policies)
    requires forall i | 0 <= i < |ps.policies| :: 1 <= ps.policies[i].nonceSize <= 16
    requires |ps.ctx| == |ps.ready| == |ps.policies|
    requires forall i | 0 <= i < |ps.policies| ::
               ps.ready[i] == rt.ready[i] && ps.ctx[i].Valid() && (ps.ready[i] ==> ps.ctx[i] == rt.ctx[i])
    requires |ps.index| == ACTION_L4 + 1 && forall a | 0 <= a <= ACTION_L4 :: |ps.index[a]| == 0x100
    requires forall a, id | 0 <= a <= ACTION_L4 && 0 <= id < 0x100 :: ps.index[a][id] == rt.index[a, id]
    ensures Dispatch.Coherent(ps) && ps.IndexComplete()
    ensures forall k | 0 <= k < |ps.policies| && ps.ready[k] ::
              ps.ctx[k] == Derived(kdf, ps.policies[k]) && Usable(ps.policies[k])
  {
    hide Usable, Derived, DistinctWireIds, CryptoPolicy.WireId;
    forall k | 0 <= k < |ps.policies| && ps.ready[k] && 0 <= ps.policies[k].action <= ACTION_L4
      ensures ps.index[ps.policies[k].action][ps.policies[k].WireId()] == k
    {
      var e := rt.index[ps.policies[k].action, ps.policies[k].WireId()];
      assert 0 <= e < |ps.policies|;
      Dispatch.WireIdsDiffer(ps.policies, e, k);
    }
  }
}
