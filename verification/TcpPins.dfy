/** TCP connections stick to the policy that was chosen first: a chained table of pins, its map semantics, and what a
    lookup can return over any run with reloads. */
module TcpPins {
  import opened Bytes
  import opened Config
  import opened Chains
  import opened FlowKeys
  import Ipv4
  import opened PolicyRuntime

  const TIMEOUT_SEC := 120

  datatype Pin = Pin(policy: nat, lastSeen: uint64)

  function PinHash(t: Tuple): (h: nat)
    ensures h < TABLE_SIZE
  {
    TupleHash(t, Ipv4.PROTO_TCP)
  }

  // --- the operations on the map of pins -------------------------------------------------

  /** allocOk says whether a new node can be allocated. */
  function PinSet(m: map<Tuple, Pin>, enabled: bool, t: Tuple, policy: int, now: uint64, allocOk: bool): map<Tuple, Pin>
  {
    var k := Normalized(t);
    if !enabled || policy < 0 || policy >= MAX_CRYPTO_POLICIES then m
    else if k !in m && !allocOk then m
    else m[k := Pin(policy, now)]
  }

  function PinDrop(m: map<Tuple, Pin>, enabled: bool, t: Tuple): map<Tuple, Pin>
  {
    if enabled then m - {Normalized(t)} else m
  }

  /** A pin can be used while its index is in range and, unless the policy bypasses encryption, its context ready. */
  predicate PinUsable(p: Pin, policies: seq<CryptoPolicy>, ready: seq<bool>)
  {
    p.policy < |policies| && p.policy < MAX_CRYPTO_POLICIES
    && (policies[p.policy].action != ACTION_BYPASS ==> p.policy < |ready| && ready[p.policy])
  }

  function PinFound(m: map<Tuple, Pin>, enabled: bool, policies: seq<CryptoPolicy>, ready: seq<bool>, t: Tuple)
    : Option<nat>
  {
    var k := Normalized(t);
    if enabled && k in m && PinUsable(m[k], policies, ready) then Some(m[k].policy) else None
  }

  /** A lookup refreshes a usable pin and removes an unusable one. */
  function PinLook(m: map<Tuple, Pin>, enabled: bool, policies: seq<CryptoPolicy>, ready: seq<bool>, t: Tuple,
                   now: uint64)
    : map<Tuple, Pin>
  {
    var k := Normalized(t);
    if !enabled || k !in m then m
    else if PinUsable(m[k], policies, ready) then m[k := m[k].(lastSeen := now)]
    else m - {k}
  }

  function StillFresh(now: uint64): Pin -> bool { (p: Pin) => Elapsed(now, p.lastSeen) <= TIMEOUT_SEC }

  function PinExpire(m: map<Tuple, Pin>, enabled: bool, now: uint64): map<Tuple, Pin>
  {
    if enabled && now != 0 then KeptMap(m, StillFresh(now)) else m
  }

  // --- the table -------------------------------------------------------------------------

  class PinTable {
    const buckets: array<Chain<Tuple, Pin>>
    ghost var contents: map<Tuple, Pin>

    ghost predicate Valid()
      reads this, buckets
    {
      buckets.Length == TABLE_SIZE && Hashed(buckets[..], PinHash) && Represents(buckets[..], PinHash, contents)
    }

    constructor ()
      ensures Valid() && contents == map[] && fresh(buckets)
    {
      buckets := new Chain<Tuple, Pin>[TABLE_SIZE](_ => []);
      contents := map[];
    }

    method Set(enabled: bool, t: Tuple, policy: int, now: uint64, allocOk: bool)
      requires Valid()
      modifies this, buckets
      ensures Valid() && contents == PinSet(old(contents), enabled, t, policy, now, allocOk)
    {
      hide Normalized, PinHash;
      if !enabled || policy < 0 || policy >= MAX_CRYPTO_POLICIES {
        return;
      }
      var k := Normalized(t);
      var b := PinHash(k);
      var chain := buckets[b];
      var i := Find(chain, k);
      Found(buckets[..], PinHash, contents, k);
      if i == |chain| && !allocOk {
        return;
      }
      SetBucket(buckets[..], PinHash, contents, k, Pin(policy, now));
      buckets[b] := if i < |chain| then chain[i := Node(k, Pin(policy, now))] else [Node(k, Pin(policy, now))] + chain;
      contents := contents[k := Pin(policy, now)];
    }

    method Remove(enabled: bool, t: Tuple)
      requires Valid()
      modifies this, buckets
      ensures Valid() && contents == PinDrop(old(contents), enabled, t)
    {
      hide Normalized, PinHash;
      if !enabled {
        return;
      }
      var k := Normalized(t);
      Unlink(k);
    }

    method Unlink(k: Tuple)
      requires Valid()
      modifies this, buckets
      ensures Valid() && contents == old(contents) - {k}
    {
      hide PinHash;
      var b := PinHash(k);
      var chain := buckets[b];
      var i := Find(chain, k);
      DropBucket(buckets[..], PinHash, contents, k);
      buckets[b] := if i < |chain| then Removed(chain, i) else chain;
      contents := contents - {k};
    }

    method Lookup(enabled: bool, policies: seq<CryptoPolicy>, ready: seq<bool>, t: Tuple, now: uint64)
      returns (r: Option<nat>)
      requires Valid()
      modifies this, buckets
      ensures Valid() && contents == PinLook(old(contents), enabled, policies, ready, t, now)
      ensures r == PinFound(old(contents), enabled, policies, ready, t)
    {
      hide Normalized, PinHash;
      if !enabled {
        return None;
      }
      var k := Normalized(t);
      var b := PinHash(k);
      var chain := buckets[b];
      var i := Find(chain, k);
      Found(buckets[..], PinHash, contents, k);
      if i == |chain| {
        return None;
      }
      var p := chain[i].value;
      if PinUsable(p, policies, ready) {
        SetBucket(buckets[..], PinHash, contents, k, p.(lastSeen := now));
        buckets[b] := chain[i := Node(k, p.(lastSeen := now))];
        contents := contents[k := p.(lastSeen := now)];
        return Some(p.policy);
      }
      Unlink(k);
      r := None;
    }

    method Gc(enabled: bool, now: uint64)
      requires Valid()
      modifies this, buckets
      ensures Valid() && contents == PinExpire(old(contents), enabled, now)
    {
      if !enabled || now == 0 {
        return;
      }
      SweepAll(StillFresh(now));
    }

    method SweepAll(keep: Pin -> bool)
      requires Valid()
      modifies this, buckets
      ensures Valid() && contents == KeptMap(old(contents), keep)
    {
      hide PinHash, Chains.Represents, Chains.Hashed, Chains.KeptMap;
      ghost var was := buckets[..];
      for b := 0 to TABLE_SIZE
        invariant contents == old(contents)
        invariant forall k | 0 <= k < b :: buckets[k] == Kept(was[k], keep)
        invariant forall k | b <= k < TABLE_SIZE :: buckets[k] == was[k]
      {
        buckets[b] := Sweep(buckets[b], keep);
      }
      KeepAll(was, buckets[..], PinHash, contents, keep);
      contents := KeptMap(contents, keep);
    }

    method ClearAll()
      requires Valid()
      modifies this, buckets
      ensures Valid() && contents == map[]
    {
      forall b | 0 <= b < TABLE_SIZE {
        buckets[b] := [];
      }
      contents := map[];
    }
  }

  // --- runs ------------------------------------------------------------------------------

  datatype Event =
    | Pinned(t: Tuple, policy: int, now: uint64, allocOk: bool)
    | Looked(t: Tuple, now: uint64)
    | Dropped(t: Tuple)
    | Expired(now: uint64)
    | Reloaded(c: CryptoConfig, ready: seq<bool>)

  datatype System = System(cfg: CryptoConfig, ready: seq<bool>, pins: map<Tuple, Pin>)

  /** A reload clears the pins exactly when it rebuilds the crypto runtime. */
  function Next(s: System, ev: Event): System
  {
    match ev
    case Pinned(t, policy, now, allocOk) => s.(pins := PinSet(s.pins, s.cfg.enabled, t, policy, now, allocOk))
    case Looked(t, now) => s.(pins := PinLook(s.pins, s.cfg.enabled, s.cfg.policies, s.ready, t, now))
    case Dropped(t) => s.(pins := PinDrop(s.pins, s.cfg.enabled, t))
    case Expired(now) => s.(pins := PinExpire(s.pins, s.cfg.enabled, now))
    case Reloaded(c, ready) =>
      if c.enabled && RuntimeChanged(s.cfg, c) then System(c, ready, map[]) else s.(cfg := c)
  }

  function StateAt(s0: System, evs: seq<Event>, n: nat): System
    requires n <= |evs|
  {
    if n == 0 then s0 else Next(StateAt(s0, evs, n - 1), evs[n - 1])
  }

  /** The event asks to pin the connection with this key: crypto is on and the policy index is acceptable. */
  predicate PinsKey(s0: System, evs: seq<Event>, j: nat, key: Tuple)
    requires j < |evs|
  {
    evs[j].Pinned? && Normalized(evs[j].t) == key && StateAt(s0, evs, j).cfg.enabled
    && 0 <= evs[j].policy < MAX_CRYPTO_POLICIES
  }

  /** The last event before n that pins the connection. */
  function LastPin(s0: System, evs: seq<Event>, n: nat, key: Tuple): (r: Option<nat>)
    requires n <= |evs|
    ensures r.Some? ==> r.value < n && PinsKey(s0, evs, r.value, key)
                        && forall j | r.value < j < n :: !PinsKey(s0, evs, j, key)
    ensures r.None? ==> forall j | 0 <= j < n :: !PinsKey(s0, evs, j, key)
  {
    if n == 0 then None else if PinsKey(s0, evs, n - 1, key) then Some(n - 1) else LastPin(s0, evs, n - 1, key)
  }

  /** Every pin in the table is the last one asked for, and while crypto is on it was made against the policy list
      now in force. */
  lemma {:induction false} PinInvariant(s0: System, evs: seq<Event>, n: nat, key: Tuple)
    requires n <= |evs| && s0.pins == map[]
    ensures var s := StateAt(s0, evs, n);
            key in s.pins ==>
              var j := LastPin(s0, evs, n, key);
              && j.Some? && s.pins[key].policy == evs[j.value].policy
              && (s.cfg.enabled ==> StateAt(s0, evs, j.value).cfg.policies == s.cfg.policies)
  {
    hide Normalized, RuntimeChanged, PinUsable, Elapsed;
    if n > 0 {
      PinInvariant(s0, evs, n - 1, key);
      var s, ev := StateAt(s0, evs, n - 1), evs[n - 1];
      if ev.Reloaded? && !RuntimeChanged(s.cfg, ev.c) {
        UnchangedPolicies(s.cfg, ev.c);
      }
      if ev.Reloaded? && ev.c.enabled && !s.cfg.enabled {
        EnablingChanges(s.cfg, ev.c);
      }
    }
  }

  lemma EnablingChanges(a: CryptoConfig, b: CryptoConfig)
    requires a.enabled != b.enabled
    ensures RuntimeChanged(a, b)
  {}

  /** A lookup only returns the policy last pinned for the connection, in either direction, against a list identical
      to the current one; the index is in range and, if the policy encrypts, its context is ready. */
  lemma {:induction false} LookupReturnsLastPin(s0: System, evs: seq<Event>, n: nat, t: Tuple)
    requires n <= |evs| && s0.pins == map[]
    ensures var s := StateAt(s0, evs, n);
            var r := PinFound(s.pins, s.cfg.enabled, s.cfg.policies, s.ready, t);
            r.Some? ==>
              var j := LastPin(s0, evs, n, Normalized(t));
              && j.Some? && (evs[j.value].t == t || evs[j.value].t == t.Swapped())
              && evs[j.value].policy == r.value < |s.cfg.policies|
              && StateAt(s0, evs, j.value).cfg.policies == s.cfg.policies
              && (s.cfg.policies[r.value].action != ACTION_BYPASS ==> r.value < |s.ready| && s.ready[r.value])
  {
    hide Normalized, Next, RuntimeChanged;
    PinInvariant(s0, evs, n, Normalized(t));
    var j := LastPin(s0, evs, n, Normalized(t));
    if j.Some? {
      NormalizedIff(t, evs[j.value].t);
      assert t == evs[j.value].t.Swapped() ==> evs[j.value].t == t.Swapped();
    }
  }
}
