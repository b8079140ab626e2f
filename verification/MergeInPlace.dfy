/** The merge as it runs: the destination configuration grows in place, and index maps carry the new positions. */
module MergeInPlace {
  import opened Bytes
  import opened Config
  import opened Merge

  /** The scan for an interface name. */
  method FindByName(list: seq<Interface>, name: string) returns (i: int)
    ensures i == if IndexOfName(list, name) < |list| then IndexOfName(list, name) else -1
  {
    for k := 0 to |list|
      invariant IndexOfName(list, name) == k + IndexOfName(list[k..], name)
    {
      if list[k].ifname == name {
        return k;
      }
      assert list[k..][1..] == list[k + 1..];
    }
    i := -1;
  }

  /** Marks the wire ids in use. */
  method CollectUsedWireIds(policies: seq<CryptoPolicy>) returns (used: array<bool>)
    ensures fresh(used) && used.Length == 0x100
    ensures forall id | 1 <= id <= 0xFF :: used[id] <==> IdUsed(policies, id)
  {
    used := new bool[0x100](_ => false);
    for i := 0 to |policies|
      invariant forall id | 1 <= id <= 0xFF :: used[id] <==> exists k | 0 <= k < i :: policies[k].id == id
    {
      var wid := policies[i].id;
      if 1 <= wid <= 0xFF {
        used[wid] := true;
      }
    }
  }

  /** The wire id a new policy gets, or -1. */
  method PickWireId(policies: seq<CryptoPolicy>, id: int) returns (wid: int)
    ensures wid == var w := WireIdFor(policies, id); if w.Some? then w.value else -1
  {
    hide IdUsed;
    var used := CollectUsedWireIds(policies);
    if 1 <= id <= 0xFF && !used[id] {
      return id;
    }
    for j := 1 to 0x100
      invariant LowestFree(policies, j) == LowestFree(policies, 1)
    {
      if !used[j] {
        return j;
      }
    }
    wid := -1;
  }

  /** The entries of one profile list at their new positions; the loop stops when the destination is full. */
  method Remap(indices: seq<int>, position: seq<nat>, limit: nat) returns (r: seq<int>)
    ensures r == Remapped(indices, position, limit)
  {
    r := [];
    for i := 0 to |indices|
      invariant r == Remapped(indices[..i], position, limit)
    {
      assert indices[..i + 1][..i] == indices[..i];
      if InRange(indices[i], |position|) {
        if |r| >= limit {
          FullStays(indices, position, limit, i);
          return;
        }
        r := r + [position[indices[i]]];
      }
    }
    assert indices[..|indices|] == indices;
  }

  lemma {:induction false} FullStays(indices: seq<int>, position: seq<nat>, limit: nat, i: nat)
    requires i <= |indices| && |Remapped(indices[..i], position, limit)| == limit
    ensures Remapped(indices, position, limit) == Remapped(indices[..i], position, limit)
    decreases |indices|
  {
    if i == |indices| {
      assert indices[..i] == indices;
    } else {
      var front := indices[..|indices| - 1];
      assert front[..i] == indices[..i];
      FullStays(front, position, limit, i);
    }
  }

  /** The WAN entries with their weights. */
  method RemapWeighted(indices: seq<int>, weights: seq<int>, position: seq<nat>, limit: nat)
    returns (r: seq<int>, w: seq<int>)
    requires |weights| == |indices|
    ensures r == Remapped(indices, position, limit) && w == RemappedWeights(indices, weights, position, limit)
  {
    r, w := [], [];
    for i := 0 to |indices|
      invariant r == Remapped(indices[..i], position, limit)
                && w == RemappedWeights(indices[..i], weights[..i], position, limit)
    {
      assert indices[..i + 1][..i] == indices[..i] && weights[..i + 1][..i] == weights[..i];
      if InRange(indices[i], |position|) {
        if |r| >= limit {
          FullStays(indices, position, limit, i);
          FullWeightsStay(indices, weights, position, limit, i);
          return;
        }
        r, w := r + [position[indices[i]]], w + [weights[i]];
      }
    }
    assert indices[..|indices|] == indices && weights[..|weights|] == weights;
  }

  lemma {:induction false} FullWeightsStay(indices: seq<int>, weights: seq<int>, position: seq<nat>, limit: nat, i: nat)
    requires |weights| == |indices| && i <= |indices|
             && |RemappedWeights(indices[..i], weights[..i], position, limit)| == limit
    ensures RemappedWeights(indices, weights, position, limit)
            == RemappedWeights(indices[..i], weights[..i], position, limit)
    decreases |indices|
  {
    if i == |indices| {
      assert indices[..i] == indices && weights[..i] == weights;
    } else {
      var n := |indices| - 1;
      var front, fw := indices[..n], weights[..n];
      assert front[..i] == indices[..i] && fw[..i] == weights[..i];
      FullWeightsStay(front, fw, position, limit, i);
    }
  }

  class Destination {
    var locals: seq<Interface>
    var wans: seq<Interface>
    var policies: seq<CryptoPolicy>
    var profiles: seq<Profile>

    function Value(): AppConfig
      reads this
    {
      AppConfig(locals, wans, policies, profiles)
    }

    constructor ()
      ensures Value() == EMPTY
    {
      locals, wans, policies, profiles := [], [], [], [];
    }

    /** The position of the interface, appended if its name is new; -1 when there is no room. */
    method AppendLocalUnique(x: Interface) returns (idx: int)
      modifies this`locals
      ensures var r := AddInterface(old(locals), x);
              if r.None? then idx == -1 && locals == old(locals)
              else idx == IndexOfName(old(locals), x.ifname) && locals == r.value
    {
      idx := FindByName(locals, x.ifname);
      if idx >= 0 {
        return;
      }
      if |locals| >= MAX_INTERFACES {
        return -1;
      }
      idx := |locals|;
      locals := locals + [x];
    }

    method AppendWanUnique(x: Interface) returns (idx: int)
      modifies this`wans
      ensures var r := AddInterface(old(wans), x);
              if r.None? then idx == -1 && wans == old(wans)
              else idx == IndexOfName(old(wans), x.ifname) && wans == r.value
    {
      idx := FindByName(wans, x.ifname);
      if idx >= 0 {
        return;
      }
      if |wans| >= MAX_INTERFACES {
        return -1;
      }
      idx := |wans|;
      wans := wans + [x];
    }

    /** The position of the appended policy, or -1. */
    method AppendPolicyUnique(cp: CryptoPolicy) returns (idx: int)
      modifies this`policies
      ensures var r := AddPolicy(old(policies), cp);
              if r.None? then idx == -1 && policies == old(policies)
              else idx == |old(policies)| && policies == r.value
    {
      if |policies| >= MAX_CRYPTO_POLICIES {
        return -1;
      }
      var wid := PickWireId(policies, cp.id);
      if wid < 0 {
        return -1;
      }
      idx := |policies|;
      policies := policies + [cp.(id := wid)];
    }

    method AppendLocals(xs: seq<Interface>) returns (ok: bool, pos: seq<nat>)
      modifies this`locals
      ensures var r := AddInterfaces(old(locals), xs);
              ok == r.Some? && (ok ==> r.value == (locals, pos))
    {
      hide AddInterface, IndexOfName;
      ok, pos := true, [];
      for i := 0 to |xs|
        invariant AddInterfaces(old(locals), xs[..i]) == Some((locals, pos))
      {
        assert xs[..i + 1][..i] == xs[..i];
        var idx := AppendLocalUnique(xs[i]);
        if idx < 0 {
          NoneStays(old(locals), xs, i + 1);
          return false, [];
        }
        pos := pos + [idx];
      }
      assert xs[..|xs|] == xs;
    }

    method AppendWans(xs: seq<Interface>) returns (ok: bool, pos: seq<nat>)
      modifies this`wans
      ensures var r := AddInterfaces(old(wans), xs);
              ok == r.Some? && (ok ==> r.value == (wans, pos))
    {
      hide AddInterface, IndexOfName;
      ok, pos := true, [];
      for i := 0 to |xs|
        invariant AddInterfaces(old(wans), xs[..i]) == Some((wans, pos))
      {
        assert xs[..i + 1][..i] == xs[..i];
        var idx := AppendWanUnique(xs[i]);
        if idx < 0 {
          NoneStays(old(wans), xs, i + 1);
          return false, [];
        }
        pos := pos + [idx];
      }
      assert xs[..|xs|] == xs;
    }

    method AppendPolicies(cps: seq<CryptoPolicy>) returns (ok: bool, pos: seq<nat>)
      modifies this`policies
      ensures var r := AddPolicies(old(policies), cps);
              ok == r.Some? && (ok ==> r.value == policies && pos == Block(|old(policies)|, |cps|))
    {
      hide AddPolicy;
      ok, pos := true, [];
      for i := 0 to |cps|
        invariant AddPolicies(old(policies), cps[..i]) == Some(policies) && pos == Block(|old(policies)|, i)
      {
        assert cps[..i + 1][..i] == cps[..i];
        var idx := AppendPolicyUnique(cps[i]);
        if idx < 0 {
          NoPolicyStays(old(policies), cps, i + 1);
          return false, [];
        }
        pos := pos + [idx];
      }
      assert cps[..|cps|] == cps;
    }

    /** Merges one source; on failure the destination is left half-merged and its caller gives up. */
    method MergeFrom(src: AppConfig) returns (ok: bool)
      requires WellFormed(src)
      modifies this
      ensures var r := MergeOne(old(Value()), src);
              ok == r.Some? && (ok ==> Value() == r.value)
    {
      hide AddInterfaces, AddPolicies, Remapped, RemappedWeights, CutName, Block;
      var localPos, wanPos, policyPos;
      ok, localPos := AppendLocals(src.locals);
      if !ok {
        return;
      }
      ok, wanPos := AppendWans(src.wans);
      if !ok {
        return;
      }
      ok, policyPos := AppendPolicies(src.policies);
      if !ok {
        return;
      }
      for pi := 0 to |src.profiles|
        invariant AddInterfaces(old(locals), src.locals) == Some((locals, localPos))
        invariant AddInterfaces(old(wans), src.wans) == Some((wans, wanPos))
        invariant AddPolicies(old(policies), src.policies) == Some(policies)
                  && policyPos == Block(|old(policies)|, |src.policies|)
        invariant |profiles| == |old(profiles)| + pi && (pi > 0 ==> |profiles| <= MAX_PROFILES)
        invariant profiles[..|old(profiles)|] == old(profiles)
        invariant forall k | 0 <= k < pi ::
                    profiles[|old(profiles)| + k] == RemappedProfile(src.profiles[k], localPos, wanPos, policyPos)
      {
        if |profiles| >= MAX_PROFILES {
          return false;
        }
        var sp := src.profiles[pi];
        var l := Remap(sp.locals, localPos, MAX_PROFILE_INTERFACES);
        var w, weights := RemapWeighted(sp.wans, sp.weights, wanPos, MAX_PROFILE_INTERFACES);
        var p := Remap(sp.policies, policyPos, MAX_CRYPTO_POLICIES);
        profiles := profiles + [Profile(sp.id, CutName(sp.name), sp.enabled, l, w, weights, p)];
      }
      assert profiles == old(profiles) + profiles[|old(profiles)|..];
      assert profiles[|old(profiles)|..] == seq(|src.profiles|, i requires 0 <= i < |src.profiles| =>
        RemappedProfile(src.profiles[i], localPos, wanPos, policyPos));
      ok := true;
    }
  }

  lemma {:induction false} NoneStays(list: seq<Interface>, xs: seq<Interface>, i: nat)
    requires i <= |xs| && AddInterfaces(list, xs[..i]).None?
    ensures AddInterfaces(list, xs).None?
    decreases |xs|
  {
    if i == |xs| {
      assert xs[..i] == xs;
    } else {
      var front := xs[..|xs| - 1];
      assert front[..i] == xs[..i];
      NoneStays(list, front, i);
    }
  }

  lemma {:induction false} NoPolicyStays(list: seq<CryptoPolicy>, cps: seq<CryptoPolicy>, i: nat)
    requires i <= |cps| && AddPolicies(list, cps[..i]).None?
    ensures AddPolicies(list, cps).None?
    decreases |cps|
  {
    if i == |cps| {
      assert cps[..i] == cps;
    } else {
      var front := cps[..|cps| - 1];
      assert front[..i] == cps[..i];
      NoPolicyStays(list, front, i);
    }
  }

  /** The merge loop over the loaded sources. */
  method BuildMerged(srcs: seq<AppConfig>) returns (ok: bool, merged: AppConfig)
    requires forall i | 0 <= i < |srcs| :: WellFormed(srcs[i])
    ensures ok == MergeFirst(srcs, |srcs|).Some?
    ensures ok ==> Some(merged) == MergeFirst(srcs, |srcs|)
  {
    hide MergeOne, WellFormed;
    var dst := new Destination();
    merged := dst.Value();
    for i := 0 to |srcs|
      invariant MergeFirst(srcs, i) == Some(dst.Value()) && merged == dst.Value()
    {
      ok := dst.MergeFrom(srcs[i]);
      merged := dst.Value();
      if !ok {
        FailureStays(srcs, i + 1);
        return;
      }
    }
    ok := true;
  }

  lemma {:induction false} FailureStays(srcs: seq<AppConfig>, i: nat)
    requires (forall k | 0 <= k < |srcs| :: WellFormed(srcs[k])) && i <= |srcs| && MergeFirst(srcs, i).None?
    ensures MergeFirst(srcs, |srcs|).None?
    decreases |srcs| - i
  {
    hide WellFormed, MergeOne;
    if i < |srcs| {
      FailureStays(srcs, i + 1);
    }
  }
}
