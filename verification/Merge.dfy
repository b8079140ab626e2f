/** Merging several configurations into one: interfaces are shared by name, policies get fresh wire ids, and profiles
    are rewritten to the new positions. */
module Merge {
  import opened Basics
  import opened Bytes
  import opened Config
  import opened PolicySelect

  datatype Interface = Interface(ifname: string, umemMb: uint32, ringSize: uint32, batchSize: uint32, frameSize: uint32)

  datatype AppConfig = AppConfig(locals: seq<Interface>, wans: seq<Interface>,
                                 policies: seq<CryptoPolicy>, profiles: seq<Profile>)

  // --- interfaces --------------------------------------------------------------------------

  /** Position of the name, or |list|. */
  function IndexOfName(list: seq<Interface>, name: string): (i: nat)
    ensures i <= |list| && (i < |list| ==> list[i].ifname == name)
    ensures forall j | 0 <= j < i :: list[j].ifname != name
  {
    if list == [] || list[0].ifname == name then 0 else 1 + IndexOfName(list[1..], name)
  }

  /** The list with the interface in it, unless it would not fit. */
  function AddInterface(list: seq<Interface>, x: Interface): (r: Option<seq<Interface>>)
    ensures r.Some? ==> list <= r.value && IndexOfName(list, x.ifname) < |r.value|
                        && r.value[IndexOfName(list, x.ifname)].ifname == x.ifname
  {
    if IndexOfName(list, x.ifname) < |list| then Some(list)
    else if |list| >= MAX_INTERFACES then None
    else Some(list + [x])
  }

  /** All interfaces of a source in turn, with the position each of them got. */
  function AddInterfaces(list: seq<Interface>, xs: seq<Interface>): (r: Option<(seq<Interface>, seq<nat>)>)
    ensures r.Some? ==> |r.value.1| == |xs| && list <= r.value.0
    decreases |xs|
  {
    if xs == [] then Some((list, []))
    else
      var n := |xs| - 1;
      var before := AddInterfaces(list, xs[..n]);
      if before.None? then None
      else
        var after := AddInterface(before.value.0, xs[n]);
        if after.None? then None
        else Some((after.value, before.value.1 + [IndexOfName(before.value.0, xs[n].ifname)]))
  }

  predicate DistinctNames(list: seq<Interface>)
  {
    forall i, j | 0 <= i < j < |list| :: list[i].ifname != list[j].ifname
  }

  /** Every source interface is found under its name at its new position, and no name appears twice. */
  lemma {:induction false} InterfacesKept(list: seq<Interface>, xs: seq<Interface>)
    requires DistinctNames(list) && AddInterfaces(list, xs).Some?
    ensures var (all, pos) := AddInterfaces(list, xs).value;
            DistinctNames(all) && forall i | 0 <= i < |xs| :: pos[i] < |all| && all[pos[i]].ifname == xs[i].ifname
    decreases |xs|
  {
    if xs != [] {
      InterfacesKept(list, xs[..|xs| - 1]);
    }
  }

  // --- policies ----------------------------------------------------------------------------

  predicate IdUsed(policies: seq<CryptoPolicy>, id: int)
  {
    exists i | 0 <= i < |policies| :: policies[i].id == id
  }

  /** The lowest unused wire id from j on. */
  function LowestFree(policies: seq<CryptoPolicy>, j: nat): (r: Option<int>)
    requires 1 <= j <= 0x100
    ensures r.Some? ==> j <= r.value <= 0xFF && !IdUsed(policies, r.value)
                        && forall k | j <= k < r.value :: IdUsed(policies, k)
    ensures r.None? ==> forall k | j <= k <= 0xFF :: IdUsed(policies, k)
    decreases 0x100 - j
  {
    if j == 0x100 then None else if !IdUsed(policies, j) then Some(j) else LowestFree(policies, j + 1)
  }

  /** A policy keeps its wire id if it is valid and free, and otherwise gets the lowest free one. */
  function WireIdFor(policies: seq<CryptoPolicy>, id: int): (r: Option<int>)
    ensures r.Some? ==> 1 <= r.value <= 0xFF && !IdUsed(policies, r.value)
  {
    if 1 <= id <= 0xFF && !IdUsed(policies, id) then Some(id) else LowestFree(policies, 1)
  }

  function AddPolicy(list: seq<CryptoPolicy>, cp: CryptoPolicy): Option<seq<CryptoPolicy>>
  {
    if |list| >= MAX_CRYPTO_POLICIES || WireIdFor(list, cp.id).None? then None
    else Some(list + [cp.(id := WireIdFor(list, cp.id).value)])
  }

  function AddPolicies(list: seq<CryptoPolicy>, cps: seq<CryptoPolicy>): (r: Option<seq<CryptoPolicy>>)
    ensures r.Some? ==> list <= r.value && |r.value| == |list| + |cps|
    decreases |cps|
  {
    if cps == [] then Some(list)
    else
      var before := AddPolicies(list, cps[..|cps| - 1]);
      if before.None? then None else AddPolicy(before.value, cps[|cps| - 1])
  }

  /** The ids in use. */
  function IdsOf(list: seq<CryptoPolicy>): (ids: set<int>)
    ensures |ids| <= |list| && forall id :: IdUsed(list, id) ==> id in ids
  {
    if list == [] then {} else IdsOf(list[..|list| - 1]) + {list[|list| - 1].id}
  }

  function UpTo(n: nat): (ids: set<int>)
    ensures |ids| == n && forall k :: k in ids <==> 1 <= k <= n
  {
    if n == 0 then {} else UpTo(n - 1) + {n}
  }

  /** A merge never runs out of wire ids before it runs out of room for policies. */
  lemma AlwaysAnId(list: seq<CryptoPolicy>, id: int)
    requires |list| < MAX_CRYPTO_POLICIES
    ensures WireIdFor(list, id).Some?
  {
    hide UpTo, IdsOf, IdUsed;
    var all, used := UpTo(0xFF), IdsOf(list);
    if all <= used {
      SubsetSize(all, used);
    }
    var free :| free in all && free !in used;
    assert !IdUsed(list, free);
  }

  predicate SameButId(a: CryptoPolicy, b: CryptoPolicy) { a.(id := 0) == b.(id := 0) }

  lemma PolicyKept(list: seq<CryptoPolicy>, cp: CryptoPolicy)
    requires DistinctWireIds(list) && AddPolicy(list, cp).Some?
    ensures var all := AddPolicy(list, cp).value;
            |all| == |list| + 1 && list <= all && DistinctWireIds(all) && SameButId(all[|list|], cp)
  {
    var w := WireIdFor(list, cp.id).value;
    forall i | 0 <= i < |list| ensures list[i].id != w {
      assert !IdUsed(list, w);
    }
  }

  /** The added policies follow the old ones in order, equal apart from their wire ids, and all ids stay distinct. */
  lemma {:induction false} PoliciesKept(list: seq<CryptoPolicy>, cps: seq<CryptoPolicy>)
    requires DistinctWireIds(list) && AddPolicies(list, cps).Some?
    ensures var all := AddPolicies(list, cps).value;
            DistinctWireIds(all) && forall i | 0 <= i < |cps| :: SameButId(all[|list| + i], cps[i])
    decreases |cps|
  {
    hide SameButId, DistinctWireIds, AddPolicy;
    if cps != [] {
      var n := |cps| - 1;
      PoliciesKept(list, cps[..n]);
      PolicyKept(AddPolicies(list, cps[..n]).value, cps[n]);
    }
  }

  // --- profiles ----------------------------------------------------------------------------

  predicate InRange(i: int, bound: nat) { 0 <= i < bound }

  /** The new positions of the entries of a profile that are in range, in order and at most limit of them. */
  function Remapped(indices: seq<int>, position: seq<nat>, limit: nat): (r: seq<int>)
    ensures |r| <= limit
    decreases |indices|
  {
    if indices == [] then []
    else
      var n := |indices| - 1;
      var before := Remapped(indices[..n], position, limit);
      if InRange(indices[n], |position|) && |before| < limit then before + [position[indices[n]]] else before
  }

  /** The weights travel with the WAN entries. */
  function RemappedWeights(indices: seq<int>, weights: seq<int>, position: seq<nat>, limit: nat): (r: seq<int>)
    requires |weights| == |indices|
    ensures |r| == |Remapped(indices, position, limit)|
    decreases |indices|
  {
    if indices == [] then []
    else
      var n := |indices| - 1;
      var before := RemappedWeights(indices[..n], weights[..n], position, limit);
      if InRange(indices[n], |position|) && |before| < limit then before + [weights[n]] else before
  }

  /** Position of the i-th source policy: they are appended as a block. */
  function Block(base: nat, n: nat): (r: seq<nat>)
    ensures |r| == n && forall i | 0 <= i < n :: r[i] == base + i
  {
    seq(n, i requires 0 <= i < n => base + i)
  }

  /** Names are cut to what the destination can hold. */
  function CutName(name: string): string { if |name| > 63 then name[..63] else name }

  function RemappedProfile(p: Profile, localPos: seq<nat>, wanPos: seq<nat>, policyPos: seq<nat>): Profile
    requires |p.weights| == |p.wans|
  {
    Profile(p.id, CutName(p.name), p.enabled,
            Remapped(p.locals, localPos, MAX_PROFILE_INTERFACES),
            Remapped(p.wans, wanPos, MAX_PROFILE_INTERFACES),
            RemappedWeights(p.wans, p.weights, wanPos, MAX_PROFILE_INTERFACES),
            Remapped(p.policies, policyPos, MAX_CRYPTO_POLICIES))
  }

  predicate WellFormed(c: AppConfig)
  {
    forall i | 0 <= i < |c.profiles| ::
      |c.profiles[i].weights| == |c.profiles[i].wans| && |c.profiles[i].policies| <= MAX_CRYPTO_POLICIES
  }

  /** One source merged into dst; None is the error return. */
  function MergeOne(dst: AppConfig, src: AppConfig): Option<AppConfig>
    requires WellFormed(src)
  {
    var locals := AddInterfaces(dst.locals, src.locals);
    var wans := AddInterfaces(dst.wans, src.wans);
    var policies := AddPolicies(dst.policies, src.policies);
    if locals.None? || wans.None? || policies.None? then None
    else if src.profiles != [] && |dst.profiles| + |src.profiles| > MAX_PROFILES then None
    else
      Some(AppConfig(locals.value.0, wans.value.0, policies.value,
                     dst.profiles + seq(|src.profiles|, i requires 0 <= i < |src.profiles| =>
                       RemappedProfile(src.profiles[i], locals.value.1, wans.value.1,
                                       Block(|dst.policies|, |src.policies|)))))
  }

  // --- meaning -----------------------------------------------------------------------------

  /** A selected policy at its new position. */
  function Shifted(r: Option<nat>, base: nat): Option<nat>
  {
    if r.None? then None else Some(base + r.value)
  }

  /** Selection does not look at wire ids. */
  lemma IdIrrelevant(a: CryptoPolicy, b: CryptoPolicy, p: PacketKey)
    requires SameButId(a, b)
    ensures MatchEither(a, p) == MatchEither(b, p) && a.protocol == b.protocol
  {
    var x, y := a.(id := 0), b.(id := 0);
    assert a == x.(id := a.id) && b == y.(id := b.id);
  }

  /** Entries out of range are skipped by selection, so that leaving them out changes nothing. */
  lemma {:induction false} FitAppend(policies: seq<CryptoPolicy>, a: seq<int>, b: seq<int>, p: PacketKey,
                                     specific: bool, k: nat)
    requires k <= |a|
    ensures FirstFit(policies, a + b, p, specific, k)
         == if FirstFit(policies, a, p, specific, k).Some? then FirstFit(policies, a, p, specific, k)
            else FirstFit(policies, b, p, specific, 0)
    decreases |a| - k
  {
    hide Fits;
    if k < |a| {
      FitAppend(policies, a, b, p, specific, k + 1);
    } else {
      FitDrop(policies, a, b, p, specific, 0);
    }
  }

  lemma {:induction false} FitDrop(policies: seq<CryptoPolicy>, a: seq<int>, b: seq<int>, p: PacketKey,
                                   specific: bool, k: nat)
    requires k <= |b|
    ensures FirstFit(policies, a + b, p, specific, |a| + k) == FirstFit(policies, b, p, specific, k)
    decreases |b| - k
  {
    hide Fits;
    if k < |b| {
      FitDrop(policies, a, b, p, specific, k + 1);
    }
  }

  /** One pass over a remapped profile finds the policy the source pass finds, at its new position. */
  lemma {:induction false} FitRemapped(dst: seq<CryptoPolicy>, src: seq<CryptoPolicy>, base: nat, indices: seq<int>,
                                       p: PacketKey, specific: bool)
    requires base + |src| <= |dst| && forall i | 0 <= i < |src| :: SameButId(dst[base + i], src[i])
    requires |indices| <= MAX_CRYPTO_POLICIES
    ensures FirstFit(dst, Remapped(indices, Block(base, |src|), MAX_CRYPTO_POLICIES), p, specific, 0)
         == Shifted(FirstFit(src, indices, p, specific, 0), base)
    ensures |Remapped(indices, Block(base, |src|), MAX_CRYPTO_POLICIES)| <= |indices|
    decreases |indices|
  {
    hide Fits, SameButId, Block;
    if indices != [] {
      var n := |indices| - 1;
      var front, last := indices[..n], indices[n];
      FitRemapped(dst, src, base, front, p, specific);
      FitAppend(src, front, [last], p, specific, 0);
      assert indices == front + [last];
      var mapped := Remapped(front, Block(base, |src|), MAX_CRYPTO_POLICIES);
      if InRange(last, |src|) {
        FitAppend(dst, mapped, [base + last], p, specific, 0);
        FitsShifted(dst, src, base, last, p, specific);
        SingleFit(dst, base + last, p, specific);
      } else {
        OutOfRange(src, last, p, specific);
      }
      SingleFit(src, last, p, specific);
    }
  }

  lemma SingleFit(policies: seq<CryptoPolicy>, pi: int, p: PacketKey, specific: bool)
    ensures FirstFit(policies, [pi], p, specific, 0) == if Fits(policies, pi, p, specific) then Some(pi) else None
  {
    hide Fits;
  }

  lemma OutOfRange(policies: seq<CryptoPolicy>, pi: int, p: PacketKey, specific: bool)
    requires !InRange(pi, |policies|)
    ensures !Fits(policies, pi, p, specific)
  {}

  lemma FitsShifted(dst: seq<CryptoPolicy>, src: seq<CryptoPolicy>, base: nat, pi: nat, p: PacketKey, specific: bool)
    requires base + |src| <= |dst| && pi < |src| && SameButId(dst[base + pi], src[pi])
    ensures Fits(dst, base + pi, p, specific) == Fits(src, pi, p, specific)
  {
    hide MatchEither, SameButId;
    IdIrrelevant(dst[base + pi], src[pi], p);
  }

  /** The parts of a merged configuration. */
  lemma MergedParts(dst: AppConfig, src: AppConfig)
    requires WellFormed(src) && MergeOne(dst, src).Some?
    ensures var m := MergeOne(dst, src).value;
            && AddPolicies(dst.policies, src.policies) == Some(m.policies) && dst.policies <= m.policies
            && |m.policies| == |dst.policies| + |src.policies| && |m.profiles| == |dst.profiles| + |src.profiles|
            && (forall i | 0 <= i < |dst.profiles| :: m.profiles[i] == dst.profiles[i])
            && (forall i | 0 <= i < |src.profiles| ::
                  m.profiles[|dst.profiles| + i].policies
                  == Remapped(src.profiles[i].policies, Block(|dst.policies|, |src.policies|), MAX_CRYPTO_POLICIES))
  {
    hide Remapped, RemappedWeights, Block, AddInterfaces, CutName;
  }

  /** Profile at of the merged configuration gives the packet the policy that profile i of the source gives it: base
      positions later, equal apart from its wire id. */
  predicate SelectsAlike(src: AppConfig, i: nat, m: AppConfig, at: nat, base: nat, p: PacketKey)
    requires i < |src.profiles| && at < |m.profiles|
  {
    var mine := Select(src.policies, src.profiles[i].policies, p);
    var theirs := Select(m.policies, m.profiles[at].policies, p);
    theirs == Shifted(mine, base) && (mine.Some? ==> SameButId(m.policies[theirs.value], src.policies[mine.value]))
  }

  /** Merging preserves meaning: in the merged configuration every packet gets, in every profile of the source, the
      policy the source gave it, equal apart from its wire id. */
  lemma MergePreservesSelection(dst: AppConfig, src: AppConfig, i: nat, p: PacketKey)
    requires WellFormed(src) && DistinctWireIds(dst.policies) && MergeOne(dst, src).Some? && i < |src.profiles|
    ensures |MergeOne(dst, src).value.profiles| == |dst.profiles| + |src.profiles|
    ensures SelectsAlike(src, i, MergeOne(dst, src).value, |dst.profiles| + i, |dst.policies|, p)
  {
    hide SameButId, DistinctWireIds, Remapped, Block, MergeOne, FirstFit, AddPolicies;
    MergedParts(dst, src);
    var m := MergeOne(dst, src).value;
    PoliciesKept(dst.policies, src.policies);
    FitRemapped(m.policies, src.policies, |dst.policies|, src.profiles[i].policies, p, true);
    FitRemapped(m.policies, src.policies, |dst.policies|, src.profiles[i].policies, p, false);
  }

  predicate AllInRange(indices: seq<int>, bound: nat)
  {
    forall j | 0 <= j < |indices| :: InRange(indices[j], bound)
  }

  /** The entries of every profile name policies of the list. */
  predicate EntriesInRange(c: AppConfig)
  {
    forall i | 0 <= i < |c.profiles| :: AllInRange(c.profiles[i].policies, |c.policies|)
  }

  lemma {:induction false} RemappedInRange(indices: seq<int>, base: nat, n: nat, limit: nat)
    ensures AllInRange(Remapped(indices, Block(base, n), limit), base + n)
    decreases |indices|
  {
    if indices != [] {
      RemappedInRange(indices[..|indices| - 1], base, n, limit);
    }
  }

  lemma {:induction false} FitPrefix(policies: seq<CryptoPolicy>, longer: seq<CryptoPolicy>, indices: seq<int>,
                                     p: PacketKey, specific: bool, k: nat)
    requires policies <= longer && k <= |indices| && AllInRange(indices, |policies|)
    ensures FirstFit(longer, indices, p, specific, k) == FirstFit(policies, indices, p, specific, k)
    decreases |indices| - k
  {
    hide MatchEither;
    if k < |indices| {
      FitPrefix(policies, longer, indices, p, specific, k + 1);
      assert InRange(indices[k], |policies|) && longer[indices[k]] == policies[indices[k]];
    }
  }

  lemma SelectPrefix(policies: seq<CryptoPolicy>, longer: seq<CryptoPolicy>, indices: seq<int>, p: PacketKey)
    requires policies <= longer && AllInRange(indices, |policies|)
    ensures Select(longer, indices, p) == Select(policies, indices, p)
  {
    FitPrefix(policies, longer, indices, p, true, 0);
    FitPrefix(policies, longer, indices, p, false, 0);
  }

  /** A further merge does not disturb what is already there, and keeps what merging relies on. */
  lemma MergeKeepsEarlier(dst: AppConfig, src: AppConfig)
    requires WellFormed(src) && DistinctWireIds(dst.policies) && EntriesInRange(dst) && MergeOne(dst, src).Some?
    ensures var m := MergeOne(dst, src).value;
            && DistinctWireIds(m.policies) && EntriesInRange(m)
            && dst.policies <= m.policies && dst.profiles <= m.profiles
            && forall i, p | 0 <= i < |dst.profiles| ::
                 Select(m.policies, dst.profiles[i].policies, p) == Select(dst.policies, dst.profiles[i].policies, p)
  {
    hide DistinctWireIds, MergeOne, Select, Remapped, Block, AddPolicies;
    var m := MergeOne(dst, src).value;
    MergedParts(dst, src);
    PoliciesKept(dst.policies, src.policies);
    forall i, p | 0 <= i < |dst.profiles|
      ensures Select(m.policies, dst.profiles[i].policies, p) == Select(dst.policies, dst.profiles[i].policies, p)
    {
      SelectPrefix(dst.policies, m.policies, dst.profiles[i].policies, p);
    }
    forall i | 0 <= i < |m.profiles| ensures AllInRange(m.profiles[i].policies, |m.policies|) {
      if i >= |dst.profiles| {
        RemappedInRange(src.profiles[i - |dst.profiles|].policies, |dst.policies|, |src.policies|, MAX_CRYPTO_POLICIES);
      }
    }
  }

  // --- merging a list of sources -------------------------------------------------------------

  const EMPTY := AppConfig([], [], [], [])

  /** The merge loop: the first n sources merged in order. */
  function MergeFirst(srcs: seq<AppConfig>, n: nat): Option<AppConfig>
    requires n <= |srcs| && forall i | 0 <= i < |srcs| :: WellFormed(srcs[i])
  {
    if n == 0 then Some(EMPTY)
    else
      var before := MergeFirst(srcs, n - 1);
      if before.None? then None else MergeOne(before.value, srcs[n - 1])
  }

  lemma {:induction false} MergeFirstSound(srcs: seq<AppConfig>, n: nat)
    requires n <= |srcs| && (forall i | 0 <= i < |srcs| :: WellFormed(srcs[i])) && MergeFirst(srcs, n).Some?
    ensures var m := MergeFirst(srcs, n).value; DistinctWireIds(m.policies) && EntriesInRange(m)
  {
    hide DistinctWireIds, MergeOne, WellFormed;
    if n > 0 {
      MergeFirstSound(srcs, n - 1);
      MergeKeepsEarlier(MergeFirst(srcs, n - 1).value, srcs[n - 1]);
    } else {
      NoPolicies();
    }
  }

  lemma NoPolicies()
    ensures DistinctWireIds([])
  {}

  /** Where the profiles and policies of source k begin in any merge that goes further. */
  lemma {:induction false} MergeFirstPrefix(srcs: seq<AppConfig>, k: nat, n: nat)
    requires k <= n <= |srcs| && (forall i | 0 <= i < |srcs| :: WellFormed(srcs[i])) && MergeFirst(srcs, n).Some?
    ensures MergeFirst(srcs, k).Some?
    ensures var a, b := MergeFirst(srcs, k).value, MergeFirst(srcs, n).value;
            && a.policies <= b.policies && a.profiles <= b.profiles
            && forall i, p | 0 <= i < |a.profiles| ::
                 Select(b.policies, a.profiles[i].policies, p) == Select(a.policies, a.profiles[i].policies, p)
  {
    hide DistinctWireIds, MergeOne, WellFormed, Select, EntriesInRange;
    if k < n {
      MergeFirstPrefix(srcs, k, n - 1);
      MergeFirstSound(srcs, n - 1);
      MergeKeepsEarlier(MergeFirst(srcs, n - 1).value, srcs[n - 1]);
    }
  }

  /** What holds after one merge holds after any further ones. */
  lemma CarriedOver(src: AppConfig, i: nat, a: AppConfig, b: AppConfig, at: nat, base: nat, p: PacketKey)
    requires i < |src.profiles| && at < |a.profiles| && a.policies <= b.policies && a.profiles <= b.profiles
    requires Select(b.policies, a.profiles[at].policies, p) == Select(a.policies, a.profiles[at].policies, p)
    requires SelectsAlike(src, i, a, at, base, p)
    ensures SelectsAlike(src, i, b, at, base, p)
  {
    hide Select, SameButId;
    var theirs := Select(a.policies, a.profiles[at].policies, p);
    assert b.profiles[at] == a.profiles[at];
    assert theirs.Some? ==> b.policies[theirs.value] == a.policies[theirs.value];
  }

  /** Over the whole merge: every profile of every source selects, for every packet, the policy its source selects,
      equal apart from the wire id; and the wire ids of the result are pairwise distinct in 1..255. */
  lemma MergeAllPreserves(srcs: seq<AppConfig>, k: nat, i: nat, p: PacketKey)
    requires (forall j | 0 <= j < |srcs| :: WellFormed(srcs[j])) && MergeFirst(srcs, |srcs|).Some?
    requires k < |srcs| && i < |srcs[k].profiles|
    ensures MergeFirst(srcs, k).Some?
    ensures var m, before := MergeFirst(srcs, |srcs|).value, MergeFirst(srcs, k).value;
            var at := |before.profiles| + i;
            && DistinctWireIds(m.policies) && at < |m.profiles|
            && SelectsAlike(srcs[k], i, m, at, |before.policies|, p)
  {
    hide DistinctWireIds, MergeOne, WellFormed, Select, EntriesInRange, SameButId, SelectsAlike;
    MergeFirstPrefix(srcs, k, |srcs|);
    MergeFirstPrefix(srcs, k + 1, |srcs|);
    MergeFirstSound(srcs, k);
    MergeFirstSound(srcs, |srcs|);
    var before := MergeFirst(srcs, k).value;
    MergePreservesSelection(before, srcs[k], i, p);
    CarriedOver(srcs[k], i, MergeFirst(srcs, k + 1).value, MergeFirst(srcs, |srcs|).value, |before.profiles| + i,
                |before.policies|, p);
  }
}
