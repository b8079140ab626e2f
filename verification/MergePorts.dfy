/** A LAN port that belongs to one source only: in the merged configuration its packets find the same profile and get
    the same policy as in the source alone. */
module MergePorts {
  import opened Bytes
  import opened Config
  import opened PolicySelect
  import opened Merge

  /** The policy of a packet that arrives at a LAN port: first the profile of the port, then its selection. */
  function SelectForLocal(c: AppConfig, local: nat, p: PacketKey): (r: Option<nat>)
    ensures r.Some? ==> r.value < |c.policies|
  {
    var pi := FirstProfile(c.profiles, local, 0);
    if local >= |c.locals| || pi.None? then None else Select(c.policies, c.profiles[pi.value].policies, p)
  }

  predicate Named(list: seq<Interface>, name: string)
  {
    exists i | 0 <= i < |list| :: list[i].ifname == name
  }

  /** The interface entries of every profile name interfaces of the list. */
  predicate LocalsInRange(c: AppConfig)
  {
    forall i | 0 <= i < |c.profiles| :: AllInRange(c.profiles[i].locals, |c.locals|)
  }

  predicate FewLocals(c: AppConfig)
  {
    forall i | 0 <= i < |c.profiles| :: |c.profiles[i].locals| <= MAX_PROFILE_INTERFACES
  }

  /** Only the entry for li is mapped to the position of li. */
  lemma {:induction false} RemappedMember(indices: seq<int>, pos: seq<nat>, limit: nat, x: nat, li: int)
    requires |indices| <= limit
    requires forall i | 0 <= i < |pos| :: pos[i] == x <==> i == li
    requires 0 <= li < |pos|
    ensures x in Remapped(indices, pos, limit) <==> li in indices
    ensures |Remapped(indices, pos, limit)| <= |indices|
    decreases |indices|
  {
    if indices != [] {
      var n := |indices| - 1;
      RemappedMember(indices[..n], pos, limit, x, li);
      assert indices == indices[..n] + [indices[n]];
    }
  }

  /** Nothing is mapped to a position that no source interface has. */
  lemma {:induction false} RemappedAvoids(indices: seq<int>, pos: seq<nat>, limit: nat, x: nat)
    requires forall i | 0 <= i < |pos| :: pos[i] != x
    ensures x !in Remapped(indices, pos, limit)
    decreases |indices|
  {
    if indices != [] {
      RemappedAvoids(indices[..|indices| - 1], pos, limit, x);
    }
  }

  lemma {:induction false} RemappedBelow(indices: seq<int>, pos: seq<nat>, limit: nat, bound: nat)
    requires forall i | 0 <= i < |pos| :: pos[i] < bound
    ensures AllInRange(Remapped(indices, pos, limit), bound)
    decreases |indices|
  {
    if indices != [] {
      RemappedBelow(indices[..|indices| - 1], pos, limit, bound);
    }
  }

  lemma {:induction false} SkipProfiles(profiles: seq<Profile>, x: int, k: nat, base: nat)
    requires k <= base <= |profiles| && forall i | k <= i < base :: x !in profiles[i].locals
    ensures FirstProfile(profiles, x, k) == FirstProfile(profiles, x, base)
    decreases base - k
  {
    if k < base {
      SkipProfiles(profiles, x, k + 1, base);
    }
  }

  lemma {:induction false} ProfilesShifted(merged: seq<Profile>, src: seq<Profile>, base: nat, x: int, li: int, k: nat)
    requires |merged| == base + |src| && k <= |src|
    requires forall i | 0 <= i < |src| ::
               merged[base + i].enabled == src[i].enabled && (x in merged[base + i].locals <==> li in src[i].locals)
    ensures FirstProfile(merged, x, base + k) == Shifted(FirstProfile(src, li, k), base)
    decreases |src| - k
  {
    if k < |src| {
      ProfilesShifted(merged, src, base, x, li, k + 1);
    }
  }

  /** The profiles a merge appends, as far as LAN ports are concerned. */
  lemma MergedLocals(dst: AppConfig, src: AppConfig)
    requires WellFormed(src) && MergeOne(dst, src).Some?
    ensures var m := MergeOne(dst, src).value;
            var r := AddInterfaces(dst.locals, src.locals);
            && r.Some? && r.value.0 == m.locals && |m.profiles| == |dst.profiles| + |src.profiles|
            && (forall i | 0 <= i < |src.profiles| ::
                  m.profiles[|dst.profiles| + i].enabled == src.profiles[i].enabled
                  && m.profiles[|dst.profiles| + i].locals
                     == Remapped(src.profiles[i].locals, r.value.1, MAX_PROFILE_INTERFACES))
  {
    hide Remapped, RemappedWeights, Block, AddInterfaces, CutName, AddPolicies;
  }

  /** An interface with a new name gets a position of its own behind the old ones. */
  lemma {:induction false} NewPosition(list: seq<Interface>, xs: seq<Interface>, li: nat)
    requires DistinctNames(list) && DistinctNames(xs) && AddInterfaces(list, xs).Some?
    requires li < |xs| && !Named(list, xs[li].ifname)
    ensures var (all, pos) := AddInterfaces(list, xs).value;
            var x := IndexOfName(all, xs[li].ifname);
            |list| <= x < |all| && forall i | 0 <= i < |pos| :: pos[i] == x <==> i == li
  {
    hide AddInterfaces;
    InterfacesKept(list, xs);
    var (all, pos) := AddInterfaces(list, xs).value;
    assert forall i | 0 <= i < |list| :: all[i] == list[i];
  }

  /** A port new to the destination keeps its packets' policies through the merge. */
  lemma MergePreservesPort(dst: AppConfig, src: AppConfig, li: nat, p: PacketKey)
    requires WellFormed(src) && FewLocals(src) && DistinctNames(src.locals) && MergeOne(dst, src).Some?
    requires DistinctWireIds(dst.policies) && DistinctNames(dst.locals) && LocalsInRange(dst)
    requires li < |src.locals| && !Named(dst.locals, src.locals[li].ifname)
    ensures var m := MergeOne(dst, src).value;
            var x := IndexOfName(m.locals, src.locals[li].ifname);
            x < |m.locals| && SelectForLocal(m, x, p) == Shifted(SelectForLocal(src, li, p), |dst.policies|)
  {
    hide MergeOne, Remapped, DistinctWireIds, Select, WellFormed, AddInterfaces, IndexOfName, DistinctNames, Named;
    var m := MergeOne(dst, src).value;
    MergedParts(dst, src);
    MergedLocals(dst, src);
    NewPosition(dst.locals, src.locals, li);
    var pos := AddInterfaces(dst.locals, src.locals).value.1;
    var x := IndexOfName(m.locals, src.locals[li].ifname);
    forall i | 0 <= i < |dst.profiles| ensures x !in m.profiles[i].locals {
      assert AllInRange(dst.profiles[i].locals, |dst.locals|);
    }
    SkipProfiles(m.profiles, x, 0, |dst.profiles|);
    forall i | 0 <= i < |src.profiles|
      ensures x in m.profiles[|dst.profiles| + i].locals <==> li in src.profiles[i].locals
    {
      RemappedMember(src.profiles[i].locals, pos, MAX_PROFILE_INTERFACES, x, li);
    }
    ProfilesShifted(m.profiles, src.profiles, |dst.profiles|, x, li, 0);
    var pi := FirstProfile(src.profiles, li, 0);
    if pi.Some? {
      MergePreservesSelection(dst, src, pi.value, p);
      assert SelectsAlike(src, pi.value, m, |dst.profiles| + pi.value, |dst.policies|, p);
    }
  }

  /** A source without that port does not change it. */
  lemma MergeKeepsPort(dst: AppConfig, src: AppConfig, x: nat, p: PacketKey)
    requires WellFormed(src) && MergeOne(dst, src).Some?
    requires DistinctWireIds(dst.policies) && EntriesInRange(dst) && DistinctNames(dst.locals)
    requires x < |dst.locals| && !Named(src.locals, dst.locals[x].ifname)
    ensures var m := MergeOne(dst, src).value;
            && dst.locals <= m.locals && SelectForLocal(m, x, p) == SelectForLocal(dst, x, p)
  {
    hide MergeOne, Remapped, DistinctWireIds, Select, WellFormed, AddInterfaces, EntriesInRange;
    var m := MergeOne(dst, src).value;
    MergedParts(dst, src);
    MergedLocals(dst, src);
    var pos := AddInterfaces(dst.locals, src.locals).value.1;
    InterfacesKept(dst.locals, src.locals);
    assert m.locals[x] == dst.locals[x];
    forall i | |dst.profiles| <= i < |m.profiles| ensures x !in m.profiles[i].locals {
      RemappedAvoids(src.profiles[i - |dst.profiles|].locals, pos, MAX_PROFILE_INTERFACES, x);
    }
    MergeKeepsEarlier(dst, src);
    FirstProfilePrefix(dst.profiles, m.profiles, x, 0);
  }

  lemma {:induction false} FirstProfilePrefix(profiles: seq<Profile>, longer: seq<Profile>, x: int, k: nat)
    requires profiles <= longer && k <= |profiles|
    requires forall i | |profiles| <= i < |longer| :: x !in longer[i].locals
    ensures FirstProfile(longer, x, k) == FirstProfile(profiles, x, k)
    decreases |profiles| - k
  {
    if k < |profiles| {
      FirstProfilePrefix(profiles, longer, x, k + 1);
      assert longer[k] == profiles[k];
    } else {
      SkipProfiles(longer, x, k, |longer|);
    }
  }

  // --- the whole merge -----------------------------------------------------------------------

  predicate Sources(srcs: seq<AppConfig>)
  {
    forall i | 0 <= i < |srcs| :: WellFormed(srcs[i]) && FewLocals(srcs[i]) && DistinctNames(srcs[i].locals)
  }

  /** What holds after every merge: names are distinct and all entries in range. */
  lemma {:induction false} MergeFirstLocals(srcs: seq<AppConfig>, n: nat, name: string)
    requires Sources(srcs) && n <= |srcs| && MergeFirst(srcs, n).Some?
    ensures var m := MergeFirst(srcs, n).value;
            && DistinctNames(m.locals) && LocalsInRange(m)
            && (Named(m.locals, name) ==> exists k | 0 <= k < n :: Named(srcs[k].locals, name))
  {
    hide MergeOne, DistinctNames, WellFormed, Named;
    if n > 0 {
      MergeFirstLocals(srcs, n - 1, name);
      var dst, src := MergeFirst(srcs, n - 1).value, srcs[n - 1];
      OneMoreLocals(dst, src, name);
    } else {
      NoInterfaces(name);
    }
  }

  lemma NoInterfaces(name: string)
    ensures DistinctNames([]) && !Named([], name)
  {}

  lemma OneMoreLocals(dst: AppConfig, src: AppConfig, name: string)
    requires WellFormed(src) && MergeOne(dst, src).Some? && DistinctNames(dst.locals) && LocalsInRange(dst)
    ensures var m := MergeOne(dst, src).value;
            && DistinctNames(m.locals) && LocalsInRange(m)
            && (Named(m.locals, name) ==> Named(dst.locals, name) || Named(src.locals, name))
  {
    hide MergeOne, Remapped, WellFormed, AddInterfaces;
    var m := MergeOne(dst, src).value;
    MergedParts(dst, src);
    MergedLocals(dst, src);
    InterfacesKept(dst.locals, src.locals);
    NamesFrom(dst.locals, src.locals, name);
    var pos := AddInterfaces(dst.locals, src.locals).value.1;
    forall i | 0 <= i < |m.profiles| ensures AllInRange(m.profiles[i].locals, |m.locals|) {
      if i < |dst.profiles| {
        assert AllInRange(dst.profiles[i].locals, |dst.locals|);
        Widen(dst.profiles[i].locals, |dst.locals|, |m.locals|);
      } else {
        RemappedBelow(src.profiles[i - |dst.profiles|].locals, pos, MAX_PROFILE_INTERFACES, |m.locals|);
      }
    }
  }

  lemma Widen(indices: seq<int>, a: nat, b: nat)
    requires AllInRange(indices, a) && a <= b
    ensures AllInRange(indices, b)
  {
    assert forall j | 0 <= j < |indices| :: InRange(indices[j], a) ==> InRange(indices[j], b);
  }

  lemma {:induction false} NamesFrom(list: seq<Interface>, xs: seq<Interface>, name: string)
    requires AddInterfaces(list, xs).Some?
    ensures Named(AddInterfaces(list, xs).value.0, name) ==> Named(list, name) || Named(xs, name)
    decreases |xs|
  {
    if xs != [] {
      var n := |xs| - 1;
      NamesFrom(list, xs[..n], name);
      assert forall i | 0 <= i < n :: xs[..n][i] == xs[i];
    }
  }

  /** A LAN port named by one source only: however many sources are merged around it, its packets get the policy they
      get in their own source, base positions later. */
  lemma {:induction false} PortKeepsPolicies(srcs: seq<AppConfig>, k: nat, li: nat, n: nat, p: PacketKey)
    requires Sources(srcs) && k < n <= |srcs| && MergeFirst(srcs, n).Some? && li < |srcs[k].locals|
    requires forall j | 0 <= j < n && j != k :: !Named(srcs[j].locals, srcs[k].locals[li].ifname)
    ensures MergeFirst(srcs, k).Some?
    ensures var m, base := MergeFirst(srcs, n).value, |MergeFirst(srcs, k).value.policies|;
            var x := IndexOfName(m.locals, srcs[k].locals[li].ifname);
            x < |m.locals| && SelectForLocal(m, x, p) == Shifted(SelectForLocal(srcs[k], li, p), base)
  {
    hide MergeOne, DistinctNames, WellFormed, SelectForLocal, DistinctWireIds, EntriesInRange, LocalsInRange,
         IndexOfName;
    var name := srcs[k].locals[li].ifname;
    MergeFirstSound(srcs, n - 1);
    MergeFirstLocals(srcs, n - 1, name);
    var dst, src := MergeFirst(srcs, n - 1).value, srcs[n - 1];
    if n == k + 1 {
      MergePreservesPort(dst, src, li, p);
    } else {
      PortKeepsPolicies(srcs, k, li, n - 1, p);
      var x := IndexOfName(dst.locals, name);
      MergeKeepsPort(dst, src, x, p);
      SameIndex(dst.locals, MergeOne(dst, src).value.locals, name);
    }
  }

  lemma {:induction false} SameIndex(list: seq<Interface>, longer: seq<Interface>, name: string)
    requires list <= longer && IndexOfName(list, name) < |list|
    ensures IndexOfName(longer, name) == IndexOfName(list, name)
  {
    if list[0].ifname != name {
      SameIndex(list[1..], longer[1..], name);
    }
  }
}
