/** The flow table: which WAN a flow uses, how many bytes it has sent there, and when it moves on. */
module FlowTable {
  import opened Basics
  import opened Bytes
  import opened Chains
  import opened FlowKeys
  import opened WeightedRoundRobin

  const TIMEOUT_SEC := 60
  const MAX_INTERFACES := 16

  /** Flows without a profile are keyed by the address pair alone, flows of a profile by the whole tuple. */
  datatype FlowKey = IpPair(a: uint32, b: uint32) | FiveTuple(t: Tuple, proto: uint8)

  datatype Flow = Flow(byteCount: uint32, currentWan: int, wrrSlot: int, lastSeen: uint64)

  function KeyHash(k: FlowKey): (h: nat)
    ensures h < TABLE_SIZE
  {
    match k
    case IpPair(a, b) => IpsHash(a, b)
    case FiveTuple(t, proto) => TupleHash(t, proto)
  }

  function PairKey(t: Tuple): FlowKey
  {
    var (a, b) := NormalizedIps(t.srcIp, t.dstIp);
    IpPair(a, b)
  }

  function ProfileKey(t: Tuple, proto: uint8): FlowKey { FiveTuple(Normalized(t), proto) }

  /** Both directions of a flow use the same entry; entries of different flows are never confused. */
  lemma KeysIff(t: Tuple, p: uint8, u: Tuple, q: uint8)
    ensures ProfileKey(t, p) == ProfileKey(u, q) <==> p == q && (t == u || t == u.Swapped())
    ensures PairKey(t) == PairKey(u) <==>
              (t.srcIp == u.srcIp && t.dstIp == u.dstIp) || (t.srcIp == u.dstIp && t.dstIp == u.srcIp)
    ensures ProfileKey(t, p) != PairKey(u)
  {
    NormalizedIff(t, u);
    NormalizedIpsIff(t.srcIp, t.dstIp, u.srcIp, u.dstIp);
  }

  // --- the next WAN in turn ----------------------------------------------------------------

  /** Signed 32-bit, as the global counter next_wan. */
  type int32 = x: int | -0x8000_0000 <= x < 0x8000_0000

  function Increment(w: int32): int32 { if w == 0x7FFF_FFFF then -0x8000_0000 else w + 1 }

  /** The smallest counter value has no positive counterpart and stays negative. */
  function NextWan(w: int32, count: int): int
  {
    if count <= 0 then 0 else TruncMod(if w < 0 && w != -0x8000_0000 then -w else w, count)
  }

  /** Only the minimum of the counter can fail to give a position. */
  predicate CanDraw(w: int32, count: int)
    requires count > 0
  {
    w != -0x8000_0000 || 0x8000_0000 % count == 0
  }

  lemma NextWanInRange(w: int32, count: int)
    requires count > 0
    ensures 0 <= NextWan(w, count) < count <==> CanDraw(w, count)
    ensures NextWan(w, count) < count
  {
    TruncModRange(-0x8000_0000, count);
  }

  lemma TruncModRange(a: int, m: int)
    requires a <= 0 < m
    ensures 0 < TruncMod(a, m) + m <= m && (TruncMod(a, m) == 0 <==> (-a) % m == 0)
  {}

  /** Where it happens: after 2^31 new flows, with three WANs. */
  lemma NextWanNegative()
    ensures NextWan(-0x8000_0000, 3) == -2
  {}

  // --- one packet of a flow ------------------------------------------------------------------

  datatype Windows = Windows(wanCount: int, sizes: seq<uint32>)
  {
    predicate Valid() { |sizes| == MAX_INTERFACES && wanCount <= MAX_INTERFACES }

    /** Bytes after which a flow leaves the WAN; 0 means never. */
    function Limit(wan: int): uint32
      requires Valid()
    {
      if 0 <= wan < wanCount then sizes[wan] else 0
    }
  }

  function Counted(f: Flow, len: uint32, now: uint64): Flow
  {
    f.(lastSeen := now, byteCount := (f.byteCount + len) % 0x1_0000_0000)
  }

  predicate WindowFull(w: Windows, f: Flow)
    requires w.Valid()
  {
    w.Limit(f.currentWan) > 0 && f.byteCount >= w.Limit(f.currentWan)
  }

  /** A known flow without a profile: the next WAN in order when the window is full. */
  function PairStep(w: Windows, f: Flow, len: uint32, now: uint64): Flow
    requires w.Valid()
  {
    var g := Counted(f, len, now);
    if WindowFull(w, g) then g.(byteCount := 0, currentWan := (g.currentWan + 1) % w.wanCount) else g
  }

  /** A flow that has once got a WAN keeps one, and a flow that has got none never will: without a window it never
      moves on. */
  lemma PairKeepsRange(w: Windows, f: Flow, len: uint32, now: uint64)
    requires w.Valid() && w.wanCount > 0
    ensures 0 <= PairStep(w, f, len, now).currentWan < w.wanCount <==> 0 <= f.currentWan < w.wanCount
    ensures !(0 <= f.currentWan < w.wanCount) ==> PairStep(w, f, len, now).currentWan == f.currentWan
  {}

  /** Position of a WAN among the allowed ones, or |allowed|. */
  function AllowedPos(wan: int, allowed: seq<int>): (p: nat)
    ensures p <= |allowed| && (p < |allowed| ==> allowed[p] == wan)
    ensures p == |allowed| <==> wan !in allowed
  {
    if allowed == [] || allowed[0] == wan then 0 else 1 + AllowedPos(wan, allowed[1..])
  }

  function SlotWan(slot: int, allowed: seq<int>, weights: seq<int>): (wan: int)
    requires |weights| == |allowed| && Total(weights) > 0
    ensures wan in allowed
  {
    var n := Total(weights);
    allowed[Owner(weights, (TruncMod(slot, n) + n) % n)]
  }

  /** A known flow of a profile: a WAN that is no longer allowed is left at once, a full window moves on by weight, or
      in order when no weight is positive. */
  function ProfileStep(w: Windows, f: Flow, len: uint32, now: uint64, allowed: seq<int>, weights: seq<int>): (g: Flow)
    requires w.Valid() && |weights| == |allowed| > 0
    ensures g.currentWan in allowed && g.lastSeen == now
  {
    var gone := AllowedPos(f.currentWan, allowed) == |allowed|;
    var h := if gone then f.(currentWan := allowed[0], byteCount := 0, wrrSlot := 0) else f;
    var g := Counted(h, len, now);
    if !WindowFull(w, g) then g
    else if Total(weights) > 0 then
      var slot := TruncMod(g.wrrSlot + 1, Total(weights));
      g.(byteCount := 0, wrrSlot := slot, currentWan := SlotWan(slot, allowed, weights))
    else g.(byteCount := 0, currentWan := allowed[(AllowedPos(g.currentWan, allowed) + 1) % |allowed|])
  }

  /** A new flow of a profile; next is the counter value it draws when the weights do not decide. */
  function ProfileFirst(k: FlowKey, len: uint32, now: uint64, allowed: seq<int>, weights: seq<int>, next: int32)
    : (g: Flow)
    requires |weights| == |allowed| > 0
    ensures g.currentWan in allowed && g.lastSeen == now
  {
    if Total(weights) > 0 then
      var slot := KeyHash(k) % Total(weights);
      Flow(len, SlotWan(slot, allowed, weights), slot, now)
    else
      var pick := NextWan(next, |allowed|);
      Flow(len, allowed[(if pick < 0 then 0 else pick) % |allowed|], 0, now)
  }

  /** A flow stays on its WAN as long as the bytes counted there, the new packet included, do not fill the window. */
  lemma StaysWithinWindow(w: Windows, f: Flow, len: uint32, now: uint64, allowed: seq<int>, weights: seq<int>)
    requires w.Valid() && |weights| == |allowed| > 0 && f.currentWan in allowed
    requires f.byteCount + len < w.Limit(f.currentWan)
    ensures ProfileStep(w, f, len, now, allowed, weights) == f.(lastSeen := now, byteCount := f.byteCount + len)
    ensures PairStep(w, f, len, now) == f.(lastSeen := now, byteCount := f.byteCount + len)
  {}

  /** The slot of a flow after k full windows. */
  function SlotAfter(slot: nat, total: nat, k: nat): (r: nat)
    requires total > 0
    ensures k > 0 ==> r < total
  {
    if k == 0 then slot else TruncMod(SlotAfter(slot, total, k - 1) + 1, total)
  }

  /** Moving on follows the same sequence as the per-packet picks, starting behind the flow's slot, and so is exactly as
      fair. */
  lemma {:induction false} RotationFollowsSequence(slot: nat, allowed: seq<int>, weights: seq<int>, k: nat)
    requires |weights| == |allowed| && Total(weights) > 0 && k > 0
    ensures SlotAfter(slot, Total(weights), k) == (slot + k) % Total(weights)
    ensures SlotWan(SlotAfter(slot, Total(weights), k), allowed, weights) == allowed[Chosen(weights, slot + k)]
  {
    hide Owner, Total;
    var n := Total(weights);
    if k > 1 {
      RotationFollowsSequence(slot, allowed, weights, k - 1);
      NextModulus(slot + k - 1, n);
    }
    SlotInRange((slot + k) % n, n);
  }

  lemma NextModulus(a: nat, n: nat)
    requires n > 0
    ensures (a % n + 1) % n == (a + 1) % n
  {
    var q, m := a / n, a % n;
    if m + 1 < n {
      ModUnique(a + 1, n, q, m + 1);
      ModUnique(m + 1, n, 0, m + 1);
    } else {
      assert a + 1 == (q + 1) * n;
      ModUnique(a + 1, n, q + 1, 0);
      ModUnique(m + 1, n, 1, 0);
    }
  }

  function StillActive(now: uint64): Flow -> bool
  {
    (f: Flow) => Elapsed(now, f.lastSeen) <= TIMEOUT_SEC
  }

  // --- the operations on the map of flows --------------------------------------------------

  /** The WAN a packet gets, and what is then in the table and in the counter. */
  datatype Answer = Answer(wan: int, flows: map<FlowKey, Flow>, next: int32)

  function Drawn(next: int32, count: int): int32 { if count <= 0 then next else Increment(next) }

  /** A packet of a flow without a profile; allocOk says whether a new entry can be allocated. */
  function PairAnswer(w: Windows, m: map<FlowKey, Flow>, next: int32, t: Tuple, len: uint32, now: uint64, allocOk: bool)
    : Answer
    requires w.Valid()
  {
    var k := PairKey(t);
    if k in m then
      var f := PairStep(w, m[k], len, now);
      Answer(f.currentWan, m[k := f], next)
    else if !allocOk then Answer(0, m, next)
    else
      var wan := NextWan(next, w.wanCount);
      Answer(wan, m[k := Flow(len, wan, 0, now)], Drawn(next, w.wanCount))
  }

  /** A packet of a flow with a choice of WANs. */
  function ChoiceAnswer(w: Windows, m: map<FlowKey, Flow>, next: int32, t: Tuple, proto: uint8, len: uint32,
                        now: uint64, allowed: seq<int>, weights: seq<int>, allocOk: bool): Answer
    requires w.Valid() && |weights| == |allowed| > 1
  {
    var k := ProfileKey(t, proto);
    if k in m then
      var f := ProfileStep(w, m[k], len, now, allowed, weights);
      Answer(f.currentWan, m[k := f], next)
    else if !allocOk then Answer(0, m, next)
    else
      var f := ProfileFirst(k, len, now, allowed, weights, next);
      Answer(f.currentWan, m[k := f], if Total(weights) > 0 then next else Drawn(next, |allowed|))
  }

  /** The entry point: without allowed WANs the flow has no profile, and with a single one there is no choice. */
  function ProfileAnswer(w: Windows, m: map<FlowKey, Flow>, next: int32, t: Tuple, proto: uint8, len: uint32,
                         now: uint64, allowed: seq<int>, weights: seq<int>, allocOk: bool): Answer
    requires w.Valid() && |weights| == |allowed|
  {
    if allowed == [] then PairAnswer(w, m, next, t, len, now, allocOk)
    else if |allowed| == 1 then Answer(allowed[0], m, next)
    else ChoiceAnswer(w, m, next, t, proto, len, now, allowed, weights, allocOk)
  }

  /** With a profile the WAN is an allowed one, unless a new entry is needed and cannot be allocated; and whatever the
      packet does, it touches no flow but its own. */
  lemma AnswerAllowed(w: Windows, m: map<FlowKey, Flow>, next: int32, t: Tuple, proto: uint8, len: uint32, now: uint64,
                      allowed: seq<int>, weights: seq<int>, allocOk: bool)
    requires w.Valid() && |weights| == |allowed|
    ensures var a := ProfileAnswer(w, m, next, t, proto, len, now, allowed, weights, allocOk);
            && (allowed != [] && (|allowed| == 1 || ProfileKey(t, proto) in m || allocOk) ==> a.wan in allowed)
            && (forall k | k != ProfileKey(t, proto) && k != PairKey(t) ::
                  (k in a.flows <==> k in m) && (k in a.flows ==> a.flows[k] == m[k]))
  {
    hide ProfileKey, PairKey, ProfileStep, ProfileFirst, PairStep, NextWan;
  }

  /** Every flow without a profile is on an existing WAN. */
  ghost predicate PairsInRange(count: int, m: map<FlowKey, Flow>)
  {
    forall k | k in m && k.IpPair? :: 0 <= m[k].currentWan < count
  }

  /** Without a profile, too, every packet gets an existing WAN and the table stays sound, exactly until a new flow
      draws at a counter that gives none; that flow then stays off the WANs. */
  lemma PairAnswerInRange(w: Windows, m: map<FlowKey, Flow>, next: int32, t: Tuple, len: uint32, now: uint64,
                          allocOk: bool)
    requires w.Valid() && w.wanCount > 0 && PairsInRange(w.wanCount, m)
    ensures var a := PairAnswer(w, m, next, t, len, now, allocOk);
            var draws := PairKey(t) !in m && allocOk;
            && (0 <= a.wan < w.wanCount <==> (draws ==> CanDraw(next, w.wanCount)))
            && (PairsInRange(w.wanCount, a.flows) <==> (draws ==> CanDraw(next, w.wanCount)))
  {
    hide PairKey, PairStep, NextWan, CanDraw;
    PairKeyIsPair(t);
    NextWanInRange(next, w.wanCount);
    var k := PairKey(t);
    var a := PairAnswer(w, m, next, t, len, now, allocOk);
    if k in m {
      PairKeepsRange(w, m[k], len, now);
    } else if allocOk {
      assert k in a.flows && a.flows[k].currentWan == a.wan;
    }
  }

  lemma PairKeyIsPair(t: Tuple)
    ensures PairKey(t).IpPair?
  {}

  class Table {
    const buckets: array<Chain<FlowKey, Flow>>
    const windows: Windows
    var nextWan: int32
    ghost var contents: map<FlowKey, Flow>

    ghost predicate Valid()
      reads this, buckets
    {
      && buckets.Length == TABLE_SIZE && windows.Valid()
      && Hashed(buckets[..], KeyHash) && Represents(buckets[..], KeyHash, contents)
    }

    constructor (w: Windows)
      requires w.Valid()
      ensures Valid() && contents == map[] && windows == w && fresh(buckets)
    {
      buckets := new Chain<FlowKey, Flow>[TABLE_SIZE](_ => []);
      windows := w;
      nextWan := 0;
      contents := map[];
    }

    method Store(k: FlowKey, f: Flow)
      requires Valid()
      modifies this`contents, buckets
      ensures Valid() && contents == old(contents)[k := f]
    {
      hide KeyHash;
      var b := KeyHash(k);
      var chain := buckets[b];
      var i := Find(chain, k);
      SetBucket(buckets[..], KeyHash, contents, k, f);
      buckets[b] := if i < |chain| then chain[i := Node(k, f)] else [Node(k, f)] + chain;
      contents := contents[k := f];
    }

    method Search(k: FlowKey) returns (r: Option<Flow>)
      requires Valid()
      ensures r == if k in contents then Some(contents[k]) else None
    {
      hide KeyHash;
      var chain := buckets[KeyHash(k)];
      var i := Find(chain, k);
      Found(buckets[..], KeyHash, contents, k);
      r := if i < |chain| then Some(chain[i].value) else None;
    }

    /** The WAN of a flow without a profile. */
    method GetWan(t: Tuple, len: uint32, now: uint64, allocOk: bool) returns (wan: int)
      requires Valid()
      modifies this, buckets
      ensures Valid()
      ensures Answer(wan, contents, nextWan)
           == PairAnswer(windows, old(contents), old(nextWan), t, len, now, allocOk)
    {
      hide PairKey, PairStep, NextWan, KeyHash, Chains.Represents, Chains.Hashed;
      var k := PairKey(t);
      var known := Search(k);
      if known.Some? {
        var f := PairStep(windows, known.value, len, now);
        Store(k, f);
        return f.currentWan;
      }
      if !allocOk {
        return 0;
      }
      wan := DrawWan(windows.wanCount);
      Store(k, Flow(len, wan, 0, now));
    }

    method DrawWan(count: int) returns (wan: int)
      modifies this`nextWan
      ensures wan == NextWan(old(nextWan), count)
      ensures nextWan == Drawn(old(nextWan), count)
    {
      wan := NextWan(nextWan, count);
      if count > 0 {
        nextWan := Increment(nextWan);
      }
    }

    /** The WAN of a flow with a choice. */
    method ChooseWan(t: Tuple, proto: uint8, len: uint32, now: uint64, allowed: seq<int>, weights: seq<int>,
                     allocOk: bool) returns (wan: int)
      requires Valid() && |weights| == |allowed| > 1 && Total(weights) < 0x8000_0000
      modifies this, buckets
      ensures Valid()
      ensures Answer(wan, contents, nextWan)
           == ChoiceAnswer(windows, old(contents), old(nextWan), t, proto, len, now, allowed, weights, allocOk)
    {
      hide ProfileKey, ProfileStep, ProfileFirst, KeyHash, Chains.Represents, Chains.Hashed;
      var k := ProfileKey(t, proto);
      var known := Search(k);
      if known.Some? {
        var f := ProfileStep(windows, known.value, len, now, allowed, weights);
        Store(k, f);
        return f.currentWan;
      }
      if !allocOk {
        return 0;
      }
      var f := ProfileFirst(k, len, now, allowed, weights, nextWan);
      var sum := WeightsSumPositive(weights);
      if sum == 0 {
        var drawn := DrawWan(|allowed|);
      }
      Store(k, f);
      wan := f.currentWan;
    }

    /** The entry point. */
    method GetWanProfile(t: Tuple, proto: uint8, len: uint32, now: uint64, allowed: seq<int>, weights: seq<int>,
                         allocOk: bool) returns (wan: int)
      requires Valid() && |weights| == |allowed| && Total(weights) < 0x8000_0000
      modifies this, buckets
      ensures Valid()
      ensures Answer(wan, contents, nextWan)
           == ProfileAnswer(windows, old(contents), old(nextWan), t, proto, len, now, allowed, weights, allocOk)
    {
      hide PairAnswer, ChoiceAnswer, Chains.Represents, Chains.Hashed;
      if |allowed| == 0 {
        wan := GetWan(t, len, now, allocOk);
      } else if |allowed| == 1 {
        wan := allowed[0];
      } else {
        wan := ChooseWan(t, proto, len, now, allowed, weights, allocOk);
      }
    }

    /** Removes exactly the flows that have been idle for more than a minute. */
    method Gc(now: uint64)
      requires Valid()
      modifies this`contents, buckets
      ensures Valid() && contents == KeptMap(old(contents), StillActive(now))
    {
      hide KeyHash, Chains.Represents, Chains.Hashed, Chains.KeptMap;
      ghost var was := buckets[..];
      var keep := StillActive(now);
      for b := 0 to TABLE_SIZE
        invariant contents == old(contents)
        invariant forall k | 0 <= k < b :: buckets[k] == Kept(was[k], keep)
        invariant forall k | b <= k < TABLE_SIZE :: buckets[k] == was[k]
      {
        buckets[b] := Sweep(buckets[b], keep);
      }
      KeepAll(was, buckets[..], KeyHash, contents, keep);
      contents := KeptMap(contents, keep);
    }
  }
}
