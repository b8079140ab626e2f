/** The reassembly table over whole runs of arriving fragments and garbage collections. */
module FragHistory {
  import opened Basics
  import opened Bytes
  import opened Ipv4
  import opened PacketCrypto
  import opened Tunnel
  import opened Layer3
  import opened Fragmentation
  import Layer2
  import Layer4

  const TABLE_SIZE := 4096

  /** The slot of a packet id. */
  function Slot(id: uint16): (slot: nat)
    ensures slot < TABLE_SIZE
  {
    id % TABLE_SIZE
  }

  /** Garbage collection of one slot. */
  function Collected(e: Entry, now: uint64): (r: Entry)
    requires e.Valid()
    ensures r.Valid()
  {
    if e.valid && Elapsed(now, e.timestamp) > TIMEOUT_NS then e.(valid := false) else e
  }

  // --- runs ------------------------------------------------------------------------

  datatype Event = Collect(now: uint64) | Arrive(pkt: seq<uint8>, id: uint16, index: uint8, now: uint64)

  /** Fragments come from fragment decryption, and the clock does not run backwards. */
  predicate IsRun(layer: Layer, evs: seq<Event>)
  {
    && (forall i | 0 <= i < |evs| && evs[i].Arrive? :: Readable(layer, evs[i].pkt))
    && (forall i, j | 0 <= i <= j < |evs| :: evs[i].now <= evs[j].now)
  }

  predicate ValidTable(t: seq<Entry>)
  {
    |t| == TABLE_SIZE && forall i | 0 <= i < |t| :: t[i].Valid()
  }

  /** The slot after one event. */
  function SlotStep(layer: Layer, e: Entry, slot: nat, ev: Event): (r: Entry)
    requires e.Valid() && (ev.Arrive? ==> Readable(layer, ev.pkt))
    ensures r.Valid()
  {
    match ev
    case Collect(now) => Collected(e, now)
    case Arrive(pkt, id, index, now) => if Slot(id) == slot then Reassemble(layer, e, pkt, id, index, now).1 else e
  }

  /** The slot before event n of a run that starts with the table t0. */
  function SlotAt(layer: Layer, t0: seq<Entry>, evs: seq<Event>, n: nat, slot: nat): (e: Entry)
    requires ValidTable(t0) && IsRun(layer, evs) && n <= |evs| && slot < TABLE_SIZE
    ensures e.Valid()
  {
    if n == 0 then t0[slot] else SlotStep(layer, SlotAt(layer, t0, evs, n - 1, slot), slot, evs[n - 1])
  }

  /** What event n returns. */
  function OutcomeOf(layer: Layer, t0: seq<Entry>, evs: seq<Event>, n: nat): Outcome
    requires ValidTable(t0) && IsRun(layer, evs) && n < |evs| && evs[n].Arrive?
  {
    var ev := evs[n];
    Reassemble(layer, SlotAt(layer, t0, evs, n, Slot(ev.id)), ev.pkt, ev.id, ev.index, ev.now).0
  }

  // --- the reference: the latest first half that no second half has claimed ----------

  /** The event stores a first half in the slot; this does not depend on what the table holds. */
  predicate Stores(layer: Layer, ev: Event, slot: nat)
    requires ev.Arrive? ==> Readable(layer, ev.pkt)
  {
    ev.Arrive? && ev.index == 0 && Slot(ev.id) == slot && Accepts(layer, ev.pkt)
    && FirstOf(layer, ev.pkt).Some? && |FirstOf(layer, ev.pkt).value.data| <= MAX_PENDING
  }

  /** The event is a second half with the given id. */
  predicate Claims(layer: Layer, ev: Event, id: uint16)
  {
    ev.Arrive? && ev.index == 1 && ev.id == id && Accepts(layer, ev.pkt)
  }

  /** The event whose first half is pending in the slot before event n. */
  function PendingAt(layer: Layer, evs: seq<Event>, n: nat, slot: nat): (r: Option<nat>)
    requires IsRun(layer, evs) && n <= |evs|
    ensures r.Some? ==> r.value < n && Stores(layer, evs[r.value], slot)
  {
    if n == 0 then None
    else if Stores(layer, evs[n - 1], slot) then Some(n - 1)
    else
      var p := PendingAt(layer, evs, n - 1, slot);
      if p.Some? && Claims(layer, evs[n - 1], evs[p.value].id) then None else p
  }

  /** The same without recursion: the last store in the slot, if no second half of its id came after it. */
  lemma {:induction false} PendingIff(layer: Layer, evs: seq<Event>, n: nat, slot: nat, i: nat)
    requires IsRun(layer, evs) && n <= |evs|
    ensures PendingAt(layer, evs, n, slot) == Some(i) <==>
              && i < n && Stores(layer, evs[i], slot)
              && (forall k | i < k < n :: !Stores(layer, evs[k], slot))
              && (forall k | i < k < n :: !Claims(layer, evs[k], evs[i].id))
  {
    hide Stores, Claims, IsRun;
    if n > 0 {
      PendingIff(layer, evs, n - 1, slot, i);
    }
  }

  /** The slot holds the first half of event ev. */
  predicate Holds(layer: Layer, e: Entry, ev: Event, slot: nat)
    requires e.Valid() && ev.Arrive? && Readable(layer, ev.pkt) && Stores(layer, ev, slot)
  {
    var first := FirstOf(layer, ev.pkt).value;
    && e.id == ev.id && e.timestamp == ev.now && e.ip == first.ip && e.proto == first.proto
    && e.dataLen == |first.data| && e.data[..e.dataLen] == first.data && e.eth == ev.pkt[..14]
  }

  /** What one event does to a slot. */
  lemma StepCases(layer: Layer, e: Entry, slot: nat, ev: Event)
    requires e.Valid() && (ev.Arrive? ==> Readable(layer, ev.pkt))
    ensures var e' := SlotStep(layer, e, slot, ev);
            && (Stores(layer, ev, slot) ==> e'.valid && Holds(layer, e', ev, slot))
            && (ev.Arrive? && !Stores(layer, ev, slot) ==>
                  e' == if e.valid && Slot(ev.id) == slot && Claims(layer, ev, e.id) then e.(valid := false) else e)
            && (ev.Collect? ==> e' == Collected(e, ev.now))
  {
    hide FirstOf, Joined, Carried, Accepts;
  }

  /** The invariant of a slot: it is valid only with the pending first half, and it loses that half unclaimed only
      after it has expired. */
  lemma {:induction false} SlotInvariant(layer: Layer, t0: seq<Entry>, evs: seq<Event>, n: nat, slot: nat)
    requires ValidTable(t0) && IsRun(layer, evs) && n <= |evs| && slot < TABLE_SIZE && !t0[slot].valid
    ensures var e := SlotAt(layer, t0, evs, n, slot);
            var p := PendingAt(layer, evs, n, slot);
            && (e.valid ==> p.Some? && Holds(layer, e, evs[p.value], slot))
            && (p.Some? && !e.valid ==> evs[n - 1].now - evs[p.value].now > TIMEOUT_NS)
  {
    hide Stores, SlotStep, FirstOf, Accepts;
    if n > 0 {
      SlotInvariant(layer, t0, evs, n - 1, slot);
      var e := SlotAt(layer, t0, evs, n - 1, slot);
      StepCases(layer, e, slot, evs[n - 1]);
      if Stores(layer, evs[n - 1], slot) {
      } else if e.valid {
        var i := PendingAt(layer, evs, n - 1, slot).value;
        assert evs[i].now <= evs[n - 1].now && Slot(e.id) == slot by { SlotOfStore(layer, evs[i], slot); }
      }
    }
  }

  lemma SlotOfStore(layer: Layer, ev: Event, slot: nat)
    requires (ev.Arrive? ==> Readable(layer, ev.pkt)) && Stores(layer, ev, slot)
    ensures ev.Arrive? && ev.index == 0 && Slot(ev.id) == slot
  {}

  // --- what every run guarantees ---------------------------------------------------

  /** A second half completes a packet exactly when a first half of the same id is pending, came at most 200 ms
      earlier, and the sizes fit; the packet is then joined from that first half. */
  lemma JoinsPending(layer: Layer, t0: seq<Entry>, evs: seq<Event>, j: nat)
    requires ValidTable(t0) && IsRun(layer, evs) && j < |evs| && evs[j].Arrive?
    requires !t0[Slot(evs[j].id)].valid
    ensures var slot := Slot(evs[j].id);
            var p := PendingAt(layer, evs, j, slot);
            var e := SlotAt(layer, t0, evs, j, slot);
            var joins := evs[j].index == 1 && Accepts(layer, evs[j].pkt) && p.Some?
                         && evs[p.value].id == evs[j].id && evs[j].now - evs[p.value].now <= TIMEOUT_NS
                         && TotalOk(layer, |FirstOf(layer, evs[p.value].pkt).value.data|
                                           + |Carried(layer, evs[j].pkt)|);
            && (OutcomeOf(layer, t0, evs, j).Complete? <==> joins)
            && (joins ==> e.valid && Holds(layer, e, evs[p.value], slot)
                          && OutcomeOf(layer, t0, evs, j) == Complete(Joined(layer, e, Carried(layer, evs[j].pkt))))
  {
    hide Stores, SlotStep, FirstOf, Accepts, Joined, TotalOk, Carried, Stored;
    var slot := Slot(evs[j].id);
    SlotInvariant(layer, t0, evs, j, slot);
  }

  /** Only fragments with index 0 and 1 mean anything, and only a second half completes a packet. */
  lemma OnlySecondsComplete(layer: Layer, t0: seq<Entry>, evs: seq<Event>, j: nat)
    requires ValidTable(t0) && IsRun(layer, evs) && j < |evs| && evs[j].Arrive?
    ensures OutcomeOf(layer, t0, evs, j).Pending? <==> Stores(layer, evs[j], Slot(evs[j].id))
    ensures OutcomeOf(layer, t0, evs, j).Complete? ==> Claims(layer, evs[j], evs[j].id)
  {
    hide FirstOf, Accepts, Joined, TotalOk, Carried, Stored, SlotAt;
  }

  /** Each first half is consumed at most once. */
  lemma ConsumedOnce(layer: Layer, t0: seq<Entry>, evs: seq<Event>, j: nat, k: nat)
    requires ValidTable(t0) && IsRun(layer, evs) && j < k < |evs| && evs[j].Arrive? && evs[k].Arrive?
    requires forall slot | 0 <= slot < TABLE_SIZE :: !t0[slot].valid
    requires OutcomeOf(layer, t0, evs, j).Complete? && OutcomeOf(layer, t0, evs, k).Complete?
    ensures PendingAt(layer, evs, j, Slot(evs[j].id)) != PendingAt(layer, evs, k, Slot(evs[k].id))
  {
    hide Stores, OutcomeOf, FirstOf, Accepts, TotalOk, Carried, SlotAt, Holds, Joined;
    JoinsPending(layer, t0, evs, j);
    JoinsPending(layer, t0, evs, k);
    OnlySecondsComplete(layer, t0, evs, j);
    var i := PendingAt(layer, evs, k, Slot(evs[k].id)).value;
    PendingIff(layer, evs, k, Slot(evs[k].id), i);
  }

  /** What is joined does not depend on what an earlier half left in the buffer, as soon as the transport header is
      recognised or the first half is not shorter than the one assumed. */
  lemma JoinedDetermined(layer: Layer, d: Entry, e: Entry, ev: Event, slot: nat, second: seq<uint8>)
    requires d.Valid() && e.Valid() && d.valid && e.valid && ev.Arrive? && Readable(layer, ev.pkt)
    requires Stores(layer, ev, slot) && Holds(layer, d, ev, slot) && Holds(layer, e, ev, slot)
    requires JoinedLen(layer, d) == d.dataLen
    ensures Joined(layer, d, second) == Joined(layer, e, second)
  {
    hide FirstOf, Accepts, RestoredHdr, Patch, Stores;
    var n := d.dataLen;
    assert d.data[..n] == e.data[..n];
    if layer == L2 {
      assert d.data[..n][|d.ip|..] == d.data[|d.ip|..n] by { LongEnough(layer, ev, slot); }
      assert e.data[..n][|e.ip|..] == e.data[|e.ip|..n] by { LongEnough(layer, ev, slot); }
      assert d.data[..n][..|d.ip|] == d.data[..|d.ip|] by { LongEnough(layer, ev, slot); }
      assert e.data[..n][..|e.ip|] == e.data[..|e.ip|] by { LongEnough(layer, ev, slot); }
    }
  }

  lemma LongEnough(layer: Layer, ev: Event, slot: nat)
    requires ev.Arrive? && Readable(layer, ev.pkt) && Stores(layer, ev, slot) && layer == L2
    ensures |FirstOf(layer, ev.pkt).value.ip| <= |FirstOf(layer, ev.pkt).value.data|
  {}

  // --- packet ids --------------------------------------------------------------------

  /** The id of the n-th packet: the counter's low 16 bits. */
  function PktId(n: nat): uint16 { n % 0x1_0000 }

  /** Any 4096 consecutive ids fall into different slots, also where the 16-bit id wraps. */
  lemma ConsecutiveSlots(a: nat, b: nat)
    requires a < b < a + TABLE_SIZE
    ensures Slot(PktId(a)) != Slot(PktId(b))
  {
    SlotOfId(a);
    SlotOfId(b);
    var q := a / TABLE_SIZE;
    assert b / TABLE_SIZE == q || b / TABLE_SIZE == q + 1;
  }

  lemma SlotOfId(n: nat)
    ensures Slot(PktId(n)) == n % TABLE_SIZE
  {
    var q, r := n / 0x1_0000, n % 0x1_0000;
    assert n == r + 16 * q * TABLE_SIZE;
    ModShift(r, 16 * q, TABLE_SIZE);
  }

  /** A first half stays pending while only ids from fewer than 4096 counter values away are stored and its own
      second half has not come: count gives the counter value each stored id was taken from. */
  lemma {:induction false} KeptThroughBurst(layer: Layer, evs: seq<Event>, i: nat, n: nat, count: seq<nat>)
    requires IsRun(layer, evs) && i < n <= |evs| <= |count| && evs[i].Arrive?
    requires Stores(layer, evs[i], Slot(evs[i].id)) && evs[i].id == PktId(count[i])
    requires forall k | i < k < n && evs[k].Arrive? && evs[k].index == 0 ::
               evs[k].id == PktId(count[k]) && count[k] != count[i]
               && count[i] < count[k] + TABLE_SIZE && count[k] < count[i] + TABLE_SIZE
    requires forall k | i < k < n :: !Claims(layer, evs[k], evs[i].id)
    ensures PendingAt(layer, evs, n, Slot(evs[i].id)) == Some(i)
  {
    hide FirstOf, Accepts, Slot, PktId;
    var slot := Slot(evs[i].id);
    forall k | i < k < n ensures !Stores(layer, evs[k], slot) {
      if evs[k].Arrive? && evs[k].index == 0 {
        if count[i] < count[k] {
          ConsecutiveSlots(count[i], count[k]);
        } else {
          ConsecutiveSlots(count[k], count[i]);
        }
      }
    }
    PendingIff(layer, evs, n, slot, i);
  }

  // --- a whole transfer --------------------------------------------------------------

  lemma SecondArrives(layer: Layer, s: Settings, pkt: seq<uint8>, cut: nat)
    requires CutPoint(layer, pkt) == Some(cut) && Deliverable(layer, pkt, cut)
    requires layer == L4 ==> PayloadOffset(pkt).value + Layer4.PORTS <= |pkt|
    ensures var p := HalfPacket(layer, s, pkt, pkt[cut..]);
            Readable(layer, p) && Accepts(layer, p) && Carried(layer, p) == pkt[cut..]
  {
    hide HalfPacket, CutPoint, Readable, PayloadOffset, Accepts, Carried, FirstKept, TailOk, GuessRight;
    HalfParts(layer, s, pkt, pkt[cut..]);
  }

  /** The first half of a deliverable packet is stored, and joining it gives the packet. */
  lemma FirstArrives(layer: Layer, s: Settings, pkt: seq<uint8>, cut: nat, e: Entry, ev: Event)
    requires CutPoint(layer, pkt) == Some(cut) && Deliverable(layer, pkt, cut) && e.Valid()
    requires layer == L4 ==> PayloadOffset(pkt).value + Layer4.PORTS <= |pkt|
    requires ev.Arrive? && ev.index == 0 && ev.pkt == HalfPacket(layer, s, pkt, pkt[FirstStart(layer, pkt)..cut])
    requires |pkt| - cut <= MAX_WIRE
    ensures Readable(layer, ev.pkt) && Stores(layer, ev, Slot(ev.id))
    ensures FirstKept(layer, pkt, cut)
    ensures var h := Held(layer, s, pkt, cut, e, ev.id, ev.now);
            && h.valid && Holds(layer, h, ev, Slot(ev.id)) && JoinedLen(layer, h) == h.dataLen
            && Joined(layer, h, pkt[cut..]) == Renewed(pkt)
            && TotalOk(layer, |FirstOf(layer, ev.pkt).value.data| + |pkt| - cut)
  {
    hide HalfPacket, CutPoint, Readable, PayloadOffset, Accepts, Carried, FirstKept, TailOk, GuessRight, FirstOf,
         KeptFirst, Joined, JoinedLen, Renewed, TotalOk, Layer2.Marked;
    TailFollows(layer, pkt, cut);
    FirstCall(layer, s, pkt, cut, e, ev.id, ev.now);
    HalfParts(layer, s, pkt, pkt[FirstStart(layer, pkt)..cut]);
    StepCases(layer, e, Slot(ev.id), ev);
    HeldJoinedLen(layer, s, pkt, cut, e, ev.id, ev.now);
    JoinRight(layer, s, pkt, cut, e, ev.id, ev.now);
    TotalFits(layer, s, pkt, cut, e, ev.id, ev.now);
  }

  /** Whatever else arrives in between: if both fragments of a deliverable packet reach the receiver, the first is
      still pending when the second comes, and at most 200 ms have passed, the packet comes out with length and
      header checksum renewed. */
  lemma TransferDelivers(layer: Layer, c: Cipher, s: Settings, ctx: CryptoCtx, n1: seq<uint8>, n2: seq<uint8>,
                         id: uint16, pkt: seq<uint8>, t0: seq<Entry>, evs: seq<Event>, i: nat, j: nat)
    requires c.Lawful() && s.Valid() && ctx.Valid() && |n1| == |n2| == s.nonceSize
    requires Split(layer, c, s, ctx, n1, n2, id, pkt).Some?
    requires Deliverable(layer, pkt, CutPoint(layer, pkt).value)
    requires ValidTable(t0) && IsRun(layer, evs) && i < j < |evs| && evs[i].Arrive? && evs[j].Arrive?
    requires !t0[Slot(id)].valid
    requires DecryptHalf(layer, c, s, ctx, Split(layer, c, s, ctx, n1, n2, id, pkt).value.0)
          == Some(Fragment(evs[i].pkt, evs[i].id, evs[i].index))
    requires DecryptHalf(layer, c, s, ctx, Split(layer, c, s, ctx, n1, n2, id, pkt).value.1)
          == Some(Fragment(evs[j].pkt, evs[j].id, evs[j].index))
    requires PendingAt(layer, evs, j, Slot(id)) == Some(i) && evs[j].now - evs[i].now <= TIMEOUT_NS
    ensures OutcomeOf(layer, t0, evs, j) == Complete(Renewed(pkt))
  {
    hide Split, DecryptHalf, HalfPacket, Deliverable, Renewed, CutPoint, Readable, Stores, Joined, Reassemble, Slot,
         PayloadOffset, Accepts, Carried, FirstOf, PendingAt, SlotAt, OutcomeOf, TotalOk, Held, JoinedLen, Holds;
    SplitHalves(layer, c, s, ctx, n1, n2, id, pkt);
    var cut := CutPoint(layer, pkt).value;
    var e := SlotAt(layer, t0, evs, j, Slot(id));
    JoinsPending(layer, t0, evs, j);
    SecondArrives(layer, s, pkt, cut);
    FirstArrives(layer, s, pkt, cut, e, evs[i]);
    JoinedDetermined(layer, Held(layer, s, pkt, cut, e, id, evs[i].now), e, evs[i], Slot(id), pkt[cut..]);
  }
}
