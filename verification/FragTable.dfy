/** The fragment code as it runs: the packet-id counter, the direct-mapped table updated in place, and the output
    buffers filled by copies at a moving offset. */
module FragTable {
  import opened Basics
  import opened Bytes
  import opened Ipv4
  import opened PacketCrypto
  import opened Layer3
  import opened Fragmentation
  import opened FragHistory
  import Layer2
  import Layer4
  import Tunnel

  /** The global packet-id counter: an atomic unsigned integer of at least 32 bits, how many the platform decides. */
  class PktIds {
    const width: nat
    var counter: nat

    predicate Valid()
      reads this
    {
      width >= 32 && counter < Modulus(width)
    }

    constructor (w: nat)
      requires w >= 32
      ensures Valid() && width == w && counter == 0
    {
      width := w;
      counter := 0;
    }

    method Next() returns (id: uint16)
      requires Valid()
      modifies this
      ensures Valid() && id == PktId(old(counter)) && counter == (old(counter) + 1) % Modulus(width)
    {
      id := counter % 0x1_0000;
      counter := (counter + 1) % Modulus(width);
    }
  }

  /** The values of an unsigned integer of the given width. */
  function Modulus(width: nat): (m: nat)
    ensures m > 0
  {
    if width == 0 then 1 else 2 * Modulus(width - 1)
  }

  /** The wrap of the counter is invisible, whatever its width: the k-th id drawn after the counter stood at start is
      PktId(start + k). */
  lemma CounterWrap(width: nat, start: nat, k: nat)
    requires width >= 16
    ensures PktId((start + k) % Modulus(width)) == PktId(start + k)
  {
    LowHalf(width);
    ModOfMod(start + k, Modulus(width - 16), 0x1_0000);
  }

  lemma {:induction false} LowHalf(width: nat)
    requires width >= 16
    ensures Modulus(width) == Modulus(width - 16) * 0x1_0000
  {
    if width == 16 {
      assert Modulus(4) == 16 && Modulus(8) == 0x100 && Modulus(12) == 0x1000;
    } else {
      LowHalf(width - 1);
    }
  }

  /** Builds the fragments of pkt in the two output buffers; rc is 0 or -1. */
  method SplitAndEncrypt(layer: Layer, c: Cipher, s: Settings, ctx: CryptoCtx, ids: PktIds,
                         counter1: uint32, counter2: uint32, salt: seq<uint8>, pkt: seq<uint8>,
                         frag1: array<uint8>, frag2: array<uint8>)
    returns (rc: int, len1: int, len2: int)
    requires c.Lawful() && s.Valid() && ctx.Valid() && |salt| == 16 && ids.Valid()
    requires frag1 != frag2 && frag1.Length >= MAX_WIRE && frag2.Length >= MAX_WIRE
    modifies ids, frag1, frag2
    ensures var r := Split(layer, c, s, ctx, GenerateNonce(counter1, salt, s.nonceSize),
                           GenerateNonce(counter2, salt, s.nonceSize), PktId(old(ids.counter)), pkt);
            if r.None? then rc == -1
            else rc == 0 && len1 == |r.value.0| <= frag1.Length && frag1[..len1] == r.value.0
                 && len2 == |r.value.1| <= frag2.Length && frag2[..len2] == r.value.1
    ensures ids.Valid()
    ensures ids.counter == if CutPoint(layer, pkt).Some? then (old(ids.counter) + 1) % Modulus(ids.width)
            else old(ids.counter)
  {
    hide EncryptHalf, CutPoint, GenerateNonce, PktId, PayloadOffset;
    rc, len1, len2 := -1, 0, 0;
    var cut := CutPoint(layer, pkt);
    if cut.None? {
      return;
    }
    PortsPresent(layer, pkt);
    var id := ids.Next();
    var first := pkt[FirstStart(layer, pkt)..cut.value];
    if |first| > MAX_PLAIN {
      return;
    }
    len1 := EncryptHalfInto(layer, c, s, ctx, counter1, salt, pkt, first, id, 0, frag1);
    if len1 < 0 {
      return;
    }
    len2 := EncryptHalfInto(layer, c, s, ctx, counter2, salt, pkt, pkt[cut.value..], id, 1, frag2);
    if len2 < 0 {
      return;
    }
    rc := 0;
  }

  method EncryptHalfInto(layer: Layer, c: Cipher, s: Settings, ctx: CryptoCtx, counter: uint32, salt: seq<uint8>,
                         pkt: seq<uint8>, plain: seq<uint8>, id: uint16, index: uint8, out: array<uint8>)
    returns (len: int)
    requires c.Lawful() && s.Valid() && ctx.Valid() && |salt| == 16 && CutPoint(layer, pkt).Some?
    requires layer == L4 ==> PayloadOffset(pkt).value + Layer4.PORTS <= |pkt|
    requires out.Length >= MAX_WIRE
    modifies out
    ensures var r := EncryptHalf(layer, c, s, ctx, GenerateNonce(counter, salt, s.nonceSize), pkt, plain, id, index);
            if r.None? then len == -1 else len == |r.value| <= out.Length && out[..len] == r.value
  {
    hide EncryptFragment, Layer2.EncryptFragment, Layer4.EncryptFragment, GenerateNonce, PayloadOffset, CutPoint;
    var toff := PayloadOffset(pkt).value;
    match layer
    case L2 =>
      len := Layer2.EncryptFragmentInto(c, s, ctx, counter, salt, pkt[..ETH], plain, id, index, out, MAX_WIRE);
    case L3 =>
      len := EncryptFragmentInto(c, s, ctx, counter, salt, pkt[..ETH], pkt[ETH..toff], plain, id, index, out, MAX_WIRE);
    case L4 =>
      len := Layer4.EncryptFragmentInto(c, s, ctx, counter, salt, pkt[..ETH], pkt[ETH..toff],
                                        pkt[toff..toff + Layer4.PORTS], plain, id, index, out, MAX_WIRE);
  }

  lemma AcceptsLength(layer: Layer, pkt: seq<uint8>)
    requires Accepts(layer, pkt)
    ensures |pkt| >= ETH
  {}

  lemma JoinedAtLeast(e: Entry)
    requires e.Valid() && e.valid
    ensures |e.ip| <= JoinedLen(L2, e)
  {}

  method BuildJoined(out: array<uint8>, eth: seq<uint8>, ip: seq<uint8>, first: seq<uint8>, second: seq<uint8>)
    returns (outLen: nat)
    requires |eth| == ETH && 20 <= |ip| <= 60 && ETH + |ip| + |first| + |second| <= out.Length
    modifies out
    ensures outLen == ETH + |ip| + |first| + |second|
    ensures out[..outLen] == eth + Patch(ip, outLen - ETH) + (first + second)
  {
    hide *;
    var off := ETH + |ip|;
    outLen := off + |first| + |second|;
    AppendAt(out, [], 0, eth);
    assert [] + eth == eth;
    AppendAt(out, eth, ETH, ip);
    AppendAt(out, eth + ip, off, first);
    AppendAt(out, eth + ip + first, off + |first|, second);
    Assoc(eth + ip, first, second);
    Tunnel.PatchBuiltHeader(out, eth, ip, first + second, ETH, off, outLen);
  }

  /** Copies the pending half and the second half into out, then patches the header. */
  method JoinHalves(layer: Layer, e: Entry, second: seq<uint8>, out: array<uint8>) returns (outLen: nat)
    requires e.Valid() && e.valid && JoinedSize(layer, e, |second|) <= out.Length
    modifies out
    ensures outLen == |Joined(layer, e, second)| == JoinedSize(layer, e, |second|)
    ensures out[..outLen] == Joined(layer, e, second)
  {
    hide JoinedLen, Patch;
    JoinedHasSize(layer, e, second);
    var n := JoinedLen(layer, e);
    match layer
    case L2 =>
      JoinedAtLeast(e);
      outLen := BuildJoined(out, e.eth[..12] + [0x08, 0x00], e.data[..|e.ip|], e.data[|e.ip|..n], second);
    case L3 => outLen := BuildJoined(out, e.eth, e.ip[PROTO_OFF := e.proto], e.data[..n], second);
    case L4 => outLen := BuildJoined(out, e.eth, e.ip, e.data[..n], second);
  }

  /** The table of one layer. */
  class Table {
    const entries: array<Entry>

    ghost predicate Valid()
      reads this, entries
    {
      ValidTable(entries[..])
    }

    constructor ()
      ensures Valid() && fresh(entries) && forall i | 0 <= i < TABLE_SIZE :: !entries[i].valid
    {
      var zero := Entry(0, seq(MAX_PENDING, _ => 0), 0, [], [], 0, 0, false);
      entries := new Entry[TABLE_SIZE](_ => zero);
    }

    /** Expires every slot that is older than the timeout. */
    method Gc(now: uint64)
      requires Valid()
      modifies entries
      ensures Valid()
      ensures forall i | 0 <= i < TABLE_SIZE :: entries[i] == Collected(old(entries[i]), now)
    {
      hide Elapsed;
      for i := 0 to TABLE_SIZE
        invariant Valid()
        invariant forall k | 0 <= k < i :: entries[k] == Collected(old(entries[k]), now)
        invariant forall k | i <= k < TABLE_SIZE :: entries[k] == old(entries[k])
      {
        var e := entries[i];
        if e.valid && Elapsed(now, e.timestamp) > TIMEOUT_NS {
          entries[i] := e.(valid := false);
        }
      }
    }

    /** One decrypted fragment: rc is -1 (failed), 0 (stored) or 1 (out[..outLen] is the joined packet). */
    method TryReassemble(layer: Layer, pkt: seq<uint8>, id: uint16, index: uint8, now: uint64, out: array<uint8>)
      returns (rc: int, outLen: nat)
      requires Valid() && Readable(layer, pkt) && out.Length >= MAX_JOINED
      requires RoomToJoin(layer, entries[Slot(id)], pkt, id, index, now)
      modifies entries, out
      ensures Valid()
      ensures var (o, e) := Reassemble(layer, old(entries[Slot(id)]), pkt, id, index, now);
              && entries[..] == old(entries[..])[Slot(id) := e]
              && match o
                 case Failed => rc == -1
                 case Pending => rc == 0
                 case Complete(packet) => rc == 1 && outLen == |packet| <= out.Length && out[..outLen] == packet
    {
      hide Accepts, FirstOf, Carried, Joined, TotalOk, Elapsed, Slot, Stored;
      rc, outLen := -1, 0;
      if !Accepts(layer, pkt) {
        return;
      }
      var slot := Slot(id);
      var e := entries[slot];
      if index == 0 {
        var first := FirstOf(layer, pkt);
        if first.None? || |first.value.data| > MAX_PENDING {
          return;
        }
        AcceptsLength(layer, pkt);
        entries[slot] := Stored(e, id, pkt[..ETH], first.value, now);
        rc := 0;
      } else if index == 1 {
        if !e.valid || e.id != id {
          return;
        }
        entries[slot] := e.(valid := false);
        if Elapsed(now, e.timestamp) > TIMEOUT_NS {
          return;
        }
        if !TotalOk(layer, e.dataLen + |Carried(layer, pkt)|) {
          return;
        }
        outLen := JoinHalves(layer, e, Carried(layer, pkt), out);
        rc := 1;
      }
    }
  }
}
