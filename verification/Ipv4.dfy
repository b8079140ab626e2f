/** The parts of an Ethernet/IPv4 packet the forwarder reads and rewrites. */
module Ipv4 {
  import opened Bytes
  import opened InternetChecksum

  const ETH := 14
  const PROTO_TCP: uint8 := 6
  const PROTO_UDP: uint8 := 17

  /** Length of the IP header announced by its first byte. */
  function HdrLen(first: uint8): nat { first % 0x10 * 4 }

  predicate EtherTypeIs(pkt: seq<uint8>, off: nat, et: uint16)
  {
    off + 2 <= |pkt| && WordAt(pkt, off) == et
  }

  /** Offset of the IPv4 header behind at most two VLAN tags. */
  function EthIpv4Offset(pkt: seq<uint8>): (r: Option<nat>)
    ensures r.Some? ==> r.value in {14, 18, 22} && r.value <= |pkt| && EtherTypeIs(pkt, r.value - 2, 0x0800)
  {
    if |pkt| < 14 then None
    else if WordAt(pkt, 12) == 0x0800 then Some(14)
    else if WordAt(pkt, 12) != 0x8100 || |pkt| < 18 then None
    else if WordAt(pkt, 16) == 0x0800 then Some(18)
    else if WordAt(pkt, 16) == 0x8100 && |pkt| >= 22 && WordAt(pkt, 20) == 0x0800 then Some(22)
    else None
  }

  /** Size of the TCP or UDP header at the start of t, or None when t cannot hold one. */
  function TransportHdrSize(t: seq<uint8>, proto: uint8): (r: Option<nat>)
    ensures r.Some? ==> 8 <= r.value <= |t| && r.value <= 60
  {
    if proto == PROTO_TCP then
      if |t| < 20 then None
      else
        var dataOff := t[12] / 0x10 * 4;
        if dataOff < 20 || dataOff > |t| then None else Some(dataOff)
    else if proto == PROTO_UDP then
      if |t| < 8 then None else Some(8)
    else None
  }

  /** The header with its total length replaced and its checksum field cleared. */
  function Cleared(h: seq<uint8>, total: uint16): (r: seq<uint8>)
    requires |h| >= 20
    ensures |r| == |h|
  {
    SetWord(SetWord(h, 2, total), 10, 0)
  }

  /** The header with its total length replaced (as a 16-bit value) and its checksum recomputed. */
  function Patch(h: seq<uint8>, total: nat): (r: seq<uint8>)
    requires |h| >= 20
    ensures |r| == |h|
  {
    var z := Cleared(h, total % 0x1_0000);
    SetWord(z, 10, Checksum(z))
  }

  /** Total length and checksum field already hold what Patch would store: the caller's test for
      "unpadded, with the checksum the sender's RFC 1071 sum produces". */
  predicate Canonical(h: seq<uint8>, total: nat)
    requires |h| >= 20
  {
    WordAt(h, 2) == total % 0x1_0000 && WordAt(h, 10) == Checksum(SetWord(h, 10, 0))
  }

  lemma SetWordAt(s: seq<uint8>, off: nat, w: uint16, k: nat)
    requires off + 2 <= |s| && k < |s|
    ensures var r := SetWord(s, off, w);
            r[k] == if k == off then Hi(w) else if k == off + 1 then Lo(w) else s[k]
  {}

  /** Only the total length and the checksum change. */
  lemma PatchKeeps(h: seq<uint8>, total: nat, k: nat)
    requires |h| >= 20 && k < |h| && k !in {2, 3, 10, 11}
    ensures Patch(h, total)[k] == h[k]
  {
    var h1 := SetWord(h, 2, total % 0x1_0000);
    var z := SetWord(h1, 10, 0);
    SetWordAt(h, 2, total % 0x1_0000, k);
    SetWordAt(h1, 10, 0, k);
    SetWordAt(z, 10, Checksum(z), k);
  }

  lemma SetWordTwice(s: seq<uint8>, off: nat, v: uint16, w: uint16)
    requires off + 2 <= |s|
    ensures SetWord(SetWord(s, off, v), off, w) == SetWord(s, off, w)
  {}

  lemma WordOfSet(s: seq<uint8>, off: nat, w: uint16)
    requires off + 2 <= |s|
    ensures WordAt(SetWord(s, off, w), off) == w
  {
    WordRoundTrip(w, 0, 0);
  }

  lemma WordOfOther(s: seq<uint8>, off: nat, w: uint16, at: nat)
    requires off + 2 <= |s| && at + 2 <= |s| && (at + 2 <= off || off + 2 <= at)
    ensures WordAt(SetWord(s, off, w), at) == WordAt(s, at)
  {
    SetWordAt(s, off, w, at);
    SetWordAt(s, off, w, at + 1);
  }

  /** What a patch overwrites does not matter: headers that agree elsewhere are patched to the same header. */
  lemma PatchAgree(h: seq<uint8>, g: seq<uint8>, total: nat)
    requires |h| == |g| >= 20
    requires forall k | 0 <= k < |h| && k !in {2, 3, 10, 11} :: h[k] == g[k]
    ensures Patch(h, total) == Patch(g, total)
  {
    var w := total % 0x1_0000;
    forall k | 0 <= k < |h| ensures Cleared(h, w)[k] == Cleared(g, w)[k] {
      SetWordAt(h, 2, w, k);
      SetWordAt(g, 2, w, k);
      SetWordAt(SetWord(h, 2, w), 10, 0, k);
      SetWordAt(SetWord(g, 2, w), 10, 0, k);
    }
    assert Cleared(h, w) == Cleared(g, w);
  }

  /** The total length a patched header announces. */
  lemma PatchTotal(h: seq<uint8>, total: nat)
    requires |h| >= 20
    ensures WordAt(Patch(h, total), 2) == total % 0x1_0000
  {
    hide Checksum;
    var h1 := SetWord(h, 2, total % 0x1_0000);
    var z := Cleared(h, total % 0x1_0000);
    WordOfOther(z, 10, Checksum(z), 2);
    WordOfOther(h1, 10, 0, 2);
    WordOfSet(h, 2, total % 0x1_0000);
  }

  /** What a router on the way sees of a patched header: it verifies, announces the length, and is otherwise
      unchanged. */
  predicate Announces(g: seq<uint8>, h: seq<uint8>, total: nat)
    requires |h| >= 20
  {
    && |g| == |h| && Verifies(g) && WordAt(g, 2) == total % 0x1_0000
    && forall k | 0 <= k < |h| && k !in {2, 3, 10, 11} :: g[k] == h[k]
  }

  lemma PatchAnnounces(h: seq<uint8>, total: nat)
    requires |h| >= 20 && h[0] > 0
    ensures Announces(Patch(h, total), h, total)
  {
    hide Patch, Verifies, WordAt;
    PatchVerifies(h, total);
    PatchTotal(h, total);
    forall k | 0 <= k < |h| && k !in {2, 3, 10, 11} ensures Patch(h, total)[k] == h[k] {
      PatchKeeps(h, total, k);
    }
  }

  /** A second patch undoes the first: what the header announced in between leaves no trace. */
  lemma PatchAbsorbs(h: seq<uint8>, a: nat, b: nat)
    requires |h| >= 20
    ensures Patch(Patch(h, a), b) == Patch(h, b)
  {
    forall k | 0 <= k < |h| && k !in {2, 3, 10, 11} ensures Patch(h, a)[k] == h[k] {
      PatchKeeps(h, a, k);
    }
    PatchAgree(Patch(h, a), h, b);
  }

  /** Patching is the identity exactly on canonical headers. */
  lemma PatchFixpoint(h: seq<uint8>, total: nat)
    requires |h| >= 20
    ensures Patch(h, total) == h <==> Canonical(h, total)
  {
    var w := total % 0x1_0000;
    var h1 := SetWord(h, 2, w);
    var z := Cleared(h, w);
    var c := Checksum(z);
    WordOfSet(z, 10, c);
    WordOfOther(z, 10, c, 2);
    WordOfOther(h1, 10, 0, 2);
    WordOfSet(h, 2, w);
    assert WordAt(Patch(h, total), 10) == c && WordAt(Patch(h, total), 2) == w;
    if WordAt(h, 2) == w {
      SetWordSame(h, 2);
      assert z == SetWord(h, 10, 0);
      if WordAt(h, 10) == c {
        SetWordTwice(h, 10, 0, c);
        SetWordSame(h, 10);
      }
    }
  }

  lemma NonzeroSum(h: seq<uint8>)
    requires |h| >= 2 && h[0] > 0
    ensures WordSum(h) > 0
  {}

  /** The receiver accepts every patched header. */
  lemma PatchVerifies(h: seq<uint8>, total: nat)
    requires |h| >= 20 && h[0] > 0
    ensures Verifies(Patch(h, total))
  {
    var h1 := SetWord(h, 2, total % 0x1_0000);
    var z := Cleared(h, total % 0x1_0000);
    SetWordAt(h, 2, total % 0x1_0000, 0);
    SetWordAt(h1, 10, 0, 0);
    NonzeroSum(z);
    WordOfSet(h1, 10, 0);
    ChecksumFieldVerifies(z, 10);
  }

  /** How far "valid checksum" is from "canonical": only a stored 0xFFFF where the sum gives 0 is accepted
      by the receiver and not reproduced by a patch. */
  lemma VerifiesVersusCanonical(h: seq<uint8>)
    requires |h| >= 20 && h[0] > 0
    ensures Verifies(h) <==>
              Canonical(h, WordAt(h, 2)) ||
              (WordAt(h, 10) == 0xFFFF && Checksum(SetWord(h, 10, 0)) == 0)
  {
    SetWordAt(h, 10, 0, 0);
    NonzeroSum(SetWord(h, 10, 0));
    VerifiesIff(h, 10);
  }

  /** Writes the new total length and checksum into the header at packet[off..end]. */
  method PatchInPlace(packet: array<uint8>, off: nat, end: nat, total: nat)
    requires off + 20 <= end <= off + 60 && end <= packet.Length
    modifies packet
    ensures var b := old(packet[..]); packet[..] == Write(b, off, Patch(b[off..end], total))
  {
    ghost var was := packet[..];
    ghost var h := was[off..end];
    WriteSame(was, off, end - off);
    var w: uint16 := total % 0x1_0000;
    StoreWord(packet, off + 2, w);
    WriteSetWord(was, off, h, 2, w);
    ghost var h1 := SetWord(h, 2, w);
    StoreWord(packet, off + 10, 0);
    WriteSetWord(was, off, h1, 10, 0);
    ghost var z := Cleared(h, w);
    WriteSlice(was, off, z);
    var c := CalcIpChecksum(packet, off, end - off);
    assert packet[off..off + (end - off)] == packet[..][off..end];
    StoreWord(packet, off + 10, c);
    WriteSetWord(was, off, z, 10, c);
  }
}
