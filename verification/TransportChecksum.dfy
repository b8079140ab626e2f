/** The TCP and UDP checksums layer-3 decryption recomputes (section 3.1 of RFC 9293): the summing loops and
    what a receiver sees when it folds the pseudo-header together with the repaired segment. */
module TransportChecksum {
  import opened Bytes
  import opened InternetChecksum
  import opened Ipv4

  const TCP_CKSUM_OFF := 16
  const UDP_CKSUM_OFF := 6

  /** Addresses, protocol and segment length, summed as 16-bit words. */
  function PseudoSum(ip: seq<uint8>, proto: uint8, len: nat): (sum: nat)
    requires |ip| >= 20
    ensures proto <= sum <= 0x5_FFFF
  {
    WordAt(ip, 12) + WordAt(ip, 14) + WordAt(ip, 16) + WordAt(ip, 18) + proto + len % 0x1_0000
  }

  /** The part of a UDP datagram its checksum covers: the announced length, but at least the header and at
      most the bytes present (both as 16-bit values). */
  function UdpCovered(seg: seq<uint8>): (n: nat)
    requires 8 <= |seg|
    ensures n <= |seg| && (|seg| <= 0xFFFF ==> 8 <= n)
  {
    var announced := if WordAt(seg, 4) < 8 then 8 else WordAt(seg, 4);
    if announced > |seg| % 0x1_0000 then |seg| % 0x1_0000 else announced
  }

  /** The segment with its checksum recomputed, when it is long enough to have one. */
  function Repaired(ip: seq<uint8>, proto: uint8, seg: seq<uint8>): (r: seq<uint8>)
    requires |ip| >= 20
    ensures |r| == |seg|
  {
    if proto == PROTO_TCP && |seg| >= 20 then
      var z := SetWord(seg, TCP_CKSUM_OFF, 0);
      SetWord(z, TCP_CKSUM_OFF, 0xFFFF - Fold(PseudoSum(ip, proto, |seg|) + WordSum(z)))
    else if proto == PROTO_UDP && |seg| >= 8 then
      var z := SetWord(seg, UDP_CKSUM_OFF, 0);
      var n := UdpCovered(z);
      SetWord(z, UDP_CKSUM_OFF, 0xFFFF - Fold(PseudoSum(ip, proto, n) + WordSum(z[..n])))
    else seg
  }

  /** The two cases of Repaired, spelled out. */
  lemma RepairedForms(ip: seq<uint8>, proto: uint8, seg: seq<uint8>)
    requires |ip| >= 20
    ensures proto == PROTO_TCP && |seg| >= 20 ==>
              var z := SetWord(seg, TCP_CKSUM_OFF, 0);
              var sum := PseudoSum(ip, proto, |seg|) + WordSum(z);
              Repaired(ip, proto, seg) == SetWord(z, TCP_CKSUM_OFF, 0xFFFF - Fold(sum))
    ensures proto == PROTO_UDP && |seg| >= 8 ==>
              var z := SetWord(seg, UDP_CKSUM_OFF, 0);
              var n := UdpCovered(z);
              var sum := PseudoSum(ip, proto, n) + WordSum(z[..n]);
              Repaired(ip, proto, seg) == SetWord(z, UDP_CKSUM_OFF, 0xFFFF - Fold(sum))
    ensures !(proto == PROTO_TCP && |seg| >= 20) && !(proto == PROTO_UDP && |seg| >= 8) ==>
              Repaired(ip, proto, seg) == seg
  {}

  /** The receiver's test of a TCP segment: with its pseudo-header it folds to all ones. */
  predicate TcpVerifies(ip: seq<uint8>, seg: seq<uint8>)
    requires |ip| >= 20
  {
    Fold(PseudoSum(ip, PROTO_TCP, |seg|) + WordSum(seg)) == 0xFFFF
  }

  /** The receiver's test of a UDP datagram, over the bytes its length field covers. */
  predicate UdpVerifies(ip: seq<uint8>, seg: seq<uint8>)
    requires |ip| >= 20 && |seg| >= 8
  {
    var n := UdpCovered(seg);
    Fold(PseudoSum(ip, PROTO_UDP, n) + WordSum(seg[..n])) == 0xFFFF
  }

  /** Every repaired TCP segment of at least 20 bytes passes. */
  lemma RepairedTcpVerifies(ip: seq<uint8>, seg: seq<uint8>)
    requires |ip| >= 20 && 20 <= |seg| <= 0xFFFF
    ensures TcpVerifies(ip, Repaired(ip, PROTO_TCP, seg))
  {
    hide Repaired, PseudoSum, WordSum, Fold, SetWord, WordAt;
    var z := SetWord(seg, TCP_CKSUM_OFF, 0);
    RepairedForms(ip, PROTO_TCP, seg);
    WordOfSet(seg, TCP_CKSUM_OFF, 0);
    StoredChecksumVerifies(z, TCP_CKSUM_OFF, PseudoSum(ip, PROTO_TCP, |seg|));
  }

  /** Every repaired UDP datagram passes. */
  lemma RepairedUdpVerifies(ip: seq<uint8>, seg: seq<uint8>)
    requires |ip| >= 20 && 8 <= |seg| <= 0xFFFF
    ensures UdpVerifies(ip, Repaired(ip, PROTO_UDP, seg))
  {
    hide Repaired, PseudoSum, WordSum, Fold, SetWord, WordAt, UdpCovered;
    var z := SetWord(seg, UDP_CKSUM_OFF, 0);
    var n := UdpCovered(z);
    var c := 0xFFFF - Fold(PseudoSum(ip, PROTO_UDP, n) + WordSum(z[..n]));
    RepairedForms(ip, PROTO_UDP, seg);
    CoveredKept(seg, 0);
    CoveredKept(z, c);
    WordOfSet(seg, UDP_CKSUM_OFF, 0);
    SetWordTake(z, UDP_CKSUM_OFF, c, n);
    WordAtTake(z, UDP_CKSUM_OFF, n);
    StoredChecksumVerifies(z[..n], UDP_CKSUM_OFF, PseudoSum(ip, PROTO_UDP, n));
  }

  /** The checksum field is not part of what decides how many bytes are covered. */
  lemma CoveredKept(seg: seq<uint8>, w: uint16)
    requires 8 <= |seg|
    ensures UdpCovered(SetWord(seg, UDP_CKSUM_OFF, w)) == UdpCovered(seg)
  {
    WordOfOther(seg, UDP_CKSUM_OFF, w, 4);
    hide SetWord, WordAt;
  }

  lemma WordAtTake(s: seq<uint8>, off: nat, n: nat)
    requires off + 2 <= n <= |s|
    ensures WordAt(s[..n], off) == WordAt(s, off)
  {}

  lemma SetWordTake(s: seq<uint8>, off: nat, w: uint16, n: nat)
    requires off + 2 <= n <= |s|
    ensures SetWord(s, off, w)[..n] == SetWord(s[..n], off, w)
  {}

  /** Nothing but the checksum field changes. */
  lemma RepairKeeps(ip: seq<uint8>, proto: uint8, seg: seq<uint8>, k: nat)
    requires |ip| >= 20 && k < |seg|
    requires proto == PROTO_TCP ==> k !in {16, 17}
    requires proto == PROTO_UDP ==> k !in {6, 7}
    ensures Repaired(ip, proto, seg)[k] == seg[k]
  {
    if proto == PROTO_TCP && |seg| >= 20 {
      var z := SetWord(seg, TCP_CKSUM_OFF, 0);
      SetWordAt(seg, TCP_CKSUM_OFF, 0, k);
      SetWordAt(z, TCP_CKSUM_OFF, 0xFFFF - Fold(PseudoSum(ip, proto, |seg|) + WordSum(z)), k);
    } else if proto == PROTO_UDP && |seg| >= 8 {
      var z := SetWord(seg, UDP_CKSUM_OFF, 0);
      var n := UdpCovered(z);
      SetWordAt(seg, UDP_CKSUM_OFF, 0, k);
      SetWordAt(z, UDP_CKSUM_OFF, 0xFFFF - Fold(PseudoSum(ip, proto, n) + WordSum(z[..n])), k);
    }
  }

  // --- which segments carry the checksum that is recomputed ----------------------------

  /** The checksum of a TCP segment, computed with its checksum field taken as zero. */
  function TcpChecksum(ip: seq<uint8>, seg: seq<uint8>): uint16
    requires |ip| >= 20 && |seg| >= 20
  {
    0xFFFF - Fold(PseudoSum(ip, PROTO_TCP, |seg|) + WordSum(SetWord(seg, TCP_CKSUM_OFF, 0)))
  }

  /** The checksum of a UDP datagram, over the bytes its length field covers. */
  function UdpChecksum(ip: seq<uint8>, seg: seq<uint8>): uint16
    requires |ip| >= 20 && |seg| >= 8
  {
    var n := UdpCovered(seg);
    0xFFFF - Fold(PseudoSum(ip, PROTO_UDP, n) + WordSum(SetWord(seg, UDP_CKSUM_OFF, 0)[..n]))
  }

  /** The sender's test: the checksum field, where there is one, holds what the sum gives. */
  predicate ChecksumStored(ip: seq<uint8>, proto: uint8, seg: seq<uint8>)
    requires |ip| >= 20
  {
    && (proto == PROTO_TCP && |seg| >= 20 ==> WordAt(seg, TCP_CKSUM_OFF) == TcpChecksum(ip, seg))
    && (proto == PROTO_UDP && |seg| >= 8 ==> WordAt(seg, UDP_CKSUM_OFF) == UdpChecksum(ip, seg))
  }

  /** Setting a field twice, and comparing the result with the original. */
  lemma SetIff(seg: seq<uint8>, off: nat, w: uint16)
    requires off + 2 <= |seg|
    ensures SetWord(SetWord(seg, off, 0), off, w) == seg <==> WordAt(seg, off) == w
  {
    SetWordTwice(seg, off, 0, w);
    WordOfSet(seg, off, w);
    SetWordSame(seg, off);
  }

  /** The repair changes nothing exactly when the stored checksum is the one that is recomputed. */
  lemma RepairedIff(ip: seq<uint8>, proto: uint8, seg: seq<uint8>)
    requires |ip| >= 20
    ensures Repaired(ip, proto, seg) == seg <==> ChecksumStored(ip, proto, seg)
  {
    hide Repaired, PseudoSum, WordSum, Fold, SetWord, WordAt, UdpCovered;
    RepairedForms(ip, proto, seg);
    if proto == PROTO_TCP && |seg| >= 20 {
      SetIff(seg, TCP_CKSUM_OFF, TcpChecksum(ip, seg));
    } else if proto == PROTO_UDP && |seg| >= 8 {
      CoveredKept(seg, 0);
      SetIff(seg, UDP_CKSUM_OFF, UdpChecksum(ip, seg));
    }
  }

  /** How far "valid checksum" is from "stored checksum": only 0xFFFF in place of a sum that gives 0 is accepted and
      not reproduced. */
  lemma TcpVerifiesIff(ip: seq<uint8>, seg: seq<uint8>)
    requires |ip| >= 20 && |seg| >= 20
    ensures TcpVerifies(ip, seg) <==>
              ChecksumStored(ip, PROTO_TCP, seg)
              || (TcpChecksum(ip, seg) == 0 && WordAt(seg, TCP_CKSUM_OFF) == 0xFFFF)
  {
    hide PseudoSum, WordSum, Fold, SetWord, WordAt;
    FieldVerifiesIff(seg, TCP_CKSUM_OFF, PseudoSum(ip, PROTO_TCP, |seg|));
  }

  /** The same for UDP; a datagram without checksum, whose field is 0, is given one whenever the sum is not 0. */
  lemma UdpVerifiesIff(ip: seq<uint8>, seg: seq<uint8>)
    requires |ip| >= 20 && 8 <= |seg| <= 0xFFFF
    ensures UdpVerifies(ip, seg) <==>
              ChecksumStored(ip, PROTO_UDP, seg)
              || (UdpChecksum(ip, seg) == 0 && WordAt(seg, UDP_CKSUM_OFF) == 0xFFFF)
    ensures WordAt(seg, UDP_CKSUM_OFF) == 0 ==>
              (Repaired(ip, PROTO_UDP, seg) == seg <==> UdpChecksum(ip, seg) == 0)
  {
    hide PseudoSum, WordSum, Fold, SetWord, WordAt, UdpCovered, Repaired;
    var n := UdpCovered(seg);
    FieldVerifiesIff(seg[..n], UDP_CKSUM_OFF, PseudoSum(ip, PROTO_UDP, n));
    SetWordTake(seg, UDP_CKSUM_OFF, 0, n);
    WordAtTake(seg, UDP_CKSUM_OFF, n);
    RepairedIff(ip, PROTO_UDP, seg);
  }

  // --- the code ------------------------------------------------------------------------

  /** The summing loop of the TCP checksum: the word at the checksum field counts as zero. */
  method TcpSegmentSum(seg: seq<uint8>, start: uint32) returns (sum: uint32)
    requires 20 <= |seg| <= 0xFFFF && start <= 0x5_FFFF
    ensures sum == start + WordSum(SetWord(seg, TCP_CKSUM_OFF, 0))
  {
    ghost var z := SetWord(seg, TCP_CKSUM_OFF, 0);
    sum := start;
    var i := 0;
    while i < |seg|
      invariant 0 <= i <= |seg| + 1 && i % 2 == 0 && (i > |seg| ==> |seg| % 2 == 1)
      invariant sum <= start + 0xFFFF * (i / 2)
      invariant sum + (if i <= |seg| then WordSum(z[i..]) else 0) == start + WordSum(z)
    {
      var word: uint16 := 0;
      if i == TCP_CKSUM_OFF && i + 2 <= |seg| {
        word := 0;
      } else if i + 1 < |seg| {
        word := Word(seg[i], seg[i + 1]);
      } else {
        word := Word(seg[i], 0);
      }
      SetWordAt(seg, TCP_CKSUM_OFF, 0, i);
      if i + 1 < |seg| {
        SetWordAt(seg, TCP_CKSUM_OFF, 0, i + 1);
        assert z[i..][2..] == z[i + 2..];
      }
      sum := sum + word;
      i := i + 2;
    }
    assert i == |seg| ==> z[i..] == [];
  }

  /** Writes the complement of the folded sum into the field at buf[off + at], after clearing it. */
  method StoreComplement(buf: array<uint8>, ghost b: seq<uint8>, ghost seg: seq<uint8>, off: nat, at: nat, sum: uint32)
    requires off + |seg| <= |b| && at + 2 <= |seg|
    requires buf[..] == Write(b, off, seg)
    modifies buf
    ensures buf[..] == Write(b, off, SetWord(seg, at, 0xFFFF - Fold(sum)))
  {
    hide *;
    var folded := FoldCarries(sum);
    WriteSetWord(b, off, seg, at, 0xFFFF - folded);
    StoreWord(buf, off + at, 0xFFFF - folded);
  }

  /** The covered part of the datagram, pseudo-header included, summed in the buffer. */
  method UdpSum(buf: array<uint8>, ip: seq<uint8>, off: nat, len: nat) returns (sum: uint32)
    requires |ip| >= 20 && off + len <= buf.Length && 8 <= len <= 0xFFFF
    ensures var z := buf[..][off..off + len];
            sum == PseudoSum(ip, PROTO_UDP, UdpCovered(z)) + WordSum(z[..UdpCovered(z)])
  {
    hide PseudoSum, WordSum;
    ghost var z := buf[..][off..off + len];
    assert buf[off..off + len] == z;
    var n := UdpCovered(buf[off..off + len]);
    assert buf[off..off + n] == z[..n];
    var words := HeaderSum(buf, off, n);
    WordSumBound(z[..n]);
    sum := PseudoSum(ip, PROTO_UDP, n) + words;
  }

  /** Recomputes the checksum of the segment at buf[off..off+len] in place. */
  method RepairInPlace(buf: array<uint8>, ip: seq<uint8>, proto: uint8, off: nat, len: nat)
    requires |ip| >= 20 && off + len <= buf.Length && len <= 0xFFFF
    modifies buf
    ensures var b := old(buf[..]); buf[..] == Write(b, off, Repaired(ip, proto, b[off..off + len]))
  {
    hide Repaired, PseudoSum, WordSum, Fold, SetWord, WordAt, UdpCovered, Write;
    ghost var b := buf[..];
    var seg := buf[..][off..off + len];
    RepairedForms(ip, proto, seg);
    WriteSame(b, off, len);
    if proto == PROTO_TCP && len >= 20 {
      StoreWord(buf, off + TCP_CKSUM_OFF, 0);
      WriteSetWord(b, off, seg, TCP_CKSUM_OFF, 0);
      var sum := TcpSegmentSum(seg, PseudoSum(ip, proto, len));
      StoreComplement(buf, b, SetWord(seg, TCP_CKSUM_OFF, 0), off, TCP_CKSUM_OFF, sum);
    } else if proto == PROTO_UDP && len >= 8 {
      StoreWord(buf, off + UDP_CKSUM_OFF, 0);
      WriteSetWord(b, off, seg, UDP_CKSUM_OFF, 0);
      ghost var z := SetWord(seg, UDP_CKSUM_OFF, 0);
      WriteSlice(b, off, z);
      var sum := UdpSum(buf, ip, off, len);
      StoreComplement(buf, b, z, off, UDP_CKSUM_OFF, sum);
    }
  }
}
