/** The one's-complement Internet checksum (section 1 of RFC 1071): the loops the
    forwarder runs, the closed form of the folding step, and what makes a header
    pass the receive verifier. */
module InternetChecksum {
  import opened Bytes

  /** Sum of the big-endian 16-bit words of s; an odd last byte is the high half of its word. */
  function WordSum(s: seq<uint8>): nat
  {
    if s == [] then 0
    else if |s| == 1 then s[0] * 0x100
    else Word(s[0], s[1]) + WordSum(s[2..])
  }

  /** Adding the carries back in until none are left. */
  function Fold(sum: nat): uint16
  {
    if sum < 0x1_0000 then sum else Fold(sum % 0x1_0000 + sum / 0x1_0000)
  }

  /** The representative of n modulo 65535 in 1..65535, and 0 for 0 itself. */
  function Residue(n: nat): uint16
  {
    if n == 0 then 0 else (n - 1) % 0xFFFF + 1
  }

  /** The closed form: folding is reduction modulo 65535, with 65535 standing for every nonzero multiple. */
  lemma {:induction false} FoldClosedForm(sum: nat)
    ensures Fold(sum) == Residue(sum)
    decreases sum
  {
    if sum >= 0x1_0000 {
      var q, m := sum / 0x1_0000, sum % 0x1_0000;
      FoldClosedForm(m + q);
      ResidueShift(m + q, q);
      assert sum == (m + q) + q * 0xFFFF;
    }
  }

  lemma {:induction false} ResidueShift(n: nat, q: nat)
    requires n > 0
    ensures Residue(n + q * 0xFFFF) == Residue(n)
  {
    if q > 0 {
      ResidueShift(n, q - 1);
      assert n + q * 0xFFFF == (n + (q - 1) * 0xFFFF) + 0xFFFF;
    }
  }

  /** Folding keeps the value modulo 65535, and it is 0 only for 0. */
  lemma FoldKeepsValue(sum: nat)
    ensures Fold(sum) % 0xFFFF == sum % 0xFFFF
    ensures Fold(sum) == 0 <==> sum == 0
  {
    hide Fold;
    FoldClosedForm(sum);
  }

  /** n + f leaves no remainder exactly when f completes the residue of n to 65535, or wraps it a second time. */
  lemma ResidueFull(n: nat, f: uint16)
    requires n > 0
    ensures Residue(n + f) == 0xFFFF <==> f == 0xFFFF - Residue(n) || (Residue(n) == 0xFFFF && f == 0xFFFF)
  {
    var q, m := (n - 1) / 0xFFFF, (n - 1) % 0xFFFF;
    assert n + f == (m + 1 + f) + q * 0xFFFF;
    ResidueShift(m + 1 + f, q);
  }

  /** The header checksum: the complement of the folded sum. */
  function Checksum(s: seq<uint8>): uint16 { 0xFFFF - Fold(WordSum(s)) }

  /** What the receiver tests: the folded sum over the whole header, checksum included, is all ones. */
  predicate Verifies(s: seq<uint8>) { Fold(WordSum(s)) == 0xFFFF }

  lemma {:induction false} WordSumAppend(s: seq<uint8>, t: seq<uint8>)
    requires |s| % 2 == 0
    ensures WordSum(s + t) == WordSum(s) + WordSum(t)
    decreases |s|
  {
    if s == [] {
      assert s + t == t;
    } else {
      assert (s + t)[2..] == s[2..] + t;
      WordSumAppend(s[2..], t);
    }
  }

  lemma {:induction false} WordSumBound(s: seq<uint8>)
    ensures WordSum(s) <= 0xFFFF * ((|s| + 1) / 2)
    decreases |s|
  {
    if |s| > 1 {
      WordSumBound(s[2..]);
    }
  }

  lemma WordSumThree(a: seq<uint8>, hi: uint8, lo: uint8, b: seq<uint8>)
    requires |a| % 2 == 0
    ensures WordSum(a + [hi, lo] + b) == WordSum(a) + Word(hi, lo) + WordSum(b)
  {
    assert a + [hi, lo] + b == a + ([hi, lo] + b);
    WordSumAppend(a, [hi, lo] + b);
    assert ([hi, lo] + b)[2..] == b;
  }

  lemma SetWordSum(s: seq<uint8>, off: nat, w: uint16)
    requires off % 2 == 0 && off + 2 <= |s|
    ensures WordSum(SetWord(s, off, w)) == WordSum(s[..off]) + w + WordSum(s[off + 2..])
  {
    WordRoundTrip(w, 0, 0);
    WordSumThree(s[..off], Hi(w), Lo(w), s[off + 2..]);
  }

  /** Replacing an aligned field changes the sum by exactly the difference of the two words. */
  lemma {:induction false} WordSumSet(s: seq<uint8>, off: nat, w: uint16)
    requires off % 2 == 0 && off + 2 <= |s|
    ensures WordSum(SetWord(s, off, w)) + WordAt(s, off) == WordSum(s) + w
  {
    var v := WordAt(s, off);
    SetWordSum(s, off, w);
    SetWordSum(s, off, v);
    SetWordSame(s, off);
  }

  /** Storing the complement of the sum in a zeroed field makes the verifier accept, whatever else
      (a pseudo-header, say) is summed with the bytes. */
  lemma StoredChecksumVerifies(s: seq<uint8>, off: nat, extra: nat)
    requires off % 2 == 0 && off + 2 <= |s| && WordAt(s, off) == 0 && extra + WordSum(s) > 0
    ensures Fold(extra + WordSum(SetWord(s, off, 0xFFFF - Fold(extra + WordSum(s))))) == 0xFFFF
  {
    hide WordSum, Fold, Residue, SetWord, WordAt;
    var n := extra + WordSum(s);
    FoldClosedForm(n);
    WordSumSet(s, off, 0xFFFF - Fold(n));
    FoldClosedForm(n + (0xFFFF - Fold(n)));
    ResidueFull(n, 0xFFFF - Fold(n));
  }

  lemma ChecksumFieldVerifies(s: seq<uint8>, off: nat)
    requires off % 2 == 0 && off + 2 <= |s| && WordAt(s, off) == 0 && WordSum(s) > 0
    ensures Verifies(SetWord(s, off, Checksum(s)))
  {
    hide WordSum, Fold, SetWord, WordAt;
    StoredChecksumVerifies(s, off, 0);
  }

  /** Exactly which values of the field verify: the stored checksum, and, because one's complement has
      two zeros, also 0xFFFF in place of a stored 0. */
  lemma FieldVerifiesIff(s: seq<uint8>, off: nat, extra: nat)
    requires off % 2 == 0 && off + 2 <= |s| && extra + WordSum(SetWord(s, off, 0)) > 0
    ensures var c := 0xFFFF - Fold(extra + WordSum(SetWord(s, off, 0)));
            Fold(extra + WordSum(s)) == 0xFFFF <==>
              WordAt(s, off) == c || (c == 0 && WordAt(s, off) == 0xFFFF)
  {
    hide WordSum, Fold, SetWord, WordAt, Residue;
    var rest, f := extra + WordSum(SetWord(s, off, 0)), WordAt(s, off);
    WordSumSet(s, off, 0);
    FoldClosedForm(rest);
    FoldClosedForm(rest + f);
    ResidueFull(rest, f);
  }

  lemma VerifiesIff(s: seq<uint8>, off: nat)
    requires off % 2 == 0 && off + 2 <= |s| && WordSum(SetWord(s, off, 0)) > 0
    ensures Verifies(s) <==>
              var c := Checksum(SetWord(s, off, 0));
              WordAt(s, off) == c || (c == 0 && WordAt(s, off) == 0xFFFF)
  {
    hide WordSum, Fold, SetWord, WordAt;
    FieldVerifiesIff(s, off, 0);
  }

  /** The checksum loop over len bytes of buf at off. */
  method HeaderSum(buf: array<uint8>, off: nat, len: nat) returns (sum: uint32)
    requires off + len <= buf.Length && len <= 0xFFFF
    ensures sum == WordSum(buf[off..off + len])
  {
    sum := 0;
    var i := 0;
    ghost var s := buf[off..off + len];
    while i < len
      invariant 0 <= i <= len + 1 && (i > len ==> len % 2 == 1) && i % 2 == 0
      invariant sum <= 0xFFFF * (i / 2)
      invariant sum + (if i <= len then WordSum(s[i..]) else 0) == WordSum(s)
    {
      var word: uint16 := Word(buf[off + i], 0);
      if i + 1 < len {
        word := Word(buf[off + i], buf[off + i + 1]);
        assert s[i..][2..] == s[i + 2..];
      }
      assert s[i..][0] == buf[off + i];
      sum := sum + word;
      i := i + 2;
    }
    assert i == len ==> s[i..] == [];
  }

  /** The carry loop; it needs no more than 32 bits because the sum shrinks at every turn. */
  method FoldCarries(start: uint32) returns (folded: uint16)
    ensures folded == Fold(start)
  {
    var sum: uint32 := start;
    while sum >= 0x1_0000
      invariant Fold(sum) == Fold(start)
      decreases sum
    {
      sum := sum % 0x1_0000 + sum / 0x1_0000;
    }
    folded := sum;
  }

  method CalcIpChecksum(buf: array<uint8>, off: nat, len: nat) returns (c: uint16)
    requires off + len <= buf.Length && len <= 0xFFFF
    ensures c == Checksum(buf[off..off + len])
  {
    var sum := HeaderSum(buf, off, len);
    var folded := FoldCarries(sum);
    c := 0xFFFF - folded;
  }

  /** The receive verifier of the bridge path. */
  method HeaderChecksumOk(buf: array<uint8>, off: nat, ihl: nat) returns (ok: bool)
    requires off + ihl <= buf.Length && ihl <= 60
    ensures ok <==> Verifies(buf[off..off + ihl])
  {
    var sum := HeaderSum(buf, off, ihl);
    var folded := FoldCarries(sum);
    ok := folded == 0xFFFF;
  }
}
