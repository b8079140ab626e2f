/** Machine integers, big-endian 16-bit fields and the two buffer primitives
    (memcpy/memmove into a buffer) that every other module is written with. */
module Bytes {
  type uint8 = x: int | 0 <= x < 0x100
  type uint16 = x: int | 0 <= x < 0x1_0000
  type uint32 = x: int | 0 <= x < 0x1_0000_0000
  type uint64 = x: int | 0 <= x < 0x1_0000_0000_0000_0000

  /** Time since then, in the unsigned 64-bit arithmetic of the clocks. */
  function Elapsed(now: uint64, since: uint64): uint64 { (now - since) % 0x1_0000_0000_0000_0000 }

  datatype Option<+T> = None | Some(value: T)

  function Hi(w: uint16): uint8 { w / 0x100 }

  function Lo(w: uint16): uint8 { w % 0x100 }

  function Word(hi: uint8, lo: uint8): uint16 { hi * 0x100 + lo }

  lemma WordRoundTrip(w: uint16, hi: uint8, lo: uint8)
    ensures Word(Hi(w), Lo(w)) == w
    ensures Hi(Word(hi, lo)) == hi && Lo(Word(hi, lo)) == lo
  {}

  /** The 16-bit big-endian field of s that starts at off. */
  function WordAt(s: seq<uint8>, off: nat): uint16
    requires off + 2 <= |s|
  {
    Word(s[off], s[off + 1])
  }

  /** s with the field at off replaced by w. */
  function SetWord(s: seq<uint8>, off: nat, w: uint16): (r: seq<uint8>)
    requires off + 2 <= |s|
    ensures |r| == |s|
  {
    s[..off] + [Hi(w), Lo(w)] + s[off + 2..]
  }

  lemma SetWordSame(s: seq<uint8>, off: nat)
    requires off + 2 <= |s|
    ensures SetWord(s, off, WordAt(s, off)) == s
  {
    var w := WordAt(s, off);
    assert Hi(w) == s[off] && Lo(w) == s[off + 1] by { WordRoundTrip(0, s[off], s[off + 1]); }
    assert [Hi(w), Lo(w)] == s[off..off + 2];
    assert s == s[..off] + s[off..off + 2] + s[off + 2..];
  }

  /** s with the bytes from off on overwritten by src. */
  function Write(s: seq<uint8>, off: nat, src: seq<uint8>): (r: seq<uint8>)
    requires off + |src| <= |s|
    ensures |r| == |s|
  {
    s[..off] + src + s[off + |src|..]
  }

  lemma WriteSame(s: seq<uint8>, off: nat, len: nat)
    requires off + len <= |s|
    ensures Write(s, off, s[off..off + len]) == s
  {}

  lemma WriteSlice(s: seq<uint8>, off: nat, src: seq<uint8>)
    requires off + |src| <= |s|
    ensures Write(s, off, src)[off..off + |src|] == src
    ensures Write(s, off, src)[..off] == s[..off]
    ensures Write(s, off, src)[off + |src|..] == s[off + |src|..]
  {}

  lemma WriteMiddle(pre: seq<uint8>, mid: seq<uint8>, post: seq<uint8>, src: seq<uint8>)
    requires |src| == |mid|
    ensures Write(pre + mid + post, |pre|, src) == pre + src + post
  {}

  lemma Join(s: seq<uint8>, i: nat, j: nat)
    requires i <= j <= |s|
    ensures s[..i] + s[i..j] == s[..j]
  {}

  lemma Prefix(a: seq<uint8>, x: seq<uint8>)
    ensures (a + x)[..|a|] == a && (a + x)[|a|..] == x
  {}

  /** s cut into six parts. */
  lemma SixParts(s: seq<uint8>, i: nat, j: nat, k: nat, l: nat, m: nat)
    requires i <= j <= k <= l <= m <= |s|
    ensures s == s[..i] + s[i..j] + s[j..k] + s[k..l] + s[l..m] + s[m..]
  {
    Join(s, i, j);
    Join(s, j, k);
    Join(s, k, l);
    Join(s, l, m);
    Join(s, m, |s|);
    assert s[m..] == s[m..|s|] && s[..|s|] == s;
  }

  lemma FourParts(s: seq<uint8>, i: nat, j: nat, k: nat)
    requires i <= j <= k <= |s|
    ensures s == s[..i] + s[i..j] + s[j..k] + s[k..]
  {
    Join(s, i, j);
    Join(s, j, k);
    assert s == s[..k] + s[k..];
  }

  /** A slice of a slice. */
  lemma SubSlice(s: seq<uint8>, i: nat, j: nat, a: nat, b: nat)
    requires i <= j <= |s| && a <= b <= j - i
    ensures s[i..j][a..b] == s[i + a..i + b]
  {
    var l, r := s[i..j][a..b], s[i + a..i + b];
    assert |l| == |r|;
    assert forall k | 0 <= k < |l| :: l[k] == s[i..j][a + k] && r[k] == s[i + a + k];
  }

  /** A slice that lies in a prefix. */
  lemma SliceOfPrefix(s: seq<uint8>, len: nat, i: nat, j: nat)
    requires i <= j <= len <= |s|
    ensures s[..len][i..j] == s[i..j]
  {}

  lemma Assoc(a: seq<uint8>, b: seq<uint8>, c: seq<uint8>)
    ensures a + b + c == a + (b + c)
  {}

  /** Three writes into a buffer made of the parts a b c d e x: to e, then to d, then to b. */
  lemma WriteThree(a: seq<uint8>, b: seq<uint8>, c: seq<uint8>, d: seq<uint8>, e: seq<uint8>, x: seq<uint8>,
                   b': seq<uint8>, d': seq<uint8>, e': seq<uint8>)
    requires |b'| == |b| && |d'| == |d| && |e'| == |e|
    ensures var s1 := Write(a + b + c + d + e + x, |a| + |b| + |c| + |d|, e');
            var s2 := Write(s1, |a| + |b| + |c|, d');
            && s2 == a + b + c + d' + e' + x
            && Write(s2, |a|, b') == a + b' + c + d' + e' + x
  {
    hide *;
    WriteMiddle(a + b + c + d, e, x, e');
    Assoc(a + b + c + d, e', x);
    WriteMiddle(a + b + c, d, e' + x, d');
    Assoc(a + b + c + d', e', x);
    AssocFour(a + b, c, d', e', x);
    WriteMiddle(a, b, c + d' + e' + x, b');
    AssocFour(a + b', c, d', e', x);
  }

  lemma AssocFour(a: seq<uint8>, b: seq<uint8>, c: seq<uint8>, d: seq<uint8>, e: seq<uint8>)
    ensures a + b + c + d + e == a + (b + c + d + e)
  {
    Assoc(a, b + c + d, e);
    Assoc(a, b + c, d);
    Assoc(a, b, c);
  }

  /** Setting a field inside a window is rewriting the window with the field set. */
  lemma WriteSetWord(s: seq<uint8>, off: nat, h: seq<uint8>, i: nat, w: uint16)
    requires off + |h| <= |s| && i + 2 <= |h|
    ensures SetWord(Write(s, off, h), off + i, w) == Write(s, off, SetWord(h, i, w))
  {
    var pre, post := s[..off], s[off + |h|..];
    var l := SetWord(pre + h + post, off + i, w);
    var r := pre + SetWord(h, i, w) + post;
    assert (pre + h + post)[..off + i] == pre + h[..i];
    assert (pre + h + post)[off + i + 2..] == h[i + 2..] + post;
    assert l == pre + h[..i] + [Hi(w), Lo(w)] + (h[i + 2..] + post);
    assert r == pre + (h[..i] + [Hi(w), Lo(w)] + h[i + 2..]) + post;
  }

  /** The next memcpy of a sequence that fills buf from the front. */
  method AppendAt(buf: array<uint8>, ghost filled: seq<uint8>, off: nat, src: seq<uint8>)
    requires off == |filled| && off + |src| <= buf.Length && buf[..off] == filled
    modifies buf
    ensures buf[..off + |src|] == filled + src
  {
    ghost var b := buf[..];
    assert b[..off] == filled;
    CopyInto(buf, off, src);
    Prefix(b[..off] + src, b[off + |src|..]);
    ghost var b' := buf[..];
    assert buf[..off + |src|] == b'[..off + |src|];
  }

  method StoreWord(buf: array<uint8>, off: nat, w: uint16)
    requires off + 2 <= buf.Length
    modifies buf
    ensures buf[..] == SetWord(old(buf[..]), off, w)
  {
    buf[off] := Hi(w);
    buf[off + 1] := Lo(w);
  }

  /** Cutting a concatenation back into its parts. */
  lemma Cut(a: seq<uint8>, b: seq<uint8>, c: seq<uint8>)
    ensures (a + b + c)[..|a|] == a
    ensures (a + b + c)[|a|..|a| + |b|] == b
    ensures (a + b + c)[|a| + |b|..] == c
  {}

  /** memcpy of src into buf at off.  A memmove inside buf is the same call with
      src := buf[a..b], whose bytes are read before the first one is written. */
  method CopyInto(buf: array<uint8>, off: nat, src: seq<uint8>)
    requires off + |src| <= buf.Length
    modifies buf
    ensures buf[..] == Write(old(buf[..]), off, src)
  {
    ghost var was := buf[..];
    for i := 0 to |src|
      invariant buf[..] == Write(was, off, src[..i])
    {
      buf[off + i] := src[i];
      assert src[..i + 1] == src[..i] + [src[i]];
    }
    assert src[..|src|] == src;
  }
}
