/** The two buffer rewritings all three layers share: opening a sealed payload and moving it down over its
    tunnel header, and building a fragment in an output buffer. */
module Tunnel {
  import opened Bytes
  import opened Ipv4
  import opened PacketCrypto

  function TunnelHdr(nonce: seq<uint8>, policyId: uint8, magic: uint8): (t: seq<uint8>)
    ensures |t| == |nonce| + 2
  {
    nonce + [policyId, magic]
  }

  lemma TunnelHdrParts(nonce: seq<uint8>, policyId: uint8, magic: uint8)
    ensures var t := TunnelHdr(nonce, policyId, magic);
            && |t| == |nonce| + 2 && t[..|nonce|] == nonce
            && t[|nonce|] == policyId && t[|nonce| + 1] == magic
  {}

  /** A decrypted fragment: the packet with its plaintext, and the tag that says where it belongs. */
  datatype Fragment = Fragment(packet: seq<uint8>, id: uint16, index: uint8)

  function FragTag(id: uint16, index: uint8): (tag: seq<uint8>)
    ensures |tag| == 4
  {
    [Hi(id), Lo(id), index, 0]
  }

  /** How the copies of a fragment's parts line up with its form. */
  lemma FragmentGrouping(head: seq<uint8>, tunnel: seq<uint8>, tag: seq<uint8>, sealed: seq<uint8>)
    ensures head + tunnel + tag + sealed == head + (tunnel + (tag + sealed))
    ensures head + tunnel + (tag + sealed) == head + (tunnel + (tag + sealed))
  {
    Assoc(head + tunnel, tag, sealed);
    Assoc(head, tunnel, tag + sealed);
  }

  // --- wrapping ----------------------------------------------------------------------

  /** b up to dst with the IP header at b[l3..toff] announcing total, then a tunnel header and a sealed payload. */
  function Wrapped(b: seq<uint8>, l3: nat, toff: nat, dst: nat, total: nat,
                   tunnel: seq<uint8>, sealed: seq<uint8>): (r: seq<uint8>)
    requires l3 + 20 <= toff <= dst <= |b|
    ensures |r| == dst + |tunnel| + |sealed|
  {
    b[..l3] + Patch(b[l3..toff], total) + b[toff..dst] + tunnel + sealed
  }

  /** Only the first dst bytes of the buffer matter. */
  lemma WrappedPrefix(b: seq<uint8>, len: nat, l3: nat, toff: nat, dst: nat, total: nat,
                      tunnel: seq<uint8>, sealed: seq<uint8>)
    requires l3 + 20 <= toff <= dst <= len <= |b|
    ensures Wrapped(b, l3, toff, dst, total, tunnel, sealed) == Wrapped(b[..len], l3, toff, dst, total, tunnel, sealed)
  {
    var p := b[..len];
    assert p[..l3] == b[..l3] && p[l3..toff] == b[l3..toff] && p[toff..dst] == b[toff..dst];
  }

  /** Replaces everything from dst on by a tunnel header and the sealed payload. */
  method WrapInPlace(buf: array<uint8>, l3: nat, toff: nat, dst: nat, total: nat,
                     tunnel: seq<uint8>, sealed: seq<uint8>) returns (newLen: nat)
    requires l3 + 20 <= toff <= l3 + 60 && toff <= dst && dst + |tunnel| + |sealed| <= buf.Length
    modifies buf
    ensures newLen == dst + |tunnel| + |sealed|
    ensures buf[..newLen] == Wrapped(old(buf[..]), l3, toff, dst, total, tunnel, sealed)
  {
    hide *;
    newLen := dst + |tunnel| + |sealed|;
    ghost var b0 := buf[..];
    CopyInto(buf, dst + |tunnel|, sealed);
    ghost var b1 := buf[..];
    CopyInto(buf, dst, tunnel);
    ghost var b2 := buf[..];
    PatchInPlace(buf, l3, toff, total);
    ghost var b3 := buf[..];
    WrapBuffer(b0, b1, b2, b3, l3, toff, dst, total, tunnel, sealed);
    assert buf[..newLen] == b3[..newLen];
  }

  /** The three writes of WrapInPlace, as one rewriting of the buffer b. */
  lemma WrapBuffer(b: seq<uint8>, b1: seq<uint8>, b2: seq<uint8>, b3: seq<uint8>, l3: nat, toff: nat, dst: nat,
                   total: nat, t: seq<uint8>, e: seq<uint8>)
    requires l3 + 20 <= toff <= dst && dst + |t| + |e| <= |b|
    requires b1 == Write(b, dst + |t|, e) && b2 == Write(b1, dst, t)
    requires b3 == Write(b2, l3, Patch(b2[l3..toff], total))
    ensures b3[..dst + |t| + |e|] == Wrapped(b, l3, toff, dst, total, t, e)
  {
    var enc, n := dst + |t|, dst + |t| + |e|;
    var a, h, p, t0, e0, x := b[..l3], b[l3..toff], b[toff..dst], b[dst..enc], b[enc..n], b[n..];
    var h' := Patch(h, total);
    assert Wrapped(b, l3, toff, dst, total, t, e) == a + h' + p + t + e;
    hide *;
    SixParts(b, l3, toff, dst, enc, n);
    WriteThree(a, h, p, t0, e0, x, h', t, e);
    AssocFour(a + h, p, t, e, x);
    Cut(a, h, p + t + e + x);
    Prefix(a + h' + p + t + e, x);
    assert |a + h' + p + t + e| == n;
  }

  // --- unwrapping --------------------------------------------------------------------

  /** b up to dst, with the IP header at b[l3..toff] patched to total, then the plaintext. */
  function Unwrapped(b: seq<uint8>, l3: nat, toff: nat, dst: nat, total: nat, plain: seq<uint8>): (r: seq<uint8>)
    requires l3 + 20 <= toff <= dst <= |b|
    ensures |r| == dst + |plain|
  {
    b[..l3] + Patch(b[l3..toff], total) + b[toff..dst] + plain
  }

  lemma UnwrappedPrefix(b: seq<uint8>, len: nat, l3: nat, toff: nat, dst: nat, total: nat, plain: seq<uint8>)
    requires l3 + 20 <= toff <= dst <= len <= |b|
    ensures Unwrapped(b, l3, toff, dst, total, plain) == Unwrapped(b[..len], l3, toff, dst, total, plain)
  {
    var p := b[..len];
    assert p[..l3] == b[..l3] && p[l3..toff] == b[l3..toff] && p[toff..dst] == b[toff..dst];
  }

  /** Patching the header of a moved-down packet. */
  lemma PatchMoved(b: seq<uint8>, l3: nat, toff: nat, dst: nat, total: nat, plain: seq<uint8>, x: seq<uint8>)
    requires l3 + 20 <= toff <= dst <= |b|
    ensures var m := b[..dst] + plain + x;
            && m[l3..toff] == b[l3..toff]
            && Write(m, l3, Patch(b[l3..toff], total)) == Unwrapped(b, l3, toff, dst, total, plain) + x
  {
    var a, h, p := b[..l3], b[l3..toff], b[toff..dst];
    var h' := Patch(h, total);
    assert Unwrapped(b, l3, toff, dst, total, plain) == a + h' + p + plain;
    hide *;
    Join(b, l3, toff);
    Join(b, toff, dst);
    AssocFour(a, h, p, plain, x);
    AssocFour(a, h', p, plain, x);
    Assoc(a, h, p + plain + x);
    Assoc(a, h', p + plain + x);
    Cut(a, h, p + plain + x);
    WriteMiddle(a, h, p + plain + x, h');
  }

  /** Opens buf[enc..len] in place and moves the plaintext down to dst. */
  method OpenAndMove(c: Cipher, s: Settings, ctx: CryptoCtx, nonce: seq<uint8>, buf: array<uint8>,
                     dst: nat, enc: nat, len: nat, accept: seq<uint8> -> bool)
    returns (plainLen: int, ghost rest: seq<uint8>)
    requires c.Lawful() && ctx.Valid() && |nonce| <= IV_SIZE
    requires dst <= enc <= len <= buf.Length
    modifies buf
    ensures var b := old(buf[..]);
            var plain := Open(c, s, ctx, nonce, b[enc..len], accept);
            if plain.None? then
              plainLen == -1 && buf[..] == b[..enc] + Spoiled(c, s, ctx, nonce, b[enc..len], accept) + b[len..]
            else plainLen == |plain.value| <= len - enc
                 && buf[..] == b[..dst] + plain.value + rest
  {
    hide Open, Spoiled;
    ghost var b := buf[..];
    ghost var plain := Open(c, s, ctx, nonce, b[enc..len], accept);
    assert buf[enc..len] == b[enc..len] && buf[len..] == b[len..] && buf[..enc] == b[..enc];
    rest := [];
    plainLen := OpenInPlace(c, s, ctx, nonce, buf, enc, len - enc, accept);
    if plainLen >= 0 {
      ghost var b1 := buf[..];
      assert b1[..dst] == b[..dst] by {
        assert b1[..enc] == buf[..enc] == b[..enc];
        assert b1[..enc][..dst] == b1[..dst] && b[..enc][..dst] == b[..dst];
      }
      var work := buf[enc..enc + plainLen];
      CopyInto(buf, dst, work);
      rest := b1[dst + |work|..];
      assert buf[..] == b1[..dst] + work + rest;
    }
  }

  /** Decryption of the packet b[..len]: IP header at l3..toff, nonce at dst, sealed payload from enc on.  The
      plaintext takes the place of everything from dst on and the header announces the new length. */
  function OpenAt(c: Cipher, s: Settings, ctx: CryptoCtx, b: seq<uint8>, len: nat,
                  l3: nat, toff: nat, dst: nat, enc: nat, accept: seq<uint8> -> bool): Option<seq<uint8>>
    requires s.Valid() && ctx.Valid() && l3 + 20 <= toff <= dst && dst + s.nonceSize <= enc <= len <= |b|
  {
    var plain := Open(c, s, ctx, b[dst..dst + s.nonceSize], b[enc..len], accept);
    if plain.None? then None
    else Some(Unwrapped(b, l3, toff, dst, dst + |plain.value| - l3, plain.value))
  }

  /** Only the packet matters, not the rest of its buffer. */
  lemma OpenAtPrefix(c: Cipher, s: Settings, ctx: CryptoCtx, b: seq<uint8>, len: nat,
                     l3: nat, toff: nat, dst: nat, enc: nat, accept: seq<uint8> -> bool)
    requires s.Valid() && ctx.Valid() && l3 + 20 <= toff <= dst && dst + s.nonceSize <= enc <= len <= |b|
    ensures OpenAt(c, s, ctx, b[..len], |b[..len]|, l3, toff, dst, enc, accept)
         == OpenAt(c, s, ctx, b, len, l3, toff, dst, enc, accept)
  {
    hide Open, Unwrapped;
    SliceOfPrefix(b, len, dst, dst + s.nonceSize);
    SliceOfPrefix(b, len, enc, len);
    var plain := Open(c, s, ctx, b[dst..dst + s.nonceSize], b[enc..len], accept);
    if plain.Some? {
      UnwrappedPrefix(b, len, l3, toff, dst, dst + |plain.value| - l3, plain.value);
    }
  }

  method OpenMovePatch(c: Cipher, s: Settings, ctx: CryptoCtx, buf: array<uint8>, len: nat,
                       l3: nat, toff: nat, dst: nat, enc: nat, accept: seq<uint8> -> bool)
    returns (newLen: int)
    requires c.Lawful() && s.Valid() && ctx.Valid()
    requires l3 + 20 <= toff <= dst && toff <= l3 + 60 && dst + s.nonceSize <= enc <= len <= buf.Length
    modifies buf
    ensures var b := old(buf[..]);
            var r := OpenAt(c, s, ctx, b, len, l3, toff, dst, enc, accept);
            var nonce := b[dst..dst + s.nonceSize];
            if r.None? then
              newLen == -1 && buf[..] == b[..enc] + Spoiled(c, s, ctx, nonce, b[enc..len], accept) + b[len..]
            else newLen == |r.value| <= buf.Length && buf[..newLen] == r.value
  {
    ghost var b := buf[..];
    var nonce := buf[dst..dst + s.nonceSize];
    ghost var r := Open(c, s, ctx, nonce, b[enc..len], accept);
    assert OpenAt(c, s, ctx, b, len, l3, toff, dst, enc, accept)
        == if r.None? then None else Some(Unwrapped(b, l3, toff, dst, dst + |r.value| - l3, r.value));
    hide OpenAt, Open, Unwrapped, Spoiled;
    var plainLen, rest := OpenAndMove(c, s, ctx, nonce, buf, dst, enc, len, accept);
    if plainLen < 0 {
      return -1;
    }
    newLen := dst + plainLen;
    PatchMovedHeader(buf, b, l3, toff, dst, newLen - l3, r.value, rest);
  }

  /** The header patch after the payload has been moved down. */
  method PatchMovedHeader(buf: array<uint8>, ghost b: seq<uint8>, l3: nat, toff: nat, ghost dst: nat, total: nat,
                          ghost plain: seq<uint8>, ghost rest: seq<uint8>)
    requires l3 + 20 <= toff <= l3 + 60 && toff <= dst <= |b|
    requires buf[..] == b[..dst] + plain + rest
    modifies buf
    ensures buf[..] == Unwrapped(b, l3, toff, dst, total, plain) + rest
    ensures dst + |plain| <= buf.Length && buf[..dst + |plain|] == Unwrapped(b, l3, toff, dst, total, plain)
  {
    hide *;
    assert |b[..dst] + plain + rest| == buf.Length;
    PatchMoved(b, l3, toff, dst, total, plain, rest);
    PatchInPlace(buf, l3, toff, total);
    ghost var m := buf[..];
    ghost var u := Unwrapped(b, l3, toff, dst, total, plain);
    assert m == u + rest;
    Prefix(u, rest);
    assert buf[..dst + |plain|] == m[..dst + |plain|];
  }

  /** The header patch of a freshly built fragment. */
  method PatchBuiltHeader(buf: array<uint8>, ghost eth: seq<uint8>, ghost ip: seq<uint8>, ghost tail: seq<uint8>,
                          l3: nat, toff: nat, newLen: nat)
    requires l3 == |eth| && toff == l3 + |ip| && newLen == toff + |tail| <= buf.Length && 20 <= |ip| <= 60
    requires buf[..newLen] == eth + ip + tail
    modifies buf
    ensures buf[..newLen] == eth + Patch(ip, newLen - l3) + tail
  {
    ghost var b, rest := eth + ip, buf[newLen..];
    hide *;
    assert b[..toff] == b && buf[..] == b[..toff] + tail + rest;
    PatchMovedHeader(buf, b, l3, toff, toff, newLen - l3, tail, rest);
    BuiltForm(eth, ip, tail, newLen - l3);
  }

  lemma BuiltForm(eth: seq<uint8>, ip: seq<uint8>, tail: seq<uint8>, total: nat)
    requires |ip| >= 20
    ensures Unwrapped(eth + ip, |eth|, |eth| + |ip|, |eth| + |ip|, total, tail) == eth + Patch(ip, total) + tail
  {
    var b := eth + ip;
    assert b[..|eth|] == eth && b[|eth|..|eth| + |ip|] == ip && b[|eth| + |ip|..|eth| + |ip|] == [];
    assert eth + Patch(ip, total) + [] == eth + Patch(ip, total);
  }

  /** The Ethernet part decides where the IP header starts; what follows it is irrelevant. */
  lemma OffsetOfPrefix(eth: seq<uint8>, a: seq<uint8>, b: seq<uint8>)
    requires EthIpv4Offset(eth + a) == Some(|eth|)
    ensures EthIpv4Offset(eth + b) == Some(|eth|)
  {
    var x, y := eth + a, eth + b;
    assert |eth| in {14, 18, 22};
    assert forall k | 0 <= k < |eth| :: x[k] == eth[k] && y[k] == eth[k];
  }

  /** The parts of a packet of the tunnel shape, at the offsets the code computes. */
  lemma Parts(eth: seq<uint8>, h: seq<uint8>, ports: seq<uint8>, nonce: seq<uint8>, id: uint8, magic: uint8,
              rest: seq<uint8>)
    requires |h| >= 20
    requires EthIpv4Offset(eth + h) == Some(|eth|)
    ensures var p := eth + h + ports + TunnelHdr(nonce, id, magic) + rest;
            var toff := |eth| + |h|;
            var tun := toff + |ports|;
            && EthIpv4Offset(p) == Some(|eth|)
            && |p| == tun + |nonce| + 2 + |rest|
            && p[..|eth|] == eth && p[|eth|..toff] == h && p[toff..tun] == ports
            && p[|eth|] == h[0] && p[|eth| + 9] == h[9]
            && p[tun..tun + |nonce|] == nonce
            && p[tun + |nonce|] == id && p[tun + |nonce| + 1] == magic
            && p[tun + |nonce| + 2..] == rest
  {
    hide *;
    var t := TunnelHdr(nonce, id, magic);
    var p := eth + h + ports + t + rest;
    TunnelHdrParts(nonce, id, magic);
    OffsetOfPrefix(eth, h, h + ports + t + rest);
    AssocFour(eth, h, ports, t, rest);
    Assoc(eth + h + ports, t, rest);
    Assoc(eth + h, ports, t + rest);
    Cut(eth, h, ports + (t + rest));
    Cut(eth + h, ports, t + rest);
    Cut(eth + h + ports, t, rest);
    assert p[|eth|] == p[|eth|..|eth| + |h|][0] && p[|eth| + 9] == p[|eth|..|eth| + |h|][9];
    var tun := |eth| + |h| + |ports|;
    assert p[tun..tun + |nonce|] == p[tun..tun + |t|][..|nonce|];
    assert p[tun + |nonce|] == p[tun..tun + |t|][|nonce|];
    assert p[tun + |nonce| + 1] == p[tun..tun + |t|][|nonce| + 1];
  }

  lemma UnwrappedParts(p: seq<uint8>, eth: seq<uint8>, h: seq<uint8>, ports: seq<uint8>, total: nat, plain: seq<uint8>)
    requires |h| >= 20 && |eth| + |h| + |ports| <= |p|
    requires p[..|eth|] == eth && p[|eth|..|eth| + |h|] == h && p[|eth| + |h|..|eth| + |h| + |ports|] == ports
    ensures Unwrapped(p, |eth|, |eth| + |h|, |eth| + |h| + |ports|, total, plain)
            == eth + Patch(h, total) + ports + plain
  {}

  lemma TagParts(p: seq<uint8>, tag: nat, id: uint16, index: uint8, body: seq<uint8>)
    requires tag <= |p| && p[tag..] == FragTag(id, index) + body
    ensures tag + 4 <= |p| && WordAt(p, tag) == id && p[tag + 2] == index && p[tag + 4..] == body
  {
    var rest := p[tag..];
    assert p[tag] == rest[0] && p[tag + 1] == rest[1] && p[tag + 2] == rest[2];
    assert p[tag + 4..] == rest[4..];
    WordRoundTrip(id, 0, 0);
  }

  /** A patched header still follows the Ethernet part at the same place and announces the same layout. */
  lemma PatchedShape(eth: seq<uint8>, ip: seq<uint8>, total: nat)
    requires |ip| >= 20 && EthIpv4Offset(eth + ip) == Some(|eth|)
    ensures var h := Patch(ip, total);
            |h| == |ip| && h[0] == ip[0] && h[9] == ip[9] && EthIpv4Offset(eth + h) == Some(|eth|)
  {
    PatchKeeps(ip, total, 0);
    PatchKeeps(ip, total, 9);
    OffsetOfPrefix(eth, ip, Patch(ip, total));
  }
}
