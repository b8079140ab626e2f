/** The cipher as a value: AES and HMAC stay abstract, what the forwarder builds around them
    (nonces, key slots, the trial loop over the slots) is concrete. */
module PacketCrypto {
  import opened Bytes

  type Key = seq<uint8>

  const TAG_SIZE := 16
  const IV_SIZE := 16
  const KEY_SLOT_COUNT := 3
  const BACKUP_SIZE := 2048

  datatype Mode = Ctr | Gcm

  /** The per-thread settings the packet functions read. */
  datatype Settings = Settings(mode: Mode, nonceSize: nat, policyId: uint8,
                               fakeProtocol: uint8, fakeEthertype: uint16)
  {
    // The nonce lives in a 16-byte buffer
    predicate Valid() { 1 <= nonceSize <= 16 }

    function TunnelHdrSize(): nat { nonceSize + 2 }

    function TagLen(): nat { if mode == Gcm then TAG_SIZE else 0 }
  }

  /** Key slots PREV, CURRENT, NEXT in this order. */
  datatype CryptoCtx = CryptoCtx(masterKey: Key, keys: seq<Key>)
  {
    predicate Valid() { |keys| == KEY_SLOT_COUNT }

    function Current(): Key
      requires Valid()
    {
      keys[1]
    }

    // The order in which decryption tries the slots
    function TrialOrder(): (order: seq<Key>)
      requires Valid()
    {
      [keys[1], keys[0], keys[2]]
    }
  }

  datatype Cipher = Cipher(
    ctr: (Key, seq<uint8>, seq<uint8>) -> seq<uint8>,
    gcmEncrypt: (Key, seq<uint8>, seq<uint8>) -> seq<uint8>,
    gcmTag: (Key, seq<uint8>, seq<uint8>) -> seq<uint8>,
    gcmDecrypt: (Key, seq<uint8>, seq<uint8>, seq<uint8>) -> (bool, seq<uint8>))
  {
    /** Lengths are kept, CTR is its own inverse, and GCM accepts and undoes what it produced.
        Nothing is said about a wrong key or tag except that the buffer keeps its length. */
    ghost predicate Lawful()
    {
      && (forall k, iv, d :: |ctr(k, iv, d)| == |d|)
      && (forall k, iv, d {:trigger ctr(k, iv, ctr(k, iv, d))} :: ctr(k, iv, ctr(k, iv, d)) == d)
      && (forall k, n, d :: |gcmEncrypt(k, n, d)| == |d|)
      && (forall k, n, d :: |gcmTag(k, n, d)| == TAG_SIZE)
      && (forall k, n, d, t :: |gcmDecrypt(k, n, d, t).1| == |d|)
      && (forall k, n, d :: gcmDecrypt(k, n, gcmEncrypt(k, n, d), gcmTag(k, n, d)) == (true, d))
    }
  }

  /** Four counter bytes, the top bit being the IPv4 flag (0), then random salt. */
  function GenerateNonce(counter: uint32, salt: seq<uint8>, ns: nat): (nonce: seq<uint8>)
    requires |salt| == 16 && 1 <= ns <= 16
    ensures |nonce| == ns && nonce[0] < 0x80
  {
    var head: seq<uint8> := [counter / 0x100_0000 % 0x80, counter / 0x1_0000 % 0x100,
                             counter / 0x100 % 0x100, counter % 0x100];
    (head + salt[..12])[..ns]
  }

  /** From four bytes on, the nonce tells counter values apart, whatever salt follows. */
  lemma NonceDistinct(a: uint32, b: uint32, salt1: seq<uint8>, salt2: seq<uint8>, ns: nat)
    requires a < 0x8000_0000 && b < 0x8000_0000 && |salt1| == |salt2| == 16 && 4 <= ns <= 16
    requires GenerateNonce(a, salt1, ns) == GenerateNonce(b, salt2, ns)
    ensures a == b
  {
    var n1, n2 := GenerateNonce(a, salt1, ns), GenerateNonce(b, salt2, ns);
    assert n1[0] == n2[0] && n1[1] == n2[1] && n1[2] == n2[2] && n1[3] == n2[3];
    CounterBytes(a);
    CounterBytes(b);
  }

  lemma CounterBytes(n: uint32)
    requires n < 0x8000_0000
    ensures n == n / 0x100_0000 % 0x80 * 0x100_0000 + n / 0x1_0000 % 0x100 * 0x1_0000
                 + n / 0x100 % 0x100 * 0x100 + n % 0x100
  {}

  function Iv(nonce: seq<uint8>): (iv: seq<uint8>)
    requires |nonce| <= IV_SIZE
    ensures |iv| == IV_SIZE
  {
    nonce + seq(IV_SIZE - |nonce|, _ => 0)
  }

  /** What goes on the wire for a plaintext: the encrypted bytes, then the tag in GCM mode. */
  function Seal(c: Cipher, mode: Mode, key: Key, nonce: seq<uint8>, plain: seq<uint8>): seq<uint8>
    requires |nonce| <= IV_SIZE
  {
    match mode
    case Gcm => c.gcmEncrypt(key, nonce, plain) + c.gcmTag(key, nonce, plain)
    case Ctr => c.ctr(key, Iv(nonce), plain)
  }

  lemma SealLength(c: Cipher, s: Settings, key: Key, nonce: seq<uint8>, plain: seq<uint8>)
    requires c.Lawful() && |nonce| <= IV_SIZE
    ensures |Seal(c, s.mode, key, nonce, plain)| == |plain| + s.TagLen()
  {}

  /** One decryption attempt: whether it succeeded, and what it left in the work buffer either way. */
  function Attempt(c: Cipher, mode: Mode, key: Key, nonce: seq<uint8>, work: seq<uint8>, tag: seq<uint8>,
                   accept: seq<uint8> -> bool): (bool, seq<uint8>)
    requires |nonce| <= IV_SIZE
  {
    match mode
    case Gcm => if work == [] then (true, work) else c.gcmDecrypt(key, nonce, work, tag)
    case Ctr =>
      var out := c.ctr(key, Iv(nonce), work);
      (accept(out), out)
  }

  /** The trial loop from slot k on.  A failed attempt has overwritten the work buffer; it is restored from
      the backup only when the ciphertext fitted into the backup. */
  function TrySlots(c: Cipher, mode: Mode, order: seq<Key>, nonce: seq<uint8>, backup: seq<uint8>,
                    work: seq<uint8>, tag: seq<uint8>, accept: seq<uint8> -> bool, k: nat): (bool, seq<uint8>)
    requires |nonce| <= IV_SIZE && k <= |order|
    decreases |order| - k
  {
    if k == |order| then (false, work)
    else
      var input := if k > 0 && |backup| <= BACKUP_SIZE then backup else work;
      var (ok, out) := Attempt(c, mode, order[k], nonce, input, tag, accept);
      if ok then (true, out) else TrySlots(c, mode, order, nonce, backup, out, tag, accept, k + 1)
  }

  predicate AcceptAll(plain: seq<uint8>) { true }

  /** Decryption of everything after the tunnel header: None is the error return. */
  function Open(c: Cipher, s: Settings, ctx: CryptoCtx, nonce: seq<uint8>, data: seq<uint8>,
                accept: seq<uint8> -> bool): Option<seq<uint8>>
    requires |nonce| <= IV_SIZE && ctx.Valid()
  {
    if |data| < s.TagLen() then None
    else
      var body := data[..|data| - s.TagLen()];
      var tag := data[|data| - s.TagLen()..];
      var (ok, out) := TrySlots(c, s.mode, ctx.TrialOrder(), nonce, body, body, tag, accept, 0);
      if ok then Some(out) else None
  }

  /** What a failed decryption leaves in place of the sealed data: the output of the last attempt. */
  function Spoiled(c: Cipher, s: Settings, ctx: CryptoCtx, nonce: seq<uint8>, data: seq<uint8>,
                   accept: seq<uint8> -> bool): seq<uint8>
    requires |nonce| <= IV_SIZE && ctx.Valid()
  {
    if |data| < s.TagLen() then data
    else
      var body, tag := data[..|data| - s.TagLen()], data[|data| - s.TagLen()..];
      TrySlots(c, s.mode, ctx.TrialOrder(), nonce, body, body, tag, accept, 0).1 + tag
  }

  lemma {:induction false} TrySlotsLength(c: Cipher, mode: Mode, order: seq<Key>, nonce: seq<uint8>, backup: seq<uint8>,
                                         work: seq<uint8>, tag: seq<uint8>, accept: seq<uint8> -> bool, k: nat)
    requires c.Lawful() && |nonce| <= IV_SIZE && k <= |order| && |backup| == |work|
    ensures |TrySlots(c, mode, order, nonce, backup, work, tag, accept, k).1| == |work|
    decreases |order| - k
  {
    if k < |order| {
      var input := if k > 0 && |backup| <= BACKUP_SIZE then backup else work;
      var out := Attempt(c, mode, order[k], nonce, input, tag, accept).1;
      assert |out| == |work|;
      TrySlotsLength(c, mode, order, nonce, backup, out, tag, accept, k + 1);
    }
  }

  lemma SpoiledLength(c: Cipher, s: Settings, ctx: CryptoCtx, nonce: seq<uint8>, data: seq<uint8>,
                      accept: seq<uint8> -> bool)
    requires c.Lawful() && |nonce| <= IV_SIZE && ctx.Valid()
    ensures |Spoiled(c, s, ctx, nonce, data, accept)| == |data|
  {
    if |data| >= s.TagLen() {
      var n := |data| - s.TagLen();
      TrySlotsLength(c, s.mode, ctx.TrialOrder(), nonce, data[..n], data[..n], data[n..], accept, 0);
    }
  }

  /** Only the mode of the settings matters for opening. */
  lemma OpenSettings(c: Cipher, s: Settings, r: Settings, ctx: CryptoCtx, nonce: seq<uint8>, data: seq<uint8>,
                     accept: seq<uint8> -> bool)
    requires |nonce| <= IV_SIZE && ctx.Valid() && s.mode == r.mode
    ensures Open(c, s, ctx, nonce, data, accept) == Open(c, r, ctx, nonce, data, accept)
  {
    hide TrySlots;
  }

  lemma OpenShrinks(c: Cipher, s: Settings, ctx: CryptoCtx, nonce: seq<uint8>, data: seq<uint8>,
                    accept: seq<uint8> -> bool)
    requires c.Lawful() && |nonce| <= IV_SIZE && ctx.Valid() && Open(c, s, ctx, nonce, data, accept).Some?
    ensures |Open(c, s, ctx, nonce, data, accept).value| == |data| - s.TagLen()
  {
    var n := |data| - s.TagLen();
    TrySlotsLength(c, s.mode, ctx.TrialOrder(), nonce, data[..n], data[..n], data[n..], accept, 0);
  }

  /** The inverse law for a sealed payload; in CTR mode the layer's plausibility test must accept the plaintext. */
  lemma OpenSeal(c: Cipher, s: Settings, ctx: CryptoCtx, nonce: seq<uint8>, plain: seq<uint8>,
                 accept: seq<uint8> -> bool)
    requires c.Lawful() && |nonce| <= IV_SIZE && ctx.Valid()
    requires s.mode == Ctr ==> accept(plain)
    ensures Open(c, s, ctx, nonce, Seal(c, s.mode, ctx.Current(), nonce, plain), accept) == Some(plain)
  {
    var key := ctx.Current();
    var data := Seal(c, s.mode, key, nonce, plain);
    assert ctx.TrialOrder()[0] == key;
    match s.mode
    case Gcm =>
      var enc, tag := c.gcmEncrypt(key, nonce, plain), c.gcmTag(key, nonce, plain);
      assert data[..|data| - 16] == enc && data[|data| - 16..] == tag;
      assert |enc| == |plain|;
      assert enc == [] ==> plain == [];
    case Ctr =>
      assert data[..|data|] == data;
  }

  /** A buffer all slots reject stays rejected: with three equal slots and a backup, the loop repeats one attempt. */
  lemma OpenRejects(c: Cipher, s: Settings, ctx: CryptoCtx, nonce: seq<uint8>, plain: seq<uint8>,
                    accept: seq<uint8> -> bool)
    requires c.Lawful() && |nonce| <= IV_SIZE && ctx.Valid()
    requires ctx.keys[0] == ctx.keys[1] == ctx.keys[2] && |plain| <= BACKUP_SIZE
    requires s.mode == Ctr && !accept(plain)
    ensures Open(c, s, ctx, nonce, Seal(c, s.mode, ctx.Current(), nonce, plain), accept) == None
  {
    var key := ctx.Current();
    var data := Seal(c, s.mode, key, nonce, plain);
    var order := ctx.TrialOrder();
    assert data[..|data|] == data;
    assert Attempt(c, s.mode, key, nonce, data, [], accept) == (false, plain);
    assert order[0] == order[1] == order[2] == key;
    assert data[|data|..] == [];
    assert TrySlots(c, s.mode, order, nonce, data, plain, [], accept, 3) == (false, plain);
    assert TrySlots(c, s.mode, order, nonce, data, plain, [], accept, 2) == (false, plain);
    assert TrySlots(c, s.mode, order, nonce, data, plain, [], accept, 1) == (false, plain);
  }

  /** The trial loop over the slots, working in place on packet[off..off+len]. */
  method TrySlotsInPlace(c: Cipher, mode: Mode, order: seq<Key>, nonce: seq<uint8>,
                         packet: array<uint8>, off: nat, len: nat, tag: seq<uint8>, accept: seq<uint8> -> bool)
    returns (ok: bool)
    requires c.Lawful() && |nonce| <= IV_SIZE && off + len <= packet.Length
    modifies packet
    ensures var body := old(packet[off..off + len]);
            var (found, out) := TrySlots(c, mode, order, nonce, body, body, tag, accept, 0);
            ok == found && |out| == len && packet[..] == old(packet[..off]) + out + old(packet[off + len..])
  {
    var backup := packet[off..off + len];
    ghost var pre, post := packet[..off], packet[off + len..];
    ghost var left := backup;
    assert packet[..] == pre + left + post;
    for k := 0 to |order|
      invariant |left| == len && packet[..] == pre + left + post
      invariant TrySlots(c, mode, order, nonce, backup, left, tag, accept, k)
             == TrySlots(c, mode, order, nonce, backup, backup, tag, accept, 0)
    {
      var input := if k > 0 && |backup| <= BACKUP_SIZE then backup else packet[off..off + len];
      assert packet[off..off + len] == left;
      var (done, out) := Attempt(c, mode, order[k], nonce, input, tag, accept);
      CopyInto(packet, off, out);
      WriteMiddle(pre, left, post, out);
      left := out;
      if done {
        return true;
      }
    }
    ok := false;
  }

  /** Decrypts packet[off..off+len] in place; on success the plaintext is the first plainLen bytes of that region. */
  method OpenInPlace(c: Cipher, s: Settings, ctx: CryptoCtx, nonce: seq<uint8>,
                     packet: array<uint8>, off: nat, len: nat, accept: seq<uint8> -> bool)
    returns (plainLen: int)
    requires c.Lawful() && |nonce| <= IV_SIZE && ctx.Valid()
    requires off + len <= packet.Length
    modifies packet
    ensures var r := Open(c, s, ctx, nonce, old(packet[off..off + len]), accept);
            if r.None? then plainLen == -1
            else plainLen == len - s.TagLen() == |r.value| && packet[off..off + plainLen] == r.value
    ensures packet[..off] == old(packet[..off])
    ensures plainLen == -1 ==>
              packet[..] == old(packet[..off]) + Spoiled(c, s, ctx, nonce, old(packet[off..off + len]), accept)
                            + old(packet[off + len..])
  {
    hide *;
    ghost var b := packet[..];
    ghost var data := packet[off..off + len];
    OpenForms(c, s, ctx, nonce, data, accept);
    if len < s.TagLen() {
      Pieces(b, off, len, 0);
      return -1;
    }
    plainLen := len - s.TagLen();
    Pieces(b, off, len, plainLen);
    ghost var order := ctx.TrialOrder();
    ghost var body, rest := data[..plainLen], data[plainLen..];
    ghost var out := TrySlots(c, s.mode, order, nonce, body, body, rest, accept, 0).1;
    var tag := packet[off + plainLen..off + len];
    var ok := TrySlotsInPlace(c, s.mode, ctx.TrialOrder(), nonce, packet, off, plainLen, tag, accept);
    Cut(b[..off], out, b[off + plainLen..]);
    if !ok {
      Assoc(b[..off] + out, data[plainLen..], b[off + len..]);
      Assoc(b[..off], out, data[plainLen..]);
      plainLen := -1;
    }
  }

  lemma OpenForms(c: Cipher, s: Settings, ctx: CryptoCtx, nonce: seq<uint8>, data: seq<uint8>,
                  accept: seq<uint8> -> bool)
    requires |nonce| <= IV_SIZE && ctx.Valid()
    ensures |data| < s.TagLen() ==>
              Open(c, s, ctx, nonce, data, accept) == None && Spoiled(c, s, ctx, nonce, data, accept) == data
    ensures |data| >= s.TagLen() ==>
              var n := |data| - s.TagLen();
              var (ok, out) := TrySlots(c, s.mode, ctx.TrialOrder(), nonce, data[..n], data[..n], data[n..], accept, 0);
              && Open(c, s, ctx, nonce, data, accept) == (if ok then Some(out) else None)
              && Spoiled(c, s, ctx, nonce, data, accept) == out + data[n..]
  {
    hide TrySlots;
  }

  /** The buffer around a region of which the first n bytes are the sealed body. */
  lemma Pieces(b: seq<uint8>, off: nat, len: nat, n: nat)
    requires n <= len && off + len <= |b|
    ensures var data := b[off..off + len];
            && b[off..off + n] == data[..n] && b[off + n..off + len] == data[n..]
            && b[off + n..] == data[n..] + b[off + len..]
            && b == b[..off] + data + b[off + len..]
  {
    SubSlice(b, off, off + len, 0, n);
    SubSlice(b, off, off + len, n, len);
  }
}
