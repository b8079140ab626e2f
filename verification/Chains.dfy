/** Chained hash tables seen as maps.  A bucket is the sequence of the nodes of its linked chain; new nodes go to
    the front. */
module Chains {
  import opened Bytes

  datatype Node<K, V> = Node(key: K, value: V)

  type Chain<K, V> = seq<Node<K, V>>

  /** The map a chain stands for; the first node with a key decides. */
  function ChainMap<K(==), V>(ch: Chain<K, V>): map<K, V>
  {
    if ch == [] then map[] else ChainMap(ch[1..])[ch[0].key := ch[0].value]
  }

  predicate DistinctKeys<K(==), V>(ch: Chain<K, V>)
  {
    forall i, j | 0 <= i < j < |ch| :: ch[i].key != ch[j].key
  }

  /** Position of the key, or |ch|. */
  function Position<K(==), V>(ch: Chain<K, V>, k: K): (i: nat)
    ensures i <= |ch| && (i < |ch| ==> ch[i].key == k)
    ensures forall j | 0 <= j < i :: ch[j].key != k
  {
    if ch == [] || ch[0].key == k then 0 else 1 + Position(ch[1..], k)
  }

  function Removed<K, V>(ch: Chain<K, V>, i: nat): Chain<K, V>
    requires i < |ch|
  {
    ch[..i] + ch[i + 1..]
  }

  /** The nodes whose value passes the test, in order. */
  function Kept<K, V>(ch: Chain<K, V>, keep: V -> bool): (r: Chain<K, V>)
  {
    if ch == [] then [] else (if keep(ch[0].value) then [ch[0]] else []) + Kept(ch[1..], keep)
  }

  function KeptMap<K(==), V>(m: map<K, V>, keep: V -> bool): map<K, V>
  {
    map k | k in m && keep(m[k]) :: m[k]
  }

  lemma {:induction false} ChainMapKeys<K, V>(ch: Chain<K, V>, k: K)
    ensures k in ChainMap(ch) <==> Position(ch, k) < |ch|
    ensures k in ChainMap(ch) ==> ChainMap(ch)[k] == ch[Position(ch, k)].value
  {
    if ch != [] && ch[0].key != k {
      ChainMapKeys(ch[1..], k);
    }
  }

  lemma {:induction false} MapAfterUpdate<K, V>(ch: Chain<K, V>, i: nat, v: V)
    requires i < |ch| && Position(ch, ch[i].key) == i
    ensures ChainMap(ch[i := Node(ch[i].key, v)]) == ChainMap(ch)[ch[i].key := v]
  {
    var ch' := ch[i := Node(ch[i].key, v)];
    if i > 0 {
      assert ch'[1..] == ch[1..][i - 1 := Node(ch[i].key, v)];
      MapAfterUpdate(ch[1..], i - 1, v);
    } else {
      assert ch'[1..] == ch[1..];
    }
  }

  lemma RemovedDistinct<K, V>(ch: Chain<K, V>, i: nat)
    requires i < |ch| && DistinctKeys(ch)
    ensures DistinctKeys(Removed(ch, i))
  {}

  lemma {:induction false} MapAfterRemove<K, V>(ch: Chain<K, V>, i: nat)
    requires i < |ch| && DistinctKeys(ch)
    ensures ChainMap(Removed(ch, i)) == ChainMap(ch) - {ch[i].key}
  {
    var ch' := Removed(ch, i);
    if i > 0 {
      assert ch'[1..] == Removed(ch[1..], i - 1) && ch'[0] == ch[0];
      MapAfterRemove(ch[1..], i - 1);
      assert ChainMap(ch') == (ChainMap(ch[1..]) - {ch[i].key})[ch[0].key := ch[0].value];
    } else {
      assert ch' == ch[1..];
      ChainMapKeys(ch[1..], ch[0].key);
    }
  }

  lemma KeptMapUpdate<K, V>(m: map<K, V>, k: K, v: V, keep: V -> bool)
    requires k !in m
    ensures KeptMap(m[k := v], keep) == if keep(v) then KeptMap(m, keep)[k := v] else KeptMap(m, keep)
  {}

  lemma {:induction false} KeptDistinct<K, V>(ch: Chain<K, V>, keep: V -> bool)
    requires DistinctKeys(ch)
    ensures DistinctKeys(Kept(ch, keep))
    ensures forall i | 0 <= i < |Kept(ch, keep)| :: Kept(ch, keep)[i] in ch
  {
    if ch != [] {
      KeptDistinct(ch[1..], keep);
    }
  }

  lemma {:induction false} MapAfterKeep<K, V>(ch: Chain<K, V>, keep: V -> bool)
    requires DistinctKeys(ch)
    ensures ChainMap(Kept(ch, keep)) == KeptMap(ChainMap(ch), keep)
  {
    hide KeptMap;
    if ch == [] {
      EmptyKept(ChainMap(ch), keep);
    } else {
      var rest := Kept(ch[1..], keep);
      MapAfterKeep(ch[1..], keep);
      ChainMapKeys(ch[1..], ch[0].key);
      KeptMapUpdate(ChainMap(ch[1..]), ch[0].key, ch[0].value, keep);
      if keep(ch[0].value) {
        assert Kept(ch, keep)[1..] == rest;
      } else {
        assert Kept(ch, keep) == rest;
      }
    }
  }

  lemma EmptyKept<K, V>(m: map<K, V>, keep: V -> bool)
    requires m == map[]
    ensures KeptMap(m, keep) == m
  {}

  // --- tables --------------------------------------------------------------------------

  /** Every key is in the bucket its hash names, once. */
  ghost predicate Hashed<K, V>(buckets: seq<Chain<K, V>>, hash: K -> nat)
  {
    forall b | 0 <= b < |buckets| :: HashedChain(buckets[b], hash, b)
  }

  predicate HashedChain<K(==), V>(ch: Chain<K, V>, hash: K -> nat, b: nat)
  {
    DistinctKeys(ch) && forall i | 0 <= i < |ch| :: hash(ch[i].key) == b
  }

  /** The table as a map: a key is looked up in its own bucket. */
  ghost predicate Represents<K(!new), V>(buckets: seq<Chain<K, V>>, hash: K -> nat, m: map<K, V>)
    requires forall k :: hash(k) < |buckets|
  {
    forall k :: Agrees(buckets[hash(k)], m, k)
  }

  predicate Agrees<K(==), V(==)>(ch: Chain<K, V>, m: map<K, V>, k: K)
  {
    && (k in m <==> k in ChainMap(ch)) && (k in m ==> m[k] == ChainMap(ch)[k])
  }

  /** Replacing one bucket by a chain that stands for the changed map. */
  lemma BucketChanged<K(!new), V>(buckets: seq<Chain<K, V>>, hash: K -> nat, m: map<K, V>, b: nat,
                                  ch: Chain<K, V>, m': map<K, V>)
    requires forall k :: hash(k) < |buckets|
    requires b < |buckets| && Hashed(buckets, hash) && Represents(buckets, hash, m)
    requires HashedChain(ch, hash, b)
    requires forall k | hash(k) == b :: Agrees(ch, m', k)
    requires forall k | hash(k) != b :: (k in m' <==> k in m) && (k in m ==> m'[k] == m[k])
    ensures Hashed(buckets[b := ch], hash) && Represents(buckets[b := ch], hash, m')
  {
    hide HashedChain, ChainMap;
    forall k ensures Agrees(buckets[b := ch][hash(k)], m', k) {
      assert Agrees(buckets[hash(k)], m, k);
    }
  }

  /** Setting the value of a key: in place when the key is there, at the front when it is new. */
  function ChainSet<K(==), V>(ch: Chain<K, V>, k: K, v: V): Chain<K, V>
  {
    var i := Position(ch, k);
    if i < |ch| then ch[i := Node(k, v)] else [Node(k, v)] + ch
  }

  function ChainDrop<K(==), V>(ch: Chain<K, V>, k: K): Chain<K, V>
  {
    var i := Position(ch, k);
    if i < |ch| then Removed(ch, i) else ch
  }

  lemma SetBucket<K(!new), V>(buckets: seq<Chain<K, V>>, hash: K -> nat, m: map<K, V>, k: K, v: V)
    requires forall k :: hash(k) < |buckets|
    requires Hashed(buckets, hash) && Represents(buckets, hash, m)
    ensures var b := hash(k);
            var t := buckets[b := ChainSet(buckets[b], k, v)];
            Hashed(t, hash) && Represents(t, hash, m[k := v])
  {
    var b := hash(k);
    var ch := buckets[b];
    var i := Position(ch, k);
    var ch' := ChainSet(ch, k, v);
    assert HashedChain(ch, hash, b);
    if i < |ch| {
      MapAfterUpdate(ch, i, v);
    } else {
      assert ch'[1..] == ch;
    }
    assert ChainMap(ch') == ChainMap(ch)[k := v];
    forall x | hash(x) == b ensures Agrees(ch', m[k := v], x) {
      assert Agrees(buckets[hash(x)], m, x);
    }
    BucketChanged(buckets, hash, m, b, ch', m[k := v]);
  }

  lemma DropBucket<K(!new), V>(buckets: seq<Chain<K, V>>, hash: K -> nat, m: map<K, V>, k: K)
    requires forall k :: hash(k) < |buckets|
    requires Hashed(buckets, hash) && Represents(buckets, hash, m)
    ensures var b := hash(k);
            var t := buckets[b := ChainDrop(buckets[b], k)];
            Hashed(t, hash) && Represents(t, hash, m - {k})
  {
    var b := hash(k);
    var ch := buckets[b];
    var ch' := ChainDrop(ch, k);
    assert HashedChain(ch, hash, b);
    ChainMapKeys(ch, k);
    if Position(ch, k) < |ch| {
      MapAfterRemove(ch, Position(ch, k));
      RemovedDistinct(ch, Position(ch, k));
    }
    forall x | hash(x) == b ensures Agrees(ch', m - {k}, x) {
      assert Agrees(buckets[hash(x)], m, x);
    }
    BucketChanged(buckets, hash, m, b, ch', m - {k});
  }

  lemma Found<K(!new), V>(buckets: seq<Chain<K, V>>, hash: K -> nat, m: map<K, V>, k: K)
    requires forall k :: hash(k) < |buckets|
    requires Represents(buckets, hash, m)
    ensures var ch := buckets[hash(k)];
            var i := Position(ch, k);
            (k in m <==> i < |ch|) && (k in m ==> m[k] == ch[i].value)
  {
    ChainMapKeys(buckets[hash(k)], k);
    assert Agrees(buckets[hash(k)], m, k);
  }

  /** Filtering every bucket filters the map. */
  lemma KeepAll<K(!new), V>(buckets: seq<Chain<K, V>>, after: seq<Chain<K, V>>, hash: K -> nat, m: map<K, V>,
                  keep: V -> bool)
    requires forall k :: hash(k) < |buckets|
    requires Hashed(buckets, hash) && Represents(buckets, hash, m)
    requires |after| == |buckets| && forall b | 0 <= b < |buckets| :: after[b] == Kept(buckets[b], keep)
    ensures Hashed(after, hash) && Represents(after, hash, KeptMap(m, keep))
  {
    forall b | 0 <= b < |after| ensures HashedChain(after[b], hash, b) {
      assert HashedChain(buckets[b], hash, b);
      KeptDistinct(buckets[b], keep);
    }
    forall k ensures Agrees(after[hash(k)], KeptMap(m, keep), k) {
      assert Agrees(buckets[hash(k)], m, k) && HashedChain(buckets[hash(k)], hash, hash(k));
      MapAfterKeep(buckets[hash(k)], keep);
    }
  }

  /** The scan along a chain. */
  method Find<K(==), V>(ch: Chain<K, V>, k: K) returns (i: nat)
    ensures i == Position(ch, k)
  {
    i := 0;
    while i < |ch| && ch[i].key != k
      invariant 0 <= i <= |ch| && Position(ch, k) == i + Position(ch[i..], k)
    {
      assert ch[i..][1..] == ch[i + 1..];
      i := i + 1;
    }
  }

  /** The walk that unlinks the nodes that fail the test. */
  method Sweep<K, V>(ch: Chain<K, V>, keep: V -> bool) returns (r: Chain<K, V>)
    ensures r == Kept(ch, keep)
  {
    r := [];
    for i := 0 to |ch|
      invariant r + Kept(ch[i..], keep) == Kept(ch, keep)
    {
      assert ch[i..][1..] == ch[i + 1..];
      if keep(ch[i].value) {
        assert r + ([ch[i]] + Kept(ch[i + 1..], keep)) == r + [ch[i]] + Kept(ch[i + 1..], keep);
        r := r + [ch[i]];
      } else {
        assert [] + Kept(ch[i + 1..], keep) == Kept(ch[i + 1..], keep);
      }
    }
    assert ch[|ch|..] == [];
  }
}
