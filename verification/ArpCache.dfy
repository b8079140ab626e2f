/** The ARP cache: an open-addressed table probed linearly from a hash of the address; address 0 marks an empty slot. */
module ArpCache {
  import opened Bytes

  const SIZE := 2048

  type Mac = seq<uint8>

  datatype Slot = Slot(ip: uint32, mac: Mac, lastSeen: uint32)

  function ArpHash(ip: uint32): bv32
  {
    var x := ip as bv32;
    var a := (x ^ (x >> 16)) * 0x7feb352d;
    var b := (a ^ (a >> 15)) * 0x846ca68b;
    b ^ (b >> 16)
  }

  /** The slot where probing for ip starts. */
  function Start(ip: uint32): (start: nat)
    ensures start < SIZE
  {
    ArpHash(ip) as int % SIZE
  }

  /** The i-th slot of a probe sequence. */
  function Probe(start: nat, i: nat): (idx: nat)
    requires start < SIZE && i < SIZE
    ensures idx == (start + i) % SIZE
  {
    if start + i < SIZE then start + i else start + i - SIZE
  }

  /** How far a slot is from the start of a probe sequence. */
  function Distance(start: nat, idx: nat): (i: nat)
    requires start < SIZE && idx < SIZE
    ensures i < SIZE && Probe(start, i) == idx
  {
    if start <= idx then idx - start else idx + SIZE - start
  }

  // --- the map it must behave as -------------------------------------------------------

  /** Inserting into the reference map: address 0 is ignored, and so is a new address when the cache is full. */
  function Inserted(m: map<uint32, Mac>, ip: uint32, mac: Mac): map<uint32, Mac>
  {
    if ip == 0 || (ip !in m && |m| >= SIZE) then m else m[ip := mac]
  }

  datatype Insertion = Insertion(ip: uint32, mac: Mac)

  /** The map after a sequence of insertions. */
  function AfterAll(m: map<uint32, Mac>, ops: seq<Insertion>): map<uint32, Mac>
  {
    if ops == [] then m
    else Inserted(AfterAll(m, ops[..|ops| - 1]), ops[|ops| - 1].ip, ops[|ops| - 1].mac)
  }

  /** An address is known exactly when one of its insertions was accepted, and then its MAC is the one of its last
      insertion: an address once accepted is never refused or lost. */
  lemma {:induction false} LastInsertionWins(ops: seq<Insertion>, ip: uint32, last: nat)
    requires last < |ops| && ops[last].ip == ip && forall j | last < j < |ops| :: ops[j].ip != ip
    ensures ip in AfterAll(map[], ops) <==> ip in AfterAll(map[], ops[..last + 1])
    ensures ip in AfterAll(map[], ops) ==> AfterAll(map[], ops)[ip] == ops[last].mac
    ensures ip in AfterAll(map[], ops[..last]) ==> ip in AfterAll(map[], ops)
    decreases |ops|
  {
    var n := |ops| - 1;
    ZeroNeverStored(ops);
    if last == n {
      assert ops[..last + 1] == ops;
    } else {
      var front := ops[..n];
      assert front[..last + 1] == ops[..last + 1] && front[..last] == ops[..last];
      LastInsertionWins(front, ip, last);
      assert front[last] == ops[last];
    }
  }

  lemma {:induction false} ZeroNeverStored(ops: seq<Insertion>)
    ensures 0 !in AfterAll(map[], ops)
    decreases |ops|
  {
    if ops != [] {
      ZeroNeverStored(ops[..|ops| - 1]);
    }
  }

  lemma {:induction false} NeverInserted(ops: seq<Insertion>, ip: uint32)
    requires forall j | 0 <= j < |ops| :: ops[j].ip != ip
    ensures ip !in AfterAll(map[], ops)
    decreases |ops|
  {
    if ops != [] {
      NeverInserted(ops[..|ops| - 1], ip);
    }
  }

  // --- the table -----------------------------------------------------------------------

  /** No address is stored twice, and every stored address is reached by its probe sequence before an empty slot. */
  predicate WellPlaced(es: seq<Slot>)
  {
    && |es| == SIZE
    && (forall i, j | 0 <= i < j < SIZE && es[i].ip != 0 :: es[i].ip != es[j].ip)
    && (forall j | 0 <= j < SIZE && es[j].ip != 0 :: Unbroken(es, es[j].ip, Distance(Start(es[j].ip), j)))
  }

  /** The first n slots of the probe sequence of ip are in use. */
  predicate Unbroken(es: seq<Slot>, ip: uint32, n: nat)
    requires |es| == SIZE && n <= SIZE
  {
    forall i | 0 <= i < n :: es[Probe(Start(ip), i)].ip != 0
  }

  /** The table holds exactly the entries of m. */
  ghost predicate Represents(es: seq<Slot>, m: map<uint32, Mac>)
    requires |es| == SIZE
  {
    && (forall j | 0 <= j < SIZE && es[j].ip != 0 :: es[j].ip in m && m[es[j].ip] == es[j].mac)
    && (forall ip | ip in m :: exists j | 0 <= j < SIZE :: es[j].ip == ip && ip != 0)
  }

  function KeysUpTo(es: seq<Slot>, n: nat): set<uint32>
    requires n <= |es|
  {
    set i | 0 <= i < n && es[i].ip != 0 :: es[i].ip
  }

  function UsedUpTo(es: seq<Slot>, n: nat): (c: nat)
    requires n <= |es|
    ensures c <= n
    ensures c == n <==> forall i | 0 <= i < n :: es[i].ip != 0
  {
    if n == 0 then 0 else UsedUpTo(es, n - 1) + (if es[n - 1].ip != 0 then 1 else 0)
  }

  lemma {:induction false} KeysCount(es: seq<Slot>, n: nat)
    requires n <= |es| && forall i, j | 0 <= i < j < |es| && es[i].ip != 0 :: es[i].ip != es[j].ip
    ensures |KeysUpTo(es, n)| == UsedUpTo(es, n)
  {
    if n > 0 {
      KeysCount(es, n - 1);
      if es[n - 1].ip != 0 {
        assert KeysUpTo(es, n) == KeysUpTo(es, n - 1) + {es[n - 1].ip};
        assert es[n - 1].ip !in KeysUpTo(es, n - 1);
      } else {
        assert KeysUpTo(es, n) == KeysUpTo(es, n - 1);
      }
    }
  }

  /** The map is full exactly when no slot is empty. */
  lemma FullIff(es: seq<Slot>, m: map<uint32, Mac>)
    requires WellPlaced(es) && Represents(es, m)
    ensures |m| >= SIZE <==> forall j | 0 <= j < SIZE :: es[j].ip != 0
    ensures |m| <= SIZE
  {
    hide Unbroken, Distance, Start;
    KeysCount(es, SIZE);
    forall ip ensures ip in m.Keys <==> ip in KeysUpTo(es, SIZE) {
      if ip in m {
        var j :| 0 <= j < SIZE && es[j].ip == ip && ip != 0;
        assert es[j].ip in KeysUpTo(es, SIZE);
      }
    }
    assert m.Keys == KeysUpTo(es, SIZE);
    assert |m| == |m.Keys|;
  }

  /** The search argument: once the first n probed slots hold other addresses and the next one is empty, the address
      is nowhere in the table. */
  lemma NotStored(es: seq<Slot>, ip: uint32, n: nat, j: nat)
    requires WellPlaced(es) && ip != 0 && n < SIZE && j < SIZE
    requires forall i | 0 <= i < n :: es[Probe(Start(ip), i)].ip != ip
    requires es[Probe(Start(ip), n)].ip == 0
    ensures es[j].ip != ip
  {
    hide Start;
    assert es[j].ip != 0 ==> Unbroken(es, es[j].ip, Distance(Start(es[j].ip), j));
  }

  /** Filling the empty slot a probe sequence ends at keeps the table well placed. */
  lemma Placed(es: seq<Slot>, ip: uint32, n: nat, slot: Slot)
    requires WellPlaced(es) && ip != 0 && n < SIZE && slot.ip == ip
    requires Unbroken(es, ip, n) && forall i | 0 <= i < n :: es[Probe(Start(ip), i)].ip != ip
    requires es[Probe(Start(ip), n)].ip in {0, ip}
    ensures WellPlaced(es[Probe(Start(ip), n) := slot])
  {
    hide Start;
    var at := Probe(Start(ip), n);
    var es' := es[at := slot];
    if es[at].ip == 0 {
      forall j | 0 <= j < SIZE ensures es[j].ip != ip {
        NotStored(es, ip, n, j);
      }
    }
    forall j | 0 <= j < SIZE && es'[j].ip != 0 ensures Unbroken(es', es'[j].ip, Distance(Start(es'[j].ip), j)) {
      if j == at {
        assert Distance(Start(ip), at) == n;
      } else {
        assert Unbroken(es, es[j].ip, Distance(Start(es[j].ip), j));
      }
    }
  }

  class Cache {
    const entries: array<Slot>
    var dirty: bool
    ghost var contents: map<uint32, Mac>

    ghost predicate Valid()
      reads this, entries
    {
      entries.Length == SIZE && WellPlaced(entries[..]) && Represents(entries[..], contents)
    }

    constructor ()
      ensures Valid() && contents == map[] && fresh(entries)
    {
      var empty := Slot(0, [], 0);
      entries := new Slot[SIZE](_ => empty);
      dirty := false;
      contents := map[];
    }

    /** What is found is what the map holds; address 0 is never found. */
    method Lookup(ip: uint32) returns (r: Option<Mac>)
      requires Valid()
      ensures r == if ip in contents then Some(contents[ip]) else None
    {
      hide Start, WellPlaced;
      ghost var es := entries[..];
      assert |es| == SIZE;
      for i := 0 to SIZE
        invariant forall k | 0 <= k < i :: es[Probe(Start(ip), k)].ip != ip
      {
        var slot := entries[Probe(Start(ip), i)];
        if slot.ip == 0 {
          if ip != 0 {
            forall j | 0 <= j < SIZE ensures es[j].ip != ip {
              NotStored(es, ip, i, j);
            }
          }
          return None;
        }
        if slot.ip == ip {
          return Some(slot.mac);
        }
      }
      forall j | 0 <= j < SIZE ensures es[j].ip != ip {
        assert Probe(Start(ip), Distance(Start(ip), j)) == j;
      }
      r := None;
    }

    /** Stores the address, unless it is 0, or it is new and the table is full. */
    method Insert(ip: uint32, mac: Mac, now: uint32)
      requires Valid()
      modifies this, entries
      ensures Valid()
      ensures contents == Inserted(old(contents), ip, mac)
    {
      hide Start, WellPlaced;
      ghost var es := entries[..];
      assert |es| == SIZE;
      FullIff(es, contents);
      for i := 0 to SIZE
        invariant entries[..] == es && contents == old(contents)
        invariant forall k | 0 <= k < i :: es[Probe(Start(ip), k)].ip != 0 && es[Probe(Start(ip), k)].ip != ip
      {
        var at := Probe(Start(ip), i);
        if entries[at].ip == 0 || entries[at].ip == ip {
          entries[at] := Slot(ip, mac, now);
          dirty := true;
          if ip == 0 {
            EmptyRewritten(es, contents, at, Slot(ip, mac, now));
          } else {
            Placed(es, ip, i, Slot(ip, mac, now));
            StoredIn(es, contents, ip, i, Slot(ip, mac, now));
            contents := contents[ip := mac];
          }
          assert entries[..] == es[at := Slot(ip, mac, now)];
          return;
        }
      }
      forall j | 0 <= j < SIZE ensures es[j].ip != ip && es[j].ip != 0 {
        assert Probe(Start(ip), Distance(Start(ip), j)) == j;
      }
    }
  }

  /** An insertion of address 0 writes into a slot that stays empty. */
  lemma EmptyRewritten(es: seq<Slot>, m: map<uint32, Mac>, at: nat, slot: Slot)
    requires WellPlaced(es) && Represents(es, m) && at < SIZE && es[at].ip == 0 && slot.ip == 0
    ensures WellPlaced(es[at := slot]) && Represents(es[at := slot], m)
  {
    hide Start;
    var es' := es[at := slot];
    assert forall j | 0 <= j < SIZE :: es'[j].ip == es[j].ip;
    forall j | 0 <= j < SIZE && es'[j].ip != 0 ensures Unbroken(es', es'[j].ip, Distance(Start(es'[j].ip), j)) {
      assert Unbroken(es, es[j].ip, Distance(Start(es[j].ip), j));
    }
  }

  /** The table represents the updated map. */
  lemma StoredIn(es: seq<Slot>, m: map<uint32, Mac>, ip: uint32, n: nat, slot: Slot)
    requires WellPlaced(es) && Represents(es, m) && ip != 0 && n < SIZE && slot.ip == ip
    requires forall i | 0 <= i < n :: es[Probe(Start(ip), i)].ip != ip
    requires es[Probe(Start(ip), n)].ip in {0, ip}
    ensures Represents(es[Probe(Start(ip), n) := slot], m[ip := slot.mac])
    ensures ip in m || exists j | 0 <= j < SIZE :: es[j].ip == 0
  {
    hide Start, Unbroken;
    var at := Probe(Start(ip), n);
    var es' := es[at := slot];
    assert es'[at].ip == ip;
    forall k | k in m && k != ip ensures exists j | 0 <= j < SIZE :: es'[j].ip == k && k != 0 {
      var j :| 0 <= j < SIZE && es[j].ip == k && k != 0;
      assert es'[j].ip == k;
    }
    forall j | 0 <= j < SIZE && j != at ensures es[j].ip != ip {
      if es[at].ip == 0 {
        NotStored(es, ip, n, j);
      }
    }
  }
}
