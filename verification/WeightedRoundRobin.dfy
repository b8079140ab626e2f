/** Weighted round robin over the allowed WANs, and its exact fairness. */
module WeightedRoundRobin {
  import opened Basics
  import opened Bytes

  /** The share of a position: negative and zero weights count for nothing. */
  function Share(w: int): nat { if w > 0 then w else 0 }

  function Total(weights: seq<int>): nat
  {
    if weights == [] then 0 else Share(weights[0]) + Total(weights[1..])
  }

  lemma {:induction false} TotalAppend(a: seq<int>, b: seq<int>)
    ensures Total(a + b) == Total(a) + Total(b)
  {
    if a == [] {
      assert a + b == b;
    } else {
      assert (a + b)[1..] == a[1..] + b;
      TotalAppend(a[1..], b);
    }
  }

  lemma TotalPrefix(weights: seq<int>, i: nat)
    requires i < |weights|
    ensures Total(weights[..i + 1]) == Total(weights[..i]) + Share(weights[i])
    ensures Total(weights[..i + 1]) <= Total(weights)
  {
    assert weights[..i + 1] == weights[..i] + [weights[i]];
    TotalAppend(weights[..i], [weights[i]]);
    assert weights == weights[..i + 1] + weights[i + 1..];
    TotalAppend(weights[..i + 1], weights[i + 1..]);
  }

  /** The sum of the positive weights; the caller's weights must sum up within an int. */
  method WeightsSumPositive(weights: seq<int>) returns (s: nat)
    requires Total(weights) < 0x8000_0000
    ensures s == Total(weights)
  {
    s := 0;
    for i := 0 to |weights|
      invariant s == Total(weights[..i])
    {
      TotalPrefix(weights, i);
      if weights[i] > 0 {
        s := s + weights[i];
      }
    }
    assert weights[..|weights|] == weights;
  }

  /** The position whose share contains slot s, when the shares are laid out one after the other. */
  function Owner(weights: seq<int>, s: nat): (p: nat)
    requires s < Total(weights)
    ensures p < |weights| && weights[p] > 0
  {
    if s < Share(weights[0]) then 0 else 1 + Owner(weights[1..], s - Share(weights[0]))
  }

  /** The defining property, without recursion. */
  lemma {:induction false} OwnerIff(weights: seq<int>, s: nat, p: nat)
    requires s < Total(weights)
    ensures Owner(weights, s) == p <==>
              p < |weights| && Total(weights[..p]) <= s < Total(weights[..p]) + Share(weights[p])
  {
    var w := Share(weights[0]);
    if s < w {
      if 0 < p < |weights| {
        assert weights[..p][1..] == weights[1..][..p - 1];
      }
    } else {
      if 0 < p {
        OwnerIff(weights[1..], s - w, p - 1);
        if p < |weights| {
          assert weights[..p][1..] == weights[1..][..p - 1];
        }
      }
    }
  }

  /** The remainder as C computes it, truncating toward zero. */
  function TruncMod(a: int, m: nat): int
    requires m > 0
  {
    if a >= 0 then a % m else -((-a) % m)
  }

  /** The loop over the weights; sum is their total.  A slot number is first brought into 0..sum. */
  method SlotToPosition(slot: int, weights: seq<int>, sum: nat) returns (p: nat)
    requires sum == Total(weights) > 0
    ensures var s := (TruncMod(slot, sum) + sum) % sum;
            p == Owner(weights, s)
  {
    var s := (TruncMod(slot, sum) + sum) % sum;
    var acc := 0;
    p := |weights| - 1;
    assert weights[..|weights|] == weights;
    for i := 0 to |weights|
      invariant acc == Total(weights[..i]) <= s
    {
      TotalPrefix(weights, i);
      var w := weights[i];
      if w > 0 {
        acc := acc + w;
        if s < acc {
          OwnerIff(weights, s, i);
          return i;
        }
      }
    }
    assert false;
  }

  /** A slot number that is already in range stays what it is. */
  lemma SlotInRange(a: nat, m: nat)
    requires a < m
    ensures (TruncMod(a, m) + m) % m == a
  {
    SmallMod(a, m);
    ModShift(a, 1, m);
  }

  /** The position chosen for sequence number n; without positive weights the positions simply take turns. */
  function Chosen(weights: seq<int>, n: nat): (p: nat)
    requires weights != []
    ensures p < |weights|
  {
    if Total(weights) > 0 then Owner(weights, n % Total(weights)) else n % |weights|
  }

  /** The global sequence counter. */
  class Scheduler {
    var sequence: uint64

    constructor ()
      ensures sequence == 0
    {
      sequence := 0;
    }

    /** One packet: without a choice, no sequence number is consumed; without any allowed WAN the answer is 0. */
    method PickPerPacket(wans: seq<int>, weights: seq<int>) returns (wan: int)
      requires |weights| == |wans| && Total(weights) < 0x8000_0000
      modifies this
      ensures wan == if wans == [] then 0 else if |wans| == 1 then wans[0] else wans[Chosen(weights, old(sequence))]
      ensures sequence == if |wans| <= 1 then old(sequence) else (old(sequence) + 1) % 0x1_0000_0000_0000_0000
    {
      hide Owner, TruncMod, Total;
      if wans == [] {
        return 0;
      }
      if |wans| == 1 {
        return wans[0];
      }
      var sum := WeightsSumPositive(weights);
      var n := sequence;
      sequence := (sequence + 1) % 0x1_0000_0000_0000_0000;
      if sum > 0 {
        SlotInRange(n % sum, sum);
        var p := SlotToPosition(n % sum, weights, sum);
        return wans[p];
      }
      wan := wans[n % |wans|];
    }
  }

  // --- fairness --------------------------------------------------------------------------

  /** How often position p is chosen for the len sequence numbers from start on. */
  function Hits(weights: seq<int>, start: nat, len: nat, p: nat): nat
    requires weights != []
  {
    if len == 0 then 0
    else Hits(weights, start, len - 1, p) + (if Chosen(weights, start + len - 1) == p then 1 else 0)
  }

  /** The length of one round. */
  function Round(weights: seq<int>): (r: nat)
    requires weights != []
    ensures r > 0
  {
    if Total(weights) > 0 then Total(weights) else |weights|
  }

  lemma ChosenPeriodic(weights: seq<int>, n: nat)
    requires weights != []
    ensures Chosen(weights, n + Round(weights)) == Chosen(weights, n)
  {
    hide Owner;
    var r := Round(weights);
    assert (n + r) % r == n % r by { ModShift(n, 1, r); }
  }

  /** Dropping the first number of a window. */
  lemma {:induction false} HitsShift(weights: seq<int>, start: nat, len: nat, p: nat)
    requires weights != [] && len > 0
    ensures Hits(weights, start, len, p)
         == (if Chosen(weights, start) == p then 1 else 0) + Hits(weights, start + 1, len - 1, p)
  {
    hide Chosen;
    if len > 1 {
      HitsShift(weights, start, len - 1, p);
    }
  }

  /** Every window of one round is as good as the first. */
  lemma {:induction false} AnyWindow(weights: seq<int>, start: nat, p: nat)
    requires weights != []
    ensures Hits(weights, start, Round(weights), p) == Hits(weights, 0, Round(weights), p)
  {
    hide Chosen, Round;
    if start > 0 {
      var r := Round(weights);
      AnyWindow(weights, start - 1, p);
      HitsShift(weights, start - 1, r, p);
      ChosenPeriodic(weights, start - 1);
      assert Hits(weights, start, r, p)
          == Hits(weights, start, r - 1, p) + (if Chosen(weights, start + r - 1) == p then 1 else 0);
    }
  }

  /** In the first len numbers of the first round, p is hit as often as its share overlaps them. */
  lemma {:induction false} FirstWindow(weights: seq<int>, len: nat, p: nat)
    requires p < |weights| && Total(weights) > 0 && len <= Total(weights)
    ensures var before := Total(weights[..p]);
            Hits(weights, 0, len, p) == if len <= before then 0
                                        else if len - before < Share(weights[p]) then len - before
                                        else Share(weights[p])
  {
    hide Owner, Total;
    if len > 0 {
      FirstWindow(weights, len - 1, p);
      OwnerIff(weights, len - 1, p);
      SmallMod(len - 1, Total(weights));
    }
  }

  lemma SmallMod(a: nat, m: nat)
    requires a < m
    ensures a % m == a
  {}

  lemma {:induction false} TurnsWindow(weights: seq<int>, len: nat, p: nat)
    requires p < |weights| && Total(weights) == 0 && len <= |weights|
    ensures Hits(weights, 0, len, p) == if p < len then 1 else 0
  {
    if len > 0 {
      TurnsWindow(weights, len - 1, p);
      SmallMod(len - 1, |weights|);
    }
  }

  /** Exact fairness: in any window of one round, every position is chosen exactly as often as its weight says; with no
      positive weight, exactly once. */
  lemma ExactlyFair(weights: seq<int>, start: nat, p: nat)
    requires p < |weights|
    ensures Hits(weights, start, Round(weights), p)
         == if Total(weights) > 0 then Share(weights[p]) else 1
  {
    AnyWindow(weights, start, p);
    if Total(weights) > 0 {
      FirstWindow(weights, Total(weights), p);
      TotalPrefix(weights, p);
    } else {
      TurnsWindow(weights, |weights|, p);
    }
  }
}
