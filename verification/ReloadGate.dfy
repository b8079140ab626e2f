/** The hot-reload gate as a step system: any number of packet threads, the garbage collector and one reloader, each
    atomic access one step, under sequential consistency.  The state that packet threads only read is a sequence of
    components (configuration pointer, crypto switches, contexts, index table) that the reloader rewrites one at a
    time.  The TCP policy pins are a component of their own: packet threads inside the gate write them, the collector
    sweeps them without passing the gate, and the reloader clears them when the policies change. */
module ReloadGate {
  import opened Bytes

  /** Where a packet thread stands in packet_critical_enter / packet_critical_leave. */
  datatype Pc<V> =
    | Idle
    | Waiting                                 // about to read the pause flag in the spin loop
    | Cleared                                 // has read it as clear, about to increment
    | Counted                                 // has incremented, about to read the flag again
    | BackingOut                              // has read it as set, about to decrement
    | Inside(entered: seq<V>, todo: nat)      // enter has returned; entered is the shared state at that moment

  /** Where the reloader stands in forwarder_reload_config; clears says whether it also clears the pins. */
  datatype Reload<V> =
    | Resting
    | Draining(target: seq<V>, clears: bool)                // pause is set, waiting for the counter to reach zero
    | Writing(target: seq<V>, clears: bool, done: nat)      // the first done components have been written

  /** committed is the shared state the last finished reload has installed; no code reads it.  Each pin is represented
      by the policies it was made against. */
  datatype State<V, P> = State(pause: bool, inflight: int, threads: seq<Pc<V>>, reload: Reload<V>,
                               shared: seq<V>, committed: seq<V>, pins: seq<P>)

  /** The policies a shared state puts in force, or None while crypto is off. */
  type PoliciesOf<!V, !P> = seq<V> -> Option<P>

  datatype Step<V, P> =
    | Begin(t: nat)
    | ReadSpin(t: nat)
    | Increment(t: nat)
    | ReadAgain(t: nat, work: nat)
    | Decrement(t: nat)
    | Read(t: nat, component: nat)
    | Pin(t: nat)                             // a pin against the policies the thread sees, if crypto is on
    | Unpin(t: nat, rest: seq<P>)             // a closed connection, or a pin that cannot be used
    | Leave(t: nat)
    | Sweep(rest: seq<P>)                     // the collector, at any time
    | Pause(newState: seq<V>, clears: bool)
    | SeeDrained
    | WriteNext
    | ClearPins
    | Unpause

  predicate IsReloaderStep<V, P>(step: Step<V, P>)
  {
    step.Pause? || step.SeeDrained? || step.WriteNext? || step.ClearPins? || step.Unpause?
  }

  predicate IsPacketStep<V, P>(step: Step<V, P>) { !IsReloaderStep(step) && !step.Sweep? }

  /** The step of a thread that works inside the gate. */
  predicate CanWork<V, P>(s: State<V, P>, t: nat)
  {
    t < |s.threads| && s.threads[t].Inside? && s.threads[t].todo > 0
  }

  /** What is left of the pins after some have been removed. */
  ghost predicate Among<P>(rest: seq<P>, pins: seq<P>)
  {
    |rest| <= |pins| && forall i | 0 <= i < |rest| :: rest[i] in pins
  }

  /** Whether the step can be taken.  The reloader clears the pins when it rebuilds the crypto runtime: whenever crypto
      is on afterwards and not the same policies were in force before. */
  ghost predicate Enabled<V, P>(pol: PoliciesOf<V, P>, s: State<V, P>, step: Step<V, P>)
  {
    match step
    case Begin(t) => t < |s.threads| && s.threads[t].Idle?
    case ReadSpin(t) => t < |s.threads| && s.threads[t].Waiting?
    case Increment(t) => t < |s.threads| && s.threads[t].Cleared?
    case ReadAgain(t, _) => t < |s.threads| && s.threads[t].Counted?
    case Decrement(t) => t < |s.threads| && s.threads[t].BackingOut?
    case Read(t, i) => CanWork(s, t) && i < |s.shared|
    case Pin(t) => CanWork(s, t) && pol(s.threads[t].entered).Some?
    case Unpin(t, rest) => CanWork(s, t) && Among(rest, s.pins)
    case Leave(t) => t < |s.threads| && s.threads[t].Inside? && s.threads[t].todo == 0
    case Sweep(rest) => Among(rest, s.pins)
    case Pause(v, clears) =>
      s.reload.Resting? && |v| == |s.shared| && (pol(v).Some? && pol(v) != pol(s.shared) ==> clears)
    case SeeDrained => s.reload.Draining?
    case WriteNext => s.reload.Writing? && s.reload.done < |s.shared| == |s.reload.target|
    case ClearPins => s.reload.Writing? && s.reload.done == |s.shared| && s.reload.clears
    case Unpause => s.reload.Writing? && s.reload.done == |s.shared| && (s.reload.clears ==> s.pins == [])
  }

  function Moved<V, P>(s: State<V, P>, t: nat, pc: Pc<V>, change: int): State<V, P>
    requires t < |s.threads|
  {
    s.(threads := s.threads[t := pc], inflight := s.inflight + change)
  }

  function Worked<V, P>(s: State<V, P>, t: nat, pins: seq<P>): State<V, P>
    requires CanWork(s, t)
  {
    Moved(s, t, s.threads[t].(todo := s.threads[t].todo - 1), 0).(pins := pins)
  }

  /** The state after the step. */
  ghost function Next<V, P>(pol: PoliciesOf<V, P>, s: State<V, P>, step: Step<V, P>): State<V, P>
    requires Enabled(pol, s, step)
  {
    match step
    case Begin(t) => Moved(s, t, Waiting, 0)
    case ReadSpin(t) => if s.pause then s else Moved(s, t, Cleared, 0)
    case Increment(t) => Moved(s, t, Counted, 1)
    case ReadAgain(t, work) => Moved(s, t, if s.pause then BackingOut else Inside(s.shared, work), 0)
    case Decrement(t) => Moved(s, t, Waiting, -1)
    case Read(t, _) => Worked(s, t, s.pins)
    case Pin(t) => Worked(s, t, s.pins + [pol(s.threads[t].entered).value])
    case Unpin(t, rest) => Worked(s, t, rest)
    case Leave(t) => Moved(s, t, Idle, -1)
    case Sweep(rest) => s.(pins := rest)
    case Pause(v, clears) => s.(pause := true, reload := Draining(v, clears))
    case SeeDrained => if s.inflight > 0 then s else s.(reload := Writing(s.reload.target, s.reload.clears, 0))
    case WriteNext =>
      var i := s.reload.done;
      s.(shared := s.shared[i := s.reload.target[i]], reload := s.reload.(done := i + 1))
    case ClearPins => s.(pins := [])
    case Unpause => s.(pause := false, reload := Resting, committed := s.shared)
  }

  ghost predicate Initial<V, P>(s: State<V, P>)
  {
    && !s.pause && s.inflight == 0 && s.reload.Resting? && s.shared == s.committed && s.pins == []
    && forall t | 0 <= t < |s.threads| :: s.threads[t].Idle?
  }

  /** A run from s: each step is enabled where it is taken. */
  ghost predicate IsRun<V, P>(pol: PoliciesOf<V, P>, s: State<V, P>, steps: seq<Step<V, P>>)
    decreases |steps|
  {
    steps == [] || (Enabled(pol, s, steps[0]) && IsRun(pol, Next(pol, s, steps[0]), steps[1..]))
  }

  ghost function After<V, P>(pol: PoliciesOf<V, P>, s: State<V, P>, steps: seq<Step<V, P>>): State<V, P>
    requires IsRun(pol, s, steps)
    decreases |steps|
  {
    if steps == [] then s else After(pol, Next(pol, s, steps[0]), steps[1..])
  }

  // --- the invariant -----------------------------------------------------------------

  /** A thread that the in-flight counter counts. */
  predicate IsCounted<V>(pc: Pc<V>) { pc.Counted? || pc.BackingOut? || pc.Inside? }

  function CountedIn<V>(threads: seq<Pc<V>>): (n: nat)
  {
    if threads == [] then 0 else (if IsCounted(threads[0]) then 1 else 0) + CountedIn(threads[1..])
  }

  lemma {:induction false} CountedUpdate<V>(threads: seq<Pc<V>>, t: nat, pc: Pc<V>)
    requires t < |threads|
    ensures CountedIn(threads[t := pc]) + (if IsCounted(threads[t]) then 1 else 0)
         == CountedIn(threads) + (if IsCounted(pc) then 1 else 0)
  {
    if t == 0 {
      assert threads[t := pc][1..] == threads[1..];
    } else {
      assert threads[t := pc][1..] == threads[1..][t - 1 := pc];
      CountedUpdate(threads[1..], t - 1, pc);
    }
  }

  lemma {:induction false} NoneCounted<V>(threads: seq<Pc<V>>)
    ensures CountedIn(threads) == 0 <==> forall t | 0 <= t < |threads| :: !IsCounted(threads[t])
  {
    if threads != [] {
      NoneCounted(threads[1..]);
      assert forall t | 0 < t < |threads| :: threads[t] == threads[1..][t - 1];
      assert forall t | 0 <= t < |threads| - 1 :: threads[1..][t] == threads[t + 1];
    }
  }

  /** Every pin was made against these policies. */
  ghost predicate PinnedTo<P>(pins: seq<P>, policies: Option<P>)
  {
    policies.Some? ==> forall i | 0 <= i < |pins| :: pins[i] == policies.value
  }

  /** What every step keeps. */
  ghost predicate Inv<V, P>(pol: PoliciesOf<V, P>, s: State<V, P>)
  {
    && s.inflight == CountedIn(s.threads)
    && (s.pause <==> !s.reload.Resting?)
    && |s.committed| == |s.shared|
    && (!s.reload.Resting? ==>
          && |s.reload.target| == |s.shared|
          && (pol(s.reload.target).Some? && pol(s.reload.target) != pol(s.committed) ==> s.reload.clears))
    // while the components are being rewritten nobody is inside, and the shared state is a mixture; otherwise
    // it is the result of the last complete reload
    && (s.reload.Writing? ==>
          && s.reload.done <= |s.shared|
          && s.shared == s.reload.target[..s.reload.done] + s.committed[s.reload.done..]
          && forall t | 0 <= t < |s.threads| :: !s.threads[t].Inside?)
    && (!s.reload.Writing? ==> s.shared == s.committed)
    // whoever is inside still sees what it saw on entry
    && (forall t | 0 <= t < |s.threads| && s.threads[t].Inside? :: s.threads[t].entered == s.shared)
    // no pin outlives the policies it was made against
    && PinnedTo(s.pins, pol(s.committed))
  }

  lemma PacketStepKeepsInv<V, P>(pol: PoliciesOf<V, P>, s: State<V, P>, step: Step<V, P>)
    requires Inv(pol, s) && Enabled(pol, s, step) && IsPacketStep(step)
    ensures Inv(pol, Next(pol, s, step))
  {
    hide CountedIn;
    var n := Next(pol, s, step);
    CountedUpdate(s.threads, step.t, n.threads[step.t]);
    assert step.ReadSpin? && s.pause ==> n == s;
  }

  lemma WriteKeepsMixture<V>(shared: seq<V>, target: seq<V>, committed: seq<V>, done: nat)
    requires |target| == |committed| == |shared| && done < |shared| && shared == target[..done] + committed[done..]
    ensures shared[done := target[done]] == target[..done + 1] + committed[done + 1..]
  {}

  lemma StepKeepsInv<V, P>(pol: PoliciesOf<V, P>, s: State<V, P>, step: Step<V, P>)
    requires Inv(pol, s) && Enabled(pol, s, step)
    ensures Inv(pol, Next(pol, s, step))
  {
    hide CountedIn;
    if IsPacketStep(step) {
      PacketStepKeepsInv(pol, s, step);
    } else if step.SeeDrained? {
      NoneCounted(s.threads);
    } else if step.WriteNext? {
      WriteKeepsMixture(s.shared, s.reload.target, s.committed, s.reload.done);
    } else if step.Unpause? {
      assert s.shared == s.reload.target;
    }
  }

  lemma {:induction false} RunKeepsInv<V, P>(pol: PoliciesOf<V, P>, s: State<V, P>, steps: seq<Step<V, P>>)
    requires Inv(pol, s) && IsRun(pol, s, steps)
    ensures Inv(pol, After(pol, s, steps))
    decreases |steps|
  {
    hide Inv, Enabled, Next;
    if steps != [] {
      StepKeepsInv(pol, s, steps[0]);
      RunKeepsInv(pol, Next(pol, s, steps[0]), steps[1..]);
    }
  }

  lemma InitialInv<V, P>(pol: PoliciesOf<V, P>, s: State<V, P>)
    requires Initial(s)
    ensures Inv(pol, s)
  {
    NoneCounted(s.threads);
  }

  // --- what it means -----------------------------------------------------------------

  /** In every reachable state: while components are being rewritten no thread is inside; whoever is inside sees the
      complete result of one reload, the same from entry to leave; and the counter counts exactly the threads inside
      and those that are about to find out that they must back out. */
  lemma Exclusion<V, P>(pol: PoliciesOf<V, P>, s0: State<V, P>, steps: seq<Step<V, P>>, t: nat)
    requires Initial(s0) && IsRun(pol, s0, steps)
    ensures var s := After(pol, s0, steps);
            && (s.reload.Writing? && t < |s.threads| ==> !s.threads[t].Inside?)
            && (t < |s.threads| && s.threads[t].Inside? ==> s.threads[t].entered == s.shared == s.committed)
            && s.inflight == CountedIn(s.threads) >= 0
  {
    InitialInv(pol, s0);
    RunKeepsInv(pol, s0, steps);
  }

  /** And the pins: whatever threads and collector do to them in between, a thread inside that sees policies in force
      finds only pins that were made against the very same policies. */
  lemma PinsCurrent<V, P>(pol: PoliciesOf<V, P>, s0: State<V, P>, steps: seq<Step<V, P>>, t: nat, i: nat)
    requires Initial(s0) && IsRun(pol, s0, steps)
    ensures var s := After(pol, s0, steps);
            t < |s.threads| && s.threads[t].Inside? && pol(s.threads[t].entered).Some? && i < |s.pins| ==>
              s.pins[i] == pol(s.threads[t].entered).value
  {
    InitialInv(pol, s0);
    RunKeepsInv(pol, s0, steps);
  }

  /** A finished reload has installed exactly its target. */
  lemma ReloadInstallsTarget<V, P>(pol: PoliciesOf<V, P>, s0: State<V, P>, steps: seq<Step<V, P>>)
    requires Initial(s0) && IsRun(pol, s0, steps) && Enabled(pol, After(pol, s0, steps), Unpause)
    ensures var s := After(pol, s0, steps);
            Next(pol, s, Unpause).committed == s.reload.target
  {
    InitialInv(pol, s0);
    RunKeepsInv(pol, s0, steps);
    var s := After(pol, s0, steps);
    assert s.reload.target[..s.reload.done] + s.committed[s.reload.done..] == s.reload.target;
  }

  // --- draining ----------------------------------------------------------------------

  /** Steps a thread still has in front of it once the pause flag is set. */
  function Left<V>(pc: Pc<V>): nat
  {
    match pc
    case Waiting => 0
    case Idle => 1
    case BackingOut => 1
    case Counted => 2
    case Cleared => 3
    case Inside(_, todo) => todo + 2
  }

  function Rank<V>(threads: seq<Pc<V>>): nat
  {
    if threads == [] then 0 else Left(threads[0]) + Rank(threads[1..])
  }

  lemma {:induction false} RankUpdate<V>(threads: seq<Pc<V>>, t: nat, pc: Pc<V>)
    requires t < |threads|
    ensures Rank(threads[t := pc]) + Left(threads[t]) == Rank(threads) + Left(pc)
  {
    if t == 0 {
      assert threads[t := pc][1..] == threads[1..];
    } else {
      assert threads[t := pc][1..] == threads[1..][t - 1 := pc];
      RankUpdate(threads[1..], t - 1, pc);
    }
  }

  /** Attempts to enter that the thread can still start while the flag stays set. */
  function AttemptsLeft<V>(pc: Pc<V>): nat { if pc.Cleared? then 1 else 0 }

  /** A step of a packet thread that is not the idle spin. */
  predicate IsProgress<V, P>(step: Step<V, P>) { IsPacketStep(step) && !step.ReadSpin? }

  /** While the flag is set, every step of a packet thread except spinning lowers the rank, each thread has at most one
      increment left, and neither spinning nor the collector raises anything. */
  lemma DrainStep<V, P>(pol: PoliciesOf<V, P>, s: State<V, P>, step: Step<V, P>)
    requires Enabled(pol, s, step) && s.pause && !IsReloaderStep(step)
    ensures var n := Next(pol, s, step);
            && n.pause && |n.threads| == |s.threads|
            && (IsProgress(step) ==> Rank(n.threads) < Rank(s.threads))
            && (!IsProgress(step) ==> n.threads == s.threads && n.inflight == s.inflight)
            && (IsPacketStep(step) ==>
                  AttemptsLeft(n.threads[step.t]) + (if step.Increment? then 1 else 0)
                  == AttemptsLeft(s.threads[step.t]))
  {
    hide Rank;
    if IsPacketStep(step) {
      RankUpdate(s.threads, step.t, Next(pol, s, step).threads[step.t]);
    }
  }

  /** As long as the counter is not zero, some thread can make such a step. */
  lemma DrainProgress<V, P>(pol: PoliciesOf<V, P>, s: State<V, P>)
    requires Inv(pol, s) && s.inflight > 0 && |s.shared| > 0
    ensures exists step: Step<V, P> :: Enabled(pol, s, step) && IsProgress(step)
  {
    NoneCounted(s.threads);
    var t :| 0 <= t < |s.threads| && IsCounted(s.threads[t]);
    var step: Step<V, P> := if s.threads[t].Counted? then ReadAgain(t, 0)
                            else if s.threads[t].BackingOut? then Decrement(t)
                            else if s.threads[t].todo > 0 then Read(t, 0)
                            else Leave(t);
    assert Enabled(pol, s, step) && IsProgress(step);
  }

  /** How many of the steps are progress. */
  function ProgressIn<V, P>(steps: seq<Step<V, P>>): nat
  {
    if steps == [] then 0 else (if IsProgress(steps[0]) then 1 else 0) + ProgressIn(steps[1..])
  }

  predicate NoReloader<V, P>(steps: seq<Step<V, P>>) { forall i | 0 <= i < |steps| :: !IsReloaderStep(steps[i]) }

  /** Draining terminates: with the flag set, however often threads spin and the collector sweeps, packet threads make
      at most Rank steps of progress in any order; and when they can make no more, the counter is zero, so that the
      reloader goes on. */
  lemma {:induction false} DrainTerminates<V, P>(pol: PoliciesOf<V, P>, s: State<V, P>, steps: seq<Step<V, P>>)
    requires Inv(pol, s) && s.pause && |s.shared| > 0 && IsRun(pol, s, steps) && NoReloader(steps)
    ensures ProgressIn(steps) + Rank(After(pol, s, steps).threads) <= Rank(s.threads)
    ensures After(pol, s, steps).pause
    ensures (forall step: Step<V, P> :: Enabled(pol, After(pol, s, steps), step) ==> !IsProgress(step)) ==>
              After(pol, s, steps).inflight == 0
    decreases |steps|
  {
    hide Rank, Inv, Enabled, Next, IsPacketStep;
    if steps == [] {
      InflightNat(pol, s);
      if s.inflight > 0 {
        DrainProgress(pol, s);
      }
    } else {
      var n := Next(pol, s, steps[0]);
      assert !IsReloaderStep(steps[0]);
      DrainStep(pol, s, steps[0]);
      StepKeepsInv(pol, s, steps[0]);
      SharedKept(pol, s, steps[0]);
      DrainTerminates(pol, n, steps[1..]);
    }
  }

  lemma InflightNat<V, P>(pol: PoliciesOf<V, P>, s: State<V, P>)
    requires Inv(pol, s)
    ensures s.inflight >= 0
  {}

  lemma SharedKept<V, P>(pol: PoliciesOf<V, P>, s: State<V, P>, step: Step<V, P>)
    requires Enabled(pol, s, step)
    ensures |Next(pol, s, step).shared| == |s.shared|
  {}
}
