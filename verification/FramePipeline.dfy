/** Receive frames on their way through the layer-3/4 pipeline: fill ring, kernel, receive thread, worker ring,
    worker, and back to the fill ring.  Frames are tokens; every release is one step. */
module FramePipeline {
  import opened Basics
  import opened Bytes
  import opened WorkerPaths

  /** Slots of the worker ring; one stays empty to tell a full ring from an empty one. */
  const RING_SLOTS := 4096

  /** A receive frame: the interface whose memory it lies in and its number there. */
  datatype Frame = Frame(iface: nat, addr: nat)

  // --- the worker ring ---------------------------------------------------------------------

  /** The jobs between head and tail, oldest first; the tail may have wrapped around. */
  function Queued(jobs: seq<Frame>, head: nat, tail: nat): seq<Frame>
    requires head <= |jobs| && tail <= |jobs|
  {
    if head <= tail then jobs[head..tail] else jobs[head..] + jobs[..tail]
  }

  function After1(i: nat): (r: nat)
    requires i < RING_SLOTS
    ensures r == (i + 1) % RING_SLOTS
  {
    if i + 1 == RING_SLOTS then 0 else i + 1
  }

  lemma OldestLeaves(jobs: seq<Frame>, head: nat, tail: nat)
    requires |jobs| == RING_SLOTS && head < RING_SLOTS && tail < RING_SLOTS && head != tail
    ensures var q := Queued(jobs, head, tail);
            q != [] && q[0] == jobs[head] && Queued(jobs, After1(head), tail) == q[1..]
  {
    if head > tail && head + 1 == RING_SLOTS {
      assert jobs[head..] == [jobs[head]];
    }
  }

  lemma NewestEnters(jobs: seq<Frame>, head: nat, tail: nat, job: Frame)
    requires |jobs| == RING_SLOTS && head < RING_SLOTS && tail < RING_SLOTS
    ensures |Queued(jobs, head, tail)| < RING_SLOTS - 1 <==> After1(tail) != head
    ensures After1(tail) != head ==> Queued(jobs[tail := job], head, After1(tail)) == Queued(jobs, head, tail) + [job]
  {
    var jobs' := jobs[tail := job];
    if head <= tail {
      assert tail + 1 == RING_SLOTS ==> jobs'[head..] == jobs[head..tail] + [job];
    }
  }

  class WorkerRing {
    const jobs: array<Frame>
    var head: nat
    var tail: nat

    predicate Valid()
      reads this
    {
      jobs.Length == RING_SLOTS && head < RING_SLOTS && tail < RING_SLOTS
    }

    /** The queued jobs, oldest first. */
    function Contents(): (s: seq<Frame>)
      requires Valid()
      reads this, jobs
      ensures |s| < RING_SLOTS
    {
      Queued(jobs[..], head, tail)
    }

    constructor ()
      ensures Valid() && Contents() == [] && fresh(jobs)
    {
      jobs := new Frame[RING_SLOTS](_ => Frame(0, 0));
      head, tail := 0, 0;
    }

    /** Adds a job at the end unless the ring is full. */
    method Enqueue(job: Frame) returns (ok: bool)
      requires Valid()
      modifies this`tail, jobs
      ensures Valid()
      ensures ok <==> |old(Contents())| < RING_SLOTS - 1
      ensures Contents() == if ok then old(Contents()) + [job] else old(Contents())
    {
      hide Queued;
      NewestEnters(jobs[..], head, tail, job);
      var next := After1(tail);
      ok := next != head;
      if ok {
        jobs[tail] := job;
        tail := next;
      }
    }

    /** Removes the oldest job. */
    method Dequeue() returns (job: Option<Frame>)
      requires Valid()
      modifies this`head
      ensures Valid()
      ensures var was := old(Contents());
              if was == [] then job == None && Contents() == []
              else job == Some(was[0]) && Contents() == was[1..]
    {
      job := None;
      if head != tail {
        OldestLeaves(jobs[..], head, tail);
        job := Some(jobs[head]);
        head := After1(head);
      }
    }
  }

  // --- the pipeline ------------------------------------------------------------------------

  /** One LAN interface: free frames, frames with received packets, and the batch its receive thread works on. */
  datatype Queue = Queue(fill: seq<Frame>, rx: seq<Frame>, batch: seq<Frame>)

  /** The last four fields record history: which frames were received and released how often, and what entered and
      left the worker ring in which order. */
  datatype State = State(queues: seq<Queue>, ring: seq<Frame>, workers: seq<Option<Frame>>,
                         received: multiset<Frame>, released: multiset<Frame>, entered: seq<Frame>, taken: seq<Frame>)

  datatype Step =
    | KernelReceive(i: nat)        // a packet arrives: the kernel uses the next free frame
    | Peek(i: nat, n: nat)         // the receive thread takes over n received frames
    | Handle(i: nat)               // it enqueues the next frame of its batch, or releases it when the ring is full
    | Take(w: nat)                 // a worker takes the oldest job
    | Finish(w: nat, j: Fate)      // the worker goes through the job, on the way that its fate decides

  /** Number of frames of interface i; also the capacity of its fill ring. */
  type Capacities = seq<nat>

  predicate Enabled(s: State, step: Step)
  {
    match step
    case KernelReceive(i) => i < |s.queues| && s.queues[i].fill != []
    case Peek(i, n) => i < |s.queues| && s.queues[i].batch == [] && 1 <= n <= |s.queues[i].rx|
    case Handle(i) => i < |s.queues| && s.queues[i].batch != [] && s.queues[i].batch[0].iface < |s.queues|
    case Take(w) => w < |s.workers| && s.workers[w] == None && s.ring != []
    case Finish(w, _) => w < |s.workers| && s.workers[w].Some? && s.workers[w].value.iface < |s.queues|
  }

  /** Returning a frame to its fill ring; when no slot can be reserved the frame is lost. */
  function Release(caps: Capacities, s: State, f: Frame): State
    requires f.iface < |s.queues| == |caps|
  {
    var q := s.queues[f.iface];
    if |q.fill| < caps[f.iface] then
      s.(queues := s.queues[f.iface := q.(fill := q.fill + [f])], released := s.released + multiset{f})
    else s
  }

  /** As often as the code on the worker's way says. */
  function ReleaseTimes(caps: Capacities, s: State, f: Frame, n: nat): (r: State)
    requires f.iface < |s.queues| == |caps|
    ensures |r.queues| == |caps|
    decreases n
  {
    if n == 0 then s else ReleaseTimes(caps, Release(caps, s, f), f, n - 1)
  }

  function WithQueue(s: State, i: nat, q: Queue): State
    requires i < |s.queues|
  {
    s.(queues := s.queues[i := q])
  }

  function Next(caps: Capacities, s: State, step: Step): State
    requires |s.queues| == |caps| && Enabled(s, step)
    ensures |Next(caps, s, step).queues| == |caps|
  {
    match step
    case KernelReceive(i) =>
      var q := s.queues[i];
      WithQueue(s, i, q.(fill := q.fill[1..], rx := q.rx + [q.fill[0]])).(received := s.received + multiset{q.fill[0]})
    case Peek(i, n) =>
      var q := s.queues[i];
      WithQueue(s, i, q.(rx := q.rx[n..], batch := q.rx[..n]))
    case Handle(i) =>
      var q := s.queues[i];
      var f := q.batch[0];
      var t := WithQueue(s, i, q.(batch := q.batch[1..]));
      if |s.ring| < RING_SLOTS - 1 then t.(ring := s.ring + [f], entered := s.entered + [f]) else Release(caps, t, f)
    case Take(w) =>
      s.(ring := s.ring[1..], workers := s.workers[w := Some(s.ring[0])], taken := s.taken + [s.ring[0]])
    case Finish(w, j) =>
      ReleaseTimes(caps, s.(workers := s.workers[w := None]), s.workers[w].value, Times(WorkerLog(j), Action.Release))
  }

  /** The frames of a queue belong to its interface. */
  predicate OwnFrames(s: State)
  {
    forall i | 0 <= i < |s.queues| ::
      Own(s.queues[i].fill, i) && Own(s.queues[i].rx, i) && Own(s.queues[i].batch, i)
  }

  predicate Own(frames: seq<Frame>, i: nat)
  {
    forall k | 0 <= k < |frames| :: frames[k].iface == i
  }

  // --- counting ------------------------------------------------------------------------------

  function Occ(frames: seq<Frame>, f: Frame): nat { multiset(frames)[f] }

  function Held(workers: seq<Option<Frame>>, f: Frame): nat
  {
    if workers == [] then 0 else (if workers[0] == Some(f) then 1 else 0) + Held(workers[1..], f)
  }

  lemma {:induction false} HeldUpdate(workers: seq<Option<Frame>>, w: nat, x: Option<Frame>, f: Frame)
    requires w < |workers|
    ensures Held(workers[w := x], f) + (if workers[w] == Some(f) then 1 else 0)
         == Held(workers, f) + (if x == Some(f) then 1 else 0)
  {
    if w == 0 {
      assert workers[w := x][1..] == workers[1..];
    } else {
      assert workers[w := x][1..] == workers[1..][w - 1 := x];
      HeldUpdate(workers[1..], w - 1, x, f);
    }
  }

  /** How often a frame is under way between its fill ring and its release. */
  function UnderWay(s: State, f: Frame): nat
    requires f.iface < |s.queues|
  {
    var q := s.queues[f.iface];
    Occ(q.rx, f) + Occ(q.batch, f) + Occ(s.ring, f) + Held(s.workers, f)
  }

  /** How often a frame exists at all. */
  function Count(s: State, f: Frame): nat
    requires f.iface < |s.queues|
  {
    Occ(s.queues[f.iface].fill, f) + UnderWay(s, f)
  }

  lemma OccAppend(a: seq<Frame>, x: Frame, f: Frame)
    ensures Occ(a + [x], f) == Occ(a, f) + (if x == f then 1 else 0)
  {}

  lemma OccFirst(a: seq<Frame>, f: Frame)
    requires a != []
    ensures Occ(a, f) == Occ(a[1..], f) + (if a[0] == f then 1 else 0)
  {
    assert a == [a[0]] + a[1..];
  }

  lemma OccSplit(a: seq<Frame>, n: nat, f: Frame)
    requires n <= |a|
    ensures Occ(a, f) == Occ(a[..n], f) + Occ(a[n..], f)
  {
    assert a == a[..n] + a[n..];
  }

  // --- the invariant -------------------------------------------------------------------------

  predicate IsFrame(caps: Capacities, f: Frame) { f.iface < |caps| && f.addr < caps[f.iface] }

  /** Every frame is in exactly one place, nothing else is anywhere, what is under way has been received once more than
      released, and the ring is a queue. */
  ghost predicate Inv(caps: Capacities, s: State)
  {
    && |s.queues| == |caps| && OwnFrames(s)
    && (forall k | 0 <= k < |s.ring| :: s.ring[k].iface < |caps|)
    && (forall w | 0 <= w < |s.workers| && s.workers[w].Some? :: s.workers[w].value.iface < |caps|)
    && (forall f: Frame | f.iface < |caps| :: Count(s, f) == if IsFrame(caps, f) then 1 else 0)
    && (forall f: Frame | f.iface < |caps| :: s.received[f] == s.released[f] + UnderWay(s, f))
    && s.entered == s.taken + s.ring && |s.ring| < RING_SLOTS
  }

  /** All frames free, as interface initialisation leaves them. */
  ghost predicate Initial(caps: Capacities, s: State)
  {
    && |s.queues| == |caps| && s.ring == [] && s.entered == [] && s.taken == []
    && s.received == multiset{} && s.released == multiset{}
    && (forall w | 0 <= w < |s.workers| :: s.workers[w] == None)
    && (forall i | 0 <= i < |caps| :: s.queues[i] == Queue(AllFrames(i, caps[i]), [], []))
  }

  function AllFrames(i: nat, n: nat): (r: seq<Frame>)
    ensures |r| == n && Own(r, i)
  {
    if n == 0 then [] else AllFrames(i, n - 1) + [Frame(i, n - 1)]
  }

  lemma {:induction false} AllFramesOcc(i: nat, n: nat, f: Frame)
    requires f.iface == i
    ensures Occ(AllFrames(i, n), f) == if f.addr < n then 1 else 0
  {
    if n > 0 {
      AllFramesOcc(i, n - 1, f);
      OccAppend(AllFrames(i, n - 1), Frame(i, n - 1), f);
    }
  }

  lemma {:induction false} NoneHeld(workers: seq<Option<Frame>>, f: Frame)
    requires forall w | 0 <= w < |workers| :: workers[w] == None
    ensures Held(workers, f) == 0
  {
    if workers != [] {
      NoneHeld(workers[1..], f);
    }
  }

  lemma InitialInv(caps: Capacities, s: State)
    requires Initial(caps, s)
    ensures Inv(caps, s)
  {
    hide Occ;
    forall f: Frame | f.iface < |caps|
      ensures Count(s, f) == (if IsFrame(caps, f) then 1 else 0) && UnderWay(s, f) == 0
    {
      AllFramesOcc(f.iface, caps[f.iface], f);
      NoneHeld(s.workers, f);
      EmptyOcc(f);
    }
  }

  lemma EmptyOcc(f: Frame)
    ensures Occ([], f) == 0
  {}

  // --- room for every release ------------------------------------------------------------------

  function Numbers(n: nat): (r: set<nat>)
    ensures |r| == n && forall k: nat :: k in r <==> k < n
  {
    if n == 0 then {} else Numbers(n - 1) + {n - 1}
  }

  function Addresses(frames: seq<Frame>): (r: set<nat>)
    ensures forall x :: x in r ==> exists k | 0 <= k < |frames| :: frames[k].addr == x
  {
    if frames == [] then {} else Addresses(frames[1..]) + {frames[0].addr}
  }

  ghost predicate NoDuplicates(frames: seq<Frame>) { forall f :: Occ(frames, f) <= 1 }

  /** Frames of one interface are told apart by their addresses. */
  lemma {:induction false} AddressCount(frames: seq<Frame>, i: nat)
    requires Own(frames, i) && NoDuplicates(frames)
    ensures |Addresses(frames)| == |frames|
  {
    if frames != [] {
      var first, rest := frames[0], frames[1..];
      assert NoDuplicates(rest) && Occ(rest, first) == 0 by {
        forall f ensures Occ(rest, f) <= 1 && Occ(rest, first) == 0 {
          OccFirst(frames, f);
          OccFirst(frames, first);
          assert Occ(frames, f) <= 1 && Occ(frames, first) <= 1;
        }
      }
      AddressCount(rest, i);
      forall k | 0 <= k < |rest| ensures rest[k].addr != first.addr {
        Present(rest, k);
        assert rest[k].iface == first.iface;
      }
    }
  }

  /** Frames of one interface with numbers below n, none of them twice and one missing: fewer than n. */
  lemma RoomFor(frames: seq<Frame>, i: nat, n: nat, missing: Frame)
    requires Own(frames, i) && NoDuplicates(frames) && forall k | 0 <= k < |frames| :: frames[k].addr < n
    requires missing.iface == i && missing.addr < n && Occ(frames, missing) == 0
    ensures |frames| < n
  {
    AddressCount(frames, i);
    forall x | x in Addresses(frames) ensures x in Numbers(n) - {missing.addr} {
      var k :| 0 <= k < |frames| && frames[k].addr == x;
      assert frames[k] in multiset(frames);
    }
    SubsetSize(Addresses(frames), Numbers(n) - {missing.addr});
  }

  /** A frame that is under way always finds room in its fill ring. */
  lemma ReserveSucceeds(caps: Capacities, s: State, f: Frame)
    requires Inv(caps, s) && f.iface < |caps| && UnderWay(s, f) > 0
    ensures IsFrame(caps, f) && |s.queues[f.iface].fill| < caps[f.iface]
  {
    hide Occ, UnderWay;
    var i := f.iface;
    var fill := s.queues[i].fill;
    assert Count(s, f) <= 1;
    forall g ensures Occ(fill, g) <= 1 {
      if g.iface == i {
        assert Count(s, g) <= 1;
      } else {
        NotOwn(fill, i, g);
      }
    }
    forall k | 0 <= k < |fill| ensures fill[k].addr < caps[i] {
      Present(fill, k);
      assert fill[k].iface == i && Count(s, fill[k]) >= 1;
    }
    RoomFor(fill, i, caps[i], f);
  }

  lemma NotOwn(frames: seq<Frame>, i: nat, g: Frame)
    requires Own(frames, i) && g.iface != i
    ensures Occ(frames, g) == 0
  {
    assert g in multiset(frames) <==> g in frames;
  }

  lemma Present(frames: seq<Frame>, k: nat)
    requires k < |frames|
    ensures Occ(frames, frames[k]) >= 1
  {
    assert frames[k] in multiset(frames);
  }

  // --- every step keeps the invariant ----------------------------------------------------------

  /** Where a step moves frame f, in terms of how often it is free, under way, received and released. */
  lemma KernelReceiveKeeps(caps: Capacities, s: State, i: nat)
    requires Inv(caps, s) && Enabled(s, KernelReceive(i))
    ensures Inv(caps, Next(caps, s, KernelReceive(i)))
  {
    hide Occ;
    var n := Next(caps, s, KernelReceive(i));
    var q := s.queues[i];
    forall f: Frame | f.iface < |caps|
      ensures Count(n, f) == Count(s, f) && n.received[f] - UnderWay(n, f) == s.received[f] - UnderWay(s, f)
    {
      OccFirst(q.fill, f);
      OccAppend(q.rx, q.fill[0], f);
    }
  }

  lemma PeekKeeps(caps: Capacities, s: State, i: nat, c: nat)
    requires Inv(caps, s) && Enabled(s, Peek(i, c))
    ensures Inv(caps, Next(caps, s, Peek(i, c)))
  {
    hide Occ;
    var n := Next(caps, s, Peek(i, c));
    var q := s.queues[i];
    forall f: Frame | f.iface < |caps| ensures Count(n, f) == Count(s, f) && UnderWay(n, f) == UnderWay(s, f) {
      OccSplit(q.rx, c, f);
      EmptyOcc(f);
    }
  }

  lemma TakeKeeps(caps: Capacities, s: State, w: nat)
    requires Inv(caps, s) && Enabled(s, Take(w))
    ensures Inv(caps, Next(caps, s, Take(w)))
  {
    hide Occ, Held;
    var n := Next(caps, s, Take(w));
    forall f: Frame | f.iface < |caps| ensures Count(n, f) == Count(s, f) && UnderWay(n, f) == UnderWay(s, f) {
      OccFirst(s.ring, f);
      HeldUpdate(s.workers, w, Some(s.ring[0]), f);
    }
    assert s.taken + s.ring == s.taken + [s.ring[0]] + s.ring[1..];
  }

  /** Releasing a frame that has just left its last place. */
  lemma ReleaseCounts(caps: Capacities, t: State, x: Frame, f: Frame)
    requires |t.queues| == |caps| && x.iface < |caps| && f.iface < |caps| && |t.queues[x.iface].fill| < caps[x.iface]
    ensures var n := Release(caps, t, x);
            && UnderWay(n, f) == UnderWay(t, f)
            && Count(n, f) == Count(t, f) + (if f == x then 1 else 0)
            && n.released[f] == t.released[f] + (if f == x then 1 else 0)
  {
    hide Occ, Held;
    OccAppend(t.queues[x.iface].fill, x, f);
  }

  /** Whatever way the worker has taken, it releases its frame once. */
  lemma FinishReleases(caps: Capacities, s: State, w: nat, j: Fate)
    requires |s.queues| == |caps| && Enabled(s, Finish(w, j))
    ensures Next(caps, s, Finish(w, j))
         == Release(caps, s.(workers := s.workers[w := None]), s.workers[w].value)
  {
    hide Release, Times, WorkerLog;
    EveryPath(j);
  }

  lemma FinishKeeps(caps: Capacities, s: State, w: nat, j: Fate)
    requires Inv(caps, s) && Enabled(s, Finish(w, j))
    ensures Inv(caps, Next(caps, s, Finish(w, j)))
    ensures |s.queues[s.workers[w].value.iface].fill| < caps[s.workers[w].value.iface]
  {
    hide Occ, Held, WorkerLog, ReleaseTimes, Times;
    var x := s.workers[w].value;
    var t := s.(workers := s.workers[w := None]);
    var n := Next(caps, s, Finish(w, j));
    FinishReleases(caps, s, w, j);
    HeldUpdate(s.workers, w, None, x);
    ReserveSucceeds(caps, s, x);
    forall f: Frame | f.iface < |caps|
      ensures Count(n, f) == Count(s, f) && n.received[f] - n.released[f] - UnderWay(n, f)
              == s.received[f] - s.released[f] - UnderWay(s, f)
    {
      HeldUpdate(s.workers, w, None, f);
      ReleaseCounts(caps, t, x, f);
    }
  }

  /** The next frame of a batch: there is room in its fill ring, should the worker ring be full. */
  lemma HandleCounts(caps: Capacities, s: State, i: nat, f: Frame)
    requires Inv(caps, s) && Enabled(s, Handle(i)) && f.iface < |caps|
    ensures |s.queues[i].fill| < caps[i]
    ensures var n := Next(caps, s, Handle(i));
            Count(n, f) == Count(s, f)
            && n.received[f] - n.released[f] - UnderWay(n, f) == s.received[f] - s.released[f] - UnderWay(s, f)
  {
    hide Occ, Held;
    var q := s.queues[i];
    var x := q.batch[0];
    OccFirst(q.batch, x);
    ReserveSucceeds(caps, s, x);
    OccFirst(q.batch, f);
    if |s.ring| < RING_SLOTS - 1 {
      OccAppend(s.ring, x, f);
    } else {
      ReleaseCounts(caps, WithQueue(s, i, q.(batch := q.batch[1..])), x, f);
    }
  }

  lemma HandleKeeps(caps: Capacities, s: State, i: nat)
    requires Inv(caps, s) && Enabled(s, Handle(i))
    ensures Inv(caps, Next(caps, s, Handle(i)))
  {
    hide Occ, Held, Count, UnderWay;
    var n := Next(caps, s, Handle(i));
    forall f: Frame | f.iface < |caps|
      ensures Count(n, f) == Count(s, f)
              && n.received[f] - n.released[f] - UnderWay(n, f) == s.received[f] - s.released[f] - UnderWay(s, f)
    {
      HandleCounts(caps, s, i, f);
    }
    HandleCounts(caps, s, i, s.queues[i].batch[0]);
    assert s.taken + s.ring + [s.queues[i].batch[0]] == s.taken + (s.ring + [s.queues[i].batch[0]]);
  }

  lemma StepKeepsInv(caps: Capacities, s: State, step: Step)
    requires Inv(caps, s) && Enabled(s, step)
    ensures Inv(caps, Next(caps, s, step))
  {
    hide Inv, Enabled, Next;
    match step
    case KernelReceive(i) => KernelReceiveKeeps(caps, s, i);
    case Peek(i, n) => PeekKeeps(caps, s, i, n);
    case Handle(i) => HandleKeeps(caps, s, i);
    case Take(w) => TakeKeeps(caps, s, w);
    case Finish(w, j) => FinishKeeps(caps, s, w, j);
  }

  // --- whole runs ------------------------------------------------------------------------------

  /** A run: each step is enabled where it is taken. */
  predicate IsRun(caps: Capacities, s: State, steps: seq<Step>)
    requires |s.queues| == |caps|
    decreases |steps|
  {
    steps == [] || (Enabled(s, steps[0]) && IsRun(caps, Next(caps, s, steps[0]), steps[1..]))
  }

  function After(caps: Capacities, s: State, steps: seq<Step>): State
    requires |s.queues| == |caps| && IsRun(caps, s, steps)
    decreases |steps|
  {
    if steps == [] then s else After(caps, Next(caps, s, steps[0]), steps[1..])
  }

  lemma {:induction false} RunKeepsInv(caps: Capacities, s: State, steps: seq<Step>)
    requires Inv(caps, s) && IsRun(caps, s, steps)
    ensures Inv(caps, After(caps, s, steps))
    decreases |steps|
  {
    hide Enabled, Next, OwnFrames, Count, UnderWay;
    if steps != [] {
      StepKeepsInv(caps, s, steps[0]);
      RunKeepsInv(caps, Next(caps, s, steps[0]), steps[1..]);
    }
  }

  /** In every interleaving of kernel, receive threads and workers: every frame is in exactly one place, it has been
      released as often as received, or once less while it is under way, jobs leave the worker ring in the order they
      entered, and whoever is about to release a frame finds room for it. */
  lemma Conservation(caps: Capacities, s0: State, steps: seq<Step>, f: Frame)
    requires Initial(caps, s0) && IsFrame(caps, f) && IsRun(caps, s0, steps)
    ensures var s := After(caps, s0, steps);
            && |s.queues| == |caps| && Count(s, f) == 1 && UnderWay(s, f) <= 1
            && s.received[f] == s.released[f] + UnderWay(s, f)
            && s.taken <= s.entered
            && (UnderWay(s, f) == 1 ==> |s.queues[f.iface].fill| < caps[f.iface])
  {
    hide Occ, Held, After, Initial;
    InitialInv(caps, s0);
    RunKeepsInv(caps, s0, steps);
    var s := After(caps, s0, steps);
    if UnderWay(s, f) == 1 {
      ReserveSucceeds(caps, s, f);
    }
  }
}
