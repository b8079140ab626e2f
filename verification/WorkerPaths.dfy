/** All ways through the body of the encrypting worker, from a job to the release of its frame. */
module WorkerPaths {
  import opened Bytes
  import opened Config

  /** The policy a packet gets, and whether its context is ready. */
  datatype Chosen = Chosen(action: int, ready: bool)

  /** Everything on which the way of a job depends: the configuration, the packet, and how the calls turn out.
      listsPolicies says that there are policies at all; addressed, that the addresses of the chosen WAN are known (for
      a split packet: those of both fragments, too); finishing, that the TCP segment carries FIN or RST. */
  datatype Fate = Fate(crypto: bool, flowOk: bool, tcp: bool, finishing: bool, chosen: Option<Chosen>,
                       listsPolicies: bool, addressed: bool, needSplit: bool, split: bool, fragmentsAddressed: bool,
                       encrypted: bool, sent: bool, sentSecond: bool)

  datatype Action = Sent | Drop | SetPin | RemovePin | Flush | Release | LeaveGate

  function Attempt(sent: bool): Action { if sent then Sent else Drop }

  /** No policy matches although there are some: the packet must not leave in clear. */
  predicate Refused(j: Fate) { j.crypto && j.flowOk && j.chosen.None? && j.listsPolicies }

  /** Sent as it is: crypto is off, the packet is no flow, or its policy bypasses encryption or has no context. */
  predicate InClear(j: Fate)
  {
    !j.crypto || !j.flowOk || j.chosen.None? || j.chosen.value.action == ACTION_BYPASS || !j.chosen.value.ready
  }

  /** TCP connections are pinned to a policy that bypasses encryption or is ready. */
  predicate Pins(j: Fate)
  {
    j.crypto && j.flowOk && j.tcp && j.chosen.Some? && (j.chosen.value.action == ACTION_BYPASS || j.chosen.value.ready)
  }

  /** The layers that split. */
  predicate Splits(j: Fate)
  {
    j.chosen.Some? && j.chosen.value.action in {ACTION_L2, ACTION_L3, ACTION_L4} && j.needSplit
  }

  /** Whether the worker gets as far as handing something to the transmit queue. */
  predicate Transmits(j: Fate)
  {
    !Refused(j) && j.addressed
    && (InClear(j) || (if Splits(j) then j.split && j.fragmentsAddressed else j.encrypted))
  }

  /** Whether two fragments are handed over. */
  predicate Twice(j: Fate) { Transmits(j) && !InClear(j) && Splits(j) }

  predicate Removes(j: Fate) { Transmits(j) && !InClear(j) && j.tcp && j.finishing }

  function Then(log: seq<Action>, happens: bool, a: Action): seq<Action> { if happens then log + [a] else log }

  /** What the worker does, in order. */
  function WorkerLog(j: Fate): seq<Action>
  {
    var pinned := Then([], Pins(j), SetPin);
    var counted := Then(pinned + [if Transmits(j) then Attempt(j.sent) else Drop], Twice(j), Attempt(j.sentSecond));
    Then(Then(counted, Removes(j), RemovePin), Transmits(j), Flush) + [Release] + [LeaveGate]
  }

  function Times(log: seq<Action>, a: Action): nat { multiset(log)[a] }

  lemma TimesThen(log: seq<Action>, happens: bool, b: Action, a: Action)
    ensures Times(Then(log, happens, b), a) == Times(log, a) + (if happens && a == b then 1 else 0)
    ensures Times(log + [b], a) == Times(log, a) + (if a == b then 1 else 0)
  {}

  /** How often each action happens. */
  lemma TimesOf(j: Fate, a: Action)
    ensures Times(WorkerLog(j), a)
         == (if Pins(j) && a == SetPin then 1 else 0)
            + (if a == (if Transmits(j) then Attempt(j.sent) else Drop) then 1 else 0)
            + (if Twice(j) && a == Attempt(j.sentSecond) then 1 else 0)
            + (if Removes(j) && a == RemovePin then 1 else 0)
            + (if Transmits(j) && a == Flush then 1 else 0)
            + (if a == Release then 1 else 0) + (if a == LeaveGate then 1 else 0)
  {
    hide Times, Then, Pins, Transmits, Twice, Removes;
    var pinned := Then([], Pins(j), SetPin);
    var first := if Transmits(j) then Attempt(j.sent) else Drop;
    var counted := Then(pinned + [first], Twice(j), Attempt(j.sentSecond));
    var removed := Then(counted, Removes(j), RemovePin);
    var flushed := Then(removed, Transmits(j), Flush);
    assert Times([], a) == 0 by { NoTimes(a); }
    TimesThen([], Pins(j), SetPin, a);
    TimesThen(pinned, true, first, a);
    TimesThen(pinned + [first], Twice(j), Attempt(j.sentSecond), a);
    TimesThen(counted, Removes(j), RemovePin, a);
    TimesThen(removed, Transmits(j), Flush, a);
    TimesThen(flushed, true, Release, a);
    TimesThen(flushed + [Release], true, LeaveGate, a);
  }

  lemma NoTimes(a: Action)
    ensures Times([], a) == 0
  {}

  /** Whatever way a job takes, its frame is released exactly once, after everything that looks at it and before the
      gate is left; what was to be sent is counted as sent or dropped, once per packet or fragment; and nothing leaves
      in clear while policies exist and none matches. */
  lemma EveryPath(j: Fate)
    ensures var log := WorkerLog(j);
            && Times(log, Release) == 1 && Times(log, LeaveGate) == 1
            && |log| >= 2 && log[|log| - 2] == Release && log[|log| - 1] == LeaveGate
            && Times(log, Sent) + Times(log, Drop) == (if Twice(j) then 2 else 1)
            && (Refused(j) ==> Times(log, Sent) == 0)
  {
    hide WorkerLog, Times;
    TimesOf(j, Release);
    TimesOf(j, LeaveGate);
    TimesOf(j, Sent);
    TimesOf(j, Drop);
    ReleaseThenLeave(j);
  }

  lemma ReleaseThenLeave(j: Fate)
    ensures var log := WorkerLog(j);
            |log| >= 2 && log[|log| - 2] == Release && log[|log| - 1] == LeaveGate
  {
    hide Pins, Transmits, Twice, Removes;
  }

  /** The body of the worker loop, with its two jumps: to the flush, and past it to the release. */
  method RunJob(j: Fate) returns (log: seq<Action>)
    ensures log == WorkerLog(j)
  {
    log := [];
    label release: {
      label flush: {
        if j.crypto {
          var bypass := false;
          if !j.flowOk {
            bypass := true;
          } else if j.chosen.Some? {
            bypass := j.chosen.value.action == ACTION_BYPASS || !j.chosen.value.ready;
          } else {
            if j.listsPolicies {
              log := log + [Drop];
              break release;
            }
            bypass := true;
          }
          if j.tcp && j.flowOk && j.chosen.Some? {
            if j.chosen.value.action == ACTION_BYPASS || (!bypass && j.chosen.value.ready) {
              log := log + [SetPin];
            }
          }
          if bypass {
            if !j.addressed {
              log := log + [Drop];
              break release;
            }
            log := log + [Attempt(j.sent)];
            break flush;
          }
        }
        if !j.addressed {
          log := log + [Drop];
          break release;
        }
        if !j.crypto {
          log := log + [Attempt(j.sent)];
        } else if j.chosen.value.action in {ACTION_L2, ACTION_L3, ACTION_L4} && j.needSplit {
          if !j.split {
            log := log + [Drop];
            break release;
          }
          if !j.fragmentsAddressed {
            log := log + [Drop];
            break release;
          }
          log := log + [Attempt(j.sent)];
          log := log + [Attempt(j.sentSecond)];
        } else {
          if !j.encrypted {
            log := log + [Drop];
            break release;
          }
          log := log + [Attempt(j.sent)];
        }
        if j.crypto && j.flowOk && j.tcp && j.finishing {
          log := log + [RemovePin];
        }
      }
      log := log + [Flush];
    }
    log := log + [Release];
    log := log + [LeaveGate];
  }
}
