/** What whole runs of the scheduler promise a caller: durability from the call on, and no early write. */
module SchedulerRuns {
  import opened Bytes
  import opened DurableSchedule
  import opened Scheduler

  // ---------- From the call to the answer ----------

  lemma {:induction false} RunGrows(mode: Mode, s: State, steps: seq<Step>)
    requires Invariant(mode, s)
    ensures var t := Run(mode, s, steps); s.log <= t.log && s.recordedAt <= t.recordedAt && s.receipts <= t.receipts
  {
    hide Apply, Enabled, Invariant;
    if steps != [] {
      var prefix, step := steps[..|steps| - 1], steps[|steps| - 1];
      RunGrows(mode, s, prefix);
      RunKeepsInvariant(mode, s, prefix);
      if Enabled(mode, Run(mode, s, prefix), step) {
        StepGrows(mode, Run(mode, s, prefix), step);
      }
    }
  }

  /** The client waits for, or has finished waiting for, this epoch. */
  predicate WaitsFor(s: State, c: nat, target: nat) {
    c in s.clients && !s.clients[c].Checked? && s.clients[c].target == target
  }

  lemma StepKeepsTarget(mode: Mode, s: State, step: Step, c: nat, target: nat)
    requires Enabled(mode, s, step) && WaitsFor(s, c, target)
    ensures WaitsFor(Apply(mode, s, step), c, target)
  {
  }

  lemma {:induction false} RunKeepsTarget(mode: Mode, s: State, steps: seq<Step>, c: nat, target: nat)
    requires WaitsFor(s, c, target)
    ensures WaitsFor(Run(mode, s, steps), c, target)
  {
    hide Apply, Enabled, WaitsFor;
    if steps != [] {
      var prefix, step := steps[..|steps| - 1], steps[|steps| - 1];
      RunKeepsTarget(mode, s, prefix, c, target);
      if Enabled(mode, Run(mode, s, prefix), step) {
        StepKeepsTarget(mode, Run(mode, s, prefix), step, c, target);
      }
    }
  }

  /** What the call returned, once it has. */
  function Returned(client: Client): Option<bool> {
    match client
    case Waiting(_, _) => None
    case Finished(_, ok) => Some(ok)
    case Checked(ok) => Some(ok)
  }

  /** Some completed write holds every mutation recorded up to the epoch. */
  ghost predicate OnDisk(s: State, epoch: nat) {
    exists i :: 0 <= i < |s.writes| && Covers(s, epoch, s.writes[i].snapshot)
  }

  lemma InvariantOk(mode: Mode, s: State, c: nat, target: nat)
    requires Invariant(mode, s) && WaitsFor(s, c, target) && Returned(s.clients[c]) == Some(true) && target >= 1
    ensures OnDisk(s, target)
  {
    hide HistoryOk, ScheduledOk, ReceiptsOk;
    assert ClientOk(s, s.clients[c]);
    var i := |s.writes| - 1;
    assert Covers(s, s.writes[i].epoch, s.writes[i].snapshot);
    assert Covers(s, target, s.writes[i].snapshot);
  }

  lemma FlushTarget(mode: Mode, s: State, c: nat)
    requires Invariant(mode, s) && c !in s.clients
    ensures WaitsFor(Apply(mode, s, Flush(c)), c, s.schedule.mutationEpoch)
  {
  }

  /** A flush that returns Ok, at any later point of any run, has put every mutation recorded before the
      call on disk. */
  lemma FlushIsDurable(mode: Mode, s: State, c: nat, steps: seq<Step>)
    requires Reachable(mode, s) && c !in s.clients && s.schedule.mutationEpoch >= 1
    requires var t := Run(mode, Apply(mode, s, Flush(c)), steps);
             c in t.clients && Returned(t.clients[c]) == Some(true)
    ensures var t := Run(mode, Apply(mode, s, Flush(c)), steps);
            s.log <= t.log && s.recordedAt <= t.recordedAt && OnDisk(t, s.schedule.mutationEpoch)
  {
    hide Apply, Invariant, WaitsFor, OnDisk, Returned;
    ReachableInvariant(mode, s);
    var u := Apply(mode, s, Flush(c));
    StepKeepsInvariant(mode, s, Flush(c));
    StepGrows(mode, s, Flush(c));
    FlushTarget(mode, s, c);
    RunKeepsInvariant(mode, u, steps);
    RunGrows(mode, u, steps);
    RunKeepsTarget(mode, u, steps, c, s.schedule.mutationEpoch);
    InvariantOk(mode, Run(mode, u, steps), c, s.schedule.mutationEpoch);
  }

  lemma RecordedMutation(mode: Mode, s: State, m: Mutation)
    requires Invariant(mode, s) && s.schedule.failure.None? && s.schedule.mutationEpoch < MAX_EPOCH
    ensures var t := Apply(mode, s, Mutate(m));
            && t.log == s.log + [m] && |t.receipts| == |s.receipts| + 1 && |t.recordedAt| == |s.receipts| + 1
            && t.recordedAt[|s.receipts|] == |s.log| + 1
  {
    hide WritesOk, WorkerOk, ScheduledOk, ClientsOk;
  }

  lemma ReceiptTarget(mode: Mode, s: State, c: nat, index: nat)
    requires Invariant(mode, s) && mode.Immediate? && c !in s.clients && index < |s.receipts|
    ensures WaitsFor(Apply(mode, s, AwaitReceipt(c, index)), c, index + 1)
  {
    hide HistoryOk, WritesOk, WorkerOk, ScheduledOk, ClientsOk;
  }

  /** In immediate mode, waiting on the receipt of a mutation and getting Ok, with anything else
      happening before and meanwhile, means that some completed write holds that very mutation. */
  lemma ReceiptIsDurable(mode: Mode, s: State, m: Mutation, c: nat, before: seq<Step>, steps: seq<Step>)
    requires Reachable(mode, s) && mode.Immediate?
    requires s.schedule.failure.None? && s.schedule.mutationEpoch < MAX_EPOCH
    requires var t := Run(mode, Apply(mode, s, Mutate(m)), before);
             c !in t.clients && |s.receipts| < |t.receipts| &&
             var u := Run(mode, Apply(mode, t, AwaitReceipt(c, |s.receipts|)), steps);
             c in u.clients && Returned(u.clients[c]) == Some(true)
    ensures var t := Run(mode, Apply(mode, s, Mutate(m)), before);
            var u := Run(mode, Apply(mode, t, AwaitReceipt(c, |s.receipts|)), steps);
            exists i :: 0 <= i < |u.writes| && |s.log| < |u.writes[i].snapshot| && u.writes[i].snapshot[|s.log|] == m
  {
    hide Apply, Invariant, WaitsFor, OnDisk, Returned;
    ReachableInvariant(mode, s);
    var n := |s.receipts|;
    var r := Apply(mode, s, Mutate(m));
    StepKeepsInvariant(mode, s, Mutate(m));
    RecordedMutation(mode, s, m);
    RunKeepsInvariant(mode, r, before);
    RunGrows(mode, r, before);
    var t := Run(mode, r, before);
    var v := Apply(mode, t, AwaitReceipt(c, n));
    StepKeepsInvariant(mode, t, AwaitReceipt(c, n));
    StepGrows(mode, t, AwaitReceipt(c, n));
    ReceiptTarget(mode, t, c, n);
    RunKeepsInvariant(mode, v, steps);
    RunGrows(mode, v, steps);
    RunKeepsTarget(mode, v, steps, c, n + 1);
    var u := Run(mode, v, steps);
    InvariantOk(mode, u, c, n + 1);
    assert u.recordedAt[n] == r.recordedAt[n] && u.log[|s.log|] == r.log[|s.log|] == m;
    HoldsMutation(u, n, |s.log|, m);
  }

  lemma HoldsMutation(s: State, n: nat, at: nat, m: Mutation)
    requires OnDisk(s, n + 1) && n < |s.recordedAt| && s.recordedAt[n] == at + 1 && at < |s.log| && s.log[at] == m
    ensures exists i :: 0 <= i < |s.writes| && at < |s.writes[i].snapshot| && s.writes[i].snapshot[at] == m
  {
    var i :| 0 <= i < |s.writes| && Covers(s, n + 1, s.writes[i].snapshot);
    assert s.recordedAt[n] <= |s.writes[i].snapshot|;
  }

  /** In batched mode a receipt does not wait: the call returns at once, with the failure if there is
      one. */
  lemma BatchedReceiptReturns(mode: Mode, s: State, c: nat, index: nat)
    requires Reachable(mode, s) && mode.Batched? && c !in s.clients && index < |s.receipts|
    ensures Returned(Apply(mode, s, AwaitReceipt(c, index)).clients[c]) == Some(s.schedule.failure.None?)
  {
    ReachableInvariant(mode, s);
    hide HistoryOk, WritesOk, WorkerOk, ScheduledOk, ClientsOk;
  }

  // ---------- No early write ----------

  /** The epoch of the write before the one in hand, or before the last one when none is in hand. */
  function Previous(s: State): nat {
    if s.worker.Due? || s.worker.Writing? then LastWrite(s)
    else if |s.writes| < 2 then 0
    else s.writes[|s.writes| - 2].epoch
  }

  /** An armed deadline is the delay after a mutation recorded since the previous write. */
  ghost predicate DeadlineOk(mode: Mode, s: State) {
    mode.Batched? && s.schedule.deadline.Some? ==>
      exists i :: Previous(s) <= i < |s.recordTimes| && s.schedule.deadline.value == s.recordTimes[i] + mode.delay
  }

  lemma DeadlineKept(mode: Mode, s: State, step: Step)
    requires Invariant(mode, s) && Enabled(mode, s, step) && DeadlineOk(mode, s)
    ensures DeadlineOk(mode, Apply(mode, s, step))
  {
    hide ClientsOk, ReceiptsOk, Covers;
    var t := Apply(mode, s, step);
    if mode.Batched? && t.schedule.deadline.Some? {
      if s.schedule.deadline.Some? {
        var i :| Previous(s) <= i < |s.recordTimes| && s.schedule.deadline.value == s.recordTimes[i] + mode.delay;
        if t.schedule.deadline == s.schedule.deadline {
          DeadlineStays(mode, s, step, i);
        }
      } else {
        DeadlineArmed(mode, s, step);
      }
    }
  }

  lemma DeadlineStays(mode: Mode, s: State, step: Step, i: nat)
    requires Invariant(mode, s) && Enabled(mode, s, step) && mode.Batched?
    requires Previous(s) <= i < |s.recordTimes| && s.schedule.deadline == Some(s.recordTimes[i] + mode.delay)
    requires Apply(mode, s, step).schedule.deadline == s.schedule.deadline
    ensures var t := Apply(mode, s, step);
            Previous(t) <= i < |t.recordTimes| && t.recordTimes[i] == s.recordTimes[i]
  {
    hide ClientsOk, ReceiptsOk, ScheduledOk, HistoryOk, Covers;
  }

  lemma DeadlineArmed(mode: Mode, s: State, step: Step)
    requires Invariant(mode, s) && Enabled(mode, s, step) && mode.Batched? && s.schedule.deadline.None?
    requires Apply(mode, s, step).schedule.deadline.Some?
    ensures var t := Apply(mode, s, step);
            exists i :: Previous(t) <= i < |t.recordTimes| && t.schedule.deadline.value == t.recordTimes[i] + mode.delay
  {
    hide ClientsOk, ReceiptsOk, Covers;
    var t := Apply(mode, s, step);
    var i := |t.recordTimes| - 1;
    assert Previous(t) <= i && t.schedule.deadline.value == t.recordTimes[i] + mode.delay;
  }

  lemma {:induction false} RunKeepsDeadline(mode: Mode, steps: seq<Step>)
    ensures DeadlineOk(mode, Run(mode, Start(), steps))
  {
    hide Apply, Enabled, DeadlineOk;
    if steps == [] {
      StartDeadline(mode);
    } else {
      var prefix, step := steps[..|steps| - 1], steps[|steps| - 1];
      RunKeepsDeadline(mode, prefix);
      RunKeepsInvariant(mode, Start(), prefix);
      if Enabled(mode, Run(mode, Start(), prefix), step) {
        DeadlineKept(mode, Run(mode, Start(), prefix), step);
      }
    }
  }

  lemma StartDeadline(mode: Mode)
    ensures DeadlineOk(mode, Start())
  {
  }

  /** In batched mode a write that neither a flush nor a stop forces falls due no earlier than the delay
      after some mutation that the write before the last one did not hold. */
  lemma NoEarlyWrite(mode: Mode, s: State)
    requires Reachable(mode, s) && mode.Batched? && s.worker.Checking? && !s.schedule.force && !s.schedule.stopping
    requires Apply(mode, s, WorkerCheck).worker.Due?
    ensures exists i :: (if |s.writes| < 2 then 0 else s.writes[|s.writes| - 2].epoch) <= i < |s.recordTimes|
                     && s.recordTimes[i] + mode.delay <= s.now
  {
    var steps :| s == Run(mode, Start(), steps);
    RunKeepsDeadline(mode, steps);
    hide Reachable;
    var i :| Previous(s) <= i < |s.recordTimes| && s.schedule.deadline.value == s.recordTimes[i] + mode.delay;
  }
}
