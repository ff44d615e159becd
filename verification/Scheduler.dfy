/** The protocol between mutators, flushers, receipt holders, a stopper and the background writer,
    as a step system. Every critical section is one step; a write is one step that succeeds or
    fails; a parked thread may wake at any time, so time-outs and spurious wake-ups are covered. */
module Scheduler {
  import opened Bytes
  import opened DurableSchedule

  type Mutation = int

  /** A completed write: the epoch it was taken at and the state it holds, as the mutations that
      had been applied. */
  datatype Written = Written(epoch: nat, snapshot: seq<Mutation>)

  /** Where the background thread stands. `Due` remembers the epoch at which the write fell due. */
  datatype Worker =
    | Checking
    | Parked(timeout: Option<Time>)
    | Due(seen: nat)
    | Writing(epoch: nat, snapshot: seq<Mutation>)
    | Recording(written: nat)
    | Failing(error: Error)
    | Exited(failed: bool)

  /** A flush or a receipt being waited on. A receipt that need not wait is only checked. */
  datatype Client = Waiting(target: nat, parked: bool) | Finished(target: nat, ok: bool) | Checked(ok: bool)

  /** `log` is the protected state; `recordedAt[e - 1]` is its length, and `recordTimes[e - 1]` the time,
      when epoch e was recorded; `receipts` are those that successful recordings returned. */
  datatype State = State(
    schedule: Schedule,
    now: Time,
    log: seq<Mutation>,
    recordedAt: seq<nat>,
    recordTimes: seq<Time>,
    receipts: seq<Receipt>,
    writes: seq<Written>,
    worker: Worker,
    clients: map<nat, Client>)

  datatype Step =
    | Tick(elapsed: nat)
    | Mutate(mutation: Mutation)
    | Flush(client: nat)
    | AwaitReceipt(client: nat, index: nat)
    | ClientCheck(client: nat)
    | ClientWake(client: nat)
    | RequestStop
    | WorkerCheck
    | WorkerWake
    | Snapshot
    | EncodeFails(error: Error)
    | WriteSucceeds
    | WriteFails(error: Error)
    | RecordWrite
    | ReportFailure

  function Start(): State {
    State(InitialSchedule(), 0, [], [], [], [], [], Checking, map[])
  }

  // ---------- Steps ----------

  predicate Enabled(mode: Mode, s: State, step: Step) {
    match step
    case Tick(_) => true
    case Mutate(_) => true
    case Flush(c) => c !in s.clients
    case AwaitReceipt(c, index) => c !in s.clients && index < |s.receipts|
    case ClientCheck(c) => c in s.clients && s.clients[c].Waiting? && !s.clients[c].parked
    case ClientWake(c) => c in s.clients && s.clients[c].Waiting? && s.clients[c].parked
    case RequestStop => true
    case WorkerCheck => s.worker.Checking?
    case WorkerWake => s.worker.Parked?
    case Snapshot => s.worker.Due?
    case EncodeFails(_) => s.worker.Due?
    case WriteSucceeds => s.worker.Writing?
    case WriteFails(_) => s.worker.Writing?
    case RecordWrite => s.worker.Recording?
    case ReportFailure => s.worker.Failing?
  }

  /** Calls are possible in every state, and a write can succeed or fail. */
  lemma CallsPossible(mode: Mode, s: State, m: Mutation, c: nat, elapsed: nat, error: Error)
    ensures Enabled(mode, s, Tick(elapsed)) && Enabled(mode, s, Mutate(m)) && Enabled(mode, s, RequestStop)
    ensures c !in s.clients ==>
              Enabled(mode, s, Flush(c)) && forall i :: 0 <= i < |s.receipts| ==> Enabled(mode, s, AwaitReceipt(c, i))
    ensures s.worker.Writing? ==> Enabled(mode, s, WriteSucceeds) && Enabled(mode, s, WriteFails(error))
    ensures s.worker.Due? ==> Enabled(mode, s, Snapshot) && Enabled(mode, s, EncodeFails(error))
  {
  }

  function Awake(c: Client): Client { if c.Waiting? then c.(parked := false) else c }

  /** notify_all on the condition variable. */
  function Notify(s: State): State {
    s.(worker := if s.worker.Parked? then Checking else s.worker,
       clients := map c | c in s.clients :: Awake(s.clients[c]))
  }

  /** The caller changes the state and records it inside one state-lock section. */
  function MutateStep(mode: Mode, s: State, mutation: Mutation): State {
    var t := s.(log := s.log + [mutation]);
    var (schedule, result) := Recorded(mode, s.schedule, s.now);
    if result.Err? then t
    else Notify(t.(schedule := schedule,
                   recordedAt := s.recordedAt + [|t.log|],
                   recordTimes := s.recordTimes + [s.now],
                   receipts := s.receipts + [result.value]))
  }

  function FlushStep(s: State, c: nat): State {
    var (schedule, entry) := FlushEntered(s.schedule);
    match entry
    case Return(result) => s.(clients := s.clients[c := Finished(s.schedule.mutationEpoch, result.Ok?)])
    case Await(target) => Notify(s.(schedule := schedule, clients := s.clients[c := Waiting(target, false)]))
  }

  /** Waiting on a receipt: for its epoch if it is flagged, otherwise one look at the failure. */
  function AwaitStep(s: State, c: nat, receipt: Receipt): State {
    match ReceiptEntered(s.schedule, receipt)
    case Return(result) => s.(clients := s.clients[c := Checked(result.Ok?)])
    case Await(target) => s.(clients := s.clients[c := Waiting(target, false)])
  }

  function ClientCheckStep(s: State, c: nat): State
    requires c in s.clients && s.clients[c].Waiting?
  {
    var target := s.clients[c].target;
    match EpochAwaited(s.schedule, target)
    case Some(result) => s.(clients := s.clients[c := Finished(target, result.Ok?)])
    case None => s.(clients := s.clients[c := Waiting(target, true)])
  }

  function WorkerCheckStep(s: State): State {
    var (schedule, decision) := DueChecked(s.schedule, s.now);
    var t := s.(schedule := schedule);
    match decision
    case Fail(error) => t.(worker := Failing(error))
    case Stop => t.(worker := Exited(false))
    case Write => t.(worker := Due(s.schedule.mutationEpoch))
    case Park(timeout) => t.(worker := Parked(timeout))
  }

  function Apply(mode: Mode, s: State, step: Step): State
    requires Enabled(mode, s, step)
  {
    match step
    case Tick(elapsed) => s.(now := s.now + elapsed)
    case Mutate(mutation) => MutateStep(mode, s, mutation)
    case Flush(c) => FlushStep(s, c)
    case AwaitReceipt(c, index) => AwaitStep(s, c, s.receipts[index])
    case ClientCheck(c) => ClientCheckStep(s, c)
    case ClientWake(c) => s.(clients := s.clients[c := Waiting(s.clients[c].target, false)])
    case RequestStop => Notify(s.(schedule := StopRequested(s.schedule)))
    case WorkerCheck => WorkerCheckStep(s)
    case WorkerWake => s.(worker := Checking)
    case Snapshot => s.(worker := Writing(s.schedule.mutationEpoch, s.log))
    case EncodeFails(error) => s.(worker := Failing(error))
    case WriteSucceeds =>
      s.(writes := s.writes + [Written(s.worker.epoch, s.worker.snapshot)], worker := Recording(s.worker.epoch))
    case WriteFails(error) => s.(worker := Failing(error))
    case RecordWrite =>
      Notify(s.(schedule := WriteRecorded(mode, s.schedule, s.worker.written, s.now), worker := Checking))
    case ReportFailure =>
      Notify(s.(schedule := s.schedule.(failure := Some(s.worker.error)), worker := Exited(true)))
  }

  /** The state after a run; steps that are not enabled are skipped. */
  function Run(mode: Mode, s: State, steps: seq<Step>): State {
    if steps == [] then s
    else
      var t := Run(mode, s, steps[..|steps| - 1]);
      var step := steps[|steps| - 1];
      if Enabled(mode, t, step) then Apply(mode, t, step) else t
  }

  // ---------- Invariants ----------

  function LastWrite(s: State): nat {
    if s.writes == [] then 0 else s.writes[|s.writes| - 1].epoch
  }

  /** The snapshot holds every mutation recorded up to the epoch. */
  ghost predicate Covers(s: State, epoch: nat, snapshot: seq<Mutation>) {
    && snapshot <= s.log
    && epoch <= |s.recordedAt|
    && forall i :: 0 <= i < epoch ==> s.recordedAt[i] <= |snapshot|
  }

  ghost predicate HistoryOk(s: State) {
    && |s.recordedAt| == |s.recordTimes| == s.schedule.mutationEpoch <= MAX_EPOCH
    && (forall e :: 0 <= e < |s.recordedAt| ==> s.recordedAt[e] <= |s.log|)
    && (forall e :: 0 <= e < |s.recordTimes| ==> s.recordTimes[e] <= s.now)
  }

  ghost predicate WritesOk(s: State) {
    && (forall i :: 0 <= i < |s.writes| ==>
          s.writes[i].epoch >= i + 1 && Covers(s, s.writes[i].epoch, s.writes[i].snapshot))
    && (forall i, j :: 0 <= i < j < |s.writes| ==> s.writes[i].epoch < s.writes[j].epoch)
    && LastWrite(s) <= s.schedule.mutationEpoch
  }

  ghost predicate WorkerOk(s: State) {
    && s.schedule.persistedEpoch <= s.schedule.mutationEpoch
    && (s.schedule.failure.Some? <==> s.worker == Exited(true))
    && match s.worker
       case Recording(e) => s.schedule.persistedEpoch < e == LastWrite(s)
       case Writing(e, snapshot) =>
         s.schedule.persistedEpoch == LastWrite(s) < e <= s.schedule.mutationEpoch && Covers(s, e, snapshot)
       case Due(seen) => s.schedule.persistedEpoch == LastWrite(s) < seen <= s.schedule.mutationEpoch
       case _ => s.schedule.persistedEpoch == LastWrite(s)
  }

  /** The epoch that the work in hand will have made durable. */
  function Covered(s: State): nat {
    match s.worker
    case Due(seen) => seen
    case Writing(e, _) => e
    case Recording(e) => e
    case _ => s.schedule.persistedEpoch
  }

  predicate Active(w: Worker) { !w.Failing? && !w.Exited? }

  /** Mutations beyond the work in hand have a write coming: forced, or by an armed deadline that is
      early enough for the first of them. */
  ghost predicate ScheduledOk(mode: Mode, s: State) {
    && (mode.Immediate? ==> s.schedule.deadline.None?)
    && (mode.Batched? && s.schedule.deadline.Some? ==> s.schedule.deadline.value <= s.now + mode.delay)
    && (Active(s.worker) && s.schedule.mutationEpoch > Covered(s) ==>
          && (mode.Immediate? ==> s.schedule.force)
          && (mode.Batched? ==>
                && s.schedule.deadline.Some?
                && Covered(s) < |s.recordTimes|
                && s.schedule.deadline.value <= s.recordTimes[Covered(s)] + mode.delay))
    && (s.worker.Parked? ==>
          && !s.schedule.force && !s.schedule.stopping && s.worker.timeout == s.schedule.deadline)
  }

  ghost predicate ClientOk(s: State, c: Client) {
    match c
    case Waiting(target, parked) =>
      && target <= s.schedule.mutationEpoch
      && (parked ==> s.schedule.persistedEpoch < target && s.schedule.failure.None?)
      && (Active(s.worker) && Covered(s) < target ==> s.schedule.force)
    case Finished(target, ok) => if ok then target <= s.schedule.persistedEpoch else s.schedule.failure.Some?
    case Checked(ok) => ok || s.schedule.failure.Some?
  }

  /** Receipt number i carries epoch i + 1, and waits exactly in immediate mode. */
  ghost predicate ReceiptsOk(mode: Mode, s: State) {
    && |s.receipts| == s.schedule.mutationEpoch
    && forall i :: 0 <= i < |s.receipts| ==> s.receipts[i] == Receipt(i + 1, mode.Immediate?)
  }

  ghost predicate ClientsOk(s: State) {
    forall c :: c in s.clients ==> ClientOk(s, s.clients[c])
  }

  ghost predicate Invariant(mode: Mode, s: State) {
    HistoryOk(s) && WritesOk(s) && WorkerOk(s) && ScheduledOk(mode, s) && ClientsOk(s) && ReceiptsOk(mode, s)
  }

  // ---------- Every step keeps the invariant ----------

  lemma HistoryKept(mode: Mode, s: State, step: Step)
    requires Invariant(mode, s) && Enabled(mode, s, step)
    ensures HistoryOk(Apply(mode, s, step))
  {
    hide WritesOk, WorkerOk, ScheduledOk, ClientsOk, ReceiptsOk;
  }

  lemma ReceiptsKept(mode: Mode, s: State, step: Step)
    requires Invariant(mode, s) && Enabled(mode, s, step)
    ensures ReceiptsOk(mode, Apply(mode, s, step))
  {
    hide HistoryOk, WritesOk, WorkerOk, ScheduledOk, ClientsOk;
  }

  /** What a step never undoes: the log, the recorded epochs, the receipts and the completed writes only
      grow. */
  lemma StepGrows(mode: Mode, s: State, step: Step)
    requires Invariant(mode, s) && Enabled(mode, s, step)
    ensures var t := Apply(mode, s, step);
            && s.log <= t.log && s.recordedAt <= t.recordedAt && s.receipts <= t.receipts
            && s.schedule.mutationEpoch <= t.schedule.mutationEpoch
            && s.schedule.persistedEpoch <= t.schedule.persistedEpoch
            && t.writes == (if step.WriteSucceeds? then s.writes + [Written(s.worker.epoch, s.worker.snapshot)]
                            else s.writes)
  {
    hide HistoryOk, WritesOk, ScheduledOk, ClientsOk, LastWrite, ReceiptsOk;
  }

  lemma CoversKept(s: State, t: State, epoch: nat, snapshot: seq<Mutation>)
    requires s.log <= t.log && s.recordedAt <= t.recordedAt && Covers(s, epoch, snapshot)
    ensures Covers(t, epoch, snapshot)
  {
    forall i | 0 <= i < epoch ensures t.recordedAt[i] <= |snapshot| {
      assert t.recordedAt[i] == s.recordedAt[i];
    }
  }

  lemma WritesKept(mode: Mode, s: State, step: Step)
    requires Invariant(mode, s) && Enabled(mode, s, step)
    ensures WritesOk(Apply(mode, s, step))
  {
    hide ScheduledOk, ClientsOk, HistoryOk, Apply, Covers, ReceiptsOk;
    StepGrows(mode, s, step);
    var t := Apply(mode, s, step);
    forall i | 0 <= i < |t.writes|
      ensures t.writes[i].epoch >= i + 1 && Covers(t, t.writes[i].epoch, t.writes[i].snapshot)
    {
      CoversKept(s, t, t.writes[i].epoch, t.writes[i].snapshot);
    }
  }

  lemma WorkerKeptByWorker(mode: Mode, s: State, step: Step)
    requires Invariant(mode, s) && Enabled(mode, s, step) && IsWorkerStep(step)
    ensures WorkerOk(Apply(mode, s, step))
  {
    hide ScheduledOk, ClientsOk, ReceiptsOk;
  }

  /** The other threads leave the worker's side alone, except for waking it. */
  lemma OthersLeaveWorker(mode: Mode, s: State, step: Step)
    requires Enabled(mode, s, step) && !IsWorkerStep(step)
    ensures var t := Apply(mode, s, step);
            && (t.worker == s.worker || (s.worker.Parked? && t.worker.Checking?)) && t.writes == s.writes
            && t.schedule.persistedEpoch == s.schedule.persistedEpoch && t.schedule.failure == s.schedule.failure
  {
  }

  lemma WorkerKeptByOthers(mode: Mode, s: State, step: Step)
    requires Invariant(mode, s) && Enabled(mode, s, step) && !IsWorkerStep(step)
    ensures WorkerOk(Apply(mode, s, step))
  {
    hide ScheduledOk, ClientsOk, ReceiptsOk, HistoryOk, WritesOk, Apply, Covers;
    OthersLeaveWorker(mode, s, step);
    StepGrows(mode, s, step);
    if s.worker.Writing? {
      CoversKept(s, Apply(mode, s, step), s.worker.epoch, s.worker.snapshot);
    }
  }

  lemma ScheduledKeptByWorker(mode: Mode, s: State, step: Step)
    requires Invariant(mode, s) && Enabled(mode, s, step) && IsWorkerStep(step)
    ensures ScheduledOk(mode, Apply(mode, s, step))
  {
    hide WritesOk, ClientsOk, ReceiptsOk;
  }

  lemma ScheduledKeptByOthers(mode: Mode, s: State, step: Step)
    requires Invariant(mode, s) && Enabled(mode, s, step) && !IsWorkerStep(step)
    ensures ScheduledOk(mode, Apply(mode, s, step))
  {
    hide WritesOk, ClientsOk, ReceiptsOk;
  }

  predicate IsWorkerStep(step: Step) {
    step.WorkerCheck? || step.WorkerWake? || step.Snapshot? || step.EncodeFails? || step.WriteSucceeds?
    || step.WriteFails? || step.RecordWrite? || step.ReportFailure?
  }

  predicate IsClientStep(step: Step) {
    step.Flush? || step.AwaitReceipt? || step.ClientCheck? || step.ClientWake?
  }

  lemma ClientsKeptByWorker(mode: Mode, s: State, step: Step)
    requires Invariant(mode, s) && Enabled(mode, s, step) && IsWorkerStep(step)
    ensures ClientsOk(Apply(mode, s, step))
  {
    hide HistoryOk, WritesOk, ReceiptsOk;
  }

  lemma ClientsKeptByClient(mode: Mode, s: State, step: Step)
    requires Invariant(mode, s) && Enabled(mode, s, step) && IsClientStep(step)
    ensures ClientsOk(Apply(mode, s, step))
  {
    hide HistoryOk, WritesOk;
  }

  lemma ClientsKeptByOthers(mode: Mode, s: State, step: Step)
    requires Invariant(mode, s) && Enabled(mode, s, step) && !IsWorkerStep(step) && !IsClientStep(step)
    ensures ClientsOk(Apply(mode, s, step))
  {
    hide HistoryOk, WritesOk, ReceiptsOk;
  }

  /** Every step of every thread keeps the invariant. */
  lemma StepKeepsInvariant(mode: Mode, s: State, step: Step)
    requires Invariant(mode, s) && Enabled(mode, s, step)
    ensures Invariant(mode, Apply(mode, s, step))
  {
    hide Apply, HistoryOk, WritesOk, WorkerOk, ScheduledOk, ClientsOk, ReceiptsOk;
    HistoryKept(mode, s, step);
    ReceiptsKept(mode, s, step);
    WritesKept(mode, s, step);
    if IsWorkerStep(step) {
      WorkerKeptByWorker(mode, s, step);
      ScheduledKeptByWorker(mode, s, step);
      ClientsKeptByWorker(mode, s, step);
    } else {
      WorkerKeptByOthers(mode, s, step);
      ScheduledKeptByOthers(mode, s, step);
      if IsClientStep(step) {
        ClientsKeptByClient(mode, s, step);
      } else {
        ClientsKeptByOthers(mode, s, step);
      }
    }
  }

  /** The invariant holds in every state of every run. */
  lemma {:induction false} RunKeepsInvariant(mode: Mode, s: State, steps: seq<Step>)
    requires Invariant(mode, s)
    ensures Invariant(mode, Run(mode, s, steps))
  {
    hide Apply, Enabled, Invariant;
    if steps != [] {
      var t := Run(mode, s, steps[..|steps| - 1]);
      var step := steps[|steps| - 1];
      RunKeepsInvariant(mode, s, steps[..|steps| - 1]);
      if Enabled(mode, t, step) {
        StepKeepsInvariant(mode, t, step);
      }
    }
  }

  ghost predicate Reachable(mode: Mode, s: State) {
    exists steps :: s == Run(mode, Start(), steps)
  }

  lemma ReachableInvariant(mode: Mode, s: State)
    requires Reachable(mode, s)
    ensures Invariant(mode, s)
  {
    var steps :| s == Run(mode, Start(), steps);
    RunKeepsInvariant(mode, Start(), steps);
  }

  // ---------- Durability ----------

  /** In every reachable state: persisted <= last completed write <= recorded, and there are no more
      writes than recorded mutations. */
  lemma EpochsOrdered(mode: Mode, s: State)
    requires Reachable(mode, s)
    ensures s.schedule.persistedEpoch <= LastWrite(s) <= s.schedule.mutationEpoch
    ensures |s.writes| <= s.schedule.mutationEpoch
  {
    ReachableInvariant(mode, s);
    if s.writes != [] {
      assert s.writes[|s.writes| - 1].epoch >= |s.writes|;
    }
  }

  /** Recording a write moves the persisted epoch strictly forward. */
  lemma RecordedWriteAdvances(mode: Mode, s: State)
    requires Reachable(mode, s) && s.worker.Recording?
    ensures Apply(mode, s, RecordWrite).schedule.persistedEpoch == LastWrite(s) > s.schedule.persistedEpoch
  {
    ReachableInvariant(mode, s);
  }

  /** A flush or immediate receipt that returned Ok has a completed write whose snapshot holds every
      mutation recorded up to its target epoch. */
  lemma OkMeansDurable(mode: Mode, s: State, c: nat)
    requires Reachable(mode, s) && c in s.clients && s.clients[c].Finished? && s.clients[c].ok
    requires s.clients[c].target >= 1
    ensures exists i :: 0 <= i < |s.writes| && s.writes[i].epoch >= s.clients[c].target
                     && Covers(s, s.clients[c].target, s.writes[i].snapshot)
  {
    ReachableInvariant(mode, s);
    var i := |s.writes| - 1;
    assert ClientOk(s, s.clients[c]);
    assert Covers(s, s.writes[i].epoch, s.writes[i].snapshot);
    assert Covers(s, s.clients[c].target, s.writes[i].snapshot);
  }

  /** Failure is sticky and final: once stored it stays, and no write happens again. */
  lemma {:induction false} FailureIsFinal(mode: Mode, s: State, steps: seq<Step>)
    requires Reachable(mode, s) && s.schedule.failure.Some?
    ensures var t := Run(mode, s, steps);
            t.schedule.failure == s.schedule.failure && t.writes == s.writes && t.worker == s.worker == Exited(true)
  {
    ReachableInvariant(mode, s);
    if steps != [] {
      FailureIsFinal(mode, s, steps[..|steps| - 1]);
      FailureStep(mode, Run(mode, s, steps[..|steps| - 1]), steps[|steps| - 1]);
    }
  }

  lemma FailureStep(mode: Mode, s: State, step: Step)
    requires s.schedule.failure.Some? && s.worker == Exited(true)
    ensures Enabled(mode, s, step) ==>
              var t := Apply(mode, s, step);
              t.schedule.failure == s.schedule.failure && t.writes == s.writes && t.worker == s.worker
  {
  }

  // ---------- Nothing is stranded ----------

  /** A parked worker has nothing to do, or (batched) wakes by a deadline that is no later than the
      first unwritten mutation plus the delay; it is never parked while stopping. */
  lemma ParkedStrandsNoMutation(mode: Mode, s: State)
    requires Reachable(mode, s) && s.worker.Parked?
    ensures !s.schedule.stopping
    ensures s.schedule.mutationEpoch == s.schedule.persistedEpoch
         || (&& mode.Batched? && s.schedule.deadline.Some? && s.worker.timeout == s.schedule.deadline
             && s.schedule.persistedEpoch < |s.recordTimes|
             && s.schedule.deadline.value <= s.recordTimes[s.schedule.persistedEpoch] + mode.delay)
  {
    ReachableInvariant(mode, s);
  }

  /** While the worker is parked, no flush or receipt is asleep: each has its epoch on disk and will
      say so at its next check. */
  lemma ParkedStrandsNoClient(mode: Mode, s: State, c: nat)
    requires Reachable(mode, s) && s.worker.Parked? && c in s.clients && s.clients[c].Waiting?
    ensures !s.clients[c].parked && s.clients[c].target <= s.schedule.persistedEpoch
  {
    ReachableInvariant(mode, s);
    assert ClientOk(s, s.clients[c]);
  }

  /** A client asleep means a worker that will still write, fail or exit. */
  lemma SleepingClientHasWorker(mode: Mode, s: State, c: nat)
    requires Reachable(mode, s) && c in s.clients && s.clients[c].Waiting? && s.clients[c].parked
    ensures s.worker != Exited(true) && !s.worker.Parked?
    ensures s.worker.Checking? ==> s.schedule.force && s.schedule.mutationEpoch > s.schedule.persistedEpoch
  {
    ReachableInvariant(mode, s);
    assert ClientOk(s, s.clients[c]);
  }

  /** The re-arm branch after a write changes nothing: in batched mode a deadline is already set,
      in immediate mode the write is already forced. */
  lemma RearmNeverNeeded(mode: Mode, s: State)
    requires Reachable(mode, s) && s.worker.Recording?
    ensures WriteRecorded(mode, s.schedule, s.worker.written, s.now)
         == s.schedule.(persistedEpoch := s.worker.written,
                        deadline := if s.schedule.mutationEpoch == s.worker.written then None else s.schedule.deadline)
  {
    ReachableInvariant(mode, s);
  }

  // ---------- Shutdown ----------

  /** A clean exit happens only with everything recorded so far on disk. */
  lemma CleanExitIsDurable(mode: Mode, s: State)
    requires Reachable(mode, s) && s.worker.Checking? && Apply(mode, s, WorkerCheck).worker == Exited(false)
    ensures s.schedule.stopping && s.schedule.persistedEpoch == s.schedule.mutationEpoch == LastWrite(s)
    ensures s.schedule.mutationEpoch > 0 ==>
              s.writes != [] && Covers(s, s.schedule.mutationEpoch, s.writes[|s.writes| - 1].snapshot)
  {
    ReachableInvariant(mode, s);
  }

  /** How many more writes can start or finish without a new mutation. */
  function WritesLeft(s: State): nat {
    match s.worker
    case Checking => if s.schedule.mutationEpoch > s.schedule.persistedEpoch then 1 else 0
    case Parked(_) => if s.schedule.mutationEpoch > s.schedule.persistedEpoch then 1 else 0
    case Due(_) => 1
    case Writing(e, _) => if s.schedule.mutationEpoch > e then 2 else 1
    case Recording(e) => if s.schedule.mutationEpoch > e then 1 else 0
    case _ => 0
  }

  lemma WritesLeftStep(mode: Mode, s: State, step: Step)
    requires Invariant(mode, s) && Enabled(mode, s, step) && !step.Mutate?
    ensures var t := Apply(mode, s, step); |t.writes| + WritesLeft(t) <= |s.writes| + WritesLeft(s)
  {
    hide HistoryOk, WritesOk, ScheduledOk, ClientsOk, ReceiptsOk;
  }

  /** With no new mutation, at most two more writes complete, whatever else happens. */
  lemma {:induction false} AtMostTwoMoreWrites(mode: Mode, s: State, steps: seq<Step>)
    requires Reachable(mode, s) && forall i :: 0 <= i < |steps| ==> !steps[i].Mutate?
    ensures var t := Run(mode, s, steps);
            |t.writes| + WritesLeft(t) <= |s.writes| + WritesLeft(s) <= |s.writes| + 2
  {
    hide Apply, Enabled;
    if steps != [] {
      var prefix := steps[..|steps| - 1];
      var t := Run(mode, s, prefix);
      AtMostTwoMoreWrites(mode, s, prefix);
      ReachableInvariant(mode, s);
      RunKeepsInvariant(mode, s, prefix);
      if Enabled(mode, t, steps[|steps| - 1]) {
        WritesLeftStep(mode, t, steps[|steps| - 1]);
      }
    }
  }

  /** How many worker steps remain once stopping is set and no new mutation arrives. */
  function StepsLeft(s: State): nat {
    match s.worker
    case Exited(_) => 0
    case Failing(_) => 1
    case Parked(_) => 8
    case Checking => if s.schedule.mutationEpoch == s.schedule.persistedEpoch then 1 else 5
    case Recording(e) => if s.schedule.mutationEpoch == e then 2 else 6
    case Writing(e, _) => if s.schedule.mutationEpoch == e then 3 else 7
    case Due(_) => 4
  }

  lemma StepsLeftStep(mode: Mode, s: State, step: Step)
    requires Invariant(mode, s) && Enabled(mode, s, step) && !step.Mutate? && s.schedule.stopping
    ensures var t := Apply(mode, s, step);
            && t.schedule.stopping
            && StepsLeft(t) + (if IsWorkerStep(step) then 1 else 0) <= StepsLeft(s)
  {
    hide HistoryOk, WritesOk, ClientsOk, ReceiptsOk;
  }

  function WorkerSteps(mode: Mode, s: State, steps: seq<Step>): nat {
    if steps == [] then 0
    else
      var prefix, step := steps[..|steps| - 1], steps[|steps| - 1];
      WorkerSteps(mode, s, prefix)
      + if IsWorkerStep(step) && Enabled(mode, Run(mode, s, prefix), step) then 1 else 0
  }

  /** After a stop request the worker takes at most seven more steps without new mutations, and until
      it has exited it always has one to take. */
  lemma {:induction false} ShutdownTerminates(mode: Mode, s: State, steps: seq<Step>)
    requires Reachable(mode, s) && s.schedule.stopping && forall i :: 0 <= i < |steps| ==> !steps[i].Mutate?
    ensures StepsLeft(s) <= 7
    ensures var t := Run(mode, s, steps);
            t.schedule.stopping && WorkerSteps(mode, s, steps) + StepsLeft(t) <= StepsLeft(s)
  {
    hide Apply, Enabled;
    ReachableInvariant(mode, s);
    if steps != [] {
      var prefix := steps[..|steps| - 1];
      var t := Run(mode, s, prefix);
      ShutdownTerminates(mode, s, prefix);
      RunKeepsInvariant(mode, s, prefix);
      if Enabled(mode, t, steps[|steps| - 1]) {
        StepsLeftStep(mode, t, steps[|steps| - 1]);
      }
    }
  }

  /** Until it has exited the worker has a step to take. With a stop requested or a client unserved it
      is not asleep at all: the step is not a wake-up, so it needs neither a notification nor a timer. */
  lemma WorkerCanMove(mode: Mode, s: State)
    requires !s.worker.Exited?
    ensures exists step :: IsWorkerStep(step) && Enabled(mode, s, step)
    ensures Reachable(mode, s) && (s.schedule.stopping || HasUnservedClient(s)) ==>
              !s.worker.Parked? && exists step :: IsWorkerStep(step) && !step.WorkerWake? && Enabled(mode, s, step)
  {
    hide Reachable;
    if Reachable(mode, s) && (s.schedule.stopping || HasUnservedClient(s)) {
      NotAsleep(mode, s);
    }
    var step := match s.worker
      case Checking => WorkerCheck
      case Parked(_) => WorkerWake
      case Due(_) => Snapshot
      case Writing(_, _) => WriteSucceeds
      case Recording(_) => RecordWrite
      case Failing(_) => ReportFailure
      case Exited(_) => WorkerCheck;
    assert IsWorkerStep(step) && Enabled(mode, s, step) && (step.WorkerWake? ==> s.worker.Parked?);
  }

  ghost predicate HasUnservedClient(s: State) {
    exists c :: c in s.clients && s.clients[c].Waiting? && s.clients[c].target > s.schedule.persistedEpoch
  }

  lemma NotAsleep(mode: Mode, s: State)
    requires Reachable(mode, s) && (s.schedule.stopping || HasUnservedClient(s))
    ensures !s.worker.Parked?
  {
    hide Reachable, HistoryOk, WritesOk, WorkerOk, ReceiptsOk;
    ReachableInvariant(mode, s);
    if HasUnservedClient(s) {
      var c :| c in s.clients && s.clients[c].Waiting? && s.clients[c].target > s.schedule.persistedEpoch;
      assert ClientOk(s, s.clients[c]);
    }
  }

  // ---------- No starvation ----------

  /** How many worker steps a client with this target can still have to wait. */
  function ClientRank(s: State, target: nat): nat {
    match s.worker
    case Exited(_) => 0
    case Failing(_) => 1
    case Recording(e) => if target <= e then 1 else 5
    case Writing(e, _) => if target <= e then 2 else 6
    case Due(_) => 3
    case Checking => 4
    case Parked(_) => 5
  }

  predicate Unserved(s: State, target: nat) { s.schedule.persistedEpoch < target && s.schedule.failure.None? }

  /** A client waits on a worker that has not exited. */
  predicate Awaits(s: State, c: nat, target: nat) {
    c in s.clients && s.clients[c].Waiting? && s.clients[c].target == target && !s.worker.Exited?
  }

  lemma RankFalls(mode: Mode, s: State, step: Step, c: nat, target: nat)
    requires Invariant(mode, s) && Enabled(mode, s, step) && Awaits(s, c, target) && IsWorkerStep(step)
    ensures var t := Apply(mode, s, step);
            Unserved(t, target) ==> Awaits(t, c, target) && ClientRank(t, target) < ClientRank(s, target)
  {
    hide HistoryOk, WritesOk, ScheduledOk, ReceiptsOk;
    assert ClientOk(s, s.clients[c]);
  }

  lemma RankStays(mode: Mode, s: State, step: Step, c: nat, target: nat)
    requires Invariant(mode, s) && Enabled(mode, s, step) && Awaits(s, c, target) && !IsWorkerStep(step)
    ensures var t := Apply(mode, s, step);
            Unserved(t, target) ==> Awaits(t, c, target) && ClientRank(t, target) <= ClientRank(s, target)
  {
    hide HistoryOk, WritesOk, ScheduledOk, ClientsOk, ReceiptsOk;
  }

  /** As long as a client is unserved it still waits on a live worker, whose steps use up the rank. */
  lemma {:induction false} ClientRankRun(mode: Mode, s: State, steps: seq<Step>, c: nat, target: nat)
    requires Reachable(mode, s) && Awaits(s, c, target)
    ensures var t := Run(mode, s, steps);
            Unserved(t, target) ==>
              Awaits(t, c, target) && WorkerSteps(mode, s, steps) + ClientRank(t, target) <= ClientRank(s, target)
  {
    hide Apply, Enabled, Awaits, ClientRank, Unserved, Invariant;
    if steps != [] {
      var prefix, step := steps[..|steps| - 1], steps[|steps| - 1];
      var t := Run(mode, s, prefix);
      ClientRankRun(mode, s, prefix, c, target);
      ReachableInvariant(mode, s);
      RunKeepsInvariant(mode, s, prefix);
      if Enabled(mode, t, step) {
        UnservedBefore(mode, t, step, target);
        if Unserved(t, target) {
          if IsWorkerStep(step) {
            RankFalls(mode, t, step, c, target);
          } else {
            RankStays(mode, t, step, c, target);
          }
        }
      }
    }
  }

  lemma UnservedBefore(mode: Mode, s: State, step: Step, target: nat)
    requires Invariant(mode, s) && Enabled(mode, s, step)
    ensures Unserved(Apply(mode, s, step), target) ==> Unserved(s, target)
  {
    hide HistoryOk, WritesOk, ScheduledOk, ClientsOk, ReceiptsOk;
  }

  /** In any run, new mutations included, six worker steps or an exit of the worker, whichever comes
      first, serve every client that waits on a live worker: its epoch is on disk or the failure is
      stored, so its next check finishes it. */
  lemma NoClientStarves(mode: Mode, s: State, steps: seq<Step>, c: nat)
    requires Reachable(mode, s) && c in s.clients && s.clients[c].Waiting? && !s.worker.Exited?
    requires WorkerSteps(mode, s, steps) >= 6 || Run(mode, s, steps).worker.Exited?
    ensures var t, target := Run(mode, s, steps), s.clients[c].target;
            (target <= t.schedule.persistedEpoch || t.schedule.failure.Some?) && EpochAwaited(t.schedule, target).Some?
  {
    hide Run, WorkerSteps;
    ClientRankRun(mode, s, steps, c, s.clients[c].target);
  }

  /** Epochs were recorded in the order of time. */
  ghost predicate TimesOrdered(s: State) {
    forall i, j :: 0 <= i <= j < |s.recordTimes| ==> s.recordTimes[i] <= s.recordTimes[j]
  }

  lemma OrderedKept(mode: Mode, s: State, step: Step)
    requires Invariant(mode, s) && Enabled(mode, s, step) && TimesOrdered(s)
    ensures TimesOrdered(Apply(mode, s, step))
  {
    hide WritesOk, WorkerOk, ScheduledOk, ClientsOk, ReceiptsOk;
  }

  lemma {:induction false} RunKeepsOrder(mode: Mode, s: State, steps: seq<Step>)
    requires Invariant(mode, s) && TimesOrdered(s)
    ensures TimesOrdered(Run(mode, s, steps))
  {
    hide Apply, Enabled, Invariant, TimesOrdered;
    if steps != [] {
      var prefix, step := steps[..|steps| - 1], steps[|steps| - 1];
      RunKeepsOrder(mode, s, prefix);
      RunKeepsInvariant(mode, s, prefix);
      if Enabled(mode, Run(mode, s, prefix), step) {
        OrderedKept(mode, Run(mode, s, prefix), step);
      }
    }
  }

  lemma ReachableOrdered(mode: Mode, s: State)
    requires Reachable(mode, s)
    ensures TimesOrdered(s)
  {
    var steps :| s == Run(mode, Start(), steps);
    RunKeepsOrder(mode, Start(), steps);
  }

  /** The epoch is recorded, in batched mode at least the delay ago, and the worker is live. */
  predicate Ripe(mode: Mode, s: State, epoch: nat) {
    && 1 <= epoch <= |s.recordTimes| && !s.worker.Exited?
    && (mode.Batched? ==> s.recordTimes[epoch - 1] + mode.delay <= s.now)
  }

  lemma RipeRankFalls(mode: Mode, s: State, step: Step, epoch: nat)
    requires Invariant(mode, s) && TimesOrdered(s) && Enabled(mode, s, step) && IsWorkerStep(step)
    requires Ripe(mode, s, epoch)
    ensures var t := Apply(mode, s, step);
            Unserved(t, epoch) ==> Ripe(mode, t, epoch) && ClientRank(t, epoch) < ClientRank(s, epoch)
  {
    hide WritesOk, ClientsOk, ReceiptsOk;
    if Unserved(s, epoch) {
      assert s.recordTimes[s.schedule.persistedEpoch] <= s.recordTimes[epoch - 1];
    }
  }

  lemma RipeRankStays(mode: Mode, s: State, step: Step, epoch: nat)
    requires Invariant(mode, s) && Enabled(mode, s, step) && !IsWorkerStep(step) && Ripe(mode, s, epoch)
    ensures var t := Apply(mode, s, step);
            Unserved(t, epoch) ==> Ripe(mode, t, epoch) && ClientRank(t, epoch) <= ClientRank(s, epoch)
  {
    hide HistoryOk, WritesOk, ScheduledOk, ClientsOk, ReceiptsOk;
  }

  lemma {:induction false} RipeRankRun(mode: Mode, s: State, steps: seq<Step>, epoch: nat)
    requires Reachable(mode, s) && Ripe(mode, s, epoch)
    ensures var t := Run(mode, s, steps);
            Unserved(t, epoch) ==>
              Ripe(mode, t, epoch) && WorkerSteps(mode, s, steps) + ClientRank(t, epoch) <= ClientRank(s, epoch)
  {
    hide Apply, Enabled, Ripe, ClientRank, Unserved, Invariant, TimesOrdered;
    if steps != [] {
      var prefix, step := steps[..|steps| - 1], steps[|steps| - 1];
      var t := Run(mode, s, prefix);
      RipeRankRun(mode, s, prefix, epoch);
      ReachableInvariant(mode, s);
      ReachableOrdered(mode, s);
      RunKeepsInvariant(mode, s, prefix);
      RunKeepsOrder(mode, s, prefix);
      if Enabled(mode, t, step) {
        UnservedBefore(mode, t, step, epoch);
        if Unserved(t, epoch) {
          if IsWorkerStep(step) {
            RipeRankFalls(mode, t, step, epoch);
          } else {
            RipeRankStays(mode, t, step, epoch);
          }
        }
      }
    }
  }

  /** No recorded mutation starves, waited for or not: once the delay after it has passed (at once in
      immediate mode), six worker steps or an exit of the worker, in any run, leave it on disk or a
      failure stored. */
  lemma NoMutationStarves(mode: Mode, s: State, steps: seq<Step>, epoch: nat)
    requires Reachable(mode, s) && !s.worker.Exited? && 1 <= epoch <= |s.recordTimes|
    requires mode.Batched? ==> s.recordTimes[epoch - 1] + mode.delay <= s.now
    requires WorkerSteps(mode, s, steps) >= 6 || Run(mode, s, steps).worker.Exited?
    ensures var t := Run(mode, s, steps); epoch <= t.schedule.persistedEpoch || t.schedule.failure.Some?
  {
    hide Run, WorkerSteps;
    RipeRankRun(mode, s, steps, epoch);
  }

  // ---------- After a clean exit ----------

  /** `record_mutation` does not consult `stopping`: after a clean exit a waiting client whose target
      is not on disk never finishes, in any continuation. */
  lemma {:induction false} StrandedForEver(mode: Mode, s: State, c: nat, steps: seq<Step>)
    requires s.worker == Exited(false) && s.schedule.failure.None?
    requires c in s.clients && s.clients[c].Waiting? && s.clients[c].target > s.schedule.persistedEpoch
    ensures var t := Run(mode, s, steps);
            && t.worker == s.worker && t.schedule.failure.None?
            && t.schedule.persistedEpoch == s.schedule.persistedEpoch
            && c in t.clients && t.clients[c].Waiting? && t.clients[c].target == s.clients[c].target
  {
    if steps != [] {
      StrandedForEver(mode, s, c, steps[..|steps| - 1]);
      StrandedStep(mode, Run(mode, s, steps[..|steps| - 1]), c, steps[|steps| - 1]);
    }
  }

  lemma StrandedStep(mode: Mode, s: State, c: nat, step: Step)
    requires s.worker == Exited(false) && s.schedule.failure.None?
    requires c in s.clients && s.clients[c].Waiting? && s.clients[c].target > s.schedule.persistedEpoch
    ensures Enabled(mode, s, step) ==>
              var t := Apply(mode, s, step);
              && t.worker == s.worker && t.schedule.failure.None?
              && t.schedule.persistedEpoch == s.schedule.persistedEpoch
              && c in t.clients && t.clients[c].Waiting? && t.clients[c].target == s.clients[c].target
  {
  }

  /** From any clean exit, one more mutation and a flush end in that position. */
  lemma MutateThenFlushStrands(mode: Mode, s: State, m: Mutation, c: nat)
    requires s.worker == Exited(false) && s.schedule.failure.None? && c !in s.clients
    requires s.schedule.persistedEpoch <= s.schedule.mutationEpoch < MAX_EPOCH
    ensures var t := Apply(mode, s, Mutate(m));
            && Enabled(mode, t, Flush(c))
            && var u := Apply(mode, t, Flush(c));
            && u.worker == Exited(false) && u.schedule.failure.None?
            && u.clients[c] == Waiting(s.schedule.mutationEpoch + 1, false)
            && u.schedule.persistedEpoch == s.schedule.persistedEpoch < u.clients[c].target
  {
  }

  /** Such a state is reached by stopping an idle scheduler. */
  lemma CleanExitReachable(mode: Mode)
    ensures var s := Run(mode, Start(), [RequestStop, WorkerCheck]);
            && s.worker == Exited(false) && s.schedule.failure.None? && s.clients == map[]
            && s.schedule.persistedEpoch == s.schedule.mutationEpoch == 0
  {
    hide Run;
    RunNothing(mode, Start());
    RunOneMore(mode, Start(), [], RequestStop);
    assert [] + [RequestStop] == [RequestStop];
    RunOneMore(mode, Start(), [RequestStop], WorkerCheck);
    assert [RequestStop] + [WorkerCheck] == [RequestStop, WorkerCheck];
  }

  lemma RunNothing(mode: Mode, s: State)
    ensures Run(mode, s, []) == s
  {
  }

  lemma RunOneMore(mode: Mode, s: State, steps: seq<Step>, step: Step)
    ensures var t := Run(mode, s, steps);
            Run(mode, s, steps + [step]) == if Enabled(mode, t, step) then Apply(mode, t, step) else t
  {
    hide Apply, Enabled;
    assert (steps + [step])[..|steps|] == steps;
  }

  /** Exactly when a flush after a clean exit returns at once: nothing was recorded since. */
  lemma FlushAfterExit(mode: Mode, s: State, c: nat)
    requires Reachable(mode, s) && s.worker == Exited(false) && c !in s.clients
    ensures Apply(mode, s, Flush(c)).clients[c].Finished? <==> s.schedule.mutationEpoch == s.schedule.persistedEpoch
  {
    ReachableInvariant(mode, s);
  }
}
