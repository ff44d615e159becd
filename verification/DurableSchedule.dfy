/** The durable-mutation schedule: the record kept under the scheduling mutex and the critical
    sections that change it. */
module DurableSchedule {
  import opened Bytes

  type Time = nat

  const MAX_EPOCH := 0xFFFF_FFFF_FFFF_FFFF

  datatype Mode = Batched(delay: nat) | Immediate

  datatype Error = StoredError(kind: nat, message: string) | EpochExhausted

  datatype Schedule = Schedule(
    mutationEpoch: nat,
    persistedEpoch: nat,
    deadline: Option<Time>,
    force: bool,
    stopping: bool,
    failure: Option<Error>)

  datatype Receipt = Receipt(mutationEpoch: nat, waitForPersistence: bool)

  datatype FlushEntry = Return(result: Result<(), Error>) | Await(target: nat)

  /** What one pass of the worker's due check decides. */
  datatype Decision = Fail(error: Error) | Stop | Write | Park(timeout: Option<Time>)

  function InitialSchedule(): Schedule {
    Schedule(0, 0, None, false, false, None)
  }

  // ---------- The critical sections on values ----------

  /** A recorded mutation: the next epoch, with a write forced or a deadline armed if none is. */
  function Recorded(mode: Mode, s: Schedule, now: Time): (Schedule, Result<Receipt, Error>) {
    if s.failure.Some? then (s, Err(s.failure.value))
    else if s.mutationEpoch >= MAX_EPOCH then (s, Err(EpochExhausted))
    else
      var epoch := s.mutationEpoch + 1;
      match mode
      case Batched(delay) =>
        var deadline := if s.deadline.None? then Some(now + delay) else s.deadline;
        (s.(mutationEpoch := epoch, deadline := deadline), Ok(Receipt(epoch, false)))
      case Immediate => (s.(mutationEpoch := epoch, force := true), Ok(Receipt(epoch, true)))
  }

  function FlushEntered(s: Schedule): (Schedule, FlushEntry) {
    if s.failure.Some? then (s, Return(Err(s.failure.value)))
    else if s.persistedEpoch >= s.mutationEpoch then (s, Return(Ok(())))
    else (s.(force := true), Await(s.mutationEpoch))
  }

  /** Waiting on a receipt: for its epoch if it is flagged, otherwise a look at the failure. */
  function ReceiptEntered(s: Schedule, receipt: Receipt): FlushEntry {
    if receipt.waitForPersistence then Await(receipt.mutationEpoch)
    else Return(if s.failure.Some? then Err(s.failure.value) else Ok(()))
  }

  function StopRequested(s: Schedule): Schedule { s.(stopping := true, force := true) }

  function DueChecked(s: Schedule, now: Time): (Schedule, Decision) {
    if s.failure.Some? then (s, Fail(s.failure.value))
    else if s.mutationEpoch == s.persistedEpoch then
      if s.stopping then (s, Stop) else (s.(force := false, deadline := None), Park(None))
    else if s.force || s.stopping || (s.deadline.Some? && s.deadline.value <= now) then
      (s.(force := false, deadline := None), Write)
    else (s, Park(s.deadline))
  }

  function WriteRecorded(mode: Mode, s: Schedule, snapshotEpoch: nat, now: Time): Schedule {
    var t := s.(persistedEpoch := snapshotEpoch);
    if s.mutationEpoch == snapshotEpoch then t.(deadline := None)
    else if s.deadline.None? then
      match mode
      case Batched(delay) => t.(deadline := Some(now + delay))
      case Immediate => t.(deadline := None, force := true)
    else t
  }

  /** One pass of a waiter: finished with a result, or None to keep waiting. */
  function EpochAwaited(s: Schedule, target: nat): Option<Result<(), Error>> {
    if s.persistedEpoch >= target then Some(Ok(()))
    else if s.failure.Some? then Some(Err(s.failure.value))
    else None
  }

  // ---------- The shared object ----------

  /** The fields behind the scheduling mutex; each method is one critical section. */
  class Scheduling {
    const mode: Mode
    var mutationEpoch: nat
    var persistedEpoch: nat
    var deadline: Option<Time>
    var force: bool
    var stopping: bool
    var failure: Option<Error>

    function View(): Schedule
      reads this
    {
      Schedule(mutationEpoch, persistedEpoch, deadline, force, stopping, failure)
    }

    constructor (mode: Mode)
      ensures this.mode == mode && View() == InitialSchedule()
      ensures mutationEpoch == 0 == persistedEpoch && deadline.None? && !force && !stopping && failure.None?
    {
      this.mode := mode;
      mutationEpoch, persistedEpoch := 0, 0;
      deadline, force, stopping, failure := None, false, false, None;
    }

    method RecordMutation(now: Time) returns (result: Result<Receipt, Error>)
      modifies this
      ensures (View(), result) == Recorded(mode, old(View()), now)
      ensures result.Ok? <==> old(failure).None? && old(mutationEpoch) < 0xFFFF_FFFF_FFFF_FFFF
      ensures result.Err? ==> View() == old(View())
      ensures result.Ok? ==>
                && mutationEpoch == old(mutationEpoch) + 1 && result.value.mutationEpoch == mutationEpoch
                && result.value.waitForPersistence == mode.Immediate? && force == (old(force) || mode.Immediate?)
                && deadline == (if mode.Batched? && old(deadline).None? then Some(now + mode.delay) else old(deadline))
                && persistedEpoch == old(persistedEpoch) && stopping == old(stopping) && failure == old(failure)
    {
      if failure.Some? {
        return Err(failure.value);
      }
      if mutationEpoch >= MAX_EPOCH {
        return Err(EpochExhausted);
      }
      mutationEpoch := mutationEpoch + 1;
      var wait := mode == Immediate;
      match mode {
        case Batched(delay) =>
          if deadline.None? {
            deadline := Some(now + delay);
          }
        case Immediate => force := true;
      }
      return Ok(Receipt(mutationEpoch, wait));
    }

    method BeginFlush() returns (entry: FlushEntry)
      modifies this
      ensures (View(), entry) == FlushEntered(old(View()))
      ensures entry.Await? <==> failure.None? && persistedEpoch < mutationEpoch
      ensures entry.Await? ==> entry.target == mutationEpoch && force
      ensures entry.Return? ==> force == old(force) && entry.result.Ok? == failure.None?
      ensures View().(force := old(force)) == old(View())
    {
      if failure.Some? {
        return Return(Err(failure.value));
      }
      var target := mutationEpoch;
      if persistedEpoch >= target {
        return Return(Ok(()));
      }
      force := true;
      return Await(target);
    }

    method RequestStop()
      modifies this
      ensures View() == StopRequested(old(View()))
      ensures View() == old(View()).(stopping := true, force := true)
    {
      stopping := true;
      force := true;
    }

    method CheckDue(now: Time) returns (decision: Decision)
      modifies this
      ensures (View(), decision) == DueChecked(old(View()), now)
      ensures decision.Fail? <==> failure.Some?
      ensures decision.Stop? <==> failure.None? && mutationEpoch == persistedEpoch && stopping
      ensures decision.Write? <==>
              failure.None? && mutationEpoch != persistedEpoch &&
              (old(force) || stopping || (old(deadline).Some? && old(deadline).value <= now))
      ensures decision.Park? ==> decision.timeout == deadline && (mutationEpoch == persistedEpoch ==> deadline.None?)
      ensures View().(force := old(force), deadline := old(deadline)) == old(View())
      ensures decision.Write? || (decision.Park? && mutationEpoch == persistedEpoch) ==> !force && deadline.None?
      ensures decision.Park? && mutationEpoch != persistedEpoch ==> View() == old(View())
    {
      if failure.Some? {
        return Fail(failure.value);
      }
      if mutationEpoch == persistedEpoch {
        if stopping {
          return Stop;
        }
        force := false;
        deadline := None;
      } else if force || stopping || (deadline.Some? && deadline.value <= now) {
        force := false;
        deadline := None;
        return Write;
      }
      return Park(deadline);
    }

    method RecordWrite(snapshotEpoch: nat, now: Time)
      modifies this
      ensures View() == WriteRecorded(mode, old(View()), snapshotEpoch, now)
      ensures persistedEpoch == snapshotEpoch
      ensures mutationEpoch == snapshotEpoch ==> deadline.None? && force == old(force)
      ensures mutationEpoch != snapshotEpoch && old(deadline).Some? ==> deadline == old(deadline) && force == old(force)
      ensures mutationEpoch != snapshotEpoch && old(deadline).None? && mode.Batched? ==>
                deadline == Some(now + mode.delay) && force == old(force)
      ensures mutationEpoch != snapshotEpoch && old(deadline).None? && mode.Immediate? ==> deadline.None? && force
    {
      persistedEpoch := snapshotEpoch;
      if mutationEpoch == snapshotEpoch {
        deadline := None;
      } else if deadline.None? {
        deadline := match mode case Batched(delay) => Some(now + delay) case Immediate => None;
        if mode == Immediate {
          force := true;
        }
      }
    }

    method StoreFailure(error: Error)
      modifies this
      ensures View() == old(View()).(failure := Some(error))
    {
      failure := Some(error);
    }

    /** The start of waiting on a receipt. */
    method BeginWait(receipt: Receipt) returns (entry: FlushEntry)
      ensures entry == ReceiptEntered(View(), receipt)
      ensures entry.Await? <==> receipt.waitForPersistence
      ensures entry.Await? ==> entry.target == receipt.mutationEpoch
      ensures entry.Return? ==> entry.result.Ok? == failure.None?
    {
      if receipt.waitForPersistence {
        return Await(receipt.mutationEpoch);
      }
      if failure.Some? {
        return Return(Err(failure.value));
      }
      return Return(Ok(()));
    }

    method AwaitEpoch(target: nat) returns (result: Option<Result<(), Error>>)
      ensures result == EpochAwaited(View(), target)
      ensures result.None? <==> persistedEpoch < target && failure.None?
      ensures result.Some? ==> (result.value.Ok? <==> persistedEpoch >= target)
    {
      if persistedEpoch >= target {
        return Some(Ok(()));
      }
      if failure.Some? {
        return Some(Err(failure.value));
      }
      return None;
    }
  }
}
