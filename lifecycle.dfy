/** The registry side of a job's life in the scheduler
    (dll/Jhu.Graywulf.Scheduler/Scheduler/QueueManager.cs): the execution
    state flags of a job instance record, the transitions the scheduler writes
    to them on intake, on completion events and on crash recovery, and the
    message it stores for a failed job. */
module Lifecycle {
  import opened Wrappers
  import BK = Bookkeeping

  /** `JobExecutionState`, a flags enumeration; a status is a set of flags. */
  datatype Flag =
    | Scheduled | Starting | Executing | Persisting | Persisted | Cancelling
    | CancelRequested | Completed | Cancelled | TimedOut | Failed
    | OtherState(bit: nat)

  /** The fields of a registry job instance record the scheduler touches. */
  datatype JobRecord = JobRecord(
    status: set<Flag>,
    queue: BK.QueueGuid,
    owner: BK.UserGuid,
    timeout: int,
    workflowType: string,
    exceptionMessage: Option<string>,
    dateStarted: Option<int>,
    dateFinished: Option<int>)

  /** Registry calls other than saving a record. */
  datatype RegistryCall =
    | ObtainLock(job: BK.JobGuid)
    | ReleaseLock(job: BK.JobGuid, force: bool)
    | RescheduleIfRecurring(job: BK.JobGuid)

  /** `status ^= f`. */
  function Toggle(status: set<Flag>, f: Flag): (r: set<Flag>)
    ensures f in r <==> f !in status
    ensures forall x :: x != f ==> (x in r <==> x in status)
  {
    if f in status then status - {f} else status + {f}
  }

  datatype IntakeError = NotImplemented

  /** The intake transition of `PollNewJobs`: the in-memory status of the new
      job and the record's new flags. */
  function Intake(status: set<Flag>): (r: Result<(BK.JobStatus, set<Flag>), IntakeError>)
    ensures r.Ok? <==> Scheduled in status || Persisted in status
    ensures Scheduled in status ==> r == Ok((BK.JobStatus.Starting, {Starting}))
    ensures Scheduled !in status && Persisted in status ==> r.Ok? && r.value.0 == BK.Resuming
    ensures r.Err? ==> r == Err(NotImplemented)
  {
    if Scheduled in status then
      Ok((BK.JobStatus.Starting, {Starting}))
    else if Persisted in status then
      Ok((BK.Resuming, Toggle(status, Persisted) + {Starting}))
    else
      Err(NotImplemented)
  }

  /** Resuming a persisted job clears only Persisted and sets Starting; every
      other flag, such as a pending cancel request, survives. */
  lemma ResumeKeepsOtherFlags(status: set<Flag>)
    requires Scheduled !in status && Persisted in status
    ensures Intake(status).Ok?
    ensures Intake(status).value.1 == status - {Persisted} + {Starting}
    ensures forall f :: f != Persisted && f != Starting ==> (f in Intake(status).value.1 <==> f in status)
  {
    var flags := Intake(status).value.1;
    assert flags == Toggle(status, Persisted) + {Starting};
    forall f ensures f in flags <==> f in status - {Persisted} + {Starting} { }
  }

  /** Whatever intake accepts leaves the record Starting and neither
      Scheduled nor Persisted, so a second intake of the same record fails. */
  lemma IntakeMarksStarting(status: set<Flag>)
    requires Intake(status).Ok?
    ensures Starting in Intake(status).value.1
    ensures Scheduled !in Intake(status).value.1 && Persisted !in Intake(status).value.1
    ensures Intake(Intake(status).value.1).Err?
  {
  }

  /** `WorkflowEventType`. */
  datatype EventKind = CompletedEvent | CancelledEvent | TimedOutEvent | PersistedEvent | FailedEvent

  /** The registry status `ProcessFinishedJob` writes for an event kind. */
  function FinalFlag(kind: EventKind): (f: Flag)
    ensures f in {Completed, Cancelled, TimedOut, Persisted, Failed}
    ensures f == Failed <==> kind == FailedEvent
  {
    match kind
    case CompletedEvent => Completed
    case CancelledEvent => Cancelled
    case TimedOutEvent => TimedOut
    case PersistedEvent => Persisted
    case FailedEvent => Failed
  }

  /** Different event kinds end in different statuses. */
  lemma FinalFlagOneToOne(a: EventKind, b: EventKind)
    ensures FinalFlag(a) == FinalFlag(b) <==> a == b
  {
  }

  /** A .NET exception: its message, whether it is an `AggregateException`,
      and its `InnerException`. */
  datatype Exception = Exception(message: string, isAggregate: bool, inner: Option<Exception>)

  /** `GetExceptionMessage`; `None` stands for the NullReferenceException raised
      when the exception, or the inner exception of an aggregate, is null.
      Only one level of aggregation is unwrapped. */
  function ExceptionMessage(ex: Option<Exception>): (r: Option<string>)
    ensures r.None? <==> ex.None? || (ex.value.isAggregate && ex.value.inner.None?)
    ensures ex.Some? && !ex.value.isAggregate ==> r == Some(ex.value.message)
    ensures ex.Some? && ex.value.isAggregate && ex.value.inner.Some? ==> r == Some(ex.value.inner.value.message)
  {
    match ex
    case None => None
    case Some(e) =>
      if e.isAggregate then
        (match e.inner
         case None => None
         case Some(i) => Some(i.message))
      else Some(e.message)
  }

  /** An aggregate wrapping an aggregate yields the middle exception's message,
      not the innermost one. */
  lemma OneLevelOfAggregation(m1: string, m2: string, m3: string)
    ensures var innermost := Exception(m3, false, None);
            var middle := Exception(m2, true, Some(innermost));
            ExceptionMessage(Some(Exception(m1, true, Some(middle)))) == Some(m2)
  {
  }

  /** The registry record `ProcessFinishedJob` saves for an event, or `None`
      when building it throws (the message of a null exception). */
  function FinishedRecord(rec: JobRecord, kind: EventKind, ex: Option<Exception>, now: int): (r: Option<JobRecord>)
    ensures r.None? <==> kind == FailedEvent && ExceptionMessage(ex).None?
    ensures r.Some? ==> r.value.status == {FinalFlag(kind)} && r.value.dateFinished == Some(now)
    ensures r.Some? ==> r.value.queue == rec.queue && r.value.dateStarted == rec.dateStarted
    ensures r.Some? && kind != FailedEvent ==> r.value.exceptionMessage == rec.exceptionMessage
    ensures r.Some? && kind == FailedEvent ==> r.value.exceptionMessage == ExceptionMessage(ex)
  {
    if kind == FailedEvent then
      match ExceptionMessage(ex)
      case None => None
      case Some(m) => Some(rec.(status := {Failed}, exceptionMessage := Some(m), dateFinished := Some(now)))
    else
      Some(rec.(status := {FinalFlag(kind)}, dateFinished := Some(now)))
  }

  /** The flags `ProcessInterruptedJobs` searches the registry for. */
  const InterruptedFilter: set<Flag> := {Executing, Persisting, Cancelling, Starting}

  /** The registry's resource text for a scheduler shutdown is not part of
      this model; its key stands for it. */
  const UnexpectedShutdownMessage: string := "SchedulerUnexpectedShutdown"

  /** Is a record one crash recovery picks up. */
  predicate Interrupted(rec: JobRecord)
  {
    Executing in rec.status || Persisting in rec.status || Cancelling in rec.status || Starting in rec.status
  }

  /** The predicate is the registry search: some flag of the filter is set. */
  lemma InterruptedMatchesFilter(rec: JobRecord)
    ensures Interrupted(rec) <==> rec.status * InterruptedFilter != {}
  {
    if Executing in rec.status { assert Executing in rec.status * InterruptedFilter; }
    if Persisting in rec.status { assert Persisting in rec.status * InterruptedFilter; }
    if Cancelling in rec.status { assert Cancelling in rec.status * InterruptedFilter; }
    if Starting in rec.status { assert Starting in rec.status * InterruptedFilter; }
  }

  /** Crash recovery as written: the branch tests the search filter, which
      always holds Starting, so every interrupted record is rewound. */
  function RecoveredAsWritten(rec: JobRecord): (r: JobRecord)
    ensures r.status == {Scheduled}
    ensures r.exceptionMessage == rec.exceptionMessage && r.queue == rec.queue
  {
    if Starting in InterruptedFilter then rec.(status := {Scheduled})
    else rec.(status := {Failed}, exceptionMessage := Some(UnexpectedShutdownMessage))
  }

  /** Crash recovery as intended: only a record that was merely Starting is
      rewound; one that had begun running is marked failed. */
  function RecoveredIntended(rec: JobRecord): (r: JobRecord)
    ensures Starting in rec.status ==> r.status == {Scheduled} && r.exceptionMessage == rec.exceptionMessage
    ensures Starting !in rec.status ==> r.status == {Failed} && r.exceptionMessage == Some(UnexpectedShutdownMessage)
    ensures r.queue == rec.queue
  {
    if Starting in rec.status then rec.(status := {Scheduled})
    else rec.(status := {Failed}, exceptionMessage := Some(UnexpectedShutdownMessage))
  }

  /** The registry calls for one recovered record: the forced lock release,
      and a reschedule exactly when the new status is Failed. */
  function RecoveryCalls(g: BK.JobGuid, recovered: JobRecord): (r: seq<RegistryCall>)
    ensures 1 <= |r| <= 2 && r[0] == ReleaseLock(g, true)
    ensures |r| == 2 <==> recovered.status == {Failed}
    ensures |r| == 2 ==> r[1] == RescheduleIfRecurring(g)
  {
    [ReleaseLock(g, true)] + (if recovered.status == {Failed} then [RescheduleIfRecurring(g)] else [])
  }

  /** As written, a record that was Executing is rewound to Scheduled and never
      rescheduled, whereas the intended recovery fails it. */
  lemma RecoveryRewindsRunningJobs(q: BK.QueueGuid)
    ensures var rec := JobRecord({Executing}, q, 0, 0, "", None, None, None);
            Interrupted(rec) &&
            RecoveredAsWritten(rec).status == {Scheduled} &&
            RecoveredIntended(rec).status == {Failed} &&
            |RecoveryCalls(0, RecoveredAsWritten(rec))| == 1 &&
            |RecoveryCalls(0, RecoveredIntended(rec))| == 2
  {
  }

  /** The intended recovery is idempotent on what it writes: recovering the
      recovered record again does not change its status, and a failed record
      is no longer picked up by the search, so it is not rescheduled twice. */
  lemma IntendedRecoveryStable(rec: JobRecord)
    requires Interrupted(rec)
    ensures !Interrupted(RecoveredIntended(rec))
    ensures RecoveredIntended(rec).status == {Scheduled} || RecoveredIntended(rec).status == {Failed}
  {
  }

  /** As written, the rewound record is out of the search too. */
  lemma RecoveryAsWrittenStable(rec: JobRecord)
    ensures !Interrupted(RecoveredAsWritten(rec))
    ensures |RecoveryCalls(0, RecoveredAsWritten(rec))| == 1
  {
  }

  datatype PollerError = PollerHasAlreadyStarted | PollerHasNotStarted

  /** The poller thread's state: whether a thread exists and whether it was
      asked to stop. */
  datatype Poller = Poller(running: bool, stopRequested: bool)

  /** `StartPoller`. */
  function StartPoller(p: Poller): (r: Result<Poller, PollerError>)
    ensures r.Err? <==> p.running
    ensures r.Err? ==> r.error == PollerHasAlreadyStarted
    ensures r.Ok? ==> r.value.running && !r.value.stopRequested
  {
    if p.running then Err(PollerHasAlreadyStarted) else Ok(Poller(true, false))
  }

  /** `StopPoller`: the stop request is raised, the thread joined and dropped. */
  function StopPoller(p: Poller): (r: Result<Poller, PollerError>)
    ensures r.Err? <==> !p.running
    ensures r.Err? ==> r.error == PollerHasNotStarted
    ensures r.Ok? ==> !r.value.running && r.value.stopRequested
  {
    if !p.running then Err(PollerHasNotStarted) else Ok(Poller(false, true))
  }

  /** Start then stop always succeeds and can be repeated; starting twice or
      stopping twice fails. */
  lemma PollerCycle(p: Poller)
    requires !p.running
    ensures StartPoller(p).Ok? && StopPoller(StartPoller(p).value).Ok?
    ensures StartPoller(StopPoller(StartPoller(p).value).value).Ok?
    ensures StartPoller(StartPoller(p).value).Err?
    ensures StopPoller(StopPoller(StartPoller(p).value).value).Err?
  {
  }

  type Registry = map<BK.JobGuid, JobRecord>

  /** The in-memory job `PollNewJobs` builds from a record; it is not yet
      started, so its run id, host and start time hold their defaults. */
  function NewJob(g: BK.JobGuid, rec: JobRecord, st: BK.JobStatus): (j: BK.Job)
    ensures j.guid == g && j.queue == rec.queue && j.user == rec.owner && j.status == st
    ensures j.timeout == rec.timeout && j.workflowType == rec.workflowType
  {
    BK.Job(g, rec.queue, rec.owner, rec.timeout, rec.workflowType, st, 0, 0, 0)
  }

  /** The registry after one intake step and the job it yields; `None` when
      loading the owner or saving fails (`fails`), the record is missing, or
      its status is neither Scheduled nor Persisted. */
  function IntakeStep(reg: Registry, g: BK.JobGuid, fails: BK.JobGuid -> bool): (r: Option<(Registry, BK.Job)>)
    ensures r.Some? <==> !fails(g) && g in reg && Intake(reg[g].status).Ok?
    ensures r.Some? ==> r.value.0 == reg[g := reg[g].(status := Intake(reg[g].status).value.1)]
    ensures r.Some? ==> r.value.1 == NewJob(g, reg[g], Intake(reg[g].status).value.0)
  {
    if fails(g) || g !in reg then None
    else match Intake(reg[g].status)
      case Err(_) => None
      case Ok((st, flags)) => Some((reg[g := reg[g].(status := flags)], NewJob(g, reg[g], st)))
  }

  /** `PollNewJobs` over the records the registry query returned, in order:
      every record is saved as it is taken in, and the first failure makes the
      result `None` while the records saved before it stay saved. */
  function Poll(reg: Registry, found: seq<BK.JobGuid>, fails: BK.JobGuid -> bool): (r: (Registry, Option<seq<BK.Job>>))
    ensures r.0.Keys == reg.Keys
    ensures forall g :: g in reg && g !in found ==> r.0[g] == reg[g]
    ensures r.1.Some? ==> |r.1.value| == |found|
    decreases |found|
  {
    if found == [] then (reg, Some([]))
    else match IntakeStep(reg, found[0], fails)
      case None => (reg, None)
      case Some((reg1, job)) =>
        var rest := Poll(reg1, found[1..], fails);
        (rest.0, if rest.1.None? then None else Some([job] + rest.1.value))
  }

  /** The outcome of a poll that has already taken in `res` and goes on with
      `rest`. */
  function PollFrom(reg: Registry, res: seq<BK.Job>, rest: seq<BK.JobGuid>, fails: BK.JobGuid -> bool)
    : (r: (Registry, Option<seq<BK.Job>>))
    ensures res == [] ==> r == Poll(reg, rest, fails)
    ensures rest == [] ==> r == (reg, Some(res))
  {
    var p := Poll(reg, rest, fails);
    assert res == [] && p.1.Some? ==> res + p.1.value == p.1.value;
    assert rest == [] ==> res + p.1.value == res;
    (p.0, if p.1.None? then None else Some(res + p.1.value))
  }

  /** One step of a poll: a failed intake ends it where it is, a successful
      one saves the record and appends the job. */
  lemma PollStep(reg: Registry, res: seq<BK.Job>, rest: seq<BK.JobGuid>, fails: BK.JobGuid -> bool)
    requires rest != []
    ensures IntakeStep(reg, rest[0], fails).None? ==> PollFrom(reg, res, rest, fails) == (reg, None)
    ensures IntakeStep(reg, rest[0], fails).Some? ==>
      var s := IntakeStep(reg, rest[0], fails).value;
      PollFrom(reg, res, rest, fails) == PollFrom(s.0, res + [s.1], rest[1..], fails)
  {
    match IntakeStep(reg, rest[0], fails)
    case None =>
    case Some((reg1, job)) =>
      var p := Poll(reg1, rest[1..], fails);
      if p.1.Some? {
        assert res + ([job] + p.1.value) == (res + [job]) + p.1.value;
      }
  }

  /** A record whose status intake rejects stops the poll wherever it occurs. */
  lemma {:induction false} PollStopsAtRejected(reg: Registry, found: seq<BK.JobGuid>, fails: BK.JobGuid -> bool, g: BK.JobGuid)
    requires g in found && g in reg && Intake(reg[g].status).Err?
    ensures Poll(reg, found, fails).1.None?
    decreases |found|
  {
    if found[0] != g {
      match IntakeStep(reg, found[0], fails)
      case None =>
      case Some((reg1, job)) =>
        assert g in found[1..];
        PollStopsAtRejected(reg1, found[1..], fails, g);
    }
  }

  /** A poll that succeeds yields one job per record, in order, each Starting
      or Resuming, and leaves each of those records marked Starting. */
  lemma {:induction false} PollAdmittedAt(reg: Registry, found: seq<BK.JobGuid>, fails: BK.JobGuid -> bool, k: int)
    requires Poll(reg, found, fails).1.Some? && 0 <= k < |found|
    ensures var j := Poll(reg, found, fails).1.value[k];
      j.guid == found[k] && found[k] in reg && (j.status == BK.JobStatus.Starting || j.status == BK.Resuming) &&
      Starting in Poll(reg, found, fails).0[found[k]].status
    decreases k
  {
    var g := found[0];
    var reg1 := IntakeStep(reg, g, fails).value.0;
    var rest := Poll(reg1, found[1..], fails);
    assert Poll(reg, found, fails).0 == rest.0;
    if k == 0 {
      IntakeMarksStarting(reg[g].status);
      if g in found[1..] {
        PollStopsAtRejected(reg1, found[1..], fails, g);
      }
      assert g !in found[1..];
      assert rest.0[g] == reg1[g];
    } else {
      PollAdmittedAt(reg1, found[1..], fails, k - 1);
      assert found[k] == found[1..][k - 1];
      assert Poll(reg, found, fails).1.value[k] == rest.1.value[k - 1];
    }
  }

  lemma PollAdmitted(reg: Registry, found: seq<BK.JobGuid>, fails: BK.JobGuid -> bool)
    requires Poll(reg, found, fails).1.Some?
    ensures forall k :: 0 <= k < |found| ==>
      var j := Poll(reg, found, fails).1.value[k];
      j.guid == found[k] && found[k] in reg && (j.status == BK.JobStatus.Starting || j.status == BK.Resuming) &&
      Starting in Poll(reg, found, fails).0[found[k]].status
  {
    forall k | 0 <= k < |found|
      ensures var j := Poll(reg, found, fails).1.value[k];
        j.guid == found[k] && found[k] in reg && (j.status == BK.JobStatus.Starting || j.status == BK.Resuming) &&
        Starting in Poll(reg, found, fails).0[found[k]].status
    {
      PollAdmittedAt(reg, found, fails, k);
    }
  }

  /** Once a poll has failed, records after the failing one are untouched:
      the outcome is the outcome of the prefix. */
  lemma {:induction false} PollFailureIsFinal(reg: Registry, p: seq<BK.JobGuid>, q: seq<BK.JobGuid>, fails: BK.JobGuid -> bool)
    requires Poll(reg, p, fails).1.None?
    ensures Poll(reg, p + q, fails) == Poll(reg, p, fails)
    decreases |p|
  {
    assert (p + q)[0] == p[0];
    match IntakeStep(reg, p[0], fails)
    case None =>
    case Some((reg1, job)) =>
      assert (p + q)[1..] == p[1..] + q;
      PollFailureIsFinal(reg1, p[1..], q, fails);
  }

  /** A queued `JobWorkflowEvent`. */
  datatype Event = Event(job: BK.Job, kind: EventKind, exception: Option<Exception>)

  function JobsOf(es: seq<Event>): (js: seq<BK.Job>)
    ensures |js| == |es| && forall k :: 0 <= k < |es| ==> js[k] == es[k].job
  {
    seq(|es|, k requires 0 <= k < |es| => es[k].job)
  }

  /** `ProcessFinishedJob`: the record is rewritten for the event and then its
      lock is released (not forced) and the registry asked to reschedule a
      recurring job. A failure anywhere (`fails`, a missing record, a null
      exception) is caught and changes nothing. */
  function FinishStep(reg: Registry, log: seq<RegistryCall>, e: Event, now: int, fails: BK.JobGuid -> bool)
    : (r: (Registry, seq<RegistryCall>))
    ensures r.0.Keys == reg.Keys
    ensures forall g :: g in reg && g != e.job.guid ==> r.0[g] == reg[g]
    ensures r.1 == log || r.1 == log + [ReleaseLock(e.job.guid, false), RescheduleIfRecurring(e.job.guid)]
    ensures r.1 != log <==>
      !fails(e.job.guid) && e.job.guid in reg && FinishedRecord(reg[e.job.guid], e.kind, e.exception, now).Some?
    ensures r.1 != log ==> r.0[e.job.guid] == FinishedRecord(reg[e.job.guid], e.kind, e.exception, now).value
    ensures r.1 == log ==> r.0 == reg
  {
    var g := e.job.guid;
    if fails(g) || g !in reg then (reg, log)
    else match FinishedRecord(reg[g], e.kind, e.exception, now)
      case None => (reg, log)
      case Some(rec) => (reg[g := rec], log + [ReleaseLock(g, false), RescheduleIfRecurring(g)])
  }

  /** Processing the queued events first to last. */
  function Drain(reg: Registry, log: seq<RegistryCall>, es: seq<Event>, now: int, fails: BK.JobGuid -> bool)
    : (r: (Registry, seq<RegistryCall>))
    ensures r.0.Keys == reg.Keys
    ensures forall g :: g in reg && (forall k :: 0 <= k < |es| ==> es[k].job.guid != g) ==> r.0[g] == reg[g]
    ensures |log| <= |r.1| && r.1[..|log|] == log
    decreases |es|
  {
    if es == [] then (reg, log)
    else
      var s := FinishStep(reg, log, es[0], now, fails);
      var r := Drain(s.0, s.1, es[1..], now, fails);
      assert forall g :: g in reg && (forall k :: 0 <= k < |es| ==> es[k].job.guid != g) ==>
        (forall k :: 0 <= k < |es[1..]| ==> es[1..][k].job.guid != g) by {
        forall g, k | g in reg && (forall k :: 0 <= k < |es| ==> es[k].job.guid != g) && 0 <= k < |es[1..]|
          ensures es[1..][k].job.guid != g
        {
          assert es[1..][k] == es[k + 1];
        }
      }
      assert s.1[..|log|] == log;
      r
  }

  /** The drain is FIFO: the last event is processed on the state the earlier
      ones left. */
  lemma {:induction false} DrainSnoc(reg: Registry, log: seq<RegistryCall>, es: seq<Event>, e: Event, now: int, fails: BK.JobGuid -> bool)
    ensures var d := Drain(reg, log, es, now, fails);
            Drain(reg, log, es + [e], now, fails) == FinishStep(d.0, d.1, e, now, fails)
    decreases |es|
  {
    if es == [] {
      assert [] + [e] == [e];
      assert [e][1..] == [];
    } else {
      var s := FinishStep(reg, log, es[0], now, fails);
      assert (es + [e])[0] == es[0];
      assert (es + [e])[1..] == es[1..] + [e];
      DrainSnoc(s.0, s.1, es[1..], e, now, fails);
    }
  }

  /** The last event of a drain that succeeds decides its job's final record:
      the status of its kind, the finish time, the exception's message for a
      Failed event, and the two closing registry calls at the end of the log.
      A Failed event whose message cannot be read changes nothing. */
  lemma LastEventDecides(reg: Registry, log: seq<RegistryCall>, es: seq<Event>, e: Event, now: int, fails: BK.JobGuid -> bool)
    requires e.job.guid in reg && !fails(e.job.guid)
    ensures var d := Drain(reg, log, es + [e], now, fails);
            e.kind == FailedEvent && ExceptionMessage(e.exception).None? ==>
              d == Drain(reg, log, es, now, fails)
    ensures var d := Drain(reg, log, es + [e], now, fails);
            e.kind == FailedEvent ==> ExceptionMessage(e.exception).Some? ==>
              d.0[e.job.guid].status == {Failed} && d.0[e.job.guid].exceptionMessage == ExceptionMessage(e.exception)
    ensures var d := Drain(reg, log, es + [e], now, fails);
            (e.kind == FailedEvent ==> ExceptionMessage(e.exception).Some?) ==>
              d.0[e.job.guid].status == {FinalFlag(e.kind)} && d.0[e.job.guid].dateFinished == Some(now) &&
              |d.1| >= 2 && d.1[|d.1| - 2..] == [ReleaseLock(e.job.guid, false), RescheduleIfRecurring(e.job.guid)]
  {
    DrainSnoc(reg, log, es, e, now, fails);
    var d := Drain(reg, log, es, now, fails);
    assert e.job.guid in d.0;
  }
}
