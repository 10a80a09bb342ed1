# Graywulf scheduler and name resolution, modelled in Dafny

This project models the core of the Graywulf job scheduler and of its SQL
name-resolution layer, together with two small web-API helpers, and proves
properties of the model.

**Scheduler (`QueueManager`).** The model keeps the scheduler's four views of a
running job:

- jobs by workflow run id;
- jobs by job guid;
- the running set of each AppDomain host;
- the job set of each queue, with that queue's last-served user.

These views are the fields of `QueueManagement.QueueManager`. The bookkeeping
itself is specified as a value, `Bookkeeping.Books`. The invariant
`Bookkeeping.Consistent` says a job is filed in all four views or in none, and
every operation keeps it. Job records in the registry are a map from job guid
to a record whose status is a set of execution flags. The lock and reschedule
calls the scheduler makes on records are a log. The calls it makes into hosts
are a second log. Time is an integer parameter. A registry failure is a
boolean (or a function of the job guid) that ends the call the way the
source's `catch` does. Dictionary enumeration orders and the results of
registry queries are sequence parameters, constrained to enumerate the
dictionary or to satisfy the query.

The model covers these operations: intake polling with its admission
arithmetic and flag transitions, cancellation polling, start/resume, cancel,
time-out and persist, the completion-event queue and its drain, host faults,
unloading idle hosts, crash recovery, and the poller's start/stop guard.

**Logical expressions (`LogicalExpression`).** The model covers:

- the raw enumeration of a parsed AND/OR/NOT chain;
- the shunting-yard pass, on two stacks whose top is the last element;
- popping the result into an expression tree (a class over a stack of tokens);
- the `Create` factories.

Operator precedence is an abstract `nat`, with 0 meaning an operand.

**Name resolution (`TableReference`, `ColumnReference`).** The rules are pure
functions over records with optional name parts:

- table and column comparison;
- alias rules;
- unique and exported names;
- cachability;
- the `Interpret` overloads;
- the column-source dispatch;
- the column context flags;
- `FilterColumnReferences`, which collects columns in three passes without
  duplicate names and sorts them by column ID.

The schema manager's string comparer is an abstract function `cmp`.
Identifier unquoting is an abstract function `unquote`.

**Web helpers.** `ExportJob.TableList` is a loop-built comma join.
`DynamicResponseMessageFormatter` covers its case-insensitive formatter map
and the nested selection loops of `SerializeReply`. The header matcher is an
abstract predicate.

Where the documented behaviour and the code disagree, the model follows the
code:

- **Crash recovery.** The documented behaviour rewinds only Starting records
  and fails the rest. The code rewinds every record (see Findings).
  `QueueManager.ProcessInterruptedJobs` models the code as written.
  `QueueManager.ProcessInterruptedJobsIntended` models the corrected
  behaviour.
- **Exception messages.** The documentation says a wrapped exception is
  unwrapped to its innermost cause. `GetExceptionMessage` unwraps one level
  only (`Lifecycle.OneLevelOfAggregation`).

Files:

- `wrappers.dfy`: Option and Result.
- `bookkeeping.dfy`: the four views as a value.
- `lifecycle.dfy`: registry records, flag transitions, events, recovery and
  the poller.
- `queue_manager.dfy`: the `QueueManager` class.
- `logical_expression.dfy`: logical expressions.
- `table_reference.dfy`: table references.
- `column_reference.dfy`: column references.
- `column_filter.dfy`: `FilterColumnReferences`. It sits in its own module
  because it needs both reference modules.
- `export_job.dfy` and `response_formatter.dfy`: the web helpers.

## Model

| member | source | states |
|---|---|---|
| Bookkeeping.AddJob | dll/Jhu.Graywulf.Scheduler/Scheduler/QueueManager.cs:528-540 | adding a job creates no host and no queue |
| Bookkeeping.AddJobFiles | dll/Jhu.Graywulf.Scheduler/Scheduler/QueueManager.cs:528-540 | after adding, the job is under its run id and its guid, in its host's running set and its queue's job set, and the queue's last user is the job's owner; every other job under a guid or a run id, every other host and every other queue is unchanged, and the job's own queue keeps its limit |
| Bookkeeping.AddKeepsConsistent | dll/Jhu.Graywulf.Scheduler/Scheduler/QueueManager.cs:528-540 | adding a job that is filed nowhere keeps the all-four-views-or-none invariant |
| Bookkeeping.RemoveJob | dll/Jhu.Graywulf.Scheduler/Scheduler/QueueManager.cs:542-553 | removal creates no key and removes no host or queue |
| Bookkeeping.RemoveJobClears | dll/Jhu.Graywulf.Scheduler/Scheduler/QueueManager.cs:542-553 | after removal the job is in none of the four views, and every other job, host and queue is as before (the queue's limit and last user included) |
| Bookkeeping.RemoveKeepsConsistent | dll/Jhu.Graywulf.Scheduler/Scheduler/QueueManager.cs:542-553 | removing a filed job keeps the invariant |
| Bookkeeping.RemoveAbsentIsNoOp | dll/Jhu.Graywulf.Scheduler/Scheduler/QueueManager.cs:542-553 | removing a job that is not filed changes nothing, because removing an absent key is a no-op |
| Bookkeeping.RemoveIdempotent | dll/Jhu.Graywulf.Scheduler/Scheduler/QueueManager.cs:542-553 | removing a job twice is the same as removing it once |
| Bookkeeping.AddThenRemove | dll/Jhu.Graywulf.Scheduler/Scheduler/QueueManager.cs:528-553 | add followed by remove restores every view except the queue's last user, which stays the job's owner |
| Bookkeeping.AllFourOrNone | dll/Jhu.Graywulf.Scheduler/Scheduler/QueueManager.cs:528-553 | under the invariant, a guid is filed by guid exactly when some run id, some host and some queue hold it |
| Bookkeeping.Admission | dll/Jhu.Graywulf.Scheduler/Scheduler/QueueManager.cs:666 | the number of jobs requested plus the number running in the queue is the queue's limit |
| Bookkeeping.AdmissionCountsRunningJobs | dll/Jhu.Graywulf.Scheduler/Scheduler/QueueManager.cs:666-672 | the number requested is the limit minus the number of filed jobs that belong to the queue |
| Bookkeeping.AdmissionMovesByOne | dll/Jhu.Graywulf.Scheduler/Scheduler/QueueManager.cs:528-553 | adding a job lowers its queue's admission by one, and removing it restores it |
| Bookkeeping.AddHost | dll/Jhu.Graywulf.Scheduler/Scheduler/QueueManager.cs:1074-1077 | registering a host changes no job map and no queue |
| Bookkeeping.AddHostKeepsConsistent | dll/Jhu.Graywulf.Scheduler/Scheduler/QueueManager.cs:1074-1077 | a new host starts with no running jobs and keeps the invariant |
| Bookkeeping.RemoveHosts | dll/Jhu.Graywulf.Scheduler/Scheduler/QueueManager.cs:1119-1124 | forgetting hosts changes no job map and no queue |
| Bookkeeping.RemoveHostsKeepsConsistent | dll/Jhu.Graywulf.Scheduler/Scheduler/QueueManager.cs:1111-1125 | forgetting hosts with no running jobs keeps the invariant, and leaves exactly the hosts not forgotten |
| Bookkeeping.SetStatus | dll/Jhu.Graywulf.Scheduler/Scheduler/QueueManager.cs:956-965 | a status change touches no host and no queue |
| Bookkeeping.SetStatusKeepsIdentity | dll/Jhu.Graywulf.Scheduler/Scheduler/QueueManager.cs:956-965 | only the status of the named job changes; every job keeps the guid, run id, host and queue it is filed under |
| Bookkeeping.SetStatusKeepsConsistent | dll/Jhu.Graywulf.Scheduler/Scheduler/QueueManager.cs:994-995 | a status change keeps the invariant and the run-id keys |
| Bookkeeping.RemoveAll | dll/Jhu.Graywulf.Scheduler/Scheduler/QueueManager.cs:788-799 | removing a sequence of jobs creates no key and removes no host or queue |
| Bookkeeping.RemoveAllKeeps | dll/Jhu.Graywulf.Scheduler/Scheduler/QueueManager.cs:788-799 | removing a sequence of jobs, each filed or gone, keeps the invariant |
| Bookkeeping.RemoveAllClears | dll/Jhu.Graywulf.Scheduler/Scheduler/QueueManager.cs:788-799 | after the drain's removals none of the removed jobs is filed under its guid or run id, even when a job occurs more than once |
| Lifecycle.Toggle | dll/Jhu.Graywulf.Scheduler/Scheduler/QueueManager.cs:704 | exclusive-or with one flag flips that flag and keeps every other |
| Lifecycle.Intake | dll/Jhu.Graywulf.Scheduler/Scheduler/QueueManager.cs:696-712 | intake succeeds exactly for Scheduled or Persisted records; Scheduled becomes exactly {Starting} with status Starting; Persisted gives Resuming; any other status is the not-implemented error |
| Lifecycle.ResumeKeepsOtherFlags | dll/Jhu.Graywulf.Scheduler/Scheduler/QueueManager.cs:701-708 | a Persisted record loses Persisted, gains Starting and keeps every other flag, such as cancel-requested |
| Lifecycle.IntakeMarksStarting | dll/Jhu.Graywulf.Scheduler/Scheduler/QueueManager.cs:696-705 | after intake a record is Starting and neither Scheduled nor Persisted, so a second intake of it is an error |
| Lifecycle.FinalFlag | dll/Jhu.Graywulf.Scheduler/Scheduler/QueueManager.cs:815-838 | every event kind maps to a terminal flag, and only Failed maps to Failed |
| Lifecycle.FinalFlagOneToOne | dll/Jhu.Graywulf.Scheduler/Scheduler/QueueManager.cs:815-838 | two event kinds give the same flag exactly when they are the same kind |
| Lifecycle.ExceptionMessage | dll/Jhu.Graywulf.Scheduler/Scheduler/QueueManager.cs:856-866 | an aggregate exception yields its inner exception's message and any other its own; a missing exception, or an aggregate without an inner one, has no message (the null dereference) |
| Lifecycle.OneLevelOfAggregation | dll/Jhu.Graywulf.Scheduler/Scheduler/QueueManager.cs:858-861 | for an aggregate inside an aggregate, the message is that of the middle exception, not the innermost |
| Lifecycle.FinishedRecord | dll/Jhu.Graywulf.Scheduler/Scheduler/QueueManager.cs:815-843 | a completion event sets exactly the event's flag and the finish time; only Failed sets the exception message; a Failed event without an exception message throws and saves nothing |
| Lifecycle.InterruptedMatchesFilter | dll/Jhu.Graywulf.Scheduler/Scheduler/QueueManager.cs:572-576 | a record is interrupted exactly when it has one of the four filter flags |
| Lifecycle.RecoveredAsWritten | dll/Jhu.Graywulf.Scheduler/Scheduler/QueueManager.cs:578-600 | as written, recovery makes every found record exactly Scheduled and keeps its message |
| Lifecycle.RecoveredIntended | dll/Jhu.Graywulf.Scheduler/Scheduler/QueueManager.cs:582-596 | corrected, a record that was Starting becomes Scheduled; any other becomes Failed with the unexpected-shutdown message |
| Lifecycle.RecoveryCalls | dll/Jhu.Graywulf.Scheduler/Scheduler/QueueManager.cs:580-605 | every recovered record's lock is force-released first, and it is rescheduled exactly when its new status is Failed |
| Lifecycle.RecoveryRewindsRunningJobs | dll/Jhu.Graywulf.Scheduler/Scheduler/QueueManager.cs:582-596 | a record that was only Executing is interrupted; as written it is rewound to Scheduled and not rescheduled, while the corrected version fails it and reschedules it |
| Lifecycle.IntendedRecoveryStable | dll/Jhu.Graywulf.Scheduler/Scheduler/QueueManager.cs:572-605 | after corrected recovery a record is no longer interrupted, and it is either Scheduled or Failed |
| Lifecycle.RecoveryAsWrittenStable | dll/Jhu.Graywulf.Scheduler/Scheduler/QueueManager.cs:572-605 | after recovery as written a record is no longer interrupted and is never rescheduled |
| Lifecycle.StartPoller | dll/Jhu.Graywulf.Scheduler/Scheduler/QueueManager.cs:452-469 | starting fails with PollerHasAlreadyStarted exactly when the poller runs; otherwise it runs with no stop request |
| Lifecycle.StopPoller | dll/Jhu.Graywulf.Scheduler/Scheduler/QueueManager.cs:477-492 | stopping fails with PollerHasNotStarted exactly when the poller does not run; otherwise the stop is requested and the poller no longer runs |
| Lifecycle.PollerCycle | dll/Jhu.Graywulf.Scheduler/Scheduler/QueueManager.cs:452-492 | start, stop and start again succeed; a second start and a second stop fail |
| Lifecycle.NewJob | dll/Jhu.Graywulf.Scheduler/Scheduler/QueueManager.cs:676-694 | the job built from a record carries the record's guid, queue, owner, timeout and workflow type, and the given status |
| Lifecycle.IntakeStep | dll/Jhu.Graywulf.Scheduler/Scheduler/QueueManager.cs:674-718 | one record is taken in exactly when it loads and is Scheduled or Persisted; then its flags are rewritten by Intake and the job is built from it |
| Lifecycle.Poll | dll/Jhu.Graywulf.Scheduler/Scheduler/QueueManager.cs:654-726 | a poll rewrites only found records, and a successful poll yields one job per found record |
| Lifecycle.PollStep | dll/Jhu.Graywulf.Scheduler/Scheduler/QueueManager.cs:674-718 | the poll stops with no result at the first record that cannot be taken in, and continues after one that can |
| Lifecycle.PollStopsAtRejected | dll/Jhu.Graywulf.Scheduler/Scheduler/QueueManager.cs:709-724 | a found record that is neither Scheduled nor Persisted makes the whole poll return no list (null) |
| Lifecycle.PollAdmitted | dll/Jhu.Graywulf.Scheduler/Scheduler/QueueManager.cs:674-718 | the k-th job of a successful poll is the k-th found record, Starting or Resuming, and that record is now marked Starting |
| Lifecycle.PollAdmittedAt | dll/Jhu.Graywulf.Scheduler/Scheduler/QueueManager.cs:674-718 | the same fact for a single index |
| Lifecycle.PollFailureIsFinal | dll/Jhu.Graywulf.Scheduler/Scheduler/QueueManager.cs:719-725 | once a poll has failed, records found after it change neither the registry nor the result |
| Lifecycle.FinishStep | dll/Jhu.Graywulf.Scheduler/Scheduler/QueueManager.cs:801-854 | one event rewrites only its own job's record; on success the record is the finished record and the calls are a non-forced lock release then a reschedule; on failure nothing changes |
| Lifecycle.Drain | dll/Jhu.Graywulf.Scheduler/Scheduler/QueueManager.cs:788-799 | draining rewrites only records of drained jobs and only appends to the call log |
| Lifecycle.DrainSnoc | dll/Jhu.Graywulf.Scheduler/Scheduler/QueueManager.cs:792-797 | events are processed first to last: draining one more event applies it after the others |
| Lifecycle.LastEventDecides | dll/Jhu.Graywulf.Scheduler/Scheduler/QueueManager.cs:788-846 | a job's record ends with the flag and finish time of its last event, a Failed event's message included, and the log ends with that event's release and reschedule; a last Failed event whose message cannot be read leaves the drain as it was before that event |
| QueueManagement.EnumerationCounts | dll/Jhu.Graywulf.Scheduler/Scheduler/QueueManager.cs:1144 | an enumeration of a dictionary visits each of its keys exactly once |
| QueueManagement.Owned | dll/Jhu.Graywulf.Scheduler/Scheduler/QueueManager.cs:760-776 | cancellation intake returns at most one job per found record |
| QueueManagement.OwnedIsLocal | dll/Jhu.Graywulf.Scheduler/Scheduler/QueueManager.cs:764-775 | every job returned is the running job filed under a found guid, and every found record that runs here yields its job; records of other schedulers are skipped |
| QueueManagement.IdleOf | dll/Jhu.Graywulf.Scheduler/Scheduler/QueueManager.cs:1113-1116 | a host is selected exactly when it runs no job and has been idle longer than the idle period |
| QueueManagement.IdleOfDistinct | dll/Jhu.Graywulf.Scheduler/Scheduler/QueueManager.cs:1113-1117 | the selection holds no host twice |
| QueueManagement.Unloads | dll/Jhu.Graywulf.Scheduler/Scheduler/QueueManager.cs:1119-1124 | one stop-and-unload signal per selected host, in order |
| QueueManagement.UnloadKeepsBusyHosts | dll/Jhu.Graywulf.Scheduler/Scheduler/QueueManager.cs:1111-1125 | unloading keeps the invariant and the host of every running job; a host survives exactly when it is busy or not idle long enough |
| QueueManagement.FailEvents | dll/Jhu.Graywulf.Scheduler/Scheduler/QueueManager.cs:1144-1147 | one Failed event carrying the fault per job enumerated, in order |
| QueueManagement.HostJobsFiled | dll/Jhu.Graywulf.Scheduler/Scheduler/QueueManager.cs:1144 | every job in a host's running set is filed under its own guid |
| QueueManagement.HostFaultFailsEachJobOnce | dll/Jhu.Graywulf.Scheduler/Scheduler/QueueManager.cs:1137-1150 | a host fault queues exactly one Failed event, carrying the fault, for each job in the host's running set, and none for any other job |
| QueueManagement.Started | dll/Jhu.Graywulf.Scheduler/Scheduler/QueueManager.cs:908-924 | a started job keeps its identity and gets its run id, host, start time and status Executing |
| QueueManagement.WithHost | dll/Jhu.Graywulf.Scheduler/Scheduler/QueueManager.cs:1067-1090 | after picking a host it is present, an existing host is reused unchanged, and no job map or queue changes |
| QueueManagement.WithHostKeepsConsistent | dll/Jhu.Graywulf.Scheduler/Scheduler/QueueManager.cs:1071-1082 | picking a host keeps the invariant, and a new host starts with no running jobs |
| QueueManagement.Guids | dll/Jhu.Graywulf.Scheduler/Scheduler/QueueManager.cs:1144 | the guids of a sequence of events, in order |
| QueueManagement.RecoverAll | dll/Jhu.Graywulf.Scheduler/Scheduler/QueueManager.cs:578-600 | recovery rewrites records but adds or drops none |
| QueueManagement.Releases | dll/Jhu.Graywulf.Scheduler/Scheduler/QueueManager.cs:580 | one forced lock release per found record, in order |
| QueueManagement.RecoveryLog | dll/Jhu.Graywulf.Scheduler/Scheduler/QueueManager.cs:578-605 | recovery makes between one and two calls per record, each about a found record |
| QueueManagement.AsWrittenOnlyReleases | dll/Jhu.Graywulf.Scheduler/Scheduler/QueueManager.cs:578-605 | as written, recovery's calls are the forced releases alone; no record is ever rescheduled |
| QueueManagement.IntendedReschedulesFailed | dll/Jhu.Graywulf.Scheduler/Scheduler/QueueManager.cs:582-605 | corrected, a found record is rescheduled exactly when it was not Starting |
| QueueManagement.FoundIsDistinct | dll/Jhu.Graywulf.Scheduler/Scheduler/QueueManager.cs:578 | the query yields registry records, each once |
| QueueManagement.RecoveryEmptiesSearch | dll/Jhu.Graywulf.Scheduler/Scheduler/QueueManager.cs:572-605 | after recovery as written the same search finds nothing, so replaying recovery changes nothing; found records are Scheduled and all others unchanged |
| QueueManagement.IntendedRecoveryEmptiesSearch | dll/Jhu.Graywulf.Scheduler/Scheduler/QueueManager.cs:572-605 | after corrected recovery the search also finds nothing; Starting records are Scheduled, the others Failed with the unexpected-shutdown message, and the rest unchanged |
| QueueManagement.SetStatusKeepsInv | dll/Jhu.Graywulf.Scheduler/Scheduler/QueueManager.cs:956-965 | a status change keeps the manager's invariant over views and queued events |
| QueueManagement.AddKeepsInv | dll/Jhu.Graywulf.Scheduler/Scheduler/QueueManager.cs:528-540 | filing a new job keeps the manager's invariant |
| QueueManagement.WithHostKeepsInv | dll/Jhu.Graywulf.Scheduler/Scheduler/QueueManager.cs:1067-1090 | picking a host keeps the manager's invariant |
| QueueManagement.EnqueueKeepsInv | dll/Jhu.Graywulf.Scheduler/Scheduler/QueueManager.cs:1010-1018 | queuing an event about a filed job keeps the manager's invariant |
| QueueManagement.FiledByRunId | dll/Jhu.Graywulf.Scheduler/Scheduler/QueueManager.cs:1013 | the job under a run id is the job filed under its guid |
| QueueManagement.UnloadKeepsInv | dll/Jhu.Graywulf.Scheduler/Scheduler/QueueManager.cs:1111-1125 | unloading idle hosts keeps the manager's invariant |
| QueueManagement.DrainKeepsInv | dll/Jhu.Graywulf.Scheduler/Scheduler/QueueManager.cs:788-799 | under the invariant every queued job can be removed, draining leaves the views consistent, and no drained job stays filed |
| QueueManagement.QueueManager.constructor | dll/Jhu.Graywulf.Scheduler/Scheduler/QueueManager.cs:313-321 | start-up creates empty job maps, host map and event queue over the loaded queues, with the poller stopped |
| QueueManagement.QueueManager.StartPoller | dll/Jhu.Graywulf.Scheduler/Scheduler/QueueManager.cs:452-469 | the poller state follows `Lifecycle.StartPoller`, the error leaves it unchanged, and nothing else changes |
| QueueManagement.QueueManager.StopPoller | dll/Jhu.Graywulf.Scheduler/Scheduler/QueueManager.cs:477-492 | the poller state follows `Lifecycle.StopPoller`, the error leaves it unchanged, and nothing else changes |
| QueueManagement.QueueManager.BookkeepAddJob | dll/Jhu.Graywulf.Scheduler/Scheduler/QueueManager.cs:528-540 | the four fields become `AddJob` of the old views; nothing else changes |
| QueueManagement.QueueManager.BookkeepRemoveJob | dll/Jhu.Graywulf.Scheduler/Scheduler/QueueManager.cs:542-553 | the four fields become `RemoveJob` of the old views; nothing else changes |
| QueueManagement.QueueManager.PollNewJobs | dll/Jhu.Graywulf.Scheduler/Scheduler/QueueManager.cs:654-726 | asks the query for the queue's admission after its last user; the registry and the result are `Poll` of what it found; the views are unchanged |
| QueueManagement.QueueManager.IntakeAll | dll/Jhu.Graywulf.Scheduler/Scheduler/QueueManager.cs:674-718 | the intake loop computes exactly `Poll`, including the early null result |
| QueueManagement.QueueManager.PollCancellingJobs | dll/Jhu.Graywulf.Scheduler/Scheduler/QueueManager.cs:744-786 | a failed query gives null; otherwise the locally running jobs among the found records, in order |
| QueueManagement.QueueManager.StartOrResumeJob | dll/Jhu.Graywulf.Scheduler/Scheduler/QueueManager.cs:875-929 | on a load or lock failure nothing changes; otherwise the record is stamped and locked; a host reported as new under a registered id throws with the views unchanged; otherwise a host is picked, a job neither Starting nor Resuming then throws, and else the host is told to prepare (start or resume) and run the started job, which is filed; the invariant holds throughout |
| QueueManagement.QueueManager.GetOrCreateAppDomainHost | dll/Jhu.Graywulf.Scheduler/Scheduler/QueueManager.cs:1067-1090 | a host reported as new under an id already registered throws (the duplicate key of `appDomains.Add`) and changes nothing; otherwise the views become `WithHost` of the old views |
| QueueManagement.QueueManager.PrepareAndRun | dll/Jhu.Graywulf.Scheduler/Scheduler/QueueManager.cs:906-928 | prepare then run is signalled to the host and the started job is filed |
| QueueManagement.QueueManager.CancelOrTimeOutJob | dll/Jhu.Graywulf.Scheduler/Scheduler/QueueManager.cs:931-967 | on failure nothing changes; otherwise the record becomes exactly Cancelling, the job becomes TimedOut or Cancelled in both job maps, and the host gets the time-out or cancel signal |
| QueueManagement.QueueManager.PersistJob | dll/Jhu.Graywulf.Scheduler/Scheduler/QueueManager.cs:969-996 | on failure nothing changes; otherwise the record becomes exactly Persisting, the host is asked to persist, and the job becomes Persisted |
| QueueManagement.QueueManager.FinishJob | dll/Jhu.Graywulf.Scheduler/Scheduler/QueueManager.cs:1003-1020 | queues one event for the job running under the run id, and keeps the invariant |
| QueueManagement.QueueManager.FailJob | dll/Jhu.Graywulf.Scheduler/Scheduler/QueueManager.cs:1026-1039 | queues one Failed event carrying the exception; nothing else changes |
| QueueManagement.QueueManager.HostFault | dll/Jhu.Graywulf.Scheduler/Scheduler/QueueManager.cs:1137-1150 | appends exactly the host's Failed events and keeps the invariant |
| QueueManagement.QueueManager.ProcessFinishedJob | dll/Jhu.Graywulf.Scheduler/Scheduler/QueueManager.cs:801-854 | the registry and its call log become `FinishStep` of the event |
| QueueManagement.QueueManager.ProcessFinishedJobs | dll/Jhu.Graywulf.Scheduler/Scheduler/QueueManager.cs:788-799 | the event queue ends empty; the views lose every drained job and keep the invariant; the registry is `Drain` of the queue in FIFO order |
| QueueManagement.QueueManager.DrainEvents | dll/Jhu.Graywulf.Scheduler/Scheduler/QueueManager.cs:790-798 | the dequeue loop removes each event's job and applies `FinishStep` first to last |
| QueueManagement.QueueManager.IdleHosts | dll/Jhu.Graywulf.Scheduler/Scheduler/QueueManager.cs:1113-1117 | the query loop computes `IdleOf` |
| QueueManagement.QueueManager.UnloadOldAppDomains | dll/Jhu.Graywulf.Scheduler/Scheduler/QueueManager.cs:1111-1125 | exactly the idle hosts are signalled and forgotten; the invariant holds |
| QueueManagement.QueueManager.UnloadHosts | dll/Jhu.Graywulf.Scheduler/Scheduler/QueueManager.cs:1119-1124 | each host is signalled to stop and unload, then forgotten, in order |
| QueueManagement.QueueManager.ProcessInterruptedJobs | dll/Jhu.Graywulf.Scheduler/Scheduler/QueueManager.cs:559-612 | as written, every found record is force-released and rewound to Scheduled; nothing is rescheduled |
| QueueManagement.QueueManager.ProcessInterruptedJobsIntended | dll/Jhu.Graywulf.Scheduler/Scheduler/QueueManager.cs:572-605 | corrected, every found record is force-released, then rewound or failed by its own status, and the failed ones are rescheduled |
| QueueManagement.QueueManager.RecoverEach | dll/Jhu.Graywulf.Scheduler/Scheduler/QueueManager.cs:578-606 | the recovery loop computes `RecoverAll` and appends `RecoveryLog` |
| LogicalExpressions.Kept | dll/Jhu.Graywulf.Sql/Sql/Parsing/LogicalExpression.cs:105-108 | the operators left on the stack are a prefix whose top does not outrank the incoming operator; everything above it does |
| LogicalExpressions.PopStronger | dll/Jhu.Graywulf.Sql/Sql/Parsing/LogicalExpression.cs:105-108 | the pop loop moves exactly the strictly stronger operators to the output |
| LogicalExpressions.PopAll | dll/Jhu.Graywulf.Sql/Sql/Parsing/LogicalExpression.cs:117-120 | the final loop moves every remaining operator to the output, top first |
| LogicalExpressions.ExecuteShuntingYard | dll/Jhu.Graywulf.Sql/Sql/Parsing/LogicalExpression.cs:93-123 | the output is the shunting-yard order; it holds every input token exactly once, so its length is the input length, and the operator stack is empty at the end |
| LogicalExpressions.StepPermutes | dll/Jhu.Graywulf.Sql/Sql/Parsing/LogicalExpression.cs:101-115 | one step only moves tokens between stacks and adds the incoming one |
| LogicalExpressions.ScanPermutes | dll/Jhu.Graywulf.Sql/Sql/Parsing/LogicalExpression.cs:101-115 | after the scan the two stacks hold exactly the input tokens |
| LogicalExpressions.ShuntingYardPermutes | dll/Jhu.Graywulf.Sql/Sql/Parsing/LogicalExpression.cs:93-123 | the output is a permutation of the input |
| LogicalExpressions.ScanOperatorStack | dll/Jhu.Graywulf.Sql/Sql/Parsing/LogicalExpression.cs:103-110 | the operator stack holds only operators, with precedence non-decreasing towards the top |
| LogicalExpressions.ScanOperands | dll/Jhu.Graywulf.Sql/Sql/Parsing/LogicalExpression.cs:111-114 | operands reach the output in input order |
| LogicalExpressions.OperandsKeepOrder | dll/Jhu.Graywulf.Sql/Sql/Parsing/LogicalExpression.cs:101-122 | the output's operands are the input's operands in input order |
| LogicalExpressions.TieIsNotPopped | dll/Jhu.Graywulf.Sql/Sql/Parsing/LogicalExpression.cs:105 | an operator of equal precedence stays on the stack and the new one is pushed above it |
| LogicalExpressions.BuildTreeOfParse | dll/Jhu.Graywulf.Sql/Sql/Parsing/LogicalExpression.cs:198-222 | popping from above the postfix form of a well-formed parse returns its expression tree and leaves the stack below untouched |
| LogicalExpressions.ParseIsUnique | dll/Jhu.Graywulf.Sql/Sql/Parsing/LogicalExpression.cs:78-81 | two parses that observe precedence and read the same in order are the same parse |
| LogicalExpressions.ShuntingYardParses | dll/Jhu.Graywulf.Sql/Sql/Parsing/LogicalExpression.cs:90-123 | for a chain of operands (each possibly negated) joined by binary operators, with NOT binding tighter than AND and OR, there is a parse that observes precedence, reads back in order as the chain, and whose postfix form is the shunting-yard output |
| LogicalExpressions.ShuntingYardBuildsPrecedenceTree | dll/Jhu.Graywulf.Sql/Sql/Parsing/LogicalExpression.cs:83-123 | popping the shunting-yard output of such a chain gives Ok with the tree of its parse that observes precedence and nothing left below |
| LogicalExpressions.AndBindsTighterThanOr | dll/Jhu.Graywulf.Sql/Sql/Parsing/LogicalExpression.cs:78-81 | when AND binds tighter than OR, no AND and no NOT of a parse that observes precedence has an unbracketed OR as its operand |
| LogicalExpressions.OrThenAndGroupsAndFirst | dll/Jhu.Graywulf.Sql/Sql/Parsing/LogicalExpression.cs:83-123 | `a OR b AND c` builds OR(a, AND(b, c)) with nothing left over |
| LogicalExpressions.AndThenOrGroupsAndFirst | dll/Jhu.Graywulf.Sql/Sql/Parsing/LogicalExpression.cs:83-123 | `a AND b OR c` builds OR(AND(a, b), c) with nothing left over |
| LogicalExpressions.AndThenAndGroupsRight | dll/Jhu.Graywulf.Sql/Sql/Parsing/LogicalExpression.cs:103-110 | `a AND b AND c` builds AND(a, AND(b, c)), because the strict comparison leaves the earlier AND on the stack |
| LogicalExpressions.NotAppliesToItsOperand | dll/Jhu.Graywulf.Sql/Sql/Parsing/LogicalExpression.cs:83-123 | `NOT a AND b` builds AND(NOT(a), b) |
| LogicalExpressions.BuildTree | dll/Jhu.Graywulf.Sql/Sql/Parsing/LogicalExpression.cs:198-222 | building a tree consumes a non-empty top part of the stack and leaves the rest below it |
| LogicalExpressions.BuildTreeOfPostfix | dll/Jhu.Graywulf.Sql/Sql/Parsing/LogicalExpression.cs:200-211 | a tree written in postfix on top of any stack is rebuilt exactly, leaving the stack below |
| LogicalExpressions.BuildNot | dll/Jhu.Graywulf.Sql/Sql/Parsing/LogicalExpression.cs:208-212 | a NOT takes exactly one operand tree |
| LogicalExpressions.BuildBinary | dll/Jhu.Graywulf.Sql/Sql/Parsing/LogicalExpression.cs:202-207 | a binary operator takes its right subtree from the stack first, then its left |
| LogicalExpressions.BracketsAreEliminated | dll/Jhu.Graywulf.Sql/Sql/Parsing/LogicalExpression.cs:213-218 | a brackets token is replaced by its inner tree |
| LogicalExpressions.ExpressionStack.Pop | dll/Jhu.Graywulf.Sql/Sql/Parsing/LogicalExpression.cs:200 | popping an empty stack is an error and changes nothing; otherwise it yields the top and removes it |
| LogicalExpressions.GetExpressionTreeInternal | dll/Jhu.Graywulf.Sql/Sql/Parsing/LogicalExpression.cs:198-222 | the recursive pop builds the same tree as `BuildTree` and leaves on the stack what it leaves |
| LogicalExpressions.FirstOperand | dll/Jhu.Graywulf.Sql/Sql/Parsing/LogicalExpression.cs:148-158 | a link's operand, when found, is an operand token |
| LogicalExpressions.FirstPredicate | dll/Jhu.Graywulf.Sql/Sql/Parsing/LogicalExpression.cs:148 | no predicate is found exactly when the link has no predicate child |
| LogicalExpressions.FirstBrackets | dll/Jhu.Graywulf.Sql/Sql/Parsing/LogicalExpression.cs:149 | no brackets are found exactly when the link has no brackets child |
| LogicalExpressions.FirstExpression | dll/Jhu.Graywulf.Sql/Sql/Parsing/LogicalExpression.cs:184 | the next link, when found, is a child of this one |
| LogicalExpressions.EnumerateRawExpressions | dll/Jhu.Graywulf.Sql/Sql/Parsing/LogicalExpression.cs:135-191 | the enumeration loop yields exactly the raw token sequence of the chain, or its error |
| LogicalExpressions.NotPrecedesOperand | dll/Jhu.Graywulf.Sql/Sql/Parsing/LogicalExpression.cs:141-154 | a negated link yields NOT first, then its operand |
| LogicalExpressions.EveryNotPrecedesOperand | dll/Jhu.Graywulf.Sql/Sql/Parsing/LogicalExpression.cs:139-190 | along the whole chain, every NOT yielded is directly followed by an operand |
| LogicalExpressions.MalformedLinkFails | dll/Jhu.Graywulf.Sql/Sql/Parsing/LogicalExpression.cs:159-181 | a link with neither predicate nor brackets, or with an operator other than AND/OR, makes the enumeration fail |
| LogicalExpressions.LinkCounts | dll/Jhu.Graywulf.Sql/Sql/Parsing/LogicalExpression.cs:141-189 | each link yields one operand, and one binary operator exactly when it continues |
| LogicalExpressions.RawExpressionsCounts | dll/Jhu.Graywulf.Sql/Sql/Parsing/LogicalExpression.cs:135-191 | a chain yields at least one operand, and one binary operator fewer than operands or as many (a trailing operator) |
| LogicalExpressions.RawExpressionsIsChain | dll/Jhu.Graywulf.Sql/Sql/Parsing/LogicalExpression.cs:135-191 | a successful enumeration that ends in an operand is a chain of operands, each possibly negated, joined by binary operators |
| LogicalExpressions.RawExpressionsParse | dll/Jhu.Graywulf.Sql/Sql/Parsing/LogicalExpression.cs:83-191 | such an enumeration, with operands at precedence 0 and NOT binding tighter than AND and OR, is read back by the shunting yard and the pop as the tree of a parse that observes precedence, with nothing left over |
| LogicalExpressions.CreateInternal | dll/Jhu.Graywulf.Sql/Sql/Parsing/LogicalExpression.cs:23-33 | the node is last; a negated node is preceded by exactly [NOT, whitespace] |
| LogicalExpressions.Create | dll/Jhu.Graywulf.Sql/Sql/Parsing/LogicalExpression.cs:45-56 | the node has five children which, apart from whitespace, are a, op and b in that order; as a link it has no NOT and its operator is op |
| LogicalExpressions.CreateWithBrackets | dll/Jhu.Graywulf.Sql/Sql/Parsing/LogicalExpression.cs:58-69 | the node starts with the brackets and ends with sc; as a link it has no NOT, the brackets as its operand, op as its operator and sc as its next link |
| LogicalExpressions.CreatedPredicateEnumerates | dll/Jhu.Graywulf.Sql/Sql/Parsing/LogicalExpression.cs:23-38 | a created predicate enumerates as [NOT, predicate] or [predicate] |
| LogicalExpressions.CreatedBracketsEnumerate | dll/Jhu.Graywulf.Sql/Sql/Parsing/LogicalExpression.cs:58-69 | a created brackets link enumerates as the brackets, the operator, then the rest of the chain |
| LogicalExpressions.GetExpressionTree | dll/Jhu.Graywulf.Sql/Sql/Parsing/LogicalExpression.cs:78-91 | a malformed chain is an error; otherwise the result is the tree popped from the shunting-yard output; when NOT binds tighter than AND and OR, operands have precedence 0 and the chain ends in an operand, the result is Ok and is the tree of a parse that observes precedence and reads back in order as the raw expressions |
| TableReferences.Fresh | dll/Jhu.Graywulf.Sql/Sql/NameResolution/TableReference.cs:223-232 | a new reference is undefined, cachable and not possibly an alias |
| TableReferences.IsCachable | dll/Jhu.Graywulf.Sql/Sql/NameResolution/TableReference.cs:72-85 | cachable exactly when not computed and no Subquery, CommonTable, UserDefinedFunction, Variable, CreateTable or Target flag is set |
| TableReferences.UniqueName | dll/Jhu.Graywulf.Sql/Sql/NameResolution/TableReference.cs:112-132 | a non-blank variable name wins, then "[alias]" for a non-blank alias, then the base name |
| TableReferences.UniqueNameSeparatesAliases | dll/Jhu.Graywulf.Sql/Sql/NameResolution/TableReference.cs:119-126 | two aliased references get the same unique name exactly when their aliases are equal |
| TableReferences.UniqueNameOfVariable | dll/Jhu.Graywulf.Sql/Sql/NameResolution/TableReference.cs:119-122 | a variable's unique name ignores its alias |
| TableReferences.ExportedName | dll/Jhu.Graywulf.Sql/Sql/NameResolution/TableReference.cs:137-161 | the alias for subquery, CTE, function, computed or aliased references; else the variable name in a Variable context; else the object name |
| TableReferences.IdentityIsRedundant | dll/Jhu.Graywulf.Sql/Sql/NameResolution/TableReference.cs:512-515 | for a reflexive comparer every part and the alias match themselves, so the identity shortcut agrees with the rule |
| TableReferences.CompareSymmetric | dll/Jhu.Graywulf.Sql/Sql/NameResolution/TableReference.cs:509-543 | for a symmetric comparer the comparison is symmetric |
| TableReferences.UnspecifiedMatchesAll | dll/Jhu.Graywulf.Sql/Sql/NameResolution/TableReference.cs:536-542 | a reference with nothing specified matches every reference both ways |
| TableReferences.ComparedPartsAgree | dll/Jhu.Graywulf.Sql/Sql/NameResolution/TableReference.cs:520-530 | two different matching references agree, by the comparer, on every name part both specify |
| TableReferences.AliasMustAgree | dll/Jhu.Graywulf.Sql/Sql/NameResolution/TableReference.cs:536-542 | when both have name parts, an alias never matches a missing alias, and two aliases must compare equal |
| TableReferences.InterpretTableOrView | dll/Jhu.Graywulf.Sql/Sql/NameResolution/TableReference.cs:337-358 | a fourth name part is an error; otherwise the parts are unquoted into dataset, database, schema and object, in a user-defined TableOrView context |
| TableReferences.InterpretColumnIdentifier | dll/Jhu.Graywulf.Sql/Sql/NameResolution/TableReference.cs:360-395 | the table of a column identifier is a user-defined TableOrView with no alias or variable, under the given dataset |
| TableReferences.ColumnNameLastShiftsParts | dll/Jhu.Graywulf.Sql/Sql/NameResolution/TableReference.cs:370-389 | with the column name last, every part shifts by one (part 4 to database, 3 to schema, 2 to object) |
| TableReferences.ColumnIdentifierAgreesWithTable | dll/Jhu.Graywulf.Sql/Sql/NameResolution/TableReference.cs:337-395 | without the shift, a column identifier's table is the table identifier's reference |
| TableReferences.InterpretFunction | dll/Jhu.Graywulf.Sql/Sql/NameResolution/TableReference.cs:259-277 | a function call takes the function's name parts and the unquoted alias, in a UserDefinedFunction context |
| TableReferences.InterpretSimple | dll/Jhu.Graywulf.Sql/Sql/NameResolution/TableReference.cs:279-287 | a simple table source has an alias exactly when one is given, the given alias unquoted, and keeps the table's name parts, context, variable name and computed and user-defined flags |
| TableReferences.InterpretSimpleKeepsTable | dll/Jhu.Graywulf.Sql/Sql/NameResolution/TableReference.cs:72-161 | aliasing a table source keeps its cachability and its column loader; an alias becomes the exported name and, without a variable name, the unique name "[alias]"; without an alias the names are those of the unaliased reference; interpreting twice is interpreting with the last alias |
| TableReferences.InterpretVariable | dll/Jhu.Graywulf.Sql/Sql/NameResolution/TableReference.cs:289-303 | a table variable has the variable name, the alias, a Variable context and no name parts |
| TableReferences.InterpretSubquery | dll/Jhu.Graywulf.Sql/Sql/NameResolution/TableReference.cs:305-318 | a subquery without an alias is an error; otherwise it has the unquoted alias in a Subquery context |
| TableReferences.InterpretCommonTable | dll/Jhu.Graywulf.Sql/Sql/NameResolution/TableReference.cs:320-335 | a common table without an alias is an error; otherwise the unquoted alias in a Subquery and CommonTable context |
| TableReferences.InterpretedCachability | dll/Jhu.Graywulf.Sql/Sql/NameResolution/TableReference.cs:72-161 | an interpreted table is cachable and exports its object name; function, variable, subquery and common-table references are not cachable; a function or common table exports its alias, an unaliased variable its variable name |
| TableReferences.TableIdentifierPossiblyAlias | dll/Jhu.Graywulf.Sql/Sql/NameResolution/TableReference.cs:93-99 | an interpreted table identifier is possibly an alias exactly when it has an object name but no database name and no dataset |
| TableReferences.PossiblyAliasIgnoresSchema | dll/Jhu.Graywulf.Sql/Sql/NameResolution/TableReference.cs:93-99 | whether a reference is possibly an alias does not depend on its schema name; a reference with a variable name, or with no name part, is never one; a bare object name without dataset, database or variable is one |
| TableReferences.LoadColumnSource | dll/Jhu.Graywulf.Sql/Sql/NameResolution/TableReference.cs:397-418 | common tables and subqueries are refused; functions load function columns; tables and views load table columns; anything else is not implemented |
| TableReferences.InterpretedColumnSources | dll/Jhu.Graywulf.Sql/Sql/NameResolution/TableReference.cs:397-418 | each kind of interpreted reference reaches its own branch of the dispatch |
| ColumnReferences.Initial | dll/Jhu.Graywulf.Sql/Sql/NameResolution/ColumnReference.cs:184-199 | a fresh reference has no table, name or alias, all flags false, select-list index -1, an empty context, and is not referenced |
| ColumnReferences.ContextFlagMarksReferenced | dll/Jhu.Graywulf.Sql/Sql/NameResolution/ColumnReference.cs:97-103 | adding any context flag, even NonReferenced, makes a column referenced; an empty context is not referenced; a referenced column has some flag |
| ColumnReferences.FromColumn | dll/Jhu.Graywulf.Sql/Sql/NameResolution/ColumnReference.cs:162-182 | the context has PrimaryKey exactly when the column is a key, Identity exactly when it is an identity, and nothing else; so it is referenced exactly then |
| ColumnReferences.CreateStar | dll/Jhu.Graywulf.Sql/Sql/NameResolution/ColumnReference.cs:225-235 | a star column named "*" with a new, undefined, non-null table |
| ColumnReferences.CreateStarOf | dll/Jhu.Graywulf.Sql/Sql/NameResolution/ColumnReference.cs:237-243 | a star column named "*" over the given table |
| ColumnReferences.Compare | dll/Jhu.Graywulf.Sql/Sql/NameResolution/ColumnReference.cs:355-389 | an error exactly when the other has no table and is not complex; by name when this table is undefined and not complex; against the other's alias when the other table is undefined; otherwise tables and names must both match |
| ColumnReferences.CompareWithItself | dll/Jhu.Graywulf.Sql/Sql/NameResolution/ColumnReference.cs:355-402 | a qualified column without an alias matches itself; with an alias it matches when its name equals its alias |
| ColumnReferences.UnqualifiedMatchesByName | dll/Jhu.Graywulf.Sql/Sql/NameResolution/ColumnReference.cs:366-370 | an unqualified column matches an unaliased column exactly when the comparer equates their names |
| ColumnReferences.AliasHidesName | dll/Jhu.Graywulf.Sql/Sql/NameResolution/ColumnReference.cs:391-402 | when the other column has an alias its name plays no part |
| ColumnReferences.ToString | dll/Jhu.Graywulf.Sql/Sql/NameResolution/ColumnReference.cs:411-436 | the accumulating method produces the rendering |
| ColumnReferences.StarRendering | dll/Jhu.Graywulf.Sql/Sql/NameResolution/ColumnReference.cs:411-436 | a bare star is "*", and a star over a defined table is "table.*" |
| ColumnReferences.RenderingParts | dll/Jhu.Graywulf.Sql/Sql/NameResolution/ColumnReference.cs:411-436 | over a defined table the rendering starts with "table.", and an aliased column's rendering ends with " AS [alias]" |
| ColumnFilter.AddColumns | dll/Jhu.Graywulf.Sql/Sql/NameResolution/TableReference.cs:553-571 | a pass over table columns only appends, keeps names distinct, and leaves every (key) column's name present |
| ColumnFilter.AddReferences | dll/Jhu.Graywulf.Sql/Sql/NameResolution/TableReference.cs:575-583 | the pass over references only appends selected references, keeps names distinct and leaves every selected name present; a selected reference without a name is the null-key error |
| ColumnFilter.IdOf | dll/Jhu.Graywulf.Sql/Sql/NameResolution/TableReference.cs:585 | a name has a column ID exactly when the table has a column of that name |
| ColumnFilter.Insert | dll/Jhu.Graywulf.Sql/Sql/NameResolution/TableReference.cs:585 | insertion adds exactly the one element |
| ColumnFilter.InsertKeepsSorted | dll/Jhu.Graywulf.Sql/Sql/NameResolution/TableReference.cs:585 | insertion keeps the sequence ordered by column ID |
| ColumnFilter.SortById | dll/Jhu.Graywulf.Sql/Sql/NameResolution/TableReference.cs:585 | the sort is a permutation ordered by column ID |
| ColumnFilter.CollectColumns | dll/Jhu.Graywulf.Sql/Sql/NameResolution/TableReference.cs:551-572 | the column loops compute `AddColumns` |
| ColumnFilter.CollectReferences | dll/Jhu.Graywulf.Sql/Sql/NameResolution/TableReference.cs:575-583 | the reference loop computes `AddReferences`, including the error |
| ColumnFilter.FilterColumnReferences | dll/Jhu.Graywulf.Sql/Sql/NameResolution/TableReference.cs:545-586 | the method computes the filtered, sorted column list |
| ColumnFilter.GatheredDistinct | dll/Jhu.Graywulf.Sql/Sql/NameResolution/TableReference.cs:547-583 | the three passes never collect two columns with the same name |
| ColumnFilter.FilteredIsOrderedAndDistinct | dll/Jhu.Graywulf.Sql/Sql/NameResolution/TableReference.cs:545-586 | the result has distinct names and is ordered by column ID |
| ColumnFilter.FilteredCoversRequested | dll/Jhu.Graywulf.Sql/Sql/NameResolution/TableReference.cs:550-583 | every primary-key column, every key column when asked, and every selected reference's name is in the result |
| ColumnFilter.AddColumnsOrigin | dll/Jhu.Graywulf.Sql/Sql/NameResolution/TableReference.cs:553-572 | every column a pass adds is built from a (key) column of the table |
| ColumnFilter.GatheredOrigin | dll/Jhu.Graywulf.Sql/Sql/NameResolution/TableReference.cs:547-583 | every collected column is one the three passes ask for |
| ColumnFilter.FilteredHasNothingElse | dll/Jhu.Graywulf.Sql/Sql/NameResolution/TableReference.cs:545-586 | the result holds nothing that was not asked for |
| ExportJobs.TableList | web/Jhu.Graywulf.Web.UI/Api/ExportJob.cs:50-74 | no tables give the empty string; otherwise the comma join; one table gives its name; the length is the name lengths plus two per separator |
| ExportJobs.JoinSnoc | web/Jhu.Graywulf.Web.UI/Api/ExportJob.cs:57-66 | one more name appends ", " and the name |
| ExportJobs.JoinLength | web/Jhu.Graywulf.Web.UI/Api/ExportJob.cs:57-66 | the join's length is the sum of the name lengths plus 2(n-1) |
| ExportJobs.JoinPlacesName | web/Jhu.Graywulf.Web.UI/Api/ExportJob.cs:57-66 | the k-th name sits in the join at the total length of the names before it plus two per earlier separator |
| ResponseFormatting.NewFormatterMap | dll/Jhu.Graywulf.Web/Web/Api/DynamicResponseMessageFormatter.cs:26 | a successful case-insensitive copy stores each entry under the case fold of its original key, and holds as many entries as were given |
| ResponseFormatting.NewFormatterMapKeys | dll/Jhu.Graywulf.Web/Web/Api/DynamicResponseMessageFormatter.cs:26 | the case-insensitive copy's keys are the case-folded given keys |
| ResponseFormatting.NewFormatterMapRejectsDuplicates | dll/Jhu.Graywulf.Web/Web/Api/DynamicResponseMessageFormatter.cs:26 | the copy succeeds exactly when no two given keys fold alike |
| ResponseFormatting.NewFormatterMapEntries | dll/Jhu.Graywulf.Web/Web/Api/DynamicResponseMessageFormatter.cs:26 | every given formatter is stored under its folded key |
| ResponseFormatting.LookupIgnoresCase | dll/Jhu.Graywulf.Web/Web/Api/DynamicResponseMessageFormatter.cs:26 | keys that fold alike look up the same formatter |
| ResponseFormatting.EnumeratedKeysAreGiven | dll/Jhu.Graywulf.Web/Web/Api/DynamicResponseMessageFormatter.cs:26-55 | the enumerated keys of the copied dictionary are the given keys: each is given with the formatter stored under it, and each given key is enumerated |
| ResponseFormatting.FirstMatch | dll/Jhu.Graywulf.Web/Web/Api/DynamicResponseMessageFormatter.cs:50-57 | the inner loop finds nothing exactly when no key matches the entry; otherwise the formatter stored under the first matching key |
| ResponseFormatting.SelectFormatter | dll/Jhu.Graywulf.Web/Web/Api/DynamicResponseMessageFormatter.cs:46-63 | over the dictionary's keys in enumeration order, the nested loops choose the fallback when nothing matched, else the formatter stored under the chosen key |
| ResponseFormatting.NoMatchMeansNone | dll/Jhu.Graywulf.Web/Web/Api/DynamicResponseMessageFormatter.cs:26-63 | when no accepted entry matches any given key, nothing is chosen, so the fallback is used |
| ResponseFormatting.ChosenIsLastMatching | dll/Jhu.Graywulf.Web/Web/Api/DynamicResponseMessageFormatter.cs:48-58 | a chosen formatter is stored under a key that matches some accepted entry, and no later entry matches any key |
| ResponseFormatting.ChosenIsGivenFormatter | dll/Jhu.Graywulf.Web/Web/Api/DynamicResponseMessageFormatter.cs:26-58 | a chosen formatter is the one given under a key that some accepted entry matches, and no later accepted entry matches any key |
| ResponseFormatting.LaterMatchOverrides | dll/Jhu.Graywulf.Web/Web/Api/DynamicResponseMessageFormatter.cs:48-58 | because the break leaves only the inner loop, a later matching entry overrides an earlier match |
| ResponseFormatting.RequestFormatter | dll/Jhu.Graywulf.Web/Web/Api/DynamicResponseMessageFormatter.cs:29-32 | request deserialisation always uses the fallback |

## Left out

- Threads, locks, `AutoResetEvent`, `Thread.Sleep` and the poller thread's loop: this is concurrency. Each operation is modelled as one sequential step. The poller's state is the pair running/stop-requested.
- `Start`, `Stop`, `DrainStop` and `Kill`: this is orchestration over the operations modelled here. The constructor stands for the part of `Start` that creates the maps; cluster loading is a parameter.
- `ProcessTimedOutJobs`, `PollAndStartJobs` and `PollAndCancelJobs`: these loop over the queues, call the modelled operations, and depend on the wall clock through `Job.IsTimedOut`, which is not part of this model.
- Registry access (`RegistryContext`, entity loading, saving): a registry is a map from job guid to record, and its calls are a log. A failure anywhere in a `try` block is one boolean (or a function of the guid) checked before the block's first effect. A save that succeeds followed by a lock release that throws is not modelled.
- QueueManager.PollNewJobs: a throwing `FindNextJobInstances` query (which makes the source return null with nothing changed) cannot be expressed, because the query's result is always a sequence. Its only caller, `PollAndStartJobs`, treats null like an empty list and is itself left out, so nothing observable is lost.
- Registry queries (`FindNextJobInstances`, `FindJobInstances`): their results are parameters. Crash recovery's result is constrained to be exactly the interrupted records of the cluster's queues.
- Dictionary enumeration order: it is a sequence parameter that enumerates the dictionary's keys.
- AppDomain creation, `AppDomainHost` internals and host start/stop: calls into hosts are recorded as signals. The AppDomain manager's answer to "which host, is it new" is a parameter. A host reported as new under an id already registered is modelled as the throw of `appDomains.Add`.
- QueueManager.StartOrResumeJob: requires that the job and the run id are not yet filed, because the source's `Dictionary.Add` in `BookkeepAddJob` would throw on a duplicate. A fresh run id comes from the workflow runtime, and a job is filed only while it runs. The start time and run id are parameters.
- QueueManager.FinishJob: requires that the run id is filed, because the source indexes the map directly and throws on an unknown run id.
- The `Job` object is a value stored in both job maps. Aliasing between the maps (one object seen through two keys) is represented by updating both entries.
- Logging calls and log messages.
- UnexpectedShutdownMessage stands for the resource text `SchedulerUnexpectedShutdown`. The resource table is not part of this model.
- The base class `DatabaseObjectReference`: `IsUndefined` is taken to mean "no name part"; its `UniqueName` is the parameter `baseName`.
- The schema manager's comparer, `Util.RemoveIdentifierQuotes`, the accept-header parser and its `IsMatching`: these are abstract functions and predicates.
- The column loading behind `LoadColumnReferences` (`LoadUdfColumnReferences`, `LoadTableOrViewColumnReferences`) and the schema lookups: only the dispatch is modelled.
- The `TableReference` constructors other than the default, `CopyMembers`, and data-type references.
- `ColumnReference.Interpret` and the parser grammar classes: the parse tree is given as a list of child nodes.
- EnumerateRawExpressions: `FindDescendant<T>` is read as a search of a link's DIRECT children for the first node of type T. Its body is in the parser library, which is not part of this model. A recursive search would find, for an outer link, a NOT that belongs to the nested chain.
- TableReferences.InterpretSimple: the source sets the alias on the node's own `TableReference` object and returns that same object (TableReference.cs:280-285), so the node and the result share one reference. The model returns an updated copy and does not capture this aliasing.
- GetExpressionTree: the link to the tree of a parse that observes precedence is proved only when NOT binds tighter than both AND and OR and operands have precedence 0, as the expression classes define them. The precedence values are not part of this model. A chain that ends in an operator yields tokens the pop reads without a guarantee.
- SerializeReply's actual serialisation: only the choice of formatter is modelled.
- Parts of the web UI other than `TableList`.

## Findings

| source | as written | input that shows it | evidently intended | confidence | as-written member | corrected member |
|---|---|---|---|---|---|---|
| dll/Jhu.Graywulf.Scheduler/Scheduler/QueueManager.cs:582 | tests the query filter's status flags, which always contain Starting (lines 572-576), so every interrupted record is rewound to Scheduled and never rescheduled | a record whose status is exactly {Executing} found at start-up: it becomes Scheduled and is run again | test the record's own status: only a Starting record is rewound; the rest fail with the unexpected-shutdown message and are rescheduled if recurring | not executed | Lifecycle.RecoveredAsWritten, QueueManagement.QueueManager.ProcessInterruptedJobs, Lifecycle.RecoveryRewindsRunningJobs | Lifecycle.RecoveredIntended, QueueManagement.QueueManager.ProcessInterruptedJobsIntended, QueueManagement.IntendedRecoveryEmptiesSearch, QueueManagement.IntendedReschedulesFailed |
