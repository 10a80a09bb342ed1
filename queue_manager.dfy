/** The scheduler's queue manager (dll/Jhu.Graywulf.Scheduler/Scheduler/QueueManager.cs)
    as a class whose fields are its bookkeeping maps, its queue of completion
    events and its poller state. The registry the manager reads and writes,
    and the signals it sends to execution hosts, are fields too, so that each
    method can state what it does to them. */
module QueueManagement {
  import opened Wrappers
  import BK = Bookkeeping
  import opened Lifecycle

  /** Calls into an AppDomain host. */
  datatype HostSignal =
    | Prepare(host: BK.HostId, job: BK.JobGuid, resume: bool)
    | Run(host: BK.HostId, started: BK.Job)
    | TimeOut(host: BK.HostId, job: BK.JobGuid)
    | Cancel(host: BK.HostId, job: BK.JobGuid)
    | Persist(host: BK.HostId, job: BK.JobGuid)
    | Unload(host: BK.HostId)

  lemma PrefixSnoc<T>(s: seq<T>, i: int)
    requires 0 <= i < |s|
    ensures s[..i + 1] == s[..i] + [s[i]] && s[..i + 1][..i] == s[..i]
  {
  }

  /** No element occurs twice. */
  predicate Distinct<T(==)>(s: seq<T>)
  {
    forall i, j :: 0 <= i < j < |s| ==> s[i] != s[j]
  }

  /** `order` is the enumeration order of a dictionary (or of a query result)
      with key set `keys`: every key exactly once. */
  predicate Enumerates<T(==)>(order: seq<T>, keys: set<T>)
  {
    Distinct(order) && (forall k :: 0 <= k < |order| ==> order[k] in keys) && (forall x :: x in keys ==> x in order)
  }

  /** An enumeration visits as many elements as the collection holds, each
      once. */
  lemma {:induction false} EnumerationCounts<T>(order: seq<T>, keys: set<T>)
    requires Enumerates(order, keys)
    ensures |order| == |keys| && multiset(order) == multiset(keys)
    decreases |order|
  {
    if order == [] {
      assert forall x :: x !in keys;
    } else {
      var n := |order| - 1;
      var init := order[..n];
      var last := order[n];
      assert order == init + [last];
      assert last !in init by {
        forall k | 0 <= k < n ensures init[k] != last {
          assert init[k] == order[k];
        }
      }
      var rest := keys - {last};
      forall x | x in rest ensures x in init {
        assert x in order;
        var k :| 0 <= k < |order| && order[k] == x;
        assert k != n;
        assert init[k] == x;
      }
      forall k | 0 <= k < |init| ensures init[k] in rest {
        assert init[k] == order[k];
      }
      EnumerationCounts(init, rest);
      assert keys == rest + {last};
      assert multiset(keys) == multiset(rest) + multiset{last};
    }
  }

  /** The jobs `PollCancellingJobs` returns for the cancel-requested records
      the registry query found: those running in this scheduler, in order. */
  function Owned(byGuid: map<BK.JobGuid, BK.Job>, found: seq<BK.JobGuid>): (r: seq<BK.Job>)
    ensures |r| <= |found|
    decreases |found|
  {
    if found == [] then []
    else
      var g := found[|found| - 1];
      Owned(byGuid, found[..|found| - 1]) + (if g in byGuid then [byGuid[g]] else [])
  }

  /** Cancellation intake keeps exactly the found records that run here: every
      job it returns is a running job whose record was found, and every found
      record that runs here yields its job. */
  lemma {:induction false} OwnedIsLocal(byGuid: map<BK.JobGuid, BK.Job>, found: seq<BK.JobGuid>)
    requires forall g :: g in byGuid ==> byGuid[g].guid == g
    ensures forall j :: j in Owned(byGuid, found) ==> j.guid in found && j.guid in byGuid && byGuid[j.guid] == j
    ensures forall g :: g in found && g in byGuid ==> byGuid[g] in Owned(byGuid, found)
    decreases |found|
  {
    if found != [] {
      var init := found[..|found| - 1];
      var g := found[|found| - 1];
      assert found == init + [g];
      OwnedIsLocal(byGuid, init);
    }
  }

  /** The hosts of `UnloadOldAppDomains`'s query, in enumeration order: no
      running job and idle for longer than the configured period. */
  function IdleOf(hosts: map<BK.HostId, set<BK.JobGuid>>, order: seq<BK.HostId>, now: int, idle: int,
                  lastActive: BK.HostId -> int): (r: seq<BK.HostId>)
    ensures forall h :: h in r <==> h in order && h in hosts && hosts[h] == {} && now - lastActive(h) > idle
    decreases |order|
  {
    if order == [] then []
    else
      var init := order[..|order| - 1];
      var h := order[|order| - 1];
      assert order == init + [h];
      IdleOf(hosts, init, now, idle, lastActive) +
        (if h in hosts && hosts[h] == {} && now - lastActive(h) > idle then [h] else [])
  }

  /** The query keeps no host twice. */
  lemma {:induction false} IdleOfDistinct(hosts: map<BK.HostId, set<BK.JobGuid>>, order: seq<BK.HostId>, now: int,
                                          idle: int, lastActive: BK.HostId -> int)
    requires Distinct(order)
    ensures Distinct(IdleOf(hosts, order, now, idle, lastActive))
    decreases |order|
  {
    if order != [] {
      var init := order[..|order| - 1];
      var h := order[|order| - 1];
      assert forall k :: 0 <= k < |init| ==> init[k] == order[k];
      IdleOfDistinct(hosts, init, now, idle, lastActive);
      assert h !in init;
    }
  }

  /** The signals `UnloadOldAppDomains` sends: one stop-and-unload per host. */
  function Unloads(hs: seq<BK.HostId>): (r: seq<HostSignal>)
    ensures |r| == |hs| && forall k :: 0 <= k < |hs| ==> r[k] == Unload(hs[k])
  {
    seq(|hs|, k requires 0 <= k < |hs| => Unload(hs[k]))
  }

  /** Unloading only idle hosts never unloads a host that runs a job, and
      every idle host goes. */
  lemma UnloadKeepsBusyHosts(b: BK.Books, order: seq<BK.HostId>, now: int, idle: int, lastActive: BK.HostId -> int)
    requires BK.Consistent(b) && Enumerates(order, b.hosts.Keys)
    ensures var r := BK.RemoveHosts(b, IdleOf(b.hosts, order, now, idle, lastActive));
            BK.Consistent(r) &&
            (forall g :: g in b.byGuid ==> b.byGuid[g].host in r.hosts) &&
            (forall h :: h in b.hosts ==> (h in r.hosts <==> b.hosts[h] != {} || now - lastActive(h) <= idle))
  {
    var hs := IdleOf(b.hosts, order, now, idle, lastActive);
    BK.RemoveHostsKeepsConsistent(b, hs);
    forall g | g in b.byGuid ensures b.byGuid[g].host in BK.RemoveHosts(b, hs).hosts {
      assert g in b.hosts[b.byGuid[g].host];
    }
  }

  /** The Failed events `AppDomainHost_UnhandledException` queues, one per
      job in the host's running set, in its enumeration order. */
  function FailEvents(byGuid: map<BK.JobGuid, BK.Job>, order: seq<BK.JobGuid>, ex: Option<Exception>): (r: seq<Event>)
    requires forall k :: 0 <= k < |order| ==> order[k] in byGuid
    ensures |r| == |order| && forall k :: 0 <= k < |order| ==> r[k] == Event(byGuid[order[k]], FailedEvent, ex)
  {
    seq(|order|, k requires 0 <= k < |order| => Event(byGuid[order[k]], FailedEvent, ex))
  }

  /** Every job in a host's running set is filed by guid. */
  lemma HostJobsFiled(b: BK.Books, h: BK.HostId, order: seq<BK.JobGuid>)
    requires BK.Consistent(b) && h in b.hosts
    requires forall k :: 0 <= k < |order| ==> order[k] in b.hosts[h]
    ensures forall k :: 0 <= k < |order| ==> order[k] in b.byGuid && b.byGuid[order[k]].guid == order[k]
  {
    forall k | 0 <= k < |order| ensures order[k] in b.byGuid && b.byGuid[order[k]].guid == order[k] {
      var g := order[k];
      assert g in b.hosts[h];
      assert g in b.byGuid;
      assert b.byGuid[g].guid == g;
    }
  }

  /** A host fault fails every job on the host exactly once: one Failed event
      carrying the fault per job in the host's running set, and no other. */
  lemma HostFaultFailsEachJobOnce(b: BK.Books, h: BK.HostId, order: seq<BK.JobGuid>, ex: Option<Exception>)
    requires BK.Consistent(b) && h in b.hosts && Enumerates(order, b.hosts[h])
    ensures forall k :: 0 <= k < |order| ==> order[k] in b.byGuid
    ensures var es := FailEvents(b.byGuid, order, ex);
            |es| == |b.hosts[h]| && multiset(Guids(es)) == multiset(b.hosts[h]) &&
            forall k :: 0 <= k < |es| ==>
              es[k].kind == FailedEvent && es[k].exception == ex && es[k].job.host == h &&
              es[k].job.guid in b.byGuid && b.byGuid[es[k].job.guid] == es[k].job
  {
    HostJobsFiled(b, h, order);
    var es := FailEvents(b.byGuid, order, ex);
    EnumerationCounts(order, b.hosts[h]);
    assert Guids(es) == order;
  }

  /** The records crash recovery's registry query finds, in its order: any of
      the interrupted flags, in one of the cluster's queues, of any user. */
  ghost predicate FindsInterrupted(found: seq<BK.JobGuid>, reg: Registry, queueIds: set<BK.QueueGuid>)
  {
    Distinct(found) && forall g :: g in found <==> g in reg && reg[g].queue in queueIds && Interrupted(reg[g])
  }

  /** The job after `StartOrResumeJob` prepared it on a host. */
  function Started(job: BK.Job, runId: BK.RunId, host: BK.HostId, now: int): (j: BK.Job)
    ensures j.guid == job.guid && j.queue == job.queue && j.user == job.user
    ensures j.runId == runId && j.host == host && j.status == BK.Executing && j.timeStarted == now
  {
    job.(runId := runId, host := host, timeStarted := now, status := BK.Executing)
  }

  /** The views after `GetOrCreateAppDomainHost`: a new host starts empty, an
      existing one is reused. */
  function WithHost(b: BK.Books, h: BK.HostId): (r: BK.Books)
    ensures h in r.hosts && r.byGuid == b.byGuid && r.byRunId == b.byRunId && r.queues == b.queues
    ensures h in b.hosts ==> r == b
  {
    if h in b.hosts then b else BK.AddHost(b, h)
  }

  lemma WithHostKeepsConsistent(b: BK.Books, h: BK.HostId)
    requires BK.Consistent(b)
    ensures BK.Consistent(WithHost(b, h))
    ensures h !in b.hosts ==> WithHost(b, h).hosts == b.hosts[h := {}]
  {
    if h !in b.hosts {
      BK.AddHostKeepsConsistent(b, h);
    }
  }

  function Guids(es: seq<Event>): (gs: seq<BK.JobGuid>)
    ensures |gs| == |es| && forall k :: 0 <= k < |es| ==> gs[k] == es[k].job.guid
  {
    seq(|es|, k requires 0 <= k < |es| => es[k].job.guid)
  }

  /** How crash recovery rewrites one interrupted record: as the code is
      written, or as its comments intend. */
  function Recover(rec: JobRecord, corrected: bool): JobRecord
  {
    if corrected then RecoveredIntended(rec) else RecoveredAsWritten(rec)
  }

  /** The registry after crash recovery rewrote the records in `order`. */
  function RecoverAll(reg: Registry, order: seq<BK.JobGuid>, corrected: bool): (r: Registry)
    ensures r.Keys == reg.Keys
  {
    map g | g in reg :: if g in order then Recover(reg[g], corrected) else reg[g]
  }

  /** The forced lock releases of crash recovery, in order. */
  function Releases(order: seq<BK.JobGuid>): (r: seq<RegistryCall>)
    ensures |r| == |order| && forall k :: 0 <= k < |order| ==> r[k] == ReleaseLock(order[k], true)
  {
    seq(|order|, k requires 0 <= k < |order| => ReleaseLock(order[k], true))
  }

  /** The registry calls of crash recovery over the records in `order`: a
      forced release per record, and a reschedule after each one that ends
      Failed. */
  function RecoveryLog(reg: Registry, order: seq<BK.JobGuid>, corrected: bool): (r: seq<RegistryCall>)
    requires forall k :: 0 <= k < |order| ==> order[k] in reg
    ensures |order| <= |r| <= 2 * |order|
    ensures forall k :: 0 <= k < |r| ==> r[k].job in order
    decreases |order|
  {
    if order == [] then []
    else
      var g := order[|order| - 1];
      RecoveryLog(reg, order[..|order| - 1], corrected) + RecoveryCalls(g, Recover(reg[g], corrected))
  }

  /** As written, recovery never reschedules: its calls are the forced
      releases alone, one per record. */
  lemma {:induction false} AsWrittenOnlyReleases(reg: Registry, order: seq<BK.JobGuid>)
    requires forall k :: 0 <= k < |order| ==> order[k] in reg
    ensures RecoveryLog(reg, order, false) == Releases(order)
    decreases |order|
  {
    if order != [] {
      var init := order[..|order| - 1];
      var g := order[|order| - 1];
      assert order == init + [g];
      AsWrittenOnlyReleases(reg, init);
      RecoveryAsWrittenStable(reg[g]);
      assert RecoveryCalls(g, RecoveredAsWritten(reg[g])) == [ReleaseLock(g, true)];
      assert Releases(order) == Releases(init) + [ReleaseLock(g, true)];
    }
  }

  lemma RecoveryLogSnoc(reg: Registry, order: seq<BK.JobGuid>, i: int, corrected: bool)
    requires 0 <= i < |order| && forall k :: 0 <= k < |order| ==> order[k] in reg
    ensures RecoveryLog(reg, order[..i + 1], corrected) ==
            RecoveryLog(reg, order[..i], corrected) + RecoveryCalls(order[i], Recover(reg[order[i]], corrected))
  {
    assert order[..i + 1][..i] == order[..i];
  }

  /** The corrected recovery reschedules a found record exactly when the
      record was not Starting, that is, exactly when it ends Failed. */
  lemma {:induction false} IntendedReschedulesFailed(reg: Registry, order: seq<BK.JobGuid>)
    requires Distinct(order) && forall k :: 0 <= k < |order| ==> order[k] in reg
    ensures forall g :: g in order ==>
      (RescheduleIfRecurring(g) in RecoveryLog(reg, order, true) <==> Starting !in reg[g].status)
    decreases |order|
  {
    if order != [] {
      var n := |order| - 1;
      var init := order[..n];
      var last := order[n];
      assert order == init + [last];
      assert Distinct(init) by {
        forall i, j | 0 <= i < j < |init| ensures init[i] != init[j] {
          assert init[i] == order[i] && init[j] == order[j];
        }
      }
      IntendedReschedulesFailed(reg, init);
      var tail := RecoveryCalls(last, Recover(reg[last], true));
      assert RecoveryLog(reg, order, true) == RecoveryLog(reg, init, true) + tail;
      assert last !in init by {
        forall k | 0 <= k < n ensures init[k] != last {
          assert init[k] == order[k];
        }
      }
      assert RescheduleIfRecurring(last) !in RecoveryLog(reg, init, true);
      forall g | g in init ensures RescheduleIfRecurring(g) !in tail {
        assert g != last;
      }
    }
  }

  lemma RecoverAllSnoc(reg: Registry, order: seq<BK.JobGuid>, g: BK.JobGuid, corrected: bool)
    requires g in reg && g !in order
    ensures RecoverAll(reg, order + [g], corrected) ==
            RecoverAll(reg, order, corrected)[g := Recover(RecoverAll(reg, order, corrected)[g], corrected)]
  {
    var a := RecoverAll(reg, order + [g], corrected);
    var b := RecoverAll(reg, order, corrected)[g := Recover(RecoverAll(reg, order, corrected)[g], corrected)];
    forall x | x in reg ensures a[x] == b[x] {
      assert x in order + [g] <==> x in order || x == g;
    }
  }

  /** One step of the recovery loop: rewriting the next record extends both
      the registry and the call log. */
  lemma RecoverStep(reg0: Registry, reg: Registry, found: seq<BK.JobGuid>, i: int, corrected: bool)
    requires 0 <= i < |found| && Distinct(found) && forall k :: 0 <= k < |found| ==> found[k] in reg0
    requires reg == RecoverAll(reg0, found[..i], corrected)
    ensures found[i] in reg && reg[found[i]] == reg0[found[i]]
    ensures reg[found[i] := Recover(reg[found[i]], corrected)] == RecoverAll(reg0, found[..i + 1], corrected)
    ensures RecoveryLog(reg0, found[..i + 1], corrected) ==
            RecoveryLog(reg0, found[..i], corrected) + RecoveryCalls(found[i], Recover(reg[found[i]], corrected))
  {
    PrefixSnoc(found, i);
    assert found[i] !in found[..i] by {
      forall j | 0 <= j < i ensures found[..i][j] != found[i] {
        assert found[..i][j] == found[j];
      }
    }
    RecoverAllSnoc(reg0, found[..i], found[i], corrected);
    RecoveryLogSnoc(reg0, found, i, corrected);
  }

  /** The query's records are registry records, each found once. */
  lemma FoundIsDistinct(found: seq<BK.JobGuid>, reg: Registry, queueIds: set<BK.QueueGuid>)
    requires FindsInterrupted(found, reg, queueIds)
    ensures forall i :: 0 <= i < |found| ==> found[i] in reg && found[i] !in found[..i]
  {
    forall i | 0 <= i < |found| ensures found[i] in reg && found[i] !in found[..i] {
      var g := found[i];
      assert g in found;
      assert g in reg;
      forall x | x in found[..i] ensures x != g {
        var j :| 0 <= j < i && found[..i][j] == x;
        assert found[j] == x;
      }
    }
  }

  /** After crash recovery as written the search finds nothing more: every
      record it found is Scheduled, and every other record is as it was. */
  lemma RecoveryEmptiesSearch(reg: Registry, found: seq<BK.JobGuid>, queueIds: set<BK.QueueGuid>)
    requires FindsInterrupted(found, reg, queueIds)
    ensures var r := RecoverAll(reg, found, false);
            (forall g :: g in r && r[g].queue in queueIds ==> !Interrupted(r[g])) &&
            (forall g :: g in found ==> r[g].status == {Scheduled}) &&
            (forall g :: g in reg && g !in found ==> r[g] == reg[g])
  {
    var r := RecoverAll(reg, found, false);
    forall g | g in r && r[g].queue in queueIds ensures !Interrupted(r[g]) {
      if g in found {
        RecoveryAsWrittenStable(reg[g]);
      }
    }
  }

  /** After the corrected recovery the search finds nothing more either: a
      record that was Starting is Scheduled again, every other record found
      is Failed with the unexpected-shutdown message, and the rest are as
      they were. */
  lemma IntendedRecoveryEmptiesSearch(reg: Registry, found: seq<BK.JobGuid>, queueIds: set<BK.QueueGuid>)
    requires FindsInterrupted(found, reg, queueIds)
    ensures var r := RecoverAll(reg, found, true);
            (forall g :: g in r && r[g].queue in queueIds ==> !Interrupted(r[g])) &&
            (forall g :: g in found && Starting in reg[g].status ==> r[g].status == {Scheduled}) &&
            (forall g :: g in found && Starting !in reg[g].status ==>
               r[g].status == {Failed} && r[g].exceptionMessage == Some(UnexpectedShutdownMessage)) &&
            (forall g :: g in reg && g !in found ==> r[g] == reg[g])
  {
    var r := RecoverAll(reg, found, true);
    forall g | g in r && r[g].queue in queueIds ensures !Interrupted(r[g]) {
      if g in found {
        IntendedRecoveryStable(reg[g]);
      }
    }
  }

  /** The manager's invariant over its views and its event queue: the views
      agree, and every queued event is about a job that is filed under its
      own identity. */
  ghost predicate Inv(b: BK.Books, es: seq<Event>)
  {
    BK.Consistent(b) &&
    forall k :: 0 <= k < |es| ==> es[k].job.guid in b.byGuid && BK.SameIdentity(es[k].job, b.byGuid[es[k].job.guid])
  }

  lemma SetStatusKeepsInv(b: BK.Books, es: seq<Event>, g: BK.JobGuid, st: BK.JobStatus)
    requires Inv(b, es) && g in b.byGuid
    ensures Inv(BK.SetStatus(b, g, st), es)
  {
    BK.SetStatusKeepsConsistent(b, g, st);
    BK.SetStatusKeepsIdentity(b, g, st);
  }

  /** Adding a job that is filed nowhere keeps the invariant. */
  lemma AddKeepsInv(b: BK.Books, es: seq<Event>, j: BK.Job)
    requires Inv(b, es) && BK.CanAdd(b, j)
    ensures Inv(BK.AddJob(b, j), es)
  {
    BK.AddKeepsConsistent(b, j);
    BK.AddJobFiles(b, j);
  }

  /** Picking a host keeps the invariant. */
  lemma WithHostKeepsInv(b: BK.Books, es: seq<Event>, h: BK.HostId)
    requires Inv(b, es)
    ensures Inv(WithHost(b, h), es)
  {
    WithHostKeepsConsistent(b, h);
  }

  /** Queuing an event about a filed job keeps the invariant. */
  lemma EnqueueKeepsInv(b: BK.Books, es: seq<Event>, e: Event)
    requires Inv(b, es) && e.job.guid in b.byGuid && BK.SameIdentity(e.job, b.byGuid[e.job.guid])
    ensures Inv(b, es + [e])
  {
  }

  /** The job under a run id is filed under its own identity. */
  lemma FiledByRunId(b: BK.Books, r: BK.RunId)
    requires BK.Consistent(b) && r in b.byRunId
    ensures b.byRunId[r].guid in b.byGuid && b.byGuid[b.byRunId[r].guid] == b.byRunId[r]
  {
  }

  /** Unloading idle hosts keeps the invariant. */
  lemma UnloadKeepsInv(b: BK.Books, es: seq<Event>, order: seq<BK.HostId>, now: int, idle: int,
                       lastActive: BK.HostId -> int)
    requires Inv(b, es) && Enumerates(order, b.hosts.Keys)
    ensures Inv(BK.RemoveHosts(b, IdleOf(b.hosts, order, now, idle, lastActive)), es)
  {
    UnloadKeepsBusyHosts(b, order, now, idle, lastActive);
  }

  /** Draining the whole event queue leaves the views consistent and none of
      the drained jobs filed. */
  lemma DrainKeepsInv(b: BK.Books, es: seq<Event>)
    requires Inv(b, es)
    ensures forall k :: 0 <= k < |es| ==> BK.CanRemove(b, JobsOf(es)[k])
    ensures Inv(BK.RemoveAll(b, JobsOf(es)), [])
    ensures forall k :: 0 <= k < |es| ==>
      es[k].job.guid !in BK.RemoveAll(b, JobsOf(es)).byGuid && es[k].job.runId !in BK.RemoveAll(b, JobsOf(es)).byRunId
  {
    var js := JobsOf(es);
    forall k | 0 <= k < |js| ensures BK.FiledOrGone(b, js[k]) && BK.CanRemove(b, js[k]) {
      assert js[k] == es[k].job;
      var g := es[k].job.guid;
      assert g in b.hosts[b.byGuid[g].host];
    }
    BK.RemoveAllClears(b, js);
    if js != [] {
      BK.RemoveAllKeeps(b, js, js[0]);
    }
  }

  class QueueManager {
    var byRunId: map<BK.RunId, BK.Job>
    var byGuid: map<BK.JobGuid, BK.Job>
    var hosts: map<BK.HostId, set<BK.JobGuid>>
    var queues: map<BK.QueueGuid, BK.Queue>
    var events: seq<Event>
    var registry: Registry
    var registryLog: seq<RegistryCall>
    var signals: seq<HostSignal>
    var poller: Poller

    function Books(): BK.Books
      reads this
    {
      BK.Books(byRunId, byGuid, hosts, queues)
    }

    ghost predicate Valid()
      reads this
    {
      Inv(Books(), events)
    }

    /** `Start` creating empty maps and event queue over the loaded cluster. */
    constructor (cluster: map<BK.QueueGuid, BK.Queue>, reg: Registry)
      requires forall q :: q in cluster ==> cluster[q].jobs == {}
      ensures Valid()
      ensures byRunId == map[] && byGuid == map[] && hosts == map[] && queues == cluster && events == []
      ensures registry == reg && registryLog == [] && signals == [] && poller == Poller(false, false)
    {
      byRunId := map[];
      byGuid := map[];
      hosts := map[];
      queues := cluster;
      events := [];
      registry := reg;
      registryLog := [];
      signals := [];
      poller := Poller(false, false);
    }

    method StartPoller() returns (err: Option<PollerError>)
      modifies this
      ensures err.None? <==> Lifecycle.StartPoller(old(poller)).Ok?
      ensures err.Some? ==> err.value == Lifecycle.StartPoller(old(poller)).error && poller == old(poller)
      ensures err.None? ==> poller == Lifecycle.StartPoller(old(poller)).value
      ensures Books() == old(Books()) && events == old(events) && registry == old(registry)
      ensures registryLog == old(registryLog) && signals == old(signals)
    {
      if !poller.running {
        poller := Poller(true, false);
        err := None;
      } else {
        err := Some(PollerHasAlreadyStarted);
      }
    }

    method StopPoller() returns (err: Option<PollerError>)
      modifies this
      ensures err.None? <==> Lifecycle.StopPoller(old(poller)).Ok?
      ensures err.Some? ==> err.value == Lifecycle.StopPoller(old(poller)).error && poller == old(poller)
      ensures err.None? ==> poller == Lifecycle.StopPoller(old(poller)).value
      ensures Books() == old(Books()) && events == old(events) && registry == old(registry)
      ensures registryLog == old(registryLog) && signals == old(signals)
    {
      if !poller.running {
        err := Some(PollerHasNotStarted);
        return;
      }
      poller := poller.(stopRequested := true);
      poller := poller.(running := false);
      err := None;
    }

    method BookkeepAddJob(job: BK.Job)
      requires BK.CanAdd(Books(), job)
      modifies this
      ensures Books() == BK.AddJob(old(Books()), job)
      ensures events == old(events) && registry == old(registry) && registryLog == old(registryLog)
      ensures signals == old(signals) && poller == old(poller)
    {
      byRunId := byRunId[job.runId := job];
      byGuid := byGuid[job.guid := job];
      hosts := hosts[job.host := hosts[job.host] + {job.guid}];
      var q := queues[job.queue];
      queues := queues[job.queue := q.(jobs := q.jobs + {job.guid})];
      queues := queues[job.queue := queues[job.queue].(lastUser := Some(job.user))];
    }

    method BookkeepRemoveJob(job: BK.Job)
      requires BK.CanRemove(Books(), job)
      modifies this
      ensures Books() == BK.RemoveJob(old(Books()), job)
      ensures events == old(events) && registry == old(registry) && registryLog == old(registryLog)
      ensures signals == old(signals) && poller == old(poller)
    {
      byGuid := byGuid - {job.guid};
      byRunId := byRunId - {job.runId};
      var q := queues[job.queue];
      queues := queues[job.queue := q.(jobs := q.jobs - {job.guid})];
      hosts := hosts[job.host := hosts[job.host] - {job.guid}];
    }

    /** `PollNewJobs` for queue `qid`: asks the registry query `findNext` for
        as many jobs as the queue admits, after its last-served user, and
        takes each record in. */
    method PollNewJobs(qid: BK.QueueGuid, findNext: (BK.QueueGuid, Option<BK.UserGuid>, int) -> seq<BK.JobGuid>,
                       fails: BK.JobGuid -> bool)
      returns (r: Option<seq<BK.Job>>)
      requires qid in queues
      modifies this
      ensures (registry, r) ==
        Poll(old(registry), findNext(qid, old(queues[qid].lastUser), BK.Admission(old(queues[qid]))), fails)
      ensures byRunId == old(byRunId) && byGuid == old(byGuid) && hosts == old(hosts) && queues == old(queues)
      ensures events == old(events) && registryLog == old(registryLog) && signals == old(signals) && poller == old(poller)
    {
      var maxjobs := queues[qid].maxOutstandingJobs - |queues[qid].jobs|;
      var found := findNext(qid, queues[qid].lastUser, maxjobs);
      var reg;
      reg, r := IntakeAll(registry, found, fails);
      registry := reg;
    }

    /** The loop of `PollNewJobs` over the records found, on the registry's
        state `reg0`: stops with `None` at the first record that cannot be
        loaded or is neither Scheduled nor Persisted. */
    static method IntakeAll(reg0: Registry, found: seq<BK.JobGuid>, fails: BK.JobGuid -> bool)
      returns (reg: Registry, r: Option<seq<BK.Job>>)
      ensures (reg, r) == Poll(reg0, found, fails)
    {
      reg := reg0;
      var res: seq<BK.Job> := [];
      assert found[0..] == found;
      for i := 0 to |found|
        invariant Poll(reg0, found, fails) == PollFrom(reg, res, found[i..], fails)
      {
        var g := found[i];
        assert found[i..][0] == g && found[i..][1..] == found[i + 1..];
        PollStep(reg, res, found[i..], fails);
        if fails(g) || g !in reg {
          r := None;
          return;
        }
        var rec := reg[g];
        var st: BK.JobStatus;
        if Scheduled in rec.status {
          st := BK.JobStatus.Starting;
          rec := rec.(status := {Starting});
        } else if Persisted in rec.status {
          rec := rec.(status := Toggle(rec.status, Persisted));
          rec := rec.(status := rec.status + {Starting});
          st := BK.Resuming;
        } else {
          r := None;
          return;
        }
        reg := reg[g := rec];
        res := res + [NewJob(g, rec, st)];
      }
      assert found[|found|..] == [];
      r := Some(res);
    }

    /** `PollCancellingJobs`: of the cancel-requested records the registry
        query found, the jobs running here; `None` when the query fails. */
    method PollCancellingJobs(found: seq<BK.JobGuid>, fails: bool) returns (r: Option<seq<BK.Job>>)
      ensures fails ==> r == None
      ensures !fails ==> r == Some(Owned(byGuid, found))
    {
      if fails {
        return None;
      }
      var res: seq<BK.Job> := [];
      for i := 0 to |found|
        invariant res == Owned(byGuid, found[..i])
      {
        assert found[..i + 1][..i] == found[..i];
        if found[i] in byGuid {
          res := res + [byGuid[found[i]]];
        }
      }
      assert found[..|found|] == found;
      r := Some(res);
    }

    /** `StartOrResumeJob`: locks and stamps the record, picks the host
        (`hostId`, `isNewHost` stand for the AppDomain manager's answer),
        prepares the job there (its run id is `runId`), runs it and files it.
        `fails` stands for an exception while loading, locking or saving the
        record, which ends the call. Two exceptions escape after the record
        was locked (`thrown`): a host reported as new under an id that is
        already registered (the duplicate key of `appDomains.Add`), which
        leaves the views as they were, and a job that is neither Starting
        nor Resuming, which throws after the host was picked. */
    method StartOrResumeJob(job: BK.Job, fails: bool, now: int, hostId: BK.HostId, isNewHost: bool, runId: BK.RunId)
      returns (thrown: bool)
      requires Valid()
      requires job.guid !in byGuid && runId !in byRunId && job.queue in queues
      modifies this
      ensures Valid()
      ensures thrown <==>
        (!fails && job.guid in old(registry) &&
         ((isNewHost && hostId in old(hosts)) || (job.status != BK.JobStatus.Starting && job.status != BK.Resuming)))
      ensures fails || job.guid !in old(registry) ==>
        byRunId == old(byRunId) && byGuid == old(byGuid) && hosts == old(hosts) && queues == old(queues) &&
        registry == old(registry) && registryLog == old(registryLog) && signals == old(signals)
      ensures !fails && job.guid in old(registry) ==>
        registry == old(registry)[job.guid := old(registry)[job.guid].(dateStarted := Some(now))] &&
        registryLog == old(registryLog) + [ObtainLock(job.guid)]
      ensures thrown && isNewHost && hostId in old(hosts) ==> Books() == old(Books()) && signals == old(signals)
      ensures thrown && !(isNewHost && hostId in old(hosts)) ==>
        Books() == WithHost(old(Books()), hostId) && signals == old(signals)
      ensures !fails && job.guid in old(registry) && !thrown ==>
        var j := Started(job, runId, hostId, now);
        signals == old(signals) + [Prepare(hostId, job.guid, job.status == BK.Resuming), Run(hostId, j)] &&
        BK.CanAdd(WithHost(old(Books()), hostId), j) &&
        Books() == BK.AddJob(WithHost(old(Books()), hostId), j)
      ensures events == old(events) && poller == old(poller)
    {
      thrown := false;
      if fails || job.guid !in registry {
        return;
      }
      registry := registry[job.guid := registry[job.guid].(dateStarted := Some(now))];
      registryLog := registryLog + [ObtainLock(job.guid)];
      ghost var b0 := Books();
      WithHostKeepsInv(b0, events, hostId);
      var duplicate := GetOrCreateAppDomainHost(hostId, isNewHost);
      if duplicate {
        thrown := true;
        return;
      }
      ghost var b1 := Books();
      if job.status != BK.JobStatus.Starting && job.status != BK.Resuming {
        thrown := true;
        return;
      }
      var started := Started(job, runId, hostId, now);
      assert BK.CanAdd(b1, started);
      AddKeepsInv(b1, events, started);
      PrepareAndRun(hostId, job.guid, job.status == BK.Resuming, started);
    }

    /** `GetOrCreateAppDomainHost`: a new host starts with no running jobs;
        an existing host is reused as it is. A host reported as new under an
        id already in `appDomains` makes `Dictionary.Add` throw (`thrown`)
        before anything changes. */
    method GetOrCreateAppDomainHost(hostId: BK.HostId, isNewHost: bool) returns (thrown: bool)
      modifies this
      ensures thrown <==> isNewHost && hostId in old(hosts)
      ensures thrown ==> hosts == old(hosts)
      ensures !thrown ==> Books() == WithHost(old(Books()), hostId)
      ensures byRunId == old(byRunId) && byGuid == old(byGuid) && queues == old(queues)
      ensures events == old(events) && registry == old(registry) && registryLog == old(registryLog)
      ensures signals == old(signals) && poller == old(poller)
    {
      thrown := false;
      if isNewHost || hostId !in hosts {
        if hostId in hosts {
          thrown := true;
          return;
        }
        hosts := hosts[hostId := {}];
      }
    }

    /** The end of `StartOrResumeJob`: asks the host to prepare the workflow
        (resuming it or starting it afresh), to run it, and files the job. */
    method PrepareAndRun(hostId: BK.HostId, g: BK.JobGuid, resume: bool, started: BK.Job)
      requires BK.CanAdd(Books(), started)
      modifies this
      ensures signals == old(signals) + [Prepare(hostId, g, resume), Run(hostId, started)]
      ensures Books() == BK.AddJob(old(Books()), started)
      ensures events == old(events) && registry == old(registry) && registryLog == old(registryLog)
      ensures poller == old(poller)
    {
      signals := signals + [Prepare(hostId, g, resume)];
      signals := signals + [Run(hostId, started)];
      BookkeepAddJob(started);
    }

    /** `CancelOrTimeOutJob`: marks the record Cancelling, then changes the
        job's status and signals its host. `fails` stands for an exception
        while loading or saving the record, which ends the call. */
    method CancelOrTimeOutJob(g: BK.JobGuid, timeout: bool, fails: bool)
      requires Valid() && g in byGuid
      modifies this
      ensures Valid()
      ensures fails || g !in old(registry) ==>
        byRunId == old(byRunId) && byGuid == old(byGuid) && registry == old(registry) && signals == old(signals)
      ensures !fails && g in old(registry) ==>
        registry == old(registry)[g := old(registry)[g].(status := {Cancelling})] &&
        Books() == BK.SetStatus(old(Books()), g, if timeout then BK.TimedOut else BK.Cancelled) &&
        signals == old(signals) + [if timeout then TimeOut(old(byGuid)[g].host, g) else Cancel(old(byGuid)[g].host, g)]
      ensures hosts == old(hosts) && queues == old(queues)
      ensures events == old(events) && registryLog == old(registryLog) && poller == old(poller)
    {
      if fails || g !in registry {
        return;
      }
      registry := registry[g := registry[g].(status := {Cancelling})];
      var job := byGuid[g];
      ghost var st := if timeout then BK.TimedOut else BK.Cancelled;
      SetStatusKeepsInv(Books(), events, g, st);
      if timeout {
        job := job.(status := BK.TimedOut);
        signals := signals + [TimeOut(job.host, g)];
      } else {
        job := job.(status := BK.Cancelled);
        signals := signals + [Cancel(job.host, g)];
      }
      byGuid := byGuid[g := job];
      byRunId := byRunId[job.runId := job];
    }

    /** `PersistJob`: marks the record Persisting, asks the host to persist
        the job and marks the job Persisted. */
    method PersistJob(g: BK.JobGuid, fails: bool)
      requires Valid() && g in byGuid
      modifies this
      ensures Valid()
      ensures fails || g !in old(registry) ==>
        byRunId == old(byRunId) && byGuid == old(byGuid) && registry == old(registry) && signals == old(signals)
      ensures !fails && g in old(registry) ==>
        registry == old(registry)[g := old(registry)[g].(status := {Persisting})] &&
        Books() == BK.SetStatus(old(Books()), g, BK.Persisted) &&
        signals == old(signals) + [Persist(old(byGuid)[g].host, g)]
      ensures hosts == old(hosts) && queues == old(queues)
      ensures events == old(events) && registryLog == old(registryLog) && poller == old(poller)
    {
      if fails || g !in registry {
        return;
      }
      registry := registry[g := registry[g].(status := {Persisting})];
      var job := byGuid[g];
      SetStatusKeepsInv(Books(), events, g, BK.Persisted);
      signals := signals + [Persist(job.host, g)];
      job := job.(status := BK.Persisted);
      byGuid := byGuid[g := job];
      byRunId := byRunId[job.runId := job];
    }

    /** `FinishJob`: queues the host's completion event for the job running
        under `runId`. */
    method FinishJob(runId: BK.RunId, kind: EventKind, ex: Option<Exception>)
      requires Valid() && runId in byRunId
      modifies this
      ensures Valid()
      ensures events == old(events) + [Event(old(byRunId)[runId], kind, ex)]
      ensures byRunId == old(byRunId) && byGuid == old(byGuid) && hosts == old(hosts) && queues == old(queues)
      ensures registry == old(registry) && registryLog == old(registryLog) && signals == old(signals) && poller == old(poller)
    {
      FiledByRunId(Books(), runId);
      EnqueueKeepsInv(Books(), events, Event(byRunId[runId], kind, ex));
      events := events + [Event(byRunId[runId], kind, ex)];
    }

    /** `FailJob`: queues a Failed event for the job. */
    method FailJob(job: BK.Job, ex: Option<Exception>)
      modifies this
      ensures events == old(events) + [Event(job, FailedEvent, ex)]
      ensures byRunId == old(byRunId) && byGuid == old(byGuid) && hosts == old(hosts) && queues == old(queues)
      ensures registry == old(registry) && registryLog == old(registryLog) && signals == old(signals) && poller == old(poller)
    {
      events := events + [Event(job, FailedEvent, ex)];
    }

    /** `AppDomainHost_UnhandledException`: one Failed event carrying the
        fault for every job in the host's running set, taken in the set's
        enumeration order `order`. */
    method HostFault(h: BK.HostId, ex: Option<Exception>, order: seq<BK.JobGuid>)
      requires Valid() && h in hosts && Enumerates(order, hosts[h])
      modifies this
      ensures Valid()
      ensures forall k :: 0 <= k < |order| ==> order[k] in old(byGuid)
      ensures events == old(events) + FailEvents(old(byGuid), order, ex)
      ensures byRunId == old(byRunId) && byGuid == old(byGuid) && hosts == old(hosts) && queues == old(queues)
      ensures registry == old(registry) && registryLog == old(registryLog) && signals == old(signals) && poller == old(poller)
    {
      HostJobsFiled(Books(), h, order);
      for i := 0 to |order|
        invariant Valid()
        invariant forall k :: 0 <= k < |order| ==> order[k] in byGuid
        invariant events == old(events) + FailEvents(byGuid, order[..i], ex)
        invariant byRunId == old(byRunId) && byGuid == old(byGuid) && hosts == old(hosts) && queues == old(queues)
        invariant registry == old(registry) && registryLog == old(registryLog) && signals == old(signals)
        invariant poller == old(poller)
      {
        var g := order[i];
        EnqueueKeepsInv(Books(), events, Event(byGuid[g], FailedEvent, ex));
        FailJob(byGuid[g], ex);
        assert FailEvents(byGuid, order[..i + 1], ex) == FailEvents(byGuid, order[..i], ex) + [Event(byGuid[g], FailedEvent, ex)];
      }
      assert order[..|order|] == order;
    }

    /** `ProcessFinishedJob`: the registry update for one completion event. */
    method ProcessFinishedJob(e: Event, now: int, fails: BK.JobGuid -> bool)
      modifies this
      ensures (registry, registryLog) == FinishStep(old(registry), old(registryLog), e, now, fails)
      ensures byRunId == old(byRunId) && byGuid == old(byGuid) && hosts == old(hosts) && queues == old(queues)
      ensures events == old(events) && signals == old(signals) && poller == old(poller)
    {
      var g := e.job.guid;
      if fails(g) || g !in registry {
        return;
      }
      var rec := registry[g];
      match e.kind {
        case CompletedEvent => rec := rec.(status := {Completed});
        case CancelledEvent => rec := rec.(status := {Cancelled});
        case TimedOutEvent => rec := rec.(status := {TimedOut});
        case PersistedEvent => rec := rec.(status := {Persisted});
        case FailedEvent =>
          var m := ExceptionMessage(e.exception);
          if m.None? {
            return;
          }
          rec := rec.(status := {Failed}, exceptionMessage := m);
      }
      rec := rec.(dateFinished := Some(now));
      registry := registry[g := rec];
      registryLog := registryLog + [ReleaseLock(g, false), RescheduleIfRecurring(g)];
    }

    /** `ProcessFinishedJobs`: drains the event queue first to last, updating
        the registry and removing each event's job from the views. A job with
        several events is removed once; the later removals change nothing. */
    method ProcessFinishedJobs(now: int, fails: BK.JobGuid -> bool)
      requires Valid()
      modifies this
      ensures Valid() && events == []
      ensures Books() == BK.RemoveAll(old(Books()), JobsOf(old(events)))
      ensures (registry, registryLog) == Drain(old(registry), old(registryLog), old(events), now, fails)
      ensures forall k :: 0 <= k < |old(events)| ==>
        old(events)[k].job.guid !in byGuid && old(events)[k].job.runId !in byRunId
      ensures signals == old(signals) && poller == old(poller)
    {
      DrainKeepsInv(Books(), events);
      DrainEvents(now, fails);
    }

    /** The loop of `ProcessFinishedJobs`: dequeue, update the registry, remove
        the job. */
    method DrainEvents(now: int, fails: BK.JobGuid -> bool)
      requires forall k :: 0 <= k < |events| ==> BK.CanRemove(Books(), JobsOf(events)[k])
      modifies this
      ensures events == []
      ensures Books() == BK.RemoveAll(old(Books()), JobsOf(old(events)))
      ensures (registry, registryLog) == Drain(old(registry), old(registryLog), old(events), now, fails)
      ensures signals == old(signals) && poller == old(poller)
    {
      ghost var b0 := Books();
      ghost var es0 := events;
      ghost var js0 := JobsOf(events);
      ghost var reg0 := registry;
      ghost var log0 := registryLog;
      ghost var i := 0;
      assert es0[..0] == [] && js0[..0] == [];
      while events != []
        invariant 0 <= i <= |es0| && events == es0[i..]
        invariant Books() == BK.RemoveAll(b0, js0[..i])
        invariant (registry, registryLog) == Drain(reg0, log0, es0[..i], now, fails)
        invariant signals == old(signals) && poller == old(poller)
        decreases |events|
      {
        var e := events[0];
        assert e == es0[i] && e.job == js0[i];
        events := events[1..];
        ProcessFinishedJob(e, now, fails);
        DrainSnoc(reg0, log0, es0[..i], e, now, fails);
        PrefixSnoc(es0, i);
        BK.RemoveAllSnoc(b0, js0, i);
        BookkeepRemoveJob(e.job);
        i := i + 1;
      }
      assert es0[..i] == es0 && js0[..i] == js0;
    }

    /** The query of `UnloadOldAppDomains` over the host map, enumerated in
        `order`. */
    method IdleHosts(now: int, idle: int, lastActive: BK.HostId -> int, order: seq<BK.HostId>)
      returns (adhs: seq<BK.HostId>)
      requires forall k :: 0 <= k < |order| ==> order[k] in hosts
      ensures adhs == IdleOf(hosts, order, now, idle, lastActive)
    {
      adhs := [];
      for i := 0 to |order|
        invariant adhs == IdleOf(hosts, order[..i], now, idle, lastActive)
      {
        PrefixSnoc(order, i);
        var h := order[i];
        if hosts[h] == {} && now - lastActive(h) > idle {
          adhs := adhs + [h];
        }
      }
      assert order[..|order|] == order;
    }

    /** `UnloadOldAppDomains`: collects the idle hosts in the host map's
        enumeration order `order`, then stops, unloads and forgets each. */
    method UnloadOldAppDomains(now: int, idle: int, lastActive: BK.HostId -> int, order: seq<BK.HostId>)
      requires Valid() && Enumerates(order, hosts.Keys)
      modifies this
      ensures Valid()
      ensures Books() == BK.RemoveHosts(old(Books()), IdleOf(old(hosts), order, now, idle, lastActive))
      ensures signals == old(signals) + Unloads(IdleOf(old(hosts), order, now, idle, lastActive))
      ensures events == old(events) && registry == old(registry) && registryLog == old(registryLog)
      ensures poller == old(poller)
    {
      var adhs := IdleHosts(now, idle, lastActive, order);
      UnloadKeepsInv(Books(), events, order, now, idle, lastActive);
      UnloadHosts(adhs);
    }

    /** The loop of `UnloadOldAppDomains`: stops, unloads and forgets each
        host of `adhs` in turn. */
    method UnloadHosts(adhs: seq<BK.HostId>)
      modifies this
      ensures Books() == BK.RemoveHosts(old(Books()), adhs)
      ensures signals == old(signals) + Unloads(adhs)
      ensures events == old(events) && registry == old(registry) && registryLog == old(registryLog)
      ensures poller == old(poller)
    {
      ghost var b0 := Books();
      for i := 0 to |adhs|
        invariant Books() == BK.RemoveHosts(b0, adhs[..i])
        invariant signals == old(signals) + Unloads(adhs[..i])
        invariant events == old(events) && registry == old(registry) && registryLog == old(registryLog)
        invariant poller == old(poller)
      {
        BK.RemoveHostsSnoc(b0, adhs[..i], adhs[i]);
        PrefixSnoc(adhs, i);
        assert Unloads(adhs[..i + 1]) == Unloads(adhs[..i]) + [Unload(adhs[i])];
        signals := signals + [Unload(adhs[i])];
        hosts := hosts - {adhs[i]};
      }
      assert adhs[..|adhs|] == adhs;
    }

    /** `ProcessInterruptedJobs` as written: every record the registry query
        `found` returns has its lock force-released and is rewound to
        Scheduled; none is rescheduled. */
    method ProcessInterruptedJobs(found: seq<BK.JobGuid>)
      requires FindsInterrupted(found, registry, queues.Keys)
      modifies this
      ensures registry == RecoverAll(old(registry), found, false)
      ensures registryLog == old(registryLog) + Releases(found)
      ensures byRunId == old(byRunId) && byGuid == old(byGuid) && hosts == old(hosts) && queues == old(queues)
      ensures events == old(events) && signals == old(signals) && poller == old(poller)
    {
      FoundIsDistinct(found, registry, queues.Keys);
      AsWrittenOnlyReleases(registry, found);
      var reg, log := RecoverEach(registry, registryLog, found, false);
      registry, registryLog := reg, log;
    }

    /** `ProcessInterruptedJobs` as its comments intend: the branch tests the
        record's own status, so only a record that was Starting is rewound to
        Scheduled; the others fail with the unexpected-shutdown message and
        are rescheduled if recurring. */
    method ProcessInterruptedJobsIntended(found: seq<BK.JobGuid>)
      requires FindsInterrupted(found, registry, queues.Keys)
      modifies this
      ensures forall k :: 0 <= k < |found| ==> found[k] in old(registry)
      ensures registry == RecoverAll(old(registry), found, true)
      ensures registryLog == old(registryLog) + RecoveryLog(old(registry), found, true)
      ensures byRunId == old(byRunId) && byGuid == old(byGuid) && hosts == old(hosts) && queues == old(queues)
      ensures events == old(events) && signals == old(signals) && poller == old(poller)
    {
      FoundIsDistinct(found, registry, queues.Keys);
      var reg, log := RecoverEach(registry, registryLog, found, true);
      registry, registryLog := reg, log;
    }

    /** The loop of `ProcessInterruptedJobs`, on the registry's state `reg0`
        and its call log `log0`; the calls of this run are collected in
        `calls` and appended to the log. */
    static method RecoverEach(reg0: Registry, log0: seq<RegistryCall>, found: seq<BK.JobGuid>, corrected: bool)
      returns (reg: Registry, log: seq<RegistryCall>)
      requires Distinct(found) && forall k :: 0 <= k < |found| ==> found[k] in reg0
      ensures reg == RecoverAll(reg0, found, corrected)
      ensures log == log0 + RecoveryLog(reg0, found, corrected)
    {
      reg := reg0;
      var calls: seq<RegistryCall> := [];
      assert found[..0] == [];
      assert RecoverAll(reg0, [], corrected) == reg0;
      for i := 0 to |found|
        invariant reg == RecoverAll(reg0, found[..i], corrected)
        invariant calls == RecoveryLog(reg0, found[..i], corrected)
      {
        var g := found[i];
        RecoverStep(reg0, reg, found, i, corrected);
        var recovered := Recover(reg[g], corrected);
        calls := calls + RecoveryCalls(g, recovered);
        reg := reg[g := recovered];
      }
      assert found[..|found|] == found;
      log := log0 + calls;
    }
  }
}
