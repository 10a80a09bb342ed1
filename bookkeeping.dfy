/** The scheduler's four views of its running jobs
    (dll/Jhu.Graywulf.Scheduler/Scheduler/QueueManager.cs): running jobs by
    workflow run id, by job guid, by execution host (the AppDomain host's
    running-job set) and by queue (the queue's job set and last-served user).

    C# dictionaries of job objects become maps of job values; the host and
    queue dictionaries keyed by job guid become sets of guids. Guids and
    AppDomain ids are integers. */
module Bookkeeping {
  import opened Wrappers

  type JobGuid = int
  type RunId = int
  type HostId = int
  type QueueGuid = int
  type UserGuid = int

  /** The in-memory job status (`JobStatus`). */
  datatype JobStatus = Starting | Resuming | Executing | Cancelled | TimedOut | Persisted

  /** An in-memory job. `runId` (the workflow instance id) and `host` (the
      AppDomain id) hold their default 0 until the job is started. */
  datatype Job = Job(
    guid: JobGuid,
    queue: QueueGuid,
    user: UserGuid,
    timeout: int,
    workflowType: string,
    status: JobStatus,
    runId: RunId,
    host: HostId,
    timeStarted: int)

  datatype Queue = Queue(maxOutstandingJobs: int, timeout: int, jobs: set<JobGuid>, lastUser: Option<UserGuid>)

  datatype Books = Books(
    byRunId: map<RunId, Job>,
    byGuid: map<JobGuid, Job>,
    hosts: map<HostId, set<JobGuid>>,
    queues: map<QueueGuid, Queue>)

  /** Two values of the same job object: the fields that file it (guid, run
      id, host and queue) agree. `CancelOrTimeOutJob` and `PersistJob` change
      only its status in place. */
  predicate SameIdentity(a: Job, b: Job)
  {
    a.guid == b.guid && a.runId == b.runId && a.host == b.host && a.queue == b.queue
  }

  /** The views agree: each job is filed under its own guid and run id, in the
      running set of its own host and in the job set of its own queue, and the
      host and queue sets hold nothing else. */
  ghost predicate Consistent(b: Books)
  {
    GuidsFiled(b) && RunIdsFiled(b) && HostsFiled(b) && QueuesFiled(b)
  }

  ghost predicate GuidsFiled(b: Books)
  {
    forall g :: g in b.byGuid ==>
      var j := b.byGuid[g];
      j.guid == g && j.runId in b.byRunId && b.byRunId[j.runId] == j &&
      j.host in b.hosts && g in b.hosts[j.host] &&
      j.queue in b.queues && g in b.queues[j.queue].jobs
  }

  ghost predicate RunIdsFiled(b: Books)
  {
    forall r :: r in b.byRunId ==>
      b.byRunId[r].runId == r && b.byRunId[r].guid in b.byGuid && b.byGuid[b.byRunId[r].guid] == b.byRunId[r]
  }

  ghost predicate HostsFiled(b: Books)
  {
    forall h, g :: h in b.hosts && g in b.hosts[h] ==> g in b.byGuid && b.byGuid[g].host == h
  }

  ghost predicate QueuesFiled(b: Books)
  {
    forall q, g :: q in b.queues && g in b.queues[q].jobs ==> g in b.byGuid && b.byGuid[g].queue == q
  }

  /** The demands of `BookkeepAddJob`'s `Dictionary.Add` calls (no duplicate
      key) and indexers (host and queue exist). */
  predicate CanAdd(b: Books, j: Job)
  {
    j.guid !in b.byGuid && j.runId !in b.byRunId && j.host in b.hosts && j.queue in b.queues &&
    j.guid !in b.hosts[j.host] && j.guid !in b.queues[j.queue].jobs
  }

  /** `BookkeepAddJob`: the job is filed in all four views and becomes its
      queue's last-served user. */
  function AddJob(b: Books, j: Job): (r: Books)
    requires CanAdd(b, j)
    ensures r.hosts.Keys == b.hosts.Keys && r.queues.Keys == b.queues.Keys
  {
    var q := b.queues[j.queue];
    Books(
      b.byRunId[j.runId := j],
      b.byGuid[j.guid := j],
      b.hosts[j.host := b.hosts[j.host] + {j.guid}],
      b.queues[j.queue := q.(jobs := q.jobs + {j.guid}, lastUser := Some(j.user))])
  }

  /** After `BookkeepAddJob` the job is under its run id, its guid, its
      host's running set and its queue's job set, its owner is the queue's
      last user, and nothing else is filed or unfiled. */
  lemma AddJobFiles(b: Books, j: Job)
    requires CanAdd(b, j)
    ensures var r := AddJob(b, j);
            r.byGuid[j.guid] == j && r.byRunId[j.runId] == j &&
            j.guid in r.hosts[j.host] && j.guid in r.queues[j.queue].jobs &&
            r.queues[j.queue].lastUser == Some(j.user) &&
            r.byGuid.Keys == b.byGuid.Keys + {j.guid} && r.byRunId.Keys == b.byRunId.Keys + {j.runId}
    ensures var r := AddJob(b, j);
            (forall g :: g in b.byGuid ==> r.byGuid[g] == b.byGuid[g]) &&
            (forall x :: x in b.byRunId ==> r.byRunId[x] == b.byRunId[x]) &&
            (forall h :: h in b.hosts ==> r.hosts[h] == if h == j.host then b.hosts[h] + {j.guid} else b.hosts[h]) &&
            (forall q :: q in b.queues && q != j.queue ==> r.queues[q] == b.queues[q]) &&
            r.queues[j.queue] == b.queues[j.queue].(jobs := b.queues[j.queue].jobs + {j.guid}, lastUser := Some(j.user))
  {
  }

  /** `BookkeepAddJob` keeps the views consistent. */
  lemma AddKeepsConsistent(b: Books, j: Job)
    requires Consistent(b) && CanAdd(b, j)
    ensures Consistent(AddJob(b, j))
  {
  }

  /** The demands of `BookkeepRemoveJob`'s indexers. */
  predicate CanRemove(b: Books, j: Job)
  {
    j.host in b.hosts && j.queue in b.queues
  }

  /** `BookkeepRemoveJob`: the job's guid and run id are removed from the four
      views; removing an absent key changes nothing. */
  function RemoveJob(b: Books, j: Job): (r: Books)
    requires CanRemove(b, j)
    ensures r.hosts.Keys == b.hosts.Keys && r.queues.Keys == b.queues.Keys
    ensures r.byGuid.Keys <= b.byGuid.Keys && r.byRunId.Keys <= b.byRunId.Keys
  {
    var q := b.queues[j.queue];
    Books(
      b.byRunId - {j.runId},
      b.byGuid - {j.guid},
      b.hosts[j.host := b.hosts[j.host] - {j.guid}],
      b.queues[j.queue := q.(jobs := q.jobs - {j.guid})])
  }

  /** After `BookkeepRemoveJob` the job's guid and run id are in none of the
      four views, and everything else is as it was. */
  lemma RemoveJobClears(b: Books, j: Job)
    requires CanRemove(b, j)
    ensures var r := RemoveJob(b, j);
            j.guid !in r.byGuid && j.runId !in r.byRunId &&
            j.guid !in r.hosts[j.host] && j.guid !in r.queues[j.queue].jobs
    ensures var r := RemoveJob(b, j);
            (forall g :: g in b.byGuid && g != j.guid ==> g in r.byGuid && r.byGuid[g] == b.byGuid[g]) &&
            (forall x :: x in b.byRunId && x != j.runId ==> x in r.byRunId && r.byRunId[x] == b.byRunId[x]) &&
            (forall h :: h in b.hosts && h != j.host ==> r.hosts[h] == b.hosts[h]) &&
            (forall q :: q in b.queues && q != j.queue ==> r.queues[q] == b.queues[q]) &&
            r.queues[j.queue].maxOutstandingJobs == b.queues[j.queue].maxOutstandingJobs &&
            r.queues[j.queue].lastUser == b.queues[j.queue].lastUser
  {
  }

  /** Removing the filed job (or a stale copy of it) keeps the views consistent. */
  lemma RemoveKeepsConsistent(b: Books, j: Job)
    requires Consistent(b) && CanRemove(b, j)
    requires j.guid in b.byGuid && SameIdentity(j, b.byGuid[j.guid])
    ensures Consistent(RemoveJob(b, j))
  {
    RemoveKeepsGuidsFiled(b, j);
    RemoveKeepsRunIdsFiled(b, j);
  }

  lemma RemoveKeepsGuidsFiled(b: Books, j: Job)
    requires Consistent(b) && CanRemove(b, j)
    requires j.guid in b.byGuid && SameIdentity(j, b.byGuid[j.guid])
    ensures GuidsFiled(RemoveJob(b, j))
  {
    var r := RemoveJob(b, j);
    forall g | g in r.byGuid
      ensures r.byGuid[g].runId in r.byRunId && r.byRunId[r.byGuid[g].runId] == r.byGuid[g]
    {
      assert g != j.guid;
      assert b.byRunId[b.byGuid[g].runId] == b.byGuid[g];
      assert b.byGuid[g].runId != j.runId by {
        assert b.byRunId[j.runId] == b.byGuid[j.guid];
      }
    }
  }

  lemma RemoveKeepsRunIdsFiled(b: Books, j: Job)
    requires Consistent(b) && CanRemove(b, j)
    requires j.guid in b.byGuid && SameIdentity(j, b.byGuid[j.guid])
    ensures RunIdsFiled(RemoveJob(b, j))
  {
    var r := RemoveJob(b, j);
    forall x | x in r.byRunId
      ensures r.byRunId[x].guid in r.byGuid
    {
      assert x != j.runId;
      var jx := b.byRunId[x];
      assert jx.guid in b.byGuid;
      assert b.byGuid[jx.guid] == jx;
      assert jx.guid != j.guid by {
        assert b.byGuid[j.guid].runId == j.runId;
      }
    }
  }

  /** Removing a job whose guid and run id are no longer filed changes nothing:
      a second removal of the same job is harmless. */
  lemma RemoveAbsentIsNoOp(b: Books, j: Job)
    requires Consistent(b) && CanRemove(b, j)
    requires j.guid !in b.byGuid && j.runId !in b.byRunId
    ensures RemoveJob(b, j) == b
  {
    var r := RemoveJob(b, j);
    assert b.hosts[j.host] - {j.guid} == b.hosts[j.host];
    assert b.queues[j.queue].jobs - {j.guid} == b.queues[j.queue].jobs;
    assert r.byGuid == b.byGuid && r.byRunId == b.byRunId;
    assert r.hosts == b.hosts;
    assert r.queues == b.queues;
  }

  /** `BookkeepRemoveJob` twice is `BookkeepRemoveJob` once. */
  lemma RemoveIdempotent(b: Books, j: Job)
    requires CanRemove(b, j)
    ensures CanRemove(RemoveJob(b, j), j)
    ensures RemoveJob(RemoveJob(b, j), j) == RemoveJob(b, j)
  {
    var r := RemoveJob(b, j);
    var rr := RemoveJob(r, j);
    assert r.hosts[j.host] - {j.guid} == r.hosts[j.host];
    assert r.queues[j.queue].jobs - {j.guid} == r.queues[j.queue].jobs;
    assert rr.hosts == r.hosts;
    assert rr.queues == r.queues;
  }

  /** Adding a job and removing it again restores the views, except that the
      queue remembers the user. */
  lemma AddThenRemove(b: Books, j: Job)
    requires Consistent(b) && CanAdd(b, j)
    ensures var r := RemoveJob(AddJob(b, j), j);
            r.byGuid == b.byGuid && r.byRunId == b.byRunId && r.hosts == b.hosts &&
            r.queues == b.queues[j.queue := b.queues[j.queue].(lastUser := Some(j.user))]
  {
    var r := RemoveJob(AddJob(b, j), j);
    AddJobFiles(b, j);
    assert r.byGuid == b.byGuid;
    assert r.byRunId == b.byRunId;
    assert r.hosts[j.host] == b.hosts[j.host];
    assert r.hosts == b.hosts;
    assert r.queues[j.queue].jobs == b.queues[j.queue].jobs;
  }

  /** A job is in all four views or in none of them. */
  lemma AllFourOrNone(b: Books, g: JobGuid)
    requires Consistent(b)
    ensures g in b.byGuid <==> exists r :: r in b.byRunId && b.byRunId[r].guid == g
    ensures g in b.byGuid <==> exists h :: h in b.hosts && g in b.hosts[h]
    ensures g in b.byGuid <==> exists q :: q in b.queues && g in b.queues[q].jobs
  {
    if g in b.byGuid {
      var j := b.byGuid[g];
      assert j.runId in b.byRunId && b.byRunId[j.runId].guid == g;
      assert j.host in b.hosts && g in b.hosts[j.host];
      assert j.queue in b.queues && g in b.queues[j.queue].jobs;
    }
  }

  /** The number of jobs `PollNewJobs` asks a queue for. */
  function Admission(q: Queue): (n: int)
    ensures n + |q.jobs| == q.maxOutstandingJobs
  {
    q.maxOutstandingJobs - |q.jobs|
  }

  ghost function JobsOfQueue(b: Books, qid: QueueGuid): set<JobGuid>
  {
    set g | g in b.byGuid && b.byGuid[g].queue == qid
  }

  /** The admission of a queue is its limit minus the jobs of that queue
      currently running in this scheduler. */
  lemma AdmissionCountsRunningJobs(b: Books, qid: QueueGuid)
    requires Consistent(b) && qid in b.queues
    ensures Admission(b.queues[qid]) == b.queues[qid].maxOutstandingJobs - |JobsOfQueue(b, qid)|
  {
    forall g | g in b.queues[qid].jobs ensures g in JobsOfQueue(b, qid) { }
    forall g | g in JobsOfQueue(b, qid) ensures g in b.queues[qid].jobs { }
    assert b.queues[qid].jobs == JobsOfQueue(b, qid);
  }

  /** Starting a job in a queue lowers its admission by one; removing it
      raises it again. */
  lemma AdmissionMovesByOne(b: Books, j: Job)
    requires Consistent(b) && CanAdd(b, j)
    ensures Admission(AddJob(b, j).queues[j.queue]) == Admission(b.queues[j.queue]) - 1
    ensures Admission(RemoveJob(AddJob(b, j), j).queues[j.queue]) == Admission(b.queues[j.queue])
  {
    var r := RemoveJob(AddJob(b, j), j);
    AddJobFiles(b, j);
    assert r.queues[j.queue].jobs == b.queues[j.queue].jobs;
  }

  /** `GetOrCreateAppDomainHost` registering a new host with no running jobs. */
  function AddHost(b: Books, h: HostId): (r: Books)
    requires h !in b.hosts
    ensures r.byGuid == b.byGuid && r.byRunId == b.byRunId && r.queues == b.queues
  {
    b.(hosts := b.hosts[h := {}])
  }

  /** A new host runs nothing, so the views stay consistent. */
  lemma AddHostKeepsConsistent(b: Books, h: HostId)
    requires Consistent(b) && h !in b.hosts
    ensures Consistent(AddHost(b, h)) && AddHost(b, h).hosts[h] == {}
  {
  }

  /** `UnloadOldAppDomains` dropping the hosts in `hs`. */
  function RemoveHosts(b: Books, hs: seq<HostId>): (r: Books)
    ensures r.byGuid == b.byGuid && r.byRunId == b.byRunId && r.queues == b.queues
  {
    b.(hosts := map h | h in b.hosts && h !in hs :: b.hosts[h])
  }

  /** Dropping hosts that run nothing keeps the views consistent and every
      other host as it was. */
  lemma RemoveHostsKeepsConsistent(b: Books, hs: seq<HostId>)
    requires Consistent(b)
    requires forall h :: h in b.hosts && h in hs ==> b.hosts[h] == {}
    ensures Consistent(RemoveHosts(b, hs))
    ensures forall h :: h in RemoveHosts(b, hs).hosts <==> h in b.hosts && h !in hs
  {
    var r := RemoveHosts(b, hs);
    forall g | g in r.byGuid ensures r.byGuid[g].host in r.hosts {
      var h := b.byGuid[g].host;
      assert g in b.hosts[h];
    }
  }

  lemma RemoveHostsSnoc(b: Books, hs: seq<HostId>, h: HostId)
    ensures RemoveHosts(b, hs + [h]) == RemoveHosts(b, hs).(hosts := RemoveHosts(b, hs).hosts - {h})
  {
    var x := RemoveHosts(b, hs + [h]).hosts;
    var y := RemoveHosts(b, hs).hosts - {h};
    forall z ensures z in x <==> z in y {
      assert z in hs + [h] <==> z in hs || z == h;
    }
    assert x == y;
  }

  /** A status change of a running job object, seen through both job maps. */
  function SetStatus(b: Books, g: JobGuid, st: JobStatus): (r: Books)
    requires g in b.byGuid
    ensures r.hosts == b.hosts && r.queues == b.queues
  {
    var j := b.byGuid[g].(status := st);
    b.(byGuid := b.byGuid[g := j], byRunId := b.byRunId[j.runId := j])
  }

  /** A status change only touches the job itself: it now has the new
      status, and every job keeps its identity. */
  lemma SetStatusKeepsIdentity(b: Books, g: JobGuid, st: JobStatus)
    requires g in b.byGuid
    ensures var r := SetStatus(b, g, st);
            r.byGuid.Keys == b.byGuid.Keys &&
            r.byGuid[g] == b.byGuid[g].(status := st) &&
            (forall x :: x in b.byGuid && x != g ==> r.byGuid[x] == b.byGuid[x]) &&
            (forall x :: x in b.byGuid ==> SameIdentity(r.byGuid[x], b.byGuid[x]))
  {
  }

  /** A status change moves no job between views. */
  lemma SetStatusKeepsConsistent(b: Books, g: JobGuid, st: JobStatus)
    requires Consistent(b) && g in b.byGuid
    ensures Consistent(SetStatus(b, g, st))
    ensures SetStatus(b, g, st).byRunId.Keys == b.byRunId.Keys
  {
    var r := SetStatus(b, g, st);
    var j := b.byGuid[g];
    assert j.runId in b.byRunId;
    forall x | x in r.byGuid
      ensures var y := r.byGuid[x]; y.guid == x && y.runId in r.byRunId && r.byRunId[y.runId] == y
    {
      if x != g {
        var y := b.byGuid[x];
        assert y.runId != j.runId;
      }
    }
    forall x | x in r.byRunId
      ensures r.byRunId[x].runId == x && r.byRunId[x].guid in r.byGuid && r.byGuid[r.byRunId[x].guid] == r.byRunId[x]
    {
      if x != j.runId {
        assert b.byRunId[x].guid != g;
      }
    }
  }

  /** A job is filed under its own identity, or its guid and run id are both
      gone: the jobs of the queued completion events are always one or the
      other, even when a job raised several events. */
  predicate FiledOrGone(b: Books, j: Job)
  {
    CanRemove(b, j) &&
    ((j.guid in b.byGuid && SameIdentity(j, b.byGuid[j.guid])) ||
     (j.guid !in b.byGuid && j.runId !in b.byRunId))
  }

  /** Removing the jobs of a sequence of events, first to last. */
  function RemoveAll(b: Books, js: seq<Job>): (r: Books)
    requires forall k :: 0 <= k < |js| ==> CanRemove(b, js[k])
    ensures r.hosts.Keys == b.hosts.Keys && r.queues.Keys == b.queues.Keys
    ensures r.byGuid.Keys <= b.byGuid.Keys && r.byRunId.Keys <= b.byRunId.Keys
    decreases |js|
  {
    if js == [] then b
    else
      var init := js[..|js| - 1];
      assert forall k :: 0 <= k < |init| ==> CanRemove(b, init[k]) by {
        forall k | 0 <= k < |init| ensures CanRemove(b, init[k]) {
          assert init[k] == js[k];
        }
      }
      assert CanRemove(b, js[|js| - 1]);
      RemoveJob(RemoveAll(b, init), js[|js| - 1])
  }

  /** Draining one more event removes one more job. */
  lemma RemoveAllSnoc(b: Books, js: seq<Job>, i: int)
    requires 0 <= i < |js|
    requires forall k :: 0 <= k < |js| ==> CanRemove(b, js[k])
    ensures CanRemove(RemoveAll(b, js[..i]), js[i])
    ensures RemoveAll(b, js[..i + 1]) == RemoveJob(RemoveAll(b, js[..i]), js[i])
  {
    assert js[..i + 1][..i] == js[..i];
  }

  /** One removal keeps every other job filed or gone. */
  lemma RemoveKeepsFiledOrGone(b: Books, j: Job, other: Job)
    requires Consistent(b) && FiledOrGone(b, j) && FiledOrGone(b, other)
    ensures FiledOrGone(RemoveJob(b, j), other)
  {
    var r := RemoveJob(b, j);
    if other.guid in b.byGuid && SameIdentity(other, b.byGuid[other.guid]) && other.guid != j.guid {
      assert r.byGuid[other.guid] == b.byGuid[other.guid];
    }
    if other.guid == j.guid && j.guid in b.byGuid {
      assert other.runId == j.runId;
    }
  }

  /** Draining the jobs of the queued events, duplicates included, keeps the
      views consistent and keeps every other job filed or gone. */
  lemma {:induction false} RemoveAllKeeps(b: Books, js: seq<Job>, other: Job)
    requires Consistent(b) && FiledOrGone(b, other)
    requires forall k :: 0 <= k < |js| ==> FiledOrGone(b, js[k])
    requires forall k :: 0 <= k < |js| ==> CanRemove(b, js[k])
    ensures Consistent(RemoveAll(b, js)) && FiledOrGone(RemoveAll(b, js), other)
    decreases |js|
  {
    if js != [] {
      var n := |js| - 1;
      var init := js[..n];
      forall k | 0 <= k < |init| ensures FiledOrGone(b, init[k]) && CanRemove(b, init[k]) {
        assert init[k] == js[k];
      }
      RemoveAllKeeps(b, init, js[n]);
      RemoveAllKeeps(b, init, other);
      var b1 := RemoveAll(b, init);
      if js[n].guid in b1.byGuid {
        RemoveKeepsConsistent(b1, js[n]);
      } else {
        RemoveAbsentIsNoOp(b1, js[n]);
      }
      RemoveKeepsFiledOrGone(b1, js[n], other);
    }
  }

  /** ... and leaves none of those jobs filed. */
  lemma {:induction false} RemoveAllClears(b: Books, js: seq<Job>)
    requires Consistent(b)
    requires forall k :: 0 <= k < |js| ==> FiledOrGone(b, js[k])
    requires forall k :: 0 <= k < |js| ==> CanRemove(b, js[k])
    ensures forall k :: 0 <= k < |js| ==>
      js[k].guid !in RemoveAll(b, js).byGuid && js[k].runId !in RemoveAll(b, js).byRunId
    decreases |js|
  {
    if js != [] {
      var n := |js| - 1;
      var init := js[..n];
      forall k | 0 <= k < |init| ensures FiledOrGone(b, init[k]) && CanRemove(b, init[k]) {
        assert init[k] == js[k];
      }
      RemoveAllClears(b, init);
      var b1 := RemoveAll(b, init);
      assert CanRemove(b1, js[n]);
      RemoveJobClears(b1, js[n]);
      forall k | 0 <= k < n
        ensures js[k].guid !in RemoveAll(b, js).byGuid && js[k].runId !in RemoveAll(b, js).byRunId
      {
        assert js[k] == init[k];
      }
    }
  }
}
