/** The life of a job: every accepted job is in exactly one place, over whole runs of the job queue. */
module JobLifecycle {
  import opened BoundedQueue
  import opened JobQueueService

  /** What the service itself does not record: which jobs it accepted, and those that left its maps. */
  datatype Ledger = Ledger(accepted: set<string>, submissions: nat,
                           handed: set<string>, delivered: set<string>, dropped: set<string>)

  const NO_JOBS := Ledger({}, 0, {}, {}, {})

  type Queues = map<string, QueueState<Job>>

  /** The job at a position of a queue. */
  predicate Pends(q: Queues, name: string, i: nat, id: string) {
    name in q && i < |q[name].items| && q[name].items[i].id == id
  }

  function PendingIds(q: Queues): set<string> {
    set n, i | n in q && 0 <= i < |q[n].items| :: q[n].items[i].id
  }

  /** Bookkeeping beside a step: an accepted submission, a job handed straight to a worker, a result delivered,
      jobs lost from cleared or removed queues. */
  function Record(s: State, l: Ledger, ev: Event): Ledger {
    var (s', reply) := Step(s, ev);
    match ev
    case Submit(job, _, _) =>
      if reply.JobId? then l.(accepted := l.accepted + {job.id}, submissions := l.submissions + 1)
      else if reply.Handed? then
        l.(accepted := l.accepted + {job.id}, submissions := l.submissions + 1, handed := l.handed + {job.id})
      else l
    case SetResult(result) => if reply.Done? then l.(handed := l.handed - {result.id}) else l
    case GetResult(jobId, _) => if reply.Result? then l.(delivered := l.delivered + {jobId}) else l
    case ManageQueues(_) => l.(dropped := l.dropped + (PendingIds(s.queues) - PendingIds(s'.queues)))
    case _ => l
  }

  function One(b: bool): nat { if b then 1 else 0 }

  /** In how many places a job is: pending, with a worker it was handed to directly, in progress, completed,
      delivered, dropped. */
  function Places(s: State, l: Ledger, id: string): nat {
    One(id in PendingIds(s.queues)) + One(id in l.handed) + One(id in s.inProgress) + One(id in s.completed)
    + One(id in l.delivered) + One(id in l.dropped)
  }

  /** Every accepted job is in exactly one place, and no other job is anywhere. */
  ghost predicate Conserved(s: State, l: Ledger) {
    forall id :: Places(s, l, id) == One(id in l.accepted)
  }

  ghost predicate NoneTwice(q: Queues) {
    forall m, n, i: nat, j: nat, id :: Pends(q, m, i, id) && Pends(q, n, j, id) ==> m == n && i == j
  }

  predicate Finished(job: Job) { job.progress == 100.0 && job.completed }

  /** Completed jobs have progress 100 and are counted; queues are bounded, and have waiting-workers queues. */
  ghost predicate Sound(s: State, l: Ledger) {
    && l.submissions == |l.accepted|
    && s.completedJobs == |s.completed| + |l.delivered|
    && (forall k :: k in s.completed ==> s.completed[k].id == k && Finished(s.completed[k]))
    && (forall k :: k in s.inProgress ==> s.inProgress[k].id == k)
    && Staffed(s)
    && (forall n :: n in s.queues ==> |s.queues[n].items| <= s.queues[n].size)
  }

  ghost predicate Inv(s: State, l: Ledger) {
    Conserved(s, l) && NoneTwice(s.queues) && Sound(s, l)
  }

  /** Submitted ids are new, and workers report only jobs they hold. */
  predicate Guard(s: State, l: Ledger, ev: Event) {
    match ev
    case Submit(job, _, _) => Record(s, l, ev) == l || job.id !in l.accepted
    case SetResult(result) => result.id == "" || result.id in s.inProgress || result.id in l.handed
    case _ => true
  }

  lemma PendingIff(q: Queues, id: string)
    ensures id in PendingIds(q) <==> exists n, i: nat :: Pends(q, n, i, id)
  {
    forall n: string, i: nat | Pends(q, n, i, id) ensures id in PendingIds(q) {}
    if id in PendingIds(q) {
      var n, i :| n in q && 0 <= i < |q[n].items| && q[n].items[i].id == id;
      assert Pends(q, n, i, id);
    }
  }

  // ----- how the queues change -----

  lemma PushPends(q: Queues, name: string, job: Job, q': Queues)
    requires name in q && q' == q[name := Push(q[name], job).0] && Push(q[name], job).1
    requires NoneTwice(q) && job.id !in PendingIds(q)
    ensures NoneTwice(q') && PendingIds(q') == PendingIds(q) + {job.id}
  {
    var end := |q[name].items|;
    forall n, i: nat, id
      ensures Pends(q', n, i, id) <==> Pends(q, n, i, id) || (n == name && i == end && id == job.id) {}
    PendingIff(q, job.id);
    assert Pends(q', name, end, job.id);
    forall id ensures id in PendingIds(q') <==> id in PendingIds(q) + {job.id} {
      PendingIff(q, id);
      PendingIff(q', id);
    }
  }

  lemma PopPends(q: Queues, name: string, job: Job, q': Queues)
    requires name in q && Pop(q[name]).1 == Got(job) && q' == q[name := Pop(q[name]).0]
    requires NoneTwice(q)
    ensures NoneTwice(q') && job.id in PendingIds(q) && PendingIds(q') == PendingIds(q) - {job.id}
  {
    hide PendingIds;
    assert Pends(q, name, 0, job.id);
    PendingIff(q, job.id);
    forall m, n, i: nat, j: nat, id | Pends(q', m, i, id) && Pends(q', n, j, id) ensures m == n && i == j {
      assert Pends(q, m, if m == name then i + 1 else i, id) && Pends(q, n, if n == name then j + 1 else j, id);
    }
    forall id ensures id in PendingIds(q') <==> id in PendingIds(q) - {job.id} { PopPendsOne(q, name, job, q', id); }
  }

  lemma PopPendsOne(q: Queues, name: string, job: Job, q': Queues, id: string)
    requires name in q && Pop(q[name]).1 == Got(job) && q' == q[name := Pop(q[name]).0]
    requires NoneTwice(q)
    ensures id in PendingIds(q') <==> id in PendingIds(q) && id != job.id
  {
    hide PendingIds;
    PendingIff(q, id);
    PendingIff(q', id);
    assert Pends(q, name, 0, job.id);
    if id in PendingIds(q') {
      var n, i: nat :| Pends(q', n, i, id);
      assert Pends(q, n, if n == name then i + 1 else i, id);
    }
    if id in PendingIds(q) && id != job.id {
      var n, i: nat :| Pends(q, n, i, id);
      assert Pends(q', n, if n == name then i - 1 else i, id);
    }
  }

  /** Every queue that is left is empty, or as it was. */
  ghost predicate Shrunk(q: Queues, q': Queues) {
    forall n :: n in q' ==> q'[n].items == [] || (n in q && q'[n].items == q[n].items && q'[n].size == q[n].size)
  }

  lemma ShrinkPends(q: Queues, q': Queues)
    requires NoneTwice(q) && Shrunk(q, q')
    ensures NoneTwice(q') && PendingIds(q') <= PendingIds(q)
  {
    assert forall n, i: nat, id :: Pends(q', n, i, id) ==> Pends(q, n, i, id);
    forall id | id in PendingIds(q') ensures id in PendingIds(q) {
      PendingIff(q, id);
      PendingIff(q', id);
    }
  }

  lemma ShrunkTwice(q: Queues, q1: Queues, q2: Queues)
    requires Shrunk(q, q1) && Shrunk(q1, q2)
    ensures Shrunk(q, q2)
  {
    assert forall n :: n in q2 && q2[n].items != [] ==> n in q1 && n in q;
  }

  ghost predicate Staffed(s: State) { forall n :: n in s.queues ==> n in s.workersAwaiting }

  /** What management leaves alone. */
  predicate SameJobs(s: State, s': State) {
    s'.inProgress == s.inProgress && s'.completed == s.completed && s'.completedJobs == s.completedJobs
  }

  /** Only the queues differ, which hold fewer jobs. */
  ghost predicate OnlyShrunk(s: State, s': State) {
    && Shrunk(s.queues, s'.queues) && SameJobs(s, s')
    && s'.queues.Keys <= s.queues.Keys && s'.workersAwaiting == s.workersAwaiting
  }

  lemma SweepsShrink(s: State, state: bool)
    ensures OnlyShrunk(s, s) && OnlyShrunk(s, ClearAll(s)) && OnlyShrunk(s, RemoveAll(s))
    ensures OnlyShrunk(s, SwitchAll(s, state))
  {
  }

  lemma OnlyShrunkTwice(s: State, s1: State, s2: State)
    requires OnlyShrunk(s, s1) && OnlyShrunk(s1, s2)
    ensures OnlyShrunk(s, s2)
  {
    ShrunkTwice(s.queues, s1.queues, s2.queues);
  }

  lemma ManageAllShrinks(s: State, m: Manage)
    ensures OnlyShrunk(s, ManageAll(s, m))
  {
    hide ClearAll, RemoveAll, SwitchAll, OnlyShrunk;
    var s1 := if m.clearAll then ClearAll(s) else s;
    var s2 := if m.removeAll then RemoveAll(s1) else s1;
    var state := if m.switchAll.Some? then m.switchAll.value else false;
    SweepsShrink(s, state);
    SweepsShrink(s1, state);
    SweepsShrink(s2, state);
    OnlyShrunkTwice(s, s1, s2);
    OnlyShrunkTwice(s, s2, ManageAll(s, m));
  }

  lemma ManageOneShrinks(s: State, m: Manage)
    requires m.queue in s.queues
    ensures OnlyShrunk(s, ManageOne(s, m))
  {
  }

  lemma InitQueueShrinks(s: State, name: string, size: nat)
    requires Staffed(s)
    ensures var s' := InitQueue(s, name, size).0; Shrunk(s.queues, s'.queues) && SameJobs(s, s') && Staffed(s')
  {
  }

  /** Management only takes jobs away, and keeps a waiting-workers queue for every queue. */
  lemma ManageShrinks(s: State, m: Manage)
    requires Staffed(s)
    ensures var s' := ManageStep(s, m).0; Shrunk(s.queues, s'.queues) && SameJobs(s, s') && Staffed(s')
  {
    hide ManageAll, ManageOne, InitQueue, Shrunk;
    var s1, s2 := ManageAll(s, m), ManageStep(s, m).0;
    ManageAllShrinks(s, m);
    if m.queue != "" && m.create.Some? {
      InitQueueShrinks(s1, m.queue, m.create.value);
      ShrunkTwice(s.queues, s1.queues, s2.queues);
    } else if m.queue in s1.queues {
      ManageOneShrinks(s1, m);
      ShrunkTwice(s.queues, s1.queues, s2.queues);
    }
  }

  // ----- one step -----

  /** A submission adds its job at the end of its queue, hands it to a worker, or leaves all jobs where they are. */
  lemma SubmitMoves(s: State, job: Job, hasParameters: bool, delivered: bool)
    requires Staffed(s)
    ensures var (s', reply) := Step(s, Submit(job, hasParameters, delivered));
            && SameJobs(s, s') && Staffed(s')
            && (if reply.JobId? then
                  && job.moduleName in s.queues && Push(s.queues[job.moduleName], job).1
                  && s'.queues == s.queues[job.moduleName := Push(s.queues[job.moduleName], job).0]
                else s'.queues == s.queues)
  {
    hide Pop;
  }

  lemma AcceptedOnce(s: State, l: Ledger, s': State, l': Ledger, id: string)
    requires Conserved(s, l) && id !in l.accepted && SameJobs(s, s')
    requires l'.accepted == l.accepted + {id} && l'.delivered == l.delivered && l'.dropped == l.dropped
    requires || (PendingIds(s'.queues) == PendingIds(s.queues) + {id} && l'.handed == l.handed)
             || (s'.queues == s.queues && l'.handed == l.handed + {id})
    ensures Conserved(s', l')
  {
    hide PendingIds;
    forall k ensures Places(s', l', k) == One(k in l'.accepted) {
      assert Places(s, l, k) == One(k in l.accepted);
    }
  }

  lemma SubmitKeeps(s: State, l: Ledger, job: Job, hasParameters: bool, delivered: bool)
    requires Inv(s, l) && Guard(s, l, Submit(job, hasParameters, delivered))
    ensures Inv(Step(s, Submit(job, hasParameters, delivered)).0, Record(s, l, Submit(job, hasParameters, delivered)))
  {
    hide Step, PendingIds, Places, Conserved, NoneTwice, Push;
    var ev := Submit(job, hasParameters, delivered);
    var (s', reply) := Step(s, ev);
    var l' := Record(s, l, ev);
    SubmitMoves(s, job, hasParameters, delivered);
    if reply.JobId? || reply.Handed? {
      assert l' != l;
      assert job.id !in l.accepted;
      NotPending(s, l, job.id);
      if reply.JobId? { PushPends(s.queues, job.moduleName, job, s'.queues); }
      AcceptedOnce(s, l, s', l', job.id);
    } else {
      SameStays(s, l, s');
    }
    SubmitSound(s, l, s', l', job);
  }

  lemma SubmitSound(s: State, l: Ledger, s': State, l': Ledger, job: Job)
    requires Sound(s, l) && SameJobs(s, s') && Staffed(s') && l'.delivered == l.delivered
    requires || (l'.accepted == l.accepted && l'.submissions == l.submissions)
             || (l'.accepted == l.accepted + {job.id} && job.id !in l.accepted && l'.submissions == l.submissions + 1)
    requires || s'.queues == s.queues
             || (&& job.moduleName in s.queues
                 && s'.queues == s.queues[job.moduleName := Push(s.queues[job.moduleName], job).0])
    ensures Sound(s', l')
  {
    hide Staffed;
  }

  lemma NotPending(s: State, l: Ledger, id: string)
    requires Conserved(s, l) && id !in l.accepted
    ensures id !in PendingIds(s.queues) && id !in l.handed && id !in s.inProgress && id !in s.completed
    ensures id !in l.delivered && id !in l.dropped
  {
    assert Places(s, l, id) == 0;
  }

  lemma SameStays(s: State, l: Ledger, s': State)
    requires Conserved(s, l) && SameJobs(s, s') && PendingIds(s'.queues) == PendingIds(s.queues)
    ensures Conserved(s', l)
  {
    forall k ensures Places(s', l, k) == One(k in l.accepted) {
      assert Places(s, l, k) == One(k in l.accepted);
    }
  }

  lemma GetWorkKeeps(s: State, l: Ledger, name: string, worker: Worker)
    requires Inv(s, l)
    ensures Inv(Step(s, GetWork(name, worker)).0, Record(s, l, GetWork(name, worker)))
  {
    var ev := GetWork(name, worker);
    var (s', reply) := Step(s, ev);
    if reply.Work? {
      PopPends(s.queues, name, reply.job, s'.queues);
      assert Places(s, l, reply.job.id) == One(reply.job.id in l.accepted);
    } else {
      assert s'.queues == s.queues;
    }
    forall id ensures Places(s', l, id) == One(id in l.accepted) {
      assert Places(s, l, id) == One(id in l.accepted);
    }
  }

  lemma SetResultKeeps(s: State, l: Ledger, result: Job)
    requires Inv(s, l) && result.id != "" && (result.id in s.inProgress || result.id in l.handed)
    ensures Inv(Step(s, SetResult(result)).0, Record(s, l, SetResult(result)))
  {
    hide PendingIds, Sound, NoneTwice;
    var s', l' := Step(s, SetResult(result)).0, Record(s, l, SetResult(result));
    assert Places(s, l, result.id) == One(result.id in l.accepted);
    ResultSound(s, l, result);
    forall id ensures Places(s', l', id) == One(id in l'.accepted) {
      assert Places(s, l, id) == One(id in l.accepted);
    }
  }

  lemma OneMore<V>(m: map<string, V>, k: string, v: V)
    requires k !in m
    ensures |m[k := v]| == |m| + 1
  {
    assert m[k := v].Keys == m.Keys + {k};
    assert |m[k := v].Keys| == |m.Keys| + 1;
  }

  lemma ResultSound(s: State, l: Ledger, result: Job)
    requires Sound(s, l) && result.id != "" && result.id !in s.completed
    ensures Sound(Step(s, SetResult(result)).0, Record(s, l, SetResult(result)))
  {
    hide PendingIds, Staffed;
    OneMore(s.completed, result.id, result.WithProgress(100.0));
    var s' := Step(s, SetResult(result)).0;
    assert s'.completedJobs == |s'.completed| + |l.delivered|;
    assert forall k :: k in s'.completed ==> s'.completed[k].id == k && Finished(s'.completed[k]);
    assert Staffed(s') == Staffed(s) by { StaffedSame(s, s'); }
  }

  lemma StaffedSame(s: State, s': State)
    requires s'.queues == s.queues && s'.workersAwaiting == s.workersAwaiting
    ensures Staffed(s') == Staffed(s)
  {
  }

  /** A result for a job nobody holds breaks the accounting: the job appears in a second place, or without having
      been accepted, or is counted twice. */
  lemma SetResultBreaks(s: State, l: Ledger, result: Job)
    requires Inv(s, l) && result.id != "" && result.id !in s.inProgress && result.id !in l.handed
    ensures !Inv(Step(s, SetResult(result)).0, Record(s, l, SetResult(result)))
  {
    var (s', reply) := Step(s, SetResult(result));
    var l' := Record(s, l, SetResult(result));
    assert Places(s, l, result.id) == One(result.id in l.accepted);
    if result.id in s.completed {
      assert s'.completed.Keys == s.completed.Keys;
      assert |s'.completed| == |s.completed|;
    } else {
      assert Places(s', l', result.id) == Places(s, l, result.id) + 1;
    }
  }

  lemma GetResultKeeps(s: State, l: Ledger, jobId: string, apiKey: string)
    requires Inv(s, l)
    ensures Inv(Step(s, GetResult(jobId, apiKey)).0, Record(s, l, GetResult(jobId, apiKey)))
  {
    var (s', reply) := Step(s, GetResult(jobId, apiKey));
    var l' := Record(s, l, GetResult(jobId, apiKey));
    assert Places(s, l, jobId) == One(jobId in l.accepted);
    if reply.Result? { assert s'.completed.Keys == s.completed.Keys - {jobId}; }
    forall id ensures Places(s', l', id) == One(id in l'.accepted) {
      assert Places(s, l, id) == One(id in l.accepted);
    }
  }

  lemma SetProgressKeeps(s: State, l: Ledger, jobId: string, progress: real)
    requires Inv(s, l)
    ensures Inv(Step(s, SetProgress(jobId, progress)).0, Record(s, l, SetProgress(jobId, progress)))
  {
    var s' := Step(s, SetProgress(jobId, progress)).0;
    forall id ensures Places(s', l, id) == One(id in l.accepted) {
      assert Places(s, l, id) == One(id in l.accepted);
    }
  }

  lemma ManageKeeps(s: State, l: Ledger, m: Manage)
    requires Inv(s, l)
    ensures Inv(Step(s, ManageQueues(m)).0, Record(s, l, ManageQueues(m)))
  {
    var s' := Step(s, ManageQueues(m)).0;
    var l' := Record(s, l, ManageQueues(m));
    ManageShrinks(s, m);
    ShrinkPends(s.queues, s'.queues);
    forall id ensures Places(s', l', id) == One(id in l'.accepted) {
      assert Places(s, l, id) == One(id in l.accepted);
    }
  }

  /** The accounting survives a request exactly when the guard holds: a new id, a result from a worker holding the
      job; all other requests always keep it. */
  lemma StepKeepsIff(s: State, l: Ledger, ev: Event)
    requires Inv(s, l)
    ensures Inv(Step(s, ev).0, Record(s, l, ev)) <==> Guard(s, l, ev)
  {
    hide Inv, Conserved, NoneTwice, Sound, Step, Record;
    match ev
    case Submit(job, hasParameters, delivered) =>
      if Guard(s, l, ev) { SubmitKeeps(s, l, job, hasParameters, delivered); } else { ReusedIdBreaks(s, l, ev); }
    case GetWork(name, worker) => GetWorkKeeps(s, l, name, worker);
    case SetProgress(jobId, progress) => SetProgressKeeps(s, l, jobId, progress);
    case SetResult(result) =>
      if result.id == "" { NoIdKeeps(s, l, result); }
      else if Guard(s, l, ev) { SetResultKeeps(s, l, result); }
      else { SetResultBreaks(s, l, result); }
    case GetResult(jobId, apiKey) => GetResultKeeps(s, l, jobId, apiKey);
    case ManageQueues(m) => ManageKeeps(s, l, m);
  }

  lemma ReusedIdBreaks(s: State, l: Ledger, ev: Event)
    requires Inv(s, l) && ev.Submit? && !Guard(s, l, ev)
    ensures !Inv(Step(s, ev).0, Record(s, l, ev))
  {
    assert l.accepted + {ev.job.id} == l.accepted;
  }

  lemma NoIdKeeps(s: State, l: Ledger, result: Job)
    requires Inv(s, l) && result.id == ""
    ensures Inv(Step(s, SetResult(result)).0, Record(s, l, SetResult(result)))
  {
  }

  // ----- runs -----

  datatype Run = Run(s: State, l: Ledger)

  function RunOf(h: seq<Event>): Run {
    if h == [] then Run(INITIAL, NO_JOBS)
    else
      var r := RunOf(h[..|h| - 1]);
      var ev := h[|h| - 1];
      Run(Step(r.s, ev).0, Record(r.s, r.l, ev))
  }

  /** Every request of the run was guarded when it was made. */
  ghost predicate Disciplined(h: seq<Event>) {
    forall k | 0 <= k < |h| :: var r := RunOf(h[..k]); Guard(r.s, r.l, h[k])
  }

  lemma {:induction false} DisciplinedPrefix(h: seq<Event>)
    requires h != [] && Disciplined(h)
    ensures Disciplined(h[..|h| - 1])
  {
    var n := |h| - 1;
    forall k | 0 <= k < n ensures var r := RunOf(h[..n][..k]); Guard(r.s, r.l, h[..n][k]) {
      assert h[..n][..k] == h[..k];
    }
  }

  /** Conservation: over every disciplined run each accepted job is in exactly one place, completed jobs have
      progress 100, and the counter is the number of completed and delivered results. */
  lemma {:induction false} RunConserves(h: seq<Event>)
    requires Disciplined(h)
    ensures Inv(RunOf(h).s, RunOf(h).l)
  {
    if h != [] {
      var n := |h| - 1;
      DisciplinedPrefix(h);
      RunConserves(h[..n]);
      StepKeepsIff(RunOf(h[..n]).s, RunOf(h[..n]).l, h[n]);
    }
  }

  /** How often a result of the job was given out. */
  function Deliveries(h: seq<Event>, id: string): nat {
    if h == [] then 0
    else
      var before, ev := h[..|h| - 1], h[|h| - 1];
      Deliveries(before, id)
      + One(ev.GetResult? && ev.jobId == id && Step(RunOf(before).s, ev).1.Result?)
  }

  /** A result is delivered at most once per job, and only for accepted jobs. */
  lemma {:induction false} DeliveredAtMostOnce(h: seq<Event>, id: string)
    requires Disciplined(h)
    ensures Deliveries(h, id) == One(id in RunOf(h).l.delivered)
    ensures Deliveries(h, id) == 1 ==> id in RunOf(h).l.accepted
  {
    hide Step, Record, Inv, Conserved, Sound, NoneTwice, Guard, Disciplined;
    if h != [] {
      var n := |h| - 1;
      DisciplinedPrefix(h);
      DeliveredAtMostOnce(h[..n], id);
      RunConserves(h[..n]);
      RunConserves(h);
      DeliveryStep(RunOf(h[..n]).s, RunOf(h[..n]).l, h[n], id);
    }
  }

  /** A delivery is of a job not delivered before, and makes it delivered. */
  lemma DeliveryStep(s: State, l: Ledger, ev: Event, id: string)
    requires Inv(s, l) && Inv(Step(s, ev).0, Record(s, l, ev))
    ensures var out := ev.GetResult? && ev.jobId == id && Step(s, ev).1.Result?;
            && (out ==> id !in l.delivered)
            && (id in Record(s, l, ev).delivered <==> id in l.delivered || out)
    ensures id in Record(s, l, ev).delivered ==> id in Record(s, l, ev).accepted
  {
    hide PendingIds, Sound, NoneTwice;
    var s', l' := Step(s, ev).0, Record(s, l, ev);
    assert Places(s, l, id) == One(id in l.accepted);
    assert Places(s', l', id) == One(id in l'.accepted);
  }
}
