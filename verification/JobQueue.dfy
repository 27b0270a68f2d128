/** The job queue service: its handlers on queues of pending jobs and waiting workers, jobs in progress and
    completed jobs, and the life of every accepted job over whole runs. */
module JobQueueService {
  import opened Outcomes
  import opened BoundedQueue

  /** A Job. The parameters are not looked at by the service. */
  datatype Job = Job(id: string, apiKey: string, moduleName: string, action: string,
                     progress: real, completed: bool, parameters: string)
  {
    /** set_progress() */
    function WithProgress(p: real): Job {
      if p >= 100.0 then this.(completed := true, progress := 100.0) else this.(progress := p)
    }
  }

  /** A worker's pending get_work request. */
  type Worker = string

  datatype Manage = Manage(clearAll: bool, removeAll: bool, switchAll: Option<bool>, queue: string,
                           create: Option<nat>, enable: Option<bool>, clear: bool, remove: bool)

  /** One request. In Submit, `job` is the job built from the message, with the id it carries or a fresh one, and
      `delivered` says whether handing it to a waiting worker succeeds. In SetResult, `result` is the job built from
      the worker's message. */
  datatype Event =
    | Submit(job: Job, hasParameters: bool, delivered: bool)
    | GetWork(queue: string, worker: Worker)
    | SetProgress(jobId: string, progress: real)
    | SetResult(result: Job)
    | GetResult(jobId: string, apiKey: string)
    | ManageQueues(m: Manage)

  datatype Reply =
    | NoReply | Done | Failed | QueueFull | AccessDenied
    | JobId(id: string) | Handed(worker: Worker, job: Job) | Work(job: Job) | Waits
    | Result(job: Job) | NotReady(job: Job)

  datatype State = State(
    queues: map<string, QueueState<Job>>,
    workersAwaiting: map<string, QueueState<Worker>>,
    inProgress: map<string, Job>,
    completed: map<string, Job>,
    completedJobs: int)

  const INITIAL := State(map[], map[], map[], map[], 0)

  // ----- management -----

  /** init_queue(): an existing waiting-workers queue of the name is kept. */
  function InitQueue(s: State, name: string, size: nat): (State, bool) {
    if name in s.queues then (s, false)
    else
      (s.(queues := s.queues[name := Opened(size)],
          workersAwaiting :=
            if name in s.workersAwaiting then s.workersAwaiting else s.workersAwaiting[name := Opened(size)]),
       true)
  }

  function ClearAll(s: State): State {
    s.(queues := map n | n in s.queues :: Cleared(s.queues[n]))
  }

  function SwitchAll(s: State, state: bool): State {
    s.(queues := map n | n in s.queues :: Enabled(s.queues[n], state))
  }

  function RemoveAll(s: State): State { s.(queues := map[]) }

  /** The operations manage() makes on all queues. */
  function ManageAll(s: State, m: Manage): State {
    var s1 := if m.clearAll then ClearAll(s) else s;
    var s2 := if m.removeAll then RemoveAll(s1) else s1;
    if m.switchAll.Some? then SwitchAll(s2, m.switchAll.value) else s2
  }

  /** And those on the queue it names. */
  function ManageOne(s: State, m: Manage): State
    requires m.queue in s.queues
  {
    var q := s.queues[m.queue];
    var q1 := if m.enable.Some? then Enabled(q, m.enable.value) else q;
    var q2 := if m.clear then Cleared(q1) else q1;
    if m.remove then s.(queues := s.queues - {m.queue}) else s.(queues := s.queues[m.queue := q2])
  }

  function ManageStep(s: State, m: Manage): (State, Reply) {
    var s' := ManageAll(s, m);
    if m.queue != "" && m.create.Some? then
      var (s'', created) := InitQueue(s', m.queue, m.create.value);
      (s'', if created then Done else Failed)
    else if m.queue in s'.queues then (ManageOne(s', m), Done)
    else (s', if m.clearAll || m.removeAll || m.switchAll.Some? then NoReply else Failed)
  }

  // ----- the handlers -----

  function WorkersOf(s: State, name: string): QueueState<Worker> {
    if name in s.workersAwaiting then s.workersAwaiting[name] else Opened(0)
  }

  /** submit() to an open queue: the job goes to the worker waiting longest, or joins the queue. A job handed to a
      worker is recorded nowhere, and its submitter gets no reply: Handed is the reply the worker gets. */
  function SubmitOpen(s: State, job: Job, delivered: bool): (State, Reply)
    requires job.moduleName in s.queues
  {
    var name := job.moduleName;
    var workers := WorkersOf(s, name);
    var s1 := if workers.items == [] then s else s.(workersAwaiting := s.workersAwaiting[name := Pop(workers).0]);
    if workers.items != [] && delivered then (s1, Handed(workers.items[0], job))
    else
      var (q, success) := Push(s.queues[name], job);
      (s1.(queues := s1.queues[name := q]), if success then JobId(job.id) else QueueFull)
  }

  function Step(s: State, ev: Event): (State, Reply) {
    match ev
    case Submit(job, hasParameters, delivered) =>
      if job.moduleName !in s.queues then (s, Failed)
      else if s.queues[job.moduleName].closed then (s, Failed)
      else if job.moduleName == "" || job.action == "" || !hasParameters then (s, Failed)
      else SubmitOpen(s, job, delivered)
    case GetWork(name, worker) =>
      if name !in s.queues then (s, Failed)
      else
        (match Pop(s.queues[name])
         case (q, Got(job)) =>
           (s.(queues := s.queues[name := q], inProgress := s.inProgress[job.id := job]), Work(job))
         case (_, Closed) =>
           (s.(workersAwaiting := s.workersAwaiting[name := Push(WorkersOf(s, name), worker).0]), NoReply)
         case (_, MustWait) => (s, Waits))
    case SetProgress(jobId, progress) =>
      if jobId in s.inProgress && progress != 0.0 then
        (s.(inProgress := s.inProgress[jobId := s.inProgress[jobId].WithProgress(progress)]), NoReply)
      else (s, NoReply)
    case SetResult(result) =>
      if result.id == "" then (s, Failed)
      else
        (s.(inProgress := s.inProgress - {result.id},
            completed := s.completed[result.id := result.WithProgress(100.0)],
            completedJobs := s.completedJobs + 1),
         Done)
    case GetResult(jobId, apiKey) =>
      if jobId in s.completed then
        var job := s.completed[jobId];
        if job.apiKey == apiKey then (s.(completed := s.completed - {jobId}), Result(job)) else (s, AccessDenied)
      else if jobId in s.inProgress then (s, NotReady(s.inProgress[jobId]))
      else (s, Failed)
    case ManageQueues(m) => ManageStep(s, m)
  }

  // ----- the class -----

  class JobQueue {
    var queues: map<string, Queue<Job>>
    var workersAwaiting: map<string, Queue<Worker>>
    var inProgress: map<string, Job>
    var completed: map<string, Job>
    var completedJobs: int

    /** Each name has queues of its own, and every queue of jobs a queue of waiting workers. */
    ghost predicate Valid()
      reads `queues, `workersAwaiting
    {
      Separate() && forall n :: n in queues ==> n in workersAwaiting
    }

    function Pending(): map<string, QueueState<Job>>
      reads `queues, queues.Values
    {
      map n | n in queues :: queues[n].View()
    }

    function Waiting(): map<string, QueueState<Worker>>
      reads `workersAwaiting, workersAwaiting.Values
    {
      map n | n in workersAwaiting :: workersAwaiting[n].View()
    }

    function View(): State
      reads this, queues.Values, workersAwaiting.Values
    {
      State(Pending(), Waiting(), inProgress, completed, completedJobs)
    }

    constructor ()
      ensures Valid() && View() == INITIAL
    {
      queues, workersAwaiting, inProgress, completed, completedJobs := map[], map[], map[], map[], 0;
    }

    // One queue of the table at a time.

    method PushJob(name: string, job: Job) returns (success: bool)
      requires Valid() && name in queues
      modifies queues.Values
      ensures Pending() == old(Pending())[name := Push(old(Pending())[name], job).0]
      ensures success == Push(old(Pending())[name], job).1
      ensures Waiting() == old(Waiting())
    {
      success := queues[name].PushBack(job);
      assert Pending() == old(Pending())[name := Push(old(Pending())[name], job).0];
    }

    method PopJob(name: string) returns (r: Popped<Job>)
      requires Valid() && name in queues
      modifies queues.Values
      ensures Pending() == old(Pending())[name := Pop(old(Pending())[name]).0]
      ensures r == Pop(old(Pending())[name]).1
      ensures Waiting() == old(Waiting())
    {
      r := queues[name].PopFront();
      assert Pending() == old(Pending())[name := Pop(old(Pending())[name]).0];
    }

    method EnableQueue(name: string, state: bool)
      requires Valid() && name in queues
      modifies queues.Values
      ensures Pending() == old(Pending())[name := Enabled(old(Pending())[name], state)]
      ensures Waiting() == old(Waiting())
    {
      queues[name].SetEnabled(state);
      assert Pending() == old(Pending())[name := Enabled(old(Pending())[name], state)];
    }

    method ClearQueue(name: string)
      requires Valid() && name in queues
      modifies queues.Values
      ensures Pending() == old(Pending())[name := Cleared(old(Pending())[name])]
      ensures Waiting() == old(Waiting())
    {
      queues[name].Clear();
      assert Pending() == old(Pending())[name := Cleared(old(Pending())[name])];
    }

    method PopWorker(name: string) returns (worker: Worker)
      requires Valid() && name in workersAwaiting && Waiting()[name].items != []
      modifies workersAwaiting.Values
      ensures worker == old(Waiting())[name].items[0]
      ensures Waiting() == old(Waiting())[name := Pop(old(Waiting())[name]).0]
      ensures Pending() == old(Pending())
    {
      worker := workersAwaiting[name].items[0];
      var _ := workersAwaiting[name].PopFront();
      assert Waiting() == old(Waiting())[name := Pop(old(Waiting())[name]).0];
    }

    method PushWorker(name: string, worker: Worker)
      requires Valid() && name in workersAwaiting
      modifies workersAwaiting.Values
      ensures Waiting() == old(Waiting())[name := Push(old(Waiting())[name], worker).0]
      ensures Pending() == old(Pending())
    {
      var _ := workersAwaiting[name].PushBack(worker);
      assert Waiting() == old(Waiting())[name := Push(old(Waiting())[name], worker).0];
    }

    ghost predicate Separate()
      reads `queues, `workersAwaiting
    {
      && (forall m, n :: m in queues && n in queues && m != n ==> queues[m] != queues[n])
      && (forall m, n :: m in workersAwaiting && n in workersAwaiting && m != n ==>
            workersAwaiting[m] != workersAwaiting[n])
      && (forall m, n :: m in queues && n in workersAwaiting ==> queues[m] as object != workersAwaiting[n])
    }

    method AddQueue(name: string, size: nat)
      requires Separate() && name !in queues
      modifies `queues
      ensures Separate() && Pending() == old(Pending())[name := Opened(size)] && Waiting() == old(Waiting())
      ensures queues.Keys == old(queues).Keys + {name} && fresh(queues.Values - old(queues.Values))
    {
      var q := new Queue<Job>(size);
      queues := queues[name := q];
      assert Pending() == old(Pending())[name := Opened(size)];
    }

    method AddWaiting(name: string, size: nat)
      requires Separate() && name !in workersAwaiting
      modifies `workersAwaiting
      ensures Separate() && Waiting() == old(Waiting())[name := Opened(size)] && Pending() == old(Pending())
      ensures workersAwaiting.Keys == old(workersAwaiting).Keys + {name}
      ensures fresh(workersAwaiting.Values - old(workersAwaiting.Values))
    {
      var w := new Queue<Worker>(size);
      workersAwaiting := workersAwaiting[name := w];
      assert Waiting() == old(Waiting())[name := Opened(size)];
    }

    method ForgetQueue(name: string)
      requires Valid()
      modifies `queues
      ensures Valid() && Pending() == old(Pending()) - {name} && Waiting() == old(Waiting())
    {
      queues := queues - {name};
      assert Pending() == old(Pending()) - {name};
    }

    method DropQueue(name: string)
      requires Valid() && name in queues
      modifies `queues, queues.Values
      ensures Valid() && Pending() == old(Pending()) - {name} && Waiting() == old(Waiting())
    {
      hide Enabled, Cleared;
      EnableQueue(name, false);
      ClearQueue(name);
      ghost var off := Enabled(old(Pending())[name], false);
      UpdateThenDrop(old(Pending()), name, off, Cleared(off));
      ForgetQueue(name);
    }

    // The handlers.

    method InitNamed(name: string, size: nat) returns (created: bool)
      requires Valid()
      modifies this`queues, this`workersAwaiting
      ensures Valid() && (View(), created) == InitQueue(old(View()), name, size)
      ensures fresh(queues.Values - old(queues.Values)) && fresh(workersAwaiting.Values - old(workersAwaiting.Values))
    {
      if name in queues { return false; }
      AddQueue(name, size);
      if name !in workersAwaiting { AddWaiting(name, size); }
      return true;
    }

    method SubmitJob(job: Job, hasParameters: bool, delivered: bool) returns (r: Reply)
      requires Valid()
      modifies queues.Values, workersAwaiting.Values
      ensures (View(), r) == Step(old(View()), Submit(job, hasParameters, delivered))
    {
      var name := job.moduleName;
      if name !in queues { return Failed; }
      assert old(Pending())[name] == queues[name].View();
      if queues[name].closed { return Failed; }
      if name == "" || job.action == "" || !hasParameters { return Failed; }
      assert old(Waiting())[name] == workersAwaiting[name].View();
      if workersAwaiting[name].items != [] {
        var worker := PopWorker(name);
        if delivered { return Handed(worker, job); }
      }
      var success := PushJob(name, job);
      return if success then JobId(job.id) else QueueFull;
    }

    method GetWorkFor(name: string, worker: Worker) returns (r: Reply)
      requires Valid()
      modifies this`inProgress, queues.Values, workersAwaiting.Values
      ensures (View(), r) == Step(old(View()), GetWork(name, worker))
    {
      hide Push;
      if name !in queues { return Failed; }
      var popped := PopJob(name);
      match popped
      case Got(job) =>
        inProgress := inProgress[job.id := job];
        return Work(job);
      case Closed =>
        assert Pending() == old(Pending());
        PushWorker(name, worker);
        return NoReply;
      case MustWait =>
        assert Pending() == old(Pending());
        return Waits;
    }

    method ReportProgress(jobId: string, progress: real)
      modifies this`inProgress
      ensures View() == Step(old(View()), SetProgress(jobId, progress)).0
    {
      if jobId in inProgress && progress != 0.0 {
        inProgress := inProgress[jobId := inProgress[jobId].WithProgress(progress)];
      }
    }

    method AcceptResult(result: Job) returns (r: Reply)
      modifies this`inProgress, this`completed, this`completedJobs
      ensures (View(), r) == Step(old(View()), SetResult(result))
    {
      if result.id == "" { return Failed; }
      inProgress := inProgress - {result.id};
      completed := completed[result.id := result.WithProgress(100.0)];
      completedJobs := completedJobs + 1;
      return Done;
    }

    method FetchResult(jobId: string, apiKey: string) returns (r: Reply)
      modifies this`completed
      ensures (View(), r) == Step(old(View()), GetResult(jobId, apiKey))
    {
      if jobId in completed {
        var job := completed[jobId];
        if job.apiKey != apiKey { return AccessDenied; }
        completed := completed - {jobId};
        return Result(job);
      }
      if jobId in inProgress { return NotReady(inProgress[jobId]); }
      return Failed;
    }

    method ClearEvery()
      requires Valid()
      modifies queues.Values
      ensures View() == ClearAll(old(View()))
    {
      hide Cleared;
      var todo := queues.Keys;
      StartSweep(Pending(), false);
      while todo != {}
        invariant todo <= queues.Keys && Waiting() == old(Waiting())
        invariant Pending() == ClearedExcept(old(Pending()), todo)
        decreases todo
      {
        var n :| n in todo;
        SweepOne(old(Pending()), todo, n, false);
        ClearQueue(n);
        todo := todo - {n};
      }
    }

    method SwitchEvery(state: bool)
      requires Valid()
      modifies queues.Values
      ensures View() == SwitchAll(old(View()), state)
    {
      hide Enabled;
      var todo := queues.Keys;
      StartSweep(Pending(), state);
      while todo != {}
        invariant todo <= queues.Keys && Waiting() == old(Waiting())
        invariant Pending() == EnabledExcept(old(Pending()), todo, state)
        decreases todo
      {
        var n :| n in todo;
        SweepOne(old(Pending()), todo, n, state);
        EnableQueue(n, state);
        todo := todo - {n};
      }
    }

    method RemoveEvery()
      requires Valid()
      modifies this`queues, queues.Values
      ensures Valid() && queues == map[] && View() == RemoveAll(old(View()))
    {
      SwitchEvery(false);
      ClearEvery();
      queues := map[];
      assert Pending() == map[];
      assert Waiting() == old(Waiting());
    }

    method ManageAllQueues(m: Manage)
      requires Valid()
      modifies this`queues, queues.Values
      ensures Valid() && View() == ManageAll(old(View()), m)
      ensures queues == old(queues) || queues == map[]
    {
      if m.clearAll { ClearEvery(); }
      if m.removeAll { RemoveEvery(); }
      if m.switchAll.Some? { SwitchEvery(m.switchAll.value); }
    }

    method EnableIfAsked(name: string, enable: Option<bool>)
      requires Valid() && name in queues
      modifies queues.Values
      ensures Pending() == old(Pending())[name := if enable.Some? then Enabled(old(Pending())[name], enable.value)
                                                  else old(Pending())[name]]
      ensures Waiting() == old(Waiting())
    {
      hide Enabled;
      UpdateThenDrop(Pending(), name, Pending()[name], Pending()[name]);
      if enable.Some? { EnableQueue(name, enable.value); }
    }

    method ClearIfAsked(name: string, clear: bool)
      requires Valid() && name in queues
      modifies queues.Values
      ensures Pending() == old(Pending())[name := if clear then Cleared(old(Pending())[name]) else old(Pending())[name]]
      ensures Waiting() == old(Waiting())
    {
      hide Cleared;
      UpdateThenDrop(Pending(), name, Pending()[name], Pending()[name]);
      if clear { ClearQueue(name); }
    }

    method ManageOneQueue(m: Manage)
      requires Valid() && m.queue in queues
      modifies this`queues, queues.Values
      ensures Valid() && View() == ManageOne(old(View()), m)
    {
      hide Enabled, Cleared;
      ghost var q := old(Pending())[m.queue];
      ghost var q1 := if m.enable.Some? then Enabled(q, m.enable.value) else q;
      ghost var q2 := if m.clear then Cleared(q1) else q1;
      UpdateThenDrop(old(Pending()), m.queue, q1, q2);
      EnableIfAsked(m.queue, m.enable);
      ClearIfAsked(m.queue, m.clear);
      if m.remove { DropQueue(m.queue); }
    }

    method HandleManage(m: Manage) returns (r: Reply)
      requires Valid()
      modifies this`queues, this`workersAwaiting, queues.Values
      ensures Valid() && (View(), r) == Step(old(View()), ManageQueues(m))
    {
      ManageAllQueues(m);
      if m.queue != "" && m.create.Some? {
        var created := InitNamed(m.queue, m.create.value);
        return if created then Done else Failed;
      }
      if m.queue in queues {
        ManageOneQueue(m);
        return Done;
      }
      return if m.clearAll || m.removeAll || m.switchAll.Some? then NoReply else Failed;
    }
  }

  /** A loop over the queues that has not reached those in todo yet. */
  ghost function ClearedExcept(m: map<string, QueueState<Job>>, todo: set<string>): map<string, QueueState<Job>> {
    map n | n in m :: if n in todo then m[n] else Cleared(m[n])
  }

  ghost function EnabledExcept(m: map<string, QueueState<Job>>, todo: set<string>, state: bool)
    : map<string, QueueState<Job>>
  {
    map n | n in m :: if n in todo then m[n] else Enabled(m[n], state)
  }

  lemma StartSweep(m: map<string, QueueState<Job>>, state: bool)
    ensures ClearedExcept(m, m.Keys) == m && EnabledExcept(m, m.Keys, state) == m
    ensures ClearedExcept(m, {}) == map n | n in m :: Cleared(m[n])
    ensures EnabledExcept(m, {}, state) == map n | n in m :: Enabled(m[n], state)
  {
  }

  lemma SweepOne(m: map<string, QueueState<Job>>, todo: set<string>, n: string, state: bool)
    requires n in m && n in todo
    ensures ClearedExcept(m, todo)[n := Cleared(ClearedExcept(m, todo)[n])] == ClearedExcept(m, todo - {n})
    ensures EnabledExcept(m, todo, state)[n := Enabled(EnabledExcept(m, todo, state)[n], state)]
         == EnabledExcept(m, todo - {n}, state)
  {
    hide Cleared, Enabled;
  }

  lemma UpdateThenDrop<T>(m: map<string, T>, k: string, x: T, y: T)
    ensures k in m ==> m[k := m[k]] == m
    ensures m[k := x][k := y] == m[k := y]
    ensures m[k := y] - {k} == m - {k}
  {
  }
}
