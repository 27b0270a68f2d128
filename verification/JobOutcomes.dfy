/** What each request of the job queue answers and changes, field by field. */
module JobOutcomes {
  import opened Outcomes
  import opened BoundedQueue
  import opened JobQueueService
  import opened JobLifecycle

  /** Queues as they are in every run: some room, never more than it, and a queue of waiting workers for each that is
      never closed. */
  ghost predicate WellFormed(s: State) {
    && (forall n | n in s.queues :: n in s.workersAwaiting && Roomy(s.queues[n]))
    && (forall n | n in s.workersAwaiting ::
          !s.workersAwaiting[n].closed && Roomy(s.workersAwaiting[n]))
  }

  predicate Roomy<T>(q: QueueState<T>) { q.size > 0 && |q.items| <= q.size }

  // ----- jobs -----

  /** The queues of jobs after one of them was replaced. */
  ghost predicate OnlyQueue(s: State, s': State, name: string) {
    s'.queues.Keys == s.queues.Keys && forall n | n in s.queues && n != name :: s'.queues[n] == s.queues[n]
  }

  ghost predicate OnlyWaiting(s: State, s': State, name: string) {
    && s'.workersAwaiting.Keys == s.workersAwaiting.Keys
    && forall n | n in s.workersAwaiting && n != name :: s'.workersAwaiting[n] == s.workersAwaiting[n]
  }

  /** A submission is refused when its queue is missing or closed, or when it lacks a module, an action or parameters.
      Otherwise the worker waiting longest leaves the waiting queue; if it is reached the job is handed to it, and if
      not, or if there is none, the job goes to the end of the queue or is refused because the queue is full. */
  lemma SubmitOutcome(s: State, job: Job, hasParameters: bool, delivered: bool)
    requires WellFormed(s)
    ensures var name := job.moduleName;
            var (s', reply) := Step(s, Submit(job, hasParameters, delivered));
            && SameJobs(s, s') && OnlyQueue(s, s', name) && OnlyWaiting(s, s', name)
            && if name !in s.queues || s.queues[name].closed || name == "" || job.action == "" || !hasParameters then
                 reply == Failed && s' == s
               else
                 var q, q', w, w' := s.queues[name], s'.queues[name], s.workersAwaiting[name], s'.workersAwaiting[name];
                 && q'.size == q.size && !q'.closed && w'.size == w.size && !w'.closed
                 && w'.items == (if w.items == [] then [] else w.items[1..])
                 && if w.items != [] && delivered then reply == Handed(w.items[0], job) && q' == q
                    else if |q.items| < q.size then reply == JobId(job.id) && q'.items == q.items + [job]
                    else reply == QueueFull && q' == q
  {
  }

  /** A worker is given the first pending job of an open queue, which is then in progress. An open queue without jobs
      makes it wait; a closed one parks its request, if there is room, among the waiting workers. */
  lemma GetWorkOutcome(s: State, name: string, worker: Worker)
    requires WellFormed(s)
    ensures var (s', reply) := Step(s, GetWork(name, worker));
            && s'.completed == s.completed && s'.completedJobs == s.completedJobs
            && OnlyQueue(s, s', name) && OnlyWaiting(s, s', name)
            && if name !in s.queues then reply == Failed && s' == s
               else
                 var q, w, w' := s.queues[name], s.workersAwaiting[name], s'.workersAwaiting[name];
                 if q.closed then
                   && reply == NoReply && s'.queues == s.queues && s'.inProgress == s.inProgress
                   && w'.size == w.size && !w'.closed
                   && w'.items == if |w.items| < w.size then w.items + [worker] else w.items
                 else if q.items == [] then reply == Waits && s' == s
                 else
                   && reply == Work(q.items[0]) && s'.queues[name] == QueueState(q.items[1..], q.size, false)
                   && s'.workersAwaiting == s.workersAwaiting
                   && s'.inProgress == s.inProgress[q.items[0].id := q.items[0]]
  {
  }

  /** Progress other than zero is recorded for a job in progress, at most 100; reaching 100 marks it completed. The next
      get_result is told of it. */
  lemma ProgressOutcome(s: State, id: string, progress: real, key: string)
    ensures var s' := Step(s, SetProgress(id, progress)).0;
            && s'.queues == s.queues && s'.workersAwaiting == s.workersAwaiting
            && s'.completed == s.completed && s'.completedJobs == s.completedJobs
            && s'.inProgress.Keys == s.inProgress.Keys
            && (forall k | k in s.inProgress && k != id :: s'.inProgress[k] == s.inProgress[k])
            && (id in s.inProgress && progress == 0.0 ==> s'.inProgress[id] == s.inProgress[id])
            && (id in s.inProgress && progress != 0.0 ==>
                  var job := s.inProgress[id];
                  s'.inProgress[id] == job.(progress := if progress > 100.0 then 100.0 else progress,
                                            completed := job.completed || progress >= 100.0))
            && (id in s.inProgress && id !in s.completed ==>
                  Step(s', GetResult(id, key)).1 == NotReady(s'.inProgress[id]))
  {
  }

  /** A result with an id ends the progress of its job, if any, and is kept as completed, whole. */
  lemma ResultOutcome(s: State, result: Job)
    ensures var (s', reply) := Step(s, SetResult(result));
            if result.id == "" then reply == Failed && s' == s
            else
              && reply == Done && s'.queues == s.queues && s'.workersAwaiting == s.workersAwaiting
              && s'.inProgress == s.inProgress - {result.id}
              && s'.completed == s.completed[result.id := result.(progress := 100.0, completed := true)]
              && s'.completedJobs == s.completedJobs + 1
  {
  }

  /** A completed job is given once, to the key it carries; another key, and any job that is not completed, is answered
      without changing anything. */
  lemma GetResultOutcome(s: State, id: string, key: string)
    ensures var (s', reply) := Step(s, GetResult(id, key));
            if id in s.completed && s.completed[id].apiKey == key then
              && reply == Result(s.completed[id])
              && s' == State(s.queues, s.workersAwaiting, s.inProgress, s.completed - {id}, s.completedJobs)
            else
              && s' == s
              && reply == if id in s.completed then AccessDenied
                          else if id in s.inProgress then NotReady(s.inProgress[id])
                          else Failed
  {
  }

  // ----- management -----

  /** clear_all, remove_all and switch_all, in this order. */
  lemma ManageAllEffect(s: State, m: Manage)
    ensures var s' := ManageAll(s, m);
            && SameJobs(s, s') && s'.workersAwaiting == s.workersAwaiting
            && (forall n :: n in s'.queues <==> n in s.queues && !m.removeAll)
            && forall n | n in s'.queues ::
                 s'.queues[n] == QueueState(if m.clearAll then [] else s.queues[n].items, s.queues[n].size,
                                            if m.switchAll.Some? then !m.switchAll.value else s.queues[n].closed)
  {
  }

  /** The queue named by the request, after that: created empty and open, with room for 50 jobs unless a size is given,
      when it does not exist; or switched, cleared and removed. */
  lemma ManageNamedEffect(s: State, m: Manage)
    ensures var s1, (s', reply) := ManageAll(s, m), ManageStep(s, m);
            var any := m.clearAll || m.removeAll || m.switchAll.Some?;
            && SameJobs(s1, s')
            && (forall n | n != m.queue ::
                  && (n in s'.queues <==> n in s1.queues) && (n in s1.queues ==> s'.queues[n] == s1.queues[n]))
            && if m.queue != "" && m.create.Some? then
                 && m.queue in s'.queues
                 && (m.queue in s1.queues ==> reply == Failed && s' == s1)
                 && (m.queue !in s1.queues ==>
                       && reply == Done && s'.queues[m.queue] == QueueState([], SizeOrDefault(m.create.value), false)
                       && s'.workersAwaiting
                          == if m.queue in s.workersAwaiting then s.workersAwaiting
                             else s.workersAwaiting[m.queue := QueueState([], SizeOrDefault(m.create.value), false)])
               else if m.queue in s1.queues then
                 && reply == Done && s'.workersAwaiting == s.workersAwaiting
                 && (m.queue in s'.queues <==> !m.remove)
                 && (!m.remove ==>
                       var q := s1.queues[m.queue];
                       s'.queues[m.queue] == QueueState(if m.clear then [] else q.items, q.size,
                                                        if m.enable.Some? then !m.enable.value else q.closed))
               else s' == s1 && reply == if any then NoReply else Failed
  {
    ManageAllEffect(s, m);
    hide ManageAll;
  }

  function SizeOrDefault(size: nat): nat { if size == 0 then 50 else size }

  // ----- runs -----

  lemma ManageWellFormed(s: State, m: Manage)
    requires WellFormed(s)
    ensures WellFormed(ManageStep(s, m).0)
  {
    hide ManageStep, ManageAll;
    ManageAllEffect(s, m);
    var s1 := ManageAll(s, m);
    assert WellFormed(s1);
    ManageNamedEffect(s, m);
  }

  lemma SubmitWellFormed(s: State, job: Job, hasParameters: bool, delivered: bool)
    requires WellFormed(s)
    ensures WellFormed(Step(s, Submit(job, hasParameters, delivered)).0)
  {
    hide Step;
    SubmitOutcome(s, job, hasParameters, delivered);
  }

  lemma GetWorkWellFormed(s: State, name: string, worker: Worker)
    requires WellFormed(s)
    ensures WellFormed(Step(s, GetWork(name, worker)).0)
  {
    hide Step;
    GetWorkOutcome(s, name, worker);
  }

  lemma StepWellFormed(s: State, ev: Event)
    requires WellFormed(s)
    ensures WellFormed(Step(s, ev).0)
  {
    hide ManageStep, SubmitOpen, Push, Pop;
    match ev
    case ManageQueues(m) => ManageWellFormed(s, m);
    case Submit(job, hasParameters, delivered) => SubmitWellFormed(s, job, hasParameters, delivered);
    case GetWork(name, worker) => GetWorkWellFormed(s, name, worker);
    case _ =>
  }

  /** Over every run, disciplined or not. */
  lemma {:induction false} RunWellFormed(h: seq<Event>)
    ensures WellFormed(RunOf(h).s)
  {
    hide Step, Record, WellFormed;
    if h == [] {
      StartWellFormed();
    } else {
      RunWellFormed(h[..|h| - 1]);
      StepWellFormed(RunOf(h[..|h| - 1]).s, h[|h| - 1]);
    }
  }

  lemma StartWellFormed()
    ensures WellFormed(INITIAL)
  {
  }
}
