/** What is handed over: the jobs workers are given and the results that are delivered, over whole runs. */
module JobDelivery {
  import opened Outcomes
  import opened BoundedQueue
  import opened JobQueueService
  import opened JobLifecycle

  // ----- results: over every run -----

  /** From the events alone: the job that the last reported result for an id carried. */
  function LastReported(h: seq<Event>, id: string): (r: Option<Job>)
    ensures r.Some? ==> r.value.id == id != ""
  {
    if h == [] then None
    else
      var ev := h[|h| - 1];
      if ev.SetResult? && ev.result.id == id && id != "" then Some(ev.result) else LastReported(h[..|h| - 1], id)
  }

  /** Every completed job is the last result reported for its id, with progress 100 and marked completed. */
  lemma {:induction false} CompletedIsReported(h: seq<Event>, id: string)
    requires id in RunOf(h).s.completed
    ensures LastReported(h, id).Some?
    ensures RunOf(h).s.completed[id] == LastReported(h, id).value.(progress := 100.0, completed := true)
  {
    hide ManageStep, Record;
    var n := |h| - 1;
    ManageLeavesJobs(RunOf(h[..n]).s, h[n]);
    if !(h[n].SetResult? && h[n].result.id == id && id != "") { CompletedIsReported(h[..n], id); }
  }

  lemma ManageLeavesJobs(s: State, ev: Event)
    ensures ev.ManageQueues? ==> Step(s, ev).0.completed == s.completed && Step(s, ev).0.inProgress == s.inProgress
  {
    hide ClearAll, SwitchAll;
    if ev.ManageQueues? {
      SweepsShrink(s, true);
      ManageAllShrinks(s, ev.m);
    }
  }

  /** Over every run, whatever is delivered for an id is the job of the last reported result, unchanged but for progress
      100 and the completed mark, and only against the key it carries. */
  lemma ResultIsReported(h: seq<Event>, id: string, key: string)
    ensures match Step(RunOf(h).s, GetResult(id, key)).1
            case Result(job) =>
              && LastReported(h, id).Some? && LastReported(h, id).value.apiKey == key
              && job == LastReported(h, id).value.(progress := 100.0, completed := true)
            case AccessDenied => LastReported(h, id).Some? && LastReported(h, id).value.apiKey != key
            case _ => true
  {
    hide RunOf;
    if id in RunOf(h).s.completed { CompletedIsReported(h, id); }
  }

  // ----- jobs: what was submitted, and when -----

  /** The jobs as submitted, and their numbers in the order of acceptance. */
  datatype Book = Book(submitted: map<string, Job>, number: map<string, nat>)

  /** A submission counts when it was queued or handed to a worker. */
  function Note(s: State, book: Book, count: nat, ev: Event): Book {
    var reply := Step(s, ev).1;
    if ev.Submit? && (reply.JobId? || reply.Handed?) then
      Book(book.submitted[ev.job.id := ev.job], book.number[ev.job.id := count])
    else book
  }

  function BookOf(h: seq<Event>): Book {
    if h == [] then Book(map[], map[])
    else
      var r := RunOf(h[..|h| - 1]);
      Note(r.s, BookOf(h[..|h| - 1]), r.l.submissions, h[|h| - 1])
  }

  /** Every pending job is as submitted, in the queue it was submitted to. */
  ghost predicate PendingAsSubmitted(q: Queues, book: Book) {
    forall n, i: nat | n in q && i < |q[n].items| ::
      var job := q[n].items[i];
      job.id in book.submitted && book.submitted[job.id] == job && job.moduleName == n
  }

  /** Every queue is in the order of submission. */
  ghost predicate InOrder(q: Queues, book: Book) {
    forall n, i: nat, j: nat | n in q && i < j < |q[n].items| :: Before(book, q[n].items[i].id, q[n].items[j].id)
  }

  predicate Before(book: Book, a: string, b: string) {
    a in book.number && b in book.number && book.number[a] < book.number[b]
  }

  /** The same job, but for how far it is. */
  predicate SameWork(a: Job, b: Job) {
    a.id == b.id && a.apiKey == b.apiKey && a.moduleName == b.moduleName && a.action == b.action
    && a.parameters == b.parameters
  }

  ghost predicate Numbered(book: Book, l: Ledger) {
    && book.submitted.Keys == l.accepted == book.number.Keys
    && forall id | id in book.number :: book.number[id] < l.submissions
  }

  ghost predicate JobsMatch(s: State, l: Ledger, book: Book) {
    && Numbered(book, l) && PendingAsSubmitted(s.queues, book) && InOrder(s.queues, book)
    && (forall k :: k in s.inProgress ==> k in book.submitted && SameWork(s.inProgress[k], book.submitted[k]))
  }

  // ----- one step -----

  lemma PushMatches(q: Queues, name: string, job: Job, l: Ledger, book: Book, book': Book)
    requires name in q && name == job.moduleName && job.id !in l.accepted && Numbered(book, l)
    requires PendingAsSubmitted(q, book) && InOrder(q, book)
    requires book' == Book(book.submitted[job.id := job], book.number[job.id := l.submissions])
    ensures PendingAsSubmitted(q[name := Push(q[name], job).0], book')
    ensures InOrder(q[name := Push(q[name], job).0], book')
  {
    var q' := q[name := Push(q[name], job).0];
    forall n, i: nat, j: nat | n in q' && i < j < |q'[n].items|
      ensures Before(book', q'[n].items[i].id, q'[n].items[j].id)
    {
      assert q'[n].items[i] == q[n].items[i];
      if j < |q[n].items| { assert Before(book, q[n].items[i].id, q[n].items[j].id); }
    }
  }

  lemma PopMatches(q: Queues, name: string, job: Job, book: Book)
    requires name in q && PendingAsSubmitted(q, book) && InOrder(q, book) && Pop(q[name]).1 == Got(job)
    ensures PendingAsSubmitted(q[name := Pop(q[name]).0], book) && InOrder(q[name := Pop(q[name]).0], book)
    ensures job.id in book.submitted && book.submitted[job.id] == job && job.moduleName == name
  {
    assert q[name].items[0] == job;
    var q' := q[name := Pop(q[name]).0];
    forall n, i: nat | n in q' && i < |q'[n].items|
      ensures q'[n].items[i] == q[n].items[if n == name then i + 1 else i] {}
    forall n, i: nat, j: nat | n in q' && i < j < |q'[n].items|
      ensures Before(book, q'[n].items[i].id, q'[n].items[j].id)
    {
      var d := if n == name then 1 else 0;
      assert Before(book, q[n].items[i + d].id, q[n].items[j + d].id);
    }
  }

  lemma ShrunkMatches(q: Queues, q': Queues, book: Book)
    requires PendingAsSubmitted(q, book) && InOrder(q, book) && Shrunk(q, q')
    ensures PendingAsSubmitted(q', book) && InOrder(q', book)
  {
  }

  lemma NewNumber(q: Queues, l: Ledger, book: Book, job: Job)
    requires Numbered(book, l) && PendingAsSubmitted(q, book) && InOrder(q, book) && job.id !in l.accepted
    ensures var book' := Book(book.submitted[job.id := job], book.number[job.id := l.submissions]);
            PendingAsSubmitted(q, book') && InOrder(q, book')
  {
    var book' := Book(book.submitted[job.id := job], book.number[job.id := l.submissions]);
    forall n, i: nat, j: nat | n in q && i < j < |q[n].items|
      ensures Before(book', q[n].items[i].id, q[n].items[j].id)
    {
      assert Before(book, q[n].items[i].id, q[n].items[j].id);
    }
  }

  lemma SubmitMatches(s: State, l: Ledger, book: Book, ev: Event)
    requires ev.Submit? && Staffed(s) && Guard(s, l, ev) && JobsMatch(s, l, book)
    ensures JobsMatch(Step(s, ev).0, Record(s, l, ev), Note(s, book, l.submissions, ev))
  {
    hide Step, PendingAsSubmitted, InOrder, Push, Staffed;
    var (s', reply) := Step(s, ev);
    SubmitMoves(s, ev.job, ev.hasParameters, ev.delivered);
    if reply.JobId? || reply.Handed? {
      assert Record(s, l, ev) != l;
      if reply.JobId? {
        PushMatches(s.queues, ev.job.moduleName, ev.job, l, book, Note(s, book, l.submissions, ev));
      } else {
        NewNumber(s.queues, l, book, ev.job);
      }
    }
  }

  lemma StepMatches(s: State, l: Ledger, book: Book, ev: Event)
    requires Staffed(s) && Guard(s, l, ev) && JobsMatch(s, l, book)
    ensures JobsMatch(Step(s, ev).0, Record(s, l, ev), Note(s, book, l.submissions, ev))
  {
    hide PendingAsSubmitted, InOrder, Guard, Staffed, PendingIds, ManageStep;
    var (s', reply) := Step(s, ev);
    match ev
    case Submit(_, _, _) => SubmitMatches(s, l, book, ev);
    case GetWork(name, _) =>
      if reply.Work? { PopMatches(s.queues, name, reply.job, book); } else { assert s'.queues == s.queues; }
    case ManageQueues(m) =>
      ManageShrinks(s, m);
      ShrunkMatches(s.queues, s'.queues, book);
    case _ =>
  }

  // ----- runs -----

  /** Over every disciplined run pending jobs are as submitted, in their queue and in order of submission, and jobs in
      progress differ from that only in how far they are. */
  lemma {:induction false} RunMatches(h: seq<Event>)
    requires Disciplined(h)
    ensures JobsMatch(RunOf(h).s, RunOf(h).l, BookOf(h))
  {
    hide Step, Record, Note, JobsMatch, Guard, Conserved, NoneTwice;
    if h == [] {
      NothingMatched();
    } else {
      var n := |h| - 1;
      DisciplinedPrefix(h);
      RunMatches(h[..n]);
      RunConserves(h[..n]);
      StepMatches(RunOf(h[..n]).s, RunOf(h[..n]).l, BookOf(h[..n]), h[n]);
    }
  }

  lemma NothingMatched()
    ensures JobsMatch(INITIAL, NO_JOBS, Book(map[], map[]))
  {
  }

  /** Over every disciplined run a worker asking a queue for work is given the job submitted first among those pending
      there, exactly as it was submitted to that queue. */
  lemma WorkIsOldest(h: seq<Event>, name: string, worker: Worker)
    requires Disciplined(h)
    ensures match Step(RunOf(h).s, GetWork(name, worker)).1
            case Work(job) =>
              && job.id in BookOf(h).submitted && job == BookOf(h).submitted[job.id] && job.moduleName == name
              && Pends(RunOf(h).s.queues, name, 0, job.id)
              && (forall i: nat, id | i > 0 && Pends(RunOf(h).s.queues, name, i, id) :: Before(BookOf(h), job.id, id))
            case _ => true
  {
    hide RunOf, BookOf, Numbered, Disciplined;
    RunMatches(h);
    var q := RunOf(h).s.queues;
    forall i: nat, id | i > 0 && Pends(q, name, i, id) ensures Before(BookOf(h), q[name].items[0].id, id) {
      assert q[name].items[i].id == id;
    }
  }

  /** Who asks for the result of a job in progress is told of the job as submitted, but for how far it is. */
  lemma NotReadyIsSubmitted(h: seq<Event>, id: string, key: string)
    requires Disciplined(h)
    ensures match Step(RunOf(h).s, GetResult(id, key)).1
            case NotReady(job) => id in BookOf(h).submitted && SameWork(job, BookOf(h).submitted[id])
            case _ => true
  {
    hide RunOf, BookOf, Numbered, Disciplined, PendingAsSubmitted, InOrder;
    RunMatches(h);
  }

  // ----- who gets a result -----

  /** For a job in progress: once its result is reported, its submitter gets it exactly when the worker's message
      repeats the submitter's key, and is refused otherwise. */
  lemma SubmitterServedIff(s: State, result: Job)
    requires result.id != "" && result.id in s.inProgress
    ensures var key := s.inProgress[result.id].apiKey;
            var reply := Step(Step(s, SetResult(result)).0, GetResult(result.id, key)).1;
            && (reply.Result? <==> result.apiKey == key)
            && (!reply.Result? <==> reply == AccessDenied)
  {
  }

  /** Over every disciplined run a completed job is given to whoever presents the key its result was reported with;
      that is its submitter exactly when the two keys are the same. */
  lemma DeliveredToSubmitterIff(h: seq<Event>, id: string, key: string)
    requires Disciplined(h) && id in RunOf(h).s.completed
    ensures id in BookOf(h).submitted && LastReported(h, id).Some?
    ensures Step(RunOf(h).s, GetResult(id, key)).1.Result? <==> key == LastReported(h, id).value.apiKey
    ensures Step(RunOf(h).s, GetResult(id, BookOf(h).submitted[id].apiKey)).1.Result?
       <==> LastReported(h, id).value.apiKey == BookOf(h).submitted[id].apiKey
  {
    hide Disciplined, RunOf, BookOf, LastReported, PendingAsSubmitted, InOrder, PendingIds, NoneTwice, Sound;
    var r := RunOf(h);
    RunMatches(h);
    RunConserves(h);
    CompletedIsReported(h, id);
    assert Places(r.s, r.l, id) == One(id in r.l.accepted);
  }

  /** Every reported result repeats the key its job was submitted with. */
  ghost predicate KeysRepeated(h: seq<Event>) {
    forall k | 0 <= k < |h| && h[k].SetResult? && h[k].result.id != "" :: RepeatsKey(BookOf(h[..k]), h[k].result)
  }

  predicate RepeatsKey(book: Book, result: Job) {
    result.id in book.submitted && book.submitted[result.id].apiKey == result.apiKey
  }

  /** Submitted jobs do not change over a disciplined run. */
  lemma SubmittedJobsStay(s: State, l: Ledger, book: Book, ev: Event)
    requires Guard(s, l, ev) && book.submitted.Keys == l.accepted
    ensures forall k :: k in book.submitted ==>
              k in Note(s, book, l.submissions, ev).submitted
              && Note(s, book, l.submissions, ev).submitted[k] == book.submitted[k]
  {
    hide Step;
    assert ev.Submit? && (Step(s, ev).1.JobId? || Step(s, ev).1.Handed?) ==> Record(s, l, ev) != l;
  }

  lemma {:induction false} RepeatedKeysAgree(h: seq<Event>, id: string)
    requires Disciplined(h) && KeysRepeated(h) && LastReported(h, id).Some?
    ensures RepeatsKey(BookOf(h), LastReported(h, id).value)
  {
    hide Record, JobsMatch, Guard, Note, Disciplined;
    var n := |h| - 1;
    var before := h[..n];
    DisciplinedPrefix(h);
    RunMatches(before);
    NumberedKeys(RunOf(before).s, RunOf(before).l, BookOf(before));
    assert Guard(RunOf(before).s, RunOf(before).l, h[n]) by { LastGuarded(h); }
    SubmittedJobsStay(RunOf(before).s, RunOf(before).l, BookOf(before), h[n]);
    if h[n].SetResult? && h[n].result.id == id && id != "" {
      assert RepeatsKey(BookOf(h[..n]), h[n].result);
    } else {
      assert KeysRepeated(before) by {
        forall k | 0 <= k < n && before[k].SetResult? && before[k].result.id != ""
          ensures RepeatsKey(BookOf(before[..k]), before[k].result)
        {
          assert before[..k] == h[..k] && before[k] == h[k];
        }
      }
      RepeatedKeysAgree(before, id);
    }
  }

  lemma LastGuarded(h: seq<Event>)
    requires h != [] && Disciplined(h)
    ensures Guard(RunOf(h[..|h| - 1]).s, RunOf(h[..|h| - 1]).l, h[|h| - 1])
  {
  }

  lemma NumberedKeys(s: State, l: Ledger, book: Book)
    requires JobsMatch(s, l, book)
    ensures book.submitted.Keys == l.accepted
  {
  }

  /** With workers that repeat the key, a completed job is given to its submitter and to nobody else. */
  lemma SubmitterOnly(h: seq<Event>, id: string, key: string)
    requires Disciplined(h) && KeysRepeated(h) && id in RunOf(h).s.completed
    ensures id in BookOf(h).submitted
    ensures Step(RunOf(h).s, GetResult(id, key)).1.Result? <==> key == BookOf(h).submitted[id].apiKey
  {
    hide Disciplined, RunOf, BookOf, Step, KeysRepeated;
    DeliveredToSubmitterIff(h, id, key);
    RepeatedKeysAgree(h, id);
  }
}
