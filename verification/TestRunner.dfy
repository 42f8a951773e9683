/**
  The parallel test runner of test.py as a state machine.

  One main thread spawns the workers, queues the real jobs, queues one break job
  per worker, collects one result per real job and joins the workers.  The workers
  take jobs from one FIFO and report on another.  A signal handler may raise
  `threadExit` between any two steps.  A schedule is the sequence of these steps.
 */
module TestRunner {
  import opened Wrappers
  import opened Sequences

  /**
    What is known of a test before it is queued: `code` is what running it returns,
    `report` what the test suite leaves behind.
   */
  datatype Spec = Spec(isSkip: bool, isExample: bool, code: int, report: Report)

  /** The report says PASS or SKIP, or anything else, or cannot be read from its file. */
  datatype Report = Passing | Failing | Unreadable

  /** A job object; `id` is its identity, the position at which it is queued. */
  datatype Job = Job(id: nat, isBreak: bool, isSkip: bool, returncode: int)

  /** Where a worker stands in its loop, with the job in its hands. */
  datatype Worker =
    | Waiting                 // blocked in input_queue.get()
    | Got(job: Job)           // the job is dequeued, nothing is tested yet
    | Running(job: Job)       // inside run_job_synchronously
    | Reporting(job: Job)     // about to put the job on the output queue
    | Exited(job: Job)        // returned from run() on this break job

  datatype Main =
    | Spawning | Dispatching | Dismissing | Collecting
    | Joining(joined: nat) | Finished
    | Raised                  // an exception has ended the collection loop

  datatype Event = MainStep | WorkerStep(index: nat) | Interrupt

  datatype Config = Config(specs: seq<Spec>, processors: int) {
    function Jobs(): nat { |specs| }

    /** range(processors) is empty for a process limit below one. */
    function Threads(): nat { if processors < 0 then 0 else processors }

    /** The job queued at position `id`: first the tests, then the break jobs. */
    function Fresh(id: nat): Job {
      if id < |specs| then Job(id, false, specs[id].isSkip, 0) else Job(id, true, false, 0)
    }

    /** Job `id` as it comes back from a worker that was not interrupted. */
    function Completed(id: nat): Job
      requires id < |specs|
    {
      if specs[id].isSkip then Fresh(id) else Fresh(id).(returncode := specs[id].code)
    }

    /** The report of a test suite that says it ran to completion is opened without a safeguard. */
    predicate Raises(job: Job) {
      && !job.isBreak && !job.isSkip && 0 <= job.returncode <= 2
      && job.id < |specs| && !specs[job.id].isExample && specs[job.id].report.Unreadable?
    }
  }

  datatype State = State(
    main: Main,
    workers: seq<Worker>,
    input: seq<Job>,
    output: seq<Job>,
    collected: seq<Job>,
    queued: nat,
    threadExit: bool)

  const INIT := State(Spawning, [], [], [], [], 0, false)

  function Put(c: Config, s: State): State {
    s.(input := s.input + [c.Fresh(s.queued)], queued := s.queued + 1)
  }

  function StepMain(c: Config, s: State): Option<State> {
    match s.main
    case Spawning =>
      if |s.workers| < c.Threads() then Some(s.(workers := s.workers + [Waiting]))
      else Some(s.(main := Dispatching))
    case Dispatching =>
      if s.queued < c.Jobs() then Some(Put(c, s)) else Some(s.(main := Dismissing))
    case Dismissing =>
      if s.queued < c.Jobs() + c.Threads() then Some(Put(c, s)) else Some(s.(main := Collecting))
    case Collecting =>
      if |s.collected| >= c.Jobs() then Some(s.(main := Joining(0)))
      else if s.output == [] then None
      else Some(s.(main := if c.Raises(s.output[0]) then Raised else Collecting,
                   collected := s.collected + [s.output[0]], output := s.output[1..]))
    case Joining(t) =>
      if t >= |s.workers| then Some(s.(main := Finished))
      else if s.workers[t].Exited? then Some(s.(main := Joining(t + 1)))
      else None
    case Finished => None
    case Raised => None
  }

  /** What a worker does with the job it has just dequeued. */
  function Examine(job: Job, threadExit: bool): Worker {
    if job.isBreak then Exited(job)
    else if threadExit then Reporting(job.(isBreak := true))
    else if job.isSkip then Reporting(job)
    else Running(job)
  }

  function StepWorker(c: Config, s: State, w: nat): Option<State> {
    if w >= |s.workers| then None else
    match s.workers[w]
    case Waiting =>
      if s.input == [] then None
      else Some(s.(workers := s.workers[w := Got(s.input[0])], input := s.input[1..]))
    case Got(job) =>
      Some(s.(workers := s.workers[w := Examine(job, s.threadExit)]))
    case Running(job) =>
      var code := if job.id < |c.specs| then c.specs[job.id].code else 0;
      Some(s.(workers := s.workers[w := Reporting(job.(returncode := code))]))
    case Reporting(job) =>
      Some(s.(workers := s.workers[w := Waiting], output := s.output + [job]))
    case Exited(_) => None
  }

  function Step(c: Config, s: State, e: Event): Option<State> {
    match e
    case MainStep => StepMain(c, s)
    case WorkerStep(w) => StepWorker(c, s, w)
    case Interrupt => Some(s.(threadExit := true))
  }

  /** The state a schedule leads to, None when some event of it is not enabled. */
  function RunFrom(c: Config, s: State, schedule: seq<Event>): Option<State>
    decreases |schedule|
  {
    if schedule == [] then Some(s) else
    match Step(c, s, schedule[0])
    case None => None
    case Some(s') => RunFrom(c, s', schedule[1..])
  }

  ghost predicate Reaches(c: Config, schedule: seq<Event>, s: State) {
    RunFrom(c, INIT, schedule) == Some(s)
  }

  // ---------------------------------------------------------------- where jobs are

  function Holding(id: nat): Worker -> int {
    (w: Worker) => if w.Waiting? || w.job.id != id then 0 else 1
  }

  function Busy(): Worker -> int {
    (w: Worker) => if w.Waiting? then 0 else 1
  }

  /** A worker that holds a break job: it has exited or is about to. */
  function Dismissed(n: nat): Worker -> int {
    (w: Worker) => if w.Waiting? || w.job.id < n then 0 else 1
  }

  function Named(id: nat): Job -> int {
    (j: Job) => if j.id == id then 1 else 0
  }

  /** How many jobs have left the input queue. */
  function Taken(s: State): int { s.queued - |s.input| }

  /** In how many places outside the input queue job `id` is. */
  function Places(s: State, id: nat): int {
    Total(s.workers, Holding(id)) + Total(s.output, Named(id)) + Total(s.collected, Named(id))
  }

  // ---------------------------------------------------------------- the invariant

  /** What a result on the output side may look like. */
  ghost predicate Reported(c: Config, threadExit: bool, j: Job) {
    && j.id < c.Jobs()
    && (j == c.Completed(j.id) || (threadExit && j == c.Fresh(j.id).(isBreak := true)))
  }

  ghost predicate WorkerOk(c: Config, threadExit: bool, w: Worker) {
    match w
    case Waiting => true
    case Got(j) => j == c.Fresh(j.id)
    case Running(j) => j.id < c.Jobs() && j == c.Fresh(j.id) && !j.isSkip
    case Reporting(j) => Reported(c, threadExit, j)
    case Exited(j) => c.Jobs() <= j.id && j == c.Fresh(j.id)
  }

  /** Which jobs may be queued, collected and joined in each phase of the main thread. */
  ghost predicate PhaseOk(c: Config, s: State) {
    && |s.workers| <= c.Threads()
    && |s.collected| <= c.Jobs()
    && (!s.main.Spawning? ==> |s.workers| == c.Threads())
    && match s.main
       case Spawning => s.queued == 0
       case Dispatching => s.queued <= c.Jobs()
       case Dismissing => c.Jobs() <= s.queued <= c.Jobs() + c.Threads()
       case Collecting => s.queued == c.Jobs() + c.Threads()
       case Joining(t) =>
         && s.queued == c.Jobs() + c.Threads() && |s.collected| == c.Jobs()
         && t <= |s.workers| && forall i :: 0 <= i < t ==> s.workers[i].Exited?
       case Finished =>
         && s.queued == c.Jobs() + c.Threads() && |s.collected| == c.Jobs()
         && forall i :: 0 <= i < |s.workers| ==> s.workers[i].Exited?
       case Raised => s.queued == c.Jobs() + c.Threads()
  }

  /** Of the collected jobs only the last one may have raised an exception. */
  ghost predicate RaisedOk(c: Config, s: State) {
    var n := |s.collected| - if s.main.Raised? then 1 else 0;
    && (forall i :: 0 <= i < n ==> !c.Raises(s.collected[i]))
    && (s.main.Raised? ==> n >= 0 && c.Raises(s.collected[n]))
  }

  /** The input queue holds the jobs Taken, ..., queued - 1, untouched and in order. */
  ghost predicate Fifo(c: Config, s: State) {
    && |s.input| <= s.queued
    && forall i :: 0 <= i < |s.input| ==> s.input[i] == c.Fresh(Taken(s) + i)
  }

  ghost predicate ContentOk(c: Config, s: State) {
    && (forall i :: 0 <= i < |s.workers| ==> WorkerOk(c, s.threadExit, s.workers[i]))
    && (forall i :: 0 <= i < |s.output| ==> Reported(c, s.threadExit, s.output[i]))
    && (forall i :: 0 <= i < |s.collected| ==> Reported(c, s.threadExit, s.collected[i]))
  }

  /** A job that has left the input queue is in exactly one place, any other in none. */
  ghost predicate Conserved(s: State) {
    forall id: nat :: Places(s, id) == if id < Taken(s) then 1 else 0
  }

  /** The same, counted by place; break jobs are only ever in the hands of workers. */
  ghost predicate Counted(c: Config, s: State) {
    && Total(s.workers, Busy()) + |s.output| + |s.collected| == Taken(s)
    && Total(s.workers, Dismissed(c.Jobs())) == if Taken(s) < c.Jobs() then 0 else Taken(s) - c.Jobs()
  }

  ghost predicate Inv(c: Config, s: State) {
    PhaseOk(c, s) && RaisedOk(c, s) && Fifo(c, s) && ContentOk(c, s) && Conserved(s) && Counted(c, s)
  }

  lemma PhaseStep(c: Config, s: State, e: Event)
    requires PhaseOk(c, s) && Step(c, s, e).Some?
    ensures PhaseOk(c, Step(c, s, e).value)
  {
    match e {
      case MainStep =>
      case WorkerStep(w) =>
      case Interrupt =>
    }
  }

  lemma RaisedStep(c: Config, s: State, e: Event)
    requires RaisedOk(c, s) && Step(c, s, e).Some?
    ensures RaisedOk(c, Step(c, s, e).value)
  {
    match e {
      case MainStep =>
      case WorkerStep(w) =>
      case Interrupt =>
    }
  }

  lemma FifoMain(c: Config, s: State)
    requires Fifo(c, s) && StepMain(c, s).Some?
    ensures Fifo(c, StepMain(c, s).value)
  {
    var s' := StepMain(c, s).value;
    assert Taken(s') == Taken(s);
  }

  lemma FifoWorker(c: Config, s: State, w: nat)
    requires Fifo(c, s) && StepWorker(c, s, w).Some?
    ensures Fifo(c, StepWorker(c, s, w).value)
  {
    var s' := StepWorker(c, s, w).value;
    assert s'.queued == s.queued;
    assert s'.input == s.input || (s.workers[w].Waiting? && s'.input == s.input[1..]);
  }

  lemma ContentMain(c: Config, s: State)
    requires ContentOk(c, s) && StepMain(c, s).Some?
    ensures ContentOk(c, StepMain(c, s).value)
  {
  }

  lemma ContentWorker(c: Config, s: State, w: nat)
    requires Fifo(c, s) && ContentOk(c, s) && StepWorker(c, s, w).Some?
    ensures ContentOk(c, StepWorker(c, s, w).value)
  {
    var s' := StepWorker(c, s, w).value;
    assert WorkerOk(c, s.threadExit, s.workers[w]);
    assert WorkerOk(c, s.threadExit, s'.workers[w]);
    assert s.workers[w].Reporting? || s'.output == s.output;
  }

  lemma PlacesMain(c: Config, s: State, id: nat)
    requires StepMain(c, s).Some?
    ensures Places(StepMain(c, s).value, id) == Places(s, id)
  {
    if s.main.Spawning? && |s.workers| < c.Threads() {
      TotalAppend(s.workers, Waiting, Holding(id));
    } else if s.main.Collecting? && |s.collected| < c.Jobs() {
      TotalAppend(s.collected, s.output[0], Named(id));
    }
  }

  lemma PlacesWorker(c: Config, s: State, w: nat, id: nat)
    requires Fifo(c, s) && StepWorker(c, s, w).Some?
    ensures var s' := StepWorker(c, s, w).value;
            Places(s', id) == Places(s, id) + if Taken(s) <= id < Taken(s') then 1 else 0
  {
    var s' := StepWorker(c, s, w).value;
    TotalUpdate(s.workers, w, s'.workers[w], Holding(id));
    if s.workers[w].Reporting? {
      TotalAppend(s.output, s.workers[w].job, Named(id));
    }
  }

  lemma CountedMain(c: Config, s: State)
    requires Counted(c, s) && StepMain(c, s).Some?
    ensures Counted(c, StepMain(c, s).value)
  {
    if s.main.Spawning? && |s.workers| < c.Threads() {
      TotalAppend(s.workers, Waiting, Busy());
      TotalAppend(s.workers, Waiting, Dismissed(c.Jobs()));
    }
  }

  lemma CountedWorker(c: Config, s: State, w: nat)
    requires Fifo(c, s) && ContentOk(c, s) && Counted(c, s) && StepWorker(c, s, w).Some?
    ensures Counted(c, StepWorker(c, s, w).value)
  {
    var s' := StepWorker(c, s, w).value;
    var n := c.Jobs();
    TotalUpdate(s.workers, w, s'.workers[w], Busy());
    TotalUpdate(s.workers, w, s'.workers[w], Dismissed(n));
    assert WorkerOk(c, s.threadExit, s.workers[w]);
    if s.workers[w].Waiting? {
      assert s.input[0] == c.Fresh(Taken(s));
      assert Taken(s') == Taken(s) + 1;
    } else {
      assert Taken(s') == Taken(s);
      assert Dismissed(n)(s.workers[w]) == (if s'.workers[w].Waiting? then 0 else Dismissed(n)(s'.workers[w]));
    }
  }

  lemma ConservedStep(c: Config, s: State, e: Event)
    requires Fifo(c, s) && Conserved(s) && Step(c, s, e).Some?
    ensures Conserved(Step(c, s, e).value)
  {
    var s' := Step(c, s, e).value;
    assert Taken(s) <= Taken(s') && (e.WorkerStep? || Taken(s') == Taken(s));
    forall id: nat
      ensures Places(s', id) == if id < Taken(s') then 1 else 0
    {
      assert Places(s, id) == if id < Taken(s) then 1 else 0;
      match e {
        case MainStep => PlacesMain(c, s, id);
        case WorkerStep(w) => PlacesWorker(c, s, w, id);
        case Interrupt =>
      }
    }
  }

  lemma InvStep(c: Config, s: State, e: Event)
    requires Inv(c, s) && Step(c, s, e).Some?
    ensures Inv(c, Step(c, s, e).value)
  {
    PhaseStep(c, s, e);
    RaisedStep(c, s, e);
    match e {
      case MainStep => FifoMain(c, s); ContentMain(c, s); CountedMain(c, s);
      case WorkerStep(w) => FifoWorker(c, s, w); ContentWorker(c, s, w); CountedWorker(c, s, w);
      case Interrupt =>
    }
    ConservedStep(c, s, e);
  }

  lemma {:induction false} InvRun(c: Config, s: State, schedule: seq<Event>)
    requires Inv(c, s) && RunFrom(c, s, schedule).Some?
    ensures Inv(c, RunFrom(c, s, schedule).value)
    decreases |schedule|
  {
    if schedule != [] {
      InvStep(c, s, schedule[0]);
      InvRun(c, Step(c, s, schedule[0]).value, schedule[1..]);
    }
  }

  lemma InvReached(c: Config, schedule: seq<Event>, s: State)
    requires Reaches(c, schedule, s)
    ensures Inv(c, s)
  {
    InvRun(c, INIT, schedule);
  }
}
