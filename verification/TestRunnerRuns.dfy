/** What holds of every run of the test runner, whatever the schedule. */
module TestRunnerRuns {
  import opened Wrappers
  import opened Sequences
  import opened TestRunner

  // ---------------------------------------------------------------- conservation

  lemma {:induction false} ConsecutiveIds(jobs: seq<Job>, first: int, id: nat)
    requires forall i :: 0 <= i < |jobs| ==> jobs[i].id == first + i
    ensures Total(jobs, Named(id)) == if first <= id < first + |jobs| then 1 else 0
  {
    if jobs != [] {
      ConsecutiveIds(jobs[1..], first + 1, id);
    }
  }

  /** Every queued job is in exactly one place, and nothing else is anywhere. */
  lemma EachJobInOnePlace(c: Config, schedule: seq<Event>, s: State, id: nat)
    requires Reaches(c, schedule, s)
    ensures Total(s.input, Named(id)) + Total(s.workers, Holding(id))
            + Total(s.output, Named(id)) + Total(s.collected, Named(id))
            == if id < s.queued then 1 else 0
  {
    InvReached(c, schedule, s);
    ConsecutiveIds(s.input, Taken(s), id);
    assert Places(s, id) == if id < Taken(s) then 1 else 0;
  }

  /**
    Break jobs never come back, and only break jobs end a worker: a test that an
    interrupt has marked does not.
   */
  lemma BreakJobsEndWorkersOnly(c: Config, schedule: seq<Event>, s: State)
    requires Reaches(c, schedule, s)
    ensures forall j :: j in s.output + s.collected ==> j.id < c.Jobs()
    ensures forall w :: w in s.workers && w.Exited? ==> c.Jobs() <= w.job.id
    ensures forall w :: w in s.workers && !w.Waiting? && !w.Got? && w.job.id < c.Jobs() ==>
              w.Running? || w.Reporting?
  {
    InvReached(c, schedule, s);
    forall w | w in s.workers ensures WorkerOk(c, s.threadExit, w) {
      var i :| 0 <= i < |s.workers| && s.workers[i] == w;
    }
  }

  // ---------------------------------------------------------------- no deadlock

  /** Some worker can come up with every break job, or there is nothing to do. */
  predicate Manned(c: Config) { c.processors >= 1 || c.specs == [] }

  ghost predicate Enabled(c: Config, s: State, e: Event) {
    e != Interrupt && Step(c, s, e).Some?
  }

  /** When no worker has a step left, all have exited and every result is back. */
  lemma QuietMeansDone(c: Config, s: State)
    requires Inv(c, s) && Manned(c) && s.queued == c.Jobs() + c.Threads() && |s.workers| == c.Threads()
    requires forall i: nat :: i < |s.workers| ==> StepWorker(c, s, i).None?
    ensures forall i :: 0 <= i < |s.workers| ==> s.workers[i].Exited?
    ensures s.input == [] && |s.output| + |s.collected| == c.Jobs()
  {
    var n := c.Jobs();
    forall i | 0 <= i < |s.workers|
      ensures s.workers[i].Exited? || (s.workers[i].Waiting? && s.input == [])
      ensures 0 <= Dismissed(n)(s.workers[i]) <= 1 && 0 <= Busy()(s.workers[i]) <= 1
      ensures s.workers[i].Exited? ==> Dismissed(n)(s.workers[i]) == 1 == Busy()(s.workers[i])
    {
      assert StepWorker(c, s, i).None?;
      assert WorkerOk(c, s.threadExit, s.workers[i]);
    }
    if s.input != [] {
      TotalBounds(s.workers, Dismissed(n), 1, 1);
    }
    TotalBounds(s.workers, Dismissed(n), 0, 1);
    assert forall i :: 0 <= i < |s.workers| ==> Dismissed(n)(s.workers[i]) == 1;
    TotalBounds(s.workers, Busy(), 1, 1);
  }

  /** The joins are done, or the main thread has died and the workers have run out of jobs. */
  predicate Over(s: State) {
    s.main.Finished? || (s.main.Raised? && forall i :: 0 <= i < |s.workers| ==> s.workers[i].Exited?)
  }

  /** Until the run is over, some thread can take a step. */
  lemma NeverStuck(c: Config, schedule: seq<Event>, s: State)
    requires Reaches(c, schedule, s) && Manned(c) && !Over(s)
    ensures exists e :: Enabled(c, s, e)
  {
    InvReached(c, schedule, s);
    SomeStep(c, s);
  }

  lemma SomeStep(c: Config, s: State)
    requires Inv(c, s) && Manned(c) && !Over(s)
    ensures exists e :: Enabled(c, s, e)
  {
    if StepMain(c, s).Some? {
      assert Enabled(c, s, MainStep);
    } else if i: nat :| i < |s.workers| && StepWorker(c, s, i).Some? {
      assert Enabled(c, s, WorkerStep(i));
    } else {
      QuietMeansDone(c, s);
      assert false;
    }
  }

  /** At the end both queues are empty, every result is collected and every worker is gone. */
  lemma FinishedIsClean(c: Config, schedule: seq<Event>, s: State)
    requires Reaches(c, schedule, s) && s.main.Finished?
    ensures s.input == [] && s.output == [] && |s.collected| == c.Jobs()
    ensures |s.workers| == if c.processors < 0 then 0 else c.processors
    ensures forall i :: 0 <= i < |s.workers| ==> s.workers[i].Exited?
    ensures forall id: nat :: Total(s.collected, Named(id)) == if id < c.Jobs() then 1 else 0
  {
    InvReached(c, schedule, s);
    if !Manned(c) {
      UnmannedStandsStill(c, schedule, s);
    }
    forall i: nat | i < |s.workers| ensures StepWorker(c, s, i).None? { }
    QuietMeansDone(c, s);
    forall id: nat
      ensures Total(s.collected, Named(id)) == if id < c.Jobs() then 1 else 0
    {
      CollectedOnce(c, s, id);
    }
  }

  /** However the run ends, the workers are gone and no job is left to them. */
  lemma OverIsClean(c: Config, schedule: seq<Event>, s: State)
    requires Reaches(c, schedule, s) && Over(s)
    ensures s.input == [] && |s.output| + |s.collected| == c.Jobs()
    ensures |s.workers| == c.Threads() && forall i :: 0 <= i < |s.workers| ==> s.workers[i].Exited?
  {
    InvReached(c, schedule, s);
    if !Manned(c) {
      UnmannedStandsStill(c, schedule, s);
    }
    forall i: nat | i < |s.workers| ensures StepWorker(c, s, i).None? { }
    QuietMeansDone(c, s);
  }

  lemma CollectedOnce(c: Config, s: State, id: nat)
    requires ContentOk(c, s) && Conserved(s) && c.Jobs() <= Taken(s) && s.output == []
    requires forall i :: 0 <= i < |s.workers| ==> s.workers[i].Exited?
    ensures Total(s.collected, Named(id)) == if id < c.Jobs() then 1 else 0
  {
    if id < c.Jobs() {
      assert Places(s, id) == 1;
      forall i | 0 <= i < |s.workers| ensures Holding(id)(s.workers[i]) == 0 {
        assert WorkerOk(c, s.threadExit, s.workers[i]);
      }
      TotalBounds(s.workers, Holding(id), 0, 0);
    } else {
      NoneNamed(c, s.threadExit, s.collected, id);
    }
  }

  lemma NoneNamed(c: Config, threadExit: bool, jobs: seq<Job>, id: nat)
    requires forall i :: 0 <= i < |jobs| ==> Reported(c, threadExit, jobs[i])
    requires c.Jobs() <= id
    ensures Total(jobs, Named(id)) == 0
  {
    TotalBounds(jobs, Named(id), 0, 0);
  }

  // ---------------------------------------------------------------- termination

  /** Steps a worker still needs to be done with the job in its hands. */
  function Load(): Worker -> int {
    (w: Worker) => match w
                   case Waiting => 0
                   case Got(_) => 4
                   case Running(_) => 3
                   case Reporting(_) => 2
                   case Exited(_) => 0
  }

  function PhaseWork(c: Config, s: State): int {
    match s.main
    case Spawning => 5 + c.Threads()
    case Dispatching => 4 + c.Threads()
    case Dismissing => 3 + c.Threads()
    case Collecting => 2 + c.Threads()
    case Joining(t) => 1 + c.Threads() - t
    case Finished => 0
    case Raised => 0
  }

  function Work(c: Config, s: State): int {
    (c.Threads() - |s.workers|) + 6 * (c.Jobs() + c.Threads() - s.queued)
    + 5 * |s.input| + Total(s.workers, Load()) + |s.output| + PhaseWork(c, s)
  }

  lemma WorkIsNatural(c: Config, s: State)
    requires PhaseOk(c, s)
    ensures Work(c, s) >= 0
  {
    TotalBounds(s.workers, Load(), 0, 4);
  }

  lemma WorkShrinksMain(c: Config, s: State)
    requires PhaseOk(c, s) && StepMain(c, s).Some?
    ensures Work(c, StepMain(c, s).value) < Work(c, s)
  {
    if s.main.Spawning? && |s.workers| < c.Threads() {
      TotalAppend(s.workers, Waiting, Load());
    }
  }

  lemma WorkShrinksWorker(c: Config, s: State, w: nat)
    requires StepWorker(c, s, w).Some?
    ensures Work(c, StepWorker(c, s, w).value) < Work(c, s)
  {
    var s' := StepWorker(c, s, w).value;
    TotalUpdate(s.workers, w, s'.workers[w], Load());
    assert PhaseWork(c, s') == PhaseWork(c, s);
  }

  lemma WorkShrinks(c: Config, s: State, e: Event)
    requires PhaseOk(c, s) && Step(c, s, e).Some?
    ensures var s' := Step(c, s, e).value;
            if e == Interrupt then Work(c, s') == Work(c, s) else Work(c, s') < Work(c, s)
  {
    match e {
      case MainStep => WorkShrinksMain(c, s);
      case WorkerStep(w) => WorkShrinksWorker(c, s, w);
      case Interrupt =>
    }
  }

  /** The steps of a schedule that are not a raised signal. */
  function Moves(schedule: seq<Event>): nat {
    if schedule == [] then 0
    else (if schedule[0] == Interrupt then 0 else 1) + Moves(schedule[1..])
  }

  lemma {:induction false} MovesBounded(c: Config, s: State, schedule: seq<Event>)
    requires Inv(c, s) && RunFrom(c, s, schedule).Some?
    ensures Moves(schedule) + Work(c, RunFrom(c, s, schedule).value) <= Work(c, s)
    decreases |schedule|
  {
    if schedule != [] {
      var s' := Step(c, s, schedule[0]).value;
      InvStep(c, s, schedule[0]);
      WorkShrinks(c, s, schedule[0]);
      MovesBounded(c, s', schedule[1..]);
    }
  }

  /** No run goes on for ever: the number of its steps is bounded beforehand. */
  lemma EveryRunIsFinite(c: Config, schedule: seq<Event>, s: State)
    requires Reaches(c, schedule, s)
    ensures Moves(schedule) <= 6 * c.Jobs() + 8 * c.Threads() + 5
  {
    MovesBounded(c, INIT, schedule);
    InvReached(c, schedule, s);
    WorkIsNatural(c, s);
  }

  lemma {:induction false} Completion(c: Config, s: State) returns (rest: seq<Event>)
    requires Inv(c, s) && Manned(c)
    ensures RunFrom(c, s, rest).Some? && Over(RunFrom(c, s, rest).value) && Interrupt !in rest
    decreases Work(c, s)
  {
    if Over(s) {
      return [];
    }
    SomeStep(c, s);
    var e :| Enabled(c, s, e);
    InvStep(c, s, e);
    WorkShrinks(c, s, e);
    WorkIsNatural(c, s);
    WorkIsNatural(c, Step(c, s, e).value);
    var more := Completion(c, Step(c, s, e).value);
    rest := [e] + more;
    assert rest[1..] == more;
  }

  // ---------------------------------------------------------------- no workers

  ghost predicate Untouched(s: State) {
    s.workers == [] && Taken(s) == 0 && s.output == [] && s.collected == []
  }

  ghost predicate StillCollecting(s: State) { !s.main.Joining? && !s.main.Finished? && !s.main.Raised? }

  lemma {:induction false} UntouchedRun(c: Config, s: State, schedule: seq<Event>)
    requires Untouched(s) && c.Threads() == 0 && RunFrom(c, s, schedule).Some?
    requires c.Jobs() > 0 ==> StillCollecting(s)
    ensures var s' := RunFrom(c, s, schedule).value;
            Untouched(s') && (c.Jobs() > 0 ==> StillCollecting(s'))
    decreases |schedule|
  {
    if schedule != [] {
      UntouchedRun(c, Step(c, s, schedule[0]).value, schedule[1..]);
    }
  }

  lemma UnmannedStandsStill(c: Config, schedule: seq<Event>, s: State)
    requires Reaches(c, schedule, s) && !Manned(c)
    ensures !Over(s)
  {
    UntouchedRun(c, INIT, schedule);
  }

  ghost predicate CanEnd(c: Config, s: State) {
    exists rest :: RunFrom(c, s, rest).Some? && Over(RunFrom(c, s, rest).value)
  }

  /** Every run can be brought to its end exactly when the runner is manned. */
  lemma CompletesIffManned(c: Config)
    ensures Manned(c) <==> forall schedule, s :: Reaches(c, schedule, s) ==> CanEnd(c, s)
  {
    if Manned(c) {
      forall schedule, s | Reaches(c, schedule, s)
        ensures CanEnd(c, s)
      {
        InvReached(c, schedule, s);
        var rest := Completion(c, s);
      }
    } else {
      assert Reaches(c, [], INIT);
      if rest :| RunFrom(c, INIT, rest).Some? && Over(RunFrom(c, INIT, rest).value) {
        UnmannedStandsStill(c, rest, RunFrom(c, INIT, rest).value);
      }
    }
  }

  // ---------------------------------------------------------------- interrupts

  /** The exit flag is up exactly when a signal has come. */
  lemma {:induction false} FlagIffInterrupted(c: Config, s: State, schedule: seq<Event>)
    requires RunFrom(c, s, schedule).Some?
    ensures RunFrom(c, s, schedule).value.threadExit <==> s.threadExit || Interrupt in schedule
    decreases |schedule|
  {
    if schedule != [] {
      FlagIffInterrupted(c, Step(c, s, schedule[0]).value, schedule[1..]);
      assert schedule == [schedule[0]] + schedule[1..];
    }
  }

  /** A worker past the exit test, that will report its job as a real result. */
  predicate Committed(w: Worker) {
    w.Running? || (w.Reporting? && !w.job.isBreak)
  }

  function CommittedTo(ids: iset<nat>): Worker -> int {
    (w: Worker) => if Committed(w) && w.job.id in ids then 1 else 0
  }

  function Genuine(ids: iset<nat>): Job -> int {
    (j: Job) => if !j.isBreak && j.id in ids then 1 else 0
  }

  /** How many real results have come back for the jobs in ids. */
  function Delivered(s: State, ids: iset<nat>): int {
    Total(s.output, Genuine(ids)) + Total(s.collected, Genuine(ids))
  }

  lemma InterruptedMain(c: Config, s: State, ids: iset<nat>)
    requires StepMain(c, s).Some?
    ensures var s' := StepMain(c, s).value;
            && Total(s'.workers, CommittedTo(ids)) == Total(s.workers, CommittedTo(ids))
            && Delivered(s', ids) == Delivered(s, ids)
  {
    if s.main.Spawning? && |s.workers| < c.Threads() {
      TotalAppend(s.workers, Waiting, CommittedTo(ids));
    } else if s.main.Collecting? && |s.collected| < c.Jobs() {
      TotalAppend(s.collected, s.output[0], Genuine(ids));
    }
  }

  lemma InterruptedWorker(c: Config, s: State, w: nat, ids: iset<nat>)
    requires ContentOk(c, s) && s.threadExit && StepWorker(c, s, w).Some?
    ensures var s' := StepWorker(c, s, w).value;
            Total(s'.workers, CommittedTo(ids)) + Delivered(s', ids)
            == Total(s.workers, CommittedTo(ids)) + Delivered(s, ids)
  {
    var s' := StepWorker(c, s, w).value;
    assert WorkerOk(c, s.threadExit, s.workers[w]);
    TotalUpdate(s.workers, w, s'.workers[w], CommittedTo(ids));
    if s.workers[w].Reporting? {
      TotalAppend(s.output, s.workers[w].job, Genuine(ids));
    }
  }

  lemma InterruptedStep(c: Config, s: State, e: Event, ids: iset<nat>)
    requires Inv(c, s) && s.threadExit && Step(c, s, e).Some?
    ensures var s' := Step(c, s, e).value;
            && s'.threadExit
            && Total(s'.workers, CommittedTo(ids)) + Delivered(s', ids)
               == Total(s.workers, CommittedTo(ids)) + Delivered(s, ids)
  {
    match e {
      case MainStep => InterruptedMain(c, s, ids);
      case WorkerStep(w) => InterruptedWorker(c, s, w, ids);
      case Interrupt =>
    }
  }

  lemma {:induction false} InterruptedRun(c: Config, s: State, rest: seq<Event>, ids: iset<nat>)
    requires Inv(c, s) && s.threadExit && RunFrom(c, s, rest).Some?
    ensures var s' := RunFrom(c, s, rest).value;
            Total(s'.workers, CommittedTo(ids)) + Delivered(s', ids)
            == Total(s.workers, CommittedTo(ids)) + Delivered(s, ids)
    decreases |rest|
  {
    if rest != [] {
      InterruptedStep(c, s, rest[0], ids);
      InvStep(c, s, rest[0]);
      InterruptedRun(c, Step(c, s, rest[0]).value, rest[1..], ids);
    }
  }

  /**
    Once the exit flag is up, the only real results still to come are those of the
    jobs that workers were already past the exit test with: one at most per worker.
   */
  lemma AfterInterrupt(c: Config, schedule: seq<Event>, s: State, rest: seq<Event>, s': State, ids: iset<nat>)
    requires Reaches(c, schedule, s) && Interrupt in schedule && RunFrom(c, s, rest) == Some(s')
    ensures Delivered(s', ids) <= Delivered(s, ids) + Total(s.workers, CommittedTo(ids))
    ensures Total(s.workers, CommittedTo(ids)) <= |s.workers| <= c.Threads()
    ensures (forall w :: w in s.workers && Committed(w) ==> w.job.id !in ids) ==>
              Delivered(s', ids) <= Delivered(s, ids)
  {
    assert Inv(c, s) by {
      InvReached(c, schedule, s);
    }
    FlagIffInterrupted(c, INIT, schedule);
    InterruptedRun(c, s, rest, ids);
    CommittedBounds(s'.workers, ids);
    CommittedBounds(s.workers, ids);
  }

  lemma CommittedBounds(ws: seq<Worker>, ids: iset<nat>)
    ensures 0 <= Total(ws, CommittedTo(ids)) <= |ws|
    ensures (forall w :: w in ws && Committed(w) ==> w.job.id !in ids) ==>
              Total(ws, CommittedTo(ids)) == 0
  {
    TotalBounds(ws, CommittedTo(ids), 0, 1);
    if forall w :: w in ws && Committed(w) ==> w.job.id !in ids {
      TotalBounds(ws, CommittedTo(ids), 0, 0);
    }
  }
}
