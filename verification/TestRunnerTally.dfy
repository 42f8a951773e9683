/** The collection loop of test.py and what its counters say about a finished run. */
module TestRunnerTally {
  import opened Wrappers
  import opened Sequences
  import opened TestRunner
  import opened TestRunnerRuns

  datatype Status = INTERRUPTED | SKIP | PASS | FAIL | VALGR | CRASH

  function StatusOf(j: Job): Status {
    if j.isBreak then INTERRUPTED
    else if j.isSkip then SKIP
    else if j.returncode == 0 then PASS
    else if j.returncode == 1 then FAIL
    else if j.returncode == 2 then VALGR
    else CRASH
  }

  function Is(st: Status): Job -> int {
    (j: Job) => if StatusOf(j) == st then 1 else 0
  }

  /** How many of the jobs have the given status. */
  function Count(jobs: seq<Job>, st: Status): int { Total(jobs, Is(st)) }

  /** How often a collected job ends up in failed_jobs. */
  function FailedCopies(c: Config, j: Job): int
    requires j.id < c.Jobs()
  {
    if j.isBreak || j.isSkip then 0 else
    var spec := c.specs[j.id];
    (if j.returncode != 0 then 1 else 0)
    + (if spec.isExample || (0 <= j.returncode <= 2 && spec.report.Passing?) then 0 else 1)
  }

  /** The same for the test itself: its code and its report each put it there once. */
  function FailedEntries(spec: Spec): nat {
    if spec.isSkip then 0
    else if spec.isExample then (if spec.code == 0 then 0 else 1)
    else if spec.code == 0 then (if spec.report.Passing? then 0 else 1)
    else if spec.code in {1, 2} && spec.report.Passing? then 1
    else 2
  }

  lemma {:induction false} EntriesOf(jobs: seq<nat>, id: nat)
    ensures Total(jobs, Equals(id)) == multiset(jobs)[id]
  {
    if jobs != [] {
      EntriesOf(jobs[1..], id);
      assert jobs == [jobs[0]] + jobs[1..];
    }
  }

  function Copies(k: int, id: nat): seq<nat> {
    if k <= 0 then [] else if k == 1 then [id] else [id, id]
  }

  function CopiesOf(c: Config, id: nat): Job -> int {
    (j: Job) => if j.id == id && id < c.Jobs() then FailedCopies(c, j) else 0
  }

  function Equals(id: nat): nat -> int { (x: nat) => if x == id then 1 else 0 }

  class Counters {
    var passed: nat
    var failed: nat
    var valgrind: nat
    var crashed: nat
    var skipped: nat
    var failedJobs: seq<nat>

    constructor ()
      ensures passed == failed == valgrind == crashed == skipped == 0 && failedJobs == []
    {
      passed, failed, valgrind, crashed, skipped := 0, 0, 0, 0, 0;
      failedJobs := [];
    }

    /** The counters and failed_jobs are those of the given results. */
    ghost predicate Describes(c: Config, results: seq<Job>)
      reads this
    {
      && passed == Count(results, PASS)
      && failed == Count(results, FAIL)
      && valgrind == Count(results, VALGR)
      && crashed == Count(results, CRASH)
      && skipped == Count(results, SKIP)
      && forall id: nat :: Total(failedJobs, Equals(id)) == Total(results, CopiesOf(c, id))
    }

    /** One round of the collection loop, that an exception may end. */
    method Record(c: Config, job: Job, ghost before: seq<Job>) returns (raised: bool)
      requires job.id < c.Jobs() && Describes(c, before)
      modifies this
      ensures Describes(c, before + [job])
      ensures raised <==> && !job.isBreak && !job.isSkip && 0 <= job.returncode <= 2
                          && !c.specs[job.id].isExample && c.specs[job.id].report.Unreadable?
    {
      ghost var oldJobs := failedJobs;
      forall st ensures Count(before + [job], st) == Count(before, st) + Is(st)(job) {
        TotalAppend(before, job, Is(st));
      }
      var spec := c.specs[job.id];
      raised := false;
      if !job.isBreak {
        if job.isSkip {
          skipped := skipped + 1;
        } else {
          failedJobs := failedJobs + [job.id];
          if job.returncode == 0 {
            passed := passed + 1;
            failedJobs := failedJobs[..|failedJobs| - 1];
          } else if job.returncode == 1 {
            failed := failed + 1;
          } else if job.returncode == 2 {
            valgrind := valgrind + 1;
          } else {
            crashed := crashed + 1;
          }
        }
        if !spec.isExample && !job.isSkip {
          failedJobs := failedJobs + [job.id];
          if job.returncode == 0 || job.returncode == 1 || job.returncode == 2 {
            if spec.report.Unreadable? {
              raised := true;
            } else if spec.report.Passing? {
              failedJobs := failedJobs[..|failedJobs| - 1];
            }
          }
        }
      }
      var k := FailedCopies(c, job);
      assert failedJobs == oldJobs + Copies(k, job.id);
      forall id: nat
        ensures Total(failedJobs, Equals(id)) == Total(before + [job], CopiesOf(c, id))
      {
        TotalAppend(before, job, CopiesOf(c, id));
        CopiesAppended(oldJobs, k, job.id, id);
      }
    }

    /**
      The collection loop over the results in the order they arrive, and the value that
      run_tests returns; None when a result ends the loop with an exception.
     */
    method Collect(c: Config, results: seq<Job>) returns (status: Option<int>)
      requires forall j :: j in results ==> j.id < c.Jobs()
      requires passed == failed == valgrind == crashed == skipped == 0 && failedJobs == []
      modifies this
      ensures status.None? <==> exists j :: j in results && c.Raises(j)
      ensures status.Some? ==> Describes(c, results) && status.value == ExitStatus(c, results)
      ensures status.None? ==> exists k :: 0 <= k < |results| && EndsAt(c, results, k) && Describes(c, results[..k + 1])
    {
      for i := 0 to |results|
        invariant Describes(c, results[..i])
        invariant forall j :: 0 <= j < i ==> !c.Raises(results[j])
      {
        var raised := Record(c, results[i], results[..i]);
        assert results[..i] + [results[i]] == results[..i + 1];
        if raised {
          assert EndsAt(c, results, i);
          return None;
        }
      }
      assert results[..|results|] == results;
      status := Some(if passed + skipped == |c.specs| then 0 else 1);
    }

    /**
      The loop over the results of a finished run, in terms of the tests alone.  Without
      an interrupt each counter is the number of tests of its kind, under every schedule.
     */
    method CollectFinishedRun(c: Config, ghost schedule: seq<Event>, ghost s: State, results: seq<Job>)
        returns (status: Option<int>)
      requires Reaches(c, schedule, s) && s.main.Finished? && results == s.collected
      requires passed == failed == valgrind == crashed == skipped == 0 && failedJobs == []
      modifies this
      ensures status == Some(0) || status == Some(1)
      ensures status == Some(0) <==>
              && (forall spec :: spec in c.specs ==> spec.isSkip || spec.code == 0)
              && (forall j :: j in results ==> !j.isBreak)
      ensures Interrupt !in schedule ==>
                && passed == |Tests(c, (spec: Spec) => !spec.isSkip && spec.code == 0)|
                && failed == |Tests(c, (spec: Spec) => !spec.isSkip && spec.code == 1)|
                && valgrind == |Tests(c, (spec: Spec) => !spec.isSkip && spec.code == 2)|
                && crashed == |Tests(c, (spec: Spec) => !spec.isSkip && spec.code !in {0, 1, 2})|
                && skipped == |Tests(c, (spec: Spec) => spec.isSkip)|
      ensures Interrupt !in schedule ==>
                forall id: nat :: id < |c.specs| ==> multiset(failedJobs)[id] == FailedEntries(c.specs[id])
    {
      RaisedAtLast(c, schedule, s);
      CollectedJobs(c, schedule, s);
      status := Collect(c, results);
      ExitStatusOfFinishedRun(c, schedule, s);
      if Interrupt !in schedule {
        CountersBySpecs(c, schedule, s);
        forall id: nat | id < |c.specs| ensures multiset(failedJobs)[id] == FailedEntries(c.specs[id]) {
          EntriesOf(failedJobs, id);
          FailedJobsOfFinishedRun(c, schedule, s, id);
        }
      }
    }
  }

  /** Result k is the first that raises an exception. */
  ghost predicate EndsAt(c: Config, results: seq<Job>, k: nat)
    requires k < |results|
  {
    c.Raises(results[k]) && forall j :: 0 <= j < k ==> !c.Raises(results[j])
  }

  lemma CopiesAppended(jobs: seq<nat>, k: int, x: nat, id: nat)
    requires 0 <= k <= 2
    ensures Total(jobs + Copies(k, x), Equals(id)) == Total(jobs, Equals(id)) + if x == id then k else 0
  {
    var more := Copies(k, x);
    TotalConcat(jobs, more, Equals(id));
    TotalBounds(more, Equals(id), if x == id then 1 else 0, if x == id then 1 else 0);
  }

  function ExitStatus(c: Config, results: seq<Job>): int {
    if Count(results, PASS) + Count(results, SKIP) == c.Jobs() then 0 else 1
  }

  // ---------------------------------------------------------------- every schedule alike

  /** The sum of g over the completed jobs 0, ..., k - 1. */
  function PlanTotal(c: Config, k: nat, g: Job -> int): int
    requires k <= c.Jobs()
  {
    if k == 0 then 0 else PlanTotal(c, k - 1, g) + g(c.Completed(k - 1))
  }

  /** How many of the queued tests have the given status of their own accord. */
  function PlanCount(c: Config, st: Status): int { PlanTotal(c, c.Jobs(), Is(st)) }

  lemma {:induction false} FindNamed(jobs: seq<Job>, id: nat) returns (i: nat)
    requires Total(jobs, Named(id)) > 0
    ensures i < |jobs| && jobs[i].id == id
  {
    if jobs[0].id == id {
      return 0;
    }
    i := FindNamed(jobs[1..], id);
    i := i + 1;
  }

  /** Jobs that carry the identities 0, ..., k - 1 once each add up to the plan. */
  lemma {:induction false} TotalByIdentity(c: Config, jobs: seq<Job>, k: nat, f: Job -> int, g: Job -> int)
    requires k <= c.Jobs()
    requires forall id: nat :: Total(jobs, Named(id)) == if id < k then 1 else 0
    requires forall j :: j in jobs ==> j.id < c.Jobs() && f(j) <= g(c.Completed(j.id))
    ensures Total(jobs, f) <= PlanTotal(c, k, g)
    ensures (forall j :: j in jobs ==> f(j) == g(c.Completed(j.id))) ==>
              Total(jobs, f) == PlanTotal(c, k, g)
    decreases k
  {
    if k == 0 {
      if jobs != [] {
        FindOwn(jobs);
      }
    } else {
      assert Total(jobs, Named(k - 1)) == 1;
      var i := FindNamed(jobs, k - 1);
      var others := jobs[..i] + jobs[i + 1..];
      forall id: nat ensures Total(others, Named(id)) == if id < k - 1 then 1 else 0 {
        TotalRemove(jobs, i, Named(id));
        assert Total(jobs, Named(id)) == if id < k then 1 else 0;
      }
      TotalRemove(jobs, i, f);
      assert forall j :: j in others ==> j in jobs;
      TotalByIdentity(c, others, k - 1, f, g);
    }
  }

  lemma FindOwn(jobs: seq<Job>)
    requires jobs != []
    ensures Total(jobs, Named(jobs[0].id)) > 0
  {
    if |jobs| > 1 {
      TotalBounds(jobs[1..], Named(jobs[0].id), 0, 1);
    }
  }

  lemma CollectedJobs(c: Config, schedule: seq<Event>, s: State)
    requires Reaches(c, schedule, s)
    ensures forall j :: j in s.collected ==>
              j.id < c.Jobs() && (j == c.Completed(j.id) || (s.threadExit && StatusOf(j) == INTERRUPTED))
    ensures Interrupt !in schedule ==> !s.threadExit
  {
    InvReached(c, schedule, s);
    FlagIffInterrupted(c, INIT, schedule);
    forall j | j in s.collected ensures Reported(c, s.threadExit, j) {
      var i :| 0 <= i < |s.collected| && s.collected[i] == j;
    }
  }

  /**
    An interrupt can only take results away from a counter.  Without one, the
    counters of a finished run are those of the tests, whatever the schedule.
   */
  lemma CountersOfFinishedRun(c: Config, schedule: seq<Event>, s: State, st: Status)
    requires Reaches(c, schedule, s) && s.main.Finished?
    ensures st != INTERRUPTED ==> Count(s.collected, st) <= PlanCount(c, st)
    ensures Interrupt !in schedule ==> Count(s.collected, st) == PlanCount(c, st)
  {
    CollectedJobs(c, schedule, s);
    FinishedIsClean(c, schedule, s);
    if st != INTERRUPTED || Interrupt !in schedule {
      TotalByIdentity(c, s.collected, c.Jobs(), Is(st), Is(st));
    }
  }

  /** Each collected job is counted once. */
  lemma {:induction false} CountersAddUp(jobs: seq<Job>)
    ensures Count(jobs, PASS) + Count(jobs, FAIL) + Count(jobs, VALGR) + Count(jobs, CRASH)
            + Count(jobs, SKIP) + Count(jobs, INTERRUPTED) == |jobs|
  {
    if jobs != [] { CountersAddUp(jobs[1..]); }
  }

  /** The tests of a plan with a property. */
  ghost function Tests(c: Config, p: Spec -> bool): set<nat> {
    set id: nat | id < |c.specs| && p(c.specs[id])
  }

  ghost function TestsBefore(c: Config, k: nat, p: Spec -> bool): set<nat> {
    set id: nat | id < k && id < |c.specs| && p(c.specs[id])
  }

  /** A status that is decided by a property of the test is counted by the tests that have it. */
  lemma {:induction false} PlanTotalIsSize(c: Config, k: nat, st: Status, p: Spec -> bool)
    requires k <= c.Jobs()
    requires forall id: nat :: id < c.Jobs() ==> (StatusOf(c.Completed(id)) == st <==> p(c.specs[id]))
    ensures PlanTotal(c, k, Is(st)) == |TestsBefore(c, k, p)|
    decreases k
  {
    if k == 0 {
      assert TestsBefore(c, 0, p) == {};
    } else {
      PlanTotalIsSize(c, k - 1, st, p);
      var before := TestsBefore(c, k - 1, p);
      assert TestsBefore(c, k, p) == if p(c.specs[k - 1]) then before + {k - 1} else before;
    }
  }

  lemma CountIsSize(c: Config, schedule: seq<Event>, s: State, st: Status, p: Spec -> bool)
    requires Reaches(c, schedule, s) && s.main.Finished? && Interrupt !in schedule
    requires forall id: nat :: id < c.Jobs() ==> (StatusOf(c.Completed(id)) == st <==> p(c.specs[id]))
    ensures Count(s.collected, st) == |Tests(c, p)|
  {
    CountersOfFinishedRun(c, schedule, s, st);
    PlanTotalIsSize(c, c.Jobs(), st, p);
    assert TestsBefore(c, c.Jobs(), p) == Tests(c, p);
  }

  /** Without an interrupt each status is counted by code and skip mark of the tests. */
  lemma CountersBySpecs(c: Config, schedule: seq<Event>, s: State)
    requires Reaches(c, schedule, s) && s.main.Finished? && Interrupt !in schedule
    ensures Count(s.collected, PASS) == |Tests(c, (spec: Spec) => !spec.isSkip && spec.code == 0)|
    ensures Count(s.collected, FAIL) == |Tests(c, (spec: Spec) => !spec.isSkip && spec.code == 1)|
    ensures Count(s.collected, VALGR) == |Tests(c, (spec: Spec) => !spec.isSkip && spec.code == 2)|
    ensures Count(s.collected, CRASH) == |Tests(c, (spec: Spec) => !spec.isSkip && spec.code !in {0, 1, 2})|
    ensures Count(s.collected, SKIP) == |Tests(c, (spec: Spec) => spec.isSkip)|
    ensures Count(s.collected, INTERRUPTED) == 0
  {
    CountIsSize(c, schedule, s, PASS, (spec: Spec) => !spec.isSkip && spec.code == 0);
    CountIsSize(c, schedule, s, FAIL, (spec: Spec) => !spec.isSkip && spec.code == 1);
    CountIsSize(c, schedule, s, VALGR, (spec: Spec) => !spec.isSkip && spec.code == 2);
    CountIsSize(c, schedule, s, CRASH, (spec: Spec) => !spec.isSkip && spec.code !in {0, 1, 2});
    CountIsSize(c, schedule, s, SKIP, (spec: Spec) => spec.isSkip);
    CountIsSize(c, schedule, s, INTERRUPTED, (spec: Spec) => false);
    assert Tests(c, (spec: Spec) => false) == {};
  }

  predicate Succeeds(st: Status) { st == PASS || st == SKIP }

  function Unsuccessful(): Job -> int {
    (j: Job) => if Succeeds(StatusOf(j)) then 0 else 1
  }

  lemma {:induction false} SuccessSplit(jobs: seq<Job>)
    ensures Count(jobs, PASS) + Count(jobs, SKIP) + Total(jobs, Unsuccessful()) == |jobs|
  {
    if jobs != [] { SuccessSplit(jobs[1..]); }
  }

  lemma {:induction false} FindJob(jobs: seq<Job>, id: nat)
    requires Total(jobs, Named(id)) == 1
    ensures exists j :: j in jobs && j.id == id
  {
    var i := FindNamed(jobs, id);
    assert jobs[i] in jobs;
  }

  /** The status is 0 exactly when every collected result is skipped or has returned 0. */
  lemma ExitStatusByResults(c: Config, results: seq<Job>)
    requires |results| == c.Jobs()
    ensures ExitStatus(c, results) == 0 <==>
            forall j :: j in results ==> !j.isBreak && (j.isSkip || j.returncode == 0)
  {
    SuccessSplit(results);
    TotalZero(results, Unsuccessful());
    if ExitStatus(c, results) == 0 {
      forall j | j in results ensures Succeeds(StatusOf(j)) {
        var i :| 0 <= i < |results| && results[i] == j;
        assert Unsuccessful()(results[i]) == 0;
      }
    }
  }

  /**
    The exit status of a finished run is 0 exactly when every test is skipped or returns
    0 and none was interrupted.
   */
  lemma ExitStatusOfFinishedRun(c: Config, schedule: seq<Event>, s: State)
    requires Reaches(c, schedule, s) && s.main.Finished?
    ensures ExitStatus(c, s.collected) == 0 <==>
            && (forall spec :: spec in c.specs ==> spec.isSkip || spec.code == 0)
            && (forall j :: j in s.collected ==> !j.isBreak)
  {
    CollectedJobs(c, schedule, s);
    FinishedIsClean(c, schedule, s);
    ExitStatusByResults(c, s.collected);
    SuccessByPlan(c, s.collected);
  }

  lemma SuccessByPlan(c: Config, results: seq<Job>)
    requires forall id: nat :: Total(results, Named(id)) == if id < c.Jobs() then 1 else 0
    requires forall j :: j in results ==> j.id < c.Jobs() && (j == c.Completed(j.id) || j.isBreak)
    ensures (forall j :: j in results ==> !j.isBreak && (j.isSkip || j.returncode == 0)) <==>
            && (forall spec :: spec in c.specs ==> spec.isSkip || spec.code == 0)
            && (forall j :: j in results ==> !j.isBreak)
  {
    if forall j :: j in results ==> !j.isBreak && (j.isSkip || j.returncode == 0) {
      forall spec | spec in c.specs ensures spec.isSkip || spec.code == 0 {
        var id :| 0 <= id < |c.specs| && c.specs[id] == spec;
        assert Total(results, Named(id)) == 1;
        FindJob(results, id);
      }
    }
  }

  lemma {:induction false} PlanCopies(c: Config, k: nat, id: nat)
    requires k <= c.Jobs()
    ensures PlanTotal(c, k, CopiesOf(c, id)) == if id < k then FailedCopies(c, c.Completed(id)) else 0
  {
    if k > 0 { PlanCopies(c, k - 1, id); }
  }

  /**
    Without an interrupt failed_jobs holds a test exactly when its return code or its
    report is bad, and a test suite that fails with a bad report is in it twice.
   */
  lemma FailedJobsOfFinishedRun(c: Config, schedule: seq<Event>, s: State, id: nat)
    requires Reaches(c, schedule, s) && s.main.Finished? && Interrupt !in schedule && id < c.Jobs()
    ensures Total(s.collected, CopiesOf(c, id)) == FailedEntries(c.specs[id])
    ensures var spec := c.specs[id];
            && (FailedEntries(spec) == 0 <==>
                  spec.isSkip || (spec.code == 0 && (spec.isExample || spec.report.Passing?)))
            && (FailedEntries(spec) == 2 <==> && !spec.isSkip && !spec.isExample && spec.code != 0
                                              && !(1 <= spec.code <= 2 && spec.report.Passing?))
            && FailedEntries(spec) <= 2
  {
    CollectedJobs(c, schedule, s);
    FinishedIsClean(c, schedule, s);
    TotalByIdentity(c, s.collected, c.Jobs(), CopiesOf(c, id), CopiesOf(c, id));
    PlanCopies(c, c.Jobs(), id);
  }

  // ---------------------------------------------------------------- exceptions

  /** What the main thread has collected is what the collection loop gets through. */
  lemma RaisedAtLast(c: Config, schedule: seq<Event>, s: State)
    requires Reaches(c, schedule, s)
    ensures s.main.Raised? <==> exists j :: j in s.collected && c.Raises(j)
    ensures s.main.Raised? ==> s.collected != [] && EndsAt(c, s.collected, |s.collected| - 1)
  {
    InvReached(c, schedule, s);
    if j :| j in s.collected && c.Raises(j) {
      var i :| 0 <= i < |s.collected| && s.collected[i] == j;
    }
  }

  ghost predicate SomeTestRaises(c: Config) {
    exists spec :: spec in c.specs && !spec.isSkip && !spec.isExample && 0 <= spec.code <= 2 && spec.report.Unreadable?
  }

  /** Without an interrupt a run ends with an exception exactly when some test calls for one. */
  lemma RaisedIff(c: Config, schedule: seq<Event>, s: State)
    requires Reaches(c, schedule, s)
    ensures s.main.Raised? ==> SomeTestRaises(c)
    ensures Over(s) && Interrupt !in schedule ==> (s.main.Raised? <==> SomeTestRaises(c))
  {
    CollectedJobs(c, schedule, s);
    RaisedAtLast(c, schedule, s);
    if s.main.Raised? {
      var j :| j in s.collected && c.Raises(j);
      assert j == c.Completed(j.id) && c.specs[j.id] in c.specs;
    }
    if s.main.Finished? && Interrupt !in schedule && SomeTestRaises(c) {
      var spec :| spec in c.specs && !spec.isSkip && !spec.isExample && 0 <= spec.code <= 2 && spec.report.Unreadable?;
      var id :| 0 <= id < |c.specs| && c.specs[id] == spec;
      assert c.Raises(c.Completed(id));
      FinishedIsClean(c, schedule, s);
      FindJob(s.collected, id);
    }
  }

  lemma {:induction false} RaisedStays(c: Config, s: State, rest: seq<Event>)
    requires s.main.Raised? && RunFrom(c, s, rest).Some?
    ensures RunFrom(c, s, rest).value.main.Raised?
    decreases |rest|
  {
    if rest != [] {
      RaisedStays(c, Step(c, s, rest[0]).value, rest[1..]);
    }
  }

  ghost predicate CanFinish(c: Config, s: State) {
    exists rest :: RunFrom(c, s, rest).Some? && RunFrom(c, s, rest).value.main.Finished?
  }

  /** Every run can come to its joins exactly when the runner is manned and no test raises an exception. */
  lemma FinishesIff(c: Config)
    ensures Manned(c) && !SomeTestRaises(c) <==> forall schedule, s :: Reaches(c, schedule, s) ==> CanFinish(c, s)
  {
    if Manned(c) && !SomeTestRaises(c) {
      forall schedule, s | Reaches(c, schedule, s) ensures CanFinish(c, s) {
        InvReached(c, schedule, s);
        var rest := Completion(c, s);
        RunsJoin(c, INIT, schedule, rest);
        RaisedIff(c, schedule + rest, RunFrom(c, s, rest).value);
      }
    } else if Manned(c) {
      InvReached(c, [], INIT);
      var schedule := Completion(c, INIT);
      var s := RunFrom(c, INIT, schedule).value;
      RaisedIff(c, schedule, s);
      if CanFinish(c, s) {
        var rest :| RunFrom(c, s, rest).Some? && RunFrom(c, s, rest).value.main.Finished?;
        RaisedStays(c, s, rest);
      }
      assert Reaches(c, schedule, s);
    } else {
      assert Reaches(c, [], INIT);
      if rest :| RunFrom(c, INIT, rest).Some? && RunFrom(c, INIT, rest).value.main.Finished? {
        UnmannedStandsStill(c, rest, RunFrom(c, INIT, rest).value);
      }
    }
  }

  lemma {:induction false} RunsJoin(c: Config, s: State, first: seq<Event>, rest: seq<Event>)
    requires RunFrom(c, s, first).Some?
    ensures RunFrom(c, s, first + rest) == RunFrom(c, RunFrom(c, s, first).value, rest)
    decreases |first|
  {
    if first == [] {
      assert first + rest == rest;
    } else {
      assert (first + rest)[1..] == first[1..] + rest;
      RunsJoin(c, Step(c, s, first[0]).value, first[1..], rest);
    }
  }
}
