# A model of the tools and example algorithms around ns-3

Seven programs of the repository carry real algorithms: a parallel test runner, a search for
configuration paths, the load order of shared libraries, a style fixer, a scheduler benchmark,
a chunked TCP writer and a fairness computation. This project models each of them in Dafny and
proves what it is for, over all inputs, all schedules and all runs.

| files | program | form |
|---|---|---|
| `TestRunner.dfy`, `TestRunnerRuns.dfy`, `TestRunnerTally.dfy` | `test.py` | a state machine over the steps of the threads; the collection loop is a class |
| `ConfigPaths.dfy`, `StaticInformation.dfy`, `ConfigPathsOf.dfy`, `ConfigEdges.dfy`, `ConfigPathsRepeats.dfy` | `utils/print-introspected-doxygen.cc` | a class with the two stacks and the output; the simple walks of a type graph |
| `LoadOrder.dfy`, `LoadOrderTheory.dfy` | `bindings/python/ns__init__.py` | a class with the lists it changes; dependency chains |
| `PyStrings.dfy`, `LineCheckers.dfy`, `LineLaws.dfy`, `FileChecker.dfy`, `StylePipeline.dfy`, `HiddenLicenses.dfy`, `StyleRuns.dfy`, `StyleScript.dfy` | `utils/check-style-clang-format.py` | functions on lines; methods on a file |
| `BenchScheduler.dfy`, `BenchStatistics.dfy` | `utils/bench-scheduler.cc` | classes for the simulator and the benchmark; the accumulating loop |
| `TcpWriter.dfy` | `examples/tcp/tcp-large-transfer.cc` | a class over its buffer, against a socket that may do anything |
| `Fairness.dfy` | `examples/tcp/dctcp-example.cc` | a class over its counters, in 64-bit arithmetic |

`Sequences.dfy` and `Wrappers.dfy` hold what the models share.

**The test runner.** A state holds the two FIFOs, the state of every worker, what the main thread
is doing and the exit flag. A schedule is any sequence of main steps, worker steps and interrupts,
so a statement about all schedules covers every interleaving. Jobs are numbered in the order in
which they are queued; the break jobs come after the tests. A test's return code is a parameter.
`Config.Threads` reads a negative number of processors as none, as `range` does: the option
`--jobs` accepts negative numbers, and then a run with at least one test never ends
(`TestRunnerRuns.CompletesIffManned`). `failed_jobs` is appended to in two places, so a test suite
that fails with a bad report, or that crashes, is listed twice
(`TestRunnerTally.FailedJobsOfFinishedRun`). The report of a test suite that returns 0, 1 or 2 is
opened outside the `try`, so a report that cannot be read ends the collection loop with an
exception: the main thread stops, the workers finish their jobs, and nothing is joined or
returned. `TestRunnerTally.FinishesIff` says exactly which test plans are safe from that.

**Configuration paths.** The types, their attributes, parents and aggregations form a labelled
graph with cycles. A walk is a list of edge numbers; it is simple when no type comes twice.
`Uniquefy` takes its container by value although its comment says that the container is modified
in place, so the output stays in the order of discovery, and a path that is found twice is listed
twice. `ConfigPathsRepeats.RecordedTwiceIsListedTwice` shows it for the aggregation of Node and
Icmpv4L4Protocol, which the program records twice (lines 606 and 608), and
`ConfigPathsRepeats.GetRepeatsIff` says exactly when it happens: when two equal edges lead on from
a simple walk, or two roots share a path. That result asks for names that can be told apart in a
printed path: distinct type names, distinct attribute names in each type, no slash in either, and
no attribute called "[i]" or starting with "$".

**Load order.** A stuck set of libraries is never loaded, and the recursion of `dependency_order`
then ends only when the interpreter's recursion limit is reached. The limit is a parameter; the
result `None` stands for the RecursionError.

**The style fixer.** Line checkers are functions; `check_manually_file` runs one of them over a
file under the guard automaton. Expanding a tab can make an OFF guard of an ordinary line
(`StyleRuns.TabMakesGuard`), so the two passes of "fix, then check" do not see the same guards;
the proofs relate the passes by a simulation. Of the four fixers only whitespace disregards the
guards. A comment in the script says that there are no more non-compliant files once all have been
fixed (`utils/check-style-clang-format.py:496-497`). That holds for each check on its own, but not
for a whole run: expanding a tab can uncover a line of license text after the license check has
run. `StyleRuns.OneRunFixes` gives the exact condition on the lines of the given file, for any selection of checks,
`StyleRuns.OneRunIsNotEnough` a file that fails it, and `StyleRuns.TwoRunsFix` shows that a second
run always suffices. `StyleScript` runs the enabled checks over the files that are listed for each:
a file can be listed for some and not for others, and `StyleScript.FixThenCheckStyle` says exactly
when a check after a fixing run succeeds.

**The benchmark, the writer and the index.** Delays are any sequence of non-negative numbers. The
statistics are over the reals. The socket's behaviour is an arbitrary function. The counters and
products of the fairness index wrap at 2^64, as in the program.

## Model

| member | source | states |
|---|---|---|
| TestRunner.InvReached | test.py:1087-1171 | every reachable state satisfies the invariant: the input FIFO is the untouched tail of the queued jobs in order, each job taken from it is in exactly one place, results are genuine or marked by a risen exit flag, and exactly the break jobs taken are in the hands of workers |
| TestRunner.InvStep | test.py:1087-1171 | each step of any thread, and an interrupt, keeps that invariant |
| TestRunnerRuns.EachJobInOnePlace | test.py:1087-1171 | in every reachable state each queued job is once in the input queue, a worker's hands, the output queue or the collected results taken together, and a job not queued is nowhere |
| TestRunnerRuns.BreakJobsEndWorkersOnly | test.py:1089-1104 | no break job reaches the output or the results; a worker that has exited holds a break job; a test marked by an interrupt is reported and does not end its worker |
| TestRunnerRuns.QuietMeansDone | test.py:1940-1966 | once all is queued and no worker can step, every worker has exited, the input is empty and as many results are back as there are tests |
| TestRunnerRuns.NeverStuck | test.py:1963-1966 | with at least one worker, or no test, some thread can step in every reachable state in which the run is not over: neither joined, nor ended by an exception with all workers gone |
| TestRunnerRuns.WorkShrinks | test.py:1623-1626 | each step other than an interrupt lowers a natural measure of the state |
| TestRunnerRuns.EveryRunIsFinite | test.py:1087-1171 | a run with n tests and t workers has at most 6n + 8t + 5 steps besides interrupts |
| TestRunnerRuns.FinishedIsClean | test.py:2128-2129 | when the joins are over, both queues are empty, every worker has exited, and each test was collected exactly once |
| TestRunnerRuns.OverIsClean | test.py:1963-2129 | however a run ends, every worker has exited, no job is left in the input queue and each result is collected or in the output queue |
| TestRunnerRuns.UnmannedStandsStill | test.py:1612-1626 | without workers a run with tests is never over |
| TestRunnerRuns.CompletesIffManned | test.py:1612-1626 | every reachable state can be brought to the end of its run if and only if there is a worker or nothing to run |
| TestRunnerRuns.FlagIffInterrupted | test.py:642-645 | the exit flag is up exactly when a signal has come |
| TestRunnerRuns.AfterInterrupt | test.py:642-645 | after a signal, real results come only from jobs whose workers were past the exit test, hence at most one per worker, for any chosen set of jobs |
| TestRunnerTally.Counters.Record | test.py:1965-2115 | one round of the collection loop keeps the counters and failed_jobs equal to what the results seen so far say, and raises exactly for the unreadable report of a test suite that returned 0, 1 or 2 |
| TestRunnerTally.Counters.Collect | test.py:1955-2115 | there is a return value exactly when no result raises; then each counter is the number of results of its status and failed_jobs holds each job as often as its results call for; otherwise they describe the results up to the first that raises |
| TestRunnerTally.Counters.CollectFinishedRun | test.py:1955-2241 | after a finished run under any schedule the return value is 0 exactly when every test is skipped or returns 0 and none was interrupted; without an interrupt the five counters are the numbers of tests that are not skipped and return 0, 1, 2 or something else, and of those skipped, and failed_jobs lists each test as often as its code, kind and report call for |
| TestRunnerTally.CountersBySpecs | test.py:1973-1999 | the number of results of each status, without an interrupt, by code and skip mark of the tests |
| TestRunnerTally.RaisedAtLast | test.py:2096-2101 | the main thread has died exactly when a collected result raises, and that is the last one collected |
| TestRunnerTally.RaisedIff | test.py:2096-2101 | a run that is over without an interrupt has ended with an exception exactly when some test suite that is not skipped returns 0, 1 or 2 and leaves an unreadable report |
| TestRunnerTally.FinishesIff | test.py:1963-2129 | every reachable state can still come to the joins if and only if the runner is manned and no test raises |
| TestRunnerTally.CountersOfFinishedRun | test.py:1955-1999 | without an interrupt the counters depend on the tests alone, not on the schedule; an interrupt can only lower them |
| TestRunnerTally.CountersAddUp | test.py:1963-1999 | the counters and the interrupted jobs together account for every collected job |
| TestRunnerTally.ExitStatusByResults | test.py:2238-2241 | the return value is 0 exactly when every collected result is skipped or has returned 0, and none is interrupted |
| TestRunnerTally.ExitStatusOfFinishedRun | test.py:2238-2241 | after a finished run under any schedule it is 0 exactly when every test is skipped or returns 0 and none was interrupted |
| TestRunnerTally.FailedJobsOfFinishedRun | test.py:1979-2115 | a finished uninterrupted run lists a test in failed_jobs exactly when its code or its report is bad, and twice exactly when it is a test suite with a bad code that crashed or has a bad report |
| StaticInformations.StaticInformation.RecordAggregationInfo | utils/print-introspected-doxygen.cc:370-390 | a pair of known names is appended as the types of those names; otherwise the first unknown name is noted and no pair is added |
| StaticInformations.StaticInformation.HasAlreadyBeenProcessed | utils/print-introspected-doxygen.cc:421-433 | true exactly for the types on the stack |
| StaticInformations.StaticInformation.GetCurrentPath | utils/print-introspected-doxygen.cc:402-412 | every segment of the current path, in order, each behind a slash |
| StaticInformations.StaticInformation.Follow | utils/print-introspected-doxygen.cc:517-521 | a recursive call appends what is found behind the edge and leaves both stacks as they were |
| StaticInformations.StaticInformation.DoGather | utils/print-introspected-doxygen.cc:489-572 | terminates on every graph, appends exactly the entries of the walks that ConfigPaths.Walks lists, in that order, and restores both stacks |
| StaticInformations.StaticInformation.Gather | utils/print-introspected-doxygen.cc:465-487 | the same: sorting a copy changes nothing |
| StaticInformations.StaticInformation.GatherAll | utils/print-introspected-doxygen.cc:627-631 | gathers from every root in turn, with empty stacks in between |
| StaticInformations.FoundUnfold | utils/print-introspected-doxygen.cc:489-497 | the entries due for a type are its own entry followed by those of its edges, and none if it is on the stack |
| StaticInformations.LoopsMeet | utils/print-introspected-doxygen.cc:498-571 | the three loops run through all edges of a type: each begins where the one before ended |
| ConfigEdges.EdgesAre | utils/print-introspected-doxygen.cc:498-571 | a type has an edge if and only if it is a pointer attribute to another type than Object, a container attribute with "/[i]" behind its name, a registered child, or the other side of an aggregation, the last two with "$" before the type's name |
| ConfigEdges.EdgesInOrder | utils/print-introspected-doxygen.cc:498-571 | the edges come in three groups: one edge for each followed attribute in the order of the attributes, one for each child in the order of registration, one for each aggregation of the type in the order of recording |
| ConfigEdges.PathStringOfConcat | utils/print-introspected-doxygen.cc:402-412 | a path is printed segment by segment from the root on, each behind a slash |
| ConfigEdges.PrecedesIff | utils/print-introspected-doxygen.cc:489-572 | pre-order means: before all extensions, and otherwise the earlier edge at the first difference |
| ConfigPaths.ReportsSimpleWalks | utils/print-introspected-doxygen.cc:489-572 | a walk is listed if and only if it is a simple walk in the graph that avoids the types on the stack |
| ConfigPaths.ReportsInOrder | utils/print-introspected-doxygen.cc:489-572 | the walks are listed in depth-first pre-order |
| ConfigPaths.PrecedesIsStrict | utils/print-introspected-doxygen.cc:489-572 | that order is strict, so no walk is listed twice |
| ConfigPathsOf.SimpleWalksToExact | utils/print-introspected-doxygen.cc:435-448 | those listed for a type are exactly the simple walks from the root that end at it, in pre-order |
| ConfigPathsOf.GetAfterGather | utils/print-introspected-doxygen.cc:435-448 | after gathering, the entries of a type are the printed simple walks to it from each root in turn |
| ConfigPathsOf.GetIsExact | utils/print-introspected-doxygen.cc:435-448 | a path is among them if and only if a simple walk from some root to the type prints as it |
| ConfigPathsOf.PathsFor | utils/print-introspected-doxygen.cc:435-448 | the calls of Gather for all roots followed by Get give these paths, in the order of discovery |
| ConfigPathsRepeats.PathStringInjective | utils/print-introspected-doxygen.cc:402-412 | the segments can be read off a printed path if each is free of slashes or an index |
| ConfigPathsRepeats.SegmentIsEdge | utils/print-introspected-doxygen.cc:498-571 | on well-named types two edges out of a type with the same segment lead to the same type |
| ConfigPathsRepeats.FoundOnceIff | utils/print-introspected-doxygen.cc:450-487 | one search records nothing twice if and only if no simple walk ends at a type with two equal edges to a type that the walk has not visited |
| ConfigPathsRepeats.OutputOnceIff | utils/print-introspected-doxygen.cc:481-487 | the output over all roots has no repeats if and only if that holds for each root and no two roots share a path |
| ConfigPathsRepeats.GetRepeatsIff | utils/print-introspected-doxygen.cc:435-448 | under the same condition, and no other, Get answers without repeats for every type |
| ConfigPathsRepeats.RecordedTwiceIsListedTwice | utils/print-introspected-doxygen.cc:600-612 | with one aggregation recorded twice Get lists the same path twice |
| ConfigPathsRepeats.AggregatedTwice | utils/print-introspected-doxygen.cc:600-612 | the same answer from the calls of RecordAggregationInfo, Gather and Get |
| StaticInformations.StaticInformation.Get | utils/print-introspected-doxygen.cc:435-448 | the paths recorded for the type, in the order of the output |
| LoadOrder.DependencySorter.ModulesThatCanBeLoaded | bindings/python/ns__init__.py:444-455 | the nested loops give the pending libraries whose dependencies are all loaded, in their order |
| LoadOrder.DependencySorter.LoadStep | bindings/python/ns__init__.py:462-469 | one round moves exactly those from pending to current and into its step |
| LoadOrder.DependencySorter.DependencyOrder | bindings/python/ns__init__.py:457-472 | the recursion ends with the rounds of the specification, everything pending moved to current, or hits the limit |
| LoadOrderTheory.SortToDependencies | bindings/python/ns__init__.py:433-479 | there is a result exactly when no library is missing and every dependency chain is shorter than the recursion limit; it is a permutation of the libraries, each after all its dependencies |
| LoadOrderTheory.ExactLayers | bindings/python/ns__init__.py:444-472 | step k holds exactly the libraries whose longest dependency chain has k dependencies |
| LoadOrderTheory.SettledByChains | bindings/python/ns__init__.py:444-455 | a library is loaded within r rounds if and only if its chains have at most r libraries and end in known ones |
| LoadOrderTheory.EndsIffChainsFit | bindings/python/ns__init__.py:457-472 | the recursion ends if and only if the limit is positive, all dependencies are keys and each chain is shorter than the limit |
| LoadOrderTheory.EndsIffAcyclic | bindings/python/ns__init__.py:457-472 | on closed acyclic dependencies one round per library suffices; on all others no limit does |
| LoadOrderTheory.CyclesNeverEnd | bindings/python/ns__init__.py:470-472 | a dependency cycle makes every recursion limit too small |
| LoadOrderTheory.WaitingNeverEnds | bindings/python/ns__init__.py:444-472 | so does any set whose members each wait for a member or for a missing library |
| LoadOrderTheory.StepInOrder | bindings/python/ns__init__.py:445-454 | within a step the libraries keep the order in which they are given |
| LoadOrderTheory.EachStepLoads | bindings/python/ns__init__.py:462-472 | each round of a recursion that ends loads at least one library |
| LoadOrderTheory.NeverLoadedIff | bindings/python/ns__init__.py:447-454 | a library is loaded in no round if and only if it is in a set whose members each wait for a member or for a missing library |
| LoadOrderTheory.EndsIffNoneWait | bindings/python/ns__init__.py:457-472 | some recursion limit suffices if and only if there is no such set but the empty one |
| LoadOrderTheory.LoadOrderIsSorted | bindings/python/ns__init__.py:474-479 | the flattened steps are a permutation of the libraries, each after its dependencies |
| LoadOrderTheory.DividedThroughout | bindings/python/ns__init__.py:467-469 | after any number of rounds pending and current divide the libraries between them |
| LoadOrderTheory.ClosedThroughout | bindings/python/ns__init__.py:447-454 | after any number of rounds current contains the dependencies of its members |
| FileChecker.CheckLines | utils/check-style-clang-format.py:646-674 | in each mode the verdict is that of checking every line that the guards leave on, early stop or not; in fix and verbose mode exactly the non-compliant ones of these lines are replaced |
| FileChecker.CheckManuallyFile | utils/check-style-clang-format.py:641-680 | the verdict on the old content; the file is rewritten in fix mode and otherwise left alone |
| FileChecker.ReadBack | utils/check-style-clang-format.py:643-678 | written lines are read back as the same lines without the deleted ones |
| FileChecker.SecondPassComplies | utils/check-style-clang-format.py:646-672 | a second pass that is on only where the first was on finds nothing, even if a fix has made a guard or deleted lines |
| FileChecker.SecondPassVisitsFewer | utils/check-style-clang-format.py:646-660 | every line that the second pass checks was checked in the first |
| FileChecker.FixThenCheck | utils/check-style-clang-format.py:613-680 | for any line checker whose fixes comply and keep OFF guards, a fixed file complies |
| FileChecker.FixThenCheckAll | utils/check-style-clang-format.py:822-991 | that holds for the tabs, whitespace, license and emacs fixers |
| FileChecker.EnabledByLastGuard | utils/check-style-clang-format.py:648-655 | checks are off before a line exactly when the last guard above it is an OFF guard |
| FileChecker.VerdictIff | utils/check-style-clang-format.py:646-665 | a file complies exactly when every line that counts does: all lines outside OFF regions and the guards themselves, or simply all lines where guards are not respected |
| FileChecker.FixIs | utils/check-style-clang-format.py:646-670 | a fixing run replaces exactly the lines that count and do not comply, each by what the line checker makes of it |
| FileChecker.FixLeavesAlone | utils/check-style-clang-format.py:657-670 | compliant lines, and all but the guards in an OFF region, are written back unchanged |
| LineLaws.LastTab | utils/check-style-clang-format.py:979-983 | the last tab of a text becomes the spaces up to the next column divisible by 4, behind the expansion of what stands before it; a text without tabs stays as it is |
| LineLaws.FirstTab | utils/check-style-clang-format.py:979-983 | the only tab of a line becomes 4 - n % 4 spaces behind n characters |
| LineLaws.InkStays | utils/check-style-clang-format.py:979-983 | expanding tabs keeps all other characters in their order |
| LineLaws.AsciiSpaces | utils/check-style-clang-format.py:943-943 | which of the first 128 characters count as space |
| LineLaws.WhitespaceIs | utils/check-style-clang-format.py:943-946 | the space at the end of a line gives way to one newline, and the line complies exactly when that space is one newline |
| LineLaws.EmacsIff | utils/check-style-clang-format.py:903-909 | a line is deleted exactly when it holds one of the two emacs texts anywhere |
| LineLaws.GuardIff | utils/check-style-clang-format.py:45-55 | the guards are the six texts with any space around them |
| LineLaws.LicenseIff | utils/check-style-clang-format.py:857-861 | a line is detected exactly when it is a license line between margins of space, comment marks and space |
| LineLaws.LicenseIsFixed | utils/check-style-clang-format.py:861-872 | the first license line gives way to the identifier with both margins kept; the others are deleted |
| LineLaws.LicenseInComment | utils/check-style-clang-format.py:835-870 | the usual comment line and what becomes of it |
| LineCheckers.WhitespaceFixes | utils/check-style-clang-format.py:925-957 | a line fixed for whitespace complies and is one line |
| LineCheckers.TabsFix | utils/check-style-clang-format.py:960-991 | a line fixed for tabs complies, is one line, and is an OFF guard if it was one |
| LineCheckers.TabsKeepGuard | utils/check-style-clang-format.py:979-983 | expanding the tabs of a guard leaves the text of the guard as it is |
| LineCheckers.LicenseFixes | utils/check-style-clang-format.py:861-872 | a line fixed for the license is deleted or complies and is one line; an OFF guard is never touched |
| LineCheckers.EmacsFixes | utils/check-style-clang-format.py:905-913 | a line removed for emacs was no OFF guard |
| StylePipeline.TextSurvives | utils/check-style-clang-format.py:398-408 | a file that passes one check still passes it after a later fixer that keeps that check's lines |
| StylePipeline.WhitespaceRunsLate | utils/check-style-clang-format.py:943-946 | the whitespace fixer keeps emacs and license compliance, and all guards |
| StylePipeline.TabsRunLate | utils/check-style-clang-format.py:979-983 | the tabs fixer keeps whitespace and emacs compliance |
| StylePipeline.LicenseRunsLate | utils/check-style-clang-format.py:861-872 | the license fixer keeps tabs, whitespace and emacs compliance |
| StyleScript.CheckStyleFile | utils/check-style-clang-format.py:641-680 | the verdict on a file, which is fixed in fix mode and otherwise left alone |
| StyleScript.CheckStyleFiles | utils/check-style-clang-format.py:455-497 | one check over its list of files succeeds if all comply or are being fixed; every listed file is fixed in fix mode, once or more often with the same outcome |
| StyleScript.CheckStyle | utils/check-style-clang-format.py:398-417 | the run over CHECKS answers whether every file passes the enabled checks it is listed for, and always succeeds in fix mode, where those fixers have worked on it in order |
| StyleScript.SelectedOutcome | utils/check-style-clang-format.py:398-408 | for any enabled checks and file lists, the loop over CHECKS leaves a file as the fixers that select it, one after the other, make it |
| StyleScript.FixedFilePasses | utils/check-style-clang-format.py:496-497 | after a fixing run a file passes every check that selects it if and only if no line of it hid license text, or the license or the tabs check does not select it |
| StyleScript.FixThenCheckStyle | utils/check-style-clang-format.py:398-417 | a fixing run and then a checking run succeed if and only if that holds for every file |
| StyleScript.FixTwiceThenCheckStyle | utils/check-style-clang-format.py:398-417 | after two fixing runs a checking run always succeeds |
| HiddenLicenses.LicenseSurvivesTabs | utils/check-style-clang-format.py:979-983 | the exact condition on the lines of a file under which expanding its tabs uncovers no license text |
| HiddenLicenses.LicenseLeavesHidden | utils/check-style-clang-format.py:861-872 | replacing or deleting a license line changes neither what guard it is, with its tabs or expanded, nor whether it hides a license |
| HiddenLicenses.EmacsLeavesHidden | utils/check-style-clang-format.py:905-913 | the same for deleting an emacs line |
| HiddenLicenses.WhitespaceLeavesHidden | utils/check-style-clang-format.py:943-946 | the whitespace fixer changes neither what guard a line is nor whether it hides a license |
| HiddenLicenses.NothingHiddenSurvives | utils/check-style-clang-format.py:646-678 | a fixer with that property neither hides nor uncovers license text in a whole file |
| StyleRuns.OneRunFixes | utils/check-style-clang-format.py:496-497 | for every selection of the four checks: after one fixing run a file passes those of the tabs, whitespace and emacs checks that select it, and passes all that select it if and only if license or tabs is not among them or no line of the given file that the guards leave on, with its tabs and without, is license text only once its tabs are expanded |
| StyleRuns.OneRunIsNotEnough | utils/check-style-clang-format.py:496-497 | a one-line file that holds license text after a fixing run |
| StyleRuns.TwoRunsFix | utils/check-style-clang-format.py:398-408 | after two fixing runs every file passes all checks that select it, and a third changes nothing |
| StyleRuns.TabMakesGuard | utils/check-style-clang-format.py:650-655 | a line that is no guard becomes an OFF guard when its tab is expanded |
| BenchScheduler.Bench.Cb | utils/bench-scheduler.cc:151-164 | one callback schedules one event and counts, or stops and counts nothing |
| BenchScheduler.Bench.Run | utils/bench-scheduler.cc:121-149 | a run with a positive population makes total + 1 callbacks and reports total events; the population is pending after each but the last, every callback runs at the time for which its event was scheduled, the earliest that is pending, time never goes back, and earlier runs have no influence |
| BenchStatistics.Log | utils/bench-scheduler.cc:318-359 | for two or more results each of the six averages is the arithmetic mean of its own field and each second moment the sum of squared deviations from it |
| BenchStatistics.WelfordStep | utils/bench-scheduler.cc:345-349 | one accumulation takes the mean and the deviations of n results to those of n + 1 |
| BenchStatistics.WelfordStart | utils/bench-scheduler.cc:333-336 | starting from the first sample instead of zero, the first round gives its mean and no deviation |
| BenchStatistics.DeviationsBySums | utils/bench-scheduler.cc:345-349 | the deviations from any value expand into the sum, the sum of squares and the number of results |
| BenchStatistics.DeviationsNotNegative | utils/bench-scheduler.cc:361-368 | the second moments are never negative, so their square roots are defined |
| TcpWriter.Sender.InitializeBuffer | examples/tcp/tcp-large-transfer.cc:94-99 | the buffer holds the alphabet over and over |
| TcpWriter.SeamlessIff | examples/tcp/tcp-large-transfer.cc:40-43 | a buffer written repeatedly shows no seam if and only if its size is a multiple of 26 |
| TcpWriter.StreamGrows | examples/tcp/tcp-large-transfer.cc:215-226 | appending the accepted part of the slice at the current offset gives the longer prefix of the stream |
| TcpWriter.Sender.WriteUntilBufferFull | examples/tcp/tcp-large-transfer.cc:210-232 | each callback keeps the accepted bytes equal to the prefix of the stream whose length is currentTxBytes; it returns when all is sent, when there is no room, or when its last write has failed, and closes exactly in the first case |
| TcpWriter.LargeTransfer | examples/tcp/tcp-large-transfer.cc:198-232 | for every behaviour of the socket and every number of callbacks the accepted bytes are a, b, ..., z over and over, at most 2000000 of them, and the socket is closed exactly when all are accepted, which happens if from some callback on there is room and no write fails |
| Fairness.CauchySchwarz | examples/tcp/dctcp-example.cc:180-186 | sum * sum is at most n times the sum of squares, with equality exactly when all flows are equal |
| Fairness.IndexInRange | examples/tcp/dctcp-example.cc:186-186 | with a non-zero total the index lies between 1/n and 1, and is 1 exactly when all flows are equal |
| Fairness.IndexWithoutWrap | examples/tcp/dctcp-example.cc:177-186 | if n times the sum of squares is below 2^64, the 64-bit computation gives the true index |
| Fairness.NoWrapBelow | examples/tcp/dctcp-example.cc:180-184 | that is so when n times the largest counter is below 2^32 |
| Fairness.IndexOfReceipts | examples/tcp/dctcp-example.cc:114-186 | after receipts within the bound, some of them not empty, the computed index lies between 1/n and 1, and is 1 exactly when all flows received the same |
| Fairness.ThroughputOfReceipts | examples/tcp/dctcp-example.cc:185-185 | within the bound the average throughput times window and million is a whole number of bits, divisible by 8, and is the mean of all received bits cut to whole bytes |
| Fairness.IndexIsJain | examples/tcp/dctcp-example.cc:186-186 | within the bound the index is the square of the sum of what the flows received over n times the sum of the squares |
| Fairness.ReceivedNext | examples/tcp/dctcp-example.cc:114-130 | a receipt counts for its own flow, with its size |
| Fairness.FlowGroup.MeasureFairness | examples/tcp/dctcp-example.cc:114-186 | PrintFairness on counters kept by the sinks gives that throughput and that index, which lies between 1/n and 1 and is 1 exactly when all flows received the same |
| Fairness.FlowGroup.TraceSink | examples/tcp/dctcp-example.cc:114-130 | a received packet adds its size to the counter of its flow modulo 2^64 and to no other, so that every counter stays equal, modulo 2^64, to the bytes its flow has received |
| Fairness.FlowGroup.InitializeCounters | examples/tcp/dctcp-example.cc:132-147 | all counters start at zero |
| Fairness.FlowGroup.PrintFairness | examples/tcp/dctcp-example.cc:180-186 | the loop over wrapping sums gives the quotient of the wrapped products of the true sums, and the rate of the wrapped mean in whole bytes |

## Left out

- In `test.py`: subprocesses, the XML, HTML and text reports, valgrind commands, arguments and
  configuration. `run_job_synchronously` is taken to return; the return code and what becomes of
  the report are parameters of each test. The lists of test names per status are not
  modelled beside their counters.
- TestRunner.InvStep: a step of the state machine is one blocking queue operation, one look at the exit
  flag or one start, exit or join of a thread; interleavings inside these are those of Python's own
  queues and are not modelled.
- The registry of types: the ancestors of a type are given as a set in place of the chain of parents
  that `IsChildOf` follows, and the registered types do not change during the search.
- StaticInformations.StaticInformation.DoGather: its three loops are three methods, and `Follow` holds the
  push, call and pop that the source repeats in each; the list of names without a type is recorded but not
  sorted for output.
- All markup and printing of the documentation generator.
- In `ns__init__.py`: finding the libraries, extracting what they link to, base names and filters,
  versions and loading. The dependency map is the input.
- LoadOrderTheory.SortToDependencies: the libraries are the keys of the map, each once, as a dictionary lists
  them; the recursion limit counts the calls of dependency_order only.
- In `check-style-clang-format.py`: the checks of include prefixes, include quotes, Doxygen tags,
  formatting and encoding, the choice of files, the process pool and the messages.
- StyleScript.CheckStyle: runs four of the nine checks, over lists of files that are given; the files of one check
  are done one after the other, where the script uses a pool of processes.
- FileChecker.ReadBack: text is modelled after decoding; the translation of carriage returns that
  Python makes when reading is not modelled, so lines end in a newline only.
- In `bench-scheduler.cc`: wall-clock times, printing, the command line and how delays are drawn: they are any
  list of numbers, long enough for the runs.
- BenchScheduler.Bench.Run: times and counters are unbounded numbers; of events at the same time any may be taken first.
- BenchStatistics.Log: computes over the reals, without rounding; the square roots of the second moments are not taken.
- TcpWriter.LargeTransfer: a write accepts at least one byte or reports an error; a socket that accepts nothing without
  an error would keep the loop turning. What each later callback is told about free space is ignored, as in the source.
- Fairness.FlowGroup.PrintFairness: models one group of flows with any positive number of counters, as the source has three
  of fixed length; the aggregate lines and printing are left out, and a quotient is exact instead of a double.
- The routing protocol, scratch simulations, plotting and file generation: mostly configuration of library classes
  that would add only easy members. The sources under src/aco are not part of this model.
