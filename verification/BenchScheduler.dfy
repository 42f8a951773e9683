/** The event loop of the scheduler benchmark. */
module BenchScheduler {
  // ---------------------------------------------------------------- the benchmark

  /** The simulator: the times of the pending events, the current time and the stop flag. */
  class Simulator {
    var now: nat
    var pending: seq<nat>
    var stop: bool

    /** Destroy() leaves the next user a new simulator. */
    constructor ()
      ensures now == 0 && pending == [] && !stop
    {
      now, pending, stop := 0, [], false;
    }

    method Schedule(delay: nat)
      modifies this`pending
      ensures pending == old(pending) + [now + delay]
    {
      pending := pending + [now + delay];
    }

    method Stop()
      modifies this`stop
      ensures stop
    {
      stop := true;
    }

    /** Takes an earliest pending event out and moves the time to it. */
    method RemoveNext() returns (k: nat)
      requires pending != []
      modifies this`pending, this`now
      ensures Earliest(old(pending), k) && now == old(pending)[k] && pending == Others(old(pending), k)
    {
      k := 0;
      for i := 0 to |pending|
        invariant k < |pending|
        invariant forall j :: 0 <= j < i ==> pending[k] <= pending[j]
      {
        if pending[i] < pending[k] {
          k := i;
        }
      }
      now := pending[k];
      pending := pending[..k] + pending[k + 1..];
    }
  }

  /** No pending event is earlier than event k. */
  predicate Earliest(queue: seq<nat>, k: nat) {
    k < |queue| && forall j :: 0 <= j < |queue| ==> queue[k] <= queue[j]
  }

  /** The other events. */
  function Others(queue: seq<nat>, k: nat): seq<nat> {
    if k < |queue| then queue[..k] + queue[k + 1..] else queue
  }

  /** The part of the result that does not depend on the wall clock. */
  datatype BenchResult = BenchResult(pop: nat, events: nat)

  /** What one callback saw: its time, the times pending before it, its own among them, and how many after it. */
  datatype Callback = Callback(time: nat, before: seq<nat>, index: nat, pending: nat)

  /** The callbacks of a run that works as intended. */
  ghost predicate GoodRun(trace: seq<Callback>, population: nat, total: nat) {
    && |trace| == (if population == 0 then 0 else total + 1)
    && Populated(trace, population)
    && forall i :: 0 <= i < |trace| - 1 ==> trace[i].time <= trace[i + 1].time
  }

  /** The k-th delay of a stream, which may be as long as any run needs; 0 behind its end. */
  function Delay(rand: seq<nat>, k: nat): nat { if k < |rand| then rand[k] else 0 }

  /** The times of the first n events, drawn one after the other. */
  function Initial(rand: seq<nat>, draws: nat, n: nat): seq<nat> {
    if n == 0 then [] else Initial(rand, draws, n - 1) + [Delay(rand, draws + n - 1)]
  }

  /** What a callback leaves after it has scheduled another event. */
  function Left(c: Callback, delay: nat): seq<nat> {
    Others(c.before, c.index) + [c.time + delay]
  }

  /** What is pending before callback i: the first events, or what callback i - 1 has left. */
  function PendingAt(rand: seq<nat>, draws: nat, population: nat, trace: seq<Callback>, i: nat): seq<nat>
    requires i <= |trace|
  {
    if i == 0 then Initial(rand, draws, population)
    else Left(trace[i - 1], Delay(rand, draws + population + i - 1))
  }

  /** The callback runs at the earliest of the times that are pending before it. */
  predicate RunsEarliest(c: Callback) {
    Earliest(c.before, c.index) && c.time == c.before[c.index]
  }

  predicate TimelyAt(rand: seq<nat>, draws: nat, population: nat, trace: seq<Callback>, i: nat)
    requires i < |trace|
  {
    trace[i].before == PendingAt(rand, draws, population, trace, i) && RunsEarliest(trace[i])
  }

  /** Each event runs at the time for which it was scheduled, in the order of these times. */
  ghost predicate Timely(rand: seq<nat>, draws: nat, population: nat, trace: seq<Callback>) {
    forall i {:trigger TimelyAt(rand, draws, population, trace, i)} ::
      0 <= i < |trace| ==> TimelyAt(rand, draws, population, trace, i)
  }

  lemma TimelyStays(rand: seq<nat>, draws: nat, population: nat, trace: seq<Callback>, c: Callback, i: nat)
    requires i < |trace| && TimelyAt(rand, draws, population, trace, i)
    ensures TimelyAt(rand, draws, population, trace + [c], i)
  {
  }

  lemma TimelyStep(rand: seq<nat>, draws: nat, population: nat, trace: seq<Callback>, c: Callback)
    requires Timely(rand, draws, population, trace)
    requires c.before == PendingAt(rand, draws, population, trace, |trace|) && RunsEarliest(c)
    ensures Timely(rand, draws, population, trace + [c])
    ensures PendingAt(rand, draws, population, trace + [c], |trace| + 1)
            == Left(c, Delay(rand, draws + population + |trace|))
  {
    forall i | 0 <= i < |trace| + 1 ensures TimelyAt(rand, draws, population, trace + [c], i) {
      if i < |trace| {
        assert TimelyAt(rand, draws, population, trace, i);
        TimelyStays(rand, draws, population, trace, c, i);
      } else {
        PendingStays(rand, draws, population, trace, c);
      }
    }
  }

  lemma PendingStays(rand: seq<nat>, draws: nat, population: nat, trace: seq<Callback>, c: Callback)
    ensures PendingAt(rand, draws, population, trace + [c], |trace|)
            == PendingAt(rand, draws, population, trace, |trace|)
  {
  }

  /** Every callback but the last leaves the population as it is. */
  ghost predicate Populated(trace: seq<Callback>, population: nat) {
    && (forall i :: 0 <= i < |trace| - 1 ==> trace[i].pending == population)
    && (trace != [] ==> trace[|trace| - 1].pending == population - 1)
  }

  /** Time never goes backwards, because no event is scheduled before the time at which it is. */
  lemma TimeGoesOn(rand: seq<nat>, draws: nat, population: nat, trace: seq<Callback>)
    requires Timely(rand, draws, population, trace)
    ensures forall i :: 0 <= i < |trace| - 1 ==> trace[i].time <= trace[i + 1].time
  {
    forall i | 0 <= i < |trace| - 1 ensures trace[i].time <= trace[i + 1].time {
      assert TimelyAt(rand, draws, population, trace, i);
      assert TimelyAt(rand, draws, population, trace, i + 1);
      LaterInLeft(trace[i], Delay(rand, draws + population + i), trace[i + 1].index);
    }
  }

  lemma LaterInLeft(c: Callback, delay: nat, k: nat)
    requires RunsEarliest(c) && k < |Left(c, delay)|
    ensures c.time <= Left(c, delay)[k]
  {
  }

  /** A run that goes on: `pending` is what the callbacks so far have left. */
  ghost predicate Midway(rand: seq<nat>, draws: nat, population: nat, trace: seq<Callback>, pending: seq<nat>) {
    && Timely(rand, draws, population, trace) && pending == PendingAt(rand, draws, population, trace, |trace|)
    && |pending| == population && forall i :: 0 <= i < |trace| ==> trace[i].pending == population
  }

  lemma Starts(rand: seq<nat>, draws: nat, population: nat, pending: seq<nat>)
    requires pending == Initial(rand, draws, population) && |pending| == population
    ensures Midway(rand, draws, population, [], pending)
    ensures population == 0 ==> GoodRun([], population, 0)
  {
  }

  /** A run that has stopped after `total` events. */
  ghost predicate Over(rand: seq<nat>, draws: nat, population: nat, total: nat, trace: seq<Callback>) {
    population > 0 && GoodRun(trace, population, total) && Timely(rand, draws, population, trace)
  }

  lemma GoesOn(rand: seq<nat>, draws: nat, population: nat, trace: seq<Callback>, c: Callback)
    requires Midway(rand, draws, population, trace, c.before) && RunsEarliest(c) && c.pending == population
    ensures Midway(rand, draws, population, trace + [c], Left(c, Delay(rand, draws + population + |trace|)))
  {
    TimelyStep(rand, draws, population, trace, c);
  }

  lemma Ends(rand: seq<nat>, draws: nat, population: nat, trace: seq<Callback>, c: Callback)
    requires Midway(rand, draws, population, trace, c.before) && RunsEarliest(c) && c.pending == population - 1
    ensures Over(rand, draws, population, |trace|, trace + [c])
  {
    TimelyStep(rand, draws, population, trace, c);
    TimeGoesOn(rand, draws, population, trace + [c]);
  }

  class Bench {
    const rand: seq<nat>     // the delays, in the order in which they are drawn
    var draws: nat
    var population: nat
    var total: nat
    var count: nat

    constructor (rand: seq<nat>, population: nat, total: nat)
      ensures this.rand == rand && this.population == population && this.total == total
    {
      this.rand, this.population, this.total := rand, population, total;
      draws, count := 0, 0;
    }

    method GetValue() returns (delay: nat)
      modifies this`draws
      ensures delay == Delay(rand, old(draws)) && draws == old(draws) + 1
    {
      delay := Delay(rand, draws);
      draws := draws + 1;
    }

    /** Schedules the next event and counts, or stops when enough events have been counted. */
    method Cb(simulator: Simulator)
      modifies this`draws, this`count, simulator`pending, simulator`stop
      ensures if old(count) >= total
              then simulator.stop && simulator.pending == old(simulator.pending)
                   && count == old(count) && draws == old(draws)
              else simulator.stop == old(simulator.stop)
                   && simulator.pending == old(simulator.pending) + [simulator.now + Delay(rand, old(draws))]
                   && count == old(count) + 1 && draws == old(draws) + 1
    {
      if count >= total {
        simulator.Stop();
        return;
      }
      var after := GetValue();
      simulator.Schedule(after);
      count := count + 1;
    }

    /** The first loop of Run. */
    method Populate(simulator: Simulator)
      requires simulator.now == 0 && simulator.pending == [] && !simulator.stop
      modifies this`draws, simulator`pending
      ensures |simulator.pending| == population && draws == old(draws) + population
      ensures simulator.pending == Initial(rand, old(draws), population)
    {
      for i := 0 to population
        invariant |simulator.pending| == i && draws == old(draws) + i
        invariant simulator.pending == Initial(rand, old(draws), i)
      {
        var at := GetValue();
        simulator.Schedule(at);
      }
    }

    /** One round of the simulator: an earliest event is taken out and calls back. */
    method ProcessOneEvent(simulator: Simulator) returns (ghost c: Callback)
      requires simulator.pending != [] && !simulator.stop
      modifies this`draws, this`count, simulator`pending, simulator`now, simulator`stop
      ensures c.before == old(simulator.pending) && RunsEarliest(c)
      ensures c.pending == |simulator.pending| == |c.before| - if simulator.stop then 1 else 0
      ensures if old(count) >= total
              then simulator.stop && count == old(count) && draws == old(draws)
              else !simulator.stop && simulator.pending == Left(c, Delay(rand, old(draws)))
                   && count == old(count) + 1 && draws == old(draws) + 1
    {
      ghost var before := simulator.pending;
      var k := simulator.RemoveNext();
      Cb(simulator);
      c := Callback(simulator.now, before, k, |simulator.pending|);
    }

    /** What earlier runs have left in the counter has no influence on a run. */
    method Run() returns (r: BenchResult, ghost trace: seq<Callback>)
      modifies this`draws, this`count
      ensures r == BenchResult(population, if population == 0 then 0 else total)
      ensures GoodRun(trace, population, total)
      ensures Timely(rand, old(draws), population, trace)
      ensures draws == old(draws) + population + r.events
    {
      count := 0;
      var simulator := new Simulator();
      Populate(simulator);
      trace := [];
      Starts(rand, old(draws), population, simulator.pending);
      while simulator.pending != [] && !simulator.stop
        invariant fresh(simulator) && draws == old(draws) + population + count
        invariant !simulator.stop ==> |trace| == count <= total
        invariant !simulator.stop ==> Midway(rand, old(draws), population, trace, simulator.pending)
        invariant simulator.stop ==> count == total && Over(rand, old(draws), population, total, trace)
        invariant population == 0 ==> count == 0
        decreases !simulator.stop, total - count
      {
        ghost var c := ProcessOneEvent(simulator);
        if simulator.stop {
          Ends(rand, old(draws), population, trace, c);
        } else {
          GoesOn(rand, old(draws), population, trace, c);
        }
        trace := trace + [c];
      }
      r := BenchResult(population, count);
    }
  }
}
