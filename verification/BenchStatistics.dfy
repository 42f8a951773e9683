/** The statistics over the runs of the scheduler benchmark. */
module BenchStatistics {
  import opened Wrappers

  // ---------------------------------------------------------------- mean and deviations

  function Sum(values: seq<real>): real {
    if values == [] then 0.0 else
    Sum(values[..|values| - 1]) + values[|values| - 1]
  }

  /** The number of values, counted in doubles. */
  function Size(values: seq<real>): real {
    if values == [] then 0.0 else Size(values[..|values| - 1]) + 1.0
  }

  lemma {:induction false} SizeIs(values: seq<real>)
    ensures Size(values) == |values| as real
  {
    if values != [] { SizeIs(values[..|values| - 1]); }
  }

  function Squares(values: seq<real>): real {
    if values == [] then 0.0 else
    Squares(values[..|values| - 1]) + values[|values| - 1] * values[|values| - 1]
  }

  /** The sum of squared deviations from m. */
  function Deviations(values: seq<real>, m: real): real {
    if values == [] then 0.0 else
    var d := values[|values| - 1] - m;
    Deviations(values[..|values| - 1], m) + d * d
  }

  /** `average` is the mean, and `moment2` the sum of squared deviations from it. */
  ghost predicate Describes(values: seq<real>, average: real, moment2: real) {
    && average * |values| as real == Sum(values)
    && moment2 == Deviations(values, average)
  }

  lemma {:induction false} DeviationsNotNegative(values: seq<real>, m: real)
    ensures Deviations(values, m) >= 0.0
  {
    if values != [] {
      DeviationsNotNegative(values[..|values| - 1], m);
      var d := values[|values| - 1] - m;
      assert d >= 0.0 ==> d * d >= 0.0;
      assert d <= 0.0 ==> (-d) * (-d) >= 0.0;
    }
  }

  /** What ACCUMULATE makes of the average a and moment m of one field. */
  predicate Accumulates(value: real, a: real, m: real, count: nat, a': real, m': real)
    requires count > 0
  {
    a' == a + (value - a) / count as real && m' == m + (value - a) * (value - a')
  }

  function SumTimes(values: seq<real>, m: real): real {
    if values == [] then 0.0 else
    SumTimes(values[..|values| - 1], m) + m * values[|values| - 1]
  }

  lemma {:induction false} SumTimesIs(values: seq<real>, m: real)
    ensures SumTimes(values, m) == m * Sum(values)
  {
    if values != [] { SumTimesIs(values[..|values| - 1], m); }
  }

  function SizeTimes(values: seq<real>, m: real): real {
    if values == [] then 0.0 else SizeTimes(values[..|values| - 1], m) + m
  }

  lemma {:induction false} SizeTimesIs(values: seq<real>, m: real)
    ensures SizeTimes(values, m) == m * Size(values)
  {
    if values != [] { SizeTimesIs(values[..|values| - 1], m); }
  }

  /** The sum of squared deviations by sums over the samples. */
  lemma {:induction false} DeviationsBySums(values: seq<real>, m: real)
    ensures Deviations(values, m)
            == Squares(values) - 2.0 * SumTimes(values, m) + SizeTimes(values, m * m)
  {
    if values != [] { DeviationsBySums(values[..|values| - 1], m); }
  }

  /** What the loop keeps in terms of the two sums. */
  ghost predicate Tracks(values: seq<real>, average: real, moment2: real) {
    && average * Size(values) == Sum(values)
    && moment2 == Squares(values) - average * Sum(values)
  }

  lemma Regroup(a: real, n: real, s: real)
    requires a * n == s
    ensures (a * a) * n == a * s
  {
    assert (a * a) * n == a * (a * n);
  }

  lemma SizeTimesOfMean(values: seq<real>, average: real)
    requires average * Size(values) == Sum(values)
    ensures SizeTimes(values, average * average) == average * Sum(values)
  {
    SizeTimesIs(values, average * average);
    Regroup(average, Size(values), Sum(values));
  }

  lemma DeviationsFromMean(values: seq<real>, average: real, p: real)
    requires average * Size(values) == Sum(values) && p == average * Sum(values)
    ensures Deviations(values, average) == Squares(values) - p
  {
    SizeTimesOfMean(values, average);
    SumTimesIs(values, average);
    DeviationsBySums(values, average);
  }

  lemma TracksDescribes(values: seq<real>, average: real, moment2: real)
    requires Tracks(values, average, moment2)
    ensures Describes(values, average, moment2)
  {
    DeviationsFromMean(values, average, average * Sum(values));
    SizeIs(values);
  }

  /** With v the new sample, a and b the averages before and after it. */
  lemma Welford(n: real, s: real, q: real, a: real, b: real, v: real)
    requires a * n == s && (b - a) * (n + 1.0) == v - a
    ensures b * (n + 1.0) == s + v
    ensures (q - a * s) + (v - a) * (v - b) == (q + v * v) - b * (s + v)
  {
    assert n * (b - a) == v - b;
    assert a * (n * (b - a)) == a * (v - b);
    assert a * (n * (b - a)) == s * b - s * a by {
      assert a * (n * (b - a)) == (a * n) * (b - a);
    }
    assert (v - a) * (v - b) == v * v - v * b - a * (v - b);
    assert b * (s + v) == s * b + v * b;
  }

  lemma SumAppend(values: seq<real>, x: real)
    ensures Sum(values + [x]) == Sum(values) + x
    ensures Squares(values + [x]) == Squares(values) + x * x
    ensures Size(values + [x]) == Size(values) + 1.0
  {
    assert (values + [x])[..|values|] == values;
  }

  /** One sample of Welford's method. */
  lemma WelfordStep(values: seq<real>, x: real, average: real, moment2: real, next: real, m: real)
    requires Tracks(values, average, moment2)
    requires Accumulates(x, average, moment2, |values| + 1, next, m)
    ensures Tracks(values + [x], next, m)
  {
    SumAppend(values, x);
    SizeIs(values);
    WelfordValues(Size(values), Sum(values), Squares(values), average, moment2,
                  Size(values + [x]), next, x, m, Sum(values + [x]), Squares(values + [x]));
  }

  lemma WelfordValues(n: real, s: real, q: real, a: real, before: real, count: real, b: real, v: real, m: real,
                      s': real, q': real)
    requires n >= 0.0 && count == n + 1.0 && a * n == s && b == a + (v - a) / count
    requires before == q - a * s && m == before + (v - a) * (v - b)
    requires s' == s + v && q' == q + v * v
    ensures b * count == s' && m == q' - b * s'
  {
    assert (b - a) * (n + 1.0) == v - a;
    Welford(n, s, q, a, b, v);
  }

  /** The first sample, from which the average starts, is its own mean. */
  lemma WelfordStart(x: real, next: real, m: real)
    requires Accumulates(x, x, 0.0, 1, next, m)
    ensures Tracks([x], next, m)
  {
    SumAppend([], x);
    assert [] + [x] == [x];
  }

  /** The ACCUMULATE macro on one field. */
  method Accumulate(value: real, average: real, moment2: real, count: nat) returns (a: real, m: real)
    requires count > 0
    ensures Accumulates(value, average, moment2, count, a, m)
  {
    var deltaPre := value - average;
    a := average + deltaPre / count as real;
    var deltaPost := value - a;
    m := moment2 + deltaPre * deltaPost;
  }

  ghost predicate Seeded(values: seq<real>, n: nat, average: real, moment2: real)
    requires values != [] && n <= |values|
  {
    if n == 0 then average == values[0] && moment2 == 0.0
    else Tracks(values[..n], average, moment2)
  }

  lemma SeededStep(values: seq<real>, n: nat, average: real, moment2: real, a: real, m: real)
    requires n < |values| && Seeded(values, n, average, moment2)
    requires Accumulates(values[n], average, moment2, n + 1, a, m)
    ensures Seeded(values, n + 1, a, m)
  {
    assert values[..n] + [values[n]] == values[..n + 1];
    if n == 0 {
      WelfordStart(values[0], a, m);
    } else {
      WelfordStep(values[..n], values[n], average, moment2, a, m);
    }
  }

  // ---------------------------------------------------------------- the results

  datatype PhaseResult = PhaseResult(time: real, rate: real, period: real)

  datatype Result = Result(init: PhaseResult, run: PhaseResult)

  datatype Field = InitTime | InitRate | InitPeriod | RunTime | RunRate | RunPeriod

  function Get(r: Result, f: Field): real {
    match f
    case InitTime => r.init.time
    case InitRate => r.init.rate
    case InitPeriod => r.init.period
    case RunTime => r.run.time
    case RunRate => r.run.rate
    case RunPeriod => r.run.period
  }

  function Column(results: seq<Result>, f: Field): (values: seq<real>)
    ensures |values| == |results|
  {
    seq(|results|, i requires 0 <= i < |results| => Get(results[i], f))
  }

  /** The loop body: the macro on all six fields. */
  method AccumulateResult(value: Result, average: Result, moment2: Result, count: nat) returns (a: Result, m: Result)
    requires count > 0
    ensures forall f :: Accumulates(Get(value, f), Get(average, f), Get(moment2, f), count, Get(a, f), Get(m, f))
  {
    var init, init2 := AccumulatePhase(value.init, average.init, moment2.init, count);
    var run, run2 := AccumulatePhase(value.run, average.run, moment2.run, count);
    a, m := Result(init, run), Result(init2, run2);
  }

  method AccumulatePhase(value: PhaseResult, average: PhaseResult, moment2: PhaseResult, count: nat)
      returns (a: PhaseResult, m: PhaseResult)
    requires count > 0
    ensures Accumulates(value.time, average.time, moment2.time, count, a.time, m.time)
    ensures Accumulates(value.rate, average.rate, moment2.rate, count, a.rate, m.rate)
    ensures Accumulates(value.period, average.period, moment2.period, count, a.period, m.period)
  {
    var t, t2 := Accumulate(value.time, average.time, moment2.time, count);
    var r, r2 := Accumulate(value.rate, average.rate, moment2.rate, count);
    var p, p2 := Accumulate(value.period, average.period, moment2.period, count);
    a, m := PhaseResult(t, r, p), PhaseResult(t2, r2, p2);
  }

  /** Each number of the summary is the mean, or the moment, of its own column of the results. */
  ghost predicate SummaryOf(results: seq<Result>, average: Result, moment2: Result) {
    var n := |results|;
    && Describes(seq(n, i requires 0 <= i < n => results[i].init.time), average.init.time, moment2.init.time)
    && Describes(seq(n, i requires 0 <= i < n => results[i].init.rate), average.init.rate, moment2.init.rate)
    && Describes(seq(n, i requires 0 <= i < n => results[i].init.period), average.init.period, moment2.init.period)
    && Describes(seq(n, i requires 0 <= i < n => results[i].run.time), average.run.time, moment2.run.time)
    && Describes(seq(n, i requires 0 <= i < n => results[i].run.rate), average.run.rate, moment2.run.rate)
    && Describes(seq(n, i requires 0 <= i < n => results[i].run.period), average.run.period, moment2.run.period)
  }

  lemma SummaryByFields(results: seq<Result>, a: Result, m: Result)
    requires forall f :: Describes(Column(results, f), Get(a, f), Get(m, f))
    ensures SummaryOf(results, a, m)
  {
    var n := |results|;
    assert Column(results, InitTime) == seq(n, i requires 0 <= i < n => results[i].init.time);
    assert Column(results, InitRate) == seq(n, i requires 0 <= i < n => results[i].init.rate);
    assert Column(results, InitPeriod) == seq(n, i requires 0 <= i < n => results[i].init.period);
    assert Column(results, RunTime) == seq(n, i requires 0 <= i < n => results[i].run.time);
    assert Column(results, RunRate) == seq(n, i requires 0 <= i < n => results[i].run.rate);
    assert Column(results, RunPeriod) == seq(n, i requires 0 <= i < n => results[i].run.period);
    assert forall f :: Describes(Column(results, f), Get(a, f), Get(m, f));
  }

  /**
    The averages and second moments that Log prints, None for fewer than two results.
    The seed, which is the first sample and not 0, does not disturb them.
   */
  method Log(results: seq<Result>) returns (summary: Option<(Result, Result)>)
    ensures summary.None? <==> |results| < 2
    ensures summary.Some? ==> SummaryOf(results, summary.value.0, summary.value.1)
  {
    if |results| < 2 {
      return None;
    }
    var average := results[0];
    var moment2 := Result(PhaseResult(0.0, 0.0, 0.0), PhaseResult(0.0, 0.0, 0.0));
    for n := 0 to |results|
      invariant forall f :: Seeded(Column(results, f), n, Get(average, f), Get(moment2, f))
    {
      var a, m := AccumulateResult(results[n], average, moment2, n + 1);
      forall f ensures Seeded(Column(results, f), n + 1, Get(a, f), Get(m, f)) {
        SeededStep(Column(results, f), n, Get(average, f), Get(moment2, f), Get(a, f), Get(m, f));
      }
      average, moment2 := a, m;
    }
    forall f ensures Describes(Column(results, f), Get(average, f), Get(moment2, f)) {
      assert Column(results, f)[..|results|] == Column(results, f);
      TracksDescribes(Column(results, f), Get(average, f), Get(moment2, f));
    }
    SummaryByFields(results, average, moment2);
    summary := Some((average, moment2));
  }
}
