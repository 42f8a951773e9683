/**
  The flow counters and the fairness index of dctcp-example.cc.  All counters are
  uint64_t; the index is the quotient of two such values taken as a double.
 */
module Fairness {
  import opened Sequences

  const TWO_64: nat := 0x1_0000_0000_0000_0000
  const TWO_32: nat := 0x1_0000_0000

  /** Unsigned 64-bit arithmetic keeps the lowest 64 bits. */
  function Wrap(x: nat): nat { x % TWO_64 }

  /** A quotient of doubles: an ordinary one, or what dividing by zero gives. */
  datatype Quotient = Ratio(value: real) | Infinity | NotANumber

  function Divide(a: nat, b: nat): Quotient {
    if b != 0 then Ratio(a as real / b as real)
    else if a == 0 then NotANumber else Infinity
  }

  function Value(): nat -> int { (x: nat) => x }

  function Square(): nat -> int { (x: nat) => x * x }

  function Sum(bytes: seq<nat>): int { Total(bytes, Value()) }

  function SumSquares(bytes: seq<nat>): int { Total(bytes, Square()) }

  // ---------------------------------------------------------------- Cauchy and Schwarz

  /** What a further flow x adds to |bytes| * SumSquares - Sum * Sum. */
  function Spread(x: int): nat -> int { (y: nat) => (x - y) * (x - y) }

  lemma {:induction false} SpreadIs(bytes: seq<nat>, x: int)
    ensures Total(bytes, Spread(x)) == |bytes| * (x * x) - 2 * x * Sum(bytes) + SumSquares(bytes)
  {
    if bytes != [] {
      var y, rest := bytes[0], bytes[1..];
      SpreadIs(rest, x);
      assert (x - y) * (x - y) == x * x - 2 * x * y + y * y;
      assert 2 * x * (y + Sum(rest)) == 2 * x * y + 2 * x * Sum(rest);
      assert (|rest| + 1) * (x * x) == |rest| * (x * x) + x * x;
    }
  }

  lemma NoSpread(bytes: seq<nat>, x: int)
    ensures Total(bytes, Spread(x)) >= 0
    ensures Total(bytes, Spread(x)) == 0 <==> forall i :: 0 <= i < |bytes| ==> bytes[i] == x
  {
    forall i | 0 <= i < |bytes|
      ensures Spread(x)(bytes[i]) >= 0 && (Spread(x)(bytes[i]) == 0 <==> bytes[i] == x)
    {
      var d := x - bytes[i];
      assert d > 0 ==> d * d > 0;
      assert d < 0 ==> d * d > 0;
    }
    TotalZero(bytes, Spread(x));
  }

  lemma {:induction false} SumBounds(bytes: seq<nat>)
    ensures 0 <= Sum(bytes) && 0 <= SumSquares(bytes)
    ensures SumSquares(bytes) <= Sum(bytes) * Sum(bytes)
  {
    if bytes != [] {
      var y, s := bytes[0], Sum(bytes[1..]);
      SumBounds(bytes[1..]);
      assert (y + s) * (y + s) == y * y + 2 * (y * s) + s * s;
      assert y * s >= 0;
    }
  }

  predicate AllEqual(bytes: seq<nat>) {
    forall i :: 0 <= i < |bytes| ==> bytes[i] == bytes[0]
  }

  lemma OneMoreFlow(n: int, s: int, q: int, x: int)
    ensures (n + 1) * (x * x + q) - (x + s) * (x + s) == (n * q - s * s) + (n * (x * x) - 2 * x * s + q)
  {
    assert (x + s) * (x + s) == x * x + 2 * x * s + s * s;
    assert (n + 1) * (x * x + q) == n * (x * x) + x * x + n * q + q;
  }

  lemma {:induction false} CauchySchwarz(bytes: seq<nat>)
    ensures Sum(bytes) * Sum(bytes) <= |bytes| * SumSquares(bytes)
    ensures Sum(bytes) * Sum(bytes) == |bytes| * SumSquares(bytes) <==> AllEqual(bytes)
  {
    if bytes != [] {
      var x, rest := bytes[0], bytes[1..];
      var n, s, q := |rest|, Sum(rest), SumSquares(rest);
      CauchySchwarz(rest);
      SpreadIs(rest, x);
      NoSpread(rest, x);
      OneMoreFlow(n, s, q, x);
      AllEqualStep(bytes);
    }
  }

  lemma AllEqualStep(bytes: seq<nat>)
    requires bytes != []
    ensures AllEqual(bytes) <==> forall i :: 0 <= i < |bytes| - 1 ==> bytes[1..][i] == bytes[0]
    ensures AllEqual(bytes) ==> AllEqual(bytes[1..])
  {
    assert forall i :: 0 < i < |bytes| ==> bytes[i] == bytes[1..][i - 1];
  }

  /** The index of n flows lies between 1/n and 1, and is 1 exactly for equal flows. */
  lemma IndexInRange(bytes: seq<nat>)
    requires Sum(bytes) != 0
    ensures |bytes| * SumSquares(bytes) > 0
    ensures var index := (Sum(bytes) * Sum(bytes)) as real / (|bytes| * SumSquares(bytes)) as real;
            && 1.0 / |bytes| as real <= index <= 1.0
            && (index == 1.0 <==> AllEqual(bytes))
  {
    SumBounds(bytes);
    CauchySchwarz(bytes);
    var s, n, q := Sum(bytes), |bytes|, SumSquares(bytes);
    assert s * s > 0;
    assert n * q > 0;
    assert q > 0;
    Quotients(s * s, n, q);
  }

  lemma Quotients(a: int, n: int, q: int)
    requires n > 0 && q > 0 && q <= a <= n * q
    ensures n * q > 0
    ensures 1.0 / n as real <= a as real / (n * q) as real <= 1.0
    ensures a as real / (n * q) as real == 1.0 <==> a == n * q
  {
    var x := a as real / (n * q) as real;
    assert x * (n * q) as real == a as real;
    assert (n * q) as real == n as real * q as real;
    var y := 1.0 / n as real;
    assert y * n as real == 1.0;
    assert y * (n * q) as real == q as real;
  }

  // ---------------------------------------------------------------- wrap-around

  lemma WrapShift(k: int, c: int)
    ensures (TWO_64 * k + c) % TWO_64 == c % TWO_64
  {
    var q, r := c / TWO_64, c % TWO_64;
    assert TWO_64 * k + c == TWO_64 * (k + q) + r;
  }

  lemma WrapAdd(a: nat, b: nat)
    ensures Wrap(Wrap(a) + b) == Wrap(a + b) == Wrap(a + Wrap(b))
  {
    assert a + b == TWO_64 * (a / TWO_64) + (Wrap(a) + b);
    WrapShift(a / TWO_64, Wrap(a) + b);
    assert a + b == TWO_64 * (b / TWO_64) + (a + Wrap(b));
    WrapShift(b / TWO_64, a + Wrap(b));
  }

  lemma WrapMul(a: nat, b: nat)
    ensures Wrap(a * Wrap(b)) == Wrap(a * b)
  {
    var k := b / TWO_64;
    assert b == TWO_64 * k + Wrap(b);
    assert a * b == TWO_64 * (a * k) + a * Wrap(b);
    WrapShift(a * k, a * Wrap(b));
  }

  /** The index of one group of flows, as PrintFairness computes it. */
  function WrappedIndex(bytes: seq<nat>): Quotient {
    SumBounds(bytes);
    SquareIsNatural(Sum(bytes));
    Divide(Wrap(Sum(bytes) * Sum(bytes)), Wrap(|bytes| * SumSquares(bytes)))
  }

  lemma SquareIsNatural(s: int)
    ensures s * s >= 0
  {
  }

  /** As long as n * SumSquares stays below 2^64 nothing wraps, and the index is the true one. */
  lemma IndexWithoutWrap(bytes: seq<nat>)
    requires Sum(bytes) != 0 && |bytes| * SumSquares(bytes) < 0x1_0000_0000_0000_0000
    ensures |bytes| * SumSquares(bytes) > 0
    ensures WrappedIndex(bytes)
            == Ratio((Sum(bytes) * Sum(bytes)) as real / (|bytes| * SumSquares(bytes)) as real)
  {
    var square, product := Sum(bytes) * Sum(bytes), |bytes| * SumSquares(bytes);
    assert 0 <= square <= product && product > 0 by {
      CauchySchwarz(bytes);
      IndexInRange(bytes);
      SquareIsNatural(Sum(bytes));
    }
    SmallIsNotWrapped(square);
    SmallIsNotWrapped(product);
  }

  lemma SmallIsNotWrapped(x: int)
    requires 0 <= x < TWO_64
    ensures Wrap(x) == x
  {
  }

  lemma {:induction false} SquaresBelow(bytes: seq<nat>, most: nat)
    requires forall i :: 0 <= i < |bytes| ==> bytes[i] <= most
    ensures SumSquares(bytes) <= |bytes| * (most * most)
  {
    if bytes != [] {
      var x := bytes[0];
      SquaresBelow(bytes[1..], most);
      assert x * x <= most * most;
      assert |bytes| * (most * most) == |bytes[1..]| * (most * most) + most * most;
    }
  }

  /** That is so when n times the largest counter is below 2^32. */
  lemma NoWrapBelow(bytes: seq<nat>, most: nat)
    requires (forall i :: 0 <= i < |bytes| ==> bytes[i] <= most) && |bytes| * most < 0x1_0000_0000
    ensures |bytes| * SumSquares(bytes) < 0x1_0000_0000_0000_0000
  {
    SquaresBelow(bytes, most);
    ProductsBelow(|bytes|, most, SumSquares(bytes));
  }

  lemma ProductsBelow(n: nat, most: nat, q: int)
    requires q <= n * (most * most) && n * most < TWO_32
    ensures n * q < TWO_64
  {
    var m := n * most;
    MulMonotone(n, q, n * (most * most));
    assert n * (n * (most * most)) == m * m;
    SquareBelow(m);
  }

  lemma SquareBelow(m: nat)
    requires m < TWO_32
    ensures m * m < TWO_64
  {
    MulMonotone(m, m, TWO_32);
    MulMonotone(TWO_32, m, TWO_32 - 1);
  }

  lemma MulMonotone(n: nat, a: int, b: int)
    requires a <= b
    ensures n * a <= n * b && n * a == a * n
  {
    assert n * (b - a) >= 0;
  }

  // ---------------------------------------------------------------- the counters

  /** A packet that a sink has received: the flow and the size. */
  type Receipt = (nat, nat)

  function SizeFor(flow: nat): Receipt -> int { (r: Receipt) => if r.0 == flow then r.1 else 0 }

  /** All bytes received for a flow. */
  function Received(trace: seq<Receipt>, flow: nat): int { Total(trace, SizeFor(flow)) }

  /** Every receipt counts for its own flow, with its size. */
  lemma ReceivedNext(trace: seq<Receipt>, index: nat, size: nat, flow: nat)
    ensures Received([], flow) == 0
    ensures Received(trace + [(index, size)], flow) == Received(trace, flow) + if index == flow then size else 0
  {
    TotalAppend(trace, (index, size), SizeFor(flow));
  }

  lemma ReceivedIsNatural(trace: seq<Receipt>, flow: nat)
    ensures Received(trace, flow) >= 0
  {
    TotalZero(trace, SizeFor(flow));
  }

  /** What the loop of PrintFairness adds for one flow. */
  lemma NextFlow(bytes: seq<nat>, i: nat)
    requires i < |bytes| && Sum(bytes[..i]) >= 0 && SumSquares(bytes[..i]) >= 0
    ensures Sum(bytes[..i + 1]) >= 0 && SumSquares(bytes[..i + 1]) >= 0
    ensures Wrap(Wrap(Sum(bytes[..i])) + bytes[i]) == Wrap(Sum(bytes[..i + 1]))
    ensures Wrap(Wrap(SumSquares(bytes[..i])) + Wrap(bytes[i] * bytes[i])) == Wrap(SumSquares(bytes[..i + 1]))
  {
    var x, y := bytes[i], bytes[i] * bytes[i];
    assert bytes[..i] + [x] == bytes[..i + 1];
    TotalAppend(bytes[..i], x, Value());
    TotalAppend(bytes[..i], x, Square());
    WrapAdd(Sum(bytes[..i]), x);
    WrapBoth(SumSquares(bytes[..i]), y);
  }

  lemma WrapBoth(a: nat, b: nat)
    ensures Wrap(Wrap(a) + Wrap(b)) == Wrap(a + b)
  {
    WrapAdd(a, b);
    WrapAdd(Wrap(a), b);
  }

  lemma WrapProducts(s: nat, n: nat, q: nat)
    ensures Wrap(Wrap(s) * Wrap(s)) == Wrap(s * s) && Wrap(n * Wrap(q)) == Wrap(n * q)
  {
    WrapMul(s, s);
    WrapMul(Wrap(s), s);
    WrapMul(n, q);
  }

  // ---------------------------------------------------------------- from receipts to the index

  /** What the counters of n flows hold after the given receipts. */
  ghost predicate CountsOf(bytes: seq<nat>, trace: seq<Receipt>) {
    forall i :: 0 <= i < |bytes| ==> Received(trace, i) >= 0 && bytes[i] == Wrap(Received(trace, i))
  }

  /** No flow has received more than `most`, some flow has received something, and n * most fits 32 bits. */
  ghost predicate Measured(n: nat, trace: seq<Receipt>, most: nat) {
    && (forall i :: 0 <= i < n ==> Received(trace, i) <= most)
    && (exists i :: 0 <= i < n && Received(trace, i) > 0)
    && n * most < 0x1_0000_0000
  }

  lemma {:induction false} SumIsPositive(bytes: seq<nat>, i: nat)
    requires i < |bytes| && bytes[i] > 0
    ensures Sum(bytes) > 0
  {
    SumBounds(bytes[1..]);
    if i > 0 { SumIsPositive(bytes[1..], i - 1); }
  }

  lemma CountersAreExact(bytes: seq<nat>, trace: seq<Receipt>, most: nat)
    requires CountsOf(bytes, trace) && Measured(|bytes|, trace, most)
    ensures forall i :: 0 <= i < |bytes| ==> bytes[i] == Received(trace, i) <= most
  {
    MulMonotone(most, 1, |bytes|);
    forall i | 0 <= i < |bytes| ensures bytes[i] == Received(trace, i) {
      SmallIsNotWrapped(Received(trace, i));
    }
  }

  /** The printed index lies between 1/n and 1, and is 1 exactly when all flows received the same. */
  lemma IndexOfReceipts(bytes: seq<nat>, trace: seq<Receipt>, most: nat)
    requires CountsOf(bytes, trace) && Measured(|bytes|, trace, most)
    ensures |bytes| > 0 && WrappedIndex(bytes).Ratio?
    ensures 1.0 / |bytes| as real <= WrappedIndex(bytes).value <= 1.0
    ensures WrappedIndex(bytes).value == 1.0 <==>
            forall i, j :: 0 <= i < j < |bytes| ==> Received(trace, i) == Received(trace, j)
  {
    CountersAreExact(bytes, trace, most);
    var i :| 0 <= i < |bytes| && Received(trace, i) > 0;
    SumIsPositive(bytes, i);
    NoWrapBelow(bytes, most);
    IndexWithoutWrap(bytes);
    IndexInRange(bytes);
    EqualPairwise(bytes);
    assert AllEqual(bytes) <==> forall i, j :: 0 <= i < j < |bytes| ==> Received(trace, i) == Received(trace, j);
  }

  lemma EqualPairwise(bytes: seq<nat>)
    ensures AllEqual(bytes) <==> forall i, j :: 0 <= i < j < |bytes| ==> bytes[i] == bytes[j]
  {
    if forall i, j :: 0 <= i < j < |bytes| ==> bytes[i] == bytes[j] {
      forall i | 0 <= i < |bytes| ensures bytes[i] == bytes[0] {
        assert i > 0 ==> bytes[0] == bytes[i];
      }
    }
  }

  // ---------------------------------------------------------------- average throughput

  /** The mean of the counters in whole bytes, as bits per second in millions. */
  function Throughput(bytes: seq<nat>, window: real): Quotient
    requires bytes != []
  {
    SumBounds(bytes);
    Rate(Wrap(MeanBits(Wrap(Sum(bytes)), |bytes|)), window)
  }

  /** The bits of the mean of n counters, without the fraction of a byte. */
  function MeanBits(sum: nat, n: nat): nat
    requires n > 0
  {
    sum / n * 8
  }

  function Rate(bits: nat, window: real): Quotient {
    if window != 0.0 then Ratio(bits as real / window / 1000000.0)
    else if bits == 0 then NotANumber else Infinity
  }

  /** What the first n flows have received together. */
  function ReceivedByAll(trace: seq<Receipt>, n: nat): int {
    if n == 0 then 0 else ReceivedByAll(trace, n - 1) + Received(trace, n - 1)
  }

  lemma {:induction false} SumIsReceived(bytes: seq<nat>, trace: seq<Receipt>)
    requires forall i :: 0 <= i < |bytes| ==> bytes[i] == Received(trace, i)
    ensures Sum(bytes) == ReceivedByAll(trace, |bytes|)
    decreases |bytes|
  {
    if bytes != [] {
      var n := |bytes| - 1;
      SumIsReceived(bytes[..n], trace);
      assert bytes == bytes[..n] + [bytes[n]];
      TotalAppend(bytes[..n], bytes[n], Value());
    }
  }

  lemma SumBelow(bytes: seq<nat>, most: nat)
    requires forall i :: 0 <= i < |bytes| ==> bytes[i] <= most
    ensures 0 <= Sum(bytes) <= |bytes| * most
  {
    TotalBounds(bytes, Value(), 0, most);
  }

  lemma MeanBelow(sum: nat, n: nat)
    requires n > 0 && sum < TWO_32
    ensures MeanBits(sum, n) < TWO_64
  {
    var q := sum / n;
    assert q <= sum by {
      assert sum == n * q + sum % n;
      MulMonotone(q, 1, n);
    }
  }

  lemma MeanNotWrapped(sum: nat, n: nat)
    requires n > 0 && sum < TWO_32
    ensures Wrap(MeanBits(Wrap(sum), n)) == MeanBits(sum, n)
  {
    SmallIsNotWrapped(sum);
    MeanBelow(sum, n);
    SmallIsNotWrapped(MeanBits(sum, n));
  }

  /** Within the bound nothing wraps: the throughput is that of the mean of all receipts, in whole bytes. */
  lemma ThroughputOfReceipts(bytes: seq<nat>, trace: seq<Receipt>, most: nat, window: real)
    requires CountsOf(bytes, trace) && Measured(|bytes|, trace, most)
    ensures |bytes| > 0 && ReceivedByAll(trace, |bytes|) > 0
    ensures Throughput(bytes, window) == Rate(MeanBits(ReceivedByAll(trace, |bytes|), |bytes|), window)
    ensures window > 0.0 ==> IsMeanRate(Throughput(bytes, window), window, ReceivedByAll(trace, |bytes|), |bytes|)
  {
    SumOfReceipts(bytes, trace, most);
    MeanNotWrapped(Sum(bytes), |bytes|);
    if window > 0.0 {
      MeanRateIs(window, Sum(bytes), |bytes|);
    }
  }

  /** b bits are those of the mean of n flows that received s bytes together, cut to whole bytes. */
  predicate MeanInBits(b: nat, s: int, n: nat) {
    b % 8 == 0 && n * b <= 8 * s < n * (b + 8)
  }

  lemma MeanBitsAre(s: nat, n: nat)
    requires n > 0
    ensures MeanInBits(MeanBits(s, n), s, n)
  {
    var q, r := s / n, s % n;
    assert s == n * q + r && 0 <= r < n;
    EightTimes(n, q);
  }

  lemma EightTimes(n: nat, q: nat)
    ensures n * (q * 8) == 8 * (n * q) && n * (q * 8 + 8) == 8 * (n * q) + 8 * n
  {
  }

  lemma RateIs(bits: nat, window: real)
    requires window > 0.0
    ensures Rate(bits, window).Ratio? && Rate(bits, window).value * window * 1000000.0 == bits as real
  {
    var perWindow := bits as real / window;
    assert perWindow / 1000000.0 * window * 1000000.0 == perWindow * window;
  }

  /** Over the window and in millions, the rate is that of the mean, cut to whole bytes. */
  ghost predicate IsMeanRate(rate: Quotient, window: real, s: int, n: nat) {
    rate.Ratio? && exists b: nat :: MeanInBits(b, s, n) && rate.value * window * 1000000.0 == b as real
  }

  lemma MeanRateIs(window: real, s: nat, n: nat)
    requires window > 0.0 && n > 0
    ensures IsMeanRate(Rate(MeanBits(s, n), window), window, s, n)
  {
    MeanBitsAre(s, n);
    RateIs(MeanBits(s, n), window);
  }

  /** The sum of the squares of what the first n flows have received. */
  function SquaresReceived(trace: seq<Receipt>, n: nat): int {
    if n == 0 then 0 else SquaresReceived(trace, n - 1) + Received(trace, n - 1) * Received(trace, n - 1)
  }

  lemma {:induction false} SquaresAreReceived(bytes: seq<nat>, trace: seq<Receipt>)
    requires forall i :: 0 <= i < |bytes| ==> bytes[i] == Received(trace, i)
    ensures SumSquares(bytes) == SquaresReceived(trace, |bytes|)
    decreases |bytes|
  {
    if bytes != [] {
      var n := |bytes| - 1;
      SquaresAreReceived(bytes[..n], trace);
      assert bytes == bytes[..n] + [bytes[n]];
      TotalAppend(bytes[..n], bytes[n], Square());
    }
  }

  /** Jain's index of what n flows have received: the square of the sum, over n times the sum of the squares. */
  ghost predicate JainIndex(index: real, trace: seq<Receipt>, n: nat) {
    var s, q := ReceivedByAll(trace, n), SquaresReceived(trace, n);
    n * q > 0 && index == (s * s) as real / (n * q) as real
  }

  lemma IndexIsJain(bytes: seq<nat>, trace: seq<Receipt>, most: nat)
    requires CountsOf(bytes, trace) && Measured(|bytes|, trace, most)
    ensures WrappedIndex(bytes).Ratio? && JainIndex(WrappedIndex(bytes).value, trace, |bytes|)
  {
    SumOfReceipts(bytes, trace, most);
    CountersAreExact(bytes, trace, most);
    SquaresAreReceived(bytes, trace);
    NoWrapBelow(bytes, most);
    IndexWithoutWrap(bytes);
  }

  lemma SumOfReceipts(bytes: seq<nat>, trace: seq<Receipt>, most: nat)
    requires CountsOf(bytes, trace) && Measured(|bytes|, trace, most)
    ensures |bytes| > 0 && 0 < Sum(bytes) <= |bytes| * most && Sum(bytes) == ReceivedByAll(trace, |bytes|)
  {
    CountersAreExact(bytes, trace, most);
    SumIsReceived(bytes, trace);
    SumBelow(bytes, most);
    var i :| 0 <= i < |bytes| && Received(trace, i) > 0;
    SumIsPositive(bytes, i);
  }

  /** The counters of one group of flows. */
  class FlowGroup {
    const rxBytes: array<nat>

    constructor (flows: nat)
      ensures rxBytes.Length == flows && fresh(rxBytes)
    {
      rxBytes := new nat[flows];
    }

    /** Every counter holds the bytes received since the start of the window, to 64 bits. */
    ghost predicate Counts(trace: seq<Receipt>)
      reads rxBytes
    {
      CountsOf(rxBytes[..], trace)
    }

    method InitializeCounters()
      modifies rxBytes
      ensures Counts([])
    {
      for i := 0 to rxBytes.Length
        invariant forall j :: 0 <= j < i ==> rxBytes[j] == 0
      {
        rxBytes[i] := 0;
      }
    }

    method TraceSink(index: nat, size: nat, ghost trace: seq<Receipt>)
      requires index < rxBytes.Length && Counts(trace)
      modifies rxBytes
      ensures Counts(trace + [(index, size)])
      ensures rxBytes[index] == (old(rxBytes[index]) + size) % 0x1_0000_0000_0000_0000
      ensures forall i :: 0 <= i < rxBytes.Length && i != index ==> rxBytes[i] == old(rxBytes[i])
    {
      rxBytes[index] := Wrap(rxBytes[index] + size);
      forall i | 0 <= i < rxBytes.Length
        ensures Received(trace + [(index, size)], i) == Received(trace, i) + if i == index then size else 0
      {
        ReceivedNext(trace, index, size, i);
      }
      ReceivedIsNatural(trace, index);
      WrapAdd(Received(trace, index), size);
    }

    /** What PrintFairness computes for one group; the source has groups of 10 and of 20 flows. */
    method PrintFairness(window: real) returns (average: Quotient, fairness: Quotient)
      requires rxBytes.Length > 0
      ensures average == Throughput(rxBytes[..], window)
      ensures fairness == WrappedIndex(rxBytes[..])
    {
      var sum, sumSquares := 0, 0;
      ghost var bytes := rxBytes[..];
      for i := 0 to rxBytes.Length
        invariant Sum(bytes[..i]) >= 0 && sum == Wrap(Sum(bytes[..i]))
        invariant SumSquares(bytes[..i]) >= 0 && sumSquares == Wrap(SumSquares(bytes[..i]))
      {
        var x := rxBytes[i];
        NextFlow(bytes, i);
        sum := Wrap(sum + x);
        sumSquares := Wrap(sumSquares + Wrap(x * x));
      }
      assert bytes[..rxBytes.Length] == bytes;
      WrapProducts(Sum(bytes), |bytes|, SumSquares(bytes));
      average := Rate(Wrap(MeanBits(sum, rxBytes.Length)), window);
      fairness := Divide(Wrap(sum * sum), Wrap(rxBytes.Length * sumSquares));
    }

    /** What PrintFairness says of the receipts since the counters were initialized. */
    method MeasureFairness(window: real, ghost trace: seq<Receipt>, ghost most: nat)
        returns (average: Quotient, fairness: Quotient)
      requires Counts(trace) && Measured(rxBytes.Length, trace, most)
      ensures ReceivedByAll(trace, rxBytes.Length) > 0
      ensures average == Rate(MeanBits(ReceivedByAll(trace, rxBytes.Length), rxBytes.Length), window)
      ensures window > 0.0 ==> IsMeanRate(average, window, ReceivedByAll(trace, rxBytes.Length), rxBytes.Length)
      ensures fairness.Ratio? && JainIndex(fairness.value, trace, rxBytes.Length)
      ensures 1.0 / rxBytes.Length as real <= fairness.value <= 1.0
      ensures fairness.value == 1.0 <==>
              forall i, j :: 0 <= i < j < rxBytes.Length ==> Received(trace, i) == Received(trace, j)
    {
      average, fairness := PrintFairness(window);
      IndexOfReceipts(rxBytes[..], trace, most);
      IndexIsJain(rxBytes[..], trace, most);
      ThroughputOfReceipts(rxBytes[..], trace, most, window);
    }
  }
}
