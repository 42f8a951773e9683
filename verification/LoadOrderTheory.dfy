/** Which libraries sort_to_dependencies loads, in which round, and when it ends. */
module LoadOrderTheory {
  import opened Wrappers
  import opened Sequences
  import opened LoadOrder

  // ---------------------------------------------------------------- chains

  /** Each library of a chain depends on the next one. */
  ghost predicate Chain(deps: Dependencies, c: seq<Library>) {
    && c != []
    && forall i :: 0 <= i < |c| - 1 ==> c[i] in deps && c[i + 1] in deps[c[i]]
  }

  /** The libraries of a chain are counted; a chain of n + 1 libraries has n dependencies. */
  ghost predicate HasChain(deps: Dependencies, m: Library, n: nat) {
    exists c :: Chain(deps, c) && c[0] == m && |c| == n + 1
  }

  ghost predicate Closed(deps: Dependencies) {
    forall m, d :: m in deps && d in deps[m] ==> d in deps
  }

  ghost predicate Acyclic(deps: Dependencies) {
    forall c :: Chain(deps, c) && |c| >= 2 ==> c[0] != c[|c| - 1]
  }

  /** The library names are the keys of the dependency map, as a dictionary lists them. */
  ghost predicate KeysOf(deps: Dependencies, libraries: seq<Library>) {
    NoRepeats(libraries) && forall m :: m in libraries <==> m in deps
  }

  // ---------------------------------------------------------------- loaded by a round

  /** m is loaded in one of the first r rounds. */
  predicate Settled(deps: Dependencies, r: nat, m: Library) {
    r > 0 && m in deps && forall d :: d in deps[m] ==> Settled(deps, r - 1, d)
  }

  lemma {:induction false} SettledStays(deps: Dependencies, r: nat, m: Library)
    requires Settled(deps, r, m)
    ensures Settled(deps, r + 1, m)
  {
    forall d | d in deps[m] ensures Settled(deps, r, d) {
      SettledStays(deps, r - 1, d);
    }
  }

  lemma {:induction false} SettledLater(deps: Dependencies, r: nat, r': nat, m: Library)
    requires Settled(deps, r, m) && r <= r'
    ensures Settled(deps, r', m)
    decreases r'
  {
    if r < r' {
      SettledLater(deps, r, r' - 1, m);
      SettledStays(deps, r' - 1, m);
    }
  }

  /**
    The state before round r: current holds what has settled by then, and pending the
    other libraries.
   */
  ghost predicate StateAt(deps: Dependencies, libraries: seq<Library>, r: nat,
                          pending: seq<Library>, current: seq<Library>)
  {
    && NoRepeats(pending)
    && (forall m :: m in current <==> Settled(deps, r, m))
    && (forall m :: m in pending <==> m in libraries && !Settled(deps, r, m))
  }

  /** What a round loads is exactly what settles in it. */
  lemma LoadsWhatSettles(deps: Dependencies, libraries: seq<Library>, r: nat,
                         pending: seq<Library>, current: seq<Library>)
    requires KeysOf(deps, libraries) && StateAt(deps, libraries, r, pending, current)
    ensures forall m :: m in Loadable(deps, pending, current) <==>
                        Settled(deps, r + 1, m) && !Settled(deps, r, m)
  {
    LoadableFacts(deps, pending, current);
  }

  lemma {:induction false} CopiesLoaded(deps: Dependencies, pending: seq<Library>, current: seq<Library>, m: Library)
    ensures multiset(Loadable(deps, pending, current))[m]
            == if CanBeLoaded(deps, current, m) then multiset(pending)[m] else 0
  {
    if pending != [] {
      var front, last := pending[..|pending| - 1], pending[|pending| - 1];
      CopiesLoaded(deps, front, current, m);
      assert pending == front + [last];
    }
  }

  /** What a round loads and what it leaves pending was pending before. */
  lemma RoundDivides(deps: Dependencies, pending: seq<Library>, current: seq<Library>)
    ensures var now := Loadable(deps, pending, current);
            multiset(Without(pending, now)) + multiset(now) == multiset(pending)
  {
    var now := Loadable(deps, pending, current);
    forall m: Library
      ensures multiset(Without(pending, now))[m] + multiset(now)[m] == multiset(pending)[m]
    {
      CopiesLoaded(deps, pending, current, m);
      CopiesLeft(pending, now, m);
    }
  }

  /** One round leads from the state before it to the state before the next. */
  lemma StateAtNext(deps: Dependencies, libraries: seq<Library>, r: nat,
                    pending: seq<Library>, current: seq<Library>)
    requires KeysOf(deps, libraries) && StateAt(deps, libraries, r, pending, current)
    ensures var now := Loadable(deps, pending, current);
            StateAt(deps, libraries, r + 1, Without(pending, now), current + now)
  {
    var now := Loadable(deps, pending, current);
    LoadsWhatSettles(deps, libraries, r, pending, current);
    WithoutFacts(pending, now);
    forall m
      ensures m in current + now <==> Settled(deps, r + 1, m)
      ensures m in Without(pending, now) <==> m in libraries && !Settled(deps, r + 1, m)
    {
      if Settled(deps, r, m) { SettledStays(deps, r, m); }
    }
  }

  // ---------------------------------------------------------------- settled libraries and chains

  lemma ChainTail(deps: Dependencies, c: seq<Library>)
    requires Chain(deps, c) && |c| >= 2
    ensures Chain(deps, c[1..])
  {
  }

  lemma ChainCons(deps: Dependencies, m: Library, c: seq<Library>)
    requires Chain(deps, c) && m in deps && c[0] in deps[m]
    ensures Chain(deps, [m] + c)
  {
  }

  /** Every chain from m has at most r libraries, and ends in a known one. */
  ghost predicate ChainsEnd(deps: Dependencies, r: nat, m: Library) {
    forall c :: Chain(deps, c) && c[0] == m ==> |c| <= r && c[|c| - 1] in deps
  }

  /** m settles within r rounds exactly when its chains have at most r libraries, all known. */
  lemma {:induction false} SettledByChains(deps: Dependencies, r: nat, m: Library)
    ensures Settled(deps, r, m) <==> ChainsEnd(deps, r, m)
  {
    if Settled(deps, r, m) {
      forall c | Chain(deps, c) && c[0] == m ensures |c| <= r && c[|c| - 1] in deps {
        if |c| > 1 {
          assert c[0 + 1] in deps[c[0]];
          SettledByChains(deps, r - 1, c[1]);
          ChainTail(deps, c);
        }
      }
    }
    if ChainsEnd(deps, r, m) {
      assert Chain(deps, [m]);
      forall d | d in deps[m] ensures Settled(deps, r - 1, d) {
        forall c | Chain(deps, c) && c[0] == d ensures |c| <= r - 1 && c[|c| - 1] in deps {
          ChainCons(deps, m, c);
          assert ([m] + c)[|c|] == c[|c| - 1];
        }
        SettledByChains(deps, r - 1, d);
      }
    }
  }

  lemma ChainPrefix(deps: Dependencies, c: seq<Library>, n: nat)
    requires Chain(deps, c) && 0 < n <= |c|
    ensures Chain(deps, c[..n])
  {
  }

  // ---------------------------------------------------------------- the rounds

  /** Pending and current after r rounds. */
  function StateAfter(deps: Dependencies, libraries: seq<Library>, r: nat): Sorting {
    if r == 0 then Sorting(libraries, []) else Round(deps, StateAfter(deps, libraries, r - 1))
  }

  /** What round r loads. */
  function Step(deps: Dependencies, libraries: seq<Library>, r: nat): seq<Library> {
    var Sorting(pending, current) := StateAfter(deps, libraries, r);
    Loadable(deps, pending, current)
  }

  lemma {:induction false} StateAfterRounds(deps: Dependencies, libraries: seq<Library>, r: nat)
    requires KeysOf(deps, libraries)
    ensures var Sorting(pending, current) := StateAfter(deps, libraries, r);
            StateAt(deps, libraries, r, pending, current)
  {
    if r > 0 {
      StateAfterRounds(deps, libraries, r - 1);
      var Sorting(pending, current) := StateAfter(deps, libraries, r - 1);
      StateAtNext(deps, libraries, r - 1, pending, current);
    }
  }

  ghost predicate AllSettled(deps: Dependencies, libraries: seq<Library>, r: nat) {
    forall m :: m in libraries ==> Settled(deps, r, m)
  }

  lemma NothingPending(deps: Dependencies, libraries: seq<Library>, r: nat)
    requires KeysOf(deps, libraries)
    ensures Done(deps, libraries, r) <==> AllSettled(deps, libraries, r)
  {
    StateAfterRounds(deps, libraries, r);
    var pending := StateAfter(deps, libraries, r).pending;
    if pending != [] {
      assert pending[0] in pending;
    }
  }

  lemma AllSettledLater(deps: Dependencies, libraries: seq<Library>, r: nat, r': nat)
    requires AllSettled(deps, libraries, r) && r <= r'
    ensures AllSettled(deps, libraries, r')
  {
    forall m | m in libraries ensures Settled(deps, r', m) {
      SettledLater(deps, r, r', m);
    }
  }

  lemma StepLoads(deps: Dependencies, libraries: seq<Library>, r: nat, m: Library)
    requires KeysOf(deps, libraries)
    ensures m in Step(deps, libraries, r) <==> Settled(deps, r + 1, m) && !Settled(deps, r, m)
  {
    StateAfterRounds(deps, libraries, r);
    var Sorting(pending, current) := StateAfter(deps, libraries, r);
    LoadsWhatSettles(deps, libraries, r, pending, current);
  }

  predicate Done(deps: Dependencies, libraries: seq<Library>, r: nat) {
    StateAfter(deps, libraries, r).pending == []
  }

  /** The rounds from round r on. */
  function From(deps: Dependencies, libraries: seq<Library>, r: nat, limit: nat): Option<seq<seq<Library>>> {
    Rounds(deps, StateAfter(deps, libraries, r), limit)
  }

  lemma FromUnfold(deps: Dependencies, libraries: seq<Library>, r: nat, limit: nat)
    ensures From(deps, libraries, r, limit) ==
            if limit == 0 then None
            else if Done(deps, libraries, r) then Some([])
            else Then(Step(deps, libraries, r), From(deps, libraries, r + 1, limit - 1))
  {
    assert StateAfter(deps, libraries, r + 1) == Round(deps, StateAfter(deps, libraries, r));
  }

  /** From round r on, `limit` nested calls are enough when all libraries settle in time. */
  lemma {:induction false} RoundsEnd(deps: Dependencies, libraries: seq<Library>, r: nat, limit: nat)
    requires KeysOf(deps, libraries)
    ensures From(deps, libraries, r, limit).Some? <==> limit > 0 && AllSettled(deps, libraries, r + limit - 1)
    decreases limit
  {
    FromUnfold(deps, libraries, r, limit);
    if limit > 0 {
      NothingPending(deps, libraries, r);
      if Done(deps, libraries, r) {
        AllSettledLater(deps, libraries, r, r + limit - 1);
      } else {
        RoundsEnd(deps, libraries, r + 1, limit - 1);
      }
    }
  }

  /** The rounds that come from round r on. */
  lemma {:induction false} RoundsAre(deps: Dependencies, libraries: seq<Library>, r: nat, limit: nat, k: nat)
    requires From(deps, libraries, r, limit).Some? && k < |From(deps, libraries, r, limit).value|
    ensures From(deps, libraries, r, limit).value[k] == Step(deps, libraries, r + k)
    decreases k
  {
    FromUnfold(deps, libraries, r, limit);
    if k > 0 {
      RoundsAre(deps, libraries, r + 1, limit - 1, k - 1);
    }
  }

  /** They go on until nothing is pending. */
  lemma {:induction false} RoundsExhaust(deps: Dependencies, libraries: seq<Library>, r: nat, limit: nat)
    requires From(deps, libraries, r, limit).Some?
    ensures Done(deps, libraries, r + |From(deps, libraries, r, limit).value|)
    decreases limit
  {
    FromUnfold(deps, libraries, r, limit);
    if !Done(deps, libraries, r) {
      RoundsExhaust(deps, libraries, r + 1, limit - 1);
    }
  }

  // ---------------------------------------------------------------- the main results

  /** The steps of dependency_order on all libraries, None for a RecursionError. */
  function Result(deps: Dependencies, libraries: seq<Library>, limit: nat): Option<seq<seq<Library>>> {
    From(deps, libraries, 0, limit)
  }

  /** A round that loads nothing leaves everything as it is. */
  lemma EmptyRound(deps: Dependencies, s: Sorting)
    requires Loadable(deps, s.pending, s.current) == []
    ensures Round(deps, s) == s
  {
    WithoutNothing(s.pending);
    assert s.current + [] == s.current;
  }

  /** After a round that loads nothing no later round loads anything. */
  lemma {:induction false} NothingMoreLoads(deps: Dependencies, libraries: seq<Library>, r: nat, r': nat)
    requires Step(deps, libraries, r) == [] && r <= r'
    ensures StateAfter(deps, libraries, r') == StateAfter(deps, libraries, r)
    decreases r'
  {
    if r < r' {
      NothingMoreLoads(deps, libraries, r, r' - 1);
      EmptyRound(deps, StateAfter(deps, libraries, r));
    }
  }

  lemma {:induction false} PendingBefore(deps: Dependencies, libraries: seq<Library>, r: nat, limit: nat, k: nat)
    requires From(deps, libraries, r, limit).Some? && k < |From(deps, libraries, r, limit).value|
    ensures !Done(deps, libraries, r + k)
    decreases k
  {
    FromUnfold(deps, libraries, r, limit);
    if k > 0 {
      PendingBefore(deps, libraries, r + 1, limit - 1, k - 1);
    }
  }

  /** Every round of a recursion that ends loads at least one library. */
  lemma EachStepLoads(deps: Dependencies, libraries: seq<Library>, limit: nat, k: nat)
    requires Result(deps, libraries, limit).Some? && k < |Result(deps, libraries, limit).value|
    ensures Result(deps, libraries, limit).value[k] != []
  {
    RoundsAre(deps, libraries, 0, limit, k);
    PendingBefore(deps, libraries, 0, limit, k);
    if Step(deps, libraries, k) == [] {
      RoundsExhaust(deps, libraries, 0, limit);
      NothingMoreLoads(deps, libraries, k, |Result(deps, libraries, limit).value|);
    }
  }

  /** The elements of s stand in t in the same order. */
  ghost predicate InOrderOf(s: seq<Library>, t: seq<Library>) {
    && (forall i :: 0 <= i < |s| ==> s[i] in t)
    && forall i, j :: 0 <= i < j < |s| ==> ComesBefore(t, s[i], s[j])
  }

  predicate ComesBefore(t: seq<Library>, a: Library, b: Library) {
    exists p, q :: 0 <= p < q < |t| && t[p] == a && t[q] == b
  }

  lemma InOrderTransitive(s: seq<Library>, t: seq<Library>, u: seq<Library>)
    requires InOrderOf(s, t) && InOrderOf(t, u)
    ensures InOrderOf(s, u)
  {
    forall i, j | 0 <= i < j < |s| ensures ComesBefore(u, s[i], s[j]) {
      assert ComesBefore(t, s[i], s[j]);
      var p, q :| 0 <= p < q < |t| && t[p] == s[i] && t[q] == s[j];
      assert ComesBefore(u, t[p], t[q]);
    }
  }

  lemma {:induction false} LoadableInOrder(deps: Dependencies, pending: seq<Library>, current: seq<Library>)
    ensures InOrderOf(Loadable(deps, pending, current), pending)
  {
    if pending != [] {
      var n := |pending| - 1;
      var rest := Loadable(deps, pending[..n], current);
      LoadableInOrder(deps, pending[..n], current);
      forall i, j | 0 <= i < j < |rest| ensures ComesBefore(pending, rest[i], rest[j]) {
        assert ComesBefore(pending[..n], rest[i], rest[j]);
        var p, q :| 0 <= p < q < n && pending[..n][p] == rest[i] && pending[..n][q] == rest[j];
        assert pending[p] == rest[i] && pending[q] == rest[j];
      }
      forall i | 0 <= i < |rest| ensures ComesBefore(pending, rest[i], pending[n]) {
        assert rest[i] in pending[..n];
        var p :| 0 <= p < n && pending[..n][p] == rest[i];
        assert pending[p] == rest[i];
      }
    }
  }

  lemma {:induction false} WithoutInOrder(s: seq<Library>, ms: seq<Library>)
    ensures InOrderOf(Without(s, ms), s)
  {
    if s != [] {
      var rest := Without(s[1..], ms);
      WithoutInOrder(s[1..], ms);
      forall i, j | 0 <= i < j < |rest| ensures ComesBefore(s, rest[i], rest[j]) {
        assert ComesBefore(s[1..], rest[i], rest[j]);
        var p, q :| 0 <= p < q < |s| - 1 && s[1..][p] == rest[i] && s[1..][q] == rest[j];
        assert s[p + 1] == rest[i] && s[q + 1] == rest[j];
      }
      forall i | 0 <= i < |rest| ensures ComesBefore(s, s[0], rest[i]) {
        var p :| 0 <= p < |s| - 1 && s[1..][p] == rest[i];
        assert s[p + 1] == rest[i];
      }
    }
  }

  lemma RoundInOrder(deps: Dependencies, s: Sorting)
    ensures InOrderOf(Round(deps, s).pending, s.pending)
  {
    WithoutInOrder(s.pending, Loadable(deps, s.pending, s.current));
  }

  lemma {:induction false} PendingInOrder(deps: Dependencies, libraries: seq<Library>, r: nat)
    ensures InOrderOf(StateAfter(deps, libraries, r).pending, libraries)
    decreases r
  {
    if r > 0 {
      var s := StateAfter(deps, libraries, r - 1);
      PendingInOrder(deps, libraries, r - 1);
      RoundInOrder(deps, s);
      InOrderTransitive(Round(deps, s).pending, s.pending, libraries);
    }
  }

  /** Within a step the libraries keep the order in which they are given. */
  lemma StepInOrder(deps: Dependencies, libraries: seq<Library>, limit: nat, k: nat)
    requires Result(deps, libraries, limit).Some? && k < |Result(deps, libraries, limit).value|
    ensures InOrderOf(Result(deps, libraries, limit).value[k], libraries)
  {
    RoundsAre(deps, libraries, 0, limit, k);
    var s := StateAfter(deps, libraries, k);
    LoadableInOrder(deps, s.pending, s.current);
    PendingInOrder(deps, libraries, k);
    InOrderTransitive(Step(deps, libraries, k), s.pending, libraries);
  }

  /**
    Step k loads exactly the libraries whose longest dependency chain has k
    dependencies: every library comes in the earliest round that it can.
   */
  lemma ExactLayers(deps: Dependencies, libraries: seq<Library>, limit: nat, k: nat, m: Library)
    requires KeysOf(deps, libraries) && Result(deps, libraries, limit).Some?
    requires k < |Result(deps, libraries, limit).value|
    ensures m in Result(deps, libraries, limit).value[k] <==>
            m in libraries && HasChain(deps, m, k) && !HasChain(deps, m, k + 1)
  {
    LayerOf(deps, libraries, limit, k, m);
    if m in libraries {
      var n := ChainsOf(deps, libraries, limit, m);
      LongestChain(deps, n, k, m);
      LongestChain(deps, n, k + 1, m);
    }
  }

  lemma LayerOf(deps: Dependencies, libraries: seq<Library>, limit: nat, k: nat, m: Library)
    requires KeysOf(deps, libraries) && Result(deps, libraries, limit).Some?
    requires k < |Result(deps, libraries, limit).value|
    ensures m in Result(deps, libraries, limit).value[k] <==> Settled(deps, k + 1, m) && !Settled(deps, k, m)
  {
    RoundsAre(deps, libraries, 0, limit, k);
    StepLoads(deps, libraries, k, m);
  }

  lemma ChainsOf(deps: Dependencies, libraries: seq<Library>, limit: nat, m: Library) returns (n: nat)
    requires KeysOf(deps, libraries) && Result(deps, libraries, limit).Some? && m in libraries
    ensures ChainsEnd(deps, n, m)
  {
    RoundsExhaust(deps, libraries, 0, limit);
    n := |Result(deps, libraries, limit).value|;
    NothingPending(deps, libraries, n);
    SettledByChains(deps, n, m);
  }

  /** When the chains from m all end, m is settled after n rounds unless it has a longer chain. */
  lemma LongestChain(deps: Dependencies, r: nat, n: nat, m: Library)
    requires ChainsEnd(deps, r, m)
    ensures Settled(deps, n, m) <==> !HasChain(deps, m, n)
  {
    SettledByChains(deps, n, m);
    if c :| Chain(deps, c) && c[0] == m && |c| > n {
      ChainPrefix(deps, c, n + 1);
      assert c[..n + 1][0] == m && |c[..n + 1]| == n + 1;
    }
  }

  ghost predicate ChainsFit(deps: Dependencies, libraries: seq<Library>, limit: nat) {
    forall c :: Chain(deps, c) && c[0] in libraries ==> |c| < limit
  }

  lemma SettledFits(deps: Dependencies, libraries: seq<Library>, r: nat)
    requires KeysOf(deps, libraries) && AllSettled(deps, libraries, r)
    ensures Closed(deps) && ChainsFit(deps, libraries, r + 1)
  {
    forall m, d | m in deps && d in deps[m] ensures d in deps {
      SettledByChains(deps, r, m);
      assert Chain(deps, [m, d]);
      assert [m, d][1] == d;
    }
    forall c | Chain(deps, c) && c[0] in libraries ensures |c| < r + 1 {
      SettledByChains(deps, r, c[0]);
    }
  }

  lemma FittingSettles(deps: Dependencies, libraries: seq<Library>, r: nat)
    requires KeysOf(deps, libraries) && Closed(deps) && ChainsFit(deps, libraries, r + 1)
    ensures AllSettled(deps, libraries, r)
  {
    forall m | m in libraries ensures Settled(deps, r, m) {
      forall c | Chain(deps, c) && c[0] == m ensures |c| <= r && c[|c| - 1] in deps {
        ChainStaysKnown(deps, c);
      }
      SettledByChains(deps, r, m);
    }
  }

  /** It ends exactly when no library is missing and each chain fits into the recursion limit. */
  lemma EndsIffChainsFit(deps: Dependencies, libraries: seq<Library>, limit: nat)
    requires KeysOf(deps, libraries)
    ensures Result(deps, libraries, limit).Some? <==>
            limit > 0 && Closed(deps) && ChainsFit(deps, libraries, limit)
  {
    RoundsEnd(deps, libraries, 0, limit);
    if Result(deps, libraries, limit).Some? {
      SettledFits(deps, libraries, limit - 1);
    } else if limit > 0 && Closed(deps) && ChainsFit(deps, libraries, limit) {
      FittingSettles(deps, libraries, limit - 1);
    }
  }

  lemma ChainStaysKnown(deps: Dependencies, c: seq<Library>)
    requires Chain(deps, c) && Closed(deps) && c[0] in deps
    ensures forall i :: 0 <= i < |c| ==> c[i] in deps
  {
    if |c| > 1 {
      forall i | 0 < i < |c| ensures c[i] in deps {
        assert c[i - 1 + 1] in deps[c[i - 1]];
      }
    }
  }

  // ---------------------------------------------------------------- cycles

  lemma {:induction false} PigeonHole(c: seq<Library>, s: set<Library>)
    requires forall i :: 0 <= i < |c| ==> c[i] in s
    requires |c| > |s|
    ensures exists i, j :: 0 <= i < j < |c| && c[i] == c[j]
    decreases |c|
  {
    var last := |c| - 1;
    if i :| 0 <= i < last && c[i] == c[last] {
    } else {
      var front := c[..last];
      PigeonHole(front, s - {c[last]});
      var i, j :| 0 <= i < j < |front| && front[i] == front[j];
      assert c[i] == c[j];
    }
  }

  lemma {:induction false} SizeOfKeys(libraries: seq<Library>, s: set<Library>)
    requires NoRepeats(libraries) && forall m :: m in s <==> m in libraries
    ensures |s| == |libraries|
    decreases |libraries|
  {
    if libraries == [] {
      assert s == {};
    } else {
      NoRepeatsTail(libraries);
      assert libraries == [libraries[0]] + libraries[1..];
      SizeOfKeys(libraries[1..], s - {libraries[0]});
    }
  }

  lemma ChainSlice(deps: Dependencies, c: seq<Library>, i: nat, j: nat)
    requires Chain(deps, c) && i < j < |c|
    ensures Chain(deps, c[i..j + 1])
  {
    var s := c[i..j + 1];
    forall k | 0 <= k < |s| - 1 ensures s[k] in deps && s[k + 1] in deps[s[k]] {
      assert s[k] == c[i + k] && s[k + 1] == c[i + k + 1];
    }
  }

  /** Going round a cycle again and again gives chains of any length. */
  lemma {:induction false} Pump(deps: Dependencies, c: seq<Library>, n: nat) returns (d: seq<Library>)
    requires Chain(deps, c) && |c| >= 2 && c[0] == c[|c| - 1]
    ensures Chain(deps, d) && d[0] == c[0] && |d| > n
  {
    if n == 0 {
      return c;
    }
    var e := Pump(deps, c, n - 1);
    d := c[..|c| - 1] + e;
    forall k | 0 <= k < |d| - 1 ensures d[k] in deps && d[k + 1] in deps[d[k]] {
      if k < |c| - 1 {
        assert d[k] == c[k] && d[k + 1] == c[k + 1];
        assert c[k] in deps && c[k + 1] in deps[c[k]];
      } else {
        assert d[k] == e[k - (|c| - 1)] && d[k + 1] == e[k - (|c| - 1) + 1];
      }
    }
  }

  lemma ChainsAreShort(deps: Dependencies, libraries: seq<Library>, c: seq<Library>)
    requires KeysOf(deps, libraries) && Closed(deps) && Acyclic(deps)
    requires Chain(deps, c) && c[0] in deps
    ensures |c| <= |libraries|
  {
    ChainStaysKnown(deps, c);
    SizeOfKeys(libraries, deps.Keys);
    if |c| > |libraries| {
      PigeonHole(c, deps.Keys);
      var i, j :| 0 <= i < j < |c| && c[i] == c[j];
      RepeatIsCycle(deps, c, i, j);
    }
  }

  lemma RepeatIsCycle(deps: Dependencies, c: seq<Library>, i: nat, j: nat)
    requires Chain(deps, c) && i < j < |c| && c[i] == c[j]
    ensures !Acyclic(deps)
  {
    ChainSlice(deps, c, i, j);
    var cycle := c[i..j + 1];
    assert cycle[0] == cycle[|cycle| - 1];
  }

  lemma CyclesNeverEnd(deps: Dependencies, libraries: seq<Library>, c: seq<Library>, limit: nat)
    requires KeysOf(deps, libraries)
    requires Chain(deps, c) && |c| >= 2 && c[0] == c[|c| - 1]
    ensures Result(deps, libraries, limit).None?
  {
    EndsIffChainsFit(deps, libraries, limit);
    var d := Pump(deps, c, limit);
    assert c[0] in deps;
  }

  /**
    On closed acyclic dependencies at most one round per library is needed, and on any
    others no recursion limit is enough.
   */
  lemma EndsIffAcyclic(deps: Dependencies, libraries: seq<Library>, limit: nat)
    requires KeysOf(deps, libraries)
    ensures Closed(deps) && Acyclic(deps) && limit > |libraries| ==> Result(deps, libraries, limit).Some?
    ensures Result(deps, libraries, limit).Some? ==> Closed(deps) && Acyclic(deps)
  {
    EndsIffChainsFit(deps, libraries, limit);
    if Closed(deps) && Acyclic(deps) && limit > |libraries| {
      forall c | Chain(deps, c) && c[0] in libraries ensures |c| < limit {
        ChainsAreShort(deps, libraries, c);
      }
    }
    forall c | Chain(deps, c) && |c| >= 2 && c[0] == c[|c| - 1]
      ensures Result(deps, libraries, limit).None?
    {
      CyclesNeverEnd(deps, libraries, c, limit);
    }
  }

  ghost predicate Waiting(deps: Dependencies, waiting: set<Library>) {
    forall m :: m in waiting ==> m in deps && exists d :: d in deps[m] && (d in waiting || d !in deps)
  }

  /**
    Libraries that all wait for one another or for a missing library wait for ever:
    none of them is ever loaded, and the recursion does not end.
   */
  lemma {:induction false} WaitingForEver(deps: Dependencies, waiting: set<Library>, r: nat)
    requires Waiting(deps, waiting)
    ensures forall m :: m in waiting ==> !Settled(deps, r, m)
    decreases r
  {
    if r > 0 {
      WaitingForEver(deps, waiting, r - 1);
      forall m | m in waiting ensures !Settled(deps, r, m) {
        var d :| d in deps[m] && (d in waiting || d !in deps);
        assert !Settled(deps, r - 1, d);
      }
    }
  }

  lemma WaitingNeverSettle(deps: Dependencies, libraries: seq<Library>, waiting: set<Library>, m: Library, r: nat)
    requires Waiting(deps, waiting) && m in waiting && m in libraries
    ensures !AllSettled(deps, libraries, r)
  {
    WaitingForEver(deps, waiting, r);
  }

  lemma WaitingNeverEnds(deps: Dependencies, libraries: seq<Library>, waiting: set<Library>, limit: nat)
    requires KeysOf(deps, libraries) && waiting != {} && Waiting(deps, waiting)
    ensures Result(deps, libraries, limit).None?
  {
    RoundsEnd(deps, libraries, 0, limit);
    var m :| m in waiting;
    if limit > 0 {
      WaitingNeverSettle(deps, libraries, waiting, m, limit - 1);
    }
  }

  ghost predicate EverSettled(deps: Dependencies, m: Library) {
    exists r: nat :: Settled(deps, r, m)
  }

  ghost function NeverSettled(deps: Dependencies): set<Library> {
    set m | m in deps && !EverSettled(deps, m)
  }

  /** Finitely many libraries that settle are all settled after some round. */
  lemma {:induction false} SettleTogether(deps: Dependencies, ds: seq<Library>) returns (r: nat)
    requires forall d :: d in ds ==> EverSettled(deps, d)
    ensures forall d :: d in ds ==> Settled(deps, r, d)
    decreases |ds|
  {
    if ds == [] {
      return 0;
    }
    var first := ds[0];
    assert EverSettled(deps, first);
    var n: nat :| Settled(deps, n, first);
    var rest := SettleTogether(deps, ds[1..]);
    r := if n < rest then rest else n;
    SettledLater(deps, n, r, first);
    forall d | d in ds ensures Settled(deps, r, d) {
      if d != first {
        assert d in ds[1..];
        SettledLater(deps, rest, r, d);
      }
    }
  }

  /** The libraries that no round loads wait for one another or for a missing one. */
  lemma NeverSettledWaits(deps: Dependencies)
    ensures Waiting(deps, NeverSettled(deps))
  {
    var stuck := NeverSettled(deps);
    forall m | m in stuck ensures exists d :: d in deps[m] && (d in stuck || d !in deps) {
      if forall d :: d in deps[m] ==> EverSettled(deps, d) {
        var r := SettleTogether(deps, deps[m]);
        assert Settled(deps, r + 1, m);
        assert false;
      }
      var d :| d in deps[m] && !EverSettled(deps, d);
      assert d in stuck || d !in deps;
    }
  }

  /** A library is never loaded exactly when it belongs to a set of libraries that wait like this. */
  lemma NeverLoadedIff(deps: Dependencies, m: Library)
    requires m in deps
    ensures !EverSettled(deps, m) <==> exists waiting :: Waiting(deps, waiting) && m in waiting
  {
    if !EverSettled(deps, m) {
      NeverSettledWaits(deps);
      assert m in NeverSettled(deps);
    }
    if waiting :| Waiting(deps, waiting) && m in waiting {
      forall r: nat ensures !Settled(deps, r, m) {
        WaitingForEver(deps, waiting, r);
      }
    }
  }

  /** Some recursion limit is enough exactly when no libraries wait like this. */
  lemma EndsIffNoneWait(deps: Dependencies, libraries: seq<Library>)
    requires KeysOf(deps, libraries)
    ensures (exists limit :: Result(deps, libraries, limit).Some?) <==>
            forall waiting :: Waiting(deps, waiting) ==> waiting == {}
  {
    if limit :| Result(deps, libraries, limit).Some? {
      forall waiting | Waiting(deps, waiting) ensures waiting == {} {
        if waiting != {} {
          WaitingNeverEnds(deps, libraries, waiting, limit);
        }
      }
    }
    if forall waiting :: Waiting(deps, waiting) ==> waiting == {} {
      NeverSettledWaits(deps);
      forall m | m in libraries ensures EverSettled(deps, m) {
        assert m !in NeverSettled(deps);
      }
      var r := SettleTogether(deps, libraries);
      RoundsEnd(deps, libraries, 0, r + 1);
      assert Result(deps, libraries, r + 1).Some?;
    }
  }

  // ---------------------------------------------------------------- the load order

  /** Every library of the order comes after all its dependencies. */
  ghost predicate Ordered(deps: Dependencies, order: seq<Library>, before: seq<Library>) {
    forall i :: 0 <= i < |order| ==>
      order[i] in deps && forall d :: d in deps[order[i]] ==> d in before + order[..i]
  }

  lemma OrderedConcat(deps: Dependencies, now: seq<Library>, later: seq<Library>, before: seq<Library>)
    requires Ordered(deps, now, before) && Ordered(deps, later, before + now)
    ensures Ordered(deps, now + later, before)
  {
    var order := now + later;
    forall i | 0 <= i < |order|
      ensures order[i] in deps && forall d :: d in deps[order[i]] ==> d in before + order[..i]
    {
      if i < |now| {
        assert order[..i] == now[..i];
      } else {
        assert order[i] == later[i - |now|];
        assert (before + now) + later[..i - |now|] == before + order[..i];
      }
    }
  }

  lemma LoadableIsOrdered(deps: Dependencies, pending: seq<Library>, current: seq<Library>)
    requires NoRepeats(pending)
    ensures Ordered(deps, Loadable(deps, pending, current), current)
  {
    LoadableFacts(deps, pending, current);
    var now := Loadable(deps, pending, current);
    forall i | 0 <= i < |now| ensures CanBeLoaded(deps, current, now[i]) {
      assert now[i] in now;
    }
  }

  lemma {:induction false} RoundsOrdered(deps: Dependencies, s: Sorting, limit: nat)
    requires NoRepeats(s.pending) && Rounds(deps, s, limit).Some?
    ensures Ordered(deps, Flatten(Rounds(deps, s, limit).value), s.current)
    decreases limit
  {
    if s.pending != [] {
      var now := Loadable(deps, s.pending, s.current);
      WithoutFacts(s.pending, now);
      LoadableIsOrdered(deps, s.pending, s.current);
      RoundsOrdered(deps, Round(deps, s), limit - 1);
      var later := Rounds(deps, Round(deps, s), limit - 1).value;
      OrderedConcat(deps, now, Flatten(later), s.current);
      assert Flatten([now] + later) == now + Flatten(later);
    }
  }

  lemma {:induction false} RoundsPermute(deps: Dependencies, s: Sorting, limit: nat)
    requires Rounds(deps, s, limit).Some?
    ensures multiset(Flatten(Rounds(deps, s, limit).value)) == multiset(s.pending)
    decreases limit
  {
    if s.pending != [] {
      var now := Loadable(deps, s.pending, s.current);
      RoundDivides(deps, s.pending, s.current);
      RoundsPermute(deps, Round(deps, s), limit - 1);
      FirstStep(now, Rounds(deps, Round(deps, s), limit - 1).value);
    }
  }

  lemma FirstStep(now: seq<Library>, later: seq<seq<Library>>)
    ensures multiset(Flatten([now] + later)) == multiset(now) + multiset(Flatten(later))
  {
    assert Flatten([now] + later) == now + Flatten(later);
  }

  /** Every library is pending or loaded, and as often as it was given. */
  ghost predicate Divided(libraries: seq<Library>, s: Sorting) {
    multiset(s.pending) + multiset(s.current) == multiset(libraries)
  }

  lemma NothingLoadedYet(libraries: seq<Library>)
    ensures Divided(libraries, Sorting(libraries, []))
  {
  }

  /** One round moves libraries from pending to current and loses none. */
  lemma RoundConserves(deps: Dependencies, libraries: seq<Library>, s: Sorting)
    requires Divided(libraries, s)
    ensures Divided(libraries, Round(deps, s))
  {
    var now := Loadable(deps, s.pending, s.current);
    RoundDivides(deps, s.pending, s.current);
    assert multiset(s.current + now) == multiset(s.current) + multiset(now);
  }

  /** Throughout, pending and current divide the libraries between them. */
  lemma {:induction false} DividedThroughout(deps: Dependencies, libraries: seq<Library>, r: nat)
    ensures Divided(libraries, StateAfter(deps, libraries, r))
    decreases r
  {
    if r == 0 {
      NothingLoadedYet(libraries);
    } else {
      DividedThroughout(deps, libraries, r - 1);
      RoundConserves(deps, libraries, StateAfter(deps, libraries, r - 1));
    }
  }

  /** Throughout, current is closed under dependencies. */
  lemma ClosedThroughout(deps: Dependencies, libraries: seq<Library>, r: nat)
    requires KeysOf(deps, libraries)
    ensures var current := StateAfter(deps, libraries, r).current;
            forall m :: m in current ==> m in deps && forall d :: d in deps[m] ==> d in current
  {
    StateAfterRounds(deps, libraries, r);
    var current := StateAfter(deps, libraries, r).current;
    forall m | m in current ensures m in deps && forall d :: d in deps[m] ==> d in current {
      forall d | d in deps[m] ensures d in current {
        SettledStays(deps, r - 1, d);
      }
    }
  }

  /** The load order is a permutation of the libraries, each after its dependencies. */
  lemma LoadOrderIsSorted(deps: Dependencies, libraries: seq<Library>, limit: nat)
    requires KeysOf(deps, libraries) && Result(deps, libraries, limit).Some?
    ensures var order := Flatten(Result(deps, libraries, limit).value);
            && multiset(order) == multiset(libraries)
            && (forall i :: 0 <= i < |order| ==>
                  order[i] in deps && forall d :: d in deps[order[i]] ==> d in order[..i])
  {
    RoundsOrdered(deps, Sorting(libraries, []), limit);
    RoundsPermute(deps, Sorting(libraries, []), limit);
    var order := Flatten(Result(deps, libraries, limit).value);
    forall i | 0 <= i < |order| ensures order[i] in deps && forall d :: d in deps[order[i]] ==> d in order[..i] {
      assert [] + order[..i] == order[..i];
    }
  }

  /**
    Sorting as a whole: there is a load order exactly when no library is missing and
    every chain fits, and then each library is in it once, after all its dependencies.
   */
  method SortToDependencies(deps: Dependencies, libraries: seq<Library>, limit: nat)
      returns (order: Option<seq<Library>>)
    requires KeysOf(deps, libraries)
    ensures order.Some? <==> limit > 0 && Closed(deps) && ChainsFit(deps, libraries, limit)
    ensures order.Some? ==>
              && multiset(order.value) == multiset(libraries)
              && forall i :: 0 <= i < |order.value| ==>
                   && order.value[i] in deps
                   && forall d :: d in deps[order.value[i]] ==> d in order.value[..i]
  {
    var sorter := new DependencySorter(deps, libraries);
    order := sorter.SortToDependencies(limit);
    EndsIffChainsFit(deps, libraries, limit);
    if order.Some? {
      LoadOrderIsSorted(deps, libraries, limit);
    }
  }
}
