/**
  sort_to_dependencies of bindings/python/ns__init__.py: libraries are loaded in
  rounds, each round taking every pending library whose dependencies are loaded.
  The source recurses once per round and has no other way to stop on a dependency
  that never comes than the recursion limit of the interpreter.
 */
module LoadOrder {
  import opened Wrappers
  import opened Sequences

  type Library = string
  type Dependencies = map<Library, seq<Library>>

  predicate CanBeLoaded(deps: Dependencies, current: seq<Library>, m: Library) {
    m in deps && forall d :: d in deps[m] ==> d in current
  }

  /** The pending libraries that can be loaded, in their order. */
  function Loadable(deps: Dependencies, pending: seq<Library>, current: seq<Library>): seq<Library> {
    if pending == [] then [] else
    var last := pending[|pending| - 1];
    Loadable(deps, pending[..|pending| - 1], current) + if CanBeLoaded(deps, current, last) then [last] else []
  }

  /** The elements of s that are not in ms, in their order. */
  function Without(s: seq<Library>, ms: seq<Library>): seq<Library> {
    if s == [] then []
    else if s[0] in ms then Without(s[1..], ms)
    else [s[0]] + Without(s[1..], ms)
  }

  /** list.remove: s without the first occurrence of m. */
  function RemoveFirst(s: seq<Library>, m: Library): seq<Library> {
    if s == [] then [] else if s[0] == m then s[1..] else [s[0]] + RemoveFirst(s[1..], m)
  }

  datatype Sorting = Sorting(pending: seq<Library>, current: seq<Library>)

  /** What one round makes of pending and current. */
  function Round(deps: Dependencies, s: Sorting): Sorting {
    var now := Loadable(deps, s.pending, s.current);
    Sorting(Without(s.pending, now), s.current + now)
  }

  /** The rounds up to the end, None when they need more than `limit` nested calls. */
  function Rounds(deps: Dependencies, s: Sorting, limit: nat): Option<seq<seq<Library>>>
    decreases limit
  {
    if limit == 0 then None
    else if s.pending == [] then Some([])
    else Then(Loadable(deps, s.pending, s.current), Rounds(deps, Round(deps, s), limit - 1))
  }

  function Then(now: seq<Library>, later: Option<seq<seq<Library>>>): Option<seq<seq<Library>>> {
    match later
    case None => None
    case Some(steps) => Some([now] + steps)
  }

  function Flatten(steps: seq<seq<Library>>): seq<Library> {
    if steps == [] then [] else steps[0] + Flatten(steps[1..])
  }

  // ---------------------------------------------------------------- the sorter

  class DependencySorter {
    const deps: Dependencies
    var pending: seq<Library>
    var current: seq<Library>
    var steps: seq<seq<Library>>   // steps[k] is what step number k has loaded

    /** Starts with every library pending and nothing loaded. */
    constructor (deps: Dependencies, libraries: seq<Library>)
      ensures this.deps == deps && pending == libraries && current == [] && steps == []
    {
      this.deps := deps;
      pending, current, steps := libraries, [], [];
    }

    method ModulesThatCanBeLoaded() returns (modules: seq<Library>)
      requires forall m :: m in pending ==> m in deps
      ensures modules == Loadable(deps, pending, current)
    {
      modules := [];
      for i := 0 to |pending|
        invariant modules == Loadable(deps, pending[..i], current)
      {
        var m := pending[i];
        var canBeLoaded := true;
        for j := 0 to |deps[m]|
          invariant canBeLoaded
          invariant forall d :: d in deps[m][..j] ==> d in current
        {
          if deps[m][j] !in current {
            canBeLoaded := false;
            break;
          }
        }
        assert deps[m][..|deps[m]|] == deps[m];
        assert pending[..i + 1][..i] == pending[..i];
        if !canBeLoaded {
          continue;
        }
        modules := modules + [m];
      }
      assert pending[..|pending|] == pending;
    }

    method RemovePending(m: Library)
      requires m in pending
      modifies this`pending
      ensures pending == RemoveFirst(old(pending), m)
    {
      var i := 0;
      while pending[i] != m
        invariant i < |pending| && m in pending[i..] && m !in pending[..i]
        decreases |pending| - i
      {
        i := i + 1;
      }
      RemoveFirstAt(pending, i);
      pending := pending[..i] + pending[i + 1..];
    }

    /** One round: what can be loaded moves from pending to current. */
    method LoadStep(stepNumber: nat)
      requires NoRepeats(pending) && (forall m :: m in pending ==> m in deps) && |steps| == stepNumber
      modifies this
      ensures var now := Loadable(deps, old(pending), old(current));
              && pending == Without(old(pending), now)
              && current == old(current) + now
              && steps == old(steps) + [now]
    {
      ghost var before, loaded, done := pending, current, steps;
      LoadableFacts(deps, before, loaded);
      WithoutNothing(before);
      if stepNumber >= |steps| {
        steps := steps + [[]];
      }
      var modules := ModulesThatCanBeLoaded();
      for i := 0 to |modules|
        invariant pending == Without(before, modules[..i])
        invariant current == loaded + modules[..i]
        invariant steps == done + [modules[..i]]
      {
        NextModule(before, modules, i);
        RemovePending(modules[i]);
        LongerLast(done, modules, i);
        steps := steps[stepNumber := steps[stepNumber] + [modules[i]]];
        Associative(loaded, modules[..i], [modules[i]]);
        current := current + [modules[i]];
      }
      assert modules[..|modules|] == modules;
    }

    method DependencyOrder(stepNumber: nat, limit: nat) returns (done: bool)
      requires NoRepeats(pending) && (forall m :: m in pending ==> m in deps) && |steps| == stepNumber
      modifies this
      ensures var rounds := Rounds(deps, Sorting(old(pending), old(current)), limit);
              && done == rounds.Some?
              && (done ==> steps == old(steps) + rounds.value && pending == []
                           && current == old(current) + Flatten(rounds.value))
      decreases limit
    {
      if limit == 0 {
        return false;             // RecursionError
      }
      if |pending| == 0 {
        return true;
      }
      ghost var now, loaded, before := Loadable(deps, pending, current), current, steps;
      ghost var later := Rounds(deps, Sorting(Without(pending, now), loaded + now), limit - 1);
      assert Rounds(deps, Sorting(pending, current), limit) == Then(now, later);
      assert NoRepeats(Without(pending, now)) && (forall m :: m in Without(pending, now) ==> m in deps) by {
        WithoutFacts(pending, now);
      }
      LoadStep(stepNumber);
      done := DependencyOrder(stepNumber + 1, limit - 1);
      if done {
        OneMoreRound(loaded, before, now, later.value);
      }
    }

    /** The flattened load order, None when the recursion limit is hit. */
    method SortToDependencies(limit: nat) returns (order: Option<seq<Library>>)
      requires NoRepeats(pending) && (forall m :: m in pending ==> m in deps) && current == [] && steps == []
      modifies this
      ensures match Rounds(deps, Sorting(old(pending), []), limit)
              case None => order == None
              case Some(rounds) => order == Some(Flatten(rounds))
    {
      ghost var rounds := Rounds(deps, Sorting(pending, []), limit);
      var done := DependencyOrder(0, limit);
      if !done {
        return None;
      }
      var sorted := Concatenate(steps);
      assert steps == rounds.value;
      order := Some(sorted);
    }
  }

  method Concatenate(steps: seq<seq<Library>>) returns (sorted: seq<Library>)
    ensures sorted == Flatten(steps)
  {
    sorted := [];
    for k := 0 to |steps|
      invariant sorted + Flatten(steps[k..]) == Flatten(steps)
    {
      assert steps[k..][1..] == steps[k + 1..];
      sorted := sorted + steps[k];
    }
  }

  lemma {:induction false} RemoveFirstAt(s: seq<Library>, i: nat)
    requires i < |s| && s[i] !in s[..i]
    ensures RemoveFirst(s, s[i]) == s[..i] + s[i + 1..]
  {
    if i > 0 {
      assert s[0] in s[..i];
      assert s[1..][..i - 1] == s[..i][1..];
      RemoveFirstAt(s[1..], i - 1);
    }
  }

  lemma {:induction false} LoadableFacts(deps: Dependencies, pending: seq<Library>, current: seq<Library>)
    requires NoRepeats(pending)
    ensures forall m :: m in Loadable(deps, pending, current) <==> m in pending && CanBeLoaded(deps, current, m)
    ensures NoRepeats(Loadable(deps, pending, current))
  {
    if pending != [] {
      var front, last := pending[..|pending| - 1], pending[|pending| - 1];
      LoadableFacts(deps, front, current);
      assert pending == front + [last];
    }
  }

  lemma LongerLast(done: seq<seq<Library>>, modules: seq<Library>, i: nat)
    requires i < |modules|
    ensures modules[..i] + [modules[i]] == modules[..i + 1]
    ensures (done + [modules[..i]])[|done| := modules[..i + 1]] == done + [modules[..i + 1]]
  {
  }

  lemma OneMoreRound(loaded: seq<Library>, before: seq<seq<Library>>, now: seq<Library>, later: seq<seq<Library>>)
    ensures (loaded + now) + Flatten(later) == loaded + Flatten([now] + later)
    ensures (before + [now]) + later == before + ([now] + later)
  {
    assert Flatten([now] + later) == now + Flatten(later);
    Associative(loaded, now, Flatten(later));
  }

  lemma {:induction false} WithoutFacts(s: seq<Library>, ms: seq<Library>)
    requires NoRepeats(s)
    ensures forall m :: m in Without(s, ms) <==> m in s && m !in ms
    ensures NoRepeats(Without(s, ms))
  {
    if s != [] {
      NoRepeatsTail(s);
      WithoutFacts(s[1..], ms);
      assert s == [s[0]] + s[1..];
      if s[0] !in ms {
        NoRepeatsCons(s[0], Without(s[1..], ms));
      }
    }
  }

  lemma {:induction false} CopiesLeft(s: seq<Library>, ms: seq<Library>, m: Library)
    ensures multiset(Without(s, ms))[m] == if m in ms then 0 else multiset(s)[m]
  {
    if s != [] {
      CopiesLeft(s[1..], ms, m);
      assert s == [s[0]] + s[1..];
    }
  }

  lemma NextModule(before: seq<Library>, modules: seq<Library>, i: nat)
    requires NoRepeats(before) && NoRepeats(modules) && i < |modules| && modules[i] in before
    ensures modules[..i] + [modules[i]] == modules[..i + 1]
    ensures modules[i] in Without(before, modules[..i])
    ensures RemoveFirst(Without(before, modules[..i]), modules[i]) == Without(before, modules[..i + 1])
  {
    assert modules[..i] + [modules[i]] == modules[..i + 1];
    WithoutFacts(before, modules[..i]);
    WithoutOneMore(before, modules[..i], modules[i]);
  }

  lemma {:induction false} WithoutNothing(s: seq<Library>)
    ensures Without(s, []) == s
  {
    if s != [] { WithoutNothing(s[1..]); }
  }

  lemma {:induction false} WithoutAbsent(s: seq<Library>, ms: seq<Library>, m: Library)
    requires m !in s
    ensures Without(s, ms + [m]) == Without(s, ms)
  {
    if s != [] { WithoutAbsent(s[1..], ms, m); }
  }

  lemma {:induction false} WithoutOneMore(s: seq<Library>, ms: seq<Library>, m: Library)
    requires NoRepeats(s) && m in s && m !in ms
    ensures Without(s, ms + [m]) == RemoveFirst(Without(s, ms), m)
  {
    var rest := Without(s[1..], ms);
    NoRepeatsTail(s);
    if s[0] == m {
      WithoutAbsent(s[1..], ms, m);
      assert m in ms + [m];
      assert ([m] + rest)[1..] == rest;
    } else {
      assert s == [s[0]] + s[1..];
      assert s[0] in ms + [m] <==> s[0] in ms;
      WithoutOneMore(s[1..], ms, m);
      assert ([s[0]] + rest)[1..] == rest;
    }
  }
}
