/** The class StaticInformation of print-introspected-doxygen.cc. */
module StaticInformations {
  import opened Wrappers
  import opened Sequences
  import opened ConfigPaths

  /** A path as it is printed: every segment behind a slash. */
  function PathString(path: seq<string>): string {
    if path == [] then "" else PathString(path[..|path| - 1]) + "/" + path[|path| - 1]
  }

  type Record = (TypeId, string)

  /** The record of a walk that starts at tid, where the path to tid is `path`. */
  function Entry(w: World, path: seq<string>, tid: TypeId, walk: Walk): Record
    requires w.Valid() && w.Known(tid) && IsWalk(w, tid, walk)
  {
    (End(w, tid, walk), PathString(path + Labels(w, tid, walk)))
  }

  function Entries(w: World, path: seq<string>, tid: TypeId, walks: seq<Walk>): seq<Record>
    requires w.Valid() && w.Known(tid)
    requires forall walk :: walk in walks ==> IsWalk(w, tid, walk)
  {
    seq(|walks|, k requires 0 <= k < |walks| => Entry(w, path, tid, walks[k]))
  }

  /** The records that the search adds when it enters tid with the given stacks. */
  function Found(w: World, path: seq<string>, processed: seq<TypeId>, tid: TypeId): seq<Record>
    requires w.Valid() && w.Known(tid)
  {
    assert forall walk :: walk in Walks(w, processed, tid) ==> IsWalk(w, tid, walk) by {
      forall walk { ReportsSimpleWalks(w, processed, tid, walk); }
    }
    Entries(w, path, tid, Walks(w, processed, tid))
  }

  /** Those it adds through the first k edges of tid. */
  function FoundVia(w: World, path: seq<string>, processed: seq<TypeId>, tid: TypeId, k: nat): seq<Record>
    requires w.Valid() && w.Known(tid) && tid !in processed && k <= |w.Edges(tid)|
  {
    ViaWalks(w, processed, tid, k);
    Entries(w, path, tid, WalksVia(w, processed, tid, k))
  }

  lemma ViaWalks(w: World, processed: seq<TypeId>, tid: TypeId, k: nat)
    requires w.Valid() && w.Known(tid) && tid !in processed && k <= |w.Edges(tid)|
    ensures forall walk :: walk in WalksVia(w, processed, tid, k) ==> IsWalk(w, tid, walk)
  {
    forall walk | walk in WalksVia(w, processed, tid, k) ensures IsWalk(w, tid, walk) {
      InWalksVia(w, processed, tid, k, walk);
      ReportsSimpleWalks(w, processed + [tid], w.Edges(tid)[walk[0]].target, walk[1..]);
    }
  }

  /** Entering tid records tid itself and then what its edges lead to. */
  lemma FoundUnfold(w: World, path: seq<string>, processed: seq<TypeId>, tid: TypeId)
    requires w.Valid() && w.Known(tid)
    ensures Found(w, path, processed, tid) ==
            if tid in processed then []
            else [(tid, PathString(path))] + FoundVia(w, path, processed, tid, |w.Edges(tid)|)
  {
    if tid !in processed {
      assert path + [] == path;
      assert Entry(w, path, tid, []) == (tid, PathString(path));
    }
  }

  /** The k-th edge adds what the search finds behind it with the stacks pushed. */
  lemma FoundViaStep(w: World, path: seq<string>, processed: seq<TypeId>, tid: TypeId, k: nat)
    requires w.Valid() && w.Known(tid) && tid !in processed && k < |w.Edges(tid)|
    ensures var e := w.Edges(tid)[k];
            FoundVia(w, path, processed, tid, k + 1)
            == FoundVia(w, path, processed, tid, k)
               + Found(w, path + [e.segment], processed + [tid], e.target)
  {
    var e := w.Edges(tid)[k];
    ViaWalks(w, processed, tid, k + 1);
    EntriesConcat(w, path, tid, WalksVia(w, processed, tid, k),
                  Prefixed(k, Walks(w, processed + [tid], e.target)));
    PrefixedEntries(w, path, processed, tid, k);
  }

  lemma EntriesConcat(w: World, path: seq<string>, tid: TypeId, a: seq<Walk>, b: seq<Walk>)
    requires w.Valid() && w.Known(tid) && forall walk :: walk in a + b ==> IsWalk(w, tid, walk)
    ensures forall walk :: walk in a || walk in b ==> walk in a + b
    ensures Entries(w, path, tid, a + b) == Entries(w, path, tid, a) + Entries(w, path, tid, b)
  {
  }

  lemma PrefixedEntries(w: World, path: seq<string>, processed: seq<TypeId>, tid: TypeId, k: nat)
    requires w.Valid() && w.Known(tid) && tid !in processed && k < |w.Edges(tid)|
    ensures var e := w.Edges(tid)[k];
            var ps := Prefixed(k, Walks(w, processed + [tid], e.target));
            && (forall walk :: walk in ps ==> IsWalk(w, tid, walk))
            && Entries(w, path, tid, ps) == Found(w, path + [e.segment], processed + [tid], e.target)
  {
    var e := w.Edges(tid)[k];
    var walks := Walks(w, processed + [tid], e.target);
    forall i | 0 <= i < |walks|
      ensures IsWalk(w, tid, [k] + walks[i])
      ensures Entry(w, path, tid, [k] + walks[i]) == Found(w, path + [e.segment], processed + [tid], e.target)[i]
    {
      ReportsSimpleWalks(w, processed + [tid], e.target, walks[i]);
      PrefixedEntry(w, path, tid, k, walks[i]);
    }
  }

  lemma PrefixedEntry(w: World, path: seq<string>, tid: TypeId, k: nat, walk: Walk)
    requires w.Valid() && w.Known(tid) && k < |w.Edges(tid)| && IsWalk(w, w.Edges(tid)[k].target, walk)
    ensures IsWalk(w, tid, [k] + walk)
    ensures var e := w.Edges(tid)[k];
            Entry(w, path, tid, [k] + walk) == Entry(w, path + [e.segment], e.target, walk)
  {
    var e := w.Edges(tid)[k];
    assert ([k] + walk)[1..] == walk;
    assert path + ([e.segment] + Labels(w, e.target, walk)) == path + [e.segment] + Labels(w, e.target, walk);
  }

  // ---------------------------------------------------------------- edges one by one

  lemma {:induction false} AttributePrefix(w: World, attributes: seq<Attribute>, i: nat)
    requires i <= |attributes|
    ensures w.AttributeEdges(attributes[..i]) <= w.AttributeEdges(attributes)
    decreases |attributes|
  {
    if i < |attributes| {
      var front := attributes[..|attributes| - 1];
      assert front[..i] == attributes[..i];
      AttributePrefix(w, front, i);
    } else {
      assert attributes[..i] == attributes;
    }
  }

  lemma {:induction false} ChildPrefix(w: World, tid: TypeId, j: nat, k: nat)
    requires j <= k <= |w.types|
    ensures w.ChildEdges(tid, j) <= w.ChildEdges(tid, k)
  {
    if j < k { ChildPrefix(w, tid, j, k - 1); }
  }

  lemma {:induction false} AggregatePrefix(w: World, tid: TypeId, pairs: seq<(TypeId, TypeId)>, i: nat)
    requires i <= |pairs| && forall p :: p in pairs ==> w.Known(p.0) && w.Known(p.1)
    ensures w.AggregateEdges(pairs[..i], tid) <= w.AggregateEdges(pairs, tid)
    decreases |pairs|
  {
    if i < |pairs| {
      var front := pairs[..|pairs| - 1];
      assert front[..i] == pairs[..i];
      AggregatePrefix(w, tid, front, i);
    } else {
      assert pairs[..i] == pairs;
    }
  }

  /** The edges of the first i attributes. */
  function BeforeAttribute(w: World, tid: TypeId, i: nat): (es: seq<Edge>)
    requires w.Valid() && w.Known(tid) && i <= |w.types[tid].attributes|
    ensures es <= w.Edges(tid)
  {
    AttributePrefix(w, w.types[tid].attributes, i);
    w.AttributeEdges(w.types[tid].attributes[..i])
  }

  /** The edges of all attributes and of the first j children. */
  function BeforeChild(w: World, tid: TypeId, j: nat): (es: seq<Edge>)
    requires w.Valid() && w.Known(tid) && j <= |w.types|
    ensures es <= w.Edges(tid)
  {
    ChildPrefix(w, tid, j, |w.types|);
    w.AttributeEdges(w.types[tid].attributes) + w.ChildEdges(tid, j)
  }

  /** The edges of all attributes and children and of the first i aggregations. */
  function BeforeAggregate(w: World, tid: TypeId, i: nat): (es: seq<Edge>)
    requires w.Valid() && w.Known(tid) && i <= |w.aggregates|
    ensures es <= w.Edges(tid)
  {
    AggregatePrefix(w, tid, w.aggregates, i);
    w.AttributeEdges(w.types[tid].attributes) + w.ChildEdges(tid, |w.types|)
    + w.AggregateEdges(w.aggregates[..i], tid)
  }

  /** What the search finds behind one edge. */
  function Behind(w: World, path: seq<string>, ps: seq<TypeId>, tid: TypeId, e: Edge): seq<Record>
    requires w.Valid() && w.Known(e.target)
  {
    Found(w, path + [e.segment], ps + [tid], e.target)
  }

  /** One more edge adds what lies behind it. */
  lemma FoundNext(w: World, path: seq<string>, ps: seq<TypeId>, tid: TypeId, before: seq<Edge>, e: Edge)
    requires w.Valid() && w.Known(tid) && tid !in ps && before + [e] <= w.Edges(tid)
    ensures w.Known(e.target)
    ensures FoundVia(w, path, ps, tid, |before + [e]|)
            == FoundVia(w, path, ps, tid, |before|) + Behind(w, path, ps, tid, e)
  {
    assert (before + [e])[|before|] == e;
    assert w.Edges(tid)[|before|] == e;
    FoundViaStep(w, path, ps, tid, |before|);
  }

  /** What has been found after the first i attributes. */
  function AtAttribute(w: World, path: seq<string>, ps: seq<TypeId>, tid: TypeId, i: nat): seq<Record>
    requires w.Valid() && w.Known(tid) && tid !in ps && i <= |w.types[tid].attributes|
  {
    FoundVia(w, path, ps, tid, |BeforeAttribute(w, tid, i)|)
  }

  function AtChild(w: World, path: seq<string>, ps: seq<TypeId>, tid: TypeId, j: nat): seq<Record>
    requires w.Valid() && w.Known(tid) && tid !in ps && j <= |w.types|
  {
    FoundVia(w, path, ps, tid, |BeforeChild(w, tid, j)|)
  }

  function AtAggregate(w: World, path: seq<string>, ps: seq<TypeId>, tid: TypeId, i: nat): seq<Record>
    requires w.Valid() && w.Known(tid) && tid !in ps && i <= |w.aggregates|
  {
    FoundVia(w, path, ps, tid, |BeforeAggregate(w, tid, i)|)
  }

  lemma AttributeRound(w: World, path: seq<string>, ps: seq<TypeId>, tid: TypeId, i: nat)
    requires w.Valid() && w.Known(tid) && tid !in ps && i < |w.types[tid].attributes|
    ensures w.AttributeKnown(w.types[tid].attributes[i])
    ensures AtAttribute(w, path, ps, tid, i + 1) == AtAttribute(w, path, ps, tid, i) +
            var more := w.AttributeEdge(w.types[tid].attributes[i]);
            if more == [] then [] else Behind(w, path, ps, tid, more[0])
  {
    var attributes := w.types[tid].attributes;
    assert attributes[..i + 1][..i] == attributes[..i];
    assert attributes[i] in attributes;
    var more := w.AttributeEdge(attributes[i]);
    assert BeforeAttribute(w, tid, i + 1) == BeforeAttribute(w, tid, i) + more;
    if more != [] {
      FoundNext(w, path, ps, tid, BeforeAttribute(w, tid, i), more[0]);
    }
  }

  lemma ChildRound(w: World, path: seq<string>, ps: seq<TypeId>, tid: TypeId, j: nat)
    requires w.Valid() && w.Known(tid) && tid !in ps && j < |w.types|
    ensures AtChild(w, path, ps, tid, j + 1) == AtChild(w, path, ps, tid, j) +
            if w.IsChildOf(j, tid) then Behind(w, path, ps, tid, w.TypeEdge(j)) else []
  {
    if w.IsChildOf(j, tid) {
      assert BeforeChild(w, tid, j + 1) == BeforeChild(w, tid, j) + [w.TypeEdge(j)];
      FoundNext(w, path, ps, tid, BeforeChild(w, tid, j), w.TypeEdge(j));
    } else {
      assert BeforeChild(w, tid, j + 1) == BeforeChild(w, tid, j);
    }
  }

  lemma AggregateRound(w: World, path: seq<string>, ps: seq<TypeId>, tid: TypeId, i: nat)
    requires w.Valid() && w.Known(tid) && tid !in ps && i < |w.aggregates|
    ensures var p := w.aggregates[i];
            && w.Known(p.0) && w.Known(p.1)
            && AtAggregate(w, path, ps, tid, i + 1) == AtAggregate(w, path, ps, tid, i) +
               if p.0 == tid || p.1 == tid then Behind(w, path, ps, tid, w.TypeEdge(w.Other(p, tid))) else []
  {
    var p := w.aggregates[i];
    assert p in w.aggregates;
    assert w.aggregates[..i + 1][..i] == w.aggregates[..i];
    if p.0 == tid || p.1 == tid {
      var e := w.TypeEdge(w.Other(p, tid));
      assert BeforeAggregate(w, tid, i + 1) == BeforeAggregate(w, tid, i) + [e];
      FoundNext(w, path, ps, tid, BeforeAggregate(w, tid, i), e);
    } else {
      assert BeforeAggregate(w, tid, i + 1) == BeforeAggregate(w, tid, i);
    }
  }

  /** The three loops follow each other without a gap. */
  lemma LoopsMeet(w: World, path: seq<string>, ps: seq<TypeId>, tid: TypeId)
    requires w.Valid() && w.Known(tid) && tid !in ps
    ensures AtAttribute(w, path, ps, tid, 0) == []
    ensures AtAttribute(w, path, ps, tid, |w.types[tid].attributes|) == AtChild(w, path, ps, tid, 0)
    ensures AtChild(w, path, ps, tid, |w.types|) == AtAggregate(w, path, ps, tid, 0)
    ensures AtAggregate(w, path, ps, tid, |w.aggregates|) == FoundVia(w, path, ps, tid, |w.Edges(tid)|)
  {
    var attributes := w.types[tid].attributes;
    assert attributes[..|attributes|] == attributes && attributes[..0] == [];
    assert w.aggregates[..|w.aggregates|] == w.aggregates && w.aggregates[..0] == [];
    assert BeforeAttribute(w, tid, |attributes|) == BeforeChild(w, tid, 0);
    assert BeforeChild(w, tid, |w.types|) == BeforeAggregate(w, tid, 0);
  }

  // ---------------------------------------------------------------- the class

  /** The paths recorded for a type, in the order of discovery. */
  function PathsOf(records: seq<Record>, tid: TypeId): seq<string> {
    if records == [] then [] else
    var last := records[|records| - 1];
    PathsOf(records[..|records| - 1], tid) + if last.0 == tid then [last.1] else []
  }

  function AllFound(w: World, roots: seq<TypeId>): seq<Record>
    requires w.Valid() && forall r :: r in roots ==> w.Known(r)
  {
    if roots == [] then [] else
    AllFound(w, roots[..|roots| - 1]) + Found(w, [], [], roots[|roots| - 1])
  }

  lemma AllFoundStep(w: World, roots: seq<TypeId>, i: nat)
    requires w.Valid() && (forall r :: r in roots ==> w.Known(r)) && i < |roots|
    ensures AllFound(w, roots[..i + 1]) == AllFound(w, roots[..i]) + Found(w, [], [], roots[i])
  {
    assert roots[..i + 1][..i] == roots[..i];
  }

  class StaticInformation {
    const types: seq<TypeInfo>
    const objectType: TypeId
    var output: seq<Record>
    var currentPath: seq<string>
    var alreadyProcessed: seq<TypeId>
    var aggregates: seq<(TypeId, TypeId)>
    var noTids: seq<string>

    function TheWorld(): World
      reads this`aggregates
    {
      World(types, objectType, aggregates)
    }

    /** The two stacks always have one entry each for every edge on the way here. */
    ghost predicate Valid()
      reads this`aggregates, this`currentPath, this`alreadyProcessed
    {
      && TheWorld().Valid()
      && |currentPath| == |alreadyProcessed|
      && NoRepeats(alreadyProcessed)
    }

    constructor (types: seq<TypeInfo>, objectType: TypeId)
      requires World(types, objectType, []).Valid()
      ensures this.types == types && this.objectType == objectType
      ensures Valid() && output == [] && currentPath == [] && aggregates == [] && noTids == []
    {
      this.types, this.objectType := types, objectType;
      output, currentPath, alreadyProcessed, aggregates, noTids := [], [], [], [], [];
    }

    method LookupByName(name: string) returns (found: Option<TypeId>)
      ensures match found
              case Some(t) => t < |types| && types[t].name == name
              case None => forall t :: 0 <= t < |types| ==> types[t].name != name
    {
      for t := 0 to |types|
        invariant forall u :: 0 <= u < t ==> types[u].name != name
      {
        if types[t].name == name {
          return Some(t);
        }
      }
      return None;
    }

    method RecordAggregationInfo(a: string, b: string)
      requires Valid()
      modifies this`aggregates, this`noTids
      ensures Valid()
      ensures (forall t :: 0 <= t < |types| ==> types[t].name != a) ==>
                aggregates == old(aggregates) && noTids == old(noTids) + [a]
      ensures (exists t :: 0 <= t < |types| && types[t].name == a) &&
              (forall t :: 0 <= t < |types| ==> types[t].name != b) ==>
                aggregates == old(aggregates) && noTids == old(noTids) + [b]
      ensures (exists t :: 0 <= t < |types| && types[t].name == a) &&
              (exists t :: 0 <= t < |types| && types[t].name == b) ==>
                && noTids == old(noTids) && |aggregates| == |old(aggregates)| + 1
                && aggregates[..|old(aggregates)|] == old(aggregates)
                && var (s, t) := aggregates[|old(aggregates)|];
                   s < |types| && t < |types| && types[s].name == a && types[t].name == b
    {
      var aTid := LookupByName(a);
      if aTid.None? {
        noTids := noTids + [a];
        return;
      }
      var bTid := LookupByName(b);
      if bTid.None? {
        noTids := noTids + [b];
        return;
      }
      aggregates := aggregates + [(aTid.value, bTid.value)];
    }

    method GetCurrentPath() returns (path: string)
      ensures path == PathString(currentPath)
    {
      path := "";
      for i := 0 to |currentPath|
        invariant path == PathString(currentPath[..i])
      {
        path := path + "/" + currentPath[i];
        assert currentPath[..i + 1][..i] == currentPath[..i];
      }
      assert currentPath[..|currentPath|] == currentPath;
    }

    method RecordOutput(tid: TypeId)
      modifies this`output
      ensures output == old(output) + [(tid, PathString(currentPath))]
    {
      var path := GetCurrentPath();
      output := output + [(tid, path)];
    }

    method HasAlreadyBeenProcessed(tid: TypeId) returns (processed: bool)
      ensures processed <==> tid in alreadyProcessed
    {
      for i := 0 to |alreadyProcessed|
        invariant tid !in alreadyProcessed[..i]
      {
        if alreadyProcessed[i] == tid {
          return true;
        }
      }
      return false;
    }

    /**
      The four lines around each recursive call: push the segment and the type, search
      behind the edge, pop both again.
     */
    method Follow(segment: string, tid: TypeId, target: TypeId)
      requires Valid() && TheWorld().Known(tid) && TheWorld().Known(target) && tid !in alreadyProcessed
      modifies this`output, this`currentPath, this`alreadyProcessed
      ensures output == old(output)
                        + Found(TheWorld(), old(currentPath) + [segment], old(alreadyProcessed) + [tid], target)
      ensures currentPath == old(currentPath) && alreadyProcessed == old(alreadyProcessed)
      decreases Free(TheWorld(), alreadyProcessed), 0
    {
      Shrinks(TheWorld(), alreadyProcessed, tid);
      currentPath := currentPath + [segment];
      alreadyProcessed := alreadyProcessed + [tid];
      DoGather(target);
      alreadyProcessed := alreadyProcessed[..|alreadyProcessed| - 1];
      currentPath := currentPath[..|currentPath| - 1];
    }

    /** The first loop of DoGather. */
    method GatherAttributes(tid: TypeId, ghost start: seq<Record>)
      requires Valid() && TheWorld().Known(tid) && tid !in alreadyProcessed
      requires output == start + AtAttribute(TheWorld(), currentPath, alreadyProcessed, tid, 0)
      modifies this`output, this`currentPath, this`alreadyProcessed
      ensures currentPath == old(currentPath) && alreadyProcessed == old(alreadyProcessed)
      ensures output == start + AtAttribute(TheWorld(), currentPath, alreadyProcessed, tid, |types[tid].attributes|)
      decreases Free(TheWorld(), alreadyProcessed), 2
    {
      ghost var w, path, ps := TheWorld(), currentPath, alreadyProcessed;
      for i := 0 to |types[tid].attributes|
        invariant Valid() && TheWorld() == w && currentPath == path && alreadyProcessed == ps
        invariant output == start + AtAttribute(w, path, ps, tid, i)
      {
        AttributeRound(w, path, ps, tid, i);
        GatherAttribute(tid, types[tid].attributes[i]);
        ghost var more := w.AttributeEdge(types[tid].attributes[i]);
        Associative(start, AtAttribute(w, path, ps, tid, i),
                    if more == [] then [] else Behind(w, path, ps, tid, more[0]));
      }
    }

    /** One round of that loop. */
    method GatherAttribute(tid: TypeId, info: Attribute)
      requires Valid() && TheWorld().Known(tid) && tid !in alreadyProcessed && TheWorld().AttributeKnown(info)
      modifies this`output, this`currentPath, this`alreadyProcessed
      ensures currentPath == old(currentPath) && alreadyProcessed == old(alreadyProcessed)
      ensures var more := TheWorld().AttributeEdge(info);
              output == old(output)
                        + if more == [] then [] else Behind(TheWorld(), currentPath, alreadyProcessed, tid, more[0])
      decreases Free(TheWorld(), alreadyProcessed), 1
    {
      match info {
        case Pointer(name, pointee) =>
          if objectType == pointee {
            return;
          }
          Follow(name, tid, pointee);
        case Container(name, item) =>
          Follow(name + "/[i]", tid, item);
        case Plain(_) =>
      }
    }

    /** The second loop of DoGather. */
    method GatherChildren(tid: TypeId, ghost start: seq<Record>)
      requires Valid() && TheWorld().Known(tid) && tid !in alreadyProcessed
      requires output == start + AtChild(TheWorld(), currentPath, alreadyProcessed, tid, 0)
      modifies this`output, this`currentPath, this`alreadyProcessed
      ensures currentPath == old(currentPath) && alreadyProcessed == old(alreadyProcessed)
      ensures output == start + AtChild(TheWorld(), currentPath, alreadyProcessed, tid, |types|)
      decreases Free(TheWorld(), alreadyProcessed), 1
    {
      ghost var w, path, ps := TheWorld(), currentPath, alreadyProcessed;
      for j := 0 to |types|
        invariant Valid() && TheWorld() == w && currentPath == path && alreadyProcessed == ps
        invariant output == start + AtChild(w, path, ps, tid, j)
      {
        ChildRound(w, path, ps, tid, j);
        var isChild := TheWorld().IsChildOf(j, tid);
        Associative(start, AtChild(w, path, ps, tid, j),
                    if isChild then Behind(w, path, ps, tid, w.TypeEdge(j)) else []);
        if isChild {
          Follow("$" + types[j].name, tid, j);
        }
      }
    }

    /** The third loop of DoGather. */
    method GatherAggregates(tid: TypeId, ghost start: seq<Record>)
      requires Valid() && TheWorld().Known(tid) && tid !in alreadyProcessed
      requires output == start + AtAggregate(TheWorld(), currentPath, alreadyProcessed, tid, 0)
      modifies this`output, this`currentPath, this`alreadyProcessed
      ensures currentPath == old(currentPath) && alreadyProcessed == old(alreadyProcessed)
      ensures output == start + AtAggregate(TheWorld(), currentPath, alreadyProcessed, tid, |aggregates|)
      decreases Free(TheWorld(), alreadyProcessed), 1
    {
      ghost var w, path, ps := TheWorld(), currentPath, alreadyProcessed;
      for i := 0 to |aggregates|
        invariant Valid() && TheWorld() == w && currentPath == path && alreadyProcessed == ps
        invariant output == start + AtAggregate(w, path, ps, tid, i)
      {
        AggregateRound(w, path, ps, tid, i);
        var item := aggregates[i];
        if item.0 == tid || item.1 == tid {
          var other := 0;
          if item.0 == tid {
            other := item.1;
          }
          if item.1 == tid {
            other := item.0;
          }
          Associative(start, AtAggregate(w, path, ps, tid, i), Behind(w, path, ps, tid, w.TypeEdge(other)));
          Follow("$" + types[other].name, tid, other);
        }
      }
    }

    /** Records the type and searches behind its edges, unless it is on the stack. */
    method DoGather(tid: TypeId)
      requires Valid() && TheWorld().Known(tid)
      modifies this`output, this`currentPath, this`alreadyProcessed
      ensures output == old(output) + Found(TheWorld(), old(currentPath), old(alreadyProcessed), tid)
      ensures currentPath == old(currentPath) && alreadyProcessed == old(alreadyProcessed)
      decreases Free(TheWorld(), alreadyProcessed), 3
    {
      FoundUnfold(TheWorld(), currentPath, alreadyProcessed, tid);
      var processed := HasAlreadyBeenProcessed(tid);
      if processed {
        return;
      }
      LoopsMeet(TheWorld(), currentPath, alreadyProcessed, tid);
      Associative(output, [(tid, PathString(currentPath))],
                  FoundVia(TheWorld(), currentPath, alreadyProcessed, tid, |TheWorld().Edges(tid)|));
      RecordOutput(tid);
      ghost var start := output;
      assert output == start + AtAttribute(TheWorld(), currentPath, alreadyProcessed, tid, 0);
      GatherAttributes(tid, start);
      GatherChildren(tid, start);
      GatherAggregates(tid, start);
    }

    /** Sorting a copy of the output afterwards leaves the output as it is. */
    method Gather(tid: TypeId)
      requires Valid() && TheWorld().Known(tid)
      modifies this`output, this`currentPath, this`alreadyProcessed
      ensures output == old(output) + Found(TheWorld(), old(currentPath), old(alreadyProcessed), tid)
      ensures currentPath == old(currentPath) && alreadyProcessed == old(alreadyProcessed)
    {
      DoGather(tid);
    }

    /** Gathers from every root object, as GetTypicalAggregations does. */
    method GatherAll(roots: seq<TypeId>)
      requires Valid() && currentPath == [] && alreadyProcessed == []
      requires forall r :: r in roots ==> TheWorld().Known(r)
      modifies this`output, this`currentPath, this`alreadyProcessed
      ensures output == old(output) + AllFound(TheWorld(), roots)
      ensures currentPath == [] && alreadyProcessed == []
    {
      ghost var w, start := TheWorld(), output;
      for i := 0 to |roots|
        invariant TheWorld() == w && currentPath == [] && alreadyProcessed == []
        invariant output == start + AllFound(w, roots[..i])
      {
        AllFoundStep(w, roots, i);
        Associative(start, AllFound(w, roots[..i]), Found(w, [], [], roots[i]));
        Gather(roots[i]);
      }
      assert roots[..|roots|] == roots;
    }

    method Get(tid: TypeId) returns (paths: seq<string>)
      ensures paths == PathsOf(output, tid)
    {
      paths := [];
      for i := 0 to |output|
        invariant paths == PathsOf(output[..i], tid)
      {
        if output[i].0 == tid {
          paths := paths + [output[i].1];
        }
        assert output[..i + 1][..i] == output[..i];
      }
      assert output[..|output|] == output;
    }
  }
}
