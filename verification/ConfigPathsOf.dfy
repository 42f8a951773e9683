/** What Get answers once everything is gathered. */
module ConfigPathsOf {
  import opened ConfigPaths
  import opened StaticInformations

  /** Those of the walks from r that end at tid, in their order. */
  function EndingAt(w: World, r: TypeId, walks: seq<Walk>, tid: TypeId): seq<Walk>
    requires w.Valid() && w.Known(r) && forall walk :: walk in walks ==> IsWalk(w, r, walk)
  {
    if walks == [] then [] else
    var last := walks[|walks| - 1];
    EndingAt(w, r, walks[..|walks| - 1], tid) + if End(w, r, last) == tid then [last] else []
  }

  /** The simple walks from r to tid in depth-first pre-order. */
  function SimpleWalksTo(w: World, r: TypeId, tid: TypeId): seq<Walk>
    requires w.Valid() && w.Known(r)
  {
    assert forall walk :: walk in Walks(w, [], r) ==> IsWalk(w, r, walk) by {
      forall walk { ReportsSimpleWalks(w, [], r, walk); }
    }
    EndingAt(w, r, Walks(w, [], r), tid)
  }

  lemma {:induction false} EndingAtMembers(w: World, r: TypeId, walks: seq<Walk>, tid: TypeId, walk: Walk)
    requires w.Valid() && w.Known(r) && forall v :: v in walks ==> IsWalk(w, r, v)
    ensures walk in EndingAt(w, r, walks, tid) <==> walk in walks && End(w, r, walk) == tid
  {
    if walks != [] {
      EndingAtMembers(w, r, walks[..|walks| - 1], tid, walk);
      assert walks == walks[..|walks| - 1] + [walks[|walks| - 1]];
    }
  }

  lemma {:induction false} EndingAtInOrder(w: World, r: TypeId, walks: seq<Walk>, tid: TypeId)
    requires w.Valid() && w.Known(r) && (forall v :: v in walks ==> IsWalk(w, r, v)) && InOrder(walks)
    ensures InOrder(EndingAt(w, r, walks, tid))
  {
    if walks != [] {
      var front, last := walks[..|walks| - 1], walks[|walks| - 1];
      EndingAtInOrder(w, r, front, tid);
      forall v | v in EndingAt(w, r, front, tid) ensures Precedes(v, last) {
        EndingAtMembers(w, r, front, tid, v);
        var i :| 0 <= i < |front| && front[i] == v;
        assert walks[i] == v;
      }
    }
  }

  /** They are exactly the simple walks from r to tid, each once and in pre-order. */
  lemma SimpleWalksToExact(w: World, r: TypeId, tid: TypeId)
    requires w.Valid() && w.Known(r)
    ensures forall walk :: walk in SimpleWalksTo(w, r, tid) <==> SimpleWalk(w, r, walk) && End(w, r, walk) == tid
    ensures InOrder(SimpleWalksTo(w, r, tid))
  {
    forall walk
      ensures walk in SimpleWalksTo(w, r, tid) <==> SimpleWalk(w, r, walk) && End(w, r, walk) == tid
    {
      ReportsSimpleWalks(w, [], r, walk);
      assert forall v :: v in Walks(w, [], r) ==> IsWalk(w, r, v) by {
        forall v { ReportsSimpleWalks(w, [], r, v); }
      }
      EndingAtMembers(w, r, Walks(w, [], r), tid, walk);
    }
    assert forall v :: v in Walks(w, [], r) ==> IsWalk(w, r, v) by {
      forall v { ReportsSimpleWalks(w, [], r, v); }
    }
    ReportsInOrder(w, [], r);
    EndingAtInOrder(w, r, Walks(w, [], r), tid);
  }

  function Rendered(w: World, r: TypeId, walks: seq<Walk>): seq<string>
    requires w.Valid() && w.Known(r) && forall walk :: walk in walks ==> IsWalk(w, r, walk)
  {
    seq(|walks|, k requires 0 <= k < |walks| => PathString(Labels(w, r, walks[k])))
  }

  lemma LastEntry(w: World, r: TypeId, walks: seq<Walk>)
    requires w.Valid() && w.Known(r) && (forall walk :: walk in walks ==> IsWalk(w, r, walk)) && walks != []
    ensures var front, last := walks[..|walks| - 1], walks[|walks| - 1];
            && IsWalk(w, r, last)
            && Entries(w, [], r, walks)
               == Entries(w, [], r, front) + [(End(w, r, last), PathString(Labels(w, r, last)))]
  {
    var front, last := walks[..|walks| - 1], walks[|walks| - 1];
    assert walks == front + [last];
    EntriesConcat(w, [], r, front, [last]);
    assert [] + Labels(w, r, last) == Labels(w, r, last);
    assert Entries(w, [], r, [last]) == [Entry(w, [], r, last)];
  }

  lemma {:induction false} PathsOfEntries(w: World, r: TypeId, walks: seq<Walk>, tid: TypeId)
    requires w.Valid() && w.Known(r) && forall walk :: walk in walks ==> IsWalk(w, r, walk)
    ensures forall walk :: walk in EndingAt(w, r, walks, tid) ==> IsWalk(w, r, walk)
    ensures PathsOf(Entries(w, [], r, walks), tid) == Rendered(w, r, EndingAt(w, r, walks, tid))
  {
    forall walk | walk in EndingAt(w, r, walks, tid) ensures IsWalk(w, r, walk) {
      EndingAtMembers(w, r, walks, tid, walk);
    }
    if walks != [] {
      var front, last := walks[..|walks| - 1], walks[|walks| - 1];
      PathsOfEntries(w, r, front, tid);
      LastEntry(w, r, walks);
    }
  }

  lemma {:induction false} PathsOfConcat(a: seq<Record>, b: seq<Record>, tid: TypeId)
    ensures PathsOf(a + b, tid) == PathsOf(a, tid) + PathsOf(b, tid)
  {
    if b == [] {
      assert a + b == a;
    } else {
      PathsOfConcat(a, b[..|b| - 1], tid);
      assert (a + b)[..|a + b| - 1] == a + b[..|b| - 1];
    }
  }

  /** The printed simple walks to tid from each root in turn. */
  function AllPathsTo(w: World, roots: seq<TypeId>, tid: TypeId): seq<string>
    requires w.Valid() && forall r :: r in roots ==> w.Known(r)
  {
    if roots == [] then [] else
    var r := roots[|roots| - 1];
    SimpleWalksToExact(w, r, tid);
    AllPathsTo(w, roots[..|roots| - 1], tid) + Rendered(w, r, SimpleWalksTo(w, r, tid))
  }

  /** Get answers with the simple walks that end at the type, in the order of discovery. */
  lemma {:induction false} GetAfterGather(w: World, roots: seq<TypeId>, tid: TypeId)
    requires w.Valid() && forall r :: r in roots ==> w.Known(r)
    ensures PathsOf(AllFound(w, roots), tid) == AllPathsTo(w, roots, tid)
  {
    if roots != [] {
      var front, r := roots[..|roots| - 1], roots[|roots| - 1];
      GetAfterGather(w, front, tid);
      PathsOfConcat(AllFound(w, front), Found(w, [], [], r), tid);
      assert forall v :: v in Walks(w, [], r) ==> IsWalk(w, r, v) by {
        forall v { ReportsSimpleWalks(w, [], r, v); }
      }
      PathsOfEntries(w, r, Walks(w, [], r), tid);
    }
  }

  ghost predicate PrintedFrom(w: World, r: TypeId, tid: TypeId, path: string)
    requires w.Valid() && w.Known(r)
  {
    exists walk :: SimpleWalk(w, r, walk) && End(w, r, walk) == tid && path == PathString(Labels(w, r, walk))
  }

  lemma RenderedExact(w: World, r: TypeId, tid: TypeId, path: string)
    requires w.Valid() && w.Known(r)
    ensures forall walk :: walk in SimpleWalksTo(w, r, tid) ==> IsWalk(w, r, walk)
    ensures path in Rendered(w, r, SimpleWalksTo(w, r, tid)) <==> PrintedFrom(w, r, tid, path)
  {
    SimpleWalksToExact(w, r, tid);
    var walks := SimpleWalksTo(w, r, tid);
    if path in Rendered(w, r, walks) {
      var k :| 0 <= k < |walks| && Rendered(w, r, walks)[k] == path;
      assert walks[k] in walks;
    }
    if PrintedFrom(w, r, tid, path) {
      var walk :| SimpleWalk(w, r, walk) && End(w, r, walk) == tid && path == PathString(Labels(w, r, walk));
      assert walk in walks;
      var k :| 0 <= k < |walks| && walks[k] == walk;
      assert Rendered(w, r, walks)[k] == path;
    }
  }

  lemma {:induction false} AllPathsExact(w: World, roots: seq<TypeId>, tid: TypeId, path: string)
    requires w.Valid() && forall r :: r in roots ==> w.Known(r)
    ensures path in AllPathsTo(w, roots, tid) <==> exists r :: r in roots && PrintedFrom(w, r, tid, path)
  {
    if roots != [] {
      var front, last := roots[..|roots| - 1], roots[|roots| - 1];
      assert roots == front + [last];
      AllPathsExact(w, front, tid, path);
      RenderedExact(w, last, tid, path);
    }
  }

  /** A path is answered exactly when some simple walk from a root to the type prints as it. */
  lemma GetIsExact(w: World, roots: seq<TypeId>, tid: TypeId, path: string)
    requires w.Valid() && forall r :: r in roots ==> w.Known(r)
    ensures path in PathsOf(AllFound(w, roots), tid) <==>
            exists r :: r in roots && PrintedFrom(w, r, tid, path)
  {
    GetAfterGather(w, roots, tid);
    AllPathsExact(w, roots, tid, path);
  }

  /** Gathering from the roots and then asking for one type. */
  method PathsFor(info: StaticInformation, roots: seq<TypeId>, tid: TypeId) returns (paths: seq<string>)
    requires info.Valid() && info.output == [] && info.currentPath == [] && info.alreadyProcessed == []
    requires forall r :: r in roots ==> info.TheWorld().Known(r)
    modifies info
    ensures info.TheWorld() == old(info.TheWorld())
    ensures paths == AllPathsTo(info.TheWorld(), roots, tid)
    ensures forall path :: path in paths <==>
              exists r :: r in roots && PrintedFrom(info.TheWorld(), r, tid, path)
  {
    info.GatherAll(roots);
    paths := info.Get(tid);
    assert [] + AllFound(info.TheWorld(), roots) == AllFound(info.TheWorld(), roots);
    GetAfterGather(info.TheWorld(), roots, tid);
    forall path
      ensures path in paths <==> exists r :: r in roots && PrintedFrom(info.TheWorld(), r, tid, path)
    {
      AllPathsExact(info.TheWorld(), roots, tid, path);
    }
  }
}
