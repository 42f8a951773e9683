/**
  Discovery of the configuration paths of print-introspected-doxygen.cc: a
  depth-first search over the type graph that keeps the path and the types it came
  through on two stacks, and appends what it finds to the output.
 */
module ConfigPaths {
  import opened Sequences

  type TypeId = nat

  datatype Attribute =
    | Pointer(name: string, pointee: TypeId)
    | Container(name: string, item: TypeId)
    | Plain(name: string)

  /** `ancestors` are the types above this one, as IsChildOf finds them. */
  datatype TypeInfo = TypeInfo(name: string, ancestors: set<TypeId>, attributes: seq<Attribute>)

  datatype Edge = Edge(segment: string, target: TypeId)

  /** The registered types, the type Object and the recorded aggregations. */
  datatype World = World(types: seq<TypeInfo>, objectType: TypeId, aggregates: seq<(TypeId, TypeId)>) {

    predicate Known(tid: TypeId) { tid < |types| }

    predicate AttributeKnown(a: Attribute) {
      match a
      case Pointer(_, pointee) => Known(pointee)
      case Container(_, item) => Known(item)
      case Plain(_) => true
    }

    /** Attributes and aggregations name registered types only. */
    predicate Valid() {
      && (forall i :: 0 <= i < |types| ==>
            forall a :: a in types[i].attributes ==> AttributeKnown(a))
      && (forall p :: p in aggregates ==> Known(p.0) && Known(p.1))
    }

    predicate IsChildOf(child: TypeId, tid: TypeId)
      requires Known(child)
    {
      child != tid && tid in types[child].ancestors
    }

    /** An attribute is followed when it points to a type other than Object. */
    function AttributeEdge(a: Attribute): seq<Edge> {
      match a
      case Pointer(name, pointee) => if pointee == objectType then [] else [Edge(name, pointee)]
      case Container(name, item) => [Edge(name + "/[i]", item)]
      case Plain(_) => []
    }

    function AttributeEdges(attributes: seq<Attribute>): seq<Edge> {
      if attributes == [] then [] else
      AttributeEdges(attributes[..|attributes| - 1]) + AttributeEdge(attributes[|attributes| - 1])
    }

    function TypeEdge(tid: TypeId): Edge
      requires Known(tid)
    {
      Edge("$" + types[tid].name, tid)
    }

    /** Edges to those of the first k registered types that are children of tid. */
    function ChildEdges(tid: TypeId, k: nat): seq<Edge>
      requires k <= |types|
    {
      if k == 0 then [] else
      ChildEdges(tid, k - 1) + if IsChildOf(k - 1, tid) then [TypeEdge(k - 1)] else []
    }

    /** The other side of an aggregation; the types of a pair are exchanged freely. */
    function Other(p: (TypeId, TypeId), tid: TypeId): TypeId {
      if p.1 == tid then p.0 else p.1
    }

    function AggregateEdges(pairs: seq<(TypeId, TypeId)>, tid: TypeId): seq<Edge>
      requires forall p :: p in pairs ==> Known(p.0) && Known(p.1)
    {
      if pairs == [] then [] else
      var p := pairs[|pairs| - 1];
      AggregateEdges(pairs[..|pairs| - 1], tid)
      + if p.0 == tid || p.1 == tid then [TypeEdge(Other(p, tid))] else []
    }

    /** All edges out of a type in the order in which the search follows them. */
    function Edges(tid: TypeId): seq<Edge>
      requires Valid() && Known(tid)
      ensures forall e :: e in Edges(tid) ==> Known(e.target)
    {
      AttributeEdgesKnown(types[tid].attributes);
      ChildEdgesKnown(tid, |types|);
      AggregateEdgesKnown(aggregates, tid);
      AttributeEdges(types[tid].attributes) + ChildEdges(tid, |types|) + AggregateEdges(aggregates, tid)
    }

    lemma {:induction false} AttributeEdgesKnown(attributes: seq<Attribute>)
      requires forall a :: a in attributes ==> AttributeKnown(a)
      ensures forall e :: e in AttributeEdges(attributes) ==> Known(e.target)
    {
      if attributes != [] {
        assert AttributeKnown(attributes[|attributes| - 1]);
        AttributeEdgesKnown(attributes[..|attributes| - 1]);
      }
    }

    lemma {:induction false} ChildEdgesKnown(tid: TypeId, k: nat)
      requires k <= |types|
      ensures forall e :: e in ChildEdges(tid, k) ==> Known(e.target)
    {
      if k > 0 { ChildEdgesKnown(tid, k - 1); }
    }

    lemma {:induction false} AggregateEdgesKnown(pairs: seq<(TypeId, TypeId)>, tid: TypeId)
      requires forall p :: p in pairs ==> Known(p.0) && Known(p.1)
      ensures forall e :: e in AggregateEdges(pairs, tid) ==> Known(e.target)
    {
      if pairs != [] { AggregateEdgesKnown(pairs[..|pairs| - 1], tid); }
    }
  }

  // ---------------------------------------------------------------- walks

  /** A walk is given by the position of each edge it takes among the edges of its type. */
  type Walk = seq<nat>

  predicate IsWalk(w: World, tid: TypeId, walk: Walk)
    requires w.Valid() && w.Known(tid)
    decreases |walk|
  {
    walk == [] || (walk[0] < |w.Edges(tid)| && IsWalk(w, w.Edges(tid)[walk[0]].target, walk[1..]))
  }

  function End(w: World, tid: TypeId, walk: Walk): TypeId
    requires w.Valid() && w.Known(tid) && IsWalk(w, tid, walk)
    decreases |walk|
  {
    if walk == [] then tid else End(w, w.Edges(tid)[walk[0]].target, walk[1..])
  }

  function Labels(w: World, tid: TypeId, walk: Walk): seq<string>
    requires w.Valid() && w.Known(tid) && IsWalk(w, tid, walk)
    decreases |walk|
  {
    if walk == [] then [] else
    var e := w.Edges(tid)[walk[0]];
    [e.segment] + Labels(w, e.target, walk[1..])
  }

  /** The types a walk visits, from its start to its end. */
  function Nodes(w: World, tid: TypeId, walk: Walk): seq<TypeId>
    requires w.Valid() && w.Known(tid) && IsWalk(w, tid, walk)
    decreases |walk|
  {
    if walk == [] then [tid] else [tid] + Nodes(w, w.Edges(tid)[walk[0]].target, walk[1..])
  }

  /** A walk that visits no type twice. */
  ghost predicate SimpleWalk(w: World, tid: TypeId, walk: Walk)
    requires w.Valid() && w.Known(tid)
  {
    IsWalk(w, tid, walk) && NoRepeats(Nodes(w, tid, walk))
  }

  /** Depth-first pre-order: a walk precedes its extensions and those that branch off later. */
  predicate Precedes(a: Walk, b: Walk) {
    b != [] && (a == [] || a[0] < b[0] || (a[0] == b[0] && Precedes(a[1..], b[1..])))
  }

  // ---------------------------------------------------------------- the search

  function Free(w: World, processed: seq<TypeId>): set<TypeId> {
    set t: TypeId | t < |w.types| && t !in processed
  }

  function Prefixed(first: nat, walks: seq<Walk>): seq<Walk> {
    seq(|walks|, k requires 0 <= k < |walks| => [first] + walks[k])
  }

  /** The walks that the search reports from tid when it came through `processed`. */
  function Walks(w: World, processed: seq<TypeId>, tid: TypeId): seq<Walk>
    requires w.Valid() && w.Known(tid)
    decreases Free(w, processed), 1, 0
  {
    if tid in processed then [] else [[]] + WalksVia(w, processed, tid, |w.Edges(tid)|)
  }

  /** Those of them that leave tid by one of its first k edges. */
  function WalksVia(w: World, processed: seq<TypeId>, tid: TypeId, k: nat): seq<Walk>
    requires w.Valid() && w.Known(tid) && tid !in processed && k <= |w.Edges(tid)|
    decreases Free(w, processed), 0, k
  {
    if k == 0 then [] else
    Shrinks(w, processed, tid);
    WalksVia(w, processed, tid, k - 1)
    + Prefixed(k - 1, Walks(w, processed + [tid], w.Edges(tid)[k - 1].target))
  }

  lemma Shrinks(w: World, processed: seq<TypeId>, tid: TypeId)
    requires w.Known(tid) && tid !in processed
    ensures Free(w, processed + [tid]) < Free(w, processed)
  {
    assert tid in Free(w, processed) && tid !in Free(w, processed + [tid]);
  }

  // ---------------------------------------------------------------- what the search reports

  lemma InPrefixed(first: nat, walks: seq<Walk>, walk: Walk)
    ensures walk in Prefixed(first, walks) <==> walk != [] && walk[0] == first && walk[1..] in walks
  {
    if walk != [] && walk[0] == first && walk[1..] in walks {
      var k :| 0 <= k < |walks| && walks[k] == walk[1..];
      assert Prefixed(first, walks)[k] == walk;
    }
  }

  lemma {:induction false} InWalksVia(w: World, processed: seq<TypeId>, tid: TypeId, k: nat, walk: Walk)
    requires w.Valid() && w.Known(tid) && tid !in processed && k <= |w.Edges(tid)|
    ensures walk in WalksVia(w, processed, tid, k) <==>
            && walk != [] && walk[0] < k
            && walk[1..] in Walks(w, processed + [tid], w.Edges(tid)[walk[0]].target)
    decreases k
  {
    if k > 0 {
      InWalksVia(w, processed, tid, k - 1, walk);
      InPrefixed(k - 1, Walks(w, processed + [tid], w.Edges(tid)[k - 1].target), walk);
    }
  }

  ghost predicate Avoids(nodes: seq<TypeId>, processed: seq<TypeId>) {
    forall n :: n in nodes ==> n !in processed
  }

  lemma AvoidsCons(x: TypeId, s: seq<TypeId>, processed: seq<TypeId>)
    requires x !in processed
    ensures Avoids([x] + s, processed) <==> Avoids(s, processed)
    ensures Avoids(s, processed + [x]) <==> Avoids(s, processed) && x !in s
  {
    if Avoids([x] + s, processed) {
      forall n | n in s ensures n !in processed {
        assert n in [x] + s;
      }
    }
    if Avoids(s, processed + [x]) {
      forall n | n in s ensures n !in processed && n != x {
        assert n !in processed + [x];
      }
    }
  }

  /** The search reports exactly the simple walks that avoid the types it came through. */
  lemma {:induction false} ReportsSimpleWalks(w: World, processed: seq<TypeId>, tid: TypeId, walk: Walk)
    requires w.Valid() && w.Known(tid)
    ensures walk in Walks(w, processed, tid) <==>
            SimpleWalk(w, tid, walk) && Avoids(Nodes(w, tid, walk), processed)
    decreases |walk|
  {
    if tid in processed {
      assert IsWalk(w, tid, walk) ==> Nodes(w, tid, walk)[0] == tid;
    } else if walk != [] {
      InWalksVia(w, processed, tid, |w.Edges(tid)|, walk);
      if walk[0] < |w.Edges(tid)| {
        var next := w.Edges(tid)[walk[0]].target;
        ReportsSimpleWalks(w, processed + [tid], next, walk[1..]);
        if IsWalk(w, next, walk[1..]) {
          var nodes := Nodes(w, next, walk[1..]);
          NoRepeatsCons(tid, nodes);
          AvoidsCons(tid, nodes, processed);
          assert Nodes(w, tid, walk) == [tid] + nodes;
        }
      }
    }
  }

  ghost predicate InOrder(walks: seq<Walk>) {
    forall i, j :: 0 <= i < j < |walks| ==> Precedes(walks[i], walks[j])
  }

  /** The walks come in depth-first pre-order, in particular each of them once. */
  lemma {:induction false} ReportsInOrder(w: World, processed: seq<TypeId>, tid: TypeId)
    requires w.Valid() && w.Known(tid)
    ensures InOrder(Walks(w, processed, tid))
    decreases Free(w, processed), 1, 0
  {
    if tid !in processed {
      ViaInOrder(w, processed, tid, |w.Edges(tid)|);
    }
  }

  lemma {:induction false} ViaInOrder(w: World, processed: seq<TypeId>, tid: TypeId, k: nat)
    requires w.Valid() && w.Known(tid) && tid !in processed && k <= |w.Edges(tid)|
    ensures InOrder(WalksVia(w, processed, tid, k))
    ensures forall walk :: walk in WalksVia(w, processed, tid, k) ==> walk != [] && walk[0] < k
    decreases Free(w, processed), 0, k
  {
    if k > 0 {
      ViaInOrder(w, processed, tid, k - 1);
      Shrinks(w, processed, tid);
      var inner := Walks(w, processed + [tid], w.Edges(tid)[k - 1].target);
      ReportsInOrder(w, processed + [tid], w.Edges(tid)[k - 1].target);
      PrefixedInOrder(k - 1, inner);
    }
  }

  lemma PrefixedInOrder(first: nat, walks: seq<Walk>)
    requires InOrder(walks)
    ensures InOrder(Prefixed(first, walks))
  {
    var ps := Prefixed(first, walks);
    forall i, j | 0 <= i < j < |ps| ensures Precedes(ps[i], ps[j]) {
      assert ps[i][1..] == walks[i] && ps[j][1..] == walks[j];
    }
  }

  lemma {:induction false} PrecedesIsStrict(a: Walk, b: Walk)
    requires Precedes(a, b)
    ensures a != b && !Precedes(b, a)
    decreases |a|
  {
    if a != [] && a[0] == b[0] { PrecedesIsStrict(a[1..], b[1..]); }
  }
}
