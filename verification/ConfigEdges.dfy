/**
  Which edges lead out of a type, and in which order: first the attributes, then the
  children, then the aggregations, each group as it is registered or recorded.
 */
module ConfigEdges {
  import opened Sequences
  import opened ConfigPaths
  import opened StaticInformations

  // ---------------------------------------------------------------- the three kinds of edges

  /** A pointer to another type than Object, and the items of a container, are followed. */
  predicate AttributeLeads(w: World, a: Attribute, e: Edge) {
    match a
    case Pointer(name, pointee) => pointee != w.objectType && e == Edge(name, pointee)
    case Container(name, item) => e == Edge(name + "/[i]", item)
    case Plain(_) => false
  }

  predicate Followed(w: World, a: Attribute) {
    a.Container? || (a.Pointer? && a.pointee != w.objectType)
  }

  predicate IsChild(w: World, tid: TypeId, child: TypeId) {
    child < |w.types| && child != tid && tid in w.types[child].ancestors
  }

  /** A segment that names a type. */
  predicate Names(w: World, e: Edge) {
    e.target < |w.types| && e.segment == "$" + w.types[e.target].name
  }

  predicate PairLeads(p: (TypeId, TypeId), tid: TypeId, target: TypeId) {
    p == (tid, target) || p == (target, tid)
  }

  ghost predicate Rising(ps: seq<nat>) {
    forall i, j :: 0 <= i < j < |ps| ==> ps[i] < ps[j]
  }

  /** The positions below n with a property, in order. */
  function Positions(n: nat, p: nat -> bool): seq<nat> {
    if n == 0 then [] else Positions(n - 1, p) + if p(n - 1) then [n - 1] else []
  }

  lemma {:induction false} PositionsAre(n: nat, p: nat -> bool)
    ensures Rising(Positions(n, p))
    ensures forall i: nat :: i in Positions(n, p) <==> i < n && p(i)
  {
    if n > 0 {
      PositionsAre(n - 1, p);
      var ps := Positions(n - 1, p);
      forall i | 0 <= i < |ps| ensures ps[i] < n - 1 {
        assert ps[i] in ps;
      }
    }
  }

  ghost function FollowedAt(w: World, attributes: seq<Attribute>): nat -> bool {
    (i: nat) => i < |attributes| && Followed(w, attributes[i])
  }

  lemma {:induction false} AttributesInOrder(w: World, attributes: seq<Attribute>, n: nat)
    requires n <= |attributes|
    ensures var ps, edges := Positions(n, FollowedAt(w, attributes)), w.AttributeEdges(attributes[..n]);
            |edges| == |ps| && forall k :: 0 <= k < |ps| ==>
                                 ps[k] < |attributes| && AttributeLeads(w, attributes[ps[k]], edges[k])
  {
    if n > 0 {
      AttributesInOrder(w, attributes, n - 1);
      assert attributes[..n][..n - 1] == attributes[..n - 1];
    }
  }

  ghost function ChildAt(w: World, tid: TypeId): nat -> bool {
    (t: nat) => IsChild(w, tid, t)
  }

  lemma {:induction false} ChildrenInOrder(w: World, tid: TypeId, n: nat)
    requires n <= |w.types|
    ensures var children, edges := Positions(n, ChildAt(w, tid)), w.ChildEdges(tid, n);
            |edges| == |children| && forall k :: 0 <= k < |children| ==>
                                       edges[k].target == children[k] && Names(w, edges[k])
  {
    if n > 0 { ChildrenInOrder(w, tid, n - 1); }
  }

  ghost function PairAt(pairs: seq<(TypeId, TypeId)>, tid: TypeId): nat -> bool {
    (i: nat) => i < |pairs| && (pairs[i].0 == tid || pairs[i].1 == tid)
  }

  lemma {:induction false} PairsInOrder(w: World, pairs: seq<(TypeId, TypeId)>, tid: TypeId, n: nat)
    requires n <= |pairs| && forall p :: p in pairs ==> w.Known(p.0) && w.Known(p.1)
    ensures var ps, edges := Positions(n, PairAt(pairs, tid)), w.AggregateEdges(pairs[..n], tid);
            |edges| == |ps| && forall k :: 0 <= k < |ps| ==>
                                 && ps[k] < |pairs| && PairLeads(pairs[ps[k]], tid, edges[k].target)
                                 && Names(w, edges[k])
  {
    if n > 0 {
      PairsInOrder(w, pairs, tid, n - 1);
      assert pairs[..n][..n - 1] == pairs[..n - 1];
    }
  }

  // ---------------------------------------------------------------- all edges

  /**
    The edges out of a type: one for each followed attribute, then one for each child,
    then one for each aggregation that the type takes part in, in the order of the
    attributes, of the registered types and of the recorded aggregations.
   */
  lemma EdgesInOrder(w: World, tid: TypeId)
      returns (byAttribute: seq<Edge>, byChild: seq<Edge>, byPair: seq<Edge>)
    requires w.Valid() && w.Known(tid)
    ensures w.Edges(tid) == byAttribute + byChild + byPair
    ensures exists ps :: AttributeGroup(w, w.types[tid].attributes, ps, byAttribute)
    ensures exists children :: ChildGroup(w, tid, children, byChild)
    ensures exists ps :: PairGroup(w, tid, ps, byPair)
  {
    byAttribute, byChild := w.AttributeEdges(w.types[tid].attributes), w.ChildEdges(tid, |w.types|);
    byPair := w.AggregateEdges(w.aggregates, tid);
    AttributeGroupIs(w, w.types[tid].attributes);
    ChildGroupIs(w, tid);
    PairGroupIs(w, tid);
  }

  /** One edge for each followed attribute, in the order of the attributes. */
  ghost predicate AttributeGroup(w: World, attributes: seq<Attribute>, ps: seq<nat>, edges: seq<Edge>) {
    && Rising(ps) && (forall i: nat :: i in ps <==> i < |attributes| && Followed(w, attributes[i]))
    && |ps| == |edges| && forall k :: 0 <= k < |ps| ==>
                            ps[k] < |attributes| && AttributeLeads(w, attributes[ps[k]], edges[k])
  }

  /** One edge for each child, in the order in which the types are registered. */
  ghost predicate ChildGroup(w: World, tid: TypeId, children: seq<nat>, edges: seq<Edge>) {
    && Rising(children) && (forall t: nat :: t in children <==> IsChild(w, tid, t))
    && |children| == |edges| && forall k :: 0 <= k < |children| ==>
                                  edges[k].target == children[k] && Names(w, edges[k])
  }

  /** One edge for each aggregation of the type, in the order in which they are recorded. */
  ghost predicate PairGroup(w: World, tid: TypeId, ps: seq<nat>, edges: seq<Edge>) {
    && Rising(ps)
    && (forall i: nat :: i in ps <==> i < |w.aggregates| && (w.aggregates[i].0 == tid || w.aggregates[i].1 == tid))
    && |ps| == |edges| && forall k :: 0 <= k < |ps| ==>
                            && ps[k] < |w.aggregates| && PairLeads(w.aggregates[ps[k]], tid, edges[k].target)
                            && Names(w, edges[k])
  }

  lemma AttributeGroupIs(w: World, attributes: seq<Attribute>)
    ensures AttributeGroup(w, attributes, Positions(|attributes|, FollowedAt(w, attributes)),
                           w.AttributeEdges(attributes))
  {
    assert attributes[..|attributes|] == attributes;
    AttributesInOrder(w, attributes, |attributes|);
    PositionsAre(|attributes|, FollowedAt(w, attributes));
  }

  lemma ChildGroupIs(w: World, tid: TypeId)
    ensures ChildGroup(w, tid, Positions(|w.types|, ChildAt(w, tid)), w.ChildEdges(tid, |w.types|))
  {
    ChildrenInOrder(w, tid, |w.types|);
    PositionsAre(|w.types|, ChildAt(w, tid));
  }

  lemma PairGroupIs(w: World, tid: TypeId)
    requires w.Valid()
    ensures PairGroup(w, tid, Positions(|w.aggregates|, PairAt(w.aggregates, tid)), w.AggregateEdges(w.aggregates, tid))
  {
    assert w.aggregates[..|w.aggregates|] == w.aggregates;
    PairsInOrder(w, w.aggregates, tid, |w.aggregates|);
    PositionsAre(|w.aggregates|, PairAt(w.aggregates, tid));
  }

  lemma {:induction false} AttributeEdgesAre(w: World, attributes: seq<Attribute>, e: Edge)
    ensures e in w.AttributeEdges(attributes) <==> exists a :: a in attributes && AttributeLeads(w, a, e)
  {
    if attributes != [] {
      var front, last := attributes[..|attributes| - 1], attributes[|attributes| - 1];
      AttributeEdgesAre(w, front, e);
      assert e in w.AttributeEdge(last) <==> AttributeLeads(w, last, e);
      assert forall a :: a in attributes <==> a in front || a == last;
    }
  }

  lemma {:induction false} ChildEdgesAre(w: World, tid: TypeId, n: nat, e: Edge)
    requires n <= |w.types|
    ensures e in w.ChildEdges(tid, n) <==> e.target < n && IsChild(w, tid, e.target) && Names(w, e)
  {
    if n > 0 { ChildEdgesAre(w, tid, n - 1, e); }
  }

  lemma {:induction false} AggregateEdgesAre(w: World, pairs: seq<(TypeId, TypeId)>, tid: TypeId, e: Edge)
    requires forall p :: p in pairs ==> w.Known(p.0) && w.Known(p.1)
    ensures e in w.AggregateEdges(pairs, tid) <==>
            (exists p :: p in pairs && PairLeads(p, tid, e.target)) && Names(w, e)
  {
    if pairs != [] {
      var front, last := pairs[..|pairs| - 1], pairs[|pairs| - 1];
      AggregateEdgesAre(w, front, tid, e);
      assert forall p :: p in pairs <==> p in front || p == last;
      if PairLeads(last, tid, e.target) {
        assert w.Other(last, tid) == e.target;
      }
    }
  }

  /** Which edges a type has. */
  lemma EdgesAre(w: World, tid: TypeId, e: Edge)
    requires w.Valid() && w.Known(tid)
    ensures e in w.Edges(tid) <==>
            || (exists a :: a in w.types[tid].attributes && AttributeLeads(w, a, e))
            || (IsChild(w, tid, e.target) && Names(w, e))
            || ((exists p :: p in w.aggregates && PairLeads(p, tid, e.target)) && Names(w, e))
  {
    AttributeEdgesAre(w, w.types[tid].attributes, e);
    ChildEdgesAre(w, tid, |w.types|, e);
    AggregateEdgesAre(w, w.aggregates, tid, e);
  }

  // ---------------------------------------------------------------- paths and their order

  /** A path is printed segment by segment, from the root on. */
  lemma {:induction false} PathStringOfConcat(a: seq<string>, b: seq<string>)
    ensures PathString(a + b) == PathString(a) + PathString(b)
    ensures forall segment :: PathString([segment]) == "/" + segment
    decreases |b|
  {
    forall segment ensures PathString([segment]) == "/" + segment {
      assert [segment][..0] == [];
    }
    if b == [] {
      assert a + b == a;
    } else {
      var front, last := b[..|b| - 1], b[|b| - 1];
      PathStringOfConcat(a, front);
      assert (a + b)[..|a + b| - 1] == a + front;
      Associative(PathString(a), PathString(front), "/" + last);
      assert PathString(a + front) + "/" + last == PathString(a) + (PathString(front) + ("/" + last));
    }
  }

  /** The walks agree on their first k steps, and then a takes the earlier edge. */
  predicate TurnsEarlier(a: Walk, b: Walk, k: nat) {
    k < |a| && k < |b| && a[..k] == b[..k] && a[k] < b[k]
  }

  lemma TurnsEarlierStep(a: Walk, b: Walk, k: nat)
    requires a != [] && b != [] && a[0] == b[0]
    ensures TurnsEarlier(a, b, k + 1) <==> TurnsEarlier(a[1..], b[1..], k)
  {
    if k < |a| - 1 && k < |b| - 1 {
      assert a[..k + 1] == [a[0]] + a[1..][..k] && b[..k + 1] == [b[0]] + b[1..][..k];
      assert a[1..][..k] == a[..k + 1][1..] && b[1..][..k] == b[..k + 1][1..];
    }
  }

  /** Pre-order: a walk comes before its extensions, and otherwise the first difference decides. */
  lemma {:induction false} PrecedesIff(a: Walk, b: Walk)
    ensures Precedes(a, b) <==> a < b || exists k: nat :: TurnsEarlier(a, b, k)
    decreases |a|
  {
    if a != [] && b != [] {
      assert a == [a[0]] + a[1..] && b == [b[0]] + b[1..];
      if a[0] == b[0] {
        PrecedesIff(a[1..], b[1..]);
        forall k: nat ensures TurnsEarlier(a, b, k + 1) <==> TurnsEarlier(a[1..], b[1..], k) {
          TurnsEarlierStep(a, b, k);
        }
        assert a < b <==> a[1..] < b[1..];
        if k: nat :| TurnsEarlier(a[1..], b[1..], k) {
          assert TurnsEarlier(a, b, k + 1);
        }
        if k: nat :| TurnsEarlier(a, b, k) {
          TurnsEarlierStep(a, b, k - 1);
        }
      } else {
        assert TurnsEarlier(a, b, 0) <==> a[0] < b[0];
        forall k: nat | k > 0 ensures !TurnsEarlier(a, b, k) {
          assert k < |a| && k < |b| ==> a[..k][0] == a[0] && b[..k][0] == b[0];
        }
      }
    }
  }
}
