/**
  Paths that are recorded more than once.  The comment on Uniquefy promises a container
  of unique elements, but it works on a copy, so what the search finds twice stays in
  the output twice.  Here is when that happens.
 */
module ConfigPathsRepeats {
  import opened Sequences
  import opened ConfigPaths
  import opened StaticInformations

  // ---------------------------------------------------------------- names

  /** An attribute name that can be told from a type segment and from an index. */
  predicate PlainName(s: string) {
    '/' !in s && s != "[i]" && (s != "" ==> s[0] != '$')
  }

  /** Type names are distinct, and so are the attribute names of each type. */
  ghost predicate WellNamed(w: World) {
    && (forall t, u :: 0 <= t < u < |w.types| ==> w.types[t].name != w.types[u].name)
    && (forall t :: 0 <= t < |w.types| ==> '/' !in w.types[t].name && WellNamedAttributes(w.types[t].attributes))
  }

  ghost predicate WellNamedAttributes(attributes: seq<Attribute>) {
    && (forall i, j :: 0 <= i < j < |attributes| ==> attributes[i].name != attributes[j].name)
    && (forall i :: 0 <= i < |attributes| ==> PlainName(attributes[i].name))
  }

  /** A segment ends in an index or has no slash in it. */
  ghost predicate WellFormed(segment: string) {
    ('/' !in segment && segment != "[i]") || exists name :: segment == name + "/[i]" && '/' !in name
  }

  /** Where an edge out of a type comes from. */
  ghost predicate FromAttribute(w: World, a: Attribute, e: Edge) {
    w.AttributeEdge(a) == [e]
  }

  lemma {:induction false} OriginOfAttributeEdge(w: World, attributes: seq<Attribute>, e: Edge)
    requires e in w.AttributeEdges(attributes)
    ensures exists a :: a in attributes && FromAttribute(w, a, e)
  {
    var front, last := attributes[..|attributes| - 1], attributes[|attributes| - 1];
    if e in w.AttributeEdges(front) {
      OriginOfAttributeEdge(w, front, e);
    } else {
      assert e in w.AttributeEdge(last);
      assert FromAttribute(w, last, e);
    }
  }

  lemma {:induction false} OriginOfChildEdge(w: World, tid: TypeId, k: nat, e: Edge)
    requires k <= |w.types| && e in w.ChildEdges(tid, k)
    ensures w.Known(e.target) && e == w.TypeEdge(e.target)
  {
    if e in w.ChildEdges(tid, k - 1) { OriginOfChildEdge(w, tid, k - 1, e); }
  }

  lemma {:induction false} OriginOfAggregateEdge(w: World, pairs: seq<(TypeId, TypeId)>, tid: TypeId, e: Edge)
    requires (forall p :: p in pairs ==> w.Known(p.0) && w.Known(p.1)) && e in w.AggregateEdges(pairs, tid)
    ensures w.Known(e.target) && e == w.TypeEdge(e.target)
  {
    if e in w.AggregateEdges(pairs[..|pairs| - 1], tid) {
      OriginOfAggregateEdge(w, pairs[..|pairs| - 1], tid, e);
    }
  }

  lemma OriginOfEdge(w: World, tid: TypeId, e: Edge)
    requires w.Valid() && w.Known(tid) && e in w.Edges(tid)
    ensures (w.Known(e.target) && e == w.TypeEdge(e.target)) ||
            (exists a :: a in w.types[tid].attributes && FromAttribute(w, a, e))
  {
    if e in w.AttributeEdges(w.types[tid].attributes) {
      OriginOfAttributeEdge(w, w.types[tid].attributes, e);
    } else if e in w.ChildEdges(tid, |w.types|) {
      OriginOfChildEdge(w, tid, |w.types|, e);
    } else {
      OriginOfAggregateEdge(w, w.aggregates, tid, e);
    }
  }

  lemma AttributeSegment(w: World, a: Attribute, e: Edge)
    requires FromAttribute(w, a, e) && PlainName(a.name)
    ensures WellFormed(e.segment)
    ensures e.segment == (if a.Pointer? then a.name else a.name + "/[i]")
    ensures e.segment == "" || e.segment[0] != '$'
  {
  }

  /** Attributes whose segments are the same have the same name. */
  lemma SegmentIsName(a: Attribute, b: Attribute)
    requires PlainName(a.name) && PlainName(b.name)
    requires (if a.Pointer? then a.name else a.name + "/[i]") == (if b.Pointer? then b.name else b.name + "/[i]")
    ensures a.name == b.name
  {
    var s, t := a.name + "/[i]", b.name + "/[i]";
    assert s[|a.name|] == '/' && t[|b.name|] == '/';
    assert s[..|s| - 4] == a.name && t[..|t| - 4] == b.name;
  }

  lemma SameAttribute(attributes: seq<Attribute>, a: Attribute, b: Attribute)
    requires WellNamedAttributes(attributes) && a in attributes && b in attributes && a.name == b.name
    ensures a == b && PlainName(a.name)
  {
    var i :| 0 <= i < |attributes| && attributes[i] == a;
    var j :| 0 <= j < |attributes| && attributes[j] == b;
  }

  lemma SegmentIsAttribute(w: World, attributes: seq<Attribute>, a: Attribute, e: Edge, b: Attribute, f: Edge)
    requires WellNamedAttributes(attributes) && a in attributes && b in attributes
    requires FromAttribute(w, a, e) && FromAttribute(w, b, f) && e.segment == f.segment
    ensures e == f
  {
    SameAttribute(attributes, a, a);
    SameAttribute(attributes, b, b);
    AttributeSegment(w, a, e);
    AttributeSegment(w, b, f);
    SegmentIsName(a, b);
    SameAttribute(attributes, a, b);
  }

  lemma SegmentIsType(w: World, e: Edge, f: Edge)
    requires WellNamed(w) && w.Known(e.target) && w.Known(f.target)
    requires e == w.TypeEdge(e.target) && f == w.TypeEdge(f.target) && e.segment == f.segment
    ensures e == f
  {
    assert w.types[e.target].name == ("$" + w.types[e.target].name)[1..];
    assert w.types[f.target].name == ("$" + w.types[f.target].name)[1..];
  }

  lemma SegmentWellFormed(w: World, tid: TypeId, e: Edge)
    requires w.Valid() && WellNamed(w) && w.Known(tid) && e in w.Edges(tid)
    ensures WellFormed(e.segment)
    ensures (exists a :: a in w.types[tid].attributes && FromAttribute(w, a, e)) ==>
              e.segment == "" || e.segment[0] != '$'
  {
    OriginOfEdge(w, tid, e);
    if a :| a in w.types[tid].attributes && FromAttribute(w, a, e) {
      SameAttribute(w.types[tid].attributes, a, a);
      AttributeSegment(w, a, e);
    } else {
      assert e.segment[0] == '$' && e.segment[1..] == w.types[e.target].name;
      assert e.segment == "$" + e.segment[1..];
    }
  }

  /** On well-named types the edges out of a type are told apart by their segments. */
  lemma SegmentIsEdge(w: World, tid: TypeId, e: Edge, f: Edge)
    requires w.Valid() && WellNamed(w) && w.Known(tid) && e in w.Edges(tid) && f in w.Edges(tid)
    requires e.segment == f.segment
    ensures e == f
  {
    OriginOfEdge(w, tid, e);
    OriginOfEdge(w, tid, f);
    SegmentWellFormed(w, tid, e);
    SegmentWellFormed(w, tid, f);
    var attributes := w.types[tid].attributes;
    if && (exists a :: a in attributes && FromAttribute(w, a, e))
       && (exists b :: b in attributes && FromAttribute(w, b, f)) {
      var a :| a in attributes && FromAttribute(w, a, e);
      var b :| b in attributes && FromAttribute(w, b, f);
      SegmentIsAttribute(w, attributes, a, e, b, f);
    } else {
      SegmentIsType(w, e, f);
    }
  }

  // ---------------------------------------------------------------- printed paths

  lemma AfterSlash(p: string, x: string)
    requires '/' !in x
    ensures forall k :: |p| < k < |p + "/" + x| ==> (p + "/" + x)[k] != '/'
  {
    forall k | |p| < k < |p + "/" + x| ensures (p + "/" + x)[k] != '/' {
      assert (p + "/" + x)[k] == x[k - |p| - 1];
    }
  }

  lemma LastSlash(p: string, x: string, q: string, y: string)
    requires p + "/" + x == q + "/" + y && '/' !in x && '/' !in y
    ensures p == q && x == y
  {
    var s, t := p + "/" + x, q + "/" + y;
    AfterSlash(p, x);
    AfterSlash(q, y);
    assert s[|p|] == '/' && t[|q|] == '/';
    assert s[..|p|] == p && t[..|q|] == q && s[|p| + 1..] == x && t[|q| + 1..] == y;
  }

  lemma LastSegment(p: string, x: string, q: string, y: string)
    requires p + "/" + x == q + "/" + y && WellFormed(x) && WellFormed(y)
    ensures p == q && x == y
  {
    var u, m := SplitIndex(p, x);
    var v, n := SplitIndex(q, y);
    LastSlash(u, m, v, n);
    if m == "[i]" {
      LastSlash(p, x[..|x| - 4], q, y[..|y| - 4]);
      assert x == x[..|x| - 4] + "/[i]" && y == y[..|y| - 4] + "/[i]";
    }
  }

  /** What stands before and behind the last slash of a path. */
  lemma SplitIndex(p: string, x: string) returns (before: string, last: string)
    requires WellFormed(x)
    ensures p + "/" + x == before + "/" + last && '/' !in last
    ensures last != "[i]" ==> before == p && last == x
    ensures last == "[i]" ==>
              |x| >= 4 && before == p + "/" + x[..|x| - 4] && x == x[..|x| - 4] + "/[i]" && '/' !in x[..|x| - 4]
  {
    if '/' !in x && x != "[i]" {
      return p, x;
    }
    var name :| x == name + "/[i]" && '/' !in name;
    assert x[..|x| - 4] == name;
    before, last := p + "/" + name, "[i]";
    assert before + "/" + last == p + "/" + x;
  }

  /** Well-formed segments can be read off the printed path. */
  lemma {:induction false} PathStringInjective(a: seq<string>, b: seq<string>)
    requires PathString(a) == PathString(b)
    requires forall s :: s in a ==> WellFormed(s)
    requires forall s :: s in b ==> WellFormed(s)
    ensures a == b
    decreases |a|
  {
    if a != [] && b != [] {
      var x, y := a[|a| - 1], b[|b| - 1];
      LastSegment(PathString(a[..|a| - 1]), x, PathString(b[..|b| - 1]), y);
      PathStringInjective(a[..|a| - 1], b[..|b| - 1]);
      assert a == a[..|a| - 1] + [x] && b == b[..|b| - 1] + [y];
    }
  }

  // ---------------------------------------------------------------- along a walk

  /** The edges that lead on from the end of a walk. */
  function EdgesOn(w: World, r: TypeId, walk: Walk): seq<Edge>
    requires w.Valid() && w.Known(r) && IsWalk(w, r, walk)
  {
    EndKnown(w, r, walk);
    w.Edges(End(w, r, walk))
  }

  lemma {:induction false} EndKnown(w: World, r: TypeId, walk: Walk)
    requires w.Valid() && w.Known(r) && IsWalk(w, r, walk)
    ensures w.Known(End(w, r, walk))
    decreases |walk|
  {
    if walk != [] { EndKnown(w, w.Edges(r)[walk[0]].target, walk[1..]); }
  }

  /** The k-th step of a walk. */
  lemma {:induction false} StepOf(w: World, r: TypeId, walk: Walk, k: nat)
    requires w.Valid() && w.Known(r) && IsWalk(w, r, walk) && k <= |walk|
    ensures |Nodes(w, r, walk)| == |walk| + 1 && |Labels(w, r, walk)| == |walk|
    ensures w.Known(Nodes(w, r, walk)[k])
    ensures k < |walk| ==>
              && walk[k] < |w.Edges(Nodes(w, r, walk)[k])|
              && var e := w.Edges(Nodes(w, r, walk)[k])[walk[k]];
                 e.target == Nodes(w, r, walk)[k + 1] && e.segment == Labels(w, r, walk)[k]
    decreases |walk|
  {
    if walk != [] {
      StepOf(w, w.Edges(r)[walk[0]].target, walk[1..], if k > 0 then k - 1 else 0);
    }
  }

  /** The first part of a walk. */
  lemma {:induction false} WalkUpTo(w: World, r: TypeId, front: Walk, rest: Walk)
    requires w.Valid() && w.Known(r) && IsWalk(w, r, front + rest)
    ensures IsWalk(w, r, front) && |Nodes(w, r, front)| == |front| + 1
    ensures Nodes(w, r, front) <= Nodes(w, r, front + rest)
    ensures End(w, r, front) == Nodes(w, r, front)[|front|]
    decreases |front|
  {
    if front == [] {
      assert front + rest == rest;
    } else {
      assert (front + rest)[1..] == front[1..] + rest;
      WalkUpTo(w, w.Edges(r)[front[0]].target, front[1..], rest);
    }
  }

  lemma {:induction false} OneStepMore(w: World, r: TypeId, walk: Walk, i: nat)
    requires w.Valid() && w.Known(r) && IsWalk(w, r, walk) && i < |EdgesOn(w, r, walk)|
    ensures var e := EdgesOn(w, r, walk)[i];
            && IsWalk(w, r, walk + [i]) && End(w, r, walk + [i]) == e.target
            && Nodes(w, r, walk + [i]) == Nodes(w, r, walk) + [e.target]
            && Labels(w, r, walk + [i]) == Labels(w, r, walk) + [e.segment]
    decreases |walk|
  {
    if walk == [] {
      assert [i][1..] == [];
    } else {
      OneStepMore(w, w.Edges(r)[walk[0]].target, walk[1..], i);
      assert (walk + [i])[1..] == walk[1..] + [i];
    }
  }

  lemma LabelsWellFormed(w: World, r: TypeId, walk: Walk)
    requires w.Valid() && WellNamed(w) && w.Known(r) && IsWalk(w, r, walk)
    ensures forall s :: s in Labels(w, r, walk) ==> WellFormed(s)
  {
    forall s | s in Labels(w, r, walk) ensures WellFormed(s) {
      StepOf(w, r, walk, 0);
      var k :| 0 <= k < |walk| && Labels(w, r, walk)[k] == s;
      StepOf(w, r, walk, k);
      var t := Nodes(w, r, walk)[k];
      SegmentWellFormed(w, t, w.Edges(t)[walk[k]]);
    }
  }

  // ---------------------------------------------------------------- repeats from one root

  /** Two equal edges lead on from the end of the walk to a type it has not visited. */
  predicate Doubled(w: World, r: TypeId, walk: Walk, i: nat, j: nat)
    requires w.Valid() && w.Known(r) && IsWalk(w, r, walk)
  {
    var edges := EdgesOn(w, r, walk);
    i < j < |edges| && edges[i] == edges[j] && edges[i].target !in Nodes(w, r, walk)
  }

  ghost predicate NothingDoubled(w: World, r: TypeId)
    requires w.Valid() && w.Known(r)
  {
    forall walk, i, j :: SimpleWalk(w, r, walk) ==> !Doubled(w, r, walk, i, j)
  }

  /** Two walks with the same labels part at two equal edges. */
  lemma WalksPart(w: World, r: TypeId, a: Walk, b: Walk)
    requires w.Valid() && WellNamed(w) && w.Known(r) && SimpleWalk(w, r, a) && SimpleWalk(w, r, b)
    requires a != b && Labels(w, r, a) == Labels(w, r, b)
    ensures !NothingDoubled(w, r)
  {
    StepOf(w, r, a, 0);
    StepOf(w, r, b, 0);
    var k := FirstDifference(a, b);
    if a[k] < b[k] {
      PartAt(w, r, a, b, k);
    } else {
      PartAt(w, r, b, a, k);
    }
  }

  lemma PartAt(w: World, r: TypeId, a: Walk, b: Walk, k: nat)
    requires w.Valid() && WellNamed(w) && w.Known(r) && SimpleWalk(w, r, a) && SimpleWalk(w, r, b)
    requires |Labels(w, r, a)| == |a| && |Labels(w, r, b)| == |b| && Labels(w, r, a) == Labels(w, r, b)
    requires k < |a| && k < |b| && a[..k] == b[..k] && a[k] < b[k]
    ensures SimpleWalk(w, r, a[..k]) && Doubled(w, r, a[..k], a[k], b[k])
  {
    LeadsOn(w, r, a, k);
    LeadsOn(w, r, b, k);
    EndKnown(w, r, a[..k]);
    var edges := EdgesOn(w, r, a[..k]);
    SegmentIsEdge(w, End(w, r, a[..k]), edges[a[k]], edges[b[k]]);
  }

  /** Each edge of a simple walk leads on to a type that the walk has not visited. */
  lemma LeadsOn(w: World, r: TypeId, walk: Walk, k: nat)
    requires w.Valid() && w.Known(r) && SimpleWalk(w, r, walk) && k < |walk|
    ensures SimpleWalk(w, r, walk[..k]) && walk[k] < |EdgesOn(w, r, walk[..k])|
    ensures var e := EdgesOn(w, r, walk[..k])[walk[k]];
            && e.target !in Nodes(w, r, walk[..k])
            && |Labels(w, r, walk)| == |walk| && e.segment == Labels(w, r, walk)[k]
  {
    StepOf(w, r, walk, k);
    assert walk == walk[..k] + walk[k..];
    WalkUpTo(w, r, walk[..k], walk[k..]);
    var nodes := Nodes(w, r, walk);
    assert Nodes(w, r, walk[..k]) == nodes[..k + 1];
    assert nodes[k + 1] !in nodes[..k + 1];
  }

  lemma {:induction false} FirstDifference(a: Walk, b: Walk) returns (k: nat)
    requires |a| == |b| && a != b
    ensures k < |a| && a[..k] == b[..k] && a[k] != b[k]
  {
    if a[0] != b[0] {
      k := 0;
    } else {
      assert a == [a[0]] + a[1..] && b == [b[0]] + b[1..];
      var rest := FirstDifference(a[1..], b[1..]);
      k := rest + 1;
      assert a[..k] == [a[0]] + a[1..][..rest] && b[..k] == [b[0]] + b[1..][..rest];
    }
  }

  /** Both ways round two equal edges are found, with the same record. */
  lemma DoubledIsFoundTwice(w: World, r: TypeId, walk: Walk, i: nat, j: nat)
    requires w.Valid() && w.Known(r) && SimpleWalk(w, r, walk) && Doubled(w, r, walk, i, j)
    ensures !NoRepeats(Found(w, [], [], r))
  {
    OneStepMore(w, r, walk, i);
    OneStepMore(w, r, walk, j);
    var a, b := walk + [i], walk + [j];
    assert a[|walk|] == i && b[|walk|] == j;
    ReportsSimpleWalks(w, [], r, a);
    ReportsSimpleWalks(w, [], r, b);
    var walks := Walks(w, [], r);
    var m :| 0 <= m < |walks| && walks[m] == a;
    var n :| 0 <= n < |walks| && walks[n] == b;
    assert Found(w, [], [], r)[m] == Found(w, [], [], r)[n];
  }

  lemma RecordAt(w: World, r: TypeId, k: nat)
    requires w.Valid() && w.Known(r) && k < |Found(w, [], [], r)|
    ensures k < |Walks(w, [], r)| && SimpleWalk(w, r, Walks(w, [], r)[k])
    ensures var walk := Walks(w, [], r)[k];
            Found(w, [], [], r)[k] == (End(w, r, walk), PathString(Labels(w, r, walk)))
  {
    var walk := Walks(w, [], r)[k];
    assert walk in Walks(w, [], r);
    ReportsSimpleWalks(w, [], r, walk);
    assert [] + Labels(w, r, walk) == Labels(w, r, walk);
  }

  /** From one root nothing is recorded twice exactly when no equal edges lead on from a simple walk. */
  lemma FoundOnceIff(w: World, r: TypeId)
    requires w.Valid() && WellNamed(w) && w.Known(r)
    ensures NoRepeats(Found(w, [], [], r)) <==> NothingDoubled(w, r)
  {
    if NothingDoubled(w, r) {
      var found := Found(w, [], [], r);
      forall i, j | 0 <= i < j < |found| ensures found[i] != found[j] {
        RecordAt(w, r, i);
        RecordAt(w, r, j);
        ReportsInOrder(w, [], r);
        var a, b := Walks(w, [], r)[i], Walks(w, [], r)[j];
        PrecedesIsStrict(a, b);
        if found[i] == found[j] {
          LabelsWellFormed(w, r, a);
          LabelsWellFormed(w, r, b);
          PathStringInjective(Labels(w, r, a), Labels(w, r, b));
          WalksPart(w, r, a, b);
        }
      }
    } else {
      var walk, i, j :| SimpleWalk(w, r, walk) && Doubled(w, r, walk, i, j);
      DoubledIsFoundTwice(w, r, walk, i, j);
    }
  }

  // ---------------------------------------------------------------- repeats from several roots

  /** Two roots lead to the same type by walks with the same labels. */
  ghost predicate Shared(w: World, r: TypeId, r': TypeId)
    requires w.Valid() && w.Known(r) && w.Known(r')
  {
    exists walk, walk' ::
      && SimpleWalk(w, r, walk) && SimpleWalk(w, r', walk')
      && End(w, r, walk) == End(w, r', walk') && Labels(w, r, walk) == Labels(w, r', walk')
  }

  ghost predicate Apart<T>(a: seq<T>, b: seq<T>) {
    forall x :: x in a ==> x !in b
  }

  /** Two roots have a record in common exactly when they share a path. */
  lemma CommonRecord(w: World, r: TypeId, r': TypeId)
    requires w.Valid() && WellNamed(w) && w.Known(r) && w.Known(r')
    ensures Shared(w, r, r') <==> !Apart(Found(w, [], [], r), Found(w, [], [], r'))
  {
    if Shared(w, r, r') {
      var walk, walk' :|
        && SimpleWalk(w, r, walk) && SimpleWalk(w, r', walk')
        && End(w, r, walk) == End(w, r', walk') && Labels(w, r, walk) == Labels(w, r', walk');
      RecordOf(w, r, walk);
      RecordOf(w, r', walk');
    }
    if x :| x in Found(w, [], [], r) && x in Found(w, [], [], r') {
      var i :| 0 <= i < |Found(w, [], [], r)| && Found(w, [], [], r)[i] == x;
      var j :| 0 <= j < |Found(w, [], [], r')| && Found(w, [], [], r')[j] == x;
      RecordAt(w, r, i);
      RecordAt(w, r', j);
      var a, b := Walks(w, [], r)[i], Walks(w, [], r')[j];
      LabelsWellFormed(w, r, a);
      LabelsWellFormed(w, r', b);
      PathStringInjective(Labels(w, r, a), Labels(w, r', b));
    }
  }

  lemma RecordOf(w: World, r: TypeId, walk: Walk)
    requires w.Valid() && w.Known(r) && SimpleWalk(w, r, walk)
    ensures (End(w, r, walk), PathString(Labels(w, r, walk))) in Found(w, [], [], r)
  {
    ReportsSimpleWalks(w, [], r, walk);
    var k :| 0 <= k < |Walks(w, [], r)| && Walks(w, [], r)[k] == walk;
    RecordAt(w, r, k);
    assert Found(w, [], [], r)[k] in Found(w, [], [], r);
  }

  lemma NoRepeatsConcat<T>(a: seq<T>, b: seq<T>)
    ensures NoRepeats(a + b) <==> NoRepeats(a) && NoRepeats(b) && Apart(a, b)
  {
    var s := a + b;
    if NoRepeats(s) {
      forall i, j | 0 <= i < j < |a| ensures a[i] != a[j] {
        assert s[i] != s[j];
      }
      forall i, j | 0 <= i < j < |b| ensures b[i] != b[j] {
        assert s[|a| + i] != s[|a| + j];
      }
      forall i, j | 0 <= i < |a| && 0 <= j < |b| ensures a[i] != b[j] {
        assert s[i] != s[|a| + j];
      }
    }
    if NoRepeats(a) && NoRepeats(b) && Apart(a, b) {
      forall i, j | 0 <= i < j < |s| ensures s[i] != s[j] {
        assert i < |a| ==> s[i] in a;
        assert j >= |a| ==> s[j] in b;
      }
    }
  }

  lemma ApartConcat<T>(a: seq<T>, a': seq<T>, b: seq<T>)
    ensures Apart(a + a', b) <==> Apart(a, b) && Apart(a', b)
  {
    if Apart(a + a', b) {
      forall x | x in a || x in a' ensures x !in b {
        assert x in a + a';
      }
    }
  }

  ghost predicate EachApart(w: World, roots: seq<TypeId>, b: seq<Record>)
    requires w.Valid() && forall r :: r in roots ==> w.Known(r)
  {
    forall p :: 0 <= p < |roots| ==> Apart(Found(w, [], [], roots[p]), b)
  }

  lemma EachApartStep(w: World, roots: seq<TypeId>, b: seq<Record>)
    requires w.Valid() && (forall r :: r in roots ==> w.Known(r)) && roots != []
    ensures var n := |roots| - 1;
            EachApart(w, roots, b) <==> EachApart(w, roots[..n], b) && Apart(Found(w, [], [], roots[n]), b)
  {
    var n := |roots| - 1;
    assert forall p :: 0 <= p < n ==> roots[..n][p] == roots[p];
  }

  lemma {:induction false} AllFoundApart(w: World, roots: seq<TypeId>, b: seq<Record>)
    requires w.Valid() && forall r :: r in roots ==> w.Known(r)
    ensures Apart(AllFound(w, roots), b) <==> EachApart(w, roots, b)
    decreases |roots|
  {
    if roots != [] {
      var n := |roots| - 1;
      AllFoundApart(w, roots[..n], b);
      EachApartStep(w, roots, b);
      ApartConcat(AllFound(w, roots[..n]), Found(w, [], [], roots[n]), b);
    }
  }

  /** The roots are searched without repeats, each for itself and one with the other. */
  ghost predicate NothingRepeated(w: World, roots: seq<TypeId>)
    requires w.Valid() && forall r :: r in roots ==> w.Known(r)
  {
    && (forall p :: 0 <= p < |roots| ==> NothingDoubled(w, roots[p]))
    && (forall p, q :: 0 <= p < q < |roots| ==> !Shared(w, roots[p], roots[q]))
  }

  /** The output has no repeats exactly when no root doubles an edge and no two share a path. */
  lemma {:induction false} OutputOnceIff(w: World, roots: seq<TypeId>)
    requires w.Valid() && WellNamed(w) && forall r :: r in roots ==> w.Known(r)
    ensures NoRepeats(AllFound(w, roots)) <==> NothingRepeated(w, roots)
  {
    if roots != [] {
      var n := |roots| - 1;
      var front, last := roots[..n], roots[n];
      OutputOnceIff(w, front);
      NoRepeatsConcat(AllFound(w, front), Found(w, [], [], last));
      FoundOnceIff(w, last);
      AllFoundApart(w, front, Found(w, [], [], last));
      forall p | 0 <= p < n
        ensures Shared(w, roots[p], last) <==> !Apart(Found(w, [], [], front[p]), Found(w, [], [], last))
      {
        CommonRecord(w, roots[p], last);
      }
      NothingRepeatedStep(w, roots);
    }
  }

  lemma NothingRepeatedStep(w: World, roots: seq<TypeId>)
    requires w.Valid() && (forall r :: r in roots ==> w.Known(r)) && roots != []
    ensures var n := |roots| - 1;
            NothingRepeated(w, roots) <==>
            && NothingRepeated(w, roots[..n]) && NothingDoubled(w, roots[n])
            && forall p :: 0 <= p < n ==> !Shared(w, roots[p], roots[n])
  {
    var n := |roots| - 1;
    var front := roots[..n];
    assert forall p :: 0 <= p < n ==> front[p] == roots[p];
  }

  /** What Get answers repeats for some type exactly when the output does. */
  lemma GetOnceIff(records: seq<Record>)
    ensures NoRepeats(records) <==> forall tid :: NoRepeats(PathsOf(records, tid))
  {
    if NoRepeats(records) {
      forall tid ensures NoRepeats(PathsOf(records, tid)) {
        OnceForEach(records, tid);
      }
    } else {
      var tid := RepeatedFor(records);
    }
  }

  lemma {:induction false} OnceForEach(records: seq<Record>, tid: TypeId)
    requires NoRepeats(records)
    ensures NoRepeats(PathsOf(records, tid))
  {
    if records != [] {
      var front, last := records[..|records| - 1], records[|records| - 1];
      assert NoRepeats(front) && last !in front;
      OnceForEach(front, tid);
      LastPath(records, tid);
      InPathsOf(front, last.0, last.1);
    }
  }

  lemma {:induction false} RepeatedFor(records: seq<Record>) returns (tid: TypeId)
    requires !NoRepeats(records)
    ensures !NoRepeats(PathsOf(records, tid))
  {
    var front, last := records[..|records| - 1], records[|records| - 1];
    if NoRepeats(front) {
      assert last in front;
      tid := last.0;
      InPathsOf(front, last.0, last.1);
    } else {
      tid := RepeatedFor(front);
    }
    LastPath(records, tid);
  }

  lemma LastPath(records: seq<Record>, tid: TypeId)
    requires records != []
    ensures var front, last := records[..|records| - 1], records[|records| - 1];
            NoRepeats(PathsOf(records, tid)) <==>
            NoRepeats(PathsOf(front, tid)) && (tid == last.0 ==> last.1 !in PathsOf(front, tid))
  {
    var front, last := records[..|records| - 1], records[|records| - 1];
    if tid == last.0 {
      NoRepeatsConcat(PathsOf(front, tid), [last.1]);
    } else {
      assert PathsOf(records, tid) == PathsOf(front, tid);
    }
  }

  lemma {:induction false} InPathsOf(records: seq<Record>, tid: TypeId, path: string)
    ensures path in PathsOf(records, tid) <==> (tid, path) in records
  {
    if records != [] {
      InPathsOf(records[..|records| - 1], tid, path);
      assert records == records[..|records| - 1] + [records[|records| - 1]];
    }
  }

  /** Get answers without repeats for all types exactly when no path is found twice. */
  lemma GetRepeatsIff(w: World, roots: seq<TypeId>)
    requires w.Valid() && WellNamed(w) && forall r :: r in roots ==> w.Known(r)
    ensures (forall tid :: NoRepeats(PathsOf(AllFound(w, roots), tid))) <==> NothingRepeated(w, roots)
  {
    OutputOnceIff(w, roots);
    GetOnceIff(AllFound(w, roots));
  }

  // ---------------------------------------------------------------- an aggregation recorded twice

  const OBJECT_TYPE := TypeInfo("ns3::Object", {}, [])
  const NODE_TYPE := TypeInfo("ns3::Node", {0}, [])
  const ICMP_TYPE := TypeInfo("ns3::Icmpv4L4Protocol", {0}, [])
  const TYPES := [OBJECT_TYPE, NODE_TYPE, ICMP_TYPE]
  const TWICE := World(TYPES, 0, [(1, 2), (1, 2)])
  const ICMP_PATH := "/" + ("$" + "ns3::Icmpv4L4Protocol")

  lemma EdgesOfTwice()
    ensures TWICE.Valid()
    ensures TWICE.Edges(1) == [TWICE.TypeEdge(2), TWICE.TypeEdge(2)]
    ensures TWICE.Edges(2) == [TWICE.TypeEdge(1), TWICE.TypeEdge(1)]
  {
    var w := TWICE;
    forall tid | tid == 1 || tid == 2 ensures w.ChildEdges(tid, 3) == [] {
      assert w.ChildEdges(tid, 0) == [] && w.ChildEdges(tid, 1) == [] && w.ChildEdges(tid, 2) == [];
    }
    var pairs := w.aggregates;
    assert pairs[..1] == [(1, 2)] && [(1, 2)][..0] == [];
    assert w.AggregateEdges([(1, 2)], 1) == [w.TypeEdge(2)] && w.AggregateEdges([(1, 2)], 2) == [w.TypeEdge(1)];
  }

  lemma PrefixedEmpty(first: nat)
    ensures Prefixed(first, [[]]) == [[first]]
  {
    var walk: Walk := [];
    assert [first] + walk == [first];
    assert Prefixed(first, [walk])[0] == [first];
  }

  lemma WalksOfTwice()
    ensures TWICE.Valid() && Walks(TWICE, [], 1) == [[], [0], [1]]
  {
    var w := TWICE;
    EdgesOfTwice();
    assert [] + [1] == [1];
    assert Walks(w, [1], 2) == [[]] by {
      assert Walks(w, [1] + [2], 1) == [];
      assert Prefixed(0, []) == [] && Prefixed(1, []) == [];
      assert WalksVia(w, [1], 2, 0) == [];
      assert WalksVia(w, [1], 2, 1) == [];
      assert WalksVia(w, [1], 2, 2) == [];
    }
    PrefixedEmpty(0);
    PrefixedEmpty(1);
    assert WalksVia(w, [], 1, 0) == [];
    assert WalksVia(w, [], 1, 1) == [[0]];
    assert WalksVia(w, [], 1, 2) == [[0], [1]];
  }

  lemma FoundOfTwice()
    ensures TWICE.Valid() && Found(TWICE, [], [], 1) == [(1, ""), (2, ICMP_PATH), (2, ICMP_PATH)]
  {
    EdgesOfTwice();
    WalksOfTwice();
    RecordAt(TWICE, 1, 0);
    RecordAt(TWICE, 1, 1);
    RecordAt(TWICE, 1, 2);
    OneStepMore(TWICE, 1, [], 0);
    OneStepMore(TWICE, 1, [], 1);
    assert [] + [0] == [0] && [] + [1] == [1];
    SingleSegment("$" + ICMP_TYPE.name);
  }

  lemma SingleSegment(segment: string)
    ensures PathString([] + [segment]) == "/" + segment && PathString([]) == ""
  {
    assert [segment][..0] == [];
    assert "" + "/" + segment == "/" + segment;
  }

  lemma PathsOfThree(path: string)
    ensures PathsOf([(1, ""), (2, path), (2, path)], 2) == [path, path]
  {
    var records: seq<Record> := [(1, ""), (2, path), (2, path)];
    assert records[..2] == [(1, ""), (2, path)];
    assert records[..2][..1] == [(1, "")];
    assert records[..2][..1][..0] == [];
    assert PathsOf(records[..2][..1], 2) == [] && PathsOf(records[..2], 2) == [path];
  }

  /** Get repeats the path of a type whose aggregation was recorded twice. */
  lemma RecordedTwiceIsListedTwice()
    ensures TWICE.Valid() && PathsOf(AllFound(TWICE, [1]), 2) == [ICMP_PATH, ICMP_PATH]
  {
    FoundOfTwice();
    PathsOfThree(ICMP_PATH);
    assert [1][..0] == [] && AllFound(TWICE, []) == [];
    assert AllFound(TWICE, [1]) == Found(TWICE, [], [], 1);
  }

  lemma NamesOfTypes()
    ensures forall t :: 0 <= t < |TYPES| ==>
              && (TYPES[t].name == "ns3::Node" <==> t == 1)
              && (TYPES[t].name == "ns3::Icmpv4L4Protocol" <==> t == 2)
  {
    assert "ns3::Object"[5] == 'O' && "ns3::Node"[5] == 'N' && "ns3::Icmpv4L4Protocol"[5] == 'I';
  }

  method RecordPair(info: StaticInformation)
    requires info.Valid() && info.types == TYPES
    modifies info`aggregates, info`noTids
    ensures info.Valid() && info.aggregates == old(info.aggregates) + [(1, 2)]
  {
    NamesOfTypes();
    assert TYPES[1].name == "ns3::Node" && TYPES[2].name == "ns3::Icmpv4L4Protocol";
    ghost var before := info.aggregates;
    info.RecordAggregationInfo("ns3::Node", "ns3::Icmpv4L4Protocol");
    assert info.aggregates == info.aggregates[..|before|] + [info.aggregates[|before|]];
  }

  /** The same through the class: Node and Icmpv4L4Protocol are aggregated twice, then Node is searched. */
  method AggregatedTwice(info: StaticInformation) returns (paths: seq<string>)
    requires info.Valid() && info.types == TYPES && info.objectType == 0
    requires info.aggregates == [] && info.output == [] && info.currentPath == [] && info.alreadyProcessed == []
    modifies info
    ensures paths == [ICMP_PATH, ICMP_PATH]
  {
    RecordPair(info);
    RecordPair(info);
    assert info.TheWorld() == TWICE;
    EdgesOfTwice();
    info.GatherAll([1]);
    RecordedTwiceIsListedTwice();
    assert info.output == AllFound(TWICE, [1]);
    paths := info.Get(2);
  }
}
