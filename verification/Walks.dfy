/** Finite relations, walks and reachability: the reference notions that every
    graph algorithm of the project is measured against. */
module Walks {
  import opened Order

  datatype Arc = Arc(src: Id, dst: Id)

  type Rel = set<Arc>

  // A typed edge, as every graph of the repository stores it.
  datatype Edge = Edge(src: Id, dst: Id, kind: string)

  ghost function ArcsOf(edges: seq<Edge>): Rel {
    set e | e in edges :: Arc(e.src, e.dst)
  }

  // Every endpoint is a node, as the GraphML reader enforces.
  ghost predicate EdgesWithin(edges: seq<Edge>, nodes: seq<Id>) {
    forall e :: e in edges ==> e.src in nodes && e.dst in nodes
  }

  type Adjacency = map<Id, seq<Id>>

  // A Go map of slices: a missing key reads as the empty slice.
  function Succ(adj: Adjacency, v: Id): seq<Id> {
    if v in adj then adj[v] else []
  }

  ghost predicate Represents(adj: Adjacency, r: Rel, verts: set<Id>) {
    && (forall v, w :: w in Succ(adj, v) <==> Arc(v, w) in r)
    && (forall e :: e in r ==> e.src in verts && e.dst in verts)
  }

  ghost predicate Step(r: Rel, p: seq<Id>, i: int)
    requires 0 <= i < |p| - 1
  {
    Arc(p[i], p[i + 1]) in r
  }

  // Steps are looked at one at a time: the trigger keeps p[i + 1] from calling for p[i + 2].
  ghost predicate IsWalk(r: Rel, p: seq<Id>) {
    |p| > 0 && forall i {:trigger Step(r, p, i)} :: 0 <= i < |p| - 1 ==> Step(r, p, i)
  }

  ghost predicate WalkFromTo(r: Rel, p: seq<Id>, a: Id, b: Id) {
    IsWalk(r, p) && p[0] == a && p[|p| - 1] == b
  }

  ghost predicate Reach(r: Rel, a: Id, b: Id) {
    exists p :: WalkFromTo(r, p, a, b)
  }

  // At least one edge is taken.
  ghost predicate ReachPlus(r: Rel, a: Id, b: Id) {
    exists c :: Arc(a, c) in r && Reach(r, c, b)
  }

  ghost predicate Closed(r: Rel, s: set<Id>) {
    forall e :: e in r && e.src in s ==> e.dst in s
  }

  lemma ReachRefl(r: Rel, a: Id)
    ensures Reach(r, a, a)
  {
    assert WalkFromTo(r, [a], a, a);
  }

  lemma ReachTrans(r: Rel, a: Id, b: Id, c: Id)
    requires Reach(r, a, b) && Reach(r, b, c)
    ensures Reach(r, a, c)
  {
    var p :| WalkFromTo(r, p, a, b);
    var q :| WalkFromTo(r, q, b, c);
    var w := p + q[1..];
    forall i | 0 <= i < |w| - 1 ensures Step(r, w, i) {
      if i < |p| - 1 {
        assert Step(r, p, i);
      } else {
        assert Step(r, q, i - |p| + 1);
      }
    }
    assert WalkFromTo(r, w, a, c);
  }

  lemma ReachEdge(r: Rel, a: Id, b: Id)
    requires Arc(a, b) in r
    ensures Reach(r, a, b)
  {
    assert Step(r, [a, b], 0);
    assert WalkFromTo(r, [a, b], a, b);
  }

  lemma {:induction false} ReachClosed(r: Rel, s: set<Id>, a: Id, b: Id)
    requires Closed(r, s) && a in s && Reach(r, a, b)
    ensures b in s
  {
    var p :| WalkFromTo(r, p, a, b);
    var i := 0;
    while i < |p| - 1
      invariant 0 <= i < |p| && p[i] in s
    {
      assert Step(r, p, i);
      i := i + 1;
    }
  }

  lemma ReachMono(r: Rel, r': Rel, a: Id, b: Id)
    requires r <= r' && Reach(r, a, b)
    ensures Reach(r', a, b)
  {
    var p :| WalkFromTo(r, p, a, b);
    forall i | 0 <= i < |p| - 1 ensures Step(r', p, i) { assert Step(r, p, i); }
    assert WalkFromTo(r', p, a, b);
  }

  lemma ReachFirst(r: Rel, a: Id, b: Id)
    requires Reach(r, a, b)
    ensures a == b || ReachPlus(r, a, b)
  {
    var p :| WalkFromTo(r, p, a, b);
    if |p| > 1 {
      var q := p[1..];
      forall i | 0 <= i < |q| - 1 ensures Step(r, q, i) {
        assert Step(r, p, i + 1);
      }
      assert Step(r, p, 0);
      assert WalkFromTo(r, q, p[1], b);
      assert Arc(a, p[1]) in r;
    }
  }

  lemma ReachPlusTrans(r: Rel, a: Id, b: Id, c: Id)
    requires (Reach(r, a, b) && ReachPlus(r, b, c)) || (ReachPlus(r, a, b) && Reach(r, b, c))
    ensures ReachPlus(r, a, c)
  {
    if ReachPlus(r, a, b) && Reach(r, b, c) {
      var x :| Arc(a, x) in r && Reach(r, x, b);
      ReachTrans(r, x, b, c);
    } else if a != b {
      ReachFirst(r, a, b);
      var x :| Arc(a, x) in r && Reach(r, x, b);
      var y :| Arc(b, y) in r && Reach(r, y, c);
      ReachEdge(r, b, y);
      ReachTrans(r, b, y, c);
      ReachTrans(r, x, b, c);
    }
  }

  lemma ReachPlusReach(r: Rel, a: Id, b: Id)
    requires ReachPlus(r, a, b)
    ensures Reach(r, a, b)
  {
    var x :| Arc(a, x) in r && Reach(r, x, b);
    ReachEdge(r, a, x);
    ReachTrans(r, a, x, b);
  }

  // The last step of a walk with at least one step.
  lemma ReachLast(r: Rel, a: Id, b: Id) returns (x: Id)
    requires ReachPlus(r, a, b)
    ensures Reach(r, a, x) && Arc(x, b) in r
  {
    var c :| Arc(a, c) in r && Reach(r, c, b);
    var p :| WalkFromTo(r, p, c, b);
    x := a;
    ReachRefl(r, a);
    var i := 0;
    while i < |p| - 1
      invariant 0 <= i < |p| && Reach(r, a, x) && Arc(x, p[i]) in r
    {
      assert Step(r, p, i);
      ReachEdge(r, x, p[i]);
      ReachTrans(r, a, x, p[i]);
      x := p[i];
      i := i + 1;
    }
  }

  // Strong connectivity

  ghost predicate Mutual(r: Rel, a: Id, b: Id) {
    Reach(r, a, b) && Reach(r, b, a)
  }

  // c is a strongly connected component: mutually reachable, and maximal.
  ghost predicate IsScc(r: Rel, c: set<Id>) {
    && c != {}
    && (forall a, b :: a in c && b in c ==> Reach(r, a, b))
    && (forall a, b :: a in c && Mutual(r, a, b) ==> b in c)
  }

  // Two components that share a node are equal.
  lemma SameComponent(r: Rel, c: set<Id>, d: set<Id>, x: Id)
    requires IsScc(r, c) && IsScc(r, d) && x in c && x in d
    ensures c == d
  {
    forall y | y in c ensures y in d { assert Mutual(r, x, y); }
    forall y | y in d ensures y in c { assert Mutual(r, x, y); }
  }

  // Cycles. An edge from a node to itself is dropped by NoLoops.

  ghost predicate HasCycle(r: Rel) {
    exists a :: ReachPlus(r, a, a)
  }

  ghost function NoLoops(r: Rel): Rel {
    set e | e in r && e.src != e.dst
  }

  // A cycle in NoLoops(r) is the same thing as two distinct mutually reachable nodes.
  lemma CycleIffMutual(r: Rel)
    ensures HasCycle(NoLoops(r)) <==> exists a, b :: a != b && Mutual(r, a, b)
  {
    var n := NoLoops(r);
    if HasCycle(n) {
      var a :| ReachPlus(n, a, a);
      var c :| Arc(a, c) in n && Reach(n, c, a);
      ReachEdge(r, a, c);
      ReachMono(n, r, c, a);
      assert a != c && Mutual(r, a, c);
    }
    if exists a, b :: a != b && Mutual(r, a, b) {
      var a, b :| a != b && Mutual(r, a, b);
      ReachNoLoops(r, a, b);
      ReachNoLoops(r, b, a);
      ReachFirst(n, a, b);
      ReachPlusTrans(n, a, b, a);
    }
  }

  lemma ReachNoLoops(r: Rel, a: Id, b: Id)
    requires Reach(r, a, b)
    ensures Reach(NoLoops(r), a, b)
  {
    var n := NoLoops(r);
    var p :| WalkFromTo(r, p, a, b);
    ReachRefl(n, a);
    var i := 0;
    while i < |p| - 1
      invariant 0 <= i < |p| && Reach(n, a, p[i])
    {
      assert Step(r, p, i);
      if p[i] != p[i + 1] {
        ReachEdge(n, p[i], p[i + 1]);
        ReachTrans(n, a, p[i], p[i + 1]);
      }
      i := i + 1;
    }
  }
}
