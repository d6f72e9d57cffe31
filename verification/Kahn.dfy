/** Kahn's topological order, as `topoOrder` and `quotientAcyclic` run it. */
module Kahn {
  import opened Order
  import opened Walks
  import opened Scc
  import opened BatchOrder

  // Edges into w, loops aside, whose source is not done yet; parallel edges count.
  ghost function Pending(arcs: seq<Arc>, w: Id, done: set<Id>): nat {
    if arcs == [] then 0
    else
      var n := |arcs| - 1;
      var e := arcs[n];
      Pending(arcs[..n], w, done) + (if e.src != e.dst && e.dst == w && e.src !in done then 1 else 0)
  }

  // The adjacency list of v, loops aside, in edge order.
  ghost function Targets(arcs: seq<Arc>, v: Id): seq<Id> {
    if arcs == [] then []
    else
      var n := |arcs| - 1;
      var e := arcs[n];
      Targets(arcs[..n], v) + (if e.src != e.dst && e.src == v then [e.dst] else [])
  }

  lemma {:induction false} PendingStep(arcs: seq<Arc>, w: Id, done: set<Id>, v: Id)
    requires v !in done
    ensures Pending(arcs, w, done) == Pending(arcs, w, done + {v}) + multiset(Targets(arcs, v))[w]
  {
    if arcs != [] {
      PendingStep(arcs[..|arcs| - 1], w, done, v);
    }
  }

  lemma {:induction false} PendingZero(arcs: seq<Arc>, w: Id, done: set<Id>)
    ensures Pending(arcs, w, done) == 0 <==> forall e :: e in NoLoops(Elems(arcs)) && e.dst == w ==> e.src in done
  {
    if arcs != [] {
      var n := |arcs| - 1;
      PendingZero(arcs[..n], w, done);
      assert arcs == arcs[..n] + [arcs[n]];
      assert Elems(arcs) == Elems(arcs[..n]) + {arcs[n]};
    }
  }

  lemma {:induction false} TargetsElems(arcs: seq<Arc>, v: Id)
    ensures forall w :: w in Targets(arcs, v) <==> Arc(v, w) in NoLoops(Elems(arcs))
  {
    if arcs != [] {
      var n := |arcs| - 1;
      TargetsElems(arcs[..n], v);
      assert arcs == arcs[..n] + [arcs[n]];
      assert Elems(arcs) == Elems(arcs[..n]) + {arcs[n]};
    }
  }

  lemma Snoc(arcs: seq<Arc>, i: nat)
    requires i < |arcs|
    ensures forall w, done :: Pending(arcs[..i + 1], w, done) == Pending(arcs[..i], w, done)
              + (if arcs[i].src != arcs[i].dst && arcs[i].dst == w && arcs[i].src !in done then 1 else 0)
    ensures forall v :: Targets(arcs[..i + 1], v) == Targets(arcs[..i], v)
              + (if arcs[i].src != arcs[i].dst && arcs[i].src == v then [arcs[i].dst] else [])
  {
    assert arcs[..i + 1][..i] == arcs[..i];
  }

  ghost predicate Within(arcs: seq<Arc>, nodes: seq<Id>) {
    forall e :: e in arcs ==> e.src in nodes && e.dst in nodes
  }

  // The state of the drain between two nodes: in-degrees count the edges from nodes
  // not yet listed, and the nodes with none are those listed or queued.
  ghost predicate Draining(nodes: seq<Id>, arcs: seq<Arc>, order: seq<Id>, queue: seq<Id>, indeg: map<Id, int>) {
    && Distinct(order + queue)
    && (forall x :: x in order || x in queue ==> x in nodes)
    && (forall w :: w in nodes ==> w in indeg && indeg[w] == Pending(arcs, w, Elems(order)))
    && (forall w :: w in nodes ==> (indeg[w] == 0 <==> w in order || w in queue))
    && Forward(NoLoops(Elems(arcs)), order)
  }

  // Between two successors of v: `rest` is what is left of its adjacency list.
  ghost predicate Visiting(nodes: seq<Id>, arcs: seq<Arc>, order: seq<Id>, queue: seq<Id>, next: seq<Id>,
                           rest: seq<Id>, indeg: map<Id, int>) {
    && Distinct(order + queue + next)
    && (forall x :: x in order || x in queue || x in next ==> x in nodes)
    && (forall w :: w in rest ==> w in nodes)
    && (forall w :: w in nodes ==> w in indeg && indeg[w] == Pending(arcs, w, Elems(order)) + multiset(rest)[w])
    && (forall w :: w in nodes ==> (indeg[w] == 0 <==> w in order || w in queue || w in next))
    && Forward(NoLoops(Elems(arcs)), order)
  }

  lemma StartVisit(nodes: seq<Id>, arcs: seq<Arc>, order: seq<Id>, queue: seq<Id>, indeg: map<Id, int>)
    requires Within(arcs, nodes) && queue != []
    requires Draining(nodes, arcs, order, queue, indeg)
    ensures Visiting(nodes, arcs, order + [queue[0]], queue[1..], [], Targets(arcs, queue[0]), indeg)
  {
    var v := queue[0];
    var order', queue' := order + [v], queue[1..];
    assert order' + queue' + [] == order + queue;
    assert v == (order + queue)[|order|];
    assert v !in order by {
      forall i | 0 <= i < |order| ensures order[i] != v { assert order[i] == (order + queue)[i]; }
    }
    assert Elems(order') == Elems(order) + {v};
    TargetsElems(arcs, v);
    forall w | w in nodes
      ensures w in indeg && indeg[w] == Pending(arcs, w, Elems(order')) + multiset(Targets(arcs, v))[w]
    {
      PendingStep(arcs, w, Elems(order), v);
    }
    PendingZero(arcs, v, Elems(order));
    assert indeg[v] == 0;
    forall e, i {:trigger e in NoLoops(Elems(arcs)), order'[i]} |
        e in NoLoops(Elems(arcs)) && 0 <= i < |order'| && order'[i] == e.dst
      ensures e.src in order'[..i]
    {
      if i < |order| { assert order[i] == e.dst; assert order'[..i] == order[..i]; }
      else { assert order'[..i] == order; }
    }
    assert forall x :: x in queue' ==> x in queue;
    assert forall x :: x in queue ==> x == v || x in queue' by {
      forall x | x in queue ensures x == v || x in queue' {
        var i :| 0 <= i < |queue| && queue[i] == x;
        if i > 0 { assert queue'[i - 1] == x; }
      }
    }
  }

  lemma VisitNext(nodes: seq<Id>, arcs: seq<Arc>, order: seq<Id>, queue: seq<Id>, next: seq<Id>,
                  rest: seq<Id>, indeg: map<Id, int>)
    requires rest != [] && Visiting(nodes, arcs, order, queue, next, rest, indeg)
    ensures rest[0] in indeg
    ensures var w, k := rest[0], indeg[rest[0]] - 1;
            Visiting(nodes, arcs, order, queue, if k == 0 then next + [w] else next, rest[1..], indeg[w := k])
  {
    var w := rest[0];
    var k := indeg[w] - 1;
    assert rest == [w] + rest[1..];
    assert multiset(rest) == multiset{w} + multiset(rest[1..]);
    assert indeg[w] != 0;
    if k == 0 {
      var all, all' := order + queue + next, order + queue + (next + [w]);
      assert w !in all;
      assert all' == all + [w];
    }
  }

  lemma EndVisit(nodes: seq<Id>, arcs: seq<Arc>, order: seq<Id>, queue: seq<Id>, next: seq<Id>,
                 indeg: map<Id, int>, batch: seq<Id>)
    requires Visiting(nodes, arcs, order, queue, next, [], indeg)
    requires multiset(batch) == multiset(next)
    ensures Draining(nodes, arcs, order, queue + batch, indeg)
  {
    SameElems(next, batch);
    assert order + (queue + batch) == order + queue + batch;
    assert multiset(order + queue + batch) == multiset(order + queue + next);
    SameElems(order + queue + next, order + (queue + batch));
  }

  // ancestors: the nodes of s that reach x inside the relation.
  ghost function Ancestors(r: Rel, s: set<Id>, x: Id): set<Id> {
    set y | y in s && Reach(r, y, x)
  }

  lemma AncestorsShrink(r: Rel, s: set<Id>, p: Id, x: Id)
    requires x in s && Reach(r, p, x) && !Reach(r, x, p)
    ensures |Ancestors(r, s, p)| < |Ancestors(r, s, x)|
  {
    forall y {:trigger Reach(r, y, p)} | y in s && Reach(r, y, p) ensures Reach(r, y, x) {
      ReachTrans(r, y, p, x);
    }
    ReachRefl(r, x);
    assert x in Ancestors(r, s, x) && x !in Ancestors(r, s, p);
    SubsetCard(Ancestors(r, s, p), Ancestors(r, s, x));
  }

  // When every node of a finite set has a predecessor in the set, each is reached from
  // a cycle.
  // Each node of s has a predecessor in s.
  ghost predicate Sourced(r: Rel, s: set<Id>)
    { forall y {:trigger HasSource(r, s, y)} :: y in s ==> HasSource(r, s, y) }

  ghost predicate HasSource(r: Rel, s: set<Id>, y: Id) { exists e :: e in r && e.dst == y && e.src in s }

  lemma SomeSource(r: Rel, s: set<Id>, x: Id) returns (p: Id)
    requires Sourced(r, s) && x in s
    ensures Arc(p, x) in r && p in s
  {
    assert HasSource(r, s, x);
    var e :| e in r && e.dst == x && e.src in s;
    p := e.src;
  }

  lemma BackIsCycle(r: Rel, p: Id, x: Id)
    requires Arc(p, x) in r && Reach(r, x, p)
    ensures ReachPlus(r, x, x) && Reach(r, x, x)
  {
    ReachRefl(r, x);
    assert ReachPlus(r, p, x);
    ReachPlusTrans(r, x, p, x);
  }

  lemma {:induction false} NoSourceMeansCycle(r: Rel, s: set<Id>, x: Id) returns (c: Id)
    requires Sourced(r, s) && x in s
    ensures c in s && ReachPlus(r, c, c) && Reach(r, c, x)
    decreases |Ancestors(r, s, x)|
  {
    hide Reach, ReachPlus, Ancestors, Sourced;
    var p := SomeSource(r, s, x);
    ReachEdge(r, p, x);
    if Reach(r, x, p) {
      BackIsCycle(r, p, x);
      c := x;
    } else {
      AncestorsShrink(r, s, p, x);
      c := NoSourceMeansCycle(r, s, p);
      ReachTrans(r, c, p, x);
    }
  }

  // A listed node is not reached from any cycle: everything that reaches it is listed
  // no later than it.
  lemma {:induction false} ListedIsAcyclic(r: Rel, order: seq<Id>, i: nat, c: Id)
    requires Forward(r, order) && i < |order| && Reach(r, c, order[i])
    ensures !ReachPlus(r, c, c)
    decreases i
  {
    if ReachPlus(r, c, c) {
      var x := order[i];
      ReachPlusTrans(r, c, c, x);
      var p := ReachLast(r, c, x);
      assert p in order[..i];
      var j :| 0 <= j < i && order[..i][j] == p;
      ListedIsAcyclic(r, order, j, c);
    }
  }

  // What Kahn's algorithm promises: a topological order of exactly the nodes that no
  // cycle reaches.
  ghost predicate KahnOrder(nodes: seq<Id>, r: Rel, order: seq<Id>) {
    && Distinct(order)
    && (forall x :: x in order ==> x in nodes)
    && Forward(r, order)
    && (forall x :: x in nodes ==> (x in order <==> !exists c :: ReachPlus(r, c, c) && Reach(r, c, x)))
  }

  lemma DrainedIsKahn(nodes: seq<Id>, arcs: seq<Arc>, order: seq<Id>, indeg: map<Id, int>)
    requires Within(arcs, nodes) && Draining(nodes, arcs, order, [], indeg)
    ensures KahnOrder(nodes, NoLoops(Elems(arcs)), order)
  {
    var r := NoLoops(Elems(arcs));
    assert order + [] == order;
    var rest := set x | x in nodes && x !in order;
    forall y {:trigger HasSource(r, rest, y)} | y in rest ensures HasSource(r, rest, y) {
      PendingZero(arcs, y, Elems(order));
      var e :| e in r && e.dst == y && e.src !in Elems(order);
    }
    forall x | x in nodes
      ensures x in order <==> !exists c :: ReachPlus(r, c, c) && Reach(r, c, x)
    {
      if x in order {
        var i :| 0 <= i < |order| && order[i] == x;
        forall c | Reach(r, c, x) ensures !ReachPlus(r, c, c) { ListedIsAcyclic(r, order, i, c); }
      } else {
        var c := NoSourceMeansCycle(r, rest, x);
      }
    }
  }

  // The list is complete if and only if there is no cycle, loops aside.
  lemma KahnCompleteIff(nodes: seq<Id>, r: Rel, order: seq<Id>)
    requires Distinct(nodes) && KahnOrder(nodes, r, order)
    requires forall e :: e in r ==> e.src in nodes && e.dst in nodes
    ensures |order| == |nodes| <==> !HasCycle(r)
  {
    DistinctCard(order);
    DistinctCard(nodes);
    assert forall x :: x in Elems(order) ==> x in nodes;
    SubsetCard(Elems(order), Elems(nodes));
    if HasCycle(r) {
      var c :| ReachPlus(r, c, c);
      var d :| Arc(c, d) in r && Reach(r, d, c);
      ReachRefl(r, c);
      assert c in nodes && c !in order;
      assert c in Elems(nodes) && c !in Elems(order);
    } else {
      forall x | x in nodes ensures x in order { }
      assert Elems(order) == Elems(nodes);
    }
  }

  // In-degrees and adjacency lists, loops skipped.
  method Tabulate(nodes: seq<Id>, arcs: seq<Arc>) returns (indeg: map<Id, int>, adj: Adjacency)
    requires Within(arcs, nodes)
    ensures forall w :: w in nodes ==> w in indeg && indeg[w] == Pending(arcs, w, {})
    ensures forall v :: Succ(adj, v) == Targets(arcs, v)
  {
    hide Pending, Targets;
    indeg := ZeroDegrees(nodes);
    adj := map[];
    NoArcs();
    for i := 0 to |arcs|
      invariant forall w :: w in nodes ==> w in indeg && indeg[w] == Pending(arcs[..i], w, {})
      invariant forall v :: Succ(adj, v) == Targets(arcs[..i], v)
    {
      var e := arcs[i];
      Snoc(arcs, i);
      assert e in arcs;
      ghost var adj0 := adj;
      if e.src != e.dst {
        adj := adj[e.src := Succ(adj, e.src) + [e.dst]];
        indeg := indeg[e.dst := indeg[e.dst] + 1];
        assert forall v :: Succ(adj, v) == if v == e.src then Succ(adj0, v) + [e.dst] else Succ(adj0, v);
      }
    }
    assert arcs[..|arcs|] == arcs;
  }

  lemma NoArcs()
    ensures forall w :: Pending([], w, {}) == 0
    ensures forall v :: Targets([], v) == []
  {
  }

  method ZeroDegrees(nodes: seq<Id>) returns (indeg: map<Id, int>)
    ensures forall w :: w in nodes ==> w in indeg && indeg[w] == 0
  {
    indeg := map[];
    for i := 0 to |nodes|
      invariant forall j :: 0 <= j < i ==> nodes[j] in indeg && indeg[nodes[j]] == 0
    {
      indeg := indeg[nodes[i] := 0];
    }
  }

  method Sources(nodes: seq<Id>, arcs: seq<Arc>, indeg: map<Id, int>) returns (queue: seq<Id>)
    requires Distinct(nodes)
    requires forall w :: w in nodes ==> w in indeg && indeg[w] == Pending(arcs, w, {})
    ensures Draining(nodes, arcs, [], queue, indeg)
  {
    queue := [];
    for i := 0 to |nodes|
      invariant Distinct(queue)
      invariant forall x :: x in queue <==> x in nodes[..i] && x in indeg && indeg[x] == 0
    {
      assert nodes[..i + 1] == nodes[..i] + [nodes[i]];
      assert nodes[i] in nodes && nodes[i] !in nodes[..i];
      var w := nodes[i];
      assert w in nodes;
      if indeg[w] == 0 {
        queue := queue + [w];
      }
    }
    assert nodes[..|nodes|] == nodes;
    assert [] + queue == queue;
    assert Elems<Id>([]) == {};
  }

  function Batch(next: seq<Id>, sorted: bool): (r: seq<Id>)
    ensures multiset(r) == multiset(next)
  {
    if sorted then SortIds(next) else next
  }

  // The drain. sortBatches: topoOrder sorts each batch of new sources before queueing
  // it, quotientAcyclic does not.
  method Drain(nodes: seq<Id>, arcs: seq<Arc>, sortBatches: bool) returns (order: seq<Id>)
    requires Distinct(nodes) && Within(arcs, nodes)
    ensures KahnOrder(nodes, NoLoops(Elems(arcs)), order)
    ensures sortBatches ==> ByBatches(NoLoops(Elems(arcs)), order, [])
  {
    hide Draining, Visiting, KahnOrder, SortIds, Targets, ByBatches;
    ghost var r := NoLoops(Elems(arcs));
    var indeg, adj := Tabulate(nodes, arcs);
    var queue := Sources(nodes, arcs, indeg);
    if sortBatches {
      DrainingReorder(nodes, arcs, [], queue, indeg, SortIds(queue));
      queue := SortIds(queue);
      FirstBatch(nodes, arcs, queue, indeg);
    }
    order := [];
    while queue != []
      invariant Draining(nodes, arcs, order, queue, indeg)
      invariant sortBatches ==> ByBatches(r, order, queue)
      decreases |nodes| - |order|
    {
      ghost var order0, queue0, indeg0 := order, queue, indeg;
      StartVisit(nodes, arcs, order, queue, indeg);
      var v := queue[0];
      queue := queue[1..];
      order := order + [v];
      var next: seq<Id> := [];
      var ws := Succ(adj, v);
      assert ws[0..] == ws;
      for i := 0 to |ws|
        invariant Visiting(nodes, arcs, order, queue, next, ws[i..], indeg)
        invariant forall x :: x in next ==> x in ws
      {
        VisitNext(nodes, arcs, order, queue, next, ws[i..], indeg);
        assert ws[i..][1..] == ws[i + 1..];
        indeg := indeg[ws[i] := indeg[ws[i]] - 1];
        if indeg[ws[i]] == 0 {
          next := next + [ws[i]];
        }
      }
      assert ws[|ws|..] == [];
      var batch := Batch(next, sortBatches);
      OrderFits(nodes, arcs, order, queue, next, indeg);
      EndVisit(nodes, arcs, order, queue, next, indeg, batch);
      if sortBatches { SortedBatch(nodes, arcs, order0, queue0, indeg0, next, queue + batch, indeg); }
      queue := queue + batch;
    }
    DrainedIsKahn(nodes, arcs, order, indeg);
  }

  lemma FirstBatch(nodes: seq<Id>, arcs: seq<Arc>, queue: seq<Id>, indeg: map<Id, int>)
    requires Draining(nodes, arcs, [], queue, indeg) && SortedBy(queue, IdLe)
    ensures ByBatches(NoLoops(Elems(arcs)), [], queue)
  {
    assert [] + queue == queue;
    StartBatches(NoLoops(Elems(arcs)), queue);
  }

  lemma SortedBatch(nodes: seq<Id>, arcs: seq<Arc>, order: seq<Id>, queue: seq<Id>, indeg: map<Id, int>,
                    next: seq<Id>, queue': seq<Id>, indeg': map<Id, int>)
    requires queue != [] && Draining(nodes, arcs, order, queue, indeg) && queue' == queue[1..] + SortIds(next)
    requires Draining(nodes, arcs, order + [queue[0]], queue', indeg')
    requires ByBatches(NoLoops(Elems(arcs)), order, queue) && forall x :: x in next ==> x in Targets(arcs, queue[0])
    ensures ByBatches(NoLoops(Elems(arcs)), order + [queue[0]], queue')
  {
    hide ByBatches, Targets, Pending, Forward;
    var batch := SortIds(next);
    SameElems(next, batch);
    TargetsElems(arcs, queue[0]);
    assert Distinct(batch) by {
      var all := order + [queue[0]] + queue';
      forall i, j | 0 <= i < j < |batch| ensures batch[i] != batch[j] {
        assert all[|order| + |queue| + i] == batch[i] && all[|order| + |queue| + j] == batch[j];
      }
    }
    forall x | x in order + queue ensures forall e :: e in NoLoops(Elems(arcs)) && e.dst == x ==> e.src in order {
      PendingZero(arcs, x, Elems(order));
    }
    NextBatch(NoLoops(Elems(arcs)), order, queue, batch);
  }

  // The listed nodes, in this order and no other: each comes after all nodes with edges to
  // it, and those freed by one node stand together, in ascending order.
  lemma TopoUnique(nodes: seq<Id>, r: Rel, a: seq<Id>, b: seq<Id>)
    requires KahnOrder(nodes, r, a) && KahnOrder(nodes, r, b) && ByBatches(r, a, []) && ByBatches(r, b, [])
    ensures a == b
  {
    hide ByBatches;
    assert forall x :: x in a <==> x in b;
    assert Elems(a) == Elems(b);
    DistinctCard(a);
    DistinctCard(b);
    OneOrder(r, a, b, |a|);
  }

  lemma OrderFits(nodes: seq<Id>, arcs: seq<Arc>, order: seq<Id>, queue: seq<Id>, next: seq<Id>,
                  indeg: map<Id, int>)
    requires Visiting(nodes, arcs, order, queue, next, [], indeg)
    ensures |order| <= |nodes|
  {
    forall i, j | 0 <= i < j < |order| ensures order[i] != order[j] {
      assert order[i] == (order + queue + next)[i] && order[j] == (order + queue + next)[j];
    }
    DistinctCard(order);
    SubsetCard(Elems(order), Elems(nodes));
    ElemsAtMost(nodes);
  }

  lemma DrainingReorder(nodes: seq<Id>, arcs: seq<Arc>, order: seq<Id>, queue: seq<Id>,
                        indeg: map<Id, int>, queue': seq<Id>)
    requires Draining(nodes, arcs, order, queue, indeg) && multiset(queue') == multiset(queue)
    ensures Draining(nodes, arcs, order, queue', indeg)
  {
    SameElems(queue, queue');
    assert multiset(order + queue) == multiset(order + queue');
    SameElems(order + queue, order + queue');
  }
}
