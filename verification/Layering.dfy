/** The layering score: topological order, condensation order, and back edges. */
module Layering {
  import opened Order
  import opened Walks
  import opened Scc
  import opened Cycles
  import opened Kahn
  import opened BatchOrder

  function Arcs(edges: seq<Edge>): (arcs: seq<Arc>)
    ensures |arcs| == |edges|
    ensures forall i :: 0 <= i < |edges| ==> arcs[i] == Arc(edges[i].src, edges[i].dst)
  {
    seq(|edges|, i requires 0 <= i < |edges| => Arc(edges[i].src, edges[i].dst))
  }

  lemma ArcsElems(edges: seq<Edge>)
    ensures Elems(Arcs(edges)) == ArcsOf(edges)
  {
    forall a | a in Arcs(edges) ensures a in ArcsOf(edges) {
      var i :| 0 <= i < |edges| && Arcs(edges)[i] == a;
      assert edges[i] in edges;
    }
    forall e | e in edges ensures Arc(e.src, e.dst) in Arcs(edges) {
      var i :| 0 <= i < |edges| && edges[i] == e;
      assert Arcs(edges)[i] == Arc(e.src, e.dst);
    }
  }

  lemma AllListed(nodes: seq<Id>, r: Rel, order: seq<Id>)
    requires KahnOrder(nodes, r, order) && !HasCycle(r)
    ensures Elems(order) == Elems(nodes)
  {
    forall x | x in nodes ensures x in order {
      assert forall c :: !ReachPlus(r, c, c);
    }
    assert forall x :: x in Elems(order) <==> x in Elems(nodes);
  }

  // topoOrder. It succeeds exactly on graphs without cycles other than loops.
  method TopoOrder(nodes: seq<Id>, edges: seq<Edge>) returns (order: seq<Id>, ok: bool)
    requires Distinct(nodes) && EdgesWithin(edges, nodes)
    ensures KahnOrder(nodes, NoLoops(ArcsOf(edges)), order)
    ensures ok <==> !HasCycle(NoLoops(ArcsOf(edges)))
    ensures ok ==> Elems(order) == Elems(nodes)
    ensures ByBatches(NoLoops(ArcsOf(edges)), order, [])
  {
    ArcsElems(edges);
    order := Drain(nodes, Arcs(edges), true);
    ok := |order| == |nodes|;
    KahnCompleteIff(nodes, NoLoops(ArcsOf(edges)), order);
    if ok { AllListed(nodes, NoLoops(ArcsOf(edges)), order); }
  }

  // comp numbers the strongly connected components.
  ghost predicate ComponentMap(nodes: seq<Id>, r: Rel, comp: map<Id, int>) {
    && (forall x :: x in nodes ==> x in comp)
    && (forall x, y :: x in nodes && y in nodes ==> (comp[x] == comp[y] <==> x == y || Mutual(r, x, y)))
  }

  // sccOf: cycle members share a number, every other node gets its own.
  method SccOf(nodes: seq<Id>, edges: seq<Edge>) returns (comp: map<Id, int>)
    requires EdgesWithin(edges, nodes)
    ensures ComponentMap(nodes, ArcsOf(edges), comp)
  {
    var cycles := ComputeCycles(nodes, edges);
    ghost var r := ArcsOf(edges);
    CyclesDisjoint(r, cycles);
    comp := NumberCycles(cycles);
    ghost var cyclic := comp;
    comp := NumberRest(nodes, |cycles|, comp);
    forall x, y | x in nodes && y in nodes
      ensures comp[x] == comp[y] <==> x == y || Mutual(r, x, y)
    {
      SameNumber(r, cycles, cyclic, comp, x, y);
    }
  }

  method NumberCycles(cycles: seq<seq<Id>>) returns (comp: map<Id, int>)
    requires forall k, l, x :: 0 <= k < l < |cycles| && x in cycles[k] ==> x !in cycles[l]
    ensures forall j, x :: 0 <= j < |cycles| && x in cycles[j] ==> x in comp && comp[x] == j
    ensures forall x :: x in comp ==> 0 <= comp[x] < |cycles| && x in cycles[comp[x]]
  {
    comp := map[];
    for k := 0 to |cycles|
      invariant forall j, x :: 0 <= j < k && x in cycles[j] ==> x in comp && comp[x] == j
      invariant forall x :: x in comp ==> 0 <= comp[x] < k && x in cycles[comp[x]]
    {
      var c := cycles[k];
      for i := 0 to |c|
        invariant forall j, x :: 0 <= j < k && x in cycles[j] ==> x in comp && comp[x] == j
        invariant forall x :: x in c[..i] ==> x in comp && comp[x] == k
        invariant forall x :: x in comp ==> 0 <= comp[x] <= k && x in cycles[comp[x]]
      {
        assert c[i] in c;
        comp := comp[c[i] := k];
      }
    }
  }

  method NumberRest(nodes: seq<Id>, first: nat, cyclic: map<Id, int>) returns (comp: map<Id, int>)
    ensures forall x :: x in cyclic ==> x in comp && comp[x] == cyclic[x]
    ensures forall x :: x in comp && x !in cyclic ==> first <= comp[x]
    ensures forall x, y :: x in comp && y in comp && x !in cyclic && y !in cyclic && comp[x] == comp[y] ==> x == y
    ensures forall x :: x in nodes ==> x in comp
  {
    comp := cyclic;
    var cid := first;
    for i := 0 to |nodes|
      invariant forall x :: x in cyclic ==> x in comp && comp[x] == cyclic[x]
      invariant forall x :: x in comp && x !in cyclic ==> first <= comp[x] < cid
      invariant forall x, y :: x in comp && y in comp && x !in cyclic && y !in cyclic && comp[x] == comp[y] ==> x == y
      invariant first <= cid
      invariant forall j :: 0 <= j < i ==> nodes[j] in comp
    {
      if nodes[i] !in comp {
        comp := comp[nodes[i] := cid];
        cid := cid + 1;
      }
    }
  }

  lemma CyclesDisjoint(r: Rel, cycles: seq<seq<Id>>)
    requires CycleList(r, cycles)
    ensures forall k, l, x :: 0 <= k < l < |cycles| && x in cycles[k] ==> x !in cycles[l]
  {
    forall k, l, x | 0 <= k < l < |cycles| && x in cycles[k] ensures x !in cycles[l] {
      if x in cycles[l] {
        SameComponent(r, Elems(cycles[k]), Elems(cycles[l]), x);
        AscendingUnique(cycles[k], cycles[l]);
      }
    }
  }

  lemma SameNumber(r: Rel, cycles: seq<seq<Id>>, cyclic: map<Id, int>, comp: map<Id, int>, x: Id, y: Id)
    requires CycleList(r, cycles)
    requires forall j, z :: 0 <= j < |cycles| && z in cycles[j] ==> z in cyclic && cyclic[z] == j
    requires forall z :: z in cyclic ==> 0 <= cyclic[z] < |cycles| && z in cycles[cyclic[z]]
    requires forall z :: z in cyclic ==> z in comp && comp[z] == cyclic[z]
    requires forall z :: z in comp && z !in cyclic ==> |cycles| <= comp[z]
    requires forall z, w :: z in comp && w in comp && z !in cyclic && w !in cyclic && comp[z] == comp[w] ==> z == w
    requires x in comp && y in comp
    ensures comp[x] == comp[y] <==> x == y || Mutual(r, x, y)
  {
    if x != y && Mutual(r, x, y) {
      assert Share(cycles, x, y);
      var k :| 0 <= k < |cycles| && x in cycles[k];
      assert y in Elems(cycles[k]);
    }
    if x != y && comp[x] == comp[y] {
      assert x in cyclic && y in cyclic;
      var k := cyclic[x];
      assert x in Elems(cycles[k]) && y in Elems(cycles[k]);
    }
  }

  // The condensation: one arc for each pair of components joined by an edge.
  ghost function Condense(r: Rel, comp: map<Id, int>): Rel {
    set e | e in r && e.src in comp && e.dst in comp && comp[e.src] != comp[e.dst]
      :: Arc(comp[e.src], comp[e.dst])
  }

  lemma {:induction false} LiftReach(nodes: seq<Id>, r: Rel, comp: map<Id, int>, p: seq<Id>, x: Id, y: Id)
    requires ComponentMap(nodes, r, comp) && (forall e :: e in r ==> e.src in nodes && e.dst in nodes)
    requires x in nodes && y in nodes && WalkFromTo(Condense(r, comp), p, comp[x], comp[y])
    ensures Reach(r, x, y)
    decreases |p|
  {
    ReachRefl(r, x);
    if |p| > 1 {
      var c := Condense(r, comp);
      assert Step(c, p, 0);
      var e :| e in r && Arc(comp[e.src], comp[e.dst]) == Arc(p[0], p[1]);
      var q := p[1..];
      forall i | 0 <= i < |q| - 1 ensures Step(c, q, i) { assert Step(c, p, i + 1); }
      LiftReach(nodes, r, comp, q, e.dst, y);
      ReachEdge(r, e.src, e.dst);
      ReachTrans(r, e.src, e.dst, y);
      if x != e.src { assert Mutual(r, x, e.src); ReachTrans(r, x, e.src, y); }
    } else if x != y {
      assert Mutual(r, x, y);
    }
  }

  lemma CondensationAcyclic(nodes: seq<Id>, r: Rel, comp: map<Id, int>)
    requires ComponentMap(nodes, r, comp) && (forall e :: e in r ==> e.src in nodes && e.dst in nodes)
    ensures !HasCycle(Condense(r, comp))
  {
    var c := Condense(r, comp);
    if HasCycle(c) {
      var a :| ReachPlus(c, a, a);
      var b :| Arc(a, b) in c && Reach(c, b, a);
      var e :| e in r && Arc(comp[e.src], comp[e.dst]) == Arc(a, b) && a != b;
      var p :| WalkFromTo(c, p, b, a);
      LiftReach(nodes, r, comp, p, e.dst, e.src);
      ReachEdge(r, e.src, e.dst);
      assert Mutual(r, e.src, e.dst);
    }
  }

  // A linear order in which every edge between components points forward and each
  // component is contiguous.
  ghost predicate Layered(nodes: seq<Id>, r: Rel, order: seq<Id>) {
    && multiset(order) == multiset(nodes)
    && (forall i, j :: 0 <= i < |order| && 0 <= j < |order| && Arc(order[i], order[j]) in r
          ==> i <= j || Mutual(r, order[i], order[j]))
    && (forall i, j, k {:trigger order[i], order[j], order[k]} ::
          0 <= i < j < k < |order| && Mutual(r, order[i], order[k]) ==> Mutual(r, order[i], order[j]))
  }

  function RankOf(crank: map<int, int>, comp: map<Id, int>, x: Id): int {
    if x in comp && comp[x] in crank then crank[comp[x]] else 0
  }

  // The condensation arcs, each once, in the order of first occurrence.
  method CondensationArcs(edges: seq<Edge>, comp: map<Id, int>) returns (arcs: seq<Arc>)
    requires forall e :: e in edges ==> e.src in comp && e.dst in comp
    ensures Elems(arcs) == Condense(ArcsOf(edges), comp)
  {
    arcs := [];
    for i := 0 to |edges|
      invariant Elems(arcs) == Condense(ArcsOf(edges[..i]), comp)
    {
      var e := edges[i];
      assert edges[..i + 1] == edges[..i] + [e] && e in edges;
      assert ArcsOf(edges[..i + 1]) == ArcsOf(edges[..i]) + {Arc(e.src, e.dst)};
      var a := Arc(comp[e.src], comp[e.dst]);
      if a.src != a.dst && a !in arcs {
        arcs := arcs + [a];
      }
      assert Condense(ArcsOf(edges[..i + 1]), comp)
          == Condense(ArcsOf(edges[..i]), comp) + (if a.src != a.dst then {a} else {});
    }
    assert edges[..|edges|] == edges;
  }

  // The position of each entry.
  method Ranks(order: seq<Id>) returns (rank: map<Id, int>)
    ensures forall c :: c in order <==> c in rank
    ensures forall c :: c in rank ==> 0 <= rank[c] < |order| && order[rank[c]] == c
  {
    rank := map[];
    for i := 0 to |order|
      invariant forall c :: c in order[..i] <==> c in rank
      invariant forall c :: c in rank ==> 0 <= rank[c] < i && order[rank[c]] == c
    {
      rank := rank[order[i] := i];
    }
  }

  // condensationOrder. sort.Slice is not stable; only the order between ranks is used.
  method CondensationOrder(nodes: seq<Id>, edges: seq<Edge>) returns (order: seq<Id>)
    requires EdgesWithin(edges, nodes)
    ensures Layered(nodes, ArcsOf(edges), order)
  {
    hide ComponentMap, KahnOrder, HasCycle, Layered;
    ghost var r := ArcsOf(edges);
    var comp := SccOf(nodes, edges);
    assert forall x :: x in nodes ==> x in comp by { ComponentKeys(nodes, r, comp); }
    var comps := SortedSeq(set x | x in nodes :: comp[x]);
    var arcs := CondensationArcs(edges, comp);
    CondensationWithin(nodes, edges, comp, comps, arcs);
    var corder := Drain(comps, arcs, true);
    var crank := Ranks(corder);
    order := StableSort(nodes, (a, b) => RankOf(crank, comp, a) <= RankOf(crank, comp, b));
    RanksLayer(nodes, edges, comp, comps, arcs, corder, crank, order);
  }

  lemma ComponentKeys(nodes: seq<Id>, r: Rel, comp: map<Id, int>)
    requires ComponentMap(nodes, r, comp)
    ensures forall x :: x in nodes ==> x in comp
  {
  }

  lemma CondensationWithin(nodes: seq<Id>, edges: seq<Edge>, comp: map<Id, int>, comps: seq<Id>, arcs: seq<Arc>)
    requires EdgesWithin(edges, nodes) && (forall x :: x in nodes ==> x in comp)
    requires Ascending(comps) && Elems(comps) == set x | x in nodes :: comp[x]
    requires Elems(arcs) == Condense(ArcsOf(edges), comp)
    ensures Distinct(comps) && Within(arcs, comps) && NoLoops(Elems(arcs)) == Elems(arcs)
    ensures forall x :: x in nodes ==> comp[x] in comps
    ensures forall c :: c in comps ==> exists x :: x in nodes && comp[x] == c
  {
    assert forall x :: x in comps <==> x in Elems(comps);
    forall a | a in arcs ensures a.src in comps && a.dst in comps && a.src != a.dst {
      assert a in Elems(arcs);
    }
  }

  // Ranks grow along the order, and strictly along every condensation arc.
  ghost predicate Ranked(nodes: seq<Id>, r: Rel, comp: map<Id, int>, crank: map<int, int>, order: seq<Id>) {
    && ComponentMap(nodes, r, comp)
    && (forall x :: x in nodes ==> comp[x] in crank)
    && multiset(order) == multiset(nodes)
    && (forall x, y :: x in nodes && y in nodes && crank[comp[x]] == crank[comp[y]] ==> comp[x] == comp[y])
    && (forall e :: e in r ==> e.src in nodes && e.dst in nodes)
    && (forall e :: e in r && comp[e.src] != comp[e.dst] ==> crank[comp[e.src]] < crank[comp[e.dst]])
    && SortedBy(order, (a, b) => RankOf(crank, comp, a) <= RankOf(crank, comp, b))
  }

  lemma RanksLayer(nodes: seq<Id>, edges: seq<Edge>, comp: map<Id, int>, comps: seq<Id>, arcs: seq<Arc>,
                   corder: seq<int>, crank: map<int, int>, order: seq<Id>)
    requires EdgesWithin(edges, nodes) && ComponentMap(nodes, ArcsOf(edges), comp)
    requires forall x :: x in nodes ==> comp[x] in comps
    requires forall c :: c in comps ==> exists x :: x in nodes && comp[x] == c
    requires Elems(arcs) == Condense(ArcsOf(edges), comp) == NoLoops(Elems(arcs))
    requires KahnOrder(comps, Elems(arcs), corder)
    requires forall c :: c in corder <==> c in crank
    requires forall c :: c in crank ==> 0 <= crank[c] < |corder| && corder[crank[c]] == c
    requires multiset(order) == multiset(nodes)
    requires SortedBy(order, (a, b) => RankOf(crank, comp, a) <= RankOf(crank, comp, b))
    ensures Layered(nodes, ArcsOf(edges), order)
  {
    var r := ArcsOf(edges);
    CondensationAcyclic(nodes, r, comp);
    assert forall x :: x in nodes ==> comp[x] in corder;
    forall e | e in r
      ensures e.src in nodes && e.dst in nodes
      ensures comp[e.src] != comp[e.dst] ==> crank[comp[e.src]] < crank[comp[e.dst]]
    {
      var a, b := comp[e.src], comp[e.dst];
      if a != b {
        assert Arc(a, b) in Elems(arcs);
        assert corder[crank[b]] == Arc(a, b).dst;
        assert a in corder[..crank[b]];
        var k :| 0 <= k < crank[b] && corder[..crank[b]][k] == a;
        assert corder[crank[a]] == corder[k];
      }
    }
    RankedIsLayered(nodes, r, comp, crank, order);
  }

  lemma RankedIsLayered(nodes: seq<Id>, r: Rel, comp: map<Id, int>, crank: map<int, int>, order: seq<Id>)
    requires Ranked(nodes, r, comp, crank, order)
    ensures Layered(nodes, r, order)
  {
    SameElems(order, nodes);
    forall i, j | 0 <= i < j < |order|
      ensures order[i] in nodes && order[j] in nodes
      ensures crank[comp[order[i]]] <= crank[comp[order[j]]]
    {
      assert RankOf(crank, comp, order[i]) <= RankOf(crank, comp, order[j]);
    }
    forall i, j | 0 <= i < |order| && 0 <= j < |order| && Arc(order[i], order[j]) in r
      ensures i <= j || Mutual(r, order[i], order[j])
    {
      ReachRefl(r, order[i]);
      var e := Arc(order[i], order[j]);
      assert comp[e.src] != comp[e.dst] ==> crank[comp[e.src]] < crank[comp[e.dst]];
    }
    forall i, j, k {:trigger order[i], order[j], order[k]} |
        0 <= i < j < k < |order| && Mutual(r, order[i], order[k])
      ensures Mutual(r, order[i], order[j])
    {
      assert comp[order[i]] == comp[order[k]];
      assert crank[comp[order[j]]] == crank[comp[order[i]]];
      ReachRefl(r, order[i]);
    }
  }

  // The edges whose target stands before their source.
  ghost predicate Back(e: Edge, order: seq<Id>) {
    exists p, q :: 0 <= p < q < |order| && order[p] == e.dst && order[q] == e.src
  }

  ghost function BackEdges(edges: seq<Edge>, order: seq<Id>): set<int> {
    set i | 0 <= i < |edges| && Back(edges[i], order)
  }

  lemma BackByRank(e: Edge, order: seq<Id>, rank: map<Id, int>)
    requires Distinct(order) && e.src in rank && e.dst in rank
    requires forall c :: c in rank ==> 0 <= rank[c] < |order| && order[rank[c]] == c
    ensures Back(e, order) <==> e.src != e.dst && rank[e.dst] < rank[e.src]
  {
    if e.src != e.dst && rank[e.dst] < rank[e.src] {
      assert order[rank[e.dst]] == e.dst && order[rank[e.src]] == e.src;
    }
  }

  method CountBack(nodes: seq<Id>, edges: seq<Edge>, order: seq<Id>, rank: map<Id, int>) returns (back: nat)
    requires EdgesWithin(edges, nodes) && Distinct(order) && Elems(order) == Elems(nodes)
    requires forall c :: c in order <==> c in rank
    requires forall c :: c in rank ==> 0 <= rank[c] < |order| && order[rank[c]] == c
    ensures back == |BackEdges(edges, order)| <= |edges|
  {
    hide Back, Distinct;
    back := 0;
    ghost var seen: set<int> := {};
    for i := 0 to |edges|
      invariant seen == (set k | 0 <= k < i && Back(edges[k], order)) && back == |seen| <= i
    {
      var e := edges[i];
      assert e in edges && e.src in Elems(order) && e.dst in Elems(order);
      BackByRank(e, order, rank);
      if e.src != e.dst && rank[e.dst] < rank[e.src] {
        back := back + 1;
        seen := seen + {i};
      }
    }
  }

  // A topological order is layered, and has no back edge.
  lemma TopoIsLayered(nodes: seq<Id>, r: Rel, order: seq<Id>)
    requires Distinct(nodes) && KahnOrder(nodes, NoLoops(r), order) && Elems(order) == Elems(nodes)
    requires !HasCycle(NoLoops(r))
    ensures Layered(nodes, r, order)
  {
    DistinctIffOnce(order);
    DistinctIffOnce(nodes);
    assert forall x :: x in order <==> x in Elems(order);
    assert forall x :: x in nodes <==> x in Elems(nodes);
    assert multiset(order) == multiset(nodes);
    CycleIffMutual(r);
    forall i, j | 0 <= i < |order| && 0 <= j < |order| && Arc(order[i], order[j]) in r
      ensures i <= j || Mutual(r, order[i], order[j])
    {
      var e := Arc(order[i], order[j]);
      if i != j {
        assert e in NoLoops(r) && order[j] == e.dst;
        assert e.src in order[..j];
      }
    }
  }

  lemma BackEdgesAreMutual(nodes: seq<Id>, edges: seq<Edge>, order: seq<Id>)
    requires Layered(nodes, ArcsOf(edges), order)
    ensures forall i :: i in BackEdges(edges, order) ==> Mutual(ArcsOf(edges), edges[i].src, edges[i].dst)
  {
    forall i | i in BackEdges(edges, order) ensures Mutual(ArcsOf(edges), edges[i].src, edges[i].dst) {
      var p, q :| 0 <= p < q < |order| && order[p] == edges[i].dst && order[q] == edges[i].src;
      assert edges[i] in edges;
      assert Arc(order[q], order[p]) in ArcsOf(edges);
    }
  }

  // No back edge if and only if no cycle, loops aside.
  lemma NoBackIffAcyclic(nodes: seq<Id>, edges: seq<Edge>, order: seq<Id>)
    requires Distinct(order) && EdgesWithin(edges, nodes)
    requires Layered(nodes, ArcsOf(edges), order)
    ensures BackEdges(edges, order) == {} <==> !HasCycle(NoLoops(ArcsOf(edges)))
  {
    var r := ArcsOf(edges);
    SameElems(order, nodes);
    if BackEdges(edges, order) == {} {
      NoBackIsForward(nodes, edges, order);
      if HasCycle(NoLoops(r)) {
        var c :| ReachPlus(NoLoops(r), c, c);
        var d :| Arc(c, d) in NoLoops(r);
        var i :| 0 <= i < |order| && order[i] == c;
        ReachRefl(NoLoops(r), c);
        ListedIsAcyclic(NoLoops(r), order, i, c);
      }
    } else {
      BackEdgesAreMutual(nodes, edges, order);
      var i := Pick(BackEdges(edges, order));
      CycleIffMutual(r);
      assert edges[i].src != edges[i].dst;
    }
  }

  lemma NoBackIsForward(nodes: seq<Id>, edges: seq<Edge>, order: seq<Id>)
    requires EdgesWithin(edges, nodes) && multiset(order) == multiset(nodes)
    requires BackEdges(edges, order) == {}
    ensures Forward(NoLoops(ArcsOf(edges)), order)
  {
    var n := NoLoops(ArcsOf(edges));
    SameElems(order, nodes);
    forall a, i {:trigger a in n, order[i]} | a in n && 0 <= i < |order| && order[i] == a.dst
      ensures a.src in order[..i]
    {
      var k :| 0 <= k < |edges| && edges[k].src == a.src && edges[k].dst == a.dst;
      assert edges[k] in edges;
      var j :| 0 <= j < |order| && order[j] == a.src;
      assert k !in BackEdges(edges, order);
      assert !(i < j);
      assert order[..i][j] == a.src;
    }
  }

  lemma LayeredPermutes(nodes: seq<Id>, r: Rel, order: seq<Id>)
    requires Distinct(nodes) && Layered(nodes, r, order)
    ensures multiset(order) == multiset(nodes)
    ensures Distinct(order) && Elems(order) == Elems(nodes)
  {
    SameElems(nodes, order);
  }

  lemma NoEdges(edges: seq<Edge>)
    requires edges == []
    ensures !HasCycle(NoLoops(ArcsOf(edges)))
  {
  }

  lemma ScoreIdentity(back: nat, n: nat)
    requires 0 < n && back <= n
    ensures var score := 1.0 - back as real / n as real;
            0.0 <= score <= 1.0 && (score == 1.0 <==> back == 0) && score * n as real == (n - back) as real
  {
    var q := back as real / n as real;
    assert q * n as real == back as real;
    assert 0.0 <= q <= 1.0;
  }

  // layering: 1 minus the share of edges that point backwards in the chosen order.
  method LayeringScore(nodes: seq<Id>, edges: seq<Edge>) returns (score: real, ghost order: seq<Id>)
    requires Distinct(nodes) && EdgesWithin(edges, nodes)
    ensures 0.0 <= score <= 1.0
    ensures score == 1.0 <==> !HasCycle(NoLoops(ArcsOf(edges)))
    ensures edges != [] ==> multiset(order) == multiset(nodes)
    ensures edges != [] ==> score * |edges| as real == (|edges| - |BackEdges(edges, order)|) as real
    ensures edges != [] ==>
              forall i :: i in BackEdges(edges, order) ==> Mutual(ArcsOf(edges), edges[i].src, edges[i].dst)
  {
    hide KahnOrder, HasCycle, Layered, Mutual, NoLoops, Distinct, Back;
    order := [];
    if |edges| == 0 {
      NoEdges(edges);
      return 1.0, [];
    }
    ghost var r := ArcsOf(edges);
    var chosen, ok := TopoOrder(nodes, edges);
    if !ok {
      chosen := CondensationOrder(nodes, edges);
    } else {
      TopoIsLayered(nodes, r, chosen);
    }
    order := chosen;
    var rank := Ranks(chosen);
    LayeredPermutes(nodes, r, chosen);
    var back := CountBack(nodes, edges, chosen, rank);
    BackEdgesAreMutual(nodes, edges, chosen);
    NoBackIffAcyclic(nodes, edges, chosen);
    ScoreIdentity(back, |edges|);
    score := 1.0 - back as real / |edges| as real;
  }
}
