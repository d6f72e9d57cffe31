/** The two callers of the component search: `cycles` over the whole graph, and the
    hierarchy-cycle detector over the edges of hierarchy kind. */
module Cycles {
  import opened Order
  import opened Walks
  import opened Scc

  ghost predicate Share(out: seq<seq<Id>>, a: Id, b: Id) {
    exists k :: 0 <= k < |out| && a in out[k] && b in out[k]
  }

  // The declarative meaning of a cycle report: the components with at least two nodes,
  // each in ascending order, listed by ascending first node.
  ghost predicate CycleList(r: Rel, out: seq<seq<Id>>) {
    && (forall k :: 0 <= k < |out| ==> |out[k]| > 1 && Ascending(out[k]) && IsScc(r, Elems(out[k])))
    && (forall k, l :: 0 <= k < l < |out| ==> out[k][0] < out[l][0])
    && (forall a, b {:trigger Mutual(r, a, b)} :: a != b && Mutual(r, a, b) ==> Share(out, a, b))
  }

  // The report is determined by the graph alone: no order of nodes, edges or map
  // iteration shows in it.
  lemma CycleListUnique(r: Rel, a: seq<seq<Id>>, b: seq<seq<Id>>)
    requires CycleList(r, a) && CycleList(r, b)
    ensures a == b
  {
    var ha, hb := Heads(r, a), Heads(r, b);
    HeadsIncluded(r, a, b);
    HeadsIncluded(r, b, a);
    AscendingUnique(ha, hb);
    forall k | 0 <= k < |a| ensures a[k] == b[k] {
      assert ha[k] == hb[k];
      SameComponent(r, Elems(a[k]), Elems(b[k]), a[k][0]);
      AscendingUnique(a[k], b[k]);
    }
  }

  ghost function Heads(r: Rel, a: seq<seq<Id>>): seq<Id>
    requires CycleList(r, a)
  {
    seq(|a|, k requires 0 <= k < |a| => a[k][0])
  }

  lemma HeadsIncluded(r: Rel, a: seq<seq<Id>>, b: seq<seq<Id>>)
    requires CycleList(r, a) && CycleList(r, b)
    ensures Elems(Heads(r, a)) <= Elems(Heads(r, b))
  {
    forall x | x in Heads(r, a) ensures x in Heads(r, b) {
      var k :| 0 <= k < |a| && a[k][0] == x;
      assert x in Elems(a[k]) && a[k][1] in Elems(a[k]);
      assert Mutual(r, x, a[k][1]);
      var l :| 0 <= l < |b| && x in b[l];
      SameComponent(r, Elems(a[k]), Elems(b[l]), x);
      AscendingUnique(a[k], b[l]);
      assert Heads(r, b)[l] == x;
    }
  }

  lemma {:induction false} ReportElems(cs: seq<seq<Id>>, keep: bool, c: seq<Id>)
    ensures c in Report(cs, keep) <==> c in cs && (keep || |c| > 1)
  {
    if cs != [] {
      var n := |cs| - 1;
      ReportElems(cs[..n], keep, c);
      assert cs == cs[..n] + [cs[n]];
    }
  }

  // Reported components are pairwise different in content, like all of them.
  lemma {:induction false} ReportDisjoint(cs: seq<seq<Id>>, keep: bool)
    requires forall k, l, x :: 0 <= k < l < |cs| && x in cs[k] ==> x !in cs[l]
    ensures forall k, l, x :: 0 <= k < l < |Report(cs, keep)| && x in Report(cs, keep)[k]
              ==> x !in Report(cs, keep)[l]
  {
    if cs != [] {
      var n := |cs| - 1;
      var front := Report(cs[..n], keep);
      ReportDisjoint(cs[..n], keep);
      forall k, x | 0 <= k < |front| && x in front[k] ensures x !in cs[n] {
        ReportElems(cs[..n], keep, front[k]);
        var j :| 0 <= j < n && cs[..n][j] == front[k];
      }
    }
  }

  function Head(c: seq<Id>): Id { if c == [] then 0 else c[0] }

  predicate HeadLe(a: seq<Id>, b: seq<Id>) { Head(a) <= Head(b) }

  function BuildAdjacency(edges: seq<Edge>): Adjacency {
    if edges == [] then map[]
    else
      var n := |edges| - 1;
      var adj, e := BuildAdjacency(edges[..n]), edges[n];
      if e.src != e.dst then adj[e.src := Succ(adj, e.src) + [e.dst]] else adj
  }

  lemma {:induction false} AdjacencyRepresents(edges: seq<Edge>, nodes: seq<Id>)
    requires EdgesWithin(edges, nodes)
    ensures Represents(BuildAdjacency(edges), NoLoops(ArcsOf(edges)), Elems(nodes))
  {
    if edges != [] {
      var n := |edges| - 1;
      var e := edges[n];
      AdjacencyRepresents(edges[..n], nodes);
      assert edges == edges[..n] + [e];
      assert ArcsOf(edges) == ArcsOf(edges[..n]) + {Arc(e.src, e.dst)};
    }
  }

  // The loop that fills adj, without edges from a node to itself.
  method MakeAdjacency(edges: seq<Edge>) returns (adj: Adjacency)
    ensures adj == BuildAdjacency(edges)
  {
    adj := map[];
    for i := 0 to |edges|
      invariant adj == BuildAdjacency(edges[..i])
    {
      var e := edges[i];
      assert edges[..i + 1][..i] == edges[..i];
      if e.src != e.dst {
        adj := adj[e.src := Succ(adj, e.src) + [e.dst]];
      }
    }
    assert edges[..|edges|] == edges;
  }

  lemma NoLoopsSameScc(r: Rel, c: set<Id>)
    ensures IsScc(NoLoops(r), c) <==> IsScc(r, c)
  {
    forall a, b ensures Reach(NoLoops(r), a, b) <==> Reach(r, a, b) {
      if Reach(r, a, b) { ReachNoLoops(r, a, b); }
      if Reach(NoLoops(r), a, b) { ReachMono(NoLoops(r), r, a, b); }
    }
  }

  lemma SortedReportIsCycleList(r: Rel, nodes: seq<Id>, popped: seq<seq<Id>>, out: seq<seq<Id>>)
    requires Partition(NoLoops(r), Elems(nodes), popped)
    requires forall c :: c in popped ==> Ascending(c)
    requires multiset(out) == multiset(Report(popped, false)) && SortedBy(out, HeadLe)
    requires forall e :: e in r ==> e.src in nodes && e.dst in nodes
    ensures CycleList(r, out)
  {
    hide Ascending, IsScc, Mutual, Report, Partition;
    var rep := Report(popped, false);
    SameElems(rep, out);
    forall c | c in out ensures |c| > 1 && Ascending(c) && IsScc(r, Elems(c)) {
      ReportElems(popped, false, c);
      PartitionScc(r, nodes, popped, c);
    }
    HeadsAscend(r, nodes, popped, out);
    forall a, b {:trigger Mutual(r, a, b)} | a != b && Mutual(r, a, b) ensures Share(out, a, b) {
      MutualIsReported(r, nodes, popped, a, b);
      var c :| c in rep && a in c && b in c;
      var k :| 0 <= k < |out| && out[k] == c;
    }
  }

  lemma PartitionScc(r: Rel, nodes: seq<Id>, popped: seq<seq<Id>>, c: seq<Id>)
    requires Partition(NoLoops(r), Elems(nodes), popped) && c in popped
    ensures Distinct(c) && IsScc(r, Elems(c))
  {
    var k :| 0 <= k < |popped| && popped[k] == c;
    NoLoopsSameScc(r, Elems(c));
  }

  lemma HeadsAscend(r: Rel, nodes: seq<Id>, popped: seq<seq<Id>>, out: seq<seq<Id>>)
    requires Partition(NoLoops(r), Elems(nodes), popped)
    requires multiset(out) == multiset(Report(popped, false)) && SortedBy(out, HeadLe)
    requires forall c :: c in out ==> |c| > 1
    ensures forall k, l :: 0 <= k < l < |out| ==> out[k][0] < out[l][0]
  {
    var rep := Report(popped, false);
    SameElems(rep, out);
    ReportDisjoint(popped, false);
    DistinctReport(rep, out);
    forall k, l | 0 <= k < l < |out| ensures out[k][0] < out[l][0] {
      assert HeadLe(out[k], out[l]) && out[k] in rep && out[l] in rep;
      if out[k][0] == out[l][0] { SharedMember(rep, out[k], out[l]); }
    }
  }

  lemma DistinctReport(rep: seq<seq<Id>>, out: seq<seq<Id>>)
    requires forall k, l, x :: 0 <= k < l < |rep| && x in rep[k] ==> x !in rep[l]
    requires forall c :: c in rep ==> |c| > 1
    requires multiset(out) == multiset(rep)
    ensures Distinct(out)
  {
    forall k, l | 0 <= k < l < |rep| ensures rep[k] != rep[l] {
      assert rep[k] in rep;
      var x := rep[k][0];
      assert x in rep[k];
    }
    SameElems(rep, out);
  }

  lemma SharedMember(rep: seq<seq<Id>>, c: seq<Id>, d: seq<Id>)
    requires forall k, l, x :: 0 <= k < l < |rep| && x in rep[k] ==> x !in rep[l]
    requires c in rep && d in rep && |c| > 0 && |d| > 0 && c[0] == d[0]
    ensures c == d
  {
    var k :| 0 <= k < |rep| && rep[k] == c;
    var l :| 0 <= l < |rep| && rep[l] == d;
    assert c[0] in rep[k] && c[0] in rep[l];
  }

  lemma MutualIsReported(r: Rel, nodes: seq<Id>, popped: seq<seq<Id>>, a: Id, b: Id)
    requires Partition(NoLoops(r), Elems(nodes), popped)
    requires forall e :: e in r ==> e.src in nodes && e.dst in nodes
    requires a != b && Mutual(r, a, b)
    ensures exists c :: c in Report(popped, false) && a in c && b in c
  {
    ReachFirst(r, a, b);
    assert a in Elems(nodes);
    assert InSome(popped, a);
    var k :| 0 <= k < |popped| && a in popped[k];
    NoLoopsSameScc(r, Elems(popped[k]));
    assert b in Elems(popped[k]);
    assert {a, b} <= Elems(popped[k]);
    SubsetCard({a, b}, Elems(popped[k]));
    DistinctCard(popped[k]);
    ReportElems(popped, false, popped[k]);
  }

  // Tarjan's search gives the canonical cycle report of the graph.
  method ComputeCycles(nodes: seq<Id>, edges: seq<Edge>) returns (out: seq<seq<Id>>)
    requires EdgesWithin(edges, nodes)
    ensures CycleList(ArcsOf(edges), out)
  {
    ghost var r := ArcsOf(edges);
    var adj := MakeAdjacency(edges);
    AdjacencyRepresents(edges, nodes);
    hide Represents, Wf, Report, HeadLe, Ascending, IsScc, Partition, CycleList;
    var search := new SccSearch(adj, false, true, NoLoops(r), Elems(nodes));
    search.Run(nodes);
    out := StableSort(search.sccs, HeadLe);
    SortedReportIsCycleList(r, nodes, search.popped, out);
  }

  // The hierarchy-cycle detector

  predicate IsHierarchyKind(k: string) {
    k in ["contains", "Contains", "CONTAINS", "part-of", "part_of", "partOf", "PartOf",
          "parent", "child", "parent_of", "parentOf", "has", "owns"]
  }

  ghost function HierarchyArcs(edges: seq<Edge>): Rel {
    set e | e in edges && IsHierarchyKind(e.kind) :: Arc(e.src, e.dst)
  }

  ghost function EndsOf(r: Rel): set<Id> { (set e | e in r :: e.src) + (set e | e in r :: e.dst) }

  lemma HierarchySnoc(edges: seq<Edge>, e: Edge)
    ensures HierarchyArcs(edges + [e]) ==
            if IsHierarchyKind(e.kind) then HierarchyArcs(edges) + {Arc(e.src, e.dst)} else HierarchyArcs(edges)
  {
    hide IsHierarchyKind;
  }

  lemma EndsSnoc(r: Rel, a: Arc)
    ensures EndsOf(r + {a}) == EndsOf(r) + {a.src, a.dst}
  {
  }

  lemma SuccSnoc(adj: Adjacency, r: Rel, a: Arc)
    requires Represents(adj, r, EndsOf(r))
    ensures Represents(adj[a.src := Succ(adj, a.src) + [a.dst]], r + {a}, EndsOf(r + {a}))
  {
    EndsSnoc(r, a);
  }

  lemma SortedSucc(raw: Adjacency, adj: Adjacency, r: Rel, verts: set<Id>)
    requires Represents(raw, r, verts) && adj == map k | k in raw :: SortedSeq(Elems(raw[k]))
    ensures Represents(adj, r, verts) && forall v :: Ascending(Succ(adj, v))
  {
    forall v, w ensures w in Succ(adj, v) <==> w in Succ(raw, v) {
      if v in raw { assert w in adj[v] <==> w in Elems(adj[v]); }
    }
  }

  // hierarchyAdjacency: the hierarchy edges, lists sorted without repetition, and the
  // nodes they touch.
  method HierarchyAdjacency(edges: seq<Edge>) returns (adj: Adjacency, nodes: seq<Id>)
    ensures Represents(adj, HierarchyArcs(edges), Elems(nodes)) && forall v :: Ascending(Succ(adj, v))
    ensures Ascending(nodes) && Elems(nodes) == EndsOf(HierarchyArcs(edges))
  {
    hide IsHierarchyKind, HierarchyArcs, Represents, EndsOf, Ascending;
    var raw: Adjacency := map[];
    var seen: set<Id> := {};
    NoHierarchy();
    assert edges[..0] == [];
    for i := 0 to |edges|
      invariant Represents(raw, HierarchyArcs(edges[..i]), seen) && seen == EndsOf(HierarchyArcs(edges[..i]))
    {
      var e := edges[i];
      assert edges[..i + 1] == edges[..i] + [e];
      HierarchySnoc(edges[..i], e);
      if IsHierarchyKind(e.kind) {
        SuccSnoc(raw, HierarchyArcs(edges[..i]), Arc(e.src, e.dst));
        EndsSnoc(HierarchyArcs(edges[..i]), Arc(e.src, e.dst));
        raw := raw[e.src := Succ(raw, e.src) + [e.dst]];
        seen := seen + {e.src, e.dst};
      }
    }
    assert edges[..|edges|] == edges;
    nodes := SortedSeq(seen);
    adj := map k | k in raw :: SortedSeq(Elems(raw[k]));
    SortedSucc(raw, adj, HierarchyArcs(edges), seen);
  }

  lemma NoHierarchy()
    ensures HierarchyArcs([]) == {} && EndsOf({}) == {} && Represents(map[], {}, {})
  {
  }

  // The nodes that lie on a cycle of the relation, loops included.
  ghost predicate OnCycle(r: Rel, x: Id) { ReachPlus(r, x, x) }

  lemma OnCycleIff(r: Rel, c: set<Id>, x: Id)
    requires IsScc(r, c) && x in c
    ensures OnCycle(r, x) <==> (exists y :: y in c && y != x) || Arc(x, x) in r
  {
    if OnCycle(r, x) {
      var y :| Arc(x, y) in r && Reach(r, y, x);
      ReachEdge(r, x, y);
      assert Mutual(r, x, y);
    }
    if exists y :: y in c && y != x {
      var y :| y in c && y != x;
      ReachFirst(r, x, y);
      ReachPlusTrans(r, x, y, x);
    }
    if Arc(x, x) in r { ReachRefl(r, x); }
  }

  predicate HasSelfLoop(adj: Adjacency, n: Id) { n in Succ(adj, n) }

  // The findings: strongly connected components whose members are exactly the nodes on
  // a hierarchy cycle.
  ghost predicate HierarchyReport(r: Rel, out: seq<seq<Id>>) {
    && (forall k :: 0 <= k < |out| ==> Ascending(out[k]) && IsScc(r, Elems(out[k])))
    && (forall k, l, x :: 0 <= k < l < |out| && x in out[k] ==> x !in out[l])
    && (forall x {:trigger InSome(out, x)} :: InSome(out, x) <==> OnCycle(r, x))
  }

  // The filter of Detect: drops single nodes without a self-loop.
  predicate KeepScc(adj: Adjacency, scc: seq<Id>) {
    |scc| != 1 || HasSelfLoop(adj, scc[0])
  }

  method HierarchyCycles(edges: seq<Edge>) returns (out: seq<seq<Id>>)
    ensures HierarchyReport(HierarchyArcs(edges), out)
  {
    hide Represents, Wf, Partition, HierarchyReport, Report, KeepScc, Ascending, Distinct, IsScc;
    var adj, nodes := HierarchyAdjacency(edges);
    ghost var r := HierarchyArcs(edges);
    var search := new SccSearch(adj, true, false, r, Elems(nodes));
    search.Run(nodes);
    ReportAll(search.popped);
    var sccs := search.sccs;
    out := [];
    for i := 0 to |sccs|
      invariant out == Kept(adj, sccs[..i])
    {
      assert sccs[..i + 1][..i] == sccs[..i];
      if KeepScc(adj, sccs[i]) {
        out := out + [SortIds(sccs[i])];
      }
    }
    assert sccs[..|sccs|] == sccs;
    KeptIsReport(r, adj, nodes, sccs);
  }

  lemma {:induction false} ReportAll(cs: seq<seq<Id>>)
    ensures Report(cs, true) == cs
  {
    if cs != [] {
      ReportAll(cs[..|cs| - 1]);
    }
  }

  ghost function Kept(adj: Adjacency, sccs: seq<seq<Id>>): seq<seq<Id>> {
    if sccs == [] then []
    else
      var n := |sccs| - 1;
      Kept(adj, sccs[..n]) + (if KeepScc(adj, sccs[n]) then [SortIds(sccs[n])] else [])
  }

  lemma {:induction false} KeptFrom(adj: Adjacency, sccs: seq<seq<Id>>, c: seq<Id>)
    requires c in Kept(adj, sccs)
    ensures exists d :: d in sccs && KeepScc(adj, d) && c == SortIds(d)
  {
    hide SortIds, KeepScc;
    var n := |sccs| - 1;
    if c in Kept(adj, sccs[..n]) {
      KeptFrom(adj, sccs[..n], c);
      var d :| d in sccs[..n] && KeepScc(adj, d) && c == SortIds(d);
      assert d in sccs;
    } else {
      assert sccs[n] in sccs;
    }
  }

  lemma {:induction false} KeptInto(adj: Adjacency, sccs: seq<seq<Id>>, d: seq<Id>)
    requires d in sccs && KeepScc(adj, d)
    ensures SortIds(d) in Kept(adj, sccs)
  {
    hide SortIds, KeepScc;
    var n := |sccs| - 1;
    if d in sccs[..n] { KeptInto(adj, sccs[..n], d); }
  }

  lemma {:induction false} KeptDisjoint(adj: Adjacency, sccs: seq<seq<Id>>)
    requires forall k, l, x :: 0 <= k < l < |sccs| && x in sccs[k] ==> x !in sccs[l]
    ensures forall k, l, x :: 0 <= k < l < |Kept(adj, sccs)| && x in Kept(adj, sccs)[k] ==> x !in Kept(adj, sccs)[l]
  {
    hide SortIds, KeepScc;
    if sccs != [] {
      var n := |sccs| - 1;
      var front := Kept(adj, sccs[..n]);
      KeptDisjoint(adj, sccs[..n]);
      forall k, x | 0 <= k < |front| && x in front[k] ensures x !in SortIds(sccs[n]) {
        KeptFrom(adj, sccs[..n], front[k]);
        var d :| d in sccs[..n] && KeepScc(adj, d) && front[k] == SortIds(d);
        var j :| 0 <= j < n && sccs[..n][j] == d;
        SameElems(d, front[k]);
        SameElems(sccs[n], SortIds(sccs[n]));
        assert x in sccs[j];
      }
    }
  }

  lemma KeptIsReport(r: Rel, adj: Adjacency, nodes: seq<Id>, sccs: seq<seq<Id>>)
    requires Represents(adj, r, Elems(nodes)) && Partition(r, Elems(nodes), sccs)
    ensures HierarchyReport(r, Kept(adj, sccs))
  {
    var out := Kept(adj, sccs);
    KeptDisjoint(adj, sccs);
    forall c | c in out
      ensures Ascending(c) && IsScc(r, Elems(c)) && forall x :: x in c ==> OnCycle(r, x)
    {
      KeptFrom(adj, sccs, c);
      var d :| d in sccs && KeepScc(adj, d) && c == SortIds(d);
      SameElems(d, c);
      forall x | x in c ensures OnCycle(r, x) { KeepIffCyclic(r, adj, nodes, d, x); }
    }
    forall x {:trigger OnCycle(r, x)} | OnCycle(r, x) ensures InSome(out, x) {
      CyclicIsKept(r, adj, nodes, sccs, x);
    }
  }

  lemma CyclicIsKept(r: Rel, adj: Adjacency, nodes: seq<Id>, sccs: seq<seq<Id>>, x: Id)
    requires Represents(adj, r, Elems(nodes)) && Partition(r, Elems(nodes), sccs)
    requires OnCycle(r, x)
    ensures InSome(Kept(adj, sccs), x)
  {
    var out := Kept(adj, sccs);
    var y :| Arc(x, y) in r;
    assert x in Elems(nodes) && InSome(sccs, x);
    var i :| 0 <= i < |sccs| && x in sccs[i];
    KeepIffCyclic(r, adj, nodes, sccs[i], x);
    KeptInto(adj, sccs, sccs[i]);
    SameElems(sccs[i], SortIds(sccs[i]));
    var k :| 0 <= k < |out| && out[k] == SortIds(sccs[i]);
    assert x in out[k];
  }

  lemma KeepIffCyclic(r: Rel, adj: Adjacency, nodes: seq<Id>, c: seq<Id>, x: Id)
    requires Represents(adj, r, Elems(nodes)) && Distinct(c) && IsScc(r, Elems(c)) && x in c
    ensures KeepScc(adj, c) <==> OnCycle(r, x)
  {
    OnCycleIff(r, Elems(c), x);
    var i :| 0 <= i < |c| && c[i] == x;
    if |c| > 1 {
      var j := if i == 0 then 1 else 0;
      assert c[j] in Elems(c) && c[j] != x;
    }
  }

  // Only edges of these kinds join parents to children; the case of the letters counts.
  lemma HierarchyArcsIff(edges: seq<Edge>, a: Id, b: Id)
    ensures Arc(a, b) in HierarchyArcs(edges) <==>
            exists e :: && e in edges && e.src == a && e.dst == b
                        && e.kind in {"contains", "Contains", "CONTAINS", "part-of", "part_of", "partOf", "PartOf",
                                      "parent", "child", "parent_of", "parentOf", "has", "owns"}
  {
  }
}
