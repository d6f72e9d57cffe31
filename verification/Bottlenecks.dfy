/** The articulation detector end to end: projection, search, filter, findings. */
module Bottlenecks {
  import opened Order
  import opened Walks
  import opened CutVertices
  import opened Articulation

  // The undirected projection: directions, loops and multiplicities are forgotten.
  ghost function Projection(edges: seq<Edge>): Rel {
    (set e | e in edges && e.src != e.dst :: Arc(e.src, e.dst))
    + (set e | e in edges && e.src != e.dst :: Arc(e.dst, e.src))
  }

  ghost predicate AdjacencySets(tmp: map<Id, set<Id>>, r: Rel) {
    && (forall e :: e in r ==> e.src in tmp && e.dst in tmp[e.src])
    && (forall v, w :: v in tmp && w in tmp[v] ==> Arc(v, w) in r)
  }

  // undirectedAdjacency: every node gets the ascending list of its neighbours.
  method UndirectedAdjacency(nodes: seq<Id>, edges: seq<Edge>) returns (adj: Adjacency)
    requires EdgesWithin(edges, nodes)
    ensures adj.Keys == Elems(nodes) && Undirected(Projection(edges))
    ensures Represents(adj, Projection(edges), Elems(nodes))
    ensures forall v :: Ascending(Succ(adj, v))
  {
    hide Undirected, Projection, AdjacencySets, Ascending, Represents;
    var tmp := NeighbourSets(nodes, edges);
    adj := map v | v in tmp :: SortedSeq(tmp[v]);
    ProjectionWithin(nodes, edges);
    SetsRepresent(tmp, Projection(edges), adj);
  }

  method NeighbourSets(nodes: seq<Id>, edges: seq<Edge>) returns (tmp: map<Id, set<Id>>)
    requires EdgesWithin(edges, nodes)
    ensures tmp.Keys == Elems(nodes) && AdjacencySets(tmp, Projection(edges))
  {
    tmp := map[];
    for i := 0 to |nodes|
      invariant tmp.Keys == Elems(nodes[..i]) && forall v :: v in tmp ==> tmp[v] == {}
    {
      assert nodes[..i + 1] == nodes[..i] + [nodes[i]];
      tmp := tmp[nodes[i] := {}];
    }
    assert nodes[..|nodes|] == nodes;
    hide Projection, AdjacencySets;
    NoSets(tmp);
    for i := 0 to |edges|
      invariant tmp.Keys == Elems(nodes) && AdjacencySets(tmp, Projection(edges[..i]))
    {
      var e := edges[i];
      assert e in edges;
      ProjectionSnoc(edges, i);
      if e.src != e.dst {
        JoinSets(tmp, Projection(edges[..i]), e.src, e.dst);
        tmp := tmp[e.src := tmp[e.src] + {e.dst}];
        tmp := tmp[e.dst := tmp[e.dst] + {e.src}];
      }
    }
    assert edges[..|edges|] == edges;
  }

  lemma NoSets(tmp: map<Id, set<Id>>)
    requires forall v :: v in tmp ==> tmp[v] == {}
    ensures AdjacencySets(tmp, Projection([]))
  {
  }

  lemma JoinSets(tmp: map<Id, set<Id>>, r: Rel, a: Id, b: Id)
    requires AdjacencySets(tmp, r) && a in tmp && b in tmp && a != b
    ensures var t := tmp[a := tmp[a] + {b}];
            AdjacencySets(t[b := t[b] + {a}], r + {Arc(a, b), Arc(b, a)})
  {
  }

  lemma SetsRepresent(tmp: map<Id, set<Id>>, r: Rel, adj: Adjacency)
    requires AdjacencySets(tmp, r) && adj == map v | v in tmp :: SortedSeq(tmp[v])
    requires forall a :: a in r ==> a.src in tmp.Keys && a.dst in tmp.Keys
    ensures Represents(adj, r, tmp.Keys) && forall v :: Ascending(Succ(adj, v))
  {
    forall v, w ensures w in Succ(adj, v) <==> Arc(v, w) in r {
      var a := Arc(v, w);
      if v in tmp {
        assert w in adj[v] <==> w in Elems(adj[v]);
        assert a in r ==> a.dst in tmp[a.src];
      } else {
        assert a in r ==> a.src in tmp;
      }
    }
  }

  lemma ProjectionSnoc(edges: seq<Edge>, i: nat)
    requires i < |edges|
    ensures var e := edges[i];
            Projection(edges[..i + 1]) == Projection(edges[..i])
              + (if e.src != e.dst then {Arc(e.src, e.dst), Arc(e.dst, e.src)} else {})
  {
    assert edges[..i + 1] == edges[..i] + [edges[i]];
  }

  lemma ProjectionWithin(nodes: seq<Id>, edges: seq<Edge>)
    requires EdgesWithin(edges, nodes)
    ensures Undirected(Projection(edges))
    ensures forall a :: a in Projection(edges) ==> a.src in Elems(nodes) && a.dst in Elems(nodes)
  {
  }

  // The declarative score: the size of the largest component of the graph without u
  // that is next to u and misses the anchor.
  ghost predicate LargestGuarded(r: Rel, u: Id, anchor: Id, size: int) {
    && (exists k :: Guarded(r, u, anchor, k) && |k| == size)
    && (forall k :: Guarded(r, u, anchor, k) ==> |k| <= size)
  }

  ghost predicate IsLeastNode(r: Rel, u: Id) { forall y {:trigger Reach(r, u, y)} :: Reach(r, u, y) ==> u <= y }

  // The node whose side of u does not count: the least node of u's component, or, for
  // that node itself, its least neighbour.
  ghost predicate IsHome(r: Rel, u: Id, home: Id) {
    if IsLeastNode(r, u) then home == (if Neighbours(r, u) == {} then u else Least(Neighbours(r, u)))
    else Reach(r, u, home) && IsLeastNode(r, home)
  }

  datatype Finding = Finding(node: Id, score: int)

  // The findings are the cut vertices whose score reaches the threshold, in ascending
  // order, each with its score.
  ghost predicate FindingsOk(r: Rel, nodes: set<Id>, min: int, out: seq<Finding>) {
    && (forall i, j :: 0 <= i < j < |out| ==> out[i].node < out[j].node)
    && (forall f {:trigger f in out} :: f in out <==> f.node in nodes && f.score >= min && Scored(r, f.node, f.score))
  }

  // u is a cut vertex, and of all components of the graph without u that are next to u,
  // the one with the home node aside, the largest has this size.
  ghost predicate Scored(r: Rel, u: Id, score: int) {
    IsCut(r, u) && exists home :: IsHome(r, u, home) && LargestGuarded(r, u, home, score)
  }

  lemma HomeUnique(r: Rel, u: Id, a: Id, b: Id)
    requires Undirected(r) && IsHome(r, u, a) && IsHome(r, u, b)
    ensures a == b
  {
    if !IsLeastNode(r, u) {
      ReachSymmetric(r, u, a);
      ReachSymmetric(r, u, b);
      ReachTrans(r, a, u, b);
      ReachTrans(r, b, u, a);
    }
  }

  lemma ScoreUnique(r: Rel, u: Id, a: int, b: int)
    requires Undirected(r) && Scored(r, u, a) && Scored(r, u, b)
    ensures a == b
  {
    var ha :| IsHome(r, u, ha) && LargestGuarded(r, u, ha, a);
    var hb :| IsHome(r, u, hb) && LargestGuarded(r, u, hb, b);
    HomeUnique(r, u, ha, hb);
    var ka :| Guarded(r, u, ha, ka) && |ka| == a;
    var kb :| Guarded(r, u, hb, kb) && |kb| == b;
  }

  // The findings are determined by the projection and the threshold alone.
  lemma {:induction false} FindingsUnique(r: Rel, nodes: set<Id>, min: int, out: seq<Finding>, out': seq<Finding>)
    requires Undirected(r) && FindingsOk(r, nodes, min, out) && FindingsOk(r, nodes, min, out')
    ensures out == out'
  {
    hide Scored, Undirected;
    var a := seq(|out|, i requires 0 <= i < |out| => out[i].node);
    var b := seq(|out'|, i requires 0 <= i < |out'| => out'[i].node);
    forall f ensures f in out <==> f in out' { }
    forall i | 0 <= i < |a|
      ensures a[i] in b
    {
      assert out[i] in out';
      var j :| 0 <= j < |out'| && out'[j] == out[i];
      assert b[j] == a[i];
    }
    forall j | 0 <= j < |b|
      ensures b[j] in a
    {
      assert out'[j] in out;
      var i :| 0 <= i < |out| && out[i] == out'[j];
      assert a[i] == b[j];
    }
    AscendingUnique(a, b);
    forall i | 0 <= i < |out| ensures out[i] == out'[i] {
      assert a[i] == b[i] && out[i] in out && out'[i] in out';
      ScoreUnique(r, out[i].node, out[i].score, out'[i].score);
    }
  }

  // A home on the anchor's side of u spares the same components as the anchor.
  lemma HomeForAnchor(r: Rel, u: Id, anchor: Id, home: Id, k: set<Id>)
    requires Undirected(r) && Reach(Avoid(r, u), anchor, home)
    ensures Guarded(r, u, anchor, k) <==> Guarded(r, u, home, k)
  {
    var n := Avoid(r, u);
    AvoidSymmetric(r, u, anchor, home);
    if IsScc(n, k) {
      if anchor in k { assert Mutual(n, anchor, home); }
      if home in k { assert Mutual(n, home, anchor); }
    }
  }

  lemma ScoreIsLargest(r: Rel, u: Id, anchor: Id, home: Id, art: map<Id, int>, size: int)
    requires Undirected(r) && ScoreOk(r, u, anchor, art) && AnchorOk(r, u, anchor, home)
    ensures Scored(r, u, size) <==> u in art && size == art[u]
  {
    hide IsHome, Guarded, IsCut;
    CutIffGuarded(r, u, anchor);
    forall k {:trigger Guarded(r, u, home, k)} ensures Guarded(r, u, anchor, k) <==> Guarded(r, u, home, k) {
      HomeForAnchor(r, u, anchor, home, k);
    }
    if Scored(r, u, size) {
      var h :| IsHome(r, u, h) && LargestGuarded(r, u, h, size);
      HomeUnique(r, u, h, home);
      var c :| Guarded(r, u, home, c) && |c| == size;
      var k :| Guarded(r, u, anchor, k) && |k| == art[u];
      assert Guarded(r, u, home, k);
    }
    if u in art {
      var k :| Guarded(r, u, anchor, k) && |k| == art[u];
      assert Guarded(r, u, home, k);
      assert LargestGuarded(r, u, home, art[u]);
    }
  }

  // The anchor is a neighbour, if there is one, on the home side of u.
  ghost predicate AnchorOk(r: Rel, u: Id, anchor: Id, home: Id) {
    && (Neighbours(r, u) != {} ==> anchor in Neighbours(r, u))
    && IsHome(r, u, home) && Reach(Avoid(r, u), anchor, home)
  }

  method Detect(nodes: seq<Id>, edges: seq<Edge>, minComponentSize: int) returns (out: seq<Finding>)
    requires EdgesWithin(edges, nodes)
    ensures FindingsOk(Projection(edges), Elems(nodes), if minComponentSize <= 0 then 2 else minComponentSize, out)
  {
    hide Wf, Undirected, Represents, ScoreOk, RootIsLeast, Guarded, IsCut, AnchorOk, LargestGuarded, Ascending;
    hide FindingsOk;
    var min := if minComponentSize <= 0 then 2 else minComponentSize;
    ghost var r := Projection(edges);
    var adj := UndirectedAdjacency(nodes, edges);
    var search := new CutSearch(adj, r, Elems(nodes));
    var sorted := SortedSeq(adj.Keys);
    search.Run(sorted);
    ghost var homes := HomesFor(search, r, Elems(nodes));
    var cuts := SortedSeq(search.isArt.Keys);
    out := Filter(cuts, search.isArt, min);
    FilterIsReport(r, Elems(nodes), homes, search.Snapshot(), cuts, min, out);
  }

  // The last loop of Detect.
  method Filter(cuts: seq<Id>, art: map<Id, int>, min: int) returns (out: seq<Finding>)
    requires Ascending(cuts) && Elems(cuts) == art.Keys
    ensures forall i, j :: 0 <= i < j < |out| ==> out[i].node < out[j].node
    ensures forall f :: f in out <==> f.node in art && art[f.node] == f.score && f.score >= min
  {
    out := [];
    for i := 0 to |cuts|
      invariant forall f :: f in out <==>
                  f.node in cuts[..i] && f.node in art && art[f.node] == f.score && f.score >= min
      invariant forall j, k :: 0 <= j < k < |out| ==> out[j].node < out[k].node
    {
      var n := cuts[i];
      assert cuts[..i + 1] == cuts[..i] + [n];
      assert n in Elems(cuts);
      assert forall m :: m in cuts[..i] ==> m < n;
      assert forall j :: 0 <= j < |out| ==> out[j] in out;
      if art[n] >= min {
        out := out + [Finding(n, art[n])];
      }
    }
    assert cuts[..|cuts|] == cuts;
    assert forall n :: n in cuts <==> n in Elems(cuts);
  }

  // The home node of every node, on the side of its anchor.
  lemma HomesFor(search: CutSearch, r: Rel, nodes: set<Id>) returns (homes: map<Id, Id>)
    requires search.Valid() && search.r == r && search.disc.Keys == nodes
    requires forall x :: x in nodes ==> RootIsLeast(r, search.parent, x)
    requires forall e :: e in r ==> e.src in nodes && e.dst in nodes
    ensures Undirected(r) && homes.Keys == nodes
    ensures forall u :: u in nodes ==> AnchorOk(r, u, Anchor(r, search.parent, u), homes[u])
  {
    homes := map[];
    var todo := nodes;
    while todo != {}
      invariant todo <= nodes && homes.Keys == nodes - todo
      invariant forall u :: u in homes ==> AnchorOk(r, u, Anchor(r, search.parent, u), homes[u])
      decreases todo
    {
      var u: Id := Pick(todo);
      var home := HomeOf(r, search.parent, search.disc, nodes, u);
      homes := homes[u := home];
      todo := todo - {u};
    }
  }

  lemma HomeOf(r: Rel, parent: map<Id, Id>, disc: map<Id, int>, nodes: set<Id>, u: Id) returns (home: Id)
    requires Undirected(r) && TreeOk(r, parent, disc) && disc.Keys == nodes && u in nodes
    requires forall x :: x in disc ==> 0 < disc[x]
    requires forall x :: x in nodes ==> RootIsLeast(r, parent, x)
    requires forall e :: e in r ==> e.src in nodes && e.dst in nodes
    ensures AnchorOk(r, u, Anchor(r, parent, u), home)
  {
    assert RootIsLeast(r, parent, u);
    if u !in parent {
      home := Anchor(r, parent, u);
      ReachRefl(Avoid(r, u), home);
    } else {
      var p := parent[u];
      assert Arc(p, u) in r && Arc(u, p).dst in Neighbours(r, u);
      home := Climb(r, parent, disc, u, p);
      RootReached(r, parent, nodes, u, p, home);
    }
  }

  lemma RootReached(r: Rel, parent: map<Id, Id>, nodes: set<Id>, u: Id, p: Id, m: Id)
    requires Undirected(r) && Arc(u, p) in r && Reach(Avoid(r, u), p, m) && m !in parent && u in nodes
    requires forall x :: x in nodes ==> RootIsLeast(r, parent, x)
    requires forall e :: e in r ==> e.src in nodes && e.dst in nodes
    ensures Reach(r, u, m) && IsLeastNode(r, m)
  {
    ReachMono(Avoid(r, u), r, p, m);
    ReachEdge(r, u, p);
    ReachTrans(r, u, p, m);
    assert Closed(r, nodes);
    ReachClosed(r, nodes, u, m);
    assert RootIsLeast(r, parent, m);
  }

  lemma FilterIsReport(r: Rel, nodes: set<Id>, homes: map<Id, Id>, s: Dfs, cuts: seq<Id>, min: int, out: seq<Finding>)
    requires Undirected(r) && Scores(r, s, {}) && s.disc.Keys == nodes && s.art.Keys <= nodes && homes.Keys == nodes
    requires forall u :: u in nodes ==> AnchorOk(r, u, Anchor(r, s.parent, u), homes[u])
    requires forall i, j :: 0 <= i < j < |out| ==> out[i].node < out[j].node
    requires forall f :: f in out <==> f.node in s.art && s.art[f.node] == f.score && f.score >= min
    ensures FindingsOk(r, nodes, min, out)
  {
    hide ScoreOk, AnchorOk, Scored, Undirected, Anchor;
    forall f {:trigger f in out} ensures f in out <==> f.node in nodes && f.score >= min && Scored(r, f.node, f.score) {
      if f.node in nodes {
        var u := f.node;
        assert ScoreOk(r, u, Anchor(r, s.parent, u), s.art);
        ScoreIsLargest(r, u, Anchor(r, s.parent, u), homes[u], s.art, f.score);
      }
    }
  }

  ghost predicate NextTo(r: Rel, u: Id, k: set<Id>) {
    IsScc(Avoid(r, u), k) && Touches(r, u, k)
  }

  // What the detector's documentation promises: the size of the largest component next to u.
  ghost predicate LargestNextTo(r: Rel, u: Id, size: int) {
    && (exists k :: NextTo(r, u, k) && |k| == size)
    && (forall k :: NextTo(r, u, k) ==> |k| <= size)
  }

  // The component of the home node is never counted, so the score is as documented exactly
  // if some other component next to u is at least as large.
  lemma ScoreIsLargestOfAllIff(r: Rel, u: Id, home: Id, score: int)
    requires Undirected(r) && IsHome(r, u, home) && Scored(r, u, score)
    ensures LargestNextTo(r, u, score) <==> exists k :: Guarded(r, u, home, k) && |ComponentOf(r, u, home)| <= |k|
  {
    hide IsHome, IsCut;
    var h :| IsHome(r, u, h) && LargestGuarded(r, u, h, score);
    HomeUnique(r, u, h, home);
    CutHasNeighbours(r, u);
    var c := ComponentOf(r, u, home);
    ComponentOfIsScc(r, u, home);
    HomeSideTouches(r, u, home);
    assert NextTo(r, u, c);
    forall k | NextTo(r, u, k) ensures k == c || Guarded(r, u, home, k) {
      if home in k { SameComponent(Avoid(r, u), k, c, home); }
    }
    var most :| Guarded(r, u, home, most) && |most| == score;
    assert NextTo(r, u, most);
  }

  lemma CutHasNeighbours(r: Rel, u: Id)
    requires Undirected(r) && IsCut(r, u)
    ensures Neighbours(r, u) != {}
  {
    var a, b :| a != u && b != u && Reach(r, a, b) && !Reach(Avoid(r, u), a, b);
    if Neighbours(r, u) == {} {
      forall e | e in r ensures e in Avoid(r, u) {
        assert e.src == u ==> e.dst in Neighbours(r, u);
        assert e.dst == u ==> Arc(e.dst, e.src).dst in Neighbours(r, u);
      }
      ReachMono(r, Avoid(r, u), a, b);
    }
  }

  // u has an edge into the component of its home node.
  lemma HomeSideTouches(r: Rel, u: Id, home: Id)
    requires Undirected(r) && IsHome(r, u, home) && Neighbours(r, u) != {}
    ensures Touches(r, u, ComponentOf(r, u, home))
  {
    var c := ComponentOf(r, u, home);
    ComponentOfIsScc(r, u, home);
    if IsLeastNode(r, u) {
      var e :| e in r && e.src == u && e.dst == home;
      assert home in c && Arc(u, home) in r;
    } else {
      var x := FirstStep(r, u, home);
      assert Mutual(Avoid(r, u), home, x) by { AvoidSymmetric(r, u, x, home); }
    }
  }

  // The last time a walk leaves u.
  lemma FirstStep(r: Rel, u: Id, home: Id) returns (x: Id)
    requires Reach(r, u, home) && u != home
    ensures Arc(u, x) in r && Reach(Avoid(r, u), x, home)
  {
    var p :| WalkFromTo(r, p, u, home);
    var i := |p| - 1;
    ReachRefl(Avoid(r, u), home);
    while p[i - 1] != u
      invariant 0 < i < |p| && p[i] != u && Reach(Avoid(r, u), p[i], home)
      decreases i
    {
      assert i > 1;
      assert Step(r, p, i - 1);
      ReachEdge(Avoid(r, u), p[i - 1], p[i]);
      ReachTrans(Avoid(r, u), p[i - 1], p[i], home);
      i := i - 1;
    }
    assert Step(r, p, i - 1);
    x := p[i];
  }

  ghost function Both(a: Id, b: Id): Rel { {Arc(a, b), Arc(b, a)} }

  // A root with the branches 2-3-4 and 5 is scored 1, although it guards {2, 3, 4}: the
  // first branch does not count, and the default threshold then drops the finding.
  lemma RootScoreLeavesOutFirstBranch(r: Rel)
    requires r == Both(1, 2) + Both(2, 3) + Both(3, 4) + Both(1, 5)
    ensures Undirected(r) && Scored(r, 1, 1)
    ensures NextTo(r, 1, {2, 3, 4}) && !LargestNextTo(r, 1, 1)
    ensures forall out, f: Finding :: FindingsOk(r, {1, 2, 3, 4, 5}, 2, out) && f in out ==> f.node != 1
  {
    BranchesOf(r);
    RootHome(r);
    assert IsCut(r, 1) by { hide IsCut; CutIffGuarded(r, 1, 2); }
    forall out, f: Finding | FindingsOk(r, {1, 2, 3, 4, 5}, 2, out) && f in out ensures f.node != 1 {
      if f.node == 1 { ScoreUnique(r, 1, 1, f.score); }
    }
  }

  lemma RootHome(r: Rel)
    requires r == Both(1, 2) + Both(2, 3) + Both(3, 4) + Both(1, 5) && Neighbours(r, 1) == {2, 5}
    ensures IsHome(r, 1, 2)
  {
    forall y {:trigger Reach(r, 1, y)} | Reach(r, 1, y) ensures 1 <= y { ReachClosed(r, {1, 2, 3, 4, 5}, 1, y); }
  }

  lemma BranchesOf(r: Rel)
    requires r == Both(1, 2) + Both(2, 3) + Both(3, 4) + Both(1, 5)
    ensures Undirected(r) && Neighbours(r, 1) == {2, 5}
    ensures LargestGuarded(r, 1, 2, 1) && NextTo(r, 1, {2, 3, 4}) && |{2, 3, 4}| == 3
  {
    var n := Avoid(r, 1);
    assert Arc(1, 2).dst in Neighbours(r, 1) && Arc(1, 5).dst in Neighbours(r, 1);
    assert Neighbours(r, 1) == {2, 5};
    assert n == Both(2, 3) + Both(3, 4);
    ReachEdge(n, 2, 3); ReachEdge(n, 3, 4); ReachEdge(n, 4, 3); ReachEdge(n, 3, 2);
    ReachTrans(n, 2, 3, 4); ReachTrans(n, 4, 3, 2);
    ClosedScc(n, {2, 3, 4}, 2);
    ClosedScc(n, {5}, 5);
    assert Touches(r, 1, {2, 3, 4}) && Touches(r, 1, {5});
    assert Guarded(r, 1, 2, {5});
    forall k | Guarded(r, 1, 2, k) ensures k == {5} {
      var x :| x in k && Arc(1, x) in r;
      assert Arc(1, x).dst in Neighbours(r, 1);
      SameComponent(n, k, {5}, x);
    }
  }

  lemma ClosedScc(r: Rel, c: set<Id>, top: Id)
    requires top in c && Closed(r, c) && forall x :: x in c && x != top ==> Mutual(r, top, x)
    ensures IsScc(r, c)
  {
    ReachRefl(r, top);
    forall a, b {:trigger Reach(r, a, b)} | a in c && b in c ensures Reach(r, a, b) {
      assert a != top ==> Mutual(r, top, a);
      assert b != top ==> Mutual(r, top, b);
      ReachTrans(r, a, top, b);
    }
    forall a, b {:trigger Mutual(r, a, b)} | a in c && Mutual(r, a, b) ensures b in c { ReachClosed(r, c, a, b); }
  }

  // Two nodes are joined exactly if they differ and an edge leads from one to the other.
  lemma ProjectionIff(edges: seq<Edge>, a: Id, b: Id)
    ensures Arc(a, b) in Projection(edges) <==>
            a != b && exists e :: e in edges && {e.src, e.dst} == {a, b}
  {
    if a != b && exists e :: e in edges && {e.src, e.dst} == {a, b} {
      var e :| e in edges && {e.src, e.dst} == {a, b};
      assert e.src in {a, b} && e.dst in {a, b} && a in {e.src, e.dst} && b in {e.src, e.dst};
    }
  }
}
