/** When merging and comparing files by edge keys is merging and comparing them by triples. */
module FileTriples {
  import opened Order
  import opened Text
  import G = GraphML
  import opened GraphStore
  import opened StoreRoundTrip
  import opened GraphMerge
  import opened EdgeTriples
  import opened MergedFiles
  import D = GraphDiff

  // Kinds read from a file have no outer space, and ids of well-named graphs neither. So
  // what stands between the two ids of an overlap must be open where a kind would start
  // or end.
  ghost predicate FileApart(ids: set<string>) {
    forall x, y, t :: InFile(x, ids) && InFile(y, ids) ==>
      !(Begins(y, x, t) && OpenFront(t)) && !(Closes(y, x, t) && OpenBack(t))
  }

  predicate InFile(id: string, ids: set<string>) { id in ids && id != "" && Trimmed(id) }

  // ---- The condition suffices ----

  lemma FileEdge(doc: G.Doc, g: Value, e: Edge)
    requires Loaded(doc) == G.Ok(g) && WellNamed(g) && e in g.edges
    ensures Trimmed(e.kind) && InFile(e.src, Ids(g.nodes)) && InFile(e.dst, Ids(g.nodes))
  {
    hide Loaded, Trimmed, NodeMirrors, DistinctIds, SortedBy;
    LoadedCanonicalIff(doc, g);
    MirrorsMeans(g);
    KindTrimmed(e);
    var i := IndexOf(g.nodes, e.src);
    var j := IndexOf(g.nodes, e.dst);
  }

  lemma KindTrimmed(e: Edge)
    requires EdgeMirrors(e)
    ensures Trimmed(e.kind)
  {
  }

  lemma FilesFit(docA: G.Doc, docB: G.Doc, a: Value, b: Value)
    requires BothLoad(docA, docB, a, b)
    requires FileApart(Ids(a.nodes) + Ids(b.nodes))
    ensures KeysFit(a.edges, a.edges) && KeysFit(a.edges, b.edges)
    ensures KeysFit(b.edges, a.edges) && KeysFit(b.edges, b.edges)
  {
    hide Loaded, WellNamed, EdgeKey, Begins, Closes, FileApart, Ids, Trimmed, OpenFront, OpenBack;
    var ids := Ids(a.nodes) + Ids(b.nodes);
    forall e | e in a.edges
      ensures Trimmed(e.kind) && InFile(e.src, ids) && InFile(e.dst, ids)
    {
      FileEdge(docA, a, e);
    }
    forall e | e in b.edges
      ensures Trimmed(e.kind) && InFile(e.src, ids) && InFile(e.dst, ids)
    {
      FileEdge(docB, b, e);
    }
    forall e, f | e in a.edges + b.edges && f in a.edges + b.edges && EdgeKey(e) == EdgeKey(f)
      ensures TripleOf(e) == TripleOf(f)
    {
      ApartTells(ids, e, f);
    }
  }

  lemma ApartTells(ids: set<string>, e: Edge, f: Edge)
    requires FileApart(ids) && EdgeKey(e) == EdgeKey(f) && Trimmed(e.kind) && Trimmed(f.kind)
    requires InFile(e.src, ids) && InFile(e.dst, ids) && InFile(f.src, ids) && InFile(f.dst, ids)
    ensures TripleOf(e) == TripleOf(f)
  {
    hide EdgeKey, Begins, Closes, Trimmed, OpenFront, OpenBack;
    if TripleOf(e) != TripleOf(f) {
      var x, y, t, front := Overlap(e, f);
    }
  }

  lemma SameTriples(xs: seq<Edge>, ys: seq<Edge>)
    requires forall e :: e in xs <==> e in ys
    ensures Triples(xs) == Triples(ys)
  {
  }

  // If the ids are apart, the saved merge holds the triples of both files, and only those.
  lemma FilesUnion(docA: G.Doc, docB: G.Doc, a: Value, b: Value, r: Value)
    requires MergedFile(docA, docB, a, b, r) && FileApart(Ids(a.nodes) + Ids(b.nodes))
    ensures Triples(r.edges) == Triples(a.edges) + Triples(b.edges)
  {
    hide Loaded, Written, WellNamed, Merged, KeysFit, FileApart;
    FilesFit(docA, docB, a, b);
    MergedTriples(a, b);
    MergedFileHolds(docA, docB, a, b, r);
    SameTriples(r.edges, Merged(a, b).edges);
  }

  // What a difference says of the edges, in triples.
  ghost predicate ByTriples(a: Value, b: Value, d: D.Diff) {
    && (forall x :: x in d.edgesAdded <==> Triple(x.src, x.kind, x.dst) in Triples(b.edges) - Triples(a.edges))
    && (forall x :: x in d.edgesRemoved <==> Triple(x.src, x.kind, x.dst) in Triples(a.edges) - Triples(b.edges))
  }

  // And a difference lists exactly the triples that only one of the files has.
  lemma FilesDiffer(docA: G.Doc, docB: G.Doc, a: Value, b: Value, d: D.Diff)
    requires BothLoad(docA, docB, a, b)
    requires FileApart(Ids(a.nodes) + Ids(b.nodes)) && D.DiffOk(a, b, d)
    ensures ByTriples(a, b, d)
  {
    hide Loaded, WellNamed, KeysFit, FileApart, D.MissingNodes, D.ChangedNodes, D.MissingEdges;
    FilesFit(docA, docB, a, b);
    forall x { MissingTriple(b.edges, a.edges, d.edgesAdded, x); }
    forall x { MissingTriple(a.edges, b.edges, d.edgesRemoved, x); }
  }

  lemma MissingTriple(xs: seq<Edge>, ys: seq<Edge>, out: seq<D.EdgeDiff>, x: D.EdgeDiff)
    requires D.MissingEdges(xs, ys, out) && KeysFit(xs, ys) && KeysFit(xs, xs)
    ensures x in out <==> Triple(x.src, x.kind, x.dst) in Triples(xs) - Triples(ys)
  {
    hide EdgeKey, D.LastOfKey, D.MissingEdges, KeysFit;
    D.MissingEdgesAre(xs, ys, out, x);
    if x in out {
      var e :| D.LastOfKey(xs, e) && EdgeKey(e) !in Keys(ys) && x == D.Shown(e);
      D.LastUnique(xs, e, e);
      assert TripleOf(e) == Triple(x.src, x.kind, x.dst);
      forall f | f in ys ensures TripleOf(f) != TripleOf(e) { TriplesKey(e, f); }
    }
    forall e | e in xs && TripleOf(e) == Triple(x.src, x.kind, x.dst) && TripleOf(e) !in Triples(ys)
      ensures exists l :: D.LastOfKey(xs, l) && EdgeKey(l) !in Keys(ys) && x == D.Shown(l)
    {
      OnlyHere(xs, ys, e);
      var l := LastLike(xs, e);
      D.LastUnique(xs, l, l);
      SameTriple(xs, l, e);
      assert EdgeKey(l) !in Keys(ys) && x == D.Shown(l);
    }
  }

  lemma TriplesKey(e: Edge, f: Edge)
    ensures TripleOf(e) == TripleOf(f) ==> EdgeKey(e) == EdgeKey(f)
  {
  }

  lemma SameTriple(xs: seq<Edge>, e: Edge, f: Edge)
    requires KeysFit(xs, xs) && e in xs && f in xs && EdgeKey(e) == EdgeKey(f)
    ensures TripleOf(e) == TripleOf(f)
  {
    hide EdgeKey;
  }

  lemma OnlyHere(xs: seq<Edge>, ys: seq<Edge>, e: Edge)
    requires KeysFit(xs, ys) && e in xs && TripleOf(e) !in Triples(ys)
    ensures EdgeKey(e) !in Keys(ys)
  {
    hide EdgeKey;
  }

  // The last edge with the key of another.
  lemma {:induction false} LastLike(xs: seq<Edge>, e: Edge) returns (l: Edge)
    requires e in xs
    ensures D.LastOfKey(xs, l) && EdgeKey(l) == EdgeKey(e)
  {
    hide EdgeKey, D.LastOfKey;
    var n := |xs| - 1;
    assert xs == xs[..n] + [xs[n]];
    if EdgeKey(e) == EdgeKey(xs[n]) {
      l := xs[n];
    } else {
      l := LastLike(xs[..n], e);
    }
    D.LastSnoc(xs[..n], xs[n], l);
  }

  // ---- The condition is necessary ----

  function PlainNode(id: string): Node { Node(id, "", id, map[G.ARCHMOTIF_ID := id]) }

  // A file with two plain nodes and one edge.
  lemma EdgeFile(x: string, y: string, e: Edge) returns (doc: G.Doc, g: Value)
    requires x != y && x != "" && y != "" && Trimmed(x) && Trimmed(y)
    requires e.src in {x, y} && e.dst in {x, y} && EdgeMirrors(e)
    ensures Loaded(doc) == G.Ok(g) && WellNamed(g) && Ids(g.nodes) == {x, y} && g.edges == [e]
    ensures g.nodes == Sorted(Value(true, [PlainNode(x), PlainNode(y)], [])).nodes
  {
    hide Loaded, Written, WellNamed, EdgeMirrors, LexLe, NodeMirrors, PlainNode, TotalPreorder, Sorted, Mirrors;
    var v := Value(true, [PlainNode(x), PlainNode(y)], [e]);
    PlainMirrors(x);
    PlainMirrors(y);
    assert v.nodes[0] in v.nodes && v.nodes[1] in v.nodes;
    assert Ids(v.nodes) == {x, y};
    MirrorsMeans(v);
    ReloadSorts(v);
    doc, g := Written(v).doc, Sorted(v);
    SavedIsWellNamed(v, g);
    SortedSame(v);
    SortedOneEdge(v, e);
  }

  lemma SortedOneEdge(v: Value, e: Edge)
    requires v.edges == [e]
    ensures Sorted(v).edges == [e]
    ensures Sorted(v).nodes == Sorted(v.(edges := [])).nodes
  {
    hide LexLe, G.TripleLe, TotalPreorder;
    Orders();
    assert SortedBy([e], ByEnds);
  }

  lemma SortedSame(g: Value)
    ensures Ids(Sorted(g).nodes) == Ids(g.nodes)
  {
    hide LexLe, TotalPreorder;
    Orders();
    SameElems(g.nodes, Sorted(g).nodes);
  }

  lemma PlainMirrors(id: string)
    requires id != "" && Trimmed(id)
    ensures NodeMirrors(PlainNode(id)) && PlainNode(id).id == id
  {
  }

  lemma OverlapEdgesMirror(e: Edge, f: Edge)
    requires Trimmed(e.kind) && e.kind != "" && f.kind == ""
    requires e.attrs == map["kind" := e.kind] && f.attrs == map[]
    ensures EdgeMirrors(e) && EdgeMirrors(f)
  {
    hide Trimmed;
  }

  // Ids that are not apart occur in two files whose merge loses an edge.
  lemma FilesCollide(x: string, y: string, t: string, front: bool)
    returns (docA: G.Doc, docB: G.Doc, a: Value, b: Value, r: Value)
    requires x != "" && y != "" && Trimmed(x) && Trimmed(y)
    requires if front then Begins(y, x, t) && OpenFront(t) else Closes(y, x, t) && OpenBack(t)
    ensures MergedFile(docA, docB, a, b, r) && a.nodes == b.nodes && Ids(a.nodes) == {x, y}
    ensures Keys(a.edges) == Keys(b.edges)
    ensures |a.edges| == |b.edges| == 1 && r.edges == a.edges && Triples(r.edges) != Triples(a.edges) + Triples(b.edges)
  {
    hide Loaded, Written, WellNamed, Merged, Trimmed, OpenFront, OpenBack, EdgeMirrors, MergedFile, EdgeKey;
    var e, f := Collision(x, y, t, front);
    assert |y| > |x|;
    OverlapEdgesMirror(e, f);
    docA, a := EdgeFile(x, y, e);
    docB, b := EdgeFile(x, y, f);
    r := MergedFileLoads(docA, docB, a, b);
    MergeDrops(a, b, e, f);
    assert Keys([e]) == {EdgeKey(e)} && Keys([f]) == {EdgeKey(f)};
    OneEdgeBack(docA, docB, a, b, r, e);
  }

  lemma OneEdgeBack(docA: G.Doc, docB: G.Doc, a: Value, b: Value, r: Value, e: Edge)
    requires MergedFile(docA, docB, a, b, r) && Merged(a, b).edges == [e]
    ensures r.edges == [e]
  {
    hide MergedFile, Merged, Canonical, WellNamed, SurvivesSave, LexLe, TotalPreorder;
    MergedFileIs(docA, docB, a, b, r);
    Orders();
    assert SortedBy([e], ByEnds);
  }

  // Every merge of files over these ids holds the union of their triples, exactly if the
  // ids are apart.
  lemma FilesUnionIff(ids: set<string>)
    ensures (forall docA, docB, a, b, r ::
               MergedFile(docA, docB, a, b, r) && Ids(a.nodes) + Ids(b.nodes) <= ids ==>
                 Triples(r.edges) == Triples(a.edges) + Triples(b.edges))
            <==> FileApart(ids)
  {
    hide MergedFile, Begins, Closes, OpenFront, OpenBack, Trimmed, Ids, Triples;
    if FileApart(ids) {
      forall docA, docB, a, b, r | MergedFile(docA, docB, a, b, r) && Ids(a.nodes) + Ids(b.nodes) <= ids
        ensures Triples(r.edges) == Triples(a.edges) + Triples(b.edges)
      {
        FewerApart(Ids(a.nodes) + Ids(b.nodes), ids);
        FilesUnion(docA, docB, a, b, r);
      }
    } else {
      var x, y, t :| InFile(x, ids) && InFile(y, ids)
        && ((Begins(y, x, t) && OpenFront(t)) || (Closes(y, x, t) && OpenBack(t)));
      var docA, docB, a, b, r := FilesCollide(x, y, t, Begins(y, x, t) && OpenFront(t));
    }
  }

  // And every difference of such files is one of triples, under the same condition.
  lemma FilesDifferIff(ids: set<string>)
    ensures (forall docA, docB, a, b, d ::
               BothLoad(docA, docB, a, b) && Ids(a.nodes) + Ids(b.nodes) <= ids && D.DiffOk(a, b, d) ==>
                 ByTriples(a, b, d))
            <==> FileApart(ids)
  {
    hide BothLoad, Written, Merged, Begins, Closes, OpenFront, OpenBack, Trimmed, Ids, Triples, D.DiffOk, ByTriples;
    if FileApart(ids) {
      forall docA, docB, a, b, d |
          BothLoad(docA, docB, a, b) && Ids(a.nodes) + Ids(b.nodes) <= ids && D.DiffOk(a, b, d)
        ensures ByTriples(a, b, d)
      {
        FewerApart(Ids(a.nodes) + Ids(b.nodes), ids);
        FilesDiffer(docA, docB, a, b, d);
      }
    } else {
      var x, y, t :| InFile(x, ids) && InFile(y, ids)
        && ((Begins(y, x, t) && OpenFront(t)) || (Closes(y, x, t) && OpenBack(t)));
      var docA, docB, a, b, d := ChangeUnreported(x, y, t, Begins(y, x, t) && OpenFront(t));
    }
  }

  // The edge that a merge of the two files would lose is not reported as their difference.
  lemma ChangeUnreported(x: string, y: string, t: string, front: bool)
    returns (docA: G.Doc, docB: G.Doc, a: Value, b: Value, d: D.Diff)
    requires x != "" && y != "" && Trimmed(x) && Trimmed(y)
    requires if front then Begins(y, x, t) && OpenFront(t) else Closes(y, x, t) && OpenBack(t)
    ensures BothLoad(docA, docB, a, b) && Ids(a.nodes) == Ids(b.nodes) == {x, y}
    ensures D.DiffOk(a, b, d) && !ByTriples(a, b, d)
  {
    hide BothLoad, Canonical, SurvivesSave, WellNamed, Merged, Sorted, Triples, Trimmed, D.DiffOk, ByTriples;
    var r;
    docA, docB, a, b, r := FilesCollide(x, y, t, front);
    MergedFileIs(docA, docB, a, b, r);
    NothingReported(a, b);
    NotByTriples(a, b, r);
    d := D.Diff([], [], [], [], []);
  }

  lemma NothingReported(a: Value, b: Value)
    requires DistinctIds(a.nodes) && a.nodes == b.nodes && Keys(a.edges) == Keys(b.edges)
    ensures D.DiffOk(a, b, D.Diff([], [], [], [], []))
  {
    hide EdgeKey;
    forall n | n in a.nodes ensures n.id in Ids(a.nodes) && !D.Differs(n, n) { }
    forall m, n | m in a.nodes && n in b.nodes && m.id == n.id ensures !D.Differs(m, n) { SameNode(a.nodes, m, n); }
  }

  lemma NotByTriples(a: Value, b: Value, r: Value)
    requires r.edges == a.edges && Triples(r.edges) != Triples(a.edges) + Triples(b.edges)
    ensures !ByTriples(a, b, D.Diff([], [], [], [], []))
  {
    var t :| t in Triples(b.edges) && t !in Triples(a.edges);
    var d := D.Diff([], [], [], [], []);
    assert D.EdgeDiff(t.src, t.dst, t.kind) !in d.edgesAdded;
  }

  lemma FewerApart(some: set<string>, ids: set<string>)
    requires some <= ids && FileApart(ids)
    ensures FileApart(some)
  {
    hide Begins, Closes, OpenFront, OpenBack, Trimmed;
    forall x, y, t | InFile(x, some) && InFile(y, some)
      ensures !(Begins(y, x, t) && OpenFront(t)) && !(Closes(y, x, t) && OpenBack(t))
    {
      assert InFile(x, ids) && InFile(y, ids);
    }
  }
}
