/** What two files hold after one was merged into the other and saved.

    Every call loads its files, so the results are about the saved file as it is read back:
    sorted, and with the kinds and names that its attributes give. */
module MergedFiles {
  import opened Order
  import opened Text
  import opened Wrappers
  import G = GraphML
  import opened GraphStore
  import opened StoreRoundTrip
  import opened GraphMerge
  import D = GraphDiff

  // Both files load to well-named graphs.
  ghost predicate BothLoad(docA: G.Doc, docB: G.Doc, a: Value, b: Value) {
    Loaded(docA) == G.Ok(a) && Loaded(docB) == G.Ok(b) && WellNamed(a) && WellNamed(b)
  }

  // And the saved merge loads to r.
  ghost predicate MergedFile(docA: G.Doc, docB: G.Doc, a: Value, b: Value, r: Value) {
    && BothLoad(docA, docB, a, b)
    && Written(Merged(a, b)).Saved? && Loaded(Written(Merged(a, b)).doc) == G.Ok(r)
  }

  // ---- The merge can be saved ----

  lemma MergedStorable(a: Value, b: Value)
    requires Mirrors(a) && Mirrors(b)
    ensures Storable(Merged(a, b))
  {
    hide MergedNodes, Merged, EdgeKey, NodeStorable, EdgeMirrors;
    MergedIs(a, b);
    MergedDistinct(a.nodes, b.nodes);
    MergedAttached(a, b);
    forall n | n in Merged(a, b).nodes ensures NodeStorable(n) { MergedNodeStorable(a, b, n); }
    forall e | e in Merged(a, b).edges ensures EdgeMirrors(e) {
      if e !in a.edges {
        NewEdgesFrom(b.edges, Keys(a.edges), e);
        var f :| f in b.edges && e == MirroredEdge(f);
        MirroredEdgeIs(f);
      }
    }
  }

  lemma MergedNodeStorable(a: Value, b: Value, n: Node)
    requires Mirrors(a) && Mirrors(b) && n in MergedNodes(a.nodes, b.nodes)
    ensures NodeStorable(n)
  {
    hide AttrsOf, OnlyIn, Filled, NodeStorable, Mirrored, Refreshed;
    var i :| 0 <= i < |MergedNodes(a.nodes, b.nodes)| && MergedNodes(a.nodes, b.nodes)[i] == n;
    if i < |a.nodes| {
      assert a.nodes[i] in a.nodes;
      if a.nodes[i].id in Ids(b.nodes) {
        var j := IndexOf(b.nodes, a.nodes[i].id);
        AttrsOfAt(b.nodes, j);
        StorableClean(b.nodes[j]);
        FilledStorable(a.nodes[i], b.nodes[j].attrs);
      } else {
        AttrsOfAbsent(b.nodes, a.nodes[i].id);
        NothingFilled(a.nodes[i], map[]);
      }
    } else {
      var o := OnlyIn(b.nodes, Ids(a.nodes));
      assert n == o[i - |a.nodes|];
      OnlyInElems(b.nodes, Ids(a.nodes), n);
      var m :| m in b.nodes && n == Mirrored(m);
      MirroredStorable(m);
    }
  }

  lemma StorableClean(n: Node)
    requires NodeStorable(n)
    ensures Clean(n.attrs)
  {
  }

  lemma FilledStorable(n: Node, extra: Attrs)
    requires NodeStorable(n) && Clean(extra)
    ensures NodeStorable(Filled(n, extra))
  {
    hide Trimmed;
  }

  lemma MirroredStorable(n: Node)
    requires NodeMirrors(n)
    ensures NodeStorable(Mirrored(n))
  {
    hide Trimmed;
    var m := n.attrs;
    assert G.Get(m, G.KIND) == n.kind && n.name == DisplayName(m, n.id);
    assert n.kind != "" ==> Trimmed(n.kind);
    assert Trimmed(n.name);
  }

  // ---- What comes back ----

  // Two well-named files can always be merged, saved and loaded again.
  lemma MergedFileLoads(docA: G.Doc, docB: G.Doc, a: Value, b: Value) returns (r: Value)
    requires BothLoad(docA, docB, a, b)
    ensures MergedFile(docA, docB, a, b, r)
  {
    hide Loaded, Written, WellNamed, Mirrors, Storable, Merged, Sorted, AllRefreshed;
    LoadedCanonicalIff(docA, a);
    LoadedCanonicalIff(docB, b);
    MergedStorable(a, b);
    ReloadRefreshes(Merged(a, b));
    r := Sorted(AllRefreshed(Merged(a, b)));
  }

  lemma MergedFileIs(docA: G.Doc, docB: G.Doc, a: Value, b: Value, r: Value)
    requires MergedFile(docA, docB, a, b, r)
    ensures r == Sorted(AllRefreshed(Merged(a, b)))
    ensures Canonical(a) && Canonical(b) && Canonical(r) && WellNamed(r) && SurvivesSave(r)
    ensures DistinctIds(a.nodes) && DistinctIds(b.nodes) && DistinctIds(r.nodes)
  {
    hide Loaded, Written, WellNamed, Mirrors, Storable, Merged, Sorted, AllRefreshed, SurvivesSave;
    LoadedCanonicalIff(docA, a);
    LoadedCanonicalIff(docB, b);
    MergedStorable(a, b);
    ReloadRefreshes(Merged(a, b));
    SavedIsWellNamed(Merged(a, b), r);
    SavingSettles(Merged(a, b), r);
    LoadedCanonicalIff(Written(Merged(a, b)).doc, r);
    MirrorsMeans(a);
    MirrorsMeans(b);
    MirrorsMeans(r);
  }

  // The nodes are those of the merge, refreshed; the edges are those of the merge.
  lemma MergedFileHolds(docA: G.Doc, docB: G.Doc, a: Value, b: Value, r: Value)
    requires MergedFile(docA, docB, a, b, r)
    ensures forall n :: n in Merged(a, b).nodes ==> Refreshed(n) in r.nodes
    ensures forall m :: m in r.nodes ==> exists n :: n in Merged(a, b).nodes && m == Refreshed(n)
    ensures forall e :: e in r.edges <==> e in Merged(a, b).edges
  {
    hide MergedFile, Merged, Refreshed, Canonical, WellNamed, SurvivesSave, Sorted, AllRefreshed;
    MergedFileIs(docA, docB, a, b, r);
    SortedHolds(AllRefreshed(Merged(a, b)));
    RefreshedHolds(Merged(a, b));
  }

  lemma SortedHolds(g: Value)
    ensures forall n :: n in Sorted(g).nodes <==> n in g.nodes
    ensures forall e :: e in Sorted(g).edges <==> e in g.edges
  {
    hide LexLe, TotalPreorder;
    Orders();
    SameElems(g.nodes, Sorted(g).nodes);
    SameElems(g.edges, Sorted(g).edges);
  }

  lemma RefreshedHolds(g: Value)
    ensures forall n :: n in g.nodes ==> Refreshed(n) in AllRefreshed(g).nodes
    ensures forall m :: m in AllRefreshed(g).nodes ==> exists n :: n in g.nodes && m == Refreshed(n)
    ensures AllRefreshed(g).edges == g.edges
  {
    hide Refreshed;
    var r := AllRefreshed(g).nodes;
    forall n | n in g.nodes ensures Refreshed(n) in r {
      var i :| 0 <= i < |g.nodes| && g.nodes[i] == n;
      assert r[i] == Refreshed(n);
    }
    forall m | m in r ensures exists n :: n in g.nodes && m == Refreshed(n) {
      var i :| 0 <= i < |r| && r[i] == m;
      assert g.nodes[i] in g.nodes;
    }
  }

  lemma RefreshedKeeps(n: Node)
    ensures Refreshed(n).id == n.id && Refreshed(n).attrs == n.attrs
  {
  }

  // The saved file holds exactly the ids and edge keys of both.
  lemma MergedFileIsUnion(docA: G.Doc, docB: G.Doc, a: Value, b: Value, r: Value)
    requires MergedFile(docA, docB, a, b, r)
    ensures r.directed == a.directed
    ensures Ids(r.nodes) == Ids(a.nodes) + Ids(b.nodes)
    ensures Keys(r.edges) == Keys(a.edges) + Keys(b.edges)
  {
    hide MergedFile, MergedNodes, Refreshed, EdgeKey, Canonical, WellNamed, SurvivesSave;
    MergedFileIs(docA, docB, a, b, r);
    MergedFileHolds(docA, docB, a, b, r);
    MergedIds(a.nodes, b.nodes);
    MergedKeys(a, b);
    var m := Merged(a, b);
    forall n { RefreshedKeeps(n); }
    forall x | x in Ids(m.nodes) ensures x in Ids(r.nodes) {
      var i := IndexOf(m.nodes, x);
      assert Refreshed(m.nodes[i]) in r.nodes;
    }
  }

  // Merging either file into the saved one again changes nothing, in memory or on disk.
  lemma MergeFileAgain(docA: G.Doc, docB: G.Doc, a: Value, b: Value, r: Value)
    requires MergedFile(docA, docB, a, b, r)
    ensures Merged(r, b) == r && MergedFile(Written(Merged(a, b)).doc, docB, r, b, r)
    ensures Merged(r, a) == r && MergedFile(Written(Merged(a, b)).doc, docA, r, a, r)
  {
    hide Loaded, Written, WellNamed, Canonical, Merged, AttrsOf, EdgeKey;
    MergedFileIs(docA, docB, a, b, r);
    MergedFileIsUnion(docA, docB, a, b, r);
    MergedFileHasAll(docA, docB, a, b, r);
    NothingToMerge(r, b);
    NothingToMerge(r, a);
  }

  // A file merged into itself and saved holds what it held.
  lemma MergeFileSelf(doc: G.Doc, a: Value, r: Value)
    requires MergedFile(doc, doc, a, a, r)
    ensures r == a
  {
    hide Loaded, Written, WellNamed, Merged, Canonical, DistinctIds;
    MergedFileIs(doc, doc, a, a, r);
    MergeSelf(a);
    SurvivesIffCanonical(a);
  }

  lemma MergedFileHasAll(docA: G.Doc, docB: G.Doc, a: Value, b: Value, r: Value)
    requires MergedFile(docA, docB, a, b, r)
    ensures forall m :: m in r.nodes ==>
              AttrsOf(a.nodes, m.id).Keys <= m.attrs.Keys && AttrsOf(b.nodes, m.id).Keys <= m.attrs.Keys
  {
    hide MergedFile, AttrsOf, Refreshed, Merged, WellNamed, SurvivesSave;
    MergedFileIs(docA, docB, a, b, r);
    MergedFileHolds(docA, docB, a, b, r);
    forall m | m in r.nodes
      ensures AttrsOf(a.nodes, m.id).Keys <= m.attrs.Keys && AttrsOf(b.nodes, m.id).Keys <= m.attrs.Keys
    {
      var n :| n in Merged(a, b).nodes && m == Refreshed(n);
      RefreshedKeeps(n);
      var i :| 0 <= i < |Merged(a, b).nodes| && Merged(a, b).nodes[i] == n;
      MergedHasAll(a, b, i);
      MergedHasOwn(a, b, i);
    }
  }

  lemma MergedHasOwn(a: Value, b: Value, i: nat)
    requires DistinctIds(a.nodes) && DistinctIds(b.nodes) && i < |Merged(a, b).nodes|
    ensures var n := Merged(a, b).nodes[i]; AttrsOf(a.nodes, n.id).Keys <= n.attrs.Keys
  {
    hide Mirrored, NewEdges, AttrsOf, OnlyIn;
    if i >= |a.nodes| {
      var o := OnlyIn(b.nodes, Ids(a.nodes));
      OnlyInIds(b.nodes, Ids(a.nodes));
      assert o[i - |a.nodes|] in o && o[i - |a.nodes|].id in Ids(o);
      AttrsOfAbsent(a.nodes, o[i - |a.nodes|].id);
    } else {
      AttrsOfAt(a.nodes, i);
    }
  }

  // ---- What a destination node keeps ----

  // The node that the merge leaves under the id of n, before saving.
  lemma FilledInFile(docA: G.Doc, docB: G.Doc, a: Value, b: Value, r: Value, n: Node, m: Node)
    requires MergedFile(docA, docB, a, b, r) && n in a.nodes && m in r.nodes && m.id == n.id
    ensures m == Refreshed(Filled(n, AttrsOf(b.nodes, n.id))) && NodeMirrors(n) && NodeMirrors(m)
  {
    hide MergedFile, AttrsOf, Refreshed, WellNamed, SurvivesSave, MergedNodes, Filled, NewEdges;
    MergedFileIs(docA, docB, a, b, r);
    MergedFileHolds(docA, docB, a, b, r);
    MergedDistinct(a.nodes, b.nodes);
    var g := MergedNodes(a.nodes, b.nodes);
    var f :| f in g && m == Refreshed(f);
    RefreshedKeeps(f);
    var i :| 0 <= i < |a.nodes| && a.nodes[i] == n;
    var k :| 0 <= k < |g| && g[k] == f;
    FilledAtFront(a.nodes, b.nodes, i);
    assert i == k;
  }

  lemma FilledAtFront(an: seq<Node>, bn: seq<Node>, i: nat)
    requires i < |an|
    ensures i < |MergedNodes(an, bn)| && MergedNodes(an, bn)[i] == Filled(an[i], AttrsOf(bn, an[i].id))
    ensures MergedNodes(an, bn)[i].id == an[i].id
  {
    hide AttrsOf, OnlyIn;
  }

  // Another kind comes back: none here, one there.
  predicate KindGained(n: Node, extra: Attrs) { G.KIND !in n.attrs && G.Get(extra, G.KIND) != "" }

  // Another name comes back: a name there where there is no name attribute here, or,
  // failing that, a label there where there is no label attribute here.
  predicate NameGained(n: Node, extra: Attrs) {
    var mine, theirs := G.Get(n.attrs, G.NAME), G.Get(extra, G.NAME);
    && mine == ""
    && if G.NAME !in n.attrs && theirs != "" then theirs != n.name
       else G.LABEL !in n.attrs && G.Get(extra, G.LABEL) !in {"", n.id}
  }

  // Each attribute of a destination node stays as it is and each further one is its
  // counterpart's. The kind and the name, which loading takes from the attributes, change
  // exactly as said above.
  lemma DestinationKept(docA: G.Doc, docB: G.Doc, a: Value, b: Value, r: Value, n: Node, m: Node)
    requires MergedFile(docA, docB, a, b, r) && n in a.nodes && m in r.nodes && m.id == n.id
    ensures m.attrs.Keys == n.attrs.Keys + AttrsOf(b.nodes, n.id).Keys
    ensures forall k :: k in m.attrs ==> m.attrs[k] == if k in n.attrs then n.attrs[k] else AttrsOf(b.nodes, n.id)[k]
    ensures m.kind != n.kind <==> KindGained(n, AttrsOf(b.nodes, n.id))
    ensures m.kind != n.kind ==> n.kind == "" && m.kind == AttrsOf(b.nodes, n.id)[G.KIND]
    ensures m.name != n.name <==> NameGained(n, AttrsOf(b.nodes, n.id))
  {
    hide MergedFile, AttrsOf, Canonical, Merged;
    FilledInFile(docA, docB, a, b, r, n, m);
    RefreshedFilled(n, AttrsOf(b.nodes, n.id));
  }

  lemma RefreshedFilled(n: Node, extra: Attrs)
    requires Refreshed(n) == n
    ensures var m := Refreshed(Filled(n, extra));
      && m.attrs.Keys == n.attrs.Keys + extra.Keys
      && (forall k :: k in m.attrs ==> m.attrs[k] == if k in n.attrs then n.attrs[k] else extra[k])
      && (m.kind != n.kind <==> KindGained(n, extra))
      && (m.kind != n.kind ==> n.kind == "" && m.kind == extra[G.KIND])
      && (m.name != n.name <==> NameGained(n, extra))
  {
    var x := extra + n.attrs;
    assert G.Get(x, G.KIND) == if G.KIND in n.attrs then n.attrs[G.KIND] else G.Get(extra, G.KIND);
    assert G.Get(x, G.NAME) == if G.NAME in n.attrs then n.attrs[G.NAME] else G.Get(extra, G.NAME);
    assert G.Get(x, G.LABEL) == if G.LABEL in n.attrs then n.attrs[G.LABEL] else G.Get(extra, G.LABEL);
  }

  // A node that only the source has comes back as it was there, its name now an attribute.
  lemma SourceNodeKept(docA: G.Doc, docB: G.Doc, a: Value, b: Value, r: Value, n: Node)
    requires MergedFile(docA, docB, a, b, r) && n in b.nodes && n.id !in Ids(a.nodes)
    ensures n.(attrs := n.attrs[G.NAME := n.name]) in r.nodes
  {
    hide MergedFile, AttrsOf, WellNamed, SurvivesSave, MergedNodes, NewEdges, Refreshed, Mirrored, NodeStorable;
    MergedFileIs(docA, docB, a, b, r);
    MergedFileHolds(docA, docB, a, b, r);
    OnlyInElems(b.nodes, Ids(a.nodes), Mirrored(n));
    AddedAtEnd(a.nodes, b.nodes, Mirrored(n));
    AddedRefreshed(n);
  }

  lemma AddedAtEnd(an: seq<Node>, bn: seq<Node>, n: Node)
    requires n in OnlyIn(bn, Ids(an))
    ensures n in MergedNodes(an, bn)
  {
  }

  lemma AddedRefreshed(n: Node)
    requires NodeMirrors(n)
    ensures Refreshed(Mirrored(n)) == n.(attrs := n.attrs[G.NAME := n.name])
  {
    hide Trimmed;
    var m := n.attrs;
    assert n.kind == G.Get(m, G.KIND) && n.name == DisplayName(m, n.id) && n.name != "";
    assert Mirrored(n).attrs == m[G.NAME := n.name];
  }

  // ---- The difference to the saved file ----

  // A difference from either file to the saved one reports nothing removed.
  lemma UnionRemovesNothing(docA: G.Doc, docB: G.Doc, a: Value, b: Value, r: Value, d: D.Diff, e: D.Diff)
    requires MergedFile(docA, docB, a, b, r) && D.DiffOk(a, r, d) && D.DiffOk(b, r, e)
    ensures d.removed == [] && d.edgesRemoved == [] && e.removed == [] && e.edgesRemoved == []
  {
    hide MergedFile, D.MissingNodes, D.ChangedNodes, D.MissingEdges;
    MergedFileIsUnion(docA, docB, a, b, r);
    D.NoneMissing(a.nodes, r.nodes, d.removed);
    D.NoneMissing(b.nodes, r.nodes, e.removed);
    D.NoEdgeMissing(a.edges, r.edges, d.edgesRemoved);
    D.NoEdgeMissing(b.edges, r.edges, e.edgesRemoved);
  }

  // A node of the first file is reported as changed exactly if its counterpart has an
  // attribute that it lacks.
  lemma ChangedIff(docA: G.Doc, docB: G.Doc, a: Value, b: Value, r: Value, d: D.Diff, n: Node)
    requires MergedFile(docA, docB, a, b, r) && D.DiffOk(a, r, d) && n in a.nodes
    ensures (exists c :: c in d.changed && c.id == n.id) <==> !(AttrsOf(b.nodes, n.id).Keys <= n.attrs.Keys)
  {
    hide MergedFile, D.MissingNodes, D.MissingEdges, Merged, AttrsOf, Canonical, D.Differs, D.ChangeOf, Filled;
    hide Refreshed, NodeMirrors;
    MergedFileIs(docA, docB, a, b, r);
    MergedFileIsUnion(docA, docB, a, b, r);
    var j := IndexOf(r.nodes, n.id);
    var m := r.nodes[j];
    FilledInFile(docA, docB, a, b, r, n, m);
    DiffersIff(n, AttrsOf(b.nodes, n.id));
    if D.Differs(n, m) {
      D.ChangeId(n, m);
      assert D.ChangeOf(n, m) in d.changed;
    }
    forall c | c in d.changed && c.id == n.id ensures D.Differs(n, m) {
      ChangedPair(a, r, d, c, n, m);
    }
  }

  // A reported change is that of the two nodes with its id.
  lemma ChangedPair(a: Value, r: Value, d: D.Diff, c: D.NodeDiff, n: Node, m: Node)
    requires Canonical(a) && Canonical(r) && D.DiffOk(a, r, d) && c in d.changed
    requires n in a.nodes && m in r.nodes && c.id == n.id == m.id
    ensures D.Differs(n, m) && c == D.ChangeOf(n, m)
  {
    hide D.MissingNodes, D.MissingEdges, D.Differs, D.ChangeOf;
    var x, y :| x in a.nodes && y in r.nodes && x.id == y.id && D.Differs(x, y) && c == D.ChangeOf(x, y);
    D.ChangeId(x, y);
    SameNode(a.nodes, x, n);
    SameNode(r.nodes, y, m);
  }

  lemma SameNode(ns: seq<Node>, x: Node, y: Node)
    requires DistinctIds(ns) && x in ns && y in ns && x.id == y.id
    ensures x == y
  {
    var i :| 0 <= i < |ns| && ns[i] == x;
    var j :| 0 <= j < |ns| && ns[j] == y;
    assert !(i < j) && !(j < i);
  }

  lemma DiffersIff(n: Node, extra: Attrs)
    requires NodeMirrors(n)
    ensures D.Differs(n, Refreshed(Filled(n, extra))) <==> !(extra.Keys <= n.attrs.Keys)
  {
    hide Clean;
    var m := Refreshed(Filled(n, extra));
    RefreshedFilled(n, extra);
    if extra.Keys <= n.attrs.Keys {
      NothingFilled(n, extra);
      assert D.ShownAttrs(n, n) == map[];
    } else {
      var k :| k in extra && k !in n.attrs;
      assert k in D.AttrsDiff(n.attrs, m.attrs) && k != G.ARCHMOTIF_ID;
      assert k in D.ShownAttrs(n, m);
    }
  }

  // And apart from kind and name, all that is reported is gained from the counterpart.
  lemma ChangesAreGains(docA: G.Doc, docB: G.Doc, a: Value, b: Value, r: Value, d: D.Diff, n: Node, c: D.NodeDiff,
                        k: string)
    requires MergedFile(docA, docB, a, b, r) && D.DiffOk(a, r, d) && n in a.nodes
    requires c in d.changed && c.id == n.id && k in c.attrs && k != D.KIND_CHANGE && k != D.NAME_CHANGE
    ensures k !in n.attrs && k in AttrsOf(b.nodes, n.id)
    ensures c.attrs[k] == D.Change(None, Some(AttrsOf(b.nodes, n.id)[k]))
  {
    hide MergedFile, D.DiffOk, Merged, AttrsOf, Canonical, D.ChangeOf, KindGained, NameGained;
    MergedFileIs(docA, docB, a, b, r);
    MergedFileIsUnion(docA, docB, a, b, r);
    assert n.id in Ids(a.nodes);
    var j := IndexOf(r.nodes, n.id);
    ChangedPair(a, r, d, c, n, r.nodes[j]);
    DestinationKept(docA, docB, a, b, r, n, r.nodes[j]);
    OnlyGained(n, r.nodes[j], AttrsOf(b.nodes, n.id), k);
  }

  lemma OnlyGained(n: Node, m: Node, extra: Attrs, k: string)
    requires m.attrs.Keys == n.attrs.Keys + extra.Keys
    requires forall i :: i in m.attrs ==> m.attrs[i] == if i in n.attrs then n.attrs[i] else extra[i]
    requires k in D.ChangeOf(n, m).attrs && k != D.KIND_CHANGE && k != D.NAME_CHANGE
    ensures k !in n.attrs && k in extra && D.ChangeOf(n, m).attrs[k] == D.Change(None, Some(extra[k]))
  {
    var shown := D.ShownAttrs(n, m);
    assert k in shown && D.ChangeOf(n, m).attrs[k] == shown[k];
    assert shown[k] == D.Change(D.At(n.attrs, k), D.At(m.attrs, k));
  }

  // ---- A name that the merge overwrites ----

  // A file that loads to a given graph.
  lemma FileFor(g: Value) returns (doc: G.Doc)
    requires Canonical(g)
    ensures Loaded(doc) == G.Ok(g) && WellNamed(g)
  {
    hide Written, Loaded, WellNamed, Canonical;
    SurvivesIffCanonical(g);
    doc := Written(g).doc;
    LoadedCanonicalIff(doc, g);
  }

  lemma OneNodeFile(n: Node) returns (doc: G.Doc)
    requires NodeMirrors(n)
    ensures Loaded(doc) == G.Ok(Value(true, [n], [])) && WellNamed(Value(true, [n], []))
  {
    hide Written, Loaded, WellNamed, NodeMirrors;
    MirrorsMeans(Value(true, [n], []));
    doc := FileFor(Value(true, [n], []));
  }

  // A node shown by its label comes back under the name that its counterpart has, and the
  // difference says so.
  lemma DisplayNameOverwritten(id: string, mine: string, theirs: string)
    returns (docA: G.Doc, docB: G.Doc, a: Value, b: Value, r: Value)
    requires Trimmed(id) && Trimmed(mine) && Trimmed(theirs) && id != "" && mine != "" && theirs != "" && mine != theirs
    ensures a.nodes == [Node(id, "", mine, map[G.LABEL := mine, G.ARCHMOTIF_ID := id])]
    ensures b.nodes == [Node(id, "", theirs, map[G.NAME := theirs, G.ARCHMOTIF_ID := id])]
    ensures MergedFile(docA, docB, a, b, r)
    ensures forall d :: D.DiffOk(a, r, d) ==>
              exists c :: c in d.changed && c.id == id && D.NAME_CHANGE in c.attrs
                          && c.attrs[D.NAME_CHANGE] == D.Change(Some(mine), Some(theirs))
  {
    hide MergedFile, Loaded, WellNamed, Trimmed, D.DiffOk, AttrsOf;
    var n := Node(id, "", mine, map[G.LABEL := mine, G.ARCHMOTIF_ID := id]);
    var n' := Node(id, "", theirs, map[G.NAME := theirs, G.ARCHMOTIF_ID := id]);
    a, b := Value(true, [n], []), Value(true, [n'], []);
    docA := OneNodeFile(n);
    docB := OneNodeFile(n');
    r := MergedFileLoads(docA, docB, a, b);
    forall d | D.DiffOk(a, r, d)
      ensures exists c :: c in d.changed && c.id == id && D.NAME_CHANGE in c.attrs
                          && c.attrs[D.NAME_CHANGE] == D.Change(Some(mine), Some(theirs))
    {
      NameChangeShown(docA, docB, a, b, r, d, n, n');
    }
  }

  lemma NameChangeShown(docA: G.Doc, docB: G.Doc, a: Value, b: Value, r: Value, d: D.Diff, n: Node, n': Node)
    requires MergedFile(docA, docB, a, b, r) && D.DiffOk(a, r, d)
    requires n in a.nodes && n' in b.nodes && n.id == n'.id
    requires G.NAME !in n.attrs && G.Get(n'.attrs, G.NAME) != "" && G.Get(n'.attrs, G.NAME) != n.name
    ensures exists c :: c in d.changed && c.id == n.id && D.NAME_CHANGE in c.attrs
                        && c.attrs[D.NAME_CHANGE] == D.Change(Some(n.name), Some(n'.attrs[G.NAME]))
  {
    hide MergedFile, Merged, AttrsOf, Canonical, Filled, Refreshed, D.DiffOk, D.Differs, D.ChangeOf, DistinctIds;
    MergedFileIs(docA, docB, a, b, r);
    MergedFileIsUnion(docA, docB, a, b, r);
    assert n.id in Ids(a.nodes);
    var j := IndexOf(r.nodes, n.id);
    var m := r.nodes[j];
    CounterpartAttrs(b, n');
    FilledInFile(docA, docB, a, b, r, n, m);
    NameTaken(n, n'.attrs);
    NameShown(n, m);
    ChangeListed(a, r, d, n, m);
    var c := D.ChangeOf(n, m);
    assert c in d.changed && c.attrs[D.NAME_CHANGE] == D.Change(Some(n.name), Some(n'.attrs[G.NAME]));
  }

  lemma ChangeListed(a: Value, r: Value, d: D.Diff, n: Node, m: Node)
    requires D.DiffOk(a, r, d) && n in a.nodes && m in r.nodes && n.id == m.id && D.Differs(n, m)
    ensures D.ChangeOf(n, m) in d.changed
  {
    hide D.MissingNodes, D.MissingEdges, D.Differs, D.ChangeOf;
  }

  lemma CounterpartAttrs(b: Value, n: Node)
    requires DistinctIds(b.nodes) && n in b.nodes
    ensures AttrsOf(b.nodes, n.id) == n.attrs
  {
    var i :| 0 <= i < |b.nodes| && b.nodes[i] == n;
    AttrsOfAt(b.nodes, i);
  }

  lemma NameTaken(n: Node, extra: Attrs)
    requires G.NAME !in n.attrs && G.Get(extra, G.NAME) != ""
    ensures Refreshed(Filled(n, extra)).name == extra[G.NAME]
  {
    assert (extra + n.attrs)[G.NAME] == extra[G.NAME];
  }

  lemma NameShown(n: Node, m: Node)
    requires n.name != m.name
    ensures D.Differs(n, m) && D.ChangeOf(n, m).id == n.id
    ensures D.NAME_CHANGE in D.ChangeOf(n, m).attrs
    ensures D.ChangeOf(n, m).attrs[D.NAME_CHANGE] == D.Change(Some(n.name), Some(m.name))
  {
  }
}
