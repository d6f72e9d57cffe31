/** Saving and loading are inverse, exactly on the graphs that loading produces from
    well-named documents. */
module StoreRoundTrip {
  import opened Order
  import opened Text
  import G = GraphML
  import opened GraphStore

  // ---- The graphs that survive ----

  // Attributes that come back as they are: no empty name, no value with outer space.
  ghost predicate Clean(m: Attrs) {
    "" !in m && forall a :: a in m ==> Trimmed(m[a])
  }

  function DisplayName(m: Attrs, id: string): string {
    if G.Get(m, G.NAME) != "" then m[G.NAME] else if G.Get(m, G.LABEL) != "" then m[G.LABEL] else id
  }

  // The attributes are clean and carry the id.
  ghost predicate NodeStorable(n: Node) {
    n.id != "" && Clean(n.attrs) && G.ARCHMOTIF_ID in n.attrs && n.attrs[G.ARCHMOTIF_ID] == n.id
  }

  // The node with its kind and name taken from its attributes.
  function Refreshed(n: Node): Node {
    n.(kind := G.Get(n.attrs, G.KIND), name := DisplayName(n.attrs, n.id))
  }

  // The fields of a node agree with its attributes.
  ghost predicate NodeMirrors(n: Node) { NodeStorable(n) && Refreshed(n) == n }

  ghost predicate EdgeMirrors(e: Edge) {
    && Clean(e.attrs) && e.kind == G.EdgeKind(e.attrs)
    && (e.kind != "" ==> G.KIND in e.attrs && e.attrs[G.KIND] == e.kind)
  }

  ghost predicate DistinctIds(nodes: seq<Node>) {
    forall i, j :: 0 <= i < j < |nodes| ==> nodes[i].id != nodes[j].id
  }

  ghost function Ids(nodes: seq<Node>): set<string> { set n | n in nodes :: n.id }

  ghost predicate Storable(g: Value) {
    && DistinctIds(g.nodes) && Attached(g.edges, Ids(g.nodes))
    && (forall n :: n in g.nodes ==> NodeStorable(n))
    && (forall e :: e in g.edges ==> EdgeMirrors(e))
  }

  ghost predicate Mirrors(g: Value) {
    Storable(g) && forall n :: n in g.nodes ==> Refreshed(n) == n
  }

  lemma MirrorsMeans(g: Value)
    ensures Mirrors(g) <==>
            && DistinctIds(g.nodes) && Attached(g.edges, Ids(g.nodes))
            && (forall n :: n in g.nodes ==> NodeMirrors(n))
            && (forall e :: e in g.edges ==> EdgeMirrors(e))
  {
  }

  function AllRefreshed(g: Value): Value { g.(nodes := Mapped(Refreshed, g.nodes)) }

  predicate ByID(a: Node, b: Node) { LexLe(a.id, b.id) }

  predicate ByEnds(a: Edge, b: Edge) { G.TripleLe(a.src, a.dst, a.kind, b.src, b.dst, b.kind) }

  lemma Orders()
    ensures TotalPreorder(ByID) && TotalPreorder(ByEnds) && TotalPreorder(G.NodeLe) && TotalPreorder(G.EdgeLe)
  {
    hide LexLe, G.TripleLe;
    LexPreorder();
    G.NodePreorder();
    G.EdgePreorder();
    forall a, b ensures ByEnds(a, b) || ByEnds(b, a) { TripleTotal(a, b); }
    forall a, b, c | ByEnds(a, b) && ByEnds(b, c) ensures ByEnds(a, c) {
      G.TripleTrans(a.src, a.dst, a.kind, b.src, b.dst, b.kind, c.src, c.dst, c.kind);
    }
  }

  lemma TripleTotal(a: Edge, b: Edge)
    ensures ByEnds(a, b) || ByEnds(b, a)
  {
    hide LexLe;
    LexTotal(a.src, b.src);
    LexTotal(a.dst, b.dst);
    LexTotal(a.kind, b.kind);
  }

  ghost function Sorted(g: Value): Value {
    Orders();
    Value(g.directed, StableSort(g.nodes, ByID), StableSort(g.edges, ByEnds))
  }

  ghost predicate Canonical(g: Value) {
    Mirrors(g) && SortedBy(g.nodes, ByID) && SortedBy(g.edges, ByEnds)
  }

  // What a caller can check of a loaded graph before saving it.
  ghost predicate WellNamed(g: Value) {
    && (forall n :: n in g.nodes ==> n.id != "" && Trimmed(n.id) && "" !in n.attrs)
    && (forall e :: e in g.edges ==> "" !in e.attrs)
  }

  // ---- Keys ----

  // The generated key ids never collide.
  lemma KeyIdsDiffer(a: string, b: string)
    ensures NODE_PREFIX + a != EDGE_PREFIX + b
    ensures NODE_PREFIX + a == NODE_PREFIX + b ==> a == b
    ensures EDGE_PREFIX + a == EDGE_PREFIX + b ==> a == b
  {
    assert (NODE_PREFIX + a)[0] == 'n' && (EDGE_PREFIX + b)[0] == 'e';
    assert (NODE_PREFIX + a)[2..] == a && (NODE_PREFIX + b)[2..] == b;
    assert (EDGE_PREFIX + a)[2..] == a && (EDGE_PREFIX + b)[2..] == b;
  }

  lemma {:induction false} KeyMapAt(keys: seq<G.Key>, i: nat)
    requires i < |keys| && forall j :: i < j < |keys| ==> keys[j].id != keys[i].id
    ensures keys[i].id in G.KeyMap(keys) && G.KeyMap(keys)[keys[i].id] == keys[i]
  {
    var n := |keys| - 1;
    if i < n {
      assert keys[n].id != keys[i].id;
      KeyMapAt(keys[..n], i);
    }
  }

  ghost function AllDeclared(nodeNames: seq<string>, edgeNames: seq<string>): seq<G.Key> {
    DeclaredKeys(nodeNames, NODE_PREFIX, G.NODE) + DeclaredKeys(edgeNames, EDGE_PREFIX, G.EDGE)
  }

  // Each listed name can be looked up under its prefix.
  ghost predicate Resolves(keys: map<string, G.Key>, names: seq<string>, prefix: string, scope: string) {
    forall a :: a in names ==> prefix + a in keys && keys[prefix + a] == G.Key(prefix + a, scope, a)
  }

  lemma DeclaredResolve(nodeNames: seq<string>, edgeNames: seq<string>)
    requires Distinct(nodeNames) && Distinct(edgeNames)
    ensures Resolves(G.KeyMap(AllDeclared(nodeNames, edgeNames)), nodeNames, NODE_PREFIX, G.NODE)
    ensures Resolves(G.KeyMap(AllDeclared(nodeNames, edgeNames)), edgeNames, EDGE_PREFIX, G.EDGE)
  {
    hide G.KeyMap;
    var keys := AllDeclared(nodeNames, edgeNames);
    forall a | a in nodeNames
      ensures NODE_PREFIX + a in G.KeyMap(keys) && G.KeyMap(keys)[NODE_PREFIX + a] == G.Key(NODE_PREFIX + a, G.NODE, a)
    {
      var i :| 0 <= i < |nodeNames| && nodeNames[i] == a;
      forall j | i < j < |keys| ensures keys[j].id != keys[i].id {
        KeyIdsDiffer(a, if j < |nodeNames| then nodeNames[j] else edgeNames[j - |nodeNames|]);
      }
      KeyMapAt(keys, i);
    }
    forall a | a in edgeNames
      ensures EDGE_PREFIX + a in G.KeyMap(keys) && G.KeyMap(keys)[EDGE_PREFIX + a] == G.Key(EDGE_PREFIX + a, G.EDGE, a)
    {
      var i :| 0 <= i < |edgeNames| && edgeNames[i] == a;
      var k := |nodeNames| + i;
      forall j | k < j < |keys| ensures keys[j].id != keys[k].id {
        KeyIdsDiffer(a, edgeNames[j - |nodeNames|]);
      }
      KeyMapAt(keys, k);
    }
  }

  // ---- Attributes ----

  ghost function Listed(m: Attrs, names: seq<string>): Attrs { map a | a in m && a in names :: m[a] }

  lemma ListedSnoc(m: Attrs, names: seq<string>, a: string)
    ensures Listed(m, names + [a]) == if a in m then Listed(m, names)[a := m[a]] else Listed(m, names)
  {
  }

  lemma EntryComesBack(before: Attrs, a: string, value: string, prefix: string, scope: string, keys: map<string, G.Key>)
    requires a != "" && Trimmed(value) && prefix + a in keys && keys[prefix + a] == G.Key(prefix + a, scope, a)
    ensures G.DecodeEntry(before, G.Data(prefix + a, value), keys, scope) == before[a := value]
  {
    hide Trim, Trimmed;
  }

  lemma {:induction false} DataComesBack(m: Attrs, names: seq<string>, prefix: string, scope: string,
                                         keys: map<string, G.Key>)
    requires Clean(m) && Resolves(keys, names, prefix, scope)
    ensures G.Decoded(DataOf(m, names, prefix), keys, scope) == Listed(m, names)
  {
    hide Listed, G.DecodeEntry, Trimmed;
    if names == [] {
      assert Listed(m, names) == map[] by { NothingListed(m); }
    } else {
      var n := |names| - 1;
      var a := names[n];
      assert names == names[..n] + [a];
      DataComesBack(m, names[..n], prefix, scope, keys);
      ListedSnoc(m, names[..n], a);
      var before := DataOf(m, names[..n], prefix);
      if a in m {
        assert a in names;
        EntryComesBack(Listed(m, names[..n]), a, m[a], prefix, scope, keys);
        assert (before + [G.Data(prefix + a, m[a])])[..|before|] == before;
      } else {
        assert DataOf(m, names, prefix) == before;
      }
    }
  }

  lemma NothingListed(m: Attrs)
    ensures Listed(m, []) == map[]
  {
  }

  lemma AttrsComeBack(m: Attrs, names: seq<string>, prefix: string, scope: string, keys: map<string, G.Key>)
    requires Clean(m) && Resolves(keys, names, prefix, scope) && m.Keys <= Elems(names)
    ensures G.Decoded(DataOf(m, names, prefix), keys, scope) == m
  {
    DataComesBack(m, names, prefix, scope, keys);
    forall a | a in m ensures a in names { assert a in Elems(names); }
  }

  // ---- Nodes ----

  ghost function Back(n: Node, i: nat): G.Node {
    G.Node(XmlID(i), n.id, G.Caption(n.attrs, n.id), G.Get(n.attrs, G.KIND), n.attrs)
  }

  lemma NodeComesBack(n: Node, i: nat, names: seq<string>, keys: map<string, G.Key>)
    requires NodeStorable(n) && Resolves(keys, names, NODE_PREFIX, G.NODE) && n.attrs.Keys <= Elems(names)
    ensures G.ParsedNode(G.NodeEl(XmlID(i), DataOf(n.attrs, names, NODE_PREFIX)), keys) == Back(n, i)
    ensures LoadedNode(Back(n, i)) == Refreshed(n)
  {
    hide DataOf, G.Decoded, Trimmed, XmlID;
    AttrsComeBack(n.attrs, names, NODE_PREFIX, G.NODE, keys);
    assert n.attrs[G.ARCHMOTIF_ID := n.id] == n.attrs;
  }

  lemma XmlIDsDiffer(i: nat, j: nat)
    requires i != j
    ensures XmlID(i) != XmlID(j)
  {
    if XmlID(i) == XmlID(j) {
      assert XmlID(i)[1..] == Itoa(i) && XmlID(j)[1..] == Itoa(j);
      ItoaInjective(i, j);
    }
  }

  lemma IdsSnoc(nodes: seq<Node>)
    requires nodes != []
    ensures Ids(nodes) == Ids(nodes[..|nodes| - 1]) + {nodes[|nodes| - 1].id}
  {
    assert nodes == nodes[..|nodes| - 1] + [nodes[|nodes| - 1]];
  }

  lemma {:induction false} XmlIDsAt(nodes: seq<Node>)
    requires DistinctIds(nodes)
    ensures XmlIDs(nodes).Keys == Ids(nodes)
    ensures forall i :: 0 <= i < |nodes| ==> nodes[i].id in XmlIDs(nodes) && XmlIDs(nodes)[nodes[i].id] == XmlID(i)
  {
    hide XmlID;
    if nodes != [] {
      var n := |nodes| - 1;
      XmlIDsAt(nodes[..n]);
      IdsSnoc(nodes);
      forall i | 0 <= i < n ensures XmlIDs(nodes)[nodes[i].id] == XmlID(i) {
        assert nodes[..n][i] == nodes[i] && nodes[i].id != nodes[n].id;
      }
    }
  }

  // Different ids and different element ids in any order make a complete index.
  lemma {:induction false} IndexComplete(ns: seq<G.Node>)
    requires forall i, j :: 0 <= i < j < |ns| ==> ns[i].id != ns[j].id && ns[i].xmlID != ns[j].xmlID
    ensures G.Indexed(ns).Ok?
    ensures forall i :: 0 <= i < |ns| ==>
              ns[i].xmlID in G.Indexed(ns).value.byXML && G.Indexed(ns).value.byXML[ns[i].xmlID] == i
  {
    hide G.Indexed;
    if ns == [] {
      NothingIndexed();
    } else {
      var n := |ns| - 1;
      var front := ns[..n];
      assert forall i :: 0 <= i < n ==> front[i] == ns[i];
      IndexComplete(front);
      G.IndexedBounds(front);
      IndexSnoc(front, ns[n]);
      assert front + [ns[n]] == ns;
    }
  }

  lemma NothingIndexed()
    ensures G.Indexed([]) == G.Ok(G.Index(map[], map[]))
  {
  }

  lemma IndexSnoc(front: seq<G.Node>, n: G.Node)
    ensures var ix := G.Indexed(front);
            G.Indexed(front + [n]) ==
            if ix.Err? then ix
            else if n.id in ix.value.byID then G.Err(G.DuplicateID(n.id))
            else G.Ok(G.Index(ix.value.byID[n.id := |front|], ix.value.byXML[n.xmlID := |front|]))
  {
    assert (front + [n])[..|front|] == front;
  }

  // Everything the reader keeps of the node elements.
  ghost predicate NodesBack(nodes: seq<Node>, ns: seq<G.Node>, ix: G.Result<G.Index>) {
    && Mapped(LoadedNode, ns) == (Orders(); StableSort(Mapped(Refreshed, nodes), ByID))
    && ix.Ok?
    && forall i :: 0 <= i < |nodes| ==>
         XmlID(i) in ix.value.byXML && G.IdAt(ns, ix.value.byXML[XmlID(i)]) == nodes[i].id
  }

  lemma NodesComeBack(nodes: seq<Node>, names: seq<string>, keys: map<string, G.Key>)
    requires DistinctIds(nodes) && forall n :: n in nodes ==> NodeStorable(n) && n.attrs.Keys <= Elems(names)
    requires Resolves(keys, names, NODE_PREFIX, G.NODE)
    ensures var ns := G.SortedNodes(G.ParsedNodes(NodeElements(nodes, names), keys));
            NodesBack(nodes, ns, G.Indexed(ns))
  {
    hide G.ParsedNode, NodeStorable, LoadedNode, Refreshed, G.Caption, DataOf, Resolves, G.Indexed, XmlID, LexLe;
    hide TotalPreorder;
    var ps := G.ParsedNodes(NodeElements(nodes, names), keys);
    forall i | 0 <= i < |nodes| ensures ps[i] == Back(nodes[i], i) && LoadedNode(ps[i]) == Refreshed(nodes[i]) {
      assert nodes[i] in nodes;
      NodeComesBack(nodes[i], i, names, keys);
    }
    Orders();
    assert Mapped(LoadedNode, ps) == Mapped(Refreshed, nodes);
    SameOrderNodes();
    SortMapped(ps, LoadedNode, G.NodeLe, ByID);
    var ns := G.SortedNodes(ps);
    PermutedBack(nodes, ps, ns);
  }

  lemma SameOrderNodes()
    ensures forall a, b :: G.NodeLe(a, b) == ByID(LoadedNode(a), LoadedNode(b))
  {
  }

  lemma SameOrderEdges()
    ensures forall a, b :: G.EdgeLe(a, b) == ByEnds(LoadedEdge(a), LoadedEdge(b))
  {
  }

  lemma PermutedBack(nodes: seq<Node>, ps: seq<G.Node>, ns: seq<G.Node>)
    requires DistinctIds(nodes) && |ps| == |nodes| && forall i :: 0 <= i < |nodes| ==> ps[i] == Back(nodes[i], i)
    requires multiset(ns) == multiset(ps)
    ensures G.Indexed(ns).Ok?
    ensures forall i :: 0 <= i < |nodes| ==>
              XmlID(i) in G.Indexed(ns).value.byXML && G.IdAt(ns, G.Indexed(ns).value.byXML[XmlID(i)]) == nodes[i].id
  {
    hide XmlID, G.Indexed, G.Caption;
    forall i, j | 0 <= i < j < |ps| ensures ps[i].id != ps[j].id && ps[i].xmlID != ps[j].xmlID { XmlIDsDiffer(i, j); }
    PermutedDistinct(ps, ns);
    IndexComplete(ns);
    forall i | 0 <= i < |nodes|
      ensures XmlID(i) in G.Indexed(ns).value.byXML && G.IdAt(ns, G.Indexed(ns).value.byXML[XmlID(i)]) == nodes[i].id
    {
      SameElems(ps, ns);
      assert ps[i] in ns;
      var k :| 0 <= k < |ns| && ns[k] == ps[i];
      assert ns[k].xmlID == XmlID(i);
    }
  }

  lemma PermutedDistinct(ps: seq<G.Node>, ns: seq<G.Node>)
    requires forall i, j :: 0 <= i < j < |ps| ==> ps[i].id != ps[j].id && ps[i].xmlID != ps[j].xmlID
    requires multiset(ns) == multiset(ps)
    ensures forall i, j :: 0 <= i < j < |ns| ==> ns[i].id != ns[j].id && ns[i].xmlID != ns[j].xmlID
  {
    assert Distinct(ps);
    SameElems(ps, ns);
    forall i, j | 0 <= i < j < |ns| ensures ns[i].id != ns[j].id && ns[i].xmlID != ns[j].xmlID {
      assert ns[i] in ps && ns[j] in ps;
      var a :| 0 <= a < |ps| && ps[a] == ns[i];
      var b :| 0 <= b < |ps| && ps[b] == ns[j];
      assert ns[i] != ns[j] && a != b;
    }
  }

  // ---- Edges ----

  ghost function EdgeBack(e: Edge, i: nat): G.Edge { G.Edge("e" + Itoa(i), e.src, e.dst, e.kind, e.attrs) }

  // The element id written for a node leads the reader back to the node's own id.
  lemma EndComesBack(nodes: seq<Node>, id: string, ns: seq<G.Node>, ix: G.Result<G.Index>)
    requires DistinctIds(nodes) && NodesBack(nodes, ns, ix) && ix.Ok? && id in Ids(nodes)
    ensures id in XmlIDs(nodes) && XmlIDs(nodes)[id] in ix.value.byXML
    ensures G.IdAt(ns, ix.value.byXML[XmlIDs(nodes)[id]]) == id
  {
    hide XmlID, XmlIDs;
    XmlIDsAt(nodes);
    var n :| n in nodes && n.id == id;
    var i :| 0 <= i < |nodes| && nodes[i] == n;
  }

  lemma EdgeComesBack(nodes: seq<Node>, e: Edge, i: nat, names: seq<string>, keys: map<string, G.Key>,
                      ns: seq<G.Node>, ix: G.Result<G.Index>)
    requires DistinctIds(nodes) && NodesBack(nodes, ns, ix) && ix.Ok? && e.src in Ids(nodes) && e.dst in Ids(nodes)
    requires EdgeMirrors(e) && Resolves(keys, names, EDGE_PREFIX, G.EDGE) && e.attrs.Keys <= Elems(names)
    ensures e.src in XmlIDs(nodes) && e.dst in XmlIDs(nodes)
    ensures G.ParsedEdge(EdgeElement(e, i, XmlIDs(nodes), names), ns, ix.value.byXML, keys) == G.Ok(EdgeBack(e, i))
    ensures LoadedEdge(EdgeBack(e, i)) == e
  {
    hide DataOf, G.Decoded, Trimmed, XmlID, XmlIDs, Itoa, NodesBack, DistinctIds, Ids;
    AttrsComeBack(e.attrs, names, EDGE_PREFIX, G.EDGE, keys);
    EndComesBack(nodes, e.src, ns, ix);
    EndComesBack(nodes, e.dst, ns, ix);
    if e.kind != "" { assert e.attrs[G.KIND := e.kind] == e.attrs; }
  }

  lemma {:induction false} ParsedAll(els: seq<G.EdgeEl>, ns: seq<G.Node>, byXML: map<string, nat>,
                                     keys: map<string, G.Key>, es: seq<G.Edge>)
    requires |es| == |els| && forall i :: 0 <= i < |els| ==> G.ParsedEdge(els[i], ns, byXML, keys) == G.Ok(es[i])
    ensures G.ParsedEdges(els, ns, byXML, keys) == G.Ok(es)
  {
    hide G.ParsedEdge;
    if els != [] {
      var n := |els| - 1;
      ParsedAll(els[..n], ns, byXML, keys, es[..n]);
      assert es == es[..n] + [es[n]];
    }
  }

  lemma EdgesComeBack(nodes: seq<Node>, edges: seq<Edge>, names: seq<string>, keys: map<string, G.Key>,
                      ns: seq<G.Node>, ix: G.Result<G.Index>)
    requires DistinctIds(nodes) && NodesBack(nodes, ns, ix) && ix.Ok? && Attached(edges, XmlIDs(nodes).Keys)
    requires forall e :: e in edges ==> EdgeMirrors(e) && e.attrs.Keys <= Elems(names)
    requires Resolves(keys, names, EDGE_PREFIX, G.EDGE)
    ensures var es := G.ParsedEdges(EdgeElements(edges, XmlIDs(nodes), names), ns, ix.value.byXML, keys);
            es.Ok? && Mapped(LoadedEdge, G.SortedEdges(es.value)) == (Orders(); StableSort(edges, ByEnds))
  {
    hide G.ParsedEdge, EdgeMirrors, LoadedEdge, EdgeElement, Resolves, NodesBack, XmlIDs, TotalPreorder;
    var es := seq(|edges|, i requires 0 <= i < |edges| => EdgeBack(edges[i], i));
    var els := EdgeElements(edges, XmlIDs(nodes), names);
    XmlIDsAt(nodes);
    forall i | 0 <= i < |edges|
      ensures G.ParsedEdge(els[i], ns, ix.value.byXML, keys) == G.Ok(es[i]) && LoadedEdge(es[i]) == edges[i]
    {
      assert edges[i] in edges;
      EdgeComesBack(nodes, edges[i], i, names, keys, ns, ix);
    }
    ParsedAll(els, ns, ix.value.byXML, keys, es);
    Orders();
    assert Mapped(LoadedEdge, es) == edges;
    SameOrderEdges();
    SortMapped(es, LoadedEdge, G.EdgeLe, ByEnds);
  }

  // ---- The round trip ----

  // A storable graph is written and read back whole: in order, and with the kinds and
  // names that its attributes give.
  lemma ReloadRefreshes(g: Value)
    requires Storable(g)
    ensures Written(g).Saved? && Loaded(Written(g).doc) == G.Ok(Sorted(AllRefreshed(g)))
  {
    hide G.Indexed, NodeStorable, Refreshed, EdgeMirrors, SortedNames, G.ParsedEdges, XmlIDs, Resolves, LexLe;
    var nodeNames, edgeNames := SortedNames(NodeNames(g.nodes)), SortedNames(EdgeNames(g.edges));
    XmlIDsAt(g.nodes);
    var doc := Written(g).doc;
    var keys := G.KeyMap(doc.keys);
    assert doc.keys == AllDeclared(nodeNames, edgeNames);
    DeclaredResolve(nodeNames, edgeNames);
    NamesCover(g, nodeNames, edgeNames);
    NodesComeBack(g.nodes, nodeNames, keys);
    var ns := G.SortedNodes(G.ParsedNodes(NodeElements(g.nodes, nodeNames), keys));
    EdgesComeBack(g.nodes, g.edges, edgeNames, keys, ns, G.Indexed(ns));
    DirectionComesBack(g.directed);
  }

  // If the fields agree with the attributes, only the order can change.
  lemma ReloadSorts(g: Value)
    requires Mirrors(g)
    ensures Written(g).Saved? && Loaded(Written(g).doc) == G.Ok(Sorted(g))
  {
    hide Written, Loaded, Storable, Sorted, Refreshed;
    ReloadRefreshes(g);
    assert AllRefreshed(g) == g;
  }

  lemma NamesCover(g: Value, nodeNames: seq<string>, edgeNames: seq<string>)
    requires Elems(nodeNames) == NodeNames(g.nodes) && Elems(edgeNames) == EdgeNames(g.edges)
    ensures forall n :: n in g.nodes ==> n.attrs.Keys <= Elems(nodeNames)
    ensures forall e :: e in g.edges ==> e.attrs.Keys <= Elems(edgeNames)
  {
  }

  lemma DirectionComesBack(directed: bool)
    ensures G.EqualFold(if directed then DIRECTED else G.UNDIRECTED, G.UNDIRECTED) <==> !directed
  {
  }

  // ---- What loading produces ----

  lemma {:induction false} DecodedTrimmed(data: seq<G.Data>, keys: map<string, G.Key>, scope: string)
    ensures forall a :: a in G.Decoded(data, keys, scope) ==> Trimmed(G.Decoded(data, keys, scope)[a])
  {
    if data != [] { DecodedTrimmed(data[..|data| - 1], keys, scope); }
  }

  lemma LoadedNodeMirrors(el: G.NodeEl, keys: map<string, G.Key>)
    ensures var n := LoadedNode(G.ParsedNode(el, keys));
            NodeMirrors(n) <==> n.id != "" && Trimmed(n.id) && "" !in n.attrs
  {
    hide G.Decoded, Trimmed, Trim;
    var a := G.Decoded(el.data, keys, G.NODE);
    DecodedTrimmed(el.data, keys, G.NODE);
    var id := G.StableID(a, el.id);
    var m := a[G.ARCHMOTIF_ID := id];
    assert G.Get(m, G.KIND) == G.Get(a, G.KIND) && G.Get(m, G.NAME) == G.Get(a, G.NAME);
    assert G.Get(m, G.LABEL) == G.Get(a, G.LABEL);
  }

  lemma LoadedEdgeMirrors(e: G.Edge)
    requires e.kind == G.EdgeKind(e.attrs) && forall a :: a in e.attrs ==> Trimmed(e.attrs[a])
    ensures EdgeMirrors(LoadedEdge(e)) <==> "" !in LoadedEdge(e).attrs
  {
    hide Trimmed;
  }

  lemma {:induction false} ParsedEdgeFrom(els: seq<G.EdgeEl>, ns: seq<G.Node>, byXML: map<string, nat>,
                                          keys: map<string, G.Key>, e: G.Edge)
    requires G.ParsedEdges(els, ns, byXML, keys).Ok? && e in G.ParsedEdges(els, ns, byXML, keys).value
    ensures exists i :: 0 <= i < |els| && G.ParsedEdge(els[i], ns, byXML, keys) == G.Ok(e)
  {
    hide G.ParsedEdge;
    var n := |els| - 1;
    var front := G.ParsedEdges(els[..n], ns, byXML, keys).value;
    var last := G.ParsedEdge(els[n], ns, byXML, keys).value;
    assert G.ParsedEdges(els, ns, byXML, keys).value == front + [last];
    if e in front {
      ParsedEdgeFrom(els[..n], ns, byXML, keys, e);
      var i :| 0 <= i < n && G.ParsedEdge(els[..n][i], ns, byXML, keys) == G.Ok(e);
      assert els[i] == els[..n][i];
    }
  }

  // The element a loaded node comes from.
  lemma NodeSource(doc: G.Doc, g: Value, n: Node) returns (el: G.NodeEl)
    requires Loaded(doc) == G.Ok(g) && n in g.nodes
    ensures el in doc.graphs[0].nodes && n == LoadedNode(G.ParsedNode(el, G.KeyMap(doc.keys)))
  {
    hide G.ParsedNode, LoadedNode, G.Indexed, G.ParsedEdges, LoadedEdge, G.KeyMap;
    var keys := G.KeyMap(doc.keys);
    var ps := G.ParsedNodes(doc.graphs[0].nodes, keys);
    var ns := G.SortedNodes(ps);
    SameElems(ps, ns);
    var i :| 0 <= i < |g.nodes| && g.nodes[i] == n;
    assert ns[i] in ps;
    var k :| 0 <= k < |ps| && ps[k] == ns[i];
    el := doc.graphs[0].nodes[k];
  }

  // The reader's edge behind a loaded edge.
  lemma EdgeParse(doc: G.Doc, g: Value, e: Edge) returns (p: G.Edge, ns: seq<G.Node>, byXML: map<string, nat>)
    requires Loaded(doc) == G.Ok(g) && e in g.edges
    ensures |doc.graphs| == 1 && ns == G.SortedNodes(G.ParsedNodes(doc.graphs[0].nodes, G.KeyMap(doc.keys)))
    ensures G.Indexed(ns).Ok? && byXML == G.Indexed(ns).value.byXML && g.nodes == Mapped(LoadedNode, ns)
    ensures var es := G.ParsedEdges(doc.graphs[0].edges, ns, byXML, G.KeyMap(doc.keys));
            es.Ok? && p in es.value && e == LoadedEdge(p)
  {
    hide G.ParsedNode, LoadedEdge, LoadedNode, G.Indexed, G.ParsedEdges, G.KeyMap;
    var keys := G.KeyMap(doc.keys);
    ns := G.SortedNodes(G.ParsedNodes(doc.graphs[0].nodes, keys));
    byXML := G.Indexed(ns).value.byXML;
    var es := G.ParsedEdges(doc.graphs[0].edges, ns, byXML, keys).value;
    SameElems(es, G.SortedEdges(es));
    var i :| 0 <= i < |g.edges| && g.edges[i] == e;
    p := G.SortedEdges(es)[i];
    assert p in G.SortedEdges(es);
  }

  lemma EdgeSource(doc: G.Doc, g: Value, e: Edge) returns (el: G.EdgeEl, p: G.Edge)
    requires Loaded(doc) == G.Ok(g) && e in g.edges
    ensures el in doc.graphs[0].edges && e == LoadedEdge(p)
    ensures p.attrs == G.Decoded(el.data, G.KeyMap(doc.keys), G.EDGE) && p.kind == G.EdgeKind(p.attrs)
    ensures p.src in Ids(g.nodes) && p.dst in Ids(g.nodes)
  {
    hide G.ParsedNodes, LoadedEdge, LoadedNode, G.Indexed, G.ParsedEdges, G.EdgeKind, G.Decoded, G.KeyMap;
    hide G.SortedNodes, Loaded, Ids;
    var keys := G.KeyMap(doc.keys);
    var ns, byXML;
    p, ns, byXML := EdgeParse(doc, g, e);
    ParsedEdgeFrom(doc.graphs[0].edges, ns, byXML, keys, p);
    var k :| 0 <= k < |doc.graphs[0].edges| && G.ParsedEdge(doc.graphs[0].edges[k], ns, byXML, keys) == G.Ok(p);
    el := doc.graphs[0].edges[k];
    G.IndexedBounds(ns);
    IdListed(ns, g.nodes, byXML[el.source]);
    IdListed(ns, g.nodes, byXML[el.target]);
  }

  lemma IdListed(ns: seq<G.Node>, nodes: seq<Node>, i: nat)
    requires nodes == Mapped(LoadedNode, ns) && i < |ns|
    ensures G.IdAt(ns, i) in Ids(nodes)
  {
    assert nodes[i] in nodes && nodes[i].id == ns[i].id;
  }

  // A loaded graph is sorted, has unique ids and no loose edge, and misses being
  // canonical only by an empty or untrimmed id or an empty attribute name.
  lemma LoadedCanonicalIff(doc: G.Doc, g: Value)
    requires Loaded(doc) == G.Ok(g)
    ensures Canonical(g) <==> WellNamed(g)
  {
    hide Mirrors, NodeMirrors, EdgeMirrors, Trimmed, G.Parsed, G.ParsedNode, LoadedNode, LoadedEdge, G.Decoded;
    hide G.EdgeKind, G.KeyMap;
    LoadedShape(doc, g);
    MirrorsMeans(g);
    forall n | n in g.nodes ensures NodeMirrors(n) <==> n.id != "" && Trimmed(n.id) && "" !in n.attrs {
      var el := NodeSource(doc, g, n);
      LoadedNodeMirrors(el, G.KeyMap(doc.keys));
    }
    forall e | e in g.edges
      ensures (EdgeMirrors(e) <==> "" !in e.attrs) && e.src in Ids(g.nodes) && e.dst in Ids(g.nodes)
    {
      var el, p := EdgeSource(doc, g, e);
      DecodedTrimmed(el.data, G.KeyMap(doc.keys), G.EDGE);
      LoadedEdgeMirrors(p);
      LoadedEnds(p);
    }
  }

  lemma LoadedEnds(p: G.Edge)
    ensures LoadedEdge(p).src == p.src && LoadedEdge(p).dst == p.dst
  {
  }

  lemma LoadedShape(doc: G.Doc, g: Value)
    requires Loaded(doc) == G.Ok(g)
    ensures DistinctIds(g.nodes) && SortedBy(g.nodes, ByID) && SortedBy(g.edges, ByEnds)
  {
    hide G.ParsedNode, G.Indexed, G.ParsedEdges, LexLe, G.TripleLe;
    LoadedIds(doc);
    var p := G.Parsed(doc).value;
    forall i, j | 0 <= i < j < |g.nodes| ensures g.nodes[i].id != g.nodes[j].id && ByID(g.nodes[i], g.nodes[j]) {
      assert G.NodeLe(p.nodes[i], p.nodes[j]);
    }
    forall i, j | 0 <= i < j < |g.edges| ensures ByEnds(g.edges[i], g.edges[j]) {
      assert G.EdgeLe(p.edges[i], p.edges[j]);
    }
  }

  // ---- What comes out of a save is well named ----

  lemma {:induction false} DecodedNamed(data: seq<G.Data>, keys: map<string, G.Key>, scope: string)
    requires forall d :: d in data ==> d.key != ""
    ensures "" !in G.Decoded(data, keys, scope)
  {
    if data != [] {
      var n := |data| - 1;
      assert data[n] in data;
      DecodedNamed(data[..n], keys, scope);
    }
  }

  lemma {:induction false} DataKeys(m: Attrs, names: seq<string>, prefix: string, d: G.Data)
    requires prefix != "" && d in DataOf(m, names, prefix)
    ensures d.key != ""
  {
    var n := |names| - 1;
    if d in DataOf(m, names[..n], prefix) { DataKeys(m, names[..n], prefix, d); }
  }

  lemma SavedIsWellNamed(h: Value, g: Value)
    requires Written(h).Saved? && Loaded(Written(h).doc) == G.Ok(g)
    ensures WellNamed(g)
  {
    hide Loaded, G.KeyMap, DataOf, G.Decoded, Trimmed;
    var doc := Written(h).doc;
    forall n | n in g.nodes ensures n.id != "" && Trimmed(n.id) && "" !in n.attrs {
      var el := NodeSource(doc, g, n);
      var i :| 0 <= i < |doc.graphs[0].nodes| && doc.graphs[0].nodes[i] == el;
      SavedNode(h.nodes[i].attrs, SortedNames(NodeNames(h.nodes)), i, G.KeyMap(doc.keys));
    }
    forall e | e in g.edges ensures "" !in e.attrs {
      var el, p := EdgeSource(doc, g, e);
      var i :| 0 <= i < |doc.graphs[0].edges| && doc.graphs[0].edges[i] == el;
      SavedEdge(h.edges[i].attrs, SortedNames(EdgeNames(h.edges)), p, G.KeyMap(doc.keys));
    }
  }

  lemma SavedNode(m: Attrs, names: seq<string>, i: nat, keys: map<string, G.Key>)
    ensures var n := LoadedNode(G.ParsedNode(G.NodeEl(XmlID(i), DataOf(m, names, NODE_PREFIX)), keys));
            n.id != "" && Trimmed(n.id) && "" !in n.attrs
  {
    hide G.Decoded, DataOf;
    var data := DataOf(m, names, NODE_PREFIX);
    forall d | d in data ensures d.key != "" { DataKeys(m, names, NODE_PREFIX, d); }
    DecodedNamed(data, keys, G.NODE);
    DecodedTrimmed(data, keys, G.NODE);
    assert XmlID(i)[0] == 'n' && XmlID(i)[|XmlID(i)| - 1] == Itoa(i)[|Itoa(i)| - 1];
    assert Trimmed(XmlID(i)) && XmlID(i) != "";
  }

  lemma SavedEdge(m: Attrs, names: seq<string>, p: G.Edge, keys: map<string, G.Key>)
    requires p.attrs == G.Decoded(DataOf(m, names, EDGE_PREFIX), keys, G.EDGE)
    ensures "" !in LoadedEdge(p).attrs
  {
    var data := DataOf(m, names, EDGE_PREFIX);
    forall d | d in data ensures d.key != "" { DataKeys(m, names, EDGE_PREFIX, d); }
    DecodedNamed(data, keys, G.EDGE);
  }

  // ---- Main results ----

  ghost predicate SurvivesSave(g: Value) {
    Written(g).Saved? && Loaded(Written(g).doc) == G.Ok(g)
  }

  // Exactly the canonical graphs come back unchanged.
  lemma SurvivesIffCanonical(g: Value)
    ensures SurvivesSave(g) <==> Canonical(g)
  {
    hide Written, Loaded, Mirrors, WellNamed, AllRefreshed;
    if Canonical(g) {
      ReloadSorts(g);
      Orders();
      assert Sorted(g) == g;
    }
    if SurvivesSave(g) {
      SavedIsWellNamed(g, g);
      LoadedCanonicalIff(Written(g).doc, g);
    }
  }

  // Load, save, load: the same graph as the first load, exactly if its ids are non-empty
  // and trimmed and its attribute names non-empty.
  lemma SecondLoadIff(doc: G.Doc, g: Value)
    requires Loaded(doc) == G.Ok(g)
    ensures SurvivesSave(g) <==> WellNamed(g)
  {
    hide Written, Loaded, Canonical, WellNamed;
    SurvivesIffCanonical(g);
    LoadedCanonicalIff(doc, g);
  }

  // Whatever was saved, from its first reload on it no longer changes.
  lemma SavingSettles(h: Value, g: Value)
    requires Written(h).Saved? && Loaded(Written(h).doc) == G.Ok(g)
    ensures SurvivesSave(g)
  {
    hide Written, Loaded, WellNamed;
    SavedIsWellNamed(h, g);
    SecondLoadIff(Written(h).doc, g);
  }

  // ---- Added nodes and edges ----

  // A node added in memory is read back as it is exactly if it was given a name, its
  // attributes are clean, and no kind attribute fills in for an empty kind.
  lemma AddedNodeMirrorsIff(n: Node)
    requires n.id != ""
    ensures NodeMirrors(Mirrored(n)) <==>
            n.name != "" && Clean(Mirrored(n).attrs) && (n.kind == "" ==> G.Get(n.attrs, G.KIND) == "")
  {
    hide Clean;
    var m := Mirrored(n).attrs;
    assert G.Get(m, G.KIND) == if n.kind != "" then n.kind else G.Get(n.attrs, G.KIND);
    assert n.name != "" ==> G.Get(m, G.NAME) == n.name;
  }

  // For an edge, the kind may not hide behind a kind or label attribute.
  lemma AddedEdgeMirrorsIff(e: Edge)
    ensures EdgeMirrors(MirroredEdge(e)) <==>
            Clean(MirroredEdge(e).attrs) && (e.kind == "" ==> G.EdgeKind(e.attrs) == "")
  {
    hide Clean;
  }

  // A node is stored with its id, and with its kind and name unless they are empty, among
  // its attributes; the others stay as they are.
  lemma MirroredSays(n: Node, a: string)
    ensures var m := Mirrored(n);
      && m.id == n.id && m.kind == n.kind && m.name == n.name
      && "archmotif_id" in m.attrs && m.attrs["archmotif_id"] == n.id
      && (n.name != "" ==> "name" in m.attrs && m.attrs["name"] == n.name)
      && (n.kind != "" ==> "kind" in m.attrs && m.attrs["kind"] == n.kind)
      && (a != "archmotif_id" && (a == "name" ==> n.name == "") && (a == "kind" ==> n.kind == "") ==>
            (a in m.attrs <==> a in n.attrs) && (a in n.attrs ==> m.attrs[a] == n.attrs[a]))
  {
  }

  lemma MirroredEdgeSays(e: Edge, a: string)
    ensures var m := MirroredEdge(e);
      && m.src == e.src && m.dst == e.dst && m.kind == e.kind
      && (e.kind != "" ==> "kind" in m.attrs && m.attrs["kind"] == e.kind)
      && ((a == "kind" ==> e.kind == "") ==>
            (a in m.attrs <==> a in e.attrs) && (a in e.attrs ==> m.attrs[a] == e.attrs[a]))
  {
  }
}
