/** The writable graph of the MCP server: its index, its operations, loading and saving.

    A save is one replacement of a whole document, so a document value stands for a file. */
module GraphStore {
  import opened Order
  import opened Text
  import G = GraphML

  type Attrs = map<string, string>

  datatype Node = Node(id: string, kind: string, name: string, attrs: Attrs)

  datatype Edge = Edge(src: string, dst: string, kind: string, attrs: Attrs)

  // A graph as a value: everything but the index, which the nodes determine.
  datatype Value = Value(directed: bool, nodes: seq<Node>, edges: seq<Edge>)

  datatype Outcome = Done | IdRequired | DuplicateNode(id: string) | UnknownNode(id: string)

  datatype Saved = Saved(doc: G.Doc) | Dangling(id: string)

  const DIRECTED := "directed"

  // ---- Loading ----

  function LoadedNode(n: G.Node): Node {
    var attrs := n.attrs[G.ARCHMOTIF_ID := n.id];
    Node(n.id, n.kind, if G.Get(attrs, G.NAME) == "" then n.caption else attrs[G.NAME], attrs)
  }

  function LoadedEdge(e: G.Edge): Edge {
    Edge(e.src, e.dst, e.kind, if e.kind == "" then e.attrs else e.attrs[G.KIND := e.kind])
  }

  function Loaded(doc: G.Doc): G.Result<Value> {
    match G.Parsed(doc)
    case Err(e) => G.Err(e)
    case Ok(g) => G.Ok(Value(g.directed, Mapped(LoadedNode, g.nodes), Mapped(LoadedEdge, g.edges)))
  }

  // ---- Saving ----

  function NodeNames(nodes: seq<Node>): set<string> { set n, a | n in nodes && a in n.attrs :: a }

  function EdgeNames(edges: seq<Edge>): set<string> { set e, a | e in edges && a in e.attrs :: a }

  const NODE_PREFIX := "n_"
  const EDGE_PREFIX := "e_"

  function DeclaredKeys(names: seq<string>, prefix: string, scope: string): (keys: seq<G.Key>)
    ensures |keys| == |names| && forall i :: 0 <= i < |names| ==> keys[i] == G.Key(prefix + names[i], scope, names[i])
  {
    seq(|names|, i requires 0 <= i < |names| => G.Key(prefix + names[i], scope, names[i]))
  }

  function XmlID(i: nat): string { "n" + Itoa(i) }

  // The element ids, by stable id.
  function XmlIDs(nodes: seq<Node>): map<string, string> {
    if nodes == [] then map[]
    else
      var n := |nodes| - 1;
      XmlIDs(nodes[..n])[nodes[n].id := XmlID(n)]
  }

  // The attributes under the listed names.
  function DataOf(m: Attrs, names: seq<string>, prefix: string): seq<G.Data> {
    if names == [] then []
    else
      var n := |names| - 1;
      DataOf(m, names[..n], prefix) + (if names[n] in m then [G.Data(prefix + names[n], m[names[n]])] else [])
  }

  function NodeElements(nodes: seq<Node>, names: seq<string>): (els: seq<G.NodeEl>)
    ensures |els| == |nodes|
    ensures forall i :: 0 <= i < |nodes| ==> els[i] == G.NodeEl(XmlID(i), DataOf(nodes[i].attrs, names, NODE_PREFIX))
  {
    seq(|nodes|, i requires 0 <= i < |nodes| => G.NodeEl(XmlID(i), DataOf(nodes[i].attrs, names, NODE_PREFIX)))
  }

  function EdgeElement(e: Edge, i: nat, ids: map<string, string>, names: seq<string>): G.EdgeEl
    requires e.src in ids && e.dst in ids
  {
    G.EdgeEl("e" + Itoa(i), ids[e.src], ids[e.dst], DataOf(e.attrs, names, EDGE_PREFIX))
  }

  ghost predicate Attached(edges: seq<Edge>, ids: set<string>) {
    forall e :: e in edges ==> e.src in ids && e.dst in ids
  }

  ghost function EdgeElements(edges: seq<Edge>, ids: map<string, string>, names: seq<string>): (els: seq<G.EdgeEl>)
    requires Attached(edges, ids.Keys)
    ensures |els| == |edges| && forall i :: 0 <= i < |edges| ==> els[i] == EdgeElement(edges[i], i, ids, names)
  {
    seq(|edges|, i requires 0 <= i < |edges| => EdgeElement(edges[i], i, ids, names))
  }

  // The first end that is not a node, in edge order.
  ghost function FirstLoose(edges: seq<Edge>, ids: set<string>): string
    requires !Attached(edges, ids)
  {
    if edges[0].src !in ids then edges[0].src
    else if edges[0].dst !in ids then edges[0].dst
    else FirstLoose(edges[1..], ids)
  }

  ghost function Written(g: Value): Saved {
    var nodeNames, edgeNames := SortedNames(NodeNames(g.nodes)), SortedNames(EdgeNames(g.edges));
    var ids := XmlIDs(g.nodes);
    if !Attached(g.edges, ids.Keys) then Dangling(FirstLoose(g.edges, ids.Keys))
    else
      Saved(G.Doc(DeclaredKeys(nodeNames, NODE_PREFIX, G.NODE) + DeclaredKeys(edgeNames, EDGE_PREFIX, G.EDGE),
                  [G.GraphEl(if g.directed then DIRECTED else G.UNDIRECTED, NodeElements(g.nodes, nodeNames),
                             EdgeElements(g.edges, ids, edgeNames))]))
  }

  // ---- Adding ----

  // The node as stored: well-known fields are repeated among the attributes.
  function Mirrored(n: Node): Node {
    var a := if n.kind != "" then n.attrs[G.KIND := n.kind] else n.attrs;
    var b := if n.name != "" then a[G.NAME := n.name] else a;
    n.(attrs := b[G.ARCHMOTIF_ID := n.id])
  }

  function MirroredEdge(e: Edge): Edge {
    if e.kind != "" then e.(attrs := e.attrs[G.KIND := e.kind]) else e
  }

  // byID leads from each id to its node, and to nothing else.
  ghost predicate IndexOk(nodes: seq<Node>, byID: map<string, nat>) {
    && (forall i :: 0 <= i < |nodes| ==> nodes[i].id in byID && byID[nodes[i].id] == i)
    && (forall x :: x in byID ==> byID[x] < |nodes| && nodes[byID[x]].id == x)
  }

  class Graph {
    var directed: bool
    var nodes: seq<Node>
    var edges: seq<Edge>
    var byID: map<string, nat>

    ghost predicate Valid()
      reads this
    {
      IndexOk(nodes, byID)
    }

    ghost function Contents(): Value
      reads this
    {
      Value(directed, nodes, edges)
    }

    constructor ()
      ensures Valid() && Contents() == Value(true, [], [])
    {
      directed, nodes, edges, byID := true, [], [], map[];
    }

    constructor Of(directed: bool, nodes: seq<Node>, edges: seq<Edge>, byID: map<string, nat>)
      requires IndexOk(nodes, byID)
      ensures Valid() && Contents() == Value(directed, nodes, edges)
    {
      this.directed, this.nodes, this.edges, this.byID := directed, nodes, edges, byID;
    }

    method AddNode(n: Node) returns (out: Outcome)
      requires Valid()
      modifies this`nodes, this`byID
      ensures Valid()
      ensures out == if n.id == "" then IdRequired else if n.id in old(byID) then DuplicateNode(n.id) else Done
      ensures nodes == if out.Done? then old(nodes) + [Mirrored(n)] else old(nodes)
    {
      if n.id == "" { return IdRequired; }
      if n.id in byID { return DuplicateNode(n.id); }
      var attrs := n.attrs;
      if n.kind != "" { attrs := attrs[G.KIND := n.kind]; }
      if n.name != "" { attrs := attrs[G.NAME := n.name]; }
      attrs := attrs[G.ARCHMOTIF_ID := n.id];
      nodes := nodes + [n.(attrs := attrs)];
      byID := byID[n.id := |nodes| - 1];
      return Done;
    }

    method AddEdge(e: Edge) returns (out: Outcome)
      requires Valid()
      modifies this`edges
      ensures out == if e.src !in byID then UnknownNode(e.src) else if e.dst !in byID then UnknownNode(e.dst) else Done
      ensures edges == if out.Done? then old(edges) + [MirroredEdge(e)] else old(edges)
    {
      if e.src !in byID { return UnknownNode(e.src); }
      if e.dst !in byID { return UnknownNode(e.dst); }
      edges := edges + [MirroredEdge(e)];
      return Done;
    }

    method UpdateNodeAttr(id: string, key: string, value: string) returns (out: Outcome)
      requires Valid()
      modifies this`nodes
      ensures Valid()
      ensures out == if id in byID then Done else UnknownNode(id)
      ensures |nodes| == |old(nodes)|
      ensures forall i :: 0 <= i < |nodes| ==>
                var n := old(nodes)[i];
                nodes[i] == if n.id == id then n.(attrs := n.attrs[key := value]) else n
    {
      if id !in byID { return UnknownNode(id); }
      var i := byID[id];
      nodes := nodes[i := nodes[i].(attrs := nodes[i].attrs[key := value])];
      return Done;
    }

    method WriteGraphML() returns (out: Saved)
      ensures out == Written(Contents())
    {
      hide SortedNames, NodeNames, EdgeNames, Attached, FirstLoose, XmlIDs, DataOf;
      var nodeMaps := Mapped(NodeAttrs, nodes);
      var edgeMaps := Mapped(EdgeAttrs, edges);
      var nodeAttrs := CollectAttrNames(nodeMaps);
      var edgeAttrs := CollectAttrNames(edgeMaps);
      MapsCover(nodes, edges);
      var keys := DeclaredKeys(nodeAttrs, NODE_PREFIX, G.NODE) + DeclaredKeys(edgeAttrs, EDGE_PREFIX, G.EDGE);
      var edgeDefault := if directed then DIRECTED else G.UNDIRECTED;
      var nodeEls, ids := WriteNodes(nodes, nodeAttrs);
      var edgeEls, ok, loose := WriteEdges(edges, ids, edgeAttrs);
      if !ok { return Dangling(loose); }
      out := Saved(G.Doc(keys, [G.GraphEl(edgeDefault, nodeEls, edgeEls)]));
    }
  }

  function NodeAttrs(n: Node): Attrs { n.attrs }

  function EdgeAttrs(e: Edge): Attrs { e.attrs }

  ghost function AllKeys(maps: seq<Attrs>): set<string> { set m, a | m in maps && a in m :: a }

  lemma MapsCover(nodes: seq<Node>, edges: seq<Edge>)
    ensures AllKeys(Mapped(NodeAttrs, nodes)) == NodeNames(nodes)
    ensures AllKeys(Mapped(EdgeAttrs, edges)) == EdgeNames(edges)
  {
    var ns, es := Mapped(NodeAttrs, nodes), Mapped(EdgeAttrs, edges);
    forall a | a in AllKeys(ns) ensures a in NodeNames(nodes) {
      var m :| m in ns && a in m;
      var i :| 0 <= i < |ns| && ns[i] == m;
      assert nodes[i] in nodes;
    }
    forall a | a in NodeNames(nodes) ensures a in AllKeys(ns) {
      var n :| n in nodes && a in n.attrs;
      var i :| 0 <= i < |nodes| && nodes[i] == n;
      assert ns[i] in ns;
    }
    forall a | a in AllKeys(es) ensures a in EdgeNames(edges) {
      var m :| m in es && a in m;
      var i :| 0 <= i < |es| && es[i] == m;
      assert edges[i] in edges;
    }
    forall a | a in EdgeNames(edges) ensures a in AllKeys(es) {
      var e :| e in edges && a in e.attrs;
      var i :| 0 <= i < |edges| && edges[i] == e;
      assert es[i] in es;
    }
  }

  method CollectAttrNames(maps: seq<Attrs>) returns (names: seq<string>)
    ensures names == SortedNames(AllKeys(maps))
  {
    var seen: set<string> := {};
    for i := 0 to |maps|
      invariant seen == AllKeys(maps[..i])
    {
      assert maps[..i + 1] == maps[..i] + [maps[i]];
      assert AllKeys(maps[..i + 1]) == AllKeys(maps[..i]) + maps[i].Keys;
      seen := seen + maps[i].Keys;
    }
    assert maps[..|maps|] == maps;
    names := SortNames(seen);
  }

  method WriteData(m: Attrs, names: seq<string>, prefix: string) returns (data: seq<G.Data>)
    ensures data == DataOf(m, names, prefix)
  {
    data := [];
    for i := 0 to |names|
      invariant data == DataOf(m, names[..i], prefix)
    {
      assert names[..i + 1][..i] == names[..i];
      if names[i] in m { data := data + [G.Data(prefix + names[i], m[names[i]])]; }
    }
    assert names[..|names|] == names;
  }

  method WriteNodes(nodes: seq<Node>, names: seq<string>) returns (els: seq<G.NodeEl>, ids: map<string, string>)
    ensures els == NodeElements(nodes, names) && ids == XmlIDs(nodes)
  {
    hide DataOf, XmlID;
    els, ids := [], map[];
    for i := 0 to |nodes|
      invariant |els| == i && ids == XmlIDs(nodes[..i])
      invariant forall k :: 0 <= k < i ==> els[k] == G.NodeEl(XmlID(k), DataOf(nodes[k].attrs, names, NODE_PREFIX))
    {
      assert nodes[..i + 1][..i] == nodes[..i];
      var data := WriteData(nodes[i].attrs, names, NODE_PREFIX);
      ids := ids[nodes[i].id := XmlID(i)];
      els := els + [G.NodeEl(XmlID(i), data)];
    }
    assert nodes[..|nodes|] == nodes;
  }

  method WriteEdges(edges: seq<Edge>, ids: map<string, string>, names: seq<string>)
    returns (els: seq<G.EdgeEl>, ok: bool, loose: string)
    ensures ok <==> Attached(edges, ids.Keys)
    ensures if ok then els == EdgeElements(edges, ids, names) else loose == FirstLoose(edges, ids.Keys)
  {
    hide FirstLoose, DataOf, Itoa;
    els := [];
    for i := 0 to |edges|
      invariant |els| == i && Attached(edges[..i], ids.Keys)
      invariant forall k :: 0 <= k < i ==> edges[k] in edges[..i] && els[k] == EdgeElement(edges[k], k, ids, names)
    {
      var e := edges[i];
      if e.src !in ids || e.dst !in ids {
        LooseAt(edges, i, ids.Keys);
        return els, false, if e.src !in ids then e.src else e.dst;
      }
      var data := WriteData(e.attrs, names, EDGE_PREFIX);
      var el := G.EdgeEl("e" + Itoa(i), ids[e.src], ids[e.dst], data);
      assert el == EdgeElement(e, i, ids, names);
      AttachedMore(edges, i, ids.Keys);
      els := els + [el];
    }
    assert edges[..|edges|] == edges;
    ok, loose := true, "";
  }

  lemma AttachedMore(edges: seq<Edge>, i: nat, ids: set<string>)
    requires i < |edges| && Attached(edges[..i], ids) && edges[i].src in ids && edges[i].dst in ids
    ensures Attached(edges[..i + 1], ids) && forall k :: 0 <= k < i + 1 ==> edges[k] in edges[..i + 1]
  {
    assert edges[..i + 1] == edges[..i] + [edges[i]];
    forall k | 0 <= k < i + 1 ensures edges[k] in edges[..i + 1] { assert edges[..i + 1][k] == edges[k]; }
  }

  lemma {:induction false} LooseAt(edges: seq<Edge>, i: nat, ids: set<string>)
    requires i < |edges| && Attached(edges[..i], ids) && (edges[i].src !in ids || edges[i].dst !in ids)
    ensures !Attached(edges, ids)
    ensures FirstLoose(edges, ids) == if edges[i].src !in ids then edges[i].src else edges[i].dst
  {
    assert edges[i] in edges;
    if i > 0 {
      assert edges[..i][0] == edges[0] && edges[0] in edges[..i];
      assert edges[1..][..i - 1] == edges[..i][1..];
      LooseAt(edges[1..], i - 1, ids);
    }
  }

  // Reads a document into a graph with its index.
  method Load(doc: G.Doc) returns (res: G.Result<Graph>)
    ensures res.Err? ==> Loaded(doc) == G.Err(res.error)
    ensures res.Ok? ==> fresh(res.value) && res.value.Valid() && Loaded(doc) == G.Ok(res.value.Contents())
  {
    var parsed := G.Read(doc);
    if parsed.Err? { return G.Err(parsed.error); }
    LoadedIds(doc);
    var nodes, byID := LoadNodes(parsed.value.nodes);
    var edges := LoadEdges(parsed.value.edges);
    var g := new Graph.Of(parsed.value.directed, nodes, edges, byID);
    res := G.Ok(g);
  }

  method LoadNodes(parsed: seq<G.Node>) returns (nodes: seq<Node>, byID: map<string, nat>)
    requires forall i, j :: 0 <= i < j < |parsed| ==> parsed[i].id != parsed[j].id
    ensures nodes == Mapped(LoadedNode, parsed) && IndexOk(nodes, byID)
  {
    hide G.Get, LoadedNode;
    nodes, byID := [], map[];
    for i := 0 to |parsed|
      invariant |nodes| == i
      invariant forall k :: 0 <= k < i ==> nodes[k] == LoadedNode(parsed[k]) && nodes[k].id == parsed[k].id
      invariant IndexOk(nodes, byID)
    {
      var n := LoadedNode(parsed[i]);
      LoadedID(parsed[i]);
      nodes := nodes + [n];
      byID := byID[n.id := i];
    }
  }

  lemma LoadedID(n: G.Node)
    ensures LoadedNode(n).id == n.id
  {
  }

  method LoadEdges(parsed: seq<G.Edge>) returns (edges: seq<Edge>)
    ensures edges == Mapped(LoadedEdge, parsed)
  {
    edges := [];
    for i := 0 to |parsed|
      invariant |edges| == i && forall k :: 0 <= k < i ==> edges[k] == LoadedEdge(parsed[k])
    {
      edges := edges + [LoadedEdge(parsed[i])];
    }
  }

  // A parsed graph has no two nodes of one id.
  lemma LoadedIds(doc: G.Doc)
    requires G.Parsed(doc).Ok?
    ensures forall i, j :: 0 <= i < j < |G.Parsed(doc).value.nodes| ==>
              G.Parsed(doc).value.nodes[i].id != G.Parsed(doc).value.nodes[j].id
  {
    var gr, keys := doc.graphs[0], G.KeyMap(doc.keys);
    G.IndexedBounds(G.SortedNodes(G.ParsedNodes(gr.nodes, keys)));
  }
}
