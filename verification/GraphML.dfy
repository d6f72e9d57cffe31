/** GraphML documents, after XML decoding, and the reader for them. */
module GraphML {
  import opened Order
  import opened Text

  type Attrs = map<string, string>

  // The elements of section "GraphML-Attributes" of the GraphML Primer: key
  // declarations, and data entries that refer to them.
  datatype Key = Key(id: string, scope: string, name: string)

  datatype Data = Data(key: string, value: string)

  datatype NodeEl = NodeEl(id: string, data: seq<Data>)

  datatype EdgeEl = EdgeEl(id: string, source: string, target: string, data: seq<Data>)

  datatype GraphEl = GraphEl(edgeDefault: string, nodes: seq<NodeEl>, edges: seq<EdgeEl>)

  datatype Doc = Doc(keys: seq<Key>, graphs: seq<GraphEl>)

  // What the reader makes of them.
  datatype Node = Node(xmlID: string, id: string, caption: string, kind: string, attrs: Attrs)

  datatype Edge = Edge(xmlID: string, src: string, dst: string, kind: string, attrs: Attrs)

  datatype Graph = Graph(directed: bool, nodes: seq<Node>, edges: seq<Edge>)

  datatype Error = NoGraph | ManyGraphs(count: nat) | DuplicateID(id: string) | UnknownEnd(edge: string, end: string)

  datatype Result<+T> = Ok(value: T) | Err(error: Error)

  const NODE := "node"
  const EDGE := "edge"
  const ARCHMOTIF_ID := "archmotif_id"
  const ID := "id"
  const LABEL := "label"
  const NAME := "name"
  const KIND := "kind"
  const UNDIRECTED := "undirected"

  // ---- Attributes ----

  // A missing key reads as the empty string.
  function Get(m: Attrs, name: string): string { if name in m then m[name] else "" }

  function PickFirst(m: Attrs, first: string, second: string): string {
    if Get(m, first) != "" then m[first] else Get(m, second)
  }

  // A later declaration of the same id wins.
  function KeyMap(keys: seq<Key>): map<string, Key> {
    if keys == [] then map[]
    else
      var n := |keys| - 1;
      KeyMap(keys[..n])[keys[n].id := keys[n]]
  }

  predicate OutOfScope(k: Key, scope: string) { k.scope != "" && k.scope != "all" && k.scope != scope }

  // A declared key gives its name; one declared for another kind of element does not
  // override what is there. An undeclared key stands for itself.
  function DecodeEntry(m: Attrs, d: Data, keys: map<string, Key>, scope: string): Attrs {
    if d.key in keys then
      var k := keys[d.key];
      if OutOfScope(k, scope) && k.name in m then m
      else m[(if k.name != "" then k.name else d.key) := Trim(d.value)]
    else m[d.key := Trim(d.value)]
  }

  function Decoded(data: seq<Data>, keys: map<string, Key>, scope: string): Attrs {
    if data == [] then map[]
    else
      var n := |data| - 1;
      DecodeEntry(Decoded(data[..n], keys, scope), data[n], keys, scope)
  }

  method DecodeData(data: seq<Data>, keyByID: map<string, Key>, scope: string) returns (out: Attrs)
    ensures out == Decoded(data, keyByID, scope)
  {
    out := map[];
    for i := 0 to |data|
      invariant out == Decoded(data[..i], keyByID, scope)
    {
      assert data[..i + 1][..i] == data[..i];
      out := DecodeEntry(out, data[i], keyByID, scope);
    }
    assert data[..|data|] == data;
  }

  // ---- Nodes ----

  function StableID(attrs: Attrs, xmlID: string): string {
    var id := PickFirst(attrs, ARCHMOTIF_ID, ID);
    if id == "" then xmlID else id
  }

  function Caption(attrs: Attrs, id: string): string {
    var c := PickFirst(attrs, LABEL, NAME);
    if c == "" then id else c
  }

  function ParsedNode(el: NodeEl, keys: map<string, Key>): Node {
    var attrs := Decoded(el.data, keys, NODE);
    var id := StableID(attrs, el.id);
    Node(el.id, id, Caption(attrs, id), Get(attrs, KIND), attrs)
  }

  predicate NodeLe(a: Node, b: Node) { LexLe(a.id, b.id) }

  lemma NodePreorder()
    ensures TotalPreorder(NodeLe)
  {
    LexPreorder();
  }

  function ParsedNodes(els: seq<NodeEl>, keys: map<string, Key>): (ns: seq<Node>)
    ensures |ns| == |els| && forall i :: 0 <= i < |els| ==> ns[i] == ParsedNode(els[i], keys)
  {
    seq(|els|, i requires 0 <= i < |els| => ParsedNode(els[i], keys))
  }

  function SortedNodes(ns: seq<Node>): (r: seq<Node>)
    ensures multiset(r) == multiset(ns) && SortedBy(r, NodeLe)
  {
    NodePreorder();
    StableSort(ns, NodeLe)
  }

  datatype Index = Index(byID: map<string, nat>, byXML: map<string, nat>)

  // Stable ids must differ; of two equal element ids the later one counts.
  function Indexed(ns: seq<Node>): Result<Index> {
    if ns == [] then Ok(Index(map[], map[]))
    else
      var n := |ns| - 1;
      match Indexed(ns[..n])
      case Err(e) => Err(e)
      case Ok(ix) =>
        if ns[n].id in ix.byID then Err(DuplicateID(ns[n].id))
        else Ok(Index(ix.byID[ns[n].id := n], ix.byXML[ns[n].xmlID := n]))
  }

  lemma {:induction false} IndexedBounds(ns: seq<Node>)
    requires Indexed(ns).Ok?
    ensures var ix := Indexed(ns).value;
      && (forall i :: 0 <= i < |ns| ==> ns[i].id in ix.byID && ix.byID[ns[i].id] == i)
      && (forall x :: x in ix.byID ==> ix.byID[x] < |ns| && ns[ix.byID[x]].id == x)
      && (forall x :: x in ix.byXML ==> ix.byXML[x] < |ns| && ns[ix.byXML[x]].xmlID == x)
  {
    if ns != [] { IndexedBounds(ns[..|ns| - 1]); }
  }

  // ---- Edges ----

  function EdgeKind(attrs: Attrs): string { if Get(attrs, KIND) != "" then attrs[KIND] else Get(attrs, LABEL) }

  function ParsedEdge(el: EdgeEl, ns: seq<Node>, byXML: map<string, nat>, keys: map<string, Key>): Result<Edge> {
    if el.source !in byXML then Err(UnknownEnd(el.id, el.source))
    else if el.target !in byXML then Err(UnknownEnd(el.id, el.target))
    else
      var attrs := Decoded(el.data, keys, EDGE);
      Ok(Edge(el.id, IdAt(ns, byXML[el.source]), IdAt(ns, byXML[el.target]), EdgeKind(attrs), attrs))
  }

  function IdAt(ns: seq<Node>, i: nat): string { if i < |ns| then ns[i].id else "" }

  function ParsedEdges(els: seq<EdgeEl>, ns: seq<Node>, byXML: map<string, nat>, keys: map<string, Key>)
    : Result<seq<Edge>> {
    if els == [] then Ok([])
    else
      var n := |els| - 1;
      match ParsedEdges(els[..n], ns, byXML, keys)
      case Err(e) => Err(e)
      case Ok(es) =>
        match ParsedEdge(els[n], ns, byXML, keys)
        case Err(e) => Err(e)
        case Ok(e) => Ok(es + [e])
  }

  // Lexicographic on three strings.
  predicate TripleLe(a: string, b: string, c: string, a': string, b': string, c': string) {
    if a != a' then LexLe(a, a') else if b != b' then LexLe(b, b') else LexLe(c, c')
  }

  predicate EdgeLe(a: Edge, b: Edge) {
    TripleLe(a.src, a.dst, a.kind, b.src, b.dst, b.kind)
  }

  lemma TripleTrans(a: string, b: string, c: string, a': string, b': string, c': string, a'': string, b'': string,
                    c'': string)
    requires TripleLe(a, b, c, a', b', c') && TripleLe(a', b', c', a'', b'', c'')
    ensures TripleLe(a, b, c, a'', b'', c'')
  {
    hide LexLe;
    LexStep(a, a', a'');
    if a == a' == a'' {
      LexStep(b, b', b'');
      if b == b' == b'' { LexStep(c, c', c''); }
    }
  }

  lemma LexStep(a: string, b: string, c: string)
    ensures LexLe(a, b) && LexLe(b, c) ==> LexLe(a, c)
    ensures LexLe(a, b) && LexLe(b, c) && a == c ==> a == b
  {
    if LexLe(a, b) && LexLe(b, c) {
      LexTrans(a, b, c);
      if a == c { LexAntisym(a, b); }
    }
  }

  lemma EdgePreorder()
    ensures TotalPreorder(EdgeLe)
  {
    hide LexLe;
    forall a, b ensures EdgeLe(a, b) || EdgeLe(b, a) {
      LexTotal(a.src, b.src);
      LexTotal(a.dst, b.dst);
      LexTotal(a.kind, b.kind);
    }
    forall a, b, c | EdgeLe(a, b) && EdgeLe(b, c) ensures EdgeLe(a, c) {
      TripleTrans(a.src, a.dst, a.kind, b.src, b.dst, b.kind, c.src, c.dst, c.kind);
    }
  }

  function SortedEdges(es: seq<Edge>): (r: seq<Edge>)
    ensures multiset(r) == multiset(es) && SortedBy(r, EdgeLe)
  {
    EdgePreorder();
    StableSort(es, EdgeLe)
  }

  // ---- Reading a document ----

  function Lower(c: char): char { if 'A' <= c <= 'Z' then (c as int + 32) as char else c }

  // strings.EqualFold against an ASCII word whose letters have no other folding.
  predicate EqualFold(s: string, word: string) {
    |s| == |word| && forall i :: 0 <= i < |s| ==> Lower(s[i]) == Lower(word[i])
  }

  function Parsed(doc: Doc): Result<Graph> {
    if |doc.graphs| == 0 then Err(NoGraph)
    else if |doc.graphs| > 1 then Err(ManyGraphs(|doc.graphs|))
    else
      var gr, keys := doc.graphs[0], KeyMap(doc.keys);
      var ns := SortedNodes(ParsedNodes(gr.nodes, keys));
      match Indexed(ns)
      case Err(e) => Err(e)
      case Ok(ix) =>
        match ParsedEdges(gr.edges, ns, ix.byXML, keys)
        case Err(e) => Err(e)
        case Ok(es) => Ok(Graph(!EqualFold(gr.edgeDefault, UNDIRECTED), ns, SortedEdges(es)))
  }

  method Read(doc: Doc) returns (res: Result<Graph>)
    ensures res == Parsed(doc)
  {
    if |doc.graphs| == 0 { return Err(NoGraph); }
    if |doc.graphs| > 1 { return Err(ManyGraphs(|doc.graphs|)); }
    var keyByID := ReadKeys(doc.keys);
    var gr := doc.graphs[0];
    var ns := ReadNodes(gr.nodes, keyByID);
    NodePreorder();
    ns := StableSort(ns, NodeLe);
    var index := IndexNodes(ns);
    if index.Err? { return Err(index.error); }
    var es := ReadEdges(gr.edges, ns, index.value.byXML, keyByID);
    if es.Err? { return Err(es.error); }
    EdgePreorder();
    return Ok(Graph(!EqualFold(gr.edgeDefault, UNDIRECTED), ns, StableSort(es.value, EdgeLe)));
  }

  method ReadKeys(keys: seq<Key>) returns (keyByID: map<string, Key>)
    ensures keyByID == KeyMap(keys)
  {
    keyByID := map[];
    for i := 0 to |keys|
      invariant keyByID == KeyMap(keys[..i])
    {
      assert keys[..i + 1][..i] == keys[..i];
      keyByID := keyByID[keys[i].id := keys[i]];
    }
    assert keys[..|keys|] == keys;
  }

  method ReadNodes(els: seq<NodeEl>, keyByID: map<string, Key>) returns (ns: seq<Node>)
    ensures ns == ParsedNodes(els, keyByID)
  {
    hide StableID, Caption, Get, Decoded;
    ns := [];
    for i := 0 to |els|
      invariant |ns| == i && forall k :: 0 <= k < i ==> ns[k] == ParsedNode(els[k], keyByID)
    {
      var attrs := DecodeData(els[i].data, keyByID, NODE);
      var stableID := StableID(attrs, els[i].id);
      ns := ns + [Node(els[i].id, stableID, Caption(attrs, stableID), Get(attrs, KIND), attrs)];
    }
  }

  method IndexNodes(ns: seq<Node>) returns (res: Result<Index>)
    ensures res == Indexed(ns)
  {
    var byID: map<string, nat>, byXML: map<string, nat> := map[], map[];
    for i := 0 to |ns|
      invariant Indexed(ns[..i]) == Ok(Index(byID, byXML))
    {
      assert ns[..i + 1][..i] == ns[..i];
      if ns[i].id in byID {
        res := Err(DuplicateID(ns[i].id));
        IndexFails(ns, i + 1);
        return;
      }
      byID, byXML := byID[ns[i].id := i], byXML[ns[i].xmlID := i];
    }
    assert ns[..|ns|] == ns;
    res := Ok(Index(byID, byXML));
  }

  lemma {:induction false} IndexFails(ns: seq<Node>, i: nat)
    requires i <= |ns| && Indexed(ns[..i]).Err?
    ensures Indexed(ns) == Indexed(ns[..i])
    decreases |ns|
  {
    if i == |ns| {
      assert ns[..i] == ns;
    } else {
      assert ns[..|ns| - 1][..i] == ns[..i];
      IndexFails(ns[..|ns| - 1], i);
    }
  }

  method ReadEdges(els: seq<EdgeEl>, ns: seq<Node>, byXML: map<string, nat>, keyByID: map<string, Key>)
    returns (res: Result<seq<Edge>>)
    ensures res == ParsedEdges(els, ns, byXML, keyByID)
  {
    var es: seq<Edge> := [];
    for i := 0 to |els|
      invariant ParsedEdges(els[..i], ns, byXML, keyByID) == Ok(es)
    {
      assert els[..i + 1][..i] == els[..i];
      var el := els[i];
      var attrs := DecodeData(el.data, keyByID, EDGE);
      if el.source !in byXML || el.target !in byXML {
        res := Err(UnknownEnd(el.id, if el.source !in byXML then el.source else el.target));
        EdgesFail(els, i + 1, ns, byXML, keyByID);
        return;
      }
      var kind := Get(attrs, KIND);
      if kind == "" { kind := Get(attrs, LABEL); }
      es := es + [Edge(el.id, IdAt(ns, byXML[el.source]), IdAt(ns, byXML[el.target]), kind, attrs)];
    }
    assert els[..|els|] == els;
    res := Ok(es);
  }

  lemma {:induction false} EdgesFail(els: seq<EdgeEl>, i: nat, ns: seq<Node>, byXML: map<string, nat>,
                                     keys: map<string, Key>)
    requires i <= |els| && ParsedEdges(els[..i], ns, byXML, keys).Err?
    ensures ParsedEdges(els, ns, byXML, keys) == ParsedEdges(els[..i], ns, byXML, keys)
    decreases |els|
  {
    if i == |els| {
      assert els[..i] == els;
    } else {
      assert els[..|els| - 1][..i] == els[..i];
      EdgesFail(els[..|els| - 1], i, ns, byXML, keys);
    }
  }
}
