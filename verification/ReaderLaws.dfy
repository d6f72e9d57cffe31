/** What a loaded graph takes from the data entries of its document. */
module ReaderLaws {
  import opened Order
  import opened Text
  import G = GraphML
  import opened GraphStore
  import opened StoreRoundTrip

  // ---- Data entries ----

  // The name an entry stands for: that of its key, or the key itself.
  ghost predicate NameIs(d: G.Data, keys: map<string, G.Key>, name: string) {
    if d.key in keys && keys[d.key].name != "" then name == keys[d.key].name else name == d.key
  }

  // The entry has the name, and is not declared for other elements under a name that an
  // earlier entry has given a value.
  ghost predicate Gives(data: seq<G.Data>, keys: map<string, G.Key>, scope: string, name: string, i: nat)
    decreases i, 1
  {
    && i < |data| && NameIs(data[i], keys, name)
    && (data[i].key in keys && keys[data[i].key].scope !in {"", "all", scope} ==>
          !GivenBefore(data, keys, scope, keys[data[i].key].name, i))
  }

  ghost predicate GivenBefore(data: seq<G.Data>, keys: map<string, G.Key>, scope: string, name: string, i: nat)
    decreases i, 0
  {
    exists j: nat :: j < i && Gives(data, keys, scope, name, j)
  }

  // Of the first n entries, the last that gives the name counts.
  ghost predicate Counts(data: seq<G.Data>, keys: map<string, G.Key>, scope: string, name: string, i: nat, n: nat) {
    i < n && Gives(data, keys, scope, name, i) && !exists j: nat :: i < j < n && Gives(data, keys, scope, name, j)
  }

  // An attribute is there exactly if some entry gives it, with the trimmed text of the entry
  // that counts.
  lemma {:induction false} DecodedIs(data: seq<G.Data>, keys: map<string, G.Key>, scope: string, name: string)
    ensures name in G.Decoded(data, keys, scope) <==> exists i: nat :: Counts(data, keys, scope, name, i, |data|)
    ensures forall i: nat :: Counts(data, keys, scope, name, i, |data|) ==>
              name in G.Decoded(data, keys, scope) && G.Decoded(data, keys, scope)[name] == Trim(data[i].value)
  {
    hide *;
    DecodedBefore(data, |data|, keys, scope, name);
    assert data[..|data|] == data;
  }

  // Up to any entry: the last so far counts.
  lemma {:induction false} DecodedBefore(data: seq<G.Data>, n: nat, keys: map<string, G.Key>, scope: string,
                                         name: string)
    requires n <= |data|
    ensures name in G.Decoded(data[..n], keys, scope) <==> GivenBefore(data, keys, scope, name, n)
    ensures GivenBefore(data, keys, scope, name, n) ==> exists i: nat :: Counts(data, keys, scope, name, i, n)
    ensures forall i: nat :: Counts(data, keys, scope, name, i, n) ==>
              && name in G.Decoded(data[..n], keys, scope)
              && G.Decoded(data[..n], keys, scope)[name] == Trim(data[i].value)
  {
    hide G.DecodeEntry, Trim, Gives, GivenBefore, Counts, NameIs;
    GivenStep(data, keys, scope, name, n);
    if n > 0 {
      var front, d := data[..n - 1], data[n - 1];
      assert data[..n][..n - 1] == front;
      DecodedBefore(data, n - 1, keys, scope, name);
      if d.key in keys { DecodedBefore(data, n - 1, keys, scope, keys[d.key].name); }
      EntryStep(data, n - 1, keys, scope, name);
      if Gives(data, keys, scope, name, n - 1) {
        assert Counts(data, keys, scope, name, n - 1, n);
      } else if GivenBefore(data, keys, scope, name, n - 1) {
        var i: nat :| Counts(data, keys, scope, name, i, n - 1);
        assert Counts(data, keys, scope, name, i, n);
      }
    }
  }

  lemma GivenStep(data: seq<G.Data>, keys: map<string, G.Key>, scope: string, name: string, n: nat)
    ensures GivenBefore(data, keys, scope, name, n) <==>
            n > 0 && (Gives(data, keys, scope, name, n - 1) || GivenBefore(data, keys, scope, name, n - 1))
    ensures n == 0 ==> forall i: nat :: !Counts(data, keys, scope, name, i, n)
    ensures n > 0 ==> forall i: nat :: Counts(data, keys, scope, name, i, n) <==>
                        if Gives(data, keys, scope, name, n - 1) then i == n - 1
                        else Counts(data, keys, scope, name, i, n - 1)
  {
    hide NameIs;
  }

  lemma EntryStep(data: seq<G.Data>, n: nat, keys: map<string, G.Key>, scope: string, name: string)
    requires n < |data|
    requires data[n].key in keys ==>
               (keys[data[n].key].name in G.Decoded(data[..n], keys, scope) <==>
                GivenBefore(data, keys, scope, keys[data[n].key].name, n))
    ensures var before, after := G.Decoded(data[..n], keys, scope), G.Decoded(data[..n + 1], keys, scope);
            if Gives(data, keys, scope, name, n)
            then name in after && after[name] == Trim(data[n].value)
            else (name in after <==> name in before) && (name in before ==> after[name] == before[name])
  {
    hide Trim, GivenBefore;
    assert data[..n + 1][..n] == data[..n];
  }

  // A declared key is the last declaration of its id.
  lemma {:induction false} KeyIs(keys: seq<G.Key>, id: string)
    ensures id in G.KeyMap(keys) <==> exists k :: k in keys && k.id == id
    ensures forall i :: 0 <= i < |keys| && keys[i].id == id && (forall j :: i < j < |keys| ==> keys[j].id != id) ==>
              G.KeyMap(keys)[id] == keys[i]
  {
    if keys != [] {
      var n := |keys| - 1;
      KeyIs(keys[..n], id);
      assert keys == keys[..n] + [keys[n]];
      forall i | 0 <= i < n && keys[i].id == id ensures keys[..n][i] == keys[i] { }
    }
  }

  // ---- Nodes and edges ----

  ghost predicate Absent(m: Attrs, name: string) { name in m ==> m[name] == "" }

  // An attribute that a loaded node or edge has in common with the document.
  ghost predicate SameBut(m: Attrs, d: Attrs, name: string) {
    forall a :: a != name ==> (a in m <==> a in d) && (a in d ==> m[a] == d[a])
  }

  // The id is the first that is not empty of "archmotif_id", "id" and the element id.
  ghost predicate IdFrom(id: string, el: G.NodeEl, keys: seq<G.Key>) {
    var d := G.Decoded(el.data, G.KeyMap(keys), "node");
    && (!Absent(d, "archmotif_id") ==> id == d["archmotif_id"])
    && (Absent(d, "archmotif_id") && !Absent(d, "id") ==> id == d["id"])
    && (Absent(d, "archmotif_id") && Absent(d, "id") ==> id == el.id)
  }

  // The kind is that under "kind"; the name is the first that is not empty of "name", "label"
  // and the id. Among the attributes only "archmotif_id" is new: the id.
  ghost predicate NodeFrom(n: Node, el: G.NodeEl, keys: seq<G.Key>) {
    var d := G.Decoded(el.data, G.KeyMap(keys), "node");
    && IdFrom(n.id, el, keys)
    && (!Absent(d, "kind") ==> n.kind == d["kind"]) && (Absent(d, "kind") ==> n.kind == "")
    && (!Absent(d, "name") ==> n.name == d["name"])
    && (Absent(d, "name") && !Absent(d, "label") ==> n.name == d["label"])
    && (Absent(d, "name") && Absent(d, "label") ==> n.name == n.id)
    && SameBut(n.attrs, d, "archmotif_id") && "archmotif_id" in n.attrs && n.attrs["archmotif_id"] == n.id
  }

  // The kind is that under "kind", or if there is none that under "label". Among the
  // attributes only "kind" is new, unless there is no kind.
  ghost predicate EdgeFrom(e: Edge, el: G.EdgeEl, keys: seq<G.Key>) {
    var d := G.Decoded(el.data, G.KeyMap(keys), "edge");
    && (!Absent(d, "kind") ==> e.kind == d["kind"])
    && (Absent(d, "kind") && !Absent(d, "label") ==> e.kind == d["label"])
    && (Absent(d, "kind") && Absent(d, "label") ==> e.kind == "")
    && SameBut(e.attrs, d, "kind")
    && (e.kind != "" ==> "kind" in e.attrs && e.attrs["kind"] == e.kind)
    && (e.kind == "" ==> ("kind" in e.attrs <==> "kind" in d))
  }

  // The graph has a node with the id that comes from an element with the element id.
  ghost predicate EndFrom(g: Value, doc: G.Doc, id: string, element: string) {
    |doc.graphs| == 1 &&
    exists n, el :: && n in g.nodes && el in doc.graphs[0].nodes && NodeFrom(n, el, doc.keys)
                    && n.id == id && el.id == element
  }

  lemma LoadedNodeFrom(el: G.NodeEl, keys: seq<G.Key>)
    ensures NodeFrom(LoadedNode(G.ParsedNode(el, G.KeyMap(keys))), el, keys)
  {
    hide G.Decoded, G.KeyMap;
  }

  // The reader's own node is titled by "label", or else by "name", or else by its id.
  lemma CaptionIs(el: G.NodeEl, keys: seq<G.Key>)
    ensures var n := G.ParsedNode(el, G.KeyMap(keys)); var d := G.Decoded(el.data, G.KeyMap(keys), "node");
      && (!Absent(d, "label") ==> n.caption == d["label"])
      && (Absent(d, "label") && !Absent(d, "name") ==> n.caption == d["name"])
      && (Absent(d, "label") && Absent(d, "name") ==> n.caption == n.id)
  {
    hide G.Decoded, G.KeyMap;
  }

  lemma LoadedEdgeFrom(p: G.Edge, el: G.EdgeEl, keys: seq<G.Key>)
    requires p.attrs == G.Decoded(el.data, G.KeyMap(keys), G.EDGE) && p.kind == G.EdgeKind(p.attrs)
    ensures EdgeFrom(LoadedEdge(p), el, keys)
  {
    hide G.Decoded, G.KeyMap;
  }

  // Each node comes from an element.
  lemma NodesComeFrom(doc: G.Doc, g: Value, n: Node)
    requires Loaded(doc) == G.Ok(g) && n in g.nodes
    ensures |doc.graphs| == 1 && exists el :: el in doc.graphs[0].nodes && NodeFrom(n, el, doc.keys)
  {
    hide NodeFrom, LoadedNode, LoadedEdge, G.ParsedNode, G.KeyMap, G.Indexed, G.ParsedEdges;
    var el := NodeSource(doc, g, n);
    LoadedNodeFrom(el, doc.keys);
  }

  // Each edge comes from an element, and its ends are those that the element names.
  lemma EdgesComeFrom(doc: G.Doc, g: Value, e: Edge)
    requires Loaded(doc) == G.Ok(g) && e in g.edges
    ensures |doc.graphs| == 1
    ensures exists el :: && el in doc.graphs[0].edges && EdgeFrom(e, el, doc.keys)
                         && EndFrom(g, doc, e.src, el.source) && EndFrom(g, doc, e.dst, el.target)
  {
    hide EdgeFrom, EndFrom, LoadedNode, LoadedEdge, G.Indexed, G.ParsedEdges, G.KeyMap, G.ParsedNodes;
    hide G.SortedNodes, G.Decoded, G.EdgeKind, Loaded;
    var keys := G.KeyMap(doc.keys);
    var p, ns, byXML := EdgeParse(doc, g, e);
    ParsedEdgeFrom(doc.graphs[0].edges, ns, byXML, keys, p);
    var k :| 0 <= k < |doc.graphs[0].edges| && G.ParsedEdge(doc.graphs[0].edges[k], ns, byXML, keys) == G.Ok(p);
    var el := doc.graphs[0].edges[k];
    LoadedEdgeFrom(p, el, doc.keys);
    LoadedEnds(p);
    G.IndexedBounds(ns);
    EndOf(doc, g, ns, byXML[el.source]);
    EndOf(doc, g, ns, byXML[el.target]);
  }

  lemma EndOf(doc: G.Doc, g: Value, ns: seq<G.Node>, i: nat)
    requires |doc.graphs| == 1 && ns == G.SortedNodes(G.ParsedNodes(doc.graphs[0].nodes, G.KeyMap(doc.keys)))
    requires g.nodes == Mapped(LoadedNode, ns) && i < |ns|
    ensures EndFrom(g, doc, ns[i].id, ns[i].xmlID)
  {
    hide NodeFrom, LoadedNode, G.KeyMap, LexLe;
    var els := doc.graphs[0].nodes;
    var ps := G.ParsedNodes(els, G.KeyMap(doc.keys));
    SameElems(ps, ns);
    assert ns[i] in ps;
    var k :| 0 <= k < |ps| && ps[k] == ns[i];
    LoadedNodeFrom(els[k], doc.keys);
    LoadedID(ns[i]);
    assert g.nodes[i] in g.nodes && els[k] in els;
  }

  // Nothing is lost: there are as many nodes and edges as elements, and each node element
  // is one of them.
  lemma AllLoaded(doc: G.Doc, g: Value)
    requires Loaded(doc) == G.Ok(g)
    ensures |doc.graphs| == 1
    ensures |g.nodes| == |doc.graphs[0].nodes| && |g.edges| == |doc.graphs[0].edges|
    ensures forall el :: el in doc.graphs[0].nodes ==> exists n :: n in g.nodes && NodeFrom(n, el, doc.keys)
  {
    hide NodeFrom, LoadedNode, LoadedEdge, G.ParsedNode, G.KeyMap, G.Indexed, G.ParsedEdges, LexLe;
    var keys, els := G.KeyMap(doc.keys), doc.graphs[0].nodes;
    var ps := G.ParsedNodes(els, keys);
    var ns := G.SortedNodes(ps);
    PermLen(ps, ns);
    ParsedCount(doc.graphs[0].edges, ns, G.Indexed(ns).value.byXML, keys);
    var es := G.ParsedEdges(doc.graphs[0].edges, ns, G.Indexed(ns).value.byXML, keys).value;
    PermLen(es, G.SortedEdges(es));
    SameElems(ps, ns);
    forall el | el in els ensures exists n :: n in g.nodes && NodeFrom(n, el, doc.keys) {
      var k :| 0 <= k < |els| && els[k] == el;
      assert ps[k] in ns;
      var i :| 0 <= i < |ns| && ns[i] == ps[k];
      LoadedNodeFrom(el, doc.keys);
      assert g.nodes[i] in g.nodes;
    }
  }

  lemma PermLen<T>(s: seq<T>, t: seq<T>)
    requires multiset(s) == multiset(t)
    ensures |s| == |t|
  {
    assert |multiset(s)| == |s|;
    assert |multiset(t)| == |t|;
  }

  lemma {:induction false} ParsedCount(els: seq<G.EdgeEl>, ns: seq<G.Node>, byXML: map<string, nat>,
                                       keys: map<string, G.Key>)
    requires G.ParsedEdges(els, ns, byXML, keys).Ok?
    ensures |G.ParsedEdges(els, ns, byXML, keys).value| == |els|
  {
    hide G.ParsedEdge;
    if els != [] { ParsedCount(els[..|els| - 1], ns, byXML, keys); }
  }

  // ---- Which documents load ----

  ghost predicate Twins(els: seq<G.NodeEl>, keys: seq<G.Key>, id: string) {
    exists i, j :: 0 <= i < j < |els| && IdFrom(id, els[i], keys) && IdFrom(id, els[j], keys)
  }

  ghost predicate Element(els: seq<G.NodeEl>, id: string) { exists el :: el in els && el.id == id }

  // A document loads exactly if it has one graph, no two node elements have one id, and each
  // edge element names two node elements.
  lemma LoadsIff(doc: G.Doc)
    ensures Loaded(doc).Ok? <==>
            && |doc.graphs| == 1 && (forall id :: !Twins(doc.graphs[0].nodes, doc.keys, id))
            && forall e :: e in doc.graphs[0].edges ==>
                 Element(doc.graphs[0].nodes, e.source) && Element(doc.graphs[0].nodes, e.target)
  {
    hide Twins, Element, G.ParsedNode, G.Indexed, G.ParsedEdges, G.KeyMap, LoadedNode, LoadedEdge, G.SortedNodes;
    if |doc.graphs| == 1 {
      var keys, els, edges := G.KeyMap(doc.keys), doc.graphs[0].nodes, doc.graphs[0].edges;
      var ns := G.SortedNodes(G.ParsedNodes(els, keys));
      TwinsIff(els, doc.keys);
      if G.Indexed(ns).Ok? {
        ElementsIndexed(els, keys);
        ParsedIff(edges, ns, G.Indexed(ns).value.byXML, keys);
      }
    }
  }

  // Otherwise the error says which of these it was, and names an id, or an edge element and
  // its end, of which it is true.
  lemma ErrorSays(doc: G.Doc)
    requires Loaded(doc).Err?
    ensures match Loaded(doc).error
            case NoGraph => |doc.graphs| == 0
            case ManyGraphs(n) => n == |doc.graphs| > 1
            case DuplicateID(id) => |doc.graphs| == 1 && Twins(doc.graphs[0].nodes, doc.keys, id)
            case UnknownEnd(edge, end) =>
              && |doc.graphs| == 1 && !Element(doc.graphs[0].nodes, end)
              && (forall id :: !Twins(doc.graphs[0].nodes, doc.keys, id))
              && exists e :: e in doc.graphs[0].edges && e.id == edge && end in {e.source, e.target}
  {
    hide Twins, Element, G.ParsedNode, G.Indexed, G.ParsedEdges, G.KeyMap, LoadedNode, LoadedEdge, G.SortedNodes;
    if |doc.graphs| == 1 {
      var keys, els, edges := G.KeyMap(doc.keys), doc.graphs[0].nodes, doc.graphs[0].edges;
      var ns := G.SortedNodes(G.ParsedNodes(els, keys));
      TwinsIff(els, doc.keys);
      if G.Indexed(ns).Ok? {
        ElementsIndexed(els, keys);
        ParsedIff(edges, ns, G.Indexed(ns).value.byXML, keys);
      }
    }
  }

  lemma ParsedId(el: G.NodeEl, keys: seq<G.Key>, id: string)
    ensures G.ParsedNode(el, G.KeyMap(keys)).id == id <==> IdFrom(id, el, keys)
    ensures G.ParsedNode(el, G.KeyMap(keys)).xmlID == el.id
  {
    hide G.Decoded, G.KeyMap, G.Caption;
  }

  lemma {:induction false} IndexFault(ns: seq<G.Node>)
    ensures G.Indexed(ns).Ok? ==> forall i, j :: 0 <= i < j < |ns| ==> ns[i].id != ns[j].id
    ensures G.Indexed(ns).Ok? ==> forall x :: x in G.Indexed(ns).value.byXML <==> exists n :: n in ns && n.xmlID == x
    ensures G.Indexed(ns).Err? ==>
              && G.Indexed(ns).error.DuplicateID?
              && exists i, j :: 0 <= i < j < |ns| && ns[i].id == ns[j].id == G.Indexed(ns).error.id
  {
    if ns != [] {
      var n := |ns| - 1;
      IndexFault(ns[..n]);
      assert ns == ns[..n] + [ns[n]];
      if G.Indexed(ns[..n]).Ok? { G.IndexedBounds(ns[..n]); }
    }
  }

  lemma ParsedTwins(els: seq<G.NodeEl>, keys: seq<G.Key>, id: string)
    ensures var ps := G.ParsedNodes(els, G.KeyMap(keys));
            Twins(els, keys, id) <==> exists i, j :: 0 <= i < j < |ps| && ps[i].id == ps[j].id == id
  {
    hide G.ParsedNode, G.KeyMap, IdFrom;
    var ps := G.ParsedNodes(els, G.KeyMap(keys));
    if i, j :| 0 <= i < j < |ps| && ps[i].id == ps[j].id == id {
      ParsedId(els[i], keys, id);
      ParsedId(els[j], keys, id);
    }
    if i, j :| 0 <= i < j < |els| && IdFrom(id, els[i], keys) && IdFrom(id, els[j], keys) {
      ParsedId(els[i], keys, id);
      ParsedId(els[j], keys, id);
      assert ps[i].id == ps[j].id == id;
    }
  }

  lemma TwinsIff(els: seq<G.NodeEl>, keys: seq<G.Key>)
    ensures var ix := G.Indexed(G.SortedNodes(G.ParsedNodes(els, G.KeyMap(keys))));
      && (ix.Ok? <==> forall id :: !Twins(els, keys, id))
      && (ix.Err? ==> ix.error.DuplicateID? && Twins(els, keys, ix.error.id))
  {
    hide G.ParsedNode, G.ParsedNodes, G.Indexed, G.KeyMap, Twins, LexLe, SortedBy;
    var ps := G.ParsedNodes(els, G.KeyMap(keys));
    var ns := G.SortedNodes(ps);
    IndexFault(ns);
    if G.Indexed(ns).Ok? {
      DistinctMoves(ns, ps);
      forall id ensures !Twins(els, keys, id) { ParsedTwins(els, keys, id); }
    } else {
      var id := G.Indexed(ns).error.id;
      var i, j :| 0 <= i < j < |ns| && ns[i].id == ns[j].id == id;
      TwinsMove(ns, ps, i, j);
      ParsedTwins(els, keys, id);
    }
  }

  lemma {:induction false} TwiceIff<T>(s: seq<T>, x: T)
    ensures multiset(s)[x] >= 2 <==> exists k, l :: 0 <= k < l < |s| && s[k] == s[l] == x
  {
    if s != [] {
      var n := |s| - 1;
      TwiceIff(s[..n], x);
      assert s == s[..n] + [s[n]];
      assert multiset(s)[x] == multiset(s[..n])[x] + if s[n] == x then 1 else 0;
      if s[n] == x && x in s[..n] {
        var k :| 0 <= k < n && s[..n][k] == x;
        assert s[k] == s[n] == x;
      }
      if k, l :| 0 <= k < l < |s| && s[k] == s[l] == x { assert s[..n][k] == x; }
    }
  }

  // Two places with one id in a list are two places in each reordering of it.
  lemma TwinsMove(ns: seq<G.Node>, ps: seq<G.Node>, i: nat, j: nat)
    requires multiset(ns) == multiset(ps) && i < j < |ns| && ns[i].id == ns[j].id
    ensures exists k, l :: 0 <= k < l < |ps| && ps[k].id == ps[l].id == ns[i].id
  {
    SameElems(ns, ps);
    assert ns[i] in ps && ns[j] in ps;
    if ns[i] == ns[j] {
      TwiceIff(ns, ns[i]);
      TwiceIff(ps, ns[i]);
    } else {
      var k :| 0 <= k < |ps| && ps[k] == ns[i];
      var l :| 0 <= l < |ps| && ps[l] == ns[j];
      assert k < l || l < k;
    }
  }

  lemma DistinctMoves(ns: seq<G.Node>, ps: seq<G.Node>)
    requires multiset(ns) == multiset(ps) && forall i, j :: 0 <= i < j < |ns| ==> ns[i].id != ns[j].id
    ensures forall i, j :: 0 <= i < j < |ps| ==> ps[i].id != ps[j].id
  {
    forall i, j | 0 <= i < j < |ps| ensures ps[i].id != ps[j].id {
      if ps[i].id == ps[j].id { TwinsMove(ps, ns, i, j); }
    }
  }

  lemma ElementsIndexed(els: seq<G.NodeEl>, keys: map<string, G.Key>)
    requires G.Indexed(G.SortedNodes(G.ParsedNodes(els, keys))).Ok?
    ensures forall x :: x in G.Indexed(G.SortedNodes(G.ParsedNodes(els, keys))).value.byXML <==> Element(els, x)
  {
    hide G.Indexed, G.ParsedNodes, LexLe, SortedBy, Element;
    var ps := G.ParsedNodes(els, keys);
    var ns := G.SortedNodes(ps);
    IndexFault(ns);
    SameElems(ps, ns);
    forall x ensures (exists n :: n in ns && n.xmlID == x) <==> Element(els, x) { ParsedElement(els, keys, x); }
  }

  lemma ParsedElement(els: seq<G.NodeEl>, keys: map<string, G.Key>, x: string)
    ensures (exists n :: n in G.ParsedNodes(els, keys) && n.xmlID == x) <==> Element(els, x)
  {
    hide G.Decoded, G.StableID, G.Caption;
    var ps := G.ParsedNodes(els, keys);
    if n :| n in ps && n.xmlID == x {
      var i :| 0 <= i < |ps| && ps[i] == n;
      assert els[i] in els;
    }
    if Element(els, x) {
      var el :| el in els && el.id == x;
      var i :| 0 <= i < |els| && els[i] == el;
      assert ps[i] in ps;
    }
  }

  lemma {:induction false} ParsedIff(els: seq<G.EdgeEl>, ns: seq<G.Node>, byXML: map<string, nat>,
                                     keys: map<string, G.Key>)
    ensures var es := G.ParsedEdges(els, ns, byXML, keys);
      && (es.Ok? <==> forall e :: e in els ==> e.source in byXML && e.target in byXML)
      && (es.Err? ==> && es.error.UnknownEnd? && es.error.end !in byXML
                      && exists e :: e in els && e.id == es.error.edge && es.error.end in {e.source, e.target})
  {
    hide G.Decoded, G.EdgeKind, G.IdAt;
    if els != [] {
      var n := |els| - 1;
      ParsedIff(els[..n], ns, byXML, keys);
      assert els == els[..n] + [els[n]];
    }
  }

  // ---- Direction ----

  lemma FoldIs(s: string)
    ensures G.EqualFold(s, "undirected") <==>
            |s| == 10 && forall i :: 0 <= i < 10 ==> s[i] == "undirected"[i] || s[i] == "UNDIRECTED"[i]
  {
    hide G.Lower;
    forall i | 0 <= i < 10 && |s| == 10
      ensures G.Lower(s[i]) == G.Lower("undirected"[i]) <==> s[i] == "undirected"[i] || s[i] == "UNDIRECTED"[i]
    {
      CasesOf(s[i], "undirected"[i], "UNDIRECTED"[i]);
    }
  }

  lemma CasesOf(c: char, l: char, u: char)
    requires 'a' <= l <= 'z' && u as int == l as int - 32
    ensures G.Lower(c) == G.Lower(l) <==> c == l || c == u
  {
  }

  lemma LoadedDirection(doc: G.Doc, g: Value)
    requires Loaded(doc) == G.Ok(g)
    ensures g.directed == !G.EqualFold(doc.graphs[0].edgeDefault, "undirected")
  {
    hide G.Indexed, G.ParsedNodes, G.ParsedEdges, G.SortedNodes, G.SortedEdges, G.KeyMap, G.EqualFold;
    hide LoadedNode, LoadedEdge;
  }

  // A graph is directed unless its document says "undirected", in letters of either case.
  lemma DirectionIs(doc: G.Doc, g: Value)
    requires Loaded(doc) == G.Ok(g)
    ensures !g.directed <==>
            var s := doc.graphs[0].edgeDefault;
            |s| == 10 && forall i :: 0 <= i < 10 ==> s[i] == "undirected"[i] || s[i] == "UNDIRECTED"[i]
  {
    hide G.EqualFold, G.Lower, G.Indexed, G.ParsedNodes, G.ParsedEdges, G.SortedNodes, G.SortedEdges, G.KeyMap;
    hide LoadedNode, LoadedEdge;
    LoadedDirection(doc, g);
    FoldIs(doc.graphs[0].edgeDefault);
  }
}
