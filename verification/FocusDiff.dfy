/** The added part of a graph with a ring of context around it. */
module FocusDiff {
  import opened Order
  import opened Walks
  import opened Distance
  import opened Queries

  // Every string of a node is an Id here; NO_KEY is the empty one.
  datatype Node = Node(id: Id, caption: Id, kind: Id, attrs: map<Id, Id>)

  datatype Graph = Graph(nodes: seq<Node>, edges: seq<Edge>)

  datatype KeyAttr = ById | ByLabel | ByKind | ByAttr(name: Id)

  datatype Mark = Added | Context

  datatype FocusNode = FocusNode(node: Node, mark: Mark)

  datatype FocusEdge = FocusEdge(edge: Edge, mark: Mark)

  // An edge by the keys of its ends.
  datatype KeyedEdge = KeyedEdge(src: Id, dst: Id, kind: string)

  datatype Focus = Focus(nodes: seq<FocusNode>, edges: seq<FocusEdge>, added: seq<Id>, removed: seq<Id>,
                         contextCount: nat)

  const NO_KEY: Id := 0

  // How nodes are identified across the two graphs.
  datatype Keying = Keying(key: KeyAttr, namedOnly: bool) {
    function Of(n: Node): Id {
      var v := match key
        case ById => n.id
        case ByLabel => n.caption
        case ByKind => n.kind
        case ByAttr(a) => if a in n.attrs then n.attrs[a] else NO_KEY;
      if v == NO_KEY && !namedOnly then n.id else v
    }
  }

  // ---- The reference notions ----

  ghost function KeySet(ns: seq<Node>, k: Keying): set<Id> {
    set n | n in ns && k.Of(n) != NO_KEY :: k.Of(n)
  }

  // The key of each keyed node; with distinct ids no entry is overwritten.
  function KeysById(ns: seq<Node>, k: Keying): map<Id, Id> {
    if ns == [] then map[]
    else
      var n := |ns| - 1;
      var m := KeysById(ns[..n], k);
      if k.Of(ns[n]) == NO_KEY then m else m[ns[n].id := k.Of(ns[n])]
  }

  ghost function AddedIds(idKey: map<Id, Id>, beforeKeys: set<Id>): set<Id> {
    set x | x in idKey && idKey[x] !in beforeKeys
  }

  // One hop along an edge in either direction, to a keyed node.
  ghost function Near(es: seq<Edge>, keyed: set<Id>): Rel {
    set a | a in BothWays(es, []) && a.dst in keyed
  }

  ghost function FocusIds(before: Graph, after: Graph, k: Keying, context: int): set<Id> {
    var idKey := KeysById(after.nodes, k);
    Within(Near(after.edges, idKey.Keys), AddedIds(idKey, KeySet(before.nodes, k)), if context < 0 then 0 else context)
  }

  function EdgeTriple(e: Edge, idKey: map<Id, Id>): KeyedEdge
    requires e.src in idKey && e.dst in idKey
  {
    KeyedEdge(idKey[e.src], idKey[e.dst], e.kind)
  }

  ghost function KeyedEdges(es: seq<Edge>, idKey: map<Id, Id>): set<KeyedEdge> {
    set e | e in es && e.src in idKey && e.dst in idKey :: EdgeTriple(e, idKey)
  }

  // The kept nodes in order, with their marks.
  ghost function KeptNodes(ns: seq<Node>, keep: set<Id>, added: set<Id>): seq<FocusNode> {
    if ns == [] then []
    else
      var n := |ns| - 1;
      KeptNodes(ns[..n], keep, added)
      + (if ns[n].id in keep then [FocusNode(ns[n], if ns[n].id in added then Added else Context)] else [])
  }

  // The induced edges in order; an edge is context if its triple existed before.
  ghost function KeptEdges(es: seq<Edge>, keep: set<Id>, idKey: map<Id, Id>, known: set<KeyedEdge>): seq<FocusEdge>
    requires keep <= idKey.Keys
  {
    if es == [] then []
    else
      var n := |es| - 1;
      KeptEdges(es[..n], keep, idKey, known)
      + (if es[n].src in keep && es[n].dst in keep
         then [FocusEdge(es[n], if EdgeTriple(es[n], idKey) in known then Context else Added)] else [])
  }

  ghost predicate FocusOk(before: Graph, after: Graph, k: Keying, context: int, f: Focus) {
    var idKey := KeysById(after.nodes, k);
    var beforeKeys, afterKeys := KeySet(before.nodes, k), KeySet(after.nodes, k);
    var keep := FocusIds(before, after, k, context);
    && keep <= idKey.Keys
    && f.nodes == KeptNodes(after.nodes, keep, AddedIds(idKey, beforeKeys))
    && f.edges == KeptEdges(after.edges, keep, idKey, KeyedEdges(before.edges, KeysById(before.nodes, k)))
    && f.added == SortedSeq(afterKeys - beforeKeys) && f.removed == SortedSeq(beforeKeys - afterKeys)
    && f.contextCount == |ContextNodes(f.nodes)|
  }

  ghost function ContextNodes(ns: seq<FocusNode>): seq<FocusNode> {
    if ns == [] then []
    else ContextNodes(ns[..|ns| - 1]) + (if ns[|ns| - 1].mark == Context then [ns[|ns| - 1]] else [])
  }

  ghost predicate DistinctNodes(ns: seq<Node>) {
    forall i, j :: 0 <= i < j < |ns| ==> ns[i].id != ns[j].id
  }

  // ---- The computation ----

  method CollectKeys(ns: seq<Node>, k: Keying) returns (keys: set<Id>, idKey: map<Id, Id>)
    ensures keys == KeySet(ns, k) && idKey == KeysById(ns, k)
  {
    keys, idKey := {}, map[];
    for i := 0 to |ns|
      invariant keys == KeySet(ns[..i], k) && idKey == KeysById(ns[..i], k)
    {
      assert ns[..i + 1][..i] == ns[..i];
      KeySetSnoc(ns, i, k);
      var key := k.Of(ns[i]);
      if key == NO_KEY { continue; }
      keys := keys + {key};
      idKey := idKey[ns[i].id := key];
    }
    assert ns[..|ns|] == ns;
  }

  lemma KeySetSnoc(ns: seq<Node>, i: nat, k: Keying)
    requires i < |ns|
    ensures KeySet(ns[..i + 1], k) == KeySet(ns[..i], k) + (if k.Of(ns[i]) == NO_KEY then {} else {k.Of(ns[i])})
  {
    assert ns[..i + 1] == ns[..i] + [ns[i]];
  }

  method FindAdded(ns: seq<Node>, k: Keying, idKey: map<Id, Id>, beforeKeys: set<Id>) returns (added: set<Id>)
    requires idKey == KeysById(ns, k)
    ensures added == AddedIds(idKey, beforeKeys)
  {
    added := {};
    for i := 0 to |ns|
      invariant added <= AddedIds(idKey, beforeKeys)
      invariant forall j :: 0 <= j < i && ns[j].id in AddedIds(idKey, beforeKeys) ==> ns[j].id in added
    {
      if ns[i].id in idKey && idKey[ns[i].id] !in beforeKeys { added := added + {ns[i].id}; }
    }
    forall x | x in AddedIds(idKey, beforeKeys) ensures x in added {
      var j := KeyedAt(ns, k, x);
    }
  }

  lemma {:induction false} KeyedAt(ns: seq<Node>, k: Keying, x: Id) returns (i: nat)
    requires x in KeysById(ns, k)
    ensures i < |ns| && ns[i].id == x && KeysById(ns, k)[x] != NO_KEY && KeysById(ns, k)[x] in KeySet(ns, k)
    ensures KeysById(ns, k)[x] == k.Of(ns[i])
  {
    var n := |ns| - 1;
    KeySetSnoc(ns, n, k);
    assert ns[..n + 1] == ns;
    if ns[n].id == x && k.Of(ns[n]) != NO_KEY { i := n; } else { i := KeyedAt(ns[..n], k, x); }
  }

  // One more ring: what the frontier touches and the focus lacks.
  method NextRing(es: seq<Edge>, idKey: map<Id, Id>, inFocus: set<Id>, frontier: set<Id>) returns (next: set<Id>)
    requires frontier <= inFocus
    requires forall a :: a in Near(es, idKey.Keys) && a.src in inFocus && a.src !in frontier ==> a.dst in inFocus
    ensures next !! inFocus && inFocus + next == inFocus + Image(Near(es, idKey.Keys), inFocus)
  {
    ghost var r := Near(es, idKey.Keys);
    next := {};
    for i := 0 to |es|
      invariant next !! inFocus && next <= Image(r, inFocus)
      invariant forall j :: 0 <= j < i ==>
                  && (es[j].src in frontier && es[j].dst in idKey ==> es[j].dst in inFocus + next)
                  && (es[j].dst in frontier && es[j].src in idKey ==> es[j].src in inFocus + next)
    {
      var e := es[i];
      EdgeIsNear(es, e, idKey.Keys);
      if e.src in frontier && e.dst in idKey && e.dst !in inFocus {
        assert Arc(e.src, e.dst).dst in Image(r, inFocus);
        next := next + {e.dst};
      }
      if e.dst in frontier && e.src in idKey && e.src !in inFocus {
        assert Arc(e.dst, e.src).dst in Image(r, inFocus);
        next := next + {e.src};
      }
    }
    forall x | x in Image(r, inFocus) ensures x in inFocus + next {
      var a :| a in r && a.src in inFocus && a.dst == x;
      if a.src in frontier {
        var e := NearFromEdge(es, a, idKey.Keys);
        var j :| 0 <= j < |es| && es[j] == e;
      }
    }
  }

  lemma EdgeIsNear(es: seq<Edge>, e: Edge, keyed: set<Id>)
    requires e in es
    ensures e.dst in keyed ==> Arc(e.src, e.dst) in Near(es, keyed)
    ensures e.src in keyed ==> Arc(e.dst, e.src) in Near(es, keyed)
  {
  }

  lemma NearFromEdge(es: seq<Edge>, a: Arc, keyed: set<Id>) returns (e: Edge)
    requires a in Near(es, keyed)
    ensures e in es && a.dst in keyed && (a == Arc(e.src, e.dst) || a == Arc(e.dst, e.src))
  {
    e :| e in es && (a == Arc(e.src, e.dst) || a == Arc(e.dst, e.src));
  }

  method Grow(es: seq<Edge>, idKey: map<Id, Id>, added: set<Id>, context: int) returns (inFocus: set<Id>)
    ensures inFocus == Within(Near(es, idKey.Keys), added, if context < 0 then 0 else context)
  {
    ghost var r := Near(es, idKey.Keys);
    inFocus := added;
    var frontier := added;
    var d := 0;
    while d < context
      invariant 0 <= d && (d <= context || (context < 0 && d == 0))
      invariant inFocus == Within(r, added, d) && frontier <= inFocus
      invariant forall a :: a in r && a.src in inFocus && a.src !in frontier ==> a.dst in inFocus
    {
      var next := NextRing(es, idKey, inFocus, frontier);
      if next == {} {
        assert Image(r, inFocus) <= inFocus;
        WithinFixed(r, added, d, context);
        return;
      }
      ghost var ring := inFocus;
      inFocus := inFocus + next;
      frontier := next;
      d := d + 1;
      forall a | a in r && a.src in inFocus && a.src !in frontier ensures a.dst in inFocus {
        assert a.src in ring && a.dst in Image(r, ring);
      }
    }
  }

  method OldEdges(es: seq<Edge>, idKey: map<Id, Id>) returns (known: set<KeyedEdge>)
    ensures known == KeyedEdges(es, idKey)
  {
    known := {};
    for i := 0 to |es|
      invariant known == KeyedEdges(es[..i], idKey)
    {
      assert es[..i + 1] == es[..i] + [es[i]];
      var e := es[i];
      assert KeyedEdges(es[..i + 1], idKey) ==
             KeyedEdges(es[..i], idKey) + (if e.src in idKey && e.dst in idKey then {EdgeTriple(e, idKey)} else {});
      if e.src in idKey && e.dst in idKey { known := known + {EdgeTriple(e, idKey)}; }
    }
    assert es[..|es|] == es;
  }

  method KeepNodes(ns: seq<Node>, inFocus: set<Id>, added: set<Id>) returns (out: seq<FocusNode>, contextCount: nat)
    ensures out == KeptNodes(ns, inFocus, added) && contextCount == |ContextNodes(out)|
  {
    out, contextCount := [], 0;
    for i := 0 to |ns|
      invariant out == KeptNodes(ns[..i], inFocus, added) && contextCount == |ContextNodes(out)|
    {
      assert ns[..i + 1][..i] == ns[..i];
      if ns[i].id !in inFocus { continue; }
      var node := FocusNode(ns[i], if ns[i].id in added then Added else Context);
      assert (out + [node])[..|out|] == out;
      if node.mark == Context { contextCount := contextCount + 1; }
      out := out + [node];
    }
    assert ns[..|ns|] == ns;
  }

  method KeepEdges(es: seq<Edge>, inFocus: set<Id>, idKey: map<Id, Id>, known: set<KeyedEdge>)
    returns (out: seq<FocusEdge>)
    requires inFocus <= idKey.Keys
    ensures out == KeptEdges(es, inFocus, idKey, known)
  {
    out := [];
    for i := 0 to |es|
      invariant out == KeptEdges(es[..i], inFocus, idKey, known)
    {
      assert es[..i + 1][..i] == es[..i];
      var e := es[i];
      if e.src !in inFocus || e.dst !in inFocus { continue; }
      out := out + [FocusEdge(e, if EdgeTriple(e, idKey) in known then Context else Added)];
    }
    assert es[..|es|] == es;
  }

  method Diff(before: Graph, after: Graph, k: Keying, context: int) returns (f: Focus)
    ensures FocusOk(before, after, k, context, f)
  {
    var beforeKeys, beforeIdKey := CollectKeys(before.nodes, k);
    var afterKeys, idKey := CollectKeys(after.nodes, k);
    var added := FindAdded(after.nodes, k, idKey, beforeKeys);
    var inFocus := Grow(after.edges, idKey, added, context);
    FocusIsKeyed(after.edges, idKey.Keys, added, if context < 0 then 0 else context);
    var known := OldEdges(before.edges, beforeIdKey);
    var nodes, contextCount := KeepNodes(after.nodes, inFocus, added);
    var edges := KeepEdges(after.edges, inFocus, idKey, known);
    f := Focus(nodes, edges, SortedSeq(afterKeys - beforeKeys), SortedSeq(beforeKeys - afterKeys), contextCount);
  }

  lemma {:induction false} FocusIsKeyed(es: seq<Edge>, keyed: set<Id>, added: set<Id>, d: nat)
    requires added <= keyed
    ensures Within(Near(es, keyed), added, d) <= keyed
  {
    if d > 0 { FocusIsKeyed(es, keyed, added, d - 1); }
  }

  // ---- Laws ----

  // A node is in focus exactly if a walk of at most `context` hops over keyed nodes leads
  // to it from an added node.
  lemma FocusIsWithinHops(before: Graph, after: Graph, k: Keying, context: nat, x: Id)
    ensures var idKey := KeysById(after.nodes, k);
            var r, added := Near(after.edges, idKey.Keys), AddedIds(idKey, KeySet(before.nodes, k));
            x in FocusIds(before, after, k, context) <==>
            exists p :: IsWalk(r, p) && p[0] in added && p[|p| - 1] == x && |p| <= context + 1
  {
    var idKey := KeysById(after.nodes, k);
    var r, added := Near(after.edges, idKey.Keys), AddedIds(idKey, KeySet(before.nodes, k));
    if x in FocusIds(before, after, k, context) {
      var p := WithinWalk(r, added, x, context);
    }
    if p :| IsWalk(r, p) && p[0] in added && p[|p| - 1] == x && |p| <= context + 1 {
      WalkWithin(r, added, p);
      WithinMono(r, added, |p| - 1, context);
    }
  }

  lemma {:induction false} KeptNodesElems(ns: seq<Node>, keep: set<Id>, added: set<Id>, x: FocusNode)
    ensures x in KeptNodes(ns, keep, added) <==>
            x.node in ns && x.node.id in keep && (x.mark == Added <==> x.node.id in added)
  {
    if ns != [] {
      KeptNodesElems(ns[..|ns| - 1], keep, added, x);
      assert ns == ns[..|ns| - 1] + [ns[|ns| - 1]];
    }
  }

  lemma {:induction false} KeptEdgesElems(es: seq<Edge>, keep: set<Id>, idKey: map<Id, Id>, known: set<KeyedEdge>,
                                          x: FocusEdge)
    requires keep <= idKey.Keys
    ensures x in KeptEdges(es, keep, idKey, known) <==>
            && x.edge in es && x.edge.src in keep && x.edge.dst in keep
            && (x.mark == Context <==> EdgeTriple(x.edge, idKey) in known)
  {
    if es != [] {
      KeptEdgesElems(es[..|es| - 1], keep, idKey, known, x);
      assert es == es[..|es| - 1] + [es[|es| - 1]];
    }
  }

  // The focus holds the after-nodes in range, and among them exactly the added ones are
  // marked added.
  lemma FocusNodesIff(before: Graph, after: Graph, k: Keying, context: int, f: Focus, n: Node, mark: Mark)
    requires FocusOk(before, after, k, context, f) && DistinctNodes(after.nodes)
    ensures FocusNode(n, mark) in f.nodes <==>
            && n in after.nodes && n.id in FocusIds(before, after, k, context)
            && (mark == Added <==> k.Of(n) != NO_KEY && k.Of(n) !in KeySet(before.nodes, k))
  {
    var idKey := KeysById(after.nodes, k);
    KeptNodesElems(after.nodes, FocusIds(before, after, k, context), AddedIds(idKey, KeySet(before.nodes, k)),
                   FocusNode(n, mark));
    if n in after.nodes { KeyedIff(after.nodes, k, n); }
  }

  lemma {:induction false} NotKeyed(ns: seq<Node>, k: Keying, x: Id)
    requires forall n :: n in ns ==> n.id != x
    ensures x !in KeysById(ns, k)
  {
    if ns != [] {
      assert ns[|ns| - 1] in ns;
      NotKeyed(ns[..|ns| - 1], k, x);
    }
  }

  lemma {:induction false} KeyedIff(ns: seq<Node>, k: Keying, n: Node)
    requires DistinctNodes(ns) && n in ns
    ensures n.id in KeysById(ns, k) <==> k.Of(n) != NO_KEY
    ensures n.id in KeysById(ns, k) ==> KeysById(ns, k)[n.id] == k.Of(n)
  {
    var m := |ns| - 1;
    assert ns == ns[..m] + [ns[m]];
    if n == ns[m] {
      forall o | o in ns[..m] ensures o.id != n.id { var i :| 0 <= i < m && ns[i] == o; }
      NotKeyed(ns[..m], k, n.id);
    } else {
      var i :| 0 <= i < m && ns[i] == n;
      KeyedIff(ns[..m], k, n);
    }
  }

  // An edge at an added node is new, whatever the edges were before.
  lemma EdgesAtAddedAreAdded(before: Graph, after: Graph, k: Keying, context: int, f: Focus, e: FocusEdge)
    requires FocusOk(before, after, k, context, f) && e in f.edges
    requires var added := AddedIds(KeysById(after.nodes, k), KeySet(before.nodes, k));
             e.edge.src in added || e.edge.dst in added
    ensures e.mark == Added
  {
    var idKey, oldKey := KeysById(after.nodes, k), KeysById(before.nodes, k);
    var known := KeyedEdges(before.edges, oldKey);
    KeptEdgesElems(after.edges, FocusIds(before, after, k, context), idKey, known, e);
    if EdgeTriple(e.edge, idKey) in known {
      var o :| o in before.edges && o.src in oldKey && o.dst in oldKey
               && EdgeTriple(o, oldKey) == EdgeTriple(e.edge, idKey);
      var i := KeyedAt(before.nodes, k, o.src);
      var j := KeyedAt(before.nodes, k, o.dst);
    }
  }

  lemma NoNewKeys(before: Graph, after: Graph, k: Keying, context: int, f: Focus)
    requires FocusOk(before, after, k, context, f) && KeySet(after.nodes, k) <= KeySet(before.nodes, k)
    ensures f.nodes == [] && f.edges == [] && f.added == [] && f.contextCount == 0
  {
    var idKey := KeysById(after.nodes, k);
    NoneAdded(after.nodes, k, KeySet(before.nodes, k));
    EmptyStays(Near(after.edges, idKey.Keys), if context < 0 then 0 else context);
    NothingKept(after, {}, idKey, KeyedEdges(before.edges, KeysById(before.nodes, k)));
    assert KeySet(after.nodes, k) - KeySet(before.nodes, k) == {};
  }

  lemma NewKeyInFocus(before: Graph, after: Graph, k: Keying, context: int, f: Focus, n: Node)
    requires FocusOk(before, after, k, context, f) && DistinctNodes(after.nodes)
    requires n in after.nodes && k.Of(n) != NO_KEY && k.Of(n) !in KeySet(before.nodes, k)
    ensures FocusNode(n, Added) in f.nodes
  {
    var idKey := KeysById(after.nodes, k);
    KeyedIff(after.nodes, k, n);
    WithinMono(Near(after.edges, idKey.Keys), AddedIds(idKey, KeySet(before.nodes, k)), 0,
               if context < 0 then 0 else context);
    FocusNodesIff(before, after, k, context, f, n, Added);
  }

  // The focus is empty exactly if no key is new.
  lemma EmptyFocusIff(before: Graph, after: Graph, k: Keying, context: int, f: Focus)
    requires FocusOk(before, after, k, context, f) && DistinctNodes(after.nodes)
    ensures f.nodes == [] <==> f.added == []
    ensures f.added == [] ==> f.edges == [] && f.contextCount == 0
  {
    hide Keying.Of, FocusIds, KeysById;
    var beforeKeys, afterKeys := KeySet(before.nodes, k), KeySet(after.nodes, k);
    var news := afterKeys - beforeKeys;
    assert Elems(f.added) == news;
    if news == {} {
      forall x | x in afterKeys ensures x in beforeKeys { assert x !in news; }
      NoNewKeys(before, after, k, context, f);
    } else {
      var key := Pick(news);
      assert f.added != [];
      var n :| n in after.nodes && k.Of(n) != NO_KEY && k.Of(n) == key;
      NewKeyInFocus(before, after, k, context, f, n);
    }
  }

  lemma NoneAdded(ns: seq<Node>, k: Keying, beforeKeys: set<Id>)
    requires KeySet(ns, k) <= beforeKeys
    ensures AddedIds(KeysById(ns, k), beforeKeys) == {}
  {
    forall x | x in KeysById(ns, k) ensures KeysById(ns, k)[x] in beforeKeys { var i := KeyedAt(ns, k, x); }
  }

  lemma {:induction false} EmptyStays(r: Rel, d: nat)
    ensures Within(r, {}, d) == {}
  {
    if d > 0 { EmptyStays(r, d - 1); }
  }

  lemma NothingKept(after: Graph, added: set<Id>, idKey: map<Id, Id>, known: set<KeyedEdge>)
    ensures KeptNodes(after.nodes, {}, added) == [] && KeptEdges(after.edges, {}, idKey, known) == []
  {
    NoNodesKept(after.nodes, added);
    NoEdgesKept(after.edges, idKey, known);
  }

  lemma {:induction false} NoNodesKept(ns: seq<Node>, added: set<Id>)
    ensures KeptNodes(ns, {}, added) == []
  {
    if ns != [] { NoNodesKept(ns[..|ns| - 1], added); }
  }

  lemma {:induction false} NoEdgesKept(es: seq<Edge>, idKey: map<Id, Id>, known: set<KeyedEdge>)
    ensures KeptEdges(es, {}, idKey, known) == []
  {
    if es != [] { NoEdgesKept(es[..|es| - 1], idKey, known); }
  }

  // Nothing is in focus when the graphs are equal.
  lemma SameGraphEmptyFocus(g: Graph, k: Keying, context: int, f: Focus)
    requires FocusOk(g, g, k, context, f)
    ensures f == Focus([], [], [], [], 0)
  {
    NoNewKeys(g, g, k, context, f);
    assert KeySet(g.nodes, k) - KeySet(g.nodes, k) == {};
  }

  // ---- The focus in terms of the two graphs ----

  // The text a node is identified by; without one, its id, unless only named nodes count.
  lemma KeyIs(k: Keying, n: Node)
    ensures var v := match k.key
                     case ById => n.id
                     case ByLabel => n.caption
                     case ByKind => n.kind
                     case ByAttr(a) => if a in n.attrs then n.attrs[a] else 0;
            && (v != 0 ==> k.Of(n) == v) && (v == 0 && k.namedOnly ==> k.Of(n) == 0)
            && (v == 0 && !k.namedOnly ==> k.Of(n) == n.id)
  {
  }

  // Some node with this id has this key.
  ghost predicate HasKey(ns: seq<Node>, k: Keying, id: Id, key: Id) {
    key != NO_KEY && exists n :: n in ns && n.id == id && k.Of(n) == key
  }

  ghost predicate Keyed(ns: seq<Node>, k: Keying, id: Id) { exists key :: HasKey(ns, k, id, key) }

  // No node had the key before.
  ghost predicate IsNew(before: Graph, after: Graph, k: Keying, id: Id) {
    exists key :: HasKey(after.nodes, k, id, key) && forall m :: m in before.nodes ==> k.Of(m) != key
  }

  ghost predicate Joined(es: seq<Edge>, a: Id, b: Id) {
    exists e :: e in es && ((e.src == a && e.dst == b) || (e.src == b && e.dst == a))
  }

  // A chain of keyed nodes from a new one, each joined to the next.
  ghost predicate Chain(before: Graph, after: Graph, k: Keying, p: seq<Id>) {
    && p != [] && IsNew(before, after, k, p[0])
    && forall i {:trigger Link(after, k, p, i)} :: 0 <= i < |p| - 1 ==> Link(after, k, p, i)
  }

  ghost predicate Link(after: Graph, k: Keying, p: seq<Id>, i: int)
    requires 0 <= i < |p| - 1
  {
    Joined(after.edges, p[i], p[i + 1]) && Keyed(after.nodes, k, p[i + 1])
  }

  lemma KeyedByIdIff(ns: seq<Node>, k: Keying, id: Id)
    requires DistinctNodes(ns)
    ensures id in KeysById(ns, k) <==> Keyed(ns, k, id)
    ensures forall key :: HasKey(ns, k, id, key) <==> id in KeysById(ns, k) && KeysById(ns, k)[id] == key
  {
    hide KeysById, Keying.Of;
    forall n | n in ns && n.id == id { KeyedIff(ns, k, n); }
    if id in KeysById(ns, k) {
      var i := KeyedAt(ns, k, id);
      assert ns[i] in ns;
      assert HasKey(ns, k, id, KeysById(ns, k)[id]);
    }
  }

  lemma NewIff(before: Graph, after: Graph, k: Keying, id: Id)
    requires DistinctNodes(after.nodes)
    ensures id in AddedIds(KeysById(after.nodes, k), KeySet(before.nodes, k)) <==> IsNew(before, after, k, id)
  {
    hide KeysById, Keying.Of, HasKey;
    KeyedByIdIff(after.nodes, k, id);
    if id in KeysById(after.nodes, k) {
      var key := KeysById(after.nodes, k)[id];
      assert HasKey(after.nodes, k, id, key);
      NoKeyUnseen(after.nodes, k, id, key);
    }
  }

  lemma NoKeyUnseen(ns: seq<Node>, k: Keying, id: Id, key: Id)
    requires HasKey(ns, k, id, key)
    ensures key != NO_KEY
  {
  }

  lemma NearIff(es: seq<Edge>, keyed: set<Id>, a: Id, b: Id)
    ensures Arc(a, b) in Near(es, keyed) <==> Joined(es, a, b) && b in keyed
  {
    DirectedIff(es, [], a, b);
  }

  // In focus are exactly the nodes that such a chain of at most context links leads to.
  lemma FocusIsChains(before: Graph, after: Graph, k: Keying, context: nat, x: Id)
    requires DistinctNodes(after.nodes)
    ensures x in FocusIds(before, after, k, context) <==>
            exists p :: Chain(before, after, k, p) && p[|p| - 1] == x && |p| <= context + 1
  {
    hide KeysById, FocusIds, Near, AddedIds, IsNew, Keyed, Joined;
    var idKey := KeysById(after.nodes, k);
    var r, added := Near(after.edges, idKey.Keys), AddedIds(idKey, KeySet(before.nodes, k));
    FocusIsWithinHops(before, after, k, context, x);
    forall p: seq<Id> | p != [] ensures IsWalk(r, p) && p[0] in added <==> Chain(before, after, k, p) {
      NewIff(before, after, k, p[0]);
      forall i {:trigger Step(r, p, i)} {:trigger Link(after, k, p, i)} | 0 <= i < |p| - 1
        ensures Step(r, p, i) <==> Link(after, k, p, i)
      {
        NearIff(after.edges, idKey.Keys, p[i], p[i + 1]);
        KeyedByIdIff(after.nodes, k, p[i + 1]);
      }
    }
  }

  // A kept edge is context exactly if an edge of its kind joined nodes with the keys of its
  // ends before.
  lemma EdgeMarksSay(before: Graph, after: Graph, k: Keying, context: int, f: Focus, e: FocusEdge)
    requires FocusOk(before, after, k, context, f) && DistinctNodes(before.nodes) && DistinctNodes(after.nodes)
    requires e in f.edges
    ensures e.mark == Context <==>
            exists o, s, t :: o in before.edges && o.kind == e.edge.kind
              && HasKey(before.nodes, k, o.src, s) && HasKey(after.nodes, k, e.edge.src, s)
              && HasKey(before.nodes, k, o.dst, t) && HasKey(after.nodes, k, e.edge.dst, t)
  {
    hide KeysById, FocusIds, HasKey, Keyed;
    var idKey, oldKey := KeysById(after.nodes, k), KeysById(before.nodes, k);
    var known := KeyedEdges(before.edges, oldKey);
    KeptEdgesElems(after.edges, FocusIds(before, after, k, context), idKey, known, e);
    forall x { KeyedByIdIff(after.nodes, k, x); }
    forall x { KeyedByIdIff(before.nodes, k, x); }
    if EdgeTriple(e.edge, idKey) in known {
      var o :| o in before.edges && o.src in oldKey && o.dst in oldKey
               && EdgeTriple(o, oldKey) == EdgeTriple(e.edge, idKey);
      assert HasKey(before.nodes, k, o.src, oldKey[o.src]) && HasKey(after.nodes, k, e.edge.src, oldKey[o.src]);
      assert HasKey(before.nodes, k, o.dst, oldKey[o.dst]) && HasKey(after.nodes, k, e.edge.dst, oldKey[o.dst]);
    }
    forall o, s, t | o in before.edges && o.kind == e.edge.kind
        && HasKey(before.nodes, k, o.src, s) && HasKey(after.nodes, k, e.edge.src, s)
        && HasKey(before.nodes, k, o.dst, t) && HasKey(after.nodes, k, e.edge.dst, t)
      ensures EdgeTriple(e.edge, idKey) in known
    {
      assert EdgeTriple(o, oldKey) == EdgeTriple(e.edge, idKey);
    }
  }

  // The keys listed as added are those that only nodes after have, those listed as removed
  // are those that only nodes before have, and each list ascends.
  lemma KeyListsSay(before: Graph, after: Graph, k: Keying, context: int, f: Focus, key: Id)
    requires FocusOk(before, after, k, context, f)
    ensures key in f.added <==> key != 0 && !Occurs(before, k, key) && Occurs(after, k, key)
    ensures key in f.removed <==> key != 0 && Occurs(before, k, key) && !Occurs(after, k, key)
    ensures Ascending(f.added) && Ascending(f.removed)
  {
    hide KeysById, FocusIds, KeptNodes, KeptEdges, KeyedEdges, ContextNodes, AddedIds;
    assert key in f.added <==> key in Elems(f.added);
    assert key in f.removed <==> key in Elems(f.removed);
  }

  ghost predicate Occurs(g: Graph, k: Keying, key: Id) { exists n :: n in g.nodes && k.Of(n) == key }

  // The context count is the number of places with a context node.
  lemma {:induction false} ContextCounted(ns: seq<FocusNode>)
    ensures |ContextNodes(ns)| == |set i | 0 <= i < |ns| && ns[i].mark == Context|
  {
    var here := set i | 0 <= i < |ns| && ns[i].mark == Context;
    if ns == [] {
      assert here == {};
    } else {
      var front, n := Unsnoc(ns);
      ContextCounted(front);
      var there := set i | 0 <= i < |front| && front[i].mark == Context;
      assert here == there + if n.mark == Context then {|front|} else {};
    }
  }
}
