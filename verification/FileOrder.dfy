/** When three files end up the same, whichever two are merged first. */
module FileOrder {
  import opened Order
  import opened Text
  import G = GraphML
  import opened GraphStore
  import opened StoreRoundTrip
  import opened GraphMerge
  import opened MergedFiles

  // ---- The edges under one key, in order ----

  ghost function WithKey(es: seq<Edge>, k: string): seq<Edge> {
    if es == [] then []
    else
      var n := |es| - 1;
      WithKey(es[..n], k) + (if EdgeKey(es[n]) == k then [es[n]] else [])
  }

  ghost function FirstOf(es: seq<Edge>): seq<Edge> { if es == [] then [] else [es[0]] }

  lemma WithKeySnoc(es: seq<Edge>, x: Edge, k: string)
    ensures WithKey(es + [x], k) == WithKey(es, k) + (if EdgeKey(x) == k then [x] else [])
  {
    assert (es + [x])[..|es|] == es;
  }

  lemma {:induction false} WithKeyAppend(xs: seq<Edge>, ys: seq<Edge>, k: string)
    ensures WithKey(xs + ys, k) == WithKey(xs, k) + WithKey(ys, k)
  {
    hide EdgeKey;
    if ys == [] {
      assert xs + ys == xs;
    } else {
      var n := |ys| - 1;
      WithKeyAppend(xs, ys[..n], k);
      assert xs + ys == (xs + ys[..n]) + [ys[n]];
      WithKeySnoc(xs + ys[..n], ys[n], k);
    }
  }

  lemma {:induction false} WithKeyElems(es: seq<Edge>, k: string, e: Edge)
    ensures e in WithKey(es, k) <==> e in es && EdgeKey(e) == k
  {
    hide EdgeKey;
    if es != [] {
      var n := |es| - 1;
      assert es == es[..n] + [es[n]];
      WithKeyElems(es[..n], k, e);
    }
  }

  lemma WithKeyNone(es: seq<Edge>, k: string)
    ensures WithKey(es, k) == [] <==> k !in Keys(es)
  {
    hide EdgeKey, WithKey;
    if WithKey(es, k) != [] {
      WithKeyElems(es, k, WithKey(es, k)[0]);
      assert WithKey(es, k)[0] in WithKey(es, k);
    }
    if k in Keys(es) {
      var e :| e in es && EdgeKey(e) == k;
      WithKeyElems(es, k, e);
    }
  }

  // Of edges that repeat their kind, a merge takes the first under each new key.
  lemma {:induction false} WithKeyNew(es: seq<Edge>, keys: set<string>, k: string)
    requires forall e :: e in es ==> MirroredEdge(e) == e
    ensures WithKey(NewEdges(es, keys), k) == if k in keys then [] else FirstOf(WithKey(es, k))
  {
    hide EdgeKey, MirroredEdge;
    if es != [] {
      hide WithKey, NewEdges;
      var n := |es| - 1;
      assert es == es[..n] + [es[n]];
      WithKeyNew(es[..n], keys, k);
      NewEdgesSnoc(es[..n], es[n], keys);
      WithKeySnoc(es[..n], es[n], k);
      WithKeySnoc(NewEdges(es[..n], keys), es[n], k);
      WithKeyNone(es[..n], k);
      if EdgeKey(es[n]) in keys + Keys(es[..n]) { assert NewEdges(es, keys) == NewEdges(es[..n], keys); }
    } else {
      WithKeyNone([], k);
    }
  }

  // ---- Sorting keeps what is in order ----

  lemma {:induction false} InsertOther(s: seq<Edge>, x: Edge, k: string)
    requires TotalPreorder(ByEnds) && SortedBy(s, ByEnds) && EdgeKey(x) != k
    ensures WithKey(InsertBy(s, x, ByEnds), k) == WithKey(s, k)
  {
    hide EdgeKey, ByEnds, WithKey, TotalPreorder, SortedBy;
    if |s| == 0 || ByEnds(s[|s| - 1], x) {
      WithKeySnoc(s, x, k);
    } else {
      var n := |s| - 1;
      assert s == s[..n] + [s[n]];
      SortedFront(s, n, ByEnds);
      InsertOther(s[..n], x, k);
      WithKeySnoc(s[..n], s[n], k);
      WithKeySnoc(InsertBy(s[..n], x, ByEnds), s[n], k);
    }
  }

  // An edge that is not below those of its key comes after them.
  lemma {:induction false} InsertLast(s: seq<Edge>, x: Edge)
    requires TotalPreorder(ByEnds) && SortedBy(s, ByEnds)
    requires forall y :: y in s && EdgeKey(y) == EdgeKey(x) ==> ByEnds(y, x)
    ensures WithKey(InsertBy(s, x, ByEnds), EdgeKey(x)) == WithKey(s, EdgeKey(x)) + [x]
  {
    hide EdgeKey, ByEnds, WithKey, TotalPreorder, SortedBy;
    if |s| == 0 || ByEnds(s[|s| - 1], x) {
      WithKeySnoc(s, x, EdgeKey(x));
    } else {
      var n := |s| - 1;
      assert s == s[..n] + [s[n]] && s[n] in s;
      SortedFront(s, n, ByEnds);
      InsertLast(s[..n], x);
      WithKeySnoc(s[..n], s[n], EdgeKey(x));
      WithKeySnoc(InsertBy(s[..n], x, ByEnds), s[n], EdgeKey(x));
    }
  }

  // Edges under one key that are in order stay in order.
  lemma {:induction false} SortKeeps(es: seq<Edge>, k: string)
    requires TotalPreorder(ByEnds) && SortedBy(WithKey(es, k), ByEnds)
    ensures WithKey(StableSort(es, ByEnds), k) == WithKey(es, k)
  {
    hide EdgeKey, ByEnds, TotalPreorder;
    if es != [] {
      hide WithKey;
      var n := |es| - 1;
      var front, x := es[..n], es[n];
      assert es == front + [x];
      WithKeySnoc(front, x, k);
      var w := WithKey(es, k);
      SortedFront(w, |WithKey(front, k)|, ByEnds);
      assert w[..|WithKey(front, k)|] == WithKey(front, k);
      SortKeeps(front, k);
      if EdgeKey(x) == k {
        LastOfKey(front, x);
        InsertLast(StableSort(front, ByEnds), x);
      } else {
        InsertOther(StableSort(front, ByEnds), x, k);
      }
    }
  }

  lemma LastOfKey(front: seq<Edge>, x: Edge)
    requires TotalPreorder(ByEnds) && SortedBy(WithKey(front, EdgeKey(x)) + [x], ByEnds)
    ensures forall y :: y in StableSort(front, ByEnds) && EdgeKey(y) == EdgeKey(x) ==> ByEnds(y, x)
  {
    hide EdgeKey, ByEnds, WithKey, TotalPreorder;
    SameElems(front, StableSort(front, ByEnds));
    var w := WithKey(front, EdgeKey(x));
    forall y | y in front && EdgeKey(y) == EdgeKey(x) ensures ByEnds(y, x) {
      WithKeyElems(front, EdgeKey(x), y);
      var i :| 0 <= i < |w| && w[i] == y;
      assert (w + [x])[i] == y && (w + [x])[|w|] == x;
    }
  }

  lemma {:induction false} WithKeySorted(es: seq<Edge>, k: string)
    requires SortedBy(es, ByEnds)
    ensures SortedBy(WithKey(es, k), ByEnds)
  {
    hide EdgeKey, ByEnds;
    if es != [] {
      hide WithKey;
      var n := |es| - 1;
      assert es == es[..n] + [es[n]];
      WithKeySorted(es[..n], k);
      WithKeySnoc(es[..n], es[n], k);
      var w := WithKey(es[..n], k);
      forall i | 0 <= i < |w| ensures ByEnds(w[i], es[n]) {
        assert w[i] in w;
        WithKeyElems(es[..n], k, w[i]);
        var j :| 0 <= j < n && es[j] == w[i];
      }
    }
  }

  // Sorted lists with the same edges under every key, in the same order, are equal.
  lemma {:induction false} SortedByKeys(s: seq<Edge>, t: seq<Edge>)
    requires SortedBy(s, ByEnds) && SortedBy(t, ByEnds) && forall k :: WithKey(s, k) == WithKey(t, k)
    ensures s == t
  {
    hide EdgeKey, ByEnds, WithKey;
    if s == [] || t == [] {
      NoneLeft(s, t);
    } else {
      var m, n := |s| - 1, |t| - 1;
      assert s == s[..m] + [s[m]] && t == t[..n] + [t[n]];
      LastsAgree(s, t);
      SortedFront(s, m, ByEnds);
      SortedFront(t, n, ByEnds);
      forall k ensures WithKey(s[..m], k) == WithKey(t[..n], k) {
        assert WithKey(s, k) == WithKey(t, k);
        WithKeySnoc(s[..m], s[m], k);
        WithKeySnoc(t[..n], t[n], k);
        FrontsEqual(WithKey(s[..m], k), WithKey(t[..n], k), s[m]);
      }
      SortedByKeys(s[..m], t[..n]);
    }
  }

  lemma FrontsEqual(a: seq<Edge>, b: seq<Edge>, x: Edge)
    ensures a + [x] == b + [x] ==> a == b
    ensures a + [] == a && b + [] == b
  {
    assert (a + [x])[..|a|] == a && (b + [x])[..|b|] == b;
  }

  lemma NoneLeft(s: seq<Edge>, t: seq<Edge>)
    requires (s == [] || t == []) && forall k :: WithKey(s, k) == WithKey(t, k)
    ensures s == t
  {
    hide EdgeKey, WithKey;
    if s != [] { SameMember(s, t, s[0]); }
    if t != [] { SameMember(s, t, t[0]); }
  }

  lemma SameMember(s: seq<Edge>, t: seq<Edge>, e: Edge)
    requires WithKey(s, EdgeKey(e)) == WithKey(t, EdgeKey(e))
    ensures e in s <==> e in t
  {
    hide EdgeKey, WithKey;
    WithKeyElems(s, EdgeKey(e), e);
    WithKeyElems(t, EdgeKey(e), e);
  }

  lemma LastsAgree(s: seq<Edge>, t: seq<Edge>)
    requires SortedBy(s, ByEnds) && SortedBy(t, ByEnds) && forall k :: WithKey(s, k) == WithKey(t, k)
    requires s != [] && t != []
    ensures s[|s| - 1] == t[|t| - 1]
  {
    hide EdgeKey, ByEnds, WithKey, SortedBy;
    var x, y := s[|s| - 1], t[|t| - 1];
    SameMember(s, t, x);
    SameMember(s, t, y);
    AtMostLast(s, y);
    AtMostLast(t, x);
    if x != y {
      EndsAntisym(x, y);
      LastWithKey(s);
      LastWithKey(t);
    }
  }

  lemma AtMostLast(s: seq<Edge>, e: Edge)
    requires SortedBy(s, ByEnds) && e in s
    ensures e == s[|s| - 1] || ByEnds(e, s[|s| - 1])
  {
    hide ByEnds;
    var i :| 0 <= i < |s| && s[i] == e;
  }

  lemma LastWithKey(s: seq<Edge>)
    requires s != []
    ensures var w := WithKey(s, EdgeKey(s[|s| - 1])); w != [] && w[|w| - 1] == s[|s| - 1]
  {
    hide EdgeKey, WithKey;
    var m := |s| - 1;
    assert s == s[..m] + [s[m]];
    WithKeySnoc(s[..m], s[m], EdgeKey(s[m]));
  }

  lemma EndsAntisym(x: Edge, y: Edge)
    requires ByEnds(x, y) && ByEnds(y, x)
    ensures EdgeKey(x) == EdgeKey(y)
  {
    hide LexLe;
    if x.src != y.src { LexAntisym(x.src, y.src); }
    if x.dst != y.dst { LexAntisym(x.dst, y.dst); }
    if x.kind != y.kind { LexAntisym(x.kind, y.kind); }
  }

  // ---- A merged file, key by key and id by id ----

  // Under a key of the first file come its edges, under another key the first of the second's.
  lemma FileEdges(docA: G.Doc, docB: G.Doc, a: Value, b: Value, r: Value, k: string)
    requires MergedFile(docA, docB, a, b, r)
    ensures WithKey(r.edges, k) == if k in Keys(a.edges) then WithKey(a.edges, k) else FirstOf(WithKey(b.edges, k))
  {
    hide MergedFile, WithKey, EdgeKey, WellNamed, SurvivesSave, MergedNodes, NewEdges, SortedBy, TotalPreorder;
    MergedFileIs(docA, docB, a, b, r);
    MirrorsMeans(b);
    forall e | e in b.edges ensures MirroredEdge(e) == e { MirroredEdgeIs(e); }
    var added := NewEdges(b.edges, Keys(a.edges));
    WithKeyAppend(a.edges, added, k);
    WithKeyNew(b.edges, Keys(a.edges), k);
    WithKeyNone(a.edges, k);
    WithKeySorted(a.edges, k);
    OneIsSorted(WithKey(b.edges, k));
    KeptInPlace(Merged(a, b), k);
  }

  lemma OneIsSorted(es: seq<Edge>)
    ensures SortedBy(FirstOf(es), ByEnds)
    ensures forall xs: seq<Edge> :: xs + [] == xs && [] + xs == xs
  {
  }

  lemma KeptInPlace(g: Value, k: string)
    requires SortedBy(WithKey(g.edges, k), ByEnds)
    ensures WithKey(Sorted(AllRefreshed(g)).edges, k) == WithKey(g.edges, k)
  {
    hide WithKey, ByEnds, TotalPreorder, SortedBy;
    Orders();
    SortKeeps(g.edges, k);
  }

  // The name under which a node is shown, by its attributes.
  function Named(m: Attrs, id: string): Attrs { m[G.NAME := DisplayName(m, id)] }

  lemma MirrorsAttrs(g: Value, n: Node)
    requires Canonical(g) && n in g.nodes
    ensures AttrsOf(g.nodes, n.id) == n.attrs && NodeMirrors(n)
  {
    hide NodeMirrors;
    MirrorsMeans(g);
    CounterpartAttrs(g, n);
  }

  lemma FileAttrs(docA: G.Doc, docB: G.Doc, a: Value, b: Value, r: Value, id: string)
    requires MergedFile(docA, docB, a, b, r)
    ensures Ids(r.nodes) == Ids(a.nodes) + Ids(b.nodes)
    ensures id in Ids(a.nodes) ==> AttrsOf(r.nodes, id) == AttrsOf(b.nodes, id) + AttrsOf(a.nodes, id)
    ensures id !in Ids(a.nodes) && id in Ids(b.nodes) ==> AttrsOf(r.nodes, id) == Named(AttrsOf(b.nodes, id), id)
    ensures id !in Ids(b.nodes) ==> AttrsOf(b.nodes, id) == map[]
  {
    hide MergedFile, AttrsOf, Canonical, WellNamed, SurvivesSave, Merged, Refreshed, Filled, NodeMirrors, DistinctIds;
    MergedFileIs(docA, docB, a, b, r);
    MergedFileIsUnion(docA, docB, a, b, r);
    if id !in Ids(b.nodes) { AttrsOfAbsent(b.nodes, id); }
    if id in Ids(a.nodes) {
      var i := IndexOf(a.nodes, id);
      var j := IndexOf(r.nodes, id);
      FilledInFile(docA, docB, a, b, r, a.nodes[i], r.nodes[j]);
      FilledAttrs(a.nodes[i], AttrsOf(b.nodes, id));
      MirrorsAttrs(a, a.nodes[i]);
      MirrorsAttrs(r, r.nodes[j]);
    } else if id in Ids(b.nodes) {
      var i := IndexOf(b.nodes, id);
      SourceNodeKept(docA, docB, a, b, r, b.nodes[i]);
      MirrorsAttrs(b, b.nodes[i]);
      MirrorsAttrs(r, b.nodes[i].(attrs := b.nodes[i].attrs[G.NAME := b.nodes[i].name]));
      ShownName(b.nodes[i]);
    }
  }

  lemma FilledAttrs(n: Node, extra: Attrs)
    ensures Refreshed(Filled(n, extra)).attrs == extra + n.attrs
  {
  }

  lemma ShownName(n: Node)
    requires NodeMirrors(n)
    ensures n.name == DisplayName(n.attrs, n.id)
  {
  }

  // Graphs in file order with the same ids, attributes and edges under each key are equal.
  lemma SameFile(s: Value, t: Value)
    requires Canonical(s) && Canonical(t) && s.directed == t.directed && Ids(s.nodes) == Ids(t.nodes)
    requires forall id :: id in Ids(s.nodes) ==> AttrsOf(s.nodes, id) == AttrsOf(t.nodes, id)
    requires forall k :: WithKey(s.edges, k) == WithKey(t.edges, k)
    ensures s == t
  {
    hide AttrsOf, WithKey, ByEnds, ByID;
    SortedByKeys(s.edges, t.edges);
    forall n | n in s.nodes ensures n in t.nodes { NodeElsewhere(s, t, n); }
    forall n | n in t.nodes ensures n in s.nodes { NodeElsewhere(t, s, n); }
    NodesStrict(s.nodes);
    NodesStrict(t.nodes);
    SortedUnique(s.nodes, t.nodes, ByID);
  }

  lemma NodeElsewhere(s: Value, t: Value, n: Node)
    requires Canonical(s) && Canonical(t) && n in s.nodes && n.id in Ids(t.nodes)
    requires AttrsOf(s.nodes, n.id) == AttrsOf(t.nodes, n.id)
    ensures n in t.nodes
  {
    hide AttrsOf, Canonical;
    var j := IndexOf(t.nodes, n.id);
    MirrorsAttrs(s, n);
    MirrorsAttrs(t, t.nodes[j]);
  }

  lemma NodesStrict(ns: seq<Node>)
    requires DistinctIds(ns)
    ensures Strict(ns, ByID) && Distinct(ns)
  {
    hide LexLe;
    forall x, y | x in ns && y in ns && ByID(x, y) && ByID(y, x) ensures x == y {
      LexAntisym(x.id, y.id);
      SameNode(ns, x, y);
    }
  }

  // ---- Three files ----

  // What one id ends up with, merging the first two files first or the last two.
  function LeftAttrs(inA: bool, inB: bool, a: Attrs, b: Attrs, c: Attrs, id: string): Attrs {
    if inA then c + (b + a) else if inB then c + Named(b, id) else Named(c, id)
  }

  function RightAttrs(inA: bool, inB: bool, inC: bool, a: Attrs, b: Attrs, c: Attrs, id: string): Attrs {
    var bc := if inB then c + b else if inC then Named(c, id) else map[];
    if inA then bc + a else Named(bc, id)
  }

  // The order shows in a node of the first and third file only, or of the second and third
  // only: in the one case as a name attribute, in the other as the name.
  lemma EitherWay(inA: bool, inB: bool, inC: bool, a: Attrs, b: Attrs, c: Attrs, id: string)
    requires id != "" && (!inB ==> b == map[]) && (!inC ==> c == map[]) && (inA || inB || inC)
    ensures LeftAttrs(inA, inB, a, b, c, id) == RightAttrs(inA, inB, inC, a, b, c, id) <==>
            && (inA && !inB && inC ==> G.Get(c, G.NAME) != "" || G.NAME in a)
            && (!inA && inB && inC ==> DisplayName(c + b, id) == DisplayName(b, id))
  {
    var l, r := LeftAttrs(inA, inB, a, b, c, id), RightAttrs(inA, inB, inC, a, b, c, id);
    if inA {
      if inB || !inC {
        assert l == r;
      } else {
        NamedFills(a, c, id);
        assert b + a == a;
      }
    } else if inB {
      NamedLater(b, c, id);
    } else {
      NamedTwice(c, id);
    }
  }

  lemma NamedFills(a: Attrs, c: Attrs, id: string)
    requires id != ""
    ensures c + a == Named(c, id) + a <==> G.Get(c, G.NAME) != "" || G.NAME in a
  {
    var l, r := c + a, Named(c, id) + a;
    if G.Get(c, G.NAME) != "" {
      assert Named(c, id) == c;
    } else if G.NAME in a {
      assert l == r;
    } else {
      assert G.NAME in r && r[G.NAME] != "";
      assert G.NAME in l ==> l[G.NAME] == "";
    }
  }

  lemma NamedLater(b: Attrs, c: Attrs, id: string)
    ensures c + Named(b, id) == Named(c + b, id) <==> DisplayName(c + b, id) == DisplayName(b, id)
  {
    var l, r := c + Named(b, id), Named(c + b, id);
    assert l[G.NAME] == DisplayName(b, id) && r[G.NAME] == DisplayName(c + b, id);
    assert (c + b)[G.NAME := DisplayName(b, id)] == l;
  }

  lemma NamedTwice(c: Attrs, id: string)
    requires id != ""
    ensures Named(Named(c, id), id) == Named(c, id)
  {
    assert DisplayName(Named(c, id), id) == DisplayName(c, id);
  }

  // Both ways of merging three files, up to the reloaded result.
  ghost predicate BothWays(docA: G.Doc, docB: G.Doc, docC: G.Doc, a: Value, b: Value, c: Value,
                           ab: Value, bc: Value, left: Value, right: Value) {
    && MergedFile(docA, docB, a, b, ab) && MergedFile(Written(Merged(a, b)).doc, docC, ab, c, left)
    && MergedFile(docB, docC, b, c, bc) && MergedFile(docA, Written(Merged(b, c)).doc, a, bc, right)
  }

  ghost predicate OrderHidden(a: Value, b: Value, c: Value) {
    && (forall m, n :: m in a.nodes && n in c.nodes && m.id == n.id && m.id !in Ids(b.nodes) ==>
          G.Get(n.attrs, G.NAME) != "" || G.NAME in m.attrs)
    && (forall m, n :: m in b.nodes && n in c.nodes && m.id == n.id && m.id !in Ids(a.nodes) ==>
          !NameGained(m, n.attrs))
  }

  lemma EdgesEitherWay(docA: G.Doc, docB: G.Doc, docC: G.Doc, a: Value, b: Value, c: Value,
                       ab: Value, bc: Value, left: Value, right: Value, k: string)
    requires BothWays(docA, docB, docC, a, b, c, ab, bc, left, right)
    ensures WithKey(left.edges, k) == WithKey(right.edges, k)
  {
    hide WithKey, Merged, Written, EdgeKey, Loaded, BothLoad;
    FileEdges(docA, docB, a, b, ab, k);
    FileEdges(Written(Merged(a, b)).doc, docC, ab, c, left, k);
    FileEdges(docB, docC, b, c, bc, k);
    FileEdges(docA, Written(Merged(b, c)).doc, a, bc, right, k);
    MergedFileIsUnion(docA, docB, a, b, ab);
    WithKeyNone(b.edges, k);
  }

  lemma AttrsEitherWay(docA: G.Doc, docB: G.Doc, docC: G.Doc, a: Value, b: Value, c: Value,
                       ab: Value, bc: Value, left: Value, right: Value, id: string)
    requires BothWays(docA, docB, docC, a, b, c, ab, bc, left, right)
    requires id in Ids(a.nodes) + Ids(b.nodes) + Ids(c.nodes)
    ensures var inA, inB, inC := id in Ids(a.nodes), id in Ids(b.nodes), id in Ids(c.nodes);
            var x, y, z := AttrsOf(a.nodes, id), AttrsOf(b.nodes, id), AttrsOf(c.nodes, id);
            && AttrsOf(left.nodes, id) == LeftAttrs(inA, inB, x, y, z, id)
            && AttrsOf(right.nodes, id) == RightAttrs(inA, inB, inC, x, y, z, id)
            && (!inB ==> y == map[]) && (!inC ==> z == map[])
  {
    hide AttrsOf, Merged, Written, Ids, Named, Loaded, BothLoad;
    FileAttrs(docA, docB, a, b, ab, id);
    FileAttrs(Written(Merged(a, b)).doc, docC, ab, c, left, id);
    FileAttrs(docB, docC, b, c, bc, id);
    FileAttrs(docA, Written(Merged(b, c)).doc, a, bc, right, id);
  }

  // The condition at one id, on the attributes.
  ghost predicate HiddenAt(a: Value, b: Value, c: Value, id: string) {
    var inA, inB, inC := id in Ids(a.nodes), id in Ids(b.nodes), id in Ids(c.nodes);
    var x, y, z := AttrsOf(a.nodes, id), AttrsOf(b.nodes, id), AttrsOf(c.nodes, id);
    && (inA && !inB && inC ==> G.Get(z, G.NAME) != "" || G.NAME in x)
    && (!inA && inB && inC ==> DisplayName(z + y, id) == DisplayName(y, id))
  }

  lemma NamesAgree(m: Node, extra: Attrs)
    requires NodeMirrors(m)
    ensures DisplayName(extra + m.attrs, m.id) == DisplayName(m.attrs, m.id) <==> !NameGained(m, extra)
  {
    hide DisplayName, NameGained, KindGained;
    RefreshedFilled(m, extra);
    ShownName(m);
  }

  lemma HiddenNodes(a: Value, b: Value, c: Value, id: string)
    requires Canonical(a) && Canonical(b) && Canonical(c)
    ensures OrderHidden(a, b, c) ==> HiddenAt(a, b, c, id)
  {
    hide Canonical, AttrsOf, DisplayName, NameGained;
    if OrderHidden(a, b, c) && id in Ids(c.nodes) {
      var k := IndexOf(c.nodes, id);
      MirrorsAttrs(c, c.nodes[k]);
      if id in Ids(a.nodes) {
        var i := IndexOf(a.nodes, id);
        MirrorsAttrs(a, a.nodes[i]);
      } else if id in Ids(b.nodes) {
        var j := IndexOf(b.nodes, id);
        MirrorsAttrs(b, b.nodes[j]);
        NamesAgree(b.nodes[j], c.nodes[k].attrs);
      }
    }
  }

  lemma NodesHidden(a: Value, b: Value, c: Value)
    requires Canonical(a) && Canonical(b) && Canonical(c) && forall id :: HiddenAt(a, b, c, id)
    ensures OrderHidden(a, b, c)
  {
    hide Canonical, AttrsOf, DisplayName, NameGained, NodeMirrors;
    forall m, n | m in a.nodes && n in c.nodes && m.id == n.id && m.id !in Ids(b.nodes)
      ensures G.Get(n.attrs, G.NAME) != "" || G.NAME in m.attrs
    {
      MirrorsAttrs(a, m);
      MirrorsAttrs(c, n);
      assert HiddenAt(a, b, c, m.id);
    }
    forall m, n | m in b.nodes && n in c.nodes && m.id == n.id && m.id !in Ids(a.nodes)
      ensures !NameGained(m, n.attrs)
    {
      MirrorsAttrs(b, m);
      MirrorsAttrs(c, n);
      NamesAgree(m, n.attrs);
      assert HiddenAt(a, b, c, m.id);
    }
  }

  lemma SameAtIff(docA: G.Doc, docB: G.Doc, docC: G.Doc, a: Value, b: Value, c: Value,
                  ab: Value, bc: Value, left: Value, right: Value, id: string)
    requires BothWays(docA, docB, docC, a, b, c, ab, bc, left, right) && WellNamed(left)
    requires id in Ids(left.nodes) && Ids(left.nodes) == Ids(a.nodes) + Ids(b.nodes) + Ids(c.nodes)
    ensures AttrsOf(left.nodes, id) == AttrsOf(right.nodes, id) <==> HiddenAt(a, b, c, id)
  {
    hide BothWays, AttrsOf, DisplayName, LeftAttrs, RightAttrs;
    var j := IndexOf(left.nodes, id);
    AttrsEitherWay(docA, docB, docC, a, b, c, ab, bc, left, right, id);
    EitherWay(id in Ids(a.nodes), id in Ids(b.nodes), id in Ids(c.nodes),
              AttrsOf(a.nodes, id), AttrsOf(b.nodes, id), AttrsOf(c.nodes, id), id);
  }

  lemma ResultsAre(docA: G.Doc, docB: G.Doc, docC: G.Doc, a: Value, b: Value, c: Value,
                   ab: Value, bc: Value, left: Value, right: Value)
    requires BothWays(docA, docB, docC, a, b, c, ab, bc, left, right)
    ensures Canonical(a) && Canonical(b) && Canonical(c) && Canonical(left) && Canonical(right) && WellNamed(left)
    ensures left.directed == right.directed
    ensures Ids(left.nodes) == Ids(right.nodes) == Ids(a.nodes) + Ids(b.nodes) + Ids(c.nodes)
  {
    hide Merged, Written, Loaded, BothLoad, Canonical, WellNamed, SurvivesSave, DistinctIds, Ids, Keys;
    MergedFileIs(docA, docB, a, b, ab);
    MergedFileIs(docB, docC, b, c, bc);
    MergedFileIs(Written(Merged(a, b)).doc, docC, ab, c, left);
    MergedFileIs(docA, Written(Merged(b, c)).doc, a, bc, right);
    MergedFileIsUnion(docA, docB, a, b, ab);
    MergedFileIsUnion(docB, docC, b, c, bc);
    MergedFileIsUnion(Written(Merged(a, b)).doc, docC, ab, c, left);
    MergedFileIsUnion(docA, Written(Merged(b, c)).doc, a, bc, right);
  }

  // Merging three files gives the same file either way exactly if no name shows the order:
  // each node of the first and third only has a name attribute on one side, and no node of
  // the second and third only gets another name from the third.
  lemma FilesAssociateIff(docA: G.Doc, docB: G.Doc, docC: G.Doc, a: Value, b: Value, c: Value,
                          ab: Value, bc: Value, left: Value, right: Value)
    requires BothWays(docA, docB, docC, a, b, c, ab, bc, left, right)
    ensures left == right <==> OrderHidden(a, b, c)
  {
    hide BothWays, Canonical, WellNamed, OrderHidden, HiddenAt, AttrsOf, WithKey, Ids;
    ResultsAre(docA, docB, docC, a, b, c, ab, bc, left, right);
    forall id | id in Ids(left.nodes)
      ensures AttrsOf(left.nodes, id) == AttrsOf(right.nodes, id) <==> HiddenAt(a, b, c, id)
    {
      SameAtIff(docA, docB, docC, a, b, c, ab, bc, left, right, id);
    }
    if left == right {
      forall id ensures HiddenAt(a, b, c, id) { HiddenElsewhere(a, b, c, id, Ids(left.nodes)); }
      NodesHidden(a, b, c);
    }
    if OrderHidden(a, b, c) {
      forall id ensures HiddenAt(a, b, c, id) { HiddenNodes(a, b, c, id); }
      forall k { EdgesEitherWay(docA, docB, docC, a, b, c, ab, bc, left, right, k); }
      SameFile(left, right);
    }
  }

  lemma HiddenElsewhere(a: Value, b: Value, c: Value, id: string, ids: set<string>)
    requires ids == Ids(a.nodes) + Ids(b.nodes) + Ids(c.nodes)
    ensures id !in ids ==> HiddenAt(a, b, c, id)
  {
    hide AttrsOf, DisplayName;
  }

  // Any three well-named files can be merged both ways.
  lemma BothWaysExist(docA: G.Doc, docB: G.Doc, docC: G.Doc, a: Value, b: Value, c: Value)
    returns (ab: Value, bc: Value, left: Value, right: Value)
    requires BothLoad(docA, docB, a, b) && BothLoad(docB, docC, b, c)
    ensures BothWays(docA, docB, docC, a, b, c, ab, bc, left, right)
  {
    hide Merged, Written, Loaded, Canonical, WellNamed, SurvivesSave, DistinctIds;
    ab := MergedFileLoads(docA, docB, a, b);
    bc := MergedFileLoads(docB, docC, b, c);
    MergedFileIs(docA, docB, a, b, ab);
    MergedFileIs(docB, docC, b, c, bc);
    left := MergedFileLoads(Written(Merged(a, b)).doc, docC, ab, c);
    right := MergedFileLoads(docA, Written(Merged(b, c)).doc, a, bc);
  }
}
