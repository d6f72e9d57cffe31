/** The structural difference of two stored graphs, and what a merge looks like in it. */
module GraphDiff {
  import opened Order
  import opened Text
  import opened Wrappers
  import G = GraphML
  import opened GraphStore
  import opened StoreRoundTrip
  import opened GraphMerge

  datatype Change = Change(before: Option<string>, after: Option<string>)

  datatype NodeDiff = NodeDiff(id: string, kind: string, name: string, attrs: map<string, Change>)

  datatype EdgeDiff = EdgeDiff(src: string, dst: string, kind: string)

  datatype Diff = Diff(added: seq<NodeDiff>, removed: seq<NodeDiff>, changed: seq<NodeDiff>,
                       edgesAdded: seq<EdgeDiff>, edgesRemoved: seq<EdgeDiff>)

  const KIND_CHANGE := "__kind"
  const NAME_CHANGE := "__name"

  function At(m: Attrs, k: string): Option<string> { if k in m then Some(m[k]) else None }

  // ---- What a difference says ----

  // The attributes that differ, with both values.
  function AttrsDiff(a: Attrs, b: Attrs): map<string, Change> {
    map k | k in a.Keys + b.Keys && At(a, k) != At(b, k) :: Change(At(a, k), At(b, k))
  }

  // The id attribute aside, which mirrors the id.
  function ShownAttrs(a: Node, b: Node): map<string, Change> {
    AttrsDiff(a.attrs, b.attrs) - {G.ARCHMOTIF_ID}
  }

  predicate Differs(a: Node, b: Node) {
    a.kind != b.kind || a.name != b.name || ShownAttrs(a, b) != map[]
  }

  function ChangeOf(a: Node, b: Node): NodeDiff {
    var m := ShownAttrs(a, b);
    var m1 := if a.kind != b.kind then m[KIND_CHANGE := Change(Some(a.kind), Some(b.kind))] else m;
    var m2 := if a.name != b.name then m1[NAME_CHANGE := Change(Some(a.name), Some(b.name))] else m1;
    NodeDiff(a.id, b.kind, b.name, m2)
  }

  function Listed(n: Node): NodeDiff { NodeDiff(n.id, n.kind, n.name, map[]) }

  predicate DiffLe(a: NodeDiff, b: NodeDiff) { LexLe(a.id, b.id) }

  // Exactly the nodes of xs whose ids ys lacks, by id, each once.
  ghost predicate MissingNodes(xs: seq<Node>, ys: seq<Node>, out: seq<NodeDiff>) {
    && SortedBy(out, DiffLe) && (forall i, j :: 0 <= i < j < |out| ==> out[i].id != out[j].id)
    && (forall d :: d in out <==> exists n :: n in xs && n.id !in Ids(ys) && d == Listed(n))
  }

  // Exactly the shared nodes that differ.
  ghost predicate ChangedNodes(xs: seq<Node>, ys: seq<Node>, out: seq<NodeDiff>) {
    && SortedBy(out, DiffLe) && (forall i, j :: 0 <= i < j < |out| ==> out[i].id != out[j].id)
    && (forall d :: d in out <==>
          exists m, n :: m in xs && n in ys && m.id == n.id && Differs(m, n) && d == ChangeOf(m, n))
  }

  function DiffKey(d: EdgeDiff): string { d.src + ARROW + d.kind + ARROW + d.dst }

  function Shown(e: Edge): EdgeDiff { EdgeDiff(e.src, e.dst, e.kind) }

  predicate EndsLe(a: EdgeDiff, b: EdgeDiff) {
    if a.src != b.src then LexLe(a.src, b.src) else LexLe(a.dst, b.dst)
  }

  // No later edge has the key of e.
  ghost predicate LastOfKey(xs: seq<Edge>, e: Edge) {
    exists i :: 0 <= i < |xs| && xs[i] == e && forall j :: i < j < |xs| ==> EdgeKey(xs[j]) != EdgeKey(e)
  }

  // For each key that ys lacks the last edge of xs that has it, ordered by the ends only.
  ghost predicate MissingEdges(xs: seq<Edge>, ys: seq<Edge>, out: seq<EdgeDiff>) {
    SortedBy(out, EndsLe) && OnePerKey(xs, Keys(xs) - Keys(ys), out)
  }

  ghost predicate OnePerKey(xs: seq<Edge>, keys: set<string>, out: seq<EdgeDiff>) {
    && (forall i, j :: 0 <= i < j < |out| ==> DiffKey(out[i]) != DiffKey(out[j]))
    && (forall d :: d in out ==> DiffKey(d) in keys && exists e :: LastOfKey(xs, e) && d == Shown(e))
    && (forall k :: k in keys ==> exists i :: 0 <= i < |out| && DiffKey(out[i]) == k)
  }

  ghost predicate DiffOk(a: Value, b: Value, d: Diff) {
    && MissingNodes(b.nodes, a.nodes, d.added) && MissingNodes(a.nodes, b.nodes, d.removed)
    && ChangedNodes(a.nodes, b.nodes, d.changed)
    && MissingEdges(b.edges, a.edges, d.edgesAdded) && MissingEdges(a.edges, b.edges, d.edgesRemoved)
  }

  // ---- The computation ----

  lemma DiffPreorders()
    ensures TotalPreorder(DiffLe) && TotalPreorder(EndsLe)
  {
    hide LexLe;
    LexPreorder();
    forall a, b ensures EndsLe(a, b) || EndsLe(b, a) { LexTotal(a.src, b.src); LexTotal(a.dst, b.dst); }
    forall a, b, c | EndsLe(a, b) && EndsLe(b, c) ensures EndsLe(a, c) {
      G.LexStep(a.src, b.src, c.src);
      G.LexStep(a.dst, b.dst, c.dst);
    }
  }

  method CollectIds(ns: seq<Node>) returns (ids: set<string>)
    ensures ids == Ids(ns)
  {
    ids := {};
    for i := 0 to |ns|
      invariant ids == Ids(ns[..i])
    {
      IdsSnoc(ns[..i + 1]);
      assert ns[..i + 1][..i] == ns[..i];
      ids := ids + {ns[i].id};
    }
    assert ns[..|ns|] == ns;
  }

  ghost predicate MissingIn(xs: seq<Node>, ids: set<string>, d: NodeDiff) {
    exists n :: n in xs && n.id !in ids && d == Listed(n)
  }

  // The nodes of xs under other ids, each listed once.
  ghost predicate ListsMissing(xs: seq<Node>, ids: set<string>, list: seq<NodeDiff>) {
    && (forall j, k :: 0 <= j < k < |list| ==> list[j].id != list[k].id)
    && (forall d :: d in list ==> d.id in Ids(xs))
    && (forall d :: d in list <==> MissingIn(xs, ids, d))
  }

  lemma ListsMissingSnoc(xs: seq<Node>, i: nat, ids: set<string>, list: seq<NodeDiff>)
    requires DistinctIds(xs) && i < |xs| && ListsMissing(xs[..i], ids, list)
    ensures ListsMissing(xs[..i + 1], ids, if xs[i].id !in ids then list + [Listed(xs[i])] else list)
  {
    assert xs[..i + 1] == xs[..i] + [xs[i]];
    FreshId(xs, i);
    forall j | 0 <= j < |list| ensures list[j].id != xs[i].id { assert list[j] in list; }
  }

  method FindMissing(xs: seq<Node>, ys: seq<Node>) returns (out: seq<NodeDiff>)
    requires DistinctIds(xs)
    ensures MissingNodes(xs, ys, out)
  {
    hide LexLe, SortedBy, ListsMissing, DistinctIds;
    var ids := CollectIds(ys);
    var list: seq<NodeDiff> := [];
    NoneListed(ids);
    assert xs[..0] == [];
    for i := 0 to |xs|
      invariant ListsMissing(xs[..i], ids, list)
    {
      ListsMissingSnoc(xs, i, ids, list);
      if xs[i].id !in ids { list := list + [Listed(xs[i])]; }
    }
    assert xs[..|xs|] == xs;
    DiffPreorders();
    out := StableSort(list, DiffLe);
    SortMissing(xs, ys, list, out);
  }

  lemma NoneListed(ids: set<string>)
    ensures ListsMissing([], ids, [])
  {
  }

  lemma SortMissing(xs: seq<Node>, ys: seq<Node>, list: seq<NodeDiff>, out: seq<NodeDiff>)
    requires ListsMissing(xs, Ids(ys), list) && multiset(list) == multiset(out) && SortedBy(out, DiffLe)
    ensures MissingNodes(xs, ys, out)
  {
    hide LexLe, SortedBy, Listed;
    SortKeepsIds(list, out);
    forall d ensures MissingIn(xs, Ids(ys), d) <==> exists n :: n in xs && n.id !in Ids(ys) && d == Listed(n) { }
  }

  lemma FreshId(xs: seq<Node>, i: nat)
    requires DistinctIds(xs) && i < |xs|
    ensures xs[i].id !in Ids(xs[..i]) && Ids(xs[..i + 1]) == Ids(xs[..i]) + {xs[i].id}
  {
    forall n | n in xs[..i] ensures n.id != xs[i].id {
      var k :| 0 <= k < i && xs[k] == n;
    }
    IdsSnoc(xs[..i + 1]);
    assert xs[..i + 1][..i] == xs[..i];
  }

  lemma SortKeepsIds(list: seq<NodeDiff>, out: seq<NodeDiff>)
    requires multiset(list) == multiset(out) && forall j, k :: 0 <= j < k < |list| ==> list[j].id != list[k].id
    ensures forall d :: d in out <==> d in list
    ensures forall j, k :: 0 <= j < k < |out| ==> out[j].id != out[k].id
  {
    assert Distinct(list);
    SameElems(list, out);
    forall j, k | 0 <= j < k < |out| ensures out[j].id != out[k].id {
      assert out[j] in list && out[k] in list && out[j] != out[k];
      var a :| 0 <= a < |list| && list[a] == out[j];
      var b :| 0 <= b < |list| && list[b] == out[k];
    }
  }

  method IndexNodes(ns: seq<Node>) returns (byID: map<string, Node>)
    requires DistinctIds(ns)
    ensures byID.Keys == Ids(ns)
    ensures forall n :: n in ns ==> n.id in byID && byID[n.id] == n
  {
    byID := map[];
    for i := 0 to |ns|
      invariant byID.Keys == Ids(ns[..i])
      invariant forall k :: 0 <= k < i ==> ns[k].id in byID && byID[ns[k].id] == ns[k]
    {
      FreshId(ns, i);
      forall k | 0 <= k < i ensures ns[k].id != ns[i].id { assert ns[..i][k] in ns[..i]; }
      byID := byID[ns[i].id := ns[i]];
    }
    assert ns[..|ns|] == ns;
  }

  // The changes of the nodes of xs, each listed once.
  ghost predicate ListsChanged(xs: seq<Node>, byID: map<string, Node>, list: seq<NodeDiff>) {
    && (forall j, k :: 0 <= j < k < |list| ==> list[j].id != list[k].id)
    && (forall d :: d in list ==> d.id in Ids(xs))
    && (forall d :: d in list <==> ChangeIn(xs, byID, d))
  }

  lemma ListsChangedSnoc(xs: seq<Node>, i: nat, byID: map<string, Node>, list: seq<NodeDiff>)
    requires DistinctIds(xs) && i < |xs| && ListsChanged(xs[..i], byID, list)
    ensures var m := xs[i];
            ListsChanged(xs[..i + 1], byID,
                         if m.id in byID && Differs(m, byID[m.id]) then list + [ChangeOf(m, byID[m.id])] else list)
  {
    hide ChangeOf, Differs, ChangeIn, DistinctIds;
    var m := xs[i];
    assert xs[..i + 1] == xs[..i] + [m];
    FreshId(xs, i);
    forall j | 0 <= j < |list| ensures list[j].id != m.id { assert list[j] in list; }
    forall d { ChangeInSnoc(xs[..i], m, byID, d); }
    if m.id in byID { ChangeId(m, byID[m.id]); }
  }

  method FindChanged(xs: seq<Node>, ys: seq<Node>) returns (out: seq<NodeDiff>)
    requires DistinctIds(xs) && DistinctIds(ys)
    ensures ChangedNodes(xs, ys, out)
  {
    hide LexLe, SortedBy, ChangeOf, Differs, ListsChanged, DistinctIds, ChangedNodes;
    var byID := IndexNodes(ys);
    var list: seq<NodeDiff> := [];
    assert xs[..0] == [];
    NoneChanged(byID);
    for i := 0 to |xs|
      invariant ListsChanged(xs[..i], byID, list)
    {
      var m := xs[i];
      ListsChangedSnoc(xs, i, byID, list);
      if m.id in byID && Differs(m, byID[m.id]) {
        list := list + [ChangeOf(m, byID[m.id])];
      }
    }
    assert xs[..|xs|] == xs;
    DiffPreorders();
    out := StableSort(list, DiffLe);
    SortChanged(xs, ys, byID, list, out);
  }

  lemma NoneChanged(byID: map<string, Node>)
    ensures ListsChanged([], byID, [])
  {
  }

  lemma SortChanged(xs: seq<Node>, ys: seq<Node>, byID: map<string, Node>, list: seq<NodeDiff>, out: seq<NodeDiff>)
    requires byID.Keys == Ids(ys) && forall n :: n in ys ==> n.id in byID && byID[n.id] == n
    requires ListsChanged(xs, byID, list) && multiset(list) == multiset(out) && SortedBy(out, DiffLe)
    ensures ChangedNodes(xs, ys, out)
  {
    hide LexLe, SortedBy, ChangeOf, Differs, ChangeIn;
    SortKeepsIds(list, out);
    ChangedByIndex(xs, ys, byID, out);
  }

  ghost predicate ChangeIn(xs: seq<Node>, byID: map<string, Node>, d: NodeDiff) {
    exists m :: m in xs && m.id in byID && Differs(m, byID[m.id]) && d == ChangeOf(m, byID[m.id])
  }

  lemma ChangeInSnoc(xs: seq<Node>, m: Node, byID: map<string, Node>, d: NodeDiff)
    ensures ChangeIn(xs + [m], byID, d) <==>
            ChangeIn(xs, byID, d) || (m.id in byID && Differs(m, byID[m.id]) && d == ChangeOf(m, byID[m.id]))
  {
    hide ChangeOf, Differs;
    if ChangeIn(xs, byID, d) {
      var x :| x in xs && x.id in byID && Differs(x, byID[x.id]) && d == ChangeOf(x, byID[x.id]);
      assert x in xs + [m];
    }
    assert m in xs + [m];
  }

  lemma ChangeId(a: Node, b: Node)
    ensures ChangeOf(a, b).id == a.id
  {
  }

  lemma ChangedByIndex(xs: seq<Node>, ys: seq<Node>, byID: map<string, Node>, out: seq<NodeDiff>)
    requires byID.Keys == Ids(ys) && forall n :: n in ys ==> n.id in byID && byID[n.id] == n
    requires forall d :: d in out <==> ChangeIn(xs, byID, d)
    ensures forall d :: d in out <==>
              exists m, n :: m in xs && n in ys && m.id == n.id && Differs(m, n) && d == ChangeOf(m, n)
  {
    hide ChangeOf, Differs;
    forall m, n | m in xs && n in ys && m.id == n.id && Differs(m, n) ensures ChangeOf(m, n) in out {
      assert ChangeIn(xs, byID, ChangeOf(m, n));
    }
    forall d | d in out
      ensures exists m, n :: m in xs && n in ys && m.id == n.id && Differs(m, n) && d == ChangeOf(m, n)
    {
      var m :| m in xs && m.id in byID && Differs(m, byID[m.id]) && d == ChangeOf(m, byID[m.id]);
      var i := IndexOf(ys, m.id);
      assert byID[m.id] == ys[i] && ys[i] in ys;
    }
  }

  // For each key the last edge that has it.
  method IndexEdges(es: seq<Edge>) returns (byKey: map<string, Edge>)
    ensures byKey.Keys == Keys(es)
    ensures forall k :: k in byKey ==> LastOfKey(es, byKey[k]) && EdgeKey(byKey[k]) == k
  {
    hide EdgeKey, LastOfKey;
    byKey := map[];
    for i := 0 to |es|
      invariant byKey.Keys == Keys(es[..i])
      invariant forall k :: k in byKey ==> LastOfKey(es[..i], byKey[k]) && EdgeKey(byKey[k]) == k
    {
      KeysSnoc(es[..i + 1]);
      assert es[..i + 1][..i] == es[..i];
      assert es[..i + 1] == es[..i] + [es[i]];
      forall k | k in byKey ensures k != EdgeKey(es[i]) ==> LastOfKey(es[..i + 1], byKey[k]) {
        LastSnoc(es[..i], es[i], byKey[k]);
      }
      LastSnoc(es[..i], es[i], es[i]);
      byKey := byKey[EdgeKey(es[i]) := es[i]];
    }
    assert es[..|es|] == es;
  }

  lemma LastSnoc(es: seq<Edge>, x: Edge, e: Edge)
    ensures LastOfKey(es + [x], x)
    ensures LastOfKey(es, e) && EdgeKey(e) != EdgeKey(x) ==> LastOfKey(es + [x], e)
  {
    hide EdgeKey;
    var s := es + [x];
    assert s[|es|] == x;
    if LastOfKey(es, e) && EdgeKey(e) != EdgeKey(x) {
      var i :| 0 <= i < |es| && es[i] == e && forall j :: i < j < |es| ==> EdgeKey(es[j]) != EdgeKey(e);
      assert s[i] == e;
      forall j | i < j < |s| ensures EdgeKey(s[j]) != EdgeKey(e) { assert j < |es| ==> s[j] == es[j]; }
    }
  }

  lemma LastUnique(es: seq<Edge>, e: Edge, f: Edge)
    requires LastOfKey(es, e) && LastOfKey(es, f) && EdgeKey(e) == EdgeKey(f)
    ensures e == f && e in es
  {
    hide EdgeKey;
    var i :| 0 <= i < |es| && es[i] == e && forall j :: i < j < |es| ==> EdgeKey(es[j]) != EdgeKey(e);
    var k :| 0 <= k < |es| && es[k] == f && forall j :: k < j < |es| ==> EdgeKey(es[j]) != EdgeKey(f);
    assert !(i < k) && !(k < i);
  }

  // The keys come in any order, so edges with the same ends end up in any order.
  method FindMissingEdges(xs: seq<Edge>, ys: seq<Edge>) returns (out: seq<EdgeDiff>)
    ensures MissingEdges(xs, ys, out)
  {
    hide LexLe, SortedBy, EdgeKey, DiffKey, Shown, OnePerKey, Keys, LastOfKey;
    var mine := IndexEdges(xs);
    var theirs := IndexEdges(ys);
    var list: seq<EdgeDiff> := [];
    var todo := mine.Keys;
    ghost var found: set<string> := {};
    NoKeys(xs);
    while todo != {}
      invariant todo <= mine.Keys && OnePerKey(xs, found, list)
      invariant forall k :: k in found <==> k in mine.Keys && k !in todo && k !in theirs.Keys
      decreases |todo|
    {
      var k :| k in todo;
      todo := todo - {k};
      if k !in theirs {
        OneMoreKey(xs, found, list, mine[k]);
        list := list + [Shown(mine[k])];
        found := found + {k};
      }
    }
    assert found == Keys(xs) - Keys(ys);
    DiffPreorders();
    out := StableSort(list, EndsLe);
    SortKeepsKeys(xs, found, list, out);
  }

  lemma NoKeys(xs: seq<Edge>)
    ensures OnePerKey(xs, {}, [])
  {
  }

  lemma OneMoreKey(xs: seq<Edge>, keys: set<string>, list: seq<EdgeDiff>, e: Edge)
    requires OnePerKey(xs, keys, list) && LastOfKey(xs, e) && EdgeKey(e) !in keys
    ensures OnePerKey(xs, keys + {EdgeKey(e)}, list + [Shown(e)])
  {
    hide DiffKey, EdgeKey, Shown, LastOfKey;
    ShownKey(e);
    var d := Shown(e);
    forall x | x in keys + {EdgeKey(e)} ensures exists i :: 0 <= i < |list + [d]| && DiffKey((list + [d])[i]) == x {
      if x == EdgeKey(e) {
        assert (list + [d])[|list|] == d;
      } else {
        var i :| 0 <= i < |list| && DiffKey(list[i]) == x;
        assert (list + [d])[i] == list[i];
      }
    }
    forall i | 0 <= i < |list| ensures DiffKey(list[i]) in keys { assert list[i] in list; }
  }

  lemma ShownKey(e: Edge)
    ensures DiffKey(Shown(e)) == EdgeKey(e)
  {
  }

  lemma SortKeepsKeys(xs: seq<Edge>, keys: set<string>, list: seq<EdgeDiff>, out: seq<EdgeDiff>)
    requires multiset(list) == multiset(out) && OnePerKey(xs, keys, list)
    ensures OnePerKey(xs, keys, out)
  {
    hide DiffKey, Shown, LastOfKey;
    assert Distinct(list);
    SameElems(list, out);
    forall i, j | 0 <= i < j < |out| ensures DiffKey(out[i]) != DiffKey(out[j]) {
      assert out[i] in list && out[j] in list && out[i] != out[j];
      var a :| 0 <= a < |list| && list[a] == out[i];
      var b :| 0 <= b < |list| && list[b] == out[j];
    }
    forall k | k in keys ensures exists j :: 0 <= j < |out| && DiffKey(out[j]) == k {
      var i :| 0 <= i < |list| && DiffKey(list[i]) == k;
      assert list[i] in out;
      var j :| 0 <= j < |out| && out[j] == list[i];
    }
  }

  method DiffGraphs(a: Value, b: Value) returns (d: Diff)
    requires DistinctIds(a.nodes) && DistinctIds(b.nodes)
    ensures DiffOk(a, b, d)
  {
    hide MissingNodes, ChangedNodes, MissingEdges;
    var added := FindMissing(b.nodes, a.nodes);
    var removed := FindMissing(a.nodes, b.nodes);
    var changed := FindChanged(a.nodes, b.nodes);
    var edgesAdded := FindMissingEdges(b.edges, a.edges);
    var edgesRemoved := FindMissingEdges(a.edges, b.edges);
    d := Diff(added, removed, changed, edgesAdded, edgesRemoved);
  }

  // ---- Laws ----

  lemma NoneMissing(xs: seq<Node>, ys: seq<Node>, out: seq<NodeDiff>)
    requires MissingNodes(xs, ys, out)
    ensures out == [] <==> Ids(xs) <= Ids(ys)
  {
    assert out == [] || out[0] in out;
    if out == [] {
      forall x | x in Ids(xs) ensures x in Ids(ys) {
        var n :| n in xs && n.id == x;
        assert Listed(n) !in out;
      }
    }
  }

  lemma NoEdgeMissing(xs: seq<Edge>, ys: seq<Edge>, out: seq<EdgeDiff>)
    requires MissingEdges(xs, ys, out)
    ensures out == [] <==> Keys(xs) <= Keys(ys)
  {
    hide DiffKey;
    assert out == [] || out[0] in out;
    if out == [] {
      forall k | k in Keys(xs) ensures k in Keys(ys) {
        assert k in Keys(xs) - Keys(ys) || k in Keys(ys);
      }
    }
  }

  // The two graphs have the same ids, the same edge keys, and equal counterparts.
  ghost predicate SameShape(a: Value, b: Value) {
    && Ids(a.nodes) == Ids(b.nodes) && Keys(a.edges) == Keys(b.edges)
    && forall m, n :: m in a.nodes && n in b.nodes && m.id == n.id ==> !Differs(m, n)
  }

  // A difference is empty exactly if there is nothing to report.
  lemma EmptyDiffIff(a: Value, b: Value, d: Diff)
    requires DiffOk(a, b, d)
    ensures d == Diff([], [], [], [], []) <==> SameShape(a, b)
  {
    hide Differs, ChangeOf, MissingNodes, MissingEdges;
    NoneMissing(b.nodes, a.nodes, d.added);
    NoneMissing(a.nodes, b.nodes, d.removed);
    NoEdgeMissing(b.edges, a.edges, d.edgesAdded);
    NoEdgeMissing(a.edges, b.edges, d.edgesRemoved);
    if d.changed == [] {
      forall m, n | m in a.nodes && n in b.nodes && m.id == n.id ensures !Differs(m, n) {
        assert ChangeOf(m, n) !in d.changed;
      }
    } else {
      assert d.changed[0] in d.changed;
    }
  }

  // Swapping the graphs swaps what was added and what was removed; edges with the same
  // ends may change places.
  lemma DiffSwaps(a: Value, b: Value, d: Diff, e: Diff)
    requires DiffOk(a, b, d) && DiffOk(b, a, e)
    ensures d.added == e.removed && d.removed == e.added
    ensures Elems(d.edgesAdded) == Elems(e.edgesRemoved) && Elems(d.edgesRemoved) == Elems(e.edgesAdded)
  {
    hide MissingNodes, ChangedNodes, MissingEdges;
    MissingUnique(b.nodes, a.nodes, d.added, e.removed);
    MissingUnique(a.nodes, b.nodes, d.removed, e.added);
    SameMissingEdges(b.edges, a.edges, d.edgesAdded, e.edgesRemoved);
    SameMissingEdges(a.edges, b.edges, d.edgesRemoved, e.edgesAdded);
  }

  // What is shown is the last edge of each key that is missing.
  lemma MissingEdgesAre(xs: seq<Edge>, ys: seq<Edge>, out: seq<EdgeDiff>, d: EdgeDiff)
    requires MissingEdges(xs, ys, out)
    ensures d in out <==> exists e :: LastOfKey(xs, e) && EdgeKey(e) !in Keys(ys) && d == Shown(e)
  {
    hide EdgeKey, DiffKey, Shown, LastOfKey;
    if d in out {
      var e :| LastOfKey(xs, e) && d == Shown(e);
      ShownKey(e);
    }
    forall e | LastOfKey(xs, e) && EdgeKey(e) !in Keys(ys) && d == Shown(e) ensures d in out {
      LastUnique(xs, e, e);
      assert EdgeKey(e) in Keys(xs) - Keys(ys);
      var i :| 0 <= i < |out| && DiffKey(out[i]) == EdgeKey(e);
      assert out[i] in out;
      var f :| LastOfKey(xs, f) && out[i] == Shown(f);
      ShownKey(f);
      LastUnique(xs, e, f);
    }
  }

  lemma SameMissingEdges(xs: seq<Edge>, ys: seq<Edge>, out: seq<EdgeDiff>, out': seq<EdgeDiff>)
    requires MissingEdges(xs, ys, out) && MissingEdges(xs, ys, out')
    ensures Elems(out) == Elems(out')
  {
    hide MissingEdges, EdgeKey, LastOfKey;
    forall d ensures d in out <==> d in out' {
      MissingEdgesAre(xs, ys, out, d);
      MissingEdgesAre(xs, ys, out', d);
    }
  }

  lemma MissingUnique(xs: seq<Node>, ys: seq<Node>, out: seq<NodeDiff>, out': seq<NodeDiff>)
    requires MissingNodes(xs, ys, out) && MissingNodes(xs, ys, out')
    ensures out == out'
  {
    assert forall d :: d in out <==> d in out';
    DiffsStrict(out);
    DiffsStrict(out');
    SortedUnique(out, out', DiffLe);
  }

  lemma DiffsStrict(s: seq<NodeDiff>)
    requires forall i, j :: 0 <= i < j < |s| ==> s[i].id != s[j].id
    ensures Strict(s, DiffLe) && Distinct(s)
  {
    hide LexLe;
    forall x, y | x in s && y in s && DiffLe(x, y) && DiffLe(y, x) ensures x == y {
      LexAntisym(x.id, y.id);
      var i :| 0 <= i < |s| && s[i] == x;
      var j :| 0 <= j < |s| && s[j] == y;
      assert !(i < j) && !(j < i);
    }
  }

  // ---- What a reported change says ----

  // The nodes disagree on an attribute: one lacks it, or they have different values.
  predicate Disagree(m: Node, n: Node, k: string) {
    (k in m.attrs) != (k in n.attrs) || (k in m.attrs && k in n.attrs && m.attrs[k] != n.attrs[k])
  }

  lemma ShownIff(m: Node, n: Node, k: string)
    ensures k in ShownAttrs(m, n) <==> k != "archmotif_id" && Disagree(m, n, k)
    ensures k in ShownAttrs(m, n) ==>
              ShownAttrs(m, n)[k] == Change(if k in m.attrs then Some(m.attrs[k]) else None,
                                            if k in n.attrs then Some(n.attrs[k]) else None)
  {
  }

  // The entry for a node that was m and is n: it carries the new kind and name, says what
  // kind and name were if they changed, and lists the attributes on which the two disagree,
  // the id aside, each as it was and as it is.
  lemma ChangeSays(m: Node, n: Node, k: string)
    ensures var c := ChangeOf(m, n);
      && c.id == m.id && c.kind == n.kind && c.name == n.name
      && (m.kind != n.kind ==> "__kind" in c.attrs && c.attrs["__kind"] == Change(Some(m.kind), Some(n.kind)))
      && (m.name != n.name ==> "__name" in c.attrs && c.attrs["__name"] == Change(Some(m.name), Some(n.name)))
      && (k != "__kind" && k != "__name" ==>
            && (k in c.attrs <==> k != "archmotif_id" && Disagree(m, n, k))
            && (k in c.attrs ==> c.attrs[k] == Change(if k in m.attrs then Some(m.attrs[k]) else None,
                                                      if k in n.attrs then Some(n.attrs[k]) else None)))
  {
    hide ShownAttrs;
    ShownIff(m, n, k);
  }

  lemma DiffersIff(m: Node, n: Node)
    ensures Differs(m, n) <==>
            m.kind != n.kind || m.name != n.name || exists k :: k != "archmotif_id" && Disagree(m, n, k)
  {
    hide ShownAttrs, Disagree;
    forall k { ShownIff(m, n, k); }
    if ShownAttrs(m, n) != map[] {
      var some := ShownAttrs(m, n).Keys;
      assert some != {};
      var k := Pick(some);
    }
  }

  // A shared node is reported exactly if its kind, its name or an attribute other than the
  // id differs, once, with the entry described above.
  lemma ReportedIff(a: Value, b: Value, d: Diff, m: Node, n: Node)
    requires DiffOk(a, b, d) && DistinctIds(a.nodes) && DistinctIds(b.nodes)
    requires m in a.nodes && n in b.nodes && m.id == n.id
    ensures (exists c :: c in d.changed && c.id == m.id) <==>
            m.kind != n.kind || m.name != n.name || exists k :: k != "archmotif_id" && Disagree(m, n, k)
    ensures forall c :: c in d.changed && c.id == m.id ==> c == ChangeOf(m, n)
  {
    hide MissingNodes, MissingEdges, Differs, ChangeOf, Disagree;
    DiffersIff(m, n);
    if Differs(m, n) {
      ChangeId(m, n);
      assert ChangeOf(m, n) in d.changed;
    }
    forall c | c in d.changed && c.id == m.id ensures c == ChangeOf(m, n) && Differs(m, n) {
      var x, y :| x in a.nodes && y in b.nodes && x.id == y.id && Differs(x, y) && c == ChangeOf(x, y);
      ChangeId(x, y);
      OneOfId(a.nodes, x, m);
      OneOfId(b.nodes, y, n);
    }
  }

  lemma OneOfId(ns: seq<Node>, x: Node, y: Node)
    requires DistinctIds(ns) && x in ns && y in ns && x.id == y.id
    ensures x == y
  {
    var i :| 0 <= i < |ns| && ns[i] == x;
    var j :| 0 <= j < |ns| && ns[j] == y;
    assert !(i < j) && !(j < i);
  }

  // An added node is listed with its id, kind and name, exactly if the first graph lacks it.
  lemma AddedSays(a: Value, b: Value, d: Diff, c: NodeDiff)
    requires DiffOk(a, b, d)
    ensures c in d.added <==>
            && c.attrs == map[] && (forall m :: m in a.nodes ==> m.id != c.id)
            && exists n :: n in b.nodes && n.id == c.id && n.kind == c.kind && n.name == c.name
  {
    hide ChangedNodes, MissingEdges;
    forall n | n in b.nodes && n.id == c.id && n.kind == c.kind && n.name == c.name && c.attrs == map[]
      ensures c == Listed(n)
    {
    }
  }

  // The node lists ascend by id, the edge lists by source and then by destination.
  lemma ListsAscend(a: Value, b: Value, d: Diff)
    requires DiffOk(a, b, d)
    ensures forall ns: seq<NodeDiff>, i, j :: ns in {d.added, d.removed, d.changed} && 0 <= i < j < |ns| ==>
              LexLe(ns[i].id, ns[j].id)
    ensures forall es: seq<EdgeDiff>, i, j :: es in {d.edgesAdded, d.edgesRemoved} && 0 <= i < j < |es| ==>
              LexLe(es[i].src, es[j].src) && (es[i].src == es[j].src ==> LexLe(es[i].dst, es[j].dst))
  {
    hide LexLe, Listed, ChangeOf, Differs, OnePerKey;
    forall ns: seq<NodeDiff>, i, j | ns in {d.added, d.removed, d.changed} && 0 <= i < j < |ns|
      ensures LexLe(ns[i].id, ns[j].id)
    {
      assert DiffLe(ns[i], ns[j]);
    }
    forall es: seq<EdgeDiff>, i, j | es in {d.edgesAdded, d.edgesRemoved} && 0 <= i < j < |es|
      ensures LexLe(es[i].src, es[j].src) && (es[i].src == es[j].src ==> LexLe(es[i].dst, es[j].dst))
    {
      assert EndsLe(es[i], es[j]);
      LexTotal(es[i].src, es[i].src);
    }
  }

  // Swapping the graphs swaps what each attribute was and is.
  lemma ChangeSwaps(m: Node, n: Node, k: string)
    requires m.id == n.id && k != "__kind" && k != "__name"
    ensures k in ChangeOf(m, n).attrs <==> k in ChangeOf(n, m).attrs
    ensures k in ChangeOf(m, n).attrs ==>
              ChangeOf(n, m).attrs[k] == Change(ChangeOf(m, n).attrs[k].after, ChangeOf(m, n).attrs[k].before)
  {
    hide ChangeOf;
    ChangeSays(m, n, k);
    ChangeSays(n, m, k);
  }

  // An edge is listed exactly if an edge of the one graph has these ends and this kind, the
  // other graph has none with its key, and it is the last with its key.
  lemma EdgesListed(xs: seq<Edge>, ys: seq<Edge>, out: seq<EdgeDiff>, d: EdgeDiff)
    requires MissingEdges(xs, ys, out)
    ensures d in out <==>
            exists i :: && 0 <= i < |xs| && xs[i].src == d.src && xs[i].dst == d.dst && xs[i].kind == d.kind
                        && (forall f :: f in ys ==> EdgeKey(f) != EdgeKey(xs[i]))
                        && forall j :: i < j < |xs| ==> EdgeKey(xs[j]) != EdgeKey(xs[i])
  {
    hide EdgeKey, EndsLe, SortedBy;
    if d in out {
      var e :| LastOfKey(xs, e) && d == Shown(e);
      ShownKey(e);
      var i :| 0 <= i < |xs| && xs[i] == e && forall j :: i < j < |xs| ==> EdgeKey(xs[j]) != EdgeKey(e);
      assert EdgeKey(e) !in Keys(ys);
    }
    if i :| && 0 <= i < |xs| && xs[i].src == d.src && xs[i].dst == d.dst && xs[i].kind == d.kind
            && (forall f :: f in ys ==> EdgeKey(f) != EdgeKey(xs[i]))
            && forall j :: i < j < |xs| ==> EdgeKey(xs[j]) != EdgeKey(xs[i])
    {
      var e := xs[i];
      assert LastOfKey(xs, e) && e in xs;
      assert EdgeKey(e) in Keys(xs) - Keys(ys);
      var k :| 0 <= k < |out| && DiffKey(out[k]) == EdgeKey(e);
      assert out[k] in out;
      var f :| LastOfKey(xs, f) && out[k] == Shown(f);
      ShownKey(f);
      LastUnique(xs, e, f);
    }
  }
}
