/** Merging one stored graph into another. */
module GraphMerge {
  import G = GraphML
  import opened GraphStore
  import opened StoreRoundTrip

  // The separator of an edge key.
  const ARROW := "\U{2192}"

  // What edges are matched on.
  function EdgeKey(e: Edge): string { e.src + ARROW + e.kind + ARROW + e.dst }

  ghost function Keys(es: seq<Edge>): set<string> { set e | e in es :: EdgeKey(e) }

  // ---- The union ----

  // The attributes under an id, none if the id does not occur.
  ghost function AttrsOf(ns: seq<Node>, id: string): Attrs {
    if ns == [] then map[]
    else
      var n := |ns| - 1;
      if ns[n].id == id then ns[n].attrs else AttrsOf(ns[..n], id)
  }

  // Missing attributes are filled in; those present win.
  ghost function Filled(n: Node, extra: Attrs): Node { n.(attrs := extra + n.attrs) }

  ghost function FilledAll(an: seq<Node>, bn: seq<Node>): (r: seq<Node>)
    ensures |r| == |an| && forall i :: 0 <= i < |an| ==> r[i] == Filled(an[i], AttrsOf(bn, an[i].id))
  {
    seq(|an|, i requires 0 <= i < |an| => Filled(an[i], AttrsOf(bn, an[i].id)))
  }

  // The nodes of bn under other ids, as they are added.
  ghost function OnlyIn(bn: seq<Node>, ids: set<string>): seq<Node> {
    if bn == [] then []
    else
      var n := |bn| - 1;
      OnlyIn(bn[..n], ids) + (if bn[n].id in ids then [] else [Mirrored(bn[n])])
  }

  // The edges of be under new keys, the first of each key.
  ghost function NewEdges(be: seq<Edge>, keys: set<string>): seq<Edge> {
    if be == [] then []
    else
      var n := |be| - 1;
      NewEdges(be[..n], keys)
      + (if EdgeKey(be[n]) in keys + Keys(be[..n]) then [] else [MirroredEdge(be[n])])
  }

  ghost function MergedNodes(an: seq<Node>, bn: seq<Node>): seq<Node> {
    FilledAll(an, bn) + OnlyIn(bn, Ids(an))
  }

  ghost function Merged(a: Value, b: Value): Value {
    Value(a.directed, MergedNodes(a.nodes, b.nodes), a.edges + NewEdges(b.edges, Keys(a.edges)))
  }

  // ---- The merge in place ----

  datatype MergeResult =
    | UnknownStrategy(strategy: string)
    | Unreadable(error: G.Error)
    | Conflicts(ids: seq<string>)
    | Refused(outcome: Outcome)
    | Combined(doc: G.Doc, nodesAdded: nat, edgesAdded: nat)

  // The ids of bn that are taken, in order.
  ghost function Common(bn: seq<Node>, ids: set<string>): seq<string> {
    if bn == [] then []
    else
      var n := |bn| - 1;
      Common(bn[..n], ids) + (if bn[n].id in ids then [bn[n].id] else [])
  }

  // An empty id cannot be added.
  ghost predicate Nameless(an: seq<Node>, bn: seq<Node>) { "" in Ids(bn) && "" !in Ids(an) }

  // Fills m in from extra; the keys come in any order.
  method FillMissing(m: Attrs, extra: Attrs) returns (out: Attrs)
    ensures out == extra + m
  {
    out := m;
    var todo := extra.Keys;
    while todo != {}
      invariant todo <= extra.Keys && out.Keys == m.Keys + (extra.Keys - todo)
      invariant forall k :: k in out ==> out[k] == if k in m then m[k] else extra[k]
      decreases |todo|
    {
      var k :| k in todo;
      if k !in out { out := out[k := extra[k]]; }
      todo := todo - {k};
    }
  }

  lemma IndexedIds(ns: seq<Node>, byID: map<string, nat>)
    requires IndexOk(ns, byID)
    ensures byID.Keys == Ids(ns) && DistinctIds(ns)
  {
    forall x | x in byID ensures x in Ids(ns) { assert ns[byID[x]] in ns; }
    forall x | x in Ids(ns) ensures x in byID {
      var n :| n in ns && n.id == x;
      var i :| 0 <= i < |ns| && ns[i] == n;
    }
  }

  // One more node of bn merged, as an equation on lists.
  lemma MergeStep(an: seq<Node>, bn: seq<Node>, i: nat)
    requires DistinctIds(an) && DistinctIds(bn) && i < |bn|
    ensures forall j :: 0 <= j < |an| && an[j].id == bn[i].id ==>
              MergedNodes(an, bn[..i + 1]) ==
              MergedNodes(an, bn[..i])[j := Filled(MergedNodes(an, bn[..i])[j], bn[i].attrs)]
    ensures bn[i].id !in Ids(an) ==> MergedNodes(an, bn[..i + 1]) == MergedNodes(an, bn[..i]) + [Mirrored(bn[i])]
    ensures bn[i].id !in Ids(bn[..i])
  {
    hide Mirrored;
    var b := bn[i];
    assert bn[..i + 1] == bn[..i] + [b];
    OnlyInSnoc(bn[..i], b, Ids(an));
    forall j | 0 <= j < |an|
      ensures AttrsOf(bn[..i + 1], an[j].id) == if an[j].id == b.id then b.attrs else AttrsOf(bn[..i], an[j].id)
    {
      assert bn[..i + 1][..i] == bn[..i];
    }
    forall n | n in bn[..i] ensures n.id != b.id {
      var k :| 0 <= k < i && bn[k] == n;
    }
    AttrsOfAbsent(bn[..i], b.id);
    forall j | 0 <= j < |an| && an[j].id == b.id
      ensures MergedNodes(an, bn[..i + 1]) ==
              MergedNodes(an, bn[..i])[j := Filled(MergedNodes(an, bn[..i])[j], b.attrs)]
    {
      assert an[j] in an;
      NothingFilled(an[j], map[]);
      assert MergedNodes(an, bn[..i])[j] == an[j];
      assert FilledAll(an, bn[..i + 1]) == FilledAll(an, bn[..i])[j := Filled(an[j], b.attrs)];
    }
    if b.id !in Ids(an) {
      forall j | 0 <= j < |an| ensures an[j].id != b.id { assert an[j] in an; }
      assert FilledAll(an, bn[..i + 1]) == FilledAll(an, bn[..i]);
    }
  }

  lemma TakenAt(an: seq<Node>, bn: seq<Node>, i: nat, byID: map<string, nat>)
    requires DistinctIds(an) && DistinctIds(bn) && i < |bn| && IndexOk(MergedNodes(an, bn[..i]), byID)
    ensures bn[i].id in byID <==> bn[i].id in Ids(an)
    ensures bn[i].id in byID ==> byID[bn[i].id] < |an| && an[byID[bn[i].id]].id == bn[i].id
  {
    hide OnlyIn;
    MergeStep(an, bn, i);
    IndexedIds(MergedNodes(an, bn[..i]), byID);
    MergedIds(an, bn[..i]);
    if bn[i].id in byID {
      var j := IndexOf(an, bn[i].id);
      assert MergedNodes(an, bn[..i])[j].id == bn[i].id;
    }
  }

  method MergeNodes(a: Graph, bn: seq<Node>) returns (out: Outcome, added: nat)
    requires a.Valid() && DistinctIds(bn)
    modifies a`nodes, a`byID
    ensures a.Valid()
    ensures out == if Nameless(old(a.nodes), bn) then IdRequired else Done
    ensures out.Done? ==> a.nodes == MergedNodes(old(a.nodes), bn) && added == |OnlyIn(bn, Ids(old(a.nodes)))|
  {
    hide MergedNodes, OnlyIn, Mirrored, Nameless, Filled;
    ghost var an := a.nodes;
    IndexedIds(an, a.byID);
    MergeNone(an);
    added := 0;
    assert bn[..0] == [];
    for i := 0 to |bn|
      invariant a.Valid() && a.nodes == MergedNodes(an, bn[..i]) && !Nameless(an, bn[..i])
      invariant added == |OnlyIn(bn[..i], Ids(an))|
    {
      var n := bn[i];
      assert bn[..i + 1] == bn[..i] + [n];
      MergeStep(an, bn, i);
      TakenAt(an, bn, i, a.byID);
      OnlyInSnoc(bn[..i], n, Ids(an));
      NamelessMore(an, bn, i);
      if n.id in a.byID {
        var idx := a.byID[n.id];
        var attrs := FillMissing(a.nodes[idx].attrs, n.attrs);
        FilledIs(a.nodes[idx], n.attrs);
        a.nodes := a.nodes[idx := a.nodes[idx].(attrs := attrs)];
      } else {
        var res := a.AddNode(n);
        if !res.Done? { return res, added; }
        added := added + 1;
      }
    }
    assert bn[..|bn|] == bn;
    out := Done;
  }

  lemma FilledIs(n: Node, extra: Attrs)
    ensures Filled(n, extra) == n.(attrs := extra + n.attrs)
  {
  }

  lemma MergeNone(an: seq<Node>)
    ensures MergedNodes(an, []) == an && OnlyIn([], Ids(an)) == [] && !Nameless(an, [])
  {
    forall i | 0 <= i < |an| ensures Filled(an[i], map[]) == an[i] { NothingFilled(an[i], map[]); }
    assert FilledAll(an, []) == an;
  }

  lemma NamelessMore(an: seq<Node>, bn: seq<Node>, i: nat)
    requires i < |bn|
    ensures bn[i].id == "" && bn[i].id !in Ids(an) ==> Nameless(an, bn)
    ensures Nameless(an, bn[..i + 1]) <==> Nameless(an, bn[..i]) || (bn[i].id == "" && bn[i].id !in Ids(an))
  {
    assert bn[i] in bn;
    assert bn[..i + 1] == bn[..i] + [bn[i]];
    IdsSnoc(bn[..i + 1]);
  }

  method MergeEdges(a: Graph, be: seq<Edge>) returns (added: nat)
    requires a.Valid() && Attached(be, a.byID.Keys)
    modifies a`edges
    ensures a.edges == old(a.edges) + NewEdges(be, Keys(old(a.edges)))
    ensures added == |NewEdges(be, Keys(old(a.edges)))|
  {
    hide NewEdges, EdgeKey, MirroredEdge;
    ghost var ae := a.edges;
    var existing := CollectKeys(a.edges);
    added := 0;
    NewEdgesNone(Keys(ae));
    assert be[..0] == [];
    for i := 0 to |be|
      invariant a.edges == ae + NewEdges(be[..i], Keys(ae)) && added == |NewEdges(be[..i], Keys(ae))|
      invariant existing == Keys(ae) + Keys(be[..i])
    {
      var e := be[i];
      assert be[..i + 1] == be[..i] + [e];
      NewEdgesSnoc(be[..i], e, Keys(ae));
      KeysSnoc(be[..i + 1]);
      assert be[..i + 1][..i] == be[..i];
      var k := EdgeKey(e);
      if k in existing { continue; }
      var out := a.AddEdge(e);
      existing := existing + {k};
      added := added + 1;
    }
    assert be[..|be|] == be;
  }

  lemma NewEdgesNone(keys: set<string>)
    ensures NewEdges([], keys) == [] && Keys([]) == {}
  {
  }

  method CollectKeys(es: seq<Edge>) returns (keys: set<string>)
    ensures keys == Keys(es)
  {
    keys := {};
    for i := 0 to |es|
      invariant keys == Keys(es[..i])
    {
      KeysSnoc(es[..i + 1]);
      assert es[..i + 1][..i] == es[..i];
      keys := keys + {EdgeKey(es[i])};
    }
    assert es[..|es|] == es;
  }

  method FindConflicts(a: Graph, bn: seq<Node>) returns (ids: seq<string>)
    requires a.Valid()
    ensures ids == Common(bn, Ids(a.nodes))
  {
    IndexedIds(a.nodes, a.byID);
    ids := [];
    for i := 0 to |bn|
      invariant ids == Common(bn[..i], Ids(a.nodes))
    {
      assert bn[..i + 1][..i] == bn[..i];
      if bn[i].id in a.byID { ids := ids + [bn[i].id]; }
    }
    assert bn[..|bn|] == bn;
  }

  ghost predicate MergeOk(a: Value, b: Value, strict: bool, res: MergeResult) {
    if strict && Common(b.nodes, Ids(a.nodes)) != [] then res == Conflicts(Common(b.nodes, Ids(a.nodes)))
    else if Nameless(a.nodes, b.nodes) then res == Refused(IdRequired)
    else
      && Written(Merged(a, b)).Saved?
      && res == Combined(Written(Merged(a, b)).doc, |OnlyIn(b.nodes, Ids(a.nodes))|, |NewEdges(b.edges, Keys(a.edges))|)
  }

  const UNION := "union"
  const STRICT := "strict"

  predicate KnownStrategy(s: string) { s == "" || s == "union" || s == "strict" }

  // Loads both, merges the second into the first, and writes the result. No strategy at
  // all means union; an unknown one is refused before anything is loaded.
  method MergeGraphs(docA: G.Doc, docB: G.Doc, strategy: string) returns (res: MergeResult)
    ensures !KnownStrategy(strategy) ==> res == UnknownStrategy(strategy)
    ensures KnownStrategy(strategy) && Loaded(docA).Err? ==> res == Unreadable(Loaded(docA).error)
    ensures KnownStrategy(strategy) && Loaded(docA).Ok? && Loaded(docB).Err? ==> res == Unreadable(Loaded(docB).error)
    ensures KnownStrategy(strategy) && Loaded(docA).Ok? && Loaded(docB).Ok? ==>
              MergeOk(Loaded(docA).value, Loaded(docB).value, strategy == "strict", res)
  {
    var chosen := if strategy == "" then UNION else strategy;
    if chosen != UNION && chosen != STRICT { return UnknownStrategy(strategy); }
    res := MergeFiles(docA, docB, chosen == STRICT);
  }

  method MergeFiles(docA: G.Doc, docB: G.Doc, strict: bool) returns (res: MergeResult)
    ensures Loaded(docA).Err? ==> res == Unreadable(Loaded(docA).error)
    ensures Loaded(docA).Ok? && Loaded(docB).Err? ==> res == Unreadable(Loaded(docB).error)
    ensures Loaded(docA).Ok? && Loaded(docB).Ok? ==> MergeOk(Loaded(docA).value, Loaded(docB).value, strict, res)
  {
    hide Loaded, Written, Common, Merged, MergedNodes, NewEdges, OnlyIn, Nameless;
    var la := Load(docA);
    if la.Err? { return Unreadable(la.error); }
    var lb := Load(docB);
    if lb.Err? { return Unreadable(lb.error); }
    var a, b := la.value, lb.value;
    ghost var va, vb := a.Contents(), b.Contents();
    IndexedIds(a.nodes, a.byID);
    IndexedIds(b.nodes, b.byID);
    if strict {
      var conflicts := FindConflicts(a, b.nodes);
      if conflicts != [] { return Conflicts(conflicts); }
    }
    var out, nodesAdded := MergeNodes(a, b.nodes);
    if !out.Done? { return Refused(out); }
    IndexedIds(a.nodes, a.byID);
    MergedIds(va.nodes, vb.nodes);
    LoadedAttached(docA, va);
    LoadedAttached(docB, vb);
    var edgesAdded := MergeEdges(a, b.edges);
    MergedIs(va, vb);
    MergedIsWritable(va, vb);
    var saved := a.WriteGraphML();
    res := Combined(saved.doc, nodesAdded, edgesAdded);
  }

  lemma MergedIs(a: Value, b: Value)
    ensures Merged(a, b) == Value(a.directed, MergedNodes(a.nodes, b.nodes), a.edges + NewEdges(b.edges, Keys(a.edges)))
  {
  }

  lemma MergedIsWritable(a: Value, b: Value)
    requires DistinctIds(a.nodes) && DistinctIds(b.nodes)
    requires Attached(a.edges, Ids(a.nodes)) && Attached(b.edges, Ids(b.nodes))
    ensures Written(Merged(a, b)).Saved?
  {
    hide MergedNodes, NewEdges;
    MergedAttached(a, b);
    MergedDistinct(a.nodes, b.nodes);
    XmlIDsAt(Merged(a, b).nodes);
  }

  lemma LoadedAttached(doc: G.Doc, g: Value)
    requires Loaded(doc) == G.Ok(g)
    ensures Attached(g.edges, Ids(g.nodes))
  {
    hide Loaded, Ids;
    forall e | e in g.edges ensures e.src in Ids(g.nodes) && e.dst in Ids(g.nodes) {
      var el, p := EdgeSource(doc, g, e);
      LoadedEnds(p);
    }
  }

  // ---- Facts about the parts ----

  lemma IndexOf(ns: seq<Node>, id: string) returns (i: nat)
    requires id in Ids(ns)
    ensures i < |ns| && ns[i].id == id && ns[i] in ns
  {
    var n :| n in ns && n.id == id;
    i :| 0 <= i < |ns| && ns[i] == n;
  }

  lemma OnlyInSnoc(ns: seq<Node>, x: Node, ids: set<string>)
    ensures OnlyIn(ns + [x], ids) == OnlyIn(ns, ids) + (if x.id in ids then [] else [Mirrored(x)])
  {
    assert (ns + [x])[..|ns|] == ns;
  }

  lemma NewEdgesSnoc(es: seq<Edge>, x: Edge, keys: set<string>)
    ensures NewEdges(es + [x], keys) ==
            NewEdges(es, keys) + (if EdgeKey(x) in keys + Keys(es) then [] else [MirroredEdge(x)])
  {
    assert (es + [x])[..|es|] == es;
  }

  lemma MirroredEdgeIs(e: Edge)
    requires EdgeMirrors(e)
    ensures MirroredEdge(e) == e
  {
    if e.kind != "" { assert e.attrs[G.KIND := e.kind] == e.attrs; }
  }

  lemma {:induction false} AttrsOfAbsent(ns: seq<Node>, id: string)
    requires id !in Ids(ns)
    ensures AttrsOf(ns, id) == map[]
  {
    if ns != [] {
      IdsSnoc(ns);
      AttrsOfAbsent(ns[..|ns| - 1], id);
    }
  }

  lemma {:induction false} AttrsOfAt(ns: seq<Node>, i: nat)
    requires DistinctIds(ns) && i < |ns|
    ensures AttrsOf(ns, ns[i].id) == ns[i].attrs
  {
    var n := |ns| - 1;
    if i < n {
      assert ns[n].id != ns[i].id;
      AttrsOfAt(ns[..n], i);
    }
  }

  lemma {:induction false} OnlyInElems(bn: seq<Node>, ids: set<string>, x: Node)
    ensures x in OnlyIn(bn, ids) <==> exists n :: n in bn && n.id !in ids && x == Mirrored(n)
  {
    hide Mirrored;
    if bn != [] {
      var n := |bn| - 1;
      OnlyInElems(bn[..n], ids, x);
      assert bn == bn[..n] + [bn[n]];
    }
  }

  lemma IdsAppend(ns: seq<Node>, ms: seq<Node>)
    ensures Ids(ns + ms) == Ids(ns) + Ids(ms)
  {
  }

  lemma OnlyInIds(bn: seq<Node>, ids: set<string>)
    ensures Ids(OnlyIn(bn, ids)) == Ids(bn) - ids
  {
    forall x | x in Ids(OnlyIn(bn, ids)) ensures x in Ids(bn) - ids {
      var m :| m in OnlyIn(bn, ids) && m.id == x;
      OnlyInElems(bn, ids, m);
    }
    forall x | x in Ids(bn) - ids ensures x in Ids(OnlyIn(bn, ids)) {
      var n :| n in bn && n.id == x;
      OnlyInElems(bn, ids, Mirrored(n));
    }
  }

  lemma FilledIds(an: seq<Node>, bn: seq<Node>)
    ensures Ids(FilledAll(an, bn)) == Ids(an)
  {
    var f := FilledAll(an, bn);
    forall x | x in Ids(an) ensures x in Ids(f) {
      var n :| n in an && n.id == x;
      var i :| 0 <= i < |an| && an[i] == n;
      assert f[i] in f && f[i].id == x;
    }
    forall x | x in Ids(f) ensures x in Ids(an) {
      var n :| n in f && n.id == x;
      var i :| 0 <= i < |an| && f[i] == n;
      assert an[i] in an;
    }
  }

  // The ids of a merge are exactly those of the two graphs.
  lemma MergedIds(an: seq<Node>, bn: seq<Node>)
    ensures Ids(MergedNodes(an, bn)) == Ids(an) + Ids(bn)
  {
    FilledIds(an, bn);
    OnlyInIds(bn, Ids(an));
    IdsAppend(FilledAll(an, bn), OnlyIn(bn, Ids(an)));
  }

  lemma {:induction false} OnlyInDistinct(bn: seq<Node>, ids: set<string>)
    requires DistinctIds(bn)
    ensures DistinctIds(OnlyIn(bn, ids))
  {
    if bn != [] {
      var n := |bn| - 1;
      OnlyInDistinct(bn[..n], ids);
      OnlyInIds(bn[..n], ids);
      var front := OnlyIn(bn[..n], ids);
      forall i | 0 <= i < |front| ensures front[i].id != bn[n].id {
        assert front[i] in front && front[i].id in Ids(front);
        var m :| m in bn[..n] && m.id == front[i].id;
      }
    }
  }

  lemma MergedDistinct(an: seq<Node>, bn: seq<Node>)
    requires DistinctIds(an) && DistinctIds(bn)
    ensures DistinctIds(MergedNodes(an, bn))
  {
    OnlyInDistinct(bn, Ids(an));
    OnlyInIds(bn, Ids(an));
    var f, o := FilledAll(an, bn), OnlyIn(bn, Ids(an));
    forall i, j | 0 <= i < |an| && 0 <= j < |o| ensures f[i].id != o[j].id {
      assert an[i] in an && o[j] in o && o[j].id in Ids(o);
    }
  }

  lemma KeysSnoc(es: seq<Edge>)
    requires es != []
    ensures Keys(es) == Keys(es[..|es| - 1]) + {EdgeKey(es[|es| - 1])}
  {
    assert es == es[..|es| - 1] + [es[|es| - 1]];
  }

  ghost predicate DistinctKeys(es: seq<Edge>) { forall i, j :: 0 <= i < j < |es| ==> EdgeKey(es[i]) != EdgeKey(es[j]) }

  lemma DistinctKeysSnoc(es: seq<Edge>, x: Edge)
    requires DistinctKeys(es) && EdgeKey(x) !in Keys(es)
    ensures DistinctKeys(es + [x]) && Keys(es + [x]) == Keys(es) + {EdgeKey(x)}
  {
    hide EdgeKey;
    forall i | 0 <= i < |es| ensures EdgeKey(es[i]) in Keys(es) { assert es[i] in es; }
  }

  // The edges added have distinct keys, all of the second graph's and none of the first's.
  lemma {:induction false} NewEdgesKeys(be: seq<Edge>, keys: set<string>)
    ensures Keys(NewEdges(be, keys)) == Keys(be) - keys && DistinctKeys(NewEdges(be, keys))
  {
    hide EdgeKey, MirroredEdge;
    if be != [] {
      hide DistinctKeys;
      var n := |be| - 1;
      var front, x := NewEdges(be[..n], keys), MirroredEdge(be[n]);
      NewEdgesKeys(be[..n], keys);
      KeysSnoc(be);
      KeyKept(be[n]);
      if EdgeKey(be[n]) !in keys + Keys(be[..n]) {
        DistinctKeysSnoc(front, x);
      } else {
        assert NewEdges(be, keys) == front;
      }
    }
  }

  lemma KeyKept(e: Edge)
    ensures EdgeKey(MirroredEdge(e)) == EdgeKey(e)
  {
  }

  lemma KeysAppend(es: seq<Edge>, fs: seq<Edge>)
    ensures Keys(es + fs) == Keys(es) + Keys(fs)
  {
  }

  lemma MergedKeys(a: Value, b: Value)
    ensures Keys(Merged(a, b).edges) == Keys(a.edges) + Keys(b.edges)
  {
    NewEdgesKeys(b.edges, Keys(a.edges));
    KeysAppend(a.edges, NewEdges(b.edges, Keys(a.edges)));
  }

  lemma {:induction false} NewEdgesFrom(be: seq<Edge>, keys: set<string>, x: Edge)
    requires x in NewEdges(be, keys)
    ensures exists e :: e in be && x == MirroredEdge(e)
  {
    hide MirroredEdge, EdgeKey;
    var n := |be| - 1;
    if x in NewEdges(be[..n], keys) {
      NewEdgesFrom(be[..n], keys, x);
      var e :| e in be[..n] && x == MirroredEdge(e);
      assert e in be;
    }
  }

  // No edge of a merge is loose.
  lemma MergedAttached(a: Value, b: Value)
    requires Attached(a.edges, Ids(a.nodes)) && Attached(b.edges, Ids(b.nodes))
    ensures Attached(Merged(a, b).edges, Ids(Merged(a, b).nodes))
  {
    hide MergedNodes;
    MergedIds(a.nodes, b.nodes);
    var added := NewEdges(b.edges, Keys(a.edges));
    forall x | x in added ensures x.src in Ids(b.nodes) && x.dst in Ids(b.nodes) {
      NewEdgesFrom(b.edges, Keys(a.edges), x);
    }
  }

  // ---- The laws ----

  // Before saving, every node of the first graph keeps its place, its fields and its
  // attributes; what it gains are attributes of its counterpart that it did not have.
  lemma DestinationWins(a: Value, b: Value, i: nat, k: string)
    requires DistinctIds(b.nodes) && i < |a.nodes|
    ensures i < |Merged(a, b).nodes|
    ensures var n, m := a.nodes[i], Merged(a, b).nodes[i];
      && m.id == n.id && m.kind == n.kind && m.name == n.name
      && (k in n.attrs ==> k in m.attrs && m.attrs[k] == n.attrs[k])
      && (k in m.attrs && k !in n.attrs ==>
            exists c :: c in b.nodes && c.id == n.id && k in c.attrs && c.attrs[k] == m.attrs[k])
      && (forall c :: c in b.nodes && c.id == n.id && k in c.attrs ==> k in m.attrs)
  {
    var n := a.nodes[i];
    if n.id in Ids(b.nodes) {
      var c :| c in b.nodes && c.id == n.id;
      var j :| 0 <= j < |b.nodes| && b.nodes[j] == c;
      AttrsOfAt(b.nodes, j);
      forall d | d in b.nodes && d.id == n.id ensures d == c {
        var l :| 0 <= l < |b.nodes| && b.nodes[l] == d;
      }
    } else {
      AttrsOfAbsent(b.nodes, n.id);
    }
  }

  // A graph that has every id, key and attribute of another is left alone by a merge.
  lemma NothingToMerge(m: Value, b: Value)
    requires Ids(b.nodes) <= Ids(m.nodes) && Keys(b.edges) <= Keys(m.edges)
    requires forall n :: n in m.nodes ==> AttrsOf(b.nodes, n.id).Keys <= n.attrs.Keys
    ensures Merged(m, b) == m
  {
    hide AttrsOf, Filled, EdgeKey;
    NothingOnlyIn(b.nodes, Ids(m.nodes));
    NothingNew(b.edges, Keys(m.edges));
    forall i | 0 <= i < |m.nodes| ensures Filled(m.nodes[i], AttrsOf(b.nodes, m.nodes[i].id)) == m.nodes[i] {
      assert m.nodes[i] in m.nodes;
      NothingFilled(m.nodes[i], AttrsOf(b.nodes, m.nodes[i].id));
    }
    assert FilledAll(m.nodes, b.nodes) == m.nodes;
  }

  // Merging the same graph a second time, before saving, changes nothing.
  lemma MergeAgain(a: Value, b: Value)
    requires DistinctIds(a.nodes) && DistinctIds(b.nodes)
    ensures Merged(Merged(a, b), b) == Merged(a, b)
  {
    hide EdgeKey, Mirrored, MirroredEdge, AttrsOf;
    var m := Merged(a, b);
    MergedIds(a.nodes, b.nodes);
    MergedKeys(a, b);
    forall n | n in m.nodes ensures AttrsOf(b.nodes, n.id).Keys <= n.attrs.Keys {
      var i :| 0 <= i < |m.nodes| && m.nodes[i] == n;
      MergedHasAll(a, b, i);
    }
    NothingToMerge(m, b);
  }

  lemma NothingFilled(n: Node, extra: Attrs)
    requires extra.Keys <= n.attrs.Keys
    ensures Filled(n, extra) == n
  {
    assert extra + n.attrs == n.attrs;
  }

  lemma MergedHasAll(a: Value, b: Value, i: nat)
    requires DistinctIds(b.nodes) && i < |Merged(a, b).nodes|
    ensures var n := Merged(a, b).nodes[i]; AttrsOf(b.nodes, n.id).Keys <= n.attrs.Keys
  {
    hide Mirrored, Filled, NewEdges;
    if i >= |a.nodes| {
      var n := Merged(a, b).nodes[i];
      var o := OnlyIn(b.nodes, Ids(a.nodes));
      assert n == o[i - |a.nodes|];
      OnlyInElems(b.nodes, Ids(a.nodes), n);
      var c :| c in b.nodes && n == Mirrored(c);
      var j :| 0 <= j < |b.nodes| && b.nodes[j] == c;
      AttrsOfAt(b.nodes, j);
      MirroredHas(c);
    } else {
      FilledHas(a.nodes[i], AttrsOf(b.nodes, a.nodes[i].id));
    }
  }

  lemma MirroredHas(n: Node)
    ensures Mirrored(n).id == n.id && n.attrs.Keys <= Mirrored(n).attrs.Keys
  {
  }

  lemma FilledHas(n: Node, extra: Attrs)
    ensures Filled(n, extra).id == n.id && extra.Keys <= Filled(n, extra).attrs.Keys
  {
  }

  lemma {:induction false} NothingOnlyIn(bn: seq<Node>, ids: set<string>)
    requires Ids(bn) <= ids
    ensures OnlyIn(bn, ids) == []
  {
    if bn != [] {
      IdsSnoc(bn);
      NothingOnlyIn(bn[..|bn| - 1], ids);
    }
  }

  lemma {:induction false} NothingNew(be: seq<Edge>, keys: set<string>)
    requires Keys(be) <= keys
    ensures NewEdges(be, keys) == []
  {
    if be != [] {
      KeysSnoc(be);
      NothingNew(be[..|be| - 1], keys);
    }
  }

  // A graph merged into itself stays as it is.
  lemma MergeSelf(a: Value)
    requires DistinctIds(a.nodes)
    ensures Merged(a, a) == a
  {
    hide AttrsOf;
    forall n | n in a.nodes ensures AttrsOf(a.nodes, n.id).Keys <= n.attrs.Keys {
      var i :| 0 <= i < |a.nodes| && a.nodes[i] == n;
      AttrsOfAt(a.nodes, i);
    }
    NothingToMerge(a, a);
  }

  // ---- The strict strategy, and what is counted ----

  lemma {:induction false} CommonElems(bn: seq<Node>, ids: set<string>, x: string)
    ensures x in Common(bn, ids) <==> x in Ids(bn) && x in ids
  {
    if bn != [] {
      IdsSnoc(bn);
      CommonElems(bn[..|bn| - 1], ids, x);
    }
  }

  // Of any two listed ids the nodes come in the same order.
  ghost predicate ListedInOrder(out: seq<string>, bn: seq<Node>) {
    forall i, j :: 0 <= i < j < |out| ==> ComeInOrder(bn, out[i], out[j])
  }

  ghost predicate ComeInOrder(bn: seq<Node>, x: string, y: string) {
    exists k, l :: 0 <= k < l < |bn| && bn[k].id == x && bn[l].id == y
  }

  lemma {:induction false} CommonInOrder(bn: seq<Node>, ids: set<string>)
    ensures ListedInOrder(Common(bn, ids), bn)
  {
    hide ComeInOrder;
    if bn != [] {
      var n := |bn| - 1;
      CommonInOrder(bn[..n], ids);
      var front := Common(bn[..n], ids);
      forall x, y | ComeInOrder(bn[..n], x, y) ensures ComeInOrder(bn, x, y) { LaterToo(bn, n, x, y); }
      forall i | 0 <= i < |front| ensures ComeInOrder(bn, front[i], bn[n].id) {
        CommonElems(bn[..n], ids, front[i]);
        BeforeLastNode(bn, front[i]);
      }
    }
  }

  lemma LaterToo(bn: seq<Node>, n: nat, x: string, y: string)
    requires n <= |bn| && ComeInOrder(bn[..n], x, y)
    ensures ComeInOrder(bn, x, y)
  {
    var k, l :| 0 <= k < l < n && bn[..n][k].id == x && bn[..n][l].id == y;
    assert bn[k].id == x && bn[l].id == y;
  }

  lemma BeforeLastNode(bn: seq<Node>, x: string)
    requires bn != [] && x in Ids(bn[..|bn| - 1])
    ensures ComeInOrder(bn, x, bn[|bn| - 1].id)
  {
    var k := IndexOf(bn[..|bn| - 1], x);
    assert bn[k].id == x;
  }

  // A strict merge is refused exactly if the graphs share an id, and lists the shared ids,
  // in the order of the second graph, each once.
  lemma StrictIff(a: Value, b: Value, res: MergeResult)
    requires MergeOk(a, b, true, res) && DistinctIds(b.nodes)
    ensures res.Conflicts? <==> Ids(a.nodes) * Ids(b.nodes) != {}
    ensures res.Conflicts? ==> forall x :: x in res.ids <==> x in Ids(a.nodes) * Ids(b.nodes)
    ensures res.Conflicts? ==>
              ListedInOrder(res.ids, b.nodes) && forall i, j :: 0 <= i < j < |res.ids| ==> res.ids[i] != res.ids[j]
  {
    hide Common, Written, Merged, ListedInOrder, Nameless;
    var c := Common(b.nodes, Ids(a.nodes));
    forall x ensures x in c <==> x in Ids(a.nodes) * Ids(b.nodes) { CommonElems(b.nodes, Ids(a.nodes), x); }
    CommonInOrder(b.nodes, Ids(a.nodes));
    OrderDistinct(c, b.nodes);
    if c != [] { assert c[0] in c; }
  }

  lemma OrderDistinct(out: seq<string>, bn: seq<Node>)
    requires ListedInOrder(out, bn) && DistinctIds(bn)
    ensures forall i, j :: 0 <= i < j < |out| ==> out[i] != out[j]
  {
    forall i, j | 0 <= i < j < |out| ensures out[i] != out[j] { assert ComeInOrder(bn, out[i], out[j]); }
  }

  lemma {:induction false} AllOnlyIn(bn: seq<Node>, ids: set<string>)
    requires Ids(bn) !! ids
    ensures |OnlyIn(bn, ids)| == |bn| && forall i :: 0 <= i < |bn| ==> OnlyIn(bn, ids)[i] == Mirrored(bn[i])
  {
    hide Mirrored;
    if bn != [] {
      IdsSnoc(bn);
      AllOnlyIn(bn[..|bn| - 1], ids);
    }
  }

  // A strict merge that goes through leaves the first graph's nodes alone and adds all of
  // the second's, each with its kind, name and id among its attributes.
  lemma StrictMerges(a: Value, b: Value, res: MergeResult)
    requires MergeOk(a, b, true, res) && res.Combined?
    ensures res.nodesAdded == |b.nodes| && |Merged(a, b).nodes| == |a.nodes| + |b.nodes|
    ensures Merged(a, b).nodes[..|a.nodes|] == a.nodes
    ensures forall i :: 0 <= i < |b.nodes| ==> Merged(a, b).nodes[|a.nodes| + i] == Mirrored(b.nodes[i])
  {
    hide Written, Mirrored, AttrsOf, Filled, OnlyIn, NewEdges, Common;
    forall x | x in Ids(b.nodes) ensures x !in Ids(a.nodes) { CommonElems(b.nodes, Ids(a.nodes), x); }
    AllOnlyIn(b.nodes, Ids(a.nodes));
    forall i | 0 <= i < |a.nodes| ensures Filled(a.nodes[i], AttrsOf(b.nodes, a.nodes[i].id)) == a.nodes[i] {
      assert a.nodes[i] in a.nodes;
      AttrsOfAbsent(b.nodes, a.nodes[i].id);
      NothingFilled(a.nodes[i], map[]);
    }
    assert FilledAll(a.nodes, b.nodes) == a.nodes;
  }

  lemma {:induction false} CountIds(ns: seq<Node>)
    requires DistinctIds(ns)
    ensures |Ids(ns)| == |ns|
  {
    if ns != [] {
      var n := |ns| - 1;
      IdsSnoc(ns);
      CountIds(ns[..n]);
      forall m | m in ns[..n] ensures m.id != ns[n].id { var i :| 0 <= i < n && ns[i] == m; }
    }
  }

  lemma {:induction false} CountKeys(es: seq<Edge>)
    requires DistinctKeys(es)
    ensures |Keys(es)| == |es|
  {
    hide EdgeKey;
    if es != [] {
      var n := |es| - 1;
      KeysSnoc(es);
      CountKeys(es[..n]);
      forall e | e in es[..n] ensures EdgeKey(e) != EdgeKey(es[n]) { var i :| 0 <= i < n && es[i] == e; }
    }
  }

  // What is counted as added are the new ids and the new keys.
  lemma CountsAreExact(a: Value, b: Value, strict: bool, res: MergeResult)
    requires MergeOk(a, b, strict, res) && res.Combined? && DistinctIds(b.nodes)
    ensures res.nodesAdded == |Ids(b.nodes) - Ids(a.nodes)|
    ensures res.edgesAdded == |Keys(b.edges) - Keys(a.edges)|
  {
    hide Written, OnlyIn, NewEdges, Common, Merged;
    OnlyInDistinct(b.nodes, Ids(a.nodes));
    OnlyInIds(b.nodes, Ids(a.nodes));
    CountIds(OnlyIn(b.nodes, Ids(a.nodes)));
    NewEdgesKeys(b.edges, Keys(a.edges));
    CountKeys(NewEdges(b.edges, Keys(a.edges)));
  }
}
