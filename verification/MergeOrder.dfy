/** When the order in which three graphs are merged matters. */
module MergeOrder {
  import opened Text
  import G = GraphML
  import opened GraphStore
  import opened StoreRoundTrip
  import opened GraphMerge

  // A node that is added carries its kind, name and id as attributes; one that only fills
  // another hands over the attributes it has.

  lemma MirroredTwice(n: Node)
    ensures Mirrored(Mirrored(n)) == Mirrored(n)
  {
    assert Mirrored(Mirrored(n)).attrs == Mirrored(n).attrs;
  }

  lemma FilledMirrored(n: Node, extra: Attrs)
    ensures Mirrored(Filled(n, extra)) == Filled(Mirrored(n), extra)
  {
    var a := if n.kind != "" then n.attrs[G.KIND := n.kind] else n.attrs;
    var b := if n.name != "" then a[G.NAME := n.name] else a;
    SetAfter(extra, n.attrs, G.KIND, n.kind);
    SetAfter(extra, a, G.NAME, n.name);
    SetAfter(extra, b, G.ARCHMOTIF_ID, n.id);
  }

  lemma SetAfter(extra: Attrs, m: Attrs, k: string, v: string)
    ensures (extra + m)[k := v] == extra + m[k := v]
  {
  }

  lemma {:induction false} OnlyInAppend(xs: seq<Node>, ys: seq<Node>, ids: set<string>)
    ensures OnlyIn(xs + ys, ids) == OnlyIn(xs, ids) + OnlyIn(ys, ids)
  {
    hide Mirrored;
    if ys == [] {
      assert xs + ys == xs;
    } else {
      hide OnlyIn;
      var n := |ys| - 1;
      OnlyInAppend(xs, ys[..n], ids);
      assert ys == ys[..n] + [ys[n]] && xs + ys == xs + ys[..n] + [ys[n]];
      OnlyInSnoc(xs + ys[..n], ys[n], ids);
      OnlyInSnoc(ys[..n], ys[n], ids);
    }
  }

  lemma {:induction false} OnlyInTwice(ns: seq<Node>, ids: set<string>, more: set<string>)
    ensures OnlyIn(OnlyIn(ns, ids), more) == OnlyIn(ns, more + ids)
  {
    hide Mirrored;
    if ns != [] {
      var n := |ns| - 1;
      assert ns == ns[..n] + [ns[n]];
      OnlyInTwice(ns[..n], ids, more);
      OnlyInTwiceSnoc(ns[..n], ns[n], ids, more);
    }
  }

  lemma OnlyInTwiceSnoc(ns: seq<Node>, x: Node, ids: set<string>, more: set<string>)
    requires OnlyIn(OnlyIn(ns, ids), more) == OnlyIn(ns, more + ids)
    ensures OnlyIn(OnlyIn(ns + [x], ids), more) == OnlyIn(ns + [x], more + ids)
  {
    hide Mirrored, OnlyIn;
    MirroredHas(x);
    MirroredTwice(x);
    OnlyInSnoc(ns, x, ids);
    OnlyInSnoc(ns, x, more + ids);
    OnlyInSnoc(OnlyIn(ns, ids), Mirrored(x), more);
    if x.id in ids { assert OnlyIn(ns, ids) + [] == OnlyIn(ns, ids); }
  }

  lemma FilledAppend(xs: seq<Node>, ys: seq<Node>, cn: seq<Node>)
    ensures FilledAll(xs + ys, cn) == FilledAll(xs, cn) + FilledAll(ys, cn)
  {
  }

  lemma {:induction false} OnlyInFilled(bn: seq<Node>, cn: seq<Node>, ids: set<string>)
    ensures FilledAll(OnlyIn(bn, ids), cn) == OnlyIn(FilledAll(bn, cn), ids)
  {
    hide Mirrored, AttrsOf, Filled, OnlyIn;
    if bn == [] {
      NothingOnlyIn([], ids);
    } else {
      var n := |bn| - 1;
      var x, front := bn[n], bn[..n];
      var y := Filled(x, AttrsOf(cn, x.id));
      OnlyInFilled(front, cn, ids);
      FilledMirrored(x, AttrsOf(cn, x.id));
      MirroredHas(x);
      FilledHas(x, AttrsOf(cn, x.id));
      assert bn == front + [x];
      assert FilledAll(bn, cn) == FilledAll(front, cn) + [y];
      OnlyInSnoc(front, x, ids);
      OnlyInSnoc(FilledAll(front, cn), y, ids);
      FilledAppend(OnlyIn(front, ids), if x.id in ids then [] else [Mirrored(x)], cn);
      assert FilledAll([Mirrored(x)], cn) == [Filled(Mirrored(x), AttrsOf(cn, x.id))];
      assert FilledAll([], cn) == [];
    }
  }

  // What a merge holds under an id.
  lemma AttrsOfMerged(bn: seq<Node>, cn: seq<Node>, id: string)
    requires DistinctIds(bn) && DistinctIds(cn)
    ensures id in Ids(bn) ==> AttrsOf(MergedNodes(bn, cn), id) == AttrsOf(cn, id) + AttrsOf(bn, id)
    ensures id !in Ids(bn) && id !in Ids(cn) ==> AttrsOf(MergedNodes(bn, cn), id) == map[]
    ensures forall n :: n in cn && n.id == id && id !in Ids(bn) ==>
              AttrsOf(MergedNodes(bn, cn), id) == Mirrored(n).attrs
  {
    hide Mirrored, AttrsOf, OnlyIn, DistinctIds;
    var m := MergedNodes(bn, cn);
    MergedIds(bn, cn);
    MergedDistinct(bn, cn);
    if id in Ids(bn) {
      var i := IndexOf(bn, id);
      AttrsOfAt(bn, i);
      AttrsOfAt(m, i);
    } else {
      if id !in Ids(cn) { AttrsOfAbsent(m, id); }
      forall n | n in cn && n.id == id ensures AttrsOf(m, id) == Mirrored(n).attrs { AttrsOfNew(bn, cn, n); }
    }
  }

  lemma AttrsOfNew(bn: seq<Node>, cn: seq<Node>, n: Node)
    requires DistinctIds(MergedNodes(bn, cn)) && n in cn && n.id !in Ids(bn)
    ensures AttrsOf(MergedNodes(bn, cn), n.id) == Mirrored(n).attrs
  {
    hide Mirrored, AttrsOf, OnlyIn, DistinctIds;
    MirroredHas(n);
    OnlyInElems(cn, Ids(bn), Mirrored(n));
    var o := OnlyIn(cn, Ids(bn));
    var k :| 0 <= k < |o| && o[k] == Mirrored(n);
    assert MergedNodes(bn, cn)[|bn| + k] == Mirrored(n);
    AttrsOfAt(MergedNodes(bn, cn), |bn| + k);
  }

  // ---- The condition ----

  // Each node of an that only cn shares is filled alike by the node there and by that node
  // with its fields repeated as attributes.
  ghost predicate FillsAlike(an: seq<Node>, bn: seq<Node>, cn: seq<Node>) {
    forall m, n :: m in an && n in cn && m.id == n.id && m.id !in Ids(bn) ==>
      Filled(m, Mirrored(n).attrs) == Filled(m, n.attrs)
  }

  lemma FillOrder(m: Node, b: Attrs, c: Attrs)
    ensures Filled(Filled(m, b), c) == Filled(m, c + b)
  {
    assert c + (b + m.attrs) == (c + b) + m.attrs;
  }

  // One node of the first graph, filled by the second and then the third, or by their merge.
  lemma FilledEitherWay(m: Node, bn: seq<Node>, cn: seq<Node>)
    requires DistinctIds(bn) && DistinctIds(cn)
    ensures var l := Filled(Filled(m, AttrsOf(bn, m.id)), AttrsOf(cn, m.id));
      var r := Filled(m, AttrsOf(MergedNodes(bn, cn), m.id));
      && (m.id in Ids(bn) || m.id !in Ids(cn) ==> l == r)
      && (forall n :: n in cn && n.id == m.id && m.id !in Ids(bn) ==>
            l == Filled(m, n.attrs) && r == Filled(m, Mirrored(n).attrs))
  {
    hide Mirrored, AttrsOf, Filled, MergedNodes, DistinctIds;
    AttrsOfMerged(bn, cn, m.id);
    FillOrder(m, AttrsOf(bn, m.id), AttrsOf(cn, m.id));
    if m.id !in Ids(bn) {
      AttrsOfAbsent(bn, m.id);
      assert AttrsOf(cn, m.id) + map[] == AttrsOf(cn, m.id);
      if m.id !in Ids(cn) { AttrsOfAbsent(cn, m.id); }
      forall n | n in cn && n.id == m.id ensures AttrsOf(cn, m.id) == n.attrs {
        var j :| 0 <= j < |cn| && cn[j] == n;
        AttrsOfAt(cn, j);
      }
    }
  }

  lemma NodesAssociateIff(an: seq<Node>, bn: seq<Node>, cn: seq<Node>)
    requires DistinctIds(an) && DistinctIds(bn) && DistinctIds(cn)
    ensures MergedNodes(MergedNodes(an, bn), cn) == MergedNodes(an, MergedNodes(bn, cn)) <==> FillsAlike(an, bn, cn)
  {
    hide Mirrored, AttrsOf, OnlyIn, DistinctIds, Filled, FillsAlike;
    var l, r := FilledAll(FilledAll(an, bn), cn), FilledAll(an, MergedNodes(bn, cn));
    MergedSplits(an, bn, cn);
    FilledIffAlike(an, bn, cn);
    assert |l| == |r| == |an|;
    var rest := OnlyIn(FilledAll(bn, cn), Ids(an)) + OnlyIn(cn, Ids(an) + Ids(bn));
    assert (l + rest)[..|an|] == l && (r + rest)[..|an|] == r;
  }

  // Both orders end in the same added nodes.
  lemma MergedSplits(an: seq<Node>, bn: seq<Node>, cn: seq<Node>)
    ensures var rest := OnlyIn(FilledAll(bn, cn), Ids(an)) + OnlyIn(cn, Ids(an) + Ids(bn));
      && MergedNodes(MergedNodes(an, bn), cn) == FilledAll(FilledAll(an, bn), cn) + rest
      && MergedNodes(an, MergedNodes(bn, cn)) == FilledAll(an, MergedNodes(bn, cn)) + rest
  {
    hide Mirrored, AttrsOf, OnlyIn, Filled;
    var ids := Ids(an);
    MergedIds(an, bn);
    FilledAppend(FilledAll(an, bn), OnlyIn(bn, ids), cn);
    OnlyInFilled(bn, cn, ids);
    OnlyInAppend(FilledAll(bn, cn), OnlyIn(cn, Ids(bn)), ids);
    OnlyInTwice(cn, Ids(bn), ids);
  }

  lemma FilledIffAlike(an: seq<Node>, bn: seq<Node>, cn: seq<Node>)
    requires DistinctIds(bn) && DistinctIds(cn)
    ensures FilledAll(FilledAll(an, bn), cn) == FilledAll(an, MergedNodes(bn, cn)) <==> FillsAlike(an, bn, cn)
  {
    hide Mirrored, AttrsOf, OnlyIn, DistinctIds, MergedNodes, Filled;
    var l, r := FilledAll(FilledAll(an, bn), cn), FilledAll(an, MergedNodes(bn, cn));
    forall i | 0 <= i < |an|
      ensures l[i] == Filled(Filled(an[i], AttrsOf(bn, an[i].id)), AttrsOf(cn, an[i].id))
    {
      FilledHas(an[i], AttrsOf(bn, an[i].id));
    }
    if l == r {
      forall m, n | m in an && n in cn && m.id == n.id && m.id !in Ids(bn)
        ensures Filled(m, Mirrored(n).attrs) == Filled(m, n.attrs)
      {
        var i :| 0 <= i < |an| && an[i] == m;
        FilledEitherWay(m, bn, cn);
        assert l[i] == r[i];
      }
    }
    if FillsAlike(an, bn, cn) {
      forall i | 0 <= i < |an| ensures l[i] == r[i] {
        FilledEitherWay(an[i], bn, cn);
        if an[i].id !in Ids(bn) && an[i].id in Ids(cn) {
          var j := IndexOf(cn, an[i].id);
          assert an[i] in an && cn[j] in cn;
        }
      }
    }
  }

  lemma {:induction false} NewEdgesAppend(xs: seq<Edge>, ys: seq<Edge>, keys: set<string>)
    ensures NewEdges(xs + ys, keys) == NewEdges(xs, keys) + NewEdges(ys, keys + Keys(xs))
  {
    hide EdgeKey, MirroredEdge;
    if ys == [] {
      assert xs + ys == xs;
    } else {
      hide NewEdges;
      var n := |ys| - 1;
      assert ys == ys[..n] + [ys[n]] && xs + ys == xs + ys[..n] + [ys[n]];
      NewEdgesAppend(xs, ys[..n], keys);
      NewEdgesSnoc(xs + ys[..n], ys[n], keys);
      NewEdgesSnoc(ys[..n], ys[n], keys + Keys(xs));
      KeysAppend(xs, ys[..n]);
      assert keys + (Keys(xs) + Keys(ys[..n])) == keys + Keys(xs) + Keys(ys[..n]);
    }
  }

  lemma {:induction false} NewEdgesTwice(es: seq<Edge>, keys: set<string>, more: set<string>)
    ensures NewEdges(NewEdges(es, keys), more + keys) == NewEdges(es, more + keys)
  {
    hide EdgeKey, MirroredEdge;
    if es != [] {
      hide NewEdges;
      var n := |es| - 1;
      assert es == es[..n] + [es[n]];
      NewEdgesTwice(es[..n], keys, more);
      NewEdgesTwiceSnoc(es[..n], es[n], keys, more);
    }
  }

  lemma MirroredEdgeTwice(e: Edge)
    ensures MirroredEdge(MirroredEdge(e)) == MirroredEdge(e)
  {
    assert MirroredEdge(MirroredEdge(e)).attrs == MirroredEdge(e).attrs;
  }

  lemma NewEdgesTwiceSnoc(es: seq<Edge>, x: Edge, keys: set<string>, more: set<string>)
    requires NewEdges(NewEdges(es, keys), more + keys) == NewEdges(es, more + keys)
    ensures NewEdges(NewEdges(es + [x], keys), more + keys) == NewEdges(es + [x], more + keys)
  {
    hide EdgeKey, MirroredEdge, NewEdges;
    var front, k := NewEdges(es, keys), EdgeKey(x);
    NewEdgesSnoc(es, x, keys);
    NewEdgesSnoc(es, x, more + keys);
    if k in keys || k in Keys(es) {
      assert NewEdges(es + [x], keys) == front;
      assert k in more + keys + Keys(es);
    } else {
      MirroredEdgeTwice(x);
      KeyKept(x);
      NewEdgesSnoc(front, MirroredEdge(x), more + keys);
      NewEdgesKeys(es, keys);
      assert k in more + keys + Keys(front) <==> k in more;
      assert k in more + keys + Keys(es) <==> k in more;
    }
  }

  // Merging is associative exactly if the nodes fill alike. Edges never stand in the way.
  lemma MergeAssociatesIff(a: Value, b: Value, c: Value)
    requires DistinctIds(a.nodes) && DistinctIds(b.nodes) && DistinctIds(c.nodes)
    ensures Merged(Merged(a, b), c) == Merged(a, Merged(b, c)) <==> FillsAlike(a.nodes, b.nodes, c.nodes)
  {
    hide Mirrored, MirroredEdge, MergedNodes, NewEdges, EdgeKey, FillsAlike;
    NodesAssociateIff(a.nodes, b.nodes, c.nodes);
    var ka, kb := Keys(a.edges), Keys(b.edges);
    MergedKeys(a, b);
    NewEdgesAppend(b.edges, NewEdges(c.edges, kb), ka);
    NewEdgesTwice(c.edges, kb, ka);
  }

  // ---- For loaded graphs ----

  // With a loaded third graph the order matters exactly through names: for some node that
  // the first and third share and the second lacks, the third has no name of its own to
  // give and the first has no name attribute.
  lemma LoadedAssociatesIff(a: Value, b: Value, c: Value, doc: G.Doc)
    requires DistinctIds(a.nodes) && DistinctIds(b.nodes)
    requires Loaded(doc) == G.Ok(c) && WellNamed(c)
    ensures DistinctIds(c.nodes)
    ensures Merged(Merged(a, b), c) == Merged(a, Merged(b, c)) <==>
            forall m, n :: m in a.nodes && n in c.nodes && m.id == n.id && m.id !in Ids(b.nodes) ==>
              G.Get(n.attrs, G.NAME) != "" || G.NAME in m.attrs
  {
    hide WellNamed, Loaded, NodeMirrors, Mirrored, Filled, Merged;
    LoadedCanonicalIff(doc, c);
    MirrorsMeans(c);
    MergeAssociatesIff(a, b, c);
    forall m, n | m in a.nodes && n in c.nodes && m.id == n.id
      ensures Filled(m, Mirrored(n).attrs) == Filled(m, n.attrs) <==> G.Get(n.attrs, G.NAME) != "" || G.NAME in m.attrs
    {
      FillsAlikeIff(m, n);
    }
  }

  lemma FillsAlikeIff(m: Node, n: Node)
    requires NodeMirrors(n)
    ensures Filled(m, Mirrored(n).attrs) == Filled(m, n.attrs) <==> G.Get(n.attrs, G.NAME) != "" || G.NAME in m.attrs
  {
    var more := MirroredAttrs(n);
    var x, y := Filled(m, more).attrs, Filled(m, n.attrs).attrs;
    if G.Get(n.attrs, G.NAME) != "" {
      assert more == n.attrs;
    } else if G.NAME in m.attrs {
      assert x == y;
    } else {
      assert G.NAME in x && x[G.NAME] == n.name;
      assert G.NAME in y ==> y[G.NAME] == "";
    }
  }

  // A node that agrees with its attributes gains at most its name.
  lemma MirroredAttrs(n: Node) returns (more: Attrs)
    requires NodeMirrors(n)
    ensures more == Mirrored(n).attrs == n.attrs[G.NAME := n.name] && n.name != ""
    ensures G.Get(n.attrs, G.NAME) != "" ==> n.name == n.attrs[G.NAME]
  {
    hide Trimmed;
    var m := n.attrs;
    more := Mirrored(n).attrs;
    assert n.kind == G.Get(m, G.KIND) && n.name == DisplayName(m, n.id) && n.name != "";
    assert more == m[G.NAME := n.name];
  }

  // So a node without a name attribute can be merged in an order that shows.
  lemma NamelessMergeOrderMatters(n: Node)
    requires n.name != "" && G.NAME !in n.attrs
    ensures var a, none := Value(true, [n], []), Value(true, [], []);
            Merged(Merged(a, none), a) != Merged(a, Merged(none, a))
  {
    hide Merged, Mirrored, Filled;
    var a, none := Value(true, [n], []), Value(true, [], []);
    MergeAssociatesIff(a, none, a);
    assert n in a.nodes && n.id !in Ids(none.nodes);
    NameAppears(n);
  }

  lemma NameAppears(n: Node)
    requires n.name != "" && G.NAME !in n.attrs
    ensures Filled(n, Mirrored(n).attrs) != Filled(n, n.attrs)
  {
    assert G.NAME in Mirrored(n).attrs;
    assert G.NAME in Filled(n, Mirrored(n).attrs).attrs && G.NAME !in Filled(n, n.attrs).attrs;
  }
}
