/** The refactoring operations on an editable graph, and their laws. */
module Rewrites {
  import opened Order
  import opened Walks

  type Attrs = map<string, string>

  datatype Node = Node(id: Id, caption: Id, kind: string, attrs: Attrs)

  datatype Dep = Dep(src: Id, dst: Id, kind: string, attrs: Attrs)

  datatype Outcome =
    | Done
    | NodeExists(id: Id)
    | NodeNotFound(id: Id)
    | NeedsBoth(src: Id, dst: Id)
    | EdgeNotFound(src: Id, dst: Id)

  const GROUP := "group"

  // ---- What the operations leave, as functions of the lists ----

  ghost predicate Has(ns: seq<Node>, id: Id) {
    exists i :: 0 <= i < |ns| && ns[i].id == id
  }

  // The index of the first node with this id, or the length of the list.
  ghost function FirstNode(ns: seq<Node>, id: Id): (i: nat)
    ensures i <= |ns| && (i < |ns| ==> ns[i].id == id) && forall k :: 0 <= k < i ==> ns[k].id != id
  {
    if ns == [] || ns[0].id == id then 0 else 1 + FirstNode(ns[1..], id)
  }

  // The index of the first edge between these ends, or the length of the list.
  ghost function FirstEdge(es: seq<Dep>, src: Id, dst: Id): (i: nat)
    ensures i <= |es| && (i < |es| ==> es[i].src == src && es[i].dst == dst)
    ensures forall k :: 0 <= k < i ==> !(es[k].src == src && es[k].dst == dst)
  {
    if es == [] || (es[0].src == src && es[0].dst == dst) then 0 else 1 + FirstEdge(es[1..], src, dst)
  }

  function Routed(e: Dep, newID: Id, target: Id): Dep {
    if e.dst == target && e.src != newID then e.(dst := newID) else e
  }

  ghost function Introduced(es: seq<Dep>, newID: Id, target: Id): (r: seq<Dep>)
    ensures |r| == |es| + 1
    ensures forall i :: 0 <= i < |es| ==> r[i] == Routed(es[i], newID, target)
    ensures r[|es|] == Dep(newID, target, "", map[])
  {
    seq(|es|, i requires 0 <= i < |es| => Routed(es[i], newID, target)) + [Dep(newID, target, "", map[])]
  }

  function Fold(x: Id, src: Id, dst: Id): Id { if x == src then dst else x }

  function Pointed(e: Dep, src: Id, dst: Id): Dep {
    e.(src := Fold(e.src, src, dst), dst := Fold(e.dst, src, dst))
  }

  ghost function Repointed(es: seq<Dep>, src: Id, dst: Id): (r: seq<Dep>)
    ensures |r| == |es| && forall i :: 0 <= i < |es| ==> r[i] == Pointed(es[i], src, dst)
  {
    seq(|es|, i requires 0 <= i < |es| => Pointed(es[i], src, dst))
  }

  ghost function Without(ns: seq<Node>, id: Id): seq<Node> {
    if ns == [] then []
    else
      var n := |ns| - 1;
      Without(ns[..n], id) + (if ns[n].id == id then [] else [ns[n]])
  }

  ghost function DropLoops(es: seq<Dep>): seq<Dep> {
    if es == [] then []
    else
      var n := |es| - 1;
      DropLoops(es[..n]) + (if es[n].src == es[n].dst then [] else [es[n]])
  }

  ghost function Merged(es: seq<Dep>, src: Id, dst: Id): seq<Dep> {
    DropLoops(Repointed(es, src, dst))
  }

  ghost function Redirected(es: seq<Dep>, src: Id, dst: Id, newSrc: Id, newDst: Id): seq<Dep>
    requires FirstEdge(es, src, dst) < |es|
  {
    var i := FirstEdge(es, src, dst);
    es[i := es[i].(src := newSrc, dst := newDst)]
  }

  // ---- The editable graph ----

  class Mutable {
    var nodes: seq<Node>
    var edges: seq<Dep>

    constructor (nodes: seq<Node>, edges: seq<Dep>)
      ensures this.nodes == nodes && this.edges == edges
    {
      this.nodes, this.edges := nodes, edges;
    }

    method HasNode(id: Id) returns (found: bool)
      ensures found <==> Has(nodes, id)
    {
      for i := 0 to |nodes|
        invariant forall k :: 0 <= k < i ==> nodes[k].id != id
      {
        if nodes[i].id == id { return true; }
      }
      return false;
    }

    // Moves a node to another group.
    method Move(id: Id, group: string) returns (out: Outcome)
      modifies this`nodes
      ensures out == if Has(old(nodes), id) then Done else NodeNotFound(id)
      ensures nodes == if Has(old(nodes), id)
              then (var i := FirstNode(old(nodes), id);
                    old(nodes)[i := old(nodes)[i].(attrs := old(nodes)[i].attrs[GROUP := group])])
              else old(nodes)
    {
      for i := 0 to |nodes|
        invariant nodes == old(nodes) && forall k :: 0 <= k < i ==> nodes[k].id != id
      {
        if nodes[i].id == id {
          nodes := nodes[i := nodes[i].(attrs := nodes[i].attrs[GROUP := group])];
          assert FirstNode(old(nodes), id) == i;
          return Done;
        }
      }
      return NodeNotFound(id);
    }

    // Changes the ends of the first edge from src to dst. The new ends are not looked up.
    method Redirect(src: Id, dst: Id, newSrc: Id, newDst: Id) returns (out: Outcome)
      modifies this`edges
      ensures out == if FirstEdge(old(edges), src, dst) < |old(edges)| then Done else EdgeNotFound(src, dst)
      ensures edges == if FirstEdge(old(edges), src, dst) < |old(edges)|
              then Redirected(old(edges), src, dst, newSrc, newDst) else old(edges)
    {
      for i := 0 to |edges|
        invariant edges == old(edges) && forall k :: 0 <= k < i ==> !(edges[k].src == src && edges[k].dst == dst)
      {
        if edges[i].src == src && edges[i].dst == dst {
          assert FirstEdge(edges, src, dst) == i;
          edges := edges[i := edges[i].(src := newSrc, dst := newDst)];
          return Done;
        }
      }
      return EdgeNotFound(src, dst);
    }

    method Reverse(src: Id, dst: Id) returns (out: Outcome)
      modifies this`edges
      ensures out == if FirstEdge(old(edges), src, dst) < |old(edges)| then Done else EdgeNotFound(src, dst)
      ensures edges == if FirstEdge(old(edges), src, dst) < |old(edges)|
              then Redirected(old(edges), src, dst, dst, src) else old(edges)
    {
      out := Redirect(src, dst, dst, src);
    }

    method RemoveEdge(src: Id, dst: Id) returns (out: Outcome)
      modifies this`edges
      ensures var i := FirstEdge(old(edges), src, dst);
        if i < |old(edges)| then out == Done && edges == old(edges)[..i] + old(edges)[i + 1..]
        else out == EdgeNotFound(src, dst) && edges == old(edges)
    {
      for i := 0 to |edges|
        invariant edges == old(edges) && forall k :: 0 <= k < i ==> !(edges[k].src == src && edges[k].dst == dst)
      {
        if edges[i].src == src && edges[i].dst == dst {
          assert FirstEdge(edges, src, dst) == i;
          edges := edges[..i] + edges[i + 1..];
          return Done;
        }
      }
      return EdgeNotFound(src, dst);
    }

    // Puts a new node between a target and everything that points to it.
    method Introduce(newID: Id, group: string, target: Id) returns (out: Outcome)
      modifies this
      ensures out == if Has(old(nodes), newID) then NodeExists(newID)
                     else if !Has(old(nodes), target) then NodeNotFound(target) else Done
      ensures nodes == if out.Done? then old(nodes) + [Node(newID, newID, "", map[GROUP := group])] else old(nodes)
      ensures edges == if out.Done? then Introduced(old(edges), newID, target) else old(edges)
    {
      var taken := HasNode(newID);
      if taken { return NodeExists(newID); }
      var found := HasNode(target);
      if !found { return NodeNotFound(target); }
      nodes := nodes + [Node(newID, newID, "", map[GROUP := group])];
      for i := 0 to |edges|
        invariant |edges| == |old(edges)|
        invariant nodes == old(nodes) + [Node(newID, newID, "", map[GROUP := group])]
        invariant forall k :: 0 <= k < i ==> edges[k] == Routed(old(edges)[k], newID, target)
        invariant forall k :: i <= k < |edges| ==> edges[k] == old(edges)[k]
      {
        if edges[i].dst == target && edges[i].src != newID {
          edges := edges[i := edges[i].(dst := newID)];
        }
      }
      edges := edges + [Dep(newID, target, "", map[])];
      assert edges == Introduced(old(edges), newID, target);
      return Done;
    }

    // Folds src into dst.
    method Merge(src: Id, dst: Id) returns (out: Outcome)
      modifies this
      ensures out == if Has(old(nodes), src) && Has(old(nodes), dst) then Done else NeedsBoth(src, dst)
      ensures nodes == if out.Done? then Without(old(nodes), src) else old(nodes)
      ensures edges == if out.Done? then Merged(old(edges), src, dst) else old(edges)
    {
      var hasSrc := HasNode(src);
      var hasDst := HasNode(dst);
      if !hasSrc || !hasDst { return NeedsBoth(src, dst); }
      for i := 0 to |edges|
        invariant |edges| == |old(edges)| && nodes == old(nodes)
        invariant forall k :: 0 <= k < i ==> edges[k] == Pointed(old(edges)[k], src, dst)
        invariant forall k :: i <= k < |edges| ==> edges[k] == old(edges)[k]
      {
        if edges[i].src == src { edges := edges[i := edges[i].(src := dst)]; }
        if edges[i].dst == src { edges := edges[i := edges[i].(dst := dst)]; }
      }
      assert edges == Repointed(old(edges), src, dst);
      DropNode(src);
      DedupSelfLoops();
      return Done;
    }

    method DropNode(id: Id)
      modifies this`nodes
      ensures nodes == Without(old(nodes), id)
    {
      var ns: seq<Node> := [];
      for i := 0 to |nodes|
        invariant ns == Without(nodes[..i], id)
      {
        assert nodes[..i + 1][..i] == nodes[..i];
        if nodes[i].id != id { ns := ns + [nodes[i]]; }
      }
      assert nodes[..|nodes|] == nodes;
      nodes := ns;
    }

    method DedupSelfLoops()
      modifies this`edges
      ensures edges == DropLoops(old(edges))
    {
      var es: seq<Dep> := [];
      for i := 0 to |edges|
        invariant es == DropLoops(edges[..i])
      {
        assert edges[..i + 1][..i] == edges[..i];
        if edges[i].src != edges[i].dst { es := es + [edges[i]]; }
      }
      assert edges[..|edges|] == edges;
      edges := es;
    }
  }

  // ---- The laws ----

  ghost function ArcsOf(es: seq<Dep>): Rel {
    set e | e in es :: Arc(e.src, e.dst)
  }

  // No edge dangles.
  ghost predicate Wired(ns: seq<Node>, es: seq<Dep>) {
    forall e :: e in es ==> Has(ns, e.src) && Has(ns, e.dst)
  }

  ghost predicate Touches(es: seq<Dep>, x: Id) {
    exists e :: e in es && (e.src == x || e.dst == x)
  }

  lemma FreshUntouched(ns: seq<Node>, es: seq<Dep>, x: Id)
    requires Wired(ns, es) && !Has(ns, x)
    ensures !Touches(es, x)
  {
  }

  lemma {:induction false} DropLoopsElems(es: seq<Dep>, e: Dep)
    ensures e in DropLoops(es) <==> e in es && e.src != e.dst
  {
    if es != [] {
      DropLoopsElems(es[..|es| - 1], e);
      assert es == es[..|es| - 1] + [es[|es| - 1]];
    }
  }

  lemma {:induction false} WithoutElems(ns: seq<Node>, id: Id, x: Node)
    ensures x in Without(ns, id) <==> x in ns && x.id != id
  {
    if ns != [] {
      WithoutElems(ns[..|ns| - 1], id, x);
      assert ns == ns[..|ns| - 1] + [ns[|ns| - 1]];
    }
  }

  // -- Introduce --

  // The arcs an introduction leaves.
  ghost function Detoured(r: Rel, n: Id, t: Id): Rel {
    (set a | a in r && a.dst != t) + (set a | a in r && a.dst == t :: Arc(a.src, n)) + {Arc(n, t)}
  }

  lemma IntroducedArcs(es: seq<Dep>, n: Id, t: Id)
    requires !Touches(es, n)
    ensures ArcsOf(Introduced(es, n, t)) == Detoured(ArcsOf(es), n, t)
  {
    var out := Introduced(es, n, t);
    var r := ArcsOf(es);
    forall a | a in ArcsOf(out) ensures a in Detoured(r, n, t) {
      var i :| 0 <= i < |out| && a == Arc(out[i].src, out[i].dst);
      if i < |es| { assert Arc(es[i].src, es[i].dst) in r; }
    }
    forall a | a in Detoured(r, n, t) ensures a in ArcsOf(out) {
      if a == Arc(n, t) {
        assert out[|es|] in out;
      } else {
        var b :| b in r && a == (if b.dst == t then Arc(b.src, n) else b);
        var i :| 0 <= i < |es| && b == Arc(es[i].src, es[i].dst);
        assert out[i] == Routed(es[i], n, t) && out[i] in out;
      }
    }
  }

  // The new node is the only predecessor of the target, along exactly one edge.
  lemma IntroducedGuardsTarget(es: seq<Dep>, n: Id, t: Id)
    requires !Touches(es, n) && n != t
    ensures forall i :: 0 <= i < |Introduced(es, n, t)| ==> (Introduced(es, n, t)[i].dst == t <==> i == |es|)
    ensures Introduced(es, n, t)[|es|].src == n
  {
    var out := Introduced(es, n, t);
    forall i | 0 <= i < |out| ensures out[i].dst == t <==> i == |es| {
      if i < |es| { assert es[i] in es; }
    }
  }

  // Old walks survive, by way of the new node.
  lemma DetourReach(r: Rel, n: Id, t: Id, a: Id, b: Id)
    requires Reach(r, a, b)
    ensures Reach(Detoured(r, n, t), a, b)
  {
    var d := Detoured(r, n, t);
    var p :| WalkFromTo(r, p, a, b);
    ReachRefl(d, a);
    var i := 0;
    while i < |p| - 1
      invariant 0 <= i < |p| && Reach(d, a, p[i])
    {
      assert Step(r, p, i);
      if p[i + 1] == t {
        ReachEdge(d, p[i], n);
        ReachEdge(d, n, t);
        ReachTrans(d, p[i], n, t);
      } else {
        ReachEdge(d, p[i], p[i + 1]);
      }
      ReachTrans(d, a, p[i], p[i + 1]);
      i := i + 1;
    }
  }

  // New walks are old walks, with the new node standing for a step into the target.
  lemma ShortcutReach(r: Rel, n: Id, t: Id, a: Id, b: Id)
    requires Reach(Detoured(r, n, t), a, b)
    requires forall e :: e in r ==> e.src != n && e.dst != n
    requires n != t && a != n
    ensures b != n ==> Reach(r, a, b)
    ensures b == n ==> ReachPlus(r, a, t)
  {
    var d := Detoured(r, n, t);
    var p :| WalkFromTo(d, p, a, b);
    ReachRefl(r, a);
    var i := 0;
    while i < |p| - 1
      invariant 0 <= i < |p|
      invariant p[i] != n ==> Reach(r, a, p[i])
      invariant p[i] == n ==> ReachPlus(r, a, t)
    {
      assert Step(d, p, i);
      var x, y := p[i], p[i + 1];
      if x == n {
        assert y == t;
        ReachPlusReach(r, a, t);
      } else if y == n {
        assert Arc(x, t) in r;
        ReachRefl(r, t);
        ReachPlusTrans(r, a, x, t);
      } else {
        ReachEdge(r, x, y);
        ReachTrans(r, a, x, y);
      }
      i := i + 1;
    }
  }

  // Reachability between original nodes is as before; the new node has the target's
  // strict ancestors and its descendants.
  lemma IntroducePreservesReach(es: seq<Dep>, n: Id, t: Id, a: Id, b: Id)
    requires !Touches(es, n) && n != t && a != n && b != n
    ensures Reach(ArcsOf(Introduced(es, n, t)), a, b) <==> Reach(ArcsOf(es), a, b)
    ensures Reach(ArcsOf(Introduced(es, n, t)), a, n) <==> ReachPlus(ArcsOf(es), a, t)
    ensures Reach(ArcsOf(Introduced(es, n, t)), n, b) <==> Reach(ArcsOf(es), t, b)
  {
    var r := ArcsOf(es);
    var d := Detoured(r, n, t);
    IntroducedArcs(es, n, t);
    UntouchedArcs(es, n);
    if Reach(r, a, b) { DetourReach(r, n, t, a, b); }
    if Reach(d, a, b) { ShortcutReach(r, n, t, a, b); }
    if Reach(d, a, n) { ShortcutReach(r, n, t, a, n); }
    if ReachPlus(r, a, t) {
      var x := ReachLast(r, a, t);
      DetourReach(r, n, t, a, x);
      ReachEdge(d, x, n);
      ReachTrans(d, a, x, n);
    }
    ReachEdge(d, n, t);
    if Reach(r, t, b) {
      DetourReach(r, n, t, t, b);
      ReachTrans(d, n, t, b);
    }
    if Reach(d, n, b) {
      ReachFirst(d, n, b);
      ShortcutReach(r, n, t, t, b);
    }
  }

  lemma UntouchedArcs(es: seq<Dep>, n: Id)
    requires !Touches(es, n)
    ensures forall e :: e in ArcsOf(es) ==> e.src != n && e.dst != n
  {
  }

  // A cycle of two or more nodes appears exactly if there was one or the target had a
  // self-loop, which the new node turns into a cycle of two.
  lemma IntroduceCycleIff(es: seq<Dep>, n: Id, t: Id)
    requires !Touches(es, n) && n != t
    ensures HasCycle(NoLoops(ArcsOf(Introduced(es, n, t)))) <==>
            HasCycle(NoLoops(ArcsOf(es))) || Arc(t, t) in ArcsOf(es)
  {
    var r, d := ArcsOf(es), ArcsOf(Introduced(es, n, t));
    CycleIffMutual(r);
    CycleIffMutual(d);
    UntouchedArcs(es, n);
    if a, b :| a != b && Mutual(r, a, b) {
      EndsUntouched(r, n, a, b);
      IntroducePreservesReach(es, n, t, a, b);
      IntroducePreservesReach(es, n, t, b, a);
      assert Mutual(d, a, b);
    }
    ReachRefl(r, t);
    IntroducePreservesReach(es, n, t, t, t);
    if Arc(t, t) in r {
      assert Mutual(d, t, n);
    }
    if a, b :| a != b && Mutual(d, a, b) {
      if a != n && b != n {
        IntroducePreservesReach(es, n, t, a, b);
        IntroducePreservesReach(es, n, t, b, a);
        assert Mutual(r, a, b);
      } else {
        var x := if a == n then b else a;
        IntroducePreservesReach(es, n, t, x, x);
        if x != t {
          ReachPlusReach(r, x, t);
          assert Mutual(r, x, t);
        } else if Arc(t, t) !in r {
          var c :| Arc(t, c) in r && Reach(r, c, t);
          ReachEdge(r, t, c);
          assert Mutual(r, t, c);
        }
      }
    }
  }

  lemma EndsUntouched(r: Rel, n: Id, a: Id, b: Id)
    requires a != b && Mutual(r, a, b) && forall e :: e in r ==> e.src != n && e.dst != n
    ensures a != n && b != n
  {
    ReachFirst(r, a, b);
    ReachFirst(r, b, a);
  }

  // -- Introduce, then Merge --

  // Merging the new node back gives the old nodes, and the old edges without the
  // self-loops, in the old order and with their attributes.
  lemma MergeUndoesIntroduce(ns: seq<Node>, es: seq<Dep>, n: Id, group: string, t: Id)
    requires Wired(ns, es) && !Has(ns, n) && n != t
    ensures Without(ns + [Node(n, n, "", map[GROUP := group])], n) == ns
    ensures Merged(Introduced(es, n, t), n, t) == DropLoops(es)
  {
    FreshUntouched(ns, es, n);
    var node := Node(n, n, "", map[GROUP := group]);
    assert (ns + [node])[..|ns|] == ns;
    WithoutAbsent(ns, n);
    var back := Repointed(Introduced(es, n, t), n, t);
    forall i | 0 <= i < |es| ensures back[i] == es[i] { assert es[i] in es; }
    assert back[..|es|] == es;
  }

  lemma WithoutSnoc(ns: seq<Node>, n: Node, id: Id)
    ensures Without(ns + [n], id) == Without(ns, id) + (if n.id == id then [] else [n])
  {
    assert (ns + [n])[..|ns|] == ns;
  }

  lemma {:induction false} WithoutAbsent(ns: seq<Node>, n: Id)
    requires !Has(ns, n)
    ensures Without(ns, n) == ns
  {
    if ns != [] {
      hide Without;
      var front, m := Unsnoc(ns);
      forall i | 0 <= i < |front| ensures front[i].id != n { assert ns[i] == front[i]; }
      WithoutAbsent(front, n);
      assert ns[|front|] == m;
      WithoutSnoc(front, m, n);
    }
  }

  // So the edge list comes back exactly when it had no self-loop.
  lemma RoundTripIffNoLoops(ns: seq<Node>, es: seq<Dep>, n: Id, t: Id)
    requires Wired(ns, es) && !Has(ns, n) && n != t
    ensures Merged(Introduced(es, n, t), n, t) == es <==> forall e :: e in es ==> e.src != e.dst
  {
    MergeUndoesIntroduce(ns, es, n, "", t);
    if forall e :: e in es ==> e.src != e.dst { NoLoopsKept(es); }
    if DropLoops(es) == es {
      forall e | e in es ensures e.src != e.dst { DropLoopsElems(es, e); }
    }
  }

  lemma {:induction false} NoLoopsKept(es: seq<Dep>)
    requires forall e :: e in es ==> e.src != e.dst
    ensures DropLoops(es) == es
  {
    if es != [] {
      var m := |es| - 1;
      NoLoopsKept(es[..m]);
      assert es[m] in es;
    }
  }

  // -- Merge --

  // A merge into a different node leaves no dangling edge. A merge of a node into itself
  // removes the node and keeps its edges, so it is safe only if it has none to others.
  lemma MergeWiredIff(ns: seq<Node>, es: seq<Dep>, src: Id, dst: Id)
    requires Wired(ns, es) && Has(ns, src) && Has(ns, dst)
    ensures Wired(Without(ns, src), Merged(es, src, dst)) <==>
            src != dst || forall e :: e in es && (e.src == src || e.dst == src) ==> e.src == e.dst
  {
    var out := Merged(es, src, dst);
    if src != dst {
      forall e | e in out ensures Has(Without(ns, src), e.src) && Has(Without(ns, src), e.dst) {
        DropLoopsElems(Repointed(es, src, dst), e);
        var i :| 0 <= i < |es| && e == Pointed(es[i], src, dst);
        assert es[i] in es;
        HasWithout(ns, src, e.src);
        HasWithout(ns, src, e.dst);
      }
    } else {
      assert Repointed(es, src, dst) == es;
      forall e | e in es && (e.src == src || e.dst == src) && e.src != e.dst
        ensures e in out && !Wired(Without(ns, src), out)
      {
        DropLoopsElems(es, e);
        HasWithout(ns, src, src);
      }
      if forall e :: e in es && (e.src == src || e.dst == src) ==> e.src == e.dst {
        forall e | e in out ensures Has(Without(ns, src), e.src) && Has(Without(ns, src), e.dst) {
          DropLoopsElems(es, e);
          HasWithout(ns, src, e.src);
          HasWithout(ns, src, e.dst);
        }
      }
    }
  }

  lemma HasWithout(ns: seq<Node>, id: Id, x: Id)
    ensures Has(Without(ns, id), x) <==> Has(ns, x) && x != id
  {
    if Has(Without(ns, id), x) {
      var i :| 0 <= i < |Without(ns, id)| && Without(ns, id)[i].id == x;
      WithoutElems(ns, id, Without(ns, id)[i]);
    }
    if Has(ns, x) && x != id {
      var i :| 0 <= i < |ns| && ns[i].id == x;
      WithoutElems(ns, id, ns[i]);
    }
  }

  lemma MergedArcs(es: seq<Dep>, src: Id, dst: Id, a: Id, b: Id)
    ensures Arc(a, b) in ArcsOf(Merged(es, src, dst)) <==>
            a != b && exists e :: e in ArcsOf(es) && Fold(e.src, src, dst) == a && Fold(e.dst, src, dst) == b
  {
    var mid := Repointed(es, src, dst);
    if Arc(a, b) in ArcsOf(Merged(es, src, dst)) {
      var e :| e in Merged(es, src, dst) && e.src == a && e.dst == b;
      DropLoopsElems(mid, e);
      var i :| 0 <= i < |es| && e == Pointed(es[i], src, dst);
      assert Arc(es[i].src, es[i].dst) in ArcsOf(es);
    }
    if a != b && exists e :: e in ArcsOf(es) && Fold(e.src, src, dst) == a && Fold(e.dst, src, dst) == b {
      var e :| e in ArcsOf(es) && Fold(e.src, src, dst) == a && Fold(e.dst, src, dst) == b;
      var i :| 0 <= i < |es| && Arc(es[i].src, es[i].dst) == e;
      DropLoopsElems(mid, mid[i]);
    }
  }

  ghost function Glued(r: Rel, src: Id, dst: Id): Rel { r + {Arc(src, dst), Arc(dst, src)} }

  // An old walk becomes a walk between the folded ends: steps inside {src, dst} vanish.
  lemma FoldReach(es: seq<Dep>, src: Id, dst: Id, a: Id, b: Id)
    requires Reach(Glued(ArcsOf(es), src, dst), a, b)
    ensures Reach(ArcsOf(Merged(es, src, dst)), Fold(a, src, dst), Fold(b, src, dst))
  {
    var r, m := Glued(ArcsOf(es), src, dst), ArcsOf(Merged(es, src, dst));
    var p :| WalkFromTo(r, p, a, b);
    ReachRefl(m, Fold(a, src, dst));
    var i := 0;
    while i < |p| - 1
      invariant 0 <= i < |p| && Reach(m, Fold(a, src, dst), Fold(p[i], src, dst))
    {
      assert Step(r, p, i);
      var x, y := Fold(p[i], src, dst), Fold(p[i + 1], src, dst);
      if x != y {
        MergedArcs(es, src, dst, x, y);
        ReachEdge(m, x, y);
        ReachTrans(m, Fold(a, src, dst), x, y);
      }
      i := i + 1;
    }
  }

  // A node and its image reach each other once src and dst are glued.
  lemma GluedFold(r: Rel, src: Id, dst: Id, x: Id)
    ensures Mutual(Glued(r, src, dst), x, Fold(x, src, dst))
  {
    if x == src {
      ReachEdge(Glued(r, src, dst), src, dst);
      ReachEdge(Glued(r, src, dst), dst, src);
    } else {
      ReachRefl(Glued(r, src, dst), x);
    }
  }

  lemma UnfoldReach(es: seq<Dep>, src: Id, dst: Id, a: Id, b: Id)
    requires Reach(ArcsOf(Merged(es, src, dst)), a, b)
    ensures Reach(Glued(ArcsOf(es), src, dst), a, b)
  {
    var r, m := Glued(ArcsOf(es), src, dst), ArcsOf(Merged(es, src, dst));
    var p :| WalkFromTo(m, p, a, b);
    ReachRefl(r, a);
    var i := 0;
    while i < |p| - 1
      invariant 0 <= i < |p| && Reach(r, a, p[i])
    {
      assert Step(m, p, i);
      MergedArcs(es, src, dst, p[i], p[i + 1]);
      var e :| e in ArcsOf(es) && Fold(e.src, src, dst) == p[i] && Fold(e.dst, src, dst) == p[i + 1];
      GluedFold(ArcsOf(es), src, dst, e.src);
      GluedFold(ArcsOf(es), src, dst, e.dst);
      ReachEdge(r, e.src, e.dst);
      ReachTrans(r, p[i], e.src, e.dst);
      ReachTrans(r, p[i], e.dst, p[i + 1]);
      ReachTrans(r, a, p[i], p[i + 1]);
      i := i + 1;
    }
  }

  // Reachability after a merge is reachability before it with src and dst made one.
  lemma MergeReachIff(es: seq<Dep>, src: Id, dst: Id, a: Id, b: Id)
    ensures Reach(ArcsOf(Merged(es, src, dst)), Fold(a, src, dst), Fold(b, src, dst)) <==>
            Reach(Glued(ArcsOf(es), src, dst), a, b)
  {
    var r := Glued(ArcsOf(es), src, dst);
    var x, y := Fold(a, src, dst), Fold(b, src, dst);
    if Reach(r, a, b) { FoldReach(es, src, dst, a, b); }
    if Reach(ArcsOf(Merged(es, src, dst)), x, y) {
      UnfoldReach(es, src, dst, x, y);
      GluedFold(ArcsOf(es), src, dst, a);
      GluedFold(ArcsOf(es), src, dst, b);
      ReachTrans(r, a, x, y);
      ReachTrans(r, a, y, b);
    }
  }

  // Merging two nodes of an acyclic graph makes a cycle exactly if some third node lies
  // on a walk between the two.
  lemma MergeCycleIff(es: seq<Dep>, src: Id, dst: Id)
    requires !HasCycle(NoLoops(ArcsOf(es)))
    ensures HasCycle(ArcsOf(Merged(es, src, dst))) <==>
            exists x :: x != src && x != dst && Between(ArcsOf(es), src, dst, x)
  {
    var r, g, m := ArcsOf(es), Glued(ArcsOf(es), src, dst), ArcsOf(Merged(es, src, dst));
    CycleIffMutual(r);
    CycleIffMutual(m);
    assert NoLoops(m) == m by {
      forall a | a in m ensures a.src != a.dst { MergedArcs(es, src, dst, a.src, a.dst); }
    }
    if x :| x != src && x != dst && Between(r, src, dst, x) {
      GluedBetween(r, src, dst, x);
      FoldReach(es, src, dst, dst, x);
      FoldReach(es, src, dst, x, dst);
      assert Mutual(m, dst, x);
    }
    if a, b :| a != b && Mutual(m, a, b) {
      MergedEnds(es, src, dst, a, b);
      MergedEnds(es, src, dst, b, a);
      UnfoldReach(es, src, dst, a, b);
      UnfoldReach(es, src, dst, b, a);
      GluedSplit(r, src, dst, a, b);
      GluedSplit(r, src, dst, b, a);
      var x := if a == dst then b else a;
      assert !Mutual(r, a, b);
      SideOf(r, src, dst, a, b);
      assert x != src && x != dst && Between(r, src, dst, x);
    }
  }

  ghost predicate FromEither(r: Rel, src: Id, dst: Id, x: Id) { Reach(r, src, x) || Reach(r, dst, x) }

  ghost predicate ToEither(r: Rel, src: Id, dst: Id, x: Id) { Reach(r, x, src) || Reach(r, x, dst) }

  ghost predicate Between(r: Rel, src: Id, dst: Id, x: Id) {
    FromEither(r, src, dst, x) && ToEither(r, src, dst, x)
  }

  lemma GluedBetween(r: Rel, src: Id, dst: Id, x: Id)
    requires Between(r, src, dst, x)
    ensures Mutual(Glued(r, src, dst), dst, x)
  {
    var g := Glued(r, src, dst);
    ReachEdge(g, src, dst);
    ReachEdge(g, dst, src);
    if Reach(r, src, x) { ReachMono(r, g, src, x); ReachTrans(g, dst, src, x); } else { ReachMono(r, g, dst, x); }
    if Reach(r, x, src) { ReachMono(r, g, x, src); ReachTrans(g, x, src, dst); } else { ReachMono(r, g, x, dst); }
  }

  // A walk over the glued arcs either never uses the glue or enters and leaves the pair.
  lemma GluedSplit(r: Rel, src: Id, dst: Id, a: Id, b: Id)
    requires Reach(Glued(r, src, dst), a, b)
    ensures Reach(r, a, b) || (ToEither(r, src, dst, a) && FromEither(r, src, dst, b))
  {
    var g := Glued(r, src, dst);
    var p :| WalkFromTo(g, p, a, b);
    ReachRefl(r, a);
    var i := 0;
    while i < |p| - 1
      invariant 0 <= i < |p|
      invariant Reach(r, a, p[i]) || (ToEither(r, src, dst, a) && FromEither(r, src, dst, p[i]))
    {
      assert Step(g, p, i);
      var x, y := p[i], p[i + 1];
      if Arc(x, y) in r {
        ReachEdge(r, x, y);
        if Reach(r, a, x) { ReachTrans(r, a, x, y); }
        else if Reach(r, src, x) { ReachTrans(r, src, x, y); }
        else { ReachTrans(r, dst, x, y); }
      } else {
        ReachRefl(r, y);
      }
      i := i + 1;
    }
  }

  // The removed node is on no arc.
  lemma MergedEnds(es: seq<Dep>, src: Id, dst: Id, a: Id, b: Id)
    requires a != b && Reach(ArcsOf(Merged(es, src, dst)), a, b)
    ensures src != dst ==> a != src
  {
    ReachFirst(ArcsOf(Merged(es, src, dst)), a, b);
    var c :| Arc(a, c) in ArcsOf(Merged(es, src, dst));
    MergedArcs(es, src, dst, a, c);
  }

  lemma SideOf(r: Rel, src: Id, dst: Id, a: Id, b: Id)
    requires Reach(r, a, b) || (ToEither(r, src, dst, a) && FromEither(r, src, dst, b))
    requires Reach(r, b, a) || (ToEither(r, src, dst, b) && FromEither(r, src, dst, a))
    requires !(Reach(r, a, b) && Reach(r, b, a))
    ensures Between(r, src, dst, a) && Between(r, src, dst, b)
  {
    if Reach(r, a, b) {
      Onward(r, src, dst, a, b);
    } else if Reach(r, b, a) {
      Onward(r, src, dst, b, a);
    }
  }

  lemma Onward(r: Rel, src: Id, dst: Id, a: Id, b: Id)
    requires Reach(r, a, b)
    ensures ToEither(r, src, dst, b) ==> ToEither(r, src, dst, a)
    ensures FromEither(r, src, dst, a) ==> FromEither(r, src, dst, b)
  {
    if Reach(r, b, src) { ReachTrans(r, a, b, src); }
    if Reach(r, b, dst) { ReachTrans(r, a, b, dst); }
    if Reach(r, src, a) { ReachTrans(r, src, a, b); }
    if Reach(r, dst, a) { ReachTrans(r, dst, a, b); }
  }

  // -- Redirect and Reverse --

  // Redirect keeps every edge attached exactly when the new ends are nodes.
  lemma RedirectWiredIff(ns: seq<Node>, es: seq<Dep>, src: Id, dst: Id, newSrc: Id, newDst: Id)
    requires Wired(ns, es) && FirstEdge(es, src, dst) < |es|
    ensures Wired(ns, Redirected(es, src, dst, newSrc, newDst)) <==> Has(ns, newSrc) && Has(ns, newDst)
  {
    var i := FirstEdge(es, src, dst);
    var out := Redirected(es, src, dst, newSrc, newDst);
    assert out[i] in out;
    forall e | e in out && e != out[i] ensures e in es { }
  }

  // Reversing an edge and reversing it back gives the old list exactly when no edge the
  // other way comes before it: otherwise the second call takes that one.
  lemma ReverseTwiceIff(es: seq<Dep>, src: Id, dst: Id)
    requires FirstEdge(es, src, dst) < |es|
    ensures var once := Redirected(es, src, dst, dst, src);
      && FirstEdge(once, dst, src) < |once|
      && (Redirected(once, dst, src, src, dst) == es <==> FirstEdge(es, dst, src) >= FirstEdge(es, src, dst))
  {
    var i := FirstEdge(es, src, dst);
    var once := Redirected(es, src, dst, dst, src);
    assert once[i].src == dst && once[i].dst == src;
    var j := FirstEdge(once, dst, src);
    var twice := Redirected(once, dst, src, src, dst);
    if j < i {
      assert es[j] == once[j] && FirstEdge(es, dst, src) <= j;
      assert twice[j].src == src && twice[j] != es[j];
    } else {
      assert j == i;
      assert twice == es;
      forall k | 0 <= k < i ensures !(es[k].src == dst && es[k].dst == src) { assert once[k] == es[k]; }
    }
  }

  // Either way the same arcs are there again.
  lemma ReverseTwiceArcs(es: seq<Dep>, src: Id, dst: Id)
    requires FirstEdge(es, src, dst) < |es|
    requires FirstEdge(Redirected(es, src, dst, dst, src), dst, src) < |es|
    ensures ArcsOf(Redirected(Redirected(es, src, dst, dst, src), dst, src, src, dst)) == ArcsOf(es)
  {
    var i := FirstEdge(es, src, dst);
    var once := Redirected(es, src, dst, dst, src);
    var j := FirstEdge(once, dst, src);
    var twice := Redirected(once, dst, src, src, dst);
    assert once[i].src == dst && once[i].dst == src;
    forall a | a in ArcsOf(twice) ensures a in ArcsOf(es) {
      var k :| 0 <= k < |es| && a == Arc(twice[k].src, twice[k].dst);
      if k == j { assert es[i] in es; }
      else if k == i { assert es[j] == once[j] && es[j] in es; }
      else { assert es[k] in es; }
    }
    forall a | a in ArcsOf(es) ensures a in ArcsOf(twice) {
      var k :| 0 <= k < |es| && a == Arc(es[k].src, es[k].dst);
      if k == i { assert twice[j] in twice; }
      else if k == j { assert es[j] == once[j] && twice[i] in twice; }
      else { assert twice[k] in twice; }
    }
  }

  // ---- What becomes of each edge and node ----

  // The edges that do not end up between one node and itself when src becomes dst.
  ghost function Apart(es: seq<Dep>, src: Id, dst: Id): seq<Dep> {
    if es == [] then []
    else
      var n := |es| - 1;
      var e := es[n];
      Apart(es[..n], src, dst)
      + (if e.src == e.dst || {e.src, e.dst} == {src, dst} then [] else [e])
  }

  // e at the end of f, its ends moved from src to dst, everything else the same.
  ghost predicate MovedTo(e: Dep, f: Dep, src: Id, dst: Id) {
    && f.kind == e.kind && f.attrs == e.attrs
    && (if e.src == src then f.src == dst else f.src == e.src)
    && (if e.dst == src then f.dst == dst else f.dst == e.dst)
  }

  lemma RepointedFront(es: seq<Dep>, src: Id, dst: Id)
    requires es != []
    ensures var n := |es| - 1;
            && Repointed(es, src, dst)[..n] == Repointed(es[..n], src, dst)
            && Repointed(es, src, dst)[n] == Pointed(es[n], src, dst)
  {
  }

  // A merge keeps, in their order, exactly the edges whose ends stay apart, each with its
  // kind and attributes and with src replaced by dst.
  lemma {:induction false} MergeKeepsEdges(es: seq<Dep>, src: Id, dst: Id)
    ensures |Merged(es, src, dst)| == |Apart(es, src, dst)|
    ensures forall i :: 0 <= i < |Apart(es, src, dst)| ==>
              MovedTo(Apart(es, src, dst)[i], Merged(es, src, dst)[i], src, dst)
  {
    hide Repointed, Pointed;
    if es != [] {
      var n := |es| - 1;
      MergeKeepsEdges(es[..n], src, dst);
      RepointedFront(es, src, dst);
      PointedMoves(es[n], src, dst);
    }
  }

  lemma PointedMoves(e: Dep, src: Id, dst: Id)
    ensures MovedTo(e, Pointed(e, src, dst), src, dst)
    ensures Pointed(e, src, dst).src == Pointed(e, src, dst).dst <==> e.src == e.dst || {e.src, e.dst} == {src, dst}
  {
    assert e.src in {e.src, e.dst} && e.dst in {e.src, e.dst} && src in {src, dst} && dst in {src, dst};
    if e.src != e.dst && {e.src, e.dst} == {src, dst} { assert e.src in {src, dst} && e.dst in {src, dst}; }
  }

  // An introduction moves the edges into the target, but those of the new node, to the new
  // node, keeps everything else of every edge, and adds one plain edge at the end.
  lemma IntroduceKeepsEdges(es: seq<Dep>, newID: Id, target: Id, i: nat)
    requires i <= |es|
    ensures var r := Introduced(es, newID, target);
      && |r| == |es| + 1
      && (i < |es| ==>
            && r[i].src == es[i].src && r[i].kind == es[i].kind && r[i].attrs == es[i].attrs
            && r[i].dst == if es[i].dst == target && es[i].src != newID then newID else es[i].dst)
      && (i == |es| ==> r[i].src == newID && r[i].dst == target && r[i].kind == "" && r[i].attrs == map[])
  {
  }

  // A redirection changes the ends of the first edge between the old ones, nothing else.
  lemma RedirectKeepsEdges(es: seq<Dep>, src: Id, dst: Id, newSrc: Id, newDst: Id, i: nat)
    requires i < |es| && es[i].src == src && es[i].dst == dst
    requires forall k :: 0 <= k < i ==> !(es[k].src == src && es[k].dst == dst)
    ensures FirstEdge(es, src, dst) == i
    ensures var r := Redirected(es, src, dst, newSrc, newDst);
      && |r| == |es| && r[i].src == newSrc && r[i].dst == newDst && r[i].kind == es[i].kind && r[i].attrs == es[i].attrs
      && forall k :: 0 <= k < |es| && k != i ==> r[k] == es[k]
  {
    FirstIs(es, src, dst, i);
    hide FirstEdge;
  }

  lemma FirstIs(es: seq<Dep>, src: Id, dst: Id, i: nat)
    requires i < |es| && es[i].src == src && es[i].dst == dst
    requires forall k :: 0 <= k < i ==> !(es[k].src == src && es[k].dst == dst)
    ensures FirstEdge(es, src, dst) == i
  {
    hide FirstEdge;
    var k := FirstEdge(es, src, dst);
    assert !(k < i) && !(i < k);
  }

  // The nodes that stay are those with other ids, each as often and in their order.
  lemma {:induction false} OthersStay(ns: seq<Node>, id: Id, n: Node)
    ensures multiset(Without(ns, id))[n] == if n.id == id then 0 else multiset(ns)[n]
  {
    if ns != [] {
      hide Without;
      var front, m := Unsnoc(ns);
      OthersStay(front, id, n);
      WithoutSnoc(front, m, id);
    }
  }

  lemma {:induction false} OthersInOrder(ns: seq<Node>, more: seq<Node>, id: Id)
    ensures Without(ns + more, id) == Without(ns, id) + Without(more, id)
  {
    if more == [] {
      assert ns + more == ns;
    } else {
      hide Without;
      var front, m := Unsnoc(more);
      OthersInOrder(ns, front, id);
      WithoutSnoc(front, m, id);
      WithoutSnoc(ns + front, m, id);
      Assoc(ns, front, [m]);
      Assoc(Without(ns, id), Without(front, id), if m.id != id then [m] else []);
    }
  }
}
