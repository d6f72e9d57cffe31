/** The typed in-memory graph with its node and edge indices, and Subgraph. */
module TypedGraph {
  import opened Order
  import opened Walks
  import opened Distance
  import opened Queries

  datatype AttrKey =
    | IsContractKey
    | ContractKindKey
    | ContractSourceKey
    | ContractEmbedsKey
    | TypeKindKey
    | OtherKey(name: string)

  datatype Value = Flag(flag: bool) | Text(text: string) | NodeRef(node: Id)

  datatype Node = Node(id: Id, kind: string, attrs: map<AttrKey, Value>)

  datatype Entry = Entry(node: Node, gid: int)

  datatype Direction = Out | In | Both

  ghost function FilterNodes(ns: seq<Node>, keep: set<Id>): seq<Node> {
    if ns == [] then []
    else
      var n := |ns| - 1;
      FilterNodes(ns[..n], keep) + (if ns[n].id in keep then [ns[n]] else [])
  }

  // The induced edges.
  ghost function FilterEdges(es: seq<Edge>, keep: set<Id>): seq<Edge> {
    if es == [] then []
    else
      var n := |es| - 1;
      FilterEdges(es[..n], keep) + (if es[n].src in keep && es[n].dst in keep then [es[n]] else [])
  }

  lemma {:induction false} FilterNodesElems(ns: seq<Node>, keep: set<Id>, x: Node)
    ensures x in FilterNodes(ns, keep) <==> x in ns && x.id in keep
  {
    if ns != [] {
      FilterNodesElems(ns[..|ns| - 1], keep, x);
      assert ns == ns[..|ns| - 1] + [ns[|ns| - 1]];
    }
  }

  lemma {:induction false} FilterEdgesElems(es: seq<Edge>, keep: set<Id>, e: Edge)
    ensures e in FilterEdges(es, keep) <==> e in es && e.src in keep && e.dst in keep
  {
    if es != [] {
      FilterEdgesElems(es[..|es| - 1], keep, e);
      assert es == es[..|es| - 1] + [es[|es| - 1]];
    }
  }

  // Whether, and in which form, a node carries the contract marker.
  predicate IsContract(n: Node) {
    IsContractKey in n.attrs && n.attrs[IsContractKey] == Flag(true)
  }

  function TextAttr(n: Node, key: AttrKey): string {
    if key in n.attrs && n.attrs[key].Text? then n.attrs[key].text else ""
  }

  function ContractKind(n: Node): string { TextAttr(n, ContractKindKey) }

  // The node as MarkContract leaves it.
  ghost function Marked(n: Node, kind: string, source: string, extra: map<AttrKey, Value>): Node {
    var a := n.attrs[IsContractKey := Flag(true)];
    var b := if kind != "" then a[ContractKindKey := Text(kind)] else a;
    var c := if source != "" then b[ContractSourceKey := Text(source)] else b;
    n.(attrs := c + extra)
  }

  predicate Meets(e: Edge, id: Id, dir: Direction, kind: string) {
    && (kind == "" || e.kind == kind)
    && (match dir case Out => e.src == id case In => e.dst == id case Both => e.src == id || e.dst == id)
  }

  function OtherEnd(e: Edge, id: Id, dir: Direction): Id {
    match dir
    case Out => e.dst
    case In => e.src
    case Both => if e.src == id then e.dst else e.src
  }

  ghost predicate Leads(es: seq<Edge>, k: int, id: Id, dir: Direction, kind: string, x: Id) {
    0 <= k < |es| && Meets(es[k], id, dir, kind) && OtherEnd(es[k], id, dir) == x
  }

  // Before any edge that leads to a later id of the list there is one to each earlier id.
  ghost predicate ByFirstEdge(es: seq<Edge>, id: Id, dir: Direction, kind: string, out: seq<Id>) {
    forall i, j, l :: 0 <= i < j < |out| && Leads(es, l, id, dir, kind, out[j]) ==>
      LeadsBefore(es, l, id, dir, kind, out[i])
  }

  ghost predicate LeadsBefore(es: seq<Edge>, l: int, id: Id, dir: Direction, kind: string, x: Id) {
    exists k :: k < l && Leads(es, k, id, dir, kind, x)
  }

  lemma NoneFirst(es: seq<Edge>, id: Id, dir: Direction, kind: string)
    ensures ByFirstEdge(es, id, dir, kind, []) && ByFirstEdge([], id, dir, kind, [])
  {
  }

  ghost predicate LedTo(es: seq<Edge>, id: Id, dir: Direction, kind: string, x: Id) {
    exists e :: e in es && Meets(e, id, dir, kind) && OtherEnd(e, id, dir) == x
  }

  lemma LedBy(es: seq<Edge>, id: Id, dir: Direction, kind: string, x: Id) returns (k: int)
    requires LedTo(es, id, dir, kind, x)
    ensures Leads(es, k, id, dir, kind, x)
  {
    var e :| e in es && Meets(e, id, dir, kind) && OtherEnd(e, id, dir) == x;
    k :| 0 <= k < |es| && es[k] == e;
  }

  lemma LeadsSnoc(es: seq<Edge>, e: Edge, l: int, id: Id, dir: Direction, kind: string, x: Id)
    ensures Leads(es, l, id, dir, kind, x) ==> Leads(es + [e], l, id, dir, kind, x) && LedTo(es, id, dir, kind, x)
    ensures Leads(es + [e], l, id, dir, kind, x) && l < |es| ==> Leads(es, l, id, dir, kind, x)
    ensures Leads(es + [e], l, id, dir, kind, x) && l >= |es| ==> l == |es|
  {
  }

  // One more edge, and perhaps one more id, which no edge before leads to.
  lemma FirstEdgeSnoc(es: seq<Edge>, e: Edge, id: Id, dir: Direction, kind: string, out: seq<Id>, grown: seq<Id>)
    requires ByFirstEdge(es, id, dir, kind, out) && forall x :: x in out <==> LedTo(es, id, dir, kind, x)
    requires grown == out || (|grown| == |out| + 1 && grown[..|out|] == out && grown[|out|] !in out)
    ensures ByFirstEdge(es + [e], id, dir, kind, grown)
  {
    hide Leads, LedTo;
    forall i, j, l | 0 <= i < j < |grown| && Leads(es + [e], l, id, dir, kind, grown[j])
      ensures LeadsBefore(es + [e], l, id, dir, kind, grown[i])
    {
      assert grown[i] == out[i] && out[i] in out;
      LeadsSnoc(es, e, l, id, dir, kind, grown[j]);
      if l < |es| {
        assert j < |out| && grown[j] == out[j];
        var k :| k < l && Leads(es, k, id, dir, kind, out[i]);
        LeadsSnoc(es, e, k, id, dir, kind, out[i]);
      } else {
        var k := LedBy(es, id, dir, kind, out[i]);
        LeadsSnoc(es, e, k, id, dir, kind, out[i]);
        LeadsBelow(es, k, id, dir, kind, out[i]);
      }
    }
  }

  lemma LeadsBelow(es: seq<Edge>, k: int, id: Id, dir: Direction, kind: string, x: Id)
    requires Leads(es, k, id, dir, kind, x)
    ensures k < |es|
  {
  }

  // Which ids the edges lead to, direction by direction; no kind means any.
  lemma LedToIff(es: seq<Edge>, id: Id, kind: string, x: Id)
    ensures LedTo(es, id, Out, kind, x) <==>
            exists e :: e in es && (kind == "" || e.kind == kind) && e.src == id && e.dst == x
    ensures LedTo(es, id, In, kind, x) <==>
            exists e :: e in es && (kind == "" || e.kind == kind) && e.dst == id && e.src == x
    ensures LedTo(es, id, Both, kind, x) <==> LedTo(es, id, Out, kind, x) || LedTo(es, id, In, kind, x)
  {
    if LedTo(es, id, Out, kind, x) || LedTo(es, id, In, kind, x) {
      var e :| && e in es && (kind == "" || e.kind == kind)
               && ((e.src == id && e.dst == x) || (e.dst == id && e.src == x));
      assert Meets(e, id, Both, kind) && OtherEnd(e, id, Both) == x;
    }
  }

  lemma NodesSnoc(ns: seq<Node>, x: Node, keep: set<Id>)
    ensures FilterNodes(ns + [x], keep) == FilterNodes(ns, keep) + (if x.id in keep then [x] else [])
  {
    assert (ns + [x])[..|ns|] == ns;
  }

  lemma EdgesSnoc(es: seq<Edge>, x: Edge, keep: set<Id>)
    ensures FilterEdges(es + [x], keep) == FilterEdges(es, keep) + (if x.src in keep && x.dst in keep then [x] else [])
  {
    assert (es + [x])[..|es|] == es;
  }

  // The induced graph has the kept nodes and the edges between them, each as often.
  lemma {:induction false} NodesKept(ns: seq<Node>, keep: set<Id>, n: Node)
    ensures multiset(FilterNodes(ns, keep))[n] == if n.id in keep then multiset(ns)[n] else 0
  {
    if ns != [] {
      hide FilterNodes;
      var front, m := Unsnoc(ns);
      NodesKept(front, keep, n);
      NodesSnoc(front, m, keep);
    }
  }

  lemma {:induction false} EdgesKept(es: seq<Edge>, keep: set<Id>, e: Edge)
    ensures multiset(FilterEdges(es, keep))[e] == if e.src in keep && e.dst in keep then multiset(es)[e] else 0
  {
    if es != [] {
      hide FilterEdges;
      var front, f := Unsnoc(es);
      EdgesKept(front, keep, e);
      EdgesSnoc(front, f, keep);
    }
  }

  // And in their order.
  lemma {:induction false} NodesAppend(ns: seq<Node>, more: seq<Node>, keep: set<Id>)
    ensures FilterNodes(ns + more, keep) == FilterNodes(ns, keep) + FilterNodes(more, keep)
  {
    if more == [] {
      assert ns + more == ns;
    } else {
      hide FilterNodes;
      var front, x := Unsnoc(more);
      NodesAppend(ns, front, keep);
      NodesSnoc(front, x, keep);
      NodesSnoc(ns + front, x, keep);
      Assoc(ns, front, [x]);
      Assoc(FilterNodes(ns, keep), FilterNodes(front, keep), if x.id in keep then [x] else []);
    }
  }

  lemma {:induction false} EdgesAppend(es: seq<Edge>, more: seq<Edge>, keep: set<Id>)
    ensures FilterEdges(es + more, keep) == FilterEdges(es, keep) + FilterEdges(more, keep)
  {
    if more == [] {
      assert es + more == es;
    } else {
      hide FilterEdges;
      var front, x := Unsnoc(more);
      EdgesAppend(es, front, keep);
      EdgesSnoc(front, x, keep);
      EdgesSnoc(es + front, x, keep);
      Assoc(es, front, [x]);
      Assoc(FilterEdges(es, keep), FilterEdges(front, keep), if x.src in keep && x.dst in keep then [x] else []);
    }
  }

  class Graph {
    var nodes: map<Id, Entry>
    var byInt: map<int, Id>
    var edges: seq<Edge>
    var edgeIdx: map<Edge, int>
    var next: int

    ghost predicate Valid()
      reads this
    {
      && next >= 0
      && (forall i :: i in byInt <==> 0 <= i < next)
      && (forall i :: i in byInt ==> byInt[i] in nodes && nodes[byInt[i]].gid == i)
      && (forall x :: x in nodes ==> nodes[x].gid in byInt && byInt[nodes[x].gid] == x && nodes[x].node.id == x)
      && (forall i :: 0 <= i < |edges| ==> edges[i] in edgeIdx && edgeIdx[edges[i]] == i)
      && (forall e :: e in edgeIdx ==> 0 <= edgeIdx[e] < |edges| && edges[edgeIdx[e]] == e)
      && (forall e :: e in edges ==> e.src in nodes && e.dst in nodes)
    }

    // The nodes in insertion order.
    ghost function NodeList(): (ns: seq<Node>)
      requires Valid()
      reads this
      ensures |ns| == next
      ensures forall i :: 0 <= i < next ==> ns[i] == nodes[byInt[i]].node
    {
      var ns, b, n := nodes, byInt, next;
      seq(n, i requires 0 <= i < n && i in b && b[i] in ns => ns[b[i]].node)
    }

    // The ids in insertion order.
    ghost function Ids(): (ids: seq<Id>)
      requires Valid()
      reads this
      ensures |ids| == next && forall i :: 0 <= i < next ==> ids[i] == byInt[i] && ids[i] == NodeList()[i].id
      ensures forall x :: x in ids <==> x in nodes
    {
      var b, n := byInt, next;
      var ids := seq(n, i requires 0 <= i < n && i in b => b[i]);
      assert forall x :: x in nodes ==> ids[nodes[x].gid] == x;
      ids
    }

    constructor ()
      ensures Valid() && NodeList() == [] && edges == [] && nodes == map[]
    {
      nodes, byInt, edges, edgeIdx, next := map[], map[], [], map[], 0;
    }

    // Adds a node unless its id is taken.
    method AddNode(n: Node) returns (stored: Node, added: bool)
      requires Valid()
      modifies this`nodes, this`byInt, this`next
      ensures Valid()
      ensures added <==> n.id !in old(nodes)
      ensures stored == if added then n else old(nodes)[n.id].node
      ensures NodeList() == if added then old(NodeList()) + [n] else old(NodeList())
      ensures nodes == if added then old(nodes)[n.id := Entry(n, old(next))] else old(nodes)
    {
      hide Ids;
      if n.id in nodes {
        return nodes[n.id].node, false;
      }
      var gid := next;
      next := next + 1;
      nodes := nodes[n.id := Entry(n, gid)];
      byInt := byInt[gid := n.id];
      assert NodeList() == old(NodeList()) + [n];
      return n, true;
    }

    // Adds an edge between known nodes unless the same edge is there.
    method AddEdge(e: Edge) returns (added: bool, ok: bool)
      requires Valid()
      modifies this`edges, this`edgeIdx
      ensures Valid()
      ensures ok <==> e.src in nodes && e.dst in nodes
      ensures added <==> ok && e !in old(edges)
      ensures edges == if added then old(edges) + [e] else old(edges)
    {
      if e.src !in nodes { return false, false; }
      if e.dst !in nodes { return false, false; }
      if e in edgeIdx {
        assert edges[edgeIdx[e]] in edges;
        return false, true;
      }
      assert e !in edges;
      edges := edges + [e];
      edgeIdx := edgeIdx[e := |edges| - 1];
      return true, true;
    }

    // The nodes in insertion order, collected from the index by ascending gid.
    method Nodes() returns (out: seq<Node>)
      requires Valid()
      ensures out == NodeList()
    {
      hide SortedSeq;
      var ids := SortedSeq(byInt.Keys);
      Counting(ids, next);
      out := [];
      for i := 0 to |ids|
        invariant out == NodeList()[..i]
      {
        out := out + [nodes[byInt[ids[i]]].node];
      }
    }

    // The ids next to id, each once, in the order of the first edges that lead to them.
    method Neighbors(id: Id, dir: Direction, kind: string) returns (out: seq<Id>)
      requires Valid()
      ensures Distinct(out)
      ensures forall x :: x in out <==>
                id in nodes && exists e :: e in edges && Meets(e, id, dir, kind) && OtherEnd(e, id, dir) == x
      ensures ByFirstEdge(edges, id, dir, kind, out)
    {
      hide Meets, OtherEnd, ByFirstEdge;
      out := [];
      NoneFirst(edges, id, dir, kind);
      if id !in nodes { return; }
      var seen: set<Id> := {};
      assert edges[..0] == [];
      for i := 0 to |edges|
        invariant Distinct(out) && seen == Elems(out) && ByFirstEdge(edges[..i], id, dir, kind, out)
        invariant forall x :: x in out <==>
                    exists e :: e in edges[..i] && Meets(e, id, dir, kind) && OtherEnd(e, id, dir) == x
      {
        var e := edges[i];
        assert edges[..i + 1] == edges[..i] + [e];
        FirstEdgeSnoc(edges[..i], e, id, dir, kind, out, out);
        ghost var more := out + [OtherEnd(e, id, dir)];
        if OtherEnd(e, id, dir) !in out { FirstEdgeSnoc(edges[..i], e, id, dir, kind, out, more); }
        assert e in edges[..i + 1];
        if Meets(e, id, dir, kind) {
          var other := OtherEnd(e, id, dir);
          if other !in seen {
            seen := seen + {other};
            out := out + [other];
          }
        }
      }
      assert edges[..|edges|] == edges;
    }

    // Marks the node unless it is marked already; an existing marker wins.
    method MarkContract(id: Id, kind: string, source: string, extra: map<AttrKey, Value>) returns (marked: bool)
      requires Valid()
      modifies this`nodes
      ensures Valid() && Ids() == old(Ids())
      ensures marked <==> id in old(nodes) && !IsContract(old(nodes)[id].node)
      ensures nodes == if marked
              then old(nodes)[id := old(nodes)[id].(node := Marked(old(nodes)[id].node, kind, source, extra))]
              else old(nodes)
    {
      if id !in nodes { return false; }
      var entry := nodes[id];
      if IsContract(entry.node) { return false; }
      var attrs := entry.node.attrs[IsContractKey := Flag(true)];
      if kind != "" { attrs := attrs[ContractKindKey := Text(kind)]; }
      if source != "" { attrs := attrs[ContractSourceKey := Text(source)]; }
      attrs := attrs + extra;
      nodes := nodes[id := entry.(node := entry.node.(attrs := attrs))];
      return true;
    }

    lemma NeighborsAreArcs(id: Id, x: Id)
      requires Valid()
      ensures (exists e :: e in edges && Meets(e, id, Both, "") && OtherEnd(e, id, Both) == x)
          <==> Arc(id, x) in BothWays(edges, [])
    {
      if Arc(id, x) in BothWays(edges, []) {
        var e :| e in edges && (Arc(e.src, e.dst) == Arc(id, x) || Arc(e.dst, e.src) == Arc(id, x));
        assert Meets(e, id, Both, "") && OtherEnd(e, id, Both) == x;
      }
    }

    // Everything within depth hops of the seeds.
    method Ball(seeds: seq<Id>, depth: int) returns (keep: set<Id>)
      requires Valid()
      ensures keep == Within(BothWays(edges, []), Elems(seeds) * nodes.Keys, if depth < 0 then 0 else depth)
    {
      ghost var r := BothWays(edges, []);
      ghost var s := Elems(seeds) * nodes.Keys;
      keep := {};
      var frontier: seq<Id> := [];
      for i := 0 to |seeds|
        invariant keep == Elems(seeds[..i]) * nodes.Keys && Elems(frontier) == keep
      {
        assert seeds[..i + 1] == seeds[..i] + [seeds[i]];
        if seeds[i] in nodes {
          keep := keep + {seeds[i]};
          frontier := frontier + [seeds[i]];
        }
      }
      assert seeds[..|seeds|] == seeds;
      var d := 0;
      while d < depth
        invariant 0 <= d && (d <= depth || (depth < 0 && d == 0))
        invariant keep == Within(r, s, d) && Elems(frontier) <= keep
        invariant forall e :: e in r && e.src in keep && e.src !in Elems(frontier) ==> e.dst in keep
      {
        ghost var ring := keep;
        keep, frontier := Ring(keep, frontier);
        assert keep == ring + Image(r, ring);
        d := d + 1;
        if |frontier| == 0 {
          WithinFixed(r, s, d, depth);
          return;
        }
      }
    }

    // One level: the unseen neighbours of the frontier become the next frontier.
    method Ring(keep0: set<Id>, frontier: seq<Id>) returns (keep: set<Id>, next: seq<Id>)
      requires Valid() && Elems(frontier) <= keep0
      requires forall e :: e in BothWays(edges, []) && e.src in keep0 && e.src !in Elems(frontier) ==> e.dst in keep0
      ensures keep == keep0 + Image(BothWays(edges, []), keep0)
      ensures Elems(next) == keep - keep0
    {
      hide Meets, OtherEnd, BothWays, ByFirstEdge, NodeList;
      ghost var r := BothWays(edges, []);
      keep, next := keep0, [];
      for i := 0 to |frontier|
        invariant keep0 <= keep <= keep0 + Image(r, keep0) && Elems(next) == keep - keep0
        invariant forall k, e :: 0 <= k < i && e in r && e.src == frontier[k] ==> e.dst in keep
      {
        var id := frontier[i];
        assert id in Elems(frontier);
        var ns := Neighbors(id, Both, "");
        ghost var before := keep;
        forall x ensures x in ns <==> id in nodes && Arc(id, x) in r { NeighborsAreArcs(id, x); }
        keep, next := Absorb(keep0, keep, next, ns);
        forall x | x in ns ensures x in Image(r, keep0) { assert Arc(id, x).dst in Image(r, keep0); }
        forall e | e in r && e.src == id ensures e.dst in keep {
          assert Arc(id, e.dst) in r;
          ArcInside(e);
        }
      }
      forall x | x in Image(r, keep0) ensures x in keep {
        var e :| e in r && e.src in keep0 && e.dst == x;
        if e.src in Elems(frontier) {
          var k :| 0 <= k < |frontier| && frontier[k] == e.src;
        }
      }
    }

    lemma ArcInside(a: Arc)
      requires Valid() && a in BothWays(edges, [])
      ensures a.src in nodes && a.dst in nodes
    {
    }

    method Absorb(ghost keep0: set<Id>, keep1: set<Id>, next1: seq<Id>, ns: seq<Id>)
      returns (keep: set<Id>, next: seq<Id>)
      requires keep0 <= keep1 && Elems(next1) == keep1 - keep0
      ensures keep == keep1 + Elems(ns) && Elems(next) == keep - keep0
    {
      keep, next := keep1, next1;
      for i := 0 to |ns|
        invariant keep == keep1 + Elems(ns[..i]) && Elems(next) == keep - keep0
      {
        assert ns[..i + 1] == ns[..i] + [ns[i]];
        if ns[i] !in keep {
          assert Elems(next + [ns[i]]) == Elems(next) + {ns[i]};
          keep := keep + {ns[i]};
          next := next + [ns[i]];
        }
      }
      assert ns[..|ns|] == ns;
    }

    // Copies the kept nodes of ns, in order, into this empty graph.
    method AddKept(ns: seq<Node>, keep: set<Id>)
      requires Valid() && NodeList() == [] && nodes == map[] && edges == []
      requires forall i, j :: 0 <= i < j < |ns| ==> ns[i].id != ns[j].id
      modifies this
      ensures Valid() && edges == [] && NodeList() == FilterNodes(ns, keep)
      ensures forall k :: 0 <= k < |ns| && ns[k].id in keep ==> ns[k].id in nodes
    {
      for i := 0 to |ns|
        invariant Valid() && NodeList() == FilterNodes(ns[..i], keep) && edges == []
        invariant forall k :: 0 <= k < i && ns[k].id in keep ==> ns[k].id in nodes
        invariant forall x :: x in nodes ==> exists k :: 0 <= k < i && ns[k].id == x
      {
        assert ns[..i + 1][..i] == ns[..i];
        if ns[i].id in keep {
          var _, _ := AddNode(ns[i]);
        }
      }
      assert ns[..|ns|] == ns;
    }

    // Copies the edges between kept nodes, in order.
    method AddInduced(es: seq<Edge>, keep: set<Id>)
      requires Valid() && edges == [] && Distinct(es)
      requires forall e :: e in es && e.src in keep && e.dst in keep ==> e.src in nodes && e.dst in nodes
      modifies this`edges, this`edgeIdx
      ensures Valid() && edges == FilterEdges(es, keep)
    {
      for i := 0 to |es|
        invariant Valid() && edges == FilterEdges(es[..i], keep)
      {
        var e := es[i];
        assert es[..i + 1][..i] == es[..i];
        if e.src in keep && e.dst in keep {
          assert e in es && e !in es[..i];
          FilterEdgesElems(es[..i], keep, e);
          var _, _ := AddEdge(e);
        }
      }
      assert es[..|es|] == es;
    }

    lemma IdsDistinct()
      requires Valid()
      ensures forall i, j :: 0 <= i < j < next ==> NodeList()[i].id != NodeList()[j].id
      ensures Distinct(edges)
      ensures forall x :: x in nodes ==> exists i :: 0 <= i < next && NodeList()[i].id == x
    {
      forall i, j | 0 <= i < j < next ensures NodeList()[i].id != NodeList()[j].id {
        assert nodes[byInt[i]].gid == i && nodes[byInt[j]].gid == j;
        assert NodeList()[i].id == byInt[i] && NodeList()[j].id == byInt[j];
      }
      forall x | x in nodes ensures exists i :: 0 <= i < next && NodeList()[i].id == x {
        assert NodeList()[nodes[x].gid].id == x;
      }
    }

    // The graph induced by the nodes within depth hops of the seeds.
    method Subgraph(seeds: seq<Id>, depth: int) returns (out: Graph)
      requires Valid()
      ensures fresh(out) && out.Valid()
      ensures var keep := Within(BothWays(edges, []), Elems(seeds) * nodes.Keys, if depth < 0 then 0 else depth);
              && out.NodeList() == FilterNodes(NodeList(), keep)
              && out.edges == FilterEdges(edges, keep)
    {
      hide Within, FilterNodes, FilterEdges, BothWays;
      var keep := Ball(seeds, depth);
      IdsDistinct();
      out := new Graph();
      var ns := Nodes();
      out.AddKept(ns, keep);
      forall e | e in edges && e.src in keep && e.dst in keep ensures e.src in out.nodes && e.dst in out.nodes {
        var i :| 0 <= i < |ns| && ns[i].id == e.src;
        var j :| 0 <= j < |ns| && ns[j].id == e.dst;
      }
      out.AddInduced(edges, keep);
    }
  }

  lemma Counting(ids: seq<int>, n: int)
    requires Ascending(ids) && n >= 0 && (forall i :: i in Elems(ids) <==> 0 <= i < n)
    ensures |ids| == n && forall k :: 0 <= k < |ids| ==> ids[k] == k
  {
    var all := seq(n, i requires 0 <= i < n => i);
    forall i | 0 <= i < n ensures i in all { assert all[i] == i; }
    assert Elems(all) == Elems(ids);
    AscendingUnique(ids, all);
  }

  // The two searches agree: without a kind filter, Neighbors of a node and the node
  // itself are the node set of the subgraph around it.
  lemma NeighborsAgreeWithSubgraph(ns: seq<Node>, edges: seq<Edge>, seed: Id, depth: nat, res: Result<seq<Id>>)
    requires var ids := seq(|ns|, i requires 0 <= i < |ns| => ns[i].id);
             EdgesWithin(edges, ids) && seed in ids && NeighborsOk(ids, edges, seed, [], depth, res)
    ensures var sub := FilterNodes(ns, Within(BothWays(edges, []), {seed}, depth));
            res.Ok? && Elems(res.value) + {seed} == set n | n in sub :: n.id
  {
    hide Within, FilterNodes, BothWays, EdgesWithin, Ascending;
    var r := BothWays(edges, []);
    var keep := Within(r, {seed}, depth);
    var sub := FilterNodes(ns, keep);
    var ids := seq(|ns|, i requires 0 <= i < |ns| => ns[i].id);
    assert seed in keep by {
      WithinMono(r, {seed}, 0, depth);
      WithinZero(r, {seed});
    }
    forall x | x in keep ensures exists n :: n in sub && n.id == x {
      KeptIsNode(ns, ids, edges, seed, depth, x);
    }
    forall n | n in sub ensures n.id in keep { FilterNodesElems(ns, keep, n); }
  }

  lemma WithinZero(r: Rel, s: set<Id>)
    ensures Within(r, s, 0) == s
  {
  }

  lemma KeptIsNode(ns: seq<Node>, ids: seq<Id>, edges: seq<Edge>, seed: Id, depth: nat, x: Id)
    requires |ids| == |ns| && (forall i :: 0 <= i < |ns| ==> ids[i] == ns[i].id)
    requires EdgesWithin(edges, ids) && seed in ids && x in Within(BothWays(edges, []), {seed}, depth)
    ensures exists n :: n in FilterNodes(ns, Within(BothWays(edges, []), {seed}, depth)) && n.id == x
  {
    hide Within, FilterNodes;
    WithinEndpoints(BothWays(edges, []), seed, x, depth);
    assert x in ids;
    var i :| 0 <= i < |ns| && ids[i] == x;
    FilterNodesElems(ns, Within(BothWays(edges, []), {seed}, depth), ns[i]);
  }
}
