/** The macro graph of a partition: one node per group, weighted edges between groups. */
module Quotients {
  import opened Order
  import opened Walks
  import Kahn
  import Layering
  import Cycles

  type Partition = map<Id, Id>

  // The empty label, which a node without an entry falls under.
  const UNGROUPED: Id := 0

  datatype Group = Group(name: Id, members: seq<Id>, fanIn: nat, fanOut: nat)

  datatype MacroEdge = MacroEdge(src: Id, dst: Id, weight: nat)

  datatype QuotientGraph = QuotientGraph(groups: seq<Group>, edges: seq<MacroEdge>, acyclic: bool)

  function GroupOf(p: Partition, x: Id): Id { if x in p then p[x] else UNGROUPED }

  predicate Crosses(e: Edge, p: Partition) { GroupOf(p, e.src) != GroupOf(p, e.dst) }

  function GroupArc(e: Edge, p: Partition): Arc { Arc(GroupOf(p, e.src), GroupOf(p, e.dst)) }

  // The group pairs of the edges between groups, one for each edge.
  ghost function Crossings(es: seq<Edge>, p: Partition): seq<Arc> {
    if es == [] then []
    else
      var n := |es| - 1;
      Crossings(es[..n], p) + (if Crosses(es[n], p) then [GroupArc(es[n], p)] else [])
  }

  ghost function Macro(r: Rel, p: Partition): Rel {
    set e | e in r && GroupOf(p, e.src) != GroupOf(p, e.dst) :: Arc(GroupOf(p, e.src), GroupOf(p, e.dst))
  }

  lemma {:induction false} CrossingsElems(es: seq<Edge>, p: Partition)
    ensures Elems(Crossings(es, p)) == Macro(ArcsOf(es), p)
  {
    if es != [] {
      var n := |es| - 1;
      CrossingsElems(es[..n], p);
      assert es == es[..n] + [es[n]];
      assert ArcsOf(es) == ArcsOf(es[..n]) + {Arc(es[n].src, es[n].dst)};
      assert Elems(Crossings(es, p)) ==
             Elems(Crossings(es[..n], p)) + (if Crosses(es[n], p) then {GroupArc(es[n], p)} else {});
    }
  }

  function EndOf(a: Arc, out: bool): Id { if out then a.src else a.dst }

  ghost function Ends(keys: seq<Arc>, out: bool): (s: seq<Id>)
    ensures |s| == |keys| && forall i :: 0 <= i < |keys| ==> s[i] == EndOf(keys[i], out)
  {
    seq(|keys|, i requires 0 <= i < |keys| => EndOf(keys[i], out))
  }

  // ---- What a quotient promises ----

  ghost predicate GroupOk(nodes: seq<Id>, keys: seq<Arc>, p: Partition, g: Group) {
    && g.members != [] && Ascending(g.members)
    && (forall x :: x in g.members <==> x in nodes && GroupOf(p, x) == g.name)
    && g.fanOut == multiset(Ends(keys, true))[g.name]
    && g.fanIn == multiset(Ends(keys, false))[g.name]
  }

  ghost predicate GroupsOk(nodes: seq<Id>, keys: seq<Arc>, p: Partition, groups: seq<Group>) {
    && (forall i, j :: 0 <= i < j < |groups| ==> groups[i].name < groups[j].name)
    && (forall x :: x in nodes ==> exists i :: 0 <= i < |groups| && groups[i].name == GroupOf(p, x))
    && (forall g :: g in groups ==> GroupOk(nodes, keys, p, g))
  }

  predicate MacroLe(a: MacroEdge, b: MacroEdge) {
    a.src < b.src || (a.src == b.src && a.dst <= b.dst)
  }

  ghost predicate MacroEdgesOk(keys: seq<Arc>, edges: seq<MacroEdge>) {
    && (forall i, j :: 0 <= i < j < |edges| ==> MacroLe(edges[i], edges[j]) && Pair(edges[i]) != Pair(edges[j]))
    && (forall a :: a in keys ==> exists i :: 0 <= i < |edges| && Pair(edges[i]) == a)
    && (forall e :: e in edges ==> e.weight > 0 && e.weight == multiset(keys)[Pair(e)])
  }

  function Pair(e: MacroEdge): Arc { Arc(e.src, e.dst) }

  ghost predicate QuotientOk(nodes: seq<Id>, es: seq<Edge>, p: Partition, q: QuotientGraph) {
    && GroupsOk(nodes, Crossings(es, p), p, q.groups)
    && MacroEdgesOk(Crossings(es, p), q.edges)
    && (q.acyclic <==> !HasCycle(Macro(ArcsOf(es), p)))
  }

  // ---- Members ----

  method Members(nodes: seq<Id>, p: Partition) returns (members: map<Id, seq<Id>>)
    requires Distinct(nodes)
    ensures forall x :: x in nodes ==> GroupOf(p, x) in members
    ensures forall g :: g in members ==> members[g] != [] && Distinct(members[g])
    ensures forall g, x :: g in members ==> (x in members[g] <==> x in nodes && GroupOf(p, x) == g)
  {
    members := map[];
    for i := 0 to |nodes|
      invariant forall x :: x in nodes[..i] ==> GroupOf(p, x) in members
      invariant forall g :: g in members ==> members[g] != [] && Distinct(members[g])
      invariant forall g, x :: g in members ==> (x in members[g] <==> x in nodes[..i] && GroupOf(p, x) == g)
    {
      assert nodes[..i + 1] == nodes[..i] + [nodes[i]];
      assert nodes[i] !in nodes[..i];
      var g := GroupOf(p, nodes[i]);
      members := members[g := (if g in members then members[g] else []) + [nodes[i]]];
    }
    assert nodes[..|nodes|] == nodes;
  }

  // ---- Weights and fans ----

  method CountPairs(es: seq<Edge>, p: Partition) returns (w: map<Arc, nat>)
    ensures w.Keys == Elems(Crossings(es, p))
    ensures forall a :: a in w ==> w[a] > 0 && w[a] == multiset(Crossings(es, p))[a]
  {
    w := map[];
    for i := 0 to |es|
      invariant w.Keys == Elems(Crossings(es[..i], p))
      invariant forall a :: a in w ==> w[a] > 0 && w[a] == multiset(Crossings(es[..i], p))[a]
    {
      assert es[..i + 1][..i] == es[..i];
      ghost var keys := Crossings(es[..i], p);
      if Crosses(es[i], p) {
        var a := GroupArc(es[i], p);
        assert a !in w ==> a !in keys && multiset(keys)[a] == 0;
        assert Crossings(es[..i + 1], p) == keys + [a];
        w := w[a := (if a in w then w[a] else 0) + 1];
      } else {
        assert Crossings(es[..i + 1], p) == keys;
      }
    }
    assert es[..|es|] == es;
  }

  // The keys counted so far at group g, when the pairs in done have been added up.
  ghost function Tally(keys: seq<Arc>, done: set<Arc>, g: Id, out: bool): nat {
    if keys == [] then 0
    else
      var n := |keys| - 1;
      Tally(keys[..n], done, g, out) + (if keys[n] in done && EndOf(keys[n], out) == g then 1 else 0)
  }

  lemma {:induction false} TallyStep(keys: seq<Arc>, done: set<Arc>, a: Arc, g: Id, out: bool)
    requires a !in done
    ensures Tally(keys, done + {a}, g, out) ==
            Tally(keys, done, g, out) + (if EndOf(a, out) == g then multiset(keys)[a] else 0)
  {
    if keys != [] {
      var n := |keys| - 1;
      TallyStep(keys[..n], done, a, g, out);
      assert keys == keys[..n] + [keys[n]];
    }
  }

  lemma {:induction false} TallyAll(keys: seq<Arc>, done: set<Arc>, g: Id, out: bool)
    requires Elems(keys) <= done
    ensures Tally(keys, done, g, out) == multiset(Ends(keys, out))[g]
  {
    if keys != [] {
      var n := |keys| - 1;
      assert keys[n] in Elems(keys);
      assert Elems(keys[..n]) <= Elems(keys);
      TallyAll(keys[..n], done, g, out);
      assert Ends(keys, out) == Ends(keys[..n], out) + [EndOf(keys[n], out)];
    }
  }

  lemma {:induction false} TallyNone(keys: seq<Arc>, g: Id, out: bool)
    ensures Tally(keys, {}, g, out) == 0
  {
    if keys != [] { TallyNone(keys[..|keys| - 1], g, out); }
  }

  // A Go map of counts: a missing key reads as zero.
  function CountAt(m: map<Id, nat>, g: Id): nat { if g in m then m[g] else 0 }

  // Adds the weights up at both ends; the pairs come in any order.
  method Fans(ghost keys: seq<Arc>, w: map<Arc, nat>) returns (fanIn: map<Id, nat>, fanOut: map<Id, nat>)
    requires w.Keys == Elems(keys) && forall a :: a in w ==> w[a] == multiset(keys)[a]
    ensures forall g :: CountAt(fanOut, g) == multiset(Ends(keys, true))[g]
    ensures forall g :: CountAt(fanIn, g) == multiset(Ends(keys, false))[g]
  {
    hide Tallied, CountAt;
    fanIn, fanOut := map[], map[];
    var todo := w.Keys;
    ghost var done: set<Arc> := {};
    TalliedNone(keys, true);
    TalliedNone(keys, false);
    while todo != {}
      invariant done + todo == w.Keys && done !! todo
      invariant Tallied(keys, done, fanOut, true) && Tallied(keys, done, fanIn, false)
      decreases |todo|
    {
      var a :| a in todo;
      TalliedMore(keys, done, fanOut, true, a);
      TalliedMore(keys, done, fanIn, false, a);
      fanOut := fanOut[a.src := CountAt(fanOut, a.src) + w[a]];
      fanIn := fanIn[a.dst := CountAt(fanIn, a.dst) + w[a]];
      todo, done := todo - {a}, done + {a};
    }
    assert done == Elems(keys);
    TalliedAll(keys, done, fanOut, true);
    TalliedAll(keys, done, fanIn, false);
  }

  // The counts cover the pairs in done.
  ghost predicate Tallied(keys: seq<Arc>, done: set<Arc>, counts: map<Id, nat>, out: bool) {
    forall g :: CountAt(counts, g) == Tally(keys, done, g, out)
  }

  lemma TalliedNone(keys: seq<Arc>, out: bool)
    ensures Tallied(keys, {}, map[], out)
  {
    forall g ensures Tally(keys, {}, g, out) == 0 { TallyNone(keys, g, out); }
  }

  lemma TalliedMore(keys: seq<Arc>, done: set<Arc>, counts: map<Id, nat>, out: bool, a: Arc)
    requires Tallied(keys, done, counts, out) && a !in done
    ensures var g := EndOf(a, out);
            Tallied(keys, done + {a}, counts[g := CountAt(counts, g) + multiset(keys)[a]], out)
  {
    hide Tally;
    forall g { TallyStep(keys, done, a, g, out); }
  }

  lemma TalliedAll(keys: seq<Arc>, done: set<Arc>, counts: map<Id, nat>, out: bool)
    requires Tallied(keys, done, counts, out) && Elems(keys) <= done
    ensures forall g :: CountAt(counts, g) == multiset(Ends(keys, out))[g]
  {
    hide Tally;
    forall g ensures CountAt(counts, g) == multiset(Ends(keys, out))[g] { TallyAll(keys, done, g, out); }
  }

  lemma SortedMembers(nodes: seq<Id>, keys: seq<Arc>, p: Partition, mem: seq<Id>, g: Group)
    requires mem != [] && Distinct(mem) && g.members == SortIds(mem)
    requires forall x :: x in mem <==> x in nodes && GroupOf(p, x) == g.name
    requires g.fanOut == multiset(Ends(keys, true))[g.name] && g.fanIn == multiset(Ends(keys, false))[g.name]
    ensures GroupOk(nodes, keys, p, g)
  {
    SameElems(mem, g.members);
    forall i, j | 0 <= i < j < |g.members| ensures g.members[i] < g.members[j] { }
  }

  method ListGroups(ghost nodes: seq<Id>, ghost keys: seq<Arc>, ghost p: Partition, members: map<Id, seq<Id>>,
                    fanIn: map<Id, nat>, fanOut: map<Id, nat>) returns (names: seq<Id>, groups: seq<Group>)
    requires forall x :: x in nodes ==> GroupOf(p, x) in members
    requires forall g :: g in members ==> members[g] != [] && Distinct(members[g])
    requires forall g, x :: g in members ==> (x in members[g] <==> x in nodes && GroupOf(p, x) == g)
    requires forall g :: CountAt(fanOut, g) == multiset(Ends(keys, true))[g]
    requires forall g :: CountAt(fanIn, g) == multiset(Ends(keys, false))[g]
    ensures GroupsOk(nodes, keys, p, groups)
    ensures Ascending(names) && Elems(names) == members.Keys && |names| == |groups|
  {
    hide GroupOk, GroupsOk, SortIds, Ends, CountAt, Ascending, GroupOf;
    names := SortedSeq(members.Keys);
    groups := [];
    for i := 0 to |names|
      invariant |groups| == i && forall k :: 0 <= k < i ==> groups[k].name == names[k]
      invariant forall g :: g in groups ==> GroupOk(nodes, keys, p, g)
    {
      var g := names[i];
      assert g in Elems(names);
      var group := Group(g, SortIds(members[g]), CountAt(fanIn, g), CountAt(fanOut, g));
      SortedMembers(nodes, keys, p, members[g], group);
      groups := groups + [group];
    }
    AllNamed(nodes, keys, p, names, groups);
  }

  lemma AllNamed(nodes: seq<Id>, keys: seq<Arc>, p: Partition, names: seq<Id>, groups: seq<Group>)
    requires Ascending(names) && |groups| == |names| && forall k :: 0 <= k < |names| ==> groups[k].name == names[k]
    requires forall g :: g in groups ==> GroupOk(nodes, keys, p, g)
    requires forall x :: x in nodes ==> GroupOf(p, x) in Elems(names)
    ensures GroupsOk(nodes, keys, p, groups)
  {
    hide GroupOk;
    forall x | x in nodes ensures exists i :: 0 <= i < |groups| && groups[i].name == GroupOf(p, x) {
      assert GroupOf(p, x) in Elems(names);
      var i :| 0 <= i < |names| && names[i] == GroupOf(p, x);
      assert groups[i].name == GroupOf(p, x);
    }
  }

  // One macro edge for each pair, in whatever order the map yields them.
  method CollectEdges(w: map<Arc, nat>) returns (out: seq<MacroEdge>)
    ensures forall i, j :: 0 <= i < j < |out| ==> Pair(out[i]) != Pair(out[j])
    ensures forall e :: e in out ==> Pair(e) in w && e.weight == w[Pair(e)]
    ensures forall a :: a in w ==> MacroEdge(a.src, a.dst, w[a]) in out
  {
    out := [];
    var todo := w.Keys;
    while todo != {}
      invariant todo <= w.Keys
      invariant forall i, j :: 0 <= i < j < |out| ==> Pair(out[i]) != Pair(out[j])
      invariant forall e :: e in out ==> Pair(e) in w.Keys - todo && e.weight == w[Pair(e)]
      invariant forall a :: a in w.Keys - todo ==> MacroEdge(a.src, a.dst, w[a]) in out
      decreases |todo|
    {
      var a :| a in todo;
      out := out + [MacroEdge(a.src, a.dst, w[a])];
      todo := todo - {a};
    }
  }

  lemma SortedEdges(keys: seq<Arc>, w: map<Arc, nat>, out: seq<MacroEdge>, edges: seq<MacroEdge>)
    requires w.Keys == Elems(keys)
    requires forall a :: a in w ==> w[a] > 0 && w[a] == multiset(keys)[a]
    requires forall i, j :: 0 <= i < j < |out| ==> Pair(out[i]) != Pair(out[j])
    requires forall e :: e in out ==> Pair(e) in w && e.weight == w[Pair(e)]
    requires forall a :: a in w ==> MacroEdge(a.src, a.dst, w[a]) in out
    requires multiset(edges) == multiset(out) && SortedBy(edges, MacroLe)
    ensures MacroEdgesOk(keys, edges)
  {
    SameElems(out, edges);
    forall i, j | 0 <= i < j < |edges| ensures MacroLe(edges[i], edges[j]) && Pair(edges[i]) != Pair(edges[j]) {
      assert edges[i] in out && edges[j] in out;
      assert edges[i] != edges[j];
    }
    forall a | a in keys ensures exists i :: 0 <= i < |edges| && Pair(edges[i]) == a {
      assert a in w.Keys;
      assert MacroEdge(a.src, a.dst, w[a]) in edges;
    }
  }

  method ListEdges(ghost keys: seq<Arc>, w: map<Arc, nat>) returns (edges: seq<MacroEdge>)
    requires w.Keys == Elems(keys)
    requires forall a :: a in w ==> w[a] > 0 && w[a] == multiset(keys)[a]
    ensures MacroEdgesOk(keys, edges)
  {
    hide MacroEdgesOk, SortedBy;
    var out := CollectEdges(w);
    edges := StableSort(out, MacroLe);
    SortedEdges(keys, w, out, edges);
  }

  method QuotientAcyclic(names: seq<Id>, edges: seq<MacroEdge>) returns (acyclic: bool)
    requires Ascending(names) && forall e :: e in edges ==> e.src in names && e.dst in names
    ensures acyclic <==> !HasCycle(NoLoops(set e | e in edges :: Pair(e)))
  {
    var arcs: seq<Arc> := [];
    for i := 0 to |edges|
      invariant |arcs| == i && forall k :: 0 <= k < i ==> arcs[k] == Pair(edges[k])
    {
      arcs := arcs + [Pair(edges[i])];
    }
    assert Elems(arcs) == set e | e in edges :: Pair(e) by {
      forall a | a in Elems(arcs) ensures a in set e | e in edges :: Pair(e) {
        var k :| 0 <= k < |arcs| && arcs[k] == a;
        assert edges[k] in edges;
      }
      forall e | e in edges ensures Pair(e) in arcs {
        var k :| 0 <= k < |edges| && edges[k] == e;
        assert arcs[k] == Pair(e);
      }
    }
    assert Kahn.Within(arcs, names) by {
      forall a | a in arcs ensures a.src in names && a.dst in names {
        assert a in Elems(arcs);
      }
    }
    var order := Kahn.Drain(names, arcs, false);
    Kahn.KahnCompleteIff(names, NoLoops(Elems(arcs)), order);
    acyclic := |order| == |names|;
  }

  method Quotient(nodes: seq<Id>, es: seq<Edge>, p: Partition) returns (q: QuotientGraph)
    requires Distinct(nodes) && EdgesWithin(es, nodes)
    ensures QuotientOk(nodes, es, p, q)
  {
    hide GroupsOk, HasCycle;
    ghost var keys := Crossings(es, p);
    var members := Members(nodes, p);
    var w := CountPairs(es, p);
    var fanIn, fanOut := Fans(keys, w);
    var names, groups := ListGroups(nodes, keys, p, members, fanIn, fanOut);
    var edges := ListEdges(keys, w);
    MacroArcs(es, p, edges);
    forall e | e in edges ensures e.src in names && e.dst in names {
      CrossingEnds(nodes, es, p, Pair(e));
      assert e.src in members.Keys && e.dst in members.Keys;
    }
    var acyclic := QuotientAcyclic(names, edges);
    q := QuotientGraph(groups, edges, acyclic);
  }

  // The listed edges are the macro relation, which has no loops.
  lemma MacroArcs(es: seq<Edge>, p: Partition, edges: seq<MacroEdge>)
    requires MacroEdgesOk(Crossings(es, p), edges)
    ensures (set e | e in edges :: Pair(e)) == Macro(ArcsOf(es), p)
    ensures NoLoops(Macro(ArcsOf(es), p)) == Macro(ArcsOf(es), p)
    ensures forall e :: e in edges ==> Pair(e) in Macro(ArcsOf(es), p)
  {
    var keys := Crossings(es, p);
    CrossingsElems(es, p);
    forall e | e in edges ensures Pair(e) in keys { assert multiset(keys)[Pair(e)] > 0; }
    forall a | a in Macro(ArcsOf(es), p) ensures a in set e | e in edges :: Pair(e) {
      assert a in Elems(keys);
      var i :| 0 <= i < |edges| && Pair(edges[i]) == a;
      assert edges[i] in edges;
    }
    forall e | e in edges ensures Pair(e) in Macro(ArcsOf(es), p) {
      assert Pair(e) in Elems(keys);
    }
  }

  lemma CrossingEnds(nodes: seq<Id>, es: seq<Edge>, p: Partition, a: Arc)
    requires EdgesWithin(es, nodes) && a in Macro(ArcsOf(es), p)
    ensures exists x, y :: x in nodes && y in nodes && a == Arc(GroupOf(p, x), GroupOf(p, y))
  {
    var b :| b in ArcsOf(es) && a == Arc(GroupOf(p, b.src), GroupOf(p, b.dst));
    assert b.src in nodes && b.dst in nodes;
  }

  // ---- Conservation: weights, fan-ins and fan-outs all count the crossing edges ----

  ghost function Sum(s: seq<nat>): nat {
    if s == [] then 0 else Sum(s[..|s| - 1]) + s[|s| - 1]
  }

  lemma {:induction false} SumOfCounts<T>(keys: seq<T>, counts: seq<nat>, m: multiset<T>)
    requires Distinct(keys) && |counts| == |keys|
    requires forall i :: 0 <= i < |keys| ==> counts[i] == m[keys[i]]
    requires forall x :: x in m ==> x in keys
    ensures Sum(counts) == |m|
  {
    if keys == [] {
      assert m == multiset{};
    } else {
      var n := |keys| - 1;
      var rest := m[keys[n] := 0];
      assert m == rest + multiset{}[keys[n] := m[keys[n]]];
      SumOfCounts(keys[..n], counts[..n], rest);
    }
  }

  ghost function Weights(edges: seq<MacroEdge>): (s: seq<nat>)
    ensures |s| == |edges| && forall i :: 0 <= i < |edges| ==> s[i] == edges[i].weight
  {
    seq(|edges|, i requires 0 <= i < |edges| => edges[i].weight)
  }

  ghost function FanCounts(groups: seq<Group>, out: bool): (s: seq<nat>)
    ensures |s| == |groups|
    ensures forall i :: 0 <= i < |groups| ==> s[i] == if out then groups[i].fanOut else groups[i].fanIn
  {
    seq(|groups|, i requires 0 <= i < |groups| => if out then groups[i].fanOut else groups[i].fanIn)
  }

  lemma WeightsConserve(es: seq<Edge>, p: Partition, edges: seq<MacroEdge>)
    requires MacroEdgesOk(Crossings(es, p), edges)
    ensures Sum(Weights(edges)) == |Crossings(es, p)|
  {
    var keys := Crossings(es, p);
    var pairs := seq(|edges|, i requires 0 <= i < |edges| => Pair(edges[i]));
    forall i | 0 <= i < |pairs| ensures Weights(edges)[i] == multiset(keys)[pairs[i]] { assert edges[i] in edges; }
    forall a | a in multiset(keys) ensures a in pairs {
      assert a in keys;
      var i :| 0 <= i < |edges| && Pair(edges[i]) == a;
      assert pairs[i] == a;
    }
    SumOfCounts(pairs, Weights(edges), multiset(keys));
  }

  lemma FansConserve(nodes: seq<Id>, es: seq<Edge>, p: Partition, groups: seq<Group>, out: bool)
    requires EdgesWithin(es, nodes) && GroupsOk(nodes, Crossings(es, p), p, groups)
    ensures Sum(FanCounts(groups, out)) == |Crossings(es, p)|
  {
    var keys := Crossings(es, p);
    var m := multiset(Ends(keys, out));
    var names := seq(|groups|, i requires 0 <= i < |groups| => groups[i].name);
    forall i | 0 <= i < |names| ensures FanCounts(groups, out)[i] == m[names[i]] { assert groups[i] in groups; }
    CrossingsElems(es, p);
    forall x | x in m ensures x in names {
      assert x in Ends(keys, out);
      var i :| 0 <= i < |keys| && Ends(keys, out)[i] == x;
      assert keys[i] in Elems(keys);
      CrossingEnds(nodes, es, p, keys[i]);
      var a, b :| a in nodes && b in nodes && keys[i] == Arc(GroupOf(p, a), GroupOf(p, b));
      var k :| 0 <= k < |groups| && groups[k].name == GroupOf(p, if out then a else b);
      assert names[k] == x;
    }
    SumOfCounts(names, FanCounts(groups, out), m);
    assert |m| == |keys|;
  }

  lemma QuotientConserves(nodes: seq<Id>, es: seq<Edge>, p: Partition, q: QuotientGraph)
    requires EdgesWithin(es, nodes) && QuotientOk(nodes, es, p, q)
    ensures Sum(Weights(q.edges)) == |Crossings(es, p)|
    ensures Sum(FanCounts(q.groups, true)) == |Crossings(es, p)|
    ensures Sum(FanCounts(q.groups, false)) == |Crossings(es, p)|
  {
    WeightsConserve(es, p, q.edges);
    FansConserve(nodes, es, p, q.groups, true);
    FansConserve(nodes, es, p, q.groups, false);
  }

  // ---- Where the cycles are ----

  lemma MacroReach(r: Rel, p: Partition, a: Id, b: Id)
    requires Reach(r, a, b)
    ensures Reach(Macro(r, p), GroupOf(p, a), GroupOf(p, b))
  {
    var m := Macro(r, p);
    var w :| WalkFromTo(r, w, a, b);
    ReachRefl(m, GroupOf(p, a));
    var i := 0;
    while i < |w| - 1
      invariant 0 <= i < |w| && Reach(m, GroupOf(p, a), GroupOf(p, w[i]))
    {
      assert Step(r, w, i);
      var x, y := GroupOf(p, w[i]), GroupOf(p, w[i + 1]);
      if x != y {
        assert Arc(w[i], w[i + 1]) in r && Arc(x, y) in m;
        ReachEdge(m, x, y);
        ReachTrans(m, GroupOf(p, a), x, y);
      }
      i := i + 1;
    }
  }

  lemma MutualStaysInside(r: Rel, p: Partition, a: Id, b: Id)
    requires !HasCycle(Macro(r, p)) && Mutual(r, a, b)
    ensures GroupOf(p, a) == GroupOf(p, b)
  {
    var m := Macro(r, p);
    var x, y := GroupOf(p, a), GroupOf(p, b);
    MacroReach(r, p, a, b);
    MacroReach(r, p, b, a);
    if x != y {
      ReachFirst(m, x, y);
      ReachPlusTrans(m, x, y, x);
    }
  }

  // If the quotient is acyclic, every reported cycle lies inside one group.
  lemma AcyclicKeepsCyclesInside(nodes: seq<Id>, es: seq<Edge>, p: Partition, q: QuotientGraph,
                                 cycles: seq<seq<Id>>, k: nat, a: Id, b: Id)
    requires QuotientOk(nodes, es, p, q) && q.acyclic
    requires Cycles.CycleList(ArcsOf(es), cycles) && k < |cycles| && a in cycles[k] && b in cycles[k]
    ensures GroupOf(p, a) == GroupOf(p, b)
  {
    assert a in Elems(cycles[k]) && b in Elems(cycles[k]);
    MutualStaysInside(ArcsOf(es), p, a, b);
  }

  // The edges and every step from a node to one of its group.
  ghost function Blurred(nodes: seq<Id>, r: Rel, p: Partition): Rel {
    r + set x, y | x in nodes && y in nodes && GroupOf(p, x) == GroupOf(p, y) :: Arc(x, y)
  }

  // A way between groups is a way between any of their nodes, if steps inside groups count.
  lemma MacroLift(nodes: seq<Id>, r: Rel, p: Partition, x: Id, y: Id)
    requires forall e :: e in r ==> e.src in nodes && e.dst in nodes
    requires x in nodes && y in nodes && Reach(Macro(r, p), GroupOf(p, x), GroupOf(p, y))
    ensures Reach(Blurred(nodes, r, p), x, y)
  {
    hide GroupOf;
    var m, b := Macro(r, p), Blurred(nodes, r, p);
    var w :| WalkFromTo(m, w, GroupOf(p, x), GroupOf(p, y));
    var at, i := x, 0;
    ReachRefl(b, x);
    while i < |w| - 1
      invariant 0 <= i < |w| && at in nodes && GroupOf(p, at) == w[i] && Reach(b, x, at)
    {
      assert Step(m, w, i);
      var e :| e in r && GroupOf(p, e.src) == w[i] && GroupOf(p, e.dst) == w[i + 1];
      assert Arc(at, e.src) in b && Arc(e.src, e.dst) in b;
      ReachEdge(b, at, e.src);
      ReachTrans(b, x, at, e.src);
      ReachEdge(b, e.src, e.dst);
      ReachTrans(b, x, e.src, e.dst);
      at, i := e.dst, i + 1;
    }
    assert Arc(at, y) in b;
    ReachEdge(b, at, y);
    ReachTrans(b, x, at, y);
  }

  // Mutual reachability, with steps inside groups, joins no two groups.
  ghost predicate StaysInGroups(nodes: seq<Id>, r: Rel, p: Partition) {
    forall a, b :: a in nodes && b in nodes && Mutual(Blurred(nodes, r, p), a, b) ==> GroupOf(p, a) == GroupOf(p, b)
  }

  lemma MacroOfBlurred(nodes: seq<Id>, r: Rel, p: Partition)
    ensures Macro(Blurred(nodes, r, p), p) == Macro(r, p)
  {
    var b := Blurred(nodes, r, p);
    forall e | e in b && GroupOf(p, e.src) != GroupOf(p, e.dst) ensures e in r { }
    forall a | a in Macro(r, p) ensures a in Macro(b, p) {
      var e :| e in r && GroupOf(p, e.src) != GroupOf(p, e.dst) && a == Arc(GroupOf(p, e.src), GroupOf(p, e.dst));
      assert e in b;
    }
  }

  lemma MacroCycleJoins(nodes: seq<Id>, r: Rel, p: Partition)
    requires forall e :: e in r ==> e.src in nodes && e.dst in nodes
    requires HasCycle(Macro(r, p))
    ensures !StaysInGroups(nodes, r, p)
  {
    hide GroupOf, Blurred;
    var m := Macro(r, p);
    var g :| ReachPlus(m, g, g);
    var h :| Arc(g, h) in m && Reach(m, h, g);
    var e :| e in r && GroupOf(p, e.src) == g && GroupOf(p, e.dst) == h && g != h;
    ReachEdge(m, g, h);
    MacroLift(nodes, r, p, e.src, e.dst);
    MacroLift(nodes, r, p, e.dst, e.src);
  }

  // The quotient is acyclic exactly if no two groups are joined that way.
  lemma QuotientAcyclicIff(nodes: seq<Id>, es: seq<Edge>, p: Partition, q: QuotientGraph)
    requires EdgesWithin(es, nodes) && QuotientOk(nodes, es, p, q)
    ensures q.acyclic <==> StaysInGroups(nodes, ArcsOf(es), p)
  {
    hide GroupOf, Blurred, Macro, HasCycle, GroupsOk, MacroEdgesOk;
    var r := ArcsOf(es);
    MacroOfBlurred(nodes, r, p);
    if HasCycle(Macro(r, p)) {
      MacroCycleJoins(nodes, r, p);
    } else {
      forall a, b | a in nodes && b in nodes && Mutual(Blurred(nodes, r, p), a, b)
        ensures GroupOf(p, a) == GroupOf(p, b)
      {
        MutualStaysInside(Blurred(nodes, r, p), p, a, b);
      }
    }
  }

  // So groups can form a cycle when no nodes do.
  lemma MacroCycleWithoutCycle()
    ensures var r := {Arc(1, 3), Arc(4, 2)};
            var p := map[1 := 10, 2 := 10, 3 := 20, 4 := 20];
            !HasCycle(r) && HasCycle(Macro(r, p))
  {
    var r: Rel := {Arc(1, 3), Arc(4, 2)};
    var p := map[1 := 10, 2 := 10, 3 := 20, 4 := 20];
    var m := Macro(r, p);
    if a :| ReachPlus(r, a, a) {
      var c :| Arc(a, c) in r && Reach(r, c, a);
      ReachClosed(r, {c}, c, a);
    }
    assert Arc(GroupOf(p, 1), GroupOf(p, 3)) in m && Arc(GroupOf(p, 4), GroupOf(p, 2)) in m;
    ReachEdge(m, 20, 10);
    assert ReachPlus(m, 10, 10);
  }

  // Grouping by strongly connected component is always acyclic.
  lemma QuotientBySccIsAcyclic(nodes: seq<Id>, es: seq<Edge>, comp: map<Id, int>, q: QuotientGraph)
    requires EdgesWithin(es, nodes) && Layering.ComponentMap(nodes, ArcsOf(es), comp)
    requires QuotientOk(nodes, es, comp, q)
    ensures q.acyclic
  {
    var r := ArcsOf(es);
    assert Macro(r, comp) == Layering.Condense(r, comp) by {
      forall e | e in r ensures e.src in comp && e.dst in comp { assert e.src in nodes && e.dst in nodes; }
    }
    Layering.CondensationAcyclic(nodes, r, comp);
  }

  // ---- Fans and weights counted on the edges ----

  // The number of edges that lead from one group to another, or out of or into a group.
  ghost function CountFrom(es: seq<Edge>, p: Partition, g: Id): nat {
    if es == [] then 0
    else
      var n := |es| - 1;
      CountFrom(es[..n], p, g)
      + (if GroupOf(p, es[n].src) == g && GroupOf(p, es[n].dst) != g then 1 else 0)
  }

  ghost function CountInto(es: seq<Edge>, p: Partition, g: Id): nat {
    if es == [] then 0
    else
      var n := |es| - 1;
      CountInto(es[..n], p, g)
      + (if GroupOf(p, es[n].src) != g && GroupOf(p, es[n].dst) == g then 1 else 0)
  }

  ghost function CountBetween(es: seq<Edge>, p: Partition, g: Id, h: Id): nat {
    if es == [] then 0
    else
      var n := |es| - 1;
      CountBetween(es[..n], p, g, h)
      + (if GroupOf(p, es[n].src) == g && GroupOf(p, es[n].dst) == h then 1 else 0)
  }

  lemma {:induction false} EndsCount(es: seq<Edge>, p: Partition, g: Id)
    ensures multiset(Ends(Crossings(es, p), true))[g] == CountFrom(es, p, g)
    ensures multiset(Ends(Crossings(es, p), false))[g] == CountInto(es, p, g)
  {
    hide GroupOf;
    if es == [] {
      assert Ends([], true) == [] && Ends([], false) == [];
    } else {
      var n := |es| - 1;
      var keys := Crossings(es[..n], p);
      EndsCount(es[..n], p, g);
      if Crosses(es[n], p) {
        EndsSnoc(keys, GroupArc(es[n], p));
      } else {
        assert Crossings(es, p) == keys;
      }
    }
  }

  lemma EndsSnoc(keys: seq<Arc>, a: Arc)
    ensures Ends(keys + [a], true) == Ends(keys, true) + [a.src]
    ensures Ends(keys + [a], false) == Ends(keys, false) + [a.dst]
  {
  }

  lemma {:induction false} PairsCount(es: seq<Edge>, p: Partition, g: Id, h: Id)
    requires g != h
    ensures multiset(Crossings(es, p))[Arc(g, h)] == CountBetween(es, p, g, h)
  {
    hide GroupOf;
    if es != [] {
      var n := |es| - 1;
      PairsCount(es[..n], p, g, h);
      if !Crosses(es[n], p) { assert Crossings(es, p) == Crossings(es[..n], p); }
    }
  }

  // A group's fan-out is the number of edges that leave it, its fan-in the number of those
  // that enter it; its members are the nodes with its name, or with none for the empty name.
  lemma FansCountEdges(nodes: seq<Id>, es: seq<Edge>, p: Partition, q: QuotientGraph, g: Group)
    requires QuotientOk(nodes, es, p, q) && g in q.groups
    ensures g.fanOut == CountFrom(es, p, g.name) && g.fanIn == CountInto(es, p, g.name)
    ensures forall x :: x in g.members <==> x in nodes && (if x in p then p[x] == g.name else g.name == 0)
  {
    hide CountFrom, CountInto, Ends, MacroEdgesOk, HasCycle;
    EndsCount(es, p, g.name);
  }

  // The weight between two groups is the number of edges from one to the other, and there
  // is a macro edge exactly if there is such an edge.
  lemma WeightsCountEdges(nodes: seq<Id>, es: seq<Edge>, p: Partition, q: QuotientGraph, g: Id, h: Id)
    requires QuotientOk(nodes, es, p, q) && g != h
    ensures (exists e :: e in q.edges && e.src == g && e.dst == h) <==> CountBetween(es, p, g, h) > 0
    ensures forall e :: e in q.edges && e.src == g && e.dst == h ==> e.weight == CountBetween(es, p, g, h)
    ensures forall e :: e in q.edges ==> e.src != e.dst
  {
    hide CountBetween, GroupOk, HasCycle, GroupOf;
    var keys := Crossings(es, p);
    PairsCount(es, p, g, h);
    forall e | e in q.edges && e.src == g && e.dst == h ensures e.weight == CountBetween(es, p, g, h) {
      assert Pair(e) == Arc(g, h);
    }
    if multiset(keys)[Arc(g, h)] > 0 {
      assert Arc(g, h) in keys;
      var i :| 0 <= i < |q.edges| && Pair(q.edges[i]) == Arc(g, h);
      assert q.edges[i] in q.edges;
    }
    MacroArcs(es, p, q.edges);
    forall e | e in q.edges ensures e.src != e.dst { assert Pair(e) in Macro(ArcsOf(es), p); }
  }

  // The macro edges ascend by source and then by destination, each pair once.
  lemma MacroEdgesAscend(nodes: seq<Id>, es: seq<Edge>, p: Partition, q: QuotientGraph)
    requires QuotientOk(nodes, es, p, q)
    ensures forall i, j :: 0 <= i < j < |q.edges| ==>
              q.edges[i].src < q.edges[j].src || (q.edges[i].src == q.edges[j].src && q.edges[i].dst < q.edges[j].dst)
  {
    hide GroupsOk, HasCycle;
    forall i, j | 0 <= i < j < |q.edges|
      ensures MacroLe(q.edges[i], q.edges[j]) && Pair(q.edges[i]) != Pair(q.edges[j])
    {
    }
  }
}
