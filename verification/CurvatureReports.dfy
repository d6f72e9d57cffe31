/** The curvature report of the command line and the curvature metric, computed. */
module CurvatureReports {
  import opened Order
  import opened Walks
  import opened Text
  import opened Curvature

  // ---- The report ----

  datatype CurvEdge = CurvEdge(src: Id, dst: Id, kappa: int)

  datatype Report = Report(nNodes: nat, nEdges: nat, edges: seq<CurvEdge>, negative: seq<CurvEdge>,
                           positive: seq<CurvEdge>)

  function Pair(c: CurvEdge): Arc { Norm(c.src, c.dst) }

  predicate KappaLe(a: CurvEdge, b: CurvEdge) {
    if a.kappa != b.kappa then a.kappa < b.kappa
    else if a.src != b.src then a.src < b.src
    else a.dst <= b.dst
  }

  // The orientation is that of the first edge that links the pair.
  ghost predicate FirstLink(edges: seq<Edge>, known: set<Id>, link: Arc) {
    exists i :: 0 <= i < |edges| && Joins(edges[i], known) && link == Arc(edges[i].src, edges[i].dst)
                && forall j :: 0 <= j < i && Joins(edges[j], known) ==>
                     Norm(edges[j].src, edges[j].dst) != Norm(link.src, link.dst)
  }

  // One entry for each projected edge, with its curvature.
  ghost predicate OnePerEdge(p: Rel, es: seq<CurvEdge>) {
    && (forall i, j :: 0 <= i < j < |es| ==> Pair(es[i]) != Pair(es[j]))
    && (forall c :: c in es ==> Pair(c) in p && c.kappa == Kappa(p, Pair(c)))
    && (forall a :: a in p ==> exists i :: 0 <= i < |es| && Pair(es[i]) == a)
  }

  function Min(a: nat, b: nat): nat { if a < b then a else b }

  // The first k entries, and the last k from the end.
  ghost predicate TailsOk(es: seq<CurvEdge>, k: nat, negative: seq<CurvEdge>, positive: seq<CurvEdge>) {
    && negative == es[..Min(k, |es|)]
    && |positive| == Min(k, |es|) && forall i :: 0 <= i < |positive| ==> positive[i] == es[|es| - 1 - i]
  }

  ghost predicate ReportOk(nodes: seq<Id>, edges: seq<Edge>, k: nat, r: Report) {
    var p := Projection(Elems(nodes), edges);
    && r.nNodes == |nodes| && r.nEdges == |r.edges| == |p|
    && SortedBy(r.edges, KappaLe) && OnePerEdge(p, r.edges)
    && (forall c :: c in r.edges ==> FirstLink(edges, Elems(nodes), Arc(c.src, c.dst)))
    && TailsOk(r.edges, k, r.negative, r.positive)
  }

  function NeighborsAt(m: map<Id, set<Id>>, v: Id): set<Id> { if v in m then m[v] else {} }

  // The state of the projection loop after some edges.
  ghost predicate Projected(known: set<Id>, edges: seq<Edge>, order: seq<Arc>, firstSeen: map<Arc, Arc>,
                            neighbors: map<Id, set<Id>>)
  {
    var p := Projection(known, edges);
    && Distinct(order) && Elems(order) == p && firstSeen.Keys == p
    && (forall v :: NeighborsAt(neighbors, v) == Nb(p, v))
    && (forall a :: a in p ==> Norm(firstSeen[a].src, firstSeen[a].dst) == a && FirstLink(edges, known, firstSeen[a]))
  }

  lemma ProjectionSnoc(known: set<Id>, edges: seq<Edge>, e: Edge)
    ensures Projection(known, edges + [e]) ==
            Projection(known, edges) + (if Joins(e, known) then {Norm(e.src, e.dst)} else {})
  {
  }

  lemma FirstLinkStays(edges: seq<Edge>, e: Edge, known: set<Id>, link: Arc)
    requires FirstLink(edges, known, link)
    ensures FirstLink(edges + [e], known, link)
  {
    var i :| 0 <= i < |edges| && Joins(edges[i], known) && link == Arc(edges[i].src, edges[i].dst)
             && forall j :: 0 <= j < i && Joins(edges[j], known) ==>
                  Norm(edges[j].src, edges[j].dst) != Norm(link.src, link.dst);
    var more := edges + [e];
    assert more[i] == edges[i] && forall j :: 0 <= j < i ==> more[j] == edges[j];
  }

  lemma FirstLinkNew(edges: seq<Edge>, e: Edge, known: set<Id>)
    requires Joins(e, known) && Norm(e.src, e.dst) !in Projection(known, edges)
    ensures FirstLink(edges + [e], known, Arc(e.src, e.dst))
  {
    var more := edges + [e];
    forall j | 0 <= j < |edges| && Joins(more[j], known) ensures Norm(more[j].src, more[j].dst) != Norm(e.src, e.dst) {
      assert edges[j] in edges;
    }
    assert more[|edges|] == e;
  }

  lemma ProjectSkip(known: set<Id>, edges: seq<Edge>, e: Edge, order: seq<Arc>, firstSeen: map<Arc, Arc>,
                    neighbors: map<Id, set<Id>>)
    requires Projected(known, edges, order, firstSeen, neighbors)
    requires !Joins(e, known) || Norm(e.src, e.dst) in firstSeen
    ensures Projected(known, edges + [e], order, firstSeen, neighbors)
  {
    hide FirstLink, Nb;
    ProjectionSnoc(known, edges, e);
    var p := Projection(known, edges);
    assert Projection(known, edges + [e]) == p;
    forall a | a in p
      ensures FirstLink(edges + [e], known, firstSeen[a])
    {
      FirstLinkStays(edges, e, known, firstSeen[a]);
    }
  }

  lemma ProjectAdd(known: set<Id>, edges: seq<Edge>, e: Edge, order: seq<Arc>, firstSeen: map<Arc, Arc>,
                   neighbors: map<Id, set<Id>>, neighbors': map<Id, set<Id>>)
    requires Projected(known, edges, order, firstSeen, neighbors)
    requires Joins(e, known) && Norm(e.src, e.dst) !in firstSeen
    requires forall v :: NeighborsAt(neighbors', v) ==
               NeighborsAt(neighbors, v) + (if v == e.src then {e.dst} else if v == e.dst then {e.src} else {})
    ensures Projected(known, edges + [e], order + [Norm(e.src, e.dst)],
                      firstSeen[Norm(e.src, e.dst) := Arc(e.src, e.dst)], neighbors')
  {
    hide FirstLink, Nb, Projection;
    var a := Norm(e.src, e.dst);
    var p := Projection(known, edges);
    ProjectionSnoc(known, edges, e);
    ProjectionIff(known, edges, e.src, e.dst);
    assert a !in Elems(order);
    assert Elems(order + [a]) == Elems(order) + {a};
    forall v ensures NeighborsAt(neighbors', v) == Nb(p + {a}, v) { NbGrows(p, a, v); }
    forall x | x in p
      ensures FirstLink(edges + [e], known, firstSeen[x])
    {
      FirstLinkStays(edges, e, known, firstSeen[x]);
    }
    FirstLinkNew(edges, e, known);
  }

  lemma ProjectNone(known: set<Id>)
    ensures Projected(known, [], [], map[], map[])
  {
    assert Projection(known, []) == {};
    forall v ensures Nb({}, v) == {} { }
  }

  method Project(known: set<Id>, edges: seq<Edge>)
    returns (order: seq<Arc>, firstSeen: map<Arc, Arc>, neighbors: map<Id, set<Id>>)
    ensures Projected(known, edges, order, firstSeen, neighbors)
  {
    hide Projected;
    order, firstSeen, neighbors := [], map[], map[];
    ProjectNone(known);
    assert edges[..0] == [];
    for i := 0 to |edges|
      invariant Projected(known, edges[..i], order, firstSeen, neighbors)
    {
      var e := edges[i];
      assert edges[..i + 1] == edges[..i] + [e];
      if e.src !in known || e.dst !in known || e.src == e.dst || Norm(e.src, e.dst) in firstSeen {
        ProjectSkip(known, edges[..i], e, order, firstSeen, neighbors);
        continue;
      }
      var more := neighbors[e.src := NeighborsAt(neighbors, e.src) + {e.dst}];
      more := more[e.dst := NeighborsAt(more, e.dst) + {e.src}];
      ProjectAdd(known, edges[..i], e, order, firstSeen, neighbors, more);
      order := order + [Norm(e.src, e.dst)];
      firstSeen := firstSeen[Norm(e.src, e.dst) := Arc(e.src, e.dst)];
      neighbors := more;
    }
    assert edges[..|edges|] == edges;
  }

  // Counts the intersection by walking one of the two sets.
  method CountCommon(small: set<Id>, big: set<Id>) returns (n: nat)
    ensures n == |small * big|
  {
    n := 0;
    var todo := small;
    ghost var hits: set<Id> := {};
    while todo != {}
      invariant todo <= small && hits == (small - todo) * big && n == |hits|
      decreases |todo|
    {
      ghost var some: Id := Pick(todo);
      assert some in todo;
      var w :| w in todo;
      todo := todo - {w};
      if w in big {
        hits := hits + {w};
        n := n + 1;
      }
    }
    assert hits == small * big;
  }

  method KappaOf(ghost p: Rel, neighbors: map<Id, set<Id>>, a: Arc) returns (kappa: int)
    requires forall v :: NeighborsAt(neighbors, v) == Nb(p, v)
    ensures kappa == Kappa(p, a)
  {
    var small, big := NeighborsAt(neighbors, a.src), NeighborsAt(neighbors, a.dst);
    var du, dv := |small|, |big|;
    if |big| < |small| { small, big := big, small; }
    var triangles := CountCommon(small, big);
    assert small * big == Common(p, a);
    kappa := 4 - du - dv + 3 * triangles;
  }

  method ListEdges(ghost known: set<Id>, ghost edges: seq<Edge>, order: seq<Arc>, firstSeen: map<Arc, Arc>,
                   neighbors: map<Id, set<Id>>) returns (es: seq<CurvEdge>)
    requires Projected(known, edges, order, firstSeen, neighbors)
    ensures OnePerEdge(Projection(known, edges), es) && |es| == |Projection(known, edges)|
    ensures forall c :: c in es ==> FirstLink(edges, known, Arc(c.src, c.dst))
  {
    hide FirstLink, Nb, Kappa, Projection;
    ghost var p := Projection(known, edges);
    es := [];
    for i := 0 to |order|
      invariant |es| == i
      invariant forall j :: 0 <= j < i ==> Pair(es[j]) == order[j] && es[j].kappa == Kappa(p, order[j])
      invariant forall j :: 0 <= j < i ==> FirstLink(edges, known, Arc(es[j].src, es[j].dst))
    {
      assert order[i] in Elems(order);
      var o := firstSeen[order[i]];
      var kappa := KappaOf(p, neighbors, order[i]);
      es := es + [CurvEdge(o.src, o.dst, kappa)];
    }
    DistinctCard(order);
    ListedOnce(p, order, es);
  }

  lemma ListedOnce(p: Rel, order: seq<Arc>, es: seq<CurvEdge>)
    requires Distinct(order) && Elems(order) == p && |es| == |order|
    requires forall j :: 0 <= j < |es| ==> Pair(es[j]) == order[j] && es[j].kappa == Kappa(p, order[j])
    ensures OnePerEdge(p, es)
  {
    hide Kappa;
    forall c | c in es ensures Pair(c) in p && c.kappa == Kappa(p, Pair(c)) {
      var j :| 0 <= j < |es| && es[j] == c;
      assert order[j] in Elems(order);
    }
    forall a | a in p ensures exists i :: 0 <= i < |es| && Pair(es[i]) == a {
      assert a in Elems(order);
      var i :| 0 <= i < |order| && order[i] == a;
      assert Pair(es[i]) == a;
    }
  }

  lemma SortKeepsPairs(p: Rel, es: seq<CurvEdge>, out: seq<CurvEdge>)
    requires OnePerEdge(p, es) && multiset(out) == multiset(es)
    ensures OnePerEdge(p, out) && |out| == |es| && forall c :: c in out <==> c in es
  {
    hide Kappa, Pair;
    assert Distinct(es);
    SameElems(es, out);
    forall i, j | 0 <= i < j < |out| ensures Pair(out[i]) != Pair(out[j]) {
      assert out[i] in es && out[j] in es && out[i] != out[j];
      var a :| 0 <= a < |es| && es[a] == out[i];
      var b :| 0 <= b < |es| && es[b] == out[j];
    }
    forall a | a in p ensures exists i :: 0 <= i < |out| && Pair(out[i]) == a {
      var j :| 0 <= j < |es| && Pair(es[j]) == a;
      assert es[j] in out;
      var i :| 0 <= i < |out| && out[i] == es[j];
    }
  }

  method ComputeCurvatureReport(nodes: seq<Id>, edges: seq<Edge>, k: nat) returns (r: Report)
    ensures ReportOk(nodes, edges, k, r)
  {
    hide OnePerEdge, FirstLink, Projection, Projected, SortedBy, KappaLe, TailsOk;
    ghost var p := Projection(Elems(nodes), edges);
    if |nodes| == 0 {
      NothingKnown(edges, k);
      assert Elems(nodes) == {};
      return Report(0, 0, [], [], []);
    }
    var order, firstSeen, neighbors := Project(Elems(nodes), edges);
    var list := ListEdges(Elems(nodes), edges, order, firstSeen, neighbors);
    KappaPreorder();
    var es := StableSort(list, KappaLe);
    SortKeepsPairs(p, list, es);
    var negative, positive := Tails(es, k);
    r := Report(|nodes|, |es|, es, negative, positive);
  }

  lemma KappaPreorder()
    ensures TotalPreorder(KappaLe)
  {
  }

  method Tails(es: seq<CurvEdge>, k: nat) returns (negative: seq<CurvEdge>, positive: seq<CurvEdge>)
    ensures TailsOk(es, k, negative, positive)
  {
    var n := Min(k, |es|);
    negative := es[..n];
    positive := Backwards(es[|es| - n..]);
  }

  lemma NothingKnown(edges: seq<Edge>, k: nat)
    ensures Projection({}, edges) == {} && OnePerEdge({}, []) && SortedBy([], KappaLe) && TailsOk([], k, [], [])
  {
  }

  // Copies the tail in reverse, from its far end.
  method Backwards(tail: seq<CurvEdge>) returns (out: seq<CurvEdge>)
    ensures |out| == |tail| && forall i :: 0 <= i < |out| ==> out[i] == tail[|tail| - 1 - i]
  {
    var a := new CurvEdge[|tail|](_ => CurvEdge(0, 0, 0));
    for i := 0 to |tail|
      invariant forall j :: 0 <= j < i ==> a[|tail| - 1 - j] == tail[j]
    {
      a[|tail| - 1 - i] := tail[i];
    }
    forall i | 0 <= i < |tail| ensures a[i] == tail[|tail| - 1 - i] {
      var j := |tail| - 1 - i;
      assert a[|tail| - 1 - j] == tail[j];
    }
    out := a[..];
  }

  // No edge outside a tail is more extreme than one inside.
  lemma TailsAreExtreme(es: seq<CurvEdge>, k: nat, negative: seq<CurvEdge>, positive: seq<CurvEdge>, i: nat, j: nat)
    requires SortedBy(es, KappaLe) && TailsOk(es, k, negative, positive) && i < |negative| && j < |es|
    ensures j >= |negative| ==> negative[i].kappa <= es[j].kappa
    ensures j < |es| - |positive| ==> es[j].kappa <= positive[i].kappa
  {
    var l := |es| - 1 - i;
    assert j >= |negative| ==> KappaLe(es[i], es[j]);
    assert j < |es| - |positive| ==> KappaLe(es[j], es[l]);
  }

  // ---- The metric ----

  // A record under the pair of its ends, smaller first.
  datatype Record = Record(target: Arc, kappa: int)

  // The text a record is sorted by, name giving the text of an id.
  function Target(name: Id -> string, rec: Record): string {
    name(rec.target.src) + "--" + name(rec.target.dst)
  }

  function ByTarget(name: Id -> string): (Record, Record) -> bool {
    (a: Record, b: Record) => LexLe(Target(name, a), Target(name, b))
  }

  ghost predicate MetricOk(nodes: seq<Id>, edges: seq<Edge>, name: Id -> string, mean: real, records: seq<Record>) {
    var p := Projection(Elems(nodes), edges);
    && SortedBy(records, ByTarget(name))
    && (forall i, j :: 0 <= i < j < |records| ==> records[i].target != records[j].target)
    && (forall rec :: rec in records <==> rec.target in p && rec.kappa == Kappa(p, rec.target))
    && |records| == |p|
    && mean == if |p| == 0 then 0.0
               else (4 * |p| - SquaredDegrees(p, nodes) + 9 * |Triangles(p)|) as real / |p| as real
  }

  // The simple undirected graph: neighbour sets, and each link once.
  method ToUndirected(known: set<Id>, edges: seq<Edge>) returns (links: set<Arc>, neighbors: map<Id, set<Id>>)
    ensures links == Projection(known, edges) && forall v :: NeighborsAt(neighbors, v) == Nb(links, v)
  {
    hide Nb, Projection;
    links, neighbors := {}, map[];
    assert edges[..0] == [];
    assert Projection(known, []) == {} by { ProjectionOfNone(known); }
    forall v ensures Nb({}, v) == {} { NbOfNone(v); }
    for i := 0 to |edges|
      invariant links == Projection(known, edges[..i])
      invariant forall v :: NeighborsAt(neighbors, v) == Nb(links, v)
    {
      var e := edges[i];
      assert edges[..i + 1] == edges[..i] + [e];
      ProjectionSnoc(known, edges[..i], e);
      ProjectionIff(known, edges[..i], e.src, e.dst);
      if e.src !in known || e.dst !in known || e.src == e.dst { continue; }
      NbIff(links, e.src, e.dst);
      if e.dst in NeighborsAt(neighbors, e.src) {
        assert links + {Norm(e.src, e.dst)} == links;
        continue;
      }
      forall v { NbGrows(links, Norm(e.src, e.dst), v); }
      var more := neighbors[e.src := NeighborsAt(neighbors, e.src) + {e.dst}];
      neighbors := more[e.dst := NeighborsAt(more, e.dst) + {e.src}];
      links := links + {Norm(e.src, e.dst)};
    }
    assert edges[..|edges|] == edges;
  }

  lemma ProjectionOfNone(known: set<Id>)
    ensures Projection(known, []) == {}
  {
  }

  // Common neighbours, by walking those of u. v itself is skipped, and would not count.
  method TriangleCount(p: Rel, neighbors: map<Id, set<Id>>, u: Id, v: Id) returns (tri: nat)
    requires Simple(p) && forall x :: NeighborsAt(neighbors, x) == Nb(p, x)
    ensures tri == |Nb(p, u) * Nb(p, v)|
  {
    hide Nb;
    tri := 0;
    var nb := NeighborsAt(neighbors, u);
    var todo := nb;
    ghost var hits: set<Id> := {};
    NbIff(p, v, v);
    while todo != {}
      invariant todo <= nb && hits !! todo && tri == |hits|
      invariant forall w :: w in hits <==> w in nb && w !in todo && w in Nb(p, v)
      decreases |todo|
    {
      ghost var some: Id := Pick(todo);
      assert some in todo;
      var w :| w in todo;
      todo := todo - {w};
      if w == v { continue; }
      NbIff(p, w, v);
      NbIff(p, v, w);
      if v in NeighborsAt(neighbors, w) {
        hits := hits + {w};
        tri := tri + 1;
      }
    }
    forall w ensures w in hits <==> w in nb * Nb(p, v) { assert w !in todo; }
    assert hits == nb * Nb(p, v);
  }

  // The links but those in todo have been listed, in the order given.
  ghost predicate Accumulated(links: set<Arc>, todo: set<Arc>, order: seq<Arc>, list: seq<Record>, sum: int) {
    && todo <= links && Distinct(order) && Elems(order) == links - todo && |list| == |order|
    && (forall i :: 0 <= i < |list| ==> list[i] == Record(order[i], Kappa(links, order[i])))
    && sum == Total(Terms(order, (a: Arc) => Kappa(links, a)))
  }

  lemma AccumulateMore(links: set<Arc>, todo: set<Arc>, order: seq<Arc>, list: seq<Record>, sum: int, e: Arc)
    requires Accumulated(links, todo, order, list, sum) && e in todo
    ensures Accumulated(links, todo - {e}, order + [e], list + [Record(e, Kappa(links, e))], sum + Kappa(links, e))
  {
    hide Kappa;
    assert e !in Elems(order);
    assert Elems(order + [e]) == Elems(order) + {e};
    TermsSnoc(order + [e], (a: Arc) => Kappa(links, a));
    assert (order + [e])[..|order|] == order;
  }

  // The records in the order in which the graph yields its edges, and their sum.
  method Accumulate(links: set<Arc>, neighbors: map<Id, set<Id>>)
    returns (list: seq<Record>, sum: int, ghost order: seq<Arc>)
    requires Simple(links) && forall v :: NeighborsAt(neighbors, v) == Nb(links, v)
    ensures Accumulated(links, {}, order, list, sum)
  {
    hide Nb, Kappa, Accumulated;
    list, sum, order := [], 0, [];
    var todo := links;
    AccumulateNone(links);
    while todo != {}
      invariant Accumulated(links, todo, order, list, sum)
      decreases |todo|
    {
      var e :| e in todo;
      AccumulateMore(links, todo, order, list, sum, e);
      todo := todo - {e};
      var tri := TriangleCount(links, neighbors, e.src, e.dst);
      var value := 4 - |NeighborsAt(neighbors, e.src)| - |NeighborsAt(neighbors, e.dst)| + 3 * tri;
      KappaIs(links, e);
      order := order + [e];
      list := list + [Record(e, value)];
      sum := sum + value;
    }
  }

  lemma AccumulateNone(links: set<Arc>)
    ensures Accumulated(links, links, [], [], 0)
  {
  }

  method Compute(nodes: seq<Id>, edges: seq<Edge>, name: Id -> string) returns (mean: real, records: seq<Record>)
    requires Distinct(nodes)
    ensures MetricOk(nodes, edges, name, mean, records)
  {
    hide Nb, Projection, Kappa, Triangles, SquaredDegrees, Total, Terms, SortedBy, ByTarget, Simple;
    var links, neighbors := ToUndirected(Elems(nodes), edges);
    ProjectionWithin(nodes, edges);
    var list, sum, order := Accumulate(links, neighbors);
    DistinctCard(order);
    KappaTotal(links, order, nodes);
    TargetPreorder(name);
    records := StableSort(list, ByTarget(name));
    RecordsListed(links, order, list, records);
    mean := if |list| == 0 then 0.0 else sum as real / |list| as real;
  }

  lemma TargetPreorder(name: Id -> string)
    ensures TotalPreorder(ByTarget(name))
  {
    hide LexLe, Target;
    LexPreorder();
  }

  lemma KappaIs(p: Rel, a: Arc)
    ensures Kappa(p, a) == 4 - |Nb(p, a.src)| - |Nb(p, a.dst)| + 3 * |Nb(p, a.src) * Nb(p, a.dst)|
  {
  }

  lemma ProjectionWithin(nodes: seq<Id>, edges: seq<Edge>)
    ensures Simple(Projection(Elems(nodes), edges))
    ensures forall a :: a in Projection(Elems(nodes), edges) ==> a.src in nodes && a.dst in nodes
  {
  }

  lemma RecordsListed(p: Rel, order: seq<Arc>, list: seq<Record>, records: seq<Record>)
    requires Distinct(order) && Elems(order) == p && |list| == |order| && multiset(records) == multiset(list)
    requires forall i :: 0 <= i < |list| ==> list[i] == Record(order[i], Kappa(p, order[i]))
    ensures forall i, j :: 0 <= i < j < |records| ==> records[i].target != records[j].target
    ensures forall rec :: rec in records <==> rec.target in p && rec.kappa == Kappa(p, rec.target)
    ensures |records| == |list|
  {
    hide Kappa;
    assert Distinct(list);
    SameElems(list, records);
    forall rec ensures rec in list <==> rec.target in p && rec.kappa == Kappa(p, rec.target) {
      if rec in list {
        var i :| 0 <= i < |list| && list[i] == rec;
        assert order[i] in Elems(order);
      }
      if rec.target in p && rec.kappa == Kappa(p, rec.target) {
        assert rec.target in Elems(order);
        var i :| 0 <= i < |order| && order[i] == rec.target;
        assert list[i] == rec;
      }
    }
    forall i, j | 0 <= i < j < |records| ensures records[i].target != records[j].target {
      assert records[i] in list && records[j] in list && records[i] != records[j];
    }
  }

  // ---- The two agree ----

  lemma KappasAgree(nodes: seq<Id>, edges: seq<Edge>, k: nat, r: Report, name: Id -> string, mean: real,
                    records: seq<Record>)
    requires ReportOk(nodes, edges, k, r) && MetricOk(nodes, edges, name, mean, records)
    ensures |r.edges| == |records|
    ensures forall c :: c in r.edges ==> Record(Pair(c), c.kappa) in records
    ensures forall rec :: rec in records ==> exists c :: c in r.edges && rec == Record(Pair(c), c.kappa)
  {
    hide Kappa, Projection, FirstLink, SquaredDegrees, Triangles, LexLe, SortedBy, TailsOk;
    forall rec | rec in records ensures exists c :: c in r.edges && rec == Record(Pair(c), c.kappa) {
      var i :| 0 <= i < |r.edges| && Pair(r.edges[i]) == rec.target;
      assert r.edges[i] in r.edges;
    }
  }

  // The pairs of the entries are the projected edges, each once.
  lemma PairsOf(p: Rel, es: seq<CurvEdge>) returns (order: seq<Arc>)
    requires OnePerEdge(p, es)
    ensures |order| == |es| && Distinct(order) && Elems(order) == p
    ensures forall i :: 0 <= i < |es| ==> order[i] == Pair(es[i]) && es[i].kappa == Kappa(p, order[i])
  {
    hide Kappa, Pair;
    order := Mapped(Pair, es);
    forall i | 0 <= i < |es| ensures order[i] in p && es[i].kappa == Kappa(p, order[i]) { assert es[i] in es; }
    forall a | a in p ensures a in order {
      var i :| 0 <= i < |es| && Pair(es[i]) == a;
      assert order[i] == a;
    }
  }

  // The curvatures of the report add up to the closed form.
  lemma ReportTotal(nodes: seq<Id>, edges: seq<Edge>, k: nat, r: Report)
    requires Distinct(nodes) && ReportOk(nodes, edges, k, r)
    ensures var p := Projection(Elems(nodes), edges);
            Total(Terms(r.edges, (c: CurvEdge) => c.kappa)) == 4 * |p| - SquaredDegrees(p, nodes) + 9 * |Triangles(p)|
  {
    hide Kappa, Projection, FirstLink, SquaredDegrees, Triangles, OnePerEdge, SortedBy, TailsOk, Simple, Total;
    hide Distinct;
    var p := Projection(Elems(nodes), edges);
    var order := PairsOf(p, r.edges);
    ProjectionWithin(nodes, edges);
    KappaTotal(p, order, nodes);
    assert Terms(order, (a: Arc) => Kappa(p, a)) == Terms(r.edges, (c: CurvEdge) => c.kappa);
  }

  // Each tail has k entries, or all there are.
  lemma TailLengths(es: seq<CurvEdge>, k: nat, negative: seq<CurvEdge>, positive: seq<CurvEdge>)
    requires TailsOk(es, k, negative, positive)
    ensures k <= |es| ==> |negative| == |positive| == k
    ensures k > |es| ==> |negative| == |positive| == |es|
  {
  }

  // The entries ascend by curvature, then by the first, then by the second end.
  lemma EntriesAscend(nodes: seq<Id>, edges: seq<Edge>, k: nat, r: Report, i: nat, j: nat)
    requires ReportOk(nodes, edges, k, r) && i < j < |r.edges|
    ensures r.edges[i].kappa <= r.edges[j].kappa
    ensures r.edges[i].kappa == r.edges[j].kappa ==> r.edges[i].src <= r.edges[j].src
    ensures r.edges[i].kappa == r.edges[j].kappa && r.edges[i].src == r.edges[j].src ==>
              r.edges[i].dst <= r.edges[j].dst
  {
    hide Projection, OnePerEdge, FirstLink, TailsOk;
    assert KappaLe(r.edges[i], r.edges[j]);
  }

  // The records ascend by the text of both ends with two dashes between them.
  lemma RecordsAscend(nodes: seq<Id>, edges: seq<Edge>, name: Id -> string, mean: real, records: seq<Record>)
    requires MetricOk(nodes, edges, name, mean, records)
    ensures forall i, j :: 0 <= i < j < |records| ==>
              var a, b := records[i].target, records[j].target;
              LexLe(name(a.src) + "--" + name(a.dst), name(b.src) + "--" + name(b.dst))
  {
    hide Projection, Kappa, SquaredDegrees, Triangles, LexLe;
    forall i, j | 0 <= i < j < |records|
      ensures LexLe(Target(name, records[i]), Target(name, records[j]))
    {
      assert ByTarget(name)(records[i], records[j]);
    }
  }
}
