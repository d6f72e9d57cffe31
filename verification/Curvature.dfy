/** Forman-Ricci curvature on the undirected projection: its two computations, and the
    closed form of its sum. */
module Curvature {
  import opened Order
  import opened Walks

  // ---- The projection ----

  // The ends of an edge in ascending order.
  function Norm(a: Id, b: Id): Arc { if a <= b then Arc(a, b) else Arc(b, a) }

  predicate Joins(e: Edge, nodes: set<Id>) { e.src in nodes && e.dst in nodes && e.src != e.dst }

  ghost function Projection(nodes: set<Id>, edges: seq<Edge>): Rel {
    set e | e in edges && Joins(e, nodes) :: Norm(e.src, e.dst)
  }

  // Pairs with the smaller end first: a simple undirected graph.
  ghost predicate Simple(p: Rel) { forall a :: a in p ==> a.src < a.dst }

  ghost function Nb(p: Rel, v: Id): set<Id> {
    (set a | a in p && a.src == v :: a.dst) + (set a | a in p && a.dst == v :: a.src)
  }

  ghost function Common(p: Rel, a: Arc): set<Id> { Nb(p, a.src) * Nb(p, a.dst) }

  ghost function Kappa(p: Rel, a: Arc): int {
    4 - |Nb(p, a.src)| - |Nb(p, a.dst)| + 3 * |Common(p, a)|
  }

  lemma NbIff(p: Rel, v: Id, w: Id)
    requires Simple(p)
    ensures w in Nb(p, v) <==> v != w && Norm(v, w) in p
  {
    if w in Nb(p, v) {
      if a :| a in p && a.src == v && a.dst == w {
        assert a == Arc(v, w);
      } else {
        var a :| a in p && a.dst == v && a.src == w;
        assert a == Arc(w, v);
      }
    }
    if v != w && Norm(v, w) in p {
      var a := Norm(v, w);
      assert if v < w then a.src == v && a.dst == w else a.src == w && a.dst == v;
    }
  }

  // Order, direction and repetition of the edges leave the projection alone: all that
  // counts is which distinct known nodes some edge links.
  ghost predicate Linked(edges: seq<Edge>, a: Id, b: Id) {
    exists e :: e in edges && ((e.src == a && e.dst == b) || (e.src == b && e.dst == a))
  }

  lemma ProjectionIff(nodes: set<Id>, edges: seq<Edge>, a: Id, b: Id)
    ensures Simple(Projection(nodes, edges))
    ensures a < b ==> (Arc(a, b) in Projection(nodes, edges) <==> a in nodes && b in nodes && Linked(edges, a, b))
  {
    if a < b && Linked(edges, a, b) && a in nodes && b in nodes {
      var e :| e in edges && ((e.src == a && e.dst == b) || (e.src == b && e.dst == a));
      assert Joins(e, nodes) && Norm(e.src, e.dst) == Arc(a, b);
    }
  }

  lemma SameLinksSameProjection(nodes: set<Id>, edges: seq<Edge>, edges': seq<Edge>)
    requires forall a, b :: a in nodes && b in nodes && a != b ==> (Linked(edges, a, b) <==> Linked(edges', a, b))
    ensures Projection(nodes, edges) == Projection(nodes, edges')
  {
    forall x: Arc ensures x in Projection(nodes, edges) <==> x in Projection(nodes, edges') {
      ProjectionIff(nodes, edges, x.src, x.dst);
      ProjectionIff(nodes, edges', x.src, x.dst);
    }
  }

  // ---- Sums ----

  ghost function Total(s: seq<int>): int {
    if s == [] then 0 else Total(s[..|s| - 1]) + s[|s| - 1]
  }

  ghost function Terms<T(!new)>(s: seq<T>, f: T -> int): (r: seq<int>)
    ensures |r| == |s| && forall i :: 0 <= i < |s| ==> r[i] == f(s[i])
  {
    seq(|s|, i requires 0 <= i < |s| => f(s[i]))
  }

  lemma TermsSnoc<T(!new)>(s: seq<T>, f: T -> int)
    requires s != []
    ensures Total(Terms(s, f)) == Total(Terms(s[..|s| - 1], f)) + f(s[|s| - 1])
  {
    assert Terms(s, f)[..|s| - 1] == Terms(s[..|s| - 1], f);
  }

  lemma {:induction false} TotalSum<T(!new)>(s: seq<T>, f: T -> int, g: T -> int, h: T -> int)
    requires forall x :: x in s ==> h(x) == f(x) + g(x)
    ensures Total(Terms(s, h)) == Total(Terms(s, f)) + Total(Terms(s, g))
  {
    if s != [] {
      TermsSnoc(s, f);
      TermsSnoc(s, g);
      TermsSnoc(s, h);
      TotalSum(s[..|s| - 1], f, g, h);
    }
  }

  lemma {:induction false} TotalSame<T(!new)>(s: seq<T>, f: T -> int, g: T -> int)
    requires forall x :: x in s ==> f(x) == g(x)
    ensures Total(Terms(s, f)) == Total(Terms(s, g))
  {
    if s != [] {
      TermsSnoc(s, f);
      TermsSnoc(s, g);
      TotalSame(s[..|s| - 1], f, g);
    }
  }

  lemma {:induction false} TotalZero<T(!new)>(s: seq<T>, f: T -> int)
    requires forall x :: x in s ==> f(x) == 0
    ensures Total(Terms(s, f)) == 0
  {
    if s != [] {
      TermsSnoc(s, f);
      TotalZero(s[..|s| - 1], f);
    }
  }

  // A term that is c at one listed element and zero elsewhere.
  lemma {:induction false} TotalAt(s: seq<Id>, a: Id, c: int)
    requires Distinct(s) && a in s
    ensures Total(Terms(s, (x: Id) => if x == a then c else 0)) == c
  {
    var f := (x: Id) => if x == a then c else 0;
    var n := |s| - 1;
    TermsSnoc(s, f);
    assert s == s[..n] + [s[n]];
    if s[n] == a {
      forall x | x in s[..n] ensures f(x) == 0 { var i :| 0 <= i < n && s[i] == x; }
      TotalZero(s[..n], f);
    } else {
      TotalAt(s[..n], a, c);
    }
  }

  // ---- Summing over edges is summing over nodes ----

  // Adding an edge adds each end to the neighbours of the other.
  lemma NbGrows(p: Rel, a: Arc, v: Id)
    requires Simple(p) && a.src < a.dst
    ensures Nb(p + {a}, v) == Nb(p, v) + (if v == a.src then {a.dst} else if v == a.dst then {a.src} else {})
  {
    var q := p + {a};
    forall w ensures w in Nb(q, v) <==> w in Nb(p, v) || (v == a.src && w == a.dst) || (v == a.dst && w == a.src) {
      NbIff(p, v, w);
      NbIff(q, v, w);
    }
  }

  lemma NbMore(p: Rel, a: Arc, v: Id)
    requires Simple(p) && a !in p && a.src < a.dst
    ensures |Nb(p + {a}, v)| == |Nb(p, v)| + (if v == a.src then 1 else 0) + (if v == a.dst then 1 else 0)
  {
    NbGrows(p, a, v);
    NbIff(p, a.src, a.dst);
    NbIff(p, a.dst, a.src);
  }

  lemma NbOfNone(v: Id)
    ensures Nb({}, v) == {}
  {
  }

  lemma FrontOf(order: seq<Arc>)
    requires order != [] && Simple(Elems(order))
    ensures var n := |order| - 1;
      && order == order[..n] + [order[n]] && Elems(order) == Elems(order[..n]) + {order[n]}
      && Simple(Elems(order[..n])) && order[n].src < order[n].dst && order[n] in order
  {
    var n := |order| - 1;
    assert order == order[..n] + [order[n]];
    assert order[n] in Elems(order);
    forall a | a in Elems(order[..n]) ensures a.src < a.dst { assert a in Elems(order); }
  }

  // Each node is counted once for every edge at it.
  lemma {:induction false} Handshake(order: seq<Arc>, nodes: seq<Id>, f: Id -> int)
    requires Distinct(order) && Simple(Elems(order)) && Distinct(nodes)
    requires forall a :: a in order ==> a.src in nodes && a.dst in nodes
    ensures Total(Terms(order, (a: Arc) => f(a.src) + f(a.dst))) ==
            Total(Terms(nodes, (v: Id) => |Nb(Elems(order), v)| * f(v)))
  {
    hide Nb;
    var g := (a: Arc) => f(a.src) + f(a.dst);
    var h := (v: Id) => |Nb(Elems(order), v)| * f(v);
    if order == [] {
      assert Elems(order) == {};
      forall v | v in nodes ensures h(v) == 0 { NbOfNone(v); }
      TotalZero(nodes, h);
    } else {
      var n := |order| - 1;
      var a, front := order[n], order[..n];
      FrontOf(order);
      NotInFront(order);
      Handshake(front, nodes, f);
      TermsSnoc(order, g);
      AddEdgeTerms(Elems(front), a, nodes, f);
    }
  }

  lemma AddEdgeTerms(p: Rel, a: Arc, nodes: seq<Id>, f: Id -> int)
    requires Simple(p) && a !in p && a.src < a.dst && Distinct(nodes) && a.src in nodes && a.dst in nodes
    ensures Total(Terms(nodes, (v: Id) => |Nb(p + {a}, v)| * f(v))) ==
            Total(Terms(nodes, (v: Id) => |Nb(p, v)| * f(v))) + f(a.src) + f(a.dst)
  {
    var before := (v: Id) => |Nb(p, v)| * f(v);
    var after := (v: Id) => |Nb(p + {a}, v)| * f(v);
    var atSrc := (v: Id) => if v == a.src then f(a.src) else 0;
    var atDst := (v: Id) => if v == a.dst then f(a.dst) else 0;
    var ends := (v: Id) => atSrc(v) + atDst(v);
    forall v | v in nodes ensures after(v) == before(v) + ends(v) {
      NbMore(p, a, v);
      OneMoreTerm(|Nb(p, v)|, f(v));
    }
    TotalAt(nodes, a.src, f(a.src));
    TotalAt(nodes, a.dst, f(a.dst));
    TotalSum(nodes, atSrc, atDst, ends);
    TotalSum(nodes, before, ends, after);
  }

  lemma OneMoreTerm(n: int, x: int)
    ensures (n + 1) * x == n * x + x
  {
  }

  // ---- Triangles ----

  datatype Triple = Triple(x: Id, y: Id, z: Id)

  ghost predicate IsTriangle(p: Rel, t: Triple) {
    Arc(t.x, t.y) in p && Arc(t.y, t.z) in p && Arc(t.x, t.z) in p
  }

  ghost function Triangles(p: Rel): set<Triple> {
    set a, b | a in p && b in p && a.dst == b.src && Arc(a.src, b.dst) in p :: Triple(a.src, a.dst, b.dst)
  }

  lemma TrianglesIff(p: Rel, t: Triple)
    ensures t in Triangles(p) <==> IsTriangle(p, t)
  {
    if IsTriangle(p, t) {
      var a, b := Arc(t.x, t.y), Arc(t.y, t.z);
      assert a in p && b in p && a.dst == b.src && Arc(a.src, b.dst) in p;
    }
  }

  // One side of a triangle, by the vertex left out: 0 the least, 1 the middle, 2 the greatest.
  function Side(t: Triple, out: nat): Arc {
    if out == 0 then Arc(t.y, t.z) else if out == 1 then Arc(t.x, t.z) else Arc(t.x, t.y)
  }

  // The triangle on a side and a third vertex in the given position.
  function Corner(a: Arc, w: Id, out: nat): Triple {
    if out == 0 then Triple(w, a.src, a.dst) else if out == 1 then Triple(a.src, w, a.dst) else Triple(a.src, a.dst, w)
  }

  predicate Placed(a: Arc, w: Id, out: nat) {
    if out == 0 then w < a.src else if out == 1 then a.src < w < a.dst else a.dst < w
  }

  ghost function Thirds(p: Rel, a: Arc, out: nat): set<Id> { set w | w in Common(p, a) && Placed(a, w, out) }

  ghost function Fiber(ts: set<Triple>, a: Arc, out: nat): set<Triple> { set t | t in ts && Side(t, out) == a }

  lemma {:induction false} InjectiveCard<A, B>(s: set<A>, t: set<B>, h: A -> B)
    requires forall x, y :: x in s && y in s && h(x) == h(y) ==> x == y
    requires forall x :: x in s ==> h(x) in t
    requires forall y :: y in t ==> exists x :: x in s && h(x) == y
    ensures |s| == |t|
    decreases |s|
  {
    if s == {} {
      assert t == {};
    } else {
      var x := Pick(s);
      var s', t' := s - {x}, t - {h(x)};
      forall y | y in t' ensures exists z :: z in s' && h(z) == y { var z :| z in s && h(z) == y; assert z in s'; }
      InjectiveCard(s', t', h);
    }
  }

  lemma ThirdMakesTriangle(p: Rel, a: Arc, w: Id, out: nat)
    requires Simple(p) && a in p && out < 3 && Placed(a, w, out)
    ensures w in Common(p, a) <==> Corner(a, w, out) in Triangles(p)
  {
    hide Nb, Triangles;
    NbIff(p, a.src, w);
    NbIff(p, a.dst, w);
    TrianglesIff(p, Corner(a, w, out));
  }

  lemma CornerOfSide(p: Rel, t: Triple, out: nat) returns (w: Id)
    requires Simple(p) && t in Triangles(p) && out < 3
    ensures Corner(Side(t, out), w, out) == t && Placed(Side(t, out), w, out) && Side(t, out) in p
  {
    hide Triangles;
    TrianglesIff(p, t);
    w := if out == 0 then t.x else if out == 1 then t.y else t.z;
  }

  lemma SideOfCorner(a: Arc, w: Id, v: Id, out: nat)
    requires out < 3
    ensures Side(Corner(a, w, out), out) == a
    ensures Corner(a, w, out) == Corner(a, v, out) ==> w == v
  {
  }

  // The third vertices of a side are its triangles.
  lemma ThirdsAreFiber(p: Rel, a: Arc, out: nat)
    requires Simple(p) && a in p && out < 3
    ensures |Thirds(p, a, out)| == |Fiber(Triangles(p), a, out)|
  {
    hide Simple, Common, Triangles, Placed, Corner, Side;
    var s, t := Thirds(p, a, out), Fiber(Triangles(p), a, out);
    var h := (w: Id) => Corner(a, w, out);
    forall w | w in s ensures h(w) in t {
      ThirdMakesTriangle(p, a, w, out);
      SideOfCorner(a, w, w, out);
    }
    forall y | y in t ensures exists w :: w in s && h(w) == y {
      var w := CornerOfSide(p, y, out);
      ThirdMakesTriangle(p, a, w, out);
      assert w in s && h(w) == y;
    }
    forall w, v | w in s && v in s && h(w) == h(v) ensures w == v { SideOfCorner(a, w, v, out); }
    InjectiveCard(s, t, h);
  }

  lemma ThirdsSplit(p: Rel, a: Arc)
    requires Simple(p) && a in p
    ensures |Common(p, a)| == |Thirds(p, a, 0)| + |Thirds(p, a, 1)| + |Thirds(p, a, 2)|
  {
    var s, t, u := Thirds(p, a, 0), Thirds(p, a, 1), Thirds(p, a, 2);
    forall w | w in Common(p, a) ensures w in s + t + u {
      NbIff(p, a.src, w);
      NbIff(p, a.dst, w);
    }
    assert Common(p, a) == s + t + u;
    assert |s + t| == |s| + |t|;
  }

  // Grouped by one side, the triangles are counted once each.
  lemma {:induction false} FibersCount(order: seq<Arc>, ts: set<Triple>, out: nat)
    requires Distinct(order) && forall t :: t in ts ==> Side(t, out) in order
    ensures Total(Terms(order, (a: Arc) => |Fiber(ts, a, out)|)) == |ts|
  {
    hide Side;
    var f := (a: Arc) => |Fiber(ts, a, out)|;
    if order == [] {
      assert ts == {};
    } else {
      var n := |order| - 1;
      var a, front := order[n], order[..n];
      assert order == front + [a];
      var rest := ts - Fiber(ts, a, out);
      NotInFront(order);
      FibersCount(front, rest, out);
      FibersApart(ts, a, front, out);
      TotalSame(front, f, (x: Arc) => |Fiber(rest, x, out)|);
      TermsSnoc(order, f);
    }
  }

  lemma NotInFront<T>(s: seq<T>)
    requires s != [] && Distinct(s)
    ensures s[|s| - 1] !in s[..|s| - 1]
  {
    var front, x := s[..|s| - 1], s[|s| - 1];
    forall i | 0 <= i < |front| ensures front[i] != x { assert front[i] == s[i]; }
  }

  lemma FibersApart(ts: set<Triple>, a: Arc, front: seq<Arc>, out: nat)
    requires a !in front
    ensures forall x :: x in front ==> Fiber(ts - Fiber(ts, a, out), x, out) == Fiber(ts, x, out)
    ensures |ts| == |ts - Fiber(ts, a, out)| + |Fiber(ts, a, out)|
  {
    hide Side;
    var rest := ts - Fiber(ts, a, out);
    assert ts == rest + Fiber(ts, a, out);
    forall x | x in front ensures Fiber(rest, x, out) == Fiber(ts, x, out) {
      forall t ensures t in Fiber(rest, x, out) <==> t in Fiber(ts, x, out) { }
    }
  }

  lemma ThirdsCount(p: Rel, order: seq<Arc>, out: nat)
    requires Simple(p) && Distinct(order) && Elems(order) == p && out < 3
    ensures Total(Terms(order, (a: Arc) => |Thirds(p, a, out)|)) == |Triangles(p)|
  {
    var ts := Triangles(p);
    forall t | t in ts ensures Side(t, out) in order { TrianglesIff(p, t); assert Side(t, out) in p; }
    FibersCount(order, ts, out);
    forall a | a in order ensures |Thirds(p, a, out)| == |Fiber(ts, a, out)| {
      assert a in Elems(order);
      ThirdsAreFiber(p, a, out);
    }
    TotalSame(order, (a: Arc) => |Thirds(p, a, out)|, (a: Arc) => |Fiber(ts, a, out)|);
  }

  // Every triangle is seen from each of its three sides.
  lemma CommonCount(p: Rel, order: seq<Arc>)
    requires Simple(p) && Distinct(order) && Elems(order) == p
    ensures Total(Terms(order, (a: Arc) => |Common(p, a)|)) == 3 * |Triangles(p)|
  {
    var f0, f1, f2 := (a: Arc) => |Thirds(p, a, 0)|, (a: Arc) => |Thirds(p, a, 1)|, (a: Arc) => |Thirds(p, a, 2)|;
    var f01, all := (a: Arc) => f0(a) + f1(a), (a: Arc) => |Common(p, a)|;
    forall a | a in order ensures all(a) == f01(a) + f2(a) {
      assert a in Elems(order);
      ThirdsSplit(p, a);
    }
    ThirdsCount(p, order, 0);
    ThirdsCount(p, order, 1);
    ThirdsCount(p, order, 2);
    TotalSum(order, f0, f1, f01);
    TotalSum(order, f01, f2, all);
  }

  // ---- The closed form ----

  ghost function SquaredDegrees(p: Rel, nodes: seq<Id>): int {
    Total(Terms(nodes, (v: Id) => |Nb(p, v)| * |Nb(p, v)|))
  }

  lemma {:induction false} TotalScale<T(!new)>(s: seq<T>, f: T -> int, g: T -> int, c: int, d: int)
    requires forall x :: x in s ==> g(x) == c + d * f(x)
    ensures Total(Terms(s, g)) == c * |s| + d * Total(Terms(s, f))
  {
    if s != [] {
      var n := |s| - 1;
      TermsSnoc(s, f);
      TermsSnoc(s, g);
      TotalScale(s[..n], f, g, c, d);
      ScaleStep(c, n, d, Total(Terms(s[..n], f)), f(s[n]));
    }
  }

  lemma ScaleStep(c: int, n: int, d: int, t: int, x: int)
    ensures c * n + d * t + (c + d * x) == c * (n + 1) + d * (t + x)
  {
  }

  // The curvatures sum to 4 for each edge, less the squared degrees, plus 9 for each triangle.
  lemma KappaTotal(p: Rel, order: seq<Arc>, nodes: seq<Id>)
    requires Simple(p) && Distinct(order) && Elems(order) == p && Distinct(nodes)
    requires forall a :: a in p ==> a.src in nodes && a.dst in nodes
    ensures Total(Terms(order, (a: Arc) => Kappa(p, a))) == 4 * |p| - SquaredDegrees(p, nodes) + 9 * |Triangles(p)|
  {
    var degree := (v: Id) => |Nb(p, v)|;
    var degrees := (a: Arc) => degree(a.src) + degree(a.dst);
    var squares := (v: Id) => |Nb(p, v)| * degree(v);
    var common := (a: Arc) => |Common(p, a)|;
    var base := (a: Arc) => 4 + (-1) * degrees(a);
    var gain := (a: Arc) => 0 + 3 * common(a);
    forall a | a in order ensures a.src in nodes && a.dst in nodes { assert a in Elems(order); }
    Handshake(order, nodes, degree);
    TotalSame(nodes, squares, (v: Id) => |Nb(p, v)| * |Nb(p, v)|);
    TotalSame(nodes, squares, (v: Id) => |Nb(Elems(order), v)| * degree(v));
    TotalSame(order, degrees, (a: Arc) => degree(a.src) + degree(a.dst));
    CommonCount(p, order);
    TotalScale(order, degrees, base, 4, -1);
    TotalScale(order, common, gain, 0, 3);
    TotalSum(order, base, gain, (a: Arc) => Kappa(p, a));
    DistinctCard(order);
  }

  // ---- The curvature of one edge, counted on edges and triangles ----

  ghost function EdgesAt(p: Rel, v: Id): set<Arc> { set a | a in p && (a.src == v || a.dst == v) }

  ghost function TrianglesOn(p: Rel, a: Arc): set<Triple> {
    set t | t in Triangles(p) && (a == Arc(t.x, t.y) || a == Arc(t.y, t.z) || a == Arc(t.x, t.z))
  }

  lemma DegreeIsEdges(p: Rel, v: Id)
    requires Simple(p)
    ensures |EdgesAt(p, v)| == |Nb(p, v)|
  {
    var h := (a: Arc) => if a.src == v then a.dst else a.src;
    var s, t := EdgesAt(p, v), Nb(p, v);
    forall y | y in t ensures exists a :: a in s && h(a) == y {
      NbIff(p, v, y);
      assert Norm(v, y) in s && h(Norm(v, y)) == y;
    }
    InjectiveCard(s, t, h);
  }

  lemma CommonIsTriangles(p: Rel, a: Arc)
    requires Simple(p) && a in p
    ensures |Common(p, a)| == |TrianglesOn(p, a)|
  {
    var ts := Triangles(p);
    var f0, f1, f2 := Fiber(ts, a, 0), Fiber(ts, a, 1), Fiber(ts, a, 2);
    ThirdsSplit(p, a);
    ThirdsAreFiber(p, a, 0);
    ThirdsAreFiber(p, a, 1);
    ThirdsAreFiber(p, a, 2);
    hide *;
    forall t | t in ts ensures t.x < t.y < t.z { CornersAscend(p, t); }
    SidesApart(ts, a);
    TrianglesBySide(p, a);
    UnionCard(f0, f1);
    UnionCard(f0 + f1, f2);
  }

  lemma TrianglesBySide(p: Rel, a: Arc)
    ensures var ts := Triangles(p); TrianglesOn(p, a) == Fiber(ts, a, 0) + Fiber(ts, a, 1) + Fiber(ts, a, 2)
  {
    hide Triangles;
  }

  lemma UnionCard<T>(s: set<T>, t: set<T>)
    requires s !! t
    ensures |s + t| == |s| + |t|
  {
  }

  lemma CornersAscend(p: Rel, t: Triple)
    requires Simple(p) && t in Triangles(p)
    ensures t.x < t.y < t.z
  {
    TrianglesIff(p, t);
    assert Arc(t.x, t.y).src < Arc(t.x, t.y).dst && Arc(t.y, t.z).src < Arc(t.y, t.z).dst;
  }

  lemma SidesApart(ts: set<Triple>, a: Arc)
    requires forall t :: t in ts ==> t.x < t.y < t.z
    ensures Fiber(ts, a, 0) !! Fiber(ts, a, 1) && Fiber(ts, a, 0) + Fiber(ts, a, 1) !! Fiber(ts, a, 2)
  {
  }

  // Four, less the edges at either end, plus three for each triangle on the edge.
  lemma KappaCounts(p: Rel, a: Arc)
    requires Simple(p) && a in p
    ensures Kappa(p, a) == 4 - |EdgesAt(p, a.src)| - |EdgesAt(p, a.dst)| + 3 * |TrianglesOn(p, a)|
  {
    DegreeIsEdges(p, a.src);
    DegreeIsEdges(p, a.dst);
    CommonIsTriangles(p, a);
  }
}
