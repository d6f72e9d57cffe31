/** The order in which a breadth-first search over sorted neighbour lists finds its paths. */
module PathOrder {
  import opened Order
  import opened Walks
  import opened Distance

  // ---- Lists in dictionary order ----

  ghost predicate FirstDiff(p: seq<Id>, q: seq<Id>, k: int) {
    0 <= k < |p| && k < |q| && p[..k] == q[..k] && p[k] < q[k]
  }

  ghost predicate LexLess(p: seq<Id>, q: seq<Id>) { exists k :: FirstDiff(p, q, k) }

  // Shorter, or as long and smaller at the first difference.
  ghost predicate Before(p: seq<Id>, q: seq<Id>) { |p| < |q| || (|p| == |q| && LexLess(p, q)) }

  lemma BeforeSnoc(p: seq<Id>, q: seq<Id>, x: Id, y: Id)
    requires Before(p, q)
    ensures Before(p + [x], q + [y])
  {
    if |p| == |q| {
      var k :| FirstDiff(p, q, k);
      assert (p + [x])[..k] == p[..k] && (q + [y])[..k] == q[..k];
      assert FirstDiff(p + [x], q + [y], k);
    }
  }

  lemma BeforeLast(p: seq<Id>, x: Id, y: Id)
    requires x < y
    ensures Before(p + [x], p + [y])
  {
    assert (p + [x])[..|p|] == p && (p + [y])[..|p|] == p;
    assert FirstDiff(p + [x], p + [y], |p|);
  }

  lemma BeforeTrans(p: seq<Id>, q: seq<Id>, s: seq<Id>)
    requires Before(p, q) && Before(q, s)
    ensures Before(p, s)
  {
    if |p| == |q| == |s| {
      var k :| FirstDiff(p, q, k);
      var l :| FirstDiff(q, s, l);
      var m := if k < l then k else l;
      assert p[..m] == p[..k][..m] && q[..m] == q[..k][..m] && q[..m] == q[..l][..m] && s[..m] == s[..l][..m];
      assert k < l ==> q[..l][k] == s[..l][k];
      assert l < k ==> p[..k][l] == q[..k][l];
      assert FirstDiff(p, s, m);
    }
  }

  lemma BeforeAsym(p: seq<Id>, q: seq<Id>)
    requires Before(p, q)
    ensures p != q && !Before(q, p)
  {
    if |p| == |q| {
      var k :| FirstDiff(p, q, k);
      if LexLess(q, p) {
        var l :| FirstDiff(q, p, l);
        if k < l { SameFront(p, q, l, k); } else if l < k { SameFront(p, q, k, l); }
      }
    }
  }

  lemma SameFront(p: seq<Id>, q: seq<Id>, l: nat, k: nat)
    requires k < l <= |p| && l <= |q| && p[..l] == q[..l]
    ensures p[k] == q[k]
  {
    assert p[..l][k] == p[k] && q[..l][k] == q[k];
  }

  // ---- The tree of a search ----

  // ord: the labelled nodes as they were found; path: the way each was found; up: where in
  // ord the node stands from which it was found.
  datatype Tree = Tree(ord: seq<Id>, path: map<Id, seq<Id>>, up: map<Id, nat>)

  ghost predicate Rooted(r: Rel, from: Id, t: Tree, h: nat) {
    && Distinct(t.ord) && t.path.Keys == Elems(t.ord) && h <= |t.ord|
    && from in t.path && t.path[from] == [from]
    && forall x :: x in t.path && x != from ==> FoundFrom(r, t, h, x)
  }

  ghost predicate FoundFrom(r: Rel, t: Tree, h: nat, x: Id)
    requires x in t.path
  {
    && x in t.up && t.up[x] < h && t.up[x] < |t.ord| && t.ord[t.up[x]] in t.path
    && Arc(t.ord[t.up[x]], x) in r && t.path[x] == t.path[t.ord[t.up[x]]] + [x]
  }

  // Each node was found from the first one that leads to it.
  ghost predicate FoundFirst(r: Rel, from: Id, t: Tree, h: nat) {
    forall x, i :: x in t.path && x != from && x in t.up && 0 <= i < h && i < |t.ord| && Arc(t.ord[i], x) in r ==>
      t.up[x] <= i
  }

  // The ways come in order.
  ghost predicate InOrder(t: Tree) {
    forall i, j :: 0 <= i < j < |t.ord| && t.ord[i] in t.path && t.ord[j] in t.path ==>
      Before(t.path[t.ord[i]], t.path[t.ord[j]])
  }

  ghost predicate TreeOk(r: Rel, from: Id, t: Tree, h: nat) {
    Rooted(r, from, t, h) && FoundFirst(r, from, t, h) && InOrder(t)
  }

  ghost function Sprout(from: Id): Tree { Tree([from], map[from := [from]], map[]) }

  lemma SproutOk(r: Rel, from: Id)
    ensures TreeOk(r, from, Sprout(from), 0)
  {
  }

  // The next node in order begins to be expanded.
  lemma NextUp(r: Rel, from: Id, t: Tree, h: nat)
    requires TreeOk(r, from, t, h) && h < |t.ord|
    ensures TreeOk(r, from, t, h + 1)
  {
    hide InOrder;
  }

  ghost function Grown(t: Tree, h: nat, x: Id): Tree
    requires 0 < h <= |t.ord| && t.ord[h - 1] in t.path
  {
    Tree(t.ord + [x], t.path[x := t.path[t.ord[h - 1]] + [x]], t.up[x := h - 1])
  }

  // What was found from the node being expanded is below x.
  ghost predicate SiblingsBelow(from: Id, t: Tree, h: nat, x: Id) {
    forall y :: y in t.path && y != from && y in t.up && t.up[y] == h - 1 ==> y < x
  }

  lemma GrownOk(r: Rel, from: Id, t: Tree, h: nat, x: Id)
    requires TreeOk(r, from, t, h) && 0 < h && x !in t.path && Arc(t.ord[h - 1], x) in r
    requires SiblingsBelow(from, t, h, x)
    requires forall i :: 0 <= i < h - 1 ==> Arc(t.ord[i], x) !in r
    ensures t.ord[h - 1] in t.path && TreeOk(r, from, Grown(t, h, x), h)
  {
    hide Before;
    assert t.ord[h - 1] in Elems(t.ord);
    GrownRooted(r, from, t, h, x);
    GrownFirst(r, from, t, h, x);
    GrownInOrder(r, from, t, h, x);
  }

  lemma GrownRooted(r: Rel, from: Id, t: Tree, h: nat, x: Id)
    requires Rooted(r, from, t, h) && 0 < h && x !in t.path && t.ord[h - 1] in t.path && Arc(t.ord[h - 1], x) in r
    ensures Rooted(r, from, Grown(t, h, x), h)
  {
    hide FoundFrom;
    var g := Grown(t, h, x);
    assert Elems(g.ord) == Elems(t.ord) + {x};
    assert x !in t.ord by { assert x !in Elems(t.ord); }
    forall y | y in g.path && y != from ensures FoundFrom(r, g, h, y) {
      if y != x { FoundStays(r, t, h, x, y); } else { NewFound(r, t, h, x); }
    }
  }

  lemma FoundStays(r: Rel, t: Tree, h: nat, x: Id, y: Id)
    requires 0 < h <= |t.ord| && t.ord[h - 1] in t.path && x !in t.path && y in t.path && FoundFrom(r, t, h, y)
    ensures FoundFrom(r, Grown(t, h, x), h, y)
  {
    assert Grown(t, h, x).ord[t.up[y]] == t.ord[t.up[y]];
  }

  lemma NewFound(r: Rel, t: Tree, h: nat, x: Id)
    requires 0 < h <= |t.ord| && t.ord[h - 1] in t.path && x !in t.path && Arc(t.ord[h - 1], x) in r
    ensures FoundFrom(r, Grown(t, h, x), h, x)
  {
    assert Grown(t, h, x).ord[h - 1] == t.ord[h - 1];
  }

  lemma GrownFirst(r: Rel, from: Id, t: Tree, h: nat, x: Id)
    requires Rooted(r, from, t, h) && FoundFirst(r, from, t, h) && 0 < h && x !in t.path && t.ord[h - 1] in t.path
    requires forall i :: 0 <= i < h - 1 ==> Arc(t.ord[i], x) !in r
    ensures FoundFirst(r, from, Grown(t, h, x), h)
  {
    var g := Grown(t, h, x);
    forall y, i | y in g.path && y != from && y in g.up && 0 <= i < h && i < |g.ord| && Arc(g.ord[i], y) in r
      ensures g.up[y] <= i
    {
      assert g.ord[i] == t.ord[i];
    }
  }

  lemma GrownInOrder(r: Rel, from: Id, t: Tree, h: nat, x: Id)
    requires Rooted(r, from, t, h) && InOrder(t) && 0 < h && x !in t.path && t.ord[h - 1] in t.path
    requires SiblingsBelow(from, t, h, x)
    ensures InOrder(Grown(t, h, x))
  {
    hide Before;
    var g := Grown(t, h, x);
    forall i, j | 0 <= i < j < |g.ord| && g.ord[i] in g.path && g.ord[j] in g.path
      ensures Before(g.path[g.ord[i]], g.path[g.ord[j]])
    {
      assert g.ord[i] == t.ord[i] && t.ord[i] in Elems(t.ord);
      if j < |t.ord| {
        assert g.ord[j] == t.ord[j] && t.ord[j] in Elems(t.ord);
      } else {
        BeforeNew(r, from, t, h, x, t.ord[i]);
      }
    }
  }

  lemma BeforeNew(r: Rel, from: Id, t: Tree, h: nat, x: Id, y: Id)
    requires Rooted(r, from, t, h) && InOrder(t) && 0 < h && t.ord[h - 1] in t.path && y in t.path
    requires SiblingsBelow(from, t, h, x)
    ensures Before(t.path[y], t.path[t.ord[h - 1]] + [x])
  {
    hide InOrder, FoundFirst;
    var p := t.ord[h - 1];
    if y == from {
      PathsNonEmpty(r, from, t, h, p);
      assert |t.path[y]| < |t.path[p] + [x]|;
    } else {
      assert FoundFrom(r, t, h, y);
      var u := t.up[y];
      if u == h - 1 {
        BeforeLast(t.path[p], y, x);
      } else {
        OrdBefore(t, u, h - 1);
        BeforeSnoc(t.path[t.ord[u]], t.path[p], y, x);
      }
    }
  }

  lemma OrdBefore(t: Tree, i: nat, j: nat)
    requires InOrder(t) && i < j < |t.ord| && t.ord[i] in t.path && t.ord[j] in t.path
    ensures Before(t.path[t.ord[i]], t.path[t.ord[j]])
  {
    hide Before;
  }

  lemma PathsNonEmpty(r: Rel, from: Id, t: Tree, h: nat, x: Id)
    requires Rooted(r, from, t, h) && x in t.path
    ensures t.path[x] != []
  {
    if x != from { assert FoundFrom(r, t, h, x); }
  }

  // ---- The tree beside the search ----

  // The tree has the labelled nodes: the first h are closed, the others queued, and each
  // way is as long as its label says and ends as the predecessor links do.
  ghost predicate Fits(t: Tree, h: nat, from: Id, dist: map<Id, int>, prev: map<Id, Id>, closed: set<Id>,
                       queue: seq<Id>) {
    && h <= |t.ord| && Elems(t.ord[..h]) == closed && t.ord[h..] == queue
    && t.path.Keys == dist.Keys == prev.Keys
    && (forall x :: x in t.path ==> |t.path[x]| == dist[x] + 1)
    && (forall x :: x in t.path && x != from ==> x in t.up && t.up[x] < |t.ord| && prev[x] == t.ord[t.up[x]])
  }

  lemma SproutFits(from: Id)
    ensures Fits(Sprout(from), 0, from, map[from := 0], map[from := 0], {}, [from])
  {
  }

  lemma NextFits(t: Tree, h: nat, from: Id, dist: map<Id, int>, prev: map<Id, Id>, closed: set<Id>, queue: seq<Id>)
    requires Fits(t, h, from, dist, prev, closed, queue) && queue != []
    ensures h < |t.ord| && t.ord[h] == queue[0] && Fits(t, h + 1, from, dist, prev, closed + {queue[0]}, queue[1..])
  {
    assert t.ord[..h + 1] == t.ord[..h] + [t.ord[h]];
    assert Elems(t.ord[..h + 1]) == Elems(t.ord[..h]) + {t.ord[h]};
  }

  lemma GrownFits(t: Tree, h: nat, from: Id, dist: map<Id, int>, prev: map<Id, Id>, closed: set<Id>, queue: seq<Id>,
                  x: Id)
    requires Fits(t, h, from, dist, prev, closed, queue) && 0 < h && t.ord[h - 1] in t.path && x !in t.path && x != from
    ensures var p := t.ord[h - 1];
            p in dist && Fits(Grown(t, h, x), h, from, dist[x := dist[p] + 1], prev[x := p], closed, queue + [x])
  {
    var g := Grown(t, h, x);
    assert g.ord[..h] == t.ord[..h] && g.ord[h..] == t.ord[h..] + [x] && g.ord[h - 1] == t.ord[h - 1];
    forall y | y in t.path && y != from ensures g.ord[t.up[y]] == t.ord[t.up[y]] { }
  }

  // No closed node leads to an unlabelled one.
  lemma ClosedLead(r: Rel, from: Id, dist: map<Id, int>, done: set<Id>, queue: seq<Id>, cur: set<Id>, x: Id)
    requires Search(r, from, -1, dist, done, queue, cur) && x !in dist
    ensures forall a :: a in done ==> Arc(a, x) !in r
  {
    forall a | a in done ensures Arc(a, x) !in r { assert Arc(a, x).src == a; }
  }

  lemma LastStep(r: Rel, q: seq<Id>, from: Id, x: Id)
    requires WalkFromTo(r, q, from, x) && |q| > 1
    ensures var n := |q| - 1; WalkFromTo(r, q[..n], from, q[n - 1]) && Arc(q[n - 1], x) in r && q == q[..n] + [x]
  {
    var n := |q| - 1;
    assert Step(r, q, n - 1);
    forall i | 0 <= i < n - 1 ensures Step(r, q[..n], i) { assert Step(r, q, i); }
  }

  // The node before the last on a shortest walk is closed, one step closer.
  lemma StepCloser(r: Rel, from: Id, dist: map<Id, int>, done: set<Id>, queue: seq<Id>, x: Id, q: seq<Id>, y: Id)
    requires Search(r, from, -1, dist, done, queue, {}) && queue != [] && queue[0] in dist
    requires x in dist && dist[x] <= dist[queue[0]] && WalkFromTo(r, q, from, y) && |q| == dist[x] && Arc(y, x) in r
    ensures y in dist && y in done && dist[y] == |q| - 1
  {
    WalkWithin(r, {from}, q);
    Labelled(r, from, -1, dist, done, queue, y, |q| - 1);
    NotQueued(dist, done, queue, y);
    assert Arc(y, x).src in done;
  }

  lemma NotQueued(dist: map<Id, int>, done: set<Id>, queue: seq<Id>, y: Id)
    requires dist.Keys == done + Elems(queue) && queue != [] && queue[0] in dist
    requires y in dist && dist[y] < dist[queue[0]]
    requires QueueOrder(dist, done, queue, {})
    ensures y in done
  {
    forall i | 0 <= i < |queue| ensures queue[i] != y { }
  }

  // When a node stands at the head of the queue, the way to it, and to every node that is
  // no further, comes first among all shortest walks.
  lemma {:induction false} WaysComeFirst(r: Rel, from: Id, t: Tree, h: nat, dist: map<Id, int>, prev: map<Id, Id>,
                                         done: set<Id>, queue: seq<Id>, x: Id, q: seq<Id>)
    requires TreeOk(r, from, t, h) && Fits(t, h, from, dist, prev, done, queue)
    requires Search(r, from, -1, dist, done, queue, {}) && queue != [] && queue[0] in dist
    requires x in dist && dist[x] <= dist[queue[0]] && WalkFromTo(r, q, from, x) && |q| == dist[x] + 1
    ensures t.path[x] == q || Before(t.path[x], q)
    decreases |q|
  {
    hide Before, Search, QueueOrder, FoundFirst, InOrder;
    if |q| == 1 {
      assert q == [from];
    } else {
      var n := |q| - 1;
      var y := q[n - 1];
      LastStep(r, q, from, x);
      StepCloser(r, from, dist, done, queue, x, q[..n], y);
      WaysComeFirst(r, from, t, h, dist, prev, done, queue, y, q[..n]);
      assert x != from by { RootLabel(t, h, from, dist, prev, done, queue); }
      assert FoundFrom(r, t, h, x);
      var u := t.ord[t.up[x]];
      EarlierWay(r, from, t, h, x, y);
      if t.path[u] != t.path[y] && t.path[y] != q[..n] { BeforeTrans(t.path[u], t.path[y], q[..n]); }
      if t.path[u] != q[..n] { BeforeSnoc(t.path[u], q[..n], x, x); }
    }
  }

  lemma RootLabel(t: Tree, h: nat, from: Id, dist: map<Id, int>, prev: map<Id, Id>, closed: set<Id>, queue: seq<Id>)
    requires Fits(t, h, from, dist, prev, closed, queue) && from in t.path && t.path[from] == [from]
    ensures from in dist && dist[from] == 0
  {
  }

  // Of two closed nodes that lead to x, the way to x goes through the first.
  lemma EarlierWay(r: Rel, from: Id, t: Tree, h: nat, x: Id, y: Id)
    requires TreeOk(r, from, t, h) && x in t.path && x != from && FoundFrom(r, t, h, x)
    requires y in t.path && y in Elems(t.ord[..h]) && Arc(y, x) in r
    ensures var u := t.ord[t.up[x]]; t.path[u] == t.path[y] || Before(t.path[u], t.path[y])
  {
    hide Before;
    var i :| 0 <= i < h && t.ord[..h][i] == y;
    assert t.ord[i] == y;
    if t.up[x] < i { OrdBefore(t, t.up[x], i); }
  }
}
