/** Cut vertices by the Hopcroft-Tarjan depth-first search, with the size each one is
    reported with. First the declarative side: components of the graph without a node. */
module CutVertices {
  import opened Order
  import opened Walks

  // A simple undirected graph as a symmetric relation.
  ghost predicate Undirected(r: Rel) {
    forall e :: e in r ==> e.src != e.dst && Arc(e.dst, e.src) in r
  }

  // The graph without node u.
  ghost function Avoid(r: Rel, u: Id): Rel {
    set e | e in r && e.src != u && e.dst != u
  }

  ghost function Inside(r: Rel, s: set<Id>): Rel {
    set e | e in r && e.src in s && e.dst in s
  }

  ghost function Neighbours(r: Rel, u: Id): set<Id> {
    set e | e in r && e.src == u :: e.dst
  }

  // Removing u separates two other nodes that were connected.
  ghost predicate IsCut(r: Rel, u: Id) {
    exists a, b :: a != u && b != u && Reach(r, a, b) && !Reach(Avoid(r, u), a, b)
  }

  // k is a component of the graph without u that is next to u and misses the anchor.
  ghost predicate Guarded(r: Rel, u: Id, anchor: Id, k: set<Id>) {
    && IsScc(Avoid(r, u), k)
    && anchor !in k
    && Touches(r, u, k)
  }

  ghost predicate Touches(r: Rel, u: Id, k: set<Id>) {
    exists x :: x in k && Arc(u, x) in r
  }

  lemma ReachSymmetric(r: Rel, a: Id, b: Id)
    requires (forall e :: e in r ==> Arc(e.dst, e.src) in r) && Reach(r, a, b)
    ensures Reach(r, b, a)
  {
    var p :| WalkFromTo(r, p, a, b);
    var q := seq(|p|, i requires 0 <= i < |p| => p[|p| - 1 - i]);
    forall i | 0 <= i < |q| - 1 ensures Step(r, q, i) {
      assert Step(r, p, |p| - 2 - i);
    }
    assert WalkFromTo(r, q, b, a);
  }

  lemma AvoidSymmetric(r: Rel, u: Id, a: Id, b: Id)
    requires Undirected(r) && Reach(Avoid(r, u), a, b)
    ensures Reach(Avoid(r, u), b, a)
  {
    ReachSymmetric(Avoid(r, u), a, b);
  }

  // The component of x in the graph without u.
  ghost function ComponentOf(r: Rel, u: Id, x: Id): set<Id> {
    (set e | e in r && Reach(Avoid(r, u), x, e.src) :: e.src) + {x}
  }

  lemma ComponentOfIsScc(r: Rel, u: Id, x: Id)
    requires Undirected(r)
    ensures IsScc(Avoid(r, u), ComponentOf(r, u, x)) && x in ComponentOf(r, u, x)
    ensures forall y :: y in ComponentOf(r, u, x) ==> Reach(Avoid(r, u), x, y)
  {
    var n, c := Avoid(r, u), ComponentOf(r, u, x);
    ReachRefl(n, x);
    forall a, b {:trigger Reach(n, a, b)} | a in c && b in c ensures Reach(n, a, b) {
      AvoidSymmetric(r, u, x, a);
      ReachTrans(n, a, x, b);
    }
    forall a, b {:trigger Mutual(n, a, b)} | a in c && Mutual(n, a, b) ensures b in c {
      ReachTrans(n, x, a, b);
      if b != x {
        AvoidSymmetric(r, u, x, b);
        ReachFirst(n, b, x);
        var y :| Arc(b, y) in n;
      }
    }
  }

  // u is a cut vertex if and only if some component next to u misses the anchor, for
  // any neighbour chosen as anchor.
  lemma CutIffGuarded(r: Rel, u: Id, anchor: Id)
    requires Undirected(r) && (Neighbours(r, u) == {} || anchor in Neighbours(r, u))
    ensures IsCut(r, u) <==> exists k :: Guarded(r, u, anchor, k)
  {
    if k :| Guarded(r, u, anchor, k) {
      var x :| x in k && Arc(u, x) in r;
      assert Arc(u, x).dst in Neighbours(r, u);
      GuardedIsCut(r, u, anchor, k);
    }
    if IsCut(r, u) && !exists k :: Guarded(r, u, anchor, k) {
      var a, b :| a != u && b != u && Reach(r, a, b) && !Reach(Avoid(r, u), a, b);
      forall x | Arc(u, x) in r ensures Reach(Avoid(r, u), x, anchor) {
        ComponentOfIsScc(r, u, x);
        assert Touches(r, u, ComponentOf(r, u, x));
        assert !Guarded(r, u, anchor, ComponentOf(r, u, x));
      }
      Detour(r, u, anchor, a, b);
    }
  }

  lemma GuardedIsCut(r: Rel, u: Id, anchor: Id, k: set<Id>)
    requires Undirected(r) && Guarded(r, u, anchor, k) && anchor in Neighbours(r, u)
    ensures IsCut(r, u)
  {
    var n := Avoid(r, u);
    var x :| x in k && Arc(u, x) in r;
    var e := Arc(u, x);
    ReachEdge(r, x, u);
    ReachEdge(r, u, anchor);
    ReachTrans(r, x, u, anchor);
    if Reach(n, x, anchor) {
      AvoidSymmetric(r, u, x, anchor);
      assert Mutual(n, x, anchor);
    }
  }

  // When the neighbours of u are connected without u, every walk has a detour.
  lemma Detour(r: Rel, u: Id, anchor: Id, a: Id, b: Id)
    requires Undirected(r) && a != u && b != u && Reach(r, a, b)
    requires forall x :: Arc(u, x) in r ==> Reach(Avoid(r, u), x, anchor)
    ensures Reach(Avoid(r, u), a, b)
  {
    var n := Avoid(r, u);
    var p :| WalkFromTo(r, p, a, b);
    ReachRefl(n, a);
    for i := 0 to |p| - 1
      invariant Reach(n, a, if p[i] == u then anchor else p[i])
    {
      assert Step(r, p, i);
      var e := Arc(p[i], p[i + 1]);
      assert e in r && Arc(e.dst, e.src) in r;
      if p[i] == u {
        AvoidSymmetric(r, u, p[i + 1], anchor);
        ReachTrans(n, a, anchor, p[i + 1]);
      } else if p[i + 1] == u {
        ReachTrans(n, a, p[i], anchor);
      } else {
        ReachEdge(n, p[i], p[i + 1]);
        ReachTrans(n, a, p[i], p[i + 1]);
      }
    }
  }

  // What the reported size of u is: the largest guarded component.
  ghost predicate ScoreOk(r: Rel, u: Id, anchor: Id, art: map<Id, int>) {
    && (u in art ==> exists k :: Guarded(r, u, anchor, k) && |k| == art[u])
    && (forall k {:trigger Guarded(r, u, anchor, k)} :: Guarded(r, u, anchor, k) ==> u in art && |k| <= art[u])
  }

  // The node the reported size leaves out: the tree parent, or for the first node of a
  // component its least neighbour, which is the child visited first.
  ghost function Anchor(r: Rel, parent: map<Id, Id>, u: Id): Id {
    if u in parent then parent[u]
    else if Neighbours(r, u) == {} then u
    else Least(Neighbours(r, u))
  }

  // One finished child subtree of a node u whose tree ancestors are gray.
  datatype Kid = Kid(top: Id, nodes: set<Id>)

  ghost predicate KidOk(r: Rel, gray: set<Id>, u: Id, kid: Kid) {
    && kid.top in kid.nodes && Arc(u, kid.top) in r
    && u !in kid.nodes && kid.nodes !! gray
    && ConnectedFrom(r, kid.nodes, kid.top)
    && (forall e :: e in r && e.src in kid.nodes ==> e.dst in kid.nodes || e.dst in gray || e.dst == u)
  }

  ghost predicate ConnectedFrom(r: Rel, s: set<Id>, top: Id) {
    forall x {:trigger Reach(Inside(r, s), top, x)} :: x in s ==> Reach(Inside(r, s), top, x)
  }

  // Some node of the subtree has an edge to a proper ancestor of u.
  ghost predicate Up(r: Rel, gray: set<Id>, kid: Kid) {
    exists e :: e in r && e.src in kid.nodes && e.dst in gray
  }

  ghost predicate Linked(r: Rel, gray: set<Id>) {
    forall x, y {:trigger Reach(Inside(r, gray), x, y)} :: x in gray && y in gray ==> Reach(Inside(r, gray), x, y)
  }

  lemma InsideAvoids(r: Rel, s: set<Id>, u: Id, a: Id, b: Id)
    requires u !in s && Reach(Inside(r, s), a, b)
    ensures Reach(Avoid(r, u), a, b)
  {
    ReachMono(Inside(r, s), Avoid(r, u), a, b);
  }

  lemma KidConnected(r: Rel, gray: set<Id>, u: Id, kid: Kid, a: Id, b: Id)
    requires Undirected(r) && KidOk(r, gray, u, kid) && a in kid.nodes && b in kid.nodes
    ensures Reach(Avoid(r, u), a, b)
  {
    InsideAvoids(r, kid.nodes, u, kid.top, a);
    InsideAvoids(r, kid.nodes, u, kid.top, b);
    AvoidSymmetric(r, u, kid.top, a);
    ReachTrans(Avoid(r, u), a, kid.top, b);
  }

  // A subtree without an edge to a proper ancestor is a component without u.
  lemma KidIsComponent(r: Rel, gray: set<Id>, u: Id, kid: Kid)
    requires Undirected(r) && KidOk(r, gray, u, kid) && !Up(r, gray, kid)
    ensures IsScc(Avoid(r, u), kid.nodes) && Touches(r, u, kid.nodes)
  {
    var n := Avoid(r, u);
    forall a, b {:trigger Reach(n, a, b)} | a in kid.nodes && b in kid.nodes ensures Reach(n, a, b) {
      KidConnected(r, gray, u, kid, a, b);
    }
    assert Closed(n, kid.nodes);
    forall a, b {:trigger Mutual(n, a, b)} | a in kid.nodes && Mutual(n, a, b) ensures b in kid.nodes {
      ReachClosed(n, kid.nodes, a, b);
    }
  }

  // Otherwise it hangs together with all the ancestors.
  lemma KidMeetsGray(r: Rel, gray: set<Id>, u: Id, kid: Kid, x: Id, g: Id)
    requires Undirected(r) && KidOk(r, gray, u, kid) && Up(r, gray, kid)
    requires Linked(r, gray) && u !in gray && x in kid.nodes && g in gray
    ensures Reach(Avoid(r, u), x, g)
  {
    var n := Avoid(r, u);
    var e :| e in r && e.src in kid.nodes && e.dst in gray;
    KidConnected(r, gray, u, kid, x, e.src);
    assert Arc(e.src, e.dst) in n;
    ReachEdge(n, e.src, e.dst);
    InsideAvoids(r, gray, u, e.dst, g);
    ReachTrans(n, x, e.src, e.dst);
    ReachTrans(n, x, e.dst, g);
  }

  // Which child subtrees are scored: for the root all but the first, for any other node
  // those without an edge to a proper ancestor.
  ghost predicate Scored(r: Rel, gray: set<Id>, kids: seq<Kid>, k: int)
    requires 0 <= k < |kids|
  {
    if gray == {} then k > 0 else !Up(r, gray, kids[k])
  }

  // art[u] is the largest scored size so far.
  ghost predicate ArtSoFar(r: Rel, gray: set<Id>, u: Id, kids: seq<Kid>, art: map<Id, int>) {
    && (u in art ==> exists k :: 0 <= k < |kids| && Scored(r, gray, kids, k) && |kids[k].nodes| == art[u])
    && (forall k {:trigger Scored(r, gray, kids, k)} :: 0 <= k < |kids| && Scored(r, gray, kids, k)
          ==> u in art && |kids[k].nodes| <= art[u])
  }

  ghost predicate KidsOk(r: Rel, gray: set<Id>, u: Id, kids: seq<Kid>) {
    && (forall k :: 0 <= k < |kids| ==> KidOk(r, gray, u, kids[k]))
    && (forall k, l :: 0 <= k < l < |kids| ==> kids[k].nodes !! kids[l].nodes)
  }

  ghost predicate InKid(kids: seq<Kid>, x: Id) {
    exists k :: 0 <= k < |kids| && x in kids[k].nodes
  }

  // The anchor of u while its ancestors are gray.
  ghost predicate AnchorFits(r: Rel, gray: set<Id>, u: Id, kids: seq<Kid>, anchor: Id) {
    if gray != {} then anchor in gray else kids != [] ==> anchor == kids[0].top
  }

  // Once all neighbours of u are ancestors or in child subtrees, the scored subtrees are
  // exactly the guarded components.
  lemma ScoredIsGuarded(r: Rel, gray: set<Id>, u: Id, kids: seq<Kid>, anchor: Id, k: int)
    requires Undirected(r) && Linked(r, gray) && u !in gray && KidsOk(r, gray, u, kids)
    requires AnchorFits(r, gray, u, kids, anchor)
    requires 0 <= k < |kids| && Scored(r, gray, kids, k)
    ensures Guarded(r, u, anchor, kids[k].nodes)
  {
    KidIsComponent(r, gray, u, kids[k]);
    if gray == {} { assert kids[0].top in kids[0].nodes; }
  }

  lemma GuardedIsScored(r: Rel, gray: set<Id>, u: Id, kids: seq<Kid>, anchor: Id, c: set<Id>)
    returns (k: int)
    requires Undirected(r) && Linked(r, gray) && u !in gray && KidsOk(r, gray, u, kids)
    requires AnchorFits(r, gray, u, kids, anchor)
    requires forall e :: e in r && e.src == u ==> e.dst in gray || InKid(kids, e.dst)
    requires Guarded(r, u, anchor, c)
    ensures 0 <= k < |kids| && Scored(r, gray, kids, k) && c == kids[k].nodes
  {
    hide IsScc, Reach, InKid, Inside, Avoid, Undirected;
    var x :| x in c && Arc(u, x) in r;
    assert Arc(u, x).dst in gray || InKid(kids, x);
    if x in gray {
      InsideAvoids(r, gray, u, x, anchor);
      AnchorInside(r, u, anchor, c, x);
    }
    k := KidWith(kids, x);
    if gray != {} && Up(r, gray, kids[k]) {
      KidMeetsGray(r, gray, u, kids[k], x, anchor);
      AnchorInside(r, u, anchor, c, x);
    }
    KidIsComponent(r, gray, u, kids[k]);
    SameComponent(Avoid(r, u), c, kids[k].nodes, x);
    assert kids[0].top in kids[0].nodes;
  }

  lemma KidWith(kids: seq<Kid>, x: Id) returns (k: int)
    requires InKid(kids, x)
    ensures 0 <= k < |kids| && x in kids[k].nodes
  {
    k :| 0 <= k < |kids| && x in kids[k].nodes;
  }

  // A component that is connected to the anchor contains it.
  lemma AnchorInside(r: Rel, u: Id, anchor: Id, c: set<Id>, x: Id)
    requires Undirected(r) && IsScc(Avoid(r, u), c) && x in c && Reach(Avoid(r, u), x, anchor)
    ensures anchor in c
  {
    AvoidSymmetric(r, u, x, anchor);
    assert Mutual(Avoid(r, u), x, anchor);
  }

  lemma FinishScore(r: Rel, gray: set<Id>, u: Id, kids: seq<Kid>, anchor: Id, art: map<Id, int>)
    requires Undirected(r) && Linked(r, gray) && u !in gray && KidsOk(r, gray, u, kids)
    requires AnchorFits(r, gray, u, kids, anchor)
    requires forall e :: e in r && e.src == u ==> e.dst in gray || InKid(kids, e.dst)
    requires ArtSoFar(r, gray, u, kids, art)
    ensures ScoreOk(r, u, anchor, art)
  {
    hide Guarded, KidsOk, InKid, Scored, Linked;
    if u in art {
      var k :| 0 <= k < |kids| && Scored(r, gray, kids, k) && |kids[k].nodes| == art[u];
      ScoredIsGuarded(r, gray, u, kids, anchor, k);
    }
    forall c {:trigger Guarded(r, u, anchor, c)} | Guarded(r, u, anchor, c) ensures u in art && |c| <= art[u] {
      var k := GuardedIsScored(r, gray, u, kids, anchor, c);
    }
  }
}
