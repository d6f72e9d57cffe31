/** The Hopcroft-Tarjan search itself: the recursive closure dfs over shared maps. */
module Articulation {
  import opened Order
  import opened Walks
  import opened CutVertices

  // The shared variables of the search.
  datatype Dfs = Dfs(
    disc: map<Id, int>, low: map<Id, int>, parent: map<Id, Id>, size: map<Id, int>, art: map<Id, int>, timer: int)

  ghost predicate Numbered(s: Dfs, gray: set<Id>) {
    && s.low.Keys == s.disc.Keys && s.size.Keys == s.disc.Keys
    && gray <= s.disc.Keys
    && s.art.Keys <= s.disc.Keys
    && (forall x :: x in s.disc ==> s.disc[x] <= s.timer)
  }

  // A finished node has no edge to an undiscovered node.
  ghost predicate Settled(r: Rel, s: Dfs, gray: set<Id>) {
    forall e :: e in r && e.src in s.disc && e.src !in gray ==> e.dst in s.disc
  }

  // Every finished node carries its final score.
  ghost predicate Scores(r: Rel, s: Dfs, gray: set<Id>) {
    forall x {:trigger ScoreOk(r, x, Anchor(r, s.parent, x), s.art)} ::
      x in s.disc && x !in gray ==> ScoreOk(r, x, Anchor(r, s.parent, x), s.art)
  }

  // gray is the set of nodes on the call stack.
  ghost predicate Wf(r: Rel, s: Dfs, gray: set<Id>) {
    && Numbered(s, gray)
    && Linked(r, gray)
    && Settled(r, s, gray)
    && Scores(r, s, gray)
  }

  ghost predicate Extends(s0: Dfs, s: Dfs) {
    && s0.timer <= s.timer
    && (forall x :: x in s0.disc ==> x in s.disc && s.disc[x] == s0.disc[x])
    && (forall x :: x in s0.low ==> x in s.low && s.low[x] == s0.low[x])
    && (forall x :: x in s0.size ==> x in s.size && s.size[x] == s0.size[x])
    && (forall x :: x in s0.parent ==> x in s.parent && s.parent[x] == s0.parent[x])
    && (forall x :: x in s0.disc ==> (x in s.parent <==> x in s0.parent))
    && (forall x :: x in s0.disc ==> (x in s.art <==> x in s0.art))
    && (forall x :: x in s0.disc && x in s0.art ==> s.art[x] == s0.art[x])
    && (forall x :: x in s.disc && x !in s0.disc ==> s0.timer < s.disc[x])
  }

  // The nodes discovered between two states.
  ghost function New(s0: Dfs, s: Dfs): set<Id> { s.disc.Keys - s0.disc.Keys }

  ghost predicate IsParent(s: Dfs, u: Id, p: Id) { u in s.parent && s.parent[u] == p }

  // low[u] stays at or below the discovery of every ancestor next to `from`, the tree
  // edge from u to its parent aside.
  ghost predicate LowComplete(r: Rel, s: Dfs, from: set<Id>, gray: set<Id>, u: Id)
    requires u in s.low
  {
    forall e :: e in r && e.src in from && e.dst in gray && !(e.src == u && IsParent(s, u, e.dst))
      ==> e.dst in s.disc && s.low[u] <= s.disc[e.dst]
  }

  // An edge from the subtree to an ancestor discovered at time k.
  ghost predicate BackEdge(r: Rel, s: Dfs, from: set<Id>, gray: set<Id>, k: int, e: Arc) {
    e in r && e.src in from && e.dst in gray && e.dst in s.disc && s.disc[e.dst] == k
  }

  // low[u] is disc[u], or the discovery of an ancestor next to the subtree.
  ghost predicate LowSound(r: Rel, s: Dfs, from: set<Id>, gray: set<Id>, u: Id) {
    && u in s.low && u in s.disc && s.low[u] <= s.disc[u]
    && (s.low[u] < s.disc[u] ==> exists e :: BackEdge(r, s, from, gray, s.low[u], e))
  }

  // dfs(u) may be entered: the ancestors are the gray nodes, the parent is the newest.
  ghost predicate CanEnter(r: Rel, s: Dfs, gray: set<Id>, u: Id) {
    && Undirected(r)
    && Wf(r, s, gray)
    && u !in s.disc
    && s.parent.Keys <= s.disc.Keys + {u}
    && (u in s.parent <==> gray != {})
    && (u in s.parent ==> s.parent[u] in gray && Arc(s.parent[u], u) in r)
    && (forall x :: x in gray && u in s.parent && x != s.parent[u] ==> s.disc[x] < s.disc[s.parent[u]])
  }

  // The contract of dfs(u), entered in s0 and left in s.
  ghost predicate Finished(r: Rel, s0: Dfs, gray: set<Id>, u: Id, s: Dfs) {
    && Wf(r, s, gray)
    && Extends(s0, s)
    && s.parent.Keys <= s.disc.Keys
    && u !in s0.disc && u in s.disc
    && (u in s.parent <==> gray != {})
    && (forall x :: x in s.disc && x !in s0.disc && x != u ==> x in s.parent)
    && ConnectedFrom(r, New(s0, s), u)
    && SizeOk(s0, u, s)
    && LowSound(r, s, New(s0, s), gray, u)
    && LowComplete(r, s, New(s0, s), gray, u)
  }

  ghost predicate Covers(s0: Dfs, u: Id, kids: seq<Kid>, s: Dfs) {
    && (forall k :: 0 <= k < |kids| ==> kids[k].nodes <= s.disc.Keys && kids[k].nodes !! s0.disc.Keys)
    && (forall x {:trigger InKid(kids, x)} :: x in s.disc && x !in s0.disc && x != u ==> InKid(kids, x))
  }

  // In the middle of the loop over the neighbours of u. What is new since dfs(u) began:
  ghost predicate ScanBase(s0: Dfs, gray: set<Id>, u: Id, s: Dfs) {
    && Extends(s0, s)
    && s.parent.Keys <= s.disc.Keys
    && u !in s0.disc && u in s.disc && s.disc[u] == s0.timer + 1
    && (forall x :: x in s.disc && x !in s0.disc && x != u ==> s.disc[u] < s.disc[x])
    && (forall x :: x in s.disc && x !in s0.disc && x != u ==> x in s.parent)
    && (u in s.parent <==> gray != {})
  }

  ghost predicate SizeOk(s0: Dfs, u: Id, s: Dfs) {
    u in s.size && s.size[u] == |New(s0, s)|
  }

  // what is known of low[u] once the neighbours ws are processed:
  ghost predicate ScanLow(r: Rel, s0: Dfs, gray: set<Id>, u: Id, s: Dfs, ws: set<Id>) {
    && LowSound(r, s, New(s0, s), gray, u)
    && LowComplete(r, s, New(s0, s) - {u}, gray, u)
    && (forall w :: w in ws ==> w in s.disc)
    && (forall w :: w in ws && w in gray && !IsParent(s, u, w) ==> s.low[u] <= s.disc[w])
  }

  // and which child subtrees are finished.
  ghost predicate ScanKids(r: Rel, s0: Dfs, gray: set<Id>, u: Id, s: Dfs, kids: seq<Kid>) {
    && KidsOk(r, gray, u, kids)
    && Covers(s0, u, kids, s)
    && ArtSoFar(r, gray, u, kids, s.art)
    && (u in s.art ==> s.art[u] > 0)
  }

  ghost predicate Scanning(r: Rel, s0: Dfs, gray: set<Id>, u: Id, s: Dfs, ws: set<Id>, kids: seq<Kid>) {
    && Wf(r, s, gray + {u})
    && ScanBase(s0, gray, u, s)
    && SizeOk(s0, u, s)
    && ScanLow(r, s0, gray, u, s, ws)
    && ScanKids(r, s0, gray, u, s, kids)
  }

  ghost function Enter(s: Dfs, u: Id): Dfs {
    s.(timer := s.timer + 1, disc := s.disc[u := s.timer + 1], low := s.low[u := s.timer + 1], size := s.size[u := 1])
  }

  lemma LinkMore(r: Rel, gray: set<Id>, p: Id, u: Id)
    requires Undirected(r) && Linked(r, gray) && (gray == {} || (p in gray && Arc(p, u) in r))
    ensures Linked(r, gray + {u})
  {
    var g, h := Inside(r, gray), Inside(r, gray + {u});
    ReachRefl(h, u);
    assert g <= h;
    forall x, y {:trigger Reach(h, x, y)} | x in gray + {u} && y in gray + {u} ensures Reach(h, x, y) {
      if x in gray && y in gray {
        assert Reach(g, x, y);
        ReachMono(g, h, x, y);
      } else if x in gray {
        LinkTop(r, gray, p, u, x);
      } else if y in gray {
        LinkTop(r, gray, p, u, y);
        ReachSymmetric(h, y, u);
      }
    }
  }

  lemma LinkTop(r: Rel, gray: set<Id>, p: Id, u: Id, x: Id)
    requires Undirected(r) && Linked(r, gray) && x in gray && p in gray && Arc(p, u) in r
    ensures Reach(Inside(r, gray + {u}), x, u)
  {
    var g, h := Inside(r, gray), Inside(r, gray + {u});
    assert Reach(g, x, p);
    ReachMono(g, h, x, p);
    ReachEdge(h, p, u);
    ReachTrans(h, x, p, u);
  }

  // New nodes leave the scores of finished ones alone.
  lemma KeepScores(r: Rel, s0: Dfs, gray: set<Id>, s: Dfs, gray': set<Id>)
    requires Scores(r, s0, gray)
    requires forall x :: x in s.disc && x !in gray' ==> x in s0.disc && x !in gray
    requires forall x :: x in s0.disc ==> (x in s.parent <==> x in s0.parent)
    requires forall x :: x in s0.disc && x in s0.parent ==> s.parent[x] == s0.parent[x]
    requires forall x :: x in s0.disc && x !in gray ==> (x in s.art <==> x in s0.art)
    requires forall x :: x in s0.disc && x !in gray && x in s0.art ==> s.art[x] == s0.art[x]
    ensures Scores(r, s, gray')
  {
    hide Guarded;
    forall x {:trigger ScoreOk(r, x, Anchor(r, s.parent, x), s.art)} | x in s.disc && x !in gray'
      ensures ScoreOk(r, x, Anchor(r, s.parent, x), s.art)
    {
      assert ScoreOk(r, x, Anchor(r, s0.parent, x), s0.art);
      assert Anchor(r, s.parent, x) == Anchor(r, s0.parent, x);
    }
  }

  lemma EnterWf(r: Rel, s0: Dfs, gray: set<Id>, u: Id)
    requires CanEnter(r, s0, gray, u)
    ensures Wf(r, Enter(s0, u), gray + {u})
  {
    hide CutVertices.Linked, ScoreOk;
    LinkMore(r, gray, if gray == {} then u else s0.parent[u], u);
    KeepScores(r, s0, gray, Enter(s0, u), gray + {u});
  }

  lemma EnterBase(r: Rel, s0: Dfs, gray: set<Id>, u: Id)
    requires CanEnter(r, s0, gray, u)
    ensures ScanBase(s0, gray, u, Enter(s0, u))
  {
    hide Linked, Settled, Scores, Undirected;
  }

  lemma EnterNew(s0: Dfs, u: Id)
    requires u !in s0.disc
    ensures New(s0, Enter(s0, u)) == {u} && SizeOk(s0, u, Enter(s0, u))
  {
    assert New(s0, Enter(s0, u)) == {u};
  }

  lemma EnterScans(r: Rel, s0: Dfs, gray: set<Id>, u: Id)
    requires CanEnter(r, s0, gray, u)
    ensures Scanning(r, s0, gray, u, Enter(s0, u), {}, [])
  {
    hide Wf, Undirected, ScanBase, SizeOk, ScanLow, ScanKids, New;
    EnterWf(r, s0, gray, u);
    EnterBase(r, s0, gray, u);
    EnterNew(s0, u);
    EnterLow(r, s0, gray, u);
    EnterKids(r, s0, gray, u);
  }

  lemma EnterLow(r: Rel, s0: Dfs, gray: set<Id>, u: Id)
    requires u !in s0.disc
    ensures ScanLow(r, s0, gray, u, Enter(s0, u), {})
  {
    hide New;
    EnterNew(s0, u);
  }

  lemma EnterKids(r: Rel, s0: Dfs, gray: set<Id>, u: Id)
    requires CanEnter(r, s0, gray, u)
    ensures ScanKids(r, s0, gray, u, Enter(s0, u), [])
  {
    hide Linked, Settled, Scores, Undirected, New;
  }

  ghost function SetParent(s: Dfs, w: Id, u: Id): Dfs {
    s.(parent := s.parent[w := u])
  }

  lemma WfSetParent(r: Rel, s: Dfs, gray: set<Id>, w: Id, u: Id)
    requires Wf(r, s, gray) && w !in s.disc
    ensures Wf(r, SetParent(s, w, u), gray)
  {
    hide CutVertices.Linked, ScoreOk;
    KeepScores(r, s, gray, SetParent(s, w, u), gray);
  }

  lemma CanEnterChild(r: Rel, s0: Dfs, gray: set<Id>, u: Id, s: Dfs, ws: set<Id>, kids: seq<Kid>, w: Id)
    requires Undirected(r) && Scanning(r, s0, gray, u, s, ws, kids)
    requires Arc(u, w) in r && w !in s.disc && gray <= s0.disc.Keys
    requires forall x :: x in s0.disc ==> s0.disc[x] <= s0.timer
    ensures CanEnter(r, SetParent(s, w, u), gray + {u}, w)
  {
    hide Wf, ScanLow, ScanKids, Undirected;
    WfSetParent(r, s, gray + {u}, w, u);
  }

  // New nodes have no edge to a node that was finished before.
  lemma NewBorder(r: Rel, s0: Dfs, gray: set<Id>, u: Id, s: Dfs)
    requires CanEnter(r, s0, gray, u) && Finished(r, s0, gray, u, s)
    ensures forall e :: e in r && e.src in New(s0, s) ==> e.dst in New(s0, s) || e.dst in gray
  {
    forall e | e in r && e.src in New(s0, s) ensures e.dst in New(s0, s) || e.dst in gray {
      assert e.dst in s.disc;
      var back := Arc(e.dst, e.src);
      assert back in r && (back.src in s0.disc && back.src !in gray ==> back.dst in s0.disc);
    }
  }

  // The subtree of a finished child w of u.
  lemma NewKid(r: Rel, gray: set<Id>, u: Id, s: Dfs, w: Id, t: Dfs)
    requires CanEnter(r, s, gray + {u}, w) && Finished(r, s, gray + {u}, w, t)
    requires IsParent(s, w, u) && u !in gray && u in s.disc && gray <= s.disc.Keys
    ensures KidOk(r, gray, u, Kid(w, New(s, t)))
  {
    NewBorder(r, s, gray + {u}, w, t);
  }

  // low[w] < disc[u] tells whether the subtree of w reaches above u.
  lemma LowTellsUp(r: Rel, gray: set<Id>, u: Id, s: Dfs, w: Id, t: Dfs)
    requires Finished(r, s, gray + {u}, w, t) && IsParent(s, w, u)
    requires u !in gray && u in s.disc && gray <= s.disc.Keys && w in t.low
    requires forall x :: x in gray ==> s.disc[x] < s.disc[u]
    requires forall x :: x in s.disc ==> s.disc[x] <= s.timer
    ensures t.low[w] < t.disc[u] <==> Up(r, gray, Kid(w, New(s, t)))
  {
    var kid := Kid(w, New(s, t));
    if t.low[w] < t.disc[u] {
      assert t.low[w] < t.disc[w];
      var e :| BackEdge(r, t, New(s, t), gray + {u}, t.low[w], e);
      assert e.dst in gray;
    }
    if Up(r, gray, kid) {
      var e :| e in r && e.src in kid.nodes && e.dst in kid.nodes + gray && e.dst in gray;
      assert e.dst in gray + {u} && !IsParent(t, w, e.dst);
      assert t.low[w] <= t.disc[e.dst];
    }
  }

  function Min(a: int, b: int): int { if b < a then b else a }

  // size[u] and low[u] after the recursive call on w.
  ghost function Absorb(t: Dfs, u: Id, w: Id): Dfs
    requires u in t.size && w in t.size && u in t.low && w in t.low
  {
    t.(size := t.size[u := t.size[u] + t.size[w]], low := t.low[u := Min(t.low[u], t.low[w])])
  }

  // A map read with Go's zero for a missing key.
  function GetZero(m: map<Id, int>, k: Id): int { if k in m then m[k] else 0 }

  ghost function Score(t: Dfs, u: Id, root: bool, kids: int, w: Id): Dfs
    requires w in t.size && w in t.low && u in t.disc
  {
    if (root && kids > 1) || (!root && t.low[w] >= t.disc[u]) then
      t.(art := if t.size[w] > GetZero(t.art, u) then t.art[u := t.size[w]] else t.art)
    else t
  }

  lemma ArtGrows(r: Rel, gray: set<Id>, u: Id, kids: seq<Kid>, kid: Kid, art: map<Id, int>, art': map<Id, int>)
    requires ArtSoFar(r, gray, u, kids, art) && |kid.nodes| > 0 && (u in art ==> art[u] > 0)
    requires var counted := if gray == {} then |kids| > 0 else !Up(r, gray, kid);
             art' == if counted && |kid.nodes| > GetZero(art, u) then art[u := |kid.nodes|] else art
    ensures ArtSoFar(r, gray, u, kids + [kid], art')
  {
    hide Up;
    var more := kids + [kid];
    var n := |kids|;
    assert forall k :: 0 <= k < n ==> more[k] == kids[k];
    forall k {:trigger Scored(r, gray, more, k)} | 0 <= k < |more| && Scored(r, gray, more, k)
      ensures u in art' && |more[k].nodes| <= art'[u]
    {
      if k < n { assert Scored(r, gray, kids, k); }
    }
    if u in art' {
      if art' == art {
        var k :| 0 <= k < n && Scored(r, gray, kids, k) && |kids[k].nodes| == art[u];
        assert Scored(r, gray, more, k) && |more[k].nodes| == art'[u];
      } else {
        assert Scored(r, gray, more, n) && |more[n].nodes| == art'[u];
      }
    }
  }

  // u's own entries may change while u is on the call stack.
  ghost predicate TouchesOnly(t: Dfs, v: Dfs, u: Id) {
    && v.disc == t.disc && v.parent == t.parent && v.timer == t.timer
    && v.low.Keys == t.low.Keys && v.size.Keys == t.size.Keys
    && (forall x :: x in t.low && x != u ==> v.low[x] == t.low[x])
    && (forall x :: x in t.size && x != u ==> v.size[x] == t.size[x])
    && (forall x :: x != u ==> (x in v.art <==> x in t.art))
    && (forall x :: x != u && x in t.art ==> v.art[x] == t.art[x])
  }

  lemma WfTouch(r: Rel, t: Dfs, v: Dfs, gray: set<Id>, u: Id)
    requires Wf(r, t, gray + {u}) && TouchesOnly(t, v, u)
    ensures Wf(r, v, gray + {u})
  {
    hide CutVertices.Linked, ScoreOk;
    KeepScores(r, t, gray + {u}, v, gray + {u});
    assert u in gray + {u};
    forall x | x in v.art ensures x in v.disc {
      if x != u { assert x in t.art; }
    }
  }

  lemma ExtendsTrans(s0: Dfs, s: Dfs, t: Dfs)
    requires Extends(s0, s) && Extends(s, t)
    requires s0.low.Keys == s0.disc.Keys && s0.size.Keys == s0.disc.Keys
    ensures Extends(s0, t) && s0.disc.Keys <= s.disc.Keys <= t.disc.Keys
  {
    assert forall x :: x in s0.disc ==> x in s.disc && x in s0.low && x in s0.size;
    assert forall x :: x in s.disc ==> x in t.disc;
    assert forall x :: x in s0.parent ==> x in s.parent;
  }

  // From s, where the child w gets its parent, over the call to t, and on to v.
  lemma ExtendsTouch(s0: Dfs, s: Dfs, w: Id, t: Dfs, v: Dfs, u: Id)
    requires Extends(s0, s) && Extends(SetParent(s, w, u), t) && TouchesOnly(t, v, u)
    requires u !in s0.disc && w !in s.disc && w !in s.parent
    requires s0.low.Keys == s0.disc.Keys && s0.size.Keys == s0.disc.Keys
    requires s.low.Keys == s.disc.Keys && s.size.Keys == s.disc.Keys
    ensures Extends(s0, v) && s0.disc.Keys <= s.disc.Keys <= t.disc.Keys
  {
    assert Extends(s, SetParent(s, w, u));
    ExtendsTrans(s, SetParent(s, w, u), t);
    ExtendsTrans(s0, s, t);
    ExtendsSelf(s0, t, v, u);
  }

  lemma NewSplits(s0: Dfs, s: Dfs, t: Dfs)
    requires s0.disc.Keys <= s.disc.Keys <= t.disc.Keys
    ensures New(s0, t) == New(s0, s) + New(s, t) && New(s0, s) !! New(s, t)
    ensures |New(s0, t)| == |New(s0, s)| + |New(s, t)|
  {
    var a, b := New(s0, s), New(s, t);
    assert New(s0, t) == a + b && a !! b;
  }

  lemma MoreKids(r: Rel, s0: Dfs, gray: set<Id>, u: Id, s: Dfs, kids: seq<Kid>, kid: Kid, t: Dfs)
    requires KidsOk(r, gray, u, kids) && Covers(s0, u, kids, s) && KidOk(r, gray, u, kid)
    requires s0.disc.Keys <= s.disc.Keys <= t.disc.Keys && kid.nodes == New(s, t)
    ensures KidsOk(r, gray, u, kids + [kid]) && Covers(s0, u, kids + [kid], t)
  {
    hide KidOk;
    var more := kids + [kid];
    assert forall k :: 0 <= k < |kids| ==> more[k] == kids[k];
    assert more[|kids|] == kid;
    forall k, l | 0 <= k < l < |more| ensures more[k].nodes !! more[l].nodes {
      assert kids[k].nodes <= s.disc.Keys;
    }
    forall x {:trigger InKid(more, x)} | x in t.disc && x !in s0.disc && x != u ensures InKid(more, x) {
      if x in s.disc {
        assert InKid(kids, x);
        var k :| 0 <= k < |kids| && x in kids[k].nodes;
        assert x in more[k].nodes;
      } else {
        assert x in more[|kids|].nodes;
      }
    }
  }

  // Both halves of the low-link invariant survive the return from the child w.
  ghost predicate CallReturned(r: Rel, s0: Dfs, gray: set<Id>, u: Id, s: Dfs, w: Id, t: Dfs, v: Dfs) {
    && gray <= s0.disc.Keys <= s.disc.Keys <= t.disc.Keys && u !in gray && w != u && u in s.disc && u in s.low
    && (forall x :: x in s.disc ==> t.disc[x] == s.disc[x])
    && u in t.low && w in t.low && t.low[u] == s.low[u] && w in t.disc && t.disc[u] < t.disc[w]
    && LowSound(r, t, New(s, t), gray + {u}, w)
    && LowComplete(r, t, New(s, t), gray + {u}, w)
    && IsParent(t, w, u)
    && TouchesOnly(t, v, u) && v.low[u] == Min(t.low[u], t.low[w])
  }

  lemma LowSoundAfterCall(r: Rel, s0: Dfs, gray: set<Id>, u: Id, s: Dfs, w: Id, t: Dfs, v: Dfs)
    requires CallReturned(r, s0, gray, u, s, w, t, v) && LowSound(r, s, New(s0, s), gray, u)
    ensures LowSound(r, v, New(s0, v), gray, u)
  {
    NewSplits(s0, s, t);
    if t.low[w] < t.low[u] {
      var e :| BackEdge(r, t, New(s, t), gray + {u}, t.low[w], e);
      assert e.dst in gray && e.src in New(s0, v);
      assert BackEdge(r, v, New(s0, v), gray, v.low[u], e);
    } else if s.low[u] < s.disc[u] {
      var e :| BackEdge(r, s, New(s0, s), gray, s.low[u], e);
      assert e.src in New(s0, v);
      assert BackEdge(r, v, New(s0, v), gray, v.low[u], e);
    }
  }

  lemma LowCompleteAfterCall(r: Rel, s0: Dfs, gray: set<Id>, u: Id, s: Dfs, w: Id, t: Dfs, v: Dfs)
    requires CallReturned(r, s0, gray, u, s, w, t, v) && LowComplete(r, s, New(s0, s) - {u}, gray, u)
    ensures LowComplete(r, v, New(s0, v) - {u}, gray, u)
  {
    NewSplits(s0, s, t);
    forall e | e in r && e.src in New(s0, v) - {u} && e.dst in gray
      ensures e.dst in v.disc && v.low[u] <= v.disc[e.dst]
    {
      if e.src in New(s0, s) {
        assert e.src in New(s0, s) - {u};
      } else {
        assert e.src in New(s, t) && e.dst in gray + {u} && !IsParent(t, w, e.dst);
      }
    }
  }

  lemma ReturnedFrame(s0: Dfs, s: Dfs, u: Id, w: Id, t: Dfs, v: Dfs)
    requires Extends(s0, s) && Extends(SetParent(s, w, u), t) && TouchesOnly(t, v, u)
    requires u !in s0.disc && u in s.disc && w !in s.disc && s.parent.Keys <= s.disc.Keys && w in t.disc
    requires s0.low.Keys == s0.disc.Keys && s0.size.Keys == s0.disc.Keys
    requires s.low.Keys == s.disc.Keys && s.size.Keys == s.disc.Keys
    requires forall x :: x in s.disc ==> s.disc[x] <= s.timer
    ensures Extends(s0, v) && s0.disc.Keys <= s.disc.Keys <= t.disc.Keys
    ensures forall x :: x in s.disc ==> t.disc[x] == s.disc[x]
    ensures t.disc[u] < t.disc[w] && u in t.low && t.low[u] == s.low[u] && u in t.size && t.size[u] == s.size[u]
    ensures IsParent(t, w, u) && New(SetParent(s, w, u), t) == New(s, t)
  {
    var p := SetParent(s, w, u);
    assert w !in s.parent;
    assert IsParent(p, w, u);
    ExtendsTouch(s0, s, w, t, v, u);
    assert forall x :: x in s.disc ==> x in p.disc && t.disc[x] == s.disc[x];
    assert u in p.disc && u in p.low && u in p.size;
  }

  lemma Returned(r: Rel, s0: Dfs, gray: set<Id>, u: Id, s: Dfs, ws: set<Id>, kids: seq<Kid>, w: Id, t: Dfs, v: Dfs)
    requires Numbered(s0, gray) && Scanning(r, s0, gray, u, s, ws, kids) && w !in s.disc && u !in gray
    requires Finished(r, SetParent(s, w, u), gray + {u}, w, t)
    requires TouchesOnly(t, v, u) && u in t.low && w in t.low && v.low[u] == Min(t.low[u], t.low[w])
    ensures CallReturned(r, s0, gray, u, s, w, t, v) && Extends(s0, v)
  {
    hide Linked, Settled, Scores, ScanLow, ScanKids, ConnectedFrom, LowComplete, Extends;
    ReturnedFrame(s0, s, u, w, t, v);
  }

  lemma AfterCallWf(r: Rel, s0: Dfs, gray: set<Id>, u: Id, s: Dfs, ws: set<Id>, kids: seq<Kid>, w: Id, t: Dfs, v: Dfs)
    requires Finished(r, SetParent(s, w, u), gray + {u}, w, t) && TouchesOnly(t, v, u)
    ensures Wf(r, v, gray + {u})
  {
    WfTouch(r, t, v, gray, u);
  }

  lemma AfterCallBase(r: Rel, s0: Dfs, gray: set<Id>, u: Id, s: Dfs, w: Id, t: Dfs, v: Dfs)
    requires Numbered(s0, gray) && Numbered(s, gray + {u}) && ScanBase(s0, gray, u, s) && w !in s.disc
    requires Finished(r, SetParent(s, w, u), gray + {u}, w, t) && TouchesOnly(t, v, u)
    ensures ScanBase(s0, gray, u, v)
  {
    hide Wf, ConnectedFrom, LowSound, LowComplete, SizeOk, New;
    ReturnedFrame(s0, s, u, w, t, v);
  }

  lemma AfterCallSize(r: Rel, s0: Dfs, gray: set<Id>, u: Id, s: Dfs, w: Id, t: Dfs, v: Dfs)
    requires s0.disc.Keys <= s.disc.Keys <= t.disc.Keys && SizeOk(s0, u, s) && SizeOk(s, w, t)
    requires u in t.size && t.size[u] == s.size[u] && w in t.size
    requires v.disc == t.disc && u in v.size && v.size[u] == t.size[u] + t.size[w]
    ensures SizeOk(s0, u, v)
  {
    NewSplits(s0, s, t);
    assert New(s0, v) == New(s0, t);
  }

  lemma AfterCallLow(r: Rel, s0: Dfs, gray: set<Id>, u: Id, s: Dfs, ws: set<Id>, w: Id, t: Dfs, v: Dfs)
    requires CallReturned(r, s0, gray, u, s, w, t, v) && ScanLow(r, s0, gray, u, s, ws) && w !in s.disc
    requires forall x :: IsParent(s, u, x) <==> IsParent(t, u, x)
    ensures ScanLow(r, s0, gray, u, v, ws + {w})
  {
    hide LowSound, LowComplete, New;
    LowSoundAfterCall(r, s0, gray, u, s, w, t, v);
    LowCompleteAfterCall(r, s0, gray, u, s, w, t, v);
  }

  lemma AfterCallKids(r: Rel, s0: Dfs, gray: set<Id>, u: Id, s: Dfs, kids: seq<Kid>, w: Id, t: Dfs, v: Dfs)
    requires ScanKids(r, s0, gray, u, s, kids) && KidOk(r, gray, u, Kid(w, New(s, t)))
    requires s0.disc.Keys <= s.disc.Keys <= t.disc.Keys && TouchesOnly(t, v, u)
    requires u in t.art <==> u in s.art
    requires u in t.art ==> t.art[u] == s.art[u]
    requires SizeOk(s, w, t) && w in t.low && u in t.disc && w in t.disc && w !in s.disc
    requires gray == {} || (t.low[w] < t.disc[u] <==> Up(r, gray, Kid(w, New(s, t))))
    requires v.art == Score(t, u, gray == {}, |kids| + 1, w).art
    ensures ScanKids(r, s0, gray, u, v, kids + [Kid(w, New(s, t))])
  {
    hide KidOk, Up, KidsOk, Covers, ArtSoFar;
    var kid := Kid(w, New(s, t));
    assert w in kid.nodes;
    MoreKids(r, s0, gray, u, s, kids, kid, t);
    CoversSame(s0, u, kids + [kid], t, v);
    ArtSame(r, gray, u, kids, s.art, t.art);
    ArtGrows(r, gray, u, kids, kid, t.art, v.art);
  }

  lemma ArtSame(r: Rel, gray: set<Id>, u: Id, kids: seq<Kid>, art: map<Id, int>, art': map<Id, int>)
    requires ArtSoFar(r, gray, u, kids, art) && (u in art <==> u in art') && (u in art ==> art[u] == art'[u])
    ensures ArtSoFar(r, gray, u, kids, art')
  {
    hide Scored;
  }

  // Return from the recursive call on w.
  lemma AfterCall(r: Rel, s0: Dfs, gray: set<Id>, u: Id, s: Dfs, ws: set<Id>, kids: seq<Kid>, w: Id, t: Dfs)
    requires CanEnter(r, s0, gray, u) && Scanning(r, s0, gray, u, s, ws, kids) && w !in s.disc
    requires CanEnter(r, SetParent(s, w, u), gray + {u}, w)
    requires Finished(r, SetParent(s, w, u), gray + {u}, w, t)
    ensures u in t.size && w in t.size && u in t.low && w in t.low && u in t.disc
    ensures Scanning(r, s0, gray, u, Score(Absorb(t, u, w), u, gray == {}, |kids| + 1, w), ws + {w},
                     kids + [Kid(w, New(s, t))])
  {
    hide Linked, Settled, Scores, ConnectedFrom, LowSound, LowComplete, New, Undirected, Extends, ScanLow, ScanKids,
      Score, KidsOk, TouchesOnly;
    InDomain(r, s0, gray, u, s, w, t);
    var v := Score(Absorb(t, u, w), u, gray == {}, |kids| + 1, w);
    ScoreTouches(t, u, w, gray == {}, |kids| + 1);
    AfterCallAll(r, s0, gray, u, s, ws, kids, w, t, v);
  }

  lemma InDomain(r: Rel, s0: Dfs, gray: set<Id>, u: Id, s: Dfs, w: Id, t: Dfs)
    requires Numbered(s, gray + {u}) && Numbered(t, gray + {u}) && u in s.disc
    requires Extends(SetParent(s, w, u), t) && w in t.disc
    ensures u in t.size && w in t.size && u in t.low && w in t.low && u in t.disc
  {
    assert u in SetParent(s, w, u).disc;
  }

  lemma ScoreTouches(t: Dfs, u: Id, w: Id, root: bool, kids: int)
    requires u in t.size && w in t.size && u in t.low && w in t.low && u in t.disc && u != w
    ensures var v := Score(Absorb(t, u, w), u, root, kids, w);
            && TouchesOnly(t, v, u)
            && v.low[u] == Min(t.low[u], t.low[w]) && v.size[u] == t.size[u] + t.size[w]
            && v.art == Score(t, u, root, kids, w).art
  {
    assert Absorb(t, u, w).low.Keys == t.low.Keys && Absorb(t, u, w).size.Keys == t.size.Keys;
  }

  lemma AfterCallAll(r: Rel, s0: Dfs, gray: set<Id>, u: Id, s: Dfs, ws: set<Id>, kids: seq<Kid>, w: Id, t: Dfs, v: Dfs)
    requires CanEnter(r, s0, gray, u) && Scanning(r, s0, gray, u, s, ws, kids) && w !in s.disc
    requires CanEnter(r, SetParent(s, w, u), gray + {u}, w)
    requires Finished(r, SetParent(s, w, u), gray + {u}, w, t)
    requires u in t.size && w in t.size && u in t.low && w in t.low && u in t.disc
    requires TouchesOnly(t, v, u) && v.low[u] == Min(t.low[u], t.low[w]) && v.size[u] == t.size[u] + t.size[w]
    requires v.art == Score(t, u, gray == {}, |kids| + 1, w).art
    ensures Scanning(r, s0, gray, u, v, ws + {w}, kids + [Kid(w, New(s, t))])
  {
    hide Linked, Settled, Scores, ConnectedFrom, LowSound, LowComplete, New, KidsOk, Covers, ArtSoFar, Undirected,
      ScanLow, ScanKids, KidOk;
    ReturnedFrame(s0, s, u, w, t, v);
    Returned(r, s0, gray, u, s, ws, kids, w, t, v);
    AfterCallWf(r, s0, gray, u, s, ws, kids, w, t, v);
    AfterCallBase(r, s0, gray, u, s, w, t, v);
    assert SizeOk(s, w, t);
    AfterCallSize(r, s0, gray, u, s, w, t, v);
    AfterCallLow(r, s0, gray, u, s, ws, w, t, v);
    if gray != {} { AncestorsFirst(r, s0, gray, u, s); }
    CallScores(r, s0, gray, u, s, kids, w, t, v);
  }

  lemma AncestorsFirst(r: Rel, s0: Dfs, gray: set<Id>, u: Id, s: Dfs)
    requires Numbered(s0, gray) && ScanBase(s0, gray, u, s)
    ensures forall x :: x in gray ==> x in s.disc && s.disc[x] < s.disc[u]
  {
    forall x | x in gray ensures x in s.disc && s.disc[x] < s.disc[u] { assert x in s0.disc; }
  }

  lemma CallScores(r: Rel, s0: Dfs, gray: set<Id>, u: Id, s: Dfs, kids: seq<Kid>, w: Id, t: Dfs, v: Dfs)
    requires Numbered(s0, gray) && Numbered(s, gray + {u})
    requires ScanBase(s0, gray, u, s) && ScanKids(r, s0, gray, u, s, kids)
    requires u !in gray && w !in s.disc && CanEnter(r, SetParent(s, w, u), gray + {u}, w)
    requires Finished(r, SetParent(s, w, u), gray + {u}, w, t)
    requires u in t.disc && w in t.low && w in t.size && TouchesOnly(t, v, u)
    requires v.art == Score(t, u, gray == {}, |kids| + 1, w).art
    ensures ScanKids(r, s0, gray, u, v, kids + [Kid(w, New(s, t))])
  {
    hide Wf, ConnectedFrom, LowSound, LowComplete, Undirected, ScanKids, KidOk, Up;
    var p := SetParent(s, w, u);
    ReturnedFrame(s0, s, u, w, t, v);
    assert IsParent(p, w, u) && SizeOk(s, w, t) && New(p, t) == New(s, t);
    NewKid(r, gray, u, p, w, t);
    AncestorsFirst(r, s0, gray, u, s);
    LowTellsUp(r, gray, u, p, w, t);
    AfterCallKids(r, s0, gray, u, s, kids, w, t, v);
  }

  // Go reads a missing parent as the empty id.
  const EMPTY: Id := 0

  function ParentOrEmpty(parent: map<Id, Id>, u: Id): Id { if u in parent then parent[u] else EMPTY }

  ghost function SetLow(s: Dfs, u: Id, k: int): Dfs {
    s.(low := s.low[u := k])
  }

  // A discovered neighbour w of u is an ancestor or below u; no finished node is next to u.
  lemma SeenNeighbour(r: Rel, s0: Dfs, gray: set<Id>, u: Id, w: Id)
    requires CanEnter(r, s0, gray, u) && Arc(u, w) in r && w in s0.disc
    ensures w in gray
  {
    var e := Arc(u, w);
    var back := Arc(e.dst, e.src);
    assert back in r && (back.src !in gray ==> back.dst in s0.disc);
  }

  // The neighbour w was discovered already.
  lemma AfterSeen(r: Rel, s0: Dfs, gray: set<Id>, u: Id, s: Dfs, ws: set<Id>, kids: seq<Kid>, w: Id)
    requires CanEnter(r, s0, gray, u) && Scanning(r, s0, gray, u, s, ws, kids)
    requires Arc(u, w) in r && w in s.disc && u in s.low
    ensures w == ParentOrEmpty(s.parent, u) || s.low[u] <= s.disc[w] ==>
              Scanning(r, s0, gray, u, s, ws + {w}, kids)
    ensures w != ParentOrEmpty(s.parent, u) && s.disc[w] < s.low[u] ==>
              Scanning(r, s0, gray, u, SetLow(s, u, s.disc[w]), ws + {w}, kids)
  {
    hide Linked, Settled, Scores, ScanKids, SizeOk, Undirected, ScanLow, New, Extends;
    if w == ParentOrEmpty(s.parent, u) || s.low[u] <= s.disc[w] {
      SeenLow(r, s0, gray, u, s, ws, w);
    } else {
      var v := SetLow(s, u, s.disc[w]);
      LowerFromSeen(r, s0, gray, u, s, ws, w);
      assert TouchesOnly(s, v, u);
      WfTouch(r, s, v, gray, u);
      LoweredRest(r, s0, gray, u, s, kids, s.disc[w]);
    }
  }

  // Lowering low[u] leaves everything but ScanLow as it was.
  lemma LoweredRest(r: Rel, s0: Dfs, gray: set<Id>, u: Id, s: Dfs, kids: seq<Kid>, k: int)
    requires ScanBase(s0, gray, u, s) && SizeOk(s0, u, s) && ScanKids(r, s0, gray, u, s, kids) && u in s.low
    requires s0.low.Keys == s0.disc.Keys && s0.size.Keys == s0.disc.Keys
    ensures var v := SetLow(s, u, k);
            ScanBase(s0, gray, u, v) && SizeOk(s0, u, v) && ScanKids(r, s0, gray, u, v, kids)
  {
    hide KidsOk, Covers, ArtSoFar, New, Extends;
    var v := SetLow(s, u, k);
    SameNew(s0, s, v);
    ExtendsSelf(s0, s, v, u);
    CoversSame(s0, u, kids, s, v);
  }

  lemma SeenLow(r: Rel, s0: Dfs, gray: set<Id>, u: Id, s: Dfs, ws: set<Id>, w: Id)
    requires CanEnter(r, s0, gray, u) && ScanBase(s0, gray, u, s) && ScanLow(r, s0, gray, u, s, ws)
    requires w in s.disc && u in s.low && (w == ParentOrEmpty(s.parent, u) || s.low[u] <= s.disc[w])
    ensures ScanLow(r, s0, gray, u, s, ws + {w})
  {
    hide Wf, Undirected, LowComplete, LowSound, New, Extends;
    assert forall x :: x in gray && IsParent(s, u, x) ==> u in s.parent;
  }

  lemma SameNew(s0: Dfs, s: Dfs, v: Dfs)
    requires s.disc == v.disc
    ensures New(s0, v) == New(s0, s)
  {
  }

  lemma CoversSame(s0: Dfs, u: Id, kids: seq<Kid>, s: Dfs, v: Dfs)
    requires Covers(s0, u, kids, s) && s.disc == v.disc
    ensures Covers(s0, u, kids, v)
  {
  }

  lemma ExtendsSelf(s0: Dfs, s: Dfs, v: Dfs, u: Id)
    requires Extends(s0, s) && TouchesOnly(s, v, u) && u !in s0.disc
    requires s0.low.Keys == s0.disc.Keys && s0.size.Keys == s0.disc.Keys
    ensures Extends(s0, v)
  {
    assert forall x :: x in s0.disc ==> x != u && x in s0.low && x in s0.size;
  }

  lemma LowerFromSeen(r: Rel, s0: Dfs, gray: set<Id>, u: Id, s: Dfs, ws: set<Id>, w: Id)
    requires CanEnter(r, s0, gray, u) && ScanBase(s0, gray, u, s) && ScanLow(r, s0, gray, u, s, ws)
    requires Arc(u, w) in r && w in s.disc && s.disc[w] < s.low[u]
    ensures ScanLow(r, s0, gray, u, SetLow(s, u, s.disc[w]), ws + {w})
  {
    hide Wf, Undirected, Extends;
    var v := SetLow(s, u, s.disc[w]);
    assert w in s0.disc;
    SeenNeighbour(r, s0, gray, u, w);
    assert BackEdge(r, v, New(s0, v), gray, v.low[u], Arc(u, w));
    assert LowComplete(r, v, New(s0, v) - {u}, gray, u) by {
      forall e | e in r && e.src in New(s0, v) - {u} && e.dst in gray && !(e.src == u && IsParent(v, u, e.dst))
        ensures e.dst in v.disc && v.low[u] <= v.disc[e.dst]
      {
        assert e.src in New(s0, s) - {u} && !(e.src == u && IsParent(s, u, e.dst));
      }
    }
  }

  // All neighbours of u are processed.
  lemma FinishConnected(r: Rel, s0: Dfs, gray: set<Id>, u: Id, s: Dfs, kids: seq<Kid>)
    requires KidsOk(r, gray, u, kids) && Covers(s0, u, kids, s) && u in New(s0, s)
    ensures ConnectedFrom(r, New(s0, s), u)
  {
    var h := Inside(r, New(s0, s));
    forall x {:trigger Reach(h, u, x)} | x in New(s0, s) ensures Reach(h, u, x) {
      if x == u {
        ReachRefl(h, u);
      } else {
        assert InKid(kids, x);
        var k := KidWith(kids, x);
        KidReached(r, gray, u, kids[k], New(s0, s), x);
      }
    }
  }

  lemma KidReached(r: Rel, gray: set<Id>, u: Id, kid: Kid, all: set<Id>, x: Id)
    requires KidOk(r, gray, u, kid) && kid.nodes <= all && u in all && x in kid.nodes
    ensures Reach(Inside(r, all), u, x)
  {
    var h := Inside(r, all);
    assert Reach(Inside(r, kid.nodes), kid.top, x);
    ReachMono(Inside(r, kid.nodes), h, kid.top, x);
    assert Arc(u, kid.top) in h;
    ReachEdge(h, u, kid.top);
    ReachTrans(h, u, kid.top, x);
  }

  lemma FinishNeighbours(r: Rel, s0: Dfs, gray: set<Id>, u: Id, s: Dfs, ws: set<Id>, kids: seq<Kid>)
    requires CanEnter(r, s0, gray, u) && Covers(s0, u, kids, s) && (forall w :: w in ws ==> w in s.disc)
    requires forall e :: e in r && e.src == u ==> e.dst in ws
    ensures forall e :: e in r && e.src == u ==> e.dst in gray || InKid(kids, e.dst)
  {
    hide Linked, Scores, InKid;
    forall e | e in r && e.src == u ensures e.dst in gray || InKid(kids, e.dst) {
      assert Arc(u, e.dst) in r && e.dst in ws;
      if e.dst in s0.disc { SeenNeighbour(r, s0, gray, u, e.dst); }
    }
  }

  lemma FinishAnchor(r: Rel, s0: Dfs, gray: set<Id>, u: Id, s: Dfs, kids: seq<Kid>)
    requires CanEnter(r, s0, gray, u) && Extends(s0, s) && (u in s.parent <==> gray != {})
    requires KidsOk(r, gray, u, kids)
    requires gray == {} && kids != [] ==> kids[0].top == Least(Neighbours(r, u))
    ensures AnchorFits(r, gray, u, kids, Anchor(r, s.parent, u))
  {
    hide Linked, Scores, Settled, ConnectedFrom;
    if gray == {} && kids != [] {
      assert Arc(u, kids[0].top).dst in Neighbours(r, u);
    }
  }

  lemma FinishWf(r: Rel, s0: Dfs, gray: set<Id>, u: Id, s: Dfs, ws: set<Id>, kids: seq<Kid>)
    requires CanEnter(r, s0, gray, u) && Scanning(r, s0, gray, u, s, ws, kids)
    requires forall e :: e in r && e.src == u ==> e.dst in ws
    requires gray == {} && kids != [] ==> kids[0].top == Least(Neighbours(r, u))
    ensures Wf(r, s, gray)
  {
    hide Linked, ScoreOk, KidsOk, ArtSoFar, LowSound, LowComplete, New;
    FinishNeighbours(r, s0, gray, u, s, ws, kids);
    FinishAnchor(r, s0, gray, u, s, kids);
    FinishScore(r, gray, u, kids, Anchor(r, s.parent, u), s.art);
    FinishScores(r, s, gray, u);
    FinishSettled(r, s0, gray, u, s, ws);
    assert gray <= s0.disc.Keys;
    assert forall x :: x in gray ==> x in s.disc;
  }

  lemma FinishScores(r: Rel, s: Dfs, gray: set<Id>, u: Id)
    requires Scores(r, s, gray + {u}) && ScoreOk(r, u, Anchor(r, s.parent, u), s.art)
    ensures Scores(r, s, gray)
  {
    hide ScoreOk, Anchor;
    forall x {:trigger ScoreOk(r, x, Anchor(r, s.parent, x), s.art)} | x in s.disc && x !in gray
      ensures ScoreOk(r, x, Anchor(r, s.parent, x), s.art)
    {
      if x != u { assert x !in gray + {u}; }
    }
  }

  lemma FinishSettled(r: Rel, s0: Dfs, gray: set<Id>, u: Id, s: Dfs, ws: set<Id>)
    requires Settled(r, s, gray + {u}) && (forall w :: w in ws ==> w in s.disc)
    requires forall e :: e in r && e.src == u ==> e.dst in ws
    ensures Settled(r, s, gray)
  {
    forall e | e in r && e.src in s.disc && e.src !in gray ensures e.dst in s.disc {
      if e.src == u { assert e.dst in ws; } else { assert e.src !in gray + {u}; }
    }
  }

  lemma FinishLow(r: Rel, s0: Dfs, gray: set<Id>, u: Id, s: Dfs, ws: set<Id>)
    requires gray <= s0.disc.Keys <= s.disc.Keys && ScanLow(r, s0, gray, u, s, ws)
    requires forall e :: e in r && e.src == u ==> e.dst in ws
    ensures LowComplete(r, s, New(s0, s), gray, u)
  {
    forall e | e in r && e.src in New(s0, s) && e.dst in gray && !(e.src == u && IsParent(s, u, e.dst))
      ensures e.dst in s.disc && s.low[u] <= s.disc[e.dst]
    {
      if e.src == u { assert e.dst in ws; } else { assert e.src in New(s0, s) - {u}; }
    }
  }

  lemma Finish(r: Rel, s0: Dfs, gray: set<Id>, u: Id, s: Dfs, ws: set<Id>, kids: seq<Kid>)
    requires CanEnter(r, s0, gray, u) && Scanning(r, s0, gray, u, s, ws, kids)
    requires forall e :: e in r && e.src == u ==> e.dst in ws
    requires gray == {} && kids != [] ==> kids[0].top == Least(Neighbours(r, u))
    ensures Finished(r, s0, gray, u, s)
  {
    hide Linked, Settled, Scores, LowSound, LowComplete, KidsOk, ArtSoFar, Undirected, ConnectedFrom, Covers;
    FinishWf(r, s0, gray, u, s, ws, kids);
    FinishConnected(r, s0, gray, u, s, kids);
    assert forall x :: x in s0.disc ==> x in s.disc;
    FinishLow(r, s0, gray, u, s, ws);
  }

  lemma ScanningFacts(r: Rel, s0: Dfs, gray: set<Id>, u: Id, s: Dfs, ws: set<Id>, kids: seq<Kid>)
    requires Scanning(r, s0, gray, u, s, ws, kids)
    ensures u in s.disc && u in s.low && u in s.size && u !in s0.disc
    ensures s0.disc.Keys + {u} <= s.disc.Keys
    ensures u in s.parent <==> gray != {}
  {
    assert forall x :: x in s0.disc ==> x in s.disc;
  }

  lemma FinishedFacts(r: Rel, s0: Dfs, gray: set<Id>, u: Id, s: Dfs)
    requires Finished(r, s0, gray, u, s)
    ensures u in s.disc && u in s.low && u in s.size && s0.disc.Keys <= s.disc.Keys
  {
    assert forall x :: x in s0.disc ==> x in s.disc;
  }

  // When a root is entered, its whole component is undiscovered, so its first neighbour
  // becomes its first child.
  lemma RootFirst(r: Rel, s0: Dfs, u: Id, s: Dfs, kids: seq<Kid>, w: Id)
    requires CanEnter(r, s0, {}, u) && Covers(s0, u, kids, s) && kids == [] && Arc(u, w) in r
    ensures w !in s.disc
  {
    var e := Arc(u, w);
    assert e.src != e.dst;
    if w in s0.disc { SeenNeighbour(r, s0, {}, u, w); }
    assert !InKid(kids, w);
  }

  lemma RootFirstScanning(r: Rel, s0: Dfs, u: Id, s: Dfs, ws: set<Id>, kids: seq<Kid>, w: Id)
    requires CanEnter(r, s0, {}, u) && Scanning(r, s0, {}, u, s, ws, kids) && kids == [] && Arc(u, w) in r
    ensures w !in s.disc
  {
    RootFirst(r, s0, u, s, kids, w);
  }

  lemma EnterChild(r: Rel, s0: Dfs, gray: set<Id>, u: Id, s: Dfs, ws: set<Id>, kids: seq<Kid>, w: Id)
    requires CanEnter(r, s0, gray, u) && Scanning(r, s0, gray, u, s, ws, kids)
    requires Arc(u, w) in r && w !in s.disc
    ensures CanEnter(r, SetParent(s, w, u), gray + {u}, w)
  {
    CanEnterChild(r, s0, gray, u, s, ws, kids, w);
  }

  lemma CanEnterNew(r: Rel, s0: Dfs, gray: set<Id>, u: Id)
    requires CanEnter(r, s0, gray, u)
    ensures u !in s0.disc
  {
  }

  lemma StillRoot(r: Rel, gray: set<Id>, u: Id, s: Dfs, w: Id, t: Dfs)
    requires Finished(r, SetParent(s, w, u), gray + {u}, w, t)
    requires u in s.disc && w !in s.disc && (u in s.parent <==> gray != {})
    ensures u in t.parent <==> gray != {}
  {
    assert u in SetParent(s, w, u).disc;
  }

  lemma FirstIsLeast(ws: seq<Id>, r: Rel, u: Id)
    requires Ascending(ws) && ws != [] && (forall w :: w in ws <==> Arc(u, w) in r)
    ensures Neighbours(r, u) != {} && ws[0] == Least(Neighbours(r, u))
  {
    assert ws[0] in ws;
    var e := Arc(u, ws[0]);
    assert e.dst in Neighbours(r, u);
    forall x | x in Neighbours(r, u) ensures x in ws && ws[0] <= x {
      assert Arc(u, x) in r;
    }
  }

  // Parents are neighbours, and discovered earlier.
  ghost predicate TreeOk(r: Rel, parent: map<Id, Id>, disc: map<Id, int>) {
    && (forall x :: x in parent ==> Arc(parent[x], x) in r && parent[x] in disc)
    && (forall x :: x in parent && x in disc ==> disc[parent[x]] < disc[x])
  }

  // From a node discovered before u, the tree parents lead to a root without passing u.
  lemma {:induction false} Climb(r: Rel, parent: map<Id, Id>, disc: map<Id, int>, u: Id, x: Id) returns (m: Id)
    requires Undirected(r) && TreeOk(r, parent, disc) && x in disc && u in disc && disc[x] < disc[u]
    requires forall y :: y in disc ==> 0 < disc[y]
    ensures m !in parent && Reach(Avoid(r, u), x, m)
    decreases disc[x]
  {
    if x !in parent {
      m := x;
      ReachRefl(Avoid(r, u), x);
    } else {
      var p := parent[x];
      assert Arc(p, x) in r && Arc(x, p) in r;
      m := Climb(r, parent, disc, u, p);
      ReachEdge(Avoid(r, u), x, p);
      ReachTrans(Avoid(r, u), x, p, m);
    }
  }

  /** The captured variables of the closure dfs. */
  class CutSearch {
    const adj: Adjacency
    ghost const r: Rel
    ghost const verts: set<Id>
    var disc: map<Id, int>
    var low: map<Id, int>
    var parent: map<Id, Id>
    var subtreeSize: map<Id, int>
    var isArt: map<Id, int>
    var timer: int

    ghost function Snapshot(): Dfs
      reads this
    {
      Dfs(disc, low, parent, subtreeSize, isArt, timer)
    }

    ghost predicate Valid()
      reads this
    {
      && Represents(adj, r, verts) && Undirected(r)
      && (forall v :: Ascending(Succ(adj, v)))
      && disc.Keys <= verts && timer >= 0
      && (forall x :: x in disc ==> 0 < disc[x] <= timer)
      && TreeOk(r, parent, disc)
    }

    constructor (adj: Adjacency, ghost r: Rel, ghost verts: set<Id>)
      requires Represents(adj, r, verts) && Undirected(r) && forall v :: Ascending(Succ(adj, v))
      ensures Valid() && Wf(r, Snapshot(), {}) && disc == map[] && parent == map[]
      ensures this.adj == adj && this.r == r && this.verts == verts
    {
      this.adj, this.r, this.verts := adj, r, verts;
      disc, low, parent, subtreeSize, isArt, timer := map[], map[], map[], map[], map[], 0;
    }

    method Discover(u: Id)
      requires Valid() && u in verts && u !in disc
      modifies this
      ensures Valid() && Snapshot() == Enter(old(Snapshot()), u)
    {
      timer := timer + 1;
      disc := disc[u := timer];
      low := low[u := timer];
      subtreeSize := subtreeSize[u := 1];
    }

    method Adopt(v: Id, u: Id)
      requires Valid() && Arc(u, v) in r && u in disc && v !in disc
      modifies this`parent
      ensures Valid() && Snapshot() == SetParent(old(Snapshot()), v, u)
    {
      parent := parent[v := u];
    }

    method LowerTo(u: Id, k: int)
      requires Valid()
      modifies this`low
      ensures Valid() && Snapshot() == SetLow(old(Snapshot()), u, k)
    {
      low := low[u := k];
    }

    // After dfs(v) returns to u, its children-th child.
    method Record(u: Id, v: Id, children: int)
      requires Valid() && u in disc && u in low && v in low && u in subtreeSize && v in subtreeSize && u != v
      modifies this`low, this`subtreeSize, this`isArt
      ensures Valid()
      ensures Snapshot() == Score(Absorb(old(Snapshot()), u, v), u, u !in parent, children, v)
    {
      subtreeSize := subtreeSize[u := subtreeSize[u] + subtreeSize[v]];
      if low[v] < low[u] {
        low := low[u := low[v]];
      }
      assert low == old(low)[u := Min(old(low)[u], old(low)[v])];
      var hasP := u in parent;
      if !hasP && children > 1 {
        if subtreeSize[v] > GetZero(isArt, u) {
          isArt := isArt[u := subtreeSize[v]];
        }
      }
      if hasP && low[v] >= disc[u] {
        if subtreeSize[v] > GetZero(isArt, u) {
          isArt := isArt[u := subtreeSize[v]];
        }
      }
    }

    lemma NeighbourFacts(u: Id)
      requires Valid()
      ensures var ws := SortIds(Succ(adj, u));
              && ws == Succ(adj, u) && Ascending(ws)
              && (forall w :: w in ws <==> Arc(u, w) in r)
              && (forall w :: w in ws ==> w in verts)
    {
      assert Ascending(Succ(adj, u));
      assert SortedBy(Succ(adj, u), IdLe);
      forall w | w in Succ(adj, u) ensures w in verts { assert Arc(u, w) in r; }
    }

    // The neighbour v was seen before: unless it is the parent, it may lower low[u].
    method Skip(u: Id, v: Id, ghost gray: set<Id>, ghost s0: Dfs, ghost ws: set<Id>, ghost kids: seq<Kid>)
      requires Valid() && Arc(u, v) in r && v in disc && u in low && CanEnter(r, s0, gray, u)
      requires Scanning(r, s0, gray, u, Snapshot(), ws, kids)
      modifies this`low
      ensures Valid() && Scanning(r, s0, gray, u, Snapshot(), ws + {v}, kids)
    {
      hide Wf, Scanning, CanEnter, Valid, Undirected, Represents, Ascending;
      AfterSeen(r, s0, gray, u, Snapshot(), ws, kids, v);
      if v != ParentOrEmpty(parent, u) {
        if disc[v] < low[u] {
          LowerTo(u, disc[v]);
        }
      }
    }

    // The neighbour v is new: it becomes the children-th child of u.
    method Descend(u: Id, v: Id, children: int, ghost gray: set<Id>, ghost s0: Dfs, ghost ws: set<Id>,
                   ghost kids0: seq<Kid>)
      returns (ghost kids: seq<Kid>)
      requires Valid() && v in verts && v !in disc && Arc(u, v) in r && children == |kids0| + 1
      requires CanEnter(r, s0, gray, u) && Scanning(r, s0, gray, u, Snapshot(), ws, kids0)
      modifies this
      ensures Valid() && Scanning(r, s0, gray, u, Snapshot(), ws + {v}, kids)
      ensures |kids| == children && kids[children - 1].top == v && kids[..children - 1] == kids0
      decreases verts - disc.Keys, 1
    {
      hide Wf, Scanning, Finished, CanEnter, Valid, Ascending, Score, Absorb, New, Undirected, Represents;
      ghost var s := Snapshot();
      ScanningFacts(r, s0, gray, u, s, ws, kids0);
      EnterChild(r, s0, gray, u, s, ws, kids0, v);
      Adopt(v, u);
      Visit(v, gray + {u});
      ghost var t := Snapshot();
      AfterCall(r, s0, gray, u, s, ws, kids0, v, t);
      StillRoot(r, gray, u, s, v, t);
      Record(u, v, children);
      kids := kids0 + [Kid(v, New(s, t))];
    }

    // The recursive closure dfs. gray is the call stack below u.
    method Visit(u: Id, ghost gray: set<Id>)
      requires Valid() && u in verts && CanEnter(r, Snapshot(), gray, u)
      modifies this
      ensures Valid() && Finished(r, old(Snapshot()), gray, u, Snapshot())
      decreases verts - disc.Keys, 0
    {
      hide Wf, Scanning, Finished, CanEnter, Valid, Ascending, SortIds, Score, Absorb, SetParent, SetLow, Enter, New,
        GetZero, Min, ParentOrEmpty, CutVertices.Linked, Undirected, Represents;
      ghost var s0 := Snapshot();
      EnterScans(r, s0, gray, u);
      assert u !in disc by { CanEnterNew(r, s0, gray, u); }
      Discover(u);
      var children := 0;
      ghost var kids: seq<Kid> := [];
      NeighbourFacts(u);
      var neighbors := SortIds(Succ(adj, u));
      assert Elems(neighbors[..0]) == {};
      for i := 0 to |neighbors|
        invariant Valid() && Scanning(r, s0, gray, u, Snapshot(), Elems(neighbors[..i]), kids)
        invariant children == |kids|
        invariant i == 0 ==> kids == []
        invariant gray == {} && i > 0 ==> kids != [] && kids[0].top == neighbors[0]
      {
        var v := neighbors[i];
        ghost var s := Snapshot();
        ghost var ws := Elems(neighbors[..i]);
        assert Elems(neighbors[..i + 1]) == ws + {v};
        assert v in neighbors;
        ScanningFacts(r, s0, gray, u, s, ws, kids);
        if gray == {} && i == 0 { RootFirstScanning(r, s0, u, s, ws, kids, v); }
        if v !in disc {
          children := children + 1;
          kids := Descend(u, v, children, gray, s0, ws, kids);
        } else {
          Skip(u, v, gray, s0, ws, kids);
        }
      }
      assert neighbors[..|neighbors|] == neighbors;
      if neighbors != [] { FirstIsLeast(neighbors, r, u); }
      assert forall e :: e in r && e.src == u ==> e.dst in Elems(neighbors) by {
        forall e | e in r && e.src == u ensures e.dst in neighbors { assert Arc(u, e.dst) in r; }
      }
      Finish(r, s0, gray, u, Snapshot(), Elems(neighbors), kids);
    }

    // The outer loop over the nodes in ascending order.
    method Run(nodes: seq<Id>)
      requires Valid() && Wf(r, Snapshot(), {}) && disc == map[] && parent == map[]
      requires Ascending(nodes) && Elems(nodes) == verts
      modifies this
      ensures Valid() && disc.Keys == verts && isArt.Keys <= verts
      ensures Scores(r, Snapshot(), {})
      ensures forall x :: x in verts ==> RootIsLeast(r, parent, x)
    {
      hide Wf, Finished, Valid, RootIsLeast, ScoreOk;
      for i := 0 to |nodes|
        invariant Valid() && Wf(r, Snapshot(), {})
        invariant parent.Keys <= disc.Keys
        invariant Elems(nodes[..i]) <= disc.Keys
        invariant forall x :: x in disc ==> RootIsLeast(r, parent, x)
      {
        ghost var s := Snapshot();
        assert nodes[..i + 1] == nodes[..i] + [nodes[i]];
        if nodes[i] !in disc {
          assert nodes[i] in Elems(nodes);
          RootEnters(nodes[i]);
          Visit(nodes[i], {});
          FinishedFacts(r, s, {}, nodes[i], Snapshot());
          DiscWithin();
          NewTreeRoots(r, nodes, i, verts, s, Snapshot());
          TreeDone(r, s, nodes[i], Snapshot());
        }
      }
      assert nodes[..|nodes|] == nodes;
      DiscWithin();
      AllScored(r, Snapshot());
    }

    lemma RootEnters(u: Id)
      requires Valid() && Wf(r, Snapshot(), {}) && u !in disc && parent.Keys <= disc.Keys
      ensures CanEnter(r, Snapshot(), {}, u)
    {
    }

    lemma DiscWithin()
      requires Valid()
      ensures disc.Keys <= verts && Undirected(r) && forall e :: e in r ==> e.src in verts && e.dst in verts
    {
    }
  }

  // A node has no tree parent exactly when it is the least node of its component.
  ghost predicate RootIsLeast(r: Rel, parent: map<Id, Id>, x: Id) {
    x !in parent <==> forall y {:trigger Reach(r, x, y)} :: Reach(r, x, y) ==> x <= y
  }

  lemma AllScored(r: Rel, s: Dfs)
    requires Wf(r, s, {})
    ensures Scores(r, s, {}) && s.art.Keys <= s.disc.Keys
  {
  }

  lemma TreeDone(r: Rel, s: Dfs, u: Id, t: Dfs)
    requires Finished(r, s, {}, u, t)
    ensures t.parent.Keys <= t.disc.Keys && Wf(r, t, {})
  {
  }

  lemma NewTreeRoots(r: Rel, nodes: seq<Id>, i: nat, verts: set<Id>, s: Dfs, t: Dfs)
    requires i < |nodes| && Ascending(nodes) && Elems(nodes[..i]) <= s.disc.Keys && nodes[i] !in s.disc
    requires Undirected(r) && Wf(r, s, {}) && s.parent.Keys <= s.disc.Keys
    requires Finished(r, s, {}, nodes[i], t) && t.disc.Keys <= verts == Elems(nodes)
    requires forall e :: e in r ==> e.src in verts && e.dst in verts
    requires forall x :: x in s.disc ==> RootIsLeast(r, s.parent, x)
    ensures forall x :: x in t.disc ==> RootIsLeast(r, t.parent, x)
  {
    hide Wf, Scores, ScoreOk, LowSound, LowComplete, SizeOk;
    forall x | x in t.disc ensures RootIsLeast(r, t.parent, x) {
      if x in s.disc {
        assert RootIsLeast(r, s.parent, x);
      } else {
        NewTreeRoot(r, nodes, i, verts, s, t, x);
      }
    }
  }

  lemma LeastUndiscovered(nodes: seq<Id>, i: nat, disc: set<Id>)
    requires i < |nodes| && Ascending(nodes) && Elems(nodes[..i]) <= disc
    ensures forall y :: y in Elems(nodes) && y !in disc ==> nodes[i] <= y
  {
    forall k | 0 <= k < i ensures nodes[k] in disc {
      assert nodes[..i][k] in Elems(nodes[..i]);
    }
    forall y | y in Elems(nodes) && y !in disc ensures nodes[i] <= y {
      var j :| 0 <= j < |nodes| && nodes[j] == y;
      assert i <= j;
    }
  }

  lemma NewTreeRoot(r: Rel, nodes: seq<Id>, i: nat, verts: set<Id>, s: Dfs, t: Dfs, x: Id)
    requires i < |nodes| && Ascending(nodes) && Elems(nodes[..i]) <= s.disc.Keys && nodes[i] !in s.disc
    requires Undirected(r) && Wf(r, s, {}) && s.parent.Keys <= s.disc.Keys
    requires Finished(r, s, {}, nodes[i], t) && t.disc.Keys <= verts == Elems(nodes)
    requires forall e :: e in r ==> e.src in verts && e.dst in verts
    requires x in t.disc && x !in s.disc
    ensures RootIsLeast(r, t.parent, x)
  {
    var n := nodes[i];
    LeastUndiscovered(nodes, i, s.disc.Keys);
    assert Reach(Inside(r, New(s, t)), n, x);
    ReachMono(Inside(r, New(s, t)), r, n, x);
    ReachSymmetric(r, n, x);
    if x == n {
      forall y {:trigger Reach(r, x, y)} | Reach(r, x, y) ensures x <= y {
        StaysNew(r, s, verts, x, y);
      }
    } else {
      assert x in t.parent && n < x;
    }
  }

  lemma StaysNew(r: Rel, s: Dfs, verts: set<Id>, x: Id, y: Id)
    requires Undirected(r) && Settled(r, s, {}) && Reach(r, x, y) && x !in s.disc && x in verts
    requires forall e :: e in r ==> e.src in verts && e.dst in verts
    ensures y in verts && y !in s.disc
  {
    assert Closed(r, verts);
    ReachClosed(r, verts, x, y);
    if y in s.disc {
      ReachSymmetric(r, x, y);
      assert Closed(r, s.disc.Keys);
      ReachClosed(r, s.disc.Keys, y, x);
    }
  }
}
