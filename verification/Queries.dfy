/** The read tools of the service that search: Neighbors and Path. */
module Queries {
  import opened Order
  import opened Walks
  import opened Distance
  import opened PathOrder

  datatype Error = NodeNotFound(id: Id) | NegativeDepth

  datatype Result<+T> = Ok(value: T) | Err(error: Error)

  // No kinds at all means any kind.
  predicate EdgeMatch(kinds: seq<string>, kind: string) {
    |kinds| == 0 || kind in kinds
  }

  ghost function Directed(edges: seq<Edge>, kinds: seq<string>): Rel {
    set e | e in edges && EdgeMatch(kinds, e.kind) :: Arc(e.src, e.dst)
  }

  ghost function BothWays(edges: seq<Edge>, kinds: seq<string>): Rel {
    Directed(edges, kinds) + (set e | e in edges && EdgeMatch(kinds, e.kind) :: Arc(e.dst, e.src))
  }

  // ---- Neighbors ----

  // The nodes at distance 1 to depth, whatever direction the edges have.
  ghost predicate NeighborsOk(nodes: seq<Id>, edges: seq<Edge>, id: Id, kinds: seq<string>, depth: int,
                              res: Result<seq<Id>>) {
    if id !in nodes then res == Err(NodeNotFound(id))
    else if depth < 0 then res == Err(NegativeDepth)
    else res.Ok? && Ascending(res.value) && Elems(res.value) == Within(BothWays(edges, kinds), {id}, depth) - {id}
  }

  // The inner loop: labels every neighbour of id that has no label yet.
  method ExpandNode(edges: seq<Edge>, kinds: seq<string>, ghost start: Id, depth: int, seen0: map<Id, int>,
                    ghost done: set<Id>, queue0: seq<Id>, id: Id)
    returns (seen: map<Id, int>, queue: seq<Id>)
    requires Search(BothWays(edges, kinds), start, depth, seen0, done, queue0, {id}) && Expands(depth, seen0[id])
    ensures Search(BothWays(edges, kinds), start, depth, seen, done + {id}, queue, {})
    ensures seen0.Keys <= seen.Keys && |queue| - |queue0| == |seen| - |seen0|
  {
    hide Search, Expands;
    ghost var r := BothWays(edges, kinds);
    seen, queue := seen0, queue0;
    CurrentLabelled(r, start, depth, seen, done, queue, id);
    for i := 0 to |edges|
      invariant Search(r, start, depth, seen, done, queue, {id}) && id in seen && Expands(depth, seen[id])
      invariant seen0.Keys <= seen.Keys && |queue| - |queue0| == |seen| - |seen0|
      invariant forall a :: a in BothWays(edges[..i], kinds) && a.src == id ==> a.dst in seen
    {
      var e := edges[i];
      BothWaysSnoc(edges, kinds, i);
      if !EdgeMatch(kinds, e.kind) { continue; }
      var other;
      if e.src == id { other := e.dst; }
      else if e.dst == id { other := e.src; }
      else { continue; }
      if other in seen { continue; }
      assert e in edges;
      Discover(r, start, depth, seen, done, queue, id, other);
      seen := seen[other := seen[id] + 1];
      queue := queue + [other];
    }
    assert edges[..|edges|] == edges;
    Expanded(r, start, depth, seen, done, queue, id);
  }

  lemma CurrentLabelled(r: Rel, start: Id, depth: int, dist: map<Id, int>, done: set<Id>, queue: seq<Id>, id: Id)
    requires Search(r, start, depth, dist, done, queue, {id})
    ensures id in dist
  {
  }

  lemma BothWaysSnoc(edges: seq<Edge>, kinds: seq<string>, i: nat)
    requires i < |edges|
    ensures var e := edges[i];
            BothWays(edges[..i + 1], kinds) == BothWays(edges[..i], kinds)
              + (if EdgeMatch(kinds, e.kind) then {Arc(e.src, e.dst), Arc(e.dst, e.src)} else {})
  {
    assert edges[..i + 1] == edges[..i] + [edges[i]];
  }

  ghost function Endpoints(r: Rel): set<Id> {
    (set e | e in r :: e.src) + (set e | e in r :: e.dst)
  }

  lemma LabelsBounded(r: Rel, start: Id, depth: int, dist: map<Id, int>, done: set<Id>, queue: seq<Id>, cur: set<Id>)
    requires Search(r, start, depth, dist, done, queue, cur)
    ensures dist.Keys <= Endpoints(r) + {start}
    ensures |dist| <= |Endpoints(r) + {start}|
  {
    forall x | x in dist ensures x in Endpoints(r) + {start} {
      WithinEndpoints(r, start, x, dist[x]);
    }
    SubsetCard(dist.Keys, Endpoints(r) + {start});
  }

  lemma {:induction false} WithinEndpoints(r: Rel, start: Id, x: Id, d: nat)
    requires x in Within(r, {start}, d)
    ensures x in Endpoints(r) + {start}
    decreases d
  {
    if d > 0 {
      if x in Within(r, {start}, d - 1) { WithinEndpoints(r, start, x, d - 1); }
      else {
        var e :| e in r && e.src in Within(r, {start}, d - 1) && e.dst == x;
      }
    }
  }

  // The breadth-first loop of Neighbors. seen maps each reached node to its distance.
  method Spread(edges: seq<Edge>, kinds: seq<string>, id: Id, depth: nat) returns (seen: map<Id, int>)
    ensures seen.Keys == Within(BothWays(edges, kinds), {id}, depth)
    ensures forall x :: x in seen ==> seen[x] >= 0 && IsDistance(BothWays(edges, kinds), {id}, x, seen[x])
  {
    hide Search, Expands;
    ghost var r := BothWays(edges, kinds);
    ghost var done: set<Id> := {};
    ghost var bound := |Endpoints(r) + {id}|;
    seen := map[id := 0];
    var queue := [id];
    StartSearch(r, id, depth);
    LabelsBounded(r, id, depth, seen, done, queue, {});
    while queue != []
      invariant Search(r, id, depth, seen, done, queue, {}) && |seen| <= bound
      decreases bound - |seen| + |queue|
    {
      Dequeue(r, id, depth, seen, done, queue);
      var front := queue[0];
      queue := queue[1..];
      CurrentLabelled(r, id, depth, seen, done, queue, front);
      if seen[front] >= depth {
        assert !Expands(depth, seen[front]) by { NotExpanded(depth, seen[front]); }
        Skip(r, id, depth, seen, done, queue, front);
      } else {
        assert Expands(depth, seen[front]) by { IsExpanded(depth, seen[front]); }
        seen, queue := ExpandNode(edges, kinds, id, depth, seen, done, queue, front);
        LabelsBounded(r, id, depth, seen, done + {front}, queue, {});
      }
      done := done + {front};
    }
    LabelsExact(r, id, depth, seen, done);
  }

  lemma NotExpanded(depth: nat, d: int)
    requires d >= depth
    ensures !Expands(depth, d)
  {
  }

  lemma IsExpanded(depth: nat, d: int)
    requires d < depth
    ensures Expands(depth, d)
  {
  }

  lemma LabelsExact(r: Rel, start: Id, depth: nat, dist: map<Id, int>, done: set<Id>)
    requires Search(r, start, depth, dist, done, [], {})
    ensures dist.Keys == Within(r, {start}, depth)
    ensures forall x :: x in dist ==> dist[x] >= 0 && IsDistance(r, {start}, x, dist[x])
  {
    forall x
      ensures x in dist <==> x in Within(r, {start}, depth)
    {
      Distance.Finished(r, start, depth, dist, done, x, 0);
    }
    forall x | x in dist ensures IsDistance(r, {start}, x, dist[x]) {
      Distance.Finished(r, start, depth, dist, done, x, dist[x]);
    }
  }

  method Neighbors(nodes: seq<Id>, edges: seq<Edge>, nodeID: Id, edgeKinds: seq<string>, depth: int)
    returns (res: Result<seq<Id>>)
    requires EdgesWithin(edges, nodes)
    ensures NeighborsOk(nodes, edges, nodeID, edgeKinds, depth, res)
  {
    if nodeID !in nodes {
      return Err(NodeNotFound(nodeID));
    }
    if depth < 0 {
      return Err(NegativeDepth);
    }
    var seen := Spread(edges, edgeKinds, nodeID, depth);
    forall x | x in seen ensures x in nodes {
      WithinEndpoints(BothWays(edges, edgeKinds), nodeID, x, depth);
    }
    res := Ok(SortedSeq(set x | x in seen && x != nodeID && x in nodes));
  }

  // ---- Path ----

  ghost predicate PathOk(nodes: seq<Id>, edges: seq<Edge>, from: Id, to: Id, kinds: seq<string>, res: Result<seq<Id>>) {
    if from !in nodes then res == Err(NodeNotFound(from))
    else if to !in nodes then res == Err(NodeNotFound(to))
    else
      && res.Ok?
      && (res.value == [] <==> !Reach(Directed(edges, kinds), from, to))
      && (res.value != [] ==> ShortestWalk(Directed(edges, kinds), res.value, from, to))
      && (res.value != [] ==> FirstWalk(Directed(edges, kinds), res.value, from, to))
  }

  // Of the walks that are as short it is the first in dictionary order.
  ghost predicate FirstWalk(r: Rel, p: seq<Id>, from: Id, to: Id) {
    forall q :: WalkFromTo(r, q, from, to) && |q| == |p| ==> p == q || LexLess(p, q)
  }

  ghost predicate ShortestWalk(r: Rel, p: seq<Id>, from: Id, to: Id) {
    && WalkFromTo(r, p, from, to)
    && forall q :: WalkFromTo(r, q, from, to) ==> |p| <= |q|
  }

  // The per-node adjacency, each list sorted.
  method OutLists(edges: seq<Edge>, kinds: seq<string>) returns (adj: Adjacency)
    ensures forall v, w :: w in Succ(adj, v) <==> Arc(v, w) in Directed(edges, kinds)
    ensures forall v, i, j :: 0 <= i < j < |Succ(adj, v)| ==> Succ(adj, v)[i] <= Succ(adj, v)[j]
  {
    var raw: Adjacency := map[];
    for i := 0 to |edges|
      invariant forall v, w :: w in Succ(raw, v) <==> Arc(v, w) in Directed(edges[..i], kinds)
    {
      var e := edges[i];
      assert edges[..i + 1] == edges[..i] + [e];
      if EdgeMatch(kinds, e.kind) {
        assert Directed(edges[..i + 1], kinds) == Directed(edges[..i], kinds) + {Arc(e.src, e.dst)};
        raw := raw[e.src := Succ(raw, e.src) + [e.dst]];
      } else {
        assert Directed(edges[..i + 1], kinds) == Directed(edges[..i], kinds);
      }
    }
    assert edges[..|edges|] == edges;
    adj := map k | k in raw :: SortIds(raw[k]);
    forall v, w ensures w in Succ(adj, v) <==> w in Succ(raw, v) {
      if v in raw { SameElems(raw[v], adj[v]); }
    }
  }

  // Predecessor links: each labelled node but the first comes from one a step closer.
  ghost predicate LinksOk(r: Rel, from: Id, dist: map<Id, int>, prev: map<Id, Id>) {
    && prev.Keys == dist.Keys
    && forall x :: x in dist && x != from ==>
         prev[x] in dist && Arc(prev[x], x) in r && dist[x] == dist[prev[x]] + 1
  }

  lemma LinkMore(r: Rel, from: Id, dist: map<Id, int>, prev: map<Id, Id>, id: Id, next: Id)
    requires LinksOk(r, from, dist, prev) && id in dist && next !in dist && Arc(id, next) in r
    ensures LinksOk(r, from, dist[next := dist[id] + 1], prev[next := id])
  {
  }

  lemma FirstLink(r: Rel, from: Id)
    ensures LinksOk(r, from, map[from := 0], map[from := 0])
  {
  }

  lemma LinkKeys(r: Rel, from: Id, dist: map<Id, int>, prev: map<Id, Id>)
    requires LinksOk(r, from, dist, prev)
    ensures prev.Keys == dist.Keys
  {
  }

  lemma Unbounded(d: int)
    ensures Expands(-1, d)
  {
  }

  lemma FrontIsExact(r: Rel, from: Id, dist: map<Id, int>, done: set<Id>, queue: seq<Id>)
    requires Search(r, from, -1, dist, done, queue, {}) && queue != []
    ensures var to := queue[0]; to in dist && dist[to] >= 0 && IsDistance(r, {from}, to, dist[to]) && Reach(r, from, to)
    ensures from in dist && dist[from] == 0 && forall x :: x in dist ==> dist[x] >= 0
  {
    var to := queue[0];
    assert to in Elems(queue);
    if dist[to] > 0 && to in Within(r, {from}, dist[to] - 1) {
      Labelled(r, from, -1, dist, done, queue, to, dist[to] - 1);
    }
    var p := WithinWalk(r, {from}, to, dist[to]);
  }

  lemma NotReached(r: Rel, from: Id, to: Id, dist: map<Id, int>, done: set<Id>)
    requires Search(r, from, -1, dist, done, [], {})
    ensures to !in dist ==> !Reach(r, from, to)
    ensures from in dist && dist[from] == 0 && forall x :: x in dist ==> dist[x] >= 0
  {
    Distance.Finished(r, from, -1, dist, done, to, 0);
  }

  // The loop over the successors of id, the node at place h of the order.
  method TraceNode(adj: Adjacency, ghost r: Rel, ghost from: Id, ghost dist0: map<Id, int>, prev0: map<Id, Id>,
                   ghost done: set<Id>, queue0: seq<Id>, id: Id, ghost t0: Tree, ghost h: nat)
    returns (prev: map<Id, Id>, queue: seq<Id>, ghost dist: map<Id, int>, ghost t: Tree)
    requires forall v, w :: w in Succ(adj, v) <==> Arc(v, w) in r
    requires forall v, i, j :: 0 <= i < j < |Succ(adj, v)| ==> Succ(adj, v)[i] <= Succ(adj, v)[j]
    requires Search(r, from, -1, dist0, done, queue0, {id}) && LinksOk(r, from, dist0, prev0)
    requires TreeOk(r, from, t0, h) && Fits(t0, h + 1, from, dist0, prev0, done + {id}, queue0)
    requires h < |t0.ord| && t0.ord[h] == id && Elems(t0.ord[..h]) == done
    ensures Search(r, from, -1, dist, done + {id}, queue, {}) && LinksOk(r, from, dist, prev)
    ensures TreeOk(r, from, t, h + 1) && Fits(t, h + 1, from, dist, prev, done + {id}, queue)
    ensures |queue| - |queue0| == |dist| - |dist0| && queue0 <= queue
  {
    hide Search, Expands, LinksOk, TreeOk, Fits, Siblings, Elems;
    prev, queue, dist, t := prev0, queue0, dist0, t0;
    CurrentLabelled(r, from, -1, dist, done, queue, id);
    NextUp(r, from, t, h);
    var ws := Succ(adj, id);
    NoSiblings(r, from, t, h, ws);
    for i := 0 to |ws|
      invariant Search(r, from, -1, dist, done, queue, {id}) && LinksOk(r, from, dist, prev) && id in dist
      invariant TreeOk(r, from, t, h + 1) && Fits(t, h + 1, from, dist, prev, done + {id}, queue)
      invariant h < |t.ord| && t.ord[h] == id && Elems(t.ord[..h]) == done && Siblings(from, t, h, ws, i)
      invariant forall j :: 0 <= j < i ==> ws[j] in dist
      invariant |queue| - |queue0| == |dist| - |dist0| && queue0 <= queue
    {
      var next := ws[i];
      LinkKeys(r, from, dist, prev);
      assert next in Succ(adj, id);
      SiblingsMore(from, t, h, ws, i);
      if next in prev { continue; }
      Unbounded(dist[id]);
      Discover(r, from, -1, dist, done, queue, id, next);
      LinkMore(r, from, dist, prev, id, next);
      FoundNext(r, from, t, h, dist, prev, done, queue, id, ws, i);
      t := Grown(t, h + 1, next);
      prev := prev[next := id];
      dist := dist[next := dist[id] + 1];
      queue := queue + [next];
    }
    forall e | e in r && e.src == id ensures e.dst in dist { assert Arc(id, e.dst) in r && e.dst in ws; }
    Expanded(r, from, -1, dist, done, queue, id);
  }

  // What was found from the node at place h is among the first i of its successors.
  ghost predicate Siblings(from: Id, t: Tree, h: nat, ws: seq<Id>, i: nat) {
    forall y :: y in t.path && y != from && y in t.up && t.up[y] == h ==>
      exists j :: 0 <= j < i && j < |ws| && ws[j] == y
  }

  lemma NoSiblings(r: Rel, from: Id, t: Tree, h: nat, ws: seq<Id>)
    requires TreeOk(r, from, t, h)
    ensures Siblings(from, t, h, ws, 0)
  {
    hide InOrder, FoundFirst;
    forall y | y in t.path && y != from ensures t.up[y] < h { assert FoundFrom(r, t, h, y); }
  }

  lemma SiblingsMore(from: Id, t: Tree, h: nat, ws: seq<Id>, i: nat)
    requires Siblings(from, t, h, ws, i)
    ensures Siblings(from, t, h, ws, i + 1)
  {
  }

  // The next unlabelled successor joins the tree.
  lemma FoundNext(r: Rel, from: Id, t: Tree, h: nat, dist: map<Id, int>, prev: map<Id, Id>, done: set<Id>,
                  queue: seq<Id>, id: Id, ws: seq<Id>, i: nat)
    requires TreeOk(r, from, t, h + 1) && Fits(t, h + 1, from, dist, prev, done + {id}, queue)
    requires h < |t.ord| && t.ord[h] == id && Elems(t.ord[..h]) == done && Siblings(from, t, h, ws, i)
    requires i < |ws| && Arc(id, ws[i]) in r && ws[i] !in dist && id in dist
    requires forall j, k :: 0 <= j < k < |ws| ==> ws[j] <= ws[k]
    requires Search(r, from, -1, dist, done, queue, {id})
    ensures id in t.path && TreeOk(r, from, Grown(t, h + 1, ws[i]), h + 1)
    ensures Fits(Grown(t, h + 1, ws[i]), h + 1, from, dist[ws[i] := dist[id] + 1], prev[ws[i] := id],
                 done + {id}, queue + [ws[i]])
    ensures var g := Grown(t, h + 1, ws[i]);
            h < |g.ord| && g.ord[h] == id && Elems(g.ord[..h]) == done && Siblings(from, g, h, ws, i + 1)
  {
    hide Search, TreeOk, Siblings, SiblingsBelow;
    var next := ws[i];
    TreeHas(r, from, t, h + 1);
    assert next !in t.path && next != from && id in t.path;
    ClosedLead(r, from, dist, done, queue, {id}, next);
    forall k | 0 <= k < h ensures Arc(t.ord[k], next) !in r { assert t.ord[..h][k] in Elems(t.ord[..h]); }
    SiblingsFit(from, t, h, ws, i);
    GrownOk(r, from, t, h + 1, next);
    hide Fits;
    GrownFits(t, h + 1, from, dist, prev, done + {id}, queue, next);
    assert Grown(t, h + 1, next).ord[..h] == t.ord[..h];
  }

  lemma TreeHas(r: Rel, from: Id, t: Tree, h: nat)
    requires TreeOk(r, from, t, h)
    ensures from in t.path && t.path.Keys == Elems(t.ord) && forall k :: 0 <= k < |t.ord| ==> t.ord[k] in t.path
  {
    hide InOrder, FoundFirst, FoundFrom;
    forall k | 0 <= k < |t.ord| ensures t.ord[k] in t.path { assert t.ord[k] in Elems(t.ord); }
  }

  lemma SiblingsFit(from: Id, t: Tree, h: nat, ws: seq<Id>, i: nat)
    requires Siblings(from, t, h, ws, i) && i < |ws| && ws[i] !in t.path && h < |t.ord| && t.ord[h] in t.path
    requires forall j, k :: 0 <= j < k < |ws| ==> ws[j] <= ws[k]
    ensures SiblingsBelow(from, t, h + 1, ws[i]) && Siblings(from, Grown(t, h + 1, ws[i]), h, ws, i + 1)
  {
    forall y | y in t.path && y != from && y in t.up && t.up[y] == h ensures y < ws[i] {
      var j :| 0 <= j < i && j < |ws| && ws[j] == y;
    }
  }

  // The breadth-first loop of Path; found tells whether `to` was taken off the queue.
  method Trace(edges: seq<Edge>, kinds: seq<string>, from: Id, to: Id)
    returns (found: bool, prev: map<Id, Id>, ghost dist: map<Id, int>, ghost way: map<Id, seq<Id>>)
    ensures LinksOk(Directed(edges, kinds), from, dist, prev) && WaysFollow(from, prev, way)
    ensures from in dist && dist[from] == 0 && forall x :: x in dist ==> dist[x] >= 0
    ensures found <==> Reach(Directed(edges, kinds), from, to)
    ensures found ==> to in dist && IsDistance(Directed(edges, kinds), {from}, to, dist[to])
    ensures found ==> to in way && FirstWalk(Directed(edges, kinds), way[to], from, to)
  {
    hide Search, Expands, LinksOk, Reach, IsDistance, TreeOk, Fits, FirstWalk, WaysFollow, Sprout, Elems;
    ghost var r := Directed(edges, kinds);
    var adj := OutLists(edges, kinds);
    ghost var done: set<Id> := {};
    ghost var bound := |Endpoints(r) + {from}|;
    prev, dist := map[from := 0], map[from := 0];
    var queue := [from];
    ghost var t, h := Sprout(from), 0;
    FirstLink(r, from);
    StartSearch(r, from, -1);
    SproutOk(r, from);
    SproutFits(from);
    LabelsBounded(r, from, -1, dist, done, queue, {});
    while queue != []
      invariant Search(r, from, -1, dist, done, queue, {}) && LinksOk(r, from, dist, prev) && |dist| <= bound
      invariant TreeOk(r, from, t, h) && Fits(t, h, from, dist, prev, done, queue)
      invariant to !in done
      decreases bound - |dist| + |queue|
    {
      Dequeue(r, from, -1, dist, done, queue);
      var id := queue[0];
      TreeFollows(r, from, t, h, dist, prev, done, queue);
      if id == to {
        FrontIsExact(r, from, dist, done, queue);
        FrontIsFirst(r, from, t, h, dist, prev, done, queue);
        return true, prev, dist, t.path;
      }
      NextFits(t, h, from, dist, prev, done, queue);
      ClosedIs(t, h, from, dist, prev, done, queue);
      queue := queue[1..];
      prev, queue, dist, t := TraceNode(adj, r, from, dist, prev, done, queue, id, t, h);
      done, h := done + {id}, h + 1;
      LabelsBounded(r, from, -1, dist, done, queue, {});
    }
    assert dist.Keys == done by { AllDone(r, from, dist, done); }
    NotReached(r, from, to, dist, done);
    TreeFollows(r, from, t, h, dist, prev, done, queue);
    return false, prev, dist, t.path;
  }

  // Each way goes on from that of the predecessor.
  ghost predicate WaysFollow(from: Id, prev: map<Id, Id>, way: map<Id, seq<Id>>) {
    && way.Keys == prev.Keys && (from in way ==> way[from] == [from])
    && forall x :: x in prev && x != from ==> prev[x] in way && way[x] == way[prev[x]] + [x]
  }

  lemma TreeFollows(r: Rel, from: Id, t: Tree, h: nat, dist: map<Id, int>, prev: map<Id, Id>, done: set<Id>,
                    queue: seq<Id>)
    requires TreeOk(r, from, t, h) && Fits(t, h, from, dist, prev, done, queue)
    ensures WaysFollow(from, prev, t.path)
  {
    hide InOrder, FoundFirst;
    forall x | x in prev && x != from ensures prev[x] in t.path && t.path[x] == t.path[prev[x]] + [x] {
      assert FoundFrom(r, t, h, x);
    }
  }

  lemma ClosedIs(t: Tree, h: nat, from: Id, dist: map<Id, int>, prev: map<Id, Id>, closed: set<Id>, queue: seq<Id>)
    requires Fits(t, h, from, dist, prev, closed, queue)
    ensures h <= |t.ord| && Elems(t.ord[..h]) == closed
  {
  }

  lemma FrontIsFirst(r: Rel, from: Id, t: Tree, h: nat, dist: map<Id, int>, prev: map<Id, Id>, done: set<Id>,
                     queue: seq<Id>)
    requires TreeOk(r, from, t, h) && Fits(t, h, from, dist, prev, done, queue)
    requires Search(r, from, -1, dist, done, queue, {}) && queue != [] && queue[0] in dist
    ensures queue[0] in t.path && FirstWalk(r, t.path[queue[0]], from, queue[0])
  {
    hide Search, TreeOk, WalkFromTo;
    var to := queue[0];
    forall q | WalkFromTo(r, q, from, to) && |q| == |t.path[to]| ensures t.path[to] == q || LexLess(t.path[to], q) {
      WaysComeFirst(r, from, t, h, dist, prev, done, queue, to, q);
    }
  }

  lemma AllDone(r: Rel, from: Id, dist: map<Id, int>, done: set<Id>)
    requires Search(r, from, -1, dist, done, [], {})
    ensures dist.Keys == done
  {
  }

  ghost function Rev(p: seq<Id>): (q: seq<Id>)
    ensures |q| == |p| && forall i :: 0 <= i < |p| ==> q[i] == p[|p| - 1 - i]
  {
    seq(|p|, i requires 0 <= i < |p| => p[|p| - 1 - i])
  }

  // The swap loop that reverses the path.
  method Reverse(p: seq<Id>) returns (q: seq<Id>)
    ensures q == Rev(p)
  {
    q := p;
    var i, j := 0, |p| - 1;
    while i < j
      invariant |q| == |p| && 0 <= i <= j + 1 && i + j == |p| - 1
      invariant forall k :: i <= k <= j ==> q[k] == p[k]
      invariant forall k :: 0 <= k < i || j < k < |p| ==> q[k] == Rev(p)[k]
    {
      assert q[j] == Rev(p)[i] && q[i] == Rev(p)[j];
      q := q[i := q[j]][j := q[i]];
      i, j := i + 1, j - 1;
    }
  }

  // Following the predecessor links back from `to`.
  method Rebuild(ghost r: Rel, from: Id, to: Id, ghost dist: map<Id, int>, prev: map<Id, Id>,
                 ghost way: map<Id, seq<Id>>) returns (path: seq<Id>)
    requires LinksOk(r, from, dist, prev) && to in dist && from in dist
    requires dist[from] == 0 && forall x :: x in dist ==> dist[x] >= 0
    requires WaysFollow(from, prev, way)
    ensures WalkFromTo(r, path, from, to) && |path| == dist[to] + 1
    ensures to in way && path == way[to]
  {
    hide LinksOk, IsWalk, WaysFollow;
    LinkKeys(r, from, dist, prev);
    WayKeys(from, prev, way);
    path := [to];
    var cur := to;
    assert Rev(path) == [to] && IsWalk(r, [to]) by { SingleWalk(r, to); }
    while cur != from
      invariant cur in dist && path != [] && path[|path| - 1] == cur && path[0] == to
      invariant IsWalk(r, Rev(path)) && |path| == dist[to] - dist[cur] + 1
      invariant cur in way && way[cur] != [] && way[to] == way[cur] + Rev(path)[1..]
      decreases dist[cur]
    {
      LinkBack(r, from, dist, prev, cur);
      WayBack(from, prev, way, cur, Rev(path));
      LongerWalk(r, prev[cur], Rev(path));
      assert Rev(path + [prev[cur]]) == [prev[cur]] + Rev(path);
      cur := prev[cur];
      path := path + [cur];
    }
    assert way[from] == [from] && Rev(path) == [from] + Rev(path)[1..];
    path := Reverse(path);
  }

  lemma WayKeys(from: Id, prev: map<Id, Id>, way: map<Id, seq<Id>>)
    requires WaysFollow(from, prev, way)
    ensures way.Keys == prev.Keys && (from in way ==> way[from] == [from])
    ensures forall x :: x in way ==> way[x] != []
  {
  }

  // One step further back, with the rest of the way as listed so far.
  lemma WayBack(from: Id, prev: map<Id, Id>, way: map<Id, seq<Id>>, x: Id, rest: seq<Id>)
    requires WaysFollow(from, prev, way) && x in prev && x != from && rest != [] && rest[0] == x
    ensures prev[x] in way && x in way && way[x] + rest[1..] == way[prev[x]] + ([prev[x]] + rest)[1..]
  {
    var y := prev[x];
    assert y in way && way[x] == way[y] + [x];
    RestStep(way[y], x, y, rest);
  }

  lemma RestStep(p: seq<Id>, x: Id, y: Id, rest: seq<Id>)
    requires rest != [] && rest[0] == x
    ensures p + [x] + rest[1..] == p + ([y] + rest)[1..]
  {
    assert [x] + rest[1..] == rest && ([y] + rest)[1..] == rest;
  }

  lemma SingleWalk(r: Rel, x: Id)
    ensures IsWalk(r, [x])
  {
  }

  lemma LinkBack(r: Rel, from: Id, dist: map<Id, int>, prev: map<Id, Id>, x: Id)
    requires LinksOk(r, from, dist, prev) && x in dist && x != from
    ensures x in prev && prev[x] in dist && Arc(prev[x], x) in r && dist[x] == dist[prev[x]] + 1
  {
  }

  lemma LongerWalk(r: Rel, x: Id, p: seq<Id>)
    requires IsWalk(r, p) && Arc(x, p[0]) in r
    ensures IsWalk(r, [x] + p)
  {
    var q := [x] + p;
    forall i | 0 <= i < |q| - 1 ensures Step(r, q, i) {
      if i > 0 { assert Step(r, p, i - 1); }
    }
  }

  lemma DistanceIsShortest(r: Rel, from: Id, to: Id, d: nat, q: seq<Id>)
    requires IsDistance(r, {from}, to, d) && WalkFromTo(r, q, from, to)
    ensures d + 1 <= |q|
  {
    WalkWithin(r, {from}, q);
    if |q| - 1 < d { WithinMono(r, {from}, |q| - 1, d - 1); }
  }

  method Path(nodes: seq<Id>, edges: seq<Edge>, from: Id, to: Id, edgeKinds: seq<string>) returns (res: Result<seq<Id>>)
    ensures PathOk(nodes, edges, from, to, edgeKinds, res)
  {
    ghost var r := Directed(edges, edgeKinds);
    if from !in nodes {
      return Err(NodeNotFound(from));
    }
    if to !in nodes {
      return Err(NodeNotFound(to));
    }
    if from == to {
      ReachRefl(r, from);
      SingleWalk(r, from);
      return Ok([from]);
    }
    var found, prev, dist, way := Trace(edges, edgeKinds, from, to);
    if !found {
      return Ok([]);
    }
    var path := Rebuild(r, from, to, dist, prev, way);
    forall q | WalkFromTo(r, q, from, to) ensures |path| <= |q| {
      DistanceIsShortest(r, from, to, dist[to], q);
    }
    res := Ok(path);
  }

  // ---- What the answers mean for the edges ----

  // Some edge of a wanted kind leads from a to b.
  ghost predicate StepBy(edges: seq<Edge>, kinds: seq<string>, a: Id, b: Id) {
    exists e :: e in edges && e.src == a && e.dst == b && (kinds == [] || e.kind in kinds)
  }

  ghost predicate EdgeWalk(edges: seq<Edge>, kinds: seq<string>, p: seq<Id>, a: Id, b: Id) {
    p != [] && p[0] == a && p[|p| - 1] == b && forall i :: 0 <= i < |p| - 1 ==> StepBy(edges, kinds, p[i], p[i + 1])
  }

  lemma DirectedIff(edges: seq<Edge>, kinds: seq<string>, a: Id, b: Id)
    ensures Arc(a, b) in Directed(edges, kinds) <==> StepBy(edges, kinds, a, b)
    ensures Arc(a, b) in BothWays(edges, kinds) <==> StepBy(edges, kinds, a, b) || StepBy(edges, kinds, b, a)
  {
  }

  lemma EdgeWalkIff(edges: seq<Edge>, kinds: seq<string>, p: seq<Id>, a: Id, b: Id)
    ensures WalkFromTo(Directed(edges, kinds), p, a, b) <==> EdgeWalk(edges, kinds, p, a, b)
  {
    hide Directed, StepBy;
    var r := Directed(edges, kinds);
    forall i | 0 <= i < |p| - 1 ensures Step(r, p, i) <==> StepBy(edges, kinds, p[i], p[i + 1]) {
      DirectedIff(edges, kinds, p[i], p[i + 1]);
    }
  }

  // A path is a shortest walk over edges of wanted kinds, and empty only if there is none.
  lemma PathMeans(nodes: seq<Id>, edges: seq<Edge>, from: Id, to: Id, kinds: seq<string>, res: Result<seq<Id>>)
    requires PathOk(nodes, edges, from, to, kinds, res) && from in nodes && to in nodes
    ensures res.Ok?
    ensures res.value == [] <==> forall q :: !EdgeWalk(edges, kinds, q, from, to)
    ensures res.value != [] ==> EdgeWalk(edges, kinds, res.value, from, to)
    ensures forall q :: EdgeWalk(edges, kinds, q, from, to) ==> |res.value| <= |q|
    ensures forall q :: EdgeWalk(edges, kinds, q, from, to) && |q| == |res.value| ==>
              res.value == q || LexLess(res.value, q)
  {
    hide Directed, EdgeWalk, IsWalk;
    forall q ensures WalkFromTo(Directed(edges, kinds), q, from, to) <==> EdgeWalk(edges, kinds, q, from, to) {
      EdgeWalkIff(edges, kinds, q, from, to);
    }
  }

  // The answer is determined by the edges there are: neither their order nor their number
  // shows in it.
  lemma PathUnique(nodes: seq<Id>, edges: seq<Edge>, edges': seq<Edge>, from: Id, to: Id, kinds: seq<string>,
                   res: Result<seq<Id>>, res': Result<seq<Id>>)
    requires PathOk(nodes, edges, from, to, kinds, res) && PathOk(nodes, edges', from, to, kinds, res')
    requires forall e :: e in edges <==> e in edges'
    ensures res == res'
  {
    hide WalkFromTo, Reach, LexLess;
    assert Directed(edges, kinds) == Directed(edges', kinds);
    if res.Ok? && res.value != [] && res'.Ok? && res'.value != [] && res.value != res'.value {
      OnlyFirst(res.value, res'.value);
    }
  }

  lemma OnlyFirst(p: seq<Id>, q: seq<Id>)
    ensures !(|p| == |q| && LexLess(p, q) && LexLess(q, p))
  {
    hide LexLess;
    if |p| == |q| && LexLess(p, q) { BeforeAsym(p, q); }
  }

  // Each step is along an edge of a wanted kind, in either direction.
  ghost predicate EitherWalk(edges: seq<Edge>, kinds: seq<string>, p: seq<Id>, a: Id, b: Id) {
    && p != [] && p[0] == a && p[|p| - 1] == b
    && forall i :: 0 <= i < |p| - 1 ==> StepBy(edges, kinds, p[i], p[i + 1]) || StepBy(edges, kinds, p[i + 1], p[i])
  }

  lemma EitherWalkIff(edges: seq<Edge>, kinds: seq<string>, p: seq<Id>, a: Id, b: Id)
    ensures WalkFromTo(BothWays(edges, kinds), p, a, b) <==> EitherWalk(edges, kinds, p, a, b)
  {
    hide Directed, BothWays, StepBy;
    var r := BothWays(edges, kinds);
    forall i | 0 <= i < |p| - 1
      ensures Step(r, p, i) <==> StepBy(edges, kinds, p[i], p[i + 1]) || StepBy(edges, kinds, p[i + 1], p[i])
    {
      DirectedIff(edges, kinds, p[i], p[i + 1]);
    }
  }

  // The neighbours are exactly the other nodes at most depth such steps away.
  lemma NeighborsMean(nodes: seq<Id>, edges: seq<Edge>, id: Id, kinds: seq<string>, depth: int, res: Result<seq<Id>>,
                      x: Id)
    requires NeighborsOk(nodes, edges, id, kinds, depth, res) && id in nodes && depth >= 0
    ensures res.Ok?
    ensures x in res.value <==> x != id && exists q :: EitherWalk(edges, kinds, q, id, x) && |q| <= depth + 1
  {
    hide BothWays, Directed, EitherWalk, Within;
    var r := BothWays(edges, kinds);
    assert x in res.value <==> x in Elems(res.value);
    if x in Within(r, {id}, depth) {
      var q := WithinWalk(r, {id}, x, depth);
      EitherWalkIff(edges, kinds, q, id, x);
    }
    forall q | EitherWalk(edges, kinds, q, id, x) && |q| <= depth + 1 ensures x in Within(r, {id}, depth) {
      EitherWalkIff(edges, kinds, q, id, x);
      WalkWithin(r, {id}, q);
      WithinMono(r, {id}, |q| - 1, depth);
    }
  }

  // The edges of the listed kinds, in order.
  ghost function OfKinds(edges: seq<Edge>, kinds: seq<string>): seq<Edge> {
    if edges == [] then []
    else
      var n := |edges| - 1;
      OfKinds(edges[..n], kinds) + (if edges[n].kind in kinds then [edges[n]] else [])
  }

  lemma {:induction false} OfKindsElems(edges: seq<Edge>, kinds: seq<string>, e: Edge)
    ensures e in OfKinds(edges, kinds) <==> e in edges && e.kind in kinds
  {
    if edges != [] {
      var n := |edges| - 1;
      assert edges == edges[..n] + [edges[n]];
      OfKindsElems(edges[..n], kinds, e);
    }
  }

  // Asking for some kinds is asking for any kind among the edges of those kinds.
  lemma FilterLaw(nodes: seq<Id>, edges: seq<Edge>, kinds: seq<string>)
    requires kinds != []
    ensures forall from, to, res ::
              PathOk(nodes, edges, from, to, kinds, res) <==> PathOk(nodes, OfKinds(edges, kinds), from, to, [], res)
    ensures forall id, depth, res ::
              NeighborsOk(nodes, edges, id, kinds, depth, res) <==>
              NeighborsOk(nodes, OfKinds(edges, kinds), id, [], depth, res)
  {
    hide OfKinds, Within, Reach, WalkFromTo;
    forall e ensures e in OfKinds(edges, kinds) <==> e in edges && e.kind in kinds { OfKindsElems(edges, kinds, e); }
    assert Directed(edges, kinds) == Directed(OfKinds(edges, kinds), []);
    assert BothWays(edges, kinds) == BothWays(OfKinds(edges, kinds), []);
  }
}
