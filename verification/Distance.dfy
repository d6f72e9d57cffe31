/** One notion of distance for all the breadth-first searches. */
module Distance {
  import opened Order
  import opened Walks

  ghost function Image(r: Rel, s: set<Id>): set<Id> {
    set e | e in r && e.src in s :: e.dst
  }

  // The nodes at distance at most d from s.
  ghost function Within(r: Rel, s: set<Id>, d: nat): set<Id> {
    if d == 0 then s else Within(r, s, d - 1) + Image(r, Within(r, s, d - 1))
  }

  ghost predicate IsDistance(r: Rel, s: set<Id>, x: Id, d: nat) {
    x in Within(r, s, d) && (d > 0 ==> x !in Within(r, s, d - 1))
  }

  lemma {:induction false} WithinMono(r: Rel, s: set<Id>, c: nat, d: nat)
    requires c <= d
    ensures Within(r, s, c) <= Within(r, s, d)
  {
    if c < d { WithinMono(r, s, c, d - 1); }
  }

  lemma WithinStep(r: Rel, s: set<Id>, d: nat)
    requires d > 0
    ensures Within(r, s, d) == Within(r, s, d - 1) + Image(r, Within(r, s, d - 1))
  {
  }

  // Once a ring adds nothing, no later ring does.
  lemma {:induction false} WithinFixed(r: Rel, s: set<Id>, c: nat, d: nat)
    requires c <= d && Image(r, Within(r, s, c)) <= Within(r, s, c)
    ensures Within(r, s, d) == Within(r, s, c)
  {
    hide Within, Image;
    if c < d {
      WithinFixed(r, s, c, d - 1);
      WithinStep(r, s, d);
    }
  }

  // Distance is the number of edges of a shortest walk.
  lemma {:induction false} WithinWalk(r: Rel, s: set<Id>, x: Id, d: nat) returns (p: seq<Id>)
    requires x in Within(r, s, d)
    ensures |p| > 0 && |p| <= d + 1 && p[0] in s && WalkFromTo(r, p, p[0], x)
    decreases d
  {
    if d == 0 {
      p := [x];
    } else if x in Within(r, s, d - 1) {
      p := WithinWalk(r, s, x, d - 1);
    } else {
      var e :| e in r && e.src in Within(r, s, d - 1) && e.dst == x;
      var q := WithinWalk(r, s, e.src, d - 1);
      p := q + [x];
      forall i | 0 <= i < |p| - 1 ensures Step(r, p, i) {
        if i < |q| - 1 { assert Step(r, q, i); }
      }
    }
  }

  lemma {:induction false} WalkWithin(r: Rel, s: set<Id>, p: seq<Id>)
    requires IsWalk(r, p) && p[0] in s
    ensures p[|p| - 1] in Within(r, s, |p| - 1)
    decreases |p|
  {
    if |p| > 1 {
      var n := |p| - 1;
      var q := p[..n];
      forall i | 0 <= i < |q| - 1 ensures Step(r, q, i) { assert Step(r, p, i); }
      WalkWithin(r, s, q);
      assert Step(r, p, n - 1);
      assert Arc(q[|q| - 1], p[n]).dst in Image(r, Within(r, s, |p| - 2));
    }
  }

  // ---- The state of a queue-driven search from one node ----

  // depth < 0 stands for no bound. Nodes at the bound are not expanded.
  predicate Expands(depth: int, d: int) { depth < 0 || d < depth }

  // done: taken off the queue; cur: the nodes being expanded (none or one).
  // The queue is sorted by label, at most one apart, and everything expanded is no further.
  ghost predicate QueueOrder(dist: map<Id, int>, done: set<Id>, queue: seq<Id>, cur: set<Id>)
    requires dist.Keys == done + Elems(queue) + cur
  {
    && (forall i, j :: 0 <= i < j < |queue| ==> dist[queue[i]] <= dist[queue[j]])
    && (forall x, i :: x in done + cur && 0 <= i < |queue| ==> dist[x] <= dist[queue[i]])
    && (forall x, y :: x in done && y in cur ==> dist[x] <= dist[y])
    && (forall i :: 0 < i < |queue| ==> dist[queue[i]] <= dist[queue[0]] + 1)
    && (forall y, i :: y in cur && 0 <= i < |queue| ==> dist[queue[i]] <= dist[y] + 1)
  }

  ghost predicate Search(r: Rel, from: Id, depth: int, dist: map<Id, int>, done: set<Id>, queue: seq<Id>,
                         cur: set<Id>)
  {
    && dist.Keys == done + Elems(queue) + cur
    && from in dist && dist[from] == 0
    && (forall x :: x in dist ==> dist[x] >= 0 && x in Within(r, {from}, dist[x]))
    && (forall x :: x in dist && depth >= 0 ==> dist[x] <= depth)
    && (forall e :: e in r && e.src in done && Expands(depth, dist[e.src]) ==>
          e.dst in dist && dist[e.dst] <= dist[e.src] + 1)
    && QueueOrder(dist, done, queue, cur)
  }

  lemma StartSearch(r: Rel, from: Id, depth: int)
    requires depth == -1 || depth >= 0
    ensures Search(r, from, depth, map[from := 0], {}, [from], {})
  {
  }

  lemma Dequeue(r: Rel, from: Id, depth: int, dist: map<Id, int>, done: set<Id>, queue: seq<Id>)
    requires Search(r, from, depth, dist, done, queue, {}) && queue != []
    ensures Search(r, from, depth, dist, done, queue[1..], {queue[0]})
  {
    hide Within;
    assert Elems(queue) == {queue[0]} + Elems(queue[1..]);
    QueueFront(dist, done, queue);
    hide QueueOrder;
  }

  lemma QueueFront(dist: map<Id, int>, done: set<Id>, queue: seq<Id>)
    requires queue != [] && dist.Keys == done + Elems(queue) && Elems(queue) == {queue[0]} + Elems(queue[1..])
    requires QueueOrder(dist, done, queue, {})
    ensures QueueOrder(dist, done, queue[1..], {queue[0]})
  {
    forall i | 0 <= i < |queue| ensures queue[i] in Elems(queue) { }
  }

  lemma Skip(r: Rel, from: Id, depth: int, dist: map<Id, int>, done: set<Id>, queue: seq<Id>, id: Id)
    requires Search(r, from, depth, dist, done, queue, {id}) && !Expands(depth, dist[id])
    ensures Search(r, from, depth, dist, done + {id}, queue, {})
  {
  }

  lemma Discover(r: Rel, from: Id, depth: int, dist: map<Id, int>, done: set<Id>, queue: seq<Id>, id: Id, next: Id)
    requires Search(r, from, depth, dist, done, queue, {id}) && Expands(depth, dist[id])
    requires Arc(id, next) in r && next !in dist
    ensures Search(r, from, depth, dist[next := dist[id] + 1], done, queue + [next], {id})
  {
    assert Elems(queue + [next]) == Elems(queue) + {next};
    assert Arc(id, next).dst in Image(r, Within(r, {from}, dist[id]));
    assert next in Within(r, {from}, dist[id] + 1);
    hide Within, QueueOrder;
    Enqueue(dist, done, queue, id, next);
  }

  lemma Enqueue(dist: map<Id, int>, done: set<Id>, queue: seq<Id>, id: Id, next: Id)
    requires dist.Keys == done + Elems(queue) + {id} && QueueOrder(dist, done, queue, {id}) && next !in dist
    ensures Elems(queue + [next]) == Elems(queue) + {next}
    ensures QueueOrder(dist[next := dist[id] + 1], done, queue + [next], {id})
  {
    assert Elems(queue + [next]) == Elems(queue) + {next};
  }

  lemma SeenClose(r: Rel, from: Id, depth: int, dist: map<Id, int>, done: set<Id>, queue: seq<Id>, id: Id, x: Id)
    requires Search(r, from, depth, dist, done, queue, {id}) && x in dist
    ensures dist[x] <= dist[id] + 1
  {
    if x in queue { var i :| 0 <= i < |queue| && queue[i] == x; }
  }

  lemma Expanded(r: Rel, from: Id, depth: int, dist: map<Id, int>, done: set<Id>, queue: seq<Id>, id: Id)
    requires Search(r, from, depth, dist, done, queue, {id})
    requires forall e :: e in r && e.src == id ==> e.dst in dist
    ensures Search(r, from, depth, dist, done + {id}, queue, {})
  {
    forall e | e in r && e.src in done + {id} && Expands(depth, dist[e.src])
      ensures e.dst in dist && dist[e.dst] <= dist[e.src] + 1
    {
      if e.src == id { SeenClose(r, from, depth, dist, done, queue, id, e.dst); }
    }
  }

  // Up to the distance of the front of the queue, the labels are complete.
  lemma {:induction false} Labelled(r: Rel, from: Id, depth: int, dist: map<Id, int>, done: set<Id>, queue: seq<Id>,
                                    x: Id, k: nat)
    requires Search(r, from, depth, dist, done, queue, {}) && x in Within(r, {from}, k)
    requires queue == [] || k <= dist[queue[0]]
    requires depth < 0 || k <= depth
    ensures x in dist && dist[x] <= k
    decreases k
  {
    if k > 0 {
      if x in Within(r, {from}, k - 1) {
        Labelled(r, from, depth, dist, done, queue, x, k - 1);
      } else {
        var e :| e in r && e.src in Within(r, {from}, k - 1) && e.dst == x;
        Labelled(r, from, depth, dist, done, queue, e.src, k - 1);
        assert e.src in done;
      }
    }
  }

  // A finished search has labelled exactly the nodes in range, with their distances.
  lemma Finished(r: Rel, from: Id, depth: int, dist: map<Id, int>, done: set<Id>, x: Id, k: nat)
    requires Search(r, from, depth, dist, done, [], {})
    ensures depth >= 0 ==> (x in dist <==> x in Within(r, {from}, depth))
    ensures depth < 0 ==> (x in dist <==> Reach(r, from, x))
    ensures x in dist ==> (IsDistance(r, {from}, x, k) <==> k == dist[x])
  {
    if x in dist {
      var d := dist[x];
      if depth >= 0 { WithinMono(r, {from}, d, depth); }
      if d > 0 && x in Within(r, {from}, d - 1) { Labelled(r, from, depth, dist, done, [], x, d - 1); }
      if IsDistance(r, {from}, x, k) && k != d {
        if k < d { Labelled(r, from, depth, dist, done, [], x, k); }
        else { WithinMono(r, {from}, d, k - 1); }
      }
      var p := WithinWalk(r, {from}, x, d);
    }
    if depth >= 0 && x in Within(r, {from}, depth) { Labelled(r, from, depth, dist, done, [], x, depth); }
    if depth < 0 && Reach(r, from, x) {
      var p :| WalkFromTo(r, p, from, x);
      WalkWithin(r, {from}, p);
      Labelled(r, from, depth, dist, done, [], x, |p| - 1);
    }
  }
}
