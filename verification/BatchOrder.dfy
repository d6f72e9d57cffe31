/** Which topological order it is: Kahn's algorithm with each batch of new sources sorted. */
module BatchOrder {
  import opened Order
  import opened Walks

  // Every edge into a listed node comes from a node listed earlier.
  ghost predicate Forward(r: Rel, order: seq<Id>) {
    forall e, i {:trigger e in r, order[i]} ::
      e in r && 0 <= i < |order| && order[i] == e.dst ==> e.src in order[..i]
  }

  // The place of the last listed node with an edge to x; -1 if there is none.
  ghost function LastSource(r: Rel, order: seq<Id>, x: Id): (k: int)
    ensures -1 <= k < |order| && (k >= 0 ==> Arc(order[k], x) in r)
    ensures forall l :: k < l < |order| ==> Arc(order[l], x) !in r
  {
    if order == [] then -1
    else
      var n := |order| - 1;
      if Arc(order[n], x) in r then n else LastSource(r, order[..n], x)
  }

  // The last source comes sooner, or is the same and the id is smaller.
  ghost predicate Sooner(r: Rel, order: seq<Id>, x: Id, y: Id) {
    LastSource(r, order, x) < LastSource(r, order, y) || (LastSource(r, order, x) == LastSource(r, order, y) && x < y)
  }

  ghost predicate ByBatches(r: Rel, order: seq<Id>, queue: seq<Id>) {
    forall i, j :: 0 <= i < j < |order + queue| ==> Sooner(r, order, (order + queue)[i], (order + queue)[j])
  }

  // Every edge into a listed or queued node comes from a node listed.
  ghost predicate SourcesListed(r: Rel, order: seq<Id>, xs: seq<Id>)
    { forall e :: e in r && e.dst in xs ==> e.src in order }

  lemma LastIs(r: Rel, order: seq<Id>, x: Id, k: int)
    requires -1 <= k < |order| && (k >= 0 ==> Arc(order[k], x) in r)
    requires forall l :: k < l < |order| ==> Arc(order[l], x) !in r
    ensures LastSource(r, order, x) == k
  {
  }

  lemma StartBatches(r: Rel, queue: seq<Id>)
    requires SortedBy(queue, IdLe) && Distinct(queue)
    ensures ByBatches(r, [], queue)
  {
    forall i, j | 0 <= i < j < |queue| ensures Sooner(r, [], queue[i], queue[j]) {
      LastIs(r, [], queue[i], -1);
      LastIs(r, [], queue[j], -1);
    }
    assert [] + queue == queue;
  }

  // A node is listed, and the nodes it frees are queued in ascending order.
  lemma NextBatch(r: Rel, order: seq<Id>, queue: seq<Id>, batch: seq<Id>)
    requires queue != [] && Distinct(order + queue) && Distinct(batch) && SortedBy(batch, IdLe)
    requires SourcesListed(r, order, order + queue) && ByBatches(r, order, queue)
    requires forall x :: x in batch ==> Arc(queue[0], x) in r
    ensures ByBatches(r, order + [queue[0]], queue[1..] + batch)
  {
    hide LastSource;
    var v, n := queue[0], |order|;
    var old', all := order + queue, order + [v] + (queue[1..] + batch);
    assert all == old' + batch && old'[n] == v;
    assert v !in order by {
      forall i | 0 <= i < n ensures order[i] != v { assert old'[i] == order[i]; }
    }
    forall i | 0 <= i < |all|
      ensures i < |old'| ==> LastSource(r, order + [v], all[i]) == LastSource(r, order, all[i]) < n
      ensures i >= |old'| ==> LastSource(r, order + [v], all[i]) == n
    {
      if i < |old'| {
        assert all[i] in old' && Arc(v, all[i]) !in r;
        LastIs(r, order + [v], all[i], LastSource(r, order, all[i]));
      } else {
        assert all[i] in batch;
        LastIs(r, order + [v], all[i], n);
      }
    }
    forall i, j | 0 <= i < j < |all| ensures Sooner(r, order + [v], all[i], all[j]) {
      if j < |old'| {
        assert Sooner(r, order, old'[i], old'[j]);
      } else if i >= |old'| {
        assert batch[i - |old'|] == all[i] && batch[j - |old'|] == all[j];
      }
    }
  }

  lemma SameSources(r: Rel, order: seq<Id>, k: nat, x: Id)
    requires k <= |order| && Distinct(order) && forall e :: e in r && e.dst == x ==> e.src in order[..k]
    ensures LastSource(r, order, x) == LastSource(r, order[..k], x)
  {
    hide LastSource;
    var l := LastSource(r, order[..k], x);
    forall m | l < m < |order| ensures Arc(order[m], x) !in r {
      assert m >= k ==> order[m] !in order[..k];
    }
    LastIs(r, order, x, l);
  }

  // Of the nodes whose sources are all listed, the next listed comes soonest.
  lemma NextIsSoonest(r: Rel, order: seq<Id>, n: nat, y: Id)
    requires Distinct(order) && ByBatches(r, order, []) && Forward(r, order)
    requires n < |order| && y in order && y !in order[..n] && forall e :: e in r && e.dst == y ==> e.src in order[..n]
    ensures order[n] == y || Sooner(r, order[..n], order[n], y)
  {
    hide LastSource;
    var i :| 0 <= i < |order| && order[i] == y;
    assert forall m :: 0 <= m < n ==> order[m] in order[..n];
    assert order + [] == order;
    SameSources(r, order, n, order[n]);
    SameSources(r, order, n, y);
  }

  // Up to any place two such orders of the same nodes agree.
  lemma {:induction false} OneOrder(r: Rel, a: seq<Id>, b: seq<Id>, k: nat)
    requires Distinct(a) && Distinct(b) && Elems(a) == Elems(b) && |a| == |b|
    requires ByBatches(r, a, []) && ByBatches(r, b, []) && Forward(r, a) && Forward(r, b)
    requires k <= |a|
    ensures a[..k] == b[..k]
  {
    hide LastSource, ByBatches;
    if k > 0 {
      var n := k - 1;
      OneOrder(r, a, b, n);
      assert a[n] in Elems(b) && b[n] in Elems(a);
      assert a[n] !in a[..n] && b[n] !in b[..n];
      NextIsSoonest(r, a, n, b[n]);
      NextIsSoonest(r, b, n, a[n]);
      assert a[..k] == a[..n] + [a[n]] && b[..k] == b[..n] + [b[n]];
    }
  }
}
