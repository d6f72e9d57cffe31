/** Tarjan's strongly connected components, as written twice in the repository:
    `cycles` keeps the components with at least two nodes, `tarjanSCC` keeps all.
    The recursive closure over shared maps is a class with a recursive method. */
module Scc {
  import opened Order
  import opened Walks

  // A snapshot of the search: `open` is the set of nodes on the stack, `popped` lists
  // every component taken off it, including those that are not reported.
  datatype Search = Search(
    index: map<Id, int>, low: map<Id, int>, open: set<Id>, counter: int, popped: seq<seq<Id>>)
  {
    ghost predicate Done(x: Id) { x in index && x !in open }
  }

  ghost predicate Numbered(s: Search) {
    && s.low.Keys == s.index.Keys
    && s.open <= s.index.Keys
    && (forall x :: x in s.index ==> s.index[x] < s.counter)
  }

  // Earlier stack nodes reach later ones, and each stack node reaches a node of the
  // call stack (gray) that is not above it.
  ghost predicate Linked(r: Rel, s: Search, gray: set<Id>)
    requires Numbered(s)
  {
    && gray <= s.open
    && (forall x, y {:trigger Reach(r, x, y)} ::
          x in s.open && y in s.open && s.index[x] <= s.index[y] ==> Reach(r, x, y))
    && (forall y {:trigger HasGray(r, s, gray, y)} :: y in s.open ==> HasGray(r, s, gray, y))
  }

  ghost predicate HasGray(r: Rel, s: Search, gray: set<Id>, y: Id)
    requires Numbered(s) && y in s.open
  {
    exists x :: x in gray && x in s.open && s.index[x] <= s.index[y] && Reach(r, y, x)
  }

  // A finished node has no edge to an unvisited node, and a popped node has edges to
  // popped nodes only.
  ghost predicate NoBlackToWhite(r: Rel, s: Search, gray: set<Id>) {
    && (forall e :: e in r && e.src in s.index && e.src !in gray ==> e.dst in s.index)
    && (forall e :: e in r && s.Done(e.src) ==> s.Done(e.dst))
  }

  ghost predicate InSome(cs: seq<seq<Id>>, x: Id) {
    exists k :: 0 <= k < |cs| && x in cs[k]
  }

  ghost predicate PoppedOk(r: Rel, s: Search) {
    && (forall k :: 0 <= k < |s.popped| ==> Distinct(s.popped[k]) && IsScc(r, Elems(s.popped[k])))
    && (forall k, x :: 0 <= k < |s.popped| && x in s.popped[k] ==> s.Done(x))
    && (forall k, l, x :: 0 <= k < l < |s.popped| && x in s.popped[k] ==> x !in s.popped[l])
    && (forall x {:trigger InSome(s.popped, x)} :: s.Done(x) ==> InSome(s.popped, x))
  }

  ghost predicate Wf(r: Rel, s: Search, gray: set<Id>) {
    && Numbered(s)
    && Linked(r, s, gray)
    && NoBlackToWhite(r, s, gray)
    && PoppedOk(r, s)
  }

  lemma WfNumbered(r: Rel, s: Search, gray: set<Id>)
    requires Wf(r, s, gray)
    ensures Numbered(s)
  {
  }

  // What stays fixed while new nodes are searched; new nodes get new numbers.
  ghost predicate Extends(s0: Search, s: Search) {
    && (forall x :: x in s0.index ==> x in s.index && s.index[x] == s0.index[x])
    && (forall x :: x in s0.low ==> x in s.low && s.low[x] == s0.low[x])
    && (forall x :: x in s.index && x !in s0.index ==> s0.counter <= s.index[x])
    && s0.counter <= s.counter
    && s0.open <= s.open
    && (forall x :: x in s.open && x in s0.index ==> x in s0.open)
  }

  // low is the index of v or of a node below it on the stack that v reaches.
  ghost predicate LowSound(r: Rel, s: Search, below: set<Id>, v: Id) {
    && v in s.low && v in s.index
    && s.low[v] <= s.index[v]
    && (s.low[v] < s.index[v] ==>
          exists y :: y in below && y in s.index && s.index[y] == s.low[v] && Reach(r, v, y))
  }

  // Edges from the nodes xs to nodes of below stay at or above bound.
  ghost predicate LowComplete(r: Rel, s: Search, xs: set<Id>, below: set<Id>, bound: int) {
    forall e :: e in r && e.src in xs && e.dst in below ==> e.dst in s.index && bound <= s.index[e.dst]
  }

  // The contract of strongconnect(v), entered in s0 and left in s.
  ghost predicate Finished(r: Rel, s0: Search, gray: set<Id>, v: Id, s: Search) {
    && Wf(r, s, gray)
    && Extends(s0, s)
    && v !in s0.index
    && LowSound(r, s, s0.open, v)
    && LowComplete(r, s, s.open - s0.open, s0.open, s.low[v])
  }

  // The same in the middle of the loop over the successors of v, the nodes ws processed.
  ghost predicate Scanning(r: Rel, s0: Search, gray: set<Id>, v: Id, s: Search, ws: set<Id>) {
    && Wf(r, s, gray + {v})
    && Extends(s0, s)
    && v !in s0.index
    && LowSound(r, s, s0.open, v)
    && s.index[v] == s0.counter
    && LowComplete(r, s, s.open - s0.open - {v}, s0.open, s.low[v])
    && (forall w :: w in ws ==> w in s.index)
    && (forall w :: w in ws && w in s0.open ==> s.low[v] <= s.index[w])
  }

  lemma ScanningFacts(r: Rel, s0: Search, gray: set<Id>, v: Id, s: Search, ws: set<Id>)
    requires Scanning(r, s0, gray, v, s, ws)
    ensures Numbered(s) && v in s.index && v in s.low && s.low[v] <= s.index[v]
    ensures v !in s0.index && s0.index.Keys + {v} <= s.index.Keys
  {
    assert forall x :: x in s0.index ==> x in s.index;
  }

  lemma FinishedFacts(r: Rel, s0: Search, gray: set<Id>, v: Id, s: Search)
    requires Finished(r, s0, gray, v, s)
    ensures v in s.low && s0.low.Keys <= s.low.Keys
  {
    assert forall x :: x in s0.low ==> x in s.low;
  }

  // strongconnect(v) may be entered when every gray node reaches v.
  ghost predicate CanEnter(r: Rel, s: Search, gray: set<Id>, v: Id) {
    && Wf(r, s, gray)
    && v !in s.index
    && (forall x :: x in gray ==> Reach(r, x, v))
  }

  ghost function Enter(s: Search, v: Id): Search {
    s.(index := s.index[v := s.counter], low := s.low[v := s.counter],
       counter := s.counter + 1, open := s.open + {v})
  }

  // Every stack node reaches a gray node, and so everything all gray nodes reach.
  lemma StackReaches(r: Rel, s: Search, gray: set<Id>, x: Id, v: Id)
    requires Numbered(s) && Linked(r, s, gray) && x in s.open
    requires forall z :: z in gray ==> Reach(r, z, v)
    ensures Reach(r, x, v)
  {
    assert HasGray(r, s, gray, x);
    var z :| z in gray && z in s.open && s.index[z] <= s.index[x] && Reach(r, x, z);
    ReachTrans(r, x, z, v);
  }

  lemma EnterLinked(r: Rel, s0: Search, gray: set<Id>, v: Id, s: Search)
    requires CanEnter(r, s0, gray, v) && Numbered(s) && Extends(s0, s)
    requires s.open == s0.open + {v} && v in s.index && s.index[v] == s0.counter
    ensures Linked(r, s, gray + {v})
  {
    ReachRefl(r, v);
    forall y {:trigger HasGray(r, s, gray + {v}, y)} | y in s.open ensures HasGray(r, s, gray + {v}, y) {
      if y != v { assert HasGray(r, s0, gray, y); }
    }
    forall x, y {:trigger Reach(r, x, y)} | x in s.open && y in s.open && s.index[x] <= s.index[y]
      ensures Reach(r, x, y)
    {
      EnterReaches(r, s0, gray, v, x, y);
    }
  }

  lemma EnterReaches(r: Rel, s0: Search, gray: set<Id>, v: Id, x: Id, y: Id)
    requires CanEnter(r, s0, gray, v)
    requires x in s0.open || x == v
    requires y == v || (y in s0.open && x in s0.open && s0.index[x] <= s0.index[y])
    ensures Reach(r, x, y)
  {
    if y == v {
      if x == v { ReachRefl(r, v); } else { StackReaches(r, s0, gray, x, v); }
    }
  }

  lemma EnterScans(r: Rel, s0: Search, gray: set<Id>, v: Id)
    requires CanEnter(r, s0, gray, v)
    ensures Scanning(r, s0, gray, v, Enter(s0, v), {})
  {
    var s := Enter(s0, v);
    EnterLinked(r, s0, gray, v, s);
    ReachRefl(r, v);
    assert forall x :: s.Done(x) <==> s0.Done(x);
  }

  lemma CanEnterSucc(r: Rel, s0: Search, gray: set<Id>, v: Id, s: Search, ws: set<Id>, w: Id)
    requires Scanning(r, s0, gray, v, s, ws)
    requires Arc(v, w) in r && w !in s.index
    requires forall x :: x in gray ==> Reach(r, x, v)
    ensures CanEnter(r, s, gray + {v}, w)
  {
    ReachEdge(r, v, w);
    forall x | x in gray + {v} ensures Reach(r, x, w) {
      if x != v { ReachTrans(r, x, v, w); }
    }
  }

  ghost function SetLow(s: Search, v: Id, k: int): Search {
    s.(low := s.low[v := k])
  }

  lemma SetLowKeepsWf(r: Rel, s: Search, gray: set<Id>, v: Id, k: int)
    requires Wf(r, s, gray) && v in s.low
    ensures Wf(r, SetLow(s, v, k), gray)
  {
    var t := SetLow(s, v, k);
    assert t.low.Keys == s.low.Keys;
    assert forall x :: t.Done(x) <==> s.Done(x);
    forall y {:trigger HasGray(r, t, gray, y)} | y in t.open
      ensures HasGray(r, t, gray, y)
    {
      assert HasGray(r, s, gray, y);
    }
  }

  function Min(a: int, b: int): int { if b < a then b else a }

  // Return from the recursive call on w: low[v] becomes min(low[v], low[w]).
  lemma AfterCall(r: Rel, s0: Search, gray: set<Id>, v: Id, s: Search, ws: set<Id>, w: Id, t: Search)
    requires Numbered(s0) && Scanning(r, s0, gray, v, s, ws)
    requires Arc(v, w) in r && Finished(r, s, gray + {v}, w, t)
    ensures Scanning(r, s0, gray, v, SetLow(t, v, Min(t.low[v], t.low[w])), ws + {w})
  {
    hide Reach, Linked, HasGray;
    var u := SetLow(t, v, Min(t.low[v], t.low[w]));
    SetLowKeepsWf(r, t, gray + {v}, v, u.low[v]);
    if t.low[w] < t.low[v] {
      var y :| y in s.open && y in t.index && t.index[y] == t.low[w] && Reach(r, w, y);
      assert y in s0.open;
      ReachEdge(r, v, w);
      ReachTrans(r, v, w, y);
    }
    assert LowSound(r, u, s0.open, v);
    forall e | e in r && e.src in u.open - s0.open - {v} && e.dst in s0.open
      ensures e.dst in u.index && u.low[v] <= u.index[e.dst]
    {
      if e.src in s.open { assert e.src in s.open - s0.open - {v}; } else { assert e.src in t.open - s.open; }
    }
  }

  // The successor w was visited already: low[v] becomes min(low[v], index[w]) when w is
  // on the stack and stays otherwise.
  lemma AfterSeen(r: Rel, s0: Search, gray: set<Id>, v: Id, s: Search, ws: set<Id>, w: Id)
    requires Numbered(s0) && Scanning(r, s0, gray, v, s, ws)
    requires Arc(v, w) in r && w in s.index
    ensures w in s.open ==>
              Scanning(r, s0, gray, v, SetLow(s, v, Min(s.low[v], s.index[w])), ws + {w})
    ensures w !in s.open ==> Scanning(r, s0, gray, v, s, ws + {w})
  {
    if w in s.open {
      var k := Min(s.low[v], s.index[w]);
      SetLowKeepsWf(r, s, gray + {v}, v, k);
      ReachEdge(r, v, w);
      assert s.index[w] < s.low[v] ==> w in s0.open;
    }
  }

  // v reaches a gray node below itself.
  lemma LowReachesGray(r: Rel, s0: Search, gray: set<Id>, v: Id, s: Search) returns (x0: Id)
    requires Wf(r, s0, gray) && Extends(s0, s)
    requires LowSound(r, s, s0.open, v) && s.low[v] < s.index[v]
    ensures x0 in gray && x0 in s.open && x0 in s.index && s.index[x0] <= s.index[v] && Reach(r, v, x0)
  {
    var y0 :| y0 in s0.open && y0 in s.index && s.index[y0] == s.low[v] && Reach(r, v, y0);
    assert HasGray(r, s0, gray, y0);
    x0 :| x0 in gray && x0 in s0.open && s0.index[x0] <= s0.index[y0] && Reach(r, y0, x0);
    ReachTrans(r, v, y0, x0);
  }

  lemma KeepGray(r: Rel, s: Search, gray: set<Id>, v: Id, x0: Id, y: Id)
    requires Numbered(s) && Linked(r, s, gray + {v}) && y in s.open && v in s.open
    requires x0 in gray && x0 in s.open && s.index[x0] <= s.index[v] && Reach(r, v, x0)
    ensures HasGray(r, s, gray, y)
  {
    assert HasGray(r, s, gray + {v}, y);
    var x :| x in gray + {v} && x in s.open && s.index[x] <= s.index[y] && Reach(r, y, x);
    if x == v { ReachTrans(r, y, v, x0); }
  }

  // All successors ws are processed and low[v] < index[v]: v stays on the stack.
  lemma FinishKeep(r: Rel, s0: Search, gray: set<Id>, v: Id, s: Search, ws: set<Id>)
    requires Wf(r, s0, gray) && Scanning(r, s0, gray, v, s, ws)
    requires forall e :: e in r && e.src == v ==> e.dst in ws
    requires s.low[v] < s.index[v]
    ensures Finished(r, s0, gray, v, s)
  {
    assert Linked(r, s, gray) by {
      var x0 := LowReachesGray(r, s0, gray, v, s);
      forall y {:trigger HasGray(r, s, gray, y)} | y in s.open ensures HasGray(r, s, gray, y) {
        KeepGray(r, s, gray, v, x0, y);
      }
    }
    forall e | e in r && e.src in s.index && e.src !in gray ensures e.dst in s.index {
      if e.src == v { assert e.dst in ws; } else { assert e.src !in gray + {v}; assert e.dst in s.index; }
    }
    forall e | e in r && e.src in s.open - s0.open && e.dst in s0.open
      ensures e.dst in s.index && s.low[v] <= s.index[e.dst]
    {
      if e.src == v { assert e.dst in ws; } else { assert e.src in s.open - s0.open - {v}; }
    }
  }

  // All successors ws are processed and low[v] == index[v]: the nodes pushed since v
  // was entered, v included, are a strongly connected component.
  lemma SegmentIsScc(r: Rel, s0: Search, gray: set<Id>, v: Id, s: Search, ws: set<Id>)
    requires Wf(r, s0, gray) && Scanning(r, s0, gray, v, s, ws)
    requires forall e :: e in r && e.src == v ==> e.dst in ws
    requires s.low[v] == s.index[v]
    ensures IsScc(r, s.open - s0.open)
    ensures forall e :: e in r && e.src in s.open - s0.open ==> e.dst in s.open - s0.open || s.Done(e.dst)
  {
    var seg := s.open - s0.open;
    var done := set x | x in s.index && s.Done(x);
    forall y | y in seg ensures Reach(r, v, y) && Reach(r, y, v) {
      SegmentReachesRoot(r, s0, gray, v, s, y);
    }
    forall a, b {:trigger Reach(r, a, b)} | a in seg && b in seg ensures Reach(r, a, b) {
      ReachTrans(r, a, v, b);
    }
    assert Closed(r, done);
    forall e | e in r && e.src in seg ensures e.dst in seg || s.Done(e.dst) {
      if e.src == v { assert e.dst in ws; }
    }
    assert Closed(r, seg + done);
    forall a, b | a in seg && Mutual(r, a, b) ensures b in seg {
      ReachClosed(r, seg + done, a, b);
      if b in done { ReachClosed(r, done, b, a); }
    }
    assert v in seg;
  }

  lemma SegmentReachesRoot(r: Rel, s0: Search, gray: set<Id>, v: Id, s: Search, y: Id)
    requires Wf(r, s0, gray) && Wf(r, s, gray + {v}) && Extends(s0, s)
    requires v !in s0.index && v in s.index && s.index[v] == s0.counter
    requires y in s.open - s0.open
    ensures Reach(r, v, y) && Reach(r, y, v)
  {
    assert HasGray(r, s, gray + {v}, y);
    var x :| x in gray + {v} && x in s.open && s.index[x] <= s.index[y] && Reach(r, y, x);
    assert Reach(r, x, v);
    ReachTrans(r, y, x, v);
  }

  ghost function Pop(s: Search, open: set<Id>, comp: seq<Id>): Search {
    s.(open := open, popped := s.popped + [comp])
  }

  lemma FinishPop(r: Rel, s0: Search, gray: set<Id>, v: Id, s: Search, ws: set<Id>, comp: seq<Id>)
    requires Wf(r, s0, gray) && Scanning(r, s0, gray, v, s, ws)
    requires forall e :: e in r && e.src == v ==> e.dst in ws
    requires s.low[v] == s.index[v]
    requires Distinct(comp) && Elems(comp) == s.open - s0.open
    ensures Finished(r, s0, gray, v, Pop(s, s0.open, comp))
  {
    var t := Pop(s, s0.open, comp);
    SegmentIsScc(r, s0, gray, v, s, ws);
    assert forall x :: x in comp <==> x in Elems(comp);
    forall y {:trigger HasGray(r, t, gray, y)} | y in t.open ensures HasGray(r, t, gray, y) {
      assert HasGray(r, s0, gray, y);
    }
    PopKeepsPopped(r, s, s0.open, comp);
  }

  lemma PopKeepsPopped(r: Rel, s: Search, open: set<Id>, comp: seq<Id>)
    requires Numbered(s) && PoppedOk(r, s) && open <= s.open
    requires Distinct(comp) && IsScc(r, Elems(comp)) && Elems(comp) == s.open - open
    ensures PoppedOk(r, Pop(s, open, comp))
  {
    var t := Pop(s, open, comp);
    var n := |s.popped|;
    assert forall x :: x in comp <==> x in Elems(comp);
    assert forall x :: t.Done(x) <==> s.Done(x) || x in comp;
    forall k | 0 <= k < |t.popped| ensures Distinct(t.popped[k]) && IsScc(r, Elems(t.popped[k])) {
      if k < n { assert t.popped[k] == s.popped[k]; }
    }
    forall k, l, x | 0 <= k < l < |t.popped| && x in t.popped[k] ensures x !in t.popped[l] {
      assert t.popped[k] == s.popped[k] && s.Done(x);
      if l < n { assert t.popped[l] == s.popped[l]; }
    }
    forall x {:trigger InSome(t.popped, x)} | t.Done(x) ensures InSome(t.popped, x) {
      if x in comp {
        assert t.popped[n] == comp;
      } else {
        assert InSome(s.popped, x);
        var k :| 0 <= k < n && x in s.popped[k];
        assert t.popped[k] == s.popped[k];
      }
    }
  }

  // cs consists of different strongly connected components, which cover the nodes.
  ghost predicate Partition(r: Rel, nodes: set<Id>, cs: seq<seq<Id>>) {
    && (forall k :: 0 <= k < |cs| ==> Distinct(cs[k]) && IsScc(r, Elems(cs[k])))
    && (forall k, l, x :: 0 <= k < l < |cs| && x in cs[k] ==> x !in cs[l])
    && (forall x {:trigger InSome(cs, x)} :: x in nodes ==> InSome(cs, x))
  }

  // What the search reports: every component, or those with at least two nodes.
  ghost function Report(popped: seq<seq<Id>>, keepTrivial: bool): (out: seq<seq<Id>>) {
    if popped == [] then []
    else
      var n := |popped| - 1;
      Report(popped[..n], keepTrivial) + (if keepTrivial || |popped[n]| > 1 then [popped[n]] else [])
  }

  // The nodes from position n to the top of the stack, in popping order.
  ghost function Segment(stack: seq<Id>, n: nat): (c: seq<Id>)
    requires n <= |stack|
    ensures |c| == |stack| - n
    ensures forall i :: 0 <= i < |c| ==> c[i] == stack[|stack| - 1 - i]
  {
    seq(|stack| - n, i requires 0 <= i < |stack| - n => stack[|stack| - 1 - i])
  }

  lemma SegmentElems(stack: seq<Id>, n: nat)
    requires n <= |stack| && Distinct(stack)
    ensures Distinct(Segment(stack, n))
    ensures Elems(Segment(stack, n)) == Elems(stack) - Elems(stack[..n])
  {
    var seg := Segment(stack, n);
    forall x | x in stack && x !in stack[..n] ensures x in seg {
      var j :| 0 <= j < |stack| && stack[j] == x;
      assert n <= j;
      assert seg[|stack| - 1 - j] == x;
    }
    forall x | x in seg ensures x in stack && x !in stack[..n] {
      var i :| 0 <= i < |seg| && seg[i] == x;
      assert stack[|stack| - 1 - i] == x;
    }
  }

  lemma FrontOfDistinct(st: seq<Id>, m: nat)
    requires Distinct(st) && 0 < m <= |st|
    ensures forall x :: x in st[..m - 1] <==> x in st[..m] && x != st[m - 1]
  {
    assert st[..m] == st[..m - 1] + [st[m - 1]];
    forall i | 0 <= i < m - 1 ensures st[i] != st[m - 1] { }
  }

  // One more node popped, at position m.
  lemma SegmentPop(st: seq<Id>, m: nat)
    requires m < |st|
    ensures Segment(st, m) == Segment(st, m + 1) + [st[m]]
  {
  }

  lemma SegmentEmpty(st: seq<Id>)
    ensures Segment(st, |st|) == []
  {
  }

  lemma NoRepeat(st: seq<Id>, m: nat, n: nat)
    requires Distinct(st) && m < |st| && n < |st| && st[m] == st[n]
    ensures m == n
  {
  }

  function Arrange(comp: seq<Id>, sorted: bool): seq<Id> {
    if sorted then SortIds(comp) else comp
  }

  lemma ArrangeKeeps(comp: seq<Id>, sorted: bool)
    requires Distinct(comp)
    ensures Distinct(Arrange(comp, sorted)) && Elems(Arrange(comp, sorted)) == Elems(comp)
    ensures sorted ==> Ascending(Arrange(comp, sorted))
  {
    SameElems(comp, SortIds(comp));
  }

  /** One run of the search: the captured variables of the closure strongconnect. */
  class SccSearch {
    const adj: Adjacency
    const keepTrivial: bool  // tarjanSCC reports single nodes, cycles does not
    const sortMembers: bool  // cycles sorts each component, tarjanSCC does not
    ghost const r: Rel
    ghost const verts: set<Id>
    var index: map<Id, int>
    var low: map<Id, int>
    var onStack: map<Id, bool>
    var stack: seq<Id>
    var counter: int
    var sccs: seq<seq<Id>>
    ghost var popped: seq<seq<Id>>

    ghost function Snapshot(): Search
      reads this
    {
      Search(index, low, Elems(stack), counter, popped)
    }

    ghost predicate Valid()
      reads this
    {
      && Represents(adj, r, verts)
      && index.Keys <= verts
      && (forall x :: x in stack <==> x in onStack && onStack[x])
      && (forall x :: x in stack ==> x in index)
      && (forall i, j :: 0 <= i < j < |stack| ==> index[stack[i]] < index[stack[j]])
      && sccs == Report(popped, keepTrivial)
      && (sortMembers ==> forall c :: c in popped ==> Ascending(c))
    }

    constructor (adj: Adjacency, keepTrivial: bool, sortMembers: bool, ghost r: Rel, ghost verts: set<Id>)
      requires Represents(adj, r, verts)
      ensures Valid() && Wf(r, Snapshot(), {})
      ensures this.adj == adj && this.r == r && this.verts == verts
      ensures this.keepTrivial == keepTrivial && this.sortMembers == sortMembers
      ensures index == map[] && popped == [] && stack == []
    {
      this.adj, this.keepTrivial, this.sortMembers, this.r, this.verts := adj, keepTrivial, sortMembers, r, verts;
      index, low, onStack, stack, counter, sccs := map[], map[], map[], [], 0, [];
      popped := [];
    }

    method Push(v: Id)
      requires Valid() && v in verts && Numbered(Snapshot()) && v !in index
      modifies this
      ensures Valid() && Snapshot() == Enter(old(Snapshot()), v) && stack == old(stack) + [v]
    {
      index := index[v := counter];
      low := low[v := counter];
      counter := counter + 1;
      stack := stack + [v];
      onStack := onStack[v := true];
      assert forall x :: x in stack <==> x in old(stack) || x == v;
      assert Elems(stack) == old(Snapshot()).open + {v};
      forall i, j | 0 <= i < j < |stack| ensures index[stack[i]] < index[stack[j]] {
        assert stack[i] == old(stack)[i] && old(stack)[i] in old(stack) && stack[i] in old(Snapshot()).open;
      }
    }

    // if k < low[v] { low[v] = k }
    method LowerTo(v: Id, k: int)
      requires Valid() && v in low
      modifies this`low
      ensures Valid() && Snapshot() == SetLow(old(Snapshot()), v, Min(old(low[v]), k))
    {
      if k < low[v] {
        low := low[v := k];
      }
    }

    lemma OnStackIsOpen(w: Id)
      requires Valid()
      ensures w in onStack && onStack[w] <==> w in Snapshot().open
    {
    }

    lemma SuccIsArc(v: Id, w: Id)
      requires Valid() && w in Succ(adj, v)
      ensures Arc(v, w) in r && w in verts
    {
      assert Arc(v, w) in r;
    }

    lemma SuccIsComplete(v: Id)
      requires Valid()
      ensures forall e :: e in r && e.src == v ==> e.dst in Elems(Succ(adj, v))
    {
      forall e | e in r && e.src == v ensures e.dst in Succ(adj, v) { assert Arc(v, e.dst) in r; }
    }

    // The stack below v is as it was, and v lies on it.
    ghost predicate Rests(below: seq<Id>, v: Id)
      reads this`stack
    {
      |below| < |stack| && stack[..|below|] == below && stack[|below|] == v
    }

    // The recursive closure. gray is the call stack below v.
    method StrongConnect(v: Id, ghost gray: set<Id>)
      requires Valid() && v in verts && CanEnter(r, Snapshot(), gray, v)
      modifies this
      ensures Valid() && Finished(r, old(Snapshot()), gray, v, Snapshot())
      ensures old(stack) <= stack
      decreases verts - index.Keys
    {
      hide Wf, Finished, Scanning, Reach, Valid, Extends, Numbered, Linked, HasGray, Represents, Report, Rests;
      ghost var s0 := Snapshot();
      ghost var below := stack;
      WfNumbered(r, s0, gray);
      EnterScans(r, s0, gray, v);
      Push(v);
      OnTop(stack, below, v);
      var ws := Succ(adj, v);
      assert Elems(ws[..0]) == {};
      for i := 0 to |ws|
        invariant Valid() && Scanning(r, s0, gray, v, Snapshot(), Elems(ws[..i]))
        invariant Rests(below, v)
      {
        var w := ws[i];
        ghost var s := Snapshot();
        assert Elems(ws[..i + 1]) == Elems(ws[..i]) + {w};
        SuccIsArc(v, w);
        ScanningFacts(r, s0, gray, v, s, Elems(ws[..i]));
        if w !in index {
          CanEnterSucc(r, s0, gray, v, s, Elems(ws[..i]), w);
          ghost var st := stack;
          RestsMeans(below, v);
          StrongConnect(w, gray + {v});
          StillRests(st, below, v);
          FinishedFacts(r, s, gray + {v}, w, Snapshot());
          AfterCall(r, s0, gray, v, s, Elems(ws[..i]), w, Snapshot());
          LowerTo(v, low[w]);
        } else {
          AfterSeen(r, s0, gray, v, s, Elems(ws[..i]), w);
          OnStackIsOpen(w);
          if w in onStack && onStack[w] {
            LowerTo(v, index[w]);
          }
        }
      }
      assert ws[..|ws|] == ws;
      SuccIsComplete(v);
      ScanningFacts(r, s0, gray, v, Snapshot(), Elems(ws));
      RestsMeans(below, v);
      if low[v] == index[v] {
        ghost var s := Snapshot();
        var comp := PopComponent(v, |below|);
        assert stack == below;
        FinishPop(r, s0, gray, v, s, Elems(ws), comp);
      } else {
        FinishKeep(r, s0, gray, v, Snapshot(), Elems(ws));
      }
    }

    lemma OnTop(st: seq<Id>, below: seq<Id>, v: Id)
      requires st == stack == below + [v]
      ensures Rests(below, v)
    {
    }

    lemma StillRests(st: seq<Id>, below: seq<Id>, v: Id)
      requires |below| < |st| && st[..|below|] == below && st[|below|] == v && st <= stack
      ensures Rests(below, v)
    {
      assert stack[..|below|] == st[..|below|];
    }

    lemma RestsMeans(below: seq<Id>, v: Id)
      requires Rests(below, v)
      ensures |below| < |stack| && stack[..|below|] == below && stack[|below|] == v && below <= stack
    {
    }

    lemma StackDistinct()
      requires Valid()
      ensures Distinct(stack)
    {
    }

    // What is left of the stack st is its front, and the rest has been popped.
    ghost predicate Popping(st: seq<Id>, n: nat, comp: seq<Id>)
      reads this
    {
      && n <= |stack| <= |st| && stack == st[..|stack|] && comp == Segment(st, |stack|)
      && forall x :: x in stack <==> x in onStack && onStack[x]
    }

    // All of Valid but the entries of onStack, for the stack st.
    ghost predicate Listed(st: seq<Id>)
      reads this`index, this`sccs, this`popped
    {
      && Represents(adj, r, verts)
      && index.Keys <= verts
      && (forall x :: x in st ==> x in index)
      && (forall i, j :: 0 <= i < j < |st| ==> index[st[i]] < index[st[j]])
      && sccs == Report(popped, keepTrivial)
      && (sortMembers ==> forall c :: c in popped ==> Ascending(c))
    }

    lemma PoppingStarts(n: nat)
      requires Valid() && n < |stack|
      ensures Listed(stack) && Popping(stack, n, []) && Distinct(stack)
    {
      hide Report, Ascending, Represents, Segment;
      SegmentEmpty(stack);
    }

    lemma PoppingEnds(st: seq<Id>, n: nat, comp: seq<Id>)
      requires Listed(st) && Popping(st, n, comp) && Distinct(st)
      requires n < |st| && |stack| < |st| && st[|stack|] == st[n]
      ensures Valid() && stack == st[..n] && comp == Segment(st, n)
    {
      hide Report, Ascending, Represents, Segment;
      NoRepeat(st, |stack|, n);
    }

    method Pop(ghost st: seq<Id>, ghost n: nat, comp: seq<Id>) returns (w: Id, more: seq<Id>)
      requires Popping(st, n, comp) && Distinct(st) && n < |stack|
      modifies this`stack, this`onStack
      ensures Popping(st, n, more) && |stack| == |old(stack)| - 1 && w == st[|stack|] == old(stack)[|stack|]
    {
      hide Segment, Distinct;
      w := stack[|stack| - 1];
      FrontOfDistinct(st, |stack|);
      SegmentPop(st, |stack| - 1);
      stack := stack[..|stack| - 1];
      onStack := onStack[w := false];
      more := comp + [w];
    }

    // The pop loop: takes everything down to and including v.
    method PopDown(v: Id, ghost n: nat) returns (comp: seq<Id>)
      requires Valid() && n < |stack| && stack[n] == v
      modifies this`stack, this`onStack
      ensures Valid() && stack == old(stack)[..n] && comp == Segment(old(stack), n)
    {
      hide Valid, Listed, Popping, Segment, Distinct;
      comp := [];
      ghost var st := stack;
      PoppingStarts(n);
      while true
        invariant n < |stack| <= |st| && Popping(st, n, comp)
        decreases |stack|
      {
        var w;
        w, comp := Pop(st, n, comp);
        if w == v {
          break;
        }
      }
      PoppingEnds(st, n, comp);
    }

    // Takes the component of v off the stack, and reports it.
    method PopComponent(v: Id, ghost n: nat) returns (comp: seq<Id>)
      requires Valid() && n < |stack| && stack[n] == v
      modifies this`stack, this`onStack, this`sccs, this`popped
      ensures Valid() && stack == old(stack)[..n]
      ensures Distinct(comp) && Elems(comp) == Elems(old(stack)) - Elems(stack)
      ensures popped == old(popped) + [comp]
    {
      hide Segment, Arrange, Distinct, Ascending, Represents;
      assert Distinct(stack) by { StackDistinct(); }
      SegmentElems(stack, n);
      comp := PopDown(v, n);
      ArrangeKeeps(comp, sortMembers);
      comp := Arrange(comp, sortMembers);
      popped := popped + [comp];
      assert popped[..|popped| - 1] == old(popped);
      if keepTrivial || |comp| > 1 {
        sccs := sccs + [comp];
      }
    }

    // The outer loop over all nodes.
    method Run(nodes: seq<Id>)
      requires Valid() && Wf(r, Snapshot(), {}) && Elems(nodes) <= verts
      modifies this
      ensures Valid() && Partition(r, Elems(nodes), popped)
    {
      hide Wf, Reach, HasGray, InSome, Valid;
      for i := 0 to |nodes|
        invariant Valid() && Wf(r, Snapshot(), {})
        invariant Elems(nodes[..i]) <= index.Keys
      {
        ghost var s0 := Snapshot();
        assert nodes[..i + 1] == nodes[..i] + [nodes[i]];
        if nodes[i] !in index {
          assert nodes[i] in Elems(nodes);
          StrongConnect(nodes[i], {});
          assert forall x :: x in s0.index ==> x in index;
        }
      }
      assert nodes[..|nodes|] == nodes;
      NothingLeftOpen();
    }

    lemma NothingLeftOpen()
      requires Valid() && Wf(r, Snapshot(), {})
      ensures Partition(r, index.Keys, popped)
    {
      var s := Snapshot();
      forall x | x in index.Keys ensures s.Done(x) && InSome(popped, x) {
        assert x in s.open ==> HasGray(r, s, {}, x);
      }
    }
  }
}
