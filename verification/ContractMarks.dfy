/** Contract markers and their propagation through interface embedding. */
module ContractMarks {
  import opened Order
  import opened Walks
  import opened TypedGraph

  // A configured contract that was found: its node, and whether it is an interface.
  datatype Resolved = Resolved(nodeID: Id, isIface: bool)

  const EMBEDS := "embeds"
  const TYPE := "type"
  const INTERFACE := "interface"

  ghost function Named(resolved: seq<Resolved>): set<Id> {
    set r | r in resolved :: r.nodeID
  }

  // The form recorded for a configured node: that of its first entry.
  ghost function DeclaredKind(resolved: seq<Resolved>, x: Id): string
    requires x in Named(resolved)
  {
    if resolved[0].nodeID == x then (if resolved[0].isIface then INTERFACE else TYPE)
    else DeclaredKind(resolved[1..], x)
  }

  // The contract kind a configured node has once the configuration is applied: an
  // earlier marker wins.
  ghost function KindOf(nodes: map<Id, Entry>, resolved: seq<Resolved>, x: Id): string
    requires x in Named(resolved) && x in nodes
  {
    if IsContract(nodes[x].node) then ContractKind(nodes[x].node) else DeclaredKind(resolved, x)
  }

  // An interface type without a marker of its own.
  predicate Eligible(n: Node) {
    n.kind == TYPE && !IsContract(n) && TextAttr(n, TypeKindKey) == INTERFACE
  }

  // x, once marked, hands the marker on to the interfaces that embed it.
  ghost predicate Spreads(nodes: map<Id, Entry>, resolved: seq<Resolved>, x: Id) {
    x in nodes && (x in Named(resolved) ==> KindOf(nodes, resolved, x) == INTERFACE)
  }

  // An arc from x to y: y embeds x and takes the marker over.
  ghost function Takeover(nodes: map<Id, Entry>, edges: seq<Edge>, resolved: seq<Resolved>): Rel {
    set e | e in edges && e.kind == EMBEDS && Spreads(nodes, resolved, e.dst)
            && e.src in nodes && e.src !in Named(resolved) && Eligible(nodes[e.src].node)
      :: Arc(e.dst, e.src)
  }

  // The nodes reached from a configured node of the graph.
  ghost predicate ShouldMark(nodes: map<Id, Entry>, edges: seq<Edge>, resolved: seq<Resolved>, x: Id) {
    exists o :: o in Named(resolved) && o in nodes && Reach(Takeover(nodes, edges, resolved), o, x)
  }

  // It is the least set that contains the configured nodes and is closed under takeover.
  lemma ShouldMarkIsLeast(nodes: map<Id, Entry>, edges: seq<Edge>, resolved: seq<Resolved>, s: set<Id>, x: Id)
    requires Named(resolved) * nodes.Keys <= s && Closed(Takeover(nodes, edges, resolved), s)
    requires ShouldMark(nodes, edges, resolved, x)
    ensures x in s
  {
    var o :| o in Named(resolved) && o in nodes && Reach(Takeover(nodes, edges, resolved), o, x);
    ReachClosed(Takeover(nodes, edges, resolved), s, o, x);
  }

  // ---- The invariant of the marking, from the initial nodes ns0 on ----

  ghost predicate Origins(ns0: map<Id, Entry>, edges: seq<Edge>, resolved: seq<Resolved>, originBy: map<Id, Id>) {
    && (forall x :: x in Named(resolved) ==> x in originBy && originBy[x] == x)
    && (forall x :: x in originBy ==>
          originBy[x] in Named(resolved) && OriginReaches(ns0, edges, resolved, originBy[x], x))
    && (forall x :: x in originBy && x !in Named(resolved) ==> x in ns0 && Eligible(ns0[x].node) && originBy[x] in ns0)
  }

  ghost predicate OriginReaches(ns0: map<Id, Entry>, edges: seq<Edge>, resolved: seq<Resolved>, o: Id, x: Id) {
    Reach(Takeover(ns0, edges, resolved), o, x)
  }

  // A configured node: marked, unless an earlier marker wins.
  ghost function AsConfigured(e: Entry, kind: string): Entry {
    if IsContract(e.node) then e else e.(node := Marked(e.node, kind, "config", map[]))
  }

  // A node that took the marker over, with a reference to where it comes from.
  ghost function AsTaken(e: Entry, origin: Id): Entry {
    e.(node := Marked(e.node, INTERFACE, "embedded", map[ContractEmbedsKey := NodeRef(origin)]))
  }

  lemma AsConfiguredKind(e: Entry, kind: string)
    requires kind != ""
    ensures IsContract(AsConfigured(e, kind).node)
    ensures ContractKind(AsConfigured(e, kind).node) == if IsContract(e.node) then ContractKind(e.node) else kind
  {
  }

  lemma AsTakenKind(e: Entry, origin: Id)
    ensures IsContract(AsTaken(e, origin).node) && ContractKind(AsTaken(e, origin).node) == INTERFACE
  {
  }

  // What the nodes carry: each is as it was, or as configured, or as taken over.
  ghost predicate Carried(ns0: map<Id, Entry>, ns: map<Id, Entry>, resolved: seq<Resolved>, originBy: map<Id, Id>) {
    && ns.Keys == ns0.Keys
    && (forall x :: x in ns && x !in originBy ==> ns[x] == ns0[x])
    && (forall x :: x in ns && x in Named(resolved) ==> ns[x] == AsConfigured(ns0[x], DeclaredKind(resolved, x)))
    && (forall x :: x in ns && x in originBy && x !in Named(resolved) ==> ns[x] == AsTaken(ns0[x], originBy[x]))
  }

  // In phase 1, after the first entries.
  ghost predicate Configured(ns0: map<Id, Entry>, ns: map<Id, Entry>, resolved: seq<Resolved>) {
    && ns.Keys == ns0.Keys
    && (forall x :: x in ns && x !in Named(resolved) ==> ns[x] == ns0[x])
    && (forall x :: x in ns && x in Named(resolved) ==> ns[x] == AsConfigured(ns0[x], DeclaredKind(resolved, x)))
  }

  lemma {:induction false} DeclaredSome(resolved: seq<Resolved>, x: Id)
    requires x in Named(resolved)
    ensures DeclaredKind(resolved, x) in {TYPE, INTERFACE}
  {
    if resolved[0].nodeID != x {
      NamedCons(resolved);
      DeclaredSome(resolved[1..], x);
    }
  }

  // A marked node is a contract of the kind the takeover relation assumes.
  lemma CarriedKind(ns0: map<Id, Entry>, ns: map<Id, Entry>, resolved: seq<Resolved>, originBy: map<Id, Id>, x: Id)
    requires Carried(ns0, ns, resolved, originBy) && x in ns
    requires forall y :: y in Named(resolved) ==> y in originBy
    ensures x in originBy ==> IsContract(ns[x].node)
    ensures x in Named(resolved) ==> ContractKind(ns[x].node) == KindOf(ns0, resolved, x)
    ensures x in originBy && x !in Named(resolved) ==> ContractKind(ns[x].node) == INTERFACE
  {
    hide AsConfigured, AsTaken, IsContract, ContractKind;
    if x in Named(resolved) {
      DeclaredSome(resolved, x);
      AsConfiguredKind(ns0[x], DeclaredKind(resolved, x));
    } else if x in originBy {
      AsTakenKind(ns0[x], originBy[x]);
    }
  }

  lemma {:induction false} DeclaredSnoc(resolved: seq<Resolved>, r: Resolved, x: Id)
    requires x in Named(resolved + [r])
    ensures x in Named(resolved) ==> DeclaredKind(resolved + [r], x) == DeclaredKind(resolved, x)
    ensures x !in Named(resolved) ==>
              x == r.nodeID && DeclaredKind(resolved + [r], x) == if r.isIface then INTERFACE else TYPE
  {
    var all := resolved + [r];
    NamedSnoc(resolved, r);
    if resolved != [] {
      assert all[1..] == resolved[1..] + [r];
      assert resolved == [resolved[0]] + resolved[1..];
      if resolved[0].nodeID != x {
        assert x in Named(all[1..]);
        DeclaredSnoc(resolved[1..], r, x);
        NamedCons(resolved);
      }
    }
  }

  lemma NamedSnoc(resolved: seq<Resolved>, r: Resolved)
    ensures Named(resolved + [r]) == Named(resolved) + {r.nodeID}
  {
  }

  lemma NamedCons(resolved: seq<Resolved>)
    requires resolved != []
    ensures Named(resolved) == {resolved[0].nodeID} + Named(resolved[1..])
  {
    assert resolved == [resolved[0]] + resolved[1..];
  }

  ghost function WithConfigured(ns: map<Id, Entry>, x: Id, kind: string): map<Id, Entry> {
    if x in ns then ns[x := AsConfigured(ns[x], kind)] else ns
  }

  lemma ConfigureMore(ns0: map<Id, Entry>, ns: map<Id, Entry>, resolved: seq<Resolved>, r: Resolved)
    requires Configured(ns0, ns, resolved)
    ensures Configured(ns0, WithConfigured(ns, r.nodeID, if r.isIface then INTERFACE else TYPE), resolved + [r])
  {
    hide AsConfigured, IsContract, DeclaredKind, Named;
    NamedSnoc(resolved, r);
    var ns' := WithConfigured(ns, r.nodeID, if r.isIface then INTERFACE else TYPE);
    forall x | x in ns' && x in Named(resolved + [r])
      ensures ns'[x] == AsConfigured(ns0[x], DeclaredKind(resolved + [r], x))
    {
      DeclaredSnoc(resolved, r, x);
      if x in Named(resolved) {
        DeclaredSome(resolved, x);
        AsConfiguredTwice(ns0[x], DeclaredKind(resolved, x), if r.isIface then INTERFACE else TYPE);
      }
    }
  }

  lemma AsConfiguredTwice(e: Entry, kind: string, later: string)
    requires kind != ""
    ensures AsConfigured(AsConfigured(e, kind), later) == AsConfigured(e, kind)
  {
    AsConfiguredKind(e, kind);
  }

  // Marking the embedder y of x.
  lemma TakeOver(ns0: map<Id, Entry>, ns: map<Id, Entry>, edges: seq<Edge>, resolved: seq<Resolved>,
                 originBy: map<Id, Id>, x: Id, y: Id)
    requires Origins(ns0, edges, resolved, originBy) && Carried(ns0, ns, resolved, originBy)
    requires x in originBy && x in ns && y in ns && Arc(x, y) in Takeover(ns0, edges, resolved)
    requires !IsContract(ns[y].node)
    ensures Origins(ns0, edges, resolved, originBy[y := originBy[x]])
    ensures Carried(ns0, ns[y := AsTaken(ns[y], originBy[x])], resolved, originBy[y := originBy[x]])
  {
    hide IsContract, AsConfigured, AsTaken;
    var r := Takeover(ns0, edges, resolved);
    CarriedKind(ns0, ns, resolved, originBy, y);
    assert y !in originBy;
    ReachEdge(r, x, y);
    ReachTrans(r, originBy[x], x, y);
    assert OriginReaches(ns0, edges, resolved, originBy[x], y);
  }

  // Which embedders of a marked x the loop takes over, in terms of the initial nodes.
  lemma TestsAgree(ns0: map<Id, Entry>, ns: map<Id, Entry>, edges: seq<Edge>, resolved: seq<Resolved>,
                   originBy: map<Id, Id>, x: Id, y: Id)
    requires Origins(ns0, edges, resolved, originBy) && Carried(ns0, ns, resolved, originBy)
    requires x in originBy && x in ns && y in ns
    requires exists e :: e in edges && e.kind == EMBEDS && e.dst == x && e.src == y
    ensures ContractKind(ns[x].node) == INTERFACE <==> Spreads(ns0, resolved, x)
    ensures ContractKind(ns[x].node) == INTERFACE && Eligible(ns[y].node) ==>
              Arc(x, y) in Takeover(ns0, edges, resolved) && y !in originBy
    ensures Arc(x, y) in Takeover(ns0, edges, resolved) ==>
              ContractKind(ns[x].node) == INTERFACE && !Eligible(ns[y].node) ==> y in originBy
  {
    hide IsContract, ContractKind, AsConfigured, AsTaken, KindOf;
    CarriedKind(ns0, ns, resolved, originBy, x);
    CarriedKind(ns0, ns, resolved, originBy, y);
  }

  // A marked node whose kind is not interface hands nothing on.
  lemma MarkedSpreads(ns0: map<Id, Entry>, ns: map<Id, Entry>, edges: seq<Edge>, resolved: seq<Resolved>,
                      originBy: map<Id, Id>, x: Id)
    requires Origins(ns0, edges, resolved, originBy) && Carried(ns0, ns, resolved, originBy)
    requires x in originBy && x in ns && ContractKind(ns[x].node) != INTERFACE
    ensures forall a :: a in Takeover(ns0, edges, resolved) ==> a.src != x
  {
    forall a | a in Takeover(ns0, edges, resolved) ensures a.src != x {
      if a.src == x { TestsAgree(ns0, ns, edges, resolved, originBy, x, a.dst); }
    }
  }

  lemma TakeoverFacts(ns0: map<Id, Entry>, edges: seq<Edge>, resolved: seq<Resolved>)
    ensures forall a :: a in Takeover(ns0, edges, resolved) ==>
              && a.src in ns0 && a.dst in ns0
              && exists e :: e in edges && e.kind == EMBEDS && e.dst == a.src && e.src == a.dst
  {
  }

  lemma EmbedderKnown(g: Graph, x: Id, y: Id)
    requires g.Valid() && exists e :: e in g.edges && Meets(e, x, In, EMBEDS) && OtherEnd(e, x, In) == y
    ensures y in g.nodes && exists e :: e in g.edges && e.kind == EMBEDS && e.dst == x && e.src == y
  {
    var e :| e in g.edges && Meets(e, x, In, EMBEDS) && OtherEnd(e, x, In) == y;
  }

  lemma EmbedderListed(g: Graph, x: Id, y: Id)
    requires exists e :: e in g.edges && e.kind == EMBEDS && e.dst == x && e.src == y
    ensures exists e :: e in g.edges && Meets(e, x, In, EMBEDS) && OtherEnd(e, x, In) == y
  {
    var e :| e in g.edges && e.kind == EMBEDS && e.dst == x && e.src == y;
    assert Meets(e, x, In, EMBEDS) && OtherEnd(e, x, In) == y;
  }

  lemma EligibleUnmarked(n: Node)
    requires Eligible(n)
    ensures !IsContract(n)
  {
  }

  /** Marks the configured nodes, then repeats passes over the marked nodes until a pass
      adds nothing. A pass visits the keys of originBy in any order; keys added during
      the pass may or may not be visited by it. */
  method Mark(g: Graph, resolved: seq<Resolved>) returns (out: seq<Id>, originBy: map<Id, Id>)
    requires g.Valid()
    modifies g`nodes
    ensures g.Valid() && g.Ids() == old(g.Ids())
    ensures forall x :: x in g.nodes ==> (x in originBy <==> ShouldMark(old(g.nodes), g.edges, resolved, x))
    ensures out == Restrict(g.Ids(), originBy.Keys)
    ensures Origins(old(g.nodes), g.edges, resolved, originBy)
    ensures Carried(old(g.nodes), g.nodes, resolved, originBy)
  {
    hide Origins, Carried, ShouldMark, Takeover, Restrict, Named, Closed;
    originBy := Configure(g, resolved);
    ghost var ns0 := old(g.nodes);
    ghost var bound := ns0.Keys + Named(resolved);
    OriginsBounded(ns0, g.edges, resolved, originBy);
    while true
      invariant g.Valid() && g.Ids() == old(g.Ids()) && g.nodes.Keys == ns0.Keys
      invariant Origins(ns0, g.edges, resolved, originBy) && Carried(ns0, g.nodes, resolved, originBy)
      invariant originBy.Keys <= bound
      decreases bound - originBy.Keys
    {
      ghost var before := originBy.Keys;
      var added;
      originBy, added := Pass(g, resolved, ns0, originBy);
      OriginsBounded(ns0, g.edges, resolved, originBy);
      if added == 0 {
        break;
      }
    }
    MarkedIsLeast(ns0, g.edges, resolved, originBy);
    out := MarkedIds(g, originBy.Keys);
  }

  // The marked ids in insertion order.
  method MarkedIds(g: Graph, marked: set<Id>) returns (out: seq<Id>)
    requires g.Valid()
    ensures out == Restrict(g.Ids(), marked)
  {
    var all := g.Nodes();
    out := [];
    for i := 0 to |all|
      invariant out == Restrict(g.Ids()[..i], marked)
    {
      assert g.Ids()[..i + 1][..i] == g.Ids()[..i];
      if all[i].id in marked {
        out := out + [all[i].id];
      }
    }
    assert g.Ids()[..|all|] == g.Ids();
  }

  ghost function Restrict(ids: seq<Id>, s: set<Id>): seq<Id> {
    if ids == [] then []
    else
      var n := |ids| - 1;
      Restrict(ids[..n], s) + (if ids[n] in s then [ids[n]] else [])
  }

  lemma OriginsBounded(ns0: map<Id, Entry>, edges: seq<Edge>, resolved: seq<Resolved>, originBy: map<Id, Id>)
    requires Origins(ns0, edges, resolved, originBy)
    ensures originBy.Keys <= ns0.Keys + Named(resolved)
  {
    forall x | x in originBy ensures x in ns0.Keys + Named(resolved) { }
  }

  lemma MarkedIsLeast(ns0: map<Id, Entry>, edges: seq<Edge>, resolved: seq<Resolved>, originBy: map<Id, Id>)
    requires Origins(ns0, edges, resolved, originBy) && Closed(Takeover(ns0, edges, resolved), originBy.Keys)
    ensures forall x :: x in ns0 ==> (x in originBy <==> ShouldMark(ns0, edges, resolved, x))
  {
    forall x | x in ns0 ensures x in originBy <==> ShouldMark(ns0, edges, resolved, x) {
      MarkedIffReached(ns0, edges, resolved, originBy, x);
    }
  }

  lemma MarkedIffReached(ns0: map<Id, Entry>, edges: seq<Edge>, resolved: seq<Resolved>, originBy: map<Id, Id>, x: Id)
    requires Origins(ns0, edges, resolved, originBy) && x in ns0
    requires Closed(Takeover(ns0, edges, resolved), originBy.Keys)
    ensures x in originBy <==> ShouldMark(ns0, edges, resolved, x)
  {
    if ShouldMark(ns0, edges, resolved, x) { ShouldMarkIsLeast(ns0, edges, resolved, originBy.Keys, x); }
    if x in originBy {
      var o := if x in Named(resolved) then x else originBy[x];
      ReachRefl(Takeover(ns0, edges, resolved), x);
      assert OriginReaches(ns0, edges, resolved, originBy[x], x);
      assert o in ns0 && Reach(Takeover(ns0, edges, resolved), o, x);
    }
  }

  // Phase 1.
  method Configure(g: Graph, resolved: seq<Resolved>) returns (originBy: map<Id, Id>)
    requires g.Valid()
    modifies g`nodes
    ensures g.Valid() && g.Ids() == old(g.Ids()) && g.nodes.Keys == old(g.nodes).Keys
    ensures Origins(old(g.nodes), g.edges, resolved, originBy)
    ensures Carried(old(g.nodes), g.nodes, resolved, originBy)
  {
    hide Graph.Valid, Graph.Ids, Graph.NodeList, Configured, Origins, Carried, Named, IsContract, Marked;
    originBy := map[];
    ghost var ns0 := g.nodes;
    NothingConfigured(ns0);
    assert resolved[..0] == [];
    for i := 0 to |resolved|
      invariant g.Valid() && g.Ids() == old(g.Ids()) && Configured(ns0, g.nodes, resolved[..i])
      invariant originBy.Keys == Named(resolved[..i]) && forall x :: x in originBy ==> originBy[x] == x
    {
      var r := resolved[i];
      assert resolved[..i + 1] == resolved[..i] + [r];
      var kind := TYPE;
      if r.isIface { kind := INTERFACE; }
      MarkConfigured(g.nodes, r.nodeID, kind);
      ConfigureMore(ns0, g.nodes, resolved[..i], r);
      NamedSnoc(resolved[..i], r);
      var _ := g.MarkContract(r.nodeID, kind, "config", map[]);
      originBy := originBy[r.nodeID := r.nodeID];
    }
    assert resolved[..|resolved|] == resolved;
    ConfigureEnds(ns0, g.nodes, g.edges, resolved, originBy);
  }

  lemma NothingConfigured(ns0: map<Id, Entry>)
    ensures Configured(ns0, ns0, []) && Named([]) == {}
  {
  }

  // What MarkContract does to the nodes when the configuration asks for it.
  lemma MarkConfigured(ns: map<Id, Entry>, x: Id, kind: string)
    ensures WithConfigured(ns, x, kind) ==
            if x in ns && !IsContract(ns[x].node)
            then ns[x := ns[x].(node := Marked(ns[x].node, kind, "config", map[]))]
            else ns
  {
    hide IsContract, Marked;
  }

  lemma ConfigureEnds(ns0: map<Id, Entry>, ns: map<Id, Entry>, edges: seq<Edge>, resolved: seq<Resolved>,
                      originBy: map<Id, Id>)
    requires Configured(ns0, ns, resolved)
    requires originBy.Keys == Named(resolved) && forall x :: x in originBy ==> originBy[x] == x
    ensures Origins(ns0, edges, resolved, originBy) && Carried(ns0, ns, resolved, originBy)
    ensures ns.Keys == ns0.Keys
  {
    hide Named, AsConfigured, AsTaken, DeclaredKind, Takeover;
    forall x | x in originBy ensures OriginReaches(ns0, edges, resolved, originBy[x], x) {
      ReachRefl(Takeover(ns0, edges, resolved), x);
    }
  }

  lemma SomeLeft(a: set<Id>, b: set<Id>, visited: set<Id>)
    requires a <= b && !(a <= visited && b <= visited)
    ensures b - visited != {}
  {
    if b - visited == {} {
      forall x | x in b ensures x in visited { assert x !in b - visited; }
    }
  }

  // One pass of phase 2.
  method Pass(g: Graph, resolved: seq<Resolved>, ghost ns0: map<Id, Entry>, originBy0: map<Id, Id>)
    returns (originBy: map<Id, Id>, added: nat)
    requires g.Valid() && g.nodes.Keys == ns0.Keys
    requires Origins(ns0, g.edges, resolved, originBy0) && Carried(ns0, g.nodes, resolved, originBy0)
    modifies g`nodes
    ensures g.Valid() && g.Ids() == old(g.Ids()) && g.nodes.Keys == ns0.Keys
    ensures Origins(ns0, g.edges, resolved, originBy) && Carried(ns0, g.nodes, resolved, originBy)
    ensures originBy0.Keys <= originBy.Keys && (added > 0 ==> originBy0.Keys < originBy.Keys)
    ensures added == 0 ==> Closed(Takeover(ns0, g.edges, resolved), originBy.Keys)
  {
    hide Graph.Valid, Graph.Ids, Graph.NodeList;
    hide Origins, Carried, Takeover, Named;
    ghost var r := Takeover(ns0, g.edges, resolved);
    ghost var bound := ns0.Keys + Named(resolved);
    originBy, added := originBy0, 0;
    var visited: set<Id> := {};
    OriginsBounded(ns0, g.edges, resolved, originBy);
    while true
      invariant g.Valid() && g.Ids() == old(g.Ids()) && g.nodes.Keys == ns0.Keys
      invariant Origins(ns0, g.edges, resolved, originBy) && Carried(ns0, g.nodes, resolved, originBy)
      invariant originBy0.Keys <= originBy.Keys <= bound && visited <= originBy.Keys
      invariant if added == 0 then originBy.Keys == originBy0.Keys else originBy0.Keys < originBy.Keys
      invariant forall a :: a in r && a.src in visited ==> a.dst in originBy
      decreases bound - visited
    {
      if originBy0.Keys <= visited {
        if originBy.Keys <= visited { break; }
        if * { break; }
      }
      var todo := originBy.Keys - visited;
      assert todo != {} by { SomeLeft(originBy0.Keys, originBy.Keys, visited); }
      ghost var some: Id := Pick(todo);
      assert some in todo;
      var nodeID :| nodeID in todo;
      var more;
      originBy, more := Visit(g, resolved, ns0, originBy, nodeID);
      OriginsBounded(ns0, g.edges, resolved, originBy);
      added := added + more;
      visited := visited + {nodeID};
    }
  }

  // The body of the inner loop: offers the marker of nodeID to its embedder y.
  method Offer(g: Graph, resolved: seq<Resolved>, ghost ns0: map<Id, Entry>, originBy0: map<Id, Id>, nodeID: Id, y: Id)
    returns (originBy: map<Id, Id>, added: nat)
    requires g.Valid() && nodeID in originBy0 && nodeID in g.nodes && y in g.nodes
    requires Origins(ns0, g.edges, resolved, originBy0) && Carried(ns0, g.nodes, resolved, originBy0)
    requires ContractKind(g.nodes[nodeID].node) == INTERFACE
    requires exists e :: e in g.edges && e.kind == EMBEDS && e.dst == nodeID && e.src == y
    modifies g`nodes
    ensures g.Valid() && g.Ids() == old(g.Ids()) && g.nodes.Keys == old(g.nodes).Keys
    ensures Origins(ns0, g.edges, resolved, originBy) && Carried(ns0, g.nodes, resolved, originBy)
    ensures if added == 0 then originBy == originBy0 else originBy0.Keys < originBy.Keys
    ensures nodeID in originBy && originBy[nodeID] == originBy0[nodeID] && g.nodes[nodeID] == old(g.nodes)[nodeID]
    ensures Arc(nodeID, y) in Takeover(ns0, g.edges, resolved) ==> y in originBy
  {
    hide Graph.Valid, Graph.Ids, Graph.NodeList, DeclaredKind;
    hide Origins, Carried, Takeover, KindOf, Named, Eligible, Spreads, ContractKind, Marked, IsContract;
    originBy, added := originBy0, 0;
    TestsAgree(ns0, g.nodes, g.edges, resolved, originBy, nodeID, y);
    if !Eligible(g.nodes[y].node) { return; }
    EligibleUnmarked(g.nodes[y].node);
    TakeOver(ns0, g.nodes, g.edges, resolved, originBy, nodeID, y);
    var marked := g.MarkContract(y, INTERFACE, "embedded", map[ContractEmbedsKey := NodeRef(originBy[nodeID])]);
    if marked {
      originBy := originBy[y := originBy[nodeID]];
      assert y !in originBy0 && originBy.Keys == originBy0.Keys + {y};
      added := 1;
    }
  }

  // The body of the pass for one marked node.
  method Visit(g: Graph, resolved: seq<Resolved>, ghost ns0: map<Id, Entry>, originBy0: map<Id, Id>, nodeID: Id)
    returns (originBy: map<Id, Id>, added: nat)
    requires g.Valid() && g.nodes.Keys == ns0.Keys && nodeID in originBy0
    requires Origins(ns0, g.edges, resolved, originBy0) && Carried(ns0, g.nodes, resolved, originBy0)
    modifies g`nodes
    ensures g.Valid() && g.Ids() == old(g.Ids()) && g.nodes.Keys == ns0.Keys
    ensures Origins(ns0, g.edges, resolved, originBy) && Carried(ns0, g.nodes, resolved, originBy)
    ensures if added == 0 then originBy.Keys == originBy0.Keys else originBy0.Keys < originBy.Keys
    ensures forall a :: a in Takeover(ns0, g.edges, resolved) && a.src == nodeID ==> a.dst in originBy
  {
    hide Graph.Valid, Graph.Ids, Graph.NodeList;
    hide Origins, Carried, Takeover, KindOf, Named, Eligible, Spreads, ContractKind, Marked, IsContract, Meets;
    hide OtherEnd;
    ghost var r := Takeover(ns0, g.edges, resolved);
    originBy, added := originBy0, 0;
    TakeoverFacts(ns0, g.edges, resolved);
    if nodeID !in g.nodes { return; }
    if ContractKind(g.nodes[nodeID].node) != INTERFACE {
      MarkedSpreads(ns0, g.nodes, g.edges, resolved, originBy, nodeID);
      return;
    }
    var embedders := g.Neighbors(nodeID, In, EMBEDS);
    for i := 0 to |embedders|
      invariant g.Valid() && g.Ids() == old(g.Ids()) && g.nodes.Keys == ns0.Keys
      invariant nodeID in originBy && originBy0.Keys <= originBy.Keys
      invariant Origins(ns0, g.edges, resolved, originBy) && Carried(ns0, g.nodes, resolved, originBy)
      invariant if added == 0 then originBy.Keys == originBy0.Keys else originBy0.Keys < originBy.Keys
      invariant ContractKind(g.nodes[nodeID].node) == INTERFACE
      invariant forall k :: 0 <= k < i && Arc(nodeID, embedders[k]) in r ==> embedders[k] in originBy
    {
      var y := embedders[i];
      assert y in embedders;
      EmbedderKnown(g, nodeID, y);
      var more;
      originBy, more := Offer(g, resolved, ns0, originBy, nodeID, y);
      added := added + more;
    }
    forall a | a in r && a.src == nodeID ensures a.dst in originBy {
      EmbedderListed(g, nodeID, a.dst);
      assert a.dst in embedders && a == Arc(nodeID, a.dst);
    }
  }

  // ---- What the nodes say after the marking ----

  predicate Carries(n: Node, key: AttrKey, v: Value) { key in n.attrs && n.attrs[key] == v }

  // The same attributes but for the listed ones, and the same everything else.
  ghost predicate SameBut(e0: Entry, e: Entry, keys: set<AttrKey>) {
    && e.gid == e0.gid && e == e0.(node := e0.node.(attrs := e.node.attrs))
    && forall k :: k !in keys ==>
         (k in e.node.attrs <==> k in e0.node.attrs) && (k in e0.node.attrs ==> e.node.attrs[k] == e0.node.attrs[k])
  }

  lemma {:induction false} DeclaredBy(resolved: seq<Resolved>, x: Id) returns (i: nat)
    requires x in Named(resolved)
    ensures i < |resolved| && resolved[i].nodeID == x && forall j :: 0 <= j < i ==> resolved[j].nodeID != x
    ensures DeclaredKind(resolved, x) == if resolved[i].isIface then "interface" else "type"
  {
    if resolved[0].nodeID == x {
      i := 0;
    } else {
      NamedCons(resolved);
      i := DeclaredBy(resolved[1..], x);
      i := i + 1;
      forall j | 0 <= j < i ensures resolved[j].nodeID != x { assert j > 0 ==> resolved[j] == resolved[1..][j - 1]; }
    }
  }

  // A configured node without an earlier marker says that it was configured, and in which
  // form its first entry declares it.
  lemma ConfiguredCarries(ns0: map<Id, Entry>, ns: map<Id, Entry>, resolved: seq<Resolved>, originBy: map<Id, Id>,
                          x: Id)
    returns (i: nat)
    requires Carried(ns0, ns, resolved, originBy) && x in ns0 && x in Named(resolved)
    ensures i < |resolved| && resolved[i].nodeID == x && forall j :: 0 <= j < i ==> resolved[j].nodeID != x
    ensures Carries(ns0[x].node, IsContractKey, Flag(true)) ==> ns[x] == ns0[x]
    ensures !Carries(ns0[x].node, IsContractKey, Flag(true)) ==>
              && Carries(ns[x].node, IsContractKey, Flag(true))
              && Carries(ns[x].node, ContractSourceKey, Text("config"))
              && Carries(ns[x].node, ContractKindKey, Text(if resolved[i].isIface then "interface" else "type"))
              && SameBut(ns0[x], ns[x], {IsContractKey, ContractSourceKey, ContractKindKey})
  {
    i := DeclaredBy(resolved, x);
  }

  // A node that took the marker over says so, and refers to the configured node that it
  // comes from.
  lemma TakenCarries(ns0: map<Id, Entry>, ns: map<Id, Entry>, edges: seq<Edge>, resolved: seq<Resolved>,
                     originBy: map<Id, Id>, x: Id) returns (o: Id)
    requires Origins(ns0, edges, resolved, originBy) && Carried(ns0, ns, resolved, originBy)
    requires x in ns0 && x in originBy && x !in Named(resolved)
    ensures o in Named(resolved) && o in ns0 && Reach(Takeover(ns0, edges, resolved), o, x)
    ensures Carries(ns[x].node, IsContractKey, Flag(true)) && Carries(ns[x].node, ContractSourceKey, Text("embedded"))
    ensures Carries(ns[x].node, ContractKindKey, Text("interface"))
    ensures Carries(ns[x].node, ContractEmbedsKey, NodeRef(o))
    ensures SameBut(ns0[x], ns[x], {IsContractKey, ContractSourceKey, ContractKindKey, ContractEmbedsKey})
  {
    hide Takeover, Reach;
    o := originBy[x];
    assert OriginReaches(ns0, edges, resolved, o, x);
  }

  // An unmarked interface type.
  predicate OpenInterface(n: Node) {
    n.kind == "type" && !Carries(n, IsContractKey, Flag(true)) && Carries(n, TypeKindKey, Text("interface"))
  }

  lemma EligibleIff(n: Node)
    ensures Eligible(n) <==> OpenInterface(n)
    ensures ContractKind(n) == INTERFACE <==> Carries(n, ContractKindKey, Text("interface"))
  {
  }

  // x embeds a marked node of interface form.
  ghost predicate EmbedsMarked(ns: map<Id, Entry>, edges: seq<Edge>, marked: set<Id>, x: Id) {
    exists e :: e in edges && e.kind == "embeds" && e.src == x && e.dst in ns && e.dst in marked
                && Carries(ns[e.dst].node, ContractKindKey, Text("interface"))
  }

  ghost predicate MarksAll(ns0: map<Id, Entry>, edges: seq<Edge>, resolved: seq<Resolved>, marked: set<Id>) {
    forall y :: y in ns0 ==> (y in marked <==> ShouldMark(ns0, edges, resolved, y))
  }

  // Beside the configured nodes exactly those interface types are marked that were not
  // and that embed a marked node of interface form.
  lemma MarkedIffEmbeds(ns0: map<Id, Entry>, ns: map<Id, Entry>, edges: seq<Edge>, resolved: seq<Resolved>,
                        originBy: map<Id, Id>, x: Id)
    requires Origins(ns0, edges, resolved, originBy) && Carried(ns0, ns, resolved, originBy)
    requires MarksAll(ns0, edges, resolved, originBy.Keys) && x in ns0 && x !in Named(resolved)
    ensures x in originBy <==> OpenInterface(ns0[x].node) && EmbedsMarked(ns, edges, originBy.Keys, x)
  {
    hide Carries, OpenInterface, Eligible, Reach, Takeover, Origins, Carried, Named, EmbedsMarked, MarksAll, ShouldMark;
    if x in originBy { MarkedEmbeds(ns0, ns, edges, resolved, originBy, x); }
    if OpenInterface(ns0[x].node) && EmbedsMarked(ns, edges, originBy.Keys, x) {
      EmbedderMarked(ns0, ns, edges, resolved, originBy, x);
    }
  }

  lemma MarkedEmbeds(ns0: map<Id, Entry>, ns: map<Id, Entry>, edges: seq<Edge>, resolved: seq<Resolved>,
                     originBy: map<Id, Id>, x: Id)
    requires Origins(ns0, edges, resolved, originBy) && Carried(ns0, ns, resolved, originBy)
    requires MarksAll(ns0, edges, resolved, originBy.Keys) && x in ns0 && x !in Named(resolved) && x in originBy
    ensures OpenInterface(ns0[x].node) && EmbedsMarked(ns, edges, originBy.Keys, x)
  {
    hide Carries, OpenInterface, Eligible, ContractKind, Reach, ReachPlus, Takeover, Origins, Carried, Named, Spreads;
    var r := Takeover(ns0, edges, resolved);
    assert ShouldMark(ns0, edges, resolved, x);
    var o :| o in Named(resolved) && o in ns0 && Reach(r, o, x);
    ReachFirst(r, o, x);
    var y := ReachLast(r, o, x);
    TakeoverEdge(ns0, edges, resolved, y, x);
    EligibleIff(ns0[x].node);
    assert ShouldMark(ns0, edges, resolved, y);
    SpreadsIff(ns0, ns, edges, resolved, originBy, y);
    CarriedKeys(ns0, ns, resolved, originBy);
  }

  lemma CarriedKeys(ns0: map<Id, Entry>, ns: map<Id, Entry>, resolved: seq<Resolved>, originBy: map<Id, Id>)
    requires Carried(ns0, ns, resolved, originBy)
    ensures ns.Keys == ns0.Keys
  {
  }

  lemma TakeoverEdge(ns0: map<Id, Entry>, edges: seq<Edge>, resolved: seq<Resolved>, y: Id, x: Id)
    requires Arc(y, x) in Takeover(ns0, edges, resolved)
    ensures y in ns0 && x in ns0 && Spreads(ns0, resolved, y) && Eligible(ns0[x].node)
    ensures exists e :: e in edges && e.kind == "embeds" && e.src == x && e.dst == y
  {
    hide KindOf, Eligible;
  }

  lemma EmbedderMarked(ns0: map<Id, Entry>, ns: map<Id, Entry>, edges: seq<Edge>, resolved: seq<Resolved>,
                       originBy: map<Id, Id>, x: Id)
    requires Origins(ns0, edges, resolved, originBy) && Carried(ns0, ns, resolved, originBy)
    requires MarksAll(ns0, edges, resolved, originBy.Keys) && x in ns0 && x !in Named(resolved)
    requires OpenInterface(ns0[x].node) && EmbedsMarked(ns, edges, originBy.Keys, x)
    ensures x in originBy
  {
    hide Carries, OpenInterface, Eligible, ContractKind, Reach, Origins, Carried, Named, Spreads;
    var e :| e in edges && e.kind == "embeds" && e.src == x && e.dst in ns && e.dst in originBy.Keys
             && Carries(ns[e.dst].node, ContractKindKey, Text("interface"));
    CarriedKeys(ns0, ns, resolved, originBy);
    EligibleIff(ns0[x].node);
    SpreadsIff(ns0, ns, edges, resolved, originBy, e.dst);
    var r := Takeover(ns0, edges, resolved);
    assert Arc(e.dst, x) in r;
    assert ShouldMark(ns0, edges, resolved, e.dst);
    var o :| o in Named(resolved) && o in ns0 && Reach(r, o, e.dst);
    ReachEdge(r, e.dst, x);
    ReachTrans(r, o, e.dst, x);
    assert ShouldMark(ns0, edges, resolved, x);
  }

  lemma SpreadsIff(ns0: map<Id, Entry>, ns: map<Id, Entry>, edges: seq<Edge>, resolved: seq<Resolved>,
                   originBy: map<Id, Id>, y: Id)
    requires Origins(ns0, edges, resolved, originBy) && Carried(ns0, ns, resolved, originBy)
    requires y in ns0 && y in originBy
    ensures Spreads(ns0, resolved, y) <==> Carries(ns[y].node, ContractKindKey, Text("interface"))
  {
    hide Carries, IsContract, ContractKind, KindOf, Takeover, AsTaken, AsConfigured, Eligible, OriginReaches, Named;
    hide DeclaredKind, TextAttr;
    EligibleIff(ns[y].node);
    assert forall z :: z in Named(resolved) ==> z in originBy;
    hide Origins;
    CarriedKind(ns0, ns, resolved, originBy, y);
    hide Carried;
  }

  lemma RestrictSnoc(ids: seq<Id>, x: Id, s: set<Id>)
    ensures Restrict(ids + [x], s) == Restrict(ids, s) + (if x in s then [x] else [])
  {
    assert (ids + [x])[..|ids|] == ids;
  }

  // The marked ids are listed as the nodes are, each as often.
  lemma {:induction false} RestrictKeeps(ids: seq<Id>, s: set<Id>, x: Id)
    ensures multiset(Restrict(ids, s))[x] == if x in s then multiset(ids)[x] else 0
  {
    if ids != [] {
      hide Restrict;
      var front, y := Unsnoc(ids);
      RestrictKeeps(front, s, x);
      RestrictSnoc(front, y, s);
    }
  }

  lemma {:induction false} RestrictAppend(ids: seq<Id>, more: seq<Id>, s: set<Id>)
    ensures Restrict(ids + more, s) == Restrict(ids, s) + Restrict(more, s)
  {
    if more == [] {
      assert ids + more == ids;
    } else {
      hide Restrict;
      var front, x := Unsnoc(more);
      RestrictAppend(ids, front, s);
      RestrictSnoc(front, x, s);
      RestrictSnoc(ids + front, x, s);
      Assoc(ids, front, [x]);
      Assoc(Restrict(ids, s), Restrict(front, s), if x in s then [x] else []);
    }
  }
}
