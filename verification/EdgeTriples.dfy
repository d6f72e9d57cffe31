/** When matching edges on joined keys is matching them on ends and kind. */
module EdgeTriples {
  import opened Text
  import opened GraphStore
  import opened GraphMerge

  datatype Triple = Triple(src: string, kind: string, dst: string)

  function TripleOf(e: Edge): Triple { Triple(e.src, e.kind, e.dst) }

  ghost function Triples(es: seq<Edge>): set<Triple> { set e | e in es :: TripleOf(e) }

  ghost predicate EndsIn(es: seq<Edge>, ids: set<string>) {
    forall e :: e in es ==> e.src in ids && e.dst in ids
  }

  // y begins with x and the arrow, t being the rest.
  predicate Begins(y: string, x: string, t: string) { y == x + ARROW + t }

  // y ends with the arrow and x, t being what comes before.
  predicate Closes(y: string, x: string, t: string) { y == t + ARROW + x }

  // No id begins with another and the arrow, none ends with the arrow and another.
  ghost predicate Apart(ids: set<string>) {
    forall x, y, t :: x in ids && y in ids ==> !Begins(y, x, t) && !Closes(y, x, t)
  }

  // ---- From a shared key to the ids ----

  lemma KeyParts(e: Edge)
    ensures EdgeKey(e) == e.src + ARROW + (e.kind + ARROW + e.dst)
    ensures EdgeKey(e) == (e.src + ARROW + e.kind) + ARROW + e.dst
  {
    assert e.src + ARROW + e.kind + ARROW + e.dst == e.src + ARROW + (e.kind + ARROW + e.dst);
  }

  // Of two words that are cut off at an arrow, the longer one begins with the shorter.
  lemma CutFront(s: string, s': string, t: string, t': string) returns (rest: string)
    requires s + ARROW + s' == t + ARROW + t' && |s| < |t|
    ensures Begins(t, s, rest) && s' == rest + ARROW + t'
  {
    var u := t + ARROW + t';
    rest := t[|s| + 1..];
    assert u[..|s|] == s && u[..|t|] == t && u[|s|] == ARROW[0];
    assert t == u[..|t|] == s + ARROW + rest;
    assert s' == u[|s| + 1..] == rest + ARROW + t';
  }

  lemma CutBack(s: string, s': string, t: string, t': string) returns (rest: string)
    requires s' + ARROW + s == t' + ARROW + t && |s| < |t|
    ensures Closes(t, s, rest) && s' == t' + ARROW + rest
  {
    var u := t' + ARROW + t;
    var n := |u|;
    rest := t[..|t| - |s| - 1];
    assert u[n - |s|..] == s && u[n - |t|..] == t && u[n - |s| - 1] == ARROW[0];
    assert t == u[n - |t|..] == rest + ARROW + s;
    assert s' == u[..n - |s| - 1] == t' + ARROW + rest;
  }

  // A kind without outer space can stand before a gap only if the gap does not begin with
  // a space, and after one only if it does not end with a space.
  predicate OpenFront(t: string) { t == "" || !IsSpace(t[0]) }

  predicate OpenBack(t: string) { t == "" || !IsSpace(t[|t| - 1]) }

  lemma KindLeads(k: string, d: string, t: string, r: string)
    requires k + ARROW + d == t + ARROW + r && Trimmed(k)
    ensures OpenFront(t)
  {
    if t != "" {
      assert (t + ARROW + r)[0] == t[0];
      assert (k + ARROW + d)[0] == if k == "" then ARROW[0] else k[0];
      assert !IsSpace(ARROW[0]);
    }
  }

  lemma KindTrails(d: string, k: string, r: string, t: string)
    requires d + ARROW + k == r + ARROW + t && Trimmed(k)
    ensures OpenBack(t)
  {
    if t != "" {
      var u := d + ARROW + k;
      assert u[|u| - 1] == t[|t| - 1];
      assert u[|u| - 1] == if k == "" then ARROW[0] else k[|k| - 1];
      assert !IsSpace(ARROW[0]);
    }
  }

  // Two different triples with one key: one source begins with the other, or one
  // destination ends with the other.
  lemma Overlap(e: Edge, f: Edge) returns (x: string, y: string, t: string, front: bool)
    requires EdgeKey(e) == EdgeKey(f) && TripleOf(e) != TripleOf(f)
    ensures x in {e.src, e.dst, f.src, f.dst} && y in {e.src, e.dst, f.src, f.dst}
    ensures if front then Begins(y, x, t) else Closes(y, x, t)
    ensures Trimmed(e.kind) && Trimmed(f.kind) ==> if front then OpenFront(t) else OpenBack(t)
  {
    hide EdgeKey, Trimmed, OpenFront, OpenBack;
    KeyParts(e);
    KeyParts(f);
    if |e.src| < |f.src| {
      x, y, t, front := OverlapFront(e, f);
    } else if |f.src| < |e.src| {
      x, y, t, front := OverlapFront(f, e);
    } else if |e.dst| < |f.dst| {
      x, y, t, front := OverlapBack(e, f);
    } else if |f.dst| < |e.dst| {
      x, y, t, front := OverlapBack(f, e);
    } else {
      SameLengths(e, f);
      assert false;
    }
  }

  lemma OverlapFront(e: Edge, f: Edge) returns (x: string, y: string, t: string, front: bool)
    requires EdgeKey(e) == EdgeKey(f) && |e.src| < |f.src|
    ensures x == e.src && y == f.src && front && Begins(y, x, t)
    ensures Trimmed(e.kind) ==> OpenFront(t)
  {
    hide EdgeKey, Trimmed, OpenFront;
    KeyParts(e);
    KeyParts(f);
    t := CutFront(e.src, e.kind + ARROW + e.dst, f.src, f.kind + ARROW + f.dst);
    x, y, front := e.src, f.src, true;
    if Trimmed(e.kind) { KindLeads(e.kind, e.dst, t, f.kind + ARROW + f.dst); }
  }

  lemma OverlapBack(e: Edge, f: Edge) returns (x: string, y: string, t: string, front: bool)
    requires EdgeKey(e) == EdgeKey(f) && |e.dst| < |f.dst|
    ensures x == e.dst && y == f.dst && !front && Closes(y, x, t)
    ensures Trimmed(e.kind) ==> OpenBack(t)
  {
    hide EdgeKey, Trimmed, OpenBack;
    KeyParts(e);
    KeyParts(f);
    t := CutBack(e.dst, e.src + ARROW + e.kind, f.dst, f.src + ARROW + f.kind);
    x, y, front := e.dst, f.dst, false;
    if Trimmed(e.kind) { KindTrails(e.src, e.kind, f.src + ARROW + f.kind, t); }
  }

  lemma SameLengths(e: Edge, f: Edge)
    requires EdgeKey(e) == EdgeKey(f) && |e.src| == |f.src| && |e.dst| == |f.dst|
    ensures TripleOf(e) == TripleOf(f)
  {
    var u := EdgeKey(e);
    var m, n := |e.src|, |u| - |e.dst|;
    assert u == e.src + ARROW + e.kind + ARROW + e.dst;
    assert u == f.src + ARROW + f.kind + ARROW + f.dst;
    assert e.src == u[..m] == f.src;
    assert e.dst == u[n..] == f.dst;
    assert e.kind == u[m + 1..n - 1] == f.kind;
  }

  // ---- From the ids to a shared key ----

  // An id that begins or ends with another makes two different edges share a key.
  lemma Collision(x: string, y: string, t: string, front: bool) returns (e: Edge, f: Edge)
    requires if front then Begins(y, x, t) else Closes(y, x, t)
    ensures e.src == x && e.dst == x && {f.src, f.dst} == {x, y} && f.kind == ""
    ensures EdgeKey(e) == EdgeKey(f) && TripleOf(e) != TripleOf(f)
    ensures e.kind != "" && (Trimmed(e.kind) <==> if front then OpenFront(t) else OpenBack(t))
    ensures e.attrs == map["kind" := e.kind] && f.attrs == map[]
  {
    var k := if front then t + ARROW else ARROW + t;
    e := Edge(x, x, k, map["kind" := k]);
    f := if front then Edge(y, x, "", map[]) else Edge(x, y, "", map[]);
    if front {
      assert EdgeKey(e) == x + ARROW + t + ARROW + ARROW + x;
      assert EdgeKey(f) == x + ARROW + t + ARROW + ARROW + x;
      assert k[|k| - 1] == ARROW[0] && (t != "" ==> k[0] == t[0]);
    } else {
      assert EdgeKey(e) == x + ARROW + ARROW + t + ARROW + x;
      assert EdgeKey(f) == x + ARROW + ARROW + (t + ARROW + x);
      assert k[0] == ARROW[0] && (t != "" ==> k[|k| - 1] == t[|t| - 1]);
    }
    assert !IsSpace(ARROW[0]);
  }

  // ---- The condition is exact ----

  // Over these ids, with any kinds, a key belongs to one triple.
  ghost predicate KeysTell(ids: set<string>) {
    forall e: Edge, f: Edge {:trigger EdgeKey(e), EdgeKey(f)} ::
      {e.src, e.dst, f.src, f.dst} <= ids && EdgeKey(e) == EdgeKey(f) ==> TripleOf(e) == TripleOf(f)
  }

  lemma KeysAreTriplesIff(ids: set<string>)
    ensures KeysTell(ids) <==> Apart(ids)
  {
    hide EdgeKey, Begins, Closes;
    if Apart(ids) {
      forall e: Edge, f: Edge {:trigger EdgeKey(e), EdgeKey(f)} |
          {e.src, e.dst, f.src, f.dst} <= ids && EdgeKey(e) == EdgeKey(f)
        ensures TripleOf(e) == TripleOf(f)
      {
        if TripleOf(e) != TripleOf(f) { var x, y, t, front := Overlap(e, f); }
      }
    }
    if KeysTell(ids) {
      forall x, y, t | x in ids && y in ids ensures !Begins(y, x, t) && !Closes(y, x, t) {
        if Begins(y, x, t) { var e, f := Collision(x, y, t, true); }
        if Closes(y, x, t) { var e, f := Collision(x, y, t, false); }
      }
    }
  }

  // ---- Merges and differences by triples ----

  // No two edges of the two lists share a key without sharing a triple.
  ghost predicate KeysFit(xs: seq<Edge>, ys: seq<Edge>) {
    forall e, f :: e in xs && f in ys && EdgeKey(e) == EdgeKey(f) ==> TripleOf(e) == TripleOf(f)
  }

  lemma {:induction false} NewEdgeOrOld(be: seq<Edge>, keys: set<string>, f: Edge)
    requires f in be && EdgeKey(f) !in keys
    ensures exists g :: g in be && EdgeKey(g) == EdgeKey(f) && MirroredEdge(g) in NewEdges(be, keys)
  {
    hide EdgeKey, MirroredEdge, NewEdges;
    var n := |be| - 1;
    assert be == be[..n] + [be[n]];
    NewEdgesSnoc(be[..n], be[n], keys);
    if EdgeKey(f) in Keys(be[..n]) {
      var h :| h in be[..n] && EdgeKey(h) == EdgeKey(f);
      NewEdgeOrOld(be[..n], keys, h);
      var g :| g in be[..n] && EdgeKey(g) == EdgeKey(h) && MirroredEdge(g) in NewEdges(be[..n], keys);
      assert g in be;
    } else {
      forall h | h in be[..n] ensures EdgeKey(h) in Keys(be[..n]) {}
    }
  }

  lemma TripleKept(e: Edge)
    ensures TripleOf(MirroredEdge(e)) == TripleOf(e)
  {
  }

  // If keys tell triples, a merge holds the triples of both, and only those.
  lemma MergedTriples(a: Value, b: Value)
    requires KeysFit(a.edges, b.edges) && KeysFit(b.edges, b.edges)
    ensures Triples(Merged(a, b).edges) == Triples(a.edges) + Triples(b.edges)
  {
    hide EdgeKey, MirroredEdge, NewEdges, MergedNodes;
    var m, added := Merged(a, b).edges, NewEdges(b.edges, Keys(a.edges));
    forall t | t in Triples(m) ensures t in Triples(a.edges) + Triples(b.edges) {
      var e :| e in m && TripleOf(e) == t;
      if e !in a.edges {
        NewEdgesFrom(b.edges, Keys(a.edges), e);
        var f :| f in b.edges && e == MirroredEdge(f);
        TripleKept(f);
      }
    }
    forall t | t in Triples(a.edges) ensures t in Triples(m) {
      var e :| e in a.edges && TripleOf(e) == t;
      assert e in m;
    }
    forall f | f in b.edges ensures TripleOf(f) in Triples(m) {
      if EdgeKey(f) in Keys(a.edges) {
        var e :| e in a.edges && EdgeKey(e) == EdgeKey(f);
        assert e in m;
      } else {
        NewEdgeOrOld(b.edges, Keys(a.edges), f);
        var g :| g in b.edges && EdgeKey(g) == EdgeKey(f) && MirroredEdge(g) in added;
        TripleKept(g);
        assert MirroredEdge(g) in m;
      }
    }
  }

  // Every merge over these ids, with any kinds, is the union of the triples exactly if the
  // ids are apart.
  lemma UnionOfTriplesIff(ids: set<string>)
    ensures (forall a: Value, b: Value :: EndsIn(a.edges, ids) && EndsIn(b.edges, ids) ==>
               Triples(Merged(a, b).edges) == Triples(a.edges) + Triples(b.edges))
            <==> Apart(ids)
  {
    hide EdgeKey, Begins, Closes, Merged;
    KeysAreTriplesIff(ids);
    if Apart(ids) {
      forall a: Value, b: Value | EndsIn(a.edges, ids) && EndsIn(b.edges, ids)
        ensures Triples(Merged(a, b).edges) == Triples(a.edges) + Triples(b.edges)
      {
        MergedTriples(a, b);
      }
    } else {
      var x, y, t :| x in ids && y in ids && (Begins(y, x, t) || Closes(y, x, t));
      var e, f := Collision(x, y, t, Begins(y, x, t));
      var a, b := Value(true, [], [e]), Value(true, [], [f]);
      MergeDrops(a, b, e, f);
      assert EndsIn(a.edges, ids) && EndsIn(b.edges, ids);
    }
  }

  // Of two edges with one key only the destination's stays.
  lemma MergeDrops(a: Value, b: Value, e: Edge, f: Edge)
    requires a.edges == [e] && b.edges == [f] && EdgeKey(e) == EdgeKey(f) && TripleOf(e) != TripleOf(f)
    ensures Merged(a, b).edges == [e]
    ensures Triples([e]) != Triples([e]) + Triples([f])
  {
    hide EdgeKey, MirroredEdge, MergedNodes;
    assert e in a.edges && EdgeKey(f) in Keys(a.edges);
    NothingNew(b.edges, Keys(a.edges));
    assert f in [f] && TripleOf(f) in Triples([f]);
    assert TripleOf(f) !in Triples([e]);
  }

  // The arrow is one character, and kinds may hold it too.
  lemma ArrowInKind()
    ensures var e, f := Edge("a", "d", "b\U{2192}c", map[]), Edge("a\U{2192}b", "d", "c", map[]);
            EdgeKey(e) == EdgeKey(f) == "a\U{2192}b\U{2192}c\U{2192}d" && TripleOf(e) != TripleOf(f)
  {
  }
}
