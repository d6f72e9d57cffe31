/** Node ids and stable sorting.

    The graph algorithms only compare ids and test them for equality, and every run
    touches finitely many of them, so `int` stands for any totally ordered id type. */
module Order {
  type Id = int

  ghost predicate TotalPreorder<T(!new)>(le: (T, T) -> bool) {
    && (forall a, b :: le(a, b) || le(b, a))
    && (forall a, b, c :: le(a, b) && le(b, c) ==> le(a, c))
  }

  ghost predicate SortedBy<T(!new)>(s: seq<T>, le: (T, T) -> bool) {
    forall i, j :: 0 <= i < j < |s| ==> le(s[i], s[j])
  }

  ghost predicate Distinct<T>(s: seq<T>) {
    forall i, j :: 0 <= i < j < |s| ==> s[i] != s[j]
  }

  // The last element of a sorted list stays last when a smaller one joins the others.
  lemma InsertBeforeLast<T(!new)>(front: seq<T>, last: T, x: T, inserted: seq<T>, le: (T, T) -> bool)
    requires SortedBy(front + [last], le) && SortedBy(inserted, le) && le(x, last)
    requires multiset(inserted) == multiset(front) + multiset{x}
    ensures SortedBy(inserted + [last], le)
    ensures multiset(inserted + [last]) == multiset(front + [last]) + multiset{x}
  {
    forall i | 0 <= i < |inserted| ensures le(inserted[i], last) {
      var y := inserted[i];
      assert y in multiset(inserted);
      if y in multiset(front) {
        var j :| 0 <= j < |front| && front[j] == y;
        assert (front + [last])[j] == y && (front + [last])[|front|] == last;
      }
    }
  }

  lemma SortedFront<T(!new)>(s: seq<T>, n: nat, le: (T, T) -> bool)
    requires SortedBy(s, le) && n <= |s|
    ensures SortedBy(s[..n], le)
  {
  }

  // Puts x after every element of a sorted s that is not strictly above it.
  function InsertBy<T(!new)>(s: seq<T>, x: T, le: (T, T) -> bool): (r: seq<T>)
    requires TotalPreorder(le) && SortedBy(s, le)
    ensures multiset(r) == multiset(s) + multiset{x}
    ensures SortedBy(r, le)
    ensures |s| == 0 || le(s[|s| - 1], x) ==> r == s + [x]
  {
    if |s| == 0 || le(s[|s| - 1], x) then
      s + [x]
    else
      var front, last := s[..|s| - 1], s[|s| - 1];
      assert s == front + [last];
      SortedFront(s, |s| - 1, le);
      assert le(x, last);
      InsertBeforeLast(front, last, x, InsertBy(front, x, le), le);
      InsertBy(front, x, le) + [last]
  }

  // The result of a stable sort, which is unique: what sort.SliceStable returns.
  function StableSort<T(!new)>(s: seq<T>, le: (T, T) -> bool): (r: seq<T>)
    requires TotalPreorder(le)
    ensures SortedBy(r, le)
    ensures multiset(r) == multiset(s)
    ensures SortedBy(s, le) ==> r == s
  {
    if s == [] then []
    else
      var front, last := s[..|s| - 1], s[|s| - 1];
      assert s == front + [last];
      InsertBy(StableSort(front, le), last, le)
  }

  function Mapped<S, T>(f: S -> T, s: seq<S>): (r: seq<T>)
    ensures |r| == |s| && forall i :: 0 <= i < |s| ==> r[i] == f(s[i])
  {
    seq(|s|, i requires 0 <= i < |s| => f(s[i]))
  }

  lemma MappedSorted<S(!new), T(!new)>(s: seq<S>, f: S -> T, le: (S, S) -> bool, le': (T, T) -> bool)
    requires SortedBy(s, le) && forall a, b :: le(a, b) == le'(f(a), f(b))
    ensures SortedBy(Mapped(f, s), le')
  {
    forall i, j | 0 <= i < j < |s| ensures le'(Mapped(f, s)[i], Mapped(f, s)[j]) { assert le(s[i], s[j]); }
  }

  lemma {:induction false} InsertMapped<S(!new), T(!new)>(s: seq<S>, x: S, f: S -> T, le: (S, S) -> bool,
                                                          le': (T, T) -> bool)
    requires TotalPreorder(le) && TotalPreorder(le') && SortedBy(s, le)
    requires forall a, b :: le(a, b) == le'(f(a), f(b))
    ensures SortedBy(Mapped(f, s), le')
    ensures Mapped(f, InsertBy(s, x, le)) == InsertBy(Mapped(f, s), f(x), le')
  {
    hide TotalPreorder, SortedBy;
    MappedSorted(s, f, le, le');
    if |s| == 0 || le(s[|s| - 1], x) {
      assert Mapped(f, s + [x]) == Mapped(f, s) + [f(x)];
    } else {
      var n := |s| - 1;
      SortedFront(s, n, le);
      InsertMapped(s[..n], x, f, le, le');
      assert Mapped(f, s)[..n] == Mapped(f, s[..n]);
      assert Mapped(f, InsertBy(s[..n], x, le) + [s[n]]) == Mapped(f, InsertBy(s[..n], x, le)) + [f(s[n])];
    }
  }

  // Sorting commutes with a map that keeps the order of any two elements.
  lemma {:induction false} SortMapped<S(!new), T(!new)>(s: seq<S>, f: S -> T, le: (S, S) -> bool, le': (T, T) -> bool)
    requires TotalPreorder(le) && TotalPreorder(le')
    requires forall a, b :: le(a, b) == le'(f(a), f(b))
    ensures Mapped(f, StableSort(s, le)) == StableSort(Mapped(f, s), le')
  {
    if s != [] {
      var front := s[..|s| - 1];
      SortMapped(front, f, le, le');
      assert Mapped(f, s)[..|s| - 1] == Mapped(f, front);
      InsertMapped(StableSort(front, le), s[|s| - 1], f, le, le');
    }
  }

  ghost predicate Ascending(s: seq<Id>) {
    forall i, j :: 0 <= i < j < |s| ==> s[i] < s[j]
  }

  predicate IdLe(a: Id, b: Id) { a <= b }

  function SortIds(s: seq<Id>): (r: seq<Id>)
    ensures multiset(r) == multiset(s)
    ensures forall i, j :: 0 <= i < j < |r| ==> r[i] <= r[j]
  {
    StableSort(s, IdLe)
  }

  lemma Assoc<T>(a: seq<T>, b: seq<T>, c: seq<T>)
    ensures a + (b + c) == a + b + c
  {
  }

  // A list as its front and its last element.
  lemma Unsnoc<T>(s: seq<T>) returns (front: seq<T>, last: T)
    requires s != []
    ensures s == front + [last] && front == s[..|s| - 1] && last == s[|s| - 1]
    ensures forall x {:trigger multiset(s)[x]} ::
              multiset(s)[x] == multiset(front)[x] + if x == last then 1 else 0
  {
    front, last := s[..|s| - 1], s[|s| - 1];
    assert s == front + [last];
  }

  function Elems<T>(s: seq<T>): set<T> { set x | x in s }

  lemma SameElems<T>(s: seq<T>, t: seq<T>)
    requires multiset(s) == multiset(t)
    ensures Elems(s) == Elems(t) && |s| == |t|
    ensures forall x :: x in s <==> x in t
    ensures Distinct(s) ==> Distinct(t)
  {
    assert forall x :: x in s <==> x in multiset(s);
    assert forall x :: x in t <==> x in multiset(t);
    assert |multiset(s)| == |s| && |multiset(t)| == |t|;
    if Distinct(s) { DistinctIffOnce(s); DistinctIffOnce(t); }
  }

  lemma {:induction false} DistinctIffOnce<T>(s: seq<T>)
    ensures Distinct(s) <==> forall x :: x in s ==> multiset(s)[x] == 1
  {
    if s != [] {
      var front, last := s[..|s| - 1], s[|s| - 1];
      assert s == front + [last];
      DistinctIffOnce(front);
      assert multiset(s) == multiset(front) + multiset{last};
      if Distinct(s) {
        assert last !in front;
      } else if last !in front {
        assert !Distinct(front);
        var x :| x in front && multiset(front)[x] != 1;
        assert x in s && multiset(s)[x] != 1;
      } else {
        assert last in multiset(front);
        assert last in s && multiset(s)[last] != 1;
      }
    }
  }

  lemma {:induction false} DistinctCard<T>(s: seq<T>)
    requires Distinct(s)
    ensures |Elems(s)| == |s|
  {
    if s != [] {
      var front, last := s[..|s| - 1], s[|s| - 1];
      DistinctCard(front);
      assert Elems(s) == Elems(front) + {last};
    }
  }

  // A list has as many elements as positions exactly if no element repeats.
  lemma {:induction false} ElemsAtMost<T>(s: seq<T>)
    ensures |Elems(s)| <= |s|
    ensures |Elems(s)| == |s| ==> Distinct(s)
  {
    if s != [] {
      var n := |s| - 1;
      ElemsAtMost(s[..n]);
      assert s == s[..n] + [s[n]];
      assert Elems(s) == Elems(s[..n]) + {s[n]};
      if s[n] in Elems(s[..n]) { assert Elems(s) == Elems(s[..n]); }
    }
  }

  lemma SubsetCard<T>(a: set<T>, b: set<T>)
    requires a <= b
    ensures |a| <= |b|
    ensures |a| == |b| ==> a == b
  {
    assert b == a + (b - a);
    assert |b| == |a| + |b - a|;
  }

  ghost function Pick<T>(s: set<T>): (x: T)
    requires s != {}
    ensures x in s
  {
    var x :| x in s; x
  }

  lemma {:induction false} LeastExists(s: set<Id>)
    requires s != {}
    ensures exists x :: x in s && forall y :: y in s ==> x <= y
  {
    var x := Pick(s);
    if s != {x} {
      LeastExists(s - {x});
      var z :| z in s - {x} && forall y :: y in s - {x} ==> z <= y;
      var m := if x < z then x else z;
      forall y | y in s ensures m <= y {
        if y != x { assert y in s - {x}; }
      }
      assert m in s && forall y :: y in s ==> m <= y;
    }
  }

  function Least(s: set<Id>): (x: Id)
    requires s != {}
    ensures x in s && forall y :: y in s ==> x <= y
  {
    LeastExists(s);
    var x :| x in s && forall y :: y in s ==> x <= y;
    x
  }

  lemma AscendingCons(x: Id, rest: seq<Id>, s: set<Id>)
    requires x in s && (forall y :: y in s ==> x <= y) && Ascending(rest) && Elems(rest) == s - {x}
    ensures Ascending([x] + rest) && Elems([x] + rest) == s
  {
    forall i | 0 <= i < |rest| ensures x < rest[i] { assert rest[i] in Elems(rest); }
    assert Elems([x] + rest) == {x} + Elems(rest);
  }

  // The keys of a set in ascending order: what the repository gets by collecting map
  // keys, in whatever order the map yields them, and sorting.
  function SortedSeq(s: set<Id>): (r: seq<Id>)
    ensures Ascending(r) && Elems(r) == s && |r| == |s|
  {
    if s == {} then []
    else
      var x := Least(s);
      var rest := SortedSeq(s - {x});
      AscendingCons(x, rest, s);
      [x] + rest
  }

  lemma FrontElems<T>(s: seq<T>)
    requires s != [] && Distinct(s)
    ensures Distinct(s[..|s| - 1]) && s == s[..|s| - 1] + [s[|s| - 1]]
    ensures forall x :: x in s[..|s| - 1] <==> x in s && x != s[|s| - 1]
  {
    var m := |s| - 1;
    assert s == s[..m] + [s[m]];
    forall x | x in s[..m] ensures x != s[m] { var i :| 0 <= i < m && s[i] == x; }
  }

  // The order tells any two elements apart.
  ghost predicate Strict<T(!new)>(s: seq<T>, le: (T, T) -> bool) {
    forall x, y :: x in s && y in s && le(x, y) && le(y, x) ==> x == y
  }

  lemma SameLast<T(!new)>(s: seq<T>, t: seq<T>, le: (T, T) -> bool)
    requires SortedBy(s, le) && SortedBy(t, le) && Strict(s, le) && s != [] && t != []
    requires forall x :: x in s <==> x in t
    ensures s[|s| - 1] == t[|t| - 1]
  {
    var m, n := |s| - 1, |t| - 1;
    assert s[m] in t && t[n] in s;
    var i :| 0 <= i < |t| && t[i] == s[m];
    var j :| 0 <= j < |s| && s[j] == t[n];
    if i < n && j < m { assert le(t[i], t[n]) && le(s[j], s[m]); }
  }

  // A sorted list without repetition is determined by its elements.
  lemma {:induction false} SortedUnique<T(!new)>(s: seq<T>, t: seq<T>, le: (T, T) -> bool)
    requires SortedBy(s, le) && SortedBy(t, le) && Distinct(s) && Distinct(t) && Strict(s, le)
    requires forall x :: x in s <==> x in t
    ensures s == t
  {
    hide Strict;
    assert s != [] ==> s[0] in t;
    assert t != [] ==> t[0] in s;
    if s != [] && t != [] {
      var m, n := |s| - 1, |t| - 1;
      SameLast(s, t, le);
      FrontElems(s);
      FrontElems(t);
      SortedFront(s, m, le);
      SortedFront(t, n, le);
      StrictFront(s, m, le);
      forall x ensures x in s[..m] <==> x in t[..n] { assert x in s <==> x in t; }
      SortedUnique(s[..m], t[..n], le);
    }
  }

  lemma StrictFront<T(!new)>(s: seq<T>, n: nat, le: (T, T) -> bool)
    requires Strict(s, le) && n <= |s|
    ensures Strict(s[..n], le)
  {
  }

  // An ascending list is determined by its elements.
  lemma {:induction false} AscendingUnique(s: seq<Id>, t: seq<Id>)
    requires Ascending(s) && Ascending(t) && Elems(s) == Elems(t)
    ensures s == t
  {
    assert s != [] ==> s[0] in Elems(s);
    assert t != [] ==> t[0] in Elems(t);
    if s != [] && t != [] {
      var m, n := |s| - 1, |t| - 1;
      assert s[m] in Elems(t) && t[n] in Elems(s);
      assert s[m] == t[n];
      assert Elems(s[..m]) == Elems(s) - {s[m]};
      assert Elems(t[..n]) == Elems(t) - {t[n]};
      AscendingUnique(s[..m], t[..n]);
    }
  }
}
