/** Strings as the stores use them: order, trimming, decimal numbers, sorted names. */
module Text {
  import opened Order

  // Go's string order. Comparing UTF-8 bytes and comparing code points agree.
  predicate LexLe(a: string, b: string) {
    a == "" || (b != "" && (a[0] < b[0] || (a[0] == b[0] && LexLe(a[1..], b[1..]))))
  }

  lemma {:induction false} LexTotal(a: string, b: string)
    ensures LexLe(a, b) || LexLe(b, a)
  {
    if a != "" && b != "" && a[0] == b[0] { LexTotal(a[1..], b[1..]); }
  }

  lemma {:induction false} LexTrans(a: string, b: string, c: string)
    requires LexLe(a, b) && LexLe(b, c)
    ensures LexLe(a, c)
  {
    if a != "" && a[0] == b[0] && b[0] == c[0] { LexTrans(a[1..], b[1..], c[1..]); }
  }

  lemma {:induction false} LexAntisym(a: string, b: string)
    requires LexLe(a, b) && LexLe(b, a)
    ensures a == b
  {
    if a != "" {
      LexAntisym(a[1..], b[1..]);
      assert a == [a[0]] + a[1..] && b == [b[0]] + b[1..];
    }
  }

  lemma LexPreorder()
    ensures TotalPreorder(LexLe)
  {
    forall a, b ensures LexLe(a, b) || LexLe(b, a) { LexTotal(a, b); }
    forall a, b, c | LexLe(a, b) && LexLe(b, c) ensures LexLe(a, c) { LexTrans(a, b, c); }
  }

  // ---- Trimming ----

  // unicode.IsSpace
  predicate IsSpace(c: char) {
    || '\t' <= c <= '\r' || c == ' ' || c == '\U{85}' || c == '\U{A0}' || c == '\U{1680}'
    || '\U{2000}' <= c <= '\U{200A}' || c == '\U{2028}' || c == '\U{2029}' || c == '\U{202F}' || c == '\U{205F}'
    || c == '\U{3000}'
  }

  function TrimLeft(s: string): (r: string)
    ensures r == "" || !IsSpace(r[0])
    ensures |r| <= |s| && r == s[|s| - |r|..]
  {
    if s != "" && IsSpace(s[0]) then TrimLeft(s[1..]) else s
  }

  function TrimRight(s: string): (r: string)
    ensures r == "" || !IsSpace(r[|r| - 1])
    ensures |r| <= |s| && r == s[..|r|]
  {
    if s != "" && IsSpace(s[|s| - 1]) then TrimRight(s[..|s| - 1]) else s
  }

  // strings.TrimSpace
  function Trim(s: string): (r: string)
    ensures Trimmed(r)
    ensures Trimmed(s) <==> r == s
  {
    TrimRight(TrimLeft(s))
  }

  predicate Trimmed(s: string) {
    s == "" || (!IsSpace(s[0]) && !IsSpace(s[|s| - 1]))
  }

  // ---- Decimal numbers ----

  function Digit(d: nat): char
    requires d < 10
  {
    "0123456789"[d]
  }

  // strconv.Itoa
  function Itoa(n: nat): (s: string)
    ensures s != "" && !IsSpace(s[|s| - 1])
  {
    if n < 10 then [Digit(n)] else Itoa(n / 10) + [Digit(n % 10)]
  }

  lemma {:induction false} ItoaInjective(m: nat, n: nat)
    requires Itoa(m) == Itoa(n)
    ensures m == n
  {
    var s := Itoa(m);
    assert s[|s| - 1] == Digit(m % 10) && s[|s| - 1] == Digit(n % 10);
    assert m % 10 == n % 10;
    if m < 10 {
      assert n >= 10 ==> |Itoa(n)| > 1;
    } else {
      assert |Itoa(m)| > 1;
      assert Itoa(m / 10) == s[..|s| - 1] == Itoa(n / 10);
      ItoaInjective(m / 10, n / 10);
    }
  }

  // ---- Sorted names ----

  ghost predicate IsLeast(s: set<string>, x: string) {
    x in s && forall y :: y in s ==> LexLe(x, y)
  }

  lemma {:induction false} LeastNameExists(s: set<string>) returns (m: string)
    requires s != {}
    ensures IsLeast(s, m)
  {
    hide LexLe;
    var x := Pick(s);
    LexTotal(x, x);
    if s == {x} {
      m := x;
    } else {
      var z := LeastNameExists(s - {x});
      LexTotal(x, z);
      m := if LexLe(x, z) then x else z;
      forall y | y in s ensures LexLe(m, y) {
        if y != x {
          assert y in s - {x};
          if m == x { LexTrans(x, z, y); }
        }
      }
    }
  }

  function LeastName(s: set<string>): (x: string)
    requires s != {}
    ensures IsLeast(s, x)
  {
    assert exists x :: IsLeast(s, x) by { var m := LeastNameExists(s); }
    assert forall a, b :: a in s && b in s && LexLe(a, b) && LexLe(b, a) ==> a == b by {
      forall a, b | a in s && b in s && LexLe(a, b) && LexLe(b, a) ensures a == b { LexAntisym(a, b); }
    }
    var x :| x in s && forall y :: y in s ==> LexLe(x, y);
    x
  }

  // The names of a set in order, each once: the keys of a map collected and sorted.
  function SortedNames(s: set<string>): (r: seq<string>)
    ensures SortedBy(r, LexLe) && Distinct(r) && Elems(r) == s
  {
    if s == {} then []
    else
      var x := LeastName(s);
      var rest := SortedNames(s - {x});
      assert forall y :: y in rest ==> y in Elems(rest);
      assert Elems([x] + rest) == {x} + Elems(rest);
      [x] + rest
  }

  lemma LexStrict(s: seq<string>)
    ensures Strict(s, LexLe)
  {
    hide LexLe;
    forall x, y | x in s && y in s && LexLe(x, y) && LexLe(y, x) ensures x == y { LexAntisym(x, y); }
  }

  // sort.Strings over the collected keys
  method SortNames(names: set<string>) returns (out: seq<string>)
    ensures out == SortedNames(names)
  {
    var list: seq<string> := [];
    var todo := names;
    while todo != {}
      invariant todo <= names && Distinct(list) && Elems(list) == names - todo
      decreases |todo|
    {
      var x :| x in todo;
      assert x !in Elems(list);
      assert Elems(list + [x]) == Elems(list) + {x};
      list := list + [x];
      todo := todo - {x};
    }
    LexPreorder();
    out := StableSort(list, LexLe);
    SameElems(list, out);
    LexStrict(out);
    forall x ensures x in out <==> x in SortedNames(names) { assert x in out <==> x in Elems(out); }
    SortedUnique(out, SortedNames(names), LexLe);
  }

  // ---- What order, trimming and numbers mean ----

  // The texts part at k: one of them ends there, or their characters differ.
  ghost predicate PartAt(a: string, b: string, k: nat) {
    k <= |a| && k <= |b| && a[..k] == b[..k] && (k < |a| && k < |b| ==> a[k] != b[k])
  }

  // A text comes no later than another exactly if it ends where they part or has the
  // smaller character there.
  lemma {:induction false} LexLeIff(a: string, b: string, k: nat)
    requires PartAt(a, b, k)
    ensures LexLe(a, b) <==> k == |a| || (k < |b| && a[k] < b[k])
    decreases k
  {
    if k > 0 {
      assert a[0] == a[..k][0] == b[..k][0] == b[0];
      assert a[1..][..k - 1] == a[..k][1..] && b[1..][..k - 1] == b[..k][1..];
      LexLeIff(a[1..], b[1..], k - 1);
    }
  }

  // Trimming takes off exactly the spaces at both ends.
  lemma TrimCuts(s: string) returns (i: nat, j: nat)
    ensures i <= j <= |s| && Trim(s) == s[i..j]
    ensures forall k :: 0 <= k < i || j <= k < |s| ==> IsSpace(s[k])
    ensures i < j ==> !IsSpace(s[i]) && !IsSpace(s[j - 1])
  {
    hide IsSpace, TrimLeft, TrimRight;
    i := LeftCut(s);
    var r := s[i..];
    var n := RightCut(r);
    j := i + n;
    assert r[..n] == s[i..j];
    forall k | j <= k < |s| ensures IsSpace(s[k]) { assert s[k] == r[k - i]; }
    if n > 0 {
      assert s[j - 1] == r[n - 1];
    } else {
      assert s[i..j] == "";
    }
  }

  lemma {:induction false} LeftCut(s: string) returns (i: nat)
    ensures i <= |s| && TrimLeft(s) == s[i..] && forall k :: 0 <= k < i ==> IsSpace(s[k])
    ensures i < |s| ==> !IsSpace(s[i])
  {
    hide IsSpace;
    i := 0;
    if s != "" && IsSpace(s[0]) {
      i := LeftCut(s[1..]);
      i := i + 1;
      forall k | 0 <= k < i ensures IsSpace(s[k]) { assert k > 0 ==> s[k] == s[1..][k - 1]; }
    }
  }

  lemma {:induction false} RightCut(s: string) returns (j: nat)
    ensures j <= |s| && TrimRight(s) == s[..j] && forall k :: j <= k < |s| ==> IsSpace(s[k])
    ensures j > 0 ==> !IsSpace(s[j - 1])
  {
    hide IsSpace;
    j := |s|;
    if s != "" && IsSpace(s[j - 1]) {
      j := RightCut(s[..j - 1]);
    }
  }

  // The number a text of digits stands for.
  function ValueOf(s: string): int {
    if s == "" then 0 else 10 * ValueOf(s[..|s| - 1]) + (s[|s| - 1] as int - 48)
  }

  lemma {:induction false} ItoaValue(n: nat)
    ensures ValueOf(Itoa(n)) == n && forall c :: c in Itoa(n) ==> '0' <= c <= '9'
    ensures n > 0 ==> Itoa(n)[0] != '0'
  {
    var s := Itoa(n);
    if n >= 10 {
      ItoaValue(n / 10);
      assert s[..|s| - 1] == Itoa(n / 10) && s == Itoa(n / 10) + [s[|s| - 1]];
    } else {
      assert s[..0] == "";
    }
  }

  // The characters that Unicode lists as white space, by code.
  lemma SpaceCodes(c: char)
    ensures IsSpace(c) <==>
            || 9 <= c as int <= 13 || 8192 <= c as int <= 8202
            || c as int in {32, 133, 160, 5760, 8232, 8233, 8239, 8287, 12288}
  {
  }
}
