/** Graph ids and the files they address. */
module GraphPaths {
  import opened Wrappers

  // graphs/<slug>/<variant>.graphml under a fixed root.
  datatype Path = Path(slug: string, variant: string)

  predicate SafeChar(c: char) {
    'a' <= c <= 'z' || 'A' <= c <= 'Z' || '0' <= c <= '9' || c == '-' || c == '_' || c == '.'
  }

  function SlugChars(s: string): string {
    if s == "" then "" else [if SafeChar(s[0]) then s[0] else '_'] + SlugChars(s[1..])
  }

  function Slug(s: string): string {
    if s == "" then "graph" else SlugChars(s)
  }

  // strings.LastIndex(s, ":"), or -1.
  function LastColon(s: string): (i: int)
    ensures -1 <= i < |s|
    ensures i >= 0 ==> s[i] == ':'
    ensures forall j :: i < j < |s| ==> s[j] != ':'
  {
    if s == "" then -1
    else if s[|s| - 1] == ':' then |s| - 1
    else LastColon(s[..|s| - 1])
  }

  predicate IsSeparator(c: char) { c == '/' || c == '\\' }

  // Some maximal run of non-separators is "..". `seg` is the run read so far.
  predicate HasDotDot(s: string, seg: string) {
    if s == "" then seg == ".."
    else if IsSeparator(s[0]) then seg == ".." || HasDotDot(s[1..], "")
    else HasDotDot(s[1..], seg + [s[0]])
  }

  predicate ValidGraphId(id: string) {
    && id != ""
    && var i := LastColon(id);
       if i >= 0 then !HasDotDot(id[..i], "") && !HasDotDot(id[i + 1..], "") else !HasDotDot(id, "")
  }

  // resolvePath
  function ResolvePath(id: string): Option<Path> {
    if !ValidGraphId(id) then None
    else
      var i := LastColon(id);
      if i >= 0 then Some(Path(Slug(id[..i]), Slug(id[i + 1..])))
      else Some(Path(Slug(id), Slug("actual")))
  }

  // No two of the ids address the same file.
  ghost predicate PathsDiffer(ids: set<string>) {
    forall a, b :: a in ids && b in ids && a != b && ResolvePath(a).Some? ==> ResolvePath(a) != ResolvePath(b)
  }

  // ---- What the ids say about the files ----

  // The digits, the letters, the minus, the dot and the underscore, by code point.
  lemma SafeCodes(c: char)
    ensures SafeChar(c) <==>
            48 <= c as int <= 57 || 65 <= c as int <= 90 || 97 <= c as int <= 122 || c as int in {45, 46, 95}
  {
  }

  lemma {:induction false} CharsKept(s: string)
    ensures |SlugChars(s)| == |s|
    ensures forall i :: 0 <= i < |s| ==> SlugChars(s)[i] == if SafeChar(s[i]) then s[i] else '_'
  {
    hide SafeChar;
    if s != "" {
      CharsKept(s[1..]);
    }
  }

  // The text that names the directory, and the text that names the file in it.
  function SlugPart(id: string): string {
    if ':' in id then id[..LastColon(id)] else id
  }

  function VariantPart(id: string): string {
    if ':' in id then id[LastColon(id) + 1..] else "actual"
  }

  lemma {:induction false} ColonIff(s: string)
    ensures ':' in s <==> LastColon(s) >= 0
  {
    hide LastColon;
    if ':' in s { var i :| 0 <= i < |s| && s[i] == ':'; }
  }

  // The parts are cut at the last colon.
  lemma PartsOf(id: string)
    ensures ':' in id ==> id == SlugPart(id) + ":" + VariantPart(id) && ':' !in VariantPart(id)
    ensures ':' !in id ==> SlugPart(id) == id && VariantPart(id) == "actual"
  {
    ColonIff(id);
    if ':' in id {
      var i := LastColon(id);
      assert id == id[..i] + [id[i]] + id[i + 1..];
    }
  }

  // A part in a path: "graph" for the empty text, otherwise as long as the text, with each
  // character kept if it is safe and replaced by an underscore if not.
  ghost predicate InPath(text: string, part: string) {
    if text == "" then part == "graph"
    else |part| == |text| && forall i :: 0 <= i < |text| ==> part[i] == if SafeChar(text[i]) then text[i] else '_'
  }

  lemma ResolvedParts(id: string)
    requires ValidGraphId(id)
    ensures ResolvePath(id).Some?
    ensures InPath(SlugPart(id), ResolvePath(id).value.slug) && InPath(VariantPart(id), ResolvePath(id).value.variant)
  {
    ColonIff(id);
    CharsKept(SlugPart(id));
    CharsKept(VariantPart(id));
    CharsKept("actual");
  }

  // Every character of a path is safe, and no part is empty.
  lemma PathsAreSafe(id: string)
    requires ResolvePath(id).Some?
    ensures ResolvePath(id).value.slug != "" && forall c :: c in ResolvePath(id).value.slug ==> SafeChar(c)
    ensures ResolvePath(id).value.variant != "" && forall c :: c in ResolvePath(id).value.variant ==> SafeChar(c)
  {
    hide LastColon, SlugPart, VariantPart;
    ResolvedParts(id);
    PartIsSafe(SlugPart(id), ResolvePath(id).value.slug);
    PartIsSafe(VariantPart(id), ResolvePath(id).value.variant);
  }

  lemma PartIsSafe(text: string, part: string)
    requires InPath(text, part)
    ensures part != "" && forall c :: c in part ==> SafeChar(c)
  {
  }

  predicate Blank(c: char) { !SafeChar(c) || c == '_' }

  // Texts that differ at most where both have an underscore or an unsafe character.
  ghost predicate Alike(s: string, t: string) {
    |s| == |t| && forall i :: 0 <= i < |s| ==> s[i] == t[i] || (Blank(s[i]) && Blank(t[i]))
  }

  function OrGraph(s: string): string { if s == "" then "graph" else s }

  lemma SamePartIff(s: string, t: string, p: string, q: string)
    requires InPath(s, p) && InPath(t, q)
    ensures p == q <==> Alike(OrGraph(s), OrGraph(t))
  {
    AsInPath(s, p);
    AsInPath(t, q);
    var a, b := OrGraph(s), OrGraph(t);
    if Alike(a, b) {
      forall i | 0 <= i < |p| ensures p[i] == q[i] { }
    }
    if p == q {
      forall i | 0 <= i < |a| ensures a[i] == b[i] || (Blank(a[i]) && Blank(b[i])) { assert p[i] == q[i]; }
    }
  }

  lemma AsInPath(s: string, p: string)
    requires InPath(s, p)
    ensures |p| == |OrGraph(s)|
    ensures forall i :: 0 <= i < |p| ==> p[i] == if Blank(OrGraph(s)[i]) then '_' else OrGraph(s)[i]
  {
  }

  // Two valid ids address one file exactly if both their parts are alike.
  lemma SameFileIff(a: string, b: string)
    requires ValidGraphId(a) && ValidGraphId(b)
    ensures ResolvePath(a) == ResolvePath(b) <==>
            Alike(OrGraph(SlugPart(a)), OrGraph(SlugPart(b))) && Alike(OrGraph(VariantPart(a)), OrGraph(VariantPart(b)))
  {
    hide ValidGraphId, ResolvePath, SlugPart, VariantPart, InPath, Alike, OrGraph;
    ResolvedParts(a);
    ResolvedParts(b);
    var p, q := ResolvePath(a).value, ResolvePath(b).value;
    SamePartIff(SlugPart(a), SlugPart(b), p.slug, q.slug);
    SamePartIff(VariantPart(a), VariantPart(b), p.variant, q.variant);
  }

  // So no two of the ids share a file exactly if no two valid ones are alike in both parts.
  lemma PathsDifferIff(ids: set<string>)
    ensures PathsDiffer(ids) <==>
            forall a, b :: a in ids && b in ids && a != b && ValidGraphId(a) && ValidGraphId(b) ==>
              !(Alike(OrGraph(SlugPart(a)), OrGraph(SlugPart(b)))
                && Alike(OrGraph(VariantPart(a)), OrGraph(VariantPart(b))))
  {
    hide ResolvePath, ValidGraphId, Alike, OrGraph, SlugPart, VariantPart;
    forall a, b | ValidGraphId(a) && ValidGraphId(b)
      ensures ResolvePath(a) == ResolvePath(b) <==>
              && Alike(OrGraph(SlugPart(a)), OrGraph(SlugPart(b)))
              && Alike(OrGraph(VariantPart(a)), OrGraph(VariantPart(b)))
    {
      SameFileIff(a, b);
    }
    forall a ensures ResolvePath(a).Some? <==> ValidGraphId(a) { ResolvesIff(a); }
  }

  lemma ResolvesIff(id: string)
    ensures ResolvePath(id).Some? <==> ValidGraphId(id)
  {
  }

  // A slash and an underscore are alike.
  lemma SlashIsUnderscore()
    ensures ValidGraphId("a/b") && ValidGraphId("a_b") && ResolvePath("a/b") == ResolvePath("a_b")
    ensures ResolvePath("a/b") == Some(Path("a_b", "actual"))
  {
    hide SlugChars;
    NoDots("a/b", "");
    NoDots("a_b", "");
    ColonIff("a/b");
    ColonIff("a_b");
    ResolvedParts("a/b");
    ResolvedParts("a_b");
    CharsKept("actual");
    SlugOfSafe("actual");
    assert ResolvePath("a/b").value.slug == "a_b" && ResolvePath("a_b").value.slug == "a_b";
  }

  // ---- What is refused ----

  // The segment from i to j stands between slashes of either kind or at the ends of s.
  ghost predicate Segment(s: string, i: int, j: int) {
    && 0 <= i <= j <= |s| && (i == 0 || s[i - 1] in {'/', '\\'}) && (j == |s| || s[j] in {'/', '\\'})
    && forall k :: i <= k < j ==> s[k] !in {'/', '\\'}
  }

  ghost predicate DotDotFrom(s: string, m: int) {
    exists i, j :: m <= i && Segment(s, i, j) && s[i..j] == ".."
  }

  // The reading has come to n, in a segment that begins at m.
  lemma {:induction false} DotDotReads(s: string, m: nat, n: nat)
    requires m <= n <= |s| && (m == 0 || IsSeparator(s[m - 1])) && forall k :: m <= k < n ==> !IsSeparator(s[k])
    ensures HasDotDot(s[n..], s[m..n]) <==> DotDotFrom(s, m)
    decreases |s| - n
  {
    hide HasDotDot;
    DotDotStep(s[n..], s[m..n]);
    if n == |s| {
      assert Segment(s, m, n);
      forall i, j | m <= i && Segment(s, i, j) ensures i == m && j == n { }
    } else {
      assert s[n..][1..] == s[n + 1..] && s[n..][0] == s[n];
      if IsSeparator(s[n]) {
        assert s[n + 1..n + 1] == "";
        DotDotReads(s, n + 1, n + 1);
        assert Segment(s, m, n);
        forall i, j | m <= i && Segment(s, i, j) ensures (i == m && j == n) || n + 1 <= i { }
      } else {
        assert s[m..n] + [s[n]] == s[m..n + 1];
        DotDotReads(s, m, n + 1);
      }
    }
  }

  lemma DotDotStep(s: string, seg: string)
    ensures HasDotDot(s, seg) ==
            if s == "" then seg == ".."
            else if IsSeparator(s[0]) then seg == ".." || HasDotDot(s[1..], "")
            else HasDotDot(s[1..], seg + [s[0]])
  {
  }

  // An id is valid exactly if it is not empty and neither of its parts has a segment "..".
  lemma ValidIff(id: string)
    ensures ValidGraphId(id) <==> id != "" && !DotDotFrom(SlugPart(id), 0) && !DotDotFrom(VariantPart(id), 0)
  {
    hide HasDotDot, DotDotFrom, LastColon;
    ColonIff(id);
    DotDotAnywhere(SlugPart(id));
    DotDotAnywhere(VariantPart(id));
    NoDots("actual", "");
  }

  lemma DotDotAnywhere(s: string)
    ensures HasDotDot(s, "") <==> DotDotFrom(s, 0)
  {
    hide HasDotDot, DotDotFrom;
    assert s[0..] == s && s[0..0] == "";
    DotDotReads(s, 0, 0);
  }

  lemma {:induction false} NoDots(s: string, seg: string)
    requires '.' !in s && seg != ".." && '.' !in seg
    ensures !HasDotDot(s, seg)
  {
    if s != "" {
      NoDots(s[1..], if IsSeparator(s[0]) then "" else seg + [s[0]]);
    }
  }

  lemma {:induction false} SlugOfSafe(s: string)
    requires forall c :: c in s ==> SafeChar(c)
    ensures SlugChars(s) == s
  {
    if s != "" {
      assert s[0] in s;
      SlugOfSafe(s[1..]);
      assert s == [s[0]] + s[1..];
    }
  }

  lemma LastColonIs(s: string, i: nat)
    requires i < |s| && s[i] == ':' && ':' !in s[i + 1..]
    ensures LastColon(s) == i
  {
    hide LastColon;
    forall j | i < j < |s| ensures s[j] != ':' { assert s[j] == s[i + 1..][j - i - 1]; }
  }

  lemma NoColon(s: string)
    requires ':' !in s
    ensures LastColon(s) == -1
  {
    hide LastColon;
  }

  // The default variant has two names: any valid id without a colon and the same id with
  // ":actual" address one file.
  lemma DefaultVariantAliases(id: string)
    requires ValidGraphId(id) && ':' !in id
    ensures id + ":actual" != id
    ensures ResolvePath(id) == ResolvePath(id + ":actual") == Some(Path(Slug(id), "actual"))
  {
    hide HasDotDot, LastColon, SlugChars;
    var long := id + ":actual";
    var i := |id|;
    assert long[i] == ':' && long[i + 1..] == "actual" && long[..i] == id;
    LastColonIs(long, i);
    NoColon(id);
    NoDots("actual", "");
    SlugOfSafe("actual");
  }
}
