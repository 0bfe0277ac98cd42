// Source paths: how analyze_output_assets names a source and splits a path into parent and segment.
module SourcePaths {

  const URL_PREFIX := "turbopack:///"
  const PROJECT_PREFIX := "[project]/"

  function TrimParentSteps(s: string): string {
    if "../" <= s then TrimParentSteps(s[3..]) else s
  }

  // The path under which a decoded chunk-part source is registered.
  function SourcePath(decoded: string): string {
    if URL_PREFIX <= decoded then decoded[|URL_PREFIX|..] else PROJECT_PREFIX + TrimParentSteps(decoded)
  }

  function TrimEndSlashes(path: string): (r: string)
    ensures r <= path
    ensures r != "" ==> r[|r| - 1] != '/'
  {
    if path != "" && path[|path| - 1] == '/' then TrimEndSlashes(path[..|path| - 1]) else path
  }

  // Where the last segment begins: just after the last slash that is not trailing.
  function AfterLastSlash(s: string): (pos: nat)
    ensures pos <= |s|
    ensures pos > 0 ==> s[pos - 1] == '/'
    ensures forall k :: pos <= k < |s| ==> s[k] != '/'
  {
    if s == "" then 0
    else if s[|s| - 1] == '/' then |s|
    else AfterLastSlash(s[..|s| - 1])
  }

  function SplitPoint(path: string): (pos: nat)
    ensures pos <= |path| && (path != "" ==> pos < |path|)
  {
    AfterLastSlash(TrimEndSlashes(path))
  }

  function ParentPath(path: string): string {
    path[..SplitPoint(path)]
  }

  function Segment(path: string): string {
    path[SplitPoint(path)..]
  }

  lemma SplitJoins(path: string)
    ensures ParentPath(path) + Segment(path) == path
    ensures path != "" ==> |ParentPath(path)| < |path| && Segment(path) != ""
  {
  }

  // A parent is the root or ends with a slash, and what follows it holds no slash but trailing ones.
  lemma ParentIsDirectory(path: string)
    ensures ParentPath(path) == "" || ParentPath(path)[|ParentPath(path)| - 1] == '/'
    ensures '/' !in TrimEndSlashes(path)[SplitPoint(path)..]
  {
  }

  lemma {:induction false} TrimmedAreSlashes(path: string)
    ensures forall i :: |TrimEndSlashes(path)| <= i < |path| ==> path[i] == '/'
  {
    if path != "" && path[|path| - 1] == '/' { TrimmedAreSlashes(path[..|path| - 1]); }
  }

  // After the first slash of a segment there are only slashes.
  lemma SegmentIsOne(path: string)
    ensures forall i, j :: 0 <= i < j < |Segment(path)| && Segment(path)[i] == '/' ==> Segment(path)[j] == '/'
  {
    TrimmedAreSlashes(path);
  }

  // A prefix that ends with a slash and is followed by another character.
  predicate EndsBefore(path: string, pos: nat) {
    0 < pos < |path| && path[pos - 1] == '/' && path[pos] != '/'
  }

  // The parent of a path is the longest such prefix, or the root if there is none.
  lemma ParentIsLongest(path: string)
    ensures ParentPath(path) <= path
    ensures ParentPath(path) != "" ==> EndsBefore(path, |ParentPath(path)|)
    ensures forall pos: nat :: EndsBefore(path, pos) ==> pos <= |ParentPath(path)|
  {
    TrimmedAreSlashes(path);
  }

  // Directories step by step: "src/lib/a.js" lies in "src/lib/", that in "src/", that in the root.
  lemma NestedDirectories()
    ensures ParentPath("src/lib/a.js") == "src/lib/" && Segment("src/lib/a.js") == "a.js"
    ensures ParentPath("src/lib/") == "src/" && Segment("src/lib/") == "lib/"
    ensures ParentPath("src/") == "" && Segment("src/") == "src/"
  {
    ParentIsLongest("src/lib/a.js");
    ParentIsLongest("src/lib/");
    ParentIsLongest("src/");
    assert EndsBefore("src/lib/a.js", 8) && EndsBefore("src/lib/", 4);
  }

  // ---------- Names of sources ----------

  // Parts of the project are registered under the rest of their URL.
  lemma ProjectSource(rest: string)
    ensures SourcePath("turbopack:///" + rest) == rest
  {
  }

  // `n` steps up.
  function StepsUp(n: nat): string {
    if n == 0 then "" else "../" + StepsUp(n - 1)
  }

  lemma {:induction false} StepsAreTrimmed(n: nat, rest: string)
    requires !("../" <= rest)
    ensures TrimParentSteps(StepsUp(n) + rest) == rest
  {
    if n == 0 {
      assert StepsUp(0) + rest == rest;
    } else {
      StepsAreTrimmed(n - 1, rest);
      var deeper := StepsUp(n - 1) + rest;
      assert StepsUp(n) + rest == "../" + deeper && ("../" + deeper)[3..] == deeper;
    }
  }

  // Any other source goes below "[project]/", without the steps up in front of it.
  lemma OtherSource(n: nat, rest: string)
    requires !("../" <= rest) && !("turbopack:///" <= StepsUp(n) + rest)
    ensures SourcePath(StepsUp(n) + rest) == "[project]/" + rest
  {
    StepsAreTrimmed(n, rest);
  }

  // ---------- Ancestors ----------

  predicate IsAncestor(p: string, q: string)
    decreases |q|
  {
    p == q || (q != "" && IsAncestor(p, ParentPath(q)))
  }

  lemma {:induction false} AncestorIsPrefix(p: string, q: string)
    requires IsAncestor(p, q)
    ensures p <= q
    decreases |q|
  {
    if p != q { AncestorIsPrefix(p, ParentPath(q)); }
  }

  lemma {:induction false} RootIsAncestor(q: string)
    ensures IsAncestor("", q)
    decreases |q|
  {
    if q != "" { RootIsAncestor(ParentPath(q)); }
  }

  // The ancestors of a path are itself, the root, and its prefixes that end with a slash and are
  // followed by another character.
  lemma {:induction false} AncestorExactly(p: string, q: string)
    ensures IsAncestor(p, q) <==> p == q || p == "" || (p <= q && EndsBefore(q, |p|))
    decreases |q|
  {
    RootIsAncestor(q);
    if q != "" {
      var parent := ParentPath(q);
      ParentIsLongest(q);
      AncestorExactly(p, parent);
      if p <= q && EndsBefore(q, |p|) && |p| < |parent| { assert EndsBefore(parent, |p|); }
    }
  }

  lemma {:induction false} AncestorsAreComparable(a: string, b: string, q: string)
    requires IsAncestor(a, q) && IsAncestor(b, q)
    ensures IsAncestor(a, b) || IsAncestor(b, a)
    decreases |q|
  {
    if a != q && b != q { AncestorsAreComparable(a, b, ParentPath(q)); }
  }

  // Two children of one directory are not both above the same path.
  lemma SiblingAncestorsCoincide(a: string, b: string, q: string)
    requires a != "" && b != "" && ParentPath(a) == ParentPath(b)
    requires IsAncestor(a, q) && IsAncestor(b, q)
    ensures a == b
  {
    AncestorsAreComparable(a, b, q);
    if a != b {
      if IsAncestor(a, b) {
        AncestorIsPrefix(a, ParentPath(b));
      } else {
        AncestorIsPrefix(b, ParentPath(a));
      }
    }
  }

  // Below a proper ancestor there is a child of it that is an ancestor too.
  lemma {:induction false} ChildTowards(p: string, q: string) returns (child: string)
    requires IsAncestor(p, q) && p != q
    ensures child != "" && ParentPath(child) == p && IsAncestor(child, q)
    decreases |q|
  {
    if ParentPath(q) == p {
      child := q;
    } else {
      child := ChildTowards(p, ParentPath(q));
    }
  }
}
