// What the git helper of scripts/github-utils/signed-commit.js makes of git's output: the text is
// trimmed at both ends, and a listing of paths is split at its NUL characters.
module GitOutput {
  import opened Delimited

  // ---------- String.prototype.trim ----------

  // White space and line terminators of ECMAScript.
  predicate IsWhite(c: char) {
    var n := c as int;
    || 9 <= n <= 13 || n == 0x20 || n == 0xA0 || n == 0x1680 || 0x2000 <= n <= 0x200A
    || n == 0x2028 || n == 0x2029 || n == 0x202F || n == 0x205F || n == 0x3000 || n == 0xFEFF
  }

  function TrimStart(s: string): string {
    if s != "" && IsWhite(s[0]) then TrimStart(s[1..]) else s
  }

  function TrimEnd(s: string): string {
    if s != "" && IsWhite(s[|s| - 1]) then TrimEnd(s[..|s| - 1]) else s
  }

  function Trim(s: string): string {
    TrimEnd(TrimStart(s))
  }

  lemma {:induction false} TrimStartShortens(s: string)
    ensures |TrimStart(s)| <= |s| && (TrimStart(s) != s ==> |TrimStart(s)| < |s|)
    ensures TrimStart(s) == s <==> s == "" || !IsWhite(s[0])
    ensures forall c :: c in TrimStart(s) ==> c in s
  {
    if s != "" && IsWhite(s[0]) {
      TrimStartShortens(s[1..]);
      assert forall c :: c in s[1..] ==> c in s;
    }
  }

  lemma {:induction false} TrimEndShortens(s: string)
    ensures |TrimEnd(s)| <= |s|
    ensures TrimEnd(s) == s <==> s == "" || !IsWhite(s[|s| - 1])
  {
    if s != "" && IsWhite(s[|s| - 1]) { TrimEndShortens(s[..|s| - 1]); }
  }

  // A text survives exactly when neither end is white.
  lemma TrimKeepsExactly(s: string)
    ensures Trim(s) == s <==> s == "" || (!IsWhite(s[0]) && !IsWhite(s[|s| - 1]))
  {
    TrimStartShortens(s);
    TrimEndShortens(TrimStart(s));
    TrimEndShortens(s);
  }

  predicate AllWhite(s: string) {
    forall c :: c in s ==> IsWhite(c)
  }

  lemma {:induction false} TrimStartDrops(s: string) returns (white: string)
    ensures s == white + TrimStart(s) && AllWhite(white)
    ensures TrimStart(s) != "" ==> !IsWhite(TrimStart(s)[0])
  {
    if s != "" && IsWhite(s[0]) {
      white := TrimStartDrops(s[1..]);
      white := [s[0]] + white;
    } else {
      white := "";
    }
  }

  lemma {:induction false} TrimEndDrops(s: string) returns (white: string)
    ensures s == TrimEnd(s) + white && AllWhite(white)
    ensures TrimEnd(s) != "" ==> !IsWhite(TrimEnd(s)[|TrimEnd(s)| - 1])
  {
    if s != "" && IsWhite(s[|s| - 1]) {
      white := TrimEndDrops(s[..|s| - 1]);
      white := white + [s[|s| - 1]];
    } else {
      white := "";
    }
  }

  // What is trimmed away is white space at the ends, and all of it.
  lemma TrimDrops(s: string) returns (front: string, back: string)
    ensures s == front + Trim(s) + back && AllWhite(front) && AllWhite(back)
    ensures Trim(s) != "" ==> !IsWhite(Trim(s)[0]) && !IsWhite(Trim(s)[|Trim(s)| - 1])
  {
    front := TrimStartDrops(s);
    back := TrimEndDrops(TrimStart(s));
    assert Trim(s) != "" ==> TrimStart(s)[0] == Trim(s)[0];
  }

  // The white characters, one by one.
  lemma WhiteCharacters(c: char)
    ensures Trim([c]) == "" <==>
            c as int in {0x09, 0x0A, 0x0B, 0x0C, 0x0D, 0x20, 0xA0, 0x1680, 0x2000, 0x2001, 0x2002, 0x2003, 0x2004,
                         0x2005, 0x2006, 0x2007, 0x2008, 0x2009, 0x200A, 0x2028, 0x2029, 0x202F, 0x205F, 0x3000, 0xFEFF}
  {
    TrimKeepsExactly([c]);
    assert IsWhite(c) ==> TrimStart([c]) == TrimStart("");
  }

  // The first NUL stops the trimming.
  lemma {:induction false} TrimStartStops(s: string, rest: string)
    ensures TrimStart(s + [NUL] + rest) == TrimStart(s) + [NUL] + rest
  {
    var all := s + [NUL] + rest;
    if s == "" {
      assert all[0] == NUL;
    } else {
      assert all[0] == s[0] && all[1..] == s[1..] + [NUL] + rest;
      if IsWhite(s[0]) { TrimStartStops(s[1..], rest); }
    }
  }

  // ---------- The order of a listing ----------

  // Git lists paths by their bytes, which in UTF-8 is by their characters.
  predicate Before(a: string, b: string) {
    if b == "" then false
    else if a == "" then true
    else if a[0] != b[0] then a[0] < b[0]
    else Before(a[1..], b[1..])
  }

  // One text is before another if it is a proper prefix, or has the smaller character where they
  // first differ.
  lemma {:induction false} BeforeExactly(a: string, b: string)
    ensures Before(a, b) <==>
            (a < b || exists k :: 0 <= k < |a| && k < |b| && a[..k] == b[..k] && a[k] < b[k])
  {
    if a != "" && b != "" && a[0] == b[0] {
      BeforeExactly(a[1..], b[1..]);
      assert a == [a[0]] + a[1..] && b == [b[0]] + b[1..];
      if k :| 0 <= k < |a[1..]| && k < |b[1..]| && a[1..][..k] == b[1..][..k] && a[1..][k] < b[1..][k] {
        assert a[..k + 1] == [a[0]] + a[1..][..k] && b[..k + 1] == [b[0]] + b[1..][..k];
        assert a[k + 1] < b[k + 1];
      }
      if k :| 0 <= k < |a| && k < |b| && a[..k] == b[..k] && a[k] < b[k] {
        assert a[1..][..k - 1] == a[..k][1..] && b[1..][..k - 1] == b[..k][1..];
        assert a[1..][k - 1] < b[1..][k - 1];
      }
    } else if a != "" && b != "" && a[0] < b[0] {
      assert a[..0] == b[..0];
    }
  }

  lemma {:induction false} BeforeIsTotal(a: string, b: string)
    ensures Before(a, b) || a == b || Before(b, a)
    ensures !(Before(a, b) && Before(b, a)) && !Before(a, a)
  {
    if a != "" && b != "" && a[0] == b[0] {
      BeforeIsTotal(a[1..], b[1..]);
      assert a == [a[0]] + a[1..] && b == [b[0]] + b[1..];
    }
    if a != "" { BeforeIsTotal(a[1..], a[1..]); }
  }

  lemma {:induction false} BeforeIsTransitive(a: string, b: string, c: string)
    requires Before(a, b) && Before(b, c)
    ensures Before(a, c)
  {
    if a != "" && a[0] == b[0] == c[0] { BeforeIsTransitive(a[1..], b[1..], c[1..]); }
  }

  predicate IsLeast(p: string, paths: set<string>) {
    p in paths && forall q :: q in paths ==> q == p || Before(p, q)
  }

  lemma LeastBelow(p: string, least: string, paths: set<string>)
    requires p in paths && IsLeast(least, paths - {p}) && Before(p, least)
    ensures IsLeast(p, paths)
  {
    forall q | q in paths
      ensures q == p || Before(p, q)
    {
      if q != p && q != least { BeforeIsTransitive(p, least, q); }
    }
  }

  lemma {:induction false} LeastExists(paths: set<string>)
    requires paths != {}
    ensures exists p :: IsLeast(p, paths)
    decreases |paths|
  {
    var p :| p in paths;
    var rest := paths - {p};
    if rest == {} {
      forall q | q in paths
        ensures q == p
      {
        assert q in rest <==> q != p;
      }
      assert IsLeast(p, paths);
    } else {
      LeastExists(rest);
      var least :| IsLeast(least, rest);
      BeforeIsTotal(least, p);
      if Before(least, p) {
        assert IsLeast(least, paths);
      } else {
        LeastBelow(p, least, paths);
      }
    }
  }

  lemma LeastIsUnique(paths: set<string>, p: string, q: string)
    requires IsLeast(p, paths) && IsLeast(q, paths)
    ensures p == q
  {
    BeforeIsTotal(p, q);
  }

  lemma LeastIsDetermined(paths: set<string>)
    requires paths != {}
    ensures exists p :: IsLeast(p, paths)
    ensures forall p, q :: IsLeast(p, paths) && IsLeast(q, paths) ==> p == q
  {
    LeastExists(paths);
    forall p, q | IsLeast(p, paths) && IsLeast(q, paths)
      ensures p == q
    {
      LeastIsUnique(paths, p, q);
    }
  }

  function Least(paths: set<string>): (p: string)
    requires paths != {}
    ensures IsLeast(p, paths)
  {
    LeastIsDetermined(paths);
    var p :| p in paths && IsLeast(p, paths);
    p
  }

  // The paths in order.
  function Listed(paths: set<string>): (listed: seq<string>)
    ensures forall p :: p in listed <==> p in paths
    ensures paths != {} ==> listed != [] && listed[0] == Least(paths)
    decreases |paths|
  {
    if paths == {} then [] else [Least(paths)] + Listed(paths - {Least(paths)})
  }

  lemma {:induction false} ListedAscends(paths: set<string>)
    ensures forall a, b :: 0 <= a < b < |Listed(paths)| ==> Before(Listed(paths)[a], Listed(paths)[b])
    decreases |paths|
  {
    if paths != {} {
      var rest := Listed(paths - {Least(paths)});
      ListedAscends(paths - {Least(paths)});
      forall b | 0 <= b < |rest|
        ensures Before(Least(paths), rest[b])
      {
        assert rest[b] in rest;
      }
    }
  }

  // ---------- The listing as it is parsed ----------

  predicate IsPath(p: string) {
    p != "" && NUL !in p
  }

  ghost predicate ArePaths(paths: set<string>) {
    forall p :: p in paths ==> IsPath(p)
  }

  // .filter(Boolean)
  function NonEmpty(lines: seq<string>): (r: seq<string>)
    ensures forall l :: l in r <==> l in lines && l != ""
  {
    if lines == [] then []
    else
      var init, last := lines[..|lines| - 1], lines[|lines| - 1];
      assert lines == init + [last];
      NonEmpty(init) + if last == "" then [] else [last]
  }

  function Parsed(paths: set<string>): seq<string> {
    NonEmpty(Split(Trim(Join(Listed(paths), NUL)), NUL))
  }

  lemma JoinEnds(records: seq<string>)
    ensures records != [] ==> Join(records, NUL) != "" && Join(records, NUL)[|Join(records, NUL)| - 1] == NUL
  {
  }

  // The listing of some paths loses the white space in front of the first one.
  lemma TrimmedListing(first: string, others: seq<string>)
    ensures Trim(Join([first] + others, NUL)) == Join([TrimStart(first)] + others, NUL)
  {
    var rest := Join(others, NUL);
    JoinAppend([first], others, NUL);
    JoinAppend([TrimStart(first)], others, NUL);
    JoinOne(first, NUL);
    JoinOne(TrimStart(first), NUL);
    TrimStartStops(first, rest);
    var trimmed := TrimStart(first) + [NUL] + rest;
    JoinEnds(others);
    assert trimmed[|trimmed| - 1] == NUL;
  }

  // The lines of the trimmed listing.
  lemma ListingLines(paths: set<string>)
    requires ArePaths(paths) && paths != {}
    ensures Split(Trim(Join(Listed(paths), NUL)), NUL)
            == [TrimStart(Least(paths))] + Listed(paths - {Least(paths)}) + [""]
  {
    var first, others := Least(paths), Listed(paths - {Least(paths)});
    var records := [TrimStart(first)] + others;
    TrimmedListing(first, others);
    TrimStartShortens(first);
    forall i | 0 <= i < |records|
      ensures NUL !in records[i]
    {
      if i > 0 { assert records[i] == others[i - 1] && others[i - 1] in others; }
    }
    SplitRecords(records, "", NUL);
    assert Join(records, NUL) + "" == Join(records, NUL);
  }

  // What is parsed: all paths but the first, and the first without the white space in front of it.
  lemma ParsedMembers(paths: set<string>, p: string)
    requires ArePaths(paths)
    ensures p in Parsed(paths) <==>
            paths != {} && p != "" && ((p in paths && p != Least(paths)) || p == TrimStart(Least(paths)))
  {
    if paths == {} {
      assert Join(Listed(paths), NUL) == "" && Trim("") == "" && Split("", NUL) == [""];
    } else {
      ListingLines(paths);
    }
  }

  // White space in front of the first path.
  predicate FirstIsBlank(paths: set<string>) {
    paths != {} && Least(paths) != "" && IsWhite(Least(paths)[0])
  }

  // The parsed paths are the listed ones exactly when there is none.
  lemma ParsedExactly(paths: set<string>)
    requires ArePaths(paths)
    ensures (forall p :: p in Parsed(paths) <==> p in paths) <==> !FirstIsBlank(paths)
    ensures FirstIsBlank(paths) ==> Least(paths) !in Parsed(paths)
  {
    forall p
      ensures p in Parsed(paths) <==>
              paths != {} && p != "" && ((p in paths && p != Least(paths)) || p == TrimStart(Least(paths)))
    {
      ParsedMembers(paths, p);
    }
    if paths != {} { TrimStartShortens(Least(paths)); }
  }

  // Nothing at all is parsed exactly when there is no path, or a single one that is all white space.
  lemma ParsedNothing(paths: set<string>)
    requires ArePaths(paths)
    ensures Parsed(paths) == [] <==> paths == {} || (paths == {Least(paths)} && TrimStart(Least(paths)) == "")
  {
    forall p
      ensures p in Parsed(paths) <==>
              paths != {} && p != "" && ((p in paths && p != Least(paths)) || p == TrimStart(Least(paths)))
    {
      ParsedMembers(paths, p);
    }
    if Parsed(paths) == [] {
      forall p | p in paths
        ensures p == Least(paths)
      {
        assert p == Least(paths) || p in Parsed(paths);
      }
      assert paths != {} ==> TrimStart(Least(paths)) == "" || TrimStart(Least(paths)) in Parsed(paths);
      assert paths != {} ==> paths == {Least(paths)};
    } else {
      assert Parsed(paths)[0] in Parsed(paths);
    }
  }
}
