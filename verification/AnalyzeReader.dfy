// The reader of analyze.data: AnalyzeData in analyze-data.ts, and what a reader gets back from
// a file that analyze_output_assets wrote.
module AnalyzeReader {
  import opened Wrappers
  import opened Sequences
  import opened SourcePaths
  import opened SourceTree
  import opened EdgesFormat
  import opened AnalyzeBuilder

  // ---------- Full paths ----------

  // Parent references lead to sources of smaller `depth`; otherwise the recursion below does not end.
  ghost predicate ParentsRanked(sources: seq<Source>, depth: nat -> nat) {
    forall i :: 0 <= i < |sources| && sources[i].parent.Some? ==> depth(sources[i].parent.value) < depth(i)
  }

  function GetFullSourcePath(sources: seq<Source>, ghost depth: nat -> nat, index: nat): string
    requires ParentsRanked(sources, depth)
    decreases depth(index)
  {
    if index >= |sources| then ""
    else if sources[index].parent.None? then sources[index].path
    else GetFullSourcePath(sources, depth, sources[index].parent.value) + sources[index].path
  }

  function PathLength(paths: seq<string>): nat -> nat {
    (i: nat) => if i < |paths| then |paths[i]| else 0
  }

  lemma TreeParentsRanked(v: View, paths: seq<string>)
    requires IsTree(v, paths)
    ensures ParentsRanked(v.sources, PathLength(paths))
  {
  }

  // The segments along the parent chain add up to the path the source was registered under.
  lemma {:induction false} FullPathRoundTrip(v: View, paths: seq<string>, depth: nat -> nat, i: nat)
    requires IsTree(v, paths) && ParentsRanked(v.sources, depth) && i < |paths|
    ensures GetFullSourcePath(v.sources, depth, i) == paths[i]
    decreases depth(i)
  {
    assert Placed(v.sources[i], paths, paths[i]);
    if paths[i] != "" {
      FullPathRoundTrip(v, paths, depth, v.sources[i].parent.value);
      SplitJoins(paths[i]);
    }
  }

  // Source `i` is the last of the first `n` with this full path.
  ghost predicate LastWithPath(sources: seq<Source>, depth: nat -> nat, n: nat, path: string, i: nat)
    requires ParentsRanked(sources, depth)
  {
    && i < n && GetFullSourcePath(sources, depth, i) == path
    && forall j :: i < j < n ==> GetFullSourcePath(sources, depth, j) != path
  }

  method FullPathByWalking(sources: seq<Source>, ghost depth: nat -> nat, index: nat) returns (path: string)
    requires ParentsRanked(sources, depth)
    ensures path == GetFullSourcePath(sources, depth, index)
    decreases depth(index)
  {
    if index >= |sources| {
      return "";
    }
    if sources[index].parent.None? {
      return sources[index].path;
    }
    var parentPath := FullPathByWalking(sources, depth, sources[index].parent.value);
    path := parentPath + sources[index].path;
  }

  // The constructor's loop; a later source takes over a path that occurs twice.
  method BuildPathIndex(sources: seq<Source>, ghost depth: nat -> nat) returns (pathToSourceIndex: map<string, nat>)
    requires ParentsRanked(sources, depth)
    ensures forall p :: p in pathToSourceIndex ==> LastWithPath(sources, depth, |sources|, p, pathToSourceIndex[p])
    ensures forall i :: 0 <= i < |sources| ==> GetFullSourcePath(sources, depth, i) in pathToSourceIndex
  {
    pathToSourceIndex := map[];
    for i := 0 to |sources|
      invariant forall p :: p in pathToSourceIndex ==> LastWithPath(sources, depth, i, p, pathToSourceIndex[p])
      invariant forall j :: 0 <= j < i ==> GetFullSourcePath(sources, depth, j) in pathToSourceIndex
    {
      var fullPath := FullPathByWalking(sources, depth, i);
      pathToSourceIndex := pathToSourceIndex[fullPath := i];
    }
  }

  // On a written file the path index is the inverse of registration.
  lemma PathIndexInverts(v: View, paths: seq<string>, depth: nat -> nat, index: map<string, nat>, p: string, i: nat)
    requires IsTree(v, paths) && ParentsRanked(v.sources, depth)
    requires forall p :: p in index ==> LastWithPath(v.sources, depth, |v.sources|, p, index[p])
    requires forall i :: 0 <= i < |v.sources| ==> GetFullSourcePath(v.sources, depth, i) in index
    ensures p in index && index[p] == i <==> i < |paths| && paths[i] == p
  {
    if p in index { FullPathRoundTrip(v, paths, depth, index[p]); }
    if i < |paths| { FullPathRoundTrip(v, paths, depth, i); }
  }

  // ---------- Sizes ----------

  method GetOwnSizes(file: AnalyzeFile, ghost v: View, index: nat) returns (sizes: Sizes)
    requires Shows(file, v)
    ensures sizes == Sizes(OwnWeight(v, BY_SIZE, index), OwnWeight(v, BY_COMPRESSED_SIZE, index))
  {
    var read := ReadEdgesDataAtIndex(file.binary, file.header.sourceChunkParts, index);
    var chunkParts := read.value;
    assert chunkParts == v.Parts(index);
    var size, compressedSize := 0, 0;
    ghost var bySize, byCompressed := PartWeight(v.chunkParts, BY_SIZE), PartWeight(v.chunkParts, BY_COMPRESSED_SIZE);
    for k := 0 to |chunkParts|
      invariant size == Sum(bySize, chunkParts[..k]) && compressedSize == Sum(byCompressed, chunkParts[..k])
    {
      SumNext(bySize, chunkParts, k);
      SumNext(byCompressed, chunkParts, k);
      if chunkParts[k] < |file.header.chunkParts| {
        var chunkPart := file.header.chunkParts[chunkParts[k]];
        size := size + chunkPart.size;
        compressedSize := compressedSize + chunkPart.compressedSize;
      }
    }
    assert chunkParts[..|chunkParts|] == chunkParts;
    sizes := Sizes(size, compressedSize);
  }

  ghost function WalkSizes(v: View, filter: nat -> bool, walk: seq<nat>): Sizes {
    Sizes(Sum(VisibleWeight(v, BY_SIZE, filter), walk), Sum(VisibleWeight(v, BY_COMPRESSED_SIZE, filter), walk))
  }

  ghost function RecursiveSizes(v: View, rank: nat -> nat, filter: nat -> bool, index: nat): Sizes
    requires Ranked(v, rank)
  {
    Sizes(RecursiveWeight(v, rank, BY_SIZE, filter, index), RecursiveWeight(v, rank, BY_COMPRESSED_SIZE, filter, index))
  }

  lemma WalkSizesAppend(v: View, filter: nat -> bool, a: seq<nat>, b: seq<nat>)
    ensures WalkSizes(v, filter, a + b).size == WalkSizes(v, filter, a).size + WalkSizes(v, filter, b).size
    ensures WalkSizes(v, filter, a + b).compressedSize
            == WalkSizes(v, filter, a).compressedSize + WalkSizes(v, filter, b).compressedSize
  {
    SumAppend(VisibleWeight(v, BY_SIZE, filter), a, b);
    SumAppend(VisibleWeight(v, BY_COMPRESSED_SIZE, filter), a, b);
  }

  lemma OwnStep(v: View, filter: nat -> bool, i: nat)
    ensures WalkSizes(v, filter, [i])
            == if filter(i) then Sizes(OwnWeight(v, BY_SIZE, i), OwnWeight(v, BY_COMPRESSED_SIZE, i)) else Sizes(0, 0)
  {
    SumSingle(VisibleWeight(v, BY_SIZE, filter), i);
    SumSingle(VisibleWeight(v, BY_COMPRESSED_SIZE, filter), i);
  }

  method GetRecursiveSizes(file: AnalyzeFile, ghost v: View, ghost rank: nat -> nat, index: nat,
                           filterSource: nat -> bool)
    returns (sizes: Sizes)
    requires Shows(file, v) && Ranked(v, rank)
    ensures sizes == RecursiveSizes(v, rank, filterSource, index)
    decreases rank(index), 1
  {
    var own := Sizes(0, 0);
    if filterSource(index) {
      own := GetOwnSizes(file, v, index);
    }
    OwnStep(v, filterSource, index);
    var read := ReadEdgesDataAtIndex(file.binary, file.header.sourceChildren, index);
    assert read.value == v.Children(index);
    var below := AddChildren(file, v, rank, read.value, rank(index), filterSource);
    WalkSizesAppend(v, filterSource, [index], WalkAll(v, rank, v.Children(index), rank(index)));
    sizes := Sizes(own.size + below.size, own.compressedSize + below.compressedSize);
  }

  // The loop over the children.
  method AddChildren(file: AnalyzeFile, ghost v: View, ghost rank: nat -> nat, children: seq<nat>, ghost bound: nat,
                     filterSource: nat -> bool)
    returns (sizes: Sizes)
    requires Shows(file, v) && Ranked(v, rank)
    requires forall c: nat :: c in children ==> rank(c) < bound
    ensures sizes == WalkSizes(v, filterSource, WalkAll(v, rank, children, bound))
    decreases bound, 0
  {
    sizes := Sizes(0, 0);
    for k := 0 to |children|
      invariant sizes == WalkSizes(v, filterSource, WalkAll(v, rank, children[..k], bound))
    {
      assert children[k] in children;
      var child := GetRecursiveSizes(file, v, rank, children[k], filterSource);
      assert children[..k + 1][..k] == children[..k];
      WalkSizesAppend(v, filterSource, WalkAll(v, rank, children[..k], bound), Walk(v, rank, children[k]));
      sizes := Sizes(sizes.size + child.size, sizes.compressedSize + child.compressedSize);
    }
    assert children[..|children|] == children;
  }

  // ---------- Module counts ----------

  // A visible source that owns chunk parts counts as one module.
  function CountWeight(v: View, filter: nat -> bool): nat -> nat {
    (i: nat) => if filter(i) && |v.Parts(i)| > 0 then 1 else 0
  }

  ghost function ModuleCount(v: View, rank: nat -> nat, filter: nat -> bool, index: nat): nat
    requires Ranked(v, rank)
  {
    Sum(CountWeight(v, filter), Walk(v, rank, index))
  }

  method GetRecursiveModuleCount(file: AnalyzeFile, ghost v: View, ghost rank: nat -> nat, index: nat,
                                 filterSource: nat -> bool)
    returns (count: nat)
    requires Shows(file, v) && Ranked(v, rank)
    ensures count == ModuleCount(v, rank, filterSource, index)
    decreases rank(index), 1
  {
    var selfCount := 0;
    if filterSource(index) {
      var parts := ReadEdgesDataAtIndex(file.binary, file.header.sourceChunkParts, index);
      assert parts.value == v.Parts(index);
      selfCount := if |parts.value| > 0 then 1 else 0;
    }
    SumSingle(CountWeight(v, filterSource), index);
    var read := ReadEdgesDataAtIndex(file.binary, file.header.sourceChildren, index);
    assert read.value == v.Children(index);
    if |read.value| == 0 {
      assert Walk(v, rank, index) == [index];
      return selfCount;
    }
    var below := AddCounts(file, v, rank, read.value, rank(index), filterSource);
    SumAppend(CountWeight(v, filterSource), [index], WalkAll(v, rank, v.Children(index), rank(index)));
    count := selfCount + below;
  }

  // The loop over the children.
  method AddCounts(file: AnalyzeFile, ghost v: View, ghost rank: nat -> nat, children: seq<nat>, ghost bound: nat,
                   filterSource: nat -> bool)
    returns (count: nat)
    requires Shows(file, v) && Ranked(v, rank)
    requires forall c: nat :: c in children ==> rank(c) < bound
    ensures count == Sum(CountWeight(v, filterSource), WalkAll(v, rank, children, bound))
    decreases bound, 0
  {
    count := 0;
    for k := 0 to |children|
      invariant count == Sum(CountWeight(v, filterSource), WalkAll(v, rank, children[..k], bound))
    {
      assert children[k] in children;
      var child := GetRecursiveModuleCount(file, v, rank, children[k], filterSource);
      assert children[..k + 1][..k] == children[..k];
      SumAppend(CountWeight(v, filterSource), WalkAll(v, rank, children[..k], bound), Walk(v, rank, children[k]));
      count := count + child;
    }
    assert children[..|children|] == children;
  }

  lemma {:induction false} SumOfMembership(w: nat -> nat, n: nat, members: set<nat>)
    requires forall i: nat :: i < n ==> w(i) == if i in members then 1 else 0
    requires forall i: nat :: i in members ==> i < n
    ensures Sum(w, UpTo(n)) == |members|
  {
    if n > 0 {
      assert UpTo(n)[..n - 1] == UpTo(n - 1);
      SumOfMembership(w, n - 1, members - {n - 1});
    }
  }

  ghost function PathsAt(paths: seq<string>, at: set<nat>): set<string>
    requires forall i :: i in at ==> i < |paths|
  {
    set i | i in at :: paths[i]
  }

  lemma {:induction false} DistinctPathsAt(paths: seq<string>, at: set<nat>)
    requires Distinct(paths) && forall i :: i in at ==> i < |paths|
    ensures |PathsAt(paths, at)| == |at|
    decreases |at|
  {
    if i :| i in at {
      DistinctPathsAt(paths, at - {i});
      assert PathsAt(paths, at) == PathsAt(paths, at - {i}) + {paths[i]};
    }
  }

  ghost function RecordedPaths(records: seq<Record>): set<string> {
    set k | 0 <= k < |records| :: records[k].path
  }

  lemma OwnersAreRecorded(v: View, paths: seq<string>, records: seq<Record>, owners: set<nat>)
    requires IsTree(v, paths) && HoldsParts(v) && Recorded(v.chunkParts, records, paths)
    requires owners == set i | 0 <= i < |paths| && |v.Parts(i)| > 0
    ensures PathsAt(paths, owners) == RecordedPaths(records)
  {
    forall i | i in owners
      ensures paths[i] in RecordedPaths(records)
    {
      var k := v.Parts(i)[0];
      PartsOfMembers(v.chunkParts, BY_SOURCE, i);
      assert k in v.Parts(i) && Matches(v.chunkParts[k], records[k], paths);
    }
    forall k | 0 <= k < |records|
      ensures records[k].path in PathsAt(paths, owners)
    {
      assert Matches(v.chunkParts[k], records[k], paths);
      var i := v.chunkParts[k].sourceIndex;
      PartsOfMembers(v.chunkParts, BY_SOURCE, i);
      assert k in v.Parts(i) && i in owners;
    }
  }

  // The unfiltered count below the root is the number of different recorded sources.
  lemma ModuleCountExact(v: View, paths: seq<string>, rank: nat -> nat, records: seq<Record>, root: nat)
    requires IsTree(v, paths) && Ranked(v, rank) && HoldsParts(v) && Recorded(v.chunkParts, records, paths)
    requires root < |paths| && paths[root] == ""
    ensures ModuleCount(v, rank, EVERYTHING, root) == |RecordedPaths(records)|
  {
    var w, n := CountWeight(v, EVERYTHING), |paths|;
    var owners := set i | 0 <= i < n && |v.Parts(i)| > 0;
    WalkFromRoot(v, paths, rank, root);
    SumPermuted(w, Walk(v, rank, root), UpTo(n));
    SumOfMembership(w, n, owners);
    DistinctPathsAt(paths, owners);
    OwnersAreRecorded(v, paths, records, owners);
  }

  // The sources at or below source `i` that pass the filter and own a chunk part.
  ghost function OwnersBelow(v: View, paths: seq<string>, filter: nat -> bool, i: nat): set<nat> {
    set k | 0 <= k < |v.chunkParts| && VisibleBelow(paths, filter, i)(v.chunkParts[k].sourceIndex) ::
      v.chunkParts[k].sourceIndex
  }

  // For every source and every filter, the count is their number.
  lemma ModuleCountBelow(v: View, paths: seq<string>, rank: nat -> nat, filter: nat -> bool, i: nat)
    requires IsTree(v, paths) && Ranked(v, rank) && HoldsParts(v) && i < |paths|
    ensures ModuleCount(v, rank, filter, i) == |OwnersBelow(v, paths, filter, i)|
  {
    var w, keep, owners := CountWeight(v, filter), VisibleBelow(paths, EVERYTHING, i), OwnersBelow(v, paths, filter, i);
    WalkCounts(v, paths, rank, i);
    SumSelected(w, Walk(v, rank, i), |paths|, keep);
    forall j: nat | j < |paths|
      ensures Masked(w, keep)(j) == if j in owners then 1 else 0
    {
      assert v.Parts(j) == PartsOf(v.chunkParts, BY_SOURCE, j);
      PartsOfMembers(v.chunkParts, BY_SOURCE, j);
      if v.Parts(j) != [] { assert v.Parts(j)[0] in v.Parts(j); }
    }
    SumOfMembership(Masked(w, keep), |paths|, owners);
  }

  // ---------- End to end ----------

  function TotalOf(records: seq<Record>): Sizes {
    if records == [] then Sizes(0, 0)
    else
      var init, last := TotalOf(records[..|records| - 1]), records[|records| - 1];
      Sizes(init.size + last.size, init.compressedSize + last.compressedSize)
  }

  lemma {:induction false} RecordedTotals(parts: seq<ChunkPart>, records: seq<Record>, paths: seq<string>)
    requires Recorded(parts, records, paths)
    ensures TotalOf(records) == Sizes(TotalWeight(parts, BY_SIZE), TotalWeight(parts, BY_COMPRESSED_SIZE))
  {
    if records != [] {
      var n := |parts| - 1;
      assert Matches(parts[n], records[n], paths);
      assert Recorded(parts[..n], records[..n], paths);
      RecordedTotals(parts[..n], records[..n], paths);
    }
  }

  lemma NoSourcesNoParts(v: View, paths: seq<string>)
    requires IsTree(v, paths) && HoldsParts(v) && RootsOf(v.sources) == []
    ensures v.chunkParts == []
  {
    if paths != [] {
      var root := SingleRoot(v, paths);
    }
    PartsTableLength(v.sourceParts, v.chunkParts, BY_SOURCE);
  }

  lemma RootIsFirst(v: View, paths: seq<string>)
    requires IsTree(v, paths) && RootsOf(v.sources) != []
    ensures RootsOf(v.sources)[0] < |paths| && paths[RootsOf(v.sources)[0]] == ""
  {
    assert paths == [] ==> RootsOf(v.sources) == [];
    var root := SingleRoot(v, paths);
  }

  // Writing assets and reading the sizes below the root back gives exactly the recorded totals.
  method WriteAndReadTotals(assets: seq<Asset>) returns (totals: Option<Sizes>, ghost v: View, ghost paths: seq<string>)
    ensures IsTree(v, paths) && HoldsParts(v) && Recorded(v.chunkParts, RecordsOf(assets), paths)
    ensures OnlyAncestors(paths, RecordsOf(assets))
    ensures totals.Some? ==> totals.value == TotalOf(RecordsOf(assets))
    ensures totals.Some? <==> SectionFits(v)
  {
    var file;
    file, v, paths := AnalyzeOutputAssets(assets);
    RecordedTotals(v.chunkParts, RecordsOf(assets), paths);
    if file.None? {
      totals := None;
      return;
    }
    TreeIsRanked(v, paths);
    if |file.value.header.sourceRoots| == 0 {
      NoSourcesNoParts(v, paths);
      totals := Some(Sizes(0, 0));
      return;
    }
    var root := file.value.header.sourceRoots[0];
    RootIsFirst(v, paths);
    var sizes := GetRecursiveSizes(file.value, v, Height(paths), root, EVERYTHING);
    Conservation(v, paths, Height(paths), BY_SIZE, root);
    Conservation(v, paths, Height(paths), BY_COMPRESSED_SIZE, root);
    totals := Some(sizes);
  }
}
