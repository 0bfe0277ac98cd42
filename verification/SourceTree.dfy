// The tree of sources that the analyze file describes, and what its walks and sums amount to.
module SourceTree {
  import opened Wrappers
  import opened Sequences
  import opened SourcePaths

  datatype Source = Source(parent: Option<nat>, path: string)

  datatype ChunkPart = ChunkPart(sourceIndex: nat, outputFileIndex: nat, size: nat, compressedSize: nat)

  // What a reader of the file sees; a table has no entry past its end.
  datatype View = View(sources: seq<Source>, chunkParts: seq<ChunkPart>,
                       children: seq<seq<nat>>, sourceParts: seq<seq<nat>>, fileParts: seq<seq<nat>>) {
    function Children(i: nat): seq<nat> {
      if i < |children| then children[i] else []
    }

    function Parts(i: nat): seq<nat> {
      if i < |sourceParts| then sourceParts[i] else []
    }
  }

  // ---------- The tree a list of paths determines ----------

  // The indices, ascending, of the paths whose parent is `dir`.
  function ChildrenOf(paths: seq<string>, dir: string): seq<nat> {
    if paths == [] then []
    else
      var n := |paths| - 1;
      ChildrenOf(paths[..n], dir) + if paths[n] != "" && ParentPath(paths[n]) == dir then [n] else []
  }

  lemma {:induction false} ChildOf(paths: seq<string>, dir: string, c: nat)
    ensures c in ChildrenOf(paths, dir) <==> c < |paths| && paths[c] != "" && ParentPath(paths[c]) == dir
  {
    if paths != [] {
      ChildOf(paths[..|paths| - 1], dir, c);
    }
  }

  lemma {:induction false} ChildrenDistinct(paths: seq<string>, dir: string)
    ensures Distinct(ChildrenOf(paths, dir))
  {
    if paths != [] {
      var n := |paths| - 1;
      var before := ChildrenOf(paths[..n], dir);
      ChildrenDistinct(paths[..n], dir);
      forall a | 0 <= a < |before|
        ensures before[a] < n
      {
        ChildOf(paths[..n], dir, before[a]);
      }
    }
  }

  lemma {:induction false} ChildrenAscend(paths: seq<string>, dir: string)
    ensures Increasing(ChildrenOf(paths, dir))
  {
    if paths != [] {
      var n := |paths| - 1;
      var before := ChildrenOf(paths[..n], dir);
      ChildrenAscend(paths[..n], dir);
      forall a | 0 <= a < |before|
        ensures before[a] < n
      {
        ChildOf(paths[..n], dir, before[a]);
      }
    }
  }

  lemma ChildrenOfMembers(paths: seq<string>, dir: string)
    ensures Distinct(ChildrenOf(paths, dir))
    ensures forall c: nat :: c in ChildrenOf(paths, dir) <==>
            c < |paths| && paths[c] != "" && ParentPath(paths[c]) == dir
  {
    ChildrenDistinct(paths, dir);
    forall c: nat
      ensures c in ChildrenOf(paths, dir) <==> c < |paths| && paths[c] != "" && ParentPath(paths[c]) == dir
    {
      ChildOf(paths, dir, c);
    }
  }

  // The parent reference and the segment that belong to the source registered under `path`.
  ghost predicate Placed(s: Source, paths: seq<string>, path: string) {
    if path == "" then s == Source(None, "")
    else
      && s.parent.Some? && s.parent.value < |paths|
      && paths[s.parent.value] == ParentPath(path) && s.path == Segment(path)
  }

  ghost predicate IsTree(v: View, paths: seq<string>) {
    && |v.sources| == |v.children| == |paths|
    && Distinct(paths)
    && (forall i :: 0 <= i < |paths| ==> Placed(v.sources[i], paths, paths[i]))
    && (forall i :: 0 <= i < |paths| ==> v.children[i] == ChildrenOf(paths, paths[i]))
  }

  // Every child list holds exactly the sources that name its owner as parent, each once.
  lemma ParentsAndChildrenAgree(v: View, paths: seq<string>, i: nat, c: nat)
    requires IsTree(v, paths) && i < |paths|
    ensures c in v.Children(i) <==> c < |paths| && v.sources[c].parent == Some(i)
    ensures Distinct(v.Children(i))
  {
    ChildrenOfMembers(paths, paths[i]);
    if c < |paths| && paths[c] != "" && ParentPath(paths[c]) == paths[i] {
      var p := v.sources[c].parent.value;
      assert paths[p] == paths[i];
    }
  }

  lemma {:induction false} AncestorRegistered(v: View, paths: seq<string>, a: string, j: nat) returns (c: nat)
    requires IsTree(v, paths) && j < |paths| && IsAncestor(a, paths[j])
    ensures c < |paths| && paths[c] == a
    decreases |paths[j]|
  {
    if a == paths[j] {
      c := j;
    } else {
      assert Placed(v.sources[j], paths, paths[j]);
      c := AncestorRegistered(v, paths, a, v.sources[j].parent.value);
    }
  }

  // One source is the root: it is the only one without a parent.
  lemma OneRoot(v: View, paths: seq<string>) returns (root: nat)
    requires IsTree(v, paths) && paths != []
    ensures root < |paths| && paths[root] == "" && v.sources[root].parent == None
    ensures forall i :: 0 <= i < |paths| && v.sources[i].parent == None ==> i == root
  {
    RootIsAncestor(paths[0]);
    root := AncestorRegistered(v, paths, "", 0);
    assert Placed(v.sources[root], paths, paths[root]);
    forall i | 0 <= i < |paths| && v.sources[i].parent == None
      ensures i == root
    {
      assert Placed(v.sources[i], paths, paths[i]);
    }
  }

  // ---------- Walking down ----------

  // A measure that shrinks along child edges; the reader's recursions end only if there is one.
  ghost predicate Ranked(v: View, rank: nat -> nat) {
    forall i: nat, c: nat :: c in v.Children(i) ==> rank(c) < rank(i)
  }

  ghost function Walk(v: View, rank: nat -> nat, i: nat): seq<nat>
    requires Ranked(v, rank)
    decreases rank(i) + 1, 0
  {
    [i] + WalkAll(v, rank, v.Children(i), rank(i))
  }

  ghost function WalkAll(v: View, rank: nat -> nat, cs: seq<nat>, bound: nat): seq<nat>
    requires Ranked(v, rank)
    requires forall c: nat :: c in cs ==> rank(c) < bound
    decreases bound, |cs|
  {
    if cs == [] then [] else WalkAll(v, rank, cs[..|cs| - 1], bound) + Walk(v, rank, cs[|cs| - 1])
  }

  function Longest(paths: seq<string>): (m: nat)
    ensures forall p :: p in paths ==> |p| <= m
  {
    if paths == [] then 0
    else
      var m := Longest(paths[..|paths| - 1]);
      var last := paths[|paths| - 1];
      if |last| > m then |last| else m
  }

  // Children have longer paths than their parent.
  function Height(paths: seq<string>): nat -> nat {
    (i: nat) => if i < |paths| && |paths[i]| <= Longest(paths) then Longest(paths) - |paths[i]| else 0
  }

  lemma TreeIsRanked(v: View, paths: seq<string>)
    requires IsTree(v, paths)
    ensures Ranked(v, Height(paths))
  {
    forall i: nat, c: nat | c in v.Children(i)
      ensures Height(paths)(c) < Height(paths)(i)
    {
      ChildrenOfMembers(paths, paths[i]);
      SplitJoins(paths[c]);
      assert paths[c] in paths && paths[i] in paths;
    }
  }

  lemma {:induction false} WalkInRange(v: View, paths: seq<string>, rank: nat -> nat, i: nat)
    requires IsTree(v, paths) && Ranked(v, rank) && i < |paths|
    ensures forall j: nat :: j in Walk(v, rank, i) ==> j < |paths|
    decreases rank(i) + 1, 0
  {
    ChildrenOfMembers(paths, paths[i]);
    WalkAllInRange(v, paths, rank, v.Children(i), rank(i));
  }

  lemma {:induction false} WalkAllInRange(v: View, paths: seq<string>, rank: nat -> nat, cs: seq<nat>, bound: nat)
    requires IsTree(v, paths) && Ranked(v, rank)
    requires forall c: nat :: c in cs ==> c < |paths| && rank(c) < bound
    ensures forall j: nat :: j in WalkAll(v, rank, cs, bound) ==> j < |paths|
    decreases bound, |cs|
  {
    if cs != [] {
      var init := cs[..|cs| - 1];
      forall c: nat | c in init
        ensures c < |paths| && rank(c) < bound
      {
        assert c in cs;
      }
      WalkAllInRange(v, paths, rank, init, bound);
      WalkInRange(v, paths, rank, cs[|cs| - 1]);
    }
  }

  ghost predicate SomeAncestor(paths: seq<string>, cs: seq<nat>, q: string) {
    exists c: nat :: c in cs && c < |paths| && IsAncestor(paths[c], q)
  }

  lemma {:induction false} ParentOfAncestor(a: string, q: string)
    requires a != "" && IsAncestor(a, q)
    ensures IsAncestor(ParentPath(a), q)
    decreases |q|
  {
    if a != q { ParentOfAncestor(a, ParentPath(q)); }
  }

  // `j` lies below a child of `i` exactly when it lies properly below `i`.
  lemma ChildBelow(v: View, paths: seq<string>, i: nat, j: nat)
    requires IsTree(v, paths) && i < |paths| && j < |paths|
    ensures SomeAncestor(paths, v.Children(i), paths[j]) <==> IsAncestor(paths[i], paths[j]) && paths[i] != paths[j]
  {
    ChildrenOfMembers(paths, paths[i]);
    if SomeAncestor(paths, v.Children(i), paths[j]) {
      var c: nat :| c in v.Children(i) && c < |paths| && IsAncestor(paths[c], paths[j]);
      SplitJoins(paths[c]);
      AncestorIsPrefix(paths[c], paths[j]);
      ParentOfAncestor(paths[c], paths[j]);
    }
    if IsAncestor(paths[i], paths[j]) && paths[i] != paths[j] {
      var child := ChildTowards(paths[i], paths[j]);
      var c := AncestorRegistered(v, paths, child, j);
    }
  }

  // A walk from `i` meets each source below `i` exactly once, and no other.
  lemma {:induction false} WalkCount(v: View, paths: seq<string>, rank: nat -> nat, i: nat, j: nat)
    requires IsTree(v, paths) && Ranked(v, rank) && i < |paths| && j < |paths|
    ensures multiset(Walk(v, rank, i))[j] == if IsAncestor(paths[i], paths[j]) then 1 else 0
    decreases rank(i) + 1, 0
  {
    var cs := v.Children(i);
    ChildrenOfMembers(paths, paths[i]);
    WalkAllCount(v, paths, rank, cs, rank(i), paths[i], j);
    ChildBelow(v, paths, i, j);
    assert multiset(Walk(v, rank, i)) == multiset{i} + multiset(WalkAll(v, rank, cs, rank(i)));
    assert paths[i] == paths[j] ==> i == j;
  }

  lemma {:induction false} WalkAllCount(v: View, paths: seq<string>, rank: nat -> nat, cs: seq<nat>, bound: nat,
                                        dir: string, j: nat)
    requires IsTree(v, paths) && Ranked(v, rank) && j < |paths|
    requires Distinct(cs)
    requires forall c: nat :: c in cs ==>
             c < |paths| && rank(c) < bound && paths[c] != "" && ParentPath(paths[c]) == dir
    ensures multiset(WalkAll(v, rank, cs, bound))[j] == if SomeAncestor(paths, cs, paths[j]) then 1 else 0
    decreases bound, |cs|
  {
    if cs != [] {
      var init, last := cs[..|cs| - 1], cs[|cs| - 1];
      forall c: nat | c in init
        ensures c < |paths| && rank(c) < bound && paths[c] != "" && ParentPath(paths[c]) == dir
      {
        assert c in cs;
      }
      WalkAllCount(v, paths, rank, init, bound, dir, j);
      WalkCount(v, paths, rank, last, j);
      if SomeAncestor(paths, init, paths[j]) {
        var c: nat :| c in init && c < |paths| && IsAncestor(paths[c], paths[j]);
        assert c in cs;
        if IsAncestor(paths[last], paths[j]) {
          SiblingAncestorsCoincide(paths[c], paths[last], paths[j]);
          assert false;
        }
      }
      assert SomeAncestor(paths, cs, paths[j])
             <==> SomeAncestor(paths, init, paths[j]) || IsAncestor(paths[last], paths[j]);
    }
  }

  lemma {:induction false} UpToCounts(n: nat, j: nat)
    ensures multiset(UpTo(n))[j] == if j < n then 1 else 0
  {
    if n == 0 {
      assert UpTo(n) == [];
    } else {
      UpToCounts(n - 1, j);
      assert UpTo(n) == UpTo(n - 1) + [n - 1];
    }
  }

  // Walking down from the root reaches every source exactly once.
  lemma WalkFromRoot(v: View, paths: seq<string>, rank: nat -> nat, root: nat)
    requires IsTree(v, paths) && Ranked(v, rank) && root < |paths| && paths[root] == ""
    ensures multiset(Walk(v, rank, root)) == multiset(UpTo(|paths|))
  {
    var walk: seq<nat> := Walk(v, rank, root);
    var walked: multiset<nat>, all: multiset<nat> := multiset(walk), multiset(UpTo(|paths|));
    WalkInRange(v, paths, rank, root);
    forall j: nat
      ensures walked[j] == all[j]
    {
      UpToCounts(|paths|, j);
      if j < |paths| {
        WalkCount(v, paths, rank, root, j);
        RootIsAncestor(paths[j]);
      } else {
        assert j !in walk;
      }
    }
  }

  // ---------- Sizes ----------

  const EVERYTHING: nat -> bool := (i: nat) => true

  datatype Sizes = Sizes(size: nat, compressedSize: nat)

  // The weight of a chunk-part index; an index past the end is skipped.
  function PartWeight(parts: seq<ChunkPart>, weigh: ChunkPart -> nat): nat -> nat {
    (k: nat) => if k < |parts| then weigh(parts[k]) else 0
  }

  const BY_SIZE: ChunkPart -> nat := (p: ChunkPart) => p.size
  const BY_SOURCE: ChunkPart -> nat := (p: ChunkPart) => p.sourceIndex
  const BY_OUTPUT_FILE: ChunkPart -> nat := (p: ChunkPart) => p.outputFileIndex
  const BY_COMPRESSED_SIZE: ChunkPart -> nat := (p: ChunkPart) => p.compressedSize

  function OwnWeight(v: View, weigh: ChunkPart -> nat, i: nat): nat {
    Sum(PartWeight(v.chunkParts, weigh), v.Parts(i))
  }

  // Indices past the end weigh nothing, wherever they stand in a list.
  lemma {:induction false} StrayParts(parts: seq<ChunkPart>, weigh: ChunkPart -> nat, xs: seq<nat>, stray: seq<nat>)
    requires forall i :: 0 <= i < |stray| ==> stray[i] >= |parts|
    ensures Sum(PartWeight(parts, weigh), xs + stray) == Sum(PartWeight(parts, weigh), xs)
  {
    if stray == [] {
      assert xs + stray == xs;
    } else {
      var init := stray[..|stray| - 1];
      StrayParts(parts, weigh, xs, init);
      assert (xs + stray)[..|xs + stray| - 1] == xs + init;
    }
  }

  function VisibleWeight(v: View, weigh: ChunkPart -> nat, filter: nat -> bool): nat -> nat {
    (i: nat) => if filter(i) then OwnWeight(v, weigh, i) else 0
  }

  // What is below a source in all: the visible own weights over the walk from it.
  ghost function RecursiveWeight(v: View, rank: nat -> nat, weigh: ChunkPart -> nat, filter: nat -> bool, i: nat): nat
    requires Ranked(v, rank)
  {
    Sum(VisibleWeight(v, weigh, filter), Walk(v, rank, i))
  }

  function TotalWeight(parts: seq<ChunkPart>, weigh: ChunkPart -> nat): nat {
    if parts == [] then 0 else TotalWeight(parts[..|parts| - 1], weigh) + weigh(parts[|parts| - 1])
  }

  // The indices, ascending, of the parts that belong to owner `i`.
  function PartsOf(parts: seq<ChunkPart>, owner: ChunkPart -> nat, i: nat): seq<nat> {
    if parts == [] then []
    else
      var n := |parts| - 1;
      PartsOf(parts[..n], owner, i) + if owner(parts[n]) == i then [n] else []
  }

  lemma {:induction false} PartsOfMembers(parts: seq<ChunkPart>, owner: ChunkPart -> nat, i: nat)
    ensures forall k: nat :: k in PartsOf(parts, owner, i) <==> k < |parts| && owner(parts[k]) == i
  {
    if parts != [] {
      var n := |parts| - 1;
      PartsOfMembers(parts[..n], owner, i);
      assert forall k :: 0 <= k < n ==> parts[..n][k] == parts[k];
    }
  }

  lemma {:induction false} PartsAscend(parts: seq<ChunkPart>, owner: ChunkPart -> nat, i: nat)
    ensures Increasing(PartsOf(parts, owner, i))
  {
    if parts != [] {
      var n := |parts| - 1;
      var before := PartsOf(parts[..n], owner, i);
      PartsAscend(parts[..n], owner, i);
      PartsOfMembers(parts[..n], owner, i);
      assert forall a :: 0 <= a < |before| ==> before[a] in before;
    }
  }

  // The parts of a source weigh as much whether or not later parts have been added.
  lemma PartsOfExtended(parts: seq<ChunkPart>, owner: ChunkPart -> nat, weigh: ChunkPart -> nat, i: nat)
    requires parts != []
    ensures var n := |parts| - 1;
            Sum(PartWeight(parts, weigh), PartsOf(parts, owner, i))
            == Sum(PartWeight(parts[..n], weigh), PartsOf(parts[..n], owner, i))
               + if owner(parts[n]) == i then weigh(parts[n]) else 0
  {
    var n := |parts| - 1;
    var earlier := PartsOf(parts[..n], owner, i);
    PartsOfMembers(parts[..n], owner, i);
    SumAgrees(PartWeight(parts, weigh), PartWeight(parts[..n], weigh), earlier);
    if owner(parts[n]) == i {
      assert (earlier + [n])[..|earlier|] == earlier;
    } else {
      assert earlier + [] == earlier;
    }
  }

  function OwnedWeight(parts: seq<ChunkPart>, owner: ChunkPart -> nat, weigh: ChunkPart -> nat): nat -> nat {
    (i: nat) => Sum(PartWeight(parts, weigh), PartsOf(parts, owner, i))
  }

  lemma {:induction false} SumZero(xs: seq<nat>)
    ensures Sum(_ => 0, xs) == 0
  {
    if xs != [] { SumZero(xs[..|xs| - 1]); }
  }

  // Summing over the sources counts every part once.
  lemma {:induction false} PartsPartition(parts: seq<ChunkPart>, owner: ChunkPart -> nat, weigh: ChunkPart -> nat,
                                          n: nat)
    requires forall k :: 0 <= k < |parts| ==> owner(parts[k]) < n
    ensures Sum(OwnedWeight(parts, owner, weigh), UpTo(n)) == TotalWeight(parts, weigh)
  {
    var w := OwnedWeight(parts, owner, weigh);
    if parts == [] {
      SumAgrees(w, _ => 0, UpTo(n));
      SumZero(UpTo(n));
    } else {
      var last := |parts| - 1;
      var w0 := OwnedWeight(parts[..last], owner, weigh);
      PartsPartition(parts[..last], owner, weigh, n);
      forall i | 0 <= i < n
        ensures w(i) == w0(i) + if i == owner(parts[last]) then weigh(parts[last]) else 0
      {
        PartsOfExtended(parts, owner, weigh, i);
      }
      SumBumped(w0, w, n, owner(parts[last]), weigh(parts[last]));
    }
  }

  // `table` lists, owner by owner, the parts of each owner.
  ghost predicate ListsParts(table: seq<seq<nat>>, parts: seq<ChunkPart>, owner: ChunkPart -> nat) {
    && (forall k :: 0 <= k < |parts| ==> owner(parts[k]) < |table|)
    && (forall i :: 0 <= i < |table| ==> table[i] == PartsOf(parts, owner, i))
  }

  ghost predicate HoldsParts(v: View) {
    && |v.sourceParts| == |v.sources|
    && ListsParts(v.sourceParts, v.chunkParts, BY_SOURCE)
    && ListsParts(v.fileParts, v.chunkParts, BY_OUTPUT_FILE)
  }

  lemma AllVisible(v: View, weigh: ChunkPart -> nat, n: nat)
    requires HoldsParts(v) && n <= |v.sources|
    ensures Sum(VisibleWeight(v, weigh, EVERYTHING), UpTo(n))
            == Sum(OwnedWeight(v.chunkParts, BY_SOURCE, weigh), UpTo(n))
  {
    forall i: nat | i in UpTo(n)
      ensures VisibleWeight(v, weigh, EVERYTHING)(i) == OwnedWeight(v.chunkParts, BY_SOURCE, weigh)(i)
    {
      assert v.Parts(i) == PartsOf(v.chunkParts, BY_SOURCE, i);
    }
    SumAgrees(VisibleWeight(v, weigh, EVERYTHING), OwnedWeight(v.chunkParts, BY_SOURCE, weigh), UpTo(n));
  }

  // The unfiltered weight below the root is the weight of all chunk parts.
  lemma Conservation(v: View, paths: seq<string>, rank: nat -> nat, weigh: ChunkPart -> nat, root: nat)
    requires IsTree(v, paths) && Ranked(v, rank) && HoldsParts(v)
    requires root < |paths| && paths[root] == ""
    ensures RecursiveWeight(v, rank, weigh, EVERYTHING, root) == TotalWeight(v.chunkParts, weigh)
  {
    WalkFromRoot(v, paths, rank, root);
    SumPermuted(VisibleWeight(v, weigh, EVERYTHING), Walk(v, rank, root), UpTo(|paths|));
    AllVisible(v, weigh, |paths|);
    PartsPartition(v.chunkParts, BY_SOURCE, weigh, |paths|);
  }

  // ---------- Filtered weights below any source ----------

  // Below `i` in the tree, `i` included.
  ghost predicate Below(paths: seq<string>, i: nat, j: nat) {
    i < |paths| && j < |paths| && IsAncestor(paths[i], paths[j])
  }

  ghost function VisibleBelow(paths: seq<string>, filter: nat -> bool, i: nat): nat -> bool {
    (j: nat) => Below(paths, i, j) && filter(j)
  }

  // The weight of a part, if its source is below `i` and passes the filter.
  ghost function WeighBelow(paths: seq<string>, weigh: ChunkPart -> nat, filter: nat -> bool, i: nat)
    : ChunkPart -> nat
  {
    (p: ChunkPart) => if VisibleBelow(paths, filter, i)(p.sourceIndex) then weigh(p) else 0
  }

  lemma WalkCounts(v: View, paths: seq<string>, rank: nat -> nat, i: nat)
    requires IsTree(v, paths) && Ranked(v, rank) && i < |paths|
    ensures forall j: nat :: multiset(Walk(v, rank, i))[j] == if Below(paths, i, j) then 1 else 0
  {
    var walk: seq<nat> := Walk(v, rank, i);
    var walked: multiset<nat> := multiset(walk);
    WalkInRange(v, paths, rank, i);
    forall j: nat
      ensures walked[j] == if Below(paths, i, j) then 1 else 0
    {
      if j < |paths| {
        WalkCount(v, paths, rank, i, j);
      } else {
        assert j !in walk;
      }
    }
  }

  lemma OwnBelow(v: View, paths: seq<string>, weigh: ChunkPart -> nat, filter: nat -> bool, i: nat, j: nat)
    requires IsTree(v, paths) && HoldsParts(v) && i < |paths| && j < |paths|
    ensures Masked(VisibleWeight(v, weigh, filter), VisibleBelow(paths, EVERYTHING, i))(j)
            == OwnedWeight(v.chunkParts, BY_SOURCE, WeighBelow(paths, weigh, filter, i))(j)
  {
    var own, below := PartsOf(v.chunkParts, BY_SOURCE, j), WeighBelow(paths, weigh, filter, i);
    assert v.Parts(j) == own;
    PartsOfMembers(v.chunkParts, BY_SOURCE, j);
    if VisibleBelow(paths, filter, i)(j) {
      SumAgrees(PartWeight(v.chunkParts, weigh), PartWeight(v.chunkParts, below), own);
    } else {
      SumAgrees(_ => 0, PartWeight(v.chunkParts, below), own);
      SumZero(own);
    }
  }

  // For every source and every filter: the weight below the source is the weight of all chunk parts
  // whose source lies at or below it and passes the filter.
  lemma ConservationBelow(v: View, paths: seq<string>, rank: nat -> nat, weigh: ChunkPart -> nat,
                          filter: nat -> bool, i: nat)
    requires IsTree(v, paths) && Ranked(v, rank) && HoldsParts(v) && i < |paths|
    ensures RecursiveWeight(v, rank, weigh, filter, i)
            == TotalWeight(v.chunkParts, WeighBelow(paths, weigh, filter, i))
  {
    var visible, n := VisibleWeight(v, weigh, filter), |paths|;
    var keep, below := VisibleBelow(paths, EVERYTHING, i), WeighBelow(paths, weigh, filter, i);
    WalkCounts(v, paths, rank, i);
    SumSelected(visible, Walk(v, rank, i), n, keep);
    forall j: nat | j in UpTo(n)
      ensures Masked(visible, keep)(j) == OwnedWeight(v.chunkParts, BY_SOURCE, below)(j)
    {
      OwnBelow(v, paths, weigh, filter, i, j);
    }
    SumAgrees(Masked(visible, keep), OwnedWeight(v.chunkParts, BY_SOURCE, below), UpTo(n));
    PartsPartition(v.chunkParts, BY_SOURCE, below, n);
  }
}
