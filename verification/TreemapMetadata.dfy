// Precomputed totals of the treemap: precomputeSourceMetadata in treemap-layout.ts.
module TreemapMetadata {
  import opened Wrappers
  import opened Sequences
  import opened SourcePaths
  import opened SourceTree
  import opened AnalyzeBuilder

  datatype SourceMetadata = SourceMetadata(filtered: bool, size: nat, compressedSize: nat)

  // ---------- What the passes compute ----------

  predicate IsLeaf(v: View, i: nat) {
    v.Children(i) == []
  }

  // A leaf is hidden by the filter, a directory by having no visible child.
  ghost predicate Hidden(v: View, rank: nat -> nat, filter: nat -> bool, i: nat)
    requires Ranked(v, rank)
    decreases rank(i) + 1, 0
  {
    if IsLeaf(v, i) then !filter(i) else AllHidden(v, rank, filter, v.Children(i), rank(i))
  }

  ghost predicate AllHidden(v: View, rank: nat -> nat, filter: nat -> bool, cs: seq<nat>, bound: nat)
    requires Ranked(v, rank)
    requires forall c: nat :: c in cs ==> rank(c) < bound
    decreases bound, |cs|
  {
    cs == [] || (AllHidden(v, rank, filter, cs[..|cs| - 1], bound) && Hidden(v, rank, filter, cs[|cs| - 1]))
  }

  // The own weight, and for a directory the totals of its visible children.
  ghost function Total(v: View, rank: nat -> nat, weigh: ChunkPart -> nat, filter: nat -> bool, i: nat): nat
    requires Ranked(v, rank)
    decreases rank(i) + 1, 0
  {
    OwnWeight(v, weigh, i) + VisibleTotal(v, rank, weigh, filter, v.Children(i), rank(i))
  }

  ghost function VisibleTotal(v: View, rank: nat -> nat, weigh: ChunkPart -> nat, filter: nat -> bool, cs: seq<nat>,
                              bound: nat): nat
    requires Ranked(v, rank)
    requires forall c: nat :: c in cs ==> rank(c) < bound
    decreases bound, |cs|
  {
    if cs == [] then 0
    else
      var last := cs[|cs| - 1];
      VisibleTotal(v, rank, weigh, filter, cs[..|cs| - 1], bound)
      + if Hidden(v, rank, filter, last) then 0 else Total(v, rank, weigh, filter, last)
  }

  ghost function FinalMetadata(v: View, rank: nat -> nat, filter: nat -> bool, i: nat): SourceMetadata
    requires Ranked(v, rank)
  {
    SourceMetadata(Hidden(v, rank, filter, i), Total(v, rank, BY_SIZE, filter, i),
                   Total(v, rank, BY_COMPRESSED_SIZE, filter, i))
  }

  // The state after the first pass: directories are hidden and hold their own sizes.
  function InitialMetadata(v: View, filter: nat -> bool, i: nat): SourceMetadata {
    SourceMetadata(if IsLeaf(v, i) then !filter(i) else true, OwnWeight(v, BY_SIZE, i),
                   OwnWeight(v, BY_COMPRESSED_SIZE, i))
  }

  // The first pass: leaves have their filter result, directories count as hidden.
  lemma InitialExactly(v: View, filter: nat -> bool, i: nat)
    ensures InitialMetadata(v, filter, i).filtered <==> v.Children(i) != [] || !filter(i)
  {
  }

  // ---------- The passes ----------

  lemma LeafIsAlone(v: View, paths: seq<string>, i: nat, j: nat)
    requires IsTree(v, paths) && IsLeaf(v, i) && Below(paths, i, j)
    ensures i == j
  {
    ChildBelow(v, paths, i, j);
  }

  lemma LeafMetadata(v: View, rank: nat -> nat, filter: nat -> bool, i: nat)
    requires Ranked(v, rank) && IsLeaf(v, i)
    ensures InitialMetadata(v, filter, i) == FinalMetadata(v, rank, filter, i)
  {
    assert VisibleTotal(v, rank, BY_SIZE, filter, [], rank(i)) == 0;
    assert VisibleTotal(v, rank, BY_COMPRESSED_SIZE, filter, [], rank(i)) == 0;
  }

  // No source lies below two children of one directory, and the directory lies below none.
  lemma ChildrenApart(v: View, paths: seq<string>, idx: nat, k: nat, j: nat)
    requires IsTree(v, paths) && idx < |paths| && k < |v.Children(idx)| && Below(paths, v.Children(idx)[k], j)
    ensures !SomeAncestor(paths, v.Children(idx)[..k], paths[j])
    ensures j != idx && Below(paths, idx, j)
  {
    var cs := v.Children(idx);
    ChildrenOfMembers(paths, paths[idx]);
    assert cs[k] in cs;
    ChildBelow(v, paths, idx, j);
    if c: nat :| c in cs[..k] && c < |paths| && IsAncestor(paths[c], paths[j]) {
      assert c in cs;
      SiblingAncestorsCoincide(paths[c], paths[cs[k]], paths[j]);
    }
  }

  ghost predicate Untouched(v: View, paths: seq<string>, filter: nat -> bool, m: seq<SourceMetadata>, i: nat)
    requires |m| == |paths|
  {
    forall j: nat :: Below(paths, i, j) ==> m[j] == InitialMetadata(v, filter, j)
  }

  // `m` is `initial` but for the sources below the first children of a directory, which are final.
  ghost predicate Processed(v: View, paths: seq<string>, rank: nat -> nat, filter: nat -> bool,
                            initial: seq<SourceMetadata>, m: seq<SourceMetadata>, cs: seq<nat>)
    requires Ranked(v, rank) && |initial| == |m| == |paths|
  {
    forall j: nat :: j < |paths| ==>
      m[j] == if SomeAncestor(paths, cs, paths[j]) then FinalMetadata(v, rank, filter, j) else initial[j]
  }

  lemma NextUntouched(v: View, paths: seq<string>, rank: nat -> nat, filter: nat -> bool,
                      initial: seq<SourceMetadata>, m: seq<SourceMetadata>, idx: nat, k: nat)
    requires IsTree(v, paths) && Ranked(v, rank) && |initial| == |m| == |paths| && idx < |paths|
             && k < |v.Children(idx)|
    requires Untouched(v, paths, filter, initial, idx)
             && Processed(v, paths, rank, filter, initial, m, v.Children(idx)[..k])
    ensures Untouched(v, paths, filter, m, v.Children(idx)[k])
  {
    forall j: nat | Below(paths, v.Children(idx)[k], j)
      ensures m[j] == InitialMetadata(v, filter, j)
    {
      ChildrenApart(v, paths, idx, k, j);
    }
  }

  lemma NextProcessed(v: View, paths: seq<string>, rank: nat -> nat, filter: nat -> bool,
                      initial: seq<SourceMetadata>, m: seq<SourceMetadata>, m': seq<SourceMetadata>, cs: seq<nat>,
                      c: nat)
    requires Ranked(v, rank) && |initial| == |m| == |m'| == |paths| && c < |paths|
    requires Processed(v, paths, rank, filter, initial, m, cs)
    requires forall j: nat :: j < |paths| ==>
             m'[j] == if Below(paths, c, j) then FinalMetadata(v, rank, filter, j) else m[j]
    ensures Processed(v, paths, rank, filter, initial, m', cs + [c])
  {
  }

  // After a call for `idx` everything below it is final, and nothing else has changed.
  ghost predicate Finished(v: View, paths: seq<string>, rank: nat -> nat, filter: nat -> bool,
                           initial: seq<SourceMetadata>, m: seq<SourceMetadata>, idx: nat)
    requires Ranked(v, rank)
  {
    && |initial| == |m| == |paths|
    && forall j: nat :: j < |paths|
        ==> m[j] == if Below(paths, idx, j) then FinalMetadata(v, rank, filter, j) else initial[j]
  }

  lemma LeafFinished(v: View, paths: seq<string>, rank: nat -> nat, filter: nat -> bool, m: seq<SourceMetadata>,
                     idx: nat)
    requires IsTree(v, paths) && Ranked(v, rank) && |m| == |paths| && idx < |paths| && IsLeaf(v, idx)
    requires Untouched(v, paths, filter, m, idx)
    ensures Finished(v, paths, rank, filter, m, m, idx)
  {
    LeafMetadata(v, rank, filter, idx);
    forall j: nat | Below(paths, idx, j)
      ensures j == idx
    {
      LeafIsAlone(v, paths, idx, j);
    }
  }

  lemma DirectoryFinished(v: View, paths: seq<string>, rank: nat -> nat, filter: nat -> bool,
                          initial: seq<SourceMetadata>, m: seq<SourceMetadata>, idx: nat, totals: SourceMetadata)
    requires IsTree(v, paths) && Ranked(v, rank) && |initial| == |m| == |paths| && idx < |paths|
    requires Processed(v, paths, rank, filter, initial, m, v.Children(idx))
             && totals == FinalMetadata(v, rank, filter, idx)
    ensures Finished(v, paths, rank, filter, initial, m[idx := totals], idx)
  {
    forall j: nat | j < |paths|
      ensures m[idx := totals][j] == if Below(paths, idx, j) then FinalMetadata(v, rank, filter, j) else initial[j]
    {
      ChildBelow(v, paths, idx, j);
    }
  }

  method ProcessDirectory(v: View, ghost paths: seq<string>, ghost rank: nat -> nat, ghost filter: nat -> bool,
                          metadata: array<SourceMetadata>, idx: nat)
    requires IsTree(v, paths) && Ranked(v, rank) && metadata.Length == |paths| && idx < |paths|
    requires Untouched(v, paths, filter, metadata[..], idx)
    modifies metadata
    ensures Finished(v, paths, rank, filter, old(metadata[..]), metadata[..], idx)
    decreases rank(idx), 1
  {
    var children := v.Children(idx);
    ghost var before := metadata[..];
    assert Below(paths, idx, idx);
    if children == [] {
      LeafFinished(v, paths, rank, filter, before, idx);
      return;
    }
    var totals := ProcessChildren(v, paths, rank, filter, metadata, idx);
    ghost var after := metadata[..];
    metadata[idx] := totals;
    assert metadata[..] == after[idx := totals];
    DirectoryFinished(v, paths, rank, filter, before, after, idx, totals);
  }

  // A directory's entry as far as the given children go.
  ghost function PartTotals(v: View, rank: nat -> nat, filter: nat -> bool, idx: nat, cs: seq<nat>): SourceMetadata
    requires Ranked(v, rank) && forall c: nat :: c in cs ==> rank(c) < rank(idx)
  {
    SourceMetadata(AllHidden(v, rank, filter, cs, rank(idx)),
                   OwnWeight(v, BY_SIZE, idx) + VisibleTotal(v, rank, BY_SIZE, filter, cs, rank(idx)),
                   OwnWeight(v, BY_COMPRESSED_SIZE, idx)
                       + VisibleTotal(v, rank, BY_COMPRESSED_SIZE, filter, cs, rank(idx)))
  }

  lemma ChildrenStart(v: View, paths: seq<string>, rank: nat -> nat, filter: nat -> bool, before: seq<SourceMetadata>,
                      idx: nat)
    requires IsTree(v, paths) && Ranked(v, rank) && |before| == |paths| && idx < |paths|
    requires Untouched(v, paths, filter, before, idx)
    ensures Processed(v, paths, rank, filter, before, before, v.Children(idx)[..0])
    ensures PartTotals(v, rank, filter, idx, v.Children(idx)[..0])
            == SourceMetadata(true, before[idx].size, before[idx].compressedSize)
  {
  }

  lemma ChildrenEnd(v: View, rank: nat -> nat, filter: nat -> bool, idx: nat)
    requires Ranked(v, rank) && !IsLeaf(v, idx)
    ensures v.Children(idx)[..|v.Children(idx)|] == v.Children(idx)
    ensures PartTotals(v, rank, filter, idx, v.Children(idx)) == FinalMetadata(v, rank, filter, idx)
  {
  }

  // The loop over the children of a directory; it returns the directory's own new entry.
  method ProcessChildren(v: View, ghost paths: seq<string>, ghost rank: nat -> nat, ghost filter: nat -> bool,
                         metadata: array<SourceMetadata>, idx: nat) returns (totals: SourceMetadata)
    requires IsTree(v, paths) && Ranked(v, rank) && metadata.Length == |paths| && idx < |paths|
    requires !IsLeaf(v, idx) && Untouched(v, paths, filter, metadata[..], idx)
    modifies metadata
    ensures Processed(v, paths, rank, filter, old(metadata[..]), metadata[..], v.Children(idx))
    ensures totals == FinalMetadata(v, rank, filter, idx)
    decreases rank(idx), 0, 1
  {
    var children := v.Children(idx);
    ghost var before := metadata[..];
    ChildrenStart(v, paths, rank, filter, before, idx);
    totals := SourceMetadata(true, metadata[idx].size, metadata[idx].compressedSize);
    for k := 0 to |children|
      invariant Processed(v, paths, rank, filter, before, metadata[..], children[..k])
      invariant totals == PartTotals(v, rank, filter, idx, children[..k])
    {
      totals := ProcessChild(v, paths, rank, filter, metadata, idx, k, before, totals);
    }
    ChildrenEnd(v, rank, filter, idx);
  }

  function AddVisible(totals: SourceMetadata, child: SourceMetadata): SourceMetadata {
    if child.filtered then totals
    else SourceMetadata(false, totals.size + child.size, totals.compressedSize + child.compressedSize)
  }

  lemma ChildProcessed(v: View, paths: seq<string>, rank: nat -> nat, filter: nat -> bool,
                       before: seq<SourceMetadata>, here: seq<SourceMetadata>, after: seq<SourceMetadata>, idx: nat,
                       k: nat)
    requires Ranked(v, rank) && |before| == |here| == |after| == |paths|
    requires k < |v.Children(idx)| && v.Children(idx)[k] < |paths|
    requires Processed(v, paths, rank, filter, before, here, v.Children(idx)[..k])
    requires Finished(v, paths, rank, filter, here, after, v.Children(idx)[k])
    ensures Processed(v, paths, rank, filter, before, after, v.Children(idx)[..k + 1])
  {
    assert v.Children(idx)[..k + 1] == v.Children(idx)[..k] + [v.Children(idx)[k]];
    NextProcessed(v, paths, rank, filter, before, here, after, v.Children(idx)[..k], v.Children(idx)[k]);
  }

  lemma NextTotals(v: View, rank: nat -> nat, filter: nat -> bool, idx: nat, cs': seq<nat>, cs: seq<nat>, c: nat)
    requires Ranked(v, rank) && cs' == cs + [c] && forall d: nat :: d in cs' ==> rank(d) < rank(idx)
    requires forall d: nat :: d in cs ==> rank(d) < rank(idx)
    ensures PartTotals(v, rank, filter, idx, cs')
            == AddVisible(PartTotals(v, rank, filter, idx, cs), FinalMetadata(v, rank, filter, c))
  {
    assert cs'[..|cs|] == cs && cs'[|cs|] == c;
  }

  lemma ChildTotalled(v: View, rank: nat -> nat, filter: nat -> bool, idx: nat, k: nat)
    requires Ranked(v, rank) && k < |v.Children(idx)|
    ensures PartTotals(v, rank, filter, idx, v.Children(idx)[..k + 1])
            == AddVisible(PartTotals(v, rank, filter, idx, v.Children(idx)[..k]),
                          FinalMetadata(v, rank, filter, v.Children(idx)[k]))
  {
    NextTotals(v, rank, filter, idx, v.Children(idx)[..k + 1], v.Children(idx)[..k], v.Children(idx)[k]);
  }

  lemma ChildInTree(v: View, paths: seq<string>, rank: nat -> nat, idx: nat, c: nat)
    requires IsTree(v, paths) && Ranked(v, rank) && idx < |paths| && c in v.Children(idx)
    ensures c < |paths| && rank(c) < rank(idx) && Below(paths, c, c)
  {
    ChildrenOfMembers(paths, paths[idx]);
  }

  // One turn of that loop.
  method ProcessChild(v: View, ghost paths: seq<string>, ghost rank: nat -> nat, ghost filter: nat -> bool,
                      metadata: array<SourceMetadata>, idx: nat, k: nat, ghost before: seq<SourceMetadata>,
                      totals: SourceMetadata)
    returns (totals': SourceMetadata)
    requires IsTree(v, paths) && Ranked(v, rank) && metadata.Length == |before| == |paths| && idx < |paths|
    requires k < |v.Children(idx)| && Untouched(v, paths, filter, before, idx)
    requires Processed(v, paths, rank, filter, before, metadata[..], v.Children(idx)[..k])
    requires totals == PartTotals(v, rank, filter, idx, v.Children(idx)[..k])
    modifies metadata
    ensures Processed(v, paths, rank, filter, before, metadata[..], v.Children(idx)[..k + 1])
    ensures totals' == PartTotals(v, rank, filter, idx, v.Children(idx)[..k + 1])
    decreases rank(idx), 0, 0
  {
    var childIdx := v.Children(idx)[k];
    ghost var here := metadata[..];
    ChildInTree(v, paths, rank, idx, childIdx);
    NextUntouched(v, paths, rank, filter, before, here, idx, k);
    ProcessDirectory(v, paths, rank, filter, metadata, childIdx);
    ChildProcessed(v, paths, rank, filter, before, here, metadata[..], idx, k);
    ChildTotalled(v, rank, filter, idx, k);
    totals' := AddVisible(totals, metadata[childIdx]);
  }

  // The first pass over the array.
  method InitializeMetadata(v: View, filter: nat -> bool) returns (metadata: array<SourceMetadata>)
    ensures fresh(metadata) && metadata.Length == |v.sources|
    ensures forall j :: 0 <= j < |v.sources| ==> metadata[j] == InitialMetadata(v, filter, j)
  {
    metadata := new SourceMetadata[|v.sources|](_ => SourceMetadata(true, 0, 0));
    var i := |v.sources|;
    while i > 0
      invariant 0 <= i <= |v.sources|
      invariant forall j :: i <= j < |v.sources| ==> metadata[j] == InitialMetadata(v, filter, j)
    {
      i := i - 1;
      metadata[i] := InitialMetadata(v, filter, i);
    }
  }

  method PrecomputeSourceMetadata(v: View, ghost paths: seq<string>, ghost rank: nat -> nat, filter: nat -> bool,
                                  roots: seq<nat>)
    returns (metadata: array<SourceMetadata>)
    requires IsTree(v, paths) && Ranked(v, rank)
    requires paths != [] ==> |roots| == 1 && roots[0] < |paths| && paths[roots[0]] == ""
    requires paths == [] ==> roots == []
    ensures fresh(metadata) && metadata.Length == |paths|
    ensures forall i :: 0 <= i < |paths| ==> metadata[i] == FinalMetadata(v, rank, filter, i)
  {
    metadata := InitializeMetadata(v, filter);
    if |roots| > 0 {
      forall j: nat | j < |paths|
        ensures Below(paths, roots[0], j)
      {
        RootIsAncestor(paths[j]);
      }
      ghost var before := metadata[..];
      ProcessDirectory(v, paths, rank, filter, metadata, roots[0]);
      assert Finished(v, paths, rank, filter, before, metadata[..], roots[0]);
      assert forall j :: 0 <= j < |paths| ==> metadata[j] == metadata[..][j];
    }
  }

  // ---------- Hidden means no visible leaf below ----------

  ghost predicate VisibleLeaf(v: View, filter: nat -> bool, j: nat) {
    IsLeaf(v, j) && filter(j)
  }

  lemma {:induction false} HiddenExact(v: View, rank: nat -> nat, filter: nat -> bool, i: nat)
    requires Ranked(v, rank)
    ensures Hidden(v, rank, filter, i) <==> forall j: nat :: j in Walk(v, rank, i) ==> !VisibleLeaf(v, filter, j)
    decreases rank(i) + 1, 0
  {
    var cs := v.Children(i);
    AllHiddenExact(v, rank, filter, cs, rank(i));
    var walk: seq<nat>, below: seq<nat> := Walk(v, rank, i), WalkAll(v, rank, cs, rank(i));
    forall j: nat
      ensures j in walk <==> j == i || j in below
    {
      assert walk == [i] + below;
    }
    if IsLeaf(v, i) {
      assert below == [] && i in walk;
      assert Hidden(v, rank, filter, i) <==> !VisibleLeaf(v, filter, i);
    } else {
      assert !VisibleLeaf(v, filter, i);
      assert Hidden(v, rank, filter, i) <==> AllHidden(v, rank, filter, cs, rank(i));
      if AllHidden(v, rank, filter, cs, rank(i)) {
        forall j: nat | j in Walk(v, rank, i)
          ensures !VisibleLeaf(v, filter, j)
        {
          assert j == i || j in below;
        }
      } else {
        var j: nat :| j in below && VisibleLeaf(v, filter, j);
        assert j in walk;
      }
    }
  }

  lemma {:induction false} AllHiddenExact(v: View, rank: nat -> nat, filter: nat -> bool, cs: seq<nat>, bound: nat)
    requires Ranked(v, rank)
    requires forall c: nat :: c in cs ==> rank(c) < bound
    ensures AllHidden(v, rank, filter, cs, bound)
            <==> forall j: nat :: j in WalkAll(v, rank, cs, bound) ==> !VisibleLeaf(v, filter, j)
    decreases bound, |cs|
  {
    if cs != [] {
      var init, last := cs[..|cs| - 1], cs[|cs| - 1];
      AllHiddenExact(v, rank, filter, init, bound);
      HiddenExact(v, rank, filter, last);
      assert forall j: nat :: j in WalkAll(v, rank, cs, bound) <==>
             j in WalkAll(v, rank, init, bound) || j in Walk(v, rank, last);
    }
  }

  // ---------- Agreement with the direct recursion ----------

  // What a source adds to its parent's total.
  ghost function Shown(v: View, rank: nat -> nat, weigh: ChunkPart -> nat, filter: nat -> bool, i: nat): nat
    requires Ranked(v, rank)
  {
    if Hidden(v, rank, filter, i) then 0 else Total(v, rank, weigh, filter, i)
  }

  ghost function RecursiveBelow(v: View, rank: nat -> nat, weigh: ChunkPart -> nat, filter: nat -> bool, cs: seq<nat>,
                                bound: nat): nat
    requires Ranked(v, rank)
    requires forall c: nat :: c in cs ==> rank(c) < bound
  {
    Sum(VisibleWeight(v, weigh, filter), WalkAll(v, rank, cs, bound))
  }

  lemma RecursiveUnfolds(v: View, rank: nat -> nat, weigh: ChunkPart -> nat, filter: nat -> bool, i: nat)
    requires Ranked(v, rank)
    ensures RecursiveWeight(v, rank, weigh, filter, i)
            == VisibleWeight(v, weigh, filter)(i) + RecursiveBelow(v, rank, weigh, filter, v.Children(i), rank(i))
  {
    SumAppend(VisibleWeight(v, weigh, filter), [i], WalkAll(v, rank, v.Children(i), rank(i)));
    SumSingle(VisibleWeight(v, weigh, filter), i);
  }

  lemma RecursiveBelowSnoc(v: View, rank: nat -> nat, weigh: ChunkPart -> nat, filter: nat -> bool, cs: seq<nat>,
                           bound: nat)
    requires Ranked(v, rank) && cs != []
    requires forall c: nat :: c in cs ==> rank(c) < bound
    ensures RecursiveBelow(v, rank, weigh, filter, cs, bound)
            == RecursiveBelow(v, rank, weigh, filter, cs[..|cs| - 1], bound)
                + RecursiveWeight(v, rank, weigh, filter, cs[|cs| - 1])
  {
    SumAppend(VisibleWeight(v, weigh, filter), WalkAll(v, rank, cs[..|cs| - 1], bound), Walk(v, rank, cs[|cs| - 1]));
  }

  // If the children agree, so do the sums over them.
  lemma {:induction false} ChildrenAgree(v: View, rank: nat -> nat, weigh: ChunkPart -> nat, filter: nat -> bool,
                                         cs: seq<nat>, bound: nat)
    requires Ranked(v, rank)
    requires forall c: nat :: c in cs ==> rank(c) < bound
    requires forall c: nat :: c in cs ==> Shown(v, rank, weigh, filter, c) == RecursiveWeight(v, rank, weigh, filter, c)
    ensures VisibleTotal(v, rank, weigh, filter, cs, bound) == RecursiveBelow(v, rank, weigh, filter, cs, bound)
  {
    if cs == [] {
      assert WalkAll(v, rank, cs, bound) == [];
    } else {
      var init := cs[..|cs| - 1];
      forall c: nat | c in init
        ensures c in cs
      {
      }
      ChildrenAgree(v, rank, weigh, filter, init, bound);
      RecursiveBelowSnoc(v, rank, weigh, filter, cs, bound);
    }
  }

  lemma {:induction false} HiddenTotalsVanish(v: View, rank: nat -> nat, weigh: ChunkPart -> nat, filter: nat -> bool,
                                              cs: seq<nat>, bound: nat)
    requires Ranked(v, rank)
    requires forall c: nat :: c in cs ==> rank(c) < bound
    requires AllHidden(v, rank, filter, cs, bound)
    ensures VisibleTotal(v, rank, weigh, filter, cs, bound) == 0
  {
    if cs != [] { HiddenTotalsVanish(v, rank, weigh, filter, cs[..|cs| - 1], bound); }
  }

  ghost predicate SeesLeaf(v: View, rank: nat -> nat, filter: nat -> bool, i: nat)
    requires Ranked(v, rank)
  {
    exists j: nat :: j in Walk(v, rank, i) && VisibleLeaf(v, filter, j)
  }

  // A source that owns parts passes the filter exactly when some leaf on the walk below it does.
  ghost predicate Fair(v: View, rank: nat -> nat, weigh: ChunkPart -> nat, filter: nat -> bool, i: nat)
    requires Ranked(v, rank)
  {
    OwnWeight(v, weigh, i) == 0 || (filter(i) <==> SeesLeaf(v, rank, filter, i))
  }

  // Where the children agree, a source agrees exactly when it is fair.
  lemma AgreementAt(v: View, rank: nat -> nat, weigh: ChunkPart -> nat, filter: nat -> bool, i: nat)
    requires Ranked(v, rank)
    requires forall c: nat :: c in v.Children(i) ==>
             Shown(v, rank, weigh, filter, c) == RecursiveWeight(v, rank, weigh, filter, c)
    ensures Shown(v, rank, weigh, filter, i) == RecursiveWeight(v, rank, weigh, filter, i)
            <==> Fair(v, rank, weigh, filter, i)
  {
    HiddenExact(v, rank, filter, i);
    assert SeesLeaf(v, rank, filter, i) <==> !Hidden(v, rank, filter, i);
    RecursiveUnfolds(v, rank, weigh, filter, i);
    ChildrenAgree(v, rank, weigh, filter, v.Children(i), rank(i));
    if Hidden(v, rank, filter, i) {
      if !IsLeaf(v, i) { HiddenTotalsVanish(v, rank, weigh, filter, v.Children(i), rank(i)); }
      assert VisibleTotal(v, rank, weigh, filter, v.Children(i), rank(i)) == 0;
    }
  }

  lemma {:induction false} FairAgrees(v: View, rank: nat -> nat, weigh: ChunkPart -> nat, filter: nat -> bool, i: nat)
    requires Ranked(v, rank)
    requires forall j: nat :: Fair(v, rank, weigh, filter, j)
    ensures Shown(v, rank, weigh, filter, i) == RecursiveWeight(v, rank, weigh, filter, i)
    decreases rank(i)
  {
    forall c: nat | c in v.Children(i)
      ensures Shown(v, rank, weigh, filter, c) == RecursiveWeight(v, rank, weigh, filter, c)
    {
      FairAgrees(v, rank, weigh, filter, c);
    }
    AgreementAt(v, rank, weigh, filter, i);
  }

  // The precomputed totals are the direct recursion's on every source exactly when every source is fair.
  lemma AgreementExactlyWhenFair(v: View, rank: nat -> nat, weigh: ChunkPart -> nat, filter: nat -> bool)
    requires Ranked(v, rank)
    ensures (forall i: nat :: Shown(v, rank, weigh, filter, i) == RecursiveWeight(v, rank, weigh, filter, i))
            <==> (forall i: nat :: Fair(v, rank, weigh, filter, i))
  {
    if forall j: nat :: Fair(v, rank, weigh, filter, j) {
      forall i: nat
        ensures Shown(v, rank, weigh, filter, i) == RecursiveWeight(v, rank, weigh, filter, i)
      {
        FairAgrees(v, rank, weigh, filter, i);
      }
    }
    if forall i: nat :: Shown(v, rank, weigh, filter, i) == RecursiveWeight(v, rank, weigh, filter, i) {
      forall i: nat
        ensures Fair(v, rank, weigh, filter, i)
      {
        AgreementAt(v, rank, weigh, filter, i);
      }
    }
  }

  // The ordinary tree: directories own no parts.
  ghost predicate BareDirectories(v: View, weigh: ChunkPart -> nat) {
    forall i: nat :: !IsLeaf(v, i) ==> OwnWeight(v, weigh, i) == 0
  }

  lemma LeafSeesItself(v: View, rank: nat -> nat, filter: nat -> bool, j: nat)
    requires Ranked(v, rank) && IsLeaf(v, j)
    ensures SeesLeaf(v, rank, filter, j) <==> filter(j)
  {
    assert Walk(v, rank, j) == [j];
    assert j in Walk(v, rank, j);
  }

  lemma BareIsFair(v: View, rank: nat -> nat, weigh: ChunkPart -> nat, filter: nat -> bool)
    requires Ranked(v, rank) && BareDirectories(v, weigh)
    ensures forall j: nat :: Fair(v, rank, weigh, filter, j)
  {
    forall j: nat
      ensures Fair(v, rank, weigh, filter, j)
    {
      if IsLeaf(v, j) { LeafSeesItself(v, rank, filter, j); }
    }
  }

  // Then a directory's total is the direct recursion's, hidden or not.
  lemma DirectoryTotal(v: View, rank: nat -> nat, weigh: ChunkPart -> nat, filter: nat -> bool, i: nat)
    requires Ranked(v, rank) && BareDirectories(v, weigh) && !IsLeaf(v, i)
    ensures Total(v, rank, weigh, filter, i) == RecursiveWeight(v, rank, weigh, filter, i)
  {
    BareIsFair(v, rank, weigh, filter);
    forall c: nat | c in v.Children(i)
      ensures Shown(v, rank, weigh, filter, c) == RecursiveWeight(v, rank, weigh, filter, c)
    {
      FairAgrees(v, rank, weigh, filter, c);
    }
    ChildrenAgree(v, rank, weigh, filter, v.Children(i), rank(i));
    RecursiveUnfolds(v, rank, weigh, filter, i);
  }

  // ---------- A tree on which they differ ----------

  // One part of the root directory itself, one of a file below it.
  const MIXED: seq<Asset> :=
    [Asset("a.js", [PartInput("turbopack:///", 5, 0, 5), PartInput("turbopack:///a", 7, 0, 7)])]
  const MIXED_PATHS: seq<string> := ["", "a"]
  const MIXED_VIEW: View :=
    View([Source(None, ""), Source(Some(0), "a")], [ChunkPart(0, 0, 5, 5), ChunkPart(1, 0, 7, 7)], [[1], []],
         [[0], [1]], [[0, 1]])
  const NOT_THE_ROOT: nat -> bool := (i: nat) => i != 0

  lemma ChildrenOfTwo(a: string, b: string, dir: string)
    ensures ChildrenOf([a, b], dir)
            == (if a != "" && ParentPath(a) == dir then [0] else [])
                + (if b != "" && ParentPath(b) == dir then [1] else [])
  {
    assert [a, b][..1] == [a] && [a][..0] == [];
    assert ChildrenOf([a], dir) == [] + if a != "" && ParentPath(a) == dir then [0] else [];
  }

  lemma MixedSegments()
    ensures ParentPath("a") == "" && Segment("a") == "a"
  {
    assert TrimEndSlashes("a") == "a" && "a"[..0] == "";
  }

  // It is the tree that is written for these assets.
  lemma MixedIsTree()
    ensures IsTree(MIXED_VIEW, MIXED_PATHS)
  {
    MixedSegments();
    ChildrenOfTwo("", "a", "");
    ChildrenOfTwo("", "a", "a");
  }

  lemma PartsOfTwo(parts: seq<ChunkPart>, owner: ChunkPart -> nat, i: nat)
    requires |parts| == 2
    ensures PartsOf(parts, owner, i)
            == (if owner(parts[0]) == i then [0] else []) + (if owner(parts[1]) == i then [1] else [])
  {
    assert parts[..1][..0] == [];
    assert PartsOf(parts[..1], owner, i) == [] + if owner(parts[0]) == i then [0] else [];
  }

  lemma MixedHoldsParts()
    ensures HoldsParts(MIXED_VIEW)
  {
    PartsOfTwo(MIXED_VIEW.chunkParts, BY_SOURCE, 0);
    PartsOfTwo(MIXED_VIEW.chunkParts, BY_SOURCE, 1);
    PartsOfTwo(MIXED_VIEW.chunkParts, BY_OUTPUT_FILE, 0);
  }

  lemma MixedNames()
    ensures SourcePath("turbopack:///") == "" && SourcePath("turbopack:///a") == "a" && !Skipped(MIXED[0])
  {
    assert URL_PREFIX + "" == "turbopack:///" && URL_PREFIX + "a" == "turbopack:///a";
  }

  lemma MixedIsRecorded()
    ensures Recorded(MIXED_VIEW.chunkParts, RecordsOf(MIXED), MIXED_PATHS)
  {
    var parts := MIXED[0].parts;
    MixedNames();
    assert MIXED[..0] == [] && RecordsOf(MIXED) == PartRecords(parts, 0);
    assert Matches(MIXED_VIEW.chunkParts[0], RecordOf(parts[0], 0), MIXED_PATHS);
    assert Matches(MIXED_VIEW.chunkParts[1], RecordOf(parts[1], 0), MIXED_PATHS);
  }

  lemma MixedTotals(rank: nat -> nat)
    requires Ranked(MIXED_VIEW, rank)
    ensures Total(MIXED_VIEW, rank, BY_SIZE, NOT_THE_ROOT, 0) == 12
    ensures RecursiveWeight(MIXED_VIEW, rank, BY_SIZE, NOT_THE_ROOT, 0) == 7
  {
    var v, w := MIXED_VIEW, VisibleWeight(MIXED_VIEW, BY_SIZE, NOT_THE_ROOT);
    SumSingle(PartWeight(v.chunkParts, BY_SIZE), 0);
    SumSingle(PartWeight(v.chunkParts, BY_SIZE), 1);
    assert OwnWeight(v, BY_SIZE, 0) == 5 && OwnWeight(v, BY_SIZE, 1) == 7;
    assert 1 in v.Children(0) && v.Children(0)[..0] == [];
    assert !Hidden(v, rank, NOT_THE_ROOT, 1) && Total(v, rank, BY_SIZE, NOT_THE_ROOT, 1) == 7;
    assert VisibleTotal(v, rank, BY_SIZE, NOT_THE_ROOT, [1], rank(0)) == 7;
    RecursiveUnfolds(v, rank, BY_SIZE, NOT_THE_ROOT, 0);
    assert Walk(v, rank, 1) == [1] && [1][..0] == [];
    assert WalkAll(v, rank, [1], rank(0)) == [] + [1] == [1];
    SumSingle(w, 1);
  }

  // With a filter that hides the root itself, the root is precomputed as 12 and summed up as 7.
  lemma MixedDisagrees(rank: nat -> nat)
    requires Ranked(MIXED_VIEW, rank)
    ensures IsTree(MIXED_VIEW, MIXED_PATHS) && HoldsParts(MIXED_VIEW)
            && Recorded(MIXED_VIEW.chunkParts, RecordsOf(MIXED), MIXED_PATHS)
    ensures Total(MIXED_VIEW, rank, BY_SIZE, NOT_THE_ROOT, 0) == 12
    ensures RecursiveWeight(MIXED_VIEW, rank, BY_SIZE, NOT_THE_ROOT, 0) == 7
  {
    MixedIsTree();
    MixedHoldsParts();
    MixedIsRecorded();
    MixedTotals(rank);
  }
}
