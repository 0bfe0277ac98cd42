// The tree of layout nodes: computeTreemapLayoutFromAnalyzeInternal in treemap-layout.ts.
module TreemapNodes {
  import opened Sequences
  import opened SourceTree
  import opened TreemapMetadata
  import opened Wrappers
  import opened RealSums
  import opened TreemapLayout
  import opened TreemapTiling

  const FOLD_LIMIT: nat := 40

  datatype Kind = File | Directory | CollapsedDirectory

  datatype Node = Node(sourceIndex: nat, kind: Kind, size: nat, rect: Option<Rect>, itemCount: nat, children: seq<Node>)

  // What stays the same over the whole layout: the sources, and the precomputed sizes of the chosen
  // mode and filter flags.
  datatype Scene = Scene(v: View, sizeOf: nat -> nat, hidden: nat -> bool)

  predicate EndsWithSlash(path: string) {
    path != "" && path[|path| - 1] == '/'
  }

  function PathOf(v: View, i: nat): string {
    if i < |v.sources| then v.sources[i].path else ""
  }

  predicate IsDirectory(v: View, i: nat) {
    EndsWithSlash(PathOf(v, i)) || PathOf(v, i) == ""
  }

  // A directory whose only child is a directory is drawn as that child, while the joined name is short.
  predicate Folds(v: View, i: nat, foldedPath: string) {
    && |v.Children(i)| == 1 && IsDirectory(v, i)
    && |foldedPath + PathOf(v, i)| <= FOLD_LIMIT
    && EndsWithSlash(PathOf(v, v.Children(i)[0]))
  }

  function Min(a: real, b: real): real {
    if a <= b then a else b
  }

  function Max(a: real, b: real): real {
    if a >= b then a else b
  }

  function TitleBarHeight(rect: Rect): real {
    Round(Max(12.0, Min(24.0, rect.height * 0.1)))
  }

  // Of a rectangle whose sides are not numbers nothing can be said.
  function ContentRect(rect: Option<Rect>): (content: Option<Rect>)
    ensures content.Some? ==> content.value.width >= 0.0 && content.value.height >= 0.0
  {
    if rect.None? then None
    else
      var r := rect.value;
      var title := TitleBarHeight(r);
      Some(Rect(Round(r.x), Round(r.y + title), Max(0.0, Round(r.width - 2.0)),
                Max(0.0, Round(r.height - title - 2.0))))
  }

  // ---------- Children to lay out ----------

  function VisibleChildren(s: Scene, cs: seq<nat>): (r: seq<nat>)
    ensures forall c: nat :: c in r ==> c in cs && !s.hidden(c)
  {
    if cs == [] then []
    else
      var init, last := cs[..|cs| - 1], cs[|cs| - 1];
      assert cs == init + [last];
      VisibleChildren(s, init) + if s.hidden(last) then [] else [last]
  }

  // A visible child of size 0 is laid out with size 1.
  function LayoutSize(s: Scene, c: nat): nat {
    if s.sizeOf(c) == 0 then 1 else s.sizeOf(c)
  }

  function PlaceBySize(s: Scene, sorted: seq<nat>, c: nat): seq<nat> {
    if sorted == [] then [c]
    else
      var last := |sorted| - 1;
      if LayoutSize(s, c) > LayoutSize(s, sorted[last])
      then PlaceBySize(s, sorted[..last], c) + [sorted[last]]
      else sorted + [c]
  }

  // The stable sort by descending size.
  function SortBySize(s: Scene, cs: seq<nat>): seq<nat> {
    if cs == [] then [] else PlaceBySize(s, SortBySize(s, cs[..|cs| - 1]), cs[|cs| - 1])
  }

  lemma {:induction false} PlaceBySizeContents(s: Scene, sorted: seq<nat>, c: nat)
    ensures multiset(PlaceBySize(s, sorted, c)) == multiset(sorted) + multiset{c}
  {
    if sorted != [] {
      var init, last := sorted[..|sorted| - 1], sorted[|sorted| - 1];
      MultisetLast(sorted);
      if LayoutSize(s, c) > LayoutSize(s, last) {
        PlaceBySizeContents(s, init, c);
        MultisetSnoc(PlaceBySize(s, init, c), last);
      } else {
        MultisetSnoc(sorted, c);
      }
    }
  }

  lemma {:induction false} SortBySizeContents(s: Scene, cs: seq<nat>)
    ensures multiset(SortBySize(s, cs)) == multiset(cs)
  {
    if cs != [] {
      SortBySizeContents(s, cs[..|cs| - 1]);
      PlaceBySizeContents(s, SortBySize(s, cs[..|cs| - 1]), cs[|cs| - 1]);
      MultisetLast(cs);
    }
  }

  ghost predicate Descending(s: Scene, cs: seq<nat>) {
    forall a, b :: 0 <= a < b < |cs| ==> LayoutSize(s, cs[a]) >= LayoutSize(s, cs[b])
  }

  lemma {:induction false} PlaceBySizeSorts(s: Scene, sorted: seq<nat>, c: nat)
    requires Descending(s, sorted)
    ensures Descending(s, PlaceBySize(s, sorted, c))
    ensures forall x: nat :: x in PlaceBySize(s, sorted, c) ==> x == c || x in sorted
  {
    if sorted != [] {
      var init, last := sorted[..|sorted| - 1], sorted[|sorted| - 1];
      if LayoutSize(s, c) > LayoutSize(s, last) {
        PlaceBySizeSorts(s, init, c);
        var front := PlaceBySize(s, init, c);
        forall a | 0 <= a < |front|
          ensures LayoutSize(s, front[a]) >= LayoutSize(s, last)
        {
          assert front[a] in front;
          if front[a] in init {
            var k :| 0 <= k < |init| && init[k] == front[a];
            assert sorted[k] == front[a];
          }
        }
      }
    }
  }

  // Larger children come first.
  lemma {:induction false} SortBySizeSorts(s: Scene, cs: seq<nat>)
    ensures Descending(s, SortBySize(s, cs))
  {
    if cs != [] {
      SortBySizeSorts(s, cs[..|cs| - 1]);
      PlaceBySizeSorts(s, SortBySize(s, cs[..|cs| - 1]), cs[|cs| - 1]);
    }
  }

  // Larger children first, and equally large ones by index.
  ghost predicate Precedes(s: Scene, a: nat, b: nat) {
    LayoutSize(s, a) > LayoutSize(s, b) || (LayoutSize(s, a) == LayoutSize(s, b) && a < b)
  }

  ghost predicate Ordered(s: Scene, cs: seq<nat>) {
    forall a, b :: 0 <= a < b < |cs| ==> Precedes(s, cs[a], cs[b])
  }

  ghost predicate AllPrecede(s: Scene, cs: seq<nat>, c: nat) {
    forall a :: 0 <= a < |cs| ==> Precedes(s, cs[a], c)
  }

  lemma OrderedSnoc(s: Scene, cs: seq<nat>, c: nat)
    requires Ordered(s, cs) && AllPrecede(s, cs, c)
    ensures Ordered(s, cs + [c])
  {
  }

  lemma PrecedesAfter(s: Scene, cs: seq<nat>, last: nat, c: nat)
    requires AllPrecede(s, cs, last) && Precedes(s, last, c)
    ensures AllPrecede(s, cs + [last], c)
  {
    forall a | 0 <= a < |cs|
      ensures Precedes(s, cs[a], c)
    {
      assert Precedes(s, cs[a], last);
    }
  }

  lemma {:induction false} PlaceBySizePrecedes(s: Scene, sorted: seq<nat>, c: nat, d: nat)
    requires AllPrecede(s, sorted, d) && Precedes(s, c, d)
    ensures AllPrecede(s, PlaceBySize(s, sorted, c), d)
  {
    if sorted != [] { PlaceBySizePrecedes(s, sorted[..|sorted| - 1], c, d); }
  }

  lemma {:induction false} PlaceBySizeOrders(s: Scene, sorted: seq<nat>, c: nat)
    requires Ordered(s, sorted) && forall k :: 0 <= k < |sorted| ==> sorted[k] < c
    ensures Ordered(s, PlaceBySize(s, sorted, c))
  {
    if sorted != [] {
      var init, last := sorted[..|sorted| - 1], sorted[|sorted| - 1];
      assert AllPrecede(s, init, last);
      if LayoutSize(s, c) > LayoutSize(s, last) {
        PlaceBySizeOrders(s, init, c);
        PlaceBySizePrecedes(s, init, c, last);
        OrderedSnoc(s, PlaceBySize(s, init, c), last);
      } else {
        PrecedesAfter(s, init, last, c);
        assert init + [last] == sorted;
        OrderedSnoc(s, sorted, c);
      }
    }
  }

  // The sort is stable, and the child lists of a written file ascend.
  lemma {:induction false} SortBySizeOrders(s: Scene, cs: seq<nat>)
    requires Increasing(cs)
    ensures Ordered(s, SortBySize(s, cs))
  {
    if cs != [] {
      var init, last := cs[..|cs| - 1], cs[|cs| - 1];
      SortBySizeOrders(s, init);
      SortBySizeContents(s, init);
      var sorted := SortBySize(s, init);
      forall k | 0 <= k < |sorted|
        ensures sorted[k] < last
      {
        assert sorted[k] in multiset(sorted);
        assert sorted[k] in init;
      }
      PlaceBySizeOrders(s, sorted, last);
    }
  }

  lemma {:induction false} VisibleExactly(s: Scene, cs: seq<nat>, c: nat)
    ensures multiset(VisibleChildren(s, cs))[c] == if s.hidden(c) then 0 else multiset(cs)[c]
  {
    if cs != [] {
      var init, last := cs[..|cs| - 1], cs[|cs| - 1];
      VisibleExactly(s, init, c);
      MultisetLast(cs);
      if s.hidden(last) {
        assert VisibleChildren(s, init) + [] == VisibleChildren(s, init);
      } else {
        MultisetSnoc(VisibleChildren(s, init), last);
      }
    }
  }

  function ToLayOut(s: Scene, i: nat): seq<nat> {
    SortBySize(s, VisibleChildren(s, s.v.Children(i)))
  }

  // Every visible child is laid out as often as it is listed, and no hidden one.
  lemma LaidOutExactly(s: Scene, i: nat, c: nat)
    ensures multiset(ToLayOut(s, i))[c] == if s.hidden(c) then 0 else multiset(s.v.Children(i))[c]
  {
    SortBySizeContents(s, VisibleChildren(s, s.v.Children(i)));
    VisibleExactly(s, s.v.Children(i), c);
  }

  lemma ToLayOutMembers(s: Scene, i: nat)
    ensures forall c: nat :: c in ToLayOut(s, i) ==> c in s.v.Children(i) && !s.hidden(c)
  {
    var visible := VisibleChildren(s, s.v.Children(i));
    SortBySizeContents(s, visible);
    forall c: nat | c in ToLayOut(s, i)
      ensures c in visible
    {
      assert c in multiset(ToLayOut(s, i));
    }
  }

  function SizesOf(s: Scene, cs: seq<nat>): (sizes: seq<real>)
    ensures |sizes| == |cs| && Positive(sizes)
  {
    seq(|cs|, k requires 0 <= k < |cs| => LayoutSize(s, cs[k]) as real)
  }

  lemma PlacedRectsLength(sizes: seq<real>, rect: Rect)
    requires Positive(sizes) && rect.width >= 0.0 && rect.height >= 0.0
    ensures |PlacedRects(sizes, rect)| == |sizes|
  {
    if |sizes| <= 1 {
      SquarifyLength(sizes, rect);
    } else if rect.width > 0.0 && rect.height > 0.0 {
      SquarifyLength(LaidSizes(sizes, rect), rect);
    }
  }

  // The rectangles of the children, in the same order.
  function ChildRects(sizes: seq<real>, content: Option<Rect>): (rects: seq<Option<Rect>>)
    requires Positive(sizes) && (content.Some? ==> content.value.width >= 0.0 && content.value.height >= 0.0)
    ensures |rects| == |sizes|
  {
    if content.None? then seq(|sizes|, _ => None)
    else
      PlacedRectsLength(sizes, content.value);
      PlacedRects(sizes, content.value)
  }

  // ---------- The recursion ----------

  // The number of leaves below a collapsed directory.
  function CountDescendants(s: Scene, ghost rank: nat -> nat, i: nat): nat
    requires Ranked(s.v, rank)
    decreases rank(i) + 1, 0
  {
    if s.v.Children(i) == [] then 1 else CountAll(s, rank, s.v.Children(i), rank(i))
  }

  function CountAll(s: Scene, ghost rank: nat -> nat, cs: seq<nat>, ghost bound: nat): nat
    requires Ranked(s.v, rank)
    requires forall c: nat :: c in cs ==> rank(c) < bound
    decreases bound, |cs|
  {
    if cs == [] then 0 else CountAll(s, rank, cs[..|cs| - 1], bound) + CountDescendants(s, rank, cs[|cs| - 1])
  }

  function LeafWeight(v: View): nat -> nat {
    (i: nat) => if v.Children(i) == [] then 1 else 0
  }

  // The count is the number of leaves on the walk.
  lemma {:induction false} CountIsLeaves(s: Scene, rank: nat -> nat, i: nat)
    requires Ranked(s.v, rank)
    ensures CountDescendants(s, rank, i) == Sum(LeafWeight(s.v), Walk(s.v, rank, i))
    decreases rank(i) + 1, 0
  {
    SumSingle(LeafWeight(s.v), i);
    SumAppend(LeafWeight(s.v), [i], WalkAll(s.v, rank, s.v.Children(i), rank(i)));
    CountAllIsLeaves(s, rank, s.v.Children(i), rank(i));
  }

  lemma {:induction false} CountAllIsLeaves(s: Scene, rank: nat -> nat, cs: seq<nat>, bound: nat)
    requires Ranked(s.v, rank)
    requires forall c: nat :: c in cs ==> rank(c) < bound
    ensures CountAll(s, rank, cs, bound) == Sum(LeafWeight(s.v), WalkAll(s.v, rank, cs, bound))
    decreases bound, |cs|
  {
    if cs != [] {
      var init, last := cs[..|cs| - 1], cs[|cs| - 1];
      CountAllIsLeaves(s, rank, init, bound);
      CountIsLeaves(s, rank, last);
      SumAppend(LeafWeight(s.v), WalkAll(s.v, rank, init, bound), Walk(s.v, rank, last));
    }
  }

  function ComputeLayout(s: Scene, ghost rank: nat -> nat, i: nat, foldedPath: string, rect: Option<Rect>): Node
    requires Ranked(s.v, rank)
    decreases rank(i) + 1, 0
  {
    if Folds(s.v, i, foldedPath) then
      assert s.v.Children(i)[0] in s.v.Children(i);
      ComputeLayout(s, rank, s.v.Children(i)[0], foldedPath + PathOf(s.v, i), rect)
    else if !IsDirectory(s.v, i) || s.v.Children(i) == [] then Node(i, File, s.sizeOf(i), rect, 0, [])
    else if rect.Some? && rect.value.height < 30.0 then
      Node(i, CollapsedDirectory, s.sizeOf(i), rect, CountDescendants(s, rank, i), [])
    else
      ToLayOutMembers(s, i);
      var cs := ToLayOut(s, i);
      Node(i, Directory, s.sizeOf(i), rect, 0,
           LayOutAll(s, rank, cs, rank(i), ChildRects(SizesOf(s, cs), ContentRect(rect))))
  }

  function LayOutAll(s: Scene, ghost rank: nat -> nat, cs: seq<nat>, ghost bound: nat,
                     rects: seq<Option<Rect>>): seq<Node>
    requires Ranked(s.v, rank) && |cs| <= |rects|
    requires forall c: nat :: c in cs ==> rank(c) < bound
    decreases bound, |cs|
  {
    if cs == [] then []
    else
      var k := |cs| - 1;
      LayOutAll(s, rank, cs[..k], bound, rects) + [ComputeLayout(s, rank, cs[k], "", rects[k])]
  }

  // ---------- What a node shows ----------

  lemma TitleBarExactly(rect: Rect)
    ensures var title := TitleBarHeight(rect);
            && IsInt(title) && 12.0 <= title <= 24.0
            && (rect.height <= 120.0 ==> title == 12.0)
            && (120.0 <= rect.height <= 240.0 ==> -0.5 <= title - rect.height / 10.0 <= 0.5)
            && (240.0 <= rect.height ==> title == 24.0)
  {
    var exact := Max(12.0, Min(24.0, rect.height * 0.1));
    RoundClose(exact);
    RoundExact(12.0, 12);
    RoundExact(24.0, 24);
    assert (12.0 + 0.5).Floor <= (exact + 0.5).Floor <= (24.0 + 0.5).Floor;
  }

  ghost predicate IsSlashed(path: string) {
    exists stem :: path == stem + "/"
  }

  lemma SlashedExactly(path: string)
    ensures EndsWithSlash(path) <==> IsSlashed(path)
  {
    if EndsWithSlash(path) { assert path == path[..|path| - 1] + "/"; }
  }

  // Every child is a source of the file.
  ghost predicate ChildrenInRange(v: View) {
    forall i: nat, c: nat :: c in v.Children(i) ==> c < |v.sources|
  }

  // A directory is drawn as its only child if that is a directory and the paths so far have at most
  // 40 characters together.
  ghost predicate DrawnAsChild(v: View, i: nat, foldedPath: string)
    requires ChildrenInRange(v) && i < |v.sources|
  {
    && |v.Children(i)| == 1 && (v.sources[i].path == "" || IsSlashed(v.sources[i].path))
    && |foldedPath| + |v.sources[i].path| <= 40
    && v.Children(i)[0] in v.Children(i) && IsSlashed(v.sources[v.Children(i)[0]].path)
  }

  lemma {:induction false} ShownBelow(s: Scene, rank: nat -> nat, i: nat, foldedPath: string, rect: Option<Rect>)
    requires Ranked(s.v, rank)
    ensures rank(ComputeLayout(s, rank, i, foldedPath, rect).sourceIndex) <= rank(i)
    decreases rank(i)
  {
    if Folds(s.v, i, foldedPath) {
      assert s.v.Children(i)[0] in s.v.Children(i);
      ShownBelow(s, rank, s.v.Children(i)[0], foldedPath + PathOf(s.v, i), rect);
    }
  }

  lemma FoldsExactly(s: Scene, rank: nat -> nat, i: nat, foldedPath: string, rect: Option<Rect>)
    requires Ranked(s.v, rank) && ChildrenInRange(s.v) && i < |s.v.sources|
    ensures ComputeLayout(s, rank, i, foldedPath, rect).sourceIndex != i <==> DrawnAsChild(s.v, i, foldedPath)
  {
    SlashedExactly(PathOf(s.v, i));
    if |s.v.Children(i)| == 1 {
      var c := s.v.Children(i)[0];
      assert c in s.v.Children(i);
      SlashedExactly(PathOf(s.v, c));
      ShownBelow(s, rank, c, foldedPath + PathOf(s.v, i), rect);
    }
  }

  // What is drawn of the source that a node shows: a file if it is none or an empty directory, else
  // a collapsed directory exactly if the rectangle is less than 30 high.
  lemma {:induction false} NodeKindExactly(s: Scene, rank: nat -> nat, i: nat, foldedPath: string, rect: Option<Rect>)
    requires Ranked(s.v, rank) && ChildrenInRange(s.v) && i < |s.v.sources|
    ensures var n := ComputeLayout(s, rank, i, foldedPath, rect); var j := n.sourceIndex;
            && j < |s.v.sources|
            && (n.kind == File <==>
                  s.v.Children(j) == [] || (s.v.sources[j].path != "" && !IsSlashed(s.v.sources[j].path)))
            && (n.kind != File ==> (n.kind == CollapsedDirectory <==> rect.Some? && rect.value.height < 30.0))
            && (n.kind != Directory ==> n.children == [])
            && n.itemCount == (if n.kind == CollapsedDirectory then CountDescendants(s, rank, j) else 0)
    decreases rank(i)
  {
    SlashedExactly(PathOf(s.v, i));
    if Folds(s.v, i, foldedPath) {
      assert s.v.Children(i)[0] in s.v.Children(i);
      NodeKindExactly(s, rank, s.v.Children(i)[0], foldedPath + PathOf(s.v, i), rect);
    }
  }

  // ---------- Sizes of nodes ----------

  function SizeOfAll(nodes: seq<Node>): nat {
    if nodes == [] then 0 else SizeOfAll(nodes[..|nodes| - 1]) + nodes[|nodes| - 1].size
  }

  // The scene of a filter and a size mode, with the precomputed metadata.
  ghost predicate Precomputed(s: Scene, rank: nat -> nat, weigh: ChunkPart -> nat, filter: nat -> bool)
    requires Ranked(s.v, rank)
  {
    && (forall i: nat :: s.sizeOf(i) == Total(s.v, rank, weigh, filter, i))
    && (forall i: nat :: s.hidden(i) == Hidden(s.v, rank, filter, i))
  }

  function WeightOfAll(s: Scene, cs: seq<nat>): nat {
    if cs == [] then 0 else WeightOfAll(s, cs[..|cs| - 1]) + s.sizeOf(cs[|cs| - 1])
  }

  lemma {:induction false} PlaceBySizeWeight(s: Scene, sorted: seq<nat>, c: nat)
    ensures WeightOfAll(s, PlaceBySize(s, sorted, c)) == WeightOfAll(s, sorted) + s.sizeOf(c)
  {
    if sorted == [] {
      assert [c][..0] == [];
    } else {
      var last := |sorted| - 1;
      if LayoutSize(s, c) > LayoutSize(s, sorted[last]) {
        PlaceBySizeWeight(s, sorted[..last], c);
        var front := PlaceBySize(s, sorted[..last], c);
        assert (front + [sorted[last]])[..|front|] == front;
      } else {
        assert (sorted + [c])[..|sorted|] == sorted;
      }
    }
  }

  lemma {:induction false} SortBySizeWeight(s: Scene, cs: seq<nat>)
    ensures WeightOfAll(s, SortBySize(s, cs)) == WeightOfAll(s, cs)
  {
    if cs != [] {
      SortBySizeWeight(s, cs[..|cs| - 1]);
      PlaceBySizeWeight(s, SortBySize(s, cs[..|cs| - 1]), cs[|cs| - 1]);
    }
  }

  lemma {:induction false} VisibleWeightOfAll(s: Scene, rank: nat -> nat, weigh: ChunkPart -> nat, filter: nat -> bool,
                                              cs: seq<nat>, bound: nat)
    requires Ranked(s.v, rank) && Precomputed(s, rank, weigh, filter)
    requires forall c: nat :: c in cs ==> rank(c) < bound
    ensures WeightOfAll(s, VisibleChildren(s, cs)) == VisibleTotal(s.v, rank, weigh, filter, cs, bound)
  {
    if cs != [] {
      var init, last := cs[..|cs| - 1], cs[|cs| - 1];
      VisibleWeightOfAll(s, rank, weigh, filter, init, bound);
      var before := VisibleChildren(s, init);
      if s.hidden(last) {
        assert before + [] == before;
      } else {
        assert (before + [last])[..|before|] == before;
      }
    }
  }

  // How many of the children have no size.
  function Weightless(s: Scene, cs: seq<nat>): nat {
    if cs == [] then 0 else Weightless(s, cs[..|cs| - 1]) + if s.sizeOf(cs[|cs| - 1]) == 0 then 1 else 0
  }

  // The sizes that are laid out are those of the children, and one more for each that has none.
  lemma {:induction false} SizesLaidOut(s: Scene, cs: seq<nat>)
    ensures SumR(SizesOf(s, cs)) == (WeightOfAll(s, cs) + Weightless(s, cs)) as real
  {
    if cs != [] {
      SizesLaidOut(s, cs[..|cs| - 1]);
      assert SizesOf(s, cs)[..|cs| - 1] == SizesOf(s, cs[..|cs| - 1]);
    }
  }

  // A directory weighs what is laid out inside it, and its own parts.
  lemma DirectoryWeight(s: Scene, rank: nat -> nat, weigh: ChunkPart -> nat, filter: nat -> bool, i: nat)
    requires Ranked(s.v, rank) && Precomputed(s, rank, weigh, filter)
    ensures s.sizeOf(i) == OwnWeight(s.v, weigh, i) + WeightOfAll(s, ToLayOut(s, i))
  {
    VisibleWeightOfAll(s, rank, weigh, filter, s.v.Children(i), rank(i));
    SortBySizeWeight(s, VisibleChildren(s, s.v.Children(i)));
  }

  // Folding keeps visibility, and drops the own parts of the directory that is folded away.
  lemma FoldDropsOwn(s: Scene, rank: nat -> nat, weigh: ChunkPart -> nat, filter: nat -> bool, i: nat)
    requires Ranked(s.v, rank) && Precomputed(s, rank, weigh, filter) && |s.v.Children(i)| == 1
    ensures s.hidden(s.v.Children(i)[0]) == s.hidden(i)
    ensures !s.hidden(i) ==> s.sizeOf(i) == OwnWeight(s.v, weigh, i) + s.sizeOf(s.v.Children(i)[0])
  {
    var cs := s.v.Children(i);
    assert cs[..0] == [] && cs == [cs[0]] && cs[0] in cs;
    assert AllHidden(s.v, rank, filter, [], rank(i)) && VisibleTotal(s.v, rank, weigh, filter, [], rank(i)) == 0;
    assert AllHidden(s.v, rank, filter, cs, rank(i)) == Hidden(s.v, rank, filter, cs[0]);
    assert !s.hidden(i) ==>
        VisibleTotal(s.v, rank, weigh, filter, cs, rank(i)) == Total(s.v, rank, weigh, filter, cs[0]);
    assert !IsLeaf(s.v, i);
  }

  // The own parts of the directories that are folded away on the way from source `i` to its node.
  function FoldedAway(s: Scene, ghost rank: nat -> nat, weigh: ChunkPart -> nat, i: nat, foldedPath: string): nat
    requires Ranked(s.v, rank)
    decreases rank(i)
  {
    if Folds(s.v, i, foldedPath) then
      assert s.v.Children(i)[0] in s.v.Children(i);
      OwnWeight(s.v, weigh, i) + FoldedAway(s, rank, weigh, s.v.Children(i)[0], foldedPath + PathOf(s.v, i))
    else 0
  }

  function FoldedAwayAll(s: Scene, ghost rank: nat -> nat, weigh: ChunkPart -> nat, cs: seq<nat>): nat
    requires Ranked(s.v, rank)
  {
    if cs == [] then 0 else FoldedAwayAll(s, rank, weigh, cs[..|cs| - 1]) + FoldedAway(s, rank, weigh, cs[|cs| - 1], "")
  }

  // What the children of an expanded directory do not show: its own parts, and those folded away.
  function Unshown(s: Scene, ghost rank: nat -> nat, weigh: ChunkPart -> nat, i: nat): nat
    requires Ranked(s.v, rank)
  {
    OwnWeight(s.v, weigh, i) + FoldedAwayAll(s, rank, weigh, ToLayOut(s, i))
  }

  // The node drawn for a visible source has the source's size, less what is folded away.
  lemma {:induction false} NodeSize(s: Scene, rank: nat -> nat, weigh: ChunkPart -> nat, filter: nat -> bool,
                                    i: nat, foldedPath: string, rect: Option<Rect>)
    requires Ranked(s.v, rank) && Precomputed(s, rank, weigh, filter) && !s.hidden(i)
    ensures ComputeLayout(s, rank, i, foldedPath, rect).size + FoldedAway(s, rank, weigh, i, foldedPath) == s.sizeOf(i)
    decreases rank(i)
  {
    if Folds(s.v, i, foldedPath) {
      FoldDropsOwn(s, rank, weigh, filter, i);
      assert s.v.Children(i)[0] in s.v.Children(i);
      NodeSize(s, rank, weigh, filter, s.v.Children(i)[0], foldedPath + PathOf(s.v, i), rect);
    }
  }

  // Every expanded directory of the layout is as large as its children together and what they do not show.
  ghost predicate Accounted(s: Scene, rank: nat -> nat, weigh: ChunkPart -> nat, n: Node)
    requires Ranked(s.v, rank)
  {
    && (n.kind == Directory ==>
          !IsLeaf(s.v, n.sourceIndex) && n.size == SizeOfAll(n.children) + Unshown(s, rank, weigh, n.sourceIndex))
    && forall c :: c in n.children ==> Accounted(s, rank, weigh, c)
  }

  ghost predicate AllAccounted(s: Scene, rank: nat -> nat, weigh: ChunkPart -> nat, nodes: seq<Node>)
    requires Ranked(s.v, rank)
  {
    forall n :: n in nodes ==> Accounted(s, rank, weigh, n)
  }

  lemma NodesSnoc(s: Scene, rank: nat -> nat, weigh: ChunkPart -> nat, nodes: seq<Node>, last: Node)
    requires Ranked(s.v, rank) && AllAccounted(s, rank, weigh, nodes) && Accounted(s, rank, weigh, last)
    ensures SizeOfAll(nodes + [last]) == SizeOfAll(nodes) + last.size
    ensures AllAccounted(s, rank, weigh, nodes + [last])
  {
  }

  lemma {:induction false} LayoutAccounted(s: Scene, rank: nat -> nat, weigh: ChunkPart -> nat, filter: nat -> bool,
                                           i: nat, foldedPath: string, rect: Option<Rect>)
    requires Ranked(s.v, rank) && Precomputed(s, rank, weigh, filter)
    ensures Accounted(s, rank, weigh, ComputeLayout(s, rank, i, foldedPath, rect))
    decreases rank(i) + 1, 0
  {
    if Folds(s.v, i, foldedPath) {
      assert s.v.Children(i)[0] in s.v.Children(i);
      LayoutAccounted(s, rank, weigh, filter, s.v.Children(i)[0], foldedPath + PathOf(s.v, i), rect);
    } else if ComputeLayout(s, rank, i, foldedPath, rect).kind == Directory {
      ToLayOutMembers(s, i);
      var cs := ToLayOut(s, i);
      LayOutAllAccounted(s, rank, weigh, filter, cs, rank(i), ChildRects(SizesOf(s, cs), ContentRect(rect)));
      DirectoryWeight(s, rank, weigh, filter, i);
    }
  }

  lemma {:induction false} LayOutAllAccounted(s: Scene, rank: nat -> nat, weigh: ChunkPart -> nat, filter: nat -> bool,
                                              cs: seq<nat>, bound: nat, rects: seq<Option<Rect>>)
    requires Ranked(s.v, rank) && Precomputed(s, rank, weigh, filter) && |cs| <= |rects|
    requires forall c: nat :: c in cs ==> rank(c) < bound && !s.hidden(c)
    ensures SizeOfAll(LayOutAll(s, rank, cs, bound, rects)) + FoldedAwayAll(s, rank, weigh, cs) == WeightOfAll(s, cs)
    ensures AllAccounted(s, rank, weigh, LayOutAll(s, rank, cs, bound, rects))
    decreases bound, |cs|
  {
    if cs != [] {
      var k := |cs| - 1;
      var before := LayOutAll(s, rank, cs[..k], bound, rects);
      var last := ComputeLayout(s, rank, cs[k], "", rects[k]);
      assert forall c: nat :: c in cs[..k] ==> c in cs;
      assert cs[k] in cs;
      LayOutAllAccounted(s, rank, weigh, filter, cs[..k], bound, rects);
      LayoutAccounted(s, rank, weigh, filter, cs[k], "", rects[k]);
      NodeSize(s, rank, weigh, filter, cs[k], "", rects[k]);
      NodesSnoc(s, rank, weigh, before, last);
    }
  }

  // ---------- When a layout is additive ----------

  // Every expanded directory of the layout is as large as its layout children together.
  ghost predicate Additive(n: Node) {
    && (n.kind == Directory ==> n.size == SizeOfAll(n.children))
    && forall c :: c in n.children ==> Additive(c)
  }

  // No expanded directory owns parts, and none that do are folded away inside it.
  ghost predicate ShowsAll(s: Scene, rank: nat -> nat, weigh: ChunkPart -> nat, n: Node)
    requires Ranked(s.v, rank)
  {
    && (n.kind == Directory ==> Unshown(s, rank, weigh, n.sourceIndex) == 0)
    && forall c :: c in n.children ==> ShowsAll(s, rank, weigh, c)
  }

  lemma {:induction false} AdditiveWhenShown(s: Scene, rank: nat -> nat, weigh: ChunkPart -> nat, n: Node)
    requires Ranked(s.v, rank) && Accounted(s, rank, weigh, n)
    ensures Additive(n) <==> ShowsAll(s, rank, weigh, n)
  {
    forall c | c in n.children
      ensures Additive(c) <==> ShowsAll(s, rank, weigh, c)
    {
      AdditiveWhenShown(s, rank, weigh, c);
    }
  }

  // For all trees, filters and rectangles.
  lemma LayoutAdditiveExactly(s: Scene, rank: nat -> nat, weigh: ChunkPart -> nat, filter: nat -> bool,
                              i: nat, foldedPath: string, rect: Option<Rect>)
    requires Ranked(s.v, rank) && Precomputed(s, rank, weigh, filter)
    ensures var n := ComputeLayout(s, rank, i, foldedPath, rect); Additive(n) <==> ShowsAll(s, rank, weigh, n)
  {
    LayoutAccounted(s, rank, weigh, filter, i, foldedPath, rect);
    AdditiveWhenShown(s, rank, weigh, ComputeLayout(s, rank, i, foldedPath, rect));
  }

  lemma {:induction false} BareFoldsNothing(s: Scene, rank: nat -> nat, weigh: ChunkPart -> nat, i: nat,
                                            foldedPath: string)
    requires Ranked(s.v, rank) && BareDirectories(s.v, weigh)
    ensures FoldedAway(s, rank, weigh, i, foldedPath) == 0
    decreases rank(i)
  {
    if Folds(s.v, i, foldedPath) {
      assert s.v.Children(i)[0] in s.v.Children(i) && !IsLeaf(s.v, i);
      BareFoldsNothing(s, rank, weigh, s.v.Children(i)[0], foldedPath + PathOf(s.v, i));
    }
  }

  lemma {:induction false} BareFoldsNothingAll(s: Scene, rank: nat -> nat, weigh: ChunkPart -> nat, cs: seq<nat>)
    requires Ranked(s.v, rank) && BareDirectories(s.v, weigh)
    ensures FoldedAwayAll(s, rank, weigh, cs) == 0
  {
    if cs != [] {
      BareFoldsNothingAll(s, rank, weigh, cs[..|cs| - 1]);
      BareFoldsNothing(s, rank, weigh, cs[|cs| - 1], "");
    }
  }

  lemma {:induction false} BareShowsAll(s: Scene, rank: nat -> nat, weigh: ChunkPart -> nat, n: Node)
    requires Ranked(s.v, rank) && BareDirectories(s.v, weigh) && Accounted(s, rank, weigh, n)
    ensures ShowsAll(s, rank, weigh, n)
  {
    BareFoldsNothingAll(s, rank, weigh, ToLayOut(s, n.sourceIndex));
    forall c | c in n.children
      ensures ShowsAll(s, rank, weigh, c)
    {
      BareShowsAll(s, rank, weigh, c);
    }
  }

  // If directories own no parts, every layout is additive.
  lemma LayoutAdditive(s: Scene, rank: nat -> nat, weigh: ChunkPart -> nat, filter: nat -> bool,
                       i: nat, foldedPath: string, rect: Option<Rect>)
    requires Ranked(s.v, rank) && Precomputed(s, rank, weigh, filter) && BareDirectories(s.v, weigh)
    ensures Additive(ComputeLayout(s, rank, i, foldedPath, rect))
  {
    LayoutAccounted(s, rank, weigh, filter, i, foldedPath, rect);
    BareShowsAll(s, rank, weigh, ComputeLayout(s, rank, i, foldedPath, rect));
    LayoutAdditiveExactly(s, rank, weigh, filter, i, foldedPath, rect);
  }
}
