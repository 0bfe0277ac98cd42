// The rectangles of the layout nodes: computeTreemapLayoutFromAnalyzeInternal in treemap-layout.ts
// over the layout of layout-treemap.ts.
module TreemapNesting {
  import opened Wrappers
  import opened SourceTree
  import opened TreemapLayout
  import opened TreemapTiling
  import opened TreemapCoverage
  import opened TreemapNodes

  // ---------- Rectangles of nodes ----------

  // A node fills the rectangle it is given, also when it is drawn folded.
  lemma {:induction false} NodeRect(s: Scene, rank: nat -> nat, i: nat, foldedPath: string, rect: Option<Rect>)
    requires Ranked(s.v, rank)
    ensures ComputeLayout(s, rank, i, foldedPath, rect).rect == rect
    decreases rank(i)
  {
    if Folds(s.v, i, foldedPath) {
      assert s.v.Children(i)[0] in s.v.Children(i);
      NodeRect(s, rank, s.v.Children(i)[0], foldedPath + PathOf(s.v, i), rect);
    }
  }

  function RectsOf(nodes: seq<Node>): seq<Option<Rect>> {
    seq(|nodes|, k requires 0 <= k < |nodes| => nodes[k].rect)
  }

  lemma RectsSnoc(nodes: seq<Node>, last: Node)
    ensures RectsOf(nodes + [last]) == RectsOf(nodes) + [last.rect]
  {
  }

  lemma LastLaidOut(s: Scene, rank: nat -> nat, cs: seq<nat>, bound: nat, rects: seq<Option<Rect>>) returns (last: Node)
    requires Ranked(s.v, rank) && 0 < |cs| <= |rects|
    requires forall c: nat :: c in cs ==> rank(c) < bound
    ensures forall c: nat :: c in cs[..|cs| - 1] ==> rank(c) < bound
    ensures last.rect == rects[|cs| - 1]
    ensures LayOutAll(s, rank, cs, bound, rects) == LayOutAll(s, rank, cs[..|cs| - 1], bound, rects) + [last]
  {
    var k := |cs| - 1;
    assert forall c: nat :: c in cs[..k] ==> c in cs;
    last := ComputeLayout(s, rank, cs[k], "", rects[k]);
    NodeRect(s, rank, cs[k], "", rects[k]);
  }

  lemma {:induction false} LaidOutRects(s: Scene, rank: nat -> nat, cs: seq<nat>, bound: nat, rects: seq<Option<Rect>>)
    requires Ranked(s.v, rank) && |cs| <= |rects|
    requires forall c: nat :: c in cs ==> rank(c) < bound
    ensures RectsOf(LayOutAll(s, rank, cs, bound, rects)) == rects[..|cs|]
    decreases |cs|
  {
    if cs != [] {
      var last := LastLaidOut(s, rank, cs, bound, rects);
      LaidOutRects(s, rank, cs[..|cs| - 1], bound, rects);
      RectsSnoc(LayOutAll(s, rank, cs[..|cs| - 1], bound, rects), last);
      assert rects[..|cs| - 1] + [rects[|cs| - 1]] == rects[..|cs|];
    }
  }

  lemma ContentIsInt(rect: Option<Rect>)
    ensures ContentRect(rect).Some? ==> IntRect(ContentRect(rect).value)
  {
    if rect.Some? {
      var r := rect.value;
      var title := TitleBarHeight(r);
      RoundClose(r.x);
      RoundClose(r.y + title);
      RoundClose(r.width - 2.0);
      RoundClose(r.height - title - 2.0);
      assert AsReal(0) == 0.0;
    }
  }

  // The children of an expanded directory are, in the order of their sizes, the laid-out rectangles
  // of its content; they tile the content exactly when every strip fits.
  lemma ChildrenTileExactly(s: Scene, rank: nat -> nat, i: nat, foldedPath: string, rect: Option<Rect>)
    requires Ranked(s.v, rank) && !Folds(s.v, i, foldedPath) && ToLayOut(s, i) != []
    requires ComputeLayout(s, rank, i, foldedPath, rect).kind == Directory
    requires ContentRect(rect).Some? && ContentRect(rect).value.width > 0.0 && ContentRect(rect).value.height > 0.0
    ensures var content := ContentRect(rect).value; var sizes := SizesOf(s, ToLayOut(s, i));
            && RectsOf(ComputeLayout(s, rank, i, foldedPath, rect).children) == Present(Layout(sizes, content))
            && (Tiles(Layout(sizes, content), content) <==> AllStripsFit(LaidSizes(sizes, content), content))
  {
    var cs, content := ToLayOut(s, i), ContentRect(rect).value;
    ToLayOutMembers(s, i);
    ContentIsInt(rect);
    var rects := ChildRects(SizesOf(s, cs), Some(content));
    LaidOutRects(s, rank, cs, rank(i), rects);
    assert rects[..|cs|] == rects;
    LayoutTilesExactly(SizesOf(s, cs), content);
  }

  // The content lies within the rectangle, below the title bar.
  lemma ContentInside(rect: Rect)
    requires IntRect(rect) && rect.width >= 2.0 && rect.height >= 30.0
    ensures var content := ContentRect(Some(rect)).value; var title := TitleBarHeight(rect);
            && content.x == rect.x && content.x + content.width == rect.x + rect.width - 2.0
            && content.y == rect.y + title && content.y + content.height == rect.y + rect.height - 2.0
            && content.height >= 4.0
  {
    var title := TitleBarHeight(rect);
    RoundClose(Max(12.0, Min(24.0, rect.height * 0.1)));
    assert AsReal(2) == 2.0;
    IntsAdd(rect.y, title);
    IntsAdd(rect.width, 2.0);
    IntsAdd(rect.height, title);
    IntsAdd(rect.height - title, 2.0);
    RoundOfInt(rect.x);
    RoundOfInt(rect.y + title);
    RoundOfInt(rect.width - 2.0);
    RoundOfInt(rect.height - title - 2.0);
  }

  // ---------- The whole layout ----------

  // Integer position and sides.
  ghost predicate OnGrid(r: Rect) {
    IsInt(r.x) && IsInt(r.y) && IsInt(r.width) && IsInt(r.height)
  }

  ghost predicate AllOnGrid(rs: seq<Rect>) {
    forall i :: 0 <= i < |rs| ==> OnGrid(rs[i])
  }

  lemma {:induction false} ItemsOnGrid(rect: Rect, vertical: bool, across: real, offset: real, extents: seq<real>)
    requires IsInt(across) && forall j :: 0 <= j < |extents| ==> IsInt(extents[j])
    ensures AllOnGrid(Items(rect, vertical, across, offset, extents))
    decreases |extents|
  {
    if extents != [] {
      ItemsOnGrid(rect, vertical, across, offset + extents[0], extents[1..]);
      RoundClose(rect.x);
      RoundClose(rect.y);
      RoundClose(rect.x + offset);
      RoundClose(rect.y + offset);
    }
  }

  // The layout of an integer rectangle keeps to integers.
  lemma {:induction false} SquarifyOnGrid(remaining: seq<real>, rect: Rect)
    requires Positive(remaining) && IntRect(rect)
    ensures AllOnGrid(Squarify(remaining, rect))
    decreases |remaining|
  {
    if |remaining| > 1 {
      StripFacts(remaining, rect);
      AfterStripInside(remaining, rect);
      ItemsOnGrid(rect, rect.width >= rect.height, StripAcross(remaining, rect), 0.0, StripExtents(remaining, rect));
      SquarifyOnGrid(remaining[Picked(remaining, rect)..], AfterStrip(remaining, rect));
    }
  }

  function Hits(rect: Option<Rect>, px: real, py: real): nat {
    if rect.Some? then Bit(Covers(rect.value, px, py)) else 0
  }

  // How many of the nodes that are drawn without children cover the point.
  function DrawnOver(n: Node, px: real, py: real): nat
    decreases n, |n.children| + 1
  {
    if n.children == [] then Hits(n.rect, px, py) else DrawnOverFirst(n, |n.children|, px, py)
  }

  function DrawnOverFirst(n: Node, k: nat, px: real, py: real): nat
    requires k <= |n.children|
    decreases n, k
  {
    if k == 0 then 0 else DrawnOverFirst(n, k - 1, px, py) + DrawnOver(n.children[k - 1], px, py)
  }

  // The content of the node is not empty, and every strip of its layout fits its side.
  ghost predicate FitsInside(s: Scene, n: Node) {
    && ContentRect(n.rect).Some?
    && var content, sizes := ContentRect(n.rect).value, SizesOf(s, ToLayOut(s, n.sourceIndex));
       content.width > 0.0 && content.height > 0.0 && AllStripsFit(LaidSizes(sizes, content), content)
  }

  // At every node of the layout that has children.
  ghost predicate FitsThroughout(s: Scene, n: Node) {
    && (n.children != [] ==> FitsInside(s, n))
    && forall c :: c in n.children ==> FitsThroughout(s, c)
  }

  lemma LaidOutLength(s: Scene, rank: nat -> nat, cs: seq<nat>, bound: nat, rects: seq<Option<Rect>>)
    requires Ranked(s.v, rank) && |cs| <= |rects|
    requires forall c: nat :: c in cs ==> rank(c) < bound
    ensures |LayOutAll(s, rank, cs, bound, rects)| == |cs|
  {
    LaidOutRects(s, rank, cs, bound, rects);
    assert |RectsOf(LayOutAll(s, rank, cs, bound, rects))| == |cs|;
  }

  lemma {:induction false} LaidOutAt(s: Scene, rank: nat -> nat, cs: seq<nat>, bound: nat, rects: seq<Option<Rect>>,
                                     k: nat, n: Node)
    requires Ranked(s.v, rank) && k < |cs| <= |rects|
    requires forall c: nat :: c in cs ==> rank(c) < bound
    requires n == ComputeLayout(s, rank, cs[k], "", rects[k])
    ensures |LayOutAll(s, rank, cs, bound, rects)| == |cs| && LayOutAll(s, rank, cs, bound, rects)[k] == n
    decreases |cs|
  {
    LaidOutLength(s, rank, cs, bound, rects);
    if k < |cs| - 1 {
      var last := LastLaidOut(s, rank, cs, bound, rects);
      LaidOutAt(s, rank, cs[..|cs| - 1], bound, rects, k, n);
    }
  }

  lemma TitleBounds(rect: Rect)
    ensures TitleBarHeight(rect) >= 0.0
  {
    RoundClose(Max(12.0, Min(24.0, rect.height * 0.1)));
  }

  // The rectangle of an expanded directory contains its content.
  lemma ContentCovers(rect: Rect, px: real, py: real)
    requires OnGrid(rect) && rect.height >= 30.0 && ContentRect(Some(rect)).value.width > 0.0
    ensures Bit(Covers(ContentRect(Some(rect)).value, px, py)) <= Bit(Covers(rect, px, py))
  {
    assert AsReal(2) == 2.0;
    IntsAdd(rect.width, 2.0);
    RoundOfInt(rect.width - 2.0);
    ContentInside(rect);
    TitleBounds(rect);
  }

  // The children cover no more than their rectangles, one after another.
  lemma {:induction false} DrawnWithinRects(n: Node, rs: seq<Rect>, k: nat, px: real, py: real)
    requires k <= |n.children| == |rs|
    requires forall j :: 0 <= j < |rs| ==> DrawnOver(n.children[j], px, py) <= Bit(Covers(rs[j], px, py))
    ensures DrawnOverFirst(n, k, px, py) <= Count(rs[..k], px, py)
  {
    if k > 0 {
      DrawnWithinRects(n, rs, k - 1, px, py);
      assert rs[..k] == rs[..k - 1] + [rs[k - 1]];
      CountAppend(rs[..k - 1], [rs[k - 1]], px, py);
      assert Count([rs[k - 1]], px, py) == Bit(Covers(rs[k - 1], px, py)) + Count([], px, py);
    }
  }

  // What an expanded node that fits looks like.
  lemma ExpandedLayout(s: Scene, rank: nat -> nat, i: nat, foldedPath: string, rect: Rect)
    requires Ranked(s.v, rank) && OnGrid(rect) && !Folds(s.v, i, foldedPath)
    requires ComputeLayout(s, rank, i, foldedPath, Some(rect)).children != []
    requires FitsInside(s, ComputeLayout(s, rank, i, foldedPath, Some(rect)))
    ensures var n := ComputeLayout(s, rank, i, foldedPath, Some(rect));
            var cs, content := ToLayOut(s, i), ContentRect(Some(rect)).value;
            var rs := Layout(SizesOf(s, cs), content);
            && rect.height >= 30.0 && |n.children| == |cs| == |rs| && AllOnGrid(rs) && Tiles(rs, content)
            && forall k :: 0 <= k < |cs| ==> n.children[k] == ComputeLayout(s, rank, cs[k], "", Some(rs[k]))
  {
    var n := ComputeLayout(s, rank, i, foldedPath, Some(rect));
    var cs, content := ToLayOut(s, i), ContentRect(Some(rect)).value;
    var sizes := SizesOf(s, cs);
    var rects := ChildRects(sizes, Some(content));
    ToLayOutMembers(s, i);
    ContentIsInt(Some(rect));
    LayoutTilesExactly(sizes, content);
    SquarifyOnGrid(LaidSizes(sizes, content), content);
    forall k | 0 <= k < |cs|
      ensures |n.children| == |cs| && n.children[k] == ComputeLayout(s, rank, cs[k], "", rects[k])
    {
      LaidOutAt(s, rank, cs, rank(i), rects, k, ComputeLayout(s, rank, cs[k], "", rects[k]));
    }
  }

  // If no child covers more than its rectangle, the expanded node covers no more than its own.
  lemma ExpandedWithin(s: Scene, rank: nat -> nat, i: nat, foldedPath: string, rect: Rect, px: real, py: real)
    requires Ranked(s.v, rank) && OnGrid(rect) && !Folds(s.v, i, foldedPath)
    requires ComputeLayout(s, rank, i, foldedPath, Some(rect)).children != []
    requires FitsInside(s, ComputeLayout(s, rank, i, foldedPath, Some(rect)))
    requires var n := ComputeLayout(s, rank, i, foldedPath, Some(rect));
             forall j :: 0 <= j < |n.children| ==> DrawnOver(n.children[j], px, py) <= Hits(n.children[j].rect, px, py)
    ensures DrawnOver(ComputeLayout(s, rank, i, foldedPath, Some(rect)), px, py) <= Bit(Covers(rect, px, py))
  {
    var n := ComputeLayout(s, rank, i, foldedPath, Some(rect));
    var cs, content := ToLayOut(s, i), ContentRect(Some(rect)).value;
    var rs := Layout(SizesOf(s, cs), content);
    ExpandedLayout(s, rank, i, foldedPath, rect);
    forall j | 0 <= j < |rs|
      ensures DrawnOver(n.children[j], px, py) <= Bit(Covers(rs[j], px, py))
    {
      NodeRect(s, rank, cs[j], "", Some(rs[j]));
    }
    DrawnWithinRects(n, rs, |rs|, px, py);
    assert rs[..|rs|] == rs;
    ContentCovers(rect, px, py);
  }

  // However deep the tree: the nodes drawn without children lie within the rectangle of the layout
  // and do not overlap, if every layout on the way fits.
  lemma {:induction false} DrawnApart(s: Scene, rank: nat -> nat, i: nat, foldedPath: string, rect: Rect, px: real,
                                      py: real)
    requires Ranked(s.v, rank) && OnGrid(rect)
    requires FitsThroughout(s, ComputeLayout(s, rank, i, foldedPath, Some(rect)))
    ensures DrawnOver(ComputeLayout(s, rank, i, foldedPath, Some(rect)), px, py) <= Bit(Covers(rect, px, py))
    decreases rank(i)
  {
    var n := ComputeLayout(s, rank, i, foldedPath, Some(rect));
    if Folds(s.v, i, foldedPath) {
      assert s.v.Children(i)[0] in s.v.Children(i);
      DrawnApart(s, rank, s.v.Children(i)[0], foldedPath + PathOf(s.v, i), rect, px, py);
    } else if n.children != [] {
      var cs := ToLayOut(s, i);
      var rs := Layout(SizesOf(s, cs), ContentRect(Some(rect)).value);
      ExpandedLayout(s, rank, i, foldedPath, rect);
      ToLayOutMembers(s, i);
      forall j | 0 <= j < |cs|
        ensures DrawnOver(n.children[j], px, py) <= Hits(n.children[j].rect, px, py)
      {
        assert cs[j] in cs && n.children[j] in n.children;
        NodeRect(s, rank, cs[j], "", Some(rs[j]));
        DrawnApart(s, rank, cs[j], "", rs[j], px, py);
      }
      ExpandedWithin(s, rank, i, foldedPath, rect, px, py);
    }
  }

  // The node at an address, child by child, is drawn without children and covers the point.
  ghost predicate DrawnAt(n: Node, address: seq<nat>, px: real, py: real)
    decreases |address|
  {
    if address == [] then n.children == [] && n.rect.Some? && Covers(n.rect.value, px, py)
    else address[0] < |n.children| && DrawnAt(n.children[address[0]], address[1..], px, py)
  }

  lemma {:induction false} ChildrenCounted(n: Node, k: nat, i: nat, j: nat, px: real, py: real)
    requires i <= j < k <= |n.children|
    ensures DrawnOverFirst(n, k, px, py)
            >= DrawnOver(n.children[j], px, py) + if i < j then DrawnOver(n.children[i], px, py) else 0
  {
    if j < k - 1 {
      ChildrenCounted(n, k - 1, i, j, px, py);
    } else if i < j {
      ChildrenCounted(n, k - 1, i, i, px, py);
    }
  }

  lemma {:induction false} DrawnIsCounted(n: Node, a: seq<nat>, px: real, py: real)
    requires DrawnAt(n, a, px, py)
    ensures DrawnOver(n, px, py) >= 1
    decreases |a|
  {
    if a != [] {
      DrawnIsCounted(n.children[a[0]], a[1..], px, py);
      ChildrenCounted(n, |n.children|, a[0], a[0], px, py);
    }
  }

  lemma {:induction false} BothAreCounted(n: Node, a: seq<nat>, b: seq<nat>, px: real, py: real)
    requires DrawnAt(n, a, px, py) && DrawnAt(n, b, px, py) && a != b
    ensures DrawnOver(n, px, py) >= 2
    decreases |a|
  {
    var i, j := a[0], b[0];
    if i == j {
      assert a == [i] + a[1..] && b == [i] + b[1..];
      BothAreCounted(n.children[i], a[1..], b[1..], px, py);
      ChildrenCounted(n, |n.children|, i, i, px, py);
    } else {
      DrawnIsCounted(n.children[i], a[1..], px, py);
      DrawnIsCounted(n.children[j], b[1..], px, py);
      ChildrenCounted(n, |n.children|, if i < j then i else j, if i < j then j else i, px, py);
    }
  }

  // So no two of them cover the same point, and none covers a point outside the rectangle.
  lemma DrawnOnce(s: Scene, rank: nat -> nat, i: nat, foldedPath: string, rect: Rect, px: real, py: real,
                  a: seq<nat>, b: seq<nat>)
    requires Ranked(s.v, rank) && OnGrid(rect)
    requires FitsThroughout(s, ComputeLayout(s, rank, i, foldedPath, Some(rect)))
    requires DrawnAt(ComputeLayout(s, rank, i, foldedPath, Some(rect)), a, px, py)
    requires DrawnAt(ComputeLayout(s, rank, i, foldedPath, Some(rect)), b, px, py)
    ensures a == b && Covers(rect, px, py)
  {
    var n := ComputeLayout(s, rank, i, foldedPath, Some(rect));
    DrawnApart(s, rank, i, foldedPath, rect, px, py);
    DrawnIsCounted(n, a, px, py);
    if a != b { BothAreCounted(n, a, b, px, py); }
  }
}
