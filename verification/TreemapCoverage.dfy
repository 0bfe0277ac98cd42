// When the squarified layout tiles its rectangle: exactly when in every strip the rounded shares of
// all items but the last leave room for the last.
module TreemapCoverage {
  import opened RealSums
  import opened TreemapLayout
  import opened TreemapTiling

  predicate Within(from: real, length: real, t: real) {
    from <= t < from + length
  }

  predicate Covers(r: Rect, px: real, py: real) {
    Within(r.x, r.width, px) && Within(r.y, r.height, py)
  }

  function Bit(b: bool): nat {
    if b then 1 else 0
  }

  // How many of the rectangles cover the point.
  function Count(rs: seq<Rect>, px: real, py: real): nat {
    if rs == [] then 0 else Bit(Covers(rs[0], px, py)) + Count(rs[1..], px, py)
  }

  // The rectangles cover each point of `rect` once and no other point.
  ghost predicate Tiles(rs: seq<Rect>, rect: Rect) {
    forall px: real, py: real :: Count(rs, px, py) == Bit(Covers(rect, px, py))
  }

  // One side is negative although the other is positive.
  predicate Inverted(r: Rect) {
    (r.width < 0.0 && r.height > 0.0) || (r.height < 0.0 && r.width > 0.0)
  }

  predicate Upright(rs: seq<Rect>) {
    forall i :: 0 <= i < |rs| ==> !Inverted(rs[i])
  }

  lemma {:induction false} CountAppend(a: seq<Rect>, b: seq<Rect>, px: real, py: real)
    ensures Count(a + b, px, py) == Count(a, px, py) + Count(b, px, py)
  {
    if a == [] {
      assert a + b == b;
    } else {
      CountAppend(a[1..], b, px, py);
      assert (a + b)[1..] == a[1..] + b;
    }
  }

  // ---------- Along a strip ----------

  // How many of the intervals, laid one after another from `from`, contain `t`.
  function CountAlong(extents: seq<real>, from: real, t: real): nat
    decreases |extents|
  {
    if extents == [] then 0 else Bit(Within(from, extents[0], t)) + CountAlong(extents[1..], from + extents[0], t)
  }

  lemma SumFront(xs: seq<real>)
    requires xs != []
    ensures SumR(xs) == xs[0] + SumR(xs[1..])
  {
    SumAppendR([xs[0]], xs[1..]);
    assert [xs[0]] + xs[1..] == xs && [xs[0]][..0] == [];
  }

  predicate NonNegative(xs: seq<real>) {
    forall i :: 0 <= i < |xs| ==> xs[i] >= 0.0
  }

  lemma {:induction false} SumNonNegative(xs: seq<real>)
    requires NonNegative(xs)
    ensures SumR(xs) >= 0.0
  {
    if xs != [] { SumNonNegative(xs[..|xs| - 1]); }
  }

  lemma {:induction false} IntervalsPartition(extents: seq<real>, from: real, t: real)
    requires NonNegative(extents)
    ensures CountAlong(extents, from, t) == Bit(Within(from, SumR(extents), t))
    decreases |extents|
  {
    if extents != [] {
      SumFront(extents);
      SumNonNegative(extents[1..]);
      IntervalsPartition(extents[1..], from + extents[0], t);
    }
  }

  lemma {:induction false} CountAlongAppend(a: seq<real>, b: seq<real>, from: real, t: real)
    ensures CountAlong(a + b, from, t) == CountAlong(a, from, t) + CountAlong(b, from + SumR(a), t)
    decreases |a|
  {
    if a == [] {
      assert a + b == b;
    } else {
      SumFront(a);
      CountAlongAppend(a[1..], b, from + a[0], t);
      assert (a + b)[1..] == a[1..] + b;
    }
  }

  // If only the last interval is negative, the others reach beyond the end of the whole.
  lemma OverrunCovered(extents: seq<real>, from: real)
    requires extents != [] && NonNegative(extents[..|extents| - 1]) && extents[|extents| - 1] < 0.0
    requires SumR(extents) >= 0.0
    ensures CountAlong(extents, from, from + SumR(extents)) == 1
  {
    var init, last := extents[..|extents| - 1], extents[|extents| - 1];
    var t := from + SumR(extents);
    CountAlongAppend(init, [last], from, t);
    assert extents == init + [last];
    IntervalsPartition(init, from, t);
    assert CountAlong([last], from + SumR(init), t)
           == Bit(Within(from + SumR(init), last, t)) + CountAlong([], from + SumR(init) + last, t);
  }

  // Only the last item of a strip can come out negative.
  lemma EarlierExtentsNonNegative(shares: seq<real>, along: real)
    requires shares != [] && NonNegative(shares)
    ensures NonNegative(Extents(shares, along, 0.0)[..|shares| - 1])
  {
    forall j | 0 <= j < |shares| - 1
      ensures Extents(shares, along, 0.0)[j] >= 0.0
    {
      ExtentAt(shares, along, 0.0, j);
      assert (shares[j] + 0.5).Floor >= 0;
    }
  }

  // ---------- A strip ----------

  function StartAcross(rect: Rect, vertical: bool): real {
    if vertical then rect.x else rect.y
  }

  function StartAlong(rect: Rect, vertical: bool): real {
    if vertical then rect.y else rect.x
  }

  function PointAcross(vertical: bool, px: real, py: real): real {
    if vertical then px else py
  }

  function PointAlong(vertical: bool, px: real, py: real): real {
    if vertical then py else px
  }

  // A strip covers a point as often as its intervals do, within the strip's extent across.
  lemma {:induction false} ItemsCount(rect: Rect, vertical: bool, across: real, offset: real, extents: seq<real>,
                                      px: real, py: real)
    requires IsInt(rect.x) && IsInt(rect.y) && IsInt(offset)
    requires forall i :: 0 <= i < |extents| ==> IsInt(extents[i])
    ensures Count(Items(rect, vertical, across, offset, extents), px, py)
            == if Within(StartAcross(rect, vertical), across, PointAcross(vertical, px, py))
               then CountAlong(extents, StartAlong(rect, vertical) + offset, PointAlong(vertical, px, py)) else 0
    decreases |extents|
  {
    if extents != [] {
      var e := extents[0];
      IntsAdd(offset, e);
      IntsAdd(StartAlong(rect, vertical), offset);
      RoundOfInt(StartAlong(rect, vertical) + offset);
      RoundOfInt(StartAcross(rect, vertical));
      ItemsCount(rect, vertical, across, offset + e, extents[1..], px, py);
      var items := Items(rect, vertical, across, offset, extents);
      assert items[1..] == Items(rect, vertical, across, offset + e, extents[1..]);
      assert StartAlong(rect, vertical) + (offset + e) == StartAlong(rect, vertical) + offset + e;
    }
  }

  // The part of the rectangle that a strip is meant to fill.
  function Slice(rect: Rect, vertical: bool, across: real): Rect {
    if vertical then Rect(rect.x, rect.y, across, rect.height) else Rect(rect.x, rect.y, rect.width, across)
  }

  // A strip: its extents are integers that add up to the side, and only the last can be negative.
  ghost predicate IsStrip(rect: Rect, vertical: bool, across: real, extents: seq<real>) {
    && IntRect(rect) && 0.0 <= across <= Across(rect, vertical)
    && extents != [] && SumR(extents) == Along(rect, vertical)
    && (forall i :: 0 <= i < |extents| ==> IsInt(extents[i]))
    && NonNegative(extents[..|extents| - 1])
  }

  lemma ZeroIsInt()
    ensures IsInt(0.0)
  {
    assert AsReal(0) == 0.0;
  }

  lemma FilledStrip(rect: Rect, vertical: bool, across: real, extents: seq<real>)
    requires IsStrip(rect, vertical, across, extents)
    requires across == 0.0 || extents[|extents| - 1] >= 0.0
    ensures Tiles(Items(rect, vertical, across, 0.0, extents), Slice(rect, vertical, across))
  {
    ZeroIsInt();
    forall px: real, py: real
      ensures Count(Items(rect, vertical, across, 0.0, extents), px, py)
              == Bit(Covers(Slice(rect, vertical, across), px, py))
    {
      ItemsCount(rect, vertical, across, 0.0, extents, px, py);
      if across > 0.0 {
        assert extents == extents[..|extents| - 1] + [extents[|extents| - 1]];
        IntervalsPartition(extents, StartAlong(rect, vertical), PointAlong(vertical, px, py));
      }
    }
  }

  // An overrun strip covers a point beyond the far side of the rectangle.
  lemma OverrunStrip(rect: Rect, vertical: bool, across: real, extents: seq<real>) returns (px: real, py: real)
    requires IsStrip(rect, vertical, across, extents)
    requires across > 0.0 && extents[|extents| - 1] < 0.0
    ensures Count(Items(rect, vertical, across, 0.0, extents), px, py) == 1 && !Covers(rect, px, py)
  {
    ZeroIsInt();
    px := if vertical then rect.x else rect.x + rect.width;
    py := if vertical then rect.y + rect.height else rect.y;
    ItemsCount(rect, vertical, across, 0.0, extents, px, py);
    OverrunCovered(extents, StartAlong(rect, vertical));
  }

  lemma {:induction false} ItemShape(rect: Rect, vertical: bool, across: real, offset: real, extents: seq<real>, i: nat)
    requires i < |extents|
    ensures var item := Items(rect, vertical, across, offset, extents)[i];
            Across(item, vertical) == across && Along(item, vertical) == extents[i]
    decreases |extents|
  {
    if i > 0 { ItemShape(rect, vertical, across, offset + extents[0], extents[1..], i - 1); }
  }

  lemma StripUpright(rect: Rect, vertical: bool, across: real, extents: seq<real>)
    requires IsStrip(rect, vertical, across, extents)
    ensures Upright(Items(rect, vertical, across, 0.0, extents)) <==> across == 0.0 || extents[|extents| - 1] >= 0.0
  {
    var items := Items(rect, vertical, across, 0.0, extents);
    forall i | 0 <= i < |items|
      ensures Inverted(items[i]) <==> across > 0.0 && extents[i] < 0.0
    {
      ItemShape(rect, vertical, across, 0.0, extents, i);
    }
    assert forall i :: 0 <= i < |extents| - 1 ==> extents[..|extents| - 1][i] == extents[i];
  }

  // ---------- The whole layout ----------

  lemma SharesNonNegative(picked: seq<real>, sum: real, along: real)
    requires Positive(picked) && sum > 0.0 && along >= 0.0
    ensures NonNegative(Shares(picked, sum, along))
  {
    forall i | 0 <= i < |picked|
      ensures ShareOf(picked[i], sum, along) >= 0.0
    {
      var q := picked[i] / sum;
      assert q >= 0.0;
    }
  }

  lemma FirstStrip(remaining: seq<real>, rect: Rect)
    requires Positive(remaining) && remaining != [] && IntRect(rect)
    ensures IsStrip(rect, rect.width >= rect.height, StripAcross(remaining, rect), StripExtents(remaining, rect))
  {
    var picked, along := remaining[..Picked(remaining, rect)], Along(rect, rect.width >= rect.height);
    StripFacts(remaining, rect);
    SumPositive(picked);
    SharesNonNegative(picked, SumR(picked), along);
    EarlierExtentsNonNegative(Shares(picked, SumR(picked), along), along);
  }

  // A rectangle is its slice and what is left of it.
  lemma SliceAndRest(rect: Rect, vertical: bool, across: real, px: real, py: real)
    requires 0.0 <= across <= Across(rect, vertical)
    ensures Bit(Covers(rect, px, py))
            == Bit(Covers(Slice(rect, vertical, across), px, py)) + Bit(Covers(Cut(rect, vertical, across), px, py))
  {
  }

  lemma UprightAppend(a: seq<Rect>, b: seq<Rect>)
    ensures Upright(a + b) <==> Upright(a) && Upright(b)
  {
    assert forall i :: 0 <= i < |a| ==> (a + b)[i] == a[i];
    assert forall i :: 0 <= i < |b| ==> (a + b)[|a| + i] == b[i];
  }

  // The layout of what is left decides for the whole once the first strip fills its slice.
  lemma StripThenRest(items: seq<Rect>, rest: seq<Rect>, rect: Rect, vertical: bool, across: real)
    requires 0.0 <= across <= Across(rect, vertical)
    requires Tiles(items, Slice(rect, vertical, across))
    ensures Tiles(items + rest, rect) <==> Tiles(rest, Cut(rect, vertical, across))
  {
    forall px: real, py: real
      ensures Count(items + rest, px, py) == Bit(Covers(rect, px, py))
              <==> Count(rest, px, py) == Bit(Covers(Cut(rect, vertical, across), px, py))
    {
      CountAppend(items, rest, px, py);
      SliceAndRest(rect, vertical, across, px, py);
      assert Count(items, px, py) == Bit(Covers(Slice(rect, vertical, across), px, py));
    }
  }

  lemma NothingTilesNothing(rect: Rect)
    requires rect.width == 0.0 || rect.height == 0.0
    ensures Tiles([], rect)
  {
  }

  // The layout tiles its rectangle exactly when no rectangle comes out inverted.
  lemma {:induction false} SquarifyTiles(remaining: seq<real>, rect: Rect)
    requires Positive(remaining) && remaining != [] && IntRect(rect)
    ensures Tiles(Squarify(remaining, rect), rect) <==> Upright(Squarify(remaining, rect))
    decreases |remaining|
  {
    if |remaining| == 1 {
      assert forall px: real, py: real :: Count([rect], px, py) == Bit(Covers(rect, px, py)) + Count([], px, py);
    } else {
      var vertical, across, extents :=
        rect.width >= rect.height, StripAcross(remaining, rect), StripExtents(remaining, rect);
      var items, tail, rest :=
        Strip(remaining, rect), remaining[Picked(remaining, rect)..], AfterStrip(remaining, rect);
      FirstStrip(remaining, rect);
      AfterStripIsCut(remaining, rect);
      StripUpright(rect, vertical, across, extents);
      UprightAppend(items, Squarify(tail, rest));
      if across > 0.0 && extents[|extents| - 1] < 0.0 {
        var px, py := OverrunStrip(rect, vertical, across, extents);
        CountAppend(items, Squarify(tail, rest), px, py);
        assert Count(Squarify(remaining, rect), px, py) != Bit(Covers(rect, px, py));
      } else {
        FilledStrip(rect, vertical, across, extents);
        StripThenRest(items, Squarify(tail, rest), rect, vertical, across);
        if tail != [] {
          SquarifyTiles(tail, rest);
        } else {
          NothingLeft(remaining, rect);
          NothingTilesNothing(rest);
        }
      }
    }
  }

  // ---------- The guard ----------

  function RoundedSum(shares: seq<real>): real {
    if shares == [] then 0.0 else RoundedSum(shares[..|shares| - 1]) + Round(shares[|shares| - 1])
  }

  // The rounded shares of all items but the last leave room for the last, or the strip is empty anyway.
  predicate StripFits(remaining: seq<real>, rect: Rect)
    requires Positive(remaining) && remaining != []
  {
    var picked, along := remaining[..Picked(remaining, rect)], Along(rect, rect.width >= rect.height);
    SumPositive(picked);
    StripAcross(remaining, rect) == 0.0 || RoundedSum(Shares(picked, SumR(picked), along)[..|picked| - 1]) <= along
  }

  predicate AllStripsFit(remaining: seq<real>, rect: Rect)
    requires Positive(remaining)
    decreases |remaining|
  {
    |remaining| <= 1
    || (StripFits(remaining, rect) && AllStripsFit(remaining[Picked(remaining, rect)..], AfterStrip(remaining, rect)))
  }

  lemma {:induction false} RoundedExtents(shares: seq<real>, along: real, j: nat)
    requires j < |shares|
    ensures SumR(Extents(shares, along, 0.0)[..j]) == RoundedSum(shares[..j])
  {
    var e := Extents(shares, along, 0.0);
    if j > 0 {
      RoundedExtents(shares, along, j - 1);
      ExtentAt(shares, along, 0.0, j - 1);
      assert e[..j][..j - 1] == e[..j - 1] && shares[..j][..j - 1] == shares[..j - 1];
    }
  }

  // The last item is as long as the side less the rounded shares of the others.
  lemma LastExtent(shares: seq<real>, along: real)
    requires shares != [] && IsInt(along)
    ensures Extents(shares, along, 0.0)[|shares| - 1] == along - RoundedSum(shares[..|shares| - 1])
  {
    ExtentsFill(shares, along);
    RoundedExtents(shares, along, |shares| - 1);
  }

  lemma StripUprightWhenFits(remaining: seq<real>, rect: Rect)
    requires Positive(remaining) && remaining != [] && IntRect(rect)
    ensures Upright(Strip(remaining, rect)) <==> StripFits(remaining, rect)
  {
    var picked, along := remaining[..Picked(remaining, rect)], Along(rect, rect.width >= rect.height);
    SumPositive(picked);
    FirstStrip(remaining, rect);
    StripUpright(rect, rect.width >= rect.height, StripAcross(remaining, rect), StripExtents(remaining, rect));
    LastExtent(Shares(picked, SumR(picked), along), along);
  }

  // No rectangle comes out inverted exactly when every strip fits its side.
  lemma {:induction false} UprightWhenStripsFit(remaining: seq<real>, rect: Rect)
    requires Positive(remaining) && IntRect(rect)
    ensures Upright(Squarify(remaining, rect)) <==> AllStripsFit(remaining, rect)
    decreases |remaining|
  {
    if |remaining| > 1 {
      var tail, rest := remaining[Picked(remaining, rect)..], AfterStrip(remaining, rect);
      AfterStripIsCut(remaining, rect);
      StripUprightWhenFits(remaining, rect);
      UprightAppend(Strip(remaining, rect), Squarify(tail, rest));
      UprightWhenStripsFit(tail, rest);
    }
  }

  // For positive sizes and an integer rectangle of positive sides: the layout is a tiling exactly
  // when every strip fits its side.
  lemma LayoutTilesExactly(sizes: seq<real>, rect: Rect)
    requires Positive(sizes) && sizes != [] && IntRect(rect) && rect.width > 0.0 && rect.height > 0.0
    ensures Tiles(Layout(sizes, rect), rect) <==> AllStripsFit(LaidSizes(sizes, rect), rect)
  {
    SquarifyTiles(LaidSizes(sizes, rect), rect);
    UprightWhenStripsFit(LaidSizes(sizes, rect), rect);
  }

  // And exactly when no rectangle comes out inverted.
  lemma LayoutTilesIffUpright(sizes: seq<real>, rect: Rect)
    requires Positive(sizes) && sizes != [] && IntRect(rect) && rect.width > 0.0 && rect.height > 0.0
    ensures Tiles(Layout(sizes, rect), rect) <==> Upright(Layout(sizes, rect))
  {
    SquarifyTiles(LaidSizes(sizes, rect), rect);
  }

  lemma {:induction false} CountHits(rs: seq<Rect>, px: real, py: real, b: nat)
    requires b < |rs| && Covers(rs[b], px, py)
    ensures Count(rs, px, py) >= 1
    decreases |rs|
  {
    if b > 0 { CountHits(rs[1..], px, py, b - 1); }
  }

  // In a tiling no two rectangles overlap.
  lemma {:induction false} TilingIsDisjoint(rs: seq<Rect>, px: real, py: real, a: nat, b: nat)
    requires Count(rs, px, py) <= 1 && a < b < |rs|
    ensures !(Covers(rs[a], px, py) && Covers(rs[b], px, py))
    decreases |rs|
  {
    if a > 0 {
      TilingIsDisjoint(rs[1..], px, py, a - 1, b - 1);
    } else {
      if Covers(rs[b], px, py) { CountHits(rs[1..], px, py, b - 1); }
    }
  }

  // ---------- A layout that is no tiling ----------

  // A hundred items of one byte in a narrow rectangle, and what is laid out of them.
  const CROWDED: seq<real> := seq(100, _ => 1.0)
  const NARROW: Rect := Rect(0.0, 0.0, 2.0, 16.0)
  const CROWDED_SHARES: seq<real> := seq(100, _ => 0.32)

  lemma CrowdedShares()
    ensures Positive(CROWDED) && LaidSizes(CROWDED, NARROW) == CROWDED_SHARES
  {
    SumOfEqual(CROWDED, 1.0);
    var laid := Normalize(CROWDED, 100.0, NARROW);
    assert forall i :: 0 <= i < 100 ==> laid[i] == 1.0 / 100.0 * 2.0 * 16.0 == 0.32;
    assert laid == CROWDED_SHARES;
  }

  lemma CrowdedSums()
    ensures Positive(CROWDED_SHARES) && SumR(CROWDED_SHARES) == 32.0 && SumR(CROWDED_SHARES[..4]) == 1.28
  {
    SumOfEqual(CROWDED_SHARES, 0.32);
    SumOfEqual(CROWDED_SHARES[..4], 0.32);
  }

  // The first strip takes four items.
  lemma CrowdedPick()
    requires Positive(CROWDED_SHARES)
    ensures Picked(CROWDED_SHARES, NARROW) == 4
  {
    CrowdedSums();
    var c, r := CROWDED_SHARES, NARROW;
    assert !Full(r, false, 0.32, 32.0, 1) && !Full(r, false, 0.64, 32.0, 2) && !Full(r, false, 0.96, 32.0, 3);
    assert Full(r, false, 1.28, 32.0, 4);
    assert PickFrom(c, r, false, 32.0, 3, 0.96) == 4;
    assert PickFrom(c, r, false, 32.0, 2, 0.64) == 4;
    assert PickFrom(c, r, false, 32.0, 1, 0.32) == 4;
  }

  lemma HalvesOverrun()
    ensures Extents([0.5, 0.5, 0.5, 0.5], 2.0, 0.0) == [1.0, 1.0, 1.0, -1.0]
  {
    assert Round(0.5) == 1.0 && Round(2.0 - 3.0) == -1.0;
    assert [0.5, 0.5][1..] == [0.5] && [0.5, 0.5, 0.5][1..] == [0.5, 0.5]
           && [0.5, 0.5, 0.5, 0.5][1..] == [0.5, 0.5, 0.5];
    assert Extents([0.5], 2.0, 3.0) == [-1.0];
    assert Extents([0.5, 0.5], 2.0, 2.0) == [1.0, -1.0];
    assert Extents([0.5, 0.5, 0.5], 2.0, 1.0) == [1.0, 1.0, -1.0];
  }

  // Each of them has an exact share of 0.5, rounded up to 1 three times.
  lemma CrowdedExtents()
    requires Positive(CROWDED_SHARES)
    ensures StripExtents(CROWDED_SHARES, NARROW) == [1.0, 1.0, 1.0, -1.0]
    ensures StripAcross(CROWDED_SHARES, NARROW) == 1.0
  {
    CrowdedSums();
    CrowdedPick();
    assert ShareOf(0.32, 1.28, 2.0) == 0.5 && ShareOf(1.28, 32.0, 16.0) == 0.64 && Round(0.64) == 1.0;
    var shares := Shares(CROWDED_SHARES[..4], 1.28, 2.0);
    assert shares == [0.5, 0.5, 0.5, 0.5];
    HalvesOverrun();
  }

  // They come out with an inverted rectangle, and no tiling.
  lemma NotEveryLayoutTiles()
    ensures Positive(CROWDED) && !Upright(Layout(CROWDED, NARROW)) && !Tiles(Layout(CROWDED, NARROW), NARROW)
  {
    CrowdedShares();
    CrowdedSums();
    CrowdedExtents();
    ItemShape(NARROW, false, 1.0, 0.0, [1.0, 1.0, 1.0, -1.0], 3);
    var items := Strip(CROWDED_SHARES, NARROW);
    assert Inverted(items[3]) && Squarify(CROWDED_SHARES, NARROW)[3] == items[3];
    assert AsReal(0) == 0.0 && AsReal(2) == 2.0 && AsReal(16) == 16.0;
    LayoutTilesIffUpright(CROWDED, NARROW);
  }
}
