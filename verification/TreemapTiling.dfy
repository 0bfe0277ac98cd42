// What the squarified layout promises: area, rounding error, and when it is a tiling.
module TreemapTiling {
  import opened RealSums
  import opened TreemapLayout

  // ---------- How many items a strip takes ----------

  function Longer(rect: Rect): real {
    if rect.width < rect.height then rect.height else rect.width
  }

  function Shorter(rect: Rect): real {
    if rect.width < rect.height then rect.width else rect.height
  }

  lemma TimesBoth(a: real, b: real, c: real)
    requires c > 0.0
    ensures a > b <==> a * c > b * c
  {
    if a > b {
      assert (a - b) * c > 0.0;
    } else {
      assert (b - a) * c >= 0.0;
    }
  }

  // The test without its divisions.
  lemma FractionsCleared(k: real, longer: real, shorter: real, sum: real, total: real)
    requires total > 0.0 && k > 0.0
    ensures longer * sum / total > shorter / k * 0.9 <==> k * longer * sum > 0.9 * shorter * total
  {
    var left, right := longer * sum / total, shorter / k * 0.9;
    TimesBoth(left, right, total * k);
    assert left * total == longer * sum && shorter / k * k == shorter;
    assert left * (total * k) == k * longer * sum by { assert left * (total * k) == left * total * k; }
    assert right * (total * k) == 0.9 * shorter * total
      by { assert right * (total * k) == shorter / k * k * 0.9 * total; }
  }

  lemma {:induction false} PickFromLeast(remaining: seq<real>, rect: Rect, vertical: bool, total: real, count: nat)
    requires total > 0.0 && count <= |remaining|
    ensures var k := PickFrom(remaining, rect, vertical, total, count, SumR(remaining[..count]));
            && (forall j: nat :: count < j < k ==> !Full(rect, vertical, SumR(remaining[..j]), total, j))
            && (count < k < |remaining| ==> Full(rect, vertical, SumR(remaining[..k]), total, k))
    decreases |remaining| - count
  {
    if count < |remaining| {
      SumNextR(remaining, count);
      PickNext(remaining, rect, vertical, total, count, SumR(remaining[..count]));
      PickFromLeast(remaining, rect, vertical, total, count + 1);
    }
  }

  // The first k items fill a strip if k times the longer side times their sum exceeds 0.9 times
  // the shorter side times the sum of all.
  ghost predicate Enough(rect: Rect, sum: real, total: real, k: nat) {
    k as real * Longer(rect) * sum > 0.9 * Shorter(rect) * total
  }

  lemma FullExactly(rect: Rect, sum: real, total: real, k: nat)
    requires total > 0.0 && k > 0
    ensures Full(rect, rect.width >= rect.height, sum, total, k) <==> Enough(rect, sum, total, k)
  {
    if rect.width >= rect.height {
      FractionsCleared(k as real, rect.width, rect.height, sum, total);
    } else {
      FractionsCleared(k as real, rect.height, rect.width, sum, total);
    }
  }

  ghost predicate Suffices(remaining: seq<real>, rect: Rect, k: nat)
    requires k <= |remaining|
  {
    Enough(rect, SumR(remaining[..k]), SumR(remaining), k)
  }

  // A strip takes the least number of items that suffices, or all.
  lemma PickedLeast(remaining: seq<real>, rect: Rect)
    requires Positive(remaining) && remaining != []
    ensures var k := Picked(remaining, rect);
            && 0 < k <= |remaining|
            && (forall j: nat :: 0 < j < k ==> !Suffices(remaining, rect, j))
            && (k < |remaining| ==> Suffices(remaining, rect, k))
  {
    SumPositive(remaining);
    var k, total := Picked(remaining, rect), SumR(remaining);
    PickFromLeast(remaining, rect, rect.width >= rect.height, total, 0);
    FullExactly(rect, SumR(remaining[..k]), total, k);
    forall j: nat | 0 < j < k
      ensures !Suffices(remaining, rect, j)
    {
      FullExactly(rect, SumR(remaining[..j]), total, j);
    }
  }

  lemma SufficesEitherWay(remaining: seq<real>, rect: Rect, turned: Rect, k: nat)
    requires turned.width == rect.height && turned.height == rect.width && k <= |remaining|
    ensures Suffices(remaining, turned, k) <==> Suffices(remaining, rect, k)
  {
    assert Longer(turned) == Longer(rect) && Shorter(turned) == Shorter(rect);
  }

  // So it makes no difference whether the rectangle is wide or tall.
  lemma PickedEitherWay(remaining: seq<real>, rect: Rect, turned: Rect)
    requires Positive(remaining) && remaining != []
    requires turned.width == rect.height && turned.height == rect.width
    ensures Picked(remaining, turned) == Picked(remaining, rect)
  {
    PickedLeast(remaining, rect);
    PickedLeast(remaining, turned);
    SufficesEitherWay(remaining, rect, turned, Picked(remaining, rect));
    SufficesEitherWay(remaining, rect, turned, Picked(remaining, turned));
  }

  // ---------- Four squares ----------

  // Items of size 2 in a rectangle of height 2 that starts at (x, 0).
  const TWOS: seq<real> := [2.0, 2.0]
  const FOUR_TWOS: seq<real> := [2.0, 2.0, 2.0, 2.0]

  function Lying(x: int, width: real): Rect {
    Rect(x as real, 0.0, width, 2.0)
  }

  lemma RoundedInts(n: int)
    ensures Round(n as real) == n as real
  {
    RoundExact(n as real, n);
  }

  lemma TwosSum()
    ensures SumR([2.0]) == 2.0 && SumR(TWOS) == 4.0 && SumR(FOUR_TWOS) == 8.0
    ensures FOUR_TWOS[..1] == TWOS[..1] == [2.0] && FOUR_TWOS[..2] == TWOS[..2] == TWOS && FOUR_TWOS[2..] == TWOS
  {
    assert [2.0][..0] == [] && TWOS[..1] == [2.0] && FOUR_TWOS[..2] == TWOS;
    SumNextR(FOUR_TWOS, 2);
    SumNextR(FOUR_TWOS, 3);
    assert FOUR_TWOS[..4] == FOUR_TWOS;
  }

  // The first two items stand one above the other.
  lemma StripOfTwo(remaining: seq<real>, x: int, width: nat)
    requires TWOS <= remaining && Positive(remaining) && width >= 2 && SumR(remaining) == 2.0 * width as real
    requires Picked(remaining, Lying(x, width as real)) == 2
    ensures Strip(remaining, Lying(x, width as real))
            == [Rect(x as real, 0.0, 2.0, 1.0), Rect(x as real, 1.0, 2.0, 1.0)]
    ensures StripAcross(remaining, Lying(x, width as real)) == 2.0
  {
    var rect := Lying(x, width as real);
    TwosSum();
    assert remaining[..2] == TWOS;
    assert ShareOf(4.0, 2.0 * width as real, width as real) == 2.0 by {
      assert 4.0 / (2.0 * width as real) * (2.0 * width as real) == 4.0;
    }
    RoundedInts(x);
    RoundedInts(0);
    RoundedInts(1);
    RoundedInts(2);
    assert ShareOf(2.0, 4.0, 2.0) == 1.0;
    assert Shares(TWOS, 4.0, 2.0) == [1.0, 1.0];
    assert [1.0, 1.0][1..] == [1.0];
    assert Extents([1.0], 2.0, 1.0) == [1.0] && Extents([1.0, 1.0], 2.0, 0.0) == [1.0, 1.0];
    assert Items(rect, true, 2.0, 1.0, [1.0]) == [Rect(x as real, 1.0, 2.0, 1.0)];
  }

  lemma TwosPicked(remaining: seq<real>, x: int, width: nat)
    requires (remaining == TWOS && width == 2) || (remaining == FOUR_TWOS && width == 4)
    ensures Picked(remaining, Lying(x, width as real)) == 2
  {
    TwosSum();
    PickedLeast(remaining, Lying(x, width as real));
  }

  lemma RightColumn()
    ensures Squarify(TWOS, Lying(2, 2.0)) == [Rect(2.0, 0.0, 2.0, 1.0), Rect(2.0, 1.0, 2.0, 1.0)]
  {
    TwosSum();
    TwosPicked(TWOS, 2, 2);
    StripOfTwo(TWOS, 2, 2);
    assert Squarify(TWOS, Lying(2, 2.0)) == Strip(TWOS, Lying(2, 2.0));
  }

  lemma BothColumns()
    ensures Squarify(FOUR_TWOS, Lying(0, 4.0))
            == [Rect(0.0, 0.0, 2.0, 1.0), Rect(0.0, 1.0, 2.0, 1.0), Rect(2.0, 0.0, 2.0, 1.0), Rect(2.0, 1.0, 2.0, 1.0)]
  {
    TwosSum();
    TwosPicked(FOUR_TWOS, 0, 4);
    StripOfTwo(FOUR_TWOS, 0, 4);
    RoundedInts(2);
    RoundedInts(0);
    assert Rest(Lying(0, 4.0), true, 2.0) == Lying(2, 2.0);
    RightColumn();
  }

  const FOUR_ONES: seq<real> := [1.0, 1.0, 1.0, 1.0]

  lemma OnesNormalized()
    ensures SumR(FOUR_ONES) == 4.0 && Normalize(FOUR_ONES, 4.0, Lying(0, 4.0)) == FOUR_TWOS
  {
    SumOfEqual(FOUR_ONES, 1.0);
    assert 1.0 / 4.0 * 4.0 * 2.0 == 2.0;
  }

  // Four equal sizes in a rectangle of 4 by 2: two columns of two.
  lemma FourSquares()
    ensures Layout(FOUR_ONES, Rect(0.0, 0.0, 4.0, 2.0))
            == [Rect(0.0, 0.0, 2.0, 1.0), Rect(0.0, 1.0, 2.0, 1.0), Rect(2.0, 0.0, 2.0, 1.0), Rect(2.0, 1.0, 2.0, 1.0)]
  {
    OnesNormalized();
    BothColumns();
  }

  // ---------- Extents of a strip ----------

  lemma {:induction false} ExtentAt(shares: seq<real>, along: real, offset: real, j: nat)
    requires j < |shares|
    ensures var e := Extents(shares, along, offset);
            e[j] == if j < |shares| - 1 then Round(shares[j]) else Round(along - offset - SumR(e[..j]))
    decreases |shares|
  {
    var e := Extents(shares, along, offset);
    if j > 0 {
      ExtentAt(shares[1..], along, offset + e[0], j - 1);
      var tail := Extents(shares[1..], along, offset + e[0]);
      assert e[..j] == [e[0]] + tail[..j - 1];
      SumAppendR([e[0]], tail[..j - 1]);
      assert [e[0]][..0] == [];
    }
  }

  lemma {:induction false} PrefixInt(xs: seq<real>)
    requires forall i :: 0 <= i < |xs| ==> IsInt(xs[i])
    ensures IsInt(SumR(xs))
  {
    if xs == [] {
      assert AsReal(0) == 0.0;
    } else {
      PrefixInt(xs[..|xs| - 1]);
      IntsAdd(SumR(xs[..|xs| - 1]), xs[|xs| - 1]);
    }
  }

  // Extents are integers and add up to the side.
  lemma ExtentsFill(shares: seq<real>, along: real)
    requires shares != [] && IsInt(along)
    ensures var e := Extents(shares, along, 0.0);
            SumR(e) == along && forall j :: 0 <= j < |e| ==> IsInt(e[j])
  {
    var e := Extents(shares, along, 0.0);
    var k := |shares| - 1;
    forall j | 0 <= j < |e|
      ensures IsInt(e[j])
    {
      ExtentAt(shares, along, 0.0, j);
      RoundClose(if j < k then shares[j] else along - 0.0 - SumR(e[..j]));
    }
    ExtentAt(shares, along, 0.0, k);
    PrefixInt(e[..k]);
    IntsAdd(along, SumR(e[..k]));
    RoundOfInt(along - SumR(e[..k]));
  }

  // ---------- Rounding error ----------

  lemma {:induction false} OffsetError(shares: seq<real>, along: real, j: nat)
    requires j < |shares|
    ensures var e := Extents(shares, along, 0.0);
            -(j as real) / 2.0 <= SumR(e[..j]) - SumR(shares[..j]) <= j as real / 2.0
  {
    var e := Extents(shares, along, 0.0);
    if j > 0 {
      OffsetError(shares, along, j - 1);
      ExtentAt(shares, along, 0.0, j - 1);
      RoundClose(shares[j - 1]);
      assert e[..j][..j - 1] == e[..j - 1] && shares[..j][..j - 1] == shares[..j - 1];
    }
  }

  // In a strip of k items, item j starts within j/2 of its exact offset, and the last item's
  // extent is within (k - 1)/2 of its exact share.
  lemma StripRoundingError(shares: seq<real>, along: real, j: nat)
    requires j < |shares| && IsInt(along) && SumR(shares) == along
    ensures var e := Extents(shares, along, 0.0); var k := |shares|;
            && -(j as real) / 2.0 <= SumR(e[..j]) - SumR(shares[..j]) <= j as real / 2.0
            && -(k - 1) as real / 2.0 <= e[k - 1] - shares[k - 1] <= (k - 1) as real / 2.0
  {
    OffsetError(shares, along, j);
    OffsetError(shares, along, |shares| - 1);
    ExtentsFill(shares, along);
  }

  lemma ShareAdds(a: real, b: real, whole: real, side: real)
    requires whole != 0.0
    ensures ShareOf(a + b, whole, side) == ShareOf(a, whole, side) + ShareOf(b, whole, side)
  {
    assert (a + b) / whole == a / whole + b / whole;
  }

  lemma {:induction false} SharesTotal(picked: seq<real>, sum: real, along: real)
    requires sum != 0.0
    ensures SumR(Shares(picked, sum, along)) == ShareOf(SumR(picked), sum, along)
  {
    if picked != [] {
      var init, last := picked[..|picked| - 1], picked[|picked| - 1];
      SharesTotal(init, sum, along);
      var shares := Shares(picked, sum, along);
      assert shares[..|shares| - 1] == Shares(init, sum, along);
      ShareAdds(SumR(init), last, sum, along);
    }
  }

  // The exact shares of a strip's items fill the side.
  lemma StripSharesFill(picked: seq<real>, along: real)
    requires SumR(picked) > 0.0 && along >= 0.0
    ensures SumR(Shares(picked, SumR(picked), along)) == along
  {
    SharesTotal(picked, SumR(picked), along);
    ShareWithin(SumR(picked), SumR(picked), along);
  }

  // The same for the strips that the layout places.
  lemma PlacedStripError(remaining: seq<real>, rect: Rect, j: nat)
    requires Positive(remaining) && remaining != [] && IntRect(rect) && j < Picked(remaining, rect)
    ensures var k := Picked(remaining, rect); var along := Along(rect, rect.width >= rect.height);
            var e := StripExtents(remaining, rect); var picked := remaining[..k];
            && SumR(picked) > 0.0 && |e| == k
            && var shares := Shares(picked, SumR(picked), along);
               && -(j as real) / 2.0 <= SumR(e[..j]) - SumR(shares[..j]) <= j as real / 2.0
               && -(k - 1) as real / 2.0 <= e[k - 1] - shares[k - 1] <= (k - 1) as real / 2.0
  {
    var picked, along := remaining[..Picked(remaining, rect)], Along(rect, rect.width >= rect.height);
    SumPositive(picked);
    StripSharesFill(picked, along);
    StripRoundingError(Shares(picked, SumR(picked), along), along, j);
  }

  // ---------- One strip ----------

  // The geometry of one strip of an integer rectangle.
  lemma StripFacts(remaining: seq<real>, rect: Rect)
    requires Positive(remaining) && remaining != [] && IntRect(rect)
    ensures var vertical := rect.width >= rect.height; var across := StripAcross(remaining, rect);
            && IsInt(across) && 0.0 <= across <= Across(rect, vertical)
            && (Picked(remaining, rect) == |remaining| ==> across == Across(rect, vertical))
            && SumR(StripExtents(remaining, rect)) == Along(rect, vertical)
            && forall j :: 0 <= j < |StripExtents(remaining, rect)| ==> IsInt(StripExtents(remaining, rect)[j])
  {
    var vertical, k := rect.width >= rect.height, Picked(remaining, rect);
    var picked := remaining[..k];
    SumPositive(picked);
    SumPositive(remaining);
    SumPositive(remaining[k..]);
    SplitSum(remaining, k);
    ShareWithin(SumR(picked), SumR(remaining), Across(rect, vertical));
    RoundWithin(ShareOf(SumR(picked), SumR(remaining), Across(rect, vertical)), Across(rect, vertical));
    RoundClose(ShareOf(SumR(picked), SumR(remaining), Across(rect, vertical)));
    if k == |remaining| {
      assert picked == remaining;
      RoundOfInt(Across(rect, vertical));
    }
    ExtentsFill(Shares(picked, SumR(picked), Along(rect, vertical)), Along(rect, vertical));
  }

  function Cut(rect: Rect, vertical: bool, across: real): Rect {
    if vertical then Rect(rect.x + across, rect.y, rect.width - across, rect.height)
    else Rect(rect.x, rect.y + across, rect.width, rect.height - across)
  }

  // What is left of the rectangle is an integer rectangle inside it, with the same far corner.
  lemma RestInside(rect: Rect, vertical: bool, across: real)
    requires IntRect(rect) && IsInt(across) && 0.0 <= across <= Across(rect, vertical)
    ensures var rest := Rest(rect, vertical, across);
            && rest == Cut(rect, vertical, across) && IntRect(rest)
            && rect.x <= rest.x && rect.y <= rest.y
            && rest.x + rest.width == rect.x + rect.width && rest.y + rest.height == rect.y + rect.height
  {
    IntsAdd(rect.x, across);
    IntsAdd(rect.y, across);
    IntsAdd(rect.width, across);
    IntsAdd(rect.height, across);
    RoundOfInt(rect.x);
    RoundOfInt(rect.y);
    RoundOfInt(rect.width);
    RoundOfInt(rect.height);
    var cut := Cut(rect, vertical, across);
    RoundOfInt(cut.x);
    RoundOfInt(cut.y);
    RoundOfInt(cut.width);
    RoundOfInt(cut.height);
  }

  // ---------- Area ----------

  function Area(r: Rect): real {
    r.width * r.height
  }

  function AreaOf(rs: seq<Rect>): real {
    if rs == [] then 0.0 else AreaOf(rs[..|rs| - 1]) + Area(rs[|rs| - 1])
  }

  lemma {:induction false} AreaAppend(a: seq<Rect>, b: seq<Rect>)
    ensures AreaOf(a + b) == AreaOf(a) + AreaOf(b)
  {
    if b == [] {
      assert a + b == a;
    } else {
      var init := b[..|b| - 1];
      AreaAppend(a, init);
      assert (a + b)[..|a + b| - 1] == a + init;
    }
  }

  lemma Distribute(c: real, a: real, b: real)
    ensures c * (a + b) == c * a + c * b
  {
  }

  // The areas of items of one extent across.
  function StripSum(across: real, extents: seq<real>): real {
    if extents == [] then 0.0 else StripSum(across, extents[..|extents| - 1]) + across * extents[|extents| - 1]
  }

  lemma {:induction false} StripSumIsProduct(across: real, extents: seq<real>)
    ensures StripSum(across, extents) == across * SumR(extents)
  {
    if extents != [] {
      var init, last := extents[..|extents| - 1], extents[|extents| - 1];
      StripSumIsProduct(across, init);
      Distribute(across, SumR(init), last);
    }
  }

  // Item i has the strip's extent across and its own extent along.
  lemma {:induction false} ItemSides(rect: Rect, vertical: bool, across: real, offset: real, extents: seq<real>, i: nat)
    requires i < |extents|
    ensures Area(Items(rect, vertical, across, offset, extents)[i]) == across * extents[i]
    decreases |extents|
  {
    if i > 0 {
      ItemSides(rect, vertical, across, offset + extents[0], extents[1..], i - 1);
    }
  }

  lemma {:induction false} ItemsArea(rect: Rect, vertical: bool, across: real, offset: real, extents: seq<real>, n: nat)
    requires n <= |extents|
    ensures AreaOf(Items(rect, vertical, across, offset, extents)[..n]) == StripSum(across, extents[..n])
  {
    var items := Items(rect, vertical, across, offset, extents);
    if n > 0 {
      ItemsArea(rect, vertical, across, offset, extents, n - 1);
      assert items[..n][..n - 1] == items[..n - 1] && extents[..n][..n - 1] == extents[..n - 1];
      ItemSides(rect, vertical, across, offset, extents, n - 1);
    }
  }

  lemma StripItemsArea(rect: Rect, vertical: bool, across: real, extents: seq<real>)
    ensures AreaOf(Items(rect, vertical, across, 0.0, extents)) == across * SumR(extents)
  {
    var items := Items(rect, vertical, across, 0.0, extents);
    ItemsArea(rect, vertical, across, 0.0, extents, |extents|);
    assert items[..|extents|] == items && extents[..|extents|] == extents;
    StripSumIsProduct(across, extents);
  }

  lemma ProductLess(a: real, c: real, b: real)
    ensures (a - c) * b == a * b - c * b
    ensures a == c ==> (a - c) * b == 0.0
  {
  }

  lemma CutArea(rect: Rect, vertical: bool, across: real)
    ensures Area(Cut(rect, vertical, across)) == Area(rect) - across * Along(rect, vertical)
    ensures across == Across(rect, vertical) ==> Area(Cut(rect, vertical, across)) == 0.0
  {
    var a, b, cut := Across(rect, vertical), Along(rect, vertical), Cut(rect, vertical, across);
    ProductLess(a, across, b);
    assert Area(rect) == a * b && Area(cut) == (a - across) * b;
  }

  // What is left of the rectangle once the first strip is taken off.
  function AfterStrip(remaining: seq<real>, rect: Rect): Rect
    requires Positive(remaining) && remaining != []
  {
    Rest(rect, rect.width >= rect.height, StripAcross(remaining, rect))
  }

  lemma StripAndRestArea(rect: Rect, vertical: bool, across: real, extents: seq<real>)
    requires SumR(extents) == Along(rect, vertical)
    ensures AreaOf(Items(rect, vertical, across, 0.0, extents)) + Area(Cut(rect, vertical, across)) == Area(rect)
  {
    StripItemsArea(rect, vertical, across, extents);
    CutArea(rect, vertical, across);
    assert across * SumR(extents) == across * Along(rect, vertical);
  }

  lemma AfterStripIsCut(remaining: seq<real>, rect: Rect)
    requires Positive(remaining) && remaining != [] && IntRect(rect)
    ensures IntRect(AfterStrip(remaining, rect))
    ensures AfterStrip(remaining, rect) == Cut(rect, rect.width >= rect.height, StripAcross(remaining, rect))
  {
    StripFacts(remaining, rect);
    RestInside(rect, rect.width >= rect.height, StripAcross(remaining, rect));
  }

  // Within `rect`, with the same far corner.
  ghost predicate Inside(r: Rect, rect: Rect) {
    && rect.x <= r.x && rect.y <= r.y
    && r.x + r.width == rect.x + rect.width && r.y + r.height == rect.y + rect.height
  }

  lemma AfterStripInside(remaining: seq<real>, rect: Rect)
    requires Positive(remaining) && remaining != [] && IntRect(rect)
    ensures IntRect(AfterStrip(remaining, rect)) && Inside(AfterStrip(remaining, rect), rect)
  {
    StripFacts(remaining, rect);
    RestInside(rect, rect.width >= rect.height, StripAcross(remaining, rect));
  }

  lemma InsideInside(a: Rect, b: Rect, c: Rect)
    requires Inside(a, b) && Inside(b, c)
    ensures Inside(a, c)
  {
  }

  // Every rectangle that the loop reaches is an integer rectangle of non-negative sides inside the first.
  lemma {:induction false} ReachedInside(remaining: seq<real>, rect: Rect, k: nat)
    requires Positive(remaining) && IntRect(rect) && k < |Reached(remaining, rect)|
    ensures IntRect(Reached(remaining, rect)[k]) && Inside(Reached(remaining, rect)[k], rect)
    decreases |remaining|
  {
    if k > 0 {
      var rest := AfterStrip(remaining, rect);
      var tail := remaining[Picked(remaining, rect)..];
      AfterStripInside(remaining, rect);
      assert Reached(remaining, rect)[k] == Reached(tail, rest)[k - 1];
      ReachedInside(tail, rest, k - 1);
      InsideInside(Reached(tail, rest)[k - 1], rest, rect);
    }
  }

  lemma StripArea(remaining: seq<real>, rect: Rect)
    requires Positive(remaining) && remaining != [] && IntRect(rect)
    ensures AreaOf(Strip(remaining, rect)) + Area(AfterStrip(remaining, rect)) == Area(rect)
  {
    StripFacts(remaining, rect);
    AfterStripIsCut(remaining, rect);
    StripAndRestArea(rect, rect.width >= rect.height, StripAcross(remaining, rect), StripExtents(remaining, rect));
  }

  lemma NothingLeft(remaining: seq<real>, rect: Rect)
    requires Positive(remaining) && remaining != [] && IntRect(rect) && Picked(remaining, rect) == |remaining|
    ensures var rest := AfterStrip(remaining, rect); Area(rest) == 0.0 && (rest.width == 0.0 || rest.height == 0.0)
  {
    StripFacts(remaining, rect);
    AfterStripIsCut(remaining, rect);
  }

  // The signed areas add up to the area of the rectangle.
  lemma {:induction false} SquarifyArea(remaining: seq<real>, rect: Rect)
    requires Positive(remaining) && remaining != [] && IntRect(rect)
    ensures AreaOf(Squarify(remaining, rect)) == Area(rect)
    decreases |remaining|
  {
    if |remaining| == 1 {
      assert [rect][..0] == [];
    } else {
      var tail, rest := remaining[Picked(remaining, rect)..], AfterStrip(remaining, rect);
      AfterStripIsCut(remaining, rect);
      StripArea(remaining, rect);
      AreaAppend(Strip(remaining, rect), Squarify(tail, rest));
      if tail != [] {
        SquarifyArea(tail, rest);
      } else {
        NothingLeft(remaining, rect);
      }
    }
  }

  // ---------- One rectangle per size ----------

  lemma {:induction false} SquarifyLength(remaining: seq<real>, rect: Rect)
    requires Positive(remaining)
    ensures |Squarify(remaining, rect)| == |remaining|
    decreases |remaining|
  {
    if |remaining| > 1 {
      SquarifyLength(remaining[Picked(remaining, rect)..],
                     Rest(rect, rect.width >= rect.height, StripAcross(remaining, rect)));
    }
  }

  // The sizes that are laid out: normalized, unless there is at most one.
  function LaidSizes(sizes: seq<real>, rect: Rect): (laid: seq<real>)
    requires Positive(sizes) && rect.width > 0.0 && rect.height > 0.0
    ensures |laid| == |sizes| && Positive(laid) && Layout(sizes, rect) == Squarify(laid, rect)
  {
    if |sizes| <= 1 then sizes
    else
      SumPositive(sizes);
      NormalizePositive(sizes, SumR(sizes), rect);
      Normalize(sizes, SumR(sizes), rect)
  }

  // One rectangle per size, of areas that add up exactly.
  lemma LayoutCountAndArea(sizes: seq<real>, rect: Rect)
    requires Positive(sizes) && IntRect(rect) && rect.width > 0.0 && rect.height > 0.0
    ensures |Layout(sizes, rect)| == |sizes|
    ensures sizes != [] ==> AreaOf(Layout(sizes, rect)) == Area(rect)
  {
    var laid := LaidSizes(sizes, rect);
    SquarifyLength(laid, rect);
    if sizes != [] { SquarifyArea(laid, rect); }
  }
}
