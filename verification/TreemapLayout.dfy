// The squarified treemap of layout-treemap.ts, in exact arithmetic.
//
// Each turn picks a strip of items along the shorter side of what is left of the rectangle. All
// items of a strip but the last get their rounded share of the side, the last gets what is left.
module TreemapLayout {
  import opened Wrappers
  import opened Sequences
  import opened RealSums

  datatype Rect = Rect(x: real, y: real, width: real, height: real)

  // Math.round
  function Round(r: real): real {
    (r + 0.5).Floor as real
  }

  function AsReal(n: int): real {
    n as real
  }

  ghost predicate IsInt(r: real) {
    exists n: int :: AsReal(n) == r
  }

  ghost predicate IntRect(r: Rect) {
    IsInt(r.x) && IsInt(r.y) && IsInt(r.width) && IsInt(r.height) && r.width >= 0.0 && r.height >= 0.0
  }

  predicate Positive(sizes: seq<real>) {
    forall i :: 0 <= i < |sizes| ==> sizes[i] > 0.0
  }

  // ---------- Rounding ----------

  lemma RoundClose(r: real)
    ensures IsInt(Round(r)) && -0.5 <= Round(r) - r <= 0.5
  {
    assert AsReal((r + 0.5).Floor) == Round(r);
  }

  lemma RoundOfInt(r: real)
    requires IsInt(r)
    ensures Round(r) == r
  {
    var n: int :| AsReal(n) == r;
    var d := (r + 0.5).Floor - n;
    assert d as real == Round(r) - r;
    assert -1.0 < d as real < 1.0;
    assert -1 < d < 1;
  }

  lemma IntsAdd(a: real, b: real)
    requires IsInt(a) && IsInt(b)
    ensures IsInt(a + b) && IsInt(a - b)
  {
    var n: int :| AsReal(n) == a;
    var m: int :| AsReal(m) == b;
    assert AsReal(n + m) == a + b && AsReal(n - m) == a - b;
  }

  lemma RoundWithin(r: real, n: real)
    requires IsInt(n) && 0.0 <= r <= n
    ensures 0.0 <= Round(r) <= n
  {
    RoundOfInt(n);
    assert (r + 0.5).Floor <= (n + 0.5).Floor;
  }

  // The part of a side that belongs to `part` of `whole`.
  function ShareOf(part: real, whole: real, side: real): real
    requires whole != 0.0
  {
    part / whole * side
  }

  lemma ShareWithin(part: real, whole: real, side: real)
    requires 0.0 <= part <= whole && whole > 0.0 && side >= 0.0
    ensures 0.0 <= ShareOf(part, whole, side) <= side
    ensures part == whole ==> ShareOf(part, whole, side) == side
  {
    var q := part / whole;
    assert q * whole == part;
    assert 0.0 <= q <= 1.0;
  }

  // Rounding is to the nearest integer, up from the middle.
  lemma RoundExact(r: real, n: int)
    ensures Round(r) == AsReal(n) <==> n as real - 0.5 <= r < n as real + 0.5
  {
    var m := (r + 0.5).Floor;
    assert m as real <= r + 0.5 < m as real + 1.0;
    assert m == n <==> Round(r) == AsReal(n);
  }

  // ---------- Specification of the layout ----------

  // An item of share `sum` fills the strip far enough after `count` items.
  predicate Full(rect: Rect, vertical: bool, sum: real, total: real, count: nat)
    requires total != 0.0 && count > 0
  {
    if vertical then rect.width * sum / total > rect.height / count as real * 0.9
    else rect.height * sum / total > rect.width / count as real * 0.9
  }

  // How many items a strip picks, `count` of them with sum `sum` being picked already.
  function PickFrom(remaining: seq<real>, rect: Rect, vertical: bool, total: real, count: nat, sum: real): (k: nat)
    requires total != 0.0 && count <= |remaining|
    ensures count <= k <= |remaining| && (count < |remaining| ==> count < k)
    decreases |remaining| - count
  {
    if count == |remaining| then count
    else
      var sum' := sum + remaining[count];
      if Full(rect, vertical, sum', total, count + 1) then count + 1
      else PickFrom(remaining, rect, vertical, total, count + 1, sum')
  }

  function Along(rect: Rect, vertical: bool): real {
    if vertical then rect.height else rect.width
  }

  function Across(rect: Rect, vertical: bool): real {
    if vertical then rect.width else rect.height
  }

  // The exact shares of the items along the strip.
  function Shares(picked: seq<real>, sum: real, along: real): seq<real>
    requires sum != 0.0
  {
    seq(|picked|, i requires 0 <= i < |picked| => ShareOf(picked[i], sum, along))
  }

  // The extents of the items along the strip, the first of them starting at `offset`.
  function Extents(shares: seq<real>, along: real, offset: real): (r: seq<real>)
    ensures |r| == |shares|
    decreases |shares|
  {
    if shares == [] then []
    else
      var extent := if |shares| == 1 then Round(along - offset) else Round(shares[0]);
      [extent] + Extents(shares[1..], along, offset + extent)
  }

  function Item(rect: Rect, vertical: bool, across: real, offset: real, extent: real): Rect {
    if vertical then Rect(Round(rect.x), Round(rect.y + offset), across, extent)
    else Rect(Round(rect.x + offset), Round(rect.y), extent, across)
  }

  function Items(rect: Rect, vertical: bool, across: real, offset: real, extents: seq<real>): (r: seq<Rect>)
    ensures |r| == |extents|
    decreases |extents|
  {
    if extents == [] then []
    else
      [Item(rect, vertical, across, offset, extents[0])]
      + Items(rect, vertical, across, offset + extents[0], extents[1..])
  }

  function Rest(rect: Rect, vertical: bool, across: real): Rect {
    if vertical then Rect(Round(rect.x + across), Round(rect.y), Round(rect.width - across), Round(rect.height))
    else Rect(Round(rect.x), Round(rect.y + across), Round(rect.width), Round(rect.height - across))
  }

  function Picked(remaining: seq<real>, rect: Rect): (k: nat)
    requires Positive(remaining) && remaining != []
    ensures 0 < k <= |remaining|
  {
    SumPositive(remaining);
    PickFrom(remaining, rect, rect.width >= rect.height, SumR(remaining), 0, 0.0)
  }

  // The strip's extent across: the rounded share of its items.
  function StripAcross(remaining: seq<real>, rect: Rect): real
    requires Positive(remaining) && remaining != []
  {
    SumPositive(remaining);
    Round(ShareOf(SumR(remaining[..Picked(remaining, rect)]), SumR(remaining), Across(rect, rect.width >= rect.height)))
  }

  function StripExtents(remaining: seq<real>, rect: Rect): seq<real>
    requires Positive(remaining) && remaining != []
  {
    var picked := remaining[..Picked(remaining, rect)];
    SumPositive(picked);
    var along := Along(rect, rect.width >= rect.height);
    Extents(Shares(picked, SumR(picked), along), along, 0.0)
  }

  function Strip(remaining: seq<real>, rect: Rect): seq<Rect>
    requires Positive(remaining) && remaining != []
  {
    Items(rect, rect.width >= rect.height, StripAcross(remaining, rect), 0.0, StripExtents(remaining, rect))
  }

  function Squarify(remaining: seq<real>, rect: Rect): seq<Rect>
    requires Positive(remaining)
    decreases |remaining|
  {
    if |remaining| == 0 then []
    else if |remaining| == 1 then [rect]
    else
      Strip(remaining, rect)
      + Squarify(remaining[Picked(remaining, rect)..],
                 Rest(rect, rect.width >= rect.height, StripAcross(remaining, rect)))
  }

  function Normalize(sizes: seq<real>, total: real, rect: Rect): seq<real>
    requires total != 0.0
  {
    seq(|sizes|, i requires 0 <= i < |sizes| => sizes[i] / total * rect.width * rect.height)
  }

  lemma NormalizePositive(sizes: seq<real>, total: real, rect: Rect)
    requires Positive(sizes) && total > 0.0 && rect.width > 0.0 && rect.height > 0.0
    ensures Positive(Normalize(sizes, total, rect))
  {
    forall i | 0 <= i < |sizes|
      ensures sizes[i] / total * rect.width * rect.height > 0.0
    {
      var share := sizes[i] / total;
      assert share > 0.0;
      assert share * rect.width > 0.0;
    }
  }

  function Layout(sizes: seq<real>, rect: Rect): seq<Rect>
    requires Positive(sizes) && rect.width > 0.0 && rect.height > 0.0
  {
    if |sizes| <= 1 then Squarify(sizes, rect)
    else
      SumPositive(sizes);
      NormalizePositive(sizes, SumR(sizes), rect);
      Squarify(Normalize(sizes, SumR(sizes), rect), rect)
  }

  function Present(rects: seq<Rect>): seq<Option<Rect>> {
    seq(|rects|, i requires 0 <= i < |rects| => Some(rects[i]))
  }

  function PlacedRects(sizes: seq<real>, rect: Rect): seq<Option<Rect>>
    requires Positive(sizes) && rect.width >= 0.0 && rect.height >= 0.0
  {
    if |sizes| <= 1 then Present(Squarify(sizes, rect))
    else if rect.width == 0.0 || rect.height == 0.0 then seq(|sizes|, _ => None)
    else Present(Layout(sizes, rect))
  }

  // A single item fills the rectangle, also an empty one; several have no rectangle exactly if it
  // is empty.
  lemma PlacedExactly(sizes: seq<real>, rect: Rect)
    requires Positive(sizes) && rect.width >= 0.0 && rect.height >= 0.0
    ensures |sizes| == 1 ==> PlacedRects(sizes, rect) == [Some(rect)]
    ensures forall i :: 0 <= i < |PlacedRects(sizes, rect)| ==>
              (PlacedRects(sizes, rect)[i].None? <==> |sizes| > 1 && (rect.width == 0.0 || rect.height == 0.0))
  {
  }

  // The rectangles that the loop divides, one after another, and what it ends with.
  function Reached(remaining: seq<real>, rect: Rect): seq<Rect>
    requires Positive(remaining)
    decreases |remaining|
  {
    if |remaining| <= 1 then [rect]
    else
      [rect] + Reached(remaining[Picked(remaining, rect)..],
                       Rest(rect, rect.width >= rect.height, StripAcross(remaining, rect)))
  }

  // ---------- The algorithm ----------

  lemma PickNext(remaining: seq<real>, rect: Rect, vertical: bool, total: real, count: nat, sum: real)
    requires total != 0.0 && count < |remaining|
    ensures PickFrom(remaining, rect, vertical, total, count, sum)
            == if Full(rect, vertical, sum + remaining[count], total, count + 1) then count + 1
               else PickFrom(remaining, rect, vertical, total, count + 1, sum + remaining[count])
  {
  }

  method PickStrip(remaining: seq<real>, rect: Rect, vertical: bool, totalRemaining: real)
    returns (picked: seq<real>, sum: real)
    requires Positive(remaining) && remaining != [] && totalRemaining == SumR(remaining)
    requires vertical == (rect.width >= rect.height)
    ensures picked == remaining[..Picked(remaining, rect)] && sum == SumR(picked)
  {
    SumPositive(remaining);
    picked, sum := [], 0.0;
    var i := 0;
    while i < |remaining|
      invariant i <= |remaining| && picked == remaining[..i] && sum == SumR(picked)
      invariant PickFrom(remaining, rect, vertical, totalRemaining, i, sum) == Picked(remaining, rect)
    {
      SumNextR(remaining, i);
      PickNext(remaining, rect, vertical, totalRemaining, i, sum);
      picked := picked + [remaining[i]];
      sum := sum + remaining[i];
      i := i + 1;
      if Full(rect, vertical, sum, totalRemaining, |picked|) {
        break;
      }
    }
  }

  lemma PlacedNext(shares: seq<real>, along: real, rect: Rect, vertical: bool, across: real, offset: real, extent: real)
    requires shares != [] && extent == if |shares| == 1 then Round(along - offset) else Round(shares[0])
    ensures Items(rect, vertical, across, offset, Extents(shares, along, offset))
            == [Item(rect, vertical, across, offset, extent)]
               + Items(rect, vertical, across, offset + extent, Extents(shares[1..], along, offset + extent))
  {
  }

  // The two branches of the source place the items of a strip in mirrored ways.
  method PlaceStrip(shares: seq<real>, rect: Rect, vertical: bool, across: real) returns (items: seq<Rect>)
    ensures items == Items(rect, vertical, across, 0.0, Extents(shares, Along(rect, vertical), 0.0))
  {
    items := [];
    var offset, along := 0.0, Along(rect, vertical);
    ghost var all := Items(rect, vertical, across, 0.0, Extents(shares, along, 0.0));
    assert shares[0..] == shares;
    for i := 0 to |shares|
      invariant items + Items(rect, vertical, across, offset, Extents(shares[i..], along, offset)) == all
    {
      var extent := if i == |shares| - 1 then Round(along - offset) else Round(shares[i]);
      var item := Item(rect, vertical, across, offset, extent);
      PlacedNext(shares[i..], along, rect, vertical, across, offset, extent);
      assert shares[i..][1..] == shares[i + 1..];
      items := items + [item];
      offset := offset + extent;
    }
  }

  lemma SplitSum(xs: seq<real>, k: nat)
    requires k <= |xs|
    ensures SumR(xs[k..]) == SumR(xs) - SumR(xs[..k])
  {
    assert xs == xs[..k] + xs[k..];
    SumAppendR(xs[..k], xs[k..]);
  }

  // One turn of the loop.
  method NextStrip(remaining: seq<real>, rect: Rect, totalRemaining: real)
    returns (items: seq<Rect>, rest: seq<real>, restRect: Rect, restTotal: real)
    requires Positive(remaining) && |remaining| > 1 && totalRemaining == SumR(remaining)
    ensures items == Strip(remaining, rect)
    ensures rest == remaining[Picked(remaining, rect)..] && restTotal == SumR(rest)
    ensures restRect == Rest(rect, rect.width >= rect.height, StripAcross(remaining, rect))
  {
    var vertical := rect.width >= rect.height;
    var picked, sum := PickStrip(remaining, rect, vertical, totalRemaining);
    SumPositive(remaining);
    SumPositive(picked);
    restTotal := totalRemaining - sum;
    var across := Round(ShareOf(sum, totalRemaining, Across(rect, vertical)));
    assert across == StripAcross(remaining, rect);
    items := PlaceStrip(Shares(picked, sum, Along(rect, vertical)), rect, vertical, across);
    restRect := Rest(rect, vertical, across);
    rest := remaining[|picked|..];
    SplitSum(remaining, |picked|);
  }

  method SquarifyLoop(normalizedSizes: seq<real>, rect: Rect) returns (result: seq<Rect>, ghost reached: seq<Rect>)
    requires Positive(normalizedSizes)
    ensures result == Squarify(normalizedSizes, rect) && reached == Reached(normalizedSizes, rect)
  {
    result, reached := [], [];
    var remaining, currentRect, totalRemaining := normalizedSizes, rect, SumR(normalizedSizes);
    while |remaining| > 1
      invariant Positive(remaining) && totalRemaining == SumR(remaining)
      invariant result + Squarify(remaining, currentRect) == Squarify(normalizedSizes, rect)
      invariant reached + Reached(remaining, currentRect) == Reached(normalizedSizes, rect)
      decreases |remaining|
    {
      var items: seq<Rect>;
      ghost var before, here := Squarify(remaining, currentRect), currentRect;
      ghost var onwards := Reached(remaining, currentRect);
      items, remaining, currentRect, totalRemaining := NextStrip(remaining, currentRect, totalRemaining);
      assert before == items + Squarify(remaining, currentRect);
      Associative(result, items, Squarify(remaining, currentRect));
      result := result + items;
      assert onwards == [here] + Reached(remaining, currentRect);
      Associative(reached, [here], Reached(remaining, currentRect));
      reached := reached + [here];
    }
    if |remaining| == 1 {
      result := result + [currentRect];
    }
    reached := reached + [currentRect];
  }

  // The whole function. None is a rectangle whose sides are not numbers: with more than one size and
  // an empty rectangle, every share is zero divided by zero.
  method LayoutTreemap(sizes: seq<real>, rect: Rect) returns (result: seq<Option<Rect>>)
    requires Positive(sizes) && rect.width >= 0.0 && rect.height >= 0.0
    ensures result == PlacedRects(sizes, rect)
  {
    if |sizes| == 0 {
      return [];
    }
    if |sizes| == 1 {
      return [Some(rect)];
    }
    if rect.width == 0.0 || rect.height == 0.0 {
      return seq(|sizes|, _ => None);
    }
    SumPositive(sizes);
    NormalizePositive(sizes, SumR(sizes), rect);
    var rects, reached := SquarifyLoop(Normalize(sizes, SumR(sizes), rect), rect);
    result := seq(|rects|, i requires 0 <= i < |rects| => Some(rects[i]));
  }
}
