// The text width cache of treemap-visualizer.tsx: an insertion-ordered map used as an LRU cache.
module TextWidthCache {
  import opened Sequences

  const TEXT_WIDTH_CACHE_SIZE: nat := 30_000

  // The canvas measures a text in a font.
  type Measure = (string, string) -> real

  datatype Call = Call(font: string, text: string) {
    function Key(): string {
      font + "|" + text
    }
  }

  // ---------- The cache as a value ----------

  function Without(keys: seq<string>, k: string): seq<string> {
    if keys == [] then []
    else if keys[0] == k then Without(keys[1..], k)
    else [keys[0]] + Without(keys[1..], k)
  }

  // A JavaScript map: its keys in insertion order.
  datatype Cache = Cache(keys: seq<string>, widths: map<string, real>) {
    ghost predicate Valid() {
      && Distinct(keys)
      && forall k :: k in keys <==> k in widths
    }

    function Delete(k: string): Cache {
      Cache(Without(keys, k), widths - {k})
    }

    function Set(k: string, w: real): Cache {
      Cache(if k in widths then keys else keys + [k], widths[k := w])
    }
  }

  const EMPTY_CACHE: Cache := Cache([], map[])

  function WidthOf(c: Cache, call: Call, measure: Measure): real {
    if call.Key() in c.widths then c.widths[call.Key()] else measure(call.font, call.text)
  }

  // The oldest key goes when the cache is full.
  function Evict(c: Cache, capacity: nat): Cache {
    if |c.keys| >= capacity && c.keys != [] then c.Delete(c.keys[0]) else c
  }

  function Use(c: Cache, call: Call, measure: Measure, capacity: nat): Cache {
    var k := call.Key();
    if k in c.widths then c.Delete(k).Set(k, c.widths[k])
    else Evict(c, capacity).Set(k, measure(call.font, call.text))
  }

  function Run(calls: seq<Call>, measure: Measure, capacity: nat): Cache {
    if calls == [] then EMPTY_CACHE
    else Use(Run(calls[..|calls| - 1], measure, capacity), calls[|calls| - 1], measure, capacity)
  }

  // ---------- Truncation ----------

  predicate Fits(font: string, text: string, n: nat, ellipsisWidth: real, maxWidth: real, measure: Measure)
    requires n <= |text|
  {
    measure(font, text[..n]) + ellipsisWidth <= maxWidth
  }

  // Longer prefixes are at least as wide.
  ghost predicate Monotone(font: string, text: string, measure: Measure) {
    forall a, b :: 0 <= a <= b <= |text| ==> measure(font, text[..a]) <= measure(font, text[..b])
  }

  // A prefix that fits, and the longest that does if widths grow with length; 0 if none is kept.
  ghost predicate Longest(font: string, text: string, ellipsisWidth: real, maxWidth: real, measure: Measure, n: nat) {
    && n <= |text|
    && (n > 0 ==> Fits(font, text, n, ellipsisWidth, maxWidth, measure))
    && (Monotone(font, text, measure) ==>
          forall m :: n < m <= |text| ==> !Fits(font, text, m, ellipsisWidth, maxWidth, measure))
  }

  method LongestFitting(font: string, text: string, ellipsisWidth: real, maxWidth: real, measure: Measure)
    returns (bestLength: nat)
    ensures Longest(font, text, ellipsisWidth, maxWidth, measure, bestLength)
  {
    var left, right := 0, |text|;
    bestLength := 0;
    while left <= right
      invariant 0 <= left <= |text| + 1 && -1 <= right <= |text| && left <= right + 1
      invariant bestLength == if left > 0 then left - 1 else 0
      invariant left > 0 ==> Fits(font, text, left - 1, ellipsisWidth, maxWidth, measure)
      invariant Monotone(font, text, measure) ==>
                  forall m :: right < m <= |text| ==> !Fits(font, text, m, ellipsisWidth, maxWidth, measure)
      decreases right - left + 1
    {
      var mid := (left + right) / 2;
      var width := measure(font, text[..mid]);
      if width + ellipsisWidth <= maxWidth {
        bestLength := mid;
        left := mid + 1;
      } else {
        right := mid - 1;
      }
    }
  }

  // If widths grow, exactly the prefixes up to that length leave room for the ellipsis.
  lemma KeptExactly(font: string, text: string, ellipsisWidth: real, maxWidth: real, measure: Measure, n: nat, m: nat)
    requires Longest(font, text, ellipsisWidth, maxWidth, measure, n) && Monotone(font, text, measure)
    requires 0 < m <= |text|
    ensures m <= n <==> measure(font, text[..m]) + ellipsisWidth <= maxWidth
  {
    if m <= n {
      assert Fits(font, text, n, ellipsisWidth, maxWidth, measure);
      assert measure(font, text[..m]) <= measure(font, text[..n]);
    } else {
      assert !Fits(font, text, m, ellipsisWidth, maxWidth, measure);
    }
  }

  // ---------- The cache as an object ----------

  class TextWidths {
    var keys: seq<string>
    var widths: map<string, real>

    function State(): Cache
      reads this
    {
      Cache(keys, widths)
    }

    constructor ()
      ensures State() == EMPTY_CACHE
    {
      keys, widths := [], map[];
    }

    method Delete(k: string)
      modifies this
      ensures State() == old(State()).Delete(k)
    {
      keys, widths := Without(keys, k), widths - {k};
    }

    method Set(k: string, w: real)
      modifies this
      ensures State() == old(State()).Set(k, w)
    {
      if k !in widths {
        keys := keys + [k];
      }
      widths := widths[k := w];
    }

    method MeasureTextCached(font: string, text: string, measure: Measure) returns (width: real)
      modifies this
      ensures width == WidthOf(old(State()), Call(font, text), measure)
      ensures State() == Use(old(State()), Call(font, text), measure, TEXT_WIDTH_CACHE_SIZE)
    {
      var cacheKey := font + "|" + text;
      if cacheKey in widths {
        width := widths[cacheKey];
        Delete(cacheKey);
        Set(cacheKey, width);
        return;
      }
      width := measure(font, text);
      if |keys| >= TEXT_WIDTH_CACHE_SIZE && keys != [] {
        Delete(keys[0]);
      }
      Set(cacheKey, width);
    }

    // `best` is the length of the prefix that is kept.
    method TruncateTextWithEllipsisIfNeeded(font: string, text: string, maxWidth: real, measure: Measure)
      returns (r: string, ghost best: nat)
      modifies this
      ensures var ellipsis := Call(font, "..."); var whole := Call(font, text);
              var first := Use(old(State()), ellipsis, measure, TEXT_WIDTH_CACHE_SIZE);
              var e := WidthOf(old(State()), ellipsis, measure);
              && State() == Use(first, whole, measure, TEXT_WIDTH_CACHE_SIZE)
              && if WidthOf(first, whole, measure) <= maxWidth then r == text
                 else
                   && Longest(font, text, e, maxWidth, measure, best)
                   && r == if best > 0 then text[..best] + "..." else "..."
    {
      best := 0;
      var ellipsisWidth := MeasureTextCached(font, "...", measure);
      var textWidth := MeasureTextCached(font, text, measure);
      if textWidth <= maxWidth {
        return text, 0;
      }
      var bestLength := LongestFitting(font, text, ellipsisWidth, maxWidth, measure);
      best := bestLength;
      r := if bestLength > 0 then text[..bestLength] + "..." else "...";
    }
  }

  // ---------- Recency ----------

  function Keys(calls: seq<Call>): seq<string> {
    seq(|calls|, i requires 0 <= i < |calls| => calls[i].Key())
  }

  // The distinct keys used, least recently used first.
  function Recency(used: seq<string>): seq<string> {
    if used == [] then [] else Without(Recency(used[..|used| - 1]), used[|used| - 1]) + [used[|used| - 1]]
  }

  function LastUse(used: seq<string>, k: string): int {
    if used == [] then -1
    else if used[|used| - 1] == k then |used| - 1
    else LastUse(used[..|used| - 1], k)
  }

  lemma {:induction false} WithoutMembers(keys: seq<string>, k: string)
    ensures forall x :: x in Without(keys, k) <==> x in keys && x != k
    ensures Distinct(keys) ==> Distinct(Without(keys, k))
  {
    if keys != [] {
      WithoutMembers(keys[1..], k);
      assert Distinct(keys) ==> keys[0] !in keys[1..];
    }
  }

  lemma {:induction false} WithoutAbsent(keys: seq<string>, k: string)
    requires k !in keys
    ensures Without(keys, k) == keys
  {
    if keys != [] { WithoutAbsent(keys[1..], k); }
  }

  lemma {:induction false} WithoutAppend(a: seq<string>, b: seq<string>, k: string)
    ensures Without(a + b, k) == Without(a, k) + Without(b, k)
  {
    if a == [] {
      assert a + b == b;
    } else {
      WithoutAppend(a[1..], b, k);
      assert (a + b)[1..] == a[1..] + b && (a + b)[0] == a[0];
      if a[0] != k { Associative([a[0]], Without(a[1..], k), Without(b, k)); }
    }
  }

  ghost predicate ByLastUse(used: seq<string>, keys: seq<string>) {
    forall a, b :: 0 <= a < b < |keys| ==> LastUse(used, keys[a]) < LastUse(used, keys[b])
  }

  lemma {:induction false} LastUseBound(used: seq<string>, k: string)
    ensures -1 <= LastUse(used, k) < |used|
  {
    if used != [] && used[|used| - 1] != k { LastUseBound(used[..|used| - 1], k); }
  }

  lemma {:induction false} WithoutKeepsOrder(used: seq<string>, keys: seq<string>, k: string)
    requires ByLastUse(used, keys)
    ensures ByLastUse(used, Without(keys, k))
  {
    if keys != [] {
      WithoutKeepsOrder(used, keys[1..], k);
      WithoutMembers(keys[1..], k);
      var rest := Without(keys[1..], k);
      forall b | 0 <= b < |rest|
        ensures LastUse(used, keys[0]) < LastUse(used, rest[b])
      {
        assert rest[b] in rest;
        var j :| 0 <= j < |keys[1..]| && keys[1..][j] == rest[b];
        assert keys[j + 1] == rest[b];
      }
    }
  }

  // Recency lists exactly the used keys, each once, in the order of their last uses.
  lemma {:induction false} RecencyExact(used: seq<string>)
    ensures forall k :: k in Recency(used) <==> k in used
    ensures Distinct(Recency(used)) && ByLastUse(used, Recency(used))
  {
    if used != [] {
      var init, last := used[..|used| - 1], used[|used| - 1];
      RecencyExact(init);
      WithoutMembers(Recency(init), last);
      WithoutKeepsOrder(init, Recency(init), last);
      assert used == init + [last];
      var front := Without(Recency(init), last);
      forall a | 0 <= a < |front|
        ensures LastUse(used, front[a]) == LastUse(init, front[a]) < |init|
      {
        assert front[a] in front;
        LastUseBound(init, front[a]);
      }
    }
  }

  // ---------- The cache holds the most recently used keys ----------

  function LastOf(s: seq<string>, n: nat): seq<string> {
    if |s| <= n then s else s[|s| - n..]
  }

  lemma {:induction false} WithoutPresent(keys: seq<string>, k: string)
    requires Distinct(keys) && k in keys
    ensures |Without(keys, k)| == |keys| - 1
    ensures keys[0] == k ==> Without(keys, k) == keys[1..]
  {
    if keys[0] == k {
      WithoutAbsent(keys[1..], k);
    } else {
      WithoutPresent(keys[1..], k);
    }
  }

  lemma HalvesApart(a: seq<string>, b: seq<string>)
    requires Distinct(a + b)
    ensures Distinct(b) && forall k :: k in b ==> k !in a
  {
    forall i, j | 0 <= i < |a| && 0 <= j < |b|
      ensures a[i] != b[j]
    {
      assert (a + b)[i] == a[i] && (a + b)[|a| + j] == b[j];
    }
    forall i, j | 0 <= i < j < |b|
      ensures b[i] != b[j]
    {
      assert (a + b)[|a| + i] == b[i] && (a + b)[|a| + j] == b[j];
    }
  }

  lemma SplitLast(r: seq<string>, capacity: nat) returns (older: seq<string>)
    requires Distinct(r)
    ensures r == older + LastOf(r, capacity)
    ensures older != [] ==> |LastOf(r, capacity)| == capacity
    ensures forall k :: k in LastOf(r, capacity) ==> k !in older
    ensures Distinct(LastOf(r, capacity))
  {
    older := r[..|r| - |LastOf(r, capacity)|];
    assert r == older + LastOf(r, capacity);
    HalvesApart(older, LastOf(r, capacity));
  }

  lemma LastOfAppend(a: seq<string>, b: seq<string>, n: nat)
    requires |b| <= n && (a != [] ==> |b| == n)
    ensures LastOf(a + b, n) == b
  {
  }

  lemma HitStep(older: seq<string>, held: seq<string>, capacity: nat, k: string)
    requires Distinct(held) && |held| <= capacity && (older != [] ==> |held| == capacity)
    requires k in held && k !in older
    ensures LastOf(Without(older + held, k) + [k], capacity) == Without(held, k) + [k]
  {
    WithoutAppend(older, held, k);
    WithoutAbsent(older, k);
    WithoutPresent(held, k);
    assert Without(older + held, k) + [k] == older + (Without(held, k) + [k]);
    LastOfAppend(older, Without(held, k) + [k], capacity);
  }

  lemma MissStep(older: seq<string>, held: seq<string>, capacity: nat, k: string)
    requires capacity > 0 && |held| <= capacity && (older != [] ==> |held| == capacity)
    requires k !in held
    ensures LastOf(Without(older + held, k) + [k], capacity) == (if |held| >= capacity then held[1..] else held) + [k]
  {
    WithoutAppend(older, held, k);
    WithoutAbsent(held, k);
    var front := Without(older, k);
    if |held| >= capacity {
      assert front + held + [k] == (front + [held[0]]) + (held[1..] + [k]);
      LastOfAppend(front + [held[0]], held[1..] + [k], capacity);
    } else {
      assert front + held + [k] == [] + (held + [k]);
      LastOfAppend([], held + [k], capacity);
    }
  }

  // One use, seen from the recency list `r` of which the cache holds the last keys.
  lemma RecencyStep(r: seq<string>, capacity: nat, k: string)
    requires Distinct(r) && capacity > 0
    ensures var held := LastOf(r, capacity);
            LastOf(Without(r, k) + [k], capacity)
            == (if k in held then Without(held, k) else if |held| >= capacity then held[1..] else held) + [k]
  {
    var held := LastOf(r, capacity);
    var older := SplitLast(r, capacity);
    if k in held { HitStep(older, held, capacity, k); } else { MissStep(older, held, capacity, k); }
  }

  lemma UseKeys(c: Cache, call: Call, measure: Measure, capacity: nat)
    requires c.Valid() && capacity > 0
    ensures var k := call.Key(); var c' := Use(c, call, measure, capacity);
            && c'.Valid()
            && c'.keys
               == (if k in c.keys then Without(c.keys, k) else if |c.keys| >= capacity then c.keys[1..] else c.keys)
                  + [k]
  {
    WithoutMembers(c.keys, call.Key());
    if |c.keys| >= capacity {
      WithoutMembers(c.keys, c.keys[0]);
      WithoutPresent(c.keys, c.keys[0]);
    }
  }

  // After any calls the cache holds the most recently used distinct keys, in recency order.
  lemma {:induction false} CacheIsRecent(calls: seq<Call>, measure: Measure, capacity: nat)
    requires capacity > 0
    ensures var c := Run(calls, measure, capacity);
            c.Valid() && c.keys == LastOf(Recency(Keys(calls)), capacity) && |c.keys| <= capacity
  {
    if calls != [] {
      var init, last := calls[..|calls| - 1], calls[|calls| - 1];
      CacheIsRecent(init, measure, capacity);
      RecencyExact(Keys(init));
      assert Keys(calls)[..|calls| - 1] == Keys(init);
      RecencyStep(Recency(Keys(init)), capacity, last.Key());
      UseKeys(Run(init, measure, capacity), last, measure, capacity);
    }
  }

  // The keys used after the last use of `k`.
  ghost function Newer(used: seq<string>, k: string): set<string> {
    set x | x in used && LastUse(used, x) > LastUse(used, k)
  }

  lemma {:induction false} CountDistinct(s: seq<string>)
    requires Distinct(s)
    ensures |set x | x in s| == |s|
  {
    if s != [] {
      var init, last := s[..|s| - 1], s[|s| - 1];
      CountDistinct(init);
      assert (set x | x in s) == (set x | x in init) + {last};
    }
  }

  lemma NewerFollow(used: seq<string>, p: nat)
    requires p < |Recency(used)|
    ensures |Newer(used, Recency(used)[p])| == |Recency(used)| - 1 - p
  {
    RecencyExact(used);
    var r := Recency(used);
    var later := r[p + 1..];
    forall x
      ensures x in Newer(used, r[p]) <==> x in later
    {
      if x in used {
        assert x in r;
        var q :| 0 <= q < |r| && r[q] == x;
        assert q > p ==> later[q - p - 1] == x;
      }
      if x in later {
        var q :| 0 <= q < |later| && later[q] == x;
        assert r[p + 1 + q] == x && x in r;
      }
    }
    assert Newer(used, r[p]) == set x | x in later;
    CountDistinct(later);
  }

  lemma InLastOf(r: seq<string>, n: nat, p: nat)
    requires Distinct(r) && p < |r|
    ensures r[p] in LastOf(r, n) <==> |r| - 1 - p < n
  {
    var kept := LastOf(r, n);
    if |r| - 1 - p < n { assert kept[p - (|r| - |kept|)] == r[p]; }
  }

  // After any calls a width is cached exactly if its key was used and fewer than 30,000 others
  // were used since.
  lemma CachedExactly(calls: seq<Call>, measure: Measure, k: string)
    ensures k in Run(calls, measure, TEXT_WIDTH_CACHE_SIZE).widths
            <==> k in Keys(calls) && |Newer(Keys(calls), k)| < 30_000
  {
    var used := Keys(calls);
    var r := Recency(used);
    var kept := LastOf(r, TEXT_WIDTH_CACHE_SIZE);
    CacheIsRecent(calls, measure, TEXT_WIDTH_CACHE_SIZE);
    RecencyExact(used);
    assert forall x :: x in kept ==> x in r;
    if k in used {
      assert k in r;
      var p :| 0 <= p < |r| && r[p] == k;
      NewerFollow(used, p);
      InLastOf(r, TEXT_WIDTH_CACHE_SIZE, p);
    }
  }

  // ---------- Transparency ----------

  // Every cached width is the true width of some call with that key.
  ghost predicate Faithful(c: Cache, calls: seq<Call>, measure: Measure) {
    forall k :: k in c.widths ==>
      exists i :: 0 <= i < |calls| && calls[i].Key() == k && c.widths[k] == measure(calls[i].font, calls[i].text)
  }

  lemma {:induction false} RunFaithful(calls: seq<Call>, measure: Measure, capacity: nat)
    ensures Faithful(Run(calls, measure, capacity), calls, measure)
  {
    if calls != [] {
      var init, last := calls[..|calls| - 1], calls[|calls| - 1];
      RunFaithful(init, measure, capacity);
      var c, c' := Run(init, measure, capacity), Run(calls, measure, capacity);
      forall k | k in c'.widths
        ensures exists i ::
                  0 <= i < |calls| && calls[i].Key() == k && c'.widths[k] == measure(calls[i].font, calls[i].text)
      {
        if k in c.widths && c'.widths[k] == c.widths[k] {
          var i :| 0 <= i < |init| && init[i].Key() == k && c.widths[k] == measure(init[i].font, init[i].text);
          assert calls[i] == init[i];
        } else {
          assert calls[|calls| - 1] == last;
        }
      }
    }
  }

  // No font of the set is another one with a bar and more appended.
  ghost predicate BarFree(fonts: set<string>) {
    forall f, g :: f in fonts && g in fonts ==> !(f + "|" <= g)
  }

  lemma BarInside(f: string, g: string)
    requires f + "|" <= g
    ensures '|' in g
  {
    assert g[|f|] == (f + "|")[|f|];
  }

  lemma NoBarsIsBarFree(fonts: set<string>)
    requires forall f :: f in fonts ==> '|' !in f
    ensures BarFree(fonts)
  {
    forall f, g | f in fonts && g in fonts
      ensures !(f + "|" <= g)
    {
      if f + "|" <= g { BarInside(f, g); }
    }
  }

  lemma EqualKeys(a: Call, b: Call)
    requires a.Key() == b.Key() && |a.font| <= |b.font|
    ensures a == b || a.font + "|" <= b.font
  {
    var k := a.Key();
    assert a.font == k[..|a.font|] && b.font == k[..|b.font|];
    assert a.text == k[|a.font| + 1..] && b.text == k[|b.font| + 1..];
    if |a.font| < |b.font| {
      assert k[..|a.font| + 1] == a.font + "|";
      assert k[..|a.font| + 1] <= k[..|b.font|];
    }
  }

  lemma Collision(f: string, g: string) returns (a: Call, b: Call)
    requires f + "|" <= g
    ensures a.font == f && b.font == g && a.Key() == b.Key() && a != b
  {
    a, b := Call(f, g[|f| + 1..] + "|"), Call(g, "");
    assert g == f + "|" + g[|f| + 1..];
    assert b.Key() == g + "|" + "" && a.Key() == f + "|" + (g[|f| + 1..] + "|");
  }

  // Calls in these fonts are told apart by their keys exactly when no font extends another by a bar.
  lemma KeysTellCallsApart(fonts: set<string>)
    ensures BarFree(fonts) <==>
            forall a: Call, b: Call :: a.font in fonts && b.font in fonts && a.Key() == b.Key() ==> a == b
  {
    if BarFree(fonts) {
      forall a: Call, b: Call | a.font in fonts && b.font in fonts && a.Key() == b.Key()
        ensures a == b
      {
        if |a.font| <= |b.font| { EqualKeys(a, b); } else { EqualKeys(b, a); }
      }
    } else {
      var f, g :| f in fonts && g in fonts && f + "|" <= g;
      var a, b := Collision(f, g);
    }
  }

  ghost predicate InFonts(calls: seq<Call>, fonts: set<string>) {
    forall i :: 0 <= i < |calls| ==> calls[i].font in fonts
  }

  // With such fonts every call, after any others, returns the true width.
  lemma Transparent(calls: seq<Call>, measure: Measure, capacity: nat, fonts: set<string>, call: Call)
    requires BarFree(fonts) && InFonts(calls, fonts) && call.font in fonts
    ensures WidthOf(Run(calls, measure, capacity), call, measure) == measure(call.font, call.text)
  {
    RunFaithful(calls, measure, capacity);
    KeysTellCallsApart(fonts);
    var c := Run(calls, measure, capacity);
    if call.Key() in c.widths {
      var i :| 0 <= i < |calls| && calls[i].Key() == call.Key()
        && c.widths[call.Key()] == measure(calls[i].font, calls[i].text);
      assert calls[i] == call;
    }
  }

  // Otherwise some second call returns the width of the first.
  lemma NotTransparent(fonts: set<string>, measure: Measure, capacity: nat) returns (first: Call, second: Call)
    requires !BarFree(fonts)
    ensures first.font in fonts && second.font in fonts && first != second
    ensures WidthOf(Run([first], measure, capacity), second, measure) == measure(first.font, first.text)
  {
    var f, g :| f in fonts && g in fonts && f + "|" <= g;
    first, second := Collision(f, g);
    assert [first][..0] == [];
  }

  // Two fonts that are not told apart: ("a", "b|t") and ("a|b", "t") share the key "a|b|t".
  lemma BarredFontsCollide(measure: Measure, capacity: nat)
    ensures !BarFree({"a", "a|b"})
    ensures WidthOf(Run([Call("a", "b|t")], measure, capacity), Call("a|b", "t"), measure) == measure("a", "b|t")
  {
    assert "a" + "|" <= "a|b";
    assert "a" + "|" + "b|t" == "a|b|t" == "a|b" + "|" + "t";
    assert [Call("a", "b|t")][..0] == [];
  }

  const UI_FONT: string := "system-ui, sans-serif"

  // The fonts in use: a size, with a weight or without, before the family.
  function UiFont(bold: bool, size: string): string {
    (if bold then "600 " else "") + size + "px " + UI_FONT
  }

  // As they are set, with a weight and without.
  lemma UiFontsAsSet(size: string)
    ensures UiFont(true, size) == "600 " + size + "px system-ui, sans-serif"
    ensures UiFont(false, size) == size + "px system-ui, sans-serif"
  {
    assert "px " + UI_FONT == "px system-ui, sans-serif";
    Associative("600 " + size, "px ", UI_FONT);
    Associative("" + size, "px ", UI_FONT);
    assert "" + size == size;
  }

  ghost predicate IsUiFont(font: string) {
    exists bold, size :: '|' !in size && font == UiFont(bold, size)
  }

  // Whatever their sizes, they are told apart.
  lemma UiFontsAreBarFree(fonts: set<string>)
    requires forall f :: f in fonts ==> IsUiFont(f)
    ensures BarFree(fonts)
  {
    forall f | f in fonts
      ensures '|' !in f
    {
      var bold, size :| '|' !in size && f == UiFont(bold, size);
    }
    NoBarsIsBarFree(fonts);
  }
}
