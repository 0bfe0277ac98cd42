// The import chain of the bundle analyzer: the walk up dependents in import-chain.tsx.
module ImportChain {
  import opened Wrappers
  import opened Sequences
  import opened EdgesFormat
  import opened ModulesData
  import opened ModuleDepth

  const MAX_LEVELS: nat := 101

  // A depth that is missing counts as Infinity.
  datatype Dependent = Dependent(index: nat, isAsync: bool, depth: Option<nat>)

  // `via` is the dependent that led here; the start has none.
  datatype ChainLevel = ChainLevel(moduleIndex: nat, depth: Option<nat>, selectedIndex: nat, totalCount: nat,
                                   via: Option<Dependent>)

  // What the chain is computed from; `compareIdents` is localeCompare.
  datatype Inputs = Inputs(t: Tables, depthMap: map<nat, nat>, currentRouteOnly: bool, selected: seq<Option<nat>>,
                           compareIdents: (string, string) -> int)

  function DepthOf(depthMap: map<nat, nat>, m: nat): Option<nat> {
    if m in depthMap then Some(depthMap[m]) else None
  }

  function IdentOf(idents: seq<string>, m: nat): string {
    if m < |idents| then idents[m] else ""
  }

  // ---------- Ordering ----------

  predicate DepthLess(a: Option<nat>, b: Option<nat>) {
    a.Some? && (b.None? || a.value < b.value)
  }

  // The comparator puts `a` before `b`.
  predicate Before(x: Inputs, a: Dependent, b: Dependent) {
    var identA, identB := IdentOf(x.t.idents, a.index), IdentOf(x.t.idents, b.index);
    if a.depth != b.depth then DepthLess(a.depth, b.depth)
    else if |identA| != |identB| then |identA| < |identB|
    else x.compareIdents(identA, identB) < 0
  }

  function Place(x: Inputs, sorted: seq<Dependent>, d: Dependent): seq<Dependent> {
    if sorted == [] then [d]
    else
      var last := |sorted| - 1;
      if Before(x, d, sorted[last]) then Place(x, sorted[..last], d) + [sorted[last]] else sorted + [d]
  }

  // The stable sort with that comparator.
  function Sort(x: Inputs, ds: seq<Dependent>): seq<Dependent> {
    if ds == [] then [] else Place(x, Sort(x, ds[..|ds| - 1]), ds[|ds| - 1])
  }

  ghost predicate ByDepth(ds: seq<Dependent>) {
    forall a, b :: 0 <= a < b < |ds| ==> !DepthLess(ds[b].depth, ds[a].depth)
  }

  lemma {:induction false} PlaceContents(x: Inputs, sorted: seq<Dependent>, d: Dependent)
    ensures multiset(Place(x, sorted, d)) == multiset(sorted) + multiset{d}
  {
    if sorted != [] {
      var init, last := sorted[..|sorted| - 1], sorted[|sorted| - 1];
      MultisetLast(sorted);
      if Before(x, d, last) {
        PlaceContents(x, init, d);
        MultisetSnoc(Place(x, init, d), last);
      } else {
        MultisetSnoc(sorted, d);
      }
    }
  }

  lemma {:induction false} PlaceSorts(x: Inputs, sorted: seq<Dependent>, d: Dependent)
    requires ByDepth(sorted)
    ensures ByDepth(Place(x, sorted, d))
  {
    if sorted != [] && Before(x, d, sorted[|sorted| - 1]) {
      var init, last := sorted[..|sorted| - 1], sorted[|sorted| - 1];
      PlaceSorts(x, init, d);
      PlaceContents(x, init, d);
      var front := Place(x, init, d);
      forall a | 0 <= a < |front|
        ensures !DepthLess(last.depth, front[a].depth)
      {
        assert front[a] in multiset(front);
        if front[a] != d {
          var k :| 0 <= k < |init| && init[k] == front[a];
          assert sorted[k] == front[a];
        }
      }
    }
  }

  lemma {:induction false} SortSorts(x: Inputs, ds: seq<Dependent>)
    ensures ByDepth(Sort(x, ds))
  {
    if ds != [] {
      SortSorts(x, ds[..|ds| - 1]);
      PlaceSorts(x, Sort(x, ds[..|ds| - 1]), ds[|ds| - 1]);
    }
  }

  lemma {:induction false} SortContents(x: Inputs, ds: seq<Dependent>)
    ensures multiset(Sort(x, ds)) == multiset(ds)
  {
    if ds != [] {
      SortContents(x, ds[..|ds| - 1]);
      PlaceContents(x, Sort(x, ds[..|ds| - 1]), ds[|ds| - 1]);
      MultisetLast(ds);
    }
  }

  lemma SortMembers(x: Inputs, ds: seq<Dependent>)
    ensures |Sort(x, ds)| == |ds|
    ensures forall d :: d in Sort(x, ds) <==> d in ds
    ensures forall d :: d in ds ==> !DepthLess(d.depth, Sort(x, ds)[0].depth)
  {
    SortSorts(x, ds);
    SortContents(x, ds);
    var sorted := Sort(x, ds);
    assert |multiset(sorted)| == |multiset(ds)|;
    forall d
      ensures d in sorted <==> d in ds
    {
      assert d in multiset(sorted) <==> d in multiset(ds);
    }
    forall d | d in ds
      ensures !DepthLess(d.depth, sorted[0].depth)
    {
      var k :| 0 <= k < |sorted| && sorted[k] == d;
    }
  }

  // ---------- Choices at one level ----------

  function AsDependents(depthMap: map<nat, nat>, modules: seq<nat>, isAsync: bool): seq<Dependent> {
    seq(|modules|, k requires 0 <= k < |modules| => Dependent(modules[k], isAsync, DepthOf(depthMap, modules[k])))
  }

  function RowOf(table: seq<seq<nat>>, m: nat): seq<nat> {
    if m < |table| then table[m] else []
  }

  function Dependents(x: Inputs, m: nat): seq<Dependent> {
    AsDependents(x.depthMap, RowOf(x.t.dependents, m), false)
        + AsDependents(x.depthMap, RowOf(x.t.asyncDependents, m), true)
  }

  predicate Allowed(x: Inputs, visited: seq<nat>, d: Dependent) {
    d.index !in visited && (d.depth.Some? || !x.currentRouteOnly)
  }

  function Filter(x: Inputs, visited: seq<nat>, ds: seq<Dependent>): (r: seq<Dependent>)
    ensures forall d :: d in r <==> d in ds && Allowed(x, visited, d)
  {
    if ds == [] then []
    else
      var rest := Filter(x, visited, ds[..|ds| - 1]);
      assert ds == ds[..|ds| - 1] + [ds[|ds| - 1]];
      if Allowed(x, visited, ds[|ds| - 1]) then rest + [ds[|ds| - 1]] else rest
  }

  // The dependents offered above module `m`, in the order they are offered.
  function Choices(x: Inputs, visited: seq<nat>, m: nat): seq<Dependent> {
    Sort(x, Filter(x, visited, Dependents(x, m)))
  }

  lemma ChoicesExact(x: Inputs, visited: seq<nat>, m: nat, d: Dependent)
    ensures d in Choices(x, visited, m) <==>
            && d.index in RowOf(x.t.Back(d.isAsync), m)
            && d.depth == (if d.index in x.depthMap then Some(x.depthMap[d.index]) else None)
            && d.index !in visited && (x.currentRouteOnly ==> d.index in x.depthMap)
  {
    SortMembers(x, Filter(x, visited, Dependents(x, m)));
    var row := RowOf(x.t.Back(d.isAsync), m);
    var same := AsDependents(x.depthMap, row, d.isAsync);
    if d.index in row && d.depth == DepthOf(x.depthMap, d.index) {
      var k :| 0 <= k < |row| && row[k] == d.index;
      assert same[k] == d;
      assert d in same;
    }
    assert d in Dependents(x, m) <==> d in same by {
      assert d in Dependents(x, m) <==>
        d in AsDependents(x.depthMap, RowOf(x.t.dependents, m), false)
            || d in AsDependents(x.depthMap, RowOf(x.t.asyncDependents, m), true);
    }
  }

  // The selection at a level defaults to 0 and is clamped to the last choice.
  function Selected(x: Inputs, level: nat, count: nat): (i: nat)
    requires count > 0
    ensures i < count
  {
    var wanted := if level < |x.selected| && x.selected[level].Some? then x.selected[level].value else 0;
    if wanted < count - 1 then wanted else count - 1
  }

  function LevelOf(x: Inputs, choices: seq<Dependent>, level: nat): ChainLevel
    requires choices != []
  {
    var i := Selected(x, level, |choices|);
    ChainLevel(choices[i].index, DepthOf(x.depthMap, choices[i].index), i, |choices|, Some(choices[i]))
  }

  // ---------- The chain ----------

  function Modules(chain: seq<ChainLevel>): seq<nat> {
    seq(|chain|, k requires 0 <= k < |chain| => chain[k].moduleIndex)
  }

  function ChoicesAbove(x: Inputs, chain: seq<ChainLevel>, k: nat): seq<Dependent>
    requires k < |chain|
  {
    Choices(x, Modules(chain[..k + 1]), chain[k].moduleIndex)
  }

  // Level `k + 1` is the selected choice above level `k`.
  ghost predicate Follows(x: Inputs, chain: seq<ChainLevel>, k: nat)
    requires k + 1 < |chain|
  {
    var choices := ChoicesAbove(x, chain, k);
    && choices != [] && chain[k + 1] == LevelOf(x, choices, k + 1)
    && chain[k + 1].moduleIndex < |x.t.idents|
  }

  // The chain stops at the level cap, when there is no choice, or when the choice is no module.
  ghost predicate Stops(x: Inputs, chain: seq<ChainLevel>)
    requires chain != []
  {
    var choices := ChoicesAbove(x, chain, |chain| - 1);
    || |chain| == MAX_LEVELS
    || choices == []
    || LevelOf(x, choices, |chain|).moduleIndex >= |x.t.idents|
  }

  function StartLevel(x: Inputs, starts: seq<nat>): ChainLevel
    requires starts != []
  {
    var i := Selected(x, 0, |starts|);
    ChainLevel(starts[i], DepthOf(x.depthMap, starts[i]), i, |starts|, None)
  }

  ghost predicate Grows(x: Inputs, starts: seq<nat>, chain: seq<ChainLevel>) {
    && starts != [] && 0 < |chain| <= MAX_LEVELS
    && chain[0] == StartLevel(x, starts)
    && forall k :: 0 <= k < |chain| - 1 ==> Follows(x, chain, k)
  }

  // The chain is determined by its inputs.
  ghost predicate IsChain(x: Inputs, starts: seq<nat>, chain: seq<ChainLevel>) {
    if starts == [] then chain == [] else Grows(x, starts, chain) && Stops(x, chain)
  }

  // ---------- The algorithm ----------

  function StartsAmong(x: Inputs, startPath: string, layerAllowed: nat -> bool, n: nat): seq<nat>
    requires n <= |x.t.paths|
  {
    if n == 0 then []
    else
      var m := n - 1;
      StartsAmong(x, startPath, layerAllowed, m)
      + if x.t.paths[m] == startPath && (!x.currentRouteOnly || m in x.depthMap) && layerAllowed(m) then [m] else []
  }

  // The modules of the start path that pass the route filter and the layer filter.
  function StartModules(x: Inputs, startPath: string, layerAllowed: nat -> bool): seq<nat> {
    if startPath == "" then [] else StartsAmong(x, startPath, layerAllowed, |x.t.paths|)
  }

  lemma {:induction false} StartsAmongExact(x: Inputs, startPath: string, layerAllowed: nat -> bool, n: nat, m: nat)
    requires n <= |x.t.paths|
    ensures m in StartsAmong(x, startPath, layerAllowed, n) <==>
            m < n && x.t.paths[m] == startPath && (!x.currentRouteOnly || m in x.depthMap) && layerAllowed(m)
  {
    if n > 0 { StartsAmongExact(x, startPath, layerAllowed, n - 1, m); }
  }

  // The choices above the last level of the chain, read from the file.
  method OfferChoices(file: ModulesFile, x: Inputs, ghost chain: seq<ChainLevel>, visited: seq<nat>, m: nat)
    returns (choices: seq<Dependent>)
    requires ShowsModules(file, x.t)
    requires chain != [] && visited == Modules(chain) && m == chain[|chain| - 1].moduleIndex
    ensures choices == ChoicesAbove(x, chain, |chain| - 1)
  {
    var sync := ReadEdgesDataAtIndex(file.binary, file.moduleDependents, m);
    var asynchronous := ReadEdgesDataAtIndex(file.binary, file.asyncModuleDependents, m);
    var dependents := AsDependents(x.depthMap, sync.value, false) + AsDependents(x.depthMap, asynchronous.value, true);
    choices := Sort(x, Filter(x, visited, dependents));
    assert chain[..|chain| - 1 + 1] == chain;
  }

  lemma ChainExtended(x: Inputs, starts: seq<nat>, chain: seq<ChainLevel>, next: ChainLevel)
    requires Grows(x, starts, chain) && |chain| < MAX_LEVELS
    requires var choices := ChoicesAbove(x, chain, |chain| - 1);
             choices != [] && next == LevelOf(x, choices, |chain|) && next.moduleIndex < |x.t.idents|
    ensures Grows(x, starts, chain + [next])
  {
    var chain' := chain + [next];
    forall k | 0 <= k < |chain'| - 1
      ensures Follows(x, chain', k)
    {
      assert chain'[..k + 1] == chain[..k + 1];
      if k < |chain| - 1 { assert Follows(x, chain, k); }
    }
  }

  method BuildChain(file: ModulesFile, x: Inputs, startPath: string, layerAllowed: nat -> bool)
    returns (result: seq<ChainLevel>)
    requires ShowsModules(file, x.t)
    ensures IsChain(x, StartModules(x, startPath, layerAllowed), result)
  {
    var starts := StartModules(x, startPath, layerAllowed);
    if starts == [] {
      return [];
    }
    result := [StartLevel(x, starts)];
    var visitedModules, levelIndex := [result[0].moduleIndex], 1;
    while true
      invariant Grows(x, starts, result)
      invariant levelIndex == |result| < MAX_LEVELS && visitedModules == Modules(result)
      decreases MAX_LEVELS - levelIndex
    {
      var choices := OfferChoices(file, x, result, visitedModules, result[levelIndex - 1].moduleIndex);
      if choices == [] {
        assert Stops(x, result);
        break;
      }
      var next := LevelOf(x, choices, levelIndex);
      if next.moduleIndex >= |file.idents| {
        assert Stops(x, result);
        break;
      }
      ChainExtended(x, starts, result, next);
      result := result + [next];
      visitedModules := visitedModules + [next.moduleIndex];
      levelIndex := levelIndex + 1;
      if levelIndex > 100 {
        assert Stops(x, result);
        break;
      }
    }
  }

  // ---------- What is selected ----------

  // The choice shown at a level is the selected one; a selection past the end shows the last choice,
  // and without a selection the first one is shown.
  lemma SelectionShown(x: Inputs, starts: seq<nat>, chain: seq<ChainLevel>, k: nat)
    requires Grows(x, starts, chain) && k < |chain|
    ensures var count, shown := chain[k].totalCount, chain[k].selectedIndex;
            && shown < count
            && (k < |x.selected| && x.selected[k].Some? ==>
                  shown == if x.selected[k].value < count then x.selected[k].value else count - 1)
            && (k >= |x.selected| || x.selected[k].None? ==> shown == 0)
    ensures k == 0 ==> chain[0].totalCount == |starts| && chain[0].moduleIndex == starts[chain[0].selectedIndex]
    ensures k > 0 ==>
              var choices, level := ChoicesAbove(x, chain, k - 1), chain[k];
              && level.totalCount == |choices| && level.via == Some(choices[level.selectedIndex])
              && level.moduleIndex == choices[level.selectedIndex].index
  {
    if k > 0 { assert Follows(x, chain, k - 1); }
  }

  // What can be chosen does not depend on what is selected.
  lemma {:induction false} PlaceIgnoresSelection(x: Inputs, selected: seq<Option<nat>>, sorted: seq<Dependent>,
                                                 d: Dependent)
    ensures Place(x.(selected := selected), sorted, d) == Place(x, sorted, d)
  {
    if sorted != [] { PlaceIgnoresSelection(x, selected, sorted[..|sorted| - 1], d); }
  }

  lemma {:induction false} SortIgnoresSelection(x: Inputs, selected: seq<Option<nat>>, ds: seq<Dependent>)
    ensures Sort(x.(selected := selected), ds) == Sort(x, ds)
  {
    if ds != [] {
      SortIgnoresSelection(x, selected, ds[..|ds| - 1]);
      PlaceIgnoresSelection(x, selected, Sort(x, ds[..|ds| - 1]), ds[|ds| - 1]);
    }
  }

  lemma {:induction false} FilterIgnoresSelection(x: Inputs, selected: seq<Option<nat>>, visited: seq<nat>,
                                                  ds: seq<Dependent>)
    ensures Filter(x.(selected := selected), visited, ds) == Filter(x, visited, ds)
  {
    if ds != [] { FilterIgnoresSelection(x, selected, visited, ds[..|ds| - 1]); }
  }

  lemma ChoicesIgnoreSelection(x: Inputs, selected: seq<Option<nat>>, visited: seq<nat>, m: nat)
    ensures Choices(x.(selected := selected), visited, m) == Choices(x, visited, m)
  {
    FilterIgnoresSelection(x, selected, visited, Dependents(x, m));
    SortIgnoresSelection(x, selected, Filter(x, visited, Dependents(x, m)));
  }

  // The selections that show a chain, and then the choice of index `j`.
  function Selections(chain: seq<ChainLevel>, j: nat): seq<Option<nat>> {
    seq(|chain|, k requires 0 <= k < |chain| => Some(chain[k].selectedIndex)) + [Some(j)]
  }

  lemma StillFollows(x: Inputs, selected: seq<Option<nat>>, chain: seq<ChainLevel>, k: nat)
    requires k + 1 < |chain| && Follows(x, chain, k)
    requires k + 1 < |selected| && selected[k + 1] == Some(chain[k + 1].selectedIndex)
    ensures Follows(x.(selected := selected), chain, k)
  {
    ChoicesIgnoreSelection(x, selected, Modules(chain[..k + 1]), chain[k].moduleIndex);
  }

  lemma SelectionsShow(x: Inputs, starts: seq<nat>, chain: seq<ChainLevel>, j: nat)
    requires Grows(x, starts, chain)
    ensures Grows(x.(selected := Selections(chain, j)), starts, chain)
  {
    forall k | 0 <= k < |chain| - 1
      ensures Follows(x.(selected := Selections(chain, j)), chain, k)
    {
      assert Follows(x, chain, k);
      StillFollows(x, Selections(chain, j), chain, k);
    }
  }

  // Every choice above a chain is shown under some selection, the levels below staying as they are.
  lemma EveryChoiceIsShown(x: Inputs, starts: seq<nat>, chain: seq<ChainLevel>, j: nat) returns (next: ChainLevel)
    requires Grows(x, starts, chain) && |chain| < MAX_LEVELS && j < |ChoicesAbove(x, chain, |chain| - 1)|
    requires ChoicesAbove(x, chain, |chain| - 1)[j].index < |x.t.idents|
    ensures next.via == Some(ChoicesAbove(x, chain, |chain| - 1)[j]) && next.selectedIndex == j
    ensures Grows(x.(selected := Selections(chain, j)), starts, chain + [next])
  {
    var x' := x.(selected := Selections(chain, j));
    var last := |chain| - 1;
    SelectionsShow(x, starts, chain, j);
    ChoicesIgnoreSelection(x, x'.selected, Modules(chain[..last + 1]), chain[last].moduleIndex);
    next := LevelOf(x', ChoicesAbove(x', chain, last), |chain|);
    ChainExtended(x', starts, chain, next);
  }

  // And so is every start.
  lemma EveryStartIsShown(x: Inputs, starts: seq<nat>, j: nat) returns (start: ChainLevel)
    requires j < |starts|
    ensures start.moduleIndex == starts[j] && Grows(x.(selected := [Some(j)]), starts, [start])
  {
    start := StartLevel(x.(selected := [Some(j)]), starts);
  }

  // ---------- The order of the choices ----------

  // The comparison of idents is a consistent one.
  ghost predicate Consistent(compare: (string, string) -> int) {
    && (forall a, b :: compare(a, b) < 0 ==> !(compare(b, a) < 0))
    && (forall a, b, c :: !(compare(b, a) < 0) && !(compare(c, b) < 0) ==> !(compare(c, a) < 0))
  }

  // Shallower first, unreached last; among equals the shorter ident, then the smaller one.
  ghost predicate InOrder(x: Inputs, a: Dependent, b: Dependent) {
    var identA := if a.index < |x.t.idents| then x.t.idents[a.index] else "";
    var identB := if b.index < |x.t.idents| then x.t.idents[b.index] else "";
    || (a.depth.Some? && (b.depth.None? || a.depth.value < b.depth.value))
    || (a.depth == b.depth && |identA| < |identB|)
    || (a.depth == b.depth && |identA| == |identB| && !(x.compareIdents(identB, identA) < 0))
  }

  ghost predicate AllInOrder(x: Inputs, ds: seq<Dependent>) {
    forall a, b :: 0 <= a < b < |ds| ==> InOrder(x, ds[a], ds[b])
  }

  lemma BeforeInOrder(x: Inputs, a: Dependent, b: Dependent)
    requires Consistent(x.compareIdents)
    ensures Before(x, a, b) ==> InOrder(x, a, b)
    ensures !Before(x, a, b) ==> InOrder(x, b, a)
  {
  }

  lemma InOrderIsTransitive(x: Inputs, a: Dependent, b: Dependent, c: Dependent)
    requires Consistent(x.compareIdents) && InOrder(x, a, b) && InOrder(x, b, c)
    ensures InOrder(x, a, c)
  {
  }

  lemma {:induction false} PlaceInOrder(x: Inputs, sorted: seq<Dependent>, d: Dependent)
    requires Consistent(x.compareIdents) && AllInOrder(x, sorted)
    ensures AllInOrder(x, Place(x, sorted, d))
  {
    if sorted != [] {
      var init, last := sorted[..|sorted| - 1], sorted[|sorted| - 1];
      BeforeInOrder(x, d, last);
      if Before(x, d, last) {
        PlaceInOrder(x, init, d);
        PlaceContents(x, init, d);
        var front := Place(x, init, d);
        forall a | 0 <= a < |front|
          ensures InOrder(x, front[a], last)
        {
          assert front[a] in multiset(front);
          if front[a] != d {
            var k :| 0 <= k < |init| && init[k] == front[a];
            assert sorted[k] == front[a];
          }
        }
      } else {
        forall a | 0 <= a < |sorted|
          ensures InOrder(x, sorted[a], d)
        {
          if a < |init| { InOrderIsTransitive(x, sorted[a], last, d); }
        }
      }
    }
  }

  // The choices are offered in that order.
  lemma {:induction false} SortInOrder(x: Inputs, ds: seq<Dependent>)
    requires Consistent(x.compareIdents)
    ensures AllInOrder(x, Sort(x, ds))
  {
    if ds != [] {
      SortInOrder(x, ds[..|ds| - 1]);
      PlaceInOrder(x, Sort(x, ds[..|ds| - 1]), ds[|ds| - 1]);
    }
  }

  lemma SortTwo(x: Inputs, a: Dependent, b: Dependent)
    ensures Sort(x, [a, b]) == if Before(x, b, a) then [b, a] else [a, b]
  {
    assert [a, b][..1] == [a] && [a][..0] == [];
    assert Sort(x, [a]) == [a];
    assert Place(x, [], b) == [b];
  }

  // A module that imports another one in both ways is offered as a sync importer first.
  lemma SyncComesFirst(x: Inputs, m: nat, u: nat)
    requires m < |x.t.dependents| && m < |x.t.asyncDependents|
    requires x.t.dependents[m] == [u] && x.t.asyncDependents[m] == [u]
    requires u in x.depthMap && Consistent(x.compareIdents)
    ensures Choices(x, [], m) == [Dependent(u, false, Some(x.depthMap[u])), Dependent(u, true, Some(x.depthMap[u]))]
  {
    var a, b := Dependent(u, false, Some(x.depthMap[u])), Dependent(u, true, Some(x.depthMap[u]));
    assert Dependents(x, m) == [a, b];
    assert [a, b][..1] == [a] && [a][..0] == [];
    assert Filter(x, [], [a]) == [a] && Filter(x, [], [a, b]) == [a, b];
    var ident := IdentOf(x.t.idents, u);
    assert !(x.compareIdents(ident, ident) < 0);
    SortTwo(x, a, b);
  }

  // The starts are in the order of their indices.
  lemma {:induction false} StartsAscend(x: Inputs, startPath: string, layerAllowed: nat -> bool, n: nat)
    requires n <= |x.t.paths|
    ensures Increasing(StartsAmong(x, startPath, layerAllowed, n))
  {
    if n > 0 {
      var before := StartsAmong(x, startPath, layerAllowed, n - 1);
      StartsAscend(x, startPath, layerAllowed, n - 1);
      forall a | 0 <= a < |before|
        ensures before[a] < n - 1
      {
        StartsAmongExact(x, startPath, layerAllowed, n - 1, before[a]);
        assert before[a] in before;
      }
    }
  }

  // ---------- What the chain promises ----------

  lemma NextIsChoice(x: Inputs, starts: seq<nat>, chain: seq<ChainLevel>, k: nat)
    requires Grows(x, starts, chain) && k + 1 < |chain|
    ensures var next := chain[k + 1];
            && next.via.Some? && next.via.value.index == next.moduleIndex
            && next.moduleIndex in RowOf(x.t.Back(next.via.value.isAsync), chain[k].moduleIndex)
            && next.moduleIndex !in Modules(chain[..k + 1])
  {
    assert Follows(x, chain, k);
    var choices := ChoicesAbove(x, chain, k);
    var i := Selected(x, k + 1, |choices|);
    assert choices[i] in choices;
    ChoicesExact(x, Modules(chain[..k + 1]), chain[k].moduleIndex, choices[i]);
  }

  // Whatever is selected, no module occurs twice.
  lemma NoRepeats(x: Inputs, starts: seq<nat>, chain: seq<ChainLevel>)
    requires Grows(x, starts, chain)
    ensures Distinct(Modules(chain))
  {
    forall a, b | 0 <= a < b < |chain|
      ensures chain[a].moduleIndex != chain[b].moduleIndex
    {
      NextIsChoice(x, starts, chain, b - 1);
      assert Modules(chain[..b])[a] == chain[a].moduleIndex;
    }
  }

  // Whatever is selected, each level imports the one below it, in the way it is marked.
  lemma StepsAreImports(x: Inputs, starts: seq<nat>, chain: seq<ChainLevel>, k: nat)
    requires ValidTables(x.t) && Grows(x, starts, chain) && k + 1 < |chain|
    ensures chain[k + 1].via.Some?
    ensures Edge(x.t.Forth(chain[k + 1].via.value.isAsync), chain[k + 1].moduleIndex, chain[k].moduleIndex)
  {
    NextIsChoice(x, starts, chain, k);
    var isAsync := chain[k + 1].via.value.isAsync;
    assert Inverse(x.t.Forth(isAsync), x.t.Back(isAsync), |x.t.idents|);
    assert Edge(x.t.Back(isAsync), chain[k].moduleIndex, chain[k + 1].moduleIndex);
  }

  // ---------- The default chain heads for an entry ----------

  function GraphOf(t: Tables): Graph {
    Graph(t.dependencies, t.asyncDependencies)
  }

  // A module that is no entry has an importer of smaller depth.
  lemma ShallowerDependent(t: Tables, entries: seq<nat>, depth: map<nat, nat>, m: nat) returns (u: nat, isAsync: bool)
    requires ValidTables(t) && ShortestDepths(GraphOf(t), entries, depth)
    requires m in depth && depth[m] > 0
    ensures u in depth && depth[u] < depth[m] && u in RowOf(t.Back(isAsync), m)
  {
    var r :| IsRoute(GraphOf(t), entries, r) && r.End() == m && r.Cost() == depth[m];
    u, isAsync := r.prev.End(), r.isAsync;
    assert Inverse(t.Forth(isAsync), t.Back(isAsync), |t.idents|);
    assert Edge(t.Forth(isAsync), u, m);
    assert Edge(t.Back(isAsync), m, u);
  }

  // The situation of the default view: only the current route, nothing selected, shortest depths.
  ghost predicate DefaultView(x: Inputs, entries: seq<nat>) {
    && ValidTables(x.t) && x.currentRouteOnly
    && (forall l :: 0 <= l < |x.selected| ==> x.selected[l] == None)
    && ShortestDepths(GraphOf(x.t), entries, x.depthMap)
  }

  ghost predicate Descends(chain: seq<ChainLevel>, n: nat) {
    && n <= |chain|
    && (forall k :: 0 <= k < n ==> chain[k].depth.Some?)
    && (forall a, b :: 0 <= a < b < n ==> chain[b].depth.value < chain[a].depth.value)
  }

  // ---------- The first choice does not depend on the levels below ----------

  predicate Shallow(d: Dependent, limit: nat) {
    d.depth.Some? && d.depth.value < limit
  }

  // The dependents of smaller depth than `limit`.
  function Keep(ds: seq<Dependent>, limit: nat): seq<Dependent> {
    if ds == [] then []
    else Keep(ds[..|ds| - 1], limit) + if Shallow(ds[|ds| - 1], limit) then [ds[|ds| - 1]] else []
  }

  lemma {:induction false} KeepMembers(ds: seq<Dependent>, limit: nat, d: Dependent)
    ensures d in Keep(ds, limit) <==> d in ds && Shallow(d, limit)
  {
    if ds != [] {
      KeepMembers(ds[..|ds| - 1], limit, d);
      assert ds == ds[..|ds| - 1] + [ds[|ds| - 1]];
    }
  }

  lemma KeepSnoc(ds: seq<Dependent>, d: Dependent, limit: nat)
    ensures Keep(ds + [d], limit) == if Shallow(d, limit) then Keep(ds, limit) + [d] else Keep(ds, limit)
  {
    assert (ds + [d])[..|ds|] == ds && Keep(ds, limit) + [] == Keep(ds, limit);
  }

  lemma PlaceSnoc(x: Inputs, sorted: seq<Dependent>, last: Dependent, d: Dependent)
    ensures Place(x, sorted + [last], d)
            == if Before(x, d, last) then Place(x, sorted, d) + [last] else sorted + [last] + [d]
  {
    assert (sorted + [last])[..|sorted|] == sorted;
  }

  lemma BeforeByDepth(x: Inputs, a: Dependent, b: Dependent, limit: nat)
    ensures Before(x, a, b) && Shallow(b, limit) ==> Shallow(a, limit)
    ensures !Before(x, a, b) && Shallow(a, limit) ==> Shallow(b, limit)
  {
  }

  // Among the shallow ones a deeper dependent changes nothing.
  lemma {:induction false} KeepPlace(x: Inputs, sorted: seq<Dependent>, d: Dependent, limit: nat)
    ensures Keep(Place(x, sorted, d), limit)
            == if Shallow(d, limit) then Place(x, Keep(sorted, limit), d) else Keep(sorted, limit)
  {
    if sorted == [] {
      KeepSnoc([], d, limit);
      assert [] + [d] == [d];
    } else {
      var init, last := sorted[..|sorted| - 1], sorted[|sorted| - 1];
      assert sorted == init + [last];
      KeepSnoc(init, last, limit);
      BeforeByDepth(x, d, last, limit);
      if Before(x, d, last) {
        KeepPlace(x, init, d, limit);
        KeepSnoc(Place(x, init, d), last, limit);
      } else {
        KeepSnoc(sorted, d, limit);
      }
      if Shallow(last, limit) { PlaceSnoc(x, Keep(init, limit), last, d); }
    }
  }

  lemma SortSnoc(x: Inputs, ds: seq<Dependent>, d: Dependent)
    ensures Sort(x, ds + [d]) == Place(x, Sort(x, ds), d)
  {
    assert (ds + [d])[..|ds|] == ds;
  }

  lemma {:induction false} KeepSort(x: Inputs, ds: seq<Dependent>, limit: nat)
    ensures Keep(Sort(x, ds), limit) == Sort(x, Keep(ds, limit))
  {
    if ds != [] {
      var init, last := ds[..|ds| - 1], ds[|ds| - 1];
      KeepSort(x, init, limit);
      assert ds == init + [last];
      KeepSnoc(init, last, limit);
      KeepPlace(x, Sort(x, init), last, limit);
      if Shallow(last, limit) { SortSnoc(x, Keep(init, limit), last); }
    }
  }

  lemma ShallowBefore(ds: seq<Dependent>, limit: nat)
    requires ByDepth(ds) && Keep(ds, limit) != [] && |ds| > 1
    ensures Keep(ds[..|ds| - 1], limit) != []
  {
    var init, last := ds[..|ds| - 1], ds[|ds| - 1];
    assert !DepthLess(last.depth, ds[0].depth);
    KeepMembers(init, limit, ds[0]);
    assert ds[0] == init[0];
  }

  // Shallow ones come first.
  lemma {:induction false} KeepFirst(ds: seq<Dependent>, limit: nat)
    requires ByDepth(ds) && Keep(ds, limit) != []
    ensures ds != [] && ds[0] == Keep(ds, limit)[0]
  {
    if |ds| > 1 {
      ShallowBefore(ds, limit);
      KeepFirst(ds[..|ds| - 1], limit);
    } else {
      assert ds[..0] == [];
    }
  }

  // No shallow dependent has been visited.
  lemma {:induction false} KeepFilter(x: Inputs, visited: seq<nat>, ds: seq<Dependent>, limit: nat)
    requires forall d :: d in ds && Shallow(d, limit) ==> d.index !in visited
    ensures Keep(Filter(x, visited, ds), limit) == Keep(Filter(x, [], ds), limit)
  {
    if ds != [] {
      var init, last := ds[..|ds| - 1], ds[|ds| - 1];
      assert last in ds && forall d :: d in init ==> d in ds;
      KeepFilter(x, visited, init, limit);
      KeepSnoc(Filter(x, visited, init), last, limit);
      KeepSnoc(Filter(x, [], init), last, limit);
    }
  }

  lemma DependentDepths(x: Inputs, m: nat)
    ensures forall d :: d in Dependents(x, m) ==> d.depth == DepthOf(x.depthMap, d.index)
  {
  }

  // If all visited modules are as deep as `limit` and some choice is not, the first choice is the
  // same as if nothing had been visited.
  lemma FirstChoiceStable(x: Inputs, visited: seq<nat>, m: nat, limit: nat)
    requires forall v: nat :: v in visited && v in x.depthMap ==> x.depthMap[v] >= limit
    requires Keep(Choices(x, [], m), limit) != []
    ensures Choices(x, visited, m) != [] && Choices(x, [], m) != [] && Choices(x, visited, m)[0] == Choices(x, [], m)[0]
  {
    var ds := Dependents(x, m);
    DependentDepths(x, m);
    KeepFilter(x, visited, ds, limit);
    KeepSort(x, Filter(x, visited, ds), limit);
    KeepSort(x, Filter(x, [], ds), limit);
    SortSorts(x, Filter(x, visited, ds));
    SortSorts(x, Filter(x, [], ds));
    KeepFirst(Choices(x, visited, m), limit);
    KeepFirst(Choices(x, [], m), limit);
  }

  // The importer that comes first above module `m`; a module without importers is its own.
  function Up(x: Inputs, m: nat): nat {
    if Choices(x, [], m) == [] then m else Choices(x, [], m)[0].index
  }

  // Above a module of positive depth it is strictly shallower.
  lemma UpDescends(x: Inputs, entries: seq<nat>, m: nat)
    requires DefaultView(x, entries) && m in x.depthMap && x.depthMap[m] > 0
    ensures Keep(Choices(x, [], m), x.depthMap[m]) != [] && Up(x, m) < |x.t.idents|
    ensures Up(x, m) in x.depthMap && x.depthMap[Up(x, m)] < x.depthMap[m]
  {
    var u, isAsync := ShallowerDependent(x.t, entries, x.depthMap, m);
    var d, choices := Dependent(u, isAsync, Some(x.depthMap[u])), Choices(x, [], m);
    ChoicesExact(x, [], m, d);
    KeepMembers(choices, x.depthMap[m], d);
    SortSorts(x, Filter(x, [], Dependents(x, m)));
    KeepFirst(choices, x.depthMap[m]);
    var c := choices[0];
    KeepMembers(choices, x.depthMap[m], c);
    ChoicesExact(x, [], m, c);
    assert Inverse(x.t.Forth(c.isAsync), x.t.Back(c.isAsync), |x.t.idents|);
    assert Edge(x.t.Back(c.isAsync), m, c.index);
  }

  // While depths fall, the next level is that importer: no visited module is in the way.
  lemma StepDescends(x: Inputs, entries: seq<nat>, chain: seq<ChainLevel>, k: nat)
    requires DefaultView(x, entries) && k < |chain| && Descends(chain, k + 1) && chain[k].depth.value > 0
    requires forall j :: 0 <= j <= k ==> chain[j].depth == DepthOf(x.depthMap, chain[j].moduleIndex)
    ensures var choices := ChoicesAbove(x, chain, k);
            && choices != [] && choices[0].index == Up(x, chain[k].moduleIndex) < |x.t.idents|
            && DepthLess(DepthOf(x.depthMap, choices[0].index), chain[k].depth)
  {
    var m, visited := chain[k].moduleIndex, Modules(chain[..k + 1]);
    UpDescends(x, entries, m);
    forall v: nat | v in visited && v in x.depthMap
      ensures x.depthMap[v] >= x.depthMap[m]
    {
      var j :| 0 <= j < k + 1 && visited[j] == v;
      assert chain[k].depth.value <= chain[j].depth.value;
    }
    FirstChoiceStable(x, visited, m, x.depthMap[m]);
  }

  ghost predicate LevelDepths(x: Inputs, chain: seq<ChainLevel>) {
    forall k :: 0 <= k < |chain| ==> chain[k].depth == DepthOf(x.depthMap, chain[k].moduleIndex)
  }

  lemma DepthsAreLooked(x: Inputs, starts: seq<nat>, chain: seq<ChainLevel>)
    requires Grows(x, starts, chain)
    ensures LevelDepths(x, chain)
  {
    forall k | 0 <= k < |chain|
      ensures chain[k].depth == DepthOf(x.depthMap, chain[k].moduleIndex)
    {
      if k > 0 { assert Follows(x, chain, k - 1); }
    }
  }

  lemma NextIsUp(x: Inputs, entries: seq<nat>, chain: seq<ChainLevel>, k: nat)
    requires DefaultView(x, entries) && k + 1 < |chain| && Follows(x, chain, k)
    requires LevelDepths(x, chain) && Descends(chain, k + 1) && chain[k].depth.value > 0
    ensures chain[k + 1].moduleIndex == Up(x, chain[k].moduleIndex)
  {
    StepDescends(x, entries, chain, k);
    assert Selected(x, k + 1, |ChoicesAbove(x, chain, k)|) == 0;
  }

  lemma DescendsNext(chain: seq<ChainLevel>, n: nat)
    requires 0 < n < |chain| && Descends(chain, n)
    requires chain[n].depth.Some? && chain[n].depth.value < chain[n - 1].depth.value
    ensures Descends(chain, n + 1)
  {
    assert forall a :: 0 <= a < n ==> chain[n - 1].depth.value <= chain[a].depth.value;
  }

  lemma NextDescends(x: Inputs, entries: seq<nat>, chain: seq<ChainLevel>, k: nat)
    requires DefaultView(x, entries) && k + 1 < |chain| && Follows(x, chain, k)
    requires LevelDepths(x, chain) && Descends(chain, k + 1) && chain[k].depth.value > 0
    ensures Descends(chain, k + 2)
  {
    NextIsUp(x, entries, chain, k);
    UpDescends(x, entries, chain[k].moduleIndex);
    DescendsNext(chain, k + 1);
  }

  ghost predicate StartsOnRoute(x: Inputs, starts: seq<nat>) {
    starts != [] && forall s :: s in starts ==> s in x.depthMap
  }

  // From a start of the current route, depths fall strictly as long as they are positive.
  lemma {:induction false} DefaultChainDescends(x: Inputs, entries: seq<nat>, starts: seq<nat>, chain: seq<ChainLevel>,
                                                k: nat)
    requires DefaultView(x, entries) && StartsOnRoute(x, starts) && Grows(x, starts, chain)
    requires k < |chain| && forall j :: 0 <= j < k ==> chain[j].depth != Some(0)
    ensures Descends(chain, k + 1)
  {
    DepthsAreLooked(x, starts, chain);
    if k == 0 {
      assert starts[Selected(x, 0, |starts|)] in starts;
    } else {
      DefaultChainDescends(x, entries, starts, chain, k - 1);
      assert Follows(x, chain, k - 1);
      NextDescends(x, entries, chain, k - 1);
    }
  }

  // And there is a next level while they are positive, unless the level cap is reached.
  lemma DefaultChainContinues(x: Inputs, entries: seq<nat>, starts: seq<nat>, chain: seq<ChainLevel>)
    requires DefaultView(x, entries) && StartsOnRoute(x, starts) && IsChain(x, starts, chain)
    requires forall j :: 0 <= j < |chain| ==> chain[j].depth != Some(0)
    ensures |chain| == MAX_LEVELS
  {
    var k := |chain| - 1;
    DepthsAreLooked(x, starts, chain);
    DefaultChainDescends(x, entries, starts, chain, k);
    StepDescends(x, entries, chain, k);
  }

  lemma DepthZeroIsEntry(g: Graph, entries: seq<nat>, depth: map<nat, nat>, m: nat)
    requires ShortestDepths(g, entries, depth) && m in depth && depth[m] == 0
    ensures m in entries
  {
  }

  ghost predicate ReachesEntry(entries: seq<nat>, chain: seq<ChainLevel>) {
    exists k :: 0 <= k < |chain| && chain[k].moduleIndex in entries
  }

  // The default chain reaches an active entry, or it is cut off at the level cap.
  lemma DefaultChainReachesEntry(x: Inputs, entries: seq<nat>, starts: seq<nat>, chain: seq<ChainLevel>)
    requires DefaultView(x, entries) && StartsOnRoute(x, starts) && IsChain(x, starts, chain)
    ensures ReachesEntry(entries, chain)
            || (|chain| == MAX_LEVELS && Descends(chain, MAX_LEVELS) && chain[100].depth.value > 0)
  {
    DepthsAreLooked(x, starts, chain);
    if k :| 0 <= k < |chain| && chain[k].depth == Some(0) {
      DepthZeroIsEntry(GraphOf(x.t), entries, x.depthMap, chain[k].moduleIndex);
    } else {
      DefaultChainContinues(x, entries, starts, chain);
      DefaultChainDescends(x, entries, starts, chain, |chain| - 1);
    }
  }

  // ---------- Exactly when the default chain reaches an entry ----------

  // How many steps up lead from a module to depth 0.
  function Climb(x: Inputs, ghost entries: seq<nat>, m: nat): nat
    requires DefaultView(x, entries) && m in x.depthMap
    decreases x.depthMap[m]
  {
    if x.depthMap[m] == 0 then 0
    else
      UpDescends(x, entries, m);
      1 + Climb(x, entries, Up(x, m))
  }

  // Level `k + 1` is one step nearer to depth 0 than level `k`.
  ghost predicate Climbs(x: Inputs, entries: seq<nat>, chain: seq<ChainLevel>, k: nat)
    requires DefaultView(x, entries) && k + 1 < |chain|
  {
    && chain[k].moduleIndex in x.depthMap && chain[k + 1].moduleIndex in x.depthMap
    && Climb(x, entries, chain[k].moduleIndex) == 1 + Climb(x, entries, chain[k + 1].moduleIndex)
  }

  lemma ClimbNext(x: Inputs, entries: seq<nat>, chain: seq<ChainLevel>, k: nat)
    requires DefaultView(x, entries) && k + 1 < |chain| && Follows(x, chain, k)
    requires LevelDepths(x, chain) && Descends(chain, k + 1) && chain[k].depth.value > 0
    ensures Climbs(x, entries, chain, k)
  {
    NextIsUp(x, entries, chain, k);
    UpDescends(x, entries, chain[k].moduleIndex);
  }

  lemma {:induction false} ClimbSum(x: Inputs, entries: seq<nat>, chain: seq<ChainLevel>, k: nat)
    requires DefaultView(x, entries) && k < |chain| && chain[0].moduleIndex in x.depthMap
    requires forall j :: 0 <= j < k ==> Climbs(x, entries, chain, j)
    ensures chain[k].moduleIndex in x.depthMap
    ensures Climb(x, entries, chain[0].moduleIndex) == k + Climb(x, entries, chain[k].moduleIndex)
  {
    if k > 0 {
      ClimbSum(x, entries, chain, k - 1);
      assert Climbs(x, entries, chain, k - 1);
    }
  }

  lemma ClimbAlong(x: Inputs, entries: seq<nat>, starts: seq<nat>, chain: seq<ChainLevel>, k: nat)
    requires DefaultView(x, entries) && StartsOnRoute(x, starts) && Grows(x, starts, chain)
    requires k < |chain| && forall j :: 0 <= j < k ==> chain[j].depth != Some(0)
    ensures chain[0].moduleIndex == starts[0] && starts[0] in x.depthMap && chain[k].moduleIndex in x.depthMap
    ensures Climb(x, entries, starts[0]) == k + Climb(x, entries, chain[k].moduleIndex)
  {
    assert starts[0] in starts && Selected(x, 0, |starts|) == 0;
    DepthsAreLooked(x, starts, chain);
    forall j | 0 <= j < k
      ensures Climbs(x, entries, chain, j)
    {
      DefaultChainDescends(x, entries, starts, chain, j);
      assert Follows(x, chain, j);
      ClimbNext(x, entries, chain, j);
    }
    ClimbSum(x, entries, chain, k);
  }

  lemma EntriesAtZero(g: Graph, entries: seq<nat>, depth: map<nat, nat>, m: nat)
    requires ShortestDepths(g, entries, depth) && m in entries
    ensures m in depth && depth[m] == 0
  {
    assert IsRoute(g, entries, Entry(m)) && Entry(m).End() == m && Entry(m).Cost() == 0;
  }

  lemma ReachesAtDepthZero(x: Inputs, entries: seq<nat>, starts: seq<nat>, chain: seq<ChainLevel>)
    requires DefaultView(x, entries) && Grows(x, starts, chain)
    ensures ReachesEntry(entries, chain) <==> exists k :: 0 <= k < |chain| && chain[k].depth == Some(0)
  {
    DepthsAreLooked(x, starts, chain);
    if k :| 0 <= k < |chain| && chain[k].depth == Some(0) {
      DepthZeroIsEntry(GraphOf(x.t), entries, x.depthMap, chain[k].moduleIndex);
    }
    if k :| 0 <= k < |chain| && chain[k].moduleIndex in entries {
      EntriesAtZero(GraphOf(x.t), entries, x.depthMap, chain[k].moduleIndex);
    }
  }

  lemma FirstAtZero(chain: seq<ChainLevel>, k: nat) returns (first: nat)
    requires k < |chain| && chain[k].depth == Some(0)
    ensures first <= k && chain[first].depth == Some(0) && forall j :: 0 <= j < first ==> chain[j].depth != Some(0)
  {
    first := 0;
    while chain[first].depth != Some(0)
      invariant first <= k && forall j :: 0 <= j < first ==> chain[j].depth != Some(0)
      decreases k - first
    {
      first := first + 1;
    }
  }

  // The default chain reaches an active entry exactly when its start climbs to depth 0 in 100 steps.
  lemma DefaultChainReachesEntryIff(x: Inputs, entries: seq<nat>, starts: seq<nat>, chain: seq<ChainLevel>)
    requires DefaultView(x, entries) && StartsOnRoute(x, starts) && IsChain(x, starts, chain)
    ensures starts[0] in x.depthMap && (ReachesEntry(entries, chain) <==> Climb(x, entries, starts[0]) <= 100)
  {
    assert starts[0] in starts;
    DepthsAreLooked(x, starts, chain);
    ReachesAtDepthZero(x, entries, starts, chain);
    if k :| 0 <= k < |chain| && chain[k].depth == Some(0) {
      var first := FirstAtZero(chain, k);
      ClimbAlong(x, entries, starts, chain, first);
    } else {
      DefaultChainContinues(x, entries, starts, chain);
      ClimbAlong(x, entries, starts, chain, MAX_LEVELS - 1);
      assert chain[MAX_LEVELS - 1].depth != Some(0);
    }
  }

  // A climb is no longer than the depth it starts from.
  lemma {:induction false} ClimbWithinDepth(x: Inputs, entries: seq<nat>, m: nat)
    requires DefaultView(x, entries) && m in x.depthMap
    ensures Climb(x, entries, m) <= x.depthMap[m]
    decreases x.depthMap[m]
  {
    if x.depthMap[m] > 0 {
      UpDescends(x, entries, m);
      ClimbWithinDepth(x, entries, Up(x, m));
    }
  }

  // The default chain of a path: there is none if no module of the path is on the route; otherwise
  // it reaches an active entry exactly when the first of these modules climbs in 100 steps.
  lemma DefaultChainOfPath(x: Inputs, entries: seq<nat>, startPath: string, layerAllowed: nat -> bool,
                           chain: seq<ChainLevel>)
    requires DefaultView(x, entries) && IsChain(x, StartModules(x, startPath, layerAllowed), chain)
    ensures chain == [] <==>
            startPath == "" || forall m :: 0 <= m < |x.t.paths| && x.t.paths[m] == startPath && m in x.depthMap ==>
                !layerAllowed(m)
    ensures var starts := StartModules(x, startPath, layerAllowed);
            chain != [] ==>
              && starts != [] && starts[0] in x.depthMap
              && (ReachesEntry(entries, chain) <==> Climb(x, entries, starts[0]) <= 100)
  {
    var starts := StartModules(x, startPath, layerAllowed);
    forall m: nat
      ensures m in starts <==>
              startPath != "" && m < |x.t.paths| && x.t.paths[m] == startPath && m in x.depthMap && layerAllowed(m)
    {
      StartsAmongExact(x, startPath, layerAllowed, |x.t.paths|, m);
    }
    if starts == [] {
      assert forall m: nat :: m !in starts;
    } else {
      assert starts[0] in starts;
      DefaultChainReachesEntryIff(x, entries, starts, chain);
    }
  }

  // ---------- A chain that is cut ----------

  function LineIdent(i: nat): string {
    seq(i, _ => 'a')
  }

  function LineDepthMap(n: nat): (r: map<nat, nat>)
    ensures forall m: nat :: m in r <==> m <= n
    ensures forall m :: m in r ==> r[m] == m
  {
    if n == 0 then map[0 := 0] else LineDepthMap(n - 1)[n := n]
  }

  // Module 0 imports module 1, which imports module 2, and so on up to module `n`.
  function Line(n: nat): Tables {
    var idents: seq<string> := seq(n + 1, i requires 0 <= i <= n => LineIdent(i));
    Tables(idents, idents,
           seq(n + 1, i => if i < n then [i + 1] else []), seq(n + 1, _ => []),
           seq(n + 1, i => if i > 0 then [i - 1] else []), seq(n + 1, _ => []))
  }

  function LineInputs(n: nat, compareIdents: (string, string) -> int): Inputs {
    Inputs(Line(n), LineDepthMap(n), true, [], compareIdents)
  }

  lemma LineIsValid(n: nat)
    ensures ValidTables(Line(n))
  {
    var t := Line(n);
    forall a, b | 0 <= a < b < |t.idents|
      ensures t.idents[a] != t.idents[b]
    {
      assert |t.idents[a]| == a && |t.idents[b]| == b;
    }
    forall isAsync
      ensures Inverse(t.Forth(isAsync), t.Back(isAsync), |t.idents|)
    {
    }
  }

  lemma {:induction false} LineRoute(n: nat, m: nat)
    requires m <= n
    ensures HasRoute(GraphOf(Line(n)), [0], m, m)
  {
    var g := GraphOf(Line(n));
    if m == 0 {
      assert IsRoute(g, [0], Entry(0)) && Entry(0).End() == 0 && Entry(0).Cost() == 0;
    } else {
      LineRoute(n, m - 1);
      assert m in g.Deps(m - 1);
      ExtendRoute(g, [0], m - 1, m - 1, m, false);
    }
  }

  lemma LineDepths(n: nat, compareIdents: (string, string) -> int)
    ensures DefaultView(LineInputs(n, compareIdents), [0])
  {
    var g, depth := GraphOf(Line(n)), LineInputs(n, compareIdents).depthMap;
    LineIsValid(n);
    forall m | m in depth
      ensures HasRoute(g, [0], m, depth[m])
    {
      LineRoute(n, m);
    }
    assert Relaxed(g, [0], depth);
    forall r | IsRoute(g, [0], r)
      ensures r.End() in depth && depth[r.End()] <= r.Cost()
    {
      RelaxedIsOptimal(g, [0], depth, r);
    }
  }

  lemma LineUp(n: nat, compareIdents: (string, string) -> int, m: nat)
    requires 0 < m <= n
    ensures Up(LineInputs(n, compareIdents), m) == m - 1
  {
    var x := LineInputs(n, compareIdents);
    LineDepths(n, compareIdents);
    UpDescends(x, [0], m);
    var c := Choices(x, [], m)[0];
    assert c in Choices(x, [], m);
    ChoicesExact(x, [], m, c);
  }

  lemma {:induction false} LineClimb(n: nat, compareIdents: (string, string) -> int, m: nat)
    requires m <= n
    ensures DefaultView(LineInputs(n, compareIdents), [0]) && Climb(LineInputs(n, compareIdents), [0], m) == m
  {
    LineDepths(n, compareIdents);
    if m > 0 {
      LineUp(n, compareIdents, m);
      LineClimb(n, compareIdents, m - 1);
    }
  }

  // On a line of 102 modules the default chain from the last one never gets to the entry.
  lemma LongLineIsCut(compareIdents: (string, string) -> int, chain: seq<ChainLevel>)
    requires IsChain(LineInputs(101, compareIdents), [101], chain)
    ensures !ReachesEntry([0], chain) && |chain| == MAX_LEVELS
  {
    var x := LineInputs(101, compareIdents);
    LineClimb(101, compareIdents, 101);
    assert StartsOnRoute(x, [101]);
    DefaultChainReachesEntryIff(x, [0], [101], chain);
    DefaultChainReachesEntry(x, [0], [101], chain);
  }
}
