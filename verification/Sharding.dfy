// Test sharding: the timed group assignment of run-tests.js.
//
// Every CI job computes the same groups and runs the one of its position.
module Sharding {
  import opened RealSums
  import opened Sequences

  // A test without a recorded time, or with a recorded time of zero, counts as one second.
  function TimeOf(prevTimings: map<string, real>, test: string): real {
    if test in prevTimings && prevTimings[test] != 0.0 then prevTimings[test] else 1.0
  }

  datatype Groups = Groups(tests: seq<seq<string>>, times: seq<real>) {
    ghost predicate Valid() {
      |tests| == |times| > 0
    }
  }

  const FIRST_GROUP: Groups := Groups([[]], [0.0])

  // How many groups there are once a test has been assigned.
  function Count(total: int): nat {
    if total <= 1 then 1 else total
  }

  // Groups that are missing up to `total` are created empty.
  function Widen(g: Groups, total: int): (w: Groups)
    requires g.Valid()
    ensures w.Valid()
    ensures |g.tests| <= Count(total) ==> |w.tests| == Count(total)
    decreases total - |g.tests|
  {
    if |g.tests| >= total then g else Widen(Groups(g.tests + [[]], g.times + [0.0]), total)
  }

  // The first group of least time.
  function Smallest(times: seq<real>): (k: nat)
    requires times != []
    ensures k < |times|
  {
    var last := |times| - 1;
    if last == 0 then 0
    else
      var k := Smallest(times[..last]);
      if times[last] < times[k] then last else k
  }

  lemma {:induction false} SmallestIsFirstLeast(times: seq<real>)
    requires times != []
    ensures forall i :: 0 <= i < |times| ==> times[Smallest(times)] <= times[i]
    ensures forall i :: 0 <= i < Smallest(times) ==> times[Smallest(times)] < times[i]
  {
    var last := |times| - 1;
    if last > 0 {
      SmallestIsFirstLeast(times[..last]);
      assert forall i :: 0 <= i < last ==> times[..last][i] == times[i];
    }
  }

  function Push(g: Groups, k: nat, test: string, time: real): Groups
    requires g.Valid() && k < |g.tests|
  {
    Groups(g.tests[k := g.tests[k] + [test]], g.times[k := g.times[k] + time])
  }

  function Greedy(tests: seq<string>, prevTimings: map<string, real>, total: int): (g: Groups)
    ensures g.Valid() && |g.tests| <= Count(total)
  {
    if tests == [] then FIRST_GROUP
    else
      var test := tests[|tests| - 1];
      var g := Widen(Greedy(tests[..|tests| - 1], prevTimings, total), total);
      Push(g, Smallest(g.times), test, TimeOf(prevTimings, test))
  }

  // ---------- The loop ----------

  lemma SmallestNext(times: seq<real>, i: nat)
    requires 0 < i < |times|
    ensures var k := Smallest(times[..i]);
            Smallest(times[..i + 1]) == if times[i] < times[k] then i else k
  {
    assert times[..i + 1][..i] == times[..i];
  }

  // One turn: find the smallest group, creating missing groups on the way, and add the test to it.
  method AddTest(g: Groups, test: string, time: real, groupTotal: int) returns (g': Groups)
    requires g.Valid() && |g.tests| <= Count(groupTotal)
    ensures var w := Widen(g, groupTotal); g' == Push(w, Smallest(w.times), test, time)
  {
    ghost var w := Widen(g, groupTotal);
    g' := g;
    var smallestGroup, smallestGroupIdx := g'.times[0], 0;
    assert g'.times[..1] == [g'.times[0]];
    var i := 1;
    while i < groupTotal
      invariant 1 <= i <= |g'.times| <= Count(groupTotal) && g'.Valid()
      invariant Widen(g', groupTotal) == w
      invariant smallestGroupIdx == Smallest(g'.times[..i]) && smallestGroup == g'.times[smallestGroupIdx]
      decreases groupTotal - i
    {
      ghost var seen := g'.times[..i];
      if i >= |g'.tests| {
        g' := Groups(g'.tests + [[]], g'.times + [0.0]);
        assert g'.times[..i] == seen;
      }
      SmallestNext(g'.times, i);
      var groupTime := g'.times[i];
      if groupTime < smallestGroup {
        smallestGroup, smallestGroupIdx := groupTime, i;
      }
      i := i + 1;
    }
    assert g'.times[..i] == g'.times && g' == w;
    g' := Push(g', smallestGroupIdx, test, time);
  }

  method AssignGroups(tests: seq<string>, prevTimings: map<string, real>, groupTotal: int) returns (groups: Groups)
    ensures groups == Greedy(tests, prevTimings, groupTotal)
  {
    groups := FIRST_GROUP;
    for k := 0 to |tests|
      invariant groups == Greedy(tests[..k], prevTimings, groupTotal)
    {
      assert tests[..k + 1][..k] == tests[..k];
      groups := AddTest(groups, tests[k], TimeOf(prevTimings, tests[k]), groupTotal);
    }
    assert tests[..|tests|] == tests;
  }

  // ---------- Partition ----------

  function AllTests(groups: seq<seq<string>>): multiset<string> {
    if groups == [] then multiset{} else AllTests(groups[..|groups| - 1]) + multiset(groups[|groups| - 1])
  }

  lemma {:induction false} PushedTests(groups: seq<seq<string>>, k: nat, test: string)
    requires k < |groups|
    ensures AllTests(groups[k := groups[k] + [test]]) == AllTests(groups) + multiset{test}
  {
    var last := |groups| - 1;
    var groups' := groups[k := groups[k] + [test]];
    if k == last {
      assert groups'[..last] == groups[..last];
    } else {
      PushedTests(groups[..last], k, test);
      assert groups'[..last] == groups[..last][k := groups[k] + [test]];
    }
  }

  lemma {:induction false} WidenedTests(g: Groups, total: int)
    requires g.Valid()
    ensures AllTests(Widen(g, total).tests) == AllTests(g.tests)
    decreases total - |g.tests|
  {
    if |g.tests| < total {
      WidenedTests(Groups(g.tests + [[]], g.times + [0.0]), total);
      assert (g.tests + [[]])[..|g.tests|] == g.tests;
    }
  }

  lemma GreedyStep(tests: seq<string>, prevTimings: map<string, real>, total: int, w: Groups)
    requires tests != [] && w == Widen(Greedy(tests[..|tests| - 1], prevTimings, total), total)
    ensures Greedy(tests, prevTimings, total)
            == Push(w, Smallest(w.times), tests[|tests| - 1], TimeOf(prevTimings, tests[|tests| - 1]))
    ensures Widen(Greedy(tests, prevTimings, total), total) == Greedy(tests, prevTimings, total)
  {
  }

  // Every test is in exactly one group, as often as it occurs.
  lemma {:induction false} GreedyPartitions(tests: seq<string>, prevTimings: map<string, real>, total: int)
    ensures AllTests(Greedy(tests, prevTimings, total).tests) == multiset(tests)
  {
    if tests == [] {
      assert FIRST_GROUP.tests[..0] == [];
    } else {
      var init := tests[..|tests| - 1];
      GreedyPartitions(init, prevTimings, total);
      var w := Widen(Greedy(init, prevTimings, total), total);
      WidenedTests(Greedy(init, prevTimings, total), total);
      GreedyStep(tests, prevTimings, total, w);
      PushedTests(w.tests, Smallest(w.times), tests[|tests| - 1]);
      assert tests == init + [tests[|tests| - 1]];
    }
  }

  // What the job of position `pos`, counted from 0, runs; a group that was never created is empty.
  function JobTests(groups: seq<seq<string>>, pos: nat): seq<string> {
    if pos < |groups| then groups[pos] else []
  }

  function JobsTests(groups: seq<seq<string>>, jobs: nat): seq<seq<string>> {
    seq(jobs, pos requires 0 <= pos < jobs => JobTests(groups, pos))
  }

  lemma {:induction false} MissingGroupsAreEmpty(groups: seq<seq<string>>, jobs: nat)
    requires |groups| <= jobs
    ensures AllTests(JobsTests(groups, jobs)) == AllTests(groups)
  {
    if |groups| == jobs {
      assert JobsTests(groups, jobs) == groups;
    } else {
      MissingGroupsAreEmpty(groups, jobs - 1);
      assert JobsTests(groups, jobs)[jobs - 1] == [];
      assert JobsTests(groups, jobs)[..jobs - 1] == JobsTests(groups, jobs - 1);
    }
  }

  lemma GroupCount(tests: seq<string>, prevTimings: map<string, real>, total: int)
    ensures tests != [] ==> |Greedy(tests, prevTimings, total).tests| == Count(total)
  {
  }

  // The jobs together run every test as often as it was listed, also when there are fewer groups than jobs.
  lemma JobsRunEveryTest(tests: seq<string>, prevTimings: map<string, real>, total: nat)
    requires total > 0
    ensures AllTests(JobsTests(Greedy(tests, prevTimings, total).tests, total)) == multiset(tests)
  {
    var groups := Greedy(tests, prevTimings, total).tests;
    GroupCount(tests, prevTimings, total);
    GreedyPartitions(tests, prevTimings, total);
    MissingGroupsAreEmpty(groups, total);
  }

  function LoadOf(tests: seq<string>, prevTimings: map<string, real>): real {
    if tests == [] then 0.0 else LoadOf(tests[..|tests| - 1], prevTimings) + TimeOf(prevTimings, tests[|tests| - 1])
  }

  // Tests with a recorded time take that time, whatever it is unless zero, and all others a second.
  lemma {:induction false} LoadExact(timed: seq<string>, untimed: seq<string>, prevTimings: map<string, real>,
                                     times: seq<real>)
    requires |times| == |timed|
    requires forall i :: 0 <= i < |timed| ==>
               timed[i] in prevTimings && prevTimings[timed[i]] == times[i] && times[i] != 0.0
    requires forall t :: t in untimed ==> t !in prevTimings || prevTimings[t] == 0.0
    ensures LoadOf(timed + untimed, prevTimings) == SumR(times) + |untimed| as real
    decreases |timed| + |untimed|
  {
    if untimed != [] {
      var init := untimed[..|untimed| - 1];
      LoadExact(timed, init, prevTimings, times);
      assert (timed + untimed)[..|timed| + |init|] == timed + init;
    } else if timed != [] {
      LoadExact(timed[..|timed| - 1], [], prevTimings, times[..|times| - 1]);
      assert timed + untimed == timed && timed[..|timed| - 1] + [] == timed[..|timed| - 1];
    } else {
      assert timed + untimed == [];
    }
  }

  ghost predicate TimesRight(g: Groups, prevTimings: map<string, real>) {
    g.Valid() && forall k :: 0 <= k < |g.tests| ==> g.times[k] == LoadOf(g.tests[k], prevTimings)
  }

  lemma {:induction false} WidenKeepsTimes(g: Groups, total: int, prevTimings: map<string, real>)
    requires TimesRight(g, prevTimings)
    ensures TimesRight(Widen(g, total), prevTimings)
    decreases total - |g.tests|
  {
    if |g.tests| < total {
      var g' := Groups(g.tests + [[]], g.times + [0.0]);
      forall k | 0 <= k < |g'.tests|
        ensures g'.times[k] == LoadOf(g'.tests[k], prevTimings)
      {
        if k < |g.tests| { assert g'.tests[k] == g.tests[k]; }
      }
      WidenKeepsTimes(g', total, prevTimings);
    }
  }

  // The accumulated time of a group is the time of its tests.
  lemma {:induction false} TimesAreLoads(tests: seq<string>, prevTimings: map<string, real>, total: int)
    ensures TimesRight(Greedy(tests, prevTimings, total), prevTimings)
  {
    if tests != [] {
      var init, test := tests[..|tests| - 1], tests[|tests| - 1];
      TimesAreLoads(init, prevTimings, total);
      WidenKeepsTimes(Greedy(init, prevTimings, total), total, prevTimings);
      var w := Widen(Greedy(init, prevTimings, total), total);
      var k := Smallest(w.times);
      assert (w.tests[k] + [test])[..|w.tests[k]|] == w.tests[k];
    }
  }

  // ---------- Balance ----------

  ghost predicate NonNegative(prevTimings: map<string, real>) {
    forall t :: t in prevTimings ==> prevTimings[t] >= 0.0
  }

  // `n` times `x`.
  function Scale(n: nat, x: real): real {
    if n == 0 then 0.0 else Scale(n - 1, x) + x
  }

  lemma {:induction false} ScaleIsProduct(n: nat, x: real)
    ensures Scale(n, x) == n as real * x
  {
    if n > 0 { ScaleIsProduct(n - 1, x); }
  }

  lemma {:induction false} ScaleMono(n: nat, a: real, b: real)
    requires a <= b
    ensures Scale(n, a) <= Scale(n, b)
  {
    if n > 0 { ScaleMono(n - 1, a, b); }
  }

  lemma {:induction false} ScaleSum(n: nat, a: real, b: real)
    ensures Scale(n, a + b) == Scale(n, a) + Scale(n, b)
  {
    if n > 0 { ScaleSum(n - 1, a, b); }
  }

  lemma {:induction false} SumAtLeast(xs: seq<real>, low: real)
    requires forall i :: 0 <= i < |xs| ==> low <= xs[i]
    ensures Scale(|xs|, low) <= SumR(xs)
  {
    if xs != [] { SumAtLeast(xs[..|xs| - 1], low); }
  }

  lemma {:induction false} SumAtMost(xs: seq<real>, high: real)
    requires forall i :: 0 <= i < |xs| ==> xs[i] <= high
    ensures SumR(xs) <= Scale(|xs|, high)
  {
    if xs != [] { SumAtMost(xs[..|xs| - 1], high); }
  }

  lemma {:induction false} SumBumped(xs: seq<real>, k: nat, x: real)
    requires k < |xs|
    ensures SumR(xs[k := xs[k] + x]) == SumR(xs) + x
  {
    var last := |xs| - 1;
    if k == last {
      assert xs[k := xs[k] + x][..last] == xs[..last];
    } else {
      SumBumped(xs[..last], k, x);
      assert xs[k := xs[k] + x][..last] == xs[..last][k := xs[k] + x];
    }
  }

  // The longest single time.
  function Longest(tests: seq<string>, prevTimings: map<string, real>): real {
    if tests == [] then 0.0
    else
      var before, time := Longest(tests[..|tests| - 1], prevTimings), TimeOf(prevTimings, tests[|tests| - 1]);
      if before < time then time else before
  }

  // No two of the times differ by more than `longest`.
  ghost predicate Close(times: seq<real>, longest: real) {
    forall a, b :: 0 <= a < |times| && 0 <= b < |times| ==> times[a] - times[b] <= longest
  }

  ghost predicate Near(times: seq<real>, a: nat, total: real, longest: real)
    requires a < |times|
  {
    Scale(|times|, times[a]) <= total + Scale(|times| - 1, longest)
  }

  // No time exceeds the mean by more than (1 - 1/m) of `longest`, for `m` times of sum `total`.
  ghost predicate NearMean(times: seq<real>, total: real, longest: real) {
    forall a :: 0 <= a < |times| ==> Near(times, a, total, longest)
  }

  lemma GrowthBound(m: nat, low: real, time: real, total: real, longest': real)
    requires m > 0 && Scale(m, low) <= total && time <= longest'
    ensures Scale(m, low + time) <= total + time + Scale(m - 1, longest')
  {
    ScaleSum(m, low, time);
    ScaleMono(m - 1, time, longest');
  }

  lemma SmallestStaysNear(times: seq<real>, time: real, k: nat, longest': real)
    requires times != [] && time <= longest'
    requires k < |times| && forall i :: 0 <= i < |times| ==> times[k] <= times[i]
    ensures Scale(|times|, times[k] + time) <= SumR(times) + time + Scale(|times| - 1, longest')
  {
    SumAtLeast(times, times[k]);
    GrowthBound(|times|, times[k], time, SumR(times), longest');
  }

  lemma OthersStayNear(times: seq<real>, a: nat, longest: real, time: real, longest': real)
    requires a < |times| && NearMean(times, SumR(times), longest) && 0.0 <= time && longest <= longest'
    ensures Near(times, a, SumR(times) + time, longest')
  {
    assert Near(times, a, SumR(times), longest);
    ScaleMono(|times| - 1, longest, longest');
  }

  // Adding to the smallest group keeps the groups near the mean.
  lemma PushKeepsNearMean(times: seq<real>, longest: real, time: real, k: nat, longest': real)
    requires times != [] && NearMean(times, SumR(times), longest)
    requires 0.0 <= time <= longest' && longest <= longest'
    requires k < |times| && forall i :: 0 <= i < |times| ==> times[k] <= times[i]
    ensures NearMean(times[k := times[k] + time], SumR(times) + time, longest')
  {
    var total, times' := SumR(times) + time, times[k := times[k] + time];
    SmallestStaysNear(times, time, k, longest');
    forall a | 0 <= a < |times'|
      ensures Near(times', a, total, longest')
    {
      if a != k { OthersStayNear(times, a, longest, time, longest'); }
    }
  }

  // The groups, all of them created, after `tests` have been assigned.
  ghost predicate Balanced(tests: seq<string>, prevTimings: map<string, real>, times: seq<real>) {
    var total, longest := LoadOf(tests, prevTimings), Longest(tests, prevTimings);
    && times != [] && SumR(times) == total && longest >= 0.0
    && Close(times, longest) && NearMean(times, total, longest)
  }

  function Zeros(n: nat): seq<real> {
    seq(n, _ => 0.0)
  }

  lemma {:induction false} WidenPads(g: Groups, total: int)
    requires g.Valid() && |g.tests| <= Count(total)
    ensures Widen(g, total).times == g.times + Zeros(Count(total) - |g.times|)
    decreases total - |g.tests|
  {
    if |g.tests| < total {
      WidenPads(Groups(g.tests + [[]], g.times + [0.0]), total);
      assert [0.0] + Zeros(Count(total) - |g.times| - 1) == Zeros(Count(total) - |g.times|);
    }
  }

  lemma {:induction false} SumZeros(n: nat)
    ensures SumR(Zeros(n)) == 0.0
  {
    if n > 0 {
      SumZeros(n - 1);
      assert Zeros(n)[..n - 1] == Zeros(n - 1);
    }
  }

  lemma ZerosBalanced(m: nat)
    requires m > 0
    ensures Close(Zeros(m), 0.0) && NearMean(Zeros(m), 0.0, 0.0) && SumR(Zeros(m)) == 0.0
  {
    SumZeros(m);
    ScaleIsProduct(m, 0.0);
    ScaleIsProduct(m - 1, 0.0);
  }

  // The least of the times, raised.
  function Raised(times: seq<real>, time: real): seq<real>
    requires times != []
  {
    var k := Smallest(times);
    times[k := times[k] + time]
  }

  lemma PushRaises(w: Groups, test: string, time: real)
    requires w.Valid()
    ensures Push(w, Smallest(w.times), test, time).times == Raised(w.times, time)
  {
  }

  lemma GreedyTimes(tests: seq<string>, prevTimings: map<string, real>, total: int, w: Groups)
    requires tests != [] && w == Widen(Greedy(tests[..|tests| - 1], prevTimings, total), total)
    ensures Widen(Greedy(tests, prevTimings, total), total).times
            == Raised(w.times, TimeOf(prevTimings, tests[|tests| - 1]))
  {
    GreedyStep(tests, prevTimings, total, w);
    PushRaises(w, tests[|tests| - 1], TimeOf(prevTimings, tests[|tests| - 1]));
  }

  lemma NoTestsBalanced(prevTimings: map<string, real>, total: int)
    ensures Balanced([], prevTimings, Widen(FIRST_GROUP, total).times)
  {
    WidenPads(FIRST_GROUP, total);
    ZerosBalanced(Count(total));
    assert Widen(FIRST_GROUP, total).times == Zeros(Count(total));
  }

  lemma PushKeepsBalance(init: seq<string>, prevTimings: map<string, real>, times: seq<real>, tests: seq<string>)
    requires NonNegative(prevTimings) && tests != [] && init == tests[..|tests| - 1]
    requires Balanced(init, prevTimings, times)
    ensures Balanced(tests, prevTimings, Raised(times, TimeOf(prevTimings, tests[|tests| - 1])))
  {
    var k, time := Smallest(times), TimeOf(prevTimings, tests[|tests| - 1]);
    SmallestIsFirstLeast(times);
    SumBumped(times, k, time);
    PushKeepsNearMean(times, Longest(init, prevTimings), time, k, Longest(tests, prevTimings));
  }

  // At every point of the assignment the groups are balanced.
  lemma {:induction false} GreedyBalanced(tests: seq<string>, prevTimings: map<string, real>, total: int)
    requires NonNegative(prevTimings)
    ensures Balanced(tests, prevTimings, Widen(Greedy(tests, prevTimings, total), total).times)
  {
    if tests == [] {
      NoTestsBalanced(prevTimings, total);
    } else {
      var init := tests[..|tests| - 1];
      var w := Widen(Greedy(init, prevTimings, total), total);
      GreedyBalanced(init, prevTimings, total);
      PushKeepsBalance(init, prevTimings, w.times, tests);
      GreedyTimes(tests, prevTimings, total, w);
    }
  }

  lemma FinalGroupsBalanced(tests: seq<string>, prevTimings: map<string, real>, total: int)
    requires NonNegative(prevTimings) && tests != []
    ensures |Greedy(tests, prevTimings, total).times| == Count(total)
    ensures Balanced(tests, prevTimings, Greedy(tests, prevTimings, total).times)
  {
    GroupCount(tests, prevTimings, total);
    GreedyBalanced(tests, prevTimings, total);
  }

  // The largest and the smallest group differ by at most the longest single test.
  lemma GroupsDifferByOneTest(tests: seq<string>, prevTimings: map<string, real>, total: int)
    requires NonNegative(prevTimings) && tests != []
    ensures Close(Greedy(tests, prevTimings, total).times, Longest(tests, prevTimings))
  {
    FinalGroupsBalanced(tests, prevTimings, total);
  }

  // ---------- Any other assignment ----------

  // The load of shard `s` when test `i` is run by shard `shardOf[i]`.
  function ShardLoad(tests: seq<string>, prevTimings: map<string, real>, shardOf: seq<nat>, s: nat): real
    requires |shardOf| == |tests|
  {
    if tests == [] then 0.0
    else
      var last := |tests| - 1;
      ShardLoad(tests[..last], prevTimings, shardOf[..last], s)
      + if shardOf[last] == s then TimeOf(prevTimings, tests[last]) else 0.0
  }

  function ShardLoads(tests: seq<string>, prevTimings: map<string, real>, shardOf: seq<nat>, m: nat): seq<real>
    requires |shardOf| == |tests|
  {
    seq(m, s requires 0 <= s < m => ShardLoad(tests, prevTimings, shardOf, s))
  }

  // No shard of the assignment takes longer than `makespan`.
  ghost predicate Makespan(tests: seq<string>, prevTimings: map<string, real>, shardOf: seq<nat>, m: nat,
                           makespan: real) {
    && |shardOf| == |tests|
    && (forall i :: 0 <= i < |tests| ==> shardOf[i] < m)
    && (forall s: nat :: s < m ==> ShardLoad(tests, prevTimings, shardOf, s) <= makespan)
  }

  lemma {:induction false} LoadsSumUp(tests: seq<string>, prevTimings: map<string, real>, shardOf: seq<nat>, m: nat)
    requires |shardOf| == |tests| && forall i :: 0 <= i < |tests| ==> shardOf[i] < m
    ensures SumR(ShardLoads(tests, prevTimings, shardOf, m)) == LoadOf(tests, prevTimings)
  {
    var loads := ShardLoads(tests, prevTimings, shardOf, m);
    if tests == [] {
      assert loads == Zeros(m);
      SumZeros(m);
    } else {
      var last := |tests| - 1;
      var before := ShardLoads(tests[..last], prevTimings, shardOf[..last], m);
      LoadsSumUp(tests[..last], prevTimings, shardOf[..last], m);
      SumBumped(before, shardOf[last], TimeOf(prevTimings, tests[last]));
      assert loads == before[shardOf[last] := before[shardOf[last]] + TimeOf(prevTimings, tests[last])];
    }
  }

  lemma {:induction false} LoadsGrow(tests: seq<string>, prevTimings: map<string, real>, shardOf: seq<nat>, s: nat)
    requires NonNegative(prevTimings) && |shardOf| == |tests|
    ensures ShardLoad(tests, prevTimings, shardOf, s) >= 0.0
  {
    if tests != [] {
      LoadsGrow(tests[..|tests| - 1], prevTimings, shardOf[..|tests| - 1], s);
    }
  }

  // Some shard runs the longest test.
  lemma {:induction false} LongestWithin(tests: seq<string>, prevTimings: map<string, real>, shardOf: seq<nat>, m: nat)
    returns (s: nat)
    requires NonNegative(prevTimings) && |shardOf| == |tests| && tests != []
    requires forall i :: 0 <= i < |tests| ==> shardOf[i] < m
    ensures s < m && Longest(tests, prevTimings) <= ShardLoad(tests, prevTimings, shardOf, s)
  {
    var last := |tests| - 1;
    s := shardOf[last];
    LoadsGrow(tests[..last], prevTimings, shardOf[..last], s);
    if TimeOf(prevTimings, tests[last]) <= Longest(tests[..last], prevTimings) {
      if last > 0 {
        s := LongestWithin(tests[..last], prevTimings, shardOf[..last], m);
      }
    }
  }

  function RatioBound(m: nat, makespan: real): real
    requires m > 0
  {
    (2.0 - 1.0 / m as real) * makespan
  }

  lemma MakespanBounds(tests: seq<string>, prevTimings: map<string, real>, shardOf: seq<nat>, m: nat, makespan: real)
    requires NonNegative(prevTimings) && tests != [] && Makespan(tests, prevTimings, shardOf, m, makespan)
    ensures LoadOf(tests, prevTimings) <= Scale(m, makespan)
    ensures Longest(tests, prevTimings) <= makespan
  {
    LoadsSumUp(tests, prevTimings, shardOf, m);
    SumAtMost(ShardLoads(tests, prevTimings, shardOf, m), makespan);
    var s := LongestWithin(tests, prevTimings, shardOf, m);
  }

  lemma DivideBy(m: real, time: real, makespan: real)
    requires m >= 1.0 && m * time <= m * makespan + (m - 1.0) * makespan
    ensures time <= (2.0 - 1.0 / m) * makespan
  {
    var bound := (2.0 - 1.0 / m) * makespan;
    assert m * bound == m * makespan + (m - 1.0) * makespan;
    assert m * (time - bound) <= 0.0;
  }

  lemma MeanToRatio(m: nat, time: real, total: real, longest: real, makespan: real)
    requires m >= 1 && Scale(m, time) <= total + Scale(m - 1, longest)
    requires total <= Scale(m, makespan) && longest <= makespan
    ensures time <= RatioBound(m, makespan)
  {
    ScaleMono(m - 1, longest, makespan);
    ScaleIsProduct(m, time);
    ScaleIsProduct(m, makespan);
    ScaleIsProduct(m - 1, makespan);
    DivideBy(m as real, time, makespan);
  }

  // Greedy sharding over m groups stays within (2 - 1/m) of the makespan of every assignment.
  lemma GreedyNearOptimal(tests: seq<string>, prevTimings: map<string, real>, total: int,
                          shardOf: seq<nat>, makespan: real, a: nat)
    requires NonNegative(prevTimings) && tests != []
    requires Makespan(tests, prevTimings, shardOf, Count(total), makespan)
    requires a < |Greedy(tests, prevTimings, total).times|
    ensures Greedy(tests, prevTimings, total).times[a] <= RatioBound(Count(total), makespan)
  {
    var times := Greedy(tests, prevTimings, total).times;
    FinalGroupsBalanced(tests, prevTimings, total);
    assert Near(times, a, LoadOf(tests, prevTimings), Longest(tests, prevTimings));
    MakespanBounds(tests, prevTimings, shardOf, Count(total), makespan);
    MeanToRatio(Count(total), times[a], LoadOf(tests, prevTimings),
                Longest(tests, prevTimings), makespan);
  }

  // ---------- The ratio cannot be improved ----------

  // Tests of time 1, enough for m - 1 rounds over m groups, and then one of time m.
  ghost predicate WorstCase(m: nat, tests: seq<string>, prevTimings: map<string, real>) {
    && m > 0 && |tests| == (m - 1) * m + 1
    && (forall i :: 0 <= i < |tests| - 1 ==> TimeOf(prevTimings, tests[i]) == 1.0)
    && TimeOf(prevTimings, tests[|tests| - 1]) == m as real
  }

  // The group times once `q` rounds of unit tests are assigned and `r` tests of the next.
  function Filled(m: nat, q: nat, r: nat): seq<real> {
    seq(m, i => if i < r then q as real + 1.0 else q as real)
  }

  lemma SmallestFilled(m: nat, q: nat, r: nat)
    requires r < m
    ensures Smallest(Filled(m, q, r)) == r
  {
    var times := Filled(m, q, r);
    SmallestIsFirstLeast(times);
    assert times[r] == q as real && forall i :: 0 <= i < r ==> times[i] == q as real + 1.0;
  }

  lemma FilledNext(m: nat, q: nat, r: nat)
    requires r < m
    ensures Filled(m, q, r)[r := Filled(m, q, r)[r] + 1.0] == Filled(m, q, r + 1)
  {
  }

  // One more unit test goes to the first group of the round that lacks one.
  lemma UnitStep(init: seq<string>, tests: seq<string>, prevTimings: map<string, real>, m: nat, q: nat, r: nat)
    requires tests != [] && init == tests[..|tests| - 1] && r < m && TimeOf(prevTimings, tests[|tests| - 1]) == 1.0
    requires Widen(Greedy(init, prevTimings, m), m).times == Filled(m, q, r)
    ensures Widen(Greedy(tests, prevTimings, m), m).times == Filled(m, q, r + 1)
  {
    GreedyStep(tests, prevTimings, m, Widen(Greedy(init, prevTimings, m), m));
    SmallestFilled(m, q, r);
    FilledNext(m, q, r);
  }

  lemma NoUnits(prevTimings: map<string, real>, m: nat)
    requires m > 0
    ensures Widen(Greedy([], prevTimings, m), m).times == Filled(m, 0, 0)
  {
    WidenPads(FIRST_GROUP, m);
    assert FIRST_GROUP.times == Zeros(1) && Zeros(1) + Zeros(m - 1) == Filled(m, 0, 0);
  }

  lemma OneRoundLess(m: nat, q: nat, n: nat)
    requires q > 0 && n == q * m
    ensures n - m == (q - 1) * m
  {
  }

  // `n` tests of full rounds, and `r` of the next.
  lemma {:induction false} UnitRounds(tests: seq<string>, prevTimings: map<string, real>, m: nat, q: nat, r: nat,
                                      n: nat)
    requires 0 < m && r <= m && n == q * m && |tests| == n + r
    requires forall i :: 0 <= i < |tests| ==> TimeOf(prevTimings, tests[i]) == 1.0
    ensures Widen(Greedy(tests, prevTimings, m), m).times == Filled(m, q, r)
    decreases q, r
  {
    if r > 0 {
      UnitRounds(tests[..|tests| - 1], prevTimings, m, q, r - 1, n);
      UnitStep(tests[..|tests| - 1], tests, prevTimings, m, q, r - 1);
    } else if q > 0 {
      OneRoundLess(m, q, n);
      UnitRounds(tests, prevTimings, m, q - 1, m, n - m);
      assert Filled(m, q - 1, m) == Filled(m, q, 0);
    } else {
      assert tests == [];
      NoUnits(prevTimings, m);
    }
  }

  // Shards filled one after another, `m` tests each; `r` tests on shard `q`.
  function Packed(m: nat, q: nat, r: nat): seq<nat>
    decreases q, r
  {
    if r > 0 then Packed(m, q, r - 1) + [q] else if q > 0 then Packed(m, q - 1, m) else []
  }

  lemma {:induction false} PackedShards(m: nat, q: nat, r: nat, n: nat)
    requires n == q * m
    ensures |Packed(m, q, r)| == n + r
    ensures forall s :: s in Packed(m, q, r) ==> s <= q && (r == 0 ==> s < q)
    decreases q, r
  {
    if r > 0 {
      PackedShards(m, q, r - 1, n);
    } else if q > 0 {
      OneRoundLess(m, q, n);
      PackedShards(m, q - 1, m, n - m);
    }
  }

  lemma {:induction false} PackedLoad(tests: seq<string>, prevTimings: map<string, real>, m: nat, q: nat, r: nat,
                                      n: nat, s: nat)
    requires r <= m && n == q * m && |tests| == n + r == |Packed(m, q, r)|
    requires forall i :: 0 <= i < |tests| ==> TimeOf(prevTimings, tests[i]) == 1.0
    ensures ShardLoad(tests, prevTimings, Packed(m, q, r), s)
            == if s < q then m as real else if s == q then r as real else 0.0
    decreases q, r
  {
    if r > 0 {
      PackedLoad(tests[..|tests| - 1], prevTimings, m, q, r - 1, n, s);
      assert Packed(m, q, r)[..|tests| - 1] == Packed(m, q, r - 1);
    } else if q > 0 {
      OneRoundLess(m, q, n);
      PackedLoad(tests, prevTimings, m, q - 1, m, n - m, s);
    }
  }

  lemma WorstLoads(m: nat, tests: seq<string>, prevTimings: map<string, real>)
    requires WorstCase(m, tests, prevTimings)
    ensures Makespan(tests, prevTimings, Packed(m, m - 1, 0) + [m - 1], m, m as real)
  {
    var units, packed := tests[..|tests| - 1], Packed(m, m - 1, 0);
    var shardOf := packed + [m - 1];
    PackedShards(m, m - 1, 0, |units|);
    assert shardOf[..|units|] == packed;
    assert forall i :: 0 <= i < |units| ==> shardOf[i] in packed;
    forall s: nat | s < m
      ensures ShardLoad(tests, prevTimings, shardOf, s) <= m as real
    {
      PackedLoad(units, prevTimings, m, m - 1, 0, |units|, s);
    }
  }

  lemma LongStep(units: seq<string>, tests: seq<string>, prevTimings: map<string, real>, m: nat)
    requires m > 0 && tests != [] && units == tests[..|tests| - 1]
             && TimeOf(prevTimings, tests[|tests| - 1]) == m as real
    requires Widen(Greedy(units, prevTimings, m), m).times == Filled(m, m - 1, 0)
    ensures Greedy(tests, prevTimings, m).times[0] == 2.0 * m as real - 1.0
  {
    GreedyStep(tests, prevTimings, m, Widen(Greedy(units, prevTimings, m), m));
    SmallestFilled(m, m - 1, 0);
  }

  lemma TwiceLessOne(m: real)
    requires m > 0.0
    ensures (2.0 - 1.0 / m) * m == 2.0 * m - 1.0
  {
    assert 1.0 / m * m == 1.0;
  }

  lemma WorstRatio(m: nat)
    requires m > 0
    ensures RatioBound(m, m as real) == 2.0 * m as real - 1.0
  {
    TwiceLessOne(m as real);
  }

  // Every shard of a perfect packing takes m, the greedy group 2m - 1.
  lemma WorstCaseAttains(m: nat, tests: seq<string>, prevTimings: map<string, real>)
    requires WorstCase(m, tests, prevTimings)
    ensures Greedy(tests, prevTimings, m).times[0] == RatioBound(m, m as real)
  {
    var units := tests[..|tests| - 1];
    UnitRounds(units, prevTimings, m, m - 1, 0, |units|);
    LongStep(units, tests, prevTimings, m);
    WorstRatio(m);
  }

  function UnaryName(i: nat): string {
    seq(i, _ => 't')
  }

  // For every number of groups the ratio is attained, by distinct tests with recorded times.
  lemma RatioAttained(m: nat) returns (tests: seq<string>, prevTimings: map<string, real>, shardOf: seq<nat>)
    requires m > 0
    ensures tests != [] && Distinct(tests) && NonNegative(prevTimings)
    ensures Makespan(tests, prevTimings, shardOf, m, m as real)
    ensures Greedy(tests, prevTimings, m).times[0] == RatioBound(m, m as real)
  {
    var n := (m - 1) * m;
    tests := seq(n + 1, i requires 0 <= i <= n => UnaryName(i));
    prevTimings := map[UnaryName(n) := m as real];
    forall a, b | 0 <= a < b < |tests|
      ensures tests[a] != tests[b]
    {
      assert |tests[a]| == a && |tests[b]| == b;
    }
    forall i | 0 <= i < n
      ensures TimeOf(prevTimings, tests[i]) == 1.0
    {
      assert |tests[i]| == i && |UnaryName(n)| == n;
    }
    shardOf := Packed(m, m - 1, 0) + [m - 1];
    WorstLoads(m, tests, prevTimings);
    WorstCaseAttains(m, tests, prevTimings);
  }
}
