// Weighted module depth: computeModuleDepthMap of the bundle analyzer.
//
// One insertion-ordered map is both the queue and the visited set. Synchronous dependencies are
// appended to it at once; asynchronous ones wait in buckets, one per depth, until the queue
// reaches that depth or runs dry.
module ModuleDepth {
  import opened Sequences

  const SYNC_COST: nat := 1
  const ASYNC_COST: nat := 1000

  // The dependency tables; a module outside a table has no dependencies of that kind.
  datatype Graph = Graph(deps: seq<seq<nat>>, asyncDeps: seq<seq<nat>>) {
    function Deps(m: nat): seq<nat> {
      if m < |deps| then deps[m] else []
    }

    function AsyncDeps(m: nat): seq<nat> {
      if m < |asyncDeps| then asyncDeps[m] else []
    }
  }

  // ---------- Specification: cheapest routes ----------

  // A walk along dependency edges that starts at an active entry.
  datatype Route = Entry(entry: nat) | Hop(prev: Route, to: nat, isAsync: bool) {
    function End(): nat {
      if Entry? then entry else to
    }

    function Cost(): nat {
      if Entry? then 0 else prev.Cost() + if isAsync then ASYNC_COST else SYNC_COST
    }

    // How many of its hops are of the kind.
    function Hops(kind: bool): nat {
      if Entry? then 0 else prev.Hops(kind) + if isAsync == kind then 1 else 0
    }

    function Visited(): seq<nat> {
      if Entry? then [entry] else prev.Visited() + [to]
    }
  }

  ghost predicate IsRoute(g: Graph, entries: seq<nat>, r: Route) {
    match r
    case Entry(e) => e in entries
    case Hop(prev, to, isAsync) =>
      IsRoute(g, entries, prev) && to in if isAsync then g.AsyncDeps(prev.End()) else g.Deps(prev.End())
  }

  ghost predicate HasRoute(g: Graph, entries: seq<nat>, m: nat, cost: nat) {
    exists r :: IsRoute(g, entries, r) && r.End() == m && r.Cost() == cost
  }

  // The promise: exactly the reachable modules have a depth, and it is their least route cost.
  ghost predicate ShortestDepths(g: Graph, entries: seq<nat>, depth: map<nat, nat>) {
    && (forall m :: m in depth ==> HasRoute(g, entries, m, depth[m]))
    && (forall r :: IsRoute(g, entries, r) ==> r.End() in depth && depth[r.End()] <= r.Cost())
  }

  lemma Reachable(g: Graph, entries: seq<nat>, depth: map<nat, nat>, m: nat)
    requires ShortestDepths(g, entries, depth)
    ensures m in depth <==> exists r :: IsRoute(g, entries, r) && r.End() == m
  {
  }

  // The promise determines the map.
  lemma ShortestDepthsUnique(g: Graph, entries: seq<nat>, d1: map<nat, nat>, d2: map<nat, nat>)
    requires ShortestDepths(g, entries, d1) && ShortestDepths(g, entries, d2)
    ensures d1 == d2
  {
    forall m | m in d1 || m in d2
      ensures m in d1 && m in d2 && d1[m] == d2[m]
    {
      Reachable(g, entries, d1, m);
      Reachable(g, entries, d2, m);
      var r1 :| IsRoute(g, entries, r1) && r1.End() == m && r1.Cost() == d1[m];
      var r2 :| IsRoute(g, entries, r2) && r2.End() == m && r2.Cost() == d2[m];
    }
  }

  // ---------- What a depth counts ----------

  // A synchronous hop counts 1, an asynchronous one 1000.
  lemma {:induction false} RouteCost(r: Route)
    ensures r.Cost() == r.Hops(false) + 1000 * r.Hops(true)
  {
    if r.Hop? { RouteCost(r.prev); }
  }

  // So a depth is the least sum of sync hops and 1000 times async hops over all routes, and some route has it.
  lemma DepthCountsHops(g: Graph, entries: seq<nat>, depth: map<nat, nat>, m: nat)
    requires ShortestDepths(g, entries, depth) && m in depth
    ensures exists r :: IsRoute(g, entries, r) && r.End() == m && depth[m] == r.Hops(false) + 1000 * r.Hops(true)
    ensures forall r :: IsRoute(g, entries, r) && r.End() == m ==> depth[m] <= r.Hops(false) + 1000 * r.Hops(true)
  {
    var r :| IsRoute(g, entries, r) && r.End() == m && r.Cost() == depth[m];
    RouteCost(r);
    forall r | IsRoute(g, entries, r) && r.End() == m
      ensures depth[m] <= r.Hops(false) + 1000 * r.Hops(true)
    {
      RouteCost(r);
    }
  }

  lemma ExtendRoute(g: Graph, entries: seq<nat>, u: nat, cost: nat, v: nat, isAsync: bool)
    requires HasRoute(g, entries, u, cost)
    requires v in if isAsync then g.AsyncDeps(u) else g.Deps(u)
    ensures HasRoute(g, entries, v, cost + if isAsync then ASYNC_COST else SYNC_COST)
  {
    var r :| IsRoute(g, entries, r) && r.End() == u && r.Cost() == cost;
    var r' := Hop(r, v, isAsync);
    assert IsRoute(g, entries, r') && r'.End() == v;
  }

  // No edge out of a module with a depth can be shortened any more.
  ghost predicate Relaxed(g: Graph, entries: seq<nat>, depth: map<nat, nat>) {
    && (forall e :: e in entries ==> e in depth && depth[e] == 0)
    && (forall u, v :: u in depth && v in g.Deps(u) ==> v in depth && depth[v] <= depth[u] + SYNC_COST)
    && (forall u, v :: u in depth && v in g.AsyncDeps(u) ==> v in depth && depth[v] <= depth[u] + ASYNC_COST)
  }

  lemma {:induction false} RelaxedIsOptimal(g: Graph, entries: seq<nat>, depth: map<nat, nat>, r: Route)
    requires Relaxed(g, entries, depth)
    requires IsRoute(g, entries, r)
    ensures r.End() in depth && depth[r.End()] <= r.Cost()
  {
    if r.Hop? {
      RelaxedIsOptimal(g, entries, depth, r.prev);
    }
  }

  // The tables list an edge of the kind between the two modules.
  ghost predicate Listed(table: seq<seq<nat>>, from: nat, to: nat) {
    from < |table| && to in table[from]
  }

  // `to` is one edge away from `from`, and that much deeper.
  ghost predicate Through(g: Graph, depth: map<nat, nat>, from: nat, to: nat)
    requires to in depth
  {
    && from in depth
    && ((Listed(g.deps, from, to) && depth[to] == depth[from] + 1)
        || (Listed(g.asyncDeps, from, to) && depth[to] == depth[from] + 1000))
  }

  // The depths solve the equations of shortest paths over the tables: an edge adds at most 1 or 1000.
  lemma EdgeBounds(g: Graph, entries: seq<nat>, depth: map<nat, nat>, from: nat, to: nat)
    requires ShortestDepths(g, entries, depth) && from in depth
    ensures Listed(g.deps, from, to) ==> to in depth && depth[to] <= depth[from] + 1
    ensures Listed(g.asyncDeps, from, to) ==> to in depth && depth[to] <= depth[from] + 1000
  {
    if Listed(g.deps, from, to) {
      ExtendRoute(g, entries, from, depth[from], to, false);
    }
    if Listed(g.asyncDeps, from, to) {
      ExtendRoute(g, entries, from, depth[from], to, true);
    }
  }

  // And every module but the entries owes its depth to some edge.
  lemma DepthThroughEdge(g: Graph, entries: seq<nat>, depth: map<nat, nat>, m: nat)
    requires ShortestDepths(g, entries, depth) && m in depth
    ensures if m in entries then depth[m] == 0 else exists from: nat :: Through(g, depth, from, m)
  {
    var r :| IsRoute(g, entries, r) && r.End() == m && r.Cost() == depth[m];
    if m in entries {
      assert IsRoute(g, entries, Entry(m)) && Entry(m).End() == m;
    } else {
      var from := r.prev.End();
      assert IsRoute(g, entries, r.prev) && depth[from] <= r.prev.Cost();
      EdgeBounds(g, entries, depth, from, m);
      assert Through(g, depth, from, m);
    }
  }

  // ---------- The insertion-ordered map ----------

  datatype DepthMap = DepthMap(keys: seq<nat>, depth: map<nat, nat>) {
    ghost predicate Valid() {
      && Distinct(keys)
      && (forall m :: m in keys <==> m in depth)
    }

    // Setting an absent key appends it; setting a present key keeps its place.
    function Set(m: nat, d: nat): DepthMap {
      DepthMap(if m in depth then keys else keys + [m], depth[m := d])
    }

    ghost predicate Monotone() {
      forall a, b :: 0 <= a < b < |keys| && keys[a] in depth && keys[b] in depth ==> depth[keys[a]] <= depth[keys[b]]
    }
  }

  // What inserting the missing members of `mods` at depth `d` does to the map.
  ghost predicate Inserted(before: DepthMap, after: DepthMap, mods: seq<nat>, d: nat) {
    && after.Valid()
    && before.keys <= after.keys
    && (forall m :: m in after.depth <==> m in before.depth || m in mods)
    && (forall m :: m in before.depth ==> after.depth[m] == before.depth[m])
    && (forall m :: m in after.depth && m !in before.depth ==> after.depth[m] == d)
  }

  method SetMissing(dm: DepthMap, mods: seq<nat>, d: nat) returns (dm': DepthMap)
    requires dm.Valid()
    ensures Inserted(dm, dm', mods, d)
  {
    dm' := dm;
    for j := 0 to |mods|
      invariant Inserted(dm, dm', mods[..j], d)
    {
      if mods[j] !in dm'.depth {
        dm' := dm'.Set(mods[j], d);
      }
      assert mods[..j + 1] == mods[..j] + [mods[j]];
    }
    assert mods[..|mods|] == mods;
  }

  // ---------- The delayed buckets ----------

  datatype Bucket = Bucket(depth: nat, queue: seq<nat>)

  ghost predicate Descending(delayed: seq<Bucket>) {
    forall a, b :: 0 <= a < b < |delayed| ==> delayed[a].depth > delayed[b].depth
  }

  ghost predicate Pending(delayed: seq<Bucket>, m: nat, d: nat) {
    exists b :: 0 <= b < |delayed| && delayed[b].depth == d && m in delayed[b].queue
  }

  ghost predicate HasDepth(delayed: seq<Bucket>, d: nat) {
    exists b :: 0 <= b < |delayed| && delayed[b].depth == d
  }

  // The comparator `b.depth - a.depth` as a stable insertion sort.
  function InsertByDepth(sorted: seq<Bucket>, x: Bucket): seq<Bucket> {
    if sorted == [] || x.depth > sorted[0].depth then [x] + sorted
    else [sorted[0]] + InsertByDepth(sorted[1..], x)
  }

  lemma {:induction false} InsertByDepthContents(sorted: seq<Bucket>, x: Bucket, b: Bucket)
    ensures b in InsertByDepth(sorted, x) <==> b in sorted || b == x
  {
    if sorted != [] && x.depth <= sorted[0].depth {
      InsertByDepthContents(sorted[1..], x, b);
      assert sorted == [sorted[0]] + sorted[1..];
    }
  }

  lemma {:induction false} InsertByDepthSorts(sorted: seq<Bucket>, x: Bucket)
    requires Descending(sorted)
    requires forall b :: 0 <= b < |sorted| ==> sorted[b].depth != x.depth
    ensures Descending(InsertByDepth(sorted, x))
  {
    if sorted != [] && x.depth < sorted[0].depth {
      var rest := sorted[1..];
      InsertByDepthSorts(rest, x);
      var tail := InsertByDepth(rest, x);
      forall b | 0 <= b < |tail|
        ensures tail[b].depth < sorted[0].depth
      {
        InsertByDepthContents(rest, x, tail[b]);
        if tail[b] != x {
          var k :| 0 <= k < |rest| && rest[k] == tail[b];
          assert sorted[k + 1] == tail[b];
        }
      }
    }
  }

  lemma PendingIn(delayed: seq<Bucket>, m: nat, e: nat)
    ensures Pending(delayed, m, e) <==> exists b :: b in delayed && b.depth == e && m in b.queue
  {
  }

  lemma InsertedBucket(delayed: seq<Bucket>, delayed': seq<Bucket>, x: Bucket)
    requires forall b :: b in delayed' <==> b in delayed || b == x
    ensures forall m, e :: Pending(delayed', m, e) <==> Pending(delayed, m, e) || (m in x.queue && e == x.depth)
    ensures forall e :: HasDepth(delayed', e) <==> HasDepth(delayed, e) || e == x.depth
  {
    forall m, e
      ensures Pending(delayed', m, e) <==> Pending(delayed, m, e) || (m in x.queue && e == x.depth)
    {
      PendingIn(delayed, m, e);
      PendingIn(delayed', m, e);
    }
    forall e
      ensures HasDepth(delayed', e) <==> HasDepth(delayed, e) || e == x.depth
    {
      assert HasDepth(delayed, e) <==> exists b :: b in delayed && b.depth == e;
      assert HasDepth(delayed', e) <==> exists b :: b in delayed' && b.depth == e;
    }
  }

  // Queue `m` at depth `d`: the bucket of that depth if there is one, else a new bucket.
  method Delay(delayed: seq<Bucket>, d: nat, m: nat) returns (delayed': seq<Bucket>)
    requires Descending(delayed)
    ensures Descending(delayed')
    ensures forall x, e :: Pending(delayed', x, e) <==> Pending(delayed, x, e) || (x == m && e == d)
    ensures forall e :: HasDepth(delayed', e) <==> HasDepth(delayed, e) || e == d
  {
    var k := 0;
    while k < |delayed| && delayed[k].depth != d
      invariant 0 <= k <= |delayed|
      invariant forall b :: 0 <= b < k ==> delayed[b].depth != d
    {
      k := k + 1;
    }
    if k < |delayed| {
      delayed' := delayed[k := Bucket(d, delayed[k].queue + [m])];
      forall x, e
        ensures Pending(delayed', x, e) <==> Pending(delayed, x, e) || (x == m && e == d)
      {
        assert delayed'[k].depth == d && m in delayed'[k].queue;
        if Pending(delayed, x, e) {
          var b :| 0 <= b < |delayed| && delayed[b].depth == e && x in delayed[b].queue;
          assert delayed'[b].depth == e && x in delayed'[b].queue;
        }
      }
      forall e
        ensures HasDepth(delayed', e) <==> HasDepth(delayed, e) || e == d
      {
        if HasDepth(delayed, e) {
          var b :| 0 <= b < |delayed| && delayed[b].depth == e;
          assert delayed'[b].depth == e;
        }
        assert delayed'[k].depth == d;
      }
    } else {
      InsertByDepthSorts(delayed, Bucket(d, [m]));
      delayed' := InsertByDepth(delayed, Bucket(d, [m]));
      forall b
        ensures b in delayed' <==> b in delayed || b == Bucket(d, [m])
      {
        InsertByDepthContents(delayed, Bucket(d, [m]), b);
      }
      InsertedBucket(delayed, delayed', Bucket(d, [m]));
    }
  }

  method DelayMissing(dm: DepthMap, delayed: seq<Bucket>, mods: seq<nat>, d: nat) returns (delayed': seq<Bucket>)
    requires Descending(delayed)
    ensures Descending(delayed')
    ensures forall x, e :: Pending(delayed', x, e) <==>
            Pending(delayed, x, e) || (x in mods && x !in dm.depth && e == d)
    ensures forall e :: HasDepth(delayed', e) ==> HasDepth(delayed, e) || e == d
  {
    delayed' := delayed;
    for j := 0 to |mods|
      invariant Descending(delayed')
      invariant forall x, e :: Pending(delayed', x, e) <==>
                  Pending(delayed, x, e) || (x in mods[..j] && x !in dm.depth && e == d)
      invariant forall e :: HasDepth(delayed', e) ==> HasDepth(delayed, e) || e == d
    {
      if mods[j] !in dm.depth {
        delayed' := Delay(delayed', d, mods[j]);
      }
      assert mods[..j + 1] == mods[..j] + [mods[j]];
    }
    assert mods[..|mods|] == mods;
  }

  // ---------- The loop invariant ----------

  // Depths are routes already found, in insertion order, and buckets hold routes still to be used.
  ghost predicate Sound(g: Graph, entries: seq<nat>, dm: DepthMap, delayed: seq<Bucket>) {
    && dm.Valid() && dm.Monotone() && Descending(delayed)
    && (forall e :: e in entries ==> e in dm.depth && dm.depth[e] == 0)
    && (forall m :: m in dm.depth ==> HasRoute(g, entries, m, dm.depth[m]))
    && (forall m, d :: Pending(delayed, m, d) ==> HasRoute(g, entries, m, d))
  }

  ghost predicate SettledAt(g: Graph, dm: DepthMap, delayed: seq<Bucket>, u: nat)
    requires u in dm.depth
  {
    && (forall v :: v in g.Deps(u) ==> v in dm.depth && dm.depth[v] <= dm.depth[u] + SYNC_COST)
    && (forall v :: v in g.AsyncDeps(u) ==>
          || (v in dm.depth && dm.depth[v] <= dm.depth[u] + ASYNC_COST)
          || Pending(delayed, v, dm.depth[u] + ASYNC_COST))
  }

  // Every edge out of the first `i` modules is settled, or pending in the bucket of its depth.
  ghost predicate Settled(g: Graph, dm: DepthMap, delayed: seq<Bucket>, i: nat)
    requires dm.Valid() && i <= |dm.keys|
  {
    forall a :: 0 <= a < i ==> SettledAt(g, dm, delayed, dm.keys[a])
  }

  // No module in the map is more than one level below the next one to be processed.
  ghost predicate Level(dm: DepthMap, i: nat)
    requires dm.Valid()
  {
    i < |dm.keys| ==> forall m :: m in dm.depth ==> dm.depth[m] <= dm.depth[dm.keys[i]] + 1
  }

  // The state at the head of the main loop, before module `i` is processed.
  ghost predicate AtHead(g: Graph, entries: seq<nat>, dm: DepthMap, delayed: seq<Bucket>, i: nat) {
    && Sound(g, entries, dm, delayed)
    && i <= |dm.keys| && Settled(g, dm, delayed, i) && Level(dm, i)
    && (forall m, e :: m in dm.depth && HasDepth(delayed, e) ==> dm.depth[m] < e)
    && (i == |dm.keys| ==> delayed == [])
  }

  // The state while buckets are released; `newDepth` is one more than the depth last processed.
  ghost predicate Releasing(g: Graph, entries: seq<nat>, dm: DepthMap, delayed: seq<Bucket>, i: nat, newDepth: nat) {
    && Sound(g, entries, dm, delayed)
    && i <= |dm.keys| && Settled(g, dm, delayed, i) && Level(dm, i)
    && (forall e :: HasDepth(delayed, e) ==> newDepth <= e)
    && (forall m, e :: m in dm.depth && HasDepth(delayed, e) ==> dm.depth[m] <= newDepth || dm.depth[m] < e)
    && (i < |dm.keys| ==> newDepth <= dm.depth[dm.keys[i]] + 1)
  }

  lemma InsertedKeys(before: DepthMap, after: DepthMap, mods: seq<nat>, d: nat)
    requires before.Valid() && Inserted(before, after, mods, d)
    ensures forall k :: |before.keys| <= k < |after.keys| ==>
            after.keys[k] in after.depth && after.depth[after.keys[k]] == d
    ensures before.Monotone() && (forall m :: m in before.depth ==> before.depth[m] <= d) ==> after.Monotone()
  {
  }

  // What scanning module `u` at depth `d` does to the buckets, the map being `dm` by then.
  ghost predicate DelayedFrom(g: Graph, dm: DepthMap, before: seq<Bucket>, after: seq<Bucket>, u: nat, d: nat) {
    && Descending(after)
    && (forall x, e :: Pending(after, x, e) <==>
          Pending(before, x, e) || (x in g.AsyncDeps(u) && x !in dm.depth && e == d + ASYNC_COST))
    && (forall e :: HasDepth(after, e) ==> HasDepth(before, e) || e == d + ASYNC_COST)
  }

  // The premises of one turn of the main loop, for module `u` at depth `d`.
  ghost predicate Scanned(g: Graph, entries: seq<nat>, dm: DepthMap, delayed: seq<Bucket>, i: nat,
                          dm': DepthMap, delayed': seq<Bucket>, u: nat, d: nat) {
    && AtHead(g, entries, dm, delayed, i)
    && i < |dm.keys| && u == dm.keys[i] && u in dm.depth && d == dm.depth[u]
    && Inserted(dm, dm', g.Deps(u), d + SYNC_COST)
    && DelayedFrom(g, dm', delayed, delayed', u, d)
  }

  lemma ScanKeepsSound(g: Graph, entries: seq<nat>, dm: DepthMap, delayed: seq<Bucket>, i: nat,
                       dm': DepthMap, delayed': seq<Bucket>, u: nat, d: nat)
    requires Scanned(g, entries, dm, delayed, i, dm', delayed', u, d)
    ensures Sound(g, entries, dm', delayed')
  {
    InsertedKeys(dm, dm', g.Deps(u), d + SYNC_COST);
    forall m | m in dm'.depth
      ensures HasRoute(g, entries, m, dm'.depth[m])
    {
      if m !in dm.depth { ExtendRoute(g, entries, u, d, m, false); }
    }
    forall m, e | Pending(delayed', m, e)
      ensures HasRoute(g, entries, m, e)
    {
      if !Pending(delayed, m, e) { ExtendRoute(g, entries, u, d, m, true); }
    }
  }

  lemma ScanKeepsSettled(g: Graph, entries: seq<nat>, dm: DepthMap, delayed: seq<Bucket>, i: nat,
                         dm': DepthMap, delayed': seq<Bucket>, u: nat, d: nat)
    requires Scanned(g, entries, dm, delayed, i, dm', delayed', u, d)
    ensures i + 1 <= |dm'.keys| && Settled(g, dm', delayed', i + 1)
  {
    forall a | 0 <= a < i + 1
      ensures SettledAt(g, dm', delayed', dm'.keys[a])
    {
      assert dm.keys[a] in dm.keys && dm'.keys[a] == dm.keys[a];
      if a < i { assert SettledAt(g, dm, delayed, dm.keys[a]); }
    }
  }

  lemma ScanKeepsLevel(g: Graph, entries: seq<nat>, dm: DepthMap, delayed: seq<Bucket>, i: nat,
                       dm': DepthMap, delayed': seq<Bucket>, u: nat, d: nat)
    requires Scanned(g, entries, dm, delayed, i, dm', delayed', u, d) && dm'.Monotone()
    ensures Level(dm', i + 1)
    ensures i + 1 < |dm'.keys| ==> dm'.keys[i + 1] in dm'.depth && d <= dm'.depth[dm'.keys[i + 1]]
  {
    if i + 1 < |dm'.keys| {
      assert dm'.keys[i + 1] in dm'.keys && dm'.keys[i] in dm'.keys;
      assert dm'.depth[dm'.keys[i]] <= dm'.depth[dm'.keys[i + 1]];
    }
  }

  // Processing one module leads from the loop head to the release loop.
  lemma ScanModule(g: Graph, entries: seq<nat>, dm: DepthMap, delayed: seq<Bucket>, i: nat,
                   dm': DepthMap, delayed': seq<Bucket>, u: nat, d: nat)
    requires Scanned(g, entries, dm, delayed, i, dm', delayed', u, d)
    ensures Releasing(g, entries, dm', delayed', i + 1, d + SYNC_COST)
  {
    ScanKeepsSound(g, entries, dm, delayed, i, dm', delayed', u, d);
    ScanKeepsSettled(g, entries, dm, delayed, i, dm', delayed', u, d);
    ScanKeepsLevel(g, entries, dm, delayed, i, dm', delayed', u, d);
    forall e | HasDepth(delayed', e)
      ensures d + SYNC_COST <= e
    {
      assert HasDepth(delayed, e) ==> dm.depth[u] < e;
    }
  }

  // The premises of one turn of the release loop.
  ghost predicate Released(g: Graph, entries: seq<nat>, dm: DepthMap, delayed: seq<Bucket>, i: nat, newDepth: nat,
                           dm': DepthMap, bucket: Bucket, rest: seq<Bucket>) {
    && Releasing(g, entries, dm, delayed, i, newDepth)
    && delayed == rest + [bucket]
    && (i == |dm.keys| || newDepth == bucket.depth)
    && Inserted(dm, dm', bucket.queue, bucket.depth)
  }

  lemma RestOfBuckets(delayed: seq<Bucket>, rest: seq<Bucket>, last: Bucket)
    requires Descending(delayed) && delayed == rest + [last]
    ensures Descending(rest) && HasDepth(delayed, last.depth)
    ensures forall e :: HasDepth(rest, e) ==> HasDepth(delayed, e) && last.depth < e
    ensures forall m, e :: Pending(delayed, m, e) <==> Pending(rest, m, e) || (m in last.queue && e == last.depth)
  {
    assert delayed[|rest|] == last;
    assert forall a :: 0 <= a < |rest| ==> rest[a] == delayed[a];
    forall e | HasDepth(rest, e)
      ensures HasDepth(delayed, e) && last.depth < e
    {
      var b :| 0 <= b < |rest| && rest[b].depth == e;
      assert delayed[b].depth == e;
    }
    forall m, e
      ensures Pending(delayed, m, e) <==> Pending(rest, m, e) || (m in last.queue && e == last.depth)
    {
      PendingIn(delayed, m, e);
      PendingIn(rest, m, e);
    }
  }

  lemma ReleaseKeepsSound(g: Graph, entries: seq<nat>, dm: DepthMap, delayed: seq<Bucket>, i: nat, newDepth: nat,
                          dm': DepthMap, bucket: Bucket, rest: seq<Bucket>)
    requires Released(g, entries, dm, delayed, i, newDepth, dm', bucket, rest)
    ensures Sound(g, entries, dm', rest)
    ensures forall m :: m in dm'.depth ==> dm'.depth[m] <= bucket.depth
  {
    RestOfBuckets(delayed, rest, bucket);
    InsertedKeys(dm, dm', bucket.queue, bucket.depth);
    forall m | m in dm'.depth
      ensures HasRoute(g, entries, m, dm'.depth[m])
    {
      if m !in dm.depth { assert Pending(delayed, m, bucket.depth); }
    }
  }

  lemma ReleaseKeepsSettled(g: Graph, entries: seq<nat>, dm: DepthMap, delayed: seq<Bucket>, i: nat, newDepth: nat,
                            dm': DepthMap, bucket: Bucket, rest: seq<Bucket>)
    requires Released(g, entries, dm, delayed, i, newDepth, dm', bucket, rest)
    requires forall m :: m in dm'.depth ==> dm'.depth[m] <= bucket.depth
    ensures i <= |dm'.keys| && Settled(g, dm', rest, i)
  {
    RestOfBuckets(delayed, rest, bucket);
    forall a | 0 <= a < i
      ensures SettledAt(g, dm', rest, dm'.keys[a])
    {
      assert dm.keys[a] in dm.keys && dm'.keys[a] == dm.keys[a];
      assert SettledAt(g, dm, delayed, dm.keys[a]);
    }
  }

  // Releasing the shallowest bucket keeps the release loop's state.
  lemma ReleaseBucket(g: Graph, entries: seq<nat>, dm: DepthMap, delayed: seq<Bucket>, i: nat, newDepth: nat,
                      dm': DepthMap, bucket: Bucket, rest: seq<Bucket>)
    requires Released(g, entries, dm, delayed, i, newDepth, dm', bucket, rest)
    ensures Releasing(g, entries, dm', rest, i, newDepth)
  {
    ReleaseKeepsSound(g, entries, dm, delayed, i, newDepth, dm', bucket, rest);
    ReleaseKeepsSettled(g, entries, dm, delayed, i, newDepth, dm', bucket, rest);
    RestOfBuckets(delayed, rest, bucket);
    InsertedKeys(dm, dm', bucket.queue, bucket.depth);
    if i < |dm'.keys| {
      assert dm'.keys[i] in dm'.keys;
      if i < |dm.keys| { assert dm.keys[i] in dm.keys; }
    }
  }

  // ---------- Termination ----------

  ghost function Universe(g: Graph, entries: seq<nat>): set<nat> {
    (set e | e in entries)
    + (set a, b | 0 <= a < |g.deps| && 0 <= b < |g.deps[a]| :: g.deps[a][b])
    + (set a, b | 0 <= a < |g.asyncDeps| && 0 <= b < |g.asyncDeps[a]| :: g.asyncDeps[a][b])
  }

  lemma RouteEndInUniverse(g: Graph, entries: seq<nat>, r: Route)
    requires IsRoute(g, entries, r)
    ensures r.End() in Universe(g, entries)
  {
  }

  lemma KeysBounded(g: Graph, entries: seq<nat>, dm: DepthMap, delayed: seq<Bucket>)
    requires Sound(g, entries, dm, delayed)
    ensures |dm.keys| <= |Universe(g, entries)|
  {
    forall m | m in dm.keys
      ensures m in Universe(g, entries)
    {
      var r :| IsRoute(g, entries, r) && r.End() == m && r.Cost() == dm.depth[m];
      RouteEndInUniverse(g, entries, r);
    }
    DistinctBound(dm.keys, Universe(g, entries));
  }

  // ---------- Small graphs ----------

  lemma {:induction false} RouteLength(r: Route)
    ensures |r.Visited()| == r.Hops(false) + r.Hops(true) + 1
    ensures r.End() in r.Visited()
  {
    if r.Hop? { RouteLength(r.prev); }
  }

  lemma {:induction false} VisitedInUniverse(g: Graph, entries: seq<nat>, r: Route)
    requires IsRoute(g, entries, r)
    ensures forall m :: m in r.Visited() ==> m in Universe(g, entries)
  {
    RouteEndInUniverse(g, entries, r);
    if r.Hop? { VisitedInUniverse(g, entries, r.prev); }
  }

  // The part of a route up to a module it visits.
  lemma {:induction false} RouteUpTo(g: Graph, entries: seq<nat>, r: Route, m: nat) returns (s: Route)
    requires IsRoute(g, entries, r) && r.Hops(true) == 0 && Distinct(r.Visited()) && m in r.Visited()
    ensures IsRoute(g, entries, s) && s.Hops(true) == 0 && Distinct(s.Visited()) && s.End() == m
  {
    if r.End() == m {
      s := r;
    } else {
      var before := r.prev.Visited();
      assert forall a :: 0 <= a < |before| ==> before[a] == r.Visited()[a];
      assert m in before + [r.to];
      s := RouteUpTo(g, entries, r.prev, m);
    }
  }

  // A sync route can be cut short to one without repetitions.
  lemma {:induction false} SimpleRoute(g: Graph, entries: seq<nat>, r: Route) returns (s: Route)
    requires IsRoute(g, entries, r) && r.Hops(true) == 0
    ensures IsRoute(g, entries, s) && s.Hops(true) == 0 && Distinct(s.Visited()) && s.End() == r.End()
  {
    if r.Entry? {
      s := r;
    } else {
      var before := SimpleRoute(g, entries, r.prev);
      if r.to in before.Visited() {
        s := RouteUpTo(g, entries, before, r.to);
      } else {
        s := Hop(before, r.to, false);
      }
    }
  }

  // In a graph of at most 1000 modules, what is reachable over sync edges alone is less than 1000
  // deep, and its cheapest routes have no async hop.
  lemma SmallGraphPrefersSync(g: Graph, entries: seq<nat>, depth: map<nat, nat>, r: Route)
    requires ShortestDepths(g, entries, depth) && |Universe(g, entries)| <= 1000
    requires IsRoute(g, entries, r) && r.Hops(true) == 0
    ensures r.End() in depth && depth[r.End()] < 1000
    ensures forall s :: IsRoute(g, entries, s) && s.End() == r.End() && s.Cost() == depth[r.End()] ==> s.Hops(true) == 0
  {
    var simple := SimpleRoute(g, entries, r);
    VisitedInUniverse(g, entries, simple);
    DistinctBound(simple.Visited(), Universe(g, entries));
    RouteLength(simple);
    RouteCost(simple);
    forall s | IsRoute(g, entries, s) && s.End() == r.End() && s.Cost() == depth[r.End()]
      ensures s.Hops(true) == 0
    {
      RouteCost(s);
    }
  }

  // And a module behind async edges alone is at least 1000 deep.
  lemma AsyncIsDeep(g: Graph, entries: seq<nat>, depth: map<nat, nat>, m: nat)
    requires ShortestDepths(g, entries, depth) && m in depth
    ensures depth[m] < 1000 ==> exists r :: IsRoute(g, entries, r) && r.End() == m && r.Hops(true) == 0
  {
    var r :| IsRoute(g, entries, r) && r.End() == m && r.Cost() == depth[m];
    RouteCost(r);
  }

  // ---------- The algorithm ----------

  lemma EntriesAtHead(g: Graph, entries: seq<nat>, dm: DepthMap)
    requires dm.Valid()
    requires forall m :: m in dm.depth <==> m in entries
    requires forall m :: m in dm.depth ==> dm.depth[m] == 0
    ensures AtHead(g, entries, dm, [], 0)
  {
    forall m | m in dm.depth
      ensures HasRoute(g, entries, m, 0)
    {
      assert IsRoute(g, entries, Entry(m)) && Entry(m).End() == m && Entry(m).Cost() == 0;
    }
  }

  method InitialDepths(g: Graph, activeEntries: seq<nat>) returns (depthMap: DepthMap)
    ensures AtHead(g, activeEntries, depthMap, [], 0)
  {
    depthMap := DepthMap([], map[]);
    for j := 0 to |activeEntries|
      invariant depthMap.Valid()
      invariant forall m :: m in depthMap.depth <==> m in activeEntries[..j]
      invariant forall m :: m in depthMap.depth ==> depthMap.depth[m] == 0
    {
      depthMap := depthMap.Set(activeEntries[j], 0);
      assert activeEntries[..j + 1] == activeEntries[..j] + [activeEntries[j]];
    }
    assert activeEntries[..|activeEntries|] == activeEntries;
    EntriesAtHead(g, activeEntries, depthMap);
  }

  lemma BackAtHead(g: Graph, entries: seq<nat>, dm: DepthMap, delayed: seq<Bucket>, i: nat, newDepth: nat)
    requires Releasing(g, entries, dm, delayed, i, newDepth)
    requires delayed == [] || (i != |dm.keys| && newDepth != delayed[|delayed| - 1].depth)
    ensures AtHead(g, entries, dm, delayed, i)
  {
    forall e | HasDepth(delayed, e)
      ensures newDepth < e
    {
      var b :| 0 <= b < |delayed| && delayed[b].depth == e;
      assert HasDepth(delayed, delayed[|delayed| - 1].depth);
    }
  }

  // The inner loop: move due buckets into the map.
  method ReleaseDue(g: Graph, ghost entries: seq<nat>, dm: DepthMap, delayed: seq<Bucket>, i: nat, newDepth: nat)
    returns (dm': DepthMap, delayed': seq<Bucket>)
    requires Releasing(g, entries, dm, delayed, i, newDepth)
    ensures AtHead(g, entries, dm', delayed', i)
  {
    dm', delayed' := dm, delayed;
    while |delayed'| > 0 && (i == |dm'.keys| || newDepth == delayed'[|delayed'| - 1].depth)
      invariant Releasing(g, entries, dm', delayed', i, newDepth)
      decreases |delayed'|
    {
      var bucket := delayed'[|delayed'| - 1];
      ghost var dm0, delayed0 := dm', delayed';
      delayed' := delayed'[..|delayed'| - 1];
      dm' := SetMissing(dm', bucket.queue, bucket.depth);
      ReleaseBucket(g, entries, dm0, delayed0, i, newDepth, dm', bucket, delayed');
    }
    BackAtHead(g, entries, dm', delayed', i, newDepth);
  }

  lemma Finished(g: Graph, entries: seq<nat>, dm: DepthMap, delayed: seq<Bucket>)
    requires AtHead(g, entries, dm, delayed, |dm.keys|)
    ensures delayed == [] && ShortestDepths(g, entries, dm.depth)
  {
    forall u | u in dm.depth
      ensures SettledAt(g, dm, delayed, u)
    {
      var a :| 0 <= a < |dm.keys| && dm.keys[a] == u;
    }
    assert Relaxed(g, entries, dm.depth);
    forall r | IsRoute(g, entries, r)
      ensures r.End() in dm.depth && dm.depth[r.End()] <= r.Cost()
    {
      RelaxedIsOptimal(g, entries, dm.depth, r);
    }
  }

  method ComputeModuleDepthMap(g: Graph, activeEntries: seq<nat>) returns (depthMap: DepthMap, threw: bool)
    ensures !threw
    ensures depthMap.Valid() && depthMap.Monotone()
    ensures ShortestDepths(g, activeEntries, depthMap.depth)
  {
    depthMap := InitialDepths(g, activeEntries);
    var delayed: seq<Bucket> := [];
    var i := 0;
    while i < |depthMap.keys|
      invariant AtHead(g, activeEntries, depthMap, delayed, i)
      decreases |Universe(g, activeEntries)| - i
    {
      ghost var dm0, delayed0 := depthMap, delayed;
      KeysBounded(g, activeEntries, depthMap, delayed);
      var moduleIndex := depthMap.keys[i];
      assert moduleIndex in depthMap.keys;
      var depth := depthMap.depth[moduleIndex];
      depthMap := SetMissing(depthMap, g.Deps(moduleIndex), depth + SYNC_COST);
      delayed := DelayMissing(depthMap, delayed, g.AsyncDeps(moduleIndex), depth + ASYNC_COST);
      ScanModule(g, activeEntries, dm0, delayed0, i, depthMap, delayed, moduleIndex, depth);
      i := i + 1;
      depthMap, delayed := ReleaseDue(g, activeEntries, depthMap, delayed, i, depth + SYNC_COST);
    }
    threw := |delayed| > 0;
    Finished(g, activeEntries, depthMap, delayed);
  }
}
