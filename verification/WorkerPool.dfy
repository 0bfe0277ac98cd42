// The worker pool mapLimit of scripts/pr-logs.js, as a state machine: between two awaits a worker
// runs alone, so one event is one worker's turn, and any order of turns is allowed.
module WorkerPool {

  datatype Worker<T> = NotStarted | Running(item: T) | Finished | Failed(item: T)

  // The shared queue, the workers, and what the mapper has been given, has done and has failed on.
  datatype Pool<T> = Pool(queue: seq<T>, workers: seq<Worker<T>>, started: seq<T>, completed: seq<T>, failed: seq<T>)

  // A worker begins, or the mapper call it awaits succeeds or fails.
  datatype Event = Begin(w: nat) | Complete(w: nat) | Fail(w: nat)

  function Width(n: nat, limit: int): nat {
    if limit <= 0 then 0 else if limit < n then limit else n
  }

  function Fresh<T>(n: nat): seq<Worker<T>> {
    seq(n, _ => NotStarted)
  }

  function Init<T>(items: seq<T>, limit: int): Pool<T> {
    Pool(items, Fresh(Width(|items|, limit)), [], [], [])
  }

  predicate Enabled<T>(p: Pool<T>, e: Event) {
    && e.w < |p.workers|
    && if e.Begin? then p.workers[e.w].NotStarted? else p.workers[e.w].Running?
  }

  // The loop head: take the next item, or finish.
  function TakeNext<T>(p: Pool<T>, w: nat): Pool<T>
    requires w < |p.workers|
  {
    if p.queue == [] then p.(workers := p.workers[w := Finished])
    else Pool(p.queue[1..], p.workers[w := Running(p.queue[0])], p.started + [p.queue[0]], p.completed, p.failed)
  }

  function Step<T>(p: Pool<T>, e: Event): Pool<T>
    requires Enabled(p, e)
  {
    match e
    case Begin(w) => TakeNext(p, w)
    case Complete(w) => TakeNext(p.(completed := p.completed + [p.workers[w].item]), w)
    case Fail(w) => p.(workers := p.workers[w := Failed(p.workers[w].item)], failed := p.failed + [p.workers[w].item])
  }

  ghost predicate Legal<T>(p: Pool<T>, events: seq<Event>)
    decreases |events|, 0
  {
    events == [] || (Legal(p, events[..|events| - 1])
                     && Enabled(After(p, events[..|events| - 1]), events[|events| - 1]))
  }

  ghost function After<T>(p: Pool<T>, events: seq<Event>): Pool<T>
    requires Legal(p, events)
    decreases |events|, 1
  {
    if events == [] then p else Step(After(p, events[..|events| - 1]), events[|events| - 1])
  }

  // ---------- What every turn keeps ----------

  predicate Holds<T(==)>(w: Worker<T>, x: T) {
    w.Running? && w.item == x
  }

  // How many workers await the mapper on `x`, and how many await it at all.
  function HeldCount<T(==)>(workers: seq<Worker<T>>, x: T): nat {
    if workers == [] then 0
    else HeldCount(workers[..|workers| - 1], x) + if Holds(workers[|workers| - 1], x) then 1 else 0
  }

  function InFlight<T>(workers: seq<Worker<T>>): nat {
    if workers == [] then 0
    else InFlight(workers[..|workers| - 1]) + if workers[|workers| - 1].Running? then 1 else 0
  }

  function FailedCount<T>(workers: seq<Worker<T>>): nat {
    if workers == [] then 0
    else FailedCount(workers[..|workers| - 1]) + if workers[|workers| - 1].Failed? then 1 else 0
  }

  function BegunCount<T>(workers: seq<Worker<T>>): nat {
    if workers == [] then 0
    else BegunCount(workers[..|workers| - 1]) + if workers[|workers| - 1].NotStarted? then 0 else 1
  }

  lemma {:induction false} ReplaceHeld<T>(workers: seq<Worker<T>>, w: nat, to: Worker<T>, x: T)
    requires w < |workers|
    ensures HeldCount(workers[w := to], x) + (if Holds(workers[w], x) then 1 else 0)
            == HeldCount(workers, x) + if Holds(to, x) then 1 else 0
  {
    var last := |workers| - 1;
    if w == last {
      assert workers[w := to][..last] == workers[..last];
    } else {
      ReplaceHeld(workers[..last], w, to, x);
      assert workers[w := to][..last] == workers[..last][w := to];
    }
  }

  lemma {:induction false} ReplaceCounts<T>(workers: seq<Worker<T>>, w: nat, to: Worker<T>)
    requires w < |workers| && !workers[w].Failed? && !to.NotStarted?
    ensures FailedCount(workers[w := to]) == FailedCount(workers) + if to.Failed? then 1 else 0
    ensures BegunCount(workers[w := to]) == BegunCount(workers) + if workers[w].NotStarted? then 1 else 0
  {
    var last := |workers| - 1;
    if w == last {
      assert workers[w := to][..last] == workers[..last];
    } else {
      ReplaceCounts(workers[..last], w, to);
      assert workers[w := to][..last] == workers[..last][w := to];
    }
  }

  // As often as the mapper was given `x`, it has completed it, failed on it, or is at work on it.
  ghost predicate AccountedFor<T>(p: Pool<T>, x: T) {
    multiset(p.started)[x] == multiset(p.completed)[x] + multiset(p.failed)[x] + HeldCount(p.workers, x)
  }

  ghost predicate Inv<T(!new)>(items: seq<T>, limit: int, p: Pool<T>) {
    && |p.workers| == Width(|items|, limit)
    && items == p.started + p.queue
    && (forall x :: AccountedFor(p, x))
    && |p.failed| == FailedCount(p.workers)
    && (forall w :: 0 <= w < |p.workers| && p.workers[w].Finished? ==> p.queue == [])
  }

  lemma {:induction false} FreshWorkers<T(!new)>(n: nat)
    ensures var ws := Fresh<T>(n);
            FailedCount(ws) == 0 && BegunCount(ws) == 0 && forall x :: HeldCount(ws, x) == 0
  {
    if n > 0 {
      FreshWorkers<T>(n - 1);
      assert Fresh<T>(n)[..n - 1] == Fresh<T>(n - 1);
    }
  }

  lemma InitInv<T(!new)>(items: seq<T>, limit: int)
    ensures Inv(items, limit, Init(items, limit))
  {
    FreshWorkers<T>(Width(|items|, limit));
    assert [] + items == items;
  }

  // One turn changes one worker.
  lemma StepWorkers<T>(p: Pool<T>, e: Event)
    requires Enabled(p, e)
    ensures var p' := Step(p, e);
            && |p'.workers| == |p.workers| && p'.workers == p.workers[e.w := p'.workers[e.w]]
            && FailedCount(p'.workers) == FailedCount(p.workers) + (if e.Fail? then 1 else 0)
            && BegunCount(p'.workers) == BegunCount(p.workers) + (if e.Begin? then 1 else 0)
  {
    var to := Step(p, e).workers[e.w];
    assert Step(p, e).workers == p.workers[e.w := to];
    ReplaceCounts(p.workers, e.w, to);
  }

  lemma StepKeepsOrder<T>(items: seq<T>, p: Pool<T>, e: Event)
    requires Enabled(p, e) && items == p.started + p.queue
    ensures items == Step(p, e).started + Step(p, e).queue
  {
  }

  lemma SnocCount<T>(s: seq<T>, y: T, x: T)
    ensures multiset(s + [y])[x] == multiset(s)[x] + if x == y then 1 else 0
  {
  }

  lemma StepKeepsAccount<T>(p: Pool<T>, e: Event, x: T)
    requires Enabled(p, e) && AccountedFor(p, x)
    ensures AccountedFor(Step(p, e), x)
  {
    var p' := Step(p, e);
    var was := p.workers[e.w];
    StepWorkers(p, e);
    ReplaceHeld(p.workers, e.w, p'.workers[e.w], x);
    if e.Fail? {
      SnocCount(p.failed, was.item, x);
    } else {
      if e.Complete? { SnocCount(p.completed, was.item, x); }
      if p.queue != [] { SnocCount(p.started, p.queue[0], x); }
    }
  }

  lemma StepKeepsInv<T(!new)>(items: seq<T>, limit: int, p: Pool<T>, e: Event)
    requires Inv(items, limit, p) && Enabled(p, e)
    ensures Inv(items, limit, Step(p, e))
  {
    var p' := Step(p, e);
    StepWorkers(p, e);
    StepKeepsOrder(items, p, e);
    forall x
      ensures AccountedFor(p', x)
    {
      StepKeepsAccount(p, e, x);
    }
    forall w | 0 <= w < |p'.workers| && p'.workers[w].Finished?
      ensures p'.queue == []
    {
      assert w != e.w ==> p.workers[w].Finished?;
    }
  }

  lemma {:induction false} RunKeepsInv<T(!new)>(items: seq<T>, limit: int, events: seq<Event>)
    requires Legal(Init(items, limit), events)
    ensures Inv(items, limit, After(Init(items, limit), events))
  {
    if events == [] {
      InitInv(items, limit);
    } else {
      RunKeepsInv(items, limit, events[..|events| - 1]);
      StepKeepsInv(items, limit, After(Init(items, limit), events[..|events| - 1]), events[|events| - 1]);
    }
  }

  // ---------- Safety over every interleaving ----------

  lemma {:induction false} InFlightBound<T>(workers: seq<Worker<T>>)
    ensures InFlight(workers) <= |workers|
  {
    if workers != [] { InFlightBound(workers[..|workers| - 1]); }
  }

  // The mapper is given the items in order, each once, and no more than the width at a time.
  lemma EachItemOnce<T(!new)>(items: seq<T>, limit: int, events: seq<Event>)
    requires Legal(Init(items, limit), events)
    ensures var p := After(Init(items, limit), events);
            && items == p.started + p.queue
            && InFlight(p.workers) <= Width(|items|, limit)
  {
    RunKeepsInv(items, limit, events);
    var p := After(Init(items, limit), events);
    InFlightBound(p.workers);
  }

  ghost function RunningWorkers<T>(workers: seq<Worker<T>>): set<nat> {
    set w: nat | w < |workers| && workers[w].Running?
  }

  lemma {:induction false} InFlightExact<T>(workers: seq<Worker<T>>)
    ensures InFlight(workers) == |RunningWorkers(workers)|
  {
    if workers != [] {
      var last := |workers| - 1;
      InFlightExact(workers[..last]);
      if workers[last].Running? {
        assert RunningWorkers(workers) == RunningWorkers(workers[..last]) + {last};
      } else {
        assert RunningWorkers(workers) == RunningWorkers(workers[..last]);
      }
    }
  }

  // So never more than the limit, nor more than there are items.
  lemma WithinLimit<T(!new)>(items: seq<T>, limit: int, events: seq<Event>)
    requires Legal(Init(items, limit), events)
    ensures var n := InFlight(After(Init(items, limit), events).workers);
            n <= |items| && (n <= limit || n == 0)
  {
    EachItemOnce(items, limit, events);
  }

  // The first `k` workers begin.
  function Begins(k: nat): seq<Event> {
    seq(k, w requires 0 <= w < k => Begin(w))
  }

  ghost predicate HaveBegun<T>(items: seq<T>, k: nat, p: Pool<T>)
    requires k <= |items|
  {
    && p.queue == items[k..]
    && forall w :: 0 <= w < |p.workers| ==>
         p.workers[w] == if w < k && w < |items| then Running(items[w]) else NotStarted
  }

  lemma {:induction false} BeginInTurn<T(!new)>(items: seq<T>, limit: int, k: nat)
    requires k <= Width(|items|, limit)
    ensures Legal(Init(items, limit), Begins(k))
    ensures HaveBegun(items, k, After(Init(items, limit), Begins(k)))
    ensures |After(Init(items, limit), Begins(k)).workers| == Width(|items|, limit)
  {
    if k > 0 {
      BeginInTurn(items, limit, k - 1);
      assert Begins(k)[..k - 1] == Begins(k - 1);
    }
  }

  lemma {:induction false} AllInFlight<T>(workers: seq<Worker<T>>)
    requires forall w :: 0 <= w < |workers| ==> workers[w].Running?
    ensures InFlight(workers) == |workers|
  {
    if workers != [] { AllInFlight(workers[..|workers| - 1]); }
  }

  // And the limit is reached.
  lemma LimitReached<T(!new)>(items: seq<T>, limit: nat)
    ensures exists events :: Legal(Init(items, limit), events)
              && InFlight(After(Init(items, limit), events).workers) == if limit < |items| then limit else |items|
  {
    var events := Begins(Width(|items|, limit));
    BeginInTurn(items, limit, Width(|items|, limit));
    AllInFlight(After(Init(items, limit), events).workers);
  }

  // ---------- At the end ----------

  // No worker can take another turn.
  ghost predicate Settled<T>(p: Pool<T>) {
    forall e :: !Enabled(p, e)
  }

  lemma SettledWorkers<T>(p: Pool<T>)
    requires Settled(p)
    ensures forall w :: 0 <= w < |p.workers| ==> p.workers[w].Finished? || p.workers[w].Failed?
  {
    forall w | 0 <= w < |p.workers|
      ensures p.workers[w].Finished? || p.workers[w].Failed?
    {
      assert !Enabled(p, Begin(w)) && !Enabled(p, Complete(w));
    }
  }

  lemma {:induction false} FailedBound<T>(workers: seq<Worker<T>>)
    ensures FailedCount(workers) <= |workers|
  {
    if workers != [] { FailedBound(workers[..|workers| - 1]); }
  }

  lemma {:induction false} NothingInFlight<T(!new)>(workers: seq<Worker<T>>)
    requires forall w :: 0 <= w < |workers| ==> workers[w].Finished? || workers[w].Failed?
    ensures forall x :: HeldCount(workers, x) == 0
    ensures (forall w :: 0 <= w < |workers| ==> !workers[w].Finished?) ==> FailedCount(workers) == |workers|
    ensures FailedCount(workers) == |workers| ==> forall w :: 0 <= w < |workers| ==> workers[w].Failed?
  {
    if workers != [] {
      NothingInFlight(workers[..|workers| - 1]);
      FailedBound(workers[..|workers| - 1]);
    }
  }

  // When the pool has settled, every item that was started is completed or failed, and items are
  // left over only if every worker failed.
  lemma SettledPool<T(!new)>(items: seq<T>, limit: int, events: seq<Event>)
    requires Legal(Init(items, limit), events) && Settled(After(Init(items, limit), events))
    ensures var p := After(Init(items, limit), events);
            && multiset(items) == multiset(p.completed) + multiset(p.failed) + multiset(p.queue)
            && (p.queue != [] ==> |p.failed| == Width(|items|, limit))
  {
    RunKeepsInv(items, limit, events);
    var p := After(Init(items, limit), events);
    SettledWorkers(p);
    NothingInFlight(p.workers);
    forall x
      ensures multiset(items)[x] == (multiset(p.completed) + multiset(p.failed) + multiset(p.queue))[x]
    {
      assert AccountedFor(p, x);
      assert multiset(p.started + p.queue) == multiset(p.started) + multiset(p.queue);
    }
  }

  lemma NoWorkersNoWork<T(!new)>(items: seq<T>, limit: int, events: seq<Event>)
    requires Legal(Init(items, limit), events) && limit <= 0
    ensures After(Init(items, limit), events).queue == items
  {
    if events != [] {
      RunKeepsInv(items, limit, events[..|events| - 1]);
    }
  }

  // If no mapper call failed, every item is completed, exactly when there was a worker to do it.
  lemma AllDoneIff<T(!new)>(items: seq<T>, limit: int, events: seq<Event>)
    requires Legal(Init(items, limit), events) && Settled(After(Init(items, limit), events))
    requires After(Init(items, limit), events).failed == []
    ensures var p := After(Init(items, limit), events);
            (p.queue == [] && multiset(p.completed) == multiset(items)) <==> limit > 0 || items == []
  {
    SettledPool(items, limit, events);
    RunKeepsInv(items, limit, events);
    var p := After(Init(items, limit), events);
    assert multiset(p.completed) + multiset(p.failed) + multiset(p.queue) == multiset(p.completed) + multiset(p.queue);
    if limit <= 0 && items != [] {
      NoWorkersNoWork(items, limit, events);
    }
  }

  // ---------- Every run is short ----------

  lemma {:induction false} TurnsCounted<T(!new)>(items: seq<T>, limit: int, events: seq<Event>)
    requires Legal(Init(items, limit), events)
    ensures var p := After(Init(items, limit), events); |events| == BegunCount(p.workers) + |p.completed| + |p.failed|
  {
    if events == [] {
      FreshWorkers<T>(Width(|items|, limit));
    } else {
      var p, e := After(Init(items, limit), events[..|events| - 1]), events[|events| - 1];
      TurnsCounted(items, limit, events[..|events| - 1]);
      StepWorkers(p, e);
    }
  }

  lemma {:induction false} BegunBound<T>(workers: seq<Worker<T>>)
    ensures BegunCount(workers) <= |workers|
  {
    if workers != [] { BegunBound(workers[..|workers| - 1]); }
  }

  lemma EndedWithinStarted<T(!new)>(p: Pool<T>)
    requires forall x :: AccountedFor(p, x)
    ensures |p.completed| + |p.failed| <= |p.started|
  {
    var ended, started := multiset(p.completed) + multiset(p.failed), multiset(p.started);
    forall x
      ensures ended[x] <= started[x]
    {
      assert AccountedFor(p, x);
    }
    assert ended <= started;
    assert |started - ended| == |started| - |ended|;
  }

  // No run has more turns than workers and items together: every run settles.
  lemma RunsAreShort<T(!new)>(items: seq<T>, limit: int, events: seq<Event>)
    requires Legal(Init(items, limit), events)
    ensures |events| <= Width(|items|, limit) + |items|
  {
    TurnsCounted(items, limit, events);
    RunKeepsInv(items, limit, events);
    var p := After(Init(items, limit), events);
    BegunBound(p.workers);
    EndedWithinStarted(p);
  }
}
