/**
 Order-preserving work sharing: `fold_on` and `map_on` as a transition system.

 A worker alternates between two steps. It claims the next index from the shared
 cursor (`fetch_add`); if the index names an item it then runs the item on its
 private state, otherwise it is done. Any worker that is not done may take the
 next step, so a run is an arbitrary interleaving.
 */
module Parallel {
  import opened Common
  import opened Lists

  // -------------------------------------------------------- worker counts

  const MIN_ITEMS_PER_WORKER: nat := 32

  /** Threads worth starting for `items` units on `available` CPUs. */
  function WorkerCount(items: nat, available: nat): nat
    requires available >= 1
  {
    if items <= MIN_ITEMS_PER_WORKER then 1
    else
      var batches := (items + MIN_ITEMS_PER_WORKER - 1) / MIN_ITEMS_PER_WORKER;
      if available < batches then available else batches
  }

  /** `map_heavy_in_order`: threads for the files, never more than the items. */
  function HeavyWorkerCount(units: nat, items: nat, available: nat): nat
    requires available >= 1
  {
    var w := WorkerCount(units, available);
    var capped := if items < w then items else w;
    if capped < 1 then 1 else capped
  }

  /** Each worker beyond the first has a full batch of work to itself, and a
      longer input never gets fewer workers. */
  lemma WorkerCountFollowsTheWork(items: nat, more: nat, available: nat)
    requires available >= 1 && items <= more
    ensures 1 <= WorkerCount(items, available) <= WorkerCount(more, available) <= available
    ensures (WorkerCount(items, available) - 1) * 32 <= items
    ensures items <= WorkerCount(items, available) * 32 || WorkerCount(items, available) == available
  {
  }

  /** A few heavy items get threads for the files they walk, at least one and never
      more than there are items or CPUs; a small project gets exactly one. */
  lemma HeavyWorkersFollowTheFiles(units: nat, items: nat, available: nat)
    requires available >= 1
    ensures 1 <= HeavyWorkerCount(units, items, available) <= available
    ensures items >= 1 ==> HeavyWorkerCount(units, items, available) <= items
    ensures units <= 32 ==> HeavyWorkerCount(units, items, available) == 1
    ensures items >= WorkerCount(units, available) ==>
      HeavyWorkerCount(units, items, available) == WorkerCount(units, available)
  {
    WorkerCountFollowsTheWork(units, units, available);
  }

  // ------------------------------------------------------ transition system

  datatype Phase = Ready | Running(index: nat) | Done

  /** `seen` records the indices the worker has run, in order. */
  datatype Worker<S> = Worker(phase: Phase, state: S, seen: seq<nat>)

  datatype Pool<S> = Pool(cursor: nat, workers: seq<Worker<S>>)

  datatype Step = Claim(worker: nat) | Run(worker: nat)

  /** `1..workers` helpers plus the calling thread: at least one worker. */
  function Threads(workers: nat): nat {
    if workers < 1 then 1 else workers
  }

  ghost predicate Init<S>(pool: Pool<S>, workers: nat, start: S -> bool) {
    && pool.cursor == 0
    && |pool.workers| == Threads(workers)
    && forall w :: 0 <= w < |pool.workers| ==>
         pool.workers[w].phase == Ready && pool.workers[w].seen == [] && start(pool.workers[w].state)
  }

  predicate Enabled<S>(pool: Pool<S>, step: Step, n: nat) {
    && step.worker < |pool.workers|
    && match step
       case Claim(w) => pool.workers[w].phase == Ready
       case Run(w) => pool.workers[w].phase.Running? && pool.workers[w].phase.index < n
  }

  function Next<S, T>(pool: Pool<S>, step: Step, items: seq<T>, work: (S, nat, T) -> S): Pool<S>
    requires Enabled(pool, step, |items|)
  {
    var me := pool.workers[step.worker];
    match step
    case Claim(w) =>
      var index := pool.cursor;
      var phase := if index < |items| then Running(index) else Done;
      Pool(pool.cursor + 1, pool.workers[w := me.(phase := phase)])
    case Run(w) =>
      var index := me.phase.index;
      pool.(workers := pool.workers[w := Worker(Ready, work(me.state, index, items[index]), me.seen + [index])])
  }

  /** `steps` is a run from `pool` to `last`. */
  ghost predicate Runs<S(!new), T(!new)>(
    pool: Pool<S>, steps: seq<Step>, last: Pool<S>, items: seq<T>, work: (S, nat, T) -> S)
    decreases |steps|
  {
    if steps == [] then pool == last
    else Enabled(pool, steps[0], |items|) && Runs(Next(pool, steps[0], items, work), steps[1..], last, items, work)
  }

  predicate Finished<S>(pool: Pool<S>) {
    forall w :: 0 <= w < |pool.workers| ==> pool.workers[w].phase == Done
  }

  // ------------------------------------------- exactly once, in order, done

  function Upto(n: nat): seq<nat> {
    seq(n, i => i)
  }

  /** The indices a worker has run or is running. */
  function Held<S>(w: Worker<S>): seq<nat> {
    if w.phase.Running? then w.seen + [w.phase.index] else w.seen
  }

  /** How often `index` is held over all workers. */
  function HeldCount<S>(workers: seq<Worker<S>>, index: nat): nat {
    if workers == [] then 0 else multiset(Held(workers[0]))[index] + HeldCount(workers[1..], index)
  }

  /** What the pool still owes: two steps per unclaimed item, one per item in
      flight and one per worker that has yet to find the cursor past the end. */
  function Owed<S>(workers: seq<Worker<S>>): nat {
    if workers == [] then 0 else Debt(workers[0]) + Owed(workers[1..])
  }

  function Debt<S>(w: Worker<S>): nat {
    match w.phase
    case Ready => 1
    case Running(_) => 2
    case Done => 0
  }

  function DoneCount<S>(workers: seq<Worker<S>>): nat {
    if workers == [] then 0
    else (if workers[0].phase == Done then 1 else 0) + DoneCount(workers[1..])
  }

  function Remaining<S>(pool: Pool<S>, n: nat): nat {
    2 * (n - Min(pool.cursor, n)) + Owed(pool.workers)
  }

  /** Increasing, and every element below `bound`. */
  ghost predicate InOrder(xs: seq<nat>, bound: nat) {
    StrictlyIncreasing(xs) && forall i :: 0 <= i < |xs| ==> xs[i] < bound
  }

  lemma InOrderAppend(xs: seq<nat>, bound: nat)
    requires InOrder(xs, bound)
    ensures InOrder(xs + [bound], bound + 1)
  {
  }

  /** What every step keeps. */
  ghost predicate Inv<S>(pool: Pool<S>, n: nat) {
    && (forall index: nat :: HeldCount(pool.workers, index) == if index < Min(pool.cursor, n) then 1 else 0)
    && pool.cursor == Min(pool.cursor, n) + DoneCount(pool.workers)
    && forall w :: 0 <= w < |pool.workers| ==> InOrder(Held(pool.workers[w]), Min(pool.cursor, n))
  }

  lemma CancelMultiset<T>(a: multiset<T>, b: multiset<T>, c: multiset<T>)
    requires a + c == b + c
    ensures a == b
  {
    forall x ensures a[x] == b[x] {
      assert (a + c)[x] == (b + c)[x];
    }
  }

  lemma {:induction false} UpdateHeld<S>(workers: seq<Worker<S>>, w: nat, me: Worker<S>, index: nat)
    requires w < |workers|
    ensures HeldCount(workers[w := me], index) + multiset(Held(workers[w]))[index] ==
            HeldCount(workers, index) + multiset(Held(me))[index]
  {
    if w == 0 {
      assert workers[w := me][1..] == workers[1..];
    } else {
      assert workers[w := me][1..] == workers[1..][w - 1 := me];
      UpdateHeld(workers[1..], w - 1, me, index);
    }
  }

  lemma {:induction false} UpdateOwed<S>(workers: seq<Worker<S>>, w: nat, me: Worker<S>)
    requires w < |workers|
    ensures Owed(workers[w := me]) + Debt(workers[w]) == Owed(workers) + Debt(me)
    ensures DoneCount(workers[w := me]) + (if workers[w].phase == Done then 1 else 0) ==
            DoneCount(workers) + (if me.phase == Done then 1 else 0)
  {
    if w == 0 {
      assert workers[w := me][1..] == workers[1..];
    } else {
      assert workers[w := me][1..] == workers[1..][w - 1 := me];
      UpdateOwed(workers[1..], w - 1, me);
    }
  }

  lemma {:induction false} FreshWorkersHoldNothing<S>(workers: seq<Worker<S>>)
    requires forall w :: 0 <= w < |workers| ==> workers[w].phase == Ready && workers[w].seen == []
    ensures forall index: nat :: HeldCount(workers, index) == 0
    ensures Owed(workers) == |workers| && DoneCount(workers) == 0
  {
    if workers != [] {
      FreshWorkersHoldNothing(workers[1..]);
    }
  }

  lemma RunStepKeepsInv<S, T>(pool: Pool<S>, w: nat, items: seq<T>, work: (S, nat, T) -> S)
    requires Inv(pool, |items|) && Enabled(pool, Run(w), |items|)
    ensures Inv(Next(pool, Run(w), items, work), |items|)
    ensures Remaining(Next(pool, Run(w), items, work), |items|) + 1 == Remaining(pool, |items|)
  {
    var next := Next(pool, Run(w), items, work);
    var was, me := pool.workers[w], next.workers[w];
    UpdateOwed(pool.workers, w, me);
    assert Held(me) == Held(was);
    forall index: nat ensures HeldCount(next.workers, index) == HeldCount(pool.workers, index) {
      UpdateHeld(pool.workers, w, me, index);
    }
  }

  lemma CountAppend(xs: seq<nat>, x: nat, index: nat)
    ensures multiset(xs + [x])[index] == multiset(xs)[index] + if index == x then 1 else 0
  {
  }

  lemma ClaimedIsHeld<S>(workers: seq<Worker<S>>, w: nat, me: Worker<S>, cursor: nat, index: nat)
    requires w < |workers| && Held(me) == Held(workers[w]) + [cursor]
    ensures HeldCount(workers[w := me], index) == HeldCount(workers, index) + if index == cursor then 1 else 0
  {
    UpdateHeld(workers, w, me, index);
    CountAppend(Held(workers[w]), cursor, index);
  }

  lemma ClaimItemKeepsInv<S, T>(pool: Pool<S>, w: nat, items: seq<T>, work: (S, nat, T) -> S)
    requires Inv(pool, |items|) && Enabled(pool, Claim(w), |items|) && pool.cursor < |items|
    ensures Inv(Next(pool, Claim(w), items, work), |items|)
    ensures Remaining(Next(pool, Claim(w), items, work), |items|) + 1 == Remaining(pool, |items|)
  {
    var next := Next(pool, Claim(w), items, work);
    var was, me := pool.workers[w], next.workers[w];
    UpdateOwed(pool.workers, w, me);
    assert Held(me) == Held(was) + [pool.cursor];
    InOrderAppend(Held(was), pool.cursor);
    forall index: nat
      ensures HeldCount(next.workers, index) == if index < pool.cursor + 1 then 1 else 0
    {
      ClaimedIsHeld(pool.workers, w, me, pool.cursor, index);
    }
  }

  lemma ClaimPastEndKeepsInv<S, T>(pool: Pool<S>, w: nat, items: seq<T>, work: (S, nat, T) -> S)
    requires Inv(pool, |items|) && Enabled(pool, Claim(w), |items|) && pool.cursor >= |items|
    ensures Inv(Next(pool, Claim(w), items, work), |items|)
    ensures Remaining(Next(pool, Claim(w), items, work), |items|) + 1 == Remaining(pool, |items|)
  {
    var next := Next(pool, Claim(w), items, work);
    var was, me := pool.workers[w], next.workers[w];
    UpdateOwed(pool.workers, w, me);
    assert Held(me) == Held(was);
    forall index: nat ensures HeldCount(next.workers, index) == HeldCount(pool.workers, index) {
      UpdateHeld(pool.workers, w, me, index);
    }
  }

  lemma StepKeepsInv<S, T>(pool: Pool<S>, step: Step, items: seq<T>, work: (S, nat, T) -> S)
    requires Inv(pool, |items|) && Enabled(pool, step, |items|)
    ensures Inv(Next(pool, step, items, work), |items|)
    ensures Remaining(Next(pool, step, items, work), |items|) + 1 == Remaining(pool, |items|)
  {
    match step
    case Claim(w) =>
      if pool.cursor < |items| {
        ClaimItemKeepsInv(pool, w, items, work);
      } else {
        ClaimPastEndKeepsInv(pool, w, items, work);
      }
    case Run(w) => RunStepKeepsInv(pool, w, items, work);
  }

  lemma {:induction false} RunKeepsInv<S(!new), T(!new)>(
    pool: Pool<S>, steps: seq<Step>, last: Pool<S>, items: seq<T>, work: (S, nat, T) -> S)
    requires Inv(pool, |items|) && Runs(pool, steps, last, items, work)
    ensures Inv(last, |items|)
    ensures |steps| + Remaining(last, |items|) == Remaining(pool, |items|)
    ensures |last.workers| == |pool.workers|
    decreases |steps|
  {
    if steps != [] {
      StepKeepsInv(pool, steps[0], items, work);
      RunKeepsInv(Next(pool, steps[0], items, work), steps[1..], last, items, work);
    }
  }

  lemma InitHoldsInv<S>(pool: Pool<S>, workers: nat, start: S -> bool, n: nat)
    requires Init(pool, workers, start)
    ensures Inv(pool, n)
    ensures Remaining(pool, n) == 2 * n + Threads(workers)
  {
    FreshWorkersHoldNothing(pool.workers);
  }

  lemma {:induction false} OwedNothingMeansFinished<S>(workers: seq<Worker<S>>)
    ensures Owed(workers) == 0 <==> forall w :: 0 <= w < |workers| ==> workers[w].phase == Done
    ensures Owed(workers) == 0 ==> DoneCount(workers) == |workers|
  {
    if workers != [] {
      OwedNothingMeansFinished(workers[1..]);
      assert forall w :: 0 <= w < |workers[1..]| ==> workers[1..][w] == workers[w + 1];
      assert forall w :: 1 <= w < |workers| ==> workers[w] == workers[1..][w - 1];
    }
  }

  /** Every reachable pool that has work left can take a step, and every run
      that cannot go on has taken exactly 2n + k steps and left the cursor at
      n + k: the run ends however it is scheduled. */
  lemma RunsEnd<S(!new), T(!new)>(
    pool: Pool<S>, steps: seq<Step>, last: Pool<S>, items: seq<T>, work: (S, nat, T) -> S,
    workers: nat, start: S -> bool)
    requires Init(pool, workers, start) && Runs(pool, steps, last, items, work)
    ensures |steps| <= 2 * |items| + Threads(workers)
    ensures Finished(last) <==> |steps| == 2 * |items| + Threads(workers)
    ensures Finished(last) ==> last.cursor == |items| + Threads(workers)
    ensures !Finished(last) <==> exists step :: Enabled(last, step, |items|)
  {
    InitHoldsInv(pool, workers, start, |items|);
    RunKeepsInv(pool, steps, last, items, work);
    OwedNothingMeansFinished(last.workers);
    if !Finished(last) {
      var w :| 0 <= w < |last.workers| && last.workers[w].phase != Done;
      if last.workers[w].phase == Ready {
        assert Enabled(last, Claim(w), |items|);
      } else {
        assert Held(last.workers[w])[|last.workers[w].seen|] == last.workers[w].phase.index;
        assert Enabled(last, Run(w), |items|);
      }
    } else {
      SomeoneClaimsPastTheEnd(last, |items|);
    }
  }

  lemma SomeoneClaimsPastTheEnd<S>(pool: Pool<S>, n: nat)
    requires Inv(pool, n) && Owed(pool.workers) == 0 && |pool.workers| >= 1
    ensures pool.cursor == n + |pool.workers|
  {
    OwedNothingMeansFinished(pool.workers);
  }

  /** The workers' `seen` lists, end to end. */
  function Seen<S>(workers: seq<Worker<S>>): seq<nat> {
    if workers == [] then [] else workers[0].seen + Seen(workers[1..])
  }

  lemma {:induction false} DoneWorkersHoldWhatTheySaw<S>(workers: seq<Worker<S>>, index: nat)
    requires forall w :: 0 <= w < |workers| ==> workers[w].phase == Done
    ensures HeldCount(workers, index) == multiset(Seen(workers))[index]
  {
    if workers != [] {
      DoneWorkersHoldWhatTheySaw(workers[1..], index);
    }
  }

  /** When a run is over every index has been run exactly once over all workers,
      and each worker ran its indices in increasing order. */
  lemma EachIndexRunsOnce<S(!new), T(!new)>(
    pool: Pool<S>, steps: seq<Step>, last: Pool<S>, items: seq<T>, work: (S, nat, T) -> S,
    workers: nat, start: S -> bool)
    requires Init(pool, workers, start) && Runs(pool, steps, last, items, work) && Finished(last)
    ensures multiset(Seen(last.workers)) == multiset(Upto(|items|))
    ensures forall w :: 0 <= w < |last.workers| ==> StrictlyIncreasing(last.workers[w].seen)
  {
    InitHoldsInv(pool, workers, start, |items|);
    RunKeepsInv(pool, steps, last, items, work);
    RunsEnd(pool, steps, last, items, work, workers, start);
    forall index: nat ensures multiset(Seen(last.workers))[index] == multiset(Upto(|items|))[index] {
      DoneWorkersHoldWhatTheySaw(last.workers, index);
      UptoCounts(|items|, index);
    }
    assert forall w :: 0 <= w < |last.workers| ==> Held(last.workers[w]) == last.workers[w].seen;
  }

  /** While a run is under way no index is held twice, by one worker or two. */
  lemma NoIndexIsSharedMidRun<S(!new), T(!new)>(
    pool: Pool<S>, steps: seq<Step>, last: Pool<S>, items: seq<T>, work: (S, nat, T) -> S,
    workers: nat, start: S -> bool,
    a: nat, i: nat, b: nat, j: nat)
    requires Init(pool, workers, start) && Runs(pool, steps, last, items, work)
    requires a < |last.workers| && i < |Held(last.workers[a])|
    requires b < |last.workers| && j < |Held(last.workers[b])|
    requires Held(last.workers[a])[i] == Held(last.workers[b])[j]
    ensures a == b && i == j
  {
    InitHoldsInv(pool, workers, start, |items|);
    RunKeepsInv(pool, steps, last, items, work);
    var index := Held(last.workers[a])[i];
    if a < b {
      HeldByTwo(last.workers, a, b, index);
    } else if b < a {
      HeldByTwo(last.workers, b, a, index);
    }
  }

  lemma UptoCounts(n: nat, index: nat)
    ensures multiset(Upto(n))[index] == if index < n then 1 else 0
  {
    if n > 0 {
      assert Upto(n) == Upto(n - 1) + [n - 1];
      UptoCounts(n - 1, index);
    }
  }

  lemma {:induction false} HeldByTwo<S>(workers: seq<Worker<S>>, a: nat, b: nat, index: nat)
    requires a < b < |workers| && index in Held(workers[a]) && index in Held(workers[b])
    ensures HeldCount(workers, index) >= 2
  {
    if a == 0 {
      HeldByOne(workers[1..], b - 1, index);
    } else {
      HeldByTwo(workers[1..], a - 1, b - 1, index);
    }
  }

  lemma {:induction false} HeldByOne<S>(workers: seq<Worker<S>>, a: nat, index: nat)
    requires a < |workers| && index in Held(workers[a])
    ensures HeldCount(workers, index) >= 1
  {
    if a > 0 {
      HeldByOne(workers[1..], a - 1, index);
    }
  }

  // ------------------------------------------------- map_on, in input order

  /** `map_on` folds into the caller's state and a list of indexed results. */
  type MapState<S, R> = (S, seq<(nat, R)>)

  function MapWork<S, T, R>(work: (S, T) -> (S, R)): (MapState<S, R>, nat, T) -> MapState<S, R> {
    (acc: MapState<S, R>, index: nat, item: T) =>
      var out := work(acc.0, item);
      (out.0, acc.1 + [(index, out.1)])
  }

  /** The documented contract: state kept within `ok` never changes a result. */
  ghost predicate Respects<S(!new), T(!new), R>(work: (S, T) -> (S, R), ok: S -> bool, f: T -> R) {
    forall s, t :: ok(s) ==> ok(work(s, t).0) && work(s, t).1 == f(t)
  }

  function Mapped<T, R>(items: seq<T>, f: T -> R): seq<R> {
    seq(|items|, i requires 0 <= i < |items| => f(items[i]))
  }

  function Tagged<T, R>(items: seq<T>, indices: seq<nat>, f: T -> R): seq<(nat, R)>
    requires forall i :: 0 <= i < |indices| ==> indices[i] < |items|
  {
    seq(|indices|, i requires 0 <= i < |indices| => (indices[i], f(items[indices[i]])))
  }

  /** Each worker holds exactly the tagged results of the items it has run. */
  ghost predicate MapInv<S, T, R>(pool: Pool<MapState<S, R>>, items: seq<T>, ok: S -> bool, f: T -> R) {
    forall w :: 0 <= w < |pool.workers| ==>
      var me := pool.workers[w];
      && ok(me.state.0)
      && (forall i :: 0 <= i < |me.seen| ==> me.seen[i] < |items|)
      && me.state.1 == Tagged(items, me.seen, f)
  }

  lemma {:induction false} RunKeepsMapInv<S(!new), T(!new), R(!new)>(
    pool: Pool<MapState<S, R>>, steps: seq<Step>, last: Pool<MapState<S, R>>, items: seq<T>,
    work: (S, T) -> (S, R), ok: S -> bool, f: T -> R)
    requires Respects(work, ok, f) && MapInv(pool, items, ok, f)
    requires Runs(pool, steps, last, items, MapWork(work))
    ensures MapInv(last, items, ok, f)
    decreases |steps|
  {
    if steps != [] {
      var next := Next(pool, steps[0], items, MapWork(work));
      if steps[0].Run? {
        var w := steps[0].worker;
        var was, me := pool.workers[w], next.workers[w];
        assert me.seen == was.seen + [was.phase.index];
        assert me.state.1 == Tagged(items, me.seen, f);
      }
      RunKeepsMapInv(next, steps[1..], last, items, work, ok, f);
    }
  }

  /** The batches laid end to end, before sorting. */
  function Batches<S, R>(workers: seq<Worker<MapState<S, R>>>): seq<(nat, R)> {
    if workers == [] then [] else workers[0].state.1 + Batches(workers[1..])
  }

  lemma TaggedConcat<T, R>(items: seq<T>, a: seq<nat>, b: seq<nat>, f: T -> R)
    requires forall i :: 0 <= i < |a| ==> a[i] < |items|
    requires forall i :: 0 <= i < |b| ==> b[i] < |items|
    ensures forall i :: 0 <= i < |a + b| ==> (a + b)[i] < |items|
    ensures Tagged(items, a + b, f) == Tagged(items, a, f) + Tagged(items, b, f)
  {
  }

  lemma {:induction false} BatchesAreTagged<S, T, R>(
    workers: seq<Worker<MapState<S, R>>>, items: seq<T>, ok: S -> bool, f: T -> R)
    requires MapInv(Pool(0, workers), items, ok, f)
    ensures forall i :: 0 <= i < |Seen(workers)| ==> Seen(workers)[i] < |items|
    ensures Batches(workers) == Tagged(items, Seen(workers), f)
  {
    if workers != [] {
      BatchesAreTagged(workers[1..], items, ok, f);
      TaggedConcat(items, workers[0].seen, Seen(workers[1..]), f);
    }
  }

  /** What sorting by index may return: some ordering, ascending by index. */
  ghost predicate SortedByIndex<R>(batches: seq<(nat, R)>, sorted: seq<(nat, R)>) {
    && multiset(sorted) == multiset(batches)
    && forall i, j :: 0 <= i < j < |sorted| ==> sorted[i].0 <= sorted[j].0
  }

  function Values<R>(pairs: seq<(nat, R)>): seq<R> {
    seq(|pairs|, i requires 0 <= i < |pairs| => pairs[i].1)
  }

  function Indices<R>(pairs: seq<(nat, R)>): seq<nat> {
    seq(|pairs|, i requires 0 <= i < |pairs| => pairs[i].0)
  }

  /** Sorting the tagged results of all indices restores the input order. */
  lemma SortRestoresOrder<T, R>(items: seq<T>, indices: seq<nat>, f: T -> R, sorted: seq<(nat, R)>)
    requires forall i :: 0 <= i < |indices| ==> indices[i] < |items|
    requires multiset(indices) == multiset(Upto(|items|))
    requires SortedByIndex(Tagged(items, indices, f), sorted)
    ensures Values(sorted) == Mapped(items, f)
  {
    var tagged := Tagged(items, indices, f);
    IndicesOfPermutation(tagged, sorted);
    assert Indices(tagged) == indices;
    SortedUpto(Indices(sorted), |items|);
    forall i | 0 <= i < |sorted| ensures sorted[i].1 == f(items[i]) {
      assert sorted[i] in multiset(sorted);
      assert sorted[i] in tagged;
      assert Indices(sorted)[i] == i;
    }
  }

  lemma {:induction false} IndicesMultiset<R>(pairs: seq<(nat, R)>, p: (nat, R), i: nat)
    requires i < |pairs| && pairs[i] == p
    ensures multiset(Indices(pairs)) == multiset(Indices(pairs[..i] + pairs[i + 1..])) + multiset{p.0}
    ensures multiset(pairs) == multiset(pairs[..i] + pairs[i + 1..]) + multiset{p}
  {
    assert pairs == pairs[..i] + [p] + pairs[i + 1..];
    assert Indices(pairs) == Indices(pairs[..i]) + [p.0] + Indices(pairs[i + 1..]);
    assert Indices(pairs[..i] + pairs[i + 1..]) == Indices(pairs[..i]) + Indices(pairs[i + 1..]);
  }

  lemma {:induction false} IndicesOfPermutation<R>(a: seq<(nat, R)>, b: seq<(nat, R)>)
    requires multiset(a) == multiset(b)
    ensures multiset(Indices(a)) == multiset(Indices(b))
    decreases |a|
  {
    if a == [] {
      assert |multiset(b)| == 0;
      assert b == [];
    } else {
      assert a[0] in multiset(b);
      var j :| 0 <= j < |b| && b[j] == a[0];
      IndicesMultiset(a, a[0], 0);
      IndicesMultiset(b, a[0], j);
      CancelMultiset(multiset(a[..0] + a[1..]), multiset(b[..j] + b[j + 1..]), multiset{a[0]});
      IndicesOfPermutation(a[..0] + a[1..], b[..j] + b[j + 1..]);
    }
  }

  /** The only ascending arrangement of 0..n is 0, 1, .., n-1. */
  lemma {:induction false} SortedUpto(xs: seq<nat>, n: nat)
    requires multiset(xs) == multiset(Upto(n))
    requires forall i, j :: 0 <= i < j < |xs| ==> xs[i] <= xs[j]
    ensures xs == Upto(n)
  {
    assert |xs| == |multiset(xs)| == |Upto(n)| == n;
    if n > 0 {
      assert n - 1 in multiset(Upto(n)) by { assert Upto(n)[n - 1] == n - 1; }
      assert n - 1 in xs;
      assert xs[n - 1] in multiset(xs);
      assert xs[n - 1] in Upto(n);
      assert xs[n - 1] == n - 1;
      assert xs == xs[..n - 1] + [n - 1];
      assert Upto(n) == Upto(n - 1) + [n - 1];
      var top: nat := n - 1;
      assert multiset(xs) == multiset(xs[..n - 1]) + multiset{top};
      assert multiset(Upto(n)) == multiset(Upto(n - 1)) + multiset{top};
      CancelMultiset(multiset(xs[..n - 1]), multiset(Upto(n - 1)), multiset{top});
      SortedUpto(xs[..n - 1], n - 1);
    }
  }

  /** Scheduling independence: whatever the interleaving, the worker count, the
      workers' private states within the contract and the sort's choices,
      `map_on` returns the sequential map, in input order. */
  lemma MapIsSequentialMap<S(!new), T(!new), R(!new)>(
    pool: Pool<MapState<S, R>>, steps: seq<Step>, last: Pool<MapState<S, R>>, items: seq<T>,
    work: (S, T) -> (S, R), ok: S -> bool, f: T -> R, workers: nat, sorted: seq<(nat, R)>)
    requires Respects(work, ok, f)
    requires Init(pool, workers, (s: MapState<S, R>) => ok(s.0) && s.1 == [])
    requires Runs(pool, steps, last, items, MapWork(work)) && Finished(last)
    requires SortedByIndex(Batches(last.workers), sorted)
    ensures Values(sorted) == Mapped(items, f)
  {
    var start := (s: MapState<S, R>) => ok(s.0) && s.1 == [];
    RunKeepsMapInv(pool, steps, last, items, work, ok, f);
    EachIndexRunsOnce(pool, steps, last, items, MapWork(work), workers, start);
    BatchesAreTagged(last.workers, items, ok, f);
    SortRestoresOrder(items, Seen(last.workers), f, sorted);
  }
}
