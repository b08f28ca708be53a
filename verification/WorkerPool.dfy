/**
  The bounded pool that refreshes due player lists
  (`refreshDueServerPlayerLists` in src/service/server-live-status-service.ts):
  workers that share one index and one counter and interleave at every await.
 */
module WorkerPool {
  import opened Prelude

  datatype Worker = Ready | Refreshing(index: nat) | Done

  /**
    The shared variables and the workers, as many as the list and the configured limit, 1 to 100, allow;
    `claims` is the history of claimed indices.
   */
  datatype Pool = Pool(nextIndex: nat, refreshed: nat, workers: seq<Worker>, claims: seq<nat>, finished: set<nat>)

  function Workers(count: nat): seq<Worker> {
    seq(count, _ => Ready)
  }

  function Start(count: nat, limit: nat): Pool {
    Pool(0, 0, Workers(Min(limit, count)), [], {})
  }

  /** The loop head: claim the next index or stop. Both halves happen without an await between them. */
  function ClaimNext(pool: Pool, worker: nat, count: nat): Pool
    requires worker < |pool.workers|
  {
    if pool.nextIndex < count then
      pool.(workers := pool.workers[worker := Refreshing(pool.nextIndex)],
            claims := pool.claims + [pool.nextIndex],
            nextIndex := pool.nextIndex + 1)
    else pool.(workers := pool.workers[worker := Done])
  }

  /** One worker runs to its next await; `outcomes` tells which refreshes return true. */
  function Step(pool: Pool, worker: nat, outcomes: seq<bool>): Pool
    requires worker < |pool.workers|
  {
    match pool.workers[worker]
    case Done => pool
    case Ready => ClaimNext(pool, worker, |outcomes|)
    case Refreshing(index) =>
      var counted := if index < |outcomes| && outcomes[index] then pool.refreshed + 1 else pool.refreshed;
      ClaimNext(pool.(refreshed := counted, finished := pool.finished + {index}), worker, |outcomes|)
  }

  function Run(pool: Pool, schedule: seq<nat>, outcomes: seq<bool>): Pool
    decreases |schedule|
  {
    if schedule == [] then pool
    else if schedule[0] >= |pool.workers| then Run(pool, schedule[1..], outcomes)
    else Run(Step(pool, schedule[0], outcomes), schedule[1..], outcomes)
  }

  function CountTrue(outcomes: seq<bool>, chosen: set<nat>): nat {
    if outcomes == [] then 0
    else
      var last := |outcomes| - 1;
      CountTrue(outcomes[..last], chosen) + if last in chosen && outcomes[last] then 1 else 0
  }

  predicate InFlight(pool: Pool, index: nat) {
    exists w :: 0 <= w < |pool.workers| && pool.workers[w] == Refreshing(index)
  }

  ghost predicate Valid(pool: Pool, outcomes: seq<bool>) {
    && pool.nextIndex <= |outcomes|
    && pool.claims == seq(pool.nextIndex, i => i)
    && (forall v, w :: 0 <= v < w < |pool.workers| && pool.workers[v].Refreshing? ==> pool.workers[v] != pool.workers[w])
    && (forall index: nat :: index < pool.nextIndex <==> index in pool.finished || InFlight(pool, index))
    && (forall index: nat :: index in pool.finished ==> !InFlight(pool, index))
    && pool.refreshed == CountTrue(outcomes, pool.finished)
    && (Done in pool.workers ==> pool.nextIndex == |outcomes|)
  }

  lemma {:induction false} CountOneMore(outcomes: seq<bool>, chosen: set<nat>, index: nat)
    requires index !in chosen
    ensures CountTrue(outcomes, chosen + {index})
      == CountTrue(outcomes, chosen) + if index < |outcomes| && outcomes[index] then 1 else 0
  {
    if outcomes != [] {
      CountOneMore(outcomes[..|outcomes| - 1], chosen, index);
    }
  }

  lemma {:induction false} CountNone(outcomes: seq<bool>)
    ensures CountTrue(outcomes, {}) == 0
  {
    if outcomes != [] {
      CountNone(outcomes[..|outcomes| - 1]);
    }
  }

  /** The indices of a list of that many servers. */
  function Indices(count: nat): (indices: set<nat>)
    ensures forall index: nat :: index in indices <==> index < count
  {
    if count == 0 then {} else Indices(count - 1) + {count - 1}
  }

  lemma StartIsValid(outcomes: seq<bool>, limit: nat)
    ensures Valid(Start(|outcomes|, limit), outcomes)
  {
    CountNone(outcomes);
    var pool := Start(|outcomes|, limit);
    assert forall w :: 0 <= w < |pool.workers| ==> pool.workers[w] == Ready;
    assert forall index: nat :: !InFlight(pool, index);
  }

  /** A worker without a claim takes the next index or stops. */
  lemma ClaimIsValid(pool: Pool, worker: nat, outcomes: seq<bool>)
    requires worker < |pool.workers| && !pool.workers[worker].Done?
    requires Valid(pool.(workers := pool.workers[worker := Ready]), outcomes)
    ensures Valid(ClaimNext(pool, worker, |outcomes|), outcomes)
  {
    var idle := pool.(workers := pool.workers[worker := Ready]);
    var next := ClaimNext(pool, worker, |outcomes|);
    forall index: nat ensures InFlight(next, index)
      <==> InFlight(idle, index) || (pool.nextIndex < |outcomes| && index == pool.nextIndex)
    {
      if InFlight(idle, index) {
        var w :| 0 <= w < |idle.workers| && idle.workers[w] == Refreshing(index);
        assert next.workers[w] == Refreshing(index);
      }
      if InFlight(next, index) {
        var w :| 0 <= w < |next.workers| && next.workers[w] == Refreshing(index);
        assert w != worker ==> idle.workers[w] == Refreshing(index);
      }
      if pool.nextIndex < |outcomes| {
        assert next.workers[worker] == Refreshing(pool.nextIndex);
      }
    }
    assert !InFlight(idle, pool.nextIndex);
    forall v, w | 0 <= v < w < |next.workers| && next.workers[v].Refreshing?
      ensures next.workers[v] != next.workers[w]
    {
      if w == worker {
        assert idle.workers[v] == next.workers[v];
      } else {
        assert v != worker ==> idle.workers[v] == next.workers[v];
        assert idle.workers[w] == next.workers[w];
      }
    }
    forall w | 0 <= w < |next.workers| && next.workers[w].Done? ensures next.nextIndex == |outcomes| {
      if w != worker {
        assert idle.workers[w] in idle.workers;
      }
    }
  }

  lemma StepIsValid(pool: Pool, worker: nat, outcomes: seq<bool>)
    requires worker < |pool.workers| && Valid(pool, outcomes)
    ensures Valid(Step(pool, worker, outcomes), outcomes)
    ensures |Step(pool, worker, outcomes).workers| == |pool.workers|
  {
    match pool.workers[worker]
    case Done =>
    case Ready =>
      assert pool.workers[worker := Ready] == pool.workers;
      assert pool.(workers := pool.workers[worker := Ready]) == pool;
      ClaimIsValid(pool, worker, outcomes);
    case Refreshing(index) =>
      assert InFlight(pool, index);
      CountOneMore(outcomes, pool.finished, index);
      var counted := if index < |outcomes| && outcomes[index] then pool.refreshed + 1 else pool.refreshed;
      var ended := pool.(refreshed := counted, finished := pool.finished + {index});
      var idle := ended.(workers := pool.workers[worker := Ready]);
      forall other: nat ensures InFlight(idle, other) <==> InFlight(pool, other) && other != index {
        if InFlight(pool, other) && other != index {
          var w :| 0 <= w < |pool.workers| && pool.workers[w] == Refreshing(other);
          assert idle.workers[w] == Refreshing(other);
        }
        if InFlight(idle, other) {
          var w :| 0 <= w < |idle.workers| && idle.workers[w] == Refreshing(other);
          assert pool.workers[w] == Refreshing(other);
        }
      }
      ClaimIsValid(ended, worker, outcomes);
  }

  /**
    Over every schedule: indices are claimed in order and once each, a claimed index is either
    finished or in flight at exactly one worker, no more workers run than the limit allows, and
    the counter is the number of finished refreshes that returned true.
   */
  lemma {:induction false} PoolOverRuns(pool: Pool, schedule: seq<nat>, outcomes: seq<bool>)
    requires Valid(pool, outcomes)
    ensures Valid(Run(pool, schedule, outcomes), outcomes)
    ensures |Run(pool, schedule, outcomes).workers| == |pool.workers|
    decreases |schedule|
  {
    if schedule != [] {
      if schedule[0] < |pool.workers| {
        StepIsValid(pool, schedule[0], outcomes);
        PoolOverRuns(Step(pool, schedule[0], outcomes), schedule[1..], outcomes);
      } else {
        PoolOverRuns(pool, schedule[1..], outcomes);
      }
    }
  }

  predicate AllDone(pool: Pool) {
    forall w :: 0 <= w < |pool.workers| ==> pool.workers[w].Done?
  }

  /** A pool whose workers have all stopped has finished everything it claimed. */
  lemma StoppedPool(pool: Pool, outcomes: seq<bool>)
    requires Valid(pool, outcomes) && AllDone(pool)
    requires pool.workers != [] || outcomes == []
    ensures pool.claims == seq(|outcomes|, i => i)
    ensures pool.finished == Indices(|outcomes|)
    ensures pool.refreshed == CountTrue(outcomes, Indices(|outcomes|))
  {
    assert forall index: nat :: !InFlight(pool, index);
    if pool.workers != [] {
      assert pool.workers[0] in pool.workers;
    }
    assert pool.nextIndex == |outcomes|;
    assert pool.finished == Indices(|outcomes|);
  }

  /** When all workers have stopped, every server was refreshed once and all true results are counted. */
  lemma {:induction false} StoppedMeansComplete(schedule: seq<nat>, outcomes: seq<bool>, limit: nat)
    requires limit >= 1 && AllDone(Run(Start(|outcomes|, limit), schedule, outcomes))
    ensures
      var end := Run(Start(|outcomes|, limit), schedule, outcomes);
      && end.claims == seq(|outcomes|, i => i)
      && end.finished == Indices(|outcomes|)
      && end.refreshed == CountTrue(outcomes, Indices(|outcomes|))
  {
    var start := Start(|outcomes|, limit);
    StartIsValid(outcomes, limit);
    PoolOverRuns(start, schedule, outcomes);
    StoppedPool(Run(start, schedule, outcomes), outcomes);
  }

  /** The work left: unclaimed indices and workers that have not stopped. */
  function WorkLeft(pool: Pool, count: nat): int {
    count - pool.nextIndex + Active(pool.workers)
  }

  function Active(workers: seq<Worker>): nat {
    if workers == [] then 0 else Active(workers[..|workers| - 1]) + if workers[|workers| - 1].Done? then 0 else 1
  }

  lemma {:induction false} ActiveAfterUpdate(workers: seq<Worker>, w: nat, next: Worker)
    requires w < |workers| && !workers[w].Done?
    ensures Active(workers[w := next]) == Active(workers) - if next.Done? then 1 else 0
  {
    var last := |workers| - 1;
    if w == last {
      assert workers[w := next][..last] == workers[..last];
    } else {
      assert workers[w := next][..last] == workers[..last][w := next];
      ActiveAfterUpdate(workers[..last], w, next);
    }
  }

  lemma StepMakesProgress(pool: Pool, worker: nat, outcomes: seq<bool>)
    requires worker < |pool.workers| && !pool.workers[worker].Done? && Valid(pool, outcomes)
    ensures 0 <= WorkLeft(Step(pool, worker, outcomes), |outcomes|) == WorkLeft(pool, |outcomes|) - 1
  {
    ActiveAfterUpdate(pool.workers, worker, Done);
    ActiveAfterUpdate(pool.workers, worker, Refreshing(pool.nextIndex));
  }

  /** How many steps of a schedule fall to a worker that has not stopped. */
  function Useful(pool: Pool, schedule: seq<nat>, outcomes: seq<bool>): nat
    decreases |schedule|
  {
    if schedule == [] then 0
    else if schedule[0] >= |pool.workers| then Useful(pool, schedule[1..], outcomes)
    else
      (if pool.workers[schedule[0]].Done? then 0 else 1)
      + Useful(Step(pool, schedule[0], outcomes), schedule[1..], outcomes)
  }

  lemma {:induction false} WorkLeftAfter(pool: Pool, schedule: seq<nat>, outcomes: seq<bool>)
    requires Valid(pool, outcomes)
    ensures Valid(Run(pool, schedule, outcomes), outcomes)
    ensures |Run(pool, schedule, outcomes).workers| == |pool.workers|
    ensures WorkLeft(Run(pool, schedule, outcomes), |outcomes|) == WorkLeft(pool, |outcomes|) - Useful(pool, schedule, outcomes)
    decreases |schedule|
  {
    hide Valid, WorkLeft;
    if schedule != [] {
      if schedule[0] >= |pool.workers| {
        WorkLeftAfter(pool, schedule[1..], outcomes);
      } else {
        var w := schedule[0];
        StepIsValid(pool, w, outcomes);
        if !pool.workers[w].Done? {
          StepMakesProgress(pool, w, outcomes);
        }
        WorkLeftAfter(Step(pool, w, outcomes), schedule[1..], outcomes);
      }
    }
  }

  lemma {:induction false} NoneActive(workers: seq<Worker>)
    ensures Active(workers) == 0 <==> forall w :: 0 <= w < |workers| ==> workers[w].Done?
  {
    if workers != [] {
      NoneActive(workers[..|workers| - 1]);
    }
  }

  lemma {:induction false} AllActive(count: nat)
    ensures Active(Workers(count)) == count
  {
    if count > 0 {
      AllActive(count - 1);
      assert Workers(count)[..count - 1] == Workers(count - 1);
    }
  }

  /**
    The pool has as many workers as servers, up to the limit, and has stopped if and only if the schedule gave
    running workers one step for each server and one more for each worker.
   */
  lemma {:induction false} StoppedExactly(schedule: seq<nat>, outcomes: seq<bool>, limit: nat)
    requires limit >= 1
    ensures
      var start, workers := Start(|outcomes|, limit), if limit < |outcomes| then limit else |outcomes|;
      var end := Run(start, schedule, outcomes);
      && |end.workers| == workers
      && (AllDone(end) <==> Useful(start, schedule, outcomes) == |outcomes| + workers)
  {
    var start := Start(|outcomes|, limit);
    StartIsValid(outcomes, limit);
    WorkLeftAfter(start, schedule, outcomes);
    AllActive(Min(limit, |outcomes|));
    StoppedMeansNoWork(Run(start, schedule, outcomes), outcomes);
    hide Run, Useful, Step, Valid, Active, AllDone, Workers;
  }

  lemma StoppedMeansNoWork(pool: Pool, outcomes: seq<bool>)
    requires Valid(pool, outcomes) && (pool.workers == [] ==> outcomes == [])
    ensures AllDone(pool) <==> WorkLeft(pool, |outcomes|) == 0
  {
    NoneActive(pool.workers);
    hide Active, CountTrue, InFlight;
    if AllDone(pool) && pool.workers != [] {
      assert pool.workers[0] in pool.workers;
    }
  }

  /** The pool under an arbitrary scheduler: it terminates and refreshes every server once. */
  method RefreshDuePlayerLists(outcomes: seq<bool>, limit: nat) returns (checked: nat, refreshed: nat, claims: seq<nat>)
    requires limit >= 1
    ensures checked == |outcomes|
    ensures claims == seq(|outcomes|, i => i)
    ensures refreshed == CountTrue(outcomes, Indices(|outcomes|))
  {
    var pool := Start(|outcomes|, limit);
    StartIsValid(outcomes, limit);
    hide Valid, Step, WorkLeft;
    while exists w :: 0 <= w < |pool.workers| && !pool.workers[w].Done?
      invariant Valid(pool, outcomes) && |pool.workers| == Min(limit, |outcomes|)
      decreases WorkLeft(pool, |outcomes|)
    {
      var w :| 0 <= w < |pool.workers| && !pool.workers[w].Done?;
      StepIsValid(pool, w, outcomes);
      StepMakesProgress(pool, w, outcomes);
      pool := Step(pool, w, outcomes);
    }
    StoppedPool(pool, outcomes);
    checked, refreshed, claims := |outcomes|, pool.refreshed, pool.claims;
  }
}
