/**
 * A worker's polling loop as a sequence of delivery steps, and what
 * repeated attempts do to a row: dead rows stay as they are, retry counts
 * only grow, a consumer that always fails dead-letters its row after
 * MaxRetry attempts, and a later success deletes the row.
 */
module Runs {
  import opened Wrappers
  import opened Registry
  import opened Queue
  import opened Consume

  /** The inputs of one delivery step. */
  datatype Tick = Tick(now: int, later: int, claim: Option<int>, outcome: Outcome, faults: Faults)

  /**
   * Steps the world through `ticks`; None when some tick claims a row the
   * claim query could not return.  Runs never add rows: the engine's only
   * inserts come from publishing.
   */
  function Run(w: World, reg: Registry, ticks: seq<Tick>): (r: Option<World>)
    ensures r.Some? ==> r.value.queue.Keys <= w.queue.Keys
    decreases |ticks|
  {
    if |ticks| == 0 then Some(w)
    else
      var t := ticks[0];
      if !ValidClaim(w.queue, t.now, t.claim) then None
      else Run(Step(w, reg, t.now, t.later, t.claim, t.outcome, t.faults).world, reg, ticks[1..])
  }

  /** The world after the first tick of a run. */
  function After(w: World, reg: Registry, t: Tick): World
    requires ValidClaim(w.queue, t.now, t.claim)
  {
    Step(w, reg, t.now, t.later, t.claim, t.outcome, t.faults).world
  }

  /** A dead-lettered row stays in the table unchanged, however long the workers run. */
  lemma {:induction false} RunKeepsDead(w: World, reg: Registry, ticks: seq<Tick>, id: int)
    requires Run(w, reg, ticks).Some?
    requires id in w.queue && w.queue[id].isDead
    ensures id in Run(w, reg, ticks).value.queue
    ensures Run(w, reg, ticks).value.queue[id] == w.queue[id]
    decreases |ticks|
  {
    if |ticks| > 0 {
      var t := ticks[0];
      DeadRowsUntouched(w, reg, t.now, t.later, t.claim, t.outcome, t.faults, id);
      RunKeepsDead(After(w, reg, t), reg, ticks[1..], id);
    }
  }

  /** Over a run, a surviving row's retry count never decreases and a dead row never revives. */
  lemma {:induction false} RunRetryMonotone(w: World, reg: Registry, ticks: seq<Tick>, id: int)
    requires Run(w, reg, ticks).Some?
    requires id in Run(w, reg, ticks).value.queue
    ensures id in w.queue
    ensures w.queue[id].retry <= Run(w, reg, ticks).value.queue[id].retry
    ensures w.queue[id].isDead ==> Run(w, reg, ticks).value.queue[id].isDead
    decreases |ticks|
  {
    if |ticks| > 0 {
      var t := ticks[0];
      var w' := After(w, reg, t);
      RunRetryMonotone(w', reg, ticks[1..], id);
      RetryMonotone(w, reg, t.now, t.later, t.claim, t.outcome, t.faults, id);
    }
  }

  /** The retry-count invariant holds throughout a run. */
  lemma {:induction false} RunKeepsRetriesBounded(w: World, reg: Registry, ticks: seq<Tick>)
    requires Run(w, reg, ticks).Some?
    requires RetriesBounded(w.queue)
    ensures RetriesBounded(Run(w, reg, ticks).value.queue)
    decreases |ticks|
  {
    if |ticks| > 0 {
      var t := ticks[0];
      StepKeepsRetriesBounded(w, reg, t.now, t.later, t.claim, t.outcome, t.faults);
      RunKeepsRetriesBounded(After(w, reg, t), reg, ticks[1..]);
    }
  }

  /** Tick `t` claims row `id`, whose consumer fails with no database error. */
  predicate FailsOn(t: Tick, id: int) {
    t.claim == Some(id) && t.outcome.Failed? && t.faults == NoFaults
  }

  /**
   * Each attempt at a row whose consumer keeps failing counts once: after
   * k such attempts the retry count has grown by k, the row is dead exactly
   * when it reached MaxRetry, and a dead row carries the last error.
   */
  lemma {:induction false} FailuresCount(w: World, reg: Registry, ticks: seq<Tick>, id: int)
    requires Run(w, reg, ticks).Some?
    requires id in w.queue && w.queue[id].consumerName in reg
    requires forall k :: 0 <= k < |ticks| ==> FailsOn(ticks[k], id)
    ensures id in Run(w, reg, ticks).value.queue
    ensures Run(w, reg, ticks).value.queue[id].retry == w.queue[id].retry + |ticks|
    ensures Run(w, reg, ticks).value.queue[id].consumerName == w.queue[id].consumerName
    ensures |ticks| > 0 ==>
              (Run(w, reg, ticks).value.queue[id].isDead <==> w.queue[id].retry + |ticks| >= MaxRetry)
    ensures |ticks| > 0 && Run(w, reg, ticks).value.queue[id].isDead ==>
              && FailsOn(ticks[|ticks| - 1], id)
              && Run(w, reg, ticks).value.queue[id].failedReason == Some(ticks[|ticks| - 1].outcome.reason)
    decreases |ticks|
  {
    if |ticks| > 0 {
      var t := ticks[0];
      var w' := After(w, reg, t);
      FailureRecorded(w, reg, t.now, t.later, id, t.outcome.reason, t.outcome.writes);
      assert w'.queue[id].consumerName == w.queue[id].consumerName;
      var rest := ticks[1..];
      forall k | 0 <= k < |rest|
        ensures FailsOn(rest[k], id)
      {
        assert rest[k] == ticks[k + 1];
      }
      FailuresCount(w', reg, rest, id);
      if |rest| > 0 {
        assert rest[|rest| - 1] == ticks[|ticks| - 1];
        assert !w'.queue[id].isDead by {
          assert Run(w', reg, rest).Some?;
          assert ValidClaim(w'.queue, rest[0].now, rest[0].claim);
          assert FailsOn(rest[0], id);
        }
      }
    }
  }

  /**
   * A consumer that fails every time dead-letters a fresh row on its
   * MaxRetry-th attempt, recording the last error.
   */
  lemma AlwaysFailingDeadLetters(w: World, reg: Registry, ticks: seq<Tick>, id: int)
    requires Run(w, reg, ticks).Some?
    requires id in w.queue && w.queue[id].retry == 0 && w.queue[id].consumerName in reg
    requires |ticks| == MaxRetry
    requires forall k :: 0 <= k < |ticks| ==> FailsOn(ticks[k], id)
    ensures id in Run(w, reg, ticks).value.queue
    ensures Run(w, reg, ticks).value.queue[id].isDead
    ensures Run(w, reg, ticks).value.queue[id].retry == MaxRetry
    ensures FailsOn(ticks[MaxRetry - 1], id)
    ensures Run(w, reg, ticks).value.queue[id].failedReason == Some(ticks[MaxRetry - 1].outcome.reason)
  {
    FailuresCount(w, reg, ticks, id);
  }

  /**
   * A worker's claims of row `id`, currently `row`, while its consumer fails
   * with `reason`: each claim comes one second after the row is due and the
   * update reads the same clock.
   */
  function FailSchedule(id: int, row: Row, reason: string, k: nat): (ts: seq<Tick>)
    ensures |ts| == k
    ensures forall j :: 0 <= j < k ==> FailsOn(ts[j], id)
    decreases k
  {
    if k == 0 then []
    else
      var now := row.checkAt + 1;
      [Tick(now, now, Some(id), Failed(reason, map[]), NoFaults)]
      + FailSchedule(id, Retried(row, reason, now), reason, k - 1)
  }

  /**
   * The failing schedule is one the claim query allows: while the row is
   * live, each claim of it is valid, so the run goes through.
   */
  lemma {:induction false} FailScheduleRuns(w: World, reg: Registry, id: int, reason: string, k: nat)
    requires id in w.queue && !w.queue[id].isDead && w.queue[id].consumerName in reg
    requires w.queue[id].retry + k <= MaxRetry
    ensures Run(w, reg, FailSchedule(id, w.queue[id], reason, k)).Some?
    decreases k
  {
    var ts := FailSchedule(id, w.queue[id], reason, k);
    if k > 0 {
      var row := w.queue[id];
      var now := row.checkAt + 1;
      var t := ts[0];
      assert t == Tick(now, now, Some(id), Failed(reason, map[]), NoFaults);
      assert ValidClaim(w.queue, t.now, t.claim);
      var w' := After(w, reg, t);
      assert w'.queue[id] == Retried(row, reason, now);
      assert ts[1..] == FailSchedule(id, w'.queue[id], reason, k - 1);
      if k > 1 {
        FailScheduleRuns(w', reg, id, reason, k - 1);
      }
    }
  }

  /** Some run of a consumer that always fails does dead-letter a fresh row. */
  lemma AlwaysFailingRunExists(w: World, reg: Registry, id: int, reason: string)
    requires id in w.queue && !w.queue[id].isDead && w.queue[id].retry == 0 && w.queue[id].consumerName in reg
    ensures exists ts :: |ts| == MaxRetry && Run(w, reg, ts).Some?
                         && (forall k :: 0 <= k < |ts| ==> FailsOn(ts[k], id))
                         && id in Run(w, reg, ts).value.queue && Run(w, reg, ts).value.queue[id].isDead
  {
    var ts := FailSchedule(id, w.queue[id], reason, MaxRetry);
    FailScheduleRuns(w, reg, id, reason, MaxRetry);
    AlwaysFailingDeadLetters(w, reg, ts, id);
  }

  /**
   * A consumer that fails once and then succeeds: the first attempt counts a
   * retry, the second deletes the row and commits the consumer's writes.
   */
  lemma FailThenSucceed(w: World, reg: Registry, t1: Tick, t2: Tick, id: int)
    requires Run(w, reg, [t1, t2]).Some?
    requires id in w.queue && w.queue[id].consumerName in reg
    requires FailsOn(t1, id)
    requires t2.claim == Some(id) && t2.outcome.Succeeded? && t2.faults == NoFaults
    ensures id in After(w, reg, t1).queue
    ensures After(w, reg, t1).queue[id].retry == w.queue[id].retry + 1
    ensures id !in Run(w, reg, [t1, t2]).value.queue
    ensures Run(w, reg, [t1, t2]).value.app == w.app + t2.outcome.writes
  {
    var w' := After(w, reg, t1);
    FailureRecorded(w, reg, t1.now, t1.later, id, t1.outcome.reason, t1.outcome.writes);
    assert [t1, t2][1..] == [t2];
    assert Run(w, reg, [t1, t2]) == Run(w', reg, [t2]);
    assert ValidClaim(w'.queue, t2.now, t2.claim);
    assert [t2][1..] == [];
    assert Run(w', reg, [t2]) == Some(After(w', reg, t2));
    DeletedIffDelivered(w', reg, t2.now, t2.later, t2.claim, t2.outcome, t2.faults, id);
  }
}
