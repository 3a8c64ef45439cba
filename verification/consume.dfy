/**
 * One delivery step of a consumer worker: claim one eligible row, dispatch
 * it to its consumer inside a nested transaction, and record the outcome
 * (delete, retry with back-off, or dead-letter) in the outer transaction.
 *
 * The database is the pair of the `queues` table and the data the consumers
 * write.  Everything the step cannot decide itself is an input: the two clock
 * readings, which eligible row the claim query returns, what the consumer
 * does, and which database calls fail.
 */
module Consume {
  import opened Wrappers
  import opened Registry
  import opened Queue

  /** The data consumers write, as a key/value store. */
  type App = map<string, string>

  /** What the consumer's unit of work does: the writes it makes in the nested transaction, and its error if any. */
  datatype Outcome =
    | Succeeded(writes: App)
    | Failed(reason: string, writes: App)

  /** Which database calls of the step report an error. */
  datatype Faults = Faults(
    begin: bool,
    query: bool,
    nestedBegin: bool,
    nestedRollback: bool,
    exec: bool,
    commit: bool)

  const NoFaults: Faults := Faults(false, false, false, false, false, false)

  /** The committed state of the database. */
  datatype World = World(queue: Store, app: App)

  /** The committed state after a step, and whether the worker then sleeps. */
  datatype StepResult = StepResult(world: World, sleep: bool)

  /**
   * What the claim query may return: nothing (no eligible row, or every
   * eligible row is locked by another worker), or one row that is live and
   * due strictly before `now`.
   */
  predicate ValidClaim(store: Store, now: int, claim: Option<int>) {
    claim.Some? ==> claim.value in store && Eligible(store[claim.value], now)
  }

  /**
   * The outer transaction's writes take effect only if its last statement
   * succeeded and the commit went through; a failed statement aborts the
   * transaction, and committing an aborted transaction rolls it back.
   */
  function Commit(w: World, written: World, f: Faults): (r: World)
    ensures r == written <==> (!f.exec && !f.commit) || written == w
    ensures r == w || r == written
  {
    if f.exec || f.commit then w else written
  }

  /** The row after an attempt that failed with `reason`, `later` being the clock reading of the update. */
  function Retried(row: Row, reason: string, later: int): (r: Row)
    ensures r.retry == row.retry + 1
    ensures r.isDead <==> row.isDead || row.retry + 1 >= MaxRetry
    ensures r.consumerName == row.consumerName && r.message == row.message && r.createdAt == row.createdAt
    ensures row.retry + 1 >= MaxRetry ==> r.failedReason == Some(reason) && r.checkAt == row.checkAt
    ensures row.retry + 1 < MaxRetry ==> r.failedReason == row.failedReason && r.checkAt == later + Backoff(row.retry)
  {
    if row.retry + 1 >= MaxRetry then
      row.(retry := row.retry + 1, isDead := true, failedReason := Some(reason))
    else
      row.(retry := row.retry + 1, checkAt := later + Backoff(row.retry))
  }

  /** The row after its consumer name turned out not to be registered. */
  function Orphaned(row: Row): (r: Row)
    ensures r.isDead && r.failedReason == Some(ConsumerNotFound)
    ensures r.retry == row.retry && r.checkAt == row.checkAt && r.message == row.message
    ensures r.consumerName == row.consumerName && r.createdAt == row.createdAt
  {
    row.(isDead := true, failedReason := Some(ConsumerNotFound))
  }

  /**
   * One call of the delivery step.  `now` is the clock reading the claim
   * query uses and `later` the one the retry update uses.  The worker sleeps
   * only when it could not open a transaction or found nothing to claim.
   */
  function Step(w: World, reg: Registry, now: int, later: int, claim: Option<int>, outcome: Outcome, f: Faults)
    : (r: StepResult)
    requires ValidClaim(w.queue, now, claim)
    ensures r.sleep <==> f.begin || (!f.query && claim.None?)
    ensures r.world.queue.Keys <= w.queue.Keys
    ensures forall id :: id in w.queue && claim != Some(id) ==> id in r.world.queue && r.world.queue[id] == w.queue[id]
  {
    if f.begin then StepResult(w, true)
    else if f.query then StepResult(w, false)
    else if claim.None? then StepResult(w, true)
    else
      var id := claim.value;
      var row := w.queue[id];
      match Lookup(reg, row.consumerName)
      case None =>
        StepResult(Commit(w, World(w.queue[id := Orphaned(row)], w.app), f), false)
      case Some(_) =>
        if f.nestedBegin then StepResult(w, false)
        else
          match outcome
          case Failed(reason, _) =>
            if f.nestedRollback then StepResult(w, false)
            else StepResult(Commit(w, World(w.queue[id := Retried(row, reason, later)], w.app), f), false)
          case Succeeded(writes) =>
            StepResult(Commit(w, World(w.queue - {id}, w.app + writes), f), false)
  }

  /**
   * The claimed row reaches its registered consumer and the outer
   * transaction's statement and commit go through (the nested rollback only
   * runs when the consumer fails).
   */
  predicate Delivered(w: World, reg: Registry, claim: Option<int>, f: Faults)
    requires claim.Some? ==> claim.value in w.queue
  {
    && !f.begin && !f.query && claim.Some?
    && w.queue[claim.value].consumerName in reg
    && !f.nestedBegin && !f.exec && !f.commit
  }

  /**
   * A row leaves the table exactly when it was claimed, its consumer is
   * registered and succeeded, and the delete and the commit went through;
   * the consumer's writes are then committed together with the delete.
   */
  lemma DeletedIffDelivered(w: World, reg: Registry, now: int, later: int, claim: Option<int>, outcome: Outcome, f: Faults, id: int)
    requires ValidClaim(w.queue, now, claim)
    requires id in w.queue
    ensures id !in Step(w, reg, now, later, claim, outcome, f).world.queue
            <==> claim == Some(id) && Delivered(w, reg, claim, f) && outcome.Succeeded?
    ensures claim == Some(id) && Delivered(w, reg, claim, f) && outcome.Succeeded?
            ==> Step(w, reg, now, later, claim, outcome, f).world.app == w.app + outcome.writes
  {
  }

  /**
   * A claimed row whose consumer name is not registered is dead-lettered
   * with the "consumer not found" reason and otherwise kept as it was,
   * unless the update or the commit fails.
   */
  lemma OrphanRecorded(w: World, reg: Registry, now: int, later: int, id: int, outcome: Outcome, f: Faults)
    requires ValidClaim(w.queue, now, Some(id))
    requires w.queue[id].consumerName !in reg
    requires !f.begin && !f.query
    ensures var r := Step(w, reg, now, later, Some(id), outcome, f);
            && !r.sleep && r.world.app == w.app
            && (f.exec || f.commit ==> r.world == w)
            && (!f.exec && !f.commit ==> r.world.queue == w.queue[id := Orphaned(w.queue[id])])
  {
  }

  /**
   * The returns that skip the commit, or whose commit cannot succeed, leave
   * the database as it was: a failed begin or claim query, nothing to
   * claim, a failed nested begin, a failed nested rollback, and a failed
   * statement or commit of the outer transaction.
   */
  lemma AbortedStepChangesNothing(w: World, reg: Registry, now: int, later: int, claim: Option<int>, outcome: Outcome, f: Faults)
    requires ValidClaim(w.queue, now, claim)
    requires || f.begin || f.query || claim.None? || f.exec || f.commit
             || (w.queue[claim.value].consumerName in reg && f.nestedBegin)
             || (w.queue[claim.value].consumerName in reg && outcome.Failed? && f.nestedRollback)
    ensures Step(w, reg, now, later, claim, outcome, f).world == w
  {
  }

  /** The writes of a consumer that failed never reach the database. */
  lemma FailedWritesDiscarded(w: World, reg: Registry, now: int, later: int, claim: Option<int>, outcome: Outcome, f: Faults)
    requires ValidClaim(w.queue, now, claim)
    requires outcome.Failed?
    ensures Step(w, reg, now, later, claim, outcome, f).world.app == w.app
  {
  }

  /** A dead-lettered row is never claimed again, so no step changes it. */
  lemma DeadRowsUntouched(w: World, reg: Registry, now: int, later: int, claim: Option<int>, outcome: Outcome, f: Faults, id: int)
    requires ValidClaim(w.queue, now, claim)
    requires id in w.queue && w.queue[id].isDead
    ensures id in Step(w, reg, now, later, claim, outcome, f).world.queue
    ensures Step(w, reg, now, later, claim, outcome, f).world.queue[id] == w.queue[id]
  {
  }

  /**
   * A surviving row's retry count grows by at most one per step, and a dead
   * row stays dead.
   */
  lemma RetryMonotone(w: World, reg: Registry, now: int, later: int, claim: Option<int>, outcome: Outcome, f: Faults, id: int)
    requires ValidClaim(w.queue, now, claim)
    requires id in Step(w, reg, now, later, claim, outcome, f).world.queue
    ensures id in w.queue
    ensures w.queue[id].retry <= Step(w, reg, now, later, claim, outcome, f).world.queue[id].retry <= w.queue[id].retry + 1
    ensures w.queue[id].isDead ==> Step(w, reg, now, later, claim, outcome, f).world.queue[id].isDead
  {
  }

  /**
   * A recorded failure counts one more attempt: the row dead-letters with
   * the consumer's error once `retry + 1` reaches MaxRetry, and otherwise
   * waits out the back-off for its old retry count from `later`, keeping its
   * previous failure reason.
   */
  lemma FailureRecorded(w: World, reg: Registry, now: int, later: int, id: int, reason: string, writes: App)
    requires ValidClaim(w.queue, now, Some(id))
    requires w.queue[id].consumerName in reg
    ensures id in Step(w, reg, now, later, Some(id), Failed(reason, writes), NoFaults).world.queue
    ensures var row, row' := w.queue[id], Step(w, reg, now, later, Some(id), Failed(reason, writes), NoFaults).world.queue[id];
            && row'.retry == row.retry + 1
            && (row'.isDead <==> row.retry + 1 >= MaxRetry)
            && (row'.isDead ==> row'.failedReason == Some(reason) && row'.checkAt == row.checkAt)
            && (!row'.isDead ==> row'.failedReason == row.failedReason && row'.checkAt == later + RetryDelay[row.retry])
  {
  }

  /**
   * A failed attempt makes its row ineligible until its back-off has passed:
   * with the update's clock no earlier than the claim's, the row cannot be
   * claimed again at the claim's own time.
   */
  lemma FailedNotReclaimedAtOnce(w: World, reg: Registry, now: int, later: int, id: int, reason: string, writes: App, t: int)
    requires ValidClaim(w.queue, now, Some(id))
    requires w.queue[id].consumerName in reg
    requires now <= later
    ensures id in Step(w, reg, now, later, Some(id), Failed(reason, writes), NoFaults).world.queue
    ensures var row' := Step(w, reg, now, later, Some(id), Failed(reason, writes), NoFaults).world.queue[id];
            Eligible(row', t) <==> !row'.isDead && t > later + RetryDelay[w.queue[id].retry]
    ensures !Eligible(Step(w, reg, now, later, Some(id), Failed(reason, writes), NoFaults).world.queue[id], now)
  {
    FailureRecorded(w, reg, now, later, id, reason, writes);
  }

  lemma StepKeepsRetriesBounded(w: World, reg: Registry, now: int, later: int, claim: Option<int>, outcome: Outcome, f: Faults)
    requires ValidClaim(w.queue, now, claim)
    requires RetriesBounded(w.queue)
    ensures RetriesBounded(Step(w, reg, now, later, claim, outcome, f).world.queue)
  {
    var s := Step(w, reg, now, later, claim, outcome, f).world.queue;
    forall id | id in s
      ensures s[id].retry <= MaxRetry && (!s[id].isDead ==> s[id].retry < MaxRetry)
    {
      RetryMonotone(w, reg, now, later, claim, outcome, f, id);
    }
  }

  /**
   * The back-off is looked up only on the live branch, `retry + 1 < MaxRetry`,
   * so with a retry count of at most 3: the one-hour entry and the ten-second
   * fallback are never used, and a retried row waits 2, 10, 60 or 1800 seconds.
   */
  lemma BackoffUsedBelowFour(w: World, id: int, now: int)
    requires ValidClaim(w.queue, now, Some(id))
    requires w.queue[id].retry + 1 < MaxRetry
    ensures w.queue[id].retry <= 3 && w.queue[id].retry in RetryDelay
    ensures Backoff(w.queue[id].retry) == RetryDelay[w.queue[id].retry] <= 30 * 60
  {
  }
}
