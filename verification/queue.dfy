/**
 * The `queues` table: the row shape, the delivery policy constants and the
 * claim eligibility rule.  Time is counted in whole seconds.
 */
module Queue {
  import opened Wrappers
  import opened Messages

  /** `failed_reason` of a row whose consumer name is not registered. */
  const ConsumerNotFound: string := "consumer not found"

  /** A failed attempt that brings `retry + 1` up to this bound dead-letters the row. */
  const MaxRetry: nat := 5

  /** Back-off after a failed attempt, indexed by the row's retry count before the attempt. */
  const RetryDelay: map<int, int> := map[0 := 2, 1 := 10, 2 := 60, 3 := 30 * 60, 4 := 60 * 60]

  /** Back-off for a retry count the table does not list. */
  const DefaultRetryDelay: int := 10

  /**
   * One queue row; its `id` is the key it is stored under.  `message` is the
   * envelope as a row scan decodes it.
   */
  datatype Row = Row(
    consumerName: string,
    message: Message,
    retry: nat,
    isDead: bool,
    failedReason: Option<string>,
    checkAt: int,
    createdAt: int)

  type Store = map<int, Row>

  /**
   * The engine's retry-count invariant: no row counts more than MaxRetry
   * attempts, and a live row fewer than MaxRetry.
   */
  ghost predicate RetriesBounded(store: Store) {
    forall id :: id in store ==> store[id].retry <= MaxRetry && (!store[id].isDead ==> store[id].retry < MaxRetry)
  }

  /** The claim query's filter: `is_dead = false and check_at < now`. */
  predicate Eligible(row: Row, now: int) {
    !row.isDead && row.checkAt < now
  }

  /** The back-off looked up in the table, with the fallback for counts it does not list. */
  function Backoff(retry: int): (d: int)
    ensures 2 <= d <= 60 * 60
    ensures d == DefaultRetryDelay <==> retry == 1 || retry !in RetryDelay
  {
    if retry in RetryDelay then RetryDelay[retry] else DefaultRetryDelay
  }

  /** The table grows strictly over the counts it lists. */
  lemma BackoffIncreasesOverTable(i: int, j: int)
    requires 0 <= i < j <= 4
    ensures Backoff(i) < Backoff(j)
  {
  }
}
