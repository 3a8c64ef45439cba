# mq: a transactional outbox queue on PostgreSQL, modelled in Dafny

This project models smiletrl/mq, a Go library that delivers messages through a Postgres table (`queues`):

- **Publishing.** A producer publishes a message inside its own database transaction. The message is fanned out as one `queues` row per registered consumer of the message's event. The message therefore reaches the table exactly when the producer's business transaction commits.
- **Delivery.** Delivery workers repeatedly claim one eligible row under `FOR UPDATE SKIP LOCKED` and hand it to its consumer inside a nested transaction. They then record the outcome in the outer transaction:
  - success deletes the row;
  - a failure increments `retry` and pushes `check_at` back by a back-off;
  - the fifth failure marks the row dead, with the consumer's error as `failed_reason`.

The modules follow the Go files:

| module | file | what it holds |
|---|---|---|
| `Messages` | `message.go` | The `MQMessage` envelope: `Encode` (stamping the context's request id), `WithRequestID`, and the `Value`/`Scan` codec. The codec honours `omitempty` and `json.Unmarshal`'s overlay semantics. |
| `Orders` | `order.go` | The order-message builders and accessors. |
| `Contexts` | `context.go` | `NewContext`, which puts a message's request id back into a context. |
| `Registry` | `consumer.go` | The process-wide consumer registry and `RegisterConsumer`. |
| `SqlText` | `provider.go:68` | The `%d` rendering and the `($a, $b, $c)` tuples of the INSERT text. A reader for that text states what the text means. |
| `Provider` | `provider.go` | `innerConsumers` grouping, the INSERT built by `SendMessage`, `SendMessage` itself, and the table effect of the INSERT. |
| `Queue` | `consume.go:14-27`, `consume.go:42-52`, `consume.go:89`, `consume.go:144-147` | The row shape, `MaxRetry`, `RetryDelay`, the fallback delay, and the claim filter. |
| `Consume` | `consume.go:68-171` | `consumeSingleMessage`: one delivery step over the database. |
| `Runs` | `consume.go:54-66` | The worker loop as a sequence of steps. |
| `Wrappers` | (none) | `Option` and `Result`. |

How the model represents the system:

- **Time** is a whole number of seconds. A consumer's `Delay()` and the `RetryDelay` entries are seconds too.
- **The database** is a `World`: the `queues` table as a map from row id to row, plus the consumers' own data as an abstract key/value map.
- **One delivery step** (`Consume.Step`) takes as inputs everything the step cannot decide itself:
  - the clock reading of the claim query (`now`) and the one of the retry update (`later`);
  - which eligible row, if any, the claim query returns. Because of `SKIP LOCKED`, the query may return nothing even when eligible rows exist;
  - what the consumer does: its writes, and its error if any;
  - which database calls fail.
- **Go's map iteration order** decides the order of consumers inside an event group. It appears as a parameter `order`, constrained by `Provider.IsEnumeration`.

Points about the code as written:

- A row is claimable when `check_at < now`: the comparison is strict (`consume.go:89`).
- The claim query has no `ORDER BY`, so rows are not claimed in any particular order. The model lets the query return any eligible row.
- `innerConsumers` has a value receiver, so the assignment `p.consumers = innerConsumers` (`provider.go:49`) is lost. The groups are recomputed on every publish, and `Provider.InnerConsumers` is a function of the current registry.
- Publishing an event without subscribers is always an error (`provider.go:56-58`).
- The back-off is looked up with the retry count *before* the increment (`consume.go:144`). The lookup runs only on the branch where `retry + 1 < MaxRetry` (`consume.go:135`, `consume.go:141`), and retry is never negative, so only counts 0 to 3 ever reach it. As a result, the one-hour entry and the ten-second fallback are never used (`Consume.BackoffUsedBelowFour`).

## Model

| member | source | states |
|---|---|---|
| Messages.Message.Encode | message.go:52-59 | If the context binds `request_id`, the result carries that value as its request id. Otherwise the message is returned unchanged. The event and the order id never change. |
| Messages.Message.Event | message.go:61-63 | The event a message reports is the one its stored document opens with. |
| Messages.Message.WithRequestID | message.go:65-68 | `RequestID()` reads back the id just set, and the event and the order id are unchanged. |
| Messages.Message.RequestID | message.go:70-72 | The request id a message reports is the one its stored document carries, and the document carries it exactly when it is non-empty. |
| Messages.Message.Value | message.go:27-41 | The encoding always holds the event. It holds the request-id member iff the id is non-empty and the order-id member iff the order id is non-zero (`omitempty`), and no other member. |
| Messages.Message.Scan | message.go:43-50 | The decoder fails iff the column is not a byte string, with the text "type assertion to []byte failed". Otherwise the document is overlaid onto the receiver. |
| Messages.LastWithTagSpec | message.go:49 | JSON member semantics of `json.Unmarshal`: a member the document does not mention keeps the receiver's value, and a repeated member takes its last occurrence. |
| Messages.Overlay | message.go:49 | Each field of the decoded message is, independently, the last document member of its kind, or the receiver's value when the document has none. |
| Messages.RoundTrip | message.go:39-50 | Decoding the encoding of any message whose strings are valid Unicode text into the zero message, as a row scan does, gives the message back. This includes omitted empty ids. |
| Messages.ScanKeepsOmitted | message.go:33-50 | Decoding into a non-zero receiver does not restore omitted fields: an empty request id or a zero order id is inherited from the receiver. |
| Messages.EncodeIdempotent | message.go:52-59 | Encoding twice under one context equals encoding once. |
| Orders.NewOrderMessage | order.go:4-8 | A new order message has the given event, an empty request id and order id 0. |
| Orders.OrderMessage | order.go:22-24 | The order view shows the same event, request id and order id as the message. |
| Orders.WithOrderID | order.go:26-29 | `OrderID()` reads back the id just set, and the event and the request id are unchanged. |
| Orders.OrderID | order.go:31-33 | The order id a message reports is the one its stored document carries, and the document carries it exactly when it is non-zero. |
| Orders.WithOrderIdOverwrites | order.go:26-29 | Setting the order id twice keeps only the second value. |
| Orders.BuilderChain | order.go:4-29 | `NewOrderMessage(e).WithOrderID(id)` has event `e`, order id `id` and still no request id. |
| Orders.PublishedOrderReachesConsumer | order.go:4-33 | A built, encoded, stored and scanned order message shows the consumer the producer's event, order id and context request id (empty when the context had none). |
| Contexts.NewContext | context.go:7-13 | `request_id` is bound to exactly the message's request id, even an empty one. Every other binding is kept, and no key other than `request_id` is added. |
| Contexts.EncodeUnderNewContext | context.go:11 | Encoding any message under `NewContext(ctx, m)` only copies `m`'s request id into it. |
| Contexts.ReencodeIsIdentity | context.go:11 | Re-encoding a message under the context built from itself changes nothing. |
| Contexts.EmptyBindingClears | context.go:11 | An empty request id is still bound, so encoding under it clears a non-empty request id. |
| Registry.RegisterConsumer | consumer.go:32-39 | Registration fails iff the name is taken, with the duplicate-name panic and the registry left unchanged. Otherwise it adds exactly that entry and keeps all others. |
| Registry.RegisterGrowsByOne | consumer.go:38 | A successful registration grows the registry by exactly one entry. |
| Registry.Lookup | consume.go:102 | Dispatch-time lookup finds a consumer iff the name is registered, and then finds the registered one. |
| Registry.RegisterPreservesWellKeyed | consumer.go:35-38 | Every key equals its consumer's name, and registration keeps it so. |
| Registry.LookupAfterRegister | consumer.go:35-38 | After a registration, looking up the new name yields the new consumer, and every other name looks up as before. |
| Registry.RegisterAllSucceedsIff | consumer.go:35-38 | Registering a list succeeds iff its names are pairwise new and none is registered yet. The names afterwards are the old ones plus exactly the new ones. |
| Registry.RegisterAllKeepsOld | consumer.go:38 | A successful sequence of registrations keeps every earlier entry. |
| Registry.RegisterAllFinds | consumer.go:38 | After a successful sequence of registrations, every registered consumer is found under its own name. |
| SqlText.Decimal | provider.go:68 | `%d` of a placeholder number is a non-empty digit string without a leading zero. |
| SqlText.DecimalValue | provider.go:68 | The digits of `%d` read back as the number. |
| SqlText.ParseOneTuple | provider.go:68 | The text `($a, $b, $c)` reads back as exactly the triple `(a, b, c)`, whatever follows it after a comma. |
| SqlText.ParseTuplesOfList | provider.go:67-74 | The comma-separated VALUES list of n tuples reads back as tuple j = `($3j+1, $3j+2, $3j+3)`. So placeholders 1 to 3n each occur once, in increasing order, with no trailing comma. |
| SqlText.TuplesSnoc | provider.go:70-73 | Appending `,` and the next tuple extends the list by one tuple. |
| Queue.Backoff | consume.go:144-147 | The back-off is between 2 s and 1 h. It is the 10 s default iff the count is 1 or is not in the table. |
| Queue.BackoffIncreasesOverTable | consume.go:21-27 | The table's delays strictly increase with the retry count. |
| Provider.GroupByEvent | provider.go:41-48 | Every consumer's event has a group, and no group is empty. |
| Provider.InnerConsumers | provider.go:36-51 | For a walk of the registry, every walked consumer's event has a group and no group is empty. Group contents are those of `GroupByEvent`, stated by `Provider.GroupByEventSpec`. The cache at lines 37-39 is never filled (see above), so the groups are always recomputed. |
| Provider.GroupByEventSpec | provider.go:41-48 | The group of an event is exactly that event's subscribers, in walk order. |
| Provider.GroupsPartition | provider.go:41-48 | A consumer is in the group of its own event and in no other, and a group holds only subscribers of its event. |
| Provider.GroupExistsIff | provider.go:41-48 | An event has a group iff some consumer subscribes to it. |
| Provider.Enumerate | provider.go:42 | The walk over the registry lists the registered consumer of each walked name. |
| Provider.RegisteredConsumerIsGrouped | provider.go:41-48 | Whatever the map iteration order, every registered consumer is in the group of its event. |
| Provider.GroupIffSubscribed | provider.go:54-58 | Whatever the iteration order, an event has a group iff some registered consumer subscribes to it. |
| Provider.RowArgsAt | provider.go:75-76 | Arguments 3j, 3j+1 and 3j+2 are consumer j's name, the message and `createdAt + Delay()` of consumer j. |
| Provider.ArgsLayout | provider.go:67-76 | There are 3n arguments, laid out as consumer j's (name, message, check_at) at positions 3j to 3j+2. |
| Provider.BindRun | provider.go:67-76 | Binding tuple j's placeholders to the arguments yields consumer j's row, for every j. |
| Provider.QueryStep | provider.go:68-74 | One loop turn appends tuple i, and a comma unless i is the last, extending the query to tuples 0 to i. |
| Provider.InsertMeaning | provider.go:59-77 | The INSERT text with its arguments, whose count matches the three placeholders per tuple, inserts exactly one row per group member: its name, the identical message, and check_at = createdAt + its delay. |
| Provider.SurplusArgumentRejected | provider.go:78 | The publisher's INSERT with one argument more than its placeholders is refused, as the driver refuses a mismatched count, so the reader accepts only the exact 3n arguments. |
| Provider.BuildInsert | provider.go:59-77 | The loop builds the prefix followed by the n tuples without a trailing comma, and the 3n arguments in consumer order. |
| Provider.SendMessage | provider.go:53-82 | An event without subscribers is the "does not have consumer groups" error and nothing is executed. Otherwise an insert failure comes back wrapped, and success executed a statement that inserts exactly the group's fan-out rows, with exactly three arguments per group member laid out as `Provider.ArgsLayout` states. |
| Provider.ApplyInsert | provider.go:78 | The insert adds one row per new row under fresh ids, with retry 0, live and no failure reason. It keeps all existing rows and adds nothing else. |
| Provider.InsertKeepsRetriesBounded | provider.go:78 | Published rows start with retry 0 and live, so publishing keeps the retry-count invariant that every delivery step then preserves. |
| Provider.PublishedRowBecomesEligible | consume.go:89 | A freshly published row can be claimed at time t iff its delay has passed: `createdAt + Delay() < t`. |
| Consume.Commit | consume.go:152-155 | The outer transaction's writes take effect iff its statement and its commit both succeed. |
| Consume.Retried | consume.go:135-150 | A recorded failure adds one to retry. The row is dead iff it was dead or `retry + 1 >= MaxRetry`. On the dead path `failed_reason` becomes the consumer's error and `check_at` is kept; otherwise `check_at` becomes the update's clock reading plus the back-off for the old retry count and `failed_reason` is kept. Name, message and creation time are kept. |
| Consume.Orphaned | consume.go:106-107 | A row with an unregistered consumer becomes dead with reason "consumer not found". Its retry, check_at, message, consumer name and creation time are kept: only is_dead and failed_reason change. |
| Consume.Step | consume.go:68-171 | The worker sleeps iff `Begin` failed or the claim query succeeded with no row. No row is added, and every row but the claimed one is unchanged. |
| Consume.DeletedIffDelivered | consume.go:159-170 | A row leaves the table iff it was claimed, its consumer is registered and succeeded, and the delete and the commit went through. The consumer's writes are then committed with the delete. |
| Consume.OrphanRecorded | consume.go:102-115 | An unregistered consumer name dead-letters the claimed row with "consumer not found", unless the update or the commit fails. The worker does not sleep. |
| Consume.AbortedStepChangesNothing | consume.go:79-164 | A failed begin, a failed claim query, nothing claimed, a failed nested begin, a failed nested rollback, or a failed statement or commit leaves the database unchanged. |
| Consume.FailedWritesDiscarded | consume.go:126-134 | A failing consumer's writes never reach the database. |
| Consume.DeadRowsUntouched | consume.go:89 | A dead row is never claimed, so no step changes it. |
| Consume.RetryMonotone | consume.go:135-150 | A surviving row's retry grows by at most one per step and never decreases, and a dead row stays dead. |
| Consume.FailureRecorded | consume.go:135-150 | A committed failure adds one to retry. The row dies iff `retry + 1 >= MaxRetry`, and then gets the consumer's error. Otherwise `check_at = later + RetryDelay[retry]` and the reason is unchanged. |
| Consume.FailedNotReclaimedAtOnce | consume.go:143-148 | After a committed failure, the row is claimable at t iff it is live and `t > later + RetryDelay[retry]`. So it is never claimable again at the claim's own time. |
| Consume.StepKeepsRetriesBounded | consume.go:135-150 | Every step keeps the invariant that rows count at most MaxRetry attempts and live rows fewer than MaxRetry. |
| Consume.BackoffUsedBelowFour | consume.go:135-147 | Because the lookup sits on the `retry + 1 < MaxRetry` branch, the back-off is only looked up for counts 0 to 3, which are all in the table and at most 30 minutes. |
| Runs.Run | consume.go:59-65 | The worker loop, one delivery step per tick (by definition the run goes through when every claim is one the claim query could return). Its contract states that a run never adds rows. |
| Runs.RunKeepsDead | consume.go:89 | A dead row stays in the table unchanged, however long the workers run. |
| Runs.RunRetryMonotone | consume.go:135-150 | Over any run, a surviving row's retry never decreases and a dead row never revives. |
| Runs.RunKeepsRetriesBounded | consume.go:135-150 | The retry bound holds throughout any run. |
| Runs.FailuresCount | consume.go:135-150 | k failed attempts add k to retry. The row is dead iff the count reached MaxRetry, and a dead row carries the last error. |
| Runs.AlwaysFailingDeadLetters | consume.go:135-140 | A consumer that always fails drives a fresh row to dead with retry 5 on its fifth attempt, with the last error as `failed_reason`. |
| Runs.FailScheduleRuns | consume.go:89-150 | Claiming the row one second after each back-off is a schedule the claim query allows, for as long as the row lives. |
| Runs.AlwaysFailingRunExists | consume.go:89-150 | Some run of an always-failing consumer does dead-letter a fresh row after MaxRetry attempts. |
| Runs.FailThenSucceed | consume.go:126-170 | A failure followed by a success counts one retry, then deletes the row and commits the consumer's writes. |

## Left out

- Database I/O, SQL execution and row locking are not modelled. Faults are boolean inputs. The claim query's result is an input that must be a live row due before `now`, or nothing. `SKIP LOCKED` concurrency between workers is therefore the freedom of that input, not a modelled scheduler.
- The polling loop's random sleep of 0, 1 or 2 seconds, `rand.Seed`, the one-minute transaction timeout, the deferred `recover` of panics, and logging are left out. They change no persisted state.
- The `consumerMu` mutex is left out, because registration is modelled as a pure function.
- The JSON syntax of the `message` column is left out. A document is the list of its members. Malformed JSON, unknown members and type mismatches inside a byte string are not modelled, and `Scan` of bytes always succeeds.
- `Encode`'s panic when `request_id` is bound to a non-string is left out, because a context holds only string values here.
- Clock readings are whole seconds rather than nanosecond `time.Time` values. The publisher reads the clock once (`createdAt`); a delivery step reads it twice (`now`, `later`).
- The consumer's unit of work is only its outcome: its writes and its error. A consumer that writes to `queues` itself is not modelled, and neither is one that changes the `*MQMessage` it is handed (the change is never persisted).
- The `queues` column defaults (retry 0, is_dead false, failed_reason null, created_at now) come from the table schema. The schema file is not part of this model.
- Row ids are given to `Provider.ApplyInsert` as a fresh starting id above all existing ids. The sequence itself is not modelled.
- Messages.RoundTrip: speaks only of messages whose strings are valid Unicode text, because strings are modelled as sequences of Unicode characters. Go strings are byte strings, and `json.Marshal` (`message.go:40`) replaces invalid UTF-8 with U+FFFD, so a request id holding such bytes does not come back unchanged; that replacement is not modelled.
- `Encode`, `WithRequestID` and `WithOrderID` have pointer receivers in Go: they change the message in place and return the same pointer, so every alias sees the change. The model returns a new value instead. Nothing in the publishing or delivery path depends on the aliasing, because producers use the chained result.
- `retry` is a natural number and the order id an `int64`. Overflow of Go's `int` retry counter cannot happen, because a row dies at retry 5.
