/**
 * Publishing: the registered consumers grouped by the event they subscribe
 * to, and the single multi-row INSERT that fans one message out to every
 * consumer of its event, inside the caller's transaction.
 */
module Provider {
  import opened Wrappers
  import opened Messages
  import opened Registry
  import opened SqlText
  import opened Queue

  /** The consumers of `cs` that subscribe to `e`, in the order of `cs`. */
  function Subscribers(cs: seq<Consumer>, e: string): (r: seq<Consumer>)
    ensures forall c :: c in r <==> c in cs && c.event == e
    ensures |r| <= |cs|
  {
    if |cs| == 0 then []
    else
      var last := cs[|cs| - 1];
      Subscribers(cs[..|cs| - 1], e) + if last.event == e then [last] else []
  }

  /**
   * Grouping by event as the publisher does: walking the consumers in order,
   * start a group for an unseen event and append to it otherwise.
   */
  function GroupByEvent(cs: seq<Consumer>): (g: map<string, seq<Consumer>>)
    ensures forall c :: c in cs ==> c.event in g
    ensures forall e :: e in g ==> |g[e]| > 0
  {
    if |cs| == 0 then map[]
    else
      var g := GroupByEvent(cs[..|cs| - 1]);
      var c := cs[|cs| - 1];
      if c.event in g then g[c.event := g[c.event] + [c]] else g[c.event := [c]]
  }

  /**
   * The groups are exactly the non-empty per-event subscriber lists: an event
   * has a group iff some consumer subscribes to it, and its group lists those
   * consumers in walk order.
   */
  lemma {:induction false} GroupByEventSpec(cs: seq<Consumer>)
    ensures forall c :: c in cs ==> c.event in GroupByEvent(cs)
    ensures forall e :: e in GroupByEvent(cs) ==>
              GroupByEvent(cs)[e] == Subscribers(cs, e) && |GroupByEvent(cs)[e]| > 0
  {
    if |cs| > 0 {
      var pre := cs[..|cs| - 1];
      var c := cs[|cs| - 1];
      GroupByEventSpec(pre);
      SubscribersSnoc(cs);
      var g := GroupByEvent(pre);
      var g' := GroupByEvent(cs);
      assert g' == if c.event in g then g[c.event := g[c.event] + [c]] else g[c.event := [c]];
      forall d | d in cs
        ensures d.event in g'
      {
        if d != c {
          assert d in pre;
        }
      }
      forall e | e in g'
        ensures g'[e] == Subscribers(cs, e) && |g'[e]| > 0
      {
        if e == c.event && c.event !in g {
          SubscribersNone(pre, e);
        }
      }
    }
  }

  lemma {:induction false} SubscribersNone(cs: seq<Consumer>, e: string)
    requires forall c :: c in cs ==> c.event != e
    ensures Subscribers(cs, e) == []
  {
    if |cs| > 0 {
      SubscribersNone(cs[..|cs| - 1], e);
    }
  }

  lemma SubscribersSnoc(cs: seq<Consumer>)
    requires |cs| > 0
    ensures forall e :: Subscribers(cs, e)
              == if cs[|cs| - 1].event == e then Subscribers(cs[..|cs| - 1], e) + [cs[|cs| - 1]]
                 else Subscribers(cs[..|cs| - 1], e)
  {
    forall e
      ensures Subscribers(cs, e)
              == if cs[|cs| - 1].event == e then Subscribers(cs[..|cs| - 1], e) + [cs[|cs| - 1]]
                 else Subscribers(cs[..|cs| - 1], e)
    {
      assert Subscribers(cs[..|cs| - 1], e) + [] == Subscribers(cs[..|cs| - 1], e);
    }
  }

  /**
   * Every consumer lands in exactly one group, the one of its own event, and
   * no group is empty or holds a stranger.
   */
  lemma GroupsPartition(cs: seq<Consumer>, c: Consumer, e: string)
    requires c in cs
    requires e in GroupByEvent(cs)
    ensures c in GroupByEvent(cs)[c.event]
    ensures c in GroupByEvent(cs)[e] <==> e == c.event
    ensures forall d :: d in GroupByEvent(cs)[e] ==> d in cs && d.event == e
  {
    GroupByEventSpec(cs);
  }

  /** An event has a group exactly when some consumer subscribes to it. */
  lemma GroupExistsIff(cs: seq<Consumer>, e: string)
    ensures e in GroupByEvent(cs) <==> exists c :: c in cs && c.event == e
  {
    GroupByEventSpec(cs);
    if e in GroupByEvent(cs) {
      var g := GroupByEvent(cs)[e];
      assert g[0] in g;
    }
  }

  /** A walk of the registry's keys, in the (unspecified) order Go's map iteration yields them. */
  ghost predicate IsEnumeration(reg: Registry, order: seq<string>) {
    && (forall i :: 0 <= i < |order| ==> order[i] in reg)
    && (forall i, j :: 0 <= i < j < |order| ==> order[i] != order[j])
    && (forall k :: k in reg ==> k in order)
  }

  function Enumerate(reg: Registry, order: seq<string>): (cs: seq<Consumer>)
    requires forall i :: 0 <= i < |order| ==> order[i] in reg
    ensures |cs| == |order|
    ensures forall i :: 0 <= i < |order| ==> cs[i] == reg[order[i]]
  {
    if |order| == 0 then [] else Enumerate(reg, order[..|order| - 1]) + [reg[order[|order| - 1]]]
  }

  /** The publisher's event groups for a registry walked in `order`. */
  function InnerConsumers(reg: Registry, order: seq<string>): (g: map<string, seq<Consumer>>)
    requires forall i :: 0 <= i < |order| ==> order[i] in reg
    ensures forall i :: 0 <= i < |order| ==> reg[order[i]].event in g
    ensures forall e :: e in g ==> |g[e]| > 0
  {
    GroupByEvent(Enumerate(reg, order))
  }

  /** Whatever the walk order, each registered consumer is in the group of its event. */
  lemma RegisteredConsumerIsGrouped(reg: Registry, order: seq<string>, k: string)
    requires IsEnumeration(reg, order)
    requires k in reg
    ensures reg[k].event in InnerConsumers(reg, order)
    ensures reg[k] in InnerConsumers(reg, order)[reg[k].event]
  {
    var i :| 0 <= i < |order| && order[i] == k;
    assert Enumerate(reg, order)[i] == reg[k];
    GroupByEventSpec(Enumerate(reg, order));
  }

  /** One bound value of the INSERT. */
  datatype Arg = NameArg(name: string) | MessageArg(message: Message) | TimeArg(at: int)

  /** The INSERT text and its positional arguments, as handed to `tx.Exec`. */
  datatype Statement = Statement(query: string, args: seq<Arg>)

  /** A row as the INSERT supplies it; the table's defaults fill in the rest. */
  datatype NewRow = NewRow(consumerName: string, message: Message, checkAt: int)

  const InsertPrefix: string := "insert into queues(consumer_name, message, check_at) values"

  /** The two errors publishing returns. */
  datatype PublishError =
    | NoConsumerGroups(event: string)
    | InsertFailed(cause: string)
  {
    /** The error text the caller sees. */
    function Text(): string {
      match this
      case NoConsumerGroups(e) => "mq event: " + e + " does not have consumer groups"
      case InsertFailed(cause) => "error inserting message queue: " + cause
    }
  }

  /** The arguments for the first `n` consumers of `cs`, three per consumer. */
  function RowArgs(cs: seq<Consumer>, n: nat, msg: Message, createdAt: int): (args: seq<Arg>)
    requires n <= |cs|
    ensures |args| == 3 * n
  {
    if n == 0 then []
    else
      var c := cs[n - 1];
      RowArgs(cs, n - 1, msg, createdAt) + [NameArg(c.name), MessageArg(msg), TimeArg(createdAt + c.delay)]
  }

  /** One more consumer appends its three arguments. */
  lemma RowArgsStep(cs: seq<Consumer>, i: nat, msg: Message, createdAt: int)
    requires i < |cs|
    ensures RowArgs(cs, i + 1, msg, createdAt)
            == RowArgs(cs, i, msg, createdAt) + [NameArg(cs[i].name), MessageArg(msg), TimeArg(createdAt + cs[i].delay)]
  {
  }

  lemma {:induction false} RowArgsAt(cs: seq<Consumer>, n: nat, msg: Message, createdAt: int, j: nat)
    requires j < n <= |cs|
    ensures RowArgs(cs, n, msg, createdAt)[3 * j] == NameArg(cs[j].name)
    ensures RowArgs(cs, n, msg, createdAt)[3 * j + 1] == MessageArg(msg)
    ensures RowArgs(cs, n, msg, createdAt)[3 * j + 2] == TimeArg(createdAt + cs[j].delay)
  {
    if j < n - 1 {
      RowArgsAt(cs, n - 1, msg, createdAt, j);
    }
  }

  /** The rows a publish should produce: one per subscriber, check_at = createdAt + delay. */
  function FanOut(cs: seq<Consumer>, msg: Message, createdAt: int): (rows: seq<NewRow>)
    ensures |rows| == |cs|
  {
    seq(|cs|, j requires 0 <= j < |cs| => NewRow(cs[j].name, msg, createdAt + cs[j].delay))
  }

  /** Binds one tuple's placeholders (1-based) to the arguments; a kind mismatch is an error. */
  function BindTuple(t: Triple, args: seq<Arg>): Option<NewRow> {
    if 1 <= t.a <= |args| && 1 <= t.b <= |args| && 1 <= t.c <= |args|
       && args[t.a - 1].NameArg? && args[t.b - 1].MessageArg? && args[t.c - 1].TimeArg?
    then Some(NewRow(args[t.a - 1].name, args[t.b - 1].message, args[t.c - 1].at))
    else None
  }

  function BindAll(ts: seq<Triple>, args: seq<Arg>): Option<seq<NewRow>> {
    if |ts| == 0 then Some([])
    else
      var row :- BindTuple(ts[0], args);
      var rest :- BindAll(ts[1..], args);
      Some([row] + rest)
  }

  /**
   * The rows a statement inserts, read off its text and arguments; None if it
   * is malformed or, as the driver refuses, its argument count differs from
   * the three placeholders per tuple.
   */
  function Interpret(st: Statement): Option<seq<NewRow>> {
    var values :- Expect(st.query, InsertPrefix);
    var ts :- ParseTuples(values);
    if |st.args| != 3 * |ts| then None else BindAll(ts, st.args)
  }

  /** The publisher's INSERT is refused once it carries one argument more than its placeholders. */
  lemma SurplusArgumentRejected(group: seq<Consumer>, msg: Message, createdAt: int, extra: Arg)
    requires |group| > 0
    ensures Interpret(Statement(InsertPrefix + Tuples(0, |group|), RowArgs(group, |group|, msg, createdAt) + [extra])).None?
  {
    ExpectLiteral(InsertPrefix, Tuples(0, |group|));
    ParseTuplesOfList(0, |group|);
    ArgsLayout(group, msg, createdAt);
  }

  /** Tuple i binds to consumer i's row. */
  lemma BindOne(cs: seq<Consumer>, msg: Message, createdAt: int, i: nat)
    requires i < |cs|
    ensures BindTuple(Placeholders(i), RowArgs(cs, |cs|, msg, createdAt)) == Some(FanOut(cs, msg, createdAt)[i])
  {
    RowArgsAt(cs, |cs|, msg, createdAt, i);
  }

  /** Binding a list binds its head, then its tail. */
  lemma BindCons(t: Triple, ts: seq<Triple>, args: seq<Arg>, row: NewRow, rows: seq<NewRow>)
    requires BindTuple(t, args) == Some(row)
    requires BindAll(ts, args) == Some(rows)
    ensures BindAll([t] + ts, args) == Some([row] + rows)
  {
    assert ([t] + ts)[1..] == ts;
  }

  lemma {:induction false} BindRun(cs: seq<Consumer>, msg: Message, createdAt: int, i: nat)
    requires i < |cs|
    ensures BindAll(PlaceholderRun(i, |cs|), RowArgs(cs, |cs|, msg, createdAt)) == Some(FanOut(cs, msg, createdAt)[i..])
    decreases |cs| - i
  {
    var args := RowArgs(cs, |cs|, msg, createdAt);
    var rows := FanOut(cs, msg, createdAt);
    BindOne(cs, msg, createdAt, i);
    if i + 1 < |cs| {
      BindRun(cs, msg, createdAt, i + 1);
      BindCons(Placeholders(i), PlaceholderRun(i + 1, |cs|), args, rows[i], rows[i + 1..]);
      assert rows[i..] == [rows[i]] + rows[i + 1..];
    } else {
      BindCons(Placeholders(i), [], args, rows[i], []);
      assert [Placeholders(i)] + [] == PlaceholderRun(i, |cs|);
      assert rows[i..] == [rows[i]] + [];
    }
  }

  /** The VALUES text after the loop has emitted tuples 0 .. i-1 of n. */
  function Emitted(i: nat, n: nat): string
    requires i <= n
  {
    if i == 0 then "" else if i < n then Tuples(0, i) + "," else Tuples(0, n)
  }

  /** One turn of the publishing loop appends tuple i, followed by a comma unless it is the last. */
  lemma EmitStep(i: nat, n: nat)
    requires i < n
    ensures Emitted(i + 1, n) == Emitted(i, n) + Tuple(i) + (if i < n - 1 then "," else "")
  {
    if i == 0 {
      assert Tuples(0, 1) == Tuple(0);
    } else {
      TuplesSnoc(0, i);
    }
  }

  /** The tuple the loop formats from `index` = 3i is tuple i. */
  lemma TupleAt(i: nat, index: nat)
    requires index == 3 * i
    ensures TupleText(Triple(index + 1, index + 2, index + 3)) == Tuple(i)
  {
    assert Triple(index + 1, index + 2, index + 3) == Placeholders(i);
  }

  /** The query text after the loop has emitted tuples 0 .. i-1 of n. */
  function QueryAfter(i: nat, n: nat): string
    requires i <= n
  {
    InsertPrefix + Emitted(i, n)
  }

  /** The text the loop appends in turn i extends the query to tuples 0 .. i. */
  lemma QueryStep(i: nat, n: nat, val: string)
    requires i < n && val == Tuple(i)
    ensures i < n - 1 ==> QueryAfter(i + 1, n) == QueryAfter(i, n) + val + ","
    ensures i == n - 1 ==> QueryAfter(i + 1, n) == QueryAfter(i, n) + val
  {
    EmitStep(i, n);
    Associate(InsertPrefix, Emitted(i, n), val + ",");
    Associate(InsertPrefix, Emitted(i, n), val);
  }

  lemma Associate(a: string, b: string, c: string)
    ensures a + (b + c) == a + b + c
  {
  }

  /** The INSERT text with the three-per-consumer arguments inserts exactly the fan-out rows. */
  lemma InsertMeaning(group: seq<Consumer>, msg: Message, createdAt: int)
    requires |group| > 0
    ensures Interpret(Statement(InsertPrefix + Tuples(0, |group|), RowArgs(group, |group|, msg, createdAt)))
            == Some(FanOut(group, msg, createdAt))
  {
    ExpectLiteral(InsertPrefix, Tuples(0, |group|));
    ParseTuplesOfList(0, |group|);
    ArgsLayout(group, msg, createdAt);
    BindRun(group, msg, createdAt, 0);
    assert FanOut(group, msg, createdAt)[0..] == FanOut(group, msg, createdAt);
  }

  /**
   * Builds the INSERT for one event group the way the publisher's loop does:
   * tuple i is `($3i+1, $3i+2, $3i+3)`, a comma follows every tuple but the
   * last, and arguments 3i .. 3i+2 are consumer i's name, the message and its
   * check_at.  Read back, the statement inserts exactly the fan-out rows.
   */
  method BuildInsert(group: seq<Consumer>, msg: Message, createdAt: int) returns (st: Statement)
    requires |group| > 0
    ensures st.query == InsertPrefix + Tuples(0, |group|)
    ensures st.args == RowArgs(group, |group|, msg, createdAt)
  {
    var query := InsertPrefix;
    var index := 0;
    var args: seq<Arg> := [];
    var i := 0;
    while i < |group|
      invariant 0 <= i <= |group|
      invariant index == 3 * i
      invariant args == RowArgs(group, i, msg, createdAt)
      invariant query == QueryAfter(i, |group|)
    {
      var val := TupleText(Triple(index + 1, index + 2, index + 3));
      TupleAt(i, index);
      QueryStep(i, |group|, val);
      index := index + 3;
      if i < |group| - 1 {
        query := query + val + ",";
      } else {
        query := query + val;
      }
      RowArgsStep(group, i, msg, createdAt);
      args := args + [NameArg(group[i].name), MessageArg(msg), TimeArg(createdAt + group[i].delay)];
      i := i + 1;
    }
    st := Statement(query, args);
  }

  /** Arguments 3j .. 3j+2 are consumer j's name, the message and consumer j's check_at. */
  lemma ArgsLayout(group: seq<Consumer>, msg: Message, createdAt: int)
    ensures |RowArgs(group, |group|, msg, createdAt)| == 3 * |group|
    ensures forall j :: 0 <= j < |group| ==>
              && RowArgs(group, |group|, msg, createdAt)[3 * j] == NameArg(group[j].name)
              && RowArgs(group, |group|, msg, createdAt)[3 * j + 1] == MessageArg(msg)
              && RowArgs(group, |group|, msg, createdAt)[3 * j + 2] == TimeArg(createdAt + group[j].delay)
  {
    forall j | 0 <= j < |group|
      ensures && RowArgs(group, |group|, msg, createdAt)[3 * j] == NameArg(group[j].name)
              && RowArgs(group, |group|, msg, createdAt)[3 * j + 1] == MessageArg(msg)
              && RowArgs(group, |group|, msg, createdAt)[3 * j + 2] == TimeArg(createdAt + group[j].delay)
    {
      RowArgsAt(group, |group|, msg, createdAt, j);
    }
  }

  /** Some registered consumer subscribes to `e`. */
  ghost predicate Subscribed(reg: Registry, e: string) {
    exists k :: k in reg && reg[k].event == e
  }

  /** A subscribed event has a group. */
  lemma SubscribedHasGroup(reg: Registry, order: seq<string>, e: string)
    requires IsEnumeration(reg, order)
    requires Subscribed(reg, e)
    ensures e in InnerConsumers(reg, order)
  {
    var k :| k in reg && reg[k].event == e;
    RegisteredConsumerIsGrouped(reg, order, k);
  }

  /** A group's event has a registered subscriber. */
  lemma GroupIsSubscribed(reg: Registry, order: seq<string>, e: string)
    requires IsEnumeration(reg, order)
    requires e in InnerConsumers(reg, order)
    ensures Subscribed(reg, e)
  {
    var cs := Enumerate(reg, order);
    var i := GroupWitness(cs, e);
    assert order[i] in reg && reg[order[i]].event == e;
  }

  /** A position of the walk that subscribes to a grouped event. */
  lemma GroupWitness(cs: seq<Consumer>, e: string) returns (i: nat)
    requires e in GroupByEvent(cs)
    ensures i < |cs| && cs[i].event == e
  {
    GroupExistsIff(cs, e);
    var c :| c in cs && c.event == e;
    i :| i < |cs| && cs[i] == c;
  }

  /** Whatever the walk order, an event has a group exactly when some registered consumer subscribes to it. */
  lemma GroupIffSubscribed(reg: Registry, order: seq<string>, e: string)
    requires IsEnumeration(reg, order)
    ensures e in InnerConsumers(reg, order) <==> Subscribed(reg, e)
  {
    if Subscribed(reg, e) {
      SubscribedHasGroup(reg, order, e);
    }
    if e in InnerConsumers(reg, order) {
      GroupIsSubscribed(reg, order, e);
    }
  }

  /**
   * Publishes `msg` inside the caller's transaction.  An event no consumer
   * subscribes to is an error naming it and nothing is executed; otherwise
   * the statement is executed once, and an error it reports comes back
   * wrapped.  On success the result is the executed statement.
   */
  method SendMessage(reg: Registry, order: seq<string>, msg: Message, createdAt: int, execError: Option<string>)
    returns (r: Result<Statement, PublishError>)
    requires IsEnumeration(reg, order)
    ensures !Subscribed(reg, msg.Event()) <==> r == Failure(NoConsumerGroups(msg.Event()))
    ensures Subscribed(reg, msg.Event()) && execError.Some? ==> r == Failure(InsertFailed(execError.value))
    ensures r.Success? <==> Subscribed(reg, msg.Event()) && execError.None?
    ensures r.Success? ==>
              && msg.Event() in InnerConsumers(reg, order)
              && Interpret(r.value) == Some(FanOut(InnerConsumers(reg, order)[msg.Event()], msg, createdAt))
              && r.value.args == RowArgs(InnerConsumers(reg, order)[msg.Event()], |InnerConsumers(reg, order)[msg.Event()]|, msg, createdAt)
              && |r.value.args| == 3 * |InnerConsumers(reg, order)[msg.Event()]|
  {
    var event := msg.Event();
    var groups := InnerConsumers(reg, order);
    GroupIffSubscribed(reg, order, event);
    if event !in groups {
      return Failure(NoConsumerGroups(event));
    }
    var st := BuildInsert(groups[event], msg, createdAt);
    InsertMeaning(groups[event], msg, createdAt);
    ArgsLayout(groups[event], msg, createdAt);
    if execError.Some? {
      return Failure(InsertFailed(execError.value));
    }
    return Success(st);
  }

  /** The row the table stores for an inserted `NewRow`, with the column defaults filled in. */
  function Stored(r: NewRow, now: int): Row {
    Row(r.consumerName, r.message, 0, false, None, r.checkAt, now)
  }

  /**
   * The effect of a successful INSERT on the table: row i gets id `firstId + i`
   * and the column defaults (retry 0, live, no failure reason, created now).
   */
  function ApplyInsert(store: Store, firstId: int, rows: seq<NewRow>, now: int): (s: Store)
    requires forall id :: id in store ==> id < firstId
    ensures forall id :: id in store ==> id in s && s[id] == store[id]
    ensures forall id :: firstId <= id < firstId + |rows| ==> id in s && s[id] == Stored(rows[id - firstId], now)
    ensures forall id :: id in s ==> id in store || firstId <= id < firstId + |rows|
  {
    if |rows| == 0 then store
    else
      var pre := rows[..|rows| - 1];
      ApplyInsert(store, firstId, pre, now)[firstId + |pre| := Stored(rows[|pre|], now)]
  }

  /** Published rows start with no attempts and live, so they keep the retry-count invariant. */
  lemma InsertKeepsRetriesBounded(store: Store, firstId: int, rows: seq<NewRow>, now: int)
    requires forall id :: id in store ==> id < firstId
    requires RetriesBounded(store)
    ensures RetriesBounded(ApplyInsert(store, firstId, rows, now))
  {
    var s := ApplyInsert(store, firstId, rows, now);
    forall id | id in s
      ensures s[id].retry <= MaxRetry && (!s[id].isDead ==> s[id].retry < MaxRetry)
    {
      if id !in store {
        assert s[id] == Stored(rows[id - firstId], now);
      }
    }
  }

  /** A freshly published row waits out its consumer's delay, and is claimable right after it. */
  lemma PublishedRowBecomesEligible(store: Store, firstId: int, rows: seq<NewRow>, now: int, i: nat, t: int)
    requires forall id :: id in store ==> id < firstId
    requires i < |rows|
    ensures firstId + i in ApplyInsert(store, firstId, rows, now)
    ensures Eligible(ApplyInsert(store, firstId, rows, now)[firstId + i], t) <==> rows[i].checkAt < t
  {
  }
}
