/** The order-message builder: an `MQMessage` seen through its order-id accessors. */
module Orders {
  import opened Messages

  /** A fresh order message for event `e`: no request id, order id 0. */
  function NewOrderMessage(e: string): (m: Message)
    ensures m.Event() == e && m.RequestID() == "" && OrderID(m) == 0
  {
    Message(e, "", 0)
  }

  /** The view a consumer takes of a decoded message: the very same message. */
  function OrderMessage(m: Message): (r: Message)
    ensures r.Event() == m.Event() && r.RequestID() == m.RequestID() && OrderID(r) == OrderID(m)
  {
    m
  }

  function WithOrderID(m: Message, orderId: Int64): (r: Message)
    ensures OrderID(r) == orderId
    ensures r.Event() == m.Event() && r.RequestID() == m.RequestID()
  {
    m.(mqOrderId := orderId)
  }

  /** The order id, which the stored document carries as its `order_id` member exactly when it is non-zero. */
  function OrderID(m: Message): (r: Int64)
    ensures OrderIdField(r) in m.Value().doc <==> r != 0
    ensures forall x :: OrderIdField(x) in m.Value().doc ==> x == r
  {
    m.mqOrderId
  }

  /** Setting the order id twice keeps only the second value. */
  lemma WithOrderIdOverwrites(m: Message, a: Int64, b: Int64)
    ensures WithOrderID(WithOrderID(m, a), b) == WithOrderID(m, b)
  {
  }

  /** The builder chain used by producers, before `Encode` stamps the request id. */
  lemma BuilderChain(e: string, orderId: Int64)
    ensures WithOrderID(NewOrderMessage(e), orderId) == Message(e, "", orderId)
  {
  }

  /**
   * Producer to consumer: a built and encoded message, stored and scanned into
   * the zero message a row scan starts from, shows the consumer the event, the
   * order id and the request id that was in the producer's context.
   */
  lemma PublishedOrderReachesConsumer(e: string, orderId: Int64, ctx: Context)
    ensures Zero.Scan(WithOrderID(NewOrderMessage(e), orderId).Encode(ctx).Value()).Success?
    ensures var m := OrderMessage(Zero.Scan(WithOrderID(NewOrderMessage(e), orderId).Encode(ctx).Value()).value);
            && m.Event() == e
            && OrderID(m) == orderId
            && m.RequestID() == if RequestIdKey in ctx then ctx[RequestIdKey] else ""
  {
    RoundTrip(WithOrderID(NewOrderMessage(e), orderId).Encode(ctx));
  }
}
