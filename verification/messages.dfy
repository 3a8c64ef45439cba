/**
 * The message envelope (`MQMessage`) and its persisted form.
 *
 * A message carries an event tag, an optional correlation id and an optional
 * order id.  It is stamped with the ambient request id by `Encode` and is
 * stored in the `message` column through the `Value`/`Scan` codec.  The JSON
 * text itself is abstracted to a `Document`: the list of fields the encoder
 * writes, in order, honouring the `omitempty` tags.
 */
module Messages {
  import opened Wrappers

  /** Both the JSON name of the correlation field and the context key it is read from. */
  const RequestIdKey: string := "request_id"

  /** Error text of `Scan` when the driver hands it anything but a byte string. */
  const ScanTypeError: string := "type assertion to []byte failed"

  /** Go's `int64`, the type of `MQOrderID`. */
  type Int64 = x: int | -0x8000_0000_0000_0000 <= x < 0x8000_0000_0000_0000

  /** The ambient context, reduced to its string-valued bindings. */
  type Context = map<string, string>

  /** One JSON member of the encoded message. */
  datatype Field =
    | EventField(event: string)
    | RequestIdField(requestId: string)
    | OrderIdField(orderId: Int64)
  {
    /** Which JSON member this is, irrespective of its value. */
    function Tag(): nat {
      match this
      case EventField(_) => 0
      case RequestIdField(_) => 1
      case OrderIdField(_) => 2
    }
  }

  /** The encoded message: its JSON members in document order. */
  type Document = seq<Field>

  /** What the database driver hands to `Scan`: the `jsonb` bytes, or some other value. */
  datatype Column = Bytes(doc: Document) | NotBytes

  datatype Message = Message(mqEvent: string, mqRequestId: string, mqOrderId: Int64)
  {
    /** The subscribed event this message is published under; the stored document always opens with it. */
    function Event(): (r: string)
      ensures Value().doc[0] == EventField(r)
    {
      mqEvent
    }

    /** The correlation id, which the stored document carries exactly when it is non-empty. */
    function RequestID(): (r: string)
      ensures RequestIdField(r) in Value().doc <==> r != ""
      ensures forall x :: RequestIdField(x) in Value().doc ==> x == r
    {
      mqRequestId
    }

    /** Stamps the context's `request_id` binding, when there is one, into the message. */
    function Encode(ctx: Context): (r: Message)
      ensures RequestIdKey in ctx ==> r.RequestID() == ctx[RequestIdKey]
      ensures RequestIdKey !in ctx ==> r == this
      ensures r.Event() == Event() && r.mqOrderId == mqOrderId
    {
      if RequestIdKey in ctx then this.(mqRequestId := ctx[RequestIdKey]) else this
    }

    function WithRequestID(requestId: string): (r: Message)
      ensures r.RequestID() == requestId
      ensures r.Event() == Event() && r.mqOrderId == mqOrderId
    {
      this.(mqRequestId := requestId)
    }

    /** The encoder: the event always, the other two fields only when non-zero. */
    function Value(): (v: Column)
      ensures v.Bytes? && |v.doc| > 0 && v.doc[0] == EventField(mqEvent)
      ensures RequestIdField(mqRequestId) in v.doc <==> mqRequestId != ""
      ensures OrderIdField(mqOrderId) in v.doc <==> mqOrderId != 0
      ensures forall f :: f in v.doc ==>
                f == EventField(mqEvent) || f == RequestIdField(mqRequestId) || f == OrderIdField(mqOrderId)
    {
      Bytes([EventField(mqEvent)]
            + (if mqRequestId == "" then [] else [RequestIdField(mqRequestId)])
            + (if mqOrderId == 0 then [] else [OrderIdField(mqOrderId)]))
    }

    /**
     * The decoder.  Like `json.Unmarshal` into an existing struct, it only
     * overwrites the fields the document mentions; the receiver supplies the rest.
     */
    function Scan(value: Column): (r: Result<Message, string>)
      ensures value.NotBytes? <==> r.Failure?
      ensures r.Failure? ==> r.error == ScanTypeError
      ensures r.Success? ==> r.value == Overlay(this, value.doc)
    {
      if value.Bytes? then Success(Overlay(this, value.doc)) else Failure(ScanTypeError)
    }
  }

  /** The zero `MQMessage` that a fresh row scan decodes into. */
  const Zero: Message := Message("", "", 0)

  function Apply(m: Message, f: Field): Message {
    match f
    case EventField(e) => m.(mqEvent := e)
    case RequestIdField(id) => m.(mqRequestId := id)
    case OrderIdField(id) => m.(mqOrderId := id)
  }

  ghost predicate IsLast(doc: Document, i: int)
    requires 0 <= i < |doc|
  {
    forall j :: i < j < |doc| ==> doc[j].Tag() != doc[i].Tag()
  }

  /** The last member of `doc` with the given tag, or `default` when there is none. */
  function LastWithTag(doc: Document, tag: nat, default: Field): (f: Field)
    requires default.Tag() == tag
    ensures f.Tag() == tag
    ensures f == default || f in doc
  {
    if |doc| == 0 then default
    else if doc[|doc| - 1].Tag() == tag then doc[|doc| - 1]
    else LastWithTag(doc[..|doc| - 1], tag, default)
  }

  /** JSON decoding semantics per member: absent keeps the default, repeated takes the last. */
  lemma {:induction false} LastWithTagSpec(doc: Document, tag: nat, default: Field)
    requires default.Tag() == tag
    ensures (forall i :: 0 <= i < |doc| ==> doc[i].Tag() != tag) ==> LastWithTag(doc, tag, default) == default
    ensures forall i :: 0 <= i < |doc| && doc[i].Tag() == tag && IsLast(doc, i) ==>
              LastWithTag(doc, tag, default) == doc[i]
  {
    if |doc| > 0 {
      var pre := doc[..|doc| - 1];
      LastWithTagSpec(pre, tag, default);
      forall i | 0 <= i < |doc| - 1 && doc[i].Tag() == tag && IsLast(doc, i)
        ensures IsLast(pre, i)
      {
      }
    }
  }

  /**
   * Decoding a document onto `m`: each of the three members is decoded on its
   * own, keeping `m`'s value when the document does not mention it.
   */
  function Overlay(m: Message, doc: Document): (r: Message)
    ensures r.mqEvent == LastWithTag(doc, 0, EventField(m.mqEvent)).event
    ensures r.mqRequestId == LastWithTag(doc, 1, RequestIdField(m.mqRequestId)).requestId
    ensures r.mqOrderId == LastWithTag(doc, 2, OrderIdField(m.mqOrderId)).orderId
    decreases |doc|
  {
    if |doc| == 0 then m else Apply(Overlay(m, doc[..|doc| - 1]), doc[|doc| - 1])
  }

  /** Codec round trip: decoding the encoding of a message into a zero message gives it back. */
  lemma RoundTrip(m: Message)
    ensures Zero.Scan(m.Value()) == Success(m)
  {
    ScanKeepsOmitted(Zero, m);
  }

  /**
   * Decoding into a message that is not zero: the omitted empty request id and
   * zero order id are not restored but inherited from the receiver.
   */
  lemma ScanKeepsOmitted(prior: Message, m: Message)
    ensures prior.Scan(m.Value()).Success?
    ensures prior.Scan(m.Value()).value.Event() == m.Event()
    ensures prior.Scan(m.Value()).value.RequestID()
            == if m.mqRequestId == "" then prior.mqRequestId else m.mqRequestId
    ensures prior.Scan(m.Value()).value.mqOrderId
            == if m.mqOrderId == 0 then prior.mqOrderId else m.mqOrderId
  {
    var e, q, o := EventField(m.mqEvent), RequestIdField(m.mqRequestId), OrderIdField(m.mqOrderId);
    var doc := m.Value().doc;
    if m.mqRequestId == "" && m.mqOrderId == 0 {
      assert doc == [e];
    } else if m.mqRequestId == "" {
      assert doc == [e, o];
    } else if m.mqOrderId == 0 {
      assert doc == [e, q];
    } else {
      assert doc == [e, q, o];
      LastWithTagSpec(doc, 0, EventField(prior.mqEvent));
      assert IsLast(doc, 0);
    }
  }

  /** Encoding twice under the same context is encoding once. */
  lemma EncodeIdempotent(m: Message, ctx: Context)
    ensures m.Encode(ctx).Encode(ctx) == m.Encode(ctx)
  {
  }
}
