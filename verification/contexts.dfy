/** Restoring a message's request id into a context, so a consumer can trace it. */
module Contexts {
  import opened Messages

  /** Binds `request_id` to the message's request id, even when that id is empty. */
  function NewContext(ctx: Context, msg: Message): (r: Context)
    ensures RequestIdKey in r && r[RequestIdKey] == msg.RequestID()
    ensures forall k :: k in ctx && k != RequestIdKey ==> k in r && r[k] == ctx[k]
    ensures r.Keys == ctx.Keys + {RequestIdKey}
  {
    ctx[RequestIdKey := msg.RequestID()]
  }

  /** Encoding any message under `NewContext(ctx, m)` copies `m`'s request id and nothing else. */
  lemma EncodeUnderNewContext(ctx: Context, m: Message, other: Message)
    ensures other.Encode(NewContext(ctx, m)) == other.WithRequestID(m.RequestID())
  {
  }

  /** A message re-encoded under the context built from itself is unchanged. */
  lemma ReencodeIsIdentity(ctx: Context, m: Message)
    ensures m.Encode(NewContext(ctx, m)) == m
  {
  }

  /**
   * Because the binding is made even for an empty id, encoding under a context
   * built from a message without a request id clears the request id of the
   * message being encoded.
   */
  lemma EmptyBindingClears(ctx: Context, m: Message, other: Message)
    requires m.RequestID() == "" && other.RequestID() != ""
    ensures other.Encode(NewContext(ctx, m)).RequestID() == ""
  {
  }
}
