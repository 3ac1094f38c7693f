/**
 * The request envelope moved through a gateway's queue: the parts of
 * protos.SyncRPCRequest that the queue registry looks at.
 */
module SyncRpc {
  import opened Wrappers

  /** The body of a request; only the destination gateway id is inspected. */
  datatype GatewayRequest = GatewayRequest(gwId: string)

  /** A sync RPC request: its id and its (possibly nil) body. */
  datatype SyncRpcRequest = SyncRpcRequest(reqId: int, reqBody: Option<GatewayRequest>)

  /** An envelope that may enter a queue: present, positive id, a body, a non-empty gateway id. */
  ghost predicate WellFormed(req: Option<SyncRpcRequest>)
  {
    && req.Some?
    && req.value.reqId > 0
    && req.value.reqBody.Some?
    && req.value.reqBody.value.gwId != []
  }

  /**
   * The validation at the head of Enqueue: a nil request, a non-positive id,
   * a nil body or an empty gateway id is rejected; otherwise the gateway id
   * the request is addressed to.
   */
  function Destination(req: Option<SyncRpcRequest>): (d: Option<string>)
    ensures d.Some? <==> WellFormed(req)
    ensures d.Some? ==> d.value == req.value.reqBody.value.gwId && |d.value| > 0
  {
    if req.None? || req.value.reqId <= 0 || req.value.reqBody.None? || |req.value.reqBody.value.gwId| == 0 then
      None
    else
      Some(req.value.reqBody.value.gwId)
  }
}
