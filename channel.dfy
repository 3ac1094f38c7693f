/**
 * A buffered Go channel of requests, as the registry uses it: created with
 * a capacity, sent into without blocking, closed once. Sending on a closed
 * channel and closing it twice make Go panic, so both are preconditions
 * here: every call the registry makes must be shown to meet them.
 */
module Channels {
  import opened SyncRpc

  class RequestChannel {
    /** The requests buffered and not yet received, oldest first. */
    var buffer: seq<SyncRpcRequest>
    const capacity: nat
    var closed: bool

    /** make(chan *SyncRPCRequest, capacity) */
    constructor (capacity: nat)
      ensures this.capacity == capacity && buffer == [] && !closed
    {
      this.capacity := capacity;
      buffer := [];
      closed := false;
    }

    /** A send that does not wait: it succeeds exactly when there is room, and appends at the back. */
    method TrySend(req: SyncRpcRequest) returns (sent: bool)
      requires !closed
      requires |buffer| <= capacity
      modifies this`buffer
      ensures sent <==> |old(buffer)| < capacity
      ensures buffer == if sent then old(buffer) + [req] else old(buffer)
      ensures |buffer| <= capacity
    {
      sent := |buffer| < capacity;
      if sent {
        buffer := buffer + [req];
      }
    }

    /** close(ch): the buffered requests stay for the receiver to drain. */
    method Close()
      requires !closed
      modifies this`closed
      ensures closed
    {
      closed := true;
    }
  }
}
