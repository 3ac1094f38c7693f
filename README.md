# Request-queue registry of the dispatcher broker

The dispatcher broker forwards sync RPC requests to gateways over each
gateway's outbound tunnel. Between the RPC ingress and the tunnel sits the
request-queue registry (`requestQueueImpl`). It maps each gateway id to one
bounded FIFO queue, a buffered Go channel of `SyncRPCRequest`. It has three
operations:

- `InitializeQueue(gwId)` installs a fresh queue for the gateway. Any queue
  already mapped for it is closed and handed back to be drained.
- `CleanupQueue(gwId)` closes and unmaps the gateway's queue, returning it,
  or returns nil when there is none.
- `Enqueue(req)` validates the request, looks up the destination queue and
  appends the request when there is room.

This project models that registry in Dafny:

- `sync_rpc.dfy` (module `SyncRpc`): the request envelope and the validation
  Enqueue performs first.
- `channel.dfy` (module `Channels`): class `RequestChannel`, a buffered Go
  channel with its buffer, its capacity and its closed flag. A Go panic
  (sending on a closed channel, closing it twice) becomes a precondition.
  Verifying the registry's methods therefore proves they never send to or
  close a closed queue.
- `request_queue.dfy` (module `RequestQueues`): class `RequestQueue` with
  the map field `reqQueueByGwId` and the constant `maxQueueLen`. A ghost
  set `retired` holds every queue that was replaced or removed. The object
  invariant `Valid()` says:
  - every mapped queue is open, has capacity `maxQueueLen` and is within it;
  - no queue is mapped for two gateways;
  - every retired queue is closed and unmapped.

  Each method keeps `Valid()` and states its whole new state. It also ties
  `View()` to a function of the old view. `View()` gives, per gateway, the
  contents of its current queue.
- `queue_spec.dfy` (module `QueueSpec`): the registry's operations as
  functions on that view, with lemmas over arbitrary sequences of
  operations:
  - capacity is never exceeded;
  - operations on other gateways leave a gateway's entry alone;
  - a removed gateway stays unknown until it is initialized again;
  - requests for one queue are accepted in FIFO order up to its capacity;
  - no accepted request is lost or duplicated across reconnects. Whatever
    was accepted is either handed back by a replaced or removed queue or
    still in the current one, in order.
- `scenario.dfy` (module `Scenarios`): two client methods that derive,
  from the contracts alone, the connect / enqueue / reconnect / disconnect
  behaviour and capacity-1 backpressure.

`InitializeQueue` (request_queue.go:47-60) accepts any gateway id,
including the empty one. Such a queue never receives a request, because
`Enqueue` rejects an empty destination (request_queue.go:82).

## Model

| member | source | states |
|---|---|---|
| `SyncRpc.Destination` | orc8r/cloud/go/services/dispatcher/broker/memstore/request_queue.go:82-85 | a request is accepted by validation exactly when it is present, its id is positive, it has a body and the body's gateway id is non-empty; the accepted destination is that gateway id |
| `QueueSpec.Initialize` | orc8r/cloud/go/services/dispatcher/broker/memstore/request_queue.go:47-60 | afterwards `gwId` maps to an empty queue and every other gateway keeps its contents; the replaced queue's buffered requests are handed back exactly when `gwId` had a queue |
| `QueueSpec.Cleanup` | orc8r/cloud/go/services/dispatcher/broker/memstore/request_queue.go:63-75 | afterwards `gwId` has no entry and the others are unchanged; the removed queue's contents are handed back when there was one, and with none nothing changes |
| `QueueSpec.Submit` | orc8r/cloud/go/services/dispatcher/broker/memstore/request_queue.go:81-98 | a malformed request fails with InvalidRequest, an unknown gateway with QueueDoesNotExist, a full queue with QueueFull; every failure leaves all queues unchanged; success happens exactly when the queue has room and appends the request at the back of that queue only |
| `QueueSpec.RunBounded` | orc8r/cloud/go/services/dispatcher/broker/memstore/request_queue.go:50-58 | along any sequence of operations no queue ever holds more than its capacity |
| `QueueSpec.RunIsolation` | orc8r/cloud/go/services/dispatcher/broker/memstore/request_queue.go:47-98 | operations that neither initialize, clean up nor enqueue for a gateway leave its entry, present or absent, and its contents exactly as they were |
| `QueueSpec.AbsentUntilInitialized` | orc8r/cloud/go/services/dispatcher/broker/memstore/request_queue.go:66-74 | once a gateway has no queue, until it is initialized again it stays without one and every well-formed request for it fails with QueueDoesNotExist |
| `QueueSpec.EnqueueFifo` | orc8r/cloud/go/services/dispatcher/broker/memstore/request_queue.go:92-97 | enqueueing a sequence of requests for one queue accepts exactly those that fit, appends them at the back in order, fails the rest with QueueFull and changes no other gateway |
| `QueueSpec.RunConservesRequests` | orc8r/cloud/go/services/dispatcher/broker/memstore/request_queue.go:51-72 | along any sequence of operations, a gateway's initial contents followed by every request accepted for it equal, in order, what replaced and removed queues handed back followed by its current contents |
| `Channels.RequestChannel.constructor` | orc8r/cloud/go/services/dispatcher/broker/memstore/request_queue.go:50 | a new channel is open, empty and has the requested capacity |
| `Channels.RequestChannel.TrySend` | orc8r/cloud/go/services/dispatcher/broker/memstore/request_queue.go:92-96 | a send is allowed only on an open channel; it succeeds exactly when there is room and then appends at the back, otherwise nothing changes |
| `Channels.RequestChannel.Close` | orc8r/cloud/go/services/dispatcher/broker/memstore/request_queue.go:54 | closing is allowed only on an open channel, leaves it closed and keeps its buffered requests |
| `RequestQueues.RequestQueue.constructor` | orc8r/cloud/go/services/dispatcher/broker/memstore/request_queue.go:38-44 | a new registry has no queues, records `maxQueueLen` and satisfies the invariant |
| `RequestQueues.RequestQueue.InitializeQueue` | orc8r/cloud/go/services/dispatcher/broker/memstore/request_queue.go:47-60 | keeps the invariant; maps `gwId` to a fresh, open, empty queue of capacity `maxQueueLen` and changes no other entry; a previous queue is closed with its buffered requests kept, retired, no longer reachable and returned, otherwise the old queue is null; the view changes as `QueueSpec.Initialize` says |
| `RequestQueues.RequestQueue.CleanupQueue` | orc8r/cloud/go/services/dispatcher/broker/memstore/request_queue.go:63-75 | keeps the invariant; removes only the entry of `gwId`; an existing queue is closed with its contents kept, retired and returned; with none it returns null and changes no queue; the view changes as `QueueSpec.Cleanup` says |
| `RequestQueues.RequestQueue.Enqueue` | orc8r/cloud/go/services/dispatcher/broker/memstore/request_queue.go:81-98 | keeps the invariant and the map; never changes a retired queue; a failure changes no queue; result and view are those of `QueueSpec.Submit` |

## Left out

- The `sync.RWMutex` discipline (request_queue.go:34, 48-49, 64-65, 86-87) is not modelled. Each operation is one atomic step, which is the behaviour the lock provides.
- `RequestQueues.RequestQueue.Enqueue`: the one-second `time.After` wait (request_queue.go:95) is not modelled. A full queue fails at once; in the source a concurrent receiver could free room during that second.
- `Channels.RequestChannel.TrySend`: with capacity 0, Go's unbuffered rendezvous with a waiting receiver is not modelled. Such a send always fails as full.
- Receiving from and draining a queue are not modelled, because the registry never reads from a queue; the broker does both. As a result, buffers in the model only grow.
- `RequestQueues.RequestQueue.constructor` takes a non-negative `queueLen`. A negative value makes Go's `make` panic on the first `InitializeQueue`.
- Contents of `SyncRPCRequest` beyond the request id, the presence of a body and its gateway id are opaque payload. The integer width of the request id is not part of this model, so it is an unbounded `int`; only the test `ReqId <= 0` uses it.
- The error messages are modelled by their kind (`InvalidRequest`, `QueueDoesNotExist`, `QueueFull`) and gateway id, not as strings.
