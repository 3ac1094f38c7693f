/**
 * The per-gateway request-queue registry of the dispatcher broker: a map
 * from gateway id to that gateway's current bounded queue. Each operation
 * is one atomic step (the read/write lock that makes it so is not modelled).
 */
module RequestQueues {
  import opened Wrappers
  import opened SyncRpc
  import opened Channels
  import QueueSpec

  /** The new queue to dequeue from, and the replaced queue to clean up (null when none). */
  datatype InitializedQueue = InitializedQueue(newQueue: RequestChannel, oldQueue: RequestChannel?)

  class RequestQueue {
    var reqQueueByGwId: map<string, RequestChannel>
    const maxQueueLen: nat
    /** Every queue this registry has replaced or removed. */
    ghost var retired: set<RequestChannel>

    /**
     * Every mapped queue is open, has the configured capacity and is within
     * it; no queue is mapped for two gateways; every retired queue is
     * closed and no longer mapped.
     */
    ghost predicate Valid()
      reads this, reqQueueByGwId.Values, retired
    {
      && (forall gw | gw in reqQueueByGwId ::
            var q := reqQueueByGwId[gw];
            !q.closed && q.capacity == maxQueueLen && |q.buffer| <= q.capacity)
      && (forall gw1, gw2 | gw1 in reqQueueByGwId && gw2 in reqQueueByGwId && gw1 != gw2 ::
            reqQueueByGwId[gw1] != reqQueueByGwId[gw2])
      && (forall q | q in retired :: q.closed && q !in reqQueueByGwId.Values)
    }

    /** The contents of every gateway's current queue. */
    ghost function View(): QueueSpec.View
      reads this, reqQueueByGwId.Values
    {
      map gw | gw in reqQueueByGwId :: reqQueueByGwId[gw].buffer
    }

    /** NewRequestQueue(queueLen): no queues yet. */
    constructor (queueLen: nat)
      ensures Valid()
      ensures reqQueueByGwId == map[] && maxQueueLen == queueLen && retired == {}
      ensures View() == map[]
    {
      reqQueueByGwId := map[];
      maxQueueLen := queueLen;
      retired := {};
    }

    /**
     * InitializeQueue: installs a fresh empty queue for `gwId`; a queue
     * already there is closed, with its buffered requests left in it, and
     * returned for the caller to drain.
     */
    method InitializeQueue(gwId: string) returns (r: InitializedQueue)
      requires Valid()
      modifies this, reqQueueByGwId.Values
      ensures Valid()
      ensures fresh(r.newQueue) && r.newQueue.buffer == [] && !r.newQueue.closed
      ensures r.newQueue.capacity == maxQueueLen
      ensures reqQueueByGwId == old(reqQueueByGwId)[gwId := r.newQueue]
      ensures gwId !in old(reqQueueByGwId) ==> r.oldQueue == null && retired == old(retired)
      ensures gwId in old(reqQueueByGwId) ==>
        && r.oldQueue == old(reqQueueByGwId[gwId])
        && r.oldQueue.closed
        && r.oldQueue.buffer == old(reqQueueByGwId[gwId].buffer)
        && retired == old(retired) + {r.oldQueue}
      ensures r.oldQueue !in reqQueueByGwId.Values
      ensures (if r.oldQueue == null then None else Some(r.oldQueue.buffer), View())
        == QueueSpec.Initialize(old(View()), gwId)
    {
      ghost var before := View();
      var newQueue := new RequestChannel(maxQueueLen);
      if gwId in reqQueueByGwId {
        var oldQueue := reqQueueByGwId[gwId];
        oldQueue.Close();
        reqQueueByGwId := reqQueueByGwId[gwId := newQueue];
        retired := retired + {oldQueue};
        assert forall gw | gw in reqQueueByGwId :: reqQueueByGwId[gw] != oldQueue;
        assert View() == before[gwId := []];
        return InitializedQueue(newQueue, oldQueue);
      }
      reqQueueByGwId := reqQueueByGwId[gwId := newQueue];
      assert View() == before[gwId := []];
      return InitializedQueue(newQueue, null);
    }

    /**
     * CleanupQueue: the queue of `gwId`, if any, is closed, unmapped and
     * returned for the caller to drain; otherwise null and nothing changes.
     */
    method CleanupQueue(gwId: string) returns (queue: RequestChannel?)
      requires Valid()
      modifies this, reqQueueByGwId.Values
      ensures Valid()
      ensures reqQueueByGwId == old(reqQueueByGwId) - {gwId}
      ensures gwId !in old(reqQueueByGwId) ==> queue == null && retired == old(retired)
      ensures gwId !in old(reqQueueByGwId) ==>
        forall q | q in old(reqQueueByGwId.Values) :: q.closed == old(q.closed) && q.buffer == old(q.buffer)
      ensures gwId in old(reqQueueByGwId) ==>
        && queue == old(reqQueueByGwId[gwId])
        && queue.closed
        && queue.buffer == old(reqQueueByGwId[gwId].buffer)
        && retired == old(retired) + {queue}
      ensures queue !in reqQueueByGwId.Values
      ensures (if queue == null then None else Some(queue.buffer), View())
        == QueueSpec.Cleanup(old(View()), gwId)
    {
      ghost var before := View();
      if gwId in reqQueueByGwId {
        queue := reqQueueByGwId[gwId];
        queue.Close();
        reqQueueByGwId := reqQueueByGwId - {gwId};
        retired := retired + {queue};
        assert forall gw | gw in reqQueueByGwId :: reqQueueByGwId[gw] != queue;
        assert View() == before - {gwId};
        return;
      }
      return null;
    }

    /**
     * Enqueue: rejects a malformed request, fails when the destination has
     * no queue or its queue is full, and otherwise appends the request at
     * the back of that queue. Only the destination's queue changes, and only
     * on success; retired queues never receive anything.
     */
    method Enqueue(gwReq: Option<SyncRpcRequest>) returns (result: QueueSpec.EnqueueResult)
      requires Valid()
      modifies reqQueueByGwId.Values
      ensures Valid()
      ensures reqQueueByGwId == old(reqQueueByGwId) && retired == old(retired)
      ensures forall q | q in retired :: q.buffer == old(q.buffer)
      ensures result.Failed? ==> forall q | q in reqQueueByGwId.Values :: q.buffer == old(q.buffer)
      ensures (result, View()) == QueueSpec.Submit(old(View()), maxQueueLen, gwReq)
    {
      ghost var before := View();
      var dest := Destination(gwReq);
      if dest.None? {
        return QueueSpec.Failed(QueueSpec.InvalidRequest);
      }
      var gwId := dest.value;
      if gwId !in reqQueueByGwId {
        return QueueSpec.Failed(QueueSpec.QueueDoesNotExist(gwId));
      }
      var reqQueue := reqQueueByGwId[gwId];
      var sent := reqQueue.TrySend(gwReq.value);
      if sent {
        result := QueueSpec.Enqueued;
        assert View() == before[gwId := before[gwId] + [gwReq.value]];
      } else {
        result := QueueSpec.Failed(QueueSpec.QueueFull(gwId));
      }
    }
  }
}
