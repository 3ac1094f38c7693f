/**
 * What a caller of the registry can conclude from its contracts alone.
 */
module Scenarios {
  import opened Wrappers
  import opened SyncRpc
  import opened Channels
  import opened RequestQueues
  import QueueSpec

  function Request(id: int, gwId: string): SyncRpcRequest
  {
    SyncRpcRequest(id, Some(GatewayRequest(gwId)))
  }

  /** Validation, lookup and capacity 1 backpressure. */
  method BackpressureScenario()
  {
    var queues := new RequestQueue(1);
    var res := queues.Enqueue(Some(Request(1, "g1")));
    assert res == QueueSpec.Failed(QueueSpec.QueueDoesNotExist("g1"));

    var init := queues.InitializeQueue("g1");
    var m1 := init.newQueue;
    assert init.oldQueue == null;

    res := queues.Enqueue(None);
    assert res == QueueSpec.Failed(QueueSpec.InvalidRequest);
    res := queues.Enqueue(Some(Request(0, "g1")));
    assert res == QueueSpec.Failed(QueueSpec.InvalidRequest);
    res := queues.Enqueue(Some(Request(1, "")));
    assert res == QueueSpec.Failed(QueueSpec.InvalidRequest);

    res := queues.Enqueue(Some(Request(1, "g1")));
    assert res == QueueSpec.Enqueued && m1.buffer == [Request(1, "g1")];
    res := queues.Enqueue(Some(Request(2, "g1")));
    assert res == QueueSpec.Failed(QueueSpec.QueueFull("g1")) && m1.buffer == [Request(1, "g1")];
  }

  /** Reconnect and disconnect: requests never reach a replaced or removed queue. */
  method ReconnectScenario()
  {
    var queues := new RequestQueue(5);
    var init1 := queues.InitializeQueue("g1");
    var m1 := init1.newQueue;
    var res := queues.Enqueue(Some(Request(1, "g1")));
    assert m1.buffer == [Request(1, "g1")];

    var init2 := queues.InitializeQueue("g1");
    var m2 := init2.newQueue;
    assert init2.oldQueue == m1 && m1.closed && m1.buffer == [Request(1, "g1")];
    assert m1 in queues.retired && queues.View()["g1"] == [];

    res := queues.Enqueue(Some(Request(2, "g1")));
    assert res == QueueSpec.Enqueued && m2.buffer == [Request(2, "g1")] && m1.buffer == [Request(1, "g1")];

    var q := queues.CleanupQueue("g1");
    assert q == m2 && m2.closed;
    q := queues.CleanupQueue("g1");
    assert q == null;
    res := queues.Enqueue(Some(Request(3, "g1")));
    assert res == QueueSpec.Failed(QueueSpec.QueueDoesNotExist("g1"));
    assert m1.buffer == [Request(1, "g1")] && m2.buffer == [Request(2, "g1")];
  }
}
