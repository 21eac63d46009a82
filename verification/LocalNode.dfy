/** local_node_operations: the publish step of a replica on its own objects. */
module LocalNode {
  import opened Wrappers
  import opened Clocks
  import opened Ring
  import opened MessageQueues
  import opened QueueManager
  import opened PublishProtocol

  class LocalNodeOperations {
    const self: U32
    const ring: seq<Node>
    const queueManager: Manager
    var clock: Tick
    var views: map<U32, Tick>

    constructor (self: U32, ring: seq<Node>, clock: Tick, views: map<U32, Tick>)
      ensures this.self == self && this.ring == ring && this.clock == clock && this.views == views
      ensures fresh(queueManager) && queueManager.Valid() && queueManager.queues == map[]
    {
      this.self, this.ring, this.clock, this.views := self, ring, clock, views;
      queueManager := new Manager();
    }

    /** node->clock(): our own clock, or the last one heard of a peer. */
    function ClockOfNode(id: U32): NodeClock
      reads this
    {
      ClockOf(id, if id == self then clock else if id in views then views[id] else Tick(0, 0))
    }

    /** Enqueues the message, bumps our clock and reports the clocks that handle the queue.
        An empty ring throws, after the message has been queued and counted. */
    method SendProxyPublish(key: Key, id: Id, data: string, ttlSecs: U32, now: Time)
      returns (reply: Result<VectorClock, RingError>)
      requires queueManager.Valid()
      modifies this, queueManager, queueManager.queues.Values
      ensures queueManager.Valid()
      ensures views == old(views) && clock == Bump(old(clock))
      ensures queueManager.At(key) == Enqueue(old(queueManager.At(key)), id, data, ttlSecs, now)
      ensures forall k :: k != key ==> queueManager.At(k) == old(queueManager.At(k))
      ensures reply == if ring == [] then Failure(Unavailable)
                       else Success(ReplyClock(ring, key, self, Replica(clock, views, map[])))
    {
      queueManager.EnqueueMessage(key, id, data, ttlSecs, now);
      clock := Bump(clock);
      if ring == [] {
        return Failure(Unavailable);
      }
      var nodes := Replicas(ring, key);
      var outClock: VectorClock := [];
      for i := 0 to 3
        invariant |outClock| == i
        invariant forall j :: 0 <= j < i ==> outClock[j] == ClockOfNode(nodes[j].id)
      {
        outClock := outClock + [ClockOfNode(nodes[i].id)];
      }
      assert outClock == [ClockOfNode(nodes[0].id), ClockOfNode(nodes[1].id), ClockOfNode(nodes[2].id)];
      return Success(outClock);
    }
  }
}
