/** The message_queue class over its value, and queue_manager: one queue per key. */
module QueueManager {
  import opened Wrappers
  import opened Clocks
  import opened MessageQueues
  import opened Ring

  datatype ErasedIterator = Erased

  class MessageQueue {
    var ttlSet: bool
    var ttl: U32
    var totalMessageSize: U32
    var unstampedMessages: map<Id, Message>
    var queuedMessages: seq<Entry>
    var messageIndex: map<Id, nat>
    var nextHandle: nat

    /** The whole state as one value. */
    ghost function Contents(): Queue
      reads this
    {
      Queue(ttlSet, ttl, totalMessageSize, unstampedMessages, queuedMessages, messageIndex, nextHandle)
    }

    constructor ()
      ensures Contents() == EMPTY_QUEUE
    {
      ttlSet, ttl, totalMessageSize := false, 0, 0;
      unstampedMessages, queuedMessages, messageIndex, nextHandle := map[], [], map[], 0;
    }

    method EnqueueMessage(id: Id, data: string, ttlSecs: U32, now: Time)
      modifies this
      ensures Contents() == Enqueue(old(Contents()), id, data, ttlSecs, now)
    {
      if !ttlSet {
        ttlSet := true;
        ttl := ttlSecs;
      }
      totalMessageSize := Plus32(totalMessageSize, CalcSize(|data|));
      if id !in unstampedMessages {
        unstampedMessages := unstampedMessages[id := Message(id, data, now)];
      }
    }

    /** The ordered container picks any slot that its search can end in. */
    method StampMessage(id: Id, clock: VectorClock, now: Time) returns (found: bool)
      modifies this
      ensures found <==> id in old(unstampedMessages)
      ensures exists pos :: Slot(old(queuedMessages), clock, pos)
                            && Contents() == Stamp(old(Contents()), id, clock, now, pos).0
    {
      SlotExists(queuedMessages, clock);
      var pos: nat :| pos <= |queuedMessages| && Slot(queuedMessages, clock, pos);
      found := id in unstampedMessages;
      if found {
        var message := unstampedMessages[id].(localTime := now);
        queuedMessages := InsertEntry(queuedMessages, pos, Entry(nextHandle, clock, message));
        if id !in messageIndex {
          messageIndex := messageIndex[id := nextHandle];
        }
        nextHandle := nextHandle + 1;
        unstampedMessages := unstampedMessages - {id};
      }
      assert Contents() == Stamp(old(Contents()), id, clock, now, pos).0;
    }

    /** The first loop of expire_messages(): erase from the front until one has not expired.
        clock(i) is what the steady clock shows when it is read for the i-th time. */
    method ExpireQueued(clock: nat -> Time) returns (readings: nat)
      modifies this`queuedMessages, this`totalMessageSize
      ensures var k := ExpiredFront(old(queuedMessages), ttl, clock);
              && readings == k + (if k < |old(queuedMessages)| then 1 else 0)
              && queuedMessages == old(queuedMessages)[k..]
              && totalMessageSize == Minus32(old(totalMessageSize), SumEntries(old(queuedMessages)[..k]))
    {
      hide ExpiredFront, Expired, SumEntries, SizeOf, Minus32;
      ghost var all, size := queuedMessages, totalMessageSize;
      ghost var k: nat, gone: nat := 0, 0;
      MinusNothing(size);
      readings := 0;
      while queuedMessages != []
        invariant readings == k <= |all| && queuedMessages == all[k..]
        invariant forall i :: 0 <= i < k ==> Expired(all[i].message, ttl, clock(i))
        invariant SumEntries(all) == gone + SumEntries(queuedMessages)
        invariant totalMessageSize == Minus32(size, gone)
        decreases |queuedMessages|
      {
        var front, now := queuedMessages[0].message, clock(readings);
        assert queuedMessages[0] == all[k];
        readings := readings + 1;
        if !Expired(front, ttl, now) {
          break;
        }
        SumEntriesHead(queuedMessages);
        MinusTwice(size, gone, SizeOf(front));
        gone := gone + SizeOf(front);
        totalMessageSize := Minus32(totalMessageSize, SizeOf(front));
        queuedMessages := queuedMessages[1..];
        k := k + 1;
      }
      SumEntriesSplit(all, k);
      ExpiredFrontIs(all, ttl, clock, k);
    }

    /** One turn of the second loop. */
    method VisitUnstamped(id: Id, now: Time) returns (ghost gone: nat)
      requires id in unstampedMessages
      modifies this`unstampedMessages, this`totalMessageSize
      ensures unstampedMessages ==
              if Expired(old(unstampedMessages)[id], ttl, now) then old(unstampedMessages) - {id}
              else old(unstampedMessages)
      ensures SumMap(old(unstampedMessages)) == gone + SumMap(unstampedMessages)
      ensures totalMessageSize == Minus32(old(totalMessageSize), gone)
    {
      gone := 0;
      if Expired(unstampedMessages[id], ttl, now) {
        SumMapRemove(unstampedMessages, id);
        gone := SizeOf(unstampedMessages[id]);
        totalMessageSize := Minus32(totalMessageSize, SizeOf(unstampedMessages[id]));
        unstampedMessages := unstampedMessages - {id};
      }
    }

    /** The second loop: visit every unstamped message, in any order, and read the clock for
        each; each(id) is the reading that the message with this id got. */
    method ExpireUnstamped(clock: nat -> Time, start: nat) returns (ghost each: Id -> Time)
      modifies this`unstampedMessages, this`totalMessageSize
      ensures ReadsFrom(clock, start, each)
      ensures unstampedMessages == Fresh(old(unstampedMessages), ttl, each)
      ensures totalMessageSize == Minus32(old(totalMessageSize), SumMap(Stale(old(unstampedMessages), ttl, each)))
    {
      hide Readings, Remaining, Expired, SumMap, SizeOf, Fresh, Stale, Minus32;
      ghost var all, size := unstampedMessages, totalMessageSize;
      ghost var gone: nat := 0;
      ghost var seen: map<Id, Time> := map[];
      var readings := start;
      var todo := unstampedMessages.Keys;
      NothingVisited(all, ttl, clock, start);
      MinusNothing(size);
      while todo != {}
        invariant todo <= unstampedMessages.Keys && start <= readings
        invariant Remaining(all, unstampedMessages, todo, ttl, seen) && Readings(clock, start, seen)
        invariant SumMap(all) == gone + SumMap(unstampedMessages)
        invariant totalMessageSize == Minus32(size, gone)
        decreases todo
      {
        var id :| id in todo;
        var now := clock(readings);
        Visited(all, unstampedMessages, todo, ttl, clock, start, seen, id, readings);
        ghost var more := VisitUnstamped(id, now);
        MinusTwice(size, gone, more);
        gone := gone + more;
        todo := todo - {id};
        seen := seen[id := now];
        readings := readings + 1;
      }
      each := AllVisited(all, unstampedMessages, ttl, clock, start, seen);
      SumMapSplit(all, ttl, each);
    }

    method ExpireMessages(clock: nat -> Time) returns (ghost each: Id -> Time)
      modifies this
      ensures ReadsFrom(clock, 0, each)
      ensures Contents() == Expire(old(Contents()), clock, each)
    {
      hide ReadsFrom, ExpiredFront, Fresh, Stale, SumMap, SumEntries;
      ghost var k := ExpiredFront(queuedMessages, ttl, clock);
      ghost var size := totalMessageSize;
      var readings := ExpireQueued(clock);
      each := ExpireUnstamped(clock, readings);
      ReadsEarlier(clock, readings, each);
      MinusTwice(size, SumEntries(old(queuedMessages)[..k]), SumMap(Stale(old(unstampedMessages), ttl, each)));
    }

    /** claim().  For a message that expired after it was stamped the index holds an erased
        iterator, and what the code does with it is undefined: the model stops there. */
    method ClaimMessage(id: Id) returns (r: Result<(), ErasedIterator>)
      modifies this
      ensures r.Success? <==> Claimable(old(Contents()), id)
      ensures r.Success? ==> Contents() == Claim(old(Contents()), id)
      ensures r.Failure? ==> Contents() == old(Contents())
    {
      r := Success(());
      if id in messageIndex {
        var p := Find(queuedMessages, messageIndex[id]);
        if p == |queuedMessages| {
          return Failure(Erased);
        }
        totalMessageSize := Minus32(totalMessageSize, SizeOf(queuedMessages[p].message));
        queuedMessages := RemoveEntry(queuedMessages, p);
        messageIndex := messageIndex - {id};
      }
    }

    method PeekAll() returns (messages: seq<Message>)
      ensures |messages| == |queuedMessages|
      ensures forall i :: 0 <= i < |messages| ==> messages[i] == queuedMessages[i].message
    {
      messages := [];
      for i := 0 to |queuedMessages|
        invariant |messages| == i
        invariant forall j :: 0 <= j < i ==> messages[j] == queuedMessages[j].message
      {
        messages := messages + [queuedMessages[i].message];
      }
    }

    method TotalCount() returns (n: nat)
      ensures n == MessageQueues.TotalCount(Contents())
    {
      n := |unstampedMessages| + |queuedMessages|;
    }
  }

  /** What is left of all once every key outside todo has been visited at the time seen. */
  ghost predicate Remaining(all: map<Id, Message>, left: map<Id, Message>, todo: set<Id>, ttl: U32,
                            seen: map<Id, Time>) {
    && left.Keys <= all.Keys
    && (forall id :: id in left ==> left[id] == all[id])
    && (forall id :: id in all && id !in todo ==>
          id in seen && (id in left <==> !Expired(all[id], ttl, seen[id])))
  }

  /** The clock shows this time at some reading from this one on. */
  ghost predicate Shows(clock: nat -> Time, start: nat, t: Time) {
    exists i: nat :: start <= i && clock(i) == t
  }

  ghost predicate Readings(clock: nat -> Time, start: nat, seen: map<Id, Time>) {
    forall id :: id in seen ==> Shows(clock, start, seen[id])
  }

  ghost predicate ReadsFrom(clock: nat -> Time, start: nat, each: Id -> Time) {
    forall id: Id :: Shows(clock, start, each(id))
  }

  lemma ReadsEarlier(clock: nat -> Time, start: nat, each: Id -> Time)
    requires ReadsFrom(clock, start, each)
    ensures ReadsFrom(clock, 0, each)
  {
    forall id: Id ensures Shows(clock, 0, each(id)) {
      assert Shows(clock, start, each(id));
    }
  }

  lemma NothingVisited(all: map<Id, Message>, ttl: U32, clock: nat -> Time, start: nat)
    ensures Remaining(all, all, all.Keys, ttl, map[]) && Readings(clock, start, map[])
  {
  }

  lemma Visited(all: map<Id, Message>, left: map<Id, Message>, todo: set<Id>, ttl: U32,
                clock: nat -> Time, start: nat, seen: map<Id, Time>, id: Id, k: nat)
    requires Remaining(all, left, todo, ttl, seen) && todo <= left.Keys && id in todo
    requires Readings(clock, start, seen) && start <= k
    ensures var left' := if Expired(left[id], ttl, clock(k)) then left - {id} else left;
            && Remaining(all, left', todo - {id}, ttl, seen[id := clock(k)])
            && todo - {id} <= left'.Keys
    ensures Readings(clock, start, seen[id := clock(k)])
  {
    assert Shows(clock, start, clock(k));
  }

  lemma AllVisited(all: map<Id, Message>, left: map<Id, Message>, ttl: U32,
                   clock: nat -> Time, start: nat, seen: map<Id, Time>) returns (each: Id -> Time)
    requires Remaining(all, left, {}, ttl, seen) && Readings(clock, start, seen)
    ensures left == Fresh(all, ttl, each) && ReadsFrom(clock, start, each)
  {
    each := (id: Id) => if id in seen then seen[id] else clock(start);
    assert Shows(clock, start, clock(start));
  }

  /** The expired front ends at the first message that has not expired. */
  lemma ExpiredFrontIs(s: seq<Entry>, ttl: U32, at: nat -> Time, k: nat)
    requires k <= |s| && forall i :: 0 <= i < k ==> Expired(s[i].message, ttl, at(i))
    requires k < |s| ==> !Expired(s[k].message, ttl, at(k))
    ensures ExpiredFront(s, ttl, at) == k
  {
  }

  lemma SumEntriesHead(s: seq<Entry>)
    requires s != []
    ensures SumEntries(s) == SizeOf(s[0].message) + SumEntries(s[1..])
  {
  }

  lemma MinusNothing(size: U32)
    ensures Minus32(size, 0) == size
  {
  }

  lemma MinusTwice(size: U32, a: nat, b: nat)
    ensures Minus32(Minus32(size, a), b) == Minus32(size, a + b)
  {
    var k := (size - a) / 0x1_0000_0000;
    assert size - a == 0x1_0000_0000 * k + Minus32(size, a);
    assert size - (a + b) == Minus32(size, a) - b + 0x1_0000_0000 * k;
    ModOfAnyMultiple(Minus32(size, a) - b, k);
  }

  lemma ModOfAnyMultiple(x: int, k: int)
    ensures (x + 0x1_0000_0000 * k) % 0x1_0000_0000 == x % 0x1_0000_0000
  {
    if k >= 0 {
      ModOfMultiple(x, k);
    } else {
      ModOfMultiple(x + 0x1_0000_0000 * k, -k);
    }
  }

  class Manager {
    var queues: map<Key, MessageQueue>

    /** Every key has a queue of its own. */
    ghost predicate Valid()
      reads this
    {
      forall k, k' :: k in queues && k' in queues && k != k' ==> queues[k] != queues[k']
    }

    /** The queue of a key as a value; a key that was never used has an empty one. */
    ghost function At(key: Key): Queue
      reads this, queues.Values
    {
      if key in queues then queues[key].Contents() else EMPTY_QUEUE
    }

    constructor ()
      ensures Valid() && queues == map[]
    {
      queues := map[];
    }

    /** get_queue(): finds the queue of a key or makes an empty one. */
    method GetQueue(key: Key) returns (queue: MessageQueue)
      requires Valid()
      modifies this
      ensures Valid() && key in queues && queue == queues[key]
      ensures key in old(queues) ==> queues == old(queues)
      ensures key !in old(queues) ==>
                fresh(queue) && queues == old(queues)[key := queue] && queue.Contents() == EMPTY_QUEUE
    {
      if key !in queues {
        queue := new MessageQueue();
        assert forall k :: k in queues ==> queues[k] != queue;
        queues := queues[key := queue];
      } else {
        queue := queues[key];
      }
    }

    /** Only the queue of this key changes. */
    method EnqueueMessage(key: Key, id: Id, data: string, ttlSecs: U32, now: Time)
      requires Valid()
      modifies this, queues.Values
      ensures Valid() && fresh(queues.Values - old(queues.Values))
      ensures At(key) == Enqueue(old(At(key)), id, data, ttlSecs, now)
      ensures forall k :: k != key ==> At(k) == old(At(k))
    {
      var queue := GetQueue(key);
      queue.EnqueueMessage(id, data, ttlSecs, now);
    }

    method StampMessage(key: Key, id: Id, clock: VectorClock, now: Time)
      requires Valid()
      modifies this, queues.Values
      ensures Valid() && fresh(queues.Values - old(queues.Values))
      ensures exists pos :: Slot(old(At(key)).queued, clock, pos)
                            && At(key) == Stamp(old(At(key)), id, clock, now, pos).0
      ensures forall k :: k != key ==> At(k) == old(At(k))
    {
      var queue := GetQueue(key);
      assert queue.Contents() == old(At(key));
      var found := queue.StampMessage(id, clock, now);
    }
  }
}
