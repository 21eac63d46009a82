/** What a message queue owes to the operations that reached it: the time and the content of each
    message, what a pass of expire_messages removes, the bytes it counts and its index, in every
    run and in plain numbers. */
module QueueTimes {
  import opened Wrappers
  import opened Clocks
  import opened MessageQueues
  import opened QueueRuns
  import opened QueueOrder

  // ---- Waiting messages ----

  /** Operation k of the run stored a message under this id, where none was waiting. */
  ghost predicate StoredAt(ops: seq<Op>, k: nat, id: Id) {
    k < |ops| && ops[k].EnqueueOp? && ops[k].id == id && id !in Found(ops, k).unstamped
  }

  /** It has been waiting ever since. */
  ghost predicate WaitsSince(ops: seq<Op>, k: nat, id: Id) {
    StoredAt(ops, k, id) && forall j: nat :: k < j <= |ops| ==> id in Found(ops, j).unstamped
  }

  /** A message that waits has waited before, or has just been stored with the time of the call. */
  lemma WaitingStep(h: History, op: Op, h': History, id: Id)
    requires Apply(h, op) == Some(h') && id in h'.q.unstamped
    ensures || (id in h.q.unstamped && h'.q.unstamped[id] == h.q.unstamped[id])
            || (op.EnqueueOp? && op.id == id && id !in h.q.unstamped
                && h'.q.unstamped[id] == Message(id, op.data, op.now))
  {
    hide Less, Expired, SumMap, SumEntries;
  }

  /** In every run a waiting message holds the content and the time of the call that stored it,
      whatever was enqueued under its id since. */
  lemma {:induction false} WaitingIsStored(ops: seq<Op>, h: History, id: Id) returns (k: nat)
    requires After(ops) == Some(h) && id in h.q.unstamped
    ensures WaitsSince(ops, k, id) && h.q.unstamped[id] == Message(id, ops[k].data, ops[k].now)
  {
    if ops == [] {
      assert false;
    } else {
      LastStep(ops);
      var front, last := ops[..|ops|-1], ops[|ops|-1];
      var before := After(front).value;
      WaitingStep(before, last, h, id);
      assert ops == front + [last];
      hide After, Apply, WaitsSince;
      if id in before.q.unstamped && h.q.unstamped[id] == before.q.unstamped[id] {
        k := WaitingIsStored(front, before, id);
        WaitsIsStored(front, k, id);
        WaitsOn(front, last, h, k, id);
      } else {
        k := |front|;
        WaitsNow(front, last, before, h, id);
      }
    }
  }

  lemma WaitsOn(ops: seq<Op>, op: Op, h': History, k: nat, id: Id)
    requires WaitsSince(ops, k, id) && After(ops + [op]) == Some(h') && id in h'.q.unstamped
    ensures WaitsSince(ops + [op], k, id) && (ops + [op])[k] == ops[k]
  {
    var all := ops + [op];
    hide Found, After;
    forall j: nat | j <= |ops| ensures Found(all, j) == Found(ops, j) { FoundStays(ops, op, j); }
    FoundAtEnd(all, h');
    assert all[k] == ops[k];
  }

  lemma WaitsNow(ops: seq<Op>, op: Op, h: History, h': History, id: Id)
    requires After(ops) == Some(h) && After(ops + [op]) == Some(h') && id in h'.q.unstamped
    requires op.EnqueueOp? && op.id == id && id !in h.q.unstamped
    ensures WaitsSince(ops + [op], |ops|, id)
  {
    hide Found, After;
    var all := ops + [op];
    assert all[|ops|] == op;
    FoundAtEnd(ops, h);
    FoundAtEnd(all, h');
    FoundStays(ops, op, |ops|);
  }

  // ---- Expiry ----

  lemma {:induction false} EnqueueSetsTtl(ops: seq<Op>, k: nat)
    requires k < |ops| && ops[k].EnqueueOp?
    ensures FirstTtl(ops).Some?
  {
    if k == 0 || ops[0].EnqueueOp? {
    } else {
      EnqueueSetsTtl(ops[1..], k - 1);
    }
  }

  lemma RunTtl(ops: seq<Op>, h: History, k: nat)
    requires After(ops) == Some(h) && k < |ops| && ops[k].EnqueueOp?
    ensures FirstTtl(ops) == Some(h.q.ttl)
  {
    EnqueueSetsTtl(ops, k);
    TtlOfFirstMessage(ops, h);
  }

  /** A pass removes a waiting message exactly when more nanoseconds have passed since the call that
      stored it than the first enqueue of the queue allowed seconds. */
  lemma WaitingExpiresIff(ops: seq<Op>, h: History, at: nat -> Time, each: Id -> Time, id: Id) returns (k: nat)
    requires After(ops) == Some(h) && id in h.q.unstamped
    ensures WaitsSince(ops, k, id) && FirstTtl(ops).Some?
    ensures id !in Expire(h.q, at, each).unstamped <==>
            each(id) - ops[k].now > 1_000_000_000 * FirstTtl(ops).value
  {
    hide After, WaitsSince, SumMap, SumEntries;
    k := WaitingIsStored(ops, h, id);
    WaitsIsStored(ops, k, id);
    RunTtl(ops, h, k);
  }

  lemma WaitsIsStored(ops: seq<Op>, k: nat, id: Id)
    requires WaitsSince(ops, k, id)
    ensures k < |ops| && ops[k].EnqueueOp?
  {
  }

  /** The time of the stamp that moved the x-th message into the ordered queue. */
  ghost predicate StampedAtTime(ops: seq<Op>, e: Entry, t: Time) {
    exists k: nat :: PutAt(ops, k, e) && ops[k].now == t
  }

  lemma TimeOfEntry(ops: seq<Op>, e: Entry)
    requires FromStamp(ops, e)
    ensures StampedAtTime(ops, e, e.message.localTime)
  {
    var k: nat :| PutAt(ops, k, e);
    assert PutAt(ops, k, e) && ops[k].now == e.message.localTime;
  }

  lemma {:induction false} StampNeedsEnqueue(ops: seq<Op>, h: History)
    requires After(ops) == Some(h) && (h.q.queued != [] || h.q.unstamped != map[])
    ensures FirstTtl(ops) == Some(h.q.ttl)
  {
    hide Less;
    TtlOfFirstMessage(ops, h);
    SomethingSetsTtl(ops, h);
  }

  lemma {:induction false} SomethingSetsTtl(ops: seq<Op>, h: History)
    requires After(ops) == Some(h) && (h.q.queued != [] || h.q.unstamped != map[])
    ensures h.q.ttlSet
  {
    if ops == [] {
      assert false;
    } else {
      LastStep(ops);
      var before := After(ops[..|ops|-1]).value;
      hide After, Less, Expired, SumMap, SumEntries;
      if before.q.queued != [] || before.q.unstamped != map[] {
        SomethingSetsTtl(ops[..|ops|-1], before);
      }
    }
  }

  /** A pass takes from the front of the ordered queue exactly the messages up to the first that
      was stamped no more nanoseconds ago than the first enqueue of the queue allowed seconds. */
  lemma QueuedExpireIff(ops: seq<Op>, h: History, at: nat -> Time, each: Id -> Time)
    returns (times: seq<Time>, k: nat)
    requires After(ops) == Some(h) && h.q.queued != []
    ensures FirstTtl(ops).Some? && |times| == |h.q.queued| && k <= |times|
    ensures forall x :: 0 <= x < |times| ==> StampedAtTime(ops, h.q.queued[x], times[x])
    ensures Expire(h.q, at, each).queued == h.q.queued[k..]
    ensures forall x :: 0 <= x < k ==> at(x) - times[x] > 1_000_000_000 * FirstTtl(ops).value
    ensures k < |times| ==> at(k) - times[k] <= 1_000_000_000 * FirstTtl(ops).value
  {
    EntriesFromStamps(ops);
    StampNeedsEnqueue(ops, h);
    hide After, FromStamp, StampedAtTime, SumMap, SumEntries;
    var q := h.q.queued;
    times := seq(|q|, x requires 0 <= x < |q| => q[x].message.localTime);
    k := ExpiredFront(q, h.q.ttl, at);
    forall x | 0 <= x < |q| ensures StampedAtTime(ops, q[x], times[x]) {
      assert q[x] in q;
      TimeOfEntry(ops, q[x]);
    }
  }

  // ---- The byte count ----

  function LengthsOf(s: seq<Entry>): nat {
    if s == [] then 0 else |s[0].message.data| + LengthsOf(s[1..])
  }

  ghost function LengthsIn(m: map<Id, Message>): nat {
    if m == map[] then 0
    else
      var id :| id in m;
      |m[id].data| + LengthsIn(m - {id})
  }

  lemma {:induction false} LengthsInRemove(m: map<Id, Message>, id: Id)
    requires id in m
    ensures LengthsIn(m) == |m[id].data| + LengthsIn(m - {id})
    decreases |m|
  {
    var k :| k in m && LengthsIn(m) == |m[k].data| + LengthsIn(m - {k});
    if k == id {
    } else {
      LengthsInRemove(m - {k}, id);
      LengthsInRemove(m - {id}, k);
      assert m - {k} - {id} == m - {id} - {k};
    }
  }

  lemma SizeByNumbers(m: Message) returns (q: nat)
    ensures SizeOf(m) + 0x1_0000_0000 * q == 72 + |m.data|
  {
    q := (72 + |m.data|) / 0x1_0000_0000;
  }

  lemma {:induction false} EntriesByNumbers(s: seq<Entry>) returns (q: nat)
    ensures SumEntries(s) + 0x1_0000_0000 * q == 72 * |s| + LengthsOf(s)
  {
    hide SizeOf;
    if s == [] {
      q := 0;
    } else {
      var q1 := SizeByNumbers(s[0].message);
      var q2 := EntriesByNumbers(s[1..]);
      q := q1 + q2;
    }
  }

  lemma {:induction false} MessagesByNumbers(m: map<Id, Message>) returns (q: nat)
    ensures SumMap(m) + 0x1_0000_0000 * q == 72 * |m| + LengthsIn(m)
    decreases |m|
  {
    if m == map[] {
      q := 0;
    } else {
      var id :| id in m;
      SumMapRemove(m, id);
      LengthsInRemove(m, id);
      hide SizeOf, SumMap, LengthsIn;
      var q1 := SizeByNumbers(m[id]);
      var q2 := MessagesByNumbers(m - {id});
      assert |m| == |m - {id}| + 1 by { SmallerMap(m, id); }
      q := q1 + q2;
    }
  }

  lemma SmallerMap(m: map<Id, Message>, id: Id)
    requires id in m
    ensures |m| == |m - {id}| + 1
  {
    assert (m - {id}).Keys == m.Keys - {id};
  }

  /** Without reuse of ids memory_size() is 72 bytes for each message held and the lengths of their
      payloads, in 32 bits. */
  lemma MemoryOfRun(ops: seq<Op>)
    requires After(ops).Some? && NoReuse(ops)
    ensures var q := After(ops).value.q;
            q.size == (72 * (|q.unstamped| + |q.queued|) + LengthsIn(q.unstamped) + LengthsOf(q.queued)) % 0x1_0000_0000
  {
    hide After, NoReuse, Partitioned, SumMap, SumEntries, LengthsIn, LengthsOf;
    MessagesConserved(ops);
    var q := After(ops).value.q;
    var q1 := MessagesByNumbers(q.unstamped);
    var q2 := EntriesByNumbers(q.queued);
    ModOfMultiple(Held(q), q1 + q2);
  }

  // ---- The index, ids reused or not ----

  /** Operation k indexed the message: it stamped it, and no claim of the id has come since. */
  ghost predicate IndexedAt(ops: seq<Op>, k: nat, id: Id) {
    StampedAt(ops, k, id) && forall j: nat :: k < j < |ops| ==> !(ops[j].ClaimOp? && ops[j].id == id)
  }

  /** What one operation does to the index: a stamp adds an id that is not there, a claim takes its
      id away, and nothing else touches it. */
  lemma IndexStep(h: History, op: Op, h': History, id: Id)
    requires Apply(h, op) == Some(h')
    ensures id in h'.q.index <==> Stamps(h.q, op, id) || (id in h.q.index && !(op.ClaimOp? && op.id == id))
    ensures id in h'.q.index && id in h.q.index ==> h'.q.index[id] == h.q.index[id]
    ensures id in h'.q.index && id !in h.q.index ==> h'.q.index[id] == h.q.nextHandle
  {
    hide Less, Expired, SumMap, SumEntries;
  }

  lemma IndexedAtStep(ops: seq<Op>, op: Op, k: nat, id: Id)
    ensures k < |ops| ==>
              (IndexedAt(ops + [op], k, id) <==> IndexedAt(ops, k, id) && !(op.ClaimOp? && op.id == id))
    ensures IndexedAt(ops + [op], |ops|, id) <==> Stamps(Found(ops, |ops|), op, id)
  {
    var all := ops + [op];
    assert forall j: nat :: j < |ops| ==> all[j] == ops[j];
    FoundStays(ops, op, if k < |ops| then k else |ops|);
    FoundStays(ops, op, |ops|);
    hide Found;
    assert all[|ops|] == op;
  }

  /** In every run an id is indexed exactly when it was stamped and has not been claimed since, and
      its index entry is that of the first such stamp: a later one does not replace it. */
  lemma {:induction false} IndexIsFirstStamp(ops: seq<Op>, h: History, id: Id)
    requires After(ops) == Some(h)
    ensures id in h.q.index <==> exists k: nat :: IndexedAt(ops, k, id)
    ensures id in h.q.index ==> exists k: nat :: IndexedAt(ops, k, id) && h.q.index[id] == Found(ops, k).nextHandle
                                                 && id !in Found(ops, k).index
  {
    if ops == [] {
    } else {
      LastStep(ops);
      var front, last := ops[..|ops|-1], ops[|ops|-1];
      var before := After(front).value;
      IndexIsFirstStamp(front, before, id);
      IndexStep(before, last, h, id);
      assert ops == front + [last] && front[..|front|] == front;
      assert Found(front, |front|) == before.q;
      forall k: nat | k <= |front|
        ensures Found(ops, k) == Found(front, k)
        ensures k < |front| ==>
                  (IndexedAt(ops, k, id) <==> IndexedAt(front, k, id) && !(last.ClaimOp? && last.id == id))
      {
        FoundStays(front, last, k);
        IndexedAtStep(front, last, k, id);
      }
      IndexedAtStep(front, last, |front|, id);
      hide Found, After, Apply, Stamps, IndexedAt;
      IndexGoesOn(ops, front, before.q, h.q, last, id);
    }
  }

  lemma IndexGoesOn(ops: seq<Op>, front: seq<Op>, q: Queue, q': Queue, last: Op, id: Id)
    requires ops == front + [last]
    requires Found(ops, |front|) == q
    requires forall k: nat | k < |front| :: Found(ops, k) == Found(front, k)
    requires forall k: nat | k < |front| ::
               (IndexedAt(ops, k, id) <==> IndexedAt(front, k, id) && !(last.ClaimOp? && last.id == id))
    requires IndexedAt(ops, |front|, id) <==> Stamps(q, last, id)
    requires id in q.index <==> exists k: nat :: IndexedAt(front, k, id)
    requires id in q.index ==> exists k: nat :: IndexedAt(front, k, id) && q.index[id] == Found(front, k).nextHandle
                                                && id !in Found(front, k).index
    requires id in q'.index <==> Stamps(q, last, id) || (id in q.index && !(last.ClaimOp? && last.id == id))
    requires id in q'.index && id in q.index ==> q'.index[id] == q.index[id]
    requires id in q'.index && id !in q.index ==> q'.index[id] == q.nextHandle
    ensures id in q'.index <==> exists k: nat :: IndexedAt(ops, k, id)
    ensures id in q'.index ==> exists k: nat :: IndexedAt(ops, k, id) && q'.index[id] == Found(ops, k).nextHandle
                                                && id !in Found(ops, k).index
  {
    forall k: nat | IndexedAt(ops, k, id) ensures k <= |front| {}
    forall k: nat | IndexedAt(front, k, id) ensures k < |front| {}
    hide Found, Stamps, IndexedAt;
    if id in q.index && !(last.ClaimOp? && last.id == id) {
      var k: nat :| IndexedAt(front, k, id) && q.index[id] == Found(front, k).nextHandle
                    && id !in Found(front, k).index;
      assert IndexedAt(ops, k, id);
    } else if Stamps(q, last, id) {
      assert IndexedAt(ops, |front|, id);
    }
    forall k: nat | IndexedAt(ops, k, id) ensures id in q'.index {
      if k < |front| {
        assert IndexedAt(front, k, id);
      }
    }
  }
}
