/** Every queue of every replica, in every run of the publish protocol, is a run of one message
    queue: the operations that reached it since its node last restarted. */
module PublishLocal {
  import opened Wrappers
  import opened Clocks
  import opened Ring
  import opened MessageQueues
  import opened QueueRuns
  import opened PublishProtocol
  import opened PublishCoordinators

  predicate IsNode(t: Option<Node>, n: U32) { t.Some? && t.value.id == n }

  /** The queue of a key on a node. */
  ghost function QueueOn(s: System, n: U32, key: Key): Queue
    requires n in s.nodes
  {
    QueueAt(s.nodes[n].queues, key)
  }

  /** What one more action adds to the operations of that queue. */
  ghost function LocalStep(s: System, a: Action, n: U32, key: Key, ops: seq<Op>): seq<Op> {
    match a
    case Deliver(id, i, data, ttlSecs, now) =>
      if CanDeliver(s, id, i) && IsNode(s.publishes[id].targets[i], n) && s.publishes[id].key == key
      then ops + [EnqueueOp(id, data, ttlSecs, now)] else ops
    case StampAt(id, i, now, pos) =>
      if && id in s.publishes && s.publishes[id].stamp.Some? && s.publishes[id].key == key
         && i < |s.publishes[id].targets| && IsNode(s.publishes[id].targets[i], n)
      then ops + [StampOp(id, s.publishes[id].stamp.value, now, pos)] else ops
    case ExpireAt(m, k, at, each) => if m == n && k == key then ops + [ExpireOp(at, each)] else ops
    case ClaimAt(m, k, id) => if m == n && k == key then ops + [ClaimOp(id)] else ops
    case Restart(m, _) => if m == n then [] else ops
    case _ => ops
  }

  ghost function Local(ring: seq<Node>, run: seq<Action>, n: U32, key: Key): seq<Op>
    requires ring != []
  {
    if run == [] then []
    else
      var front, last := run[..|run|-1], run[|run|-1];
      match PublishProtocol.After(ring, front)
      case None => []
      case Some(s) => LocalStep(s, last, n, key, Local(ring, front, n, key))
  }

  // ---- The refinement ----

  ghost predicate Refines(s: System, n: U32, key: Key, ops: seq<Op>) {
    n in s.nodes && QueueRuns.After(ops).Some? && QueueRuns.After(ops).value.q == QueueOn(s, n, key)
  }

  /** One operation on the queue. */
  lemma OneOp(s: System, s': System, n: U32, key: Key, ops: seq<Op>, op: Op)
    requires Refines(s, n, key, ops) && n in s'.nodes
    requires var h := QueueRuns.After(ops).value;
             Apply(h, op).Some? && Apply(h, op).value.q == QueueOn(s', n, key)
    ensures Refines(s', n, key, ops + [op])
  {
    hide Apply;
    AfterOneMore(ops, op);
  }

  lemma DeliverRefines(ring: seq<Node>, s: System, a: Action, s': System, n: U32, key: Key, ops: seq<Op>)
    requires ring != [] && a.Deliver? && PublishProtocol.Step(ring, s, a) == Some(s') && Refines(s, n, key, ops)
    ensures Refines(s', n, key, LocalStep(s, a, n, key, ops))
  {
    hide QueueRuns.After;
    if IsNode(s.publishes[a.id].targets[a.call], n) && s.publishes[a.id].key == key {
      OneOp(s, s', n, key, ops, EnqueueOp(a.id, a.data, a.ttlSecs, a.now));
    }
  }

  lemma StampRefines(ring: seq<Node>, s: System, a: Action, s': System, n: U32, key: Key, ops: seq<Op>)
    requires ring != [] && a.StampAt? && PublishProtocol.Step(ring, s, a) == Some(s') && Refines(s, n, key, ops)
    ensures Refines(s', n, key, LocalStep(s, a, n, key, ops))
  {
    hide QueueRuns.After, Slot, Stamp;
    var p := s.publishes[a.id];
    if IsNode(p.targets[a.call], n) && p.key == key {
      OneOp(s, s', n, key, ops, StampOp(a.id, p.stamp.value, a.now, a.pos));
    }
  }

  lemma OtherRefines(ring: seq<Node>, s: System, a: Action, s': System, n: U32, key: Key, ops: seq<Op>)
    requires ring != [] && !a.StampAt? && !a.Deliver?
    requires PublishProtocol.Step(ring, s, a) == Some(s') && Refines(s, n, key, ops)
    ensures Refines(s', n, key, LocalStep(s, a, n, key, ops))
  {
    hide Expire;
    match a
    case ExpireAt(m, k, at, each) =>
      if m == n && k == key { OneOp(s, s', n, key, ops, ExpireOp(at, each)); }
    case ClaimAt(m, k, id) =>
      if m == n && k == key { OneOp(s, s', n, key, ops, ClaimOp(id)); }
    case _ =>
  }

  /** peekAll() and everything else a replica answers for a queue is what the queue alone,
      given the operations that reached it, would answer. */
  lemma {:induction false} QueueRunsLocally(ring: seq<Node>, run: seq<Action>, s: System, n: U32, key: Key)
    requires ring != [] && PublishProtocol.After(ring, run) == Some(s) && n in s.nodes
    ensures var ops := Local(ring, run, n, key);
            QueueRuns.After(ops).Some? && QueueRuns.After(ops).value.q == QueueOn(s, n, key)
  {
    if run == [] {
    } else {
      LastAction(ring, run);
      var front, a := run[..|run|-1], run[|run|-1];
      var before := PublishProtocol.After(ring, front).value;
      RunTidy(ring, front, before);
      RunTidy(ring, run, s);
      QueueRunsLocally(ring, front, before, n, key);
      var ops := Local(ring, front, n, key);
      hide PublishProtocol.After, PublishProtocol.Step, QueueRuns.After, LocalStep;
      if a.Deliver? {
        DeliverRefines(ring, before, a, s, n, key, ops);
      } else if a.StampAt? {
        StampRefines(ring, before, a, s, n, key, ops);
      } else {
        OtherRefines(ring, before, a, s, n, key, ops);
      }
    }
  }

  // ---- Its stamps are those of the coordinators ----

  ghost predicate StampsOfPublishes(publishes: map<Id, Publish>, key: Key, ops: seq<Op>) {
    forall k :: 0 <= k < |ops| && ops[k].StampOp? ==>
      && ops[k].id in publishes && publishes[ops[k].id].key == key
      && publishes[ops[k].id].stamp == Some(ops[k].clock)
  }

  lemma StampsGoOn(publishes: map<Id, Publish>, publishes': map<Id, Publish>, key: Key, ops: seq<Op>)
    requires StampsOfPublishes(publishes, key, ops) && AllGoOn(publishes, publishes')
    ensures StampsOfPublishes(publishes', key, ops)
  {
  }

  lemma LocalStepStamps(s: System, a: Action, n: U32, key: Key, ops: seq<Op>)
    requires StampsOfPublishes(s.publishes, key, ops)
    ensures StampsOfPublishes(s.publishes, key, LocalStep(s, a, n, key, ops))
  {
  }

  lemma {:induction false} LocalStamps(ring: seq<Node>, run: seq<Action>, s: System, n: U32, key: Key)
    requires ring != [] && PublishProtocol.After(ring, run) == Some(s)
    ensures StampsOfPublishes(s.publishes, key, Local(ring, run, n, key))
  {
    if run == [] {
    } else {
      LastAction(ring, run);
      var front, a := run[..|run|-1], run[|run|-1];
      var before := PublishProtocol.After(ring, front).value;
      LocalStamps(ring, front, before, n, key);
      RunTidy(ring, front, before);
      hide StampsOfPublishes, LocalStep, PublishProtocol.Step;
      LocalStepStamps(before, a, n, key, Local(ring, front, n, key));
      StepTidy(ring, before, a, s);
      StampsGoOn(before.publishes, s.publishes, key, Local(ring, run, n, key));
    }
  }

  // ---- Its ids are not reused ----

  /** The publish was delivered to node n, as one to this queue. */
  ghost predicate Came(publishes: map<Id, Publish>, n: U32, key: Key, id: Id) {
    && id in publishes && publishes[id].key == key
    && exists i :: i in publishes[id].delivered && i < |publishes[id].targets| && IsNode(publishes[id].targets[i], n)
  }

  lemma CameStays(publishes: map<Id, Publish>, publishes': map<Id, Publish>, n: U32, key: Key, id: Id)
    requires Came(publishes, n, key, id) && AllGoOn(publishes, publishes')
    ensures Came(publishes', n, key, id)
  {
    var i :| i in publishes[id].delivered && i < |publishes[id].targets| && IsNode(publishes[id].targets[i], n);
    assert i in publishes'[id].delivered && IsNode(publishes'[id].targets[i], n);
  }

  lemma SameIdSameTarget(ring: seq<Node>, key: Key, targets: seq<Option<Node>>, i: nat)
    requires RingOk(ring) && TargetsOk(ring, key, targets) && i < 3 && targets[i].Some?
    ensures forall j: nat :: j < 3 && IsNode(targets[j], targets[i].value.id) ==> j == i
  {
    ReplicaIds(ring, key);
    forall j: nat | j < 3 && IsNode(targets[j], targets[i].value.id) ensures j == i {
      assert targets[j].value in Replicas(ring, key) && targets[i].value in Replicas(ring, key);
      assert targets[j] == targets[i];
    }
  }

  /** A call that was not delivered has not come to its node under another number. */
  lemma NotCameYet(ring: seq<Node>, s: System, id: Id, i: nat)
    requires RingOk(ring) && Tidy(ring, s) && CanDeliver(s, id, i)
    ensures !Came(s.publishes, s.publishes[id].targets[i].value.id, s.publishes[id].key, id)
  {
    var p := s.publishes[id];
    assert Orderly(ring, p);
    SameIdSameTarget(ring, p.key, p.targets, i);
  }

  lemma ComesNow(s: System, id: Id, i: nat, reply: VectorClock, n: U32)
    requires CanDeliver(s, id, i) && n == s.publishes[id].targets[i].value.id
    ensures Came(s.publishes[id := Delivered(s, id, i, reply)], n, s.publishes[id].key, id)
  {
    var p' := Delivered(s, id, i, reply);
    assert i in p'.delivered && IsNode(p'.targets[i], n);
  }

  /** What was sent to the queue are publishes that came to its node, each once. */
  ghost predicate SentOnce(publishes: map<Id, Publish>, n: U32, key: Key, ops: seq<Op>) {
    && NoReuse(ops) && QueueRuns.After(ops).Some?
    && forall id :: id in QueueRuns.After(ops).value.sent ==> Came(publishes, n, key, id)
  }

  lemma SentOnceGoesOn(publishes: map<Id, Publish>, publishes': map<Id, Publish>, n: U32, key: Key, ops: seq<Op>)
    requires SentOnce(publishes, n, key, ops) && AllGoOn(publishes, publishes')
    ensures SentOnce(publishes', n, key, ops)
  {
    hide Came;
    forall id | id in QueueRuns.After(ops).value.sent ensures Came(publishes', n, key, id) {
      CameStays(publishes, publishes', n, key, id);
    }
  }

  lemma OneMoreSent(publishes: map<Id, Publish>, n: U32, key: Key, ops: seq<Op>, op: Op)
    requires SentOnce(publishes, n, key, ops) && QueueRuns.After(ops + [op]).Some?
    requires op.EnqueueOp? ==> op.id !in QueueRuns.After(ops).value.sent && Came(publishes, n, key, op.id)
    ensures SentOnce(publishes, n, key, ops + [op])
  {
    hide Came;
    AfterOneMore(ops, op);
    assert (ops + [op])[..|ops|] == ops;
  }

  lemma LocalStepSent(ring: seq<Node>, s: System, a: Action, s': System, n: U32, key: Key, ops: seq<Op>)
    requires RingOk(ring) && Tidy(ring, s) && PublishProtocol.Step(ring, s, a) == Some(s')
    requires SentOnce(s.publishes, n, key, ops) && QueueRuns.After(LocalStep(s, a, n, key, ops)).Some?
    ensures SentOnce(s'.publishes, n, key, LocalStep(s, a, n, key, ops))
  {
    hide SentOnce, LocalStep, PublishProtocol.Step, Tidy, AllGoOn, QueueRuns.After;
    StepTidy(ring, s, a, s');
    SentOnceGoesOn(s.publishes, s'.publishes, n, key, ops);
    var ops' := LocalStep(s, a, n, key, ops);
    LocalStepShape(s, a, n, key, ops);
    if a.Deliver? && ops' != ops {
      DeliverSent(ring, s, a, s', n, key, ops);
    } else if ops' != ops && ops' != [] {
      OneMoreSent(s'.publishes, n, key, ops, ops'[|ops|]);
    } else {
      NothingSent(s'.publishes, n, key);
    }
  }

  lemma LocalStepShape(s: System, a: Action, n: U32, key: Key, ops: seq<Op>)
    ensures var ops' := LocalStep(s, a, n, key, ops);
            || ops' == ops || ops' == []
            || (|ops'| == |ops| + 1 && ops' == ops + [ops'[|ops|]] && (ops'[|ops|].EnqueueOp? ==> a.Deliver?))
  {
  }

  lemma NothingSent(publishes: map<Id, Publish>, n: U32, key: Key)
    ensures SentOnce(publishes, n, key, [])
  {
    assert QueueRuns.After([]).value.sent == map[];
  }

  lemma DeliverSent(ring: seq<Node>, s: System, a: Action, s': System, n: U32, key: Key, ops: seq<Op>)
    requires RingOk(ring) && Tidy(ring, s) && PublishProtocol.Step(ring, s, a) == Some(s')
    requires SentOnce(s.publishes, n, key, ops) && SentOnce(s'.publishes, n, key, ops)
    requires a.Deliver? && LocalStep(s, a, n, key, ops) != ops
    ensures SentOnce(s'.publishes, n, key, LocalStep(s, a, n, key, ops))
  {
    var p := s.publishes[a.id];
    var r := Receive(s.nodes[n], p.key, a.id, a.data, a.ttlSecs, a.now);
    NotCameYet(ring, s, a.id, a.call);
    ComesNow(s, a.id, a.call, ReplyClock(ring, p.key, n, r), n);
    var op := EnqueueOp(a.id, a.data, a.ttlSecs, a.now);
    AfterOneMore(ops, op);
    OneMoreSent(s'.publishes, n, key, ops, op);
  }

  /** No message comes to a queue twice, however calls, replies and failures interleave. */
  lemma {:induction false} LocalSentOnce(ring: seq<Node>, run: seq<Action>, s: System, n: U32, key: Key)
    requires RingOk(ring) && PublishProtocol.After(ring, run) == Some(s) && n in s.nodes
    ensures SentOnce(s.publishes, n, key, Local(ring, run, n, key))
  {
    if run == [] {
      assert QueueRuns.After([]).value.sent == map[];
    } else {
      LastAction(ring, run);
      var front, a := run[..|run|-1], run[|run|-1];
      var before := PublishProtocol.After(ring, front).value;
      RunTidy(ring, front, before);
      RunTidy(ring, run, s);
      LocalSentOnce(ring, front, before, n, key);
      QueueRunsLocally(ring, run, s, n, key);
      hide SentOnce, LocalStep, PublishProtocol.Step, QueueRuns.After;
      LocalStepSent(ring, before, a, s, n, key, Local(ring, front, n, key));
    }
  }
}
