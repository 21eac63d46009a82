/** What a run of the publish protocol says of its states: every coordinator is a run of the quorum
    logic, calls stand as they were answered, the log lists first deliveries, and a node's clock
    counts the messages it has received. */
module PublishHistory {
  import opened Wrappers
  import opened Clocks
  import opened Ring
  import opened QuorumProtocol
  import opened MessageQueues
  import opened PublishProtocol
  import opened PublishCoordinators
  import opened PublishLocal

  // ---- The coordinator of a publish ----

  /** The action is an event of the quorum logic of this publish. */
  ghost predicate IsEventOf(a: Action, id: Id) {
    (a.Launch? || a.Reply? || a.Fail?) && a.id == id
  }

  function EventOf(a: Action): Event
    requires a.Launch? || a.Reply? || a.Fail?
  {
    match a
    case Launch(_) => RunCall
    case Reply(_, i) => Event.Succeeded(i)
    case Fail(_, i) => Event.Failed(i)
  }

  /** What happened to the quorum logic of one publish, from the actions of the run alone. */
  ghost function Events(run: seq<Action>, id: Id): seq<Event> {
    if run == [] then []
    else
      var before, a := Events(run[..|run|-1], id), run[|run|-1];
      if IsEventOf(a, id) then before + [EventOf(a)] else before
  }

  lemma EventsNext(run: seq<Action>, a: Action, id: Id)
    ensures Events(run + [a], id) == if IsEventOf(a, id) then Events(run, id) + [EventOf(a)] else Events(run, id)
    ensures Events([], id) == []
  {
    assert (run + [a])[..|run|] == run;
  }

  /** One action, seen from the logic of one publish. */
  lemma LogicStep(ring: seq<Node>, s: System, a: Action, s': System, id: Id)
    requires ring != [] && PublishProtocol.Step(ring, s, a) == Some(s')
    ensures id in s.publishes ==> id in s'.publishes
    ensures IsEventOf(a, id) ==> id in s.publishes && id in s'.publishes
    ensures IsEventOf(a, id) ==>
              QuorumProtocol.Step(3, s.publishes[id].logic, EventOf(a)) == Some(s'.publishes[id].logic)
    ensures !IsEventOf(a, id) && id in s.publishes ==> s'.publishes[id].logic == s.publishes[id].logic
    ensures !IsEventOf(a, id) && id !in s.publishes && id in s'.publishes ==> s'.publishes[id].logic == Initial(3)
  {
    hide GoodQuorum, Receive, ReplyClock, Join, Aligned, ReplicaStep;
  }

  lemma LogicRunsOn(events: seq<Event>, e: Event, q: Quorum, q': Quorum)
    requires QuorumProtocol.After(3, events) == Some(q) && QuorumProtocol.Step(3, q, e) == Some(q')
    ensures QuorumProtocol.After(3, events + [e]) == Some(q')
  {
    assert (events + [e])[..|events|] == events;
  }

  /** In every run the logic of a publish is that of its launches, replies and failures: all that is
      proved of the quorum logic holds of every coordinator. */
  lemma {:induction false} CoordinatorRunsLocally(ring: seq<Node>, run: seq<Action>, s: System, id: Id)
    requires ring != [] && PublishProtocol.After(ring, run) == Some(s)
    ensures id !in s.publishes ==> Events(run, id) == []
    ensures id in s.publishes ==> QuorumProtocol.After(3, Events(run, id)) == Some(s.publishes[id].logic)
  {
    if run == [] {
    } else {
      hide PublishProtocol.Step, QuorumProtocol.Step, Events;
      LastAction(ring, run);
      hide PublishProtocol.After;
      var front, a := run[..|run|-1], run[|run|-1];
      var before := PublishProtocol.After(ring, front).value;
      CoordinatorRunsLocally(ring, front, before, id);
      LogicStep(ring, before, a, s, id);
      EventsNext(front, a, id);
      assert run == front + [a];
      if IsEventOf(a, id) {
        LogicRunsOn(Events(front, id), EventOf(a), before.publishes[id].logic, s.publishes[id].logic);
      } else {
        assert QuorumProtocol.After(3, []) == Some(Initial(3));
      }
    }
  }

  lemma {:induction false} EventsIff(run: seq<Action>, id: Id, i: nat)
    ensures Event.Succeeded(i) in Events(run, id) <==> Reply(id, i) in run
    ensures Event.Failed(i) in Events(run, id) <==> Fail(id, i) in run
  {
    if run == [] {
    } else {
      var front, a := run[..|run|-1], run[|run|-1];
      EventsIff(front, id, i);
      EventsNext(front, a, id);
      assert run == front + [a];
      hide Events;
    }
  }

  /** In every run a call of a publish counts as a success exactly when its reply came, as a failure
      exactly when its failure came, and is outstanding exactly when it was made and neither came. */
  lemma CallsStandAsAnswered(ring: seq<Node>, run: seq<Action>, s: System, id: Id, i: nat)
    requires ring != [] && PublishProtocol.After(ring, run) == Some(s) && id in s.publishes
    ensures var q := s.publishes[id].logic;
            && (i in q.successes <==> Reply(id, i) in run)
            && (i in q.failures <==> Fail(id, i) in run)
            && (i in q.pending <==> i in q.calls && Reply(id, i) !in run && Fail(id, i) !in run)
  {
    CoordinatorRunsLocally(ring, run, s, id);
    StandsAsAnswered(3, Events(run, id), i);
    EventsIff(run, id, i);
  }

  /** In every run the failure of an outstanding call leads to exactly one of a call to the next
      target and a call of the fail function, which answers the client UNAVAILABLE: the former
      exactly when it is the first failure and run() still owes a launch. */
  lemma FailureLeadsOn(ring: seq<Node>, run: seq<Action>, s: System, id: Id, i: nat, s': System)
    requires ring != [] && PublishProtocol.After(ring, run) == Some(s)
    requires PublishProtocol.Step(ring, s, Fail(id, i)) == Some(s')
    ensures id in s.publishes && id in s'.publishes && i in s.publishes[id].logic.pending
    ensures var q, q' := s.publishes[id].logic, s'.publishes[id].logic;
            var retried := q.failures == [] && q.owed > 0;
            && i in q'.failures && i !in q'.pending
            && q'.calls == (if retried then q.calls + [q.lastNode] else q.calls)
            && q'.pending == q.pending - {i} + (if retried then {q.lastNode} else {})
            && q'.failCalls == q.failCalls + (if retried then 0 else 1)
            && q'.successes == q.successes && q'.owed == q.owed
  {
    CoordinatorRunsLocally(ring, run, s, id);
    hide PublishProtocol.After, Events;
    LogicStep(ring, s, Fail(id, i), s', id);
    hide PublishProtocol.Step;
    FailedWasPending(s.publishes[id].logic, i);
    RunKeepsInv(3, Events(run, id));
    RetriedIff(3, Events(run, id), i);
    NewCallIsNew(s.publishes[id].logic, i);
  }

  lemma FailedWasPending(q: Quorum, i: nat)
    requires QuorumProtocol.Step(3, q, Event.Failed(i)).Some?
    ensures i in q.pending
    ensures var q' := QuorumProtocol.Step(3, q, Event.Failed(i)).value;
            i in q'.failures && q'.successes == q.successes && q'.owed == q.owed
  {
  }

  lemma NewCallIsNew(q: Quorum, i: nat)
    requires Inv(3, q) && i in q.pending
    ensures i != q.lastNode
  {
  }

  // ---- Deliveries ----

  predicate Delivers(a: Action, id: Id, i: nat) { a.Deliver? && a.id == id && a.call == i }

  ghost predicate DeliveredIn(run: seq<Action>, id: Id, i: nat) {
    exists k :: 0 <= k < |run| && Delivers(run[k], id, i)
  }

  lemma DeliveredNext(run: seq<Action>, a: Action, id: Id, i: nat)
    ensures DeliveredIn(run + [a], id, i) <==> DeliveredIn(run, id, i) || Delivers(a, id, i)
  {
    var all := run + [a];
    if DeliveredIn(all, id, i) {
      var k :| 0 <= k < |all| && Delivers(all[k], id, i);
      assert k < |run| ==> Delivers(run[k], id, i);
    }
    if DeliveredIn(run, id, i) {
      var k :| 0 <= k < |run| && Delivers(run[k], id, i);
      assert Delivers(all[k], id, i);
    }
    assert all[|run|] == a;
  }

  lemma DeliveredStep(ring: seq<Node>, s: System, a: Action, s': System, id: Id, i: nat)
    requires ring != [] && PublishProtocol.Step(ring, s, a) == Some(s')
    ensures Delivers(a, id, i) ==> id in s.publishes
    ensures id in s.publishes ==> id in s'.publishes
    ensures id in s'.publishes ==>
              (i in s'.publishes[id].delivered <==>
               (id in s.publishes && i in s.publishes[id].delivered) || Delivers(a, id, i))
  {
    hide GoodQuorum, Receive, ReplyClock, Join, Aligned, ReplicaStep, QuorumProtocol.Step;
  }

  /** In every run a call has reached its replica exactly when a delivery of it took place. */
  lemma {:induction false} ReachedIff(ring: seq<Node>, run: seq<Action>, s: System, id: Id, i: nat)
    requires ring != [] && PublishProtocol.After(ring, run) == Some(s)
    ensures id in s.publishes && i in s.publishes[id].delivered <==> DeliveredIn(run, id, i)
  {
    if run == [] {
    } else {
      hide PublishProtocol.Step, DeliveredIn, Delivers;
      LastAction(ring, run);
      hide PublishProtocol.After;
      var front, a := run[..|run|-1], run[|run|-1];
      var before := PublishProtocol.After(ring, front).value;
      ReachedIff(ring, front, before, id, i);
      DeliveredStep(ring, before, a, s, id, i);
      DeliveredNext(front, a, id, i);
      assert run == front + [a];
    }
  }

  /** One more call can be made exactly when the quorum has a node for it. */
  lemma CallReaches(p: Publish, p': Publish)
    requires CallsNodes(p) && p'.targets == p.targets && p.logic.lastNode < |p.targets|
    ensures p'.logic.lastNode == p.logic.lastNode ==> CallsNodes(p')
    ensures p'.logic.lastNode == p.logic.lastNode + 1 ==> (CallsNodes(p') <==> p.targets[p.logic.lastNode].Some?)
  {
  }

  lemma SameCalls(p: Publish, p': Publish)
    requires CallsNodes(p) && p'.targets == p.targets && p'.logic.lastNode == p.logic.lastNode
    ensures CallsNodes(p')
  {
  }

  lemma LaunchesWhen(ring: seq<Node>, s: System, id: Id)
    requires ring != [] && id in s.publishes && CallsNodes(s.publishes[id])
    requires var p := s.publishes[id]; |p.targets| == 3 && p.logic.lastNode + p.logic.owed <= 3
    ensures var p := s.publishes[id];
            PublishProtocol.Step(ring, s, Launch(id)).Some? <==>
            p.logic.owed > 0 && p.targets[p.logic.lastNode].Some?
  {
    hide CallsNodes, GoodQuorum;
    var p := s.publishes[id];
    if p.logic.owed > 0 {
      var p' := PublishStep(ring, s, Launch(id)).value;
      CallReaches(p, p');
    }
  }

  lemma RepliesWhen(ring: seq<Node>, s: System, id: Id, i: nat)
    requires ring != [] && id in s.publishes && CallsNodes(s.publishes[id])
    ensures var p := s.publishes[id];
            PublishProtocol.Step(ring, s, Reply(id, i)).Some? <==> i in p.logic.pending && i in p.delivered
  {
    hide CallsNodes, GoodQuorum, Aligned, Join;
    var p := s.publishes[id];
    if i in p.logic.pending && i in p.delivered {
      SameCalls(p, Answered(p, i));
    }
  }

  lemma FailsWhen(ring: seq<Node>, s: System, id: Id, i: nat)
    requires ring != [] && id in s.publishes && CallsNodes(s.publishes[id])
    requires var p := s.publishes[id]; |p.targets| == 3 && Inv(3, p.logic)
    ensures var p := s.publishes[id];
            PublishProtocol.Step(ring, s, Fail(id, i)).Some? <==>
            i in p.logic.pending &&
            (p.logic.failures == [] && p.logic.owed > 0 ==> p.targets[p.logic.lastNode].Some?)
  {
    hide CallsNodes, GoodQuorum, NoRepeats, Reported;
    var p := s.publishes[id];
    if i in p.logic.pending {
      var p' := PublishStep(ring, s, Fail(id, i)).value;
      if p.logic.lastNode < 3 {
        CallReaches(p, p');
      } else {
        SameCalls(p, p');
      }
    }
  }

  /** When a coordinator can go on, from the actions of the run: run() launches while it owes a call
      and the quorum has a node for it, a reply comes once the call was delivered, a failure at any
      time unless the retry it leads to finds an empty slot, and neither after an answer. */
  lemma GoesOnIff(ring: seq<Node>, run: seq<Action>, s: System, id: Id, i: nat)
    requires ring != [] && PublishProtocol.After(ring, run) == Some(s) && id in s.publishes
    ensures var p := s.publishes[id];
            var open := i in p.logic.calls && Reply(id, i) !in run && Fail(id, i) !in run;
            var next := p.logic.lastNode < |p.targets| && p.targets[p.logic.lastNode].Some?;
            && (PublishProtocol.Step(ring, s, Launch(id)).Some? <==> p.logic.owed > 0 && next)
            && (PublishProtocol.Step(ring, s, Reply(id, i)).Some? <==> open && DeliveredIn(run, id, i))
            && (PublishProtocol.Step(ring, s, Fail(id, i)).Some? <==>
                open && (p.logic.failures == [] && p.logic.owed > 0 ==> next))
  {
    RunTidy(ring, run, s);
    assert Orderly(ring, s.publishes[id]);
    LaunchesWhen(ring, s, id);
    RepliesWhen(ring, s, id, i);
    FailsWhen(ring, s, id, i);
    CallsStandAsAnswered(ring, run, s, id, i);
    ReachedIff(ring, run, s, id, i);
    hide PublishProtocol.After, PublishProtocol.Step, DeliveredIn;
  }

  lemma TargetIsNode(ring: seq<Node>, s: System, id: Id, i: nat)
    requires ring != [] && Tidy(ring, s) && id in s.publishes && i < s.publishes[id].logic.lastNode
    ensures var p := s.publishes[id]; i < |p.targets| && p.targets[i].Some? && p.targets[i].value.id in s.nodes
  {
    hide RingIds, LogTidy;
    var p := s.publishes[id];
    assert Orderly(ring, p);
    assert p.targets[i].value in Replicas(ring, p.key);
    InRing(ring, p.key, p.targets[i].value);
  }

  lemma InRing(ring: seq<Node>, key: Key, n: Node)
    requires ring != [] && n in Replicas(ring, key)
    ensures n.id in RingIds(ring)
  {
    assert n in ring;
  }

  lemma CallsAreBelow(q: Quorum, i: nat)
    requires Inv(3, q)
    ensures i in q.calls <==> i < q.lastNode
  {
    if i < q.lastNode {
      assert q.calls[i] == i;
    }
  }

  lemma DeliversWhen(ring: seq<Node>, s: System, id: Id, i: nat, data: string, ttlSecs: U32, now: Time)
    requires ring != [] && id in s.publishes
    requires var p := s.publishes[id];
             i < p.logic.lastNode ==> i < |p.targets| && p.targets[i].Some? && p.targets[i].value.id in s.nodes
    ensures PublishProtocol.Step(ring, s, Deliver(id, i, data, ttlSecs, now)).Some? <==>
            i < s.publishes[id].logic.lastNode && i !in s.publishes[id].delivered
  {
    hide DeliverTo;
  }

  lemma StampsWhen(ring: seq<Node>, s: System, id: Id, i: nat, now: Time, pos: nat)
    requires ring != [] && id in s.publishes
    requires var p := s.publishes[id];
             i in p.logic.successes ==> i < |p.targets| && p.targets[i].Some? && p.targets[i].value.id in s.nodes
    ensures var p := s.publishes[id];
            PublishProtocol.Step(ring, s, StampAt(id, i, now, pos)).Some? <==>
            && p.stamp.Some? && i in p.logic.successes
            && Slot(QueueOn(s, p.targets[i].value.id, p.key).queued, p.stamp.value, pos)
  {
    hide Slot, Stamp;
  }

  /** When a message and a stamp can reach a replica, from the actions of the run: the message once
      for each call that was made, whatever became of the call, and the stamp once there is one and
      the reply of the replica was counted, at any position where a search of its queue can end. */
  lemma ArrivesIff(ring: seq<Node>, run: seq<Action>, s: System, id: Id, i: nat, data: string, ttlSecs: U32,
                   now: Time, pos: nat)
    requires ring != [] && PublishProtocol.After(ring, run) == Some(s) && id in s.publishes
    ensures var p := s.publishes[id];
            && (PublishProtocol.Step(ring, s, Deliver(id, i, data, ttlSecs, now)).Some? <==>
                i in p.logic.calls && !DeliveredIn(run, id, i))
            && (i in p.logic.calls ==> i < |p.targets| && p.targets[i].Some? && p.targets[i].value.id in s.nodes)
            && (PublishProtocol.Step(ring, s, StampAt(id, i, now, pos)).Some? <==>
                && p.stamp.Some? && Reply(id, i) in run && i in p.logic.calls
                && Slot(QueueOn(s, p.targets[i].value.id, p.key).queued, p.stamp.value, pos))
  {
    hide PublishProtocol.After, PublishProtocol.Step, DeliveredIn, Slot, QueueOn;
    RunTidy(ring, run, s);
    LogicOk(ring, s, id);
    hide Tidy, Inv;
    CallsAreBelow(s.publishes[id].logic, i);
    SuccessIsCall(s.publishes[id].logic, i);
    CallsStandAsAnswered(ring, run, s, id, i);
    ReachedIff(ring, run, s, id, i);
    if i in s.publishes[id].logic.calls {
      TargetIsNode(ring, s, id, i);
    }
    DeliversWhen(ring, s, id, i, data, ttlSecs, now);
    StampsWhen(ring, s, id, i, now, pos);
  }

  lemma LogicOk(ring: seq<Node>, s: System, id: Id)
    requires ring != [] && Tidy(ring, s) && id in s.publishes
    ensures Inv(3, s.publishes[id].logic)
  {
    hide Inv, LogTidy;
    assert Orderly(ring, s.publishes[id]);
  }

  lemma SuccessIsCall(q: Quorum, i: nat)
    ensures Inv(3, q) && i in q.successes ==> i < q.lastNode
  {
  }

  /** The publishes in the order of their first deliveries, from the actions of the run alone. */
  ghost function FirstDeliveries(run: seq<Action>): seq<Id> {
    if run == [] then []
    else
      var before, a := FirstDeliveries(run[..|run|-1]), run[|run|-1];
      if a.Deliver? && a.id !in before then before + [a.id] else before
  }

  lemma LogStep(ring: seq<Node>, s: System, a: Action, s': System)
    requires ring != [] && PublishProtocol.Step(ring, s, a) == Some(s')
    ensures s'.log == if a.Deliver? && a.id !in s.log then s.log + [a.id] else s.log
  {
    hide GoodQuorum, Receive, ReplyClock, Join, Aligned, ReplicaStep, QuorumProtocol.Step;
  }

  /** The log of every run lists its publishes in the order of their first deliveries. */
  lemma {:induction false} LogIsFirstDeliveries(ring: seq<Node>, run: seq<Action>, s: System)
    requires ring != [] && PublishProtocol.After(ring, run) == Some(s)
    ensures s.log == FirstDeliveries(run)
  {
    if run == [] {
    } else {
      hide PublishProtocol.Step;
      LastAction(ring, run);
      hide PublishProtocol.After;
      var before := PublishProtocol.After(ring, run[..|run|-1]).value;
      LogIsFirstDeliveries(ring, run[..|run|-1], before);
      LogStep(ring, before, run[|run|-1], s);
    }
  }

  // ---- What a publish was begun with ----

  /** The key and the targets that a publish was begun with. */
  ghost function BegunIn(run: seq<Action>, id: Id): Option<(Key, seq<Option<Node>>)> {
    if run == [] then None
    else if run[|run|-1].Begin? && run[|run|-1].id == id then Some((run[|run|-1].key, run[|run|-1].targets))
    else BegunIn(run[..|run|-1], id)
  }

  lemma BegunStep(ring: seq<Node>, s: System, a: Action, s': System, id: Id)
    requires ring != [] && PublishProtocol.Step(ring, s, a) == Some(s')
    ensures a.Begin? && a.id == id ==> id !in s.publishes
    ensures id in s'.publishes <==> id in s.publishes || (a.Begin? && a.id == id)
    ensures id in s'.publishes ==>
              if a.Begin? && a.id == id then s'.publishes[id].key == a.key && s'.publishes[id].targets == a.targets
              else s'.publishes[id].key == s.publishes[id].key && s'.publishes[id].targets == s.publishes[id].targets
  {
    hide GoodQuorum, Receive, ReplyClock, Join, Aligned, ReplicaStep, QuorumProtocol.Step;
  }

  /** A publish keeps the queue and the targets it was begun with. */
  lemma {:induction false} BegunAs(ring: seq<Node>, run: seq<Action>, s: System, id: Id)
    requires ring != [] && PublishProtocol.After(ring, run) == Some(s)
    ensures BegunIn(run, id) ==
            if id in s.publishes then Some((s.publishes[id].key, s.publishes[id].targets)) else None
  {
    if run == [] {
    } else {
      hide PublishProtocol.Step;
      LastAction(ring, run);
      hide PublishProtocol.After;
      var before := PublishProtocol.After(ring, run[..|run|-1]).value;
      BegunAs(ring, run[..|run|-1], before, id);
      BegunStep(ring, before, run[|run|-1], s, id);
    }
  }

  // ---- The clock of a node ----

  /** The action delivers a message to this node. */
  ghost predicate Hits(run: seq<Action>, a: Action, n: U32) {
    && a.Deliver? && BegunIn(run, a.id).Some?
    && a.call < |BegunIn(run, a.id).value.1| && IsNode(BegunIn(run, a.id).value.1[a.call], n)
  }

  /** The messages a node has received since it last restarted. */
  ghost function Received(run: seq<Action>, n: U32): nat {
    if run == [] then 0
    else
      var front, a := run[..|run|-1], run[|run|-1];
      if a.Restart? && a.node == n then 0
      else Received(front, n) + if Hits(front, a, n) then 1 else 0
  }

  /** The clock at which it last started. */
  ghost function Resumed(run: seq<Action>, n: U32): Tick {
    if run == [] then Tick(0, 0)
    else if run[|run|-1].Restart? && run[|run|-1].node == n then run[|run|-1].tick
    else Resumed(run[..|run|-1], n)
  }

  lemma TickStep(ring: seq<Node>, s: System, a: Action, s': System, n: U32)
    requires ring != [] && PublishProtocol.Step(ring, s, a) == Some(s') && n in s.nodes
    ensures n in s'.nodes
    ensures s'.nodes[n].tick ==
            if a.Restart? && a.node == n then a.tick
            else if a.Deliver? && a.id in s.publishes && a.call < |s.publishes[a.id].targets|
                    && IsNode(s.publishes[a.id].targets[a.call], n)
            then Tick(s.nodes[n].tick.generation, (s.nodes[n].tick.clock + 1) % 0x1_0000_0000_0000_0000)
            else s.nodes[n].tick
  {
    hide GoodQuorum, ReplyClock, Join, Aligned, QuorumProtocol.Step, Slot, Stamp, Expire, Claim, Enqueue;
  }

  lemma CountStep(run: seq<Action>, a: Action, n: U32)
    ensures Resumed([], n) == Tick(0, 0) && Received([], n) == 0
    ensures a.Restart? && a.node == n ==> Resumed(run + [a], n) == a.tick && Received(run + [a], n) == 0
    ensures !(a.Restart? && a.node == n) ==>
              && Resumed(run + [a], n) == Resumed(run, n)
              && Received(run + [a], n) == Received(run, n) + if Hits(run, a, n) then 1 else 0
  {
    hide Hits;
    assert (run + [a])[..|run|] == run;
  }

  lemma HitsIff(ring: seq<Node>, run: seq<Action>, s: System, a: Action, n: U32)
    requires ring != [] && PublishProtocol.After(ring, run) == Some(s)
    ensures Hits(run, a, n) <==>
            && a.Deliver? && a.id in s.publishes && a.call < |s.publishes[a.id].targets|
            && IsNode(s.publishes[a.id].targets[a.call], n)
  {
    if a.Deliver? {
      BegunAs(ring, run, s, a.id);
    }
    hide PublishProtocol.After, BegunIn;
  }

  lemma StartsAtZero(ring: seq<Node>, n: U32)
    requires ring != [] && n in Initially(ring).nodes
    ensures Initially(ring).nodes[n].tick == Tick(0, 0)
  {
  }

  lemma NodesStay(ring: seq<Node>, run: seq<Action>, s: System)
    requires ring != [] && PublishProtocol.After(ring, run) == Some(s)
    ensures s.nodes.Keys == RingIds(ring)
  {
    RunTidy(ring, run, s);
  }

  /** The clock a node is at, from the actions of the run alone. */
  ghost function Counted(run: seq<Action>, n: U32): Tick {
    var start := Resumed(run, n);
    Tick(start.generation, (start.clock + Received(run, n)) % 0x1_0000_0000_0000_0000)
  }

  lemma CountedNext(run: seq<Action>, a: Action, n: U32)
    ensures Counted([], n) == Tick(0, 0)
    ensures Counted(run + [a], n) ==
            if a.Restart? && a.node == n then a.tick
            else if Hits(run, a, n)
            then Tick(Counted(run, n).generation, (Counted(run, n).clock + 1) % 0x1_0000_0000_0000_0000)
            else Counted(run, n)
  {
    hide Hits, Resumed, Received;
    CountStep(run, a, n);
    OneMoreCounted(Resumed(run, n).clock, Received(run, n));
  }

  lemma OneMoreCounted(start: nat, n: nat)
    ensures ((start + n) % 0x1_0000_0000_0000_0000 + 1) % 0x1_0000_0000_0000_0000
            == (start + (n + 1)) % 0x1_0000_0000_0000_0000
  {
  }

  /** A node's clock counts the messages it has received since it last started, in 64 bits. */
  lemma {:induction false} ClockCounts(ring: seq<Node>, run: seq<Action>, s: System, n: U32)
    requires ring != [] && PublishProtocol.After(ring, run) == Some(s) && n in s.nodes
    ensures s.nodes[n].tick == Counted(run, n)
  {
    hide PublishProtocol.Step, Counted, Hits, Initially;
    if run == [] {
      StartsAtZero(ring, n);
      CountedNext([], Restart(n, Tick(0, 0)), n);
    } else {
      LastAction(ring, run);
      hide PublishProtocol.After;
      var front, a := run[..|run|-1], run[|run|-1];
      var before := PublishProtocol.After(ring, front).value;
      NodesStay(ring, front, before);
      NodesStay(ring, run, s);
      ClockCounts(ring, front, before, n);
      HitsIff(ring, front, before, a, n);
      TickStep(ring, before, a, s, n);
      assert run == front + [a];
      CountedNext(front, a, n);
    }
  }

  // ---- What a reply reports ----

  /** The last clock of a peer that a node was told of since it started. */
  ghost function ToldOf(run: seq<Action>, n: U32, peer: U32): Tick {
    if run == [] then Tick(0, 0)
    else
      var a := run[|run|-1];
      if a.Restart? && a.node == n then Tick(0, 0)
      else if a.Refresh? && a.node == n && a.peer == peer then a.tick
      else ToldOf(run[..|run|-1], n, peer)
  }

  /** The clock of a node that another one shows, or of itself, from the actions of the run alone. */
  ghost function Shows(run: seq<Action>, n: U32, m: U32): Tick {
    if m != n then ToldOf(run, n, m) else Counted(run, n)
  }

  lemma ViewStep(ring: seq<Node>, s: System, a: Action, s': System, n: U32, m: U32)
    requires ring != [] && PublishProtocol.Step(ring, s, a) == Some(s') && n in s.nodes && m != n
    ensures n in s'.nodes
    ensures View(n, s'.nodes[n], m) ==
            if a.Restart? && a.node == n then Tick(0, 0)
            else if a.Refresh? && a.node == n && a.peer == m then a.tick
            else View(n, s.nodes[n], m)
  {
    hide GoodQuorum, ReplyClock, Join, Aligned, QuorumProtocol.Step, Slot, Stamp, Expire, Claim, Enqueue;
  }

  lemma ToldNext(run: seq<Action>, a: Action, n: U32, m: U32)
    ensures ToldOf([], n, m) == Tick(0, 0)
    ensures ToldOf(run + [a], n, m) ==
            if a.Restart? && a.node == n then Tick(0, 0)
            else if a.Refresh? && a.node == n && a.peer == m then a.tick
            else ToldOf(run, n, m)
  {
    assert (run + [a])[..|run|] == run;
  }

  /** A node's view of a peer is the last one it was told since it started. */
  lemma {:induction false} ViewIsLastTold(ring: seq<Node>, run: seq<Action>, s: System, n: U32, m: U32)
    requires ring != [] && PublishProtocol.After(ring, run) == Some(s) && n in s.nodes && m != n
    ensures View(n, s.nodes[n], m) == ToldOf(run, n, m)
  {
    hide PublishProtocol.Step, ToldOf, View;
    if run == [] {
      ToldNext([], Restart(n, Tick(0, 0)), n, m);
      NothingSeen(ring, n, m);
    } else {
      LastAction(ring, run);
      hide PublishProtocol.After;
      var front, a := run[..|run|-1], run[|run|-1];
      var before := PublishProtocol.After(ring, front).value;
      NodesStay(ring, front, before);
      NodesStay(ring, run, s);
      ViewIsLastTold(ring, front, before, n, m);
      ViewStep(ring, before, a, s, n, m);
      assert run == front + [a];
      ToldNext(front, a, n, m);
    }
  }

  lemma NothingSeen(ring: seq<Node>, n: U32, m: U32)
    requires ring != [] && n in Initially(ring).nodes && m != n
    ensures View(n, Initially(ring).nodes[n], m) == Tick(0, 0)
  {
  }

  lemma ViewOfRun(ring: seq<Node>, run: seq<Action>, s: System, n: U32, m: U32)
    requires ring != [] && PublishProtocol.After(ring, run) == Some(s) && n in s.nodes
    ensures View(n, s.nodes[n], m) == Shows(run, n, m)
  {
    hide PublishProtocol.After, ToldOf, Counted;
    if m == n {
      ClockCounts(ring, run, s, n);
    } else {
      ViewIsLastTold(ring, run, s, n, m);
    }
  }

  /** The reply of this call, as the delivery at position k of the run made it. */
  ghost predicate RepliedAt(ring: seq<Node>, run: seq<Action>, p: Publish, id: Id, i: nat, k: nat)
    requires ring != [] && i in p.delivered
  {
    && k < |run| && Delivers(run[k], id, i)
    && i < |p.targets| && p.targets[i].Some? && |p.delivered[i]| == 3
    && forall r :: 0 <= r < 3 ==>
         var m := Replicas(ring, p.key)[r].id;
         p.delivered[i][r] == ClockOf(m, Shows(run[..k+1], p.targets[i].value.id, m))
  }

  lemma ReplyStep(ring: seq<Node>, s: System, a: Action, s': System, id: Id, i: nat)
    requires ring != [] && PublishProtocol.Step(ring, s, a) == Some(s')
    requires id in s'.publishes && i in s'.publishes[id].delivered
    ensures var p := s'.publishes[id];
            if Delivers(a, id, i) then
              && i < |p.targets| && p.targets[i].Some?
              && var n := p.targets[i].value.id;
                 n in s'.nodes && p.delivered[i] == ReplyClock(ring, p.key, n, s'.nodes[n])
            else
              && id in s.publishes && i in s.publishes[id].delivered
              && p.key == s.publishes[id].key && p.targets == s.publishes[id].targets
              && p.delivered[i] == s.publishes[id].delivered[i]
  {
    hide GoodQuorum, ReplyClock, Join, Aligned, ReplicaStep, QuorumProtocol.Step, Receive;
  }

  lemma RepliesNow(ring: seq<Node>, run: seq<Action>, s: System, id: Id, i: nat)
    requires ring != [] && PublishProtocol.After(ring, run) == Some(s) && run != []
    requires id in s.publishes && i in s.publishes[id].delivered && Delivers(run[|run|-1], id, i)
    requires var p := s.publishes[id];
             && i < |p.targets| && p.targets[i].Some? && p.targets[i].value.id in s.nodes
             && p.delivered[i] == ReplyClock(ring, p.key, p.targets[i].value.id, s.nodes[p.targets[i].value.id])
    ensures RepliedAt(ring, run, s.publishes[id], id, i, |run| - 1)
  {
    hide PublishProtocol.After, Shows, View, Delivers;
    var p := s.publishes[id];
    var n := p.targets[i].value.id;
    assert run[..|run|] == run;
    forall r | 0 <= r < 3
      ensures View(n, s.nodes[n], Replicas(ring, p.key)[r].id) == Shows(run, n, Replicas(ring, p.key)[r].id)
    {
      ViewOfRun(ring, run, s, n, Replicas(ring, p.key)[r].id);
    }
  }

  lemma RepliedStays(ring: seq<Node>, run: seq<Action>, a: Action, p: Publish, p': Publish, id: Id, i: nat, k: nat)
    requires ring != [] && i in p.delivered && i in p'.delivered && RepliedAt(ring, run, p, id, i, k)
    requires p'.key == p.key && p'.targets == p.targets && p'.delivered[i] == p.delivered[i]
    ensures RepliedAt(ring, run + [a], p', id, i, k)
  {
    assert (run + [a])[..k+1] == run[..k+1];
  }

  /** In every run the reply to a call names the three replicas of the queue and gives, as of its
      delivery, how many messages the called node had received and what it had been told of the others. */
  lemma {:induction false} ReplyReports(ring: seq<Node>, run: seq<Action>, s: System, id: Id, i: nat) returns (k: nat)
    requires ring != [] && PublishProtocol.After(ring, run) == Some(s)
    requires id in s.publishes && i in s.publishes[id].delivered
    ensures RepliedAt(ring, run, s.publishes[id], id, i, k)
  {
    hide PublishProtocol.Step, Shows, Delivers, RepliedAt;
    if run == [] {
      assert false;
    } else {
      LastAction(ring, run);
      hide PublishProtocol.After;
      var front, a := run[..|run|-1], run[|run|-1];
      var before := PublishProtocol.After(ring, front).value;
      ReplyStep(ring, before, a, s, id, i);
      if Delivers(a, id, i) {
        k := |run| - 1;
        RepliesNow(ring, run, s, id, i);
      } else {
        k := ReplyReports(ring, front, before, id, i);
        RepliedStays(ring, front, a, before.publishes[id], s.publishes[id], id, i, k);
        assert run == front + [a];
      }
    }
  }
}
