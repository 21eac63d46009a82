/** What every step of the publish protocol keeps at the coordinators, whether clocks wrap or
    not: calls and replies are accounted for, a stamp is the maximum of the first two replies
    and stays, and a publish ends with a stamp or is given up. */
module PublishCoordinators {
  import opened Wrappers
  import opened Clocks
  import opened Ring
  import opened QuorumProtocol
  import opened MessageQueues
  import opened PublishProtocol

  // ---- Replicas of a key ----

  lemma ReplicaIds(ring: seq<Node>, key: Key)
    requires RingOk(ring)
    ensures var r := Replicas(ring, key);
            && r[0].id != r[1].id && r[1].id != r[2].id && r[0].id != r[2].id
            && r[0].id in RingIds(ring) && r[1].id in RingIds(ring) && r[2].id in RingIds(ring)
            && r[0] in ring && r[1] in ring && r[2] in ring
  {
    ReplicasDistinct(ring, key);
    var r := Replicas(ring, key);
    var a :| 0 <= a < |ring| && ring[a] == r[0];
    var b :| 0 <= b < |ring| && ring[b] == r[1];
    var c :| 0 <= c < |ring| && ring[c] == r[2];
    assert a != b && b != c && a != c;
  }

  // ---- The invariant ----

  ghost predicate TargetsOk(ring: seq<Node>, key: Key, targets: seq<Option<Node>>)
    requires ring != []
  {
    && |targets| == 3
    && (forall i :: 0 <= i < 3 && targets[i].Some? ==> targets[i].value in Replicas(ring, key))
    && (forall i, j :: 0 <= i < j < 3 && targets[i].Some? ==> targets[i] != targets[j])
  }

  /** A clock of the replicas of this key. */
  ghost predicate OfReplicas(ring: seq<Node>, key: Key, c: VectorClock)
    requires ring != []
  {
    |c| == 3 && forall r :: 0 <= r < 3 ==> c[r].nodeId == Replicas(ring, key)[r].id
  }

  ghost predicate CoordinatorOk(p: Publish) {
    && Inv(3, p.logic)
    && |p.clocks| == |p.logic.successes|
    && (forall k :: 0 <= k < |p.clocks| ==>
          p.logic.successes[k] in p.delivered && p.clocks[k] == p.delivered[p.logic.successes[k]])
    && (p.stamp.Some? <==> OperationSucceeded(3, p.logic))
    && (p.stamp.Some? ==> Aligned(p.clocks[0], p.clocks[1]) && p.stamp.value == Join(p.clocks[0], p.clocks[1]))
  }

  ghost predicate Orderly(ring: seq<Node>, p: Publish)
    requires ring != []
  {
    && TargetsOk(ring, p.key, p.targets)
    && CoordinatorOk(p)
    && CallsNodes(p)
    && (forall i :: i in p.delivered ==> i < 3 && i < p.logic.lastNode && OfReplicas(ring, p.key, p.delivered[i]))
  }

  ghost predicate AllOrderly(ring: seq<Node>, publishes: map<Id, Publish>)
    requires ring != []
  {
    forall id :: id in publishes ==> Orderly(ring, publishes[id])
  }

  /** The log lists publishes once each, and among them all that were delivered anywhere. */
  ghost predicate LogTidy(s: System) {
    && (forall i, j :: 0 <= i < j < |s.log| ==> s.log[i] != s.log[j])
    && (forall id :: id in s.log ==> id in s.publishes)
    && (forall id :: id in s.publishes && id !in s.log ==> s.publishes[id].delivered == map[])
  }

  ghost predicate Tidy(ring: seq<Node>, s: System)
    requires ring != []
  {
    s.nodes.Keys == RingIds(ring) && AllOrderly(ring, s.publishes) && LogTidy(s)
  }

  // ---- Steps at one coordinator ----

  lemma GoodTargets(ring: seq<Node>, key: Key, live: set<Node>, targets: seq<Option<Node>>)
    requires ring != [] && GoodQuorum(Replicas(ring, key), n => n in live, targets)
    ensures TargetsOk(ring, key, targets)
  {
    forall i | 0 <= i < 3 && targets[i].Some? ensures targets[i].value in Replicas(ring, key) {
      assert Some(targets[i].value) in targets;
    }
  }

  lemma BegunOrderly(ring: seq<Node>, key: Key, targets: seq<Option<Node>>)
    requires ring != [] && TargetsOk(ring, key, targets)
    ensures Orderly(ring, Begun(key, targets))
  {
  }

  lemma AnsweredOrderly(ring: seq<Node>, p: Publish, i: nat, p': Publish)
    requires ring != [] && Orderly(ring, p) && i in p.logic.pending && i in p.delivered && p' == Answered(p, i)
    ensures Orderly(ring, p') && p.stamp == None
  {
    StepKeepsInv(3, p.logic, Succeeded(i));
    assert |p.logic.pending| >= 1;
    if |p'.clocks| >= 2 {
      assert p'.clocks[0] == p.delivered[p'.logic.successes[0]] && p'.clocks[1] == p.delivered[p'.logic.successes[1]];
    }
  }

  lemma LogicOrderly(ring: seq<Node>, p: Publish, e: Event, p': Publish)
    requires ring != [] && Orderly(ring, p) && !e.Succeeded? && QuorumProtocol.Step(3, p.logic, e).Some?
    requires p' == p.(logic := QuorumProtocol.Step(3, p.logic, e).value) && CallsNodes(p')
    ensures Orderly(ring, p')
  {
    StepKeepsInv(3, p.logic, e);
    assert p'.logic.successes == p.logic.successes && p.logic.lastNode <= p'.logic.lastNode;
  }

  /** A reply more, and perhaps the history that a first delivery brings. */
  lemma DeliveredOrderly(ring: seq<Node>, p: Publish, i: nat, reply: VectorClock, floor: map<U32, Tick>, prior: set<Id>)
    requires ring != [] && Orderly(ring, p) && i !in p.delivered && i < 3 && i < p.logic.lastNode
    requires OfReplicas(ring, p.key, reply)
    ensures Orderly(ring, p.(delivered := p.delivered[i := reply], floor := floor, prior := prior))
  {
  }

  // ---- What stays as it is ----

  /** The step kept the key, the replies, the history and a stamp once given. */
  ghost predicate SameHistory(p: Publish, p': Publish) {
    && p'.key == p.key && p'.targets == p.targets && p'.delivered == p.delivered
    && p'.floor == p.floor && p'.prior == p.prior
    && (p.stamp.Some? ==> p'.stamp == p.stamp)
  }

  /** A publish goes on: calls, replies and fail calls are only added, and a stamp stays. */
  ghost predicate GoesOn(p: Publish, p': Publish) {
    && p'.key == p.key && p'.targets == p.targets
    && (p.stamp.Some? ==> p'.stamp == p.stamp)
    && p.delivered.Keys <= p'.delivered.Keys
    && p.logic.failCalls <= p'.logic.failCalls
    && p.logic.lastNode + p.logic.owed <= p'.logic.lastNode + p'.logic.owed
  }

  ghost predicate AllGoOn(publishes: map<Id, Publish>, publishes': map<Id, Publish>) {
    forall x :: x in publishes ==> x in publishes' && GoesOn(publishes[x], publishes'[x])
  }

  lemma ChangeGoesOn(publishes: map<Id, Publish>, id: Id, p: Publish)
    requires id in publishes ==> GoesOn(publishes[id], p)
    ensures AllGoOn(publishes, publishes[id := p])
  {
  }

  lemma GoOnFurther(a: map<Id, Publish>, b: map<Id, Publish>, c: map<Id, Publish>)
    requires AllGoOn(a, b) && AllGoOn(b, c)
    ensures AllGoOn(a, c)
  {
  }

  // ---- Every step ----

  lemma CoordinatorStep(ring: seq<Node>, s: System, a: Action, p: Publish)
    requires ring != [] && AllOrderly(ring, s.publishes) && PublishStep(ring, s, a) == Some(p) && CallsNodes(p)
    ensures Orderly(ring, p)
    ensures a.id in s.publishes ==> SameHistory(s.publishes[a.id], p) && GoesOn(s.publishes[a.id], p)
    ensures a.id !in s.publishes ==> p.delivered == map[] && p.prior == {} && p.floor == map[]
  {
    hide GoodQuorum;
    if a.Begin? {
      GoodTargets(ring, a.key, a.live, a.targets);
      BegunOrderly(ring, a.key, a.targets);
    } else {
      hide Orderly, CallsNodes, SameHistory, GoesOn;
      var p0 := s.publishes[a.id];
      assert Orderly(ring, p0);
      match a
      case Launch(id) =>
        LogicOrderly(ring, p0, RunCall, p);
        LogicGoesOn(p0, RunCall, p);
      case Reply(id, i) =>
        AnsweredOrderly(ring, p0, i, p);
        AnsweredGoesOn(p0, i, p);
      case Fail(id, i) =>
        LogicOrderly(ring, p0, Failed(i), p);
        LogicGoesOn(p0, Failed(i), p);
    }
  }

  lemma LogicGoesOn(p: Publish, e: Event, p': Publish)
    requires !e.Succeeded? && QuorumProtocol.Step(3, p.logic, e).Some?
    requires p' == p.(logic := QuorumProtocol.Step(3, p.logic, e).value)
    ensures SameHistory(p, p') && GoesOn(p, p')
  {
  }

  lemma AnsweredGoesOn(p: Publish, i: nat, p': Publish)
    requires i in p.logic.pending && i in p.delivered && p' == Answered(p, i) && p.stamp == None
    ensures SameHistory(p, p') && GoesOn(p, p')
  {
    hide Aligned, Join;
  }

  lemma TidyAfterCoordinator(ring: seq<Node>, s: System, id: Id, p: Publish)
    requires ring != [] && Tidy(ring, s) && Orderly(ring, p)
    requires id in s.publishes ==> p.delivered == s.publishes[id].delivered
    requires id !in s.publishes ==> p.delivered == map[]
    ensures Tidy(ring, s.(publishes := s.publishes[id := p]))
  {
  }

  lemma ReplyOfReplicas(ring: seq<Node>, key: Key, n: U32, r: Replica)
    requires ring != []
    ensures OfReplicas(ring, key, ReplyClock(ring, key, n, r))
  {
  }

  lemma TidyAfterDelivery(ring: seq<Node>, s: System, id: Id, i: nat, reply: VectorClock, s': System)
    requires ring != [] && Tidy(ring, s) && CanDeliver(s, id, i) && OfReplicas(ring, s.publishes[id].key, reply)
    requires s'.nodes.Keys == s.nodes.Keys && s'.publishes == s.publishes[id := Delivered(s, id, i, reply)]
    requires s'.log == if id in s.log then s.log else s.log + [id]
    ensures Tidy(ring, s') && AllGoOn(s.publishes, s'.publishes)
  {
    hide Orderly, AllGoOn;
    var p, p' := s.publishes[id], Delivered(s, id, i, reply);
    assert Orderly(ring, p);
    OrderlyTargets(ring, p);
    assert p' == p.(delivered := p.delivered[i := reply], floor := p'.floor, prior := p'.prior);
    DeliveredOrderly(ring, p, i, reply, p'.floor, p'.prior);
    ChangeGoesOn(s.publishes, id, p');
    LogAfterDelivered(s, id, s');
  }

  lemma OrderlyTargets(ring: seq<Node>, p: Publish)
    requires ring != [] && Orderly(ring, p)
    ensures |p.targets| == 3
  {
  }

  lemma LogAfterDelivered(s: System, id: Id, s': System)
    requires LogTidy(s) && id in s.publishes && id in s'.publishes
    requires s'.publishes == s.publishes[id := s'.publishes[id]]
    requires s'.log == if id in s.log then s.log else s.log + [id]
    ensures LogTidy(s')
  {
  }

  lemma StepTidy(ring: seq<Node>, s: System, a: Action, s': System)
    requires ring != [] && Tidy(ring, s) && PublishProtocol.Step(ring, s, a) == Some(s')
    ensures Tidy(ring, s') && AllGoOn(s.publishes, s'.publishes) && s.log <= s'.log
  {
    hide Tidy, AllGoOn, PublishStep, ReplicaStep, DeliverTo, CanDeliver, CallsNodes;
    if a.Deliver? {
      DeliverTidy(ring, s, a, s');
    } else if a.Begin? || a.Launch? || a.Reply? || a.Fail? {
      CoordinatorTidy(ring, s, a, PublishStep(ring, s, a).value);
    } else {
      ReplicaTidy(ring, s, a, ReplicaStep(s, a).value.0, ReplicaStep(s, a).value.1);
    }
  }

  lemma DeliverTidy(ring: seq<Node>, s: System, a: Action, s': System)
    requires ring != [] && Tidy(ring, s) && a.Deliver? && CanDeliver(s, a.id, a.call)
    requires s' == DeliverTo(ring, s, a.id, a.call, a.data, a.ttlSecs, a.now)
    ensures Tidy(ring, s') && AllGoOn(s.publishes, s'.publishes) && s.log <= s'.log
  {
    hide Tidy, AllGoOn, Receive, Delivered;
    var p := s.publishes[a.id];
    var n := p.targets[a.call].value.id;
    var r := Receive(s.nodes[n], p.key, a.id, a.data, a.ttlSecs, a.now);
    ReplyOfReplicas(ring, p.key, n, r);
    hide ReplyClock;
    TidyAfterDelivery(ring, s, a.id, a.call, ReplyClock(ring, p.key, n, r), s');
  }

  lemma CoordinatorTidy(ring: seq<Node>, s: System, a: Action, p: Publish)
    requires ring != [] && Tidy(ring, s) && (a.Begin? || a.Launch? || a.Reply? || a.Fail?)
    requires PublishStep(ring, s, a) == Some(p) && CallsNodes(p)
    ensures Tidy(ring, s.(publishes := s.publishes[a.id := p]))
    ensures AllGoOn(s.publishes, s.publishes[a.id := p])
  {
    hide Orderly, PublishStep, AllGoOn, GoesOn;
    CoordinatorStep(ring, s, a, p);
    TidyAfterCoordinator(ring, s, a.id, p);
    ChangeGoesOn(s.publishes, a.id, p);
  }

  lemma ReplicaTidy(ring: seq<Node>, s: System, a: Action, n: U32, r: Replica)
    requires ring != [] && Tidy(ring, s) && ReplicaStep(s, a) == Some((n, r))
    ensures Tidy(ring, s.(nodes := s.nodes[n := r])) && AllGoOn(s.publishes, s.publishes)
  {
    hide Orderly;
    assert s.nodes[n := r].Keys == s.nodes.Keys;
  }

  // ---- Every run ----

  lemma LastAction(ring: seq<Node>, run: seq<Action>)
    requires ring != [] && run != [] && PublishProtocol.After(ring, run).Some?
    ensures PublishProtocol.After(ring, run[..|run|-1]).Some?
    ensures PublishProtocol.Step(ring, PublishProtocol.After(ring, run[..|run|-1]).value, run[|run|-1])
            == PublishProtocol.After(ring, run)
  {
  }

  lemma {:induction false} RunTidy(ring: seq<Node>, run: seq<Action>, s: System)
    requires ring != [] && PublishProtocol.After(ring, run) == Some(s)
    ensures Tidy(ring, s)
  {
    if run == [] {
    } else {
      LastAction(ring, run);
      var before := PublishProtocol.After(ring, run[..|run|-1]).value;
      RunTidy(ring, run[..|run|-1], before);
      StepTidy(ring, before, run[|run|-1], s);
    }
  }

  lemma {:induction false} RunGoesOn(ring: seq<Node>, run: seq<Action>, more: seq<Action>, s: System, s': System)
    requires ring != [] && PublishProtocol.After(ring, run) == Some(s)
    requires PublishProtocol.After(ring, run + more) == Some(s')
    ensures AllGoOn(s.publishes, s'.publishes) && s.log <= s'.log
    decreases |more|
  {
    if more == [] {
      assert run + more == run;
    } else {
      var all, front := run + more, more[..|more|-1];
      assert all[..|all|-1] == run + front;
      LastAction(ring, all);
      var before := PublishProtocol.After(ring, run + front).value;
      RunGoesOn(ring, run, front, s, before);
      RunTidy(ring, run + front, before);
      StepTidy(ring, before, all[|all|-1], s');
      GoOnFurther(s.publishes, before.publishes, s'.publishes);
    }
  }

  /** In every run, wrapping clocks or not, a publish is stamped exactly when two replies have
      been counted, with the maximum of these two; it is never both stamped and given up, and
      when all its calls are answered it is one of them. */
  lemma StampedIff(ring: seq<Node>, run: seq<Action>, s: System, id: Id)
    requires ring != [] && PublishProtocol.After(ring, run) == Some(s) && id in s.publishes
    ensures var p := s.publishes[id];
            && (p.stamp.Some? <==> |p.logic.successes| == 2)
            && (p.stamp.Some? ==>
                  var i, j := p.logic.successes[0], p.logic.successes[1];
                  i != j && i in p.delivered && j in p.delivered && Aligned(p.delivered[i], p.delivered[j])
                  && p.stamp.value == Join(p.delivered[i], p.delivered[j]))
            && !(p.stamp.Some? && p.logic.failCalls > 0)
            && (Finished(p.logic) ==> (p.stamp.Some? <==> p.logic.failCalls == 0))
  {
    RunTidy(ring, run, s);
    assert Orderly(ring, s.publishes[id]);
  }

  lemma StampedIsLogged(ring: seq<Node>, s: System, id: Id)
    requires ring != [] && Tidy(ring, s) && id in s.publishes && s.publishes[id].stamp.Some?
    ensures id in s.log
  {
    assert Orderly(ring, s.publishes[id]);
    assert s.publishes[id].logic.successes[0] in s.publishes[id].delivered;
  }
}
