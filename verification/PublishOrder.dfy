/** What every step of the publish protocol keeps, and the order of stamps it leads to. */
module PublishOrder {
  import opened Wrappers
  import opened Clocks
  import opened Ring
  import opened MessageQueues
  import opened PublishProtocol
  import opened PublishCoordinators

  /** The role of a replica of the key. */
  ghost predicate HasRole(ring: seq<Node>, key: Key, r: nat, id: U32)
    requires ring != []
  {
    r < 3 && Replicas(ring, key)[r].id == id
  }

  // ---- The invariant ----

  ghost predicate ViewsOk(nodes: map<U32, Replica>) {
    forall n, m :: n in nodes && m in nodes && m in nodes[n].views && n != m ==>
      !Earlier(nodes[m].tick, nodes[n].views[m])
  }

  /** A clock of the replicas of this key that no node has fallen behind. */
  ghost predicate Fits(ring: seq<Node>, key: Key, ticks: map<U32, Tick>, c: VectorClock)
    requires ring != []
  {
    && |c| == 3
    && forall r :: 0 <= r < 3 ==>
         && c[r].nodeId == Replicas(ring, key)[r].id
         && c[r].nodeId in ticks
         && !Earlier(ticks[c[r].nodeId], TickOf(c[r]))
  }

  /** The reply of call i shows its own replica strictly after the publish's floor. */
  ghost predicate ReplyOk(ring: seq<Node>, ticks: map<U32, Tick>, p: Publish, i: nat)
    requires ring != [] && i in p.delivered
  {
    && i < |p.targets| && p.targets[i].Some?
    && Fits(ring, p.key, ticks, p.delivered[i])
    && var n := p.targets[i].value.id;
    && n in p.floor
    && forall r: nat :: HasRole(ring, p.key, r, n) ==> Earlier(p.floor[n], TickOf(p.delivered[i][r]))
  }

  ghost predicate FloorOk(ticks: map<U32, Tick>, p: Publish) {
    forall n :: n in p.floor ==> n in ticks && !Earlier(ticks[n], p.floor[n])
  }

  ghost predicate PublishOk(ring: seq<Node>, ticks: map<U32, Tick>, p: Publish)
    requires ring != []
  {
    && Orderly(ring, p)
    && FloorOk(ticks, p)
    && (forall i :: i in p.delivered ==> ReplyOk(ring, ticks, p, i))
  }

  /** The stamp of an earlier publish lies under the floor of a later one. */
  ghost predicate Under(ring: seq<Node>, a: Publish, p: Publish)
    requires ring != []
  {
    && a.stamp.Some?
    && (a.key == p.key ==> Fits(ring, p.key, p.floor, a.stamp.value))
  }

  ghost predicate PriorOk(ring: seq<Node>, publishes: map<Id, Publish>, p: Publish)
    requires ring != []
  {
    forall a :: a in p.prior ==> a in publishes && Under(ring, publishes[a], p)
  }

  ghost predicate LogOk(s: System) {
    && LogTidy(s)
    && (forall id :: id in s.log ==> s.publishes[id].floor.Keys == s.nodes.Keys)
    && (forall id :: id in s.publishes && id !in s.log ==> s.publishes[id].prior == {})
  }

  ghost predicate SystemOk(ring: seq<Node>, s: System)
    requires ring != []
  {
    && s.nodes.Keys == RingIds(ring)
    && ViewsOk(s.nodes)
    && LogOk(s)
    && AllOk(ring, Ticks(s.nodes), s.publishes)
    && AllPriorOk(ring, s.publishes)
  }

  ghost predicate AllOk(ring: seq<Node>, ticks: map<U32, Tick>, publishes: map<Id, Publish>)
    requires ring != []
  {
    forall id :: id in publishes ==> PublishOk(ring, ticks, publishes[id])
  }

  ghost predicate AllPriorOk(ring: seq<Node>, publishes: map<Id, Publish>)
    requires ring != []
  {
    forall id :: id in publishes ==> PriorOk(ring, publishes, publishes[id])
  }

  lemma SystemIsTidy(ring: seq<Node>, s: System)
    requires ring != [] && SystemOk(ring, s)
    ensures Tidy(ring, s)
  {
    forall id | id in s.publishes ensures Orderly(ring, s.publishes[id]) {
      assert PublishOk(ring, Ticks(s.nodes), s.publishes[id]);
    }
  }

  // ---- Clocks only move forward ----

  ghost predicate Advances(ticks: map<U32, Tick>, ticks': map<U32, Tick>) {
    ticks.Keys == ticks'.Keys && forall n :: n in ticks ==> !Earlier(ticks'[n], ticks[n])
  }

  lemma FitsLater(ring: seq<Node>, key: Key, ticks: map<U32, Tick>, ticks': map<U32, Tick>, c: VectorClock)
    requires ring != [] && Fits(ring, key, ticks, c) && Advances(ticks, ticks')
    ensures Fits(ring, key, ticks', c)
  {
  }

  lemma PublishOkLater(ring: seq<Node>, ticks: map<U32, Tick>, ticks': map<U32, Tick>, p: Publish)
    requires ring != [] && PublishOk(ring, ticks, p) && Advances(ticks, ticks')
    ensures PublishOk(ring, ticks', p)
  {
    forall i | i in p.delivered ensures ReplyOk(ring, ticks', p, i) {
      assert ReplyOk(ring, ticks, p, i);
      FitsLater(ring, p.key, ticks, ticks', p.delivered[i]);
    }
  }

  lemma AllOkLater(ring: seq<Node>, ticks: map<U32, Tick>, ticks': map<U32, Tick>, publishes: map<Id, Publish>)
    requires ring != [] && AllOk(ring, ticks, publishes) && Advances(ticks, ticks')
    ensures AllOk(ring, ticks', publishes)
  {
    forall id | id in publishes ensures PublishOk(ring, ticks', publishes[id]) {
      PublishOkLater(ring, ticks, ticks', publishes[id]);
    }
  }

  // ---- Steps inside one node ----

  lemma ViewsAfter(nodes: map<U32, Replica>, n: U32, r: Replica)
    requires ViewsOk(nodes) && n in nodes
    requires !Earlier(r.tick, nodes[n].tick)
    requires forall m :: m in r.views && m in nodes && m != n ==> !Earlier(nodes[m].tick, r.views[m])
    ensures ViewsOk(nodes[n := r])
    ensures Advances(Ticks(nodes), Ticks(nodes[n := r]))
  {
    TicksAfter(nodes, n, r);
    OneTick(Ticks(nodes), n, r.tick);
    hide Advances, Ticks;
    ViewsStay(nodes, n, r);
  }

  lemma TicksAfter(nodes: map<U32, Replica>, n: U32, r: Replica)
    requires n in nodes
    ensures Ticks(nodes[n := r]) == Ticks(nodes)[n := r.tick]
    ensures n in Ticks(nodes) && Ticks(nodes)[n] == nodes[n].tick
  {
  }

  lemma OneTick(ticks: map<U32, Tick>, n: U32, t: Tick)
    requires n in ticks
    ensures Advances(ticks, ticks[n := t]) <==> !Earlier(t, ticks[n])
  {
    assert ticks[n := t][n] == t;
    assert ticks[n := t].Keys == ticks.Keys;
  }

  lemma ViewsStay(nodes: map<U32, Replica>, n: U32, r: Replica)
    requires ViewsOk(nodes) && n in nodes
    requires !Earlier(r.tick, nodes[n].tick)
    requires forall m :: m in r.views && m in nodes && m != n ==> !Earlier(nodes[m].tick, r.views[m])
    ensures ViewsOk(nodes[n := r])
  {
    var nodes' := nodes[n := r];
    forall k, m | k in nodes' && m in nodes' && m in nodes'[k].views && k != m
      ensures !Earlier(nodes'[m].tick, nodes'[k].views[m])
    {
      assert m in nodes && (k != n ==> k in nodes);
    }
  }

  lemma NodeChangeKeeps(ring: seq<Node>, s: System, n: U32, r: Replica)
    requires ring != [] && SystemOk(ring, s) && n in s.nodes
    requires !Earlier(r.tick, s.nodes[n].tick)
    requires forall m :: m in r.views && m in s.nodes && m != n ==> !Earlier(s.nodes[m].tick, r.views[m])
    ensures SystemOk(ring, s.(nodes := s.nodes[n := r]))
  {
    var nodes := s.nodes[n := r];
    ViewsAfter(s.nodes, n, r);
    assert nodes.Keys == s.nodes.Keys;
    AllOkLater(ring, Ticks(s.nodes), Ticks(nodes), s.publishes);
    LogOkWith(s, nodes);
  }

  lemma LogOkWith(s: System, nodes: map<U32, Replica>)
    requires LogOk(s) && nodes.Keys == s.nodes.Keys
    ensures LogOk(s.(nodes := nodes))
  {
  }

  lemma ReplicaStepKeeps(ring: seq<Node>, s: System, a: Action, n: U32, r: Replica)
    requires ring != [] && SystemOk(ring, s) && ReplicaStep(s, a) == Some((n, r)) && Forward(s, a)
    ensures SystemOk(ring, s.(nodes := s.nodes[n := r]))
  {
    ReplicaStepTick(s, a);
    NodeChangeKeeps(ring, s, n, r);
  }

  lemma ReplicaStepTick(s: System, a: Action)
    requires ViewsOk(s.nodes) && ReplicaStep(s, a).Some? && Forward(s, a)
    ensures var (n, r) := ReplicaStep(s, a).value;
            && n in s.nodes && !Earlier(r.tick, s.nodes[n].tick)
            && forall m :: m in r.views && m in s.nodes && m != n ==> !Earlier(s.nodes[m].tick, r.views[m])
  {
  }

  // ---- Steps at the coordinator ----

  lemma RepliesStay(ring: seq<Node>, ticks: map<U32, Tick>, p: Publish, p': Publish)
    requires ring != [] && (forall k :: k in p.delivered ==> ReplyOk(ring, ticks, p, k))
    requires p'.delivered == p.delivered && p'.key == p.key && p'.targets == p.targets && p'.floor == p.floor
    ensures forall k :: k in p'.delivered ==> ReplyOk(ring, ticks, p', k)
  {
    forall k | k in p'.delivered ensures ReplyOk(ring, ticks, p', k) {
      assert ReplyOk(ring, ticks, p, k);
    }
  }

  lemma PublishStepOk(ring: seq<Node>, s: System, a: Action, p: Publish)
    requires ring != [] && SystemOk(ring, s) && PublishStep(ring, s, a) == Some(p) && CallsNodes(p)
    ensures PublishOk(ring, Ticks(s.nodes), p)
    ensures a.id in s.publishes ==> SameHistory(s.publishes[a.id], p)
    ensures a.id !in s.publishes ==> p.delivered == map[] && p.prior == {}
  {
    SystemIsTidy(ring, s);
    CoordinatorStep(ring, s, a, p);
    if a.id in s.publishes {
      var p0 := s.publishes[a.id];
      assert PublishOk(ring, Ticks(s.nodes), p0);
      RepliesStay(ring, Ticks(s.nodes), p0, p);
    }
  }

  lemma PriorAfter(ring: seq<Node>, publishes: map<Id, Publish>, id: Id, p': Publish, b: Publish)
    requires ring != [] && PriorOk(ring, publishes, b)
    requires id in publishes ==>
               p'.key == publishes[id].key && (publishes[id].stamp.Some? ==> p'.stamp == publishes[id].stamp)
    ensures PriorOk(ring, publishes[id := p'], b)
  {
    forall a | a in b.prior ensures a in publishes[id := p'] && Under(ring, publishes[id := p'][a], b) {
      assert Under(ring, publishes[a], b);
    }
  }

  lemma PublishChangeKeeps(ring: seq<Node>, s: System, id: Id, p: Publish)
    requires ring != [] && SystemOk(ring, s) && PublishOk(ring, Ticks(s.nodes), p)
    requires id in s.publishes ==> SameHistory(s.publishes[id], p)
    requires id !in s.publishes ==> p.delivered == map[] && p.prior == {}
    ensures SystemOk(ring, s.(publishes := s.publishes[id := p]))
  {
    PriorAfterChange(ring, s.publishes, id, p);
    LogAfterChange(s, id, p);
  }

  lemma LogAfterChange(s: System, id: Id, p: Publish)
    requires LogOk(s)
    requires id in s.publishes ==> SameHistory(s.publishes[id], p)
    requires id !in s.publishes ==> p.delivered == map[] && p.prior == {}
    ensures LogOk(s.(publishes := s.publishes[id := p]))
  {
  }

  lemma PriorAfterChange(ring: seq<Node>, publishes: map<Id, Publish>, id: Id, p: Publish)
    requires ring != [] && AllPriorOk(ring, publishes)
    requires id in publishes ==> SameHistory(publishes[id], p)
    requires id !in publishes ==> p.prior == {}
    ensures AllPriorOk(ring, publishes[id := p])
  {
    var publishes' := publishes[id := p];
    forall b | b in publishes' ensures PriorOk(ring, publishes', publishes'[b]) {
      if b in publishes {
        PriorAfter(ring, publishes, id, p, publishes[b]);
        SamePrior(ring, publishes', publishes[b], publishes'[b]);
      }
    }
  }

  lemma SamePrior(ring: seq<Node>, publishes: map<Id, Publish>, b: Publish, b': Publish)
    requires ring != [] && PriorOk(ring, publishes, b)
    requires b'.key == b.key && b'.floor == b.floor && b'.prior == b.prior
    ensures PriorOk(ring, publishes, b')
  {
    forall a | a in b'.prior ensures a in publishes && Under(ring, publishes[a], b') {
      assert Under(ring, publishes[a], b);
    }
  }

  lemma PublishStepKeeps(ring: seq<Node>, s: System, a: Action, p: Publish)
    requires ring != [] && SystemOk(ring, s) && PublishStep(ring, s, a) == Some(p) && CallsNodes(p)
    ensures SystemOk(ring, s.(publishes := s.publishes[a.id := p]))
  {
    PublishStepOk(ring, s, a, p);
    PublishChangeKeeps(ring, s, a.id, p);
  }

  // ---- Delivery ----

  /** The reply fits the clocks of the moment it is made. */
  lemma ReplyFits(ring: seq<Node>, key: Key, nodes: map<U32, Replica>, n: U32)
    requires RingOk(ring) && ViewsOk(nodes) && n in nodes && nodes.Keys == RingIds(ring)
    ensures Fits(ring, key, Ticks(nodes), ReplyClock(ring, key, n, nodes[n]))
  {
    ReplicaIds(ring, key);
    hide Replicas, RingOk, View, RingIds;
    forall m | m in nodes ensures !Earlier(nodes[m].tick, View(n, nodes[n], m)) {
      ViewFits(nodes, n, m);
    }
  }

  lemma ViewFits(nodes: map<U32, Replica>, n: U32, m: U32)
    requires ViewsOk(nodes) && n in nodes && m in nodes
    ensures !Earlier(nodes[m].tick, View(n, nodes[n], m))
  {
  }

  /** A reply whose own replica moved past the floor is a good reply. */
  lemma NewReplyOk(ring: seq<Node>, ticks: map<U32, Tick>, p: Publish, i: nat, reply: VectorClock,
                   floor: map<U32, Tick>, prior: set<Id>, ticks': map<U32, Tick>)
    requires ring != [] && PublishOk(ring, ticks, p) && Advances(ticks, ticks')
    requires i !in p.delivered && i < 3 && i < p.logic.lastNode && p.targets[i].Some?
    requires p.delivered == map[] || floor == p.floor
    requires forall n :: n in floor ==> n in ticks && !Earlier(ticks[n], floor[n])
    requires var n := p.targets[i].value.id;
             n in ticks && n in floor
             && forall r: nat :: HasRole(ring, p.key, r, n) ==> r < |reply| && Earlier(ticks[n], TickOf(reply[r]))
    requires Fits(ring, p.key, ticks', reply)
    ensures PublishOk(ring, ticks', p.(delivered := p.delivered[i := reply], floor := floor, prior := prior))
  {
    var p' := p.(delivered := p.delivered[i := reply], floor := floor, prior := prior);
    PublishOkLater(ring, ticks, ticks', p);
    forall k | k in p'.delivered ensures ReplyOk(ring, ticks', p', k) {
      if k != i {
        assert ReplyOk(ring, ticks', p, k);
      }
    }
    DeliveredOrderly(ring, p, i, reply, floor, prior);
  }

  lemma DeliveredOk(ring: seq<Node>, s: System, id: Id, i: nat, ticks': map<U32, Tick>, reply: VectorClock)
    requires ring != [] && LogOk(s) && CanDeliver(s, id, i) && PublishOk(ring, Ticks(s.nodes), s.publishes[id])
    requires Advances(Ticks(s.nodes), ticks') && Fits(ring, s.publishes[id].key, ticks', reply)
    requires var n := s.publishes[id].targets[i].value.id;
             forall r: nat :: HasRole(ring, s.publishes[id].key, r, n) ==> Earlier(s.nodes[n].tick, TickOf(reply[r]))
    ensures PublishOk(ring, ticks', Delivered(s, id, i, reply))
  {
    var p, p' := s.publishes[id], Delivered(s, id, i, reply);
    FloorAtDelivery(s, id, i, reply);
    assert p' == p.(delivered := p.delivered[i := reply], floor := p'.floor, prior := p'.prior);
    NewReplyOk(ring, Ticks(s.nodes), p, i, reply, p'.floor, p'.prior, ticks');
  }

  lemma FloorAtDelivery(s: System, id: Id, i: nat, reply: VectorClock)
    requires LogOk(s) && CanDeliver(s, id, i) && FloorOk(Ticks(s.nodes), s.publishes[id])
    ensures var p, p' := s.publishes[id], Delivered(s, id, i, reply);
            && (p.delivered == map[] || p'.floor == p.floor)
            && p'.floor.Keys == s.nodes.Keys
            && (forall n :: n in p'.floor ==> !Earlier(s.nodes[n].tick, p'.floor[n]))
  {
  }

  /** Every stamp given so far lies under the present clocks. */
  lemma StampFits(ring: seq<Node>, ticks: map<U32, Tick>, p: Publish)
    requires ring != [] && PublishOk(ring, ticks, p) && p.stamp.Some?
    ensures Fits(ring, p.key, ticks, p.stamp.value)
  {
    var a, b := p.logic.successes[0], p.logic.successes[1];
    assert ReplyOk(ring, ticks, p, a) && ReplyOk(ring, ticks, p, b);
    assert p.stamp.value == Join(p.delivered[a], p.delivered[b]);
  }

  lemma DeliveredPrior(ring: seq<Node>, s: System, id: Id, i: nat, reply: VectorClock)
    requires ring != [] && SystemOk(ring, s) && CanDeliver(s, id, i)
    ensures PriorOk(ring, s.publishes, Delivered(s, id, i, reply))
  {
    var p' := Delivered(s, id, i, reply);
    assert PriorOk(ring, s.publishes, s.publishes[id]);
    forall a | a in p'.prior ensures a in s.publishes && Under(ring, s.publishes[a], p') {
      if id in s.log {
        assert Under(ring, s.publishes[a], s.publishes[id]);
      } else {
        assert PublishOk(ring, Ticks(s.nodes), s.publishes[a]);
        StampFits(ring, Ticks(s.nodes), s.publishes[a]);
      }
    }
  }

  lemma LogAfterDelivery(s: System, id: Id, i: nat, s': System, reply: VectorClock)
    requires LogOk(s) && CanDeliver(s, id, i)
    requires s'.nodes.Keys == s.nodes.Keys && s'.publishes == s.publishes[id := Delivered(s, id, i, reply)]
    requires s'.log == if id in s.log then s.log else s.log + [id]
    ensures LogOk(s')
  {
  }

  lemma OwnComponent(ring: seq<Node>, key: Key, n: U32, r: Replica)
    requires ring != []
    ensures forall role: nat :: HasRole(ring, key, role, n) ==> TickOf(ReplyClock(ring, key, n, r)[role]) == r.tick
  {
  }

  /** What a replica that received a publish leaves to be shown. */
  lemma NodesAfterReceive(ring: seq<Node>, nodes: map<U32, Replica>, n: U32, r: Replica, key: Key)
    requires RingOk(ring) && ViewsOk(nodes) && nodes.Keys == RingIds(ring) && n in nodes
    requires Earlier(nodes[n].tick, r.tick) && r.views == nodes[n].views
    ensures ViewsOk(nodes[n := r]) && Advances(Ticks(nodes), Ticks(nodes[n := r])) && nodes[n := r].Keys == nodes.Keys
    ensures Fits(ring, key, Ticks(nodes[n := r]), ReplyClock(ring, key, n, r))
    ensures forall role: nat :: HasRole(ring, key, role, n) ==>
              Earlier(nodes[n].tick, TickOf(ReplyClock(ring, key, n, r)[role]))
  {
    ViewsAfter(nodes, n, r);
    assert nodes[n := r].Keys == nodes.Keys;
    ReplyFits(ring, key, nodes[n := r], n);
    OwnComponent(ring, key, n, r);
  }

  lemma DeliverKeeps(ring: seq<Node>, s: System, id: Id, i: nat, data: string, ttlSecs: U32, now: Time, s': System)
    requires RingOk(ring) && SystemOk(ring, s) && CanDeliver(s, id, i)
    requires Forward(s, Deliver(id, i, data, ttlSecs, now))
    requires s' == DeliverTo(ring, s, id, i, data, ttlSecs, now)
    ensures SystemOk(ring, s')
  {
    var key, n := s.publishes[id].key, s.publishes[id].targets[i].value.id;
    var r := Receive(s.nodes[n], key, id, data, ttlSecs, now);
    BumpAdvancesIff(s.nodes[n].tick);
    NodesAfterReceive(ring, s.nodes, n, r, key);
    DeliveryKeeps(ring, s, id, i, s.nodes[n := r], ReplyClock(ring, key, n, r), s');
  }

  lemma DeliveryKeeps(ring: seq<Node>, s: System, id: Id, i: nat, nodes: map<U32, Replica>, reply: VectorClock,
                      s': System)
    requires RingOk(ring) && SystemOk(ring, s) && CanDeliver(s, id, i)
    requires ViewsOk(nodes) && Advances(Ticks(s.nodes), Ticks(nodes)) && nodes.Keys == s.nodes.Keys
    requires Fits(ring, s.publishes[id].key, Ticks(nodes), reply)
    requires var n := s.publishes[id].targets[i].value.id;
             forall r: nat :: HasRole(ring, s.publishes[id].key, r, n) ==> Earlier(s.nodes[n].tick, TickOf(reply[r]))
    requires s' == System(nodes, s.publishes[id := Delivered(s, id, i, reply)],
                          if id in s.log then s.log else s.log + [id])
    ensures SystemOk(ring, s')
  {
    assert PublishOk(ring, Ticks(s.nodes), s.publishes[id]);
    DeliveredOk(ring, s, id, i, Ticks(nodes), reply);
    DeliveredPrior(ring, s, id, i, reply);
    LogAfterDelivery(s, id, i, s', reply);
    OthersAfterDelivery(ring, s, s', id);
  }

  lemma OthersAfterDelivery(ring: seq<Node>, s: System, s': System, id: Id)
    requires ring != [] && SystemOk(ring, s) && id in s.publishes && id in s'.publishes
    requires s'.publishes == s.publishes[id := s'.publishes[id]]
    requires Advances(Ticks(s.nodes), Ticks(s'.nodes))
    requires s'.publishes[id].key == s.publishes[id].key && s'.publishes[id].stamp == s.publishes[id].stamp
    requires PriorOk(ring, s.publishes, s'.publishes[id])
    ensures forall b :: b in s'.publishes ==> PriorOk(ring, s'.publishes, s'.publishes[b])
    ensures forall b :: b in s'.publishes && b != id ==> PublishOk(ring, Ticks(s'.nodes), s'.publishes[b])
  {
    AllOkLater(ring, Ticks(s.nodes), Ticks(s'.nodes), s.publishes);
    PriorsAfterDelivery(ring, s.publishes, id, s'.publishes[id]);
  }

  lemma PriorsAfterDelivery(ring: seq<Node>, publishes: map<Id, Publish>, id: Id, p: Publish)
    requires ring != [] && AllPriorOk(ring, publishes) && id in publishes && PriorOk(ring, publishes, p)
    requires p.key == publishes[id].key && p.stamp == publishes[id].stamp
    ensures AllPriorOk(ring, publishes[id := p])
  {
    var publishes' := publishes[id := p];
    forall b | b in publishes' ensures PriorOk(ring, publishes', publishes'[b]) {
      PriorAfter(ring, publishes, id, p, publishes'[b]);
    }
  }

  // ---- Every run ----

  /** A step leaves every clock where it was or moves it forward, and what must hold of a delivery
      or a restart for this is exactly Forward. */
  lemma ForwardIff(ring: seq<Node>, s: System, a: Action, s': System)
    requires ring != [] && PublishProtocol.Step(ring, s, a) == Some(s')
    ensures Forward(s, a) <==> Advances(Ticks(s.nodes), Ticks(s'.nodes))
  {
    hide Advances, Ticks, Receive, DeliverTo, ReplicaStep, PublishStep;
    if a.Deliver? {
      DeliverForward(ring, s, a, s');
    } else if a.Begin? || a.Launch? || a.Reply? || a.Fail? {
      NothingBack(s.nodes);
    } else {
      ReplicaForward(s, a, ReplicaStep(s, a).value.0, ReplicaStep(s, a).value.1);
    }
  }

  lemma NothingBack(nodes: map<U32, Replica>)
    ensures Advances(Ticks(nodes), Ticks(nodes))
  {
  }

  lemma DeliverForward(ring: seq<Node>, s: System, a: Action, s': System)
    requires ring != [] && a.Deliver? && CanDeliver(s, a.id, a.call)
    requires s' == DeliverTo(ring, s, a.id, a.call, a.data, a.ttlSecs, a.now)
    ensures Forward(s, a) <==> Advances(Ticks(s.nodes), Ticks(s'.nodes))
  {
    hide Advances, Ticks, Receive, Delivered, ReplyClock;
    var p := s.publishes[a.id];
    var n := p.targets[a.call].value.id;
    var r := Receive(s.nodes[n], p.key, a.id, a.data, a.ttlSecs, a.now);
    ReceiveTick(s.nodes[n], p.key, a.id, a.data, a.ttlSecs, a.now);
    TicksAfter(s.nodes, n, r);
    OneTick(Ticks(s.nodes), n, r.tick);
  }

  lemma ReplicaForward(s: System, a: Action, n: U32, r: Replica)
    requires !a.Deliver? && ReplicaStep(s, a) == Some((n, r))
    ensures Forward(s, a) <==> Advances(Ticks(s.nodes), Ticks(s.nodes[n := r]))
  {
    hide Advances, Ticks, Slot, Stamp, Expire, Claim;
    TicksAfter(s.nodes, n, r);
    OneTick(Ticks(s.nodes), n, r.tick);
  }

  lemma ReceiveTick(r: Replica, key: Key, id: Id, data: string, ttlSecs: U32, now: Time)
    ensures Receive(r, key, id, data, ttlSecs, now).tick == Bump(r.tick)
    ensures !Earlier(Bump(r.tick), r.tick) <==> r.tick.clock != 0xFFFF_FFFF_FFFF_FFFF
  {
  }

  lemma StepKeeps(ring: seq<Node>, s: System, a: Action, s': System)
    requires RingOk(ring) && SystemOk(ring, s) && PublishProtocol.Step(ring, s, a) == Some(s') && Forward(s, a)
    ensures SystemOk(ring, s')
  {
    if a.Deliver? {
      DeliverKeeps(ring, s, a.id, a.call, a.data, a.ttlSecs, a.now, s');
    } else if a.Begin? || a.Launch? || a.Reply? || a.Fail? {
      PublishStepKeeps(ring, s, a, PublishStep(ring, s, a).value);
    } else {
      var (n, r) := ReplicaStep(s, a).value;
      ReplicaStepKeeps(ring, s, a, n, r);
    }
  }

  lemma {:induction false} RunKeeps(ring: seq<Node>, run: seq<Action>, s: System)
    requires RingOk(ring) && PublishProtocol.After(ring, run) == Some(s) && AllForward(ring, run)
    ensures SystemOk(ring, s)
  {
    if run == [] {
    } else {
      LastAction(ring, run);
      var front := run[..|run|-1];
      var before := PublishProtocol.After(ring, front).value;
      RunKeeps(ring, front, before);
      StepKeeps(ring, before, run[|run|-1], s);
    }
  }

  // ---- The order of stamps ----

  lemma RolesOfTargets(ring: seq<Node>, key: Key, targets: seq<Option<Node>>, i: nat, j: nat) returns (a: nat, b: nat)
    requires RingOk(ring) && TargetsOk(ring, key, targets) && i < 3 && j < 3 && i != j
    requires targets[i].Some? && targets[j].Some?
    ensures a != b && HasRole(ring, key, a, targets[i].value.id) && HasRole(ring, key, b, targets[j].value.id)
  {
    var r := Replicas(ring, key);
    a :| 0 <= a < 3 && r[a] == targets[i].value;
    b :| 0 <= b < 3 && r[b] == targets[j].value;
    assert targets[i] != targets[j];
  }

  /** A reply from a replica lifts the stamp past the floor there. */
  lemma StampPastFloor(ring: seq<Node>, ticks: map<U32, Tick>, p: Publish, k: nat, r: nat)
    requires ring != [] && PublishOk(ring, ticks, p) && p.stamp.Some? && k < 2
    requires |p.logic.successes| >= 2 && p.logic.successes[k] < 3 && p.targets[p.logic.successes[k]].Some?
    requires HasRole(ring, p.key, r, p.targets[p.logic.successes[k]].value.id)
    ensures var n := p.targets[p.logic.successes[k]].value.id;
            |p.stamp.value| == 3 && n in p.floor && Earlier(p.floor[n], TickOf(p.stamp.value[r]))
  {
    hide PublishOk, Join, Aligned, Earlier;
    StampJoins(ring, ticks, p);
    var a, b := p.logic.successes[0], p.logic.successes[1];
    JoinPast(p.delivered[a], p.delivered[b], r, p.floor[p.targets[p.logic.successes[k]].value.id]);
  }

  lemma StampJoins(ring: seq<Node>, ticks: map<U32, Tick>, p: Publish)
    requires ring != [] && PublishOk(ring, ticks, p) && p.stamp.Some?
    ensures |p.logic.successes| >= 2
    ensures var a, b := p.logic.successes[0], p.logic.successes[1];
            && a in p.delivered && b in p.delivered && ReplyOk(ring, ticks, p, a) && ReplyOk(ring, ticks, p, b)
            && Aligned(p.delivered[a], p.delivered[b])
            && p.stamp.value == Join(p.delivered[a], p.delivered[b])
  {
    hide ReplyOk, FloorOk, Join;
  }

  lemma JoinPast(c: VectorClock, d: VectorClock, r: nat, t: Tick)
    requires Aligned(c, d) && r < |c| && (Earlier(t, TickOf(c[r])) || Earlier(t, TickOf(d[r])))
    ensures Earlier(t, TickOf(Join(c, d)[r]))
  {
  }

  /** A publish stamped before another one of the queue was first delivered has the lesser stamp. */
  lemma PriorDecides(ring: seq<Node>, s: System, a: Id, b: Id)
    requires RingOk(ring) && SystemOk(ring, s) && a in s.publishes && b in s.publishes
    requires a in s.publishes[b].prior && s.publishes[a].key == s.publishes[b].key && s.publishes[b].stamp.Some?
    ensures s.publishes[a].stamp.Some?
    ensures Less(s.publishes[a].stamp.value, s.publishes[b].stamp.value)
    ensures !Less(s.publishes[b].stamp.value, s.publishes[a].stamp.value)
  {
    var ticks, p := Ticks(s.nodes), s.publishes[b];
    assert PublishOk(ring, ticks, p) && PriorOk(ring, s.publishes, p);
    assert Under(ring, s.publishes[a], p);
    PriorDecidesFor(ring, ticks, s.publishes[a].stamp.value, p);
  }

  lemma FitsAligned(ring: seq<Node>, key: Key, f: map<U32, Tick>, c: VectorClock, f': map<U32, Tick>, c': VectorClock)
    requires RingOk(ring) && Fits(ring, key, f, c) && Fits(ring, key, f', c')
    ensures Aligned(c, c') && Distinct(c)
  {
    ReplicaIds(ring, key);
  }

  lemma PastAtRole(ring: seq<Node>, ticks: map<U32, Tick>, c: VectorClock, p: Publish, k: nat, r: nat)
    requires ring != [] && PublishOk(ring, ticks, p) && p.stamp.Some? && Fits(ring, p.key, p.floor, c) && k < 2
    requires |p.logic.successes| >= 2 && p.logic.successes[k] < 3 && p.targets[p.logic.successes[k]].Some?
    requires HasRole(ring, p.key, r, p.targets[p.logic.successes[k]].value.id)
    ensures |p.stamp.value| == 3 && Earlier(TickOf(c[r]), TickOf(p.stamp.value[r]))
  {
    StampPastFloor(ring, ticks, p, k, r);
    EarlierThrough(TickOf(c[r]), p.floor[c[r].nodeId], TickOf(p.stamp.value[r]));
  }

  lemma TwoReplies(ring: seq<Node>, ticks: map<U32, Tick>, p: Publish)
    requires ring != [] && PublishOk(ring, ticks, p) && p.stamp.Some?
    ensures |p.logic.successes| >= 2
    ensures var i, j := p.logic.successes[0], p.logic.successes[1];
            i < 3 && j < 3 && i != j && p.targets[i].Some? && p.targets[j].Some?
  {
    assert ReplyOk(ring, ticks, p, p.logic.successes[0]) && ReplyOk(ring, ticks, p, p.logic.successes[1]);
  }

  lemma PriorDecidesFor(ring: seq<Node>, ticks: map<U32, Tick>, c: VectorClock, p: Publish)
    requires RingOk(ring) && PublishOk(ring, ticks, p) && p.stamp.Some? && Fits(ring, p.key, p.floor, c)
    ensures Less(c, p.stamp.value) && !Less(p.stamp.value, c)
  {
    TwoReplies(ring, ticks, p);
    var x, y := RolesOfTargets(ring, p.key, p.targets, p.logic.successes[0], p.logic.successes[1]);
    PastAtRole(ring, ticks, c, p, 0, x);
    PastAtRole(ring, ticks, c, p, 1, y);
    StampFits(ring, ticks, p);
    FitsAligned(ring, p.key, p.floor, c, ticks, p.stamp.value);
    TwoComponentsDecide(c, p.stamp.value, x, y);
  }

  lemma EarlierThrough(a: Tick, b: Tick, c: Tick)
    requires !Earlier(b, a) && Earlier(b, c)
    ensures Earlier(a, c)
  {
  }

  /** Keys, stamps and histories stay, and a publish first delivered in between has every
      publish stamped before in its history. */
  ghost predicate KeepsHistory(s: System, s': System) {
    AllGoOn(s.publishes, s'.publishes) && PriorsStay(s, s')
  }

  ghost predicate PriorsStay(s: System, s': System) {
    && (forall x :: x in s.log ==> x in s'.log && x in s.publishes && x in s'.publishes
                                   && s'.publishes[x].prior == s.publishes[x].prior)
    && (forall x :: x in s'.log && x !in s.log ==>
          x in s'.publishes && s'.publishes[x].prior == StampedIds(s.publishes))
  }

  lemma StepKeepsHistory(ring: seq<Node>, s: System, a: Action, s': System)
    requires ring != [] && SystemOk(ring, s) && PublishProtocol.Step(ring, s, a) == Some(s')
    ensures KeepsHistory(s, s')
  {
    hide SystemOk, Tidy, AllGoOn, PriorsStay, PublishStep, ReplicaStep, DeliverTo, CanDeliver, CallsNodes;
    SystemIsTidy(ring, s);
    StepTidy(ring, s, a, s');
    SystemLog(ring, s);
    if a.Begin? || a.Launch? || a.Reply? || a.Fail? {
      var p := PublishStep(ring, s, a).value;
      PublishStepOk(ring, s, a, p);
      PriorsAfterChange(s, a.id, p);
    } else if a.Deliver? {
      PriorsAfterDeliver(ring, s, a, s');
    } else {
      PriorsAfterReplica(s, s');
    }
  }

  lemma PriorsAfterDeliver(ring: seq<Node>, s: System, a: Action, s': System)
    requires ring != [] && LogOk(s) && a.Deliver? && CanDeliver(s, a.id, a.call)
    requires s' == DeliverTo(ring, s, a.id, a.call, a.data, a.ttlSecs, a.now)
    ensures PriorsStay(s, s')
  {
    hide PriorsStay, LogOk, Receive, ReplyClock;
    PriorsAfterFirst(s, a.id, a.call, s'.publishes[a.id].delivered[a.call], s');
  }

  lemma PriorsAfterReplica(s: System, s': System)
    requires LogOk(s) && s'.publishes == s.publishes && s'.log == s.log
    ensures PriorsStay(s, s')
  {
  }

  lemma SystemLog(ring: seq<Node>, s: System)
    requires ring != [] && SystemOk(ring, s)
    ensures LogOk(s)
  {
  }

  lemma PriorsAfterChange(s: System, id: Id, p: Publish)
    requires LogOk(s) && (id in s.publishes ==> SameHistory(s.publishes[id], p))
    ensures PriorsStay(s, s.(publishes := s.publishes[id := p]))
  {
  }

  lemma PriorsAfterFirst(s: System, id: Id, i: nat, reply: VectorClock, s': System)
    requires LogOk(s) && id in s.publishes
    requires s'.publishes == s.publishes[id := Delivered(s, id, i, reply)]
    requires s'.log == if id in s.log then s.log else s.log + [id]
    ensures PriorsStay(s, s')
  {
  }

  lemma {:induction false} LaterHasPrior(ring: seq<Node>, first: seq<Action>, rest: seq<Action>, a: Id, b: Id,
                                         s1: System, s2: System)
    requires RingOk(ring) && PublishProtocol.After(ring, first) == Some(s1) && AllForward(ring, first + rest)
    requires PublishProtocol.After(ring, first + rest) == Some(s2)
    requires a in s1.publishes && s1.publishes[a].stamp.Some? && b !in s1.log
    ensures a in s2.publishes && s2.publishes[a].stamp == s1.publishes[a].stamp
    ensures s2.publishes[a].key == s1.publishes[a].key
    ensures b in s2.log ==> b in s2.publishes && a in s2.publishes[b].prior
    decreases |rest|
  {
    if rest == [] {
      assert first + rest == first;
    } else {
      var run := first + rest;
      var front := rest[..|rest|-1];
      assert run[..|run|-1] == first + front;
      var s := LastKeepsHistory(ring, run, s2);
      LaterHasPrior(ring, first, front, a, b, s1, s);
      HistoryGoesOn(s, s2, a, b);
    }
  }

  lemma LastKeepsHistory(ring: seq<Node>, run: seq<Action>, s': System) returns (s: System)
    requires RingOk(ring) && run != [] && PublishProtocol.After(ring, run) == Some(s') && AllForward(ring, run)
    ensures PublishProtocol.After(ring, run[..|run|-1]) == Some(s) && KeepsHistory(s, s')
  {
    LastAction(ring, run);
    s := PublishProtocol.After(ring, run[..|run|-1]).value;
    RunKeeps(ring, run[..|run|-1], s);
    StepKeepsHistory(ring, s, run[|run|-1], s');
  }

  lemma HistoryGoesOn(s: System, s': System, a: Id, b: Id)
    requires KeepsHistory(s, s') && a in s.publishes && s.publishes[a].stamp.Some?
    requires b in s.log ==> b in s.publishes && a in s.publishes[b].prior
    ensures a in s'.publishes && GoesOn(s.publishes[a], s'.publishes[a])
    ensures b in s'.log ==> b in s'.publishes && a in s'.publishes[b].prior
  {
  }

  /** The promise of the stamps: unless a clock goes back, whichever quorums answered, whatever else
      interleaved, and whatever failed or restarted, a publish that had its stamp before another one of the same
      queue was first delivered anywhere is less than it, and not the other way round. */
  lemma StampsFollowPublishOrder(ring: seq<Node>, first: seq<Action>, rest: seq<Action>, a: Id, b: Id)
    requires RingOk(ring) && AllForward(ring, first + rest)
    requires PublishProtocol.After(ring, first).Some? && PublishProtocol.After(ring, first + rest).Some?
    requires var s1 := PublishProtocol.After(ring, first).value;
             a in s1.publishes && s1.publishes[a].stamp.Some? && b !in s1.log
    requires var s2 := PublishProtocol.After(ring, first + rest).value;
             a in s2.publishes && b in s2.publishes && s2.publishes[b].stamp.Some?
             && s2.publishes[a].key == s2.publishes[b].key
    ensures var s2 := PublishProtocol.After(ring, first + rest).value;
            && s2.publishes[a].stamp.Some?
            && Less(s2.publishes[a].stamp.value, s2.publishes[b].stamp.value)
            && !Less(s2.publishes[b].stamp.value, s2.publishes[a].stamp.value)
  {
    var s1 := PublishProtocol.After(ring, first).value;
    var s2 := PublishProtocol.After(ring, first + rest).value;
    RunKeeps(ring, first + rest, s2);
    SystemIsTidy(ring, s2);
    StampedIsLogged(ring, s2, b);
    LaterHasPrior(ring, first, rest, a, b, s1, s2);
    PriorDecides(ring, s2, a, b);
  }
}
