/** The publish protocol as a step system: coordinators send a publish to a quorum of
    the replicas of its queue, replicas enqueue it, bump their clock and reply with their view
    of the three replica clocks, the coordinator stamps the message with the maximum of the
    replies, and the stamp reaches the replicas in any order.  The ring does not change. */
module PublishProtocol {
  import opened Wrappers
  import opened Clocks
  import opened Ring
  import opened QuorumProtocol
  import opened MessageQueues

  /** What a node knows: its own clock, what it believes of its peers, and its queues. */
  datatype Replica = Replica(tick: Tick, views: map<U32, Tick>, queues: map<Key, Queue>)

  /** One publish at its coordinator.  The last two fields are history: the clocks of all nodes
      and the publishes already stamped when this one was first delivered anywhere. */
  datatype Publish = Publish(
    key: Key, targets: seq<Option<Node>>, logic: Quorum,
    delivered: map<nat, VectorClock>, clocks: seq<VectorClock>, stamp: Option<VectorClock>,
    floor: map<U32, Tick>, prior: set<Id>)

  /** The log lists publishes in the order of their first delivery. */
  datatype System = System(nodes: map<U32, Replica>, publishes: map<Id, Publish>, log: seq<Id>)

  datatype Action =
    | Begin(id: Id, key: Key, live: set<Node>, targets: seq<Option<Node>>)
    | Launch(id: Id)
    | Deliver(id: Id, call: nat, data: string, ttlSecs: U32, now: Time)
    | Reply(id: Id, call: nat)
    | Fail(id: Id, call: nat)
    | StampAt(id: Id, call: nat, now: Time, pos: nat)
    | Refresh(node: U32, peer: U32, tick: Tick)
    | Restart(node: U32, tick: Tick)
    | ExpireAt(node: U32, key: Key, at: nat -> Time, each: Id -> Time)
    | ClaimAt(node: U32, key: Key, id: Id)

  ghost predicate RingOk(ring: seq<Node>) {
    |ring| >= 3 && Sorted(ring) && forall i, j :: 0 <= i < j < |ring| ==> ring[i].id != ring[j].id
  }

  ghost function RingIds(ring: seq<Node>): set<U32> {
    set n | n in ring :: n.id
  }

  const NEW_REPLICA := Replica(Tick(0, 0), map[], map[])

  ghost function Initially(ring: seq<Node>): System {
    var ids := RingIds(ring);
    System(map id | id in ids :: NEW_REPLICA, map[], [])
  }

  // ---- The replica ----

  /** ++_clock.clock, a 64-bit counter. */
  function Bump(t: Tick): Tick { t.(clock := (t.clock + 1) % 0x1_0000_0000_0000_0000) }

  /** Where a node that restarts is meant to resume: a new generation, counting from zero. */
  function NextGeneration(t: Tick): Tick { Tick((t.generation + 1) % 0x1_0000_0000, 0) }

  /** The clock moves forward exactly when the counter does not wrap. */
  lemma BumpAdvancesIff(t: Tick)
    ensures Earlier(t, Bump(t)) <==> t.clock != 0xFFFF_FFFF_FFFF_FFFF
    ensures Earlier(t, NextGeneration(t)) <==> t.generation != 0xFFFF_FFFF
  {
  }

  function View(self: U32, r: Replica, id: U32): Tick {
    if id == self then r.tick else if id in r.views then r.views[id] else Tick(0, 0)
  }

  function ClockOf(id: U32, t: Tick): NodeClock { NodeClock(id, t.generation, t.clock) }

  /** The replica's view of the clocks of the three nodes that handle the queue. */
  function ReplyClock(ring: seq<Node>, key: Key, self: U32, r: Replica): VectorClock
    requires ring != []
  {
    var nodes := Replicas(ring, key);
    [ClockOf(nodes[0].id, View(self, r, nodes[0].id)),
     ClockOf(nodes[1].id, View(self, r, nodes[1].id)),
     ClockOf(nodes[2].id, View(self, r, nodes[2].id))]
  }

  function QueueAt(queues: map<Key, Queue>, key: Key): Queue {
    if key in queues then queues[key] else EMPTY_QUEUE
  }

  /** send_proxy_publish at the replica: enqueue, then bump. */
  function Receive(r: Replica, key: Key, id: Id, data: string, ttlSecs: U32, now: Time): Replica {
    r.(queues := r.queues[key := Enqueue(QueueAt(r.queues, key), id, data, ttlSecs, now)], tick := Bump(r.tick))
  }

  // ---- The coordinator ----

  ghost function Begun(key: Key, targets: seq<Option<Node>>): Publish {
    Publish(key, targets, Initial(3), map[], [], None, map[], {})
  }

  /** The reply callback: count the success, keep the clock, and stamp once a quorum answered. */
  ghost function Answered(p: Publish, i: nat): Publish
    requires i in p.logic.pending && i in p.delivered
  {
    var logic := QuorumProtocol.Step(3, p.logic, Succeeded(i)).value;
    var clocks := p.clocks + [p.delivered[i]];
    p.(logic := logic, clocks := clocks,
       stamp := if OperationSucceeded(3, logic) && |clocks| >= 2 && Aligned(clocks[0], clocks[1])
                then Some(Join(clocks[0], clocks[1])) else p.stamp)
  }

  /** Every call that has been made went to a node, not to an empty slot of the quorum. */
  predicate CallsNodes(p: Publish) {
    forall i :: 0 <= i < p.logic.lastNode && i < |p.targets| ==> p.targets[i].Some?
  }

  // ---- The steps ----

  ghost function Ticks(nodes: map<U32, Replica>): map<U32, Tick> {
    map id | id in nodes :: nodes[id].tick
  }

  ghost function StampedIds(publishes: map<Id, Publish>): set<Id> {
    set id | id in publishes && publishes[id].stamp.Some?
  }

  /** The publish after call i was delivered with this reply. */
  ghost function Delivered(s: System, id: Id, i: nat, reply: VectorClock): Publish
    requires id in s.publishes
  {
    var p := s.publishes[id];
    if id in s.log then p.(delivered := p.delivered[i := reply])
    else p.(delivered := p.delivered[i := reply], floor := Ticks(s.nodes), prior := StampedIds(s.publishes))
  }

  ghost predicate CanDeliver(s: System, id: Id, i: nat) {
    && id in s.publishes
    && var p := s.publishes[id];
    && i < p.logic.lastNode && i < |p.targets| && i !in p.delivered
    && p.targets[i].Some? && p.targets[i].value.id in s.nodes
  }

  ghost function DeliverTo(ring: seq<Node>, s: System, id: Id, i: nat, data: string, ttlSecs: U32, now: Time): System
    requires ring != [] && CanDeliver(s, id, i)
  {
    var p := s.publishes[id];
    var n := p.targets[i].value.id;
    var r := Receive(s.nodes[n], p.key, id, data, ttlSecs, now);
    System(s.nodes[n := r],
           s.publishes[id := Delivered(s, id, i, ReplyClock(ring, p.key, n, r))],
           if id in s.log then s.log else s.log + [id])
  }

  /** A step at the coordinator of one publish, with what it becomes. */
  ghost function PublishStep(ring: seq<Node>, s: System, a: Action): Option<Publish>
    requires ring != []
  {
    match a
    case Begin(id, key, live, targets) =>
      if id !in s.publishes && GoodQuorum(Replicas(ring, key), n => n in live, targets)
      then Some(Begun(key, targets)) else None
    case Launch(id) =>
      if id in s.publishes && s.publishes[id].logic.owed > 0
      then Some(s.publishes[id].(logic := QuorumProtocol.Step(3, s.publishes[id].logic, RunCall).value)) else None
    case Reply(id, i) =>
      if id in s.publishes && i in s.publishes[id].logic.pending && i in s.publishes[id].delivered
      then Some(Answered(s.publishes[id], i)) else None
    case Fail(id, i) =>
      if id in s.publishes && i in s.publishes[id].logic.pending
      then Some(s.publishes[id].(logic := QuorumProtocol.Step(3, s.publishes[id].logic, Failed(i)).value)) else None
    case _ => None
  }

  /** A step inside one node, with what it becomes. */
  ghost function ReplicaStep(s: System, a: Action): Option<(U32, Replica)> {
    match a
    case StampAt(id, i, now, pos) =>
      if && id in s.publishes
         && var p := s.publishes[id];
         && p.stamp.Some? && i in p.logic.successes && i < |p.targets| && p.targets[i].Some?
         && p.targets[i].value.id in s.nodes
         && Slot(QueueAt(s.nodes[p.targets[i].value.id].queues, p.key).queued, p.stamp.value, pos)
      then
        var p := s.publishes[id];
        var n := p.targets[i].value.id;
        var q := QueueAt(s.nodes[n].queues, p.key);
        Some((n, s.nodes[n].(queues := s.nodes[n].queues[p.key := Stamp(q, id, p.stamp.value, now, pos).0])))
      else None
    case Refresh(n, m, tick) =>
      if n in s.nodes && m in s.nodes && n != m && !Earlier(s.nodes[m].tick, tick)
      then Some((n, s.nodes[n].(views := s.nodes[n].views[m := tick]))) else None
    case Restart(n, tick) =>
      if n in s.nodes then Some((n, Replica(tick, map[], map[]))) else None
    case ExpireAt(n, key, at, each) =>
      if n in s.nodes && key in s.nodes[n].queues
      then Some((n, s.nodes[n].(queues := s.nodes[n].queues[key := Expire(s.nodes[n].queues[key], at, each)])))
      else None
    case ClaimAt(n, key, id) =>
      if n in s.nodes && key in s.nodes[n].queues && Claimable(s.nodes[n].queues[key], id)
      then Some((n, s.nodes[n].(queues := s.nodes[n].queues[key := Claim(s.nodes[n].queues[key], id)]))) else None
    case _ => None
  }

  ghost function Step(ring: seq<Node>, s: System, a: Action): Option<System>
    requires ring != []
  {
    match a
    case Deliver(id, i, data, ttlSecs, now) =>
      if CanDeliver(s, id, i) then Some(DeliverTo(ring, s, id, i, data, ttlSecs, now)) else None
    case Begin(_, _, _, _) | Launch(_) | Reply(_, _) | Fail(_, _) =>
      var p := PublishStep(ring, s, a);
      if p.Some? && CallsNodes(p.value) then Some(s.(publishes := s.publishes[a.id := p.value])) else None
    case _ =>
      var r := ReplicaStep(s, a);
      if r.Some? then Some(s.(nodes := s.nodes[r.value.0 := r.value.1])) else None
  }

  ghost function After(ring: seq<Node>, run: seq<Action>): Option<System>
    requires ring != []
  {
    if run == [] then Some(Initially(ring))
    else
      match After(ring, run[..|run|-1])
      case None => None
      case Some(s) => Step(ring, s, run[|run|-1])
  }

  /** No clock goes back in this step: a delivery does not wrap the 64-bit counter, and a
      restart does not resume behind the clock the node had. */
  ghost predicate Forward(s: System, a: Action) {
    && (a.Deliver? && CanDeliver(s, a.id, a.call) ==>
          s.nodes[s.publishes[a.id].targets[a.call].value.id].tick.clock != 0xFFFF_FFFF_FFFF_FFFF)
    && (a.Restart? && a.node in s.nodes ==> !Earlier(a.tick, s.nodes[a.node].tick))
  }

  /** No clock goes back in the run. */
  ghost predicate AllForward(ring: seq<Node>, run: seq<Action>)
    requires ring != []
  {
    run == [] ||
    (var front := run[..|run|-1];
     AllForward(ring, front) && (After(ring, front).Some? ==> Forward(After(ring, front).value, run[|run|-1])))
  }
}
