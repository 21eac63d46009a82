/** Where the promises of the publish protocol end, for every ring and key: overlapping publishes
    whose stamps tie and that two replicas list in opposite order, overlapping publishes whose
    stamps form a cycle and a claim that then leaves a queue out of order, and a restart that
    resumes behind the old clock and breaks the order of stamps. */
module PublishLimits {
  import opened Wrappers
  import opened Clocks
  import opened Ring
  import opened MessageQueues
  import opened QueueOrder
  import opened PublishProtocol
  import opened PublishCoordinators
  import opened PublishLocal
  import opened PublishSteps

  // ---- The replicas ----

  /** Three different nodes, in some order. */
  ghost predicate AllThree(ring: seq<Node>, key: Key, targets: seq<Option<Node>>)
    requires ring != []
  {
    var r := Replicas(ring, key);
    && |targets| == 3 && (forall i :: 0 <= i < 3 ==> targets[i].Some? && targets[i].value in r)
    && targets[0] != targets[1] && targets[1] != targets[2] && targets[0] != targets[2]
    && (forall n :: n in r ==> Some(n) in targets)
  }

  lemma InAnyOrder(ring: seq<Node>, key: Key, i: nat, j: nat, k: nat)
    requires RingOk(ring) && i < 3 && j < 3 && k < 3 && i != j && j != k && i != k
    ensures var r := Replicas(ring, key); AllThree(ring, key, [Some(r[i]), Some(r[j]), Some(r[k])])
  {
    ReplicaIds(ring, key);
    hide Replicas;
    var r := Replicas(ring, key);
    var t := [Some(r[i]), Some(r[j]), Some(r[k])];
    assert forall n :: n in r ==> n == r[0] || n == r[1] || n == r[2];
    assert t[0] in t && t[1] in t && t[2] in t;
  }

  /** A replica that has received these publishes to the queue, with this clock and view. */
  ghost predicate Holds(r: Replica, key: Key, tick: Tick, views: map<U32, Tick>, ids: set<Id>) {
    var q := QueueAt(r.queues, key);
    && r.tick == tick && r.views == views
    && q.queued == [] && q.unstamped.Keys == ids && q.index == map[] && q.nextHandle == 0
    && (forall id :: id in ids ==> q.unstamped[id].id == id)
  }

  function Tock(tick: Tick): Tick
    requires tick.clock < 100
  {
    Tick(tick.generation, tick.clock + 1)
  }

  lemma HoldsMore(r: Replica, key: Key, tick: Tick, views: map<U32, Tick>, ids: set<Id>, id: Id)
    requires Holds(r, key, tick, views, ids) && tick.clock < 100
    ensures Holds(Receive(r, key, id, "", 0, 0), key, Tock(tick), views, ids + {id})
  {
    assert Bump(tick) == Tock(tick);
  }

  /** A clock of the three replicas of the key. */
  ghost function Clocks3(ring: seq<Node>, key: Key, a: Tick, b: Tick, c: Tick): VectorClock
    requires ring != []
  {
    var r := Replicas(ring, key);
    [ClockOf(r[0].id, a), ClockOf(r[1].id, b), ClockOf(r[2].id, c)]
  }

  /** What a node with this clock and view says of the clock of a replica. */
  ghost function Shown(ring: seq<Node>, key: Key, k: nat, n: U32, tick: Tick, views: map<U32, Tick>): Tick
    requires ring != [] && k < 3
  {
    var m := Replicas(ring, key)[k].id;
    if m == n then tick else if m in views then views[m] else Tick(0, 0)
  }

  ghost function ReplyOf(ring: seq<Node>, key: Key, n: U32, tick: Tick, views: map<U32, Tick>): VectorClock
    requires ring != []
  {
    Clocks3(ring, key, Shown(ring, key, 0, n, tick, views), Shown(ring, key, 1, n, tick, views),
            Shown(ring, key, 2, n, tick, views))
  }

  lemma ReplyIs(ring: seq<Node>, key: Key, n: U32, r: Replica)
    requires ring != []
    ensures ReplyClock(ring, key, n, r) == ReplyOf(ring, key, n, r.tick, r.views)
  {
  }

  lemma NewReplicas(ring: seq<Node>, key: Key)
    requires RingOk(ring)
    ensures forall n :: n in RingIds(ring) ==>
              n in Initially(ring).nodes && Holds(Initially(ring).nodes[n], key, Tick(0, 0), map[], {})
  {
  }

  function Later(a: Tick, b: Tick): Tick { if Earlier(a, b) then b else a }

  lemma JoinOfThree(ring: seq<Node>, key: Key, a: Tick, b: Tick, c: Tick, a': Tick, b': Tick, c': Tick)
    requires ring != []
    ensures Aligned(Clocks3(ring, key, a, b, c), Clocks3(ring, key, a', b', c'))
    ensures Join(Clocks3(ring, key, a, b, c), Clocks3(ring, key, a', b', c')) ==
            Clocks3(ring, key, Later(a, a'), Later(b, b'), Later(c, c'))
  {
  }

  // ---- Single steps ----

  /** A publish to all three replicas begins and calls its first two targets. */
  lemma OpenThree(ring: seq<Node>, run: seq<Action>, s: System, id: Id, key: Key, targets: seq<Option<Node>>)
    returns (run': seq<Action>, s': System)
    requires ring != [] && Reaches(ring, run, s) && id !in s.publishes && AllThree(ring, key, targets)
    ensures Goes(ring, run, run', s') && s'.nodes == s.nodes && s'.log == s.log && OnlyChanges(s, s', id)
    ensures Waits(s'.publishes[id], key, targets, map[])
  {
    hide Goes, Reaches, Waits;
    var live := set n | n in Replicas(ring, key);
    assert GoodQuorum(Replicas(ring, key), n => n in live, targets);
    run', s' := OpenNext(ring, run, s, id, key, live, targets);
  }

  /** Call i reaches its target, which receives the message and replies. */
  lemma ReceiveNext(ring: seq<Node>, run: seq<Action>, s: System, id: Id, i: nat, n: U32, key: Key,
                    targets: seq<Option<Node>>, replies: map<nat, VectorClock>,
                    tick: Tick, views: map<U32, Tick>, ids: set<Id>)
    returns (run': seq<Action>, s': System)
    requires ring != [] && Reaches(ring, run, s) && id in s.publishes && Waits(s.publishes[id], key, targets, replies)
    requires i < 2 && i !in replies && |targets| == 3 && IsNode(targets[i], n)
    requires n in s.nodes && Holds(s.nodes[n], key, tick, views, ids) && tick.clock < 100
    ensures Goes(ring, run, run', s') && OnlyChanges(s, s', id)
    ensures s'.log == if id in s.log then s.log else s.log + [id]
    ensures n in s'.nodes && s'.nodes == s.nodes[n := s'.nodes[n]]
    ensures Holds(s'.nodes[n], key, Tock(tick), views, ids + {id})
    ensures Waits(s'.publishes[id], key, targets, replies[i := ReplyOf(ring, key, n, Tock(tick), views)])
  {
    hide Goes, Reaches, Waits, Receive;
    assert tick.clock != 0xFFFF_FFFF_FFFF_FFFF;
    run', s' := DeliverNext(ring, run, s, id, i, n, key, targets, replies, "", 0, 0);
    HoldsMore(s.nodes[n], key, tick, views, ids, id);
    ReplyIs(ring, key, n, s'.nodes[n]);
  }

  /** The stamp reaches the target of call i, and goes to the end if it is not less than the last. */
  lemma StampEnd(ring: seq<Node>, run: seq<Action>, s: System, key: Key, n: U32, i: nat, id: Id,
                 targets: seq<Option<Node>>, clock: VectorClock,
                 ids: seq<Id>, clocks: seq<VectorClock>, rest: set<Id>)
    returns (run': seq<Action>, s': System)
    requires ring != [] && Reaches(ring, run, s) && id in s.publishes
    requires Answers(s.publishes[id], key, targets, clock) && i < 2 && i < |targets| && IsNode(targets[i], n)
    requires n in s.nodes && Lines(QueueOn(s, n, key), ids, clocks, rest) && id in rest
    requires clocks == [] || !Less(clock, clocks[|clocks|-1])
    ensures Goes(ring, run, run', s') && s'.publishes == s.publishes && n in s'.nodes
    ensures s'.nodes == s.nodes[n := s'.nodes[n]]
    ensures Lines(QueueOn(s', n, key), ids + [id], clocks + [clock], rest - {id})
  {
    hide Goes, Reaches, Less, Stamp;
    var a, r, q := StampAt(id, i, 0, |ids|), s.nodes[n], QueueOn(s, n, key);
    StampLines(q, id, clock, 0, ids, clocks, rest);
    s' := s.(nodes := s.nodes[n := r.(queues := r.queues[key := Stamp(q, id, clock, 0, |ids|).0])]);
    assert s.publishes[id].logic.successes[i] == i;
    assert PublishProtocol.Step(ring, s, a) == Some(s');
    Next(ring, run, s, a, s');
    run' := run + [a];
  }

  lemma HoldsLines(r: Replica, key: Key, tick: Tick, views: map<U32, Tick>, ids: set<Id>)
    requires Holds(r, key, tick, views, ids)
    ensures Lines(QueueAt(r.queues, key), [], [], ids)
  {
  }

  /** A node hears of the clock of another. */
  lemma RefreshNext(ring: seq<Node>, run: seq<Action>, s: System, n: U32, m: U32, key: Key, tick: Tick, ids: set<Id>)
    returns (run': seq<Action>, s': System)
    requires ring != [] && Reaches(ring, run, s) && n in s.nodes && m in s.nodes && n != m
    requires Holds(s.nodes[n], key, tick, map[], ids)
    ensures Goes(ring, run, run', s') && s'.publishes == s.publishes && n in s'.nodes
    ensures s'.nodes == s.nodes[n := s'.nodes[n]]
    ensures Holds(s'.nodes[n], key, tick, map[m := s.nodes[m].tick], ids)
  {
    hide Goes, Reaches;
    var a := Refresh(n, m, s.nodes[m].tick);
    s' := s.(nodes := s.nodes[n := s.nodes[n].(views := map[m := s.nodes[m].tick])]);
    assert PublishProtocol.Step(ring, s, a) == Some(s');
    Next(ring, run, s, a, s');
    run' := run + [a];
  }

  lemma HoldsTick(r: Replica, key: Key, tick: Tick, views: map<U32, Tick>, ids: set<Id>)
    requires Holds(r, key, tick, views, ids)
    ensures r.tick == tick
  {
  }

  lemma ClaimNext(ring: seq<Node>, run: seq<Action>, s: System, n: U32, key: Key, a: Id, b: Id, c: Id,
                  clocks: seq<VectorClock>) returns (run': seq<Action>, s': System)
    requires ring != [] && Reaches(ring, run, s) && n in s.nodes
    requires Lines(QueueOn(s, n, key), [a, b, c], clocks, {})
    ensures Goes(ring, run, run', s') && s'.publishes == s.publishes && n in s'.nodes
    ensures |clocks| == 3 && Lists(QueueOn(s', n, key), [a, c], [clocks[0], clocks[2]])
  {
    hide Goes, Reaches, Claim, Claimable;
    var q, act := QueueOn(s, n, key), ClaimAt(n, key, b);
    ClaimLines(q, a, b, c, clocks);
    s' := s.(nodes := s.nodes[n := s.nodes[n].(queues := s.nodes[n].queues[key := Claim(q, b)])]);
    assert key in s.nodes[n].queues by {
      assert q.queued != [];
    }
    assert PublishProtocol.Step(ring, s, act) == Some(s');
    Next(ring, run, s, act, s');
    run' := run + [act];
  }

  // ---- Two publishes that tie ----

  /** Two publishes wait for the same two replicas. */
  ghost predicate BothWait(s: System, key: Key, a: Id, b: Id, x: U32, y: U32, targets: seq<Option<Node>>,
                           repliesA: map<nat, VectorClock>, repliesB: map<nat, VectorClock>, ticks: nat, ids: set<Id>)
    requires ticks < 100
  {
    && a != b && a in s.publishes && b in s.publishes
    && Waits(s.publishes[a], key, targets, repliesA) && Waits(s.publishes[b], key, targets, repliesB)
    && x != y && |targets| == 3 && IsNode(targets[0], x) && IsNode(targets[1], y)
    && x in s.nodes && Holds(s.nodes[x], key, Tick(0, ticks), map[], ids)
    && y in s.nodes && Holds(s.nodes[y], key, Tick(0, ticks), map[], ids)
  }

  lemma BothOpen(ring: seq<Node>, key: Key, a: Id, b: Id) returns (run: seq<Action>, s: System)
    requires RingOk(ring) && a != b
    ensures var r := Replicas(ring, key);
            BothWait(s, key, a, b, r[0].id, r[1].id, [Some(r[0]), Some(r[1]), Some(r[2])], map[], map[], 0, {})
    ensures Reaches(ring, run, s) && AllForward(ring, run)
  {
    hide AllThree, Replicas, Reaches, AllForward, Waits, Holds, RingIds;
    var r := Replicas(ring, key);
    var targets := [Some(r[0]), Some(r[1]), Some(r[2])];
    ReplicaIds(ring, key);
    NewReplicas(ring, key);
    InAnyOrder(ring, key, 0, 1, 2);
    Started(ring);
    var run1, s1 := OpenThree(ring, [], Initially(ring), a, key, targets);
    run, s := OpenThree(ring, run1, s1, b, key, targets);
  }

  /** Both publishes reach both replicas, in opposite order. */
  lemma CrossDelivered(ring: seq<Node>, run0: seq<Action>, s0: System, key: Key, a: Id, b: Id, x: U32, y: U32,
                       targets: seq<Option<Node>>) returns (run: seq<Action>, s: System)
    requires ring != [] && Reaches(ring, run0, s0) && BothWait(s0, key, a, b, x, y, targets, map[], map[], 0, {})
    ensures Goes(ring, run0, run, s)
    ensures BothWait(s, key, a, b, x, y, targets,
                     map[0 := ReplyOf(ring, key, x, Tick(0, 1), map[]), 1 := ReplyOf(ring, key, y, Tick(0, 2), map[])],
                     map[0 := ReplyOf(ring, key, x, Tick(0, 2), map[]), 1 := ReplyOf(ring, key, y, Tick(0, 1), map[])],
                     2, {a, b})
  {
    hide Replicas, Reaches, AllForward, Waits, Holds, ReplyOf;
    var run3, s3 := ReceiveNext(ring, run0, s0, a, 0, x, key, targets, map[], Tick(0, 0), map[], {});
    var run4, s4 := ReceiveNext(ring, run3, s3, b, 1, y, key, targets, map[], Tick(0, 0), map[], {});
    var ra, rb := ReplyOf(ring, key, x, Tick(0, 1), map[]), ReplyOf(ring, key, y, Tick(0, 1), map[]);
    var none: set<Id> := {};
    assert none + {a} == {a} && none + {b} == {b};
    var run5, s5 := ReceiveNext(ring, run4, s4, b, 0, x, key, targets, map[1 := rb], Tick(0, 1), map[], {a});
    run, s := ReceiveNext(ring, run5, s5, a, 1, y, key, targets, map[0 := ra], Tick(0, 1), map[], {b});
    assert {b} + {a} == {a, b} && {a} + {b} == {a, b};
    var ra', rb' := ReplyOf(ring, key, y, Tick(0, 2), map[]), ReplyOf(ring, key, x, Tick(0, 2), map[]);
    assert map[0 := ra][1 := ra'] == map[0 := ra, 1 := ra'] && map[1 := rb][0 := rb'] == map[0 := rb', 1 := rb];
  }

  /** The replies come, and the stamps are their maxima. */
  lemma CrossStamped(ring: seq<Node>, run0: seq<Action>, s0: System, key: Key, a: Id, b: Id, x: U32, y: U32,
                     targets: seq<Option<Node>>, ra: map<nat, VectorClock>, rb: map<nat, VectorClock>)
    returns (run: seq<Action>, s: System)
    requires ring != [] && Reaches(ring, run0, s0) && BothWait(s0, key, a, b, x, y, targets, ra, rb, 2, {a, b})
    requires 0 in ra && 1 in ra && Aligned(ra[0], ra[1]) && 0 in rb && 1 in rb && Aligned(rb[0], rb[1])
    ensures Goes(ring, run0, run, s) && s.nodes == s0.nodes && a in s.publishes && b in s.publishes
    ensures Answers(s.publishes[a], key, targets, Join(ra[0], ra[1]))
    ensures Answers(s.publishes[b], key, targets, Join(rb[0], rb[1]))
  {
    hide Reaches, AllForward, Waits, Holds, Answers, Join, Aligned;
    var run1, s1 := RepliesNext(ring, run0, s0, a, key, targets, ra);
    run, s := RepliesNext(ring, run1, s1, b, key, targets, rb);
  }

  /** Two stamps reach a replica, the second not less than the first. */
  lemma TwoStamps(ring: seq<Node>, run0: seq<Action>, s0: System, key: Key, n: U32, i: nat,
                  a: Id, b: Id, targets: seq<Option<Node>>, ca: VectorClock, cb: VectorClock)
    returns (run: seq<Action>, s: System)
    requires ring != [] && Reaches(ring, run0, s0) && a != b && a in s0.publishes && b in s0.publishes
    requires Answers(s0.publishes[a], key, targets, ca) && Answers(s0.publishes[b], key, targets, cb)
    requires i < 2 && i < |targets| && IsNode(targets[i], n) && n in s0.nodes
    requires Holds(s0.nodes[n], key, Tick(0, 2), map[], {a, b}) && !Less(cb, ca)
    ensures Goes(ring, run0, run, s) && s.publishes == s0.publishes && n in s.nodes
    ensures s.nodes == s0.nodes[n := s.nodes[n]] && Lists(QueueOn(s, n, key), [a, b], [ca, cb])
  {
    hide Reaches, AllForward, Less, Answers, Lists;
    HoldsLines(s0.nodes[n], key, Tick(0, 2), map[], {a, b});
    var run1, s1 := StampEnd(ring, run0, s0, key, n, i, a, targets, ca, [], [], {a, b});
    assert [] + [a] == [a] && [] + [ca] == [ca] && {a, b} - {a} == {b};
    run, s := StampEnd(ring, run1, s1, key, n, i, b, targets, cb, [a], [ca], {b});
    assert [a] + [b] == [a, b] && [ca] + [cb] == [ca, cb];
  }

  lemma TheTie(ring: seq<Node>, key: Key)
    requires RingOk(ring)
    ensures var a := Clocks3(ring, key, Tick(0, 1), Tick(0, 2), Tick(0, 0));
            var b := Clocks3(ring, key, Tick(0, 2), Tick(0, 1), Tick(0, 0));
            !Less(a, b) && !Less(b, a)
  {
    ReplicaIds(ring, key);
    var a, b := Clocks3(ring, key, Tick(0, 1), Tick(0, 2), Tick(0, 0)),
                Clocks3(ring, key, Tick(0, 2), Tick(0, 1), Tick(0, 0));
    MajorityTie(a, b);
  }

  lemma CrossJoins(ring: seq<Node>, key: Key)
    requires RingOk(ring)
    ensures var x, y := Replicas(ring, key)[0].id, Replicas(ring, key)[1].id;
            forall i: U64, j: U64 | 0 < i && 0 < j ::
              var c, d := ReplyOf(ring, key, x, Tick(0, i), map[]), ReplyOf(ring, key, y, Tick(0, j), map[]);
              Aligned(c, d) && Join(c, d) == Clocks3(ring, key, Tick(0, i), Tick(0, j), Tick(0, 0))
  {
    ReplicaIds(ring, key);
    var x, y := Replicas(ring, key)[0].id, Replicas(ring, key)[1].id;
    forall i: U64, j: U64 | 0 < i && 0 < j
      ensures var c, d := ReplyOf(ring, key, x, Tick(0, i), map[]), ReplyOf(ring, key, y, Tick(0, j), map[]);
              Aligned(c, d) && Join(c, d) == Clocks3(ring, key, Tick(0, i), Tick(0, j), Tick(0, 0))
    {
      assert ReplyOf(ring, key, x, Tick(0, i), map[]) == Clocks3(ring, key, Tick(0, i), Tick(0, 0), Tick(0, 0));
      assert ReplyOf(ring, key, y, Tick(0, j), map[]) == Clocks3(ring, key, Tick(0, 0), Tick(0, j), Tick(0, 0));
      JoinOfThree(ring, key, Tick(0, i), Tick(0, 0), Tick(0, 0), Tick(0, 0), Tick(0, j), Tick(0, 0));
    }
  }

  /** On every ring and for every key two overlapping publishes can be given stamps that tie,
      neither less than the other, and two replicas can then list them in opposite order. */
  lemma OverlapTies(ring: seq<Node>, key: Key, a: Id, b: Id) returns (run: seq<Action>, s: System)
    requires RingOk(ring) && a != b
    ensures PublishProtocol.After(ring, run) == Some(s) && AllForward(ring, run)
    ensures a in s.publishes && b in s.publishes && s.publishes[a].stamp.Some? && s.publishes[b].stamp.Some?
    ensures var ca, cb := s.publishes[a].stamp.value, s.publishes[b].stamp.value;
            var x, y := Replicas(ring, key)[0].id, Replicas(ring, key)[1].id;
            && !Less(ca, cb) && !Less(cb, ca)
            && x in s.nodes && Lists(QueueOn(s, x, key), [a, b], [ca, cb])
            && y in s.nodes && Lists(QueueOn(s, y, key), [b, a], [cb, ca])
  {
    hide Reaches, AllForward, Waits, Holds, Lists, Less, ReplyOf, Join, Aligned, Clocks3;
    var r := Replicas(ring, key);
    var x, y, targets := r[0].id, r[1].id, [Some(r[0]), Some(r[1]), Some(r[2])];
    var run1, s1 := BothOpen(ring, key, a, b);
    hide Replicas;
    var run2, s2 := CrossDelivered(ring, run1, s1, key, a, b, x, y, targets);
    CrossJoins(ring, key);
    TheTie(ring, key);
    var ra := map[0 := ReplyOf(ring, key, x, Tick(0, 1), map[]), 1 := ReplyOf(ring, key, y, Tick(0, 2), map[])];
    var rb := map[0 := ReplyOf(ring, key, x, Tick(0, 2), map[]), 1 := ReplyOf(ring, key, y, Tick(0, 1), map[])];
    var run3, s3 := CrossStamped(ring, run2, s2, key, a, b, x, y, targets, ra, rb);
    var ca, cb := Join(ra[0], ra[1]), Join(rb[0], rb[1]);
    var run4, s4 := TwoStamps(ring, run3, s3, key, x, 0, a, b, targets, ca, cb);
    assert {b, a} == {a, b};
    run, s := TwoStamps(ring, run4, s4, key, y, 1, b, a, targets, cb, ca);
    ReachesIs(ring, run, s);
  }

  lemma ReachesIs(ring: seq<Node>, run: seq<Action>, s: System)
    requires ring != [] && Reaches(ring, run, s)
    ensures PublishProtocol.After(ring, run) == Some(s)
  {
  }

  // ---- Three publishes in a cycle ----

  /** Three publishes with their replies so far; the second one has its targets in another order. */
  ghost predicate ThreeWait(s: System, key: Key, a: Id, b: Id, c: Id, t: seq<Option<Node>>, u: seq<Option<Node>>,
                            ra: map<nat, VectorClock>, rb: map<nat, VectorClock>, rc: map<nat, VectorClock>) {
    && a != b && b != c && a != c && a in s.publishes && b in s.publishes && c in s.publishes
    && Waits(s.publishes[a], key, t, ra) && Waits(s.publishes[b], key, u, rb) && Waits(s.publishes[c], key, t, rc)
  }

  ghost predicate ThreeHold(s: System, key: Key, x: U32, y: U32, z: U32, tx: Tick, ty: Tick, tz: Tick,
                            viewsY: map<U32, Tick>, ix: set<Id>, iy: set<Id>, iz: set<Id>) {
    && x != y && y != z && x != z && x in s.nodes && y in s.nodes && z in s.nodes
    && Holds(s.nodes[x], key, tx, map[], ix) && Holds(s.nodes[y], key, ty, viewsY, iy)
    && Holds(s.nodes[z], key, tz, map[], iz)
  }

  ghost predicate Roles(t: seq<Option<Node>>, u: seq<Option<Node>>, x: U32, y: U32, z: U32) {
    |t| == 3 && |u| == 3 && IsNode(t[0], x) && IsNode(t[1], y) && IsNode(u[0], x) && IsNode(u[1], z)
  }

  /** Three publishes, and a fourth one to raise the clock of the last replica. */
  lemma FourOpen(ring: seq<Node>, key: Key, a: Id, b: Id, c: Id, d: Id) returns (run: seq<Action>, s: System)
    requires RingOk(ring) && a != b && b != c && a != c && d != a && d != b && d != c
    ensures Reaches(ring, run, s) && AllForward(ring, run)
    ensures var r := Replicas(ring, key);
            var t, u := [Some(r[0]), Some(r[1]), Some(r[2])], [Some(r[0]), Some(r[2]), Some(r[1])];
            && ThreeWait(s, key, a, b, c, t, u, map[], map[], map[])
            && ThreeHold(s, key, r[0].id, r[1].id, r[2].id, Tick(0, 0), Tick(0, 0), Tick(0, 0), map[], {}, {}, {})
            && d in s.publishes && Waits(s.publishes[d], key, [Some(r[2]), Some(r[0]), Some(r[1])], map[])
  {
    hide AllThree, Replicas, Reaches, AllForward, Waits, Holds, RingIds;
    var r := Replicas(ring, key);
    var t, u := [Some(r[0]), Some(r[1]), Some(r[2])], [Some(r[0]), Some(r[2]), Some(r[1])];
    ReplicaIds(ring, key);
    NewReplicas(ring, key);
    InAnyOrder(ring, key, 0, 1, 2);
    InAnyOrder(ring, key, 0, 2, 1);
    InAnyOrder(ring, key, 2, 0, 1);
    Started(ring);
    var run1, s1 := OpenThree(ring, [], Initially(ring), a, key, t);
    var run2, s2 := OpenThree(ring, run1, s1, b, key, u);
    var run3, s3 := OpenThree(ring, run2, s2, c, key, t);
    run, s := OpenThree(ring, run3, s3, d, key, [Some(r[2]), Some(r[0]), Some(r[1])]);
  }

  /** The third publish reaches the second replica; then the fourth one reaches the last replica
      and the second one hears of it. */
  lemma FirstHalf(ring: seq<Node>, run0: seq<Action>, s0: System, key: Key, a: Id, b: Id, c: Id, d: Id,
                  t: seq<Option<Node>>, u: seq<Option<Node>>, v: seq<Option<Node>>, x: U32, y: U32, z: U32)
    returns (run: seq<Action>, s: System)
    requires ring != [] && Reaches(ring, run0, s0) && Roles(t, u, x, y, z) && |v| == 3 && IsNode(v[0], z)
    requires ThreeWait(s0, key, a, b, c, t, u, map[], map[], map[]) && d != a && d != b && d != c
    requires d in s0.publishes && Waits(s0.publishes[d], key, v, map[])
    requires ThreeHold(s0, key, x, y, z, Tick(0, 0), Tick(0, 0), Tick(0, 0), map[], {}, {}, {})
    ensures Goes(ring, run0, run, s)
    ensures ThreeWait(s, key, a, b, c, t, u, map[], map[], map[1 := ReplyOf(ring, key, y, Tick(0, 1), map[])])
    ensures ThreeHold(s, key, x, y, z, Tick(0, 0), Tick(0, 1), Tick(0, 1), map[z := Tick(0, 1)], {}, {c}, {d})
  {
    hide Reaches, AllForward, Waits, Holds, ReplyOf;
    var none: set<Id> := {};
    assert none + {c} == {c} && none + {d} == {d};
    var run1, s1 := ReceiveNext(ring, run0, s0, c, 1, y, key, t, map[], Tick(0, 0), map[], {});
    var run2, s2 := ReceiveNext(ring, run1, s1, d, 0, z, key, v, map[], Tick(0, 0), map[], {});
    HoldsTick(s2.nodes[z], key, Tick(0, 1), map[], {d});
    run, s := RefreshNext(ring, run2, s2, y, z, key, Tick(0, 1), {c});
  }

  /** The other five deliveries. */
  lemma SecondHalf(ring: seq<Node>, run0: seq<Action>, s0: System, key: Key, a: Id, b: Id, c: Id, d: Id,
                   t: seq<Option<Node>>, u: seq<Option<Node>>, x: U32, y: U32, z: U32, c1: VectorClock)
    returns (run: seq<Action>, s: System)
    requires ring != [] && Reaches(ring, run0, s0) && Roles(t, u, x, y, z)
    requires ThreeWait(s0, key, a, b, c, t, u, map[], map[], map[1 := c1])
    requires ThreeHold(s0, key, x, y, z, Tick(0, 0), Tick(0, 1), Tick(0, 1), map[z := Tick(0, 1)], {}, {c}, {d})
    ensures Goes(ring, run0, run, s) && x in s.nodes && Holds(s.nodes[x], key, Tick(0, 3), map[], {a, b, c})
    ensures ThreeWait(s, key, a, b, c, t, u,
                      map[0 := ReplyOf(ring, key, x, Tick(0, 1), map[]),
                          1 := ReplyOf(ring, key, y, Tick(0, 2), map[z := Tick(0, 1)])],
                      map[0 := ReplyOf(ring, key, x, Tick(0, 2), map[]),
                          1 := ReplyOf(ring, key, z, Tick(0, 2), map[])],
                      map[0 := ReplyOf(ring, key, x, Tick(0, 3), map[]), 1 := c1])
  {
    hide Reaches, AllForward, Waits, Holds, ReplyOf;
    var none: set<Id> := {};
    assert none + {a} == {a} && {a} + {b} == {a, b} && {a, b} + {c} == {a, b, c};
    var a0, a1 := ReplyOf(ring, key, x, Tick(0, 1), map[]), ReplyOf(ring, key, y, Tick(0, 2), map[z := Tick(0, 1)]);
    var b0, b1 := ReplyOf(ring, key, x, Tick(0, 2), map[]), ReplyOf(ring, key, z, Tick(0, 2), map[]);
    var c0 := ReplyOf(ring, key, x, Tick(0, 3), map[]);
    var run1, s1 := ReceiveNext(ring, run0, s0, a, 0, x, key, t, map[], Tick(0, 0), map[], {});
    var run2, s2 := ReceiveNext(ring, run1, s1, a, 1, y, key, t, map[0 := a0], Tick(0, 1), map[z := Tick(0, 1)], {c});
    var run3, s3 := ReceiveNext(ring, run2, s2, b, 0, x, key, u, map[], Tick(0, 1), map[], {a});
    var run4, s4 := ReceiveNext(ring, run3, s3, b, 1, z, key, u, map[0 := b0], Tick(0, 1), map[], {d});
    run, s := ReceiveNext(ring, run4, s4, c, 0, x, key, t, map[1 := c1], Tick(0, 2), map[], {a, b});
    assert map[0 := a0][1 := a1] == map[0 := a0, 1 := a1] && map[0 := b0][1 := b1] == map[0 := b0, 1 := b1];
    assert map[1 := c1][0 := c0] == map[0 := c0, 1 := c1];
  }

  lemma ThreeStamped(ring: seq<Node>, run0: seq<Action>, s0: System, key: Key, a: Id, b: Id, c: Id,
                     t: seq<Option<Node>>, u: seq<Option<Node>>, x: U32, y: U32, z: U32,
                     ra: map<nat, VectorClock>, rb: map<nat, VectorClock>, rc: map<nat, VectorClock>)
    returns (run: seq<Action>, s: System)
    requires ring != [] && Reaches(ring, run0, s0) && Roles(t, u, x, y, z)
    requires ThreeWait(s0, key, a, b, c, t, u, ra, rb, rc)
    requires 0 in ra && 1 in ra && Aligned(ra[0], ra[1]) && 0 in rb && 1 in rb && Aligned(rb[0], rb[1])
    requires 0 in rc && 1 in rc && Aligned(rc[0], rc[1])
    ensures Goes(ring, run0, run, s) && s.nodes == s0.nodes && a in s.publishes && b in s.publishes && c in s.publishes
    ensures Answers(s.publishes[a], key, t, Join(ra[0], ra[1]))
    ensures Answers(s.publishes[b], key, u, Join(rb[0], rb[1]))
    ensures Answers(s.publishes[c], key, t, Join(rc[0], rc[1]))
  {
    hide Reaches, AllForward, Waits, Answers, Join, Aligned;
    var run1, s1 := RepliesNext(ring, run0, s0, a, key, t, ra);
    var run2, s2 := RepliesNext(ring, run1, s1, b, key, u, rb);
    run, s := RepliesNext(ring, run2, s2, c, key, t, rc);
  }

  lemma CycleJoins(ring: seq<Node>, key: Key)
    requires RingOk(ring)
    ensures var r := Replicas(ring, key);
            var x, y, z := r[0].id, r[1].id, r[2].id;
            var a0 := ReplyOf(ring, key, x, Tick(0, 1), map[]);
            var a1 := ReplyOf(ring, key, y, Tick(0, 2), map[z := Tick(0, 1)]);
            var b0, b1 := ReplyOf(ring, key, x, Tick(0, 2), map[]), ReplyOf(ring, key, z, Tick(0, 2), map[]);
            var c0, c1 := ReplyOf(ring, key, x, Tick(0, 3), map[]), ReplyOf(ring, key, y, Tick(0, 1), map[]);
            && Aligned(a0, a1) && Join(a0, a1) == Clocks3(ring, key, Tick(0, 1), Tick(0, 2), Tick(0, 1))
            && Aligned(b0, b1) && Join(b0, b1) == Clocks3(ring, key, Tick(0, 2), Tick(0, 0), Tick(0, 2))
            && Aligned(c0, c1) && Join(c0, c1) == Clocks3(ring, key, Tick(0, 3), Tick(0, 1), Tick(0, 0))
  {
    ReplicaIds(ring, key);
    hide Join;
    JoinOfThree(ring, key, Tick(0, 1), Tick(0, 0), Tick(0, 0), Tick(0, 0), Tick(0, 2), Tick(0, 1));
    JoinOfThree(ring, key, Tick(0, 2), Tick(0, 0), Tick(0, 0), Tick(0, 0), Tick(0, 0), Tick(0, 2));
    JoinOfThree(ring, key, Tick(0, 3), Tick(0, 0), Tick(0, 0), Tick(0, 0), Tick(0, 1), Tick(0, 0));
  }

  lemma TheCycle(ring: seq<Node>, key: Key)
    requires RingOk(ring)
    ensures var a := Clocks3(ring, key, Tick(0, 1), Tick(0, 2), Tick(0, 1));
            var b := Clocks3(ring, key, Tick(0, 2), Tick(0, 0), Tick(0, 2));
            var c := Clocks3(ring, key, Tick(0, 3), Tick(0, 1), Tick(0, 0));
            Less(a, b) && Less(b, c) && Less(c, a) && !Less(b, a) && !Less(c, b) && !Less(a, c)
  {
    ReplicaIds(ring, key);
    var a := Clocks3(ring, key, Tick(0, 1), Tick(0, 2), Tick(0, 1));
    var b := Clocks3(ring, key, Tick(0, 2), Tick(0, 0), Tick(0, 2));
    var c := Clocks3(ring, key, Tick(0, 3), Tick(0, 1), Tick(0, 0));
    TwoComponentsDecide(a, b, 0, 2);
    TwoComponentsDecide(b, c, 0, 1);
    TwoComponentsDecide(c, a, 1, 2);
  }

  /** The stamps reach the first replica in turn, and the middle message is claimed. */
  lemma StampsAndClaim(ring: seq<Node>, run0: seq<Action>, s0: System, key: Key, a: Id, b: Id, c: Id,
                       t: seq<Option<Node>>, u: seq<Option<Node>>, x: U32, y: U32, z: U32,
                       ca: VectorClock, cb: VectorClock, cc: VectorClock)
    returns (run: seq<Action>, s: System)
    requires ring != [] && Reaches(ring, run0, s0) && Roles(t, u, x, y, z) && a != b && b != c && a != c
    requires a in s0.publishes && b in s0.publishes && c in s0.publishes
    requires Answers(s0.publishes[a], key, t, ca) && Answers(s0.publishes[b], key, u, cb)
    requires Answers(s0.publishes[c], key, t, cc)
    requires x in s0.nodes && Holds(s0.nodes[x], key, Tick(0, 3), map[], {a, b, c})
    requires !Less(cb, ca) && !Less(cc, cb)
    ensures Goes(ring, run0, run, s) && s.publishes == s0.publishes && x in s.nodes
    ensures Lists(QueueOn(s, x, key), [a, c], [ca, cc])
  {
    hide Reaches, AllForward, Less, Answers, Lists, Lines;
    HoldsLines(s0.nodes[x], key, Tick(0, 3), map[], {a, b, c});
    var run1, s1 := StampEnd(ring, run0, s0, key, x, 0, a, t, ca, [], [], {a, b, c});
    assert [] + [a] == [a] && [] + [ca] == [ca] && {a, b, c} - {a} == {b, c};
    var run2, s2 := StampEnd(ring, run1, s1, key, x, 0, b, u, cb, [a], [ca], {b, c});
    assert [a] + [b] == [a, b] && [ca] + [cb] == [ca, cb] && {b, c} - {b} == {c};
    var run3, s3 := StampEnd(ring, run2, s2, key, x, 0, c, t, cc, [a, b], [ca, cb], {c});
    assert [a, b] + [c] == [a, b, c] && [ca, cb] + [cc] == [ca, cb, cc] && {c} - {c} == {};
    run, s := ClaimNext(ring, run3, s3, x, key, a, b, c, [ca, cb, cc]);
  }

  /** On every ring and for every key three overlapping publishes can be given stamps in a cycle,
      and a claim then leaves a replica listing a message before one whose stamp is less: what
      PeekAllInClockOrder promises can fail where the comparison does not order the stamps. */
  lemma OverlapInverts(ring: seq<Node>, key: Key, a: Id, b: Id, c: Id, d: Id) returns (run: seq<Action>, s: System)
    requires RingOk(ring) && a != b && b != c && a != c && d != a && d != b && d != c
    ensures PublishProtocol.After(ring, run) == Some(s) && AllForward(ring, run)
    ensures a in s.publishes && c in s.publishes && s.publishes[a].stamp.Some? && s.publishes[c].stamp.Some?
    ensures var ca, cc := s.publishes[a].stamp.value, s.publishes[c].stamp.value;
            var x := Replicas(ring, key)[0].id;
            && Less(cc, ca) && !Less(ca, cc)
            && x in s.nodes && Lists(QueueOn(s, x, key), [a, c], [ca, cc])
  {
    hide Reaches, AllForward, Waits, Holds, Lists, Less, ReplyOf, Join, Aligned, Clocks3;
    var r := Replicas(ring, key);
    var x, y, z := r[0].id, r[1].id, r[2].id;
    var t, u := [Some(r[0]), Some(r[1]), Some(r[2])], [Some(r[0]), Some(r[2]), Some(r[1])];
    var v := [Some(r[2]), Some(r[0]), Some(r[1])];
    var run1, s1 := FourOpen(ring, key, a, b, c, d);
    hide Replicas;
    var run2, s2 := FirstHalf(ring, run1, s1, key, a, b, c, d, t, u, v, x, y, z);
    var a0, a1 := ReplyOf(ring, key, x, Tick(0, 1), map[]), ReplyOf(ring, key, y, Tick(0, 2), map[z := Tick(0, 1)]);
    var b0, b1 := ReplyOf(ring, key, x, Tick(0, 2), map[]), ReplyOf(ring, key, z, Tick(0, 2), map[]);
    var c0, c1 := ReplyOf(ring, key, x, Tick(0, 3), map[]), ReplyOf(ring, key, y, Tick(0, 1), map[]);
    var run3, s3 := SecondHalf(ring, run2, s2, key, a, b, c, d, t, u, x, y, z, c1);
    CycleJoins(ring, key);
    TheCycle(ring, key);
    var run4, s4 := ThreeStamped(ring, run3, s3, key, a, b, c, t, u, x, y, z,
                                 map[0 := a0, 1 := a1], map[0 := b0, 1 := b1], map[0 := c0, 1 := c1]);
    run, s := StampsAndClaim(ring, run4, s4, key, a, b, c, t, u, x, y, z, Join(a0, a1), Join(b0, b1), Join(c0, c1));
    ReachesIs(ring, run, s);
  }

  // ---- A restart that goes back ----

  lemma RestartNext(ring: seq<Node>, run: seq<Action>, s: System, n: U32, key: Key, tick: Tick)
    returns (run': seq<Action>, s': System)
    requires ring != [] && Reaches(ring, run, s) && n in s.nodes
    ensures run' == run + [Restart(n, tick)] && Reaches(ring, run', s') && s'.publishes == s.publishes
    ensures s'.log == s.log && n in s'.nodes && s'.nodes == s.nodes[n := s'.nodes[n]]
    ensures Holds(s'.nodes[n], key, tick, map[], {})
  {
    hide Goes, Reaches;
    var a := Restart(n, tick);
    s' := s.(nodes := s.nodes[n := Replica(tick, map[], map[])]);
    assert PublishProtocol.Step(ring, s, a) == Some(s');
    Next(ring, run, s, a, s');
    run' := run + [a];
  }

  /** A publish to the first two replicas begins, reaches both and is answered. */
  lemma WholePublish(ring: seq<Node>, run0: seq<Action>, s0: System, key: Key, id: Id, targets: seq<Option<Node>>,
                     x: U32, y: U32, tx: Tick, ty: Tick, ix: set<Id>, iy: set<Id>)
    returns (run: seq<Action>, s: System)
    requires ring != [] && Reaches(ring, run0, s0) && id !in s0.publishes && id !in s0.log
    requires AllThree(ring, key, targets) && IsNode(targets[0], x) && IsNode(targets[1], y) && x != y
    requires x in s0.nodes && Holds(s0.nodes[x], key, tx, map[], ix) && tx.clock < 100
    requires y in s0.nodes && Holds(s0.nodes[y], key, ty, map[], iy) && ty.clock < 100
    requires Aligned(ReplyOf(ring, key, x, Tock(tx), map[]), ReplyOf(ring, key, y, Tock(ty), map[]))
    ensures Goes(ring, run0, run, s) && OnlyChanges(s0, s, id) && s.log == s0.log + [id]
    ensures Answers(s.publishes[id], key, targets,
                    Join(ReplyOf(ring, key, x, Tock(tx), map[]), ReplyOf(ring, key, y, Tock(ty), map[])))
    ensures x in s.nodes && y in s.nodes && Holds(s.nodes[x], key, Tock(tx), map[], ix + {id})
    ensures Holds(s.nodes[y], key, Tock(ty), map[], iy + {id})
  {
    hide Reaches, AllForward, AllThree, Waits, Holds, Join, Aligned, ReplyOf, Answers;
    var run1, s1 := OpenThree(ring, run0, s0, id, key, targets);
    ThreeLong(ring, key, targets);
    var run2, s2 := ReceiveNext(ring, run1, s1, id, 0, x, key, targets, map[], tx, map[], ix);
    var c, d := ReplyOf(ring, key, x, Tock(tx), map[]), ReplyOf(ring, key, y, Tock(ty), map[]);
    var run3, s3 := ReceiveNext(ring, run2, s2, id, 1, y, key, targets, map[0 := c], ty, map[], iy);
    run, s := RepliesNext(ring, run3, s3, id, key, targets, map[0 := c][1 := d]);
  }

  lemma ThreeLong(ring: seq<Node>, key: Key, targets: seq<Option<Node>>)
    requires ring != [] && AllThree(ring, key, targets)
    ensures |targets| == 3
  {
  }

  /** A first publish has raised the clock of the first replica, and a second one is stamped. */
  lemma StampedFirst(ring: seq<Node>, key: Key, a: Id, d: Id) returns (run: seq<Action>, s: System)
    requires RingOk(ring) && a != d
    ensures Reaches(ring, run, s) && AllForward(ring, run) && s.log == [d, a] && s.publishes.Keys == {a, d}
    ensures var r := Replicas(ring, key);
            var x, y := r[0].id, r[1].id;
            && x != y && x in s.nodes && s.nodes[x].tick == Tick(0, 2)
            && y in s.nodes && Holds(s.nodes[y], key, Tick(0, 1), map[], {a})
            && Answers(s.publishes[a], key, [Some(r[0]), Some(r[1]), Some(r[2])],
                       Clocks3(ring, key, Tick(0, 2), Tick(0, 1), Tick(0, 0)))
  {
    hide AllThree, Replicas, Reaches, AllForward, Waits, Holds, RingIds, ReplyOf, Join, Aligned, Clocks3, Answers;
    var r := Replicas(ring, key);
    var x, y, targets := r[0].id, r[1].id, [Some(r[0]), Some(r[1]), Some(r[2])];
    ReplicaIds(ring, key);
    NewReplicas(ring, key);
    InAnyOrder(ring, key, 0, 1, 2);
    CrossJoins(ring, key);
    Started(ring);
    var none: set<Id> := {};
    assert none + {d} == {d} && none + {a} == {a};
    var run1, s1 := OpenThree(ring, [], Initially(ring), d, key, targets);
    var run2, s2 := ReceiveNext(ring, run1, s1, d, 0, x, key, targets, map[], Tick(0, 0), map[], {});
    run, s := WholePublish(ring, run2, s2, key, a, targets, x, y, Tick(0, 1), Tick(0, 0), {d}, {});
    HoldsTick(s.nodes[x], key, Tick(0, 2), map[], {d} + {a});
  }

  /** On every ring and for every key: once a publish is stamped, one restart of a replica that
      resumes in the old generation with a clock of zero lets the next publish tie with it. */
  lemma RestartBackTies(ring: seq<Node>, key: Key, a: Id, b: Id, d: Id)
    returns (first: seq<Action>, rest: seq<Action>, s1: System, s2: System)
    requires RingOk(ring) && a != b && d != a && d != b
    ensures PublishProtocol.After(ring, first) == Some(s1) && AllForward(ring, first)
    ensures a in s1.publishes && s1.publishes[a].stamp.Some? && b !in s1.log
    ensures var x := Replicas(ring, key)[0].id;
            && x in s1.nodes && s1.nodes[x].tick == Tick(0, 2) && rest != [] && rest[0] == Restart(x, Tick(0, 0))
    ensures PublishProtocol.After(ring, first + rest) == Some(s2)
    ensures a in s2.publishes && s2.publishes[a] == s1.publishes[a]
    ensures b in s2.publishes && s2.publishes[b].stamp.Some?
    ensures s2.publishes[b].key == s2.publishes[a].key
    ensures !Less(s2.publishes[a].stamp.value, s2.publishes[b].stamp.value)
  {
    hide AllThree, Reaches, AllForward, Waits, Holds, ReplyOf, Join, Aligned, Clocks3, Less;
    var r := Replicas(ring, key);
    var x, y, targets := r[0].id, r[1].id, [Some(r[0]), Some(r[1]), Some(r[2])];
    InAnyOrder(ring, key, 0, 1, 2);
    hide Replicas;
    CrossJoins(ring, key);
    TheTie(ring, key);
    hide Answers;
    first, s1 := StampedFirst(ring, key, a, d);
    var run1, t1 := RestartNext(ring, first, s1, x, key, Tick(0, 0));
    var run2;
    run2, s2 := WholePublish(ring, run1, t1, key, b, targets, x, y, Tick(0, 0), Tick(0, 1), {}, {a});
    rest := Remainder(first, run2, Restart(x, Tick(0, 0)));
    AnswersIs(s2.publishes[a], key, targets, Clocks3(ring, key, Tick(0, 2), Tick(0, 1), Tick(0, 0)));
    AnswersIs(s2.publishes[b], key, targets, Clocks3(ring, key, Tick(0, 1), Tick(0, 2), Tick(0, 0)));
    ReachesIs(ring, first, s1);
    ReachesIs(ring, run2, s2);
  }

  lemma Remainder(first: seq<Action>, run: seq<Action>, a: Action) returns (rest: seq<Action>)
    requires first + [a] <= run
    ensures rest != [] && rest[0] == a && run == first + rest
  {
    rest := run[|first|..];
    assert run[|first|] == (first + [a])[|first|];
  }

  lemma AnswersIs(p: Publish, key: Key, targets: seq<Option<Node>>, stamp: VectorClock)
    requires Answers(p, key, targets, stamp)
    ensures p.key == key && p.stamp == Some(stamp)
  {
  }
}
