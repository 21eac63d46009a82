/** The steps of one publish that its first two targets answer, as continuations of a run. */
module PublishSteps {
  import opened Wrappers
  import opened Clocks
  import opened Ring
  import opened QuorumProtocol
  import opened MessageQueues
  import opened PublishProtocol
  import opened PublishLocal
  import opened PublishQueues

  ghost predicate Reaches(ring: seq<Node>, run: seq<Action>, s: System)
    requires ring != []
  {
    PublishProtocol.After(ring, run) == Some(s)
  }

  /** The longer run reaches this state, without a clock going back on the way. */
  ghost predicate Goes(ring: seq<Node>, run: seq<Action>, run': seq<Action>, s': System)
    requires ring != []
  {
    run <= run' && Reaches(ring, run', s') && (AllForward(ring, run) ==> AllForward(ring, run'))
  }

  /** What is one at a time stays so. */
  ghost predicate StillInTurn(ring: seq<Node>, run: seq<Action>, run': seq<Action>)
    requires ring != []
  {
    OneAtATime(ring, run) ==> OneAtATime(ring, run')
  }

  lemma Started(ring: seq<Node>)
    requires ring != []
    ensures Reaches(ring, [], Initially(ring)) && AllForward(ring, [])
  {
  }

  lemma Next(ring: seq<Node>, run: seq<Action>, s: System, a: Action, s': System)
    requires ring != [] && Reaches(ring, run, s) && PublishProtocol.Step(ring, s, a) == Some(s')
    ensures Reaches(ring, run + [a], s')
    ensures Forward(s, a) ==> Goes(ring, run, run + [a], s')
    ensures InTurn(s, a) ==> StillInTurn(ring, run, run + [a])
  {
    assert (run + [a])[..|run|] == run;
  }

  /** The coordinator after run() returned: the first two calls are out. */
  const LAUNCHED := Quorum(2, [], [], [0, 1], {0, 1}, 0, 0, 0, 0)

  /** A publish whose first two calls are out, with these replies on their way. */
  ghost predicate Waits(p: Publish, key: Key, targets: seq<Option<Node>>, replies: map<nat, VectorClock>) {
    && p.key == key && p.targets == targets && p.logic == LAUNCHED && p.delivered == replies
    && p.clocks == [] && p.stamp == None
  }

  /** A publish that both of its first two targets have answered. */
  ghost predicate Answers(p: Publish, key: Key, targets: seq<Option<Node>>, stamp: VectorClock) {
    p.key == key && p.targets == targets && p.logic.successes == [0, 1] && p.stamp == Some(stamp)
  }

  /** No other publish has changed. */
  ghost predicate OnlyChanges(s: System, s': System, id: Id) {
    id in s'.publishes && s'.publishes == s.publishes[id := s'.publishes[id]]
  }

  lemma LaunchNext(ring: seq<Node>, run: seq<Action>, s: System, id: Id, p: Publish)
    returns (run': seq<Action>, s': System)
    requires ring != [] && Reaches(ring, run, s) && id in s.publishes && s.publishes[id].logic.owed > 0
    requires p == s.publishes[id].(logic := QuorumProtocol.Step(3, s.publishes[id].logic, RunCall).value)
    requires CallsNodes(p)
    ensures run' == run + [Launch(id)] && Goes(ring, run, run', s') && StillInTurn(ring, run, run')
    ensures s' == s.(publishes := s.publishes[id := p])
  {
    hide Reaches, Goes, StillInTurn;
    s' := s.(publishes := s.publishes[id := p]);
    Next(ring, run, s, Launch(id), s');
    run' := run + [Launch(id)];
  }

  /** A publish begins and calls its first two targets. */
  lemma OpenNext(ring: seq<Node>, run: seq<Action>, s: System, id: Id, key: Key, live: set<Node>,
                 targets: seq<Option<Node>>) returns (run': seq<Action>, s': System)
    requires ring != [] && Reaches(ring, run, s) && id !in s.publishes
    requires GoodQuorum(Replicas(ring, key), n => n in live, targets) && targets[0].Some? && targets[1].Some?
    ensures run' == run + [Begin(id, key, live, targets), Launch(id), Launch(id)]
    ensures Goes(ring, run, run', s') && StillInTurn(ring, run, run')
    ensures s'.nodes == s.nodes && s'.log == s.log && OnlyChanges(s, s', id)
    ensures id in s'.publishes && Waits(s'.publishes[id], key, targets, map[])
  {
    hide Reaches, AllForward, OneAtATime, GoodQuorum;
    var a, b, p := Begin(id, key, live, targets), Launch(id), Begun(key, targets);
    var s1 := s.(publishes := s.publishes[id := p]);
    Next(ring, run, s, a, s1);
    var p1 := p.(logic := QuorumProtocol.Step(3, p.logic, RunCall).value);
    var run2, s2 := LaunchNext(ring, run + [a], s1, id, p1);
    var p2 := p1.(logic := QuorumProtocol.Step(3, p1.logic, RunCall).value);
    run', s' := LaunchNext(ring, run2, s2, id, p2);
    assert run' == run + [a, b, b];
  }

  /** Call i reaches its target. */
  lemma DeliverNext(ring: seq<Node>, run: seq<Action>, s: System, id: Id, i: nat, n: U32, key: Key,
                    targets: seq<Option<Node>>, replies: map<nat, VectorClock>, data: string, ttlSecs: U32, now: Time)
    returns (run': seq<Action>, s': System)
    requires ring != [] && Reaches(ring, run, s) && id in s.publishes && Waits(s.publishes[id], key, targets, replies)
    requires i < 2 && i !in replies && |targets| == 3 && IsNode(targets[i], n)
    requires n in s.nodes && s.nodes[n].tick.clock != 0xFFFF_FFFF_FFFF_FFFF
    ensures run' == run + [Deliver(id, i, data, ttlSecs, now)] && Goes(ring, run, run', s')
    ensures InTurn(s, Deliver(id, i, data, ttlSecs, now)) ==> StillInTurn(ring, run, run')
    ensures s'.nodes == s.nodes[n := Receive(s.nodes[n], key, id, data, ttlSecs, now)] && OnlyChanges(s, s', id)
    ensures s'.log == if id in s.log then s.log else s.log + [id]
    ensures Waits(s'.publishes[id], key, targets, replies[i := ReplyClock(ring, key, n, s'.nodes[n])])
  {
    hide Reaches, Goes, StillInTurn, InTurn, ReplyClock, Receive;
    var a := Deliver(id, i, data, ttlSecs, now);
    s' := DeliverTo(ring, s, id, i, data, ttlSecs, now);
    Next(ring, run, s, a, s');
    run' := run + [a];
  }

  /** Both replies come, and the publish is stamped with their maximum. */
  lemma RepliesNext(ring: seq<Node>, run: seq<Action>, s: System, id: Id, key: Key, targets: seq<Option<Node>>,
                    replies: map<nat, VectorClock>)
    returns (run': seq<Action>, s': System)
    requires ring != [] && Reaches(ring, run, s) && id in s.publishes && Waits(s.publishes[id], key, targets, replies)
    requires 0 in replies && 1 in replies && Aligned(replies[0], replies[1])
    requires |targets| == 3 && targets[0].Some? && targets[1].Some?
    ensures run' == run + [Reply(id, 0), Reply(id, 1)] && Goes(ring, run, run', s') && StillInTurn(ring, run, run')
    ensures s'.nodes == s.nodes && s'.log == s.log && OnlyChanges(s, s', id)
    ensures id in s'.publishes && Answers(s'.publishes[id], key, targets, Join(replies[0], replies[1]))
  {
    hide Reaches, AllForward, OneAtATime, Join, Aligned;
    var p := s.publishes[id];
    var p1 := Answered(p, 0);
    var s1 := s.(publishes := s.publishes[id := p1]);
    assert PublishProtocol.Step(ring, s, Reply(id, 0)) == Some(s1);
    Next(ring, run, s, Reply(id, 0), s1);
    var p2 := Answered(p1, 1);
    assert p2.clocks == [replies[0], replies[1]];
    s' := s1.(publishes := s1.publishes[id := p2]);
    Next(ring, run + [Reply(id, 0)], s1, Reply(id, 1), s');
    run' := run + [Reply(id, 0)] + [Reply(id, 1)];
  }
}
