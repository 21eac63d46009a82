/** Which publishes can still be stamped, from every state a run reaches, and that one whose
    first two replicas answer is. */
module PublishProgress {
  import opened Wrappers
  import opened Clocks
  import opened Ring
  import opened QuorumProtocol
  import opened MessageQueues
  import opened PublishProtocol
  import opened PublishCoordinators
  import opened PublishLocal
  import opened PublishQueues
  import opened PublishSteps

  ghost predicate CanCount(s: System, n: U32) {
    n in s.nodes && s.nodes[n].tick.clock != 0xFFFF_FFFF_FFFF_FFFF
  }

  /** The actions of a publish that its first two targets answer. */
  function Script(id: Id, key: Key, live: set<Node>, targets: seq<Option<Node>>,
                  data: string, ttlSecs: U32, now: Time): seq<Action> {
    [Begin(id, key, live, targets), Launch(id), Launch(id),
     Deliver(id, 0, data, ttlSecs, now), Deliver(id, 1, data, ttlSecs, now), Reply(id, 0), Reply(id, 1)]
  }

  lemma FirstTwoReady(ring: seq<Node>, run: seq<Action>, s: System, key: Key, live: set<Node>,
                      targets: seq<Option<Node>>) returns (x: U32, y: U32)
    requires RingOk(ring) && PublishProtocol.After(ring, run) == Some(s)
    requires GoodQuorum(Replicas(ring, key), n => n in live, targets)
    ensures |targets| == 3 && IsNode(targets[0], x) && IsNode(targets[1], y)
    ensures x != y && x in s.nodes && y in s.nodes && LogTidy(s) && ring != []
  {
    RunTidy(ring, run, s);
    hide PublishProtocol.After;
    ReplicaIds(ring, key);
    GoodTargets(ring, key, live, targets);
    assert AllDifferent(Replicas(ring, key));
    assert targets[0] != targets[1];
    x, y := targets[0].value.id, targets[1].value.id;
  }

  /** From every state a run reaches, in its turn, a publish with a quorum of replicas that answer
      is stamped. */
  lemma PublishSucceeds(ring: seq<Node>, run: seq<Action>, s: System, id: Id, key: Key, live: set<Node>,
                        targets: seq<Option<Node>>, data: string, ttlSecs: U32, now: Time) returns (s': System)
    requires RingOk(ring) && PublishProtocol.After(ring, run) == Some(s)
    requires AllForward(ring, run) && OneAtATime(ring, run)
    requires id !in s.publishes && GoodQuorum(Replicas(ring, key), n => n in live, targets)
    requires forall n :: n in s.nodes ==> CanCount(s, n)
    requires forall x :: x in s.publishes && s.publishes[x].key == key ==> Settled(s.publishes[x])
    ensures var run' := run + Script(id, key, live, targets, data, ttlSecs, now);
            PublishProtocol.After(ring, run') == Some(s') && AllForward(ring, run') && OneAtATime(ring, run')
    ensures id in s'.publishes && s'.publishes[id].stamp.Some? && s'.publishes[id].key == key
    ensures s'.log == s.log + [id] && OnlyChanges(s, s', id)
  {
    hide PublishProtocol.After, AllForward, OneAtATime, GoodQuorum, RingOk, Waits, OnlyChanges, LogTidy, Replicas;
    var x, y := FirstTwoReady(ring, run, s, key, live, targets);
    assert CanCount(s, x) && CanCount(s, y);
    var run1, s1 := OpenNext(ring, run, s, id, key, live, targets);
    SettledStay(s, s1, id, key);
    var run2, s2, replies := Received(ring, run1, s1, id, key, targets, x, y, data, ttlSecs, now);
    var run3;
    run3, s' := RepliesNext(ring, run2, s2, id, key, targets, replies);
    ChangesOn(s, s1, s2, id);
    ChangesOn(s, s2, s', id);
    ScriptParts(run, id, key, live, targets, data, ttlSecs, now);
  }

  lemma ScriptParts(run: seq<Action>, id: Id, key: Key, live: set<Node>, targets: seq<Option<Node>>,
                    data: string, ttlSecs: U32, now: Time)
    ensures run + Script(id, key, live, targets, data, ttlSecs, now) ==
            run + [Begin(id, key, live, targets), Launch(id), Launch(id)]
            + [Deliver(id, 0, data, ttlSecs, now), Deliver(id, 1, data, ttlSecs, now)]
            + [Reply(id, 0), Reply(id, 1)]
  {
  }

  lemma SettledStay(s: System, s1: System, id: Id, key: Key)
    requires OnlyChanges(s, s1, id) && id !in s.publishes && s1.log == s.log && LogTidy(s)
    requires forall x :: x in s.publishes && s.publishes[x].key == key ==> Settled(s.publishes[x])
    ensures id in s1.publishes && id !in s1.log
    ensures forall x :: x in s1.log && x in s1.publishes && s1.publishes[x].key == key ==> Settled(s1.publishes[x])
  {
  }

  lemma Received(ring: seq<Node>, run: seq<Action>, s: System, id: Id, key: Key, targets: seq<Option<Node>>,
                 x: U32, y: U32, data: string, ttlSecs: U32, now: Time)
    returns (run': seq<Action>, s': System, replies: map<nat, VectorClock>)
    requires ring != [] && Reaches(ring, run, s) && id in s.publishes && Waits(s.publishes[id], key, targets, map[])
    requires |targets| == 3 && IsNode(targets[0], x) && IsNode(targets[1], y) && x != y
    requires CanCount(s, x) && CanCount(s, y) && id !in s.log
    requires forall z :: z in s.log && z in s.publishes && s.publishes[z].key == key ==> Settled(s.publishes[z])
    ensures run' == run + [Deliver(id, 0, data, ttlSecs, now), Deliver(id, 1, data, ttlSecs, now)]
    ensures Goes(ring, run, run', s') && StillInTurn(ring, run, run')
    ensures s'.log == s.log + [id] && OnlyChanges(s, s', id)
    ensures id in s'.publishes && Waits(s'.publishes[id], key, targets, replies)
    ensures 0 in replies && 1 in replies && Aligned(replies[0], replies[1])
  {
    hide Reaches, AllForward, OneAtATime, ReplyClock, Receive, Settled;
    var a, b := Deliver(id, 0, data, ttlSecs, now), Deliver(id, 1, data, ttlSecs, now);
    assert InTurn(s, a);
    hide Waits;
    var run1, s1 := DeliverNext(ring, run, s, id, 0, x, key, targets, map[], data, ttlSecs, now);
    var c := ReplyClock(ring, key, x, s1.nodes[x]);
    assert InTurn(s1, b);
    run', s' := DeliverNext(ring, run1, s1, id, 1, y, key, targets, map[0 := c], data, ttlSecs, now);
    var d := ReplyClock(ring, key, y, s'.nodes[y]);
    replies := map[0 := c][1 := d];
    RepliesAligned(ring, key, x, s1.nodes[x], y, s'.nodes[y]);
    assert run' == run + [a, b];
  }

  lemma RepliesAligned(ring: seq<Node>, key: Key, x: U32, r: Replica, y: U32, r': Replica)
    requires ring != []
    ensures Aligned(ReplyClock(ring, key, x, r), ReplyClock(ring, key, y, r'))
  {
  }

  // ---- Which publishes can still be stamped ----

  /** The targets at these positions are nodes. */
  predicate NodesFrom(targets: seq<Option<Node>>, lo: nat, hi: nat) {
    (lo < hi ==> hi <= |targets|) && forall i :: lo <= i < hi && i < |targets| ==> targets[i].Some?
  }

  /** It has not been given up, and every launch that run() still owes goes to a node. */
  predicate InReach(p: Publish) {
    p.logic.failCalls == 0 && NodesFrom(p.targets, p.logic.lastNode, p.logic.lastNode + p.logic.owed)
  }

  /** The actions that are left: launches, deliveries and replies. */
  ghost function Left(p: Publish): nat {
    LeftOf(p.logic.owed, p.logic.pending, p.delivered.Keys)
  }

  ghost function LeftOf(owed: nat, pending: set<nat>, delivered: set<nat>): nat {
    3 * owed + |pending| + |pending - delivered|
  }

  /** The publish takes an action towards its stamp. */
  ghost predicate Nearer(ring: seq<Node>, s: System, id: Id, a: Action, s': System)
    requires ring != [] && id in s.publishes
  {
    && PublishProtocol.Step(ring, s, a) == Some(s') && OnlyChanges(s, s', id)
    && InReach(s'.publishes[id]) && Left(s'.publishes[id]) < Left(s.publishes[id])
  }

  /** The next call is new, and goes to a node. */
  lemma NextCallIsNew(ring: seq<Node>, p: Publish)
    requires ring != [] && Orderly(ring, p) && InReach(p) && p.logic.owed > 0
    ensures var n := p.logic.lastNode;
            n !in p.logic.pending && n !in p.delivered && n < |p.targets| && p.targets[n].Some? && CallsNodes(p)
  {
  }

  lemma LaunchLeft(p: Publish, p': Publish)
    requires InReach(p) && p.logic.owed > 0 && CallsNodes(p)
    requires p.logic.lastNode !in p.logic.pending && p.logic.lastNode !in p.delivered
    requires p.logic.lastNode < |p.targets| && p.targets[p.logic.lastNode].Some?
    requires p' == p.(logic := QuorumProtocol.Step(3, p.logic, RunCall).value)
    ensures CallsNodes(p') && InReach(p') && Left(p') < Left(p)
  {
    hide LeftOf, NodesFrom;
    var n := p.logic.lastNode;
    NodesLater(p.targets, n, n + p.logic.owed);
    assert p'.targets == p.targets && p'.logic.lastNode == n + 1 && p'.logic.owed == p.logic.owed - 1;
    assert n + 1 + p'.logic.owed == n + p.logic.owed;
    OneMoreOpen(p.logic.owed, p.logic.pending, p.delivered.Keys, p.logic.lastNode);
  }

  lemma NodesLater(targets: seq<Option<Node>>, lo: nat, hi: nat)
    requires NodesFrom(targets, lo, hi)
    ensures NodesFrom(targets, lo + 1, hi)
  {
  }

  lemma OneMoreOpen(owed: nat, pending: set<nat>, delivered: set<nat>, n: nat)
    requires owed > 0 && n !in pending && n !in delivered
    ensures LeftOf(owed - 1, pending + {n}, delivered) < LeftOf(owed, pending, delivered)
  {
    assert (pending + {n}) - delivered == (pending - delivered) + {n};
  }

  lemma DeliverLeft(p: Publish, i: nat, p': Publish)
    requires InReach(p) && i in p.logic.pending && i !in p.delivered
    requires p'.logic == p.logic && p'.targets == p.targets && p'.delivered.Keys == p.delivered.Keys + {i}
    ensures InReach(p') && Left(p') < Left(p)
  {
    hide InReach, LeftOf;
    SameReach(p, p');
    OneMoreDelivered(p.logic.owed, p.logic.pending, p.delivered.Keys, i);
  }

  lemma SameReach(p: Publish, p': Publish)
    requires InReach(p) && p'.targets == p.targets && p'.logic.failCalls == p.logic.failCalls
    requires p'.logic.lastNode == p.logic.lastNode && p'.logic.owed == p.logic.owed
    ensures InReach(p')
  {
  }

  lemma OneMoreDelivered(owed: nat, pending: set<nat>, delivered: set<nat>, i: nat)
    requires i in pending && i !in delivered
    ensures LeftOf(owed, pending, delivered + {i}) < LeftOf(owed, pending, delivered)
  {
    assert pending - (delivered + {i}) == (pending - delivered) - {i};
  }

  lemma ReplyLeft(p: Publish, i: nat, p': Publish)
    requires InReach(p) && CallsNodes(p) && i in p.logic.pending && i in p.delivered && p' == Answered(p, i)
    ensures CallsNodes(p') && InReach(p') && Left(p') < Left(p)
  {
    hide InReach, Aligned, Join, LeftOf;
    SameReach(p, p');
    OneMoreAnswered(p.logic.owed, p.logic.pending, p.delivered.Keys, i);
  }

  lemma OneMoreAnswered(owed: nat, pending: set<nat>, delivered: set<nat>, i: nat)
    requires i in pending && i in delivered
    ensures LeftOf(owed, pending - {i}, delivered) < LeftOf(owed, pending, delivered)
  {
    assert (pending - {i}) - delivered == pending - delivered;
  }

  lemma LaunchNearer(ring: seq<Node>, s: System, id: Id) returns (s': System)
    requires ring != [] && id in s.publishes && Orderly(ring, s.publishes[id]) && InReach(s.publishes[id])
    requires s.publishes[id].logic.owed > 0
    ensures Nearer(ring, s, id, Launch(id), s')
  {
    hide Orderly, InReach, Left, CallsNodes;
    var p := s.publishes[id];
    var p' := p.(logic := QuorumProtocol.Step(3, p.logic, RunCall).value);
    NextCallIsNew(ring, p);
    LaunchLeft(p, p');
    s' := s.(publishes := s.publishes[id := p']);
  }

  lemma DeliverNearer(ring: seq<Node>, s: System, id: Id, i: nat) returns (s': System)
    requires RingOk(ring) && Tidy(ring, s) && id in s.publishes && InReach(s.publishes[id])
    requires i in s.publishes[id].logic.pending && i !in s.publishes[id].delivered
    ensures Nearer(ring, s, id, Deliver(id, i, "", 0, 0), s')
  {
    hide Tidy, InReach, Left, Receive, ReplyClock, Replicas;
    CanDeliverPending(ring, s, id, i);
    s' := DeliverTo(ring, s, id, i, "", 0, 0);
    DeliverLeft(s.publishes[id], i, s'.publishes[id]);
  }

  lemma ReplyNearer(ring: seq<Node>, s: System, id: Id, i: nat) returns (s': System)
    requires ring != [] && id in s.publishes && CallsNodes(s.publishes[id]) && InReach(s.publishes[id])
    requires i in s.publishes[id].logic.pending && i in s.publishes[id].delivered
    ensures Nearer(ring, s, id, Reply(id, i), s')
  {
    hide InReach, Left, CallsNodes, Answered;
    var p' := Answered(s.publishes[id], i);
    ReplyLeft(s.publishes[id], i, p');
    s' := s.(publishes := s.publishes[id := p']);
  }

  lemma CanDeliverPending(ring: seq<Node>, s: System, id: Id, i: nat)
    requires RingOk(ring) && Tidy(ring, s) && id in s.publishes
    requires i in s.publishes[id].logic.pending && i !in s.publishes[id].delivered
    ensures CanDeliver(s, id, i)
  {
    var p := s.publishes[id];
    assert Orderly(ring, p);
    ReplicaIds(ring, p.key);
    assert p.targets[i].Some? && p.targets[i].value in Replicas(ring, p.key);
  }

  lemma SomeNearer(ring: seq<Node>, s: System, id: Id) returns (a: Action, s': System)
    requires RingOk(ring) && Tidy(ring, s) && id in s.publishes && InReach(s.publishes[id])
    requires s.publishes[id].stamp.None?
    ensures Nearer(ring, s, id, a, s')
  {
    hide Nearer;
    var p := s.publishes[id];
    assert Orderly(ring, p);
    hide InReach, Left;
    if p.logic.owed > 0 {
      a := Launch(id);
      s' := LaunchNearer(ring, s, id);
    } else {
      assert p.logic.pending != {};
      var i :| i in p.logic.pending;
      if i in p.delivered {
        a := Reply(id, i);
        s' := ReplyNearer(ring, s, id, i);
      } else {
        a := Deliver(id, i, "", 0, 0);
        s' := DeliverNearer(ring, s, id, i);
      }
    }
  }

  lemma ChangesOn(s: System, s1: System, s2: System, id: Id)
    requires OnlyChanges(s, s1, id) && OnlyChanges(s1, s2, id)
    ensures OnlyChanges(s, s2, id)
  {
  }

  lemma NothingChanges(s: System, id: Id)
    requires id in s.publishes
    ensures OnlyChanges(s, s, id)
  {
  }

  lemma ChangesKeys(s: System, s1: System, id: Id)
    requires OnlyChanges(s, s1, id)
    ensures id in s1.publishes
  {
  }

  lemma RunGoesTo(ring: seq<Node>, run: seq<Action>, s: System, a: Action, s': System)
    requires ring != [] && PublishProtocol.After(ring, run) == Some(s) && PublishProtocol.Step(ring, s, a) == Some(s')
    ensures PublishProtocol.After(ring, run + [a]) == Some(s')
  {
    assert (run + [a])[..|run|] == run;
  }

  /** A publish in reach gets its stamp once its calls are made and answered, and no other
      publish is touched. */
  lemma {:induction false} StampInReach(ring: seq<Node>, run: seq<Action>, s: System, id: Id)
    returns (more: seq<Action>, s': System)
    requires RingOk(ring) && PublishProtocol.After(ring, run) == Some(s)
    requires id in s.publishes && InReach(s.publishes[id])
    ensures PublishProtocol.After(ring, run + more) == Some(s') && OnlyChanges(s, s', id)
    ensures s'.publishes[id].stamp.Some?
    decreases Left(s.publishes[id])
  {
    hide PublishProtocol.After, PublishProtocol.Step, InReach, Left, OnlyChanges;
    if s.publishes[id].stamp.Some? {
      more, s' := [], s;
      assert run + more == run;
      NothingChanges(s, id);
    } else {
      RunTidy(ring, run, s);
      hide Tidy;
      var a, s1 := SomeNearer(ring, s, id);
      RunGoesTo(ring, run, s, a, s1);
      var rest;
      ChangesKeys(s, s1, id);
      rest, s' := StampInReach(ring, run + [a], s1, id);
      ChangesOn(s, s1, s', id);
      more := [a] + rest;
      assert run + more == run + [a] + rest;
    }
  }

  /** From every state a run reaches, wrapping clocks or not, a publish can still be stamped by
      some continuation if and only if it has not been given up and every launch that run()
      still owes goes to a node. */
  lemma CanBeStampedIff(ring: seq<Node>, run: seq<Action>, s: System, id: Id)
    requires RingOk(ring) && PublishProtocol.After(ring, run) == Some(s) && id in s.publishes
    ensures (exists more, s' ::
               PublishProtocol.After(ring, run + more) == Some(s') && id in s'.publishes
               && s'.publishes[id].stamp.Some?)
            <==> InReach(s.publishes[id])
  {
    hide PublishProtocol.After, InReach;
    if InReach(s.publishes[id]) {
      var more, s' := StampInReach(ring, run, s, id);
      assert id in s'.publishes;
    }
    forall more, s' | PublishProtocol.After(ring, run + more) == Some(s') && id in s'.publishes
                      && s'.publishes[id].stamp.Some?
      ensures InReach(s.publishes[id])
    {
      RunGoesOn(ring, run, more, s, s');
      RunTidy(ring, run + more, s');
      StampedWasInReach(ring, s.publishes[id], s'.publishes[id]);
    }
  }

  lemma StampedWasInReach(ring: seq<Node>, p: Publish, p': Publish)
    requires ring != [] && Orderly(ring, p') && GoesOn(p, p') && p'.stamp.Some?
    ensures InReach(p)
  {
    assert p'.logic.owed == 0 && p'.logic.failCalls == 0;
  }
}
