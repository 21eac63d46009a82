/** What the replicas list in every run of the publish protocol.  A queue is sorted by clock
    whenever the comparison orders the stamps that reached it; any two such replicas agree on
    the order of all messages whose stamps do not tie.  When publishes to a queue come one at a
    time, that order is the order of publishing. */
module PublishQueues {
  import opened Wrappers
  import opened Clocks
  import opened Ring
  import opened MessageQueues
  import opened QueueRuns
  import opened QueueOrder
  import opened PublishProtocol
  import opened PublishCoordinators
  import opened PublishLocal
  import opened PublishOrder

  // ---- What is listed ----

  /** The stamps that publishes to this queue have been given. */
  ghost function StampsOf(publishes: map<Id, Publish>, key: Key): set<VectorClock> {
    set id | id in publishes && publishes[id].key == key && publishes[id].stamp.Some? :: publishes[id].stamp.value
  }

  /** Each entry is a publish to this queue under the stamp its coordinator computed. */
  ghost predicate UnderStamps(publishes: map<Id, Publish>, key: Key, queued: seq<Entry>) {
    forall e :: e in queued ==>
      && e.message.id in publishes && publishes[e.message.id].key == key
      && publishes[e.message.id].stamp == Some(e.clock)
  }

  lemma ListedUnderStamps(ring: seq<Node>, run: seq<Action>, s: System, n: U32, key: Key)
    requires ring != [] && PublishProtocol.After(ring, run) == Some(s) && n in s.nodes
    ensures UnderStamps(s.publishes, key, QueueOn(s, n, key).queued)
  {
    var ops := Local(ring, run, n, key);
    QueueRunsLocally(ring, run, s, n, key);
    LocalStamps(ring, run, s, n, key);
    EntriesFromStamps(ops);
    forall e | e in QueueOn(s, n, key).queued
      ensures e.message.id in s.publishes && s.publishes[e.message.id].key == key
      ensures s.publishes[e.message.id].stamp == Some(e.clock)
    {
      assert FromStamp(ops, e);
    }
  }

  /** The stamps that reached the queue of a key on a node since the node last restarted. */
  ghost function StampsAt(ring: seq<Node>, run: seq<Action>, n: U32, key: Key): set<VectorClock>
    requires ring != []
  {
    StampClocks(Local(ring, run, n, key))
  }

  /** In every run, overlapping publishes or not, peekAll() on a replica lists its messages sorted
      by stamp, and those whose stamps tie in the order in which the stamps arrived, whenever the
      comparison orders the stamps that reached this queue there. */
  lemma PeekAllInClockOrder(ring: seq<Node>, run: seq<Action>, s: System, n: U32, key: Key)
    requires ring != [] && PublishProtocol.After(ring, run) == Some(s) && n in s.nodes
    requires WeakOrder(StampsAt(ring, run, n, key))
    ensures InClockOrder(QueueOn(s, n, key).queued)
    ensures UnderStamps(s.publishes, key, QueueOn(s, n, key).queued)
    ensures forall e :: e in QueueOn(s, n, key).queued ==> e.clock in StampsAt(ring, run, n, key)
  {
    hide Less, WeakOrder, InClockOrder;
    QueueRunsLocally(ring, run, s, n, key);
    ListedUnderStamps(ring, run, s, n, key);
    RunInClockOrder(Local(ring, run, n, key), StampsAt(ring, run, n, key));
  }

  /** Two messages that two replicas both list stand in the same order on both, unless their
      stamps tie. */
  lemma ReplicasAgree(ring: seq<Node>, run: seq<Action>, s: System, n: U32, m: U32, key: Key,
                      x: nat, y: nat, u: nat, v: nat)
    requires ring != [] && PublishProtocol.After(ring, run) == Some(s) && n in s.nodes && m in s.nodes
    requires WeakOrder(StampsAt(ring, run, n, key)) && WeakOrder(StampsAt(ring, run, m, key))
    requires var here, there := QueueOn(s, n, key).queued, QueueOn(s, m, key).queued;
             && x < |here| && y < |here| && u < |there| && v < |there|
             && here[x].message.id == there[u].message.id && here[y].message.id == there[v].message.id
             && (Less(here[x].clock, here[y].clock) || Less(here[y].clock, here[x].clock))
    ensures x < y <==> u < v
  {
    hide Less, WeakOrder, PublishProtocol.After, QueueOn, InClockOrder, StampsAt;
    var here, there := QueueOn(s, n, key).queued, QueueOn(s, m, key).queued;
    PeekAllInClockOrder(ring, run, s, n, key);
    PeekAllInClockOrder(ring, run, s, m, key);
    assert here[x] in here && here[y] in here && there[u] in there && there[v] in there;
    NotTied(StampsAt(ring, run, n, key), here[x].clock, here[y].clock);
    SortedAlike(here, there, x, y, u, v);
    SortedAlike(there, here, u, v, x, y);
  }

  lemma NotTied(clocks: set<VectorClock>, a: VectorClock, b: VectorClock)
    requires WeakOrder(clocks) && (Less(a, b) || Less(b, a)) && a in clocks && b in clocks
    ensures a != b
  {
  }

  lemma SortedAlike(here: seq<Entry>, there: seq<Entry>, x: nat, y: nat, u: nat, v: nat)
    requires InClockOrder(here) && InClockOrder(there)
    requires x < |here| && y < |here| && u < |there| && v < |there|
    requires here[x].clock == there[u].clock && here[y].clock == there[v].clock
    requires Less(here[x].clock, here[y].clock) || Less(here[y].clock, here[x].clock)
    requires here[x].clock != here[y].clock
    ensures x < y ==> u < v
  {
    hide Less;
  }

  /** peekAll() on a replica lists exactly the messages whose stamp arrived while they waited
      there, since its last restart, and that have been neither claimed nor expired since. */
  lemma PeekAllListsDue(ring: seq<Node>, run: seq<Action>, s: System, n: U32, key: Key, id: Id)
    requires RingOk(ring) && PublishProtocol.After(ring, run) == Some(s) && n in s.nodes
    ensures id in Ids(QueueOn(s, n, key).queued) <==> Due(Local(ring, run, n, key), id)
  {
    QueueRunsLocally(ring, run, s, n, key);
    LocalSentOnce(ring, run, s, n, key);
    ListedIff(Local(ring, run, n, key), id);
  }

  /** Every publish that came to a replica since its last restart is there exactly once, waiting,
      listed or gone, and the replica's count and index are right. */
  lemma ReplicaConserves(ring: seq<Node>, run: seq<Action>, s: System, n: U32, key: Key)
    requires RingOk(ring) && PublishProtocol.After(ring, run) == Some(s) && n in s.nodes
    ensures QueueRuns.After(Local(ring, run, n, key)).Some?
    ensures var h := QueueRuns.After(Local(ring, run, n, key)).value;
            && h.q == QueueOn(s, n, key) && Sound(h) && CountsBytes(h.q)
            && forall id :: id in h.sent ==> Came(s.publishes, n, key, id)
  {
    hide Sound, Came, Counted;
    var ops := Local(ring, run, n, key);
    QueueRunsLocally(ring, run, s, n, key);
    LocalSentOnce(ring, run, s, n, key);
    RunIsSound(ops);
    MessagesConserved(ops);
  }

  // ---- One at a time ----

  /** The publish has its stamp, or its coordinator has given up. */
  predicate Settled(p: Publish) { p.stamp.Some? || p.logic.failCalls > 0 }

  /** A first delivery finds every earlier publish to the queue settled. */
  ghost predicate InTurn(s: System, a: Action) {
    a.Deliver? && CanDeliver(s, a.id, a.call) && a.id !in s.log ==>
      forall x :: x in s.log && x in s.publishes && s.publishes[x].key == s.publishes[a.id].key ==>
        Settled(s.publishes[x])
  }

  ghost predicate OneAtATime(ring: seq<Node>, run: seq<Action>)
    requires ring != []
  {
    run == [] ||
    (var front := run[..|run|-1];
     OneAtATime(ring, front)
     && (PublishProtocol.After(ring, front).Some? ==> InTurn(PublishProtocol.After(ring, front).value, run[|run|-1])))
  }

  // ---- The log ----

  /** The place of a publish in the log. */
  function Pos(log: seq<Id>, id: Id): (k: nat)
    ensures k <= |log| && (k < |log| ==> log[k] == id) && (id in log ==> k < |log|)
  {
    if log == [] || log[0] == id then 0 else 1 + Pos(log[1..], id)
  }

  ghost predicate Before(log: seq<Id>, a: Id, b: Id) {
    a in log && b in log && Pos(log, a) < Pos(log, b)
  }

  lemma BeforeIsTotal(log: seq<Id>, a: Id, b: Id)
    requires a in log && b in log && a != b
    ensures Before(log, a, b) || Before(log, b, a)
  {
  }

  // ---- Stamps follow the log ----

  /** Of two publishes to a queue the earlier one is in the history of the later, or was given up. */
  ghost predicate Sequenced(s: System) {
    forall i, j :: 0 <= i < j < |s.log| && s.log[i] in s.publishes && s.log[j] in s.publishes
      && s.publishes[s.log[i]].key == s.publishes[s.log[j]].key
      ==> s.log[i] in s.publishes[s.log[j]].prior || s.publishes[s.log[i]].logic.failCalls > 0
  }

  lemma SequencedAfter(s: System, s': System)
    requires LogOk(s) && KeepsHistory(s, s') && Sequenced(s)
    requires s'.log == s.log || (exists b :: b in s.publishes && s'.log == s.log + [b] && TurnOf(s, b))
    ensures Sequenced(s')
  {
    forall i, j | 0 <= i < j < |s'.log| && s'.log[i] in s'.publishes && s'.log[j] in s'.publishes
                  && s'.publishes[s'.log[i]].key == s'.publishes[s'.log[j]].key
      ensures s'.log[i] in s'.publishes[s'.log[j]].prior || s'.publishes[s'.log[i]].logic.failCalls > 0
    {
      var x, y := s'.log[i], s'.log[j];
      assert x == s.log[i] && x in s.log;
      if j < |s.log| {
        assert y == s.log[j] && y in s.log;
      } else {
        assert TurnOf(s, y);
      }
    }
  }

  /** It is the turn of b: it was not delivered, and what was before it is settled. */
  ghost predicate TurnOf(s: System, b: Id) {
    && b !in s.log && b in s.publishes
    && forall x :: x in s.log && x in s.publishes && s.publishes[x].key == s.publishes[b].key ==>
         Settled(s.publishes[x])
  }

  lemma LogAfterStep(ring: seq<Node>, s: System, a: Action, s': System)
    requires ring != [] && PublishProtocol.Step(ring, s, a) == Some(s') && InTurn(s, a)
    ensures s'.log == s.log || (exists b :: b in s.publishes && s'.log == s.log + [b] && TurnOf(s, b))
  {
    if a.Deliver? && a.id !in s.log {
      assert s'.log == s.log + [a.id] && TurnOf(s, a.id);
    }
  }

  lemma StepKeepsSequenced(ring: seq<Node>, s: System, a: Action, s': System)
    requires ring != [] && SystemOk(ring, s) && PublishProtocol.Step(ring, s, a) == Some(s')
    requires InTurn(s, a) && Sequenced(s)
    ensures Sequenced(s')
  {
    StepKeepsHistory(ring, s, a, s');
    LogAfterStep(ring, s, a, s');
    SequencedAfter(s, s');
  }

  /** Stamps to one queue are ordered like the log. */
  lemma LogDecides(ring: seq<Node>, s: System, a: Id, b: Id)
    requires RingOk(ring) && SystemOk(ring, s) && Sequenced(s) && Before(s.log, a, b)
    requires a in s.publishes && b in s.publishes && s.publishes[a].key == s.publishes[b].key
    requires s.publishes[a].stamp.Some? && s.publishes[b].stamp.Some?
    ensures Less(s.publishes[a].stamp.value, s.publishes[b].stamp.value)
    ensures !Less(s.publishes[b].stamp.value, s.publishes[a].stamp.value)
  {
    var i, j := Pos(s.log, a), Pos(s.log, b);
    assert s.log[i] == a && s.log[j] == b;
    assert PublishOk(ring, Ticks(s.nodes), s.publishes[a]);
    assert s.publishes[a].logic.failCalls == 0;
    PriorDecides(ring, s, a, b);
  }

  // ---- One at a time, the comparison orders the stamps ----

  ghost predicate Stamped(s: System, key: Key, id: Id) {
    id in s.publishes && s.publishes[id].key == key && s.publishes[id].stamp.Some?
  }

  lemma StampNotLess(ring: seq<Node>, s: System, id: Id)
    requires RingOk(ring) && SystemOk(ring, s) && id in s.publishes && s.publishes[id].stamp.Some?
    ensures !Less(s.publishes[id].stamp.value, s.publishes[id].stamp.value)
  {
    var p, ticks := s.publishes[id], Ticks(s.nodes);
    assert PublishOk(ring, ticks, p);
    StampFits(ring, ticks, p);
    FitsAligned(ring, p.key, ticks, p.stamp.value, ticks, p.stamp.value);
    LessIrreflexiveAndAsymmetric(p.stamp.value, p.stamp.value);
  }

  /** One stamp is less than another exactly when its publish came first. */
  lemma LessIffBefore(ring: seq<Node>, s: System, key: Key, a: Id, b: Id)
    requires RingOk(ring) && SystemOk(ring, s) && Sequenced(s) && Stamped(s, key, a) && Stamped(s, key, b)
    ensures a in s.log && b in s.log
    ensures Less(s.publishes[a].stamp.value, s.publishes[b].stamp.value) <==> Before(s.log, a, b)
  {
    SystemIsTidy(ring, s);
    StampedIsLogged(ring, s, a);
    StampedIsLogged(ring, s, b);
    hide SystemOk, Tidy, Less, Sequenced;
    if a == b {
      StampNotLess(ring, s, a);
    } else {
      BeforeIsTotal(s.log, a, b);
      if Before(s.log, a, b) {
        LogDecides(ring, s, a, b);
      } else {
        LogDecides(ring, s, b, a);
      }
    }
  }

  lemma LogOrdersStamps(ring: seq<Node>, s: System, key: Key)
    requires RingOk(ring) && SystemOk(ring, s) && Sequenced(s)
    ensures WeakOrder(StampsOf(s.publishes, key))
  {
    hide SystemOk, Sequenced, Less;
    var clocks := StampsOf(s.publishes, key);
    forall a, b | a in clocks && b in clocks && Less(a, b) ensures !Less(b, a) {
      var x, y := PublishOf(s, key, a), PublishOf(s, key, b);
      LessIffBefore(ring, s, key, x, y);
      LessIffBefore(ring, s, key, y, x);
    }
    forall a, b, c | a in clocks && b in clocks && c in clocks && Less(a, c) ensures Less(a, b) || Less(b, c) {
      var x, y, z := PublishOf(s, key, a), PublishOf(s, key, b), PublishOf(s, key, c);
      LessIffBefore(ring, s, key, x, z);
      LessIffBefore(ring, s, key, x, y);
      LessIffBefore(ring, s, key, y, z);
    }
  }

  /** So it is on those that reached one replica. */
  lemma FewerStamps(publishes: map<Id, Publish>, key: Key, ops: seq<Op>)
    requires WeakOrder(StampsOf(publishes, key)) && StampsOfPublishes(publishes, key, ops)
    ensures WeakOrder(StampClocks(ops))
  {
    hide Less;
    assert StampClocks(ops) <= StampsOf(publishes, key);
  }

  ghost function PublishOf(s: System, key: Key, clock: VectorClock): (id: Id)
    requires clock in StampsOf(s.publishes, key)
    ensures Stamped(s, key, id) && s.publishes[id].stamp.value == clock
  {
    var id :| Stamped(s, key, id) && s.publishes[id].stamp.value == clock;
    id
  }

  lemma {:induction false} RunSequenced(ring: seq<Node>, run: seq<Action>, s: System)
    requires RingOk(ring) && PublishProtocol.After(ring, run) == Some(s)
    requires AllForward(ring, run) && OneAtATime(ring, run)
    ensures Sequenced(s)
  {
    if run == [] {
    } else {
      LastAction(ring, run);
      var front := run[..|run|-1];
      var before := PublishProtocol.After(ring, front).value;
      RunKeeps(ring, front, before);
      RunSequenced(ring, front, before);
      StepKeepsSequenced(ring, before, run[|run|-1], s);
    }
  }

  /** The promise of the queue: in every run whose publishes to a queue come one at a time,
      with stamps delivered to a replica in any order and messages expiring or being claimed,
      peekAll() on any replica lists messages in the order they were published, each under
      the stamp its coordinator computed. */
  lemma PeekAllInPublishOrder(ring: seq<Node>, run: seq<Action>, s: System, n: U32, key: Key)
    requires RingOk(ring) && PublishProtocol.After(ring, run) == Some(s) && n in s.nodes
    requires AllForward(ring, run) && OneAtATime(ring, run)
    ensures UnderStamps(s.publishes, key, QueueOn(s, n, key).queued)
    ensures var queued := QueueOn(s, n, key).queued;
            forall x, y :: 0 <= x < y < |queued| ==> Before(s.log, queued[x].message.id, queued[y].message.id)
  {
    RunKeeps(ring, run, s);
    RunSequenced(ring, run, s);
    LogOrdersStamps(ring, s, key);
    LocalStamps(ring, run, s, n, key);
    FewerStamps(s.publishes, key, Local(ring, run, n, key));
    PeekAllInClockOrder(ring, run, s, n, key);
    ReplicaConserves(ring, run, s, n, key);
    var queued := QueueOn(s, n, key).queued;
    assert DistinctEntries(queued);
    hide Less, SystemOk, Sequenced, PublishProtocol.After, QueueOn, Sound;
    forall x, y | 0 <= x < y < |queued| ensures Before(s.log, queued[x].message.id, queued[y].message.id) {
      assert queued[x] in queued && queued[y] in queued;
      LessIffBefore(ring, s, key, queued[y].message.id, queued[x].message.id);
      BeforeIsTotal(s.log, queued[x].message.id, queued[y].message.id);
    }
  }

  /** So any two replicas list the messages they share in the same order. */
  lemma ReplicasAgreeOneAtATime(ring: seq<Node>, run: seq<Action>, s: System, n: U32, m: U32, key: Key,
                                x: nat, y: nat, u: nat, v: nat)
    requires RingOk(ring) && PublishProtocol.After(ring, run) == Some(s) && n in s.nodes && m in s.nodes
    requires AllForward(ring, run) && OneAtATime(ring, run)
    requires var here, there := QueueOn(s, n, key).queued, QueueOn(s, m, key).queued;
             && x < |here| && y < |here| && u < |there| && v < |there|
             && here[x].message.id == there[u].message.id && here[y].message.id == there[v].message.id
    ensures x < y <==> u < v
  {
    hide PublishProtocol.After, AllForward, OneAtATime, QueueOn, UnderStamps, RingOk, Pos;
    PeekAllInPublishOrder(ring, run, s, n, key);
    PeekAllInPublishOrder(ring, run, s, m, key);
  }
}
