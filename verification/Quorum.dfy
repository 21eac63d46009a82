/** quorum_logic<RF, Context>: contact a quorum of the replicas, retry on a backup
    when a call fails, give up through the fail function.
    A call is named by its position in the node array.  A call may answer while
    run() is still launching calls, or at any later time, or never. */
module QuorumProtocol {
  import opened Wrappers

  datatype Event =
    | RunCall            // the next iteration of the loop in run()
    | Succeeded(call: nat)
    | Failed(call: nat)

  /** The fields of quorum_logic, and the history its callers can observe:
      the calls made so far, those still outstanding, the launches run() still owes,
      how often the fail function and the success branch ran, and how many calls
      failed before run() made its last launch. */
  datatype Quorum = Quorum(
    lastNode: nat, successes: seq<nat>, failures: seq<nat>,
    calls: seq<nat>, pending: set<nat>, owed: nat,
    failCalls: nat, reports: nat, failedInRun: nat)

  function Size(rf: nat): nat { rf - rf / 2 }

  function Initial(rf: nat): Quorum {
    Quorum(0, [], [], [], {}, Size(rf), 0, 0, 0)
  }

  /** can_continue(): with this many failed nodes, and this the next one to call. */
  predicate CanContinue(rf: nat, failed: nat, next: nat) {
    rf - failed > rf / 2 && next + 1 < rf
  }

  predicate OperationSucceeded(rf: nat, q: Quorum) {
    |q.successes| > rf / 2
  }

  /** _function(_all_nodes[_lastNode++]). */
  function Call(q: Quorum): Quorum {
    q.(calls := q.calls + [q.lastNode], pending := q.pending + {q.lastNode}, lastNode := q.lastNode + 1)
  }

  function Step(rf: nat, q: Quorum, e: Event): Option<Quorum> {
    match e
    case RunCall =>
      if q.owed == 0 then None else Some(Call(q.(owed := q.owed - 1)))
    case Succeeded(i) =>
      if i !in q.pending then None
      else
        var q' := q.(pending := q.pending - {i}, successes := q.successes + [i]);
        Some(q'.(reports := q'.reports + if OperationSucceeded(rf, q') then 1 else 0))
    case Failed(i) =>
      if i !in q.pending then None
      else
        var q' := q.(pending := q.pending - {i}, failures := q.failures + [i],
                     failedInRun := q.failedInRun + if q.owed > 0 then 1 else 0);
        Some(if CanContinue(rf, |q'.failures|, q'.lastNode) then Call(q') else q'.(failCalls := q'.failCalls + 1))
  }

  /** The state after a sequence of events, if each was possible when it came. */
  function After(rf: nat, events: seq<Event>): Option<Quorum> {
    if events == [] then Some(Initial(rf))
    else
      match After(rf, events[..|events|-1])
      case None => None
      case Some(q) => Step(rf, q, events[|events|-1])
  }

  // ---- What every run keeps ----

  ghost predicate Accounted(rf: nat, q: Quorum) {
    && |q.successes| + |q.pending| + q.owed + q.failCalls == Size(rf)
    && |q.successes| + |q.pending| + |q.failures| == q.lastNode
    && q.failCalls <= |q.failures|
    && (rf > 0 ==> |q.failures| - q.failCalls < Size(rf))
    && q.lastNode + q.owed <= rf
  }

  ghost predicate NoRepeats(q: Quorum) {
    && q.calls == seq(q.lastNode, i => i)
    && (forall i :: i in q.pending ==> i < q.lastNode && i !in q.successes && i !in q.failures)
    && (forall i :: i in q.successes ==> i < q.lastNode && i !in q.failures)
    && (forall i :: i in q.failures ==> i < q.lastNode)
    && (forall a, b :: 0 <= a < b < |q.successes| ==> q.successes[a] != q.successes[b])
  }

  ghost predicate Reported(rf: nat, q: Quorum) {
    q.reports == if OperationSucceeded(rf, q) then 1 else 0
  }

  /** While run() still owes a launch every failed call has been replaced, up to RF/2 of them. */
  ghost predicate RetriesInRun(rf: nat, q: Quorum) {
    && (q.owed > 0 ==> q.failedInRun == |q.failures|
                       && q.failCalls == (if |q.failures| > rf / 2 then |q.failures| - rf / 2 else 0))
    && (q.owed == 0 ==> (q.lastNode == rf <==> q.failedInRun >= rf / 2))
  }

  ghost predicate Inv(rf: nat, q: Quorum) {
    && Accounted(rf, q)
    && NoRepeats(q)
    && Reported(rf, q)
    && (rf % 2 == 1 ==> RetriesInRun(rf, q))
    && (rf % 2 == 0 && rf > 0 ==> q.lastNode + q.owed < rf)
  }

  lemma StepKeepsInv(rf: nat, q: Quorum, e: Event)
    requires Inv(rf, q) && Step(rf, q, e).Some?
    ensures Inv(rf, Step(rf, q, e).value)
  {
    hide Inv;
    match e
    case RunCall =>
      LaunchKeepsInv(rf, q);
    case Succeeded(i) =>
      SuccessKeepsInv(rf, q, i);
    case Failed(i) =>
      FailureKeepsInv(rf, q, i);
  }

  lemma LaunchKeepsInv(rf: nat, q: Quorum)
    requires Inv(rf, q) && q.owed > 0
    ensures Inv(rf, Step(rf, q, RunCall).value)
  {
    assert q.lastNode !in q.pending;
  }

  lemma SuccessKeepsInv(rf: nat, q: Quorum, i: nat)
    requires Inv(rf, q) && i in q.pending
    ensures Inv(rf, Step(rf, q, Succeeded(i)).value)
  {
    assert |q.pending - {i}| == |q.pending| - 1;
  }

  lemma FailureKeepsInv(rf: nat, q: Quorum, i: nat)
    requires Inv(rf, q) && i in q.pending
    ensures Inv(rf, Step(rf, q, Failed(i)).value)
  {
    FailureKeepsCounts(rf, q, i);
    FailureKeepsNoRepeats(rf, q, i);
  }

  lemma FailureKeepsNoRepeats(rf: nat, q: Quorum, i: nat)
    requires NoRepeats(q) && i in q.pending
    ensures NoRepeats(Step(rf, q, Failed(i)).value)
  {
  }

  lemma FailureKeepsCounts(rf: nat, q: Quorum, i: nat)
    requires Inv(rf, q) && i in q.pending
    ensures var q' := Step(rf, q, Failed(i)).value;
            && Accounted(rf, q')
            && (rf % 2 == 1 ==> RetriesInRun(rf, q'))
            && (rf % 2 == 0 && rf > 0 ==> q'.lastNode + q'.owed < rf)
  {
    var rest := q.pending - {i};
    assert q.lastNode !in rest && |rest| == |q.pending| - 1;
    assert |rest + {q.lastNode}| == |q.pending|;
  }

  lemma {:induction false} RunKeepsInv(rf: nat, events: seq<Event>)
    requires After(rf, events).Some?
    ensures Inv(rf, After(rf, events).value)
  {
    if events == [] {
    } else {
      RunKeepsInv(rf, events[..|events|-1]);
      StepKeepsInv(rf, After(rf, events[..|events|-1]).value, events[|events|-1]);
    }
  }

  // ---- The promises ----

  ghost predicate Finished(q: Quorum) { q.owed == 0 && q.pending == {} }

  /** Every launch ends as a success, an outstanding call or a call of the fail function. */
  lemma LaunchesConserved(rf: nat, events: seq<Event>)
    requires After(rf, events).Some?
    ensures var q := After(rf, events).value;
            |q.successes| + |q.pending| + q.owed + q.failCalls == rf - rf / 2
  {
    RunKeepsInv(rf, events);
  }

  /** For odd RF the two outcomes exclude each other at all times, exactly one of them
      has happened when the run is finished, and success is reported at most once.
      For even RF a quorum is never reached. */
  lemma OutcomeOfRun(rf: nat, events: seq<Event>)
    requires After(rf, events).Some?
    ensures var q := After(rf, events).value;
            && q.reports == (if OperationSucceeded(rf, q) then 1 else 0)
            && (rf % 2 == 1 ==> !(OperationSucceeded(rf, q) && q.failCalls > 0))
            && (rf % 2 == 1 && Finished(q) ==> (OperationSucceeded(rf, q) <==> q.failCalls == 0))
            && (rf % 2 == 0 ==> !OperationSucceeded(rf, q))
  {
    RunKeepsInv(rf, events);
  }

  /** No position is contacted twice, and none at or past RF, although run() has no bound check. */
  lemma CallsDistinctAndInBounds(rf: nat, events: seq<Event>)
    requires After(rf, events).Some?
    ensures var q := After(rf, events).value;
            && (forall i :: 0 <= i < |q.calls| ==> q.calls[i] < rf)
            && (forall i, j :: 0 <= i < j < |q.calls| ==> q.calls[i] != q.calls[j])
            && (q.owed > 0 ==> q.lastNode < rf)
  {
    RunKeepsInv(rf, events);
  }

  /** The last replica is a backup only for calls that fail before run() makes its last
      launch: with odd RF it is contacted exactly when RF/2 calls have failed by then,
      and with even RF never. */
  lemma LastReplicaContacted(rf: nat, events: seq<Event>)
    requires rf > 0 && After(rf, events).Some?
    ensures var q := After(rf, events).value;
            rf - 1 in q.calls <==> rf % 2 == 1 && q.owed == 0 && q.failedInRun >= rf / 2
  {
    RunKeepsInv(rf, events);
    var q := After(rf, events).value;
    if q.lastNode == rf {
      assert q.calls[rf-1] == rf - 1;
    }
  }

  /** A failed call leads to exactly one of a call to the next node and a call of the fail
      function.  It is the former exactly when fewer than a quorum of nodes have failed, this one
      included, and the failures that were answered by a call so far, this one included, are
      fewer than the nodes beyond a quorum and the launches run() still owes: with three
      replicas, when it is the first failure and comes before run() has made its last launch. */
  lemma RetriedIff(rf: nat, events: seq<Event>, i: nat)
    requires After(rf, events).Some? && i in After(rf, events).value.pending
    ensures var q := After(rf, events).value;
            var q' := Step(rf, q, Failed(i)).value;
            var retried := |q.failures| + 1 < Size(rf) && |q.failures| - q.failCalls + 1 < rf / 2 + q.owed;
            && q'.calls == (if retried then q.calls + [q.lastNode] else q.calls)
            && q'.pending == q.pending - {i} + (if retried then {q.lastNode} else {})
            && q'.failCalls == q.failCalls + (if retried then 0 else 1)
            && (rf == 3 ==> (retried <==> q.failures == [] && q.owed > 0))
  {
    RunKeepsInv(rf, events);
  }

  lemma LastEvent(rf: nat, events: seq<Event>)
    requires events != [] && After(rf, events).Some?
    ensures After(rf, events[..|events|-1]).Some?
    ensures Step(rf, After(rf, events[..|events|-1]).value, events[|events|-1]) == After(rf, events)
  {
  }

  /** The call stands as it was answered: it counts as a success, or as a failure, exactly when
      such an answer came, and is outstanding exactly when it was made and none came. */
  ghost predicate Stands(q: Quorum, events: seq<Event>, i: nat) {
    && (i in q.successes <==> Succeeded(i) in events)
    && (i in q.failures <==> Failed(i) in events)
    && (i in q.pending <==> i in q.calls && Succeeded(i) !in events && Failed(i) !in events)
  }

  /** In every run each call stands as it was answered. */
  lemma {:induction false} StandsAsAnswered(rf: nat, events: seq<Event>, i: nat)
    requires After(rf, events).Some?
    ensures Stands(After(rf, events).value, events, i)
  {
    if events == [] {
    } else {
      hide Step, Inv, Stands;
      LastEvent(rf, events);
      var front, last := events[..|events|-1], events[|events|-1];
      RunKeepsInv(rf, front);
      StandsAsAnswered(rf, front, i);
      hide After;
      StandsOn(rf, front, After(rf, front).value, last, i);
      assert events == front + [last];
    }
  }

  lemma StandsOn(rf: nat, events: seq<Event>, q: Quorum, e: Event, i: nat)
    requires Inv(rf, q) && Step(rf, q, e).Some? && Stands(q, events, i)
    ensures Stands(Step(rf, q, e).value, events + [e], i)
  {
    hide Inv, Step;
    StandsStep(rf, q, e, i);
    var all := events + [e];
    assert Succeeded(i) in all <==> Succeeded(i) in events || e == Succeeded(i);
    assert Failed(i) in all <==> Failed(i) in events || e == Failed(i);
  }

  lemma StandsStep(rf: nat, q: Quorum, e: Event, i: nat)
    requires Inv(rf, q) && Step(rf, q, e).Some?
    ensures var q' := Step(rf, q, e).value;
            && (i in q'.successes <==> i in q.successes || e == Succeeded(i))
            && (i in q'.failures <==> i in q.failures || e == Failed(i))
            && (i in q'.pending && i in q.calls <==> i in q.pending && e != Succeeded(i) && e != Failed(i))
            && (i in q'.pending && i !in q.calls <==> i in q'.calls && i !in q.calls)
            && (i in q.calls ==> i in q'.calls)
            && (i !in q.calls ==> i !in q.successes && i !in q.failures && e != Succeeded(i) && e != Failed(i))
  {
    assert i in q.calls <==> i < q.lastNode by {
      if i < q.lastNode { assert q.calls[i] == i; }
    }
  }

  /** With three replicas and answers that come after run() returned, one failed call
      reaches the fail function although the third replica was never tried. */
  lemma BackupNotTried()
    ensures var q := After(3, [RunCall, RunCall, Failed(0)]);
            q.Some? && q.value.failCalls == 1 && q.value.calls == [0, 1]
  {
    var q1 := After(3, [RunCall]);
    var q2 := After(3, [RunCall, RunCall]);
    assert [RunCall, RunCall][..1] == [RunCall];
    assert [RunCall, RunCall, Failed(0)][..2] == [RunCall, RunCall];
    assert q1.Some? && q1.value.calls == [0];
    assert q2.Some? && q2.value.calls == [0, 1];
  }

  // ---- The class ----

  /** What a call does before it returns to quorum_logic. */
  datatype Answer = Succeeds | Fails | Later

  /** Some sequence of events leads to this state. */
  ghost predicate Reachable(rf: nat, q: Quorum) {
    exists events :: After(rf, events) == Some(q)
  }

  lemma StepStaysReachable(rf: nat, q: Quorum, e: Event)
    requires Reachable(rf, q) && Step(rf, q, e).Some?
    ensures Reachable(rf, Step(rf, q, e).value)
  {
    var events :| After(rf, events) == Some(q);
    assert (events + [e])[..|events|] == events;
    assert After(rf, events + [e]) == Step(rf, q, e);
  }

  /** The call to k has been dealt with as its immediate answer demands. */
  ghost predicate Handled(q: Quorum, k: nat, answer: Answer) {
    match answer
    case Later => k in q.pending && k !in q.successes && k !in q.failures
    case Succeeds => k in q.successes && k !in q.pending && k !in q.failures
    case Fails => k in q.failures && k !in q.pending && k !in q.successes
  }

  /** Every call from position lo on has been handled. */
  ghost predicate HandledFrom(q: Quorum, lo: nat, answers: nat -> Answer) {
    forall k :: lo <= k < q.lastNode ==> Handled(q, k, answers(k))
  }

  /** Calls below n other than i stand as they did. */
  ghost predicate Kept(q: Quorum, q': Quorum, n: nat, i: nat) {
    && n <= q'.lastNode
    && forall k :: 0 <= k < n && k != i ==>
         && (k in q'.pending <==> k in q.pending)
         && (k in q'.successes <==> k in q.successes)
         && (k in q'.failures <==> k in q.failures)
  }

  /** One event changes the standing of its own call, and at most adds the next call. */
  lemma StepKeepsOthers(rf: nat, q: Quorum, e: Event)
    requires Inv(rf, q) && Step(rf, q, e).Some?
    ensures var q' := Step(rf, q, e).value;
            match e
            case RunCall => Kept(q, q', q.lastNode, q.lastNode) && Handled(q', q.lastNode, Later)
            case Succeeded(i) => Kept(q, q', q.lastNode, i) && Handled(q', i, Succeeds) && q'.lastNode == q.lastNode
            case Failed(i) => Kept(q, q', q.lastNode, i) && Handled(q', i, Fails)
                              && (q'.lastNode != q.lastNode ==> q'.lastNode == q.lastNode + 1
                                                                && Handled(q', q.lastNode, Later))
  {
  }

  /** What a failure leads to. */
  lemma FailureLeads(rf: nat, q: Quorum, i: nat)
    requires Inv(rf, q) && i in q.pending
    ensures i < rf && Step(rf, q, Failed(i)).Some?
    ensures var q' := Step(rf, q, Failed(i)).value;
            && q'.failures == q.failures + [i] && q'.successes == q.successes && q'.owed == q.owed
            && Kept(q, q', q.lastNode, i) && Handled(q', i, Fails)
            && (if CanContinue(rf, |q.failures| + 1, q.lastNode)
                then q'.lastNode == q.lastNode + 1 && Handled(q', q.lastNode, Later) && q'.failCalls == q.failCalls
                else q'.lastNode == q.lastNode && q'.failCalls == q.failCalls + 1)
  {
    StepKeepsOthers(rf, q, Failed(i));
  }

  /** What the success of a call that is out leads to. */
  lemma SuccessLeads(rf: nat, q: Quorum, i: nat)
    requires Inv(rf, q) && Handled(q, i, Later)
    ensures i in q.pending && Step(rf, q, Succeeded(i)).Some?
    ensures var q' := Step(rf, q, Succeeded(i)).value;
            && q'.owed == q.owed && q'.failCalls == q.failCalls && q'.lastNode == q.lastNode
            && Kept(q, q', q.lastNode, i) && Handled(q', i, Succeeds)
  {
    StepKeepsOthers(rf, q, Succeeded(i));
  }

  class QuorumLogic<Node> {
    const allNodes: seq<Node>
    var lastNode: nat
    var successNodes: seq<Node>
    var failedNodes: seq<Node>
    ghost var state: Quorum

    ghost predicate AreNodes(nodes: seq<Node>, positions: seq<nat>) {
      && |nodes| == |positions|
      && (forall k :: 0 <= k < |nodes| ==>
            positions[k] < |allNodes| && nodes[k] == allNodes[positions[k]])
    }

    /** The state is that of some run, and the fields hold what it says. */
    ghost predicate Valid()
      reads this
    {
      && Reachable(|allNodes|, state)
      && Inv(|allNodes|, state)
      && lastNode == state.lastNode
      && AreNodes(successNodes, state.successes)
      && AreNodes(failedNodes, state.failures)
    }

    constructor (nodes: seq<Node>)
      ensures Valid() && allNodes == nodes && state == Initial(|nodes|)
    {
      allNodes := nodes;
      lastNode, successNodes, failedNodes := 0, [], [];
      state := Initial(|nodes|);
      assert After(|nodes|, []) == Some(Initial(|nodes|));
    }

    /** The state takes one step. */
    ghost method Happens(e: Event)
      requires Reachable(|allNodes|, state) && Inv(|allNodes|, state) && Step(|allNodes|, state, e).Some?
      modifies this`state
      ensures Reachable(|allNodes|, state) && Inv(|allNodes|, state)
      ensures Some(state) == Step(|allNodes|, old(state), e)
    {
      StepKeepsInv(|allNodes|, state, e);
      StepStaysReachable(|allNodes|, state, e);
      state := Step(|allNodes|, state, e).value;
    }

    method OperationHasSucceeded() returns (b: bool)
      requires Valid()
      ensures b <==> OperationSucceeded(|allNodes|, state)
    {
      b := |successNodes| > |allNodes| / 2;
    }

    method NodeSuccess(i: nat)
      requires Valid() && i in state.pending
      modifies this
      ensures Valid() && Some(state) == Step(|allNodes|, old(state), Event.Succeeded(i))
      ensures successNodes == old(successNodes) + [allNodes[i]]
    {
      Happens(Event.Succeeded(i));
      successNodes := successNodes + [allNodes[i]];
    }

    method CanStillContinue() returns (b: bool)
      ensures b <==> CanContinue(|allNodes|, |failedNodes|, lastNode)
    {
      if |allNodes| - |failedNodes| > |allNodes| / 2 {
        if lastNode + 1 < |allNodes| {
          return true;
        }
      }
      return false;
    }

    /** _failed_nodes.push_back(node). */
    method RecordFailure(i: nat)
      requires Valid() && i in state.pending
      modifies this`state, this`failedNodes
      ensures Reachable(|allNodes|, state) && Inv(|allNodes|, state)
      ensures AreNodes(successNodes, state.successes) && AreNodes(failedNodes, state.failures)
      ensures failedNodes == old(failedNodes) + [allNodes[i]] && state.owed == old(state.owed)
      ensures Kept(old(state), state, lastNode, i) && Handled(state, i, Fails)
      ensures if CanContinue(|allNodes|, |failedNodes|, lastNode)
              then state.lastNode == lastNode + 1 && Handled(state, lastNode, Later)
                   && state.failCalls == old(state.failCalls)
              else state.lastNode == lastNode && state.failCalls == old(state.failCalls) + 1
    {
      hide Inv, Reachable, Step, Kept, Handled, CanContinue;
      FailureLeads(|allNodes|, state, i);
      Happens(Event.Failed(i));
      failedNodes := failedNodes + [allNodes[i]];
    }

    /** Records the failure; then either calls the next node or runs the fail function.
        Every further call this leads to is handled as it answers. */
    method NodeFailed(i: nat, answers: nat -> Answer) returns (gaveUp: nat)
      requires Valid() && i in state.pending
      modifies this
      ensures Valid() && state.owed == old(state.owed)
      ensures gaveUp == state.failCalls - old(state.failCalls)
      ensures Kept(old(state), state, old(lastNode), i) && Handled(state, i, Fails)
      ensures HandledFrom(state, old(lastNode), answers)
      decreases |allNodes| - lastNode, 0
    {
      RecordFailure(i);
      var goOn := CanStillContinue();
      if goOn {
        var next := lastNode;
        lastNode := lastNode + 1;
        gaveUp := CallNode(next, allNodes[next], answers);
      } else {
        gaveUp := 1;
      }
    }

    /** _function(node): the call may answer before it returns, and so re-enter NodeFailed. */
    method CallNode(i: nat, node: Node, answers: nat -> Answer) returns (gaveUp: nat)
      requires Valid() && Handled(state, i, Later) && i + 1 == lastNode && node == allNodes[i]
      modifies this
      ensures Valid() && state.owed == old(state.owed)
      ensures gaveUp == state.failCalls - old(state.failCalls)
      ensures Kept(old(state), state, old(lastNode), i)
      ensures HandledFrom(state, i, answers)
      decreases |allNodes| - lastNode, 1
    {
      hide Inv, Reachable, Step, Handled;
      SuccessLeads(|allNodes|, state, i);
      match answers(i)
      case Succeeds =>
        NodeSuccess(i);
        gaveUp := 0;
      case Fails =>
        gaveUp := NodeFailed(i, answers);
      case Later =>
        gaveUp := 0;
    }

    /** One iteration of the loop in run(): the node array is indexed in bounds. */
    method Launch(answers: nat -> Answer) returns (gaveUp: nat)
      requires Valid() && state.owed > 0 && HandledFrom(state, 0, answers)
      modifies this
      ensures Valid() && state.owed == old(state.owed) - 1
      ensures gaveUp == state.failCalls - old(state.failCalls)
      ensures HandledFrom(state, 0, answers)
    {
      StepKeepsOthers(|allNodes|, state, RunCall);
      Happens(RunCall);
      var next := lastNode;
      lastNode := lastNode + 1;
      gaveUp := CallNode(next, allNodes[next], answers);
    }

    /** Launches a quorum of calls; each of them, and each retry, is handled as it answers. */
    method Run(answers: nat -> Answer) returns (gaveUp: nat)
      requires Valid() && state == Initial(|allNodes|)
      modifies this
      ensures Valid() && state.owed == 0 && HandledFrom(state, 0, answers)
      ensures gaveUp == state.failCalls
    {
      gaveUp := 0;
      var i := 0;
      while i < |allNodes| - |allNodes| / 2
        invariant 0 <= i <= Size(|allNodes|)
        invariant Valid() && state.owed == Size(|allNodes|) - i
        invariant HandledFrom(state, 0, answers)
        invariant gaveUp == state.failCalls
      {
        var more := Launch(answers);
        gaveUp := gaveUp + more;
        i := i + 1;
      }
    }
  }
}
