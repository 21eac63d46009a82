/** The order of one message queue in every run: it is sorted by clock exactly when the
    comparison is a weak order on the clocks that are stamped, and what it lists. */
module QueueOrder {
  import opened Wrappers
  import opened Clocks
  import opened MessageQueues
  import opened QueueRuns

  // ---- Sorted by clock ----

  /** No entry stands behind one with a greater clock, and entries whose clocks tie stand in
      the order in which they were stamped. */
  ghost predicate InClockOrder(s: seq<Entry>) {
    forall x, y :: 0 <= x < y < |s| ==>
      !Less(s[y].clock, s[x].clock) && (Less(s[x].clock, s[y].clock) || s[x].handle < s[y].handle)
  }

  /** Every stamp of the run carries one of these clocks. */
  ghost predicate StampsAmong(ops: seq<Op>, clocks: set<VectorClock>) {
    forall k :: 0 <= k < |ops| && ops[k].StampOp? ==> ops[k].clock in clocks
  }

  /** The clocks of the stamps of the run. */
  ghost function StampClocks(ops: seq<Op>): (clocks: set<VectorClock>)
    ensures StampsAmong(ops, clocks)
  {
    set k | 0 <= k < |ops| && ops[k].StampOp? :: ops[k].clock
  }

  /** Entries carry stamped clocks, and handles that have been given out. */
  ghost predicate EntriesAmong(q: Queue, clocks: set<VectorClock>) {
    forall e :: e in q.queued ==> e.clock in clocks && e.handle < q.nextHandle
  }

  /** Every slot the search can end in keeps the order. */
  lemma InsertInClockOrder(s: seq<Entry>, pos: nat, e: Entry, clocks: set<VectorClock>)
    requires InClockOrder(s) && Slot(s, e.clock, pos) && WeakOrder(clocks) && e.clock in clocks
    requires forall f :: f in s ==> f.clock in clocks && f.handle < e.handle
    ensures InClockOrder(InsertEntry(s, pos, e))
  {
    hide Less, WeakOrder;
    forall x | 0 <= x < |s|
      ensures x < pos ==> !Less(e.clock, s[x].clock) && s[x].handle < e.handle
      ensures pos <= x ==> Less(e.clock, s[x].clock) && !Less(s[x].clock, e.clock)
    {
      assert s[x] in s;
      if x < pos {
        assert s[pos-1] in s;
        NotPassedOver(clocks, e.clock, s[pos-1].clock, s[x].clock);
      } else {
        assert s[pos] in s;
        NotPassedOver(clocks, e.clock, s[x].clock, s[pos].clock);
      }
    }
    InsertBetween(s, pos, e);
  }

  lemma NotPassedOver(clocks: set<VectorClock>, a: VectorClock, b: VectorClock, c: VectorClock)
    requires WeakOrder(clocks) && a in clocks && b in clocks && c in clocks
    ensures Less(a, c) ==> Less(a, b) || Less(b, c)
    ensures Less(a, b) ==> !Less(b, a)
    ensures Less(a, c) ==> !Less(c, a)
  {
  }

  lemma InsertBetween(s: seq<Entry>, pos: nat, e: Entry)
    requires InClockOrder(s) && pos <= |s|
    requires forall x :: 0 <= x < pos ==> !Less(e.clock, s[x].clock) && s[x].handle < e.handle
    requires forall x :: pos <= x < |s| ==> Less(e.clock, s[x].clock) && !Less(s[x].clock, e.clock)
    ensures InClockOrder(InsertEntry(s, pos, e))
  {
    hide Less;
    var t := InsertEntry(s, pos, e);
    forall x, y | 0 <= x < y < |t|
      ensures !Less(t[y].clock, t[x].clock) && (Less(t[x].clock, t[y].clock) || t[x].handle < t[y].handle)
    {
      assert t[x] == if x < pos then s[x] else if x == pos then e else s[x-1];
      assert t[y] == if y < pos then s[y] else if y == pos then e else s[y-1];
    }
  }

  lemma RemoveInClockOrder(s: seq<Entry>, p: nat)
    requires InClockOrder(s) && p < |s|
    ensures InClockOrder(RemoveEntry(s, p))
    ensures forall e :: e in RemoveEntry(s, p) ==> e in s
  {
    hide Less;
    var t := RemoveEntry(s, p);
    assert forall i :: 0 <= i < |t| ==> t[i] == s[if i < p then i else i + 1];
  }

  lemma StampInClockOrder(q: Queue, id: Id, clock: VectorClock, now: Time, pos: nat, clocks: set<VectorClock>)
    requires InClockOrder(q.queued) && EntriesAmong(q, clocks) && WeakOrder(clocks)
    requires Slot(q.queued, clock, pos) && clock in clocks
    ensures var q' := Stamp(q, id, clock, now, pos).0; InClockOrder(q'.queued) && EntriesAmong(q', clocks)
  {
    if id in q.unstamped {
      var e := Entry(q.nextHandle, clock, q.unstamped[id].(localTime := now));
      InsertInClockOrder(q.queued, pos, e, clocks);
      InsertMembers(q.queued, pos, e);
    }
  }

  lemma ApplyInClockOrder(h: History, op: Op, h': History, clocks: set<VectorClock>)
    requires InClockOrder(h.q.queued) && EntriesAmong(h.q, clocks) && WeakOrder(clocks)
    requires Apply(h, op) == Some(h') && (op.StampOp? ==> op.clock in clocks)
    ensures InClockOrder(h'.q.queued) && EntriesAmong(h'.q, clocks)
  {
    hide WeakOrder, Less;
    match op
    case EnqueueOp(_, _, _, _) =>
    case StampOp(id, clock, now, pos) => StampInClockOrder(h.q, id, clock, now, pos, clocks);
    case ExpireOp(_, _) =>
    case ClaimOp(id) =>
      if id in h.q.index { RemoveInClockOrder(h.q.queued, Find(h.q.queued, h.q.index[id])); }
  }

  /** On clocks that the comparison orders, every run leaves the queue sorted. */
  lemma {:induction false} RunInClockOrder(ops: seq<Op>, clocks: set<VectorClock>)
    requires After(ops).Some? && StampsAmong(ops, clocks) && WeakOrder(clocks)
    ensures InClockOrder(After(ops).value.q.queued) && EntriesAmong(After(ops).value.q, clocks)
  {
    if ops == [] {
    } else {
      LastStep(ops);
      var front := ops[..|ops|-1];
      RunInClockOrder(front, clocks);
      ApplyInClockOrder(After(front).value, ops[|ops|-1], After(ops).value, clocks);
    }
  }

  /** In particular when the clocks are pairwise comparable. */
  lemma ChainInClockOrder(ops: seq<Op>, clocks: set<VectorClock>)
    requires After(ops).Some? && StampsAmong(ops, clocks) && Chain(clocks)
    ensures InClockOrder(After(ops).value.q.queued)
  {
    ChainIsWeakOrder(clocks);
    RunInClockOrder(ops, clocks);
  }

  // ---- Where entries come from ----

  /** The operation stamps a message that waits for it. */
  ghost predicate Stamps(q: Queue, op: Op, id: Id) {
    op.StampOp? && op.id == id && id in q.unstamped
  }

  /** The queue that operation k of the run finds. */
  ghost function Found(ops: seq<Op>, k: nat): Queue
    requires k <= |ops|
  {
    if After(ops[..k]).Some? then After(ops[..k]).value.q else EMPTY_QUEUE
  }

  ghost predicate StampedAt(ops: seq<Op>, k: nat, id: Id) {
    k < |ops| && Stamps(Found(ops, k), ops[k], id)
  }

  lemma FoundStays(ops: seq<Op>, op: Op, k: nat)
    requires k <= |ops|
    ensures Found(ops + [op], k) == Found(ops, k)
  {
    assert (ops + [op])[..k] == ops[..k];
  }

  lemma FoundAtEnd(ops: seq<Op>, h: History)
    requires After(ops) == Some(h)
    ensures Found(ops, |ops|) == h.q
  {
    assert ops[..|ops|] == ops;
  }

  /** Operation k of the run put the entry there: it carries the clock and the time of that stamp
      and is otherwise the message that waited for it. */
  ghost predicate PutAt(ops: seq<Op>, k: nat, e: Entry) {
    && StampedAt(ops, k, e.message.id)
    && e == Entry(Found(ops, k).nextHandle, ops[k].clock,
                  Found(ops, k).unstamped[e.message.id].(localTime := ops[k].now))
  }

  ghost predicate FromStamp(ops: seq<Op>, e: Entry) { exists k: nat :: PutAt(ops, k, e) }

  ghost predicate AllFromStamps(ops: seq<Op>, q: Queue) {
    && (forall id :: id in q.unstamped ==> q.unstamped[id].id == id)
    && (forall e :: e in q.queued ==> FromStamp(ops, e))
  }

  lemma FromStampStays(ops: seq<Op>, op: Op, e: Entry)
    requires FromStamp(ops, e)
    ensures FromStamp(ops + [op], e)
  {
    var k: nat :| PutAt(ops, k, e);
    FoundStays(ops, op, k);
    assert (ops + [op])[k] == ops[k];
    hide Found;
    assert PutAt(ops + [op], k, e);
  }

  lemma NewFromStamp(ops: seq<Op>, h: History, op: Op, e: Entry)
    requires After(ops) == Some(h) && op.StampOp? && op.id in h.q.unstamped && h.q.unstamped[op.id].id == op.id
    requires e == Entry(h.q.nextHandle, op.clock, h.q.unstamped[op.id].(localTime := op.now))
    ensures FromStamp(ops + [op], e)
  {
    assert (ops + [op])[..|ops|] == ops && (ops + [op])[|ops|] == op;
    assert PutAt(ops + [op], |ops|, e);
  }

  lemma ApplyFromStamps(ops: seq<Op>, h: History, op: Op, h': History)
    requires After(ops) == Some(h) && AllFromStamps(ops, h.q) && Apply(h, op) == Some(h')
    ensures AllFromStamps(ops + [op], h'.q)
  {
    hide Less, FromStamp, After;
    forall e | e in h.q.queued ensures FromStamp(ops + [op], e) { FromStampStays(ops, op, e); }
    match op
    case EnqueueOp(_, _, _, _) =>
    case StampOp(id, clock, now, pos) =>
      if id in h.q.unstamped {
        var e := Entry(h.q.nextHandle, clock, h.q.unstamped[id].(localTime := now));
        NewFromStamp(ops, h, op, e);
        InsertMembers(h.q.queued, pos, e);
      }
    case ExpireOp(_, _) =>
    case ClaimOp(id) =>
      if id in h.q.index {
        assert forall e :: e in h'.q.queued ==> e in h.q.queued;
      }
  }

  /** Every listed message carries the clock and the time of the stamp that moved it there. */
  lemma {:induction false} EntriesFromStamps(ops: seq<Op>)
    requires After(ops).Some?
    ensures AllFromStamps(ops, After(ops).value.q)
  {
    if ops == [] {
    } else {
      LastStep(ops);
      var front, last := ops[..|ops|-1], ops[|ops|-1];
      EntriesFromStamps(front);
      ApplyFromStamps(front, After(front).value, last, After(ops).value);
      assert ops == front + [last];
    }
  }

  // ---- Out of order ----

  /** Enqueue three messages, stamp them, each at the end, and claim the middle one. */
  function ThreeAndClaim(a: VectorClock, b: VectorClock, c: VectorClock): seq<Op> {
    [EnqueueOp(1, "", 0, 0), EnqueueOp(2, "", 0, 0), EnqueueOp(3, "", 0, 0),
     StampOp(1, a, 0, 0), StampOp(2, b, 0, 1), StampOp(3, c, 0, 2), ClaimOp(2)]
  }

  /** Where a clock passes over a third one, a claim can leave two neighbours inverted. */
  lemma PassedOverInverts(a: VectorClock, b: VectorClock, c: VectorClock)
    requires Less(c, a) && !Less(c, b) && !Less(b, a)
    ensures var ops := ThreeAndClaim(a, b, c);
            && After(ops).Some?
            && var queued := After(ops).value.q.queued;
            |queued| == 2 && queued[0].clock == a && queued[1].clock == c
  {
    hide Less, After, Apply;
    var ops := ThreeAndClaim(a, b, c);
    var h3 := AfterEnqueues();
    assert ops[..3] == [EnqueueOp(1, "", 0, 0), EnqueueOp(2, "", 0, 0), EnqueueOp(3, "", 0, 0)];
    hide Lines, Lists;
    var h6 := GrowThree(ops, h3, a, b, c);
    ClaimLines(h6.q, 1, 2, 3, [a, b, c]);
    var h7 := GrowClaim(ops, 6, h6);
    ListsTwo(h7.q, 1, 3, a, c);
    assert ops[..7] == ops;
  }

  lemma AfterEnqueues() returns (h: History)
    ensures After([EnqueueOp(1, "", 0, 0), EnqueueOp(2, "", 0, 0), EnqueueOp(3, "", 0, 0)]) == Some(h)
    ensures Lines(h.q, [], [], {1, 2, 3})
  {
    var ops := [EnqueueOp(1, "", 0, 0), EnqueueOp(2, "", 0, 0), EnqueueOp(3, "", 0, 0)];
    hide After;
    var h0 := NothingYet(ops);
    var h1 := Grow(ops, 0, h0);
    var h2 := Grow(ops, 1, h1);
    h := Grow(ops, 2, h2);
    assert ops[..3] == ops;
  }

  /** The queue lists these messages under these clocks. */
  ghost predicate Lists(q: Queue, ids: seq<Id>, clocks: seq<VectorClock>) {
    && |q.queued| == |ids| == |clocks|
    && forall i :: 0 <= i < |ids| ==> q.queued[i].message.id == ids[i] && q.queued[i].clock == clocks[i]
  }

  /** It has listed them in this order, and others still wait. */
  ghost predicate Lines(q: Queue, ids: seq<Id>, clocks: seq<VectorClock>, rest: set<Id>) {
    && Lists(q, ids, clocks) && q.nextHandle == |ids|
    && (forall i :: 0 <= i < |ids| ==> q.queued[i].handle == i && ids[i] in q.index && q.index[ids[i]] == i)
    && (forall id :: id in q.index ==> id in ids)
    && q.unstamped.Keys == rest && (forall id :: id in rest ==> id !in ids && q.unstamped[id].id == id)
  }

  lemma StampLines(q: Queue, id: Id, clock: VectorClock, now: Time,
                   ids: seq<Id>, clocks: seq<VectorClock>, rest: set<Id>)
    requires Lines(q, ids, clocks, rest) && id in rest
    ensures Lines(Stamp(q, id, clock, now, |ids|).0, ids + [id], clocks + [clock], rest - {id})
  {
  }

  /** The middle one of three is claimed. */
  lemma ClaimLines(q: Queue, a: Id, b: Id, c: Id, clocks: seq<VectorClock>)
    requires Lines(q, [a, b, c], clocks, {})
    ensures Claimable(q, b) && Lists(Claim(q, b), [a, c], [clocks[0], clocks[2]])
  {
    assert q.queued[0].handle == 0 && q.queued[1].handle == 1 && [a, b, c][1] == b && q.index[b] == 1;
    assert Find(q.queued, 1) == 1;
  }

  lemma GrowThree(ops: seq<Op>, h: History, a: VectorClock, b: VectorClock, c: VectorClock) returns (h': History)
    requires |ops| > 6 && After(ops[..3]) == Some(h) && Lines(h.q, [], [], {1, 2, 3})
    requires ops[3] == StampOp(1, a, 0, 0) && ops[4] == StampOp(2, b, 0, 1) && ops[5] == StampOp(3, c, 0, 2)
    requires !Less(b, a) && !Less(c, b)
    ensures After(ops[..6]) == Some(h') && Lines(h'.q, [1, 2, 3], [a, b, c], {})
  {
    hide Less, After, Lines;
    var h4 := GrowStamp(ops, 3, h, [], [], {1, 2, 3});
    assert [] + [1] == [1] && [] + [a] == [a] && {1, 2, 3} - {1} == {2, 3};
    var h5 := GrowStamp(ops, 4, h4, [1], [a], {2, 3});
    assert [1] + [2] == [1, 2] && [a] + [b] == [a, b] && {2, 3} - {2} == {3};
    h' := GrowStamp(ops, 5, h5, [1, 2], [a, b], {3});
    assert [1, 2] + [3] == [1, 2, 3] && [a, b] + [c] == [a, b, c] && {3} - {3} == {};
  }

  lemma GrowClaim(ops: seq<Op>, k: nat, h: History) returns (h': History)
    requires k < |ops| && After(ops[..k]) == Some(h) && ops[k].ClaimOp? && Claimable(h.q, ops[k].id)
    ensures After(ops[..k+1]) == Some(h') && h'.q == Claim(h.q, ops[k].id)
  {
    hide After;
    h' := Grow(ops, k, h);
  }

  lemma ListsTwo(q: Queue, a: Id, b: Id, ca: VectorClock, cb: VectorClock)
    requires Lists(q, [a, b], [ca, cb])
    ensures |q.queued| == 2 && q.queued[0].clock == ca && q.queued[1].clock == cb
  {
  }

  /** The next message is stamped at the end. */
  lemma GrowStamp(ops: seq<Op>, k: nat, h: History, ids: seq<Id>, clocks: seq<VectorClock>, rest: set<Id>)
    returns (h': History)
    requires k < |ops| && After(ops[..k]) == Some(h) && Lines(h.q, ids, clocks, rest)
    requires ops[k].StampOp? && ops[k].id in rest && ops[k].pos == |ids|
    requires clocks == [] || !Less(ops[k].clock, clocks[|clocks|-1])
    ensures After(ops[..k+1]) == Some(h')
    ensures Lines(h'.q, ids + [ops[k].id], clocks + [ops[k].clock], rest - {ops[k].id})
  {
    hide Less, After;
    h' := Grow(ops, k, h);
    StampLines(h.q, ops[k].id, ops[k].clock, ops[k].now, ids, clocks, rest);
  }

  /** Two clocks that are less than each other, in either order. */
  lemma MutualInverts(a: VectorClock, b: VectorClock) returns (ops: seq<Op>)
    requires Less(a, b) && Less(b, a)
    ensures After(ops).Some? && StampsAmong(ops, {a, b}) && !InClockOrder(After(ops).value.q.queued)
  {
    hide Less, After;
    ops := [EnqueueOp(1, "", 0, 0), EnqueueOp(2, "", 0, 0), EnqueueOp(3, "", 0, 0),
            StampOp(1, a, 0, 0), StampOp(2, b, 0, 0)];
    var h3 := AfterEnqueues();
    assert ops[..3] == [EnqueueOp(1, "", 0, 0), EnqueueOp(2, "", 0, 0), EnqueueOp(3, "", 0, 0)];
    var h4 := GrowStamp(ops, 3, h3, [], [], {1, 2, 3});
    var h5 := Grow(ops, 4, h4);
    assert h5.q.queued[0].clock == b && h5.q.queued[1].clock == a;
    assert ops[..5] == ops;
  }

  /** The promise of the ordered container: with stamps from a set of clocks, every run of the
      queue stays sorted if and only if the comparison is a weak order on the set. */
  lemma SortedInEveryRunIff(clocks: set<VectorClock>)
    ensures (forall ops :: After(ops).Some? && StampsAmong(ops, clocks) ==> InClockOrder(After(ops).value.q.queued))
            <==> WeakOrder(clocks)
  {
    if WeakOrder(clocks) {
      forall ops | After(ops).Some? && StampsAmong(ops, clocks)
        ensures InClockOrder(After(ops).value.q.queued)
      {
        RunInClockOrder(ops, clocks);
      }
    } else {
      var ops := UnsortedRun(clocks);
    }
  }

  lemma UnsortedRun(clocks: set<VectorClock>) returns (ops: seq<Op>)
    requires !WeakOrder(clocks)
    ensures After(ops).Some? && StampsAmong(ops, clocks) && !InClockOrder(After(ops).value.q.queued)
  {
    hide Less;
    if a, b :| a in clocks && b in clocks && Less(a, b) && Less(b, a) {
      ops := MutualInverts(a, b);
    } else {
      var c, b, a :| c in clocks && b in clocks && a in clocks && Less(c, a) && !Less(c, b) && !Less(b, a);
      PassedOverInverts(a, b, c);
      ops := ThreeAndClaim(a, b, c);
    }
  }

  /** The cycle of the majority comparison does it: the first clock is left in front of the
      third, which is less. */
  lemma CycleInverts(x: U32, y: U32, z: U32) returns (ops: seq<Op>)
    requires x != y && y != z && x != z
    ensures After(ops).Some?
    ensures var queued := After(ops).value.q.queued;
            |queued| == 2 && Less(queued[1].clock, queued[0].clock) && !Less(queued[0].clock, queued[1].clock)
  {
    var a := [NodeClock(x, 1, 1), NodeClock(y, 1, 2), NodeClock(z, 1, 3)];
    var b := [NodeClock(x, 1, 2), NodeClock(y, 1, 3), NodeClock(z, 1, 1)];
    var c := [NodeClock(x, 1, 3), NodeClock(y, 1, 1), NodeClock(z, 1, 2)];
    MajorityCycle(x, y, z);
    hide Less;
    LessIrreflexiveAndAsymmetric(a, b);
    LessIrreflexiveAndAsymmetric(b, c);
    LessIrreflexiveAndAsymmetric(c, a);
    PassedOverInverts(a, b, c);
    ops := ThreeAndClaim(a, b, c);
  }

  // ---- What is listed ----

  /** The operation takes the message from the ordered queue: it is claimed, or it has expired
      together with everything in front of it. */
  ghost predicate Takes(q: Queue, op: Op, id: Id) {
    match op
    case ClaimOp(claimed) => claimed == id
    case ExpireOp(at, _) => exists i :: 0 <= i < ExpiredFront(q.queued, q.ttl, at) && q.queued[i].message.id == id
    case _ => false
  }

  ghost predicate TakenAt(ops: seq<Op>, k: nat, id: Id) {
    k < |ops| && Takes(Found(ops, k), ops[k], id)
  }

  /** It was stamped while it waited, and has not been claimed and has not expired since. */
  ghost predicate Due(ops: seq<Op>, id: Id) {
    exists k: nat :: StampedAt(ops, k, id) && forall j: nat :: k < j < |ops| ==> !TakenAt(ops, j, id)
  }

  lemma ListedByStamp(h: History, op: Op, h': History, id: Id)
    requires op.StampOp? && Apply(h, op) == Some(h') && Partitioned(h)
    ensures id in Ids(h'.q.queued) <==> Stamps(h.q, op, id) || id in Ids(h.q.queued)
  {
    if op.id in h.q.unstamped {
      IdsOfInsert(h.q.queued, op.pos,
                  Entry(h.q.nextHandle, op.clock, h.q.unstamped[op.id].(localTime := op.now)));
    }
  }

  lemma ListedByExpire(h: History, op: Op, h': History, id: Id)
    requires op.ExpireOp? && Apply(h, op) == Some(h') && Partitioned(h)
    ensures id in Ids(h'.q.queued) <==> id in Ids(h.q.queued) && !Takes(h.q, op, id)
  {
    hide Expired, ExpiredFrom;
    var s, k := h.q.queued, ExpiredFront(h.q.queued, h.q.ttl, op.at);
    SplitIds(s, k);
    InFront(s, k, id);
  }

  lemma InFront(s: seq<Entry>, k: nat, id: Id)
    requires k <= |s|
    ensures id in Ids(s[..k]) <==> exists i :: 0 <= i < k && s[i].message.id == id
  {
    if id in Ids(s[..k]) {
      var e :| e in s[..k] && e.message.id == id;
      var i :| 0 <= i < k && s[..k][i] == e;
      assert s[i].message.id == id;
    }
    if i :| 0 <= i < k && s[i].message.id == id {
      assert s[..k][i] == s[i];
    }
  }

  lemma ListedByClaim(h: History, op: Op, h': History, id: Id)
    requires op.ClaimOp? && Apply(h, op) == Some(h') && Sound(h)
    ensures id in Ids(h'.q.queued) <==> id in Ids(h.q.queued) && op.id != id
  {
    if op.id in h.q.index {
      var p := Find(h.q.queued, h.q.index[op.id]);
      var e := h.q.queued[p];
      assert e in h.q.queued && h.q.index[e.message.id] == h.q.index[op.id];
      assert e.message.id == op.id;
      RemoveIds(h.q.queued, p);
    }
  }

  lemma ListedStep(h: History, op: Op, h': History, id: Id)
    requires Apply(h, op) == Some(h') && Sound(h)
    ensures id in Ids(h'.q.queued) <==> Stamps(h.q, op, id) || (id in Ids(h.q.queued) && !Takes(h.q, op, id))
  {
    match op
    case EnqueueOp(_, _, _, _) =>
    case StampOp(_, _, _, _) => ListedByStamp(h, op, h', id);
    case ExpireOp(_, _) => ListedByExpire(h, op, h', id);
    case ClaimOp(_) => ListedByClaim(h, op, h', id);
  }

  lemma DueStep(ops: seq<Op>, id: Id)
    requires ops != []
    ensures var front, last := ops[..|ops|-1], |ops| - 1;
            Due(ops, id) <==> StampedAt(ops, last, id) || (Due(front, id) && !TakenAt(ops, last, id))
  {
    hide Stamps, Takes, After;
    var front, last := ops[..|ops|-1], |ops| - 1;
    forall k: nat | k < last
      ensures StampedAt(front, k, id) <==> StampedAt(ops, k, id)
      ensures TakenAt(front, k, id) <==> TakenAt(ops, k, id)
    {
      assert front[..k] == ops[..k];
    }
    if Due(ops, id) && !StampedAt(ops, last, id) {
      var k: nat :| StampedAt(ops, k, id) && forall j: nat :: k < j < |ops| ==> !TakenAt(ops, j, id);
      assert StampedAt(front, k, id);
    }
    if Due(front, id) && !TakenAt(ops, last, id) {
      var k: nat :| StampedAt(front, k, id) && forall j: nat :: k < j < |front| ==> !TakenAt(front, j, id);
      assert StampedAt(ops, k, id);
    }
  }

  /** peekAll() lists exactly the messages that were stamped while they waited and have been
      neither claimed nor expired since. */
  lemma {:induction false} ListedIff(ops: seq<Op>, id: Id)
    requires After(ops).Some? && NoReuse(ops)
    ensures id in Ids(After(ops).value.q.queued) <==> Due(ops, id)
  {
    if ops == [] {
    } else {
      var front, last := ops[..|ops|-1], |ops| - 1;
      LastStep(ops);
      ListedIff(front, id);
      RunIsSound(front);
      ListedStep(After(front).value, ops[last], After(ops).value, id);
      DueStep(ops, id);
    }
  }
}
