/** Every run of one message queue: what enqueue, stamp, expire and claim keep. */
module QueueRuns {
  import opened Wrappers
  import opened Clocks
  import opened MessageQueues

  datatype Op =
    | EnqueueOp(id: Id, data: string, ttlSecs: U32, now: Time)
    | StampOp(id: Id, clock: VectorClock, now: Time, pos: nat)
    | ExpireOp(at: nat -> Time, each: Id -> Time)
    | ClaimOp(id: Id)

  /** The queue, every message ever enqueued, those that have left, those that expired
      after they were stamped, and the bytes counted for messages that were never stored. */
  datatype History = History(q: Queue, sent: map<Id, string>, gone: set<Id>, dangling: set<Id>, leaked: nat)

  const START := History(EMPTY_QUEUE, map[], {}, {}, 0)

  ghost function Ids(s: seq<Entry>): set<Id> {
    set e | e in s :: e.message.id
  }

  ghost function ApplyEnqueue(h: History, id: Id, data: string, ttlSecs: U32, now: Time): History {
    h.(q := Enqueue(h.q, id, data, ttlSecs, now),
       sent := h.sent[id := data],
       leaked := h.leaked + if id in h.q.unstamped then CalcSize(|data|) else 0)
  }

  ghost function ApplyExpire(h: History, at: nat -> Time, each: Id -> Time): History {
    var front := h.q.queued[..ExpiredFront(h.q.queued, h.q.ttl, at)];
    h.(q := Expire(h.q, at, each),
       gone := h.gone + Ids(front) + Stale(h.q.unstamped, h.q.ttl, each).Keys,
       dangling := h.dangling + Ids(front))
  }

  ghost function ApplyClaim(h: History, id: Id): History
    requires Claimable(h.q, id)
  {
    if id !in h.q.index then h
    else
      var p := Find(h.q.queued, h.q.index[id]);
      h.(q := Claim(h.q, id), gone := h.gone + {h.q.queued[p].message.id})
  }

  ghost function Apply(h: History, op: Op): Option<History> {
    match op
    case EnqueueOp(id, data, ttlSecs, now) => Some(ApplyEnqueue(h, id, data, ttlSecs, now))
    case StampOp(id, clock, now, pos) =>
      if Slot(h.q.queued, clock, pos) then Some(h.(q := Stamp(h.q, id, clock, now, pos).0)) else None
    case ExpireOp(at, each) => Some(ApplyExpire(h, at, each))
    case ClaimOp(id) => if Claimable(h.q, id) then Some(ApplyClaim(h, id)) else None
  }

  ghost function After(ops: seq<Op>): Option<History> {
    if ops == [] then Some(START)
    else
      match After(ops[..|ops|-1])
      case None => None
      case Some(h) => Apply(h, ops[|ops|-1])
  }

  // ---- The byte count over every run ----

  ghost predicate Counted(h: History) {
    h.q.size == (Held(h.q) + h.leaked) % 0x1_0000_0000
  }

  lemma ExpireKeepsCount(h: History, at: nat -> Time, each: Id -> Time)
    requires Counted(h)
    ensures Counted(ApplyExpire(h, at, each))
  {
    hide Held, Ids;
    HeldAfterExpire(h.q, at, each);
    ModDrops(h.q.size, Held(h.q) + h.leaked,
             SumEntries(h.q.queued[..ExpiredFront(h.q.queued, h.q.ttl, at)])
             + SumMap(Stale(h.q.unstamped, h.q.ttl, each)));
  }

  lemma ApplyKeepsCount(h: History, op: Op, h': History)
    requires Counted(h) && Apply(h, op) == Some(h')
    ensures Counted(h')
  {
    hide ApplyEnqueue, ApplyExpire, ApplyClaim;
    match op
    case EnqueueOp(id, data, ttlSecs, now) =>
      EnqueueKeepsCount(h, id, data, ttlSecs, now);
    case StampOp(id, clock, now, pos) =>
      hide Held, Less;
      HeldAfterStamp(h.q, id, clock, now, pos);
    case ExpireOp(at, each) =>
      ExpireKeepsCount(h, at, each);
    case ClaimOp(id) =>
      ClaimKeepsCount(h, id);
  }

  lemma EnqueueKeepsCount(h: History, id: Id, data: string, ttlSecs: U32, now: Time)
    requires Counted(h)
    ensures Counted(ApplyEnqueue(h, id, data, ttlSecs, now))
  {
    hide Held, CalcSize, Plus32;
    HeldAfterEnqueue(h.q, id, data, ttlSecs, now);
    ModAdds(h.q.size, Held(h.q) + h.leaked, CalcSize(|data|));
  }

  lemma ClaimKeepsCount(h: History, id: Id)
    requires Counted(h) && Claimable(h.q, id)
    ensures Counted(ApplyClaim(h, id))
  {
    hide Held, SizeOf, Minus32, RemoveEntry;
    if id in h.q.index {
      HeldAfterClaim(h.q, id);
      ModDrops(h.q.size, Held(h.q) + h.leaked, SizeOf(h.q.queued[Find(h.q.queued, h.q.index[id])].message));
    }
  }

  lemma LastStep(ops: seq<Op>)
    requires ops != [] && After(ops).Some?
    ensures After(ops[..|ops|-1]).Some?
    ensures Apply(After(ops[..|ops|-1]).value, ops[|ops|-1]) == After(ops)
  {
  }

  /** In every run, reused ids or not, memory_size() is what is held plus what duplicate
      enqueues have leaked, in 32 bits. */
  lemma {:induction false} BytesConserved(ops: seq<Op>, h: History)
    requires After(ops) == Some(h)
    ensures Counted(h)
  {
    if ops == [] {
      assert SumMap(h.q.unstamped) == 0 && SumEntries(h.q.queued) == 0;
    } else {
      LastStep(ops);
      var before := After(ops[..|ops|-1]).value;
      BytesConserved(ops[..|ops|-1], before);
      ApplyKeepsCount(before, ops[|ops|-1], h);
    }
  }

  // ---- Messages and the index, when ids are not reused ----

  /** Every enqueue brings an id that was never enqueued before. */
  ghost predicate NoReuse(ops: seq<Op>) {
    ops == [] ||
    (var front, last := ops[..|ops|-1], ops[|ops|-1];
     NoReuse(front) && (last.EnqueueOp? && After(front).Some? ==> last.id !in After(front).value.sent))
  }

  ghost predicate DistinctEntries(s: seq<Entry>) {
    forall i, j :: 0 <= i < j < |s| ==>
      s[i].message.id != s[j].message.id && s[i].handle != s[j].handle
  }

  /** Every message sent is in exactly one of unstamped, queued and gone, with its own content. */
  ghost predicate Partitioned(h: History) {
    && h.sent.Keys == h.q.unstamped.Keys + Ids(h.q.queued) + h.gone
    && h.q.unstamped.Keys !! Ids(h.q.queued) !! h.gone
    && DistinctEntries(h.q.queued)
    && (forall id :: id in h.q.unstamped ==> h.q.unstamped[id].id == id && h.q.unstamped[id].data == h.sent[id])
    && (forall e :: e in h.q.queued ==> e.message.id in h.sent && e.message.data == h.sent[e.message.id])
  }

  /** The index leads every queued message to its own entry; besides these it holds
      exactly the ids whose message expired after it was stamped. */
  ghost predicate Indexed(h: History) {
    && h.q.index.Keys == Ids(h.q.queued) + h.dangling
    && h.dangling <= h.gone
    && (forall e :: e in h.q.queued ==> e.message.id in h.q.index && h.q.index[e.message.id] == e.handle)
    && (forall e :: e in h.q.queued ==> e.handle < h.q.nextHandle)
    && (forall id :: id in h.q.index ==> h.q.index[id] < h.q.nextHandle)
    && (forall id, id' :: id in h.q.index && id' in h.q.index && id != id' ==> h.q.index[id] != h.q.index[id'])
    && h.leaked == 0
  }

  ghost predicate Sound(h: History) {
    Partitioned(h) && Indexed(h)
  }

  lemma EnqueueKeepsSound(h: History, id: Id, data: string, ttlSecs: U32, now: Time)
    requires Sound(h) && id !in h.sent
    ensures Sound(ApplyEnqueue(h, id, data, ttlSecs, now))
  {
  }

  lemma IdsOfInsert(s: seq<Entry>, p: nat, e: Entry)
    requires p <= |s|
    ensures Ids(InsertEntry(s, p, e)) == Ids(s) + {e.message.id}
    ensures forall f :: f in InsertEntry(s, p, e) <==> f in s || f == e
  {
    InsertMembers(s, p, e);
  }

  lemma InsertMembers(s: seq<Entry>, p: nat, e: Entry)
    requires p <= |s|
    ensures forall f :: f in InsertEntry(s, p, e) <==> f in s || f == e
  {
    assert s == s[..p] + s[p..];
    forall f ensures f in InsertEntry(s, p, e) <==> f in s || f == e {
      assert f in s <==> f in s[..p] || f in s[p..];
    }
  }

  lemma InsertDistinct(s: seq<Entry>, p: nat, e: Entry)
    requires p <= |s| && DistinctEntries(s)
    requires forall f :: f in s ==> f.message.id != e.message.id && f.handle != e.handle
    ensures DistinctEntries(InsertEntry(s, p, e))
  {
    var t := InsertEntry(s, p, e);
    forall i, j | 0 <= i < j < |t|
      ensures t[i].message.id != t[j].message.id && t[i].handle != t[j].handle
    {
      assert t[i] == if i < p then s[i] else if i == p then e else s[i-1];
      assert t[j] == if j < p then s[j] else if j == p then e else s[j-1];
    }
  }

  lemma StampKeepsSound(h: History, id: Id, clock: VectorClock, now: Time, pos: nat)
    requires Sound(h) && pos <= |h.q.queued|
    ensures Sound(h.(q := Stamp(h.q, id, clock, now, pos).0))
  {
    if id in h.q.unstamped {
      var e := Entry(h.q.nextHandle, clock, h.q.unstamped[id].(localTime := now));
      StampParts(h, id, e, pos);
    }
  }

  ghost function Stamped(h: History, id: Id, e: Entry, pos: nat): History
    requires id in h.q.unstamped && pos <= |h.q.queued|
  {
    h.(q := h.q.(queued := InsertEntry(h.q.queued, pos, e), index := h.q.index[id := e.handle],
                 unstamped := h.q.unstamped - {id}, nextHandle := h.q.nextHandle + 1))
  }

  lemma StampParts(h: History, id: Id, e: Entry, pos: nat)
    requires Sound(h) && id in h.q.unstamped && pos <= |h.q.queued|
    requires e.handle == h.q.nextHandle && e.message.id == id && e.message.data == h.q.unstamped[id].data
    ensures id !in h.q.index && Sound(Stamped(h, id, e, pos))
  {
    IdsOfInsert(h.q.queued, pos, e);
    StampPartition(h, id, e, pos);
    StampIndex(h, id, e, pos);
  }

  lemma StampPartition(h: History, id: Id, e: Entry, pos: nat)
    requires Sound(h) && id in h.q.unstamped && pos <= |h.q.queued|
    requires e.handle == h.q.nextHandle && e.message.id == id && e.message.data == h.q.unstamped[id].data
    ensures Partitioned(Stamped(h, id, e, pos))
  {
    IdsOfInsert(h.q.queued, pos, e);
    forall f | f in h.q.queued ensures f.message.id != id && f.handle != e.handle {
      assert f.message.id in Ids(h.q.queued);
    }
    InsertDistinct(h.q.queued, pos, e);
  }

  lemma StampIndex(h: History, id: Id, e: Entry, pos: nat)
    requires Sound(h) && id in h.q.unstamped && pos <= |h.q.queued|
    requires e.handle == h.q.nextHandle && e.message.id == id
    ensures id !in h.q.index && Indexed(Stamped(h, id, e, pos))
  {
    IdsOfInsert(h.q.queued, pos, e);
    assert id !in Ids(h.q.queued) && id !in h.dangling;
  }

  lemma SplitIds(s: seq<Entry>, k: nat)
    requires k <= |s| && DistinctEntries(s)
    ensures Ids(s) == Ids(s[..k]) + Ids(s[k..])
    ensures Ids(s[..k]) !! Ids(s[k..])
    ensures DistinctEntries(s[k..])
    ensures forall e :: e in s[k..] ==> e in s
  {
    assert s == s[..k] + s[k..];
    forall e ensures e in s <==> e in s[..k] || e in s[k..] {}
    forall e, f | e in s[..k] && f in s[k..] ensures e.message.id != f.message.id {
      var i :| 0 <= i < k && s[i] == e;
      var j :| k <= j < |s| && s[j] == f;
    }
  }

  lemma SplitUnstamped(m: map<Id, Message>, ttl: U32, each: Id -> Time)
    ensures m.Keys == Fresh(m, ttl, each).Keys + Stale(m, ttl, each).Keys
    ensures Fresh(m, ttl, each).Keys !! Stale(m, ttl, each).Keys
    ensures forall id :: id in Fresh(m, ttl, each) ==> id in m && Fresh(m, ttl, each)[id] == m[id]
  {
    hide Expired;
  }

  lemma ExpireKeepsSound(h: History, at: nat -> Time, each: Id -> Time)
    requires Sound(h)
    ensures Sound(ApplyExpire(h, at, each))
  {
    hide Fresh, Stale, ExpiredFront, SumEntries, SumMap, Minus32, Partitioned, Indexed;
    var k := ExpiredFront(h.q.queued, h.q.ttl, at);
    SplitUnstamped(h.q.unstamped, h.q.ttl, each);
    DropKeepsPartition(h, k, Fresh(h.q.unstamped, h.q.ttl, each), Stale(h.q.unstamped, h.q.ttl, each).Keys,
                       ApplyExpire(h, at, each));
    DropKeepsIndex(h, k, ApplyExpire(h, at, each));
  }

  /** The first k entries and the stale messages leave. */
  lemma DropKeepsPartition(h: History, k: nat, left: map<Id, Message>, stale: set<Id>, h': History)
    requires Partitioned(h) && k <= |h.q.queued|
    requires h.q.unstamped.Keys == left.Keys + stale && left.Keys !! stale
    requires forall id :: id in left ==> left[id] == h.q.unstamped[id]
    requires h'.q.queued == h.q.queued[k..] && h'.q.unstamped == left && h'.sent == h.sent
    requires h'.gone == h.gone + Ids(h.q.queued[..k]) + stale
    ensures Partitioned(h')
  {
    SplitIds(h.q.queued, k);
    hide Ids;
  }

  lemma DropKeepsIndex(h: History, k: nat, h': History)
    requires Partitioned(h) && Indexed(h) && k <= |h.q.queued|
    requires h'.q.queued == h.q.queued[k..] && h'.q.index == h.q.index && h'.q.nextHandle == h.q.nextHandle
    requires h'.dangling == h.dangling + Ids(h.q.queued[..k]) && h'.gone >= h.gone + Ids(h.q.queued[..k])
    requires h'.leaked == h.leaked
    ensures Indexed(h')
  {
    SplitIds(h.q.queued, k);
    hide Ids;
  }

  lemma RemoveMembers(s: seq<Entry>, p: nat)
    requires p < |s| && DistinctEntries(s)
    ensures DistinctEntries(RemoveEntry(s, p))
    ensures forall e :: e in RemoveEntry(s, p) <==> e in s && e.message.id != s[p].message.id
  {
    var t := RemoveEntry(s, p);
    assert forall i :: 0 <= i < |t| ==> t[i] == s[if i < p then i else i + 1];
    forall e | e in s && e.message.id != s[p].message.id ensures e in t {
      var i :| 0 <= i < |s| && s[i] == e;
      assert t[if i < p then i else i - 1] == e;
    }
  }

  lemma RemoveIds(s: seq<Entry>, p: nat)
    requires p < |s| && DistinctEntries(s)
    ensures Ids(RemoveEntry(s, p)) == Ids(s) - {s[p].message.id}
    ensures DistinctEntries(RemoveEntry(s, p))
    ensures forall e :: e in RemoveEntry(s, p) ==> e in s
  {
    RemoveMembers(s, p);
  }

  lemma ClaimKeepsSound(h: History, id: Id)
    requires Sound(h) && Claimable(h.q, id)
    ensures Sound(ApplyClaim(h, id))
  {
    if id in h.q.index {
      var p := Find(h.q.queued, h.q.index[id]);
      var e := h.q.queued[p];
      assert e in h.q.queued && h.q.index[e.message.id] == e.handle == h.q.index[id];
      assert e.message.id == id;
      RemoveIds(h.q.queued, p);
      assert id in Ids(h.q.queued);
      assert id !in h.dangling;
    }
  }

  lemma {:induction false} RunIsSound(ops: seq<Op>)
    requires After(ops).Some? && NoReuse(ops)
    ensures Sound(After(ops).value)
  {
    if ops == [] {
    } else {
      var front := ops[..|ops|-1];
      RunIsSound(front);
      var h := After(front).value;
      match ops[|ops|-1]
      case EnqueueOp(id, data, ttlSecs, now) =>
        EnqueueKeepsSound(h, id, data, ttlSecs, now);
      case StampOp(id, clock, now, pos) => StampKeepsSound(h, id, clock, now, pos);
      case ExpireOp(at, each) => ExpireKeepsSound(h, at, each);
      case ClaimOp(id) => ClaimKeepsSound(h, id);
    }
  }

  /** The promise: nothing is lost, doubled or altered, and the count is exact. */
  lemma MessagesConserved(ops: seq<Op>)
    requires After(ops).Some? && NoReuse(ops)
    ensures var h := After(ops).value;
            Partitioned(h) && CountsBytes(h.q) && |h.sent| == |h.q.unstamped| + |h.q.queued| + |h.gone|
  {
    hide After, NoReuse, Partitioned, Counted, CountsBytes, Held;
    RunIsSound(ops);
    var h := After(ops).value;
    BytesConserved(ops, h);
    SoundCounts(h);
    NothingLeaked(h);
  }

  lemma NothingLeaked(h: History)
    requires Indexed(h) && Counted(h)
    ensures CountsBytes(h.q)
  {
  }

  /** total_count() is the number of messages sent less the number that were claimed or expired. */
  lemma TotalCountOfRun(ops: seq<Op>)
    requires After(ops).Some? && NoReuse(ops)
    ensures var h := After(ops).value; TotalCount(h.q) == |h.sent| - |h.gone|
  {
    hide After, NoReuse, Partitioned, CountsBytes;
    MessagesConserved(ops);
  }

  lemma SoundCounts(h: History)
    requires Partitioned(h)
    ensures |h.sent| == |h.q.unstamped| + |h.q.queued| + |h.gone|
  {
    IdsCount(h.q.queued);
    ThreeParts(h.sent.Keys, h.q.unstamped.Keys, Ids(h.q.queued), h.gone);
  }

  lemma ThreeParts(all: set<Id>, a: set<Id>, b: set<Id>, c: set<Id>)
    requires all == a + b + c && a !! b !! c
    ensures |all| == |a| + |b| + |c|
  {
    assert |a + b| == |a| + |b|;
  }

  lemma IdsOfLast(front: seq<Entry>, last: Entry)
    ensures Ids(front + [last]) == Ids(front) + {last.message.id}
  {
  }

  lemma {:induction false} IdsCount(s: seq<Entry>)
    requires DistinctEntries(s)
    ensures |Ids(s)| == |s|
  {
    if s == [] {
    } else {
      var front, last := s[..|s|-1], s[|s|-1];
      IdsCount(front);
      assert s == front + [last];
      IdsOfLast(front, last);
      hide Ids;
      forall e | e in front ensures e.message.id != last.message.id {
        var i :| 0 <= i < |s| - 1 && s[i] == e;
      }
    }
  }

  /** The index agrees with the queue exactly as long as no stamped message has expired, and
      claim() follows an erased iterator exactly for the ids of those that have. */
  lemma IndexAgreesIff(ops: seq<Op>, id: Id)
    requires After(ops).Some? && NoReuse(ops)
    ensures var h := After(ops).value;
            && (forall e :: e in h.q.queued ==> e.message.id in h.q.index && h.q.index[e.message.id] == e.handle)
            && (h.q.index.Keys == Ids(h.q.queued) <==> h.dangling == {})
            && (Claimable(h.q, id) <==> id !in h.dangling)
  {
    RunIsSound(ops);
    var h := After(ops).value;
    if h.dangling != {} {
      var x :| x in h.dangling;
      assert x !in Ids(h.q.queued);
    }
    if id in h.q.index {
      var p := Find(h.q.queued, h.q.index[id]);
      if p < |h.q.queued| {
        var e := h.q.queued[p];
        assert e in h.q.queued && h.q.index[e.message.id] == h.q.index[id];
        assert id in Ids(h.q.queued);
      }
      if id in Ids(h.q.queued) {
        var e :| e in h.q.queued && e.message.id == id;
        var i :| 0 <= i < |h.q.queued| && h.q.queued[i] == e;
        assert p <= i;
      }
    }
  }

  /** Such a run: one message is stamped and then expires, and its index entry stays. */
  lemma IndexKeepsExpired(clock: VectorClock)
    ensures var ops := [EnqueueOp(7, "m", 0, 0), StampOp(7, clock, 0, 0), ExpireOp(_ => 1, _ => 1)];
            After(ops).Some? && 7 in After(ops).value.q.index && After(ops).value.q.queued == []
  {
    var o1, o2, o3 := EnqueueOp(7, "m", 0, 0), StampOp(7, clock, 0, 0), ExpireOp(_ => 1, _ => 1);
    AfterOneMore([], o1);
    AfterOneMore([o1], o2);
    AfterOneMore([o1, o2], o3);
    assert [o1] == [] + [o1] && [o1, o2] == [o1] + [o2] && [o1, o2, o3] == [o1, o2] + [o3];
    var h2 := After([o1, o2]).value;
    assert h2.q.queued == [Entry(0, clock, Message(7, "m", 0))];
    assert ExpiredFront(h2.q.queued, 0, o3.at) == 1;
  }

  lemma AfterOneMore(ops: seq<Op>, op: Op)
    requires After(ops).Some?
    ensures After(ops + [op]) == Apply(After(ops).value, op)
  {
    assert (ops + [op])[..|ops|] == ops;
  }

  /** The next operation of a run. */
  lemma Grow(ops: seq<Op>, k: nat, h: History) returns (h': History)
    requires k < |ops| && After(ops[..k]) == Some(h) && Apply(h, ops[k]).Some?
    ensures After(ops[..k+1]) == Some(h') && Apply(h, ops[k]) == Some(h')
  {
    AfterOneMore(ops[..k], ops[k]);
    assert ops[..k] + [ops[k]] == ops[..k+1];
    h' := Apply(h, ops[k]).value;
  }

  // ---- The time to live ----

  /** The time to live that the first enqueue of a run asks for. */
  ghost function FirstTtl(ops: seq<Op>): Option<U32> {
    if ops == [] then None
    else if ops[0].EnqueueOp? then Some(ops[0].ttlSecs)
    else FirstTtl(ops[1..])
  }

  lemma {:induction false} FirstTtlGrows(ops: seq<Op>, op: Op)
    ensures FirstTtl(ops + [op]) ==
            if FirstTtl(ops).Some? then FirstTtl(ops) else if op.EnqueueOp? then Some(op.ttlSecs) else None
  {
    if ops == [] {
      assert ops + [op] == [op] && [op][1..] == [];
    } else if !ops[0].EnqueueOp? {
      assert (ops + [op])[1..] == ops[1..] + [op];
      FirstTtlGrows(ops[1..], op);
    }
  }

  /** In every run all messages of a queue live as long as its first message asked for. */
  lemma {:induction false} TtlOfFirstMessage(ops: seq<Op>, h: History)
    requires After(ops) == Some(h)
    ensures FirstTtl(ops) == if h.q.ttlSet then Some(h.q.ttl) else None
  {
    if ops == [] {
    } else {
      LastStep(ops);
      var front, last := ops[..|ops|-1], ops[|ops|-1];
      hide After, Apply;
      TtlOfFirstMessage(front, After(front).value);
      TtlStep(After(front).value, last, h);
      FirstTtlGrows(front, last);
      assert ops == front + [last];
    }
  }

  /** Only an enqueue on a queue without a time to live sets it. */
  lemma TtlStep(h: History, op: Op, h': History)
    requires Apply(h, op) == Some(h')
    ensures h'.q.ttlSet <==> h.q.ttlSet || op.EnqueueOp?
    ensures h.q.ttlSet ==> h'.q.ttl == h.q.ttl
    ensures !h.q.ttlSet && op.EnqueueOp? ==> h'.q.ttl == op.ttlSecs
  {
  }

  // ---- Expiry ----

  /** What expire_messages() leaves: all that is not expired, and from the ordered queue
      also what stands behind the first message that is not. */
  lemma ExpireKeepsExactly(q: Queue, at: nat -> Time, each: Id -> Time)
    ensures var q' := Expire(q, at, each);
            && (forall id :: id in q'.unstamped <==> id in q.unstamped && !Expired(q.unstamped[id], q.ttl, each(id)))
            && (exists k :: 0 <= k <= |q.queued| && q'.queued == q.queued[k..]
                            && (forall i :: 0 <= i < k ==> Expired(q.queued[i].message, q.ttl, at(i)))
                            && (k < |q.queued| ==> !Expired(q.queued[k].message, q.ttl, at(k))))
  {
    var k := ExpiredFront(q.queued, q.ttl, at);
    assert Expire(q, at, each).queued == q.queued[k..];
  }

  /** The clock does not show a time before this one. */
  ghost predicate NotBefore(now: Time, at: nat -> Time, each: Id -> Time) {
    (forall i: nat :: now <= at(i)) && (forall id: Id :: now <= each(id))
  }

  /** No message that had expired when the pass began is left exactly when none of them stood
      behind one that had not expired when it was looked at. */
  lemma NoneLeftIff(q: Queue, now: Time, at: nat -> Time, each: Id -> Time)
    requires NotBefore(now, at, each)
    ensures (forall e :: e in Expire(q, at, each).queued ==> !Expired(e.message, q.ttl, now)) <==>
            (forall i, j :: 0 <= i < j < |q.queued| && Expired(q.queued[j].message, q.ttl, now)
                            ==> Expired(q.queued[i].message, q.ttl, at(i)))
  {
    var k := ExpiredFront(q.queued, q.ttl, at);
    var rest := q.queued[k..];
    assert forall j :: k <= j < |q.queued| ==> q.queued[j] in rest by {
      forall j | k <= j < |q.queued| ensures q.queued[j] in rest { assert rest[j-k] == q.queued[j]; }
    }
    if forall i, j :: 0 <= i < j < |q.queued| && Expired(q.queued[j].message, q.ttl, now)
                      ==> Expired(q.queued[i].message, q.ttl, at(i)) {
      forall e | e in rest ensures !Expired(e.message, q.ttl, now) {
        var j :| k <= j < |q.queued| && q.queued[j] == e;
        assert !Expired(q.queued[k].message, q.ttl, at(k)) && now <= at(k);
      }
    }
  }

  /** The times at which messages are enqueued and stamped do not go back, and end by t. */
  ghost predicate Timely(ops: seq<Op>, t: Time) {
    ops == [] ||
    (var front, last := ops[..|ops|-1], ops[|ops|-1];
     if last.ClaimOp? || last.ExpireOp? then Timely(front, t) else last.now <= t && Timely(front, last.now))
  }

  /** Stamps arrive in clock order: none is less than a clock that is already queued. */
  ghost predicate StampsInOrder(ops: seq<Op>) {
    ops == [] ||
    (var front, last := ops[..|ops|-1], ops[|ops|-1];
     && StampsInOrder(front)
     && (last.StampOp? && After(front).Some? ==>
           forall e :: e in After(front).value.q.queued ==> !Less(last.clock, e.clock)))
  }

  ghost predicate ByAge(s: seq<Entry>, t: Time) {
    && (forall i, j :: 0 <= i < j < |s| ==> s[i].message.localTime <= s[j].message.localTime)
    && (forall e :: e in s ==> e.message.localTime <= t)
  }

  lemma RemoveKeepsAge(s: seq<Entry>, p: nat, t: Time)
    requires p < |s| && ByAge(s, t)
    ensures ByAge(RemoveEntry(s, p), t)
  {
    var r := RemoveEntry(s, p);
    assert forall i :: 0 <= i < |r| ==> r[i] == s[if i < p then i else i + 1];
  }

  lemma ByAgeLater(s: seq<Entry>, t: Time, u: Time)
    requires ByAge(s, t) && t <= u
    ensures ByAge(s, u)
  {
  }

  lemma StampKeepsAge(q: Queue, id: Id, clock: VectorClock, now: Time, pos: nat)
    requires ByAge(q.queued, now) && Slot(q.queued, clock, pos)
    requires forall e :: e in q.queued ==> !Less(clock, e.clock)
    ensures ByAge(Stamp(q, id, clock, now, pos).0.queued, now)
  {
    assert forall i :: 0 <= i < |q.queued| ==> !Less(clock, q.queued[i].clock);
    assert pos == |q.queued|;
    if id in q.unstamped {
      var e := Entry(q.nextHandle, clock, q.unstamped[id].(localTime := now));
      assert InsertEntry(q.queued, pos, e) == q.queued + [e];
      assert forall i :: 0 <= i < |q.queued| ==> q.queued[i] in q.queued;
    }
  }

  lemma {:induction false} OrderedStampsAge(ops: seq<Op>, t: Time)
    requires After(ops).Some? && Timely(ops, t) && StampsInOrder(ops)
    ensures ByAge(After(ops).value.q.queued, t)
  {
    if ops == [] {
    } else {
      var front, last := ops[..|ops|-1], ops[|ops|-1];
      LastStep(ops);
      var q := After(front).value.q;
      if last.ClaimOp? {
        OrderedStampsAge(front, t);
        if last.id in q.index { RemoveKeepsAge(q.queued, Find(q.queued, q.index[last.id]), t); }
      } else if last.ExpireOp? {
        OrderedStampsAge(front, t);
      } else {
        OrderedStampsAge(front, last.now);
        if last.StampOp? { StampKeepsAge(q, last.id, last.clock, last.now, last.pos); }
        ByAgeLater(After(ops).value.q.queued, last.now, t);
      }
    }
  }

  /** In every run whose stamps arrive in clock order a pass that begins now leaves nothing
      that has expired by now. */
  lemma NothingExpiredStays(ops: seq<Op>, now: Time, at: nat -> Time, each: Id -> Time)
    requires After(ops).Some? && Timely(ops, now) && StampsInOrder(ops) && NotBefore(now, at, each)
    ensures var q := After(ops).value.q;
            var q' := Expire(q, at, each);
            && (forall e :: e in q'.queued ==> !Expired(e.message, q.ttl, now))
            && (forall id :: id in q'.unstamped ==> !Expired(q'.unstamped[id], q.ttl, now))
  {
    OrderedStampsAge(ops, now);
    var q := After(ops).value.q;
    forall i, j | 0 <= i < j < |q.queued| && Expired(q.queued[j].message, q.ttl, now)
      ensures Expired(q.queued[i].message, q.ttl, at(i))
    {
      assert now <= at(i);
    }
    NoneLeftIff(q, now, at, each);
  }

  lemma FrontStays(q: Queue, at: nat -> Time, each: Id -> Time)
    requires q.queued != [] && !Expired(q.queued[0].message, q.ttl, at(0))
    ensures Expire(q, at, each).queued == q.queued
  {
  }

  /** Out of clock order it can: the later stamp goes in front of the older message and hides it. */
  lemma ExpiredCanStay(a: VectorClock, b: VectorClock)
    requires Less(b, a)
    ensures var s := NANOS_PER_SECOND;
            var ops := [EnqueueOp(1, "x", 1, 0), EnqueueOp(2, "y", 1, 0), StampOp(1, a, 0, 0), StampOp(2, b, 2 * s, 0)];
            && After(ops).Some?
            && var q := Expire(After(ops).value.q, _ => 2 * s, _ => 2 * s);
            |q.queued| == 2 && q.queued[1].message.id == 1 && Expired(q.queued[1].message, q.ttl, 2 * s)
  {
    hide After, Less;
    var s := NANOS_PER_SECOND;
    var ops := [EnqueueOp(1, "x", 1, 0), EnqueueOp(2, "y", 1, 0), StampOp(1, a, 0, 0), StampOp(2, b, 2 * s, 0)];
    var h0 := NothingYet(ops);
    var h1 := Grow(ops, 0, h0);
    var h2 := Grow(ops, 1, h1);
    var h3 := Grow(ops, 2, h2);
    assert h3.q.queued == [Entry(0, a, Message(1, "x", 0))];
    var h4 := Grow(ops, 3, h3);
    assert h4.q.queued == [Entry(1, b, Message(2, "y", 2 * s)), Entry(0, a, Message(1, "x", 0))];
    assert ops[..4] == ops;
    FrontStays(h4.q, _ => 2 * s, _ => 2 * s);
  }

  lemma NothingYet(ops: seq<Op>) returns (h: History)
    ensures After(ops[..0]) == Some(h) && h == START
  {
    h := START;
  }
}
