/** message_queue<3>: unstamped messages by id, stamped messages in clock order, an index
    from id to the position of the stamped message, and a running byte count.
    An iterator into the ordered multimap is the handle of its entry, and a time point is
    a number of nanoseconds. */
module MessageQueues {
  import opened Wrappers
  import opened Clocks

  type Id = nat
  type Time = int

  datatype Message = Message(id: Id, data: string, localTime: Time)

  datatype Entry = Entry(handle: nat, clock: VectorClock, message: Message)

  datatype Queue = Queue(
    ttlSet: bool, ttl: U32, size: U32,
    unstamped: map<Id, Message>, queued: seq<Entry>, index: map<Id, nat>,
    nextHandle: nat)

  const EMPTY_QUEUE := Queue(false, 0, 0, map[], [], map[], 0)

  const NANOS_PER_SECOND: nat := 1_000_000_000

  /** sizeof(uuid) + sizeof(time_point) + sizeof(vector_clock<3>) + the payload, in 32 bits. */
  function CalcSize(length: nat): U32 { (16 + 8 + 48 + length) % 0x1_0000_0000 }

  function SizeOf(m: Message): U32 { CalcSize(|m.data|) }

  function Plus32(a: U32, b: nat): U32 { (a + b) % 0x1_0000_0000 }

  function Minus32(a: U32, b: nat): U32 { (a - b) % 0x1_0000_0000 }

  predicate Expired(m: Message, ttl: U32, now: Time) {
    now - m.localTime > ttl * NANOS_PER_SECOND
  }

  // ---- The operations on values ----

  function Enqueue(q: Queue, id: Id, data: string, ttlSecs: U32, now: Time): Queue {
    q.(ttlSet := true,
       ttl := if q.ttlSet then q.ttl else ttlSecs,
       size := Plus32(q.size, CalcSize(|data|)),
       unstamped := if id in q.unstamped then q.unstamped else q.unstamped[id := Message(id, data, now)])
  }

  /** A position at which a search tree ordered by the majority comparison may put a key:
      the search has found the key not less than its left and less than its right neighbour.
      The comparison need not be transitive, and more than one position may do. */
  predicate Slot(queued: seq<Entry>, clock: VectorClock, pos: nat) {
    && pos <= |queued|
    && (pos > 0 ==> !Less(clock, queued[pos-1].clock))
    && (pos < |queued| ==> Less(clock, queued[pos].clock))
  }

  lemma {:induction false} SlotExists(queued: seq<Entry>, clock: VectorClock)
    ensures exists pos :: Slot(queued, clock, pos)
  {
    if queued == [] || !Less(clock, queued[|queued|-1].clock) {
      assert Slot(queued, clock, |queued|);
    } else {
      SlotExists(queued[..|queued|-1], clock);
      var pos :| Slot(queued[..|queued|-1], clock, pos);
      assert Slot(queued, clock, pos);
    }
  }

  function InsertEntry(s: seq<Entry>, pos: nat, e: Entry): seq<Entry>
    requires pos <= |s|
  {
    s[..pos] + [e] + s[pos..]
  }

  /** stamp(): moves an unstamped message into the ordered queue; false if there is none. */
  function Stamp(q: Queue, id: Id, clock: VectorClock, now: Time, pos: nat): (Queue, bool)
    requires pos <= |q.queued|
  {
    if id !in q.unstamped then (q, false)
    else
      var e := Entry(q.nextHandle, clock, q.unstamped[id].(localTime := now));
      (q.(queued := InsertEntry(q.queued, pos, e),
          index := if id in q.index then q.index else q.index[id := q.nextHandle],
          unstamped := q.unstamped - {id},
          nextHandle := q.nextHandle + 1),
       true)
  }

  /** How many entries at the front have expired before the first that has not.  The clock is
      read once for each entry that is looked at: at(i) is what it shows for the i-th. */
  function ExpiredFront(s: seq<Entry>, ttl: U32, at: nat -> Time): (k: nat)
    ensures k <= |s|
    ensures forall i :: 0 <= i < k ==> Expired(s[i].message, ttl, at(i))
    ensures k < |s| ==> !Expired(s[k].message, ttl, at(k))
  {
    ExpiredFrom(s, 0, ttl, at)
  }

  function ExpiredFrom(s: seq<Entry>, i: nat, ttl: U32, at: nat -> Time): (k: nat)
    requires i <= |s|
    ensures i <= k <= |s|
    ensures forall j :: i <= j < k ==> Expired(s[j].message, ttl, at(j))
    ensures k < |s| ==> !Expired(s[k].message, ttl, at(k))
    decreases |s| - i
  {
    if i == |s| || !Expired(s[i].message, ttl, at(i)) then i else ExpiredFrom(s, i + 1, ttl, at)
  }

  /** The unstamped messages that have not expired; each(id) is what the clock shows when the
      message with this id is looked at. */
  function Fresh(m: map<Id, Message>, ttl: U32, each: Id -> Time): map<Id, Message> {
    map id | id in m && !Expired(m[id], ttl, each(id)) :: m[id]
  }

  function Stale(m: map<Id, Message>, ttl: U32, each: Id -> Time): map<Id, Message> {
    map id | id in m && Expired(m[id], ttl, each(id)) :: m[id]
  }

  function SumEntries(s: seq<Entry>): nat {
    if s == [] then 0 else SizeOf(s[0].message) + SumEntries(s[1..])
  }

  ghost function SumMap(m: map<Id, Message>): nat {
    if m == map[] then 0
    else
      var id :| id in m;
      SizeOf(m[id]) + SumMap(m - {id})
  }

  /** expire_messages(): the expired front of the ordered queue and every expired
      unstamped message go; the index is not touched. */
  ghost function Expire(q: Queue, at: nat -> Time, each: Id -> Time): Queue {
    var k := ExpiredFront(q.queued, q.ttl, at);
    q.(queued := q.queued[k..],
       unstamped := Fresh(q.unstamped, q.ttl, each),
       size := Minus32(q.size, SumEntries(q.queued[..k]) + SumMap(Stale(q.unstamped, q.ttl, each))))
  }

  /** total_count(). */
  function TotalCount(q: Queue): nat { |q.unstamped| + |q.queued| }

  function Find(s: seq<Entry>, handle: nat): (p: nat)
    ensures p <= |s|
    ensures p < |s| ==> s[p].handle == handle
    ensures forall i :: 0 <= i < p ==> s[i].handle != handle
  {
    if s == [] || s[0].handle == handle then 0 else 1 + Find(s[1..], handle)
  }

  /** The index does not hold an iterator that has been erased under this id. */
  predicate Claimable(q: Queue, id: Id) {
    id in q.index ==> Find(q.queued, q.index[id]) < |q.queued|
  }

  function RemoveEntry(s: seq<Entry>, p: nat): seq<Entry>
    requires p < |s|
  {
    s[..p] + s[p+1..]
  }

  /** claim(): removes the message that the index leads to, if there is one. */
  function Claim(q: Queue, id: Id): Queue
    requires Claimable(q, id)
  {
    if id !in q.index then q
    else
      var p := Find(q.queued, q.index[id]);
      q.(size := Minus32(q.size, SizeOf(q.queued[p].message)),
         queued := RemoveEntry(q.queued, p),
         index := q.index - {id})
  }

  // ---- Sums ----

  lemma {:induction false} SumMapRemove(m: map<Id, Message>, id: Id)
    requires id in m
    ensures SumMap(m) == SizeOf(m[id]) + SumMap(m - {id})
    decreases |m|
  {
    var k :| k in m && SumMap(m) == SizeOf(m[k]) + SumMap(m - {k});
    if k == id {
    } else {
      SumMapRemove(m - {k}, id);
      SumMapRemove(m - {id}, k);
      assert m - {k} - {id} == m - {id} - {k};
    }
  }

  lemma SumMapAdd(m: map<Id, Message>, id: Id, message: Message)
    requires id !in m
    ensures SumMap(m[id := message]) == SumMap(m) + SizeOf(message)
  {
    SumMapRemove(m[id := message], id);
    assert m[id := message] - {id} == m;
  }

  lemma {:induction false} SumMapSplit(m: map<Id, Message>, ttl: U32, each: Id -> Time)
    ensures SumMap(m) == SumMap(Fresh(m, ttl, each)) + SumMap(Stale(m, ttl, each))
    decreases |m|
  {
    if m == map[] {
    } else {
      var id :| id in m;
      SumMapSplit(m - {id}, ttl, each);
      SumMapRemove(m, id);
      SplitOne(m, ttl, each, id);
      hide Expired, Fresh, Stale, SizeOf, SumMap;
      if Expired(m[id], ttl, each(id)) {
        SumMapRemove(Stale(m, ttl, each), id);
      } else {
        SumMapRemove(Fresh(m, ttl, each), id);
      }
    }
  }

  /** One message is on one side, and the others do not mind. */
  lemma SplitOne(m: map<Id, Message>, ttl: U32, each: Id -> Time, id: Id)
    requires id in m
    ensures if Expired(m[id], ttl, each(id))
            then && id in Stale(m, ttl, each) && Stale(m, ttl, each)[id] == m[id]
                 && Stale(m, ttl, each) - {id} == Stale(m - {id}, ttl, each)
                 && Fresh(m, ttl, each) == Fresh(m - {id}, ttl, each)
            else && id in Fresh(m, ttl, each) && Fresh(m, ttl, each)[id] == m[id]
                 && Fresh(m, ttl, each) - {id} == Fresh(m - {id}, ttl, each)
                 && Stale(m, ttl, each) == Stale(m - {id}, ttl, each)
  {
    hide Expired;
  }

  lemma {:induction false} SumEntriesConcat(s: seq<Entry>, t: seq<Entry>)
    ensures SumEntries(s + t) == SumEntries(s) + SumEntries(t)
  {
    if s == [] {
      assert s + t == t;
    } else {
      SumEntriesConcat(s[1..], t);
      assert (s + t)[1..] == s[1..] + t;
    }
  }

  lemma SumEntriesSplit(s: seq<Entry>, p: nat)
    requires p <= |s|
    ensures SumEntries(s) == SumEntries(s[..p]) + SumEntries(s[p..])
  {
    SumEntriesConcat(s[..p], s[p..]);
    assert s == s[..p] + s[p..];
  }

  lemma SumEntriesRemove(s: seq<Entry>, p: nat)
    requires p < |s|
    ensures SumEntries(s) == SumEntries(RemoveEntry(s, p)) + SizeOf(s[p].message)
  {
    SumEntriesSplit(s, p);
    SumEntriesConcat(s[..p], s[p+1..]);
    assert s[p..][1..] == s[p+1..];
  }

  lemma SumEntriesInsert(s: seq<Entry>, p: nat, e: Entry)
    requires p <= |s|
    ensures SumEntries(InsertEntry(s, p, e)) == SumEntries(s) + SizeOf(e.message)
  {
    SumEntriesConcat(s[..p] + [e], s[p..]);
    SumEntriesConcat(s[..p], [e]);
    SumEntriesSplit(s, p);
    assert [e][1..] == [];
  }

  ghost function Held(q: Queue): nat {
    SumMap(q.unstamped) + SumEntries(q.queued)
  }

  // ---- The byte count, call by call ----

  /** The byte count is the total size of the messages held, in 32 bits. */
  ghost predicate CountsBytes(q: Queue) {
    q.size == Held(q) % 0x1_0000_0000
  }

  /** What each call does to the total size held. */
  lemma HeldAfterEnqueue(q: Queue, id: Id, data: string, ttlSecs: U32, now: Time)
    ensures Held(Enqueue(q, id, data, ttlSecs, now)) ==
            Held(q) + if id in q.unstamped then 0 else CalcSize(|data|)
  {
    if id !in q.unstamped {
      SumMapAdd(q.unstamped, id, Message(id, data, now));
    }
  }

  lemma HeldAfterStamp(q: Queue, id: Id, clock: VectorClock, now: Time, pos: nat)
    requires pos <= |q.queued|
    ensures Held(Stamp(q, id, clock, now, pos).0) == Held(q)
  {
    if id in q.unstamped {
      SumMapRemove(q.unstamped, id);
      SumEntriesInsert(q.queued, pos, Entry(q.nextHandle, clock, q.unstamped[id].(localTime := now)));
    }
  }

  lemma HeldAfterExpire(q: Queue, at: nat -> Time, each: Id -> Time)
    ensures var k := ExpiredFront(q.queued, q.ttl, at);
            Held(q) ==
            Held(Expire(q, at, each)) + SumEntries(q.queued[..k]) + SumMap(Stale(q.unstamped, q.ttl, each))
  {
    SumEntriesSplit(q.queued, ExpiredFront(q.queued, q.ttl, at));
    SumMapSplit(q.unstamped, q.ttl, each);
  }

  lemma HeldAfterClaim(q: Queue, id: Id)
    requires Claimable(q, id) && id in q.index
    ensures Held(q) == Held(Claim(q, id)) + SizeOf(q.queued[Find(q.queued, q.index[id])].message)
  {
    SumEntriesRemove(q.queued, Find(q.queued, q.index[id]));
  }

  lemma ModDrops(size: U32, total: nat, gone: nat)
    requires size == total % 0x1_0000_0000 && gone <= total
    ensures Minus32(size, gone) == (total - gone) % 0x1_0000_0000
  {
    assert total == 0x1_0000_0000 * (total / 0x1_0000_0000) + size;
    ModOfMultiple(size - gone, total / 0x1_0000_0000);
  }

  lemma ModAdds(size: U32, total: nat, more: nat)
    requires size == total % 0x1_0000_0000
    ensures Plus32(size, more) == (total + more) % 0x1_0000_0000
  {
    assert total == 0x1_0000_0000 * (total / 0x1_0000_0000) + size;
    ModOfMultiple(size + more, total / 0x1_0000_0000);
  }

  lemma {:induction false} ModOfMultiple(x: int, k: nat)
    ensures (x + 0x1_0000_0000 * k) % 0x1_0000_0000 == x % 0x1_0000_0000
  {
    if k == 0 {
    } else {
      ModOfMultiple(x, k - 1);
      assert x + 0x1_0000_0000 * k == x + 0x1_0000_0000 * (k - 1) + 0x1_0000_0000;
    }
  }

  /** An enqueue keeps the count right exactly when its id is not waiting for a stamp:
      otherwise the size is added and no message is (unless the size is 0 in 32 bits). */
  lemma EnqueueCountsIff(q: Queue, id: Id, data: string, ttlSecs: U32, now: Time)
    requires CountsBytes(q)
    ensures CountsBytes(Enqueue(q, id, data, ttlSecs, now)) <==>
            id !in q.unstamped || CalcSize(|data|) == 0
  {
    HeldAfterEnqueue(q, id, data, ttlSecs, now);
    ModAdds(q.size, Held(q), CalcSize(|data|));
    if id in q.unstamped && CountsBytes(Enqueue(q, id, data, ttlSecs, now)) {
      assert Plus32(q.size, CalcSize(|data|)) == q.size;
    }
  }
}
