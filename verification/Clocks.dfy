/** node_clock and vector_clock<RF>: the (generation, clock) order of one node,
    the component-wise maximum, and the majority comparison that orders queues.
    RF is the length of the sequences. */
module Clocks {
  import opened Wrappers

  datatype NodeClock = NodeClock(nodeId: U32, generation: U32, clock: U64)

  datatype ClockError = ComparisonError

  /** The part of a node clock that is compared. */
  datatype Tick = Tick(generation: U32, clock: U64)

  type VectorClock = seq<NodeClock>

  function TickOf(c: NodeClock): Tick {
    Tick(c.generation, c.clock)
  }

  predicate Earlier(l: Tick, r: Tick) {
    l.generation < r.generation || (l.generation == r.generation && l.clock < r.clock)
  }

  /** The order of ticks is that of the numbers with the generation in front of the 64-bit clock. */
  lemma EarlierByNumber(l: Tick, r: Tick)
    ensures Earlier(l, r) <==>
            l.generation * 0x1_0000_0000_0000_0000 + l.clock < r.generation * 0x1_0000_0000_0000_0000 + r.clock
  {
  }

  /** operator< on node_clock: a comparison of two different nodes throws. */
  function NodeLess(l: NodeClock, r: NodeClock): (b: Result<bool, ClockError>)
    ensures b.Failure? <==> l.nodeId != r.nodeId
    ensures b.Success? ==> (b.value <==> !Earlier(TickOf(r), TickOf(l)) && l != r)
  {
    if l.nodeId != r.nodeId then Failure(ComparisonError)
    else Success(l.generation < r.generation
                 || (l.generation == r.generation && l.clock < r.clock))
  }

  // ---- The majority comparison, as the nested loop computes it ----

  /** The position of the first entry of b for this node, or |b| if there is none. */
  function FirstMatch(b: VectorClock, id: U32): (j: nat)
    ensures j <= |b|
    ensures j < |b| ==> b[j].nodeId == id
    ensures forall k :: 0 <= k < j ==> b[k].nodeId != id
    decreases |b|
  {
    if b == [] || b[0].nodeId == id then 0 else 1 + FirstMatch(b[1..], id)
  }

  /** How many of the first n entries of a are behind the entry of b they meet. */
  function LeftBehind(a: VectorClock, b: VectorClock, n: nat): nat
    requires n <= |a|
  {
    if n == 0 then 0
    else
      var j := FirstMatch(b, a[n-1].nodeId);
      LeftBehind(a, b, n - 1)
      + if j < |b| && Earlier(TickOf(a[n-1]), TickOf(b[j])) then 1 else 0
  }

  /** How many of the first n entries of a are ahead of the entry of b they meet. */
  function RightBehind(a: VectorClock, b: VectorClock, n: nat): nat
    requires n <= |a|
  {
    if n == 0 then 0
    else
      var j := FirstMatch(b, a[n-1].nodeId);
      RightBehind(a, b, n - 1)
      + if j < |b| && Earlier(TickOf(b[j]), TickOf(a[n-1])) then 1 else 0
  }

  predicate Less(a: VectorClock, b: VectorClock) {
    LeftBehind(a, b, |a|) > RightBehind(a, b, |a|)
  }

  predicate Greater(a: VectorClock, b: VectorClock) {
    !Less(a, b) && a != b
  }

  /** operator< on vector_clock: two counters in a nested loop with a break. */
  method LessThan(lhs: VectorClock, rhs: VectorClock) returns (less: bool)
    requires |lhs| == |rhs|
    ensures less <==> Less(lhs, rhs)
  {
    var numLeftLess, numRightLess := 0, 0;
    var i := 0;
    while i < |lhs|
      invariant 0 <= i <= |lhs|
      invariant numLeftLess == LeftBehind(lhs, rhs, i)
      invariant numRightLess == RightBehind(lhs, rhs, i)
    {
      var j := 0;
      ghost var m := FirstMatch(rhs, lhs[i].nodeId);
      while j < |rhs|
        invariant 0 <= j <= m
        invariant numLeftLess == LeftBehind(lhs, rhs, i)
        invariant numRightLess == RightBehind(lhs, rhs, i)
      {
        var left, right := lhs[i], rhs[j];
        if left.nodeId == right.nodeId {
          if Earlier(TickOf(left), TickOf(right)) {
            numLeftLess := numLeftLess + 1;
          } else if Earlier(TickOf(right), TickOf(left)) {
            numRightLess := numRightLess + 1;
          }
          break;
        }
        j := j + 1;
      }
      i := i + 1;
    }
    return numLeftLess > numRightLess;
  }

  // ---- The reference: a vector clock as a map from node to tick ----

  ghost predicate Distinct(a: VectorClock) {
    forall i, j :: 0 <= i < j < |a| ==> a[i].nodeId != a[j].nodeId
  }

  /** The first n entries as a map. */
  ghost function PrefixMap(a: VectorClock, n: nat): (m: map<U32, Tick>)
    requires n <= |a|
  {
    if n == 0 then map[] else PrefixMap(a, n - 1)[a[n-1].nodeId := TickOf(a[n-1])]
  }

  ghost function AsMap(a: VectorClock): (m: map<U32, Tick>)
  {
    PrefixMap(a, |a|)
  }

  lemma {:induction false} PrefixMapEntries(a: VectorClock, n: nat)
    requires n <= |a| && Distinct(a)
    ensures forall i :: 0 <= i < n ==> a[i].nodeId in PrefixMap(a, n) && PrefixMap(a, n)[a[i].nodeId] == TickOf(a[i])
    ensures forall id :: id in PrefixMap(a, n) ==> exists i :: 0 <= i < n && a[i].nodeId == id
  {
    if n == 0 {
    } else {
      PrefixMapEntries(a, n - 1);
      assert a[n-1].nodeId in PrefixMap(a, n);
    }
  }

  lemma AsMapEntries(a: VectorClock)
    requires Distinct(a)
    ensures forall i :: 0 <= i < |a| ==> a[i].nodeId in AsMap(a) && AsMap(a)[a[i].nodeId] == TickOf(a[i])
    ensures forall id :: id in AsMap(a) ==> exists i :: 0 <= i < |a| && a[i].nodeId == id
  {
    PrefixMapEntries(a, |a|);
  }

  /** The nodes on which the first clock is strictly behind the second. */
  ghost function Behind(m: map<U32, Tick>, n: map<U32, Tick>): set<U32> {
    set id | id in m && id in n && Earlier(m[id], n[id])
  }

  ghost predicate Majority(m: map<U32, Tick>, n: map<U32, Tick>) {
    |Behind(m, n)| > |Behind(n, m)|
  }

  /** The component order: the same nodes, and nowhere ahead. */
  ghost predicate AtMost(m: map<U32, Tick>, n: map<U32, Tick>) {
    m.Keys == n.Keys && Behind(n, m) == {}
  }

  /** Adding one node to a clock adds at most that node to the sets of nodes behind. */
  lemma ExtendLeft(m: map<U32, Tick>, n: map<U32, Tick>, id: U32, t: Tick)
    requires id !in m
    ensures |Behind(m[id := t], n)| == |Behind(m, n)| + if id in n && Earlier(t, n[id]) then 1 else 0
  {
    var s, s' := Behind(m, n), Behind(m[id := t], n);
    assert s' - {id} == s;
  }

  lemma ExtendRight(m: map<U32, Tick>, n: map<U32, Tick>, id: U32, t: Tick)
    requires id !in m
    ensures |Behind(n, m[id := t])| == |Behind(n, m)| + if id in n && Earlier(n[id], t) then 1 else 0
  {
    var s, s' := Behind(n, m), Behind(n, m[id := t]);
    assert s' - {id} == s;
  }

  lemma LookupInMap(b: VectorClock, id: U32)
    requires Distinct(b)
    ensures id in AsMap(b) <==> FirstMatch(b, id) < |b|
    ensures id in AsMap(b) ==> AsMap(b)[id] == TickOf(b[FirstMatch(b, id)])
  {
    AsMapEntries(b);
  }

  lemma NewEntry(a: VectorClock, n: nat)
    requires 0 < n <= |a| && Distinct(a)
    ensures a[n-1].nodeId !in PrefixMap(a, n - 1)
  {
    PrefixMapEntries(a, n - 1);
  }

  lemma {:induction false} CountsAreBehindSets(a: VectorClock, b: VectorClock, n: nat)
    requires n <= |a| && Distinct(a) && Distinct(b)
    ensures LeftBehind(a, b, n) == |Behind(PrefixMap(a, n), AsMap(b))|
    ensures RightBehind(a, b, n) == |Behind(AsMap(b), PrefixMap(a, n))|
  {
    if n == 0 {
    } else {
      CountsAreBehindSets(a, b, n - 1);
      LookupInMap(b, a[n-1].nodeId);
      NewEntry(a, n);
      ExtendLeft(PrefixMap(a, n - 1), AsMap(b), a[n-1].nodeId, TickOf(a[n-1]));
      ExtendRight(PrefixMap(a, n - 1), AsMap(b), a[n-1].nodeId, TickOf(a[n-1]));
    }
  }

  /** The nested loop is the majority vote of the two maps. */
  lemma LessIsMajority(a: VectorClock, b: VectorClock)
    requires Distinct(a) && Distinct(b)
    ensures Less(a, b) <==> Majority(AsMap(a), AsMap(b))
  {
    CountsAreBehindSets(a, b, |a|);
  }

  lemma {:induction false} OccursOnce(a: VectorClock, c: NodeClock)
    requires Distinct(a)
    ensures multiset(a)[c] <= 1
  {
    if a == [] {
    } else {
      OccursOnce(a[..|a|-1], c);
      assert a == a[..|a|-1] + [a[|a|-1]];
    }
  }

  lemma PermutedStaysDistinct(a: VectorClock, b: VectorClock)
    requires Distinct(a) && multiset(a) == multiset(b)
    ensures Distinct(b)
  {
    forall i, j | 0 <= i < j < |b|
      ensures b[i].nodeId != b[j].nodeId
    {
      assert b[i] in multiset(a) && b[j] in multiset(a);
      assert b == b[..i] + [b[i]] + b[i+1..j] + [b[j]] + b[j+1..];
      OccursOnce(a, b[i]);
    }
  }

  lemma SameEntriesSameMap(a: VectorClock, b: VectorClock)
    requires Distinct(a) && Distinct(b) && multiset(a) == multiset(b)
    ensures AsMap(a) == AsMap(b)
  {
    AsMapEntries(a);
    AsMapEntries(b);
    forall i | 0 <= i < |a|
      ensures a[i].nodeId in AsMap(b) && AsMap(b)[a[i].nodeId] == TickOf(a[i])
    {
      assert a[i] in multiset(b);
    }
    forall i | 0 <= i < |b|
      ensures b[i].nodeId in AsMap(a)
    {
      assert b[i] in multiset(a);
    }
  }

  /** Permuting the entries of either clock does not change the comparison. */
  lemma LessIgnoresEntryOrder(a: VectorClock, b: VectorClock, a': VectorClock, b': VectorClock)
    requires Distinct(a) && Distinct(b)
    requires multiset(a) == multiset(a') && multiset(b) == multiset(b')
    ensures Less(a, b) <==> Less(a', b')
  {
    PermutedStaysDistinct(a, a');
    PermutedStaysDistinct(b, b');
    SameEntriesSameMap(a, a');
    SameEntriesSameMap(b, b');
    LessIsMajority(a, b);
    LessIsMajority(a', b');
  }

  lemma LessIrreflexiveAndAsymmetric(a: VectorClock, b: VectorClock)
    requires Distinct(a) && Distinct(b)
    ensures !Less(a, a)
    ensures !(Less(a, b) && Less(b, a))
  {
    LessIsMajority(a, a);
    LessIsMajority(a, b);
    LessIsMajority(b, a);
  }

  /** On comparable clocks the majority vote is the strict component order. */
  lemma LessOnComparable(a: VectorClock, b: VectorClock)
    requires Distinct(a) && Distinct(b)
    requires AtMost(AsMap(a), AsMap(b)) || AtMost(AsMap(b), AsMap(a))
    ensures Less(a, b) <==> AtMost(AsMap(a), AsMap(b)) && AsMap(a) != AsMap(b)
  {
    LessIsMajority(a, b);
    var m, n := AsMap(a), AsMap(b);
    if Behind(m, n) == {} && Behind(n, m) == {} {
      forall id | id in m ensures m[id] == n[id] {
        assert id !in Behind(m, n) && id !in Behind(n, m);
      }
      assert m == n;
    }
    if AtMost(m, n) && AtMost(n, m) {
      assert m == n;
    }
    if m != n && AtMost(m, n) {
      assert Behind(m, n) != {};
    }
  }

  lemma AtMostTransitive(m: map<U32, Tick>, n: map<U32, Tick>, o: map<U32, Tick>)
    requires AtMost(m, n) && AtMost(n, o)
    ensures AtMost(m, o)
    ensures m == o ==> m == n
  {
    forall id | id in m
      ensures !Earlier(o[id], m[id]) && !Earlier(n[id], m[id]) && !Earlier(o[id], n[id])
    {
      assert id !in Behind(n, m) && id !in Behind(o, n);
    }
    if m == o {
      assert forall id :: id in m ==> m[id] == n[id];
    }
  }

  ghost predicate Chain(clocks: set<VectorClock>) {
    && (forall a :: a in clocks ==> Distinct(a))
    && (forall a, b :: a in clocks && b in clocks ==>
          AtMost(AsMap(a), AsMap(b)) || AtMost(AsMap(b), AsMap(a)))
  }

  /** A strict total order on every set of pairwise comparable clocks. */
  lemma LessTotalOnChains(clocks: set<VectorClock>, a: VectorClock, b: VectorClock, c: VectorClock)
    requires Chain(clocks) && a in clocks && b in clocks && c in clocks
    ensures Less(a, b) || Less(b, a) || AsMap(a) == AsMap(b)
    ensures AsMap(a) == AsMap(b) ==> !Less(a, b)
    ensures Less(a, b) && Less(b, c) ==> Less(a, c)
  {
    LessOnComparable(a, b);
    LessOnComparable(b, a);
    LessOnComparable(b, c);
    LessOnComparable(a, c);
    if Less(a, b) && Less(b, c) {
      AtMostTransitive(AsMap(a), AsMap(b), AsMap(c));
    }
  }

  /** What a container ordered by the comparison needs: no two clocks are less than each other,
      and none that is less than another passes over a third. */
  ghost predicate WeakOrder(clocks: set<VectorClock>) {
    && (forall a, b :: a in clocks && b in clocks && Less(a, b) ==> !Less(b, a))
    && (forall a, b, c :: a in clocks && b in clocks && c in clocks && Less(a, c) ==> Less(a, b) || Less(b, c))
  }

  lemma ChainIsWeakOrder(clocks: set<VectorClock>)
    requires Chain(clocks)
    ensures WeakOrder(clocks)
  {
    forall a, b | a in clocks && b in clocks && Less(a, b) ensures !Less(b, a) {
      LessIrreflexiveAndAsymmetric(a, b);
    }
    forall a, b, c | a in clocks && b in clocks && c in clocks && Less(a, c)
      ensures Less(a, b) || Less(b, c)
    {
      LessTotalOnChains(clocks, a, b, c);
      LessTotalOnChains(clocks, b, a, c);
      LessIsMajority(a, c);
      LessIsMajority(b, c);
    }
  }

  /** In general the majority vote has cycles, even between clocks of one quorum. */
  lemma MajorityCycle(x: U32, y: U32, z: U32)
    requires x != y && y != z && x != z
    ensures var a := [NodeClock(x, 1, 1), NodeClock(y, 1, 2), NodeClock(z, 1, 3)];
            var b := [NodeClock(x, 1, 2), NodeClock(y, 1, 3), NodeClock(z, 1, 1)];
            var c := [NodeClock(x, 1, 3), NodeClock(y, 1, 1), NodeClock(z, 1, 2)];
            Less(a, b) && Less(b, c) && Less(c, a)
  {
    var a := [NodeClock(x, 1, 1), NodeClock(y, 1, 2), NodeClock(z, 1, 3)];
    var b := [NodeClock(x, 1, 2), NodeClock(y, 1, 3), NodeClock(z, 1, 1)];
    var c := [NodeClock(x, 1, 3), NodeClock(y, 1, 1), NodeClock(z, 1, 2)];
    TwoComponentsDecide(a, b, 0, 1);
    TwoComponentsDecide(b, c, 0, 2);
    TwoComponentsDecide(c, a, 1, 2);
  }

  /** Two clocks that are each ahead of the other on one node tie: neither is less. */
  lemma MajorityTie(a: VectorClock, b: VectorClock)
    requires |a| == 3 && Aligned(a, b) && Distinct(a)
    requires Earlier(TickOf(a[0]), TickOf(b[0])) && Earlier(TickOf(b[1]), TickOf(a[1])) && a[2] == b[2]
    ensures a != b && !Less(a, b) && !Less(b, a)
  {
    forall k: nat | k < 3
      ensures FirstMatch(b, a[k].nodeId) == k && FirstMatch(a, b[k].nodeId) == k
    {
      AlignedMatch(a, b, k);
      AlignedMatch(b, a, k);
    }
    LessOfThree(a, b);
    LessOfThree(b, a);
  }

  /** operator> is the mirror image of operator< except on ties of different clocks,
      where it holds in both directions. */
  lemma GreaterMirrorsLess(a: VectorClock, b: VectorClock)
    requires Distinct(a) && Distinct(b)
    ensures (Greater(a, b) <==> Less(b, a)) <==>
            (a == b || |Behind(AsMap(a), AsMap(b))| != |Behind(AsMap(b), AsMap(a))|)
  {
    LessIsMajority(a, b);
    LessIsMajority(b, a);
  }

  // ---- Aligned clocks of three replicas, and the maximum ----

  /** Both clocks list the same nodes at the same positions. */
  predicate Aligned(a: VectorClock, b: VectorClock) {
    |a| == |b| && forall i :: 0 <= i < |a| ==> a[i].nodeId == b[i].nodeId
  }

  lemma AlignedMatch(a: VectorClock, b: VectorClock, i: nat)
    requires Aligned(a, b) && Distinct(a) && i < |a|
    ensures FirstMatch(b, a[i].nodeId) == i
  {
    assert b[i].nodeId == a[i].nodeId;
    assert FirstMatch(b, a[i].nodeId) <= i;
    assert forall j :: 0 <= j < i ==> b[j].nodeId == a[j].nodeId != a[i].nodeId;
  }

  /** Two strictly later components out of three outvote whatever the third says. */
  lemma TwoComponentsDecide(a: VectorClock, b: VectorClock, i: nat, j: nat)
    requires |a| == 3 && Aligned(a, b) && Distinct(a)
    requires i < 3 && j < 3 && i != j
    requires Earlier(TickOf(a[i]), TickOf(b[i])) && Earlier(TickOf(a[j]), TickOf(b[j]))
    ensures Less(a, b) && !Less(b, a)
  {
    forall k: nat | k < 3
      ensures FirstMatch(b, a[k].nodeId) == k && FirstMatch(a, b[k].nodeId) == k
    {
      AlignedMatch(a, b, k);
      AlignedMatch(b, a, k);
    }
    assert {i, j} <= {0, 1, 2};
    LessOfThree(a, b);
    LessOfThree(b, a);
  }

  lemma LessOfThree(a: VectorClock, b: VectorClock)
    requires |a| == 3 && |b| == 3
    requires forall k :: 0 <= k < 3 ==> FirstMatch(b, a[k].nodeId) == k
    ensures LeftBehind(a, b, 3) ==
            (if Earlier(TickOf(a[0]), TickOf(b[0])) then 1 else 0)
            + (if Earlier(TickOf(a[1]), TickOf(b[1])) then 1 else 0)
            + (if Earlier(TickOf(a[2]), TickOf(b[2])) then 1 else 0)
    ensures RightBehind(a, b, 3) ==
            (if Earlier(TickOf(b[0]), TickOf(a[0])) then 1 else 0)
            + (if Earlier(TickOf(b[1]), TickOf(a[1])) then 1 else 0)
            + (if Earlier(TickOf(b[2]), TickOf(a[2])) then 1 else 0)
  {
    assert LeftBehind(a, b, 1) == if Earlier(TickOf(a[0]), TickOf(b[0])) then 1 else 0;
    assert RightBehind(a, b, 1) == if Earlier(TickOf(b[0]), TickOf(a[0])) then 1 else 0;
    assert LeftBehind(a, b, 2) == LeftBehind(a, b, 1)
      + if Earlier(TickOf(a[1]), TickOf(b[1])) then 1 else 0;
    assert RightBehind(a, b, 2) == RightBehind(a, b, 1)
      + if Earlier(TickOf(b[1]), TickOf(a[1])) then 1 else 0;
  }

  function MaxClock(a: NodeClock, b: NodeClock): NodeClock {
    if Earlier(TickOf(a), TickOf(b)) then b else a
  }

  /** vector_clock::max on clocks of one quorum. */
  function Join(a: VectorClock, b: VectorClock): (r: VectorClock)
    requires Aligned(a, b)
    ensures |r| == |a|
  {
    seq(|a|, i requires 0 <= i < |a| => MaxClock(a[i], b[i]))
  }

  /** vector_clock::max: check the ids, then fill the result. */
  method Max(a: VectorClock, b: VectorClock) returns (r: Result<VectorClock, ClockError>)
    requires |a| == |b|
    ensures Aligned(a, b) ==> r == Success(Join(a, b))
    ensures !Aligned(a, b) ==> r == Failure(ComparisonError)
  {
    var i := 0;
    while i < |a|
      invariant 0 <= i <= |a|
      invariant forall k :: 0 <= k < i ==> a[k].nodeId == b[k].nodeId
    {
      if a[i].nodeId != b[i].nodeId {
        return Failure(ComparisonError);
      }
      i := i + 1;
    }
    var result: VectorClock := [];
    i := 0;
    while i < |a|
      invariant 0 <= i <= |a|
      invariant result == Join(a, b)[..i]
    {
      result := result + [MaxClock(a[i], b[i])];
      i := i + 1;
    }
    assert Join(a, b)[..|a|] == Join(a, b);
    return Success(result);
  }

  /** Component order on aligned clocks. */
  ghost predicate Below(a: VectorClock, b: VectorClock) {
    Aligned(a, b) && forall i :: 0 <= i < |a| ==> !Earlier(TickOf(b[i]), TickOf(a[i]))
  }

  /** max is the least upper bound of the component order. */
  lemma JoinIsLeastUpperBound(a: VectorClock, b: VectorClock, c: VectorClock)
    requires Aligned(a, b)
    ensures Below(a, Join(a, b)) && Below(b, Join(a, b))
    ensures Below(a, c) && Below(b, c) ==> Below(Join(a, b), c)
    ensures Below(a, b) && Below(b, a) ==> a == b
  {
    if Below(a, b) && Below(b, a) {
      forall i | 0 <= i < |a| ensures a[i] == b[i] {
        assert TickOf(a[i]) == TickOf(b[i]);
      }
    }
  }

  lemma JoinIsSemilattice(a: VectorClock, b: VectorClock, c: VectorClock)
    requires Aligned(a, b) && Aligned(b, c)
    ensures Join(a, b) == Join(b, a)
    ensures Join(a, Join(b, c)) == Join(Join(a, b), c)
    ensures Join(a, a) == a
  {
    var l, r := Join(a, b), Join(b, a);
    forall i | 0 <= i < |a| ensures l[i] == r[i] {
      assert TickOf(a[i]) == TickOf(b[i]) ==> a[i] == b[i];
    }
  }

  /** Each argument of max is the result or majority-less than it. */
  lemma JoinDominates(a: VectorClock, b: VectorClock)
    requires Aligned(a, b) && Distinct(a)
    ensures a == Join(a, b) || Less(a, Join(a, b))
    ensures b == Join(a, b) || Less(b, Join(a, b))
  {
    JoinIsLeastUpperBound(a, b, a);
    BelowIsLess(a, Join(a, b));
    BelowIsLess(b, Join(a, b));
  }

  lemma BelowIsLess(a: VectorClock, b: VectorClock)
    requires Below(a, b) && Distinct(a)
    ensures a == b || Less(a, b)
  {
    var m, n := AsMap(a), AsMap(b);
    AsMapEntries(a);
    AsMapEntries(b);
    assert m.Keys == n.Keys by {
      forall id | id in m ensures id in n { var i :| 0 <= i < |a| && a[i].nodeId == id; assert b[i].nodeId == id; }
      forall id | id in n ensures id in m { var i :| 0 <= i < |b| && b[i].nodeId == id; assert a[i].nodeId == id; }
    }
    forall id | id in m ensures !Earlier(n[id], m[id]) {
      var i :| 0 <= i < |a| && a[i].nodeId == id;
      assert b[i].nodeId == id;
    }
    assert Behind(n, m) == {};
    LessOnComparable(a, b);
    if m == n {
      forall i | 0 <= i < |a| ensures a[i] == b[i] {
        assert m[a[i].nodeId] == n[b[i].nodeId];
      }
    }
  }
}
