/** The ring: consistent hashing of 128-bit keys with wrap-around.  The ordered
    map from range start to node is the sequence of its values in key order, and an
    iterator is a position in it. */
module Ring {
  import opened Wrappers

  const TWO_128: nat := 0x1_0000_0000_0000_0000_0000_0000_0000_0000

  type Key = x: nat | x < 0x1_0000_0000_0000_0000_0000_0000_0000_0000

  datatype Node = Node(id: U32, start: Key)

  datatype RingError = IdConflict | RangeConflict | Unavailable

  ghost predicate Sorted(s: seq<Node>) {
    forall i, j :: 0 <= i < j < |s| ==> s[i].start < s[j].start
  }

  // ---- Lookup, as the iterators do it ----

  /** upper_bound: the first position whose start is above the key. */
  function UpperBound(s: seq<Node>, key: Key): (p: nat)
    ensures p <= |s|
    ensures forall i :: 0 <= i < p ==> s[i].start <= key
    ensures p < |s| ==> key < s[p].start
  {
    if s == [] || key < s[0].start then 0 else 1 + UpperBound(s[1..], key)
  }

  function SecondaryPos(s: seq<Node>, key: Key): (p: nat)
    requires s != []
    ensures p < |s|
  {
    var iter := UpperBound(s, key);
    if iter == |s| then 0 else iter
  }

  function PrimaryPos(s: seq<Node>, secondary: nat): (p: nat)
    requires secondary < |s|
    ensures p < |s|
  {
    if secondary == 0 then |s| - 1 else secondary - 1
  }

  function TertiaryPos(s: seq<Node>, secondary: nat): (p: nat)
    requires secondary < |s|
    ensures p < |s|
  {
    if secondary + 1 == |s| then 0 else secondary + 1
  }

  function Primary(s: seq<Node>, key: Key): Node
    requires s != []
  {
    s[PrimaryPos(s, SecondaryPos(s, key))]
  }

  /** find_nodes_for_key on a ring that is not empty. */
  function Replicas(s: seq<Node>, key: Key): (r: seq<Node>)
    requires s != []
    ensures |r| == 3
  {
    var secondary := SecondaryPos(s, key);
    [s[PrimaryPos(s, secondary)], s[secondary], s[TertiaryPos(s, secondary)]]
  }

  // ---- The reference: positions on a circle of 2^128 keys ----

  /** The clockwise way from a to b. */
  function Clockwise(a: Key, b: Key): Key {
    if a <= b then b - a else b - a + TWO_128
  }

  /** How far clockwise after the key a node starts; a node that starts at the key comes last. */
  function Rank(key: Key, n: Node): nat {
    if n.start == key then TWO_128 else Clockwise(key, n.start)
  }

  ghost predicate IsFarthest(nodes: set<Node>, key: Key, n: Node) {
    n in nodes && forall m :: m in nodes && m != n ==> Rank(key, m) < Rank(key, n)
  }

  ghost predicate IsNearest(nodes: set<Node>, key: Key, n: Node) {
    n in nodes && forall m :: m in nodes && m != n ==> Rank(key, n) < Rank(key, m)
  }

  ghost function NodesOf(s: seq<Node>): set<Node> {
    set n | n in s
  }

  /** The place of position i when the ring is walked clockwise from the key. */
  ghost function Place(s: seq<Node>, key: Key, i: nat): (p: nat)
    requires i < |s|
    ensures p < |s|
  {
    var u := UpperBound(s, key);
    if i < u then i + |s| - u else i - u
  }

  lemma PlaceIsRankOrder(s: seq<Node>, key: Key, i: nat, j: nat)
    requires Sorted(s) && i < |s| && j < |s|
    ensures Place(s, key, i) < Place(s, key, j) <==> Rank(key, s[i]) < Rank(key, s[j])
  {
    RankAt(s, key, i);
    RankAt(s, key, j);
    assert i < j ==> s[i].start < s[j].start;
    assert j < i ==> s[j].start < s[i].start;
  }

  lemma RankAt(s: seq<Node>, key: Key, i: nat)
    requires Sorted(s) && i < |s|
    ensures Rank(key, s[i]) == s[i].start - key + if i < UpperBound(s, key) then TWO_128 else 0
  {
    var u := UpperBound(s, key);
    if u < i {
      assert s[u].start < s[i].start;
    }
  }

  /** Three cyclically consecutive nodes: the last one before or at the key going round,
      and the first two after it. */
  ghost predicate AreReplicas(nodes: set<Node>, key: Key, r: seq<Node>) {
    && |r| == 3
    && IsFarthest(nodes, key, r[0])
    && IsNearest(nodes, key, r[1])
    && if nodes == {r[1]} then r[2] == r[1] else IsNearest(nodes - {r[1]}, key, r[2])
  }

  lemma FarthestAt(s: seq<Node>, key: Key, p: nat)
    requires Sorted(s) && p < |s| && Place(s, key, p) == |s| - 1
    ensures IsFarthest(NodesOf(s), key, s[p])
  {
    forall m | m in NodesOf(s) && m != s[p] ensures Rank(key, m) < Rank(key, s[p]) {
      var i :| 0 <= i < |s| && s[i] == m;
      PlaceIsRankOrder(s, key, i, p);
    }
  }

  lemma NearestAt(s: seq<Node>, key: Key, q: nat)
    requires Sorted(s) && q < |s| && Place(s, key, q) == 0
    ensures IsNearest(NodesOf(s), key, s[q])
  {
    forall m | m in NodesOf(s) && m != s[q] ensures Rank(key, s[q]) < Rank(key, m) {
      var i :| 0 <= i < |s| && s[i] == m;
      PlaceIsRankOrder(s, key, q, i);
    }
  }

  lemma NextNearestAt(s: seq<Node>, key: Key, q: nat, t: nat)
    requires Sorted(s) && q < |s| && t < |s| && Place(s, key, q) == 0 && Place(s, key, t) == 1
    ensures s[t] != s[q] && IsNearest(NodesOf(s) - {s[q]}, key, s[t])
  {
    PlaceIsRankOrder(s, key, q, t);
    forall m | m in NodesOf(s) - {s[q]} && m != s[t] ensures Rank(key, s[t]) < Rank(key, m) {
      var i :| 0 <= i < |s| && s[i] == m;
      PlaceIsRankOrder(s, key, t, i);
    }
  }

  /** find_nodes_for_key finds them. */
  lemma ReplicasAreCyclic(s: seq<Node>, key: Key)
    requires s != [] && Sorted(s)
    ensures AreReplicas(NodesOf(s), key, Replicas(s, key))
  {
    var q := SecondaryPos(s, key);
    var p, t := PrimaryPos(s, q), TertiaryPos(s, q);
    FarthestAt(s, key, p);
    NearestAt(s, key, q);
    if |s| > 1 {
      NextNearestAt(s, key, q, t);
    }
    assert s[q] in NodesOf(s) && s[t] in NodesOf(s);
    assert |s| == 1 ==> NodesOf(s) == {s[q]};
  }

  /** The primary is the node with the greatest start not above the key, or the greatest
      start of all if there is none: each node serves from its start up to the next one. */
  lemma PrimaryServesRange(s: seq<Node>, key: Key, n: Node)
    requires s != [] && Sorted(s) && n in s
    ensures Primary(s, key) == n <==>
            if exists m :: m in s && m.start <= key
            then n.start <= key && forall m :: m in s && m.start <= key ==> m.start <= n.start
            else forall m :: m in s ==> m.start <= n.start
  {
    ReplicasAreCyclic(s, key);
    var p := Primary(s, key);
    assert p in NodesOf(s) && n in NodesOf(s);
    forall m | m in s && m != p
      ensures m.start <= key ==> m.start < p.start && p.start <= key
      ensures key < m.start && key < p.start ==> m.start < p.start
    {
      assert m in NodesOf(s);
      assert Rank(key, m) < Rank(key, p);
    }
  }

  /** With at least three nodes the replicas are three different nodes. */
  lemma ReplicasDistinct(s: seq<Node>, key: Key)
    requires |s| >= 3 && Sorted(s)
    ensures var r := Replicas(s, key);
            && r[0].start != r[1].start && r[1].start != r[2].start && r[0].start != r[2].start
            && r[0] in s && r[1] in s && r[2] in s
  {
  }

  // ---- The order in which nodes join does not matter ----

  lemma {:induction false} SortedIsUnique(s: seq<Node>, t: seq<Node>)
    requires Sorted(s) && Sorted(t) && NodesOf(s) == NodesOf(t)
    ensures s == t
  {
    NoNodesIsEmpty(s);
    NoNodesIsEmpty(t);
    if s == [] {
    } else {
      SameFirst(s, t);
      TailNodes(s);
      TailNodes(t);
      SortedIsUnique(s[1..], t[1..]);
      assert s == [s[0]] + s[1..] && t == [t[0]] + t[1..];
    }
  }

  lemma SameFirst(s: seq<Node>, t: seq<Node>)
    requires Sorted(s) && Sorted(t) && NodesOf(s) == NodesOf(t) && s != [] && t != []
    ensures s[0] == t[0]
  {
    assert s[0] in NodesOf(t) && t[0] in NodesOf(s);
    var i :| 0 <= i < |s| && s[i] == t[0];
    var j :| 0 <= j < |t| && t[j] == s[0];
  }

  lemma NoNodesIsEmpty(s: seq<Node>)
    ensures s == [] <==> NodesOf(s) == {}
  {
    if s != [] {
      assert s[0] in NodesOf(s);
    }
  }

  lemma TailNodes(s: seq<Node>)
    requires s != [] && Sorted(s)
    ensures NodesOf(s[1..]) == NodesOf(s) - {s[0]}
  {
    forall n | n in s && n != s[0] ensures n in s[1..] {
      var i :| 0 <= i < |s| && s[i] == n;
      assert s[1..][i-1] == n;
    }
  }

  // ---- Adding a node ----

  /** emplace into the ordered map. */
  function Insert(s: seq<Node>, x: Node): seq<Node> {
    var p := UpperBound(s, x.start);
    s[..p] + [x] + s[p..]
  }

  lemma InsertKeepsOrder(s: seq<Node>, x: Node)
    requires Sorted(s) && (forall n :: n in s ==> n.start != x.start)
    ensures Sorted(Insert(s, x)) && |Insert(s, x)| == |s| + 1
    ensures NodesOf(Insert(s, x)) == NodesOf(s) + {x}
  {
    InsertSorts(s, x, UpperBound(s, x.start));
    InsertHolds(s, x, UpperBound(s, x.start));
  }

  lemma InsertSorts(s: seq<Node>, x: Node, p: nat)
    requires Sorted(s) && p <= |s|
    requires forall i :: 0 <= i < p ==> s[i].start <= x.start
    requires p < |s| ==> x.start < s[p].start
    requires forall n :: n in s ==> n.start != x.start
    ensures Sorted(s[..p] + [x] + s[p..])
  {
    var t := s[..p] + [x] + s[p..];
    forall i | 0 <= i < |s|
      ensures i < p ==> s[i].start < x.start
      ensures p <= i ==> x.start < s[i].start
    {
      assert s[i] in s;
      if p < i { assert s[p].start < s[i].start; }
    }
    forall i, j | 0 <= i < j < |t| ensures t[i].start < t[j].start {
      assert t[i] == if i < p then s[i] else if i == p then x else s[i-1];
      assert t[j] == if j < p then s[j] else if j == p then x else s[j-1];
    }
  }

  lemma InsertHolds(s: seq<Node>, x: Node, p: nat)
    requires p <= |s|
    ensures NodesOf(s[..p] + [x] + s[p..]) == NodesOf(s) + {x}
  {
    assert s == s[..p] + s[p..];
    forall n ensures n in s[..p] + [x] + s[p..] <==> n in s || n == x {
      assert n in s <==> n in s[..p] || n in s[p..];
    }
  }

  lemma FarthestAfterAdd(nodes: set<Node>, x: Node, key: Key, a: Node, b: Node)
    requires IsFarthest(nodes, key, a) && IsFarthest(nodes + {x}, key, b)
    requires x !in nodes && Rank(key, x) != Rank(key, a)
    ensures b == if Rank(key, x) > Rank(key, a) then x else a
  {
    assert a in nodes + {x} && x in nodes + {x};
  }

  lemma NearestAfterAdd(nodes: set<Node>, x: Node, key: Key, a: Node, b: Node)
    requires IsNearest(nodes, key, a) && IsNearest(nodes + {x}, key, b)
    requires x !in nodes && Rank(key, x) != Rank(key, a)
    ensures b == if Rank(key, x) < Rank(key, a) then x else a
  {
    assert a in nodes + {x} && x in nodes + {x};
  }

  lemma NearestIsUnique(nodes: set<Node>, key: Key, a: Node, b: Node)
    requires IsNearest(nodes, key, a) && IsNearest(nodes, key, b)
    ensures a == b
  {
  }

  /** Which replicas change when a node is added, role by role. */
  lemma AddByRank(nodes: set<Node>, x: Node, key: Key, a: seq<Node>, b: seq<Node>)
    requires AreReplicas(nodes, key, a) && AreReplicas(nodes + {x}, key, b)
    requires a[0] != a[2] && a[1] != a[2] && (forall n :: n in nodes ==> Rank(key, n) != Rank(key, x))
    ensures if Rank(key, x) > Rank(key, a[0]) then b == [x, a[1], a[2]]
            else if Rank(key, x) < Rank(key, a[1]) then b == [a[0], x, a[1]]
            else if Rank(key, x) < Rank(key, a[2]) then b == [a[0], a[1], x]
            else b == a
  {
    FarthestAfterAdd(nodes, x, key, a[0], b[0]);
    NearestAfterAdd(nodes, x, key, a[1], b[1]);
    assert a[2] in nodes;
    if Rank(key, x) < Rank(key, a[1]) {
      assert nodes + {x} - {x} == nodes;
      NearestIsUnique(nodes, key, a[1], b[2]);
    } else {
      assert nodes + {x} - {a[1]} == nodes - {a[1]} + {x};
      NearestAfterAdd(nodes - {a[1]}, x, key, a[2], b[2]);
    }
    assert Rank(key, a[1]) < Rank(key, a[2]) < Rank(key, a[0]);
  }

  /** Two ranks agree only if the starts do. */
  lemma RankByClockwise(key: Key, n: Node)
    ensures Rank(key, n) == TWO_128 - Clockwise(n.start, key)
  {
  }

  lemma NewRank(s: seq<Node>, x: Node, key: Key)
    requires forall n :: n in s ==> n.start != x.start
    ensures forall n :: n in NodesOf(s) ==> Rank(key, n) != Rank(key, x)
  {
    forall n | n in NodesOf(s) ensures Rank(key, n) != Rank(key, x) {
      RankByClockwise(key, n);
      RankByClockwise(key, x);
    }
  }

  lemma ReplaceOne(a: seq<Node>, b: seq<Node>, x: Node)
    requires |a| == 3 && a[0] != a[1] && a[1] != a[2] && a[0] != a[2] && x !in a
    requires b == a || b == [x, a[1], a[2]] || b == [a[0], x, a[1]] || b == [a[0], a[1], x]
    ensures NodesOf(b) == NodesOf(a) || exists gone :: gone in NodesOf(a) && NodesOf(b) == NodesOf(a) - {gone} + {x}
  {
    assert NodesOf(a) == {a[0], a[1], a[2]} && NodesOf(b) == {b[0], b[1], b[2]};
    if b == [x, a[1], a[2]] {
      assert NodesOf(b) == NodesOf(a) - {a[0]} + {x};
    } else if b != a {
      assert NodesOf(b) == NodesOf(a) - {a[2]} + {x};
    }
  }

  /** A key's replicas stay the same, or the new node takes the place of exactly one of them. */
  lemma AddMovesAtMostOne(s: seq<Node>, x: Node, key: Key)
    requires |s| >= 3 && Sorted(s) && (forall n :: n in s ==> n.start != x.start)
    ensures var before, after := NodesOf(Replicas(s, key)), NodesOf(Replicas(Insert(s, x), key));
            after == before || exists gone :: gone in before && after == before - {gone} + {x}
  {
    var a, b := Replicas(s, key), Replicas(Insert(s, x), key);
    InsertKeepsOrder(s, x);
    ReplicasAreCyclic(s, key);
    ReplicasAreCyclic(Insert(s, x), key);
    ReplicasDistinct(s, key);
    NewRank(s, x, key);
    AddByRank(NodesOf(s), x, key, a, b);
    ReplaceOne(a, b, x);
  }

  /** A key moves to the new node exactly when it lies in the arc from the new start to the
      next node clockwise; every other key keeps its primary. */
  lemma AddMovesArc(s: seq<Node>, x: Node, key: Key)
    requires s != [] && Sorted(s) && (forall n :: n in s ==> n.start != x.start)
    ensures var next := Replicas(s, x.start)[1];
            var inArc := Clockwise(x.start, key) < Clockwise(x.start, next.start);
            Primary(Insert(s, x), key) == if inArc then x else Primary(s, key)
  {
    InsertKeepsOrder(s, x);
    ReplicasAreCyclic(s, key);
    ReplicasAreCyclic(Insert(s, x), key);
    ReplicasAreCyclic(s, x.start);
    NewRank(s, x, key);
    PrimaryAfterAdd(NodesOf(s), x, key, Replicas(s, key), Replicas(Insert(s, x), key), Replicas(s, x.start));
  }

  lemma PrimaryAfterAdd(nodes: set<Node>, x: Node, key: Key, a: seq<Node>, b: seq<Node>, c: seq<Node>)
    requires AreReplicas(nodes, key, a) && AreReplicas(nodes + {x}, key, b) && AreReplicas(nodes, x.start, c)
    requires forall n :: n in nodes ==> n.start != x.start && Rank(key, n) != Rank(key, x)
    ensures b[0] == if Clockwise(x.start, key) < Clockwise(x.start, c[1].start) then x else a[0]
  {
    FarthestAfterAdd(nodes, x, key, a[0], b[0]);
    RankByClockwise(key, x);
    RankByClockwise(key, a[0]);
    RankByClockwise(key, c[1]);
    BetweenOnCircle(x.start, key, c[1].start, a[0].start);
  }

  /** With next the first start clockwise after x, and p the last start before the key,
      x is nearer before the key than p exactly when the key comes before next. */
  lemma BetweenOnCircle(x: Key, key: Key, next: Key, p: Key)
    requires x != next && x != p
    requires Clockwise(x, next) <= Clockwise(x, p)
    requires Clockwise(p, key) <= Clockwise(next, key)
    ensures Clockwise(x, key) < Clockwise(p, key) <==> Clockwise(x, key) < Clockwise(x, next)
  {
  }

  // ---- The quorum for one operation ----

  /** A shuffle of three positions. */
  predicate IsShuffle(p: seq<nat>) {
    |p| == 3 && p[0] < 3 && p[1] < 3 && p[2] < 3 && p[0] != p[1] && p[1] != p[2] && p[0] != p[2]
  }

  function Live(r: seq<Node>, alive: Node -> bool): nat
    requires |r| == 3
  {
    (if alive(r[0]) then 1 else 0) + (if alive(r[1]) then 1 else 0) + (if alive(r[2]) then 1 else 0)
  }

  /** The first two entries, when both are there. */
  ghost function FirstTwo(out: seq<Option<Node>>): set<Node> {
    set i | 0 <= i < 2 && i < |out| && out[i].Some? :: out[i].value
  }

  ghost predicate AllDifferent(r: seq<Node>) {
    |r| == 3 && r[0] != r[1] && r[1] != r[2] && r[0] != r[2]
  }

  /** Exactly the live replicas, none twice; of three different replicas two come first. */
  ghost predicate GoodQuorum(r: seq<Node>, alive: Node -> bool, out: seq<Option<Node>>) {
    && |out| == 3
    && (forall n :: Some(n) in out <==> n in r && alive(n))
    && (forall i, j :: 0 <= i < j < 3 && out[i].Some? ==> out[i] != out[j])
    && (AllDifferent(r) ==> out[0].Some? && out[1].Some?)
  }

  /** How many of the first k nodes are live. */
  function Ahead(drawn: seq<Node>, alive: Node -> bool, k: nat): (n: nat)
    requires k <= |drawn|
    ensures n <= k
  {
    if k == 0 then 0 else Ahead(drawn, alive, k - 1) + if alive(drawn[k-1]) then 1 else 0
  }

  /** Of three nodes drawn in this order each live one stands behind the live ones drawn before it,
      and gaps come last. */
  ghost predicate InDrawnOrder(drawn: seq<Node>, alive: Node -> bool, out: seq<Option<Node>>)
    requires |drawn| == 3 && |out| == 3
  {
    && (forall k: nat :: k < 3 && alive(drawn[k]) ==> out[Ahead(drawn, alive, k)] == Some(drawn[k]))
    && (forall j :: Ahead(drawn, alive, 3) <= j < 3 ==> out[j] == None)
  }

  /** The replicas as the shuffle draws them. */
  function Drawn(r: seq<Node>, shuffle: seq<nat>): (d: seq<Node>)
    requires |r| == 3 && IsShuffle(shuffle)
    ensures |d| == 3 && forall k :: 0 <= k < 3 ==> d[k] == r[shuffle[k]]
  {
    [r[shuffle[0]], r[shuffle[1]], r[shuffle[2]]]
  }

  /** The live nodes among these, in their order. */
  function LiveOf(nodes: seq<Node>, alive: Node -> bool): (r: seq<Node>)
    ensures forall n :: n in r <==> n in nodes && alive(n)
    ensures |r| <= |nodes|
  {
    if nodes == [] then []
    else
      var last := nodes[|nodes|-1];
      assert nodes == nodes[..|nodes|-1] + [last];
      LiveOf(nodes[..|nodes|-1], alive) + if alive(last) then [last] else []
  }

  lemma LiveOfThree(nodes: seq<Node>, alive: Node -> bool)
    requires |nodes| == 3
    ensures |LiveOf(nodes, alive)| == Live(nodes, alive)
    ensures nodes[0] != nodes[1] && nodes[1] != nodes[2] && nodes[0] != nodes[2] && |LiveOf(nodes, alive)| >= 2 ==>
              LiveOf(nodes, alive)[0] != LiveOf(nodes, alive)[1]
  {
    assert nodes[..2] == [nodes[0], nodes[1]] && nodes[..2][..1] == [nodes[0]];
    var one := LiveOf([nodes[0]], alive);
    var two := LiveOf([nodes[0], nodes[1]], alive);
    assert one == if alive(nodes[0]) then [nodes[0]] else [];
    assert two == one + if alive(nodes[1]) then [nodes[1]] else [];
    assert LiveOf(nodes, alive) == two + if alive(nodes[2]) then [nodes[2]] else [];
  }

  lemma ShuffleKeepsNodes(r: seq<Node>, p: seq<nat>, nodes: seq<Node>, alive: Node -> bool)
    requires |r| == 3 && IsShuffle(p) && nodes == [r[p[0]], r[p[1]], r[p[2]]]
    ensures Live(nodes, alive) == Live(r, alive)
    ensures forall n :: n in nodes <==> n in r
  {
  }

  /** Drops repeats from the first three slots, as the three comparisons do. */
  function Compress(o: seq<Option<Node>>): (r: seq<Option<Node>>)
    requires |o| == 3 && (o[1].Some? ==> o[0].Some?) && (o[2].Some? ==> o[1].Some?)
    ensures |r| == 3
    ensures forall n :: Some(n) in r <==> Some(n) in o
    ensures forall i, j :: 0 <= i < j < 3 && r[i].Some? ==> r[i] != r[j]
    ensures o[0] != o[1] ==> r[0] == o[0] && r[1] == o[1]
  {
    assert forall x :: x in o <==> x == o[0] || x == o[1] || x == o[2];
    var o1 := if o[0] == o[1] then o[1 := None] else o;
    var o2 := if o1[1] == o1[2] then o1[2 := None] else o1;
    var o3 := if o2[0] == o2[2] then o2[2 := None] else o2;
    assert forall x :: x in o3 <==> x == o3[0] || x == o3[1] || x == o3[2];
    o3
  }

  lemma CompressedIsGood(r: seq<Node>, alive: Node -> bool, live: seq<Node>)
    requires |r| == 3 && 2 <= |live| <= 3
    requires forall n :: n in live <==> n in r && alive(n)
    requires AllDifferent(r) ==> live[0] != live[1]
    ensures GoodQuorum(r, alive, Compress([Some(live[0]), Some(live[1]), if |live| == 2 then None else Some(live[2])]))
  {
    var o := [Some(live[0]), Some(live[1]), if |live| == 2 then None else Some(live[2])];
    assert forall n :: Some(n) in o <==> n in live;
  }

  lemma LiveOfNext(nodes: seq<Node>, k: nat, alive: Node -> bool)
    requires k < |nodes|
    ensures LiveOf(nodes[..0], alive) == []
    ensures LiveOf(nodes[..k+1], alive) == LiveOf(nodes[..k], alive) + if alive(nodes[k]) then [nodes[k]] else []
  {
    assert nodes[..k+1][..k] == nodes[..k] && nodes[..k+1][k] == nodes[k];
  }

  lemma AheadNext(nodes: seq<Node>, alive: Node -> bool, n: nat)
    requires n < |nodes|
    ensures Ahead(nodes, alive, 0) == 0
    ensures Ahead(nodes, alive, n + 1) == Ahead(nodes, alive, n) + if alive(nodes[n]) then 1 else 0
  {
  }

  lemma {:induction false} LiveOfCount(nodes: seq<Node>, alive: Node -> bool, n: nat)
    requires n <= |nodes|
    ensures |LiveOf(nodes[..n], alive)| == Ahead(nodes, alive, n)
  {
    hide LiveOf, Ahead;
    if n == 0 {
      NoneAhead(nodes, alive);
    } else {
      LiveOfCount(nodes, alive, n - 1);
      LiveOfNext(nodes, n - 1, alive);
      AheadNext(nodes, alive, n - 1);
    }
  }

  lemma NoneAhead(nodes: seq<Node>, alive: Node -> bool)
    ensures LiveOf(nodes[..0], alive) == [] && Ahead(nodes, alive, 0) == 0
  {
  }

  /** The k-th node stands in the list of live ones behind those before it. */
  lemma {:induction false} LiveOfAt(nodes: seq<Node>, alive: Node -> bool, k: nat, n: nat)
    requires k < n <= |nodes| && alive(nodes[k])
    ensures Ahead(nodes, alive, k) < |LiveOf(nodes[..n], alive)|
    ensures LiveOf(nodes[..n], alive)[Ahead(nodes, alive, k)] == nodes[k]
  {
    hide LiveOf, Ahead;
    LiveOfNext(nodes, n - 1, alive);
    if k == n - 1 {
      LiveOfCount(nodes, alive, k);
    } else {
      LiveOfAt(nodes, alive, k, n - 1);
    }
  }

  lemma LiveInDrawnOrder(drawn: seq<Node>, alive: Node -> bool, out: seq<Option<Node>>)
    requires |drawn| == 3 && |out| == 3
    requires var live := LiveOf(drawn, alive);
             forall j :: 0 <= j < 3 ==> out[j] == if j < |live| then Some(live[j]) else None
    ensures InDrawnOrder(drawn, alive, out)
  {
    hide LiveOf, Ahead;
    assert drawn[..3] == drawn;
    LiveOfCount(drawn, alive, 3);
    forall k: nat | k < 3 && alive(drawn[k])
      ensures Ahead(drawn, alive, k) < 3 && out[Ahead(drawn, alive, k)] == Some(drawn[k])
    {
      LiveOfAt(drawn, alive, k, 3);
    }
  }

  /** Different nodes are left as they are. */
  lemma NothingToCompress(drawn: seq<Node>, alive: Node -> bool, live: seq<Node>, out: seq<Option<Node>>)
    requires AllDifferent(drawn) && live == LiveOf(drawn, alive) && |live| >= 2
    requires out == [Some(live[0]), Some(live[1]), if |live| == 2 then None else Some(live[2])]
    ensures Compress(out) == out
  {
    assert drawn[..3] == drawn;
    LiveOfNext(drawn, 0, alive);
    LiveOfNext(drawn, 1, alive);
    LiveOfNext(drawn, 2, alive);
    hide LiveOf;
    assert live[0] != live[1] && (|live| == 3 ==> live[0] != live[2] && live[1] != live[2]);
  }

  /** The loop that copies the live nodes to the front of the output. */
  method CollectLive(nodes: seq<Node>, alive: Node -> bool) returns (outNodes: seq<Option<Node>>, i: nat)
    requires |nodes| == 3
    ensures i == |LiveOf(nodes, alive)| && |outNodes| == 3
    ensures forall j :: 0 <= j < 3 ==> outNodes[j] == if j < i then Some(LiveOf(nodes, alive)[j]) else None
  {
    hide LiveOf;
    outNodes := [None, None, None];
    i := 0;
    LiveOfNext(nodes, 0, alive);
    for k := 0 to 3
      invariant i == |LiveOf(nodes[..k], alive)| && |outNodes| == 3
      invariant forall j :: 0 <= j < 3 ==>
                  outNodes[j] == if j < i then Some(LiveOf(nodes[..k], alive)[j]) else None
    {
      LiveOfNext(nodes, k, alive);
      if alive(nodes[k]) {
        outNodes := outNodes[i := Some(nodes[k])];
        i := i + 1;
      }
    }
    assert nodes[..3] == nodes;
  }

  /** The live replicas in shuffled order, repeats removed; fewer than two live entries throw. */
  method FindQuorum(s: seq<Node>, key: Key, shuffle: seq<nat>, alive: Node -> bool)
    returns (r: Result<seq<Option<Node>>, RingError>)
    requires Sorted(s) && IsShuffle(shuffle)
    ensures r.Failure? <==> s == [] || Live(Replicas(s, key), alive) < 2
    ensures r.Failure? ==> r.error == Unavailable
    ensures r.Success? ==> GoodQuorum(Replicas(s, key), alive, r.value)
    ensures r.Success? && |s| >= 3 ==> r.value[0].Some? && r.value[1].Some?
    ensures r.Success? && |s| >= 3 ==> InDrawnOrder(Drawn(Replicas(s, key), shuffle), alive, r.value)
  {
    if s == [] {
      return Failure(Unavailable);
    }
    if |s| >= 3 {
      ReplicasDistinct(s, key);
    }
    var found := Replicas(s, key);
    r := LiveQuorum(found, shuffle, alive);
  }

  /** find_quorum_for_operation once the replicas are known. */
  method LiveQuorum(found: seq<Node>, shuffle: seq<nat>, alive: Node -> bool)
    returns (r: Result<seq<Option<Node>>, RingError>)
    requires |found| == 3 && IsShuffle(shuffle)
    ensures r.Failure? <==> Live(found, alive) < 2
    ensures r.Failure? ==> r.error == Unavailable
    ensures r.Success? ==> GoodQuorum(found, alive, r.value)
    ensures r.Success? && AllDifferent(found) ==> InDrawnOrder(Drawn(found, shuffle), alive, r.value)
  {
    hide LiveOf, GoodQuorum, InDrawnOrder, Compress;
    var nodes := Drawn(found, shuffle);
    ShuffleKeepsNodes(found, shuffle, nodes, alive);
    LiveOfThree(nodes, alive);
    var outNodes, i := CollectLive(nodes, alive);
    if i < 2 {
      return Failure(Unavailable);
    }
    ghost var live := LiveOf(nodes, alive);
    assert outNodes == [Some(live[0]), Some(live[1]), if |live| == 2 then None else Some(live[2])];
    CompressedIsGood(found, alive, live);
    LiveInDrawnOrder(nodes, alive, outNodes);
    if AllDifferent(found) {
      NothingToCompress(nodes, alive, live, outNodes);
    }
    return Success(Compress(outNodes));
  }

  /** The pairs tried first by any two operations on a key share a replica. */
  lemma QuorumsIntersect(s: seq<Node>, key: Key, alive: Node -> bool, out: seq<Option<Node>>,
                         alive': Node -> bool, out': seq<Option<Node>>)
    requires |s| >= 3 && Sorted(s)
    requires GoodQuorum(Replicas(s, key), alive, out) && GoodQuorum(Replicas(s, key), alive', out')
    ensures FirstTwo(out) * FirstTwo(out') != {}
  {
    ReplicasDistinct(s, key);
    var r := Replicas(s, key);
    assert out[0] in out && out[1] in out && out'[0] in out' && out'[1] in out';
    var a, b, c, d := out[0].value, out[1].value, out'[0].value, out'[1].value;
    assert {a, b, c, d} <= {r[0], r[1], r[2]};
    assert out[0] != out[1] && out'[0] != out'[1];
    var common := if c == a || c == b then c else d;
    assert FirstTwo(out) == {a, b} && FirstTwo(out') == {c, d};
    assert common in FirstTwo(out) * FirstTwo(out');
  }

  /** With three nodes a quorum is refused exactly when fewer than two replicas are live. */
  lemma UnavailableWithThree(s: seq<Node>, key: Key, alive: Node -> bool)
    requires |s| >= 3 && Sorted(s)
    ensures Live(Replicas(s, key), alive) == |set n | n in NodesOf(Replicas(s, key)) && alive(n)|
  {
    ReplicasDistinct(s, key);
    CountLive(Replicas(s, key), alive);
  }

  lemma CountLive(r: seq<Node>, alive: Node -> bool)
    requires |r| == 3 && r[0] != r[1] && r[1] != r[2] && r[0] != r[2]
    ensures Live(r, alive) == |set n | n in NodesOf(r) && alive(n)|
  {
    var live := set n | n in NodesOf(r) && alive(n);
    var one := if alive(r[0]) then {r[0]} else {};
    var two := one + if alive(r[1]) then {r[1]} else {};
    assert live == two + if alive(r[2]) then {r[2]} else {};
  }

  /** With two nodes the primary is counted twice: a quorum is refused exactly when it is down. */
  lemma UnavailableWithTwo(s: seq<Node>, key: Key, alive: Node -> bool)
    requires |s| == 2 && Sorted(s)
    ensures Live(Replicas(s, key), alive) < 2 <==> !alive(Primary(s, key))
  {
  }

  // ---- The class ----

  class NodeRing {
    var byRange: seq<Node>
    var byId: map<U32, Node>

    /** The two maps hold the same nodes, each under its own start and its own id. */
    ghost predicate Valid()
      reads this
    {
      && Sorted(byRange)
      && (forall n :: n in byRange ==> n.id in byId && byId[n.id] == n)
      && (forall id :: id in byId ==> byId[id] in byRange && byId[id].id == id)
    }

    constructor ()
      ensures Valid() && byRange == []
    {
      byRange, byId := [], map[];
    }

    /** check_no_conflict. */
    method CheckNoConflict(x: Node) returns (conflict: Option<RingError>)
      requires Valid()
      ensures conflict == Some(IdConflict) <==> exists n :: n in byRange && n.id == x.id
      ensures conflict == None <==> forall n :: n in byRange ==> n.id != x.id && n.start != x.start
      ensures conflict != Some(Unavailable)
    {
      if x.id in byId {
        assert byId[x.id] in byRange;
        return Some(IdConflict);
      }
      if exists n :: n in byRange && n.start == x.start {
        return Some(RangeConflict);
      }
      return None;
    }

    method AddNode(x: Node) returns (conflict: Option<RingError>)
      requires Valid()
      modifies this
      ensures Valid()
      ensures conflict == None <==> forall n :: n in old(byRange) ==> n.id != x.id && n.start != x.start
      ensures conflict == Some(IdConflict) <==> exists n :: n in old(byRange) && n.id == x.id
      ensures conflict == None ==> byRange == Insert(old(byRange), x) && byId == old(byId)[x.id := x]
      ensures conflict != None ==> byRange == old(byRange) && byId == old(byId)
    {
      conflict := CheckNoConflict(x);
      if conflict == None {
        InsertKeepsOrder(byRange, x);
        assert forall n :: n in Insert(byRange, x) <==> n in NodesOf(Insert(byRange, x));
        assert forall n :: n in byRange <==> n in NodesOf(byRange);
        byRange := Insert(byRange, x);
        byId := byId[x.id := x];
      }
    }

    method FindNodesForKey(key: Key) returns (r: Result<seq<Node>, RingError>)
      requires Valid()
      ensures r == if byRange == [] then Failure(Unavailable) else Success(Replicas(byRange, key))
    {
      if byRange == [] {
        return Failure(Unavailable);
      }
      var secondary := SecondaryPos(byRange, key);
      var primary := PrimaryPos(byRange, secondary);
      var tertiary := TertiaryPos(byRange, secondary);
      return Success([byRange[primary], byRange[secondary], byRange[tertiary]]);
    }

    /** find_quorum_for_operation; the shuffle and what is alive come from outside. */
    method FindQuorumForOperation(key: Key, shuffle: seq<nat>, alive: Node -> bool)
      returns (r: Result<seq<Option<Node>>, RingError>)
      requires Valid() && IsShuffle(shuffle)
      ensures r.Failure? <==> byRange == [] || Live(Replicas(byRange, key), alive) < 2
      ensures r.Success? ==> GoodQuorum(Replicas(byRange, key), alive, r.value)
      ensures r.Success? && |byRange| >= 3 ==> r.value[0].Some? && r.value[1].Some?
      ensures r.Success? && |byRange| >= 3 ==> InDrawnOrder(Drawn(Replicas(byRange, key), shuffle), alive, r.value)
    {
      r := FindQuorum(byRange, key, shuffle, alive);
    }
  }
}
