/** Test selection of the test framework: wildcard filters and sharding. */
module Filter {
  import opened Bits

  // ---- Wildcard patterns ----

  /** PatternMatchesString: a pattern ends at its first colon. */
  predicate PatternMatches(pattern: string, str: string)
    decreases |pattern| + |str|
  {
    if pattern == "" || pattern[0] == ':' then str == ""
    else if pattern[0] == '?' then str != "" && PatternMatches(pattern[1..], str[1..])
    else if pattern[0] == '*' then (str != "" && PatternMatches(pattern, str[1..])) || PatternMatches(pattern[1..], str)
    else str != "" && pattern[0] == str[0] && PatternMatches(pattern[1..], str[1..])
  }

  /** The strings a pattern stands for: * is any string, ? any character. */
  ghost predicate Glob(pattern: string, str: string) {
    if pattern == "" then str == ""
    else if pattern[0] == '*' then exists k :: 0 <= k <= |str| && Glob(pattern[1..], str[k..])
    else str != "" && (pattern[0] == '?' || pattern[0] == str[0]) && Glob(pattern[1..], str[1..])
  }

  /** The pieces of a filter between its colons. */
  function Pieces(filter: string): (ps: seq<string>)
    ensures |ps| >= 1
  {
    if filter == "" then [""]
    else
      var rest := Pieces(filter[1..]);
      if filter[0] == ':' then [""] + rest else [[filter[0]] + rest[0]] + rest[1..]
  }

  /** The pieces put together again. */
  function Joined(ps: seq<string>): string
    requires ps != []
  {
    if |ps| == 1 then ps[0] else ps[0] + ":" + Joined(ps[1..])
  }

  /** The pieces hold no colon, and with colons between them they are the filter. */
  lemma {:induction false} PiecesJoin(filter: string)
    ensures Joined(Pieces(filter)) == filter
    ensures forall i :: 0 <= i < |Pieces(filter)| ==> ':' !in Pieces(filter)[i]
  {
    if filter == "" {
    } else {
      var rest, ps := Pieces(filter[1..]), Pieces(filter);
      PiecesJoin(filter[1..]);
      if filter[0] == ':' {
        assert ps[1..] == rest;
      } else {
        assert ps[1..] == rest[1..];
        assert |rest| > 1 ==> [filter[0]] + (rest[0] + ":" + Joined(rest[1..])) == ps[0] + ":" + Joined(rest[1..]);
      }
    }
  }

  lemma {:induction false} PatternIsGlob(pattern: string, str: string)
    ensures PatternMatches(pattern, str) <==> Glob(Pieces(pattern)[0], str)
    decreases |pattern| + |str|
  {
    if pattern == "" || pattern[0] == ':' {
    } else {
      var piece := Pieces(pattern)[0];
      assert piece[0] == pattern[0] && piece[1..] == Pieces(pattern[1..])[0];
      if pattern[0] == '*' {
        PatternIsGlob(pattern[1..], str);
        assert str[0..] == str;
        if str != "" {
          PatternIsGlob(pattern, str[1..]);
          StarTakesOne(piece[1..], str);
        }
      } else if str != "" {
        PatternIsGlob(pattern[1..], str[1..]);
      }
    }
  }

  /** A star takes nothing, or one character and then what it likes. */
  lemma StarTakesOne(rest: string, str: string)
    requires str != ""
    ensures (exists k :: 0 <= k <= |str| && Glob(rest, str[k..])) <==>
            Glob(rest, str) || (exists k :: 0 <= k <= |str[1..]| && Glob(rest, str[1..][k..]))
  {
    assert str[0..] == str;
    forall k | 0 < k <= |str| ensures str[k..] == str[1..][k-1..] {}
    forall k | 0 <= k <= |str[1..]| ensures str[1..][k..] == str[k+1..] {}
    if exists k :: 0 <= k <= |str| && Glob(rest, str[k..]) {
      var k :| 0 <= k <= |str| && Glob(rest, str[k..]);
      if k > 0 {
        assert Glob(rest, str[1..][k-1..]);
      }
    }
  }

  /** A filter matches a name if one of its pieces does. */
  ghost predicate AnyPiece(filter: string, name: string) {
    exists i :: 0 <= i < |Pieces(filter)| && Glob(Pieces(filter)[i], name)
  }

  /** strchr(s, ':') as a position, or the length if there is none. */
  function NextColon(s: string): (k: nat)
    ensures k <= |s| && (k < |s| ==> s[k] == ':')
  {
    if s == "" || s[0] == ':' then 0 else 1 + NextColon(s[1..])
  }

  /** After the first piece come the pieces behind the first colon. */
  lemma {:induction false} PiecesAfterColon(s: string)
    ensures var k := NextColon(s);
            Pieces(s)[1..] == if k < |s| then Pieces(s[k+1..]) else []
  {
    if s == "" || s[0] == ':' {
    } else {
      PiecesAfterColon(s[1..]);
      var k := NextColon(s[1..]);
      assert k < |s[1..]| ==> s[1..][k+1..] == s[k+2..];
      assert Pieces(s)[1..] == Pieces(s[1..])[1..];
    }
  }

  lemma AnyPieceSplits(s: string, name: string)
    ensures var k := NextColon(s);
            AnyPiece(s, name) <==> Glob(Pieces(s)[0], name) || (k < |s| && AnyPiece(s[k+1..], name))
  {
    PiecesAfterColon(s);
    var ps := Pieces(s);
    assert forall i :: 0 < i < |ps| ==> ps[i] == ps[1..][i-1];
    assert forall i :: 0 <= i < |ps[1..]| ==> ps[1..][i] == ps[i+1];
  }

  method MatchesFilter(name: string, filter: string) returns (b: bool)
    ensures b <==> AnyPiece(filter, name)
  {
    var cur := filter;
    while true
      invariant AnyPiece(filter, name) == AnyPiece(cur, name)
      decreases |cur|
    {
      PatternIsGlob(cur, name);
      AnyPieceSplits(cur, name);
      if PatternMatches(cur, name) {
        return true;
      }
      var k := NextColon(cur);
      if k == |cur| {
        return false;
      }
      cur := cur[k+1..];
    }
  }

  function NextDash(s: string): (k: nat)
    ensures k <= |s| && (k < |s| ==> s[k] == '-') && forall i :: 0 <= i < k ==> s[i] != '-'
  {
    if s == "" || s[0] == '-' then 0 else 1 + NextDash(s[1..])
  }

  /** What a filter selects: a match of a piece before the first dash, or anything if nothing
      stands there, and no match of a piece behind it. */
  ghost predicate Selects(filter: string, name: string) {
    var k := NextDash(filter);
    if k == |filter| then AnyPiece(filter, name) && name != ""
    else (k == 0 || AnyPiece(filter[..k], name)) && !AnyPiece(filter[k+1..], name)
  }

  method FilterMatchesTest(testCase: string, test: string, filter: string) returns (b: bool)
    ensures b <==> Selects(filter, testCase + "." + test)
  {
    var name := testCase + "." + test;
    var dash := NextDash(filter);
    var positive, negative := filter, "";
    if dash < |filter| {
      positive, negative := filter[..dash], filter[dash+1..];
      if positive == "" {
        positive := "*";
      }
    }
    var yes := MatchesFilter(name, positive);
    var no := MatchesFilter(name, negative);
    StarMatchesAll(name);
    EmptyMatchesEmpty(name);
    b := yes && !no;
  }

  lemma StarMatchesAll(name: string)
    ensures AnyPiece("*", name)
  {
    assert "*"[1..] == "" && Pieces("") == [""];
    assert Pieces("*")[0] == "*";
    assert name[|name|..] == "";
    assert Glob("*"[1..], name[|name|..]);
    assert Glob(Pieces("*")[0], name);
  }

  lemma EmptyMatchesEmpty(name: string)
    ensures AnyPiece("", name) <==> name == ""
  {
    assert Pieces("") == [""];
    if name == "" {
      assert Glob(Pieces("")[0], name);
    }
  }

  // ---- Sharding ----

  function Count(r: seq<bool>): nat {
    if r == [] then 0 else Count(r[..|r|-1]) + if r[|r|-1] then 1 else 0
  }

  /** Which runnable tests run on this shard: the runnable ones are dealt out in turn. */
  function OnShard(r: seq<bool>, shards: nat, index: nat): (s: seq<bool>)
    requires shards > 0
    ensures |s| == |r|
  {
    if r == [] then []
    else
      var front := r[..|r|-1];
      OnShard(front, shards, index) + [r[|r|-1] && Count(front) % shards == index]
  }

  lemma {:induction false} OnShardAt(r: seq<bool>, shards: nat, index: nat, k: nat)
    requires shards > 0 && k < |r|
    ensures OnShard(r, shards, index)[k] <==> r[k] && Count(r[..k]) % shards == index
  {
    var front := r[..|r|-1];
    if k == |r| - 1 {
    } else {
      OnShardAt(front, shards, index, k);
      assert front[..k] == r[..k];
    }
  }

  /** Every runnable test runs on exactly one shard, and no other test on any. */
  lemma ShardsPartition(r: seq<bool>, shards: nat, k: nat)
    requires shards > 0 && k < |r|
    ensures r[k] ==> exists index: nat :: index < shards && RunsOnlyOn(r, shards, k, index)
    ensures !r[k] ==> forall index: nat :: !OnShard(r, shards, index)[k]
  {
    var mine: nat := Count(r[..k]) % shards;
    forall index: nat ensures OnShard(r, shards, index)[k] <==> r[k] && index == mine {
      OnShardAt(r, shards, index, k);
    }
    assert r[k] ==> RunsOnlyOn(r, shards, k, mine);
  }

  ghost predicate RunsOnlyOn(r: seq<bool>, shards: nat, k: nat, index: nat)
    requires shards > 0 && k < |r|
  {
    OnShard(r, shards, index)[k] && forall other: nat :: OnShard(r, shards, other)[k] ==> other == index
  }

  /** Shard number index gets every shards-th runnable test, so no two shards differ by more than one. */
  lemma {:induction false} ShardSize(r: seq<bool>, shards: nat, index: nat)
    requires index < shards
    ensures Count(OnShard(r, shards, index)) == (Count(r) + shards - 1 - index) / shards
  {
    if r == [] {
      SmallMod(shards - 1 - index, shards);
    } else {
      var front := r[..|r|-1];
      var s := OnShard(r, shards, index);
      ShardSize(front, shards, index);
      assert s[..|s|-1] == OnShard(front, shards, index);
      DealOne(Count(front), shards, index);
    }
  }

  lemma DealOne(n: nat, shards: nat, index: nat)
    requires index < shards
    ensures (n + 1 + shards - 1 - index) / shards ==
            (n + shards - 1 - index) / shards + if n % shards == index then 1 else 0
  {
    DealOneFrom(n, shards, index, n / shards, n % shards);
  }

  lemma DealOneFrom(n: int, shards: int, index: int, q: int, m: int)
    requires 0 <= index < shards && n == shards * q + m && 0 <= m < shards
    ensures (n + 1 + shards - 1 - index) / shards ==
            (n + shards - 1 - index) / shards + if m == index then 1 else 0
  {
    Quotient(n + 1 + shards - 1 - index, shards, q, m + shards - index);
    Quotient(n + shards - 1 - index, shards, q, m + shards - 1 - index);
  }

  /** A remainder below twice the divisor adds one at most. */
  lemma Quotient(x: int, d: int, q: int, r: int)
    requires d > 0 && 0 <= r < 2 * d && x == d * q + r
    ensures x / d == if r < d then q else q + 1
  {
    if r < d {
      UniqueDivision(x, d, q, r);
    } else {
      assert d * (q + 1) == d * q + d;
      UniqueDivision(x, d, q + 1, r - d);
    }
  }

  lemma ShardsBalanced(r: seq<bool>, shards: nat, i: nat, j: nat)
    requires i < j < shards
    ensures Count(OnShard(r, shards, j)) <= Count(OnShard(r, shards, i)) <= Count(OnShard(r, shards, j)) + 1
  {
    ShardSize(r, shards, i);
    ShardSize(r, shards, j);
    NearlyEqual(Count(r) + shards - 1 - j, j - i, shards);
  }

  lemma NearlyEqual(n: nat, d: nat, shards: nat)
    requires d < shards
    ensures n / shards <= (n + d) / shards <= n / shards + 1
  {
    var q, m := n / shards, n % shards;
    assert n == shards * q + m;
    Quotient(n + d, shards, q, m + d);
  }

  function Flatten(rs: seq<seq<bool>>): seq<bool> {
    if rs == [] then [] else Flatten(rs[..|rs|-1]) + rs[|rs|-1]
  }

  lemma {:induction false} CountConcat(a: seq<bool>, b: seq<bool>)
    ensures Count(a + b) == Count(a) + Count(b)
  {
    if b == [] {
      assert a + b == a;
    } else {
      assert (a + b)[..|a + b|-1] == a + b[..|b|-1];
      CountConcat(a, b[..|b|-1]);
    }
  }

  datatype TestCase = TestCase(name: string, tests: seq<string>)

  datatype Options = Options(filter: string, alsoRunDisabled: bool)

  const DISABLE_TEST_FILTER := "DISABLED_*:*/DISABLED_*"

  /** What marks a test or a test case as disabled. */
  ghost predicate MarkedDisabled(name: string) {
    "DISABLED_" <= name || exists i :: 0 <= i <= |name| && "/DISABLED_" <= name[i..]
  }

  /** The filter for disabled tests picks exactly the names with the mark at the start or behind
      a slash. */
  lemma DisabledIff(name: string)
    ensures AnyPiece(DISABLE_TEST_FILTER, name) <==> MarkedDisabled(name)
  {
    hide Glob, Pieces;
    var a, b := "DISABLED_*", "*/DISABLED_*";
    assert DISABLE_TEST_FILTER == a + ":" + b;
    PiecesOfTwo(a, b);
    PiecesOfOne(b);
    assert [a] + [b] == [a, b] && Pieces(DISABLE_TEST_FILTER) == [a, b];
    assert a == "DISABLED_" + "*" && b == "*" + ("/DISABLED_" + "*");
    GlobPrefix("DISABLED_", name);
    GlobInside("/DISABLED_", name);
    if AnyPiece(DISABLE_TEST_FILTER, name) {
      var i :| 0 <= i < |[a, b]| && Glob([a, b][i], name);
      assert i == 0 || i == 1;
    }
    if MarkedDisabled(name) {
      assert Glob([a, b][0], name) || Glob([a, b][1], name);
    }
  }

  lemma {:induction false} PiecesOfOne(s: string)
    requires ':' !in s
    ensures Pieces(s) == [s]
  {
    if s == "" {
    } else {
      PiecesOfOne(s[1..]);
      assert s[0] in s && [s[0]] + s[1..] == s;
    }
  }

  lemma {:induction false} PiecesOfTwo(a: string, b: string)
    requires ':' !in a
    ensures Pieces(a + ":" + b) == [a] + Pieces(b)
  {
    var s := a + ":" + b;
    if a == "" {
      assert s[1..] == b;
    } else {
      PiecesOfTwo(a[1..], b);
      assert s[1..] == a[1..] + ":" + b && s[0] == a[0] && a[0] in a;
      assert [a[0]] + a[1..] == a;
      assert ([a[1..]] + Pieces(b))[1..] == Pieces(b);
    }
  }

  /** A literal and then a star stand for what starts with the literal. */
  lemma {:induction false} GlobPrefix(lit: string, name: string)
    requires '*' !in lit && '?' !in lit
    ensures Glob(lit + "*", name) <==> lit <= name
  {
    var p := lit + "*";
    if lit == "" {
      assert p == "*" && p[1..] == "";
      assert name[|name|..] == "";
      assert Glob(p[1..], name[|name|..]);
    } else {
      assert p[0] == lit[0] && p[1..] == lit[1..] + "*";
      if name != "" {
        GlobPrefix(lit[1..], name[1..]);
        assert lit <= name <==> lit[0] == name[0] && lit[1..] <= name[1..];
      }
    }
  }

  /** Between two stars it may stand anywhere. */
  lemma GlobInside(lit: string, name: string)
    requires '*' !in lit && '?' !in lit
    ensures Glob("*" + (lit + "*"), name) <==> exists i :: 0 <= i <= |name| && lit <= name[i..]
  {
    var p := "*" + (lit + "*");
    assert p[0] == '*' && p[1..] == lit + "*";
    forall k | 0 <= k <= |name| ensures Glob(lit + "*", name[k..]) <==> lit <= name[k..] {
      GlobPrefix(lit, name[k..]);
    }
  }

  /** Enabled, or disabled tests run too, and selected by the filter. */
  ghost predicate CanRun(o: Options, testCase: string, test: string) {
    && (o.alsoRunDisabled || !(MarkedDisabled(testCase) || MarkedDisabled(test)))
    && Selects(o.filter, testCase + "." + test)
  }

  ghost function RunnableIn(o: Options, c: TestCase): (r: seq<bool>)
    ensures |r| == |c.tests|
  {
    seq(|c.tests|, j requires 0 <= j < |c.tests| => CanRun(o, c.name, c.tests[j]))
  }

  ghost function Runnable(o: Options, cases: seq<TestCase>): (r: seq<seq<bool>>)
    ensures |r| == |cases|
  {
    seq(|cases|, i requires 0 <= i < |cases| => RunnableIn(o, cases[i]))
  }

  method IsRunnable(o: Options, testCase: string, test: string) returns (b: bool)
    ensures b <==> CanRun(o, testCase, test)
  {
    var caseDisabled := MatchesFilter(testCase, DISABLE_TEST_FILTER);
    var testDisabled := MatchesFilter(test, DISABLE_TEST_FILTER);
    var matches := FilterMatchesTest(testCase, test, o.filter);
    DisabledIff(testCase);
    DisabledIff(test);
    b := (o.alsoRunDisabled || !(caseDisabled || testDisabled)) && matches;
  }

  /** FilterTests: which tests of which test cases run, and how many.  shards is 0 when sharding
      is ignored. */
  method FilterTests(o: Options, cases: seq<TestCase>, shards: nat, index: nat)
    returns (shouldRun: seq<seq<bool>>, caseRuns: seq<bool>, selected: nat)
    requires shards > 0 ==> index < shards
    ensures |shouldRun| == |caseRuns| == |cases|
    ensures forall i :: 0 <= i < |cases| ==> |shouldRun[i]| == |cases[i].tests|
    ensures var r := Flatten(Runnable(o, cases));
            Flatten(shouldRun) == if shards == 0 then r else OnShard(r, shards, index)
    ensures forall i :: 0 <= i < |cases| ==> (caseRuns[i] <==> true in shouldRun[i])
    ensures selected == Count(Flatten(shouldRun))
  {
    hide OnShard, Count, Flatten, RunnableIn;
    shouldRun, caseRuns, selected := [], [], 0;
    var numRunnable: nat := 0;
    ghost var runnable := Runnable(o, cases);
    NothingDealt(shards, index);
    assert runnable[..0] == [];
    for i := 0 to |cases|
      invariant |shouldRun| == |caseRuns| == i
      invariant forall j :: 0 <= j < i ==> |shouldRun[j]| == |cases[j].tests|
      invariant forall j :: 0 <= j < i ==> (caseRuns[j] <==> true in shouldRun[j])
      invariant Flatten(shouldRun) == Dealt(Flatten(runnable[..i]), shards, index)
      invariant numRunnable == Count(Flatten(runnable[..i])) && selected == Count(Flatten(shouldRun))
    {
      ghost var done := Flatten(runnable[..i]);
      var flags, runs, n, sel := FilterCase(o, cases[i], shards, index, numRunnable, done);
      FlattenLast(runnable[..i], runnable[i]);
      FlattenLast(shouldRun, flags);
      assert runnable[..i+1] == runnable[..i] + [runnable[i]];
      CountConcat(Flatten(shouldRun), flags);
      CountConcat(done, runnable[i]);
      shouldRun, caseRuns := shouldRun + [flags], caseRuns + [runs];
      numRunnable, selected := n, selected + sel;
    }
    assert runnable[..|cases|] == runnable;
  }

  lemma NothingDealt(shards: nat, index: nat)
    ensures Flatten([]) == [] && Dealt([], shards, index) == [] && Count([]) == 0
  {
  }

  lemma OneMoreTest(r: seq<bool>, b: bool, shards: nat, index: nat)
    ensures Count(r + [b]) == Count(r) + if b then 1 else 0
    ensures Dealt(r + [b], shards, index) ==
            Dealt(r, shards, index) + [b && (shards == 0 || Count(r) % shards == index)]
  {
    assert (r + [b])[..|r|] == r;
  }

  lemma FlattenLast(rs: seq<seq<bool>>, r: seq<bool>)
    ensures Flatten(rs + [r]) == Flatten(rs) + r
  {
    assert (rs + [r])[..|rs|] == rs;
  }

  function Dealt(r: seq<bool>, shards: nat, index: nat): (s: seq<bool>)
    ensures |s| == |r|
  {
    if shards == 0 then r else OnShard(r, shards, index)
  }

  /** The inner loop, over the tests of one test case. */
  method FilterCase(o: Options, c: TestCase, shards: nat, index: nat, before: nat, ghost done: seq<bool>)
    returns (flags: seq<bool>, runs: bool, numRunnable: nat, selected: nat)
    requires before == Count(done)
    ensures |flags| == |c.tests|
    ensures Dealt(done + RunnableIn(o, c), shards, index) == Dealt(done, shards, index) + flags
    ensures runs <==> true in flags
    ensures numRunnable == before + Count(RunnableIn(o, c)) && selected == Count(flags)
  {
    hide Dealt, Count, CanRun;
    flags, runs, numRunnable, selected := [], false, before, 0;
    ghost var r := RunnableIn(o, c);
    NothingDealt(shards, index);
    assert done + r[..0] == done;
    for j := 0 to |c.tests|
      invariant |flags| == j && Dealt(done + r[..j], shards, index) == Dealt(done, shards, index) + flags
      invariant runs <==> true in flags
      invariant numRunnable == before + Count(r[..j]) && selected == Count(flags)
    {
      var isRunnable := IsRunnable(o, c.name, c.tests[j]);
      var isSelected := isRunnable && (shards == 0 || numRunnable % shards == index);
      CountConcat(done, r[..j]);
      OneMoreTest(done + r[..j], r[j], shards, index);
      OneMoreTest(r[..j], r[j], shards, index);
      OneMoreTest(flags, isSelected, shards, index);
      assert r[..j+1] == r[..j] + [r[j]];
      assert done + r[..j+1] == done + r[..j] + [r[j]];
      numRunnable := numRunnable + if isRunnable then 1 else 0;
      selected := selected + if isSelected then 1 else 0;
      flags := flags + [isSelected];
      runs := runs || isSelected;
    }
    assert r[..|c.tests|] == r;
  }
}
