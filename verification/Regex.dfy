/** The simple regular expressions of the test framework: validation and matching, against
    the language that a pattern of atoms with ?, * and + stands for. */
module Regex {
  import opened Wrappers

  /** A terminated string without its terminator. */
  type CString = s: string | '\0' !in s

  // ---- Characters ----

  predicate IsInSet(ch: char, set_: string) { ch != '\0' && ch in set_ }

  predicate IsAsciiDigit(ch: char) { '0' <= ch <= '9' }

  predicate IsAsciiPunct(ch: char) { IsInSet(ch, "^-!\"#$%&'()*+,./:;<=>?@[\\]_`{|}~") }

  predicate IsRepeat(ch: char) { ch == '?' || ch == '*' || ch == '+' }

  predicate IsAsciiWhiteSpace(ch: char) { IsInSet(ch, " \U{0C}\n\r\t\U{0B}") }

  predicate IsAsciiWordChar(ch: char) {
    'a' <= ch <= 'z' || 'A' <= ch <= 'Z' || '0' <= ch <= '9' || ch == '_'
  }

  predicate IsValidEscape(c: char) { IsAsciiPunct(c) || IsInSet(c, "dDfnrsStvwW") }

  predicate IsUnsupported(c: char) { IsInSet(c, "()[]{}|") }

  predicate AtomMatchesChar(escaped: bool, p: char, ch: char) {
    if escaped then
      match p
      case 'd' => IsAsciiDigit(ch)
      case 'D' => !IsAsciiDigit(ch)
      case 'f' => ch == '\U{0C}'
      case 'n' => ch == '\n'
      case 'r' => ch == '\r'
      case 's' => IsAsciiWhiteSpace(ch)
      case 'S' => !IsAsciiWhiteSpace(ch)
      case 't' => ch == '\t'
      case 'v' => ch == '\U{0B}'
      case 'w' => IsAsciiWordChar(ch)
      case 'W' => !IsAsciiWordChar(ch)
      case _ => IsAsciiPunct(p) && p == ch
    else (p == '.' && ch != '\n') || p == ch
  }

  // ---- Patterns and what they mean ----

  datatype Atom = Atom(escaped: bool, c: char)

  datatype Repeat = Once | Optional | Any | AtLeastOnce

  datatype Item = Item(atom: Atom, repeat: Repeat)

  /** Anchored at the start or not, a list of repeated atoms, anchored at the end or not. */
  datatype Pattern = Pattern(start: bool, items: seq<Item>, end: bool)

  /** ASCII punctuation, by code. */
  predicate IsPunctuation(ch: char) {
    var n := ch as int;
    33 <= n <= 47 || 58 <= n <= 64 || 91 <= n <= 96 || 123 <= n <= 126
  }

  /** Behind a backslash a punctuation character or the name of a class or of a control
      character; alone anything that has no meaning of its own. */
  predicate ValidAtom(a: Atom) {
    if a.escaped then IsPunctuation(a.c) || a.c in "dDfnrsStvwW"
    else a.c !in "\0\\^$?*+()[]{}|"
  }

  predicate IsLetter(ch: char) { 65 <= ch as int <= 90 || 97 <= ch as int <= 122 }

  /** The characters an atom stands for. */
  predicate StandsFor(a: Atom, ch: char) {
    if !a.escaped then if a.c == '.' then ch as int != 10 else ch == a.c
    else match a.c
         case 'd' => ch in "0123456789"
         case 'D' => ch !in "0123456789"
         case 'w' => IsLetter(ch) || ch in "0123456789_"
         case 'W' => !(IsLetter(ch) || ch in "0123456789_")
         case 's' => 9 <= ch as int <= 13 || ch as int == 32
         case 'S' => !(9 <= ch as int <= 13 || ch as int == 32)
         case 't' => ch as int == 9
         case 'n' => ch as int == 10
         case 'v' => ch as int == 11
         case 'f' => ch as int == 12
         case 'r' => ch as int == 13
         case _ => ch == a.c
  }

  /** The escapes that are accepted are those that have a meaning. */
  lemma EscapeDecides(c: char)
    ensures IsValidEscape(c) <==> ValidAtom(Atom(true, c))
  {
    PunctuationByCode(c);
  }

  lemma PunctuationByCode(c: char)
    ensures IsAsciiPunct(c) <==> IsPunctuation(c)
  {
    var set_ := "^-!\"#$%&'()*+,./:;<=>?@[\\]_`{|}~";
    assert |set_| == 32;
    if IsPunctuation(c) {
      assert c in set_;
    }
  }

  lemma PlainDecides(c: char)
    ensures ValidAtom(Atom(false, c)) <==>
            c != '\0' && c != '\\' && c != '^' && c != '$' && !IsRepeat(c) && !IsUnsupported(c)
  {
  }

  /** The character test decides what the atom stands for. */
  lemma AtomDecides(a: Atom, ch: char)
    requires ValidAtom(a)
    ensures AtomMatchesChar(a.escaped, a.c, ch) <==> StandsFor(a, ch)
  {
    if a.escaped {
      PunctuationByCode(a.c);
      if a.c == 'd' || a.c == 'D' {
        DigitByName(ch);
      } else if a.c == 'w' || a.c == 'W' {
        WordByName(ch);
      }
    }
  }

  lemma DigitByName(ch: char)
    ensures IsAsciiDigit(ch) <==> ch in "0123456789"
  {
  }

  lemma WordByName(ch: char)
    ensures IsAsciiWordChar(ch) <==> IsLetter(ch) || ch in "0123456789_"
  {
  }

  predicate ValidItems(items: seq<Item>) {
    forall i :: 0 <= i < |items| ==> ValidAtom(items[i].atom)
  }

  function PrintAtom(a: Atom): string { if a.escaped then ['\\', a.c] else [a.c] }

  function PrintRepeat(r: Repeat): string {
    match r case Once => "" case Optional => "?" case Any => "*" case AtLeastOnce => "+"
  }

  function PrintItem(i: Item): string { PrintAtom(i.atom) + PrintRepeat(i.repeat) }

  function PrintItems(items: seq<Item>, end: bool): string {
    if items == [] then if end then "$" else ""
    else PrintItem(items[0]) + PrintItems(items[1..], end)
  }

  function Print(p: Pattern): string {
    if p.start then "^" + PrintItems(p.items, p.end) else PrintItems(p.items, p.end)
  }

  /** The words of one repeated atom. */
  ghost predicate ItemMatches(item: Item, w: string) {
    && (forall k :: 0 <= k < |w| ==> StandsFor(item.atom, w[k]))
    && match item.repeat
       case Once => |w| == 1
       case Optional => |w| <= 1
       case Any => true
       case AtLeastOnce => |w| >= 1
  }

  /** The words of a list: the concatenations of words of its items. */
  ghost predicate Language(items: seq<Item>, w: string) {
    if items == [] then w == ""
    else exists k :: 0 <= k <= |w| && ItemMatches(items[0], w[..k]) && Language(items[1..], w[k..])
  }

  /** Some prefix, or all of s if anchored at the end, is a word. */
  ghost predicate MatchesPrefix(items: seq<Item>, end: bool, s: string) {
    exists k :: 0 <= k <= |s| && Language(items, s[..k]) && (end ==> k == |s|)
  }

  /** Some substring that meets the anchors is a word. */
  ghost predicate MatchesSomewhere(p: Pattern, s: string) {
    exists i, j :: 0 <= i <= j <= |s| && Language(p.items, s[i..j]) && (p.start ==> i == 0) && (p.end ==> j == |s|)
  }

  // ---- Validation ----

  /** What the scan finds wrong with an unescaped character. */
  predicate PlainOk(ch: char, first: bool, last: bool, prevRepeatable: bool) {
    && !(ch == '^' && !first)
    && !(ch == '$' && !last)
    && !IsUnsupported(ch)
    && !(IsRepeat(ch) && !prevRepeatable)
  }

  predicate Repeatable(ch: char) { ch != '^' && ch != '$' && !IsRepeat(ch) }

  /** The rest of a regex is accepted. */
  predicate Scan(s: CString, first: bool, prevRepeatable: bool)
    decreases |s|
  {
    if s == "" then true
    else if s[0] == '\\' then |s| > 1 && IsValidEscape(s[1]) && Scan(s[2..], false, true)
    else PlainOk(s[0], first, |s| == 1, prevRepeatable) && Scan(s[1..], false, Repeatable(s[0]))
  }

  method ValidateRegex(regex: Option<CString>) returns (valid: bool)
    ensures valid <==> regex.Some? && Scan(regex.value, true, false)
  {
    if regex.None? {
      return false;
    }
    var s := regex.value;
    valid := true;
    var prevRepeatable := false;
    var i := 0;
    while i < |s|
      invariant 0 <= i <= |s|
      invariant Scan(s, true, false) == (valid && Scan(s[i..], i == 0, prevRepeatable))
    {
      if s[i] == '\\' {
        i := i + 1;
        if i == |s| {
          return false;
        }
        if !IsValidEscape(s[i]) {
          valid := false;
        }
        prevRepeatable := true;
        assert s[i-1..][2..] == s[i+1..];
      } else {
        var ch := s[i];
        if ch == '^' && i > 0 {
          valid := false;
        } else if ch == '$' && i + 1 < |s| {
          valid := false;
        } else if IsUnsupported(ch) {
          valid := false;
        } else if IsRepeat(ch) && !prevRepeatable {
          valid := false;
        }
        prevRepeatable := Repeatable(ch);
        assert s[i..][1..] == s[i+1..];
      }
      i := i + 1;
    }
  }

  /** A repeat character is accepted only behind an atom; otherwise what came before is forgotten. */
  lemma ScanAfterAtom(s: CString)
    ensures Scan(s, false, true) <==>
            if s != "" && IsRepeat(s[0]) then Scan(s[1..], false, false) else Scan(s, false, false)
  {
  }

  function RepeatOf(ch: char): Repeat
    requires IsRepeat(ch)
  {
    if ch == '?' then Optional else if ch == '*' then Any else AtLeastOnce
  }

  lemma RepeatRoundTrip(ch: char)
    requires IsRepeat(ch)
    ensures PrintRepeat(RepeatOf(ch)) == [ch]
  {
  }

  /** What is accepted can be read as a list of items. */
  lemma {:induction false} ReadItems(s: CString) returns (items: seq<Item>, end: bool)
    requires Scan(s, false, false)
    ensures ValidItems(items) && PrintItems(items, end) == s
    decreases |s|
  {
    if s == "" {
      items, end := [], false;
    } else if s == "$" {
      items, end := [], true;
    } else {
      hide Scan, PrintItem, ValidAtom;
      var item, m := ReadItem(s);
      var rest;
      rest, end := ReadItems(s[m..]);
      items := [item] + rest;
      assert items[1..] == rest;
      assert s == s[..m] + s[m..];
    }
  }

  /** What is accepted and is not the end starts with an item. */
  lemma ReadItem(s: CString) returns (item: Item, m: nat)
    requires Scan(s, false, false) && s != "" && s != "$"
    ensures 0 < m <= |s| && ValidAtom(item.atom) && PrintItem(item) == s[..m] && Scan(s[m..], false, false)
  {
    var atom, n := ReadAtom(s);
    hide Scan, ValidAtom;
    var repeat;
    repeat, m := Once, n;
    ScanAfterAtom(s[n..]);
    if n < |s| && IsRepeat(s[n]) {
      repeat, m := RepeatOf(s[n]), n + 1;
      RepeatRoundTrip(s[n]);
      assert s[n..][1..] == s[n+1..];
    }
    item := Item(atom, repeat);
  }

  lemma ReadAtom(s: CString) returns (atom: Atom, n: nat)
    requires Scan(s, false, false) && s != "" && s != "$"
    ensures 0 < n <= |s| && ValidAtom(atom) && PrintAtom(atom) == s[..n] && Scan(s[n..], false, true)
  {
    hide ValidAtom, IsValidEscape;
    if s[0] == '\\' {
      atom, n := Atom(true, s[1]), 2;
      EscapeDecides(s[1]);
    } else {
      atom, n := Atom(false, s[0]), 1;
      PlainDecides(s[0]);
    }
  }

  lemma {:induction false} PrintedIsCString(items: seq<Item>, end: bool)
    requires ValidItems(items)
    ensures '\0' !in PrintItems(items, end)
  {
    if items == [] {
    } else {
      PrintedIsCString(items[1..], end);
      assert ValidAtom(items[0].atom);
    }
  }

  /** What is printed is accepted. */
  lemma {:induction false} PrintedScans(items: seq<Item>, end: bool, s: CString)
    requires ValidItems(items) && s == PrintItems(items, end)
    ensures Scan(s, false, false)
  {
    if items == [] {
    } else {
      var rest := PrintItems(items[1..], end);
      PrintedIsCString(items[1..], end);
      PrintedScans(items[1..], end, rest);
      ItemScans(items[0], rest, s);
    }
  }

  lemma ItemScans(item: Item, rest: CString, s: CString)
    requires ValidAtom(item.atom) && s == PrintItem(item) + rest && Scan(rest, false, false)
    ensures Scan(s, false, false)
  {
    hide Scan, ValidAtom;
    var tail := s[|PrintAtom(item.atom)|..];
    RepeatScans(item.repeat, rest, tail);
    AtomScans(item.atom, tail, s);
  }

  lemma RepeatScans(repeat: Repeat, rest: CString, tail: CString)
    requires tail == PrintRepeat(repeat) + rest && Scan(rest, false, false)
    ensures Scan(tail, false, true)
  {
    ScanAfterAtom(tail);
    ScanAfterAtom(rest);
    if repeat.Once? {
      assert tail == rest;
    } else {
      assert tail[1..] == rest && IsRepeat(tail[0]);
    }
  }

  lemma AtomScans(atom: Atom, tail: CString, s: CString)
    requires ValidAtom(atom) && s == PrintAtom(atom) + tail && Scan(tail, false, true)
    ensures Scan(s, false, false)
  {
    hide ValidAtom, IsValidEscape;
    if atom.escaped {
      EscapeDecides(atom.c);
      assert s[0] == '\\' && s[1] == atom.c && s[2..] == tail;
    } else {
      PlainDecides(atom.c);
      assert s[0] == atom.c && s[1..] == tail;
    }
  }

  /** ValidateRegex accepts exactly the printed forms of patterns. */
  lemma ValidIffPattern(s: CString)
    ensures Scan(s, true, false) <==> exists p: Pattern :: ValidItems(p.items) && Print(p) == s
  {
    if Scan(s, true, false) {
      if s != "" && s[0] == '^' {
        var items, end := ReadItems(s[1..]);
        assert Print(Pattern(true, items, end)) == s;
      } else {
        ScanWithoutAnchor(s);
        var items, end := ReadItems(s);
        assert Print(Pattern(false, items, end)) == s;
      }
    }
    forall p: Pattern | ValidItems(p.items) && Print(p) == s
      ensures Scan(s, true, false)
    {
      PrintedIsCString(p.items, p.end);
      PrintedScans(p.items, p.end, PrintItems(p.items, p.end));
      if p.start {
        assert s[0] == '^' && s[1..] == PrintItems(p.items, p.end);
      } else {
        ScanWithoutAnchor(s);
      }
    }
  }

  lemma ScanWithoutAnchor(s: CString)
    ensures s == "" || s[0] != '^' ==> Scan(s, true, false) == Scan(s, false, false)
    ensures s != "" && s[0] == '^' ==> Scan(s, true, false) == Scan(s[1..], false, false) && !Scan(s, false, false)
  {
  }

  // ---- Matching ----

  function MinCount(repeat: char): nat { if repeat == '+' then 1 else 0 }

  /** ? allows one; the bound of * and + is beyond the length of any string. */
  predicate MayGoOn(repeat: char, i: nat) { repeat != '?' || i < 1 }

  /** MatchRepetitionAndRegexAtHead from its i-th round on. */
  predicate MatchRepetition(escaped: bool, c: char, repeat: char, regex: CString, str: CString, i: nat)
    requires i <= |str|
    decreases |regex|, 1, |str| - i
  {
    || (i >= MinCount(repeat) && MatchHead(regex, str[i..]))
    || (i < |str| && AtomMatchesChar(escaped, c, str[i]) && MayGoOn(repeat, i)
        && MatchRepetition(escaped, c, repeat, regex, str, i + 1))
  }

  /** MatchRegexAtHead. */
  predicate MatchHead(regex: CString, str: CString)
    decreases |regex|, 0
  {
    if regex == "" then true
    else if regex[0] == '$' then str == ""
    else
      var escaped := regex[0] == '\\';
      var r := if escaped then regex[1..] else regex;
      if r == "" then false
      else if |r| > 1 && IsRepeat(r[1]) then MatchRepetition(escaped, r[0], r[1], r[2..], str, 0)
      else str != "" && AtomMatchesChar(escaped, r[0], str[0]) && MatchHead(r[1..], str[1..])
  }

  method MatchRegexAtHead(regex: CString, str: CString) returns (b: bool)
    requires Scan(regex, false, false)
    ensures b <==> MatchHead(regex, str)
    decreases |regex|, 0
  {
    if regex == "" {
      return true;
    }
    if regex[0] == '$' {
      return str == "";
    }
    var escaped := regex[0] == '\\';
    var r := if escaped then regex[1..] else regex;
    ScanAfterAtom(r[1..]);
    assert escaped ==> r[1..] == regex[2..];
    if |r| > 1 && IsRepeat(r[1]) {
      assert r[1..][1..] == r[2..];
      b := MatchRepetitionAndRegexAtHead(escaped, r[0], r[1], r[2..], str);
    } else if str != "" && AtomMatchesChar(escaped, r[0], str[0]) {
      b := MatchRegexAtHead(r[1..], str[1..]);
    } else {
      b := false;
    }
  }

  method MatchRepetitionAndRegexAtHead(escaped: bool, c: char, repeat: char, regex: CString, str: CString)
    returns (b: bool)
    requires Scan(regex, false, false)
    ensures b <==> MatchRepetition(escaped, c, repeat, regex, str, 0)
    decreases |regex|, 1
  {
    var i := 0;
    while repeat != '?' || i <= 1
      invariant 0 <= i <= |str| && (repeat == '?' ==> i <= 2)
      invariant MatchRepetition(escaped, c, repeat, regex, str, 0) ==
                ((repeat == '?' ==> i <= 1) && MatchRepetition(escaped, c, repeat, regex, str, i))
      decreases |str| - i
    {
      if i >= MinCount(repeat) {
        var tail := MatchRegexAtHead(regex, str[i..]);
        if tail {
          return true;
        }
      }
      if i == |str| || !AtomMatchesChar(escaped, c, str[i]) {
        return false;
      }
      i := i + 1;
    }
    return false;
  }

  method MatchRegexAnywhere(regex: Option<CString>, str: Option<CString>) returns (b: bool)
    requires regex.Some? ==> Scan(regex.value, true, false)
    ensures regex.None? || str.None? ==> !b
    ensures regex.Some? && str.Some? ==>
              forall p: Pattern :: ValidItems(p.items) && Print(p) == regex.value ==>
                (b <==> MatchesSomewhere(p, str.value))
  {
    if regex.None? || str.None? {
      return false;
    }
    var r, s := regex.value, str.value;
    ScanWithoutAnchor(r);
    if r != "" && r[0] == '^' {
      b := MatchRegexAtHead(r[1..], s);
      AnchoredMeans(r, s);
      return;
    }
    var k := 0;
    b := false;
    while k <= |s|
      invariant 0 <= k <= |s| + 1
      invariant !b && forall i :: 0 <= i < k ==> !MatchHead(r, s[i..])
    {
      b := MatchRegexAtHead(r, s[k..]);
      if b {
        break;
      }
      k := k + 1;
    }
    UnanchoredMeans(r, s);
  }

  // ---- The matcher decides the language ----

  /** The first i characters match the atom. */
  ghost predicate RunOf(a: Atom, s: string, i: nat) {
    i <= |s| && forall k :: 0 <= k < i ==> AtomMatchesChar(a.escaped, a.c, s[k])
  }

  lemma {:induction false} RepetitionCounts(a: Atom, repeat: char, regex: CString, str: CString, i: nat)
    requires IsRepeat(repeat) && RunOf(a, str, i) && (repeat == '?' ==> i <= 1)
    ensures MatchRepetition(a.escaped, a.c, repeat, regex, str, i) <==>
            exists n :: i <= n <= |str| && RunOf(a, str, n) && ItemCount(repeat, n) && MatchHead(regex, str[n..])
    decreases |str| - i
  {
    hide MatchHead, AtomMatchesChar;
    if i < |str| && AtomMatchesChar(a.escaped, a.c, str[i]) && MayGoOn(repeat, i) {
      RepetitionCounts(a, repeat, regex, str, i + 1);
    }
    if MatchRepetition(a.escaped, a.c, repeat, regex, str, i) && i >= MinCount(repeat) && MatchHead(regex, str[i..]) {
      assert ItemCount(repeat, i);
    }
    forall n | i <= n <= |str| && RunOf(a, str, n) && ItemCount(repeat, n) && MatchHead(regex, str[n..])
      ensures MatchRepetition(a.escaped, a.c, repeat, regex, str, i)
    {
      if n > i {
        assert AtomMatchesChar(a.escaped, a.c, str[i]);
      }
    }
  }

  predicate ItemCount(repeat: char, n: nat) { n >= MinCount(repeat) && (repeat == '?' ==> n <= 1) }

  /** Splitting the first item off a match at the head. */
  lemma PrefixSplits(items: seq<Item>, end: bool, s: string)
    requires items != []
    ensures MatchesPrefix(items, end, s) <==>
            exists n :: 0 <= n <= |s| && ItemMatches(items[0], s[..n]) && MatchesPrefix(items[1..], end, s[n..])
  {
    if MatchesPrefix(items, end, s) {
      var k :| 0 <= k <= |s| && Language(items, s[..k]) && (end ==> k == |s|);
      var n :| 0 <= n <= k && ItemMatches(items[0], s[..k][..n]) && Language(items[1..], s[..k][n..]);
      assert s[..k][..n] == s[..n] && s[..k][n..] == s[n..][..k-n];
      assert MatchesPrefix(items[1..], end, s[n..]);
    }
    forall n | 0 <= n <= |s| && ItemMatches(items[0], s[..n]) && MatchesPrefix(items[1..], end, s[n..])
      ensures MatchesPrefix(items, end, s)
    {
      var j :| 0 <= j <= |s[n..]| && Language(items[1..], s[n..][..j]) && (end ==> j == |s[n..]|);
      assert s[..n+j][..n] == s[..n] && s[..n+j][n..] == s[n..][..j];
      assert Language(items, s[..n+j]);
    }
  }

  lemma NoItems(end: bool, s: string)
    ensures MatchesPrefix([], end, s) <==> (end ==> s == "")
  {
    if !end || s == "" {
      assert Language([], s[..0]);
    }
  }

  /** At the head the matcher answers whether a prefix is in the language. */
  lemma {:induction false} HeadDecides(items: seq<Item>, end: bool, regex: CString, str: CString)
    requires ValidItems(items) && regex == PrintItems(items, end)
    ensures MatchHead(regex, str) <==> MatchesPrefix(items, end, str)
    decreases |items|
  {
    if items == [] {
      NoItems(end, str);
    } else {
      var rest := PrintItems(items[1..], end);
      PrintedIsCString(items[1..], end);
      forall n | 0 <= n <= |str|
        ensures MatchHead(rest, str[n..]) <==> MatchesPrefix(items[1..], end, str[n..])
      {
        HeadDecides(items[1..], end, rest, str[n..]);
      }
      RestStart(items[1..], end, rest);
      HeadSplits(items[0], rest, regex, str);
      PrefixSplits(items, end, str);
    }
  }

  /** What follows an item does not start with a repeat character. */
  lemma RestStart(items: seq<Item>, end: bool, rest: string)
    requires ValidItems(items) && rest == PrintItems(items, end)
    ensures rest != "" ==> !IsRepeat(rest[0])
  {
    if items != [] {
      assert ValidAtom(items[0].atom);
    }
  }

  lemma HeadSplits(item: Item, rest: CString, regex: CString, str: CString)
    requires ValidAtom(item.atom) && regex == PrintItem(item) + rest && (rest != "" ==> !IsRepeat(rest[0]))
    ensures MatchHead(regex, str) <==>
            exists n :: 0 <= n <= |str| && ItemMatches(item, str[..n]) && MatchHead(rest, str[n..])
  {
    hide MatchHead, MatchRepetition, ValidAtom, ItemMatches, AtomMatchesChar, RunOf, ItemCount, PrintAtom;
    if item.repeat.Once? {
      assert regex == PrintAtom(item.atom) + rest;
      HeadOfAtom(item.atom, rest, regex, str);
      OnceSplits(item, rest, str);
    } else {
      var c := PrintRepeat(item.repeat)[0];
      assert IsRepeat(c) && PrintRepeat(item.repeat) == [c];
      HeadOfRepeat(item.atom, c, rest, regex, str);
      NothingYet(item.atom, str);
      RepetitionCounts(item.atom, c, rest, str, 0);
      RepeatSplits(item, c, rest, str);
    }
  }

  lemma NothingYet(a: Atom, str: string)
    ensures RunOf(a, str, 0)
  {
  }

  /** The matcher in front of an atom that is not repeated. */
  lemma HeadOfAtom(atom: Atom, rest: CString, regex: CString, str: CString)
    requires ValidAtom(atom) && regex == PrintAtom(atom) + rest && (rest != "" ==> !IsRepeat(rest[0]))
    ensures MatchHead(regex, str) <==>
            str != "" && AtomMatchesChar(atom.escaped, atom.c, str[0]) && MatchHead(rest, str[1..])
  {
    hide AtomMatchesChar, MatchRepetition;
    var r := if atom.escaped then regex[1..] else regex;
    assert r[0] == atom.c && r[1..] == rest;
  }

  /** The matcher in front of an atom that is. */
  lemma HeadOfRepeat(atom: Atom, c: char, rest: CString, regex: CString, str: CString)
    requires ValidAtom(atom) && IsRepeat(c) && regex == PrintAtom(atom) + [c] + rest
    ensures MatchHead(regex, str) <==> MatchRepetition(atom.escaped, atom.c, c, rest, str, 0)
  {
    hide AtomMatchesChar, MatchRepetition;
    var r := if atom.escaped then regex[1..] else regex;
    assert r[0] == atom.c && r[1] == c && r[2..] == rest;
  }

  lemma OnceSplits(item: Item, rest: CString, str: CString)
    requires item.repeat.Once? && ValidAtom(item.atom)
    ensures (str != "" && AtomMatchesChar(item.atom.escaped, item.atom.c, str[0]) && MatchHead(rest, str[1..])) <==>
            exists n :: 0 <= n <= |str| && ItemMatches(item, str[..n]) && MatchHead(rest, str[n..])
  {
    hide ValidAtom, StandsFor, AtomMatchesChar, MatchHead;
    if str != "" {
      AtomDecides(item.atom, str[0]);
    }
    if str != "" && AtomMatchesChar(item.atom.escaped, item.atom.c, str[0]) && MatchHead(rest, str[1..]) {
      assert ItemMatches(item, str[..1]);
    }
    forall n | 0 <= n <= |str| && ItemMatches(item, str[..n]) && MatchHead(rest, str[n..])
      ensures str != "" && AtomMatchesChar(item.atom.escaped, item.atom.c, str[0]) && MatchHead(rest, str[1..])
    {
      assert n == 1 && str[..n][0] == str[0];
    }
  }

  lemma RepeatSplits(item: Item, repeat: char, rest: CString, str: CString)
    requires !item.repeat.Once? && IsRepeat(repeat) && [repeat] == PrintRepeat(item.repeat) && ValidAtom(item.atom)
    ensures (exists n :: 0 <= n <= |str| && RunOf(item.atom, str, n) && ItemCount(repeat, n)
                         && MatchHead(rest, str[n..])) <==>
            (exists n :: 0 <= n <= |str| && ItemMatches(item, str[..n]) && MatchHead(rest, str[n..]))
  {
    hide ValidAtom, StandsFor, AtomMatchesChar, MatchHead;
    assert repeat == PrintRepeat(item.repeat)[0];
    forall k | 0 <= k < |str|
      ensures AtomMatchesChar(item.atom.escaped, item.atom.c, str[k]) <==> StandsFor(item.atom, str[k])
    {
      AtomDecides(item.atom, str[k]);
    }
    forall n: nat | n <= |str|
      ensures RunOf(item.atom, str, n) && ItemCount(repeat, n) <==> ItemMatches(item, str[..n])
    {
      assert forall k :: 0 <= k < n ==> str[..n][k] == str[k];
    }
  }

  /** A match somewhere is a match at the head of some suffix. */
  lemma SomewhereIsSuffix(p: Pattern, s: string)
    ensures MatchesSomewhere(p, s) <==>
            exists i :: 0 <= i <= |s| && (p.start ==> i == 0) && MatchesPrefix(p.items, p.end, s[i..])
  {
    if MatchesSomewhere(p, s) {
      var i, j :| 0 <= i <= j <= |s| && Language(p.items, s[i..j]) && (p.start ==> i == 0) && (p.end ==> j == |s|);
      assert s[i..][..j-i] == s[i..j];
      assert MatchesPrefix(p.items, p.end, s[i..]);
    }
    forall i | 0 <= i <= |s| && (p.start ==> i == 0) && MatchesPrefix(p.items, p.end, s[i..])
      ensures MatchesSomewhere(p, s)
    {
      var k :| 0 <= k <= |s[i..]| && Language(p.items, s[i..][..k]) && (p.end ==> k == |s[i..]|);
      assert s[i..][..k] == s[i..i+k];
    }
  }

  lemma AnchoredMeans(r: CString, s: CString)
    requires r != "" && r[0] == '^'
    ensures forall p: Pattern :: ValidItems(p.items) && Print(p) == r ==>
              (MatchHead(r[1..], s) <==> MatchesSomewhere(p, s))
  {
    forall p: Pattern | ValidItems(p.items) && Print(p) == r
      ensures MatchHead(r[1..], s) <==> MatchesSomewhere(p, s)
    {
      NoAnchorInItems(p.items, p.end);
      assert p.start && r[1..] == PrintItems(p.items, p.end);
      HeadDecides(p.items, p.end, r[1..], s);
      SomewhereIsSuffix(p, s);
      assert s[0..] == s;
    }
  }

  lemma NoAnchorInItems(items: seq<Item>, end: bool)
    requires ValidItems(items)
    ensures var t := PrintItems(items, end); t != "" ==> t[0] != '^'
  {
    if items != [] {
      assert ValidAtom(items[0].atom);
    }
  }

  lemma UnanchoredMeans(r: CString, s: CString)
    requires r == "" || r[0] != '^'
    ensures forall p: Pattern :: ValidItems(p.items) && Print(p) == r ==>
              ((exists i :: 0 <= i <= |s| && MatchHead(r, s[i..])) <==> MatchesSomewhere(p, s))
  {
    forall p: Pattern | ValidItems(p.items) && Print(p) == r
      ensures (exists i :: 0 <= i <= |s| && MatchHead(r, s[i..])) <==> MatchesSomewhere(p, s)
    {
      assert !p.start;
      forall i | 0 <= i <= |s| ensures MatchHead(r, s[i..]) <==> MatchesPrefix(p.items, p.end, s[i..]) {
        HeadDecides(p.items, p.end, r, s[i..]);
      }
      SomewhereIsSuffix(p, s);
    }
  }
}
