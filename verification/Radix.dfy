/** The string constructor of uint128 and to_string: reading and printing 128-bit numbers. */
module Radix {
  import opened Wrappers
  import opened Bits
  import opened UInt128

  // ---- Digits ----

  const DIGITS := "0123456789abcdefghijklmnopqrstuvwxyz"

  /** The entry of the digit table; one past its end is the terminator. */
  function DigitChar(d: nat): char
    requires d <= 36
  {
    if d == 36 then '\0' else DIGITS[d]
  }

  /** The value of a digit in this radix, if the character is one. */
  function DigitOf(c: char, radix: nat): (n: Option<nat>)
    ensures n.Some? ==> n.value < radix
  {
    if 'A' <= c <= 'Z' then
      if c as nat - 'A' as nat + 10 < radix then Some(c as nat - 'A' as nat + 10) else None
    else if 'a' <= c <= 'z' then
      if c as nat - 'a' as nat + 10 < radix then Some(c as nat - 'a' as nat + 10) else None
    else if '0' <= c <= '9' then
      if c as nat - '0' as nat < radix then Some(c as nat - '0' as nat) else None
    else None
  }

  lemma TableByCode(d: nat)
    requires d < 36
    ensures DigitChar(d) as int == if d < 10 then 48 + d else 97 + (d - 10)
  {
  }

  lemma DigitRoundTrip(d: nat, radix: nat)
    requires d < radix <= 36
    ensures DigitOf(DigitChar(d), radix) == Some(d)
    ensures DigitChar(d) != '\0' && DigitChar(d) != '-' && (d > 0 ==> DigitChar(d) != '0')
    ensures radix <= 33 ==> DigitChar(d) != 'x'
  {
    hide DigitChar;
    TableByCode(d);
  }

  /** The digits by their codes: 48 is '0', 65 is 'A' and 97 is 'a', and nothing else is one. */
  lemma DigitByCode(c: char, radix: nat, n: nat)
    ensures DigitOf(c, radix) == Some(n) <==>
            n < radix && ((n < 10 && c as int == 48 + n)
                          || (10 <= n < 36 && (c as int == 65 + n - 10 || c as int == 97 + n - 10)))
  {
  }

  /** tolower and toupper on ASCII. */
  function LowerChar(c: char): char { if 65 <= c as int <= 90 then (c as int + 32) as char else c }

  function UpperChar(c: char): char { if 97 <= c as int <= 122 then (c as int - 32) as char else c }

  function Lower(s: string): (t: string)
    ensures |t| == |s| && forall i :: 0 <= i < |s| ==> t[i] == LowerChar(s[i])
  {
    seq(|s|, i requires 0 <= i < |s| => LowerChar(s[i]))
  }

  function Upper(s: string): (t: string)
    ensures |t| == |s| && forall i :: 0 <= i < |s| ==> t[i] == UpperChar(s[i])
  {
    seq(|s|, i requires 0 <= i < |s| => UpperChar(s[i]))
  }

  lemma CharCase(c: char, radix: nat)
    ensures DigitOf(LowerChar(c), radix) == DigitOf(c, radix) == DigitOf(UpperChar(c), radix)
  {
  }

  // ---- Reading ----

  /** One more digit. */
  function Push(acc: nat, radix: nat, n: nat): nat { Mod128(acc * radix + n) }

  /** The loop of the constructor: digits are taken until one is not a digit of the radix. */
  function Accumulate(s: string, radix: nat, acc: nat): nat {
    if s == [] then acc
    else match DigitOf(s[0], radix)
         case None => acc
         case Some(n) => Accumulate(s[1..], radix, Push(acc, radix, n))
  }

  predicate AllDigits(s: string, radix: nat) {
    forall i :: 0 <= i < |s| ==> DigitOf(s[i], radix).Some?
  }

  /** The number that digits in this radix stand for. */
  function NumeralValue(s: string, radix: nat): nat
    requires AllDigits(s, radix)
  {
    hide DigitOf;
    if s == [] then 0
    else NumeralValue(s[..|s|-1], radix) * radix + DigitOf(s[|s|-1], radix).value
  }

  /** The longest run of digits at the front. */
  function DigitPrefix(s: string, radix: nat): (p: string)
    ensures p <= s && AllDigits(p, radix)
    ensures |p| < |s| ==> DigitOf(s[|p|], radix).None?
  {
    hide DigitOf;
    if s == [] || DigitOf(s[0], radix).None? then "" else [s[0]] + DigitPrefix(s[1..], radix)
  }

  /** What the digits at the front stand for, in 128 bits. */
  function Reading(s: string, radix: nat): nat {
    Mod128(NumeralValue(DigitPrefix(s, radix), radix))
  }

  /** What follows an optional minus: a leading 0 selects radix 8, and 0x radix 16. */
  function Unsigned(s: string): nat {
    if s == [] then 0
    else if s[0] != '0' then Reading(s, 10)
    else if |s| > 1 && s[1] == 'x' then Reading(s[2..], 16)
    else Reading(s[1..], 8)
  }

  function ParseValue(s: string): nat {
    if s != [] && s[0] == '-' then Mod128(-(Unsigned(s[1..]) as int)) else Unsigned(s)
  }

  lemma {:induction false} AccumulateStops(s: string, radix: nat, acc: nat)
    ensures Accumulate(s, radix, acc) == Accumulate(DigitPrefix(s, radix), radix, acc)
  {
    hide Push, DigitOf;
    if s == [] || DigitOf(s[0], radix).None? {
      assert DigitPrefix(s, radix) == "";
    } else {
      var p := DigitPrefix(s, radix);
      assert p[0] == s[0] && p[1..] == DigitPrefix(s[1..], radix);
      AccumulateStops(s[1..], radix, Push(acc, radix, DigitOf(s[0], radix).value));
    }
  }

  lemma PushReduced(v: nat, radix: nat, n: nat)
    ensures Push(Mod128(v), radix, n) == Mod128(v * radix + n)
  {
    var m := 0x1_0000_0000_0000_0000_0000_0000_0000_0000;
    var q, r := v / m, Mod128(v);
    assert v == m * q + r;
    Distribute(r, m, q, radix);
    Mod128Drops(r * radix + n, q * radix);
  }

  lemma NumeralOf(front: string, c: char, radix: nat)
    requires AllDigits(front, radix) && DigitOf(c, radix).Some?
    ensures AllDigits(front + [c], radix)
    ensures NumeralValue(front + [c], radix) == NumeralValue(front, radix) * radix + DigitOf(c, radix).value
  {
    hide DigitOf;
    assert (front + [c])[..|front|] == front;
  }

  lemma {:induction false} AccumulateDigits(s: string, radix: nat)
    requires AllDigits(s, radix)
    ensures Accumulate(s, radix, 0) == Mod128(NumeralValue(s, radix))
  {
    hide *;
    if s == [] {
      NothingRead(radix);
      SmallValues();
    } else {
      var front, c := s[..|s|-1], s[|s|-1];
      assert s == front + [c];
      FrontDigits(front, c, radix);
      AccumulateDigits(front, radix);
      AccumulateLast(front, c, radix, 0);
      NumeralOf(front, c, radix);
      PushReduced(NumeralValue(front, radix), radix, DigitOf(c, radix).value);
    }
  }

  lemma FrontDigits(front: string, c: char, radix: nat)
    requires AllDigits(front + [c], radix)
    ensures AllDigits(front, radix) && DigitOf(c, radix).Some?
  {
    hide DigitOf;
    var s := front + [c];
    assert s[|front|] == c;
    assert forall i :: 0 <= i < |front| ==> s[i] == front[i];
  }

  lemma NothingRead(radix: nat)
    ensures Accumulate("", radix, 0) == 0 && NumeralValue("", radix) == 0
  {
  }

  /** The loop reads the number that the digits at the front stand for, in 128 bits. */
  lemma AccumulateIsReading(s: string, radix: nat)
    ensures Accumulate(s, radix, 0) == Reading(s, radix)
  {
    hide Accumulate, DigitPrefix, DigitOf, Mod128, NumeralValue;
    AccumulateStops(s, radix, 0);
    AccumulateDigits(DigitPrefix(s, radix), radix);
  }

  lemma {:induction false} PrefixCase(s: string, t: string, radix: nat)
    requires |s| == |t| && forall i :: 0 <= i < |s| ==> DigitOf(s[i], radix) == DigitOf(t[i], radix)
    ensures |DigitPrefix(s, radix)| == |DigitPrefix(t, radix)|
  {
    hide DigitOf;
    if s == [] || DigitOf(s[0], radix).None? {
    } else {
      PrefixCase(s[1..], t[1..], radix);
    }
  }

  lemma {:induction false} ValueCase(s: string, t: string, radix: nat)
    requires |s| == |t| && forall i :: 0 <= i < |s| ==> DigitOf(s[i], radix) == DigitOf(t[i], radix)
    requires AllDigits(s, radix) && AllDigits(t, radix)
    ensures NumeralValue(s, radix) == NumeralValue(t, radix)
  {
    hide DigitOf;
    if s == [] {
    } else {
      ValueCase(s[..|s|-1], t[..|t|-1], radix);
    }
  }

  lemma SameDigitsSameReading(s: string, t: string, radix: nat)
    requires |s| == |t| && forall i :: 0 <= i < |s| ==> DigitOf(s[i], radix) == DigitOf(t[i], radix)
    ensures Reading(s, radix) == Reading(t, radix)
  {
    hide DigitOf, NumeralValue;
    PrefixCase(s, t, radix);
    ValueCase(DigitPrefix(s, radix), DigitPrefix(t, radix), radix);
  }

  /** Upper and lower case digits read alike. */
  lemma ReadingIgnoresCase(s: string, radix: nat)
    ensures Reading(s, radix) == Reading(Lower(s), radix) == Reading(Upper(s), radix)
  {
    hide Reading, DigitOf, LowerChar, UpperChar;
    forall i | 0 <= i < |s|
      ensures DigitOf(Lower(s)[i], radix) == DigitOf(s[i], radix) == DigitOf(Upper(s)[i], radix)
    {
      CharCase(s[i], radix);
    }
    SameDigitsSameReading(s, Lower(s), radix);
    SameDigitsSameReading(s, Upper(s), radix);
  }

  lemma ModOfSum(a: nat, n: nat, radix: nat, r: nat, t: nat)
    requires r == Mod128(a * radix) && t == Mod128(r + n)
    ensures t == Mod128(a * radix + n)
  {
    var m := 0x1_0000_0000_0000_0000_0000_0000_0000_0000;
    var q := (a * radix) / m;
    assert a * radix == m * q + r;
    Mod128Drops(r + n, q);
  }

  lemma SmallVal(n: U64)
    ensures Val(U128(n, 0)) == n
  {
  }

  /** (*this) *= radix; (*this) += n. */
  method Shift(acc: U128, radix: nat, n: nat) returns (r: U128)
    requires radix <= 16 && n < radix
    ensures Val(r) == Push(Val(acc), radix, n)
  {
    hide Val, Mod128;
    SmallVal(radix);
    SmallVal(n);
    var m := Multiply(acc, U128(radix, 0));
    r := Add(m, U128(n, 0));
    ModOfSum(Val(acc), n, radix, Val(m), Val(r));
  }

  /** The string constructor. */
  method Parse(sz: string) returns (r: U128)
    ensures Val(r) == ParseValue(sz)
  {
    hide Val, Mod128, Reading, Unsigned;
    SmallValues();
    NothingIsZero();
    r := ZERO;
    if sz == [] {
      return;
    }
    var minus := sz[0] == '-';
    var i := if minus then 1 else 0;
    var radix := 10;
    ghost var rest := sz[i..];
    assert !minus ==> rest == sz;
    assert i == |sz| ==> rest == "";
    if i < |sz| {
      if sz[i] == '0' {
        radix := 8;
        i := i + 1;
        if i < |sz| && sz[i] == 'x' {
          radix := 16;
          i := i + 1;
        }
      }
      r := ParseDigits(sz, i, radix);
      PrefixIs(sz, if minus then 1 else 0, i, radix, rest);
    }
    if minus {
      r := Negate(r);
    }
  }

  lemma NothingIsZero()
    ensures Unsigned("") == 0
  {
  }

  lemma PrefixIs(sz: string, start: nat, i: nat, radix: nat, rest: string)
    requires start < |sz| && start <= i <= |sz| && rest == sz[start..]
    requires if sz[start] != '0' then i == start && radix == 10
             else if start + 1 < |sz| && sz[start+1] == 'x' then i == start + 2 && radix == 16
             else i == start + 1 && radix == 8
    ensures Unsigned(rest) == Reading(sz[i..], radix)
  {
    hide Reading;
    assert rest[0] == sz[start];
    assert start + 1 < |sz| ==> rest[1] == sz[start+1];
    assert rest[i-start..] == sz[i..];
  }

  method ParseDigits(sz: string, start: nat, radix: nat) returns (r: U128)
    requires start <= |sz| && radix <= 16
    ensures Val(r) == Reading(sz[start..], radix)
  {
    hide Val, Push, Reading;
    AccumulateIsReading(sz[start..], radix);
    SmallValues();
    r := ZERO;
    var i := start;
    while i < |sz|
      invariant start <= i <= |sz|
      invariant Accumulate(sz[start..], radix, 0) == Accumulate(sz[i..], radix, Val(r))
    {
      assert sz[i..][0] == sz[i] && sz[i..][1..] == sz[i+1..];
      var n := DigitOf(sz[i], radix);
      if n.None? {
        break;
      }
      r := Shift(r, radix, n.value);
      i := i + 1;
    }
  }

  // ---- Printing ----

  function Pow(b: nat, e: nat): (p: nat)
    ensures b > 0 ==> p > 0
  {
    if e == 0 then 1 else b * Pow(b, e - 1)
  }

  /** The low digits of v, at most as many as there is room for, most significant first. */
  function Render(v: nat, radix: nat, room: nat): string
    requires 2 <= radix <= 37
    decreases room
  {
    if v == 0 || room == 0 then ""
    else Render(v / radix, radix, room - 1) + [DigitChar(v % radix)]
  }

  /** A C string ends at its first terminator. */
  function UntilNul(s: string): string {
    if s == [] || s[0] == '\0' then [] else [s[0]] + UntilNul(s[1..])
  }

  /** to_string: the buffer has room for 127 digits. */
  function Text(v: nat, radix: nat): string {
    if v == 0 then "0"
    else if radix < 2 || radix > 37 then "(invalid radix)"
    else UntilNul(Render(v, radix, 127))
  }

  lemma {:induction false} UntilNulAt(s: string, t: string)
    requires t != [] && t[0] == '\0'
    ensures UntilNul(s + t) == UntilNul(s)
  {
    if s == [] {
      assert s + t == t;
    } else {
      assert (s + t)[0] == s[0] && (s + t)[1..] == s[1..] + t;
      UntilNulAt(s[1..], t);
    }
  }

  /** divide(ii, radix, ii, remainder). */
  method NextDigit(ii: U128, radix: nat) returns (q: U128, d: nat)
    requires 2 <= radix <= 37
    ensures Val(q) == Val(ii) / radix && d == Val(ii) % radix
  {
    hide *;
    SmallVal(radix);
    var r := Divide(ii, U128(radix, 0));
    q, d := r.value.0, r.value.1.lo;
    UniqueDivision(Val(ii), radix, Val(q), Val(r.value.1));
    LowHalf(r.value.1);
  }

  lemma LowHalf(a: U128)
    ensures Val(a) < 0x1_0000_0000_0000_0000 ==> a.lo == Val(a)
  {
  }

  /** to_string: fill the buffer from its end. */
  method ToString(v: U128, radix: nat) returns (s: string)
    ensures s == Text(Val(v), radix)
  {
    hide Val, Render, UntilNul, DigitChar, Text;
    SmallValues();
    TextIs(Val(v), radix);
    ValIsInjective(v, ZERO);
    if v == ZERO {
      return "0";
    }
    if radix < 2 || radix > 37 {
      return "(invalid radix)";
    }
    var sz := new char[129](_ => '\0');
    var ii := v;
    var i := 127;
    RenderStops(Val(ii), radix, i);
    while ii != ZERO && i != 0
      invariant 0 <= i <= 127 && sz.Length == 129 && sz[127] == '\0'
      invariant Render(Val(v), radix, 127) == Render(Val(ii), radix, i) + sz[i..127]
    {
      ValIsInjective(ii, ZERO);
      RenderNext(Val(ii), radix, i);
      ghost var before := sz[..];
      var d;
      ii, d := NextDigit(ii, radix);
      i := i - 1;
      sz[i] := DigitChar(d);
      InFront(before, sz[..], i);
    }
    ValIsInjective(ii, ZERO);
    RenderStops(Val(ii), radix, i);
    assert Render(Val(v), radix, 127) == sz[i..127];
    UpToTerminator(sz[..], i);
    assert sz[..][i..] == sz[i..] && sz[..][i..127] == sz[i..127];
    s := UntilNul(sz[i..]);
  }

  lemma TextIs(v: nat, radix: nat)
    ensures v == 0 ==> Text(v, radix) == "0"
    ensures v > 0 && (radix < 2 || radix > 37) ==> Text(v, radix) == "(invalid radix)"
    ensures v > 0 && 2 <= radix <= 37 ==> Text(v, radix) == UntilNul(Render(v, radix, 127))
  {
  }

  /** One more character in front of the digits. */
  lemma InFront(before: string, after: string, i: nat)
    requires |before| == 129 && |after| == 129 && i < 127 && after == before[i := after[i]]
    ensures after[i..127] == [after[i]] + before[i+1..127]
  {
  }

  lemma UpToTerminator(sz: string, i: nat)
    requires |sz| == 129 && i <= 127 && sz[127] == '\0'
    ensures UntilNul(sz[i..]) == UntilNul(sz[i..127])
  {
    hide UntilNul;
    assert sz[i..] == sz[i..127] + sz[127..];
    UntilNulAt(sz[i..127], sz[127..]);
  }

  lemma RenderStops(v: nat, radix: nat, room: nat)
    requires 2 <= radix <= 37
    ensures v == 0 || room == 0 ==> Render(v, radix, room) == ""
  {
  }

  lemma RenderNext(v: nat, radix: nat, room: nat)
    requires 2 <= radix <= 37 && v > 0 && room > 0
    ensures Render(v, radix, room) == Render(v / radix, radix, room - 1) + [DigitChar(v % radix)]
  {
  }

  // ---- What is printed ----

  lemma {:induction false} RenderDigits(v: nat, radix: nat, room: nat)
    requires 2 <= radix <= 36
    ensures AllDigits(Render(v, radix, room), radix)
    ensures forall i :: 0 <= i < |Render(v, radix, room)| ==> Render(v, radix, room)[i] != '\0'
  {
    hide DigitOf, DigitChar, Render;
    if v == 0 || room == 0 {
      RenderStops(v, radix, room);
    } else {
      RenderNext(v, radix, room);
      DivAtMost(v, radix);
      RenderDigits(v / radix, radix, room - 1);
      DigitRoundTrip(v % radix, radix);
    }
  }

  lemma DigitIsLower(d: nat)
    requires d < 36
    ensures LowerChar(DigitChar(d)) == DigitChar(d)
  {
    hide DigitChar;
    TableByCode(d);
  }

  lemma {:induction false} RenderLower(v: nat, radix: nat, room: nat)
    requires 2 <= radix <= 36
    ensures Lower(Render(v, radix, room)) == Render(v, radix, room)
  {
    hide DigitOf, DigitChar, Render, LowerChar;
    if v == 0 || room == 0 {
      RenderStops(v, radix, room);
    } else {
      RenderNext(v, radix, room);
      DivAtMost(v, radix);
      RenderLower(v / radix, radix, room - 1);
      DigitIsLower(v % radix);
      LowerNext(Render(v / radix, radix, room - 1), DigitChar(v % radix));
    }
  }

  lemma LowerNext(s: string, c: char)
    ensures Lower(s + [c]) == Lower(s) + [LowerChar(c)]
  {
  }

  lemma {:induction false} UntilNulKeeps(s: string)
    requires forall i :: 0 <= i < |s| ==> s[i] != '\0'
    ensures UntilNul(s) == s
  {
    if s == [] {
    } else {
      UntilNulKeeps(s[1..]);
    }
  }

  /** Up to radix 36 the text is the rendered digits. */
  lemma TextIsRender(v: nat, radix: nat)
    requires 2 <= radix <= 36 && v > 0
    ensures Text(v, radix) == Render(v, radix, 127)
  {
    RenderDigits(v, radix, 127);
    UntilNulKeeps(Render(v, radix, 127));
  }

  /** With room for n digits what is printed is the number modulo radix^n. */
  lemma {:induction false} RenderValue(v: nat, radix: nat, room: nat)
    requires 2 <= radix <= 36
    ensures AllDigits(Render(v, radix, room), radix)
    ensures NumeralValue(Render(v, radix, room), radix) == v % Pow(radix, room)
  {
    hide *;
    RenderDigits(v, radix, room);
    if room == 0 || v == 0 {
      RenderStops(v, radix, room);
      NothingRead(radix);
      PowStep(radix, 0);
      ModOfStop(v, Pow(radix, room));
    } else {
      RenderNext(v, radix, room);
      DivAtMost(v, radix);
      RenderValue(v / radix, radix, room - 1);
      DigitRoundTrip(v % radix, radix);
      NumeralOf(Render(v / radix, radix, room - 1), DigitChar(v % radix), radix);
      PowStep(radix, room - 1);
      ModByParts(v, radix, Pow(radix, room - 1));
    }
  }

  lemma ModOfStop(v: nat, m: nat)
    requires m > 0 && (v == 0 || m == 1)
    ensures v % m == 0
  {
  }

  lemma ModByParts(v: nat, b: nat, p: nat)
    requires b > 0 && p > 0
    ensures v % (b * p) == ((v / b) % p) * b + v % b
  {
    var h, l := v / b, v % b;
    var hh, hl := h / p, h % p;
    ModByPartsFrom(v, b, p, h, l, hh, hl);
  }

  lemma ModByPartsFrom(v: int, b: int, p: int, h: int, l: int, hh: int, hl: int)
    requires b > 0 && p > 0 && v == b * h + l && 0 <= l < b && h == p * hh + hl && 0 <= hl < p
    ensures v % (b * p) == hl * b + l
  {
    assert b * h == (b * p) * hh + hl * b by {
      assert b * (p * hh + hl) == b * (p * hh) + b * hl;
      assert b * (p * hh) == (b * p) * hh;
    }
    ScaleBelow(b, hl, p);
    UniqueDivision(v, b * p, hh, hl * b + l);
  }

  /** What to_string prints consists of digits, and stands for the number itself exactly when
      that has at most 127 of them; then it has no leading zero. */
  lemma PrintsExactlyIff(v: nat, radix: nat)
    requires 2 <= radix <= 36
    ensures Text(v, radix) != "" && AllDigits(Text(v, radix), radix)
    ensures NumeralValue(Text(v, radix), radix) == v <==> v < Pow(radix, 127)
    ensures 0 < v < Pow(radix, 127) ==> Text(v, radix)[0] != '0'
  {
    if v == 0 {
      ValueOfZero(radix);
    } else {
      RenderNext(v, radix, 127);
      TextIsRender(v, radix);
      RenderDigits(v, radix, 127);
      if v < Pow(radix, 127) {
        var d := FirstDigit(v, radix, 127);
        DigitRoundTrip(d, radix);
      }
      RenderValue(v, radix, 127);
      ModEqualsIff(v, Pow(radix, 127));
    }
  }

  lemma ValueOfZero(radix: nat)
    requires radix > 0
    ensures Text(0, radix) == "0" && AllDigits("0", radix) && NumeralValue("0", radix) == 0
  {
    assert DigitOf('0', radix) == Some(0);
    assert "0"[..0] == "";
  }

  lemma ModEqualsIff(v: nat, m: nat)
    requires m > 0
    ensures v % m == v <==> v < m
  {
    if v < m { SmallMod(v, m); }
  }

  lemma {:induction false} PowAdds(b: nat, m: nat, n: nat)
    ensures Pow(b, m + n) == Pow(b, m) * Pow(b, n)
  {
    hide *;
    PowStep(b, if m > 0 then m - 1 else 0);
    if m == 0 {
    } else {
      PowAdds(b, m - 1, n);
      PowStep(b, m - 1 + n);
      Associate(b, Pow(b, m - 1), Pow(b, n));
    }
  }

  lemma PowStep(b: nat, e: nat)
    ensures Pow(b, 0) == 1 && Pow(b, e + 1) == b * Pow(b, e)
  {
  }

  lemma Associate(a: nat, b: nat, c: nat)
    ensures a * (b * c) == (a * b) * c
  {
  }

  lemma {:induction false} PowGrows(b: nat, c: nat, m: nat, n: nat)
    requires 1 <= b <= c && m <= n
    ensures Pow(b, m) <= Pow(c, n)
    decreases n
  {
    if m == 0 {
    } else {
      PowGrows(b, c, m - 1, n - 1);
      ProductGrows(b, c, Pow(b, m - 1), Pow(c, n - 1));
    }
  }

  lemma ProductGrows(a: nat, b: nat, x: nat, y: nat)
    requires a <= b && x <= y
    ensures a * x <= b * y
  {
    MulMonotone(a, x, y);
    MulMonotone(y, a, b);
  }

  lemma PowOfThree()
    ensures Pow(3, 81) == 443426488243037769948249630619149892803
  {
    assert Pow(3, 3) == 27;
    PowAdds(3, 3, 3);
    PowAdds(3, 6, 3);
    assert Pow(3, 9) == 19683;
    PowAdds(3, 9, 9);
    PowAdds(3, 18, 9);
    assert Pow(3, 27) == 7625597484987;
    PowAdds(3, 27, 27);
    PowAdds(3, 54, 27);
  }

  /** From radix 3 on every 128-bit number has room. */
  lemma RoomFromThree(v: nat, radix: nat)
    requires radix >= 3 && v < 0x1_0000_0000_0000_0000_0000_0000_0000_0000
    ensures v < Pow(radix, 127)
  {
    PowOfThree();
    PowGrows(3, radix, 81, 127);
  }

  /** to_string prints the digits of every 128-bit number in the radices 3 to 36, without a
      leading zero, and in radix 2 exactly those of the numbers below 2^127. */
  lemma PrintsEveryNumber(v: nat, radix: nat)
    requires 2 <= radix <= 36 && v < 0x1_0000_0000_0000_0000_0000_0000_0000_0000
    ensures Text(v, radix) != "" && AllDigits(Text(v, radix), radix)
    ensures NumeralValue(Text(v, radix), radix) == v <==>
            radix >= 3 || v < 0x8000_0000_0000_0000_0000_0000_0000_0000
    ensures NumeralValue(Text(v, radix), radix) == v > 0 ==> Text(v, radix)[0] != '0'
    ensures Lower(Text(v, radix)) == Text(v, radix)
  {
    hide *;
    PrintsExactlyIff(v, radix);
    PrintsLower(v, radix);
    if radix >= 3 {
      RoomFromThree(v, radix);
    } else {
      PowOfTwo(127);
      Pow2Top();
    }
  }

  lemma PrintsLower(v: nat, radix: nat)
    requires 2 <= radix <= 36
    ensures Lower(Text(v, radix)) == Text(v, radix)
  {
    if v > 0 {
      TextIsRender(v, radix);
      RenderLower(v, radix, 127);
    } else {
      assert LowerChar('0') == '0';
    }
  }

  lemma {:induction false} PowOfTwo(n: nat)
    ensures Pow(2, n) == Pow2(n)
  {
    if n == 0 {
    } else {
      PowOfTwo(n - 1);
    }
  }

  // ---- Reading what was printed ----

  lemma {:induction false} AccumulateLast(s: string, c: char, radix: nat, acc: nat)
    requires AllDigits(s, radix) && DigitOf(c, radix).Some?
    ensures Accumulate(s + [c], radix, acc) ==
            Push(Accumulate(s, radix, acc), radix, DigitOf(c, radix).value)
  {
    hide Push, DigitOf;
    if s == [] {
      assert s + [c] == [c] && [c][1..] == [];
    } else {
      assert (s + [c])[0] == s[0] && (s + [c])[1..] == s[1..] + [c];
      AccumulateLast(s[1..], c, radix, Push(acc, radix, DigitOf(s[0], radix).value));
    }
  }

  lemma QuotientFits(v: nat, radix: nat, room: nat)
    requires radix > 0 && room > 0 && v < Pow(radix, room)
    ensures 0 <= v / radix < Pow(radix, room - 1)
  {
    hide *;
    PowStep(radix, room - 1);
    DivAtMost(v, radix);
    DivBelow(v, Pow(radix, room - 1), radix);
  }

  lemma {:induction false} FirstDigit(v: nat, radix: nat, room: nat) returns (d: nat)
    requires 2 <= radix <= 36 && 0 < v < Pow(radix, room)
    ensures 0 < d < radix && Render(v, radix, room) != "" && Render(v, radix, room)[0] == DigitChar(d)
    decreases room
  {
    hide *;
    PowStep(radix, 0);
    if v < radix {
      OneDigit(v, radix, room);
      d := v;
    } else {
      var h := Leading(v, radix, room);
      d := FirstDigit(h, radix, room - 1);
    }
  }

  /** What stands before the last digit. */
  lemma Leading(v: nat, radix: nat, room: nat) returns (h: nat)
    requires 2 <= radix <= 36 && room > 0 && radix <= v < Pow(radix, room)
    ensures 0 < h < Pow(radix, room - 1)
    ensures Render(v, radix, room) == Render(h, radix, room - 1) + [DigitChar(v % radix)]
  {
    hide *;
    QuotientFits(v, radix, room);
    DivPositive(v, radix);
    RenderNext(v, radix, room);
    h := v / radix;
  }

  lemma OneDigit(v: nat, radix: nat, room: nat)
    requires 2 <= radix <= 36 && 0 < v < radix && room > 0
    ensures Render(v, radix, room) == [DigitChar(v)]
  {
    hide *;
    RenderNext(v, radix, room);
    SmallMod(v, radix);
    RenderStops(0, radix, room - 1);
  }

  lemma DivPositive(v: nat, d: nat)
    requires 0 < d <= v
    ensures v / d > 0
  {
    DivAtMost(v, d);
    assert v == d * (v / d) + v % d;
  }

  /** Printing and reading undo each other: plainly in radix 10, behind 0x in radix 16 and
      behind 0 in radix 8. */
  lemma ParseOfPrint(v: nat)
    requires v < 0x1_0000_0000_0000_0000_0000_0000_0000_0000
    ensures ParseValue(Text(v, 10)) == v
    ensures ParseValue("0x" + Text(v, 16)) == v && ParseValue("0x" + Upper(Text(v, 16))) == v
    ensures ParseValue("0" + Text(v, 8)) == v
    ensures ParseValue("-" + Text(v, 10)) == (0x1_0000_0000_0000_0000_0000_0000_0000_0000 - v)
            % 0x1_0000_0000_0000_0000_0000_0000_0000_0000
  {
    hide ParseValue, Text;
    ParseTen(v);
    NoMinus(v);
    MinusNegates(Text(v, 10));
    ParseSixteen(v);
    ParseEight(v);
  }

  lemma {:induction false} PrefixOfDigits(s: string, radix: nat)
    requires AllDigits(s, radix)
    ensures DigitPrefix(s, radix) == s
  {
    hide DigitOf;
    if s == [] {
    } else {
      PrefixOfDigits(s[1..], radix);
    }
  }

  lemma ReadingOfText(v: nat, radix: nat)
    requires 3 <= radix <= 36 && v < 0x1_0000_0000_0000_0000_0000_0000_0000_0000
    ensures Reading(Text(v, radix), radix) == v
  {
    hide Text, DigitPrefix, NumeralValue, DigitOf, AllDigits;
    PrintsEveryNumber(v, radix);
    PrefixOfDigits(Text(v, radix), radix);
  }

  lemma ReadingOfNothing(radix: nat)
    ensures Reading("", radix) == 0
  {
    SmallValues();
  }

  lemma ParseTen(v: nat)
    requires v < 0x1_0000_0000_0000_0000_0000_0000_0000_0000
    ensures ParseValue(Text(v, 10)) == v
  {
    hide Mod128, Render, Reading;
    ReadingOfText(v, 10);
    PrintsEveryNumber(v, 10);
    if v == 0 {
      assert Text(0, 10) == "0" && "0"[1..] == "";
      ReadingOfNothing(8);
    } else {
      assert Text(v, 10)[0] != '-' by { assert DigitOf('-', 10).None?; }
    }
  }

  /** A minus in front negates what any string reads as. */
  lemma MinusNegates(s: string)
    requires s == "" || s[0] != '-'
    ensures ParseValue("-" + s) == (0x1_0000_0000_0000_0000_0000_0000_0000_0000 - ParseValue(s))
            % 0x1_0000_0000_0000_0000_0000_0000_0000_0000
  {
    hide Unsigned;
    var t := "-" + s;
    assert t[0] == '-' && t[1..] == s;
  }

  lemma NoMinus(v: nat)
    requires v < 0x1_0000_0000_0000_0000_0000_0000_0000_0000
    ensures Text(v, 10) != "" && Text(v, 10)[0] != '-'
  {
    PrintsEveryNumber(v, 10);
    hide Text;
    assert DigitOf('-', 10).None?;
  }

  lemma ParseSixteen(v: nat)
    requires v < 0x1_0000_0000_0000_0000_0000_0000_0000_0000
    ensures ParseValue("0x" + Text(v, 16)) == v && ParseValue("0x" + Upper(Text(v, 16))) == v
  {
    hide Reading, Text, Upper;
    ReadingOfText(v, 16);
    ReadingIgnoresCase(Text(v, 16), 16);
    var s, t := "0x" + Text(v, 16), "0x" + Upper(Text(v, 16));
    assert s[0] == '0' && s[1] == 'x' && s[2..] == Text(v, 16);
    assert t[0] == '0' && t[1] == 'x' && t[2..] == Upper(Text(v, 16));
  }

  lemma ParseEight(v: nat)
    requires v < 0x1_0000_0000_0000_0000_0000_0000_0000_0000
    ensures ParseValue("0" + Text(v, 8)) == v
  {
    hide Mod128, Text, Reading;
    ReadingOfText(v, 8);
    PrintsEveryNumber(v, 8);
    var s := "0" + Text(v, 8);
    assert s[0] == '0' && s[1..] == Text(v, 8) && s[1] == Text(v, 8)[0];
    assert s[1] != 'x' by { assert DigitOf('x', 8).None?; }
  }
}
