/** uint128: 128-bit arithmetic on two 64-bit halves, against arithmetic modulo 2^128. */
module UInt128 {
  import opened Wrappers
  import opened Bits

  datatype U128 = U128(lo: U64, hi: U64)

  const ZERO := U128(0, 0)
  const ONE := U128(1, 0)

  /** The number the two halves stand for. */
  function Val(a: U128): (v: nat)
    ensures v < 0x1_0000_0000_0000_0000_0000_0000_0000_0000
  {
    a.hi * 0x1_0000_0000_0000_0000 + a.lo
  }

  lemma ValIsInjective(a: U128, b: U128)
    ensures Val(a) == Val(b) <==> a == b
  {
  }

  function Word(x: int): U64 { x % 0x1_0000_0000_0000_0000 }

  function Mod128(x: int): (r: nat)
    ensures r < 0x1_0000_0000_0000_0000_0000_0000_0000_0000
  {
    x % 0x1_0000_0000_0000_0000_0000_0000_0000_0000
  }

  lemma WordOnce(x: nat)
    requires x < 0x2_0000_0000_0000_0000
    ensures Word(x) == if x < 0x1_0000_0000_0000_0000 then x else x - 0x1_0000_0000_0000_0000
  {
    if x < 0x1_0000_0000_0000_0000 {
      UniqueDivision(x, 0x1_0000_0000_0000_0000, 0, x);
    } else {
      UniqueDivision(x, 0x1_0000_0000_0000_0000, 1, x - 0x1_0000_0000_0000_0000);
    }
  }

  lemma Mod128Is(x: int, q: int, r: nat)
    requires r < 0x1_0000_0000_0000_0000_0000_0000_0000_0000
    requires x == 0x1_0000_0000_0000_0000_0000_0000_0000_0000 * q + r
    ensures Mod128(x) == r
  {
    UniqueDivision(x, 0x1_0000_0000_0000_0000_0000_0000_0000_0000, q, r);
  }

  /** Whole multiples of 2^128 do not matter. */
  lemma Mod128Drops(x: int, k: int)
    ensures Mod128(x + 0x1_0000_0000_0000_0000_0000_0000_0000_0000 * k) == Mod128(x)
  {
    var q := x / 0x1_0000_0000_0000_0000_0000_0000_0000_0000;
    assert x == 0x1_0000_0000_0000_0000_0000_0000_0000_0000 * q + Mod128(x);
    Mod128Is(x + 0x1_0000_0000_0000_0000_0000_0000_0000_0000 * k, q + k, Mod128(x));
  }

  // ---- Comparison, complement, addition, subtraction ----

  predicate Below(a: U128, b: U128) {
    if a.hi == b.hi then a.lo < b.lo else a.hi < b.hi
  }

  /** The order of the halves is the order of the numbers. */
  lemma BelowIsLess(a: U128, b: U128)
    ensures Below(a, b) <==> Val(a) < Val(b)
  {
  }

  method Add(a: U128, b: U128) returns (r: U128)
    ensures Val(r) == Mod128(Val(a) + Val(b))
  {
    var lo: nat, hi: nat := Word(a.lo + b.lo), Word(a.hi + b.hi);
    WordOnce(a.lo + b.lo);
    WordOnce(a.hi + b.hi);
    ghost var high := hi;
    if lo < a.lo {
      hi := Word(hi + 1);
      WordOnce(high + 1);
    }
    r := U128(lo, hi);
    ghost var carried := if Val(a) + Val(b) < 0x1_0000_0000_0000_0000_0000_0000_0000_0000 then 0 else 1;
    Mod128Is(Val(a) + Val(b), carried, Val(r));
  }

  method Complement(a: U128) returns (r: U128)
    ensures Val(r) == 0xFFFF_FFFF_FFFF_FFFF_FFFF_FFFF_FFFF_FFFF - Val(a)
  {
    r := U128(0xFFFF_FFFF_FFFF_FFFF - a.lo, 0xFFFF_FFFF_FFFF_FFFF - a.hi);
  }

  method Negate(a: U128) returns (r: U128)
    ensures Val(r) == Mod128(-(Val(a) as int))
  {
    var c := Complement(a);
    r := Add(c, ONE);
    Mod128Drops(-(Val(a) as int), 1);
  }

  method Subtract(a: U128, b: U128) returns (r: U128)
    ensures Val(r) == Mod128(Val(a) - Val(b))
  {
    hide Val, Mod128;
    var m := Negate(b);
    r := Add(a, m);
    AddsNegated(Val(a), Val(b), Val(m));
  }

  lemma AddsNegated(x: int, v: int, m: nat)
    requires m == Mod128(-v)
    ensures Mod128(x + m) == Mod128(x - v)
  {
    var q := -v / 0x1_0000_0000_0000_0000_0000_0000_0000_0000;
    assert -v == 0x1_0000_0000_0000_0000_0000_0000_0000_0000 * q + m;
    Mod128Drops(x - v, -q);
  }

  // ---- Shifts ----

  /** x << n on one half, for n below its width. */
  function Up(x: U64, n: nat): U64 { Word(x * Pow2(n)) }

  /** x >> n on one half, for n below its width. */
  function Down(x: U64, n: nat): (r: U64)
    ensures r <= x
  {
    DivAtMost(x, Pow2(n));
    x / Pow2(n)
  }

  lemma QuotientAtMost(x: nat, p: nat, q: nat, r: nat)
    requires p > 0 && x == p * q + r
    ensures q <= x
  {
    MulMonotone(q, 1, p);
  }

  lemma DivAtMost(x: nat, p: nat)
    requires p > 0
    ensures 0 <= x / p <= x
  {
    QuotientAtMost(x, p, x / p, x % p);
  }

  /** The two parts of a half around position n, with P = 2^n and Q = 2^(64-n). */
  lemma Widths(n: nat)
    requires n <= 64
    ensures Pow2(n) * Pow2(64 - n) == 0x1_0000_0000_0000_0000
  {
    Pow2Adds(n, 64 - n);
    Pow2SixtyFour();
  }

  /** x << n keeps the low 64 - n bits. */
  lemma UpKeepsLow(x: U64, n: nat)
    requires n <= 64
    ensures Up(x, n) == Pow2(n) * (x % Pow2(64 - n))
  {
    hide *;
    Widths(n);
    UpIs(x, n);
    var p, q := Pow2(n), Pow2(64 - n);
    DivAtMost(x, q);
    UpParts(x, p, q, x / q, x % q);
  }

  lemma UpIs(x: U64, n: nat)
    ensures Up(x, n) == Word(x * Pow2(n))
  {
    hide Word;
  }

  lemma UpParts(x: nat, p: nat, q: nat, h: nat, l: nat)
    requires p > 0 && p * q == 0x1_0000_0000_0000_0000 && x == q * h + l && l < q
    ensures Word(x * p) == p * l
  {
    assert x * p == (p * q) * h + p * l by {
      assert (q * h + l) * p == (q * h) * p + l * p;
      assert (q * h) * p == (p * q) * h;
    }
    ScaleBelow(p, l, q);
    UniqueDivision(x * p, 0x1_0000_0000_0000_0000, h, p * l);
  }

  lemma ScaleBelow(p: nat, l: nat, q: nat)
    requires p > 0 && l < q
    ensures p * l + p <= p * q
  {
    assert p * (l + 1) <= p * q by { MulMonotone(p, l + 1, q); }
  }

  lemma MulMonotone(p: nat, a: nat, b: nat)
    requires a <= b
    ensures p * a <= p * b
  {
    assert p * b == p * a + p * (b - a);
  }

  lemma DivBelow(x: nat, p: nat, q: nat)
    requires q > 0 && x < p * q
    ensures x / q < p
  {
    var h := x / q;
    assert x == q * h + x % q;
    if h >= p { MulMonotone(q, p, h); }
  }

  /** The largest word divided by 2^n and by 2^(64-n). */
  lemma OnesParts(p: nat, q: nat)
    requires p > 0 && q > 0 && p * q == 0x1_0000_0000_0000_0000
    ensures 0xFFFF_FFFF_FFFF_FFFF / p == q - 1 && 0xFFFF_FFFF_FFFF_FFFF % q == q - 1
    ensures p * (q - 1) == 0x1_0000_0000_0000_0000 - p
  {
    assert p * (q - 1) == p * q - p;
    UniqueDivision(0xFFFF_FFFF_FFFF_FFFF, p, q - 1, p - 1);
    assert q * (p - 1) == p * q - q;
    UniqueDivision(0xFFFF_FFFF_FFFF_FFFF, q, p - 1, q - 1);
  }

  lemma DropLow(x: nat, q: nat)
    requires q > 0
    ensures x % q <= x && (x - x % q) / q == x / q
  {
    var h, l := x / q, x % q;
    assert x == q * h + l;
    assert q * h >= 0;
    UniqueDivision(x - l, q, h, 0);
  }

  /** ~(2^64-1 >> n) is the mask of the high n bits, and what it selects moves down to lo / 2^(64-n). */
  lemma HighBits(lo: U64, n: nat, mask: U64)
    requires 0 < n < 64 && mask == 0xFFFF_FFFF_FFFF_FFFF - Down(0xFFFF_FFFF_FFFF_FFFF, n)
    ensures And(lo, mask) <= lo && Down(And(lo, mask), 64 - n) == lo / Pow2(64 - n)
  {
    Widths(n);
    OnesParts(Pow2(n), Pow2(64 - n));
    Pow2SixtyFour();
    assert 64 - n + n == 64;
    AndHighOnes(lo, 64 - n, n, mask);
    DropLow(lo, Pow2(64 - n));
  }

  /** ~(2^64-1 << n) is the mask of the low n bits. */
  lemma LowBits(hi: U64, n: nat, mask: U64)
    requires 0 < n < 64 && mask == 0xFFFF_FFFF_FFFF_FFFF - Up(0xFFFF_FFFF_FFFF_FFFF, n)
    ensures And(hi, mask) == hi % Pow2(n)
  {
    Widths(n);
    OnesParts(Pow2(n), Pow2(64 - n));
    UpKeepsLow(0xFFFF_FFFF_FFFF_FFFF, n);
    AndOnes(hi, n);
  }

  /** unsigned int n = rhs.to_integer(): the low 32 bits of the count. */
  function Count(rhs: U128): nat { rhs.lo % 0x1_0000_0000 }

  lemma CountIs(rhs: U128)
    ensures Count(rhs) == Val(rhs) % 0x1_0000_0000
  {
    var m := 0x1_0000_0000;
    assert Val(rhs) == m * (m * rhs.hi + rhs.lo / m) + rhs.lo % m;
    UniqueDivision(Val(rhs), m, m * rhs.hi + rhs.lo / m, rhs.lo % m);
  }

  lemma LeftParts(p: nat, q: nat, b: nat, hi: nat, lo: nat, hh: nat, hl: nat, lh: nat, ll: nat)
    requires b == p * q && hi == q * hh + hl && lo == q * lh + ll
    ensures (hi * b + lo) * p == (b * b) * hh + (p * hl + lh) * b + p * ll
  {
    ScaledParts(p, q, b, hi, hh, hl);
    ScaledParts(p, q, b, lo, lh, ll);
    ScaledSum(hi, b, lo, p);
    ScaledSum(b, hh, p * hl, b);
    assert (p * hl + lh) * b == (p * hl) * b + b * lh;
  }

  lemma ScaledParts(p: nat, q: nat, b: nat, x: nat, h: nat, l: nat)
    requires b == p * q && x == q * h + l
    ensures x * p == b * h + p * l
  {
    ScaledSum(q, h, l, p);
    assert (q * p) * h == (p * q) * h;
  }

  lemma ScaledSum(x: nat, y: nat, z: nat, p: nat)
    ensures (x * y + z) * p == (x * p) * y + z * p
  {
    assert (x * y + z) * p == (x * y) * p + z * p;
    assert (x * y) * p == (x * p) * y;
  }

  /** The halves after a shift by 0 < n < 64. */
  lemma LeftWithin(a: U128, n: nat, lo: nat, hi: nat)
    requires 0 < n < 64
    requires lo == Pow2(n) * (a.lo % Pow2(64 - n))
    requires hi == Pow2(n) * (a.hi % Pow2(64 - n)) + a.lo / Pow2(64 - n)
    ensures lo < 0x1_0000_0000_0000_0000 && hi < 0x1_0000_0000_0000_0000
    ensures hi * 0x1_0000_0000_0000_0000 + lo == Mod128(Val(a) * Pow2(n))
  {
    hide *;
    var p, q := Pow2(n), Pow2(64 - n);
    Widths(n);
    PartBelow(a.lo, n);
    DivAtMost(a.hi, q);
    DivAtMost(a.lo, q);
    ValIs(a);
    LeftFrom(p, q, a.hi, a.lo, a.hi / q, a.hi % q, a.lo / q, a.lo % q);
  }

  lemma LeftFrom(p: nat, q: nat, hi: U64, lo: U64, hh: nat, hl: nat, lh: nat, ll: nat)
    requires p > 0 && p * q == 0x1_0000_0000_0000_0000
    requires hi == q * hh + hl && lo == q * lh + ll && hl < q && ll < q && lh < p
    ensures p * ll < 0x1_0000_0000_0000_0000 && p * hl + lh < 0x1_0000_0000_0000_0000
    ensures (p * hl + lh) * 0x1_0000_0000_0000_0000 + p * ll == Mod128((hi * 0x1_0000_0000_0000_0000 + lo) * p)
  {
    ScaleBelow(p, ll, q);
    ScaleBelow(p, hl, q);
    LeftParts(p, q, 0x1_0000_0000_0000_0000, hi, lo, hh, hl, lh, ll);
    Mod128Is((hi * 0x1_0000_0000_0000_0000 + lo) * p, hh, (p * hl + lh) * 0x1_0000_0000_0000_0000 + p * ll);
  }

  /** Shifting by 64 moves the low half up. */
  lemma LeftByHalf(a: U128, m: nat)
    ensures Mod128(Val(U128(0, a.lo)) * Pow2(m)) == Mod128(Val(a) * Pow2(64 + m))
  {
    hide *;
    Pow2Adds(64, m);
    Pow2SixtyFour();
    ValIs(a);
    ValIs(U128(0, a.lo));
    var p := Pow2(m);
    assert Val(a) * (0x1_0000_0000_0000_0000 * p) == (Val(a) * 0x1_0000_0000_0000_0000) * p;
    assert Val(a) * 0x1_0000_0000_0000_0000 == Val(U128(0, a.lo)) + 0x1_0000_0000_0000_0000_0000_0000_0000_0000 * a.hi;
    Distribute(Val(U128(0, a.lo)), 0x1_0000_0000_0000_0000_0000_0000_0000_0000, a.hi, p);
    Mod128Drops(Val(U128(0, a.lo)) * p, a.hi * p);
  }

  lemma Distribute(x: nat, m: nat, k: nat, p: nat)
    ensures (x + m * k) * p == x * p + m * (k * p)
  {
    assert (m * k) * p == m * (k * p);
    assert (x + m * k) * p == x * p + (m * k) * p;
  }

  lemma LeftOut(a: U128, n: nat)
    requires n >= 128
    ensures Mod128(Val(a) * Pow2(n)) == 0
  {
    Pow2Adds(128, n - 128);
    Pow2Literals();
    MultipleVanishes(Val(a), Pow2(n - 128));
  }

  lemma MultipleVanishes(v: nat, p: nat)
    ensures Mod128(v * (0x1_0000_0000_0000_0000_0000_0000_0000_0000 * p)) == 0
  {
    var m := 0x1_0000_0000_0000_0000_0000_0000_0000_0000;
    assert v * (m * p) == m * (v * p);
    Mod128Is(v * (m * p), v * p, 0);
  }

  method ShiftLeft(a: U128, rhs: U128) returns (r: U128)
    ensures Val(r) == Mod128(Val(a) * Pow2(Val(rhs) % 0x1_0000_0000))
  {
    CountIs(rhs);
    var n := Count(rhs);
    if n >= 128 {
      LeftOut(a, n);
      return ZERO;
    }
    var b := a;
    if n >= 64 {
      n := n - 64;
      LeftByHalf(a, n);
      b := U128(0, a.lo);
    }
    r := ShiftLeftWithin(b, n);
  }

  /** The high half gets the bits that leave the low half. */
  lemma LeftHalves(a: U128, n: nat, mask: U64)
    requires 0 < n < 64 && mask == 0xFFFF_FFFF_FFFF_FFFF - Down(0xFFFF_FFFF_FFFF_FFFF, n)
    ensures And(a.lo, mask) <= a.lo
    ensures Up(a.lo, n) == Pow2(n) * (a.lo % Pow2(64 - n))
    ensures Or(Up(a.hi, n), Down(And(a.lo, mask), 64 - n)) == Pow2(n) * (a.hi % Pow2(64 - n)) + a.lo / Pow2(64 - n)
  {
    HighBits(a.lo, n, mask);
    UpKeepsLow(a.hi, n);
    UpKeepsLow(a.lo, n);
    PartBelow(a.lo, n);
    OrShifted(a.hi % Pow2(64 - n), n, Down(a.lo, 64 - n), Up(a.hi, n), Down(And(a.lo, mask), 64 - n));
  }

  lemma PartBelow(x: U64, n: nat)
    requires n <= 64
    ensures x / Pow2(64 - n) < Pow2(n)
  {
    Widths(n);
    DivBelow(x, Pow2(n), Pow2(64 - n));
  }

  lemma RestBelow(x: U64, n: nat)
    requires n <= 64
    ensures x / Pow2(n) < Pow2(64 - n)
  {
    PartBelow(x, 64 - n);
    assert 64 - (64 - n) == n;
  }

  lemma OrShifted(h: nat, k: nat, l: nat, x: nat, y: nat)
    requires l < Pow2(k) && x == Pow2(k) * h && y == l
    ensures Or(x, y) == Pow2(k) * h + l && Or(y, x) == Pow2(k) * h + l
  {
    OrIsSum(h, k, l);
    assert h * Pow2(k) == Pow2(k) * h;
  }

  /** The second part of operator<<=, for a count below 64. */
  method ShiftLeftWithin(a: U128, n: nat) returns (r: U128)
    requires n < 64
    ensures Val(r) == Mod128(Val(a) * Pow2(n))
  {
    if n == 0 {
      Mod128Is(Val(a), 0, Val(a));
      return a;
    }
    var mask: U64 := 0xFFFF_FFFF_FFFF_FFFF - Down(0xFFFF_FFFF_FFFF_FFFF, n);
    LeftHalves(a, n, mask);
    var hi := Or(Up(a.hi, n), Down(And(a.lo, mask), 64 - n));
    var lo := Up(a.lo, n);
    LeftWithin(a, n, lo, hi);
    r := U128(lo, hi);
  }

  lemma RightParts(p: nat, q: nat, b: nat, hi: nat, lo: nat, hh: nat, hl: nat, lh: nat, ll: nat)
    requires b == p * q && hi == p * hh + hl && lo == p * lh + ll
    ensures hi * b + lo == p * (hh * b + hl * q + lh) + ll
  {
    assert hi * b == (p * hh) * b + hl * b;
    assert (p * hh) * b == p * (hh * b);
    assert hl * b == p * (hl * q);
    assert p * (hh * b + hl * q + lh) == p * (hh * b) + p * (hl * q) + p * lh;
  }

  /** The halves after a shift by 0 < n < 64. */
  lemma RightWithin(a: U128, n: nat, lo: nat, hi: nat)
    requires 0 < n < 64
    requires lo == Pow2(64 - n) * (a.hi % Pow2(n)) + a.lo / Pow2(n)
    requires hi == a.hi / Pow2(n)
    ensures lo < 0x1_0000_0000_0000_0000
    ensures hi * 0x1_0000_0000_0000_0000 + lo == Val(a) / Pow2(n)
  {
    hide *;
    var p, q := Pow2(n), Pow2(64 - n);
    Widths(n);
    RestBelow(a.lo, n);
    DivAtMost(a.hi, p);
    DivAtMost(a.lo, p);
    ValIs(a);
    RightFrom(p, q, a.hi, a.lo, a.hi / p, a.hi % p, a.lo / p, a.lo % p);
  }

  lemma ValIs(a: U128)
    ensures Val(a) == a.hi * 0x1_0000_0000_0000_0000 + a.lo
  {
  }

  lemma RightFrom(p: nat, q: nat, hi: U64, lo: U64, hh: nat, hl: nat, lh: nat, ll: nat)
    requires p > 0 && p * q == 0x1_0000_0000_0000_0000
    requires hi == p * hh + hl && lo == p * lh + ll && hl < p && ll < p && lh < q
    ensures q * hl + lh < 0x1_0000_0000_0000_0000
    ensures hh * 0x1_0000_0000_0000_0000 + (q * hl + lh) == (hi * 0x1_0000_0000_0000_0000 + lo) / p
  {
    ScaleBelow(q, hl, p);
    RightParts(p, q, 0x1_0000_0000_0000_0000, hi, lo, hh, hl, lh, ll);
    UniqueDivision(hi * 0x1_0000_0000_0000_0000 + lo, p, hh * 0x1_0000_0000_0000_0000 + hl * q + lh, ll);
  }

  lemma RightByHalf(a: U128, m: nat)
    ensures Val(U128(a.hi, 0)) / Pow2(m) == Val(a) / Pow2(64 + m)
  {
    Pow2Adds(64, m);
    Pow2SixtyFour();
    var p := Pow2(m);
    HalfThenDivide(a.hi, a.lo, p, a.hi / p, a.hi % p);
  }

  lemma HalfThenDivide(hi: nat, lo: U64, p: nat, h: nat, l: nat)
    requires p > 0 && hi == p * h + l && l < p
    ensures (hi * 0x1_0000_0000_0000_0000 + lo) / (0x1_0000_0000_0000_0000 * p) == h
  {
    var b := 0x1_0000_0000_0000_0000;
    assert hi * b == (b * p) * h + l * b by { assert (p * h) * b == (b * p) * h; }
    ScaleBelow(b, l, p);
    UniqueDivision(hi * b + lo, b * p, h, l * b + lo);
  }

  lemma RightOut(a: U128, n: nat)
    requires n >= 128
    ensures Val(a) / Pow2(n) == 0
  {
    Pow2Grows(128, n - 128);
    Pow2Literals();
    SmallMod(Val(a), Pow2(n));
  }

  method ShiftRight(a: U128, rhs: U128) returns (r: U128)
    ensures Val(r) == Val(a) / Pow2(Val(rhs) % 0x1_0000_0000)
  {
    CountIs(rhs);
    var n := Count(rhs);
    if n >= 128 {
      RightOut(a, n);
      return ZERO;
    }
    var b := a;
    if n >= 64 {
      n := n - 64;
      RightByHalf(a, n);
      b := U128(a.hi, 0);
    }
    r := ShiftRightWithin(b, n);
  }

  /** The low half gets the bits that leave the high half. */
  lemma RightHalves(a: U128, n: nat, mask: U64)
    requires 0 < n < 64 && mask == 0xFFFF_FFFF_FFFF_FFFF - Up(0xFFFF_FFFF_FFFF_FFFF, n)
    ensures And(a.hi, mask) < 0x1_0000_0000_0000_0000
    ensures Or(Down(a.lo, n), Up(And(a.hi, mask), 64 - n)) == Pow2(64 - n) * (a.hi % Pow2(n)) + a.lo / Pow2(n)
  {
    LowBits(a.hi, n, mask);
    ModAtMost(a.hi, Pow2(n));
    UpKeepsLowAll(And(a.hi, mask), n);
    RestBelow(a.lo, n);
    OrShifted(And(a.hi, mask), 64 - n, Down(a.lo, n), Up(And(a.hi, mask), 64 - n), Down(a.lo, n));
  }

  lemma ModAtMost(x: nat, p: nat)
    requires p > 0
    ensures x % p <= x && x % p < p
  {
    DropLow(x, p);
  }

  /** The second part of operator>>=, for a count below 64. */
  method ShiftRightWithin(a: U128, n: nat) returns (r: U128)
    requires n < 64
    ensures Val(r) == Val(a) / Pow2(n)
  {
    if n == 0 {
      return a;
    }
    var mask: U64 := 0xFFFF_FFFF_FFFF_FFFF - Up(0xFFFF_FFFF_FFFF_FFFF, n);
    RightHalves(a, n, mask);
    var lo := Or(Down(a.lo, n), Up(And(a.hi, mask), 64 - n));
    var hi := Down(a.hi, n);
    RightWithin(a, n, lo, hi);
    r := U128(lo, hi);
  }

  /** A value of n bits loses nothing when it moves up by 64 - n. */
  lemma UpKeepsLowAll(x: nat, n: nat)
    requires 0 < n < 64 && x < Pow2(n) && x < 0x1_0000_0000_0000_0000
    ensures Up(x, 64 - n) == Pow2(64 - n) * x
  {
    UpKeepsLow(x, 64 - n);
    assert 64 - (64 - n) == n;
    SmallMod(x, Pow2(n));
  }

  // ---- Multiplication ----

  /** t & 1 on the whole number. */
  function LowBit(t: U128): (b: nat)
    ensures b == Val(t) % 2
  {
    AndOne(t.lo);
    And(t.lo, 1)
  }

  /** Moving one bit from the part still to do to the part done. */
  lemma NextBit(b: nat, p: nat, h: nat, l: nat)
    requires p > 0 && b == p * h + l && l < p
    ensures b == (2 * p) * (h / 2) + (l + p * (h % 2)) && l + p * (h % 2) < 2 * p
  {
    assert p * h == (2 * p) * (h / 2) + p * (h % 2) by {
      assert h == 2 * (h / 2) + h % 2;
      assert p * (2 * (h / 2)) == (2 * p) * (h / 2);
    }
    assert p * (h % 2) <= p;
  }

  /** One more bit of the multiplier: add the shifted multiplicand, modulo 2^128. */
  lemma AddShifted(acc: nat, a: nat, l: nat, p: nat, shifted: nat)
    requires acc == Mod128(a * l) && shifted == Mod128(a * p)
    ensures Mod128(acc + shifted) == Mod128(a * (l + p))
  {
    var m := 0x1_0000_0000_0000_0000_0000_0000_0000_0000;
    var q1, q2 := (a * l) / m, (a * p) / m;
    assert a * l == m * q1 + acc && a * p == m * q2 + shifted;
    assert a * (l + p) == a * l + a * p;
    Mod128Drops(acc + shifted, q1 + q2);
  }

  lemma SmallValues()
    ensures Val(ZERO) == 0 && Val(ONE) == 1 && Mod128(0) == 0
  {
    Mod128Is(0, 0, 0);
  }

  lemma CountOf(i: U64)
    requires i < 128
    ensures Val(U128(i, 0)) % 0x1_0000_0000 == i
  {
    SmallMod(i, 0x1_0000_0000);
  }

  lemma ValInRange(a: U128)
    ensures Mod128(Val(a)) == Val(a)
  {
    Mod128Is(Val(a), 0, Val(a));
  }

  /** t >>= 1. */
  method Halve(t: U128) returns (r: U128)
    ensures Val(r) == Val(t) / 2
  {
    hide Mod128, Val;
    CountOf(1);
    Pow2Step(0);
    r := ShiftRight(t, U128(1, 0));
  }

  /** The shift-and-add loop. */
  method Multiply(self: U128, b: U128) returns (r: U128)
    ensures Val(r) == Mod128(Val(self) * Val(b))
  {
    hide *;
    SmallValues();
    Pow2Step(0);
    ValInRange(self);
    if b == ZERO {
      return ZERO;
    }
    if b == ONE {
      return self;
    }
    r := ZERO;
    var t := b;
    var i := 0;
    ghost var done: nat := 0;
    while i < 128
      invariant 0 <= i <= 128
      invariant Val(b) == Pow2(i) * Val(t) + done && done < Pow2(i)
      invariant Val(r) == Mod128(Val(self) * done)
    {
      Pow2Step(i);
      NextBit(Val(b), Pow2(i), Val(t), done);
      if LowBit(t) != 0 {
        r := AddBit(self, r, i, done);
        done := done + Pow2(i);
      }
      t := Halve(t);
      i := i + 1;
    }
    AllBitsDone(Val(b), Val(t), done);
  }

  /** *this += (a << i). */
  method AddBit(a: U128, acc: U128, i: nat, ghost done: nat) returns (r: U128)
    requires i < 128 && Val(acc) == Mod128(Val(a) * done)
    ensures Val(r) == Mod128(Val(a) * (done + Pow2(i)))
  {
    hide *;
    CountOf(i);
    var s := ShiftLeft(a, U128(i, 0));
    AddShifted(Val(acc), Val(a), done, Pow2(i), Val(s));
    r := Add(acc, s);
  }

  lemma AllBitsDone(b: nat, h: nat, l: nat)
    requires b < 0x1_0000_0000_0000_0000_0000_0000_0000_0000 && b == Pow2(128) * h + l
    ensures b == l
  {
    Pow2Literals();
  }

  // ---- Division ----

  method OrAssign(a: U128, b: U128) returns (r: U128)
    ensures Val(r) == Or(Val(a), Val(b))
    ensures forall k: nat :: Bit(Val(r), k) <==> Bit(Val(a), k) || Bit(Val(b), k)
  {
    forall k: nat ensures Bit(Or(Val(a), Val(b)), k) <==> Bit(Val(a), k) || Bit(Val(b), k) {
      BitOfOr(Val(a), Val(b), k);
    }
    Pow2SixtyFour();
    OrSplits(a.hi, a.lo, b.hi, b.lo, 64);
    OrSplits(0, a.hi, 0, b.hi, 64);
    r := U128(Or(a.lo, b.lo), Or(a.hi, b.hi));
  }

  /** t <<= 1, which loses no bit when the top bit is clear. */
  method Double(t: U128) returns (r: U128)
    ensures Val(t) < 0x8000_0000_0000_0000_0000_0000_0000_0000 ==> Val(r) == 2 * Val(t)
  {
    hide Val;
    CountOf(1);
    Pow2Step(0);
    r := ShiftLeft(t, U128(1, 0));
    if Val(t) < 0x8000_0000_0000_0000_0000_0000_0000_0000 {
      Mod128Is(Val(t) * 2, 0, 2 * Val(t));
    }
  }

  /** (d >> 127) & 1. */
  method TopBit(d: U128) returns (b: nat)
    ensures b == 0 <==> Val(d) < 0x8000_0000_0000_0000_0000_0000_0000_0000
  {
    hide Val, Mod128;
    CountOf(127);
    var s := ShiftRight(d, U128(127, 0));
    b := LowBit(s);
    TopHalf(Val(d), Val(s));
  }

  lemma Pow2Top()
    ensures Pow2(127) == 0x8000_0000_0000_0000_0000_0000_0000_0000
  {
    Pow2Literals();
    assert Pow2(128) == 2 * Pow2(127);
  }

  lemma TopHalf(v: nat, s: nat)
    requires v < 0x1_0000_0000_0000_0000_0000_0000_0000_0000 && s == v / Pow2(127)
    ensures s % 2 == 0 <==> v < 0x8000_0000_0000_0000_0000_0000_0000_0000
  {
    Pow2Top();
    var m := 0x8000_0000_0000_0000_0000_0000_0000_0000;
    if v < m {
      UniqueDivision(v, m, 0, v);
    } else {
      UniqueDivision(v, m, 1, v - m);
    }
  }

  datatype DivideError = DivideByZero

  /** The divisor has been moved up by k places, and x marks the place. */
  ghost predicate Aligned(den: nat, d: nat, x: nat, k: nat) {
    k < 128 && x == Pow2(k) && d == den * Pow2(k)
  }

  lemma PlaceBelow(den: nat, k: nat)
    requires den > 0 && den * Pow2(k) < 0x8000_0000_0000_0000_0000_0000_0000_0000
    ensures k < 127 && Pow2(k) < 0x8000_0000_0000_0000_0000_0000_0000_0000
  {
    Pow2Top();
    MulMonotone(Pow2(k), 1, den);
    if k >= 127 {
      Pow2Grows(127, k - 127);
    }
  }

  /** The first loop: move the divisor up until it passes the numerator or its top bit is set. */
  method AlignDivisor(n: U128, den: U128) returns (d: U128, x: U128, ghost k: nat)
    requires den != ZERO
    ensures Aligned(Val(den), Val(d), Val(x), k)
    ensures Val(n) < 2 * Val(d)
  {
    hide *;
    ValIsInjective(den, ZERO);
    SmallValues();
    d, x, k := den, ONE, 0;
    AlignedStart(Val(den));
    var top := TopBit(d);
    while !Below(n, d) && top == 0
      invariant Aligned(Val(den), Val(d), Val(x), k)
      invariant top == 0 <==> Val(d) < 0x8000_0000_0000_0000_0000_0000_0000_0000
      decreases 128 - k
    {
      AlignedStep(Val(den), Val(d), Val(x), k);
      x := Double(x);
      d := Double(d);
      k := k + 1;
      top := TopBit(d);
    }
    BelowIsLess(n, d);
  }

  lemma AlignedStart(den: nat)
    ensures Aligned(den, den, 1, 0)
  {
  }

  lemma AlignedStep(den: nat, d: nat, x: nat, k: nat)
    requires den > 0 && Aligned(den, d, x, k) && d < 0x8000_0000_0000_0000_0000_0000_0000_0000
    ensures k < 127 && x < 0x8000_0000_0000_0000_0000_0000_0000_0000
    ensures Aligned(den, 2 * d, 2 * x, k + 1)
  {
    PlaceBelow(den, k);
    Pow2Step(k);
    assert den * (2 * Pow2(k)) == 2 * (den * Pow2(k));
  }

  /** What the second loop keeps while x is at place k: the answer so far is a multiple of the
      next higher place, and what is left is less than twice the divisor. */
  ghost predicate Dividing(num: nat, den: nat, n: nat, d: nat, x: nat, answer: nat, k: nat, c: nat) {
    && Aligned(den, d, x, k)
    && num == answer * den + n && n < 2 * d
    && answer == c * Pow2(k + 1)
  }

  ghost predicate Divided(num: nat, den: nat, n: nat, answer: nat) {
    num == answer * den + n && n < den
  }

  /** answer |= x sets a bit that is clear. */
  lemma OrSetsPlace(answer: nat, k: nat, c: nat)
    requires answer == c * Pow2(k + 1)
    ensures Or(answer, Pow2(k)) == answer + Pow2(k)
    ensures answer + Pow2(k) == (2 * c + 1) * Pow2(k) && answer == (2 * c) * Pow2(k)
  {
    Pow2Step(k);
    OrIsSum(c, k + 1, Pow2(k));
    PlaceArithmetic(c, Pow2(k));
  }

  lemma PlaceArithmetic(c: nat, p: nat)
    ensures c * (2 * p) == (2 * c) * p && c * (2 * p) + p == (2 * c + 1) * p
  {
  }

  lemma TakeArithmetic(num: nat, den: nat, n: nat, d: nat, p: nat, answer: nat)
    requires num == answer * den + n && d == den * p && d <= n
    ensures num == (answer + p) * den + (n - d)
  {
    assert (answer + p) * den == answer * den + p * den;
    assert p * den == den * p;
  }

  /** What the body of the loop does up to the shifts. */
  lemma TakePlace(num: nat, den: nat, n: nat, d: nat, x: nat, answer: nat, k: nat, c: nat)
    requires Dividing(num, den, n, d, x, answer, k, c)
    ensures Or(answer, x) == answer + x
    ensures d <= n ==> num == (answer + x) * den + (n - d) && n - d < d && answer + x == (2 * c + 1) * Pow2(k)
    ensures answer == (2 * c) * Pow2(k) && num == answer * den + n && Aligned(den, d, x, k)
  {
    hide Pow2, Or;
    OrSetsPlace(answer, k, c);
    if d <= n {
      TakeArithmetic(num, den, n, d, x, answer);
    }
  }

  lemma HalfOfDouble(den: nat, p: nat)
    ensures (2 * p) / 2 == p && (den * (2 * p)) / 2 == den * p
  {
    var y := den * p;
    assert den * (2 * p) == 2 * y;
  }

  /** The shifts: on to the next place, or out of the loop after the last. */
  lemma NextPlace(num: nat, den: nat, n: nat, d: nat, x: nat, answer: nat, k: nat, c: nat)
    requires Aligned(den, d, x, k) && num == answer * den + n && n < d && answer == c * Pow2(k)
    ensures k > 0 ==> x / 2 > 0 && Dividing(num, den, n, d / 2, x / 2, answer, k - 1, c)
    ensures k == 0 ==> x / 2 == 0 && Divided(num, den, n, answer)
  {
    hide Pow2;
    Pow2Step(if k > 0 then k - 1 else 0);
    if k > 0 {
      HalfOfDouble(den, Pow2(k - 1));
    }
  }

  /** divide(): quotient and remainder; a zero divisor throws. */
  method Divide(numerator: U128, denominator: U128) returns (r: Result<(U128, U128), DivideError>)
    ensures r.Failure? <==> Val(denominator) == 0
    ensures r.Success? ==>
              && Val(numerator) == Val(r.value.0) * Val(denominator) + Val(r.value.1)
              && Val(r.value.1) < Val(denominator)
  {
    hide *;
    SmallValues();
    ValIsInjective(denominator, ZERO);
    if denominator == ZERO {
      return Failure(DivideByZero);
    }
    var n, answer := numerator, ZERO;
    ghost var k: nat;
    var d, x;
    d, x, k := AlignDivisor(n, denominator);
    ghost var going, c := true, 0;
    DividingStart(Val(n), Val(denominator), Val(d), Val(x), k);
    ValIsInjective(x, ZERO);
    while x != ZERO
      invariant going ==>
                  x != ZERO && Dividing(Val(numerator), Val(denominator), Val(n), Val(d), Val(x), Val(answer), k, c)
      invariant !going ==> x == ZERO && Divided(Val(numerator), Val(denominator), Val(n), Val(answer))
      decreases going, k
    {
      n, d, x, answer, c := DivideStep(numerator, denominator, n, d, x, answer, k, c);
      if k == 0 {
        going := false;
      } else {
        k := k - 1;
      }
    }
    DividedMeans(Val(numerator), Val(denominator), Val(n), Val(answer));
    return Success((answer, n));
  }

  lemma DividingStart(num: nat, den: nat, d: nat, x: nat, k: nat)
    requires Aligned(den, d, x, k) && num < 2 * d
    ensures Dividing(num, den, num, d, x, 0, k, 0) && x != 0
  {
  }

  lemma DividedMeans(num: nat, den: nat, n: nat, answer: nat)
    requires Divided(num, den, n, answer)
    ensures num == answer * den + n && n < den
  {
  }

  /** One round of the second loop. */
  method DivideStep(num: U128, den: U128, n0: U128, d0: U128, x0: U128, answer0: U128, ghost k: nat, ghost c0: nat)
    returns (n: U128, d: U128, x: U128, answer: U128, ghost c: nat)
    requires Dividing(Val(num), Val(den), Val(n0), Val(d0), Val(x0), Val(answer0), k, c0)
    ensures k > 0 ==> x != ZERO && Dividing(Val(num), Val(den), Val(n), Val(d), Val(x), Val(answer), k - 1, c)
    ensures k == 0 ==> x == ZERO && Divided(Val(num), Val(den), Val(n), Val(answer))
  {
    hide *;
    SmallValues();
    n, d, x, answer, c := n0, d0, x0, answer0, 2 * c0;
    TakePlace(Val(num), Val(den), Val(n), Val(d), Val(x), Val(answer), k, c0);
    BelowIsLess(n, d);
    if !Below(n, d) {
      n := Subtract(n, d);
      NoBorrow(Val(n0), Val(d));
      answer := OrAssign(answer, x);
      c := 2 * c0 + 1;
    }
    NextPlace(Val(num), Val(den), Val(n), Val(d), Val(x), Val(answer), k, c);
    x := Halve(x);
    d := Halve(d);
    ValIsInjective(x, ZERO);
  }

  lemma NoBorrow(a: nat, b: nat)
    requires b <= a < 0x1_0000_0000_0000_0000_0000_0000_0000_0000
    ensures Mod128(a - b) == a - b
  {
    Mod128Is(a - b, 0, a - b);
  }
}
