/** Bitwise operators of unsigned machine words, as functions on natural numbers. */
module Bits {
  function Pow2(n: nat): (p: nat)
    ensures p > 0
  {
    if n == 0 then 1 else 2 * Pow2(n - 1)
  }

  function Or(a: nat, b: nat): nat
    decreases a
  {
    if a == 0 then b
    else 2 * Or(a / 2, b / 2) + if a % 2 == 1 || b % 2 == 1 then 1 else 0
  }

  function And(a: nat, b: nat): nat
    decreases a
  {
    if a == 0 then 0
    else 2 * And(a / 2, b / 2) + if a % 2 == 1 && b % 2 == 1 then 1 else 0
  }

  /** Bit k of a number. */
  predicate Bit(x: nat, k: nat) { if k == 0 then x % 2 == 1 else Bit(x / 2, k - 1) }

  lemma {:induction false} BitOfOr(a: nat, b: nat, k: nat)
    ensures Bit(Or(a, b), k) <==> Bit(a, k) || Bit(b, k)
    decreases a
  {
    if a == 0 {
      NoBits(k);
    } else if k == 0 {
      OrHalves(a, b);
    } else {
      OrHalves(a, b);
      BitOfOr(a / 2, b / 2, k - 1);
    }
  }

  lemma OrHalves(a: nat, b: nat)
    ensures Or(a, b) / 2 == Or(a / 2, b / 2)
    ensures Or(a, b) % 2 == 1 <==> a % 2 == 1 || b % 2 == 1
  {
  }

  lemma {:induction false} NoBits(k: nat)
    ensures !Bit(0, k)
  {
    if k == 0 {
    } else {
      NoBits(k - 1);
    }
  }

  lemma {:induction false} Pow2Adds(m: nat, n: nat)
    ensures Pow2(m + n) == Pow2(m) * Pow2(n)
  {
    if m == 0 {
    } else {
      Pow2Adds(m - 1, n);
      assert m - 1 + n == m + n - 1;
      assert 2 * Pow2(m - 1) * Pow2(n) == 2 * (Pow2(m - 1) * Pow2(n));
    }
  }

  lemma Pow2Literals()
    ensures Pow2(64) == 0x1_0000_0000_0000_0000
    ensures Pow2(128) == 0x1_0000_0000_0000_0000_0000_0000_0000_0000
  {
    Pow2SixtyFour();
    Pow2Adds(64, 64);
  }

  lemma Pow2SixtyFour()
    ensures Pow2(64) == 0x1_0000_0000_0000_0000
  {
    Pow2Sixteen();
    Pow2Adds(16, 16);
    Pow2Adds(32, 32);
  }

  lemma Pow2Sixteen()
    ensures Pow2(16) == 0x1_0000
  {
    assert Pow2(4) == 16;
    Pow2Adds(4, 4);
    Pow2Adds(8, 8);
  }

  lemma OrZero(a: nat)
    ensures Or(a, 0) == a
  {
  }

  /** Where one operand is below the lowest bit of the other, or is addition. */
  lemma {:induction false} OrIsSum(a: nat, k: nat, b: nat)
    requires b < Pow2(k)
    ensures Or(a * Pow2(k), b) == a * Pow2(k) + b
    ensures Or(b, a * Pow2(k)) == a * Pow2(k) + b
  {
    if k == 0 {
      OrZero(a);
    } else {
      var h := a * Pow2(k - 1);
      assert a * Pow2(k) == 2 * h;
      OrIsSum(a, k - 1, b / 2);
      OrZero(b);
    }
  }

  lemma {:induction false} AndOnes(x: nat, k: nat)
    ensures And(x, Pow2(k) - 1) == x % Pow2(k)
  {
    if k == 0 {
      AndZero(x);
    } else {
      AndOnes(x / 2, k - 1);
      AndOddMask(x, Pow2(k - 1));
      ModHalf(x, Pow2(k - 1));
    }
  }

  lemma AndOddMask(x: nat, p: nat)
    requires p > 0
    ensures And(x, 2 * p - 1) == 2 * And(x / 2, p - 1) + x % 2
  {
    assert (2 * p - 1) / 2 == p - 1 && (2 * p - 1) % 2 == 1;
  }

  lemma AndZero(x: nat)
    ensures And(x, 0) == 0
  {
  }

  lemma ModHalf(x: nat, p: nat)
    requires p > 0
    ensures x % (2 * p) == 2 * ((x / 2) % p) + x % 2
  {
    var q, r := (x / 2) / p, (x / 2) % p;
    assert x / 2 == q * p + r;
    assert x == (2 * p) * q + (2 * r + x % 2) by {
      assert 2 * (q * p) == (2 * p) * q;
    }
    UniqueDivision(x, 2 * p, q, 2 * r + x % 2);
  }

  lemma UniqueDivision(x: int, d: int, q: int, r: int)
    requires 0 <= r < d && x == d * q + r
    ensures x / d == q && x % d == r
  {
    var q', r' := x / d, x % d;
    assert d * (q - q') == r' - r;
    if q > q' {
      MulAtLeast(d, q - q');
    } else if q < q' {
      assert d * (q' - q) == r - r';
      MulAtLeast(d, q' - q);
    }
  }

  lemma MulAtLeast(d: int, k: int)
    requires d > 0 && k >= 1
    ensures d * k >= d
  {
  }

  /** Masking with the ones above position k clears the low k bits. */
  lemma {:induction false} AndHighOnes(x: nat, k: nat, m: nat, mask: nat)
    requires x < Pow2(k + m) && mask + Pow2(k) == Pow2(k + m)
    ensures And(x, mask) == x - x % Pow2(k)
  {
    if k == 0 {
      AndOnes(x, m);
      SmallMod(x, Pow2(m));
    } else {
      assert Pow2(k + m) == 2 * Pow2(k - 1 + m);
      AndHighOnes(x / 2, k - 1, m, mask / 2);
      ModHalf(x, Pow2(k - 1));
    }
  }

  lemma {:induction false} Pow2Grows(k: nat, m: nat)
    ensures Pow2(k) <= Pow2(k + m)
  {
    if m == 0 {
    } else {
      Pow2Grows(k, m - 1);
      assert k + m - 1 == k + (m - 1);
    }
  }

  lemma SmallMod(x: nat, d: nat)
    requires x < d
    ensures x % d == x && x / d == 0
  {
  }

  lemma AndOne(x: nat)
    ensures And(x, 1) == x % 2
  {
    AndOnes(x, 1);
  }

  lemma OrStep(a: nat, b: nat)
    ensures Or(a, b) == 2 * Or(a / 2, b / 2) + if a % 2 == 1 || b % 2 == 1 then 1 else 0
  {
  }

  /** or on a number made of two parts is or on the parts. */
  lemma {:induction false} OrSplits(h: nat, l: nat, h': nat, l': nat, k: nat)
    requires l < Pow2(k) && l' < Pow2(k)
    ensures Or(l, l') < Pow2(k)
    ensures Or(Pow2(k) * h + l, Pow2(k) * h' + l') == Pow2(k) * Or(h, h') + Or(l, l')
  {
    hide *;
    Pow2Step(if k == 0 then 0 else k - 1);
    if k == 0 {
      OrZero(0);
      assert l == 0 && l' == 0;
    } else {
      var p := Pow2(k - 1);
      OrSplits(h, l / 2, h', l' / 2, k - 1);
      OrSplitsStep(p * h, p * h', p * Or(h, h'), l, l', p);
      Doubled(p, h);
      Doubled(p, h');
      Doubled(p, Or(h, h'));
    }
  }

  lemma Pow2Step(k: nat)
    ensures Pow2(0) == 1 && Pow2(k + 1) == 2 * Pow2(k)
  {
  }

  lemma Doubled(p: nat, x: nat)
    ensures (2 * p) * x == 2 * (p * x)
  {
  }

  lemma OrSplitsStep(x: nat, y: nat, z: nat, l: nat, l': nat, p: nat)
    requires l < 2 * p && l' < 2 * p && Or(l / 2, l' / 2) < p
    requires Or(x + l / 2, y + l' / 2) == z + Or(l / 2, l' / 2)
    ensures Or(l, l') < 2 * p && Or(2 * x + l, 2 * y + l') == 2 * z + Or(l, l')
  {
    hide Or;
    OrStep(l, l');
    OrStep(2 * x + l, 2 * y + l');
    assert (2 * x + l) / 2 == x + l / 2 && (2 * y + l') / 2 == y + l' / 2;
  }
}
