/** Python's shifts, bitwise operators and `bit_length` on non-negative integers. */
module Bits {
  function Pow2(n: nat): (p: nat)
    ensures p >= 1
  {
    if n == 0 then 1 else 2 * Pow2(n - 1)
  }

  function Shl(x: nat, n: nat): nat {
    x * Pow2(n)
  }

  function Shr(x: nat, n: nat): nat {
    hide Pow2;
    QuotientNotNegative(x, Pow2(n));
    x / Pow2(n)
  }

  function And(a: nat, b: nat): nat {
    if a == 0 || b == 0 then 0 else 2 * And(a / 2, b / 2) + (a % 2) * (b % 2)
  }

  function Or(a: nat, b: nat): nat {
    if a == 0 then b
    else if b == 0 then a
    else 2 * Or(a / 2, b / 2) + (if a % 2 == 1 || b % 2 == 1 then 1 else 0)
  }

  function Xor(a: nat, b: nat): nat {
    if a == 0 then b
    else if b == 0 then a
    else 2 * Xor(a / 2, b / 2) + (if a % 2 != b % 2 then 1 else 0)
  }

  function BitLength(x: nat): nat {
    if x == 0 then 0 else 1 + BitLength(x / 2)
  }

  function Min(a: int, b: int): int {
    if a <= b then a else b
  }

  function Max(a: int, b: int): int {
    if a >= b then a else b
  }

  // ----- Powers of two

  lemma Pow2Values()
    ensures Pow2(0) == 1 && Pow2(7) == 128 && Pow2(8) == 256 && Pow2(15) == 0x8000 && Pow2(16) == 0x1_0000
  {
    Pow2Add(8, 7);
    assert Pow2(8) == 256 && Pow2(7) == 128;
  }

  lemma {:induction false} Pow2Add(a: nat, b: nat)
    ensures Pow2(a + b) == Pow2(a) * Pow2(b)
  {
    if a == 0 {
    } else {
      Pow2Add(a - 1, b);
      assert Pow2(a - 1 + b) == Pow2(a - 1) * Pow2(b);
      assert 2 * (Pow2(a - 1) * Pow2(b)) == (2 * Pow2(a - 1)) * Pow2(b);
    }
  }

  lemma {:induction false} Pow2Monotone(a: nat, b: nat)
    requires a <= b
    ensures Pow2(a) <= Pow2(b)
    decreases b - a
  {
    if a < b {
      Pow2Monotone(a + 1, b);
    }
  }

  lemma MulPositive(a: int, b: int)
    requires a >= 1 && b >= 1
    ensures a * b >= b && a * b >= a
  {
    assert (a - 1) * (b - 1) >= 0;
  }

  lemma MulMonotone(a: int, b: int, c: nat)
    requires a <= b
    ensures a * c <= b * c
  {
  }

  lemma QuotientUnique(d: int, q: int, r: int, q': int, r': int)
    requires d > 0 && q * d + r == q' * d + r' && 0 <= r < d && 0 <= r' < d
    ensures q == q' && r == r'
  {
    assert (q - q') * d == q * d - q' * d;
    if q > q' {
      MulPositive(q - q', d);
    } else if q < q' {
      MulPositive(q' - q, d);
    }
  }

  lemma DivModIdentity(x: int, d: int)
    requires d > 0
    ensures x == (x / d) * d + x % d && 0 <= x % d < d
  {
  }

  lemma QuotientNotNegative(x: nat, d: int)
    requires d > 0
    ensures x / d >= 0
  {
    DivModIdentity(x, d);
    if x / d < 0 {
      MulMonotone(x / d, -1, d);
    }
  }

  lemma QuotientMonotone(x: int, y: int, d: int)
    requires d >= 1 && x <= y
    ensures x / d <= y / d
  {
    DivModIdentity(x, d);
    DivModIdentity(y, d);
    var k := x / d - y / d;
    assert k * d == (x / d) * d - (y / d) * d;
    if k >= 1 {
      MulPositive(k, d);
    }
  }

  /** Quotient and remainder by a positive divisor are the only ones in range. */
  lemma DivModUnique(x: int, d: int, q: int, r: int)
    requires d > 0 && x == q * d + r && 0 <= r < d
    ensures x / d == q && x % d == r
  {
    DivModIdentity(x, d);
    QuotientUnique(d, q, r, x / d, x % d);
  }

  /** Dividing by two and then by `h` is dividing by `2 * h`. */
  lemma DivModDouble(x: nat, h: nat)
    requires h >= 1
    ensures x / (2 * h) == (x / 2) / h
    ensures x % (2 * h) == 2 * ((x / 2) % h) + x % 2
  {
    var q, r := (x / 2) / h, (x / 2) % h;
    DivModIdentity(x / 2, h);
    assert q * (2 * h) == 2 * (q * h);
    DivModUnique(x, 2 * h, q, 2 * r + x % 2);
  }

  lemma DivThenDiv(x: nat, a: nat, b: nat)
    requires a >= 1 && b >= 1
    ensures a * b >= 1 && x / (a * b) == (x / a) / b
  {
    MulPositive(a, b);
    var q, r := (x / a) / b, (x / a) % b;
    DivModIdentity(x, a);
    DivModIdentity(x / a, b);
    assert x == q * (a * b) + (r * a + x % a) by {
      assert (q * b + r) * a == q * (a * b) + r * a;
    }
    assert r * a + x % a < a * b by {
      MulMonotone(r + 1, b, a);
      assert (r + 1) * a == r * a + a;
      assert b * a == a * b;
    }
    DivModUnique(x, a * b, q, r * a + x % a);
  }

  // ----- Bitwise operators

  lemma {:induction false} XorCommutes(a: nat, b: nat)
    ensures Xor(a, b) == Xor(b, a)
  {
    if a == 0 || b == 0 {
    } else {
      XorCommutes(a / 2, b / 2);
    }
  }

  /** XOR against a number whose low `n` bits are all ones complements those bits. */
  lemma {:induction false} XorLowOnes(b: nat, m: nat, n: nat)
    requires b < Pow2(n) && m >= 1
    ensures m * Pow2(n) >= 1
    ensures Xor(b, m * Pow2(n) - 1) == m * Pow2(n) - 1 - b
  {
    hide Xor;
    MulPositive(m, Pow2(n));
    if n == 0 {
      XorZero(m * Pow2(n) - 1);
    } else {
      var half := m * Pow2(n - 1);
      assert m * Pow2(n) == 2 * half;
      MulPositive(m, Pow2(n - 1));
      XorLowOnes(b / 2, m, n - 1);
      XorOdd(b, half);
    }
  }

  lemma XorZero(a: nat)
    ensures Xor(0, a) == a
  {
  }

  lemma XorOdd(b: nat, half: nat)
    requires half >= 1
    ensures Xor(b, 2 * half - 1) == 2 * Xor(b / 2, half - 1) + 1 - b % 2
  {
  }

  lemma {:induction false} OrHighBit(v: nat, n: nat)
    requires v < Pow2(n)
    ensures Or(v, Pow2(n)) == v + Pow2(n)
  {
    if n == 0 || v == 0 {
    } else {
      OrHighBit(v / 2, n - 1);
    }
  }

  lemma {:induction false} AndLowMask(x: nat, n: nat)
    ensures And(x, Pow2(n) - 1) == x % Pow2(n)
  {
    hide And, Pow2;
    if n == 0 {
      Pow2Values();
      AndZero(x);
    } else {
      var half := Pow2(n - 1);
      Pow2Step(n);
      AndLowMask(x / 2, n - 1);
      DivModDouble(x, half);
      AndOdd(x, half);
    }
  }

  lemma Pow2Step(n: nat)
    requires n >= 1
    ensures Pow2(n) == 2 * Pow2(n - 1)
  {
  }

  lemma AndZero(x: nat)
    ensures And(x, 0) == 0
  {
  }

  lemma AndOdd(x: nat, half: nat)
    requires half >= 1
    ensures And(x, 2 * half - 1) == 2 * And(x / 2, half - 1) + x % 2
  {
  }

  /** `x & (1 << n)` keeps exactly bit `n` of `x`. */
  lemma {:induction false} AndSingleBit(x: nat, n: nat)
    ensures And(x, Pow2(n)) == if x / Pow2(n) % 2 == 1 then Pow2(n) else 0
  {
    if n == 0 {
      if x > 0 {
        assert And(x, 1) == 2 * And(x / 2, 0) + x % 2;
      }
    } else {
      AndSingleBit(x / 2, n - 1);
      DivModDouble(x, Pow2(n - 1));
    }
  }

  // ----- bit_length

  lemma {:induction false} BitLengthBounds(x: nat)
    requires x > 0
    ensures BitLength(x) >= 1
    ensures Pow2(BitLength(x) - 1) <= x < Pow2(BitLength(x))
  {
    if x > 1 {
      BitLengthBounds(x / 2);
    }
  }

  lemma BitLengthUnique(x: nat, n: nat)
    requires Pow2(n) <= x < Pow2(n + 1)
    ensures BitLength(x) == n + 1
  {
    BitLengthBounds(x);
    if BitLength(x) - 1 < n {
      Pow2Monotone(BitLength(x), n);
    } else if BitLength(x) - 1 > n {
      Pow2Monotone(n + 1, BitLength(x) - 1);
    }
  }
}
