/** Arithmetic behind the codec's shifts and masks.
    On naturals, `x << n` is `x * Pow2(n)`, `x >> n` is `x / Pow2(n)` and
    `x & (2^n - 1)` is `x % Pow2(n)`; `|` is the function BitOr below. */
module Arith {

  /** 2 to the power n. */
  function Pow2(n: nat): (r: nat)
    ensures r >= 1
  {
    if n == 0 then 1 else 2 * Pow2(n - 1)
  }

  lemma {:induction false} Pow2Byte()
    ensures Pow2(8) == 0x100
  {
    assert Pow2(2) == 4;
    assert Pow2(4) == 16;
    assert Pow2(6) == 64;
  }

  lemma {:induction false} Pow2Add(a: nat, b: nat)
    ensures Pow2(a + b) == Pow2(a) * Pow2(b)
  {
    if a > 0 {
      Pow2Add(a - 1, b);
      assert Pow2(a + b) == 2 * Pow2(a - 1 + b);
    }
  }

  lemma {:induction false} Pow2Monotone(a: nat, b: nat)
    requires a <= b
    ensures Pow2(a) <= Pow2(b)
  {
    if a < b {
      Pow2Monotone(a, b - 1);
    }
  }

  /** Euclidean division is determined by quotient and remainder. */
  lemma {:induction false} DivModUnique(v: int, d: int, q: int, r: int)
    requires d > 0 && 0 <= r < d && v == q * d + r
    ensures v / d == q && v % d == r
  {
    var q', r' := v / d, v % d;
    assert q * d + r == q' * d + r';
    if q > q' {
      MulAtLeast(q - q', d);
    } else if q < q' {
      MulAtLeast(q' - q, d);
    }
  }

  lemma {:induction false} MulAtLeast(a: int, d: int)
    requires a >= 1 && d > 0
    ensures a * d >= d
  {
    assert a * d == (a - 1) * d + d;
  }

  lemma {:induction false} MulDouble(x: int, p: int)
    ensures x * (2 * p) == 2 * (x * p)
  {
  }

  lemma {:induction false} DivMod(v: int, d: int)
    requires d > 0
    ensures v == (v / d) * d + v % d && 0 <= v % d < d
    ensures v >= 0 ==> v / d >= 0
  {
  }

  lemma {:induction false} MulLess(a: int, b: int, k: int)
    requires a < b && k > 0
    ensures a * k < b * k
  {
    MulAtLeast(b - a, k);
    assert b * k - a * k == (b - a) * k;
  }

  lemma {:induction false} MulMono(a: int, b: int, k: int)
    requires a <= b && k >= 0
    ensures a * k <= b * k
  {
    assert b * k - a * k == (b - a) * k;
  }

  lemma {:induction false} MulAddAssoc(h: int, p: int, l: int, k: int)
    ensures (h * p + l) * k == h * (p * k) + l * k
  {
  }

  /** A number below p * q, shifted right by q, is below p. */
  lemma {:induction false} DivLess(a: nat, p: nat, q: nat)
    requires q > 0 && a < p * q
    ensures a / q < p
  {
    DivMod(a, q);
    if a / q >= p {
      MulMono(p, a / q, q);
    }
  }

  /** Shifting right by a then by b is shifting right by a * b. */
  lemma {:induction false} DivDiv(v: nat, a: nat, b: nat)
    requires a > 0 && b > 0
    ensures v / a / b == v / (a * b)
  {
    var q1, r1 := v / a, v % a;
    var q2, r2 := q1 / b, q1 % b;
    DivMod(v, a);
    DivMod(q1, b);
    DivDivParts(a, b, q1, r1, q2, r2);
    DivModUnique(v, a * b, q2, r2 * a + r1);
  }

  /** The digits of v in the mixed radix (a, b): v = (q2 * b + r2) * a + r1. */
  lemma {:induction false} DivDivParts(a: nat, b: nat, q1: nat, r1: nat, q2: nat, r2: nat)
    requires r1 < a && r2 < b && q1 == q2 * b + r2
    ensures q1 * a + r1 == q2 * (a * b) + (r2 * a + r1)
    ensures r2 * a + r1 < a * b
  {
    MulAddAssoc(q2, b, r2, a);
    MulMono(r2 + 1, b, a);
    MulAddAssoc(r2, 1, 1, a);
  }

  /** Masking a left-shifted value: (x << k) mod 2^(k+n) keeps the low n bits of x, shifted. */
  lemma {:induction false} MulMod(x: nat, p: nat, q: nat)
    requires p > 0 && q > 0
    ensures (x * p) % (p * q) == p * (x % q)
    ensures (x * p) % (p * q) / p == x % q
  {
    var k, r := x / q, x % q;
    assert x * p == k * (p * q) + r * p by {
      assert x == k * q + r;
    }
    assert r * p <= (q - 1) * p;
    DivModUnique(x * p, p * q, k, r * p);
    DivModUnique(r * p, p, r, 0);
  }

  /** Bitwise OR of two naturals. */
  function BitOr(a: nat, b: nat): nat
    decreases a + b
  {
    if a == 0 then b
    else if b == 0 then a
    else 2 * BitOr(a / 2, b / 2) + (if a % 2 == 1 || b % 2 == 1 then 1 else 0)
  }

  /** OR-ing b into the zero low k bits of h * 2^k is addition. */
  lemma {:induction false} BitOrDisjoint(h: nat, k: nat, b: nat)
    requires b < Pow2(k)
    ensures BitOr(h * Pow2(k), b) == h * Pow2(k) + b
  {
    if k > 0 {
      var p := Pow2(k - 1);
      var a, a' := h * Pow2(k), h * p;
      assert a == 2 * a' by {
        MulDouble(h, p);
      }
      if a != 0 && b != 0 {
        DivModUnique(a, 2, a', 0);
        DivMod(b, 2);
        BitOrDisjoint(h, k - 1, b / 2);
        assert BitOr(a, b) == 2 * BitOr(a', b / 2) + b % 2;
      }
    }
  }
}
