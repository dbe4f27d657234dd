/** The signed order-zero exponential-Golomb code: the bit pattern of one
    value, and of a sequence of values. */
module GolombCode {
  import opened Arith
  import opened BitSeq

  /** The largest magnitude the encoder is documented to handle. */
  const MaxMagnitude: int := 0x7FFF_FFFE

  predicate InRange(x: int)
  {
    -MaxMagnitude <= x <= MaxMagnitude
  }

  predicate AllInRange(xs: seq<int>)
  {
    forall i :: 0 <= i < |xs| ==> InRange(xs[i])
  }

  function Abs(x: int): nat
  {
    if x < 0 then -x else x
  }

  /** The number of binary digits of x; BitLength(0) == 0 and BitLength(1) == 1. */
  function BitLength(x: nat): nat
  {
    if x == 0 then 0 else 1 + BitLength(x / 2)
  }

  lemma {:induction false} BitLengthBounds(x: nat)
    ensures x < Pow2(BitLength(x))
    ensures x > 0 ==> Pow2(BitLength(x) - 1) <= x
  {
    if x > 0 {
      BitLengthBounds(x / 2);
    }
  }

  /** BitLength(x) is the least k with x < 2^k. */
  lemma {:induction false} BitLengthIsLeast(x: nat, k: nat)
    ensures x < Pow2(k) <==> BitLength(x) <= k
  {
    BitLengthBounds(x);
    if BitLength(x) <= k {
      Pow2Monotone(BitLength(x), k);
    } else {
      Pow2Monotone(k, BitLength(x) - 1);
    }
  }

  lemma {:induction false} BitLengthMonotone(a: nat, b: nat)
    requires a <= b
    ensures BitLength(a) <= BitLength(b)
  {
    BitLengthBounds(b);
    BitLengthIsLeast(a, BitLength(b));
  }

  /** Shifting right by k bits removes k binary digits. */
  lemma {:induction false} BitLengthShift(x: nat, k: nat)
    requires x >= Pow2(k)
    ensures BitLength(x) == k + BitLength(x / Pow2(k))
  {
    if k > 0 {
      BitLengthShift(x / 2, k - 1);
      DivDiv(x, 2, Pow2(k - 1));
    }
  }

  /** The codeword of x: 1 for zero; otherwise, for u = |x| + 1 with n + 1
      binary digits, n zeros, the n + 1 digits of u and a sign bit (1 = negative). */
  function Codeword(x: int): seq<Bit>
  {
    if x == 0 then [1]
    else
      var u := Abs(x) + 1;
      var n := BitLength(u) - 1;
      Zeros(n) + BitsOf(u, n + 1) + [if x < 0 then 1 else 0]
  }

  /** The bits of a sequence of values, codeword after codeword. */
  function Encode(xs: seq<int>): seq<Bit>
  {
    if xs == [] then [] else Codeword(xs[0]) + Encode(xs[1..])
  }

  lemma {:induction false} EncodeAppend(a: seq<int>, b: seq<int>)
    ensures Encode(a + b) == Encode(a) + Encode(b)
    decreases |a|
  {
    if a == [] {
      assert a + b == b;
    } else {
      assert (a + b)[1..] == a[1..] + b;
      EncodeAppend(a[1..], b);
    }
  }

  /** Extending a prefix of the values by one extends its encoding by that codeword. */
  lemma {:induction false} EncodePrefix(xs: seq<int>, i: nat)
    requires i < |xs|
    ensures Encode(xs[..i + 1]) == Encode(xs[..i]) + Codeword(xs[i])
  {
    assert xs[..i + 1] == xs[..i] + [xs[i]];
    EncodeAppend(xs[..i], [xs[i]]);
    assert Encode([xs[i]]) == Codeword(xs[i]) + Encode([]);
  }

  /** A nonzero codeword: n >= 1 zeros, a 1, the low n bits of |x| + 1, the sign. */
  lemma {:induction false} CodewordShape(x: int)
    requires x != 0
    ensures var u := Abs(x) + 1; var n := BitLength(u) - 1;
      && n >= 1
      && Pow2(n) <= u < Pow2(n + 1)
      && Codeword(x) == Zeros(n) + [1] + BitsOf(u, n) + [if x < 0 then 1 else 0]
  {
    var u := Abs(x) + 1;
    var n := BitLength(u) - 1;
    assert n >= 1 && Pow2(n) <= u < Pow2(n + 1) by {
      BitLengthBounds(u);
      assert BitLength(u) >= 2 by {
        assert u / 2 >= 1;
      }
    }
    assert BitsOf(u, n + 1) == [1] + BitsOf(u, n) by {
      DivModUnique(u, Pow2(n), 1, u - Pow2(n));
      BitsSplit(u, 1, n);
      assert BitsOf(u / Pow2(n), 1) == [1];
    }
    AppendAssoc(Zeros(n), [1], BitsOf(u, n));
  }

  /** Codeword length: 1 bit for zero, 2 * (BitLength(|x| + 1) - 1) + 2 bits otherwise. */
  lemma {:induction false} CodewordLength(x: int)
    ensures |Codeword(x)| == if x == 0 then 1 else 2 * (BitLength(Abs(x) + 1) - 1) + 2
  {
  }

  /** Codeword length never decreases as the magnitude grows. */
  lemma {:induction false} CodewordLengthMonotone(a: int, b: int)
    requires Abs(a) <= Abs(b)
    ensures |Codeword(a)| <= |Codeword(b)|
  {
    CodewordLength(a);
    CodewordLength(b);
    if a != 0 {
      BitLengthMonotone(Abs(a) + 1, Abs(b) + 1);
    }
  }

  lemma {:induction false} SmallCodewordLengths()
    ensures |Codeword(0)| == 1
    ensures |Codeword(1)| == 4 && |Codeword(-1)| == 4
    ensures |Codeword(2)| == 4 && |Codeword(-2)| == 4
  {
    assert BitLength(2) == 2 && BitLength(3) == 2;
  }

  /** The code table for the two-bit magnitudes: 0 = 1, 1 = 010s, 2 = 011s. */
  lemma {:induction false} CodewordTable()
    ensures Codeword(0) == [1]
    ensures Codeword(1) == [0, 1, 0, 0] && Codeword(-1) == [0, 1, 0, 1]
    ensures Codeword(2) == [0, 1, 1, 0] && Codeword(-2) == [0, 1, 1, 1]
  {
    assert BitLength(2) == 2 && BitLength(3) == 2;
  }

  /** The code table for the three-bit magnitudes: 3 = 001000, 4 = 001010, 5 = 001100, 6 = 001110, -6 = 001111. */
  lemma {:induction false} CodewordTableLonger()
    ensures Codeword(3) == [0, 0, 1, 0, 0, 0]
    ensures Codeword(4) == [0, 0, 1, 0, 1, 0]
    ensures Codeword(5) == [0, 0, 1, 1, 0, 0]
    ensures Codeword(6) == [0, 0, 1, 1, 1, 0] && Codeword(-6) == [0, 0, 1, 1, 1, 1]
  {
    ThreeDigitCodeword(3);
    ThreeDigitCodeword(4);
    ThreeDigitCodeword(5);
    ThreeDigitCodeword(6);
    ThreeDigitCodeword(-6);
  }

  lemma {:induction false} ThreeDigitCodeword(x: int)
    requires 3 <= Abs(x) <= 6
    ensures Codeword(x) == [0, 0] + BitsOf(Abs(x) + 1, 3) + [if x < 0 then 1 else 0]
  {
    var u := Abs(x) + 1;
    assert BitLength(u) == 3 by {
      assert BitLength(u / 2) == 2 by {
        assert BitLength(u / 2 / 2) == 1;
      }
    }
    assert Zeros(2) == [0, 0];
  }

  /** A nonzero codeword as the encoder emits it: n zeros, then the n + 2 bits
      of (|x| + 1) * 2 + sign, where n + 1 is the bit length of |x| + 1. */
  lemma {:induction false} CodewordAsShift(x: int, u: nat, sign: Bit, n: nat, w: nat)
    requires x != 0 && u == Abs(x) + 1 && sign == (if x < 0 then 1 else 0)
    requires n + 1 == BitLength(u) && w == 2 * u + sign
    ensures w < Pow2(n + 2)
    ensures Codeword(x) == Zeros(n) + BitsOf(w, n + 2)
  {
    assert u < Pow2(n + 1) by {
      BitLengthBounds(u);
    }
    ShiftInBit(u, sign, w, n + 1);
    assert Codeword(x) == Zeros(n) + BitsOf(u, n + 1) + [sign];
    AppendAssoc(Zeros(n), BitsOf(u, n + 1), [sign]);
  }

  /** u << 1 | bit: one more bit at the bottom, and still below the next power of two. */
  lemma {:induction false} ShiftInBit(u: nat, bit: Bit, w: nat, k: nat)
    requires w == 2 * u + bit && u < Pow2(k)
    ensures w < Pow2(k + 1) && BitsOf(w, k + 1) == BitsOf(u, k) + [bit]
  {
    DivModUnique(w, 2, u, bit);
  }

  /** The encoder's constant patterns for 0, 1 and -1 are the general codewords:
      addBits(1, 1), addBits(4, 4) and addBits(5, 4). */
  lemma {:induction false} FastPath(x: int, bits: nat, nbits: nat)
    requires (x, bits, nbits) == (0, 1, 1) || (x, bits, nbits) == (1, 4, 4) || (x, bits, nbits) == (-1, 5, 4)
    ensures Codeword(x) == BitsOf(bits, nbits)
  {
    CodewordTable();
    if x == 0 {
      assert BitsOf(bits, nbits) == BitsOf(1, 1);
    } else if x == 1 {
      assert BitsOf(bits, nbits) == BitsOf(4, 4);
    } else {
      assert BitsOf(bits, nbits) == BitsOf(5, 4);
    }
  }
}
