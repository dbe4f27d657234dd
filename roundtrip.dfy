/** Decoding what the code emits: each codeword yields its value, the code is
    prefix-free, and a stream of codewords followed by zero padding decodes to
    exactly the values encoded. */
module RoundTrip {
  import opened Arith
  import opened BitSeq
  import opened GolombCode
  import opened DecodeSpec

  /** Between codewords: counting zeros, none counted yet. */
  predicate Idle(f: Fsm)
  {
    f.state == CountingZeros && f.zeros == 0
  }

  lemma {:induction false} DecodeZeros(f: Fsm, k: nat)
    requires f.state == CountingZeros
    ensures Decode(f, Zeros(k)) == Decoded(f.(zeros := f.zeros + k), [])
    decreases k
  {
    if k > 0 {
      assert Zeros(k)[1..] == Zeros(k - 1);
      DecodeZeros(f.(zeros := f.zeros + 1), k - 1);
    }
  }

  /** Shifting in |s| bits after the leading 1 builds v * 2^|s| + Value(s), less the bias. */
  lemma {:induction false} DecodeShift(v: int, s: seq<Bit>)
    requires |s| >= 1
    ensures Decode(Fsm(ShiftingBits, v, |s|), s)
         == Decoded(Fsm(ReadingSign, v * Pow2(|s|) + Value(s) - 1, 0), [])
    decreases |s|
  {
    var v' := 2 * v + s[0];
    ValueConcat([s[0]], s[1..]);
    assert [s[0]] + s[1..] == s;
    assert Value([s[0]]) == s[0] by {
      assert [s[0]][..0] == [];
    }
    if |s| == 1 {
      assert s[1..] == [];
    } else {
      DecodeShift(v', s[1..]);
      var p := Pow2(|s| - 1);
      assert v' * p == v * (2 * p) + s[0] * p by {
        MulAddAssoc(v, 2, s[0], p);
      }
    }
  }

  /** The zeros, the leading 1 and the n magnitude bits of u leave the decoder
      about to read the sign, holding u - 1. */
  lemma {:induction false} DecodeBody(f: Fsm, u: nat, n: nat)
    requires Idle(f) && n >= 1 && Pow2(n) <= u < Pow2(n + 1)
    ensures Decode(f, Zeros(n) + [1] + BitsOf(u, n)) == Decoded(Fsm(ReadingSign, u - 1, 0), [])
  {
    var mag := BitsOf(u, n);
    assert Decode(f, Zeros(n) + [1]) == Decoded(Fsm(ShiftingBits, 1, n), []) by {
      DecodeZeros(f, n);
      assert Decode(f.(zeros := n), [1]) == Decoded(Fsm(ShiftingBits, 1, n), []);
      DecodeAppend(f, Zeros(n), [1]);
    }
    assert Value(mag) == u - Pow2(n) by {
      ValueOfBits(u, n);
      DivModUnique(u, Pow2(n), 1, u - Pow2(n));
    }
    DecodeShift(1, mag);
    DecodeAppend(f, Zeros(n) + [1], mag);
  }

  /** Decoding one codeword from between codewords yields exactly its value, and the
      codeword without its last bit yields nothing. */
  lemma {:induction false} DecodeCodeword(f: Fsm, x: int)
    requires Idle(f)
    ensures var d := Decode(f, Codeword(x)); d.values == [x] && Idle(d.fsm)
    ensures Decode(f, Codeword(x)[..|Codeword(x)| - 1]).values == []
  {
    if x == 0 {
      assert Codeword(x)[..0] == [];
    } else {
      DecodeNonzero(f, x);
    }
  }

  /** A nonzero value's codeword: its body leaves the sign to read, and the sign
      bit completes the value. */
  lemma {:induction false} DecodeNonzero(f: Fsm, x: int)
    requires Idle(f) && x != 0
    ensures var d := Decode(f, Codeword(x)); d.values == [x] && Idle(d.fsm)
    ensures Decode(f, Codeword(x)[..|Codeword(x)| - 1]).values == []
  {
    var u := Abs(x) + 1;
    var n := BitLength(u) - 1;
    var sign: Bit := if x < 0 then 1 else 0;
    var body := Zeros(n) + [1] + BitsOf(u, n);
    assert Codeword(x) == body + [sign] && n >= 1 && Pow2(n) <= u < Pow2(n + 1) by {
      CodewordShape(x);
    }
    assert Codeword(x)[..|Codeword(x)| - 1] == body;
    var f3 := Fsm(ReadingSign, Abs(x), 0);
    DecodeBody(f, u, n);
    assert Decode(f3, [sign]) == Decoded(Fsm(CountingZeros, x, 0), [x]);
    DecodeAppend(f, body, [sign]);
  }

  /** Codewords followed by any run of zeros decode to exactly the values encoded;
      the zeros leave the decoder counting them. */
  lemma {:induction false} DecodeEncode(f: Fsm, xs: seq<int>, p: nat)
    requires Idle(f)
    ensures var d := Decode(f, Encode(xs) + Zeros(p));
      d.values == xs && d.fsm.state == CountingZeros && d.fsm.zeros == p
    decreases |xs|
  {
    if xs == [] {
      assert Encode(xs) + Zeros(p) == Zeros(p);
      DecodeZeros(f, p);
    } else {
      var c := Codeword(xs[0]);
      DecodeCodeword(f, xs[0]);
      var f1 := Decode(f, c).fsm;
      DecodeEncode(f1, xs[1..], p);
      assert Encode(xs) + Zeros(p) == c + (Encode(xs[1..]) + Zeros(p));
      DecodeAppend(f, c, Encode(xs[1..]) + Zeros(p));
    }
  }

  /** The bytes a closed encoder has written decode to the values written. */
  lemma {:induction false} PackedRoundTrip(xs: seq<int>)
    ensures Decode(Initial, Flatten(Pack(Encode(xs)))).values == xs
  {
    PackBits(Encode(xs));
    DecodeEncode(Initial, xs, PadLength(|Encode(xs)|));
  }

  /** No codeword is a prefix of another: a stream starting with a codeword determines it. */
  lemma {:induction false} PrefixFree(x: int, y: int, r: seq<Bit>, r': seq<Bit>)
    requires Codeword(x) + r == Codeword(y) + r'
    ensures x == y && r == r'
  {
    var s := Codeword(x) + r;
    DecodeCodeword(Initial, x);
    DecodeCodeword(Initial, y);
    DecodeAppend(Initial, Codeword(x), r);
    DecodeAppend(Initial, Codeword(y), r');
    assert Decode(Initial, s).values[0] == x;
    assert Decode(Initial, s).values[0] == y;
    assert r == s[|Codeword(x)|..];
  }

  /** Distinct value sequences have distinct encodings. */
  lemma {:induction false} EncodeInjective(xs: seq<int>, ys: seq<int>)
    requires Encode(xs) == Encode(ys)
    ensures xs == ys
  {
    DecodeEncode(Initial, xs, 0);
    DecodeEncode(Initial, ys, 0);
  }

  /** A stream cut off inside a codeword yields only the values before the cut. */
  lemma {:induction false} TruncatedTail(xs: seq<int>, y: int, j: nat)
    requires j < |Codeword(y)|
    ensures Decode(Initial, Encode(xs) + Codeword(y)[..j]).values == xs
  {
    var c := Codeword(y);
    var f := Decode(Initial, Encode(xs)).fsm;
    assert Decode(Initial, Encode(xs)).values == xs && Idle(f) by {
      DecodeEncode(Initial, xs, 0);
      assert Encode(xs) + Zeros(0) == Encode(xs);
    }
    assert Decode(f, c[..j]).values == [] by {
      DecodeCodeword(f, y);
      assert c[..|c| - 1] == c[..j] + c[j..|c| - 1];
      DecodeAppend(f, c[..j], c[j..|c| - 1]);
    }
    DecodeAppend(Initial, Encode(xs), c[..j]);
  }
}
