/** Bit sequences and their packing into bytes, most significant bit first.
    This is the abstract view of the byte stream the encoder writes and the
    decoder reads. */
module BitSeq {
  import opened Arith

  type Bit = x: int | 0 <= x < 2
  type Byte = x: int | 0 <= x < 256

  /** The low n bits of v (two's complement for negative v), most significant first. */
  function BitsOf(v: int, n: nat): (r: seq<Bit>)
    ensures |r| == n
    decreases n
  {
    if n == 0 then [] else BitsOf(v / 2, n - 1) + [v % 2]
  }

  /** The number whose binary digits, most significant first, are s. */
  function Value(s: seq<Bit>): (r: nat)
    ensures r < Pow2(|s|)
  {
    if s == [] then 0 else 2 * Value(s[..|s| - 1]) + s[|s| - 1]
  }

  function Zeros(n: nat): (r: seq<Bit>)
  {
    seq(n, _ => 0)
  }

  /** The bits of a byte sequence, each byte most significant bit first. */
  function Flatten(bytes: seq<Byte>): (r: seq<Bit>)
    ensures |r| == 8 * |bytes|
  {
    if bytes == [] then [] else BitsOf(bytes[0], 8) + Flatten(bytes[1..])
  }

  /** Number of zero bits that complete a stream of n bits to whole bytes. */
  function PadLength(n: nat): nat
  {
    (8 - n % 8) % 8
  }

  lemma {:induction false} PadLengthStep(n: nat)
    ensures PadLength(n + 8) == PadLength(n)
  {
    assert (n + 8) % 8 == n % 8;
  }

  /** Packs a bit stream into bytes; a partial last byte is padded with zeros on the low end. */
  function Pack(s: seq<Bit>): seq<Byte>
    decreases |s|
  {
    if |s| == 0 then []
    else if |s| < 8 then
      var t := s + Zeros(8 - |s|);
      assert |t| == 8 && Pow2(8) == 256;
      [Value(t)]
    else
      assert |s[..8]| == 8 && Pow2(8) == 256;
      [Value(s[..8])] + Pack(s[8..])
  }

  /** Concatenation is associative; stated once so that proofs can cite it. */
  lemma {:induction false} AppendAssoc<T>(a: seq<T>, b: seq<T>, c: seq<T>)
    ensures (a + b) + c == a + (b + c)
  {
  }

  /** Appending to a sequence keeps every prefix of it a prefix. */
  lemma {:induction false} PrefixAppend<T>(a: seq<T>, b: seq<T>, c: seq<T>)
    requires a <= b
    ensures a <= b + c
  {
    assert (b + c)[..|a|] == b[..|a|];
  }

  /** Being a prefix is transitive. */
  lemma {:induction false} PrefixTrans<T>(a: seq<T>, b: seq<T>, c: seq<T>)
    requires a <= b && b <= c
    ensures a <= c
  {
    assert c[..|b|][..|a|] == c[..|a|];
  }

  lemma {:induction false} ZerosAppend(a: nat, b: nat)
    ensures Zeros(a) + Zeros(b) == Zeros(a + b)
  {
  }

  lemma {:induction false} ZerosAreBits(n: nat)
    ensures BitsOf(0, n) == Zeros(n)
  {
    if n > 0 {
      ZerosAreBits(n - 1);
      assert BitsOf(0, n) == Zeros(n - 1) + [0];
    }
  }

  lemma {:induction false} ValueConcat(a: seq<Bit>, c: seq<Bit>)
    ensures Value(a + c) == Value(a) * Pow2(|c|) + Value(c)
    decreases |c|
  {
    if c == [] {
      assert a + c == a;
    } else {
      var c' := c[..|c| - 1];
      assert (a + c)[..|a + c| - 1] == a + c';
      ValueConcat(a, c');
      MulDouble(Value(a), Pow2(|c'|));
      assert Pow2(|c|) == 2 * Pow2(|c'|);
      assert Value(a + c) == 2 * Value(a + c') + c[|c| - 1];
      assert Value(c) == 2 * Value(c') + c[|c| - 1];
    }
  }

  /** The value of the low n bits of v is v mod 2^n. */
  lemma {:induction false} ValueOfBits(v: nat, n: nat)
    ensures Value(BitsOf(v, n)) == v % Pow2(n)
  {
    if n > 0 {
      ValueOfBits(v / 2, n - 1);
      var p := Pow2(n - 1);
      var s := BitsOf(v, n);
      assert s[..|s| - 1] == BitsOf(v / 2, n - 1);
      var q, r := (v / 2) / p, (v / 2) % p;
      DivMod(v / 2, p);
      MulDouble(q, p);
      assert v == q * (2 * p) + (2 * r + v % 2);
      DivModUnique(v, 2 * p, q, 2 * r + v % 2);
    }
  }

  /** Reading back the bits of a value gives the bits. */
  lemma {:induction false} BitsOfValue(s: seq<Bit>)
    ensures BitsOf(Value(s), |s|) == s
    decreases |s|
  {
    if s != [] {
      var s' := s[..|s| - 1];
      BitsOfValue(s');
      assert Value(s) / 2 == Value(s') && Value(s) % 2 == s[|s| - 1];
    }
  }

  /** Appending the m bits of l below the n bits of h. */
  lemma {:induction false} BitsConcat(h: nat, l: nat, n: nat, m: nat)
    requires l < Pow2(m)
    ensures BitsOf(h * Pow2(m) + l, n + m) == BitsOf(h, n) + BitsOf(l, m)
    decreases m
  {
    if m == 0 {
      assert h * Pow2(m) + l == h;
    } else {
      var x := h * Pow2(m - 1);
      MulDouble(h, Pow2(m - 1));
      assert h * Pow2(m) + l == 2 * x + l;
      assert (2 * x + l) / 2 == x + l / 2 && (2 * x + l) % 2 == l % 2;
      BitsConcat(h, l / 2, n, m - 1);
    }
  }

  /** Only the low n bits of v matter for BitsOf(v, n). */
  lemma {:induction false} BitsMod(v: nat, n: nat)
    ensures BitsOf(v % Pow2(n), n) == BitsOf(v, n)
  {
    var p := Pow2(n);
    var q, r := v / p, v % p;
    DivMod(v, p);
    BitsConcat(q, r, 0, n);
    assert BitsOf(q, 0) + BitsOf(r, n) == BitsOf(r, n);
  }

  /** The n + m low bits of v are its bits above position m followed by its low m bits. */
  lemma {:induction false} BitsSplit(v: nat, n: nat, m: nat)
    ensures BitsOf(v, n + m) == BitsOf(v / Pow2(m), n) + BitsOf(v, m)
  {
    var p := Pow2(m);
    var q, r := v / p, v % p;
    DivMod(v, p);
    calc {
      BitsOf(v, n + m);
      BitsOf(q * p + r, n + m);
      { BitsConcat(q, r, n, m); }
      BitsOf(q, n) + BitsOf(r, m);
      { BitsMod(v, m); }
      BitsOf(q, n) + BitsOf(v, m);
    }
  }

  lemma {:induction false} FlattenConcat(a: seq<Byte>, c: seq<Byte>)
    ensures Flatten(a + c) == Flatten(a) + Flatten(c)
    decreases |a|
  {
    if a == [] {
      assert a + c == c;
    } else {
      assert (a + c)[0] == a[0];
      assert (a + c)[1..] == a[1..] + c;
      FlattenConcat(a[1..], c);
    }
  }

  lemma {:induction false} FlattenAppend(a: seq<Byte>, x: Byte)
    ensures Flatten(a + [x]) == Flatten(a) + BitsOf(x, 8)
  {
    calc {
      Flatten(a + [x]);
      { FlattenConcat(a, [x]); }
      Flatten(a) + Flatten([x]);
      { FlattenOne(x); }
      Flatten(a) + BitsOf(x, 8);
    }
  }

  lemma {:induction false} FlattenOne(x: Byte)
    ensures Flatten([x]) == BitsOf(x, 8)
  {
    assert [x][1..] == [];
  }

  lemma {:induction false} ByteBits(x: Byte)
    ensures Value(BitsOf(x, 8)) == x
  {
    ValueOfBits(x, 8);
    Pow2Byte();
    DivModUnique(x, 0x100, 0, x);
  }

  /** Packing whole bytes' bits gives those bytes back. */
  lemma {:induction false} PackFlatten(bs: seq<Byte>, t: seq<Bit>)
    ensures Pack(Flatten(bs) + t) == bs + Pack(t)
    decreases |bs|
  {
    if bs == [] {
      assert Flatten(bs) + t == t;
    } else {
      calc {
        Pack(Flatten(bs) + t);
        { PackFlattenStep(bs, t); }
        [bs[0]] + Pack(Flatten(bs[1..]) + t);
        { PackFlatten(bs[1..], t); }
        [bs[0]] + (bs[1..] + Pack(t));
        { assert [bs[0]] + bs[1..] == bs; }
        bs + Pack(t);
      }
    }
  }

  lemma {:induction false} PackFlattenStep(bs: seq<Byte>, t: seq<Bit>)
    requires bs != []
    ensures Pack(Flatten(bs) + t) == [bs[0]] + Pack(Flatten(bs[1..]) + t)
  {
    var x := bs[0];
    assert Flatten(bs) + t == BitsOf(x, 8) + (Flatten(bs[1..]) + t);
    PackFront(BitsOf(x, 8), Flatten(bs[1..]) + t);
    ByteBits(x);
  }

  /** A stream of at least eight bits packs its first eight into the first byte. */
  lemma {:induction false} PackFront(a: seq<Bit>, r: seq<Bit>)
    requires |a| == 8
    ensures Pack(a + r) == [Value(a)] + Pack(r)
  {
    var s := a + r;
    assert s[..8] == a;
    assert s[8..] == r;
  }

  /** Pack emits ceil(|s| / 8) bytes whose bits are s followed by zero padding. */
  lemma {:induction false} PackBits(s: seq<Bit>)
    ensures |Pack(s)| == (|s| + 7) / 8
    ensures Flatten(Pack(s)) == s + Zeros(PadLength(|s|))
    decreases |s|
  {
    if |s| == 0 {
      assert Pack(s) == [];
    } else if |s| < 8 {
      PackLastByte(s);
    } else {
      var h, rest := s[..8], s[8..];
      PackBits(rest);
      PackByteStep(s);
      PadLengthStep(|rest|);
      assert s == h + rest;
    }
  }

  lemma {:induction false} PadLengthOfPartial(n: nat)
    requires 0 < n <= 8
    ensures PadLength(n) == 8 - n
  {
    if n < 8 {
      DivModUnique(n, 8, 0, n);
      DivModUnique(8 - n, 8, 0, 8 - n);
    }
  }

  /** Padding a stream to whole bytes does not change its packing. */
  lemma {:induction false} PackPad(s: seq<Bit>)
    ensures Pack(s + Zeros(PadLength(|s|))) == Pack(s)
  {
    PackBits(s);
    PackFlatten(Pack(s), []);
    assert Flatten(Pack(s)) + [] == Flatten(Pack(s));
  }

  /** Up to eight bits that, padded with zeros, spell byte x pack to x. */
  lemma {:induction false} PackOneByte(s: seq<Bit>, x: Byte)
    requires 0 < |s| <= 8 && s + Zeros(8 - |s|) == BitsOf(x, 8)
    ensures Pack(s) == [x]
  {
    PadLengthOfPartial(|s|);
    calc {
      Pack(s);
      { PackPad(s); }
      Pack(BitsOf(x, 8));
      { assert Flatten([x]) + [] == BitsOf(x, 8) + Flatten([]); }
      Pack(Flatten([x]) + []);
      { PackFlatten([x], []); }
      [x] + Pack([]);
      [x];
    }
  }

  lemma {:induction false} PackLastByte(s: seq<Bit>)
    requires 0 < |s| < 8
    ensures |Pack(s)| == 1
    ensures Flatten(Pack(s)) == s + Zeros(PadLength(|s|))
  {
    var t := s + Zeros(8 - |s|);
    BitsOfValue(t);
    assert Pack(s) == [Value(t)];
    assert Flatten([Value(t)]) == BitsOf(Value(t), 8) + Flatten([]);
    PadLengthOfPartial(|s|);
  }

  lemma {:induction false} PackByteStep(s: seq<Bit>)
    requires |s| >= 8
    ensures |Pack(s)| == 1 + |Pack(s[8..])|
    ensures Flatten(Pack(s)) == s[..8] + Flatten(Pack(s[8..]))
  {
    var h := s[..8];
    BitsOfValue(h);
    assert Pack(s) == [Value(h)] + Pack(s[8..]);
    FlattenConcat([Value(h)], Pack(s[8..]));
    assert Flatten([Value(h)]) == BitsOf(Value(h), 8) + Flatten([]);
  }

  /** Bit i of the bit stream of `src`: bit 7 - i % 8 of byte i / 8. */
  ghost function SrcBit(src: seq<Byte>, i: nat): Bit
    requires i < 8 * |src|
  {
    TestBit(src[i / 8], 7 - i % 8)
  }

  /** Bit i of a byte sequence's bit stream is SrcBit. */
  lemma {:induction false} FlattenBit(r: seq<Byte>, i: nat)
    requires i < 8 * |r|
    ensures Flatten(r)[i] == SrcBit(r, i)
    decreases |r|
  {
    var head, tail := BitsOf(r[0], 8), Flatten(r[1..]);
    assert Flatten(r) == head + tail;
    if i < 8 {
      DivModUnique(i, 8, 0, i);
      BitsOfIndex(r[0], 8, 7 - i);
    } else {
      var q, m := (i - 8) / 8, (i - 8) % 8;
      DivModUnique(i, 8, q + 1, m);
      assert Flatten(r)[i] == tail[i - 8];
      FlattenBit(r[1..], i - 8);
      assert r[1..][q] == r[q + 1];
    }
  }

  /** Bit k of v is the k-th last of its n low bits. */
  lemma {:induction false} BitsOfIndex(v: nat, n: nat, k: nat)
    requires k < n
    ensures BitsOf(v, n)[n - 1 - k] == TestBit(v, k)
    decreases n
  {
    if k > 0 {
      BitsOfIndex(v / 2, n - 1, k - 1);
    }
  }

  /** Bit k of v, counting from the least significant: `(v >> k) & 1`. */
  function TestBit(v: nat, k: nat): Bit
  {
    if k == 0 then v % 2 else TestBit(v / 2, k - 1)
  }

  lemma {:induction false} TestBitIsShift(v: nat, k: nat)
    ensures TestBit(v, k) == v / Pow2(k) % 2
  {
    if k > 0 {
      TestBitIsShift(v / 2, k - 1);
      DivDiv(v, 2, Pow2(k - 1));
    }
  }
}
