/** The byte strings DeltaEncode produces, starting from 0, for the repository's
    table of fixed examples: each is the packed codewords of the residuals, and by
    DeltaRoundTrip decoding it gives the example's values back. */
module Vectors {
  import opened Arith
  import opened BitSeq
  import opened GolombCode
  import opened Delta

  /** A bit stream that, completed with zeros, spells out `bytes` packs to `bytes`. */
  lemma {:induction false} PackedAs(s: seq<Bit>, bytes: seq<Byte>)
    requires s + Zeros(PadLength(|s|)) == Flatten(bytes)
    ensures Pack(s) == bytes
  {
    PackPad(s);
    PackFlatten(bytes, []);
    assert Flatten(bytes) + [] == Flatten(bytes);
  }

  /** A vector holds once the residuals' codewords are known as a bit list s and
      s completed with zeros is known to spell out the bytes. */
  lemma {:induction false} VectorFrom(xs: seq<int>, s: seq<Bit>, bytes: seq<Byte>)
    requires Encode(Deltas(0, xs)) == s
    requires s + Zeros(PadLength(|s|)) == Flatten(bytes)
    ensures Pack(Encode(Deltas(0, xs))) == bytes
  {
    PackedAs(s, bytes);
  }

  lemma {:induction false} FlattenTwo(x: Byte, y: Byte)
    ensures Flatten([x, y]) == BitsOf(x, 8) + BitsOf(y, 8)
  {
    assert [x, y] == [x] + [y];
    FlattenConcat([x], [y]);
    FlattenOne(x);
    FlattenOne(y);
  }

  /** One value from 0: its residual is itself, and the stream is its codeword. */
  lemma {:induction false} SingleValue(x: int)
    ensures Encode(Deltas(0, [x])) == Codeword(x)
  {
    assert Deltas(0, [x]) == [x];
    EncodeOne(x);
  }

  lemma {:induction false} ByteBits00()
    ensures BitsOf(0x00, 8) == [0, 0, 0, 0, 0, 0, 0, 0]
  {
  }

  lemma {:induction false} ByteBits0C()
    ensures BitsOf(0x0c, 8) == [0, 0, 0, 0, 1, 1, 0, 0]
  {
  }

  lemma {:induction false} ByteBits38()
    ensures BitsOf(0x38, 8) == [0, 0, 1, 1, 1, 0, 0, 0]
  {
  }

  lemma {:induction false} ByteBits80()
    ensures BitsOf(0x80, 8) == [1, 0, 0, 0, 0, 0, 0, 0]
  {
  }

  lemma {:induction false} ByteBitsE0()
    ensures BitsOf(0xe0, 8) == [1, 1, 1, 0, 0, 0, 0, 0]
  {
  }

  lemma {:induction false} EncodedZero()
    ensures Encode(Deltas(0, [0])) == [1]
  {
    SingleValue(0);
  }

  lemma {:induction false} PaddedZero()
    ensures [1] + Zeros(PadLength(1)) == Flatten([0x80])
  {
    assert Zeros(7) == [0, 0, 0, 0, 0, 0, 0];
  }

  /** DeltaEncode(0, [0]) writes 0x80. */
  lemma {:induction false} VectorZero()
    ensures Pack(Encode(Deltas(0, [0]))) == [0x80]
  {
    EncodedZero();
    PaddedZero();
    VectorFrom([0], [1], [0x80]);
  }

  lemma {:induction false} EncodedOne()
    ensures Encode(Deltas(0, [1])) == [0, 1, 0, 0]
  {
    SingleValue(1);
    CodewordTable();
  }

  lemma {:induction false} PaddedOne()
    ensures [0, 1, 0, 0] + Zeros(PadLength(4)) == Flatten([0x40])
  {
    assert Zeros(4) == [0, 0, 0, 0];
  }

  /** DeltaEncode(0, [1]) writes 0x40. */
  lemma {:induction false} VectorOne()
    ensures Pack(Encode(Deltas(0, [1]))) == [0x40]
  {
    EncodedOne();
    PaddedOne();
    VectorFrom([1], [0, 1, 0, 0], [0x40]);
  }

  lemma {:induction false} EncodedTwo()
    ensures Encode(Deltas(0, [2])) == [0, 1, 1, 0]
  {
    SingleValue(2);
    CodewordTable();
  }

  lemma {:induction false} PaddedTwo()
    ensures [0, 1, 1, 0] + Zeros(PadLength(4)) == Flatten([0x60])
  {
    assert Zeros(4) == [0, 0, 0, 0];
  }

  /** DeltaEncode(0, [2]) writes 0x60. */
  lemma {:induction false} VectorTwo()
    ensures Pack(Encode(Deltas(0, [2]))) == [0x60]
  {
    EncodedTwo();
    PaddedTwo();
    VectorFrom([2], [0, 1, 1, 0], [0x60]);
  }

  lemma {:induction false} EncodedThree()
    ensures Encode(Deltas(0, [3])) == [0, 0, 1, 0, 0, 0]
  {
    SingleValue(3);
    CodewordTableLonger();
  }

  lemma {:induction false} PaddedThree()
    ensures [0, 0, 1, 0, 0, 0] + Zeros(PadLength(6)) == Flatten([0x20])
  {
    assert Zeros(2) == [0, 0];
  }

  /** DeltaEncode(0, [3]) writes 0x20. */
  lemma {:induction false} VectorThree()
    ensures Pack(Encode(Deltas(0, [3]))) == [0x20]
  {
    EncodedThree();
    PaddedThree();
    VectorFrom([3], [0, 0, 1, 0, 0, 0], [0x20]);
  }

  lemma {:induction false} EncodedSix()
    ensures Encode(Deltas(0, [6])) == [0, 0, 1, 1, 1, 0]
  {
    SingleValue(6);
    CodewordTableLonger();
  }

  lemma {:induction false} PaddedSix()
    ensures [0, 0, 1, 1, 1, 0] + Zeros(PadLength(6)) == Flatten([0x38])
  {
    assert Zeros(2) == [0, 0];
  }

  /** DeltaEncode(0, [6]) writes 0x38. */
  lemma {:induction false} VectorSix()
    ensures Pack(Encode(Deltas(0, [6]))) == [0x38]
  {
    EncodedSix();
    PaddedSix();
    VectorFrom([6], [0, 0, 1, 1, 1, 0], [0x38]);
  }

  lemma {:induction false} EncodedMinusSix()
    ensures Encode(Deltas(0, [-6])) == [0, 0, 1, 1, 1, 1]
  {
    SingleValue(-6);
    CodewordTableLonger();
  }

  lemma {:induction false} PaddedMinusSix()
    ensures [0, 0, 1, 1, 1, 1] + Zeros(PadLength(6)) == Flatten([0x3c])
  {
    assert Zeros(2) == [0, 0];
  }

  /** DeltaEncode(0, [-6]) writes 0x3c. */
  lemma {:induction false} VectorMinusSix()
    ensures Pack(Encode(Deltas(0, [-6]))) == [0x3c]
  {
    EncodedMinusSix();
    PaddedMinusSix();
    VectorFrom([-6], [0, 0, 1, 1, 1, 1], [0x3c]);
  }

  lemma {:induction false} EncodedZeroZero()
    ensures Encode(Deltas(0, [0, 0])) == [1, 1]
  {
    assert Deltas(0, [0, 0]) == [0] + [0];
    EncodeAppend([0], [0]);
    EncodeOne(0);
  }

  lemma {:induction false} PaddedZeroZero()
    ensures [1, 1] + Zeros(PadLength(2)) == Flatten([0xc0])
  {
    assert Zeros(6) == [0, 0, 0, 0, 0, 0];
  }

  /** DeltaEncode(0, [0, 0]) writes 0xc0. */
  lemma {:induction false} VectorZeroZero()
    ensures Pack(Encode(Deltas(0, [0, 0]))) == [0xc0]
  {
    EncodedZeroZero();
    PaddedZeroZero();
    VectorFrom([0, 0], [1, 1], [0xc0]);
  }

  lemma {:induction false} EncodedSixTwelve()
    ensures Encode(Deltas(0, [6, 12])) == [0, 0, 1, 1, 1, 0, 0, 0, 1, 1, 1, 0]
  {
    assert Deltas(0, [6, 12]) == [6] + [6];
    EncodeAppend([6], [6]);
    SingleValue(6);
    CodewordTableLonger();
  }

  lemma {:induction false} PaddedSixTwelve()
    ensures [0, 0, 1, 1, 1, 0, 0, 0, 1, 1, 1, 0] + Zeros(PadLength(12)) == Flatten([0x38, 0xe0])
  {
    assert Zeros(4) == [0, 0, 0, 0];
    FlattenTwo(0x38, 0xe0);
    ByteBits38();
    ByteBitsE0();
  }

  /** DeltaEncode(0, [6, 12]) writes 0x38 0xe0. */
  lemma {:induction false} VectorSixTwelve()
    ensures Pack(Encode(Deltas(0, [6, 12]))) == [0x38, 0xe0]
  {
    EncodedSixTwelve();
    PaddedSixTwelve();
    VectorFrom([6, 12], [0, 0, 1, 1, 1, 0, 0, 0, 1, 1, 1, 0], [0x38, 0xe0]);
  }

  lemma {:induction false} EncodedTwentyThree()
    ensures Encode(Deltas(0, [23])) == [0, 0, 0, 0, 1, 1, 0, 0, 0, 0]
  {
    SingleValue(23);
    assert BitLength(24) == 5;
    assert Zeros(4) == [0, 0, 0, 0];
    assert BitsOf(24, 5) == [1, 1, 0, 0, 0];
  }

  lemma {:induction false} PaddedTwentyThree()
    ensures [0, 0, 0, 0, 1, 1, 0, 0, 0, 0] + Zeros(PadLength(10)) == Flatten([0x0c, 0x00])
  {
    assert Zeros(6) == [0, 0, 0, 0, 0, 0];
    FlattenTwo(0x0c, 0x00);
    ByteBits0C();
    ByteBits00();
  }

  /** DeltaEncode(0, [23]) writes 0x0c 0x00. */
  lemma {:induction false} VectorTwentyThree()
    ensures Pack(Encode(Deltas(0, [23]))) == [0x0c, 0x00]
  {
    EncodedTwentyThree();
    PaddedTwentyThree();
    VectorFrom([23], [0, 0, 0, 0, 1, 1, 0, 0, 0, 0], [0x0c, 0x00]);
  }

  lemma {:induction false} EncodedTwentyFour()
    ensures Encode(Deltas(0, [24])) == [0, 0, 0, 0, 1, 1, 0, 0, 1, 0]
  {
    SingleValue(24);
    assert BitLength(25) == 5;
    assert Zeros(4) == [0, 0, 0, 0];
    assert BitsOf(25, 5) == [1, 1, 0, 0, 1];
  }

  lemma {:induction false} PaddedTwentyFour()
    ensures [0, 0, 0, 0, 1, 1, 0, 0, 1, 0] + Zeros(PadLength(10)) == Flatten([0x0c, 0x80])
  {
    assert Zeros(6) == [0, 0, 0, 0, 0, 0];
    FlattenTwo(0x0c, 0x80);
    ByteBits0C();
    ByteBits80();
  }

  /** DeltaEncode(0, [24]) writes 0x0c 0x80. */
  lemma {:induction false} VectorTwentyFour()
    ensures Pack(Encode(Deltas(0, [24]))) == [0x0c, 0x80]
  {
    EncodedTwentyFour();
    PaddedTwentyFour();
    VectorFrom([24], [0, 0, 0, 0, 1, 1, 0, 0, 1, 0], [0x0c, 0x80]);
  }

  /** The middle sixteen bits of the codeword of 65537: the leading 1 of the
      magnitude, fourteen zeros, and the 1 of its low digits. */
  function LargeMiddle(): seq<Bit>
  {
    [1] + Zeros(14) + [1]
  }

  lemma {:induction false} Pow2Sixteen()
    ensures Pow2(16) == 65536
  {
    Pow2Byte();
    Pow2Add(8, 8);
  }

  /** 65537 + 1 = 2^16 + 2 has 17 binary digits. */
  lemma {:induction false} LargeBitLength()
    ensures BitLength(65538) == 17 && 65538 / Pow2(16) == 1
  {
    Pow2Sixteen();
    DivModUnique(65538, Pow2(16), 1, 2);
    BitLengthShift(65538, 16);
    assert BitLength(1) == 1;
  }

  /** Its low sixteen digits are those of 2. */
  lemma {:induction false} LargeLowBits()
    ensures BitsOf(65538, 16) == Zeros(14) + [1, 0]
  {
    Pow2Sixteen();
    assert 65538 % Pow2(16) == 2;
    BitsMod(65538, 16);
    BitsSplit(2, 14, 2);
    assert 2 / Pow2(2) == 0;
    ZerosAreBits(14);
  }

  /** The codeword of 65537: 16 zeros, a 1, the 16 digits of 2 and the sign 0. */
  lemma {:induction false} CodewordLarge()
    ensures Codeword(65537) == Zeros(16) + LargeMiddle() + [0, 0]
  {
    LargeBitLength();
    LargeLowBits();
    BitsSplit(65538, 1, 16);
    assert BitsOf(1, 1) == [1];
    LargeTail();
  }

  lemma {:induction false} LargeTail()
    ensures Zeros(16) + ([1] + (Zeros(14) + [1, 0])) + [0] == Zeros(16) + LargeMiddle() + [0, 0]
  {
    assert [1] + (Zeros(14) + [1, 0]) + [0] == LargeMiddle() + [0, 0];
  }

  lemma {:induction false} FlattenCons(x: Byte, rest: seq<Byte>)
    ensures Flatten([x] + rest) == BitsOf(x, 8) + Flatten(rest)
  {
    assert ([x] + rest)[1..] == rest;
  }

  lemma {:induction false} FlattenFive(a: Byte, b: Byte, c: Byte, d: Byte, e: Byte)
    ensures Flatten([a, b, c, d, e])
         == BitsOf(a, 8) + (BitsOf(b, 8) + (BitsOf(c, 8) + (BitsOf(d, 8) + BitsOf(e, 8))))
  {
    assert [a, b, c, d, e] == [a] + ([b] + ([c] + ([d] + [e])));
    FlattenCons(a, [b] + ([c] + ([d] + [e])));
    FlattenCons(b, [c] + ([d] + [e]));
    FlattenCons(c, [d] + [e]);
    FlattenCons(d, [e]);
    FlattenOne(e);
  }

  lemma {:induction false} ByteHigh()
    ensures BitsOf(0x80, 8) == [1] + Zeros(7)
  {
    ZerosAreBits(7);
    assert BitsOf(0x80, 8) == BitsOf(1, 1) + BitsOf(0, 7) by {
      BitsSplit(0x80, 1, 7);
      assert Pow2(7) == 0x80;
      BitsMod(0x80, 7);
    }
  }

  lemma {:induction false} ByteLow()
    ensures BitsOf(0x01, 8) == Zeros(7) + [1]
  {
    ZerosAreBits(7);
  }

  lemma {:induction false} MiddleJoin(hi: seq<Bit>, lo: seq<Bit>)
    requires hi == [1] + Zeros(7) && lo == Zeros(7) + [1]
    ensures hi + lo == LargeMiddle()
  {
    ZerosAppend(7, 7);
    AppendAssoc([1] + Zeros(7), Zeros(7), [1]);
    AppendAssoc([1], Zeros(7), Zeros(7));
  }

  lemma {:induction false} LargeJoin(z: seq<Bit>, hi: seq<Bit>, lo: seq<Bit>)
    requires z == Zeros(8) && hi + lo == LargeMiddle()
    ensures Zeros(16) + LargeMiddle() + [0, 0] + Zeros(6) == z + (z + (hi + (lo + z)))
  {
    ZerosAppend(8, 8);
    assert [0, 0] + Zeros(6) == z;
    AppendAssoc(Zeros(16) + LargeMiddle(), [0, 0], Zeros(6));
    AppendAssoc(Zeros(16), LargeMiddle(), z);
    AppendAssoc(hi, lo, z);
    AppendAssoc(z, z, hi + (lo + z));
  }

  lemma {:induction false} EncodedLarge()
    ensures Encode(Deltas(0, [65537])) == Zeros(16) + LargeMiddle() + [0, 0]
  {
    SingleValue(65537);
    CodewordLarge();
  }

  lemma {:induction false} PaddedLarge()
    ensures Zeros(16) + LargeMiddle() + [0, 0] + Zeros(PadLength(34)) == Flatten([0x00, 0x00, 0x80, 0x01, 0x00])
  {
    PaddedFive(0x00, 0x80, 0x01);
  }

  lemma {:induction false} PaddedFive(z: Byte, h: Byte, l: Byte)
    requires z == 0x00 && h == 0x80 && l == 0x01
    ensures Zeros(16) + LargeMiddle() + [0, 0] + Zeros(PadLength(34)) == Flatten([z, z, h, l, z])
  {
    FlattenFive(z, z, h, l, z);
    ZerosAreBits(8);
    ByteHigh();
    ByteLow();
    MiddleJoin(BitsOf(h, 8), BitsOf(l, 8));
    assert PadLength(34) == 6;
    LargeJoin(BitsOf(z, 8), BitsOf(h, 8), BitsOf(l, 8));
  }

  /** DeltaEncode(0, [65537]) writes 0x00 0x00 0x80 0x01 0x00. */
  lemma {:induction false} VectorLarge()
    ensures Pack(Encode(Deltas(0, [65537]))) == [0x00, 0x00, 0x80, 0x01, 0x00]
  {
    EncodedLarge();
    PaddedLarge();
    assert |Zeros(16) + LargeMiddle() + [0, 0]| == 34;
    VectorFrom([65537], Zeros(16) + LargeMiddle() + [0, 0], [0x00, 0x00, 0x80, 0x01, 0x00]);
  }
}
