/** The streaming exp-Golomb encoder: a partial byte filled from the most
    significant bit down, and the bytes written to the output so far. */
module Encoder {
  import opened Arith
  import opened BitSeq
  import opened GolombCode

  /** bitLen: whole bytes first, then single bits. */
  method BitLen(x0: nat) returns (n: nat)
    ensures n == BitLength(x0)
  {
    var x := x0;
    n := 0;
    Pow2Byte();
    while x >= 0x100
      invariant n + BitLength(x) == BitLength(x0)
      decreases x
    {
      BitLengthShift(x, 8);
      x := x / 0x100;
      n := n + 8;
    }
    while x > 0
      invariant n + BitLength(x) == BitLength(x0)
      decreases x
    {
      x := x / 2;
      n := n + 1;
    }
  }

  /** A well-formed accumulator byte: at most 8 bits in use, the bits below them clear. */
  predicate Accumulator(data: int, bitpos: nat)
  {
    bitpos <= 8 && data % Pow2(8 - bitpos) == 0
  }

  /** The `bitpos` bits in use at the top of the accumulator byte. */
  function PendingBits(data: int, bitpos: nat): (r: seq<Bit>)
    requires bitpos <= 8
    ensures |r| == bitpos
  {
    BitsOf(data / Pow2(8 - bitpos), bitpos)
  }

  class ExpGolombEncoder {
    /** The byte being filled; its top `bitpos` bits are in use. */
    var data: Byte
    /** Bits of `data` in use; 8 means full but not yet written. */
    var bitpos: nat
    /** The bytes handed to the underlying writer so far. */
    var out: seq<Byte>
    /** Everything encoded so far: the written bytes, then the pending bits. */
    ghost var stream: seq<Bit>

    ghost predicate Valid()
      reads this
    {
      && Accumulator(data, bitpos)
      && stream == Flatten(out) + PendingBits(data, bitpos)
    }

    constructor ()
      ensures Valid() && out == [] && data == 0 && bitpos == 0
      ensures stream == []
    {
      data, bitpos, out := 0, 0, [];
      stream := [];
    }

    /** Encodes every value of the list, in order. */
    method Write(ilist: seq<int>)
      requires Valid() && AllInRange(ilist)
      modifies this
      ensures Valid() && stream == old(stream) + Encode(ilist)
      ensures old(out) <= out
    {
      for i := 0 to |ilist|
        invariant Valid() && stream == old(stream) + Encode(ilist[..i])
        invariant old(out) <= out
      {
        ghost var written := out;
        Add(ilist[i]);
        PrefixTrans(old(out), written, out);
        AppendAssoc(old(stream), Encode(ilist[..i]), Codeword(ilist[i]));
        EncodePrefix(ilist, i);
      }
      assert ilist[..|ilist|] == ilist;
    }

    /** Encodes one value. */
    method WriteInt(i: int)
      requires Valid() && InRange(i)
      modifies this
      ensures Valid() && stream == old(stream) + Codeword(i)
      ensures old(out) <= out
    {
      Add(i);
    }

    /** Writes the partial byte, if any bit of it is in use, and resets the accumulator.
        The output is then the packing of everything encoded, zero-padded to a byte. */
    method Close()
      requires Valid()
      modifies this
      ensures Valid() && data == 0 && bitpos == 0
      ensures out == old(out) + (if old(bitpos) != 0 then [old(data)] else [])
      ensures out == Pack(old(stream)) && stream == Flatten(out)
    {
      ghost var out0, s0 := out, stream;
      if bitpos != 0 {
        out := out + [data];
      }
      CloseState(out0, data, bitpos, s0, out);
      data := 0;
      bitpos := 0;
      stream := Flatten(out);
    }

    /** Appends the codeword of `item`: constant patterns for 0, 1 and -1, otherwise
        the zero prefix followed by |item| + 1 and the sign bit. */
    method Add(item: int)
      requires Valid() && InRange(item)
      modifies this
      ensures Valid() && stream == old(stream) + Codeword(item)
      ensures old(out) <= out
    {
      if item == 0 {
        FastPath(item, 1, 1);
        AddBits(1, 1);
        return;
      } else if item == 1 {
        FastPath(item, 0x4, 4);
        AddBits(0x4, 4);
        return;
      } else if item == -1 {
        FastPath(item, 0x5, 4);
        AddBits(0x5, 4);
        return;
      }
      var sign: Bit := 0;
      var mag := item;
      if item < 0 {
        sign := 1;
        mag := -item;
      }
      var uitem: nat := mag + 1;
      var len := BitLen(uitem);
      var nbits: nat := len - 1;
      AddZeroBits(nbits);
      ghost var u, zeroed, written := uitem, stream, out;
      uitem := 2 * uitem + sign;
      ShiftedBound(u, sign, nbits, uitem);
      AddBits(uitem, nbits + 2);
      CodewordStream(old(stream), zeroed, stream, item, u, sign, nbits, uitem);
      PrefixTrans(old(out), written, out);
    }

    /** Appends the low `nbits` bits of `bits`, most significant first. If the bits
        reach the end of the current byte, even exactly, that byte is written; whole
        middle bytes follow, and the last bits start a fresh byte. If they fill that
        fresh byte exactly, it is held with bitpos == 8 until the next call or Close
        writes it. */
    method AddBits(bits: nat, nbits: nat)
      requires Valid() && bits < Pow2(nbits)
      modifies this
      ensures Valid() && stream == old(stream) + BitsOf(bits, nbits)
      ensures old(out) <= out
    {
      ghost var start := stream;
      stream := stream + BitsOf(bits, nbits);
      var bitsleft: nat := 8 - bitpos;
      if nbits < bitsleft {
        FillPartialStream(Flatten(out), data, bitpos, bitsleft, bits, nbits);
        data := BitOr(data, (bits % 0x100) * Pow2(bitsleft - nbits) % 0x100);
        bitpos := bitpos + nbits;
        return;
      }
      var n: nat := nbits - bitsleft;
      FillByteStream(out, start, data, bitpos, bits, nbits, n);
      data := BitOr(data, bits / Pow2(n) % 0x100);
      AddTail(bits, nbits, n, start);
    }

    /** The rest of AddBits once the current byte is full: it is written, then a whole
        byte while more than 8 of the nbits bits remain, then the last n start a fresh byte. */
    method AddTail(bits: nat, nbits: nat, n0: nat, ghost start: seq<Bit>)
      requires n0 <= nbits && Flatten(out + [data]) == start + TopBits(bits, nbits, n0)
      requires stream == start + BitsOf(bits, nbits)
      modifies this`data, this`bitpos, this`out
      ensures Valid() && old(out) <= out
    {
      PrefixAppend(out, out, [data]);
      out := out + [data];
      var n: nat := n0;
      while n > 8
        invariant n <= nbits
        invariant Flatten(out) == start + TopBits(bits, nbits, n)
        invariant old(out) <= out
      {
        ChunkStream(out, start, bits, nbits, n);
        data := Chunk(bits, n);
        PrefixAppend(old(out), out, [data]);
        out := out + [data];
        n := n - 8;
      }
      TailStream(out, start, bits, nbits, n);
      data := bits * Pow2(8 - n) % 0x100;
      bitpos := n;
    }

    /** Appends `nzeros` zero bits: what fits in the current byte, then whole zero
        bytes, then the start of a fresh byte. The accumulator is never left full. */
    method AddZeroBits(nzeros: nat)
      requires Valid()
      modifies this
      ensures Valid() && stream == old(stream) + Zeros(nzeros)
      ensures bitpos < 8
      ensures old(out) <= out
    {
      ghost var start := stream;
      stream := stream + Zeros(nzeros);
      if nzeros < 8 - bitpos {
        ZeroFillPartialStream(Flatten(out), data, bitpos, nzeros);
        bitpos := bitpos + nzeros;
        return;
      }
      var n: nat := nzeros - (8 - bitpos);
      ZeroFillByteStream(out, start, data, bitpos, nzeros, n);
      PrefixAppend(out, out, [data]);
      out := out + [data];
      data := 0;
      bitpos := 0;
      while n >= 8
        invariant n <= nzeros && data == 0 && bitpos == 0
        invariant Flatten(out) == start + Zeros(nzeros - n)
        invariant stream == start + Zeros(nzeros)
        invariant old(out) <= out
      {
        ZeroByteStream(out, start, nzeros, n);
        PrefixAppend(old(out), out, [0]);
        out := out + [0];
        n := n - 8;
      }
      ZeroTailStream(out, start, nzeros, n);
      bitpos := n;
    }
  }

  /** What Close leaves: the packing of the stream, and an empty accumulator. */
  lemma {:induction false} CloseState(out0: seq<Byte>, data: Byte, bitpos: nat, s0: seq<Bit>, out: seq<Byte>)
    requires Accumulator(data, bitpos) && s0 == Flatten(out0) + PendingBits(data, bitpos)
    requires out == out0 + (if bitpos != 0 then [data] else [])
    ensures out == Pack(s0)
    ensures Accumulator(0, 0) && Flatten(out) + PendingBits(0, 0) == Flatten(out)
  {
    CloseBytes(out0, data, bitpos);
    assert PendingBits(0, 0) == [];
  }

  /** Packing what the encoder holds gives the written bytes, then the partial byte if any bit of it is in use. */
  lemma {:induction false} CloseBytes(out: seq<Byte>, data: Byte, bitpos: nat)
    requires Accumulator(data, bitpos)
    ensures Pack(Flatten(out) + PendingBits(data, bitpos)) == out + (if bitpos != 0 then [data] else [])
  {
    var p := PendingBits(data, bitpos);
    PackFlatten(out, p);
    if bitpos != 0 {
      PackPending(data, bitpos);
    } else {
      assert Pack(p) == [];
    }
  }

  /** The stream after the zero prefix and the shifted magnitude of a nonzero value. */
  lemma {:induction false} CodewordStream(s0: seq<Bit>, s1: seq<Bit>, s2: seq<Bit>, x: int, u: nat, sign: Bit, n: nat, w: nat)
    requires x != 0 && u == Abs(x) + 1 && sign == (if x < 0 then 1 else 0)
    requires n + 1 == BitLength(u) && w == 2 * u + sign
    requires s1 == s0 + Zeros(n) && s2 == s1 + BitsOf(w, n + 2)
    ensures s2 == s0 + Codeword(x)
  {
    CodewordAsShift(x, u, sign, n, w);
    AppendAssoc(s0, Zeros(n), BitsOf(w, n + 2));
  }

  /** (u << 1) | sign fits in one bit more than u does. */
  lemma {:induction false} ShiftedBound(u: nat, sign: Bit, n: nat, w: nat)
    requires n + 1 == BitLength(u) && w == 2 * u + sign
    ensures w < Pow2(n + 2)
  {
    BitLengthBounds(u);
    ShiftInBit(u, sign, w, n + 1);
  }

  /** The stream after a partial fill: written bits, then the grown pending bits. */
  lemma {:induction false} FillPartialStream(w: seq<Bit>, data: Byte, bitpos: nat, bitsleft: nat, bits: nat, nbits: nat)
    requires Accumulator(data, bitpos) && bitsleft == 8 - bitpos && nbits < bitsleft && bits < Pow2(nbits)
    ensures var d := BitOr(data, (bits % 0x100) * Pow2(bitsleft - nbits) % 0x100);
      && d < 0x100
      && Accumulator(d, bitpos + nbits)
      && w + PendingBits(d, bitpos + nbits) == w + PendingBits(data, bitpos) + BitsOf(bits, nbits)
  {
    FillPartial(data, bitpos, bits, nbits);
    AppendAssoc(w, PendingBits(data, bitpos), BitsOf(bits, nbits));
  }

  /** The stream after the first byte is completed and written. */
  lemma {:induction false} FillByteStream(out: seq<Byte>, start: seq<Bit>, data: Byte, bitpos: nat, bits: nat, nbits: nat, n: nat)
    requires Accumulator(data, bitpos) && n == nbits - (8 - bitpos) && bits < Pow2(nbits)
    requires start == Flatten(out) + PendingBits(data, bitpos)
    ensures BitOr(data, bits / Pow2(n) % 0x100) < 0x100
    ensures Flatten(out + [BitOr(data, bits / Pow2(n) % 0x100)]) == start + TopBits(bits, nbits, n)
  {
    var d := BitOr(data, bits / Pow2(n) % 0x100);
    var p, t := PendingBits(data, bitpos), TopBits(bits, nbits, n);
    FillByte(data, bitpos, bits, nbits);
    assert t == BitsOf(bits / Pow2(n), 8 - bitpos);
    AppendByteStream(out, start, d, p, t);
  }

  /** Writing a byte whose bits are p + t, when the stream so far ends in p. */
  lemma {:induction false} AppendByteStream(out: seq<Byte>, start: seq<Bit>, d: Byte, p: seq<Bit>, t: seq<Bit>)
    requires start == Flatten(out) + p && BitsOf(d, 8) == p + t
    ensures Flatten(out + [d]) == start + t
  {
    FlattenAppend(out, d);
    AppendAssoc(Flatten(out), p, t);
  }

  /** The stream after one whole middle byte is written. */
  lemma {:induction false} ChunkStream(out: seq<Byte>, start: seq<Bit>, bits: nat, nbits: nat, n: nat)
    requires 8 < n <= nbits && Flatten(out) == start + TopBits(bits, nbits, n)
    ensures Flatten(out + [Chunk(bits, n)]) == start + TopBits(bits, nbits, n - 8)
  {
    ChunkStep(bits, nbits, n);
    FlattenAppend(out, Chunk(bits, n));
    AppendAssoc(start, TopBits(bits, nbits, n), BitsOf(Chunk(bits, n), 8));
  }

  /** The stream once the last n bits start a fresh byte. */
  lemma {:induction false} TailStream(out: seq<Byte>, start: seq<Bit>, bits: nat, nbits: nat, n: nat)
    requires n <= 8 && n <= nbits && Flatten(out) == start + TopBits(bits, nbits, n)
    ensures var d := bits * Pow2(8 - n) % 0x100;
      Accumulator(d, n) && Flatten(out) + PendingBits(d, n) == start + BitsOf(bits, nbits)
  {
    FillTail(bits, n);
    TailStep(bits, nbits, n);
    AppendAssoc(start, TopBits(bits, nbits, n), BitsOf(bits, n));
  }

  /** The stream after zeros that fit in the current byte. */
  lemma {:induction false} ZeroFillPartialStream(w: seq<Bit>, data: Byte, bitpos: nat, z: nat)
    requires Accumulator(data, bitpos) && bitpos + z < 8
    ensures Accumulator(data, bitpos + z)
    ensures w + PendingBits(data, bitpos + z) == w + PendingBits(data, bitpos) + Zeros(z)
  {
    ZeroFillPartial(data, bitpos, z);
    AppendAssoc(w, PendingBits(data, bitpos), Zeros(z));
  }

  /** The stream after the current byte is completed with zeros and written. */
  lemma {:induction false} ZeroFillByteStream(out: seq<Byte>, start: seq<Bit>, data: Byte, bitpos: nat, nzeros: nat, n: nat)
    requires Accumulator(data, bitpos) && n == nzeros - (8 - bitpos)
    requires start == Flatten(out) + PendingBits(data, bitpos)
    ensures Flatten(out + [data]) == start + Zeros(nzeros - n)
  {
    ZeroFillByte(data, bitpos);
    FlattenAppend(out, data);
    AppendAssoc(Flatten(out), PendingBits(data, bitpos), Zeros(8 - bitpos));
  }

  /** The stream after one whole zero byte is written. */
  lemma {:induction false} ZeroByteStream(out: seq<Byte>, start: seq<Bit>, nzeros: nat, n: nat)
    requires 8 <= n <= nzeros && Flatten(out) == start + Zeros(nzeros - n)
    ensures Flatten(out + [0]) == start + Zeros(nzeros - (n - 8))
  {
    var done := nzeros - n;
    FlattenAppend(out, 0);
    ZerosAreBits(8);
    AppendAssoc(start, Zeros(done), Zeros(8));
    ZerosAppend(done, 8);
  }

  /** The stream once the last n < 8 zeros start a fresh byte. */
  lemma {:induction false} ZeroTailStream(out: seq<Byte>, start: seq<Bit>, nzeros: nat, n: nat)
    requires n < 8 && n <= nzeros && Flatten(out) == start + Zeros(nzeros - n)
    ensures Accumulator(0, n) && Flatten(out) + PendingBits(0, n) == start + Zeros(nzeros)
  {
    ZeroPending(n);
    AppendAssoc(start, Zeros(nzeros - n), Zeros(n));
    ZerosAppend(nzeros - n, n);
  }

  /** Adding fewer bits than the byte has room for: `data |= byte(bits) << (bitsleft - nbits)`. */
  lemma {:induction false} FillPartial(data: Byte, bitpos: nat, bits: nat, nbits: nat)
    requires Accumulator(data, bitpos) && bitpos + nbits < 8 && bits < Pow2(nbits)
    ensures var d := BitOr(data, (bits % 0x100) * Pow2(8 - bitpos - nbits) % 0x100);
      && d < 0x100
      && Accumulator(d, bitpos + nbits)
      && PendingBits(d, bitpos + nbits) == PendingBits(data, bitpos) + BitsOf(bits, nbits)
  {
    var h := data / Pow2(8 - bitpos);
    var d := BitOr(data, (bits % 0x100) * Pow2(8 - bitpos - nbits) % 0x100);
    FillPartialParts(data, bitpos, bits, nbits);
    PendingOfParts(d, h, bitpos, bits, nbits);
  }

  /** The filled byte, seen through the shift below the new bits: the old top bits, then `bits`. */
  lemma {:induction false} FillPartialParts(data: Byte, bitpos: nat, bits: nat, nbits: nat)
    requires Accumulator(data, bitpos) && bitpos + nbits < 8 && bits < Pow2(nbits)
    ensures var bk := Pow2(8 - bitpos - nbits);
      var h := data / Pow2(8 - bitpos);
      var d := BitOr(data, (bits % 0x100) * bk % 0x100);
      h >= 0 && d < 0x100 && d / bk == h * Pow2(nbits) + bits && d % bk == 0
  {
    var bk, p := Pow2(8 - bitpos - nbits), Pow2(nbits);
    var h := data / Pow2(8 - bitpos);
    var d := BitOr(data, (bits % 0x100) * bk % 0x100);
    DivMod(data, Pow2(8 - bitpos));
    FillPartialValue(data, bitpos, bits, nbits);
    assert d == h * (p * bk) + bits * bk;
    ShiftIn(d, h, p, bk, bits);
  }

  /** A byte holding h in its top bitpos bits and then bits in the next nbits. */
  lemma {:induction false} PendingOfParts(d: int, h: nat, bitpos: nat, bits: nat, nbits: nat)
    requires bitpos + nbits <= 8 && bits < Pow2(nbits)
    requires d / Pow2(8 - bitpos - nbits) == h * Pow2(nbits) + bits
    requires d % Pow2(8 - bitpos - nbits) == 0
    ensures Accumulator(d, bitpos + nbits)
    ensures PendingBits(d, bitpos + nbits) == BitsOf(h, bitpos) + BitsOf(bits, nbits)
  {
    BitsConcat(h, bits, bitpos, nbits);
  }

  /** Zero bits that fit in the current byte only advance `bitpos`. */
  lemma {:induction false} ZeroFillPartial(data: Byte, bitpos: nat, z: nat)
    requires Accumulator(data, bitpos) && bitpos + z < 8
    ensures Accumulator(data, bitpos + z)
    ensures PendingBits(data, bitpos + z) == PendingBits(data, bitpos) + Zeros(z)
  {
    FillPartial(data, bitpos, 0, z);
    assert BitOr(data, (0 % 0x100) * Pow2(8 - bitpos - z) % 0x100) == data;
    ZerosAreBits(z);
  }

  /** Completing the byte with the top bits of `bits`: `data |= byte(bits >> (nbits - bitsleft))`. */
  lemma {:induction false} FillByte(data: Byte, bitpos: nat, bits: nat, nbits: nat)
    requires Accumulator(data, bitpos) && 8 - bitpos <= nbits && bits < Pow2(nbits)
    ensures var n := nbits - (8 - bitpos);
      var d := BitOr(data, bits / Pow2(n) % 0x100);
      && d < 0x100
      && BitsOf(d, 8) == PendingBits(data, bitpos) + BitsOf(bits / Pow2(n), 8 - bitpos)
  {
    var bl := 8 - bitpos;
    var n := nbits - bl;
    var b := Pow2(bl);
    var top := bits / Pow2(n);
    var h := data / b;
    DivMod(bits, Pow2(n));
    DivMod(data, b);
    assert top < b by {
      Pow2Add(bl, n);
      DivLess(bits, b, Pow2(n));
    }
    var d := BitOr(data, top % 0x100);
    assert d == h * b + top && d < 0x100 by {
      OrIntoByte(data, bitpos, top);
      RoomInByte(data, bitpos);
    }
    assert BitsOf(d, 8) == BitsOf(h, bitpos) + BitsOf(top, bl) by {
      BitsConcat(h, top, bitpos, bl);
    }
  }

  /** The current byte completed with zeros is the byte itself. */
  lemma {:induction false} ZeroFillByte(data: Byte, bitpos: nat)
    requires Accumulator(data, bitpos)
    ensures BitsOf(data, 8) == PendingBits(data, bitpos) + Zeros(8 - bitpos)
  {
    var k := 8 - bitpos;
    assert BitsOf(data, bitpos + k) == PendingBits(data, bitpos) + BitsOf(data, k) by {
      BitsSplit(data, bitpos, k);
    }
    assert BitsOf(data, k) == Zeros(k) by {
      BitsMod(data, k);
      ZerosAreBits(k);
    }
  }

  /** The top nbits - n of the nbits bits of `bits`: those already written. */
  function TopBits(bits: nat, nbits: nat, n: nat): (r: seq<Bit>)
    requires n <= nbits
    ensures |r| == nbits - n
  {
    BitsOf(bits / Pow2(n), nbits - n)
  }

  /** One whole middle byte: `byte((bits >> (n - 8)) & 0xff)`. */
  function Chunk(bits: nat, n: nat): Byte
    requires n >= 8
  {
    DivMod(bits, Pow2(n - 8));
    bits / Pow2(n - 8) % 0x100
  }

  /** The byte written while n bits remain extends what was written by its 8 bits. */
  lemma {:induction false} ChunkStep(bits: nat, nbits: nat, n: nat)
    requires 8 < n <= nbits
    ensures TopBits(bits, nbits, n) + BitsOf(Chunk(bits, n), 8) == TopBits(bits, nbits, n - 8)
  {
    var w := bits / Pow2(n - 8);
    DivMod(bits, Pow2(n - 8));
    assert w / Pow2(8) == bits / Pow2(n) by {
      DivDiv(bits, Pow2(n - 8), Pow2(8));
      Pow2Add(n - 8, 8);
    }
    assert BitsOf(w % 0x100, 8) == BitsOf(w, 8) by {
      Pow2Byte();
      BitsMod(w, 8);
    }
    BitsSplit(w, nbits - n, 8);
  }

  /** With the last n bits added, all nbits bits are out. */
  lemma {:induction false} TailStep(bits: nat, nbits: nat, n: nat)
    requires n <= nbits
    ensures TopBits(bits, nbits, n) + BitsOf(bits, n) == BitsOf(bits, nbits)
  {
    BitsSplit(bits, nbits - n, n);
  }

  /** The last n <= 8 bits start a new byte: `byte((bits << (8 - n)) & 0xff)`. */
  lemma {:induction false} FillTail(bits: nat, n: nat)
    requires n <= 8
    ensures var d := bits * Pow2(8 - n) % 0x100;
      Accumulator(d, n) && PendingBits(d, n) == BitsOf(bits, n)
  {
    var p, q := Pow2(8 - n), Pow2(n);
    var d := bits * p % 0x100;
    assert d == p * (bits % q) && d / p == bits % q by {
      Pow2Add(8 - n, n);
      Pow2Byte();
      MulMod(bits, p, q);
    }
    assert d % p == 0 by {
      DivModUnique(d, p, bits % q, 0);
    }
    BitsMod(bits, n);
  }

  /** A clear accumulator holds only zero bits. */
  lemma {:induction false} ZeroPending(n: nat)
    requires n <= 8
    ensures Accumulator(0, n) && PendingBits(0, n) == Zeros(n)
  {
    ZerosAreBits(n);
  }

  /** A partly used accumulator, packed on its own, is its byte. */
  lemma {:induction false} PackPending(data: Byte, bitpos: nat)
    requires Accumulator(data, bitpos) && bitpos > 0
    ensures Pack(PendingBits(data, bitpos)) == [data]
  {
    var k := 8 - bitpos;
    var h := data / Pow2(k);
    DivMod(data, Pow2(k));
    assert BitsOf(h, bitpos) + Zeros(k) == BitsOf(data, 8) by {
      RoomInByte(data, bitpos);
      assert data == h * Pow2(k) + 0;
      BitsConcat(h, 0, bitpos, k);
      ZerosAreBits(k);
    }
    PackOneByte(BitsOf(h, bitpos), data);
  }

  /** The accumulator's bits below the pending ones are clear, so the byte has room
      for 2^(8 - bitpos) more values. */
  lemma {:induction false} RoomInByte(data: Byte, bitpos: nat)
    requires bitpos <= 8 && data % Pow2(8 - bitpos) == 0
    ensures data == (data / Pow2(8 - bitpos)) * Pow2(8 - bitpos)
    ensures data + Pow2(8 - bitpos) <= 0x100
  {
    var b, c := Pow2(8 - bitpos), Pow2(bitpos);
    var h := data / b;
    assert data == h * b by {
      DivMod(data, b);
    }
    assert c * b == 0x100 by {
      Pow2Add(bitpos, 8 - bitpos);
      Pow2Byte();
    }
    assert h < c by {
      DivLess(data, c, b);
    }
    assert data + b <= c * b by {
      MulMono(h + 1, c, b);
      MulAddAssoc(h, 1, 1, b);
    }
  }

  /** OR-ing a value below the free low part of the byte into it is addition. */
  lemma {:induction false} OrIntoByte(data: Byte, bitpos: nat, l: nat)
    requires bitpos <= 8 && data % Pow2(8 - bitpos) == 0 && l < Pow2(8 - bitpos)
    ensures l % 0x100 == l
    ensures BitOr(data, l) == data + l < 0x100
  {
    RoomInByte(data, bitpos);
    DivModUnique(l, 0x100, 0, l);
    BitOrDisjoint(data / Pow2(8 - bitpos), 8 - bitpos, l);
  }

  /** Dividing (h * p + bits) * bk by bk leaves no remainder. */
  lemma {:induction false} ShiftIn(d: int, h: nat, p: nat, bk: nat, bits: nat)
    requires bk > 0 && d == h * (p * bk) + bits * bk
    ensures d / bk == h * p + bits && d % bk == 0
  {
    MulAddAssoc(h, p, bits, bk);
    DivModUnique(d, bk, h * p + bits, 0);
  }

  lemma {:induction false} FillPartialValue(data: Byte, bitpos: nat, bits: nat, nbits: nat)
    requires bitpos + nbits < 8 && data % Pow2(8 - bitpos) == 0 && bits < Pow2(nbits)
    ensures var bk := Pow2(8 - bitpos - nbits);
      && BitOr(data, (bits % 0x100) * bk % 0x100) == data + bits * bk < 0x100
      && Pow2(8 - bitpos) == Pow2(nbits) * bk
      && data == (data / Pow2(8 - bitpos)) * Pow2(8 - bitpos)
  {
    var k := 8 - bitpos - nbits;
    var bk, p, b := Pow2(k), Pow2(nbits), Pow2(8 - bitpos);
    Pow2Add(nbits, k);
    Pow2Monotone(nbits, 8);
    Pow2Byte();
    DivModUnique(bits, 0x100, 0, bits);
    MulLess(bits, p, bk);
    OrIntoByte(data, bitpos, bits * bk);
    RoomInByte(data, bitpos);
  }
}
