/** The streaming exp-Golomb decoder: bytes are taken from the source one at a
    time and their bits fed, most significant first, to the decoding state
    machine of DecodeSpec. */
module Decoder {
  import opened Arith
  import opened BitSeq
  import opened DecodeSpec

  class ExpGolombDecoder {
    /** The byte source; the bytes before `pos` have been taken. */
    var src: seq<Byte>
    var pos: nat
    /** The byte being consumed; its low `nBits` bits are still unread. */
    var b: Byte
    var nBits: nat
    /** The registers of the state machine. */
    var state: State
    var val: int
    var zeros: int
    /** The source as a bit stream, most significant bit of each byte first. */
    ghost var bits: seq<Bit>

    /** Bit i of the stream is bit i of the source, and the unread bits of the
        current byte are the nBits bits before the end of the bytes taken. */
    ghost predicate Valid()
      reads this`pos, this`src, this`nBits, this`b, this`bits
    {
      && pos <= |src| && nBits <= 8 && (nBits > 0 ==> 0 < pos)
      && |bits| == 8 * |src|
      && (forall i {:trigger SrcBit(src, i)} :: 0 <= i < |bits| ==> bits[i] == SrcBit(src, i))
      && (forall k {:trigger TestBit(b, k)} :: 0 <= k < nBits ==> bits[8 * pos - 1 - k] == TestBit(b, k))
    }

    /** The machine the registers hold. */
    ghost function Machine(): Fsm
      reads this`state, this`val, this`zeros
    {
      Fsm(state, val, zeros)
    }

    /** How many bits of the source have been fed to the machine. */
    ghost function Cursor(): nat
      requires nBits <= 8 * pos
      reads this`pos, this`nBits
    {
      8 * pos - nBits
    }

    /** The bits not yet fed to the machine. */
    ghost function Remaining(): seq<Bit>
      requires nBits <= 8 * pos <= |bits|
      reads this`pos, this`nBits, this`bits
    {
      bits[Cursor()..]
    }

    /** A zero-valued decoder over the byte source `r`. */
    constructor (r: seq<Byte>)
      ensures Valid() && src == r && pos == 0 && b == 0 && nBits == 0
      ensures Machine() == Initial && Remaining() == Flatten(r)
    {
      src, pos, b, nBits := r, 0, 0, 0;
      state, val, zeros := CountingZeros, 0, 0;
      bits := Flatten(r);
      new;
      forall i | 0 <= i < |bits|
        ensures bits[i] == SrcBit(r, i)
      {
        FlattenBit(r, i);
      }
    }

    /** Fills `out` with decoded values, bit by bit, taking a byte from the source
        whenever the current one is used up. Stops when `out` is full, or when a byte
        is needed and the source is exhausted, which is reported as `eof`. A value
        whose codeword is cut off by the end of the source is not emitted; the machine
        keeps its partial state. */
    method Read(out: array<int>) returns (count: nat, eof: bool)
      requires Valid()
      modifies this`pos, this`b, this`nBits, this`state, this`val, this`zeros, out
      ensures Valid()
      ensures var r := Run(old(Machine()), old(Remaining()), out.Length);
        && count == |r.values|
        && out[..count] == r.values
        && Machine() == r.fsm
        && Remaining() == old(Remaining())[r.used..]
      ensures forall i :: count <= i < out.Length ==> out[i] == old(out[i])
      ensures eof <==> Remaining() == []
    {
      ghost var f0, c0, rest := Machine(), Cursor(), Remaining();
      ghost var got;
      count, eof, got := Fill(out, f0, c0);
      ProgressDone(f0, bits, c0, rest, out.Length, Cursor(), Machine(), got);
      StoredPrefix(out, count, got);
    }

    /** The loop of Read: decodes from the cursor c0 and machine f0 until `out` is
        full or the source is exhausted, storing the values `got` in out[..count]. */
    method Fill(out: array<int>, ghost f0: Fsm, ghost c0: nat) returns (count: nat, eof: bool, ghost got: seq<int>)
      requires Valid() && c0 == Cursor() && f0 == Machine()
      modifies this`pos, this`b, this`nBits, this`state, this`val, this`zeros, out
      ensures Valid() && c0 <= Cursor() && count <= out.Length && |got| == count
      ensures Progress(f0, bits, c0, out.Length, Cursor(), Machine(), got)
      ensures count == out.Length || Cursor() == |bits|
      ensures forall i :: 0 <= i < count ==> out[i] == got[i]
      ensures forall i :: count <= i < out.Length ==> out[i] == old(out[i])
      ensures eof <==> Cursor() == |bits|
    {
      var n := out.Length;
      count, got := 0, [];
      ProgressStart(f0, bits, c0, n);
      while true
        invariant Valid() && c0 <= Cursor() && count <= n && |got| == count
        invariant Progress(f0, bits, c0, n, Cursor(), Machine(), got)
        invariant forall i :: 0 <= i < count ==> out[i] == got[i]
        invariant forall i :: count <= i < n ==> out[i] == old(out[i])
        decreases |src| - pos, nBits
      {
        if nBits == 0 {
          if pos == |src| {
            return count, true, got;
          }
          TakeByte();
        }
        var full;
        count, full, got := DrainByte(out, count, f0, c0, got);
        if full {
          return count, false, got;
        }
      }
    }

    /** Takes the next byte of the source as the current one, leaving the cursor
        where it was. */
    method TakeByte()
      requires Valid() && nBits == 0 && pos < |src|
      modifies this`b, this`pos, this`nBits
      ensures Valid() && Cursor() == old(Cursor()) && nBits == 8 && pos == old(pos) + 1
      ensures b == src[pos - 1]
    {
      LoadByte(src, bits, pos);
      b, pos, nBits := src[pos], pos + 1, 8;
    }

    /** Feeds the unread bits of the current byte to the machine, storing completed
        values from out[cpos] on, until the byte is used up or `out` is full (`full`,
        with bits left). `got` and `got'` are the values stored so far. */
    method DrainByte(out: array<int>, cpos: nat, ghost f0: Fsm, ghost c0: nat, ghost got: seq<int>)
      returns (next: nat, full: bool, ghost got': seq<int>)
      requires Valid() && c0 <= Cursor() && cpos <= out.Length && |got| == cpos
      requires Progress(f0, bits, c0, out.Length, Cursor(), Machine(), got)
      requires forall i :: 0 <= i < cpos ==> out[i] == got[i]
      modifies this`nBits, this`state, this`val, this`zeros, out
      ensures Valid() && c0 <= Cursor() && cpos <= next <= out.Length && |got'| == next
      ensures Progress(f0, bits, c0, out.Length, Cursor(), Machine(), got')
      ensures forall i :: 0 <= i < next ==> out[i] == got'[i]
      ensures forall i :: next <= i < out.Length ==> out[i] == old(out[i])
      ensures if full then next == out.Length && nBits > 0 else nBits == 0
      ensures nBits <= old(nBits)
    {
      var n := out.Length;
      next, got' := cpos, got;
      while nBits > 0
        invariant Valid() && c0 <= Cursor() && cpos <= next <= n && |got'| == next
        invariant Progress(f0, bits, c0, n, Cursor(), Machine(), got')
        invariant forall i :: 0 <= i < next ==> out[i] == got'[i]
        invariant forall i :: next <= i < n ==> out[i] == old(out[i])
        invariant nBits <= old(nBits)
        decreases nBits
      {
        if next >= n {
          return next, true, got';
        }
        next, got' := Pull(out, next, f0, c0, got');
      }
      full := false;
    }

    /** Feeds one unread bit of the current byte to the machine, storing a completed
        value at out[cpos]; the values stored so far go from `got` to `got'`. */
    method Pull(out: array<int>, cpos: nat, ghost f0: Fsm, ghost c0: nat, ghost got: seq<int>)
      returns (next: nat, ghost got': seq<int>)
      requires Valid() && 0 < nBits && c0 <= Cursor() && cpos < out.Length && |got| == cpos
      requires Progress(f0, bits, c0, out.Length, Cursor(), Machine(), got)
      requires forall i :: 0 <= i < cpos ==> out[i] == got[i]
      modifies this`nBits, this`state, this`val, this`zeros, out
      ensures Valid() && c0 <= Cursor() && nBits == old(nBits) - 1
      ensures cpos <= next <= cpos + 1 && |got'| == next
      ensures Progress(f0, bits, c0, out.Length, Cursor(), Machine(), got')
      ensures forall i :: 0 <= i < next ==> out[i] == got'[i]
      ensures forall i :: next <= i < out.Length ==> out[i] == old(out[i])
    {
      ghost var f, c := Machine(), Cursor();
      assert bits[c] == TestBit(b, nBits - 1);
      var bit;
      next, bit := Advance(out, cpos);
      got' := got + Emitted(Step(f, bit).emit);
      ProgressStep(f0, bits, c0, out.Length, c, f, got, bit, Cursor(), Machine(), got');
    }

    /** Feeds the next bit of the current byte, `(b >> (nBits - 1)) & 1`, to the
        machine and stores a completed value at out[cpos]. */
    method Advance(out: array<int>, cpos: nat) returns (next: nat, bit: Bit)
      requires 0 < nBits && cpos < out.Length
      modifies this`nBits, this`state, this`val, this`zeros, out
      ensures nBits == old(nBits) - 1 && bit == TestBit(b, old(nBits) - 1)
      ensures var s := Step(old(Machine()), bit);
        && Machine() == s.fsm
        && next == cpos + |Emitted(s.emit)|
        && (s.emit.Some? ==> out[cpos] == s.emit.value)
      ensures forall i :: 0 <= i < out.Length && i != cpos ==> out[i] == old(out[i])
      ensures next == cpos ==> out[cpos] == old(out[cpos])
    {
      bit := TestBit(b, nBits - 1);
      nBits := nBits - 1;
      var emit := Feed(bit);
      next := cpos;
      if emit.Some? {
        out[cpos] := emit.value;
        next := cpos + 1;
      }
    }

    /** One bit through the state machine: the registers move as Step says, and a
        completed value is handed back. */
    method Feed(bit: Bit) returns (emit: Option<int>)
      modifies this`state, this`val, this`zeros
      ensures Machine() == Step(old(Machine()), bit).fsm && emit == Step(old(Machine()), bit).emit
    {
      emit := None;
      match state {
        case CountingZeros =>
          if bit == 0 {
            zeros := zeros + 1;
          } else if zeros == 0 {
            emit := Some(0);
          } else {
            state := ShiftingBits;
            val := 1;
          }
        case ShiftingBits =>
          // val <<= 1; val |= bit
          val := 2 * val + bit;
          zeros := zeros - 1;
          if zeros == 0 {
            val := val - 1;
            state := ReadingSign;
          }
        case ReadingSign =>
          if bit == 1 {
            val := -val;
          }
          emit := Some(val);
          state := CountingZeros;
      }
    }
  }

  /** Decoding bits c0 to c of `all` from machine f0, one bit at a time from the
      front, the way the decoder takes them. */
  ghost function DecodeRange(f0: Fsm, all: seq<Bit>, c0: nat, c: nat): Decoded
    requires c0 <= c <= |all|
    decreases c - c0
  {
    if c == c0 then Decoded(f0, [])
    else
      var d := DecodeRange(f0, all, c0, c - 1);
      var s := Step(d.fsm, all[c - 1]);
      Decoded(s.fsm, d.values + Emitted(s.emit))
  }

  /** Taking the bits one at a time is decoding the range. */
  lemma {:induction false} DecodeRangeIsDecode(f0: Fsm, all: seq<Bit>, c0: nat, c: nat)
    requires c0 <= c <= |all|
    ensures DecodeRange(f0, all, c0, c) == Decode(f0, all[c0..c])
    decreases c - c0
  {
    if c == c0 {
      assert all[c0..c] == [];
    } else {
      DecodeRangeIsDecode(f0, all, c0, c - 1);
      var d := Decode(f0, all[c0..c - 1]);
      var s := Step(d.fsm, all[c - 1]);
      assert all[c0..c] == all[c0..c - 1] + [all[c - 1]];
      DecodeAppend(f0, all[c0..c - 1], [all[c - 1]]);
      assert [all[c - 1]][1..] == [];
      assert Decode(d.fsm, [all[c - 1]]) == Decoded(s.fsm, Emitted(s.emit) + []);
      assert Emitted(s.emit) + [] == Emitted(s.emit);
    }
  }

  /** Decoding bits c0 to c from machine f0 gives machine f and the values `done`,
      and the last of those bits was taken while there was room for another value. */
  ghost predicate Progress(f0: Fsm, all: seq<Bit>, c0: nat, room: nat, c: nat, f: Fsm, done: seq<int>)
  {
    && c0 <= c <= |all|
    && DecodeRange(f0, all, c0, c) == Decoded(f, done)
    && (c > c0 ==> |DecodeRange(f0, all, c0, c - 1).values| < room)
  }

  lemma {:induction false} ProgressStart(f0: Fsm, all: seq<Bit>, c0: nat, room: nat)
    requires c0 <= |all|
    ensures Progress(f0, all, c0, room, c0, f0, [])
  {
  }

  /** Taking bit c, with room left, steps the machine once more: machine f' and the
      values done' are what that step leaves. */
  lemma {:induction false} ProgressStep(f0: Fsm, all: seq<Bit>, c0: nat, room: nat, c: nat, f: Fsm, done: seq<int>,
                                        bit: Bit, c': nat, f': Fsm, done': seq<int>)
    requires Progress(f0, all, c0, room, c, f, done)
    requires c < |all| && all[c] == bit && |done| < room && c' == c + 1
    requires f' == Step(f, bit).fsm && done' == done + Emitted(Step(f, bit).emit)
    ensures Progress(f0, all, c0, room, c', f', done')
  {
  }

  /** With the room filled or the bits used up, the run from c0 is what has been
      decoded, and what is left of its input is what is left of the source. */
  lemma {:induction false} ProgressDone(f0: Fsm, all: seq<Bit>, c0: nat, bits: seq<Bit>, room: nat, c: nat, f: Fsm, done: seq<int>)
    requires Progress(f0, all, c0, room, c, f, done) && bits == all[c0..]
    requires |done| >= room || c == |all|
    ensures Run(f0, bits, room) == RunResult(f, done, c - c0)
    ensures bits[c - c0..] == all[c..]
  {
    RangeOfSuffix(f0, all, c0, bits, c);
    if c > c0 {
      RangeOfSuffix(f0, all, c0, bits, c - 1);
    }
    RunStopsAt(f0, bits, room, c - c0);
    assert bits[c - c0..] == all[c..];
  }

  /** Decoding bits c0 to c of `all` is decoding the first c - c0 bits of its suffix from c0. */
  lemma {:induction false} RangeOfSuffix(f0: Fsm, all: seq<Bit>, c0: nat, bits: seq<Bit>, c: nat)
    requires c0 <= c <= |all| && bits == all[c0..]
    ensures DecodeRange(f0, all, c0, c) == Decode(f0, bits[..c - c0])
  {
    assert bits[..c - c0] == all[c0..c];
    DecodeRangeIsDecode(f0, all, c0, c);
  }

  /** The values stored index by index are the prefix of the array. */
  lemma {:induction false} StoredPrefix(out: array<int>, count: nat, got: seq<int>)
    requires count <= out.Length && |got| == count
    requires forall i :: 0 <= i < count ==> out[i] == got[i]
    ensures out[..count] == got
  {
  }

  /** Taking byte p of the source: its bits, least significant counted first, end
      the first p + 1 bytes of the stream. */
  lemma {:induction false} LoadByte(src: seq<Byte>, bits: seq<Bit>, p: nat)
    requires p < |src| && |bits| == 8 * |src|
    requires forall i {:trigger SrcBit(src, i)} :: 0 <= i < |bits| ==> bits[i] == SrcBit(src, i)
    ensures forall k {:trigger TestBit(src[p], k)} :: 0 <= k < 8 ==> bits[8 * (p + 1) - 1 - k] == TestBit(src[p], k)
  {
    forall k | 0 <= k < 8
      ensures bits[8 * (p + 1) - 1 - k] == TestBit(src[p], k)
    {
      var i := 8 * (p + 1) - 1 - k;
      assert bits[i] == SrcBit(src, i);
      DivModUnique(i, 8, p, 7 - k);
    }
  }
}
