/** The decoder as a state machine over bits: one transition per bit, and the
    two ways of running it, over a whole bit stream (Decode) or until an
    output buffer of a given size is full (Run). */
module DecodeSpec {
  import opened BitSeq

  /** The decoder's states: COUNTING_ZEROS, SHIFTING_BITS, READING_SIGN. */
  datatype State = CountingZeros | ShiftingBits | ReadingSign

  /** The registers that carry a partial codeword from one bit to the next. */
  datatype Fsm = Fsm(state: State, val: int, zeros: int)

  datatype Option<T> = None | Some(value: T)

  /** The machine after one bit, and the value that bit completed, if any. */
  datatype Stepped = Stepped(fsm: Fsm, emit: Option<int>)

  datatype Decoded = Decoded(fsm: Fsm, values: seq<int>)

  /** The machine after a bounded run, the values it produced and the bits it used. */
  datatype RunResult = RunResult(fsm: Fsm, values: seq<int>, used: nat)

  /** A freshly created decoder. */
  const Initial: Fsm := Fsm(CountingZeros, 0, 0)

  /** One transition. `val << 1 | bit` is 2 * val + bit: the low bit of 2 * val is zero. */
  function Step(f: Fsm, bit: Bit): Stepped
  {
    match f.state
    case CountingZeros =>
      if bit == 0 then Stepped(f.(zeros := f.zeros + 1), None)
      else if f.zeros == 0 then Stepped(f, Some(0))
      else Stepped(f.(state := ShiftingBits, val := 1), None)
    case ShiftingBits =>
      var v := 2 * f.val + bit;
      var z := f.zeros - 1;
      if z == 0 then Stepped(Fsm(ReadingSign, v - 1, z), None)
      else Stepped(Fsm(ShiftingBits, v, z), None)
    case ReadingSign =>
      var v := if bit == 1 then -f.val else f.val;
      Stepped(Fsm(CountingZeros, v, f.zeros), Some(v))
  }

  function Emitted(o: Option<int>): seq<int>
  {
    if o.Some? then [o.value] else []
  }

  /** Feeds every bit of the stream to the machine, collecting the values completed. */
  function Decode(f: Fsm, bits: seq<Bit>): (d: Decoded)
    ensures |d.values| <= |bits|
    decreases |bits|
  {
    if bits == [] then Decoded(f, [])
    else
      var s := Step(f, bits[0]);
      var rest := Decode(s.fsm, bits[1..]);
      Decoded(rest.fsm, Emitted(s.emit) + rest.values)
  }

  /** Feeds bits to the machine until room values are produced or the bits run out. */
  function Run(f: Fsm, bits: seq<Bit>, room: nat): (r: RunResult)
    ensures r.used <= |bits| && |r.values| <= room
    ensures room > 0 && bits != [] ==> r.used > 0
    decreases |bits|
  {
    if room == 0 || bits == [] then RunResult(f, [], 0)
    else
      var s := Step(f, bits[0]);
      var rest := Run(s.fsm, bits[1..], room - |Emitted(s.emit)|);
      RunResult(rest.fsm, Emitted(s.emit) + rest.values, rest.used + 1)
  }

  function Take(s: seq<int>, n: nat): seq<int>
  {
    if n <= |s| then s[..n] else s
  }

  /** Decoding a concatenation decodes the second part from where the first left off. */
  lemma {:induction false} DecodeAppend(f: Fsm, a: seq<Bit>, b: seq<Bit>)
    ensures var d1 := Decode(f, a); var d2 := Decode(d1.fsm, b);
      Decode(f, a + b) == Decoded(d2.fsm, d1.values + d2.values)
    decreases |a|
  {
    if a == [] {
      assert a + b == b;
    } else {
      assert (a + b)[0] == a[0];
      assert (a + b)[1..] == a[1..] + b;
      DecodeAppend(Step(f, a[0]).fsm, a[1..], b);
    }
  }

  /** A bounded run decodes a prefix of the bits, and stops early only when the bits run out. */
  lemma {:induction false} RunIsDecodePrefix(f: Fsm, bits: seq<Bit>, room: nat)
    ensures var r := Run(f, bits, room);
      && Decode(f, bits[..r.used]) == Decoded(r.fsm, r.values)
      && (|r.values| < room ==> r.used == |bits|)
    decreases |bits|
  {
    if room == 0 || bits == [] {
      assert bits[..0] == [];
    } else {
      var s := Step(f, bits[0]);
      var room' := room - |Emitted(s.emit)|;
      var r' := Run(s.fsm, bits[1..], room');
      RunIsDecodePrefix(s.fsm, bits[1..], room');
      var k := r'.used;
      assert bits[..k + 1][0] == bits[0];
      assert bits[..k + 1][1..] == bits[1..][..k];
    }
  }

  /** What a bounded run produces, and what remains to be decoded after it. */
  lemma {:induction false} RunThenDecode(f: Fsm, bits: seq<Bit>, room: nat)
    ensures var r := Run(f, bits, room);
      Decode(f, bits).values == r.values + Decode(r.fsm, bits[r.used..]).values
  {
    var r := Run(f, bits, room);
    RunIsDecodePrefix(f, bits, room);
    assert bits == bits[..r.used] + bits[r.used..];
    DecodeAppend(f, bits[..r.used], bits[r.used..]);
  }

  /** A run with room for n values yields the first n values of the whole stream's decoding. */
  lemma {:induction false} RunTake(f: Fsm, bits: seq<Bit>, room: nat)
    ensures Run(f, bits, room).values == Take(Decode(f, bits).values, room)
  {
    var r := Run(f, bits, room);
    RunIsDecodePrefix(f, bits, room);
    RunThenDecode(f, bits, room);
    if |r.values| < room {
      assert bits[r.used..] == [];
    }
  }

  /** Two runs in a row, with rooms a and b, produce what one run with room a + b produces. */
  lemma {:induction false} RunSplit(f: Fsm, bits: seq<Bit>, a: nat, b: nat)
    ensures var r1 := Run(f, bits, a);
      var r2 := Run(r1.fsm, bits[r1.used..], b);
      r1.values + r2.values == Run(f, bits, a + b).values
    decreases |bits|
  {
    if a == 0 || bits == [] {
      RunSplitBase(f, bits, a, b);
    } else {
      var s := Step(f, bits[0]);
      var e := Emitted(s.emit);
      RunSplit(s.fsm, bits[1..], a - |e|, b);
      RunSplitStep(f, bits, a, b, s, e);
    }
  }

  /** RunSplit when the first run does nothing. */
  lemma {:induction false} RunSplitBase(f: Fsm, bits: seq<Bit>, a: nat, b: nat)
    requires a == 0 || bits == []
    ensures var r1 := Run(f, bits, a);
      var r2 := Run(r1.fsm, bits[r1.used..], b);
      r1.values + r2.values == Run(f, bits, a + b).values
  {
    assert bits[0..] == bits;
  }

  /** The inductive step of RunSplit: one bit, then the runs on the rest. */
  lemma {:induction false} RunSplitStep(f: Fsm, bits: seq<Bit>, a: nat, b: nat, s: Stepped, e: seq<int>)
    requires a > 0 && bits != [] && s == Step(f, bits[0]) && e == Emitted(s.emit) && |e| <= a
    requires var r1 := Run(s.fsm, bits[1..], a - |e|);
      var r2 := Run(r1.fsm, bits[1..][r1.used..], b);
      r1.values + r2.values == Run(s.fsm, bits[1..], a - |e| + b).values
    ensures var r1 := Run(f, bits, a);
      var r2 := Run(r1.fsm, bits[r1.used..], b);
      r1.values + r2.values == Run(f, bits, a + b).values
  {
    var t := Run(s.fsm, bits[1..], a - |e|);
    var r1 := Run(f, bits, a);
    assert r1 == RunResult(t.fsm, e + t.values, t.used + 1);
    assert bits[r1.used..] == bits[1..][t.used..];
    var t2 := Run(t.fsm, bits[1..][t.used..], b);
    var u := Run(s.fsm, bits[1..], a - |e| + b);
    assert Run(f, bits, a + b).values == e + u.values;
    AppendAssoc(e, t.values, t2.values);
  }

  /** A run never consumes a bit once its room is full: before its last bit there was room left. */
  lemma {:induction false} RunMinimal(f: Fsm, bits: seq<Bit>, room: nat)
    ensures var r := Run(f, bits, room);
      r.used > 0 ==> |Decode(f, bits[..r.used - 1]).values| < room
    decreases |bits|
  {
    if room > 0 && bits != [] {
      var s := Step(f, bits[0]);
      var room' := room - |Emitted(s.emit)|;
      var r' := Run(s.fsm, bits[1..], room');
      RunMinimal(s.fsm, bits[1..], room');
      if r'.used > 0 {
        var k := r'.used;
        assert bits[..k][0] == bits[0];
        assert bits[..k][1..] == bits[1..][..k - 1];
      } else {
        assert bits[..0] == [];
      }
    }
  }

  /** Decoding a longer prefix never yields fewer values. */
  lemma {:induction false} DecodePrefixGrows(f: Fsm, bits: seq<Bit>, i: nat, j: nat)
    requires i <= j <= |bits|
    ensures |Decode(f, bits[..i]).values| <= |Decode(f, bits[..j]).values|
  {
    assert bits[..j] == bits[..i] + bits[i..j];
    DecodeAppend(f, bits[..i], bits[i..j]);
  }

  /** A bounded run is the decoding of the shortest prefix that fills the room or
      uses up the bits: if k bits fill it (or are all there is) and k - 1 did not,
      the run uses exactly k bits. */
  lemma {:induction false} RunStopsAt(f: Fsm, bits: seq<Bit>, room: nat, k: nat)
    requires k <= |bits|
    requires k == |bits| || |Decode(f, bits[..k]).values| >= room
    requires k > 0 ==> |Decode(f, bits[..k - 1]).values| < room
    ensures var d := Decode(f, bits[..k]); Run(f, bits, room) == RunResult(d.fsm, d.values, k)
  {
    var r := Run(f, bits, room);
    var u := r.used;
    RunIsDecodePrefix(f, bits, room);
    RunMinimal(f, bits, room);
    if u < k {
      DecodePrefixGrows(f, bits, u, k - 1);
    } else if u > k {
      DecodePrefixGrows(f, bits, k, u - 1);
    }
  }
}
