/** Delta compression on top of the exp-Golomb code: a list of integers is
    stored as the residuals between neighbours, and decoding adds them back up. */
module Delta {
  import opened BitSeq
  import opened GolombCode
  import opened DecodeSpec
  import opened RoundTrip
  import Encoder
  import Decoder

  /** The residuals: every value minus the one before it, the first minus `prev`. */
  function Deltas(prev: int, data: seq<int>): (r: seq<int>)
    ensures |r| == |data|
    decreases |data|
  {
    if data == [] then [] else [data[0] - prev] + Deltas(data[0], data[1..])
  }

  /** Running sums of the residuals, starting from `base`. */
  function Sums(base: int, ds: seq<int>): (r: seq<int>)
    ensures |r| == |ds|
    decreases |ds|
  {
    if ds == [] then [] else [base + ds[0]] + Sums(base + ds[0], ds[1..])
  }

  /** The running total after all of ds: the last sum, or `base` when there is none. */
  function Total(base: int, ds: seq<int>): int
    decreases |ds|
  {
    if ds == [] then base else Total(base + ds[0], ds[1..])
  }

  /** Adding the residuals up from the starting value gives back the data. */
  lemma {:induction false} SumsOfDeltas(start: int, data: seq<int>)
    ensures Sums(start, Deltas(start, data)) == data
    decreases |data|
  {
    if data != [] {
      SumsOfDeltas(data[0], data[1..]);
    }
  }

  /** Taking residuals of running sums gives back the residuals. */
  lemma {:induction false} DeltasOfSums(base: int, ds: seq<int>)
    ensures Deltas(base, Sums(base, ds)) == ds
    decreases |ds|
  {
    if ds != [] {
      DeltasOfSums(base + ds[0], ds[1..]);
    }
  }

  /** The k-th residual depends only on the k-th value and the one before it. */
  lemma {:induction false} DeltaAt(prev: int, data: seq<int>, k: nat)
    requires k < |data|
    ensures Deltas(prev, data)[k] == data[k] - (if k == 0 then prev else data[k - 1])
    decreases k
  {
    if k > 0 {
      DeltaAt(data[0], data[1..], k - 1);
    }
  }

  /** One more residual extends the running sums by one more total. */
  lemma {:induction false} SumsSnoc(base: int, ds: seq<int>, x: int)
    ensures Sums(base, ds + [x]) == Sums(base, ds) + [Total(base, ds) + x]
    ensures Total(base, ds + [x]) == Total(base, ds) + x
    decreases |ds|
  {
    if ds != [] {
      assert (ds + [x])[1..] == ds[1..] + [x];
      SumsSnoc(base + ds[0], ds[1..], x);
    }
  }

  /** A single value written through Write([x]) is its codeword. */
  lemma {:induction false} EncodeOne(x: int)
    ensures Encode([x]) == Codeword(x)
  {
    assert Encode([x]) == Codeword(x) + Encode([]);
  }

  /** The stream after Write([ds[k]]), when it held the codewords of ds[..k]. */
  lemma {:induction false} EncodeStep(ds: seq<int>, k: nat, delta: int, before: seq<Bit>, after: seq<Bit>)
    requires k < |ds| && delta == ds[k]
    requires before == Encode(ds[..k]) && after == before + Encode([delta])
    ensures after == Encode(ds[..k + 1])
  {
    EncodeOne(delta);
    EncodePrefix(ds, k);
  }

  /** The residual DeltaEncode computes at step k is the k-th of Deltas, in range. */
  lemma {:induction false} ResidualStep(start: int, data: seq<int>, ds: seq<int>, k: nat, prev: int, delta: int)
    requires ds == Deltas(start, data) && AllInRange(ds) && k < |data|
    requires prev == (if k == 0 then start else data[k - 1]) && delta == data[k] - prev
    ensures k < |ds| && delta == ds[k] && AllInRange([delta])
  {
    DeltaAt(start, data, k);
    assert InRange(ds[k]);
  }

  lemma {:induction false} EncodeWhole(ds: seq<int>, s: seq<Bit>)
    requires s == Encode(ds[..|ds|])
    ensures s == Encode(ds)
  {
    assert ds[..|ds|] == ds;
  }

  /** DeltaEncode: writes the residuals one by one, in a one-element list each,
      then closes the encoder; the bytes are the packed codewords of the residuals. */
  method DeltaEncode(start: int, data: seq<int>) returns (r: seq<Byte>)
    requires AllInRange(Deltas(start, data))
    ensures r == Pack(Encode(Deltas(start, data)))
  {
    ghost var ds := Deltas(start, data);
    var egs := new Encoder.ExpGolombEncoder();
    var prev := start;
    for k := 0 to |data|
      invariant egs.Valid() && egs.stream == Encode(ds[..k])
      invariant prev == if k == 0 then start else data[k - 1]
    {
      var delta := data[k] - prev;
      ResidualStep(start, data, ds, k, prev, delta);
      prev := data[k];
      ghost var before := egs.stream;
      egs.Write([delta]);
      EncodeStep(ds, k, delta, before, egs.stream);
    }
    EncodeWhole(ds, egs.stream);
    egs.Close();
    r := egs.out;
  }

  /** DeltaDecode: reads one value at a time until the decoder reports the end of
      the input, adding each residual to the running value. The result is the
      running sums of everything the bits of `compressed` decode to. */
  method DeltaDecode(base: int, compressed: seq<Byte>) returns (res: seq<int>)
    ensures res == Sums(base, Decode(Initial, Flatten(compressed)).values)
  {
    ghost var all := Decode(Initial, Flatten(compressed)).values;
    res := [];
    var val := base;
    var decoder := new Decoder.ExpGolombDecoder(compressed);
    var tmp := new int[1];
    ghost var got: seq<int> := [];
    while true
      invariant decoder.Valid() && fresh(tmp)
      invariant all == got + Decode(decoder.Machine(), decoder.Remaining()).values
      invariant res == Sums(base, got) && val == Total(base, got)
      decreases |decoder.Remaining()|
    {
      var n, eof;
      ghost var got';
      n, eof, got' := ReadOne(decoder, tmp, all, got);
      if n > 0 {
        ghost var r0, v0 := res, val;
        val := val + tmp[0];
        res := res + [val];
        SumsStep(base, got, r0, v0, tmp[0], got', res, val);
      }
      got := got';
      if eof {
        assert Decode(decoder.Machine(), decoder.Remaining()).values == [];
        assert all == got;
        return;
      }
    }
  }

  /** The call `decoder.Read(tmp)` of DeltaDecode's loop, with room for one value:
      it produces at most that value, and unless it reports the end of the input
      it has used at least one bit. */
  method ReadOne(decoder: Decoder.ExpGolombDecoder, tmp: array<int>, ghost all: seq<int>, ghost got: seq<int>)
    returns (n: nat, eof: bool, ghost got': seq<int>)
    requires decoder.Valid() && tmp.Length == 1
    requires all == got + Decode(decoder.Machine(), decoder.Remaining()).values
    modifies decoder`pos, decoder`b, decoder`nBits, decoder`state, decoder`val, decoder`zeros, tmp
    ensures decoder.Valid()
    ensures all == got' + Decode(decoder.Machine(), decoder.Remaining()).values
    ensures n <= 1 && (n == 0 ==> got' == got) && (n == 1 ==> got' == got + [tmp[0]])
    ensures eof <==> decoder.Remaining() == []
    ensures !eof ==> |decoder.Remaining()| < old(|decoder.Remaining()|)
  {
    ghost var f, rem := decoder.Machine(), decoder.Remaining();
    n, eof := decoder.Read(tmp);
    ghost var step := Run(f, rem, 1);
    ReadStep(all, got, f, rem, step, decoder.Machine(), decoder.Remaining());
    got' := got + step.values;
    if n == 1 {
      assert step.values == tmp[..1] == [tmp[0]];
    } else {
      assert step.values == [];
    }
  }

  /** The running sums and the running value after one more residual x. */
  lemma {:induction false} SumsStep(base: int, got: seq<int>, res: seq<int>, val: int, x: int,
                                    got': seq<int>, res': seq<int>, val': int)
    requires res == Sums(base, got) && val == Total(base, got)
    requires got' == got + [x] && val' == val + x && res' == res + [val']
    ensures res' == Sums(base, got') && val' == Total(base, got')
  {
    SumsSnoc(base, got, x);
  }

  /** One Read with room for one value: the values decoded so far grow by what it
      produced, and unless the input is exhausted it used at least one bit. */
  lemma {:induction false} ReadStep(all: seq<int>, got: seq<int>, f: Fsm, rem: seq<Bit>, step: RunResult, m: Fsm, rest: seq<Bit>)
    requires all == got + Decode(f, rem).values && step == Run(f, rem, 1)
    requires m == step.fsm && rest == rem[step.used..]
    ensures all == (got + step.values) + Decode(m, rest).values
    ensures |step.values| <= 1 && (rest != [] ==> |rest| < |rem|)
  {
    RunThenDecode(f, rem, 1);
    AppendAssoc(got, step.values, Decode(m, rest).values);
  }

  /** Decoding what DeltaEncode produced, from the same starting value, gives back the data. */
  lemma {:induction false} DeltaRoundTrip(start: int, data: seq<int>)
    ensures Sums(start, Decode(Initial, Flatten(Pack(Encode(Deltas(start, data))))).values) == data
  {
    PackedRoundTrip(Deltas(start, data));
    SumsOfDeltas(start, data);
  }
}
