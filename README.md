# deltagolomb in Dafny

A model of the Go package `deltagolomb`: a signed order-zero exponential-Golomb
bit coder plus delta compression on top of it, with proofs about the model.

A value `x` is coded as follows:
- `0` is the single bit `1`.
- Any other `x` takes `u = |x| + 1` and `n = bitLen(u) - 1`. It is coded as
  `n` zero bits, then the `n + 1` binary digits of `u` (most significant
  first), then a sign bit (`1` for negative).

The encoder fills a byte from its most significant bit down. When the bits
of an `addBits` call reach the end of the current byte, even exactly, that
byte is written at once (deltagolomb.go:236-244). Whole middle bytes follow,
and the last 0 to 8 bits start a fresh byte (252-253). If those last bits
fill the fresh byte exactly, it stays in the accumulator with `bitpos = 8`.
This happens exactly when the bits left after the current byte are a
positive multiple of 8. The next `addBits`, `addZeroBits` or `Close` writes
the held byte. `addZeroBits` never leaves a full byte held. `Close` writes a
partially filled last byte with zero padding. Bytes once written are never
changed.

The decoder takes bytes one at a time and feeds their bits to a three-state
machine: `COUNTING_ZEROS`, `SHIFTING_BITS`, `READING_SIGN`.
Values are produced until the caller's buffer is full or the bytes run out.
A codeword cut off by the end of input leaves its partial state in the machine
and is not emitted. `DeltaEncode` codes each value minus its predecessor.
`DeltaDecode` adds the decoded residuals back up.

Layout, following the program's structure:

- `arith.dfy` (`Arith`): powers of two, Euclidean division facts, and bitwise
  OR on naturals. Shifts are written as `* Pow2(k)` and `/ Pow2(k)`.
- `bitseq.dfy` (`BitSeq`): bits and bytes, `BitsOf`, `Value`, `Flatten`
  (bytes to bits, MSB first), and `Pack` (bits to bytes, last byte
  zero-padded).
- `codeword.dfy` (`GolombCode`):
  - the magnitude bound and `BitLength`;
  - `Codeword` and `Encode`, the reference definition of the code;
  - the shape, length and table laws of the code.
- `decode_spec.dfy` (`DecodeSpec`):
  - the decoder's machine as a function `Step` on registers `Fsm(state, val, zeros)`;
  - `Decode`, which feeds it a whole bit stream;
  - `Run`, which feeds it bits until `room` values are out or the bits end.
    `Run` is the specification of one `Read` call.
- `roundtrip.dfy` (`RoundTrip`): decoding the code.
  - Each codeword yields its value.
  - The encoding is prefix-free and injective.
  - Codewords followed by zero padding decode to exactly the values.
- `encoder.dfy` (`Encoder`): the class `ExpGolombEncoder` with `data`,
  `bitpos` and the written bytes `out`, plus the method `BitLen`. A ghost
  field `stream` holds everything encoded so far. `Valid()` ties it to
  `Flatten(out)` followed by the pending top `bitpos` bits of `data`.
- `decoder.dfy` (`Decoder`):
  - The class `ExpGolombDecoder` over a byte source. Its fields are `b`,
    `nBits`, `state`, `val` and `zeros`, plus the read position `pos`.
  - `Machine()` is the register triple.
  - `Remaining()` is the unread bits: the low `nBits` bits of `b`, then the
    bits of the bytes not yet taken.
  - `Read` is proved against `Run`.
- `delta.dfy` (`Delta`): the residual and running-sum functions,
  `DeltaEncode` and `DeltaDecode` as methods over the two classes, and their
  round trip.
- `vectors.dfy` (`Vectors`): the byte strings of the repository's table of
  fixed examples, each proved for `DeltaEncode(0, ...)`.

Two details of the code that the model keeps as written:
- In `READING_SIGN` the code does not reset `zeros`. The model does not reset
  it either. It is already 0 there, because `SHIFTING_BITS` leaves that state
  only when `zeros` reaches 0.
- When the source runs dry, `Read` returns the number of values decoded
  together with the reader's error. The model returns that number and an
  `eof` flag. `eof` holds exactly when no unread bit is left.

## Model

| member | source | states |
|---|---|---|
| GolombCode.BitLength | deltagolomb.go:280-288 | Definition: the number of binary digits of x, 0 for x = 0 |
| GolombCode.Codeword | deltagolomb.go:184-190 | Definition: the reference codeword of the table comment, 1 for 0, otherwise n zeros, the n + 1 digits of \|x\|+1 and the sign bit; add (216-227) is proved to emit it |
| GolombCode.Encode | deltagolomb.go:103-107 | Definition: the codewords of a list, concatenated in order, as Write emits them |
| BitSeq.Pack | deltagolomb.go:114-121 | Definition: bits to bytes, MSB first, the last byte completed with zeros (the padding of lines 192-193), as Close leaves the output |
| DecodeSpec.Step | deltagolomb.go:147-175 | Definition: one bit fed to the three-state machine, giving the new registers and the value completed, if any |
| Arith.BitOrDisjoint | deltagolomb.go:237-241 | OR-ing a value below 2^k into a byte whose low k bits are clear is addition |
| BitSeq.PackBits | deltagolomb.go:114-121 | Packed bits are the bits of the output bytes followed by the zero padding that completes the last byte; the byte count is the bit count rounded up to bytes |
| BitSeq.PackFlatten | deltagolomb.go:114-121 | Packing the bits of whole bytes, followed by more bits, gives those bytes back first |
| BitSeq.PackPad | deltagolomb.go:192-193 | Adding the zero padding yourself does not change the packed bytes |
| BitSeq.BitsSplit | deltagolomb.go:241-252 | The low n+m bits of v are the n bits of v shifted right by m, then the low m bits; this is how addBits cuts a value at byte boundaries |
| GolombCode.BitLengthIsLeast | deltagolomb.go:280-288 | x < 2^k exactly when BitLength(x) <= k: the bit length is the least k with x < 2^k |
| GolombCode.BitLengthShift | deltagolomb.go:281-283 | For x >= 2^k, the bit length of x is k plus that of x shifted right by k |
| GolombCode.CodewordShape | deltagolomb.go:216-227 | A nonzero codeword is n zeros, a 1, the low n bits of \|x\|+1, then the sign bit (1 for negative), with 2^n <= \|x\|+1 < 2^(n+1) |
| GolombCode.CodewordAsShift | deltagolomb.go:222-227 | The codeword is n zeros followed by the n+2 low bits of (\|x\|+1) << 1 \| sign, the argument add passes to addBits |
| GolombCode.FastPath | deltagolomb.go:204-214 | The constant patterns for 0, 1 and -1 (addBits(1, 1), addBits(4, 4) and addBits(5, 4)) are their codewords |
| GolombCode.CodewordTable | deltagolomb.go:184-186 | 0 = 1, ±1 = 010s and ±2 = 011s |
| GolombCode.CodewordTableLonger | deltagolomb.go:187-190 | 3 = 001000, 4 = 001010, 5 = 001100, 6 = 001110 and -6 = 001111 (the table's 00100s to 00111s with the sign bit filled in) |
| GolombCode.ThreeDigitCodeword | deltagolomb.go:187-190 | Magnitudes 3 to 6 take two zeros, the 3 digits of \|x\|+1, and the sign |
| GolombCode.CodewordLength | deltagolomb.go:224-227 | One bit for 0; otherwise 2·(bitLen(\|x\|+1) − 1) + 2 bits |
| GolombCode.CodewordLengthMonotone | deltagolomb.go:224-227 | A larger magnitude never has a shorter codeword |
| GolombCode.SmallCodewordLengths | deltagolomb.go:204-214 | 0 takes one bit, and ±1 and ±2 take four bits each |
| GolombCode.EncodeAppend | deltagolomb.go:103-107 | Encoding a concatenation concatenates the encodings |
| GolombCode.EncodePrefix | deltagolomb.go:104-106 | Encoding one more value of a list appends its codeword |
| DecodeSpec.Run | deltagolomb.go:140-143 | A bounded run uses at most the bits given and produces at most room values; with room and bits left it uses at least one bit |
| DecodeSpec.Decode | deltagolomb.go:147-175 | Decoding a stream yields at most one value per bit |
| DecodeSpec.DecodeAppend | deltagolomb.go:147-175 | The machine state carries a codeword across a split of the bit stream: decoding a+b is decoding b from where a left off |
| DecodeSpec.RunIsDecodePrefix | deltagolomb.go:126-180 | A bounded run is decoding the prefix of the bits it used; a run that stops short of room used all the bits |
| DecodeSpec.RunThenDecode | deltagolomb.go:126-180 | What one Read returns, followed by decoding the rest from the state it leaves, is decoding everything |
| DecodeSpec.RunTake | deltagolomb.go:141-143 | A Read with room r returns the first r values of the whole stream's decoding |
| DecodeSpec.RunSplit | deltagolomb.go:126-180 | A Read with room a followed by a Read with room b yields the values of one Read with room a+b |
| DecodeSpec.RunMinimal | deltagolomb.go:141-143 | A Read stops at the bit that fills its buffer: one bit fewer would not have filled it |
| DecodeSpec.RunStopsAt | deltagolomb.go:140-143 | The first k bits decided by the stopping rule are exactly what the run uses |
| DecodeSpec.DecodePrefixGrows | deltagolomb.go:147-175 | Feeding more bits never un-emits a value |
| Decoder.ExpGolombDecoder.constructor | deltagolomb.go:55-59 | A new decoder is in the initial state, no byte loaded, with all the source's bits unread |
| Decoder.ExpGolombDecoder.Read | deltagolomb.go:126-180 | The count and the values stored are those of Run(machine, unread bits, len(out)); the machine and the unread bits become Run's; the rest of out is untouched; eof iff no bit is left |
| Decoder.ExpGolombDecoder.Fill | deltagolomb.go:130-177 | The outer loop stops with out full or the source exhausted, having decoded the bits it took |
| Decoder.ExpGolombDecoder.TakeByte | deltagolomb.go:131-138 | Loading the next source byte sets nBits to 8 and feeds no bit |
| Decoder.ExpGolombDecoder.DrainByte | deltagolomb.go:140-176 | The inner loop feeds the current byte's bits until the byte is used up, or until out is full with bits left |
| Decoder.ExpGolombDecoder.Pull | deltagolomb.go:141-175 | One iteration of the inner loop feeds exactly one unread bit and stores at most one value |
| Decoder.ExpGolombDecoder.Advance | deltagolomb.go:144-175 | The bit fed is (b >> (nBits-1)) & 1; the registers move as Step says; a completed value lands at out[cpos] |
| Decoder.ExpGolombDecoder.Feed | deltagolomb.go:147-175 | The switch on state is Step: the new registers and the emitted value are Step's |
| BitSeq.BitsOfIndex | deltagolomb.go:144 | Bit k of v, counted from the least significant, is the k-th last of its n low bits |
| BitSeq.TestBitIsShift | deltagolomb.go:144 | (v >> k) & 1 is v / 2^k mod 2 |
| Encoder.BitLen | deltagolomb.go:280-288 | The two loops compute BitLength, the least k with x < 2^k |
| Encoder.ExpGolombEncoder.constructor | deltagolomb.go:47-50 | A new encoder has an empty accumulator and has written nothing |
| Encoder.ExpGolombEncoder.Write | deltagolomb.go:103-107 | The encoded stream grows by the codewords of the list, in order; the bytes already written stay a prefix of the output |
| Encoder.ExpGolombEncoder.WriteInt | deltagolomb.go:110-112 | The encoded stream grows by the codeword of the value; the bytes already written stay a prefix of the output |
| Encoder.ExpGolombEncoder.Close | deltagolomb.go:114-121 | The partial byte is written only when bitpos != 0; the accumulator is reset; the output is Pack of everything encoded |
| Encoder.ExpGolombEncoder.Add | deltagolomb.go:201-229 | The encoded stream grows by Codeword(item), both on the fast paths and on the general path; the bytes already written stay a prefix of the output |
| Encoder.ExpGolombEncoder.AddBits | deltagolomb.go:234-254 | The encoded stream grows by the nbits low bits of bits, MSB first; the bytes already written stay a prefix of the output. The accumulator invariant allows it to be left full (bitpos = 8), as when the last bits exactly fill a fresh byte |
| Encoder.ExpGolombEncoder.AddTail | deltagolomb.go:241-253 | Writing the completed first byte, the whole-byte loop and the final partial byte finish writing the value's bits, appending to the output |
| Encoder.ExpGolombEncoder.AddZeroBits | deltagolomb.go:257-276 | The encoded stream grows by nzeros zero bits; the bytes already written stay a prefix of the output; the accumulator ends with fewer than 8 bits in use |
| RoundTrip.DecodeCodeword | deltagolomb.go:147-190 | From between codewords, a codeword decodes to exactly its value and returns the machine to between codewords; the codeword without its last bit yields nothing |
| RoundTrip.DecodeEncode | deltagolomb.go:192-193 | Codewords followed by any run of zeros decode to exactly the values; the zeros are left counted |
| RoundTrip.PackedRoundTrip | deltagolomb.go:114-180 | The bytes of a closed encoder decode to the values written |
| RoundTrip.PrefixFree | deltagolomb.go:182-191 | No codeword is a prefix of a different one: a stream starting with a codeword determines that codeword and the rest |
| RoundTrip.EncodeInjective | deltagolomb.go:182-191 | Different value lists have different encodings |
| RoundTrip.TruncatedTail | deltagolomb.go:178 | A stream cut off inside a codeword yields only the values before the cut |
| Delta.Deltas | deltagolomb.go:299-303 | One residual per value |
| Delta.Sums | deltagolomb.go:321-324 | One running sum per residual |
| Delta.SumsOfDeltas | deltagolomb.go:295-330 | The running sums of the residuals, from the same start, are the data |
| Delta.DeltasOfSums | deltagolomb.go:295-330 | The residuals of the running sums, from the same start, are the residuals |
| Delta.DeltaAt | deltagolomb.go:300-302 | The k-th residual is data[k] minus data[k-1], or minus start for k = 0 |
| Delta.SumsSnoc | deltagolomb.go:321-324 | One more residual appends the running total plus that residual |
| Delta.DeltaEncode | deltagolomb.go:295-308 | The bytes returned are Pack of the codewords of the residuals from start |
| Delta.DeltaDecode | deltagolomb.go:313-330 | The result is the running sums, from base, of everything the bits of compressed decode to |
| Delta.ReadOne | deltagolomb.go:320 | Read(tmp) with len(tmp) = 1 yields at most one value, the next one decoded; unless it reports the end of input it consumed at least one bit |
| Delta.DeltaRoundTrip | deltagolomb.go:295-330 | Decoding what DeltaEncode returned, from the same start, gives the data back |
| Vectors.VectorZero | deltagolomb_test.go:16 | [0] from 0 encodes to 0x80 |
| Vectors.VectorOne | deltagolomb_test.go:17 | [1] from 0 encodes to 0x40 |
| Vectors.VectorTwo | deltagolomb_test.go:18 | [2] from 0 encodes to 0x60 |
| Vectors.VectorThree | deltagolomb_test.go:19 | [3] from 0 encodes to 0x20 |
| Vectors.VectorSix | deltagolomb_test.go:20 | [6] from 0 encodes to 0x38 |
| Vectors.VectorMinusSix | deltagolomb_test.go:21 | [-6] from 0 encodes to 0x3c |
| Vectors.VectorZeroZero | deltagolomb_test.go:22 | [0, 0] from 0 encodes to 0xc0 |
| Vectors.VectorSixTwelve | deltagolomb_test.go:23 | [6, 12] from 0 encodes to 0x38 0xe0 (residuals 6, 6) |
| Vectors.VectorTwentyThree | deltagolomb_test.go:24 | [23] from 0 encodes to 0x0c 0x00 |
| Vectors.VectorTwentyFour | deltagolomb_test.go:25 | [24] from 0 encodes to 0x0c 0x80 |
| Vectors.CodewordLarge | deltagolomb_test.go:26 | The codeword of 65537 is 16 zeros, a 1, fourteen zeros, 1 0, then sign 0 |
| Vectors.VectorLarge | deltagolomb_test.go:26 | [65537] from 0 encodes to 0x00 0x00 0x80 0x01 0x00 |

## Left out

- Byte I/O:
  - `makeReader` and `makeWriter` (deltagolomb.go:61-90) are not modelled, nor are the `bufio` wrapping and `Flush`.
  - The encoder's writer is the sequence `out` of bytes written.
  - The decoder's reader is a byte sequence consumed from `pos`.
  - `bytes.Buffer` in `DeltaEncode`/`DeltaDecode` is the same sequence.
- Read errors other than end of input are not modelled. Every read from the source either yields the next byte or reports the end.
- Go's `int` and `uint` widths are not modelled; integers are unbounded.
  - The documented limit of ±(2^31 − 2) (deltagolomb.go:197-199) is kept as the precondition `InRange` of `Add`, `WriteInt`, `Write` and `DeltaEncode`.
  - Residuals that would overflow a Go `int` and wrap around are not modelled.
- Encoder.ExpGolombEncoder.AddBits: requires `bits < 2^nbits`. That is what its only caller, `add`, passes. The truncating `byte(...)` casts for wider arguments are not modelled.
- Encoder.ExpGolombEncoder.Close: states the length of the output and its zero padding through `out == Pack(old(stream))`, not directly. Both follow from `BitSeq.PackBits`.
- The decoder's source is fixed when it is constructed. Bytes that become available to the reader later (a growing `io.Reader`) are not modelled.
- The random and exhaustive encode/decode tests and the benchmarks in deltagolomb_test.go are not modelled. For all inputs, their property is `RoundTrip.PackedRoundTrip` and `Delta.DeltaRoundTrip`.
