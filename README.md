# Keccak-f[1600] testbench: state format and round constants

This project models the pure helpers of a cocotb testbench for a hardware
Keccak-f[1600] permutation (`test_keccak_f.py`), and proves properties of
them in Dafny.

- `state_format.dfy` (module `StateFormat`) models
  `convert_bytes_to_dut_state_format`. It turns the flat 200-byte state that
  the reference permutation returns into the 5x5 matrix of 64-bit lanes the
  design exposes. Lane `(x, y)` is built from bytes
  `(x + y*NUM_PLANES)*8 + byte_idx`, with `lane_val |= byte << (byte_idx*8)`,
  for `byte_idx` in `0..7`. The method keeps the nested loops and the in-place
  matrix fill of the source. An input shorter than 200 bytes ends in the
  `IndexError` that Python raises at the first offset past its end.
- `bits.dfy` (module `Bits`) models Python's `|` and `<<` on non-negative
  unbounded integers, as the accumulator uses them.
- `round_constants.dfy` (module `RoundConstants`) models the `RC` table of the
  24 iota round constants that the testbench compares with the design's `rc`
  output. It proves the table equals the round constants of section 3.2.5 of
  FIPS 202, which are produced by the LFSR of Algorithm 5 and placed by
  Algorithm 6.

Properties proved:

- Every offset read is inside the 200-byte state.
- The map (x, y, byte) to offset is a bijection onto 0..199, so no byte feeds two lanes.
- Each lane is the little-endian value of its eight bytes. OR equals addition here because the shifted bytes never overlap.
- Each lane is below 2^64.
- Bit z of lane (x, y) is bit `64*(5y+x)+z` of the FIPS 202 state string.
- A lane depends only on its own eight bytes.
- The 25 lanes determine the state.
- Every matrix cell is written exactly once, in loop order.
- The RC table has 24 entries, with the canonical first and last values.
- Every RC entry matches FIPS 202 bit for bit.

The code reads lane `(x, y)` at lane index `x + 5*y`, so x varies fastest.
That is the FIPS 202 mapping
`A[x, y, z] = S[64(5y + x) + z]`, and `StateFormat.LaneBitsMatchStateString`
states it.

## Model

| member | source | states |
|---|---|---|
| StateFormat.NUM_PLANES | test_keccak_f.py:9 | The number of lanes per plane, 5: the bound of the x loop and the multiplier of y in the byte offset. |
| StateFormat.NUM_SHEETS | test_keccak_f.py:10 | The number of planes, 5: the bound of the y loop and the length of each row of the result matrix. |
| StateFormat.LANE_WIDTH | test_keccak_f.py:11 | The lane width, 64 bits: every lane is below 2^LANE_WIDTH. |
| StateFormat.ConvertBytesToDutStateFormat | test_keccak_f.py:24-39 | Fails with IndexError (at offset len(b)) exactly when the input has fewer than 200 bytes. Otherwise it returns a fresh 5x5 matrix whose cell [x][y] is the little-endian value of lane (x, y)'s eight bytes and is below 2^64. The cells are written in loop order (y outer, x inner), one write per cell. |
| StateFormat.ReadLane | test_keccak_f.py:32-37 | Accumulating `lane_val` by OR-ing in `byte << (byte_idx*8)` over the eight bytes yields the little-endian value of lane (x, y). It fails exactly when the lane's last byte is past the end. The failing index is the first offset past the end that the loop reads. |
| StateFormat.ByteIndexInRange | test_keccak_f.py:35 | Every offset `(x + y*5)*8 + byte_idx` read for x, y < 5 and byte_idx < 8 is below 200. |
| StateFormat.CoordinatesOfByteIndex | test_keccak_f.py:30-35 | Decoding an offset read by the loops gives back the lane (x, y) and the byte position that read it. |
| StateFormat.ByteIndexOfCoordinates | test_keccak_f.py:30-35 | Every offset 0..199 is read by some lane and byte position. The offset map is onto the 200-byte state. |
| StateFormat.ByteIndexInjective | test_keccak_f.py:30-35 | Distinct (x, y, byte_idx) triples read distinct offsets. |
| StateFormat.CellsBeforeAt | test_keccak_f.py:29-38 | After the loops reach cell (x, y) they have made x + 5y writes. The k-th write went to cell (k mod 5, k / 5). |
| StateFormat.EachCellWrittenOnce | test_keccak_f.py:29-38 | The loops make 25 writes. Cell (x, y) is the target of write k if and only if k = x + 5y, so each cell is written exactly once. |
| StateFormat.AccumulateByte | test_keccak_f.py:35-37 | OR-ing the next byte, shifted by 8 times the bytes read so far, into the little-endian value of those bytes gives the little-endian value of the extended byte string. |
| StateFormat.LeSumInjective | test_keccak_f.py:33-37 | Two byte strings of equal length with the same little-endian value are equal. |
| StateFormat.LeSumBits | test_keccak_f.py:33-37 | Bit z of a little-endian value is bit z mod 8 of byte z / 8. |
| StateFormat.LaneValueBound | test_keccak_f.py:34-37 | Every lane assembled from eight bytes is below 2^LANE_WIDTH = 2^64. |
| StateFormat.LaneBitsMatchStateString | test_keccak_f.py:30-37 | Bit z of lane (x, y) is bit 64(5y + x) + z of the state string, with bits inside bytes numbered as in Appendix B.1 of FIPS 202. |
| StateFormat.LaneLocality | test_keccak_f.py:34-37 | Two states that agree on lane (x, y)'s eight bytes give the same lane (x, y). |
| StateFormat.LaneUnchangedByOtherBytes | test_keccak_f.py:34-37 | Changing a byte outside lane (x, y)'s eight bytes leaves lane (x, y) unchanged. |
| StateFormat.LanesDetermineState | test_keccak_f.py:29-39 | Two 200-byte states with equal lanes at all 25 cells are equal, so the conversion is injective. |
| Bits.BitOr | test_keccak_f.py:35 | Python's OR-assignment on non-negative integers: the OR of a and b is at least a, at least b, and at most a + b. |
| Bits.Shl | test_keccak_f.py:35-36 | Python's `<<` on a non-negative integer loses no bits: `v << n` is a multiple of 2^n, and dividing it by 2^n gives back v. |
| Bits.BitOrIsBitwise | test_keccak_f.py:35 | Bit i of the OR of a and b is set if and only if bit i of a or bit i of b is set. |
| Bits.ShlBits | test_keccak_f.py:35-37 | Bit i of `v << n` is bit i - n of v when i >= n, and 0 below n. |
| Bits.OrOfDisjointIsSum | test_keccak_f.py:35-37 | When p < 2^n, the OR of p and `v << n` equals `p + (v << n)`. |
| RoundConstants.RC | test_keccak_f.py:51-76 | The 24 round-constant values of the dictionary, in key order 0..23, as 64-bit words. |
| RoundConstants.RCDomain | test_keccak_f.py:51-76 | The table has an entry for each round index 0..23 and no other. |
| RoundConstants.RCEndpoints | test_keccak_f.py:52-75 | RC[0] is 0x0000000000000001 and RC[23] is 0x8000000080008008. |
| RoundConstants.RCMatchesFips202 | test_keccak_f.py:51-76 | For every round ir < 24 and j <= 6, bit 2^j - 1 of RC[ir] is rc(j + 7ir). rc is R[0] of the Algorithm 5 LFSR after (j + 7ir) mod 255 steps from R = 10000000 (Algorithm 6). |
| RoundConstants.RCOtherBitsClear | test_keccak_f.py:51-76 | For every round, every bit of RC[ir] at a position other than 2^j - 1 (j <= 6) is 0, as Algorithm 6 starts from RC = 0^64. |

## Left out

- StateFormat.ConvertBytesToDutStateFormat: stores each lane as the integer `lane_val`, not the string `hex(lane_val)` that the source puts in the matrix. String formatting is not modelled.
- StateFormat.ConvertBytesToDutStateFormat: the input is typed as a sequence of integers 0..255, which is what the reference permutation returns. A list holding other values (negative, above 255, or not integers) is not modelled.
- StateFormat.ConvertBytesToDutStateFormat: the result is one fresh two-dimensional array, not a list of five separately allocated inner lists. The source never shares or aliases those inner lists.
- The RC dictionary keyed 0..23 is a sequence indexed 0..23. A lookup of a missing key (KeyError) is not modelled, because the testbench only looks up keys 0..23.
- Each RC entry being below 2^64 is carried by the type `bv64` and is not a separate lemma.
- `reset_dut`, every `@cocotb.test()` coroutine, the clock, and the design's signals: simulator I/O and concurrency.
- The Keccak-f[1600] permutation and the reference `KeccakF1600`: not part of this model.
- `BinaryValue` and `TestFailure`: simulator library types outside the model.
