/**
 * The testbench's conversion of a flat 200-byte Keccak-f[1600] state into the
 * 5x5 matrix of 64-bit lanes that the design under test exposes
 * (convert_bytes_to_dut_state_format in test_keccak_f.py).
 *
 * Lane (x, y) is read from the eight bytes starting at (x + 5*y) * 8, least
 * significant byte first: the state-string to state-array mapping of section
 * 3.1.2 of FIPS 202, A[x, y, z] = S[64*(5*y + x) + z], together with the bit
 * order inside bytes of Appendix B.1 of FIPS 202.
 */
module StateFormat {
  import opened Bits

  /** The state dimensions of the testbench. */
  const NUM_PLANES: nat := 5
  const NUM_SHEETS: nat := 5
  const LANE_WIDTH: nat := 64

  /** Bytes per lane and per state. */
  const LANE_BYTES: nat := 8
  const STATE_BYTES: nat := NUM_PLANES * NUM_SHEETS * LANE_BYTES

  /** A Python int in 0..255, the element type of the byte list being converted. */
  type byte = v: int | 0 <= v < 256

  /** The offset of byte `byteIdx` of lane (x, y) in the flat state. */
  function ByteIndex(x: nat, y: nat, byteIdx: nat): nat
  {
    (x + y * NUM_PLANES) * 8 + byteIdx
  }

  /** The lane coordinates and byte position that read flat offset i (inverse of ByteIndex). */
  function Coordinates(i: nat): (nat, nat, nat)
  {
    ((i / 8) % NUM_PLANES, i / 8 / NUM_PLANES, i % 8)
  }

  /** The little-endian value of a byte string: sum of t[i] * 256^i. */
  function LeSum(t: seq<byte>): nat
  {
    if |t| == 0 then 0 else t[0] + 256 * LeSum(t[1..])
  }

  /** The value of lane (x, y) of a flat state: its 8 bytes read little-endian. */
  function LaneValue(s: seq<byte>, x: nat, y: nat): nat
    requires x < NUM_PLANES && y < NUM_SHEETS && ByteIndex(x, y, LANE_BYTES) <= |s|
  {
    var start := ByteIndex(x, y, 0);
    LeSum(s[start..start + LANE_BYTES])
  }

  /** Bit i of the state string S of FIPS 202, bytes converted as in its Appendix B.1. */
  function StateBit(s: seq<byte>, i: nat): bool
    requires i < 8 * |s|
  {
    Bit(s[i / 8], i % 8)
  }

  /**
   * The cells of the result matrix the nested loops have written, in order,
   * when they reach cell (x, y): y runs in the outer loop, x in the inner one.
   */
  function CellsBefore(x: nat, y: nat): seq<(nat, nat)>
    requires x <= NUM_PLANES
    decreases y, x
  {
    if x > 0 then CellsBefore(x - 1, y) + [(x - 1, y)]
    else if y > 0 then CellsBefore(NUM_PLANES, y - 1)
    else []
  }

  // ---------------------------------------------------------------------------
  // The index arithmetic

  /** Every offset the conversion reads for a lane of the 5x5 matrix is inside the 200-byte state. */
  lemma ByteIndexInRange(x: nat, y: nat, byteIdx: nat)
    requires x < NUM_PLANES && y < NUM_SHEETS && byteIdx < LANE_BYTES
    ensures ByteIndex(x, y, byteIdx) < STATE_BYTES
  {
  }

  /** Reading offsets back through Coordinates gives the lane and byte that were read. */
  lemma CoordinatesOfByteIndex(x: nat, y: nat, byteIdx: nat)
    requires x < NUM_PLANES && y < NUM_SHEETS && byteIdx < LANE_BYTES
    ensures Coordinates(ByteIndex(x, y, byteIdx)) == (x, y, byteIdx)
  {
  }

  /** Every offset of the 200-byte state is read, by the lane and byte Coordinates names. */
  lemma ByteIndexOfCoordinates(i: nat)
    requires i < STATE_BYTES
    ensures Coordinates(i).0 < NUM_PLANES && Coordinates(i).1 < NUM_SHEETS && Coordinates(i).2 < LANE_BYTES
    ensures ByteIndex(Coordinates(i).0, Coordinates(i).1, Coordinates(i).2) == i
  {
  }

  /** Distinct (lane, byte) pairs read distinct offsets: no byte feeds two lanes. */
  lemma ByteIndexInjective(x1: nat, y1: nat, k1: nat, x2: nat, y2: nat, k2: nat)
    requires x1 < NUM_PLANES && y1 < NUM_SHEETS && k1 < LANE_BYTES
    requires x2 < NUM_PLANES && y2 < NUM_SHEETS && k2 < LANE_BYTES
    requires ByteIndex(x1, y1, k1) == ByteIndex(x2, y2, k2)
    ensures x1 == x2 && y1 == y2 && k1 == k2
  {
  }

  /** The k-th cell the loops write is (k % 5, k / 5). */
  lemma {:induction false} CellsBeforeAt(x: nat, y: nat, k: nat)
    requires x <= NUM_PLANES
    ensures |CellsBefore(x, y)| == x + y * NUM_PLANES
    ensures k < |CellsBefore(x, y)| ==> CellsBefore(x, y)[k] == (k % NUM_PLANES, k / NUM_PLANES)
    decreases y, x
  {
    if x > 0 {
      CellsBeforeAt(x - 1, y, k);
      if k == x - 1 + y * NUM_PLANES {
        assert k % 5 == x - 1 && k / 5 == y;
      }
    } else if y > 0 {
      CellsBeforeAt(NUM_PLANES, y - 1, k);
    }
  }

  /** The loops write each of the 25 cells exactly once: cell (x, y) as the (x + 5*y)-th write and at no other. */
  lemma EachCellWrittenOnce(x: nat, y: nat, k: nat)
    requires x < NUM_PLANES && y < NUM_SHEETS
    ensures |CellsBefore(0, NUM_SHEETS)| == NUM_PLANES * NUM_SHEETS
    ensures k < NUM_PLANES * NUM_SHEETS ==> (CellsBefore(0, NUM_SHEETS)[k] == (x, y) <==> k == x + y * NUM_PLANES)
  {
    CellsBeforeAt(0, NUM_SHEETS, k);
    var j := x + y * NUM_PLANES;
    assert j % 5 == x && j / 5 == y;
    assert k == k % 5 + (k / 5) * 5;
  }

  // ---------------------------------------------------------------------------
  // The little-endian value

  /** A little-endian value of n bytes is below 2^(8n). */
  lemma {:induction false} LeSumBound(t: seq<byte>)
    ensures LeSum(t) < Pow2(8 * |t|)
  {
    if |t| > 0 {
      var n := 8 * (|t| - 1);
      LeSumBound(t[1..]);
      Pow2Plus8(n);
      assert 8 * |t| == n + 8;
    }
  }

  /** Appending a byte adds it at weight 256^|t|. */
  lemma {:induction false} LeSumSnoc(t: seq<byte>, v: byte)
    ensures LeSum(t + [v]) == LeSum(t) + Shl(v, |t| * 8)
  {
    if |t| == 0 {
      assert LeSum([v]) == v + 256 * LeSum([]);
    } else {
      var n := (|t| - 1) * 8;
      assert (t + [v])[1..] == t[1..] + [v];
      LeSumSnoc(t[1..], v);
      ShlPlus8(v, n);
      assert |t| * 8 == n + 8;
    }
  }

  /** Two byte strings of one length with the same little-endian value are equal. */
  lemma {:induction false} LeSumInjective(s: seq<byte>, t: seq<byte>)
    requires |s| == |t| && LeSum(s) == LeSum(t)
    ensures s == t
  {
    if |s| > 0 {
      assert s[0] == LeSum(s) % 256 == t[0];
      LeSumInjective(s[1..], t[1..]);
      assert s == [s[0]] + s[1..];
      assert t == [t[0]] + t[1..];
    }
  }

  /** Bit z of a little-endian value is bit z % 8 of byte z / 8. */
  lemma {:induction false} LeSumBits(t: seq<byte>, z: nat)
    requires z < 8 * |t|
    ensures Bit(LeSum(t), z) == Bit(t[z / 8], z % 8)
  {
    assert Pow2(8) == 256;
    if z < 8 {
      LowBitsShift(t[0], LeSum(t[1..]), z, 8);
    } else {
      HighBitsShift(t[0], LeSum(t[1..]), z - 8, 8);
      LeSumBits(t[1..], z - 8);
      assert (z - 8) / 8 == z / 8 - 1 && (z - 8) % 8 == z % 8;
    }
  }

  /** Adding a multiple of 2^n to a value below 2^n leaves its n low bits alone. */
  lemma {:induction false} LowBitsShift(a: nat, c: nat, z: nat, n: nat)
    requires z < n && a < Pow2(n)
    ensures Bit(a + Pow2(n) * c, z) == Bit(a, z)
    decreases n
  {
    var q := Pow2(n - 1) * c;
    assert Pow2(n) * c == 2 * q;
    if z > 0 {
      assert (a + 2 * q) / 2 == a / 2 + q;
      LowBitsShift(a / 2, c, z - 1, n - 1);
    }
  }

  /** Above bit n, a + 2^n * c has the bits of c when a is below 2^n. */
  lemma {:induction false} HighBitsShift(a: nat, c: nat, z: nat, n: nat)
    requires a < Pow2(n)
    ensures Bit(a + Pow2(n) * c, z + n) == Bit(c, z)
    decreases n
  {
    if n > 0 {
      var q := Pow2(n - 1) * c;
      assert Pow2(n) * c == 2 * q;
      assert (a + 2 * q) / 2 == a / 2 + q;
      HighBitsShift(a / 2, c, z, n - 1);
    }
  }

  // ---------------------------------------------------------------------------
  // Lanes

  /** Every lane fits in LANE_WIDTH bits. */
  lemma LaneValueBound(s: seq<byte>, x: nat, y: nat)
    requires |s| >= STATE_BYTES && x < NUM_PLANES && y < NUM_SHEETS
    ensures LaneValue(s, x, y) < Pow2(LANE_WIDTH)
  {
    var start := ByteIndex(x, y, 0);
    var lane := s[start..start + LANE_BYTES];
    assert LaneValue(s, x, y) == LeSum(lane);
    assert |lane| == LANE_BYTES;
    LeSumBound(lane);
  }

  /**
   * Bit z of lane (x, y) is bit 64*(5*y + x) + z of the state string:
   * A[x, y, z] = S[64*(5*y + x) + z] (section 3.1.2 of FIPS 202).
   */
  lemma LaneBitsMatchStateString(s: seq<byte>, x: nat, y: nat, z: nat)
    requires |s| >= STATE_BYTES && x < NUM_PLANES && y < NUM_SHEETS && z < LANE_WIDTH
    ensures 64 * (5 * y + x) + z < 8 * |s|
    ensures Bit(LaneValue(s, x, y), z) == StateBit(s, 64 * (5 * y + x) + z)
  {
    var start := ByteIndex(x, y, 0);
    var lane := s[start..start + LANE_BYTES];
    LeSumBits(lane, z);
    var i := 64 * (5 * y + x) + z;
    assert i / 8 == start + z / 8 && i % 8 == z % 8;
  }

  /** Lane (x, y) depends on its own eight bytes only. */
  lemma LaneLocality(s: seq<byte>, t: seq<byte>, x: nat, y: nat)
    requires |s| >= STATE_BYTES && |t| >= STATE_BYTES && x < NUM_PLANES && y < NUM_SHEETS
    requires forall k :: 0 <= k < LANE_BYTES ==> s[ByteIndex(x, y, k)] == t[ByteIndex(x, y, k)]
    ensures LaneValue(s, x, y) == LaneValue(t, x, y)
  {
    var start := ByteIndex(x, y, 0);
    var ls, lt := s[start..start + LANE_BYTES], t[start..start + LANE_BYTES];
    forall k | 0 <= k < |ls|
      ensures ls[k] == lt[k]
    {
      assert s[ByteIndex(x, y, k)] == t[ByteIndex(x, y, k)];
    }
    assert ls == lt;
  }

  /** Overwriting a byte outside lane (x, y)'s eight bytes leaves that lane unchanged. */
  lemma LaneUnchangedByOtherBytes(s: seq<byte>, i: nat, v: byte, x: nat, y: nat)
    requires |s| >= STATE_BYTES && i < |s| && x < NUM_PLANES && y < NUM_SHEETS
    requires i < ByteIndex(x, y, 0) || ByteIndex(x, y, LANE_BYTES - 1) < i
    ensures LaneValue(s[i := v], x, y) == LaneValue(s, x, y)
  {
  }

  /**
   * The conversion loses nothing: two 200-byte states with the same 25 lanes
   * are the same state.
   */
  lemma LanesDetermineState(s: seq<byte>, t: seq<byte>)
    requires |s| == STATE_BYTES && |t| == STATE_BYTES
    requires forall x, y :: 0 <= x < NUM_PLANES && 0 <= y < NUM_SHEETS ==> LaneValue(s, x, y) == LaneValue(t, x, y)
    ensures s == t
  {
    forall i | 0 <= i < STATE_BYTES
      ensures s[i] == t[i]
    {
      ByteIndexOfCoordinates(i);
      var (x, y, k) := Coordinates(i);
      var start := ByteIndex(x, y, 0);
      assert LaneValue(s, x, y) == LaneValue(t, x, y);
      LeSumInjective(s[start..start + LANE_BYTES], t[start..start + LANE_BYTES]);
      assert s[i] == s[start..start + LANE_BYTES][k];
      assert t[i] == t[start..start + LANE_BYTES][k];
    }
  }

  // ---------------------------------------------------------------------------
  // The conversion

  /** One turn of the innermost loop: OR-ing in the next byte, shifted into place, extends the little-endian value. */
  lemma AccumulateByte(t: seq<byte>, v: byte)
    ensures BitOr(LeSum(t), Shl(v, |t| * 8)) == LeSum(t + [v])
  {
    LeSumBound(t);
    assert 8 * |t| == |t| * 8;
    OrOfDisjointIsSum(LeSum(t), v, |t| * 8);
    LeSumSnoc(t, v);
  }

  /** A value read from the byte list, or the IndexError Python raises at the first offset past its end. */
  datatype Read<T> = Ok(value: T) | IndexError(index: nat)

  /**
   * The innermost loop: accumulates lane (x, y) from its eight bytes with
   * `lane_val |= byte << (byte_idx * 8)`, failing at the first offset past
   * the end of b.
   */
  method ReadLane(b: array<byte>, x: nat, y: nat) returns (r: Read<nat>)
    requires x < NUM_PLANES && y < NUM_SHEETS
    ensures r.IndexError? <==> b.Length < ByteIndex(x, y, LANE_BYTES)
    ensures r.IndexError? ==> r.index == if b.Length < ByteIndex(x, y, 0) then ByteIndex(x, y, 0) else b.Length
    ensures r.Ok? ==> r.value == LaneValue(b[..], x, y)
  {
    ghost var start := ByteIndex(x, y, 0);
    var laneVal := 0;
    var byteIdx := 0;
    while byteIdx < 8
      invariant 0 <= byteIdx <= 8
      invariant byteIdx > 0 ==> start + byteIdx <= b.Length
      invariant laneVal == if byteIdx == 0 then 0 else LeSum(b[start..start + byteIdx])
    {
      var i := (x + y * NUM_PLANES) * 8 + byteIdx;
      if i >= b.Length {
        return IndexError(i);
      }
      assert i == start + byteIdx;
      AccumulateByte(b[start..start + byteIdx], b[i]);
      assert b[start..start + byteIdx + 1] == b[start..start + byteIdx] + [b[i]];
      laneVal := BitOr(laneVal, Shl(b[i], byteIdx * 8));
      byteIdx := byteIdx + 1;
    }
    assert b[..][start..start + LANE_BYTES] == b[start..start + LANE_BYTES];
    r := Ok(laneVal);
  }

  /**
   * The cells the loops have written before reaching cell (x, y) hold their
   * lanes of s; the others still hold the placeholder 0.
   */
  ghost predicate FilledBefore(m: array2<nat>, s: seq<byte>, x: nat, y: nat)
    reads m
    requires m.Length0 == NUM_PLANES && m.Length1 == NUM_SHEETS
  {
    forall x', y' :: 0 <= x' < NUM_PLANES && 0 <= y' < NUM_SHEETS ==>
      if y' < y || (y' == y && x' < x) then ByteIndex(x', y', LANE_BYTES) <= |s| && m[x', y'] == LaneValue(s, x', y')
      else m[x', y'] == 0
  }

  /**
   * Decodes a flat byte state into lanes[x, y] for x < NUM_PLANES, y < NUM_SHEETS.
   * The bytes are read at offsets 0, 1, ..., 199 in that order, so a list
   * shorter than 200 bytes fails exactly at offset b.Length.
   */
  method ConvertBytesToDutStateFormat(b: array<byte>) returns (r: Read<array2<nat>>, ghost writes: seq<(nat, nat)>)
    ensures r.IndexError? <==> b.Length < STATE_BYTES
    ensures r.IndexError? ==> r.index == b.Length
    ensures r.Ok? ==> fresh(r.value) && r.value.Length0 == NUM_PLANES && r.value.Length1 == NUM_SHEETS
    ensures r.Ok? ==> forall x, y :: 0 <= x < NUM_PLANES && 0 <= y < NUM_SHEETS ==>
      r.value[x, y] == LaneValue(b[..], x, y) && r.value[x, y] < Pow2(LANE_WIDTH)
    ensures r.Ok? ==> writes == CellsBefore(0, NUM_SHEETS)
  {
    ghost var s := b[..];
    var stateMatrix := new nat[NUM_PLANES, NUM_SHEETS]((_, _) => 0);
    writes := [];
    var y := 0;
    while y < NUM_SHEETS
      invariant 0 <= y <= NUM_SHEETS
      invariant ByteIndex(0, y, 0) <= b.Length
      invariant FilledBefore(stateMatrix, s, 0, y)
      invariant writes == CellsBefore(0, y)
    {
      var x := 0;
      while x < NUM_PLANES
        invariant 0 <= x <= NUM_PLANES
        invariant ByteIndex(x, y, 0) <= b.Length
        invariant FilledBefore(stateMatrix, s, x, y)
        invariant writes == CellsBefore(x, y)
      {
        var lane := ReadLane(b, x, y);
        if lane.IndexError? {
          return IndexError(lane.index), writes;
        }
        stateMatrix[x, y] := lane.value;
        writes := writes + [(x, y)];
        x := x + 1;
      }
      y := y + 1;
    }
    forall x, y | 0 <= x < NUM_PLANES && 0 <= y < NUM_SHEETS
      ensures stateMatrix[x, y] == LaneValue(b[..], x, y) < Pow2(LANE_WIDTH)
    {
      LaneValueBound(b[..], x, y);
    }
    r := Ok(stateMatrix);
  }
}
