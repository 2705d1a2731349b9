/**
 * The iota round-constant table the testbench compares the design's `rc`
 * output against (RC in test_keccak_f.py), and the round constants of
 * section 3.2.5 of FIPS 202 that it should equal.
 */
module RoundConstants {
  import opened Bits

  /** The number of rounds of Keccak-f[1600]: the testbench checks RC[i] for i in range(24). */
  const NUM_ROUNDS: nat := 24

  /** The testbench's table: the constant of round i at key i, for i in 0..23. */
  const RC: seq<bv64> := [
    0x0000_0000_0000_0001,
    0x0000_0000_0000_8082,
    0x8000_0000_0000_808A,
    0x8000_0000_8000_8000,
    0x0000_0000_0000_808B,
    0x0000_0000_8000_0001,
    0x8000_0000_8000_8081,
    0x8000_0000_0000_8009,
    0x0000_0000_0000_008A,
    0x0000_0000_0000_0088,
    0x0000_0000_8000_8009,
    0x0000_0000_8000_000A,
    0x0000_0000_8000_808B,
    0x8000_0000_0000_008B,
    0x8000_0000_0000_8089,
    0x8000_0000_0000_8003,
    0x8000_0000_0000_8002,
    0x8000_0000_0000_0080,
    0x0000_0000_0000_800A,
    0x8000_0000_8000_000A,
    0x8000_0000_8000_8081,
    0x8000_0000_0000_8080,
    0x0000_0000_8000_0001,
    0x8000_0000_8000_8008
  ]

  /** The table has exactly one entry per round index 0..23, so RC[i] is defined for every i in range(24). */
  lemma RCDomain()
    ensures |RC| == NUM_ROUNDS
  {
  }

  /** The first and last entries are the canonical Keccak values. */
  lemma RCEndpoints()
    ensures RC[0] == 0x0000_0000_0000_0001 && RC[NUM_ROUNDS - 1] == 0x8000_0000_8000_8008
  {
  }

  /**
   * Bit z of a 64-bit lane (bit 0 is the least significant). The round
   * constants and the LFSR are bit-vectors, so their bits are read with shifts
   * here and by Bit8 below rather than through the integer Bits.Bit: going
   * through integers would bring in the nonlinear arithmetic the bit-vector
   * proofs avoid.
   */
  function LaneBit(v: bv64, z: nat): bool
    requires z < 64
  {
    (v >> z) & 1 == 1
  }

  // ---------------------------------------------------------------------------
  // Section 3.2.5 of FIPS 202

  /**
   * One iteration of Algorithm 5 of FIPS 202 on R[0..7], with R[i] held as
   * bit i: R = 0 || R, then R[0], R[4], R[5], R[6] are XOR-ed with R[8]
   * (the bit shifted out), and R is truncated to 8 bits.
   */
  function LfsrStep(r: bv8): bv8
  {
    (r << 1) ^ (if r & 0x80 != 0 then 0x71 else 0)
  }

  /** R after t iterations of Algorithm 5, starting from R = 10000000. */
  function LfsrState(t: nat): bv8
  {
    if t == 0 then 1 else LfsrStep(LfsrState(t - 1))
  }

  /** rc(t) of Algorithm 5: R[0] after t mod 255 iterations. */
  function Rc(t: nat): bool
  {
    LfsrState(t % 255) & 1 == 1
  }

  /** The position 2^j - 1 that step j of Algorithm 6 writes. */
  function IotaPosition(j: nat): (z: nat)
    requires j <= 6
    ensures z < 64
  {
    Pow2AtMost64(j);
    Pow2(j) - 1
  }

  lemma Pow2AtMost64(j: nat)
    requires j <= 6
    ensures 1 <= Pow2(j) <= 64
  {
    Pow2Add(j, 6 - j);
    assert Pow2(6) == 64;
  }

  // ---------------------------------------------------------------------------
  // Checking the table against Algorithms 5 and 6

  /** n iterations of Algorithm 5 from R = r. */
  function LfsrIterate(r: bv8, n: nat): bv8
    decreases n
  {
    if n == 0 then r else LfsrIterate(LfsrStep(r), n - 1)
  }

  lemma {:induction false} LfsrStateAfter(t: nat, n: nat)
    ensures LfsrState(t + n) == LfsrIterate(LfsrState(t), n)
    decreases n
  {
    if n > 0 {
      LfsrStateAfter(t + 1, n - 1);
    }
  }

  /** Bit k of a byte, the 8-bit counterpart of LaneBit. */
  function Bit8(v: bv8, k: nat): bool
    requires k < 8
  {
    (v >> k) & 1 == 1
  }

  /**
   * The rc bits of one round packed into a byte, the LFSR standing at r when
   * bit j is read: bit k is R[0] after k further iterations.
   */
  function RcByte(r: bv8, j: nat): bv8
    requires j <= 7
    decreases 7 - j
  {
    if j == 7 then 0 else (r & 1) | (RcByte(LfsrStep(r), j + 1) << 1)
  }

  /** Bit k of RcByte(r, j) is R[0] after k iterations from r. */
  lemma {:induction false} RcByteBits(r: bv8, j: nat, k: nat)
    requires j <= 7 && k < 7 - j
    ensures Bit8(RcByte(r, j), k) == (LfsrIterate(r, k) & 1 == 1)
    decreases k
  {
    if k > 0 {
      RcByteBits(LfsrStep(r), j + 1, k - 1);
      ShiftInBit(r, RcByte(LfsrStep(r), j + 1), k);
      assert LfsrIterate(r, k) == LfsrIterate(LfsrStep(r), k - 1);
    }
  }

  /** Shifting v up by one and putting bit 0 of a below it moves bit k - 1 of v to bit k. */
  lemma ShiftInBit(a: bv8, v: bv8, k: nat)
    requires 0 < k < 8
    ensures Bit8((a & 1) | (v << 1), k) == Bit8(v, k - 1)
  {
  }

  /** The lane whose bit 2^j - 1 is bit j of b (j = 0..6) and whose other bits are 0. */
  function IotaLane(b: bv8): bv64
  {
    (if b & 0x01 != 0 then 0x0000_0000_0000_0001 else 0)
    | (if b & 0x02 != 0 then 0x0000_0000_0000_0002 else 0)
    | (if b & 0x04 != 0 then 0x0000_0000_0000_0008 else 0)
    | (if b & 0x08 != 0 then 0x0000_0000_0000_0080 else 0)
    | (if b & 0x10 != 0 then 0x0000_0000_0000_8000 else 0)
    | (if b & 0x20 != 0 then 0x0000_0000_8000_0000 else 0)
    | (if b & 0x40 != 0 then 0x8000_0000_0000_0000 else 0)
  }

  /** Bit 2^j - 1 of IotaLane(b) is bit j of b. */
  lemma IotaLaneBits(b: bv8, j: nat)
    requires j <= 6
    ensures LaneBit(IotaLane(b), IotaPosition(j)) == Bit8(b, j)
  {
    assert Pow2(0) == 1 && Pow2(1) == 2 && Pow2(2) == 4 && Pow2(3) == 8;
    assert Pow2(4) == 16 && Pow2(5) == 32 && Pow2(6) == 64;
  }

  /** IotaLane sets no bit other than the positions 2^j - 1. */
  lemma IotaLaneSupport(b: bv8, z: nat)
    requires z < 64 && LaneBit(IotaLane(b), z)
    ensures exists j :: 0 <= j <= 6 && z == IotaPosition(j)
  {
    assert z == 0 || z == 1 || z == 3 || z == 7 || z == 15 || z == 31 || z == 63;
    assert Pow2(0) == 1 && Pow2(1) == 2 && Pow2(2) == 4 && Pow2(3) == 8;
    assert Pow2(4) == 16 && Pow2(5) == 32 && Pow2(6) == 64;
    var j := if z == 0 then 0 else if z == 1 then 1 else if z == 3 then 2 else if z == 7 then 3
      else if z == 15 then 4 else if z == 31 then 5 else 6;
    assert z == IotaPosition(j);
  }

  /** R at the start of each round: LFSR_AT_ROUND[ir] is R after 7 * ir iterations. */
  const LFSR_AT_ROUND: seq<bv8> := [
    0x01, 0x80, 0xd8, 0x1a, 0xdf, 0x09, 0x35, 0x4f, 0xca, 0x70, 0x41, 0xec, 0xd5, 0xcd, 0x63, 0xab, 0xaa, 0x2a, 0xf2, 0xe8, 0x37, 0x3e, 0x0b, 0x44, 0x8e]

  /** The round whose LFSR starts at r has constant rc, and the LFSR ends at next. */
  predicate RoundFrom(r: bv8, next: bv8, rc: bv64)
  {
    LfsrIterate(r, 7) == next && rc == IotaLane(RcByte(r, 0))
  }

  /** Table t is produced round by round by the LFSR, cp[ir] being R at the start of round ir. */
  ghost predicate LfsrTable(t: seq<bv64>, cp: seq<bv8>)
  {
    |cp| == |t| + 1 && cp[0] == 1
    && forall ir :: 0 <= ir < |t| ==> RoundFrom(cp[ir], cp[ir + 1], t[ir])
  }

  /** The table, checked against the LFSR by evaluation on the literal checkpoints, four rounds at a time. */
  lemma TableRounds0To3()
    ensures forall ir :: 0 <= ir < 4 ==> RoundFrom(LFSR_AT_ROUND[ir], LFSR_AT_ROUND[ir + 1], RC[ir])
  {
  }

  lemma TableRounds4To7()
    ensures forall ir :: 4 <= ir < 8 ==> RoundFrom(LFSR_AT_ROUND[ir], LFSR_AT_ROUND[ir + 1], RC[ir])
  {
  }

  lemma TableRounds8To11()
    ensures forall ir :: 8 <= ir < 12 ==> RoundFrom(LFSR_AT_ROUND[ir], LFSR_AT_ROUND[ir + 1], RC[ir])
  {
  }

  lemma TableRounds12To15()
    ensures forall ir :: 12 <= ir < 16 ==> RoundFrom(LFSR_AT_ROUND[ir], LFSR_AT_ROUND[ir + 1], RC[ir])
  {
  }

  lemma TableRounds16To19()
    ensures forall ir :: 16 <= ir < 20 ==> RoundFrom(LFSR_AT_ROUND[ir], LFSR_AT_ROUND[ir + 1], RC[ir])
  {
  }

  lemma TableRounds20To23()
    ensures forall ir :: 20 <= ir < 24 ==> RoundFrom(LFSR_AT_ROUND[ir], LFSR_AT_ROUND[ir + 1], RC[ir])
  {
  }

  lemma TableRounds()
    ensures LfsrTable(RC, LFSR_AT_ROUND)
  {
    assert |RC| == NUM_ROUNDS && |LFSR_AT_ROUND| == NUM_ROUNDS + 1 && LFSR_AT_ROUND[0] == 1;
    TableRounds0To3();
    TableRounds4To7();
    TableRounds8To11();
    TableRounds12To15();
    TableRounds16To19();
    TableRounds20To23();
  }

  /** In a table the LFSR produces, checkpoint ir is R after 7 * ir iterations from R = 10000000. */
  lemma {:induction false} CheckpointIsLfsrState(t: seq<bv64>, cp: seq<bv8>, ir: nat)
    requires LfsrTable(t, cp) && ir <= |t|
    ensures cp[ir] == LfsrState(7 * ir)
  {
    if ir > 0 {
      CheckpointIsLfsrState(t, cp, ir - 1);
      assert RoundFrom(cp[ir - 1], cp[ir], t[ir - 1]);
      LfsrStateAfter(7 * (ir - 1), 7);
      assert 7 * (ir - 1) + 7 == 7 * ir;
    }
  }

  /** Bit 2^j - 1 of the iota lane of round ir's LFSR output is rc(j + 7 * ir). */
  lemma IotaLaneOfRound(ir: nat, j: nat)
    requires ir < NUM_ROUNDS && j <= 6
    ensures LaneBit(IotaLane(RcByte(LfsrState(7 * ir), 0)), IotaPosition(j)) == Rc(j + 7 * ir)
  {
    var r := LfsrState(7 * ir);
    IotaLaneBits(RcByte(r, 0), j);
    RcByteBits(r, 0, j);
    LfsrStateAfter(7 * ir, j);
    assert (j + 7 * ir) % 255 == 7 * ir + j;
  }

  /**
   * Every entry of the table is the round constant of section 3.2.5 of
   * FIPS 202: bit 2^j - 1 of RC[ir] is rc(j + 7 * ir) (Algorithm 6) ...
   */
  lemma RCMatchesFips202(ir: nat, j: nat)
    requires ir < NUM_ROUNDS && j <= 6
    ensures LaneBit(RC[ir], IotaPosition(j)) == Rc(j + 7 * ir)
  {
    TableRounds();
    CheckpointIsLfsrState(RC, LFSR_AT_ROUND, ir);
    assert RoundFrom(LFSR_AT_ROUND[ir], LFSR_AT_ROUND[ir + 1], RC[ir]);
    IotaLaneOfRound(ir, j);
  }

  /** ... and every other bit of RC[ir] is 0, as Algorithm 6 starts from RC = 0^64. */
  lemma RCOtherBitsClear(ir: nat, z: nat)
    requires ir < NUM_ROUNDS && z < 64
    requires forall j :: 0 <= j <= 6 ==> z != IotaPosition(j)
    ensures !LaneBit(RC[ir], z)
  {
    TableRounds();
    assert RoundFrom(LFSR_AT_ROUND[ir], LFSR_AT_ROUND[ir + 1], RC[ir]);
    if LaneBit(RC[ir], z) {
      IotaLaneSupport(RcByte(LFSR_AT_ROUND[ir], 0), z);
    }
  }
}
